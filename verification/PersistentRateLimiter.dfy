/** A rate limiter whose history lives in a text file of whole seconds. Instants are nanoseconds
    since the epoch. */
module PersistentRateLimiter {
  import opened Bytes
  import opened Decimals
  import opened StableSort

  const SECOND: int := 1_000_000_000
  const MILLISECOND: int := 1_000_000
  const SPACE: byte := 32
  const MINUS: byte := 45
  const PLUS: byte := 43

  /** The whole seconds that the date library can represent. */
  datatype ClockRange = ClockRange(first: int, last: int)

  ghost predicate ValidRange(range: ClockRange) {
    -0x8000_0000_0000_0000 <= range.first && range.last < 0x8000_0000_0000_0000
  }

  // ---- decimal numbers ----

  function Decimal(n: int): seq<byte> {
    if n < 0 then [MINUS] + Digits(-n) else Digits(n)
  }

  /** Parses an optionally signed decimal number that fits 64 bits. */
  function ParseI64(s: seq<byte>): Option<int> {
    var signed := s != [] && (s[0] == MINUS || s[0] == PLUS);
    match DigitsValue(if signed then s[1..] else s)
    case None => None
    case Some(v) =>
      var n: int := if signed && s[0] == MINUS then -(v as int) else v;
      if -0x8000_0000_0000_0000 <= n < 0x8000_0000_0000_0000 then Some(n) else None
  }

  lemma DecimalRoundTrip(n: int)
    requires -0x8000_0000_0000_0000 <= n < 0x8000_0000_0000_0000
    ensures ParseI64(Decimal(n)) == Some(n)
    ensures forall i :: 0 <= i < |Decimal(n)| ==> Decimal(n)[i] != SPACE
  {
    hide Digits, DigitsValue;
    var digits := Digits(if n < 0 then -n else n);
    DigitsRoundTrip(if n < 0 then -n else n);
    if n < 0 {
      assert Decimal(n)[1..] == digits;
    }
  }

  /** Digits may carry either sign; what does not fit 64 bits is not a number. */
  lemma SignedNumbers(digits: seq<byte>, n: nat)
    requires DigitsValue(digits) == Some(n)
    ensures ParseI64(digits) == if n < 0x8000_0000_0000_0000 then Some(n) else None
    ensures ParseI64([43] + digits) == if n < 0x8000_0000_0000_0000 then Some(n) else None
    ensures ParseI64([45] + digits) == if n <= 0x8000_0000_0000_0000 then Some(-(n as int)) else None
  {
    hide ParseI64;
    FirstDigit(digits);
    ParseUnsigned(digits, n);
    ParseSigned(digits, PLUS, n);
    ParseSigned(digits, MINUS, n);
  }

  lemma {:induction false} FirstDigit(s: seq<byte>)
    requires DigitsValue(s).Some?
    ensures s != [] && s[0] >= ZERO_DIGIT
  {
    if |s| > 1 {
      FirstDigit(s[..|s| - 1]);
    }
  }

  lemma ParseUnsigned(digits: seq<byte>, v: nat)
    requires digits != [] && digits[0] >= ZERO_DIGIT && DigitsValue(digits) == Some(v)
    ensures ParseI64(digits) == if v < 0x8000_0000_0000_0000 then Some(v) else None
  {
    hide DigitsValue;
  }

  lemma ParseSigned(digits: seq<byte>, sign: byte, v: nat)
    requires DigitsValue(digits) == Some(v) && (sign == PLUS || sign == MINUS)
    ensures ParseI64([sign] + digits)
            == if sign == PLUS then if v < 0x8000_0000_0000_0000 then Some(v as int) else None
               else if v <= 0x8000_0000_0000_0000 then Some(-(v as int)) else None
  {
    hide DigitsValue;
    var s := [sign] + digits;
    assert s[1..] == digits && s[0] == sign;
  }

  // ---- the file ----

  function FindSpace(s: seq<byte>, i: nat): (r: nat)
    requires i <= |s|
    ensures i <= r <= |s| && (r < |s| ==> s[r] == SPACE) && forall j :: i <= j < r ==> s[j] != SPACE
    decreases |s| - i
  {
    if i == |s| || s[i] == SPACE then i else FindSpace(s, i + 1)
  }

  /** The pieces between spaces; a final space does not start another piece. */
  function Split(text: seq<byte>): seq<seq<byte>>
    decreases |text|
  {
    if text == [] then []
    else
      var end := FindSpace(text, 0);
      [text[..end]] + if end == |text| then [] else Split(text[end + 1..])
  }

  /** Garbage is skipped, and so is a number that is no representable date. */
  function ParseTimes(chunks: seq<seq<byte>>, range: ClockRange): seq<int> {
    if chunks == [] then []
    else
      var rest := ParseTimes(chunks[1..], range);
      match ParseI64(chunks[0])
      case None => rest
      case Some(n) => if range.first <= n <= range.last then [n * SECOND] + rest else rest
  }

  // Sorting key.
  function NewestFirst(t: int): int {
    -t
  }

  function LoadHistory(file: Option<seq<byte>>, range: ClockRange): seq<int> {
    match file
    case None => []
    case Some(text) => SortBy(ParseTimes(Split(text), range), NewestFirst)
  }

  /** The whole second of an instant; the division rounds down. */
  function Timestamp(t: int): int {
    t / SECOND
  }

  function SaveHistory(history: seq<int>): seq<byte> {
    if history == [] then [] else Decimal(Timestamp(history[0])) + [SPACE] + SaveHistory(history[1..])
  }

  // ---- the limiter ----

  function CheckWithTime(history: seq<int>, count: nat, duration: int, now: int): (bool, seq<int>) {
    if |history| >= count && history != [] && now - history[|history| - 1] < duration then (false, history)
    else
      var pushed := [now] + history;
      (true, if |pushed| > count then pushed[..count] else pushed)
  }

  /** What opening the history file finds. */
  datatype HistoryFile = Missing | Unreadable | Text(bytes: seq<byte>)

  function Contents(file: HistoryFile): Option<seq<byte>> {
    if file.Text? then Some(file.bytes) else None
  }

  predicate Configurable(count: nat, duration: int) {
    count > 0 && (duration >= MILLISECOND || duration <= -MILLISECOND)
  }

  class Limiter {
    const count: nat
    const duration: int
    var history: seq<int>

    constructor (count: nat, duration: int, history: seq<int>)
      ensures this.count == count && this.duration == duration && this.history == history
    {
      this.count, this.duration, this.history := count, duration, history;
    }

    /** A missing file is an empty history. A zero count, a duration below a millisecond and a file that
        cannot be opened for another reason are refused. */
    static method Load(file: HistoryFile, count: nat, duration: int, range: ClockRange)
      returns (r: Option<Limiter>)
      ensures r.Some? <==> Configurable(count, duration) && !file.Unreadable?
      ensures r.Some? ==> fresh(r.value) && r.value.count == count && r.value.duration == duration
                          && r.value.history == LoadHistory(Contents(file), range)
    {
      if count == 0 {
        return None;
      }
      if -MILLISECOND < duration < MILLISECOND {
        return None;
      }
      var history := [];
      match file {
        case Text(bytes) => history := LoadHistory(Some(bytes), range);
        case Missing =>
        case Unreadable => return None;
      }
      var limiter := new Limiter(count, duration, history);
      return Some(limiter);
    }

    method Check(now: int) returns (allowed: bool)
      modifies this
      ensures (allowed, history) == CheckWithTime(old(history), count, duration, now)
    {
      if |history| >= count {
        if history != [] {
          var oldest := history[|history| - 1];
          if now - oldest < duration {
            return false;
          }
        }
      }
      history := [now] + history;
      if |history| > count {
        history := history[..count];
      }
      return true;
    }

    /** The file is truncated and rewritten. If it cannot be opened it stays as it was; if writing fails
        on the way it is cut. */
    method Save(file: Option<seq<byte>>) returns (ok: bool, file': Option<seq<byte>>)
      ensures ok ==> file' == Some(SaveHistory(history))
      ensures !ok ==> file' == file || (file'.Some? && file'.value <= SaveHistory(history))
    {
      hide SaveHistory, Decimal, Timestamp;
      var opens: bool := *;
      if !opens {
        return false, file;
      }
      var text := [];
      assert history[0..] == history;
      for i := 0 to |history|
        invariant text + SaveHistory(history[i..]) == SaveHistory(history)
      {
        SaveStep(history, i, text);
        var entry := Decimal(Timestamp(history[i])) + [SPACE];
        var fails: bool, n: nat := *, *;
        if fails {
          n := n % (|entry| + 1);
          CutEntry(text, entry, n, SaveHistory(history[i + 1..]));
          return false, Some(text + entry[..n]);
        }
        text := text + entry;
      }
      SaveEnd(history, text);
      return true, Some(text);
    }
  }

  lemma CutEntry(text: seq<byte>, entry: seq<byte>, n: nat, rest: seq<byte>)
    requires n <= |entry|
    ensures text + entry[..n] <= (text + entry) + rest
  {
  }

  lemma SaveStep(history: seq<int>, i: nat, text: seq<byte>)
    requires i < |history|
    ensures text + SaveHistory(history[i..])
            == (text + (Decimal(Timestamp(history[i])) + [SPACE])) + SaveHistory(history[i + 1..])
  {
    hide Decimal, Timestamp;
    assert history[i..][1..] == history[i + 1..];
  }

  lemma SaveEnd(history: seq<int>, text: seq<byte>)
    ensures text + SaveHistory(history[|history|..]) == text
  {
    assert text + [] == text;
  }

  /** One call of the daemon: load, check, save. */
  method LimitedCall(file: Option<seq<byte>>, count: nat, duration: int, range: ClockRange, now: int)
    returns (allowed: bool, saved: bool, file': Option<seq<byte>>)
    requires Configurable(count, duration)
    ensures allowed == Call(file, count, duration, range, now).0
    ensures saved ==> file' == Call(file, count, duration, range, now).1
  {
    var limiter := Limiter.Load(if file.Some? then Text(file.value) else Missing, count, duration, range);
    allowed := limiter.value.Check(now);
    saved, file' := limiter.value.Save(file);
  }

  function Call(file: Option<seq<byte>>, count: nat, duration: int, range: ClockRange, now: int)
    : (bool, Option<seq<byte>>)
  {
    var (allowed, history) := CheckWithTime(LoadHistory(file, range), count, duration, now);
    (allowed, Some(SaveHistory(history)))
  }

  // ---- what is refused, and what is skipped ----

  /** Whole milliseconds, rounded towards zero. */
  function NumMilliseconds(duration: int): int {
    if duration >= 0 then duration / MILLISECOND else -(-duration / MILLISECOND)
  }

  lemma RefusedConfigurations(count: nat, duration: int)
    ensures Configurable(count, duration) <==> count != 0 && NumMilliseconds(duration) != 0
  {
  }

  /** A word of the file that is not a date, because it is no number or one that the date library cannot
      represent. */
  predicate Garbage(word: seq<byte>, range: ClockRange) {
    match ParseI64(word)
    case None => true
    case Some(n) => !(range.first <= n <= range.last)
  }

  /** Garbage is skipped wherever it stands, and nothing else is. */
  lemma {:induction false} GarbageSkipped(before: seq<seq<byte>>, word: seq<byte>, after: seq<seq<byte>>,
                                          range: ClockRange)
    ensures ParseTimes(before + [word] + after, range)
            == ParseTimes(before, range)
               + (if Garbage(word, range) then [] else [ParseI64(word).value * SECOND])
               + ParseTimes(after, range)
    decreases |before|
  {
    hide ParseI64;
    if before == [] {
      assert [] + [word] + after == [word] + after && ([word] + after)[1..] == after;
    } else {
      var all := before + [word] + after;
      assert all[1..] == before[1..] + [word] + after;
      GarbageSkipped(before[1..], word, after, range);
    }
  }

  /** The history is loaded newest first, whatever the order in the file. */
  lemma {:induction false} LoadedInOrder(text: seq<byte>, range: ClockRange)
    ensures var history := LoadHistory(Some(text), range);
      && multiset(history) == multiset(ParseTimes(Split(text), range))
      && forall i, j :: 0 <= i < j < |history| ==> history[i] >= history[j]
    ensures LoadHistory(None, range) == []
  {
    hide ParseTimes, Split, SortBy;
    SortBySorts(ParseTimes(Split(text), range), NewestFirst, 0);
    var history := LoadHistory(Some(text), range);
    forall i, j | 0 <= i < j < |history|
      ensures history[i] >= history[j]
    {
      assert NewestFirst(history[i]) <= NewestFirst(history[j]);
    }
  }

  /** The text of a history: "5 3 " for five and three seconds after the epoch. */
  lemma SavedText()
    ensures SaveHistory([5_999_999_999, 3_000_000_000]) == [0x35, 0x20, 0x33, 0x20]
  {
    var h := [5_999_999_999, 3_000_000_000];
    assert h[1..] == [3_000_000_000] && h[1..][1..] == [];
    assert Timestamp(5_999_999_999) == 5 && Timestamp(3_000_000_000) == 3;
  }

  // ---- loading what was saved ----

  function Floor(t: int): int {
    Timestamp(t) * SECOND
  }

  function Floors(history: seq<int>): (r: seq<int>)
    ensures |r| == |history|
  {
    seq(|history|, k requires 0 <= k < |history| => Floor(history[k]))
  }

  ghost predicate InRange(history: seq<int>, range: ClockRange) {
    forall k :: 0 <= k < |history| ==> range.first <= Timestamp(history[k]) <= range.last
  }

  ghost predicate NewestToOldest(history: seq<int>) {
    forall i, j :: 0 <= i < j < |history| ==> history[i] >= history[j]
  }

  lemma {:induction false} SplitFirst(word: seq<byte>, rest: seq<byte>)
    requires forall i :: 0 <= i < |word| ==> word[i] != SPACE
    ensures Split(word + [SPACE] + rest) == [word] + Split(rest)
  {
    var text := word + [SPACE] + rest;
    assert text[|word|] == SPACE;
    assert forall i :: 0 <= i < |word| ==> text[i] == word[i];
    var end := FindSpace(text, 0);
    assert end == |word|;
    assert text[..end] == word && text[end + 1..] == rest;
  }

  lemma {:induction false} ParseSaved(history: seq<int>, range: ClockRange)
    requires ValidRange(range) && InRange(history, range)
    ensures ParseTimes(Split(SaveHistory(history)), range) == Floors(history)
    decreases |history|
  {
    hide Split, Decimal, ParseI64;
    if history == [] {
      assert Split([]) == [] by { NothingToSplit(); }
    } else {
      var word, rest := Decimal(Timestamp(history[0])), SaveHistory(history[1..]);
      DecimalRoundTrip(Timestamp(history[0]));
      SplitFirst(word, rest);
      assert ([word] + Split(rest))[1..] == Split(rest);
      ParseSaved(history[1..], range);
    }
  }

  lemma NothingToSplit()
    ensures Split([]) == []
  {
  }

  /** Loading a saved history gives it back, rounded down to whole seconds. */
  lemma {:induction false} LoadSaved(history: seq<int>, range: ClockRange)
    requires ValidRange(range) && InRange(history, range) && NewestToOldest(history)
    ensures LoadHistory(Some(SaveHistory(history)), range) == Floors(history)
  {
    hide Split, SaveHistory, SortBy, ParseTimes, Timestamp;
    ParseSaved(history, range);
    FloorsOrdered(history);
    SortedUnchanged(Floors(history), NewestFirst);
  }

  lemma FloorMonotone(a: int, b: int)
    requires a <= b
    ensures Floor(a) <= Floor(b) && Floor(a) <= a < Floor(a) + SECOND && Floor(Floor(a)) == Floor(a)
  {
  }

  lemma FloorsOrdered(history: seq<int>)
    requires NewestToOldest(history)
    ensures NewestToOldest(Floors(history)) && Sorted(Floors(history), NewestFirst)
  {
    var f := Floors(history);
    forall i, j | 0 <= i < j < |f|
      ensures f[i] >= f[j]
    {
      FloorMonotone(history[j], history[i]);
    }
  }

  // ---- runs ----

  /** A run over a file, with the instants of the allowed calls in order. */
  datatype RunState = RunState(file: Option<seq<byte>>, allowed: seq<int>)

  function Run(count: nat, duration: int, range: ClockRange, times: seq<int>): RunState {
    if times == [] then RunState(None, [])
    else
      var s, now := Run(count, duration, range, times[..|times| - 1]), times[|times| - 1];
      var (ok, file) := Call(s.file, count, duration, range, now);
      RunState(file, if ok then s.allowed + [now] else s.allowed)
  }

  ghost predicate Times(times: seq<int>, range: ClockRange) {
    && InRange(times, range)
    && forall i, j :: 0 <= i < j < |times| ==> times[i] <= times[j]
  }

  /** The last allowed instants, newest first: what the history should hold. */
  function Recent(allowed: seq<int>, count: nat): seq<int> {
    seq(if |allowed| < count then |allowed| else count, k requires 0 <= k < |allowed| => allowed[|allowed| - 1 - k])
  }

  /** A call at `now`, after `allowed` were let through, is let through as well exactly when fewer
      than `count` were, or the `count`-th last of them, rounded down to its second, is at least
      `duration` ago. */
  predicate Due(allowed: seq<int>, count: nat, duration: int, now: int)
    requires count > 0
  {
    |allowed| < count || now - Floor(allowed[|allowed| - count]) >= duration
  }

  ghost predicate Good(s: RunState, count: nat, range: ClockRange, bound: int) {
    && LoadHistory(s.file, range) == Floors(Recent(s.allowed, count))
    && (forall i, j :: 0 <= i < j < |s.allowed| ==> s.allowed[i] <= s.allowed[j])
    && (forall i :: 0 <= i < |s.allowed| ==> s.allowed[i] <= bound)
    && InRange(s.allowed, range)
  }

  lemma RecentGood(allowed: seq<int>, count: nat, range: ClockRange)
    requires forall i, j :: 0 <= i < j < |allowed| ==> allowed[i] <= allowed[j]
    requires InRange(allowed, range)
    ensures NewestToOldest(Recent(allowed, count)) && InRange(Recent(allowed, count), range)
  {
    hide Timestamp;
  }

  // Floors of a newest-first history may be mixed with one exact instant: saving rounds all down.
  lemma CallGood(s: RunState, count: nat, duration: int, range: ClockRange, bound: int, now: int)
    requires ValidRange(range) && Configurable(count, duration) && Good(s, count, range, bound)
    requires bound <= now && range.first <= Timestamp(now) <= range.last
    ensures var (ok, file) := Call(s.file, count, duration, range, now);
      && ok == Due(s.allowed, count, duration, now)
      && Good(RunState(file, if ok then s.allowed + [now] else s.allowed), count, range, now)
  {
    hide SaveHistory, LoadHistory, Timestamp, Floor, Due;
    var loaded := LoadHistory(s.file, range);
    RecentGood(s.allowed, count, range);
    var recent := Recent(s.allowed, count);
    var (ok, history) := CheckWithTime(loaded, count, duration, now);
    FloorsStable(recent, range);
    CheckDecides(s.allowed, count, duration, now);
    if ok {
      var allowed := s.allowed + [now];
      RecentGood(allowed, count, range);
      PushedHistory(s.allowed, count, now);
      PushedGood(recent, now, count, range);
      LoadSaved(history, range);
    } else {
      LoadSaved(loaded, range);
    }
  }

  // The oldest entry of the history is the `count`-th last allowed call, rounded down.
  lemma CheckDecides(allowed: seq<int>, count: nat, duration: int, now: int)
    requires count > 0
    ensures CheckWithTime(Floors(Recent(allowed, count)), count, duration, now).0 == Due(allowed, count, duration, now)
  {
    hide Floor;
  }

  lemma FloorsStable(history: seq<int>, range: ClockRange)
    requires NewestToOldest(history) && InRange(history, range)
    ensures Floors(Floors(history)) == Floors(history)
    ensures NewestToOldest(Floors(history)) && InRange(Floors(history), range)
    ensures forall k :: 0 <= k < |history| ==> Floors(history)[k] <= history[k]
  {
    FloorsOrdered(history);
    forall k | 0 <= k < |history|
      ensures Floor(Floor(history[k])) == Floor(history[k]) <= history[k]
      ensures Timestamp(Floor(history[k])) == Timestamp(history[k])
    {
      FloorMonotone(history[k], history[k]);
    }
  }

  lemma PushedHistory(allowed: seq<int>, count: nat, now: int)
    requires count > 0
    ensures var pushed := [now] + Floors(Recent(allowed, count));
      var history := if |pushed| > count then pushed[..count] else pushed;
      && |history| == |Recent(allowed + [now], count)|
      && history[0] == now
      && (forall k :: 0 < k < |history| ==> history[k] == Floor(Recent(allowed + [now], count)[k]))
      && Recent(allowed + [now], count)[0] == now
  {
    hide Floor;
  }

  // Rounding the pushed history down gives the rounded recent instants.
  lemma PushedGood(recent: seq<int>, now: int, count: nat, range: ClockRange)
    requires NewestToOldest(Floors(recent)) && InRange(Floors(recent), range)
    requires forall k :: 0 <= k < |recent| ==> Floors(recent)[k] <= now
    requires range.first <= Timestamp(now) <= range.last
    ensures var pushed := [now] + Floors(recent);
      var history := if |pushed| > count then pushed[..count] else pushed;
      NewestToOldest(history) && InRange(history, range)
  {
    hide Timestamp, Floor;
  }

  ghost predicate RunIsGood(s: RunState, count: nat, range: ClockRange, times: seq<int>) {
    if times == [] then s == RunState(None, []) else Good(s, count, range, times[|times| - 1])
  }

  lemma {:induction false} RunGood(count: nat, duration: int, range: ClockRange, times: seq<int>)
    requires ValidRange(range) && Configurable(count, duration) && Times(times, range)
    ensures RunIsGood(Run(count, duration, range, times), count, range, times)
    ensures times != [] ==>
      var before, now := Run(count, duration, range, times[..|times| - 1]), times[|times| - 1];
      Run(count, duration, range, times).allowed
      == if Due(before.allowed, count, duration, now) then before.allowed + [now] else before.allowed
    decreases |times|
  {
    hide Good, Call, Due;
    if times != [] {
      var prefix, now := times[..|times| - 1], times[|times| - 1];
      RunGood(count, duration, range, prefix);
      if prefix == [] {
        EmptyGood(count, range, now);
        CallGood(RunState(None, []), count, duration, range, now, now);
      } else {
        CallGood(Run(count, duration, range, prefix), count, duration, range, prefix[|prefix| - 1], now);
      }
    }
  }

  lemma EmptyGood(count: nat, range: ClockRange, bound: int)
    ensures Good(RunState(None, []), count, range, bound)
  {
  }

  /** Each allowed call is due with respect to the allowed calls before it. */
  lemma {:induction false} AllowedWereDue(count: nat, duration: int, range: ClockRange, times: seq<int>, i: nat)
    requires ValidRange(range) && Configurable(count, duration) && Times(times, range)
    requires i < |Run(count, duration, range, times).allowed|
    ensures var allowed := Run(count, duration, range, times).allowed;
      Due(allowed[..i], count, duration, allowed[i])
    decreases |times|
  {
    hide Call, Due;
    RunGood(count, duration, range, times);
    var allowed := Run(count, duration, range, times).allowed;
    var before := Run(count, duration, range, times[..|times| - 1]).allowed;
    if i < |before| {
      AllowedWereDue(count, duration, range, times[..|times| - 1], i);
      assert allowed[..i] == before[..i];
    } else {
      assert allowed[..i] == before;
    }
  }

  predicate WholeSeconds(times: seq<int>) {
    forall i :: 0 <= i < |times| ==> times[i] % SECOND == 0
  }

  lemma {:induction false} AllowedFromTimes(count: nat, duration: int, range: ClockRange, times: seq<int>)
    ensures forall t :: t in Run(count, duration, range, times).allowed ==> t in times
    decreases |times|
  {
    hide Call;
    if times != [] {
      AllowedFromTimes(count, duration, range, times[..|times| - 1]);
    }
  }

  /** Over any non-decreasing sequence of calls, allowed calls number `i` and `i + count` are less than
      a second short of `duration` apart, and at least `duration` apart when calls come at whole
      seconds. */
  lemma {:induction false} SlidingWindow(count: nat, duration: int, range: ClockRange, times: seq<int>, i: nat)
    requires ValidRange(range) && Configurable(count, duration) && Times(times, range)
    requires i + count < |Run(count, duration, range, times).allowed|
    ensures var allowed := Run(count, duration, range, times).allowed;
      && allowed[i + count] - allowed[i] > duration - SECOND
      && (WholeSeconds(times) ==> allowed[i + count] - allowed[i] >= duration)
  {
    hide Run, Timestamp;
    var allowed := Run(count, duration, range, times).allowed;
    AllowedWereDue(count, duration, range, times, i + count);
    AllowedFromTimes(count, duration, range, times);
    assert allowed[..i + count][i] == allowed[i];
    FloorMonotone(allowed[i], allowed[i]);
    if WholeSeconds(times) {
      assert allowed[i] in times;
      WholeSecondFloor(allowed[i]);
    }
  }

  lemma WholeSecondFloor(t: int)
    requires t % SECOND == 0
    ensures Floor(t) == t
  {
  }

  lemma GoodOrdered(s: RunState, count: nat, range: ClockRange, times: seq<int>)
    requires RunIsGood(s, count, range, times)
    ensures forall i, j :: 0 <= i < j < |s.allowed| ==> s.allowed[i] <= s.allowed[j]
  {
    hide LoadHistory, Floors, Recent;
  }

  /** The exact sliding window is full at `now` when `count` allowed calls lie less than `duration`
      before it. */
  predicate WindowFull(allowed: seq<int>, count: nat, duration: int, now: int) {
    |allowed| >= count && forall k :: |allowed| - count <= k < |allowed| ==> now - allowed[k] < duration
  }

  lemma OldestDecides(allowed: seq<int>, count: nat, duration: int, now: int)
    requires 0 < count <= |allowed| && forall i, j :: 0 <= i < j < |allowed| ==> allowed[i] <= allowed[j]
    ensures WindowFull(allowed, count, duration, now) <==> now - allowed[|allowed| - count] < duration
  {
  }

  /** At any times at all: the code decides as the exact window does unless the instant `duration` ago
      falls in the second of the `count`-th last allowed call, before it. Then it lets a call through
      though the window is full; it never refuses one while the window is not. */
  lemma {:induction false} DecidesExactly(count: nat, duration: int, range: ClockRange, times: seq<int>)
    requires ValidRange(range) && Configurable(count, duration) && Times(times, range) && times != []
    ensures var before, now := Run(count, duration, range, times[..|times| - 1]).allowed, times[|times| - 1];
      var after, full := Run(count, duration, range, times).allowed, WindowFull(before, count, duration, now);
      && (after == before || after == before + [now])
      && (after == before ==> full)
      && (after == before + [now] && full
          <==> |before| >= count && var t := before[|before| - count]; Floor(t) <= now - duration < t)
  {
    hide Run, Floor, RunIsGood, WindowFull;
    RunGood(count, duration, range, times);
    RunGood(count, duration, range, times[..|times| - 1]);
    var before, now := Run(count, duration, range, times[..|times| - 1]).allowed, times[|times| - 1];
    NotFull(before, count, duration, now);
    if |before| >= count {
      var t := before[|before| - count];
      FloorMonotone(t, t);
      GoodOrdered(Run(count, duration, range, times[..|times| - 1]), count, range, times[..|times| - 1]);
      OldestDecides(before, count, duration, now);
    }
    assert |before + [now]| > |before|;
  }

  lemma NotFull(allowed: seq<int>, count: nat, duration: int, now: int)
    ensures |allowed| < count ==> !WindowFull(allowed, count, duration, now)
  {
  }

  /** A call at a whole second is refused exactly when `count` allowed calls lie less than `duration`
      before it. */
  lemma {:induction false} RefusedExactly(count: nat, duration: int, range: ClockRange, times: seq<int>)
    requires ValidRange(range) && Configurable(count, duration) && Times(times, range)
    requires times != [] && WholeSeconds(times)
    ensures var before, now := Run(count, duration, range, times[..|times| - 1]).allowed, times[|times| - 1];
      Run(count, duration, range, times).allowed == before <==> WindowFull(before, count, duration, now)
  {
    hide Run, Floor, WindowFull;
    var prefix := times[..|times| - 1];
    var before := Run(count, duration, range, prefix).allowed;
    DecidesExactly(count, duration, range, times);
    AllowedFromTimes(count, duration, range, prefix);
    if |before| >= count {
      var t := before[|before| - count];
      assert t in before;
      var j :| 0 <= j < |prefix| && prefix[j] == t;
      assert times[j] == t;
      WholeSecondFloor(t);
    }
    assert |before + [times[|times| - 1]]| > |before|;
  }

  /** Between whole seconds the window really can be short: with one call per second allowed, a call a
      millisecond after another is let through, because the file forgot the fraction. */
  lemma FractionForgotten()
    ensures var range := ClockRange(-1000, 1000);
      Run(1, SECOND, range, [999 * MILLISECOND, SECOND]).allowed == [999 * MILLISECOND, SECOND]
  {
    hide Run, RunIsGood, Floor;
    var range, a, b := ClockRange(-1000, 1000), 999 * MILLISECOND, SECOND;
    FirstAllowed(1, SECOND, range, a);
    RunGood(1, SECOND, range, [a, b]);
    assert [a, b][..1] == [a];
    assert Floor(a) == 0 by {
      StartOfEpoch();
    }
  }

  lemma StartOfEpoch()
    ensures Floor(999 * MILLISECOND) == 0
  {
  }

  lemma {:induction false} FirstAllowed(count: nat, duration: int, range: ClockRange, now: int)
    requires ValidRange(range) && Configurable(count, duration) && range.first <= Timestamp(now) <= range.last
    ensures Run(count, duration, range, [now]).allowed == [now]
  {
    hide RunIsGood, Call;
    RunGood(count, duration, range, [now]);
    assert [now][..0] == [];
  }
}
