/** Processing log records: headroom check, rotation, rate limiting, and the bookkeeping that lets no
    record vanish uncounted. */
module LogCollector {
  import opened Bytes
  import opened DiskSizes
  import opened LogFiles
  import Chain = LogChain

  datatype Headroom = Enough | Shortage(numDroppedLogs: nat, hasRotated: bool)
  datatype RateLimitedCalls = RateLimitedCalls(count: nat, latestCall: Timestamp)

  /** Which operations fail while a record is processed. */
  datatype Faults = Faults(warning: bool, recovered: bool, report: bool, record: bool,
                           openInShortage: bool, openBefore: bool, openAfter: bool)

  const NO_FAULTS := Faults(false, false, false, false, false, false, false)

  /** One arriving record together with what its environment answers: the space available (none if the
      query fails), whether the rate limiter has a token, whether the file is too old at each of the
      checks, and what fails. */
  datatype Arrival = Arrival(value: string, ts: Timestamp, available: Option<DiskSize>, admitted: bool,
                             agedInShortage: bool, agedBefore: bool, agedAfter: bool, faults: Faults)

  /** The fixed configuration; `lineSize` is the length of a serialized line. */
  datatype Settings = Settings(minHeadroom: DiskSize, maxSize: nat, lineSize: Line -> nat)

  datatype Collector = Collector(control: Control, headroom: Headroom, limited: Option<RateLimitedCalls>)

  function Put(settings: Settings, c: Control, line: Line, fails: bool): Control {
    if fails then c else WriteLine(c, line, settings.lineSize(line))
  }

  /** The warning says what there is too little of. */
  function Warning(settings: Settings, ts: Timestamp, available: DiskSize): Line {
    match (available.bytes >= settings.minHeadroom.bytes, available.inodes >= settings.minHeadroom.inodes)
    case (false, false) => LowHeadroom(ts, true, true)
    case (false, true) => LowHeadroom(ts, true, false)
    case (true, false) => LowHeadroom(ts, false, true)
    case (true, true) => LowHeadroom(ts, false, false)
  }

  /** What the headroom check comes to: an answer, an error, or the case declared unreachable. */
  datatype Checked = Checked(c: Control, headroom: Headroom, ok: bool) | CheckFailed | Unreachable

  function Check(settings: Settings, c: Control, state: Headroom, a: Arrival): Checked {
    if a.available.None? then CheckFailed
    else if a.available.value.Exceeds(settings.minHeadroom) then
      match state
      case Enough => Checked(c, Enough, true)
      case Shortage(n, _) =>
        if a.faults.recovered then CheckFailed else Checked(Put(settings, c, Recovered(a.ts, n), false), Enough, true)
    else
      match state
      case Enough =>
        if a.available.value.AtLeast(settings.minHeadroom) then Unreachable
        else
          var c' := Put(settings, c, Warning(settings, a.ts, a.available.value), a.faults.warning);
          var (c'', r) := RotateIfNeeded(c', settings.maxSize, a.agedInShortage, !a.faults.openInShortage);
          Checked(c'', Shortage(1, r == Rotated), false)
      case Shortage(n, hasRotated) =>
        if hasRotated then Checked(c, Shortage(n + 1, true), false)
        else
          var (c', r) := RotateIfNeeded(c, settings.maxSize, a.agedInShortage, !a.faults.openInShortage);
          Checked(c', Shortage(n + 1, r == Rotated), false)
  }

  /** The third result says whether the work succeeded; the pending count is taken either way. */
  function RunWithinLimits(settings: Settings, c: Control, limited: Option<RateLimitedCalls>, a: Arrival)
    : (Control, Option<RateLimitedCalls>, bool)
  {
    if a.admitted then
      if limited.Some? && a.faults.report then (c, None, false)
      else
        var c' := match limited
          case Some(l) => Put(settings, c, RateLimited(l.latestCall, l.count), false)
          case None => c;
        (Put(settings, c', Record(a.value), a.faults.record), None, !a.faults.record)
    else
      (c, Some(RateLimitedCalls(if limited.Some? then limited.value.count + 1 else 1, a.ts)), true)
  }

  /** None where the code declares the case unreachable. An error is only logged by the caller, which
      goes on with the next record. */
  function Process(settings: Settings, s: Collector, a: Arrival): Option<Collector> {
    match Check(settings, s.control, s.headroom, a)
    case Unreachable => None
    case CheckFailed => Some(s)
    case Checked(c, headroom, ok) =>
      if !ok then Some(Collector(c, headroom, s.limited))
      else
        var (c1, before) := RotateIfNeeded(c, settings.maxSize, a.agedBefore, !a.faults.openBefore);
        if before == OpenFailed then Some(Collector(c1, headroom, s.limited))
        else
          var (c2, limited, worked) := RunWithinLimits(settings, c1, s.limited, a);
          var c3 := if worked then RotateIfNeeded(c2, settings.maxSize, a.agedAfter, !a.faults.openAfter).0 else c2;
          Some(Collector(c3, headroom, limited))
  }

  /** None once a record has hit the unreachable case. */
  function Run(settings: Settings, s: Collector, arrivals: seq<Arrival>): Option<Collector> {
    if arrivals == [] then Some(s)
    else
      match Run(settings, s, arrivals[..|arrivals| - 1])
      case None => None
      case Some(s') => Process(settings, s', arrivals[|arrivals| - 1])
  }

  // ---- the classes ----

  class HeadroomLimiter {
    var state: Headroom
    const settings: Settings

    constructor (settings: Settings)
      ensures this.settings == settings && state == Enough
    {
      this.settings, this.state := settings, Enough;
    }

    method CheckHeadroom(a: Arrival, control: LogFileControl) returns (panicked: bool, ok: Option<bool>)
      requires control.maxSize == settings.maxSize
      modifies this, control
      ensures var r := Check(settings, old(control.State()), old(state), a);
        && (panicked <==> r == Unreachable)
        && (ok.None? <==> !r.Checked?)
        && (ok.None? ==> state == old(state) && control.State() == old(control.State()))
        && (ok.Some? ==> r == Checked(control.State(), state, ok.value))
    {
      if a.available.None? {
        return false, None;
      }
      var available := a.available.value;
      var hasHeadroom := available.Exceeds(settings.minHeadroom);
      match (hasHeadroom, state) {
        case (false, Enough) =>
          if available.bytes >= settings.minHeadroom.bytes && available.inodes >= settings.minHeadroom.inodes {
            return true, None;
          }
          var line := Warning(settings, a.ts, available);
          var _ := control.WriteJsonLine(line, settings.lineSize(line), a.faults.warning);
          var r := control.RotateIfNeededNow(a.agedInShortage, !a.faults.openInShortage);
          state := Shortage(1, r == Rotated);
        case (false, Shortage(numDroppedLogs, hasRotated)) =>
          var rotated := hasRotated;
          if !hasRotated {
            var r := control.RotateIfNeededNow(a.agedInShortage, !a.faults.openInShortage);
            rotated := r == Rotated;
          }
          state := Shortage(numDroppedLogs + 1, rotated);
        case (true, Shortage(numDroppedLogs, _)) =>
          var line := Recovered(a.ts, numDroppedLogs);
          var written := control.WriteJsonLine(line, settings.lineSize(line), a.faults.recovered);
          if !written {
            return false, None;
          }
          state := Enough;
        case (true, Enough) =>
      }
      return false, Some(hasHeadroom);
    }
  }

  class RateLimiter {
    var limitedCalls: Option<RateLimitedCalls>

    constructor ()
      ensures limitedCalls == None
    {
      limitedCalls := None;
    }

    // The work of an admitted call is to write the pending report and the record.
    method RunLimited(settings: Settings, a: Arrival, control: LogFileControl) returns (ok: bool)
      modifies this, control
      ensures (control.State(), limitedCalls, ok)
              == RunWithinLimits(settings, old(control.State()), old(limitedCalls), a)
    {
      if a.admitted {
        var taken := limitedCalls;
        limitedCalls := None;
        if taken.Some? {
          var line := RateLimited(taken.value.latestCall, taken.value.count);
          ok := control.WriteJsonLine(line, settings.lineSize(line), a.faults.report);
          if !ok {
            return;
          }
        }
        ok := control.WriteJsonLine(Record(a.value), settings.lineSize(Record(a.value)), a.faults.record);
      } else {
        limitedCalls := match limitedCalls
          case None => Some(RateLimitedCalls(1, a.ts))
          case Some(l) => Some(RateLimitedCalls(l.count + 1, a.ts));
        ok := true;
      }
    }
  }

  class Inner {
    const settings: Settings
    const rateLimiter: RateLimiter
    const logFileControl: LogFileControl
    const headroomLimiter: HeadroomLimiter

    constructor (settings: Settings, control: LogFileControl)
      requires control.maxSize == settings.maxSize
      ensures Valid() && this.settings == settings && logFileControl == control
      ensures fresh(rateLimiter) && fresh(headroomLimiter)
      ensures State() == Collector(control.State(), Enough, None)
    {
      this.settings := settings;
      this.logFileControl := control;
      this.rateLimiter := new RateLimiter();
      this.headroomLimiter := new HeadroomLimiter(settings);
    }

    ghost predicate Valid()
    {
      logFileControl.maxSize == settings.maxSize && headroomLimiter.settings == settings
    }

    ghost function State(): Collector
      reads logFileControl, headroomLimiter, rateLimiter
    {
      Collector(logFileControl.State(), headroomLimiter.state, rateLimiter.limitedCalls)
    }

    method ProcessLogRecord(a: Arrival) returns (panicked: bool, ok: bool)
      requires Valid()
      modifies logFileControl, headroomLimiter, rateLimiter
      ensures panicked <==> Process(settings, old(State()), a) == None
      ensures panicked ==> State() == old(State())
      ensures !panicked ==> Process(settings, old(State()), a) == Some(State())
      ensures a.available.Some? && a.faults == NO_FAULTS && !panicked ==> ok
    {
      var answer;
      panicked, answer := headroomLimiter.CheckHeadroom(a, logFileControl);
      if answer.None? {
        return panicked, false;
      }
      if !answer.value {
        return false, true;
      }
      var rotation := logFileControl.RotateIfNeededNow(a.agedBefore, !a.faults.openBefore);
      if rotation == OpenFailed {
        return false, false;
      }
      ok := rateLimiter.RunLimited(settings, a, logFileControl);
      if !ok {
        return false, false;
      }
      rotation := logFileControl.RotateIfNeededNow(a.agedAfter, !a.faults.openAfter);
      return false, rotation != OpenFailed;
    }
  }

  // ---- where the unreachable case is reached ----

  /** Whether a shortage is on after the arrivals: it begins with too little space, and ends with enough
      once that could be logged. */
  predicate InShortage(settings: Settings, before: bool, arrivals: seq<Arrival>) {
    if arrivals == [] then before
    else
      var a, earlier := arrivals[|arrivals| - 1], InShortage(settings, before, arrivals[..|arrivals| - 1]);
      if a.available.None? then earlier
      else if a.available.value.Exceeds(settings.minHeadroom) then earlier && a.faults.recovered
      else true
  }

  /** Some record finds exactly the minimum available, in both components, while no shortage is on. */
  predicate HitsMinimum(settings: Settings, before: bool, arrivals: seq<Arrival>) {
    exists i :: 0 <= i < |arrivals| && arrivals[i].available == Some(settings.minHeadroom)
                && !InShortage(settings, before, arrivals[..i])
  }

  lemma ExactlyMinimum(available: DiskSize, min: DiskSize)
    ensures !available.Exceeds(min) && available.AtLeast(min) <==> available == min
  {
  }

  lemma ProcessFollows(settings: Settings, s: Collector, a: Arrival)
    ensures Process(settings, s, a) == None <==> a.available == Some(settings.minHeadroom) && s.headroom == Enough
    ensures Process(settings, s, a).Some? ==>
      (Process(settings, s, a).value.headroom.Shortage? <==>
       if a.available.None? then s.headroom.Shortage?
       else if a.available.value.Exceeds(settings.minHeadroom) then s.headroom.Shortage? && a.faults.recovered
       else true)
  {
    hide Put, RotateIfNeeded, RunWithinLimits, DiskSize.Exceeds, DiskSize.AtLeast;
    if a.available.Some? {
      ExactlyMinimum(a.available.value, settings.minHeadroom);
    }
  }

  /** A run gets through, or stops dead in the unreachable case, as the space available decides. */
  lemma {:induction false} PanicsExactly(settings: Settings, s: Collector, arrivals: seq<Arrival>)
    ensures Run(settings, s, arrivals) == None <==> HitsMinimum(settings, s.headroom.Shortage?, arrivals)
    ensures Run(settings, s, arrivals).Some? ==>
      (Run(settings, s, arrivals).value.headroom.Shortage?
       <==> InShortage(settings, s.headroom.Shortage?, arrivals))
    decreases |arrivals|
  {
    hide Process, HitsMinimum, DiskSize.Exceeds;
    if arrivals == [] {
      NoneHits(settings, s.headroom.Shortage?);
    } else {
      var prefix, a := arrivals[..|arrivals| - 1], arrivals[|arrivals| - 1];
      PanicsExactly(settings, s, prefix);
      HitsSnoc(settings, s.headroom.Shortage?, prefix, a);
      assert prefix + [a] == arrivals;
      if Run(settings, s, prefix).Some? {
        ProcessFollows(settings, Run(settings, s, prefix).value, a);
      }
    }
  }

  lemma NoneHits(settings: Settings, before: bool)
    ensures !HitsMinimum(settings, before, [])
  {
  }

  lemma {:induction false} HitsSnoc(settings: Settings, before: bool, prefix: seq<Arrival>, a: Arrival)
    ensures HitsMinimum(settings, before, prefix + [a])
            <==> HitsMinimum(settings, before, prefix)
                 || (a.available == Some(settings.minHeadroom) && !InShortage(settings, before, prefix))
  {
    hide InShortage;
    var all := prefix + [a];
    assert all[..|prefix|] == prefix && all[|prefix|] == a;
    assert forall i :: 0 <= i < |prefix| ==> all[i] == prefix[i] && all[..i] == prefix[..i];
  }

  /** Without faults: the first record, or one after a record that had headroom, finds exactly the
      minimum. */
  lemma HitsWithoutFaults(settings: Settings, arrivals: seq<Arrival>)
    requires forall a :: a in arrivals ==> a.available.Some? && !a.faults.recovered
    ensures HitsMinimum(settings, false, arrivals)
            <==> exists i :: 0 <= i < |arrivals| && arrivals[i].available == Some(settings.minHeadroom)
                   && (i == 0 || arrivals[i - 1].available.value.Exceeds(settings.minHeadroom))
  {
    hide DiskSize.Exceeds;
    forall i | 0 <= i < |arrivals|
      ensures InShortage(settings, false, arrivals[..i])
              <==> i > 0 && !arrivals[i - 1].available.value.Exceeds(settings.minHeadroom)
    {
      if i > 0 {
        assert arrivals[..i][i - 1] == arrivals[i - 1] && arrivals[i - 1] in arrivals;
      }
    }
  }

  lemma {:induction false} GetsThrough(settings: Settings, s: Collector, arrivals: seq<Arrival>)
    requires !HitsMinimum(settings, s.headroom.Shortage?, arrivals)
    ensures Run(settings, s, arrivals).Some?
    ensures arrivals != [] ==> !HitsMinimum(settings, s.headroom.Shortage?, arrivals[..|arrivals| - 1])
  {
    hide Process, HitsMinimum;
    PanicsExactly(settings, s, arrivals);
    if arrivals != [] {
      assert arrivals[..|arrivals| - 1] + [arrivals[|arrivals| - 1]] == arrivals;
      HitsSnoc(settings, s.headroom.Shortage?, arrivals[..|arrivals| - 1], arrivals[|arrivals| - 1]);
    }
  }

  // ---- conservation ----

  function Records(lines: seq<Line>): seq<string> {
    if lines == [] then []
    else Records(lines[..|lines| - 1]) + match lines[|lines| - 1] { case Record(v) => [v] case _ => [] }
  }

  /** Headroom drops that have been reported in the log. */
  function ReportedDrops(lines: seq<Line>): nat {
    if lines == [] then 0
    else ReportedDrops(lines[..|lines| - 1]) + match lines[|lines| - 1] { case Recovered(_, n) => n case _ => 0 }
  }

  function ReportedLimited(lines: seq<Line>): nat {
    if lines == [] then 0
    else ReportedLimited(lines[..|lines| - 1]) + match lines[|lines| - 1] { case RateLimited(_, n) => n case _ => 0 }
  }

  function PendingDrops(headroom: Headroom): nat {
    if headroom.Shortage? then headroom.numDroppedLogs else 0
  }

  function PendingLimited(limited: Option<RateLimitedCalls>): nat {
    if limited.Some? then limited.value.count else 0
  }

  /** What is on record: the records written, and the counts of the two kinds of losses, whether
      reported already or still pending. */
  datatype Ledger = Ledger(records: seq<string>, drops: nat, limited: nat)

  function Books(s: Collector): Ledger {
    Ledger(Records(s.control.written),
           ReportedDrops(s.control.written) + PendingDrops(s.headroom),
           ReportedLimited(s.control.written) + PendingLimited(s.limited))
  }

  /** What becomes of a record. `Unprocessed` ones are lost to an error before the rate limiter is
      asked, `Failed` ones to an error in writing, and with them `taken` limited calls if it was their
      report that could not be written. */
  datatype Fate = Written | Dropped | Limited | Unprocessed | Failed(taken: nat)

  function FateOf(settings: Settings, s: Collector, a: Arrival): Fate {
    match Check(settings, s.control, s.headroom, a)
    case Unreachable => Unprocessed
    case CheckFailed => Unprocessed
    case Checked(c, _, ok) =>
      if !ok then Dropped
      else if RotateIfNeeded(c, settings.maxSize, a.agedBefore, !a.faults.openBefore).1 == OpenFailed then Unprocessed
      else if !a.admitted then Limited
      else if s.limited.Some? && a.faults.report then Failed(s.limited.value.count)
      else if a.faults.record then Failed(0)
      else Written
  }

  function Fates(settings: Settings, s: Collector, arrivals: seq<Arrival>): (r: seq<Fate>)
    ensures |r| == |arrivals|
  {
    if arrivals == [] then []
    else
      var prefix := arrivals[..|arrivals| - 1];
      match Run(settings, s, prefix)
      case None => Fates(settings, s, prefix) + [Unprocessed]
      case Some(s') => Fates(settings, s, prefix) + [FateOf(settings, s', arrivals[|arrivals| - 1])]
  }

  /** Nothing goes wrong with a record: the space is known and no operation fails. */
  predicate Faultless(a: Arrival) {
    a.available.Some? && a.faults == NO_FAULTS
  }

  function PlainFate(settings: Settings, a: Arrival): Fate
    requires Faultless(a)
  {
    if !a.available.value.Exceeds(settings.minHeadroom) then Dropped else if a.admitted then Written else Limited
  }

  /** Only a fault loses a record; without one, headroom and token decide what becomes of it. */
  lemma FateWithoutFault(settings: Settings, s: Collector, a: Arrival)
    requires Faultless(a) && Process(settings, s, a).Some?
    ensures FateOf(settings, s, a) == PlainFate(settings, a)
  {
    hide Put, DiskSize.Exceeds, DiskSize.AtLeast;
  }

  lemma {:induction false} FatesWithoutFaults(settings: Settings, s: Collector, arrivals: seq<Arrival>)
    requires forall a :: a in arrivals ==> Faultless(a)
    requires !HitsMinimum(settings, s.headroom.Shortage?, arrivals)
    ensures forall i :: 0 <= i < |arrivals| ==>
      Faultless(arrivals[i]) && Fates(settings, s, arrivals)[i] == PlainFate(settings, arrivals[i])
    decreases |arrivals|
  {
    hide Process, HitsMinimum, FateOf, DiskSize.Exceeds, InShortage;
    if arrivals != [] {
      var prefix, a := arrivals[..|arrivals| - 1], arrivals[|arrivals| - 1];
      GetsThrough(settings, s, arrivals);
      GetsThrough(settings, s, prefix);
      FatesWithoutFaults(settings, s, prefix);
      FateWithoutFault(settings, Run(settings, s, prefix).value, a);
    }
  }

  /** What one arrival should add to the books, by its fate. */
  function Entered(ledger: Ledger, a: Arrival, fate: Fate): Ledger {
    match fate
    case Written => ledger.(records := ledger.records + [a.value])
    case Dropped => ledger.(drops := ledger.drops + 1)
    case Limited => ledger.(limited := ledger.limited + 1)
    case Unprocessed => ledger
    case Failed(taken) => ledger.(limited := if taken <= ledger.limited then ledger.limited - taken else 0)
  }

  function EnteredAll(ledger: Ledger, arrivals: seq<Arrival>, fates: seq<Fate>): Ledger
    requires |arrivals| == |fates|
    decreases |arrivals|
  {
    if arrivals == [] then ledger
    else
      var n := |arrivals| - 1;
      Entered(EnteredAll(ledger, arrivals[..n], fates[..n]), arrivals[n], fates[n])
  }

  lemma PutEntered(settings: Settings, c: Control, line: Line)
    ensures var c' := Put(settings, c, line, false);
      && Records(c'.written) == Records(c.written) + (match line { case Record(v) => [v] case _ => [] })
      && ReportedDrops(c'.written) == ReportedDrops(c.written) + (match line { case Recovered(_, n) => n case _ => 0 })
      && ReportedLimited(c'.written)
         == ReportedLimited(c.written) + (match line { case RateLimited(_, n) => n case _ => 0 })
  {
    assert (c.written + [line])[..|c.written|] == c.written;
  }

  // The headroom check moves drops from pending to reported, and counts the record it refuses.
  lemma CheckEnters(settings: Settings, s: Collector, a: Arrival)
    requires Check(settings, s.control, s.headroom, a).Checked?
    ensures var r := Check(settings, s.control, s.headroom, a);
      Books(Collector(r.c, r.headroom, s.limited))
      == if r.ok then Books(s) else Books(s).(drops := Books(s).drops + 1)
  {
    hide Records, ReportedDrops, ReportedLimited, DiskSize.Exceeds, DiskSize.AtLeast;
    if a.available.Some? {
      PutEntered(settings, s.control, Warning(settings, a.ts, a.available.value));
    }
    if s.headroom.Shortage? {
      PutEntered(settings, s.control, Recovered(a.ts, s.headroom.numDroppedLogs));
    }
    assert Records(s.control.written) + [] == Records(s.control.written);
  }

  // The rate limiter writes the record or counts it, and moves its count from pending to reported; if
  // writing fails it forgets what it had taken.
  lemma LimiterEnters(settings: Settings, c: Control, limited: Option<RateLimitedCalls>, a: Arrival, headroom: Headroom)
    ensures var (c', limited', _) := RunWithinLimits(settings, c, limited, a);
      var ledger := Books(Collector(c, headroom, limited));
      Books(Collector(c', headroom, limited'))
      == if !a.admitted then ledger.(limited := ledger.limited + 1)
         else if limited.Some? && a.faults.report then ledger.(limited := ledger.limited - limited.value.count)
         else if a.faults.record then ledger
         else ledger.(records := ledger.records + [a.value])
  {
    hide Records, ReportedDrops, ReportedLimited;
    var c1 := c;
    if limited.Some? {
      var line := RateLimited(limited.value.latestCall, limited.value.count);
      PutEntered(settings, c, line);
      c1 := Put(settings, c, line, false);
      assert Records(c.written) + [] == Records(c.written);
    }
    PutEntered(settings, c1, Record(a.value));
  }

  lemma ProcessEntersOne(settings: Settings, s: Collector, a: Arrival)
    requires Process(settings, s, a).Some?
    ensures Books(Process(settings, s, a).value) == Entered(Books(s), a, FateOf(settings, s, a))
    ensures FateOf(settings, s, a).Failed? ==> FateOf(settings, s, a).taken <= Books(s).limited
  {
    hide Check, Records, ReportedDrops, ReportedLimited, Put;
    var r := Check(settings, s.control, s.headroom, a);
    if r.Checked? {
      CheckEnters(settings, s, a);
      if r.ok {
        var c1 := RotateIfNeeded(r.c, settings.maxSize, a.agedBefore, !a.faults.openBefore).0;
        LimiterEnters(settings, c1, s.limited, a, r.headroom);
      }
    }
  }

  /** Over every run, the log holds exactly the records written, in order, and what was dropped or
      limited is counted once, in a reported or a pending count, until an error loses the count. */
  lemma {:induction false} BooksOverRuns(settings: Settings, s: Collector, arrivals: seq<Arrival>)
    requires !HitsMinimum(settings, s.headroom.Shortage?, arrivals)
    ensures Run(settings, s, arrivals).Some?
    ensures Books(Run(settings, s, arrivals).value)
            == EnteredAll(Books(s), arrivals, Fates(settings, s, arrivals))
    ensures Size(Books(Run(settings, s, arrivals).value)) + Lost(Fates(settings, s, arrivals))
            == Size(Books(s)) + |arrivals|
    decreases |arrivals|
  {
    hide Books, Process, Entered, FateOf, HitsMinimum;
    GetsThrough(settings, s, arrivals);
    if arrivals != [] {
      var n := |arrivals| - 1;
      var prefix := arrivals[..n];
      BooksOverRuns(settings, s, prefix);
      var s' := Run(settings, s, prefix).value;
      ProcessEntersOne(settings, s', arrivals[n]);
      assert Fates(settings, s, arrivals)[..n] == Fates(settings, s, prefix);
      EnteredSize(Books(s'), arrivals[n], FateOf(settings, s', arrivals[n]));
    }
  }

  function Size(ledger: Ledger): nat {
    |ledger.records| + ledger.drops + ledger.limited
  }

  /** How many records errors have lost without a trace. */
  function LostBy(fate: Fate): nat {
    match fate
    case Unprocessed => 1
    case Failed(taken) => 1 + taken
    case _ => 0
  }

  function Lost(fates: seq<Fate>): nat {
    if fates == [] then 0 else Lost(fates[..|fates| - 1]) + LostBy(fates[|fates| - 1])
  }

  lemma EnteredSize(ledger: Ledger, a: Arrival, fate: Fate)
    requires fate.Failed? ==> fate.taken <= ledger.limited
    ensures Size(Entered(ledger, a, fate)) + LostBy(fate) == Size(ledger) + 1
  {
  }

  /** No record vanishes uncounted but through an error: received = written + dropped for headroom +
      rate limited + lost to errors, and without faults nothing is lost. */
  lemma {:induction false} NothingVanishes(settings: Settings, c: Control, arrivals: seq<Arrival>)
    requires c.written == [] && !HitsMinimum(settings, false, arrivals)
    ensures Run(settings, Collector(c, Enough, None), arrivals).Some?
    ensures var s := Run(settings, Collector(c, Enough, None), arrivals).value;
      && |arrivals| == |Records(s.control.written)|
           + (ReportedDrops(s.control.written) + PendingDrops(s.headroom))
           + (ReportedLimited(s.control.written) + PendingLimited(s.limited))
           + Lost(Fates(settings, Collector(c, Enough, None), arrivals))
    ensures (forall a :: a in arrivals ==> Faultless(a)) ==>
      Lost(Fates(settings, Collector(c, Enough, None), arrivals)) == 0
  {
    hide HitsMinimum, Run, Fates;
    var s := Collector(c, Enough, None);
    BooksOverRuns(settings, s, arrivals);
    if forall a :: a in arrivals ==> Faultless(a) {
      FatesWithoutFaults(settings, s, arrivals);
      NoneLost(Fates(settings, s, arrivals));
    }
  }

  lemma {:induction false} NoneLost(fates: seq<Fate>)
    requires forall i :: 0 <= i < |fates| ==> fates[i] in {Written, Dropped, Limited}
    ensures Lost(fates) == 0
    decreases |fates|
  {
    if fates != [] {
      NoneLost(fates[..|fates| - 1]);
    }
  }

  /** While a shortage lasts, the limiter rotates successfully at most once. */
  lemma {:induction false} OneRotationPerShortage(settings: Settings, s: Collector, arrivals: seq<Arrival>)
    requires !HitsMinimum(settings, s.headroom.Shortage?, arrivals)
    requires forall a :: a in arrivals ==> a.available.None? || !a.available.value.Exceeds(settings.minHeadroom)
    ensures Run(settings, s, arrivals).Some?
    ensures var s' := Run(settings, s, arrivals).value;
      var before := if s.headroom.Shortage? && s.headroom.hasRotated then 1 else 0;
      var after := if s'.headroom.Shortage? && s'.headroom.hasRotated then 1 else 0;
      |s'.control.handed| - |s.control.handed| == after - before && before <= after
    decreases |arrivals|
  {
    hide HitsMinimum, Process, DiskSize.Exceeds;
    GetsThrough(settings, s, arrivals);
    if arrivals != [] {
      var prefix := arrivals[..|arrivals| - 1];
      OneRotationPerShortage(settings, s, prefix);
      assert arrivals[|arrivals| - 1] in arrivals;
      RotatesOnce(settings, Run(settings, s, prefix).value, arrivals[|arrivals| - 1]);
    }
  }

  lemma RotatesOnce(settings: Settings, s: Collector, a: Arrival)
    requires Process(settings, s, a).Some?
    requires a.available.None? || !a.available.value.Exceeds(settings.minHeadroom)
    ensures var s' := Process(settings, s, a).value;
      var before := if s.headroom.Shortage? && s.headroom.hasRotated then 1 else 0;
      var after := if s'.headroom.Shortage? && s'.headroom.hasRotated then 1 else 0;
      |s'.control.handed| - |s.control.handed| == after - before && before <= after
  {
    hide DiskSize.Exceeds, DiskSize.AtLeast;
  }

  // ---- what the log tells its reader ----

  function Warnings(lines: seq<Line>): nat {
    if lines == [] then 0 else Warnings(lines[..|lines| - 1]) + if lines[|lines| - 1].LowHeadroom? then 1 else 0
  }

  function Recoveries(lines: seq<Line>): nat {
    if lines == [] then 0 else Recoveries(lines[..|lines| - 1]) + if lines[|lines| - 1].Recovered? then 1 else 0
  }

  /** How often a shortage began with a warning that could not be written. */
  function Unannounced(settings: Settings, before: bool, arrivals: seq<Arrival>): nat {
    if arrivals == [] then 0
    else
      var prefix, a := arrivals[..|arrivals| - 1], arrivals[|arrivals| - 1];
      Unannounced(settings, before, prefix)
      + if !InShortage(settings, before, prefix) && InShortage(settings, before, arrivals) && a.faults.warning
        then 1 else 0
  }

  lemma PutTells(settings: Settings, c: Control, line: Line)
    ensures var c' := Put(settings, c, line, false);
      && Warnings(c'.written) == Warnings(c.written) + (if line.LowHeadroom? then 1 else 0)
      && Recoveries(c'.written) == Recoveries(c.written) + (if line.Recovered? then 1 else 0)
  {
    assert (c.written + [line])[..|c.written|] == c.written;
  }

  lemma ProcessTells(settings: Settings, s: Collector, a: Arrival)
    requires Process(settings, s, a).Some?
    ensures var s' := Process(settings, s, a).value;
      && Warnings(s'.control.written) - Warnings(s.control.written)
         == (if s.headroom.Enough? && s'.headroom.Shortage? && !a.faults.warning then 1 else 0)
      && Recoveries(s'.control.written) - Recoveries(s.control.written)
         == (if s.headroom.Shortage? && s'.headroom.Enough? then 1 else 0)
  {
    hide Put, Check, Warnings, Recoveries;
    var r := Check(settings, s.control, s.headroom, a);
    if r.Checked? {
      CheckTells(settings, s, a);
      var c := RotateIfNeeded(r.c, settings.maxSize, a.agedBefore, !a.faults.openBefore).0;
      assert c.written == r.c.written;
      LimiterTells(settings, c, s.limited, a);
    }
  }

  lemma CheckTells(settings: Settings, s: Collector, a: Arrival)
    requires Check(settings, s.control, s.headroom, a).Checked?
    ensures var r := Check(settings, s.control, s.headroom, a);
      && (r.ok ==> r.headroom.Enough?)
      && Warnings(r.c.written) - Warnings(s.control.written)
         == (if s.headroom.Enough? && r.headroom.Shortage? && !a.faults.warning then 1 else 0)
      && Recoveries(r.c.written) - Recoveries(s.control.written)
         == (if s.headroom.Shortage? && r.headroom.Enough? then 1 else 0)
  {
    hide Warnings, Recoveries, DiskSize.Exceeds, DiskSize.AtLeast;
    if a.available.Some? {
      PutTells(settings, s.control, Warning(settings, a.ts, a.available.value));
    }
    if s.headroom.Shortage? {
      PutTells(settings, s.control, Recovered(a.ts, s.headroom.numDroppedLogs));
    }
  }

  lemma LimiterTells(settings: Settings, c: Control, limited: Option<RateLimitedCalls>, a: Arrival)
    ensures var c' := RunWithinLimits(settings, c, limited, a).0;
      Warnings(c'.written) == Warnings(c.written) && Recoveries(c'.written) == Recoveries(c.written)
  {
    hide Warnings, Recoveries;
    if limited.Some? {
      var line := RateLimited(limited.value.latestCall, limited.value.count);
      PutTells(settings, c, line);
      PutTells(settings, Put(settings, c, line, false), Record(a.value));
    }
    PutTells(settings, c, Record(a.value));
  }

  /** Every shortage is announced once when it begins, unless the warning cannot be written, and once
      when it ends. */
  lemma {:induction false} ShortagesFramed(settings: Settings, s: Collector, arrivals: seq<Arrival>)
    requires s.headroom == Enough && s.control.written == [] && !HitsMinimum(settings, false, arrivals)
    ensures Run(settings, s, arrivals).Some?
    ensures var s' := Run(settings, s, arrivals).value;
      Warnings(s'.control.written) + Unannounced(settings, false, arrivals)
      == Recoveries(s'.control.written) + if s'.headroom.Shortage? then 1 else 0
    decreases |arrivals|
  {
    hide Process, Warnings, Recoveries, HitsMinimum, InShortage;
    GetsThrough(settings, s, arrivals);
    if arrivals == [] {
      NothingTold();
    } else {
      var prefix := arrivals[..|arrivals| - 1];
      ShortagesFramed(settings, s, prefix);
      PanicsExactly(settings, s, prefix);
      PanicsExactly(settings, s, arrivals);
      ProcessTells(settings, Run(settings, s, prefix).value, arrivals[|arrivals| - 1]);
    }
  }

  lemma NothingTold()
    ensures Warnings([]) == 0 && Recoveries([]) == 0
  {
  }

  /** The timestamp of the latest limited record since the last one that reached the writer. */
  function LatestLimited(arrivals: seq<Arrival>, fates: seq<Fate>): Option<Timestamp>
    requires |arrivals| == |fates|
    decreases |arrivals|
  {
    if arrivals == [] then None
    else
      var n := |arrivals| - 1;
      match fates[n]
      case Limited => Some(arrivals[n].ts)
      case Written => None
      case Failed(_) => None
      case _ => LatestLimited(arrivals[..n], fates[..n])
  }

  /** The pending rate-limit report carries the time of the latest record it stands for. */
  lemma {:induction false} ReportNamesLatest(settings: Settings, s: Collector, arrivals: seq<Arrival>)
    requires s.limited == None && !HitsMinimum(settings, s.headroom.Shortage?, arrivals)
    ensures Run(settings, s, arrivals).Some?
    ensures var s' := Run(settings, s, arrivals).value;
      LatestLimited(arrivals, Fates(settings, s, arrivals))
      == if s'.limited.Some? then Some(s'.limited.value.latestCall) else None
    decreases |arrivals|
  {
    hide HitsMinimum, Process, FateOf;
    GetsThrough(settings, s, arrivals);
    if arrivals != [] {
      var n := |arrivals| - 1;
      ReportNamesLatest(settings, s, arrivals[..n]);
      assert Fates(settings, s, arrivals)[..n] == Fates(settings, s, arrivals[..n]);
      LatestStep(settings, Run(settings, s, arrivals[..n]).value, arrivals[n]);
    }
  }

  lemma LatestStep(settings: Settings, s: Collector, a: Arrival)
    requires Process(settings, s, a).Some?
    ensures var s' := Process(settings, s, a).value;
      match FateOf(settings, s, a)
      case Limited => s'.limited.Some? && s'.limited.value.latestCall == a.ts
      case Written => s'.limited == None
      case Failed(_) => s'.limited == None
      case _ => s'.limited == s.limited
  {
    hide Check, Put;
  }

  /** A new file cannot be opened, or an error keeps the last check from being reached. */
  predicate MissesRotation(a: Arrival) {
    a.faults.openInShortage || a.faults.openBefore || a.faults.openAfter || a.faults.record
  }

  /** The file being written is below the rotation size after every record, unless an error keeps it from
      being rotated; so a rotated file exceeds it by no more than what the last record added. */
  lemma {:induction false} NeverOverfull(settings: Settings, s: Collector, arrivals: seq<Arrival>)
    requires !HitsMinimum(settings, s.headroom.Shortage?, arrivals) && s.control.bytesWritten < settings.maxSize
    ensures Run(settings, s, arrivals).Some?
    ensures Run(settings, s, arrivals).value.control.bytesWritten < settings.maxSize
            || exists a :: a in arrivals && MissesRotation(a)
    decreases |arrivals|
  {
    hide HitsMinimum, Process, MissesRotation;
    GetsThrough(settings, s, arrivals);
    if arrivals != [] {
      var prefix, a := arrivals[..|arrivals| - 1], arrivals[|arrivals| - 1];
      NeverOverfull(settings, s, prefix);
      assert a in arrivals && forall p :: p in prefix ==> p in arrivals;
      if !MissesRotation(a) && Run(settings, s, prefix).value.control.bytesWritten < settings.maxSize {
        ProcessKeepsBelow(settings, Run(settings, s, prefix).value, a);
      }
    }
  }

  lemma ProcessKeepsBelow(settings: Settings, s: Collector, a: Arrival)
    requires Process(settings, s, a).Some? && s.control.bytesWritten < settings.maxSize && !MissesRotation(a)
    ensures Process(settings, s, a).value.control.bytesWritten < settings.maxSize
  {
    hide DiskSize.Exceeds, DiskSize.AtLeast;
  }

  // ---- what a record does to the log file ----

  function WriteOf(settings: Settings, line: Line): Chain.Action {
    Chain.Write(line, settings.lineSize(line))
  }

  function CheckActions(settings: Settings, s: Collector, a: Arrival): seq<Chain.Action> {
    if a.available.None? then []
    else if a.available.value.Exceeds(settings.minHeadroom) then
      if s.headroom.Shortage? && !a.faults.recovered
      then [WriteOf(settings, Recovered(a.ts, s.headroom.numDroppedLogs))]
      else []
    else
      var check := Chain.RotateCheck(a.agedInShortage, !a.faults.openInShortage);
      match s.headroom
      case Enough =>
        if a.faults.warning then [check]
        else [WriteOf(settings, Warning(settings, a.ts, a.available.value)), check]
      case Shortage(_, hasRotated) => if hasRotated then [] else [check]
  }

  function LimiterActions(settings: Settings, limited: Option<RateLimitedCalls>, a: Arrival): seq<Chain.Action> {
    if !a.admitted || (limited.Some? && a.faults.report) then []
    else
      (if limited.Some? then [WriteOf(settings, RateLimited(limited.value.latestCall, limited.value.count))] else [])
      + (if a.faults.record then [] else [WriteOf(settings, Record(a.value))])
  }

  /** The writes and rotation checks that one record comes to. */
  function ActionsOf(settings: Settings, s: Collector, a: Arrival): seq<Chain.Action> {
    var check := CheckActions(settings, s, a);
    match FateOf(settings, s, a)
    case Dropped => check
    case Unprocessed =>
      if Check(settings, s.control, s.headroom, a).Checked?
      then check + [Chain.RotateCheck(a.agedBefore, !a.faults.openBefore)]
      else check
    case fate =>
      check + [Chain.RotateCheck(a.agedBefore, !a.faults.openBefore)] + LimiterActions(settings, s.limited, a)
      + if fate.Failed? then [] else [Chain.RotateCheck(a.agedAfter, !a.faults.openAfter)]
  }

  lemma {:induction false} RunAppend(c: Control, maxSize: nat, a: seq<Chain.Action>, b: seq<Chain.Action>)
    ensures Chain.Run(c, maxSize, a + b) == Chain.Run(Chain.Run(c, maxSize, a), maxSize, b)
    decreases |b|
  {
    hide Chain.Step;
    if b == [] {
      assert a + b == a;
    } else {
      var n := |b| - 1;
      RunAppend(c, maxSize, a, b[..n]);
      assert (a + b)[..|a + b| - 1] == a + b[..n];
    }
  }

  lemma {:induction false} RunOne(c: Control, maxSize: nat, a: Chain.Action)
    ensures Chain.Run(c, maxSize, []) == c && Chain.Run(c, maxSize, [a]) == Chain.Step(c, maxSize, a)
  {
    hide Chain.Step;
    assert [a][..0] == [];
  }

  lemma {:induction false} RunTwo(c: Control, maxSize: nat, a: Chain.Action, b: Chain.Action)
    ensures Chain.Run(c, maxSize, [a, b]) == Chain.Step(Chain.Step(c, maxSize, a), maxSize, b)
  {
    hide Chain.Step, Chain.Run;
    RunAppend(c, maxSize, [a], [b]);
    RunOne(c, maxSize, a);
    RunOne(Chain.Step(c, maxSize, a), maxSize, b);
    assert [a] + [b] == [a, b];
  }

  lemma CheckIsActions(settings: Settings, s: Collector, a: Arrival)
    requires Check(settings, s.control, s.headroom, a) != Unreachable
    ensures var r := Check(settings, s.control, s.headroom, a);
      Chain.Run(s.control, settings.maxSize, CheckActions(settings, s, a)) == if r.Checked? then r.c else s.control
  {
    hide Chain.Run, DiskSize.Exceeds, DiskSize.AtLeast;
    var check := Chain.RotateCheck(a.agedInShortage, !a.faults.openInShortage);
    RunOne(s.control, settings.maxSize, check);
    if a.available.Some? {
      RunTwo(s.control, settings.maxSize, WriteOf(settings, Warning(settings, a.ts, a.available.value)), check);
    }
    if s.headroom.Shortage? {
      RunOne(s.control, settings.maxSize, WriteOf(settings, Recovered(a.ts, s.headroom.numDroppedLogs)));
    }
  }

  lemma {:induction false} LimiterIsActions(settings: Settings, c: Control, limited: Option<RateLimitedCalls>,
                                            a: Arrival)
    ensures Chain.Run(c, settings.maxSize, LimiterActions(settings, limited, a))
            == RunWithinLimits(settings, c, limited, a).0
  {
    hide Chain.Run;
    var record := WriteOf(settings, Record(a.value));
    RunOne(c, settings.maxSize, record);
    if limited.Some? {
      var report := WriteOf(settings, RateLimited(limited.value.latestCall, limited.value.count));
      RunOne(c, settings.maxSize, report);
      RunTwo(c, settings.maxSize, report, record);
      assert [report] + [record] == [report, record] && [report] + [] == [report];
    }
    var none: seq<Chain.Action> := [];
    assert none + [record] == [record] && none + none == none;
  }

  lemma ProcessIsActions(settings: Settings, s: Collector, a: Arrival)
    requires Process(settings, s, a).Some?
    ensures Chain.Run(s.control, settings.maxSize, ActionsOf(settings, s, a)) == Process(settings, s, a).value.control
  {
    hide Check, CheckActions, LimiterActions, RunWithinLimits, Chain.Run;
    CheckIsActions(settings, s, a);
    var r, maxSize := Check(settings, s.control, s.headroom, a), settings.maxSize;
    var check := CheckActions(settings, s, a);
    if r.Checked? && r.ok {
      var before, after := Chain.RotateCheck(a.agedBefore, !a.faults.openBefore),
                           Chain.RotateCheck(a.agedAfter, !a.faults.openAfter);
      var c1 := RotateIfNeeded(r.c, maxSize, a.agedBefore, !a.faults.openBefore).0;
      RunAppend(s.control, maxSize, check, [before]);
      RunOne(r.c, maxSize, before);
      var limiter := LimiterActions(settings, s.limited, a);
      RunAppend(s.control, maxSize, check + [before], limiter);
      LimiterIsActions(settings, c1, s.limited, a);
      var c2 := RunWithinLimits(settings, c1, s.limited, a).0;
      RunAppend(s.control, maxSize, check + [before] + limiter, [after]);
      RunOne(c2, maxSize, after);
      WorkedExactly(settings, c1, s.limited, a);
      assert check + [before] + limiter + [] == check + [before] + limiter;
      var canWrite := RotateIfNeeded(r.c, maxSize, a.agedBefore, !a.faults.openBefore).1 != OpenFailed;
      var fate := FateOf(settings, s, a);
      assert fate.Unprocessed? <==> !canWrite;
      assert canWrite ==> (fate.Failed? <==> !RunWithinLimits(settings, c1, s.limited, a).2);
    }
  }

  lemma WorkedExactly(settings: Settings, c: Control, limited: Option<RateLimitedCalls>, a: Arrival)
    ensures RunWithinLimits(settings, c, limited, a).2
            <==> !a.admitted || !((limited.Some? && a.faults.report) || a.faults.record)
  {
    hide Put;
  }

  function AllActions(settings: Settings, s: Collector, arrivals: seq<Arrival>): seq<Chain.Action> {
    if arrivals == [] then []
    else
      var prefix := arrivals[..|arrivals| - 1];
      match Run(settings, s, prefix)
      case None => []
      case Some(s') => AllActions(settings, s, prefix) + ActionsOf(settings, s', arrivals[|arrivals| - 1])
  }

  /** A run of records is a run of writes and rotation checks, each write with the size of its line. */
  lemma {:induction false} RunIsActions(settings: Settings, s: Collector, arrivals: seq<Arrival>)
    requires !HitsMinimum(settings, s.headroom.Shortage?, arrivals)
    ensures Run(settings, s, arrivals).Some?
    ensures Run(settings, s, arrivals).value.control
            == Chain.Run(s.control, settings.maxSize, AllActions(settings, s, arrivals))
    ensures forall x :: x in AllActions(settings, s, arrivals) ==>
      x.RotateCheck? || (x.Write? && x.bytes == settings.lineSize(x.line))
    decreases |arrivals|
  {
    hide HitsMinimum, Process, ActionsOf, Chain.Run;
    GetsThrough(settings, s, arrivals);
    if arrivals == [] {
      RunOne(s.control, settings.maxSize, Chain.Flush(true));
    } else {
      var n := |arrivals| - 1;
      RunIsActions(settings, s, arrivals[..n]);
      var s' := Run(settings, s, arrivals[..n]).value;
      ProcessIsActions(settings, s', arrivals[n]);
      ActionsSized(settings, s', arrivals[n]);
      RunAppend(s.control, settings.maxSize, AllActions(settings, s, arrivals[..n]),
                ActionsOf(settings, s', arrivals[n]));
    }
  }

  lemma ActionsSized(settings: Settings, s: Collector, a: Arrival)
    ensures forall x :: x in ActionsOf(settings, s, a) ==>
      x.RotateCheck? || (x.Write? && x.bytes == settings.lineSize(x.line))
  {
    hide Check, FateOf, DiskSize.Exceeds;
  }

  /** The sizes of the lines, added up. */
  function SizeOf(settings: Settings, writes: seq<Chain.Action>): nat
    requires forall a :: a in writes ==> a.Write?
  {
    if writes == [] then 0
    else
      assert writes[|writes| - 1] in writes;
      SizeOf(settings, writes[..|writes| - 1]) + settings.lineSize(writes[|writes| - 1].line)
  }

  lemma {:induction false} SizesAreBytes(settings: Settings, writes: seq<Chain.Action>)
    requires forall x :: x in writes ==> x.Write? && x.bytes == settings.lineSize(x.line)
    ensures Chain.BytesOf(writes) == SizeOf(settings, writes)
    decreases |writes|
  {
    if writes != [] {
      assert writes[|writes| - 1] in writes;
      SizesAreBytes(settings, writes[..|writes| - 1]);
    }
  }

  lemma {:induction false} WritesAreActions(c: Control, maxSize: nat, actions: seq<Chain.Action>)
    ensures forall x :: x in Chain.FileWrites(c, maxSize, actions) ==> x in actions
    decreases |actions|
  {
    hide Chain.Run;
    if actions != [] {
      WritesAreActions(c, maxSize, actions[..|actions| - 1]);
    }
  }

  /** Over every run that starts with an empty file, the byte count of the current file is the size of
      the lines written since it was opened. */
  lemma {:induction false} CurrentFileCounted(settings: Settings, s: Collector, arrivals: seq<Arrival>)
    requires !HitsMinimum(settings, s.headroom.Shortage?, arrivals) && s.control.bytesWritten == 0
    ensures Run(settings, s, arrivals).Some?
    ensures var actions := AllActions(settings, s, arrivals);
      Run(settings, s, arrivals).value.control.bytesWritten
      == SizeOf(settings, Chain.FileWrites(s.control, settings.maxSize, actions))
  {
    hide HitsMinimum, Run, AllActions, Chain.Run, Chain.FileWrites;
    var actions := AllActions(settings, s, arrivals);
    RunIsActions(settings, s, arrivals);
    Chain.BytesCounted(s.control, settings.maxSize, actions);
    WritesAreActions(s.control, settings.maxSize, actions);
    SizesAreBytes(settings, Chain.FileWrites(s.control, settings.maxSize, actions));
  }

  /** Collecting records never breaks the chain of logs. */
  lemma {:induction false} CollectingKeepsChain(settings: Settings, s: Collector, arrivals: seq<Arrival>)
    requires !HitsMinimum(settings, s.headroom.Shortage?, arrivals)
    requires Chain.Distinct(s.control) && Chain.Linked(s.control, {})
    ensures Run(settings, s, arrivals).Some?
    ensures Chain.Distinct(Run(settings, s, arrivals).value.control)
    ensures Chain.Linked(Run(settings, s, arrivals).value.control, {})
  {
    hide HitsMinimum, Run, AllActions, Chain.Run, Chain.Gaps, Chain.Linked, Chain.Distinct;
    var actions := AllActions(settings, s, arrivals);
    RunIsActions(settings, s, arrivals);
    Chain.ChainOverRuns(s.control, settings.maxSize, actions);
    NoGaps(s.control, settings.maxSize, actions);
  }

  lemma {:induction false} NoGaps(c: Control, maxSize: nat, actions: seq<Chain.Action>)
    requires forall x :: x in actions ==> x.RotateCheck? || x.Write?
    ensures Chain.Gaps(c, maxSize, actions) == {}
    decreases |actions|
  {
    hide Chain.Run;
    if actions != [] {
      assert actions[|actions| - 1] in actions;
      NoGaps(c, maxSize, actions[..|actions| - 1]);
    }
  }

  // ---- the log, line by line ----

  /** How many records have been dropped in the shortage that is on after the arrivals. */
  function DropsSince(settings: Settings, arrivals: seq<Arrival>, fates: seq<Fate>): nat
    requires |arrivals| == |fates|
    decreases |arrivals|
  {
    if arrivals == [] || !InShortage(settings, false, arrivals) then 0
    else
      var n := |arrivals| - 1;
      DropsSince(settings, arrivals[..n], fates[..n]) + if fates[n] == Dropped then 1 else 0
  }

  /** How many records have been limited since the last one that reached the writer. */
  function LimitedSince(fates: seq<Fate>): nat {
    if fates == [] then 0
    else
      var earlier := LimitedSince(fates[..|fates| - 1]);
      match fates[|fates| - 1]
      case Limited => earlier + 1
      case Written => 0
      case Failed(_) => 0
      case _ => earlier
  }

  /** The lines that the last arrival should add: a warning as a shortage begins, a message with the number
      of drops as one ends, a report of the limited records before the next one, and the record. */
  function NewLines(settings: Settings, arrivals: seq<Arrival>, fates: seq<Fate>): seq<Line>
    requires |arrivals| == |fates| > 0
  {
    CheckLines(settings, arrivals, fates) + LimiterLines(arrivals, fates)
  }

  function LinesOf(settings: Settings, arrivals: seq<Arrival>, fates: seq<Fate>): seq<Line>
    requires |arrivals| == |fates|
    decreases |arrivals|
  {
    if arrivals == [] then []
    else
      var n := |arrivals| - 1;
      LinesOf(settings, arrivals[..n], fates[..n]) + NewLines(settings, arrivals, fates)
  }

  // What the state remembers of the arrivals.
  ghost predicate Remembers(settings: Settings, s: Collector, arrivals: seq<Arrival>, fates: seq<Fate>)
    requires |arrivals| == |fates|
  {
    && (s.headroom.Shortage? <==> InShortage(settings, false, arrivals))
    && PendingDrops(s.headroom) == DropsSince(settings, arrivals, fates)
    && PendingLimited(s.limited) == LimitedSince(fates)
    && (s.limited.Some? ==> s.limited.value.count > 0)
    && LatestLimited(arrivals, fates) == if s.limited.Some? then Some(s.limited.value.latestCall) else None
  }

  // The warning or the message that the headroom check writes.
  function CheckLines(settings: Settings, arrivals: seq<Arrival>, fates: seq<Fate>): seq<Line>
    requires |arrivals| == |fates| > 0
  {
    var n := |arrivals| - 1;
    var before, after := InShortage(settings, false, arrivals[..n]), InShortage(settings, false, arrivals);
    (match arrivals[n].available
     case Some(size) =>
       if !before && after && !arrivals[n].faults.warning
       then [LowHeadroom(arrivals[n].ts, size.bytes < settings.minHeadroom.bytes,
                         size.inodes < settings.minHeadroom.inodes)]
       else []
     case None => [])
    + if before && !after then [Recovered(arrivals[n].ts, DropsSince(settings, arrivals[..n], fates[..n]))] else []
  }

  lemma {:induction false} CheckWrites(settings: Settings, s: Collector, arrivals: seq<Arrival>, fates: seq<Fate>)
    requires |arrivals| == |fates| > 0
    requires var n := |arrivals| - 1;
      && Process(settings, s, arrivals[n]).Some? && fates[n] == FateOf(settings, s, arrivals[n])
      && Remembers(settings, s, arrivals[..n], fates[..n])
    ensures var a := arrivals[|arrivals| - 1];
      var r, s' := Check(settings, s.control, s.headroom, a), Process(settings, s, a).value;
      && (if r.Checked? then r.c.written else s.control.written)
         == s.control.written + CheckLines(settings, arrivals, fates)
      && s'.headroom == (if r.Checked? then r.headroom else s.headroom)
      && (s'.headroom.Shortage? <==> InShortage(settings, false, arrivals))
      && PendingDrops(s'.headroom) == DropsSince(settings, arrivals, fates)
  {
    hide DiskSize.Exceeds, DiskSize.AtLeast, LatestLimited, LimitedSince, RunWithinLimits;
    ProcessFollows(settings, s, arrivals[|arrivals| - 1]);
    assert s.control.written + [] == s.control.written;
  }

  lemma {:induction false} LimiterWrites(settings: Settings, s: Collector, arrivals: seq<Arrival>, fates: seq<Fate>)
    requires |arrivals| == |fates| > 0
    requires var n := |arrivals| - 1;
      && Process(settings, s, arrivals[n]).Some? && fates[n] == FateOf(settings, s, arrivals[n])
      && Remembers(settings, s, arrivals[..n], fates[..n])
    ensures var a := arrivals[|arrivals| - 1];
      var r, s' := Check(settings, s.control, s.headroom, a), Process(settings, s, a).value;
      var written := if r.Checked? then r.c.written else s.control.written;
      && s'.control.written == written + LimiterLines(arrivals, fates)
      && PendingLimited(s'.limited) == LimitedSince(fates)
      && (s'.limited.Some? ==> s'.limited.value.count > 0)
      && LatestLimited(arrivals, fates) == if s'.limited.Some? then Some(s'.limited.value.latestCall) else None
  {
    hide Check, DropsSince, InShortage;
    var r := Check(settings, s.control, s.headroom, arrivals[|arrivals| - 1]);
    assert s.control.written + [] == s.control.written;
    assert r.Checked? ==> r.c.written + [] == r.c.written;
  }

  // The report and the record that the rate limiter writes.
  function LimiterLines(arrivals: seq<Arrival>, fates: seq<Fate>): seq<Line>
    requires |arrivals| == |fates| > 0
  {
    var n := |arrivals| - 1;
    var fate := fates[n];
    (match LatestLimited(arrivals[..n], fates[..n])
     case Some(ts) => if fate == Written || fate == Failed(0) then [RateLimited(ts, LimitedSince(fates[..n]))] else []
     case None => [])
    + if fate == Written then [Record(arrivals[n].value)] else []
  }

  lemma ProcessWrites(settings: Settings, s: Collector, arrivals: seq<Arrival>, fates: seq<Fate>)
    requires |arrivals| == |fates| > 0
    requires var n := |arrivals| - 1;
      && Process(settings, s, arrivals[n]).Some? && fates[n] == FateOf(settings, s, arrivals[n])
      && Remembers(settings, s, arrivals[..n], fates[..n])
    ensures var s' := Process(settings, s, arrivals[|arrivals| - 1]).value;
      && s'.control.written == s.control.written + NewLines(settings, arrivals, fates)
      && Remembers(settings, s', arrivals, fates)
  {
    hide Process, Check, CheckLines, LimiterLines, DropsSince, InShortage, LatestLimited, LimitedSince, PendingDrops,
         PendingLimited;
    CheckWrites(settings, s, arrivals, fates);
    LimiterWrites(settings, s, arrivals, fates);
    AddLines(s.control.written, CheckLines(settings, arrivals, fates), LimiterLines(arrivals, fates));
  }

  /** Over every run the log is, line by line, what the arrivals and their fates say: every shortage framed
      by its messages, with the drops between them counted in the second; every limited record counted in
      the report before the next record written, which carries the latest one's time; and the records in
      order. */
  lemma {:induction false} LogLineByLine(settings: Settings, c: Control, arrivals: seq<Arrival>)
    requires !HitsMinimum(settings, false, arrivals)
    ensures var s := Collector(c, Enough, None);
      && Run(settings, s, arrivals).Some?
      && Run(settings, s, arrivals).value.control.written
         == c.written + LinesOf(settings, arrivals, Fates(settings, s, arrivals))
      && Remembers(settings, Run(settings, s, arrivals).value, arrivals, Fates(settings, s, arrivals))
    decreases |arrivals|
  {
    hide HitsMinimum, Process, FateOf, NewLines, Remembers;
    var s := Collector(c, Enough, None);
    GetsThrough(settings, s, arrivals);
    if arrivals == [] {
      NothingToRemember(settings, c);
      assert c.written + [] == c.written;
    } else {
      var n := |arrivals| - 1;
      var fates := Fates(settings, s, arrivals);
      LogLineByLine(settings, c, arrivals[..n]);
      assert fates[..n] == Fates(settings, s, arrivals[..n]);
      var s' := Run(settings, s, arrivals[..n]).value;
      assert fates[n] == FateOf(settings, s', arrivals[n]);
      ProcessWrites(settings, s', arrivals, fates);
      AddLines(c.written, LinesOf(settings, arrivals[..n], fates[..n]), NewLines(settings, arrivals, fates));
    }
  }

  lemma AddLines(a: seq<Line>, b: seq<Line>, c: seq<Line>)
    ensures (a + b) + c == a + (b + c)
  {
  }

  lemma NothingToRemember(settings: Settings, c: Control)
    ensures Remembers(settings, Collector(c, Enough, None), [], [])
  {
  }
}
