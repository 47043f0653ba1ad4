/** Counting full operational intervals and full crash-free intervals. Instants are nanoseconds. */
module CrashFreeIntervals {
  import opened Bytes

  datatype TimeMod = TimeMod(count: nat, mark: nat)

  const U32: nat := 0x1_0000_0000

  /** How many intervals have elapsed since `since` (as a 32-bit count) and where the last one ended. The
      clock is read a second time when `since` has not come yet. */
  function FullIntervalElapsedSince(interval: nat, since: nat, now: nat, again: nat): TimeMod
    requires interval > 0
  {
    if since > now then TimeMod(0, again)
    else
      var count := (now - since) / interval % U32;
      TimeMod(count, since + interval * count)
  }

  /** The whole intervals since `since`, whatever the clock shows: their number modulo 2^32, and where the
      last one counted ended. A mark that lies ahead is replaced by a second reading. */
  lemma IntervalsElapsed(interval: nat, since: nat, now: nat, again: nat, q: nat)
    requires interval > 0
    ensures var r := FullIntervalElapsedSince(interval, since, now, again);
      && (since > now ==> r == TimeMod(0, again))
      && (since + q * interval <= now < since + (q + 1) * interval ==>
            r == TimeMod(q % 0x1_0000_0000, since + (q % 0x1_0000_0000) * interval))
  {
    if since + q * interval <= now < since + (q + 1) * interval {
      assert 0 <= q * interval;
      DivisionUnique(now - since, interval, q);
      assert (now - since) / interval == q;
    }
  }

  lemma DivisionUnique(n: nat, interval: nat, q: nat)
    requires interval > 0 && q * interval <= n < (q + 1) * interval
    ensures n / interval == q
  {
    var d := n / interval;
    assert n == d * interval + n % interval;
    assert d < q ==> (d + 1) * interval <= q * interval;
    assert d > q ==> (q + 1) * interval <= d * interval;
  }

  function Latest(mark: nat, crashes: seq<nat>): nat {
    if crashes == [] then mark
    else
      var m := Latest(mark, crashes[..|crashes| - 1]);
      if crashes[|crashes| - 1] > m then crashes[|crashes| - 1] else m
  }

  datatype Tracker = Tracker(intervalMark: nat, crashfreeMark: nat, crashCount: nat, channel: seq<nat>)
  datatype Reading = Reading(intervals: nat, crashfree: nat, crashes: nat)

  /** What the clock shows when the tracker is made. */
  datatype Start = Start(crashfree: nat, op: nat)

  /** What the clock shows during one update, in this order: once for the operational intervals and once
      for the crash-free ones, and again for each if its mark lies ahead. */
  datatype Clock = Clock(op: nat, opAgain: nat, crashfree: nat, crashfreeAgain: nat)

  function CollectCrashes(t: Tracker): Tracker {
    t.(crashCount := t.crashCount + |t.channel|, crashfreeMark := Latest(t.crashfreeMark, t.channel), channel := [])
  }

  function Update(interval: nat, t: Tracker, clock: Clock): (Tracker, Reading)
    requires interval > 0
  {
    var c := CollectCrashes(t);
    var op := FullIntervalElapsedSince(interval, c.intervalMark, clock.op, clock.opAgain);
    var cf := FullIntervalElapsedSince(interval, c.crashfreeMark, clock.crashfree, clock.crashfreeAgain);
    (Tracker(op.mark, cf.mark, 0, []), Reading(op.count, cf.count, c.crashCount))
  }

  class CrashFreeIntervalTracker {
    var lastIntervalMark: nat
    var lastCrashfreeIntervalMark: nat
    var crashCount: nat
    var channel: seq<nat>
    const interval: nat

    ghost function State(): Tracker
      reads this
    {
      Tracker(lastIntervalMark, lastCrashfreeIntervalMark, crashCount, channel)
    }

    // The two marks are read from the clock one after the other.
    constructor (interval: nat, start: Start)
      ensures this.interval == interval && State() == Tracker(start.op, start.crashfree, 0, [])
    {
      this.interval := interval;
      lastCrashfreeIntervalMark, lastIntervalMark, crashCount, channel := start.crashfree, start.op, 0, [];
    }

    method CaptureCrash(now: nat)
      modifies this
      ensures State() == old(State()).(channel := old(channel) + [now])
    {
      channel := channel + [now];
    }

    method Collect()
      modifies this
      ensures State() == CollectCrashes(old(State()))
    {
      ghost var taken: seq<nat> := [];
      assert taken + channel == channel;
      while channel != []
        invariant taken + channel == old(channel) && lastIntervalMark == old(lastIntervalMark)
        invariant crashCount == old(crashCount) + |taken|
        invariant lastCrashfreeIntervalMark == Latest(old(lastCrashfreeIntervalMark), taken)
        decreases |channel|
      {
        var ts := channel[0];
        assert (taken + [ts])[..|taken|] == taken;
        taken := taken + [ts];
        channel := channel[1..];
        crashCount := crashCount + 1;
        lastCrashfreeIntervalMark := if ts > lastCrashfreeIntervalMark then ts else lastCrashfreeIntervalMark;
      }
      assert taken == old(channel);
    }

    method UpdateAt(clock: Clock) returns (reading: Reading)
      requires interval > 0
      modifies this
      ensures (State(), reading) == Update(interval, old(State()), clock)
    {
      Collect();
      var op := FullIntervalElapsedSince(interval, lastIntervalMark, clock.op, clock.opAgain);
      var cf := FullIntervalElapsedSince(interval, lastCrashfreeIntervalMark, clock.crashfree, clock.crashfreeAgain);
      lastIntervalMark := op.mark;
      lastCrashfreeIntervalMark := cf.mark;
      var crashes := crashCount;
      crashCount := 0;
      reading := Reading(op.count, cf.count, crashes);
    }
  }

  // ---- runs ----

  datatype Event = Crash(time: nat) | Tick(clock: Clock) {
    function Begin(): nat {
      if Crash? then time else clock.op
    }

    function End(): nat {
      if Crash? then time else clock.crashfreeAgain
    }
  }

  /** A tracker with the history of its run: total operational count, the starting instants of the
      crash-free intervals counted, the crashes collected, the last update's two readings, and how many
      crashes the updates reported. */
  datatype History = History(t: Tracker, intervals: nat, crashfreeStarts: seq<nat>, crashes: seq<nat>,
                             lastOp: nat, lastCrashfree: nat, reported: nat)

  function Starts(interval: nat, mark: nat, count: nat): (s: seq<nat>)
    ensures |s| == count
  {
    seq(count, k requires 0 <= k < count => mark + interval * k)
  }

  function Step(interval: nat, h: History, e: Event): History
    requires interval > 0
  {
    match e
    case Crash(time) => h.(t := h.t.(channel := h.t.channel + [time]))
    case Tick(clock) =>
      var (t, reading) := Update(interval, h.t, clock);
      History(t, h.intervals + reading.intervals,
              h.crashfreeStarts + Starts(interval, CollectCrashes(h.t).crashfreeMark, reading.crashfree),
              h.crashes + h.t.channel, clock.op, clock.crashfree, h.reported + reading.crashes)
  }

  function Run(interval: nat, start: Start, events: seq<Event>): History
    requires interval > 0
  {
    if events == [] then History(Tracker(start.op, start.crashfree, 0, []), 0, [], [], start.op, start.crashfree, 0)
    else Step(interval, Run(interval, start, events[..|events| - 1]), events[|events| - 1])
  }

  /** When the latest update before began, or the tracker was made. */
  function LastTick(start: Start, events: seq<Event>): nat {
    if events == [] then start.crashfree
    else if events[|events| - 1].Tick? then events[|events| - 1].clock.op
    else LastTick(start, events[..|events| - 1])
  }

  /** The clock never goes back, and no update has to count more than 32 bits hold. */
  ghost predicate Schedule(interval: nat, start: Start, events: seq<Event>) {
    && start.crashfree <= start.op
    && (forall i :: 0 <= i < |events| ==> start.op <= events[i].Begin())
    && (forall i :: 0 <= i < |events| && events[i].Tick? ==>
          var clock := events[i].clock;
          && clock.op <= clock.opAgain <= clock.crashfree <= clock.crashfreeAgain
          && clock.crashfree - LastTick(start, events[..i]) <= interval * (U32 - 1))
    && (forall i, j :: 0 <= i < j < |events| ==> events[i].End() <= events[j].Begin())
  }

  function LastTime(start: Start, events: seq<Event>): nat {
    if events == [] then start.op else events[|events| - 1].End()
  }

  // What holds after every event; `now` is the time of the latest event.
  ghost predicate Sound(interval: nat, start: Start, h: History, now: nat) {
    && h.t.intervalMark == start.op + interval * h.intervals
    && h.t.intervalMark <= h.lastOp < h.t.intervalMark + interval
    && h.lastOp <= now && h.lastCrashfree <= now
    && start.crashfree + interval * |h.crashfreeStarts| <= h.t.crashfreeMark
    && (h.crashes == [] ==> start.crashfree + interval * |h.crashfreeStarts| == h.t.crashfreeMark)
    && h.t.crashfreeMark <= h.lastCrashfree < h.t.crashfreeMark + interval
    && Disjoint(interval, h.crashfreeStarts, start.crashfree, h.t.crashfreeMark)
    && (forall i, k :: 0 <= i < |h.crashfreeStarts| && 0 <= k < |h.crashes| ==>
          !(h.crashfreeStarts[i] < h.crashes[k] < h.crashfreeStarts[i] + interval))
    && (forall k :: 0 <= k < |h.crashes| ==> h.crashes[k] <= h.t.crashfreeMark)
    && (forall k :: 0 <= k < |h.t.channel| ==> h.lastCrashfree <= h.t.channel[k] <= now)
    && h.t.crashCount == 0
  }

  /** The intervals that begin at `starts` follow one another without overlap, within the bounds. */
  ghost predicate Disjoint(interval: nat, starts: seq<nat>, from: nat, to: nat) {
    && (forall i :: 0 <= i < |starts| ==> from <= starts[i] && starts[i] + interval <= to)
    && (forall i, j :: 0 <= i < j < |starts| ==> starts[i] + interval <= starts[j])
  }

  lemma {:induction false} LatestBounds(mark: nat, crashes: seq<nat>, bound: nat)
    requires mark <= bound && forall k :: 0 <= k < |crashes| ==> crashes[k] <= bound
    ensures mark <= Latest(mark, crashes) <= bound
    ensures forall k :: 0 <= k < |crashes| ==> crashes[k] <= Latest(mark, crashes)
    decreases |crashes|
  {
    if crashes != [] {
      LatestBounds(mark, crashes[..|crashes| - 1], bound);
    }
  }

  lemma Elapsed(interval: nat, since: nat, now: nat, again: nat)
    requires interval > 0 && since <= now < since + interval * U32
    ensures var r := FullIntervalElapsedSince(interval, since, now, again);
      r.mark == since + interval * r.count && r.mark <= now < r.mark + interval
  {
    var q := (now - since) / interval;
    Quotient(now - since, interval);
    if q >= U32 {
      MulMonotone(interval, U32, q);
      assert false;
    }
    Truncated(q);
  }

  lemma Quotient(d: nat, m: nat)
    requires m > 0
    ensures m * (d / m) <= d < m * (d / m) + m
  {
  }

  lemma Truncated(q: nat)
    requires q < U32
    ensures q % U32 == q
  {
  }

  lemma QuotientAtLeast(d: nat, m: nat, a: nat)
    requires m > 0 && m * a <= d
    ensures a <= d / m
  {
    Quotient(d, m);
    MulStep(m, d / m, a);
  }

  lemma QuotientUnique(d: nat, m: nat, a: nat)
    requires m > 0 && m * a <= d < m * a + m
    ensures d / m == a
  {
    Quotient(d, m);
    MulStep(m, a, d / m);
    MulStep(m, d / m, a);
  }

  lemma MulMonotone(m: nat, a: nat, b: nat)
    requires a <= b
    ensures m * a <= m * b
  {
  }

  lemma MulStep(m: nat, a: nat, b: nat)
    ensures m * (a + b) == m * a + m * b
    ensures a < b ==> m * a + m <= m * b
  {
    if a < b {
      MulMonotone(m, a + 1, b);
    }
  }

  lemma StartsDisjoint(interval: nat, mark: nat, count: nat)
    ensures Disjoint(interval, Starts(interval, mark, count), mark, mark + interval * count)
  {
    var s := Starts(interval, mark, count);
    forall i | 0 <= i < count
      ensures mark <= s[i] && s[i] + interval <= mark + interval * count
    {
      MulStep(interval, i, count);
    }
    forall i, j | 0 <= i < j < count
      ensures s[i] + interval <= s[j]
    {
      MulStep(interval, i, j);
    }
  }

  lemma DisjointAppend(interval: nat, a: seq<nat>, b: seq<nat>, from: nat, mid: nat, to: nat)
    requires from <= mid <= to && Disjoint(interval, a, from, mid) && Disjoint(interval, b, mid, to)
    ensures Disjoint(interval, a + b, from, to)
  {
  }

  lemma TickSound(interval: nat, start: Start, h: History, now: nat, clock: Clock)
    requires interval > 0 && Sound(interval, start, h, now)
    requires now <= clock.op <= clock.opAgain <= clock.crashfree <= clock.crashfreeAgain
    requires clock.crashfree - h.lastOp <= interval * (U32 - 1)
    requires clock.crashfree - h.lastCrashfree <= interval * (U32 - 1)
    ensures Sound(interval, start, Step(interval, h, Tick(clock)), clock.crashfreeAgain)
  {
    hide FullIntervalElapsedSince, Latest, Starts, Disjoint;
    OperationalTick(interval, start, h, now, clock);
    CrashfreeTick(interval, start, h, now, clock);
  }

  // The operational half of an update.
  lemma OperationalTick(interval: nat, start: Start, h: History, now: nat, clock: Clock)
    requires interval > 0 && Sound(interval, start, h, now)
    requires now <= clock.op && clock.op - h.lastOp <= interval * (U32 - 1)
    ensures var r := FullIntervalElapsedSince(interval, h.t.intervalMark, clock.op, clock.opAgain);
      && r.mark == start.op + interval * (h.intervals + r.count) && r.mark <= clock.op < r.mark + interval
  {
    hide FullIntervalElapsedSince, Disjoint;
    MulStep(interval, U32 - 1, 1);
    Elapsed(interval, h.t.intervalMark, clock.op, clock.opAgain);
    MulStep(interval, h.intervals, FullIntervalElapsedSince(interval, h.t.intervalMark, clock.op, clock.opAgain).count);
  }

  // The crash-free half, which starts from the latest crash.
  lemma CrashfreeTick(interval: nat, start: Start, h: History, now: nat, clock: Clock)
    requires interval > 0 && Sound(interval, start, h, now)
    requires now <= clock.op <= clock.crashfree && clock.crashfree - h.lastCrashfree <= interval * (U32 - 1)
    ensures var mark := Latest(h.t.crashfreeMark, h.t.channel);
      var r := FullIntervalElapsedSince(interval, mark, clock.crashfree, clock.crashfreeAgain);
      var starts, crashes := h.crashfreeStarts + Starts(interval, mark, r.count), h.crashes + h.t.channel;
      && start.crashfree + interval * |starts| <= r.mark <= clock.crashfree < r.mark + interval
      && (crashes == [] ==> start.crashfree + interval * |starts| == r.mark)
      && Disjoint(interval, starts, start.crashfree, r.mark)
      && (forall i, k :: 0 <= i < |starts| && 0 <= k < |crashes| ==> !(starts[i] < crashes[k] < starts[i] + interval))
      && (forall k :: 0 <= k < |crashes| ==> crashes[k] <= r.mark)
  {
    hide FullIntervalElapsedSince, Latest, Starts, Disjoint;
    var mark := Latest(h.t.crashfreeMark, h.t.channel);
    LatestBounds(h.t.crashfreeMark, h.t.channel, clock.op);
    MulMonotone(interval, 0, |h.crashfreeStarts|);
    MulStep(interval, U32 - 1, 1);
    Elapsed(interval, mark, clock.crashfree, clock.crashfreeAgain);
    var cf := FullIntervalElapsedSince(interval, mark, clock.crashfree, clock.crashfreeAgain);
    MulStep(interval, |h.crashfreeStarts|, cf.count);
    StartsDisjoint(interval, mark, cf.count);
    Widen(interval, h.crashfreeStarts, start.crashfree, h.t.crashfreeMark, mark);
    DisjointAppend(interval, h.crashfreeStarts, Starts(interval, mark, cf.count), start.crashfree, mark, cf.mark);
    NoCrashInside(interval, h, mark, cf.mark, Starts(interval, mark, cf.count), start.crashfree);
    NoCrashNoReset(h.t.crashfreeMark, h.t.channel);
  }

  lemma {:induction false} NoCrashNoReset(mark: nat, crashes: seq<nat>)
    ensures crashes == [] ==> Latest(mark, crashes) == mark
  {
  }

  lemma Widen(interval: nat, starts: seq<nat>, from: nat, to: nat, to': nat)
    requires Disjoint(interval, starts, from, to) && to <= to'
    ensures Disjoint(interval, starts, from, to')
  {
  }

  lemma NoCrashInside(interval: nat, h: History, mark: nat, end: nat, added: seq<nat>, from: nat)
    requires Disjoint(interval, h.crashfreeStarts, from, h.t.crashfreeMark) && h.t.crashfreeMark <= h.lastCrashfree
    requires Disjoint(interval, added, mark, end) && h.t.crashfreeMark <= mark
    requires forall i, k :: 0 <= i < |h.crashfreeStarts| && 0 <= k < |h.crashes| ==>
      !(h.crashfreeStarts[i] < h.crashes[k] < h.crashfreeStarts[i] + interval)
    requires forall k :: 0 <= k < |h.crashes| ==> h.crashes[k] <= h.t.crashfreeMark
    requires forall k :: 0 <= k < |h.t.channel| ==> h.lastCrashfree <= h.t.channel[k] <= mark
    ensures var starts, crashes := h.crashfreeStarts + added, h.crashes + h.t.channel;
      && (forall i, k :: 0 <= i < |starts| && 0 <= k < |crashes| ==> !(starts[i] < crashes[k] < starts[i] + interval))
      && (forall k :: 0 <= k < |crashes| ==> crashes[k] <= mark)
  {
  }

  lemma {:induction false} RunSound(interval: nat, start: Start, events: seq<Event>)
    requires interval > 0 && Schedule(interval, start, events)
    ensures Sound(interval, start, Run(interval, start, events), LastTime(start, events))
    ensures LastTick(start, events) <= Run(interval, start, events).lastOp
    ensures LastTick(start, events) <= Run(interval, start, events).lastCrashfree
    decreases |events|
  {
    hide Sound, Update;
    if events == [] {
      StartSound(interval, start);
    } else {
      var n := |events| - 1;
      ScheduleBefore(interval, start, events);
      RunSound(interval, start, events[..n]);
      var h, now := Run(interval, start, events[..n]), LastTime(start, events[..n]);
      match events[n] {
        case Tick(clock) => TickSound(interval, start, h, now, clock);
        case Crash(time) => CrashSound(interval, start, h, now, time);
      }
    }
  }

  lemma ScheduleBefore(interval: nat, start: Start, events: seq<Event>)
    requires Schedule(interval, start, events) && events != []
    ensures var n := |events| - 1;
      && Schedule(interval, start, events[..n]) && LastTime(start, events[..n]) <= events[n].Begin()
  {
    hide LastTick;
    var prefix := events[..|events| - 1];
    forall i | 0 <= i < |prefix|
      ensures prefix[i] == events[i] && prefix[..i] == events[..i]
    {
    }
  }

  lemma {:induction false} StartSound(interval: nat, start: Start)
    requires interval > 0 && start.crashfree <= start.op
    ensures Sound(interval, start, Run(interval, start, []), start.op)
  {
  }

  lemma CrashSound(interval: nat, start: Start, h: History, now: nat, time: nat)
    requires interval > 0 && Sound(interval, start, h, now) && now <= time
    ensures Sound(interval, start, Step(interval, h, Crash(time)), time)
  {
  }

  // ---- the crash-free count, from the events alone ----

  /** Whole intervals of the stretches that a crash has ended, the start of the present stretch and the
      reading up to which it has been counted, and the latest crash not collected yet. */
  datatype Stretches = Stretches(done: nat, since: nat, last: nat, waiting: Option<nat>) {
    function Count(interval: nat): nat
      requires interval > 0
    {
      done + Whole(interval, since, last)
    }
  }

  function Whole(interval: nat, from: nat, to: nat): nat
    requires interval > 0
  {
    if from <= to then (to - from) / interval else 0
  }

  /** A stretch is counted from where it starts up to the last update before the crash that ends it; the
      next one starts at the latest crash collected. */
  function StretchesOf(interval: nat, start: Start, events: seq<Event>): Stretches
    requires interval > 0
  {
    if events == [] then Stretches(0, start.crashfree, start.crashfree, None)
    else
      var s := StretchesOf(interval, start, events[..|events| - 1]);
      match events[|events| - 1]
      case Crash(time) => s.(waiting := Some(time))
      case Tick(clock) =>
        match s.waiting
        case None => s.(last := clock.crashfree)
        case Some(crash) => Stretches(s.Count(interval), crash, clock.crashfree, None)
  }

  ghost predicate Tracks(interval: nat, h: History, s: Stretches)
    requires interval > 0
  {
    && s.since <= s.last == h.lastCrashfree
    && |h.crashfreeStarts| == s.Count(interval)
    && h.t.crashfreeMark == s.since + interval * Whole(interval, s.since, s.last)
    && (s.waiting.Some? <==> h.t.channel != [])
    && (s.waiting.Some? ==> s.waiting.value == h.t.channel[|h.t.channel| - 1])
    && (forall i, j :: 0 <= i < j < |h.t.channel| ==> h.t.channel[i] <= h.t.channel[j])
  }

  // Counting on from the last whole interval comes to the same as counting from the start.
  lemma WholeOn(interval: nat, since: nat, last: nat, now: nat)
    requires interval > 0 && since <= last <= now
    ensures var mark := since + interval * Whole(interval, since, last);
      && mark <= last
      && Whole(interval, since, now) == Whole(interval, since, last) + (now - mark) / interval
  {
    var q := (last - since) / interval;
    Quotient(last - since, interval);
    var n := (now - (since + interval * q)) / interval;
    Quotient(now - (since + interval * q), interval);
    MulStep(interval, q, n);
    QuotientUnique(now - since, interval, q + n);
  }

  // What a reading adds, when its count fits 32 bits.
  lemma Counted(interval: nat, since: nat, now: nat, again: nat)
    requires interval > 0 && since <= now < since + interval * U32
    ensures FullIntervalElapsedSince(interval, since, now, again).count == (now - since) / interval
  {
    hide FullIntervalElapsedSince;
    Elapsed(interval, since, now, again);
    QuotientUnique(now - since, interval, FullIntervalElapsedSince(interval, since, now, again).count);
  }

  lemma {:induction false} LatestIsLast(mark: nat, crashes: seq<nat>)
    requires crashes != [] && forall i, j :: 0 <= i < j < |crashes| ==> crashes[i] <= crashes[j]
    requires mark <= crashes[|crashes| - 1]
    ensures Latest(mark, crashes) == crashes[|crashes| - 1]
  {
    hide Latest;
    LatestBounds(mark, crashes, crashes[|crashes| - 1]);
  }

  lemma TickTracks(interval: nat, start: Start, h: History, now: nat, clock: Clock, s: Stretches)
    requires interval > 0 && Sound(interval, start, h, now) && Tracks(interval, h, s)
    requires now <= clock.op <= clock.crashfree && clock.crashfree - h.lastCrashfree <= interval * (U32 - 1)
    ensures Tracks(interval, Step(interval, h, Tick(clock)),
                   if s.waiting.None? then s.(last := clock.crashfree)
                   else Stretches(s.Count(interval), s.waiting.value, clock.crashfree, None))
  {
    hide FullIntervalElapsedSince, Latest, Starts, Disjoint, Whole;
    var mark := Latest(h.t.crashfreeMark, h.t.channel);
    LatestBounds(h.t.crashfreeMark, h.t.channel, clock.op);
    MulStep(interval, U32 - 1, 1);
    Elapsed(interval, mark, clock.crashfree, clock.crashfreeAgain);
    Counted(interval, mark, clock.crashfree, clock.crashfreeAgain);
    if s.waiting.None? {
      NoCrashNoReset(h.t.crashfreeMark, h.t.channel);
      WholeOn(interval, s.since, s.last, clock.crashfree);
      MulStep(interval, Whole(interval, s.since, s.last), (clock.crashfree - mark) / interval);
    } else {
      LatestIsLast(h.t.crashfreeMark, h.t.channel);
      WholeFrom(interval, mark, clock.crashfree);
    }
  }

  lemma WholeFrom(interval: nat, since: nat, now: nat)
    requires interval > 0 && since <= now
    ensures Whole(interval, since, now) == (now - since) / interval
  {
  }

  /** Over any schedule, crashes included, the tracker's crash-free count and mark are those of the
      stretches. */
  lemma {:induction false} RunTracks(interval: nat, start: Start, events: seq<Event>)
    requires interval > 0 && Schedule(interval, start, events)
    ensures Tracks(interval, Run(interval, start, events), StretchesOf(interval, start, events))
    decreases |events|
  {
    hide Sound, Update, Tracks, Schedule;
    if events == [] {
      StartTracks(interval, start);
    } else {
      var n := |events| - 1;
      ScheduleBefore(interval, start, events);
      RunTracks(interval, start, events[..n]);
      RunSound(interval, start, events[..n]);
      var h, now := Run(interval, start, events[..n]), LastTime(start, events[..n]);
      var s := StretchesOf(interval, start, events[..n]);
      match events[n] {
        case Tick(clock) =>
          TickFits(interval, start, events);
          TickTracks(interval, start, h, now, clock, s);
        case Crash(time) =>
          CrashTracks(interval, start, h, now, time, s);
      }
    }
  }

  lemma {:induction false} TickFits(interval: nat, start: Start, events: seq<Event>)
    requires interval > 0 && Schedule(interval, start, events) && events != [] && events[|events| - 1].Tick?
    ensures var clock := events[|events| - 1].clock;
      && clock.op <= clock.opAgain <= clock.crashfree <= clock.crashfreeAgain
      && clock.crashfree - LastTick(start, events[..|events| - 1]) <= interval * (U32 - 1)
  {
  }

  lemma {:induction false} StartTracks(interval: nat, start: Start)
    requires interval > 0
    ensures Tracks(interval, Run(interval, start, []), StretchesOf(interval, start, []))
  {
    QuotientUnique(0, interval, 0);
  }

  lemma CrashTracks(interval: nat, start: Start, h: History, now: nat, time: nat, s: Stretches)
    requires interval > 0 && Sound(interval, start, h, now) && Tracks(interval, h, s) && now <= time
    ensures Tracks(interval, Step(interval, h, Crash(time)), s.(waiting := Some(time)))
  {
    hide Whole;
  }

  /** When the last update read the clock for operational intervals, or the tracker did. */
  function LastOp(start: Start, events: seq<Event>): nat {
    if events == [] then start.op
    else if events[|events| - 1].Tick? then events[|events| - 1].clock.op
    else LastOp(start, events[..|events| - 1])
  }

  lemma {:induction false} LastOpRead(interval: nat, start: Start, events: seq<Event>)
    requires interval > 0
    ensures Run(interval, start, events).lastOp == LastOp(start, events)
    decreases |events|
  {
    hide Update;
    if events != [] {
      LastOpRead(interval, start, events[..|events| - 1]);
    }
  }

  /** Over any schedule of updates and crashes: the operational counts add up to the whole intervals
      from the start to the last update; the crash-free intervals counted are disjoint and no collected
      crash lies inside one; less than an interval is left uncounted behind the last of them or the last
      crash. They are as many as the stretches hold: the whole intervals elapsed if nothing crashed, and
      never more. */
  lemma {:induction false} IntervalsTelescope(interval: nat, start: Start, events: seq<Event>)
    requires interval > 0 && Schedule(interval, start, events)
    ensures var h := Run(interval, start, events);
      && start.op <= h.lastOp && start.crashfree <= h.lastCrashfree
      && h.intervals == (h.lastOp - start.op) / interval
      && Disjoint(interval, h.crashfreeStarts, start.crashfree, h.t.crashfreeMark)
      && (forall i, k :: 0 <= i < |h.crashfreeStarts| && 0 <= k < |h.crashes| ==>
            !(h.crashfreeStarts[i] < h.crashes[k] < h.crashfreeStarts[i] + interval))
      && h.t.crashfreeMark <= h.lastCrashfree < h.t.crashfreeMark + interval
      && |h.crashfreeStarts| == StretchesOf(interval, start, events).Count(interval)
      && |h.crashfreeStarts| <= (h.lastCrashfree - start.crashfree) / interval
      && (h.crashes == [] ==> |h.crashfreeStarts| == (h.lastCrashfree - start.crashfree) / interval)
  {
    hide Run, Disjoint, Schedule, StretchesOf;
    RunSound(interval, start, events);
    RunTracks(interval, start, events);
    var h := Run(interval, start, events);
    MulMonotone(interval, 0, h.intervals);
    MulMonotone(interval, 0, |h.crashfreeStarts|);
    QuotientUnique(h.lastOp - start.op, interval, h.intervals);
    QuotientAtLeast(h.lastCrashfree - start.crashfree, interval, |h.crashfreeStarts|);
    if h.crashes == [] {
      QuotientUnique(h.lastCrashfree - start.crashfree, interval, |h.crashfreeStarts|);
    }
  }

  /** Crash-free intervals outnumber operational ones exactly when the stretches hold more whole intervals
      than the time from the start to the last update. Both counts start and stop at clock readings of
      their own, so that can be; it takes more time between the crash-free readings, in whole intervals,
      than between the operational ones. */
  lemma {:induction false} OutnumberedExactly(interval: nat, start: Start, events: seq<Event>)
    requires interval > 0 && Schedule(interval, start, events)
    ensures var h, s := Run(interval, start, events), StretchesOf(interval, start, events);
      && start.op <= LastOp(start, events) && start.crashfree <= s.last
      && (|h.crashfreeStarts| > h.intervals <==> s.Count(interval) > (LastOp(start, events) - start.op) / interval)
      && (|h.crashfreeStarts| > h.intervals ==>
            (s.last - start.crashfree) / interval > (LastOp(start, events) - start.op) / interval)
  {
    hide Schedule, Run, StretchesOf, Disjoint;
    IntervalsTelescope(interval, start, events);
    RunTracks(interval, start, events);
    LastOpRead(interval, start, events);
  }

  /** An update at the end of an interval can count a crash-free interval and no operational one, because
      the clock is read twice; or because it was when the tracker was made. */
  lemma OutnumberedOnce()
    ensures var h := Run(10, Start(0, 0), [Tick(Clock(9, 9, 10, 10))]);
      h.intervals == 0 && |h.crashfreeStarts| == 1
    ensures var h := Run(10, Start(0, 5), [Tick(Clock(12, 12, 12, 12))]);
      h.intervals == 0 && |h.crashfreeStarts| == 1
  {
    assert [Tick(Clock(9, 9, 10, 10))][..0] == [];
    assert [Tick(Clock(12, 12, 12, 12))][..0] == [];
  }

  function CrashTimes(events: seq<Event>): seq<nat> {
    if events == [] then []
    else
      CrashTimes(events[..|events| - 1])
      + match events[|events| - 1] { case Crash(time) => [time] case Tick(_) => [] }
  }

  /** Every crash is collected once, in order, or still waits in the channel; and the updates report as
      many as are collected. */
  lemma {:induction false} CrashesConserved(interval: nat, start: Start, events: seq<Event>)
    requires interval > 0
    ensures var h := Run(interval, start, events);
      h.crashes + h.t.channel == CrashTimes(events) && h.reported + h.t.crashCount == |h.crashes|
      && h.t.crashCount == 0
    decreases |events|
  {
    hide FullIntervalElapsedSince, Latest, Starts;
    if events != [] {
      CrashesConserved(interval, start, events[..|events| - 1]);
      var h := Run(interval, start, events[..|events| - 1]);
      assert CrashTimes(events[..|events| - 1]) + [] == CrashTimes(events[..|events| - 1]);
    }
  }
}
