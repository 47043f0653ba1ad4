/** The linked list that completed logs form across rotations, crashes and restarts. */
module LogChain {
  import opened Bytes
  import opened LogFiles
  import opened LogRecovery

  /** What can happen to log collection. A crash leaves an arbitrary part of the current file on disk,
      since lines are compressed and buffered; `size` is what the next start finds (none if it cannot
      be determined). A crash inside a rotation comes after the new file was created and before the
      old one was handed over; the old file is listed first unless it was flushed in between. */
  datatype Action =
    | Write(line: Line, bytes: nat)
    | RotateCheck(aged: bool, opens: bool)
    | Flush(opens: bool)
    | Crash(size: Option<nat>)
    | CrashInRotation(size: Option<nat>, oldFirst: bool)
    | CloseAndRestart(size: Option<nat>)

  function FileOf(cid: Cid, size: Option<nat>): FileInfo {
    FileInfo("", Some(cid), size)
  }

  /** Starting on a directory: recover what is there, then open a new file. */
  function Restart(c: Control, files: seq<FileInfo>): Control {
    var r := GetRecovery(files, c.supply);
    c.(cid := r.nextCid, bytesWritten := 0, supply := c.supply + 1, handed := c.handed + Completed(r.toRecover))
  }

  /** Opening the log collector: recovery first, then a file under the UUID that recovery settled on. */
  method OpenCollector(files: seq<FileInfo>, c: Control, maxSize: nat) returns (control: LogFileControl)
    ensures fresh(control) && control.maxSize == maxSize
    ensures control.State() == Restart(c, files).(written := [])
  {
    var nextCid, handed, _ := RecoverOldLogs(files, c.supply);
    control := new LogFileControl.Open(nextCid, maxSize, c.handed + handed, c.supply + 1);
  }

  function Step(c: Control, maxSize: nat, action: Action): Control {
    match action
    case Write(line, bytes) => WriteLine(c, line, bytes)
    case RotateCheck(aged, opens) => RotateIfNeeded(c, maxSize, aged, opens).0
    case Flush(opens) => RotateUnlessEmpty(c, opens).0
    case Crash(size) => Restart(c, [FileOf(c.cid, size)])
    case CrashInRotation(size, oldFirst) =>
      var former, newer := FileOf(c.cid, size), FileOf(c.supply, Some(0));
      Restart(c.(supply := c.supply + 1), if oldFirst then [former, newer] else [newer, former])
    case CloseAndRestart(size) =>
      if c.bytesWritten > 0 then Restart(Close(c), []) else Restart(c, [FileOf(c.cid, size)])
  }

  function Run(c: Control, maxSize: nat, actions: seq<Action>): Control {
    if actions == [] then c
    else Step(Run(c, maxSize, actions[..|actions| - 1]), maxSize, actions[|actions| - 1])
  }

  /** The steps after which the last log handed over names a successor that never comes: a clean close
      of a file with content, and a crash inside a rotation of which nothing of the old file had
      reached the disk and the old file is listed first. */
  predicate BreaksChain(c: Control, action: Action) {
    match action
    case CloseAndRestart(_) => c.bytesWritten > 0
    case CrashInRotation(size, oldFirst) =>
      c.handed != [] && oldFirst && !ShouldRecover(FileOf(c.cid, size))
    case _ => false
  }

  /** Positions in the list of completed logs at which the chain is broken. */
  function Gaps(c: Control, maxSize: nat, actions: seq<Action>): set<nat> {
    if actions == [] then {}
    else
      var before := Run(c, maxSize, actions[..|actions| - 1]);
      var action := actions[|actions| - 1];
      var gaps := Gaps(c, maxSize, actions[..|actions| - 1]);
      if BreaksChain(before, action) then
        var last: nat := if action.CloseAndRestart? then |before.handed| else |before.handed| - 1;
        gaps + {last}
      else gaps
  }

  /** Who comes after log `i`: the next log handed over, or the file now being written. */
  function Successor(c: Control, i: nat): Cid
    requires i < |c.handed|
  {
    if i + 1 < |c.handed| then c.handed[i + 1].cid else c.cid
  }

  ghost predicate Linked(c: Control, gaps: set<nat>) {
    && (forall i :: 0 <= i < |c.handed| ==> (c.handed[i].nextCid == Successor(c, i) <==> i !in gaps))
    && (forall i :: i in gaps ==> i < |c.handed|)
  }

  /** No UUID is handed over twice, the current one has not been, and none is from the future. */
  ghost predicate Distinct(c: Control) {
    && c.cid < c.supply
    && (forall i :: 0 <= i < |c.handed| ==> c.handed[i].cid < c.supply && c.handed[i].nextCid < c.supply)
    && (forall i :: 0 <= i < |c.handed| ==> c.handed[i].cid != c.cid)
    && (forall i, j :: 0 <= i < j < |c.handed| ==> c.handed[i].cid != c.handed[j].cid)
  }

  lemma RecoverOne(cid: Cid, size: Option<nat>, unused: Cid)
    ensures var file := FileOf(cid, size); var r := GetRecovery([file], unused);
      && r.nextCid == (if ShouldRecover(file) then unused else cid)
      && Completed(r.toRecover) == if ShouldRecover(file) then [CompletedLog(cid, unused)] else []
  {
    var file := FileOf(cid, size);
    assert [file][1..] == [] && [file][..0] == [];
    assert Worthwhile([file]) == if ShouldRecover(file) then [file] else [];
  }

  // After a crash inside a rotation there are the old file and the new, empty one.
  lemma RecoverTwo(cid: Cid, size: Option<nat>, newer: Cid, oldFirst: bool, unused: Cid)
    ensures var former, empty := FileOf(cid, size), FileOf(newer, Some(0));
      var r := GetRecovery(if oldFirst then [former, empty] else [empty, former], unused);
      && r.nextCid == (if oldFirst then newer else if ShouldRecover(former) then unused else cid)
      && Completed(r.toRecover) == if ShouldRecover(former) then [CompletedLog(cid, r.nextCid)] else []
  {
    var former, empty := FileOf(cid, size), FileOf(newer, Some(0));
    var files := if oldFirst then [former, empty] else [empty, former];
    assert files[1..] == if oldFirst then [empty] else [former];
    assert files[1..][1..] == [];
    assert Worthwhile(files[1..]) == if ShouldRecover(former) && !oldFirst then [former] else [];
    assert Worthwhile(files) == if ShouldRecover(former) then [former] else [];
  }

  // The current file is handed over and names the new one.
  lemma HandOver(c: Control, c': Control, gaps: set<nat>)
    requires Linked(c, gaps) && Distinct(c)
    requires c.supply <= c'.cid < c'.supply && c'.handed == c.handed + [CompletedLog(c.cid, c'.cid)]
    ensures Linked(c', gaps) && Distinct(c')
  {
    forall i | 0 <= i < |c'.handed|
      ensures c'.handed[i].nextCid == Successor(c', i) <==> i !in gaps
    {
      if i < |c.handed| {
        assert c'.handed[i] == c.handed[i] && Successor(c', i) == Successor(c, i);
      }
    }
  }

  lemma NothingHandedOver(c: Control, c': Control, gaps: set<nat>)
    requires Linked(c, gaps) && Distinct(c)
    requires c.supply <= c'.supply && c'.cid == c.cid && c'.handed == c.handed
    ensures Linked(c', gaps) && Distinct(c')
  {
    forall i | 0 <= i < |c'.handed|
      ensures c'.handed[i].nextCid == Successor(c', i) <==> i !in gaps
    {
      assert Successor(c', i) == Successor(c, i);
    }
  }

  // The current file is forgotten, so the last completed log names a file that will never come.
  lemma Forgotten(c: Control, c': Control, gaps: set<nat>)
    requires Linked(c, gaps) && Distinct(c)
    requires c.supply <= c'.cid < c'.supply && c'.handed == c.handed
    ensures Distinct(c') && Linked(c', if c.handed != [] then gaps + {|c.handed| - 1} else gaps)
  {
    forall i | 0 <= i < |c'.handed| - 1
      ensures c'.handed[i].nextCid == Successor(c', i) <==> i !in gaps
    {
      assert Successor(c', i) == Successor(c, i);
    }
  }

  // The current file is handed over but names another file than the new one.
  lemma ClosedOff(c: Control, c': Control, stray: Cid, gaps: set<nat>)
    requires Linked(c, gaps) && Distinct(c)
    requires c.supply <= stray < c'.supply && c.supply <= c'.cid < c'.supply && stray != c'.cid
    requires c'.handed == c.handed + [CompletedLog(c.cid, stray)]
    ensures Distinct(c') && Linked(c', gaps + {|c.handed|})
  {
    forall i | 0 <= i < |c.handed|
      ensures c'.handed[i].nextCid == Successor(c', i) <==> i !in gaps
    {
      assert c'.handed[i] == c.handed[i] && Successor(c', i) == Successor(c, i);
    }
  }

  lemma StepKeepsChain(c: Control, maxSize: nat, action: Action, gaps: set<nat>)
    requires Linked(c, gaps) && Distinct(c)
    ensures var c' := Step(c, maxSize, action);
      var last := if action.CloseAndRestart? then |c.handed| else |c.handed| - 1;
      Distinct(c') && Linked(c', if BreaksChain(c, action) then gaps + {last} else gaps)
  {
    hide GetRecovery, Completed, Linked, ShouldRecover;
    var c' := Step(c, maxSize, action);
    match action {
      case Write(_, _) =>
        NothingHandedOver(c, c', gaps);
      case RotateCheck(aged, opens) =>
        if opens && (c.bytesWritten >= maxSize || aged) {
          HandOver(c, c', gaps);
        } else {
          NothingHandedOver(c, c', gaps);
        }
      case Flush(opens) =>
        if opens && c.bytesWritten > 0 {
          HandOver(c, c', gaps);
        } else {
          NothingHandedOver(c, c', gaps);
        }
      case Crash(size) =>
        RecoverOne(c.cid, size, c.supply);
        if ShouldRecover(FileOf(c.cid, size)) {
          HandOver(c, c', gaps);
        } else {
          NothingHandedOver(c, c', gaps);
        }
      case CrashInRotation(size, oldFirst) =>
        RecoverTwo(c.cid, size, c.supply, oldFirst, c.supply + 1);
        if ShouldRecover(FileOf(c.cid, size)) {
          HandOver(c, c', gaps);
        } else if oldFirst {
          Forgotten(c, c', gaps);
        } else {
          NothingHandedOver(c, c', gaps);
        }
      case CloseAndRestart(size) =>
        if c.bytesWritten > 0 {
          RecoverNone(c.supply + 1);
          ClosedOff(c, c', c.supply, gaps);
        } else {
          RecoverOne(c.cid, size, c.supply);
          if ShouldRecover(FileOf(c.cid, size)) {
            HandOver(c, c', gaps);
          } else {
            NothingHandedOver(c, c', gaps);
          }
        }
    }
  }

  lemma RecoverNone(unused: Cid)
    ensures GetRecovery([], unused).nextCid == unused && Completed(GetRecovery([], unused).toRecover) == []
  {
  }

  /** Over every run of writes, rotations, crashes and restarts the completed logs form one linked
      list: each names the next, the last names the file being written, and no UUID is handed over
      twice. The list is broken at exactly the positions where a step broke it. */
  lemma {:induction false} ChainOverRuns(c: Control, maxSize: nat, actions: seq<Action>)
    requires Distinct(c) && Linked(c, {})
    ensures Distinct(Run(c, maxSize, actions))
    ensures Linked(Run(c, maxSize, actions), Gaps(c, maxSize, actions))
    decreases |actions|
  {
    hide Step, Distinct, Linked, BreaksChain;
    if actions != [] {
      var prefix := actions[..|actions| - 1];
      ChainOverRuns(c, maxSize, prefix);
      StepKeepsChain(Run(c, maxSize, prefix), maxSize, actions[|actions| - 1], Gaps(c, maxSize, prefix));
    }
  }

  // ---- what is in the current file ----

  /** The writes to the current file since it was opened. A file is no longer current once another log has
      been handed over, and after a restart. */
  function FileWrites(c: Control, maxSize: nat, actions: seq<Action>): (w: seq<Action>)
    ensures forall a :: a in w ==> a.Write?
  {
    if actions == [] then []
    else
      var n := |actions| - 1;
      var earlier := FileWrites(c, maxSize, actions[..n]);
      match actions[n]
      case Write(_, _) => earlier + [actions[n]]
      case RotateCheck(_, _) => if HandsOver(c, maxSize, actions) then [] else earlier
      case Flush(_) => if HandsOver(c, maxSize, actions) then [] else earlier
      case _ => []
  }

  predicate HandsOver(c: Control, maxSize: nat, actions: seq<Action>)
    requires actions != []
  {
    |Run(c, maxSize, actions).handed| > |Run(c, maxSize, actions[..|actions| - 1]).handed|
  }

  function BytesOf(writes: seq<Action>): nat
    requires forall a :: a in writes ==> a.Write?
  {
    if writes == [] then 0
    else
      assert writes[|writes| - 1] in writes;
      BytesOf(writes[..|writes| - 1]) + writes[|writes| - 1].bytes
  }

  /** Over every run that starts with an empty file: the byte count is that of the lines in the current
      file. */
  lemma {:induction false} BytesCounted(c: Control, maxSize: nat, actions: seq<Action>)
    requires c.bytesWritten == 0
    ensures Run(c, maxSize, actions).bytesWritten == BytesOf(FileWrites(c, maxSize, actions))
    decreases |actions|
  {
    hide GetRecovery, Completed, ShouldRecover;
    if actions != [] {
      var n := |actions| - 1;
      var earlier := FileWrites(c, maxSize, actions[..n]);
      BytesCounted(c, maxSize, actions[..n]);
      if actions[n].Write? {
        assert (earlier + [actions[n]])[..|earlier|] == earlier;
      }
    }
  }

  /** So the file is handed over by a check exactly when its lines reach the rotation size or it is too
      old, by a flush or a clean close exactly when something was written to it, and only if, for a check
      or a flush, the next file can be opened. It is the current file that is handed over. */
  lemma {:induction false} HandedOverWhenDue(c: Control, maxSize: nat, actions: seq<Action>, aged: bool, opens: bool)
    requires c.bytesWritten == 0
    ensures var before, bytes := Run(c, maxSize, actions), BytesOf(FileWrites(c, maxSize, actions));
      var checked, flushed := Step(before, maxSize, RotateCheck(aged, opens)), Step(before, maxSize, Flush(opens));
      && Adds(before, checked, opens && (bytes >= maxSize || aged))
      && Adds(before, flushed, opens && bytes > 0)
      && Adds(before, Close(before), bytes > 0)
  {
    hide Run, FileWrites, BytesOf;
    BytesCounted(c, maxSize, actions);
  }

  /** The current file, and nothing else, has been handed over in addition, or nothing at all has. */
  predicate Adds(before: Control, after: Control, one: bool) {
    if one then
      |after.handed| == |before.handed| + 1 && before.handed <= after.handed
      && after.handed[|before.handed|].cid == before.cid
    else after.handed == before.handed
  }

  // ---- the first start ----

  ghost predicate DistinctFiles(files: seq<FileInfo>, supply: Cid) {
    && (forall i :: 0 <= i < |files| && files[i].uuid.Some? ==> files[i].uuid.value < supply)
    && (forall i, j :: 0 <= i < j < |files| && files[i].uuid.Some? && files[j].uuid.Some? ==>
          files[i].uuid != files[j].uuid)
  }

  lemma {:induction false} WorthwhileDistinct(files: seq<FileInfo>, supply: Cid)
    requires DistinctFiles(files, supply)
    ensures DistinctFiles(Worthwhile(files), supply)
    ensures forall f :: f in Worthwhile(files) ==> f in files
    decreases |files|
  {
    if files != [] {
      WorthwhileDistinct(files[1..], supply);
      var rest := Worthwhile(files[1..]);
      forall j | 0 <= j < |rest| && files[0].uuid.Some?
        ensures rest[j].uuid != files[0].uuid
      {
        assert rest[j] in files[1..];
      }
    }
  }

  lemma {:induction false} LastCidUnused(files: seq<FileInfo>, supply: Cid)
    requires DistinctFiles(files, supply)
    ensures LastCid(files, supply) <= supply
    ensures forall f :: f in Worthwhile(files) ==> f.uuid.value != LastCid(files, supply)
    decreases |files|
  {
    hide Worthwhile, ShouldRecover, DistinctFiles;
    if files == [] {
      NoneWorthwhile();
    } else {
      var n := |files| - 1;
      var last := files[n];
      assert files[..n] + [last] == files;
      FewerDistinct(files, supply, n);
      LastCidUnused(files[..n], supply);
      WorthwhileSnoc(files[..n], last);
      WorthwhileDistinct(files, supply);
      WorthwhileDistinct(files[..n], supply);
      if last.uuid.Some? {
        UuidsApart(files, supply, n);
      }
    }
  }

  lemma NoneWorthwhile()
    ensures Worthwhile([]) == []
  {
  }

  lemma FewerDistinct(files: seq<FileInfo>, supply: Cid, n: nat)
    requires DistinctFiles(files, supply) && n <= |files|
    ensures DistinctFiles(files[..n], supply)
  {
  }

  lemma UuidsApart(files: seq<FileInfo>, supply: Cid, n: nat)
    requires DistinctFiles(files, supply) && n < |files| && files[n].uuid.Some?
    ensures files[n].uuid.value < supply
    ensures forall f :: f in files && f.uuid.Some? ==> f.uuid.value < supply
    ensures forall f :: f in files[..n] && f.uuid.Some? ==> f.uuid != files[n].uuid
  {
  }

  /** Whatever files with distinct UUIDs a directory holds, the first start turns those worth
      recovering into a chain that ends at the file it opens. */
  lemma FirstStart(files: seq<FileInfo>, supply: Cid, cid: Cid)
    requires DistinctFiles(files, supply)
    ensures var c := Restart(Control(cid, 0, [], supply, []), files);
      Distinct(c) && Linked(c, {})
  {
    hide Worthwhile, DistinctFiles, Linked, Distinct, Restart;
    WorthwhileDistinct(files, supply);
    LastCidUnused(files, supply);
    WorthwhileUuids(files, supply);
    RestartHands(Control(cid, 0, [], supply, []), files);
    ChainOf(Restart(Control(cid, 0, [], supply, []), files), Uuids(Worthwhile(files)));
  }

  function Uuids(files: seq<FileInfo>): (r: seq<Cid>)
    requires forall i :: 0 <= i < |files| ==> files[i].uuid.Some?
    ensures |r| == |files|
  {
    seq(|files|, k requires 0 <= k < |files| => files[k].uuid.value)
  }

  lemma {:induction false} RestartHands(c: Control, files: seq<FileInfo>)
    requires c.handed == []
    ensures var c', cids := Restart(c, files), Uuids(Worthwhile(files));
      && c'.cid == LastCid(files, c.supply) && c'.supply == c.supply + 1 && |c'.handed| == |cids|
      && forall i :: 0 <= i < |cids| ==> c'.handed[i] == LogOf(cids, c'.cid, i)
  {
    hide LastCid, Worthwhile, ShouldRecover;
  }

  function LogOf(cids: seq<Cid>, last: Cid, i: nat): CompletedLog
    requires i < |cids|
  {
    CompletedLog(cids[i], if i + 1 < |cids| then cids[i + 1] else last)
  }

  lemma ChainOf(c: Control, cids: seq<Cid>)
    requires |c.handed| == |cids| && c.cid < c.supply
    requires forall i :: 0 <= i < |cids| ==> c.handed[i] == LogOf(cids, c.cid, i)
    requires forall i :: 0 <= i < |cids| ==> cids[i] < c.supply && cids[i] != c.cid
    requires forall i, j :: 0 <= i < j < |cids| ==> cids[i] != cids[j]
    ensures Distinct(c) && Linked(c, {})
  {
    forall i | 0 <= i < |cids|
      ensures c.handed[i].nextCid == Successor(c, i) < c.supply
    {
      if i + 1 < |cids| {
        assert c.handed[i + 1].cid == cids[i + 1];
      }
    }
  }

  lemma {:induction false} WorthwhileUuids(files: seq<FileInfo>, supply: Cid)
    requires DistinctFiles(Worthwhile(files), supply)
    requires forall f :: f in Worthwhile(files) ==> f.uuid.value != LastCid(files, supply)
    ensures var cids := Uuids(Worthwhile(files));
      && (forall i :: 0 <= i < |cids| ==> cids[i] < supply && cids[i] != LastCid(files, supply))
      && (forall i, j :: 0 <= i < j < |cids| ==> cids[i] != cids[j])
  {
    hide Worthwhile, LastCid;
    var w := Worthwhile(files);
    assert forall i :: 0 <= i < |w| ==> w[i] in w;
  }
}
