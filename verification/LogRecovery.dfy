/** What happens to the files a previous run left behind. */
module LogRecovery {
  import opened Bytes
  import opened LogFiles

  /** A file in the working directory, oldest modification first in a listing: the UUID its name
      carries and its size, where they can be had. */
  datatype FileInfo = FileInfo(path: string, uuid: Option<Cid>, size: Option<nat>)
  datatype LogFileToRecover = LogFileToRecover(path: string, cid: Cid, nextCid: Cid)
  datatype Recovery = Recovery(toDelete: seq<string>, toRecover: seq<LogFileToRecover>, nextCid: Cid)

  predicate ShouldRecover(info: FileInfo) {
    info.uuid.Some? && info.size.Some? && info.size.value > 0
  }

  /** The UUID to go on with. If the last file with a UUID is not worth recovering, an earlier log may
      refer to it already, so it is used again; otherwise a fresh one is. */
  function LastCid(infos: seq<FileInfo>, unused: Cid): Cid {
    if infos == [] then unused
    else
      var last := infos[|infos| - 1];
      if last.uuid.None? then LastCid(infos[..|infos| - 1], unused)
      else if ShouldRecover(last) then unused
      else last.uuid.value
  }

  function Worthwhile(infos: seq<FileInfo>): (r: seq<FileInfo>)
    ensures forall i :: 0 <= i < |r| ==> ShouldRecover(r[i]) && r[i].uuid.Some?
  {
    if infos == [] then []
    else (if ShouldRecover(infos[0]) then [infos[0]] else []) + Worthwhile(infos[1..])
  }

  function Bogus(infos: seq<FileInfo>): seq<string> {
    if infos == [] then []
    else (if ShouldRecover(infos[0]) then [] else [infos[0].path]) + Bogus(infos[1..])
  }

  function GetRecovery(infos: seq<FileInfo>, unused: Cid): Recovery {
    var nextCid := LastCid(infos, unused);
    var files := Worthwhile(infos);
    Recovery(Bogus(infos),
             seq(|files|, k requires 0 <= k < |files| =>
               LogFileToRecover(files[k].path, files[k].uuid.value,
                                if k + 1 < |files| then files[k + 1].uuid.value else nextCid)),
             nextCid)
  }

  function Completed(files: seq<LogFileToRecover>): seq<CompletedLog> {
    seq(|files|, k requires 0 <= k < |files| => CompletedLog(files[k].cid, files[k].nextCid))
  }

  /** Deletes what is not worth recovering (a failure is only logged) and hands the rest to the
      callback, in order. */
  method RecoverOldLogs(infos: seq<FileInfo>, unused: Cid)
    returns (nextCid: Cid, handed: seq<CompletedLog>, deletions: seq<string>)
    ensures var r := GetRecovery(infos, unused);
      nextCid == r.nextCid && handed == Completed(r.toRecover) && deletions == r.toDelete
  {
    hide GetRecovery;
    var recovery := GetRecovery(infos, unused);
    deletions, handed := [], [];
    for i := 0 to |recovery.toDelete|
      invariant deletions == recovery.toDelete[..i]
    {
      deletions := deletions + [recovery.toDelete[i]];
    }
    for i := 0 to |recovery.toRecover|
      invariant handed == Completed(recovery.toRecover)[..i]
    {
      var file := recovery.toRecover[i];
      handed := handed + [CompletedLog(file.cid, file.nextCid)];
    }
    nextCid := recovery.nextCid;
  }

  // ---- what becomes of each file ----

  lemma {:induction false} WorthwhileSnoc(files: seq<FileInfo>, last: FileInfo)
    ensures Worthwhile(files + [last]) == if ShouldRecover(last) then Worthwhile(files) + [last] else Worthwhile(files)
    decreases |files|
  {
    hide ShouldRecover;
    if files == [] {
      assert [] + [last] == [last] && [last][1..] == [];
    } else {
      assert (files + [last])[1..] == files[1..] + [last];
      WorthwhileSnoc(files[1..], last);
    }
  }

  lemma {:induction false} BogusSnoc(files: seq<FileInfo>, last: FileInfo)
    ensures Bogus(files + [last]) == if ShouldRecover(last) then Bogus(files) else Bogus(files) + [last.path]
    decreases |files|
  {
    hide ShouldRecover;
    if files == [] {
      assert [] + [last] == [last] && [last][1..] == [];
    } else {
      assert (files + [last])[1..] == files[1..] + [last];
      BogusSnoc(files[1..], last);
    }
  }

  /** A file with a UUID and at least one byte is recovered, under its own path and UUID, and every other
      one is deleted, each in the order of the listing. */
  lemma EachFileOnce(files: seq<FileInfo>, last: FileInfo, unused: Cid)
    ensures var before, after := GetRecovery(files, unused), GetRecovery(files + [last], unused);
      var n := |before.toRecover|;
      if last.uuid.Some? && last.size.Some? && last.size.value >= 1 then
        && after.toDelete == before.toDelete
        && |after.toRecover| == n + 1
        && after.toRecover[n].path == last.path && after.toRecover[n].cid == last.uuid.value
        && (forall i :: 0 <= i < n ==> after.toRecover[i].path == before.toRecover[i].path
                                       && after.toRecover[i].cid == before.toRecover[i].cid)
      else
        && after.toDelete == before.toDelete + [last.path]
        && |after.toRecover| == n
        && (forall i :: 0 <= i < n ==> after.toRecover[i].path == before.toRecover[i].path
                                       && after.toRecover[i].cid == before.toRecover[i].cid)
  {
    hide Worthwhile, Bogus, LastCid;
    WorthwhileSnoc(files, last);
    BogusSnoc(files, last);
  }

  lemma NoFiles(unused: Cid)
    ensures GetRecovery([], unused) == Recovery([], [], unused)
  {
  }

  /** The log goes on under the UUID of the last file that has one, if that file is not worth recovering,
      and otherwise under a fresh one. */
  lemma GoesOnAs(files: seq<FileInfo>, last: FileInfo, unused: Cid)
    ensures GetRecovery(files + [last], unused).nextCid
            == match last.uuid
               case None => GetRecovery(files, unused).nextCid
               case Some(uuid) => if last.size.Some? && last.size.value >= 1 then unused else uuid
  {
    hide Worthwhile, Bogus;
    assert (files + [last])[..|files|] == files;
  }
}
