/** Splitting the staged MAR entries into archives under a size cap, in order and greedily. */
module MarBatching {
  import opened Bytes
  import opened ZipFormat

  /** What iterating over the staging directory yields: a complete entry, or a folder that is not
      (yet) one or whose files cannot be read. */
  datatype StagedEntry = Readable(entry: MarEntry) | Unreadable
  datatype MarEntry = MarEntry(path: Path, infos: seq<EntryInfo>)
  datatype ZipContents = ZipContents(entryPaths: seq<Path>, zipInfos: seq<EntryInfo>)

  function Included(staged: seq<StagedEntry>): seq<MarEntry> {
    if staged == [] then []
    else (if staged[0].Readable? then [staged[0].entry] else []) + Included(staged[1..])
  }

  function EntrySize(e: MarEntry): nat {
    SumStreamLen(e.infos)
  }

  function TotalSize(group: seq<MarEntry>): nat {
    if group == [] then 0 else EntrySize(group[0]) + TotalSize(group[1..])
  }

  /** The announced length of the archive that holds the group. */
  function GroupSize(group: seq<MarEntry>): nat {
    END_OF_CENTRAL_DIRECTORY_SIZE + TotalSize(group)
  }

  function Paths(group: seq<MarEntry>): seq<Path> {
    seq(|group|, k requires 0 <= k < |group| => group[k].path)
  }

  function Infos(group: seq<MarEntry>): seq<EntryInfo> {
    if group == [] then [] else group[0].infos + Infos(group[1..])
  }

  function Contents(group: seq<MarEntry>): ZipContents {
    ZipContents(Paths(group), Infos(group))
  }

  function AllContents(groups: seq<seq<MarEntry>>): seq<ZipContents> {
    seq(|groups|, k requires 0 <= k < |groups| => Contents(groups[k]))
  }

  function Flatten(groups: seq<seq<MarEntry>>): seq<MarEntry> {
    if groups == [] then [] else groups[0] + Flatten(groups[1..])
  }

  /** How many entries of `s` can still join a group of size `size`. */
  function Take(s: seq<MarEntry>, size: nat, cap: nat): (n: nat)
    ensures n <= |s|
  {
    if s == [] || size + EntrySize(s[0]) > cap then 0
    else 1 + Take(s[1..], size + EntrySize(s[0]), cap)
  }

  /** The length of the first group: one entry, and then as many more as fit. */
  function FirstLen(s: seq<MarEntry>, cap: nat): (n: nat)
    requires s != []
    ensures 1 <= n <= |s|
  {
    1 + Take(s[1..], END_OF_CENTRAL_DIRECTORY_SIZE + EntrySize(s[0]), cap)
  }

  function Greedy(s: seq<MarEntry>, cap: nat): seq<seq<MarEntry>>
    decreases |s|
  {
    if s == [] then []
    else
      var n := FirstLen(s, cap);
      [s[..n]] + Greedy(s[n..], cap)
  }

  // Midway: the closed groups are final, and the open one has grown exactly as far as it should.
  ghost predicate Midway(all: seq<MarEntry>, closed: seq<seq<MarEntry>>, open: seq<MarEntry>,
                         rest: seq<MarEntry>, cap: nat)
  {
    && Greedy(all, cap) == closed + Greedy(open + rest, cap)
    && (open == [] ==> closed == [])
    && (open != [] ==> FirstLen(open + rest, cap) == |open| + Take(rest, GroupSize(open), cap))
  }

  lemma EntryJoins(all: seq<MarEntry>, closed: seq<seq<MarEntry>>, open: seq<MarEntry>,
                   entry: MarEntry, rest: seq<MarEntry>, cap: nat)
    requires Midway(all, closed, open, [entry] + rest, cap)
    requires open == [] || GroupSize(open) + EntrySize(entry) <= cap
    ensures Midway(all, closed, open + [entry], rest, cap)
    ensures GroupSize(open + [entry]) == GroupSize(open) + EntrySize(entry)
  {
    hide Greedy;
    assert open + ([entry] + rest) == (open + [entry]) + rest;
    TotalSizeSnoc(open, entry);
    assert ([entry] + rest)[1..] == rest;
    if open == [] {
      assert open + [entry] == [entry];
    }
  }

  lemma GroupCloses(all: seq<MarEntry>, closed: seq<seq<MarEntry>>, open: seq<MarEntry>,
                    entry: MarEntry, rest: seq<MarEntry>, cap: nat)
    requires Midway(all, closed, open, [entry] + rest, cap)
    requires open != [] && GroupSize(open) + EntrySize(entry) > cap
    ensures Midway(all, closed + [open], [entry], rest, cap)
  {
    hide EntrySize, TotalSize, Greedy, GroupSize;
    var s := open + ([entry] + rest);
    assert s[..|open|] == open && s[|open|..] == [entry] + rest && ([entry] + rest)[1..] == rest;
    GreedyStep(s, cap);
    Reassociate(closed, open, Greedy([entry] + rest, cap));
    SingleSize(entry);
  }

  lemma {:induction false} GreedyStep(s: seq<MarEntry>, cap: nat)
    requires s != []
    ensures Greedy(s, cap) == [s[..FirstLen(s, cap)]] + Greedy(s[FirstLen(s, cap)..], cap)
  {
    hide FirstLen;
  }

  lemma Reassociate(closed: seq<seq<MarEntry>>, open: seq<MarEntry>, rest: seq<seq<MarEntry>>)
    ensures closed + ([open] + rest) == (closed + [open]) + rest
  {
  }

  lemma {:induction false} NothingLeft(all: seq<MarEntry>, closed: seq<seq<MarEntry>>, open: seq<MarEntry>, cap: nat)
    requires Midway(all, closed, open, [], cap)
    ensures Greedy(all, cap) == if open == [] then [] else closed + [open]
  {
    assert open + [] == open;
    if open != [] {
      assert open[|open|..] == [] && open[..|open|] == open;
      assert Greedy(open, cap) == [open];
    }
  }

  /** One pass over the staged entries. The running size and the file index are the grouping key's
      state; consecutive entries with the same key share a group. */
  method GatherMarEntriesToZip(staged: seq<StagedEntry>, maxZipSize: nat) returns (zips: seq<ZipContents>)
    ensures zips == AllContents(Greedy(Included(staged), maxZipSize))
    ensures Batched(Included(staged), zips)
  {
    hide Greedy, FirstLen, Take, GroupSize, EntrySize, Midway, Contents, AllContents, Included, Batched;
    var zipSize := END_OF_CENTRAL_DIRECTORY_SIZE;
    var zipFileIndex := 0;
    var lastKey: Option<nat> := None;
    var groups: seq<seq<MarEntry>> := [];
    ghost var all := Included(staged);
    ghost var closed: seq<seq<MarEntry>> := [];
    ghost var open: seq<MarEntry> := [];
    Starting(all, maxZipSize);
    assert staged[0..] == staged;
    for i := 0 to |staged|
      invariant if open == [] then lastKey == None else lastKey == Some(zipFileIndex)
      invariant groups == if open == [] then [] else closed + [open]
      invariant open == [] ==> closed == []
      invariant zipSize == GroupSize(open)
      invariant Midway(all, closed, open, Included(staged[i..]), maxZipSize)
    {
      ghost var rest := Included(staged[i + 1..]);
      IncludedStep(staged, i);
      if staged[i].Readable? {
        var entry := staged[i].entry;
        var entryZippedSize := EntrySize(entry);
        if zipSize + entryZippedSize > maxZipSize {
          if open == [] {
            EntryJoins(all, closed, open, entry, rest, maxZipSize);
          } else {
            GroupCloses(all, closed, open, entry, rest, maxZipSize);
            closed := closed + [open];
          }
          SingleSize(entry);
          open := [entry];
          zipSize := END_OF_CENTRAL_DIRECTORY_SIZE + entryZippedSize;
          zipFileIndex := zipFileIndex + 1;
        } else {
          EntryJoins(all, closed, open, entry, rest, maxZipSize);
          SingleSize(entry);
          open := open + [entry];
          zipSize := zipSize + entryZippedSize;
        }
        if lastKey == Some(zipFileIndex) {
          GroupExtended(closed, open[..|open| - 1], entry);
          groups := groups[|groups| - 1 := groups[|groups| - 1] + [entry]];
        } else {
          assert open == [entry];
          groups := groups + [[entry]];
        }
        lastKey := Some(zipFileIndex);
      }
    }
    IncludedEnd(staged);
    NothingLeft(all, closed, open, maxZipSize);
    zips := AllContents(groups);
    BatchesListEverything(staged, maxZipSize);
  }

  lemma IncludedStep(staged: seq<StagedEntry>, i: nat)
    requires i < |staged|
    ensures var rest := Included(staged[i + 1..]);
      Included(staged[i..]) == if staged[i].Readable? then [staged[i].entry] + rest else rest
  {
    assert staged[i..][1..] == staged[i + 1..];
  }

  lemma IncludedEnd(staged: seq<StagedEntry>)
    ensures Included(staged[|staged|..]) == [] && Included([]) == []
  {
  }

  lemma GroupExtended(closed: seq<seq<MarEntry>>, open: seq<MarEntry>, entry: MarEntry)
    ensures var groups := closed + [open];
      && |groups| > 0 && groups[|groups| - 1] == open
      && groups[|groups| - 1 := open + [entry]] == closed + [open + [entry]]
  {
  }

  lemma Starting(all: seq<MarEntry>, cap: nat)
    ensures Midway(all, [], [], all, cap)
    ensures GroupSize([]) == END_OF_CENTRAL_DIRECTORY_SIZE
  {
    assert [] + all == all;
  }

  lemma SingleSize(entry: MarEntry)
    ensures GroupSize([entry]) == END_OF_CENTRAL_DIRECTORY_SIZE + EntrySize(entry)
    ensures [] + [entry] == [entry]
  {
    TotalSizeSnoc([], entry);
  }

  lemma {:induction false} TotalSizeSnoc(group: seq<MarEntry>, entry: MarEntry)
    ensures TotalSize(group + [entry]) == TotalSize(group) + EntrySize(entry)
  {
    if group == [] {
      assert [] + [entry] == [entry] && [entry][1..] == [];
    } else {
      assert (group + [entry])[1..] == group[1..] + [entry];
      TotalSizeSnoc(group[1..], entry);
    }
  }

  // ---- what greedy grouping guarantees ----

  predicate Fits(group: seq<MarEntry>, cap: nat) {
    GroupSize(group) <= cap
  }

  lemma PrefixTotal(s: seq<MarEntry>, m: nat)
    requires 0 < m <= |s|
    ensures TotalSize(s[..m]) == EntrySize(s[0]) + TotalSize(s[1..][..m - 1])
  {
    hide EntrySize;
    assert s[..m][1..] == s[1..][..m - 1];
  }

  /** `Take` stops at the first entry that does not fit, and no longer prefix fits either. */
  lemma {:induction false} TakeBounds(s: seq<MarEntry>, size: nat, cap: nat, m: nat)
    requires m <= |s|
    ensures var n := Take(s, size, cap);
      && (n > 0 ==> size + TotalSize(s[..n]) <= cap)
      && (n < |s| ==> size + TotalSize(s[..n + 1]) > cap)
      && (m > 0 && size + TotalSize(s[..m]) <= cap ==> m <= n)
    decreases |s|
  {
    hide EntrySize, TotalSize;
    var n := Take(s, size, cap);
    if m > 0 {
      PrefixTotal(s, m);
    }
    if n < |s| {
      PrefixTotal(s, n + 1);
    }
    if n > 0 {
      PrefixTotal(s, n);
      TakeBounds(s[1..], size + EntrySize(s[0]), cap, if m > 0 then m - 1 else 0);
    }
    NothingTotals(s);
  }

  lemma NothingTotals(s: seq<MarEntry>)
    ensures TotalSize(s[..0]) == 0
  {
  }

  lemma FirstLenBounds(s: seq<MarEntry>, cap: nat, m: nat)
    requires s != [] && m <= |s|
    ensures var n := FirstLen(s, cap);
      && (n > 1 ==> Fits(s[..n], cap))
      && (n < |s| ==> !Fits(s[..n + 1], cap))
      && (Fits(s[..m], cap) ==> m <= n)
  {
    hide EntrySize, TotalSize, Take;
    var n := FirstLen(s, cap);
    PrefixTotal(s, n);
    if n < |s| {
      PrefixTotal(s, n + 1);
    }
    if m > 0 {
      PrefixTotal(s, m);
    }
    TakeBounds(s[1..], END_OF_CENTRAL_DIRECTORY_SIZE + EntrySize(s[0]), cap, if m > 0 then m - 1 else 0);
  }

  /** No group had room for the entry that starts the next one. */
  ghost predicate Tight(groups: seq<seq<MarEntry>>, cap: nat) {
    |groups| <= 1
    || (groups[1] != [] && !Fits(groups[0] + [groups[1][0]], cap) && Tight(groups[1..], cap))
  }

  /** Grouping is a partition in order; no group is empty; a group is over the cap only when it is a
      single entry; and no group is closed early. */
  lemma {:induction false} GreedyPartition(s: seq<MarEntry>, cap: nat)
    ensures var groups := Greedy(s, cap);
      && Flatten(groups) == s
      && (forall i :: 0 <= i < |groups| ==> groups[i] != [] && (Fits(groups[i], cap) || |groups[i]| == 1))
      && Tight(groups, cap)
    decreases |s|
  {
    hide Fits, FirstLen;
    if s != [] {
      var n := FirstLen(s, cap);
      FirstLenBounds(s, cap, 0);
      GreedyPartition(s[n..], cap);
      var groups := Greedy(s, cap);
      assert groups[0] == s[..n] && groups[1..] == Greedy(s[n..], cap);
      assert s[..n] + s[n..] == s;
      if n < |s| {
        NextStarts(s, n, cap);
      }
    }
  }

  lemma {:induction false} NextStarts(s: seq<MarEntry>, n: nat, cap: nat)
    requires n < |s|
    ensures Greedy(s[n..], cap) != [] && Greedy(s[n..], cap)[0] != [] && Greedy(s[n..], cap)[0][0] == s[n]
    ensures s[..n] + [s[n]] == s[..n + 1]
  {
    hide FirstLen;
  }

  /** Dropping entries from the front never costs an archive. */
  lemma {:induction false} GreedyDrop(s: seq<MarEntry>, cap: nat, j: nat)
    requires j <= |s|
    ensures |Greedy(s[j..], cap)| <= |Greedy(s, cap)|
    decreases |s|, j
  {
    if j == 0 {
      assert s[0..] == s;
    } else {
      GreedyDrop(s, cap, j - 1);
      var t := s[j - 1..];
      assert s[j..] == t[1..];
      if j > 1 {
        GreedyDrop(t, cap, 1);
      } else {
        assert t == s;
        GreedyDropOne(s, cap);
      }
    }
  }

  lemma {:induction false} GreedyDropOne(s: seq<MarEntry>, cap: nat)
    requires s != []
    ensures |Greedy(s[1..], cap)| <= |Greedy(s, cap)|
    decreases |s|, 0
  {
    hide FirstLen;
    var m := FirstLen(s, cap);
    var t := s[1..];
    if m > 1 {
      FirstLenOfTail(s, cap);
      var k := FirstLen(t, cap);
      assert t[k..] == s[m..][1 + k - m..];
      GreedyDrop(s[m..], cap, 1 + k - m);
    }
  }

  lemma FirstLenOfTail(s: seq<MarEntry>, cap: nat)
    requires s != [] && FirstLen(s, cap) > 1
    ensures |s| > 1 && FirstLen(s[1..], cap) >= FirstLen(s, cap) - 1
  {
    hide FirstLen;
    var m := FirstLen(s, cap);
    FirstLenBounds(s, cap, m);
    PrefixTotal(s, m);
    FirstLenBounds(s[1..], cap, m - 1);
  }

  /** Greedy is optimal: any other way to cut the same entries, in order, into archives that fit the
      cap or hold at most one entry needs at least as many archives. */
  lemma {:induction false} GreedyOptimal(s: seq<MarEntry>, cap: nat, split: seq<seq<MarEntry>>)
    requires Flatten(split) == s
    requires forall i :: 0 <= i < |split| ==> Fits(split[i], cap) || |split[i]| <= 1
    ensures |Greedy(s, cap)| <= |split|
    decreases |split|
  {
    if s != [] {
      var p, rest := split[0], Flatten(split[1..]);
      assert s == p + rest && s[|p|..] == rest && s[..|p|] == p;
      GreedyOptimal(rest, cap, split[1..]);
      var n := FirstLen(s, cap);
      FirstLenBounds(s, cap, |p|);
      if p != [] {
        assert rest[n - |p|..] == s[n..];
        GreedyDrop(rest, cap, n - |p|);
      }
    }
  }

  lemma {:induction false} InfosSize(group: seq<MarEntry>)
    ensures SumStreamLen(Infos(group)) == TotalSize(group)
  {
    if group != [] {
      InfosSize(group[1..]);
      SumStreamLenAppend(group[0].infos, Infos(group[1..]));
    }
  }

  /** The bytes the encoder really produces for a group are those the cap was checked against,
      exactly when the files still add up to their recorded sizes. */
  lemma {:induction false} GroupArchiveLength(disk: Disk, group: seq<MarEntry>)
    ensures var infos := Contents(group).zipInfos;
      |Archive(disk, infos)| == GroupSize(group) <==> ContentTotal(disk, infos) == SizeTotal(infos)
  {
    InfosSize(group);
    ArchiveLength(disk, Infos(group));
  }

  /** What the encoder sends for a batch is within the cap, unless the batch is a single entry. */
  lemma {:induction false} BatchWithinCap(disk: Disk, s: seq<MarEntry>, cap: nat, i: nat)
    requires i < |Greedy(s, cap)|
    requires var infos := Contents(Greedy(s, cap)[i]).zipInfos; ContentTotal(disk, infos) == SizeTotal(infos)
    ensures var group := Greedy(s, cap)[i];
      |Archive(disk, Contents(group).zipInfos)| <= cap || |group| == 1
  {
    GreedyPartition(s, cap);
    GroupArchiveLength(disk, Greedy(s, cap)[i]);
  }

  // ---- what a batch lists ----

  /** The readable entries are taken in order, and nothing else is. */
  lemma {:induction false} IncludedExactly(staged: seq<StagedEntry>, last: StagedEntry)
    ensures Included([]) == []
    ensures Included(staged + [last]) == if last.Readable? then Included(staged) + [last.entry] else Included(staged)
  {
    hide Included;
    IncludedEnd(staged);
    IncludedSnoc(staged, last);
  }

  lemma {:induction false} IncludedSnoc(staged: seq<StagedEntry>, last: StagedEntry)
    ensures Included(staged + [last]) == if last.Readable? then Included(staged) + [last.entry] else Included(staged)
    decreases |staged|
  {
    hide Included;
    if staged == [] {
      assert [] + [last] == [last];
      IncludedStep([last], 0);
      IncludedEnd([last]);
      assert [last][0..] == [last];
    } else {
      var all := staged + [last];
      IncludedStep(all, 0);
      IncludedStep(staged, 0);
      assert all[1..] == staged[1..] + [last] && all[0..] == all && staged[0..] == staged;
      IncludedSnoc(staged[1..], last);
    }
  }

  /** The files of the entries, entry by entry. */
  ghost predicate FilesOf(entries: seq<MarEntry>, files: seq<EntryInfo>) {
    if entries == [] then files == []
    else entries[0].infos <= files && FilesOf(entries[1..], files[|entries[0].infos|..])
  }

  /** Every batch lists the paths and the files of the next entries in order, the same ones, until none
      are left. */
  ghost predicate Batched(entries: seq<MarEntry>, zips: seq<ZipContents>) {
    if zips == [] then entries == []
    else
      var n := |zips[0].entryPaths|;
      && n <= |entries| && (forall k :: 0 <= k < n ==> zips[0].entryPaths[k] == entries[k].path)
      && FilesOf(entries[..n], zips[0].zipInfos)
      && Batched(entries[n..], zips[1..])
  }

  lemma {:induction false} InfosAreFiles(group: seq<MarEntry>)
    ensures FilesOf(group, Infos(group))
  {
    if group != [] {
      InfosAreFiles(group[1..]);
      assert Infos(group)[|group[0].infos|..] == Infos(group[1..]);
    }
  }

  lemma {:induction false} GroupsBatched(groups: seq<seq<MarEntry>>)
    ensures Batched(Flatten(groups), AllContents(groups))
  {
    hide FilesOf, Infos;
    var zips := AllContents(groups);
    if groups != [] {
      GroupsBatched(groups[1..]);
      InfosAreFiles(groups[0]);
      var entries := Flatten(groups);
      assert zips[1..] == AllContents(groups[1..]);
      assert entries[..|groups[0]|] == groups[0] && entries[|groups[0]|..] == Flatten(groups[1..]);
    }
  }

  /** Nothing is left out of the batches, and nothing is listed that is not in them. */
  lemma {:induction false} BatchesListEverything(staged: seq<StagedEntry>, cap: nat)
    ensures Batched(Included(staged), AllContents(Greedy(Included(staged), cap)))
  {
    hide Batched, AllContents, Greedy, Included;
    GreedyPartition(Included(staged), cap);
    GroupsBatched(Greedy(Included(staged), cap));
  }

  lemma {:induction false} FilesAppend(a: seq<MarEntry>, x: seq<EntryInfo>, b: seq<MarEntry>, y: seq<EntryInfo>)
    requires FilesOf(a, x) && FilesOf(b, y)
    ensures FilesOf(a + b, x + y)
    decreases |a|
  {
    if a == [] {
      assert a + b == b && x + y == y;
    } else {
      var n := |a[0].infos|;
      FilesAppend(a[1..], x[n..], b, y);
      assert (a + b)[1..] == a[1..] + b && (x + y)[n..] == x[n..] + y;
    }
  }

  // ---- uploading ----

  function AllPaths(zips: seq<ZipContents>): seq<Path> {
    if zips == [] then [] else AllPaths(zips[..|zips| - 1]) + zips[|zips| - 1].entryPaths
  }

  /** Uploads one archive after the other and stops at the first failure. Whatever the network does,
      the entries deleted are the first of the readable ones, all of them on success, and the files
      accepted are exactly theirs. */
  method UploadMarEntries(staged: seq<StagedEntry>, maxZipSize: nat)
    returns (ok: bool, count: nat, deleted: seq<Path>, accepted: seq<EntryInfo>, uploads: nat)
    ensures var entries := Included(staged);
      && |deleted| <= |entries| && (forall k :: 0 <= k < |deleted| ==> deleted[k] == entries[k].path)
      && FilesOf(entries[..|deleted|], accepted)
      && (ok ==> |deleted| == |entries|)
    ensures var zips := AllContents(Greedy(Included(staged), maxZipSize));
      && uploads <= |zips| && (ok <==> uploads == |zips|) && (ok ==> count == |zips|)
      && deleted == AllPaths(zips[..uploads])
  {
    hide AllContents, Greedy, Included, FilesOf, Batched;
    var zips := GatherMarEntriesToZip(staged, maxZipSize);
    ghost var entries := Included(staged);
    BatchesListEverything(staged, maxZipSize);
    count, uploads, deleted, accepted := |zips|, 0, [], [];
    NoFiles();
    assert entries[0..] == entries && zips[0..] == zips && entries[..0] == [];
    while uploads < |zips|
      invariant uploads <= |zips| && |deleted| <= |entries|
      invariant forall k :: 0 <= k < |deleted| ==> deleted[k] == entries[k].path
      invariant FilesOf(entries[..|deleted|], accepted)
      invariant Batched(entries[|deleted|..], zips[uploads..]) && deleted == AllPaths(zips[..uploads])
    {
      var taken: bool := *;
      if !taken {
        return false, count, deleted, accepted, uploads;
      }
      NextBatch(entries, |deleted|, zips, uploads, accepted);
      assert zips[..uploads + 1][..uploads] == zips[..uploads];
      deleted := deleted + zips[uploads].entryPaths;
      accepted := accepted + zips[uploads].zipInfos;
      uploads := uploads + 1;
    }
    AllBatched(entries[|deleted|..], zips[uploads..]);
    ok := true;
  }

  lemma NoFiles()
    ensures FilesOf([], [])
  {
  }

  lemma {:induction false} AllBatched(entries: seq<MarEntry>, zips: seq<ZipContents>)
    requires Batched(entries, zips) && zips == []
    ensures entries == []
  {
  }

  lemma {:induction false} NextBatch(entries: seq<MarEntry>, done: nat, zips: seq<ZipContents>, i: nat,
                                     accepted: seq<EntryInfo>)
    requires done <= |entries| && i < |zips| && Batched(entries[done..], zips[i..])
    requires FilesOf(entries[..done], accepted)
    ensures var n := |zips[i].entryPaths|;
      && done + n <= |entries| && (forall k :: 0 <= k < n ==> zips[i].entryPaths[k] == entries[done + k].path)
      && FilesOf(entries[..done + n], accepted + zips[i].zipInfos)
      && Batched(entries[done + n..], zips[i + 1..])
  {
    hide FilesOf;
    var n, rest := |zips[i].entryPaths|, entries[done..];
    assert zips[i..][0] == zips[i] && zips[i..][1..] == zips[i + 1..];
    assert rest[n..] == entries[done + n..] && entries[..done] + rest[..n] == entries[..done + n];
    FilesAppend(entries[..done], accepted, rest[..n], zips[i].zipInfos);
  }
}
