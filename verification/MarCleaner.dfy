/** The MAR staging cleaner: which entries go, oldest first, and how much room is left afterwards. */
module MarCleaner {
  import opened DiskSizes
  import opened StableSort

  datatype StagedFolder = StagedFolder(path: string, size: DiskSize, timestamp: nat)
  datatype AgeSizePath = AgeSizePath(age: nat, size: DiskSize, path: string)
  datatype DeletionReason = Expired | DiskQuota

  // Sorting key.
  function OldestFirst(e: AgeSizePath): int {
    var age: int := e.age;
    -age
  }

  /** A folder from the future has age zero. */
  function WithAge(folder: StagedFolder, referenceDate: nat): AgeSizePath {
    AgeSizePath(if folder.timestamp <= referenceDate then referenceDate - folder.timestamp else 0,
                folder.size, folder.path)
  }

  function CollectMarEntries(folders: seq<StagedFolder>, referenceDate: nat): seq<AgeSizePath> {
    seq(|folders|, k requires 0 <= k < |folders| => WithAge(folders[k], referenceDate))
  }

  function Total(entries: seq<AgeSizePath>): DiskSize {
    if entries == [] then ZERO else entries[0].size.Add(Total(entries[1..]))
  }

  // ---- how much to free ----

  function NeedToFree(total: DiskSize, maxTotal: DiskSize, available: DiskSize, minSpace: DiskSize): DiskSize {
    match (!maxTotal.Exceeds(total), !available.Exceeds(minSpace))
    case (false, false) => ZERO
    case (true, false) => total.SaturatingSub(maxTotal)
    case (false, true) => minSpace.SaturatingSub(available)
    case (true, true) => Max(total.SaturatingSub(maxTotal), minSpace.SaturatingSub(available))
  }

  /** The four cases always come to the componentwise larger of the two shortfalls: enough to get
      under the quota and above the headroom, and nothing less is. */
  lemma NeedIsLargerShortfall(total: DiskSize, maxTotal: DiskSize, available: DiskSize, minSpace: DiskSize,
                              freed: DiskSize)
    ensures NeedToFree(total, maxTotal, available, minSpace)
            == Max(total.SaturatingSub(maxTotal), minSpace.SaturatingSub(available))
    ensures freed.AtLeast(NeedToFree(total, maxTotal, available, minSpace))
            <==> maxTotal.Add(freed).AtLeast(total) && available.Add(freed).AtLeast(minSpace)
  {
  }

  // ---- which entries to mark ----

  /** The number of leading entries taken until their size strictly exceeds the need. */
  function QuotaLen(s: seq<AgeSizePath>, freed: DiskSize, need: DiskSize): (n: nat)
    ensures n <= |s|
  {
    if s == [] || freed.Exceeds(need) then 0 else 1 + QuotaLen(s[1..], freed.Add(s[0].size), need)
  }

  function ExpiredLen(s: seq<AgeSizePath>, maxAge: nat): (n: nat)
    ensures n <= |s|
  {
    if s == [] || s[0].age <= maxAge then 0 else 1 + ExpiredLen(s[1..], maxAge)
  }

  function QuotaMarks(s: seq<AgeSizePath>, need: DiskSize): (n: nat)
    ensures n <= |s|
  {
    if need == ZERO then 0 else QuotaLen(s, ZERO, need)
  }

  function Marks(s: seq<AgeSizePath>, need: DiskSize, maxAge: nat): (n: nat)
    ensures QuotaMarks(s, need) <= n <= |s|
  {
    var q, x := QuotaMarks(s, need), if maxAge == 0 then 0 else ExpiredLen(s, maxAge);
    if q >= x then q else x
  }

  /** Sorts oldest first and marks while the need is not exceeded, then what has expired. The marked
      entries are a prefix of the sorted ones: first the quota marks, then the expiry marks. */
  method MarkEntriesForDeletion(entries: seq<AgeSizePath>, total: DiskSize, maxTotal: DiskSize,
                                available: DiskSize, minSpace: DiskSize, maxAge: nat)
    returns (marked: seq<(AgeSizePath, DeletionReason)>)
    ensures var sorted, need := SortBy(entries, OldestFirst), NeedToFree(total, maxTotal, available, minSpace);
      && |marked| == Marks(sorted, need, maxAge)
      && forall i :: 0 <= i < |marked| ==>
           marked[i] == (sorted[i], if i < QuotaMarks(sorted, need) then DiskQuota else Expired)
  {
    hide SortBy, NeedToFree, QuotaMarks, Marks, Total, DiskSize.Add, DiskSize.Exceeds, Sorted;
    var sorted := SortBy(entries, OldestFirst);
    SortedByAge(entries);
    var need := NeedToFree(total, maxTotal, available, minSpace);
    ghost var q, n := QuotaMarks(sorted, need), Marks(sorted, need, maxAge);
    var freed := ZERO;
    var deleteExpired := maxAge != 0;
    marked := [];
    TotalPrefix(sorted, 0);
    for i := 0 to |sorted|
      invariant |marked| == if i < n then i else n
      invariant freed == Total(sorted[..|marked|])
      invariant forall j :: 0 <= j < |marked| ==> marked[j] == (sorted[j], if j < q then DiskQuota else Expired)
    {
      WhetherMarked(sorted, need, maxAge, i);
      TotalPrefix(sorted, i);
      if need != ZERO && !freed.Exceeds(need) {
        freed := freed.Add(sorted[i].size);
        marked := marked + [(sorted[i], DiskQuota)];
      } else if deleteExpired && sorted[i].age > maxAge {
        freed := freed.Add(sorted[i].size);
        marked := marked + [(sorted[i], Expired)];
      }
    }
  }

  lemma {:induction false} SortedByAge(entries: seq<AgeSizePath>)
    ensures Sorted(SortBy(entries, OldestFirst), OldestFirst)
  {
    SortBySorted(entries, OldestFirst);
  }

  // What the loop finds at entry `i`, having marked all it should before.
  lemma WhetherMarked(s: seq<AgeSizePath>, need: DiskSize, maxAge: nat, i: nat)
    requires Sorted(s, OldestFirst) && i < |s|
    ensures var q, n := QuotaMarks(s, need), Marks(s, need, maxAge);
      var m := if i < n then i else n;
      && (need != ZERO && !Total(s[..m]).Exceeds(need) <==> i < q)
      && (i >= q ==> (maxAge != 0 && s[i].age > maxAge <==> i < n))
  {
    hide Sorted, DiskSize.Exceeds, Total, QuotaLen, ExpiredLen;
    var q, n := QuotaMarks(s, need), Marks(s, need, maxAge);
    QuotaShortest(s, need, if i < n then i else n);
    ExpiredPrefix(s, maxAge, i);
  }

  lemma {:induction false} TotalSnoc(s: seq<AgeSizePath>, e: AgeSizePath)
    ensures Total(s + [e]) == Total(s).Add(e.size)
  {
    if s == [] {
      assert [] + [e] == [e] && [e][1..] == [];
    } else {
      assert (s + [e])[1..] == s[1..] + [e];
      TotalSnoc(s[1..], e);
    }
  }

  lemma TotalPrefix(s: seq<AgeSizePath>, i: nat)
    requires i <= |s|
    ensures i == 0 ==> Total(s[..i]) == ZERO
    ensures i < |s| ==> Total(s[..i + 1]) == Total(s[..i]).Add(s[i].size)
  {
    if i < |s| {
      assert s[..i + 1] == s[..i] + [s[i]];
      TotalSnoc(s[..i], s[i]);
    }
  }

  /** The quota part is the shortest prefix whose size strictly exceeds the need, or everything. */
  lemma {:induction false} QuotaLenShortest(s: seq<AgeSizePath>, freed: DiskSize, need: DiskSize, m: nat)
    requires m <= |s|
    ensures var n := QuotaLen(s, freed, need);
      && (m < n ==> !freed.Add(Total(s[..m])).Exceeds(need))
      && (m >= n && n < |s| ==> freed.Add(Total(s[..m])).Exceeds(need))
    decreases |s|
  {
    if s != [] && !freed.Exceeds(need) {
      if m > 0 {
        assert s[..m][1..] == s[1..][..m - 1];
        QuotaLenShortest(s[1..], freed.Add(s[0].size), need, m - 1);
        assert freed.Add(s[0].size).Add(Total(s[1..][..m - 1])) == freed.Add(Total(s[..m]));
      }
    }
  }

  lemma QuotaShortest(s: seq<AgeSizePath>, need: DiskSize, m: nat)
    requires m <= |s|
    ensures m < QuotaMarks(s, need) ==> need != ZERO && !Total(s[..m]).Exceeds(need)
    ensures need != ZERO && QuotaMarks(s, need) <= m && QuotaMarks(s, need) < |s| ==> Total(s[..m]).Exceeds(need)
  {
    hide QuotaLen, DiskSize.Exceeds, DiskSize.Add;
    QuotaLenShortest(s, ZERO, need, m);
    AddLaws(Total(s[..m]), ZERO, ZERO);
    assert ZERO.Add(Total(s[..m])) == Total(s[..m]);
  }

  // Oldest first, the expired entries are a prefix.
  lemma {:induction false} ExpiredPrefix(s: seq<AgeSizePath>, maxAge: nat, i: nat)
    requires Sorted(s, OldestFirst) && i < |s|
    ensures s[i].age > maxAge <==> i < ExpiredLen(s, maxAge)
    decreases |s|
  {
    assert OldestFirst(s[0]) <= OldestFirst(s[i]);
    if i > 0 && s[0].age > maxAge {
      ExpiredPrefix(s[1..], maxAge, i - 1);
    }
  }

  /** The marks are fair: nothing kept is older than something marked; everything older than a non-zero
      `maxAge` is marked; and what is marked beyond the quota part is that old. */
  lemma {:induction false} MarkedOldestFirst(entries: seq<AgeSizePath>, need: DiskSize, maxAge: nat, i: nat, j: nat)
    requires i <= j < |entries|
    ensures var sorted := SortBy(entries, OldestFirst);
      && multiset(sorted) == multiset(entries) && |sorted| == |entries|
      && sorted[i].age >= sorted[j].age
      && (maxAge > 0 && sorted[j].age > maxAge ==> j < Marks(sorted, need, maxAge))
      && (QuotaMarks(sorted, need) <= j < Marks(sorted, need, maxAge) ==> maxAge > 0 && sorted[j].age > maxAge)
  {
    hide SortBy, QuotaMarks, Marks;
    var sorted := SortBy(entries, OldestFirst);
    SortBySorts(entries, OldestFirst, 0);
    assert |multiset(sorted)| == |sorted| && |multiset(entries)| == |entries|;
    WhetherMarked(sorted, need, maxAge, j);
    if i < j {
      assert OldestFirst(sorted[i]) <= OldestFirst(sorted[j]);
    }
    QuotaWithinMarks(sorted, need, maxAge);
  }

  lemma QuotaWithinMarks(s: seq<AgeSizePath>, need: DiskSize, maxAge: nat)
    ensures QuotaMarks(s, need) <= Marks(s, need, maxAge)
  {
  }

  // ---- removal and the answer ----

  /** The size of the entries that are gone; an entry without a flag is still there. */
  function TotalWhere(s: seq<AgeSizePath>, gone: seq<bool>): DiskSize
    requires |gone| <= |s|
  {
    if gone == [] then ZERO
    else if gone[0] then s[0].size.Add(TotalWhere(s[1..], gone[1..]))
    else TotalWhere(s[1..], gone[1..])
  }

  /** The entries that are still there. */
  function Remaining(s: seq<AgeSizePath>, gone: seq<bool>): seq<AgeSizePath>
    requires |gone| <= |s|
  {
    if gone == [] then s
    else if gone[0] then Remaining(s[1..], gone[1..])
    else [s[0]] + Remaining(s[1..], gone[1..])
  }

  lemma {:induction false} TotalWhereSnoc(s: seq<AgeSizePath>, gone: seq<bool>, last: bool)
    requires |gone| < |s|
    ensures TotalWhere(s, gone + [last])
            == if last then TotalWhere(s, gone).Add(s[|gone|].size) else TotalWhere(s, gone)
  {
    hide DiskSize.Add;
    if gone == [] {
      assert [] + [last] == [last] && [last][1..] == [];
      AddLaws(s[0].size, ZERO, ZERO);
    } else {
      assert (gone + [last])[1..] == gone[1..] + [last];
      TotalWhereSnoc(s[1..], gone[1..], last);
      AddLaws(s[0].size, TotalWhere(s[1..], gone[1..]), s[|gone|].size);
    }
  }

  function Entries(marked: seq<(AgeSizePath, DeletionReason)>): (r: seq<AgeSizePath>)
    ensures |r| == |marked|
  {
    seq(|marked|, k requires 0 <= k < |marked| => marked[k].0)
  }

  /** Each removal may fail; only the successful ones count as freed. */
  method RemoveMarkedEntries(marked: seq<(AgeSizePath, DeletionReason)>) returns (freed: DiskSize, gone: seq<bool>)
    ensures |gone| == |marked| && freed == TotalWhere(Entries(marked), gone)
  {
    freed, gone := ZERO, [];
    for i := 0 to |marked|
      invariant |gone| == i && freed == TotalWhere(Entries(marked), gone)
    {
      var removed: bool := *;
      TotalWhereSnoc(Entries(marked), gone, removed);
      if removed {
        freed := freed.Add(marked[i].0.size);
      }
      gone := gone + [removed];
    }
  }

  // Only the flagged prefix matters.
  lemma {:induction false} TotalWherePrefix(s: seq<AgeSizePath>, n: nat, gone: seq<bool>)
    requires |gone| <= n <= |s|
    ensures TotalWhere(s[..n], gone) == TotalWhere(s, gone)
    decreases |gone|
  {
    if gone != [] {
      assert s[..n][1..] == s[1..][..n - 1];
      TotalWherePrefix(s[1..], n - 1, gone[1..]);
    }
  }

  function SpaceLeft(total: DiskSize, freed: DiskSize, maxTotal: DiskSize, available: DiskSize,
                     minSpace: DiskSize): DiskSize
  {
    Min(maxTotal.SaturatingSub(total.SaturatingSub(freed)), available.Add(freed).SaturatingSub(minSpace))
  }

  /** One cleaning run. Besides the answer it reports, for the specification, which of the marked
      entries (a prefix of the sorted ones) were really removed. */
  method CleanMarStaging(folders: seq<StagedFolder>, maxTotal: DiskSize, available: DiskSize, minSpace: DiskSize,
                         referenceDate: nat, maxAge: nat)
    returns (r: DiskSize, gone: seq<bool>)
    ensures var entries := CollectMarEntries(folders, referenceDate);
      var sorted, total := SortBy(entries, OldestFirst), Total(entries);
      var n := Marks(sorted, NeedToFree(total, maxTotal, available, minSpace), maxAge);
      && |gone| == n
      && r == SpaceLeft(total, TotalWhere(sorted, gone), maxTotal, available, minSpace)
  {
    hide SortBy, NeedToFree, Marks, QuotaMarks, TotalWhere;
    var entries := CollectMarEntries(folders, referenceDate);
    var total := Total(entries);
    var marked := MarkEntriesForDeletion(entries, total, maxTotal, available, minSpace, maxAge);
    ghost var sorted := SortBy(entries, OldestFirst);
    assert Entries(marked) == sorted[..|marked|];
    var freed;
    freed, gone := RemoveMarkedEntries(marked);
    TotalWherePrefix(sorted, |marked|, gone);
    r := Min(maxTotal.SaturatingSub(total.SaturatingSub(freed)), available.Add(freed).SaturatingSub(minSpace));
  }

  /** The configured cleaner makes room for what is about to be written on top of its limits. */
  method Clean(folders: seq<StagedFolder>, maxTotal: DiskSize, minHeadroom: DiskSize, maxAge: nat,
               requiredSpace: DiskSize, available: DiskSize, now: nat)
    returns (r: DiskSize, gone: seq<bool>)
    ensures var entries := CollectMarEntries(folders, now);
      var sorted, total := SortBy(entries, OldestFirst), Total(entries);
      var quota, floor := maxTotal.SaturatingSub(requiredSpace), minHeadroom.Add(requiredSpace);
      var n := Marks(sorted, NeedToFree(total, quota, available, floor), maxAge);
      && |gone| == n && r == SpaceLeft(total, TotalWhere(sorted, gone), quota, available, floor)
  {
    r, gone := CleanMarStaging(folders, maxTotal.SaturatingSub(requiredSpace), available,
                               minHeadroom.Add(requiredSpace), now, maxAge);
  }

  // ---- what the answer is good for ----

  // Sizes do not depend on the order.
  lemma {:induction false} InsertTotal(x: AgeSizePath, s: seq<AgeSizePath>)
    ensures Total(Insert(x, s, OldestFirst)) == x.size.Add(Total(s))
    decreases |s|
  {
    if s == [] || OldestFirst(x) <= OldestFirst(s[0]) {
      assert ([x] + s)[1..] == s;
    } else {
      InsertTotal(x, s[1..]);
      var r := Insert(x, s[1..], OldestFirst);
      assert ([s[0]] + r)[1..] == r;
    }
  }

  lemma {:induction false} SortedTotal(s: seq<AgeSizePath>)
    ensures Total(SortBy(s, OldestFirst)) == Total(s)
    decreases |s|
  {
    if s != [] {
      SortedTotal(s[1..]);
      InsertTotal(s[0], SortBy(s[1..], OldestFirst));
    }
  }

  /** Nothing is lost count of: what is gone and what remains add up. */
  lemma {:induction false} TotalSplit(s: seq<AgeSizePath>, gone: seq<bool>)
    requires |gone| <= |s|
    ensures TotalWhere(s, gone).Add(Total(Remaining(s, gone))) == Total(s)
    decreases |gone|
  {
    hide DiskSize.Add;
    if gone == [] {
      AddLaws(Total(s), ZERO, ZERO);
    } else {
      var freed, rest := TotalWhere(s[1..], gone[1..]), Remaining(s[1..], gone[1..]);
      TotalSplit(s[1..], gone[1..]);
      AddLaws(s[0].size, freed, Total(rest));
      AddLaws(freed, s[0].size, Total(rest));
      if !gone[0] {
        assert ([s[0]] + rest)[1..] == rest;
      }
    }
  }

  lemma {:induction false} TotalAppend(a: seq<AgeSizePath>, b: seq<AgeSizePath>)
    ensures Total(a + b) == Total(a).Add(Total(b))
    decreases |a|
  {
    hide DiskSize.Add;
    AddLaws(Total(b), ZERO, ZERO);
    if a == [] {
      assert a + b == b;
    } else {
      assert (a + b)[1..] == a[1..] + b;
      TotalAppend(a[1..], b);
      AddLaws(a[0].size, Total(a[1..]), Total(b));
    }
  }

  /** When every marked removal succeeds, what remains is within the quota in both components, and
      the free space reaches the minimum in both unless nothing is left to remove. */
  lemma {:induction false} QuotasKept(entries: seq<AgeSizePath>, maxTotal: DiskSize, available: DiskSize,
                                      minSpace: DiskSize, maxAge: nat)
    ensures var sorted := SortBy(entries, OldestFirst);
      var n := Marks(sorted, NeedToFree(Total(entries), maxTotal, available, minSpace), maxAge);
      && maxTotal.AtLeast(Total(sorted[n..]))
      && (n == |sorted| || available.Add(Total(sorted[..n])).AtLeast(minSpace))
  {
    hide SortBy, NeedToFree, QuotaMarks, ExpiredLen, Total, DiskSize.Add, DiskSize.AtLeast, DiskSize.Exceeds;
    var sorted := SortBy(entries, OldestFirst);
    var need := NeedToFree(Total(entries), maxTotal, available, minSpace);
    var n := Marks(sorted, need, maxAge);
    SortedTotal(entries);
    assert sorted[..n] + sorted[n..] == sorted;
    TotalAppend(sorted[..n], sorted[n..]);
    QuotaShortest(sorted, need, n);
    EnoughFreed(Total(sorted[..n]), Total(sorted[n..]), maxTotal, available, minSpace);
    if n == |sorted| {
      NothingLeft(sorted[n..], maxTotal);
    }
  }

  lemma {:induction false} NothingLeft(rest: seq<AgeSizePath>, maxTotal: DiskSize)
    requires rest == []
    ensures maxTotal.AtLeast(Total(rest))
  {
  }

  // Freeing nothing is enough when nothing is needed, and so is freeing more than is needed.
  lemma EnoughFreed(gone: DiskSize, rest: DiskSize, maxTotal: DiskSize, available: DiskSize, minSpace: DiskSize)
    ensures var need := NeedToFree(gone.Add(rest), maxTotal, available, minSpace);
      need == ZERO || gone.Exceeds(need) ==>
        maxTotal.AtLeast(rest) && available.Add(gone).AtLeast(minSpace)
  {
    NeedIsLargerShortfall(gone.Add(rest), maxTotal, available, minSpace, gone);
  }

  /** Whichever of the marked entries are really gone: in each component where the answer is positive,
      writing the space asked for and that much more keeps what is staged within `maxTotal` and the
      free space at or above `minHeadroom`. */
  lemma {:induction false} AnswerIsSafe(entries: seq<AgeSizePath>, maxTotal: DiskSize, minHeadroom: DiskSize,
                     requiredSpace: DiskSize, available: DiskSize, gone: seq<bool>)
    requires |gone| <= |SortBy(entries, OldestFirst)|
    ensures var sorted := SortBy(entries, OldestFirst);
      var freed, staged := TotalWhere(sorted, gone), Total(Remaining(sorted, gone));
      var r := SpaceLeft(Total(entries), freed, maxTotal.SaturatingSub(requiredSpace), available,
                         minHeadroom.Add(requiredSpace));
      && (r.bytes > 0 ==> staged.bytes + requiredSpace.bytes + r.bytes <= maxTotal.bytes
                          && available.bytes + freed.bytes - requiredSpace.bytes - r.bytes >= minHeadroom.bytes)
      && (r.inodes > 0 ==> staged.inodes + requiredSpace.inodes + r.inodes <= maxTotal.inodes
                           && available.inodes + freed.inodes - requiredSpace.inodes - r.inodes >= minHeadroom.inodes)
  {
    hide SortBy, TotalWhere, Remaining, Total;
    var sorted := SortBy(entries, OldestFirst);
    SortedTotal(entries);
    TotalSplit(sorted, gone);
  }

  // ---- from the staged folders ----

  /** What all folders take together. */
  function StagedTotal(folders: seq<StagedFolder>): DiskSize {
    if folders == [] then DiskSize(0, 0)
    else
      var rest, size := StagedTotal(folders[1..]), folders[0].size;
      DiskSize(size.bytes + rest.bytes, size.inodes + rest.inodes)
  }

  lemma {:induction false} TotalIsStaged(folders: seq<StagedFolder>, now: nat)
    ensures Total(CollectMarEntries(folders, now)) == StagedTotal(folders)
  {
    if folders != [] {
      var entries := CollectMarEntries(folders, now);
      assert entries[1..] == CollectMarEntries(folders[1..], now);
      TotalIsStaged(folders[1..], now);
    }
  }

  /** The candidates are the staged folders, each with its own path, size and age. */
  lemma CandidatesAreFolders(folders: seq<StagedFolder>, now: nat, k: nat)
    requires k < |folders|
    ensures var entries, f := CollectMarEntries(folders, now), folders[k];
      && |entries| == |folders| && entries[k].path == f.path && entries[k].size == f.size
      && entries[k].age == if f.timestamp <= now then now - f.timestamp else 0
    ensures var entries := CollectMarEntries(folders, now);
      && multiset(SortBy(entries, OldestFirst)) == multiset(entries)
      && CollectMarEntries(folders, now)[k] in SortBy(entries, OldestFirst)
  {
    hide SortBy;
    var entries := CollectMarEntries(folders, now);
    SortBySorts(entries, OldestFirst, 0);
    assert entries[k] in multiset(entries);
  }

  /** Of two folders, the one with the earlier timestamp, if that has passed, goes whenever the other one
      does; and every folder older than a non-zero maximum age goes. */
  lemma OldestFoldersGo(folders: seq<StagedFolder>, need: DiskSize, now: nat, maxAge: nat, i: nat, j: nat)
    requires i < |folders| && j < |folders|
    ensures var entries := CollectMarEntries(folders, now);
      var sorted := SortBy(entries, OldestFirst);
      var marked := sorted[..Marks(sorted, need, maxAge)];
      && |entries| == |folders|
      && (folders[i].timestamp < folders[j].timestamp && folders[i].timestamp < now && entries[j] in marked ==>
            entries[i] in marked)
      && (maxAge > 0 && folders[i].timestamp + maxAge < now ==> entries[i] in marked)
  {
    hide SortBy, Marks, WithAge;
    var entries := CollectMarEntries(folders, now);
    var sorted := SortBy(entries, OldestFirst);
    CandidatesAreFolders(folders, now, i);
    CandidatesAreFolders(folders, now, j);
    assert |multiset(sorted)| == |sorted| && |multiset(entries)| == |entries|;
    var a :| 0 <= a < |sorted| && sorted[a] == entries[i];
    MarkedOldestFirst(entries, need, maxAge, a, a);
    if entries[j] in sorted[..Marks(sorted, need, maxAge)] {
      var b :| 0 <= b < Marks(sorted, need, maxAge) && sorted[b] == entries[j];
      if b <= a {
        MarkedOldestFirst(entries, need, maxAge, b, a);
      }
    }
  }
}
