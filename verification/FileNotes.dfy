/** The description of a CORE NT_FILE note: a mapped-file count and a page size, one address triple
    per file, and a table of NUL-terminated paths. Parsing keeps as much of a cut description as it
    can. */
module FileNotes {
  import opened Bytes

  datatype MappedFile = MappedFile(path: Option<seq<byte>>, startAddr: u64, endAddr: u64, pageOffset: u64)
  datatype FileNote = FileNote(pageSize: u64, mappedFiles: seq<MappedFile>, incomplete: bool)

  /** A description shorter than its header is refused. One whose count asks for more memory than there
      is ends the program: the list is reserved before anything is read. */
  datatype ParseResult = TooShort | Aborted | Parsed(note: FileNote)

  const HEADER_SIZE: nat := 16
  const NT_FILE_ENTRY_SIZE: nat := 24
  // A fat pointer or null, and three words.
  const MAPPED_FILE_SIZE: nat := 40

  /** Whether a list of `count` mapped files can be reserved when the system grants `granted` bytes. */
  predicate Reservable(granted: nat, count: nat) {
    Allocatable(granted, count * MAPPED_FILE_SIZE)
  }

  /** The position of the first NUL at or after `i`. */
  function FindNul(s: seq<byte>, i: nat): (r: Option<nat>)
    ensures r.Some? ==> i <= r.value < |s| && s[r.value] == 0
    ensures r.Some? ==> forall j :: i <= j < r.value ==> s[j] != 0
    ensures r.None? ==> forall j :: i <= j < |s| ==> s[j] != 0
    decreases |s| - i
  {
    if i >= |s| then None else if s[i] == 0 then Some(i) else FindNul(s, i + 1)
  }

  /** The C string at `offset` and where the next one starts; a failure leaves the offset alone. */
  function NextPath(table: seq<byte>, offset: nat): (Option<seq<byte>>, nat) {
    match FindNul(table, offset)
    case None => (None, offset)
    case Some(end) => (Some(table[offset..end]), end + 1)
  }

  function EntryAt(data: seq<byte>, offset: nat, path: Option<seq<byte>>): MappedFile
    requires offset + NT_FILE_ENTRY_SIZE <= |data|
  {
    MappedFile(path, U64(data, offset), U64(data, offset + 8), U64(data, offset + 16))
  }

  function ParseEntries(data: seq<byte>, offset: nat, table: seq<byte>, tableOffset: nat, count: nat)
    : (seq<MappedFile>, bool)
    decreases count
  {
    if count == 0 then ([], false)
    else if |data| < offset + NT_FILE_ENTRY_SIZE then ([], true)
    else
      var (path, next) := NextPath(table, tableOffset);
      var (files, incomplete) := ParseEntries(data, offset + NT_FILE_ENTRY_SIZE, table, next, count - 1);
      ([EntryAt(data, offset, path)] + files, incomplete || path.None?)
  }

  function TableStart(data: seq<byte>, count: nat): (start: nat)
    ensures start <= |data|
  {
    var start := HEADER_SIZE + count * NT_FILE_ENTRY_SIZE;
    if start <= |data| then start else |data|
  }

  function Parse(granted: nat, data: seq<byte>): ParseResult {
    if |data| < HEADER_SIZE then TooShort
    else
      var count := U64(data, 0);
      if !Reservable(granted, count) then Aborted
      else
        var (files, incomplete) := ParseEntries(data, HEADER_SIZE, data[TableStart(data, count)..], 0, count);
        Parsed(FileNote(U64(data, 8), files, incomplete))
  }

  /** What could be reserved could be indexed: the start of the string table does not overflow. */
  lemma OffsetFits(granted: nat, count: nat)
    requires Reservable(granted, count)
    ensures HEADER_SIZE + count * NT_FILE_ENTRY_SIZE < 0x1_0000_0000_0000_0000
  {
  }

  /** The parser's loop: stops at the first address triple that is not all there, and marks the note
      incomplete for it or for any missing path. */
  method TryParse(granted: nat, data: seq<byte>) returns (r: ParseResult)
    ensures r == Parse(granted, data)
  {
    hide EntryAt, NextPath;
    if |data| < HEADER_SIZE {
      return TooShort;
    }
    var count, pageSize := U64(data, 0), U64(data, 8);
    if !Reservable(granted, count) {
      return Aborted;
    }
    OffsetFits(granted, count);
    var offset: nat := HEADER_SIZE;
    var strTable := data[TableStart(data, count)..];
    var strTableOffset: nat := 0;
    var incomplete := false;
    var mappedFiles: seq<MappedFile> := [];
    ghost var whole := ParseEntries(data, HEADER_SIZE, strTable, 0, count);
    assert mappedFiles + whole.0 == whole.0;
    var left: nat := count;
    while left > 0
      invariant var rest := ParseEntries(data, offset, strTable, strTableOffset, left);
        whole == (mappedFiles + rest.0, incomplete || rest.1)
      decreases left
    {
      if |data| < offset + NT_FILE_ENTRY_SIZE {
        assert mappedFiles + [] == mappedFiles;
        return Parsed(FileNote(pageSize, mappedFiles, true));
      }
      var (path, next) := NextPath(strTable, strTableOffset);
      var entry := EntryAt(data, offset, path);
      ghost var rest := ParseEntries(data, offset + NT_FILE_ENTRY_SIZE, strTable, next, left - 1);
      assert mappedFiles + ([entry] + rest.0) == (mappedFiles + [entry]) + rest.0;
      mappedFiles := mappedFiles + [entry];
      incomplete := incomplete || path.None?;
      offset, strTableOffset, left := offset + NT_FILE_ENTRY_SIZE, next, left - 1;
    }
    assert mappedFiles + [] == mappedFiles;
    return Parsed(FileNote(pageSize, mappedFiles, incomplete));
  }

  // ---- any bytes at all ----

  /** Whatever follows the header, and however little: the program ends if and only if the count in it,
      at forty bytes an entry, asks for more than there is or for more than half the address space. */
  lemma {:induction false} AbortsExactly(granted: nat, count: u64, pageSize: u64, rest: seq<byte>)
    ensures Parse(granted, (LeBytes(count, 8) + LeBytes(pageSize, 8)) + rest) == Aborted
            <==> 40 * count > granted || count > 230_584_300_921_369_395
  {
    hide LeBytes, ParseEntries, U64, Reservable;
    var header := LeBytes(count, 8) + LeBytes(pageSize, 8);
    assert At(header + rest, 0, header);
    HeaderAt(header + rest, count, pageSize);
    TooMany(granted, count);
  }

  lemma TooMany(granted: nat, count: nat)
    ensures Reservable(granted, count) <==> 40 * count <= granted && count <= 230_584_300_921_369_395
  {
  }

  lemma {:induction false} HeaderAt(data: seq<byte>, count: u64, pageSize: u64)
    requires At(data, 0, LeBytes(count, 8) + LeBytes(pageSize, 8))
    ensures HEADER_SIZE <= |data| && U64(data, 0) == count && U64(data, 8) == pageSize
  {
    hide LeBytes, LeValue, Pow256, Le;
    var header := LeBytes(count, 8) + LeBytes(pageSize, 8);
    PowValues();
    assert header[0..8] == LeBytes(count, 8) && header[8..16] == LeBytes(pageSize, 8);
    LeAt(data, 0, header, 0, 8, count);
    LeAt(data, 0, header, 8, 8, pageSize);
  }

  /** What holds of the entries parsed from any bytes: they are whole triples of the data; once a path
      is missing, all later ones are; and `incomplete` says exactly that a path or an entry is
      missing. */
  lemma {:induction false} EntriesShape(data: seq<byte>, offset: nat, table: seq<byte>, tableOffset: nat, count: nat)
    requires offset <= |data|
    ensures var (files, incomplete) := ParseEntries(data, offset, table, tableOffset, count);
      && |files| <= count && offset + NT_FILE_ENTRY_SIZE * |files| <= |data|
      && (|files| < count ==> |data| < offset + NT_FILE_ENTRY_SIZE * (|files| + 1))
      && (forall i, j :: 0 <= i < j < |files| && files[i].path.None? ==> files[j].path.None?)
      && (NextPath(table, tableOffset).0.None? ==> forall i :: 0 <= i < |files| ==> files[i].path.None?)
      && (incomplete <==> |files| < count || exists i :: 0 <= i < |files| && files[i].path.None?)
    decreases count
  {
    hide EntryAt;
    if count > 0 && offset + NT_FILE_ENTRY_SIZE <= |data| {
      var (path, next) := NextPath(table, tableOffset);
      EntriesShape(data, offset + NT_FILE_ENTRY_SIZE, table, next, count - 1);
      var (rest, restIncomplete) := ParseEntries(data, offset + NT_FILE_ENTRY_SIZE, table, next, count - 1);
      var files := ParseEntries(data, offset, table, tableOffset, count).0;
      assert files[1..] == rest;
      EntryPath(data, offset, path);
      assert files[0].path == path;
      if restIncomplete && exists i :: 0 <= i < |rest| && rest[i].path.None? {
        var i :| 0 <= i < |rest| && rest[i].path.None?;
        assert files[i + 1].path.None?;
      }
    }
  }

  lemma EntryPath(data: seq<byte>, offset: nat, path: Option<seq<byte>>)
    requires offset + NT_FILE_ENTRY_SIZE <= |data|
    ensures EntryAt(data, offset, path).path == path
  {
  }

  // ---- cutting a well-formed description ----

  datatype Mapping = Mapping(startAddr: u64, endAddr: u64, pageOffset: u64, path: seq<byte>)

  ghost predicate WellFormed(mappings: seq<Mapping>) {
    |mappings| < 0x1_0000_0000_0000_0000 && forall m :: m in mappings ==> 0 !in m.path
  }

  function Triple(m: Mapping): seq<byte> {
    LeBytes(m.startAddr, 8) + LeBytes(m.endAddr, 8) + LeBytes(m.pageOffset, 8)
  }

  function Triples(mappings: seq<Mapping>): (r: seq<seq<byte>>)
    ensures |r| == |mappings|
  {
    seq(|mappings|, k requires 0 <= k < |mappings| => Triple(mappings[k]))
  }

  function Strings(mappings: seq<Mapping>): (r: seq<seq<byte>>)
    ensures |r| == |mappings|
  {
    seq(|mappings|, k requires 0 <= k < |mappings| => mappings[k].path + [0])
  }

  function Describe(pageSize: u64, mappings: seq<Mapping>): seq<byte> {
    (LeBytes(|mappings|, 8) + LeBytes(pageSize, 8)) + (Concat(Triples(mappings)) + Concat(Strings(mappings)))
  }

  /** How many address triples lie wholly before the cut. */
  function WholeTriples(mappings: seq<Mapping>, cut: nat): nat
    requires HEADER_SIZE <= cut
  {
    if HEADER_SIZE + NT_FILE_ENTRY_SIZE * |mappings| <= cut then |mappings|
    else (cut - HEADER_SIZE) / NT_FILE_ENTRY_SIZE
  }

  function StringsCut(mappings: seq<Mapping>, cut: nat): nat {
    var start := HEADER_SIZE + NT_FILE_ENTRY_SIZE * |mappings|;
    if cut < start then 0 else cut - start
  }

  /** How many terminated paths lie wholly before the cut. */
  function WholePaths(mappings: seq<Mapping>, cut: nat): (p: nat)
    ensures p <= |mappings| && Start(Strings(mappings), p) <= StringsCut(mappings, cut)
    ensures p < |mappings| ==> StringsCut(mappings, cut) < Start(Strings(mappings), p + 1)
  {
    WholeBefore(Strings(mappings), StringsCut(mappings, cut), 0)
  }

  function Expected(mappings: seq<Mapping>, cut: nat, from: nat): seq<MappedFile>
    requires HEADER_SIZE <= cut && from <= WholeTriples(mappings, cut) <= |mappings|
  {
    seq(WholeTriples(mappings, cut) - from, k requires 0 <= k < WholeTriples(mappings, cut) - from =>
      var m := mappings[from + k];
      MappedFile(if from + k < WholePaths(mappings, cut) then Some(m.path) else None,
                 m.startAddr, m.endAddr, m.pageOffset))
  }

  lemma TriplesBounded(mappings: seq<Mapping>, cut: nat)
    requires HEADER_SIZE <= cut
    ensures WholeTriples(mappings, cut) <= |mappings|
    ensures HEADER_SIZE + NT_FILE_ENTRY_SIZE * WholeTriples(mappings, cut) <= cut
    ensures WholeTriples(mappings, cut) < |mappings| ==>
      cut < HEADER_SIZE + NT_FILE_ENTRY_SIZE * (WholeTriples(mappings, cut) + 1)
  {
  }

  lemma {:induction false} TripleStart(mappings: seq<Mapping>, k: nat)
    requires k <= |mappings|
    ensures Start(Triples(mappings), k) == NT_FILE_ENTRY_SIZE * k
  {
    if k > 0 {
      TripleStart(mappings, k - 1);
    }
  }

  // The parts of the description, at their places.
  lemma {:induction false} DescriptionParts(pageSize: u64, mappings: seq<Mapping>)
    ensures var d, start := Describe(pageSize, mappings), HEADER_SIZE + NT_FILE_ENTRY_SIZE * |mappings|;
      && |d| == start + |Concat(Strings(mappings))|
      && At(d, 0, LeBytes(|mappings|, 8) + LeBytes(pageSize, 8))
      && At(d, HEADER_SIZE, Concat(Triples(mappings)))
      && d[start..] == Concat(Strings(mappings))
  {
    hide LeBytes, Triples, Strings, Concat;
    var d := Describe(pageSize, mappings);
    var header := LeBytes(|mappings|, 8) + LeBytes(pageSize, 8);
    var triples, strings := Concat(Triples(mappings)), Concat(Strings(mappings));
    TripleStart(mappings, |mappings|);
    StartTotal(Triples(mappings));
    assert d[0..|d|] == d;
    AtSplit(d, 0, header, triples + strings);
    AtSplit(d, HEADER_SIZE, triples, strings);
  }

  lemma EntryReadBack(pageSize: u64, mappings: seq<Mapping>, cut: nat, k: nat, path: Option<seq<byte>>)
    requires HEADER_SIZE <= cut <= |Describe(pageSize, mappings)| && k < WholeTriples(mappings, cut) <= |mappings|
    ensures var data, offset := Describe(pageSize, mappings)[..cut], HEADER_SIZE + NT_FILE_ENTRY_SIZE * k;
      && offset + NT_FILE_ENTRY_SIZE <= cut
      && EntryAt(data, offset, path)
         == MappedFile(path, mappings[k].startAddr, mappings[k].endAddr, mappings[k].pageOffset)
  {
    hide LeBytes, LeValue, Pow256, Describe, Le, Concat;
    var d := Describe(pageSize, mappings);
    var offset, t, m := HEADER_SIZE + NT_FILE_ENTRY_SIZE * k, Triples(mappings)[k], mappings[k];
    DescriptionParts(pageSize, mappings);
    TriplesBounded(mappings, cut);
    TripleStart(mappings, k);
    PartAt(Triples(mappings), k);
    AtTrans(d, HEADER_SIZE, Concat(Triples(mappings)), NT_FILE_ENTRY_SIZE * k, t);
    CutKeeps(d, cut, offset, t);
    PowValues();
    assert t[0..8] == LeBytes(m.startAddr, 8) && t[8..16] == LeBytes(m.endAddr, 8);
    assert t[16..24] == LeBytes(m.pageOffset, 8);
    LeAt(d[..cut], offset, t, 0, 8, m.startAddr);
    LeAt(d[..cut], offset, t, 8, 8, m.endAddr);
    LeAt(d[..cut], offset, t, 16, 8, m.pageOffset);
  }

  // The string table that the parser of the cut description works on.
  lemma CutTable(pageSize: u64, mappings: seq<Mapping>, cut: nat)
    requires HEADER_SIZE <= cut <= |Describe(pageSize, mappings)|
    ensures var data := Describe(pageSize, mappings)[..cut];
      && StringsCut(mappings, cut) <= |Concat(Strings(mappings))|
      && data[TableStart(data, |mappings|)..] == Concat(Strings(mappings))[..StringsCut(mappings, cut)]
  {
    hide Describe, Strings, Triples, Concat;
    DescriptionParts(pageSize, mappings);
    var d, start := Describe(pageSize, mappings), HEADER_SIZE + NT_FILE_ENTRY_SIZE * |mappings|;
    if start <= cut {
      assert d[..cut][start..] == d[start..][..cut - start];
    }
  }

  lemma PathFound(mappings: seq<Mapping>, cut: nat, k: nat)
    requires WellFormed(mappings) && StringsCut(mappings, cut) <= |Concat(Strings(mappings))|
    requires k < WholePaths(mappings, cut)
    ensures var table := Concat(Strings(mappings))[..StringsCut(mappings, cut)];
      NextPath(table, Start(Strings(mappings), k)) == (Some(mappings[k].path), Start(Strings(mappings), k + 1))
  {
    hide Concat, WholePaths;
    var parts, path := Strings(mappings), mappings[k].path;
    var whole, offset, table := Concat(parts), Start(parts, k), Concat(parts)[..StringsCut(mappings, cut)];
    PartAt(parts, k);
    StartGrows(parts, k + 1, WholePaths(mappings, cut));
    CutKeeps(whole, StringsCut(mappings, cut), offset, parts[k]);
    assert mappings[k] in mappings;
    assert forall i :: 0 <= i < |path| ==> path[i] in path;
    FindTerminated(table, offset, path);
  }

  lemma {:induction false} FindTerminated(table: seq<byte>, offset: nat, path: seq<byte>)
    requires At(table, offset, path + [0]) && forall i :: 0 <= i < |path| ==> path[i] != 0
    ensures FindNul(table, offset) == Some(offset + |path|) && table[offset..offset + |path|] == path
  {
    AtSplit(table, offset, path, [0]);
    assert table[offset + |path|] == table[offset + |path|..offset + |path| + 1][0];
    forall j | offset <= j < offset + |path|
      ensures table[j] != 0
    {
      assert table[j] == table[offset..offset + |path|][j - offset] == path[j - offset];
    }
    var r := FindNul(table, offset);
    assert r.Some?;
  }

  lemma PathMissing(mappings: seq<Mapping>, cut: nat)
    requires WellFormed(mappings) && StringsCut(mappings, cut) <= |Concat(Strings(mappings))|
    requires WholePaths(mappings, cut) < |mappings|
    ensures var table := Concat(Strings(mappings))[..StringsCut(mappings, cut)];
      var offset := Start(Strings(mappings), WholePaths(mappings, cut));
      NextPath(table, offset) == (None, offset)
  {
    hide Concat, WholePaths;
    var p := WholePaths(mappings, cut);
    var parts, path := Strings(mappings), mappings[p].path;
    var whole, offset, table := Concat(parts), Start(parts, p), Concat(parts)[..StringsCut(mappings, cut)];
    PartAt(parts, p);
    assert parts[p] == path + [0] && |table| <= offset + |path|;
    assert mappings[p] in mappings && 0 !in path;
    forall j | offset <= j < |table|
      ensures table[j] != 0
    {
      assert table[j] == whole[j] == whole[offset..offset + |parts[p]|][j - offset] == parts[p][j - offset];
      assert path[j - offset] in path;
    }
  }

  /** Cut anywhere after its two-word header, a well-formed description still gives every whole
      entry with its addresses; the paths present are those of a prefix; and the note is marked
      incomplete exactly when something was cut. It needs memory for all entries, cut or not. */
  lemma CutDescription(granted: nat, pageSize: u64, mappings: seq<Mapping>, cut: nat)
    requires WellFormed(mappings) && HEADER_SIZE <= cut <= |Describe(pageSize, mappings)|
    ensures WholeTriples(mappings, cut) <= |mappings|
    ensures Parse(granted, Describe(pageSize, mappings)[..cut])
            == if Reservable(granted, |mappings|)
               then Parsed(FileNote(pageSize, Expected(mappings, cut, 0), cut < |Describe(pageSize, mappings)|))
               else Aborted
  {
    hide Describe, ParseEntries, Triples, Strings, Concat, LeBytes, LeValue, Expected, WholeTriples, WholePaths,
         Reservable;
    var d := Describe(pageSize, mappings);
    DescriptionParts(pageSize, mappings);
    TriplesBounded(mappings, cut);
    HeaderReadBack(pageSize, mappings, cut);
    CutTable(pageSize, mappings, cut);
    EntriesFrom(pageSize, mappings, cut, 0);
    WhatIsCut(pageSize, mappings, cut);
  }

  lemma HeaderReadBack(pageSize: u64, mappings: seq<Mapping>, cut: nat)
    requires WellFormed(mappings) && HEADER_SIZE <= cut <= |Describe(pageSize, mappings)|
    ensures var data := Describe(pageSize, mappings)[..cut];
      U64(data, 0) == |mappings| && U64(data, 8) == pageSize
  {
    hide Describe, LeBytes, U64, Concat, Triples, Strings;
    var header := LeBytes(|mappings|, 8) + LeBytes(pageSize, 8);
    DescriptionParts(pageSize, mappings);
    CutKeeps(Describe(pageSize, mappings), cut, 0, header);
    HeaderAt(Describe(pageSize, mappings)[..cut], |mappings|, pageSize);
  }

  lemma WhatIsCut(pageSize: u64, mappings: seq<Mapping>, cut: nat)
    requires HEADER_SIZE <= cut <= |Describe(pageSize, mappings)|
    ensures cut < |Describe(pageSize, mappings)|
            <==> WholeTriples(mappings, cut) < |mappings| || WholePaths(mappings, cut) < |mappings|
  {
    hide Describe, Triples, Concat, WholeBefore;
    DescriptionParts(pageSize, mappings);
    StartTotal(Strings(mappings));
    var p := WholePaths(mappings, cut);
    if p < |mappings| {
      StartGrows(Strings(mappings), p + 1, |mappings|);
    }
  }

  lemma {:induction false} EntriesFrom(pageSize: u64, mappings: seq<Mapping>, cut: nat, i: nat)
    requires WellFormed(mappings) && HEADER_SIZE <= cut <= |Describe(pageSize, mappings)|
    requires i <= WholeTriples(mappings, cut) <= |mappings|
    ensures StringsCut(mappings, cut) <= |Concat(Strings(mappings))|
    ensures var data := Describe(pageSize, mappings)[..cut];
      var p, e := WholePaths(mappings, cut), WholeTriples(mappings, cut);
      var table := Concat(Strings(mappings))[..StringsCut(mappings, cut)];
      ParseEntries(data, HEADER_SIZE + NT_FILE_ENTRY_SIZE * i,
                   table, Start(Strings(mappings), if i < p then i else p), |mappings| - i)
      == (Expected(mappings, cut, i), e < |mappings| || (i < e && p < e))
    decreases |mappings| - i
  {
    hide Describe, Triples, Strings, Concat, EntryAt, NextPath, WholePaths, WholeTriples, StringsCut, Expected;
    CutTable(pageSize, mappings, cut);
    TriplesBounded(mappings, cut);
    var p, e := WholePaths(mappings, cut), WholeTriples(mappings, cut);
    if i < e {
      var path := if i < p then Some(mappings[i].path) else None;
      EntryReadBack(pageSize, mappings, cut, i, path);
      if i < p {
        PathFound(mappings, cut, i);
      } else {
        PathMissing(mappings, cut);
      }
      EntriesFrom(pageSize, mappings, cut, i + 1);
    }
    ExpectedStep(mappings, cut, i);
  }

  lemma ExpectedStep(mappings: seq<Mapping>, cut: nat, i: nat)
    requires HEADER_SIZE <= cut && i <= WholeTriples(mappings, cut) <= |mappings|
    ensures i == WholeTriples(mappings, cut) ==> Expected(mappings, cut, i) == []
    ensures i < WholeTriples(mappings, cut) ==>
      var m, path := mappings[i], if i < WholePaths(mappings, cut) then Some(mappings[i].path) else None;
      Expected(mappings, cut, i)
      == [MappedFile(path, m.startAddr, m.endAddr, m.pageOffset)] + Expected(mappings, cut, i + 1)
  {
    hide WholePaths, WholeTriples;
  }
}
