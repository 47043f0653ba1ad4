/** A reader written from the APPNOTE alone: find the end record (4.3.16), walk the central directory
    (4.3.12), jump to each recorded offset, read the local header (4.3.7), the stored contents and
    the data descriptor (4.3.9), and check what is recorded twice. It handles stored members with a
    data descriptor (general purpose bit 3). */
module ZipReader {
  import opened Bytes
  import opened Crc32
  import opened ZipFormat
  import ZipEncoder

  /** What a directory header says, and what was recovered of a file. `recordedCrc` is the checksum field
      of the local header, which may be empty when a data descriptor follows. */
  datatype DirectoryEntry = DirectoryEntry(name: seq<byte>, crc: nat, size: nat, offset: nat, madeBy: nat,
                                           modified: nat, attributes: nat)
  datatype Member = Member(name: seq<byte>, crc: nat, contents: seq<byte>, modified: nat, recordedCrc: nat)

  const LOCAL_HEADER: nat := 0x0403_4B50
  const DIRECTORY_HEADER: nat := 0x0201_4B50
  const DESCRIPTOR: nat := 0x0807_4B50
  const END_RECORD: nat := 0x0605_4B50

  /** A file that is only stored needs version 1.0 to extract. */
  const VERSION_1_0: nat := 10

  predicate HasSignature(z: seq<byte>, pos: nat, signature: nat) {
    pos + 4 <= |z| && Le(z, pos, 4) == signature
  }

  /** Whether general purpose bit 3, and no other, is set: a data descriptor follows. */
  predicate HasDescriptor(flags: nat) {
    flags == 8
  }

  predicate IsEndRecord(z: seq<byte>, pos: nat) {
    && pos + 22 <= |z|
    && HasSignature(z, pos, END_RECORD)
    && Le(z, pos + 4, 2) == 0 && Le(z, pos + 6, 2) == 0
    && pos + 22 + Le(z, pos + 20, 2) == |z|
  }

  /** The last end record, searching backwards from `pos`. */
  function FindEndRecord(z: seq<byte>, pos: nat): (r: Option<nat>)
    ensures r.Some? ==> r.value <= pos && IsEndRecord(z, r.value)
  {
    if IsEndRecord(z, pos) then Some(pos)
    else if pos == 0 then None
    else FindEndRecord(z, pos - 1)
  }

  function ReadDirectory(z: seq<byte>, pos: nat, count: nat): Option<(seq<DirectoryEntry>, nat)>
    decreases count
  {
    if count == 0 then Some(([], pos))
    else if |z| < pos + 46 || !HasSignature(z, pos, DIRECTORY_HEADER) then None
    else
      var nameLen := Le(z, pos + 28, 2);
      var next := pos + 46 + nameLen + Le(z, pos + 30, 2) + Le(z, pos + 32, 2);
      if |z| < next || Le(z, pos + 6, 2) != VERSION_1_0 || !HasDescriptor(Le(z, pos + 8, 2))
         || Le(z, pos + 10, 2) != 0 || Le(z, pos + 34, 2) != 0 || Le(z, pos + 20, 4) != Le(z, pos + 24, 4) then None
      else
        var entry := DirectoryEntry(z[pos + 46..pos + 46 + nameLen], Le(z, pos + 16, 4), Le(z, pos + 24, 4),
                                    Le(z, pos + 42, 4), Le(z, pos + 4, 2), Le(z, pos + 12, 4),
                                    Le(z, pos + 36, 2) + 0x1_0000 * Le(z, pos + 38, 4));
        match ReadDirectory(z, next, count - 1)
        case None => None
        case Some((entries, end)) => Some(([entry] + entries, end))
  }

  /** The local header has to say what the directory says: version, method, time, sizes and name. */
  function ReadMember(z: seq<byte>, entry: DirectoryEntry): Option<Member> {
    var pos := entry.offset;
    if |z| < pos + 30 || !HasSignature(z, pos, LOCAL_HEADER) then None
    else
      var nameLen := Le(z, pos + 26, 2);
      var start := pos + 30 + nameLen + Le(z, pos + 28, 2);
      var end := start + entry.size;
      if Le(z, pos + 4, 2) != VERSION_1_0 || !HasDescriptor(Le(z, pos + 6, 2)) || Le(z, pos + 8, 2) != 0
         || Le(z, pos + 10, 4) != entry.modified then None
      else if Le(z, pos + 18, 4) != entry.size || Le(z, pos + 22, 4) != entry.size then None
      else if |z| < end + 16 || z[pos + 30..pos + 30 + nameLen] != entry.name then None
      else if !HasSignature(z, end, DESCRIPTOR) || Le(z, end + 4, 4) != entry.crc
              || Le(z, end + 8, 4) != entry.size || Le(z, end + 12, 4) != entry.size then None
      else if Checksum(z[start..end]) != entry.crc then None
      else Some(Member(entry.name, entry.crc, z[start..end], entry.modified, Le(z, pos + 14, 4)))
  }

  function ReadMembers(z: seq<byte>, entries: seq<DirectoryEntry>): Option<seq<Member>> {
    if entries == [] then Some([])
    else
      match (ReadMember(z, entries[0]), ReadMembers(z, entries[1..]))
      case (Some(member), Some(members)) => Some([member] + members)
      case _ => None
  }

  function ReadArchive(z: seq<byte>): Option<seq<Member>> {
    if |z| < 22 then None
    else
      match FindEndRecord(z, |z| - 22)
      case None => None
      case Some(end) =>
        match ReadDirectory(z, Le(z, end + 16, 4), Le(z, end + 10, 2))
        case None => None
        case Some((entries, stop)) =>
          if stop != end || Le(z, end + 8, 2) != Le(z, end + 10, 2)
             || Le(z, end + 16, 4) + Le(z, end + 12, 4) != end then None
          else ReadMembers(z, entries)
  }

  // ---- round trip ----

  /** What the 32-bit format can hold, for a list fresh from the disk: the sizes are those of the
      files and no offset has been filled in yet. */
  predicate Representable(disk: Disk, files: seq<EntryInfo>) {
    && |files| < 0x1_0000
    && |Archive(disk, files)| < 0x1_0000_0000
    && (files == [] || files[0].offset == 0)
    && forall k :: 0 <= k < |files| ==>
         |files[k].name| < 0x1_0000 && files[k].size == |Content(disk, files[k])|
  }

  function Members(disk: Disk, files: seq<EntryInfo>): seq<Member> {
    seq(|files|, k requires 0 <= k < |files| =>
      Member(files[k].name, Checksum(Content(disk, files[k])), Content(disk, files[k]), 0, files[k].crc))
  }

  function Entry(disk: Disk, files: seq<EntryInfo>, k: nat): DirectoryEntry
    requires k < |files|
  {
    DirectoryEntry(files[k].name, Checksum(Content(disk, files[k])),
                   |Content(disk, files[k])|, Offset(disk, files, k), VERSION_1_0, 0, 0)
  }

  function Entries(disk: Disk, files: seq<EntryInfo>, from: nat): (r: seq<DirectoryEntry>)
    requires from <= |files|
    ensures |r| == |files| - from
  {
    seq(|files| - from, k requires 0 <= k < |files| - from => Entry(disk, files, from + k))
  }

  lemma LocalHeaderFields(info: EntryInfo)
    ensures var h := LocalHeader(info);
      && |h| == 30 + |info.name|
      && h[0..4] == LOCAL_SIGNATURE
      && h[4..6] == [10, 0] && h[6..8] == [8, 0] && h[8..10] == [0, 0] && h[10..14] == [0, 0, 0, 0]
      && h[14..18] == LeBytes(info.crc, 4)
      && h[18..22] == LeBytes(info.size, 4) && h[22..26] == LeBytes(info.size, 4)
      && h[26..28] == LeBytes(|info.name|, 2)
      && h[28..30] == [0, 0]
      && h[30..] == info.name
  {
    hide LeBytes, HeaderBody;
    var front, body := LOCAL_SIGNATURE + [0x0A, 0, 0x08, 0, 0, 0, 0, 0, 0, 0], HeaderBody(info);
    HeaderBodyFields(info);
    assert LocalHeader(info) == front + (body + info.name);
    BodyWithin(front, body, info.name, 0, 4);
    BodyWithin(front, body, info.name, 4, 8);
    BodyWithin(front, body, info.name, 8, 12);
    BodyWithin(front, body, info.name, 12, 14);
    BodyWithin(front, body, info.name, 14, 16);
  }

  lemma HeaderBodyFields(info: EntryInfo)
    ensures var b := HeaderBody(info);
      && |b| == 16 && b[0..4] == LeBytes(info.crc, 4)
      && b[4..8] == LeBytes(info.size, 4) && b[8..12] == LeBytes(info.size, 4)
      && b[12..14] == LeBytes(|info.name|, 2) && b[14..16] == [0, 0]
  {
    hide LeBytes;
  }

  // A field of the body, where it stands in the header.
  lemma BodyWithin(front: seq<byte>, body: seq<byte>, rest: seq<byte>, i: nat, j: nat)
    requires i <= j <= |body|
    ensures (front + (body + rest))[|front| + i..|front| + j] == body[i..j]
  {
  }

  lemma CentralHeaderFields(info: EntryInfo)
    ensures var h := CentralHeader(info);
      && |h| == 46 + |info.name|
      && h[0..4] == CENTRAL_SIGNATURE
      && h[4..6] == [10, 0] && h[6..8] == [10, 0] && h[8..10] == [8, 0] && h[10..12] == [0, 0]
      && h[12..16] == [0, 0, 0, 0]
      && h[16..20] == LeBytes(info.crc, 4)
      && h[20..24] == LeBytes(info.size, 4)
      && h[24..28] == LeBytes(info.size, 4)
      && h[28..30] == LeBytes(|info.name|, 2)
      && h[30..32] == [0, 0] && h[32..34] == [0, 0] && h[34..36] == [0, 0] && h[36..38] == [0, 0]
      && h[38..42] == [0, 0, 0, 0]
      && h[42..46] == LeBytes(info.offset, 4)
      && h[46..] == info.name
  {
    hide LeBytes, HeaderBody;
    var front := CENTRAL_SIGNATURE + [0x0A, 0, 0x0A, 0, 0x08, 0, 0, 0, 0, 0, 0, 0];
    var body, rest := HeaderBody(info), Repeat(0, 10) + LeBytes(info.offset, 4) + info.name;
    HeaderBodyFields(info);
    assert CentralHeader(info) == front + (body + rest);
    BodyWithin(front, body, rest, 0, 4);
    BodyWithin(front, body, rest, 4, 8);
    BodyWithin(front, body, rest, 8, 12);
    BodyWithin(front, body, rest, 12, 14);
    BodyWithin(front, body, rest, 14, 16);
  }

  lemma {:induction false} DescriptorFields(crc: u32, size: u32)
    ensures var d := DataDescriptor(crc, size);
      && |d| == 16
      && d[0..4] == DESCRIPTOR_SIGNATURE
      && d[4..8] == LeBytes(crc, 4) && d[8..12] == LeBytes(size, 4) && d[12..16] == LeBytes(size, 4)
  {
    hide LeBytes;
    var d, c, n := DataDescriptor(crc, size), LeBytes(crc, 4), LeBytes(size, 4);
    assert d == DESCRIPTOR_SIGNATURE + (c + (n + n));
    assert d[12..16] == n;
  }

  lemma {:induction false} EndRecordFields(numFiles: nat, size: nat, offset: nat)
    ensures var e := EndRecord(numFiles, size, offset);
      && |e| == 22
      && e[0..4] == END_SIGNATURE
      && e[4..6] == [0, 0] && e[6..8] == [0, 0]
      && e[8..10] == LeBytes(numFiles, 2)
      && e[10..12] == LeBytes(numFiles, 2)
      && e[12..16] == LeBytes(size, 4) && e[16..20] == LeBytes(offset, 4)
      && e[20..22] == [0, 0]
  {
    hide LeBytes;
  }

  function Little(low: nat, high: nat): nat {
    low + 0x100 * high
  }

  // A field of two or four constant bytes.
  lemma Constant2(z: seq<byte>, off: nat, part: seq<byte>, i: nat, a: byte, b: byte)
    requires At(z, off, part) && i + 2 <= |part| && part[i..i + 2] == [a, b]
    ensures Le(z, off + i, 2) == Little(a, b)
  {
    hide LeValue;
    AtSlice(z, off, part, i, i + 2);
    Value2([a, b]);
  }

  lemma Constant4(z: seq<byte>, off: nat, part: seq<byte>, i: nat, word: seq<byte>)
    requires At(z, off, part) && i + 4 <= |part| && |word| == 4 && part[i..i + 4] == word
    ensures Le(z, off + i, 4) == Little(word[0], word[1]) + 0x1_0000 * Little(word[2], word[3])
  {
    hide LeValue;
    AtSlice(z, off, part, i, i + 4);
    Value4(word);
  }

  lemma {:induction false} Value2(s: seq<byte>)
    requires |s| == 2
    ensures LeValue(s) == Little(s[0], s[1])
  {
    assert s[1..][1..] == [] && s[1..][0] == s[1];
    assert LeValue(s[1..]) == s[1];
  }

  lemma {:induction false} Value4(s: seq<byte>)
    requires |s| == 4
    ensures LeValue(s) == Little(s[0], s[1]) + 0x1_0000 * Little(s[2], s[3])
  {
    var t := s[1..][1..];
    assert t[0] == s[2] && t[1] == s[3] && s[1..][0] == s[1];
    Value2(t);
  }

  lemma ReadEntryAt(z: seq<byte>, pos: nat, info: EntryInfo)
    requires At(z, pos, CentralHeader(info)) && |info.name| < 0x1_0000 && info.size < 0x1_0000_0000
    ensures pos + 46 + |info.name| <= |z| && HasSignature(z, pos, DIRECTORY_HEADER)
    ensures Le(z, pos + 4, 2) == Le(z, pos + 6, 2) == 10 && Le(z, pos + 12, 4) == 0
    ensures Le(z, pos + 8, 2) == 8 && Le(z, pos + 10, 2) == 0 && Le(z, pos + 16, 4) == info.crc
    ensures Le(z, pos + 20, 4) == Le(z, pos + 24, 4) == info.size
    ensures Le(z, pos + 28, 2) == |info.name| && Le(z, pos + 30, 2) == Le(z, pos + 32, 2) == 0
    ensures Le(z, pos + 34, 2) == Le(z, pos + 36, 2) == 0 && Le(z, pos + 38, 4) == 0
    ensures Le(z, pos + 42, 4) == info.offset && z[pos + 46..pos + 46 + |info.name|] == info.name
  {
    hide CentralHeader, LeBytes, Pow256, Le, At;
    CentralHeaderFields(info);
    EntryConstants(z, pos, info);
    EntryNumbers(z, pos, info);
    AtSlice(z, pos, CentralHeader(info), 46, |CentralHeader(info)|);
    AtFits(z, pos, CentralHeader(info));
  }

  lemma AtFits(z: seq<byte>, pos: nat, part: seq<byte>)
    requires At(z, pos, part)
    ensures pos + |part| <= |z|
  {
  }

  lemma EntryConstants(z: seq<byte>, pos: nat, info: EntryInfo)
    requires At(z, pos, CentralHeader(info))
    ensures pos + 46 <= |z| && Le(z, pos, 4) == DIRECTORY_HEADER
    ensures Le(z, pos + 4, 2) == Le(z, pos + 6, 2) == 10 && Le(z, pos + 8, 2) == 8 && Le(z, pos + 10, 2) == 0
    ensures Le(z, pos + 12, 4) == 0 && Le(z, pos + 30, 2) == Le(z, pos + 32, 2) == Le(z, pos + 34, 2) == 0
    ensures Le(z, pos + 36, 2) == 0 && Le(z, pos + 38, 4) == 0
  {
    hide CentralHeader, LeBytes, Le, At;
    var h := CentralHeader(info);
    CentralHeaderFields(info);
    AtFits(z, pos, h);
    Constant4(z, pos, h, 0, CENTRAL_SIGNATURE);
    Constant2(z, pos, h, 4, 10, 0);
    Constant2(z, pos, h, 6, 10, 0);
    Constant2(z, pos, h, 8, 8, 0);
    Constant2(z, pos, h, 10, 0, 0);
    Constant4(z, pos, h, 12, [0, 0, 0, 0]);
    Constant2(z, pos, h, 30, 0, 0);
    Constant2(z, pos, h, 32, 0, 0);
    Constant2(z, pos, h, 34, 0, 0);
    Constant2(z, pos, h, 36, 0, 0);
    Constant4(z, pos, h, 38, [0, 0, 0, 0]);
  }

  lemma EntryNumbers(z: seq<byte>, pos: nat, info: EntryInfo)
    requires At(z, pos, CentralHeader(info)) && |info.name| < 0x1_0000 && info.size < 0x1_0000_0000
    ensures pos + 46 <= |z| && Le(z, pos + 16, 4) == info.crc
    ensures Le(z, pos + 20, 4) == Le(z, pos + 24, 4) == info.size
    ensures Le(z, pos + 28, 2) == |info.name| && Le(z, pos + 42, 4) == info.offset
  {
    hide CentralHeader, LeBytes, Pow256, Le, At;
    var h := CentralHeader(info);
    CentralHeaderFields(info);
    AtFits(z, pos, h);
    PowValues();
    LeAt(z, pos, h, 16, 4, info.crc);
    LeAt(z, pos, h, 20, 4, info.size);
    LeAt(z, pos, h, 24, 4, info.size);
    LeAt(z, pos, h, 28, 2, |info.name|);
    LeAt(z, pos, h, 42, 4, info.offset);
  }

  lemma ReadMemberAt(z: seq<byte>, pos: nat, disk: Disk, info: EntryInfo)
    requires At(z, pos, LocalPart(disk, info)) && |info.name| < 0x1_0000
    requires info.size == |Content(disk, info)| < 0x1_0000_0000
    ensures var content := Content(disk, info);
      ReadMember(z, DirectoryEntry(info.name, Checksum(content), |content|, pos, VERSION_1_0, 0, 0))
      == Some(Member(info.name, Checksum(content), content, 0, info.crc))
  {
    hide LocalHeader, DataDescriptor, Le, Checksum, Content;
    var content := Content(disk, info);
    var h, d := LocalHeader(info), DataDescriptor(Checksum(content), |content| % 0x1_0000_0000);
    AtSplit(z, pos, h + content, d);
    AtSplit(z, pos, h, content);
    ReadLocalHeaderAt(z, pos, info);
    ReadDescriptorAt(z, pos + |h| + |content|, Checksum(content), |content|);
  }

  lemma ReadLocalHeaderAt(z: seq<byte>, pos: nat, info: EntryInfo)
    requires At(z, pos, LocalHeader(info)) && |info.name| < 0x1_0000 && info.size < 0x1_0000_0000
    ensures |LocalHeader(info)| == 30 + |info.name| && pos + 30 + |info.name| <= |z|
    ensures HasSignature(z, pos, LOCAL_HEADER)
    ensures Le(z, pos + 4, 2) == 10 && Le(z, pos + 6, 2) == 8 && Le(z, pos + 8, 2) == 0 && Le(z, pos + 10, 4) == 0
    ensures Le(z, pos + 14, 4) == info.crc && Le(z, pos + 18, 4) == Le(z, pos + 22, 4) == info.size
    ensures Le(z, pos + 26, 2) == |info.name| && Le(z, pos + 28, 2) == 0
    ensures z[pos + 30..pos + 30 + |info.name|] == info.name
  {
    hide LocalHeader, LeBytes, Pow256, Le, At;
    var h := LocalHeader(info);
    LocalHeaderFields(info);
    AtFits(z, pos, h);
    PowValues();
    Constant4(z, pos, h, 0, LOCAL_SIGNATURE);
    Constant2(z, pos, h, 4, 10, 0);
    Constant2(z, pos, h, 6, 8, 0);
    Constant2(z, pos, h, 8, 0, 0);
    Constant4(z, pos, h, 10, [0, 0, 0, 0]);
    Constant2(z, pos, h, 28, 0, 0);
    LeAt(z, pos, h, 14, 4, info.crc);
    LeAt(z, pos, h, 18, 4, info.size);
    LeAt(z, pos, h, 22, 4, info.size);
    LeAt(z, pos, h, 26, 2, |info.name|);
    AtSlice(z, pos, h, 30, |h|);
  }

  lemma ReadDescriptorAt(z: seq<byte>, pos: nat, crc: u32, size: u32)
    requires At(z, pos, DataDescriptor(crc, size))
    ensures pos + 16 <= |z| && HasSignature(z, pos, DESCRIPTOR)
    ensures Le(z, pos + 4, 4) == crc && Le(z, pos + 8, 4) == Le(z, pos + 12, 4) == size
  {
    hide DataDescriptor, LeBytes, Pow256, Le, At;
    var d := DataDescriptor(crc, size);
    DescriptorFields(crc, size);
    AtFits(z, pos, d);
    PowValues();
    Constant4(z, pos, d, 0, DESCRIPTOR_SIGNATURE);
    LeAt(z, pos, d, 4, 4, crc);
    LeAt(z, pos, d, 8, 4, size);
    LeAt(z, pos, d, 12, 4, size);
  }

  lemma ReadDirectoryStep(z: seq<byte>, pos: nat, info: EntryInfo, count: nat)
    requires At(z, pos, CentralHeader(info)) && |info.name| < 0x1_0000 && info.size < 0x1_0000_0000
    requires count > 0
    requires ReadDirectory(z, pos + |CentralHeader(info)|, count - 1).Some?
    ensures var (entries, end) := ReadDirectory(z, pos + |CentralHeader(info)|, count - 1).value;
      ReadDirectory(z, pos, count)
      == Some(([DirectoryEntry(info.name, info.crc, info.size, info.offset, VERSION_1_0, 0, 0)] + entries, end))
  {
    hide CentralHeader, Le;
    ReadEntryAt(z, pos, info);
    CentralHeaderFields(info);
  }

  /** Walking the directory from header `from` on finds every remaining entry, with the offset at
      which its local part really stands. */
  lemma {:induction false} ReadDirectoryAt(z: seq<byte>, base: nat, disk: Disk, files: seq<EntryInfo>, from: nat)
    requires Representable(disk, files) && from <= |files|
    requires At(z, base, Concat(CentralHeaders(Final(disk, files))))
    ensures var headers := CentralHeaders(Final(disk, files));
      ReadDirectory(z, base + Start(headers, from), |files| - from)
      == Some((Entries(disk, files, from), base + |Concat(headers)|))
    decreases |files| - from
  {
    hide CentralHeader, LocalPart, Checksum, Content, Archive, LeBytes, Entries, Final, Pow256, ReadDirectory;
    var infos := Final(disk, files);
    var headers := CentralHeaders(infos);
    if from == |files| {
      StartTotal(headers);
      NoMoreEntries(z, base + Start(headers, from), disk, files);
    } else {
      ReadDirectoryAt(z, base, disk, files, from + 1);
      PartAt(headers, from);
      AtTrans(z, base, Concat(headers), Start(headers, from), headers[from]);
      FinalEntry(disk, files, from);
      ReadDirectoryStep(z, base + Start(headers, from), infos[from], |files| - from);
      EntriesStep(disk, files, from);
    }
  }

  lemma {:induction false} NoMoreEntries(z: seq<byte>, pos: nat, disk: Disk, files: seq<EntryInfo>)
    ensures ReadDirectory(z, pos, 0) == Some((Entries(disk, files, |files|), pos))
  {
    assert Entries(disk, files, |files|) == [];
  }

  lemma EntriesStep(disk: Disk, files: seq<EntryInfo>, from: nat)
    requires from < |files|
    ensures Entries(disk, files, from) == [Entry(disk, files, from)] + Entries(disk, files, from + 1)
    ensures Entries(disk, files, from)[1..] == Entries(disk, files, from + 1)
  {
    hide Entry;
  }

  lemma FinalEntry(disk: Disk, files: seq<EntryInfo>, k: nat)
    requires Representable(disk, files) && k < |files|
    ensures Offset(disk, files, k) + |LocalPart(disk, files[k])| <= |Archive(disk, files)|
    ensures |Content(disk, files[k])| < 0x1_0000_0000
    ensures Final(disk, files)[k]
            == files[k].(crc := Checksum(Content(disk, files[k])), offset := Offset(disk, files, k))
  {
    hide LocalHeader, DataDescriptor, Checksum, DirectoryAndEnd, Content;
    TailLen(disk, files, k);
    ConcatFrom(LocalParts(disk, files), k);
  }

  lemma {:induction false} ReadMembersAt(z: seq<byte>, disk: Disk, files: seq<EntryInfo>, from: nat)
    requires Representable(disk, files) && from <= |files|
    requires At(z, 0, Concat(LocalParts(disk, files)))
    ensures ReadMembers(z, Entries(disk, files, from)) == Some(Members(disk, files)[from..])
    decreases |files| - from
  {
    hide LocalPart, Checksum, Content, ReadMember, Archive;
    if from == |files| {
      assert Members(disk, files)[from..] == [];
    } else {
      ReadMembersAt(z, disk, files, from + 1);
      PartAt(LocalParts(disk, files), from);
      AtTrans(z, 0, Concat(LocalParts(disk, files)), Offset(disk, files, from), LocalPart(disk, files[from]));
      FinalEntry(disk, files, from);
      ReadMemberAt(z, Offset(disk, files, from), disk, files[from]);
      EntriesStep(disk, files, from);
      assert Members(disk, files)[from..] == [Members(disk, files)[from]] + Members(disk, files)[from + 1..];
    }
  }

  // The signature, the two disk numbers and the length of the comment.
  lemma EndRecordMarks(z: seq<byte>, end: nat, numFiles: nat, size: nat, offset: nat)
    requires At(z, end, EndRecord(numFiles, size, offset)) && |z| == end + 22
    ensures HasSignature(z, end, END_RECORD)
    ensures Le(z, end + 4, 2) == 0 && Le(z, end + 6, 2) == 0 && Le(z, end + 20, 2) == 0
  {
    hide EndRecord, LeBytes, Le, At;
    var e := EndRecord(numFiles, size, offset);
    EndRecordFields(numFiles, size, offset);
    Constant4(z, end, e, 0, END_SIGNATURE);
    Constant2(z, end, e, 4, 0, 0);
    Constant2(z, end, e, 6, 0, 0);
    Constant2(z, end, e, 20, 0, 0);
  }

  // The count, twice, and size and offset of the directory.
  lemma EndRecordNumbers(z: seq<byte>, end: nat, numFiles: nat, size: nat, offset: nat)
    requires At(z, end, EndRecord(numFiles, size, offset)) && |z| == end + 22
    requires numFiles < 0x1_0000 && size < 0x1_0000_0000 && offset < 0x1_0000_0000
    ensures Le(z, end + 8, 2) == Le(z, end + 10, 2) == numFiles
    ensures Le(z, end + 12, 4) == size && Le(z, end + 16, 4) == offset
  {
    hide EndRecord, LeBytes, LeValue, Pow256, Le, At;
    var e := EndRecord(numFiles, size, offset);
    EndRecordFields(numFiles, size, offset);
    PowValues();
    LeAt(z, end, e, 8, 2, numFiles);
    LeAt(z, end, e, 10, 2, numFiles);
    LeAt(z, end, e, 12, 4, size);
    LeAt(z, end, e, 16, 4, offset);
  }

  lemma {:induction false} EndRecordAt(z: seq<byte>, end: nat, numFiles: nat, size: nat, offset: nat)
    requires At(z, end, EndRecord(numFiles, size, offset)) && |z| == end + 22
    requires numFiles < 0x1_0000 && size < 0x1_0000_0000 && offset < 0x1_0000_0000
    ensures FindEndRecord(z, end) == Some(end)
    ensures Le(z, end + 8, 2) == Le(z, end + 10, 2) == numFiles
    ensures Le(z, end + 12, 4) == size && Le(z, end + 16, 4) == offset
  {
    hide EndRecord, Le, HasSignature, At;
    EndRecordMarks(z, end, numFiles, size, offset);
    EndRecordNumbers(z, end, numFiles, size, offset);
  }

  // Local parts, directory and end record, one behind the other.
  lemma ArchiveParts(disk: Disk, files: seq<EntryInfo>)
    ensures var z, locals := Archive(disk, files), Concat(LocalParts(disk, files));
      var directory := Concat(CentralHeaders(Final(disk, files)));
      var end := EndRecord(|files|, |directory|, |locals|);
      && At(z, 0, locals) && At(z, |locals|, directory) && At(z, |locals| + |directory|, end)
      && |z| == |locals| + |directory| + 22
  {
    hide LocalPart, CentralHeader, EndRecord, Final, Concat, At, Start;
    var z := Archive(disk, files);
    var locals, directory := Concat(LocalParts(disk, files)), Concat(CentralHeaders(Final(disk, files)));
    var end := EndRecord(|files|, |directory|, |locals|);
    StartTotal(LocalParts(disk, files));
    EndRecordFields(|files|, |directory|, |locals|);
    assert LocalParts(disk, files)[0..] == LocalParts(disk, files);
    assert z == locals + (directory + end);
    AtWhole(z);
    AtSplit(z, 0, locals, directory + end);
    AtSplit(z, |locals|, directory, end);
  }

  lemma AtWhole(z: seq<byte>)
    ensures At(z, 0, z)
  {
  }

  /** Reading the archive back recovers names, checksums and contents of all files in order: every
      offset and checksum the encoder patched in while streaming is the true one. */
  lemma RoundTrip(disk: Disk, files: seq<EntryInfo>)
    requires Representable(disk, files)
    ensures ReadArchive(Archive(disk, files)) == Some(Members(disk, files))
  {
    hide LocalParts, CentralHeaders, EndRecord, Checksum, Content, Le, ReadDirectory, FindEndRecord, ReadMembers,
         Archive, At, Final, Offset, Start, Concat, Entries, Members;
    var z := Archive(disk, files);
    var locals := Concat(LocalParts(disk, files));
    var headers := CentralHeaders(Final(disk, files));
    var directory := Concat(headers);
    ArchiveParts(disk, files);
    FirstStart(headers);
    EndRecordAt(z, |locals| + |directory|, |files|, |directory|, |locals|);
    ReadDirectoryAt(z, |locals|, disk, files, 0);
    ReadMembersAt(z, disk, files, 0);
    assert Members(disk, files)[0..] == Members(disk, files);
  }

  lemma {:induction false} FirstStart(parts: seq<seq<byte>>)
    ensures Start(parts, 0) == 0
  {
  }

  lemma {:induction false} SizesAddUp(disk: Disk, files: seq<EntryInfo>)
    requires forall k :: 0 <= k < |files| ==> files[k].size == |Content(disk, files[k])|
    ensures ContentTotal(disk, files) == SizeTotal(files)
  {
    if files != [] {
      assert forall k :: 0 <= k < |files| - 1 ==> files[1..][k] == files[k + 1];
      SizesAddUp(disk, files[1..]);
    }
  }

  /** End to end: announce a length, stream with buffers of any sizes, and open what arrived. A client
      that was told the stream is over has exactly the announced number of bytes, and they open to
      exactly the files that were listed. */
  method Transfer(disk: Disk, files: seq<EntryInfo>, sizes: seq<nat>)
    returns (announced: nat, delivered: seq<byte>, complete: bool, members: Option<seq<Member>>)
    requires Representable(disk, files)
    ensures |delivered| <= announced
    ensures complete ==> |delivered| == announced && members == Some(Members(disk, files))
  {
    hide Archive, ReadArchive, StreamLen;
    announced := StreamLen(files);
    var errors: nat;
    delivered, complete, errors := ZipEncoder.Collect(disk, files, sizes);
    members := ReadArchive(delivered);
    RoundTrip(disk, files);
    SizesAddUp(disk, files);
    ArchiveLength(disk, files);
  }
}
