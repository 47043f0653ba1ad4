/** The byte layout of an uncompressed ZIP stream: what each header holds, where each part starts,
    and how long the whole stream is before a single byte of it exists. */
module ZipFormat {
  import opened Bytes
  import opened Crc32

  type Path = string
  type Disk = map<Path, seq<byte>>

  datatype EntryInfo = EntryInfo(path: Path, name: seq<byte>, size: u64, offset: u32, crc: u32)

  const LOCAL_FILE_HEADER_SIZE: nat := 30
  const DIRECTORY_HEADER_SIZE: nat := 46
  const DATA_DESCRIPTOR_SIZE: nat := 16
  const END_OF_CENTRAL_DIRECTORY_SIZE: nat := 22

  const LOCAL_SIGNATURE: seq<byte> := [0x50, 0x4B, 0x03, 0x04]
  const CENTRAL_SIGNATURE: seq<byte> := [0x50, 0x4B, 0x01, 0x02]
  const DESCRIPTOR_SIGNATURE: seq<byte> := [0x50, 0x4B, 0x07, 0x08]
  const END_SIGNATURE: seq<byte> := [0x50, 0x4B, 0x05, 0x06]

  // Checksum, sizes, name length and (zero) extra length: common to both kinds of header.
  function HeaderBody(info: EntryInfo): seq<byte> {
    LeBytes(info.crc, 4) + LeBytes(info.size, 4) + LeBytes(info.size, 4)
    + LeBytes(|info.name|, 2) + [0, 0]
  }

  /** Version 10, flag bit 3 (a data descriptor follows), stored, no modification time. */
  function LocalHeader(info: EntryInfo): seq<byte> {
    LOCAL_SIGNATURE + [0x0A, 0, 0x08, 0, 0, 0, 0, 0, 0, 0] + HeaderBody(info) + info.name
  }

  function CentralHeader(info: EntryInfo): seq<byte> {
    CENTRAL_SIGNATURE + [0x0A, 0, 0x0A, 0, 0x08, 0, 0, 0, 0, 0, 0, 0] + HeaderBody(info)
    + Repeat(0, 10) + LeBytes(info.offset, 4) + info.name
  }

  function DataDescriptor(crc: u32, size: u32): seq<byte> {
    DESCRIPTOR_SIGNATURE + LeBytes(crc, 4) + LeBytes(size, 4) + LeBytes(size, 4)
  }

  function EndRecord(numFiles: nat, size: nat, offset: nat): seq<byte> {
    END_SIGNATURE + [0, 0, 0, 0] + LeBytes(numFiles, 2) + LeBytes(numFiles, 2)
    + LeBytes(size, 4) + LeBytes(offset, 4) + [0, 0]
  }

  // ---- announced lengths ----

  function StreamLenForFile(info: EntryInfo): nat {
    (LOCAL_FILE_HEADER_SIZE + |info.name|) + info.size + DATA_DESCRIPTOR_SIZE
    + (DIRECTORY_HEADER_SIZE + |info.name|)
  }

  function SumStreamLen(files: seq<EntryInfo>): nat {
    if files == [] then 0 else StreamLenForFile(files[0]) + SumStreamLen(files[1..])
  }

  function StreamLen(files: seq<EntryInfo>): nat {
    SumStreamLen(files) + END_OF_CENTRAL_DIRECTORY_SIZE
  }

  lemma {:induction false} SumStreamLenAppend(a: seq<EntryInfo>, b: seq<EntryInfo>)
    ensures SumStreamLen(a + b) == SumStreamLen(a) + SumStreamLen(b)
  {
    if a == [] {
      assert a + b == b;
    } else {
      assert (a + b)[1..] == a[1..] + b;
      SumStreamLenAppend(a[1..], b);
    }
  }

  // ---- the one-shot archive ----

  /** What reading the file yields; a file that cannot be opened has no contents. */
  function Content(disk: Disk, info: EntryInfo): seq<byte> {
    if info.path in disk then disk[info.path] else []
  }

  /** Header, contents and data descriptor of one file. */
  function LocalPart(disk: Disk, info: EntryInfo): seq<byte> {
    var content := Content(disk, info);
    LocalHeader(info) + content + DataDescriptor(Checksum(content), |content| % 0x1_0000_0000)
  }

  function LocalParts(disk: Disk, files: seq<EntryInfo>): (r: seq<seq<byte>>)
    ensures |r| == |files|
  {
    seq(|files|, k requires 0 <= k < |files| => LocalPart(disk, files[k]))
  }

  /** Where the `k`-th local part starts; for `k == |files|`, where the central directory does. */
  function Offset(disk: Disk, files: seq<EntryInfo>, k: nat): nat
    requires k <= |files|
  {
    Start(LocalParts(disk, files), k)
  }

  /** The offset recorded for a file. The first file keeps the one it came with. */
  function RecordedOffset(disk: Disk, files: seq<EntryInfo>, k: nat): u32
    requires k < |files|
  {
    if k == 0 then files[0].offset else Offset(disk, files, k) % 0x1_0000_0000
  }

  /** The table of entries once every local part has been written. */
  function Final(disk: Disk, files: seq<EntryInfo>): (r: seq<EntryInfo>)
    ensures |r| == |files|
  {
    seq(|files|, k requires 0 <= k < |files| =>
      files[k].(crc := Checksum(Content(disk, files[k])), offset := RecordedOffset(disk, files, k)))
  }

  function CentralHeaders(infos: seq<EntryInfo>): (r: seq<seq<byte>>)
    ensures |r| == |infos|
  {
    seq(|infos|, k requires 0 <= k < |infos| => CentralHeader(infos[k]))
  }

  /** Everything from the `k`-th local part to the end of the stream. */
  function Tail(disk: Disk, files: seq<EntryInfo>, k: nat): seq<byte>
    requires k <= |files|
  {
    Concat(LocalParts(disk, files)[k..]) + DirectoryAndEnd(disk, files)
  }

  function DirectoryAndEnd(disk: Disk, files: seq<EntryInfo>): seq<byte> {
    var directory := Concat(CentralHeaders(Final(disk, files)));
    directory + EndRecord(|files|, |directory|, Offset(disk, files, |files|))
  }

  function Archive(disk: Disk, files: seq<EntryInfo>): seq<byte> {
    Tail(disk, files, 0)
  }

  // ---- lengths ----

  /** The bytes still to come tell the position, because the total is fixed. */
  lemma TailLen(disk: Disk, files: seq<EntryInfo>, k: nat)
    requires k <= |files|
    ensures Offset(disk, files, k) + |Tail(disk, files, k)| == |Archive(disk, files)|
  {
    var parts := LocalParts(disk, files);
    StartConcat(parts, k);
    StartConcat(parts, 0);
  }

  function ContentTotal(disk: Disk, files: seq<EntryInfo>): nat {
    if files == [] then 0 else |Content(disk, files[0])| + ContentTotal(disk, files[1..])
  }

  function SizeTotal(files: seq<EntryInfo>): nat {
    if files == [] then 0 else files[0].size + SizeTotal(files[1..])
  }

  // Local parts and directory headers together, file by file.
  lemma {:induction false} PartsLen(disk: Disk, files: seq<EntryInfo>, headers: seq<EntryInfo>)
    requires |headers| == |files|
    requires forall k :: 0 <= k < |files| ==> headers[k].name == files[k].name
    ensures |Concat(LocalParts(disk, files))| + |Concat(CentralHeaders(headers))| + SizeTotal(files)
            == SumStreamLen(files) + ContentTotal(disk, files)
  {
    hide LocalHeader, CentralHeader, Checksum, LeBytes;
    if files != [] {
      assert LocalParts(disk, files)[1..] == LocalParts(disk, files[1..]);
      assert CentralHeaders(headers)[1..] == CentralHeaders(headers[1..]);
      PartsLen(disk, files[1..], headers[1..]);
      HeaderLen(files[0]);
      HeaderLen(headers[0]);
    }
  }

  lemma HeaderLen(info: EntryInfo)
    ensures |LocalHeader(info)| == LOCAL_FILE_HEADER_SIZE + |info.name|
    ensures |CentralHeader(info)| == DIRECTORY_HEADER_SIZE + |info.name|
  {
  }

  /** The announced length is the delivered length exactly when the files still add up to the sizes
      they had when the list was made. */
  lemma {:induction false} ArchiveLength(disk: Disk, files: seq<EntryInfo>)
    ensures |Archive(disk, files)| + SizeTotal(files) == StreamLen(files) + ContentTotal(disk, files)
    ensures |Archive(disk, files)| == StreamLen(files)
            <==> ContentTotal(disk, files) == SizeTotal(files)
  {
    PartsLen(disk, files, Final(disk, files));
    assert LocalParts(disk, files)[0..] == LocalParts(disk, files);
  }
}
