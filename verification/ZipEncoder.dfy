/** The streaming encoder. It never holds the archive: every read fills the caller's buffer from the
    part it has reached, patching offsets and checksums into the entry table on the way. The ghost
    view is the not yet delivered rest of the one-shot archive. */
module ZipEncoder {
  import opened Bytes
  import opened Crc32
  import opened ZipFormat

  datatype IoResult = Ok(n: nat) | Err

  /** A byte string with a read position; also what an open file is. */
  datatype Cursor = Cursor(data: seq<byte>, pos: nat) {
    ghost predicate Valid() { pos <= |data| }

    ghost function Rest(): seq<byte>
      requires Valid()
    {
      data[pos..]
    }
  }

  method Fill(data: seq<byte>, buf: array<byte>)
    requires |data| <= buf.Length
    modifies buf
    ensures buf[..|data|] == data
    ensures buf[|data|..] == old(buf[|data|..])
  {
    forall i | 0 <= i < |data| {
      buf[i] := data[i];
    }
  }

  // An in-memory cursor gives as much as fits.
  method ReadCursor(cursor: Cursor, buf: array<byte>) returns (n: nat, cursor': Cursor)
    requires cursor.Valid()
    modifies buf
    ensures n == if |cursor.Rest()| < buf.Length then |cursor.Rest()| else buf.Length
    ensures cursor' == cursor.(pos := cursor.pos + n)
    ensures cursor.Rest() == buf[..n] + cursor'.Rest()
    ensures buf[n..] == old(buf[n..])
  {
    n := if |cursor.data| - cursor.pos < buf.Length then |cursor.data| - cursor.pos else buf.Length;
    Fill(cursor.data[cursor.pos..cursor.pos + n], buf);
    cursor' := cursor.(pos := cursor.pos + n);
  }

  // The same, seen as progress along a target string of which the cursor holds the next bytes.
  method ReadHeader(cursor: Cursor, buf: array<byte>, ghost target: seq<byte>, ghost pos: nat, ghost tail: seq<byte>)
    returns (n: nat, cursor': Cursor)
    requires cursor.Valid() && pos <= |target| && target[pos..] == cursor.Rest() + tail
    modifies buf
    ensures cursor'.Valid() && n <= buf.Length && pos + n <= |target|
    ensures target[pos..] == buf[..n] + target[pos + n..]
    ensures target[pos + n..] == cursor'.Rest() + tail
    ensures n == 0 && buf.Length > 0 ==> cursor'.Rest() == []
  {
    n, cursor' := ReadCursor(cursor, buf);
    SplitAfter(cursor.Rest(), buf[..n], cursor'.Rest(), tail);
    Deliver(target, pos, buf[..n], cursor'.Rest() + tail);
  }

  // A file may give fewer bytes than asked for, or fail; it gives none only at its end.
  method ReadFile(file: Cursor, buf: array<byte>) returns (r: IoResult, file': Cursor)
    requires file.Valid()
    modifies buf
    ensures r.Err? ==> file' == file && buf[..] == old(buf[..])
    ensures r.Ok? ==> r.n <= buf.Length && file' == file.(pos := file.pos + r.n) && file'.Valid()
    ensures r.Ok? ==> file.Rest() == buf[..r.n] + file'.Rest() && buf[r.n..] == old(buf[r.n..])
    ensures r.Ok? && r.n == 0 && buf.Length > 0 ==> file.Rest() == []
  {
    var failed: bool := *;
    if failed {
      return Err, file;
    }
    var most := if |file.data| - file.pos < buf.Length then |file.data| - file.pos else buf.Length;
    var n: nat := *;
    n := if most == 0 then 0 else 1 + n % most;
    Fill(file.data[file.pos..file.pos + n], buf);
    return Ok(n), file.(pos := file.pos + n);
  }

  datatype LocalState =
    | Header(cursor: Cursor, file: Cursor)
    | Data(file: Cursor, register: bv32, amount: u32)
    | Descriptor(cursor: Cursor, crc: u32)
    | Finished(crc: u32)

  /** Streams header, contents and data descriptor of one file, computing the checksum as the
      contents pass by. */
  class LocalFileReader {
    ghost const content: seq<byte>
    var state: LocalState

    ghost predicate Valid()
      reads this
    {
      match state
      case Header(cursor, file) => cursor.Valid() && file == Cursor(content, 0)
      case Data(file, register, amount) =>
        && file.Valid() && file.data == content
        && register == Update(PRESET, content[..file.pos])
        && amount == file.pos % 0x1_0000_0000
      case Descriptor(cursor, crc) => cursor.Valid() && crc == Checksum(content)
      case Finished(crc) => crc == Checksum(content)
    }

    ghost function Remaining(): seq<byte>
      requires Valid()
      reads this
    {
      var descriptor := DataDescriptor(Checksum(content), |content| % 0x1_0000_0000);
      match state
      case Header(cursor, file) => cursor.Rest() + content + descriptor
      case Data(file, _, _) => file.Rest() + descriptor
      case Descriptor(cursor, _) => cursor.Rest()
      case Finished(_) => []
    }

    constructor (info: EntryInfo, file: seq<byte>)
      ensures Valid() && content == file
      ensures Remaining() == LocalHeader(info) + file + DataDescriptor(Checksum(file), |file| % 0x1_0000_0000)
    {
      content := file;
      state := Header(Cursor(LocalHeader(info), 0), Cursor(file, 0));
    }

    function Crc(): Option<u32>
      reads this
    {
      if state.Finished? then Some(state.crc) else None
    }

    method Read(buf: array<byte>) returns (r: IoResult)
      requires Valid()
      modifies this, buf
      ensures Valid()
      ensures r.Err? ==> Remaining() == old(Remaining())
      ensures r.Ok? ==> r.n <= buf.Length && old(Remaining()) == buf[..r.n] + Remaining()
      ensures r.Ok? && r.n == 0 && buf.Length > 0 ==> state.Finished?
    {
      hide LocalHeader, DataDescriptor, Checksum, Update, Remaining;
      while true
        invariant Valid() && Remaining() == old(Remaining())
        decreases Phase()
      {
        if state.Finished? {
          return Ok(0);
        }
        match state {
          case Header(_, _) => r := ReadHeaderPart(buf);
          case Data(file, register, amount) => r := ReadData(buf, file, register, amount);
          case Descriptor(_, _) => r := ReadDescriptorPart(buf);
        }
        if r.Err? || r.n > 0 || buf.Length == 0 {
          return;
        }
        NothingRead(buf);
        match state {
          case Header(_, _) => BeginData();
          case Data(_, _, _) => BeginDescriptor();
          case Descriptor(_, _) => End();
        }
      }
    }

    ghost function Phase(): nat
      reads this
    {
      match state
      case Header(_, _) => 3
      case Data(_, _, _) => 2
      case Descriptor(_, _) => 1
      case Finished(_) => 0
    }

    method ReadHeaderPart(buf: array<byte>) returns (r: IoResult)
      requires Valid() && state.Header?
      modifies this, buf
      ensures Valid() && state.Header? && r.Ok? && r.n <= buf.Length
      ensures old(Remaining()) == buf[..r.n] + Remaining()
      ensures r.n == 0 && buf.Length > 0 ==> state.cursor.Rest() == []
    {
      hide DataDescriptor, Checksum, Update;
      ghost var descriptor := DataDescriptor(Checksum(content), |content| % 0x1_0000_0000);
      ghost var before := state.cursor;
      var n, cursor' := ReadCursor(state.cursor, buf);
      state := Header(cursor', state.file);
      SplitTwice(before.Rest(), buf[..n], cursor'.Rest(), content, descriptor);
      return Ok(n);
    }

    method BeginData()
      requires Valid() && state.Header? && state.cursor.Rest() == []
      modifies this
      ensures Valid() && state.Data? && Remaining() == old(Remaining())
    {
      hide DataDescriptor, Checksum, Update;
      ChecksumBegins(content);
      assert [] + content == content;
      state := Data(state.file, PRESET, 0);
    }

    method BeginDescriptor()
      requires Valid() && state.Data? && state.file.pos == |content|
      modifies this
      ensures Valid() && state.Descriptor? && Remaining() == old(Remaining())
    {
      hide DataDescriptor, Checksum, Update;
      ChecksumEnds(content, state.file.pos);
      var crc := Finish(state.register);
      ghost var descriptor := DataDescriptor(crc, state.amount);
      assert [] + descriptor == descriptor && descriptor[0..] == descriptor;
      state := Descriptor(Cursor(DataDescriptor(crc, state.amount), 0), crc);
    }

    method ReadDescriptorPart(buf: array<byte>) returns (r: IoResult)
      requires Valid() && state.Descriptor?
      modifies this, buf
      ensures Valid() && state.Descriptor? && r.Ok? && r.n <= buf.Length
      ensures old(Remaining()) == buf[..r.n] + Remaining()
      ensures r.n == 0 && buf.Length > 0 ==> state.cursor.Rest() == []
    {
      hide DataDescriptor, Checksum, Update;
      var n, cursor' := ReadCursor(state.cursor, buf);
      state := Descriptor(cursor', state.crc);
      return Ok(n);
    }

    method End()
      requires Valid() && state.Descriptor? && state.cursor.Rest() == []
      modifies this
      ensures Valid() && state.Finished? && Remaining() == old(Remaining())
    {
      hide DataDescriptor, Checksum, Update;
      state := Finished(state.crc);
    }

    // The checksumming reader: passes file bytes through, folding them into the register.
    method ReadData(buf: array<byte>, file: Cursor, register: bv32, amount: u32) returns (r: IoResult)
      requires Valid() && state == Data(file, register, amount)
      modifies this, buf
      ensures Valid() && state.Data?
      ensures r.Err? ==> state == old(state) && Remaining() == old(Remaining())
      ensures r.Ok? ==> r.n <= buf.Length && state.file == file.(pos := file.pos + r.n)
      ensures r.Ok? ==> old(Remaining()) == buf[..r.n] + Remaining()
      ensures r.Ok? && r.n == 0 && buf.Length > 0 ==> state.file.pos == |content|
    {
      hide LocalHeader, DataDescriptor, Checksum, Update;
      var file';
      r, file' := ReadFile(file, buf);
      if r.Ok? {
        var chunk := buf[..r.n];
        state := Data(file', Update(register, chunk), (amount + r.n) % 0x1_0000_0000);
        assert content[file.pos..] == chunk + content[file'.pos..];
        Absorb(content, file.pos, chunk);
        AmountStep(file.pos, r.n);
        SplitAfter(file.Rest(), chunk, file'.Rest(), DataDescriptor(Checksum(content), |content| % 0x1_0000_0000));
      }
    }
  }

  lemma NothingRead(buf: array<byte>)
    ensures forall s: seq<byte> :: buf[..0] + s == s
  {
  }

  lemma SplitTwice(whole: seq<byte>, first: seq<byte>, rest: seq<byte>, middle: seq<byte>, tail: seq<byte>)
    requires whole == first + rest
    ensures whole + middle + tail == first + (rest + middle + tail)
  {
  }

  lemma {:induction false} Absorb(content: seq<byte>, pos: nat, chunk: seq<byte>)
    requires pos + |chunk| <= |content| && content[pos..] == chunk + content[pos + |chunk|..]
    ensures Update(PRESET, content[..pos + |chunk|]) == Update(Update(PRESET, content[..pos]), chunk)
  {
    hide Update;
    assert content[pos..][..|chunk|] == chunk;
    assert content[..pos + |chunk|] == content[..pos] + chunk;
    UpdateAppend(PRESET, content[..pos], chunk);
  }

  lemma ChecksumBegins(content: seq<byte>)
    ensures Update(PRESET, content[..0]) == PRESET && content[0..] == content
  {
  }

  lemma ChecksumEnds(content: seq<byte>, pos: nat)
    requires pos == |content|
    ensures Finish(Update(PRESET, content[..pos])) == Checksum(content) && content[pos..] == []
  {
    assert content[..pos] == content;
  }

  lemma AmountStep(pos: nat, n: nat)
    ensures (pos + n) % 0x1_0000_0000 == (pos % 0x1_0000_0000 + n) % 0x1_0000_0000
  {
  }

  datatype EncoderState =
    | Init
    | LocalFiles(index: nat, reader: LocalFileReader)
    | CentralDirectory(index: nat, startOffset: nat, cursor: Cursor)
    | EndOfCentralDirectory(cursor: Cursor)
    | Done

  class Encoder {
    const disk: Disk
    ghost const source: seq<EntryInfo>
    var files: seq<EntryInfo>
    var state: EncoderState
    var bytesWritten: nat

    ghost function Target(): seq<byte> {
      Archive(disk, source)
    }

    ghost function Footprint(): set<object>
      reads this
    {
      {this} + if state.LocalFiles? then {state.reader} else {}
    }

    // Entries before `i` are final, entry `i` has its offset, later ones still have their checksum
    // field untouched (their offset is written on arrival).
    ghost predicate TableAt(i: nat)
      reads `files
    {
      && |files| == |source|
      && forall j :: 0 <= j < |files| ==>
           && SameFile(files[j], source[j])
           && (j < i ==> files[j] == Final(disk, source)[j])
           && (j == i ==> files[j].offset == Final(disk, source)[j].offset)
           && (j > i ==> files[j].crc == source[j].crc)
    }

    ghost predicate Valid()
      reads this, Footprint()
    {
      && bytesWritten <= |Target()|
      && match state
         case Init => bytesWritten == 0 && files == source
         case LocalFiles(i, reader) =>
           && i < |source| && TableAt(i)
           && reader.Valid() && reader.content == Content(disk, source[i])
           && reader.Remaining() + Tail(disk, source, i + 1) == Undelivered()
         case CentralDirectory(i, start, cursor) =>
           && i < |source| && files == Final(disk, source) && cursor.Valid()
           && start == Offset(disk, source, |source|)
           && cursor.Rest() + DirectoryTail(disk, source, i + 1) == Undelivered()
         case EndOfCentralDirectory(cursor) => cursor.Valid() && cursor.Rest() == Undelivered()
         case Done => Undelivered() == []
    }

    ghost function Undelivered(): seq<byte>
      requires bytesWritten <= |Target()|
      reads this
    {
      Target()[bytesWritten..]
    }

    ghost function Rank(): nat
      reads this
    {
      match state
      case Init => 2 * |source| + 3
      case LocalFiles(i, _) => if i < |source| then 2 * |source| + 2 - i else 0
      case CentralDirectory(i, _, _) => if i < |source| then |source| + 1 - i else 0
      case EndOfCentralDirectory(_) => 1
      case Done => 0
    }

    constructor (disk: Disk, files: seq<EntryInfo>)
      ensures Valid() && Footprint() == {this}
      ensures this.disk == disk && source == files && bytesWritten == 0
      ensures Undelivered() == Archive(disk, files)
    {
      this.disk := disk;
      this.source := files;
      this.files := files;
      this.state := Init;
      this.bytesWritten := 0;
    }

    /** Opens the file of entry `index`; the open can always fail. */
    method NewLocalFilesState(index: nat) returns (r: Option<LocalFileReader>)
      requires index < |files|
      ensures r.Some? ==> fresh(r.value) && r.value.Valid()
                          && r.value.content == Content(disk, files[index])
                          && r.value.Remaining() == LocalPart(disk, files[index])
    {
      var failed: bool := *;
      if failed || files[index].path !in disk {
        return None;
      }
      var reader := new LocalFileReader(files[index], disk[files[index].path]);
      return Some(reader);
    }

    function NewEndState(startOffset: nat): EncoderState
      requires startOffset <= bytesWritten
      reads this
    {
      EndOfCentralDirectory(Cursor(EndRecord(|files|, bytesWritten - startOffset, startOffset), 0))
    }

    function NewCentralDirectoryState(index: nat, startOffset: nat): EncoderState
      requires index < |files|
      reads this
    {
      CentralDirectory(index, startOffset, Cursor(CentralHeader(files[index]), 0))
    }

    /** Fills a prefix of the buffer with the next bytes of the archive. Zero bytes into a non-empty
        buffer means the archive is complete; an error loses nothing. */
    method Read(buf: array<byte>) returns (r: IoResult)
      requires Valid()
      modifies Footprint(), buf
      ensures Valid() && fresh(Footprint() - old(Footprint()))
      ensures r.Err? ==> bytesWritten == old(bytesWritten)
      ensures r.Ok? ==> r.n <= buf.Length && bytesWritten == old(bytesWritten) + r.n
      ensures r.Ok? ==> old(Undelivered()) == buf[..r.n] + Undelivered()
      ensures r.Ok? && r.n == 0 && buf.Length > 0 ==> Undelivered() == []
    {
      hide LocalHeader, CentralHeader, EndRecord, DataDescriptor, Archive, Tail, DirectoryTail, Final, Offset,
           LocalPart, Update, Checksum, Content, TableAt;
      while true
        invariant Valid() && fresh(Footprint() - old(Footprint()))
        invariant bytesWritten == old(bytesWritten)
        decreases Rank()
      {
        if state.Init? {
          var started := Begin();
          if !started {
            return Err;
          }
          continue;
        }
        if state.Done? {
          return Ok(0);
        }
        r := ReadPart(buf);
        if r.Err? || r.n > 0 || buf.Length == 0 {
          return;
        }
        var advanced := Advance();
        if !advanced {
          return Err;
        }
      }
    }

    // Reads into a fresh buffer of the given size.
    method ReadUpTo(size: nat) returns (r: IoResult, chunk: seq<byte>)
      requires Valid()
      modifies Footprint()
      ensures Valid() && fresh(Footprint() - old(Footprint()))
      ensures r.Err? ==> Undelivered() == old(Undelivered())
      ensures r.Ok? ==> r.n == |chunk| && old(Undelivered()) == chunk + Undelivered()
      ensures r.Ok? && chunk == [] && size > 0 ==> Undelivered() == []
    {
      hide Archive, Tail, DirectoryTail, Final, Offset, LocalPart, Update, Checksum, Content, LocalHeader, EndRecord;
      var buf := new byte[size];
      r := Read(buf);
      chunk := if r.Ok? then buf[..r.n] else [];
    }

    method Begin() returns (ok: bool)
      requires Valid() && state.Init?
      modifies this
      ensures Valid() && fresh(Footprint() - old(Footprint()))
      ensures bytesWritten == old(bytesWritten)
      ensures !ok ==> state == old(state) && files == old(files)
      ensures ok ==> Rank() < old(Rank())
    {
      hide LocalHeader, CentralHeader, DataDescriptor, EndRecord, LocalPart, Update, Checksum, Content, Archive;
      if files == [] {
        EmptyArchive(disk);
        state := NewEndState(0);
        return true;
      }
      var reader := NewLocalFilesState(0);
      if reader.None? {
        return false;
      }
      TailStep(disk, source, 0);
      WholeTail(disk, source);
      state := LocalFiles(0, reader.value);
      return true;
    }

    // One read from the part in progress.
    method ReadPart(buf: array<byte>) returns (r: IoResult)
      requires Valid() && !state.Init? && !state.Done?
      modifies Footprint(), buf
      ensures Valid() && Footprint() == old(Footprint()) && Rank() == old(Rank())
      ensures r.Err? ==> bytesWritten == old(bytesWritten)
      ensures r.Ok? ==> r.n <= buf.Length && bytesWritten == old(bytesWritten) + r.n
      ensures r.Ok? ==> old(Undelivered()) == buf[..r.n] + Undelivered()
      ensures !state.Init? && !state.Done?
      ensures r.Ok? && r.n == 0 && buf.Length > 0 ==> Exhausted()
    {
      hide LocalHeader, CentralHeader, EndRecord, DataDescriptor, Archive, Tail, DirectoryTail, Final, Offset,
           LocalPart, Update, Checksum, Content, TableAt;
      match state {
        case LocalFiles(index, reader) =>
          r := ReadLocal(index, reader, buf);
        case CentralDirectory(index, start, cursor) =>
          var n, cursor' := ReadHeader(cursor, buf, Target(), bytesWritten, DirectoryTail(disk, source, index + 1));
          state, bytesWritten := CentralDirectory(index, start, cursor'), bytesWritten + n;
          r := Ok(n);
        case EndOfCentralDirectory(cursor) =>
          var n, cursor' := ReadHeader(cursor, buf, Target(), bytesWritten, []);
          state, bytesWritten := EndOfCentralDirectory(cursor'), bytesWritten + n;
          r := Ok(n);
      }
    }

    method ReadLocal(index: nat, reader: LocalFileReader, buf: array<byte>) returns (r: IoResult)
      requires Valid() && state == LocalFiles(index, reader)
      modifies this, reader, buf
      ensures Valid() && state == old(state)
      ensures r.Err? ==> bytesWritten == old(bytesWritten)
      ensures r.Ok? ==> r.n <= buf.Length && bytesWritten == old(bytesWritten) + r.n
      ensures r.Ok? ==> old(Undelivered()) == buf[..r.n] + Undelivered()
      ensures r.Ok? && r.n == 0 && buf.Length > 0 ==> reader.state.Finished?
    {
      hide LocalHeader, CentralHeader, EndRecord, DataDescriptor, Archive, Tail, Final, Update, Checksum,
           Content, DirectoryTail, Offset, TableAt, LocalFileReader.Remaining, LocalPart;
      ghost var before, tail := reader.Remaining(), Tail(disk, source, index + 1);
      r := reader.Read(buf);
      if r.Ok? {
        SplitAfter(before, buf[..r.n], reader.Remaining(), tail);
        Deliver(Target(), bytesWritten, buf[..r.n], reader.Remaining() + tail);
        bytesWritten := bytesWritten + r.n;
      }
    }

    ghost predicate Exhausted()
      requires Valid()
      reads this, Footprint()
    {
      match state
      case LocalFiles(_, reader) => reader.state.Finished?
      case CentralDirectory(_, _, cursor) => cursor.Rest() == []
      case EndOfCentralDirectory(cursor) => cursor.Rest() == []
      case _ => true
    }

    // The part in progress is exhausted: patch the table and move on to the next part.
    method Advance() returns (ok: bool)
      requires Valid() && !state.Init? && !state.Done? && Exhausted()
      modifies this
      ensures Valid() && fresh(Footprint() - old(Footprint()))
      ensures bytesWritten == old(bytesWritten)
      ensures !ok ==> state == old(state)
      ensures ok ==> Rank() < old(Rank())
    {
      hide LocalHeader, CentralHeader, EndRecord, DataDescriptor, Archive, Tail, Offset, LocalPart, Update,
           Checksum, Content, TableAt, DirectoryTail, Final, CentralHeaders;
      ok := true;
      match state {
        case LocalFiles(index, reader) =>
          ok := AdvanceLocal(index, reader);
        case CentralDirectory(index, start, _) =>
          DirectoryPosition(disk, source, index + 1);
          if index + 1 < |files| {
            DirectoryStep(disk, source, index + 1);
            state := NewCentralDirectoryState(index + 1, start);
          } else {
            state := NewEndState(start);
          }
        case EndOfCentralDirectory(_) =>
          state := Done;
      }
    }

    method AdvanceLocal(index: nat, reader: LocalFileReader) returns (ok: bool)
      requires Valid() && state == LocalFiles(index, reader) && reader.state.Finished?
      modifies this
      ensures Valid() && fresh(Footprint() - old(Footprint()))
      ensures bytesWritten == old(bytesWritten)
      ensures !ok ==> state == old(state)
      ensures ok ==> Rank() < old(Rank())
    {
      hide LocalHeader, CentralHeader, EndRecord, DataDescriptor, Archive, LocalPart, Update, Tail, Checksum, Offset;
      FinalAt(disk, source, index);
      files := files[index := files[index].(crc := reader.Crc().value)];
      TailLen(disk, source, index + 1);
      if index + 1 < |files| {
        ok := EnterLocal(index + 1, index, reader);
      } else {
        EnterDirectory();
        ok := true;
      }
    }

    // Entries before `k` are final, the others have everything but offset and checksum right.
    ghost predicate PatchedUpTo(k: nat)
      reads this
    {
      && |files| == |source|
      && (forall j :: 0 <= j < |files| ==> SameFile(files[j], source[j]))
      && (forall j :: 0 <= j < k && j < |files| ==> files[j] == Final(disk, source)[j])
      && (forall j :: k <= j < |files| ==> files[j].crc == source[j].crc)
    }

    method EnterLocal(next: nat, index: nat, reader: LocalFileReader) returns (ok: bool)
      requires next == index + 1 < |source| && PatchedUpTo(next)
      requires Valid() && state == LocalFiles(index, reader) && reader.state.Finished?
      requires bytesWritten == Offset(disk, source, next) && Undelivered() == Tail(disk, source, next)
      modifies this
      ensures Valid() && fresh(Footprint() - old(Footprint()))
      ensures bytesWritten == old(bytesWritten)
      ensures !ok ==> state == old(state)
      ensures ok ==> Rank() < old(Rank())
    {
      hide LocalHeader, CentralHeader, EndRecord, DataDescriptor, Archive, LocalPart, Update, Tail, Checksum, Offset;
      FinalAt(disk, source, next);
      files := files[next := files[next].(offset := bytesWritten % 0x1_0000_0000)];
      var reader' := NewLocalFilesState(next);
      if reader'.None? {
        return false;
      }
      SameHeader(disk, files[next], source[next]);
      TailStep(disk, source, next);
      state := LocalFiles(next, reader'.value);
      return true;
    }

    method EnterDirectory()
      requires PatchedUpTo(|source|) && 0 < |source| && state.LocalFiles? && state.index < |source|
      requires bytesWritten == Offset(disk, source, |source|) <= |Target()|
      requires Undelivered() == Tail(disk, source, |source|)
      modifies this
      ensures Valid() && Footprint() == {this}
      ensures bytesWritten == old(bytesWritten)
      ensures Rank() < old(Rank())
    {
      hide LocalHeader, CentralHeader, EndRecord, DataDescriptor, Archive, Tail, Offset, Checksum, DirectoryTail;
      assert files == Final(disk, source);
      DirectoryStarts(disk, source);
      DirectoryStep(disk, source, 0);
      state := NewCentralDirectoryState(0, bytesWritten);
    }
  }

  function NonEmpty(sizes: seq<nat>): nat {
    if sizes == [] then 0 else NonEmpty(sizes[..|sizes| - 1]) + if sizes[|sizes| - 1] > 0 then 1 else 0
  }

  /** A client that reads with buffers of any sizes and keeps what it is given. Whatever the sizes,
      the short reads and the failures on the way, it holds a prefix of the one fixed archive; a
      zero-byte read into a non-empty buffer tells it that it holds all of it; and every other
      successful read into a non-empty buffer made progress. */
  method Collect(disk: Disk, files: seq<EntryInfo>, sizes: seq<nat>)
    returns (delivered: seq<byte>, complete: bool, errors: nat)
    ensures delivered <= Archive(disk, files)
    ensures complete ==> delivered == Archive(disk, files)
    ensures complete || |delivered| + errors >= NonEmpty(sizes)
  {
    hide Archive, Tail, DirectoryTail, Final, Offset, LocalPart, Update, Checksum, Content, LocalHeader,
         CentralHeader, EndRecord, DataDescriptor;
    var encoder := new Encoder(disk, files);
    delivered, complete, errors := [], false, 0;
    for i := 0 to |sizes|
      invariant encoder.Valid() && fresh(encoder.Footprint())
      invariant encoder.disk == disk && encoder.source == files
      invariant delivered + encoder.Undelivered() == Archive(disk, files)
      invariant complete ==> encoder.Undelivered() == []
      invariant complete || |delivered| + errors >= NonEmpty(sizes[..i])
    {
      ghost var rest := encoder.Undelivered();
      var r, chunk := encoder.ReadUpTo(sizes[i]);
      assert sizes[..i + 1][..i] == sizes[..i];
      if r.Err? {
        errors := errors + 1;
      } else {
        Regroup(delivered, rest, chunk, encoder.Undelivered());
        delivered := delivered + chunk;
        complete := complete || (chunk == [] && sizes[i] > 0);
      }
    }
    assert sizes[..|sizes|] == sizes;
  }

  lemma Regroup(head: seq<byte>, rest: seq<byte>, chunk: seq<byte>, tail: seq<byte>)
    requires rest == chunk + tail
    ensures head + rest == (head + chunk) + tail
  {
  }

  // ---- facts about the target that the encoder walks along ----

  ghost predicate SameFile(a: EntryInfo, b: EntryInfo) {
    a.path == b.path && a.name == b.name && a.size == b.size
  }

  lemma SameHeader(disk: Disk, a: EntryInfo, b: EntryInfo)
    requires SameFile(a, b) && a.crc == b.crc
    ensures LocalPart(disk, a) == LocalPart(disk, b) && Content(disk, a) == Content(disk, b)
  {
    hide LeBytes, DataDescriptor;
  }

  lemma FinalAt(disk: Disk, files: seq<EntryInfo>, k: nat)
    requires k < |files|
    ensures Final(disk, files)[k] == files[k].(
              crc := Checksum(Content(disk, files[k])),
              offset := if k == 0 then files[0].offset else Offset(disk, files, k) % 0x1_0000_0000)
  {
    hide Offset, Checksum;
  }

  ghost function DirectoryTail(disk: Disk, files: seq<EntryInfo>, k: nat): seq<byte>
    requires k <= |files|
  {
    var headers := CentralHeaders(Final(disk, files));
    Concat(headers[k..]) + EndRecord(|files|, |Concat(headers)|, Offset(disk, files, |files|))
  }

  lemma TailStep(disk: Disk, files: seq<EntryInfo>, k: nat)
    requires k < |files|
    ensures Tail(disk, files, k) == LocalPart(disk, files[k]) + Tail(disk, files, k + 1)
  {
    hide LocalHeader, CentralHeader, EndRecord, DataDescriptor, LocalPart, DirectoryAndEnd;
    ConcatFrom(LocalParts(disk, files), k);
  }

  lemma DirectoryStep(disk: Disk, files: seq<EntryInfo>, k: nat)
    requires k < |files|
    ensures DirectoryTail(disk, files, k)
            == CentralHeader(Final(disk, files)[k]) + DirectoryTail(disk, files, k + 1)
  {
    hide CentralHeader, EndRecord, LocalParts, Final, Offset, Concat;
    var headers := CentralHeaders(Final(disk, files));
    ConcatFrom(headers, k);
    SplitAfter(Concat(headers[k..]), headers[k], Concat(headers[k + 1..]),
               EndRecord(|files|, |Concat(headers)|, Offset(disk, files, |files|)));
  }

  lemma DirectoryStarts(disk: Disk, files: seq<EntryInfo>)
    ensures DirectoryTail(disk, files, 0) == Tail(disk, files, |files|)
  {
    hide CentralHeader, EndRecord, LocalPart, Final, Offset;
    var headers := CentralHeaders(Final(disk, files));
    assert headers[0..] == headers;
    assert Concat(LocalParts(disk, files)[|files|..]) == [];
  }

  lemma WholeTail(disk: Disk, files: seq<EntryInfo>)
    ensures Tail(disk, files, 0) == Archive(disk, files)
  {
    hide Tail;
  }

  lemma EmptyArchive(disk: Disk)
    ensures Archive(disk, []) == EndRecord(0, 0, 0)
  {
    hide EndRecord;
    assert Concat(LocalParts(disk, [])[0..]) == [];
    assert Concat(CentralHeaders(Final(disk, []))) == [];
  }

  // When only the end record is left, the bytes since the directory's start are the directory.
  lemma DirectoryPosition(disk: Disk, files: seq<EntryInfo>, k: nat)
    requires k <= |files|
    ensures |Archive(disk, files)| >= |DirectoryTail(disk, files, k)|
    ensures k == |files| ==>
      var size := |Concat(CentralHeaders(Final(disk, files)))|;
      var start := Offset(disk, files, |files|);
      && DirectoryTail(disk, files, k) == EndRecord(|files|, size, start)
      && |Archive(disk, files)| - |DirectoryTail(disk, files, k)| == start + size
  {
    hide LocalHeader, CentralHeader, DataDescriptor, LocalPart, RecordedOffset;
    var headers := CentralHeaders(Final(disk, files));
    StartConcat(headers, k);
    TailLen(disk, files, |files|);
    assert Concat(LocalParts(disk, files)[|files|..]) == [];
    if k == |files| {
      assert Concat(headers[k..]) == [];
    }
  }

  lemma SplitAfter(whole: seq<byte>, first: seq<byte>, rest: seq<byte>, tail: seq<byte>)
    requires whole == first + rest
    ensures whole + tail == first + (rest + tail)
  {
  }

  lemma Deliver(target: seq<byte>, pos: nat, chunk: seq<byte>, rest: seq<byte>)
    requires pos <= |target| && target[pos..] == chunk + rest
    ensures pos + |chunk| <= |target| && target[pos + |chunk|..] == rest
  {
    assert target[pos..][|chunk|..] == rest;
  }
}
