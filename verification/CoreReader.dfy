/** The forward-only core reader: header first, then the program headers, then segments in file
    order. */
module CoreReader {
  import opened Bytes
  import opened ElfFormat
  import opened StableSort

  datatype SeekFrom = FromStart(offset: nat) | FromCurrent(delta: int) | FromEnd(delta: int)

  /** Where a seek from `pos` ends up in a stream of `length` bytes; None when it is refused. Running
      into the end of the stream is not an error. */
  function SeekTarget(length: nat, pos: nat, to: SeekFrom): Option<nat> {
    match to
    case FromEnd(_) => None
    case FromCurrent(delta) => if delta < 0 then None else Some(Advance(length, pos, delta))
    case FromStart(offset) => if offset < pos then None else Some(Advance(length, pos, offset - pos))
  }

  function Advance(length: nat, pos: nat, n: nat): nat {
    if length <= pos then pos else if length - pos < n then length else pos + n
  }

  /** A seek never goes back: one that would, or one from the end, is refused, and a relative one is the
      absolute one to the same place. */
  lemma SeeksForward(length: nat, pos: nat, to: SeekFrom, delta: int)
    requires pos <= length
    ensures match SeekTarget(length, pos, to)
            case Some(target) => pos <= target <= length
            case None => to.FromEnd? || (to.FromStart? && to.offset < pos) || (to.FromCurrent? && to.delta < 0)
    ensures to.FromEnd? ==> SeekTarget(length, pos, to) == None
    ensures 0 <= pos + delta ==>
      SeekTarget(length, pos, FromCurrent(delta)) == SeekTarget(length, pos, FromStart(pos + delta))
    ensures pos <= pos + delta <= length ==> SeekTarget(length, pos, FromCurrent(delta)) == Some(pos + delta)
    ensures length < pos + delta ==> SeekTarget(length, pos, FromCurrent(delta)) == Some(length)
    ensures delta < 0 ==> SeekTarget(length, pos, FromCurrent(delta)) == None
  {
  }

  /** A stream that can only be read and skipped forward. Reading it may fail at any time. */
  class ForwardOnlySeeker {
    const input: seq<byte>
    var pos: nat
    ghost var failures: nat

    ghost predicate Valid()
      reads this
    {
      pos <= |input|
    }

    constructor (input: seq<byte>)
      ensures Valid() && this.input == input && pos == 0 && failures == 0
    {
      this.input := input;
      pos, failures := 0, 0;
    }

    // One read may give only part of what is asked for, or fail and take nothing; none means the end.
    method Read(n: nat) returns (bytes: Option<seq<byte>>)
      requires Valid()
      modifies this
      ensures Valid()
      ensures bytes.None? ==> pos == old(pos) && failures == old(failures) + 1
      ensures bytes.Some? ==>
        && failures == old(failures) && |bytes.value| <= n && pos == old(pos) + |bytes.value|
        && bytes.value == input[old(pos)..pos]
        && (bytes.value == [] ==> n == 0 || pos == |input|)
    {
      var failed: bool, k: nat := *, *;
      if failed {
        failures := failures + 1;
        return None;
      }
      var most := if |input| - pos < n then |input| - pos else n;
      k := if most == 0 then 0 else 1 + k % most;
      bytes := Some(input[pos..pos + k]);
      pos := pos + k;
    }

    /** Reads until the buffer is full, the stream ends or reading fails. */
    method ReadExact(n: nat) returns (r: Option<seq<byte>>)
      requires Valid()
      modifies this
      ensures Valid() && old(pos) <= pos <= Advance(|input|, old(pos), n)
      ensures r.Some? ==> old(pos) + n <= |input| && r.value == input[old(pos)..old(pos) + n]
      ensures r.Some? ==> failures == old(failures) && pos == old(pos) + n
      ensures failures == old(failures) ==>
        pos == Advance(|input|, old(pos), n) && (r.None? <==> old(pos) + n > |input|)
      ensures failures >= old(failures)
    {
      var bytes := [];
      while |bytes| < n
        invariant Valid() && |bytes| <= n && pos == old(pos) + |bytes| && bytes == input[old(pos)..pos]
        invariant failures == old(failures)
      {
        var chunk := Read(n - |bytes|);
        if chunk.None? || chunk.value == [] {
          return None;
        }
        assert bytes + chunk.value == input[old(pos)..pos];
        bytes := bytes + chunk.value;
      }
      return Some(bytes);
    }

    /** Skips forward. Going back and seeking from the end are refused; a failure on the way stops there. */
    method Seek(to: SeekFrom) returns (ok: bool)
      requires Valid()
      modifies this
      ensures Valid()
      ensures SeekTarget(|input|, old(pos), to).None? ==> !ok && pos == old(pos) && failures == old(failures)
      ensures SeekTarget(|input|, old(pos), to).Some? ==>
        && (ok <==> failures == old(failures))
        && (ok ==> pos == SeekTarget(|input|, old(pos), to).value)
        && old(pos) <= pos <= SeekTarget(|input|, old(pos), to).value
      ensures failures >= old(failures)
    {
      var seekSize := -1;
      match to {
        case FromCurrent(delta) => seekSize := delta;
        case FromStart(offset) => seekSize := if offset < pos then -1 else offset - pos;
        case FromEnd(_) => return false;
      }
      if seekSize < 0 {
        return false;
      }
      var left := seekSize;
      while left > 0
        invariant Valid() && 0 <= left <= seekSize && pos == old(pos) + seekSize - left
        invariant failures == old(failures)
      {
        var skipped := Read(left);
        if skipped.None? {
          return false;
        }
        if skipped.value == [] {
          return true;
        }
        left := left - |skipped.value|;
      }
      return true;
    }
  }

  // ---- what reading a byte string means ----

  function ParseHeader(input: seq<byte>): Option<Header> {
    if |input| < SIZEOF_EHDR then None
    else
      var h := DecodeHeader(input, 0);
      if VerifyHeader(h) then Some(h) else None
  }

  function HeaderTable(input: seq<byte>, off: nat, count: nat): (t: seq<ProgramHeader>)
    requires off + SIZEOF_PHDR * count <= |input|
    ensures |t| == count
  {
    seq(count, k requires 0 <= k < count => DecodeProgramHeader(input, off + SIZEOF_PHDR * k))
  }

  // Sorting key.
  function ByOffset(p: ProgramHeader): int {
    p.offset
  }

  /** The headers sorted by offset, read from the table right behind the current position or further
      on. */
  function ParseProgramHeaders(input: seq<byte>, pos: nat, h: Header): Option<seq<ProgramHeader>> {
    if h.phoff < pos then None
    else if h.phnum == 0 then Some([])
    else if |input| < h.phoff + SIZEOF_PHDR * h.phnum then None
    else Some(SortBy(HeaderTable(input, h.phoff, h.phnum), ByOffset))
  }

  function SegmentBytes(input: seq<byte>, pos: nat, header: ProgramHeader): Option<seq<byte>> {
    if header.offset < pos then None
    else if header.filesz == 0 then Some([])
    else if |input| < header.offset + header.filesz then None
    else Some(input[header.offset..header.offset + header.filesz])
  }

  function SegmentEnd(input: seq<byte>, pos: nat, header: ProgramHeader): nat {
    if header.offset < pos then pos
    else Advance(|input|, Advance(|input|, pos, header.offset - pos), header.filesz)
  }

  /** Reading a segment sets its announced size aside first, once the stream has got there. */
  predicate CannotHold(granted: nat, pos: nat, header: ProgramHeader) {
    pos <= header.offset && !Allocatable(granted, header.filesz)
  }

  /** The wanted segments that can be read, going through the headers in order, and whether one that
      cannot be held ends the program. */
  function SegmentsWhere(granted: nat, input: seq<byte>, pos: nat, headers: seq<ProgramHeader>,
                         wanted: ProgramHeader -> bool): (seq<(ProgramHeader, seq<byte>)>, bool)
    decreases |headers|
  {
    if headers == [] then ([], false)
    else if !wanted(headers[0]) then SegmentsWhere(granted, input, pos, headers[1..], wanted)
    else if CannotHold(granted, pos, headers[0]) then ([], true)
    else
      var (rest, aborted) := SegmentsWhere(granted, input, SegmentEnd(input, pos, headers[0]), headers[1..], wanted);
      match SegmentBytes(input, pos, headers[0])
      case None => (rest, aborted)
      case Some(data) => ([(headers[0], data)] + rest, aborted)
  }

  predicate IsNote(header: ProgramHeader) {
    header.pType == PT_NOTE
  }

  function NoteSegments(granted: nat, input: seq<byte>, pos: nat, headers: seq<ProgramHeader>)
    : (seq<(ProgramHeader, seq<byte>)>, bool)
  {
    SegmentsWhere(granted, input, pos, headers, IsNote)
  }

  /** What is returned for a segment is what stands at its offset. */
  predicate Genuine(input: seq<byte>, header: ProgramHeader, data: seq<byte>) {
    && |data| == header.filesz
    && (data != [] ==> header.offset + header.filesz <= |input|
                       && data == input[header.offset..header.offset + header.filesz])
  }

  class CoreReader {
    const inputStream: ForwardOnlySeeker
    const elfHeader: Header
    const granted: nat

    ghost predicate Valid()
      reads this, inputStream
    {
      inputStream.Valid()
    }

    constructor (inputStream: ForwardOnlySeeker, elfHeader: Header, granted: nat)
      requires inputStream.Valid()
      ensures Valid() && this.inputStream == inputStream && this.elfHeader == elfHeader && this.granted == granted
    {
      this.inputStream := inputStream;
      this.elfHeader := elfHeader;
      this.granted := granted;
    }

    /** Opens a stream whose first bytes are a header of this target. */
    static method Open(stream: ForwardOnlySeeker, granted: nat) returns (r: Option<CoreReader>)
      requires stream.Valid() && stream.pos == 0
      modifies stream
      ensures stream.Valid() && stream.failures >= old(stream.failures)
      ensures stream.failures == old(stream.failures) ==> (r.Some? <==> ParseHeader(stream.input).Some?)
      ensures r.Some? ==> fresh(r.value) && r.value.Valid() && r.value.inputStream == stream
                          && r.value.granted == granted && stream.pos == SIZEOF_EHDR
                          && Some(r.value.elfHeader) == ParseHeader(stream.input)
    {
      var buf := stream.ReadExact(SIZEOF_EHDR);
      if buf.None? {
        return None;
      }
      assert At(stream.input, 0, buf.value);
      HeaderAnywhere(stream.input, buf.value);
      var header := DecodeHeader(buf.value, 0);
      if !VerifyHeader(header) {
        return None;
      }
      var reader := new CoreReader(stream, header, granted);
      return Some(reader);
    }

    /** Reads and sorts the table; what is returned is right, and without failures it is returned
        whenever it is there. */
    method ReadProgramHeaders() returns (r: Option<seq<ProgramHeader>>)
      requires Valid()
      modifies inputStream
      ensures Valid() && inputStream.failures >= old(inputStream.failures)
      ensures r.Some? ==> r == ParseProgramHeaders(inputStream.input, old(inputStream.pos), elfHeader)
      ensures r.Some? && r.value != [] ==> inputStream.pos == elfHeader.phoff + SIZEOF_PHDR * elfHeader.phnum
      ensures inputStream.failures == old(inputStream.failures) ==>
        r == ParseProgramHeaders(inputStream.input, old(inputStream.pos), elfHeader)
    {
      var ok := inputStream.Seek(FromStart(elfHeader.phoff));
      if !ok {
        return None;
      }
      var size := elfHeader.phnum * SIZEOF_PHDR;
      ghost var at := inputStream.pos;
      var buffer := inputStream.ReadExact(size);
      if buffer.None? {
        return None;
      }
      if elfHeader.phnum == 0 {
        return Some([]);
      } else {
        assert at == elfHeader.phoff;
        assert At(inputStream.input, elfHeader.phoff, buffer.value);
        TableAnywhere(inputStream.input, elfHeader.phoff, buffer.value, elfHeader.phnum);
      }
      return Some(SortBy(HeaderTable(buffer.value, 0, elfHeader.phnum), ByOffset));
    }

    /** Reads a segment ahead of the stream. What is returned stands at its offset; without failures it
        is returned whenever it can be. */
    method ReadSegmentData(header: ProgramHeader) returns (r: Option<seq<byte>>, aborted: bool)
      requires Valid()
      modifies inputStream
      ensures Valid() && inputStream.failures >= old(inputStream.failures)
      ensures r.Some? ==> Genuine(inputStream.input, header, r.value) && !aborted
      ensures inputStream.failures == old(inputStream.failures) ==>
        && (aborted <==> CannotHold(granted, old(inputStream.pos), header))
        && (aborted <==> old(inputStream.pos) <= header.offset
                         && (header.filesz > granted || header.filesz >= 0x8000_0000_0000_0000))
        && (!aborted ==> r == SegmentBytes(inputStream.input, old(inputStream.pos), header)
                         && inputStream.pos == SegmentEnd(inputStream.input, old(inputStream.pos), header))
    {
      var ok := inputStream.Seek(FromStart(header.offset));
      if !ok {
        return None, false;
      }
      if !Allocatable(granted, header.filesz) {
        return None, true;
      }
      ghost var at := inputStream.pos;
      r := inputStream.ReadExact(header.filesz);
      assert inputStream.input[at..at] == [];
      aborted := false;
    }

    /** Reads every note segment, skipping those that cannot be read. */
    method ReadAllNoteSegments(headers: seq<ProgramHeader>)
      returns (notes: seq<(ProgramHeader, seq<byte>)>, aborted: bool)
      requires Valid()
      modifies inputStream
      ensures Valid() && inputStream.failures >= old(inputStream.failures)
      ensures forall n :: n in notes ==> n.0 in headers && IsNote(n.0) && Genuine(inputStream.input, n.0, n.1)
      ensures inputStream.failures == old(inputStream.failures) ==>
        (notes, aborted) == NoteSegments(granted, inputStream.input, old(inputStream.pos), headers)
    {
      hide SegmentBytes, SegmentEnd, Genuine, CannotHold;
      notes := [];
      ghost var all := NoteSegments(granted, inputStream.input, inputStream.pos, headers);
      assert headers[0..] == headers && [] + all.0 == all.0;
      for i := 0 to |headers|
        invariant Valid() && inputStream.failures >= old(inputStream.failures)
        invariant forall n :: n in notes ==> n.0 in headers && IsNote(n.0) && Genuine(inputStream.input, n.0, n.1)
        invariant inputStream.failures == old(inputStream.failures) ==>
          var rest := SegmentsWhere(granted, inputStream.input, inputStream.pos, headers[i..], IsNote);
          all == (notes + rest.0, rest.1)
      {
        assert headers[i..][0] == headers[i] && headers[i..][1..] == headers[i + 1..];
        if headers[i].pType == PT_NOTE {
          var data;
          data, aborted := ReadSegmentData(headers[i]);
          if aborted {
            assert notes + [] == notes;
            return;
          }
          if data.Some? {
            ghost var rest := SegmentsWhere(granted, inputStream.input, inputStream.pos, headers[i + 1..], IsNote).0;
            assert notes + ([(headers[i], data.value)] + rest) == (notes + [(headers[i], data.value)]) + rest;
            notes := notes + [(headers[i], data.value)];
          }
        }
      }
      assert notes + [] == notes;
      aborted := false;
    }
  }

  lemma HeaderAnywhere(z: seq<byte>, part: seq<byte>)
    requires At(z, 0, part) && |part| == SIZEOF_EHDR
    ensures DecodeHeader(part, 0) == DecodeHeader(z, 0)
  {
    assert part == z[..SIZEOF_EHDR];
    forall i, j | 0 <= i <= j <= SIZEOF_EHDR
      ensures part[i..j] == z[i..j]
    {
      AtSlice(z, 0, part, i, j);
    }
  }

  lemma ProgramHeaderAnywhere(z: seq<byte>, off: nat, part: seq<byte>, at: nat)
    requires At(z, off, part) && at + SIZEOF_PHDR <= |part|
    ensures DecodeProgramHeader(part, at) == DecodeProgramHeader(z, off + at)
  {
    hide LeValue;
    AtSlice(z, off, part, at, at + 4);
    AtSlice(z, off, part, at + 4, at + 8);
    AtSlice(z, off, part, at + 8, at + 16);
    AtSlice(z, off, part, at + 16, at + 24);
    AtSlice(z, off, part, at + 24, at + 32);
    AtSlice(z, off, part, at + 32, at + 40);
    AtSlice(z, off, part, at + 40, at + 48);
    AtSlice(z, off, part, at + 48, at + 56);
  }

  lemma TableAnywhere(z: seq<byte>, off: nat, part: seq<byte>, count: nat)
    requires At(z, off, part) && |part| == SIZEOF_PHDR * count
    ensures HeaderTable(part, 0, count) == HeaderTable(z, off, count)
  {
    hide DecodeProgramHeader;
    forall k | 0 <= k < count
      ensures HeaderTable(part, 0, count)[k] == HeaderTable(z, off, count)[k]
    {
      ProgramHeaderAnywhere(z, off, part, SIZEOF_PHDR * k);
    }
  }
}
