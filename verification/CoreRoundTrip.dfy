/** Reading back what the core writer wrote. */
module CoreRoundTrip {
  import opened Bytes
  import opened Alignment
  import opened ElfFormat
  import opened StableSort
  import opened CoreLayout
  import opened CoreReader

  lemma PrefixStands(input: Header, segments: seq<Segment>, payloads: seq<seq<byte>>)
    requires Writable(input, segments, payloads)
    ensures var file := CoreFile(input, segments, payloads);
      && At(file, 0, EncodeHeader(OutputHeader(input, |segments|)))
      && At(file, SIZEOF_EHDR, Table(input, segments))
  {
    hide EncodeHeader, OutputHeader, Table, FileUpTo, VerifyHeader, Layable, DataStart, DataEnd, Position, At,
         LeBytes, LeastMultiple, IsPowerOf2;
    var prefix, base := Prefix(input, segments), Base(input, segments);
    var file := CoreFile(input, segments, payloads);
    FileGrows(prefix, base, segments, payloads, 0, |segments|);
    PrefixFirst(prefix, base, segments, payloads);
    PrefixAt(prefix, file);
    HeaderLayout(OutputHeader(input, |segments|));
    AtSplit(file, 0, EncodeHeader(OutputHeader(input, |segments|)), Table(input, segments));
  }

  lemma PrefixAt(prefix: seq<byte>, file: seq<byte>)
    requires prefix <= file
    ensures At(file, 0, prefix)
  {
  }

  lemma {:induction false} PrefixFirst(prefix: seq<byte>, base: nat, segments: seq<Segment>, payloads: seq<seq<byte>>)
    requires Layable(base, segments) && |payloads| == |segments|
    ensures FitsUpTo(|prefix|, base, segments, payloads, 0)
    ensures FileUpTo(prefix, base, segments, payloads, 0) == prefix
  {
  }

  /** The reader accepts the written header exactly when there is a segment: without one the writer
      leaves the program header size zero, which header verification refuses. */
  lemma HeaderAccepted(input: Header, segments: seq<Segment>, payloads: seq<seq<byte>>)
    requires Writable(input, segments, payloads)
    ensures var file := CoreFile(input, segments, payloads);
      && (ParseHeader(file).Some? <==> segments != [])
      && (segments != [] ==> ParseHeader(file) == Some(OutputHeader(input, |segments|)))
  {
    hide EncodeHeader, CoreFile, DecodeHeader, Layable, FitsUpTo;
    PrefixStands(input, segments, payloads);
    HeaderRoundTrip(CoreFile(input, segments, payloads), 0, OutputHeader(input, |segments|));
    var ident := OutputHeader(input, |segments|).ident;
    assert ident[0..4] == ELFMAG;
  }

  /** What the header says: a 64-bit little-endian core file, version 1, for the machine of the input, with
      its table of 56-byte headers right behind it; everything else is zero. */
  lemma HeaderSays(input: Header, segments: seq<Segment>, payloads: seq<seq<byte>>)
    requires Writable(input, segments, payloads) && segments != []
    ensures ParseHeader(CoreFile(input, segments, payloads)).Some?
    ensures var h := ParseHeader(CoreFile(input, segments, payloads)).value;
      && h.ident == [0x7F, 0x45, 0x4C, 0x46, 2, 1, 1, 0, 0, 0, 0, 0, 0, 0, 0, 0]
      && h.fileType == 4 && h.machine == input.machine == 62 && h.version == 1
      && h.ehsize == 64 && h.phoff == 64 && h.phentsize == 56 && h.phnum == |segments|
      && h.entry == 0 && h.shoff == 0 && h.flags == 0 && h.shentsize == 0 && h.shnum == 0 && h.shstrndx == 0
  {
    hide CoreFile, ParseHeader, FitsUpTo, Layable;
    HeaderAccepted(input, segments, payloads);
  }

  lemma EncodedLen(header: ProgramHeader)
    ensures |EncodeProgramHeader(header)| == SIZEOF_PHDR
  {
    ProgramHeaderLayout(header);
  }

  lemma {:induction false} EncodedStart(headers: seq<ProgramHeader>, k: nat)
    requires k <= |headers|
    ensures Start(EncodedHeaders(headers), k) == SIZEOF_PHDR * k
  {
    hide EncodeProgramHeader;
    if k > 0 {
      EncodedStart(headers, k - 1);
      EncodedLen(headers[k - 1]);
    }
  }

  lemma TableReadBack(z: seq<byte>, off: nat, headers: seq<ProgramHeader>)
    requires At(z, off, Concat(EncodedHeaders(headers)))
    ensures off + SIZEOF_PHDR * |headers| <= |z| && HeaderTable(z, off, |headers|) == headers
  {
    hide EncodeProgramHeader, DecodeProgramHeader;
    var parts := EncodedHeaders(headers);
    TableLen(headers);
    forall k | 0 <= k < |headers|
      ensures HeaderTable(z, off, |headers|)[k] == headers[k]
    {
      EncodedStart(headers, k);
      PartAt(parts, k);
      AtTrans(z, off, Concat(parts), Start(parts, k), parts[k]);
      ProgramHeaderRoundTrip(z, off + SIZEOF_PHDR * k, headers[k]);
    }
  }

  lemma StartsSorted(base: nat, segments: seq<Segment>)
    requires Layable(base, segments)
    ensures Sorted(Headers(Placed(base, segments)), ByOffset)
  {
    hide Layable, DataStart, DataEnd;
    var headers := Headers(Placed(base, segments));
    forall j, k | 0 <= j < k < |headers|
      ensures ByOffset(headers[j]) <= ByOffset(headers[k])
    {
      StartsInOrder(base, segments, j, k);
    }
  }

  /** The program headers come back as written, in the same order: the reader's sort changes
      nothing. */
  lemma HeadersReadBack(input: Header, segments: seq<Segment>, payloads: seq<seq<byte>>)
    requires Writable(input, segments, payloads) && segments != []
    ensures var headers := Headers(Placed(Base(input, segments), segments));
      ParseProgramHeaders(CoreFile(input, segments, payloads), SIZEOF_EHDR, OutputHeader(input, |segments|))
      == Some(headers)
  {
    hide EncodeHeader, CoreFile, Layable, Headers, Placed, HeaderTable, SortBy, EncodedHeaders, FitsUpTo;
    var headers := Headers(Placed(Base(input, segments), segments));
    PrefixStands(input, segments, payloads);
    TableReadBack(CoreFile(input, segments, payloads), SIZEOF_EHDR, headers);
    StartsSorted(Base(input, segments), segments);
    SortedUnchanged(headers, ByOffset);
  }

  /** A payload brought to the announced size: cut, or followed by zeros. */
  function Announced(payload: seq<byte>, filesz: nat): (r: seq<byte>)
    ensures |r| == filesz
    ensures |payload| == filesz ==> r == payload
  {
    if |payload| >= filesz then payload[..filesz] else payload + Repeat(0, filesz - |payload|)
  }

  lemma InBoundsRead(file: seq<byte>, pos: nat, header: ProgramHeader)
    requires pos <= header.offset
    ensures SegmentBytes(file, pos, header).Some?
            <==> header.filesz == 0 || header.offset + header.filesz <= |file|
    ensures header.offset + header.filesz <= |file| ==>
      && SegmentBytes(file, pos, header) == Some(file[header.offset..header.offset + header.filesz])
      && SegmentEnd(file, pos, header) == header.offset + header.filesz
  {
    if header.filesz == 0 && header.offset <= |file| {
      assert file[header.offset..header.offset] == [];
    }
  }

  /** A last segment that is shorter than announced: the file ends too early to read it. */
  predicate ShortLast(segments: seq<Segment>, payloads: seq<seq<byte>>, k: nat)
    requires k < |segments| == |payloads|
  {
    k == |segments| - 1 && |payloads[k]| < segments[k].header.filesz
  }

  // What stands in the file at segment `k`'s offset, as far as its announced size.
  lemma {:induction false} SegmentInFile(prefix: seq<byte>, base: nat, segments: seq<Segment>,
                                         payloads: seq<seq<byte>>, k: nat)
    requires Layable(base, segments) && k < |segments| == |payloads|
    requires FitsUpTo(|prefix|, base, segments, payloads, |segments|)
    ensures var file, start := FileUpTo(prefix, base, segments, payloads, |segments|), DataStart(base, segments, k);
      var filesz := segments[k].header.filesz;
      && start + |payloads[k]| <= |file|
      && (ShortLast(segments, payloads, k) ==> |file| < start + filesz)
      && (!ShortLast(segments, payloads, k) ==>
            start + filesz <= |file| && file[start..start + filesz] == Announced(payloads[k], filesz))
  {
    hide DataEnd, DataStart, FileUpTo, Layable, FitsUpTo, LeastMultiple, IsPowerOf2;
    var file, start, filesz := FileUpTo(prefix, base, segments, payloads, |segments|),
                               DataStart(base, segments, k), segments[k].header.filesz;
    SegmentPlaced(prefix, base, segments, payloads, k);
    if |payloads[k]| >= filesz {
      AtSlice(file, start, payloads[k], 0, filesz);
    } else if k < |segments| - 1 {
      GapRead(prefix, base, segments, payloads, k);
    }
  }

  // A payload shorter than announced is followed by the gap before the next segment.
  lemma {:induction false} GapRead(prefix: seq<byte>, base: nat, segments: seq<Segment>,
                                   payloads: seq<seq<byte>>, k: nat)
    requires Layable(base, segments) && k < |segments| - 1 && |segments| == |payloads|
    requires FitsUpTo(|prefix|, base, segments, payloads, |segments|)
    requires |payloads[k]| < segments[k].header.filesz
    ensures var file, start := FileUpTo(prefix, base, segments, payloads, |segments|), DataStart(base, segments, k);
      var filesz := segments[k].header.filesz;
      start + filesz <= |file| && file[start..start + filesz] == Announced(payloads[k], filesz)
  {
    hide DataEnd, DataStart, FileUpTo, Layable, FitsUpTo, LeastMultiple, IsPowerOf2;
    SegmentPlaced(prefix, base, segments, payloads, k);
    SegmentPlaced(prefix, base, segments, payloads, k + 1);
    StartsInOrder(base, segments, k, k + 1);
    PaddingFollows(FileUpTo(prefix, base, segments, payloads, |segments|), DataStart(base, segments, k), payloads[k],
                   segments[k].header.filesz, DataStart(base, segments, k + 1));
  }

  lemma PaddingFollows(file: seq<byte>, start: nat, payload: seq<byte>, filesz: nat, next: nat)
    requires At(file, start, payload) && |payload| <= filesz && start + filesz <= next <= |file|
    requires file[start + |payload|..next] == Repeat(0, next - start - |payload|)
    ensures file[start..start + filesz] == payload + Repeat(0, filesz - |payload|)
  {
    var zeros, tail := file[start + |payload|..next], file[start + |payload|..start + filesz];
    assert file[start..start + filesz] == file[start..start + |payload|] + file[start + |payload|..start + filesz];
    forall i | 0 <= i < filesz - |payload|
      ensures tail[i] == 0
    {
      assert file[start + |payload| + i] == zeros[i];
    }
    assert tail == Repeat(0, filesz - |payload|);
  }

  /** Reading a segment from any position at or before it gives its payload, brought to the announced
      size with the zeros that follow it in the file. Only a short last segment cannot be read. */
  lemma SegmentReadBack(input: Header, segments: seq<Segment>, payloads: seq<seq<byte>>, k: nat, pos: nat)
    requires Writable(input, segments, payloads) && k < |segments|
    ensures var file := CoreFile(input, segments, payloads);
      var header := PlacedSegment(Base(input, segments), segments, k).header;
      pos <= header.offset ==>
        && SegmentBytes(file, pos, header)
           == (if ShortLast(segments, payloads, k) then None else Some(Announced(payloads[k], header.filesz)))
        && (!ShortLast(segments, payloads, k) ==> SegmentEnd(file, pos, header) == header.offset + header.filesz)
  {
    hide Prefix, DataEnd, DataStart, FileUpTo, VerifyHeader, Announced, SegmentBytes, SegmentEnd, FitsUpTo, Layable;
    SegmentInFile(Prefix(input, segments), Base(input, segments), segments, payloads, k);
    var header := PlacedSegment(Base(input, segments), segments, k).header;
    if pos <= header.offset {
      InBoundsRead(CoreFile(input, segments, payloads), pos, header);
    }
  }

  /** What a reader should get of the wanted segments among `segments[from..]`, up to one that it cannot
      hold. */
  function Recoverable(granted: nat, base: nat, segments: seq<Segment>, payloads: seq<seq<byte>>,
                       wanted: ProgramHeader -> bool, from: nat): (seq<(ProgramHeader, seq<byte>)>, bool)
    requires Layable(base, segments) && |payloads| == |segments| && from <= |segments|
    decreases |segments| - from
  {
    if from == |segments| then ([], false)
    else
      var header := PlacedSegment(base, segments, from).header;
      if !wanted(header) then Recoverable(granted, base, segments, payloads, wanted, from + 1)
      else if !Allocatable(granted, header.filesz) then ([], true)
      else
        var (rest, aborted) := Recoverable(granted, base, segments, payloads, wanted, from + 1);
        if ShortLast(segments, payloads, from) then (rest, aborted)
        else ([(header, Announced(payloads[from], header.filesz))] + rest, aborted)
  }

  /** Whichever segments a forward-only reader picks, going through the headers in order it gets each
      of them, from wherever the one before left it. */
  lemma {:induction false} SegmentsReadBack(granted: nat, input: Header, segments: seq<Segment>,
                                            payloads: seq<seq<byte>>, wanted: ProgramHeader -> bool, from: nat,
                                            pos: nat)
    requires Writable(input, segments, payloads) && from <= |segments|
    requires from < |segments| ==> pos <= DataStart(Base(input, segments), segments, from)
    ensures var base := Base(input, segments);
      SegmentsWhere(granted, CoreFile(input, segments, payloads), pos, Headers(Placed(base, segments))[from..], wanted)
      == Recoverable(granted, base, segments, payloads, wanted, from)
    decreases |segments| - from
  {
    hide Layable, DataStart, DataEnd, CoreFile, LeastMultiple, SegmentBytes, SegmentEnd, VerifyHeader, FitsUpTo,
         Announced, ShortLast, IsPowerOf2, Allocatable;
    var base, file := Base(input, segments), CoreFile(input, segments, payloads);
    var headers := Headers(Placed(base, segments));
    if from < |segments| {
      var header := PlacedSegment(base, segments, from).header;
      assert headers[from..][0] == header && headers[from..][1..] == headers[from + 1..];
      if from + 1 < |segments| {
        StartsInOrder(base, segments, from, from + 1);
        OnlyLastIsShort(segments, payloads, from);
      }
      if wanted(header) {
        SegmentReadBack(input, segments, payloads, from, pos);
        SegmentsReadBack(granted, input, segments, payloads, wanted, from + 1, SegmentEnd(file, pos, header));
      } else {
        SegmentsReadBack(granted, input, segments, payloads, wanted, from + 1, pos);
      }
    }
  }

  // The notes among `segments[from..]` with the payloads they were written with.
  function Notes(base: nat, segments: seq<Segment>, payloads: seq<seq<byte>>, from: nat)
    : seq<(ProgramHeader, seq<byte>)>
    requires Layable(base, segments) && |payloads| == |segments| && from <= |segments|
    decreases |segments| - from
  {
    if from == |segments| then []
    else
      var rest := Notes(base, segments, payloads, from + 1);
      var header := PlacedSegment(base, segments, from).header;
      if header.pType == 4 then [(header, payloads[from])] + rest else rest
  }

  /** Notes as long as announced, as the daemon makes them, come back exactly: all of them, unless one
      cannot be held. */
  lemma {:induction false} NotesReadBack(granted: nat, input: Header, segments: seq<Segment>, payloads: seq<seq<byte>>,
                                         from: nat, pos: nat)
    requires Writable(input, segments, payloads) && from <= |segments|
    requires from < |segments| ==> pos <= DataStart(Base(input, segments), segments, from)
    requires forall k :: 0 <= k < |segments| && segments[k].header.pType == 4 ==>
      |payloads[k]| == segments[k].header.filesz
    ensures var base := Base(input, segments);
      var (notes, aborted) := NoteSegments(granted, CoreFile(input, segments, payloads), pos,
                                           Headers(Placed(base, segments))[from..]);
      && notes <= Notes(base, segments, payloads, from)
      && (!aborted ==> notes == Notes(base, segments, payloads, from))
      && (aborted <==> exists k :: from <= k < |segments| && segments[k].header.pType == 4
                                   && !Allocatable(granted, segments[k].header.filesz))
  {
    hide Layable, CoreFile, VerifyHeader, FitsUpTo, SegmentsWhere, Recoverable, DataStart, Allocatable;
    SegmentsReadBack(granted, input, segments, payloads, IsNote, from, pos);
    NotesRecoverable(granted, Base(input, segments), segments, payloads, from);
  }

  // Placing a segment changes nothing but its offset.
  lemma SameKind(base: nat, segments: seq<Segment>, payloads: seq<seq<byte>>, k: nat)
    requires Layable(base, segments) && k < |segments| == |payloads|
    ensures var header := PlacedSegment(base, segments, k).header;
      && header.pType == segments[k].header.pType && (IsNote(header) <==> header.pType == 4)
      && header.filesz == segments[k].header.filesz
      && (|payloads[k]| == segments[k].header.filesz ==>
            !ShortLast(segments, payloads, k) && Announced(payloads[k], header.filesz) == payloads[k])
  {
    hide Layable, DataStart;
  }

  lemma {:induction false} NotesRecoverable(granted: nat, base: nat, segments: seq<Segment>, payloads: seq<seq<byte>>,
                                            from: nat)
    requires Layable(base, segments) && |payloads| == |segments| && from <= |segments|
    requires forall k :: 0 <= k < |segments| && segments[k].header.pType == 4 ==>
      |payloads[k]| == segments[k].header.filesz
    ensures var (notes, aborted) := Recoverable(granted, base, segments, payloads, IsNote, from);
      && notes <= Notes(base, segments, payloads, from)
      && (!aborted ==> notes == Notes(base, segments, payloads, from))
      && (aborted <==> exists k :: from <= k < |segments| && segments[k].header.pType == 4
                                   && !Allocatable(granted, segments[k].header.filesz))
    decreases |segments| - from
  {
    hide Layable, DataStart, PlacedSegment, Announced, LeastMultiple, IsPowerOf2, IsNote, ShortLast, Allocatable;
    if from < |segments| {
      NotesRecoverable(granted, base, segments, payloads, from + 1);
      SameKind(base, segments, payloads, from);
    }
  }

  lemma OnlyLastIsShort(segments: seq<Segment>, payloads: seq<seq<byte>>, k: nat)
    requires k < |segments| - 1 && |segments| == |payloads|
    ensures !ShortLast(segments, payloads, k)
  {
  }

  /** What the daemon reads of a core that the writer produced, if reading the stream does not fail:
      nothing of one without segments, and otherwise every note with the payload it was written with. */
  method ReadNotes(stream: ForwardOnlySeeker, granted: nat, ghost input: Header, ghost segments: seq<Segment>,
                   ghost payloads: seq<seq<byte>>)
    returns (notes: Option<seq<(ProgramHeader, seq<byte>)>>, aborted: bool)
    requires stream.Valid() && stream.pos == 0 && Writable(input, segments, payloads)
    modifies stream
    ensures stream.input == CoreFile(input, segments, payloads) && stream.failures == old(stream.failures) ==>
      if segments == [] then notes == None && !aborted
      else var all := Recoverable(granted, Base(input, segments), segments, payloads, IsNote, 0);
        notes == Some(all.0) && aborted == all.1
  {
    hide CoreFile, FitsUpTo, Layable, VerifyHeader, Headers, Placed, DataStart, DataEnd, ParseHeader,
         ParseProgramHeaders, Recoverable, SegmentsWhere;
    HeaderAccepted(input, segments, payloads);
    var reader := CoreReader.Open(stream, granted);
    if reader.None? {
      return None, false;
    }
    var headers := reader.value.ReadProgramHeaders();
    if segments != [] {
      HeadersReadBack(input, segments, payloads);
    }
    if headers.None? {
      return None, false;
    }
    ghost var pos := stream.pos;
    var found;
    found, aborted := reader.value.ReadAllNoteSegments(headers.value);
    if stream.input == CoreFile(input, segments, payloads) && segments != [] {
      FirstBehindTable(input, segments, payloads);
      ghost var expected := Headers(Placed(Base(input, segments), segments));
      assert expected[0..] == expected && expected != [];
      SegmentsReadBack(granted, input, segments, payloads, IsNote, 0, pos);
    }
    return Some(found), aborted;
  }

  lemma FirstBehindTable(input: Header, segments: seq<Segment>, payloads: seq<seq<byte>>)
    requires Writable(input, segments, payloads) && segments != []
    ensures PrefixLen(segments) <= DataStart(Base(input, segments), segments, 0)
  {
    hide DataStart, Layable;
    assert Position(PrefixLen(segments), Base(input, segments), segments, payloads, 0) == PrefixLen(segments);
  }

  /** A core whose program headers could be read has a table offset that never cramps the core made from
      it, as long as buffers are no longer than announced. */
  lemma ReadableNeverCramped(core: seq<byte>, header: Header, segments: seq<Segment>)
    requires ParseHeader(core) == Some(header) && ParseProgramHeaders(core, SIZEOF_EHDR, header).Some?
    requires Layable(Base(header, segments), segments)
    requires forall s :: s in segments && s.data.Buffer? ==> |s.data.data| <= s.header.filesz
    ensures VerifyHeader(header) && !Cramped(header, segments)
  {
    hide Cramped, Layable, DecodeHeader, HeaderTable, SortBy;
    OnlyTheTableMatters(header, segments);
  }
}
