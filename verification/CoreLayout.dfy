/** Where everything goes in a written core file, and what it holds. */
module CoreLayout {
  import opened Bytes
  import opened Alignment
  import opened ElfFormat

  /** The bytes that can be read from an address on, and whether reading then fails or just ends. */
  datatype MemoryRead = MemoryRead(bytes: seq<byte>, failed: bool)
  type Memory = nat -> MemoryRead

  datatype SegmentData = Buffer(data: seq<byte>) | ProcessMemory
  datatype Segment = Segment(header: ProgramHeader, data: SegmentData)

  const FILL_BYTE: byte := 0xEF

  /** Reading at most `len` bytes: a failure beyond them is never seen. */
  function Taken(r: MemoryRead, len: nat): (t: MemoryRead)
    ensures |t.bytes| <= len && (t.failed ==> r.failed && |t.bytes| < len)
  {
    if |r.bytes| >= len then MemoryRead(r.bytes[..len], false) else r
  }

  /** `copied` bytes of the segment's memory, filled up to its announced size. */
  function Filled(segment: Segment, memory: Memory, copied: nat): (p: seq<byte>)
    requires copied <= |Taken(memory(segment.header.vaddr), segment.header.filesz).bytes|
    ensures |p| == segment.header.filesz
  {
    Taken(memory(segment.header.vaddr), segment.header.filesz).bytes[..copied]
    + Repeat(FILL_BYTE, segment.header.filesz - copied)
  }

  /** What a segment is meant to hold. A failed memory read is filled up to the announced size; one
      that merely ends early is not. */
  function Intended(segment: Segment, memory: Memory): seq<byte> {
    match segment.data
    case Buffer(data) => data
    case ProcessMemory =>
      var r := Taken(memory(segment.header.vaddr), segment.header.filesz);
      if r.failed then Filled(segment, memory, |r.bytes|) else r.bytes
  }

  /** What a segment may end up holding: what is meant, or, when the output refused a byte while memory
      was being copied, what had been copied until then, filled up. */
  ghost predicate Producible(segment: Segment, memory: Memory, payload: seq<byte>) {
    payload == Intended(segment, memory)
    || (segment.data.ProcessMemory?
        && exists n :: 0 <= n <= |Taken(memory(segment.header.vaddr), segment.header.filesz).bytes|
                       && payload == Filled(segment, memory, n))
  }

  function CalcPadding(offset: nat, alignment: u64): (padding: nat)
    requires offset + alignment <= WORD_LIMIT
    ensures padding == 0 || padding < alignment
  {
    AlignUpBounds(offset, alignment);
    // Rounding never goes down, so the subtraction cannot underflow.
    if alignment <= 1 then 0 else AlignUp(offset, alignment) - offset
  }

  lemma PaddingIsLeast(offset: nat, alignment: u64)
    requires offset + alignment <= WORD_LIMIT && IsPowerOf2(alignment)
    ensures alignment > 0 && LeastMultiple(offset + CalcPadding(offset, alignment), offset, alignment)
  {
    hide LeastMultiple, Complement;
    AlignUpIsLeast(offset, alignment);
  }

  /** Where a segment ends that is placed behind `end`; none if rounding up or adding overflows. */
  function Next(end: nat, header: ProgramHeader): (next: Option<nat>)
    ensures next.Some? ==> next.value < WORD_LIMIT
  {
    if end + header.align > WORD_LIMIT then None
    else
      var next := end + CalcPadding(end, header.align) + header.filesz;
      if next < WORD_LIMIT then Some(next) else None
  }

  function EndOf(base: nat, segments: seq<Segment>, k: nat): (end: Option<nat>)
    requires k <= |segments|
    ensures end.Some? ==> end.value < WORD_LIMIT && (k == 0 ==> end.value == base)
    decreases k
  {
    if k == 0 then if base < WORD_LIMIT then Some(base) else None
    else
      match EndOf(base, segments, k - 1)
      case None => None
      case Some(end) => Next(end, segments[k - 1].header)
  }

  /** No offset overflows the machine word. */
  ghost predicate Layable(base: nat, segments: seq<Segment>) {
    EndOf(base, segments, |segments|).Some?
  }

  lemma {:induction false} LayableBefore(base: nat, segments: seq<Segment>, j: nat, k: nat)
    requires j <= k <= |segments| && EndOf(base, segments, k).Some?
    ensures EndOf(base, segments, j).Some?
    decreases k
  {
    hide Next;
    if j < k {
      LayableBefore(base, segments, j, k - 1);
    }
  }

  /** Where segment `k - 1` ends; the program header table ends at `base`. */
  function DataEnd(base: nat, segments: seq<Segment>, k: nat): (end: nat)
    requires Layable(base, segments) && k <= |segments|
    ensures end < WORD_LIMIT && (k == 0 ==> end == base)
  {
    LayableBefore(base, segments, k, |segments|);
    EndOf(base, segments, k).value
  }

  // From one segment's end to the next without overflow.
  lemma EndStep(base: nat, segments: seq<Segment>, k: nat)
    requires Layable(base, segments) && k < |segments|
    ensures var end, header := DataEnd(base, segments, k), segments[k].header;
      && end + header.align <= WORD_LIMIT
      && DataEnd(base, segments, k + 1) == end + CalcPadding(end, header.align) + header.filesz
  {
    hide Next, CalcPadding;
    LayableBefore(base, segments, k + 1, |segments|);
    LayableBefore(base, segments, k, |segments|);
    NextParts(DataEnd(base, segments, k), segments[k].header);
  }

  lemma NextParts(end: nat, header: ProgramHeader)
    requires Next(end, header).Some?
    ensures end + header.align <= WORD_LIMIT
    ensures Next(end, header) == Some(end + CalcPadding(end, header.align) + header.filesz)
  {
    hide CalcPadding, IsPowerOf2, LeastMultiple;
  }

  /** The file offset recorded for segment `k`. */
  function DataStart(base: nat, segments: seq<Segment>, k: nat): (start: u64)
    requires Layable(base, segments) && k < |segments|
    ensures DataEnd(base, segments, k) <= start
    ensures start + segments[k].header.filesz == DataEnd(base, segments, k + 1)
    ensures start == DataEnd(base, segments, k) || start - DataEnd(base, segments, k) < segments[k].header.align
  {
    EndStep(base, segments, k);
    var end := DataEnd(base, segments, k);
    end + CalcPadding(end, segments[k].header.align)
  }

  lemma StartIsLeast(base: nat, segments: seq<Segment>, k: nat)
    requires Layable(base, segments) && k < |segments| && IsPowerOf2(segments[k].header.align)
    ensures LeastMultiple(DataStart(base, segments, k), DataEnd(base, segments, k), segments[k].header.align)
  {
    hide Layable, DataEnd, CalcPadding, LeastMultiple, IsPowerOf2;
    EndStep(base, segments, k);
    PaddingIsLeast(DataEnd(base, segments, k), segments[k].header.align);
  }

  function PlacedSegment(base: nat, segments: seq<Segment>, k: nat): Segment
    requires Layable(base, segments) && k < |segments|
  {
    segments[k].(header := segments[k].header.(offset := DataStart(base, segments, k)))
  }

  function Placed(base: nat, segments: seq<Segment>): (r: seq<Segment>)
    requires Layable(base, segments)
    ensures |r| == |segments|
  {
    seq(|segments|, k requires 0 <= k < |segments| => PlacedSegment(base, segments, k))
  }

  function Headers(segments: seq<Segment>): (r: seq<ProgramHeader>)
    ensures |r| == |segments|
  {
    seq(|segments|, k requires 0 <= k < |segments| => segments[k].header)
  }

  function EncodedHeaders(headers: seq<ProgramHeader>): (r: seq<seq<byte>>)
    ensures |r| == |headers|
  {
    seq(|headers|, k requires 0 <= k < |headers| => EncodeProgramHeader(headers[k]))
  }

  /** The header written for a core of `count` segments, made from the header that was read. */
  function OutputHeader(input: Header, count: u16): Header {
    Header(ELFMAG + [input.ident[EI_CLASS], input.ident[EI_DATA], EV_CURRENT] + Repeat(0, 9),
           ET_CORE, input.machine, EV_CURRENT, 0, if count > 0 then SIZEOF_EHDR else 0, 0, 0,
           SIZEOF_EHDR, if count > 0 then SIZEOF_PHDR else 0, count, 0, 0, 0)
  }

  /** The writer starts laying out data behind a table at the input's table offset. */
  function Base(input: Header, segments: seq<Segment>): nat {
    input.phoff + SIZEOF_PHDR * |segments|
  }

  function Table(input: Header, segments: seq<Segment>): (t: seq<byte>)
    requires Layable(Base(input, segments), segments)
    ensures |t| == SIZEOF_PHDR * |segments|
  {
    var parts := EncodedHeaders(Headers(Placed(Base(input, segments), segments)));
    TableLen(Headers(Placed(Base(input, segments), segments)));
    Concat(parts)
  }

  lemma {:induction false} TableLen(headers: seq<ProgramHeader>)
    ensures |Concat(EncodedHeaders(headers))| == SIZEOF_PHDR * |headers|
  {
    if headers != [] {
      assert EncodedHeaders(headers)[1..] == EncodedHeaders(headers[1..]);
      TableLen(headers[1..]);
      ProgramHeaderLayout(headers[0]);
    }
  }

  /** Where the stream stands before segment `k`: behind the table, or behind the payload before. */
  function Position(prefix: nat, base: nat, segments: seq<Segment>, payloads: seq<seq<byte>>, k: nat): nat
    requires Layable(base, segments) && |payloads| == |segments| && k <= |segments|
  {
    if k == 0 then prefix else DataStart(base, segments, k - 1) + |payloads[k - 1]|
  }

  /** The first `n` segments can be padded up to: none of them starts behind the stream. */
  ghost predicate FitsUpTo(prefix: nat, base: nat, segments: seq<Segment>, payloads: seq<seq<byte>>, n: nat)
    requires Layable(base, segments) && |payloads| == |segments|
  {
    && n <= |segments|
    && forall k :: 0 <= k < n ==>
         Position(prefix, base, segments, payloads, k) <= DataStart(base, segments, k)
  }

  /** The file after `k` segments: each one is preceded by zeros up to its recorded offset. */
  function FileUpTo(prefix: seq<byte>, base: nat, segments: seq<Segment>, payloads: seq<seq<byte>>, k: nat)
    : (f: seq<byte>)
    requires Layable(base, segments) && |payloads| == |segments|
    requires FitsUpTo(|prefix|, base, segments, payloads, k)
    ensures |f| == Position(|prefix|, base, segments, payloads, k)
    decreases k
  {
    if k == 0 then prefix
    else
      var f := FileUpTo(prefix, base, segments, payloads, k - 1);
      var start := DataStart(base, segments, k - 1);
      assert Position(|prefix|, base, segments, payloads, k - 1) <= start;
      f + Repeat(0, start - |f|) + payloads[k - 1]
  }

  function PrefixLen(segments: seq<Segment>): nat {
    SIZEOF_EHDR + SIZEOF_PHDR * |segments|
  }

  function Prefix(input: Header, segments: seq<Segment>): (p: seq<byte>)
    requires Layable(Base(input, segments), segments) && |segments| < 0x1_0000
    ensures |p| == PrefixLen(segments)
  {
    HeaderLayout(OutputHeader(input, |segments|));
    EncodeHeader(OutputHeader(input, |segments|)) + Table(input, segments)
  }

  /** The core up to segment `count`. */
  function CoreUpTo(input: Header, segments: seq<Segment>, payloads: seq<seq<byte>>, count: nat): seq<byte>
    requires Layable(Base(input, segments), segments) && |segments| < 0x1_0000 && |payloads| == |segments|
    requires FitsUpTo(PrefixLen(segments), Base(input, segments), segments, payloads, count)
  {
    FileUpTo(Prefix(input, segments), Base(input, segments), segments, payloads, count)
  }

  /** A core that can be written: the input header is one of this target, and every payload ends
      before the next segment starts. */
  ghost predicate Writable(input: Header, segments: seq<Segment>, payloads: seq<seq<byte>>) {
    && VerifyHeader(input) && |segments| < 0x1_0000 && |payloads| == |segments|
    && Layable(Base(input, segments), segments)
    && FitsUpTo(PrefixLen(segments), Base(input, segments), segments, payloads, |segments|)
  }

  function CoreFile(input: Header, segments: seq<Segment>, payloads: seq<seq<byte>>): seq<byte>
    requires Writable(input, segments, payloads)
  {
    CoreUpTo(input, segments, payloads, |segments|)
  }

  // ---- when the padding subtraction underflows ----

  /** The writer pads by recorded offset minus stream position. The position is behind the offset when
      the table ends behind the first offset, or a buffer is longer than announced and reaches past the
      next one. */
  ghost predicate Cramped(input: Header, segments: seq<Segment>)
    requires Layable(Base(input, segments), segments)
  {
    exists k :: 0 <= k < |segments| && CrampedAt(input, segments, k)
  }

  ghost predicate CrampedAt(input: Header, segments: seq<Segment>, k: nat)
    requires Layable(Base(input, segments), segments) && k < |segments|
  {
    var base := Base(input, segments);
    if k == 0 then DataStart(base, segments, 0) < PrefixLen(segments)
    else match segments[k - 1].data
      case Buffer(data) => DataStart(base, segments, k) < DataStart(base, segments, k - 1) + |data|
      case ProcessMemory => false
  }

  lemma ProducibleLen(segment: Segment, memory: Memory, payload: seq<byte>)
    requires Producible(segment, memory, payload)
    ensures segment.data.ProcessMemory? ==> |payload| <= segment.header.filesz
    ensures segment.data.Buffer? ==> payload == segment.data.data
  {
  }

  /** Whatever memory and output do, the stream is behind an offset exactly where the segments and the
      input header say so. */
  lemma CrampedExactly(input: Header, segments: seq<Segment>, memory: Memory, payloads: seq<seq<byte>>, k: nat)
    requires Layable(Base(input, segments), segments) && |payloads| == |segments| && k < |segments|
    requires k > 0 ==> Producible(segments[k - 1], memory, payloads[k - 1])
    ensures DataStart(Base(input, segments), segments, k)
            < Position(PrefixLen(segments), Base(input, segments), segments, payloads, k)
            <==> CrampedAt(input, segments, k)
  {
    hide Producible, LeastMultiple, Layable;
    if k > 0 {
      ProducibleLen(segments[k - 1], memory, payloads[k - 1]);
    }
  }

  /** With buffers as long as announced or shorter, only the first offset matters: there is no
      underflow if and only if it is not before the end of the table. A table offset of at least the
      header size, which reading the input's own program headers already demands, is enough. */
  lemma OnlyTheTableMatters(input: Header, segments: seq<Segment>)
    requires Layable(Base(input, segments), segments)
    requires forall s :: s in segments && s.data.Buffer? ==> |s.data.data| <= s.header.filesz
    ensures !Cramped(input, segments)
            <==> segments == [] || PrefixLen(segments) <= DataStart(Base(input, segments), segments, 0)
    ensures SIZEOF_EHDR <= input.phoff ==> !Cramped(input, segments)
  {
    hide LeastMultiple, Layable, DataStart;
    var base := Base(input, segments);
    forall k | 0 < k < |segments|
      ensures !CrampedAt(input, segments, k)
    {
      assert segments[k - 1] in segments;
    }
    if segments != [] {
      FirstStart(base, segments);
      assert CrampedAt(input, segments, 0) <==> DataStart(base, segments, 0) < PrefixLen(segments);
    }
  }

  lemma FirstStart(base: nat, segments: seq<Segment>)
    requires Layable(base, segments) && segments != []
    ensures base <= DataStart(base, segments, 0)
  {
    hide Layable, DataStart, DataEnd, LeastMultiple, IsPowerOf2;
  }

  /** A table offset below the header size can go either way: with offset zero, a single unaligned
      segment is cramped and a single page-aligned one is not. */
  lemma SmallTableOffset(input: Header, segment: Segment)
    requires input.phoff == 0 && segment.header.filesz < 0x1_0000_0000
    requires segment.data.Buffer? ==> |segment.data.data| <= segment.header.filesz
    requires segment.header.align in {1, 4096}
    ensures Layable(Base(input, [segment]), [segment])
    ensures Cramped(input, [segment]) <==> segment.header.align == 1
  {
    hide DataStart, DataEnd, Cramped, Layable;
    OneSegment(segment);
    OnlyTheTableMatters(input, [segment]);
  }

  lemma OneSegment(segment: Segment)
    requires segment.header.filesz < 0x1_0000_0000 && segment.header.align in {1, 4096}
    ensures Layable(56, [segment])
    ensures DataStart(56, [segment], 0) == if segment.header.align == 1 then 56 else 4096
  {
    hide IsPowerOf2, LeastMultiple;
    PageSize();
    assert EndOf(56, [segment], 0) == Some(56);
    assert EndOf(56, [segment], 1) == Next(56, segment.header);
    assert DataEnd(56, [segment], 0) == 56;
    if segment.header.align == 4096 {
      StartIsLeast(56, [segment], 0);
      RoundedToPage(DataStart(56, [segment], 0));
    }
  }

  lemma RoundedToPage(start: nat)
    requires LeastMultiple(start, 56, 4096)
    ensures start == 4096
  {
  }

  lemma PageSize()
    ensures IsPowerOf2(4096)
  {
    hide Pow2;
    PowOne();
    PowNibble(0);
    NextByte(4);
    assert Pow2(12) == 4096;
  }

  // ---- layout properties ----

  lemma {:induction false} FileGrows(prefix: seq<byte>, base: nat, segments: seq<Segment>, payloads: seq<seq<byte>>,
                                     j: nat, k: nat)
    requires Layable(base, segments) && |payloads| == |segments| && j <= k
    requires FitsUpTo(|prefix|, base, segments, payloads, k)
    ensures FileUpTo(prefix, base, segments, payloads, j) <= FileUpTo(prefix, base, segments, payloads, k)
    decreases k
  {
    hide DataStart, DataEnd, Layable, Position;
    if j < k {
      FileGrows(prefix, base, segments, payloads, j, k - 1);
    }
  }

  lemma {:induction false} StartsInOrder(base: nat, segments: seq<Segment>, j: nat, k: nat)
    requires Layable(base, segments) && j < k < |segments|
    ensures DataStart(base, segments, j) + segments[j].header.filesz <= DataStart(base, segments, k)
    decreases k
  {
    hide Layable, DataStart, DataEnd, LeastMultiple, IsPowerOf2;
    if j < k - 1 {
      StartsInOrder(base, segments, j, k - 1);
    }
  }

  lemma FileStep(prefix: seq<byte>, base: nat, segments: seq<Segment>, payloads: seq<seq<byte>>, k: nat)
    requires Layable(base, segments) && |payloads| == |segments|
    requires FitsUpTo(|prefix|, base, segments, payloads, k + 1)
    ensures var f := FileUpTo(prefix, base, segments, payloads, k);
      && |f| <= DataStart(base, segments, k)
      && FileUpTo(prefix, base, segments, payloads, k + 1)
         == f + Repeat(0, DataStart(base, segments, k) - |f|) + payloads[k]
  {
    hide DataEnd, Layable, DataStart, Position;
  }

  lemma {:induction false} SegmentPlaced(prefix: seq<byte>, base: nat, segments: seq<Segment>,
                                         payloads: seq<seq<byte>>, k: nat)
    requires Layable(base, segments) && |payloads| == |segments| && k < |segments|
    requires FitsUpTo(|prefix|, base, segments, payloads, |segments|)
    ensures var file := FileUpTo(prefix, base, segments, payloads, |segments|);
      var position := Position(|prefix|, base, segments, payloads, k);
      var start := DataStart(base, segments, k);
      && At(file, start, payloads[k])
      && position <= start <= |file| && file[position..start] == Repeat(0, start - position)
  {
    hide DataEnd, Layable, DataStart, FileUpTo, Position;
    FileGrows(prefix, base, segments, payloads, k + 1, |segments|);
    FileStep(prefix, base, segments, payloads, k);
    var f := FileUpTo(prefix, base, segments, payloads, k);
    GapAndPayload(FileUpTo(prefix, base, segments, payloads, |segments|), f,
                  DataStart(base, segments, k) - |f|, payloads[k]);
  }

  lemma GapAndPayload(file: seq<byte>, f: seq<byte>, gap: nat, payload: seq<byte>)
    requires f + Repeat(0, gap) + payload <= file
    ensures At(file, |f| + gap, payload) && file[|f|..|f| + gap] == Repeat(0, gap)
  {
    var g := f + Repeat(0, gap) + payload;
    assert g[|f| + gap..] == payload;
    assert file[|f| + gap..|g|] == g[|f| + gap..];
    assert g[|f|..|f| + gap] == Repeat(0, gap);
    assert file[|f|..|f| + gap] == g[|f|..|f| + gap];
  }

  /** Each segment's payload stands at its recorded offset, less than its alignment behind its
      predecessor's announced end and, for powers of two, at the least multiple there; the bytes from
      where the predecessor really ended up to there are zero. */
  lemma CoreFileLayout(input: Header, segments: seq<Segment>, payloads: seq<seq<byte>>, k: nat)
    requires Writable(input, segments, payloads) && k < |segments|
    ensures var base, file := Base(input, segments), CoreFile(input, segments, payloads);
      var start, end := DataStart(base, segments, k), DataEnd(base, segments, k);
      var written := if k == 0 then PrefixLen(segments)
                     else DataStart(base, segments, k - 1) + |payloads[k - 1]|;
      && Placed(base, segments)[k].header.offset == start
      && At(file, start, payloads[k])
      && written <= start <= |file| && file[written..start] == Repeat(0, start - written)
      && (k > 0 ==> DataStart(base, segments, k - 1) + segments[k - 1].header.filesz == end)
      && end <= start && (start == end || start - end < segments[k].header.align)
      && (IsPowerOf2(segments[k].header.align) ==> LeastMultiple(start, end, segments[k].header.align))
  {
    hide Prefix, LeastMultiple, IsPowerOf2;
    SegmentPlaced(Prefix(input, segments), Base(input, segments), segments, payloads, k);
    if IsPowerOf2(segments[k].header.align) {
      StartIsLeast(Base(input, segments), segments, k);
    }
  }

  /** In the file, a memory segment whose read failed after some bytes holds those bytes and then only
      the fill byte, up to exactly its announced size. A read that just ends early is the only way to
      less. */
  lemma FailedReadFilled(input: Header, segments: seq<Segment>, memory: Memory, payloads: seq<seq<byte>>, k: nat)
    requires Writable(input, segments, payloads) && k < |segments| && segments[k].data.ProcessMemory?
    requires payloads[k] == Intended(segments[k], memory)
    ensures var file, start := CoreFile(input, segments, payloads), DataStart(Base(input, segments), segments, k);
      var r, filesz := memory(segments[k].header.vaddr), segments[k].header.filesz;
      && (|payloads[k]| == filesz <==> r.failed || |r.bytes| >= filesz)
      && (r.failed && |r.bytes| < filesz ==>
            && start + filesz <= |file| && file[start..start + |r.bytes|] == r.bytes
            && file[start + |r.bytes|..start + filesz] == Repeat(0xEF, filesz - |r.bytes|))
  {
    hide Prefix, LeastMultiple, IsPowerOf2, DataStart, DataEnd, Layable, FileUpTo, Position;
    SegmentPlaced(Prefix(input, segments), Base(input, segments), segments, payloads, k);
    var r, filesz := memory(segments[k].header.vaddr), segments[k].header.filesz;
    if r.failed && |r.bytes| < filesz {
      assert r.bytes[..|r.bytes|] == r.bytes;
      assert payloads[k] == r.bytes + Repeat(FILL_BYTE, filesz - |r.bytes|);
      AtSplit(CoreFile(input, segments, payloads), DataStart(Base(input, segments), segments, k), r.bytes,
              Repeat(FILL_BYTE, filesz - |r.bytes|));
    }
  }
}
