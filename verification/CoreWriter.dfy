/** The single-pass core writer: it computes every offset before writing the first data byte, then
    only ever appends. */
module CoreWriter {
  import opened Bytes
  import opened ElfFormat
  import opened Alignment
  import opened CoreLayout

  /** An output that counts what passes through it. The writer behind it may refuse at any time. */
  class StreamPositionTracker {
    var output: seq<byte>
    var pos: nat
    ghost var refusals: nat

    ghost predicate Valid()
      reads this
    {
      pos == |output|
    }

    constructor ()
      ensures Valid() && output == [] && refusals == 0
    {
      output, pos, refusals := [], 0, 0;
    }

    // One write may take only part of what it is given, or fail and take nothing.
    method Write(bytes: seq<byte>) returns (written: Option<nat>)
      requires Valid()
      modifies this
      ensures Valid()
      ensures written.None? ==> output == old(output) && refusals == old(refusals) + 1
      ensures written.Some? ==> refusals == old(refusals) && written.value <= |bytes|
                                && output == old(output) + bytes[..written.value]
      ensures written.Some? && bytes != [] ==> written.value > 0
    {
      var failed: bool, n: nat := *, *;
      if failed {
        refusals := refusals + 1;
        return None;
      }
      n := if bytes == [] then 0 else 1 + n % |bytes|;
      output, pos := output + bytes[..n], pos + n;
      return Some(n);
    }

    // Everything or, if the writer refuses on the way, a prefix.
    method WriteAll(bytes: seq<byte>) returns (ok: bool)
      requires Valid()
      modifies this
      ensures Valid()
      ensures ok ==> output == old(output) + bytes
      ensures !ok ==> old(output) <= output <= old(output) + bytes
      ensures refusals == old(refusals) + if ok then 0 else 1
    {
      var done := 0;
      while done < |bytes|
        invariant Valid() && done <= |bytes| && output == old(output) + bytes[..done]
        invariant refusals == old(refusals)
      {
        var n := Write(bytes[done..]);
        if n.None? {
          return false;
        }
        assert bytes[..done] + bytes[done..][..n.value] == bytes[..done + n.value];
        done := done + n.value;
      }
      assert bytes[..done] == bytes;
      return true;
    }
  }

  /** How writing a core ends: too many segments to count in 16 bits, a padding that would be negative,
      or a refused write. */
  datatype Outcome = Done | TooManySegments | Underflow | OutputFailed

  function IntendedAll(segments: seq<Segment>, memory: Memory): (r: seq<seq<byte>>)
    ensures |r| == |segments|
  {
    seq(|segments|, k requires 0 <= k < |segments| => Intended(segments[k], memory))
  }

  ghost predicate Produced(segments: seq<Segment>, memory: Memory, payloads: seq<seq<byte>>) {
    && |payloads| == |segments|
    && forall k :: 0 <= k < |segments| ==> Producible(segments[k], memory, payloads[k])
  }

  class CoreWriter {
    var elfHeader: Header
    var dataSegments: seq<Segment>
    const processMemory: Memory
    const outputStream: StreamPositionTracker

    constructor (elfHeader: Header, outputStream: StreamPositionTracker, processMemory: Memory)
      ensures this.elfHeader == elfHeader && this.outputStream == outputStream
      ensures this.processMemory == processMemory && dataSegments == []
    {
      this.elfHeader := elfHeader;
      this.outputStream := outputStream;
      this.processMemory := processMemory;
      this.dataSegments := [];
    }

    method AddSegment(header: ProgramHeader, data: SegmentData)
      modifies this
      ensures dataSegments == old(dataSegments) + [Segment(header, data)]
      ensures elfHeader == old(elfHeader)
    {
      dataSegments := dataSegments + [Segment(header, data)];
    }

    /** Writes the whole core. It fails without writing anything if the segments outgrow the header's
        count, and before the first cramped segment. A refused write leaves a prefix of such a core.
        `count` is the number of segments reached, `payloads` what they hold. */
    method Write() returns (r: Outcome, ghost count: nat, ghost payloads: seq<seq<byte>>)
      requires outputStream.Valid() && outputStream.output == []
      requires VerifyHeader(elfHeader) && Layable(Base(elfHeader, dataSegments), dataSegments)
      modifies this, outputStream
      ensures outputStream.Valid()
      ensures r == TooManySegments <==> |old(dataSegments)| >= 0x1_0000
      ensures r == TooManySegments ==> outputStream.output == [] && dataSegments == old(dataSegments)
      ensures r == OutputFailed ==> outputStream.refusals > old(outputStream.refusals)
      ensures r == Done ==> !Cramped(old(elfHeader), old(dataSegments))
      ensures r == Done ==> dataSegments == Placed(Base(old(elfHeader), old(dataSegments)), old(dataSegments))
      ensures r == Done ==> Writable(old(elfHeader), old(dataSegments), payloads)
                            && outputStream.output == CoreFile(old(elfHeader), old(dataSegments), payloads)
      ensures r != TooManySegments ==>
        Reached(old(elfHeader), old(dataSegments), processMemory, payloads, count, r, outputStream.output)
      ensures outputStream.refusals == old(outputStream.refusals) ==>
        payloads == IntendedAll(old(dataSegments), processMemory)
    {
      hide CoreLayout.Table, DataStart, DataEnd, FileUpTo, Placed, Intended, Layable, EncodeHeader,
           VerifyHeader, Headers, Cramped, CrampedAt, Prefix, Produced, Producible;
      ghost var input, segments := elfHeader, dataSegments;
      count, payloads := 0, IntendedAll(segments, processMemory);
      r := WriteElfHeader();
      if r == TooManySegments {
        return;
      }
      NothingReached(input, segments, processMemory);
      if r == OutputFailed {
        HeaderBegins(input, segments, outputStream.output);
        return;
      }
      var ok := WriteProgramHeaders(input, segments);
      if !ok {
        return OutputFailed, count, payloads;
      }
      r, count, payloads := WriteDataSegments(input, segments);
      if r == Done {
        WholeCore(input, segments, processMemory, payloads, count, outputStream.output);
      }
    }

    method WriteElfHeader() returns (r: Outcome)
      requires outputStream.Valid() && outputStream.output == [] && VerifyHeader(elfHeader)
      modifies this, outputStream
      ensures outputStream.Valid() && dataSegments == old(dataSegments) && r != Underflow
      ensures r == TooManySegments <==> |dataSegments| >= 0x1_0000
      ensures r == TooManySegments ==> outputStream.output == [] && outputStream.refusals == old(outputStream.refusals)
      ensures r != TooManySegments ==> elfHeader == old(elfHeader).(phnum := |dataSegments|)
      ensures r == Done ==> outputStream.output == EncodeHeader(OutputHeader(old(elfHeader), |dataSegments|))
      ensures r == OutputFailed ==> outputStream.output <= EncodeHeader(OutputHeader(old(elfHeader), |dataSegments|))
      ensures outputStream.refusals == old(outputStream.refusals) + if r == OutputFailed then 1 else 0
    {
      hide EncodeHeader;
      var segmentCount := |dataSegments|;
      var pheaderSize, pheaderOffset := 0, 0;
      if segmentCount > 0 {
        pheaderSize, pheaderOffset := SIZEOF_PHDR, SIZEOF_EHDR;
      }
      if segmentCount >= 0x1_0000 {
        return TooManySegments;
      }
      var ident := ELFMAG + [elfHeader.ident[EI_CLASS], elfHeader.ident[EI_DATA], EV_CURRENT] + Repeat(0, 9);
      var header := Header(ident, ET_CORE, elfHeader.machine, EV_CURRENT, 0, pheaderOffset, 0, 0,
                           SIZEOF_EHDR, pheaderSize, segmentCount, 0, 0, 0);
      elfHeader := elfHeader.(phnum := segmentCount);
      var ok := outputStream.WriteAll(EncodeHeader(header));
      return if ok then Done else OutputFailed;
    }

    // First pass: assign each segment its offset and write its program header.
    method WriteProgramHeaders(ghost input: Header, ghost segments: seq<Segment>) returns (ok: bool)
      requires outputStream.Valid() && dataSegments == segments && |segments| < 0x1_0000
      requires VerifyHeader(input) && elfHeader == input.(phnum := |segments|)
      requires Layable(Base(input, segments), segments)
      requires outputStream.output == EncodeHeader(OutputHeader(input, |segments|))
      modifies this, outputStream
      ensures outputStream.Valid() && elfHeader == old(elfHeader)
      ensures ok ==> dataSegments == Placed(Base(input, segments), segments)
      ensures ok ==> outputStream.output == Prefix(input, segments)
      ensures !ok ==> outputStream.output <= Prefix(input, segments)
      ensures outputStream.refusals == old(outputStream.refusals) + if ok then 0 else 1
    {
      hide EncodeProgramHeader, DataStart, DataEnd, Layable, Placed, Headers, EncodedHeaders, LeastMultiple,
           CalcPadding, Concat, EncodeHeader, Prefix;
      ghost var base := Base(input, segments);
      ghost var parts := EncodedHeaders(Headers(Placed(base, segments)));
      var segmentDataOffset := elfHeader.phoff + elfHeader.phentsize * |dataSegments|;
      assert segmentDataOffset == base;
      FirstEnd(base, segments);
      PlacedStarts(base, segments);
      for i := 0 to |dataSegments|
        invariant |dataSegments| == |segments| && elfHeader == old(elfHeader) && outputStream.Valid()
        invariant segmentDataOffset == DataEnd(base, segments, i)
        invariant dataSegments == Placed(base, segments)[..i] + segments[i..]
        invariant outputStream.output == old(outputStream.output) + Concat(parts[..i])
        invariant outputStream.refusals == old(outputStream.refusals)
      {
        PaddingSafe(base, segments, i);
        var header := dataSegments[i].header;
        var padding := CalcPadding(segmentDataOffset, header.align);
        header := header.(offset := segmentDataOffset + padding);
        PlacedStep(base, segments, i);
        PrefixPart(input, segments, i);
        dataSegments := dataSegments[i := dataSegments[i].(header := header)];
        segmentDataOffset := segmentDataOffset + header.filesz + padding;
        var written := outputStream.WriteAll(EncodeProgramHeader(header));
        if !written {
          return false;
        }
      }
      assert parts[..|parts|] == parts;
      assert Placed(base, segments)[..|segments|] == Placed(base, segments);
      PrefixParts(input, segments);
      return true;
    }

    // Second pass: pad up to each recorded offset and append the data.
    method WriteDataSegments(ghost input: Header, ghost segments: seq<Segment>)
      returns (r: Outcome, ghost count: nat, ghost payloads: seq<seq<byte>>)
      requires Layable(Base(input, segments), segments) && |segments| < 0x1_0000
      requires outputStream.Valid() && outputStream.output == Prefix(input, segments)
      requires dataSegments == Placed(Base(input, segments), segments)
      modifies outputStream
      ensures outputStream.Valid() && r != TooManySegments
      ensures Reached(input, segments, processMemory, payloads, count, r, outputStream.output)
      ensures r == OutputFailed ==> outputStream.refusals > old(outputStream.refusals)
      ensures outputStream.refusals == old(outputStream.refusals) ==> payloads == IntendedAll(segments, processMemory)
    {
      hide DataStart, DataEnd, Layable, FileUpTo, Intended, Producible, CrampedAt, Prefix, Position, LeastMultiple,
           IsPowerOf2;
      ghost var base := Base(input, segments);
      count, payloads := 0, IntendedAll(segments, processMemory);
      NothingReached(input, segments, processMemory);
      for i := 0 to |dataSegments|
        invariant outputStream.Valid() && count == i
        invariant Progress(input, segments, processMemory, payloads, i)
        invariant outputStream.output == CoreUpTo(input, segments, payloads, i)
        invariant outputStream.refusals >= old(outputStream.refusals)
        invariant forall k :: i <= k < |segments| ==> payloads[k] == Intended(segments[k], processMemory)
        invariant outputStream.refusals == old(outputStream.refusals) ==>
          payloads == IntendedAll(segments, processMemory)
      {
        CrampedExactly(input, segments, processMemory, payloads, i);
        var curPosition := outputStream.pos;
        if dataSegments[i].header.offset < curPosition {
          return Underflow, count, payloads;
        }
        FitsNext(Prefix(input, segments), base, segments, payloads, i);
        var ok := WritePadding(dataSegments[i].header.offset - curPosition);
        count := i + 1;
        if !ok {
          return OutputFailed, count, payloads;
        }
        ghost var payload;
        ok, payload := WriteSegment(dataSegments[i], segments[i]);
        PayloadChosen(Prefix(input, segments), base, segments, payloads, i, payload);
        payloads := payloads[i := payload];
        if !ok {
          return OutputFailed, count, payloads;
        }
      }
      return Done, count, payloads;
    }

    method WritePadding(padding: nat) returns (ok: bool)
      requires outputStream.Valid()
      modifies outputStream
      ensures outputStream.Valid()
      ensures ok ==> outputStream.output == old(outputStream.output) + Repeat(0, padding)
      ensures !ok ==> outputStream.output <= old(outputStream.output) + Repeat(0, padding)
      ensures outputStream.refusals == old(outputStream.refusals) + if ok then 0 else 1
    {
      ok := true;
      if padding > 0 {
        ok := outputStream.WriteAll(Repeat(0, padding));
      }
    }

    /** Appends the segment's buffer or memory. Copying memory fails when memory does or when the output
        does; either way the rest is filled up to the announced size. */
    method WriteSegment(segment: Segment, ghost source: Segment) returns (ok: bool, ghost payload: seq<byte>)
      requires outputStream.Valid() && outputStream.pos == segment.header.offset
      requires segment == source.(header := source.header.(offset := segment.header.offset))
      modifies outputStream
      ensures outputStream.Valid()
      ensures Producible(source, processMemory, payload)
      ensures ok ==> outputStream.output == old(outputStream.output) + payload
      ensures !ok ==> outputStream.output <= old(outputStream.output) + payload
                      && outputStream.refusals > old(outputStream.refusals)
      ensures outputStream.refusals >= old(outputStream.refusals)
      ensures outputStream.refusals == old(outputStream.refusals) ==> payload == Intended(source, processMemory)
    {
      ok, payload := true, Intended(source, processMemory);
      match segment.data {
        case Buffer(data) =>
          ok := outputStream.WriteAll(data);
        case ProcessMemory =>
          ghost var before := outputStream.output;
          var failed, copied := ReadProcessMemory(segment.header.vaddr, segment.header.filesz);
          if failed {
            payload := Filled(source, processMemory, copied);
            ok := FillRemainingBytes(segment.header.offset + segment.header.filesz);
          }
      }
    }

    // Copies until the announced size, the end of the memory or a failure; what was copied stays.
    method ReadProcessMemory(addr: nat, len: nat) returns (failed: bool, ghost copied: nat)
      requires outputStream.Valid()
      modifies outputStream
      ensures outputStream.Valid()
      ensures var r := Taken(processMemory(addr), len);
        && copied <= |r.bytes| && outputStream.output == old(outputStream.output) + r.bytes[..copied]
        && (!failed ==> !r.failed && copied == |r.bytes|)
        && outputStream.refusals >= old(outputStream.refusals)
        && (outputStream.refusals == old(outputStream.refusals) ==> failed == r.failed && copied == |r.bytes|)
    {
      var r := Taken(processMemory(addr), len);
      var ok := outputStream.WriteAll(r.bytes);
      failed := r.failed || !ok;
      copied := outputStream.pos - |old(outputStream.output)|;
      assert (old(outputStream.output) + r.bytes)[..outputStream.pos]
          == old(outputStream.output) + r.bytes[..copied];
    }

    method FillRemainingBytes(segmentEnd: nat) returns (ok: bool)
      requires outputStream.Valid()
      modifies outputStream
      ensures outputStream.Valid()
      ensures var written := |old(outputStream.output)|;
        var filled := old(outputStream.output)
                      + Repeat(FILL_BYTE, if segmentEnd >= written then segmentEnd - written else 0);
        && (ok ==> outputStream.output == filled) && (!ok ==> outputStream.output <= filled)
      ensures outputStream.refusals == old(outputStream.refusals) + if ok then 0 else 1
    {
      ok := true;
      if segmentEnd >= outputStream.pos {
        ok := outputStream.WriteAll(Repeat(FILL_BYTE, segmentEnd - outputStream.pos));
      }
    }
  }

  /** The first `count` segments have payloads they may hold, and none of them was cramped. */
  ghost predicate Progress(input: Header, segments: seq<Segment>, memory: Memory, payloads: seq<seq<byte>>, count: nat)
    requires Layable(Base(input, segments), segments) && |segments| < 0x1_0000
  {
    && Produced(segments, memory, payloads) && count <= |segments|
    && (forall k :: 0 <= k < count ==> !CrampedAt(input, segments, k))
    && FitsUpTo(PrefixLen(segments), Base(input, segments), segments, payloads, count)
  }

  /** What an outcome means: the whole core; the core before the first cramped segment; or, after a
      refused write, a prefix of a core. */
  ghost predicate Reached(input: Header, segments: seq<Segment>, memory: Memory, payloads: seq<seq<byte>>, count: nat,
                          r: Outcome, written: seq<byte>)
    requires Layable(Base(input, segments), segments) && |segments| < 0x1_0000
  {
    && Progress(input, segments, memory, payloads, count)
    && var core := CoreUpTo(input, segments, payloads, count);
      match r
      case Done => count == |segments| && written == core
      case Underflow => count < |segments| && CrampedAt(input, segments, count) && written == core
      case _ => written <= core
  }

  lemma FirstEnd(base: nat, segments: seq<Segment>)
    requires Layable(base, segments)
    ensures DataEnd(base, segments, 0) == base
  {
  }

  lemma PaddingSafe(base: nat, segments: seq<Segment>, k: nat)
    requires Layable(base, segments) && k < |segments|
    ensures var end, header := DataEnd(base, segments, k), segments[k].header;
      && end + header.align <= WORD_LIMIT
      && DataStart(base, segments, k) == end + CalcPadding(end, header.align)
      && DataEnd(base, segments, k + 1) == end + CalcPadding(end, header.align) + header.filesz
  {
    hide Layable, DataEnd, CalcPadding, LeastMultiple, IsPowerOf2;
    EndStep(base, segments, k);
  }

  lemma PlacedStarts(base: nat, segments: seq<Segment>)
    requires Layable(base, segments)
    ensures Placed(base, segments)[..0] + segments[0..] == segments
    ensures Concat(EncodedHeaders(Headers(Placed(base, segments)))[..0]) == []
  {
  }

  // Assigning the offset of segment `i` and encoding its header advances both sequences by one.
  lemma PlacedStep(base: nat, segments: seq<Segment>, i: nat)
    requires Layable(base, segments) && i < |segments|
    ensures var placed, midway := Placed(base, segments), Placed(base, segments)[..i] + segments[i..];
      && |midway| == |segments| && midway[i] == segments[i]
      && midway[i := PlacedSegment(base, segments, i)] == placed[..i + 1] + segments[i + 1..]
    ensures var parts := EncodedHeaders(Headers(Placed(base, segments)));
      Concat(parts[..i + 1]) == Concat(parts[..i]) + EncodeProgramHeader(PlacedSegment(base, segments, i).header)
  {
    hide EncodeProgramHeader, Layable, PlacedSegment, Concat;
    EncodedStep(Headers(Placed(base, segments)), i);
    Advance(Placed(base, segments), segments, i);
  }

  lemma Advance(placed: seq<Segment>, segments: seq<Segment>, i: nat)
    requires |placed| == |segments| && i < |segments|
    ensures var midway := placed[..i] + segments[i..];
      && |midway| == |segments| && midway[i] == segments[i]
      && midway[i := placed[i]] == placed[..i + 1] + segments[i + 1..]
  {
  }

  lemma EncodedStep(headers: seq<ProgramHeader>, i: nat)
    requires i < |headers|
    ensures var parts := EncodedHeaders(headers);
      Concat(parts[..i + 1]) == Concat(parts[..i]) + EncodeProgramHeader(headers[i])
  {
    hide EncodeProgramHeader, Concat;
    var parts := EncodedHeaders(headers);
    assert parts[..i + 1] == parts[..i] + [parts[i]];
    ConcatSnoc(parts[..i], parts[i]);
  }

  lemma PrefixParts(input: Header, segments: seq<Segment>)
    requires Layable(Base(input, segments), segments) && |segments| < 0x1_0000
    ensures Prefix(input, segments) == EncodeHeader(OutputHeader(input, |segments|)) + Table(input, segments)
  {
  }

  // Header and the first `i` program headers, and what of the next one is written, begin the prefix.
  lemma PrefixPart(input: Header, segments: seq<Segment>, i: nat)
    requires Layable(Base(input, segments), segments) && |segments| < 0x1_0000 && i < |segments|
    ensures var parts := EncodedHeaders(Headers(Placed(Base(input, segments), segments)));
      EncodeHeader(OutputHeader(input, |segments|)) + Concat(parts[..i + 1]) <= Prefix(input, segments)
  {
    hide EncodeHeader, EncodedHeaders, Headers, Placed;
    var parts := EncodedHeaders(Headers(Placed(Base(input, segments), segments)));
    ConcatPrefix(parts, i + 1);
  }

  lemma {:induction false} ConcatPrefix(parts: seq<seq<byte>>, i: nat)
    requires i <= |parts|
    ensures Concat(parts[..i]) <= Concat(parts)
  {
    if i > 0 {
      assert parts[..i][1..] == parts[1..][..i - 1];
      ConcatPrefix(parts[1..], i - 1);
    }
  }

  lemma HeaderBegins(input: Header, segments: seq<Segment>, written: seq<byte>)
    requires Layable(Base(input, segments), segments) && |segments| < 0x1_0000
    requires written <= EncodeHeader(OutputHeader(input, |segments|))
    ensures written <= Prefix(input, segments)
  {
    hide EncodeHeader;
  }

  lemma NothingReached(input: Header, segments: seq<Segment>, memory: Memory)
    requires Layable(Base(input, segments), segments) && |segments| < 0x1_0000
    ensures Produced(segments, memory, IntendedAll(segments, memory))
    ensures CoreUpTo(input, segments, IntendedAll(segments, memory), 0) == Prefix(input, segments)
  {
    hide Intended, Prefix, DataStart, DataEnd, Layable;
  }

  lemma FitsNext(prefix: seq<byte>, base: nat, segments: seq<Segment>, payloads: seq<seq<byte>>, i: nat)
    requires Layable(base, segments) && |payloads| == |segments| && i < |segments|
    requires FitsUpTo(|prefix|, base, segments, payloads, i)
    requires Position(|prefix|, base, segments, payloads, i) <= DataStart(base, segments, i)
    ensures FitsUpTo(|prefix|, base, segments, payloads, i + 1)
    ensures var f := FileUpTo(prefix, base, segments, payloads, i);
      FileUpTo(prefix, base, segments, payloads, i + 1)
      == f + Repeat(0, DataStart(base, segments, i) - |f|) + payloads[i]
  {
    hide Layable, DataStart, Position;
    FileStep(prefix, base, segments, payloads, i);
  }

  // Which payload segment `i` gets does not affect the file before it.
  lemma PayloadChosen(prefix: seq<byte>, base: nat, segments: seq<Segment>, payloads: seq<seq<byte>>, i: nat,
                      payload: seq<byte>)
    requires Layable(base, segments) && |payloads| == |segments| && i < |segments|
    requires FitsUpTo(|prefix|, base, segments, payloads, i + 1)
    ensures var payloads' := payloads[i := payload];
      && FitsUpTo(|prefix|, base, segments, payloads', i + 1)
      && var f := FileUpTo(prefix, base, segments, payloads, i);
        FileUpTo(prefix, base, segments, payloads', i + 1)
        == f + Repeat(0, DataStart(base, segments, i) - |f|) + payload
  {
    hide Layable, DataStart, FileUpTo;
    var payloads' := payloads[i := payload];
    SameBefore(prefix, base, segments, payloads, payloads', i);
    FileStep(prefix, base, segments, payloads', i);
  }

  lemma {:induction false} SameBefore(prefix: seq<byte>, base: nat, segments: seq<Segment>,
                                      a: seq<seq<byte>>, b: seq<seq<byte>>, n: nat)
    requires Layable(base, segments) && |a| == |b| == |segments| && n <= |segments| && a[..n] == b[..n]
    requires FitsUpTo(|prefix|, base, segments, a, n)
    ensures FitsUpTo(|prefix|, base, segments, b, n)
    ensures FileUpTo(prefix, base, segments, a, n) == FileUpTo(prefix, base, segments, b, n)
  {
    hide Layable, DataStart, DataEnd, LeastMultiple, IsPowerOf2;
    assert forall k :: 0 <= k < n ==> a[k] == a[..n][k] == b[..n][k] == b[k];
    assert FitsUpTo(|prefix|, base, segments, b, n) by {
      forall k | 0 <= k < n
        ensures Position(|prefix|, base, segments, b, k) <= DataStart(base, segments, k)
      {
        assert Position(|prefix|, base, segments, a, k) <= DataStart(base, segments, k);
      }
    }
    if n > 0 {
      assert a[..n - 1] == b[..n - 1];
      SameBefore(prefix, base, segments, a, b, n - 1);
    }
  }

  lemma WholeCore(input: Header, segments: seq<Segment>, memory: Memory, payloads: seq<seq<byte>>, count: nat,
                  written: seq<byte>)
    requires Layable(Base(input, segments), segments) && |segments| < 0x1_0000 && VerifyHeader(input)
    requires Reached(input, segments, memory, payloads, count, Done, written)
    ensures !Cramped(input, segments)
    ensures Writable(input, segments, payloads) && written == CoreFile(input, segments, payloads)
  {
    hide CrampedAt, FitsUpTo, CoreUpTo, Layable, VerifyHeader, Base;
    assert count == |segments|;
    assert Writable(input, segments, payloads);
    assert written == CoreUpTo(input, segments, payloads, count);
  }
}
