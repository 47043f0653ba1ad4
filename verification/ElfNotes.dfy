/** Building ELF notes and iterating over a buffer of them (System V gABI chapter 5 "Note Section"):
    a 12-byte header, then name and description, each padded to four bytes. */
module ElfNotes {
  import opened Bytes
  import opened Alignment
  import FileNotes

  datatype Note = Note(name: seq<byte>, noteType: u32, description: seq<byte>)

  const NHDR_SIZE: nat := 12

  /** The terminating NUL counts, but an empty name has size zero. */
  function NameSize(name: seq<byte>): nat {
    if name == [] then 0 else |name| + 1
  }

  function Align4(n: nat): (r: nat)
    requires n <= 0x1_0000_0000
    ensures LeastMultiple(r, n, 4)
  {
    FourIsPower();
    AlignUpIsLeast(n, 4);
    AlignUp(n, 4)
  }

  lemma FourIsPower()
    ensures IsPowerOf2(4)
  {
    assert Pow2(2) == 4;
  }

  predicate Buildable(name: seq<byte>, description: seq<byte>) {
    NameSize(name) < 0x1_0000_0000 && |description| < 0x1_0000_0000
  }

  function NoteHeader(note: Note): seq<byte> {
    LeBytes(NameSize(note.name), 4) + LeBytes(|note.description|, 4) + LeBytes(note.noteType, 4)
  }

  function EncodeNote(note: Note): (e: seq<byte>)
    requires Buildable(note.name, note.description)
    ensures |e| == NHDR_SIZE + Align4(NameSize(note.name)) + Align4(|note.description|)
  {
    NoteHeader(note)
    + (note.name + Repeat(0, Align4(NameSize(note.name)) - |note.name|))
    + (note.description + Repeat(0, Align4(|note.description|) - |note.description|))
  }

  function Overwrite(s: seq<byte>, off: nat, data: seq<byte>): (r: seq<byte>)
    requires off + |data| <= |s|
    ensures |r| == |s|
  {
    s[..off] + data + s[off + |data|..]
  }

  method CopyInto(buf: array<byte>, off: nat, data: seq<byte>)
    requires off + |data| <= buf.Length
    modifies buf
    ensures buf[..] == Overwrite(old(buf[..]), off, data)
  {
    forall i | 0 <= i < |data| {
      buf[off + i] := data[i];
    }
  }

  /** Fails only when a size does not fit its 32-bit field. */
  method BuildElfNote(name: seq<byte>, description: seq<byte>, noteType: u32) returns (r: Option<seq<byte>>)
    ensures r.Some? <==> Buildable(name, description)
    ensures r.Some? ==> r.value == EncodeNote(Note(name, noteType, description))
  {
    hide LeastMultiple, Align4, LeBytes, Overwrite;
    var nameSize := |name|;
    if nameSize > 0 {
      nameSize := nameSize + 1;
    }
    if nameSize >= 0x1_0000_0000 || |description| >= 0x1_0000_0000 {
      return None;
    }
    var note := Note(name, noteType, description);
    var header := NoteHeader(note);
    var alignedNameSize, alignedDescSize := Align4(nameSize), Align4(|description|);
    LeastIsAbove(alignedNameSize, nameSize);
    LeastIsAbove(alignedDescSize, |description|);
    var buffer := new byte[NHDR_SIZE + alignedNameSize + alignedDescSize](_ => 0);
    assert buffer[..] == Repeat(0, NHDR_SIZE + alignedNameSize + alignedDescSize);
    CopyInto(buffer, 0, header);
    CopyInto(buffer, NHDR_SIZE, name);
    CopyInto(buffer, NHDR_SIZE + alignedNameSize, description);
    LaidOut(header, name, description, alignedNameSize, alignedDescSize);
    r := Some(buffer[..]);
  }

  lemma LaidOut(header: seq<byte>, name: seq<byte>, description: seq<byte>, a: nat, d: nat)
    requires |header| == NHDR_SIZE && |name| <= a && |description| <= d
    ensures var zeros := Repeat(0, NHDR_SIZE + a + d);
      Overwrite(Overwrite(Overwrite(zeros, 0, header), NHDR_SIZE, name), NHDR_SIZE + a, description)
      == header + (name + Repeat(0, a - |name|)) + (description + Repeat(0, d - |description|))
  {
    var one := Overwrite(Repeat(0, NHDR_SIZE + a + d), 0, header);
    assert one == header + Repeat(0, a + d);
    var two := Overwrite(one, NHDR_SIZE, name);
    assert two == header + (name + Repeat(0, a - |name|)) + Repeat(0, d);
  }

  lemma LeastIsAbove(r: nat, n: nat)
    requires LeastMultiple(r, n, 4)
    ensures r >= n
  {
  }

  // ---- iterating ----

  /** One attempt to read a note: the note and where the next one starts, or a failure and the
      offset it leaves behind (a header that was read is not put back). */
  datatype NoteStep = Parsed(note: Note, next: nat) | Failed(next: nat)

  function TryNextNote(buffer: seq<byte>, offset: nat): (step: NoteStep)
    ensures step.Parsed? ==> offset + NHDR_SIZE <= step.next <= |buffer|
    ensures step.Failed? ==> offset <= step.next <= offset + NHDR_SIZE
  {
    if |buffer| < offset + NHDR_SIZE then Failed(offset)
    else
      var nameSize, descSize := U32(buffer, offset), U32(buffer, offset + 4);
      var alignedNameSize, alignedDescSize := Align4(nameSize), Align4(descSize);
      var start := offset + NHDR_SIZE;
      if start + alignedNameSize + alignedDescSize > |buffer| then Failed(start)
      else
        var name := if nameSize == 0 then [] else buffer[start..start + nameSize - 1];
        var descOffset := start + alignedNameSize;
        Parsed(Note(name, U32(buffer, offset + 8), buffer[descOffset..descOffset + descSize]),
               descOffset + alignedDescSize)
  }

  /** The notes an iteration yields before it first answers "none". */
  function NotesFrom(buffer: seq<byte>, offset: nat): seq<Note>
    decreases |buffer| - offset
  {
    if offset >= |buffer| then []
    else
      match TryNextNote(buffer, offset)
      case Parsed(note, next) => [note] + NotesFrom(buffer, next)
      case Failed(_) => []
  }

  /** A note as the daemon understands it. Notes of an unknown kind, and notes whose description does
      not parse, are kept as they are. */
  datatype ElfNote =
    | ProcessStatus(description: seq<byte>)
    | File(file: FileNotes.FileNote)
    | GnuBuildId(description: seq<byte>)
    | Auxv(description: seq<byte>)
    | Unknown(note: Note)

  const NOTE_NAME_CORE: seq<byte> := [0x43, 0x4F, 0x52, 0x45]
  const NOTE_NAME_GNU: seq<byte> := [0x47, 0x4E, 0x55]
  const NT_PRSTATUS: u32 := 1
  const NT_GNU_BUILD_ID: u32 := 3
  const NT_AUXV: u32 := 6
  const NT_FILE: u32 := 0x4649_4C45
  // The size of the x86-64 register set note.
  const PRSTATUS_SIZE: nat := 336

  /** None when reserving memory for the note's list ends the program. */
  function Parse(granted: nat, note: Note): Option<ElfNote> {
    if note.name == NOTE_NAME_CORE && note.noteType == NT_PRSTATUS && |note.description| == PRSTATUS_SIZE then
      Some(ProcessStatus(note.description))
    else if note.name == NOTE_NAME_CORE && note.noteType == NT_FILE then
      match FileNotes.Parse(granted, note.description)
      case TooShort => Some(Unknown(note))
      case Aborted => None
      case Parsed(file) => Some(File(file))
    else if note.name == NOTE_NAME_CORE && note.noteType == NT_AUXV then Some(Auxv(note.description))
    else if note.name == NOTE_NAME_GNU && note.noteType == NT_GNU_BUILD_ID then Some(GnuBuildId(note.description))
    else Some(Unknown(note))
  }

  /** The notes up to the first one that ends the program. */
  function ParseAll(granted: nat, notes: seq<Note>): (seq<ElfNote>, bool) {
    if notes == [] then ([], false)
    else
      match Parse(granted, notes[0])
      case None => ([], true)
      case Some(note) =>
        var (rest, aborted) := ParseAll(granted, notes[1..]);
        ([note] + rest, aborted)
  }

  class ElfNoteIterator {
    const noteBuffer: seq<byte>
    const granted: nat
    var offset: nat

    constructor (noteBuffer: seq<byte>, granted: nat)
      ensures this.noteBuffer == noteBuffer && this.granted == granted && offset == 0
    {
      this.noteBuffer := noteBuffer;
      this.granted := granted;
      this.offset := 0;
    }

    method Next() returns (r: Option<ElfNote>, aborted: bool)
      modifies this
      ensures old(offset) >= |noteBuffer| ==> r == None && !aborted && offset == old(offset)
      ensures old(offset) < |noteBuffer| ==>
        && offset == TryNextNote(noteBuffer, old(offset)).next
        && match TryNextNote(noteBuffer, old(offset)) {
             case Parsed(note, _) => r == Parse(granted, note) && (aborted <==> r == None)
             case Failed(_) => r == None && !aborted
           }
    {
      if offset >= |noteBuffer| {
        return None, false;
      }
      var step := TryNextNote(noteBuffer, offset);
      offset := step.next;
      match step {
        case Parsed(note, _) =>
          r := Parse(granted, note);
          aborted := r.None?;
        case Failed(_) =>
          r, aborted := None, false;
      }
    }
  }

  /** Collects until the iterator answers "none" or the program ends; every note moves the offset on by
      at least a header, so this ends. */
  method CollectNotes(noteBuffer: seq<byte>, granted: nat) returns (notes: seq<ElfNote>, aborted: bool)
    ensures (notes, aborted) == ParseAll(granted, NotesFrom(noteBuffer, 0))
    ensures NHDR_SIZE * |notes| <= |noteBuffer|
  {
    hide TryNextNote, Parse;
    var iter := new ElfNoteIterator(noteBuffer, granted);
    notes := [];
    ghost var all := ParseAll(granted, NotesFrom(noteBuffer, 0));
    assert notes + all.0 == all.0;
    while true
      invariant iter.noteBuffer == noteBuffer && iter.granted == granted && iter.offset <= |noteBuffer|
      invariant var rest := ParseAll(granted, NotesFrom(noteBuffer, iter.offset));
        all == (notes + rest.0, rest.1)
      invariant NHDR_SIZE * |notes| <= iter.offset
      decreases |noteBuffer| - iter.offset
    {
      ghost var before := iter.offset;
      var r;
      r, aborted := iter.Next();
      if r.None? {
        assert notes + [] == notes;
        return;
      }
      NextParsed(granted, noteBuffer, before);
      ghost var rest := ParseAll(granted, NotesFrom(noteBuffer, iter.offset)).0;
      assert notes + ([r.value] + rest) == (notes + [r.value]) + rest;
      notes := notes + [r.value];
    }
  }

  lemma {:induction false} NextParsed(granted: nat, buffer: seq<byte>, offset: nat)
    requires offset < |buffer| && TryNextNote(buffer, offset).Parsed?
    requires Parse(granted, TryNextNote(buffer, offset).note).Some?
    ensures var step := TryNextNote(buffer, offset);
      var (rest, aborted) := ParseAll(granted, NotesFrom(buffer, step.next));
      ParseAll(granted, NotesFrom(buffer, offset)) == ([Parse(granted, step.note).value] + rest, aborted)
  {
    hide TryNextNote, Parse;
    var step := TryNextNote(buffer, offset);
    assert ([step.note] + NotesFrom(buffer, step.next))[1..] == NotesFrom(buffer, step.next);
  }

  // ---- round trip under truncation ----

  function EncodeAll(notes: seq<Note>): (r: seq<seq<byte>>)
    requires forall n :: n in notes ==> Buildable(n.name, n.description)
    ensures |r| == |notes|
  {
    seq(|notes|, k requires 0 <= k < |notes| => assert notes[k] in notes; EncodeNote(notes[k]))
  }

  lemma NoteFields(note: Note)
    requires Buildable(note.name, note.description)
    ensures var e, aligned := EncodeNote(note), Align4(NameSize(note.name));
      && e[0..4] == LeBytes(NameSize(note.name), 4)
      && e[4..8] == LeBytes(|note.description|, 4)
      && e[8..12] == LeBytes(note.noteType, 4)
      && e[12..12 + |note.name|] == note.name
      && e[12 + aligned..12 + aligned + |note.description|] == note.description
  {
    hide LeBytes, LeastMultiple, Align4;
    LeastIsAbove(Align4(NameSize(note.name)), NameSize(note.name));
    LeastIsAbove(Align4(|note.description|), |note.description|);
  }

  lemma SizesReadAt(buffer: seq<byte>, offset: nat, note: Note, part: seq<byte>)
    requires Buildable(note.name, note.description) && |part| >= NHDR_SIZE
    requires part <= EncodeNote(note) && At(buffer, offset, part)
    ensures offset + NHDR_SIZE <= |buffer|
    ensures U32(buffer, offset) == NameSize(note.name) && U32(buffer, offset + 4) == |note.description|
    ensures U32(buffer, offset + 8) == note.noteType
  {
    hide EncodeNote, LeBytes, LeValue, Le, Pow256, LeastMultiple, Align4;
    var e := EncodeNote(note);
    NoteFields(note);
    PowValues();
    assert part[0..4] == e[0..4] && part[4..8] == e[4..8] && part[8..12] == e[8..12];
    LeAt(buffer, offset, part, 0, 4, NameSize(note.name));
    LeAt(buffer, offset, part, 4, 4, |note.description|);
    LeAt(buffer, offset, part, 8, 4, note.noteType);
  }

  /** Where a whole encoded note stands, it is the one that is read. */
  lemma ReadNoteAt(buffer: seq<byte>, offset: nat, note: Note)
    requires Buildable(note.name, note.description)
    ensures At(buffer, offset, EncodeNote(note)) ==>
      TryNextNote(buffer, offset) == Parsed(note, offset + |EncodeNote(note)|)
  {
    hide EncodeNote, LeBytes, LeValue, Le, Pow256, LeastMultiple, Align4, U32, At;
    var e := EncodeNote(note);
    if At(buffer, offset, e) {
      SizesReadAt(buffer, offset, note, e);
      BodyReadAt(buffer, offset, note, e);
    }
  }

  lemma BodyReadAt(buffer: seq<byte>, offset: nat, note: Note, e: seq<byte>)
    requires Buildable(note.name, note.description) && e == EncodeNote(note) && At(buffer, offset, e)
    ensures var start, aligned := offset + NHDR_SIZE, Align4(NameSize(note.name));
      && offset + |e| <= |buffer| && |note.name| <= aligned && |note.description| <= Align4(|note.description|)
      && buffer[start..start + |note.name|] == note.name
      && buffer[start + aligned..start + aligned + |note.description|] == note.description
  {
    hide EncodeNote, LeBytes, LeastMultiple, Align4;
    var nameSize, descSize := NameSize(note.name), |note.description|;
    NoteFields(note);
    LeastIsAbove(Align4(nameSize), nameSize);
    LeastIsAbove(Align4(descSize), descSize);
    AtSlice(buffer, offset, e, 12, 12 + |note.name|);
    AtSlice(buffer, offset, e, 12 + Align4(nameSize), 12 + Align4(nameSize) + descSize);
  }

  /** A note that is cut is not yielded; what is left of it is read again from behind its header, unless
      the header itself is cut. */
  lemma CutNoteFails(buffer: seq<byte>, offset: nat, note: Note)
    requires Buildable(note.name, note.description) && offset < |buffer|
    requires |buffer| - offset < |EncodeNote(note)| && buffer[offset..] == EncodeNote(note)[..|buffer| - offset]
    ensures TryNextNote(buffer, offset) == Failed(offset + if |buffer| - offset < 12 then 0 else 12)
  {
    hide EncodeNote, LeBytes, LeValue, Le, Pow256, LeastMultiple, Align4, U32;
    if offset + NHDR_SIZE <= |buffer| {
      SizesReadAt(buffer, offset, note, EncodeNote(note)[..|buffer| - offset]);
    }
  }

  /** Notes built one after the other and cut at any byte: iteration yields exactly those that lie
      wholly before the cut. */
  lemma {:induction false} TruncatedNotes(notes: seq<Note>, cut: nat)
    requires forall n :: n in notes ==> Buildable(n.name, n.description)
    requires cut <= |Concat(EncodeAll(notes))|
    ensures NotesFrom(Concat(EncodeAll(notes))[..cut], 0) == notes[..WholeBefore(EncodeAll(notes), cut, 0)]
  {
    TruncatedFrom(notes, cut, WholeBefore(EncodeAll(notes), cut, 0), 0);
  }

  lemma {:induction false} TruncatedFrom(notes: seq<Note>, cut: nat, k: nat, j: nat)
    requires forall n :: n in notes ==> Buildable(n.name, n.description)
    requires cut <= |Concat(EncodeAll(notes))| && j <= k == WholeBefore(EncodeAll(notes), cut, 0)
    ensures NotesFrom(Concat(EncodeAll(notes))[..cut], Start(EncodeAll(notes), j)) == notes[j..k]
    decreases k - j
  {
    hide EncodeNote, TryNextNote, Buildable, WholeBefore, EncodeAll, Concat;
    var parts := EncodeAll(notes);
    var buffer := Concat(parts)[..cut];
    if j < k {
      StartGrows(parts, j + 1, k);
      StepOverWhole(notes, cut, j);
      TruncatedFrom(notes, cut, k, j + 1);
      assert notes[j..k] == [notes[j]] + notes[j + 1..k];
    } else {
      StopAtCut(notes, cut, k);
    }
  }

  lemma StepOverWhole(notes: seq<Note>, cut: nat, j: nat)
    requires forall n :: n in notes ==> Buildable(n.name, n.description)
    requires j < |notes| && cut <= |Concat(EncodeAll(notes))|
    ensures var buffer, parts := Concat(EncodeAll(notes))[..cut], EncodeAll(notes);
      Start(parts, j + 1) <= cut ==>
        Start(parts, j) < cut && TryNextNote(buffer, Start(parts, j)) == Parsed(notes[j], Start(parts, j + 1))
  {
    hide EncodeNote, TryNextNote, Buildable, Concat;
    var parts := EncodeAll(notes);
    var whole, offset := Concat(parts), Start(parts, j);
    if Start(parts, j + 1) <= cut {
      assert notes[j] in notes;
      PartAt(parts, j);
      CutKeeps(whole, cut, offset, parts[j]);
      ReadNoteAt(whole[..cut], offset, notes[j]);
      assert parts[j] == EncodeNote(notes[j]);
    }
  }

  lemma CutInside(whole: seq<byte>, cut: nat, offset: nat, part: seq<byte>)
    requires At(whole, offset, part) && offset <= cut <= offset + |part|
    ensures whole[..cut][offset..] == part[..cut - offset]
  {
    assert whole[..cut][offset..] == whole[offset..offset + |part|][..cut - offset];
  }

  lemma StopAtCut(notes: seq<Note>, cut: nat, k: nat)
    requires forall n :: n in notes ==> Buildable(n.name, n.description)
    requires k <= |notes| && Start(EncodeAll(notes), k) <= cut <= |Concat(EncodeAll(notes))|
    requires k < |notes| ==> cut < Start(EncodeAll(notes), k + 1)
    ensures NotesFrom(Concat(EncodeAll(notes))[..cut], Start(EncodeAll(notes), k)) == []
  {
    hide EncodeNote, TryNextNote, Buildable, Concat;
    var parts := EncodeAll(notes);
    var whole, offset := Concat(parts), Start(parts, k);
    if k == |parts| {
      StartTotal(parts);
    } else if offset < cut {
      assert notes[k] in notes;
      PartAt(parts, k);
      CutInside(whole, cut, offset, parts[k]);
      CutNoteFails(whole[..cut], offset, notes[k]);
    }
  }

  // ---- what kind of note comes out ----

  /** Name, type and description of the note that was understood as `e`; a mapped-file note cannot be
      given back from its parse. "CORE" is 43 4F 52 45 and "GNU" is 47 4E 55. */
  function Original(e: ElfNote): Option<Note> {
    match e
    case ProcessStatus(description) => Some(Note([0x43, 0x4F, 0x52, 0x45], 1, description))
    case Auxv(description) => Some(Note([0x43, 0x4F, 0x52, 0x45], 6, description))
    case GnuBuildId(description) => Some(Note([0x47, 0x4E, 0x55], 3, description))
    case Unknown(note) => Some(note)
    case File(_) => None
  }

  /** The kinds the daemon knows, and what their descriptions have to be like. */
  predicate Known(note: Note) {
    || (note.name == [0x43, 0x4F, 0x52, 0x45]
        && (|| (note.noteType == 1 && |note.description| == 336)
            || (note.noteType == 0x4649_4C45 && |note.description| >= 16)
            || note.noteType == 6))
    || (note.name == [0x47, 0x4E, 0x55] && note.noteType == 3)
  }

  predicate IsFileNote(note: Note) {
    note.name == [0x43, 0x4F, 0x52, 0x45] && note.noteType == 0x4649_4C45
  }

  /** `e` is what `note` should be understood as. */
  predicate UnderstoodAs(granted: nat, note: Note, e: ElfNote) {
    && (e.Unknown? <==> !Known(note))
    && (e.File? <==> IsFileNote(note) && Known(note))
    && (e.File? ==> FileNotes.Parse(granted, note.description) == FileNotes.Parsed(e.file))
    && (!e.File? ==> Original(e) == Some(note))
  }

  lemma ParseUnderstands(granted: nat, note: Note)
    ensures var r := Parse(granted, note);
      && (r.Some? ==> UnderstoodAs(granted, note, r.value))
      && (r.None? <==> IsFileNote(note) && FileNotes.Parse(granted, note.description) == FileNotes.Aborted)
  {
    hide FileNotes.ParseEntries, FileNotes.Reservable, U64;
  }

  lemma {:induction false} AllUnderstood(granted: nat, notes: seq<Note>)
    ensures var (out, aborted) := ParseAll(granted, notes);
      && |out| <= |notes| && (forall i :: 0 <= i < |out| ==> UnderstoodAs(granted, notes[i], out[i]))
      && (!aborted ==> |out| == |notes|)
      && (aborted ==> |out| < |notes| && IsFileNote(notes[|out|])
                      && FileNotes.Parse(granted, notes[|out|].description) == FileNotes.Aborted)
  {
    hide Parse, UnderstoodAs, IsFileNote, FileNotes.Parse;
    if notes != [] {
      ParseUnderstands(granted, notes[0]);
      AllUnderstood(granted, notes[1..]);
    }
  }

  /** Built notes, one after the other and cut at any byte: every note wholly before the cut comes out as
      what it is, with its name, type and description, unless a mapped-file note ends the program. */
  method CollectBuiltNotes(notes: seq<Note>, cut: nat, granted: nat) returns (out: seq<ElfNote>, aborted: bool)
    requires forall n :: n in notes ==> Buildable(n.name, n.description)
    requires cut <= |Concat(EncodeAll(notes))|
    ensures var whole := WholeBefore(EncodeAll(notes), cut, 0);
      && |out| <= whole && (forall i :: 0 <= i < |out| ==> UnderstoodAs(granted, notes[i], out[i]))
      && (!aborted ==> |out| == whole)
      && (aborted ==> |out| < whole && IsFileNote(notes[|out|])
                      && FileNotes.Parse(granted, notes[|out|].description) == FileNotes.Aborted)
  {
    hide ParseAll, EncodeAll, UnderstoodAs, IsFileNote, FileNotes.Parse, WholeBefore, NotesFrom, Concat;
    ghost var whole := notes[..WholeBefore(EncodeAll(notes), cut, 0)];
    TruncatedNotes(notes, cut);
    AllUnderstood(granted, whole);
    out, aborted := CollectNotes(Concat(EncodeAll(notes))[..cut], granted);
  }

  /** An encoded note ends on a multiple of four, and all that is neither header, name nor description is
      zero: the byte that ends the name, and the padding. */
  lemma EncodedNoteZeros(note: Note)
    requires Buildable(note.name, note.description)
    ensures var e, start := EncodeNote(note), 12 + Align4(NameSize(note.name));
      && |e| % 4 == 0 && (note.name != [] ==> start > 12 + |note.name|)
      && start + |note.description| <= |e| < start + |note.description| + 4
      && (forall i :: 12 + |note.name| <= i < start ==> e[i] == 0)
      && (forall i :: start + |note.description| <= i < |e| ==> e[i] == 0)
  {
    hide LeBytes, Align4, LeastMultiple, Repeat;
    var a, d := Align4(NameSize(note.name)), Align4(|note.description|);
    WordsOf(a, NameSize(note.name));
    WordsOf(d, |note.description|);
    ZerosBehind(NoteHeader(note), note.name, a, note.description, d);
  }

  lemma WordsOf(r: nat, n: nat)
    requires LeastMultiple(r, n, 4)
    ensures r % 4 == 0 && n <= r < n + 4
  {
  }

  lemma ZerosBehind(header: seq<byte>, name: seq<byte>, a: nat, description: seq<byte>, d: nat)
    requires |name| <= a && |description| <= d
    ensures var e := header + (name + Repeat(0, a - |name|)) + (description + Repeat(0, d - |description|));
      && (forall i :: |header| + |name| <= i < |header| + a ==> e[i] == 0)
      && (forall i :: |header| + a + |description| <= i < |e| ==> e[i] == 0)
  {
  }
}
