/** 64-bit little-endian ELF: the file header and the program header as byte strings (System V gABI
    chapter 4 "ELF Header" and chapter 5 "Program Header"). */
module ElfFormat {
  import opened Bytes

  type Ident = s: seq<byte> | |s| == 16 witness Repeat(0, 16)

  datatype Header = Header(
    ident: Ident, fileType: u16, machine: u16, version: u32, entry: u64, phoff: u64, shoff: u64,
    flags: u32, ehsize: u16, phentsize: u16, phnum: u16, shentsize: u16, shnum: u16, shstrndx: u16)

  datatype ProgramHeader = ProgramHeader(
    pType: u32, flags: u32, offset: u64, vaddr: u64, paddr: u64, filesz: u64, memsz: u64, align: u64)

  const SIZEOF_EHDR: nat := 64
  const SIZEOF_PHDR: nat := 56
  const ELFMAG: seq<byte> := [0x7F, 0x45, 0x4C, 0x46]
  const EI_CLASS: nat := 4
  const EI_DATA: nat := 5
  const EV_CURRENT: byte := 1
  const ET_CORE: u16 := 4
  const PT_NOTE: u32 := 4
  const ELFCLASS64: byte := 2
  const ELFDATA2LSB: byte := 1

  function HeaderFront(h: Header): seq<byte> {
    h.ident + LeBytes(h.fileType, 2) + LeBytes(h.machine, 2) + LeBytes(h.version, 4)
    + LeBytes(h.entry, 8) + LeBytes(h.phoff, 8)
  }

  function HeaderBack(h: Header): seq<byte> {
    LeBytes(h.shoff, 8) + LeBytes(h.flags, 4) + LeBytes(h.ehsize, 2) + LeBytes(h.phentsize, 2)
    + LeBytes(h.phnum, 2) + LeBytes(h.shentsize, 2) + LeBytes(h.shnum, 2) + LeBytes(h.shstrndx, 2)
  }

  function EncodeHeader(h: Header): seq<byte> {
    HeaderFront(h) + HeaderBack(h)
  }

  function DecodeHeader(z: seq<byte>, off: nat): Header
    requires off + SIZEOF_EHDR <= |z|
  {
    Header(z[off..off + 16], U16(z, off + 16), U16(z, off + 18), U32(z, off + 20), U64(z, off + 24),
           U64(z, off + 32), U64(z, off + 40), U32(z, off + 48), U16(z, off + 52), U16(z, off + 54),
           U16(z, off + 56), U16(z, off + 58), U16(z, off + 60), U16(z, off + 62))
  }

  function EncodeProgramHeader(p: ProgramHeader): seq<byte> {
    (LeBytes(p.pType, 4) + LeBytes(p.flags, 4) + LeBytes(p.offset, 8) + LeBytes(p.vaddr, 8))
    + (LeBytes(p.paddr, 8) + LeBytes(p.filesz, 8) + LeBytes(p.memsz, 8) + LeBytes(p.align, 8))
  }

  function DecodeProgramHeader(z: seq<byte>, off: nat): ProgramHeader
    requires off + SIZEOF_PHDR <= |z|
  {
    ProgramHeader(U32(z, off), U32(z, off + 4), U64(z, off + 8), U64(z, off + 16),
                  U64(z, off + 24), U64(z, off + 32), U64(z, off + 40), U64(z, off + 48))
  }

  // A slice of two parts laid end to end, when it lies within one of them.
  lemma InFront(front: seq<byte>, back: seq<byte>, i: nat, j: nat)
    requires i <= j <= |front|
    ensures (front + back)[i..j] == front[i..j]
  {
  }

  lemma InBack(front: seq<byte>, back: seq<byte>, i: nat, j: nat)
    requires i <= j <= |back|
    ensures (front + back)[|front| + i..|front| + j] == back[i..j]
  {
  }

  lemma HeaderLayout(h: Header)
    ensures var e := EncodeHeader(h);
      && |e| == 64 && e[0..16] == h.ident
      && e[16..18] == LeBytes(h.fileType, 2) && e[18..20] == LeBytes(h.machine, 2)
      && e[20..24] == LeBytes(h.version, 4) && e[24..32] == LeBytes(h.entry, 8)
      && e[32..40] == LeBytes(h.phoff, 8) && e[40..48] == LeBytes(h.shoff, 8)
      && e[48..52] == LeBytes(h.flags, 4) && e[52..54] == LeBytes(h.ehsize, 2)
      && e[54..56] == LeBytes(h.phentsize, 2) && e[56..58] == LeBytes(h.phnum, 2)
      && e[58..60] == LeBytes(h.shentsize, 2) && e[60..62] == LeBytes(h.shnum, 2)
      && e[62..64] == LeBytes(h.shstrndx, 2)
  {
    hide LeBytes;
    hide HeaderFront, HeaderBack;
    var front, back := HeaderFront(h), HeaderBack(h);
    FrontLayout(h);
    BackLayout(h);
    InFront(front, back, 0, 16);
    InFront(front, back, 16, 18);
    InFront(front, back, 18, 20);
    InFront(front, back, 20, 24);
    InFront(front, back, 24, 32);
    InFront(front, back, 32, 40);
    InBack(front, back, 0, 8);
    InBack(front, back, 8, 12);
    InBack(front, back, 12, 14);
    InBack(front, back, 14, 16);
    InBack(front, back, 16, 18);
    InBack(front, back, 18, 20);
    InBack(front, back, 20, 22);
    InBack(front, back, 22, 24);
  }

  lemma FrontLayout(h: Header)
    ensures var e := HeaderFront(h);
      && |e| == 40 && e[0..16] == h.ident
      && e[16..18] == LeBytes(h.fileType, 2) && e[18..20] == LeBytes(h.machine, 2)
      && e[20..24] == LeBytes(h.version, 4) && e[24..32] == LeBytes(h.entry, 8)
      && e[32..40] == LeBytes(h.phoff, 8)
  {
    hide LeBytes;
  }

  lemma BackLayout(h: Header)
    ensures var e := HeaderBack(h);
      && |e| == 24 && e[0..8] == LeBytes(h.shoff, 8) && e[8..12] == LeBytes(h.flags, 4)
      && e[12..14] == LeBytes(h.ehsize, 2) && e[14..16] == LeBytes(h.phentsize, 2)
      && e[16..18] == LeBytes(h.phnum, 2) && e[18..20] == LeBytes(h.shentsize, 2)
      && e[20..22] == LeBytes(h.shnum, 2) && e[22..24] == LeBytes(h.shstrndx, 2)
  {
    hide LeBytes;
  }

  lemma ProgramHeaderLayout(p: ProgramHeader)
    ensures var e := EncodeProgramHeader(p);
      && |e| == 56
      && e[0..4] == LeBytes(p.pType, 4) && e[4..8] == LeBytes(p.flags, 4)
      && e[8..16] == LeBytes(p.offset, 8) && e[16..24] == LeBytes(p.vaddr, 8)
      && e[24..32] == LeBytes(p.paddr, 8) && e[32..40] == LeBytes(p.filesz, 8)
      && e[40..48] == LeBytes(p.memsz, 8) && e[48..56] == LeBytes(p.align, 8)
  {
    hide LeBytes;
    var front := LeBytes(p.pType, 4) + LeBytes(p.flags, 4) + LeBytes(p.offset, 8) + LeBytes(p.vaddr, 8);
    var back := LeBytes(p.paddr, 8) + LeBytes(p.filesz, 8) + LeBytes(p.memsz, 8) + LeBytes(p.align, 8);
    assert EncodeProgramHeader(p) == front + back && |front| == 24 && |back| == 32;
    InFront(front, back, 0, 4);
    InFront(front, back, 4, 8);
    InFront(front, back, 8, 16);
    InFront(front, back, 16, 24);
    InBack(front, back, 0, 8);
    InBack(front, back, 8, 16);
    InBack(front, back, 16, 24);
    InBack(front, back, 24, 32);
  }

  /** Every field of a header is read back from wherever the header stands. */
  lemma HeaderRoundTrip(z: seq<byte>, off: nat, h: Header)
    requires At(z, off, EncodeHeader(h))
    ensures off + SIZEOF_EHDR <= |z| && DecodeHeader(z, off) == h
  {
    hide EncodeHeader, LeBytes, LeValue, Le, Pow256;
    var e := EncodeHeader(h);
    HeaderLayout(h);
    PowValues();
    AtSlice(z, off, e, 0, 16);
    LeAt(z, off, e, 16, 2, h.fileType);
    LeAt(z, off, e, 18, 2, h.machine);
    LeAt(z, off, e, 20, 4, h.version);
    LeAt(z, off, e, 24, 8, h.entry);
    LeAt(z, off, e, 32, 8, h.phoff);
    LeAt(z, off, e, 40, 8, h.shoff);
    LeAt(z, off, e, 48, 4, h.flags);
    LeAt(z, off, e, 52, 2, h.ehsize);
    LeAt(z, off, e, 54, 2, h.phentsize);
    LeAt(z, off, e, 56, 2, h.phnum);
    LeAt(z, off, e, 58, 2, h.shentsize);
    LeAt(z, off, e, 60, 2, h.shnum);
    LeAt(z, off, e, 62, 2, h.shstrndx);
  }

  lemma ProgramHeaderRoundTrip(z: seq<byte>, off: nat, p: ProgramHeader)
    requires At(z, off, EncodeProgramHeader(p))
    ensures off + SIZEOF_PHDR <= |z| && DecodeProgramHeader(z, off) == p
  {
    hide EncodeProgramHeader, LeBytes, LeValue, Le, Pow256;
    var e := EncodeProgramHeader(p);
    ProgramHeaderLayout(p);
    PowValues();
    LeAt(z, off, e, 0, 4, p.pType);
    LeAt(z, off, e, 4, 4, p.flags);
    LeAt(z, off, e, 8, 8, p.offset);
    LeAt(z, off, e, 16, 8, p.vaddr);
    LeAt(z, off, e, 24, 8, p.paddr);
    LeAt(z, off, e, 32, 8, p.filesz);
    LeAt(z, off, e, 40, 8, p.memsz);
    LeAt(z, off, e, 48, 8, p.align);
  }

  // The target the daemon is built for; EM_X86_64 stands for the machine constant.
  const ELF_TARGET_MACHINE: u16 := 62

  predicate VerifyHeader(h: Header) {
    && h.ident[0..4] == ELFMAG && h.ident[EI_CLASS] == ELFCLASS64 && h.ident[EI_DATA] == ELFDATA2LSB
    && h.version == EV_CURRENT && h.ehsize == SIZEOF_EHDR && h.phentsize == SIZEOF_PHDR
    && h.machine == ELF_TARGET_MACHINE
  }

  /** The fields that decide whether a header is accepted: magic, class and byte order, version, the two
      sizes and the machine. */
  predicate SameTarget(a: Header, b: Header) {
    && a.ident[0..6] == b.ident[0..6] && a.version == b.version
    && a.ehsize == b.ehsize && a.phentsize == b.phentsize && a.machine == b.machine
  }

  /** A header is accepted exactly when it agrees in those with one that is. */
  lemma OneTarget(a: Header, b: Header)
    requires VerifyHeader(a)
    ensures VerifyHeader(b) <==> SameTarget(a, b)
  {
    assert a.ident[0..6] == a.ident[0..4] + [a.ident[4], a.ident[5]];
    assert b.ident[0..6] == b.ident[0..4] + [b.ident[4], b.ident[5]];
    assert b.ident[0..6][4] == b.ident[4] && b.ident[0..6][5] == b.ident[5];
    assert a.ident[0..6][4] == a.ident[4] && a.ident[0..6][5] == a.ident[5];
    assert b.ident[0..6][..4] == b.ident[0..4] && a.ident[0..6][..4] == a.ident[0..4];
  }
}
