/** Encoders for the three records and the round-trip lemmas that pin their
    layouts down. */
module ElfLayout {
  import opened LittleEndian
  import opened ElfTags
  import opened ElfRecords

  /** One step along an encoded record: if the bytes from `off` on are the
      `n`-byte encoding of `v` followed by `tail`, the field at `off` decodes
      to `v` and the bytes after it are `tail`. */
  lemma FieldThenTail(s: seq<Byte>, off: nat, v: nat, n: nat, tail: seq<Byte>)
    requires off <= |s| && v < Pow256(n) && s[off..] == ToLE(v, n) + tail
    ensures off + n <= |s| && FromLE(s[off..off + n]) == v && s[off + n..] == tail
    ensures n == 2 ==> U16At(s, off) == v
    ensures n == 4 ==> U32At(s, off) == v
    ensures n == 8 ==> U64At(s, off) == v
  {
    assert s[off..off + n] == ToLE(v, n);
    FromToLE(v, n);
  }

  /** The 64 bytes a file header is written as, `typeTag` being the raw e_type:
      the identification bytes, seven fields from e_type to e_flags, and the six
      u16 table-shape fields. */
  function EncodeHeader(h: Elf64Header, typeTag: U16): (s: seq<Byte>)
    requires |h.magic| == 4 && |h.padding| == 7
    ensures |s| == HeaderSize
  {
    h.magic + [h.elfClass, h.endianness, h.version, h.abi, h.abiVersion] + h.padding
    + (ToLE(typeTag, 2) + (ToLE(h.machine, 2) + (ToLE(h.eVersion, 4)
    + (ToLE(h.eEntry, 8) + (ToLE(h.ePhoff, 8) + (ToLE(h.eShoff, 8) + (ToLE(h.eFlags, 4)
    + EncodeTableShape(h))))))))
  }

  /** Bytes 52 to 64 of an encoded header. */
  function EncodeTableShape(h: Elf64Header): (s: seq<Byte>)
    ensures |s| == 12
  {
    ToLE(h.eEhsize, 2) + (ToLE(h.ePhentsize, 2) + (ToLE(h.ePhnum, 2)
    + (ToLE(h.eShentsize, 2) + (ToLE(h.eShnum, 2) + ToLE(h.eShstrndx, 2)))))
  }

  lemma TableShapeAt(s: seq<Byte>, h: Elf64Header)
    requires |s| == HeaderSize && s[52..] == EncodeTableShape(h)
    ensures U16At(s, 52) == h.eEhsize && U16At(s, 54) == h.ePhentsize
    ensures U16At(s, 56) == h.ePhnum && U16At(s, 58) == h.eShentsize
    ensures U16At(s, 60) == h.eShnum && U16At(s, 62) == h.eShstrndx
  {
    Pow256Widths();
    var t5 := ToLE(h.eShstrndx, 2);
    var t4 := ToLE(h.eShnum, 2) + t5;
    var t3 := ToLE(h.eShentsize, 2) + t4;
    var t2 := ToLE(h.ePhnum, 2) + t3;
    var t1 := ToLE(h.ePhentsize, 2) + t2;
    FieldThenTail(s, 52, h.eEhsize, 2, t1);
    FieldThenTail(s, 54, h.ePhentsize, 2, t2);
    FieldThenTail(s, 56, h.ePhnum, 2, t3);
    FieldThenTail(s, 58, h.eShentsize, 2, t4);
    FieldThenTail(s, 60, h.eShnum, 2, t5);
    FieldThenTail(s, 62, h.eShstrndx, 2, []);
  }

  lemma AddressesAt(s: seq<Byte>, h: Elf64Header, typeTag: U16)
    requires |s| == HeaderSize
    requires s[16..] == ToLE(typeTag, 2) + (ToLE(h.machine, 2) + (ToLE(h.eVersion, 4)
      + (ToLE(h.eEntry, 8) + (ToLE(h.ePhoff, 8) + (ToLE(h.eShoff, 8) + (ToLE(h.eFlags, 4)
      + EncodeTableShape(h)))))))
    ensures U16At(s, 16) == typeTag && U16At(s, 18) == h.machine
    ensures U32At(s, 20) == h.eVersion && U64At(s, 24) == h.eEntry
    ensures U64At(s, 32) == h.ePhoff && U64At(s, 40) == h.eShoff
    ensures U32At(s, 48) == h.eFlags && s[52..] == EncodeTableShape(h)
  {
    Pow256Widths();
    var t6 := ToLE(h.eFlags, 4) + EncodeTableShape(h);
    var t5 := ToLE(h.eShoff, 8) + t6;
    var t4 := ToLE(h.ePhoff, 8) + t5;
    var t3 := ToLE(h.eEntry, 8) + t4;
    var t2 := ToLE(h.eVersion, 4) + t3;
    var t1 := ToLE(h.machine, 2) + t2;
    FieldThenTail(s, 16, typeTag, 2, t1);
    FieldThenTail(s, 18, h.machine, 2, t2);
    FieldThenTail(s, 20, h.eVersion, 4, t3);
    FieldThenTail(s, 24, h.eEntry, 8, t4);
    FieldThenTail(s, 32, h.ePhoff, 8, t5);
    FieldThenTail(s, 40, h.eShoff, 8, t6);
    FieldThenTail(s, 48, h.eFlags, 4, EncodeTableShape(h));
  }

  /** Decoding an encoded header gives the header back: every field sits at
      the offset the decoder reads it from. */
  lemma HeaderRoundTrip(h: Elf64Header, typeTag: U16)
    requires |h.magic| == 4 && |h.padding| == 7 && ReadFileType(typeTag) == h.eType
    ensures HeaderAt(EncodeHeader(h, typeTag)) == h
  {
    var s := EncodeHeader(h, typeTag);
    var ident := h.magic + [h.elfClass, h.endianness, h.version, h.abi, h.abiVersion] + h.padding;
    assert s[0..4] == h.magic && s[9..16] == h.padding;
    assert s[16..] == s[|ident|..];
    AddressesAt(s, h, typeTag);
    TableShapeAt(s, h);
  }

  /** The bytes a file header is decoded from are its first 64; whatever
      follows them is ignored. */
  lemma HeaderIgnoresTail(s: seq<Byte>)
    requires |s| >= HeaderSize
    ensures HeaderAt(s) == HeaderAt(s[..HeaderSize])
  {
    var p := s[..HeaderSize];
    assert s[16..18] == p[16..18] && s[18..20] == p[18..20] && s[20..24] == p[20..24];
    assert s[24..32] == p[24..32] && s[32..40] == p[32..40] && s[40..48] == p[40..48];
    assert s[48..52] == p[48..52] && s[52..54] == p[52..54] && s[54..56] == p[54..56];
    assert s[56..58] == p[56..58] && s[58..60] == p[58..60] && s[60..62] == p[60..62];
    assert s[62..64] == p[62..64];
  }

  /** The 56 bytes a program header is written as, with raw type and flag tags. */
  function EncodeProgramHeader(ph: ProgramHeader64, typeTag: U32, flagTag: U32): (s: seq<Byte>)
    ensures |s| == ProgramHeaderSize
  {
    ToLE(typeTag, 4) + (ToLE(flagTag, 4) + (ToLE(ph.pOffset, 8) + (ToLE(ph.pVaddr, 8)
    + (ToLE(ph.pPaddr, 8) + (ToLE(ph.pFilesz, 8) + (ToLE(ph.pMemsz, 8) + ToLE(ph.pAlign, 8)))))))
  }

  /** Decoding an encoded program header, followed by anything, gives it back. */
  lemma ProgramHeaderRoundTrip(ph: ProgramHeader64, typeTag: U32, flagTag: U32, rest: seq<Byte>)
    requires ReadProgramType(typeTag) == ph.pType && ReadFlag(flagTag) == ph.pFlag
    ensures ProgramHeaderAt(EncodeProgramHeader(ph, typeTag, flagTag) + rest) == ph
  {
    var s := EncodeProgramHeader(ph, typeTag, flagTag) + rest;
    Pow256Widths();
    var t7 := ToLE(ph.pAlign, 8) + rest;
    var t6 := ToLE(ph.pMemsz, 8) + t7;
    var t5 := ToLE(ph.pFilesz, 8) + t6;
    var t4 := ToLE(ph.pPaddr, 8) + t5;
    var t3 := ToLE(ph.pVaddr, 8) + t4;
    var t2 := ToLE(ph.pOffset, 8) + t3;
    var t1 := ToLE(flagTag, 4) + t2;
    assert s[0..] == ToLE(typeTag, 4) + t1;
    FieldThenTail(s, 0, typeTag, 4, t1);
    FieldThenTail(s, 4, flagTag, 4, t2);
    FieldThenTail(s, 8, ph.pOffset, 8, t3);
    FieldThenTail(s, 16, ph.pVaddr, 8, t4);
    FieldThenTail(s, 24, ph.pPaddr, 8, t5);
    FieldThenTail(s, 32, ph.pFilesz, 8, t6);
    FieldThenTail(s, 40, ph.pMemsz, 8, t7);
    FieldThenTail(s, 48, ph.pAlign, 8, rest);
  }

  /** The 64 bytes a section header is written as; its resolved name is not
      part of the record. */
  function EncodeSectionHeader(sh: SectionHeader64): (s: seq<Byte>)
    ensures |s| == SectionHeaderSize
  {
    ToLE(sh.shName, 4) + (ToLE(sh.shType, 4) + (ToLE(sh.shFlags, 8) + (ToLE(sh.shAddr, 8)
    + (ToLE(sh.shOffset, 8) + (ToLE(sh.shSize, 8) + (ToLE(sh.shLink, 4) + (ToLE(sh.shInfo, 4)
    + (ToLE(sh.shAddralign, 8) + ToLE(sh.shEntsize, 8)))))))))
  }

  /** Decoding an encoded section header, followed by anything, gives it back
      with an empty name. */
  lemma SectionHeaderRoundTrip(sh: SectionHeader64, rest: seq<Byte>)
    ensures SectionHeaderAt(EncodeSectionHeader(sh) + rest) == sh.(name := [])
  {
    var s := EncodeSectionHeader(sh) + rest;
    Pow256Widths();
    var t9 := ToLE(sh.shEntsize, 8) + rest;
    var t8 := ToLE(sh.shAddralign, 8) + t9;
    var t7 := ToLE(sh.shInfo, 4) + t8;
    var t6 := ToLE(sh.shLink, 4) + t7;
    var t5 := ToLE(sh.shSize, 8) + t6;
    var t4 := ToLE(sh.shOffset, 8) + t5;
    var t3 := ToLE(sh.shAddr, 8) + t4;
    var t2 := ToLE(sh.shFlags, 8) + t3;
    var t1 := ToLE(sh.shType, 4) + t2;
    assert s[0..] == ToLE(sh.shName, 4) + t1;
    FieldThenTail(s, 0, sh.shName, 4, t1);
    FieldThenTail(s, 4, sh.shType, 4, t2);
    FieldThenTail(s, 8, sh.shFlags, 8, t3);
    FieldThenTail(s, 16, sh.shAddr, 8, t4);
    FieldThenTail(s, 24, sh.shOffset, 8, t5);
    FieldThenTail(s, 32, sh.shSize, 8, t6);
    FieldThenTail(s, 40, sh.shLink, 4, t7);
    FieldThenTail(s, 44, sh.shInfo, 4, t8);
    FieldThenTail(s, 48, sh.shAddralign, 8, t9);
    FieldThenTail(s, 56, sh.shEntsize, 8, rest);
  }
}
