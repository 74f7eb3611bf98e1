/** The whole parsed object: the section-name lookup in the string table and
    the assembler that decodes the header, both header tables and the names. */
module ElfObject {
  import opened LittleEndian
  import opened ParserErrors
  import opened Reader
  import opened ElfTags
  import opened ElfRecords
  import opened ElfLayout

  /** The parsed object file. */
  datatype Elf64 = Elf64(
    header: Elf64Header,
    programHeaders: seq<ProgramHeader64>,
    sectionHeaders: seq<SectionHeader64>)

  /** Some NUL byte lies at or after `index`, so the scan that starts there
      stops inside the table. */
  predicate HasTerminator(table: seq<Byte>, index: nat): (found: bool)
    ensures found ==> index < |table|
  {
    exists j :: index <= j < |table| && table[j] == 0
  }

  /** The NUL-terminated string starting at `index`, without its NUL: a run of
      non-NUL bytes of the table that is followed by a NUL. */
  function NameAt(table: seq<Byte>, index: nat): (name: seq<Byte>)
    requires HasTerminator(table, index)
    ensures index + |name| < |table| && table[index + |name|] == 0
    ensures name == table[index..index + |name|]
    ensures forall k :: 0 <= k < |name| ==> name[k] != 0
    decreases |table| - index
  {
    if table[index] == 0 then []
    else [table[index]] + NameAt(table, index + 1)
  }

  /** The run of non-NUL bytes followed by a NUL at `index` is unique: any
      sequence with the properties `NameAt` guarantees is `NameAt`. */
  lemma NameAtUnique(table: seq<Byte>, index: nat, s: seq<Byte>)
    requires index + |s| < |table| && table[index + |s|] == 0
    requires s == table[index..index + |s|]
    requires forall k :: 0 <= k < |s| ==> s[k] != 0
    ensures HasTerminator(table, index) && s == NameAt(table, index)
  {
  }

  /** The string table "\0.text\0.data\0": offset 1 names ".text", offset 7
      names ".data", and at the table's length there is no string to read. */
  lemma SectionNameExample()
    ensures var table := [0, 46, 116, 101, 120, 116, 0, 46, 100, 97, 116, 97, 0];
      && HasTerminator(table, 1) && NameAt(table, 1) == [46, 116, 101, 120, 116]
      && HasTerminator(table, 7) && NameAt(table, 7) == [46, 100, 97, 116, 97]
      && !HasTerminator(table, |table|)
  {
    var table: seq<Byte> := [0, 46, 116, 101, 120, 116, 0, 46, 100, 97, 116, 97, 0];
    NameAtUnique(table, 1, [46, 116, 101, 120, 116]);
    assert table[7..12] == [46, 100, 97, 116, 97];
    NameAtUnique(table, 7, [46, 100, 97, 116, 97]);
  }

  /** `get_section_name`: scans forward from `index` to the first NUL and
      returns the bytes before it. The source indexes past the end of the
      table, and panics, when no NUL follows `index`. */
  method GetSectionName(table: seq<Byte>, index: nat) returns (name: seq<Byte>)
    requires HasTerminator(table, index)
    ensures name == NameAt(table, index)
    ensures index + |name| < |table| && table[index + |name|] == 0
    ensures forall k :: 0 <= k < |name| ==> name[k] != 0
  {
    ghost var t :| index <= t < |table| && table[t] == 0;
    name := [];
    var i := index;
    while table[i] != 0
      invariant index <= i <= t
      invariant name == table[index..i]
      invariant forall k :: index <= k < i ==> table[k] != 0
      decreases t - i
    {
      name := name + [table[i]];
      i := i + 1;
    }
    NameAtUnique(table, index, name);
  }

  /** The `k`-th of a table of `size`-byte entries that starts at `base`. */
  function EntryAt(bytes: seq<Byte>, base: nat, size: nat, k: nat): (entry: seq<Byte>)
    requires base + (k + 1) * size <= |bytes|
    ensures |entry| == size
  {
    bytes[base + k * size .. base + (k + 1) * size]
  }

  /** More entries of the same size take at least as many bytes. */
  lemma {:induction false} MulMono(a: nat, b: nat, size: nat)
    requires a <= b
    ensures a * size <= b * size
    decreases b - a
  {
    if a < b {
      MulMono(a + 1, b, size);
      assert (a + 1) * size == a * size + size;
    }
  }

  /** A table of `count` entries of `size` bytes does not end before it starts. */
  lemma TableStart(base: nat, size: nat, count: nat)
    ensures base <= base + count * size
  {
    MulMono(0, count, size);
  }

  /** An entry of a table of `count` entries ends within the table. */
  lemma EntryInTable(base: nat, size: nat, count: nat, k: nat)
    requires k < count
    ensures base + (k + 1) * size <= base + count * size
  {
    MulMono(k + 1, count, size);
  }

  /** Entry `k + 1` starts where entry `k` ends. */
  lemma NextEntry(base: nat, size: nat, k: nat)
    ensures base + k * size + size == base + (k + 1) * size
  {
  }

  /** The program header table that `h` describes, read from byte 64 on,
      lies within the input and its entries are long enough to decode. */
  predicate ProgramTableFits(bytes: seq<Byte>, h: Elf64Header): (fits: bool)
    ensures fits && h.ePhnum > 0 ==> HeaderSize + ProgramHeaderSize <= |bytes|
  {
    h.ePhnum == 0 ||
      (h.ePhentsize >= ProgramHeaderSize && HeaderSize + h.ePhnum * h.ePhentsize <= |bytes|)
  }

  /** The section header table that `h` describes, at e_shoff, lies within
      the input and its entries are long enough to decode. */
  predicate SectionTableFits(bytes: seq<Byte>, h: Elf64Header): (fits: bool)
    ensures fits ==> h.eShoff <= |bytes|
  {
    (h.eShnum == 0 || h.eShentsize >= SectionHeaderSize) &&
    h.eShoff + h.eShnum * h.eShentsize <= |bytes|
  }

  /** The `k`-th program header of the table `h` describes, decoded from the
      entries that follow the file header (e_phoff is not consulted). */
  function ProgramHeaderOf(bytes: seq<Byte>, h: Elf64Header, k: nat): (ph: ProgramHeader64)
    requires ProgramTableFits(bytes, h) && k < h.ePhnum
  {
    EntryInTable(HeaderSize, h.ePhentsize, h.ePhnum, k);
    ProgramHeaderAt(EntryAt(bytes, HeaderSize, h.ePhentsize, k))
  }

  /** The `k`-th section header of the table `h` describes, decoded from the
      entries at e_shoff, name not yet resolved. */
  function SectionHeaderOf(bytes: seq<Byte>, h: Elf64Header, k: nat): (sh: SectionHeader64)
    requires SectionTableFits(bytes, h) && k < h.eShnum
  {
    EntryInTable(h.eShoff, h.eShentsize, h.eShnum, k);
    SectionHeaderAt(EntryAt(bytes, h.eShoff, h.eShentsize, k))
  }

  /** The section named by e_shstrndx exists and its bytes lie within the input. */
  predicate StringTableFits(bytes: seq<Byte>, h: Elf64Header) {
    SectionTableFits(bytes, h) && h.eShstrndx < h.eShnum &&
    var strtab := SectionHeaderOf(bytes, h, h.eShstrndx);
    strtab.shOffset + strtab.shSize <= |bytes|
  }

  /** The bytes of the section-name string table. */
  function StringTable(bytes: seq<Byte>, h: Elf64Header): (table: seq<Byte>)
    requires StringTableFits(bytes, h)
  {
    var strtab := SectionHeaderOf(bytes, h, h.eShstrndx);
    bytes[strtab.shOffset .. strtab.shOffset + strtab.shSize]
  }

  /** What `Elf64::parse` needs of its input beyond the header, for the
      header `h` read from it: both tables fit, the string table exists and
      fits, and every section's name offset is followed by a NUL inside the
      string table. */
  predicate LayoutFits(bytes: seq<Byte>, h: Elf64Header) {
    ProgramTableFits(bytes, h) && StringTableFits(bytes, h) &&
    forall k :: 0 <= k < h.eShnum ==>
      HasTerminator(StringTable(bytes, h), SectionHeaderOf(bytes, h, k).shName)
  }

  /** Everything `Elf64::parse` needs of its input so that no slice, index or
      read panics: the 64 header bytes are there and the rest of the layout
      the header describes fits. */
  predicate Parseable(bytes: seq<Byte>): (ok: bool)
    ensures ok ==> |bytes| >= HeaderSize && HeaderAt(bytes).eShnum >= 1
  {
    |bytes| >= HeaderSize && LayoutFits(bytes, HeaderAt(bytes))
  }

  /** The smallest object whose file header, section header table and string
      table do not overlap: a file header with no program headers and one
      section header at byte 64, that section being a one-byte string table
      at byte 128. Whatever the other fields hold, such an object is
      parseable. */
  lemma ParseableExample(h: Elf64Header, typeTag: U16, sh: SectionHeader64)
    requires |h.magic| == 4 && |h.padding| == 7 && ReadFileType(typeTag) == h.eType
    requires h.ePhnum == 0 && h.eShoff == 64 && h.eShentsize == 64
    requires h.eShnum == 1 && h.eShstrndx == 0
    requires sh.shName == 0 && sh.shOffset == 128 && sh.shSize == 1
    ensures var bytes := EncodeHeader(h, typeTag) + EncodeSectionHeader(sh) + [0];
      Parseable(bytes) && HeaderAt(bytes) == h
  {
    var header, section := EncodeHeader(h, typeTag), EncodeSectionHeader(sh);
    var bytes := header + section + [0];
    // `section + []` is the encoding-then-tail shape `SectionHeaderRoundTrip`
    // speaks of, with an empty tail.
    assert bytes[..HeaderSize] == header && bytes[64..128] == section + [];
    HeaderIgnoresTail(bytes);
    HeaderRoundTrip(h, typeTag);
    SectionHeaderRoundTrip(sh, []);
    ParseableFromParts(bytes, h, sh);
  }

  /** The last step of `ParseableExample`, once the header and the section
      header are known to decode to `h` and `sh`. */
  lemma ParseableFromParts(bytes: seq<Byte>, h: Elf64Header, sh: SectionHeader64)
    requires |bytes| == 129 && bytes[128] == 0
    requires SectionHeaderAt(bytes[64..128]) == sh.(name := [])
    requires h.ePhnum == 0 && h.eShoff == 64 && h.eShentsize == 64
    requires h.eShnum == 1 && h.eShstrndx == 0
    requires sh.shName == 0 && sh.shOffset == 128 && sh.shSize == 1
    ensures LayoutFits(bytes, h)
  {
    assert EntryAt(bytes, 64, 64, 0) == bytes[64..128];
    assert SectionHeaderOf(bytes, h, 0) == sh.(name := []);
    assert StringTable(bytes, h) == [bytes[128]];
    assert HasTerminator(StringTable(bytes, h), 0);
  }

  /** Every proper prefix of the object in `ParseableExample` is rejected:
      cut inside the file header, inside the section header table, or before
      the string table's one byte, some slice or read of `Elf64::parse` would
      run past the end. */
  lemma TruncatedExampleNotParseable(h: Elf64Header, typeTag: U16, sh: SectionHeader64, k: nat)
    requires |h.magic| == 4 && |h.padding| == 7 && ReadFileType(typeTag) == h.eType
    requires h.ePhnum == 0 && h.eShoff == 64 && h.eShentsize == 64
    requires h.eShnum == 1 && h.eShstrndx == 0
    requires sh.shName == 0 && sh.shOffset == 128 && sh.shSize == 1
    requires k < 129
    ensures !Parseable((EncodeHeader(h, typeTag) + EncodeSectionHeader(sh) + [0])[..k])
  {
    var header, section := EncodeHeader(h, typeTag), EncodeSectionHeader(sh);
    var prefix := (header + section + [0])[..k];
    if k >= HeaderSize {
      HeaderOfPrefix(prefix, h, typeTag);
      if k == 128 {
        assert prefix == header + section;
        AfterHeader(header, section);
        SectionHeaderRoundTrip(sh, []);
        StringTableCutOff(prefix, h, sh);
      }
    }
  }

  /** The bytes that follow a 64-byte header. The empty tail appended to
      `rest` gives the encoding-then-tail shape the round-trip lemmas of
      `ElfLayout` speak of. */
  lemma AfterHeader(header: seq<Byte>, rest: seq<Byte>)
    requires |header| == HeaderSize
    ensures (header + rest)[HeaderSize..HeaderSize + |rest|] == rest + []
  {
  }

  /** Any bytes that start with an encoded header decode to that header. */
  lemma HeaderOfPrefix(bytes: seq<Byte>, h: Elf64Header, typeTag: U16)
    requires |h.magic| == 4 && |h.padding| == 7 && ReadFileType(typeTag) == h.eType
    requires |bytes| >= HeaderSize && bytes[..HeaderSize] == EncodeHeader(h, typeTag)
    ensures HeaderAt(bytes) == h
  {
    HeaderIgnoresTail(bytes);
    HeaderRoundTrip(h, typeTag);
  }

  /** The last step of `TruncatedExampleNotParseable`: with the header and the
      section header table in place but the string table's byte missing, the
      string table runs past the end. */
  lemma StringTableCutOff(bytes: seq<Byte>, h: Elf64Header, sh: SectionHeader64)
    requires |bytes| == 128 && SectionHeaderAt(bytes[64..128]) == sh.(name := [])
    requires h.eShoff == 64 && h.eShentsize == 64 && h.eShnum == 1 && h.eShstrndx == 0
    requires sh.shOffset == 128 && sh.shSize == 1
    ensures !LayoutFits(bytes, h)
  {
    assert EntryAt(bytes, 64, 64, 0) == bytes[64..128];
    assert SectionHeaderOf(bytes, h, 0) == sh.(name := []);
  }

  /** The first loop of `Elf64::parse`: e_phnum program headers read one
      after another, e_phentsize bytes each, by the reader that has just
      consumed the 64-byte file header. */
  method ReadProgramHeaders(reader: ByteReader, header: Elf64Header)
    returns (programHeaders: seq<ProgramHeader64>)
    requires reader.Valid() && reader.pos == HeaderSize
    requires ProgramTableFits(reader.input, header)
    modifies reader
    ensures reader.Valid()
    ensures reader.pos == HeaderSize + header.ePhnum * header.ePhentsize
    ensures |programHeaders| == header.ePhnum
    ensures forall k :: 0 <= k < |programHeaders| ==>
      programHeaders[k] == ProgramHeaderOf(reader.input, header, k)
  {
    programHeaders := [];
    for i := 0 to header.ePhnum
      invariant reader.Valid() && reader.pos == HeaderSize + i * header.ePhentsize
      invariant |programHeaders| == i
      invariant forall k :: 0 <= k < i ==>
        programHeaders[k] == ProgramHeaderOf(reader.input, header, k)
    {
      EntryInTable(HeaderSize, header.ePhentsize, header.ePhnum, i);
      NextEntry(HeaderSize, header.ePhentsize, i);
      var programHeaderData := reader.ReadBytes(header.ePhentsize);
      assert programHeaderData == EntryAt(reader.input, HeaderSize, header.ePhentsize, i);
      var programHeader := ParseProgramHeader(programHeaderData);
      programHeaders := programHeaders + [programHeader.value];
    }
  }

  /** The second loop of `Elf64::parse`: e_shnum section headers read one
      after another, e_shentsize bytes each, by a new reader over the input
      from e_shoff on. Names are left empty. */
  method ReadSectionHeaders(bytes: seq<Byte>, header: Elf64Header)
    returns (sectionHeaders: seq<SectionHeader64>)
    requires SectionTableFits(bytes, header)
    ensures |sectionHeaders| == header.eShnum
    ensures forall k :: 0 <= k < |sectionHeaders| ==>
      sectionHeaders[k] == SectionHeaderOf(bytes, header, k)
  {
    TableStart(header.eShoff, header.eShentsize, header.eShnum);
    var sectionReader := new ByteReader(bytes[header.eShoff..]);
    sectionHeaders := [];
    for i := 0 to header.eShnum
      invariant sectionReader.Valid() && sectionReader.input == bytes[header.eShoff..]
      invariant sectionReader.pos == i * header.eShentsize
      invariant |sectionHeaders| == i
      invariant forall k :: 0 <= k < i ==>
        sectionHeaders[k] == SectionHeaderOf(bytes, header, k)
    {
      EntryInTable(header.eShoff, header.eShentsize, header.eShnum, i);
      NextEntry(0, header.eShentsize, i);
      var sectionHeaderData := sectionReader.ReadBytes(header.eShentsize);
      assert sectionHeaderData == EntryAt(bytes, header.eShoff, header.eShentsize, i);
      var sectionHeader := ParseSectionHeader(sectionHeaderData);
      sectionHeaders := sectionHeaders + [sectionHeader.value];
    }
  }

  /** The third loop of `Elf64::parse`: each section's name becomes the string
      at its sh_name offset in the string table; nothing else changes. */
  method ResolveSectionNames(sections: seq<SectionHeader64>, stringTable: seq<Byte>)
    returns (named: seq<SectionHeader64>)
    requires forall k :: 0 <= k < |sections| ==> HasTerminator(stringTable, sections[k].shName)
    ensures |named| == |sections|
    ensures forall k :: 0 <= k < |named| ==>
      named[k] == sections[k].(name := NameAt(stringTable, sections[k].shName))
  {
    named := sections;
    for i := 0 to |named|
      invariant |named| == |sections|
      invariant forall k :: 0 <= k < i ==>
        named[k] == sections[k].(name := NameAt(stringTable, sections[k].shName))
      invariant forall k :: i <= k < |named| ==> named[k] == sections[k]
    {
      var sectionName := GetSectionName(stringTable, named[i].shName);
      named := named[i := named[i].(name := sectionName)];
    }
  }

  /** `Elf64::parse`. Decodes the header from the first 64 bytes, e_phnum
      program headers of e_phentsize bytes each from byte 64 on, e_shnum
      section headers of e_shentsize bytes each from e_shoff on, and then
      sets each section's name from the string table of section e_shstrndx,
      changing no other field. It never returns an error. */
  method ParseElf64(bytes: seq<Byte>) returns (r: Result<Elf64>)
    requires Parseable(bytes)
    ensures r.Ok? && r.value.header == HeaderAt(bytes)
    ensures |r.value.programHeaders| == HeaderAt(bytes).ePhnum
    ensures forall k :: 0 <= k < |r.value.programHeaders| ==>
      r.value.programHeaders[k] == ProgramHeaderOf(bytes, HeaderAt(bytes), k)
    ensures |r.value.sectionHeaders| == HeaderAt(bytes).eShnum
    ensures forall k :: 0 <= k < |r.value.sectionHeaders| ==>
      var section := SectionHeaderOf(bytes, HeaderAt(bytes), k);
      r.value.sectionHeaders[k]
        == section.(name := NameAt(StringTable(bytes, HeaderAt(bytes)), section.shName))
  {
    var reader := new ByteReader(bytes);
    var headerData := reader.ReadBytes(HeaderSize);
    var headerResult := ParseHeader(headerData);
    var header := headerResult.value;
    HeaderIgnoresTail(bytes);
    assert header == HeaderAt(bytes);

    var programHeaders := ReadProgramHeaders(reader, header);
    var sectionHeaders := ReadSectionHeaders(bytes, header);

    var strtabSection := sectionHeaders[header.eShstrndx];
    var strtabStart: nat := strtabSection.shOffset;
    var strtabSize: nat := strtabSection.shSize;
    var stringTable := bytes[strtabStart..strtabStart + strtabSize];
    assert stringTable == StringTable(bytes, header);

    sectionHeaders := ResolveSectionNames(sectionHeaders, stringTable);
    r := Ok(Elf64(header, programHeaders, sectionHeaders));
  }
}
