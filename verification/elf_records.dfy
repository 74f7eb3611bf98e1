/** The three fixed-layout ELF64 records: the 64-byte file header, the 56-byte
    program header and the 64-byte section header. For each record there is a
    layout function that says which bytes hold which field, and the parser
    that decodes it field by field through a `ByteReader`. The encoders and the
    round-trip lemmas that pin the layouts down are in `ElfLayout`. */
module ElfRecords {
  import opened LittleEndian
  import opened ParserErrors
  import opened Reader
  import opened ElfTags

  /** The ELF64 file header. Magic and class are kept as read, never checked. */
  datatype Elf64Header = Elf64Header(
    magic: seq<Byte>,
    elfClass: Byte,
    endianness: Byte,
    version: Byte,
    abi: Byte,
    abiVersion: Byte,
    padding: seq<Byte>,
    eType: ElfFileType,
    machine: U16,
    eVersion: U32,
    eEntry: U64,
    ePhoff: U64,
    eShoff: U64,
    eFlags: U32,
    eEhsize: U16,
    ePhentsize: U16,
    ePhnum: U16,
    eShentsize: U16,
    eShnum: U16,
    eShstrndx: U16)

  /** One program-header-table entry. */
  datatype ProgramHeader64 = ProgramHeader64(
    pType: ProgramHeaderType,
    pFlag: ProgramHeaderFlag,
    pOffset: U64,
    pVaddr: U64,
    pPaddr: U64,
    pFilesz: U64,
    pMemsz: U64,
    pAlign: U64)

  /** One section-header-table entry. `name` holds the raw bytes of the resolved
      name; `shType` and `shFlags` stay raw integers. */
  datatype SectionHeader64 = SectionHeader64(
    shName: U32,
    name: seq<Byte>,
    shType: U32,
    shFlags: U64,
    shAddr: U64,
    shOffset: U64,
    shSize: U64,
    shLink: U32,
    shInfo: U32,
    shAddralign: U64,
    shEntsize: U64)

  const HeaderSize := 64
  const ProgramHeaderSize := 56
  const SectionHeaderSize := 64

  /** File header layout: identification bytes 0..16, then the fields at their
      fixed offsets (e_type 16, e_machine 18, e_version 20, e_entry 24,
      e_phoff 32, e_shoff 40, e_flags 48, and six u16 fields from 52 on). */
  function HeaderAt(s: seq<Byte>): (header: Elf64Header)
    requires |s| >= HeaderSize
    ensures |header.magic| == 4 && |header.padding| == 7
  {
    Elf64Header(
      s[0..4], s[4], s[5], s[6], s[7], s[8], s[9..16],
      ReadFileType(U16At(s, 16)), U16At(s, 18), U32At(s, 20),
      U64At(s, 24), U64At(s, 32), U64At(s, 40), U32At(s, 48),
      U16At(s, 52), U16At(s, 54), U16At(s, 56),
      U16At(s, 58), U16At(s, 60), U16At(s, 62))
  }

  /** Program header layout: type at 0, flags at 4, then six u64 fields. */
  function ProgramHeaderAt(s: seq<Byte>): (ph: ProgramHeader64)
    requires |s| >= ProgramHeaderSize
    ensures ph.pFlag != Pfrwx
  {
    ProgramHeader64(
      ReadProgramType(U32At(s, 0)), ReadFlag(U32At(s, 4)),
      U64At(s, 8), U64At(s, 16), U64At(s, 24),
      U64At(s, 32), U64At(s, 40), U64At(s, 48))
  }

  /** Section header layout; the name is not resolved here and stays empty. */
  function SectionHeaderAt(s: seq<Byte>): (sh: SectionHeader64)
    requires |s| >= SectionHeaderSize
    ensures sh.name == []
  {
    SectionHeader64(
      U32At(s, 0), [], U32At(s, 4), U64At(s, 8), U64At(s, 16),
      U64At(s, 24), U64At(s, 32), U32At(s, 40), U32At(s, 44),
      U64At(s, 48), U64At(s, 56))
  }

  /** `Elf64Header::parse`: reads the 64 header bytes in file order. It never
      fails once 64 bytes are there, and consumes exactly those 64. */
  method ParseHeader(data: seq<Byte>) returns (r: Result<Elf64Header>)
    requires |data| >= HeaderSize
    ensures r.Ok? && r.value == HeaderAt(data)
  {
    // Each read is followed by the cursor position it leaves behind, which
    // says where the next field starts.
    var reader := new ByteReader(data);
    var magic := reader.ReadBytes(4);
    assert reader.pos == 4;
    var elfClass := reader.ReadByte();
    assert reader.pos == 5;
    var endianness := reader.ReadByte();
    assert reader.pos == 6;
    var version := reader.ReadByte();
    assert reader.pos == 7;
    var abi := reader.ReadByte();
    assert reader.pos == 8;
    var abiVersion := reader.ReadByte();
    assert reader.pos == 9;
    var padding := reader.ReadBytes(7);
    assert reader.pos == 16;
    var eTypeTag := reader.ReadU16();
    assert reader.pos == 18;
    var eType := ReadFileType(eTypeTag.value);
    var machine := reader.ReadU16();
    assert reader.pos == 20;
    var eVersion := reader.ReadU32();
    assert reader.pos == 24;
    var eEntry := reader.ReadU64();
    assert reader.pos == 32;
    var ePhoff := reader.ReadU64();
    assert reader.pos == 40;
    var eShoff := reader.ReadU64();
    assert reader.pos == 48;
    var eFlags := reader.ReadU32();
    assert reader.pos == 52;
    var eEhsize := reader.ReadU16();
    assert reader.pos == 54;
    var ePhentsize := reader.ReadU16();
    assert reader.pos == 56;
    var ePhnum := reader.ReadU16();
    assert reader.pos == 58;
    var eShentsize := reader.ReadU16();
    assert reader.pos == 60;
    var eShnum := reader.ReadU16();
    assert reader.pos == 62;
    var eShstrndx := reader.ReadU16();
    assert reader.pos == 64;
    r := Ok(Elf64Header(
      magic, elfClass, endianness, version, abi, abiVersion, padding,
      eType, machine.value, eVersion.value, eEntry.value, ePhoff.value,
      eShoff.value, eFlags.value, eEhsize.value, ePhentsize.value,
      ePhnum.value, eShentsize.value, eShnum.value, eShstrndx.value));
  }

  /** `ProgramHeader64::parse`: decodes type and flags through the tag mappers,
      then six u64 fields; never fails once 56 bytes are there. */
  method ParseProgramHeader(data: seq<Byte>) returns (r: Result<ProgramHeader64>)
    requires |data| >= ProgramHeaderSize
    ensures r.Ok? && r.value == ProgramHeaderAt(data)
  {
    var reader := new ByteReader(data);
    // Each read is followed by the cursor position it leaves behind, which
    // says where the next field starts.
    var pTypeTag := reader.ReadU32();
    assert reader.pos == 4;
    var pType := ReadProgramType(pTypeTag.value);
    var pFlagTag := reader.ReadU32();
    assert reader.pos == 8;
    var pFlag := ReadFlag(pFlagTag.value);
    var pOffset := reader.ReadU64();
    assert reader.pos == 16;
    var pVaddr := reader.ReadU64();
    assert reader.pos == 24;
    var pPaddr := reader.ReadU64();
    assert reader.pos == 32;
    var pFilesz := reader.ReadU64();
    assert reader.pos == 40;
    var pMemsz := reader.ReadU64();
    assert reader.pos == 48;
    var pAlign := reader.ReadU64();
    assert reader.pos == 56;
    r := Ok(ProgramHeader64(
      pType, pFlag, pOffset.value, pVaddr.value, pPaddr.value,
      pFilesz.value, pMemsz.value, pAlign.value));
  }

  /** `SectionHeader64::parse`: decodes the ten numeric fields in file order
      with an empty name; never fails once 64 bytes are there. */
  method ParseSectionHeader(data: seq<Byte>) returns (r: Result<SectionHeader64>)
    requires |data| >= SectionHeaderSize
    ensures r.Ok? && r.value == SectionHeaderAt(data)
    ensures r.value.name == []
  {
    var reader := new ByteReader(data);
    // Each read is followed by the cursor position it leaves behind, which
    // says where the next field starts.
    var shName := reader.ReadU32();
    assert reader.pos == 4;
    var name := [];
    var shType := reader.ReadU32();
    assert reader.pos == 8;
    var shFlags := reader.ReadU64();
    assert reader.pos == 16;
    var shAddr := reader.ReadU64();
    assert reader.pos == 24;
    var shOffset := reader.ReadU64();
    assert reader.pos == 32;
    var shSize := reader.ReadU64();
    assert reader.pos == 40;
    var shLink := reader.ReadU32();
    assert reader.pos == 44;
    var shInfo := reader.ReadU32();
    assert reader.pos == 48;
    var shAddralign := reader.ReadU64();
    assert reader.pos == 56;
    var shEntsize := reader.ReadU64();
    assert reader.pos == 64;
    r := Ok(SectionHeader64(
      shName.value, name, shType.value, shFlags.value, shAddr.value,
      shOffset.value, shSize.value, shLink.value, shInfo.value,
      shAddralign.value, shEntsize.value));
  }
}
