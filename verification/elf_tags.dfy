/** The enumerations of src/elf.rs and the total functions that map raw ELF tag
    values onto them. Unknown tags are not an error: they map to `Undefined`. */
module ElfTags {
  import opened LittleEndian

  /** Segment type (`p_type`). */
  datatype ProgramHeaderType = PtNull | PtLoad | PtDynamic | Undefined

  /** Segment permissions (`p_flags`): the read/write/execute combinations. */
  datatype ProgramHeaderFlag = Pfx | Pfw | Pfwx | Pfr | Pfrx | Pfrw | Pfrwx | Undefined

  /** Object file type (`e_type`). */
  datatype ElfFileType = EtNone | EtRel | EtExec | EtDyn | EtCore | EtOsSpec | EtProcSpec | Undefined

  /** `ProgramHeader64::read_type`: 0, 1 and 2 are the known segment types;
      every other u32 is `Undefined`. */
  function ReadProgramType(data: U32): (t: ProgramHeaderType)
    ensures t == PtNull <==> data == 0
    ensures t == PtLoad <==> data == 1
    ensures t == PtDynamic <==> data == 2
    ensures t.Undefined? <==> data > 2
  {
    match data
    case 0 => PtNull
    case 1 => PtLoad
    case 2 => PtDynamic
    case _ => ProgramHeaderType.Undefined
  }

  /** The permission bits a flag value stands for in the ELF segment-flag mask
      (execute = 1, write = 2, read = 4); `Undefined` stands for none. */
  function FlagMask(f: ProgramHeaderFlag): (m: nat)
    ensures m < 8
    ensures m == 0 <==> f.Undefined?
  {
    match f
    case Pfx => 1
    case Pfw => 2
    case Pfwx => 3
    case Pfr => 4
    case Pfrx => 5
    case Pfrw => 6
    case Pfrwx => 7
    case Undefined => 0
  }

  /** `ProgramHeader64::read_flag`. Masks 1 to 6 map to the flag with exactly
      those permission bits; mask 7 maps to `Pfwx` (read permission dropped),
      so `Pfrwx` is never produced; 0 and anything above 7 are `Undefined`. */
  function ReadFlag(data: U32): (f: ProgramHeaderFlag)
    ensures 1 <= data <= 6 ==> FlagMask(f) == data
    ensures data == 7 ==> f == Pfwx
    ensures f.Undefined? <==> data == 0 || data > 7
    ensures f != Pfrwx
  {
    match data
    case 1 => Pfx
    case 2 => Pfw
    case 3 => Pfwx
    case 4 => Pfr
    case 5 => Pfrx
    case 6 => Pfrw
    case 7 => Pfwx
    case _ => ProgramHeaderFlag.Undefined
  }

  /** `Elf64Header::read_type`: 0 to 4 are the standard types, 0xFE00..0xFEFF
      the operating-system range, 0xFF00..0xFFFF the processor range, and
      5..0xFDFF `Undefined`. */
  function ReadFileType(data: U16): (t: ElfFileType)
    ensures t == EtNone <==> data == 0
    ensures t == EtRel <==> data == 1
    ensures t == EtExec <==> data == 2
    ensures t == EtDyn <==> data == 3
    ensures t == EtCore <==> data == 4
    ensures t == EtOsSpec <==> 0xFE00 <= data <= 0xFEFF
    ensures t == EtProcSpec <==> 0xFF00 <= data
    ensures t.Undefined? <==> 5 <= data <= 0xFDFF
  {
    if data == 0 then EtNone
    else if data == 1 then EtRel
    else if data == 2 then EtExec
    else if data == 3 then EtDyn
    else if data == 4 then EtCore
    else if 0xFE00 <= data <= 0xFEFF then EtOsSpec
    else if 0xFF00 <= data <= 0xFFFF then EtProcSpec
    else ElfFileType.Undefined
  }

  /** A raw `p_type` value for each segment type: the one `read_type` maps
      to it, and 3 for `Undefined`. */
  function ProgramTypeTag(t: ProgramHeaderType): (tag: U32)
    ensures t.Undefined? <==> tag > 2
  {
    match t
    case PtNull => 0
    case PtLoad => 1
    case PtDynamic => 2
    case Undefined => 3
  }

  /** Every segment type is the decoding of its tag. */
  lemma ProgramTypeRoundTrip(t: ProgramHeaderType)
    ensures ReadProgramType(ProgramTypeTag(t)) == t
  {
  }

  /** A raw `e_type` value for each file type: the standard value, the first
      value of the operating-system and processor ranges, and 5 for
      `Undefined`. */
  function FileTypeTag(t: ElfFileType): (tag: U16)
    ensures t.Undefined? <==> 5 <= tag <= 0xFDFF
  {
    match t
    case EtNone => 0
    case EtRel => 1
    case EtExec => 2
    case EtDyn => 3
    case EtCore => 4
    case EtOsSpec => 0xFE00
    case EtProcSpec => 0xFF00
    case Undefined => 5
  }

  /** Every file type is the decoding of its tag. */
  lemma FileTypeRoundTrip(t: ElfFileType)
    ensures ReadFileType(FileTypeTag(t)) == t
  {
  }

  /** Decoding a flag's permission mask gives the flag back, except for the
      full mask of `Pfrwx`, which decodes as `Pfwx`. */
  lemma FlagRoundTrip(f: ProgramHeaderFlag)
    ensures f != Pfrwx ==> ReadFlag(FlagMask(f)) == f
    ensures ReadFlag(FlagMask(Pfrwx)) == Pfwx
  {
  }

  /** The flag decoder is not injective: the full-permission mask 7 decodes to
      the same value as write+execute (3), and its read bit is lost. */
  lemma ReadFlagMergesSevenWithThree()
    ensures ReadFlag(7) == ReadFlag(3)
    ensures FlagMask(ReadFlag(7)) != 7
  {
  }

  /** Apart from mask 7, a decoded flag determines its tag: two tags with the
      same non-`Undefined` decoding are equal. */
  lemma ReadFlagInjectiveBelowSeven(a: U32, b: U32)
    requires a != 7 && b != 7
    requires ReadFlag(a) == ReadFlag(b) && !ReadFlag(a).Undefined?
    ensures a == b
  {
  }
}
