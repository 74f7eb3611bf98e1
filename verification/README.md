# ELF64 decoder model

A Dafny model of the core of a small ELF64 reader written in Rust. The
repository reads a 64-bit little-endian ELF file into three structures:

- the 64-byte file header;
- the program header table;
- the section header table, in which every section's name is looked up in
  the section-name string table.

The model covers seven parts:

- `parser_error.dfy`: the error type `ParserError` and the `Result` that
  `read_u16`, `read_u32`, `read_u64` and the four `parse` functions return.
  No modelled operation produces an error.
- `little_endian.dfy`: bytes, fixed-width unsigned integers and the
  little-endian byte order of `from_le_bytes`. `FromLE` and `ToLE` are
  inverse to each other. The field readers `U16At`, `U32At` and `U64At` are
  tied to the byte-by-byte sums they stand for.
- `reader.dfy`: `ByteReader`, a forward-only cursor over a byte slice. It is
  a class with the input and a position, because the source mutates its
  remaining slice in place.
- `elf_tags.dfy`: the three enumerations and their tag decoders, with an
  encoder for each that the decoder inverts, except that the mask of
  `Pfrwx` decodes to `Pfwx`.
- `elf_records.dfy`: the three record types, a layout function per record
  saying which bytes hold which field, and the three record parsers. The
  parsers drive a `ByteReader` field by field and are proved to decode
  exactly that layout.
- `elf_layout.dfy`: encoders for the three records and round-trip lemmas
  showing that the layouts give each field its own bytes.
- `elf_object.dfy`: the NUL-terminated name lookup and `Elf64::parse`.
  `parse` is split into one method per loop. The object it returns is
  specified field by field in terms of the input bytes.

Whenever the Rust code would panic, the model places a precondition instead.
This covers slicing past the end, indexing past the end, and a name with no
terminator. With those preconditions met, `read_u16`, `read_u32`,
`read_u64` and the four `parse` functions always return `Ok`, just as the
decoder in src/reader.rs and src/elf.rs never builds an error value. The
other operations return their value directly, as in the source.

Where the code departs from the ELF gABI, or from the recoverable error
handling a reader might expect, the model follows the code:

- the program header table is read from byte 64, right after the file
  header, and `e_phoff` is never consulted;
- a section name with no NUL before the end of the string table is a panic
  (a precondition here), not a recoverable out-of-bounds error;
- truncated input is a panic (a precondition), not an error value;
- the magic number and the class byte are not checked;
- a flags value of 7 (read, write and execute) decodes to `Pfwx`, losing the
  read bit, so `Pfrwx` is never produced;
- `sh_type` and `sh_flags` stay raw integers and are not decoded;
- nothing keeps the section header table or the string table from
  overlapping the file header or each other.

## Model

| member | source | states |
|---|---|---|
| LittleEndian.FromLE | src/reader.rs:27-37 | the value of an n-byte little-endian string is below 256^n, so it fits the integer type the reader returns |
| LittleEndian.ToLE | src/reader.rs:27-37 | the n-byte little-endian encoding of a value has exactly n bytes |
| LittleEndian.FromToLE | src/reader.rs:27-37 | encoding a value that fits in n bytes and decoding it gives the value back |
| LittleEndian.ToFromLE | src/reader.rs:27-37 | decoding n bytes and encoding the value in n bytes gives the same bytes back |
| LittleEndian.FromLEAppend | src/reader.rs:27-37 | in the value of two byte strings laid end to end, the first string supplies the low-order part and the second is scaled by 256^(length of the first) |
| LittleEndian.U16AtBytes | src/reader.rs:35-37 | a u16 field is its first byte plus 256 times its second byte |
| LittleEndian.U32AtHalves | src/reader.rs:31-33 | a u32 field is its low u16 half plus 2^16 times its high u16 half |
| LittleEndian.U64AtHalves | src/reader.rs:27-29 | a u64 field is its low u32 half plus 2^32 times its high u32 half |
| Reader.ByteReader.constructor | src/reader.rs:7-9 | a new reader is at the start of its input: nothing consumed, all of the input still to read |
| Reader.ByteReader.ReadBytes | src/reader.rs:11-17 | hands out the next `amount` bytes of the unconsumed input, and the unconsumed input becomes what follows them; requires `amount` bytes to remain, where `split_at` panics |
| Reader.ByteReader.ReadByte | src/reader.rs:19-25 | hands out the next byte and advances by exactly one; requires one byte to remain |
| Reader.ByteReader.ReadU64 | src/reader.rs:27-29 | always `Ok`; the value is the little-endian u64 at the old position, and exactly 8 bytes are consumed |
| Reader.ByteReader.ReadU32 | src/reader.rs:31-33 | always `Ok`; the value is the little-endian u32 at the old position, and exactly 4 bytes are consumed |
| Reader.ByteReader.ReadU16 | src/reader.rs:35-37 | always `Ok`; the value is the little-endian u16 at the old position, and exactly 2 bytes are consumed |
| Reader.ByteReader.Remaining | src/reader.rs:39-41 | returns the unconsumed bytes without moving the reader; what was consumed followed by the result is the whole input |
| Reader.ByteReader.Skip | src/reader.rs:43-47 | drops the next `amount` bytes: the position advances by `amount` and the unconsumed input loses exactly that prefix |
| ElfTags.ReadProgramType | src/elf.rs:167-176 | 0, 1 and 2 decode to `PtNull`, `PtLoad` and `PtDynamic` and nothing else does; `Undefined` is exactly every value above 2 |
| ElfTags.ProgramTypeTag | src/elf.rs:14-19 | a raw value for each segment type, above 2 exactly for `Undefined` |
| ElfTags.ProgramTypeRoundTrip | src/elf.rs:167-176 | every segment type is the decoding of its tag |
| ElfTags.FlagMask | src/elf.rs:22-31 | each flag's permission bits form a mask below 8, and the mask is 0 exactly for `Undefined` |
| ElfTags.ReadFlag | src/elf.rs:178-191 | masks 1 to 6 decode to the flag with exactly those permission bits; 7 decodes to `Pfwx`; `Undefined` is exactly 0 and every value above 7; `Pfrwx` is never produced |
| ElfTags.FlagRoundTrip | src/elf.rs:178-191 | decoding a flag's mask gives the flag back for every flag but `Pfrwx`, whose mask decodes to `Pfwx` |
| ElfTags.ReadFlagMergesSevenWithThree | src/elf.rs:182-186 | masks 7 and 3 decode to the same flag, which loses the read bit of 7 |
| ElfTags.ReadFlagInjectiveBelowSeven | src/elf.rs:178-191 | apart from mask 7, two masks that decode to the same defined flag are equal |
| ElfTags.ReadFileType | src/elf.rs:248-261 | 0 to 4 decode to the five standard types; 0xFE00 to 0xFEFF to `EtOsSpec`; 0xFF00 to 0xFFFF to `EtProcSpec`; `Undefined` is exactly 5 to 0xFDFF |
| ElfTags.FileTypeTag | src/elf.rs:34-43 | a raw value for each file type, in 5 to 0xFDFF exactly for `Undefined` |
| ElfTags.FileTypeRoundTrip | src/elf.rs:248-261 | every file type is the decoding of its tag |
| ElfRecords.HeaderAt | src/elf.rs:195-246 | defines the file header layout: magic from bytes 0-3, class, data, version, OS ABI and ABI version from bytes 4-8, padding from 9-15, then e_type (through the tag decoder) at 16, e_machine 18, e_version 20, e_entry 24, e_phoff 32, e_shoff 40, e_flags 48 and the six u16 fields at 52 to 62; magic has 4 bytes and padding 7 |
| ElfRecords.ProgramHeaderAt | src/elf.rs:140-165 | defines the program header layout: the decoded type tag at 0 and flag mask at 4, then p_offset, p_vaddr, p_paddr, p_filesz, p_memsz and p_align at 8 to 48; the flag is never `Pfrwx` |
| ElfRecords.SectionHeaderAt | src/elf.rs:68-96 | defines the section header layout: sh_name at 0, sh_type 4, sh_flags 8, sh_addr 16, sh_offset 24, sh_size 32, sh_link 40, sh_info 44, sh_addralign 48 and sh_entsize 56; the name is left empty |
| ElfRecords.ParseHeader | src/elf.rs:195-246 | never fails on 64 or more bytes. The identification bytes come from offsets 0 to 16, and each later field is the little-endian value at its fixed offset (e_type through the tag decoder): the result is `HeaderAt` of the input |
| ElfRecords.ParseProgramHeader | src/elf.rs:140-165 | never fails on 56 or more bytes; type and flag are the decoded u32s at 0 and 4, and the six u64 fields come from 8, 16, 24, 32, 40 and 48 |
| ElfRecords.ParseSectionHeader | src/elf.rs:68-96 | never fails on 64 or more bytes; the ten numeric fields come from their fixed offsets, and the name is empty |
| ElfLayout.FieldThenTail | src/reader.rs:11-37 | if the bytes at an offset are the n-byte encoding of v followed by a tail, the field read there is v and the bytes after it are the tail |
| ElfLayout.EncodeHeader | src/elf.rs:104-125 | an encoded file header has exactly 64 bytes |
| ElfLayout.EncodeTableShape | src/elf.rs:119-124 | proof helper for `EncodeHeader`: the six table-shape fields take 12 bytes |
| ElfLayout.TableShapeAt | src/elf.rs:216-222 | the six u16 fields read from offsets 52 to 62 of an encoded header are the ones written there |
| ElfLayout.AddressesAt | src/elf.rs:207-214 | the fields read from offsets 16 to 48 of an encoded header are the ones written there |
| ElfLayout.HeaderRoundTrip | src/elf.rs:195-246 | decoding an encoded header gives back every field, whenever the raw type tag decodes to the header's type |
| ElfLayout.HeaderIgnoresTail | src/elf.rs:317-319 | the file header depends only on the first 64 bytes, which are all `Elf64::parse` hands to its parser |
| ElfLayout.EncodeProgramHeader | src/elf.rs:127-137 | an encoded program header has exactly 56 bytes |
| ElfLayout.ProgramHeaderRoundTrip | src/elf.rs:140-165 | decoding an encoded program header gives it back, whatever bytes follow, whenever the raw tags decode to its type and flag |
| ElfLayout.EncodeSectionHeader | src/elf.rs:52-65 | an encoded section header has exactly 64 bytes |
| ElfLayout.SectionHeaderRoundTrip | src/elf.rs:68-96 | decoding an encoded section header gives it back with an empty name, whatever bytes follow |
| ElfObject.NameAt | src/elf.rs:264-276 | the name at an offset is a run of non-NUL bytes of the table that starts there and is followed by a NUL inside the table |
| ElfObject.NameAtUnique | src/elf.rs:264-276 | any byte string with those properties is the name at that offset, so the name is well defined |
| ElfObject.HasTerminator | src/elf.rs:268-271 | defines when the scan from `index` stops inside the table rather than indexing past its end: some NUL lies at or after `index`; this can only hold for an offset inside the table |
| ElfObject.SectionNameExample | src/elf.rs:264-276 | in the table "\0.text\0.data\0", offset 1 names ".text" and offset 7 names ".data"; there is no name at the table's length |
| ElfObject.GetSectionName | src/elf.rs:264-276 | the loop collects exactly the bytes from the offset up to the first NUL; requires a NUL at or after the offset, where the source indexes past the end |
| ElfObject.EntryAt | src/elf.rs:323-337 | an entry of a table of `size`-byte entries has `size` bytes |
| ElfObject.EntryInTable | src/elf.rs:323-337 | proof helper for the two table loops: every entry of a table of `count` entries ends within the table |
| ElfObject.ProgramTableFits | src/elf.rs:317-328 | defines when the program header loop does not panic: no entries, or entries of at least 56 bytes whose e_phnum of them all fit after byte 64; a non-empty table implies at least one whole entry after the header |
| ElfObject.ProgramHeaderOf | src/elf.rs:323-326 | defines the k-th program header as the decoding of the k-th e_phentsize-byte slice after byte 64 |
| ElfObject.SectionTableFits | src/elf.rs:330-337 | defines when the section header loop does not panic: e_shnum entries of e_shentsize bytes (at least 64 when there are any) fit from e_shoff on; e_shoff itself lies within the input even when there are no entries, as the slice `bytes[e_shoff..]` needs |
| ElfObject.SectionHeaderOf | src/elf.rs:332-335 | defines the k-th section header, name not yet resolved, as the decoding of the k-th e_shentsize-byte slice from e_shoff |
| ElfObject.StringTableFits | src/elf.rs:339-345 | defines when the string table lookup does not panic: e_shstrndx indexes an existing section whose sh_offset + sh_size lies within the input |
| ElfObject.StringTable | src/elf.rs:339-345 | defines the string table as bytes sh_offset up to sh_offset + sh_size of section e_shstrndx |
| ElfObject.LayoutFits | src/elf.rs:323-351 | defines, for the header read from the input, the conjunction of the three conditions above with every section's sh_name having a NUL at or after it in the string table |
| ElfObject.Parseable | src/elf.rs:313-354 | defines the inputs on which `Elf64::parse` does not panic: 64 header bytes and a layout that fits; such an input has at least one section, so the final print of section 0 does not panic either |
| ElfObject.ReadProgramHeaders | src/elf.rs:323-328 | reads e_phnum entries of e_phentsize bytes each, one after another, from byte 64 on; entry k decodes to the program header there, and the reader stops right after the last entry |
| ElfObject.ReadSectionHeaders | src/elf.rs:330-337 | reads e_shnum entries of e_shentsize bytes each from e_shoff on; entry k decodes to the section header there |
| ElfObject.ResolveSectionNames | src/elf.rs:347-351 | every section gets the name at its sh_name offset in the string table; no other field and no other section changes |
| ElfObject.ParseableExample | src/elf.rs:313-366 | the smallest object whose header and tables do not overlap: any header with no program headers, one section header at byte 64 and a one-byte string table at byte 128 makes a parseable object, whatever its other fields hold; its header decodes to the header it was written from |
| ElfObject.ParseableFromParts | src/elf.rs:330-351 | once such an object's section header decodes to the string-table section, both tables, the string table and the section's name fit in the input |
| ElfObject.AfterHeader | src/elf.rs:317-330 | proof helper: the bytes after a 64-byte header are what was written after it |
| ElfObject.HeaderOfPrefix | src/elf.rs:317-319 | proof helper: input that starts with an encoded header decodes to that header |
| ElfObject.StringTableCutOff | src/elf.rs:339-345 | proof helper: if the one-byte string table the section header points at lies past the end of the input, the layout does not fit |
| ElfObject.TruncatedExampleNotParseable | src/elf.rs:313-366 | every proper prefix of the minimal object above is not parseable: cut inside the file header, the header is missing; cut inside the section header, the section table is missing; cut before the last byte, the string table is missing |
| ElfObject.ParseElf64 | src/elf.rs:313-366 | never fails on a parseable input. The header is the one at offset 0. The program headers are e_phnum entries from byte 64 on. The section headers are e_shnum entries from e_shoff on, each named from the string table of section e_shstrndx |

## Left out

- src/main.rs, src/cli.rs and src/display.rs, that is file I/O, argument handling and printing, are not part of this model.
- The `Display` implementations and the `println!` calls inside `Elf64::parse` only produce output and are not modelled.
- The call to `reader.remaining()` in the section loop only feeds a `println!` and is not modelled.
- `String::from_utf8_lossy` is not modelled; names are kept as their raw bytes. Lossy decoding is a standard-library call that the model does not reproduce.
- The `Elf32` stub has no fields and no operations.
- `SectionHeader64::read_flags` is `todo!()` in the source, so it has no behaviour to model.
- The `usize` and `u64` arithmetic in `Elf64::parse` is modelled on unbounded integers. The preconditions keep every table and the string table inside the input, which rules out the sums that could overflow.
- The `println!` of `section_headers[0]` in `Elf64::parse` panics when there are no sections. The model's `Parseable` already demands `e_shstrndx < e_shnum`, so at least one section exists, as `Parseable`'s postcondition states.
- Panics are modelled as preconditions, not as error values, because the code panics rather than returning an out-of-bounds error. As a consequence no operation is modelled as returning `Err`.
- The three loops of `Elf64::parse` are separate methods (`ReadProgramHeaders`, `ReadSectionHeaders`, `ResolveSectionNames`) that the parse method calls in the source's order.
