# PAK archive header codec and CRC-32, modelled in Dafny

This project models the core of a tool that packs and unpacks the PAK
archives of a game. The archive format is big-endian. An archive starts
with a 24-byte header: tag, base offset, number of directories and a
reserved zero. Then come the directory records. Each directory record is a
16-byte header followed by its NUL-terminated name and its file records.
Each file record is a 28-byte header followed by its NUL-terminated name.
Every file carries a CRC-32 of its content.

The model covers three parts of the source:

- **The big-endian cursor** of `common.h` (module `Common`).
  - The buffer is a byte sequence and the cursor is a position in it.
  - `ReadU32`, `ReadU64` and `ReadString` state what each read returns and
    where the cursor ends up. A read past the end of the buffer, or a
    string with no NUL, is an error result.
  - `GetUint32`, `GetUint64` and `GetString` are the step-by-step
    procedures. They copy the bytes, swap them in place with
    `BeToNative32`/`BeToNative64` (`BE_to_native`), and are proved equal to
    the reads.
  - The host byte order is a parameter (`Endian`).
- **The record types** of `pak.h` (module `PakFormat`) and **the header
  parser** of `pak.cpp` (module `PakLoad`).
  - `ParseFile`, `ParseDir` and `ParsePak` are the functions `File::load`,
    `Dir::load` and `Pak::load` compute.
  - `LoadFile`, `LoadDir` and `LoadPak` are the procedures, proved to
    compute exactly those functions. They fill a default record field by
    field, and the loops append one record per iteration.
  - The source's `assert`s on the reserved fields and the name lengths
    become the errors `ReservedNotZero` and `NameLengthMismatch`.
- **The table-driven CRC-32** of `crc.cpp`, with the polynomial of `crc.h`
  (module `Crc`).
  - The class `Crc32` holds the 256-entry table in an array. Its
    constructor fills the table with the nested loops of the source.
  - `Calculate` folds the message through the table.
  - Both are proved against specification functions. The lemmas about
    those functions include the equivalence of one table lookup with eight
    shifts of the bitwise register.

The source has no encoder: `pak.h` only declares `save_to_memory` and
`size_in_pak`. To state what the parser consumes, the model defines its own
inverse of the parser (module `PakHeaders`): `EncodeFile`, `EncodeDir` and
`EncodePak` lay out the fields in the order the parser reads them. The
properties in `PakProperties` then connect the parser to that encoder in
both directions:

- A successful parse returns well-formed records whose encoding is exactly
  the bytes consumed.
- Encoded well-formed records parse back to themselves.

From these follows the byte count of a successful `Pak::load`:
24 + Σ over directories of (16 + name length + Σ over its files of
(28 + name length)).

Where the source's comments and the code disagree, the model follows the
code:

- `pak.h:45` calls `num_dirs` "64-bit BE", but it is a `uint32_t` and
  `pak.cpp:41` reads it with `get_uint32`.
- `pak.h` declares `load_from_memory`, while `pak.cpp` defines `load`; the
  model follows the definitions in `pak.cpp`.

Two more choices shape the model:

- The parser in `pak.cpp` does not copy the file contents, so the model's
  records carry none.
- The cursor of `common.h` has no bounds check. The model turns every read
  past the end into an error instead of undefined behaviour.
- The cursor keeps bytes as numbers (`Common.byte`), because it assembles
  big-endian values arithmetically. The checksum works on bit-vectors
  (`bv8`, `bv32`), because it shifts and masks. `Crc.CharOf` converts one
  to the other.

## Model

| member | source | states |
|---|---|---|
| Common.ReadU32 | common.h:34-39 | succeeds exactly when four bytes remain at the cursor, fails with `Truncated` otherwise, and advances the cursor by four |
| Common.ReadU32IsBigEndian | common.h:34-36 | the value read is the big-endian value of the four bytes at the cursor |
| Common.ReadU64 | common.h:42-47 | succeeds exactly when eight bytes remain, fails with `Truncated` otherwise, and advances the cursor by eight |
| Common.ReadU64IsBigEndian | common.h:42-44 | the value read is the big-endian value of the eight bytes at the cursor |
| Common.ReadString | common.h:50-53 | fails with `Unterminated` exactly when no NUL lies at or after the cursor; otherwise returns the bytes up to the first NUL (none of them NUL) and leaves the cursor just past that NUL |
| Common.BeToNative32 | common.h:12-19 | the four bytes are reversed in place on a little-endian host and left alone on a big-endian one |
| Common.BeToNative64 | common.h:22-31 | the eight bytes are reversed in place on a little-endian host and left alone on a big-endian one |
| Common.BeToNativeInvolution | common.h:12-31 | swapping twice restores the original bytes, on either host |
| Common.NativeReadIsBigEndian | common.h:11-31 | after the swap, reading the bytes in the host's own order gives their big-endian value, on either host |
| Common.GetUint32 | common.h:34-39 | copying the bytes, swapping them and reading them natively yields exactly `ReadU32`, on either host |
| Common.GetUint64 | common.h:42-47 | copying the bytes, swapping them and reading them natively yields exactly `ReadU64`, on either host |
| Common.GetString | common.h:50-54 | scanning for the NUL byte by byte yields exactly `ReadString` |
| PakFormat.TagMagicOnWire | pak.h:39-43 | the bytes "PKBE" 00 00 00 01, read big-endian, are `TAG_MAGIC` |
| PakHeaders.EncodedFileLength | pak.h:5-12 | a well-formed file header takes 28 + `name_length` bytes |
| PakHeaders.EncodedDirLength | pak.h:21-29 | a well-formed directory takes 16 + `name_length` bytes plus the sizes of its file headers |
| PakHeaders.EncodedPakLength | pak.h:38-48 | a well-formed archive's header chain takes 24 bytes plus the sizes of its directories |
| PakLoad.LoadFile | pak.cpp:3-14 | reads `name_length`, `size`, `pak_offset`, `crc32`, `zero`, then the name; the result is `ParseFile` |
| PakLoad.LoadDir | pak.cpp:16-34 | reads the four header fields and the name, then `num_of_files` files, each from where the last one ended; the result is `ParseDir` |
| PakLoad.LoadPak | pak.cpp:36-51 | reads the four header fields, then `num_dirs` directories, each from where the last one ended; the result is `ParsePak` |
| PakProperties.ParsedFileIsEncoded | pak.cpp:3-14 | a parsed file header is well formed and the bytes consumed are exactly its encoding |
| PakProperties.EncodedFileParses | pak.cpp:3-14 | a well-formed file header, encoded at the cursor, parses back to itself and ends right after its encoding |
| PakProperties.ParsedDirIsEncoded | pak.cpp:16-34 | a parsed directory has exactly `num_of_files` well-formed files, and the bytes consumed are exactly its encoding |
| PakProperties.EncodedDirParses | pak.cpp:16-34 | a well-formed directory, encoded at the cursor, parses back to itself |
| PakProperties.ParsedPakIsEncoded | pak.cpp:36-51 | a parsed archive has exactly `num_dirs` well-formed directories, and the bytes consumed are exactly its encoding |
| PakProperties.EncodedPakParses | pak.cpp:36-51 | a well-formed archive, encoded at the start of the buffer, parses back to itself |
| PakProperties.PakRoundTrip | pak.cpp:36-51 | the header chain of a well-formed archive, followed by any bytes, parses back to the same archive and stops at the end of the headers |
| PakProperties.PakLoadConsumesHeaderSize | pak.cpp:36-51 | a successful `Pak::load` consumes exactly 24 + Σ(16 + dir name length + Σ(28 + file name length)) bytes, and those bytes are the archive's encoding |
| PakProperties.FileReservedRejected | pak.cpp:10-11 | a file header whose reserved field is non-zero is rejected with `ReservedNotZero` |
| PakProperties.FileNameLengthRejected | pak.cpp:12-13 | a file header whose name is not `name_length` - 1 bytes long is rejected with `NameLengthMismatch` |
| PakProperties.DirReservedRejected | pak.cpp:22-23 | a directory header whose reserved field is non-zero is rejected with `ReservedNotZero` |
| PakProperties.DirNameLengthRejected | pak.cpp:24-25 | a directory header whose name is not `name_length` - 1 bytes long is rejected with `NameLengthMismatch` |
| PakProperties.PakReservedRejected | pak.cpp:42-43 | an archive header whose reserved field is non-zero is rejected with `ReservedNotZero` |
| Crc.TableLandmarks | crc.cpp:6-21 | table entry 0 is 0, entry 128 is the polynomial 0xEDB88320, and entries 1 and 255 are 0x77073096 and 0x2D02EF8D |
| Crc.IndexIgnoresSign | crc.cpp:30 | the index `(crc ^ c) & 0xFF` of a sign-extended `char` is the low byte of `crc` xor the char's bits, so the sign does not matter |
| Crc.RoundsLinear | crc.cpp:10-18 | any number of shifts of the register distributes over exclusive or |
| Crc.RoundsOfHighBits | crc.cpp:10-18 | eight shifts of a word whose low byte is clear move it down by eight bits, without folding in the polynomial |
| Crc.LookupIsLowByteRounds | crc.cpp:30 | the entry looked up is eight shifts of the low byte of `crc ^ c` |
| Crc.TableStepIsBitwise | crc.cpp:6-30 | one table lookup `table[(crc ^ c) & 0xFF] ^ (crc >> 8)` equals eight bitwise shifts of `crc ^ c` |
| Crc.AccumulateIsBitwise | crc.cpp:28-31 | the table-driven accumulator equals the bitwise one after any message |
| Crc.ChecksumIsBitwise | crc.cpp:24-34 | the table-driven checksum equals the bitwise CRC-32 of ITU-T V.42 |
| Crc.AccumulateStep | crc.cpp:28-31 | appending one `char` performs one more table update |
| Crc.AccumulateAppend | crc.cpp:28-31 | the accumulator is a left fold: processing `a + b` equals processing `b` from the state after `a` |
| Crc.CheckValue | crc.cpp:24-34 | the checksum of the ASCII digits "123456789" is the standard CRC-32 check value 0xCBF43926 |
| Crc.EmptyChecksum | crc.cpp:26-33 | the empty message has checksum `~CRC32_INITIAL`, which is 0 |
| Crc.Crc32.constructor | crc.cpp:4-22 | the nested loops leave entry `i` of a fresh 256-entry table equal to eight shifts of `i`, for every `i` |
| Crc.Crc32.Step | crc.cpp:30 | one lookup in the stored table is the specification's update |
| Crc.Crc32.Calculate | crc.cpp:24-34 | the result is the complement of the table fold over the first `size` chars, starting from `CRC32_INITIAL` |

## Left out

- The command-line front end (`main.cpp`) is not part of this model. This covers the mode dispatch, the usage text, the output-path derivation, the `Error` exit codes of `common.h:56-61` and all file-system access: `load_from_file`, `load_from_dir`, `save_to_file`, `save_to_dir`, `get_dir_path` and `set_dir_path`.
- `save_to_memory` and `size_in_pak` are declared in `pak.h` but have no definition in the source. `PakHeaders` gives the header layout the parser implies; the content region is not encoded.
- File contents (`File::data`) are neither read nor copied: `pak.cpp` does not load them. The model keeps `data` absent.
- Host byte order: the source decides it at compile time with `std::endian::native`. Here it is a parameter, and the cursor is proved host-independent.
- Unaligned reads through `reinterpret_cast` and the aliasing they involve are not modelled. The bytes at the cursor are copied into a small array and swapped there.
- The tag and the base offset are read but, as in the source, not validated.
- `crc_32_init` and `crc_32`, declared in `crc.h:6-7`, have no definition and are not modelled. Only `CRC32_POLYNOMIAL` is taken from `crc.h`.
- `CRC32_INITIAL` is used at `crc.cpp:26`, but neither `crc.h`, `crc.cpp` nor `common.h` defines it. The standard value 0xFFFFFFFF is assumed (`Crc.INITIAL`).
- The messages of `Crc32::calculate` are sequences of 8-bit `char`s. `char` is taken to be signed, so `crc ^ message[i]` sign-extends. `Crc.IndexIgnoresSign` shows the choice does not change any result.
