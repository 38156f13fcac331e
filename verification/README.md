# datlib header and hex decoders in Dafny

This project models the behaviour of `datlib`, a reader for a big-endian
binary container format (".dat" files) that stores game assets. The library
has two pure operations:

- `get_header` decodes the fixed 32-byte file header into the `Header`
  record declared at `datlib/src/datlib.rs` lines 6-23 (modelled as
  `DatHeader.Header`). The header is eight
  big-endian `u32` words: `file_size`, `body_size`, `reltab_count`,
  `root_count`, `xref_count` and three fields of unknown purpose at 0x14, 0x18
  and 0x1C. A buffer shorter than the header makes the library panic with
  "dat file too small!".
- `as_hex` renders each byte as `format!("{byte:02X}")`: two uppercase
  hexadecimal digits, zero-padded, in input order.

Modules:

- `Wrappers` (`wrappers.dfy`): `Option` and `Result`.
- `BigEndian` (`big_endian.dfy`): bytes, `u32` words, `u32::from_be_bytes`
  and `u32::to_be_bytes`, and the two round-trip lemmas between them.
- `DatHeader` (`dat_header.dfy`): the `Header` record, `GetHeader`, and an
  encoder `EncodeHeader`. The encoder is a reference inverse. The library has
  none.
- `Hex` (`hex.dfy`): the `X` format as unpadded digits (`HexDigits`), the
  `02` width and zero fill (`PadLeft`), `FormatByte`, `AsHex`, and the
  parsers `ParseByte` and `FromHex` that read the output back.

The panic in `get_header` is modelled as `Failure(FileTooSmall(length))`.
Integers are unbounded in Dafny. `byte` and `u32` are subset types of `int`
with the ranges of `u8` and `u32`. `size_of::<Header>()` is `HeaderSize`,
which is 8 × 4 = 32 bytes, because eight `u32` fields need no padding.

`datlib/src/datlib.rs` also declares the `Root` and `Xref` entries and the
body's node records (joints, meshes, textures and others). The repository has
no code that reads them, so there is nothing to model there.

## Model

| member | source | states |
|---|---|---|
| BigEndian.FromBeBytes | datlib/src/lib.rs:18-19 | `u32::from_be_bytes` of four bytes equals b0·2^24 + b1·2^16 + b2·2^8 + b3: the first byte is the most significant |
| BigEndian.FromToBeBytes | datlib/src/lib.rs:18-33 | reading back the big-endian bytes of any `u32` gives that word |
| BigEndian.ToFromBeBytes | datlib/src/lib.rs:18-33 | every 4-byte group is the big-endian spelling of the word decoded from it, so no two groups decode to the same word |
| DatHeader.GetHeader | datlib/src/lib.rs:11-35 | fails exactly when the buffer is shorter than 32 bytes, and the error records the length; on success, field i in declaration order is the big-endian word at bytes 4i..4i+3 |
| DatHeader.HeaderDependsOnPrefixOnly | datlib/src/lib.rs:18-33 | two buffers of at least 32 bytes that agree on their first 32 bytes decode to the same header, whatever follows |
| DatHeader.DecodeEncodeHeader | datlib/src/lib.rs:16-34 | decoding eight words serialised big-endian in declaration order, followed by any suffix, returns exactly those eight words |
| DatHeader.EncodeDecodeHeader | datlib/src/lib.rs:11-35 | every buffer of at least 32 bytes decodes, and re-encoding the header gives back exactly its first 32 bytes |
| DatHeader.FileSizeNotChecked | datlib/src/lib.rs:59-62 | for every buffer length of at least 32 and every `u32` value, some buffer of that length decodes to a header whose `file_size` is that value: the decoder does not enforce the equality the test observes on a sample file |
| Hex.DigitValue | datlib/src/lib.rs:38 | a char is accepted as a digit exactly when it is 0-9 or A-F (lower-case is rejected), and it is the `X`-format digit of its value |
| Hex.HexDigits | datlib/src/lib.rs:38 | the `X` format with no width is a non-empty run of uppercase digits that reads back as the number; it is "0" for zero and has no leading zero otherwise |
| Hex.PadLeft | datlib/src/lib.rs:38 | the `0` flag with a width pads on the left to at least the width, keeps the digits as the suffix and fills only with the fill char |
| Hex.FormatByte | datlib/src/lib.rs:38 | `{byte:02X}` of a byte is always exactly two chars, each an uppercase hexadecimal digit |
| Hex.FormatByteIsPaddedHex | datlib/src/lib.rs:38 | for every byte, the uppercase `X` spelling left-padded with '0' to width two is the high nibble's digit followed by the low nibble's digit |
| Hex.AsHex | datlib/src/lib.rs:37-39 | the output has one string per input byte, and element i is the formatting of byte i |
| Hex.ParseByte | datlib/src/lib.rs:38 | a string reads back as a byte exactly when it is two uppercase hexadecimal digits |
| Hex.ParseFormatByte | datlib/src/lib.rs:38 | a formatted byte reads back as the same byte |
| Hex.FormatParseByte | datlib/src/lib.rs:38 | any two-digit uppercase string that reads back as a byte is that byte's formatting, so the format is a bijection |
| Hex.FromAsHex | datlib/src/lib.rs:37-39 | `as_hex` loses nothing: its output reads back as the input bytes, in order |
| Hex.AsHexFromHex | datlib/src/lib.rs:37-39 | any list of strings that reads back as bytes is the `as_hex` output of those bytes |
| Hex.AsHexSmallBytes | datlib/src/lib.rs:46-50 | `as_hex([0x00, 0x01, 0x02])` is `["00", "01", "02"]` |

## Left out

- `load` (datlib/src/lib.rs:7-9) reads a file from disk with `fs::read`. It is I/O. The model takes the bytes as a parameter.
- `main` (datlib/src/main.rs:4-22) handles command-line arguments and printing. It is I/O.
- The test `test_get_header` (datlib/src/lib.rs:52-71) compares `file_size` with the length of one sample file on disk. That equality is a fact about that file, not a promise of the decoder, so it is not an ensures. `FileSizeNotChecked` shows that the decoder does not enforce it.
- The node records in datlib/src/datlib.rs (Joint, Mesh, Texture, the map, animation and quake records, and others) are type declarations only. There is no code that decodes them. Only the `Header` shape is used.
- Relocation tables, root and xref tables, string-table lookup, the node-graph builder with its offset cache, and cross-file reference resolution have no code in the repository. They are not modelled.
- `get_header` does not check that `file_size` equals the buffer length or that `body_size` is below `file_size`. The model returns `Failure(FileTooSmall(|v|))` where the code panics. Like the code, it checks neither relation. `FileSizeNotChecked` shows that any buffer length of at least 32 bytes can go with any claimed file size.
