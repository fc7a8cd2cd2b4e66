# dmi: SMBIOS entry points and structure tables in Dafny

A model of the `dmi` crate's decoding core (`src/lib.rs`). The crate reads the
SMBIOS firmware inventory described by the DMTF SMBIOS Reference Specification
(DSP0134). The model covers four parts:

- **The two entry points** (module `EntryPoint`).
  - `Smbios` is the 32-bit entry point (section 5.2.1 of DSP0134). Its validity
    check is a wrapping 8-bit sum over its leading fields.
  - `Smbios3` is the 64-bit entry point (section 5.2.2). Its check only compares
    the anchor with `_SM3_`.
  - Both have packed little-endian layouts, with encoders and decoders.
- **The structure record** (module `Record`): the 4-byte `Header` (type, length,
  handle) and `Table` (header, formatted area, strings). It also has the two
  accessors: `Table::get`, a typed view keyed on the type tag, and
  `Table::get_str`, 1-based string lookup.
- **The six typed layouts** (module `Shapes`). These are BIOS information (type 0),
  system information (1), base board (2), chassis (3), processor (4) and memory
  device (17). Each is written out as explicit little-endian fields at fixed
  offsets and is proved to round-trip with its byte image.
- **The structure-table walker `tables`** (modules `Walker`, `WalkerFacts`,
  `WalkerExamples`).
  - `Walker.Tables` is a pure function over a cursor.
  - `Walker.DecodeTables` is an imperative method that mirrors the library's
    nested loops step for step. It is proved to compute `Tables`.
  - `WalkerFacts` proves the walker's general properties: locality,
    compositionality and a serialize/decode round trip.
  - `WalkerExamples` works through concrete small tables.

Bytes are integers in `[0, 256)` (`Bytes.byte`), and 8-bit sums wrap explicitly
(`% 256`). A string is the sequence of characters that the library pushes with
`b as char`.

## Model

| member | source | states |
|---|---|---|
| EntryPoint.WrappingSum | src/lib.rs:39 | the wrapping fold of bytes equals their plain sum modulo 256 |
| EntryPoint.WrapAppend | src/lib.rs:39-46 | wrapping sums of two runs combine to the wrapping sum of their concatenation |
| EntryPoint.SmbiosIsValid | src/lib.rs:38-48 | the library's chain of wrapping additions accepts exactly when the anchor, checksum, length, both versions, low byte of the maximum structure size, revision and formatted area sum to 0 modulo 256 |
| EntryPoint.SmbiosIsValidIgnores | src/lib.rs:38-48 | the intermediate anchor and checksum, table length, table address, structure count, BCD revision and the high byte of the maximum structure size never change the 32-bit check |
| EntryPoint.SmbiosDecodesTo | src/lib.rs:16-33 | a byte image carrying a structure's fields at their packed offsets decodes to that structure |
| EntryPoint.SmbiosDecodeEncode | src/lib.rs:16-33 | decoding the 31-byte packed image of a 32-bit entry point, whatever follows it, gives back the entry point |
| EntryPoint.DecodeSmbios | src/lib.rs:16-33 | reading the packed 32-bit entry point consumes exactly its first 31 bytes: re-encoding the result reproduces them |
| EntryPoint.SmbiosIsValidOnWire | src/lib.rs:38-48 | on raw bytes, the 32-bit check is the sum of bytes 0-8 and 10-15 modulo 256; byte 9 is skipped |
| EntryPoint.TestVectorSum | tests/tests.rs:4-45 | the covered bytes of the test entry point sum to 0x23E plus its checksum |
| EntryPoint.TestVectors | tests/tests.rs:4-45 | with every other field as in the tests, the entry point is valid iff its checksum is 0xc2, so the valid case (0xc2) and the invalid case (0x00) hold |
| EntryPoint.SmbiosIsValidCorrected | src/lib.rs:38-48 | the corrected check, with both bytes of the maximum structure size added, accepts exactly when all 16 leading bytes sum to 0 modulo 256 |
| EntryPoint.LeadingSum | src/lib.rs:44 | the 16 leading bytes sum to what the library sums plus the high byte of the maximum structure size |
| EntryPoint.LeadingBytesEncoded | src/lib.rs:16-33 | the 16 leading bytes are exactly the first 16 bytes of the packed image |
| EntryPoint.SmbiosIsValidCorrectedOnWire | src/lib.rs:38-48 | the corrected check is the sum of the first 16 bytes of the image modulo 256 |
| EntryPoint.SmbiosIsValidCorrectedFull | src/lib.rs:38-48 | when the intermediate section sums to 0, the corrected check is the checksum over the whole 31-byte image |
| EntryPoint.HighByteIgnored | src/lib.rs:44 | a concrete entry point whose 16 leading bytes sum to 0 is rejected by the library's check and accepted by the corrected one |
| EntryPoint.HighByteRejected | src/lib.rs:44 | for every entry point whose 16 leading bytes sum to 0 modulo 256 and whose maximum structure size has a non-zero high byte, the library's check rejects and the corrected check accepts |
| EntryPoint.Smbios3IsValid | src/lib.rs:69-72 | the 64-bit check accepts exactly when the packed image starts with `_SM3_`; the checksum byte is not examined |
| EntryPoint.Smbios3IsValidOnlyAnchor | src/lib.rs:69-72 | two 64-bit entry points with equal anchors get the same verdict, so the checksum and every other field are irrelevant |
| EntryPoint.Smbios3DecodeEncode | src/lib.rs:51-64 | decoding the 24-byte packed image of a 64-bit entry point gives back the entry point |
| EntryPoint.DecodeSmbios3 | src/lib.rs:51-64 | reading the packed 64-bit entry point consumes exactly its first 24 bytes: re-encoding the result reproduces them |
| EntryPoint.Smbios3IsValidOnWire | src/lib.rs:69-72 | on raw bytes, the 64-bit check holds iff the first five bytes are `_SM3_` |
| Record.DecodeHeaderBytes | src/lib.rs:75-81 | a header read back from its 4-byte image, with the handle little-endian, is the same header |
| Record.DecodeHeader | src/lib.rs:75-81 | every 4-byte image is the packed image of the header read from it (type, length, little-endian handle) |
| Record.Get | src/lib.rs:93-99 | the typed view exists iff the type tag is the layout's tag and the formatted area holds at least the layout's size; the view's byte image is the start of the formatted area |
| Record.GetAtMostOne | src/lib.rs:93-99 | no table has a typed view under two different layouts |
| Record.GetEncoded | src/lib.rs:93-99 | a table tagged for a structure whose formatted area starts with the structure's image yields that structure, and nothing under any other layout |
| Record.GetStr | src/lib.rs:101-107 | string number k exists iff 1 <= k <= the number of strings, and is then string k-1 (0-based); 0 never names a string |
| Record.GetStrAt | src/lib.rs:101-107 | each of the first 255 strings is reached at its 1-based position, whatever strings surround it |
| Shapes.TagInjective | src/lib.rs:123-239 | the six type tags 0, 1, 2, 3, 4 and 17 are pairwise distinct |
| Shapes.BiosDecodesTo | src/lib.rs:110-125 | a 14-byte image with the BIOS fields at their offsets decodes to those fields |
| Shapes.BiosEncodes | src/lib.rs:110-125 | re-encoding decoded BIOS information reproduces the 14 bytes |
| Shapes.ProcessorDecodesTo | src/lib.rs:174-206 | a 38-byte image with the processor fields at their offsets decodes to those fields |
| Shapes.ProcessorEncodes | src/lib.rs:174-206 | re-encoding decoded processor information reproduces the 38 bytes |
| Shapes.MemoryDecodesTo | src/lib.rs:208-239 | a 36-byte image with the memory device fields at their offsets decodes to those fields |
| Shapes.MemoryEncodes | src/lib.rs:208-239 | re-encoding a decoded memory device reproduces the 36 bytes |
| Shapes.Encode | src/lib.rs:110-239 | the byte image of a structure is exactly its layout's size (14, 4, 5, 5, 38 or 36) |
| Shapes.DecodeEncode | src/lib.rs:110-239 | each of the six layouts decodes its own image back to the structure, whatever follows the image |
| Shapes.Decode | src/lib.rs:110-239 | reading under a layout yields a structure of that layout whose image is exactly the layout-sized prefix read |
| Shapes.FromBytes | src/lib.rs:95 | reinterpreting bytes as a layout succeeds iff there are at least the layout's size of them; the result's image is that prefix |
| Shapes.FromBytesEncode | src/lib.rs:95 | reinterpreting a structure's image, whatever follows it, gives back the structure |
| Shapes.EncodeInjective | src/lib.rs:110-239 | two structures of one layout with the same image are equal |
| Walker.Widen | src/lib.rs:290 | widening a run of bytes to characters keeps its length |
| Walker.WidenAt | src/lib.rs:290 | each widened character has the code of its byte |
| Walker.ReadHeader | src/lib.rs:247-257 | the header read consumes at least one and at most the remaining bytes |
| Walker.ReadHeaderSpec | src/lib.rs:247-257 | the header's image is the up to 4 bytes at the cursor, then zeros; the cursor advances by the number of bytes available, at most 4 |
| Walker.ReadPayload | src/lib.rs:267-276 | the formatted area has exactly the declared length and the cursor stays within the table |
| Walker.ReadPayloadSpec | src/lib.rs:267-276 | the formatted area is the bytes available at the cursor, zero-padded up to the declared length; the cursor advances past the copied bytes only |
| Walker.ReadString | src/lib.rs:281-291 | one string's read consumes at least the string's bytes, and at least one byte when any remain |
| Walker.ReadStringSpec | src/lib.rs:281-291 | a string is the NUL-free run at the cursor, ended by a NUL that is consumed or by the end of the table |
| Walker.ReadStrings | src/lib.rs:278-299 | the string loop never moves the cursor backwards or past the end |
| Walker.ReadStringsExtends | src/lib.rs:278-299 | the string loop only appends, and appends strings without NULs that are non-empty after the first |
| Walker.ReadStringAt | src/lib.rs:281-291 | given a NUL-free run ending at a NUL or at the end of the table, the string read returns that run and the cursor past its terminator |
| Walker.Walk | src/lib.rs:244-306 | a walk from cursor i yields at most one table per remaining byte |
| Walker.WalkDecoded | src/lib.rs:244-306 | every table the walk yields has a type other than 127, a length of at least 4, a formatted area of length len - 4 and a well-formed string set |
| Walker.WalkHeader | src/lib.rs:259-267 | (one-step unfolding of Walk) the walk stops at a type-127 header and aborts at any other header whose length is below 4 |
| Walker.Tables | src/lib.rs:241-309 | the number of tables is at most the number of bytes, and every table is well-formed as in WalkDecoded |
| Walker.CopyFilled | src/lib.rs:247-276 | the copy loop, used both for the header (lines 247-257) and for the formatted area (lines 269-276), fills exactly the zero-filled read and stops its cursor at the end of the table or of the destination |
| Walker.CollectString | src/lib.rs:280-291 | the inner string loop computes the ReadString result |
| Walker.CollectStrings | src/lib.rs:278-299 | the string loop computes the ReadStrings result |
| Walker.DecodeTables | src/lib.rs:241-309 | the library's loops compute exactly Tables |
| WalkerFacts.WidenNarrow | src/lib.rs:290 | every string the walker can produce comes from its own bytes |
| WalkerFacts.ReadStringArea | src/lib.rs:278-299 | a string area written as NUL-terminated strings plus one NUL reads back as those strings and ends just past the final NUL |
| WalkerFacts.ReadStringsShift | src/lib.rs:278-299 | bytes in front of the cursor do not change the string loop's result |
| WalkerFacts.WalkShift | src/lib.rs:244-306 | bytes in front of the cursor do not change the walk |
| WalkerFacts.SerializedHeader | src/lib.rs:247-257 | the header of a serialized table reads back as its header |
| WalkerFacts.SerializedPayload | src/lib.rs:266-276 | the formatted area of a serialized table reads back as its formatted area |
| WalkerFacts.SerializedStrings | src/lib.rs:278-299 | the string area of a serialized table reads back as its strings and ends where the serialization ends |
| WalkerFacts.Compositional | src/lib.rs:244-306 | a serialized table followed by any bytes decodes to that table followed by what those bytes decode to |
| WalkerFacts.CompositionalAll | src/lib.rs:244-306 | any list of serialized tables followed by any bytes decodes to the list followed by what those bytes decode to |
| WalkerFacts.EndMarkerStops | src/lib.rs:259-262 | wherever the walk meets a type byte of 127 it yields nothing more |
| WalkerFacts.EndMarker | src/lib.rs:259-262 | a table that starts with the end marker decodes to no tables, whatever follows |
| WalkerFacts.RoundTrip | src/lib.rs:241-309 | serialized tables followed by an end marker and anything at all decode to exactly those tables |
| WalkerExamples.EmptyStringSet | src/lib.rs:278-299 | two NULs read as one empty string and consume both NULs |
| WalkerExamples.TwoStrings | src/lib.rs:278-299 | `Dell\0XPS\0\0` reads as the strings Dell and XPS and is consumed to its last NUL |
| WalkerExamples.NoTables | src/lib.rs:241-244 | an empty structure table has no tables |
| WalkerExamples.ShortLength | src/lib.rs:267 | a one-byte non-127 table has header length 0 and the walk aborts |
| WalkerExamples.PartialHeader | src/lib.rs:247-257 | a two-byte table gives a header zero-filled to handle 0 and a table with no formatted bytes and no strings |
| WalkerExamples.TruncatedPayload | src/lib.rs:267-276 | a formatted area cut short by the end of the table keeps its declared length, zero-padded, and has no strings |
| WalkerExamples.EndsAtPayload | src/lib.rs:278-299 | a table that ends exactly at the end of a formatted area gives that structure an empty string list |

## Left out

- The program `examples/print.rs`. It reads the DMI table from the filesystem and prints it, which is I/O and presentation.
- The `plain` crate's byte reinterpretation is not part of this model.
  - `from_bytes` is modelled as "succeeds iff the slice holds at least the layout's size". This is exact because every layout is `#[repr(packed)]` with alignment 1.
  - Field reads are explicit little-endian readers at fixed offsets, independent of host byte order.
- Debug-build overflow checks are left out.
  - `sum::<u8>()` over the formatted area (src/lib.rs:46) panics in a debug build when the five bytes sum past 255. The model uses the release-build wrapping sum.
- The `len < 4` header (src/lib.rs:267) is modelled as an abort: `Tables` returns `None`.
  - The library computes `len - 4` in `usize`. A debug build panics on the underflow.
  - A release build asks `vec!` for nearly `usize::MAX` bytes, which also panics.
  - So neither "stop" nor "skip" is what the code does; `None` stands for the panic.
- A table that ends inside a header is not a stop condition: the missing header bytes read as zeros and the zero-filled header is decoded like any other. Stopping the walk there would be an alternative; the code does not take it.
- A formatted area that the table cuts short keeps its declared length, and the missing bytes read as zeros. Truncating the area would be an alternative; the code does not take it.
- `Smbios3::is_valid` does not verify the 64-bit entry point's checksum. The code leaves it as a TODO, and the model does the same.
- Field meanings are not modelled: characteristics bits, voltages, speeds and string numbers inside the formatted areas. Only offsets, widths and type tags are.
- The `no_std`/`alloc` configuration and the `Clone`/`Copy`/`Debug`/`Default` derives are left out.

## Findings

| source | as written | input that shows it | evidently intended | confidence | as-written member | corrected member |
|---|---|---|---|---|---|---|
| src/lib.rs:44 | `max_structure_size as u8` adds only the low byte of the 16-bit maximum structure size to the checksum | the tests' entry point with maximum structure size 0x01b8 and checksum 0xc1: its 16 leading bytes sum to 0x300, yet the check fails | section 5.2.1 of DSP0134 sums every byte of the entry point, so both bytes of the field should count | medium, not executed | EntryPoint.HighByteIgnored (all such inputs: EntryPoint.HighByteRejected) | EntryPoint.SmbiosIsValidCorrected (whole-image form in EntryPoint.SmbiosIsValidCorrectedFull) |
