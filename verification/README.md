# smmstore: a Dafny model of the SMMSTORE image reader

`smmstore` is a small command-line tool from system76. It reads a dump of the
SMMSTORE region, the flash area where coreboot's SMM handler keeps UEFI variables,
and lists the variables stored in it. This project models the tool's core and proves
properties about it:

- **The two record walkers** (`deserialize_v1` and `deserialize_v2`) are one
  walker, `Compact.EntriesFrom`, parameterised by a `Framing`. A framing is four
  numbers:
  - the start cursor: 0 for v1, 0x88 for v2;
  - the bytes of key in front of the key size: 0 for v1, the 16-byte GUID for v2;
  - the delimiter after the value: 1 for v1, 0 for v2;
  - the extra skip after alignment: 0 for v1, 36 for v2.

  The walk yields the records in order, each with its cursor. The map is the
  in-order fold `InsertAll`, where a later insert overwrites an earlier one.
- **`Compact.Deserialize`** is the source's while-loop: the same three exits, the
  same guard and the same cursor arithmetic. It is proved equal to that fold.
  `Compact.Load` is `main`'s fallback: v1 first, then v2 when v1 found nothing.
- **`Names`** models `main`'s listing loop. A key longer than a GUID with a
  non-empty value is listed. Its name is the run of little-endian UTF-16 code units
  after the GUID. The run stops at a zero unit or when fewer than two bytes remain,
  and surrogate units are dropped. The loop is proved equal to a reference reading
  (split into units, cut at the first zero, keep the scalar values). It is also
  proved to invert an encoder.
- **`CompactWriter`** is an encoder for v1 images. The tool has none; it is the
  walker's partner. The proofs show that walking a written image gives back exactly
  the records written. They also show that the decoded map holds the last value
  written under each key.
- **`Fvb` and `Layout`** model the three `#[repr(C)]` header structs of
  `src/fvb.rs`, their constants and their `is_valid` predicates:
  - the field offsets and struct sizes, derived from Rust's layout rule (packed or
    not);
  - byte-level decoders with encoder round trips;
  - the validity checks restated on raw bytes.

Unsigned reads through `*const u32` are modelled as little-endian, as on the x86
hosts the tool runs on. `(i + 3) & !3` is `Bytes.AlignUp(i, 4)`.

Three facts about the code:

- `main` does not look at the FVB header to pick a version. It runs v1 and falls
  back to v2 only when v1's map is empty.
- The v2 walker does not read `AuthenticatedVariableHeader` and does not check
  `0x55AA`. It is a size-word walker like v1: the key is GUID plus name, 36 bytes
  are skipped per record, and the value is sliced from inside the key. Nothing in
  `src/main.rs` uses `src/fvb.rs` at all.
- The v2 start is the constant 0x88 (136). It is not `size_of` FvbHeader plus
  `size_of` VariableStoreHeader, which is 72 + 28 = 100.

## Model

| member | source | states |
|---|---|---|
| Compact.ReadAt | src/main.rs:56-88 | One turn of the loop body. It stops exactly when the record does not fit: key size 0 or 0xFFFF_FFFF, or a payload that reaches the end of the image. Otherwise its key and value are the record at the cursor, and the next cursor is that record's successor. |
| Compact.Deserialize | src/main.rs:52-92 | The loop (for either framing) returns the in-order fold of the records the walk finds, with no extra or missing insert. |
| Compact.Load | src/main.rs:106-109 | `main` reads v1. If the first v1 record fits, the result is the non-empty v1 map; otherwise it is the v2 map. |
| Compact.Select | src/main.rs:106-109 | The same choice as a function: v2 is used exactly when v1 yields nothing. |
| Compact.EntryAt | src/main.rs:73-84 | A record's key is keyPrefix + keysz bytes long and its value valsz bytes long, taken at cursor + 8. |
| Compact.After | src/main.rs:87-88 | The next cursor lies at least 8 + key + value + delimiter + skip bytes past the current one. |
| Compact.EntriesFrom | src/main.rs:56-71 | The walk is non-empty exactly when the first record fits, and it then begins with that record. |
| Compact.DecodeEmpty | src/main.rs:56-71 | The map is empty exactly when the record at the start cursor does not fit. |
| Compact.DecodeContents | src/main.rs:75-84 | The map's keys are exactly the inserted keys. Each key maps to the value of the last record carrying it. |
| Compact.InsertAllLastWins | src/main.rs:75-84 | An insert that no later insert with the same key follows determines the final value of that key. |
| Compact.InsertAllKeys | src/main.rs:75-84 | Inserting adds exactly the inserted keys to the map's key set. |
| Compact.InsertAllUntouched | src/main.rs:75-84 | A key no record carries keeps its previous value. |
| Compact.SentinelEndsWalk | src/main.rs:63-66 | A key size of 0 or 0xFFFF_FFFF ends the walk whatever follows. |
| Compact.ShortRecordEndsWalk | src/main.rs:68-71 | A payload ending at or past the image end (the `>=` guard) ends the walk. |
| Compact.WalkRecords | src/main.rs:56-88 | Every walked record is the record read at its own cursor, and no record lies before the start. |
| Compact.WalkChain | src/main.rs:87-88 | Each record sits exactly at After of the one before it. |
| Compact.WalkEndsAfterLast | src/main.rs:56-71 | After the last inserted record, the next cursor does not hold a record that fits. |
| Compact.CursorsAligned | src/main.rs:87-88 | From an aligned start with an aligned skip, every record cursor is a multiple of 4. |
| Compact.WalkOrder | src/main.rs:42-88 | For v1 (the update at lines 87-88) and v2 (lines 42-46), every cursor is a multiple of 4. Cursors strictly increase by at least the record's bytes plus delimiter plus skip. |
| Compact.ExtendingKeepsEntries | src/main.rs:68-71 | Appending bytes to an image keeps every record already found, as a prefix of the new walk. |
| Compact.V2ShortImageIsEmpty | src/main.rs:8-25 | A v2 image shorter than 0xA2 bytes decodes to the empty map: it cannot hold the 0x88 start, the size words, the GUID, one key byte and the byte the strict guard demands past the payload. |
| Compact.V2ValueOverlapsKey | src/main.rs:27-38 | A v2 value starts keysz bytes after the size words. Its first bytes are the last bytes of the key (the 16 + keysz bytes from the same point). |
| Compact.V2KeysLong | src/main.rs:16-38 | Every v2 key is longer than a GUID, because a key size of 0 ends the walk. |
| Compact.V2EntryKeyLong | src/main.rs:21-33 | The same fact for each record of a v2 walk from any cursor. |
| Compact.V1RecordLayout | src/main.rs:73-88 | A v1 key and value lie back to back after the size words, and the delimiter byte is still inside the image. |
| Compact.ExampleRecord | src/main.rs:56-84 | A concrete image: the record at cursor 0 fits and is "ABCD" mapped to AA BB. |
| Compact.ExampleImageDecodes | src/main.rs:106-109 | That image decodes under v1 to the one-entry map, and `main` keeps the v1 map. |
| Bytes.U32AtIsLe | src/main.rs:57-61 | The size word read at a cursor is the little-endian u32 of the four bytes there. |
| Bytes.U32AtOfBytes | src/main.rs:57-61 | Four bytes written as the little-endian digits of x read back as x. |
| Bytes.AlignUp | src/main.rs:88 | `(i + 3) & !3`: the least multiple of 4 at or above i. |
| Names.Units | src/main.rs:123-126 | Unit i is byte 2i plus 256 times byte 2i+1; an odd last byte belongs to no unit. |
| Names.UntilZero | src/main.rs:127-129 | The units before the first zero unit: a prefix containing no zero, followed in the input by a zero unless it is all of the input. |
| Names.Scalars | src/main.rs:130-132 | Every character comes from a scalar unit of the input, and every scalar unit appears as a character (`char::from_u32` rejects only surrogates here). With no surrogates, all units are kept, in order. |
| Names.ScalarsAppend | src/main.rs:130-132 | Filtering two runs of units one after the other is filtering each run: the filter works unit by unit, in order. |
| Names.SurrogateDropped | src/main.rs:130-132 | A surrogate unit on its own gives no character; any other unit gives itself. |
| Names.NameFromReadsUnits | src/main.rs:122-134 | The loop from any byte j equals the reference reading of the bytes from j on. |
| Names.DecodeNameReadsUnits | src/main.rs:122-134 | The name, read from byte 16, equals the reference reading of the bytes after the GUID. |
| Names.OddByteIgnored | src/main.rs:123 | A trailing odd byte is never read (`j + 1 < len`). |
| Names.ZeroUnitEndsName | src/main.rs:127-129 | Nothing after a zero unit is part of the name. |
| Names.TerminatorEndsName | src/main.rs:127-129 | A zero unit right after the GUID gives the empty name. |
| Names.NameFromShift | src/main.rs:122-134 | The loop reads only bytes at and after its starting offset. |
| Names.NameFromEncoded | src/main.rs:122-134 | Reading an encoded name gives the name followed by whatever the rest reads as. |
| Names.NameRoundTrip | src/main.rs:111-134 | A key written as GUID, name (BMP characters, no NUL), zero unit, then anything decodes back to exactly that name. |
| Names.ExampleKeyName | src/main.rs:122-134 | A key holding "F", a lone surrogate, "oo" and a zero unit decodes to "Foo". |
| Names.ExampleImageListsNothing | src/main.rs:111-112 | The one-record v1 example image lists nothing: its 4-byte key is no longer than a GUID. |
| Names.Listing | src/main.rs:111-112 | A listed key is in the store, is longer than a GUID and has a non-empty value, and is listed with that value. |
| Names.ListedIffNonEmpty | src/main.rs:111-135 | For any store, a key is listed if and only if it is in the store, is longer than a GUID and has a non-empty value. It is listed under the name the loop reads from it, with its value. |
| Names.V2ListingSkipsOnlyEmptyValues | src/main.rs:106-112 | For a v2 map, a variable is listed exactly when its value is non-empty. |
| CompactWriter.RecordSize | src/main.rs:87-88 | A written v1 record takes a multiple of 4 bytes, at least 9 + key + value. |
| CompactWriter.ReadSizes | src/main.rs:57-61 | The size words of a written record read back as its key and value lengths. |
| CompactWriter.ReadPayload | src/main.rs:68-84 | The key and value of a written record pass the guard and are the slices the walker takes. |
| CompactWriter.ReadRecord | src/main.rs:56-84 | The walker reads a written record back at the cursor where it was written. |
| CompactWriter.ReadWritten | src/main.rs:55-89 | Records written one after another are each read back at their own cursors. |
| CompactWriter.ReadOne | src/main.rs:87-88 | After a written record, the walker's next cursor is the start of the next written record. |
| CompactWriter.ReadRecords | src/main.rs:55-89 | Walking a run of written records yields those records, then whatever follows the run. |
| CompactWriter.UnusedEndsWalk | src/main.rs:56-66 | A sentinel key size at a cursor (0 for zeroed flash, FF FF FF FF for erased flash) or fewer than 8 bytes there ends the walk. |
| CompactWriter.UnusedAfter | src/main.rs:56-66 | The walk stops where a tail begins that is zeroed, erased or too short for size words. |
| CompactWriter.WrittenImage | src/main.rs:52-92 | A written image followed by a zeroed, erased or short tail is read back record by record and stops at the tail. |
| CompactWriter.WalkGivesRecords | src/main.rs:52-92 | A walk that reads rs from the start and then stops gives exactly rs. |
| CompactWriter.V1RoundTrip | src/main.rs:52-92 | Decoding a written v1 image gives back exactly the records written, in order, whatever zeroed, erased or short tail follows. |
| CompactWriter.DecodeRecord | src/main.rs:75-84 | When the walk gives back rs, each record's key maps to the value of its last occurrence. |
| CompactWriter.V1DecodeWritten | src/main.rs:75-84 | In the map of a written image, a key maps to the value of the last record written with it. |
| Layout.OffsetsAreOrdered | src/fvb.rs:8-20 | Under the `repr(C)` rule, fields never overlap and unpacked fields are aligned. The struct's size covers its last field. |
| Layout.LaidOutUnique | src/fvb.rs:7-21 | The layout rule fixes the offsets: two offset lists that both follow it are equal. |
| Layout.OffsetsFromAt | src/fvb.rs:7-21 | Offsets that follow the rule put each field at the offset the rule computes for it. |
| Fvb.FvbHeaderLayout | src/fvb.rs:7-21 | FvbHeader fields lie at 0, 16, 32, 40, 44, 48, 50, 52, 54, 55 and 56 with no padding, and the struct is 72 bytes. |
| Fvb.FvbHeaderOffsetsUnique | src/fvb.rs:7-21 | The offsets the `repr(C)` rule gives FvbHeader are exactly FvbHeaderOffsets. |
| Fvb.FvbHeaderReadAtLayout | src/fvb.rs:9-14 | The decoder reads the zero vector, GUID, volume length, signature and attributes from the bytes at their layout offsets. |
| Fvb.FvbHeaderTailReadAtLayout | src/fvb.rs:15-20 | The decoder reads the header length, checksum, extension offset, reserved byte, revision and block map from the bytes at their layout offsets. The block map ends at byte 72. |
| Fvb.DecodeFvbHeader | src/fvb.rs:9-23 | A header is read exactly when at least 72 bytes are present. |
| Fvb.FvbHeaderRoundTrip | src/fvb.rs:9-21 | Decoding an encoded header, whatever follows it, gives the header back. |
| Fvb.FvbHeaderFieldsAt | src/fvb.rs:9-21 | Each field of an encoded header lies at its offset, little-endian. |
| Fvb.FvbHeaderCoversPrefix | src/fvb.rs:9-21 | Re-encoding a decoded header reproduces the first 72 bytes: every byte belongs to a field. |
| Fvb.FvbHeaderReadsPrefixOnly | src/fvb.rs:9-23 | The decoded header depends on the first 72 bytes only. |
| Fvb.FvbValidityOnBytes | src/fvb.rs:4-31 | An image has a valid FVB header exactly when it has 72 bytes, bytes 0..16 are zero, bytes 16..32 are the NV data GUID, bytes 40..44 are "_FVH" and byte 55 is 2. |
| Fvb.FvbValidityIgnoresUncheckedFields | src/fvb.rs:26-31 | Validity depends only on the zero vector, GUID, signature and revision. |
| Fvb.VariableStoreHeaderLayout | src/fvb.rs:34-43 | VariableStoreHeader fields lie at 0, 16, 20, 21, 22 and 24, and the struct is 28 bytes. |
| Fvb.VariableStoreHeaderOffsetsUnique | src/fvb.rs:34-43 | The offsets the `repr(C)` rule gives VariableStoreHeader are exactly VariableStoreHeaderOffsets. |
| Fvb.VariableStoreHeaderReadAtLayout | src/fvb.rs:36-43 | The decoder reads every store-header field from the bytes at its layout offset, the last ending at byte 28. |
| Fvb.DecodeVariableStoreHeader | src/fvb.rs:36-45 | A store header is read exactly when at least 28 bytes are present. |
| Fvb.VariableStoreHeaderRoundTrip | src/fvb.rs:36-43 | Decoding an encoded store header gives it back. |
| Fvb.VariableStoreHeaderCoversPrefix | src/fvb.rs:36-43 | Re-encoding a decoded store header reproduces the first 28 bytes. |
| Fvb.VariableStoreValidityOnBytes | src/fvb.rs:47-51 | A store header is valid exactly when its first 16 bytes are the authenticated-variable GUID. |
| Fvb.AuthenticatedVariableHeaderLayout | src/fvb.rs:55-68 | The packed header's fields lie back to back at 0, 2, 3, 4, 8, 16, 32, 36, 40 and 44, and the struct is 60 bytes. |
| Fvb.AuthenticatedVariableHeaderUnpacked | src/fvb.rs:56 | Without `packed`, the fields would keep those offsets but the struct would be padded to 64 bytes. |
| Fvb.AuthenticatedVariableHeaderOffsetsUnique | src/fvb.rs:55-68 | The offsets the `repr(C, packed)` rule gives AuthenticatedVariableHeader are exactly AuthenticatedVariableHeaderOffsets. |
| Fvb.AuthenticatedVariableHeaderReadAtLayout | src/fvb.rs:57-62 | The decoder reads the start id, state, reserved byte, attributes and monotonic count from the bytes at their layout offsets. |
| Fvb.AuthenticatedVariableHeaderTailReadAtLayout | src/fvb.rs:63-67 | The decoder reads the timestamp, public-key index, name size, data size and vendor GUID from the bytes at their layout offsets, the GUID ending at byte 60. |
| Fvb.DecodeAuthenticatedVariableHeader | src/fvb.rs:57-70 | A variable header is read exactly when at least 60 bytes are present. |
| Fvb.AuthenticatedVariableHeaderRoundTrip | src/fvb.rs:57-68 | Decoding an encoded variable header gives it back. |
| Fvb.AuthenticatedVariableHeaderCoversPrefix | src/fvb.rs:57-68 | Re-encoding a decoded variable header reproduces the first 60 bytes. |
| Fvb.StartIdOnBytes | src/fvb.rs:53-58 | The start id equals VARIABLE_START_ID exactly when the first two bytes are AA 55. |

## Left out

- Reading the file, argument handling and the exit on a missing argument
  (`src/main.rs:95-104`): the model starts from the image's bytes.
- Rendering (`src/main.rs:121`, 131, 135-148): the bold escape codes, the printing
  of characters and the hex dump. `Names.Listing` keeps each listed name and value,
  which is what the output is made from.
- Unaligned reads through raw pointers: modelled as in-bounds little-endian reads.
  What a big-endian host would read is not modelled. Neither are reads past the end
  of the buffer: the walker only reads size words when 8 bytes remain.
- `usize` overflow in `i + keysz + valsz` and the cursor updates: integers here are
  unbounded. On a 64-bit host two u32 sizes cannot overflow a `usize` cursor that
  indexes a real buffer.
- `BTreeMap`'s key order: the map is a Dafny `map`, so listing order is not
  modelled. Which value each key holds is.
- The `uefi` crate's `Guid` type and `SYSTEM_NV_DATA_FV_GUID` /
  `AUTHENTICATED_VARIABLE_GUID`. The `uefi` crate is not part of this model. GUIDs
  are their 16 bytes in memory order, and equality is byte equality. The two
  constants are given their UEFI values, and no proof depends on those values.
- `Plain` (`unsafe impl Plain`) and the struct overlay it allows are not modelled.
  The `Decode…Header` functions read the fields byte by byte instead and model only
  a length check. `plain::from_bytes` would also refuse a slice that is not aligned
  for the struct, and `src/main.rs` never calls it.
- `Compact.Deserialize` calls `Compact.ReadAt` for its loop body. The source writes
  that body inline.
- `Bytes.AlignUp` is an arithmetic definition of `(i + 3) & !3`. The bitwise form
  itself is not modelled.
- Walking variables through `AuthenticatedVariableHeader` and its `0x55AA` start id:
  no code does this. The three header structs and their `is_valid` checks are
  modelled on their own, and no walker uses them.
- `CompactWriter` encodes v1 only. No v2 encoder is given, because the 36-byte skip
  and the overlapping value slice are not a format anything is known to write.
- `Names.NameRoundTrip` covers only names whose characters each fit in one code
  unit, with no NUL. Supplementary characters are written as surrogate pairs, and
  the loop drops those units (`Names.ExampleKeyName`).
