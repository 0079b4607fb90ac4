/** The fixed-layout headers of a firmware-volume-block (FVB) variable store: the
    volume header, the variable store header and the per-variable authenticated
    header, each decoded field by field from little-endian bytes at the offsets
    Rust's layout rules give them, with the validity predicates of the source. */
module Fvb {
  import opened Wrappers
  import opened Bytes
  import opened Layout

  type Bytes4 = s: seq<byte> | |s| == 4 witness [0, 0, 0, 0]
  type Bytes16 = s: seq<byte> | |s| == 16 witness [0, 0, 0, 0, 0, 0, 0, 0, 0, 0, 0, 0, 0, 0, 0, 0]
  /** A GUID as it lies in memory. Two GUIDs are equal exactly when their bytes are. */
  type Guid = Bytes16

  /** "_FVH" */
  const FvhSignature: Bytes4 := [0x5F, 0x46, 0x56, 0x48]
  const FvhRevision: byte := 0x02
  const VariableStartId: u16 := 0x55AA

  /** The two well-known GUIDs, in memory order. Their values come from the UEFI
      definitions; no proof below depends on them. */
  const SystemNvDataFvGuid: Guid :=
    [0x8D, 0x2B, 0xF1, 0xFF, 0x96, 0x76, 0x8B, 0x4C, 0xA9, 0x85, 0x27, 0x47, 0x07, 0x5B, 0x4F, 0x50]
  const AuthenticatedVariableGuid: Guid :=
    [0x78, 0x2C, 0xF3, 0xAA, 0x7B, 0x94, 0x9A, 0x43, 0xA1, 0x80, 0x2E, 0x14, 0x4E, 0xC3, 0x77, 0x92]

  // ---------------------------------------------------------------------------
  // FvbHeader

  type BlockMap = s: seq<(u32, u32)> | |s| == 2 witness [(0, 0), (0, 0)]

  datatype FvbHeader = FvbHeader(
    zeroVector: Bytes16,
    guid: Guid,
    volumeLength: u64,
    signature: Bytes4,
    attributes: u32,
    headerLength: u16,
    checksum: u16,
    extHeaderOffset: u16,
    reserved: byte,
    revision: byte,
    blockMap: BlockMap)
  {
    /** The four checked fields have their expected values; the rest may be anything. */
    predicate IsValid() {
      && (forall i :: 0 <= i < 16 ==> zeroVector[i] == 0)
      && guid == SystemNvDataFvGuid
      && signature == FvhSignature
      && revision == FvhRevision
    }
  }

  const FvbHeaderFields: seq<Field> :=
    [Bytes16Field, GuidField, U64, Bytes4Field, U32, U16, U16, U16, U8, U8, BlockMapField]
  const FvbHeaderOffsets: seq<nat> := [0, 16, 32, 40, 44, 48, 50, 52, 54, 55, 56]
  const FvbHeaderSize: nat := 72

  /** `#[repr(C)] FvbHeader` puts its fields at these offsets, with no padding
      anywhere, and is 72 bytes long. */
  lemma FvbHeaderLayout()
    ensures LaidOut(FvbHeaderFields, false, FvbHeaderOffsets)
    ensures LaidOut(FvbHeaderFields, true, FvbHeaderOffsets)
    ensures SizeOf(FvbHeaderFields, false) == FvbHeaderSize
  {
    var fs := FvbHeaderFields;
    var offs := FvbHeaderOffsets;
    assert OffsetOf(fs, 0, false) == 0;
    assert OffsetOf(fs, 1, false) == 16;
    assert OffsetOf(fs, 2, false) == 32;
    assert OffsetOf(fs, 3, false) == 40;
    assert OffsetOf(fs, 4, false) == 44;
    assert OffsetOf(fs, 5, false) == 48;
    assert OffsetOf(fs, 6, false) == 50;
    assert OffsetOf(fs, 7, false) == 52;
    assert OffsetOf(fs, 8, false) == 54;
    assert OffsetOf(fs, 9, false) == 55;
    assert OffsetOf(fs, 10, false) == 56;
    assert OffsetsFrom(fs, false, offs, 11);
    assert OffsetsFrom(fs, false, offs, 10);
    assert OffsetsFrom(fs, false, offs, 9);
    assert OffsetsFrom(fs, false, offs, 8);
    assert OffsetsFrom(fs, false, offs, 7);
    assert OffsetsFrom(fs, false, offs, 6);
    assert OffsetsFrom(fs, false, offs, 5);
    assert OffsetsFrom(fs, false, offs, 4);
    assert OffsetsFrom(fs, false, offs, 3);
    assert OffsetsFrom(fs, false, offs, 2);
    assert OffsetsFrom(fs, false, offs, 1);
    assert OffsetsFrom(fs, false, offs, 0);
    assert OffsetOf(fs, 0, true) == 0;
    assert OffsetOf(fs, 1, true) == 16;
    assert OffsetOf(fs, 2, true) == 32;
    assert OffsetOf(fs, 3, true) == 40;
    assert OffsetOf(fs, 4, true) == 44;
    assert OffsetOf(fs, 5, true) == 48;
    assert OffsetOf(fs, 6, true) == 50;
    assert OffsetOf(fs, 7, true) == 52;
    assert OffsetOf(fs, 8, true) == 54;
    assert OffsetOf(fs, 9, true) == 55;
    assert OffsetOf(fs, 10, true) == 56;
    assert OffsetsFrom(fs, true, offs, 11);
    assert OffsetsFrom(fs, true, offs, 10);
    assert OffsetsFrom(fs, true, offs, 9);
    assert OffsetsFrom(fs, true, offs, 8);
    assert OffsetsFrom(fs, true, offs, 7);
    assert OffsetsFrom(fs, true, offs, 6);
    assert OffsetsFrom(fs, true, offs, 5);
    assert OffsetsFrom(fs, true, offs, 4);
    assert OffsetsFrom(fs, true, offs, 3);
    assert OffsetsFrom(fs, true, offs, 2);
    assert OffsetsFrom(fs, true, offs, 1);
    assert OffsetsFrom(fs, true, offs, 0);
    assert MaxAlign(fs, 0) == 1;
    assert MaxAlign(fs, 1) == 1;
    assert MaxAlign(fs, 2) == 4;
    assert MaxAlign(fs, 3) == 8;
    assert MaxAlign(fs, 4) == 8;
    assert MaxAlign(fs, 5) == 8;
    assert MaxAlign(fs, 6) == 8;
    assert MaxAlign(fs, 7) == 8;
    assert MaxAlign(fs, 8) == 8;
    assert MaxAlign(fs, 9) == 8;
    assert MaxAlign(fs, 10) == 8;
    assert MaxAlign(fs, 11) == 8;
  }

  /** Reads an FvbHeader from the start of data, or None when data is too short. */
  function DecodeFvbHeader(data: seq<byte>): (r: Option<FvbHeader>)
    ensures r.Some? <==> |data| >= FvbHeaderSize
  {
    if |data| < FvbHeaderSize then None
    else
      Some(FvbHeader(
        zeroVector := data[0..16],
        guid := data[16..32],
        volumeLength := LeU64(data[32..40]),
        signature := data[40..44],
        attributes := LeU32(data[44..48]),
        headerLength := LeU16(data[48..50]),
        checksum := LeU16(data[50..52]),
        extHeaderOffset := LeU16(data[52..54]),
        reserved := data[54],
        revision := data[55],
        blockMap := [(LeU32(data[56..60]), LeU32(data[60..64])), (LeU32(data[64..68]), LeU32(data[68..72]))]))
  }

  /** The bytes of field k of a struct whose fields lie at `offs`. */
  function FieldBytes(data: seq<byte>, fields: seq<Field>, offs: seq<nat>, k: nat): (b: seq<byte>)
    requires k < |fields| && k < |offs| && offs[k] + fields[k].size <= |data|
    ensures |b| == fields[k].size
  {
    data[offs[k] .. offs[k] + fields[k].size]
  }

  /** The `repr(C)` rule gives FvbHeader's fields exactly the offsets
      FvbHeaderOffsets. */
  lemma FvbHeaderOffsetsUnique(offs: seq<nat>)
    requires LaidOut(FvbHeaderFields, false, offs)
    ensures offs == FvbHeaderOffsets
  {
    FvbHeaderLayout();
    LaidOutUnique(FvbHeaderFields, false, offs, FvbHeaderOffsets);
  }

  /** The decoder reads each field of FvbHeader from the bytes at the field's
      offset in FvbHeaderOffsets: the fields up to the attributes here, the rest in
      FvbHeaderTailReadAtLayout. */
  lemma FvbHeaderReadAtLayout(data: seq<byte>)
    requires |data| >= FvbHeaderSize
    ensures var h := DecodeFvbHeader(data).value;
      && h.zeroVector == FieldBytes(data, FvbHeaderFields, FvbHeaderOffsets, 0)
      && h.guid == FieldBytes(data, FvbHeaderFields, FvbHeaderOffsets, 1)
      && h.volumeLength == LeU64(FieldBytes(data, FvbHeaderFields, FvbHeaderOffsets, 2))
      && h.signature == FieldBytes(data, FvbHeaderFields, FvbHeaderOffsets, 3)
      && h.attributes == LeU32(FieldBytes(data, FvbHeaderFields, FvbHeaderOffsets, 4))
  {
  }

  /** The same for the FvbHeader fields from the header length on. */
  lemma FvbHeaderTailReadAtLayout(data: seq<byte>)
    requires |data| >= FvbHeaderSize
    ensures var h := DecodeFvbHeader(data).value;
      && h.headerLength == LeU16(FieldBytes(data, FvbHeaderFields, FvbHeaderOffsets, 5))
      && h.checksum == LeU16(FieldBytes(data, FvbHeaderFields, FvbHeaderOffsets, 6))
      && h.extHeaderOffset == LeU16(FieldBytes(data, FvbHeaderFields, FvbHeaderOffsets, 7))
      && [h.reserved] == FieldBytes(data, FvbHeaderFields, FvbHeaderOffsets, 8)
      && [h.revision] == FieldBytes(data, FvbHeaderFields, FvbHeaderOffsets, 9)
      && FvbHeaderOffsets[10] + FvbHeaderFields[10].size == FvbHeaderSize
      && h.blockMap[0].0 == LeU32(data[FvbHeaderOffsets[10] .. FvbHeaderOffsets[10] + 4])
      && h.blockMap[0].1 == LeU32(data[FvbHeaderOffsets[10] + 4 .. FvbHeaderOffsets[10] + 8])
      && h.blockMap[1].0 == LeU32(data[FvbHeaderOffsets[10] + 8 .. FvbHeaderOffsets[10] + 12])
      && h.blockMap[1].1 == LeU32(data[FvbHeaderOffsets[10] + 12 .. FvbHeaderOffsets[10] + 16])
  {
  }

  /** The bytes an FvbHeader occupies in memory. */
  function EncodeFvbHeader(h: FvbHeader): (r: seq<byte>)
    ensures |r| == FvbHeaderSize
  {
    Pow256Widths();
    h.zeroVector + (h.guid + (LeBytes(h.volumeLength, 8) + (h.signature
      + (LeBytes(h.attributes, 4) + (LeBytes(h.headerLength, 2) + (LeBytes(h.checksum, 2)
      + (LeBytes(h.extHeaderOffset, 2) + ([h.reserved, h.revision]
      + (LeBytes(h.blockMap[0].0, 4) + (LeBytes(h.blockMap[0].1, 4)
      + (LeBytes(h.blockMap[1].0, 4) + LeBytes(h.blockMap[1].1, 4))))))))))))
  }

  /** Decoding the bytes of a header, whatever follows them, gives the header back. */
  lemma FvbHeaderRoundTrip(h: FvbHeader, rest: seq<byte>)
    ensures DecodeFvbHeader(EncodeFvbHeader(h) + rest) == Some(h)
  {
    Pow256Widths();
    var d := EncodeFvbHeader(h) + rest;
    FvbHeaderFieldsAt(h, rest);
    var h' := DecodeFvbHeader(d).value;
    assert h'.blockMap == h.blockMap;
  }

  /** Where each field of an encoded header lies, read back as the decoder reads it. */
  lemma FvbHeaderFieldsAt(h: FvbHeader, rest: seq<byte>)
    ensures var d := EncodeFvbHeader(h) + rest;
      && |d| >= FvbHeaderSize
      && d[0..16] == h.zeroVector && d[16..32] == h.guid
      && LeU64(d[32..40]) == h.volumeLength && d[40..44] == h.signature
      && LeU32(d[44..48]) == h.attributes && LeU16(d[48..50]) == h.headerLength
      && LeU16(d[50..52]) == h.checksum && LeU16(d[52..54]) == h.extHeaderOffset
      && d[54] == h.reserved && d[55] == h.revision
      && LeU32(d[56..60]) == h.blockMap[0].0 && LeU32(d[60..64]) == h.blockMap[0].1
      && LeU32(d[64..68]) == h.blockMap[1].0 && LeU32(d[68..72]) == h.blockMap[1].1
  {
    Pow256Widths();
    var e := EncodeFvbHeader(h);
    var d := e + rest;
    var p12 := LeBytes(h.blockMap[1].1, 4);
    var p11 := LeBytes(h.blockMap[1].0, 4) + p12;
    var p10 := LeBytes(h.blockMap[0].1, 4) + p11;
    var p9 := LeBytes(h.blockMap[0].0, 4) + p10;
    var p8 := [h.reserved, h.revision] + p9;
    var p7 := LeBytes(h.extHeaderOffset, 2) + p8;
    var p6 := LeBytes(h.checksum, 2) + p7;
    var p5 := LeBytes(h.headerLength, 2) + p6;
    var p4 := LeBytes(h.attributes, 4) + p5;
    var p3 := h.signature + p4;
    var p2 := LeBytes(h.volumeLength, 8) + p3;
    var p1 := h.guid + p2;
    assert e == h.zeroVector + p1;
    HoldsPrefix(e, rest);
    HoldsConcat(d, 0, h.zeroVector, p1);
    HoldsConcat(d, 16, h.guid, p2);
    HoldsConcat(d, 32, LeBytes(h.volumeLength, 8), p3);
    HoldsConcat(d, 40, h.signature, p4);
    HoldsConcat(d, 44, LeBytes(h.attributes, 4), p5);
    HoldsConcat(d, 48, LeBytes(h.headerLength, 2), p6);
    HoldsConcat(d, 50, LeBytes(h.checksum, 2), p7);
    HoldsConcat(d, 52, LeBytes(h.extHeaderOffset, 2), p8);
    HoldsConcat(d, 54, [h.reserved, h.revision], p9);
    HoldsConcat(d, 56, LeBytes(h.blockMap[0].0, 4), p10);
    HoldsConcat(d, 60, LeBytes(h.blockMap[0].1, 4), p11);
    HoldsConcat(d, 64, LeBytes(h.blockMap[1].0, 4), p12);
    assert d[54..56] == [h.reserved, h.revision];
  }

  /** Every one of the first 72 bytes belongs to exactly one field: re-encoding the
      decoded header reproduces them. */
  lemma FvbHeaderCoversPrefix(data: seq<byte>)
    requires |data| >= FvbHeaderSize
    ensures EncodeFvbHeader(DecodeFvbHeader(data).value) == data[..FvbHeaderSize]
  {
    var h := DecodeFvbHeader(data).value;
    FvbHeaderFromFields(h, data);
  }

  /** A header whose fields are read from data encodes back to data's first 72 bytes. */
  lemma FvbHeaderFromFields(h: FvbHeader, data: seq<byte>)
    requires |data| >= FvbHeaderSize
    requires && data[0..16] == h.zeroVector && data[16..32] == h.guid
      && LeU64(data[32..40]) == h.volumeLength && data[40..44] == h.signature
      && LeU32(data[44..48]) == h.attributes && LeU16(data[48..50]) == h.headerLength
      && LeU16(data[50..52]) == h.checksum && LeU16(data[52..54]) == h.extHeaderOffset
      && data[54] == h.reserved && data[55] == h.revision
      && LeU32(data[56..60]) == h.blockMap[0].0 && LeU32(data[60..64]) == h.blockMap[0].1
      && LeU32(data[64..68]) == h.blockMap[1].0 && LeU32(data[68..72]) == h.blockMap[1].1
    ensures EncodeFvbHeader(h) == data[..FvbHeaderSize]
  {
    LeBytesOfLeUint(data[32..40]);
    LeBytesOfLeUint(data[44..48]);
    LeBytesOfLeUint(data[48..50]);
    LeBytesOfLeUint(data[50..52]);
    LeBytesOfLeUint(data[52..54]);
    LeBytesOfLeUint(data[56..60]);
    LeBytesOfLeUint(data[60..64]);
    LeBytesOfLeUint(data[64..68]);
    LeBytesOfLeUint(data[68..72]);
    SliceSplit(data, 64, 68, 72);
    SliceSplit(data, 60, 64, 72);
    SliceSplit(data, 56, 60, 72);
    SliceSplit(data, 54, 56, 72);
    SlicePair(data, 54);
    SliceSplit(data, 52, 54, 72);
    SliceSplit(data, 50, 52, 72);
    SliceSplit(data, 48, 50, 72);
    SliceSplit(data, 44, 48, 72);
    SliceSplit(data, 40, 44, 72);
    SliceSplit(data, 32, 40, 72);
    SliceSplit(data, 16, 32, 72);
    SliceSplit(data, 0, 16, 72);
    assert data[..FvbHeaderSize] == data[0..72];
  }

  /** The decoded header depends on the first 72 bytes and on nothing after them. */
  lemma FvbHeaderReadsPrefixOnly(a: seq<byte>, b: seq<byte>)
    requires |a| >= FvbHeaderSize && |b| >= FvbHeaderSize
    requires a[..FvbHeaderSize] == b[..FvbHeaderSize]
    ensures DecodeFvbHeader(a) == DecodeFvbHeader(b)
  {
    FvbHeaderCoversPrefix(a);
    FvbHeaderCoversPrefix(b);
    FvbHeaderRoundTrip(DecodeFvbHeader(a).value, []);
    FvbHeaderRoundTrip(DecodeFvbHeader(b).value, []);
    assert EncodeFvbHeader(DecodeFvbHeader(a).value) + [] == EncodeFvbHeader(DecodeFvbHeader(a).value);
    assert EncodeFvbHeader(DecodeFvbHeader(b).value) + [] == EncodeFvbHeader(DecodeFvbHeader(b).value);
  }

  /** The bytes at the start of data form a valid FVB header: decode, then IsValid. */
  predicate IsValidFvbImage(data: seq<byte>) {
    match DecodeFvbHeader(data)
    case Some(h) => h.IsValid()
    case None => false
  }

  /** Validity stated on raw bytes: bytes 0..16 are zero, bytes 16..32 are the system
      NV data GUID, bytes 40..44 spell "_FVH" and byte 55 is revision 2. */
  lemma FvbValidityOnBytes(data: seq<byte>)
    ensures IsValidFvbImage(data) <==>
      && |data| >= FvbHeaderSize
      && (forall i :: 0 <= i < 16 ==> data[i] == 0)
      && data[16..32] == SystemNvDataFvGuid
      && data[40..44] == FvhSignature
      && data[55] == FvhRevision
  {
    if |data| >= FvbHeaderSize {
      var h := DecodeFvbHeader(data).value;
      assert forall i :: 0 <= i < 16 ==> h.zeroVector[i] == data[i];
    }
  }

  /** Only the four checked fields matter: two headers that agree on them are both
      valid or both invalid, whatever their other seven fields hold. */
  lemma FvbValidityIgnoresUncheckedFields(h: FvbHeader, h': FvbHeader)
    requires h.zeroVector == h'.zeroVector && h.guid == h'.guid
    requires h.signature == h'.signature && h.revision == h'.revision
    ensures h.IsValid() <==> h'.IsValid()
  {
  }

  // ---------------------------------------------------------------------------
  // VariableStoreHeader

  datatype VariableStoreHeader = VariableStoreHeader(
    signature: Guid,
    size: u32,
    format: byte,
    state: byte,
    reserved: u16,
    reserved1: u32)
  {
    predicate IsValid() {
      signature == AuthenticatedVariableGuid
    }
  }

  const VariableStoreHeaderFields: seq<Field> := [GuidField, U32, U8, U8, U16, U32]
  const VariableStoreHeaderOffsets: seq<nat> := [0, 16, 20, 21, 22, 24]
  const VariableStoreHeaderSize: nat := 28

  /** `#[repr(C)] VariableStoreHeader`: fields at these offsets, 28 bytes, no padding. */
  lemma VariableStoreHeaderLayout()
    ensures LaidOut(VariableStoreHeaderFields, false, VariableStoreHeaderOffsets)
    ensures LaidOut(VariableStoreHeaderFields, true, VariableStoreHeaderOffsets)
    ensures SizeOf(VariableStoreHeaderFields, false) == VariableStoreHeaderSize
  {
    var fs := VariableStoreHeaderFields;
    var offs := VariableStoreHeaderOffsets;
    assert OffsetOf(fs, 0, false) == 0;
    assert OffsetOf(fs, 1, false) == 16;
    assert OffsetOf(fs, 2, false) == 20;
    assert OffsetOf(fs, 3, false) == 21;
    assert OffsetOf(fs, 4, false) == 22;
    assert OffsetOf(fs, 5, false) == 24;
    assert OffsetsFrom(fs, false, offs, 6);
    assert OffsetsFrom(fs, false, offs, 5);
    assert OffsetsFrom(fs, false, offs, 4);
    assert OffsetsFrom(fs, false, offs, 3);
    assert OffsetsFrom(fs, false, offs, 2);
    assert OffsetsFrom(fs, false, offs, 1);
    assert OffsetsFrom(fs, false, offs, 0);
    assert OffsetOf(fs, 0, true) == 0;
    assert OffsetOf(fs, 1, true) == 16;
    assert OffsetOf(fs, 2, true) == 20;
    assert OffsetOf(fs, 3, true) == 21;
    assert OffsetOf(fs, 4, true) == 22;
    assert OffsetOf(fs, 5, true) == 24;
    assert OffsetsFrom(fs, true, offs, 6);
    assert OffsetsFrom(fs, true, offs, 5);
    assert OffsetsFrom(fs, true, offs, 4);
    assert OffsetsFrom(fs, true, offs, 3);
    assert OffsetsFrom(fs, true, offs, 2);
    assert OffsetsFrom(fs, true, offs, 1);
    assert OffsetsFrom(fs, true, offs, 0);
    assert MaxAlign(fs, 0) == 1;
    assert MaxAlign(fs, 1) == 4;
    assert MaxAlign(fs, 2) == 4;
    assert MaxAlign(fs, 3) == 4;
    assert MaxAlign(fs, 4) == 4;
    assert MaxAlign(fs, 5) == 4;
    assert MaxAlign(fs, 6) == 4;
  }

  function DecodeVariableStoreHeader(data: seq<byte>): (r: Option<VariableStoreHeader>)
    ensures r.Some? <==> |data| >= VariableStoreHeaderSize
  {
    if |data| < VariableStoreHeaderSize then None
    else
      Some(VariableStoreHeader(
        signature := data[0..16],
        size := LeU32(data[16..20]),
        format := data[20],
        state := data[21],
        reserved := LeU16(data[22..24]),
        reserved1 := LeU32(data[24..28])))
  }

  /** The `repr(C)` rule gives VariableStoreHeader's fields exactly the offsets
      VariableStoreHeaderOffsets. */
  lemma VariableStoreHeaderOffsetsUnique(offs: seq<nat>)
    requires LaidOut(VariableStoreHeaderFields, false, offs)
    ensures offs == VariableStoreHeaderOffsets
  {
    VariableStoreHeaderLayout();
    LaidOutUnique(VariableStoreHeaderFields, false, offs, VariableStoreHeaderOffsets);
  }

  /** The decoder reads each field of VariableStoreHeader from the bytes at the field's
      offset in VariableStoreHeaderOffsets. */
  lemma VariableStoreHeaderReadAtLayout(data: seq<byte>)
    requires |data| >= VariableStoreHeaderSize
    ensures var h := DecodeVariableStoreHeader(data).value;
      && h.signature == FieldBytes(data, VariableStoreHeaderFields, VariableStoreHeaderOffsets, 0)
      && h.size == LeU32(FieldBytes(data, VariableStoreHeaderFields, VariableStoreHeaderOffsets, 1))
      && [h.format] == FieldBytes(data, VariableStoreHeaderFields, VariableStoreHeaderOffsets, 2)
      && [h.state] == FieldBytes(data, VariableStoreHeaderFields, VariableStoreHeaderOffsets, 3)
      && h.reserved == LeU16(FieldBytes(data, VariableStoreHeaderFields, VariableStoreHeaderOffsets, 4))
      && VariableStoreHeaderOffsets[5] + VariableStoreHeaderFields[5].size == VariableStoreHeaderSize
      && h.reserved1 == LeU32(FieldBytes(data, VariableStoreHeaderFields, VariableStoreHeaderOffsets, 5))
  {
  }

  function EncodeVariableStoreHeader(h: VariableStoreHeader): (r: seq<byte>)
    ensures |r| == VariableStoreHeaderSize
  {
    Pow256Widths();
    h.signature + (LeBytes(h.size, 4) + ([h.format, h.state] + (LeBytes(h.reserved, 2) + LeBytes(h.reserved1, 4))))
  }

  lemma VariableStoreHeaderRoundTrip(h: VariableStoreHeader, rest: seq<byte>)
    ensures DecodeVariableStoreHeader(EncodeVariableStoreHeader(h) + rest) == Some(h)
  {
    Pow256Widths();
    var e := EncodeVariableStoreHeader(h);
    var d := e + rest;
    var p4 := LeBytes(h.reserved1, 4);
    var p3 := LeBytes(h.reserved, 2) + p4;
    var p2 := [h.format, h.state] + p3;
    var p1 := LeBytes(h.size, 4) + p2;
    var p0 := h.signature + p1;
    assert e == p0;
    HoldsPrefix(e, rest);
    HoldsConcat(d, 0, h.signature, p1);
    HoldsConcat(d, 16, LeBytes(h.size, 4), p2);
    HoldsConcat(d, 20, [h.format, h.state], p3);
    HoldsConcat(d, 22, LeBytes(h.reserved, 2), p4);
    assert d[20] == h.format && d[21] == h.state;
  }

  lemma VariableStoreHeaderCoversPrefix(data: seq<byte>)
    requires |data| >= VariableStoreHeaderSize
    ensures EncodeVariableStoreHeader(DecodeVariableStoreHeader(data).value) == data[..VariableStoreHeaderSize]
  {
    LeBytesOfLeUint(data[16..20]);
    LeBytesOfLeUint(data[22..24]);
    LeBytesOfLeUint(data[24..28]);
    assert data[..VariableStoreHeaderSize] ==
      data[0..16] + (data[16..20] + ([data[20], data[21]] + (data[22..24] + data[24..28])));
  }

  /** A store header is valid exactly when its first 16 bytes are the authenticated
      variable GUID; the other 12 bytes never matter. */
  lemma VariableStoreValidityOnBytes(data: seq<byte>)
    requires |data| >= VariableStoreHeaderSize
    ensures DecodeVariableStoreHeader(data).value.IsValid() <==> data[0..16] == AuthenticatedVariableGuid
  {
  }

  // ---------------------------------------------------------------------------
  // AuthenticatedVariableHeader

  datatype AuthenticatedVariableHeader = AuthenticatedVariableHeader(
    startId: u16,
    state: byte,
    reserved: byte,
    attributes: u32,
    monotonicCount: u64,
    timestamp: Bytes16,
    pubkeyIndex: u32,
    nameSize: u32,
    dataSize: u32,
    vendorGuid: Guid)

  const AuthenticatedVariableHeaderFields: seq<Field> :=
    [U16, U8, U8, U32, U64, Bytes16Field, U32, U32, U32, GuidField]
  const AuthenticatedVariableHeaderOffsets: seq<nat> := [0, 2, 3, 4, 8, 16, 32, 36, 40, 44]
  const AuthenticatedVariableHeaderSize: nat := 60

  /** `#[repr(C, packed)]`: fields back to back, 60 bytes. */
  lemma AuthenticatedVariableHeaderLayout()
    ensures LaidOut(AuthenticatedVariableHeaderFields, true, AuthenticatedVariableHeaderOffsets)
    ensures SizeOf(AuthenticatedVariableHeaderFields, true) == AuthenticatedVariableHeaderSize
  {
    var fs := AuthenticatedVariableHeaderFields;
    var offs := AuthenticatedVariableHeaderOffsets;
    assert OffsetOf(fs, 0, true) == 0;
    assert OffsetOf(fs, 1, true) == 2;
    assert OffsetOf(fs, 2, true) == 3;
    assert OffsetOf(fs, 3, true) == 4;
    assert OffsetOf(fs, 4, true) == 8;
    assert OffsetOf(fs, 5, true) == 16;
    assert OffsetOf(fs, 6, true) == 32;
    assert OffsetOf(fs, 7, true) == 36;
    assert OffsetOf(fs, 8, true) == 40;
    assert OffsetOf(fs, 9, true) == 44;
    assert OffsetsFrom(fs, true, offs, 10);
    assert OffsetsFrom(fs, true, offs, 9);
    assert OffsetsFrom(fs, true, offs, 8);
    assert OffsetsFrom(fs, true, offs, 7);
    assert OffsetsFrom(fs, true, offs, 6);
    assert OffsetsFrom(fs, true, offs, 5);
    assert OffsetsFrom(fs, true, offs, 4);
    assert OffsetsFrom(fs, true, offs, 3);
    assert OffsetsFrom(fs, true, offs, 2);
    assert OffsetsFrom(fs, true, offs, 1);
    assert OffsetsFrom(fs, true, offs, 0);
  }

  /** Without `packed` the fields would sit at the same offsets, but the struct would be
      padded to a multiple of 8 and take 64 bytes. */
  lemma AuthenticatedVariableHeaderUnpacked()
    ensures LaidOut(AuthenticatedVariableHeaderFields, false, AuthenticatedVariableHeaderOffsets)
    ensures SizeOf(AuthenticatedVariableHeaderFields, false) == 64
  {
    var fs := AuthenticatedVariableHeaderFields;
    var offs := AuthenticatedVariableHeaderOffsets;
    assert OffsetOf(fs, 0, false) == 0;
    assert OffsetOf(fs, 1, false) == 2;
    assert OffsetOf(fs, 2, false) == 3;
    assert OffsetOf(fs, 3, false) == 4;
    assert OffsetOf(fs, 4, false) == 8;
    assert OffsetOf(fs, 5, false) == 16;
    assert OffsetOf(fs, 6, false) == 32;
    assert OffsetOf(fs, 7, false) == 36;
    assert OffsetOf(fs, 8, false) == 40;
    assert OffsetOf(fs, 9, false) == 44;
    assert OffsetsFrom(fs, false, offs, 10);
    assert OffsetsFrom(fs, false, offs, 9);
    assert OffsetsFrom(fs, false, offs, 8);
    assert OffsetsFrom(fs, false, offs, 7);
    assert OffsetsFrom(fs, false, offs, 6);
    assert OffsetsFrom(fs, false, offs, 5);
    assert OffsetsFrom(fs, false, offs, 4);
    assert OffsetsFrom(fs, false, offs, 3);
    assert OffsetsFrom(fs, false, offs, 2);
    assert OffsetsFrom(fs, false, offs, 1);
    assert OffsetsFrom(fs, false, offs, 0);
    assert MaxAlign(fs, 0) == 1;
    assert MaxAlign(fs, 1) == 2;
    assert MaxAlign(fs, 2) == 2;
    assert MaxAlign(fs, 3) == 2;
    assert MaxAlign(fs, 4) == 4;
    assert MaxAlign(fs, 5) == 8;
    assert MaxAlign(fs, 6) == 8;
    assert MaxAlign(fs, 7) == 8;
    assert MaxAlign(fs, 8) == 8;
    assert MaxAlign(fs, 9) == 8;
    assert MaxAlign(fs, 10) == 8;
    assert End(fs, false) == 60;
    assert AlignUp(60, 8) == 64;
  }

  function DecodeAuthenticatedVariableHeader(data: seq<byte>): (r: Option<AuthenticatedVariableHeader>)
    ensures r.Some? <==> |data| >= AuthenticatedVariableHeaderSize
  {
    if |data| < AuthenticatedVariableHeaderSize then None
    else
      Some(AuthenticatedVariableHeader(
        startId := LeU16(data[0..2]),
        state := data[2],
        reserved := data[3],
        attributes := LeU32(data[4..8]),
        monotonicCount := LeU64(data[8..16]),
        timestamp := data[16..32],
        pubkeyIndex := LeU32(data[32..36]),
        nameSize := LeU32(data[36..40]),
        dataSize := LeU32(data[40..44]),
        vendorGuid := data[44..60]))
  }

  /** The `repr(C, packed)` rule gives AuthenticatedVariableHeader's fields exactly the offsets
      AuthenticatedVariableHeaderOffsets. */
  lemma AuthenticatedVariableHeaderOffsetsUnique(offs: seq<nat>)
    requires LaidOut(AuthenticatedVariableHeaderFields, true, offs)
    ensures offs == AuthenticatedVariableHeaderOffsets
  {
    AuthenticatedVariableHeaderLayout();
    LaidOutUnique(AuthenticatedVariableHeaderFields, true, offs, AuthenticatedVariableHeaderOffsets);
  }

  /** The decoder reads each field of AuthenticatedVariableHeader from the bytes at
      the field's offset in AuthenticatedVariableHeaderOffsets: the fields up to the
      monotonic count here, the rest in AuthenticatedVariableHeaderTailReadAtLayout. */
  lemma AuthenticatedVariableHeaderReadAtLayout(data: seq<byte>)
    requires |data| >= AuthenticatedVariableHeaderSize
    ensures var h := DecodeAuthenticatedVariableHeader(data).value;
      && h.startId == LeU16(FieldBytes(data, AuthenticatedVariableHeaderFields, AuthenticatedVariableHeaderOffsets, 0))
      && [h.state] == FieldBytes(data, AuthenticatedVariableHeaderFields, AuthenticatedVariableHeaderOffsets, 1)
      && [h.reserved] == FieldBytes(data, AuthenticatedVariableHeaderFields, AuthenticatedVariableHeaderOffsets, 2)
      && h.attributes == LeU32(FieldBytes(data, AuthenticatedVariableHeaderFields, AuthenticatedVariableHeaderOffsets, 3))
      && h.monotonicCount == LeU64(FieldBytes(data, AuthenticatedVariableHeaderFields, AuthenticatedVariableHeaderOffsets, 4))
  {
  }

  /** The same for the AuthenticatedVariableHeader fields from the timestamp on. */
  lemma AuthenticatedVariableHeaderTailReadAtLayout(data: seq<byte>)
    requires |data| >= AuthenticatedVariableHeaderSize
    ensures var h := DecodeAuthenticatedVariableHeader(data).value;
      && h.timestamp == FieldBytes(data, AuthenticatedVariableHeaderFields, AuthenticatedVariableHeaderOffsets, 5)
      && h.pubkeyIndex == LeU32(FieldBytes(data, AuthenticatedVariableHeaderFields, AuthenticatedVariableHeaderOffsets, 6))
      && h.nameSize == LeU32(FieldBytes(data, AuthenticatedVariableHeaderFields, AuthenticatedVariableHeaderOffsets, 7))
      && h.dataSize == LeU32(FieldBytes(data, AuthenticatedVariableHeaderFields, AuthenticatedVariableHeaderOffsets, 8))
      && AuthenticatedVariableHeaderOffsets[9] + AuthenticatedVariableHeaderFields[9].size == AuthenticatedVariableHeaderSize
      && h.vendorGuid == FieldBytes(data, AuthenticatedVariableHeaderFields, AuthenticatedVariableHeaderOffsets, 9)
  {
  }

  function EncodeAuthenticatedVariableHeader(h: AuthenticatedVariableHeader): (r: seq<byte>)
    ensures |r| == AuthenticatedVariableHeaderSize
  {
    Pow256Widths();
    LeBytes(h.startId, 2) + ([h.state, h.reserved] + (LeBytes(h.attributes, 4)
      + (LeBytes(h.monotonicCount, 8) + (h.timestamp + (LeBytes(h.pubkeyIndex, 4)
      + (LeBytes(h.nameSize, 4) + (LeBytes(h.dataSize, 4) + h.vendorGuid)))))))
  }

  lemma AuthenticatedVariableHeaderRoundTrip(h: AuthenticatedVariableHeader, rest: seq<byte>)
    ensures DecodeAuthenticatedVariableHeader(EncodeAuthenticatedVariableHeader(h) + rest) == Some(h)
  {
    Pow256Widths();
    var e := EncodeAuthenticatedVariableHeader(h);
    var d := e + rest;
    var p8 := h.vendorGuid;
    var p7 := LeBytes(h.dataSize, 4) + p8;
    var p6 := LeBytes(h.nameSize, 4) + p7;
    var p5 := LeBytes(h.pubkeyIndex, 4) + p6;
    var p4 := h.timestamp + p5;
    var p3 := LeBytes(h.monotonicCount, 8) + p4;
    var p2 := LeBytes(h.attributes, 4) + p3;
    var p1 := [h.state, h.reserved] + p2;
    var p0 := LeBytes(h.startId, 2) + p1;
    assert e == p0;
    HoldsPrefix(e, rest);
    HoldsConcat(d, 0, LeBytes(h.startId, 2), p1);
    HoldsConcat(d, 2, [h.state, h.reserved], p2);
    HoldsConcat(d, 4, LeBytes(h.attributes, 4), p3);
    HoldsConcat(d, 8, LeBytes(h.monotonicCount, 8), p4);
    HoldsConcat(d, 16, h.timestamp, p5);
    HoldsConcat(d, 32, LeBytes(h.pubkeyIndex, 4), p6);
    HoldsConcat(d, 36, LeBytes(h.nameSize, 4), p7);
    HoldsConcat(d, 40, LeBytes(h.dataSize, 4), p8);
    assert d[2] == h.state && d[3] == h.reserved;
  }

  /** Packed: the 60 bytes are exactly the ten fields with nothing between them. */
  lemma AuthenticatedVariableHeaderCoversPrefix(data: seq<byte>)
    requires |data| >= AuthenticatedVariableHeaderSize
    ensures EncodeAuthenticatedVariableHeader(DecodeAuthenticatedVariableHeader(data).value)
      == data[..AuthenticatedVariableHeaderSize]
  {
    LeBytesOfLeUint(data[0..2]);
    LeBytesOfLeUint(data[4..8]);
    LeBytesOfLeUint(data[8..16]);
    LeBytesOfLeUint(data[32..36]);
    LeBytesOfLeUint(data[36..40]);
    LeBytesOfLeUint(data[40..44]);
    SliceSplit(data, 40, 44, 60);
    SliceSplit(data, 36, 40, 60);
    SliceSplit(data, 32, 36, 60);
    SliceSplit(data, 16, 32, 60);
    SliceSplit(data, 8, 16, 60);
    SliceSplit(data, 4, 8, 60);
    SliceSplit(data, 2, 4, 60);
    SlicePair(data, 2);
    SliceSplit(data, 0, 2, 60);
    assert data[..AuthenticatedVariableHeaderSize] == data[0..60];
  }

  /** The start marker 0x55AA lies in memory as the two bytes AA 55. */
  lemma StartIdOnBytes(data: seq<byte>)
    requires |data| >= AuthenticatedVariableHeaderSize
    ensures DecodeAuthenticatedVariableHeader(data).value.startId == VariableStartId
      <==> data[0] == 0xAA && data[1] == 0x55
  {
    assert data[0..2][1..] == [data[1]];
    assert data[0..2][1..][1..] == [];
    assert LeUint(data[0..2]) == data[0] as int + 256 * data[1] as int;
  }
}
