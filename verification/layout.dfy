/** Rust's rule for placing the fields of a `#[repr(C)]` or `#[repr(C, packed)]`
    struct: fields in declaration order, each at the first offset after the previous
    field that is a multiple of its alignment (packed: right after it, no padding),
    and the whole struct padded to a multiple of its largest alignment (packed: not
    padded). */
module Layout {
  import opened Bytes

  /** Alignments of the field types used here: powers of two up to 8. */
  type Alignment = a: nat | a == 1 || a == 2 || a == 4 || a == 8 witness 1

  /** One field: its size and its alignment in bytes. */
  datatype Field = Field(size: nat, align: Alignment)

  /** Where a field goes when the previous one ends at `at`. */
  function Place(at: nat, f: Field, packed: bool): nat
  {
    if packed then at else (at + f.align - 1) / f.align * f.align
  }

  /** Unpacked, a field lands on the first multiple of its alignment at or after `at`;
      packed, exactly at `at`. */
  lemma PlaceAligned(at: nat, f: Field, packed: bool)
    ensures packed ==> Place(at, f, packed) == at
    ensures !packed ==> Place(at, f, packed) == AlignUp(at, f.align)
  {
  }

  /** The offset of field k. */
  function OffsetOf(fields: seq<Field>, k: nat, packed: bool): nat
    requires k < |fields|
  {
    Place(if k == 0 then 0 else OffsetOf(fields, k - 1, packed) + fields[k - 1].size, fields[k], packed)
  }

  /** Fields k and later start at offsets[k] and later. */
  predicate OffsetsFrom(fields: seq<Field>, packed: bool, offsets: seq<nat>, k: nat)
    requires |offsets| == |fields| && k <= |fields|
    decreases |fields| - k
  {
    k == |fields| || (OffsetOf(fields, k, packed) == offsets[k] && OffsetsFrom(fields, packed, offsets, k + 1))
  }

  /** Field i starts at offsets[i], for every i. */
  predicate LaidOut(fields: seq<Field>, packed: bool, offsets: seq<nat>) {
    |offsets| == |fields| && OffsetsFrom(fields, packed, offsets, 0)
  }

  /** Laid out from field i on, field k (at or after i) starts at offsets[k]. */
  lemma {:induction false} OffsetsFromAt(fields: seq<Field>, packed: bool, offsets: seq<nat>, i: nat, k: nat)
    requires |offsets| == |fields| && i <= k < |fields|
    requires OffsetsFrom(fields, packed, offsets, i)
    ensures OffsetOf(fields, k, packed) == offsets[k]
    decreases k - i
  {
    if i < k {
      OffsetsFromAt(fields, packed, offsets, i + 1, k);
    }
  }

  /** The layout rule fixes the offsets: two laid-out offset lists are the same. */
  lemma LaidOutUnique(fields: seq<Field>, packed: bool, a: seq<nat>, b: seq<nat>)
    requires LaidOut(fields, packed, a) && LaidOut(fields, packed, b)
    ensures a == b
  {
    forall k | 0 <= k < |fields|
      ensures a[k] == b[k]
    {
      OffsetsFromAt(fields, packed, a, 0, k);
      OffsetsFromAt(fields, packed, b, 0, k);
    }
  }

  /** The largest alignment among the first k fields (1 if there are none). */
  function MaxAlign(fields: seq<Field>, k: nat): (r: Alignment)
    requires k <= |fields|
    ensures forall i :: 0 <= i < k ==> fields[i].align <= r
  {
    if k == 0 then 1
    else
      var m := MaxAlign(fields, k - 1);
      if fields[k - 1].align < m then m else fields[k - 1].align
  }

  /** The first byte past the last field. */
  function End(fields: seq<Field>, packed: bool): (r: nat)
  {
    if fields == [] then 0 else OffsetOf(fields, |fields| - 1, packed) + fields[|fields| - 1].size
  }

  /** `size_of` the struct: its end, rounded up to its alignment unless packed. */
  function SizeOf(fields: seq<Field>, packed: bool): nat
  {
    if packed then End(fields, true) else Place(End(fields, false), Field(0, MaxAlign(fields, |fields|)), false)
  }

  /** Fields never overlap: each starts at or after the end of the one before, on a
      multiple of its alignment unless packed; the struct's size covers its last field. */
  lemma OffsetsAreOrdered(fields: seq<Field>, k: nat, packed: bool)
    requires 0 < k < |fields|
    ensures OffsetOf(fields, k - 1, packed) + fields[k - 1].size <= OffsetOf(fields, k, packed)
    ensures !packed ==> OffsetOf(fields, k, packed) % fields[k].align == 0
    ensures End(fields, packed) <= SizeOf(fields, packed)
  {
    PlaceAligned(OffsetOf(fields, k - 1, packed) + fields[k - 1].size, fields[k], packed);
    PlaceAligned(End(fields, packed), Field(0, MaxAlign(fields, |fields|)), packed);
  }

  const U8: Field := Field(1, 1)
  const U16: Field := Field(2, 2)
  const U32: Field := Field(4, 4)
  const U64: Field := Field(8, 8)
  /** `uefi::guid::Guid(u32, u16, u16, [u8; 8])`: 16 bytes, aligned like its u32. */
  const GuidField: Field := Field(16, 4)
  const Bytes16Field: Field := Field(16, 1)
  const Bytes4Field: Field := Field(4, 1)
  /** `[(u32, u32); 2]` */
  const BlockMapField: Field := Field(16, 4)
}
