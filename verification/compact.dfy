/** The "compact" key/value image that SMMSTORE keeps in flash, and the two walkers
    that turn an image into a map from keys to values.

    Both versions are a run of records starting at a fixed cursor. A record starts
    with two little-endian u32 words, the key size k and the value size v, followed
    by the payload. The versions differ only in four numbers, collected in a
    `Framing`:

    - v1 starts at 0. The key is the k bytes after the size words, the value the v
      bytes after the key, and one delimiter byte follows the value.
    - v2 starts at the constant 0x88, which the source's comment attributes to the
      FVB and variable store headers (their structs take only 100 bytes). The key is the
      16-byte vendor GUID plus k bytes. The value is read v bytes from k bytes past
      the size words, so it overlaps the end of the key (see `V2ValueOverlapsKey`).
      No delimiter follows, and 36 more bytes are skipped after each record.

    In both versions the value starts at cursor + 8 + k. The payload ends at
    cursor + 8 + keyPrefix + k + v, which must lie strictly inside the image. The
    next cursor is that end plus the delimiter, rounded up to a multiple of 4, plus
    the skip. A key size of 0 or 0xFFFF_FFFF ends the walk. */
module Compact {
  import opened Bytes

  type Key = seq<byte>
  type Value = seq<byte>
  /** The source's `BTreeMap<&[u8], &[u8]>`, without its key order. */
  type Store = map<Key, Value>

  /** `size_of::<uefi::guid::Guid>()` */
  const GuidSize: nat := 16

  /** What distinguishes the two on-flash versions. */
  datatype Framing = Framing(start: nat, keyPrefix: nat, delimiter: nat, skip: nat)

  const V1: Framing := Framing(0, 0, 1, 0)
  /** 0x88: the FVB header and the variable store header, as the source counts them. */
  const V2: Framing := Framing(0x88, GuidSize, 0, 36)

  /** A key size that marks the end of the used part of the image: 0, or erased flash. */
  predicate IsSentinel(keySize: u32) {
    keySize == 0 || keySize == 0xFFFF_FFFF
  }

  function KeySize(data: seq<byte>, at: nat): u32
    requires at + 8 <= |data|
  {
    U32At(data, at)
  }

  function ValueSize(data: seq<byte>, at: nat): u32
    requires at + 8 <= |data|
  {
    U32At(data, at + 4)
  }

  /** One past the last payload byte of the record at `at`. */
  function PayloadEnd(f: Framing, data: seq<byte>, at: nat): nat
    requires at + 8 <= |data|
  {
    at + 8 + f.keyPrefix + KeySize(data, at) + ValueSize(data, at)
  }

  /** The walker inserts a record at `at`: its size words can be read, its key size
      is not a sentinel, and its payload ends strictly before the end of the image. */
  predicate Fits(f: Framing, data: seq<byte>, at: nat) {
    && at + 8 <= |data|
    && !IsSentinel(KeySize(data, at))
    && PayloadEnd(f, data, at) < |data|
  }

  /** A record as the walker reads it: where it starts, its key and its value. */
  datatype Entry = Entry(at: nat, key: Key, value: Value)

  /** The record that starts at `at`. */
  function EntryAt(f: Framing, data: seq<byte>, at: nat): (e: Entry)
    requires Fits(f, data, at)
    ensures e.at == at
    ensures |e.key| == f.keyPrefix + KeySize(data, at) && |e.value| == ValueSize(data, at)
  {
    var k := KeySize(data, at);
    var v := ValueSize(data, at);
    Entry(at, data[at + 8 .. at + 8 + f.keyPrefix + k], data[at + 8 + k .. at + 8 + k + v])
  }

  /** `e` is the record the walker reads at `e.at`. */
  predicate IsRecord(f: Framing, data: seq<byte>, e: Entry) {
    Fits(f, data, e.at) && e == EntryAt(f, data, e.at)
  }

  /** Where the walker looks for the record after `e`: past the size words, the
      payload and the delimiter, rounded up to a multiple of 4, plus the skip. */
  function After(f: Framing, e: Entry): (next: nat)
    ensures next >= e.at + 8 + |e.key| + |e.value| + f.delimiter + f.skip
  {
    AlignUp(e.at + 8 + |e.key| + |e.value| + f.delimiter, 4) + f.skip
  }

  /** The walker reaches record n + 1 from record n. */
  predicate Follows(f: Framing, es: seq<Entry>, n: nat)
    requires n + 1 < |es|
  {
    es[n + 1].at == After(f, es[n])
  }

  /** The records the walker inserts, in order, when it starts at cursor `at`. */
  function EntriesFrom(f: Framing, data: seq<byte>, at: nat): (es: seq<Entry>)
    ensures es != [] <==> Fits(f, data, at)
    ensures es != [] ==> es[0] == EntryAt(f, data, at)
    decreases |data| - at
  {
    if !Fits(f, data, at) then []
    else [EntryAt(f, data, at)] + EntriesFrom(f, data, After(f, EntryAt(f, data, at)))
  }

  function Entries(f: Framing, data: seq<byte>): seq<Entry> {
    EntriesFrom(f, data, f.start)
  }

  /** Inserts the entries into m in order, so that a later entry overwrites an
      earlier one with the same key. */
  function InsertAll(m: Store, es: seq<Entry>): Store
    decreases |es|
  {
    if es == [] then m else InsertAll(m[es[0].key := es[0].value], es[1..])
  }

  /** The map the walker builds from an image. */
  function Decode(f: Framing, data: seq<byte>): Store {
    InsertAll(map[], Entries(f, data))
  }

  /** `main`'s choice: the v1 map, unless it is empty, in which case the v2 map. */
  function Select(data: seq<byte>): (r: Store)
    ensures Fits(V1, data, 0) ==> r == Decode(V1, data) && r != map[]
    ensures !Fits(V1, data, 0) ==> r == Decode(V2, data)
  {
    var v1 := Decode(V1, data);
    DecodeEmpty(V1, data);
    if v1 == map[] then Decode(V2, data) else v1
  }

  /** One turn of the body of `deserialize_v1` / `deserialize_v2` at cursor i: read
      the two size words, step past them, stop at a sentinel or at a record that does
      not fit, otherwise slice out the key and the value and move the cursor past
      the payload (and delimiter), round it up to a multiple of 4 and add the skip. */
  method ReadAt(f: Framing, data: seq<byte>, i: nat) returns (stop: bool, key: Key, value: Value, next: nat)
    requires i + 8 <= |data|
    ensures stop <==> !Fits(f, data, i)
    ensures !stop ==> Entry(i, key, value) == EntryAt(f, data, i) && next == After(f, EntryAt(f, data, i))
  {
    var keySize := U32At(data, i);
    var valueSize := U32At(data, i + 4);
    var j := i + 8;
    if keySize == 0 || keySize == 0xFFFF_FFFF {
      return true, [], [], j;
    }
    if j + f.keyPrefix + keySize + valueSize >= |data| {
      return true, [], [], j;
    }
    key := data[j .. j + f.keyPrefix + keySize];
    value := data[j + keySize .. j + keySize + valueSize];
    next := j + f.keyPrefix + keySize + valueSize + f.delimiter;
    next := AlignUp(next, 4);
    next := next + f.skip;
    stop := false;
  }

  /** `deserialize_v1` / `deserialize_v2`: walk the image from the framing's start,
      inserting every record read, until the size words no longer fit or ReadAt
      stops. */
  method Deserialize(f: Framing, data: seq<byte>) returns (compact: Store)
    ensures compact == Decode(f, data)
  {
    compact := map[];
    var i := f.start;
    ghost var rest := Entries(f, data);
    while i + 8 <= |data|
      invariant rest == EntriesFrom(f, data, i)
      invariant InsertAll(compact, rest) == Decode(f, data)
      decreases |data| - i
    {
      var stop, key, value, next := ReadAt(f, data, i);
      if stop {
        assert rest == [];
        break;
      }
      WalkStep(f, data, i);
      InsertFirst(compact, rest);
      compact := compact[key := value];
      i := next;
      rest := rest[1..];
    }
    assert rest == [];
  }

  /** Inserting a run of entries is inserting the first, then the others. */
  lemma InsertFirst(m: Store, es: seq<Entry>)
    requires es != []
    ensures InsertAll(m, es) == InsertAll(m[es[0].key := es[0].value], es[1..])
  {
  }

  /** `main` reading an image: v1 first, v2 when v1 found nothing. */
  method Load(data: seq<byte>) returns (compact: Store)
    ensures Fits(V1, data, 0) ==> compact == Decode(V1, data) && compact != map[]
    ensures !Fits(V1, data, 0) ==> compact == Decode(V2, data)
  {
    compact := Deserialize(V1, data);
    if compact == map[] {
      compact := Deserialize(V2, data);
    }
    DecodeEmpty(V1, data);
  }

  // ---------------------------------------------------------------------------
  // What the map holds

  /** The keys of the fold are the keys already there plus the keys inserted. */
  lemma {:induction false} InsertAllKeys(m: Store, es: seq<Entry>)
    ensures InsertAll(m, es).Keys == m.Keys + set e | e in es :: e.key
    decreases |es|
  {
    if es != [] {
      InsertAllKeys(m[es[0].key := es[0].value], es[1..]);
      assert forall e :: e in es <==> e == es[0] || e in es[1..];
    }
  }

  /** An entry no later entry overwrites is what the fold maps its key to. */
  lemma {:induction false} InsertAllLastWins(m: Store, es: seq<Entry>, n: nat)
    requires n < |es|
    requires forall p :: n < p < |es| ==> es[p].key != es[n].key
    ensures es[n].key in InsertAll(m, es) && InsertAll(m, es)[es[n].key] == es[n].value
    decreases |es|
  {
    var m' := m[es[0].key := es[0].value];
    if n == 0 {
      InsertAllUntouched(m', es[1..], es[0].key);
    } else {
      InsertAllLastWins(m', es[1..], n - 1);
    }
  }

  /** A key that no entry carries keeps the value it had before the fold. */
  lemma {:induction false} InsertAllUntouched(m: Store, es: seq<Entry>, k: Key)
    requires k in m
    requires forall p :: 0 <= p < |es| ==> es[p].key != k
    ensures k in InsertAll(m, es) && InsertAll(m, es)[k] == m[k]
    decreases |es|
  {
    if es != [] {
      InsertAllUntouched(m[es[0].key := es[0].value], es[1..], k);
    }
  }

  /** The decoded map has exactly the keys of the inserted records, and under each
      the value of the last record with that key. */
  lemma DecodeContents(f: Framing, data: seq<byte>)
    ensures Decode(f, data).Keys == set e | e in Entries(f, data) :: e.key
    ensures forall n :: 0 <= n < |Entries(f, data)| && LastWithKey(Entries(f, data), n) ==>
      Decode(f, data)[Entries(f, data)[n].key] == Entries(f, data)[n].value
  {
    var es := Entries(f, data);
    InsertAllKeys(map[], es);
    forall n | 0 <= n < |es| && LastWithKey(es, n)
      ensures Decode(f, data)[es[n].key] == es[n].value
    {
      InsertAllLastWins(map[], es, n);
    }
  }

  /** No entry after the n-th one has its key. */
  predicate LastWithKey(es: seq<Entry>, n: nat)
    requires n < |es|
  {
    forall p :: n < p < |es| ==> es[p].key != es[n].key
  }

  /** The decoded map is empty exactly when the first record does not fit. */
  lemma DecodeEmpty(f: Framing, data: seq<byte>)
    ensures Decode(f, data) == map[] <==> !Fits(f, data, f.start)
  {
    var es := Entries(f, data);
    InsertAllKeys(map[], es);
    if es != [] {
      assert es[0].key in Decode(f, data);
    }
  }

  // ---------------------------------------------------------------------------
  // Where the walk stops and where records lie

  /** One step of the walk: the record at the cursor, then the walk from the cursor
      after it. */
  lemma WalkStep(f: Framing, data: seq<byte>, at: nat)
    requires Fits(f, data, at)
    ensures EntriesFrom(f, data, at) == [EntryAt(f, data, at)] + EntriesFrom(f, data, After(f, EntryAt(f, data, at)))
  {
  }

  /** A sentinel key size ends the walk, whatever follows it. */
  lemma SentinelEndsWalk(f: Framing, data: seq<byte>, at: nat)
    requires at + 8 <= |data| && IsSentinel(KeySize(data, at))
    ensures EntriesFrom(f, data, at) == []
  {
  }

  /** A record whose payload reaches the end of the image is not inserted, and
      ends the walk. */
  lemma ShortRecordEndsWalk(f: Framing, data: seq<byte>, at: nat)
    requires at + 8 <= |data| && PayloadEnd(f, data, at) >= |data|
    ensures EntriesFrom(f, data, at) == []
  {
  }

  /** Every record of the walk is the record the walker reads at its own cursor,
      and lies at or after the cursor the walk started from. */
  lemma {:induction false} WalkRecords(f: Framing, data: seq<byte>, at: nat)
    ensures var es := EntriesFrom(f, data, at);
      forall n :: 0 <= n < |es| ==> at <= es[n].at && IsRecord(f, data, es[n])
    decreases |data| - at
  {
    var es := EntriesFrom(f, data, at);
    if es != [] {
      var next := After(f, es[0]);
      WalkStep(f, data, at);
      WalkRecords(f, data, next);
      assert forall n :: 0 < n < |es| ==> es[n] == EntriesFrom(f, data, next)[n - 1];
    }
  }

  /** Each record after the first sits exactly where the one before it sends the
      cursor. */
  lemma {:induction false} WalkChain(f: Framing, data: seq<byte>, at: nat)
    ensures forall n :: 0 <= n < |EntriesFrom(f, data, at)| - 1 ==> Follows(f, EntriesFrom(f, data, at), n)
    decreases |data| - at
  {
    var es := EntriesFrom(f, data, at);
    if es != [] {
      var next := After(f, es[0]);
      var rest := EntriesFrom(f, data, next);
      WalkStep(f, data, at);
      WalkChain(f, data, next);
      forall n | 0 <= n < |es| - 1
        ensures Follows(f, es, n)
      {
        if n > 0 {
          assert Follows(f, rest, n - 1);
        } else {
          assert es[1] == rest[0];
        }
      }
    }
  }

  /** The walk ends exactly where the cursor past the last inserted record does not
      fit: every loop exit comes from a failed check, never from running out of
      records to look at. */
  lemma {:induction false} WalkEndsAfterLast(f: Framing, data: seq<byte>, at: nat)
    requires EntriesFrom(f, data, at) != []
    ensures var es := EntriesFrom(f, data, at);
      !Fits(f, data, After(f, es[|es| - 1]))
    decreases |data| - at
  {
    var es := EntriesFrom(f, data, at);
    var next := After(f, es[0]);
    var rest := EntriesFrom(f, data, next);
    WalkStep(f, data, at);
    assert es[1..] == rest;
    if rest != [] {
      WalkEndsAfterLast(f, data, next);
      assert es[|es| - 1] == rest[|rest| - 1];
    }
  }

  /** Cursors start aligned to 4 and stay aligned, when the skip is. */
  lemma {:induction false} CursorsAligned(f: Framing, data: seq<byte>, at: nat)
    requires at % 4 == 0 && f.skip % 4 == 0
    ensures forall n :: 0 <= n < |EntriesFrom(f, data, at)| ==> EntriesFrom(f, data, at)[n].at % 4 == 0
    decreases |data| - at
  {
    if Fits(f, data, at) {
      var next := After(f, EntryAt(f, data, at));
      CursorsAligned(f, data, next);
      WalkStep(f, data, at);
      var es := EntriesFrom(f, data, at);
      assert es[1..] == EntriesFrom(f, data, next);
    }
  }

  /** Every record either version inserts starts at a multiple of 4, and each
      starts past the previous record's payload (and, in v1, its delimiter). */
  lemma WalkOrder(f: Framing, data: seq<byte>)
    requires f == V1 || f == V2
    ensures var es := Entries(f, data);
      forall n :: 0 <= n < |es| ==> es[n].at % 4 == 0
    ensures var es := Entries(f, data);
      forall n :: 0 <= n < |es| - 1 ==>
        es[n].at + 8 + |es[n].key| + |es[n].value| + f.delimiter + f.skip <= es[n + 1].at
  {
    CursorsAligned(f, data, f.start);
    WalkChain(f, data, f.start);
    var es := EntriesFrom(f, data, f.start);
    assert es == Entries(f, data);
    forall n | 0 <= n < |es| - 1
      ensures es[n].at + 8 + |es[n].key| + |es[n].value| + f.delimiter + f.skip <= es[n + 1].at
    {
      assert Follows(f, es, n);
    }
  }

  /** Appending bytes to an image keeps every record the walker found: the records
      of the shorter image are the first records of the longer one. */
  lemma {:induction false} ExtendingKeepsEntries(f: Framing, data: seq<byte>, tail: seq<byte>, at: nat)
    ensures EntriesFrom(f, data, at) <= EntriesFrom(f, data + tail, at)
    decreases |data| - at
  {
    var long := data + tail;
    if Fits(f, data, at) {
      assert long[at .. at + 4] == data[at .. at + 4];
      assert long[at + 4 .. at + 8] == data[at + 4 .. at + 8];
      assert Fits(f, long, at);
      var e := EntryAt(f, data, at);
      assert EntryAt(f, long, at) == e by {
        assert long[at + 8 .. at + 8 + |e.key|] == e.key;
        assert long[at + 8 + KeySize(data, at) .. at + 8 + KeySize(data, at) + |e.value|] == e.value;
      }
      var next := After(f, e);
      WalkStep(f, data, at);
      WalkStep(f, long, at);
      ExtendingKeepsEntries(f, data, tail, next);
    }
  }

  /** An image too short for one v2 record past the headers decodes to nothing under
      v2: below 0x90 bytes the size words cannot even be read, and the smallest record
      (a one-byte key, an empty value) needs 0xA2 bytes. */
  lemma V2ShortImageIsEmpty(data: seq<byte>)
    requires |data| < 0xA2
    ensures Decode(V2, data) == map[]
  {
    DecodeEmpty(V2, data);
  }

  /** In v2 the value is read from k bytes past the size words, inside the key: its
      first bytes are the last bytes of the key, up to 16 of them. */
  lemma V2ValueOverlapsKey(data: seq<byte>, e: Entry)
    requires IsRecord(V2, data, e)
    ensures |e.key| >= GuidSize
    ensures var k := |e.key| - GuidSize;
      var shared := if |e.value| < GuidSize then |e.value| else GuidSize;
      e.value[..shared] == e.key[k .. k + shared]
  {
    var at := e.at;
    var k := KeySize(data, at);
    var v := ValueSize(data, at);
    assert e.key == data[at + 8 .. at + 24 + k];
    assert e.value == data[at + 8 + k .. at + 8 + k + v];
    SlicesOverlap(data, at + 8, k, v);
  }

  /** A v2 key is a GUID followed by a non-empty name: the key size word is never 0
      where a record is read. */
  lemma V2KeysLong(data: seq<byte>)
    ensures forall k :: k in Decode(V2, data) ==> |k| > GuidSize
  {
    var es := EntriesFrom(V2, data, V2.start);
    assert es == Entries(V2, data);
    DecodeContents(V2, data);
    forall k | k in Decode(V2, data)
      ensures |k| > GuidSize
    {
      var n :| 0 <= n < |es| && es[n].key == k;
      V2EntryKeyLong(data, V2.start, n);
    }
  }

  lemma V2EntryKeyLong(data: seq<byte>, at: nat, n: nat)
    requires n < |EntriesFrom(V2, data, at)|
    ensures |EntriesFrom(V2, data, at)[n].key| > GuidSize
  {
    WalkRecords(V2, data, at);
    var e := EntriesFrom(V2, data, at)[n];
    assert Fits(V2, data, e.at) && e == EntryAt(V2, data, e.at);
  }

  /** Two slices of one sequence that start k apart agree where they overlap. */
  lemma SlicesOverlap(data: seq<byte>, j: nat, k: nat, v: nat)
    requires j + GuidSize + k + v <= |data|
    ensures var shared := if v < GuidSize then v else GuidSize;
      data[j + k .. j + k + v][..shared] == data[j .. j + GuidSize + k][k .. k + shared]
  {
    var shared := if v < GuidSize then v else GuidSize;
    assert data[j + k .. j + k + v][..shared] == data[j + k .. j + k + shared];
    var key := data[j .. j + GuidSize + k];
    assert k + shared <= |key|;
    var piece := key[k .. k + shared];
    assert forall i :: 0 <= i < shared ==> piece[i] == data[j + k + i];
    assert piece == data[j + k .. j + k + shared];
  }

  /** In v1 the key and the value lie back to back right after the size words, and
      the delimiter byte after them is inside the image. */
  lemma V1RecordLayout(data: seq<byte>, e: Entry)
    requires IsRecord(V1, data, e)
    ensures e.at + 8 + |e.key| + |e.value| < |data|
    ensures data[e.at + 8 .. e.at + 8 + |e.key| + |e.value|] == e.key + e.value
  {
    var at := e.at;
    var k := KeySize(data, at);
    var v := ValueSize(data, at);
    assert e.key == data[at + 8 .. at + 8 + k];
    assert e.value == data[at + 8 + k .. at + 8 + k + v];
    assert data[at + 8 .. at + 8 + k + v] == data[at + 8 .. at + 8 + k] + data[at + 8 + k .. at + 8 + k + v];
  }

  /** A one-record v1 image: "ABCD" -> AA BB, with its delimiter and padding, then
      an erased word that ends the walk. */
  const ExampleImage: seq<byte> :=
    [4, 0, 0, 0, 2, 0, 0, 0, 0x41, 0x42, 0x43, 0x44, 0xAA, 0xBB, 0, 0,
     0xFF, 0xFF, 0xFF, 0xFF, 0xFF, 0xFF, 0xFF, 0xFF]

  lemma ExampleImageDecodes()
    ensures Decode(V1, ExampleImage) == map[[0x41, 0x42, 0x43, 0x44] := [0xAA, 0xBB]]
    ensures Select(ExampleImage) == Decode(V1, ExampleImage)
  {
    var data := ExampleImage;
    var e := ExampleRecord();
    assert After(V1, e) == 16;
    assert KeySize(data, 16) == 0xFFFF_FFFF;
    SentinelEndsWalk(V1, data, 16);
    WalkStep(V1, data, 0);
    assert Entries(V1, data) == [e];
  }

  lemma ExampleRecord() returns (e: Entry)
    ensures Fits(V1, ExampleImage, 0)
    ensures e == EntryAt(V1, ExampleImage, 0) == Entry(0, [0x41, 0x42, 0x43, 0x44], [0xAA, 0xBB])
  {
    var data := ExampleImage;
    assert data[0] == 4 && data[1] == 0 && data[2] == 0 && data[3] == 0;
    assert data[4] == 2 && data[5] == 0 && data[6] == 0 && data[7] == 0;
    assert KeySize(data, 0) == 4 && ValueSize(data, 0) == 2;
    e := EntryAt(V1, data, 0);
    var key := data[8..12];
    assert key[0] == 0x41 && key[1] == 0x42 && key[2] == 0x43 && key[3] == 0x44;
    assert key == [0x41, 0x42, 0x43, 0x44];
    var value := data[12..14];
    assert value[0] == 0xAA && value[1] == 0xBB;
    assert value == [0xAA, 0xBB];
    assert e == Entry(0, key, value);
  }
}
