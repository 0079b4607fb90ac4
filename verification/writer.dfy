/** Writing a v1 image: each record is its key size and value size as little-endian
    u32 words, the key, the value, one zero delimiter byte, and zero padding up to a
    multiple of 4. This is the layout the v1 walker expects; the lemmas below show
    that walking a written image gives back the records written, in order. */
module CompactWriter {
  import opened Bytes
  import opened Compact

  datatype Record = Record(key: Key, value: Value)

  /** A record v1 can carry: a key size that is not a sentinel, and sizes that fit
      in a u32. */
  predicate Encodable(r: Record) {
    0 < |r.key| < 0xFFFF_FFFF && |r.value| < 0x1_0000_0000
  }

  function Zeros(n: nat): (z: seq<byte>)
    ensures |z| == n
  {
    if n == 0 then [] else [0] + Zeros(n - 1)
  }

  /** The bytes after the payload: the delimiter and the padding. */
  function Trailer(r: Record): (t: seq<byte>)
    ensures |t| >= 1
    ensures (8 + |r.key| + |r.value| + |t|) % 4 == 0
  {
    var used := 8 + |r.key| + |r.value|;
    [0] + Zeros(AlignUp(used + 1, 4) - used - 1)
  }

  /** The bytes one record takes: size words, payload and delimiter, rounded up to
      a multiple of 4. */
  function RecordSize(r: Record): (n: nat)
    ensures n % 4 == 0 && n >= 9 + |r.key| + |r.value|
  {
    AlignUp(9 + |r.key| + |r.value|, 4)
  }

  function EncodeRecord(r: Record): (b: seq<byte>)
    requires Encodable(r)
    ensures |b| == RecordSize(r)
  {
    U32Bytes(|r.key|) + (U32Bytes(|r.value|) + (r.key + (r.value + Trailer(r))))
  }

  /** The bytes a run of records takes. */
  function TotalSize(rs: seq<Record>): (n: nat)
    ensures n % 4 == 0
  {
    if rs == [] then 0
    else
      var rest := TotalSize(rs[1..]);
      AlignedSum(RecordSize(rs[0]), rest);
      RecordSize(rs[0]) + rest
  }

  function EncodeV1(rs: seq<Record>): (b: seq<byte>)
    requires forall n :: 0 <= n < |rs| ==> Encodable(rs[n])
    ensures |b| == TotalSize(rs)
  {
    if rs == [] then [] else EncodeRecord(rs[0]) + EncodeV1(rs[1..])
  }

  lemma AlignedSum(a: nat, b: nat)
    requires a % 4 == 0 && b % 4 == 0
    ensures (a + b) % 4 == 0
  {
  }

  /** The key and value of each entry, without where it was found. */
  function RecordsOf(es: seq<Entry>): (rs: seq<Record>)
    ensures |rs| == |es|
  {
    if es == [] then [] else [Record(es[0].key, es[0].value)] + RecordsOf(es[1..])
  }

  /** Record n is the key and value of entry n. */
  lemma {:induction false} RecordsOfAt(es: seq<Entry>, n: nat)
    requires n < |es|
    ensures RecordsOf(es)[n] == Record(es[n].key, es[n].value)
  {
    if n > 0 {
      RecordsOfAt(es[1..], n - 1);
    }
  }

  /** Where each part of a written record lies. */
  lemma RecordParts(data: seq<byte>, j: nat, r: Record)
    requires Encodable(r) && HoldsAt(data, j, EncodeRecord(r))
    ensures HoldsAt(data, j, U32Bytes(|r.key|)) && HoldsAt(data, j + 4, U32Bytes(|r.value|))
    ensures HoldsAt(data, j + 8, r.key) && HoldsAt(data, j + 8 + |r.key|, r.value)
    ensures HoldsAt(data, j + 8 + |r.key| + |r.value|, Trailer(r))
  {
    var payload := r.key + (r.value + Trailer(r));
    HoldsConcat(data, j, U32Bytes(|r.key|), U32Bytes(|r.value|) + payload);
    HoldsConcat(data, j + 4, U32Bytes(|r.value|), payload);
    HoldsConcat(data, j + 8, r.key, r.value + Trailer(r));
    HoldsConcat(data, j + 8 + |r.key|, r.value, Trailer(r));
  }

  /** The size words of a written record read back as its key and value sizes. */
  lemma ReadSizes(data: seq<byte>, j: nat, r: Record)
    requires Encodable(r) && HoldsAt(data, j, EncodeRecord(r))
    ensures j + 8 <= |data|
    ensures KeySize(data, j) == |r.key| && ValueSize(data, j) == |r.value|
  {
    RecordParts(data, j, r);
    U32AtOfBytes(data, j, |r.key|);
    U32AtOfBytes(data, j + 4, |r.value|);
  }

  /** The key and the value of a written record lie where the walker slices them,
      and the delimiter keeps the payload strictly inside the data. */
  lemma ReadPayload(data: seq<byte>, j: nat, r: Record)
    requires Encodable(r) && HoldsAt(data, j, EncodeRecord(r))
    ensures j + 8 + |r.key| + |r.value| < |data|
    ensures data[j + 8 .. j + 8 + |r.key|] == r.key
    ensures data[j + 8 + |r.key| .. j + 8 + |r.key| + |r.value|] == r.value
  {
    RecordParts(data, j, r);
  }

  /** The walker, at cursor j, reads record r. */
  predicate ReadsBack(data: seq<byte>, j: nat, r: Record) {
    Fits(V1, data, j) && EntryAt(V1, data, j) == Entry(j, r.key, r.value)
  }

  /** The walker reads a written record back where it was written. */
  lemma ReadRecord(data: seq<byte>, j: nat, r: Record)
    requires Encodable(r) && HoldsAt(data, j, EncodeRecord(r))
    ensures ReadsBack(data, j, r)
  {
    ReadSizes(data, j, r);
    ReadPayload(data, j, r);
  }

  /** From cursor j on, the walker reads the records rs back one after another,
      each RecordSize bytes after the one before. */
  predicate ReadsBackAll(data: seq<byte>, j: nat, rs: seq<Record>)
    decreases |rs|
  {
    rs == [] || (ReadsBack(data, j, rs[0]) && ReadsBackAll(data, j + RecordSize(rs[0]), rs[1..]))
  }

  /** From cursor j on, data holds the encodings of the records rs, one after
      another. */
  predicate Written(data: seq<byte>, j: nat, rs: seq<Record>)
    decreases |rs|
  {
    rs == [] || (Encodable(rs[0]) && HoldsAt(data, j, EncodeRecord(rs[0])) && Written(data, j + RecordSize(rs[0]), rs[1..]))
  }

  /** Holding the encoding of a run of records is holding each record's encoding
      in turn. */
  lemma {:induction false} ImageWritten(data: seq<byte>, j: nat, rs: seq<Record>)
    requires forall n :: 0 <= n < |rs| ==> Encodable(rs[n])
    requires HoldsAt(data, j, EncodeV1(rs))
    ensures Written(data, j, rs)
    decreases |rs|
  {
    if rs != [] {
      HoldsConcat(data, j, EncodeRecord(rs[0]), EncodeV1(rs[1..]));
      ImageWritten(data, j + RecordSize(rs[0]), rs[1..]);
    }
  }

  /** Written records are read back, one after another. */
  lemma {:induction false} ReadWritten(data: seq<byte>, j: nat, rs: seq<Record>)
    requires Written(data, j, rs)
    ensures ReadsBackAll(data, j, rs)
    decreases |rs|
  {
    if rs != [] {
      ReadRecord(data, j, rs[0]);
      ReadWritten(data, j + RecordSize(rs[0]), rs[1..]);
    }
  }

  /** A record read back at an aligned cursor is one step of the walk, and the next
      step starts RecordSize bytes later. */
  lemma ReadOne(data: seq<byte>, j: nat, r: Record)
    requires j % 4 == 0 && ReadsBack(data, j, r)
    ensures EntriesFrom(V1, data, j) == [Entry(j, r.key, r.value)] + EntriesFrom(V1, data, j + RecordSize(r))
  {
    var e := EntryAt(V1, data, j);
    assert e == Entry(j, r.key, r.value);
    assert After(V1, e) == j + RecordSize(r) by {
      assert |e.key| + |e.value| == |r.key| + |r.value|;
      AlignUpShift(j, 9 + |r.key| + |r.value|);
    }
    WalkStep(V1, data, j);
  }

  /** Walking from the start of a run of records read back gives those records, then
      goes on with whatever follows them. */
  lemma {:induction false} ReadRecords(data: seq<byte>, j: nat, rs: seq<Record>, end: nat)
    requires j % 4 == 0 && ReadsBackAll(data, j, rs) && end == j + TotalSize(rs)
    ensures RecordsOf(EntriesFrom(V1, data, j)) == rs + RecordsOf(EntriesFrom(V1, data, end))
    decreases |rs|
  {
    if rs != [] {
      var r := rs[0];
      var next := j + RecordSize(r);
      ReadOne(data, j, r);
      AlignedSum(j, RecordSize(r));
      ReadRecords(data, next, rs[1..], end);
      ConsRecords(Entry(j, r.key, r.value), EntriesFrom(V1, data, next), rs, RecordsOf(EntriesFrom(V1, data, end)));
    } else {
      var all := RecordsOf(EntriesFrom(V1, data, j));
      assert rs + all == all;
    }
  }

  lemma ConsRecords(e: Entry, rest: seq<Entry>, rs: seq<Record>, after: seq<Record>)
    requires rs != [] && rs[0] == Record(e.key, e.value)
    requires RecordsOf(rest) == rs[1..] + after
    ensures RecordsOf([e] + rest) == rs + after
  {
    assert ([e] + rest)[1..] == rest;
    assert [rs[0]] + (rs[1..] + after) == rs + after;
  }

  /** The end of the used part of an image: too few bytes for size words, or a
      sentinel key size (0, as in zeroed flash, or FF FF FF FF, as in erased flash). */
  predicate Unused(tail: seq<byte>) {
    |tail| < 8 || IsSentinel(U32At(tail, 0))
  }

  /** The walk stops where the data runs out of room for size words, or at a
      sentinel key size. */
  lemma UnusedEndsWalk(data: seq<byte>, end: nat)
    requires end <= |data|
    requires |data| < end + 8 || IsSentinel(KeySize(data, end))
    ensures EntriesFrom(V1, data, end) == []
  {
    if end + 8 <= |data| {
      SentinelEndsWalk(V1, data, end);
    }
  }

  /** An image of written records followed by `tail` is read back record by record,
      and the walk stops where `tail` starts if `tail` is unused. */
  lemma WrittenImage(rs: seq<Record>, tail: seq<byte>)
    requires forall n :: 0 <= n < |rs| ==> Encodable(rs[n])
    requires Unused(tail)
    ensures ReadsBackAll(EncodeV1(rs) + tail, 0, rs)
    ensures EntriesFrom(V1, EncodeV1(rs) + tail, TotalSize(rs)) == []
  {
    var image := EncodeV1(rs);
    HoldsPrefix(image, tail);
    ImageWritten(image + tail, 0, rs);
    ReadWritten(image + tail, 0, rs);
    UnusedAfter(image, tail);
  }

  /** The walk stops where an unused `tail` starts. */
  lemma UnusedAfter(image: seq<byte>, tail: seq<byte>)
    requires Unused(tail)
    ensures EntriesFrom(V1, image + tail, |image|) == []
  {
    var data := image + tail;
    if |tail| >= 8 {
      assert data[|image|] == tail[0] && data[|image| + 1] == tail[1];
      assert data[|image| + 2] == tail[2] && data[|image| + 3] == tail[3];
    }
    UnusedEndsWalk(data, |image|);
  }

  /** A walk that reads rs back from the start and then stops gives exactly rs. */
  lemma WalkGivesRecords(data: seq<byte>, rs: seq<Record>)
    requires ReadsBackAll(data, 0, rs)
    requires EntriesFrom(V1, data, TotalSize(rs)) == []
    ensures RecordsOf(Entries(V1, data)) == rs
  {
    assert Entries(V1, data) == EntriesFrom(V1, data, 0);
    ReadRecords(data, 0, rs, TotalSize(rs));
    assert RecordsOf(EntriesFrom(V1, data, TotalSize(rs))) == [];
    assert rs + [] == rs;
  }

  /** A written image walks back to exactly the records written, whether it ends at
      the end of the data, at erased flash or at zeroed flash. */
  lemma V1RoundTrip(rs: seq<Record>, tail: seq<byte>)
    requires forall n :: 0 <= n < |rs| ==> Encodable(rs[n])
    requires Unused(tail)
    ensures RecordsOf(Entries(V1, EncodeV1(rs) + tail)) == rs
  {
    WrittenImage(rs, tail);
    WalkGivesRecords(EncodeV1(rs) + tail, rs);
  }

  /** So the decoded map sends the key of every record no later record repeats to
      that record's value. */
  lemma V1DecodeWritten(rs: seq<Record>, n: nat)
    requires forall p :: 0 <= p < |rs| ==> Encodable(rs[p])
    requires n < |rs| && forall p :: n < p < |rs| ==> rs[p].key != rs[n].key
    ensures rs[n].key in Decode(V1, EncodeV1(rs)) && Decode(V1, EncodeV1(rs))[rs[n].key] == rs[n].value
  {
    var data := EncodeV1(rs);
    V1RoundTrip(rs, []);
    assert data + [] == data;
    DecodeRecord(data, rs, n);
  }

  /** When the walk gives back rs, the decoded map holds the last record with each key. */
  lemma DecodeRecord(data: seq<byte>, rs: seq<Record>, n: nat)
    requires RecordsOf(Entries(V1, data)) == rs
    requires n < |rs| && forall p :: n < p < |rs| ==> rs[p].key != rs[n].key
    ensures rs[n].key in Decode(V1, data) && Decode(V1, data)[rs[n].key] == rs[n].value
  {
    var es := Entries(V1, data);
    RecordsOfAt(es, n);
    assert LastWithKey(es, n) by {
      forall p | n < p < |es|
        ensures es[p].key != es[n].key
      {
        RecordsOfAt(es, p);
      }
    }
    InsertAllLastWins(map[], es, n);
  }
}
