/** How `main` shows a decoded variable. A key longer than a GUID is read as a
    16-byte vendor GUID followed by the variable's name in little-endian UTF-16;
    variables with an empty value, or a key no longer than a GUID, are skipped.
    The name ends at the first zero code unit or at the last whole code unit of the
    key, and code units `char::from_u32` rejects (the surrogates) are dropped. */
module Names {
  import opened Bytes
  import opened Compact

  /** The little-endian UTF-16 code unit at key[j], key[j + 1]. */
  function UnitAt(key: seq<byte>, j: nat): u16
    requires j + 1 < |key|
  {
    key[j] as int + 0x100 * key[j + 1] as int
  }

  /** A code unit that is a Unicode scalar value on its own: anything but a surrogate. */
  predicate IsScalar(w: u16) {
    w < 0xD800 || w > 0xDFFF
  }

  /** `main`'s name loop, from byte j of the key on. */
  function NameFrom(key: seq<byte>, j: nat): string
    decreases |key| - j
  {
    if j + 1 >= |key| then []
    else
      var w := UnitAt(key, j);
      if w == 0 then []
      else (if IsScalar(w) then [w as char] else []) + NameFrom(key, j + 2)
  }

  /** The variable name stored in a key, after its vendor GUID. */
  function DecodeName(key: Key): string {
    NameFrom(key, GuidSize)
  }

  // ---------------------------------------------------------------------------
  // A reference reading: split into code units, cut at the first zero, keep the scalars

  /** The bytes as little-endian code units; an odd last byte is not part of any. */
  function Units(b: seq<byte>): (ws: seq<u16>)
    ensures |ws| == |b| / 2
    ensures forall i :: 0 <= i < |ws| ==> ws[i] == b[2 * i] as int + 0x100 * b[2 * i + 1] as int
    decreases |b|
  {
    if |b| < 2 then [] else [b[0] as int + 0x100 * b[1] as int] + Units(b[2..])
  }

  /** The code units before the first zero (all of them if there is none). */
  function UntilZero(ws: seq<u16>): (r: seq<u16>)
    ensures r <= ws
    ensures forall i :: 0 <= i < |r| ==> r[i] != 0
    ensures |r| < |ws| ==> ws[|r|] == 0
  {
    if ws == [] || ws[0] == 0 then [] else [ws[0]] + UntilZero(ws[1..])
  }

  /** The code units that are scalar values, as characters, in order: every
      character comes from a scalar unit, every scalar unit gives a character, and
      surrogates give none. */
  function Scalars(ws: seq<u16>): (r: string)
    ensures |r| <= |ws|
    ensures forall c :: c in r ==> exists i :: 0 <= i < |ws| && ws[i] == c as int && IsScalar(ws[i])
    ensures forall i :: 0 <= i < |ws| && IsScalar(ws[i]) ==> ws[i] as char in r
    ensures (forall i :: 0 <= i < |ws| ==> IsScalar(ws[i])) ==>
      |r| == |ws| && forall i :: 0 <= i < |r| ==> r[i] as int == ws[i]
  {
    if ws == [] then []
    else
      var rest := Scalars(ws[1..]);
      var r := (if IsScalar(ws[0]) then [ws[0] as char] else []) + rest;
      assert IsScalar(ws[0]) ==> forall i :: 0 < i < |r| ==> r[i] == rest[i - 1];
      assert forall c :: c in rest ==> exists i :: 0 <= i < |ws| && ws[i] == c as int && IsScalar(ws[i]) by {
        forall c | c in rest ensures exists i :: 0 <= i < |ws| && ws[i] == c as int && IsScalar(ws[i]) {
          var i :| 0 <= i < |ws[1..]| && ws[1..][i] == c as int && IsScalar(ws[1..][i]);
          assert ws[i + 1] == ws[1..][i];
        }
      }
      assert forall i :: 1 <= i < |ws| && IsScalar(ws[i]) ==> ws[i] as char in rest by {
        forall i | 1 <= i < |ws| && IsScalar(ws[i]) ensures ws[i] as char in rest {
          assert ws[1..][i - 1] == ws[i];
        }
      }
      r
  }

  /** Filtering the scalars of two runs of units is filtering each run. */
  lemma {:induction false} ScalarsAppend(a: seq<u16>, b: seq<u16>)
    ensures Scalars(a + b) == Scalars(a) + Scalars(b)
    decreases |a|
  {
    if a != [] {
      assert (a + b)[1..] == a[1..] + b;
      ScalarsAppend(a[1..], b);
    } else {
      assert a + b == b;
    }
  }

  /** A surrogate unit on its own gives no character; any other unit gives itself. */
  lemma SurrogateDropped(w: u16)
    ensures !IsScalar(w) ==> Scalars([w]) == []
    ensures IsScalar(w) ==> Scalars([w]) == [w as char]
  {
  }

  /** The loop reads exactly the scalar code units before the first zero unit. */
  lemma {:induction false} NameFromReadsUnits(key: seq<byte>, j: nat)
    requires j <= |key|
    ensures NameFrom(key, j) == Scalars(UntilZero(Units(key[j..])))
    decreases |key| - j
  {
    if j + 1 < |key| {
      var w := UnitAt(key, j);
      var ws := Units(key[j..]);
      UnitsOfSuffix(key, j);
      if w != 0 {
        NameFromReadsUnits(key, j + 2);
        var more := UntilZero(Units(key[j + 2..]));
        assert UntilZero(ws) == [w] + more;
        ScalarsCons(w, more);
      }
    }
  }

  /** The units from byte j are the unit at j, then the units from byte j + 2. */
  lemma UnitsOfSuffix(key: seq<byte>, j: nat)
    requires j + 1 < |key|
    ensures Units(key[j..]) == [UnitAt(key, j)] + Units(key[j + 2..])
  {
    assert key[j..][2..] == key[j + 2..];
  }

  lemma ScalarsCons(w: u16, ws: seq<u16>)
    ensures Scalars([w] + ws) == (if IsScalar(w) then [w as char] else []) + Scalars(ws)
  {
    assert ([w] + ws)[1..] == ws;
  }

  /** DecodeName agrees with the reference reading of the bytes after the GUID. */
  lemma DecodeNameReadsUnits(key: Key)
    requires |key| >= GuidSize
    ensures DecodeName(key) == Scalars(UntilZero(Units(key[GuidSize..])))
  {
    NameFromReadsUnits(key, GuidSize);
  }

  /** An odd byte at the end of a key is not part of the name. */
  lemma {:induction false} OddByteIgnored(key: Key, b: byte, j: nat)
    requires j <= |key| && (|key| - j) % 2 == 0
    ensures NameFrom(key + [b], j) == NameFrom(key, j)
    decreases |key| - j
  {
    if j + 1 < |key| {
      assert UnitAt(key + [b], j) == UnitAt(key, j);
      OddByteIgnored(key, b, j + 2);
    }
  }

  /** Nothing after a zero code unit is part of the name. */
  lemma {:induction false} ZeroUnitEndsName(key: Key, rest: seq<byte>, j: nat)
    requires j <= |key| && (|key| - j) % 2 == 0
    ensures NameFrom(key + [0, 0] + rest, j) == NameFrom(key, j)
    decreases |key| - j
  {
    var long := key + [0, 0] + rest;
    if j + 1 < |key| {
      assert UnitAt(long, j) == UnitAt(key, j);
      ZeroUnitEndsName(key, rest, j + 2);
    } else {
      assert j == |key| && UnitAt(long, j) == 0;
    }
  }

  // ---------------------------------------------------------------------------
  // Writing a name, and reading it back

  /** A character that one UTF-16 code unit can carry and that does not end a name. */
  predicate IsNameChar(c: char) {
    0 < c as int < 0x1_0000
  }

  /** The little-endian UTF-16 encoding of a name whose characters each fit in one
      code unit. */
  function EncodeName(name: string): (b: seq<byte>)
    requires forall i :: 0 <= i < |name| ==> IsNameChar(name[i])
    ensures |b| == 2 * |name|
  {
    if name == [] then []
    else CodeUnit(name[0]) + EncodeName(name[1..])
  }

  /** The two little-endian bytes of one code unit. */
  function CodeUnit(c: char): (b: seq<byte>)
    requires IsNameChar(c)
    ensures |b| == 2 && b[0] as int + 0x100 * b[1] as int == c as int
  {
    [(c as int % 0x100) as byte, (c as int / 0x100) as byte]
  }

  /** Reading an encoded name from an even offset gives the name back, followed by
      whatever the bytes after it hold. */
  lemma {:induction false} NameFromEncoded(pre: seq<byte>, name: string, tail: seq<byte>)
    requires forall i :: 0 <= i < |name| ==> IsNameChar(name[i])
    ensures NameFrom(pre + EncodeName(name) + tail, |pre|) == name + NameFrom(pre + tail, |pre|)
    decreases |name|
  {
    if name != [] {
      var c := name[0];
      var unit := CodeUnit(c);
      var key := pre + EncodeName(name) + tail;
      var j := |pre|;
      assert key == (pre + unit) + EncodeName(name[1..]) + tail;
      assert key[j] == unit[0] && key[j + 1] == unit[1];
      assert UnitAt(key, j) == c as int;
      assert IsScalar(c as int) && (c as int) as char == c;
      assert NameFrom(key, j) == [c] + NameFrom(key, j + 2);
      NameFromEncoded(pre + unit, name[1..], tail);
      NameFromSkipsPrefix(pre, unit, tail);
      assert NameFrom(key, j + 2) == name[1..] + NameFrom(pre + tail, j);
      assert [c] + name[1..] == name;
      assert [c] + (name[1..] + NameFrom(pre + tail, j)) == name + NameFrom(pre + tail, j);
      assert NameFrom(key, j) == name + NameFrom(pre + tail, j);
    } else {
      assert pre + EncodeName(name) + tail == pre + tail;
    }
  }

  /** Reading from the end of a prefix does not look at the prefix's last bytes. */
  lemma {:induction false} NameFromSkipsPrefix(pre: seq<byte>, unit: seq<byte>, tail: seq<byte>)
    requires |unit| == 2
    ensures NameFrom(pre + unit + tail, |pre| + 2) == NameFrom(pre + tail, |pre|)
  {
    NameFromShift(pre + unit + tail, pre + tail, |pre| + 2, |pre|);
  }

  /** The loop only reads bytes at and after its start. */
  lemma {:induction false} NameFromShift(a: seq<byte>, b: seq<byte>, i: nat, j: nat)
    requires i <= |a| && j <= |b| && a[i..] == b[j..]
    ensures NameFrom(a, i) == NameFrom(b, j)
    decreases |a| - i
  {
    if i + 1 < |a| {
      assert a[i] == a[i..][0] == b[j..][0] == b[j];
      assert a[i + 1] == a[i..][1] == b[j..][1] == b[j + 1];
      assert a[i + 2..] == a[i..][2..] == b[j..][2..] == b[j + 2..];
      NameFromShift(a, b, i + 2, j + 2);
    }
  }

  /** A key written as a GUID, a name and a zero code unit decodes to that name,
      whatever follows the terminator. */
  lemma NameRoundTrip(guid: seq<byte>, name: string, rest: seq<byte>)
    requires |guid| == GuidSize
    requires forall i :: 0 <= i < |name| ==> IsNameChar(name[i])
    ensures DecodeName(guid + EncodeName(name) + [0, 0] + rest) == name
  {
    var tail := [0, 0] + rest;
    RegroupTail(guid + EncodeName(name), [0, 0], rest);
    NameFromEncoded(guid, name, tail);
    TerminatorEndsName(guid, tail);
    EmptyTail(name);
  }

  /** Regrouping the key's tail. A lemma of its own, so that NameRoundTrip's proof
      sees this one equation rather than the sequence axioms behind it. */
  lemma RegroupTail(a: seq<byte>, b: seq<byte>, c: seq<byte>)
    ensures a + b + c == a + (b + c)
  {
  }

  /** The name followed by the empty rest; a lemma for the same reason. */
  lemma EmptyTail(name: string)
    ensures name + [] == name
  {
  }

  /** A zero code unit right after the GUID leaves the name empty. */
  lemma TerminatorEndsName(guid: seq<byte>, tail: seq<byte>)
    requires |guid| == GuidSize && |tail| >= 2 && tail[0] == 0 && tail[1] == 0
    ensures NameFrom(guid + tail, GuidSize) == []
  {
    var key := guid + tail;
    assert key[GuidSize] == 0 && key[GuidSize + 1] == 0;
    assert UnitAt(key, GuidSize) == 0;
  }

  // ---------------------------------------------------------------------------
  // What main lists

  /** One listed variable: its name and its value (shown as a hex dump, which is
      not modelled). */
  datatype Listed = Listed(name: string, value: Value)

  /** The variables `main` shows, by key. */
  function Listing(store: Store): (r: map<Key, Listed>)
    ensures r.Keys <= store.Keys
    ensures forall k :: k in r ==> |k| > GuidSize && r[k].value == store[k] != []
  {
    map k | k in store && |k| > GuidSize && |store[k]| > 0 :: Listed(DecodeName(k), store[k])
  }

  /** A key is listed exactly when it is longer than a GUID and its value is not
      empty, and it is listed under the name read from it, with its value. */
  lemma ListedIffNonEmpty(store: Store)
    ensures forall k :: k in Listing(store) <==> k in store && |k| > GuidSize && store[k] != []
    ensures forall k :: k in Listing(store) ==> Listing(store)[k] == Listed(DecodeName(k), store[k])
  {
  }

  /** Every v2 key is longer than a GUID, so a v2 variable is listed exactly when
      its value is not empty. */
  lemma V2ListingSkipsOnlyEmptyValues(data: seq<byte>)
    ensures forall k :: k in Decode(V2, data) ==>
      (k in Listing(Decode(V2, data)) <==> Decode(V2, data)[k] != [])
  {
    V2KeysLong(data);
    ListedIffNonEmpty(Decode(V2, data));
  }

  /** 16 GUID bytes, then "F", a lone surrogate, "oo" and a terminator. */
  const ExampleKey: Key :=
    [0, 0, 0, 0, 0, 0, 0, 0, 0, 0, 0, 0, 0, 0, 0, 0,
     0x46, 0x00, 0x00, 0xD8, 0x6F, 0x00, 0x6F, 0x00, 0x00, 0x00, 0x41, 0x00]

  lemma ExampleKeyName()
    ensures DecodeName(ExampleKey) == "Foo"
  {
    var key := ExampleKey;
    assert UnitAt(key, 16) == 0x46 && UnitAt(key, 18) == 0xD800;
    assert UnitAt(key, 20) == 0x6F && UnitAt(key, 22) == 0x6F && UnitAt(key, 24) == 0;
    assert NameFrom(key, 24) == [];
  }

  /** The one-record v1 example image lists nothing: its key "ABCD" is shorter than
      a GUID. */
  lemma ExampleImageListsNothing()
    ensures Listing(Decode(V1, ExampleImage)) == map[]
  {
    ExampleImageDecodes();
    ListedIffNonEmpty(Decode(V1, ExampleImage));
  }
}
