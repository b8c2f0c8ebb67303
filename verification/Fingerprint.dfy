/**
 Row fingerprints: the byte encoding of a row's values that stands for the row when a deletion
 plan is compared with the locked database.
 */
module Fingerprint {
  import opened Prelude
  import opened Sorting

  const WORD := 0x1_0000_0000_0000_0000

  type Word = n: int | 0 <= n < WORD

  type Integer64 = n: int | -0x8000_0000_0000_0000 <= n < 0x8000_0000_0000_0000

  /** A column value by storage class. Reals are their IEEE bit patterns. `Other` is any type
      name the encoder does not know. */
  datatype Value =
    | Null
    | Integer(i: Integer64)
    | Real(bits: Word)
    | Text(bytes: seq<Byte>)
    | Blob(bytes: seq<Byte>)
    | Other

  /** The low `width` bytes of n, most significant first. */
  function BigEndian(n: nat, width: nat): (r: seq<Byte>)
    ensures |r| == width
  {
    if width == 0 then [] else BigEndian(n / 256, width - 1) + [n % 256]
  }

  lemma {:induction false} BigEndianInjective(a: nat, b: nat, width: nat)
    requires a < Power256(width) && b < Power256(width)
    requires BigEndian(a, width) == BigEndian(b, width)
    ensures a == b
  {
    if width != 0 {
      var p, q := BigEndian(a / 256, width - 1), BigEndian(b / 256, width - 1);
      assert p == BigEndian(a, width)[..width - 1] && q == BigEndian(b, width)[..width - 1];
      assert BigEndian(a, width)[width - 1] == a % 256 && BigEndian(b, width)[width - 1] == b % 256;
      BigEndianInjective(a / 256, b / 256, width - 1);
    }
  }

  function Power256(width: nat): nat {
    if width == 0 then 1 else 256 * Power256(width - 1)
  }

  lemma WordFits()
    ensures Power256(8) == WORD
  {
    assert Power256(4) == 0x1_0000_0000;
  }

  /** `to_be_bytes` of a 64-bit word. */
  function WordBytes(n: Word): (r: seq<Byte>)
    ensures |r| == 8
  {
    BigEndian(n, 8)
  }

  lemma WordBytesInjective(a: Word, b: Word)
    requires WordBytes(a) == WordBytes(b)
    ensures a == b
  {
    WordFits();
    BigEndianInjective(a, b, 8);
  }

  /** The two's complement word of a signed integer. */
  function TwosComplement(i: Integer64): Word {
    if i < 0 then i + WORD else i
  }

  function LengthPrefixed(bytes: seq<Byte>): seq<Byte>
    requires |bytes| < WORD
  {
    WordBytes(|bytes|) + bytes
  }

  /** A value a `usize` can measure; anything longer does not exist in memory. */
  predicate Measurable(v: Value) {
    v.Text? || v.Blob? ==> |v.bytes| < WORD
  }

  ghost predicate MeasurableRow(row: seq<Value>) {
    forall v :: v in row ==> Measurable(v)
  }

  function Tag(v: Value): Byte {
    match v
    case Null => 0
    case Integer(_) => 1
    case Real(_) => 2
    case Text(_) => 3
    case Blob(_) => 4
    case Other => 255
  }

  function Payload(v: Value): seq<Byte>
    requires Measurable(v)
  {
    match v
    case Null => []
    case Integer(i) => WordBytes(TwosComplement(i))
    case Real(bits) => WordBytes(bits)
    case Text(bytes) => LengthPrefixed(bytes)
    case Blob(bytes) => LengthPrefixed(bytes)
    case Other => []
  }

  function Encoded(v: Value): (r: seq<Byte>)
    requires Measurable(v)
  {
    [Tag(v)] + Payload(v)
  }

  ghost predicate Encodable(row: seq<Value>) {
    forall v :: v in row ==> Measurable(v) && !v.Other?
  }

  function EncodedRow(row: seq<Value>): seq<Byte>
    requires Encodable(row)
  {
    if row == [] then [] else EncodedRow(row[..|row| - 1]) + Encoded(row[|row| - 1])
  }

  /** The encoder: pushes each column's tag and payload; unknown types are an error. */
  method RowFingerprint(row: seq<Value>) returns (r: Result<seq<Byte>, ()>)
    requires MeasurableRow(row)
    ensures r.Ok? <==> Encodable(row)
    ensures r.Ok? ==> r.value == EncodedRow(row)
  {
    var fingerprint: seq<Byte> := [];
    for index := 0 to |row|
      invariant Encodable(row[..index]) && fingerprint == EncodedRow(row[..index])
    {
      var value := row[index];
      assert value in row;
      assert row[..index + 1][..index] == row[..index];
      if value.Other? { return Err(()); }
      fingerprint := AppendValue(fingerprint, value);
    }
    assert row[..|row|] == row;
    return Ok(fingerprint);
  }

  method AppendValue(fingerprint: seq<Byte>, value: Value) returns (r: seq<Byte>)
    requires Measurable(value) && !value.Other?
    ensures r == fingerprint + Encoded(value)
  {
    hide WordBytes, LengthPrefixed, TwosComplement;
    Associative(fingerprint, [Tag(value)], Payload(value));
    r := fingerprint;
    match value
    case Null => r := r + [0];
    case Integer(i) => r := r + [1]; r := r + WordBytes(TwosComplement(i));
    case Real(bits) => r := r + [2]; r := r + WordBytes(bits);
    case Text(bytes) => r := r + [3]; r := AppendLengthPrefixed(r, bytes);
    case Blob(bytes) => r := r + [4]; r := AppendLengthPrefixed(r, bytes);
  }

  method AppendLengthPrefixed(fingerprint: seq<Byte>, value: seq<Byte>) returns (r: seq<Byte>)
    requires |value| < WORD
    ensures r == fingerprint + LengthPrefixed(value)
  {
    r := fingerprint + WordBytes(|value|);
    r := r + value;
  }

  // ----- The encoding loses nothing -----

  /** No value's encoding is a proper prefix of another's: what follows cannot be confused with it. */
  lemma EncodedPrefixFree(v: Value, w: Value, x: seq<Byte>, y: seq<Byte>)
    requires Measurable(v) && Measurable(w)
    requires Encoded(v) + x == Encoded(w) + y
    ensures v == w && x == y
  {
    Associative([Tag(v)], Payload(v), x);
    Associative([Tag(w)], Payload(w), y);
    HeadAndTail(Tag(v), Tag(w), Payload(v) + x, Payload(w) + y);
    PayloadPrefixFree(v, w, x, y);
  }

  lemma HeadAndTail(a: Byte, b: Byte, x: seq<Byte>, y: seq<Byte>)
    requires [a] + x == [b] + y
    ensures a == b && x == y
  {
    assert ([a] + x)[0] == ([b] + y)[0];
    assert ([a] + x)[1..] == x && ([b] + y)[1..] == y;
  }

  lemma PayloadPrefixFree(v: Value, w: Value, x: seq<Byte>, y: seq<Byte>)
    requires Measurable(v) && Measurable(w)
    requires Tag(v) == Tag(w) && Payload(v) + x == Payload(w) + y
    ensures v == w && x == y
  {
    match v
    case Null => assert Payload(v) + x == x && Payload(w) + y == y;
    case Integer(i) => WordPrefixFree(TwosComplement(i), TwosComplement(w.i), x, y);
    case Real(bits) => WordPrefixFree(bits, w.bits, x, y);
    case Text(bytes) => LengthPrefixedPrefixFree(bytes, w.bytes, x, y);
    case Blob(bytes) => LengthPrefixedPrefixFree(bytes, w.bytes, x, y);
    case Other => assert Payload(v) + x == x && Payload(w) + y == y;
  }

  lemma WordPrefixFree(a: Word, b: Word, x: seq<Byte>, y: seq<Byte>)
    requires WordBytes(a) + x == WordBytes(b) + y
    ensures a == b && x == y
  {
    var s := WordBytes(a) + x;
    assert s[..8] == WordBytes(a) && s[..8] == WordBytes(b);
    assert s[8..] == x && s[8..] == y;
    WordBytesInjective(a, b);
  }

  lemma LengthPrefixedPrefixFree(a: seq<Byte>, b: seq<Byte>, x: seq<Byte>, y: seq<Byte>)
    requires |a| < WORD && |b| < WORD
    requires LengthPrefixed(a) + x == LengthPrefixed(b) + y
    ensures a == b && x == y
  {
    assert LengthPrefixed(a) + x == WordBytes(|a|) + (a + x);
    assert LengthPrefixed(b) + y == WordBytes(|b|) + (b + y);
    WordPrefixFree(|a|, |b|, a + x, b + y);
    assert (a + x)[..|a|] == a && (b + y)[..|b|] == b;
    assert (a + x)[|a|..] == x && (b + y)[|b|..] == y;
  }

  lemma {:induction false} EncodedRowFirst(row: seq<Value>)
    requires Encodable(row) && row != []
    ensures EncodedRow(row) == Encoded(row[0]) + EncodedRow(row[1..])
    decreases |row|
  {
    var n := |row|;
    if n == 1 {
      assert row[..0] == [] && row[1..] == [];
    } else {
      var front, last, tail := row[..n - 1], row[n - 1], row[1..];
      EncodedRowFirst(front);
      assert tail[..n - 2] == front[1..] && tail[n - 2] == last;
      Associative(Encoded(row[0]), EncodedRow(front[1..]), Encoded(last));
    }
  }

  /** Rows have equal fingerprints exactly when every column agrees in type and value. */
  lemma {:induction false} FingerprintsEqual(a: seq<Value>, b: seq<Value>)
    requires Encodable(a) && Encodable(b)
    ensures EncodedRow(a) == EncodedRow(b) <==> a == b
  {
    hide EncodedRow;
    if EncodedRow(a) == EncodedRow(b) {
      RowEnds(a);
      RowEnds(b);
      if a != [] {
        SameFirstColumn(a, b);
        FingerprintsEqual(a[1..], b[1..]);
        assert a == [a[0]] + a[1..] && b == [b[0]] + b[1..];
      }
    }
  }

  lemma SameFirstColumn(a: seq<Value>, b: seq<Value>)
    requires Encodable(a) && Encodable(b) && a != [] && b != [] && EncodedRow(a) == EncodedRow(b)
    ensures a[0] == b[0] && EncodedRow(a[1..]) == EncodedRow(b[1..])
  {
    EncodedRowFirst(a);
    EncodedRowFirst(b);
    hide EncodedRow, Encoded;
    EncodedPrefixFree(a[0], b[0], EncodedRow(a[1..]), EncodedRow(b[1..]));
  }

  lemma RowEnds(row: seq<Value>)
    requires Encodable(row)
    ensures EncodedRow(row) == [] <==> row == []
  {
  }

  // ----- Snapshots: the sorted fingerprints of a set of rows -----

  ghost predicate EncodableRows(rows: seq<seq<Value>>) {
    forall row :: row in rows ==> Encodable(row)
  }

  function Fingerprints(rows: seq<seq<Value>>): (r: seq<seq<Byte>>)
    requires EncodableRows(rows)
    ensures |r| == |rows|
  {
    if rows == [] then [] else [EncodedRow(rows[0])] + Fingerprints(rows[1..])
  }

  function Snapshot(rows: seq<seq<Value>>): seq<seq<Byte>>
    requires EncodableRows(rows)
  {
    Sort(BytesLess, Fingerprints(rows))
  }

  lemma CountFirst<T>(s: seq<T>, x: T)
    requires s != []
    ensures multiset(s)[x] == multiset(s[1..])[x] + if s[0] == x then 1 else 0
  {
    assert s == [s[0]] + s[1..];
  }

  lemma {:induction false} FingerprintCount(rows: seq<seq<Value>>, row: seq<Value>)
    requires EncodableRows(rows) && Encodable(row)
    ensures multiset(Fingerprints(rows))[EncodedRow(row)] == multiset(rows)[row]
  {
    if rows != [] {
      var fingerprints := Fingerprints(rows);
      assert fingerprints[1..] == Fingerprints(rows[1..]);
      FingerprintCount(rows[1..], row);
      FingerprintsEqual(rows[0], row);
      CountFirst(rows, row);
      CountFirst(fingerprints, EncodedRow(row));
    }
  }

  lemma {:induction false} FingerprintOf(rows: seq<seq<Value>>, f: seq<Byte>)
    requires EncodableRows(rows) && f in Fingerprints(rows)
    ensures exists row :: row in rows && EncodedRow(row) == f
  {
    if f == EncodedRow(rows[0]) {
      assert rows[0] in rows;
    } else {
      FingerprintOf(rows[1..], f);
    }
  }

  lemma SameFingerprints(a: seq<seq<Value>>, b: seq<seq<Value>>)
    requires EncodableRows(a) && EncodableRows(b) && multiset(a) == multiset(b)
    ensures multiset(Fingerprints(a)) == multiset(Fingerprints(b))
  {
    SameSize(a, b);
    forall f ensures multiset(Fingerprints(a))[f] == multiset(Fingerprints(b))[f] {
      if f in Fingerprints(a) || f in Fingerprints(b) {
        if f in Fingerprints(a) { FingerprintOf(a, f); } else { FingerprintOf(b, f); }
        var row :| row in a && EncodedRow(row) == f;
        FingerprintCount(a, row);
        FingerprintCount(b, row);
      } else {
        assert f !in multiset(Fingerprints(a)) && f !in multiset(Fingerprints(b));
      }
    }
  }

  lemma SameRows(a: seq<seq<Value>>, b: seq<seq<Value>>)
    requires EncodableRows(a) && EncodableRows(b) && multiset(Fingerprints(a)) == multiset(Fingerprints(b))
    ensures multiset(a) == multiset(b)
  {
    forall row ensures multiset(a)[row] == multiset(b)[row] {
      if row in a || row in b {
        FingerprintCount(a, row);
        FingerprintCount(b, row);
      } else {
        assert row !in multiset(a) && row !in multiset(b);
      }
    }
  }

  /** Equal snapshots mean equal multisets of rows, and conversely, in whatever order the rows came. */
  lemma SnapshotsEqual(a: seq<seq<Value>>, b: seq<seq<Value>>)
    requires EncodableRows(a) && EncodableRows(b)
    ensures Snapshot(a) == Snapshot(b) <==> multiset(a) == multiset(b)
  {
    if Snapshot(a) == Snapshot(b) {
      SameRows(a, b);
    } else if multiset(a) == multiset(b) {
      SameFingerprints(a, b);
      BytesOrder();
      SortIgnoresOrder(BytesLess, Fingerprints(a), Fingerprints(b));
    }
  }
}
