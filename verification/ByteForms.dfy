/** The bytes that rows and layouts are encoded as: what a word denotes, and known contents. */
module ByteForms {
  import opened Prelude
  import opened Sorting
  import opened Fingerprint
  import opened HashLayout

  /** The number that the bytes spell, most significant first. */
  function Spelled(bytes: seq<Byte>): nat {
    if bytes == [] then 0 else 256 * Spelled(bytes[..|bytes| - 1]) + bytes[|bytes| - 1]
  }

  lemma {:induction false} BigEndianSpells(n: nat, width: nat)
    requires n < Power256(width)
    ensures Spelled(BigEndian(n, width)) == n
  {
    if width != 0 {
      BigEndianSpells(n / 256, width - 1);
      assert BigEndian(n, width)[..width - 1] == BigEndian(n / 256, width - 1);
    }
  }

  /** A length is written as the eight bytes that spell it; an integer as those that spell it or,
      when it is negative, 2 to the 64th more. */
  lemma WordsSpell(n: Word, i: Integer64)
    ensures |WordBytes(n)| == 8 && Spelled(WordBytes(n)) == n
    ensures Spelled(WordBytes(TwosComplement(i))) == if i < 0 then i + 0x1_0000_0000_0000_0000 else i
  {
    WordFits();
    BigEndianSpells(n, 8);
    BigEndianSpells(TwosComplement(i), 8);
  }

  lemma BigEndianNext(n: nat, width: nat)
    ensures BigEndian(n, width + 1) == BigEndian(n / 256, width) + [n % 256]
  {
  }

  lemma SmallWord(n: nat)
    requires n < 256
    ensures WordBytes(n) == [0, 0, 0, 0, 0, 0, 0, n]
  {
    hide BigEndian;
    BigEndianNext(n, 7);
    ZeroWord(7);
    assert ZeroBytes(7) == [0, 0, 0, 0, 0, 0, 0];
  }

  function ZeroBytes(width: nat): (r: seq<Byte>)
    ensures |r| == width && forall i :: 0 <= i < width ==> r[i] == 0
  {
    seq(width, _ => 0)
  }

  lemma {:induction false} ZeroWord(width: nat)
    ensures BigEndian(0, width) == ZeroBytes(width)
  {
    if width != 0 { ZeroWord(width - 1); }
  }

  function OneBytes(width: nat): (r: seq<Byte>)
    ensures |r| == width && forall i :: 0 <= i < width ==> r[i] == 255
  {
    seq(width, _ => 255)
  }

  lemma {:induction false} OneWord(width: nat)
    ensures Power256(width) > 0 && BigEndian(Power256(width) - 1, width) == OneBytes(width)
  {
    if width != 0 {
      OneWord(width - 1);
      assert Power256(width) - 1 == 256 * (Power256(width - 1) - 1) + 255;
    }
  }

  lemma MinusTwo()
    ensures WordBytes(TwosComplement(-2)) == [255, 255, 255, 255, 255, 255, 255, 254]
  {
    hide BigEndian;
    BigEndianNext(0xFFFF_FFFF_FFFF_FFFE, 7);
    assert Power256(7) == 0x100_0000_0000_0000 by { assert Power256(4) == 0x1_0000_0000; }
    OneWord(7);
    assert OneBytes(7) == [255, 255, 255, 255, 255, 255, 255];
  }

  lemma EncodedRowNext(row: seq<Value>, v: Value)
    requires Encodable(row) && Measurable(v) && !v.Other?
    ensures Encodable(row + [v]) && EncodedRow(row + [v]) == EncodedRow(row) + Encoded(v)
  {
    assert (row + [v])[..|row|] == row;
  }

  lemma ValueBytes()
    ensures Encoded(Integer(-2)) == [1, 255, 255, 255, 255, 255, 255, 255, 254] && Encoded(Null) == [0]
    ensures Encoded(Text([0x61])) == [3, 0, 0, 0, 0, 0, 0, 0, 1, 0x61]
    ensures Encoded(Blob([])) == [4, 0, 0, 0, 0, 0, 0, 0, 0]
  {
    hide WordBytes;
    MinusTwo();
    SmallWord(1);
    SmallWord(0);
  }

  /** An integer of -2, NULL, the text "a" and an empty blob. */
  method RowBytes() returns (r: Result<seq<Byte>, ()>)
    ensures r.Ok? && r.value == [1, 255, 255, 255, 255, 255, 255, 255, 254] + [0] + [3, 0, 0, 0, 0, 0, 0, 0, 1, 0x61]
                                + [4, 0, 0, 0, 0, 0, 0, 0, 0]
  {
    ValueBytes();
    EncodedNothing();
    hide Encoded, EncodedRow;
    EncodedRowNext([], Integer(-2));
    EncodedRowNext([Integer(-2)], Null);
    EncodedRowNext([Integer(-2), Null], Text([0x61]));
    EncodedRowNext([Integer(-2), Null, Text([0x61])], Blob([]));
    assert [] + [Integer(-2)] == [Integer(-2)] && [Integer(-2)] + [Null] == [Integer(-2), Null];
    assert [Integer(-2), Null] + [Text([0x61])] == [Integer(-2), Null, Text([0x61])];
    assert [Integer(-2), Null, Text([0x61])] + [Blob([])] == [Integer(-2), Null, Text([0x61]), Blob([])];
    assert [] + Encoded(Integer(-2)) == Encoded(Integer(-2));
    r := RowFingerprint([Integer(-2), Null, Text([0x61]), Blob([])]);
  }

  lemma EncodedNothing()
    ensures EncodedRow([]) == []
  {
  }

  // ----- A small layout -----

  /** A web tree with a file "b" in a directory "a", and a file "c". */
  const SERVER := File([0x7F])
  const WEB_A := Directory(map[[0x62] := File([])])
  const WEB := Directory(map[[0x61] := WEB_A, [0x63] := File([0x3C])])

  lemma NamesOrdered()
    ensures Ordered({[0x61], [0x63]}) == [[0x61], [0x63]] && Ordered({[0x62]}) == [[0x62]]
  {
    var a: Bytes, c: Bytes := [0x61], [0x63];
    assert a[0] < c[0] && BytesLess(a, c) && !BytesLess(c, a);
    assert OrderOf([a, c], {a, c}) && OrderOf([[0x62]], {[0x62]});
    OrderUnique(Ordered({a, c}), [a, c], {a, c});
    OrderUnique(Ordered({[0x62]}), [[0x62]], {[0x62]});
  }

  lemma LevelOne(prefix: Bytes, dir: Node, name: Bytes, rest: seq<Bytes>)
    requires dir.Directory? && name in dir.entries && forall n :: n in rest ==> n in dir.entries
    ensures Level(prefix, dir, [name] + rest) ==
              Records(prefix + [SLASH] + name, dir.entries[name]) + Level(prefix, dir, rest)
  {
    assert ([name] + rest)[1..] == rest;
  }

  const PATH_A: Bytes := WEB_LABEL + [0x2F] + [0x61]
  const PATH_B: Bytes := PATH_A + [0x2F] + [0x62]
  const PATH_C: Bytes := WEB_LABEL + [0x2F] + [0x63]

  lemma WebRecords()
    ensures Hashable(SERVER, WEB)
    ensures LayoutRecords(SERVER, WEB) ==
              [FileRecord(BINARY_LABEL, [0x7F]), DirectoryRecord(PATH_A), FileRecord(PATH_B, []),
               FileRecord(PATH_C, [0x3C])]
  {
    NamesOrdered();
    assert WEB.entries.Keys == {[0x61], [0x63]} && WEB_A.entries.Keys == {[0x62]};
    assert [[0x61], [0x63]] == [[0x61]] + [[0x63]] && [[0x63]] + [] == [[0x63]] && [[0x62]] + [] == [[0x62]];
    LevelOne(WEB_LABEL, WEB, [0x61], [[0x63]]);
    LevelOne(WEB_LABEL, WEB, [0x63], []);
    LevelOne(PATH_A, WEB_A, [0x62], []);
  }

  lemma PathsMeasured()
    ensures |BINARY_LABEL| == 19 && |PATH_A| == 10 && |PATH_B| == 12 && |PATH_C| == 10
    ensures WellFormed(BINARY_LABEL, SERVER) && WellFormed(WEB_LABEL, WEB)
  {
    assert WellFormed(PATH_B, File([])) && WellFormed(PATH_C, File([0x3C]));
    assert ValidName([0x61]) && ValidName([0x62]) && ValidName([0x63]);
    assert WellFormed(PATH_A, WEB_A);
  }

  lemma StreamNext(records: seq<Record>, r: Record)
    requires AllMeasured(records) && Measured(r)
    ensures AllMeasured(records + [r]) && Stream(records + [r]) == Stream(records) + RecordBytes(r)
  {
    StreamConcat(records, [r]);
    assert [r][1..] == [] && RecordBytes(r) + [] == RecordBytes(r);
  }

  lemma StreamOfFour(a: Record, b: Record, c: Record, d: Record)
    requires Measured(a) && Measured(b) && Measured(c) && Measured(d)
    ensures AllMeasured([a, b, c, d])
    ensures Stream([a, b, c, d]) == RecordBytes(a) + RecordBytes(b) + RecordBytes(c) + RecordBytes(d)
  {
    NoRecords();
    hide RecordBytes, Measured, Stream;
    assert [] + [a] == [a] && [a] + [b] == [a, b] && [a, b] + [c] == [a, b, c] && [a, b, c] + [d] == [a, b, c, d];
    StreamNext([], a);
    StreamNext([a], b);
    StreamNext([a, b], c);
    StreamNext([a, b, c], d);
    assert [] + RecordBytes(a) == RecordBytes(a);
  }

  lemma NoRecords()
    ensures Stream([]) == []
  {
  }

  /** The stream of that layout: the server, then the tree depth first by name, each object with its
      tag and its path behind its length, a file with its content behind its length. */
  method LayoutBytes() returns (r: Result<Bytes, ()>)
    ensures r.Ok? && r.value ==
                       ([0x66] + ([0, 0, 0, 0, 0, 0, 0, 19] + BINARY_LABEL + ([0, 0, 0, 0, 0, 0, 0, 1] + [0x7F])))
                       + ([0x64] + ([0, 0, 0, 0, 0, 0, 0, 10] + PATH_A))
                       + ([0x66] + ([0, 0, 0, 0, 0, 0, 0, 12] + PATH_B + ([0, 0, 0, 0, 0, 0, 0, 0] + [])))
                       + ([0x66] + ([0, 0, 0, 0, 0, 0, 0, 10] + PATH_C + ([0, 0, 0, 0, 0, 0, 0, 1] + [0x3C])))
  {
    PathsMeasured();
    WebRecords();
    SmallWord(19);
    SmallWord(10);
    SmallWord(12);
    SmallWord(1);
    SmallWord(0);
    hide WordBytes, Stream, LayoutRecords, BINARY_LABEL, PATH_A, PATH_B, PATH_C, WEB, SERVER, Hashable, WellFormed;
    StreamOfFour(FileRecord(BINARY_LABEL, [0x7F]), DirectoryRecord(PATH_A), FileRecord(PATH_B, []),
                 FileRecord(PATH_C, [0x3C]));
    r := HashLayoutOf(SERVER, WEB);
  }
}
