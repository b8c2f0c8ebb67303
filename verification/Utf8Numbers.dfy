/** The characters that the decoder recognises are the encodings of the Unicode scalar values. */
module Utf8Numbers {
  import opened Prelude
  import opened Sorting
  import opened PtyReader
  import Strings

  /** A Unicode scalar value: a code point that is no surrogate. */
  predicate Scalar(n: int) {
    0 <= n <= 0x10FFFF && !(0xD800 <= n <= 0xDFFF)
  }

  /** Section 3 of RFC 3629: the bits of the number, six to a byte after the first. */
  function Encoded(n: int): Bytes
    requires Scalar(n)
  {
    if n < 0x80 then [n]
    else if n < 0x800 then [0xC0 + n / 64, 0x80 + n % 64]
    else if n < 0x1_0000 then [0xE0 + n / 4096, 0x80 + n / 64 % 64, 0x80 + n % 64]
    else [0xF0 + n / 262144, 0x80 + n / 4096 % 64, 0x80 + n / 64 % 64, 0x80 + n % 64]
  }

  /** The number that the bytes of a character spell. */
  function Decoded(c: Bytes): int
    requires 1 <= |c| <= 4
  {
    var a: int := c[0];
    if |c| == 1 then a
    else
      var b: int := c[1];
      if |c| == 2 then 64 * (a - 0xC0) + (b - 0x80)
      else
        var d: int := c[2];
        if |c| == 3 then 64 * (64 * (a - 0xE0) + (b - 0x80)) + (d - 0x80)
        else
          var e: int := c[3];
          64 * (64 * (64 * (a - 0xF0) + (b - 0x80)) + (d - 0x80)) + (e - 0x80)
  }

  lemma SixBits(x: int, y: int)
    requires x >= 0 && 0 <= y < 64
    ensures (64 * x + y) / 64 == x && (64 * x + y) % 64 == y
  {
  }

  lemma SixMore(n: int)
    requires n >= 0
    ensures n / 4096 == n / 64 / 64 && n / 262144 == n / 64 / 64 / 64 && n == 64 * (n / 64) + n % 64
  {
  }

  lemma EncodedIsChar(n: int)
    requires Scalar(n)
    ensures Utf8Char(Encoded(n)) && Decoded(Encoded(n)) == n
  {
    if n < 0x1_0000 { ShortIsChar(n); } else { LongIsChar(n); }
  }

  lemma ShortIsChar(n: int)
    requires Scalar(n) && n < 0x1_0000
    ensures Utf8Char(Encoded(n)) && Decoded(Encoded(n)) == n
  {
    SixMore(n);
    SixMore(n / 64);
  }

  lemma LongIsChar(n: int)
    requires Scalar(n) && n >= 0x1_0000
    ensures Utf8Char(Encoded(n)) && Decoded(Encoded(n)) == n
  {
    SixMore(n);
    SixMore(n / 64);
    SixMore(n / 4096);
  }

  lemma CharIsEncoded(c: Bytes)
    requires Utf8Char(c)
    ensures Scalar(Decoded(c)) && Encoded(Decoded(c)) == c
  {
    if |c| == 2 { SixBits(c[0] - 0xC0, c[1] - 0x80); }
    if |c| == 3 { ThreeEncoded(c); }
    if |c| == 4 { FourEncoded(c); }
  }

  lemma ThreeEncoded(c: Bytes)
    requires Utf8Char(c) && |c| == 3
    ensures Scalar(Decoded(c)) && Encoded(Decoded(c)) == c
  {
    var a: int, b: int, d: int := c[0], c[1], c[2];
    SixBits(64 * (a - 0xE0) + (b - 0x80), d - 0x80);
    SixBits(a - 0xE0, b - 0x80);
    SixMore(Decoded(c));
  }

  lemma FourEncoded(c: Bytes)
    requires Utf8Char(c) && |c| == 4
    ensures Scalar(Decoded(c)) && Encoded(Decoded(c)) == c
  {
    var a: int, b: int, d: int, e: int := c[0], c[1], c[2], c[3];
    SixBits(64 * (64 * (a - 0xF0) + (b - 0x80)) + (d - 0x80), e - 0x80);
    SixBits(64 * (a - 0xF0) + (b - 0x80), d - 0x80);
    SixBits(a - 0xF0, b - 0x80);
    SixMore(Decoded(c));
  }

  /** The byte strings taken for characters are exactly the encodings of scalar values, each of one;
      what stands for ill-formed input is the encoding of U+FFFD. */
  lemma CharsAreEncodings(c: Bytes)
    ensures Utf8Char(c) <==> exists n :: Scalar(n) && Encoded(n) == c
    ensures forall n, m :: Scalar(n) && Scalar(m) && Encoded(n) == Encoded(m) ==> n == m
    ensures REPLACEMENT == Encoded(0xFFFD)
  {
    if Utf8Char(c) { CharIsEncoded(c); }
    forall n | Scalar(n) ensures Utf8Char(Encoded(n)) && Decoded(Encoded(n)) == n { EncodedIsChar(n); }
  }

  /** The length in bytes of a text is that of its characters' encodings. */
  lemma {:induction false} TextSize(a: string, c: char)
    ensures Strings.Utf8Size("") == 0 && Strings.Utf8Size(a + [c]) == Strings.Utf8Size(a) + |Encoded(c as int)|
  {
    if a == "" {
      assert a + [c] == [c] && [c][1..] == "";
    } else {
      TextSize(a[1..], c);
      assert (a + [c])[1..] == a[1..] + [c];
    }
  }

  /** Decoding piece by piece: a character stands for itself; the beginning of one at the very end,
      and otherwise the longest beginning or else a single byte, for the replacement character. */
  lemma LossyByPieces(s: Bytes)
    requires s != []
    ensures Lossy([]) == []
    ensures forall n :: 0 < n <= |s| && Utf8Char(s[..n]) ==> Lossy(s) == s[..n] + Lossy(s[n..])
    ensures BeginsChar(s) && (forall n :: 0 < n <= |s| ==> !Utf8Char(s[..n])) ==> Lossy(s) == [0xEF, 0xBF, 0xBD]
    ensures !BeginsChar(s) && (forall n :: 0 < n <= |s| ==> !Utf8Char(s[..n])) ==>
              exists n :: 0 < n <= |s| && (n == 1 || BeginsChar(s[..n]))
                && (forall k :: n < k <= |s| ==> !BeginsChar(s[..k]))
                && Lossy(s) == [0xEF, 0xBF, 0xBD] + Lossy(s[n..])
  {
    FirstIsChar(s);
    if First(s).Broken? {
      BrokenIsMaximalSubpart(s);
      var n := First(s).n;
      assert n == 1 || BeginsChar(s[..n]);
      assert Lossy(s) == [0xEF, 0xBF, 0xBD] + Lossy(s[n..]);
    }
    hide Utf8Char, BeginsChar;
    if First(s).Whole? { assert Utf8Char(s[..First(s).n]); }
  }

  /** Valid text is characters one after the other. */
  lemma ValidByPieces(s: Bytes)
    ensures ValidUtf8(s) <==> s == [] || exists n :: 0 < n <= |s| && Utf8Char(s[..n]) && ValidUtf8(s[n..])
  {
    if s != [] {
      FirstIsChar(s);
      hide Utf8Char;
      if First(s).Whole? { assert Utf8Char(s[..First(s).n]); }
    }
  }

  lemma ShortEnding(s: Bytes) returns (y: Bytes)
    requires s != [] && First(s).Short?
    ensures ValidUtf8(s + y)
  {
    var c := Completion(s);
    y := c[|s|..];
    assert s + y == c;
    CharDecodes(c);
  }

  lemma NextValid(s: Bytes, y: Bytes, n: nat)
    requires s != [] && First(s) == Whole(n) && ValidUtf8(s[n..] + y)
    ensures ValidUtf8(s + y)
  {
    FirstStable(s, y);
    assert (s + y)[n..] == s[n..] + y;
    hide First;
  }

  lemma {:induction false} Ending(s: Bytes) returns (y: Bytes)
    requires WellFormedSoFar(s)
    ensures ValidUtf8(s + y)
    decreases |s|
  {
    hide First;
    if s == [] {
      y := [];
    } else if First(s).Short? {
      y := ShortEnding(s);
    } else {
      y := Ending(s[First(s).n..]);
      NextValid(s, y, First(s).n);
    }
  }

  /** Bytes are well-formed so far exactly when something can follow them that makes them valid text. */
  lemma WellFormedCanEnd(s: Bytes)
    ensures WellFormedSoFar(s) <==> exists y: Bytes :: ValidUtf8(s + y)
  {
    if y: Bytes :| ValidUtf8(s + y) { WellFormedPrefix(s, y); }
    if WellFormedSoFar(s) { var y := Ending(s); }
  }
}
