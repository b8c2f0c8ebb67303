/** Splitting strings at a character, as Rust's `str` methods do. */
module Strings {
  import opened Prelude

  /** str::split_once at the first occurrence. */
  function SplitOnce(s: string, c: char): Option<(string, string)> {
    if s == [] then None
    else if s[0] == c then Some(([], s[1..]))
    else match SplitOnce(s[1..], c)
      case None => None
      case Some(p) => Some(([s[0]] + p.0, p.1))
  }

  function CharSize(c: char): nat {
    if c < '\U{80}' then 1 else if c < '\U{800}' then 2 else if c < '\U{10000}' then 3 else 4
  }

  /** The length of the text's UTF-8 encoding. */
  function Utf8Size(s: string): nat {
    if s == [] then 0 else CharSize(s[0]) + Utf8Size(s[1..])
  }

  lemma {:induction false} Utf8AtLeast(s: string)
    ensures Utf8Size(s) >= |s|
  {
    if s != [] { Utf8AtLeast(s[1..]); }
  }

  /** The number of UTF-16 code units. */
  function Utf16Size(s: string): nat {
    if s == [] then 0 else (if s[0] < '\U{10000}' then 1 else 2) + Utf16Size(s[1..])
  }

  /** char::is_whitespace: the White_Space property of the Unicode Standard. */
  predicate WhiteSpace(c: char) {
    || '\U{9}' <= c <= '\U{D}' || c == ' ' || c == '\U{85}' || c == '\U{A0}' || c == '\U{1680}'
    || '\U{2000}' <= c <= '\U{200A}' || c == '\U{2028}' || c == '\U{2029}' || c == '\U{202F}' || c == '\U{205F}'
    || c == '\U{3000}'
  }

  function TrimStart(s: string): string {
    if s != [] && WhiteSpace(s[0]) then TrimStart(s[1..]) else s
  }

  function TrimEnd(s: string): string {
    if s != [] && WhiteSpace(s[|s| - 1]) then TrimEnd(s[..|s| - 1]) else s
  }

  /** str::trim. */
  function Trim(s: string): string {
    TrimEnd(TrimStart(s))
  }

  predicate Blank(s: string) {
    forall c :: c in s ==> WhiteSpace(c)
  }

  /** Neither end is white space. */
  predicate Tight(s: string) {
    s != [] ==> !WhiteSpace(s[0]) && !WhiteSpace(s[|s| - 1])
  }

  lemma {:induction false} TrimStartParts(s: string) returns (a: string)
    ensures s == a + TrimStart(s) && Blank(a) && (TrimStart(s) != [] ==> !WhiteSpace(TrimStart(s)[0]))
  {
    a := [];
    if s != [] && WhiteSpace(s[0]) {
      var rest := TrimStartParts(s[1..]);
      a := [s[0]] + rest;
      assert s == [s[0]] + s[1..];
    }
  }

  lemma {:induction false} TrimEndParts(s: string) returns (b: string)
    ensures s == TrimEnd(s) + b && Blank(b) && (TrimEnd(s) != [] ==> !WhiteSpace(TrimEnd(s)[|TrimEnd(s)| - 1]))
    decreases |s|
  {
    b := [];
    if s != [] && WhiteSpace(s[|s| - 1]) {
      var rest := TrimEndParts(s[..|s| - 1]);
      b := rest + [s[|s| - 1]];
      assert s == s[..|s| - 1] + [s[|s| - 1]];
    }
  }

  /** Trimming takes white space from both ends and nothing else. */
  lemma TrimExactly(s: string)
    ensures Tight(Trim(s)) && exists a, b :: Blank(a) && Blank(b) && s == a + Trim(s) + b
  {
    var a := TrimStartParts(s);
    var b := TrimEndParts(TrimStart(s));
    assert s == a + Trim(s) + b;
    if Trim(s) != [] { assert Trim(s)[0] == TrimStart(s)[0]; }
  }

  /** What trimming leaves, by positions. */
  lemma TrimmedBetween(s: string)
    ensures exists i, j :: 0 <= i <= j <= |s| && Trim(s) == s[i..j]
              && (forall k :: 0 <= k < i || j <= k < |s| ==> WhiteSpace(s[k]))
              && (i < j ==> !WhiteSpace(s[i]) && !WhiteSpace(s[j - 1]))
  {
    TrimExactly(s);
    var a, b :| Blank(a) && Blank(b) && s == a + Trim(s) + b;
    var i, j := |a|, |a| + |Trim(s)|;
    assert Trim(s) == s[i..j];
    forall k | 0 <= k < i || j <= k < |s| ensures WhiteSpace(s[k]) {
      if k < i { assert s[k] == a[k]; } else { assert s[k] == b[k - j]; }
    }
  }

  /** The white space of the Unicode Standard, by code point. */
  lemma WhiteSpaceExactly(c: char)
    ensures WhiteSpace(c) <==>
            c as int in {0x9, 0xA, 0xB, 0xC, 0xD, 0x20, 0x85, 0xA0, 0x1680, 0x2000, 0x2001, 0x2002, 0x2003, 0x2004,
                         0x2005, 0x2006, 0x2007, 0x2008, 0x2009, 0x200A, 0x2028, 0x2029, 0x202F, 0x205F, 0x3000}
  {
  }

  /** A character above U+FFFF counts for two UTF-16 units, any other for one. */
  lemma {:induction false} Utf16Exactly(a: string, c: char)
    ensures Utf16Size("") == 0 && Utf16Size(a + [c]) == Utf16Size(a) + if c as int > 0xFFFF then 2 else 1
  {
    if a == "" {
      assert a + [c] == [c] && [c][1..] == "";
    } else {
      Utf16Exactly(a[1..], c);
      assert (a + [c])[1..] == a[1..] + [c];
    }
  }

  /** str::split: one more piece than separators. */
  function SplitAll(s: string, c: char): (r: seq<string>)
    ensures r != []
  {
    if s == [] then [[]]
    else
      var rest := SplitAll(s[1..], c);
      if s[0] == c then [[]] + rest else [[s[0]] + rest[0]] + rest[1..]
  }

  lemma {:induction false} SplitOnceAt(a: string, c: char, b: string)
    requires c !in a
    ensures SplitOnce(a + [c] + b, c) == Some((a, b))
  {
    var s := a + [c] + b;
    if a == [] {
      assert s[1..] == b;
    } else {
      assert s[1..] == a[1..] + [c] + b;
      SplitOnceAt(a[1..], c, b);
      assert [a[0]] + a[1..] == a;
    }
  }

  lemma {:induction false} SplitOnceParts(s: string, c: char)
    requires SplitOnce(s, c).Some?
    ensures var (a, b) := SplitOnce(s, c).value; c !in a && s == a + [c] + b
  {
    if s[0] != c {
      SplitOnceParts(s[1..], c);
      assert s == [s[0]] + s[1..];
    }
  }

  lemma {:induction false} NoSplit(a: string, c: char)
    requires c !in a
    ensures SplitOnce(a, c) == None && SplitAll(a, c) == [a]
  {
    if a != [] {
      NoSplit(a[1..], c);
      assert [a[0]] + a[1..] == a;
    }
  }

  lemma {:induction false} SplitAllAt(a: string, c: char, b: string)
    requires c !in a
    ensures SplitAll(a + [c] + b, c) == [a] + SplitAll(b, c)
  {
    var s := a + [c] + b;
    if a == [] {
      assert s[1..] == b;
    } else {
      assert s[1..] == a[1..] + [c] + b;
      SplitAllAt(a[1..], c, b);
      assert [a[0]] + a[1..] == a;
    }
  }
}
