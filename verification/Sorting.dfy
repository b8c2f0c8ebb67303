/** Strict total orders, sorting, and the lexicographic order of strings and byte strings. */
module Sorting {

  type Byte = b: int | 0 <= b < 256

  /** A strict weak order: incomparable elements form classes. */
  ghost predicate StrictOrder<T(!new)>(less: (T, T) -> bool) {
    && (forall x :: !less(x, x))
    && (forall x, y, z :: less(x, y) && less(y, z) ==> less(x, z))
    && (forall x, y, z :: !less(x, y) && !less(y, z) ==> !less(x, z))
  }

  ghost predicate TotalOn<T>(less: (T, T) -> bool, s: seq<T>) {
    forall x, y :: x in s && y in s && x != y ==> less(x, y) || less(y, x)
  }

  ghost predicate Sorted<T>(less: (T, T) -> bool, s: seq<T>) {
    forall i, j :: 0 <= i < j < |s| ==> !less(s[j], s[i])
  }

  function Insert<T>(less: (T, T) -> bool, x: T, s: seq<T>): (r: seq<T>)
    ensures multiset(r) == multiset(s) + multiset{x}
  {
    if s == [] || !less(s[0], x) then [x] + s
    else
      assert s == [s[0]] + s[1..];
      [s[0]] + Insert(less, x, s[1..])
  }

  /** Stands for the library sorts; any of them gives this result (see SortedIsUnique). */
  function Sort<T>(less: (T, T) -> bool, s: seq<T>): (r: seq<T>)
    ensures multiset(r) == multiset(s)
  {
    if s == [] then []
    else
      assert s == [s[0]] + s[1..];
      Insert(less, s[0], Sort(less, s[1..]))
  }

  lemma InsertSorted<T(!new)>(less: (T, T) -> bool, x: T, s: seq<T>)
    requires StrictOrder(less) && Sorted(less, s)
    ensures Sorted(less, Insert(less, x, s))
  {
    if s != [] && less(s[0], x) {
      InsertSorted(less, x, s[1..]);
      var rest := Insert(less, x, s[1..]);
      forall j | 0 <= j < |rest| ensures !less(rest[j], s[0]) {
        assert rest[j] in multiset(rest);
        assert rest[j] == x || rest[j] in s[1..];
      }
    }
  }

  lemma SortSorted<T(!new)>(less: (T, T) -> bool, s: seq<T>)
    requires StrictOrder(less)
    ensures Sorted(less, Sort(less, s))
  {
    if s != [] {
      SortSorted(less, s[1..]);
      InsertSorted(less, s[0], Sort(less, s[1..]));
    }
  }

  lemma SortedHeads<T(!new)>(less: (T, T) -> bool, a: seq<T>, b: seq<T>)
    requires StrictOrder(less) && Sorted(less, a) && Sorted(less, b)
    requires a != [] && b != [] && a[0] in b && b[0] in a && TotalOn(less, a)
    ensures a[0] == b[0]
  {
    var i :| 0 <= i < |b| && b[i] == a[0];
    var j :| 0 <= j < |a| && a[j] == b[0];
    assert !less(b[i], b[0]) && !less(a[j], a[0]);
  }

  lemma SameSize<T>(a: seq<T>, b: seq<T>)
    requires multiset(a) == multiset(b)
    ensures |a| == |b|
    ensures forall x :: x in a <==> x in b
  {
    assert |multiset(a)| == |multiset(b)|;
    forall x ensures x in a <==> x in b { assert x in multiset(a) <==> x in multiset(b); }
  }

  lemma SameTails<T>(a: seq<T>, b: seq<T>)
    requires multiset(a) == multiset(b) && a != [] && b != [] && a[0] == b[0]
    ensures multiset(a[1..]) == multiset(b[1..])
    ensures a == [a[0]] + a[1..] && b == [b[0]] + b[1..]
  {
    assert a == [a[0]] + a[1..] && b == [b[0]] + b[1..];
    assert multiset(a[1..]) == multiset(a) - multiset{a[0]};
  }

  /** Two sorted arrangements of the same elements are the same sequence. */
  lemma {:induction false} SortedIsUnique<T(!new)>(less: (T, T) -> bool, a: seq<T>, b: seq<T>)
    requires StrictOrder(less) && Sorted(less, a) && Sorted(less, b)
    requires TotalOn(less, a) && multiset(a) == multiset(b)
    ensures a == b
  {
    SameSize(a, b);
    if a != [] {
      SortedHeads(less, a, b);
      SameTails(a, b);
      SortedIsUnique(less, a[1..], b[1..]);
    }
  }

  /** Sorting forgets the order in which the elements arrived. */
  lemma SortIgnoresOrder<T(!new)>(less: (T, T) -> bool, a: seq<T>, b: seq<T>)
    requires StrictOrder(less) && TotalOn(less, a) && multiset(a) == multiset(b)
    ensures Sort(less, a) == Sort(less, b)
  {
    SortSorted(less, a);
    SortSorted(less, b);
    SameSize(Sort(less, a), a);
    SortedIsUnique(less, Sort(less, a), Sort(less, b));
  }

  ghost predicate Distinct<T>(s: seq<T>) {
    forall i, j :: 0 <= i < j < |s| ==> s[i] != s[j]
  }

  lemma {:induction false} DistinctMultiset<T>(a: seq<T>, b: seq<T>)
    requires Distinct(a) && Distinct(b)
    requires forall x :: x in a <==> x in b
    ensures multiset(a) == multiset(b)
  {
    forall x ensures multiset(a)[x] == multiset(b)[x] {
      DistinctCount(a, x);
      DistinctCount(b, x);
    }
  }

  lemma {:induction false} DistinctCount<T>(s: seq<T>, x: T)
    requires Distinct(s)
    ensures multiset(s)[x] == if x in s then 1 else 0
  {
    if s != [] {
      assert s == [s[0]] + s[1..];
      DistinctCount(s[1..], x);
    }
  }

  lemma {:induction false} CountDistinct<T>(s: seq<T>)
    requires forall x :: multiset(s)[x] <= 1
    ensures Distinct(s)
  {
    forall i, j | 0 <= i < j < |s| ensures s[i] != s[j] {
      var front, back := s[..j], s[j..];
      assert s == front + back;
      assert multiset(s)[s[j]] == multiset(front)[s[j]] + multiset(back)[s[j]];
      assert back[0] == s[j] && s[j] in multiset(back);
      assert front[i] == s[i] && s[i] in multiset(front);
    }
  }

  lemma SortKeepsElements<T(!new)>(less: (T, T) -> bool, s: seq<T>)
    ensures forall x :: x in Sort(less, s) <==> x in s
    ensures |Sort(less, s)| == |s|
    ensures Distinct(s) ==> Distinct(Sort(less, s))
  {
    var r := Sort(less, s);
    SameSize(r, s);
    if Distinct(s) {
      forall x ensures multiset(r)[x] <= 1 { DistinctCount(s, x); }
      CountDistinct(r);
    }
  }

  // ----- Lexicographic order -----

  predicate LexLess<T(==)>(less: (T, T) -> bool, a: seq<T>, b: seq<T>) {
    b != [] && (a == [] || less(a[0], b[0]) || (a[0] == b[0] && LexLess(less, a[1..], b[1..])))
  }

  ghost predicate StrictTotalOrder<T(!new)>(less: (T, T) -> bool) {
    StrictOrder(less) && forall x, y :: x != y ==> less(x, y) || less(y, x)
  }

  lemma {:induction false} LexTotal<T(!new)>(less: (T, T) -> bool, a: seq<T>, b: seq<T>)
    requires StrictTotalOrder(less) && a != b
    ensures LexLess(less, a, b) || LexLess(less, b, a)
  {
    if a != [] && b != [] && a[0] == b[0] {
      assert a == [a[0]] + a[1..] && b == [b[0]] + b[1..];
      LexTotal(less, a[1..], b[1..]);
    }
  }

  lemma {:induction false} LexTransitive<T(!new)>(less: (T, T) -> bool, a: seq<T>, b: seq<T>, c: seq<T>)
    requires StrictTotalOrder(less) && LexLess(less, a, b) && LexLess(less, b, c)
    ensures LexLess(less, a, c)
  {
    if a != [] && a[0] == b[0] && b[0] == c[0] {
      LexTransitive(less, a[1..], b[1..], c[1..]);
    }
  }

  lemma {:induction false} LexIrreflexive<T(!new)>(less: (T, T) -> bool, a: seq<T>)
    requires StrictTotalOrder(less)
    ensures !LexLess(less, a, a)
  {
    if a != [] { LexIrreflexive(less, a[1..]); }
  }

  predicate CharLess(a: char, b: char) { a < b }

  predicate ByteLess(a: Byte, b: Byte) { a < b }

  /** The order of strings in Rust and of SQLite's BINARY collation: by code point. */
  predicate StringLess(a: string, b: string) { LexLess(CharLess, a, b) }

  predicate BytesLess(a: seq<Byte>, b: seq<Byte>) { LexLess(ByteLess, a, b) }

  lemma {:induction false} LexExactly<T(!new)>(less: (T, T) -> bool, a: seq<T>, b: seq<T>)
    ensures LexLess(less, a, b) <==>
            exists i :: 0 <= i <= |a| && i < |b| && a[..i] == b[..i] && (i < |a| ==> less(a[i], b[i]))
  {
    if a != [] && b != [] && a[0] == b[0] {
      var c, d := a[1..], b[1..];
      LexExactly(less, c, d);
      if i :| 0 <= i <= |c| && i < |d| && c[..i] == d[..i] && (i < |c| ==> less(c[i], d[i])) {
        assert a[..i + 1] == [a[0]] + c[..i] && b[..i + 1] == [b[0]] + d[..i];
      }
      if i :| 0 < i <= |a| && i < |b| && a[..i] == b[..i] && (i < |a| ==> less(a[i], b[i])) {
        assert c[..i - 1] == a[..i][1..] && d[..i - 1] == b[..i][1..];
      }
      assert a[..0] == b[..0];
    } else if a != [] && b != [] {
      assert a[..0] == b[..0];
      forall i | 0 < i <= |a| && i < |b| ensures a[..i] != b[..i] { assert a[..i][0] == a[0] && b[..i][0] == b[0]; }
    } else if b != [] {
      assert a[..0] == b[..0];
    }
  }

  /** One string comes before another when it has the smaller character, or none, where the two first
      differ; and so do byte strings. */
  lemma ComesBefore(a: string, b: string, c: seq<Byte>, d: seq<Byte>)
    ensures StringLess(a, b) <==>
            exists i :: 0 <= i <= |a| && i < |b| && a[..i] == b[..i] && (i < |a| ==> a[i] < b[i])
    ensures BytesLess(c, d) <==>
            exists i :: 0 <= i <= |c| && i < |d| && c[..i] == d[..i] && (i < |c| ==> c[i] < d[i])
  {
    LexExactly(CharLess, a, b);
    LexExactly(ByteLess, c, d);
  }

  lemma StringOrder()
    ensures StrictTotalOrder(StringLess)
  {
    forall a: string ensures !StringLess(a, a) { LexIrreflexive(CharLess, a); }
    forall a: string, b: string | a != b ensures StringLess(a, b) || StringLess(b, a) { LexTotal(CharLess, a, b); }
    forall a: string, b: string, c: string | StringLess(a, b) && StringLess(b, c) ensures StringLess(a, c) {
      LexTransitive(CharLess, a, b, c);
    }
    TotalIsWeak(StringLess);
  }

  lemma BytesOrder()
    ensures StrictTotalOrder(BytesLess)
  {
    forall a: seq<Byte> ensures !BytesLess(a, a) { LexIrreflexive(ByteLess, a); }
    forall a: seq<Byte>, b: seq<Byte> | a != b ensures BytesLess(a, b) || BytesLess(b, a) { LexTotal(ByteLess, a, b); }
    forall a: seq<Byte>, b: seq<Byte>, c: seq<Byte> | BytesLess(a, b) && BytesLess(b, c) ensures BytesLess(a, c) {
      LexTransitive(ByteLess, a, b, c);
    }
    TotalIsWeak(BytesLess);
  }

  lemma TotalIsWeak<T(!new)>(less: (T, T) -> bool)
    requires forall x :: !less(x, x)
    requires forall x, y :: x != y ==> less(x, y) || less(y, x)
    requires forall x, y, z :: less(x, y) && less(y, z) ==> less(x, z)
    ensures StrictTotalOrder(less)
  {
  }
}
