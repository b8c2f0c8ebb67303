/**
 Incremental lossy decoding of terminal output: the reader thread's pending buffer, the
 publication of decoded text and the trimmed scrollback.
 */
module PtyReader {
  import opened Prelude
  import opened Sorting

  type Bytes = seq<Byte>

  // ----- UTF-8, one character at a time -----

  predicate Continuation(b: Byte) { 0x80 <= b <= 0xBF }

  /** The character length a first byte announces; 0 for a byte that starts none. */
  function Width(b: Byte): nat {
    if b < 0x80 then 1 else if 0xC2 <= b <= 0xDF then 2
    else if 0xE0 <= b <= 0xEF then 3 else if 0xF0 <= b <= 0xF4 then 4 else 0
  }

  predicate SecondFits(first: Byte, second: Byte) {
    if first == 0xE0 then 0xA0 <= second <= 0xBF
    else if first == 0xED then 0x80 <= second <= 0x9F
    else if first == 0xF0 then 0x90 <= second <= 0xBF
    else if first == 0xF4 then 0x80 <= second <= 0x8F
    else Continuation(second)
  }

  /** What a decoder finds at the front of some bytes: a whole character of n bytes, n bytes that
      no continuation can save, or the beginning of a character that may still be completed. */
  datatype Piece = Whole(n: nat) | Broken(n: nat) | Short

  function First(s: Bytes): (p: Piece)
    requires s != []
    ensures p.Whole? || p.Broken? ==> 1 <= p.n <= |s|
  {
    var w := Width(s[0]);
    if w == 0 then Broken(1)
    else if w == 1 then Whole(1)
    else if |s| == 1 then Short
    else if !SecondFits(s[0], s[1]) then Broken(1)
    else if w == 2 then Whole(2)
    else if |s| == 2 then Short
    else if !Continuation(s[2]) then Broken(2)
    else if w == 3 then Whole(3)
    else if |s| == 3 then Short
    else if !Continuation(s[3]) then Broken(3)
    else Whole(4)
  }

  /** UTF8-char of section 4 of RFC 3629, alternative by alternative. */
  predicate Utf8Char(c: Bytes) {
    || (|c| == 1 && c[0] <= 0x7F)
    || (|c| == 2 && 0xC2 <= c[0] <= 0xDF && Continuation(c[1]))
    || (|c| == 3 && c[0] == 0xE0 && 0xA0 <= c[1] <= 0xBF && Continuation(c[2]))
    || (|c| == 3 && 0xE1 <= c[0] <= 0xEC && Continuation(c[1]) && Continuation(c[2]))
    || (|c| == 3 && c[0] == 0xED && 0x80 <= c[1] <= 0x9F && Continuation(c[2]))
    || (|c| == 3 && 0xEE <= c[0] <= 0xEF && Continuation(c[1]) && Continuation(c[2]))
    || (|c| == 4 && c[0] == 0xF0 && 0x90 <= c[1] <= 0xBF && Continuation(c[2]) && Continuation(c[3]))
    || (|c| == 4 && 0xF1 <= c[0] <= 0xF3 && Continuation(c[1]) && Continuation(c[2]) && Continuation(c[3]))
    || (|c| == 4 && c[0] == 0xF4 && 0x80 <= c[1] <= 0x8F && Continuation(c[2]) && Continuation(c[3]))
  }

  ghost predicate BeginsChar(p: Bytes) {
    exists c :: Utf8Char(c) && p <= c
  }

  /** A whole piece is exactly a UTF8-char; a short one is the beginning of one. */
  lemma FirstIsChar(s: Bytes)
    requires s != []
    ensures forall n :: 0 < n <= |s| ==> (First(s) == Whole(n) <==> Utf8Char(s[..n]))
    ensures First(s).Short? <==> BeginsChar(s) && forall n :: 0 < n <= |s| ==> !Utf8Char(s[..n])
  {
    if First(s).Short? { var _ := Completion(s); }
  }

  /** A character that completes a short piece, other than the replacement character. */
  lemma Completion(s: Bytes) returns (c: Bytes)
    requires s != [] && First(s).Short?
    ensures Utf8Char(c) && s <= c && c != REPLACEMENT && BeginsChar(s)
  {
    var w := Width(s[0]);
    var second: Byte := if |s| > 1 then s[1] else if s[0] == 0xE0 then 0xA0 else if s[0] == 0xF0 then 0x90 else 0x80;
    var third: Byte := if |s| > 2 then s[2] else 0x80;
    c := [s[0], second, third, 0x80][..w];
    assert Utf8Char(c) && s <= c;
  }

  /** A broken piece is the maximal subpart of section 3.9 of the Unicode Standard: the longest
      beginning of a character, or a single byte when there is none. */
  lemma BrokenIsMaximalSubpart(s: Bytes)
    requires s != [] && First(s).Broken?
    ensures var n := First(s).n;
            && (n == 1 || BeginsChar(s[..n]))
            && (forall k :: n < k <= |s| ==> !BeginsChar(s[..k]))
  {
    var n := First(s).n;
    if n > 1 {
      assert First(s[..n]).Short?;
      var _ := Completion(s[..n]);
    }
  }

  // ----- Whole-buffer decoding, as the standard library does it -----

  const REPLACEMENT: Bytes := [0xEF, 0xBF, 0xBD]

  /** String::from_utf8_lossy; a Rust string is its UTF-8 bytes. */
  function Lossy(s: Bytes): Bytes {
    if s == [] then []
    else match First(s)
      case Whole(n) => s[..n] + Lossy(s[n..])
      case Broken(n) => REPLACEMENT + Lossy(s[n..])
      case Short => REPLACEMENT
  }

  datatype Check = Valid | Invalid(validUpTo: nat, errorLen: Option<nat>)

  /** std::str::from_utf8: the first error's position and, unless the input just ends, its length. */
  function FromUtf8(s: Bytes): (c: Check)
    ensures c.Invalid? ==> c.validUpTo <= |s|
    ensures c.Invalid? && c.errorLen.Some? ==> c.validUpTo + c.errorLen.value <= |s|
  {
    if s == [] then Valid
    else match First(s)
      case Whole(n) =>
        var rest := FromUtf8(s[n..]);
        if rest.Valid? then Valid else Invalid(n + rest.validUpTo, rest.errorLen)
      case Broken(n) => Invalid(0, Some(n))
      case Short => Invalid(0, None)
  }

  predicate ValidUtf8(s: Bytes) { FromUtf8(s) == Valid }

  /** How much of the buffer the reader publishes. */
  function Publishable(s: Bytes): (n: nat)
    ensures n <= |s|
  {
    match FromUtf8(s)
    case Valid => |s|
    case Invalid(upTo, None) => upTo
    case Invalid(upTo, Some(n)) => upTo + n
  }

  lemma FirstStable(s: Bytes, y: Bytes)
    requires s != [] && !First(s).Short?
    ensures First(s + y) == First(s)
  {
  }

  lemma BrokenAlone(s: Bytes, n: nat)
    requires s != [] && First(s) == Broken(n)
    ensures Lossy(s[..n]) == REPLACEMENT
  {
    var p := s[..n];
    assert First(p).Short? || First(p) == Broken(n);
    assert p[n..] == [];
  }

  lemma {:induction false} PublishableNext(s: Bytes)
    requires s != []
    ensures Publishable(s) ==
            match First(s) case Whole(n) => n + Publishable(s[n..]) case Broken(n) => n case Short => 0
  {
  }

  /** A continuation that starts like the bytes at hand. */
  predicate Continues(back: Bytes, y: Bytes) {
    y != [] && back != [] ==> y[0] == back[0]
  }

  predicate SplitsAt(front: Bytes, y: Bytes) {
    Lossy(front + y) == Lossy(front) + Lossy(y)
  }

  /** Decoding splits at this point for every continuation that starts like the bytes at hand:
      the byte after a broken piece is what showed it to be broken. */
  ghost predicate SplitsBefore(front: Bytes, back: Bytes) {
    forall y :: Continues(back, y) ==> SplitsAt(front, y)
  }

  lemma BrokenSplits(s: Bytes, n: nat, y: Bytes)
    requires s != [] && First(s) == Broken(n) && Continues(s[n..], y)
    ensures SplitsAt(s[..n], y)
  {
    BrokenAlone(s, n);
    if y == [] {
      assert s[..n] + y == s[..n];
    } else {
      var t := s[..n] + y;
      assert forall i :: 0 <= i < n ==> t[i] == s[i];
      assert t[n] == y[0];
      assert First(t) == Broken(n);
      assert t[n..] == y;
    }
  }

  lemma LossyWhole(s: Bytes, n: nat)
    requires s != [] && First(s) == Whole(n)
    ensures Lossy(s) == s[..n] + Lossy(s[n..])
  {
  }

  lemma PrefixOfSum(a: Bytes, b: Bytes, n: nat)
    requires n <= |a|
    ensures (a + b)[n..] == a[n..] + b && (a + b)[..n] == a[..n]
  {
  }

  lemma WholeSplits(front: Bytes, n: nat, y: Bytes)
    requires front != [] && First(front) == Whole(n) && SplitsAt(front[n..], y)
    ensures SplitsAt(front, y)
  {
    FirstStable(front, y);
    LossyWhole(front, n);
    LossyWhole(front + y, n);
    PrefixOfSum(front, y, n);
    Associative(front[..n], Lossy(front[n..]), Lossy(y));
  }

  /** Decoding splits where the reader cuts its buffer. */
  lemma {:induction false} CutSplitsAt(s: Bytes, y: Bytes)
    requires Continues(s[Publishable(s)..], y)
    ensures SplitsAt(s[..Publishable(s)], y)
    decreases |s|
  {
    var v := Publishable(s);
    if s == [] || First(s).Short? {
      assert s[..0] + y == y;
    } else if First(s).Broken? {
      BrokenSplits(s, v, y);
    } else {
      var n := First(s).n;
      PublishableNext(s);
      assert s[v..] == s[n..][v - n..];
      CutSplitsAt(s[n..], y);
      assert s[..v][n..] == s[n..][..v - n];
      CharFirst(s, s[..v], n);
      WholeSplits(s[..v], n, y);
    }
  }

  lemma CharFirst(s: Bytes, front: Bytes, n: nat)
    requires s != [] && First(s) == Whole(n) && n <= |front| && front <= s
    ensures First(front) == Whole(n)
  {
    FirstIsChar(s);
    FirstIsChar(front);
    assert front[..n] == s[..n];
  }

  // ----- Valid text and its boundaries -----

  lemma {:induction false} ValidConcat(a: Bytes, b: Bytes)
    requires ValidUtf8(a) && ValidUtf8(b)
    ensures ValidUtf8(a + b)
    decreases |a|
  {
    if a == [] {
      assert a + b == b;
    } else {
      var n := First(a).n;
      FirstStable(a, b);
      assert (a + b)[n..] == a[n..] + b;
      ValidConcat(a[n..], b);
    }
  }

  lemma {:induction false} LossyIsValid(s: Bytes)
    ensures ValidUtf8(Lossy(s))
    decreases |s|
  {
    assert First(REPLACEMENT) == Whole(3) && REPLACEMENT[3..] == [];
    if s != [] {
      match First(s)
      case Whole(n) =>
        LossyIsValid(s[n..]);
        CharIsValid(s, n);
        ValidConcat(s[..n], Lossy(s[n..]));
      case Broken(n) =>
        LossyIsValid(s[n..]);
        ValidConcat(REPLACEMENT, Lossy(s[n..]));
      case Short =>
    }
  }

  lemma CharIsValid(s: Bytes, n: nat)
    requires s != [] && First(s) == Whole(n)
    ensures ValidUtf8(s[..n])
  {
    FirstIsChar(s);
    FirstIsChar(s[..n]);
    assert s[..n][..n] == s[..n];
    assert s[..n][n..] == [];
  }

  /** str::is_char_boundary. */
  predicate Boundary(s: Bytes, i: nat)
    requires i <= |s|
  {
    i == |s| || !Continuation(s[i])
  }

  lemma ValidStart(s: Bytes)
    requires ValidUtf8(s) && s != []
    ensures First(s).Whole? && !Continuation(s[0]) && ValidUtf8(s[First(s).n..])
  {
  }

  /** Cutting valid text at a boundary leaves valid text. */
  lemma {:induction false} BoundaryCut(s: Bytes, i: nat)
    requires ValidUtf8(s) && i <= |s| && Boundary(s, i)
    ensures ValidUtf8(s[i..])
    decreases |s|
  {
    if i == |s| {
      assert s[i..] == [];
    } else if i == 0 {
      assert s[0..] == s;
    } else {
      var n := First(s).n;
      CharBytes(s, n);
      BoundaryCut(s[n..], i - n);
      assert s[n..][i - n..] == s[i..];
    }
  }

  /** Inside a character there is no boundary. */
  lemma CharBytes(s: Bytes, n: nat)
    requires s != [] && First(s) == Whole(n)
    ensures n <= 4 && forall k :: 0 < k < n ==> Continuation(s[k])
  {
  }

  /** In valid text boundaries are at most three bytes ahead. */
  lemma {:induction false} BoundaryNear(s: Bytes, i: nat)
    requires ValidUtf8(s) && i <= |s|
    ensures exists j :: i <= j <= i + 3 && j <= |s| && Boundary(s, j)
    decreases |s|
  {
    if i == |s| {
      assert Boundary(s, i);
    } else {
      ValidStart(s);
      var n := First(s).n;
      if i == 0 {
        assert Boundary(s, 0);
      } else if i < n {
        CharBytes(s, n);
        if n < |s| { ValidStart(s[n..]); }
        assert Boundary(s, n);
      } else {
        BoundaryNear(s[n..], i - n);
        var j :| i - n <= j <= i - n + 3 && j <= |s[n..]| && Boundary(s[n..], j);
        assert Boundary(s, n + j);
      }
    }
  }

  // ----- The session's output -----

  const OUTPUT_LIMIT := 512 * 1024
  const OUTPUT_HIGH_WATER := 640 * 1024

  ghost predicate SuffixOf(a: Bytes, b: Bytes) {
    |a| <= |b| && a == b[|b| - |a|..]
  }

  class Session {
    var output: Bytes
    /** Every text sent to subscribers, in order. */
    ghost var published: Bytes

    ghost predicate Good()
      reads this
    {
      ValidUtf8(output) && SuffixOf(output, published) && |output| <= OUTPUT_HIGH_WATER
    }

    constructor ()
      ensures Good() && published == [] && output == []
    {
      output, published := [], [];
    }

    /** Drops the oldest text once the high-water mark is passed. */
    method TrimOutput()
      requires ValidUtf8(output)
      modifies this`output
      ensures ValidUtf8(output) && SuffixOf(output, old(output)) && |output| <= OUTPUT_HIGH_WATER
      ensures if |old(output)| <= OUTPUT_HIGH_WATER then output == old(output)
              else OUTPUT_LIMIT - 3 <= |output| <= OUTPUT_LIMIT
    {
      if |output| <= OUTPUT_HIGH_WATER { return; }
      var text := output;
      var start := |text| - OUTPUT_LIMIT;
      ghost var first := start;
      BoundaryNear(text, first);
      ghost var stop :| first <= stop <= first + 3 && stop <= |text| && Boundary(text, stop);
      while !Boundary(text, start)
        invariant first <= start <= stop
        decreases stop - start
      {
        start := start + 1;
      }
      BoundaryCut(text, start);
      output := text[start..];
    }

    /** Decodes, appends to the scrollback and sends to subscribers. */
    method PublishOutput(bytes: Bytes)
      requires Good()
      modifies this
      ensures Good() && published == old(published) + Lossy(bytes)
      ensures |old(output) + Lossy(bytes)| <= OUTPUT_HIGH_WATER ==> output == old(output) + Lossy(bytes)
    {
      var data := Lossy(bytes);
      LossyIsValid(bytes);
      ValidConcat(output, data);
      ghost var whole := output + data;
      SuffixGrows(output, published, data);
      output := output + data;
      TrimOutput();
      published := published + data;
      SuffixOfSuffix(output, whole, published);
    }
  }

  lemma SuffixGrows(a: Bytes, b: Bytes, c: Bytes)
    requires SuffixOf(a, b)
    ensures SuffixOf(a + c, b + c)
  {
    assert (b + c)[|b| - |a|..] == b[|b| - |a|..] + c;
  }

  lemma SuffixOfSuffix(a: Bytes, b: Bytes, c: Bytes)
    requires SuffixOf(a, b) && SuffixOf(b, c)
    ensures SuffixOf(a, c)
  {
    assert c[|c| - |a|..] == c[|c| - |b|..][|b| - |a|..];
  }

  // ----- The reader thread -----

  /** One `read` on the terminal: some bytes, end of file, or an error. */
  datatype Read = Data(bytes: Bytes) | EndOfFile | Failed

  /** The bytes received before the first end of file or error. */
  function Received(input: seq<Read>): Bytes {
    if input == [] || !input[0].Data? then [] else input[0].bytes + Received(input[1..])
  }

  /** The read that ends the loop, if one does. */
  function Ending(input: seq<Read>): Option<Read> {
    if input == [] then None else if !input[0].Data? then Some(input[0]) else Ending(input[1..])
  }

  /** What the reads before the first end of file or error returned. */
  function ReadsOf(input: seq<Read>): seq<Bytes> {
    if input == [] || !input[0].Data? then [] else [input[0].bytes] + ReadsOf(input[1..])
  }

  lemma {:induction false} ReadsStep(input: seq<Read>, i: nat)
    requires i < |input| && forall j :: 0 <= j < i ==> input[j].Data?
    ensures input[i].Data? ==> ReadsOf(input[..i + 1]) == ReadsOf(input[..i]) + [input[i].bytes]
    ensures !input[i].Data? ==> ReadsOf(input) == ReadsOf(input[..i])
    decreases i
  {
    if i == 0 {
      assert input[..0] == [];
      if input[0].Data? { assert input[..1][1..] == [] && ReadsOf([]) == []; }
    } else {
      ReadsStep(input[1..], i - 1);
      assert input[1..][..i - 1] == input[..i][1..] && input[1..][..i] == input[..i + 1][1..];
    }
  }

  /** What one more read leaves pending. */
  lemma BufferedStep(input: seq<Read>, i: nat)
    requires i < |input| && forall j :: 0 <= j < i ==> input[j].Data?
    ensures input[i].Data? ==>
              var all := Buffered(ReadsOf(input[..i])) + input[i].bytes;
              Buffered(ReadsOf(input[..i + 1])) == all[Publishable(all)..]
    ensures !input[i].Data? ==> Buffered(ReadsOf(input)) == Buffered(ReadsOf(input[..i]))
  {
    ReadsStep(input, i);
    if input[i].Data? {
      var chunks := ReadsOf(input[..i + 1]);
      assert chunks[..|chunks| - 1] == ReadsOf(input[..i]);
    }
  }

  lemma {:induction false} ReceivedStep(input: seq<Read>, i: nat)
    requires i < |input| && forall j :: 0 <= j < i ==> input[j].Data?
    ensures input[i].Data? ==> Received(input[..i + 1]) == Received(input[..i]) + input[i].bytes
    ensures !input[i].Data? ==> Received(input) == Received(input[..i]) && Ending(input) == Some(input[i])
    decreases i
  {
    if i == 0 {
      assert input[..0] == [];
      if input[0].Data? { assert input[..1][1..] == [] && Received([]) == []; }
    } else {
      ReceivedStep(input[1..], i - 1);
      assert input[1..][..i - 1] == input[..i][1..] && input[1..][..i] == input[..i + 1][1..];
    }
  }

  lemma {:induction false} NeverEnds(input: seq<Read>)
    requires forall j :: 0 <= j < |input| ==> input[j].Data?
    ensures Ending(input) == None
  {
    if input != [] { NeverEnds(input[1..]); }
  }

  lemma SplitsOn(consumed: Bytes, pending: Bytes, data: Bytes)
    requires SplitsBefore(consumed, pending)
    ensures var all := pending + data;
            var n := Publishable(all);
            && SplitsBefore(consumed + all[..n], all[n..])
            && Lossy(consumed + all[..n]) == Lossy(consumed) + Lossy(all[..n])
  {
    var all := pending + data;
    var n := Publishable(all);
    var front, back := all[..n], all[n..];
    ContinuesPending(pending, data, front, back, []);
    assert front + [] == front && SplitsAt(consumed, front);
    forall y | Continues(back, y) ensures SplitsAt(consumed + front, y) {
      CutSplitsAt(all, y);
      ContinuesPending(pending, data, front, back, y);
      SplitsThrough(consumed, front, y);
    }
  }

  lemma SplitsThrough(a: Bytes, b: Bytes, c: Bytes)
    requires SplitsAt(a, b + c) && SplitsAt(a, b) && SplitsAt(b, c)
    ensures SplitsAt(a + b, c)
  {
    Associative(a, b, c);
    Associative(Lossy(a), Lossy(b), Lossy(c));
  }

  lemma ContinuesPending(pending: Bytes, data: Bytes, front: Bytes, back: Bytes, y: Bytes)
    requires front + back == pending + data && Continues(back, y)
    ensures Continues(pending, front + y)
  {
    assert pending != [] ==> (pending + data)[0] == pending[0];
    assert front != [] ==> (front + back)[0] == front[0] && (front + y)[0] == front[0];
    if front == [] { assert front + y == y && front + back == back; }
  }

  /** What holds between two reads. */
  ghost predicate Progress(published: Bytes, consumed: Bytes, pending: Bytes, front: seq<Read>) {
    && published == Lossy(consumed)
    && consumed + pending == Received(front)
    && SplitsBefore(consumed, pending)
    && pending == Buffered(ReadsOf(front))
  }

  lemma AtStart()
    ensures Progress([], [], [], [])
  {
    assert forall y: Bytes :: [] + y == y;
  }

  lemma OneMoreRead(published: Bytes, consumed: Bytes, pending: Bytes, input: seq<Read>, i: nat)
    requires i < |input| && forall j :: 0 <= j <= i ==> input[j].Data?
    requires Progress(published, consumed, pending, input[..i])
    ensures var all := pending + input[i].bytes;
            var n := Publishable(all);
            && Progress(published + Lossy(all[..n]), consumed + all[..n], all[n..], input[..i + 1])
            && (n == 0 ==> Progress(published, consumed, all, input[..i + 1]))
  {
    hide Buffered, Publishable, SplitsBefore, SplitsAt, Received, ReadsOf, Lossy;
    var all := pending + input[i].bytes;
    var n := Publishable(all);
    ReceivedStep(input, i);
    BufferedStep(input, i);
    SplitsOn(consumed, pending, input[i].bytes);
    Regroup(consumed, pending, input[i].bytes, n);
    if n == 0 { NothingCut(published, consumed, all); }
  }

  lemma Regroup(consumed: Bytes, pending: Bytes, data: Bytes, n: nat)
    requires n <= |pending + data|
    ensures (consumed + (pending + data)[..n]) + (pending + data)[n..] == (consumed + pending) + data
  {
  }

  lemma NothingCut(published: Bytes, consumed: Bytes, all: Bytes)
    ensures all[0..] == all && consumed + all[..0] == consumed && published + Lossy(all[..0]) == published
  {
    assert all[..0] == [];
  }

  /** The read that ends the loop, and what publishing the pending bytes then gives. */
  lemma LastRead(published: Bytes, consumed: Bytes, pending: Bytes, input: seq<Read>, i: nat)
    requires i < |input| && !input[i].Data? && forall j :: 0 <= j < i ==> input[j].Data?
    requires Progress(published, consumed, pending, input[..i])
    ensures Ending(input) == Some(input[i])
    ensures published == Lossy(consumed) && consumed + pending == Received(input)
    ensures pending == Buffered(ReadsOf(input))
    ensures published + Lossy(pending) == Lossy(consumed + pending)
  {
    hide Buffered, Received, ReadsOf, Ending, Lossy;
    ReceivedStep(input, i);
    BufferedStep(input, i);
    assert SplitsAt(consumed, pending);
  }

  /** No end of file and no error among the reads given. */
  lemma NoLastRead(published: Bytes, consumed: Bytes, pending: Bytes, input: seq<Read>)
    requires forall j :: 0 <= j < |input| ==> input[j].Data?
    requires Progress(published, consumed, pending, input[..|input|])
    ensures Ending(input) == None
    ensures published == Lossy(consumed) && consumed + pending == Received(input)
    ensures pending == Buffered(ReadsOf(input))
  {
    NeverEnds(input);
    assert input[..|input|] == input;
  }

  /** The reader loop. However the bytes are split into reads, what has been published is the
      lossy decoding of the bytes consumed, and after a zero-length read that of the whole stream.
      A failed read ends the loop without publishing what is pending. */
  method ReadAll(session: Session, input: seq<Read>) returns (pending: Bytes, ghost consumed: Bytes)
    requires session.Good() && session.published == []
    modifies session
    ensures session.Good()
    ensures consumed + pending == Received(input)
    ensures session.published == Lossy(consumed)
    ensures Ending(input) == Some(EndOfFile) ==> pending == [] && session.published == Lossy(Received(input))
    ensures Ending(input) != Some(EndOfFile) ==> pending == Buffered(ReadsOf(input))
  {
    hide Progress, Publishable, Lossy, Received, ReadsOf, Buffered, Ending, Session.Good;
    pending, consumed := [], [];
    AtStart();
    for i := 0 to |input|
      invariant session.Good()
      invariant Progress(session.published, consumed, pending, input[..i])
      invariant forall j :: 0 <= j < i ==> input[j].Data?
    {
      if input[i].Failed? {
        LastRead(session.published, consumed, pending, input, i);
        return;
      }
      if input[i].EndOfFile? {
        LastRead(session.published, consumed, pending, input, i);
        if pending != [] {
          session.PublishOutput(pending);
          consumed, pending := consumed + pending, [];
        }
        return;
      }
      OneMoreRead(session.published, consumed, pending, input, i);
      pending := pending + input[i].bytes;
      var valid := Publishable(pending);
      if valid == 0 { continue; }
      session.PublishOutput(pending[..valid]);
      consumed, pending := consumed + pending[..valid], pending[valid..];
    }
    NoLastRead(session.published, consumed, pending, input);
  }

  // ----- What the reader holds back -----

  /** The text is the beginning of the decoding, whatever bytes follow. */
  ghost predicate Certain(s: Bytes, text: Bytes) {
    ValidUtf8(text) && forall y :: text <= Lossy(s + y)
  }

  /** More text is already certain than a read that leaves these bytes in the buffer publishes. */
  ghost predicate HeldBack(s: Bytes) {
    exists text :: Certain(s, text) && |text| > |Lossy(s[..Publishable(s)])|
  }

  /** Nothing, or the mere beginning of a character. */
  ghost predicate Unfinished(rest: Bytes) {
    rest == [] || (BeginsChar(rest) && forall n :: 0 < n <= |rest| ==> !Utf8Char(rest[..n]))
  }

  lemma UnfinishedIsShort(rest: Bytes)
    ensures Unfinished(rest) <==> rest == [] || First(rest).Short?
    ensures Unfinished(rest) ==> |rest| <= 3
  {
    if rest != [] { FirstIsChar(rest); }
  }

  lemma {:induction false} EndsShort(s: Bytes)
    requires FromUtf8(s).Invalid? && FromUtf8(s).errorLen.None?
    ensures FromUtf8(s).validUpTo < |s| && First(s[FromUtf8(s).validUpTo..]).Short?
    decreases |s|
  {
    if First(s).Whole? {
      var n := First(s).n;
      EndsShort(s[n..]);
      TailOfTail(s, n, FromUtf8(s[n..]).validUpTo);
    } else {
      assert s[0..] == s;
    }
  }

  lemma TailOfTail(s: Bytes, n: nat, k: nat)
    requires n + k <= |s|
    ensures s[n..][k..] == s[n + k..]
  {
  }

  /** What the buffer's remainder adds to the decoding. */
  lemma RestDecodes(s: Bytes, y: Bytes)
    requires Continues(s[Publishable(s)..], s[Publishable(s)..] + y)
    ensures Lossy(s + y) == Lossy(s[..Publishable(s)]) + Lossy(s[Publishable(s)..] + y)
  {
    var front, rest := s[..Publishable(s)], s[Publishable(s)..];
    CutSplitsAt(s, rest + y);
    Associative(front, rest, y);
    assert front + rest == s;
  }

  lemma {:induction false} ValidRest(a: Bytes, b: Bytes)
    requires ValidUtf8(a) && ValidUtf8(a + b)
    ensures ValidUtf8(b)
    decreases |a|
  {
    if a == [] {
      assert a + b == b;
    } else {
      FirstStable(a, b);
      var n := First(a).n;
      PrefixOfSum(a, b, n);
      ValidRest(a[n..], b);
    }
  }

  /** A decided remainder: its first piece decodes the same whatever follows. */
  lemma DecidedIsHeldBack(s: Bytes)
    requires !Unfinished(s[Publishable(s)..])
    ensures HeldBack(s)
  {
    var front, rest := s[..Publishable(s)], s[Publishable(s)..];
    UnfinishedIsShort(rest);
    var n := First(rest).n;
    var piece := if First(rest).Whole? then rest[..n] else REPLACEMENT;
    assert ValidUtf8(piece) by {
      if First(rest).Whole? {
        CharIsValid(rest, n);
      } else {
        assert First(REPLACEMENT) == Whole(3) && REPLACEMENT[3..] == [];
      }
    }
    var text := Lossy(front) + piece;
    LossyIsValid(front);
    ValidConcat(Lossy(front), piece);
    forall y ensures text <= Lossy(s + y) {
      RestDecodes(s, y);
      FirstStable(rest, y);
      PrefixOfSum(rest, y, n);
      Associative(Lossy(front), piece, Lossy((rest + y)[n..]));
    }
    assert Certain(s, text);
  }

  /** An unfinished remainder: the end of the stream and a completing byte decode differently. */
  lemma UnfinishedIsNotHeldBack(s: Bytes, text: Bytes)
    requires Unfinished(s[Publishable(s)..]) && Certain(s, text)
    ensures |text| <= |Lossy(s[..Publishable(s)])|
  {
    var front, rest := s[..Publishable(s)], s[Publishable(s)..];
    UnfinishedIsShort(rest);
    RestDecodes(s, []);
    assert rest + [] == rest && s + [] == s;
    if rest != [] && |text| > |Lossy(front)| {
      var c := Completion(rest);
      RestDecodes(s, c[|rest|..]);
      assert rest + c[|rest|..] == c;
      CharDecodes(c);
      var more := text[|Lossy(front)|..];
      CommonStart(Lossy(front), text, REPLACEMENT, c);
      LossyIsValid(front);
      ValidRest(Lossy(front), more);
      OneReplacement(more, c);
    }
  }

  lemma CharDecodes(c: Bytes)
    requires Utf8Char(c)
    ensures Lossy(c) == c
  {
    FirstIsChar(c);
    assert c[..|c|] == c && c[|c|..] == [];
  }

  lemma CommonStart(start: Bytes, text: Bytes, a: Bytes, b: Bytes)
    requires text <= start + a && text <= start + b && |text| > |start|
    ensures var more := text[|start|..];
            more != [] && text == start + more && more <= a && more <= b
  {
  }

  /** No valid text but the replacement character itself begins it. */
  lemma OneReplacement(more: Bytes, c: Bytes)
    requires ValidUtf8(more) && more != [] && more <= REPLACEMENT && more <= c && Utf8Char(c)
    ensures c == REPLACEMENT
  {
    ValidStart(more);
    assert more[0] == 0xEF && First(more) == Whole(3);
    assert more == REPLACEMENT;
  }

  /** A read leaves certain text unpublished exactly when what it publishes ends with a malformed
      piece and what follows that is neither nothing nor the mere beginning of a character. */
  lemma HeldBackExactly(s: Bytes)
    ensures HeldBack(s) <==>
              && FromUtf8(s).Invalid? && FromUtf8(s).errorLen.Some?
              && !Unfinished(s[FromUtf8(s).validUpTo + FromUtf8(s).errorLen.value..])
  {
    hide HeldBack, Unfinished, First;
    UnfinishedIsShort(s[Publishable(s)..]);
    if FromUtf8(s).Invalid? && FromUtf8(s).errorLen.None? { EndsShort(s); }
    HeldBackUnlessUnfinished(s);
  }

  lemma HeldBackUnlessUnfinished(s: Bytes)
    ensures HeldBack(s) <==> !Unfinished(s[Publishable(s)..])
  {
    hide Unfinished;
    if Unfinished(s[Publishable(s)..]) {
      if HeldBack(s) {
        var text :| Certain(s, text) && |text| > |Lossy(s[..Publishable(s)])|;
        UnfinishedIsNotHeldBack(s, text);
      }
    } else {
      DecidedIsHeldBack(s);
    }
  }

  lemma HeldBackExample()
    ensures HeldBack([0xFF, 0x41, 0x42])
  {
    var s: Bytes := [0xFF, 0x41, 0x42];
    assert FromUtf8(s) == Invalid(0, Some(1));
    assert s[1..] == [0x41, 0x42];
    UnfinishedIsShort(s[1..]);
    HeldBackExactly(s);
  }

  // ----- The backlog over many reads -----

  /** The pending bytes after some reads. */
  function Buffered(chunks: seq<Bytes>): Bytes {
    if chunks == [] then []
    else
      var all := Buffered(chunks[..|chunks| - 1]) + chunks[|chunks| - 1];
      all[Publishable(all)..]
  }

  function Joined(chunks: seq<Bytes>): Bytes {
    if chunks == [] then [] else Joined(chunks[..|chunks| - 1]) + chunks[|chunks| - 1]
  }

  function Repeated(b: Byte, n: nat): (s: Bytes)
    ensures |s| == n && forall i :: 0 <= i < n ==> s[i] == b
  {
    seq(n, _ => b)
  }

  /** n reads of k bytes that start no character leave n * (k - 1) of them pending: one is published
      per read, and the backlog has no bound. */
  lemma {:induction false} BacklogGrows(n: nat, k: nat)
    requires k > 0
    ensures n * (k - 1) >= 0
    ensures Buffered(seq(n, _ => Repeated(0xFF, k))) == Repeated(0xFF, n * (k - 1))
  {
    if n > 0 {
      var chunks := seq(n, _ => Repeated(0xFF, k));
      BacklogGrows(n - 1, k);
      assert chunks[..n - 1] == seq(n - 1, _ => Repeated(0xFF, k));
      var all := Repeated(0xFF, (n - 1) * (k - 1)) + Repeated(0xFF, k);
      assert First(all) == Broken(1) && Publishable(all) == 1;
      assert |all[1..]| == (n - 1) * (k - 1) + (k - 1) == n * (k - 1);
    }
  }

  /** After one read the backlog is an unfinished character, of at most three bytes, exactly when no
      certain text is held back. */
  lemma BacklogAfterRead(s: Bytes)
    ensures Unfinished(s[Publishable(s)..]) <==> !HeldBack(s)
    ensures !HeldBack(s) ==> |s[Publishable(s)..]| <= 3
  {
    HeldBackExactly(s);
    UnfinishedIsShort(s[Publishable(s)..]);
    if FromUtf8(s).Invalid? && FromUtf8(s).errorLen.None? { EndsShort(s); }
  }

  /** No malformed piece, though perhaps an unfinished character at the end. */
  predicate WellFormedSoFar(s: Bytes) {
    FromUtf8(s).Valid? || FromUtf8(s).errorLen.None?
  }

  lemma {:induction false} WellFormedPrefix(s: Bytes, y: Bytes)
    requires WellFormedSoFar(s + y)
    ensures WellFormedSoFar(s)
    ensures Publishable(s + y) == Publishable(s) + Publishable(s[Publishable(s)..] + y)
    decreases |s|
  {
    hide First;
    if s == [] || First(s).Short? {
      assert s[0..] + y == s + y;
    } else {
      FirstStable(s, y);
      var n := First(s).n;
      PrefixOfSum(s, y, n);
      WellFormedPrefix(s[n..], y);
      TailOfTail(s, n, Publishable(s[n..]));
    }
  }

  /** On well-formed text, however it is split into reads, the backlog is its unfinished last
      character: at most three bytes. */
  lemma {:induction false} WellFormedBacklog(chunks: seq<Bytes>)
    requires WellFormedSoFar(Joined(chunks))
    ensures Buffered(chunks) == Joined(chunks)[Publishable(Joined(chunks))..] && |Buffered(chunks)| <= 3
    decreases |chunks|
  {
    var s := Joined(chunks);
    if chunks != [] {
      var before, last := Joined(chunks[..|chunks| - 1]), chunks[|chunks| - 1];
      WellFormedPrefix(before, last);
      WellFormedBacklog(chunks[..|chunks| - 1]);
      var v := Publishable(before);
      PrefixOfSum(before, last, v);
      TailOfTail(s, v, Publishable(before[v..] + last));
    }
    if FromUtf8(s).Invalid? { EndsShort(s); }
    UnfinishedIsShort(s[Publishable(s)..]);
  }
}
