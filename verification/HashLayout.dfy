/**
 The byte stream that a release hash is computed over: the server binary, then the web tree,
 depth first in name order, with full-path labels and length prefixes.
 */
module HashLayout {
  import opened Prelude
  import opened Sorting
  import opened Fingerprint

  type Bytes = seq<Byte>

  /** A file-system object; a directory maps names to objects. `Special` is a symlink or
      anything else that is neither a regular file nor a directory. */
  datatype Node = File(content: Bytes) | Directory(entries: map<Bytes, Node>) | Special

  const SLASH: Byte := 0x2F
  const TAG_FILE: Byte := 0x66
  const TAG_DIRECTORY: Byte := 0x64

  /** "bin/devhatch-server" and "web/dist". */
  const BINARY_LABEL: Bytes := [0x62, 0x69, 0x6E, 0x2F, 0x64, 0x65, 0x76, 0x68, 0x61, 0x74, 0x63, 0x68,
                                0x2D, 0x73, 0x65, 0x72, 0x76, 0x65, 0x72]
  const WEB_LABEL: Bytes := [0x77, 0x65, 0x62, 0x2F, 0x64, 0x69, 0x73, 0x74]

  predicate ValidName(name: Bytes) {
    name != [] && SLASH !in name
  }

  /** Names no file system hands out aside, every length fits the 64-bit prefixes. */
  ghost predicate WellFormed(path: Bytes, node: Node)
    decreases node
  {
    |path| < WORD && match node
      case File(content) => |content| < WORD
      case Directory(entries) => forall name :: name in entries ==>
        ValidName(name) && WellFormed(path + [SLASH] + name, entries[name])
      case Special => true
  }

  ghost predicate Regular(node: Node) {
    match node
    case File(_) => true
    case Directory(entries) => forall name :: name in entries ==> Regular(entries[name])
    case Special => false
  }

  // ----- Directory order -----

  ghost predicate OrderOf(names: seq<Bytes>, keys: set<Bytes>) {
    Sorted(BytesLess, names) && Distinct(names) && forall name :: name in names <==> name in keys
  }

  lemma {:induction false} OrderExists(keys: set<Bytes>)
    ensures exists names :: OrderOf(names, keys)
  {
    if keys == {} {
      assert OrderOf([], keys);
    } else {
      var key :| key in keys;
      OrderExists(keys - {key});
      var rest :| OrderOf(rest, keys - {key});
      InsertedOrder(key, rest, keys - {key});
      assert keys - {key} + {key} == keys;
    }
  }

  lemma InsertedOrder(key: Bytes, rest: seq<Bytes>, keys: set<Bytes>)
    requires key !in keys && OrderOf(rest, keys)
    ensures OrderOf(Insert(BytesLess, key, rest), keys + {key})
  {
    BytesOrder();
    InsertSorted(BytesLess, key, rest);
    var names := Insert(BytesLess, key, rest);
    forall name ensures multiset(names)[name] <= 1 && (name in names <==> name in keys + {key}) {
      DistinctCount(rest, name);
      assert name in names <==> name in multiset(names);
    }
    CountDistinct(names);
  }

  lemma OrderUnique(a: seq<Bytes>, b: seq<Bytes>, keys: set<Bytes>)
    requires OrderOf(a, keys) && OrderOf(b, keys)
    ensures a == b
  {
    BytesOrder();
    DistinctMultiset(a, b);
    SortedIsUnique(BytesLess, a, b);
  }

  /** The directory's names sorted; the same whatever order the directory lists them in. */
  ghost function Ordered(keys: set<Bytes>): (names: seq<Bytes>)
    ensures OrderOf(names, keys)
  {
    OrderExists(keys);
    var names :| OrderOf(names, keys);
    names
  }

  // ----- The stream, as records -----

  datatype Record = FileRecord(path: Bytes, content: Bytes) | DirectoryRecord(path: Bytes)

  ghost function Records(path: Bytes, node: Node): seq<Record>
    decreases node, 1
  {
    match node
    case File(content) => [FileRecord(path, content)]
    case Directory(entries) => [DirectoryRecord(path)] + Level(path, node, Ordered(entries.Keys))
    case Special => []
  }

  /** The records of some of a directory's entries, in the order given. */
  ghost function Level(prefix: Bytes, dir: Node, names: seq<Bytes>): seq<Record>
    requires dir.Directory? && forall name :: name in names ==> name in dir.entries
    decreases dir, 0, |names|
  {
    if names == [] then []
    else Records(prefix + [SLASH] + names[0], dir.entries[names[0]]) + Level(prefix, dir, names[1..])
  }

  predicate Measured(r: Record) {
    |r.path| < WORD && (r.FileRecord? ==> |r.content| < WORD)
  }

  function RecordBytes(r: Record): (bytes: Bytes)
    requires Measured(r)
    ensures bytes != []
  {
    match r
    case FileRecord(path, content) => [TAG_FILE] + (LengthPrefixed(path) + LengthPrefixed(content))
    case DirectoryRecord(path) => [TAG_DIRECTORY] + LengthPrefixed(path)
  }

  ghost predicate AllMeasured(records: seq<Record>) {
    forall r :: r in records ==> Measured(r)
  }

  ghost function Stream(records: seq<Record>): Bytes
    requires AllMeasured(records)
  {
    if records == [] then [] else RecordBytes(records[0]) + Stream(records[1..])
  }

  lemma {:induction false} StreamConcat(a: seq<Record>, b: seq<Record>)
    requires AllMeasured(a) && AllMeasured(b)
    ensures AllMeasured(a + b) && Stream(a + b) == Stream(a) + Stream(b)
  {
    if a == [] {
      assert a + b == b;
    } else {
      var r, tail := a[0], a[1..];
      assert a == [r] + tail && a + b == [r] + (tail + b);
      StreamConcat(tail, b);
      StreamCons(r, tail);
      StreamCons(r, tail + b);
      Associative(RecordBytes(r), Stream(tail), Stream(b));
    }
  }

  lemma StreamCons(r: Record, rest: seq<Record>)
    requires Measured(r) && AllMeasured(rest)
    ensures AllMeasured([r] + rest) && Stream([r] + rest) == RecordBytes(r) + Stream(rest)
  {
    assert ([r] + rest)[1..] == rest;
  }

  lemma {:induction false} RecordsMeasured(path: Bytes, node: Node)
    requires WellFormed(path, node)
    ensures AllMeasured(Records(path, node))
    decreases node, 1
  {
    if node.Directory? { LevelMeasured(path, node, Ordered(node.entries.Keys)); }
  }

  lemma {:induction false} LevelMeasured(prefix: Bytes, dir: Node, names: seq<Bytes>)
    requires dir.Directory? && WellFormed(prefix, dir) && forall name :: name in names ==> name in dir.entries
    ensures AllMeasured(Level(prefix, dir, names))
    decreases dir, 0, |names|
  {
    if names != [] {
      RecordsMeasured(prefix + [SLASH] + names[0], dir.entries[names[0]]);
      LevelMeasured(prefix, dir, names[1..]);
    }
  }

  // ----- The bytes determine the records -----

  lemma RecordPrefixFree(a: Record, b: Record, x: Bytes, y: Bytes)
    requires Measured(a) && Measured(b) && RecordBytes(a) + x == RecordBytes(b) + y
    ensures a == b && x == y
  {
    SplitRecord(a, x);
    SplitRecord(b, y);
    HeadAndTail(RecordBytes(a)[0], RecordBytes(b)[0], LengthPrefixed(a.path) + AfterPath(a, x),
                LengthPrefixed(b.path) + AfterPath(b, y));
    LengthPrefixedPrefixFree(a.path, b.path, AfterPath(a, x), AfterPath(b, y));
    if a.FileRecord? { LengthPrefixedPrefixFree(a.content, b.content, x, y); }
  }

  function AfterPath(r: Record, rest: Bytes): Bytes
    requires Measured(r)
  {
    if r.FileRecord? then LengthPrefixed(r.content) + rest else rest
  }

  lemma SplitRecord(r: Record, rest: Bytes)
    requires Measured(r)
    ensures RecordBytes(r) + rest == [RecordBytes(r)[0]] + (LengthPrefixed(r.path) + AfterPath(r, rest))
  {
    if r.FileRecord? {
      Associative([TAG_FILE], LengthPrefixed(r.path) + LengthPrefixed(r.content), rest);
      Associative(LengthPrefixed(r.path), LengthPrefixed(r.content), rest);
    } else {
      Associative([TAG_DIRECTORY], LengthPrefixed(r.path), rest);
    }
  }

  lemma SameFirstRecord(a: seq<Record>, b: seq<Record>)
    requires AllMeasured(a) && AllMeasured(b) && a != [] && b != [] && Stream(a) == Stream(b)
    ensures AllMeasured(a[1..]) && AllMeasured(b[1..])
    ensures a[0] == b[0] && Stream(a[1..]) == Stream(b[1..])
  {
    RecordPrefixFree(a[0], b[0], Stream(a[1..]), Stream(b[1..]));
  }

  lemma {:induction false} StreamInjective(a: seq<Record>, b: seq<Record>)
    requires AllMeasured(a) && AllMeasured(b) && Stream(a) == Stream(b)
    ensures a == b
  {
    StreamEmpty(a);
    StreamEmpty(b);
    if a != [] {
      SameFirstRecord(a, b);
      StreamInjective(a[1..], b[1..]);
      assert a == [a[0]] + a[1..] && b == [b[0]] + b[1..];
    }
  }

  lemma StreamEmpty(a: seq<Record>)
    requires AllMeasured(a)
    ensures a == [] <==> Stream(a) == []
  {
  }

  // ----- The records determine the tree -----

  predicate Under(prefix: Bytes, path: Bytes) {
    prefix + [SLASH] <= path
  }

  /** What follows a directory's records does not look like one more entry of it. */
  predicate Outside(prefix: Bytes, rest: seq<Record>) {
    rest != [] ==> !Under(prefix, rest[0].path)
  }

  lemma LevelStart(prefix: Bytes, dir: Node, names: seq<Bytes>)
    requires dir.Directory? && Regular(dir) && (forall name :: name in names ==> name in dir.entries) && names != []
    ensures var level := Level(prefix, dir, names);
            level != [] && level[0].path == prefix + [SLASH] + names[0] && Under(prefix, level[0].path)
  {
    var first := dir.entries[names[0]];
    assert Regular(first);
    assert Records(prefix + [SLASH] + names[0], first)[0].path == prefix + [SLASH] + names[0];
  }

  /** A sibling is not under an entry, because names contain no slash. */
  lemma SiblingOutside(prefix: Bytes, name: Bytes, other: Bytes)
    requires ValidName(other)
    ensures !Under(prefix + [SLASH] + name, prefix + [SLASH] + other)
  {
    var path, sibling := prefix + [SLASH] + name, prefix + [SLASH] + other;
    if |sibling| > |path| {
      assert sibling[|path|] == other[|name|];
      assert other[|name|] in other;
    }
  }

  lemma NextOutside(prefix: Bytes, dir: Node, names: seq<Bytes>, rest: seq<Record>)
    requires dir.Directory? && Regular(dir) && (forall name :: name in names ==> name in dir.entries && ValidName(name))
    requires names != [] && Outside(prefix, rest)
    ensures Outside(prefix + [SLASH] + names[0], Level(prefix, dir, names[1..]) + rest)
  {
    if |names| > 1 {
      LevelStart(prefix, dir, names[1..]);
      assert names[1] in names;
      SiblingOutside(prefix, names[0], names[1]);
    } else {
      assert Level(prefix, dir, names[1..]) + rest == rest;
    }
  }

  lemma {:induction false} LevelUnique(prefix: Bytes, d1: Node, ns1: seq<Bytes>, d2: Node, ns2: seq<Bytes>,
                                       rest1: seq<Record>, rest2: seq<Record>)
    requires d1.Directory? && Regular(d1) && WellFormed(prefix, d1) && forall name :: name in ns1 ==> name in d1.entries
    requires d2.Directory? && Regular(d2) && WellFormed(prefix, d2) && forall name :: name in ns2 ==> name in d2.entries
    requires Outside(prefix, rest1) && Outside(prefix, rest2)
    requires Level(prefix, d1, ns1) + rest1 == Level(prefix, d2, ns2) + rest2
    ensures ns1 == ns2 && rest1 == rest2 && forall name :: name in ns1 ==> d1.entries[name] == d2.entries[name]
    decreases d1, 0, |ns1|
  {
    BothEnd(prefix, d1, ns1, d2, ns2, rest1, rest2);
    if ns1 != [] {
      var name, tail1, tail2 := ns1[0], ns1[1..], ns2[1..];
      SameFirstName(prefix, d1, ns1, d2, ns2, rest1, rest2);
      NextOutside(prefix, d1, ns1, rest1);
      NextOutside(prefix, d2, ns2, rest2);
      var after1, after2 := Level(prefix, d1, tail1) + rest1, Level(prefix, d2, tail2) + rest2;
      LevelSplit(prefix, d1, ns1, rest1);
      LevelSplit(prefix, d2, ns2, rest2);
      NodeUnique(prefix + [SLASH] + name, d1.entries[name], d2.entries[name], after1, after2);
      LevelUnique(prefix, d1, tail1, d2, tail2, rest1, rest2);
      assert ns1 == [name] + tail1 && ns2 == [name] + tail2;
    } else {
      assert Level(prefix, d1, ns1) + rest1 == rest1 && Level(prefix, d2, ns2) + rest2 == rest2;
    }
  }

  lemma LevelSplit(prefix: Bytes, dir: Node, names: seq<Bytes>, rest: seq<Record>)
    requires dir.Directory? && (forall name :: name in names ==> name in dir.entries) && names != []
    ensures Level(prefix, dir, names) + rest ==
              Records(prefix + [SLASH] + names[0], dir.entries[names[0]]) + (Level(prefix, dir, names[1..]) + rest)
  {
  }

  lemma BothEnd(prefix: Bytes, d1: Node, ns1: seq<Bytes>, d2: Node, ns2: seq<Bytes>, rest1: seq<Record>,
                rest2: seq<Record>)
    requires d1.Directory? && Regular(d1) && forall name :: name in ns1 ==> name in d1.entries
    requires d2.Directory? && Regular(d2) && forall name :: name in ns2 ==> name in d2.entries
    requires Outside(prefix, rest1) && Outside(prefix, rest2)
    requires Level(prefix, d1, ns1) + rest1 == Level(prefix, d2, ns2) + rest2
    ensures ns1 == [] <==> ns2 == []
  {
    if ns1 != [] { LevelStart(prefix, d1, ns1); }
    if ns2 != [] { LevelStart(prefix, d2, ns2); }
    var all := Level(prefix, d1, ns1) + rest1;
    assert ns1 == [] ==> all == rest1;
    assert ns2 == [] ==> all == rest2;
  }

  lemma SameFirstName(prefix: Bytes, d1: Node, ns1: seq<Bytes>, d2: Node, ns2: seq<Bytes>, rest1: seq<Record>,
                      rest2: seq<Record>)
    requires d1.Directory? && Regular(d1) && forall name :: name in ns1 ==> name in d1.entries
    requires d2.Directory? && Regular(d2) && forall name :: name in ns2 ==> name in d2.entries
    requires ns1 != [] && ns2 != []
    requires Level(prefix, d1, ns1) + rest1 == Level(prefix, d2, ns2) + rest2
    ensures ns1[0] == ns2[0]
  {
    LevelStart(prefix, d1, ns1);
    LevelStart(prefix, d2, ns2);
    var path := (Level(prefix, d1, ns1) + rest1)[0].path;
    assert path == prefix + [SLASH] + ns1[0] && path == prefix + [SLASH] + ns2[0];
    assert path[|prefix| + 1..] == ns1[0] && path[|prefix| + 1..] == ns2[0];
  }

  lemma {:induction false} NodeUnique(path: Bytes, n1: Node, n2: Node, rest1: seq<Record>, rest2: seq<Record>)
    requires Regular(n1) && WellFormed(path, n1) && Regular(n2) && WellFormed(path, n2)
    requires Outside(path, rest1) && Outside(path, rest2)
    requires Records(path, n1) + rest1 == Records(path, n2) + rest2
    ensures n1 == n2 && rest1 == rest2
    decreases n1, 1
  {
    var all := Records(path, n1) + rest1;
    assert all[0] == Records(path, n1)[0] && all[0] == Records(path, n2)[0];
    if n1.File? {
      assert all[1..] == rest1 && all[1..] == rest2;
    } else {
      assert all[1..] == Level(path, n1, Ordered(n1.entries.Keys)) + rest1;
      assert all[1..] == Level(path, n2, Ordered(n2.entries.Keys)) + rest2;
      DirectoryUnique(path, n1, n2, rest1, rest2);
    }
  }

  lemma {:induction false} DirectoryUnique(path: Bytes, d1: Node, d2: Node, rest1: seq<Record>, rest2: seq<Record>)
    requires d1.Directory? && Regular(d1) && WellFormed(path, d1) && d2.Directory? && Regular(d2)
    requires WellFormed(path, d2)
    requires Outside(path, rest1) && Outside(path, rest2)
    requires Level(path, d1, Ordered(d1.entries.Keys)) + rest1 == Level(path, d2, Ordered(d2.entries.Keys)) + rest2
    ensures d1 == d2 && rest1 == rest2
    decreases d1, 0, |Ordered(d1.entries.Keys)| + 1
  {
    LevelUnique(path, d1, Ordered(d1.entries.Keys), d2, Ordered(d2.entries.Keys), rest1, rest2);
    assert d1.entries.Keys == d2.entries.Keys;
    assert d1.entries == d2.entries;
  }

  // ----- The hashed layout -----

  ghost predicate Hashable(binary: Node, web: Node) {
    binary.File? && web.Directory? && Regular(web)
  }

  ghost function LayoutRecords(binary: Node, web: Node): seq<Record>
    requires Hashable(binary, web)
  {
    [FileRecord(BINARY_LABEL, binary.content)] + Level(WEB_LABEL, web, Ordered(web.entries.Keys))
  }

  ghost function LayoutStream(binary: Node, web: Node): Bytes
    requires Hashable(binary, web) && WellFormed(BINARY_LABEL, binary) && WellFormed(WEB_LABEL, web)
  {
    LevelMeasured(WEB_LABEL, web, Ordered(web.entries.Keys));
    Stream(LayoutRecords(binary, web))
  }

  /** Equal byte streams mean equal binaries and equal web trees: every path, directory and file. */
  lemma LayoutsEqual(binary1: Node, web1: Node, binary2: Node, web2: Node)
    requires Hashable(binary1, web1) && WellFormed(BINARY_LABEL, binary1) && WellFormed(WEB_LABEL, web1)
    requires Hashable(binary2, web2) && WellFormed(BINARY_LABEL, binary2) && WellFormed(WEB_LABEL, web2)
    ensures LayoutStream(binary1, web1) == LayoutStream(binary2, web2) <==> binary1 == binary2 && web1 == web2
  {
    if LayoutStream(binary1, web1) == LayoutStream(binary2, web2) {
      var o1, o2 := Ordered(web1.entries.Keys), Ordered(web2.entries.Keys);
      LevelMeasured(WEB_LABEL, web1, o1);
      LevelMeasured(WEB_LABEL, web2, o2);
      var r1, r2 := LayoutRecords(binary1, web1), LayoutRecords(binary2, web2);
      StreamInjective(r1, r2);
      assert r1[0] == FileRecord(BINARY_LABEL, binary1.content) && r2[0] == FileRecord(BINARY_LABEL, binary2.content);
      assert r1[1..] == Level(WEB_LABEL, web1, o1) + [] && r2[1..] == Level(WEB_LABEL, web2, o2) + [];
      DirectoryUnique(WEB_LABEL, web1, web2, [], []);
    }
  }

  // ----- Hashing, as the code feeds the hasher -----

  method HashLabel(path: Bytes, hasher: Bytes) returns (r: Bytes)
    requires |path| < WORD
    ensures r == hasher + LengthPrefixed(path)
  {
    r := hasher + WordBytes(|path|);
    r := r + path;
  }

  const BUFFER := 64 * 1024

  /** Reads at most a buffer at a time; each read may return less than was asked for. */
  method HashRegularFile(node: Node, path: Bytes, hasher: Bytes) returns (r: Result<Bytes, ()>)
    requires WellFormed(path, node)
    ensures r.Ok? <==> node.File?
    ensures r.Ok? ==> r.value == hasher + RecordBytes(FileRecord(path, node.content))
  {
    if !node.File? { return Err(()); }
    var h := hasher + [TAG_FILE];
    h := HashLabel(path, h);
    h := h + WordBytes(|node.content|);
    ghost var start := h;
    var remaining := |node.content|;
    while remaining > 0
      invariant 0 <= remaining <= |node.content| && h == start + node.content[..|node.content| - remaining]
    {
      var readLength := if remaining < BUFFER then remaining else BUFFER;
      var count :| 1 <= count <= readLength;
      var at := |node.content| - remaining;
      assert node.content[..at] + node.content[at..at + count] == node.content[..at + count];
      h := h + node.content[at..at + count];
      remaining := remaining - count;
    }
    assert node.content[..|node.content|] == node.content;
    FileBytes(hasher, path, node.content);
    return Ok(h);
  }

  lemma FileBytes(hasher: Bytes, path: Bytes, content: Bytes)
    requires |path| < WORD && |content| < WORD
    ensures hasher + [TAG_FILE] + LengthPrefixed(path) + WordBytes(|content|) + content ==
              hasher + RecordBytes(FileRecord(path, content))
  {
  }

  /** One directory's entries in name order; the subdirectories are hashed where they occur. */
  method HashDirectoryLevel(prefix: Bytes, dir: Node, hasher: Bytes) returns (r: Result<Bytes, ()>)
    requires dir.Directory? && WellFormed(prefix, dir)
    ensures r.Ok? <==> Regular(dir)
    ensures r.Ok? ==> AllMeasured(Level(prefix, dir, Ordered(dir.entries.Keys)))
                      && r.value == hasher + Stream(Level(prefix, dir, Ordered(dir.entries.Keys)))
    decreases dir, 1
  {
    var names := ReadSorted(dir.entries.Keys);
    OrderUnique(names, Ordered(dir.entries.Keys), dir.entries.Keys);
    r := HashEntries(prefix, dir, names, hasher);
  }

  /** read_dir in whatever order, then sort_by_key on the file name. */
  method ReadSorted(keys: set<Bytes>) returns (names: seq<Bytes>)
    ensures OrderOf(names, keys)
  {
    var listed: seq<Bytes> := [];
    var rest := keys;
    while rest != {}
      invariant rest <= keys && Distinct(listed)
      invariant forall name :: name in listed <==> name in keys && name !in rest
    {
      var name :| name in rest;
      listed, rest := listed + [name], rest - {name};
    }
    BytesOrder();
    SortSorted(BytesLess, listed);
    SortKeepsElements(BytesLess, listed);
    names := Sort(BytesLess, listed);
  }

  method HashEntries(prefix: Bytes, dir: Node, names: seq<Bytes>, hasher: Bytes) returns (r: Result<Bytes, ()>)
    requires dir.Directory? && WellFormed(prefix, dir) && forall name :: name in names <==> name in dir.entries
    ensures r.Ok? <==> Regular(dir)
    ensures r.Ok? ==> AllMeasured(Level(prefix, dir, names)) && r.value == hasher + Stream(Level(prefix, dir, names))
    decreases dir, 0
  {
    var h := hasher;
    assert hasher + [] == hasher;
    for i := 0 to |names|
      invariant HashedTo(prefix, dir, names[..i], hasher, h)
    {
      var name := names[i];
      assert name in names && names[..i + 1] == names[..i] + [name];
      var entry := HashEntry(prefix + [SLASH] + name, dir.entries[name], h);
      if entry.Err? { return Err(()); }
      OneMoreHashed(prefix, dir, names, i, hasher, h, entry.value);
      h := entry.value;
    }
    assert names[..|names|] == names;
    return Ok(h);
  }

  /** The entries named so far are regular and the hasher has been fed their records. */
  ghost predicate HashedTo(prefix: Bytes, dir: Node, names: seq<Bytes>, hasher: Bytes, h: Bytes)
    requires dir.Directory? && forall name :: name in names ==> name in dir.entries
  {
    && (forall name :: name in names ==> Regular(dir.entries[name]))
    && AllMeasured(Level(prefix, dir, names)) && h == hasher + Stream(Level(prefix, dir, names))
  }

  lemma OneMoreHashed(prefix: Bytes, dir: Node, names: seq<Bytes>, i: nat, hasher: Bytes, h: Bytes, next: Bytes)
    requires dir.Directory? && (forall name :: name in names ==> name in dir.entries) && i < |names|
    requires HashedTo(prefix, dir, names[..i], hasher, h) && Regular(dir.entries[names[i]])
    requires var records := Records(prefix + [SLASH] + names[i], dir.entries[names[i]]);
             AllMeasured(records) && next == h + Stream(records)
    ensures HashedTo(prefix, dir, names[..i + 1], hasher, next)
  {
    assert names[..i + 1] == names[..i] + [names[i]];
    LevelGrows(prefix, dir, names, i);
    StreamGrows(hasher, Level(prefix, dir, names[..i]), Records(prefix + [SLASH] + names[i], dir.entries[names[i]]));
  }

  lemma StreamGrows(hasher: Bytes, a: seq<Record>, b: seq<Record>)
    requires AllMeasured(a) && AllMeasured(b)
    ensures AllMeasured(a + b) && hasher + Stream(a) + Stream(b) == hasher + Stream(a + b)
  {
    StreamConcat(a, b);
    Associative(hasher, Stream(a), Stream(b));
  }

  /** One directory entry: a symlink or special file is an error. */
  method HashEntry(path: Bytes, child: Node, hasher: Bytes) returns (r: Result<Bytes, ()>)
    requires WellFormed(path, child)
    ensures r.Ok? <==> Regular(child)
    ensures r.Ok? ==> AllMeasured(Records(path, child)) && r.value == hasher + Stream(Records(path, child))
    decreases child, 2
  {
    match child
    case Special => return Err(());
    case File(_) =>
      FileStream(path, child);
      r := HashRegularFile(child, path, hasher);
    case Directory(_) =>
      var h := hasher + [TAG_DIRECTORY];
      h := HashLabel(path, h);
      r := HashDirectoryLevel(path, child, h);
      if r.Ok? { DirectoryBytes(hasher, path, Level(path, child, Ordered(child.entries.Keys))); }
  }

  lemma FileStream(path: Bytes, node: Node)
    requires node.File? && |path| < WORD && |node.content| < WORD
    ensures AllMeasured(Records(path, node))
    ensures Stream(Records(path, node)) == RecordBytes(FileRecord(path, node.content))
  {
    StreamCons(FileRecord(path, node.content), []);
    assert [FileRecord(path, node.content)] + [] == Records(path, node);
  }

  lemma DirectoryBytes(hasher: Bytes, path: Bytes, level: seq<Record>)
    requires |path| < WORD && AllMeasured(level)
    ensures AllMeasured([DirectoryRecord(path)] + level)
    ensures hasher + [TAG_DIRECTORY] + LengthPrefixed(path) + Stream(level) ==
            hasher + Stream([DirectoryRecord(path)] + level)
  {
    StreamCons(DirectoryRecord(path), level);
  }

  lemma {:induction false} LevelGrows(prefix: Bytes, dir: Node, names: seq<Bytes>, i: nat)
    requires dir.Directory? && (forall name :: name in names ==> name in dir.entries) && i < |names|
    ensures Level(prefix, dir, names[..i + 1]) ==
              Level(prefix, dir, names[..i]) + Records(prefix + [SLASH] + names[i], dir.entries[names[i]])
    decreases i
  {
    if i == 0 {
      assert names[..1][1..] == [] && names[..0] == [];
    } else {
      LevelGrows(prefix, dir, names[1..], i - 1);
      assert names[..i + 1][1..] == names[1..][..i] && names[..i][1..] == names[1..][..i - 1];
    }
  }

  /** The bytes fed to SHA-256 for a release. */
  method HashLayoutOf(binary: Node, web: Node) returns (r: Result<Bytes, ()>)
    requires WellFormed(BINARY_LABEL, binary) && WellFormed(WEB_LABEL, web)
    ensures r.Ok? <==> Hashable(binary, web)
    ensures r.Ok? ==> r.value == LayoutStream(binary, web)
  {
    var hasher := HashRegularFile(binary, BINARY_LABEL, []);
    if hasher.Err? || !web.Directory? { return Err(()); }
    r := HashDirectoryLevel(WEB_LABEL, web, hasher.value);
    if r.Ok? {
      LevelMeasured(WEB_LABEL, web, Ordered(web.entries.Keys));
      StreamCons(FileRecord(BINARY_LABEL, binary.content), Level(WEB_LABEL, web, Ordered(web.entries.Keys)));
      assert [] + RecordBytes(FileRecord(BINARY_LABEL, binary.content)) ==
        RecordBytes(FileRecord(BINARY_LABEL, binary.content));
    }
  }
}
