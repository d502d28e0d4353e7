/** The package tree identity of openpine/stack_lock.py: the byte stream that is hashed determines
    the shipped files and their contents, and depends on nothing else. */
module StackLock {
  import opened Paths
  import opened Prelude
  import opened Sorting

  newtype Byte = i: int | 0 <= i < 256

  type Bytes = seq<Byte>

  // ----- eight-byte big-endian lengths

  const LENGTH_LIMIT: nat := 0x1_0000_0000_0000_0000

  function Power256(k: nat): (p: nat)
    ensures p > 0
  {
    if k == 0 then 1 else 256 * Power256(k - 1)
  }

  /** `n.to_bytes(k, "big")` */
  function BigEndian(n: nat, k: nat): (bytes: Bytes)
    ensures |bytes| == k
  {
    if k == 0 then [] else BigEndian(n / 256, k - 1) + [(n % 256) as Byte]
  }

  function Value(bytes: Bytes): nat {
    if bytes == [] then 0 else 256 * Value(bytes[..|bytes| - 1]) + bytes[|bytes| - 1] as nat
  }

  lemma {:induction false} ValueOfBigEndian(n: nat, k: nat)
    requires n < Power256(k)
    ensures Value(BigEndian(n, k)) == n
  {
    if k > 0 {
      ValueOfBigEndian(n / 256, k - 1);
      var bytes := BigEndian(n, k);
      assert bytes[..k - 1] == BigEndian(n / 256, k - 1);
    }
  }

  lemma EightBytes()
    ensures Power256(8) == LENGTH_LIMIT
  {
  }

  // ----- the framed stream

  datatype Entry = Entry(path: Bytes, content: Bytes)

  predicate Encodable(e: Entry) {
    |e.path| < LENGTH_LIMIT && |e.content| < LENGTH_LIMIT
  }

  function Frame(e: Entry): Bytes {
    BigEndian(|e.path|, 8) + e.path + BigEndian(|e.content|, 8) + e.content
  }

  function Stream(entries: seq<Entry>): Bytes {
    if entries == [] then [] else Frame(entries[0]) + Stream(entries[1..])
  }

  /** Reads one length-prefixed string off the front. */
  function ReadField(bytes: Bytes): Option<(Bytes, Bytes)> {
    if |bytes| < 8 then None
    else
      var n := Value(bytes[..8]);
      if |bytes| < 8 + n then None else Some((bytes[8..8 + n], bytes[8 + n..]))
  }

  /** The decoder that the framing makes possible. */
  function Parse(bytes: Bytes): Option<seq<Entry>>
    decreases |bytes|
  {
    if bytes == [] then Some([])
    else
      match ReadField(bytes)
      case None => None
      case Some((path, rest)) =>
        match ReadField(rest)
        case None => None
        case Some((content, tail)) =>
          match Parse(tail)
          case None => None
          case Some(entries) => Some([Entry(path, content)] + entries)
  }

  lemma ReadFieldInverts(field: Bytes, rest: Bytes)
    requires |field| < LENGTH_LIMIT
    ensures ReadField(BigEndian(|field|, 8) + field + rest) == Some((field, rest))
  {
    EightBytes();
    ValueOfBigEndian(|field|, 8);
    PrefixedField(BigEndian(|field|, 8), field, rest);
  }

  lemma PrefixedField(prefix: Bytes, field: Bytes, rest: Bytes)
    requires |prefix| == 8 && Value(prefix) == |field|
    ensures ReadField(prefix + field + rest) == Some((field, rest))
  {
    var bytes := prefix + field + rest;
    assert bytes[..8] == prefix;
    assert bytes[8..8 + |field|] == field;
    assert bytes[8 + |field|..] == rest;
  }

  /** Round trip: the stream decodes to exactly the entries that were framed. */
  lemma {:induction false} ParseInvertsStream(entries: seq<Entry>)
    requires forall i :: 0 <= i < |entries| ==> Encodable(entries[i])
    ensures Parse(Stream(entries)) == Some(entries)
  {
    if entries != [] {
      ParseInvertsStream(entries[1..]);
      var rest := FrameReads(entries[0], Stream(entries[1..]));
      ParseStep(Stream(entries), entries[0], rest, Stream(entries[1..]), entries[1..]);
      assert entries == [entries[0]] + entries[1..];
    }
  }

  lemma ParseStep(bytes: Bytes, e: Entry, rest: Bytes, tail: Bytes, entries: seq<Entry>)
    requires ReadField(bytes) == Some((e.path, rest)) && ReadField(rest) == Some((e.content, tail))
    requires |tail| < |bytes| && Parse(tail) == Some(entries)
    ensures Parse(bytes) == Some([e] + entries)
  {
  }

  lemma FrameReads(e: Entry, tail: Bytes) returns (rest: Bytes)
    requires Encodable(e)
    ensures ReadField(Frame(e) + tail) == Some((e.path, rest)) && ReadField(rest) == Some((e.content, tail))
    ensures |tail| < |Frame(e) + tail|
  {
    rest := BigEndian(|e.content|, 8) + e.content + tail;
    assert Frame(e) + tail == BigEndian(|e.path|, 8) + e.path + rest;
    ReadFieldInverts(e.path, rest);
    ReadFieldInverts(e.content, tail);
  }

  lemma StreamInjective(a: seq<Entry>, b: seq<Entry>)
    requires forall i :: 0 <= i < |a| ==> Encodable(a[i])
    requires forall i :: 0 <= i < |b| ==> Encodable(b[i])
    requires Stream(a) == Stream(b)
    ensures a == b
  {
    ParseInvertsStream(a);
    ParseInvertsStream(b);
  }

  lemma {:induction false} StreamAppend(entries: seq<Entry>, e: Entry)
    ensures Stream(entries + [e]) == Stream(entries) + Frame(e)
  {
    if entries == [] {
      assert entries + [e] == [e];
    } else {
      assert (entries + [e])[1..] == entries[1..] + [e];
      StreamAppend(entries[1..], e);
    }
  }

  // ----- the package tree

  /** One file of the package, as the recursive listing yields it. */
  datatype File = File(path: Path, content: Bytes)

  const LOCK_NAME := "stack-lock.json"

  predicate Shipped(root: Path, f: File)
    requires f.path != []
  {
    && Name(f.path) != LOCK_NAME
    && "__pycache__" !in root + f.path
    && Suffix(Name(f.path)) != ".pyc" && Suffix(Name(f.path)) != ".pyo"
  }

  function IsShipped(root: Path): File -> bool {
    (f: File) => f.path != [] && Shipped(root, f)
  }

  predicate ByPath(a: File, b: File) {
    ByPosix(a.path, b.path)
  }

  lemma ByPathOrders()
    ensures TotalPreorder(ByPath)
  {
    ByPosixOrders();
  }

  /** A listing of a directory tree: every path well formed and listed once, and within the eight
      length bytes. */
  ghost predicate Listing(files: seq<File>, encode: string -> Bytes) {
    && (forall i :: 0 <= i < |files| ==>
          && WellFormed(files[i].path)
          && Encodable(EntryOf(files[i], encode)))
    && (forall i, j :: 0 <= i < j < |files| ==> files[i].path != files[j].path)
  }

  /** UTF-8, of which only injectivity matters. */
  ghost predicate Injective(encode: string -> Bytes) {
    forall a: string, b: string :: encode(a) == encode(b) ==> a == b
  }

  function EntryOf(f: File, encode: string -> Bytes): Entry {
    Entry(if f.path == [] then [] else encode(Posix(f.path)), f.content)
  }

  function Entries(files: seq<File>, encode: string -> Bytes): (r: seq<Entry>)
    ensures |r| == |files| && forall i :: 0 <= i < |files| ==> r[i] == EntryOf(files[i], encode)
  {
    seq(|files|, i requires 0 <= i < |files| => EntryOf(files[i], encode))
  }

  function Candidates(root: Path, files: seq<File>): seq<File> {
    SortBy(Filter(files, IsShipped(root)), ByPath)
  }

  /** The four `digest.update` calls of one file. */
  method Update(stream: Bytes, e: Entry) returns (longer: Bytes)
    ensures longer == stream + Frame(e)
  {
    longer := stream + BigEndian(|e.path|, 8);
    longer := longer + e.path;
    longer := longer + BigEndian(|e.content|, 8);
    longer := longer + e.content;
  }

  /** The bytes fed to the digest, file by file. */
  method TreeStream(root: Path, files: seq<File>, encode: string -> Bytes) returns (stream: Bytes)
    ensures stream == Stream(Entries(Candidates(root, files), encode))
  {
    stream := FrameAll(Candidates(root, files), encode);
  }

  method FrameAll(candidates: seq<File>, encode: string -> Bytes) returns (stream: Bytes)
    ensures stream == Stream(Entries(candidates, encode))
  {
    ghost var entries := Entries(candidates, encode);
    stream := [];
    for i := 0 to |candidates|
      invariant stream == Stream(entries[..i])
    {
      StreamPrefix(entries, i);
      stream := Update(stream, EntryOf(candidates[i], encode));
    }
    assert entries[..|candidates|] == entries;
  }

  lemma StreamPrefix(entries: seq<Entry>, i: nat)
    requires i < |entries|
    ensures Stream(entries[..i + 1]) == Stream(entries[..i]) + Frame(entries[i])
  {
    assert entries[..i + 1] == entries[..i] + [entries[i]];
    StreamAppend(entries[..i], entries[i]);
  }

  /** Not the lock file, nothing in a cache directory at any level, and no compiled module. */
  ghost predicate Ships(root: Path, p: Path) {
    && p != [] && p[|p| - 1] != "stack-lock.json"
    && "__pycache__" !in root && "__pycache__" !in p
    && !Compiled(p[|p| - 1], 'c') && !Compiled(p[|p| - 1], 'o')
  }

  /** The name is `.pyc` or `.pyo` after something. */
  ghost predicate Compiled(name: string, last: char) {
    var n := |name|;
    n > 4 && name[n - 4] == '.' && name[n - 3] == 'p' && name[n - 2] == 'y' && name[n - 1] == last
  }

  lemma {:induction false} LastDotAt(name: string, n: nat, i: nat)
    requires i < n <= |name| && name[i] == '.' && forall j :: i < j < n ==> name[j] != '.'
    ensures LastDot(name, n) == i
  {
    if n - 1 > i {
      LastDotAt(name, n - 1, i);
    }
  }

  lemma CompiledExactly(name: string, last: char)
    requires last != '.'
    ensures Suffix(name) == ['.', 'p', 'y', last] <==> Compiled(name, last)
  {
    var n := |name|;
    if Compiled(name, last) {
      LastDotAt(name, n, n - 4);
      assert name[n - 4..] == ['.', 'p', 'y', last];
    }
    if Suffix(name) == ['.', 'p', 'y', last] {
      var i := LastDot(name, n);
      assert Suffix(name) == name[i..] && n - i == 4;
      assert name[i] == name[i..][0] && name[i + 1] == name[i..][1] && name[i + 2] == name[i..][2] && name[i + 3] == name[i..][3];
    }
  }

  lemma ShipsExactly(root: Path, f: File)
    ensures IsShipped(root)(f) <==> Ships(root, f.path)
  {
    if f.path != [] {
      CompiledExactly(Name(f.path), 'c');
      CompiledExactly(Name(f.path), 'o');
      assert ".pyc" == ['.', 'p', 'y', 'c'] && ".pyo" == ['.', 'p', 'y', 'o'];
    }
  }

  /** The shipped files, as a set. */
  ghost function ShippedSet(root: Path, files: seq<File>): set<File> {
    set f | f in files && Ships(root, f.path)
  }

  ghost function StreamOf(root: Path, files: seq<File>, encode: string -> Bytes): Bytes {
    Stream(Entries(Candidates(root, files), encode))
  }

  lemma CandidateMembers(root: Path, files: seq<File>, encode: string -> Bytes)
    requires Listing(files, encode)
    ensures forall f :: f in Candidates(root, files) <==> f in ShippedSet(root, files)
    ensures forall f :: f in Candidates(root, files) ==> WellFormed(f.path) && Encodable(EntryOf(f, encode))
    ensures SortedBy(Candidates(root, files), ByPath)
  {
    MultisetMembers(Candidates(root, files), Filter(files, IsShipped(root)));
    forall f
      ensures IsShipped(root)(f) <==> Ships(root, f.path)
    {
      ShipsExactly(root, f);
    }
    ByPathOrders();
    SortSorts(Filter(files, IsShipped(root)), ByPath);
  }

  lemma EntriesInjective(a: seq<File>, b: seq<File>, encode: string -> Bytes)
    requires Injective(encode) && Entries(a, encode) == Entries(b, encode)
    requires forall f :: f in a || f in b ==> WellFormed(f.path)
    ensures a == b
  {
    assert |a| == |Entries(a, encode)| == |b|;
    forall i | 0 <= i < |a|
      ensures a[i] == b[i]
    {
      assert a[i] in a && b[i] in b;
      assert EntryOf(a[i], encode) == Entries(a, encode)[i] == EntryOf(b[i], encode);
      PosixInjective(a[i].path, b[i].path);
    }
  }

  /** The sorted candidates depend only on the set of shipped files. */
  lemma SameSetSameOrder(rootA: Path, a: seq<File>, rootB: Path, b: seq<File>, encode: string -> Bytes)
    requires Listing(a, encode) && Listing(b, encode) && ShippedSet(rootA, a) == ShippedSet(rootB, b)
    ensures Candidates(rootA, a) == Candidates(rootB, b)
  {
    var x, y := Candidates(rootA, a), Candidates(rootB, b);
    CandidateMembers(rootA, a, encode);
    CandidateMembers(rootB, b, encode);
    FilterNoRepeats(a, IsShipped(rootA));
    FilterNoRepeats(b, IsShipped(rootB));
    MultisetMembers(x, Filter(a, IsShipped(rootA)));
    MultisetMembers(y, Filter(b, IsShipped(rootB)));
    SameMembersSameMultiset(Filter(a, IsShipped(rootA)), Filter(b, IsShipped(rootB)));
    assert NoTies(x, ByPath) by {
      forall f, g | f in x && g in x && ByPath(f, g) && ByPath(g, f)
        ensures f == g
      {
        LexTotal(Posix(f.path), Posix(g.path));
        PosixInjective(f.path, g.path);
        assert f in a && g in a;
      }
    }
    SortedUnique(x, y, ByPath);
  }

  /** Two listings give the same stream exactly when they ship the same files with the same
      contents: the framing merges nothing, and the listing order does not matter. */
  lemma EqualStreamsMeanEqualTrees(rootA: Path, a: seq<File>, rootB: Path, b: seq<File>, encode: string -> Bytes)
    requires Injective(encode) && Listing(a, encode) && Listing(b, encode)
    ensures StreamOf(rootA, a, encode) == StreamOf(rootB, b, encode)
            <==> ShippedSet(rootA, a) == ShippedSet(rootB, b)
  {
    var x, y := Candidates(rootA, a), Candidates(rootB, b);
    CandidateMembers(rootA, a, encode);
    CandidateMembers(rootB, b, encode);
    if StreamOf(rootA, a, encode) == StreamOf(rootB, b, encode) {
      forall i | 0 <= i < |x|
        ensures Encodable(Entries(x, encode)[i])
      {
        assert x[i] in x;
      }
      forall i | 0 <= i < |y|
        ensures Encodable(Entries(y, encode)[i])
      {
        assert y[i] in y;
      }
      StreamInjective(Entries(x, encode), Entries(y, encode));
      EntriesInjective(x, y, encode);
      forall f
        ensures f in ShippedSet(rootA, a) <==> f in ShippedSet(rootB, b)
      {
        assert f in x <==> f in y;
      }
    }
    if ShippedSet(rootA, a) == ShippedSet(rootB, b) {
      SameSetSameOrder(rootA, a, rootB, b, encode);
    }
  }
}
