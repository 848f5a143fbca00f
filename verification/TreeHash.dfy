/** The byte streams fed to BLAKE3 by gyza/release.py (`compute_source_tree_hash`) and
    gyza/attest.py (`compute_artifact_hash`). The two share one record format; a source tree has
    no symbolic links, so all its records carry the tag of plain data. */
module TreeHash {
  import opened Common

  type Bytes = seq<Byte>

  const TAG_PATH: Byte := 0x50
  const TAG_DATA: Byte := 0x44
  const TAG_LINK: Byte := 0x4C
  const U32_LIMIT: nat := 0x1_0000_0000

  datatype Kind = Data | Link

  /** A file's bytes, or a link's target string. */
  datatype Entry = Entry(kind: Kind, data: Bytes)

  datatype File = File(path: Bytes, entry: Entry)

  function KindTag(k: Kind): Byte {
    if k.Data? then TAG_DATA else TAG_LINK
  }

  /** `struct.pack(">I", n)`, which fails beyond 32 bits. */
  function PackU32(n: nat): Option<Bytes> {
    if n >= U32_LIMIT then None
    else Some([n / 0x100_0000, n / 0x1_0000 % 0x100, n / 0x100 % 0x100, n % 0x100])
  }

  /** The seven updates made for one file. */
  function Record(f: File): Option<Bytes> {
    var p, d := PackU32(|f.path|), PackU32(|f.entry.data|);
    if p.None? || d.None? then None
    else Some([TAG_PATH] + p.value + f.path + [KindTag(f.entry.kind)] + d.value + f.entry.data)
  }

  /** One stream after the other; a failure anywhere is a failure. */
  function Then(a: Option<Bytes>, b: Option<Bytes>): Option<Bytes> {
    if a.None? || b.None? then None else Some(a.value + b.value)
  }

  function Stream(files: seq<File>): Option<Bytes> {
    if files == [] then Some([]) else Then(Record(files[0]), Stream(files[1..]))
  }

  lemma PackInjective(m: nat, n: nat)
    requires m < U32_LIMIT && n < U32_LIMIT && PackU32(m) == PackU32(n)
    ensures m == n
  {
    var a, b := PackU32(m).value, PackU32(n).value;
    assert a[0] == b[0] && a[1] == b[1] && a[2] == b[2] && a[3] == b[3];
    FromBytes(m);
    FromBytes(n);
  }

  lemma FromBytes(n: nat)
    requires n < U32_LIMIT
    ensures n == n / 0x100_0000 * 0x100_0000 + n / 0x1_0000 % 0x100 * 0x1_0000 + n / 0x100 % 0x100 * 0x100 + n % 0x100
  {
    var a := n / 0x100;
    var b := a / 0x100;
    assert n == a * 0x100 + n % 0x100;
    assert a == b * 0x100 + a % 0x100;
    assert b == n / 0x1_0000;
    assert b / 0x100 == n / 0x100_0000;
  }

  /** Equal concatenations whose first parts have equal length split equally. */
  lemma SplitAt(a: Bytes, s: Bytes, b: Bytes, t: Bytes)
    requires |a| == |b| && a + s == b + t
    ensures a == b && s == t
  {
    assert a == (a + s)[..|a|] && b == (b + t)[..|a|];
    assert s == (a + s)[|a|..] && t == (b + t)[|a|..];
  }

  /** A length-prefixed chunk can be read back off the front of any stream. */
  lemma ChunkReadable(a: Bytes, s: Bytes, b: Bytes, t: Bytes)
    requires |a| < U32_LIMIT && |b| < U32_LIMIT
    requires PackU32(|a|).value + (a + s) == PackU32(|b|).value + (b + t)
    ensures a == b && s == t
  {
    SplitAt(PackU32(|a|).value, a + s, PackU32(|b|).value, b + t);
    PackInjective(|a|, |b|);
    SplitAt(a, s, b, t);
  }

  /** So can a whole record. */
  lemma RecordReadable(f: File, s: Bytes, g: File, t: Bytes)
    requires Record(f).Some? && Record(g).Some?
    requires Record(f).value + s == Record(g).value + t
    ensures f == g && s == t
  {
    var fs := [KindTag(f.entry.kind)] + (PackU32(|f.entry.data|).value + (f.entry.data + s));
    var gt := [KindTag(g.entry.kind)] + (PackU32(|g.entry.data|).value + (g.entry.data + t));
    assert Record(f).value + s == [TAG_PATH] + (PackU32(|f.path|).value + (f.path + fs));
    assert Record(g).value + t == [TAG_PATH] + (PackU32(|g.path|).value + (g.path + gt));
    SplitAt([TAG_PATH], PackU32(|f.path|).value + (f.path + fs), [TAG_PATH], PackU32(|g.path|).value + (g.path + gt));
    ChunkReadable(f.path, fs, g.path, gt);
    SplitAt([KindTag(f.entry.kind)], PackU32(|f.entry.data|).value + (f.entry.data + s),
            [KindTag(g.entry.kind)], PackU32(|g.entry.data|).value + (g.entry.data + t));
    assert [KindTag(f.entry.kind)][0] == [KindTag(g.entry.kind)][0];
    ChunkReadable(f.entry.data, s, g.entry.data, t);
  }

  /** The stream determines the list of files, whatever their number and lengths. */
  lemma {:induction false} StreamInjective(a: seq<File>, b: seq<File>)
    requires Stream(a).Some? && Stream(a) == Stream(b)
    ensures a == b
  {
    if a != [] && b != [] {
      RecordReadable(a[0], Stream(a[1..]).value, b[0], Stream(b[1..]).value);
      StreamInjective(a[1..], b[1..]);
      assert a == [a[0]] + a[1..] && b == [b[0]] + b[1..];
    }
  }

  lemma ThenAssociative(a: Option<Bytes>, b: Option<Bytes>, c: Option<Bytes>)
    ensures Then(Then(a, b), c) == Then(a, Then(b, c))
    ensures Then(a, Some([])) == a && Then(Some([]), a) == a
  {
    if a.Some? && b.Some? && c.Some? {
      assert a.value + b.value + c.value == a.value + (b.value + c.value);
    }
    if a.Some? {
      assert a.value + [] == a.value && [] + a.value == a.value;
    }
  }

  lemma {:induction false} StreamAppend(files: seq<File>, f: File)
    ensures Stream(files + [f]) == Then(Stream(files), Record(f))
  {
    var r := Record(f);
    if files == [] {
      assert (files + [f])[1..] == [];
      ThenAssociative(r, r, r);
    } else {
      assert (files + [f])[1..] == files[1..] + [f];
      StreamAppend(files[1..], f);
      ThenAssociative(Record(files[0]), Stream(files[1..]), r);
    }
  }

  // ------------------------------------------------------------------
  // Trees
  // ------------------------------------------------------------------

  type Tree = map<Bytes, Entry>

  /** The files of a tree in strictly increasing path order. */
  ghost predicate Lists(lt: (Bytes, Bytes) -> bool, tree: Tree, files: seq<File>) {
    && (forall i, j :: 0 <= i < j < |files| ==> lt(files[i].path, files[j].path))
    && (forall i :: 0 <= i < |files| ==> files[i].path in tree && files[i].entry == tree[files[i].path])
    && (forall p :: p in tree ==> exists i :: 0 <= i < |files| && files[i].path == p)
  }

  /** `fed` is the stream of the tree's files in path order. */
  ghost predicate Feeds(lt: (Bytes, Bytes) -> bool, tree: Tree, fed: Option<Bytes>) {
    exists files :: Lists(lt, tree, files) && fed == Stream(files)
  }

  /** Feed the hasher file by file; `None` is the failure of a length that does not fit. */
  method HashInput(lt: (Bytes, Bytes) -> bool, tree: Tree) returns (fed: Option<Bytes>)
    requires StrictTotalOrder(lt)
    ensures Feeds(lt, tree, fed)
    ensures fed.None? <==> exists p :: p in tree && (|p| >= 0x1_0000_0000 || |tree[p].data| >= 0x1_0000_0000)
    ensures forall p :: tree.Keys == {p} && fed.Some? ==>
              var m, d := |p|, tree[p].data;
              fed.value == [0x50] + [m / 0x100_0000, m / 0x1_0000 % 0x100, m / 0x100 % 0x100, m % 0x100] + p
                           + [if tree[p].kind.Link? then 0x4C else 0x44]
                           + [|d| / 0x100_0000, |d| / 0x1_0000 % 0x100, |d| / 0x100 % 0x100, |d| % 0x100] + d
  {
    var paths := Sorted(lt, tree.Keys);
    fed := Some([]);
    ghost var files: seq<File> := [];
    for i := 0 to |paths|
      invariant |files| == i && forall k :: 0 <= k < i ==> paths[k] in tree && files[k] == File(paths[k], tree[paths[k]])
      invariant fed == Stream(files)
    {
      assert paths[i] in ToSet(paths);
      var f := File(paths[i], tree[paths[i]]);
      StreamAppend(files, f);
      fed := Then(fed, Record(f));
      files := files + [f];
    }
    forall p | p in tree ensures exists i :: 0 <= i < |files| && files[i].path == p {
      assert p in ToSet(paths);
      var i :| 0 <= i < |paths| && paths[i] == p;
      assert files[i].path == p;
    }
    assert Lists(lt, tree, files);
    FeedMeans(lt, tree, files);
  }

  /** The feed in terms of the tree: which lengths make it fail, and the bytes of a single file. */
  lemma FeedMeans(lt: (Bytes, Bytes) -> bool, tree: Tree, files: seq<File>)
    requires StrictTotalOrder(lt) && Lists(lt, tree, files)
    ensures Stream(files).None? <==> exists p :: p in tree && (|p| >= 0x1_0000_0000 || |tree[p].data| >= 0x1_0000_0000)
    ensures forall p :: tree.Keys == {p} && Stream(files).Some? ==>
              var m, d := |p|, tree[p].data;
              Stream(files).value ==
              [0x50] + [m / 0x100_0000, m / 0x1_0000 % 0x100, m / 0x100 % 0x100, m % 0x100] + p
              + [if tree[p].kind.Link? then 0x4C else 0x44]
              + [|d| / 0x100_0000, |d| / 0x1_0000 % 0x100, |d| / 0x100 % 0x100, |d| % 0x100] + d
  {
    StreamFails(files);
    if i :| 0 <= i < |files| && (|files[i].path| >= U32_LIMIT || |files[i].entry.data| >= U32_LIMIT) {
      assert files[i].path in tree;
    }
    if p :| p in tree && (|p| >= U32_LIMIT || |tree[p].data| >= U32_LIMIT) {
      var i :| 0 <= i < |files| && files[i].path == p;
    }
    if p :| tree.Keys == {p} {
      assert p in tree.Keys;
      SingleFile(lt, tree, files, p);
    }
  }

  lemma SingleFile(lt: (Bytes, Bytes) -> bool, tree: Tree, files: seq<File>, p: Bytes)
    requires StrictTotalOrder(lt) && Lists(lt, tree, files) && p in tree && tree.Keys == {p}
    ensures files == [File(p, tree[p])] && Stream(files) == Record(File(p, tree[p]))
  {
    var single := [File(p, tree[p])];
    assert single[0].path == p;
    ListingUnique(lt, tree, files, single);
    assert files[1..] == [];
    ThenAssociative(Record(files[0]), Some([]), Some([]));
  }

  /** A stream fails exactly when some length does not fit into 32 bits. */
  lemma {:induction false} StreamFails(files: seq<File>)
    ensures Stream(files).None? <==>
            exists i :: 0 <= i < |files| && (|files[i].path| >= U32_LIMIT || |files[i].entry.data| >= U32_LIMIT)
  {
    if files != [] {
      StreamFails(files[1..]);
      assert forall i :: 0 <= i < |files| - 1 ==> files[1..][i] == files[i + 1];
      assert files[0] == files[0..][0];
    }
  }

  /** Two trees are fed alike exactly when they are the same tree, so up to a collision of the hash
      itself no two trees share a digest. */
  lemma TreesFedAlike(lt: (Bytes, Bytes) -> bool, t1: Tree, fed1: Option<Bytes>, t2: Tree, fed2: Option<Bytes>)
    requires StrictTotalOrder(lt)
    requires Feeds(lt, t1, fed1) && Feeds(lt, t2, fed2) && fed1.Some?
    ensures fed1 == fed2 <==> t1 == t2
  {
    var f1 :| Lists(lt, t1, f1) && fed1 == Stream(f1);
    var f2 :| Lists(lt, t2, f2) && fed2 == Stream(f2);
    if fed1 == fed2 {
      StreamInjective(f1, f2);
      SameListing(lt, t1, t2, f1);
    } else if t1 == t2 {
      ListingUnique(lt, t1, f1, f2);
    }
  }

  lemma ListedSubset(lt: (Bytes, Bytes) -> bool, t1: Tree, t2: Tree, files: seq<File>)
    requires Lists(lt, t1, files) && Lists(lt, t2, files)
    ensures forall p :: p in t1 ==> p in t2 && t1[p] == t2[p]
  {
    forall p | p in t1 ensures p in t2 && t1[p] == t2[p] {
      var i :| 0 <= i < |files| && files[i].path == p;
    }
  }

  lemma SameListing(lt: (Bytes, Bytes) -> bool, t1: Tree, t2: Tree, files: seq<File>)
    requires Lists(lt, t1, files) && Lists(lt, t2, files)
    ensures t1 == t2
  {
    ListedSubset(lt, t1, t2, files);
    ListedSubset(lt, t2, t1, files);
  }

  lemma ListingUnique(lt: (Bytes, Bytes) -> bool, tree: Tree, f1: seq<File>, f2: seq<File>)
    requires StrictTotalOrder(lt) && Lists(lt, tree, f1) && Lists(lt, tree, f2)
    ensures f1 == f2
  {
    var p1 := seq(|f1|, i requires 0 <= i < |f1| => f1[i].path);
    var p2 := seq(|f2|, i requires 0 <= i < |f2| => f2[i].path);
    forall p ensures p in ToSet(p1) <==> p in tree {
      if p in tree {
        var i :| 0 <= i < |f1| && f1[i].path == p;
        assert p1[i] == p;
      }
    }
    forall p ensures p in ToSet(p2) <==> p in tree {
      if p in tree {
        var i :| 0 <= i < |f2| && f2[i].path == p;
        assert p2[i] == p;
      }
    }
    SortedUnique(lt, p1, p2);
    forall i | 0 <= i < |f1| ensures f1[i] == f2[i] {
      assert p1[i] == p2[i];
    }
  }
}
