/** The reference file system: a table of file objects that form a tree, each keeping the canonical
    code of its subtree up to date. */
module RefFiles {
  import opened Basics
  import opened TreeCode

  datatype RefFile = RefFile(
    size: nat, next: int, fn: string, encode: seq<char>, encodeSize: nat, children: seq<nat>,
    parent: int, depth: nat, isOpen: bool, isDir: bool)

  /** The sizes that the code is made for; a bucket is `scale` blocks. */
  datatype Dims = Dims(maxChild: nat, maxEncode: nat, blockSize: nat, scale: nat)
  {
    predicate Ok() { 0 < blockSize && 0 < scale && 2 <= maxEncode }

    function Bucket(size: nat): nat
      requires Ok()
    {
      var blocks: nat := (size + blockSize - 1) / blockSize;
      blocks / scale
    }
  }

  /** The bucket of a size is `b` or more exactly when the size is more than `b * scale - 1` blocks. */
  lemma BucketReached(d: Dims, size: nat, b: nat)
    requires d.Ok()
    ensures d.Bucket(size) >= b <==> b == 0 || size > (b * d.scale - 1) * d.blockSize
  {
    var blocks: nat := (size + d.blockSize - 1) / d.blockSize;
    QuotAtLeast(blocks, d.scale, b);
    QuotAtLeast(size + d.blockSize - 1, d.blockSize, b * d.scale);
    if b > 0 {
      MulLess(0, b, d.scale);
      assert (b * d.scale) * d.blockSize == (b * d.scale - 1) * d.blockSize + d.blockSize;
    }
  }

  lemma QuotAtLeast(n: nat, m: nat, q: nat)
    requires 0 < m
    ensures n / m >= q <==> n >= q * m
  {
    var k := n / m;
    assert n == k * m + n % m;
    if k < q {
      MulLess(k, q, m);
    } else if q < k {
      MulLess(q, k, m);
    }
  }

  /** Sizes of bucket `b`: beyond the blocks of the buckets below it and within its own. */
  predicate InBucket(d: Dims, size: nat, b: nat) {
    (b == 0 || size > (b * d.scale - 1) * d.blockSize) && size <= ((b + 1) * d.scale - 1) * d.blockSize
  }

  lemma BucketIs(d: Dims, size: nat)
    requires d.Ok()
    ensures InBucket(d, size, d.Bucket(size))
  {
    BucketReached(d, size, d.Bucket(size));
    BucketReached(d, size, d.Bucket(size) + 1);
  }

  // ----- The tree of the table -----

  ghost predicate IsChild(fs: seq<RefFile>, id: nat, c: nat) {
    id < |fs| && fs[id].isDir && fs[id].size <= |fs[id].children| && c in fs[id].children[..fs[id].size]
  }

  /** The children of an object are distinct, in use, and name it as their parent. */
  ghost predicate Down(fs: seq<RefFile>, used: set<nat>, d: Dims, id: nat) {
    id < |fs| && (fs[id].isDir ==> fs[id].size <= d.maxChild && !fs[id].isOpen) && |fs[id].children| == d.maxChild
    && (forall c: nat :: IsChild(fs, id, c) ==> c in used && c < |fs| && fs[c].parent == id)
    && (fs[id].isDir ==> forall i, j :: 0 <= i < j < fs[id].size ==> fs[id].children[i] != fs[id].children[j])
  }

  /** An object is a child of its parent, one level down; the root has none and is a directory. */
  ghost predicate Up(fs: seq<RefFile>, used: set<nat>, id: nat) {
    && id < |fs|
    && if id == 0 then fs[id].parent == -1 && fs[id].isDir
       else
         && 0 <= fs[id].parent < |fs| && fs[id].parent in used && IsChild(fs, fs[id].parent, id)
         && fs[fs[id].parent].depth < fs[id].depth
  }

  /** Parents and children of a used object agree. */
  ghost predicate NodeShape(fs: seq<RefFile>, used: set<nat>, d: Dims, id: nat) {
    Down(fs, used, d, id) && Up(fs, used, id)
  }

  ghost predicate ShapeOk(fs: seq<RefFile>, used: set<nat>, d: Dims) {
    && 0 in used && (forall id :: id in used ==> id < |fs|)
    && forall id :: id in used && id < |fs| ==> NodeShape(fs, used, d, id)
  }

  function Kids(trees: seq<Tree>, children: seq<nat>): seq<Tree> {
    seq(|children|, i requires 0 <= i < |children| => if children[i] < |trees| then trees[children[i]] else Dir([]))
  }

  /** The tree at an object, given the trees at its children. */
  function LocalTree(fs: seq<RefFile>, trees: seq<Tree>, d: Dims, id: nat): Tree
    requires id < |fs| && d.Ok()
  {
    if fs[id].isDir then
      if fs[id].size <= |fs[id].children| then Dir(Kids(trees, fs[id].children[..fs[id].size])) else Dir([])
    else File(d.Bucket(fs[id].size), fs[id].isOpen)
  }

  ghost predicate TreeOk(fs: seq<RefFile>, trees: seq<Tree>, d: Dims, id: nat)
    requires d.Ok()
  {
    id < |fs| == |trees| && trees[id] == LocalTree(fs, trees, d, id)
  }

  ghost predicate CodeOk(fs: seq<RefFile>, trees: seq<Tree>, id: nat) {
    && id < |fs| == |trees| && fs[id].encodeSize <= |fs[id].encode|
    && fs[id].encode[..fs[id].encodeSize] == Code(trees[id])
  }

  /** The trees are the trees of the table and the codes are theirs, except perhaps at `x`. */
  ghost predicate Coded(fs: seq<RefFile>, trees: seq<Tree>, used: set<nat>, d: Dims, x: int)
    requires d.Ok()
  {
    |trees| == |fs| && forall id :: id in used && id != x ==> TreeOk(fs, trees, d, id) && CodeOk(fs, trees, id)
  }

  /** A table determines its trees: recomputing them from scratch gives the same. */
  lemma {:induction false} TreesUnique(fs: seq<RefFile>, used: set<nat>, d: Dims, trees: seq<Tree>, trees': seq<Tree>, id: nat)
    requires d.Ok() && ShapeOk(fs, used, d) && id in used
    requires |trees| == |fs| == |trees'| && id < |fs|
    requires forall x :: x in used ==> TreeOk(fs, trees, d, x) && TreeOk(fs, trees', d, x)
    ensures trees[id] == trees'[id]
    decreases trees[id]
  {
    assert NodeShape(fs, used, d, id);
    var f := fs[id];
    if f.isDir {
      var ch := f.children[..f.size];
      forall i | 0 <= i < |ch| ensures Kids(trees, ch)[i] == Kids(trees', ch)[i] {
        assert IsChild(fs, id, ch[i]);
        assert trees[id].kids[i] == trees[ch[i]];
        TreesUnique(fs, used, d, trees, trees', ch[i]);
      }
      assert Kids(trees, ch) == Kids(trees', ch);
    }
  }

  /** Hence the code kept at an object is the one a full recomputation gives, and it is equal to
      the code kept in another table exactly when the two trees are isomorphic. */
  lemma CodesCompare(fs: seq<RefFile>, trees: seq<Tree>, used: set<nat>, d: Dims, id: nat,
                     fs': seq<RefFile>, trees': seq<Tree>, used': set<nat>, id': nat)
    requires d.Ok() && Coded(fs, trees, used, d, -1) && Coded(fs', trees', used', d, -1) && id in used && id' in used'
    ensures id < |fs| == |trees| && id' < |fs'| == |trees'|
    ensures fs[id].encodeSize <= |fs[id].encode| && fs'[id'].encodeSize <= |fs'[id'].encode|
    ensures fs[id].encode[..fs[id].encodeSize] == fs'[id'].encode[..fs'[id'].encodeSize] <==> Iso(trees[id], trees'[id'])
  {
    CodeIso(trees[id], trees'[id']);
  }

  // ----- Sorting children -----

  ghost predicate Le(trees: seq<Tree>, x: nat, y: nat) {
    x < |trees| && y < |trees| && Strcmp(Code(trees[x]), Code(trees[y])) <= 0
  }

  lemma LeTrans(trees: seq<Tree>, x: nat, y: nat, z: nat)
    requires Le(trees, x, y) && Le(trees, y, z)
    ensures Le(trees, x, z)
  {
    CodeBalanced(trees[x]);
    CodeBalanced(trees[y]);
    CodeBalanced(trees[z]);
    StrcmpTrans(Code(trees[x]), Code(trees[y]), Code(trees[z]));
  }

  /** The comparison of two code buffers orders the codes, whatever follows them. */
  lemma BufferOrder(fs: seq<RefFile>, trees: seq<Tree>, x: nat, y: nat)
    requires CodeOk(fs, trees, x) && CodeOk(fs, trees, y)
    ensures Strcmp(fs[x].encode, fs[y].encode) <= 0 ==> Le(trees, x, y)
    ensures Strcmp(fs[x].encode, fs[y].encode) > 0 ==> Le(trees, y, x)
  {
    hide Strcmp, Code;
    var a, b := fs[x], fs[y];
    assert a.encode == Code(trees[x]) + a.encode[a.encodeSize..];
    assert b.encode == Code(trees[y]) + b.encode[b.encodeSize..];
    CodeBalanced(trees[x]);
    CodeBalanced(trees[y]);
    StrcmpZero(Code(trees[x]), Code(trees[y]));
    if Code(trees[x]) != Code(trees[y]) {
      CompareEncode(trees[x], trees[y], a.encode[a.encodeSize..], b.encode[b.encodeSize..]);
    }
  }

  ghost predicate SortedBut(trees: seq<Tree>, s: seq<nat>, n: nat, j: int) {
    n <= |s| && forall a, b :: 0 <= a < b < n && b != j ==> Le(trees, s[a], s[b])
  }

  lemma SwapDown(trees: seq<Tree>, s: seq<nat>, n: nat, j: nat)
    requires SortedBut(trees, s, n, j) && 0 < j < n && Le(trees, s[j], s[j - 1])
    ensures SortedBut(trees, s[j - 1 := s[j]][j := s[j - 1]], n, j - 1)
    ensures multiset(s[j - 1 := s[j]][j := s[j - 1]]) == multiset(s)
  {
    hide Le;
  }

  lemma Settle(trees: seq<Tree>, s: seq<nat>, n: nat, j: nat)
    requires SortedBut(trees, s, n, j) && 0 < j < n && Le(trees, s[j - 1], s[j])
    ensures SortedBut(trees, s, n, -1)
  {
    hide Le;
    forall b | 0 <= b < j ensures Le(trees, s[b], s[j]) {
      if b < j - 1 {
        LeTrans(trees, s[b], s[j - 1], s[j]);
      }
    }
  }

  ghost predicate AllCoded(fs: seq<RefFile>, trees: seq<Tree>, s: multiset<nat>) {
    forall x :: x in s ==> CodeOk(fs, trees, x)
  }

  /** Sorts child numbers by the codes of the children. */
  method SortChildren(a: array<nat>, fs: seq<RefFile>, ghost trees: seq<Tree>)
    requires AllCoded(fs, trees, multiset(a[..]))
    modifies a
    ensures multiset(a[..]) == multiset(old(a[..])) && SortedBut(trees, a[..], a.Length, -1)
  {
    hide CodeOk, Le, SortedBut;
    var i := 0;
    SortedNone(trees, a[..]);
    while i < a.Length
      invariant i <= a.Length && multiset(a[..]) == multiset(old(a[..])) && SortedBut(trees, a[..], i, -1)
    {
      SortedMore(trees, a[..], i);
      Sink(a, i, fs, trees);
      i := i + 1;
    }
  }

  /** Moves entry `i` down to its place among the sorted entries before it. */
  method Sink(a: array<nat>, i: nat, fs: seq<RefFile>, ghost trees: seq<Tree>)
    requires i < a.Length && AllCoded(fs, trees, multiset(a[..])) && SortedBut(trees, a[..], i + 1, i)
    modifies a
    ensures multiset(a[..]) == multiset(old(a[..])) && SortedBut(trees, a[..], i + 1, -1)
  {
    hide CodeOk, Le, SortedBut;
    var j := i;
    while j > 0
      invariant 0 <= j <= i < a.Length && multiset(a[..]) == multiset(old(a[..])) && SortedBut(trees, a[..], i + 1, j)
    {
      assert a[j - 1] in a[..] && a[j] in a[..];
      BufferOrder(fs, trees, a[j - 1], a[j]);
      if !Greater(fs, trees, a[j - 1], a[j]) {
        Settle(trees, a[..], i + 1, j);
        return;
      }
      ghost var s := a[..];
      SwapDown(trees, s, i + 1, j);
      a[j - 1], a[j] := a[j], a[j - 1];
      assert a[..] == s[j - 1 := s[j]][j := s[j - 1]];
      j := j - 1;
    }
    SortedZero(trees, a[..], i + 1);
  }

  lemma SortedNone(trees: seq<Tree>, s: seq<nat>)
    ensures SortedBut(trees, s, 0, -1)
  {
  }

  lemma SortedMore(trees: seq<Tree>, s: seq<nat>, n: nat)
    requires SortedBut(trees, s, n, -1) && n < |s|
    ensures SortedBut(trees, s, n + 1, n)
  {
  }

  lemma SortedZero(trees: seq<Tree>, s: seq<nat>, n: nat)
    requires SortedBut(trees, s, n, 0)
    ensures SortedBut(trees, s, n, -1)
  {
  }

  predicate Greater(fs: seq<RefFile>, ghost trees: seq<Tree>, x: nat, y: nat)
    requires CodeOk(fs, trees, x) && CodeOk(fs, trees, y)
  {
    Strcmp(fs[x].encode, fs[y].encode) > 0
  }

  /** Sorted children need no further sorting. */
  lemma SortedKids(trees: seq<Tree>, ch: seq<nat>)
    requires SortedBut(trees, ch, |ch|, -1)
    ensures Code(Dir(Kids(trees, ch))) == "[" + Flat(Codes(Kids(trees, ch))) + "]"
  {
    hide Strcmp, Code;
    var codes := Codes(Kids(trees, ch));
    forall i, j | 0 <= i < j < |codes| ensures Strcmp(codes[i], codes[j]) <= 0 {
      assert Le(trees, ch[i], ch[j]);
    }
    SortedCodes(Kids(trees, ch));
    SortedUnique(Sort(codes), codes);
    DirCode(Kids(trees, ch));
  }

  lemma DirCode(kids: seq<Tree>)
    ensures Code(Dir(kids)) == "[" + Flat(Sort(Codes(kids))) + "]"
  {
  }

  // ----- Used and free lists -----

  function NextOf(list: seq<nat>, i: nat): int {
    if i + 1 < |list| then list[i + 1] else -1
  }

  ghost predicate Chain(fs: seq<RefFile>, head: int, list: seq<nat>) {
    && head == (if list == [] then -1 else list[0])
    && (forall i :: 0 <= i < |list| ==> list[i] < |fs|)
    && (forall i, j :: 0 <= i < j < |list| ==> list[i] != list[j])
    && (forall i {:trigger NextOf(list, i)} :: 0 <= i < |list| ==> fs[list[i]].next == NextOf(list, i))
  }

  /** Every object is used or free. */
  ghost predicate ListsOk(fs: seq<RefFile>, used: set<nat>, list: seq<nat>, free: seq<nat>, usedHead: int, freeHead: int, freeNum: nat) {
    && Chain(fs, usedHead, list) && Chain(fs, freeHead, free) && freeNum == |free|
    && (forall x :: x in used <==> x in list) && (forall x :: x in used ==> x !in free)
    && (forall x: nat :: x < |fs| ==> x in list || x in free)
  }

  ghost predicate SameNext(fs: seq<RefFile>, fs': seq<RefFile>) {
    |fs'| == |fs| && forall x :: 0 <= x < |fs| ==> fs'[x].next == fs[x].next
  }

  lemma ListsStay(fs: seq<RefFile>, fs': seq<RefFile>, used: set<nat>, list: seq<nat>, free: seq<nat>, u: int, f: int, n: nat)
    requires ListsOk(fs, used, list, free, u, f, n) && SameNext(fs, fs')
    ensures ListsOk(fs', used, list, free, u, f, n)
  {
  }

  lemma ChainTail(fs: seq<RefFile>, head: int, list: seq<nat>)
    requires Chain(fs, head, list) && list != []
    ensures 0 <= head < |fs| && Chain(fs, fs[head].next, list[1..])
  {
    assert NextOf(list, 0) == fs[list[0]].next;
    var rest := list[1..];
    forall i | 0 <= i < |rest| ensures fs[rest[i]].next == NextOf(rest, i) {
      assert NextOf(list, i + 1) == NextOf(rest, i);
    }
  }

  lemma ChainPush(fs: seq<RefFile>, head: int, list: seq<nat>, x: nat)
    requires Chain(fs, head, list) && x !in list && x < |fs| && fs[x].next == head
    ensures Chain(fs, x, [x] + list)
  {
    var l := [x] + list;
    forall i | 0 <= i < |l| ensures fs[l[i]].next == NextOf(l, i) {
      if i > 0 {
        assert NextOf(l, i) == NextOf(list, i - 1);
      }
    }
  }

  /** Objects outside a list do not matter to it. */
  lemma ChainFrame(fs: seq<RefFile>, fs': seq<RefFile>, head: int, list: seq<nat>)
    requires Chain(fs, head, list) && |fs'| == |fs| && forall i :: 0 <= i < |list| ==> fs'[list[i]].next == fs[list[i]].next
    ensures Chain(fs', head, list)
  {
    forall i | 0 <= i < |list| ensures fs'[list[i]].next == NextOf(list, i) {
      assert NextOf(list, i) == fs[list[i]].next;
    }
  }

  function Without(list: seq<nat>, k: nat): seq<nat>
    requires k < |list|
  {
    list[..k] + list[k + 1..]
  }

  /** Unlinking the object at place `k > 0`: its predecessor takes over its link. */
  lemma ChainUnlink(fs: seq<RefFile>, head: int, list: seq<nat>, k: nat)
    requires Chain(fs, head, list) && 0 < k < |list|
    ensures fs[list[k - 1]].next == list[k]
    ensures Chain(fs[list[k - 1] := fs[list[k - 1]].(next := fs[list[k]].next)], head, Without(list, k))
  {
    assert NextOf(list, k - 1) == fs[list[k - 1]].next && NextOf(list, k) == fs[list[k]].next;
    var fs' := fs[list[k - 1] := fs[list[k - 1]].(next := fs[list[k]].next)];
    var l := Without(list, k);
    forall i | 0 <= i < |l| ensures fs'[l[i]].next == NextOf(l, i) {
      if i < k - 1 {
        assert NextOf(l, i) == NextOf(list, i);
      } else if i >= k {
        assert NextOf(l, i) == NextOf(list, i + 1);
      }
    }
  }

  lemma WithoutIn(list: seq<nat>, k: nat)
    requires k < |list| && forall i, j :: 0 <= i < j < |list| ==> list[i] != list[j]
    ensures forall x :: x in Without(list, k) <==> x in list && x != list[k]
  {
    forall x | x in list && x != list[k] ensures x in Without(list, k) {
      var i :| 0 <= i < |list| && list[i] == x;
      if i < k {
        assert Without(list, k)[i] == x;
      } else {
        assert Without(list, k)[i - 1] == x;
      }
    }
  }

  // ----- Changes to the tree -----

  ghost predicate AllSized(fs: seq<RefFile>, d: Dims) {
    forall x :: 0 <= x < |fs| ==> |fs[x].encode| == d.maxEncode && |fs[x].children| == d.maxChild
  }

  /** The table, its lists, and its codes except perhaps at `x`. */
  ghost predicate TableOk(fs: seq<RefFile>, trees: seq<Tree>, used: set<nat>, d: Dims, x: int) {
    d.Ok() && AllSized(fs, d) && ShapeOk(fs, used, d) && Coded(fs, trees, used, d, x)
  }

  /** A new code and a new order of children for one object. */
  ghost predicate Recoded(fs: seq<RefFile>, fs': seq<RefFile>, trees: seq<Tree>, trees': seq<Tree>, d: Dims, id: nat) {
    && d.Ok() && id < |fs| == |trees| && |fs[id].children| == d.maxChild
    && var f, f' := fs[id], if id < |fs'| then fs'[id] else fs[id];
      && fs' == fs[id := f'] && f' == f.(encode := f'.encode, encodeSize := f'.encodeSize, children := f'.children)
      && |f'.encode| == d.maxEncode && |f'.children| == d.maxChild && f'.encodeSize <= d.maxEncode
      && (!f.isDir ==> f'.children == f.children)
      && (f.isDir ==> f.size <= d.maxChild && multiset(f'.children[..f.size]) == multiset(f.children[..f.size]))
      && trees' == trees[id := LocalTree(fs', trees, d, id)]
      && f'.encode[..f'.encodeSize] == Code(LocalTree(fs', trees, d, id))
  }

  lemma {:induction false} DistinctOf(s: seq<nat>, t: seq<nat>)
    requires multiset(s) == multiset(t) && forall i, j :: 0 <= i < j < |s| ==> s[i] != s[j]
    ensures forall i, j :: 0 <= i < j < |t| ==> t[i] != t[j]
  {
    forall x ensures multiset(s)[x] <= 1 {
      OccursOnce(s, x);
    }
    forall i, j | 0 <= i < j < |t| ensures t[i] != t[j] {
      if t[i] == t[j] {
        Twice(t, i, j);
      }
    }
  }

  lemma {:induction false} OccursOnce(s: seq<nat>, x: nat)
    requires forall i, j :: 0 <= i < j < |s| ==> s[i] != s[j]
    ensures multiset(s)[x] <= 1
  {
    if s != [] {
      OccursOnce(s[1..], x);
      assert s == [s[0]] + s[1..];
      if s[0] == x {
        assert x !in s[1..];
        assert x !in multiset(s[1..]);
      }
    }
  }

  lemma RecodedChild(fs: seq<RefFile>, fs': seq<RefFile>, trees: seq<Tree>, trees': seq<Tree>, d: Dims, id: nat)
    requires Recoded(fs, fs', trees, trees', d, id)
    ensures |fs'| == |fs| && id < |fs|
    ensures forall p: nat, c: nat :: IsChild(fs', p, c) <==> IsChild(fs, p, c)
    ensures fs[id].isDir && (forall i, j :: 0 <= i < j < fs[id].size ==> fs[id].children[i] != fs[id].children[j]) ==>
              forall i, j :: 0 <= i < j < fs[id].size ==> fs'[id].children[i] != fs'[id].children[j]
  {
    hide LocalTree, Code;
    var f, f' := fs[id], fs'[id];
    if f.isDir {
      var ch, ch' := f.children[..f.size], f'.children[..f.size];
      forall c ensures c in ch <==> c in ch' {
        assert c in multiset(ch) <==> c in multiset(ch');
      }
      if forall i, j :: 0 <= i < j < |ch| ==> ch[i] != ch[j] {
        DistinctOf(ch, ch');
        assert forall i :: 0 <= i < |ch'| ==> ch'[i] == f'.children[i];
      } else {
        assert forall i :: 0 <= i < |ch| ==> ch[i] == f.children[i];
      }
    }
  }

  /** The objects say the same but for their codes, their links and the order of their children. */
  ghost predicate SameLabel(f: RefFile, f': RefFile) {
    && f'.parent == f.parent && f'.depth == f.depth && f'.isDir == f.isDir
    && f'.size == f.size && f'.isOpen == f.isOpen && f'.fn == f.fn
  }

  ghost predicate SameLinks(fs: seq<RefFile>, fs': seq<RefFile>) {
    |fs'| == |fs| && forall y :: 0 <= y < |fs| ==> SameLabel(fs[y], fs'[y])
  }

  /** Object `x` is new and its parent has one more entry; nothing else differs. */
  ghost predicate OneMore(fs: seq<RefFile>, fs': seq<RefFile>, p: int, x: int) {
    && |fs'| == |fs| && 0 <= p < |fs|
    && (forall y :: 0 <= y < |fs| && y != x ==> SameLabel(if y == p then fs[y].(size := fs[y].size + 1) else fs[y], fs'[y]))
  }

  /** Object `x` is gone and its parent has one entry less; nothing else differs. */
  ghost predicate OneLess(fs: seq<RefFile>, fs': seq<RefFile>, p: int, x: int) {
    && |fs'| == |fs| && 0 <= p < |fs| && 0 < fs[p].size
    && (forall y :: 0 <= y < |fs| && y != x ==> SameLabel(if y == p then fs[y].(size := fs[y].size - 1) else fs[y], fs'[y]))
  }

  /** An object called `path` is gone. */
  ghost predicate TakenOut(fs: seq<RefFile>, fs': seq<RefFile>, used: set<nat>, used': set<nat>, path: string) {
    exists x: nat :: x in used && x < |fs| && fs[x].fn == path && used' == used - {x} && OneLess(fs, fs', fs[x].parent, x)
  }

  lemma RecodedShape(fs: seq<RefFile>, fs': seq<RefFile>, trees: seq<Tree>, trees': seq<Tree>, used: set<nat>, d: Dims, id: nat)
    requires AllSized(fs, d) && ShapeOk(fs, used, d) && id in used && Recoded(fs, fs', trees, trees', d, id)
    ensures AllSized(fs', d) && ShapeOk(fs', used, d)
  {
    hide IsChild;
    RecodedChild(fs, fs', trees, trees', d, id);
    assert Down(fs, used, d, id) by { ShapeAt(fs, used, d, id); }
    assert SameLinks(fs, fs') by { hide ShapeOk; }
    forall x | x in used ensures NodeShape(fs', used, d, x) {
      ShapeAt(fs, used, d, x);
      hide ShapeOk, Recoded;
      assert Up(fs', used, x);
      assert Down(fs', used, d, x) by { SameDown(fs, fs', used, d, x); }
    }
  }

  lemma SameDown(fs: seq<RefFile>, fs': seq<RefFile>, used: set<nat>, d: Dims, x: nat)
    requires Down(fs, used, d, x) && |fs'| == |fs| && |fs'[x].children| == d.maxChild
    requires fs'[x].isDir == fs[x].isDir && fs'[x].size == fs[x].size && fs'[x].isOpen == fs[x].isOpen
    requires forall p: nat, c: nat :: IsChild(fs', p, c) <==> IsChild(fs, p, c)
    requires forall y :: 0 <= y < |fs| ==> fs'[y].parent == fs[y].parent
    requires fs[x].isDir ==> forall i, j :: 0 <= i < j < fs[x].size ==> fs'[x].children[i] != fs'[x].children[j]
    ensures Down(fs', used, d, x)
  {
    hide IsChild;
  }

  /** Recoding one object leaves only its parent to be recoded. */
  lemma RecodedKeeps(fs: seq<RefFile>, fs': seq<RefFile>, trees: seq<Tree>, trees': seq<Tree>, used: set<nat>, d: Dims, id: nat)
    requires TableOk(fs, trees, used, d, id) && id in used && Recoded(fs, fs', trees, trees', d, id)
    ensures id < |fs| && TableOk(fs', trees', used, d, fs[id].parent)
  {
    hide Code, ShapeOk, AllSized;
    RecodedShape(fs, fs', trees, trees', used, d, id);
    forall x | x in used && x != fs[id].parent ensures TreeOk(fs', trees', d, x) && CodeOk(fs', trees', x) {
      RecodedNode(fs, fs', trees, trees', used, d, id, x);
    }
  }

  lemma RecodedNode(fs: seq<RefFile>, fs': seq<RefFile>, trees: seq<Tree>, trees': seq<Tree>, used: set<nat>, d: Dims, id: nat, x: nat)
    requires d.Ok() && ShapeOk(fs', used, d) && Coded(fs, trees, used, d, id) && Recoded(fs, fs', trees, trees', d, id)
    requires id in used && x in used && x != fs[id].parent && x < |fs|
    ensures TreeOk(fs', trees', d, x) && CodeOk(fs', trees', x)
  {
    hide Code, ShapeOk;
    ShapeAt(fs', used, d, x);
    if fs'[x].isDir {
      var ch := fs'[x].children[..fs'[x].size];
      forall i | 0 <= i < |ch| ensures ch[i] != id {
        assert IsChild(fs', x, ch[i]);
        assert fs'[ch[i]].parent == x;
      }
      assert Kids(trees', ch) == Kids(trees, ch);
    }
  }

  lemma ShapeAt(fs: seq<RefFile>, used: set<nat>, d: Dims, x: nat)
    requires ShapeOk(fs, used, d) && x in used
    ensures x < |fs| && NodeShape(fs, used, d, x)
  {
  }

  function Labelled(fs: seq<RefFile>, id: nat, size: nat, isOpen: bool): seq<RefFile>
    requires id < |fs|
  {
    fs[id := fs[id].(size := size, isOpen := isOpen)]
  }

  lemma LabelShape(fs: seq<RefFile>, used: set<nat>, d: Dims, id: nat, size: nat, isOpen: bool)
    requires ShapeOk(fs, used, d) && id in used && id < |fs| && !fs[id].isDir
    ensures ShapeOk(Labelled(fs, id, size, isOpen), used, d)
  {
    var fs' := Labelled(fs, id, size, isOpen);
    forall x | x in used ensures NodeShape(fs', used, d, x) {
      LabelNode(fs, used, d, id, size, isOpen, x);
    }
  }

  lemma LabelNode(fs: seq<RefFile>, used: set<nat>, d: Dims, id: nat, size: nat, isOpen: bool, x: nat)
    requires ShapeOk(fs, used, d) && id in used && id < |fs| && !fs[id].isDir && x in used
    ensures NodeShape(Labelled(fs, id, size, isOpen), used, d, x)
  {
    hide ShapeOk, IsChild;
    var fs' := Labelled(fs, id, size, isOpen);
    forall p: nat, c: nat ensures IsChild(fs', p, c) <==> IsChild(fs, p, c) {
      LabelChild(fs, id, size, isOpen, p, c);
    }
    ShapeAt(fs, used, d, id);
    ShapeAt(fs, used, d, x);
    if x != id {
      SameDown(fs, fs', used, d, x);
    }
  }

  lemma LabelChild(fs: seq<RefFile>, id: nat, size: nat, isOpen: bool, p: nat, c: nat)
    requires id < |fs| && !fs[id].isDir
    ensures IsChild(Labelled(fs, id, size, isOpen), p, c) <==> IsChild(fs, p, c)
  {
  }

  /** A new label on a file leaves only that file to be recoded. */
  lemma LabelKeeps(fs: seq<RefFile>, trees: seq<Tree>, used: set<nat>, d: Dims, id: nat, size: nat, isOpen: bool)
    requires TableOk(fs, trees, used, d, -1) && id in used && id < |fs| && !fs[id].isDir
    ensures TableOk(Labelled(fs, id, size, isOpen), trees, used, d, id)
  {
    hide Code, LocalTree, ShapeOk;
    var fs' := Labelled(fs, id, size, isOpen);
    LabelShape(fs, used, d, id, size, isOpen);
    forall x | x in used && x != id ensures TreeOk(fs', trees, d, x) && CodeOk(fs', trees, x) {
      LocalSame(fs, fs', trees, trees, d, x);
    }
  }

  /** The tree at an object depends on that object and on the trees at its children. */
  lemma LocalSame(fs: seq<RefFile>, fs': seq<RefFile>, trees: seq<Tree>, trees': seq<Tree>, d: Dims, x: nat)
    requires d.Ok() && x < |fs| && x < |fs'| && |trees| == |trees'|
    requires fs'[x].isDir == fs[x].isDir && fs'[x].size == fs[x].size && fs'[x].isOpen == fs[x].isOpen && fs'[x].children == fs[x].children
    requires forall c: nat :: IsChild(fs, x, c) && c < |trees| ==> trees'[c] == trees[c]
    ensures LocalTree(fs', trees', d, x) == LocalTree(fs, trees, d, x)
  {
    if fs[x].isDir && fs[x].size <= |fs[x].children| {
      var ch := fs[x].children[..fs[x].size];
      forall i | 0 <= i < |ch| ensures Kids(trees', ch)[i] == Kids(trees, ch)[i] {
        assert IsChild(fs, x, ch[i]);
      }
      assert Kids(trees', ch) == Kids(trees, ch);
    }
  }

  // ----- Adding an object -----

  ghost predicate Added(fs: seq<RefFile>, fs': seq<RefFile>, trees: seq<Tree>, trees': seq<Tree>, d: Dims, p: nat, x: nat) {
    && d.Ok() && p < |fs| == |trees| && x < |fs| && p != x && |fs'| == |fs|
    && var f := fs[p];
      && f.isDir && f.size < |f.children|
      && fs'[p] == f.(size := f.size + 1, children := f.children[f.size := x])
      && fs'[x].parent == p && fs'[x].depth == f.depth + 1 && fs'[x].size == 0 && !fs'[x].isOpen
      && |fs'[x].encode| == d.maxEncode && |fs'[x].children| == d.maxChild && fs'[x].encodeSize <= d.maxEncode
      && trees' == trees[x := if fs'[x].isDir then Dir([]) else File(0, false)]
      && fs'[x].encode[..fs'[x].encodeSize] == Code(trees'[x])
      && forall y :: 0 <= y < |fs| && y != p && y != x ==> fs'[y] == fs[y].(next := fs'[y].next)
  }

  lemma AddedChild(fs: seq<RefFile>, fs': seq<RefFile>, trees: seq<Tree>, trees': seq<Tree>, d: Dims, p: nat, x: nat, q: nat, c: nat)
    requires Added(fs, fs', trees, trees', d, p, x)
    ensures q != x ==> (IsChild(fs', q, c) <==> IsChild(fs, q, c) || (q == p && c == x))
    ensures !IsChild(fs', x, c)
  {
    hide Code;
    if q == p {
      var f, f' := fs[p], fs'[p];
      assert f'.children[..f'.size] == f.children[..f.size] + [x];
    }
  }

  lemma AddedShape(fs: seq<RefFile>, fs': seq<RefFile>, trees: seq<Tree>, trees': seq<Tree>, used: set<nat>, d: Dims, p: nat, x: nat)
    requires TableOk(fs, trees, used, d, -1) && p in used && x !in used && Added(fs, fs', trees, trees', d, p, x)
    ensures AllSized(fs', d) && ShapeOk(fs', used + {x}, d)
  {
    hide Coded, IsChild, Down, Up, Code;
    forall y | y in used + {x} ensures NodeShape(fs', used + {x}, d, y) {
      AddedUp(fs, fs', trees, trees', used, d, p, x, y);
      AddedDown(fs, fs', trees, trees', used, d, p, x, y);
    }
  }

  lemma AddedUp(fs: seq<RefFile>, fs': seq<RefFile>, trees: seq<Tree>, trees': seq<Tree>, used: set<nat>, d: Dims, p: nat, x: nat, y: nat)
    requires ShapeOk(fs, used, d) && p in used && x !in used && y in used + {x} && Added(fs, fs', trees, trees', d, p, x)
    ensures Up(fs', used + {x}, y)
  {
    hide Code, IsChild, ShapeOk;
    if y == x {
      AddedChild(fs, fs', trees, trees', d, p, x, p, x);
      RootUsed(fs, used, d);
    } else {
      ShapeAt(fs, used, d, y);
      if y != 0 {
        AddedChild(fs, fs', trees, trees', d, p, x, fs[y].parent, y);
      }
    }
  }

  lemma RootUsed(fs: seq<RefFile>, used: set<nat>, d: Dims)
    requires ShapeOk(fs, used, d)
    ensures 0 in used && 0 < |fs|
  {
  }

  lemma AddedDown(fs: seq<RefFile>, fs': seq<RefFile>, trees: seq<Tree>, trees': seq<Tree>, used: set<nat>, d: Dims, p: nat, x: nat, y: nat)
    requires ShapeOk(fs, used, d) && p in used && x !in used && y in used + {x} && Added(fs, fs', trees, trees', d, p, x)
    requires AllSized(fs, d)
    ensures Down(fs', used + {x}, d, y)
  {
    hide Code, IsChild, ShapeOk;
    forall c: nat | IsChild(fs', y, c) ensures c in used + {x} && c < |fs'| && fs'[c].parent == y {
      AddedChild(fs, fs', trees, trees', d, p, x, y, c);
      if y != x {
        ShapeAt(fs, used, d, y);
      }
    }
    if y == p {
      ShapeAt(fs, used, d, p);
      forall i | 0 <= i < fs[p].size ensures fs[p].children[i] != x {
        assert IsChild(fs, p, fs[p].children[i]) by { IsChildAt(fs, p, i); }
      }
    } else if y != x {
      ShapeAt(fs, used, d, y);
    }
  }

  lemma IsChildAt(fs: seq<RefFile>, p: nat, i: nat)
    requires p < |fs| && fs[p].isDir && i < fs[p].size <= |fs[p].children|
    ensures IsChild(fs, p, fs[p].children[i])
  {
    assert fs[p].children[..fs[p].size][i] == fs[p].children[i];
  }

  /** A new leaf leaves only its parent to be recoded. */
  lemma AddedKeeps(fs: seq<RefFile>, fs': seq<RefFile>, trees: seq<Tree>, trees': seq<Tree>, used: set<nat>, d: Dims, p: nat, x: nat)
    requires TableOk(fs, trees, used, d, -1) && p in used && x !in used && Added(fs, fs', trees, trees', d, p, x)
    ensures TableOk(fs', trees', used + {x}, d, p)
  {
    AddedShape(fs, fs', trees, trees', used, d, p, x);
    forall y | y in used + {x} && y != p ensures TreeOk(fs', trees', d, y) && CodeOk(fs', trees', y) {
      AddedNode(fs, fs', trees, trees', used, d, p, x, y);
    }
  }

  lemma AddedNode(fs: seq<RefFile>, fs': seq<RefFile>, trees: seq<Tree>, trees': seq<Tree>, used: set<nat>, d: Dims, p: nat, x: nat, y: nat)
    requires TableOk(fs, trees, used, d, -1) && p in used && x !in used && Added(fs, fs', trees, trees', d, p, x)
    requires y in used + {x} && y != p
    ensures TreeOk(fs', trees', d, y) && CodeOk(fs', trees', y)
  {
    hide Code, ShapeOk, LocalTree, IsChild;
    if y == x {
      LeafTree(fs', trees', d, x);
    } else {
      ShapeAt(fs, used, d, y);
      LocalSame(fs, fs', trees, trees', d, y);
    }
  }

  lemma LeafTree(fs: seq<RefFile>, trees: seq<Tree>, d: Dims, x: nat)
    requires d.Ok() && x < |fs| && fs[x].size == 0 && !fs[x].isOpen
    ensures LocalTree(fs, trees, d, x) == if fs[x].isDir then Dir([]) else File(0, false)
  {
    if fs[x].isDir {
      assert Kids(trees, fs[x].children[..0]) == [];
    } else {
      assert (d.blockSize - 1) / d.blockSize == 0 && 0 / d.scale == 0;
    }
  }

  // ----- Removing an object -----

  ghost predicate Removed(fs: seq<RefFile>, fs': seq<RefFile>, d: Dims, p: nat, x: nat, i: nat) {
    && p < |fs| && x < |fs| && p != x && |fs'| == |fs|
    && var f := fs[p];
      && f.isDir && i < f.size <= |f.children| && f.children[i] == x
      && fs'[p] == f.(size := f.size - 1, children := f.children[i := f.children[f.size - 1]][f.size - 1 := 0])
      && (fs[x].isDir ==> fs[x].size == 0)
      && forall y :: 0 <= y < |fs| && y != p && y != x ==> fs'[y] == fs[y].(next := fs'[y].next)
  }

  lemma RemovedChild(fs: seq<RefFile>, fs': seq<RefFile>, used: set<nat>, d: Dims, p: nat, x: nat, i: nat, q: nat, c: nat)
    requires Removed(fs, fs', d, p, x, i) && Down(fs, used, d, p) && q != x
    ensures IsChild(fs', q, c) <==> IsChild(fs, q, c) && (q != p || c != x)
  {
    if q == p {
      var f, f' := fs[p], fs'[p];
      var ch, ch' := f.children[..f.size], f'.children[..f.size - 1];
      if c in ch && c != x {
        var k :| 0 <= k < |ch| && ch[k] == c;
        assert ch'[if k == f.size - 1 then i else k] == c;
      }
      if c in ch' {
        var k :| 0 <= k < |ch'| && ch'[k] == c;
        assert ch[if k == i then f.size - 1 else k] == c;
        assert c != x;
      }
    }
  }

  lemma RemovedDown(fs: seq<RefFile>, fs': seq<RefFile>, used: set<nat>, d: Dims, p: nat, x: nat, i: nat, y: nat)
    requires ShapeOk(fs, used, d) && p in used && x in used && y in used && y != x && Removed(fs, fs', d, p, x, i)
    requires fs[x].parent == p
    ensures Down(fs', used - {x}, d, y)
  {
    hide IsChild, ShapeOk;
    ShapeAt(fs, used, d, p);
    ShapeAt(fs, used, d, y);
    forall c: nat | IsChild(fs', y, c) ensures c in used - {x} && c < |fs'| && fs'[c].parent == y {
      RemovedChild(fs, fs', used, d, p, x, i, y, c);
    }
  }

  lemma RemovedUp(fs: seq<RefFile>, fs': seq<RefFile>, used: set<nat>, d: Dims, p: nat, x: nat, i: nat, y: nat)
    requires ShapeOk(fs, used, d) && p in used && x in used && y in used && y != x && Removed(fs, fs', d, p, x, i)
    ensures Up(fs', used - {x}, y)
  {
    hide IsChild, ShapeOk;
    ShapeAt(fs, used, d, p);
    ShapeAt(fs, used, d, y);
    if y != 0 {
      assert fs[y].parent != x by {
        if fs[y].parent == x {
          NoChildren(fs, x, y);
        }
      }
      RemovedChild(fs, fs', used, d, p, x, i, fs[y].parent, y);
    }
  }

  lemma NoChildren(fs: seq<RefFile>, x: nat, y: nat)
    requires x < |fs| && (fs[x].isDir ==> fs[x].size == 0)
    ensures !IsChild(fs, x, y)
  {
  }

  /** Taking a leaf out leaves only its parent to be recoded. */
  lemma RemovedKeeps(fs: seq<RefFile>, fs': seq<RefFile>, trees: seq<Tree>, used: set<nat>, d: Dims, p: nat, x: nat, i: nat)
    requires TableOk(fs, trees, used, d, -1) && p in used && x in used && x != 0 && Removed(fs, fs', d, p, x, i)
    requires fs[x].parent == p && |fs'[x].encode| == d.maxEncode && |fs'[x].children| == d.maxChild
    ensures TableOk(fs', trees, used - {x}, d, p)
  {
    hide Down, Up, IsChild;
    forall y | y in used - {x} ensures NodeShape(fs', used - {x}, d, y) {
      RemovedUp(fs, fs', used, d, p, x, i, y);
      RemovedDown(fs, fs', used, d, p, x, i, y);
    }
    forall y | y in used - {x} && y != p ensures TreeOk(fs', trees, d, y) && CodeOk(fs', trees, y) {
      hide Code, LocalTree, IsChild;
      LocalSame(fs, fs', trees, trees, d, y);
    }
  }

  // ----- Lengths of codes -----

  function Len(fs: seq<RefFile>, x: nat): nat {
    if x < |fs| then fs[x].encodeSize else 0
  }

  function ChildSum(fs: seq<RefFile>, ch: seq<nat>): nat {
    if ch == [] then 0 else Len(fs, ch[0]) + ChildSum(fs, ch[1..])
  }

  /** The length of the code that recoding an object gives. */
  function NewLen(fs: seq<RefFile>, d: Dims, id: nat): nat
    requires d.Ok() && id < |fs|
  {
    if !fs[id].isDir then |FileCode(d.Bucket(fs[id].size), fs[id].isOpen)|
    else if fs[id].size <= |fs[id].children| then 2 + ChildSum(fs, fs[id].children[..fs[id].size]) else 2
  }

  /** The length that the code of the root has once an object and all above it are recoded: the root
      grows by what the object grows. */
  function Need(fs: seq<RefFile>, d: Dims, id: nat): int
    requires d.Ok() && id < |fs|
  {
    fs[0].encodeSize - fs[id].encodeSize + NewLen(fs, d, id)
  }

  ghost predicate AllStored(fs: seq<RefFile>, trees: seq<Tree>, used: set<nat>) {
    forall x :: x in used ==> CodeOk(fs, trees, x)
  }

  lemma {:induction false} SumSplit(fs: seq<RefFile>, a: seq<nat>, b: seq<nat>)
    ensures ChildSum(fs, a + b) == ChildSum(fs, a) + ChildSum(fs, b)
  {
    if a == [] {
      assert a + b == b;
    } else {
      assert (a + b)[1..] == a[1..] + b;
      SumSplit(fs, a[1..], b);
    }
  }

  lemma {:induction false} SumFrame(fs: seq<RefFile>, fs': seq<RefFile>, ch: seq<nat>)
    requires forall i :: 0 <= i < |ch| ==> Len(fs', ch[i]) == Len(fs, ch[i])
    ensures ChildSum(fs', ch) == ChildSum(fs, ch)
  {
    if ch != [] {
      SumFrame(fs, fs', ch[1..]);
    }
  }

  lemma SumPick(fs: seq<RefFile>, ch: seq<nat>, k: nat)
    requires k < |ch|
    ensures ChildSum(fs, ch) == ChildSum(fs, ch[..k]) + Len(fs, ch[k]) + ChildSum(fs, ch[k + 1..])
  {
    assert ch == ch[..k] + ([ch[k]] + ch[k + 1..]);
    SumSplit(fs, ch[..k], [ch[k]] + ch[k + 1..]);
  }

  /** A child that is entered once changes the sum by what its code changes. */
  lemma SumChange(fs: seq<RefFile>, fs': seq<RefFile>, ch: seq<nat>, k: nat)
    requires k < |ch| && forall i :: 0 <= i < |ch| && i != k ==> Len(fs', ch[i]) == Len(fs, ch[i])
    ensures ChildSum(fs', ch) == ChildSum(fs, ch) - Len(fs, ch[k]) + Len(fs', ch[k])
  {
    SumPick(fs, ch, k);
    SumPick(fs', ch, k);
    SumFrame(fs, fs', ch[..k]);
    SumFrame(fs, fs', ch[k + 1..]);
  }

  /** Without entry `i`, whose place the last one takes. */
  lemma SumWithout(fs: seq<RefFile>, ch: seq<nat>, i: nat)
    requires i < |ch|
    ensures ChildSum(fs, ch[i := ch[|ch| - 1]][..|ch| - 1]) == ChildSum(fs, ch) - Len(fs, ch[i])
  {
    var n := |ch| - 1;
    SumPick(fs, ch, n);
    assert ch[n + 1..] == [];
    if i == n {
      assert ch[i := ch[n]][..n] == ch[..n];
    } else {
      var t := ch[i := ch[n]][..n];
      SumPick(fs, t, i);
      SumPick(fs, ch[..n], i);
      assert t[..i] == ch[..n][..i] && t[i + 1..] == ch[..n][i + 1..];
    }
  }

  lemma {:induction false} FlatSum(fs: seq<RefFile>, trees: seq<Tree>, ch: seq<nat>)
    requires forall i :: 0 <= i < |ch| ==> CodeOk(fs, trees, ch[i])
    ensures |Flat(Codes(Kids(trees, ch)))| == ChildSum(fs, ch)
  {
    hide Code;
    if ch != [] {
      FlatSum(fs, trees, ch[1..]);
      assert Codes(Kids(trees, ch))[1..] == Codes(Kids(trees, ch[1..]));
      assert CodeOk(fs, trees, ch[0]);
    }
  }

  lemma {:induction false} FlatInsert(s: string, sorted: seq<string>)
    ensures |Flat(Insert(s, sorted))| == |s| + |Flat(sorted)|
  {
    if sorted != [] && Strcmp(s, sorted[0]) > 0 {
      FlatInsert(s, sorted[1..]);
    }
  }

  lemma {:induction false} FlatSort(codes: seq<string>)
    ensures |Flat(Sort(codes))| == |Flat(codes)|
  {
    if codes != [] {
      FlatSort(codes[1..]);
      FlatInsert(codes[0], Sort(codes[1..]));
    }
  }

  /** The tree at an object has a code of the length computed from the codes of its children. */
  lemma NodeLen(fs: seq<RefFile>, trees: seq<Tree>, used: set<nat>, d: Dims, id: nat)
    requires d.Ok() && ShapeOk(fs, used, d) && AllStored(fs, trees, used) && id in used && id < |fs|
    ensures |Code(LocalTree(fs, trees, d, id))| == NewLen(fs, d, id)
  {
    hide CodeOk, Flat, Sort, FileCode, ShapeOk;
    ShapeAt(fs, used, d, id);
    if fs[id].isDir && fs[id].size <= |fs[id].children| {
      var ch := fs[id].children[..fs[id].size];
      forall i | 0 <= i < |ch| ensures CodeOk(fs, trees, ch[i]) {
        assert IsChild(fs, id, ch[i]);
      }
      FlatSum(fs, trees, ch);
      FlatSort(Codes(Kids(trees, ch)));
    }
  }

  /** An object whose tree is right keeps a code of that length. */
  lemma StoredLen(fs: seq<RefFile>, trees: seq<Tree>, used: set<nat>, d: Dims, id: nat)
    requires d.Ok() && ShapeOk(fs, used, d) && AllStored(fs, trees, used) && id in used && id < |fs| && TreeOk(fs, trees, d, id)
    ensures fs[id].encodeSize == NewLen(fs, d, id)
  {
    hide Code, LocalTree, ShapeOk;
    NodeLen(fs, trees, used, d, id);
    assert CodeOk(fs, trees, id);
  }

  /** An object is entered in its parent once. */
  lemma PlaceOf(fs: seq<RefFile>, used: set<nat>, d: Dims, id: nat) returns (k: nat)
    requires ShapeOk(fs, used, d) && id in used && id < |fs| && id != 0
    ensures 0 <= fs[id].parent < |fs| && fs[id].parent in used && fs[id].parent != id && fs[fs[id].parent].isDir
    ensures var p := fs[fs[id].parent];
      p.depth < fs[id].depth && k < p.size <= |p.children| && p.children[k] == id && forall i :: 0 <= i < p.size && i != k ==> p.children[i] != id
  {
    ShapeAt(fs, used, d, id);
    var p: nat := fs[id].parent;
    ShapeAt(fs, used, d, p);
    k :| 0 <= k < fs[p].size && fs[p].children[..fs[p].size][k] == id;
  }

  /** No code is longer than that of the root while the objects above it have their codes. */
  lemma {:induction false} RootLongest(fs: seq<RefFile>, trees: seq<Tree>, used: set<nat>, d: Dims, x: nat, id: nat)
    requires TableOk(fs, trees, used, d, x) && AllStored(fs, trees, used) && id in used && id < |fs| && x < |fs|
    requires fs[id].depth <= fs[x].depth
    ensures fs[0].encodeSize >= fs[id].encodeSize + if id == 0 then 0 else 2
    decreases fs[id].depth
  {
    hide Code, LocalTree, ShapeOk, TreeOk, CodeOk;
    if id != 0 {
      var k := PlaceOf(fs, used, d, id);
      var p: nat := fs[id].parent;
      StoredLen(fs, trees, used, d, p);
      SumPick(fs, fs[p].children[..fs[p].size], k);
      RootLongest(fs, trees, used, d, x, p);
    }
  }

  /** Recoding an object passes what the root needs on to its parent. */
  lemma NeedUp(fs: seq<RefFile>, fs': seq<RefFile>, trees: seq<Tree>, used: set<nat>, d: Dims, id: nat)
    requires TableOk(fs, trees, used, d, id) && AllStored(fs, trees, used) && id in used && id < |fs| && id != 0
    requires |fs'| == |fs| && fs'[id].encodeSize == NewLen(fs, d, id) && forall y :: 0 <= y < |fs| && y != id ==> fs'[y] == fs[y]
    ensures 0 <= fs[id].parent < |fs| && Need(fs', d, fs[id].parent) == Need(fs, d, id)
  {
    hide Code, LocalTree, ShapeOk, TreeOk, CodeOk;
    var k := PlaceOf(fs, used, d, id);
    var p: nat := fs[id].parent;
    StoredLen(fs, trees, used, d, p);
    SumChange(fs, fs', fs[p].children[..fs[p].size], k);
  }

  lemma Taken(s: seq<nat>, k: nat)
    requires k < |s|
    ensures multiset(s[..k] + s[k + 1..]) == multiset(s) - multiset{s[k]}
  {
    assert s == s[..k] + ([s[k]] + s[k + 1..]);
  }

  lemma {:induction false} SumPerm(fs: seq<RefFile>, s: seq<nat>, t: seq<nat>)
    requires multiset(s) == multiset(t)
    ensures ChildSum(fs, s) == ChildSum(fs, t)
  {
    if s == [] {
      assert |multiset(t)| == 0;
    } else {
      assert s == [s[0]] + s[1..];
      assert s[0] in multiset(t);
      var k :| 0 <= k < |t| && t[k] == s[0];
      var rest := t[..k] + t[k + 1..];
      Taken(s, 0);
      Taken(t, k);
      assert s[..0] + s[1..] == s[1..];
      SumPerm(fs, s[1..], rest);
      SumPick(fs, t, k);
      SumSplit(fs, t[..k], t[k + 1..]);
    }
  }

  lemma RecodedStored(fs: seq<RefFile>, fs': seq<RefFile>, trees: seq<Tree>, trees': seq<Tree>, used: set<nat>, d: Dims, id: nat)
    requires AllStored(fs, trees, used) && Recoded(fs, fs', trees, trees', d, id)
    ensures AllStored(fs', trees', used)
  {
    hide Code, LocalTree;
    forall x | x in used ensures CodeOk(fs', trees', x) {
      assert CodeOk(fs, trees, x);
    }
  }

  lemma TableStored(fs: seq<RefFile>, trees: seq<Tree>, used: set<nat>, d: Dims)
    requires TableOk(fs, trees, used, d, -1)
    ensures AllStored(fs, trees, used) && 0 in used && 0 < |fs| && fs[0].encodeSize <= d.maxEncode
    ensures forall x: nat :: x in used ==> x < |fs| && fs[x].encodeSize == NewLen(fs, d, x)
  {
    hide Code, LocalTree, NewLen;
    RootUsed(fs, used, d);
    assert CodeOk(fs, trees, 0);
    forall x: nat | x in used ensures x < |fs| && fs[x].encodeSize == NewLen(fs, d, x) {
      ShapeAt(fs, used, d, x);
      StoredLen(fs, trees, used, d, x);
    }
  }

  /** A new label on a file changes the length of its code alone. */
  lemma LabelNeed(fs: seq<RefFile>, trees: seq<Tree>, used: set<nat>, d: Dims, id: nat, size: nat, isOpen: bool)
    requires TableOk(fs, trees, used, d, -1) && id in used && id < |fs| && !fs[id].isDir
    ensures AllStored(Labelled(fs, id, size, isOpen), trees, used)
    ensures Need(Labelled(fs, id, size, isOpen), d, id) == fs[0].encodeSize + |FileCode(d.Bucket(size), isOpen)| - |FileCode(d.Bucket(fs[id].size), fs[id].isOpen)|
  {
    hide Code, LocalTree, ShapeOk;
    var fs' := Labelled(fs, id, size, isOpen);
    TableStored(fs, trees, used, d);
    forall x | x in used ensures CodeOk(fs', trees, x) {
      assert CodeOk(fs, trees, x);
    }
  }

  /** A new leaf adds its code to what the root needs. */
  lemma AddedNeed(fs: seq<RefFile>, fs': seq<RefFile>, trees: seq<Tree>, trees': seq<Tree>, used: set<nat>, d: Dims, p: nat, x: nat)
    requires TableOk(fs, trees, used, d, -1) && p in used && x !in used && Added(fs, fs', trees, trees', d, p, x)
    ensures AllStored(fs', trees', used + {x})
    ensures Need(fs', d, p) == fs[0].encodeSize + fs'[x].encodeSize
  {
    hide Code, LocalTree, ShapeOk;
    TableStored(fs, trees, used, d);
    forall y | y in used + {x} ensures CodeOk(fs', trees', y) {
      if y != x {
        assert CodeOk(fs, trees, y);
      }
    }
    var f, f' := fs[p], fs'[p];
    var ch := f.children[..f.size];
    assert f'.children[..f'.size] == ch + [x];
    SumSplit(fs', ch, [x]);
    assert [x][1..] == [];
    ShapeAt(fs, used, d, p);
    forall i | 0 <= i < |ch| ensures Len(fs', ch[i]) == Len(fs, ch[i]) {
      assert IsChild(fs, p, ch[i]);
    }
    SumFrame(fs, fs', ch);
  }

  /** Without a leaf the root needs that much less. */
  lemma RemovedNeed(fs: seq<RefFile>, fs': seq<RefFile>, trees: seq<Tree>, used: set<nat>, d: Dims, p: nat, x: nat, i: nat)
    requires TableOk(fs, trees, used, d, -1) && p in used && x in used && x != 0 && Removed(fs, fs', d, p, x, i)
    ensures AllStored(fs', trees, used - {x})
    ensures Need(fs', d, p) == fs[0].encodeSize - fs[x].encodeSize <= d.maxEncode
  {
    hide Code, LocalTree, ShapeOk;
    TableStored(fs, trees, used, d);
    forall y | y in used - {x} ensures CodeOk(fs', trees, y) {
      assert CodeOk(fs, trees, y);
    }
    var f, f' := fs[p], fs'[p];
    var ch := f.children[..f.size];
    var ch' := f'.children[..f'.size];
    assert ch' == ch[i := ch[|ch| - 1]][..|ch| - 1];
    SumWithout(fs, ch, i);
    ShapeAt(fs, used, d, p);
    forall j | 0 <= j < |ch'| ensures Len(fs', ch'[j]) == Len(fs, ch'[j]) {
      assert ch'[j] != x;
    }
    SumFrame(fs, fs', ch');
  }

  /** An object whose code gets too long makes the code of the root too long. */
  lemma TooLongAbove(fs: seq<RefFile>, trees: seq<Tree>, used: set<nat>, d: Dims, id: nat)
    requires TableOk(fs, trees, used, d, id) && AllStored(fs, trees, used) && id in used && id < |fs|
    requires NewLen(fs, d, id) > d.maxEncode || (!fs[id].isDir && NewLen(fs, d, id) == d.maxEncode)
    ensures Need(fs, d, id) > d.maxEncode
  {
    hide Code, LocalTree, ShapeOk, Coded, AllStored, NewLen;
    RootLongest(fs, trees, used, d, id, id);
    ShapeAt(fs, used, d, id);
  }

  // ----- The operations -----

  datatype Outcome = Done | NoParent | NotDirectory | TooLong | NotFound | WrongState

  /** The path of the parent: what precedes the last backslash, or the root. */
  function LastSlash(path: string): int {
    if path == "" then -1 else if path[|path| - 1] == '\\' then |path| - 1 else LastSlash(path[..|path| - 1])
  }

  function ParentPath(path: string): string
    requires 0 <= LastSlash(path) < |path|
  {
    if LastSlash(path) > 0 then path[..LastSlash(path)] else path[..1]
  }

  /** The parent's path is what stands before the last backslash; before nothing stands the root. */
  lemma ParentExact(path: string, before: string, name: string)
    requires '\\' !in name && path == before + "\\" + name
    ensures 0 <= LastSlash(path) < |path| && ParentPath(path) == if before == "" then "\\" else before
  {
    SlashAt(path, before, name);
    assert path[..|before|] == before;
    if before == "" {
      assert path[..1] == "\\";
    }
  }

  lemma {:induction false} SlashAt(path: string, before: string, name: string)
    requires '\\' !in name && path == before + "\\" + name
    ensures LastSlash(path) == |before|
    decreases |name|
  {
    if name != "" {
      assert path[|path| - 1] == name[|name| - 1] && name[|name| - 1] in name;
      SlashAt(path[..|path| - 1], before, name[..|name| - 1]);
    }
  }

  lemma {:induction false} SlashBound(path: string)
    ensures -1 <= LastSlash(path) < |path|
  {
    if path != "" {
      SlashBound(path[..|path| - 1]);
    }
  }

  class RefFs {
    const d: Dims
    const files: array<RefFile>
    var usedHead: int
    var freeHead: int
    var freeNum: nat
    var openNr: int
    ghost var list: seq<nat>
    ghost var free: seq<nat>
    ghost var used: set<nat>
    ghost var trees: seq<Tree>

    ghost predicate Lists()
      reads this, files
    {
      ListsOk(files[..], used, list, free, usedHead, freeHead, freeNum)
    }

    /** Every code is right except perhaps the one of `x`. */
    ghost predicate Valid(x: int)
      reads this, files
    {
      Lists() && TableOk(files[..], trees, used, d, x)
    }

    // ----- Recoding -----

    /** The code of a directory from those of its sorted children; refuses when it gets too long. */
    method JoinCodes(a: array<nat>) returns (code: string, ok: bool)
      requires d.Ok() && AllCoded(files[..], trees, multiset(a[..])) && SortedBut(trees, a[..], a.Length, -1)
      ensures ok ==> code == Code(Dir(Kids(trees, a[..])))
      ensures ok ==> |code| == 2 + ChildSum(files[..], a[..])
      ensures ok <==> 2 + ChildSum(files[..], a[..]) <= d.maxEncode
    {
      hide Code, Strcmp, SortedBut, CodeOk, ChildSum;
      code := "[";
      var ii := 0;
      SumNone(files[..]);
      while ii < a.Length
        invariant ii <= a.Length
        invariant code == "[" + Flat(Codes(Kids(trees, a[..ii])))
        invariant |code| == 1 + ChildSum(files[..], a[..ii]) && (|code| < d.maxEncode || ii == 0)
      {
        SumPick(files[..], a[..], ii);
        SumPush(files[..], a[..], ii);
        assert a[ii] in multiset(a[..]) by { assert a[..][ii] == a[ii]; }
        ChildCode(files[..], trees, a[ii]);
        var child := files[a[ii]];
        if |code| + child.encodeSize >= d.maxEncode {
          return code, false;
        }
        assert a[..ii + 1] == a[..ii] + [a[ii]];
        KidsPush(trees, a[..ii], a[ii]);
        code := code + child.encode[..child.encodeSize];
        ii := ii + 1;
      }
      assert a[..ii] == a[..];
      SortedKids(trees, a[..]);
      code := code + "]";
      ok := true;
    }

    /** Recodes one object from its label or its children. */
    method EncodeNode(id: nat, ghost us: set<nat>) returns (ok: bool)
      requires id in us && id < files.Length && Lists() && TableOk(files[..], trees, us, d, id) && AllStored(files[..], trees, us)
      modifies this`trees, files
      ensures ok ==> Lists() && TableOk(files[..], trees, us, d, old(files[id].parent)) && AllStored(files[..], trees, us)
      ensures ok <==> (if old(files[id].isDir) then NewLen(old(files[..]), d, id) <= d.maxEncode else NewLen(old(files[..]), d, id) < d.maxEncode)
      ensures ok ==> files[id].encodeSize == NewLen(old(files[..]), d, id)
      ensures forall y :: 0 <= y < files.Length && y != id ==> files[y] == old(files[y])
      ensures |files[..]| == |old(files[..])| && SameLinks(old(files[..]), files[..])
    {
      hide TableOk, ListsOk, Code, Strcmp, SortedBut, AllCoded, Recoded, AllStored, ChildSum;
      ghost var fs, tr := files[..], trees;
      var f := files[id];
      var code, ch;
      ChildrenCoded(fs, trees, us, d, id);
      if f.isDir {
        var a := new nat[f.size](i requires 0 <= i < f.size && f.size <= |f.children| => f.children[i]);
        assert a[..] == f.children[..f.size];
        SortChildren(a, files[..], trees);
        SortLen(a[..], f.children[..f.size]);
        AllSame(fs, trees, multiset(a[..]), multiset(f.children[..f.size]));
        SumPerm(fs, a[..], f.children[..f.size]);
        code, ok := JoinCodes(a);
        if !ok {
          return;
        }
        ch := a[..] + f.children[f.size..];
      } else {
        code := FileCode(d.Bucket(f.size), f.isOpen);
        ch := f.children;
        if |code| >= d.maxEncode {
          return false;
        }
      }
      var tail := f.encode[|code|..];
      files[id] := f.(children := ch, encode := code + tail, encodeSize := |code|);
      trees := trees[id := LocalTree(files[..], trees, d, id)];
      NowRecoded(fs, files[..], tr, trees, us, d, id, code, ch);
      RecodedKeeps(fs, files[..], tr, trees, us, d, id);
      RecodedStored(fs, files[..], tr, trees, us, d, id);
      LinksStay(fs, files[..]);
      ListsStay(fs, files[..], used, list, free, usedHead, freeHead, freeNum);
      ok := true;
    }

    /** Recodes an object and all objects above it.  Some code on the way gets too long exactly when
        the code of the root would. */
    method UpdateEncode(id: nat, ghost us: set<nat>) returns (ok: bool)
      requires id in us && id < files.Length && Lists() && TableOk(files[..], trees, us, d, id) && AllStored(files[..], trees, us)
      modifies this`trees, files
      decreases files[id].depth
      ensures ok ==> Lists() && TableOk(files[..], trees, us, d, -1)
      ensures ok <==> Need(old(files[..]), d, id) <= d.maxEncode
      ensures |files[..]| == |old(files[..])| && SameLinks(old(files[..]), files[..])
    {
      hide TableOk, ListsOk, NewLen, AllStored;
      ghost var fs, tr := files[..], trees;
      ParentOf(fs, trees, us, d, id);
      var p := files[id].parent;
      ok := EncodeNode(id, us);
      if !ok {
        TooLongAbove(fs, tr, us, d, id);
      } else if p != -1 {
        NeedUp(fs, files[..], tr, us, d, id);
        assert files[..][p].depth == fs[p].depth;
        ok := UpdateEncode(p, us);
      }
    }

    // ----- Lists -----

    /** A table of `n` objects with nothing but the root. */
    constructor (d: Dims, n: nat)
      requires d.Ok() && 0 < n
      ensures this.d == d && files.Length == n && fresh(files) && Valid(-1) && used == {0} && trees[0] == Dir([])
      ensures files[0].fn == "\\"
    {
      this.d := d;
      var blank := RefFile(0, -1, "", seq(d.maxEncode, _ => '\0'), 0, seq(d.maxChild, _ => 0), 0, 0, false, false);
      var root := blank.(fn := "\\", isDir := true, parent := -1, encodeSize := 2,
                         encode := seq(d.maxEncode, i => if i == 0 then '[' else if i == 1 then ']' else '\0'));
      files := new RefFile[n](i =>
        if i == 0 then root else blank.(next := if i + 1 < n then i + 1 else -1));
      usedHead, freeHead, freeNum, openNr := 0, if n > 1 then 1 else -1, n - 1, 0;
      list, used := [0], {0};
      free := seq(n - 1, i => i + 1);
      trees := seq(n, _ => Dir([]));
      new;
      InitialTable(files[..], trees, d, n);
      InitialLists(files[..], n);
    }

    /** Takes an object out of the free list and puts it at the head of the used list. */
    method GetFile() returns (x: nat)
      requires Lists() && freeNum > 0
      modifies this`usedHead, this`freeHead, this`freeNum, this`list, this`free, this`used, files
      ensures Lists() && x < files.Length && x !in old(used) && used == old(used) + {x} && freeNum == old(freeNum) - 1
      ensures files[..] == old(files[..])[x := old(files[..])[x].(next := old(usedHead))]
    {
      hide Chain;
      FreeHead(files[..], used, list, free, usedHead, freeHead, freeNum);
      x := freeHead;
      ghost var fs := files[..];
      GetLists(fs, used, list, free, usedHead, freeHead, freeNum);
      freeHead := files[x].next;
      freeNum := freeNum - 1;
      files[x] := files[x].(next := usedHead);
      usedHead := x;
      list := [x] + list;
      free := free[1..];
      used := used + {x};
    }

    /** Looks a path up along the used list. */
    method FindFileIndex(path: string) returns (ii: int)
      requires Lists()
      ensures ii == -1 ==> forall x :: x in used && x < files.Length ==> files[x].fn != path
      ensures ii != -1 ==> 0 <= ii < files.Length && ii in used && files[ii].fn == path
    {
      ghost var k := 0;
      ii := usedHead;
      while ii != -1
        invariant k <= |list| && ii == (if k < |list| then list[k] else -1)
        invariant forall j :: 0 <= j < k ==> files[list[j]].fn != path
        decreases |list| - k
      {
        assert NextOf(list, k) == files[..][list[k]].next;
        if files[ii].fn == path {
          return;
        }
        ii := files[ii].next;
        k := k + 1;
      }
      forall x | x in used && x < files.Length ensures files[x].fn != path {
        var j :| 0 <= j < |list| && list[j] == x;
      }
    }

    /** Takes an object out of the used list, clears it, and puts it at the head of the free list. */
    method PutFile(x: nat)
      requires Lists() && x in used && x < files.Length
      requires AllSized(files[..], d)
      modifies this`usedHead, this`freeHead, this`freeNum, this`list, this`free, this`used, files
      ensures Lists() && used == old(used) - {x} && freeNum == old(freeNum) + 1
      ensures |files[x].encode| == d.maxEncode && |files[x].children| == d.maxChild && files[x].fn == "" && files[x].encodeSize == 0
      ensures files[x].size == 0 && files[x].depth == 0 && !files[x].isDir && !files[x].isOpen
      ensures forall y :: 0 <= y < files.Length && y != x ==> files[y] == old(files[y]).(next := files[y].next)
    {
      hide Chain, ListsOk;
      ghost var fs0 := files[..];
      Unlink(x);
      ghost var fs := files[..];
      assert |fs0[x].encode| == d.maxEncode && |fs0[x].children| == d.maxChild;
      PutLists(fs, used, list, free, usedHead, freeHead, freeNum, x, d);
      files[x] := RefFile(0, freeHead, "", seq(d.maxEncode, _ => '\0'), 0, seq(d.maxChild, _ => 0), 0, 0, false, false);
      freeHead := x;
      freeNum := freeNum + 1;
      free := [x] + free;
      used := used - {x};
    }

    /** Takes an object out of the used list. */
    method Unlink(x: nat)
      requires Lists() && x in used && x < files.Length
      modifies this`usedHead, this`list, files
      ensures Unlinked(files[..], used, list, free, usedHead, freeHead, freeNum, x)
      ensures forall y :: 0 <= y < files.Length ==> files[y] == old(files[y]).(next := files[y].next)
    {
      hide Chain;
      ghost var fs, l0 := files[..], list;
      if usedHead == x {
        HeadUnlinked(fs, used, list, free, usedHead, freeHead, freeNum, x);
        usedHead := files[x].next;
        list := list[1..];
      } else {
        var pre;
        ghost var k;
        pre, k := FindBefore(x);
        PreUnlinked(fs, used, list, free, usedHead, freeHead, freeNum, x, k);
        files[pre] := files[pre].(next := files[x].next);
        list := Without(list, k);
      }
    }

    /** The object whose link leads to `x`. */
    method FindBefore(x: nat) returns (pre: nat, ghost k: nat)
      requires Lists() && x in used && usedHead != x
      ensures 0 < k < |list| && list[k] == x && pre == list[k - 1] && pre < files.Length && pre != x
    {
      k := 1;
      pre := usedHead;
      while files[pre].next != x
        invariant 0 < k <= |list| && pre == list[k - 1] && pre < files.Length
        invariant forall j :: 0 <= j < k ==> list[j] != x
        decreases |list| - k
      {
        assert NextOf(list, k - 1) == files[..][list[k - 1]].next;
        pre := files[pre].next;
        k := k + 1;
      }
      assert NextOf(list, k - 1) == files[..][list[k - 1]].next;
    }

    // ----- Operations -----

    /** Adds a file or an empty directory.  The object is taken before the parent is looked at. */
    method AddPath(path: string, dir: bool) returns (r: Outcome, x: int)
      requires Valid(-1) && 0 <= LastSlash(path) < |path| && 4 <= d.maxEncode
      requires forall p :: p in used && p < files.Length && files[p].fn == ParentPath(path) && files[p].isDir ==> files[p].size < d.maxChild
      modifies this`usedHead, this`freeHead, this`freeNum, this`list, this`free, this`used, this`trees, files
      ensures r.Done? && x == -1 ==> old(freeNum) == 0 && Valid(-1) && files[..] == old(files[..]) && used == old(used)
      ensures r.Done? && x != -1 ==>
                && Valid(-1) && 0 <= x < files.Length && x !in old(used) && used == old(used) + {x as nat}
                && files[x].isDir == dir && !files[x].isOpen && files[x].size == 0
                && 0 <= files[x].parent < files.Length && files[x].parent in old(used)
                && old(files[..])[files[x].parent].fn == ParentPath(path) && old(files[..])[files[x].parent].isDir
                && files[x].fn == path && OneMore(old(files[..]), files[..], files[x].parent, x)
      ensures r == NoParent ==> forall p :: p in old(used) && p < files.Length ==> old(files[p].fn) != ParentPath(path)
      ensures r.NotDirectory? ==> exists p :: p in old(used) && p < files.Length && old(files[..])[p].fn == ParentPath(path) && !old(files[..])[p].isDir
      ensures r.Done? || r.NoParent? || r.NotDirectory? || r.TooLong?
      ensures r.TooLong? ==> old(files[0].encodeSize) + (if dir then 2 else 3) > d.maxEncode
      ensures r.Done? && x != -1 ==> old(files[0].encodeSize) + (if dir then 2 else 3) <= d.maxEncode
    {
      hide ListsOk, TableOk, LastSlash, ParentPath, Added, AllStored, Need;
      if freeNum <= 0 {
        return Done, -1;
      }
      var p := FindFileIndex(ParentPath(path));
      x := GetFile();
      if p == -1 {
        return NoParent, x;
      }
      if !files[p].isDir {
        return NotDirectory, x;
      }
      ghost var fs, tr, us := old(files[..]), trees, old(used);
      SizedAt(fs, tr, us, d, p, x);
      InitFile(x, p, path, dir);
      trees := trees[x := if dir then Dir([]) else File(0, false)];
      NowAdded(fs, files[..], tr, trees, us, d, p, x);
      AddedKeeps(fs, files[..], tr, trees, us, d, p, x);
      AddedNeed(fs, files[..], tr, trees, us, d, p, x);
      ghost var fs1 := files[..];
      var ok := UpdateEncode(p, used);
      r := if ok then Done else TooLong;
    }

    /** Initialises an object and enters it in its parent. */
    method InitFile(x: nat, p: nat, path: string, dir: bool)
      requires x < files.Length && p < files.Length && p != x && files[p].size < |files[p].children|
      requires Lists() && |files[x].encode| == d.maxEncode && |files[x].children| == d.maxChild && 4 <= d.maxEncode
      modifies files
      ensures Lists()
      ensures files[p] == old(files[p]).(size := old(files[p].size) + 1, children := old(files[p].children)[old(files[p].size) := x])
      ensures files[x].parent == p && files[x].depth == old(files[p].depth) + 1 && files[x].size == 0 && !files[x].isOpen
      ensures files[x].isDir == dir && files[x].fn == path
      ensures |files[x].encode| == d.maxEncode && |files[x].children| == d.maxChild && files[x].encodeSize <= d.maxEncode
      ensures files[x].encode[..files[x].encodeSize] == Code(if dir then Dir([]) else File(0, false))
      ensures files[x].encodeSize == if dir then 2 else 3
      ensures forall y :: 0 <= y < files.Length && y != p && y != x ==> files[y] == old(files[y])
    {
      hide ListsOk;
      ghost var fs := files[..];
      var f, g := files[x], files[p];
      var code := if dir then "[]" else "(0)";
      var rest := if dir then "[]\0" else "(0)\0";
      files[x] := RefFile(0, f.next, path, rest + f.encode[|rest|..], |code|, seq(d.maxChild, _ => 0), p, g.depth + 1, false, dir);
      files[p] := g.(size := g.size + 1, children := g.children[g.size := x]);
      LinksStay(fs, files[..]);
      ListsStay(fs, files[..], used, list, free, usedHead, freeHead, freeNum);
      NewCodes();
      assert rest[..|code|] == code;
    }

    /** A new label on a file: refused exactly when the code of the root would get too long. */
    method Relabel(id: nat, size: nat, isOpen: bool) returns (ok: bool)
      requires Valid(-1) && id in used && id < files.Length && !files[id].isDir
      modifies this`trees, files
      ensures ok ==> Valid(-1)
      ensures ok <==>
                old(files[0].encodeSize) + |FileCode(d.Bucket(size), isOpen)| - |FileCode(d.Bucket(old(files[id].size)), old(files[id].isOpen))| <= d.maxEncode
      ensures |files[..]| == |old(files[..])| && SameLinks(Labelled(old(files[..]), id, size, isOpen), files[..])
    {
      hide ListsOk, TableOk, AllStored, Need;
      ghost var fs := files[..];
      LabelKeeps(fs, trees, used, d, id, size, isOpen);
      LabelNeed(fs, trees, used, d, id, size, isOpen);
      files[id] := files[id].(size := size, isOpen := isOpen);
      assert files[..] == Labelled(fs, id, size, isOpen);
      LinksStay(fs, files[..]);
      ListsStay(fs, files[..], used, list, free, usedHead, freeHead, freeNum);
      ok := UpdateEncode(id, used);
    }

    /** Records a new file size. */
    method UpdateFile(path: string, len: nat) returns (r: Outcome, id: int)
      requires Valid(-1)
      modifies this`trees, files
      ensures r.Done? ==>
                && Valid(-1) && 0 <= id < files.Length && id in used && old(files[..])[id].fn == path && !old(files[..])[id].isDir
                && SameLinks(Labelled(old(files[..]), id, len, old(files[..])[id].isOpen), files[..])
      ensures r.NotFound? ==> Valid(-1) && files[..] == old(files[..])
      ensures id == -1 ==> forall x :: x in used && x < files.Length ==> old(files[x].fn) != path
      ensures id != -1 ==> 0 <= id < files.Length && id in used && old(files[..])[id].fn == path
      ensures r.NotFound? <==> id == -1 || old(files[..])[id].isDir
      ensures r.Done? || r.NotFound? || r.TooLong?
      ensures r.Done? ==>
                && id < |trees| == files.Length && trees[id].File? && InBucket(d, len, trees[id].bucket) && trees[id].open == old(files[..])[id].isOpen
                && files[id].encodeSize <= |files[id].encode|
                && files[id].encode[..files[id].encodeSize] == FileCode(trees[id].bucket, old(files[..])[id].isOpen)
      ensures !r.NotFound? ==>
                && var f := old(files[..])[id];
                (r.TooLong? <==> old(files[0].encodeSize) + |FileCode(d.Bucket(len), f.isOpen)| - |FileCode(d.Bucket(f.size), f.isOpen)| > d.maxEncode)
    {
      hide TableOk;
      id := FindFileIndex(path);
      if id == -1 || files[id].isDir {
        return NotFound, id;
      }
      var ok := Relabel(id, len, files[id].isOpen);
      if ok {
        FileNow(files[..], trees, used, d, id);
      }
      r := if ok then Done else TooLong;
    }

    method OpenFile(id: nat) returns (r: Outcome)
      requires Valid(-1) && id in used && id < files.Length
      modifies this`trees, this`openNr, files
      ensures r.WrongState? <==> old(files[id].isOpen) || old(files[id].isDir)
      ensures r.WrongState? ==> Valid(-1) && files[..] == old(files[..])
      ensures r.Done? ==> Valid(-1) && SameLinks(Labelled(old(files[..]), id, old(files[id].size), true), files[..])
      ensures r.Done? || r.WrongState? || r.TooLong?
      ensures !r.WrongState? ==> (r.TooLong? <==> old(files[0].encodeSize) == d.maxEncode)
      ensures openNr == old(openNr) + if r.Done? then 1 else 0
    {
      hide TableOk, ListsOk;
      TableStored(files[..], trees, used, d);
      if files[id].isOpen || files[id].isDir {
        return WrongState;
      }
      var ok := Relabel(id, files[id].size, true);
      if !ok {
        return TooLong;
      }
      openNr := openNr + 1;
      r := Done;
    }

    method CloseFile(id: nat) returns (r: Outcome)
      requires Valid(-1) && id in used && id < files.Length
      modifies this`trees, this`openNr, files
      ensures r.WrongState? <==> !old(files[id].isOpen)
      ensures r.WrongState? ==> Valid(-1) && files[..] == old(files[..])
      ensures r.Done? ==> Valid(-1) && SameLinks(Labelled(old(files[..]), id, old(files[id].size), false), files[..])
      ensures r.Done? || r.WrongState?
      ensures openNr == old(openNr) - if r.Done? then 1 else 0
    {
      hide TableOk, ListsOk;
      TableStored(files[..], trees, used, d);
      if !files[id].isOpen {
        return WrongState;
      }
      OpenIsFile(files[..], trees, used, d, id);
      var ok := Relabel(id, files[id].size, false);
      openNr := openNr - 1;
      r := if ok then Done else TooLong;
    }

    /** Removes a file or an empty directory. */
    method RemoveFile(path: string) returns (r: Outcome)
      requires Valid(-1)
      requires forall x :: x in used && x < files.Length && files[x].fn == path ==> x != 0 && (files[x].isDir ==> files[x].size == 0)
      modifies this`usedHead, this`freeHead, this`freeNum, this`list, this`free, this`used, this`trees, files
      ensures r.NotFound? ==> Valid(-1) && files[..] == old(files[..]) && used == old(used)
      ensures r.NotFound? <==> forall x :: x in old(used) && x < files.Length ==> old(files[x].fn) != path
      ensures r.Done? ==> Valid(-1) && TakenOut(old(files[..]), files[..], old(used), used, path)
      ensures r.Done? || r.NotFound?
    {
      hide TableOk, ListsOk, Removed, AllStored, Need;
      var x := FindFileIndex(path);
      if x == -1 {
        return NotFound;
      }
      assert files[..][x].fn == path;
      ghost var fs := files[..];
      ChildPlace(fs, trees, used, d, x);
      var p := files[x].parent;
      ghost var i := RemoveChild(p, x);
      NowRemoved(fs, files[..], d, p, x, i);
      RemovedKeeps(fs, files[..], trees, used, d, p, x, i);
      RemovedNeed(fs, files[..], trees, used, d, p, x, i);
      var ok := UpdateEncode(p, used - {x});
      TableSized(files[..], trees, used - {x}, d);
      ghost var fs2 := files[..];
      PutFile(x);
      assert OneLess(fs, files[..], p, x);
      TableFrame(fs2, files[..], trees, used, d, x);
      return Done;
    }

    /** Takes a child out of a directory; the last child moves into its place. */
    method RemoveChild(p: nat, x: nat) returns (ghost i: nat)
      requires Lists() && p < files.Length && x < files.Length && p != x && files[p].size <= |files[p].children|
      requires x in files[p].children[..files[p].size]
      modifies files
      ensures Lists() && i < old(files[p].size) && old(files[p].children)[i] == x
      ensures files[p] == old(files[p]).(size := old(files[p].size) - 1,
                                         children := old(files[p].children)[i := old(files[p].children)[old(files[p].size) - 1]][old(files[p].size) - 1 := 0])
      ensures forall y :: 0 <= y < files.Length && y != p ==> files[y] == old(files[y])
    {
      hide ListsOk;
      var f := files[p];
      ghost var fs := files[..];
      var ii := 0;
      while ii < f.size && f.children[ii] != x
        invariant ii <= f.size && forall j :: 0 <= j < ii ==> f.children[j] != x
      {
        ii := ii + 1;
      }
      i := ii;
      files[p] := f.(size := f.size - 1, children := f.children[ii := f.children[f.size - 1]][f.size - 1 := 0]);
      LinksStay(fs, files[..]);
      ListsStay(fs, files[..], used, list, free, usedHead, freeHead, freeNum);
    }
  }

  // ----- Glue for the operations -----

  lemma InitialTable(fs: seq<RefFile>, trees: seq<Tree>, d: Dims, n: nat)
    requires d.Ok() && 0 < n == |fs| && trees == seq(n, _ => Dir([]))
    requires forall x :: 0 <= x < n ==> |fs[x].encode| == d.maxEncode && |fs[x].children| == d.maxChild
    requires fs[0].isDir && fs[0].parent == -1 && !fs[0].isOpen && fs[0].size == 0 && fs[0].encodeSize == 2
    requires fs[0].encode[0] == '[' && fs[0].encode[1] == ']'
    ensures TableOk(fs, trees, {0}, d, -1)
  {
    hide LocalTree, Code;
    LeafTree(fs, trees, d, 0);
    NewCodes();
    assert fs[0].encode[..2] == "[]";
  }

  lemma InitialChains(fs: seq<RefFile>, n: nat)
    requires 0 < n == |fs| && fs[0].next == -1
    requires forall x :: 0 < x < n ==> fs[x].next == if x + 1 < n then x + 1 else -1
    ensures Chain(fs, 0, [0]) && Chain(fs, if n > 1 then 1 else -1, seq(n - 1, i => i + 1))
  {
    var free := seq(n - 1, i => i + 1);
    assert NextOf([0], 0) == -1;
    forall i | 0 <= i < |free| ensures fs[free[i]].next == NextOf(free, i) {
      assert free[i] == i + 1;
    }
  }

  lemma InitialLists(fs: seq<RefFile>, n: nat)
    requires 0 < n == |fs| && fs[0].next == -1
    requires forall x :: 0 < x < n ==> fs[x].next == if x + 1 < n then x + 1 else -1
    ensures ListsOk(fs, {0}, [0], seq(n - 1, i => i + 1), 0, if n > 1 then 1 else -1, n - 1)
  {
    hide Chain;
    var free := seq(n - 1, i => i + 1);
    InitialChains(fs, n);
    forall x: nat | x < n ensures x in [0] || x in free {
      if x > 0 {
        assert free[x - 1] == x;
      }
    }
  }

  lemma NewCodes()
    ensures Code(Dir([])) == "[]" && Code(File(0, false)) == "(0)"
  {
    assert Codes([]) == [];
    assert Sort(Codes([])) == [];
    assert Decimal(0) == "0";
  }

  lemma FreeHead(fs: seq<RefFile>, used: set<nat>, list: seq<nat>, free: seq<nat>, u: int, f: int, n: nat)
    requires ListsOk(fs, used, list, free, u, f, n) && n > 0
    ensures free != [] && 0 <= f < |fs| && f == free[0]
  {
  }

  lemma GetLists(fs: seq<RefFile>, used: set<nat>, list: seq<nat>, free: seq<nat>, u: int, f: nat, n: nat)
    requires ListsOk(fs, used, list, free, u, f, n) && n > 0
    ensures f < |fs| && f !in used && free != []
    ensures ListsOk(fs[f := fs[f].(next := u)], used + {f}, [f] + list, free[1..], f, fs[f].next, n - 1)
  {
    hide Chain;
    FreeHead(fs, used, list, free, u, f, n);
    var fs' := fs[f := fs[f].(next := u)];
    FreeRest(fs, f, free);
    assert f in free;
    ChainTail(fs, f, free);
    ChainApart(fs, fs', fs[f].next, free[1..], f);
    assert f in list ==> f in used;
    ChainApart(fs, fs', u, list, f);
    ChainPush(fs', u, list, f);
  }

  lemma FreeRest(fs: seq<RefFile>, head: int, list: seq<nat>)
    requires Chain(fs, head, list) && list != []
    ensures forall x :: x in list <==> x == list[0] || x in list[1..]
    ensures list[0] !in list[1..]
  {
  }

  lemma ChainApart(fs: seq<RefFile>, fs': seq<RefFile>, head: int, list: seq<nat>, x: nat)
    requires Chain(fs, head, list) && |fs'| == |fs| && x !in list
    requires forall y :: 0 <= y < |fs| && y != x ==> fs'[y].next == fs[y].next
    ensures Chain(fs', head, list)
  {
    ChainFrame(fs, fs', head, list);
  }

  /** The lists while `x` is in neither of them. */
  ghost predicate Unlinked(fs: seq<RefFile>, used: set<nat>, list: seq<nat>, free: seq<nat>, u: int, f: int, n: nat, x: nat) {
    && Chain(fs, u, list) && Chain(fs, f, free) && n == |free| && x < |fs| && x in used
    && (forall y :: y in used <==> y in list || y == x) && x !in list && (forall y :: y in used ==> y !in free)
    && (forall y: nat :: y < |fs| ==> y in list || y == x || y in free)
  }

  lemma HeadUnlinked(fs: seq<RefFile>, used: set<nat>, list: seq<nat>, free: seq<nat>, u: int, f: int, n: nat, x: nat)
    requires ListsOk(fs, used, list, free, u, f, n) && x in used && u == x
    ensures list != [] && x < |fs| && Unlinked(fs, used, list[1..], free, fs[x].next, f, n, x)
  {
    assert list != [] by { assert x in list; }
    ChainTail(fs, u, list);
    FreeRest(fs, u, list);
    hide Chain;
  }

  lemma PreUnlinked(fs: seq<RefFile>, used: set<nat>, list: seq<nat>, free: seq<nat>, u: int, f: int, n: nat, x: nat, k: nat)
    requires ListsOk(fs, used, list, free, u, f, n) && 0 < k < |list| && list[k] == x && x < |fs| && list[k - 1] < |fs|
    ensures Unlinked(fs[list[k - 1] := fs[list[k - 1]].(next := fs[x].next)], used, Without(list, k), free, u, f, n, x)
  {
    var fs' := fs[list[k - 1] := fs[list[k - 1]].(next := fs[x].next)];
    ChainUnlink(fs, u, list, k);
    WithoutIn(list, k);
    assert x in list && list[k - 1] in list;
    hide Chain, Without;
    ChainApart(fs, fs', f, free, list[k - 1]);
  }

  lemma PutLists(fs: seq<RefFile>, used: set<nat>, list: seq<nat>, free: seq<nat>, u: int, f: int, n: nat, x: nat, d: Dims)
    requires Unlinked(fs, used, list, free, u, f, n, x)
    ensures forall r: RefFile :: r.next == f ==> ListsOk(fs[x := r], used - {x}, list, [x] + free, u, x, n + 1)
  {
    hide Chain;
    forall r: RefFile | r.next == f ensures ListsOk(fs[x := r], used - {x}, list, [x] + free, u, x, n + 1) {
      ChainApart(fs, fs[x := r], u, list, x);
      ChainApart(fs, fs[x := r], f, free, x);
      ChainPush(fs[x := r], f, free, x);
    }
  }

  lemma SizedAt(fs: seq<RefFile>, trees: seq<Tree>, used: set<nat>, d: Dims, p: nat, x: nat)
    requires TableOk(fs, trees, used, d, -1) && p in used && p < |fs| && x < |fs|
    ensures |fs| == |trees| && |fs[x].encode| == d.maxEncode && |fs[x].children| == d.maxChild && |fs[p].children| == d.maxChild && d.Ok()
  {
  }

  lemma NowAdded(fs: seq<RefFile>, fs': seq<RefFile>, trees: seq<Tree>, trees': seq<Tree>, used: set<nat>, d: Dims, p: nat, x: nat)
    requires d.Ok() && p < |fs| == |trees| && x < |fs| && p != x && |fs'| == |fs|
    requires fs[p].isDir && fs[p].size < |fs[p].children|
    requires fs'[p] == fs[p].(size := fs[p].size + 1, children := fs[p].children[fs[p].size := x])
    requires fs'[x].parent == p && fs'[x].depth == fs[p].depth + 1 && fs'[x].size == 0 && !fs'[x].isOpen
    requires |fs'[x].encode| == d.maxEncode && |fs'[x].children| == d.maxChild && fs'[x].encodeSize <= d.maxEncode
    requires trees' == trees[x := if fs'[x].isDir then Dir([]) else File(0, false)]
    requires fs'[x].encode[..fs'[x].encodeSize] == Code(if fs'[x].isDir then Dir([]) else File(0, false))
    requires forall y :: 0 <= y < |fs| && y != p && y != x ==> fs'[y] == fs[y].(next := fs'[y].next)
    ensures Added(fs, fs', trees, trees', d, p, x)
  {
    hide Code;
  }

  lemma OpenIsFile(fs: seq<RefFile>, trees: seq<Tree>, used: set<nat>, d: Dims, id: nat)
    requires TableOk(fs, trees, used, d, -1) && id in used && id < |fs| && fs[id].isOpen
    ensures !fs[id].isDir
  {
  }

  /** A used object other than the root is entered in its parent. */
  lemma ChildPlace(fs: seq<RefFile>, trees: seq<Tree>, used: set<nat>, d: Dims, x: nat)
    requires TableOk(fs, trees, used, d, -1) && x in used && x != 0
    ensures x < |fs| && 0 <= fs[x].parent < |fs| && fs[x].parent in used && fs[x].parent != x
    ensures fs[fs[x].parent].isDir && fs[fs[x].parent].size <= |fs[fs[x].parent].children|
    ensures x in fs[fs[x].parent].children[..fs[fs[x].parent].size]
    ensures |fs[x].encode| == d.maxEncode && |fs[x].children| == d.maxChild
  {
    ShapeAt(fs, used, d, x);
  }

  lemma NowRemoved(fs: seq<RefFile>, fs': seq<RefFile>, d: Dims, p: nat, x: nat, i: nat)
    requires p < |fs| && x < |fs| && p != x && |fs'| == |fs| && fs[p].isDir && i < fs[p].size <= |fs[p].children|
    requires fs[p].children[i] == x && (fs[x].isDir ==> fs[x].size == 0)
    requires fs'[p] == fs[p].(size := fs[p].size - 1, children := fs[p].children[i := fs[p].children[fs[p].size - 1]][fs[p].size - 1 := 0])
    requires forall y :: 0 <= y < |fs| && y != p ==> fs'[y] == fs[y]
    ensures Removed(fs, fs', d, p, x, i)
  {
  }

  lemma TableSized(fs: seq<RefFile>, trees: seq<Tree>, used: set<nat>, d: Dims)
    requires TableOk(fs, trees, used, d, -1)
    ensures AllSized(fs, d)
  {
  }

  /** Objects that are not in use, and links, do not matter to the tree. */
  lemma TableFrame(fs: seq<RefFile>, fs': seq<RefFile>, trees: seq<Tree>, used: set<nat>, d: Dims, x: nat)
    requires TableOk(fs, trees, used, d, -1) && x !in used && |fs'| == |fs| && AllSized(fs', d)
    requires forall y :: 0 <= y < |fs| && y != x ==> fs'[y] == fs[y].(next := fs'[y].next)
    ensures TableOk(fs', trees, used, d, -1)
  {
    hide Code, LocalTree, ShapeOk;
    forall y | y in used ensures y < |fs| && NodeShape(fs', used, d, y) && TreeOk(fs', trees, d, y) && CodeOk(fs', trees, y) {
      ShapeAt(fs, used, d, y);
      NodeFrame(fs, fs', used, d, x, y);
      LocalSame(fs, fs', trees, trees, d, y);
    }
    assert ShapeOk(fs', used, d) by { RootUsed(fs, used, d); AllShape(fs', used, d); }
  }

  lemma AllShape(fs: seq<RefFile>, used: set<nat>, d: Dims)
    requires 0 in used && forall y :: y in used ==> y < |fs| && NodeShape(fs, used, d, y)
    ensures ShapeOk(fs, used, d)
  {
  }

  lemma NodeFrame(fs: seq<RefFile>, fs': seq<RefFile>, used: set<nat>, d: Dims, x: nat, y: nat)
    requires NodeShape(fs, used, d, y) && y in used && x !in used && |fs'| == |fs|
    requires forall z :: 0 <= z < |fs| && z != x ==> fs'[z] == fs[z].(next := fs'[z].next)
    ensures NodeShape(fs', used, d, y)
  {
  }

  lemma ChildCode(fs: seq<RefFile>, trees: seq<Tree>, x: nat)
    requires CodeOk(fs, trees, x)
    ensures x < |fs| == |trees| && fs[x].encodeSize <= |fs[x].encode| && fs[x].encode[..fs[x].encodeSize] == Code(trees[x])
  {
  }

  lemma SumNone(fs: seq<RefFile>)
    ensures ChildSum(fs, []) == 0
  {
  }

  lemma SumPush(fs: seq<RefFile>, ch: seq<nat>, k: nat)
    requires k < |ch|
    ensures ChildSum(fs, ch[..k + 1]) == ChildSum(fs, ch[..k]) + Len(fs, ch[k])
  {
    assert ch[..k + 1] == ch[..k] + [ch[k]];
    SumSplit(fs, ch[..k], [ch[k]]);
  }

  lemma KidsPush(trees: seq<Tree>, ch: seq<nat>, x: nat)
    requires x < |trees|
    ensures Flat(Codes(Kids(trees, ch + [x]))) == Flat(Codes(Kids(trees, ch))) + Code(trees[x])
  {
    hide Code;
    assert Codes(Kids(trees, ch + [x])) == Codes(Kids(trees, ch)) + [Code(trees[x])];
    FlatPush(Codes(Kids(trees, ch)), Code(trees[x]));
  }

  lemma {:induction false} FlatPush(codes: seq<string>, c: string)
    ensures Flat(codes + [c]) == Flat(codes) + c
  {
    if codes == [] {
      assert [c][1..] == [];
    } else {
      assert (codes + [c])[1..] == codes[1..] + [c];
      FlatPush(codes[1..], c);
    }
  }

  lemma ChildrenCoded(fs: seq<RefFile>, trees: seq<Tree>, used: set<nat>, d: Dims, id: nat)
    requires TableOk(fs, trees, used, d, id) && id in used
    ensures id < |fs| == |trees| && d.Ok() && |fs[id].encode| == d.maxEncode && |fs[id].children| == d.maxChild
    ensures fs[id].isDir ==> fs[id].size <= |fs[id].children| && AllCoded(fs, trees, multiset(fs[id].children[..fs[id].size]))
  {
    hide Code, LocalTree, ShapeOk;
    ShapeAt(fs, used, d, id);
    if fs[id].isDir {
      var ch := fs[id].children[..fs[id].size];
      forall x | x in multiset(ch) ensures CodeOk(fs, trees, x) {
        assert x in ch;
        assert IsChild(fs, id, x);
        ShapeAt(fs, used, d, x);
      }
    }
  }

  lemma SortLen(s: seq<nat>, t: seq<nat>)
    requires multiset(s) == multiset(t)
    ensures |s| == |t|
  {
    assert |s| == |multiset(s)| && |t| == |multiset(t)|;
  }

  lemma AllSame(fs: seq<RefFile>, trees: seq<Tree>, s: multiset<nat>, t: multiset<nat>)
    requires s == t && AllCoded(fs, trees, t)
    ensures AllCoded(fs, trees, s)
  {
  }

  lemma NowRecoded(fs: seq<RefFile>, fs': seq<RefFile>, trees: seq<Tree>, trees': seq<Tree>, used: set<nat>, d: Dims, id: nat,
                   code: string, ch: seq<nat>)
    requires TableOk(fs, trees, used, d, id) && id in used && id < |fs| == |trees| && |fs[id].encode| == d.maxEncode
    requires fs[id].isDir ==>
               && fs[id].size <= |fs[id].children| == |ch|
               && multiset(ch[..fs[id].size]) == multiset(fs[id].children[..fs[id].size])
               && code == Code(Dir(Kids(trees, ch[..fs[id].size])))
    requires |code| <= d.maxEncode && d.Ok()
    requires !fs[id].isDir ==> ch == fs[id].children && code == FileCode(d.Bucket(fs[id].size), fs[id].isOpen)
    requires fs' == fs[id := fs[id].(children := ch, encode := code + fs[id].encode[|code|..], encodeSize := |code|)]
    requires trees' == trees[id := LocalTree(fs', trees, d, id)]
    ensures Recoded(fs, fs', trees, trees', d, id)
  {
    hide Code, ShapeOk;
    ShapeAt(fs, used, d, id);
    assert FileCode(d.Bucket(fs[id].size), fs[id].isOpen) == Code(File(d.Bucket(fs[id].size), fs[id].isOpen)) by { LeafCode(d.Bucket(fs[id].size), fs[id].isOpen); }
    assert (code + fs[id].encode[|code|..])[..|code|] == code;
  }

  /** The tree and the code that a file has in a table whose codes are right. */
  lemma FileNow(fs: seq<RefFile>, trees: seq<Tree>, used: set<nat>, d: Dims, id: nat)
    requires TableOk(fs, trees, used, d, -1) && id in used && id < |fs| && !fs[id].isDir
    ensures |trees| == |fs| && d.Ok() && trees[id] == File(d.Bucket(fs[id].size), fs[id].isOpen) && InBucket(d, fs[id].size, d.Bucket(fs[id].size))
    ensures fs[id].encodeSize <= |fs[id].encode| && fs[id].encode[..fs[id].encodeSize] == FileCode(d.Bucket(fs[id].size), fs[id].isOpen)
  {
    hide ShapeOk, FileCode;
    BucketIs(d, fs[id].size);
    LeafCode(d.Bucket(fs[id].size), fs[id].isOpen);
    assert TreeOk(fs, trees, d, id) && CodeOk(fs, trees, id);
  }

  lemma LeafCode(bucket: nat, open: bool)
    ensures Code(File(bucket, open)) == FileCode(bucket, open)
  {
  }

  lemma LinksStay(fs: seq<RefFile>, fs': seq<RefFile>)
    requires |fs'| == |fs| && forall x :: 0 <= x < |fs| ==> fs'[x].next == fs[x].next
    ensures SameNext(fs, fs')
  {
  }

  lemma ParentOf(fs: seq<RefFile>, trees: seq<Tree>, used: set<nat>, d: Dims, id: nat)
    requires TableOk(fs, trees, used, d, id) && id in used
    ensures id < |fs| && d.Ok() && (fs[id].parent == -1 <==> id == 0) && (id == 0 ==> fs[0].isDir)
    ensures fs[id].parent != -1 ==> 0 <= fs[id].parent < |fs| && fs[id].parent in used && fs[fs[id].parent].depth < fs[id].depth
  {
    ShapeAt(fs, used, d, id);
  }
}
