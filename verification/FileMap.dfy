/** Files over the mapped world: an inode names index nodes, an index node names data blocks. */
module FileMap {
  import opened Basics
  import opened Segments
  import opened Mapping

  /** Entries of an index node, of the index table in an inode, and bytes of a block. */
  datatype Sizes = Sizes(indexSize: nat, tableSize: nat, blockSize: nat)
  {
    predicate Ok() { 0 < indexSize && 0 < blockSize }

    /** Blocks that `bytes` bytes take. */
    function Blocks(bytes: nat): nat
      requires Ok()
    {
      (bytes + blockSize - 1) / blockSize
    }

    /** Bytes of `n` blocks. */
    function Bytes(n: nat): nat { n * blockSize }

    /** Index node and entry in it of block `k`. */
    function Slot(k: nat): nat
      requires Ok()
    {
      k / indexSize
    }

    /** The first block of index node `i`. */
    function First(i: nat): nat { i * indexSize }

    function Off(k: nat): nat
      requires Ok()
    {
      k % indexSize
    }
  }

  lemma FillOnce(d: Sizes, bytes: nat, n: nat, m: nat)
    requires Fill(d, bytes, n) && Fill(d, bytes, m)
    ensures n == m
  {
    hide Sizes.Bytes;
    assert n <= n <==> bytes <= d.Bytes(n);
    assert m <= m <==> bytes <= d.Bytes(m);
  }

  lemma SlotFirst(d: Sizes, k: nat, i: nat)
    requires d.Ok()
    ensures d.Slot(k) < i <==> k < d.First(i)
    ensures d.Slot(d.First(i)) == i
    ensures d.First(i + 1) == d.First(i) + d.indexSize
  {
    DivExact(i, 0, d.indexSize);
    var q := k / d.indexSize;
    assert k == q * d.indexSize + k % d.indexSize;
    if q < i {
      MulLess(q, i, d.indexSize);
    } else if i < q {
      MulLess(i, q, d.indexSize);
    }
  }

  lemma FirstEnds(d: Sizes)
    ensures d.First(0) == 0 && d.First(d.tableSize) == d.tableSize * d.indexSize
  {
  }

  /** `bytes` bytes take `n` blocks, no fewer and no more. */
  ghost predicate Fill(d: Sizes, bytes: nat, n: nat) {
    forall m: nat :: n <= m <==> bytes <= d.Bytes(m)
  }

  lemma FillUpTo(d: Sizes, bytes: nat, n: nat, m: nat)
    requires Fill(d, bytes, n)
    ensures n <= m <==> bytes <= d.Bytes(m)
  {
    hide Sizes.Bytes;
  }

  lemma BlocksFill(d: Sizes, bytes: nat)
    requires d.Ok()
    ensures Fill(d, bytes, d.Blocks(bytes))
  {
    var n := d.Blocks(bytes);
    forall m: nat ensures n <= m <==> bytes <= d.Bytes(m) {
      QuotUpTo(bytes, d.blockSize, m);
    }
  }

  lemma SlotOff(d: Sizes, k: nat, k': nat)
    requires d.Ok()
    ensures d.Off(k) < d.indexSize
    ensures d.Slot(k) == d.Slot(k') && d.Off(k) == d.Off(k') ==> k == k'
  {
    assert k == (k / d.indexSize) * d.indexSize + k % d.indexSize;
    assert k' == (k' / d.indexSize) * d.indexSize + k' % d.indexSize;
  }

  /** What the inode says, if `ino` is an inode. */
  function BodyOf(w: World, ino: int): Option<InodeBody> {
    match Reads(w, Summary(ino, -1))
    case Some(Inode(_, body)) => Some(body)
    case _ => None
  }

  /** The index node for entry `i` of a file, or -1. */
  function IndexOf(w: World, ino: int, i: nat): int {
    match BodyOf(w, ino)
    case Some(body) => if i < |body.index| then body.index[i] else -1
    case None => -1
  }

  /** Bytes of a file. */
  function SizeOf(w: World, ino: int): nat {
    match BodyOf(w, ino)
    case Some(body) => body.size
    case None => 0
  }

  /** Block `k` of a file as a reader gets it. */
  function FileBlock(d: Sizes, w: World, ino: int, k: nat): Option<Block>
    requires d.Ok()
  {
    var nid := IndexOf(w, ino, d.Slot(k));
    if nid == -1 then None else Reads(w, Summary(nid, d.Off(k)))
  }

  /** Which file and entry an index node belongs to. */
  type Owners = map<int, (nat, nat)>

  ghost predicate FileOk(d: Sizes, w: World, own: Owners, ino: nat) {
    && d.Ok() && ino < |w.table| && BodyOf(w, ino).Some? && |BodyOf(w, ino).value.index| == d.tableSize
    && d.Blocks(BodyOf(w, ino).value.size) <= d.tableSize * d.indexSize
    && forall i: nat :: i < d.tableSize && IndexOf(w, ino, i) != -1 ==>
      IndexOf(w, ino, i) in own && own[IndexOf(w, ino, i)] == (ino, i)
  }

  ghost predicate IndexOk(d: Sizes, w: World, files: set<nat>, own: Owners, nid: int) {
    && nid in own && 0 <= nid < |w.table| && nid !in files && own[nid].0 in files && own[nid].1 < d.tableSize
    && IndexOf(w, own[nid].0, own[nid].1) == nid
    && match Reads(w, Summary(nid, -1))
      case Some(Index(_, ptrs)) => |ptrs| == d.indexSize
      case _ => false
  }

  /** The files `files` with index nodes `own`; the identifiers in use are theirs and the lost ones,
      which belong to no file any more, and a free identifier is not cached. */
  ghost predicate FsOk(d: Sizes, w: World, files: set<nat>, own: Owners, lost: set<int>) {
    && d.Ok() && |w.table| == |w.cache|
    && (forall ino :: ino in files ==> FileOk(d, w, own, ino))
    && (forall nid :: nid in own ==> IndexOk(d, w, files, own, nid))
    && (forall n :: 0 <= n < |w.table| ==> (w.table[n] != Unused <==> n in files || n in own || n in lost))
    && (forall n :: n in lost ==> 0 <= n < |w.table| && n !in files && n !in own)
    && (forall n :: 0 <= n < |w.table| && w.table[n] == Unused ==> w.cache[n] < 0)
  }

  // ----- Changes that leave the files alone, and changes of one block -----

  /** Free identifiers are the same. */
  ghost predicate SameUse(w: World, w': World) {
    && |w'.table| == |w.table| && |w'.cache| == |w.cache|
    && forall n :: 0 <= n < |w.table| && n < |w.cache| ==>
      && (w'.table[n] == Unused <==> w.table[n] == Unused) && (w.table[n] == Unused && w.cache[n] < 0 ==> w'.cache[n] < 0)
  }

  lemma UseStays(d: Sizes, w: World, w': World, files: set<nat>, own: Owners, lost: set<int>)
    requires FsOk(d, w, files, own, lost) && CacheStays(w, w')
    ensures SameUse(w, w')
  {
    hide FileOk, IndexOk;
  }

  /** The files depend on what nodes read, and on which identifiers are free. */
  lemma FsStays(d: Sizes, w: World, w': World, files: set<nat>, own: Owners, lost: set<int>)
    requires FsOk(d, w, files, own, lost) && SameUse(w, w') && forall n :: Reads(w', Summary(n, -1)) == Reads(w, Summary(n, -1))
    ensures FsOk(d, w', files, own, lost)
    ensures forall ino, i :: IndexOf(w', ino, i) == IndexOf(w, ino, i)
    ensures forall ino :: BodyOf(w', ino) == BodyOf(w, ino)
  {
    hide Reads;
    assert forall f: int, i: nat :: IndexOf(w', f, i) == IndexOf(w, f, i);
    forall ino | ino in files ensures FileOk(d, w', own, ino) {
      assert FileOk(d, w, own, ino);
    }
    forall nid | nid in own ensures IndexOk(d, w', files, own, nid) {
      assert IndexOk(d, w, files, own, nid);
    }
  }

  /** Writing one data block changes one block of one file. */
  lemma BlockSet(d: Sizes, w: World, w': World, files: set<nat>, own: Owners, lost: set<int>, nid: int, off: nat)
    requires FsOk(d, w, files, own, lost) && SameUse(w, w') && nid in own && SameExcept(w, w', Summary(nid, off))
    ensures FsOk(d, w', files, own, lost)
    ensures forall ino, i :: IndexOf(w', ino, i) == IndexOf(w, ino, i)
    ensures forall ino :: BodyOf(w', ino) == BodyOf(w, ino)
    ensures forall ino: nat, k: nat :: ino in files && (ino != own[nid].0 || d.Slot(k) != own[nid].1 || d.Off(k) != off) ==>
              FileBlock(d, w', ino, k) == FileBlock(d, w, ino, k)
  {
    FsStays(d, w, w', files, own, lost);
    hide Reads, BodyOf;
    forall ino: nat, k: nat | ino in files && (ino != own[nid].0 || d.Slot(k) != own[nid].1 || d.Off(k) != off)
      ensures FileBlock(d, w', ino, k) == FileBlock(d, w, ino, k)
    {
      assert FileOk(d, w, own, ino);
      IndexInTable(w, ino, d.Slot(k));
    }
  }

  lemma IndexInTable(w: World, ino: int, i: nat)
    ensures IndexOf(w, ino, i) != -1 ==> BodyOf(w, ino).Some? && i < |BodyOf(w, ino).value.index|
  {
  }

  /** When nothing that is read changes, no block of a file does. */
  lemma BlocksStay(d: Sizes, w: World, w': World)
    requires d.Ok() && SameContents(w, w')
    ensures forall ino: int, k: nat :: FileBlock(d, w', ino, k) == FileBlock(d, w, ino, k)
    ensures forall ino, i :: IndexOf(w', ino, i) == IndexOf(w, ino, i)
    ensures forall ino :: BodyOf(w', ino) == BodyOf(w, ino)
  {
    hide Reads;
  }

  /** A new index node without pointers, entered in an inode: no file shows a different block. */
  lemma IndexAdded(d: Sizes, w: World, w1: World, w2: World, files: set<nat>, own: Owners, lost: set<int>, ino: nat, i: nat, nid: nat, body: InodeBody, b: Block)
    requires FsOk(d, w, files, own, lost) && ino in files && i < d.tableSize && IndexOf(w, ino, i) == -1 && nid < |w.table|
    requires nid !in files && nid !in own && nid !in lost && BodyOf(w, ino) == Some(body)
    requires SameExcept(w, w1, Summary(nid, -1)) && Reads(w1, Summary(nid, -1)) == Some(b)
    requires b.Index? && |b.ptrs| == d.indexSize && b.nid == nid && NoBlocks(w1, nid)
    requires SameExcept(w1, w2, Summary(ino, -1)) && |body.index| == d.tableSize
    requires Reads(w2, Summary(ino, -1)) == Some(Inode(ino, body.(index := body.index[i := nid])))
    requires |w2.table| == |w.table| == |w2.cache|
    requires forall n :: 0 <= n < |w.table| && n != nid ==> (w2.table[n] == Unused <==> w.table[n] == Unused) && (w.table[n] == Unused ==> w2.cache[n] < 0)
    requires w2.table[nid] != Unused
    ensures FsOk(d, w2, files, own[(nid as int) := (ino, i)], lost)
    ensures BodyOf(w2, ino) == Some(body.(index := body.index[i := nid])) && IndexOf(w2, ino, i) == nid
    ensures forall f :: f != ino && f != nid ==> BodyOf(w2, f) == BodyOf(w, f)
    ensures forall f: nat, k: nat :: f in files ==> FileBlock(d, w2, f, k) == FileBlock(d, w, f, k)
  {
    hide Reads;
    var own' := own[(nid as int) := (ino, i)];
    assert FileOk(d, w, own, ino);
    assert forall f :: f != ino && f != nid ==> BodyOf(w2, f) == BodyOf(w, f);
    assert forall f: int, j: nat :: f != nid ==> IndexOf(w2, f, j) == if f == ino && j == i then nid else IndexOf(w, f, j);
    forall f | f in files ensures FileOk(d, w2, own', f) {
      assert FileOk(d, w, own, f);
      forall j: nat | j < d.tableSize && IndexOf(w2, f, j) != -1
        ensures IndexOf(w2, f, j) in own' && own'[IndexOf(w2, f, j)] == (f, j)
      {
      }
    }
    forall n | n in own' ensures IndexOk(d, w2, files, own', n) {
      if n != nid {
        assert IndexOk(d, w, files, own, n);
      }
    }
    forall f: nat, k: nat | f in files ensures FileBlock(d, w2, f, k) == FileBlock(d, w, f, k) {
      assert FileOk(d, w, own, f);
      IndexInTable(w, f, d.Slot(k));
      if f == ino && d.Slot(k) == i {
        assert Reads(w2, Summary(nid, d.Off(k))) == Reads(w1, Summary(nid, d.Off(k)));
      }
    }
  }

  ghost predicate NoBlocks(w: World, nid: int) {
    forall off: nat :: Reads(w, Summary(nid, off)) == None
  }

  /** An index node without pointers is given back and its entry in the inode cleared: no file shows
      a different block. */
  lemma IndexDropped(d: Sizes, w: World, w1: World, w2: World, files: set<nat>, own: Owners, lost: set<int>, ino: nat, i: nat, nid: nat, body: InodeBody)
    requires FsOk(d, w, files, own, lost) && ino in files && nid in own && own[nid] == (ino, i) && NoBlocks(w, nid)
    requires BodyOf(w, ino) == Some(body) && |body.index| == d.tableSize && i < d.tableSize
    requires SameExcept(w, w1, Summary(nid, -1)) && Reads(w1, Summary(nid, -1)) == None
    requires SameExcept(w1, w2, Summary(ino, -1))
    requires Reads(w2, Summary(ino, -1)) == Some(Inode(ino, body.(index := body.index[i := -1])))
    requires |w.table| == |w2.table| == |w2.cache| && nid < |w.table|
    requires w2.table == w.table[nid := Unused] && w2.cache == w.cache[nid := -1]
    ensures FsOk(d, w2, files, own - {nid}, lost)
    ensures BodyOf(w2, ino) == Some(body.(index := body.index[i := -1]))
    ensures forall j: nat :: IndexOf(w2, ino, j) == if j == i then -1 else IndexOf(w, ino, j)
    ensures forall f: nat :: f in files && f != ino ==> BodyOf(w2, f) == BodyOf(w, f)
    ensures forall f: nat, k: nat :: f in files ==> FileBlock(d, w2, f, k) == FileBlock(d, w, f, k)
  {
    hide Reads;
    var own' := own - {nid};
    assert FileOk(d, w, own, ino) && IndexOk(d, w, files, own, nid);
    assert forall f :: f != ino && f != nid ==> BodyOf(w2, f) == BodyOf(w, f);
    assert forall f: int, j: nat :: f != nid ==> IndexOf(w2, f, j) == if f == ino && j == i then -1 else IndexOf(w, f, j);
    forall f | f in files ensures FileOk(d, w2, own', f) {
      assert FileOk(d, w, own, f);
    }
    forall n | n in own' ensures IndexOk(d, w2, files, own', n) {
      assert IndexOk(d, w, files, own, n);
    }
    forall f: nat, k: nat | f in files ensures FileBlock(d, w2, f, k) == FileBlock(d, w, f, k) {
      assert FileOk(d, w, own, f);
      IndexInTable(w, f, d.Slot(k));
    }
  }

  /** An inode is given back; the index nodes it still names belong to no file any more. */
  lemma FileDropped(d: Sizes, w: World, w': World, files: set<nat>, own: Owners, lost: set<int>, own': Owners, lost': set<int>, ino: nat)
    requires FsOk(d, w, files, own, lost) && ino in files
    requires SameExcept(w, w', Summary(ino, -1)) && Reads(w', Summary(ino, -1)) == None
    requires |w.table| == |w'.table| == |w'.cache| && ino < |w.table|
    requires w'.table == w.table[ino := Unused] && w'.cache == w.cache[ino := -1]
    requires forall n :: n in own' <==> n in own && own[n].0 != ino
    requires forall n :: n in own' ==> own'[n] == own[n]
    requires forall n :: n in lost' <==> n in lost || (n in own && own[n].0 == ino)
    ensures FsOk(d, w', files - {ino}, own', lost')
    ensures forall f: nat :: f in files && f != ino ==> BodyOf(w', f) == BodyOf(w, f)
    ensures forall f: nat, k: nat :: f in files && f != ino ==> FileBlock(d, w', f, k) == FileBlock(d, w, f, k)
  {
    hide Reads;
    assert forall f: int, j: nat :: f != ino ==> IndexOf(w', f, j) == IndexOf(w, f, j);
    forall f | f in files && f != ino ensures FileOk(d, w', own', f) {
      assert FileOk(d, w, own, f);
    }
    forall n | n in own ensures 0 <= n < |w.table| && n !in files && (n in own' ==> IndexOk(d, w', files - {ino}, own', n)) {
      assert IndexOk(d, w, files, own, n);
    }
    forall f: nat, k: nat | f in files && f != ino ensures FileBlock(d, w', f, k) == FileBlock(d, w, f, k) {
      assert FileOk(d, w, own, f);
      IndexInTable(w, f, d.Slot(k));
    }
  }

  /** A new inode without index nodes: an empty file. */
  lemma FileAdded(d: Sizes, w: World, w': World, files: set<nat>, own: Owners, lost: set<int>, ino: nat, body: InodeBody)
    requires FsOk(d, w, files, own, lost) && ino !in files && ino !in own && ino !in lost && ino < |w.table|
    requires SameExcept(w, w', Summary(ino, -1)) && Reads(w', Summary(ino, -1)) == Some(Inode(ino, body))
    requires |body.index| == d.tableSize && body.size == 0 && forall i :: 0 <= i < d.tableSize ==> body.index[i] == -1
    requires |w.table| == |w'.table| == |w'.cache| && w'.table[ino] != Unused
    requires forall n :: 0 <= n < |w.table| && n != ino ==> (w'.table[n] == Unused <==> w.table[n] == Unused) && (w.table[n] == Unused ==> w'.cache[n] < 0)
    ensures FsOk(d, w', files + {ino}, own, lost) && BodyOf(w', ino) == Some(body)
    ensures forall k: nat :: FileBlock(d, w', ino, k) == None
    ensures forall f: nat :: f in files ==> BodyOf(w', f) == BodyOf(w, f)
    ensures forall f: nat, k: nat :: f in files ==> FileBlock(d, w', f, k) == FileBlock(d, w, f, k)
  {
    hide Reads;
    assert forall f: int, j: nat :: f != ino ==> IndexOf(w', f, j) == IndexOf(w, f, j);
    assert forall j: nat :: IndexOf(w', ino, j) == -1;
    BlocksMono(d, 0, 0);
    forall f | f in files ensures FileOk(d, w', own, f) {
      assert FileOk(d, w, own, f);
    }
    forall n | n in own ensures IndexOk(d, w', files + {ino}, own, n) {
      assert IndexOk(d, w, files, own, n);
    }
    forall f: nat, k: nat | f in files ensures FileBlock(d, w', f, k) == FileBlock(d, w, f, k) {
      assert FileOk(d, w, own, f);
      IndexInTable(w, f, d.Slot(k));
    }
  }

  /** A new size in an inode changes no block. */
  lemma BodySet(d: Sizes, w: World, w': World, files: set<nat>, own: Owners, lost: set<int>, ino: nat, body: InodeBody, size: nat)
    requires FsOk(d, w, files, own, lost) && ino in files && BodyOf(w, ino) == Some(body) && SameUse(w, w')
    requires d.Blocks(size) <= d.tableSize * d.indexSize
    requires SameExcept(w, w', Summary(ino, -1)) && Reads(w', Summary(ino, -1)) == Some(Inode(ino, body.(size := size)))
    ensures FsOk(d, w', files, own, lost) && BodyOf(w', ino) == Some(body.(size := size))
    ensures forall f :: f != ino ==> BodyOf(w', f) == BodyOf(w, f)
    ensures forall f: int, k: nat :: FileBlock(d, w', f, k) == FileBlock(d, w, f, k)
  {
    hide Reads;
    assert forall f, i :: IndexOf(w', f, i) == IndexOf(w, f, i);
    forall f | f in files ensures FileOk(d, w', own, f) {
      assert FileOk(d, w, own, f);
    }
    forall n | n in own ensures IndexOk(d, w', files, own, n) {
      assert IndexOk(d, w, files, own, n);
    }
  }

  // ----- Tags -----

  /** The blocks below the size hold the tags of their places, and there are no others. */
  ghost predicate Tagged(d: Sizes, w: World, ino: int)
    requires d.Ok()
  {
    forall k: nat :: FileBlock(d, w, ino, k) == if k < d.Blocks(SizeOf(w, ino)) then Some(Data(Tag(ino, k))) else None
  }

  /** The file has a block wherever its size says so, and nowhere else. */
  ghost predicate Full(d: Sizes, w: World, ino: int)
    requires d.Ok()
  {
    forall k: nat :: FileBlock(d, w, ino, k).Some? <==> k < d.Blocks(SizeOf(w, ino))
  }

  /** Index node `i` lies below the size. */
  predicate Below(d: Sizes, i: nat, blocks: nat)
  {
    i * d.indexSize < blocks
  }

  /** A file has no index node above its size. */
  ghost predicate NoIdle(d: Sizes, w: World, ino: int)
    requires d.Ok()
  {
    forall i: nat :: IndexOf(w, ino, i) != -1 ==> Below(d, i, d.Blocks(SizeOf(w, ino)))
  }

  lemma BlocksMono(d: Sizes, a: nat, b: nat)
    requires d.Ok() && a <= b
    ensures d.Blocks(a) <= d.Blocks(b)
    ensures a / d.blockSize <= d.Blocks(a)
    ensures d.Blocks(a * d.blockSize) == a
  {
    var B := d.blockSize;
    DivMono(a + B - 1, b + B - 1, B);
    DivMono(a, a + B - 1, B);
    assert (a * B + B - 1) / B == a by { DivExact(a, B - 1, B); }
  }
}
