/** What writing and removing files changes, as relations between mapped worlds. */
module FileChanges {
  import opened Basics
  import opened Segments
  import opened SegmentRuns
  import opened Mapping
  import opened NodeOps
  import opened FileMap

  // ----- Free identifiers -----

  function FreeCount(table: seq<NatEntry>): nat {
    if table == [] then 0 else FreeCount(table[..|table| - 1]) + (if table[|table| - 1] == Unused then 1 else 0)
  }

  lemma {:induction false} FreeUpdate(table: seq<NatEntry>, n: nat, e: NatEntry)
    requires n < |table|
    ensures FreeCount(table[n := e]) == FreeCount(table) - (if table[n] == Unused then 1 else 0) + (if e == Unused then 1 else 0)
  {
    var t := table[n := e];
    if n < |table| - 1 {
      assert t[..|t| - 1] == table[..|table| - 1][n := e];
      FreeUpdate(table[..|table| - 1], n, e);
    } else {
      assert t[..|t| - 1] == table[..|table| - 1];
    }
  }

  lemma {:induction false} FreeSame(s: seq<NatEntry>, t: seq<NatEntry>)
    requires |s| == |t| && forall n :: 0 <= n < |s| ==> (t[n] == Unused <==> s[n] == Unused)
    ensures FreeCount(t) == FreeCount(s)
  {
    if s != [] {
      FreeSame(s[..|s| - 1], t[..|t| - 1]);
    }
  }

  lemma {:induction false} FreeNone(table: seq<NatEntry>)
    ensures FreeCount(table) == 0 <==> forall n :: 0 <= n < |table| ==> table[n] != Unused
  {
    if table != [] {
      FreeNone(table[..|table| - 1]);
      assert table == table[..|table| - 1] + [table[|table| - 1]];
    }
  }

  lemma {:induction false} AllUnused(table: seq<NatEntry>)
    requires forall n :: 0 <= n < |table| ==> table[n] == Unused
    ensures FreeCount(table) == |table|
  {
    if table != [] {
      AllUnused(table[..|table| - 1]);
    }
  }

  /** A scan that came around without finding a free identifier has seen them all taken. */
  lemma AllTaken(table: seq<NatEntry>, start: nat)
    requires start < |table| && table[if start == 0 then |table| - 1 else start - 1] != Unused
    requires forall j :: start <= j < start + |table| - 1 && j < |table| ==> table[j] != Unused
    requires forall j :: 0 <= j < start - 1 ==> table[j] != Unused
    ensures FreeCount(table) == 0
  {
    forall j | 0 <= j < |table| ensures table[j] != Unused {
    }
    FreeNone(table);
  }

  lemma UseFree(w: World, w': World)
    requires SameUse(w, w') && |w.table| == |w.cache|
    ensures FreeCount(w'.table) == FreeCount(w.table)
  {
    FreeSame(w.table, w'.table);
  }

  // ----- What the files say of nodes -----

  lemma AllBodies(d: Sizes, w: World, files: set<nat>, own: Owners, lost: set<int>)
    requires FsOk(d, w, files, own, lost)
    ensures forall f :: f in files ==> f < |w.table| && BodyOf(w, f).Some?
    ensures forall n :: 0 <= n < |w.table| && w.table[n] == Unused ==> n !in files && n !in own && n !in lost
  {
    forall f | f in files ensures f < |w.table| && BodyOf(w, f).Some? {
      assert FileOk(d, w, own, f);
    }
  }

  lemma OkHere(d: Sizes, w: World, files: set<nat>, own: Owners, lost: set<int>)
    requires FsOk(d, w, files, own, lost)
    ensures d.Ok()
  {
  }

  lemma SameNodes(w: World, w': World)
    requires SameContents(w, w')
    ensures forall n :: Reads(w', Summary(n, -1)) == Reads(w, Summary(n, -1))
  {
    hide Reads;
  }

  /** A cached inode is what a reader gets. */
  lemma InodeHere(B: nat, w: World, l2p: map<Summary, Loc>, d: Sizes, files: set<nat>, own: Owners, lost: set<int>, ino: nat)
    requires Inv(B, w, l2p, None) && FsOk(d, w, files, own, lost) && ino in files && ino < |w.cache| && w.cache[ino] >= 0
    ensures BodyOf(w, ino).Some? && w.cache[ino] in w.pages && w.pages[w.cache[ino]].data == Inode(ino, BodyOf(w, ino).value)
    ensures |BodyOf(w, ino).value.index| == d.tableSize && SizeOf(w, ino) == BodyOf(w, ino).value.size
    ensures d.Blocks(SizeOf(w, ino)) <= d.tableSize * d.indexSize
    ensures forall i: nat :: i < d.tableSize ==> IndexOf(w, ino, i) == BodyOf(w, ino).value.index[i]
  {
    hide SegInv, Roomy, Linked, Viewed;
    assert FileOk(d, w, own, ino);
    assert NodeOk(w, ino, None);
  }

  lemma IndexHere(w: World, d: Sizes, files: set<nat>, own: Owners, lost: set<int>, ino: nat, i: nat)
    requires FsOk(d, w, files, own, lost) && ino in files && i < d.tableSize && IndexOf(w, ino, i) != -1
    ensures IndexOf(w, ino, i) in own && own[IndexOf(w, ino, i)] == (ino, i) && 0 <= IndexOf(w, ino, i) < |w.table|
  {
    assert FileOk(d, w, own, ino);
    assert IndexOk(d, w, files, own, IndexOf(w, ino, i));
  }

  /** A cached index node is what a reader gets, and its pointers lead to the blocks of the file. */
  lemma CachedIndex(B: nat, w: World, l2p: map<Summary, Loc>, d: Sizes, files: set<nat>, own: Owners, lost: set<int>, nid: nat)
    requires Inv(B, w, l2p, None) && FsOk(d, w, files, own, lost) && nid in own && nid < |w.cache| && w.cache[nid] >= 0
    ensures w.cache[nid] in w.pages && w.pages[w.cache[nid]].data.Index? && |w.pages[w.cache[nid]].data.ptrs| == d.indexSize
    ensures IndexOf(w, own[nid].0, own[nid].1) == nid && own[nid].0 in files && own[nid].1 < d.tableSize && nid !in files
    ensures forall off: nat :: off < d.indexSize ==>
              var p := w.pages[w.cache[nid]].data.ptrs[off];
              && (p.Some? ==> p.value in w.st.disk && w.st.disk[p.value].Data?)
              && Reads(w, Summary(nid, off)) == if p.Some? then Some(w.st.disk[p.value]) else None
    ensures forall off: nat :: off >= d.indexSize ==> Reads(w, Summary(nid, off)) == None
  {
    hide Roomy;
    assert IndexOk(d, w, files, own, nid);
    assert NodeOk(w, nid, None);
    var b := w.pages[w.cache[nid]].data;
    assert Reads(w, Summary(nid, -1)) == Some(Erase(b));
    forall off: nat | off < d.indexSize
      ensures b.ptrs[off].Some? ==> b.ptrs[off].value in w.st.disk && w.st.disk[b.ptrs[off].value].Data?
    {
      PtrValid(B, w, l2p, nid, off);
    }
  }

  lemma PtrValid(B: nat, w: World, l2p: map<Summary, Loc>, nid: nat, off: nat)
    requires SegInv(B, w.st) && Linked(w.st, l2p) && Viewed(w, l2p, None)
    ensures Fwd(w, Summary(nid, off)).Some? ==>
              var loc := Fwd(w, Summary(nid, off)).value;
              loc in w.st.disk && w.st.disk[loc].Data?
  {
    hide NodeBlock;
    var o := Summary(nid, off);
    assert OldLoc(l2p, o) == Fwd(w, o);
    if o in l2p {
      assert IsValid(w.st, l2p[o]) && OwnerAt(w.st, l2p[o]) == o;
    }
  }

  // ----- Writing -----

  /** Blocks `start`..`start + n` of `ino` hold their tags, all other blocks of `files` are as before. */
  ghost predicate BlocksWrote(d: Sizes, w0: World, w: World, files: set<nat>, ino: nat, start: nat, n: nat)
    requires d.Ok()
  {
    forall f: nat, k: nat :: f in files ==>
      FileBlock(d, w, f, k) == if f == ino && start <= k < start + n then Some(Data(Tag(ino, k))) else FileBlock(d, w0, f, k)
  }

  /** The other inodes are as before; the index nodes of `ino` stay, and new ones lead to blocks from
      that of `start` on and below `upto`. */
  ghost predicate NodesWrote(d: Sizes, w0: World, w: World, files: set<nat>, ino: nat, start: nat, upto: nat)
    requires d.Ok()
  {
    && (forall f :: f in files && f != ino ==> BodyOf(w, f) == BodyOf(w0, f))
    && (forall i: nat :: IndexOf(w, ino, i) == IndexOf(w0, ino, i) ||
                         (IndexOf(w0, ino, i) == -1 && d.Slot(start) <= i && Below(d, i, upto)))
  }

  ghost predicate Wrote(d: Sizes, w0: World, w: World, files: set<nat>, ino: nat, start: nat, n: nat, upto: nat)
    requires d.Ok()
  {
    BlocksWrote(d, w0, w, files, ino, start, n) && NodesWrote(d, w0, w, files, ino, start, upto) && SizeOf(w, ino) == SizeOf(w0, ino)
  }

  lemma WroteSame(d: Sizes, w: World, w': World, files: set<nat>, ino: nat, k: nat, upto: nat)
    requires d.Ok() && SameContents(w, w')
    ensures Wrote(d, w, w', files, ino, k, 0, upto)
  {
    BlocksStay(d, w, w');
    hide FileBlock, BodyOf, IndexOf, SameContents;
  }

  lemma WroteTrans(d: Sizes, w0: World, w1: World, w2: World, files: set<nat>, ino: nat, start: nat, n: nat, n': nat, u: nat, u': nat)
    requires d.Ok() && Wrote(d, w0, w1, files, ino, start, n, u) && Wrote(d, w1, w2, files, ino, start + n, n', u') && u <= u'
    ensures Wrote(d, w0, w2, files, ino, start, n + n', u')
  {
    hide FileBlock, BodyOf, IndexOf;
    DivMono(start, start + n, d.indexSize);
  }

  lemma WroteMore(d: Sizes, w0: World, w: World, files: set<nat>, ino: nat, start: nat, n: nat, u: nat)
    requires d.Ok() && Wrote(d, w0, w, files, ino, start, n, u)
    ensures Wrote(d, w0, w, files, ino, start, n, u + 1)
  {
    hide FileBlock, BodyOf, IndexOf;
  }

  /** A new index node leads to no block yet. */
  lemma WroteIndex(d: Sizes, w: World, w': World, files: set<nat>, ino: nat, k: nat, nid: nat, body: InodeBody)
    requires d.Ok() && nid !in files && BodyOf(w, ino) == Some(body) && d.Slot(k) < |body.index| && body.index[d.Slot(k)] == -1
    requires BodyOf(w', ino) == Some(body.(index := body.index[d.Slot(k) := nid]))
    requires forall f :: f != ino && f != nid ==> BodyOf(w', f) == BodyOf(w, f)
    requires forall f: nat, k: nat :: f in files ==> FileBlock(d, w', f, k) == FileBlock(d, w, f, k)
    ensures Wrote(d, w, w', files, ino, k, 0, k + 1)
  {
    hide FileBlock, BodyOf;
    assert Below(d, d.Slot(k), k + 1) by {
      assert k == (k / d.indexSize) * d.indexSize + k % d.indexSize;
    }
  }

  /** One data block is written through its index node. */
  lemma WroteBlock(d: Sizes, w: World, w': World, files: set<nat>, own: Owners, lost: set<int>, ino: nat, nid: nat, k: nat)
    requires FsOk(d, w, files, own, lost) && SameUse(w, w') && nid in own && own[nid] == (ino, d.Slot(k))
    requires SameExcept(w, w', Summary(nid, d.Off(k))) && Reads(w', Summary(nid, d.Off(k))) == Some(Data(Tag(ino, k)))
    ensures FsOk(d, w', files, own, lost) && Wrote(d, w, w', files, ino, k, 1, k)
  {
    BlockSet(d, w, w', files, own, lost, nid, d.Off(k));
    assert IndexOk(d, w, files, own, nid);
    hide Reads, BodyOf, IndexOf, SameExcept;
    forall f: nat, j: nat | f in files
      ensures FileBlock(d, w', f, j) == if f == ino && k <= j < k + 1 then Some(Data(Tag(ino, j))) else FileBlock(d, w, f, j)
    {
      SlotOff(d, k, j);
    }
  }

  lemma NextSlot(d: Sizes, k: nat)
    requires d.Ok()
    ensures d.Off(k) + 1 < d.indexSize ==> d.Slot(k + 1) == d.Slot(k) && d.Off(k + 1) == d.Off(k) + 1
    ensures d.Off(k) < d.indexSize && k == d.Slot(k) * d.indexSize + d.Off(k)
  {
    assert k == (k / d.indexSize) * d.indexSize + k % d.indexSize;
    if d.Off(k) + 1 < d.indexSize {
      DivExact(d.Slot(k), d.Off(k) + 1, d.indexSize);
      assert k + 1 == ((k + 1) / d.indexSize) * d.indexSize + (k + 1) % d.indexSize;
    }
  }

  lemma SlotFits(d: Sizes, k: nat)
    requires d.Ok() && k < d.tableSize * d.indexSize
    ensures d.Slot(k) < d.tableSize
  {
    NextSlot(d, k);
    if d.Slot(k) > d.tableSize {
      MulLess(d.tableSize, d.Slot(k), d.indexSize);
    }
  }

  // ----- A write and the size it leaves -----

  /** The blocks that `len` bytes at `offset` touch. */
  function Span(d: Sizes, offset: nat, len: nat): nat
    requires d.Ok()
  {
    StartBelow(d, offset, len);
    d.Blocks(offset + len) - offset / d.blockSize
  }

  /** The size after `n` blocks of the `len` bytes at `offset` were written. */
  function NewSize(d: Sizes, size: nat, offset: nat, len: nat, n: nat): nat
    requires d.Ok()
  {
    if n == 0 then size
    else
      var pos := EndPos(d, offset, len, n);
      if pos > size then pos else size
  }

  /** Where a write of `n` blocks ends. */
  function EndPos(d: Sizes, offset: nat, len: nat, n: nat): nat
    requires d.Ok()
  {
    var start := offset / d.blockSize;
    if start + n < d.Blocks(offset + len) then (start + n) * d.blockSize else offset + len
  }

  /** A complete write ends where the request ends, a short one at the end of its last block; the size
      never shrinks. */
  lemma EndExact(d: Sizes, size: nat, offset: nat, len: nat, n: nat)
    requires d.Ok() && offset / d.blockSize + n <= d.Blocks(offset + len)
    ensures n == 0 ==> NewSize(d, size, offset, len, n) == size
    ensures var end := if offset / d.blockSize + n == d.Blocks(offset + len) then offset + len else d.Bytes(offset / d.blockSize + n);
      n > 0 ==> EndPos(d, offset, len, n) == end && NewSize(d, size, offset, len, n) == Larger(size, end)
  {
    hide Sizes.Blocks;
  }

  /** The bytes that a write of `n` blocks returns and the size it leaves.  A complete write returns what
      was asked for and the file reaches at least its end; a short one ends with its last block, inside
      the request; without a block, or after an error, the size stays and nothing is returned.
      A complete write has all blocks of the request, and one that ends beyond `max` blocks has none. */
  ghost predicate Extent(d: Sizes, size: nat, size': nat, offset: nat, len: nat, n: nat, bytes: nat, done: bool, raised: bool, max: nat)
    requires d.Ok()
  {
    && (done ==> Fill(d, offset + len, offset / d.blockSize + n)) && (offset + len > d.Bytes(max) ==> n == 0)
    && (n == 0 || raised ==> bytes == 0 && size' == size)
    && (n > 0 && done && !raised ==> bytes == len && size' == Larger(size, offset + len))
    && (n > 0 && !done && !raised ==>
      && var end := d.Bytes(offset / d.blockSize + n);
      offset < end < offset + len && bytes == end - offset && size' == Larger(size, end))
  }

  lemma ShortEnd(d: Sizes, offset: nat, len: nat, n: nat)
    requires d.Ok()
    ensures 0 < n && offset / d.blockSize + n < d.Blocks(offset + len) ==> offset < d.Bytes(offset / d.blockSize + n) < offset + len
  {
    BlocksFill(d, offset + len);
    var B := d.blockSize;
    assert offset == (offset / B) * B + offset % B;
    if 0 < n {
      MulLess(offset / B, offset / B + n, B);
    }
  }

  function Smaller(a: nat, b: nat): (r: nat)
    ensures r <= a && r <= b && (r == a || r == b)
  {
    if a < b then a else b
  }

  function Larger(a: int, b: int): (r: int)
    ensures a <= r && b <= r && (r == a || r == b)
  {
    if a < b then b else a
  }

  lemma NewBlocks(d: Sizes, size: nat, offset: nat, len: nat, n: nat)
    requires d.Ok() && offset / d.blockSize + n <= d.Blocks(offset + len)
    ensures d.Blocks(NewSize(d, size, offset, len, n)) ==
            if n == 0 || offset / d.blockSize + n <= d.Blocks(size) then d.Blocks(size) else offset / d.blockSize + n
  {
    var start := offset / d.blockSize;
    var pos := EndPos(d, offset, len, n);
    BlocksMono(d, start + n, start + n);
    assert d.Blocks(pos) == start + n;
    if pos <= size {
      BlocksMono(d, pos, size);
    } else {
      BlocksMono(d, size, pos);
    }
  }

  /** What a write of `n` of the blocks of `len` bytes at `offset` leaves; when an error came out the
      size is not set. */
  ghost predicate FileWrote(d: Sizes, w0: World, w: World, files: set<nat>, ino: nat, offset: nat, len: nat, n: nat, raised: bool)
    requires d.Ok()
  {
    && offset / d.blockSize + n <= d.Blocks(offset + len)
    && BlocksWrote(d, w0, w, files, ino, offset / d.blockSize, n)
    && NodesWrote(d, w0, w, files, ino, offset / d.blockSize, d.Blocks(offset + len))
    && SizeOf(w, ino) == (if raised then SizeOf(w0, ino) else NewSize(d, SizeOf(w0, ino), offset, len, n))
  }

  /** Files with their tags keep them, and files that are full stay so. */
  ghost predicate TagsKept(d: Sizes, w0: World, w: World, files: set<nat>)
    requires d.Ok()
  {
    && (forall f :: f in files && Tagged(d, w0, f) ==> Tagged(d, w, f))
    && (forall f :: f in files && Full(d, w0, f) ==> Full(d, w, f))
  }

  lemma TagsKeptRefl(d: Sizes, w: World, files: set<nat>)
    requires d.Ok()
    ensures TagsKept(d, w, w, files)
  {
  }

  ghost predicate NoneIdle(d: Sizes, w0: World, w: World, files: set<nat>)
    requires d.Ok()
  {
    forall f :: f in files && NoIdle(d, w0, f) ==> NoIdle(d, w, f)
  }

  /** A write that starts at or below the size leaves every file with its tags, and leaves no file
      blocks beyond its size; one that wrote all it should leaves no idle index node. */
  lemma WriteKeepsFiles(d: Sizes, w0: World, w: World, files: set<nat>, ino: nat, offset: nat, len: nat, n: nat, upto: nat)
    requires d.Ok() && ino in files && offset / d.blockSize + n <= d.Blocks(offset + len) && offset <= SizeOf(w0, ino)
    requires BlocksWrote(d, w0, w, files, ino, offset / d.blockSize, n) && NodesWrote(d, w0, w, files, ino, offset / d.blockSize, upto)
    requires SizeOf(w, ino) == NewSize(d, SizeOf(w0, ino), offset, len, n)
    ensures TagsKept(d, w0, w, files)
    ensures offset / d.blockSize + n == upto ==> NoneIdle(d, w0, w, files)
  {
    NewBlocks(d, SizeOf(w0, ino), offset, len, n);
    BlocksMono(d, offset, SizeOf(w0, ino));
    hide FileBlock, BodyOf, IndexOf, NewSize, EndPos;
    forall f | f in files && f != ino ensures SizeOf(w, f) == SizeOf(w0, f) && forall i: nat :: IndexOf(w, f, i) == IndexOf(w0, f, i) {
      OtherFile(w0, w, f);
    }
  }

  /** A write at `offset` that stopped short after `n` blocks leaves an idle index node exactly when the
      next block is at one that the size does not reach. */
  ghost predicate StopsIdle(d: Sizes, w0: World, w: World, ino: nat, offset: nat, n: nat)
    requires d.Ok()
  {
    NoIdle(d, w0, ino) ==> (NoIdle(d, w, ino) <==> Below(d, d.Slot(offset / d.blockSize + n), d.Blocks(SizeOf(w, ino))))
  }

  /** A write that stops short at a block whose index node is there leaves that index node idle exactly
      when it is the first block of it that the size does not reach. */
  lemma ShortIdle(d: Sizes, w0: World, w: World, files: set<nat>, ino: nat, start: nat, k: nat)
    requires d.Ok() && start <= k && NodesWrote(d, w0, w, files, ino, start, k + 1) && IndexOf(w, ino, d.Slot(k)) != -1
    requires NoIdle(d, w0, ino) && SizeOf(w0, ino) <= SizeOf(w, ino)
    ensures NoIdle(d, w, ino) <==> Below(d, d.Slot(k), d.Blocks(SizeOf(w, ino)))
  {
    BlocksMono(d, SizeOf(w0, ino), SizeOf(w, ino));
    hide BodyOf, IndexOf, SizeOf, Sizes.Blocks;
    forall i: nat | IndexOf(w, ino, i) != -1 && IndexOf(w0, ino, i) == -1 ensures i <= d.Slot(k) && i * d.indexSize <= d.Slot(k) * d.indexSize {
      UpToSlot(d, i, k);
    }
  }

  lemma UpToSlot(d: Sizes, i: nat, k: nat)
    requires d.Ok() && Below(d, i, k + 1)
    ensures i <= d.Slot(k) && i * d.indexSize <= d.Slot(k) * d.indexSize
  {
    DivExact(i, 0, d.indexSize);
    DivMono(i * d.indexSize, k, d.indexSize);
    if i < d.Slot(k) {
      MulLess(i, d.Slot(k), d.indexSize);
    }
  }

  lemma StartBelow(d: Sizes, offset: nat, len: nat)
    requires d.Ok()
    ensures offset / d.blockSize <= d.Blocks(offset + len)
  {
    BlocksMono(d, offset, offset + len);
  }

  /** A write of at least one block ends after its offset. */
  lemma EndAbove(d: Sizes, offset: nat, len: nat, n: nat)
    requires d.Ok() && 0 < n
    ensures offset <= EndPos(d, offset, len, n)
  {
    var B := d.blockSize;
    assert offset == (offset / B) * B + offset % B;
    assert (offset / B + n) * B == (offset / B) * B + n * B;
    assert n * B >= B;
  }

  lemma NewSizeNone(d: Sizes, size: nat, offset: nat, len: nat)
    requires d.Ok()
    ensures NewSize(d, size, offset, len, 0) == size
  {
  }

  lemma NewSizeMore(d: Sizes, size: nat, offset: nat, len: nat, n: nat)
    requires d.Ok()
    ensures NewSize(d, size, offset, len, n) >= size
  {
  }

  /** The size of `ino` may differ, and nothing else that the files say. */
  ghost predicate Resized(d: Sizes, w: World, w': World, ino: nat)
    requires d.Ok()
  {
    && (forall f :: f != ino ==> BodyOf(w', f) == BodyOf(w, f))
    && (forall f: int, k: nat :: FileBlock(d, w', f, k) == FileBlock(d, w, f, k))
    && (forall i: nat :: IndexOf(w', ino, i) == IndexOf(w, ino, i))
  }

  lemma IndexesStay(w: World, w': World, ino: nat, body: InodeBody, size: nat)
    requires BodyOf(w, ino) == Some(body) && BodyOf(w', ino) == Some(body.(size := size))
    ensures forall i: nat :: IndexOf(w', ino, i) == IndexOf(w, ino, i)
    ensures SizeOf(w', ino) == size && SizeOf(w, ino) == body.size
  {
  }

  lemma WroteNodes(d: Sizes, w0: World, w: World, files: set<nat>, ino: nat, start: nat, n: nat, upto: nat, upto': nat)
    requires d.Ok() && Wrote(d, w0, w, files, ino, start, n, upto) && upto <= upto'
    ensures NodesWrote(d, w0, w, files, ino, start, upto')
  {
    NodesWroteMore(d, w0, w, files, ino, start, upto, upto');
  }

  lemma NodesWroteMore(d: Sizes, w0: World, w: World, files: set<nat>, ino: nat, start: nat, upto: nat, upto': nat)
    requires d.Ok() && NodesWrote(d, w0, w, files, ino, start, upto) && upto <= upto'
    ensures NodesWrote(d, w0, w, files, ino, start, upto')
  {
  }

  lemma WroteThenSized(d: Sizes, w0: World, w1: World, w: World, files: set<nat>, ino: nat, start: nat, n: nat, upto: nat)
    requires d.Ok() && Wrote(d, w0, w1, files, ino, start, n, upto) && Resized(d, w1, w, ino)
    ensures BlocksWrote(d, w0, w, files, ino, start, n) && NodesWrote(d, w0, w, files, ino, start, upto)
    ensures forall i: nat :: IndexOf(w, ino, i) == IndexOf(w1, ino, i)
  {
    hide FileBlock, BodyOf, IndexOf;
  }

  /** Inodes that say the same have the same size and index nodes. */
  lemma OtherFile(w0: World, w: World, f: nat)
    requires BodyOf(w, f) == BodyOf(w0, f)
    ensures SizeOf(w, f) == SizeOf(w0, f) && forall i: nat :: IndexOf(w, f, i) == IndexOf(w0, f, i)
  {
  }

  // ----- Reading -----

  function TagOf(b: Option<Block>): Option<Tag> {
    match b
    case Some(Data(tag)) => Some(tag)
    case _ => None
  }

  /** Between `a` and `b` a block lies below an index node that is not there. */
  ghost predicate HoleIn(d: Sizes, w: World, ino: nat, a: nat, b: nat)
    requires d.Ok()
  {
    exists j: nat :: a <= j <= b && IndexOf(w, ino, d.Slot(j)) == -1
  }

  ghost predicate NoHole(d: Sizes, w: World, ino: nat, a: nat, b: nat)
    requires d.Ok()
  {
    forall j: nat :: a <= j < b ==> IndexOf(w, ino, d.Slot(j)) != -1
  }

  lemma NoHoleNext(d: Sizes, w: World, ino: nat, a: nat, b: nat)
    requires d.Ok() && NoHole(d, w, ino, a, b) && IndexOf(w, ino, d.Slot(b)) != -1
    ensures NoHole(d, w, ino, a, b + 1) && ReadAt(d, w, ino, a, b) == TagOf(FileBlock(d, w, ino, b))
  {
  }

  /** The blocks up to `k` are read, the rest is still empty. */
  ghost predicate ReadSoFar(d: Sizes, w: World, ino: nat, start: nat, k: nat, blks: seq<Option<Tag>>)
    requires d.Ok()
  {
    && start <= k <= start + |blks|
    && (forall i :: 0 <= i < k - start ==> blks[i] == ReadAt(d, w, ino, start, start + i))
    && (forall i :: k - start <= i < |blks| ==> blks[i] == None)
  }

  lemma ReadNext(d: Sizes, w: World, ino: nat, start: nat, k: nat, blks: seq<Option<Tag>>)
    requires d.Ok() && ReadSoFar(d, w, ino, start, k, blks) && k < start + |blks|
    ensures ReadSoFar(d, w, ino, start, k + 1, blks[k - start := ReadAt(d, w, ino, start, k)])
    ensures ReadAt(d, w, ino, start, k) == None ==> ReadSoFar(d, w, ino, start, k + 1, blks)
  {
    hide ReadAt;
  }

  lemma ReadDone(d: Sizes, w: World, ino: nat, start: nat, blks: seq<Option<Tag>>)
    requires d.Ok()
    ensures ReadSoFar(d, w, ino, start, start + |blks|, blks) <==> forall i :: 0 <= i < |blks| ==> blks[i] == ReadAt(d, w, ino, start, start + i)
    ensures (forall i :: 0 <= i < |blks| ==> blks[i] == None) ==> ReadSoFar(d, w, ino, start, start, blks)
    ensures NoHole(d, w, ino, start, start)
  {
    hide ReadAt;
  }

  lemma HoleBlocks(d: Sizes, w: World, ino: nat, a: nat, hole: nat, k: nat)
    requires d.Ok() && a <= hole <= k && IndexOf(w, ino, d.Slot(hole)) == -1
    ensures ReadAt(d, w, ino, a, k) == None
  {
  }

  /** What a read that starts at `start` gives for block `k`: from the first missing index node on,
      nothing more is read. */
  ghost function ReadAt(d: Sizes, w: World, ino: nat, start: nat, k: nat): Option<Tag>
    requires d.Ok()
  {
    if HoleIn(d, w, ino, start, k) then None else TagOf(FileBlock(d, w, ino, k))
  }

  /** Entry `i` of the index table is missing, and a block below a later entry is there. */
  ghost predicate HoleBefore(d: Sizes, w: World, ino: nat, start: nat, end: nat, i: nat, k: nat)
    requires d.Ok()
  {
    && d.Slot(start) <= i < d.Slot(k) && start <= k < end
    && IndexOf(w, ino, i) == -1 && TagOf(FileBlock(d, w, ino, k)).Some?
  }

  /** A read of the blocks `start` to `end` gives what is in the file exactly when no block of the
      request lies behind a missing entry of the index table, counted from the first block on. */
  lemma ReadExact(d: Sizes, w: World, ino: nat, start: nat, end: nat)
    requires d.Ok()
    ensures (forall k: nat :: start <= k < end ==> ReadAt(d, w, ino, start, k) == TagOf(FileBlock(d, w, ino, k)))
       <==> (forall i: nat, k: nat :: !HoleBefore(d, w, ino, start, end, i, k))
  {
    hide BodyOf, IndexOf, TagOf;
    forall i: nat, k: nat | HoleBefore(d, w, ino, start, end, i, k) ensures ReadAt(d, w, ino, start, k) == None {
      SlotBlock(d, start, i, k);
    }
    forall k: nat | start <= k < end && ReadAt(d, w, ino, start, k) != TagOf(FileBlock(d, w, ino, k))
      ensures exists i: nat :: HoleBefore(d, w, ino, start, end, i, k)
    {
      var j: nat :| start <= j <= k && IndexOf(w, ino, d.Slot(j)) == -1;
      DivMono(start, j, d.indexSize);
      DivMono(j, k, d.indexSize);
      if d.Slot(j) == d.Slot(k) {
        NoBlockBelow(d, w, ino, k);
      }
      assert HoleBefore(d, w, ino, start, end, d.Slot(j), k);
    }
  }

  lemma NoBlockBelow(d: Sizes, w: World, ino: nat, k: nat)
    requires d.Ok() && IndexOf(w, ino, d.Slot(k)) == -1
    ensures TagOf(FileBlock(d, w, ino, k)) == None
  {
  }

  /** Between two blocks there is a block of every index node between theirs. */
  lemma SlotBlock(d: Sizes, start: nat, i: nat, k: nat)
    requires d.Ok() && d.Slot(start) <= i < d.Slot(k)
    ensures exists j: nat :: start <= j <= k && d.Slot(j) == i
  {
    if d.Slot(start) == i {
      assert start <= k by {
        if k < start {
          DivMono(k, start, d.indexSize);
        }
      }
    } else {
      var j := i * d.indexSize;
      DivExact(i, 0, d.indexSize);
      assert d.Slot(j) == i;
      if j < start {
        DivMono(j, start, d.indexSize);
      }
      if j > k {
        DivMono(k, j, d.indexSize);
      }
    }
  }

  /** A file with its tags is read back, from wherever the read starts. */
  lemma TaggedReads(d: Sizes, w: World, ino: nat, start: nat, k: nat)
    requires d.Ok() && Tagged(d, w, ino) && start <= k < d.Blocks(SizeOf(w, ino))
    ensures ReadAt(d, w, ino, start, k) == Some(Tag(ino, k))
  {
    assert FileBlock(d, w, ino, k) == Some(Data(Tag(ino, k)));
    forall j: nat | start <= j <= k ensures IndexOf(w, ino, d.Slot(j)) != -1 {
      assert FileBlock(d, w, ino, j).Some?;
    }
  }

  /** What a read of `len` bytes at `offset` returns. */
  ghost predicate ReadsBack(d: Sizes, w: World, ino: nat, offset: nat, len: nat, blks: seq<Option<Tag>>)
    requires d.Ok()
  {
    var start, size := offset / d.blockSize, SizeOf(w, ino);
    && |blks| == d.Blocks(if offset + len > size then size else offset + len) - start
    && forall i :: 0 <= i < |blks| ==> blks[i] == ReadAt(d, w, ino, start, start + i)
  }

  /** A read depends on contents only. */
  lemma ReadsSame(d: Sizes, w: World, w': World, ino: nat, offset: nat, len: nat, blks: seq<Option<Tag>>)
    requires d.Ok() && SameContents(w, w')
    ensures ReadsBack(d, w', ino, offset, len, blks) == ReadsBack(d, w, ino, offset, len, blks)
    ensures SizeOf(w', ino) == SizeOf(w, ino)
  {
    BlocksStay(d, w, w');
    hide SameContents, BodyOf, FileBlock, IndexOf;
    forall start: nat, k: nat ensures ReadAt(d, w', ino, start, k) == ReadAt(d, w, ino, start, k) {
      assert HoleIn(d, w', ino, start, k) == HoleIn(d, w, ino, start, k);
    }
  }

  ghost predicate AllTags(d: Sizes, ino: nat, offset: nat, blks: seq<Option<Tag>>)
    requires d.Ok()
  {
    forall i :: 0 <= i < |blks| ==> blks[i] == Some(Tag(ino, offset / d.blockSize + i))
  }

  lemma TaggedReadsBack(d: Sizes, w: World, ino: nat, offset: nat, len: nat, blks: seq<Option<Tag>>)
    requires d.Ok() && offset <= SizeOf(w, ino) && ReadsBack(d, w, ino, offset, len, blks) && Tagged(d, w, ino)
    ensures AllTags(d, ino, offset, blks)
  {
    hide ReadAt, Tagged, SizeOf, Sizes.Blocks;
    var start, size := offset / d.blockSize, SizeOf(w, ino);
    BlocksMono(d, if offset + len > size then size else offset + len, size);
    forall i | 0 <= i < |blks| ensures blks[i] == Some(Tag(ino, start + i)) {
      TaggedReads(d, w, ino, start, start + i);
    }
  }

  // ----- Creating -----

  /** The files `files` have their inodes and blocks as before. */
  ghost predicate SameFiles(d: Sizes, w: World, w': World, files: set<nat>)
    requires d.Ok()
  {
    && (forall f: nat :: f in files ==> BodyOf(w', f) == BodyOf(w, f))
    && (forall f: nat, k: nat :: f in files ==> FileBlock(d, w', f, k) == FileBlock(d, w, f, k))
  }

  lemma SameFilesRefl(d: Sizes, w: World, files: set<nat>)
    requires d.Ok()
    ensures SameFiles(d, w, w, files)
  {
  }

  lemma SameFilesTrans(d: Sizes, w: World, w1: World, w2: World, files: set<nat>)
    requires d.Ok() && SameFiles(d, w, w1, files)
    requires forall f: nat :: f in files ==> BodyOf(w2, f) == BodyOf(w1, f)
    requires forall f: nat, k: nat :: f in files ==> FileBlock(d, w2, f, k) == FileBlock(d, w1, f, k)
    ensures SameFiles(d, w, w2, files)
  {
    hide BodyOf, FileBlock;
  }

  lemma FilesStay(d: Sizes, w: World, w': World, files: set<nat>)
    requires d.Ok() && SameContents(w, w')
    ensures SameFiles(d, w, w', files)
  {
    BlocksStay(d, w, w');
    hide BodyOf, FileBlock, SameContents;
  }

  /** A file of no bytes, without blocks and without index nodes. */
  ghost predicate EmptyFile(d: Sizes, w: World, ino: nat)
    requires d.Ok()
  {
    SizeOf(w, ino) == 0 && Tagged(d, w, ino) && NoIdle(d, w, ino)
  }

  /** An inode that belongs to no file keeps its identifier in use. */
  lemma FileLost(d: Sizes, w: World, files: set<nat>, own: Owners, lost: set<int>, ino: nat)
    requires FsOk(d, w, files, own, lost) && ino in files && forall n :: n in own ==> own[n].0 != ino
    ensures FsOk(d, w, files - {ino}, own, lost + {ino})
  {
    assert FileOk(d, w, own, ino);
    forall n | n in own ensures IndexOk(d, w, files - {ino}, own, n) {
      assert IndexOk(d, w, files, own, n);
    }
  }

  lemma OwnersElse(d: Sizes, w: World, files: set<nat>, own: Owners, lost: set<int>, ino: nat)
    requires FsOk(d, w, files, own, lost) && ino !in files
    ensures forall n :: n in own ==> own[n].0 != ino
  {
    forall n | n in own ensures own[n].0 != ino {
      assert IndexOk(d, w, files, own, n);
    }
  }

  /** A new file besides the files `files`, which are as before. */
  ghost predicate FileAdd(d: Sizes, w: World, w': World, files: set<nat>, ino: nat)
    requires d.Ok()
  {
    && BodyOf(w', ino) == Some(InodeBody(0, seq(d.tableSize, _ => -1)))
    && (forall k: nat :: FileBlock(d, w', ino, k) == None)
    && SameFiles(d, w, w', files)
  }

  lemma FileStays(d: Sizes, w: World, w1: World, w2: World, files: set<nat>, ino: nat)
    requires d.Ok() && SameContents(w1, w2) && FileAdd(d, w, w1, files, ino)
    ensures SameFiles(d, w, w2, files) && EmptyFile(d, w2, ino)
  {
    BlocksStay(d, w1, w2);
    BlocksMono(d, 0, 0);
    assert forall i: nat :: IndexOf(w1, ino, i) == -1;
    hide FileBlock, BodyOf, IndexOf, SameContents;
    assert SizeOf(w2, ino) == 0;
  }

  // ----- Removing -----

  /** One block of `ino` is truncated; `dropped` says that its index node went with it. */
  ghost predicate CutBlock(d: Sizes, w: World, w': World, files: set<nat>, ino: nat, k: nat, dropped: bool)
    requires d.Ok()
  {
    && (forall f: nat, j: nat :: f in files ==> FileBlock(d, w', f, j) == if f == ino && j == k then None else FileBlock(d, w, f, j))
    && (forall f: nat :: f in files && f != ino ==> BodyOf(w', f) == BodyOf(w, f))
    && SizeOf(w', ino) == SizeOf(w, ino)
    && (forall i: nat :: IndexOf(w', ino, i) == if dropped && i == d.Slot(k) then -1 else IndexOf(w, ino, i))
    && (dropped <==> forall j: nat :: j != k && d.Slot(j) == d.Slot(k) ==> FileBlock(d, w, ino, j) == None)
  }

  /** The blocks of `ino` below `k` are truncated, out of `end`. */
  ghost predicate CutTo(d: Sizes, w0: World, w: World, files: set<nat>, ino: nat, k: nat, end: nat)
    requires d.Ok()
  {
    && (forall f: nat, j: nat :: f in files ==> FileBlock(d, w, f, j) == if f == ino && j < k then None else FileBlock(d, w0, f, j))
    && (forall f: nat :: f in files && f != ino ==> BodyOf(w, f) == BodyOf(w0, f))
    && SizeOf(w, ino) == SizeOf(w0, ino)
    && (forall i: nat :: IndexOf(w, ino, i) == IndexOf(w0, ino, i) || (IndexOf(w, ino, i) == -1 && Below(d, i, k)))
    && (forall i: nat :: IndexOf(w, ino, i) != -1 && Below(d, i, end) ==> k < end && !Below(d, i + 1, k + 1))
  }

  lemma BelowLess(d: Sizes, i: nat, i': nat, n: nat)
    requires d.Ok()
    ensures Below(d, i, n) ==> 0 < n
    ensures i < i' && !Below(d, i, n) ==> !Below(d, i', n + 1)
    ensures i < i' && Below(d, i', n) ==> Below(d, i, n)
  {
    if i < i' {
      MulLess(i, i', d.indexSize);
    }
  }

  lemma BelowSlot(d: Sizes, i: nat, n: nat)
    requires d.Ok()
    ensures d.Slot(n) < i ==> !Below(d, i, n + 1)
    ensures i < d.Slot(n) ==> Below(d, i + 1, n + 1)
    ensures !Below(d, d.Slot(n) + 1, n + 1)
  {
    NextSlot(d, n);
    MulLess(d.Slot(n), d.Slot(n) + 1, d.indexSize);
    if d.Slot(n) < i {
      MulLess(d.Slot(n), i, d.indexSize);
    } else if i < d.Slot(n) {
      MulLess(i, d.Slot(n), d.indexSize);
      assert (i + 1) * d.indexSize == i * d.indexSize + d.indexSize;
    }
  }

  lemma BelowFacts(d: Sizes, i: nat, i': nat, n: nat)
    requires d.Ok()
    ensures Below(d, i, n) ==> 0 < n
    ensures i < i' && !Below(d, i, n) ==> !Below(d, i', n + 1)
    ensures d.Slot(n) < i ==> !Below(d, i, n + 1)
    ensures i < d.Slot(n) ==> Below(d, i + 1, n + 1)
    ensures !Below(d, d.Slot(n) + 1, n + 1)
  {
    hide Below;
    BelowLess(d, i, i', n);
    BelowSlot(d, i, n);
  }

  lemma CutStart(d: Sizes, w: World, files: set<nat>, ino: nat, end: nat)
    requires d.Ok()
    ensures CutTo(d, w, w, files, ino, 0, end)
  {
    hide FileBlock, BodyOf, IndexOf, Below;
    forall i: nat ensures (Below(d, i, end) ==> 0 < end) && !Below(d, i + 1, 1) {
      BelowFacts(d, i, i + 1, end);
      BelowFacts(d, i, i + 1, 0);
    }
  }

  /** One block further; an index node that went was not needed for the block after it. */
  lemma CutStep(d: Sizes, w0: World, w: World, w': World, files: set<nat>, ino: nat, k: nat, end: nat, dropped: bool)
    requires d.Ok() && ino in files && Full(d, w0, ino) && end == d.Blocks(SizeOf(w0, ino)) && k < end
    requires CutTo(d, w0, w, files, ino, k, end) && CutBlock(d, w, w', files, ino, k, dropped)
    ensures CutTo(d, w0, w', files, ino, k + 1, end)
    ensures dropped && k + 1 < end ==> d.Off(k) + 1 >= d.indexSize
  {
    hide FileBlock, BodyOf, IndexOf, SizeOf, Below;
    NextSlot(d, k);
    forall i: nat | IndexOf(w', ino, i) != -1 && Below(d, i, end) ensures k + 1 < end && !Below(d, i + 1, k + 2) {
      BelowFacts(d, i, i + 1, k);
      assert IndexOf(w, ino, i) != -1;
      assert i >= d.Slot(k);
      if i > d.Slot(k) {
        CutBeyond(d, i, k, end);
      } else {
        var j: nat :| j != k && d.Slot(j) == d.Slot(k) && FileBlock(d, w, ino, j) != None;
        assert k + 1 <= j < end;
        BelowFacts(d, i, i, j);
        CutWithin(d, i, k, j);
      }
    }
    forall i: nat ensures IndexOf(w', ino, i) == IndexOf(w0, ino, i) || (IndexOf(w', ino, i) == -1 && Below(d, i, k + 1)) {
      BelowSucc(d, i, k);
    }
    if k + 1 < end && d.Off(k) + 1 < d.indexSize {
      assert FileBlock(d, w, ino, k + 1).Some?;
    }
  }

  lemma BelowSucc(d: Sizes, i: nat, k: nat)
    requires d.Ok()
    ensures Below(d, i, k) ==> Below(d, i, k + 1)
    ensures Below(d, d.Slot(k), k + 1)
  {
    NextSlot(d, k);
  }

  lemma CutBeyond(d: Sizes, i: nat, k: nat, end: nat)
    requires d.Ok() && d.Slot(k) < i && Below(d, i, end)
    ensures k + 1 < end && !Below(d, i + 1, k + 2)
  {
    BelowFacts(d, i, i + 1, k);
    BelowFacts(d, i, i + 1, k + 1);
  }

  lemma CutWithin(d: Sizes, i: nat, k: nat, j: nat)
    requires d.Ok() && k < j && !Below(d, i + 1, j + 1)
    ensures !Below(d, i + 1, k + 2)
  {
  }

  lemma CutEnd(d: Sizes, w0: World, w: World, files: set<nat>, own0: Owners, own: Owners, lost: set<int>, ino: nat, end: nat)
    requires FsOk(d, w0, files, own0, lost) && FsOk(d, w, files, own, lost) && ino in files && CutTo(d, w0, w, files, ino, end, end)
    requires forall n :: n in own ==> n in own0 && own[n] == own0[n]
    ensures forall n :: n in own0 ==> (n in own <==> own0[n].0 != ino || !Below(d, own0[n].1, end))
  {
    hide FileBlock, BodyOf, Reads, Below;
    forall n | n in own0 ensures n in own <==> own0[n].0 != ino || !Below(d, own0[n].1, end) {
      var f, i := own0[n].0, own0[n].1;
      assert IndexOk(d, w0, files, own0, n);
      if n in own {
        assert IndexOk(d, w, files, own, n);
      }
      if f != ino {
        OtherFile(w0, w, f);
      }
      if IndexOf(w, f, i) == n {
        assert FileOk(d, w, own, f);
      }
    }
  }

  // ----- One truncated block -----

  predicate NoPtrs(ptrs: seq<Option<Loc>>) {
    forall i :: 0 <= i < |ptrs| ==> ptrs[i] == None
  }

  /** Block `k` of `ino` is gone, everything else that the files say is as before. */
  ghost predicate BlockCut(d: Sizes, w: World, w': World, files: set<nat>, ino: nat, k: nat)
    requires d.Ok()
  {
    && (forall f: nat, j: nat :: f in files ==> FileBlock(d, w', f, j) == if f == ino && j == k then None else FileBlock(d, w, f, j))
    && (forall f :: BodyOf(w', f) == BodyOf(w, f))
    && (forall f, i: nat :: IndexOf(w', f, i) == IndexOf(w, f, i))
  }

  lemma BlockGone(d: Sizes, w: World, w': World, files: set<nat>, own: Owners, lost: set<int>, ino: nat, nid: nat, k: nat)
    requires FsOk(d, w, files, own, lost) && FsOk(d, w', files, own, lost) && nid in own && own[nid] == (ino, d.Slot(k))
    requires SameExcept(w, w', Summary(nid, d.Off(k))) && Reads(w', Summary(nid, d.Off(k))) == None && SameUse(w, w')
    ensures BlockCut(d, w, w', files, ino, k)
  {
    BlockSet(d, w, w', files, own, lost, nid, d.Off(k));
    assert IndexOk(d, w, files, own, nid);
    hide Reads, BodyOf, IndexOf, SameExcept, FsOk;
    forall f: nat, j: nat | f in files ensures FileBlock(d, w', f, j) == if f == ino && j == k then None else FileBlock(d, w, f, j) {
      SlotOff(d, k, j);
    }
  }

  /** The index node has no pointer left exactly when no other block lay below it. */
  lemma LastBlock(d: Sizes, w: World, w': World, files: set<nat>, own: Owners, lost: set<int>, ino: nat, nid: nat, k: nat, ptrs: seq<Option<Loc>>)
    requires FsOk(d, w', files, own, lost) && nid in own && own[nid] == (ino, d.Slot(k)) && BlockCut(d, w, w', files, ino, k)
    requires |ptrs| == d.indexSize && forall off: nat :: off < d.indexSize ==> (Reads(w', Summary(nid, off)).Some? <==> ptrs[off].Some?)
    ensures NoPtrs(ptrs) <==> forall j: nat :: j != k && d.Slot(j) == d.Slot(k) ==> FileBlock(d, w, ino, j) == None
  {
    assert IndexOk(d, w', files, own, nid);
    hide Reads, BodyOf, IndexOf, FsOk;
    forall j: nat | d.Slot(j) == d.Slot(k) ensures FileBlock(d, w', ino, j).Some? <==> ptrs[d.Off(j)].Some? {
      SlotOff(d, j, j);
    }
    if NoPtrs(ptrs) {
      forall j: nat | j != k && d.Slot(j) == d.Slot(k) ensures FileBlock(d, w, ino, j) == None {
        SlotOff(d, j, j);
      }
    }
    if !NoPtrs(ptrs) {
      var off: nat :| off < |ptrs| && ptrs[off].Some?;
      var j := d.Slot(k) * d.indexSize + off;
      DivExact(d.Slot(k), off, d.indexSize);
      assert d.Slot(j) == d.Slot(k) && d.Off(j) == off by { NextSlot(d, j); }
    }
  }

  /** Entry `i` of the inode is cleared; no file shows a different block. */
  ghost predicate IndexDrop(d: Sizes, w: World, w': World, files: set<nat>, ino: nat, i: nat)
    requires d.Ok()
  {
    && SameBlocks(d, w, w', files)
    && (forall f: nat :: f in files && f != ino ==> BodyOf(w', f) == BodyOf(w, f))
    && SizeOf(w', ino) == SizeOf(w, ino)
    && (forall j: nat :: IndexOf(w', ino, j) == if j == i then -1 else IndexOf(w, ino, j))
  }

  ghost predicate SameBlocks(d: Sizes, w: World, w': World, files: set<nat>)
    requires d.Ok()
  {
    forall f: nat, k: nat :: f in files ==> FileBlock(d, w', f, k) == FileBlock(d, w, f, k)
  }

  lemma SizesStay(w: World, w': World, ino: nat, body: InodeBody, i: nat)
    requires BodyOf(w, ino) == Some(body) && i < |body.index| && BodyOf(w', ino) == Some(body.(index := body.index[i := -1]))
    ensures SizeOf(w', ino) == SizeOf(w, ino)
  {
  }

  lemma OwnedInUse(d: Sizes, w: World, files: set<nat>, own: Owners, lost: set<int>, nid: nat)
    requires FsOk(d, w, files, own, lost) && nid in own
    ensures nid < |w.table| && w.table[nid] != Unused
  {
    assert IndexOk(d, w, files, own, nid);
  }

  lemma CutThenDrop(d: Sizes, w: World, w1: World, w2: World, files: set<nat>, ino: nat, k: nat)
    requires d.Ok() && BlockCut(d, w, w1, files, ino, k) && IndexDrop(d, w1, w2, files, ino, d.Slot(k))
    requires forall j: nat :: j != k && d.Slot(j) == d.Slot(k) ==> FileBlock(d, w, ino, j) == None
    ensures CutBlock(d, w, w2, files, ino, k, true)
  {
    OtherFile(w, w1, ino);
    hide FileBlock, BodyOf, IndexOf, SizeOf;
  }

  lemma CutKeep(d: Sizes, w: World, w1: World, files: set<nat>, ino: nat, k: nat)
    requires d.Ok() && BlockCut(d, w, w1, files, ino, k)
    requires !forall j: nat :: j != k && d.Slot(j) == d.Slot(k) ==> FileBlock(d, w, ino, j) == None
    ensures CutBlock(d, w, w1, files, ino, k, false)
  {
    OtherFile(w, w1, ino);
    hide FileBlock, BodyOf, IndexOf, SizeOf;
  }

  lemma CutSame(d: Sizes, w0: World, w: World, w': World, files: set<nat>, ino: nat, k: nat, end: nat)
    requires d.Ok() && CutTo(d, w0, w, files, ino, k, end) && SameContents(w, w')
    ensures CutTo(d, w0, w', files, ino, k, end)
  {
    BlocksStay(d, w, w');
    OtherFile(w, w', ino);
    hide FileBlock, BodyOf, IndexOf, SizeOf, SameContents;
  }

  /** The next block to truncate is there, so its index node is. */
  lemma CutThere(d: Sizes, w0: World, w: World, files: set<nat>, ino: nat, k: nat, end: nat)
    requires d.Ok() && ino in files && CutTo(d, w0, w, files, ino, k, end) && Full(d, w0, ino) && k < end == d.Blocks(SizeOf(w0, ino))
    ensures IndexOf(w, ino, d.Slot(k)) != -1
  {
    assert FileBlock(d, w, ino, k).Some?;
  }

  // ----- What is given back -----

  /** The owners `cut` have lost their blocks, each its one, and no other has. */
  ghost predicate Freed(l: map<Summary, Loc>, u: nat, l': map<Summary, Loc>, u': nat, cut: set<Summary>) {
    cut <= l.Keys && l' == l - cut && u' + |cut| == u
  }

  ghost function One(l: map<Summary, Loc>, o: Summary): set<Summary> {
    if o in l then {o} else {}
  }

  lemma FreeOne(l: map<Summary, Loc>, u: nat, l': map<Summary, Loc>, u': nat, o: Summary)
    requires u' + (if o in l then 1 else 0) == u && l' == l - {o}
    ensures Freed(l, u, l', u', One(l, o))
  {
    assert o !in l ==> l - {o} == l;
  }

  lemma FreedNone(l: map<Summary, Loc>, u: nat)
    ensures Freed(l, u, l, u, {})
  {
    assert l - {} == l;
  }

  lemma FreedTrans(l: map<Summary, Loc>, u: nat, l1: map<Summary, Loc>, u1: nat, l2: map<Summary, Loc>, u2: nat, c1: set<Summary>, c2: set<Summary>)
    requires Freed(l, u, l1, u1, c1) && Freed(l1, u1, l2, u2, c2)
    ensures Freed(l, u, l2, u2, c1 + c2)
  {
    assert c1 !! c2;
    assert |c1 + c2| == |c1| + |c2|;
    assert l2 == l - (c1 + c2);
  }

  ghost predicate SubOwners(own0: Owners, own: Owners) {
    forall n :: n in own ==> n in own0 && own[n] == own0[n]
  }

  /** The index nodes of a file below its size, and above it. */
  ghost function Owned(d: Sizes, own: Owners, ino: nat, blocks: nat): set<int> {
    set n | n in own && own[n].0 == ino && Below(d, own[n].1, blocks)
  }

  ghost function IdleOf(d: Sizes, own: Owners, ino: nat, blocks: nat): set<int> {
    set n | n in own && own[n].0 == ino && !Below(d, own[n].1, blocks)
  }

  ghost function OwnOf(own: Owners, ino: nat): set<int> {
    set n | n in own && own[n].0 == ino
  }

  ghost function OwnElse(own: Owners, ino: nat): Owners {
    map n | n in own && own[n].0 != ino :: own[n]
  }

  lemma OwnNone(own: Owners, ino: nat)
    requires forall n :: n in own ==> own[n].0 != ino
    ensures OwnOf(own, ino) == {} && OwnElse(own, ino) == own
  {
    assert forall n :: n in own ==> n in OwnElse(own, ino) && OwnElse(own, ino)[n] == own[n];
    assert forall n :: n in OwnElse(own, ino) ==> n in own;
  }

  /** The mapped owners that belong to the nodes `nids`. */
  ghost function Under(l: map<Summary, Loc>, nids: set<int>): set<Summary> {
    set o | o in l && o.nid in nids
  }

  ghost predicate CutOwned(d: Sizes, own0: Owners, ino: nat, end: nat, cut: set<Summary>) {
    forall o :: o in cut ==> o.nid in Owned(d, own0, ino, end)
  }

  /** Exactly the identifiers `gone` became free. */
  ghost predicate UseGone(w: World, w': World, gone: set<int>) {
    |w'.table| == |w.table| && forall n :: 0 <= n < |w.table| ==> (w'.table[n] == Unused <==> w.table[n] == Unused || n in gone)
  }

  lemma CutOwnedMore(d: Sizes, own0: Owners, ino: nat, k: nat, end: nat, cut: set<Summary>, c: set<Summary>, nid: int)
    requires d.Ok() && k < end && CutOwned(d, own0, ino, end, cut) && nid in own0 && own0[nid] == (ino, d.Slot(k))
    requires forall o :: o in c ==> o.nid == nid
    ensures CutOwned(d, own0, ino, end, cut + c)
  {
    BelowSucc(d, d.Slot(k), k);
  }

  // ----- A removed file -----

  lemma CutOthers(d: Sizes, w0: World, w: World, files: set<nat>, ino: nat, end: nat)
    requires d.Ok() && CutTo(d, w0, w, files, ino, end, end)
    ensures SameFiles(d, w0, w, files - {ino})
  {
    hide FileBlock, BodyOf, IndexOf, Below;
  }

  /** What is left of a file's index nodes after its blocks are truncated are the idle ones. */
  lemma RestOwners(d: Sizes, own0: Owners, own: Owners, ino: nat, end: nat)
    requires SubOwners(own0, own)
    requires forall n :: n in own0 ==> (n in own <==> own0[n].0 != ino || !Below(d, own0[n].1, end))
    ensures OwnOf(own, ino) == IdleOf(d, own0, ino, end)
  {
    hide Below;
    forall n ensures n in OwnOf(own, ino) <==> n in IdleOf(d, own0, ino, end) {
      assert n in own ==> n in own0;
    }
  }

  /** Exactly the inode and the index nodes below the size are free again. */
  lemma RemovedUse(d: Sizes, w: World, w': World, files: set<nat>, own0: Owners, own: Owners, lost: set<int>, ino: nat, end: nat)
    requires FsOk(d, w, files, own0, lost) && FsOk(d, w', files - {ino}, OwnElse(own, ino), lost + OwnOf(own, ino)) && |w'.table| == |w.table|
    requires ino in files && SubOwners(own0, own)
    requires forall n :: n in own0 ==> (n in own <==> own0[n].0 != ino || !Below(d, own0[n].1, end))
    ensures UseGone(w, w', {ino as int} + Owned(d, own0, ino, end))
  {
    hide FileOk, IndexOk, Below;
    forall n | n in own0 ensures n !in files && n !in lost {
      OwnedApart(d, w, files, own0, lost, n);
    }
  }

  lemma OwnedApart(d: Sizes, w: World, files: set<nat>, own: Owners, lost: set<int>, nid: int)
    requires FsOk(d, w, files, own, lost) && nid in own
    ensures nid !in files && nid !in lost && 0 <= nid < |w.table|
  {
    assert IndexOk(d, w, files, own, nid);
  }

  /** Nothing below a free identifier is mapped. */
  lemma FreeUnmapped(B: nat, w: World, l2p: map<Summary, Loc>, n: int)
    requires Inv(B, w, l2p, None) && 0 <= n < |w.table| == |w.cache| && w.table[n] == Unused && w.cache[n] < 0
    ensures forall o :: o in l2p ==> o.nid != n
  {
    hide SegInv, Roomy, Linked, NodesOk;
    forall o | o in l2p ensures o.nid != n {
      assert OldLoc(l2p, o) == Fwd(w, o);
    }
  }

  /** The blocks given back are those of the inode, of the index nodes below the size, and of what
      lay below them. */
  lemma RemovedAll(B: nat, d: Sizes, w: World, w': World, l0: map<Summary, Loc>, u0: nat, l: map<Summary, Loc>, u: nat, cut: set<Summary>, c: set<Summary>,
                   files: set<nat>, own0: Owners, own: Owners, lost: set<int>, ino: nat, end: nat)
    requires FsOk(d, w, files, own0, lost) && FsOk(d, w', files - {ino}, OwnElse(own, ino), lost + OwnOf(own, ino)) && ino in files
    requires c <= {Summary(ino, -1)} && Freed(l0, u0, l, u, cut + c)
    requires Inv(B, w', l, None) && CutOwned(d, own0, ino, end, cut) && UseGone(w, w', {ino as int} + Owned(d, own0, ino, end))
    ensures l == l0 - Under(l0, {ino as int} + Owned(d, own0, ino, end))
    ensures u + |Under(l0, {ino as int} + Owned(d, own0, ino, end))| == u0
  {
    hide Inv, IndexOk, Below;
    var gone := {ino as int} + Owned(d, own0, ino, end);
    assert FileOk(d, w, own0, ino);
    hide FileOk;
    forall o | o in l0 && o.nid in gone ensures o in cut + c {
      if o.nid != ino {
        OwnedApart(d, w, files, own0, lost, o.nid);
      }
      FreeUnmapped(B, w', l, o.nid);
      assert o !in l;
    }
    assert cut + c == Under(l0, gone);
  }

  /** Removing a file loses no identifier exactly when it has no idle index node. */
  lemma IdleLost(d: Sizes, w: World, files: set<nat>, own: Owners, lost: set<int>, ino: nat, end: nat)
    requires FsOk(d, w, files, own, lost) && ino in files && end == d.Blocks(SizeOf(w, ino))
    ensures NoIdle(d, w, ino) <==> lost + IdleOf(d, own, ino, end) == lost
  {
    hide BodyOf, Reads, Below;
    assert FileOk(d, w, own, ino);
    forall n | n in own ensures n !in lost && IndexOf(w, own[n].0, own[n].1) == n && n >= 0 {
      OwnedApart(d, w, files, own, lost, n);
      assert IndexOk(d, w, files, own, n);
    }
    forall i: nat | IndexOf(w, ino, i) != -1 ensures IndexOf(w, ino, i) in own && own[IndexOf(w, ino, i)] == (ino, i) {
      IndexInTable(w, ino, i);
    }
    if !NoIdle(d, w, ino) {
      var i: nat :| IndexOf(w, ino, i) != -1 && !Below(d, i, end);
      assert IndexOf(w, ino, i) in IdleOf(d, own, ino, end);
    }
  }
}
