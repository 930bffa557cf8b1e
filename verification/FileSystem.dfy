/** Files written, read and removed through the segment manager: what is written is read back,
    whatever is written to other files and collected in between, and what is removed goes back. */
module FileSystem {
  import opened Basics
  import opened Segments
  import opened SegmentRuns
  import opened Mapping
  import opened NodeOps
  import opened FileMap
  import opened FileChanges
  import opened SegmentManager
  import opened Reclaim

  lemma ReadsNode(w: World, nid: int)
    ensures Reads(w, Summary(nid, -1)).Some? ==> NodeBlock(w, nid).Some?
  {
  }

  lemma SameThenExcept(w: World, w0: World, w1: World, x: Summary)
    requires SameContents(w, w0) && SameExcept(w0, w1, x)
    ensures SameExcept(w, w1, x)
  {
  }

  lemma CacheKeeps(w: World, w': World, n: nat)
    requires CacheStays(w, w') && n < |w.cache| && w.cache[n] >= 0
    ensures n < |w'.cache| && w'.cache[n] == w.cache[n]
  {
  }

  lemma NoBlocksBelow(w: World, nid: nat, b: Block)
    requires nid < |w.table| && nid < |w.cache| && w.cache[nid] >= 0 && w.cache[nid] in w.pages && w.pages[w.cache[nid]].data == b && Bare(b)
    ensures NoBlocks(w, nid)
  {
    forall off: nat ensures Reads(w, Summary(nid, off)) == None {
      BareFwd(w, nid, off);
    }
  }

  lemma FsNode(w: World, d: Sizes, files: set<nat>, own: Owners, lost: set<int>, nid: nat)
    requires FsOk(d, w, files, own, lost) && (nid in files || nid in own)
    ensures nid < |w.table| && Reads(w, Summary(nid, -1)).Some?
  {
    if nid in files {
      assert FileOk(d, w, own, nid);
    } else {
      assert IndexOk(d, w, files, own, nid);
    }
  }

  lemma CachedPage(B: nat, w: World, l2p: map<Summary, Loc>, nid: nat)
    requires Inv(B, w, l2p, None) && nid < |w.cache| && w.cache[nid] >= 0
    ensures w.cache[nid] in w.pages
  {
    hide SegInv, Roomy, Linked, Viewed;
    assert NodeOk(w, nid, None);
  }

  lemma FileInUse(d: Sizes, w: World, files: set<nat>, own: Owners, lost: set<int>, ino: nat)
    requires FsOk(d, w, files, own, lost) && ino in files
    ensures ino < |w.table| && w.table[ino] != Unused
  {
    assert FileOk(d, w, own, ino);
  }

  /** Writing a node and dropping its page leaves the free identifiers as they are. */
  lemma UsesClose(d: Sizes, w: World, w1: World, w2: World, files: set<nat>, own: Owners, lost: set<int>, nid: nat, ok: bool)
    requires FsOk(d, w, files, own, lost) && (w1 == w || CacheStays(w, w1)) && nid < |w.cache| && w.table[nid] != Unused
    requires w2 == if ok then w1.(cache := w1.cache[nid := -1]) else w1
    requires |w1.cache| == |w.cache|
    ensures SameUse(w, w2)
  {
    hide FileOk, IndexOk;
  }

  /** Going round from `start`, `nid` is the first identifier that is free. */
  ghost predicate NextFree(table: seq<NatEntry>, start: nat, nid: int) {
    && 0 <= nid < |table| && table[nid] == Unused && start < |table|
    && forall j :: 0 <= j < |table| && (if start <= nid then start <= j < nid else start <= j || j < nid) ==> table[j] != Unused
  }

  lemma CameRound(t: seq<NatEntry>, start: nat, v: nat, nid: nat)
    requires v < |t| && start < |t| && nid == (if start + v < |t| then start + v else start + v - |t|) && t[nid] == Unused
    requires forall j :: start <= j < start + v && j < |t| ==> t[j] != Unused
    requires forall j :: 0 <= j < start + v - |t| ==> t[j] != Unused
    ensures NextFree(t, start, nid)
  {
  }

  // ----- Closing -----

  /** Node `n` is the index node of a block below the size. */
  ghost predicate Leads(d: Sizes, w: World, ino: nat, n: int)
    requires d.Ok()
  {
    n != -1 && exists k: nat :: k < d.Blocks(SizeOf(w, ino)) && IndexOf(w, ino, d.Slot(k)) == n
  }

  ghost predicate LedBelow(w: World, ino: nat, ii: nat, n: int) {
    n != -1 && exists i: nat :: i < ii && IndexOf(w, ino, i) == n
  }

  /** The node is not cached. */
  ghost predicate Gone(w: World, n: int) {
    0 <= n < |w.cache| ==> w.cache[n] < 0
  }

  /** The node is cached, and waits to be written, as before. */
  ghost predicate Left(w: World, w': World, n: nat) {
    n < |w.cache| == |w'.cache| ==> w'.cache[n] == w.cache[n] && (Marked(w', n) <==> Marked(w, n))
  }

  ghost predicate ClosedBelow(w: World, w': World, ino: nat, ii: nat) {
    && |w'.cache| == |w.cache|
    && (forall n: nat :: LedBelow(w, ino, ii, n) ==> Gone(w', n))
    && (forall n: nat :: !LedBelow(w, ino, ii, n) ==> Left(w, w', n))
  }

  /** Node `nid` was dropped from the cache, or was not there. */
  ghost predicate Dropped(w: World, w': World, nid: int) {
    || (w' == w && Gone(w, nid))
    || (0 <= nid < |w.cache| && w'.cache == w.cache[nid := -1] && forall n: nat :: n != nid ==> (Marked(w', n) <==> Marked(w, n)))
  }

  lemma MarkedPage(w: World, n: nat)
    ensures n < |w.cache| && w.cache[n] in w.pages ==> (Marked(w, n) <==> w.pages[w.cache[n]].dirty)
  {
  }

  /** Where no node waits to be written, a node that is still cached does not either. */
  lemma CleanLeft(w: World, w1: World, ino: nat, ii: nat, nid: nat)
    requires NoDirty(w) && ClosedBelow(w, w1, ino, ii) && nid < |w1.cache| && w1.cache[nid] >= 0
    ensures !Marked(w1, nid)
  {
    hide LedBelow;
    assert LedBelow(w, ino, ii, nid) ==> Gone(w1, nid);
    assert !LedBelow(w, ino, ii, nid) ==> Left(w, w1, nid);
  }

  lemma NothingClosed(w: World, ino: nat)
    ensures ClosedBelow(w, w, ino, 0)
  {
  }

  lemma OneClosed(w: World, w1: World, w2: World, ino: nat, ii: nat)
    requires ClosedBelow(w, w1, ino, ii) && Dropped(w1, w2, IndexOf(w, ino, ii))
    ensures ClosedBelow(w, w2, ino, ii + 1)
  {
    hide IndexOf, Marked;
    var nid := IndexOf(w, ino, ii);
    forall n: nat ensures LedBelow(w, ino, ii + 1, n) <==> LedBelow(w, ino, ii, n) || n == nid {
      if n == nid {
        assert ii < ii + 1 && IndexOf(w, ino, ii) == n;
      }
    }
    hide LedBelow;
    forall n: nat ensures (LedBelow(w, ino, ii + 1, n) ==> Gone(w2, n)) && (!LedBelow(w, ino, ii + 1, n) ==> Left(w, w2, n)) {
      if LedBelow(w, ino, ii, n) {
        assert Gone(w1, n);
      } else {
        assert Left(w, w1, n);
      }
    }
  }

  lemma LedSlots(d: Sizes, w: World, ino: nat, ii: nat, n: int)
    requires d.Ok() && d.Blocks(SizeOf(w, ino)) <= d.First(ii) && (ii > 0 ==> d.First(ii - 1) < d.Blocks(SizeOf(w, ino)))
    ensures LedBelow(w, ino, ii, n) <==> Leads(d, w, ino, n)
  {
    hide IndexOf, Sizes.Blocks, Sizes.Slot, Sizes.First;
    if LedBelow(w, ino, ii, n) {
      var i: nat :| i < ii && IndexOf(w, ino, i) == n;
      SlotFirst(d, d.First(ii - 1), i);
      SlotFirst(d, d.First(i), ii - 1);
      SlotFirst(d, d.First(i), i);
      assert d.First(i) < d.Blocks(SizeOf(w, ino)) by {
        SlotFirst(d, d.First(ii - 1), ii - 1);
      }
      assert IndexOf(w, ino, d.Slot(d.First(i))) == n;
    }
    if Leads(d, w, ino, n) {
      var k: nat :| k < d.Blocks(SizeOf(w, ino)) && IndexOf(w, ino, d.Slot(k)) == n;
      SlotFirst(d, k, ii);
    }
  }

  lemma AllClosed(d: Sizes, w: World, w2: World, w3: World, ino: nat, ii: nat)
    requires d.Ok() && ClosedBelow(w, w2, ino, ii) && Dropped(w2, w3, ino)
    requires d.Blocks(SizeOf(w, ino)) <= d.First(ii) && (ii > 0 ==> d.First(ii - 1) < d.Blocks(SizeOf(w, ino)))
    ensures forall n: nat :: n == ino || Leads(d, w, ino, n) ==> Gone(w3, n)
    ensures forall n: nat :: n != ino && !Leads(d, w, ino, n) ==> Left(w, w3, n)
  {
    hide LedBelow, Leads, Marked, Sizes.Blocks, Sizes.First, SizeOf;
    forall n: nat ensures LedBelow(w, ino, ii, n) <==> Leads(d, w, ino, n) {
      LedSlots(d, w, ino, ii, n);
    }
    forall n: nat
      ensures (n == ino || Leads(d, w, ino, n) ==> Gone(w3, n)) && (n != ino && !Leads(d, w, ino, n) ==> Left(w, w3, n))
    {
      if Leads(d, w, ino, n) {
        assert Gone(w2, n);
      } else {
        assert Left(w, w2, n);
      }
    }
  }

  lemma SameIndex(w: World, w': World, ino: nat, i: nat)
    requires SameContents(w, w')
    ensures IndexOf(w', ino, i) == IndexOf(w, ino, i) && SizeOf(w', ino) == SizeOf(w, ino)
  {
    hide Reads;
  }

  class FileSystem {
    const d: Sizes
    const m: Manager
    const opSegs: nat
    const maxFile: nat
    var nextScan: nat
    var freeNodes: nat
    ghost var files: set<nat>
    ghost var own: Owners
    ghost var lost: set<int>

    ghost predicate Valid()
      reads this, m, m.segs, m.cur, m.freeNext, m.table, m.cache
    {
      && m.Valid(None) && FsOk(d, m.W(), files, own, lost) && freeNodes == FreeCount(m.table[..])
      && maxFile <= d.tableSize * d.indexSize
    }

    /** The inode of a file is cached while the file is open. */
    ghost predicate Open(ino: nat)
      reads this, m.cache
    {
      ino in files && ino < m.cache.Length && m.cache[ino] >= 0
    }

    /** Index node `nid` leads to block `k` of the file and is cached. */
    ghost predicate Loaded(ino: nat, k: nat, nid: int)
      reads this, m.cache
    {
      d.Ok() && nid in own && own[nid] == (ino, d.Slot(k)) && 0 <= nid < m.cache.Length && m.cache[nid] >= 0
    }

    /** A file system without files over an empty segment manager. */
    constructor (d: Sizes, m: Manager, opSegs: nat, maxFile: nat)
      requires d.Ok() && m.Valid(None) && maxFile <= d.tableSize * d.indexSize
      requires forall n :: 0 <= n < m.table.Length ==> m.table[n] == Unused && m.cache[n] == -1
      ensures this.d == d && this.m == m && this.opSegs == opSegs && this.maxFile == maxFile
      ensures Valid() && files == {} && lost == {} && freeNodes == m.table.Length
    {
      this.d, this.m, this.opSegs, this.maxFile := d, m, opSegs, maxFile;
      nextScan, freeNodes, files, own, lost := 0, 0, {}, map[], {};
      new;
      BuildFree();
      AllUnused(m.table[..]);
    }

    /** The files of a mounted segment manager: free identifiers are counted again. */
    constructor Mounted(d: Sizes, m: Manager, opSegs: nat, maxFile: nat, ghost files: set<nat>, ghost own: Owners, ghost lost: set<int>)
      requires m.Valid(None) && FsOk(d, m.W(), files, own, lost) && maxFile <= d.tableSize * d.indexSize
      ensures this.d == d && this.m == m && this.opSegs == opSegs && this.maxFile == maxFile
      ensures Valid() && this.files == files && this.own == own && this.lost == lost
    {
      hide FsOk, Inv, RingOk, Run;
      this.d, this.m, this.opSegs, this.maxFile := d, m, opSegs, maxFile;
      nextScan, freeNodes := 0, 0;
      this.files, this.own, this.lost := files, own, lost;
      new;
      BuildFree();
    }

    // ----- Identifiers -----

    /** Counts the free identifiers; the next scan starts at the first of them. */
    method BuildFree()
      modifies this`nextScan, this`freeNodes
      ensures freeNodes == FreeCount(m.table[..])
      ensures forall n :: 0 <= n < nextScan && n < m.table.Length ==> m.table[n] != Unused
      ensures freeNodes > 0 ==> nextScan < m.table.Length && m.table[nextScan] == Unused
    {
      nextScan, freeNodes := m.table.Length, 0;
      var ii := 0;
      while ii < m.table.Length
        invariant ii <= m.table.Length && freeNodes == FreeCount(m.table[..ii])
        invariant forall n :: 0 <= n < nextScan && n < ii ==> m.table[n] != Unused
        invariant nextScan == m.table.Length || (nextScan < ii && m.table[nextScan] == Unused)
      {
        assert m.table[..ii + 1][..ii] == m.table[..ii];
        if m.table[ii] == Unused {
          freeNodes := freeNodes + 1;
          if nextScan == m.table.Length {
            nextScan := ii;
          }
        }
        ii := ii + 1;
      }
      assert m.table[..ii] == m.table[..];
      FreeNone(m.table[..]);
    }

    /** Takes the next free identifier after the last one taken, or none when all are in use. */
    method GetNode() returns (nid: int)
      requires m.Valid(None) && freeNodes == FreeCount(m.table[..])
      requires forall n :: 0 <= n < m.table.Length && m.table[n] == Unused ==> m.cache[n] < 0
      modifies this`nextScan, this`freeNodes, m`natDirty, m.table
      ensures m.Valid(None) && freeNodes == FreeCount(m.table[..]) && SameContents(old(m.W()), m.W())
      ensures nid == -1 <==> forall n :: 0 <= n < m.table.Length ==> old(m.table[n]) != Unused
      ensures nid == -1 ==> m.table[..] == old(m.table[..]) && freeNodes == old(freeNodes) == 0
      ensures nid != -1 ==> freeNodes == old(freeNodes) - 1
      ensures nid != -1 ==> nextScan == nid + 1 && NextFree(old(m.table[..]), if old(nextScan) >= m.table.Length then 0 else old(nextScan), nid)
      ensures nid != -1 ==> 0 <= nid < m.table.Length && old(m.table[nid]) == Unused && m.table[..] == old(m.table[..])[nid := InUse]
    {
      hide NextFree, Manager.Ring, Manager.PagesOk, Manager.Traced, SafeCurs, Manager.CurLinked, Manager.CurSafe, Manager.SegsMarked, Manager.NatMarked, FreeCount, SameContents, Inv, SegInv, RingOk, Run;
      FreeNone(m.table[..]);
      SameRefl(m.W());
      if freeNodes == 0 {
        return -1;
      }
      if nextScan >= m.table.Length {
        nextScan := 0;
      }
      var n := m.table.Length;
      ghost var start, v, t := nextScan, 0, m.table[..];
      while m.table[nextScan] != Unused
        modifies this`nextScan
        invariant m.table[..] == t
        invariant 0 <= v < n && 0 <= start < n && nextScan == (if start + v < n then start + v else start + v - n)
        invariant forall j :: start <= j < start + v && j < n ==> t[j] != Unused
        invariant forall j :: 0 <= j < start + v - n ==> t[j] != Unused
        decreases n - v
      {
        if v + 1 == n {
          AllTaken(t, start);
          assert false;
        }
        nextScan := nextScan + 1;
        if nextScan >= n {
          nextScan := 0;
        }
        v := v + 1;
      }
      nid := nextScan;
      CameRound(t, start, v, nid);
      FreeUpdate(m.table[..], nid, InUse);
      freeNodes := freeNodes - 1;
      m.ClaimNode(nid);
      nextScan := nextScan + 1;
    }

    /** What a new node says: an empty index node, or an inode of no bytes without index nodes. */
    function Fresh(nid: int, inode: bool): (b: Block)
      ensures Bare(b) && IsNode(b) && b.nid == nid
    {
      if inode then Inode(nid, InodeBody(0, seq(d.tableSize, _ => -1))) else Index(nid, seq(d.indexSize, _ => None))
    }

    /** A new node in the cache, in use but not written yet. */
    method NewNode(inode: bool) returns (nid: int)
      requires m.Valid(None) && freeNodes == FreeCount(m.table[..])
      requires forall n :: 0 <= n < m.table.Length && m.table[n] == Unused ==> m.cache[n] < 0
      modifies this`nextScan, this`freeNodes, m`pages, m`nextPage, m`natDirty, m.table, m.cache
      ensures m.Valid(None) && freeNodes == FreeCount(m.table[..])
      ensures nid == -1 ==> freeNodes == old(freeNodes) == 0 && SameContents(old(m.W()), m.W()) && m.table[..] == old(m.table[..]) && m.cache[..] == old(m.cache[..])
      ensures nid == -1 ==> m.pages == old(m.pages)
      ensures nid != -1 ==> freeNodes == old(freeNodes) - 1
      ensures nid != -1 ==>
                && 0 <= nid < m.table.Length && old(m.table[nid]) == Unused && m.table[..] == old(m.table[..])[nid := InUse]
                && SameExcept(old(m.W()), m.W(), Summary(nid, -1)) && Reads(m.W(), Summary(nid, -1)) == Some(Fresh(nid, inode))
                && m.cache[nid] >= 0 && m.cache[nid] in m.pages && m.pages[m.cache[nid]].data == Fresh(nid, inode)
                && (forall n :: 0 <= n < m.cache.Length && n != nid ==> m.cache[n] == old(m.cache[n]))
                && (forall p :: p in old(m.pages) ==> p in m.pages && m.pages[p] == old(m.pages[p]))
    {
      hide SafeCurs, Manager.CurLinked, Manager.CurSafe, Manager.SegsMarked, Manager.NatMarked, Inv, SegInv, RingOk, Run, SameContents, SameExcept, Reads, FreeCount, Fresh;
      ghost var w := m.W();
      nid := GetNode();
      if nid == -1 {
        return;
      }
      ghost var w0 := m.W();
      m.CreateNode(nid, Fresh(nid, inode));
      SameThenExcept(w, w0, m.W(), Summary(nid, -1));
    }

    /** Gives an identifier back, cached or not: the node leaves the cache and its block, if any, is
        invalidated. */
    method PutNode(nid: nat)
      requires m.Valid(None) && freeNodes == FreeCount(m.table[..]) && nid < m.table.Length && m.table[nid] != Unused
      requires NodeBlock(m.W(), nid).None? || Bare(NodeBlock(m.W(), nid).value)
      modifies this`freeNodes, m`freeHead, m`freeTail, m`freeNr, m`usedNr, m`queue, m`steps, m`l2p, m.freeNext, m`segDirty, m.segs, m`natDirty, m.table, m.cache
      ensures old(m.steps) <= m.steps
      ensures !old(m.table[nid].At?) && old(m.CurSafe()) ==> m.CurSafe()
      ensures old(m.CurLinked()) ==> m.CurLinked()
      ensures m.Valid(None) && freeNodes == FreeCount(m.table[..])
      ensures SameExcept(old(m.W()), m.W(), Summary(nid, -1)) && Reads(m.W(), Summary(nid, -1)) == None
      ensures m.table[..] == old(m.table[..])[nid := Unused] && m.cache[..] == old(m.cache[..])[nid := -1]
      ensures m.usedNr + (if Summary(nid, -1) in old(m.l2p) then 1 else 0) == old(m.usedNr) && m.l2p == old(m.l2p) - {Summary(nid, -1)}
    {
      hide SafeCurs, Manager.CurLinked, Manager.CurSafe, Manager.SegsMarked, Manager.NatMarked, Inv, SegInv, RingOk, Run, SameExcept, Reads, FreeCount;
      FreeUpdate(m.table[..], nid, Unused);
      m.ReleaseNode(nid);
      freeNodes := freeNodes + 1;
    }

    // ----- From block number to index node -----

    /** Finds the index node of block `k` and brings it into the cache; with `alloc` it is created
        and written when it is missing.  No block of any file changes. */
    method OffsetToIndex(ino: nat, k: nat, alloc: bool) returns (nid: int, r: Outcome)
      requires Valid() && Open(ino) && d.Slot(k) < d.tableSize && (alloc ==> m.CurSafe())
      modifies this, m, m.segs, m.cur, m.freeNext, m.table, m.cache
      ensures m.origin == old(m.origin) && m.natBase == old(m.natBase) && m.segBase == old(m.segBase) && old(m.steps) <= m.steps
      ensures (old(m.CurLinked()) ==> m.CurLinked()) && (old(m.CurSafe()) ==> m.CurSafe())
      ensures Valid() && files == old(files) && lost == old(lost) && Open(ino)
      ensures Wrote(d, old(m.W()), m.W(), files, ino, k, 0, k + 1)
      ensures r.Done? && nid != -1 ==> Loaded(ino, k, nid)
      ensures r.Done? && nid == -1 ==> !alloc
      ensures r.NoSegment? ==> freeNodes == 0 || m.freeNr <= m.reserved
      ensures !alloc ==> r.Done? && nid == IndexOf(old(m.W()), ino, d.Slot(k)) && SameContents(old(m.W()), m.W()) && own == old(own)
      ensures !alloc ==> m.l2p == old(m.l2p) && m.usedNr == old(m.usedNr)
      ensures IndexOf(old(m.W()), ino, d.Slot(k)) != -1 ==> r.Done? && m.Log() == old(m.Log()) && freeNodes == old(freeNodes)
      ensures IndexOf(old(m.W()), ino, d.Slot(k)) == -1 && alloc && old(freeNodes) > 0 && Ample(old(m.Log()), HOT_NODE, m.reserved) ==>
                r.Done? && Calm(m.B, old(m.Log()), HOT_NODE, m.Log()) && m.usedNr == old(m.usedNr) + 1
      ensures alloc && old(freeNodes) > 0 && m.Able(old(m.Log()), HOT_NODE) ==> r.Done?
      ensures r.Done? ==> m.usedNr <= old(m.usedNr) + 1 && (m.freeNr >= old(m.freeNr) || m.freeNr >= m.reserved)
      ensures freeNodes + 1 >= old(freeNodes)
      ensures r.NoSegment? ==> IndexOf(m.W(), ino, d.Slot(k)) != -1 || freeNodes == 0
    {
      hide Calm, Manager.Able, Ample, Manager.Scarce, SafeCurs, Manager.CurLinked, Manager.CurSafe, Manager.SegsMarked, Manager.NatMarked, Inv, SegInv, RingOk, Run, SameContents, Reads, FreeCount, FileOk, IndexOk, BodyOf, IndexOf, FileBlock, Wrote, Quiet;
      var i := d.Slot(k);
      InodeHere(m.B, m.W(), m.l2p, d, files, own, lost, ino);
      var body := m.pages[m.cache[ino]].data.body;
      nid := body.index[i];
      r := Done(Loc(0, 0));
      if nid != -1 {
        IndexHere(m.W(), d, files, own, lost, ino, i);
        FsNode(m.W(), d, files, own, lost, nid);
        LoadNode(nid);
        WroteSame(d, old(m.W()), m.W(), files, ino, k, k + 1);
      } else if alloc {
        nid, r := AllocIndex(ino, k);
      } else {
        SameRefl(m.W());
        WroteSame(d, m.W(), m.W(), files, ino, k, k + 1);
      }
    }

    /** Writes a cached node. */
    method FlushNode(nid: nat) returns (r: Outcome)
      requires Valid() && nid < m.cache.Length && m.cache[nid] >= 0 && m.CurSafe()
      modifies m, m.segs, m.cur, m.freeNext, m.table, m.cache
      ensures m.origin == old(m.origin) && m.natBase == old(m.natBase) && m.segBase == old(m.segBase) && old(m.steps) <= m.steps
      ensures (old(m.CurLinked()) ==> m.CurLinked()) && (old(m.CurSafe()) ==> m.CurSafe())
      ensures !r.Done? && !old(m.table[nid].At?) ==> !m.table[nid].At?
      ensures Valid() && SameContents(old(m.W()), m.W())
      ensures forall n :: 0 <= n < m.cache.Length && old(m.cache[n]) >= 0 ==> m.cache[n] == old(m.cache[n])
      ensures forall f, i :: IndexOf(m.W(), f, i) == IndexOf(old(m.W()), f, i)
      ensures r.NoSegment? ==> m.freeNr <= m.reserved
      ensures old(m.freeNr) > m.reserved ==> r.Done?
      ensures m.Able(old(m.Log()), HOT_NODE) ==> r.Done?
      ensures r.Done? ==> m.freeNr >= old(m.freeNr) || m.freeNr >= m.reserved
      ensures Ample(old(m.Log()), HOT_NODE, m.reserved) ==> r.Done? && Calm(m.B, old(m.Log()), HOT_NODE, m.Log())
      ensures r.Done? ==> m.usedNr + (if old(m.table[nid].At?) then 1 else 0) == old(m.usedNr) + 1
    {
      hide Calm, Manager.Able, Swept, Ample, Manager.Scarce, SafeCurs, Manager.CurLinked, Manager.CurSafe, Manager.SegsMarked, Manager.NatMarked, Inv, SegInv, RingOk, Run, SameContents, Reads, FreeCount, FileOk, IndexOk, BodyOf, IndexOf, CacheStays;
      ghost var w := m.W();
      r := m.WriteNode(nid, false);
      UseStays(d, w, m.W(), files, own, lost);
      SameNodes(w, m.W());
      FsStays(d, w, m.W(), files, own, lost);
      UseFree(w, m.W());
      forall n | 0 <= n < m.cache.Length && old(m.cache[n]) >= 0 ensures m.cache[n] == old(m.cache[n]) {
        CacheKeeps(w, m.W(), n);
      }
    }

    /** Creates the index node for block `k`, enters it in the inode and writes it.  When it cannot be
        written it stays as a node in use without a block. */
    method AllocIndex(ino: nat, k: nat) returns (nid: int, r: Outcome)
      requires Valid() && Open(ino) && d.Slot(k) < d.tableSize && IndexOf(m.W(), ino, d.Slot(k)) == -1 && m.CurSafe()
      modifies this, m, m.segs, m.cur, m.freeNext, m.table, m.cache
      ensures m.origin == old(m.origin) && m.natBase == old(m.natBase) && m.segBase == old(m.segBase) && old(m.steps) <= m.steps
      ensures (old(m.CurLinked()) ==> m.CurLinked()) && (old(m.CurSafe()) ==> m.CurSafe())
      ensures Valid() && files == old(files) && lost == old(lost) && Open(ino)
      ensures Wrote(d, old(m.W()), m.W(), files, ino, k, 0, k + 1)
      ensures r.Done? ==> nid != -1 && Loaded(ino, k, nid)
      ensures r.NoSegment? ==> freeNodes == 0 || m.freeNr <= m.reserved
      ensures old(freeNodes) > 0 && Ample(old(m.Log()), HOT_NODE, m.reserved) ==>
                r.Done? && Calm(m.B, old(m.Log()), HOT_NODE, m.Log()) && m.usedNr == old(m.usedNr) + 1
      ensures old(freeNodes) > 0 && m.Able(old(m.Log()), HOT_NODE) ==> r.Done?
      ensures r.Done? ==> m.usedNr == old(m.usedNr) + 1 && (m.freeNr >= old(m.freeNr) || m.freeNr >= m.reserved)
      ensures freeNodes + 1 >= old(freeNodes)
      ensures r.NoSegment? ==> IndexOf(m.W(), ino, d.Slot(k)) != -1 || freeNodes == 0
    {
      hide Manager.Traced, Manager.PagesOk, Manager.Ring, Manager.Able, Calm, Ample, Manager.Scarce, SafeCurs, Manager.CurLinked, Manager.CurSafe, Manager.SegsMarked, Manager.NatMarked, Inv, SegInv, RingOk, Run, SameContents, SameExcept, Reads, FreeCount, FileOk, IndexOk, BodyOf, IndexOf, FileBlock, Wrote, CacheStays;
      ghost var w := m.W();
      m.FreeIsQueue();
      nid := NewIndex(ino, k);
      m.FreeIsQueue();
      if nid == -1 {
        WroteSame(d, w, m.W(), files, ino, k, k + 1);
        return nid, NoSegment;
      }
      ghost var w1 := m.W();
      r := FlushNode(nid);
      WroteSame(d, w1, m.W(), files, ino, k, k + 1);
      WroteTrans(d, w, w1, m.W(), files, ino, k, 0, 0, k + 1, k + 1);
    }

    /** Creates the index node for block `k` in the cache and enters it in the inode. */
    method NewIndex(ino: nat, k: nat) returns (nid: int)
      requires Valid() && Open(ino) && d.Slot(k) < d.tableSize && IndexOf(m.W(), ino, d.Slot(k)) == -1
      modifies this, m, m.table, m.cache
      ensures m.origin == old(m.origin) && m.natBase == old(m.natBase) && m.segBase == old(m.segBase) && old(m.steps) <= m.steps
      ensures (old(m.CurLinked()) ==> m.CurLinked()) && (old(m.CurSafe()) ==> m.CurSafe())
      ensures Valid() && files == old(files) && lost == old(lost) && Open(ino)
      ensures nid == -1 ==> SameContents(old(m.W()), m.W()) && freeNodes == old(freeNodes) == 0
      ensures nid != -1 ==> Wrote(d, old(m.W()), m.W(), files, ino, k, 0, k + 1) && Loaded(ino, k, nid)
      ensures nid != -1 ==> freeNodes == old(freeNodes) - 1 && nid < m.table.Length && m.table[nid] == InUse && IndexOf(m.W(), ino, d.Slot(k)) == nid
      ensures m.Log() == old(m.Log())
    {
      hide SafeCurs, Manager.CurLinked, Manager.CurSafe, Manager.SegsMarked, Manager.NatMarked, Inv, SegInv, RingOk, Run, SameContents, SameExcept, Reads, FreeCount, FileOk, IndexOk, BodyOf, IndexOf, FileBlock, Wrote;
      ghost var w := m.W();
      var i := d.Slot(k);
      AllBodies(d, w, files, own, lost);
      InodeHere(m.B, w, m.l2p, d, files, own, lost, ino);
      var body := m.pages[m.cache[ino]].data.body;
      nid := NewNode(false);
      if nid == -1 {
        return;
      }
      ghost var w1 := m.W();
      ghost var b := Fresh(nid, false);
      m.SetInode(ino, body.(index := body.index[i := nid]));
      NoBlocksBelow(w1, nid, b);
      IndexAdded(d, w, w1, m.W(), files, own, lost, ino, i, nid, body, b);
      own := own[nid := (ino, i)];
      WroteIndex(d, w, m.W(), files, ino, k, nid, body);
    }

    /** Brings a node into the cache. */
    method LoadNode(nid: nat)
      requires Valid() && nid < m.table.Length && Reads(m.W(), Summary(nid, -1)).Some?
      modifies m`pages, m`nextPage, m.cache
      ensures Valid() && SameContents(old(m.W()), m.W()) && m.cache[nid] >= 0
      ensures forall n :: 0 <= n < m.cache.Length && old(m.cache[n]) >= 0 ==> m.cache[n] == old(m.cache[n])
    {
      hide SafeCurs, Manager.CurLinked, Manager.CurSafe, Manager.SegsMarked, Manager.NatMarked, Inv, SegInv, RingOk, Run, SameContents, Reads, FreeCount, FileOk, BodyOf, IndexOf, NodeBlock, Fwd;
      ghost var w := m.W();
      ReadsNode(w, nid);
      var pid := m.ReadNode(nid);
      QuietSame(w, m.W());
      UseStays(d, w, m.W(), files, own, lost);
      SameNodes(w, m.W());
      FsStays(d, w, m.W(), files, own, lost);
      UseFree(w, m.W());
    }

    // ----- Writing -----

    /** Writes block `k` through its index node. */
    method WriteBlock(ino: nat, nid: int, k: nat, force: bool) returns (r: Outcome)
      requires Valid() && Open(ino) && Loaded(ino, k, nid) && m.CurSafe()
      modifies m, m.segs, m.cur, m.freeNext, m.table, m.cache
      ensures m.origin == old(m.origin) && m.natBase == old(m.natBase) && m.segBase == old(m.segBase) && old(m.steps) <= m.steps
      ensures (old(m.CurLinked()) ==> m.CurLinked()) && (old(m.CurSafe()) ==> m.CurSafe())
      ensures Valid() && Open(ino) && Loaded(ino, k, nid)
      ensures Wrote(d, old(m.W()), m.W(), files, ino, k, if r.Done? then 1 else 0, k)
      ensures r.NoSegment? ==> m.freeNr <= m.reserved && Swept(m.B, old(m.Log()), m.Log(), m.poolSize - 1, m.gcHi, Summary(nid, d.Off(k)))
      ensures m.Able(old(m.Log()), HOT_DATA) ==> r.Done?
      ensures r.Done? ==> m.usedNr <= old(m.usedNr) + 1 && (force || m.freeNr >= old(m.freeNr) || m.freeNr >= m.reserved)
      ensures Ample(old(m.Log()), HOT_DATA, m.reserved) ==> r.Done? && Calm(m.B, old(m.Log()), HOT_DATA, m.Log())
      ensures !force && m.Scarce(old(m.Log()), HOT_DATA) ==> r.NoSegment?
    {
      hide Calm, Manager.Able, Swept, Ample, Manager.Scarce, SafeCurs, Manager.CurLinked, Manager.CurSafe, Manager.SegsMarked, Manager.NatMarked, Inv, SegInv, RingOk, Run, SameContents, SameExcept, Reads, FreeCount, FileOk, IndexOk, BodyOf, IndexOf, FileBlock, Wrote, CacheStays;
      ghost var w := m.W();
      CachedIndex(m.B, w, m.l2p, d, files, own, lost, nid);
      SlotOff(d, k, k);
      r := m.WriteData(nid, d.Off(k), Tag(ino, k), force);
      UseStays(d, w, m.W(), files, own, lost);
      UseFree(w, m.W());
      CacheKeeps(w, m.W(), ino);
      CacheKeeps(w, m.W(), nid);
      if r.Done? {
        WroteBlock(d, w, m.W(), files, own, lost, ino, nid, k);
      } else {
        SameNodes(w, m.W());
        FsStays(d, w, m.W(), files, own, lost);
        WroteSame(d, w, m.W(), files, ino, k, k);
      }
    }

    /** The guard before a write, in the 16-bit arithmetic of block numbers: below the reserve it
        wraps and lets the write go on. */
    predicate RoomFor(blocks: nat, force: bool)
      requires d.Ok()
      reads m
    {
      var room := m.segs.Length * m.B - m.usedNr - (m.reserved + if force then 0 else opSegs) * m.B;
      blocks + (blocks + d.indexSize - 1) / d.indexSize <= room % 0x1_0000
    }

    /** The guard compares the blocks and the index nodes they need, `c` at least, with the unused blocks
        above the reserve, modulo 2 to the 16. */
    lemma RoomExact(blocks: nat, force: bool, c: nat, r: int, q: int)
      requires d.Ok() && Fill(d.(blockSize := d.indexSize), blocks, c)
      requires r == m.segs.Length * m.B - m.usedNr - (m.reserved + if force then 0 else opSegs) * m.B + 0x1_0000 * q && 0 <= r < 0x1_0000
      ensures RoomFor(blocks, force) <==> blocks + c <= r
    {
      hide Fill;
      var room := m.segs.Length * m.B - m.usedNr - (m.reserved + if force then 0 else opSegs) * m.B;
      Modulo16(room, r, q);
      BlocksFill(d.(blockSize := d.indexSize), blocks);
      FillOnce(d.(blockSize := d.indexSize), blocks, c, d.(blockSize := d.indexSize).Blocks(blocks));
    }

    /** Block `k` has no index node; one still fits into the current segment of the nodes, and the block
        below it will get no segment. */
    ghost predicate Starved(ino: nat, k: nat)
      requires d.Ok()
      reads this`freeNodes, m, m.segs, m.cur, m.table, m.cache
    {
      && freeNodes > 0 && IndexOf(m.W(), ino, d.Slot(k)) == -1 && m.cur.Length == TEMP_NR && m.cur[HOT_NODE].segNo != -1 && m.cur[HOT_DATA].segNo == -1 && 3 <= m.freeNr
      && m.B * m.segs.Length - (m.usedNr + 1) < m.B * (m.reserved + 1)
    }

    /** After the index node was written no segment is left for the block. */
    lemma NextScarce(w: World, w1: World)
      requires HOT_NODE < |w.st.cur| && HOT_DATA < |w.st.cur|
      ensures w.st.cur[HOT_NODE].segNo != -1 && w.st.cur[HOT_DATA].segNo == -1 && 3 <= |w.st.queue|
              && m.B * |w.st.segs| - (w.st.used + 1) < m.B * (m.reserved + 1)
              && Calm(m.B, w.st, HOT_NODE, w1.st) && w1.st.used == w.st.used + 1 && |w1.st.segs| == |w.st.segs| ==>
                m.Scarce(w1.st, HOT_DATA)
    {
    }

    /** Writes block `k`, looking up its index node first unless it is at hand. */
    method WriteOne(ino: nat, k: nat, loaded: bool, nid0: int, force: bool) returns (nid: int, r: Outcome)
      requires Valid() && Open(ino) && k < d.tableSize * d.indexSize && m.CurSafe() && (loaded ==> Loaded(ino, k, nid0))
      modifies this, m, m.segs, m.cur, m.freeNext, m.table, m.cache
      ensures m.origin == old(m.origin) && m.natBase == old(m.natBase) && m.segBase == old(m.segBase) && old(m.steps) <= m.steps
      ensures (old(m.CurLinked()) ==> m.CurLinked()) && (old(m.CurSafe()) ==> m.CurSafe())
      ensures Valid() && files == old(files) && lost == old(lost) && Open(ino)
      ensures Wrote(d, old(m.W()), m.W(), files, ino, k, if r.Done? then 1 else 0, k + 1)
      ensures r.Done? ==> Loaded(ino, k, nid)
      ensures r.NoSegment? ==> freeNodes == 0 || m.freeNr <= m.reserved
      ensures r.NoSegment? ==> IndexOf(m.W(), ino, d.Slot(k)) != -1 || freeNodes == 0
      ensures old(freeNodes) > 0 && old(m.freeNr) > m.reserved + 1 ==> r.Done? && m.freeNr + 2 >= old(m.freeNr)
      ensures !force && old(freeNodes) > 0 && old(Spare(2)) ==> r.Done? && 2 <= m.freeNr && m.usedNr <= old(m.usedNr) + 2
      ensures freeNodes + 1 >= old(freeNodes)
      ensures !loaded && !force && old(Starved(ino, k)) ==> r.NoSegment?
    {
      hide Calm, Manager.Able, Swept, Manager.Scarce, SafeCurs, Manager.CurLinked, Manager.CurSafe, Manager.SegsMarked, Manager.NatMarked, Inv, SegInv, RingOk, Run, SameContents, SameExcept, Reads, FreeCount, FileOk, IndexOk, FsOk, BodyOf, IndexOf, FileBlock, Wrote;
      ghost var w := m.W();
      OkHere(d, w, files, own, lost);
      m.FreeIsQueue();
      nid, r := nid0, Done(Loc(0, 0));
      if Spare(2) {
        SpareAble(HOT_NODE);
      }
      if loaded {
        SameRefl(w);
        WroteSame(d, w, w, files, ino, k, k + 1);
      } else {
        SlotFits(d, k);
        nid, r := OffsetToIndex(ino, k, true);
        m.FreeIsQueue();
        if !r.Done? {
          return;
        }
      }
      ghost var w1 := m.W();
      if Spare(1) {
        SpareAble(HOT_DATA);
      }
      NextScarce(w, w1);
      CalmLeft(m.B, w.st, HOT_NODE, w1.st);
      r := WriteBlock(ino, nid, k, force);
      m.FreeIsQueue();
      CalmLeft(m.B, w1.st, HOT_DATA, m.Log());
      LoadedSlot(ino, k, nid);
      WroteMore(d, w1, m.W(), files, ino, k, if r.Done? then 1 else 0, k);
      WroteTrans(d, w, w1, m.W(), files, ino, k, 0, if r.Done? then 1 else 0, k + 1, k + 1);
    }

    /** Writes blocks `start` to `end` one by one, looking up the index node at its first block, and
        stops at the first that cannot be written. */
    method WriteBlocks(ino: nat, start: nat, end: nat, force: bool) returns (n: nat, r: Outcome)
      requires Valid() && Open(ino) && start <= end <= d.tableSize * d.indexSize && m.CurSafe()
      modifies this, m, m.segs, m.cur, m.freeNext, m.table, m.cache
      ensures m.origin == old(m.origin) && m.natBase == old(m.natBase) && m.segBase == old(m.segBase) && old(m.steps) <= m.steps
      ensures (old(m.CurLinked()) ==> m.CurLinked()) && (old(m.CurSafe()) ==> m.CurSafe())
      ensures Valid() && files == old(files) && lost == old(lost) && Open(ino)
      ensures start + n <= end && (!r.Done? ==> start + n < end) && (r.Done? <==> start + n == end && old(RoomFor(end - start, force)))
      ensures Wrote(d, old(m.W()), m.W(), files, ino, start, n, if r.Done? then end else start + n + 1)
      ensures r.NoSegment? ==> (n == 0 && !old(RoomFor(end - start, force))) || freeNodes == 0 || m.freeNr <= m.reserved
      ensures old(RoomFor(end - start, force)) && old(freeNodes) >= end - start && old(m.freeNr) > m.reserved + 2 * (end - start) ==> r.Done?
      ensures r.NoSegment? && old(RoomFor(end - start, force)) ==> IndexOf(m.W(), ino, d.Slot(start + n)) != -1 || freeNodes == 0
      ensures start < end && !force && old(RoomFor(end - start, force)) && old(Starved(ino, start)) ==> r.NoSegment? && n == 0
      ensures !force && old(RoomFor(end - start, force)) && old(freeNodes) >= end - start && old(Spare(2 * (end - start))) ==> r.Done?
      ensures freeNodes + (end - start) >= old(freeNodes)
    {
      hide Calm, Manager.Scarce, SafeCurs, Manager.CurLinked, Manager.CurSafe, Manager.SegsMarked, Manager.NatMarked, Inv, SegInv, RingOk, Run, SameContents, SameExcept, Reads, FreeCount, FileOk, IndexOk, FsOk, BodyOf, IndexOf, FileBlock, Wrote;
      ghost var w := m.W();
      SameRefl(w);
      OkHere(d, w, files, own, lost);
      if !RoomFor(end - start, force) {
        DivExact(0, d.indexSize - 1, d.indexSize);
        WroteSame(d, w, w, files, ino, start, start + 1);
        return 0, NoSegment;
      }
      WroteSame(d, w, w, files, ino, start, start);
      ghost var ample := freeNodes >= end - start && m.freeNr > m.reserved + 2 * (end - start);
      ghost var spare := !force && freeNodes >= end - start && Spare(2 * (end - start));
      ghost var starved := !force && Starved(ino, start);
      hide FileSystem.Starved;
      var k, loaded, nid, off := start, false, -1, 0;
      while k < end
        invariant m.origin == old(m.origin) && m.natBase == old(m.natBase) && m.segBase == old(m.segBase) && old(m.steps) <= m.steps
        invariant (old(m.CurLinked()) ==> m.CurLinked()) && (old(m.CurSafe()) ==> m.CurSafe())
        invariant start <= k <= end && Valid() && files == old(files) && lost == old(lost) && Open(ino)
        invariant Wrote(d, w, m.W(), files, ino, start, k - start, k)
        invariant loaded ==> Loaded(ino, k, nid) && off == d.Off(k)
        invariant freeNodes + (k - start) >= old(freeNodes)
        invariant ample ==> freeNodes >= end - k && m.freeNr > m.reserved + 2 * (end - k)
        invariant spare ==> freeNodes >= end - k && Spare(2 * (end - k))
        invariant starved ==> k == start && !loaded && Starved(ino, start)
      {
        ghost var w1 := m.W();
        nid, r := WriteOne(ino, k, loaded, nid, force);
        WroteTrans(d, w, w1, m.W(), files, ino, start, k - start, if r.Done? then 1 else 0, k, k + 1);
        if !r.Done? {
          return k - start, r;
        }
        if !loaded {
          loaded, off := true, d.Off(k);
        }
        NextSlot(d, k);
        off := off + 1;
        if off >= d.indexSize {
          loaded := false;
        }
        k := k + 1;
      }
      return k - start, Done(Loc(0, 0));
    }

    /** The checks before a write let it go on. */
    predicate Admitted(offset: nat, len: nat)
      requires d.Ok()
      reads m
    {
      d.Blocks(offset + len) <= maxFile && RoomFor(Span(d, offset, len), false)
    }

    /** A write is let go on when its end lies within `maxFile` blocks and its `n` blocks, with `c` index
        nodes, fit what is unused above the reserve, modulo 2 to the 16. */
    lemma AdmittedExact(offset: nat, len: nat, n: nat, c: nat, r: int, q: int)
      requires d.Ok() && Fill(d, offset + len, offset / d.blockSize + n) && Fill(d.(blockSize := d.indexSize), n, c)
      requires r == m.segs.Length * m.B - m.usedNr - (m.reserved + opSegs) * m.B + 0x1_0000 * q && 0 <= r < 0x1_0000
      ensures Admitted(offset, len) <==> offset + len <= d.Bytes(maxFile) && n + c <= r
    {
      hide Fill, FileSystem.RoomFor, Sizes.Blocks, Sizes.Bytes;
      BlocksFill(d, offset + len);
      FillOnce(d, offset + len, offset / d.blockSize + n, d.Blocks(offset + len));
      RoomExact(n, false, c, r, q);
      FillUpTo(d, offset + len, d.Blocks(offset + len), maxFile);
    }

    ghost predicate StarvedAt(ino: nat, offset: nat, len: nat)
      requires d.Ok()
      reads this`freeNodes, m, m.segs, m.cur, m.table, m.cache
    {
      0 < Span(d, offset, len) && Starved(ino, offset / d.blockSize)
    }

    /** With a pool for all segments, `n` blocks more leave enough unused ones to reclaim the reserve. */
    ghost predicate Spare(n: nat)
      reads m
    {
      && 0 < m.B && m.segs.Length < m.poolSize && 2 <= m.reserved < m.gcHi && 2 <= m.freeNr
      && m.B * m.segs.Length - m.usedNr - n >= m.B * (m.reserved + 2 + 2 * TEMP_NR)
    }

    lemma SpareAble(t: nat)
      requires Valid() && Spare(0) && t < TEMP_NR
      ensures m.Able(m.Log(), t)
    {
      hide FsOk, Run, Manager.SegsMarked, Manager.NatMarked, SegInv, RingOk, Linked, NodesOk, Viewed, Roomy, Reclaims;
      m.FreeIsQueue();
      SpareReclaims(m.B, m.Log(), m.poolSize - 1, m.reserved);
    }

    /** There are identifiers and free segments for every block and for an index node with each. */
    ghost predicate Roomy(offset: nat, len: nat)
      requires d.Ok()
      reads this`freeNodes, m
    {
      freeNodes >= Span(d, offset, len) && m.freeNr > m.reserved + 2 * Span(d, offset, len)
    }

    /** Records that `n` blocks were written: the size grows to their end. */
    method GrowFile(ino: nat, offset: nat, len: nat, n: nat) returns (bytes: nat)
      requires Valid() && Open(ino) && 0 < n && offset / d.blockSize + n <= d.Blocks(offset + len) <= maxFile
      modifies m`pages
      ensures Valid() && Open(ino)
      ensures Resized(d, old(m.W()), m.W(), ino) && SizeOf(m.W(), ino) == NewSize(d, SizeOf(old(m.W()), ino), offset, len, n)
      ensures bytes + offset == EndPos(d, offset, len, n)
    {
      hide SafeCurs, Manager.CurLinked, Manager.CurSafe, Manager.SegsMarked, Manager.NatMarked, Inv, SegInv, RingOk, Run, SameExcept, Reads, FreeCount, FileOk, IndexOk, BodyOf, IndexOf, FileBlock, Sizes.Blocks;
      ghost var w := m.W();
      InodeHere(m.B, w, m.l2p, d, files, own, lost, ino);
      var body := m.pages[m.cache[ino]].data.body;
      var start, end := offset / d.blockSize, d.Blocks(offset + len);
      var pos := offset + len;
      if start + n < end {
        pos := (start + n) * d.blockSize;
      }
      var size := body.size;
      if pos > size {
        size := pos;
      }
      EndAbove(d, offset, len, n);
      NewBlocks(d, body.size, offset, len, n);
      m.SetInode(ino, body.(size := size));
      BodySet(d, w, m.W(), files, own, lost, ino, body, size);
      IndexesStay(w, m.W(), ino, body, size);
      return pos - offset;
    }

    /** Writes `len` bytes at `offset`.  Exactly the blocks written change, in this file only, and the
        size grows to the end of what was written; an error of the segment manager comes out before
        the size is touched.  Files that have their tags keep them when the write starts at or
        below the size, and a write that is cut short says why. */
    method FileWrite(ino: nat, offset: nat, len: nat) returns (bytes: nat, r: Outcome, ghost n: nat)
      requires Valid() && Open(ino) && m.CurSafe()
      modifies this, m, m.segs, m.cur, m.freeNext, m.table, m.cache
      ensures m.origin == old(m.origin) && m.natBase == old(m.natBase) && m.segBase == old(m.segBase) && old(m.steps) <= m.steps
      ensures (old(m.CurLinked()) ==> m.CurLinked()) && (old(m.CurSafe()) ==> m.CurSafe())
      ensures Valid() && files == old(files) && lost == old(lost) && Open(ino)
      ensures FileWrote(d, old(m.W()), m.W(), files, ino, offset, len, n, r.Thrown?)
      ensures Extent(d, SizeOf(old(m.W()), ino), SizeOf(m.W(), ino), offset, len, n, bytes, r.Done?, r.Thrown?, maxFile)
      ensures r.NoSegment? ==> (n == 0 && !old(Admitted(offset, len))) || freeNodes == 0 || m.freeNr <= m.reserved
      ensures !r.Thrown? && offset <= SizeOf(old(m.W()), ino) ==> TagsKept(d, old(m.W()), m.W(), files)
      ensures r.Done? && offset <= SizeOf(old(m.W()), ino) ==> NoneIdle(d, old(m.W()), m.W(), files)
      ensures old(Admitted(offset, len) && Roomy(offset, len)) ==> r.Done?
      ensures old(Admitted(offset, len) && freeNodes >= Span(d, offset, len) && Spare(2 * Span(d, offset, len))) ==> r.Done?
      ensures r.NoSegment? && old(Admitted(offset, len)) && freeNodes > 0 ==>
                StopsIdle(d, old(m.W()), m.W(), ino, offset, n)
      ensures old(Admitted(offset, len) && StarvedAt(ino, offset, len)) ==> r.NoSegment? && n == 0
      ensures freeNodes + Span(d, offset, len) >= old(freeNodes)
    {
      hide FileSystem.Spare, FileSystem.Starved, FileSystem.RoomFor, NoIdle, SafeCurs, Manager.CurLinked, Manager.CurSafe, Manager.SegsMarked, Manager.NatMarked, Inv, SegInv, RingOk, Run, SameContents, SameExcept, Reads, FreeCount, FileOk, IndexOk, FsOk, BodyOf, IndexOf, FileBlock,
           TagsKept, NoneIdle, NodesWrote, BlocksWrote, SizeOf, Below, Resized, NewSize, EndPos, Sizes.Blocks, Sizes.Bytes;
      ghost var w := m.W();
      OkHere(d, w, files, own, lost);
      n := 0;
      var start, end := offset / d.blockSize, d.Blocks(offset + len);
      StartBelow(d, offset, len);
      BlocksFill(d, offset + len);
      assert offset + len > d.Bytes(maxFile) <==> end > maxFile;
      if end > maxFile {
        SameRefl(w);
        WroteSame(d, w, w, files, ino, start, start);
        WroteNodes(d, w, w, files, ino, start, 0, start, end);
        NewSizeNone(d, SizeOf(w, ino), offset, len);
        TagsKeptRefl(d, w, files);
        return 0, NoSegment, 0;
      }
      var written;
      written, r := WriteBlocks(ino, start, end, false);
      n := written;
      WroteNodes(d, w, m.W(), files, ino, start, n, if r.Done? then end else start + n + 1, end);
      if r.Thrown? {
        return 0, r, n;
      }
      ghost var w1 := m.W();
      if written > 0 {
        bytes := GrowFile(ino, offset, len, written);
        WroteThenSized(d, w, w1, m.W(), files, ino, start, n, if r.Done? then end else start + n + 1);
        NodesWroteMore(d, w, m.W(), files, ino, start, if r.Done? then end else start + n + 1, end);
      } else {
        bytes := 0;
      }
      NewSizeNone(d, SizeOf(w, ino), offset, len);
      NewSizeMore(d, SizeOf(w, ino), offset, len, n);
      EndExact(d, SizeOf(w, ino), offset, len, n);
      ShortEnd(d, offset, len, n);
      if r.NoSegment? && NoIdle(d, w, ino) && IndexOf(m.W(), ino, d.Slot(start + n)) != -1 {
        ShortIdle(d, w, m.W(), files, ino, start, start + n);
        assert StopsIdle(d, w, m.W(), ino, offset, n);
      }
      if offset <= SizeOf(w, ino) {
        WriteKeepsFiles(d, w, m.W(), files, ino, offset, len, n, if r.Done? then end else start + n + 1);
      }
    }

    // ----- Reading -----

    /** Reads one block through a cached index node. */
    method ReadBlock(ino: nat, nid: int, k: nat) returns (tag: Option<Tag>)
      requires Valid() && Open(ino) && Loaded(ino, k, nid)
      ensures tag == TagOf(FileBlock(d, m.W(), ino, k))
    {
      hide SafeCurs, Manager.CurLinked, Manager.CurSafe, Manager.SegsMarked, Manager.NatMarked, Inv, SegInv, RingOk, Run, Reads, FreeCount, FileOk, IndexOk, FsOk, BodyOf, IndexOf;
      CachedIndex(m.B, m.W(), m.l2p, d, files, own, lost, nid);
      SlotOff(d, k, k);
      var ptr := m.pages[m.cache[nid]].data.ptrs[d.Off(k)];
      if ptr.Some? {
        tag := Some(m.disk[ptr.value].tag);
      } else {
        tag := None;
      }
    }

    /** Reads blocks `start` to `end`: from the first missing index node on, all the rest is empty. */
    method ReadBlocks(ino: nat, start: nat, end: nat) returns (blks: seq<Option<Tag>>)
      requires Valid() && Open(ino) && start <= end <= d.tableSize * d.indexSize
      modifies this, m, m.segs, m.cur, m.freeNext, m.table, m.cache
      ensures m.origin == old(m.origin) && m.natBase == old(m.natBase) && m.segBase == old(m.segBase) && old(m.steps) <= m.steps
      ensures (old(m.CurLinked()) ==> m.CurLinked()) && (old(m.CurSafe()) ==> m.CurSafe())
      ensures Valid() && files == old(files) && lost == old(lost) && own == old(own) && Open(ino) && SameContents(old(m.W()), m.W())
      ensures |blks| == end - start && forall i :: 0 <= i < |blks| ==> blks[i] == ReadAt(d, old(m.W()), ino, start, start + i)
    {
      hide SafeCurs, Manager.CurLinked, Manager.CurSafe, Manager.SegsMarked, Manager.NatMarked, Inv, SegInv, RingOk, Run, SameContents, SameExcept, Reads, FreeCount, FileOk, IndexOk, FsOk, BodyOf, IndexOf, FileBlock, Wrote, HoleIn, NoHole, ReadAt, ReadSoFar, TagOf,
           Manager.Able, Manager.Scarce, Ample, Calm, Swept, Manager.Ring, Manager.Traced, Manager.PagesOk, FileSystem.Spare, FileSystem.Starved;
      ghost var w := m.W();
      OkHere(d, w, files, own, lost);
      SameRefl(w);
      blks := seq(end - start, _ => None);
      ReadDone(d, w, ino, start, blks);
      var k, loaded, nid, off := start, false, -1, 0;
      ghost var hole: nat := start;
      while k < end
        invariant m.origin == old(m.origin) && m.natBase == old(m.natBase) && m.segBase == old(m.segBase) && old(m.steps) <= m.steps
        invariant (old(m.CurLinked()) ==> m.CurLinked()) && (old(m.CurSafe()) ==> m.CurSafe())
        invariant start <= k <= end && Valid() && files == old(files) && lost == old(lost) && own == old(own) && Open(ino)
        invariant SameContents(w, m.W()) && |blks| == end - start
        invariant ReadSoFar(d, w, ino, start, k, blks)
        invariant loaded && nid == -1 ==> start <= hole < k && IndexOf(w, ino, d.Slot(hole)) == -1
        invariant loaded && nid != -1 ==> Loaded(ino, k, nid) && off == d.Off(k)
        invariant !loaded || nid != -1 ==> NoHole(d, w, ino, start, k)
      {
        ghost var w1 := m.W();
        if !loaded {
          SlotFits(d, k);
          ghost var r;
          nid, r := OffsetToIndex(ino, k, false);
          SameTrans(w, w1, m.W());
          BlocksStay(d, w, w1);
          loaded, off, hole := true, d.Off(k), if nid == -1 then k else hole;
        }
        if nid == -1 {
          HoleBlocks(d, w, ino, start, hole, k);
          ReadNext(d, w, ino, start, k, blks);
          k := k + 1;
          continue;
        }
        var tag := ReadBlock(ino, nid, k);
        LoadedSlot(ino, k, nid);
        BlocksStay(d, w, m.W());
        NoHoleNext(d, w, ino, start, k);
        ReadNext(d, w, ino, start, k, blks);
        blks := blks[k - start := tag];
        NextSlot(d, k);
        off := off + 1;
        if off >= d.indexSize {
          loaded := false;
        }
        k := k + 1;
      }
      ReadDone(d, w, ino, start, blks);
    }

    lemma LoadedSlot(ino: nat, k: nat, nid: int)
      requires Valid() && Open(ino) && Loaded(ino, k, nid)
      ensures IndexOf(m.W(), ino, d.Slot(k)) == nid
    {
      hide SafeCurs, Manager.CurLinked, Manager.CurSafe, Manager.SegsMarked, Manager.NatMarked, Inv, RingOk, Run, FreeCount;
      assert IndexOk(d, m.W(), files, own, nid);
    }

    /** Reads `len` bytes at `offset`, cut at the size of the file.  A file with its tags is read back
        exactly, whatever was written to other files and collected in between. */
    method FileRead(ino: nat, offset: nat, len: nat) returns (blks: seq<Option<Tag>>)
      requires Valid() && Open(ino) && offset <= SizeOf(m.W(), ino)
      modifies this, m, m.segs, m.cur, m.freeNext, m.table, m.cache
      ensures m.origin == old(m.origin) && m.natBase == old(m.natBase) && m.segBase == old(m.segBase) && old(m.steps) <= m.steps
      ensures (old(m.CurLinked()) ==> m.CurLinked()) && (old(m.CurSafe()) ==> m.CurSafe())
      ensures Valid() && files == old(files) && lost == old(lost) && own == old(own) && Open(ino) && SameContents(old(m.W()), m.W())
      ensures ReadsBack(d, old(m.W()), ino, offset, len, blks)
      ensures Fill(d, Smaller(offset + len, SizeOf(old(m.W()), ino)), offset / d.blockSize + |blks|)
      ensures Tagged(d, old(m.W()), ino) ==> AllTags(d, ino, offset, blks)
    {
      hide Fill, SafeCurs, Manager.CurLinked, Manager.CurSafe, Manager.SegsMarked, Manager.NatMarked, Inv, SegInv, RingOk, Run, SameContents, Reads, FreeCount, FileOk, IndexOk, BodyOf, IndexOf, FileBlock, HoleIn, ReadAt, Tagged, AllTags, SizeOf, Sizes.Blocks;
      ghost var w := m.W();
      InodeHere(m.B, w, m.l2p, d, files, own, lost, ino);
      var size := m.pages[m.cache[ino]].data.body.size;
      var end := offset + len;
      if end > size {
        end := size;
      }
      StartBelow(d, offset, end - offset);
      BlocksMono(d, end, size);
      BlocksFill(d, end);
      blks := ReadBlocks(ino, offset / d.blockSize, d.Blocks(end));
      if Tagged(d, w, ino) {
        TaggedReadsBack(d, w, ino, offset, len, blks);
      }
    }

    // ----- Creating and removing -----

    /** A new empty file in the cache. */
    method NewInode() returns (nid: int)
      requires Valid()
      modifies this`nextScan, this`freeNodes, this`files, m`pages, m`nextPage, m`natDirty, m.table, m.cache
      ensures Valid()
      ensures nid == -1 ==> files == old(files) && freeNodes == old(freeNodes) == 0 && SameFiles(d, old(m.W()), m.W(), files)
      ensures nid != -1 ==> freeNodes == old(freeNodes) - 1
      ensures nid != -1 ==> 0 <= nid < m.table.Length && m.table[nid] == InUse
      ensures nid != -1 ==> 0 <= nid && nid !in old(files) && files == old(files) + {nid} && Open(nid)
      ensures nid != -1 ==> FileAdd(d, old(m.W()), m.W(), old(files), nid) && forall n :: n in own ==> own[n].0 != nid
    {
      hide SafeCurs, Manager.CurLinked, Manager.CurSafe, Manager.SegsMarked, Manager.NatMarked, Inv, SegInv, RingOk, Run, SameContents, SameExcept, Reads, FreeCount, FileOk, IndexOk, BodyOf, IndexOf, FileBlock;
      ghost var w := m.W();
      AllBodies(d, w, files, own, lost);
      SameFilesRefl(d, w, files);
      nid := NewNode(true);
      if nid == -1 {
        assert m.W() == w;
        return;
      }
      OwnersElse(d, w, files, own, lost, nid);
      FileAdded(d, w, m.W(), files, own, lost, nid, InodeBody(0, seq(d.tableSize, _ => -1)));
      files := files + {nid};
    }

    /** Gives the identifier of an inode back. */
    method PutInode(ino: nat)
      requires Valid() && Open(ino)
      modifies this`freeNodes, m`freeHead, m`freeTail, m`freeNr, m`usedNr, m`queue, m`steps, m`l2p, m.freeNext, m`segDirty, m.segs, m`natDirty, m.table, m.cache
      ensures old(m.steps) <= m.steps
      ensures !old(m.table[ino].At?) && old(m.CurSafe()) ==> m.CurSafe()
      ensures old(m.CurLinked()) ==> m.CurLinked()
      ensures m.Valid(None) && freeNodes == FreeCount(m.table[..])
      ensures SameExcept(old(m.W()), m.W(), Summary(ino, -1)) && Reads(m.W(), Summary(ino, -1)) == None
      ensures m.table[..] == old(m.table[..])[ino := Unused] && m.cache[..] == old(m.cache[..])[ino := -1]
      ensures m.usedNr + (if Summary(ino, -1) in old(m.l2p) then 1 else 0) == old(m.usedNr) && m.l2p == old(m.l2p) - {Summary(ino, -1)}
    {
      hide SafeCurs, Manager.CurLinked, Manager.CurSafe, Manager.SegsMarked, Manager.NatMarked, Inv, SegInv, RingOk, Run, SameExcept, Reads, FreeCount, FileOk, IndexOk, BodyOf, IndexOf;
      InodeHere(m.B, m.W(), m.l2p, d, files, own, lost, ino);
      PutNode(ino);
    }

    /** Gives the inode of a file back; index nodes that it names belong to no file any more. */
    method DropFile(ino: nat, ghost w: World)
      requires Valid() && Open(ino) && SameFiles(d, w, m.W(), files - {ino})
      modifies this`freeNodes, this`files, this`own, this`lost,
               m`freeHead, m`freeTail, m`freeNr, m`usedNr, m`queue, m`steps, m`l2p, m.freeNext, m`segDirty, m.segs, m`natDirty, m.table, m.cache
      ensures old(m.steps) <= m.steps
      ensures !old(m.table[ino].At?) && old(m.CurSafe()) ==> m.CurSafe()
      ensures old(m.CurLinked()) ==> m.CurLinked()
      ensures Valid() && files == old(files) - {ino} && own == OwnElse(old(own), ino) && lost == old(lost) + OwnOf(old(own), ino)
      ensures SameFiles(d, w, m.W(), files)
      ensures m.usedNr + (if Summary(ino, -1) in old(m.l2p) then 1 else 0) == old(m.usedNr) && m.l2p == old(m.l2p) - {Summary(ino, -1)}
    {
      hide SafeCurs, Manager.CurLinked, Manager.CurSafe, Manager.SegsMarked, Manager.NatMarked, Inv, SegInv, RingOk, Run, SameContents, SameExcept, Reads, FreeCount, FileOk, IndexOk, BodyOf, IndexOf, FileBlock, SameFiles;
      ghost var w2 := m.W();
      PutInode(ino);
      FileDropped(d, w2, m.W(), files, own, lost, OwnElse(own, ino), lost + OwnOf(own, ino), ino);
      files, own, lost := files - {ino}, OwnElse(own, ino), lost + OwnOf(own, ino);
      SameFilesTrans(d, w, w2, m.W(), files);
    }

    /** A new empty file with its inode written.  When there is no room for the inode its identifier is
        given back; an error of the segment manager leaves it in use and in no file. */
    method CreateInode() returns (nid: int, r: Outcome)
      requires Valid() && m.CurSafe()
      modifies this, m, m.segs, m.cur, m.freeNext, m.table, m.cache
      ensures m.origin == old(m.origin) && m.natBase == old(m.natBase) && m.segBase == old(m.segBase) && old(m.steps) <= m.steps
      ensures (old(m.CurLinked()) ==> m.CurLinked()) && (old(m.CurSafe()) ==> m.CurSafe())
      ensures Valid() && own == old(own)
      ensures lost == if r.Thrown? then old(lost) + {nid} else old(lost)
      ensures r.Done? ==> 0 <= nid && nid !in old(files) && files == old(files) + {nid} && Open(nid) && EmptyFile(d, m.W(), nid)
      ensures !r.Done? ==> files == old(files)
      ensures old(freeNodes) > 0 && old(m.freeNr) > m.reserved ==> r.Done?
      ensures old(freeNodes) > 0 && Ample(old(m.Log()), HOT_NODE, m.reserved) ==> r.Done? && Calm(m.B, old(m.Log()), HOT_NODE, m.Log())
      ensures r.Done? ==> freeNodes == old(freeNodes) - 1 && m.usedNr == old(m.usedNr) + 1
      ensures SameFiles(d, old(m.W()), m.W(), old(files))
    {
      hide Calm, Ample, Manager.Scarce, SafeCurs, Manager.CurLinked, Manager.CurSafe, Manager.SegsMarked, Manager.NatMarked, Inv, SegInv, RingOk, Run, SameContents, SameExcept, Reads, FreeCount, FileOk, IndexOk, FsOk, BodyOf, IndexOf, FileBlock, CacheStays, EmptyFile, SameFiles;
      ghost var w := m.W();
      OkHere(d, w, files, own, lost);
      nid := NewInode();
      if nid == -1 {
        return -1, NoSegment;
      }
      ghost var w1 := m.W();
      r := FlushNode(nid);
      FileStays(d, w, w1, m.W(), old(files), nid);
      if !r.Done? {
        assert files - {nid as nat} == old(files);
        DropNew(nid, r.Thrown?, w);
      }
    }

    /** Drops an inode without index nodes that could not be written: its identifier is given back, or
        after an error stays in use. */
    method DropNew(nid: nat, thrown: bool, ghost w: World)
      requires Valid() && Open(nid) && SameFiles(d, w, m.W(), files - {nid}) && forall n :: n in own ==> own[n].0 != nid
      modifies this`freeNodes, this`files, this`own, this`lost,
               m`freeHead, m`freeTail, m`freeNr, m`usedNr, m`queue, m`steps, m`l2p, m.freeNext, m`segDirty, m.segs, m`natDirty, m.table, m.cache
      ensures old(m.steps) <= m.steps
      ensures !old(m.table[nid].At?) && old(m.CurSafe()) ==> m.CurSafe()
      ensures old(m.CurLinked()) ==> m.CurLinked()
      ensures Valid() && files == old(files) - {nid} && own == old(own) && lost == (if thrown then old(lost) + {nid} else old(lost))
      ensures SameFiles(d, w, m.W(), files)
    {
      hide SafeCurs, Manager.CurLinked, Manager.CurSafe, Manager.SegsMarked, Manager.NatMarked, Inv, SegInv, RingOk, Run, SameContents, Reads, FreeCount, FileOk, IndexOk, FsOk, BodyOf, IndexOf, FileBlock, SameFiles;
      OwnNone(own, nid);
      if thrown {
        FileLost(d, m.W(), files, own, lost, nid);
        files, lost := files - {nid}, lost + {nid};
      } else {
        DropFile(nid, w);
        assert lost == old(lost);
      }
    }

    /** Truncates block `k`; an index node without blocks left is given back and leaves the inode. */
    method TruncateOne(ino: nat, nid: int, k: nat) returns (dropped: bool, ghost cut: set<Summary>)
      requires Valid() && Open(ino) && Loaded(ino, k, nid)
      modifies this`freeNodes, this`own, m, m.segs, m.freeNext, m.table, m.cache
      ensures m.origin == old(m.origin) && m.natBase == old(m.natBase) && m.segBase == old(m.segBase) && old(m.steps) <= m.steps
      ensures old(m.CurLinked()) ==> m.CurLinked()
      ensures Valid() && Open(ino) && own == (if dropped then old(own) - {nid} else old(own))
      ensures CutBlock(d, old(m.W()), m.W(), files, ino, k, dropped)
      ensures !dropped ==> Loaded(ino, k, nid)
      ensures Freed(old(m.l2p), old(m.usedNr), m.l2p, m.usedNr, cut) && forall o :: o in cut ==> o.nid == nid
    {
      hide SafeCurs, Manager.CurLinked, Manager.CurSafe, Manager.SegsMarked, Manager.NatMarked, Inv, SegInv, RingOk, Run, SameContents, SameExcept, Reads, FreeCount, FileOk, IndexOk, FsOk, BodyOf, IndexOf, FileBlock, CutBlock, BlockCut, Freed;
      ghost var w, l0, u0 := m.W(), m.l2p, m.usedNr;
      OkHere(d, w, files, own, lost);
      CachedIndex(m.B, w, m.l2p, d, files, own, lost, nid);
      SlotOff(d, k, k);
      m.TruncateBlock(nid, d.Off(k));
      ghost var w1, l1, u1 := m.W(), m.l2p, m.usedNr;
      FreeOne(l0, u0, l1, u1, Summary(nid, d.Off(k)));
      BlockSet(d, w, w1, files, own, lost, nid, d.Off(k));
      CachedIndex(m.B, w1, m.l2p, d, files, own, lost, nid);
      BlockGone(d, w, w1, files, own, lost, ino, nid, k);
      var ptrs := m.pages[m.cache[nid]].data.ptrs;
      LastBlock(d, w, w1, files, own, lost, ino, nid, k, ptrs);
      dropped := NoPtrs(ptrs);
      cut := One(l0, Summary(nid, d.Off(k)));
      if dropped {
        DropIndex(ino, nid, k);
        FreeOne(l1, u1, m.l2p, m.usedNr, Summary(nid, -1));
        FreedTrans(l0, u0, l1, u1, m.l2p, m.usedNr, cut, One(l1, Summary(nid, -1)));
        cut := cut + One(l1, Summary(nid, -1));
        CutThenDrop(d, w, w1, m.W(), files, ino, k);
      } else {
        CutKeep(d, w, w1, files, ino, k);
      }
    }

    /** Gives an index node without pointers back and clears its entry in the inode. */
    method DropIndex(ino: nat, nid: int, k: nat)
      requires Valid() && Open(ino) && Loaded(ino, k, nid)
      requires m.cache[nid] in m.pages && m.pages[m.cache[nid]].data.Index? && NoPtrs(m.pages[m.cache[nid]].data.ptrs)
      modifies this`freeNodes, this`own, m, m.segs, m.freeNext, m.table, m.cache
      ensures m.origin == old(m.origin) && m.natBase == old(m.natBase) && m.segBase == old(m.segBase) && old(m.steps) <= m.steps
      ensures old(m.CurLinked()) ==> m.CurLinked()
      ensures Valid() && Open(ino) && own == old(own) - {nid}
      ensures IndexDrop(d, old(m.W()), m.W(), files, ino, d.Slot(k))
      ensures m.usedNr + (if Summary(nid, -1) in old(m.l2p) then 1 else 0) == old(m.usedNr) && m.l2p == old(m.l2p) - {Summary(nid, -1)}
    {
      hide Manager.Traced, Manager.PagesOk, Manager.Ring, SafeCurs, Manager.CurLinked, Manager.CurSafe, Manager.SegsMarked, Manager.NatMarked, Inv, SegInv, RingOk, Run, SameContents, SameExcept, Reads, FreeCount, FileOk, IndexOk, FsOk, BodyOf, IndexOf, FileBlock;
      ghost var w := m.W();
      var i := d.Slot(k);
      AllBodies(d, w, files, own, lost);
      CachedIndex(m.B, w, m.l2p, d, files, own, lost, nid);
      InodeHere(m.B, w, m.l2p, d, files, own, lost, ino);
      NoBlocksBelow(w, nid, m.pages[m.cache[nid]].data);
      OwnedInUse(d, w, files, own, lost, nid);
      var body := m.pages[m.cache[ino]].data.body;
      PutNode(nid);
      ghost var w1 := m.W();
      m.SetInode(ino, body.(index := body.index[i := -1]));
      IndexDropped(d, w, w1, m.W(), files, own, lost, ino, i, nid, body);
      SizesStay(w, m.W(), ino, body, i);
      own := own - {nid};
    }

    /** Truncates every block of a full file, from its first block on: the index nodes below the size go
        with their blocks. */
    method CutBlocks(ino: nat) returns (end: nat, ghost cut: set<Summary>)
      requires Valid() && Open(ino) && Full(d, m.W(), ino)
      modifies this, m, m.segs, m.cur, m.freeNext, m.table, m.cache
      ensures m.origin == old(m.origin) && m.natBase == old(m.natBase) && m.segBase == old(m.segBase) && old(m.steps) <= m.steps
      ensures old(m.CurLinked()) ==> m.CurLinked()
      ensures Valid() && files == old(files) && lost == old(lost) && Open(ino) && end == d.Blocks(SizeOf(old(m.W()), ino))
      ensures CutTo(d, old(m.W()), m.W(), files, ino, end, end) && SubOwners(old(own), own)
      ensures Freed(old(m.l2p), old(m.usedNr), m.l2p, m.usedNr, cut) && CutOwned(d, old(own), ino, end, cut)
    {
      hide Calm, Ample, Manager.Scarce, SafeCurs, Manager.CurLinked, Manager.CurSafe, Manager.SegsMarked, Manager.NatMarked, Inv, SegInv, RingOk, Run, SameContents, SameExcept, Reads, FreeCount, FileOk, IndexOk, FsOk, BodyOf, IndexOf, FileBlock, CutBlock, CutTo, Freed,
           Full, Below, Wrote, SizeOf, Under, Owned, IdleOf, UseGone, NoIdle, SameFiles, Sizes.Blocks;
      ghost var w, own0, l0, u0 := m.W(), own, m.l2p, m.usedNr;
      OkHere(d, w, files, own, lost);
      InodeHere(m.B, w, m.l2p, d, files, own, lost, ino);
      end := d.Blocks(m.pages[m.cache[ino]].data.body.size);
      cut := {};
      CutStart(d, w, files, ino, end);
      FreedNone(l0, u0);
      var k, loaded, nid, off := 0, false, -1, 0;
      while k < end
        invariant m.origin == old(m.origin) && m.natBase == old(m.natBase) && m.segBase == old(m.segBase) && old(m.steps) <= m.steps
        invariant old(m.CurLinked()) ==> m.CurLinked()
        invariant k <= end && Valid() && files == old(files) && lost == old(lost) && Open(ino)
        invariant CutTo(d, w, m.W(), files, ino, k, end) && SubOwners(own0, own)
        invariant loaded && k < end ==> Loaded(ino, k, nid) && off == d.Off(k)
        invariant Freed(l0, u0, m.l2p, m.usedNr, cut) && CutOwned(d, own0, ino, end, cut)
      {
        if !loaded {
          ghost var w1 := m.W();
          CutThere(d, w, w1, files, ino, k, end);
          SlotFits(d, k);
          ghost var r;
          nid, r := OffsetToIndex(ino, k, false);
          CutSame(d, w, w1, m.W(), files, ino, k, end);
          loaded, off := true, d.Off(k);
        }
        ghost var w2, l2, u2, c := m.W(), m.l2p, m.usedNr, {};
        var dropped;
        dropped, c := TruncateOne(ino, nid, k);
        CutStep(d, w, w2, m.W(), files, ino, k, end, dropped);
        FreedTrans(l0, u0, l2, u2, m.l2p, m.usedNr, cut, c);
        CutOwnedMore(d, own0, ino, k, end, cut, c, nid);
        cut := cut + c;
        NextSlot(d, k);
        off := off + 1;
        if off >= d.indexSize {
          loaded := false;
        }
        k := k + 1;
      }
    }

    /** Removes a file whose size says where its blocks are.  Exactly its data blocks, the index nodes
        below its size and its inode are invalidated, each once; exactly those identifiers become
        free; no other file shows a difference.  An index node above the size, which a write that
        ran out of room leaves behind, stays in use and belongs to no file any more. */
    method RemoveFile(ino: nat)
      requires Valid() && Open(ino) && Full(d, m.W(), ino)
      modifies this, m, m.segs, m.cur, m.freeNext, m.table, m.cache
      ensures m.origin == old(m.origin) && m.natBase == old(m.natBase) && m.segBase == old(m.segBase) && old(m.steps) <= m.steps
      ensures old(m.CurLinked()) ==> m.CurLinked()
      ensures Valid() && files == old(files) - {ino}
      ensures SameFiles(d, old(m.W()), m.W(), files)
      ensures var end := d.Blocks(SizeOf(old(m.W()), ino));
              && m.l2p == old(m.l2p) - Under(old(m.l2p), {ino as int} + Owned(d, old(own), ino, end))
              && m.usedNr + |Under(old(m.l2p), {ino as int} + Owned(d, old(own), ino, end))| == old(m.usedNr)
              && lost == old(lost) + IdleOf(d, old(own), ino, end)
              && UseGone(old(m.W()), m.W(), {ino as int} + Owned(d, old(own), ino, end))
      ensures NoIdle(d, old(m.W()), ino) <==> lost == old(lost)
    {
      hide Calm, Ample, Manager.Scarce, SafeCurs, Manager.CurLinked, Manager.CurSafe, Manager.SegsMarked, Manager.NatMarked, Inv, SegInv, RingOk, Run, SameContents, SameExcept, Reads, FreeCount, FileOk, IndexOk, FsOk, BodyOf, IndexOf, FileBlock, CutBlock, CutTo, Freed,
           Full, Below, Wrote, SizeOf, Under, Owned, IdleOf, UseGone, NoIdle, SameFiles, Sizes.Blocks;
      ghost var w, own0, l0, u0 := m.W(), own, m.l2p, m.usedNr;
      OkHere(d, w, files, own, lost);
      var end;
      ghost var cut;
      end, cut := CutBlocks(ino);
      CutEnd(d, w, m.W(), files, own0, own, lost, ino, end);
      CutOthers(d, w, m.W(), files, ino, end);
      ghost var w1, l1, u1, own1 := m.W(), m.l2p, m.usedNr, own;
      DropFile(ino, w);
      FreeOne(l1, u1, m.l2p, m.usedNr, Summary(ino, -1));
      FreedTrans(l0, u0, l1, u1, m.l2p, m.usedNr, cut, One(l1, Summary(ino, -1)));
      RestOwners(d, own0, own1, ino, end);
      RemovedUse(d, w, m.W(), old(files), own0, own1, old(lost), ino, end);
      RemovedAll(m.B, d, w, m.W(), l0, u0, m.l2p, m.usedNr, cut, One(l1, Summary(ino, -1)), old(files), own0, own1, old(lost), ino, end);
      IdleLost(d, w, old(files), own0, old(lost), ino, end);
    }

    // ----- Opening, closing and syncing -----

    /** Brings the inode of a file into the cache. */
    method OpenInode(ino: nat)
      requires Valid() && ino in files
      modifies m`pages, m`nextPage, m.cache
      ensures Valid() && Open(ino) && SameContents(old(m.W()), m.W()) && SameFiles(d, old(m.W()), m.W(), files)
    {
      hide SafeCurs, Manager.CurLinked, Manager.CurSafe, Manager.SegsMarked, Manager.NatMarked, Inv, SegInv, RingOk, Run, SameContents, Reads, FreeCount, FileOk, IndexOk, BodyOf, IndexOf, SameFiles;
      ghost var w := m.W();
      AllBodies(d, w, files, own, lost);
      FsNode(w, d, files, own, lost, ino);
      LoadNode(ino);
      FilesStay(d, w, m.W(), files);
    }

    /** Writes a cached node if it is dirty and drops it from the cache. */
    method CloseNode(nid: nat) returns (ok: bool)
      requires Valid() && nid < m.cache.Length && m.cache[nid] >= 0 && m.table[nid] != Unused && m.CurSafe()
      modifies m, m.segs, m.cur, m.freeNext, m.table, m.cache
      ensures m.origin == old(m.origin) && m.natBase == old(m.natBase) && m.segBase == old(m.segBase) && old(m.steps) <= m.steps
      ensures (old(m.CurLinked()) ==> m.CurLinked()) && (old(m.CurSafe()) ==> m.CurSafe())
      ensures Valid() && SameContents(old(m.W()), m.W())
      ensures ok ==> m.cache[nid] < 0
      ensures !ok ==> m.cache[nid] == old(m.cache[nid])
      ensures forall n :: 0 <= n < m.cache.Length && n != nid && old(m.cache[n]) >= 0 ==> m.cache[n] >= 0
      ensures !Marked(old(m.W()), nid) ==> m.steps == old(m.steps)
      ensures old(m.freeNr) > m.reserved || !Marked(old(m.W()), nid) ==>
                ok && m.cache[..] == old(m.cache[..])[nid := -1] && m.freeNr + 1 >= old(m.freeNr)
                && forall n: nat :: n != nid ==> (Marked(m.W(), n) <==> Marked(old(m.W()), n))
      ensures !ok ==> m.freeNr <= 1
    {
      hide Manager.Able, Swept, Manager.Scarce, SameUse, FsOk, Manager.Traced, Manager.PagesOk, Manager.Ring, Marked, Steady, Calm, SafeCurs, Manager.CurLinked, Manager.CurSafe, Manager.SegsMarked, Manager.NatMarked, Inv, SegInv, RingOk, Run, SameContents, Reads, FreeCount, FileOk, IndexOk, BodyOf, IndexOf;
      ghost var w := m.W();
      CachedPage(m.B, w, m.l2p, nid);
      SameRefl(w);
      SteadyAny(w, {m.cache[nid]});
      m.PageNumbers();
      ok := true;
      m.FreeIsQueue();
      MarkedPage(w, nid);
      if m.pages[m.cache[nid]].dirty {
        var r := m.WriteNode(nid, true);
        ok := r.Done?;
        CacheKeeps(w, m.W(), nid);
        CalmLeft(m.B, w.st, HOT_NODE, m.Log());
        m.FreeIsQueue();
      }
      ghost var w1 := m.W();
      assert w.st.queue == old(m.queue) && (m.freeNr == |w1.st.queue|);
      SteadyCache(w, w1, {w.cache[nid]});
      if ok {
        m.Decache(nid);
        SameTrans(w, w1, m.W());
        if old(m.freeNr) > m.reserved || !Marked(w, nid) {
          DroppedMarks(m.B, w, w1, m.W(), old(m.l2p), nid);
        }
      }
      UsesClose(d, w, w1, m.W(), files, own, lost, nid, ok);
      SameNodes(w, m.W());
      FsStays(d, w, m.W(), files, own, lost);
      UseFree(w, m.W());
    }

    /** Closes a file: its index nodes below the size and its inode are written and leave the cache.  A
        collection in between may bring an index node back.  No file shows a difference. */
    method CloseInode(ino: nat) returns (ok: bool)
      requires Valid() && Open(ino) && m.CurSafe()
      modifies m, m.segs, m.cur, m.freeNext, m.table, m.cache
      ensures m.origin == old(m.origin) && m.natBase == old(m.natBase) && m.segBase == old(m.segBase) && old(m.steps) <= m.steps
      ensures (old(m.CurLinked()) ==> m.CurLinked()) && (old(m.CurSafe()) ==> m.CurSafe())
      ensures Valid() && SameContents(old(m.W()), m.W()) && SameFiles(d, old(m.W()), m.W(), files)
      ensures ok <==> !Open(ino)
      ensures !ok ==> m.freeNr <= 1
      ensures NoDirty(old(m.W())) ==> m.steps == old(m.steps)
      ensures old(m.freeNr) > m.reserved + d.tableSize || NoDirty(old(m.W())) ==>
                ok && (forall n: nat :: n == ino || Leads(d, old(m.W()), ino, n) ==> Gone(m.W(), n))
                && forall n: nat :: n != ino && !Leads(d, old(m.W()), ino, n) ==> Left(old(m.W()), m.W(), n)
    {
      hide NoDirty, Left, Leads, LedBelow, ClosedBelow, Sizes.First, SizeOf, Marked, SafeCurs, Manager.CurLinked, Manager.CurSafe, Manager.SegsMarked, Manager.NatMarked, Inv, SegInv, RingOk, Run, SameContents, Reads, FreeCount, FileOk, IndexOk, FsOk, BodyOf, IndexOf, SameFiles, Sizes.Blocks;
      ghost var w := m.W();
      SameRefl(w);
      OkHere(d, w, files, own, lost);
      ghost var clean := NoDirty(w);
      ghost var ample := m.freeNr > m.reserved + d.tableSize || clean;
      var ii, bb := 0, 0;
      InodeHere(m.B, w, m.l2p, d, files, own, lost, ino);
      var last := d.Blocks(m.pages[m.cache[ino]].data.body.size);
      NothingClosed(w, ino);
      FirstEnds(d);
      while ii < d.tableSize && bb < last
        invariant d.Blocks(SizeOf(w, ino)) == last <= d.First(d.tableSize) && bb == d.First(ii) && (ii > 0 ==> d.First(ii - 1) < last)
        invariant ample ==> m.freeNr + ii >= old(m.freeNr) && ClosedBelow(w, m.W(), ino, ii)
        invariant clean ==> m.steps == old(m.steps)
        invariant m.origin == old(m.origin) && m.natBase == old(m.natBase) && m.segBase == old(m.segBase) && old(m.steps) <= m.steps
        invariant (old(m.CurLinked()) ==> m.CurLinked()) && (old(m.CurSafe()) ==> m.CurSafe())
        invariant Valid() && Open(ino) && SameContents(w, m.W()) && ii <= d.tableSize
      {
        ghost var w1 := m.W();
        InodeHere(m.B, w1, m.l2p, d, files, own, lost, ino);
        var nid := m.pages[m.cache[ino]].data.body.index[ii];
        if nid != -1 {
          IndexHere(w1, d, files, own, lost, ino, ii);
          OwnedInUse(d, w1, files, own, lost, nid);
          OwnedApart(d, w1, files, own, lost, nid);
          if m.cache[nid] >= 0 {
            if clean {
              CleanLeft(w, w1, ino, ii, nid);
            }
            ok := CloseNode(nid);
            SameTrans(w, w1, m.W());
            if !ok {
              FilesStay(d, w, m.W(), files);
              return;
            }
          }
        }
        SameIndex(w, w1, ino, ii);
        if ample {
          OneClosed(w, w1, m.W(), ino, ii);
        }
        SlotFirst(d, 0, ii);
        ii, bb := ii + 1, bb + d.indexSize;
      }
      ghost var w2 := m.W();
      FileInUse(d, w2, files, own, lost, ino);
      if clean {
        CleanLeft(w, w2, ino, ii, ino);
      }
      ok := CloseNode(ino);
      SameTrans(w, w2, m.W());
      if ample {
        AllClosed(d, w, w2, m.W(), ino, ii);
      }
      FilesStay(d, w, m.W(), files);
    }

    /** Flushes every node: no file shows a difference, and a checkpoint may follow. */
    method Sync() returns (ok: bool)
      requires Valid() && m.CurSafe()
      modifies m, m.segs, m.cur, m.freeNext, m.table, m.cache
      ensures m.origin == old(m.origin) && m.natBase == old(m.natBase) && m.segBase == old(m.segBase) && old(m.steps) <= m.steps
      ensures (old(m.CurLinked()) ==> m.CurLinked()) && (old(m.CurSafe()) ==> m.CurSafe())
      ensures Valid() && SameContents(old(m.W()), m.W()) && SameFiles(d, old(m.W()), m.W(), files)
      ensures ok ==> NoDirty(m.W())
      ensures old(m.freeNr) >= m.reserved + DirtyNr(old(m.W()), m.table.Length) ==> ok
    {
      hide SafeCurs, Manager.CurLinked, Manager.CurSafe, Manager.SegsMarked, Manager.NatMarked, Inv, SegInv, RingOk, Run, SameContents, Reads, FreeCount, FileOk, IndexOk, BodyOf, IndexOf, CacheStays, NoDirty, SameFiles, DirtyNr;
      ghost var w := m.W();
      ghost var worlds, raised;
      ok, worlds, raised := m.SyncFs();
      UseStays(d, w, m.W(), files, own, lost);
      SameNodes(w, m.W());
      FsStays(d, w, m.W(), files, own, lost);
      UseFree(w, m.W());
      FilesStay(d, w, m.W(), files);
    }
  }
}
