/** Programs from nothing that meet the failing side of what is proved elsewhere: a read that misses a
    block that is there, a write that leaves an idle index node, and a mount with an unsafe scan. */
module Examples {
  import opened Segments
  import opened SegmentRuns
  import opened Mapping
  import opened NodeOps
  import opened FileMap
  import opened FileChanges
  import opened SegmentManager
  import opened FileSystem

  /** An empty file system with blocks of one byte and index nodes of one entry, and an empty file. */
  method OneFile(segNr: nat) returns (fs: FileSystem, ino: nat)
    requires segNr > 3
    ensures fs.Valid() && fs.m.CurSafe() && fs.d == Sizes(1, 2, 1) && fs.maxFile == 2 && fs.opSegs == 0
    ensures fresh(fs) && fresh(fs.m) && fresh(fs.m.segs) && fresh(fs.m.cur) && fresh(fs.m.freeNext) && fresh(fs.m.table) && fresh(fs.m.cache)
    ensures fs.m.B == 4 && fs.m.reserved == 3 && fs.m.segs.Length == segNr && fs.freeNodes == 3 && fs.lost == {}
    ensures fs.m.usedNr == 1 && fs.m.freeNr >= segNr - 1 && fs.m.cur.Length == TEMP_NR
    ensures fs.m.cur[HOT_NODE].segNo != -1 && fs.m.cur[HOT_DATA].segNo == -1
    ensures fs.files == {ino} && fs.Open(ino) && EmptyFile(fs.d, fs.m.W(), ino)
  {
    hide Inv, SegInv, Run, RingOk, EmptyFile, Manager.SegsMarked, Manager.NatMarked, SafeCurs, FsOk;
    var m := new Manager(4, segNr, 4, 3, 15, 64);
    m.InitSegmentManager();
    m.LinkedSafe();
    m.FreeIsQueue();
    fs := new FileSystem(Sizes(1, 2, 1), m, 0, 2);
    var nid, r := fs.CreateInode();
    m.FreeIsQueue();
    ino := nid;
  }

  /** The second block of the file is written and the first never was.  A read of both finds neither:
      the missing index node of the first ends it, and the block that is there is not returned. */
  method SparseRead() returns (fs: FileSystem, ino: nat, blks: seq<Option<Tag>>)
    ensures fs.Valid() && ino in fs.files && SizeOf(fs.m.W(), ino) == 2
    ensures FileBlock(fs.d, fs.m.W(), ino, 1) == Some(Data(Tag(ino, 1)))
    ensures blks == [None, None]
  {
    hide Inv, SegInv, Run, RingOk, Manager.SegsMarked, Manager.NatMarked, SafeCurs, FsOk, FileOk, Reads, BodyOf, Calm, SameContents;
    fs, ino := OneFile(16);
    ghost var w0 := fs.m.W();
    NoIndexAtAll(fs.d, w0, ino);
    var bytes, r, n := fs.FileWrite(ino, 1, 1);
    ghost var w := fs.m.W();
    assert fs.d.Bytes(1) == 1;
    assert IndexOf(w, ino, 0) == -1;
    blks := fs.FileRead(ino, 0, 2);
    ReadHole(fs.d, w, ino, blks);
    BlocksStay(fs.d, w, fs.m.W());
  }

  lemma ReadHole(d: Sizes, w: World, ino: nat, blks: seq<Option<Tag>>)
    requires d == Sizes(1, 2, 1) && ReadsBack(d, w, ino, 0, 2, blks) && SizeOf(w, ino) == 2 && IndexOf(w, ino, 0) == -1
    ensures blks == [None, None]
  {
    hide IndexOf, FileBlock;
    forall k: nat ensures HoleIn(d, w, ino, 0, k) {
      var j: nat := 0;
      assert d.Slot(j) == 0 && j <= k;
    }
  }

  lemma NoIndexAtAll(d: Sizes, w: World, ino: nat)
    requires d == Sizes(1, 2, 1) && EmptyFile(d, w, ino)
    ensures SizeOf(w, ino) == 0 && NoIdle(d, w, ino) && Full(d, w, ino) && forall i: nat :: IndexOf(w, ino, i) == -1
  {
  }

  /** With one segment more than the reserve, a file's first write enters its index node and then finds
      no segment for the block. */
  method ShortWrite() returns (fs: FileSystem, ino: nat)
    ensures fs.Valid() && fs.Open(ino) && fs.files == {ino} && fs.lost == {} && fs.m.CurSafe()
    ensures fresh(fs) && fresh(fs.m) && fresh(fs.m.segs) && fresh(fs.m.cur) && fresh(fs.m.freeNext) && fresh(fs.m.table) && fresh(fs.m.cache)
    ensures Full(fs.d, fs.m.W(), ino) && !NoIdle(fs.d, fs.m.W(), ino)
  {
    hide Inv, SegInv, Run, RingOk, Manager.SegsMarked, Manager.NatMarked, SafeCurs, FsOk, Reads, BodyOf, SameContents,
         FileSystem.Admitted, FileSystem.StarvedAt, FileSystem.Roomy, NoIdle, Full, TagsKept, NoneIdle, FileWrote, EmptyFile, SizeOf, StopsIdle,
         Tagged, Span, Sizes.Blocks, IndexOf;
    fs, ino := OneFile(4);
    ghost var w0 := fs.m.W();
    NoIndexAtAll(fs.d, w0, ino);
    FirstBlock(fs.d);
    StartsAdmitted(fs);
    StartsStarved(fs, ino);
    var bytes, r, n := fs.FileWrite(ino, 0, 1);
    IdleLeft(fs.d, w0, fs.m.W(), fs.files, ino);
  }

  lemma StartsAdmitted(fs: FileSystem)
    requires fs.d == Sizes(1, 2, 1) && fs.maxFile == 2 && fs.opSegs == 0 && fs.m.B == 4 && fs.m.reserved == 3 && fs.m.segs.Length == 4
    requires fs.m.usedNr == 1
    ensures fs.Admitted(0, 1)
  {
    assert fs.RoomFor(1, false);
    hide FileSystem.RoomFor;
    FirstBlock(fs.d);
    hide Span, Sizes.Blocks;
  }

  lemma StartsStarved(fs: FileSystem, ino: nat)
    requires fs.d == Sizes(1, 2, 1) && fs.m.B == 4 && fs.m.reserved == 3 && fs.m.segs.Length == 4
    requires fs.freeNodes == 3 && fs.m.usedNr == 1 && fs.m.freeNr >= 3 && fs.m.cur.Length == TEMP_NR
    requires fs.m.cur[HOT_NODE].segNo != -1 && fs.m.cur[HOT_DATA].segNo == -1 && IndexOf(fs.m.W(), ino, 0) == -1
    ensures fs.StarvedAt(ino, 0, 1)
  {
    FirstBlock(fs.d);
    hide IndexOf, Span, Sizes.Blocks;
  }

  /** The index node that such a write leaves idle is lost when the file is removed. */
  method ShortWriteLoses() returns (fs: FileSystem)
    ensures fs.Valid() && fs.files == {} && fs.lost != {}
  {
    hide Inv, SegInv, Run, RingOk, Manager.SegsMarked, Manager.NatMarked, SafeCurs, FsOk, NoIdle, Full;
    var ino;
    fs, ino := ShortWrite();
    fs.RemoveFile(ino);
  }

  lemma FirstBlock(d: Sizes)
    requires d == Sizes(1, 2, 1)
    ensures Span(d, 0, 1) == 1 && d.Blocks(0 + 1) == 1 && d.Slot(0) == 0
  {
  }

  lemma IdleLeft(d: Sizes, w0: World, w: World, files: set<nat>, ino: nat)
    requires d == Sizes(1, 2, 1) && ino in files && SizeOf(w0, ino) == 0 && NoIdle(d, w0, ino) && Full(d, w0, ino)
    requires FileWrote(d, w0, w, files, ino, 0, 1, 0, false) && StopsIdle(d, w0, w, ino, 0, 0) && TagsKept(d, w0, w, files)
    ensures !NoIdle(d, w, ino) && Full(d, w, ino)
  {
    hide NoIdle, Full, BodyOf, NodesWrote, BlocksWrote;
  }

  /** No data block is there, except perhaps at `x`. */
  ghost predicate NoData(w: World, x: Summary) {
    forall o: Summary :: o.offset != -1 && o != x ==> Reads(w, o) == None
  }

  lemma NoDataSame(w: World, w': World, x: Summary)
    requires NoData(w, x) && SameContents(w, w')
    ensures NoData(w', x) && Reads(w', x) == Reads(w, x)
  {
    hide Reads;
  }

  lemma NoDataExcept(w: World, w': World, x: Summary, y: Summary)
    requires NoData(w, x) && SameExcept(w, w', y) && (y == x || y.offset == -1)
    ensures NoData(w', x)
  {
    hide Reads;
  }

  /** The cached node that reads as an index node of one pointer is one. */
  lemma IndexCached(B: nat, w: World, l2p: map<Summary, Loc>)
    requires Inv(B, w, l2p, None) && 0 < |w.table| && w.cache[0] >= 0 && Reads(w, Summary(0, -1)) == Some(Index(0, [None]))
    ensures w.cache[0] in w.pages && w.pages[w.cache[0]].data.Index? && |w.pages[w.cache[0]].data.ptrs| == 1
  {
    hide SegInv, Linked, Roomy, Viewed;
    assert NodeOk(w, 0, None);
  }

  lemma OneBlank(nid: int)
    ensures Bare(Index(nid, [None]))
  {
  }

  /** A segment manager whose one data block is the only one of the current segment for data. */
  method OneBlock() returns (m: Manager)
    ensures fresh(m) && fresh(m.segs) && fresh(m.cur) && fresh(m.freeNext) && fresh(m.table) && fresh(m.cache)
    ensures m.Valid(None) && m.CurLinked() && m.B == 4 && m.reserved == 3 && m.table.Length == 4 && m.freeNr >= 15
    ensures m.cur[HOT_DATA].segNo != -1 && NoData(m.W(), Summary(0, 0))
    ensures m.cache[0] >= 0 && m.cache[0] in m.pages && m.pages[m.cache[0]].data.Index? && |m.pages[m.cache[0]].data.ptrs| == 1
  {
    hide Inv, SegInv, Run, RingOk, Manager.SegsMarked, Manager.NatMarked, Manager.CurSafe, Manager.CurLinked, SameContents, SameExcept, Reads, NoData;
    m := new Manager(4, 16, 4, 3, 15, 64);
    m.InitSegmentManager();
    ghost var w := m.W();
    assert NoData(w, Summary(0, 0)) by { NothingYet(w); }
    m.ClaimNode(0);
    ghost var w1 := m.W();
    NoDataSame(w, w1, Summary(0, 0));
    OneBlank(0);
    m.CreateNode(0, Index(0, [None]));
    ghost var w2 := m.W();
    NoDataExcept(w1, w2, Summary(0, 0), Summary(0, -1));
    m.LinkedSafe();
    m.FreeIsQueue();
    var r := m.WriteData(0, 0, Tag(0, 0), false);
    NoDataExcept(w2, m.W(), Summary(0, 0), Summary(0, 0));
    StillIndex(w2, m.W());
    IndexCached(m.B, m.W(), m.l2p);
    m.FreeIsQueue();
  }

  lemma NothingYet(w: World)
    requires forall o :: Reads(w, o) == None
    ensures NoData(w, Summary(0, 0))
  {
  }

  lemma StillIndex(w: World, w': World)
    requires SameExcept(w, w', Summary(0, 0))
    ensures Reads(w', Summary(0, -1)) == Reads(w, Summary(0, -1))
  {
    hide Reads;
  }

  lemma {:induction false} DirtyBound(w: World, n: nat)
    ensures DirtyNr(w, n) <= n
  {
    if n > 0 {
      DirtyBound(w, n - 1);
    }
  }

  lemma OwnerReads(B: nat, w: World, l2p: map<Summary, Loc>, loc: Loc)
    requires Inv(B, w, l2p, None) && IsValid(w.st, loc) && w.st.segs[loc.seg].temp == HOT_DATA
    ensures OwnerAt(w.st, loc).offset != -1 && Reads(w, OwnerAt(w.st, loc)) != None
  {
    hide Counted, Queued, Partitioned, Currents, Roomy, NodesOk, NodeBlock;
    var o := OwnerAt(w.st, loc);
    assert o in l2p && l2p[o] == loc;
    ViewedAt(w, l2p, o);
  }

  /** Without data blocks the current segment for data is empty: a valid block in it would have an owner
      that reads it. */
  lemma EmptyCurrent(B: nat, w: World, l2p: map<Summary, Loc>)
    requires Inv(B, w, l2p, None) && NoData(w, Summary(0, 0)) && Reads(w, Summary(0, 0)) == None
    requires HOT_DATA < |w.st.cur| && w.st.cur[HOT_DATA].segNo != -1
    ensures !Occupied(w.st.segs, w.st.cur)
  {
    hide Queued, Partitioned, Roomy, NodesOk, Fwd, NodeBlock;
    var s := w.st.cur[HOT_DATA].segNo;
    assert 0 <= s < |w.st.segs| && w.st.segs[s].temp == HOT_DATA;
    forall b | 0 <= b < |w.st.segs[s].valid| ensures !w.st.segs[s].valid[b] {
      if w.st.segs[s].valid[b] {
        OwnerReads(B, w, l2p, Loc(s, b));
      }
    }
    PopCountBounds(w.st.segs[s].valid);
  }

  /** What a mount of the tables in memory needs, once nothing is dirty. */
  lemma KeptMount(B: nat, w: World, l2p: map<Summary, Loc>)
    requires Inv(B, w, l2p, None) && NoDirty(w)
    ensures var m := MountedWorld(w.st.segs, w.st.cur, w.table, w.st.disk);
      Loadable(B, w.st.segs, w.st.cur, w.st.disk) && Mappable(B, m, l2p) && SameContents(w, m)
  {
    assert ValidKept(w.st, w.st.disk);
    hide Inv, ValidKept;
    InvLog(B, w, l2p, None);
    CutLoadable(B, w.st, w.st.disk);
    CleanMappable(B, w, l2p, w.st.disk);
  }

  /** A program from nothing that meets the failing side of `Manager.Mount`: one block is written and
      truncated, everything is flushed, and a mount of the tables that this leaves has an empty current
      segment, which the scan before a collection would free. */
  method EmptiedSegment() returns (m: Manager, m2: Manager)
    ensures m.Valid(None) && m.CurSafe() && NoDirty(m.W())
    ensures m2.Valid(None) && !m2.CurSafe() && SameContents(m.W(), m2.W())
    ensures m2.cur[..] == m.cur[..] && m2.table[..] == m.table[..] && m2.disk == m.disk
  {
    hide Inv, SegInv, Run, RingOk, Manager.SegsMarked, Manager.NatMarked, Manager.CurSafe, Manager.CurLinked, SameContents, SameExcept, Reads, DirtyNr, NoDirty,
         CacheStays, Occupied, Loadable, Mappable, NoData;
    m := OneBlock();
    ghost var w := m.W();
    m.TruncateBlock(0, 0);
    ghost var w1 := m.W();
    NoDataExcept(w, w1, Summary(0, 0), Summary(0, 0));
    m.LinkedSafe();
    DirtyBound(w1, 4);
    ghost var worlds, raised;
    var ok;
    ok, worlds, raised := m.SyncFs();
    NoDataSame(w1, m.W(), Summary(0, 0));
    EmptyCurrent(m.B, m.W(), m.l2p);
    KeptMount(m.B, m.W(), m.l2p);
    m2 := new Manager.Mount(m.B, m.reserved, m.gcHi, m.poolSize, m.segs[..], m.cur[..], m.table[..], m.disk, m.l2p);
    SameTrans(m.W(), MountedWorld(m.segs[..], m.cur[..], m.table[..], m.disk), m2.W());
  }

  /** A loaded table with an empty current segment, as it is left when the last block of the segment is
      truncated before a checkpoint: after the mount the segment carries the mark by which the scan
      before a collection frees it, and then it would be free and current. */
  method UnsafeMount() returns (m: Manager)
    ensures m.Valid(None) && !m.CurSafe() && m.segs.Length == 1 && m.segs[0].validNr == 0 && m.freeNext[0] < 0
    ensures !SegInv(m.B, ScanFree(m.Log(), 0))
  {
    var segs := [SegmentInfo([false, false], 0, HOT_DATA, [NO_OWNER, NO_OWNER])];
    var closed := CurSeg(-1, 0);
    var cur := [closed, closed, closed, closed, CurSeg(0, 1), closed];
    assert PopCount([false, false]) == 0 by { PopCountBounds([false, false]); }
    m := new Manager.Mount(2, 3, 15, 64, segs, cur, [], map[], map[]);
  }
}
