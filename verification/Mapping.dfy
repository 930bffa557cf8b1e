/** The forward map over the segment log: node address table, node cache and index nodes, and
    what a reader of the file system sees through them. */
module Mapping {
  import opened Segments
  import opened SegmentRuns

  /** A NAT entry: free, allocated but never written, or the place of the node. */
  datatype NatEntry = Unused | InUse | At(loc: Loc)

  /** A page: where its block lives, its owner, the dirty mark and the data. */
  datatype Page = Page(phy: Option<Loc>, nid: int, offset: int, dirty: bool, data: Block)

  /** `cache[nid]` is the page that caches node `nid`, or -1. */
  datatype World = World(st: State, table: seq<NatEntry>, cache: seq<int>, pages: map<int, Page>)

  function NatLoc(e: NatEntry): Option<Loc> {
    if e.At? then Some(e.loc) else None
  }

  /** The node as the file system sees it: the cached page wins over the medium. */
  function NodeBlock(w: World, nid: int): Option<Block> {
    if !(0 <= nid < |w.table| && nid < |w.cache|) then None
    else if w.cache[nid] >= 0 then
      if w.cache[nid] in w.pages then Some(w.pages[w.cache[nid]].data) else None
    else if w.table[nid].At? && w.table[nid].loc in w.st.disk then Some(w.st.disk[w.table[nid].loc])
    else None
  }

  /** The forward map: NAT for nodes, index nodes for data blocks. */
  function Fwd(w: World, o: Summary): Option<Loc> {
    if o.offset == -1 then
      if 0 <= o.nid < |w.table| then NatLoc(w.table[o.nid]) else None
    else
      match NodeBlock(w, o.nid)
      case Some(Index(_, ptrs)) => if 0 <= o.offset < |ptrs| then ptrs[o.offset] else None
      case _ => None
  }

  /** A node without the addresses in it. */
  function Erase(b: Block): Block {
    match b
    case Index(nid, ptrs) => Index(nid, seq(|ptrs|, _ => None))
    case _ => b
  }

  /** What a reader gets at `o`: the node without its addresses, or the data block. */
  function Reads(w: World, o: Summary): Option<Block> {
    if o.offset == -1 then
      match NodeBlock(w, o.nid)
      case Some(b) => Some(Erase(b))
      case None => None
    else
      match Fwd(w, o)
      case Some(loc) => if loc in w.st.disk then Some(w.st.disk[loc]) else None
      case None => None
  }

  ghost predicate SameContents(w: World, w': World) {
    forall o :: Reads(w', o) == Reads(w, o)
  }

  ghost predicate SameExcept(w: World, w': World, x: Summary) {
    forall o :: o != x ==> Reads(w', o) == Reads(w, o)
  }

  lemma SameRefl(w: World)
    ensures SameContents(w, w)
  {
  }

  lemma SameTrans(w: World, w': World, w'': World)
    requires SameContents(w, w') && SameContents(w', w'')
    ensures SameContents(w, w'')
  {
  }

  lemma SameFromExcept(w: World, w': World, x: Summary)
    requires SameExcept(w, w', x) && Reads(w', x) == Reads(w, x)
    ensures SameContents(w, w')
  {
  }

  /** What a collection leaves alone besides the contents: cached nodes stay in their pages, pages
      that cache no node do not change, nodes that were never written stay so. */
  ghost predicate Gentle(w: World, w': World) {
    && |w'.table| == |w.table| && |w'.cache| == |w.cache|
    && (forall n :: 0 <= n < |w.cache| && w.cache[n] >= 0 ==> w'.cache[n] == w.cache[n])
    && (forall n :: 0 <= n < |w.cache| && w'.cache[n] != w.cache[n] ==> w'.cache[n] !in w.pages)
    && (forall n :: 0 <= n < |w.table| && n < |w.cache| && !w.table[n].At? ==>
      w'.table[n] == w.table[n] && (w.cache[n] < 0 ==> w'.cache[n] == w.cache[n]))
    && (forall n :: 0 <= n < |w.table| && w.table[n].At? ==> w'.table[n].At?)
    && (forall p :: p in w.pages ==>
      && p in w'.pages && w'.pages[p].nid == w.pages[p].nid && w'.pages[p].offset == w.pages[p].offset
      && (w'.pages[p] == w.pages[p] || exists n :: 0 <= n < |w.cache| && w.cache[n] == p))
  }

  ghost predicate Quiet(w: World, w': World) {
    SameContents(w, w') && Gentle(w, w')
  }

  lemma QuietRefl(w: World)
    ensures Quiet(w, w)
  {
  }

  lemma QuietTrans(w: World, w': World, w'': World)
    requires Quiet(w, w') && Quiet(w', w'')
    ensures Quiet(w, w'')
  {
    forall p | p in w.pages
      ensures p in w''.pages && w''.pages[p].nid == w.pages[p].nid && w''.pages[p].offset == w.pages[p].offset
      ensures w''.pages[p] == w.pages[p] || exists n :: 0 <= n < |w.cache| && w.cache[n] == p
    {
      if w''.pages[p] != w'.pages[p] {
        var n :| 0 <= n < |w'.cache| && w'.cache[n] == p;
        assert w.cache[n] == p;
      }
    }
  }

  lemma QuietNode(w: World, w': World, nid: nat, loc: Loc, page: Page)
    requires SameContents(w, w') && nid < |w.table| == |w.cache| && w.table[nid].At? && w.cache[nid] in w.pages
    requires w'.table == w.table[nid := At(loc)] && w'.cache == w.cache && w'.pages == w.pages[w.cache[nid] := page]
    requires page.nid == w.pages[w.cache[nid]].nid && page.offset == w.pages[w.cache[nid]].offset
    ensures Quiet(w, w')
  {
  }

  lemma QuietData(w: World, w': World, nid: nat, pid: int, other: Page, page: Page)
    requires SameContents(w, w') && nid < |w.cache| && w.cache[nid] in w.pages && pid !in w.pages
    requires w'.table == w.table && w'.cache == w.cache
    requires w'.pages == w.pages[pid := other][w.cache[nid] := page]
    requires page.nid == w.pages[w.cache[nid]].nid && page.offset == w.pages[w.cache[nid]].offset
    ensures Quiet(w, w')
  {
  }

  lemma QuietLoad(w: World, w': World, nid: nat, pid: int)
    requires SameContents(w, w') && Loaded(w, w', nid, pid)
    ensures Quiet(w, w')
  {
  }

  lemma QuietAdd(w: World, w': World, pid: int, page: Page)
    requires SameContents(w, w') && pid !in w.pages && w' == w.(pages := w.pages[pid := page])
    ensures Quiet(w, w')
  {
  }

  lemma QuietLog(w: World, w': World)
    requires SameContents(w, w') && w' == w.(st := w'.st)
    ensures Quiet(w, w')
  {
  }

  // ----- Invariant -----

  ghost predicate NodeOk(w: World, nid: nat, x: Option<Summary>)
    requires nid < |w.table| == |w.cache|
  {
    && (w.cache[nid] >= 0 ==>
      && w.cache[nid] in w.pages
      && var p := w.pages[w.cache[nid]];
        && p.nid == nid && p.offset == -1 && IsNode(p.data) && p.data.nid == nid
        && (Some(Summary(nid, -1)) != x ==> p.phy == NatLoc(w.table[nid]))
        && (Some(Summary(nid, -1)) != x && !p.dirty ==>
          w.table[nid].At? && w.table[nid].loc in w.st.disk && p.data == w.st.disk[w.table[nid].loc]))
    && (w.table[nid].At? && Some(Summary(nid, -1)) != x ==>
      w.table[nid].loc in w.st.disk && IsNode(w.st.disk[w.table[nid].loc]) && w.st.disk[w.table[nid].loc].nid == nid)
    && (w.table[nid].At? && Some(Summary(nid, -1)) == x ==> w.cache[nid] >= 0)
  }

  ghost predicate NodesOk(w: World, x: Option<Summary>) {
    && |w.table| == |w.cache|
    && forall nid :: 0 <= nid < |w.table| ==> NodeOk(w, nid, x)
  }

  /** The ghost map `l2p` is the forward map, except at `x`, whose pointer is about to be set. */
  ghost predicate Viewed(w: World, l2p: map<Summary, Loc>, x: Option<Summary>) {
    forall o :: Some(o) != x ==> OldLoc(l2p, o) == Fwd(w, o)
  }

  /** Open current segments have room. */
  ghost predicate Roomy(B: nat, st: State) {
    forall t :: 0 <= t < |st.cur| && st.cur[t].segNo != -1 ==> 0 <= st.cur[t].off < B
  }

  ghost predicate Inv(B: nat, w: World, l2p: map<Summary, Loc>, x: Option<Summary>) {
    && SegInv(B, w.st) && Roomy(B, w.st) && Linked(w.st, l2p)
    && NodesOk(w, x) && Viewed(w, l2p, x)
  }

  // ----- Reading a node into the cache -----

  ghost predicate Loaded(w: World, w': World, nid: nat, pid: int) {
    && nid < |w.table| == |w.cache| && w.cache[nid] < 0 && 0 <= pid && pid !in w.pages
    && w.table[nid].At? && w.table[nid].loc in w.st.disk
    && w' == w.(cache := w.cache[nid := pid],
                pages := w.pages[pid := Page(Some(w.table[nid].loc), nid, -1, false, w.st.disk[w.table[nid].loc])])
  }

  lemma LoadNodeBlocks(w: World, w': World, nid: nat, pid: int)
    requires Loaded(w, w', nid, pid) && NodesOk(w, None)
    ensures forall n :: NodeBlock(w', n) == NodeBlock(w, n)
  {
    forall n ensures NodeBlock(w', n) == NodeBlock(w, n) {
      if 0 <= n < |w.table| {
        assert NodeOk(w, n, None);
      }
    }
  }

  lemma LoadKeeps(B: nat, w: World, w': World, l2p: map<Summary, Loc>, nid: nat, pid: int)
    requires Inv(B, w, l2p, None) && Loaded(w, w', nid, pid)
    ensures Inv(B, w', l2p, None) && SameContents(w, w')
  {
    hide SegInv, Roomy, Linked;
    LoadNodeBlocks(w, w', nid, pid);
    assert forall o :: Fwd(w', o) == Fwd(w, o);
    forall n | 0 <= n < |w'.table| ensures NodeOk(w', n, None) {
      assert NodeOk(w, n, None);
    }
  }

  // ----- Writing one block -----

  /** The page `pid` holds the block of owner `o`, and knows where that block lives. */
  ghost predicate PageReady(w: World, l2p: map<Summary, Loc>, pid: int, o: Summary) {
    && 0 <= pid && pid in w.pages
    && w.pages[pid].nid == o.nid && w.pages[pid].offset == o.offset
    && 0 <= o.nid < |w.table| == |w.cache|
    && w.pages[pid].phy == OldLoc(l2p, o)
    && (o.offset == -1 ==>
      && IsNode(w.pages[pid].data) && w.pages[pid].data.nid == o.nid
      && (w.cache[o.nid] == pid || (w.cache[o.nid] == -1 && w.table[o.nid] == InUse)))
    && (o.offset != -1 ==>
      && 0 <= o.offset && w.pages[pid].data.Data?
      && (forall n :: 0 <= n < |w.cache| ==> w.cache[n] != pid)
      && w.cache[o.nid] >= 0)
  }

  /** The block of page `pid` was written; the forward map still has to learn its new place. */
  ghost predicate BlockWritten(B: nat, w: World, w': World, l2p: map<Summary, Loc>, pid: int, o: Summary, dirty: bool)
    requires Inv(B, w, l2p, None) && PageReady(w, l2p, pid, o)
  {
    var t := OwnerTemp(o);
    && w.st.cur[t].segNo != -1
    && WritableNow(B, w, l2p, pid, o)
    && Written(B, w.st, l2p, t, o, w.pages[pid].data, w'.st)
    && w'.table == w.table && w'.cache == w.cache
    && w'.pages == w.pages[pid := w.pages[pid].(phy := Some(Target(w.st, t)), dirty := dirty)]
  }

  ghost predicate WritableNow(B: nat, w: World, l2p: map<Summary, Loc>, pid: int, o: Summary) {
    pid in w.pages && Writable(B, w.st, l2p, OwnerTemp(o), o, w.pages[pid].data)
  }

  lemma ReadyWritable(B: nat, w: World, l2p: map<Summary, Loc>, pid: int, o: Summary)
    requires Inv(B, w, l2p, None) && PageReady(w, l2p, pid, o)
    ensures OwnerTemp(o) < |w.st.cur|
    ensures w.st.cur[OwnerTemp(o)].segNo != -1 ==> WritableNow(B, w, l2p, pid, o)
  {
  }

  /** Where the others live, and what is there, is not affected by the write. */
  lemma OthersStay(B: nat, w: World, w': World, l2p: map<Summary, Loc>, pid: int, o: Summary, dirty: bool)
    requires Inv(B, w, l2p, None) && PageReady(w, l2p, pid, o) && BlockWritten(B, w, w', l2p, pid, o, dirty)
    ensures forall p :: p in l2p ==> l2p[p] in w.st.disk && l2p[p] in w'.st.disk && w'.st.disk[l2p[p]] == w.st.disk[l2p[p]]
    ensures forall n :: 0 <= n < |w.table| && w.table[n].At? ==> Summary(n, -1) in l2p && l2p[Summary(n, -1)] == w.table[n].loc
  {
    forall p | p in l2p
      ensures l2p[p] in w.st.disk && l2p[p] in w'.st.disk && w'.st.disk[l2p[p]] == w.st.disk[l2p[p]]
    {
      assert IsValid(w.st, l2p[p]);
    }
    forall n | 0 <= n < |w.table| && w.table[n].At?
      ensures Summary(n, -1) in l2p && l2p[Summary(n, -1)] == w.table[n].loc
    {
      assert OldLoc(l2p, Summary(n, -1)) == Fwd(w, Summary(n, -1));
    }
  }

  lemma WriteNodeBlocks(B: nat, w: World, w': World, l2p: map<Summary, Loc>, pid: int, o: Summary, dirty: bool)
    requires Inv(B, w, l2p, None) && PageReady(w, l2p, pid, o) && BlockWritten(B, w, w', l2p, pid, o, dirty)
    ensures forall n :: NodeBlock(w', n) == NodeBlock(w, n)
  {
    hide SegInv, Roomy, Linked, Written, WritableNow;
    OthersStay(B, w, w', l2p, pid, o, dirty);
  }

  /** A block write leaves everything else readable as before; the reverse map is ahead of the
      forward map at `o` only. */
  lemma WriteKeeps(B: nat, w: World, w': World, l2p: map<Summary, Loc>, pid: int, o: Summary, dirty: bool)
    requires Inv(B, w, l2p, None) && PageReady(w, l2p, pid, o) && BlockWritten(B, w, w', l2p, pid, o, dirty)
    ensures Inv(B, w', l2p[o := Target(w.st, OwnerTemp(o))], Some(o))
    ensures SameExcept(w, w', o)
    ensures o.offset == -1 ==> Reads(w', o) == Reads(w, o)
  {
    WriteNodeBlocks(B, w, w', l2p, pid, o, dirty);
    WriteKeepsNodes(B, w, w', l2p, pid, o, dirty);
    WriteKeepsView(B, w, w', l2p, pid, o, dirty);
    WriteKeepsSegs(B, w, w', l2p, pid, o, dirty);
  }

  lemma WriteKeepsSegs(B: nat, w: World, w': World, l2p: map<Summary, Loc>, pid: int, o: Summary, dirty: bool)
    requires Inv(B, w, l2p, None) && PageReady(w, l2p, pid, o) && BlockWritten(B, w, w', l2p, pid, o, dirty)
    ensures SegInv(B, w'.st) && Roomy(B, w'.st) && Linked(w'.st, l2p[o := Target(w.st, OwnerTemp(o))])
  {
    hide Linked, NodesOk, Viewed, Counted, Queued, Partitioned, Currents, Pure;
    assert forall t :: 0 <= t < |w'.st.cur| && t != OwnerTemp(o) ==> w'.st.cur[t] == w.st.cur[t];
  }

  lemma WriteKeepsNodes(B: nat, w: World, w': World, l2p: map<Summary, Loc>, pid: int, o: Summary, dirty: bool)
    requires Inv(B, w, l2p, None) && PageReady(w, l2p, pid, o) && BlockWritten(B, w, w', l2p, pid, o, dirty)
    ensures NodesOk(w', Some(o))
  {
    hide SegInv, Roomy, Linked, Written, WritableNow, Viewed;
    OthersStay(B, w, w', l2p, pid, o, dirty);
    forall n | 0 <= n < |w'.table| ensures NodeOk(w', n, Some(o)) {
      assert NodeOk(w, n, None);
    }
  }

  lemma WriteKeepsView(B: nat, w: World, w': World, l2p: map<Summary, Loc>, pid: int, o: Summary, dirty: bool)
    requires Inv(B, w, l2p, None) && PageReady(w, l2p, pid, o) && BlockWritten(B, w, w', l2p, pid, o, dirty)
    requires forall n :: NodeBlock(w', n) == NodeBlock(w, n)
    ensures Viewed(w', l2p[o := Target(w.st, OwnerTemp(o))], Some(o))
    ensures SameExcept(w, w', o)
    ensures o.offset == -1 ==> Reads(w', o) == Reads(w, o)
  {
    hide SegInv, Roomy, Linked, Written, WritableNow, NodesOk;
    OthersStay(B, w, w', l2p, pid, o, dirty);
    assert forall p :: Fwd(w', p) == Fwd(w, p);
    forall p | p != o ensures Reads(w', p) == Reads(w, p) {
      assert OldLoc(l2p, p) == Fwd(w, p);
    }
  }

  // The facts a block write needs before, between and after its steps.

  ghost predicate Placing(B: nat, w: World, l2p: map<Summary, Loc>, pid: int, o: Summary) {
    && Inv(B, w, l2p, None) && PageReady(w, l2p, pid, o)
    && OwnerTemp(o) < |w.st.cur| && w.st.cur[OwnerTemp(o)].segNo != -1
  }

  lemma PlaceStart(B: nat, w: World, l2p: map<Summary, Loc>, pid: int, o: Summary)
    requires Placing(B, w, l2p, pid, o)
    ensures pid in w.pages && w.pages[pid].nid == o.nid && w.pages[pid].offset == o.offset
    ensures 0 <= w.st.cur[OwnerTemp(o)].segNo
    ensures SegInv(B, w.st) && Enabled(B, w.st, Put(OwnerTemp(o), o, w.pages[pid].data))
    ensures w.pages[pid].phy.Some? ==>
              Enabled(B, DoPut(w.st, OwnerTemp(o), o, w.pages[pid].data), Invalidate(w.pages[pid].phy.value))
  {
    ReadyWritable(B, w, l2p, pid, o);
    PutLinked(B, w.st, l2p, OwnerTemp(o), o, w.pages[pid].data);
  }

  lemma PlaceMiddle(B: nat, w: World, st2: State, l2p: map<Summary, Loc>, pid: int, o: Summary)
    requires Placing(B, w, l2p, pid, o)
    requires pid in w.pages && Enabled(B, w.st, Put(OwnerTemp(o), o, w.pages[pid].data))
    requires var st1 := DoPut(w.st, OwnerTemp(o), o, w.pages[pid].data);
             && (w.pages[pid].phy.Some? ==> Enabled(B, st1, Invalidate(w.pages[pid].phy.value)))
             && st2 == if w.pages[pid].phy.Some? then DoInvalidate(st1, w.pages[pid].phy.value) else st1
    ensures Writable(B, w.st, l2p, OwnerTemp(o), o, w.pages[pid].data)
    ensures st2 == AfterInvalidate(B, w.st, l2p, OwnerTemp(o), o, w.pages[pid].data)
    ensures OwnerTemp(o) < |st2.cur| && (st2.cur[OwnerTemp(o)].off >= B ==> Enabled(B, st2, Close(OwnerTemp(o))))
  {
    hide Linked, NodesOk, Viewed, Counted, Queued, Partitioned, Currents, Pure;
    ReadyWritable(B, w, l2p, pid, o);
    WriteClose(B, w.st, l2p, OwnerTemp(o), o, w.pages[pid].data);
    AfterInvalidateInv(B, w.st, l2p, OwnerTemp(o), o, w.pages[pid].data);
  }

  lemma PlaceEnd(B: nat, w: World, w': World, l2p: map<Summary, Loc>, pid: int, o: Summary, dirty: bool)
    requires Placing(B, w, l2p, pid, o)
    requires pid in w.pages && Writable(B, w.st, l2p, OwnerTemp(o), o, w.pages[pid].data)
    requires OwnerTemp(o) < |AfterInvalidate(B, w.st, l2p, OwnerTemp(o), o, w.pages[pid].data).cur|
    requires w'.st == WriteTail(B, AfterInvalidate(B, w.st, l2p, OwnerTemp(o), o, w.pages[pid].data), OwnerTemp(o))
    requires w'.table == w.table && w'.cache == w.cache
    requires w'.pages == w.pages[pid := w.pages[pid].(phy := Some(Target(w.st, OwnerTemp(o))), dirty := dirty)]
    ensures BlockWritten(B, w, w', l2p, pid, o, dirty)
    ensures Inv(B, w', l2p[o := Target(w.st, OwnerTemp(o))], Some(o))
    ensures SameExcept(w, w', o)
    ensures o.offset == -1 ==> SameContents(w, w')
  {
    hide Written, Inv, SameExcept, SameContents;
    WriteDoes(B, w.st, l2p, OwnerTemp(o), o, w.pages[pid].data);
    WriteKeeps(B, w, w', l2p, pid, o, dirty);
    if o.offset == -1 {
      SameFromExcept(w, w', o);
    }
  }

  // ----- Telling the forward map -----

  /** The dirty mark of a node whose new place the table does not know yet is of no consequence. */
  lemma MarkClean(B: nat, w: World, w': World, l2p: map<Summary, Loc>, nid: nat)
    requires Inv(B, w, l2p, Some(Summary(nid, -1))) && nid < |w.cache| && w.cache[nid] >= 0 && w.cache[nid] in w.pages
    requires w' == w.(pages := w.pages[w.cache[nid] := w.pages[w.cache[nid]].(dirty := false)])
    ensures Inv(B, w', l2p, Some(Summary(nid, -1))) && SameContents(w, w')
  {
    hide SegInv, Roomy, Linked;
    var x := Some(Summary(nid, -1));
    assert NodeOk(w, nid, x);
    assert forall n :: NodeBlock(w', n) == NodeBlock(w, n);
    assert forall o :: Fwd(w', o) == Fwd(w, o);
    forall n | 0 <= n < |w'.table| ensures NodeOk(w', n, x) {
      assert NodeOk(w, n, x);
    }
  }

  lemma SetNatKeeps(B: nat, w: World, w': World, l2p: map<Summary, Loc>, nid: nat)
    requires Inv(B, w, l2p, Some(Summary(nid, -1))) && nid < |w.table| && Summary(nid, -1) in l2p
    requires w' == w.(table := w.table[nid := At(l2p[Summary(nid, -1)])])
    requires |w.table| == |w.cache| && (w.cache[nid] >= 0 ==> w.cache[nid] in w.pages && w.pages[w.cache[nid]].phy == Some(l2p[Summary(nid, -1)]))
    requires l2p[Summary(nid, -1)] in w.st.disk && w.st.disk[l2p[Summary(nid, -1)]].Data? == false
    requires w.st.disk[l2p[Summary(nid, -1)]].nid == nid
    requires w.cache[nid] < 0 ==> !w.st.disk[l2p[Summary(nid, -1)]].Index?
    requires w.cache[nid] >= 0 ==> w.pages[w.cache[nid]].dirty || w.pages[w.cache[nid]].data == w.st.disk[l2p[Summary(nid, -1)]]
    ensures Inv(B, w', l2p, None)
    ensures SameExcept(w, w', Summary(nid, -1))
    ensures w.cache[nid] >= 0 ==> SameContents(w, w')
  {
    hide SegInv, Roomy, Linked;
    var o := Summary(nid, -1);
    assert forall n :: n != nid || w.cache[nid] >= 0 ==> NodeBlock(w', n) == NodeBlock(w, n);
    forall n | 0 <= n < |w'.table| ensures NodeOk(w', n, None) {
      assert NodeOk(w, n, Some(o));
    }
    assert NodeOk(w, nid, Some(o));
    forall p ensures OldLoc(l2p, p) == Fwd(w', p) && (p != o ==> Reads(w', p) == Reads(w, p)) {
      if p == o {
      } else if p.nid == nid && w.cache[nid] < 0 {
        assert Fwd(w, p) == None && Fwd(w', p) == None;
      } else {
        assert Fwd(w', p) == Fwd(w, p);
      }
    }
  }

  function SetPtr(b: Block, off: nat, ptr: Option<Loc>): Block
    requires b.Index? && off < |b.ptrs|
  {
    b.(ptrs := b.ptrs[off := ptr])
  }

  /** Pointer `off` of the cached index node `nid` now says `ptr`. */
  ghost predicate PtrSet(w: World, w': World, nid: nat, off: nat, ptr: Option<Loc>) {
    && nid < |w.table| == |w.cache| && w.cache[nid] >= 0 && w.cache[nid] in w.pages
    && var p := w.pages[w.cache[nid]];
      && p.data.Index? && off < |p.data.ptrs|
      && w' == w.(pages := w.pages[w.cache[nid] := p.(data := SetPtr(p.data, off, ptr), dirty := true)])
  }

  lemma SetPtrKeeps(B: nat, w: World, w': World, l2p: map<Summary, Loc>, nid: nat, off: nat)
    requires Inv(B, w, l2p, Some(Summary(nid, off)))
    requires PtrSet(w, w', nid, off, OldLoc(l2p, Summary(nid, off)))
    ensures Inv(B, w', l2p, None)
    ensures SameExcept(w, w', Summary(nid, off))
    ensures Reads(w', Summary(nid, off)) == match OldLoc(l2p, Summary(nid, off))
                                            case Some(loc) => if loc in w.st.disk then Some(w.st.disk[loc]) else None
                                            case None => None
  {
    hide SegInv, Roomy, Linked;
    var o := Summary(nid, off);
    forall n | 0 <= n < |w'.table| ensures NodeOk(w', n, None) {
      assert NodeOk(w, n, Some(o));
      assert NodeOk(w, nid, Some(o));
    }
    forall n | n != nid ensures NodeBlock(w', n) == NodeBlock(w, n) {
      if 0 <= n < |w.table| {
        assert NodeOk(w, n, Some(o)) && NodeOk(w, nid, Some(o));
      }
    }
    forall p ensures OldLoc(l2p, p) == Fwd(w', p) && (p != o ==> Reads(w', p) == Reads(w, p)) {
      if p == o {
      } else {
        assert Fwd(w', p) == Fwd(w, p);
        if p.offset == -1 && p.nid == nid {
          var b := w.pages[w.cache[nid]].data;
          assert Erase(b) == Erase(SetPtr(b, off, OldLoc(l2p, o)));
        }
      }
    }
  }

  // ----- Allocating a segment, dropping a block -----

  lemma AllocKeepsWorld(B: nat, w: World, l2p: map<Summary, Loc>, t: nat)
    requires Inv(B, w, l2p, None) && Enabled(B, w.st, Alloc(t)) && 0 < B
    ensures Inv(B, w.(st := DoAlloc(B, w.st, t)), l2p, None)
    ensures Roomy(B, DoAlloc(B, w.st, t))
    ensures SameContents(w, w.(st := DoAlloc(B, w.st, t)))
  {
    var w' := w.(st := DoAlloc(B, w.st, t));
    AllocKeeps(B, w.st, t);
    AllocLinked(B, w.st, l2p, t);
    AllocSees(w, w', l2p);
  }

  lemma AllocSees(w: World, w': World, l2p: map<Summary, Loc>)
    requires w' == w.(st := w'.st) && w'.st.disk == w.st.disk
    requires NodesOk(w, None) && Viewed(w, l2p, None)
    ensures NodesOk(w', None) && Viewed(w', l2p, None) && SameContents(w, w')
  {
    assert forall n :: NodeBlock(w', n) == NodeBlock(w, n);
    assert forall o :: Fwd(w', o) == Fwd(w, o);
    forall n | 0 <= n < |w'.table| ensures NodeOk(w', n, None) {
      assert NodeOk(w, n, None);
    }
  }

  lemma AllocLinked(B: nat, st: State, l2p: map<Summary, Loc>, t: nat)
    requires SegInv(B, st) && Linked(st, l2p) && Enabled(B, st, Alloc(t))
    ensures Linked(DoAlloc(B, st, t), l2p)
  {
    var st' := DoAlloc(B, st, t);
    var s := st.queue[0];
    assert s in st.queue;
    PopCountBounds(st.segs[s].valid);
    assert forall loc :: IsValid(st, loc) ==> loc.seg != s;
    assert forall loc :: IsValid(st', loc) <==> IsValid(st, loc);
    assert forall loc: Loc :: loc.seg != s ==> OwnerAt(st', loc) == OwnerAt(st, loc);
  }

  /** Dropping the block of `o`: the forward map is behind at `o` only. */
  lemma DropKeeps(B: nat, w: World, l2p: map<Summary, Loc>, o: Summary)
    requires Inv(B, w, l2p, None) && o in l2p && Enabled(B, w.st, Invalidate(l2p[o])) && o.offset != -1
    ensures Inv(B, w.(st := DoInvalidate(w.st, l2p[o])), l2p - {o}, Some(o))
    ensures SameExcept(w, w.(st := DoInvalidate(w.st, l2p[o])), o)
  {
    var st' := DoInvalidate(w.st, l2p[o]);
    var w' := w.(st := st');
    InvalidateKeeps(B, w.st, l2p[o]);
    InvalidateValid(w.st, l2p[o]);
    DropSees(w, w', l2p, o);
  }

  lemma DropSees(w: World, w': World, l2p: map<Summary, Loc>, o: Summary)
    requires w' == w.(st := w'.st) && w'.st.disk == w.st.disk && o.offset != -1
    requires NodesOk(w, None) && Viewed(w, l2p, None)
    ensures NodesOk(w', Some(o)) && Viewed(w', l2p - {o}, Some(o)) && SameContents(w, w')
  {
    assert forall n :: NodeBlock(w', n) == NodeBlock(w, n);
    assert forall p :: Fwd(w', p) == Fwd(w, p);
    forall n | 0 <= n < |w'.table| ensures NodeOk(w', n, Some(o)) {
      assert NodeOk(w, n, None);
    }
  }

  // ----- One block moved by the garbage collector -----

  /** The log once temperature `t` has a current segment. */
  function Opened(B: nat, st: State, t: nat): State {
    if t < |st.cur| && st.cur[t].segNo == -1 && 0 < |st.queue| && st.queue[0] < |st.segs|
    then DoAlloc(B, st, t) else st
  }

  /** 1 when writing at temperature `t` has to allocate a segment first. */
  function Needs(st: State, t: nat): nat {
    if CurOf(st, t) == -1 then 1 else 0
  }

  /** Free slots of the current segment of a temperature. */
  function Room(B: nat, st: State, t: nat): int {
    if CurOf(st, t) == -1 then 0 else B - st.cur[t].off
  }

  ghost predicate MoveStep(B: nat, st: State, l2p: map<Summary, Loc>, o: Summary, block: Block, st': State) {
    var t := OwnerTemp(o);
    var mid := Opened(B, st, t);
    && t < |mid.cur| && mid.cur[t].segNo != -1
    && Writable(B, mid, l2p, t, o, block)
    && Written(B, mid, l2p, t, o, block, st')
  }

  /** No write of the collector touches this segment unless it is the victim. */
  predicate Untouched(st: State, s: nat) {
    s < |st.segs| && st.segs[s].temp != TEMP_NR && forall t :: 0 <= t < |st.cur| ==> st.cur[t].segNo != s
  }

  predicate NotCurrent(st: State, s: nat) {
    forall t :: 0 <= t < |st.cur| ==> st.cur[t].segNo != s
  }

  /** The current segment of temperature `t`, if any, holds a valid block. */
  predicate Filled(st: State, t: nat) {
    CurOf(st, t) == -1 || (0 <= CurOf(st, t) < |st.segs| && st.segs[CurOf(st, t)].validNr > 0)
  }

  lemma OpenedFacts(B: nat, st: State, t: nat)
    requires SegInv(B, st) && t < TEMP_NR
    ensures var mid := Opened(B, st, t);
            && |mid.segs| == |st.segs| && |mid.cur| == |st.cur| && mid.used == st.used && mid.disk == st.disk
            && (forall u: nat :: u != t ==> CurOf(mid, u) == CurOf(st, u) && (u < |st.cur| ==> mid.cur[u] == st.cur[u]))
            && (CurOf(mid, t) != -1 ==> |mid.queue| + Needs(st, t) == |st.queue|)
            && (CurOf(mid, t) != -1 ==> Room(B, mid, t) == Room(B, st, t) + B * Needs(st, t))
            && (forall u: nat :: u != t && Filled(st, u) ==> Filled(mid, u))
            && (forall u: nat :: u != t ==> Room(B, mid, u) == Room(B, st, u))
            && (forall s: nat :: Untouched(st, s) ==> Untouched(mid, s) && mid.segs[s] == st.segs[s])
  {
    if st.cur[t].segNo == -1 && 0 < |st.queue| {
      assert st.queue[0] in st.queue;
      var mid := Opened(B, st, t);
      forall u: nat | u != t && Filled(st, u) ensures Filled(mid, u) {
        if CurOf(st, u) != -1 {
          assert st.segs[CurOf(st, u)].temp == u && u < TEMP_NR;
        }
      }
    }
  }

  /** What moving one block of segment `src`, at temperature `t`, does to the log. */
  ghost predicate Moved(B: nat, st: State, st': State, src: nat, t: nat) {
    && |st'.segs| == |st.segs| && src < |st.segs| && |st'.cur| == |st.cur| && st'.used == st.used
    && (forall s: nat :: s != src && Untouched(st, s) ==> Untouched(st', s) && st'.segs[s] == st.segs[s])
    && NotCurrent(st', src)
    && st.segs[src].temp == t && 1 <= st.segs[src].validNr
    && Room(B, st', t) + 1 == Room(B, st, t) + B * Needs(st, t)
    && (forall u: nat :: u != t ==> Room(B, st', u) == Room(B, st, u))
    && (st.segs[src].validNr == 1 ==> src in st'.queue && |st'.queue| + Needs(st, t) == |st.queue| + 1)
    && (st.segs[src].validNr > 1 ==>
      && Untouched(st', src) && st'.segs[src].temp == t
      && st'.segs[src].validNr + 1 == st.segs[src].validNr
      && |st'.queue| + Needs(st, t) == |st.queue|)
    && (forall u: nat :: Filled(st, u) ==> Filled(st', u))
  }

  lemma MoveEffect(B: nat, st: State, l2p: map<Summary, Loc>, o: Summary, block: Block, st': State, src: nat)
    requires 0 < B && SegInv(B, st) && Linked(st, l2p)
    requires o in l2p && l2p[o].seg == src && Untouched(st, src)
    requires MoveStep(B, st, l2p, o, block, st')
    ensures Moved(B, st, st', src, OwnerTemp(o))
    ensures forall b: nat :: IsValid(st', Loc(src, b)) <==> IsValid(st, Loc(src, b)) && Loc(src, b) != l2p[o]
    ensures forall b: nat :: IsValid(st', Loc(src, b)) ==> OwnerAt(st', Loc(src, b)) == OwnerAt(st, Loc(src, b))
  {
    hide SegInv, Linked, Writable, Written, Opened, Room, Needs, Filled, IsValid, OwnerAt, Untouched;
    var t := OwnerTemp(o);
    var mid := Opened(B, st, t);
    MoveStart(B, st, l2p, o, src);
    OpenedFacts(B, st, t);
    MoveFinish(B, mid, l2p, o, block, st', src);
    MoveValid(B, st, mid, l2p, o, block, st', src);
  }

  lemma MoveValid(B: nat, st: State, mid: State, l2p: map<Summary, Loc>, o: Summary, block: Block, st': State, src: nat)
    requires Linked(st, l2p) && o in l2p && l2p[o].seg == src
    requires Untouched(st, src) && src < |mid.segs| && mid.segs[src] == st.segs[src]
    requires Writable(B, mid, l2p, OwnerTemp(o), o, block)
    requires Written(B, mid, l2p, OwnerTemp(o), o, block, st')
    requires Target(mid, OwnerTemp(o)).seg != src
    ensures forall b: nat :: IsValid(st', Loc(src, b)) <==> IsValid(st, Loc(src, b)) && Loc(src, b) != l2p[o]
    ensures forall b: nat :: IsValid(st', Loc(src, b)) ==> OwnerAt(st', Loc(src, b)) == OwnerAt(st, Loc(src, b))
  {
    hide Linked, Counted, Queued, Partitioned, Currents, Pure;
    MoveOwners(st, mid, l2p, o, st', Target(mid, OwnerTemp(o)), src);
  }

  lemma MoveStart(B: nat, st: State, l2p: map<Summary, Loc>, o: Summary, src: nat)
    requires SegInv(B, st) && Linked(st, l2p)
    requires o in l2p && l2p[o].seg == src && Untouched(st, src)
    ensures src < |st.segs| && st.segs[src].temp == OwnerTemp(o) && 1 <= st.segs[src].validNr
    ensures var mid := Opened(B, st, OwnerTemp(o));
            Untouched(mid, src) && mid.segs[src] == st.segs[src] && |mid.segs| == |st.segs|
  {
    assert IsValid(st, l2p[o]);
    ValidCounts(B, st, l2p[o]);
    OpenedFacts(B, st, OwnerTemp(o));
  }

  lemma MoveFinish(B: nat, mid: State, l2p: map<Summary, Loc>, o: Summary, block: Block, st': State, src: nat)
    requires o in l2p && l2p[o].seg == src && Untouched(mid, src)
    requires Writable(B, mid, l2p, OwnerTemp(o), o, block)
    requires Written(B, mid, l2p, OwnerTemp(o), o, block, st')
    ensures |st'.segs| == |mid.segs| && st'.used == mid.used
    ensures forall s: nat :: s != src && Untouched(mid, s) ==> Untouched(st', s) && st'.segs[s] == mid.segs[s]
    ensures NotCurrent(st', src) && Target(mid, OwnerTemp(o)).seg != src
    ensures |st'.cur| == |mid.cur|
    ensures forall u: nat :: u != OwnerTemp(o) ==> Room(B, st', u) == Room(B, mid, u)
    ensures Room(B, st', OwnerTemp(o)) + 1 == Room(B, mid, OwnerTemp(o))
    ensures 1 <= mid.segs[src].validNr
    ensures mid.segs[src].validNr == 1 ==> src in st'.queue && |st'.queue| == |mid.queue| + 1
    ensures mid.segs[src].validNr > 1 ==>
              && Untouched(st', src) && st'.segs[src].temp == mid.segs[src].temp
              && st'.segs[src].validNr + 1 == mid.segs[src].validNr
              && |st'.queue| == |mid.queue|
    ensures forall t: nat :: t == OwnerTemp(o) || Filled(mid, t) ==> Filled(st', t)
  {
    hide SegInv, Linked;
    WrittenCur(B, mid, l2p, o, block, st');
  }

  lemma WrittenCur(B: nat, mid: State, l2p: map<Summary, Loc>, o: Summary, block: Block, st': State)
    requires Writable(B, mid, l2p, OwnerTemp(o), o, block)
    requires Written(B, mid, l2p, OwnerTemp(o), o, block, st')
    ensures |st'.cur| == |mid.cur|
    ensures forall u :: 0 <= u < |mid.cur| && u != OwnerTemp(o) ==> st'.cur[u] == mid.cur[u]
    ensures st'.cur[OwnerTemp(o)].segNo == -1 || st'.cur[OwnerTemp(o)].segNo == mid.cur[OwnerTemp(o)].segNo
    ensures Room(B, st', OwnerTemp(o)) + 1 == Room(B, mid, OwnerTemp(o))
  {
    hide Linked, Counted, Queued, Partitioned, Currents, Pure, SegsWritten;
  }

  lemma MoveOwners(st: State, mid: State, l2p: map<Summary, Loc>, o: Summary, st': State, L: Loc, src: nat)
    requires Linked(st, l2p) && Linked(st', l2p[o := L]) && o in l2p && l2p[o].seg == src && L.seg != src
    requires Untouched(st, src) && src < |mid.segs| && mid.segs[src] == st.segs[src]
    requires forall loc :: IsValid(st', loc) <==> (IsValid(mid, loc) && OldLoc(l2p, o) != Some(loc)) || loc == L
    ensures forall b: nat :: IsValid(st', Loc(src, b)) <==> IsValid(st, Loc(src, b)) && Loc(src, b) != l2p[o]
    ensures forall b: nat :: IsValid(st', Loc(src, b)) ==> OwnerAt(st', Loc(src, b)) == OwnerAt(st, Loc(src, b))
  {
    forall b: nat ensures IsValid(mid, Loc(src, b)) <==> IsValid(st, Loc(src, b)) {
    }
    forall b: nat | IsValid(st', Loc(src, b)) ensures OwnerAt(st', Loc(src, b)) == OwnerAt(st, Loc(src, b)) {
      var p := OwnerAt(st', Loc(src, b));
      assert l2p[o := L][p] == Loc(src, b);
      assert p != o && l2p[p] == Loc(src, b);
    }
  }

  lemma GcWriteStart(B: nat, w: World, l2p: map<Summary, Loc>, pid: int, o: Summary)
    requires Inv(B, w, l2p, None) && PageReady(w, l2p, pid, o)
    ensures OwnerTemp(o) < |w.st.cur|
    ensures w.st.cur[OwnerTemp(o)].segNo == -1 && w.st.queue != [] ==> Enabled(B, w.st, Alloc(OwnerTemp(o)))
    ensures w.st.cur[OwnerTemp(o)].segNo == -1 && w.st.queue != [] ==>
              Opened(B, w.st, OwnerTemp(o)) == DoAlloc(B, w.st, OwnerTemp(o))
    ensures w.st.cur[OwnerTemp(o)].segNo != -1 ==> Opened(B, w.st, OwnerTemp(o)) == w.st
  {
    hide Linked, NodesOk, Viewed, Counted, Partitioned, Currents, Pure;
    if w.st.queue != [] {
      assert w.st.queue[0] in w.st.queue;
    }
  }

  lemma ReadyAfterAlloc(w: World, w': World, l2p: map<Summary, Loc>, pid: int, o: Summary)
    requires PageReady(w, l2p, pid, o) && w' == w.(st := w'.st)
    ensures PageReady(w', l2p, pid, o)
  {
  }

  lemma GcWriteEnd(B: nat, w: World, mid: World, w': World, l2p: map<Summary, Loc>, pid: int, o: Summary, dirty: bool)
    requires mid == w.(st := Opened(B, w.st, OwnerTemp(o))) && SameContents(w, mid)
    requires Inv(B, mid, l2p, None) && PageReady(mid, l2p, pid, o) && BlockWritten(B, mid, w', l2p, pid, o, dirty)
    requires SameExcept(mid, w', o)
    ensures MoveStep(B, w.st, l2p, o, mid.pages[pid].data, w'.st)
    ensures w'.st.disk == mid.st.disk[Target(mid.st, OwnerTemp(o)) := mid.pages[pid].data]
    ensures SameExcept(w, w', o)
    ensures SameContents(mid, w') ==> SameContents(w, w')
  {
    hide PageReady, Linked, NodesOk, Viewed, Counted, Queued, Partitioned, Currents, Pure, SegsWritten;
  }

  // ----- The owner of a block the collector meets -----

  /** A valid block of the log: its owner is a node whose table entry, or an index node whose
      pointer, leads exactly here, so neither mismatch error can fire. */
  lemma OwnerLeadsHere(B: nat, w: World, l2p: map<Summary, Loc>, loc: Loc)
    requires Inv(B, w, l2p, None) && IsValid(w.st, loc)
    ensures var o := OwnerAt(w.st, loc);
            && o in l2p && l2p[o] == loc && Fwd(w, o) == Some(loc)
            && 0 <= o.nid < |w.table| == |w.cache| && NodeBlock(w, o.nid).Some? && -1 <= o.offset
            && loc in w.st.disk
            && (o.offset == -1 ==> w.table[o.nid] == At(loc))
            && (o.offset != -1 ==>
              && NodeBlock(w, o.nid).value.Index? && o.offset < |NodeBlock(w, o.nid).value.ptrs|
              && NodeBlock(w, o.nid).value.ptrs[o.offset] == Some(loc)
              && w.st.disk[loc].Data?)
  {
    hide SegInv, Roomy, NodeBlock;
    var o := OwnerAt(w.st, loc);
    assert OldLoc(l2p, o) == Fwd(w, o);
    OwnerKind(B, w.st, loc);
    if o.offset == -1 {
      assert NodeOk(w, o.nid, None);
      NodeThere(w, o.nid);
    } else {
      NodeRange(w, o.nid);
    }
  }

  lemma OwnerKind(B: nat, st: State, loc: Loc)
    requires SegInv(B, st) && IsValid(st, loc)
    ensures loc in st.disk && (OwnerAt(st, loc).offset < 0 || st.disk[loc].Data?)
  {
  }

  lemma NodeRange(w: World, nid: int)
    requires NodeBlock(w, nid).Some?
    ensures 0 <= nid < |w.table| && nid < |w.cache|
  {
  }

  lemma NodeThere(w: World, nid: nat)
    requires nid < |w.table| == |w.cache| && NodeOk(w, nid, None) && w.table[nid].At?
    ensures NodeBlock(w, nid).Some?
  {
  }

  /** The page of a cached node is ready to be written. */
  lemma CachedReady(B: nat, w: World, l2p: map<Summary, Loc>, nid: nat)
    requires Inv(B, w, l2p, None) && nid < |w.table| && w.cache[nid] >= 0
    ensures w.cache[nid] in w.pages
    ensures w.pages[w.cache[nid]].nid == nid && w.pages[w.cache[nid]].offset == -1
    ensures IsNode(w.pages[w.cache[nid]].data) && w.pages[w.cache[nid]].data.nid == nid
    ensures PageReady(w, l2p, w.cache[nid], Summary(nid, -1))
  {
    hide SegInv, Linked, Roomy;
    assert NodeOk(w, nid, None);
    assert OldLoc(l2p, Summary(nid, -1)) == Fwd(w, Summary(nid, -1));
  }

  /** A page that is not in the node cache may be added freely. */
  lemma AddPage(B: nat, w: World, w': World, l2p: map<Summary, Loc>, pid: int, page: Page)
    requires Inv(B, w, l2p, None) && pid !in w.pages && w' == w.(pages := w.pages[pid := page])
    ensures Inv(B, w', l2p, None) && SameContents(w, w')
    ensures forall n :: 0 <= n < |w.cache| ==> w.cache[n] < 0 || w.cache[n] != pid
  {
    hide SegInv, Linked, Roomy;
    forall n | 0 <= n < |w.table|
      ensures w.cache[n] < 0 || w.cache[n] != pid
      ensures NodeOk(w', n, None)
    {
      assert NodeOk(w, n, None);
    }
    assert forall n :: NodeBlock(w', n) == NodeBlock(w, n);
    assert forall o :: Fwd(w', o) == Fwd(w, o);
  }

  lemma ExceptTrans(w: World, w': World, w'': World, x: Summary)
    requires SameExcept(w, w', x) && SameExcept(w', w'', x)
    ensures SameExcept(w, w'', x)
  {
  }

  lemma ExceptSame(w: World, w': World, x: Summary)
    requires SameContents(w, w')
    ensures SameExcept(w, w', x)
  {
  }

  lemma ViewedAt(w: World, l2p: map<Summary, Loc>, o: Summary)
    requires Viewed(w, l2p, None)
    ensures OldLoc(l2p, o) == Fwd(w, o)
  {
  }

  /** Of the segment of `org` only `org` is gone. */
  ghost predicate Unmapped(st: State, st': State, org: Loc) {
    && (forall b: nat :: IsValid(st', Loc(org.seg, b)) <==> IsValid(st, Loc(org.seg, b)) && Loc(org.seg, b) != org)
    && (forall b: nat :: IsValid(st', Loc(org.seg, b)) ==> OwnerAt(st', Loc(org.seg, b)) == OwnerAt(st, Loc(org.seg, b)))
  }

  lemma ReadsAt(w: World, o: Summary, loc: Loc)
    requires o.offset != -1 && Fwd(w, o) == Some(loc) && loc in w.st.disk
    ensures Reads(w, o) == Some(w.st.disk[loc])
  {
  }

  /** A data page that was just read from the block of its owner is ready to be written back. */
  lemma DataReady(w: World, l2p: map<Summary, Loc>, pid: int, o: Summary)
    requires 0 <= pid && pid in w.pages && w.pages[pid].nid == o.nid && w.pages[pid].offset == o.offset
    requires 0 <= o.offset && w.pages[pid].data.Data? && w.pages[pid].phy == OldLoc(l2p, o)
    requires 0 <= o.nid < |w.table| == |w.cache| && w.cache[o.nid] >= 0
    requires forall n :: 0 <= n < |w.cache| ==> w.cache[n] < 0 || w.cache[n] != pid
    ensures PageReady(w, l2p, pid, o)
  {
  }

  // ----- Collecting one segment -----

  /** The victim while it is being collected: `moved` of its blocks have gone, using `a` newly
      allocated segments; of the blocks before `bb` only the cached one is left. */
  ghost predicate Collecting(B: nat, st0: State, st: State, src: nat, cached: Summary, bb: nat, moved: nat, a: nat) {
    && src < |st0.segs| && |st.segs| == |st0.segs| && |st.cur| == |st0.cur| && st.used == st0.used
    && bb <= B && a <= 1
    && (st0.segs[src].validNr > 0 ==> Untouched(st, src) && st.segs[src].temp == st0.segs[src].temp)
    && NotCurrent(st, src)
    && st.segs[src].validNr + moved == st0.segs[src].validNr
    && (moved == 0 ==> st == st0) && (moved > 0 ==> st.segs[src].validNr > 0)
    && (forall b: nat :: bb <= b < B ==> (IsValid(st, Loc(src, b)) <==> IsValid(st0, Loc(src, b))))
    && (forall b: nat :: b < bb && IsValid(st, Loc(src, b)) ==>
      OwnerAt(st, Loc(src, b)) == cached && cached.offset != -1)
    && (forall b: nat :: IsValid(st, Loc(src, b)) ==>
      IsValid(st0, Loc(src, b)) && OwnerAt(st, Loc(src, b)) == OwnerAt(st0, Loc(src, b)))
    && Room(B, st, st0.segs[src].temp) + moved == Room(B, st0, st0.segs[src].temp) + B * a
    && (forall u: nat :: u != st0.segs[src].temp ==> Room(B, st, u) == Room(B, st0, u))
    && |st.queue| + a == |st0.queue|
    && Others(st0, st, src)
  }

  /** Segments the collector does not write to are as they were, and stay out of its way. */
  ghost predicate Others(st0: State, st: State, src: nat) {
    && |st.segs| == |st0.segs|
    && (forall s: nat :: s != src && Untouched(st0, s) ==> Untouched(st, s) && st.segs[s] == st0.segs[s])
    && (forall u: nat :: Filled(st0, u) ==> Filled(st, u))
  }

  /** The victim is done: all its blocks moved and it is free, or only the cached block is left. */
  ghost predicate CollectedSeg(B: nat, st0: State, st: State, src: nat, cached: Summary, moved: nat, a: nat) {
    && src < |st0.segs| && |st.segs| == |st0.segs| && |st.cur| == |st0.cur| && st.used == st0.used
    && a <= 1 && moved <= st0.segs[src].validNr
    && (moved == 0 ==> st == st0)
    && Room(B, st, st0.segs[src].temp) + moved == Room(B, st0, st0.segs[src].temp) + B * a
    && (forall u: nat :: u != st0.segs[src].temp ==> Room(B, st, u) == Room(B, st0, u))
    && |st.queue| + a == |st0.queue| + (if 0 < moved == st0.segs[src].validNr then 1 else 0)
    && (0 < moved == st0.segs[src].validNr ==> src in st.queue)
    && (moved < st0.segs[src].validNr ==>
      && moved + 1 == st0.segs[src].validNr && cached.offset != -1
      && exists b: nat :: IsValid(st0, Loc(src, b)) && OwnerAt(st0, Loc(src, b)) == cached)
    && Others(st0, st, src)
  }

  lemma OthersTrans(st0: State, st: State, st': State, src: nat)
    requires Others(st0, st, src) && Others(st, st', src)
    ensures Others(st0, st', src)
  {
  }

  lemma CollectStart(B: nat, st: State, src: nat, cached: Summary)
    requires src < |st.segs| && NotCurrent(st, src) && SegInv(B, st)
    ensures Collecting(B, st, st, src, cached, 0, 0, 0)
  {
  }

  /** One more slot looked at: not valid, or skipped because it is the cached block. */
  lemma CollectPass(B: nat, st0: State, st: State, src: nat, cached: Summary, bb: nat, moved: nat, a: nat)
    requires Collecting(B, st0, st, src, cached, bb, moved, a) && bb < B
    requires IsValid(st, Loc(src, bb)) ==> OwnerAt(st, Loc(src, bb)) == cached && cached.offset != -1
    ensures Collecting(B, st0, st, src, cached, bb + 1, moved, a)
  {
  }

  /** A write that needs a segment is the first to need one, since a segment holds all the blocks
      of a victim. */
  lemma NeedOnce(B: nat, st0: State, st: State, src: nat, cached: Summary, bb: nat, moved: nat, a: nat)
    requires Collecting(B, st0, st, src, cached, bb, moved, a) && Roomy(B, st0) && Shape(B, st0)
    requires moved < B && Needs(st, st0.segs[src].temp) == 1
    ensures a == 0
  {
    assert Room(B, st0, st0.segs[src].temp) >= 0;
    assert a == 1 ==> B * a == B;
  }

  lemma CollectMove(B: nat, st0: State, st: State, st': State, src: nat, cached: Summary, bb: nat, moved: nat, a: nat, t: nat)
    requires Collecting(B, st0, st, src, cached, bb, moved, a) && bb < B
    requires SegInv(B, st0) && Roomy(B, st0)
    requires IsValid(st, Loc(src, bb)) && Moved(B, st, st', src, t) && Unmapped(st, st', Loc(src, bb))
    ensures t == st0.segs[src].temp && a + Needs(st, t) <= 1
    ensures |st'.segs| == |st.segs| && src < |st.segs| && 1 <= st.segs[src].validNr
    ensures st.segs[src].validNr > 1 ==> st'.segs[src].validNr + 1 == st.segs[src].validNr
    ensures st.segs[src].validNr > 1 ==> Collecting(B, st0, st', src, cached, bb + 1, moved + 1, a + Needs(st, t))
    ensures st.segs[src].validNr == 1 ==> CollectedSeg(B, st0, st', src, cached, moved + 1, a + Needs(st, t))
  {
    hide Room, Filled, Untouched;
    PopCountBounds(st0.segs[src].valid);
    if Needs(st, t) == 1 {
      NeedOnce(B, st0, st, src, cached, bb, moved, a);
    }
    assert B * a + B * Needs(st, t) == B * (a + Needs(st, t));
    assert Others(st, st', src);
    OthersTrans(st0, st, st', src);
  }

  lemma {:induction false} PopCountOne(s: seq<bool>)
    requires forall i, j :: 0 <= i < |s| && 0 <= j < |s| && s[i] && s[j] ==> i == j
    ensures PopCount(s) <= 1
  {
    if s != [] {
      PopCountOne(s[..|s| - 1]);
      if s[|s| - 1] {
        PopCountBounds(s[..|s| - 1]);
      }
    }
  }

  lemma CollectEnd(B: nat, st0: State, st: State, l2p: map<Summary, Loc>, src: nat, cached: Summary, moved: nat, a: nat)
    requires Collecting(B, st0, st, src, cached, B, moved, a)
    requires SegInv(B, st) && Linked(st, l2p)
    ensures CollectedSeg(B, st0, st, src, cached, moved, a)
  {
    hide Room, Filled, Untouched;
    if moved < st0.segs[src].validNr {
      var v := st.segs[src].valid;
      forall i, j | 0 <= i < |v| && 0 <= j < |v| && v[i] && v[j] ensures i == j {
        assert IsValid(st, Loc(src, i)) && IsValid(st, Loc(src, j));
        assert OwnerAt(st, Loc(src, i)) == cached == OwnerAt(st, Loc(src, j));
      }
      PopCountOne(v);
      PopCountBounds(v);
      var b :| 0 <= b < |v| && v[b];
      assert IsValid(st, Loc(src, b));
      CollectCached(B, st0, st, src, cached, moved, a, b);
    }
  }

  lemma CollectCached(B: nat, st0: State, st: State, src: nat, cached: Summary, moved: nat, a: nat, b: nat)
    requires Collecting(B, st0, st, src, cached, B, moved, a) && b < B && IsValid(st, Loc(src, b))
    ensures IsValid(st0, Loc(src, b)) && OwnerAt(st0, Loc(src, b)) == cached
  {
  }

  lemma CollectingUntouched(B: nat, st0: State, st: State, src: nat, cached: Summary, bb: nat, moved: nat, a: nat)
    requires Collecting(B, st0, st, src, cached, bb, moved, a) && bb < B
    requires SegInv(B, st) && IsValid(st, Loc(src, bb)) && SegInv(B, st0) && Roomy(B, st0)
    ensures Untouched(st, src)
    ensures OwnerTemp(OwnerAt(st, Loc(src, bb))) == st0.segs[src].temp
    ensures CurOf(st, OwnerTemp(OwnerAt(st, Loc(src, bb)))) == -1 ==> |st.queue| == |st0.queue|
  {
    ValidCounts(B, st, Loc(src, bb));
    PopCountBounds(st0.segs[src].valid);
    if CurOf(st, st0.segs[src].temp) == -1 {
      NeedOnce(B, st0, st, src, cached, bb, moved, a);
    }
  }

  lemma SlotInRange(B: nat, st: State, s: nat, b: nat)
    requires SegInv(B, st) && s < |st.segs| && b < B
    ensures b < |st.segs[s].valid| && (IsValid(st, Loc(s, b)) <==> st.segs[s].valid[b])
  {
  }

  // ----- The whole collection -----

  /** Free space: whole free segments and the rest of the current ones. */
  function Space(B: nat, st: State): int {
    B * |st.queue| + Room(B, st, 0) + Room(B, st, 1) + Room(B, st, 2) + Room(B, st, 3) + Room(B, st, 4) + Room(B, st, 5)
  }

  /** What collecting a segment gains: all but its valid blocks; a free segment gains nothing,
      and the segment whose cached block is left behind costs what was moved. */
  function Gain(B: nat, valid: nat, skipped: bool): int {
    if valid == 0 then 0 else if skipped then 1 - valid else B - valid
  }

  function TotalGain(B: nat, st: State, victims: seq<nat>, skip: int): int {
    if victims == [] then 0
    else
      var s := victims[|victims| - 1];
      TotalGain(B, st, victims[..|victims| - 1], skip)
        + Gain(B, if s < |st.segs| then st.segs[s].validNr else 0, s == skip)
  }

  lemma MulParts(B: nat, q': nat, q: nat, a: nat, full: nat)
    requires q' == q - a + full && a <= 1 && full <= 1
    ensures B * q' == B * q - B * a + B * full && B * full == (if full == 1 then B else 0)
  {
  }

  lemma SpaceGain(B: nat, st: State, st': State, src: nat, cached: Summary, moved: nat, a: nat)
    requires CollectedSeg(B, st, st', src, cached, moved, a) && st.segs[src].temp <= TEMP_NR
    requires st.segs[src].validNr > 0 ==> st.segs[src].temp < TEMP_NR
    ensures Space(B, st') == Space(B, st) + Gain(B, st.segs[src].validNr, moved < st.segs[src].validNr)
  {
    hide Room, Others, IsValid, OwnerAt;
    var full := if 0 < moved == st.segs[src].validNr then 1 else 0;
    if st.segs[src].validNr > 0 {
      MulParts(B, |st'.queue|, |st.queue|, a, full);
      RoomsChange(B, st, st', st.segs[src].temp, B * a - moved);
    }
  }

  lemma RoomsChange(B: nat, st: State, st': State, t: nat, d: int)
    requires t < TEMP_NR && Room(B, st', t) == Room(B, st, t) + d
    requires forall u: nat :: u != t ==> Room(B, st', u) == Room(B, st, u)
    ensures Space(B, st') - B * |st'.queue| == Space(B, st) - B * |st.queue| + d
  {
    hide Room;
  }

  /** The victims still to come, from position `k` on, are as they were when they were chosen. */
  ghost predicate Pending(st0: State, st: State, order: seq<nat>, k: nat) {
    && |st.segs| == |st0.segs|
    && forall j :: k <= j < |order| ==>
      && order[j] < |st0.segs| && NotCurrent(st, order[j])
      && (st0.segs[order[j]].validNr > 0 ==> Untouched(st, order[j]) && st.segs[order[j]] == st0.segs[order[j]])
      && (st0.segs[order[j]].validNr == 0 ==> st == st0)
  }

  ghost predicate FewestFirst(st: State, order: seq<nat>) {
    && (forall j :: 0 <= j < |order| ==> order[j] < |st.segs|)
    && (forall i, j :: 0 <= i <= j < |order| ==> st.segs[order[i]].validNr <= st.segs[order[j]].validNr)
    && (forall i, j :: 0 <= i < j < |order| ==> order[i] != order[j])
  }

  lemma PendingStart(B: nat, st: State, order: seq<nat>)
    requires SegInv(B, st) && FewestFirst(st, order)
    requires forall j :: 0 <= j < |order| ==> NotCurrent(st, order[j])
    ensures Pending(st, st, order, 0)
  {
  }

  lemma PendingStep(B: nat, st0: State, st: State, st': State, order: seq<nat>, k: nat, cached: Summary, moved: nat, a: nat)
    requires FewestFirst(st0, order) && k < |order| && Pending(st0, st, order, k)
    requires CollectedSeg(B, st, st', order[k], cached, moved, a)
    ensures Pending(st0, st', order, k + 1)
    ensures st.segs[order[k]].validNr == st0.segs[order[k]].validNr
  {
    if st0.segs[order[k]].validNr == 0 {
      assert st' == st0;
    }
    forall j | k + 1 <= j < |order|
      ensures order[j] < |st0.segs| && NotCurrent(st', order[j])
      ensures st0.segs[order[j]].validNr > 0 ==> Untouched(st', order[j]) && st'.segs[order[j]] == st0.segs[order[j]]
      ensures st0.segs[order[j]].validNr == 0 ==> st' == st0
    {
      assert order[k] != order[j];
      assert st0.segs[order[k]].validNr <= st0.segs[order[j]].validNr;
    }
  }

  /** The cached block, once met, lives in segment `skip`, which does not come up again. */
  ghost predicate SkipOk(l2p: map<Summary, Loc>, order: seq<nat>, k: nat, cached: Summary, skip: int) {
    skip >= 0 ==>
      && cached in l2p && cached.offset != -1 && l2p[cached].seg == skip
      && forall j :: k <= j < |order| ==> order[j] != skip
  }

  lemma SkipStep(B: nat, st: State, st': State, l2p: map<Summary, Loc>, l2p': map<Summary, Loc>, order: seq<nat>, k: nat,
                 cached: Summary, skip: int, moved: nat, a: nat)
    requires Linked(st, l2p) && k < |order| && SkipOk(l2p, order, k, cached, skip)
    requires forall i, j :: 0 <= i < j < |order| ==> order[i] != order[j]
    requires cached.offset != -1 && cached in l2p ==> cached in l2p' && l2p'[cached] == l2p[cached]
    requires CollectedSeg(B, st, st', order[k], cached, moved, a)
    ensures moved < st.segs[order[k]].validNr ==> skip < 0 && SkipOk(l2p', order, k + 1, cached, order[k])
    ensures moved == st.segs[order[k]].validNr ==> SkipOk(l2p', order, k + 1, cached, skip)
    ensures skip >= 0 ==> skip != order[k]
  {
    if moved < st.segs[order[k]].validNr {
      var b: nat :| IsValid(st, Loc(order[k], b)) && OwnerAt(st, Loc(order[k], b)) == cached;
      assert l2p[cached] == Loc(order[k], b);
    }
  }

  lemma TotalGainStep(B: nat, st0: State, order: seq<nat>, k: nat, skip: int, skip': int)
    requires k < |order| && order[k] < |st0.segs|
    requires skip' == skip || (skip < 0 && skip' == order[k])
    requires forall i, j :: 0 <= i < j < |order| ==> order[i] != order[j]
    ensures TotalGain(B, st0, order[..k + 1], skip')
         == TotalGain(B, st0, order[..k], skip) + Gain(B, st0.segs[order[k]].validNr, order[k] == skip')
  {
    assert order[..k + 1][..k] == order[..k];
    GainIgnores(B, st0, order[..k], skip, skip');
  }

  lemma {:induction false} GainIgnores(B: nat, st: State, victims: seq<nat>, skip: int, skip': int)
    requires skip' == skip || (skip < 0 && forall i :: 0 <= i < |victims| ==> victims[i] != skip')
    ensures TotalGain(B, st, victims, skip') == TotalGain(B, st, victims, skip)
  {
    if victims != [] {
      GainIgnores(B, st, victims[..|victims| - 1], skip, skip');
    }
  }

  lemma CollectedFacts(B: nat, st: State, st': State, src: nat, cached: Summary, moved: nat, a: nat)
    requires CollectedSeg(B, st, st', src, cached, moved, a) && SegInv(B, st)
    ensures src < |st.segs| && st'.used == st.used && moved <= st.segs[src].validNr
    ensures Space(B, st') == Space(B, st) + Gain(B, st.segs[src].validNr, moved < st.segs[src].validNr)
    ensures forall u: nat :: Filled(st, u) ==> Filled(st', u)
    ensures moved < st.segs[src].validNr ==> |st'.queue| + 1 >= |st.queue|
    ensures moved == st.segs[src].validNr ==> |st'.queue| >= |st.queue|
  {
    assert st.segs[src].temp <= TEMP_NR;
    SpaceGain(B, st, st', src, cached, moved, a);
  }

  lemma FilledWithout(st: State, t: nat)
    requires CurOf(st, t) == -1
    ensures Filled(st, t)
  {
  }

  lemma AllocEnabled(B: nat, w: World, l2p: map<Summary, Loc>, t: nat)
    requires Inv(B, w, l2p, None) && t < TEMP_NR && Filled(w.st, t)
    ensures w.st.queue != [] ==> Enabled(B, w.st, Alloc(t))
  {
    hide Linked, NodesOk, Viewed, Counted, Partitioned, Currents, Pure;
    if w.st.queue != [] {
      assert w.st.queue[0] in w.st.queue;
    }
  }

  /** After a collection the page that is about to be written is still ready. */
  lemma StillReady(B: nat, w: World, w': World, l2p: map<Summary, Loc>, l2p': map<Summary, Loc>, pid: int, o: Summary)
    requires Inv(B, w, l2p, None) && PageReady(w, l2p, pid, o)
    requires Inv(B, w', l2p', None) && Quiet(w, w')
    requires o.offset != -1 && o in l2p ==> o in l2p' && l2p'[o] == l2p[o]
    ensures PageReady(w', l2p', pid, o)
    ensures pid in w'.pages && w'.pages[pid].nid == o.nid && w'.pages[pid].offset == o.offset
  {
    hide SegInv, Roomy;
    if o.offset == -1 {
      if w.cache[o.nid] == pid {
        CachedReady(B, w', l2p', o.nid);
      } else {
        NewNodeReady(w, w', l2p', pid, o);
      }
    } else {
      DataStillReady(B, w, w', l2p, l2p', pid, o);
    }
  }

  /** A collection neither maps nor unmaps the block that waits to be written. */
  lemma OwnedStill(B: nat, w: World, w': World, l2p: map<Summary, Loc>, l2p': map<Summary, Loc>, pid: int, o: Summary)
    requires Inv(B, w, l2p, None) && PageReady(w, l2p, pid, o)
    requires Inv(B, w', l2p', None) && PageReady(w', l2p', pid, o) && Quiet(w, w')
    ensures o in l2p' <==> o in l2p
    ensures o in l2p' <==> w'.pages[pid].phy.Some?
  {
    hide SegInv, Roomy, Linked, NodesOk, SameContents;
    assert OldLoc(l2p, o) == Fwd(w, o) && OldLoc(l2p', o) == Fwd(w', o);
  }

  lemma NewNodeReady(w: World, w': World, l2p': map<Summary, Loc>, pid: int, o: Summary)
    requires NodesOk(w, None) && NodesOk(w', None) && Viewed(w', l2p', None) && Gentle(w, w') && o.offset == -1
    requires 0 <= pid && pid in w.pages && 0 <= o.nid < |w.table| == |w.cache|
    requires w.pages[pid].nid == o.nid && w.pages[pid].offset == -1 && w.pages[pid].phy == None
    requires IsNode(w.pages[pid].data) && w.pages[pid].data.nid == o.nid
    requires w.cache[o.nid] == -1 && w.table[o.nid] == InUse
    ensures PageReady(w', l2p', pid, o)
  {
    assert OldLoc(l2p', o) == Fwd(w', o);
    forall n | 0 <= n < |w.cache| && w.cache[n] == pid ensures n == o.nid {
      assert NodeOk(w, n, None);
    }
  }

  lemma DataStillReady(B: nat, w: World, w': World, l2p: map<Summary, Loc>, l2p': map<Summary, Loc>, pid: int, o: Summary)
    requires Inv(B, w, l2p, None) && PageReady(w, l2p, pid, o)
    requires Inv(B, w', l2p', None) && Quiet(w, w') && o.offset != -1
    requires o in l2p ==> o in l2p' && l2p'[o] == l2p[o]
    ensures PageReady(w', l2p', pid, o)
  {
    hide SegInv, Roomy, NodesOk, NodeBlock;
    assert OldLoc(l2p, o) == Fwd(w, o) && OldLoc(l2p', o) == Fwd(w', o);
    assert o !in l2p ==> Reads(w, o) == None;
    if o in l2p' {
      assert IsValid(w'.st, l2p'[o]);
      ValidOnDisk(B, w'.st, l2p'[o]);
      assert Reads(w', o).Some?;
    }
  }

  lemma ValidOnDisk(B: nat, st: State, loc: Loc)
    requires SegInv(B, st) && IsValid(st, loc)
    ensures loc in st.disk
  {
  }

  /** Cached nodes stay in their pages, and free identifiers stay free. */
  ghost predicate CacheStays(w: World, w': World) {
    && |w'.table| == |w.table| && |w'.cache| == |w.cache|
    && (forall n :: 0 <= n < |w.cache| && w.cache[n] >= 0 ==> w'.cache[n] == w.cache[n])
    && (forall n :: 0 <= n < |w.table| && n < |w.cache| ==>
      && (w.table[n] == Unused && w.cache[n] < 0 ==> w'.table[n] == Unused && w'.cache[n] < 0)
      && (w.table[n] != Unused ==> w'.table[n] != Unused))
  }

  lemma WriteEnd(B: nat, w: World, w1: World, w2: World, l2p: map<Summary, Loc>, pid: int, o: Summary)
    requires Quiet(w, w1) && SameExcept(w1, w2, o) && (o.offset == -1 ==> SameContents(w1, w2))
    requires 0 <= o.nid && pid in w.pages
    requires o.offset != -1 ==> forall n :: 0 <= n < |w.cache| ==> w.cache[n] != pid
    requires Inv(B, w1, l2p, None) && PageReady(w1, l2p, pid, o) && BlockWritten(B, w1, w2, l2p, pid, o, false)
    ensures SameExcept(w, w2, o) && CacheStays(w, w2) && (o.offset == -1 ==> SameContents(w, w2))
    ensures pid in w2.pages && w2.pages[pid].phy == Some(Target(w1.st, OwnerTemp(o))) && !w2.pages[pid].dirty
    ensures Target(w1.st, OwnerTemp(o)) in w2.st.disk
    ensures w2.st.disk[Target(w1.st, OwnerTemp(o))] == w2.pages[pid].data
    ensures o.offset == -1 ==> IsNode(w2.pages[pid].data) && w2.pages[pid].data.nid == o.nid
    ensures o.offset != -1 ==> w2.pages[pid].data == w.pages[pid].data
  {
    hide NodesOk, Viewed, Linked, SegInv, SegsWritten, IsValid;
  }

  lemma DataPageUncached(w: World, l2p: map<Summary, Loc>, pid: int, o: Summary)
    requires PageReady(w, l2p, pid, o)
    ensures 0 <= o.nid && pid in w.pages
    ensures o.offset != -1 ==> forall n :: 0 <= n < |w.cache| ==> w.cache[n] != pid
  {
  }

  lemma QuietUnwritten(w: World, w': World, nid: nat)
    requires Quiet(w, w') && nid < |w.table| && nid < |w.cache|
    ensures |w'.table| == |w.table| && (!w.table[nid].At? ==> w'.table[nid] == w.table[nid])
  {
  }

  lemma QuietSame(w: World, w': World)
    requires Quiet(w, w')
    ensures SameContents(w, w') && CacheStays(w, w')
  {
  }

  /** An index node keeps its kind and its size whenever reads of nodes are preserved. */
  lemma IndexStays(B: nat, w: World, w': World, l2p: map<Summary, Loc>, l2p': map<Summary, Loc>, nid: nat, off: nat)
    requires Inv(B, w, l2p, None) && Inv(B, w', l2p', Some(Summary(nid, off))) && CacheStays(w, w')
    requires SameExcept(w, w', Summary(nid, off))
    requires nid < |w.table| && w.cache[nid] >= 0 && w.cache[nid] in w.pages
    requires w.pages[w.cache[nid]].data.Index? && off < |w.pages[w.cache[nid]].data.ptrs|
    ensures w'.cache[nid] >= 0 && w'.cache[nid] in w'.pages
    ensures w'.pages[w'.cache[nid]].data.Index? && off < |w'.pages[w'.cache[nid]].data.ptrs|
  {
    hide SegInv, Roomy, Linked, Viewed;
    assert NodeOk(w', nid, Some(Summary(nid, off)));
    var b, b' := w.pages[w.cache[nid]].data, w'.pages[w'.cache[nid]].data;
    assert Reads(w', Summary(nid, -1)) == Some(Erase(b')) && Reads(w, Summary(nid, -1)) == Some(Erase(b));
    assert |Erase(b).ptrs| == |b.ptrs|;
  }

  lemma DropStart(B: nat, w: World, l2p: map<Summary, Loc>, o: Summary)
    requires Inv(B, w, l2p, None) && o in l2p
    ensures Enabled(B, w.st, Invalidate(l2p[o])) && SegInv(B, w.st)
    ensures DoInvalidate(w.st, l2p[o]).used + 1 == w.st.used
  {
    hide NodesOk, Viewed;
    assert IsValid(w.st, l2p[o]);
    ValidCounts(B, w.st, l2p[o]);
  }

  // ----- Mounting -----

  /** Memory as a mount leaves it: tables, current segments and the medium, nothing cached. */
  function MountedWorld(segs: seq<SegmentInfo>, cur: seq<CurSeg>, table: seq<NatEntry>, disk: map<Loc, Block>): World {
    World(State(segs, cur, [], 0, disk), table, seq(|table|, _ => -1), map[])
  }

  /** The forward map of the tables is the inverse of the reverse map of the segments. */
  ghost predicate Mappable(B: nat, w: World, l2p: map<Summary, Loc>) {
    Roomy(B, w.st) && Linked(w.st, l2p) && NodesOk(w, None) && Viewed(w, l2p, None)
  }

  /** Rebuilding the free queue over mappable tables gives the whole invariant and changes no read. */
  lemma MountInv(B: nat, w: World, w': World, l2p: map<Summary, Loc>)
    requires Mappable(B, w, l2p) && w' == w.(st := w'.st) && SegInv(B, w'.st) && w'.st.cur == w.st.cur && w'.st.disk == w.st.disk
    requires forall loc :: IsValid(w'.st, loc) == IsValid(w.st, loc) && OwnerAt(w'.st, loc) == OwnerAt(w.st, loc)
    ensures Inv(B, w', l2p, None) && SameContents(w, w')
  {
    hide SegInv, IsValid, OwnerAt;
    assert forall n :: NodeBlock(w', n) == NodeBlock(w, n);
    assert forall o :: Fwd(w', o) == Fwd(w, o);
    forall n | 0 <= n < |w'.table| ensures NodeOk(w', n, None) {
      assert NodeOk(w, n, None);
    }
  }

  /** The valid blocks are still on the medium as they were. */
  ghost predicate ValidKept(st: State, disk: map<Loc, Block>) {
    forall loc :: IsValid(st, loc) ==> loc in st.disk && loc in disk && disk[loc] == st.disk[loc]
  }

  lemma CleanNode(w: World, m: World, l2p: map<Summary, Loc>, n: nat)
    requires NodesOk(w, None) && Viewed(w, l2p, None) && Linked(w.st, l2p) && NoDirty(w) && ValidKept(w.st, m.st.disk)
    requires m.table == w.table && m.cache == seq(|w.table|, _ => -1) && n < |w.table|
    ensures NodeBlock(m, n) == NodeBlock(w, n) && NodeOk(m, n, None)
  {
    assert NodeOk(w, n, None);
    var o := Summary(n, -1);
    assert OldLoc(l2p, o) == Fwd(w, o);
    if o in l2p {
      assert IsValid(w.st, l2p[o]);
    }
  }

  lemma CleanReads(w: World, m: World, l2p: map<Summary, Loc>)
    requires Viewed(w, l2p, None) && Linked(w.st, l2p) && ValidKept(w.st, m.st.disk) && m.table == w.table
    requires forall n :: NodeBlock(m, n) == NodeBlock(w, n)
    ensures Viewed(m, l2p, None) && SameContents(w, m)
  {
    assert forall o :: o in l2p ==> IsValid(w.st, l2p[o]);
    hide NodeBlock, IsValid, Linked;
    assert forall o :: Fwd(m, o) == Fwd(w, o);
    forall o ensures Reads(m, o) == Reads(w, o) {
      assert OldLoc(l2p, o) == Fwd(w, o);
    }
  }

  /** The tables of a state without dirty nodes can be mounted over any medium that still has its valid
      blocks, and show what the state showed. */
  lemma CleanMappable(B: nat, w: World, l2p: map<Summary, Loc>, disk: map<Loc, Block>)
    requires Inv(B, w, l2p, None) && NoDirty(w) && ValidKept(w.st, disk)
    ensures var m := MountedWorld(w.st.segs, w.st.cur, w.table, disk); Mappable(B, m, l2p) && SameContents(w, m)
  {
    var m := MountedWorld(w.st.segs, w.st.cur, w.table, disk);
    assert forall loc :: IsValid(m.st, loc) == IsValid(w.st, loc) && OwnerAt(m.st, loc) == OwnerAt(w.st, loc);
    hide SegInv, IsValid, OwnerAt, NodeOk, Viewed, SameContents;
    forall n: nat | n < |w.table| ensures NodeBlock(m, n) == NodeBlock(w, n) && NodeOk(m, n, None) {
      CleanNode(w, m, l2p, n);
    }
    assert forall n: int :: !(0 <= n < |w.table|) ==> NodeBlock(m, n) == NodeBlock(w, n);
    CleanReads(w, m, l2p);
  }

  /** No cached node waits to be written. */
  ghost predicate NoDirty(w: World) {
    forall n :: 0 <= n < |w.cache| && w.cache[n] in w.pages ==> !w.pages[w.cache[n]].dirty
  }
}
