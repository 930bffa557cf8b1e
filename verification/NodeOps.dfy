/** Nodes come and go: allocating an identifier, creating a cached node, changing an inode, and
    giving a node back, as changes of the whole mapped world. */
module NodeOps {
  import opened Segments
  import opened SegmentRuns
  import opened Mapping

  /** A node that leads nowhere: an inode as such, or an index node without pointers. */
  predicate Bare(b: Block) {
    b.Inode? || (b.Index? && forall i :: 0 <= i < |b.ptrs| ==> b.ptrs[i] == None)
  }

  lemma BareErase(b: Block)
    requires Bare(b)
    ensures Erase(b) == b
  {
  }

  /** Where `nid` leads nowhere nothing below it is mapped. */
  lemma BareFwd(w: World, nid: nat, off: int)
    requires off != -1 && (NodeBlock(w, nid).None? || Bare(NodeBlock(w, nid).value))
    ensures Fwd(w, Summary(nid, off)) == None && Reads(w, Summary(nid, off)) == None
  {
  }

  // ----- Allocating an identifier -----

  lemma ClaimKeeps(B: nat, w: World, w': World, l2p: map<Summary, Loc>, nid: nat)
    requires Inv(B, w, l2p, None) && nid < |w.table| && w.table[nid] == Unused && w.cache[nid] < 0
    requires w' == w.(table := w.table[nid := InUse])
    ensures Inv(B, w', l2p, None) && SameContents(w, w')
  {
    hide SegInv, Roomy, Linked;
    assert forall n :: NodeBlock(w', n) == NodeBlock(w, n);
    assert forall o :: Fwd(w', o) == Fwd(w, o);
    forall n | 0 <= n < |w'.table| ensures NodeOk(w', n, None) {
      assert NodeOk(w, n, None);
    }
  }

  // ----- Creating a node in the cache -----

  ghost predicate Created(w: World, w': World, nid: nat, pid: int, b: Block) {
    && nid < |w.table| == |w.cache| && w.table[nid] == InUse && w.cache[nid] < 0 && 0 <= pid && pid !in w.pages
    && IsNode(b) && b.nid == nid && Bare(b)
    && w' == w.(cache := w.cache[nid := pid], pages := w.pages[pid := Page(None, nid, -1, true, b)])
  }

  lemma CreateKeeps(B: nat, w: World, w': World, l2p: map<Summary, Loc>, nid: nat, pid: int, b: Block)
    requires Inv(B, w, l2p, None) && Created(w, w', nid, pid, b)
    ensures Inv(B, w', l2p, None) && SameExcept(w, w', Summary(nid, -1)) && Reads(w', Summary(nid, -1)) == Some(b)
  {
    hide SegInv, Roomy, Linked;
    BareErase(b);
    forall n | 0 <= n < |w'.table| ensures NodeOk(w', n, None) && (n != nid ==> w.cache[n] < 0 || w.cache[n] != pid) {
      assert NodeOk(w, n, None);
    }
    assert forall n :: n != nid ==> NodeBlock(w', n) == NodeBlock(w, n);
    NodeElse(w, w', nid);
    FwdElse(B, w, w', l2p, nid);
  }

  /** When only node `nid` changed, and it leads nowhere before and after, nothing else changes. */
  lemma NodeElse(w: World, w': World, nid: nat)
    requires w'.table == w.table && w'.st == w.st
    requires forall n :: n != nid ==> NodeBlock(w', n) == NodeBlock(w, n)
    requires NodeBlock(w, nid).None? || Bare(NodeBlock(w, nid).value)
    requires NodeBlock(w', nid).None? || Bare(NodeBlock(w', nid).value)
    ensures forall o :: Fwd(w', o) == Fwd(w, o)
    ensures SameExcept(w, w', Summary(nid, -1))
  {
    forall o ensures Fwd(w', o) == Fwd(w, o) && (o != Summary(nid, -1) ==> Reads(w', o) == Reads(w, o)) {
      if o.nid == nid && o.offset != -1 {
        BareFwd(w, nid, o.offset);
        BareFwd(w', nid, o.offset);
      }
    }
  }

  lemma FwdElse(B: nat, w: World, w': World, l2p: map<Summary, Loc>, nid: nat)
    requires Viewed(w, l2p, None) && forall o :: Fwd(w', o) == Fwd(w, o)
    ensures Viewed(w', l2p, None)
  {
  }

  // ----- Changing an inode -----

  ghost predicate InodeSet(w: World, w': World, nid: nat, body: InodeBody) {
    && nid < |w.table| == |w.cache| && w.cache[nid] >= 0 && w.cache[nid] in w.pages
    && var p := w.pages[w.cache[nid]];
      p.data.Inode? && w' == w.(pages := w.pages[w.cache[nid] := p.(data := Inode(nid, body), dirty := true)])
  }

  lemma InodeSetKeeps(B: nat, w: World, w': World, l2p: map<Summary, Loc>, nid: nat, body: InodeBody)
    requires Inv(B, w, l2p, None) && InodeSet(w, w', nid, body)
    ensures Inv(B, w', l2p, None) && SameExcept(w, w', Summary(nid, -1)) && Reads(w', Summary(nid, -1)) == Some(Inode(nid, body))
  {
    hide SegInv, Roomy, Linked;
    assert NodeOk(w, nid, None);
    forall n | 0 <= n < |w'.table| ensures NodeOk(w', n, None) && (n != nid ==> w.cache[n] < 0 || w.cache[n] != w.cache[nid]) {
      assert NodeOk(w, n, None);
    }
    assert forall n :: n != nid ==> NodeBlock(w', n) == NodeBlock(w, n);
    NodeElse(w, w', nid);
    FwdElse(B, w, w', l2p, nid);
  }

  // ----- Dropping a node from the cache -----

  /** A clean node is on the medium as it is in the cache, so dropping its page changes nothing. */
  lemma DecacheKeeps(B: nat, w: World, w': World, l2p: map<Summary, Loc>, nid: nat)
    requires Inv(B, w, l2p, None) && nid < |w.cache| && w.cache[nid] >= 0 && w.cache[nid] in w.pages && !w.pages[w.cache[nid]].dirty
    requires w' == w.(cache := w.cache[nid := -1])
    ensures Inv(B, w', l2p, None) && SameContents(w, w')
  {
    hide SegInv, Roomy, Linked;
    assert NodeOk(w, nid, None);
    assert forall n :: NodeBlock(w', n) == NodeBlock(w, n);
    assert forall o :: Fwd(w', o) == Fwd(w, o);
    forall n | 0 <= n < |w'.table| ensures NodeOk(w', n, None) {
      assert NodeOk(w, n, None);
    }
  }

  // ----- Giving a node back -----

  lemma DropInv(B: nat, st: State, l2p: map<Summary, Loc>, o: Summary)
    requires SegInv(B, st) && Roomy(B, st) && Linked(st, l2p) && o in l2p && Enabled(B, st, Invalidate(l2p[o]))
    ensures SegInv(B, DoInvalidate(st, l2p[o])) && Roomy(B, DoInvalidate(st, l2p[o])) && Linked(DoInvalidate(st, l2p[o]), l2p - {o})
    ensures DoInvalidate(st, l2p[o]).disk == st.disk
  {
    InvalidateKeeps(B, st, l2p[o]);
    DropLinked(B, st, l2p, o);
    hide SegInv, Roomy, Linked;
  }

  lemma DropLinked(B: nat, st: State, l2p: map<Summary, Loc>, o: Summary)
    requires Roomy(B, st) && Linked(st, l2p) && o in l2p && Enabled(B, st, Invalidate(l2p[o]))
    ensures Roomy(B, DoInvalidate(st, l2p[o])) && Linked(DoInvalidate(st, l2p[o]), l2p - {o})
  {
    InvalidateValid(st, l2p[o]);
    hide IsValid, OwnerAt;
  }

  /** A node that leads nowhere leaves the cache and the table, and its block, if it has one, is
      invalidated: nothing else is seen to change. */
  lemma ReleaseKeeps(B: nat, w: World, w': World, l2p: map<Summary, Loc>, nid: nat)
    requires Inv(B, w, l2p, None) && nid < |w.table| && (NodeBlock(w, nid).None? || Bare(NodeBlock(w, nid).value))
    requires w.table[nid].At? ==> Enabled(B, w.st, Invalidate(w.table[nid].loc))
    requires w'.st == if w.table[nid].At? then DoInvalidate(w.st, w.table[nid].loc) else w.st
    requires w' == w.(st := w'.st, table := w.table[nid := Unused], cache := w.cache[nid := -1])
    ensures Inv(B, w', l2p - {Summary(nid, -1)}, None)
    ensures SameExcept(w, w', Summary(nid, -1)) && Reads(w', Summary(nid, -1)) == None
  {
    var o := Summary(nid, -1);
    assert OldLoc(l2p, o) == Fwd(w, o);
    if w.table[nid].At? {
      DropInv(B, w.st, l2p, o);
    } else {
      assert l2p - {o} == l2p;
    }
    hide SegInv, Roomy, Linked, DoInvalidate, Enabled;
    ReleaseSees(w, w', l2p, nid);
  }

  lemma ReleaseSees(w: World, w': World, l2p: map<Summary, Loc>, nid: nat)
    requires NodesOk(w, None) && Viewed(w, l2p, None) && nid < |w.table| && (NodeBlock(w, nid).None? || Bare(NodeBlock(w, nid).value))
    requires w'.st.disk == w.st.disk && w' == w.(st := w'.st, table := w.table[nid := Unused], cache := w.cache[nid := -1])
    ensures NodesOk(w', None) && Viewed(w', l2p - {Summary(nid, -1)}, None)
    ensures SameExcept(w, w', Summary(nid, -1)) && Reads(w', Summary(nid, -1)) == None
  {
    var o := Summary(nid, -1);
    assert forall n :: n != nid ==> NodeBlock(w', n) == NodeBlock(w, n);
    forall n | 0 <= n < |w'.table| ensures NodeOk(w', n, None) {
      assert NodeOk(w, n, None);
    }
    forall p ensures OldLoc(l2p - {o}, p) == Fwd(w', p) && (p != o ==> Reads(w', p) == Reads(w, p)) {
      assert OldLoc(l2p, p) == Fwd(w, p);
      if p.nid == nid && p.offset != -1 {
        BareFwd(w, nid, p.offset);
        BareFwd(w', nid, p.offset);
      } else if p != o {
        assert Fwd(w', p) == Fwd(w, p);
      }
    }
  }

  /** The block of a node in the table may be invalidated. */
  lemma NodeEnabled(B: nat, w: World, l2p: map<Summary, Loc>, nid: nat)
    requires Inv(B, w, l2p, None) && nid < |w.table| && w.table[nid].At?
    ensures Summary(nid, -1) in l2p && l2p[Summary(nid, -1)] == w.table[nid].loc
    ensures SegInv(B, w.st) && Enabled(B, w.st, Invalidate(w.table[nid].loc))
    ensures DoInvalidate(w.st, w.table[nid].loc).used + 1 == w.st.used
  {
    assert OldLoc(l2p, Summary(nid, -1)) == Fwd(w, Summary(nid, -1));
    DropStart(B, w, l2p, Summary(nid, -1));
  }

  lemma NodeUnmapped(w: World, l2p: map<Summary, Loc>, nid: nat)
    requires Viewed(w, l2p, None) && nid < |w.table| && !w.table[nid].At?
    ensures Summary(nid, -1) !in l2p
  {
    assert OldLoc(l2p, Summary(nid, -1)) == Fwd(w, Summary(nid, -1));
  }
}
