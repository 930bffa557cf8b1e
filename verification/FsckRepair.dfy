/** What a repair does to a volume, and when the result passes the check. */
module FsckRepair {
  import opened Segments
  import opened Mapping
  import opened Medium
  import opened Fsck

  // ----- Dropping one block -----

  /** Clears a valid block; a segment left empty that is not current becomes free. */
  function Drop(vol: Volume, loc: Loc): Volume
    requires SitValid(vol, loc) && vol.sits[loc.seg].validNr > 0
  {
    var e := vol.sits[loc.seg];
    var e' := e.(valid := e.valid[loc.blk := false], validNr := e.validNr - 1);
    if e'.validNr == 0 && !(e.temp < |vol.cur| && vol.cur[e.temp].segNo == loc.seg) then
      vol.(sits := vol.sits[loc.seg := e'.(temp := TEMP_NR)], freeNr := vol.freeNr + 1)
    else
      vol.(sits := vol.sits[loc.seg := e'])
  }

  lemma ValidCounted(vol: Volume, loc: Loc)
    requires Counts(vol) && SitValid(vol, loc)
    ensures vol.sits[loc.seg].validNr > 0
  {
    PopCountBounds(vol.sits[loc.seg].valid);
  }

  lemma {:induction false} SegsInUseUpdate(sits: seq<SitEntry>, cur: seq<CurSeg>, s: nat, e: SitEntry, n: nat)
    requires s < |sits| && n <= |sits|
    ensures SegsInUse(sits[s := e], cur, n) == SegsInUse(sits, cur, n)
              - (if s < n && SegInUse(sits, cur, s) then 1 else 0)
              + (if s < n && SegInUse(sits[s := e], cur, s) then 1 else 0)
  {
    if n > 0 {
      SegsInUseUpdate(sits, cur, s, e, n - 1);
    }
  }

  /** Dropping a block keeps the counters and changes the validity of nothing else. */
  lemma DropEffect(vol: Volume, loc: Loc)
    requires MetaOk(vol) && Shaped(vol) && SitValid(vol, loc) && vol.sits[loc.seg].validNr > 0 && |vol.cur| <= TEMP_NR
    ensures MetaOk(Drop(vol, loc)) && Shaped(Drop(vol, loc))
    ensures forall l :: SitValid(Drop(vol, loc), l) <==> SitValid(vol, l) && l != loc
  {
    var e, vol' := vol.sits[loc.seg], Drop(vol, loc);
    PopCountUpdate(e.valid, loc.blk, false);
    SegsInUseUpdate(vol.sits, vol.cur, loc.seg, vol'.sits[loc.seg], |vol.sits|);
  }

  // ----- Unvisited nodes -----

  /** An unvisited node below `n` lives at `loc`. */
  ghost predicate DeadAt(vol: Volume, ids: set<Id>, n: nat, loc: Loc) {
    exists k :: 0 <= k < n && k < |vol.nats| && vol.nats[k] == NatEntry.At(loc) && Nid(k) !in ids
  }

  /** Every unvisited node below `n` that was written lives at a valid block of its own. */
  ghost predicate DeadOk(vol: Volume, ids: set<Id>, n: nat) {
    forall k :: 0 <= k < n && k < |vol.nats| && vol.nats[k].At? && Nid(k) !in ids ==>
      SitValid(vol, vol.nats[k].loc) && !DeadAt(vol, ids, k, vol.nats[k].loc)
  }

  ghost predicate SameFrame(vol: Volume, vol': Volume) {
    && vol'.B == vol.B && |vol'.nats| == |vol.nats| && |vol'.sits| == |vol.sits| && vol'.cur == vol.cur
    && vol'.disk == vol.disk && Shaped(vol') && MetaOk(vol')
  }

  /** The nodes below `n` have been looked after. */
  ghost predicate NodesDone(vol: Volume, ids: set<Id>, n: nat, vol': Volume) {
    && SameFrame(vol, vol')
    && (forall k :: 0 <= k < |vol.nats| ==>
      vol'.nats[k] == if k < n && Nid(k) !in ids then Unused else vol.nats[k])
    && (forall loc :: SitValid(vol', loc) <==> SitValid(vol, loc) && !DeadAt(vol, ids, n, loc))
  }

  lemma DeadGrows(vol: Volume, ids: set<Id>, n: nat, loc: Loc)
    requires n < |vol.nats|
    ensures DeadAt(vol, ids, n + 1, loc) <==> DeadAt(vol, ids, n, loc) || (vol.nats[n] == NatEntry.At(loc) && Nid(n) !in ids)
  {
    if vol.nats[n] == NatEntry.At(loc) && Nid(n) !in ids {
      assert DeadAt(vol, ids, n + 1, loc);
    }
  }

  lemma NodesStep(vol: Volume, ids: set<Id>, n: nat, mid: Volume, vol': Volume)
    requires NodesDone(vol, ids, n, mid) && n < |vol.nats| && |vol.cur| <= TEMP_NR
    requires Nid(n) in ids || vol.nats[n] == Unused ==> vol' == mid
    requires Nid(n) !in ids && vol.nats[n] == InUse ==> vol' == mid.(nats := mid.nats[n := Unused])
    requires Nid(n) !in ids && vol.nats[n].At? ==>
               && SitValid(mid, vol.nats[n].loc) && mid.sits[vol.nats[n].loc.seg].validNr > 0
               && vol' == Drop(mid, vol.nats[n].loc).(nats := mid.nats[n := Unused])
    ensures NodesDone(vol, ids, n + 1, vol')
  {
    if Nid(n) !in ids && vol.nats[n].At? {
      DropEffect(mid, vol.nats[n].loc);
      var d := Drop(mid, vol.nats[n].loc);
      assert MetaOk(vol') by { hide SegsInUse; }
      assert forall loc :: SitValid(vol', loc) == SitValid(d, loc);
    }
    forall loc ensures SitValid(vol', loc) <==> SitValid(vol, loc) && !DeadAt(vol, ids, n + 1, loc) {
      DeadGrows(vol, ids, n, loc);
    }
  }

  // ----- Unreached blocks -----

  /** The first `b` blocks of segment `s` and all earlier segments. */
  predicate Before(s: nat, b: nat, loc: Loc) {
    loc.seg < s || (loc.seg == s && loc.blk < b)
  }

  /** The blocks before `(s, b)` that nobody reached have been dropped. */
  ghost predicate BlksDone(mid: Volume, ids: set<Id>, s: nat, b: nat, vol': Volume) {
    && SameFrame(mid, vol') && vol'.nats == mid.nats
    && (forall loc :: SitValid(vol', loc) <==> SitValid(mid, loc) && (Before(s, b, loc) ==> Blk(loc) in ids))
  }

  lemma BlksStep(mid: Volume, ids: set<Id>, s: nat, b: nat, v: Volume, v': Volume)
    requires BlksDone(mid, ids, s, b, v) && |mid.cur| <= TEMP_NR
    requires SitValid(v, Loc(s, b)) && Blk(Loc(s, b)) !in ids ==> v.sits[s].validNr > 0 && v' == Drop(v, Loc(s, b))
    requires !(SitValid(v, Loc(s, b)) && Blk(Loc(s, b)) !in ids) ==> v' == v
    ensures BlksDone(mid, ids, s, b + 1, v')
  {
    if SitValid(v, Loc(s, b)) && Blk(Loc(s, b)) !in ids {
      DropEffect(v, Loc(s, b));
    }
    forall loc: Loc ensures Before(s, b + 1, loc) <==> Before(s, b, loc) || loc == Loc(s, b) {
      if loc.seg == s && loc.blk == b {
        assert loc == Loc(s, b);
      }
    }
  }

  /** A segment without valid blocks needs no scan, and after its last block the next one starts. */
  lemma BlksNext(mid: Volume, ids: set<Id>, s: nat, b: nat, v: Volume)
    requires BlksDone(mid, ids, s, b, v) && s < |v.sits|
    requires b >= v.B || v.sits[s].validNr == 0
    ensures BlksDone(mid, ids, s + 1, 0, v)
  {
    if v.sits[s].validNr == 0 {
      PopCountBounds(v.sits[s].valid);
      assert forall loc :: SitValid(v, loc) ==> loc.seg != s;
    }
    forall loc ensures SitValid(v, loc) <==> SitValid(mid, loc) && (Before(s + 1, 0, loc) ==> Blk(loc) in ids) {
      if SitValid(v, loc) && Before(s + 1, 0, loc) {
        assert Before(s, b, loc);
      }
    }
  }

  // ----- The repaired volume -----

  /** What a repair leaves: nodes and blocks that the walk claimed, less the blocks at which an
      unvisited node lived. */
  ghost predicate Repaired(vol: Volume, ids: set<Id>, vol': Volume) {
    && SameFrame(vol, vol')
    && (forall k :: 0 <= k < |vol.nats| ==> vol'.nats[k] == if Nid(k) in ids then vol.nats[k] else Unused)
    && (forall loc :: SitValid(vol', loc) <==> SitValid(vol, loc) && Blk(loc) in ids && !DeadAt(vol, ids, |vol.nats|, loc))
  }

  /** The walk leaves the reverse map alone at every block that was already claimed. */
  lemma {:induction false} WalkKeepsSsa(vol: Volume, items: seq<Item>, v: Visit, loc: Loc)
    requires Walk(vol, true, items, v).Some? && Blk(loc) in v.ids
    ensures Entry(Walk(vol, true, items, v).value.ssa, loc) == Entry(v.ssa, loc)
    decreases Universe(vol) - v.ids, |items|
  {
    if items != [] {
      MarkSmaller(vol, items[0], v.ids);
      var v1 := Mark(vol, true, items[0], v);
      assert Blk(Home(vol, items[0])) in Claims(vol, items[0]);
      assert Blk(loc) !in Claims(vol, items[0]) by {
        assert Blk(loc) !in Claims(vol, items[0]) * v.ids;
      }
      WalkKeepsSsa(vol, Kids(vol, items[0]), v1, loc);
      var v2 := Walk(vol, true, Kids(vol, items[0]), v1).value;
      assert Universe(vol) - v2.ids < Universe(vol) - v.ids;
      WalkKeepsSsa(vol, items[1..], v2, loc);
    }
  }

  /** If the block of a sound item is valid then the reverse map names its owner. */
  predicate Named(vol: Volume, ssa: Ssa, x: Item) {
    Sound(vol, x) && SitValid(vol, Home(vol, x)) ==> SsaAgrees(vol, ssa, x)
  }

  ghost predicate AllNamed(vol: Volume, ssa: Ssa, items: seq<Item>) {
    forall p :: Reached(vol, items, p).Some? ==> Named(vol, ssa, Reached(vol, items, p).value)
  }

  /** A repairing walk leaves a reverse map that names the owner of every valid block reached. */
  lemma {:induction false} WalkFixes(vol: Volume, items: seq<Item>, v: Visit)
    requires Walk(vol, true, items, v).Some?
    ensures AllNamed(vol, Walk(vol, true, items, v).value.ssa, items)
    decreases Universe(vol) - v.ids, |items|
  {
    if items != [] {
      var x := items[0];
      MarkSmaller(vol, x, v.ids);
      var kids, v1 := Kids(vol, x), Mark(vol, true, x, v);
      WalkFixes(vol, kids, v1);
      var v2 := Walk(vol, true, kids, v1).value;
      assert Universe(vol) - v2.ids < Universe(vol) - v.ids;
      WalkFixes(vol, items[1..], v2);
      var w := Walk(vol, true, items, v).value;
      assert w == Walk(vol, true, items[1..], v2).value;
      WalkSound(vol, true, kids, v1);
      forall p | Reached(vol, items, p).Some? ensures Named(vol, w.ssa, Reached(vol, items, p).value) {
        FixedAt(vol, items, v, v1, v2, w, p);
      }
    }
  }

  lemma FixedAt(vol: Volume, items: seq<Item>, v: Visit, v1: Visit, v2: Visit, w: Visit, p: seq<nat>)
    requires items != [] && Sound(vol, items[0]) && v1 == Mark(vol, true, items[0], v)
    requires Walk(vol, true, Kids(vol, items[0]), v1) == Some(v2) && Walk(vol, true, items[1..], v2) == Some(w)
    requires forall id :: id in v2.ids <==> id in v1.ids || Claimed(vol, Kids(vol, items[0]), id)
    requires AllNamed(vol, v2.ssa, Kids(vol, items[0])) && AllNamed(vol, w.ssa, items[1..])
    requires Reached(vol, items, p).Some?
    ensures Named(vol, w.ssa, Reached(vol, items, p).value)
  {
    hide Walk, Kids, Reached, Sound;
    ReachedBelow(vol, items, p);
    var x := Reached(vol, items, p).value;
    if Sound(vol, x) && SitValid(vol, Home(vol, x)) {
      HomeClaimed(vol, x);
      if p == [0] {
        MarkNames(vol, x, v);
        WalkKeepsSsa(vol, Kids(vol, items[0]), v1, Home(vol, x));
        WalkKeepsSsa(vol, items[1..], v2, Home(vol, x));
      } else if p[0] == 0 {
        assert Claimed(vol, Kids(vol, items[0]), Blk(Home(vol, x)));
        WalkKeepsSsa(vol, items[1..], v2, Home(vol, x));
      }
      if p[0] == 0 {
        SameEntry(vol, if p == [0] then v1.ssa else v2.ssa, w.ssa, x);
      }
    }
  }

  lemma MarkNames(vol: Volume, x: Item, v: Visit)
    requires Sound(vol, x) && SitValid(vol, Home(vol, x))
    ensures SsaAgrees(vol, Mark(vol, true, x, v).ssa, x)
  {
  }

  lemma SameEntry(vol: Volume, ssa: Ssa, ssa': Ssa, x: Item)
    requires Sound(vol, x) && SsaAgrees(vol, ssa, x) && Entry(ssa', Home(vol, x)) == Entry(ssa, Home(vol, x))
    ensures SsaAgrees(vol, ssa', x)
  {
  }

  // ----- The same things are reached -----

  /** The volumes hold the same blocks, and the nodes in `ids` at the same places. */
  ghost predicate SameNodes(vol: Volume, vol': Volume, ids: set<Id>) {
    && vol'.B == vol.B && |vol'.nats| == |vol.nats| && |vol'.sits| == |vol.sits| && vol'.disk == vol.disk
    && forall n :: 0 <= n < |vol.nats| && Nid(n) in ids ==> vol'.nats[n] == vol.nats[n]
  }

  ghost predicate AllIn(vol: Volume, items: seq<Item>, ids: set<Id>) {
    forall p :: Reached(vol, items, p).Some? ==> Claims(vol, Reached(vol, items, p).value) <= ids
  }

  lemma {:induction false} SamePaths(vol: Volume, vol': Volume, ids: set<Id>, items: seq<Item>, p: seq<nat>)
    requires SameNodes(vol, vol', ids) && AllIn(vol, items, ids)
    ensures Reached(vol', items, p) == Reached(vol, items, p)
    decreases |p|
  {
    if |p| > 1 && p[0] < |items| {
      var x := items[p[0]];
      assert Reached(vol, items, [p[0]]) == Some(x);
      assert Claims(vol, x) <= ids;
      assert Kids(vol', x) == Kids(vol, x);
      forall q | Reached(vol, Kids(vol, x), q).Some?
        ensures Claims(vol, Reached(vol, Kids(vol, x), q).value) <= ids
      {
        assert ([p[0]] + q)[1..] == q;
        assert Reached(vol, items, [p[0]] + q) == Reached(vol, Kids(vol, x), q);
      }
      SamePaths(vol, vol', ids, Kids(vol, x), p[1..]);
    }
  }

  lemma {:induction false} ReachedChild(vol: Volume, items: seq<Item>, p: seq<nat>, k: nat)
    requires Reached(vol, items, p).Some? && k < |Kids(vol, Reached(vol, items, p).value)|
    ensures Reached(vol, items, p + [k]) == Some(Kids(vol, Reached(vol, items, p).value)[k])
    decreases |p|
  {
    assert (p + [k])[1..] == p[1..] + [k];
    if |p| > 1 {
      ReachedChild(vol, Kids(vol, items[p[0]]), p[1..], k);
    }
  }

  lemma {:induction false} IndexItemOf(index: seq<int>, ft: FileType, j: nat) returns (k: nat)
    requires j < |index| && index[j] != -1
    ensures k < |IndexItems(index, ft)| && IndexItems(index, ft)[k] == NodeItem(index[j], false, ft)
  {
    if j == 0 {
      k := 0;
    } else {
      k := IndexItemOf(index[1..], ft, j - 1);
      if index[0] != -1 {
        k := k + 1;
      }
    }
  }

  lemma {:induction false} BlkCountSame(vol: Volume, vol': Volume, ids: set<Id>, index: seq<int>)
    requires SameNodes(vol, vol', ids)
    requires forall j :: 0 <= j < |index| && index[j] != -1 ==> Nid(index[j]) in ids
    ensures BlkCount(vol', index) == BlkCount(vol, index)
  {
    if index != [] {
      assert forall j :: 0 <= j < |index[1..]| ==> index[1..][j] == index[j + 1];
      BlkCountSame(vol, vol', ids, index[1..]);
      if index[0] != -1 {
        assert Node(vol', index[0]) == Node(vol, index[0]);
      }
    }
  }

  /** What is sound in one volume and valid in the other is sound there too. */
  lemma SameSound(vol: Volume, vol': Volume, ids: set<Id>, items: seq<Item>, p: seq<nat>)
    requires SameNodes(vol, vol', ids) && AllIn(vol, items, ids)
    requires Reached(vol, items, p).Some? && Sound(vol, Reached(vol, items, p).value)
    requires SitValid(vol', Home(vol, Reached(vol, items, p).value))
    ensures Sound(vol', Reached(vol, items, p).value)
    ensures Claims(vol', Reached(vol, items, p).value) == Claims(vol, Reached(vol, items, p).value)
    ensures Home(vol', Reached(vol, items, p).value) == Home(vol, Reached(vol, items, p).value)
  {
    hide BlkCount, PtrCount, IndexItems, DataItems, DentryItems;
    var x := Reached(vol, items, p).value;
    if x.NodeItem? {
      assert Nid(x.nid) in Claims(vol, x);
      assert Node(vol', x.nid) == Node(vol, x.nid);
      if x.asInode {
        var c := Node(vol, x.nid);
        forall j | 0 <= j < |c.index| && c.index[j] != -1 ensures Nid(c.index[j]) in ids {
          var k := IndexItemOf(c.index, c.fileType, j);
          ReachedChild(vol, items, p, k);
          assert Reached(vol, items, p + [k]) == Some(NodeItem(c.index[j], false, c.fileType));
          assert Nid(c.index[j]) in Claims(vol, NodeItem(c.index[j], false, c.fileType));
        }
        BlkCountSame(vol, vol', ids, c.index);
      }
    }
  }

  // ----- When a repaired volume passes -----

  /** Nothing that was reached is invalid, and no unvisited node shares a reached block. */
  ghost predicate Repairable(vol: Volume, ids: set<Id>) {
    forall loc :: Blk(loc) in ids ==> SitValid(vol, loc) && !DeadAt(vol, ids, |vol.nats|, loc)
  }

  ghost predicate SsaFollows(vol': Volume, ssa: Ssa, ssa': Ssa) {
    forall loc :: SitValid(vol', loc) ==> Entry(ssa', loc) == Entry(ssa, loc)
  }

  /** A check of a repaired volume passes exactly when everything the repair reached was valid and
      no unvisited node lived at a reached block. */
  lemma RepairExact(vol: Volume, ssa: Ssa, v: Visit, vol': Volume, ssa': Ssa)
    requires Walk(vol, true, [ROOT], Visit({}, ssa)) == Some(v)
    requires Repaired(vol, v.ids, vol') && SsaFollows(vol', v.ssa, ssa')
    ensures Accepts(vol', ssa') <==> Repairable(vol, v.ids)
  {
    hide Walk, Sound, Claims, SsaAgrees, Kids, Reached, MetaOk;
    WalkSound(vol, true, [ROOT], Visit({}, ssa));
    AllClaimedIn(vol, v.ids);
    forall p ensures Reached(vol', [ROOT], p) == Reached(vol, [ROOT], p) {
      SamePaths(vol, vol', v.ids, [ROOT], p);
    }
    CheckExact(vol', ssa');
    if Accepts(vol', ssa') {
      forall loc | Blk(loc) in v.ids ensures SitValid(vol', loc) {
        var p :| Reached(vol, [ROOT], p).Some? && Blk(loc) in Claims(vol, Reached(vol, [ROOT], p).value);
        ClaimsSame(vol, vol', v.ids, Reached(vol, [ROOT], p).value);
        ClaimValid(vol', ssa', Reached(vol', [ROOT], p).value, Blk(loc));
      }
    }
    if Repairable(vol, v.ids) {
      RepairPasses(vol, ssa, v, vol', ssa');
    }
  }

  lemma AllClaimedIn(vol: Volume, ids: set<Id>)
    requires forall id :: id in ids <==> id in {} || Claimed(vol, [ROOT], id)
    ensures AllIn(vol, [ROOT], ids)
  {
    hide Claims, Reached;
    forall p | Reached(vol, [ROOT], p).Some? ensures Claims(vol, Reached(vol, [ROOT], p).value) <= ids {
      forall id | id in Claims(vol, Reached(vol, [ROOT], p).value) ensures id in ids {
        assert Claimed(vol, [ROOT], id);
      }
    }
  }

  lemma ClaimsSame(vol: Volume, vol': Volume, ids: set<Id>, x: Item)
    requires SameNodes(vol, vol', ids) && Claims(vol, x) <= ids
    ensures Claims(vol', x) == Claims(vol, x)
  {
  }

  lemma RepairPasses(vol: Volume, ssa: Ssa, v: Visit, vol': Volume, ssa': Ssa)
    requires Walk(vol, true, [ROOT], Visit({}, ssa)) == Some(v)
    requires Repaired(vol, v.ids, vol') && SsaFollows(vol', v.ssa, ssa') && Repairable(vol, v.ids)
    requires Fine(vol, true, [ROOT], Visit({}, ssa)) && AllIn(vol, [ROOT], v.ids)
    requires forall id :: id in v.ids <==> Claimed(vol, [ROOT], id)
    requires forall p :: Reached(vol', [ROOT], p) == Reached(vol, [ROOT], p)
    ensures Consistent(vol', ssa')
  {
    hide Walk, Sound, Claims, SsaAgrees, Kids, Reached, MetaOk;
    WalkFixes(vol, [ROOT], Visit({}, ssa));
    forall p | Reached(vol', [ROOT], p).Some?
      ensures Sound(vol', Reached(vol', [ROOT], p).value)
      ensures Claims(vol', Reached(vol', [ROOT], p).value) == Claims(vol, Reached(vol, [ROOT], p).value)
      ensures SsaAgrees(vol', ssa', Reached(vol', [ROOT], p).value)
    {
      var x := Reached(vol, [ROOT], p).value;
      HomeClaimed(vol, x);
      assert SitValid(vol', Home(vol, x));
      SameSound(vol, vol', v.ids, [ROOT], p);
      AgreesThere(vol, v.ssa, vol', ssa', x);
    }
    forall id ensures Claimed(vol', [ROOT], id) <==> Claimed(vol, [ROOT], id) {
      if Claimed(vol', [ROOT], id) {
        var p :| Reached(vol', [ROOT], p).Some? && id in Claims(vol', Reached(vol', [ROOT], p).value);
        assert Reached(vol, [ROOT], p).Some?;
      }
      if Claimed(vol, [ROOT], id) {
        var p :| Reached(vol, [ROOT], p).Some? && id in Claims(vol, Reached(vol, [ROOT], p).value);
        assert Reached(vol', [ROOT], p).Some?;
      }
    }
    forall n | 0 <= n < |vol'.nats| ensures vol'.nats[n] != Unused <==> Claimed(vol', [ROOT], Nid(n)) {
      if Claimed(vol', [ROOT], Nid(n)) {
        var p :| Reached(vol', [ROOT], p).Some? && Nid(n) in Claims(vol', Reached(vol', [ROOT], p).value);
        ClaimValid(vol', ssa', Reached(vol', [ROOT], p).value, Nid(n));
      }
    }
  }

  lemma HomeClaimed(vol: Volume, x: Item)
    requires Sound(vol, x)
    ensures Blk(Home(vol, x)) in Claims(vol, x)
  {
  }

  lemma AgreesThere(vol: Volume, ssa: Ssa, vol': Volume, ssa': Ssa, x: Item)
    requires Sound(vol, x) && Sound(vol', x) && SsaAgrees(vol, ssa, x)
    requires Home(vol', x) == Home(vol, x) && SitValid(vol', Home(vol, x))
    requires Entry(ssa', Home(vol, x)) == Entry(ssa, Home(vol, x))
    ensures SsaAgrees(vol', ssa', x)
  {
  }

  ghost predicate NatInjective(vol: Volume) {
    forall m, n :: 0 <= m < n < |vol.nats| && vol.nats[m].At? ==> vol.nats[m] != vol.nats[n]
  }

  /** A node table without doubles, valid blocks at every allocated node and at everything
      reached are not enough: here an unvisited node lives at a data block of the root. */
  lemma DeadSharesData(vol: Volume, ssa: Ssa) returns (v: Visit)
    requires vol == Volume(3, [NatEntry.At(Loc(0, 0)), NatEntry.At(Loc(0, 1)), NatEntry.At(Loc(0, 2))],
                           [SitEntry([true, true, true], 3, HOT_NODE)], [], 0,
                           map[Loc(0, 0) := InodeC(0, 0, Directory, 1, [1]),
                               Loc(0, 1) := IndexC(1, 1, [Some(Loc(0, 2))]),
                               Loc(0, 2) := DentryC([])])
    ensures Walk(vol, true, [ROOT], Visit({}, ssa)) == Some(v)
    ensures NatInjective(vol) && DeadOk(vol, v.ids, 3) && forall b :: 0 <= b < 3 ==> SitValid(vol, Loc(0, b))
    ensures !Repairable(vol, v.ids)
  {
    hide Walk;
    var index, data := NodeItem(1, false, Directory), DataItem(Loc(0, 2), Summary(1, 0), true);
    assert Kids(vol, ROOT) == [index] by { assert IndexItems([1], Directory) == [index]; }
    assert Kids(vol, index) == [data] by {
      assert [Some(Loc(0, 2))][1..] == [];
      assert DataItems(1, [Some(Loc(0, 2))], 0, true) == [data];
    }
    assert BlkCount(vol, [1]) == 1 by {
      assert [1][1..] == [];
      assert Node(vol, 1) == IndexC(1, 1, [Some(Loc(0, 2))]);
      assert PtrCount([Some(Loc(0, 2))]) == 1 by { assert [Some(Loc(0, 2))][1..] == []; }
    }
    var v0 := Visit({}, ssa);
    assert Passes(vol, true, ROOT, v0);
    var v1 := Mark(vol, true, ROOT, v0);
    assert Passes(vol, true, index, v1);
    var v2 := Mark(vol, true, index, v1);
    assert Passes(vol, true, data, v2);
    v := Mark(vol, true, data, v2);
    WalkAlone(vol, ROOT, v0);
    WalkAlone(vol, index, v1);
    WalkAlone(vol, data, v2);
    WalkEnd(vol, v);
    assert v.ids == {Nid(0), Blk(Loc(0, 0)), Nid(1), Blk(Loc(0, 1)), Blk(Loc(0, 2))};
    assert vol.nats[2] == NatEntry.At(Loc(0, 2)) && DeadAt(vol, v.ids, 3, Loc(0, 2));
  }

  lemma WalkAlone(vol: Volume, x: Item, v: Visit)
    requires Passes(vol, true, x, v)
    ensures Walk(vol, true, [x], v) == Walk(vol, true, Kids(vol, x), Mark(vol, true, x, v))
  {
    assert [x][1..] == [];
    MarkSmaller(vol, x, v.ids);
    assert forall w :: Walk(vol, true, [], w) == Some(w);
  }

  lemma WalkEnd(vol: Volume, v: Visit)
    ensures Walk(vol, true, [], v) == Some(v)
  {
  }
}
