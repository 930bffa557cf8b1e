/** The check and the repair as they run, over bitmaps that are filled in place. */
module FsckRun {
  import opened Segments
  import opened Mapping
  import opened Medium
  import opened Fsck
  import opened FsckRepair

  datatype Code =
    | Passed | InvalidNid | DoubledNid | LostNid | DoubledBlk | SitMismatch | LostBlk
    | WrongBlockType | InvalidBlk | DeadNid | DeadBlk

  /** Visiting a list is visiting its first item and then the rest. */
  lemma WalkStep(vol: Volume, fix: bool, x: Item, items: seq<Item>, v: Visit)
    ensures Walk(vol, fix, [x] + items, v) ==
            match Walk(vol, fix, [x], v) { case None => None case Some(w) => Walk(vol, fix, items, w) }
  {
    assert ([x] + items)[1..] == items && ([x] + items)[0] == x;
    assert [x][1..] == [];
  }

  lemma WalkOne(vol: Volume, fix: bool, x: Item, v: Visit)
    ensures Walk(vol, fix, [x], v) ==
            if Passes(vol, fix, x, v) then Walk(vol, fix, Kids(vol, x), Mark(vol, fix, x, v)) else None
  {
    assert [x][1..] == [];
    if Passes(vol, fix, x, v) {
      MarkSmaller(vol, x, v.ids);
      assert forall w :: Walk(vol, fix, [], w) == Some(w);
    }
  }

  /** A node that passed all checks up to its content is walked by its content. */
  lemma NodeWalk(vol: Volume, fix: bool, x: Item, v: Visit, loc: Loc, c: Content, ssa: Ssa)
    requires x.NodeItem? && NodeAt(vol, x.nid) && vol.nats[x.nid].loc == loc && SitValid(vol, loc) && c == Node(vol, x.nid)
    requires (if x.asInode then c.InodeC? else c.IndexC?) && c.nid == x.nid
    requires Claims(vol, x) * v.ids == {} && (fix || Entry(v.ssa, loc) == Summary(x.nid, -1))
    requires ssa == if Entry(v.ssa, loc) != Summary(x.nid, -1) then v.ssa[loc := Summary(x.nid, -1)] else v.ssa
    ensures var w := Visit(v.ids + {Nid(x.nid), Blk(loc)}, ssa);
            Walk(vol, fix, [x], v) ==
            if x.asInode then
              if c.ino == x.nid && c.blkNum == BlkCount(vol, c.index)
              then Walk(vol, fix, IndexItems(c.index, c.fileType), w) else None
            else if c.validData == PtrCount(c.ptrs)
            then Walk(vol, fix, DataItems(x.nid, c.ptrs, 0, x.fileType.Directory?), w) else None
  {
    hide Walk, IndexItems, DataItems, BlkCount, PtrCount;
    WalkOne(vol, fix, x, v);
  }

  class Checker {
    const B: nat
    const fix: bool
    const nats: array<NatEntry>
    const sits: array<SitEntry>
    const cur: seq<CurSeg>
    const disk: map<Loc, Content>
    const nodeMap: array<bool>
    const mainMap: array2<bool>
    var freeNr: nat
    var ssa: Ssa
    var natDirty: set<nat>
    var segDirty: set<nat>
    ghost var ids: set<Id>
    ghost const natBase: seq<NatEntry>
    ghost const sitBase: seq<SitEntry>
    ghost const ssaBase: Ssa

    /** What a mount has loaded, with all bitmaps clear. */
    constructor (B: nat, fix: bool, nats: array<NatEntry>, sits: array<SitEntry>, cur: seq<CurSeg>, freeNr: nat,
                 disk: map<Loc, Content>, ssa: Ssa)
      ensures this.B == B && this.fix == fix && this.nats == nats && this.sits == sits && this.cur == cur
      ensures this.freeNr == freeNr && this.disk == disk && this.ssa == ssa && ids == {} && Marked()
      ensures natDirty == {} && segDirty == {} && natBase == nats[..] && sitBase == sits[..] && ssaBase == ssa && Kept()
      ensures fresh(nodeMap) && fresh(mainMap)
    {
      this.B, this.fix, this.nats, this.sits, this.cur := B, fix, nats, sits, cur;
      this.freeNr, this.disk, this.ssa, this.ids := freeNr, disk, ssa, {};
      natDirty, segDirty, natBase, sitBase, ssaBase := {}, {}, nats[..], sits[..], ssa;
      nodeMap := new bool[nats.Length](_ => false);
      mainMap := new bool[sits.Length, B]((_, _) => false);
    }

    ghost function Vol(): Volume
      reads this`freeNr, nats, sits
    {
      Volume(B, nats[..], sits[..], cur, freeNr, disk)
    }

    ghost function Vis(): Visit
      reads this`ids, this`ssa
    {
      Visit(ids, ssa)
    }

    /** The bitmaps hold the identifiers claimed so far. */
    ghost predicate Marked()
      reads this`ids, nodeMap, mainMap
    {
      && nodeMap.Length == nats.Length && mainMap.Length0 == sits.Length && mainMap.Length1 == B
      && (forall n :: 0 <= n < nodeMap.Length ==> (nodeMap[n] <==> Nid(n) in ids))
      && (forall s, b :: 0 <= s < mainMap.Length0 && 0 <= b < mainMap.Length1 ==> (mainMap[s, b] <==> Blk(Loc(s, b)) in ids))
    }

    /** What differs from what was loaded is marked dirty. */
    ghost predicate Kept()
      reads this`natDirty, this`segDirty, this`ssa, nats, sits
    {
      && |natBase| == nats.Length && (forall n: nat :: n < nats.Length && n !in natDirty ==> nats[n] == natBase[n])
      && |sitBase| == sits.Length && (forall s: nat :: s < sits.Length && s !in segDirty ==> sits[s] == sitBase[s])
      && (forall loc: Loc :: loc.seg !in segDirty ==> Entry(ssa, loc) == Entry(ssaBase, loc))
    }

    ghost predicate Sized()
      reads sits
    {
      forall s :: 0 <= s < sits.Length ==> |sits[s].valid| == B
    }

    // ----- The walk -----

    method SetNode(nid: nat)
      requires Marked() && nid < nodeMap.Length
      modifies this`ids, nodeMap
      ensures Marked() && ids == old(ids) + {Nid(nid)}
    {
      nodeMap[nid] := true;
      ids := ids + {Nid(nid)};
    }

    method SetMain(loc: Loc)
      requires Marked() && loc.seg < mainMap.Length0 && loc.blk < mainMap.Length1
      modifies this`ids, mainMap
      ensures Marked() && ids == old(ids) + {Blk(loc)}
    {
      mainMap[loc.seg, loc.blk] := true;
      ids := ids + {Blk(loc)};
    }

    /** Corrects the owner of a block. */
    method SetBlockInfo(loc: Loc, owner: Summary)
      requires Kept()
      modifies this`ssa, this`segDirty
      ensures Kept() && ssa == old(ssa)[loc := owner] && segDirty == old(segDirty) + {loc.seg}
    {
      ssa, segDirty := ssa[loc := owner], segDirty + {loc.seg};
    }

    /** Checks a node and everything below it. */
    method ChkNode(nid: int, asInode: bool, fileType: FileType) returns (r: Code, cnt: nat)
      requires Marked() && Kept() && Sized()
      modifies this`ids, this`ssa, this`segDirty, nodeMap, mainMap
      decreases Universe(Vol()) - ids, 0
      ensures Marked() && Kept() && old(ids) <= ids && old(segDirty) <= segDirty && (!fix ==> ssa == old(ssa) && segDirty == old(segDirty))
      ensures r.Passed? <==> Walk(Vol(), fix, [NodeItem(nid, asInode, fileType)], old(Vis())).Some?
      ensures r.Passed? ==> Walk(Vol(), fix, [NodeItem(nid, asInode, fileType)], old(Vis())).value == Vis()
      ensures r.Passed? && !asInode ==> cnt == IndexCount(Vol(), nid)
    {
      hide Checker.Kept, Walk, Kids, IndexCount, BlkCount, PtrCount, Universe, IndexItems, DataItems;
      ghost var x, v := NodeItem(nid, asInode, fileType), Vis();
      cnt := 0;
      WalkOne(Vol(), fix, x, v);
      if !(0 <= nid < nats.Length) {
        return InvalidNid, cnt;
      }
      if nodeMap[nid] {
        assert Nid(nid) in Claims(Vol(), x) * v.ids;
        return DoubledNid, cnt;
      }
      SetNode(nid);
      if !nats[nid].At? || nats[nid].loc.seg >= sits.Length || nats[nid].loc.blk >= B {
        return LostNid, cnt;
      }
      var loc := nats[nid].loc;
      if mainMap[loc.seg, loc.blk] {
        assert Blk(loc) in Claims(Vol(), x) * v.ids;
        return DoubledBlk, cnt;
      }
      if !sits[loc.seg].valid[loc.blk] {
        return SitMismatch, cnt;
      }
      assert Claims(Vol(), x) * v.ids == {};
      if Entry(ssa, loc) != Summary(nid, -1) {
        if fix {
          SetBlockInfo(loc, Summary(nid, -1));
        } else {
          return LostBlk, cnt;
        }
      }
      var c := if loc in disk then disk[loc] else OtherC;
      if if asInode then !c.InodeC? else !c.IndexC? {
        return WrongBlockType, cnt;
      }
      if c.nid != nid {
        return InvalidNid, cnt;
      }
      assert Universe(Vol()) - (ids + {Blk(loc)}) < Universe(Vol()) - v.ids by {
        MarkMore(Vol(), nid, loc, v.ids);
      }
      NodeWalk(Vol(), fix, x, v, loc, c, ssa);
      assert ids + {Blk(loc)} == v.ids + {Nid(nid), Blk(loc)};
      if asInode {
        r := ChkInode(nid, loc, c);
      } else {
        r, cnt := ChkIndex(nid, loc, c, fileType);
        IndexCountAt(Vol(), nid, c);
      }
    }

    /** Checks the index nodes of an inode and counts its data blocks. */
    method ChkInode(ino: int, loc: Loc, c: Content) returns (r: Code)
      requires Marked() && Kept() && Sized() && c.InodeC? && loc.seg < sits.Length && loc.blk < B
      modifies this`ids, this`ssa, this`segDirty, nodeMap, mainMap
      decreases Universe(Vol()) - (ids + {Blk(loc)}), 1
      ensures Marked() && Kept() && old(ids) <= ids && old(segDirty) <= segDirty && (!fix ==> ssa == old(ssa) && segDirty == old(segDirty))
      ensures r.Passed? <==>
                && c.ino == ino && c.blkNum == BlkCount(Vol(), c.index)
                && Walk(Vol(), fix, IndexItems(c.index, c.fileType), Visit(old(ids) + {Blk(loc)}, old(ssa))).Some?
      ensures r.Passed? ==>
                Walk(Vol(), fix, IndexItems(c.index, c.fileType), Visit(old(ids) + {Blk(loc)}, old(ssa))).value == Vis()
    {
      hide Checker.Kept, Walk, IndexCount, Universe;
      SetMain(loc);
      ghost var v := Vis();
      if c.ino != ino {
        return InvalidNid;
      }
      var cnt, ii := 0, 0;
      assert c.index[0..] == c.index;
      while ii < |c.index|
        invariant ii <= |c.index| && Marked() && Kept() && v.ids <= ids && old(segDirty) <= segDirty && (!fix ==> ssa == old(ssa) && segDirty == old(segDirty))
        invariant Walk(Vol(), fix, IndexItems(c.index, c.fileType), v) == Walk(Vol(), fix, IndexItems(c.index[ii..], c.fileType), Vis())
        invariant cnt + BlkCount(Vol(), c.index[ii..]) == BlkCount(Vol(), c.index)
      {
        assert c.index[ii..][1..] == c.index[ii + 1..] && c.index[ii..][0] == c.index[ii];
        if c.index[ii] != -1 {
          WalkStep(Vol(), fix, NodeItem(c.index[ii], false, c.fileType), IndexItems(c.index[ii + 1..], c.fileType), Vis());
          assert Universe(Vol()) - ids <= Universe(Vol()) - v.ids;
          var n;
          r, n := ChkNode(c.index[ii], false, c.fileType);
          if !r.Passed? {
            return;
          }
          cnt := cnt + n;
        } else {
          assert [] + IndexItems(c.index[ii + 1..], c.fileType) == IndexItems(c.index[ii + 1..], c.fileType);
        }
        ii := ii + 1;
      }
      WalkNone(Vol(), fix, Vis());
      r := if c.blkNum != cnt then InvalidNid else Passed;
    }

    /** Checks the data blocks of an index node. */
    method ChkIndex(nid: int, loc: Loc, c: Content, fileType: FileType) returns (r: Code, cnt: nat)
      requires Marked() && Kept() && Sized() && c.IndexC? && loc.seg < sits.Length && loc.blk < B
      modifies this`ids, this`ssa, this`segDirty, nodeMap, mainMap
      decreases Universe(Vol()) - (ids + {Blk(loc)}), 1
      ensures Marked() && Kept() && old(ids) <= ids && old(segDirty) <= segDirty && (!fix ==> ssa == old(ssa) && segDirty == old(segDirty))
      ensures r.Passed? <==>
                && c.validData == PtrCount(c.ptrs)
                && Walk(Vol(), fix, DataItems(nid, c.ptrs, 0, fileType.Directory?), Visit(old(ids) + {Blk(loc)}, old(ssa))).Some?
      ensures r.Passed? ==>
                Walk(Vol(), fix, DataItems(nid, c.ptrs, 0, fileType.Directory?), Visit(old(ids) + {Blk(loc)}, old(ssa))).value == Vis()
      ensures r.Passed? ==> cnt == PtrCount(c.ptrs)
    {
      hide Checker.Kept, Walk, Universe;
      SetMain(loc);
      ghost var v := Vis();
      cnt := 0;
      var ii := 0;
      assert c.ptrs[0..] == c.ptrs;
      while ii < |c.ptrs|
        invariant ii <= |c.ptrs| && Marked() && Kept() && v.ids <= ids && old(segDirty) <= segDirty && (!fix ==> ssa == old(ssa) && segDirty == old(segDirty))
        invariant Walk(Vol(), fix, DataItems(nid, c.ptrs, 0, fileType.Directory?), v) ==
                  Walk(Vol(), fix, DataItems(nid, c.ptrs[ii..], ii, fileType.Directory?), Vis())
        invariant cnt + PtrCount(c.ptrs[ii..]) == PtrCount(c.ptrs)
      {
        assert c.ptrs[ii..][1..] == c.ptrs[ii + 1..] && c.ptrs[ii..][0] == c.ptrs[ii];
        ghost var rest := DataItems(nid, c.ptrs[ii + 1..], ii + 1, fileType.Directory?);
        if c.ptrs[ii].Some? {
          WalkStep(Vol(), fix, DataItem(c.ptrs[ii].value, Summary(nid, ii), fileType.Directory?), rest, Vis());
          assert Universe(Vol()) - ids <= Universe(Vol()) - v.ids;
          cnt := cnt + 1;
          r := ChkData(nid, ii, c.ptrs[ii].value, fileType);
          if !r.Passed? {
            return;
          }
        } else {
          assert [] + rest == rest;
        }
        ii := ii + 1;
      }
      WalkNone(Vol(), fix, Vis());
      r := if c.validData != cnt then InvalidNid else Passed;
    }

    /** Checks a data block and, in a directory, the inodes it names. */
    method ChkData(nid: int, off: nat, loc: Loc, fileType: FileType) returns (r: Code)
      requires Marked() && Kept() && Sized()
      modifies this`ids, this`ssa, this`segDirty, nodeMap, mainMap
      decreases Universe(Vol()) - ids, 0
      ensures Marked() && Kept() && old(ids) <= ids && old(segDirty) <= segDirty && (!fix ==> ssa == old(ssa) && segDirty == old(segDirty))
      ensures r.Passed? <==> Walk(Vol(), fix, [DataItem(loc, Summary(nid, off), fileType.Directory?)], old(Vis())).Some?
      ensures r.Passed? ==> Walk(Vol(), fix, [DataItem(loc, Summary(nid, off), fileType.Directory?)], old(Vis())).value == Vis()
    {
      hide Checker.Kept, Walk, Universe, DentryItems;
      ghost var x, v := DataItem(loc, Summary(nid, off), fileType.Directory?), Vis();
      WalkOne(Vol(), fix, x, v);
      if loc.seg >= sits.Length || loc.blk >= B {
        return InvalidBlk;
      }
      if mainMap[loc.seg, loc.blk] {
        assert Blk(loc) in Claims(Vol(), x) * v.ids;
        return DoubledBlk;
      }
      assert Claims(Vol(), x) * v.ids == {};
      SetMain(loc);
      if !sits[loc.seg].valid[loc.blk] || Entry(ssa, loc) != Summary(nid, off) {
        if fix {
          SetBlockInfo(loc, Summary(nid, off));
        } else {
          return LostBlk;
        }
      }
      WalkNone(Vol(), fix, Vis());
      if !fileType.Directory? {
        return Passed;
      }
      var c := if loc in disk then disk[loc] else OtherC;
      if !c.DentryC? {
        return WrongBlockType;
      }
      MarkSmaller(Vol(), x, v.ids);
      r := ChkDentries(c.inos);
    }

    method ChkDentries(inos: seq<int>) returns (r: Code)
      requires Marked() && Kept() && Sized()
      modifies this`ids, this`ssa, this`segDirty, nodeMap, mainMap
      decreases Universe(Vol()) - ids, 1
      ensures Marked() && Kept() && old(ids) <= ids && old(segDirty) <= segDirty && (!fix ==> ssa == old(ssa) && segDirty == old(segDirty))
      ensures r.Passed? <==> Walk(Vol(), fix, DentryItems(inos), old(Vis())).Some?
      ensures r.Passed? ==> Walk(Vol(), fix, DentryItems(inos), old(Vis())).value == Vis()
    {
      hide Checker.Kept, Walk, Universe;
      ghost var v := Vis();
      var ii := 0;
      assert inos[0..] == inos;
      while ii < |inos|
        invariant ii <= |inos| && Marked() && Kept() && v.ids <= ids && old(segDirty) <= segDirty && (!fix ==> ssa == old(ssa) && segDirty == old(segDirty))
        invariant Walk(Vol(), fix, DentryItems(inos), v) == Walk(Vol(), fix, DentryItems(inos[ii..]), Vis())
      {
        assert inos[ii..][1..] == inos[ii + 1..] && inos[ii..][0] == inos[ii];
        if inos[ii] != -1 {
          WalkStep(Vol(), fix, NodeItem(inos[ii], true, UnknownType), DentryItems(inos[ii + 1..]), Vis());
          assert Universe(Vol()) - ids <= Universe(Vol()) - v.ids;
          var n;
          r, n := ChkNode(inos[ii], true, UnknownType);
          if !r.Passed? {
            return;
          }
        } else {
          assert [] + DentryItems(inos[ii + 1..]) == DentryItems(inos[ii + 1..]);
        }
        ii := ii + 1;
      }
      WalkNone(Vol(), fix, Vis());
      return Passed;
    }

    // ----- The counters -----

    /** Checks every bitmap against its counter and the segments against the free count. */
    method ChkMetadata() returns (r: Code)
      requires Sized()
      ensures r.Passed? <==> MetaOk(Vol())
    {
      var ii, inUse := 0, 0;
      while ii < sits.Length
        invariant ii <= sits.Length && inUse == SegsInUse(sits[..], cur, ii)
        invariant forall s :: 0 <= s < ii ==> sits[s].validNr == PopCount(sits[s].valid)
      {
        var e := sits[ii];
        var bb, nr := 0, 0;
        while bb < B
          invariant bb <= B && nr == PopCount(e.valid[..bb])
        {
          assert e.valid[..bb + 1][..bb] == e.valid[..bb];
          if e.valid[bb] {
            nr := nr + 1;
          }
          bb := bb + 1;
        }
        assert e.valid[..bb] == e.valid;
        if nr != e.validNr {
          assert Vol().sits[ii] == e;
          return SitMismatch;
        }
        if (e.temp < |cur| && cur[e.temp].segNo == ii) || e.validNr != 0 {
          inUse := inUse + 1;
        }
        ii := ii + 1;
      }
      r := if inUse + freeNr != sits.Length then SitMismatch else Passed;
    }

    // ----- Repairing -----

    method InvalidBlock(loc: Loc) returns (ok: bool)
      requires Kept() && Sized() && MetaOk(Vol())
      modifies sits, this`freeNr, this`ssa, this`segDirty
      ensures Kept() && old(segDirty) <= segDirty && (ok <==> SitValid(old(Vol()), loc))
      ensures !ok ==> Vol() == old(Vol()) && ssa == old(ssa) && segDirty == old(segDirty)
      ensures ok ==> old(Vol()).sits[loc.seg].validNr > 0 && Vol() == Drop(old(Vol()), loc) && ssa == old(ssa)[loc := NO_OWNER]
    {
      if loc.seg >= sits.Length || loc.blk >= B || !sits[loc.seg].valid[loc.blk] {
        return false;
      }
      ghost var vol := Vol();
      ValidCounted(vol, loc);
      var e := sits[loc.seg];
      var left := e.validNr - 1;
      var free := left == 0 && !(e.temp < |cur| && cur[e.temp].segNo == loc.seg);
      SetSit(loc.seg, SitEntry(e.valid[loc.blk := false], left, if free then TEMP_NR else e.temp));
      SetBlockInfo(loc, NO_OWNER);
      if free {
        freeNr := freeNr + 1;
      }
      ok := true;
      assert sits[..] == Drop(vol, loc).sits;
    }

    method SetSit(s: nat, e: SitEntry)
      requires Kept() && s < sits.Length
      modifies sits, this`segDirty
      ensures Kept() && sits[..] == old(sits[..])[s := e] && segDirty == old(segDirty) + {s}
    {
      sits[s] := e;
      segDirty := segDirty + {s};
    }

    method SetNat(n: nat, e: NatEntry)
      requires Kept() && n < nats.Length
      modifies nats, this`natDirty
      ensures Kept() && nats[..] == old(nats[..])[n := e] && natDirty == old(natDirty) + {n}
    {
      nats[n] := e;
      natDirty := natDirty + {n};
    }

    /** Returns the identifier of an unvisited node and the block where it lives. */
    method PutNode(nid: nat) returns (ok: bool)
      requires Kept() && Sized() && MetaOk(Vol()) && nid < nats.Length && nats[nid] != Unused
      modifies nats, sits, this`freeNr, this`ssa, this`natDirty, this`segDirty
      ensures Kept() && (ok <==> (old(nats[nid]).At? ==> SitValid(old(Vol()), old(nats[nid]).loc)))
      ensures ok && old(nats[nid]) == InUse ==> Vol() == old(Vol()).(nats := old(nats[..])[nid := Unused]) && ssa == old(ssa)
      ensures ok && old(nats[nid]).At? ==>
                && old(Vol()).sits[old(nats[nid]).loc.seg].validNr > 0
                && Vol() == Drop(old(Vol()), old(nats[nid]).loc).(nats := old(nats[..])[nid := Unused])
                && ssa == old(ssa)[old(nats[nid]).loc := NO_OWNER]
    {
      hide Checker.Kept, Drop, MetaOk;
      ok := true;
      if nats[nid].At? {
        ok := InvalidBlock(nats[nid].loc);
        if !ok {
          return;
        }
      }
      SetNat(nid, Unused);
    }

    /** Looks for allocated nodes that were not visited; a repair returns them. */
    method VerifyNodes() returns (r: Code)
      requires Marked() && Kept() && Sized() && MetaOk(Vol()) && |cur| <= TEMP_NR
      modifies nats, sits, this`freeNr, this`ssa, this`natDirty, this`segDirty
      ensures Kept() && (!fix ==> natDirty == old(natDirty) && segDirty == old(segDirty))
      ensures !fix ==> (r.Passed? <==> NoDeadNid(Vol(), ids)) && Vol() == old(Vol()) && ssa == old(ssa)
      ensures fix ==> (r.Passed? <==> DeadOk(old(Vol()), ids, nats.Length))
      ensures r.Passed? && fix ==> NodesDone(old(Vol()), ids, nats.Length, Vol()) && SsaFollows(Vol(), old(ssa), ssa)
    {
      hide Checker.Kept, MetaOk, Drop, SitValid;
      ghost var vol := Vol();
      var nn := 0;
      assert NodesDone(vol, ids, 0, vol);
      while nn < nats.Length
        invariant nn <= nats.Length && Kept() && (!fix ==> natDirty == old(natDirty) && segDirty == old(segDirty))
        invariant !fix ==> Vol() == vol && ssa == old(ssa) && forall n :: 0 <= n < nn && nats[n] != Unused ==> Nid(n) in ids
        invariant fix ==> NodesDone(vol, ids, nn, Vol()) && DeadOk(vol, ids, nn) && SsaFollows(Vol(), old(ssa), ssa)
      {
        assert fix ==> nats[nn] == vol.nats[nn];
        if nats[nn] != Unused && !nodeMap[nn] {
          if !fix {
            return DeadNid;
          }
          ghost var mid, s := Vol(), ssa;
          var ok := PutNode(nn);
          if !ok {
            return DoubledBlk;
          }
          NodesStep(vol, ids, nn, mid, Vol());
          FollowsStep(vol, ids, nn, mid, Vol(), old(ssa), s, ssa);
        } else if fix {
          NodesStep(vol, ids, nn, Vol(), Vol());
        }
        nn := nn + 1;
      }
      return Passed;
    }

    /** Looks for valid blocks that were not reached; a repair invalidates them. */
    method VerifyBlocks() returns (r: Code)
      requires Marked() && Kept() && Sized() && MetaOk(Vol()) && |cur| <= TEMP_NR
      modifies sits, this`freeNr, this`ssa, this`segDirty
      ensures Kept() && (!fix ==> segDirty == old(segDirty))
      ensures !fix ==> (r.Passed? <==> NoDeadBlk(Vol(), ids)) && Vol() == old(Vol()) && ssa == old(ssa)
      ensures fix ==> r.Passed? && BlksDone(old(Vol()), ids, sits.Length, 0, Vol()) && SsaFollows(Vol(), old(ssa), ssa)
    {
      hide Checker.Kept, MetaOk, Drop, SitValid;
      ghost var vol := Vol();
      var ii := 0;
      assert BlksDone(vol, ids, 0, 0, vol);
      while ii < sits.Length
        invariant ii <= sits.Length && Kept() && (!fix ==> segDirty == old(segDirty))
        invariant BlksDone(vol, ids, ii, 0, Vol()) && SsaFollows(Vol(), old(ssa), ssa)
        invariant !fix ==> Vol() == vol && ssa == old(ssa)
      {
        if sits[ii].validNr == 0 {
          BlksNext(vol, ids, ii, 0, Vol());
        } else {
          var bb := 0;
          while bb < B
            invariant bb <= B && Kept() && (!fix ==> segDirty == old(segDirty))
            invariant BlksDone(vol, ids, ii, bb, Vol()) && SsaFollows(Vol(), old(ssa), ssa)
            invariant !fix ==> Vol() == vol && ssa == old(ssa)
          {
            assert SitValid(Vol(), Loc(ii, bb)) <==> sits[ii].valid[bb] by { SitValidAt(Vol(), ii, bb); }
            ghost var mid, s := Vol(), ssa;
            if sits[ii].valid[bb] && !mainMap[ii, bb] {
              if !fix {
                return DeadBlk;
              }
              var ok := InvalidBlock(Loc(ii, bb));
              FollowsDrop(mid, Loc(ii, bb), old(ssa), s);
            }
            BlksStep(vol, ids, ii, bb, mid, Vol());
            bb := bb + 1;
          }
          BlksNext(vol, ids, ii, bb, Vol());
        }
        ii := ii + 1;
      }
      AllBlksBefore(vol, ids, Vol());
      return Passed;
    }

    /** The whole check.  Without repair it passes exactly the volumes it accepts and changes
        nothing; with repair it says what it leaves. */
    method Fsck() returns (r: Code)
      requires Marked() && Kept() && ids == {} && Sized() && |cur| <= TEMP_NR
      modifies this`ids, this`ssa, this`freeNr, this`natDirty, this`segDirty, nodeMap, mainMap, nats, sits
      ensures Kept() && (!fix ==> natDirty == old(natDirty) && segDirty == old(segDirty))
      ensures !fix ==> (r.Passed? <==> Accepts(old(Vol()), old(ssa))) && Vol() == old(Vol()) && ssa == old(ssa)
      ensures fix ==>
                (r.Passed? <==>
                && MetaOk(old(Vol()))
                && var w := Walk(old(Vol()), true, [ROOT], Visit({}, old(ssa)));
                w.Some? && DeadOk(old(Vol()), w.value.ids, nats.Length))
      ensures fix && r.Passed? ==>
                && Repaired(old(Vol()), ids, Vol())
                && (Accepts(Vol(), ssa) <==> Repairable(old(Vol()), ids))
                && var v := Walk(old(Vol()), true, [ROOT], Visit({}, old(ssa)));
                v.Some? && v.value.ids == ids && SsaFollows(Vol(), v.value.ssa, ssa)
    {
      hide Checker.Kept, MetaOk, Walk, SitValid, NoDeadNid, NoDeadBlk, DeadOk, NodesDone, BlksDone, SsaFollows, Repaired, Repairable, Accepts;
      ghost var vol, ssa0 := Vol(), ssa;
      AcceptsParts(vol, ssa);
      r := ChkMetadata();
      if !r.Passed? {
        return;
      }
      var cnt;
      r, cnt := ChkNode(0, true, Directory);
      if !r.Passed? {
        return;
      }
      ghost var v := Vis();
      r := VerifyNodes();
      if !r.Passed? {
        return;
      }
      ghost var mid, s := Vol(), ssa;
      if fix {
        DoneMeta(vol, ids, nats.Length, mid);
      }
      r := VerifyBlocks();
      if fix {
        RepairedNow(vol, ids, mid, Vol(), v.ssa, s, ssa);
        RepairExact(vol, ssa0, v, Vol(), ssa);
      }
    }
  }

  lemma WalkNone(vol: Volume, fix: bool, v: Visit)
    ensures Walk(vol, fix, [], v) == Some(v)
  {
  }

  lemma MarkMore(vol: Volume, nid: int, loc: Loc, ids: set<Id>)
    requires InMain(vol, loc) && Blk(loc) !in ids
    ensures Universe(vol) - (ids + {Nid(nid)} + {Blk(loc)}) < Universe(vol) - ids
  {
    var id := Blk(Loc(loc.seg, loc.blk));
    assert id in Universe(vol);
    assert Universe(vol) - (ids + {Nid(nid)} + {Blk(loc)}) <= Universe(vol) - ids;
  }

  lemma IndexCountAt(vol: Volume, nid: int, c: Content)
    requires c.IndexC? && Node(vol, nid) == c
    ensures IndexCount(vol, nid) == PtrCount(c.ptrs)
  {
  }

  lemma SitValidAt(vol: Volume, s: nat, b: nat)
    requires s < |vol.sits| && b < vol.B && |vol.sits[s].valid| == vol.B
    ensures SitValid(vol, Loc(s, b)) <==> vol.sits[s].valid[b]
  {
  }

  lemma FollowsStep(vol: Volume, ids: set<Id>, n: nat, mid: Volume, vol': Volume, ssa0: Ssa, ssa: Ssa, ssa': Ssa)
    requires NodesDone(vol, ids, n, mid) && NodesDone(vol, ids, n + 1, vol') && n < |vol.nats| && Nid(n) !in ids
    requires SsaFollows(mid, ssa0, ssa)
    requires vol.nats[n] == InUse ==> ssa' == ssa
    requires vol.nats[n].At? ==> ssa' == ssa[vol.nats[n].loc := NO_OWNER]
    requires vol.nats[n] != Unused
    ensures SsaFollows(vol', ssa0, ssa')
  {
    hide SitValid, SameFrame;
    forall loc | SitValid(vol', loc) ensures Entry(ssa', loc) == Entry(ssa0, loc) {
      DeadGrows(vol, ids, n, loc);
    }
  }

  lemma FollowsDrop(mid: Volume, loc: Loc, ssa0: Ssa, ssa: Ssa)
    requires SsaFollows(mid, ssa0, ssa) && SitValid(mid, loc) && mid.sits[loc.seg].validNr > 0
    requires MetaOk(mid) && Shaped(mid) && |mid.cur| <= TEMP_NR
    ensures SsaFollows(Drop(mid, loc), ssa0, ssa[loc := NO_OWNER])
  {
    DropEffect(mid, loc);
  }

  lemma AllBlksBefore(vol: Volume, ids: set<Id>, vol': Volume)
    requires BlksDone(vol, ids, |vol'.sits|, 0, vol')
    ensures NoDeadBlk(vol', ids)
  {
    forall loc | SitValid(vol', loc) ensures Blk(loc) in ids {
      assert Before(|vol'.sits|, 0, loc);
    }
  }

  lemma AcceptsParts(vol: Volume, ssa: Ssa)
    ensures Accepts(vol, ssa) <==>
              && MetaOk(vol)
              && var r := Walk(vol, false, [ROOT], Visit({}, ssa));
              r.Some? && NoDeadNid(vol, r.value.ids) && NoDeadBlk(vol, r.value.ids)
  {
  }

  lemma DoneMeta(vol: Volume, ids: set<Id>, n: nat, vol': Volume)
    requires NodesDone(vol, ids, n, vol')
    ensures MetaOk(vol') && Shaped(vol')
  {
  }

  lemma RepairedNow(vol: Volume, ids: set<Id>, mid: Volume, vol': Volume, ssa: Ssa, ssa1: Ssa, ssa2: Ssa)
    requires NodesDone(vol, ids, |vol.nats|, mid) && BlksDone(mid, ids, |mid.sits|, 0, vol')
    requires SsaFollows(mid, ssa, ssa1) && SsaFollows(vol', ssa1, ssa2)
    ensures Repaired(vol, ids, vol') && SsaFollows(vol', ssa, ssa2)
  {
    hide MetaOk;
    forall loc ensures SitValid(vol', loc) <==> SitValid(vol, loc) && Blk(loc) in ids && !DeadAt(vol, ids, |vol.nats|, loc) {
      if SitValid(mid, loc) {
        assert Before(|mid.sits|, 0, loc);
      }
    }
  }
}
