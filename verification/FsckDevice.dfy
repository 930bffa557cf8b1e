/** Check and repair against the medium: a check mounts first, a repair ends with a checkpoint, and the
    next check mounts what that left. */
module FsckDevice {
  import opened Segments
  import opened Mapping
  import opened Medium
  import opened Checkpoint
  import opened Fsck
  import opened FsckRepair
  import opened FsckRun

  /** A segment without a valid block that is not current is free. */
  function FreshSit(e: SitEntry, cur: seq<CurSeg>, s: nat): SitEntry {
    if e.validNr == 0 && !(e.temp < |cur| && cur[e.temp].segNo == s) then e.(temp := TEMP_NR) else e
  }

  function FreshSits(sits: seq<SitEntry>, cur: seq<CurSeg>): seq<SitEntry> {
    seq(|sits|, s requires 0 <= s < |sits| => FreshSit(sits[s], cur, s))
  }

  /** Free segments below `n`. */
  function FreeSegs(sits: seq<SitEntry>, cur: seq<CurSeg>, n: nat): nat
    requires n <= |sits|
  {
    if n == 0 then 0 else FreeSegs(sits, cur, n - 1) + if SegInUse(sits, cur, n - 1) then 0 else 1
  }

  lemma {:induction false} FreeOrUsed(sits: seq<SitEntry>, cur: seq<CurSeg>, n: nat)
    requires n <= |sits|
    ensures SegsInUse(sits, cur, n) + FreeSegs(sits, cur, n) == n
  {
    if n > 0 {
      FreeOrUsed(sits, cur, n - 1);
    }
  }

  /** The volume a mount has in memory: the tables of the newest checkpoint with the free segments
      counted again, over the main area. */
  function MountedVol(B: nat, s: Snapshot, disk: map<Loc, Content>): Volume {
    var sits := FreshSits(s.sits, s.cur);
    Volume(B, s.nats, sits, s.cur, FreeSegs(sits, s.cur, |sits|), disk)
  }

  /** The bitmaps and the blocks of owners have the size of a segment. */
  ghost predicate FieldsOk(B: nat, s: Snapshot, d: Disk) {
    && |s.cur| == TEMP_NR
    && forall i: nat :: i < |s.sits| ==>
      |s.sits[i].valid| == B && SsaAt(i) in d && d[SsaAt(i)].SsaB? && |d[SsaAt(i)].owners| == B
  }

  /** The reverse map on the medium. */
  function OwnersOn(B: nat, n: nat, d: Disk): Ssa
    requires forall i: nat :: i < n ==> SsaAt(i) in d && d[SsaAt(i)].SsaB? && |d[SsaAt(i)].owners| == B
  {
    map s: nat, b: nat | s < n && b < B :: Loc(s, b) := d[SsaAt(s)].owners[b]
  }

  /** A volume as the next mount has it. */
  function Refresh(vol: Volume): Volume {
    MountedVol(vol.B, Snapshot(vol.nats, vol.sits, vol.cur), vol.disk)
  }

  lemma RefreshMounted(B: nat, s: Snapshot, disk: map<Loc, Content>)
    ensures Refresh(MountedVol(B, s, disk)) == MountedVol(B, s, disk)
  {
    var sits := FreshSits(s.sits, s.cur);
    assert FreshSits(sits, s.cur) == sits;
  }

  /** Counting the free segments again keeps a volume repaired. */
  lemma RefreshRepaired(vol: Volume, ids: set<Id>, a: Volume)
    requires Repaired(vol, ids, a)
    ensures Repaired(vol, ids, Refresh(a))
    ensures forall loc :: SitValid(Refresh(a), loc) <==> SitValid(a, loc)
  {
    var b := Refresh(a);
    FreeOrUsed(b.sits, b.cur, |b.sits|);
    assert forall s :: 0 <= s < |a.sits| ==> b.sits[s].valid == a.sits[s].valid && b.sits[s].validNr == a.sits[s].validNr;
  }

  /** What the next check finds after a repair. */
  lemma NextCheck(vol: Volume, ssa: Ssa, v: Visit, a: Volume, ssa1: Ssa, ssa2: Ssa)
    requires Walk(vol, true, [ROOT], Visit({}, ssa)) == Some(v) && Repaired(vol, v.ids, a) && SsaFollows(a, v.ssa, ssa1)
    requires forall loc :: InMain(a, loc) ==> Entry(ssa2, loc) == Entry(ssa1, loc)
    ensures Accepts(Refresh(a), ssa2) <==> Repairable(vol, v.ids)
  {
    hide Walk, Accepts, Repairable, Repaired, Refresh;
    RefreshRepaired(vol, v.ids, a);
    RepairExact(vol, ssa, v, Refresh(a), ssa2);
  }

  /** The owners of one segment. */
  function OwnerBlk(ssa: Ssa, B: nat, s: nat): seq<Summary> {
    seq(B, b requires 0 <= b < B => Entry(ssa, Loc(s, b)))
  }

  /** The owners below segment `n` are on the medium. */
  ghost predicate OwnersStored(B: nat, n: nat, ssa: Ssa, d: Disk) {
    forall s: nat :: s < n ==> Stored(d, SsaAt(s), SsaB(OwnerBlk(ssa, B, s)))
  }

  lemma CleanOwners(B: nat, n: nat, ssa0: Ssa, ssa: Ssa, d: Disk, s: nat)
    requires s < n && (forall i: nat :: i < n ==> SsaAt(i) in d && d[SsaAt(i)].SsaB? && |d[SsaAt(i)].owners| == B)
    requires ssa0 == OwnersOn(B, n, d) && forall loc: Loc :: loc.seg == s ==> Entry(ssa, loc) == Entry(ssa0, loc)
    ensures d[SsaAt(s)] == SsaB(OwnerBlk(ssa, B, s))
  {
    assert d[SsaAt(s)].owners == OwnerBlk(ssa, B, s);
  }

  lemma StoredOwners(B: nat, n: nat, ssa: Ssa, d: Disk)
    requires OwnersStored(B, n, ssa, d)
    ensures forall i: nat :: i < n ==> SsaAt(i) in d && d[SsaAt(i)].SsaB? && |d[SsaAt(i)].owners| == B
    ensures forall loc: Loc :: loc.seg < n && loc.blk < B ==> Entry(OwnersOn(B, n, d), loc) == Entry(ssa, loc)
  {
    forall i: nat | i < n ensures SsaAt(i) in d && d[SsaAt(i)].SsaB? && |d[SsaAt(i)].owners| == B {
      assert Stored(d, SsaAt(i), SsaB(OwnerBlk(ssa, B, i)));
    }
    forall loc: Loc | loc.seg < n && loc.blk < B ensures Entry(OwnersOn(B, n, d), loc) == Entry(ssa, loc) {
      assert Stored(d, SsaAt(loc.seg), SsaB(OwnerBlk(ssa, B, loc.seg)));
    }
  }

  lemma StoredFields(B: nat, s: Snapshot, ssa: Ssa, d: Disk)
    requires OwnersStored(B, |s.sits|, ssa, d) && |s.cur| == TEMP_NR && forall i :: 0 <= i < |s.sits| ==> |s.sits[i].valid| == B
    ensures FieldsOk(B, s, d)
  {
    StoredOwners(B, |s.sits|, ssa, d);
  }

  lemma SameVol(B: nat, s: Snapshot, sits: seq<SitEntry>, disk: map<Loc, Content>)
    requires FreshSits(s.sits, s.cur) == FreshSits(sits, s.cur)
    ensures MountedVol(B, s, disk) == MountedVol(B, s.(sits := sits), disk)
  {
  }

  lemma StoredSame(B: nat, n: nat, ssa: Ssa, d: Disk, d': Disk)
    requires OwnersStored(B, n, ssa, d) && SsaSame(d, d')
    ensures OwnersStored(B, n, ssa, d')
  {
    forall s: nat | s < n ensures Stored(d', SsaAt(s), SsaB(OwnerBlk(ssa, B, s))) {
      assert Stored(d, SsaAt(s), SsaB(OwnerBlk(ssa, B, s)));
    }
  }

  lemma StillSized(vol: Volume, ids: set<Id>, vol': Volume, fix: bool)
    requires if fix then Repaired(vol, ids, vol') else vol' == vol && Shaped(vol)
    ensures Shaped(vol') && vol'.B == vol.B && |vol'.sits| == |vol.sits|
  {
  }

  /** A medium with its main area. */
  class Device {
    const B: nat
    const c: Checkpointer
    const disk: map<Loc, Content>

    constructor (B: nat, c: Checkpointer, disk: map<Loc, Content>)
      requires c.Valid() && c.commits != [] && FieldsOk(B, c.commits[|c.commits| - 1].snap, c.disk)
      ensures this.B == B && this.c == c && this.disk == disk && Valid()
    {
      this.B, this.c, this.disk := B, c, disk;
    }

    ghost predicate Valid()
      reads c, c.nats, c.sits, c.natVer, c.sitVer, c.nats.journal, c.sits.journal, c.nats.cells, c.sits.cells, c.nats.dirty, c.sits.dirty
    {
      c.Valid() && c.commits != [] && FieldsOk(B, Last(), c.disk)
    }

    /** What the newest checkpoint means. */
    ghost function Last(): Snapshot
      requires c.commits != []
      reads c
    {
      c.commits[|c.commits| - 1].snap
    }

    /** What a mount would have in memory. */
    ghost function Vol(): Volume
      requires c.commits != []
      reads c
    {
      MountedVol(B, Last(), disk)
    }

    ghost function Owners(): Ssa
      requires c.commits != [] && FieldsOk(B, Last(), c.disk)
      reads c
    {
      OwnersOn(B, |Last().sits|, c.disk)
    }

    /** Loads the tables, counts the free segments and reads the owners. */
    method Mount() returns (nats: array<NatEntry>, sits: array<SitEntry>, freeNr: nat, ssa: Ssa)
      requires Valid()
      modifies c, c.nats, c.sits, c.natVer, c.sitVer, c.nats.journal, c.sits.journal, c.nats.cells, c.sits.cells, c.nats.dirty, c.sits.dirty, c.cur
      ensures Valid() && c.log == old(c.log) && c.disk == old(c.disk) && c.commits == old(c.commits) && c.Memory() == Last()
      ensures fresh(nats) && fresh(sits) && ssa == Owners()
      ensures Volume(B, nats[..], sits[..], c.cur[..], freeNr, disk) == Vol()
    {
      hide FreshSits, FreeSegs, History, Holds, Replay;
      c.Mount();
      nats := new NatEntry[c.nats.cells.Length](n requires 0 <= n < c.nats.cells.Length reads c.nats.cells => c.nats.cells[n]);
      assert nats[..] == c.nats.cells[..];
      hide Checkpointer.Valid;
      sits, freeNr := BuildFree();
      ssa := ReadOwners();
    }

    /** Frees every segment without a valid block that is not current. */
    method BuildFree() returns (sits: array<SitEntry>, freeNr: nat)
      requires c.cur.Length == TEMP_NR
      ensures fresh(sits) && sits[..] == FreshSits(c.sits.cells[..], c.cur[..]) && freeNr == FreeSegs(sits[..], c.cur[..], sits.Length)
    {
      ghost var all, cur := FreshSits(c.sits.cells[..], c.cur[..]), c.cur[..];
      sits := new SitEntry[c.sits.cells.Length](s requires 0 <= s < c.sits.cells.Length reads c.sits.cells => c.sits.cells[s]);
      freeNr := 0;
      var ii := 0;
      while ii < sits.Length
        invariant ii <= sits.Length && freeNr == FreeSegs(all, cur, ii)
        invariant forall s :: 0 <= s < ii ==> sits[s] == all[s]
        invariant forall s :: ii <= s < sits.Length ==> sits[s] == c.sits.cells[s]
      {
        if sits[ii].validNr == 0 && !(sits[ii].temp < c.cur.Length && c.cur[sits[ii].temp].segNo == ii) {
          sits[ii] := sits[ii].(temp := TEMP_NR);
          freeNr := freeNr + 1;
        }
        ii := ii + 1;
      }
      assert sits[..] == all;
    }

    /** Reads the owners of all blocks. */
    method ReadOwners() returns (ssa: Ssa)
      requires c.commits != [] && FieldsOk(B, Last(), c.disk) && c.sits.cells.Length == |Last().sits|
      ensures ssa == Owners()
    {
      ssa := map[];
      var s := 0;
      while s < c.sits.cells.Length
        invariant s <= c.sits.cells.Length && ssa == OwnersOn(B, s, c.disk)
      {
        var owners := c.disk[SsaAt(s)].owners;
        ssa := ssa + map b: nat | b < B :: Loc(s, b) := owners[b];
        s := s + 1;
      }
    }

    /** The header of pack `p` is whole: its versions agree, even when they are the zero of a format. */
    predicate Whole(p: nat)
      reads c
    {
      HeadAt(p) in c.disk && c.disk[HeadAt(p)].HeadB? && c.disk[HeadAt(p)].head.open == c.disk[HeadAt(p)].head.close
    }

    /** How many of the two headers are whole. */
    function Health(): nat
      reads c
    {
      (if Whole(0) then 1 else 0) + (if Whole(1) then 1 else 0)
    }

    ghost predicate CkptValid()
      reads c, c.nats, c.sits, c.natVer, c.sitVer, c.nats.journal, c.sits.journal, c.nats.cells, c.sits.cells, c.nats.dirty, c.sits.dirty
    {
      c.Valid()
    }

    lemma CkptSizes()
      requires CkptValid()
      ensures c.nats.cells.Length == c.g.nodeNr && c.sits.cells.Length == c.g.segNr && c.cur.Length == TEMP_NR
      ensures c.nats.dirty != c.sits.dirty
    {
    }

    /** The check `k` started from what a mount of this medium has in memory. */
    ghost predicate From(k: Checker)
      reads c
    {
      && c.commits != [] && FieldsOk(B, Last(), c.disk) && k.B == B && k.cur == Last().cur
      && k.natBase == Last().nats && k.sitBase == FreshSits(Last().sits, Last().cur) && k.ssaBase == Owners()
    }

    /** Hands the identifiers marked dirty to the checkpoint. */
    method StoreNats(k: Checker)
      requires CkptValid() && k.Kept() && c.nats.cells[..] == k.natBase && k.nats != c.nats.cells
      modifies c.nats.cells, c.nats.dirty
      ensures CkptValid() && c.nats.cells[..] == k.nats[..]
      ensures forall i: nat :: i < c.nats.dirty.Length && i !in k.natDirty ==> c.nats.dirty[i] == old(c.nats.dirty[i])
    {
      hide Device.CkptValid;
      CkptSizes();
      var n := 0;
      while n < k.nats.Length
        invariant n <= k.nats.Length && CkptValid()
        invariant forall i :: 0 <= i < n ==> c.nats.cells[i] == k.nats[i]
        invariant forall i :: n <= i < k.nats.Length ==> c.nats.cells[i] == k.natBase[i]
        invariant forall i: nat :: i < c.nats.dirty.Length && i !in k.natDirty ==> c.nats.dirty[i] == old(c.nats.dirty[i])
      {
        if n in k.natDirty {
          StoreNat(n, k.nats[n]);
        }
        n := n + 1;
      }
    }

    /** Hands the segments marked dirty to the checkpoint. */
    method StoreSits(k: Checker)
      requires CkptValid() && k.Kept() && k.sitBase == FreshSits(c.sits.cells[..], k.cur) && k.sits != c.sits.cells
      requires (forall s :: 0 <= s < k.sits.Length ==> |k.sits[s].valid| == B) && |k.cur| == TEMP_NR
      modifies c.sits.cells, c.sits.dirty
      ensures CkptValid() && FreshSits(c.sits.cells[..], k.cur) == FreshSits(k.sits[..], k.cur)
      ensures forall i: nat :: i < c.sits.dirty.Length && i !in k.segDirty ==> c.sits.dirty[i] == old(c.sits.dirty[i])
      ensures forall s :: 0 <= s < c.sits.cells.Length ==> |c.sits.cells[s].valid| == B
    {
      hide Device.CkptValid;
      CkptSizes();
      ghost var was := c.sits.cells[..];
      var s := 0;
      while s < k.sits.Length
        invariant s <= k.sits.Length && CkptValid()
        invariant forall i :: 0 <= i < s ==> c.sits.cells[i] == if i in k.segDirty then k.sits[i] else was[i]
        invariant forall i :: s <= i < k.sits.Length ==> c.sits.cells[i] == was[i]
        invariant forall i: nat :: i < c.sits.dirty.Length && i !in k.segDirty ==> c.sits.dirty[i] == old(c.sits.dirty[i])
      {
        if s in k.segDirty {
          StoreSit(s, k.sits[s]);
        }
        s := s + 1;
      }
      forall i | 0 <= i < k.sits.Length
        ensures FreshSit(c.sits.cells[i], k.cur, i) == FreshSit(k.sits[i], k.cur, i) && |c.sits.cells[i].valid| == B
      {
        if i !in k.segDirty {
          assert k.sits[i] == k.sitBase[i] == FreshSit(was[i], k.cur, i);
        }
      }
    }

    /** Writes the owners of the segments marked dirty. */
    method StoreOwners(k: Checker)
      requires CkptValid() && From(k) && k.Kept()
      modifies c`log, c`disk
      ensures CkptValid() && c.commits == old(c.commits) && OwnersStored(B, k.sits.Length, k.ssa, c.disk)
      ensures OnlyMarked(old(c.log), c.log, k.segDirty)
    {
      hide Device.CkptValid, OwnerBlk, OnlyMarked;
      ghost var d, log0 := c.disk, c.log;
      NothingWritten(log0, k.segDirty);
      var ssa, s := k.ssa, 0;
      while s < k.sits.Length
        modifies c`log, c`disk
        invariant s <= k.sits.Length && CkptValid() && c.commits == old(c.commits) && OwnersStored(B, s, k.ssa, c.disk)
        invariant OnlyMarked(log0, c.log, k.segDirty)
        invariant forall i: nat :: s <= i < k.sits.Length ==> SsaAt(i) in c.disk && c.disk[SsaAt(i)] == d[SsaAt(i)]
      {
        if s in k.segDirty {
          MarkedMore(log0, c.log, k.segDirty, s, SsaB(OwnerBlk(ssa, B, s)));
          StoreSummary(s, OwnerBlk(ssa, B, s));
        } else {
          CleanOwners(B, |Last().sits|, k.ssaBase, k.ssa, d, s);
        }
        s := s + 1;
      }
    }

    method StoreNat(n: nat, e: NatEntry)
      requires CkptValid() && n < c.nats.cells.Length
      modifies c.nats.cells, c.nats.dirty
      ensures CkptValid() && c.nats.cells[..] == old(c.nats.cells[..])[n := e] && c.nats.dirty[..] == old(c.nats.dirty[..])[n := true]
    {
      c.SetNat(n, e);
    }

    method StoreSit(s: nat, e: SitEntry)
      requires CkptValid() && s < c.sits.cells.Length
      modifies c.sits.cells, c.sits.dirty
      ensures CkptValid() && c.sits.cells[..] == old(c.sits.cells[..])[s := e] && c.sits.dirty[..] == old(c.sits.dirty[..])[s := true]
    {
      c.SetSit(s, e);
    }

    method StoreSummary(s: nat, owners: seq<Summary>)
      requires CkptValid()
      modifies c`log, c`disk
      ensures CkptValid() && c.commits == old(c.commits) && c.disk == old(c.disk)[SsaAt(s) := SsaB(owners)]
      ensures c.log == old(c.log) + [Write(SsaAt(s), SsaB(owners))]
    {
      c.WriteSummary(s, owners);
    }

    method StoreCheckpoint()
      requires CkptValid()
      modifies c, c.nats, c.sits, c.natVer, c.sitVer, c.nats.journal, c.sits.journal, c.nats.dirty, c.sits.dirty
      ensures CkptValid() && c.commits != [] && Last() == c.Memory() == old(c.Memory()) && SsaSame(old(c.disk), c.disk)
      ensures |c.commits| == |old(c.commits)| + 1
    {
      hide Holds, History, Replay, NatPages, SitPages, HeadsOk;
      c.WriteCheckpoint();
    }

    /** Writes what a check has marked dirty, and completes a checkpoint: a mount then has the volume
        of the check, with the free segments counted again. */
    method Sync(k: Checker)
      requires Valid() && k.Kept() && c.Memory() == Last() && From(k) && k.nats != c.nats.cells && k.sits != c.sits.cells
      requires forall s :: 0 <= s < k.sits.Length ==> |k.sits[s].valid| == B
      modifies c, c.nats, c.sits, c.natVer, c.sitVer, c.nats.journal, c.sits.journal, c.nats.cells, c.sits.cells, c.nats.dirty, c.sits.dirty
      ensures Valid() && Vol() == MountedVol(B, Snapshot(k.nats[..], k.sits[..], k.cur), disk) && |c.commits| == |old(c.commits)| + 1
      ensures forall loc: Loc :: loc.seg < k.sits.Length && loc.blk < B ==> Entry(Owners(), loc) == Entry(k.ssa, loc)
    {
      hide Checkpointer.Valid, Device.CkptValid, FreshSits, MountedVol, OwnersStored, SsaSame, Checker.Kept, FieldsOk, OwnersOn, OnlyMarked, Entry;
      ValidCkpt();
      KeptSizes(k);
      StoreOwners(k);
      StoreTables(k);
      ghost var d := c.disk;
      StoreCheckpoint();
      StoredSame(B, k.sits.Length, k.ssa, d, c.disk);
      StoredOwners(B, k.sits.Length, k.ssa, c.disk);
      StoredFields(B, Last(), k.ssa, c.disk);
      SameVol(B, Last(), k.sits[..], disk);
      ValidCkpt();
    }

    method StoreTables(k: Checker)
      requires CkptValid() && k.Kept() && k.nats != c.nats.cells && k.sits != c.sits.cells && c.cur[..] == k.cur
      requires c.nats.cells[..] == k.natBase && k.sitBase == FreshSits(c.sits.cells[..], k.cur)
      requires forall s :: 0 <= s < k.sits.Length ==> |k.sits[s].valid| == B
      modifies c.nats.cells, c.nats.dirty, c.sits.cells, c.sits.dirty
      ensures CkptValid() && c.nats.cells[..] == k.nats[..] && c.cur[..] == k.cur && |k.cur| == TEMP_NR
      ensures FreshSits(c.sits.cells[..], k.cur) == FreshSits(k.sits[..], k.cur)
      ensures forall i: nat :: i < c.nats.dirty.Length && i !in k.natDirty ==> c.nats.dirty[i] == old(c.nats.dirty[i])
      ensures forall i: nat :: i < c.sits.dirty.Length && i !in k.segDirty ==> c.sits.dirty[i] == old(c.sits.dirty[i])
      ensures c.sits.cells.Length == k.sits.Length && forall s :: 0 <= s < c.sits.cells.Length ==> |c.sits.cells[s].valid| == B
    {
      hide Device.CkptValid, FreshSit;
      KeptSizes(k);
      CkptSizes();
      StoreNats(k);
      StoreSits(k);
    }

    lemma KeptSizes(k: Checker)
      requires k.Kept()
      ensures k.nats.Length == |k.natBase| && k.sits.Length == |k.sitBase|
    {
    }

    /** Ends a check that passed: when something was repaired, or a header is not whole, a checkpoint is
        written.  Either way a mount then has what the check has left. */
    method Finish(k: Checker)
      requires Valid() && k.Kept() && c.Memory() == Last() && From(k) && k.disk == disk && k.nats != c.nats.cells && k.sits != c.sits.cells
      requires forall s :: 0 <= s < k.sits.Length ==> |k.sits[s].valid| == B
      modifies c, c.nats, c.sits, c.natVer, c.sitVer, c.nats.journal, c.sits.journal, c.nats.cells, c.sits.cells, c.nats.dirty, c.sits.dirty
      ensures Valid() && Vol() == Refresh(k.Vol())
      ensures |c.commits| == |old(c.commits)| + if k.natDirty != {} || k.segDirty != {} || old(Health()) < 2 then 1 else 0
      ensures forall loc: Loc :: loc.seg < k.sits.Length && loc.blk < B ==> Entry(Owners(), loc) == Entry(k.ssa, loc)
    {
      hide FreshSits, FreeSegs, Checkpointer.Valid;
      if k.natDirty != {} || k.segDirty != {} || Health() < 2 {
        Sync(k);
      } else {
        assert k.nats[..] == k.natBase && k.sits[..] == k.sitBase;
        RefreshMounted(B, Last(), disk);
      }
    }

    /** Mounts, checks the whole volume and, after a repair, completes a checkpoint of what it leaves.
        Without repair it passes exactly the volumes that it accepts, and a mount has the same volume
        afterwards.  A check that throws leaves the medium alone.  A repair that passes leaves a medium
        whose next check passes exactly when everything that the repair reached was valid and no
        unvisited node lived at a reached block. */
    method Fsck(fix: bool) returns (r: Code, ghost ids: set<Id>)
      requires Valid()
      modifies c, c.nats, c.sits, c.natVer, c.sitVer, c.nats.journal, c.sits.journal, c.nats.cells, c.sits.cells, c.nats.dirty, c.sits.dirty, c.cur
      ensures Valid()
      ensures !r.Passed? ==> c.log == old(c.log) && c.commits == old(c.commits)
      ensures !fix ==> (r.Passed? <==> Accepts(old(Vol()), old(Owners()))) && Vol() == old(Vol()) && Owners() == old(Owners())
      ensures !fix && r.Passed? ==> |c.commits| == |old(c.commits)| + if old(Health()) < 2 then 1 else 0
      ensures fix ==>
                (r.Passed? <==>
                && MetaOk(old(Vol()))
                && var w := Walk(old(Vol()), true, [ROOT], Visit({}, old(Owners())));
                w.Some? && DeadOk(old(Vol()), w.value.ids, |old(Vol()).nats|))
      ensures fix && r.Passed? ==>
                && var w := Walk(old(Vol()), true, [ROOT], Visit({}, old(Owners())));
                w.Some? && w.value.ids == ids && (Accepts(Vol(), Owners()) <==> Repairable(old(Vol()), ids))
    {
      hide Checkpointer.Valid, FieldsOk, FreshSits, FreeSegs, Walk, Accepts, Repairable, Repaired, DeadOk, MetaOk, SsaFollows, Checker.Kept,
           Refresh, MountedVol, OwnersOn, Device.From;
      ghost var vol, ssa0 := Vol(), Owners();
      ids := {};
      OwnersRange();
      var k := Begin(fix);
      r := k.Fsck();
      if !r.Passed? {
        return;
      }
      ids := k.ids;
      StillSized(vol, ids, k.Vol(), fix);
      Finish(k);
      OwnersRange();
      RefreshSame(k.Vol());
      if fix {
        NextCheck(vol, ssa0, Walk(vol, true, [ROOT], Visit({}, ssa0)).value, k.Vol(), k.ssa, Owners());
      } else {
        RefreshMounted(B, old(Last()), disk);
        SameAgain(vol, ssa0, Owners());
      }
    }

    /** A repair, and a check after it that mounts what the repair left: it passes exactly when the
        volume was repairable. */
    method RepairThenCheck() returns (first: Code, second: Code, ghost ids: set<Id>)
      requires Valid()
      modifies c, c.nats, c.sits, c.natVer, c.sitVer, c.nats.journal, c.sits.journal, c.nats.cells, c.sits.cells, c.nats.dirty, c.sits.dirty, c.cur
      ensures Valid()
      ensures first.Passed? <==>
                && MetaOk(old(Vol()))
                && var w := Walk(old(Vol()), true, [ROOT], Visit({}, old(Owners())));
                w.Some? && DeadOk(old(Vol()), w.value.ids, |old(Vol()).nats|)
      ensures first.Passed? ==> (second.Passed? <==> Repairable(old(Vol()), ids))
      ensures first.Passed? ==> (second.Passed? <==> Consistent(Vol(), Owners()))
    {
      hide Checkpointer.Valid, FieldsOk, FreshSits, FreeSegs, Walk, Accepts, Repairable, DeadOk, MetaOk, MountedVol, OwnersOn, Consistent;
      first, ids := Fsck(true);
      second := first;
      if first.Passed? {
        ghost var none;
        second, none := Fsck(false);
        CheckExact(Vol(), Owners());
      }
    }

    /** Mounts and sets up a check. */
    method Begin(fix: bool) returns (k: Checker)
      requires Valid()
      modifies c, c.nats, c.sits, c.natVer, c.sitVer, c.nats.journal, c.sits.journal, c.nats.cells, c.sits.cells, c.nats.dirty, c.sits.dirty, c.cur
      ensures Valid() && c.log == old(c.log) && c.disk == old(c.disk) && c.commits == old(c.commits) && c.Memory() == Last()
      ensures fresh(k) && fresh(k.nats) && fresh(k.sits) && fresh(k.nodeMap) && fresh(k.mainMap)
      ensures k.fix == fix && k.disk == disk && From(k) && k.Kept() && k.Marked() && k.ids == {} && k.natDirty == {} && k.segDirty == {} && k.Sized() && |k.cur| == TEMP_NR
      ensures k.Vol() == Vol() && k.ssa == Owners()
    {
      hide FreeSegs, Checkpointer.Valid, Checker.Kept, Checker.Marked;
      var nats, sits, freeNr, ssa := Mount();
      k := new Checker(B, fix, nats, sits, c.cur[..], freeNr, disk, ssa);
    }

    /** When the volume is the same and every owner is, the reverse map is the same. */
    lemma SameAgain(vol: Volume, ssa0: Ssa, ssa: Ssa)
      requires forall loc: Loc :: loc in ssa0 <==> loc.seg < |vol.sits| && loc.blk < B
      requires forall loc: Loc :: loc in ssa <==> loc.seg < |vol.sits| && loc.blk < B
      requires forall loc: Loc :: loc.seg < |vol.sits| && loc.blk < B ==> Entry(ssa, loc) == Entry(ssa0, loc)
      ensures ssa == ssa0
    {
    }

    lemma OwnersRange()
      requires c.commits != [] && FieldsOk(B, Last(), c.disk)
      ensures Vol().B == B && forall loc: Loc :: loc in Owners() <==> loc.seg < |Vol().sits| && loc.blk < B
    {
    }

    lemma RefreshSame(vol: Volume)
      ensures |Refresh(vol).sits| == |vol.sits|
    {
    }

    lemma ValidCkpt()
      ensures CkptValid() <==> c.Valid()
    {
    }
  }
}
