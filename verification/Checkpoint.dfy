/** The two-pack checkpoint: every block write between two checkpoints leaves the older one
    mountable, and the last write of a checkpoint makes the new one the one that is mounted. */
module Checkpoint {
  import opened Basics
  import opened Segments
  import opened Mapping
  import opened JournalTable
  import opened Medium

  /** A completed checkpoint: after `len` block writes the medium held `img`, meaning `snap`. */
  datatype Commit = Commit(len: nat, img: Image, snap: Snapshot)

  /** The last write count at which commit `i` is the newest one. */
  function End(log: seq<Write>, commits: seq<Commit>, i: nat): int
    requires i < |commits|
  {
    if i + 1 < |commits| then commits[i + 1].len - 1 else |log|
  }

  ghost predicate Ordered(commits: seq<Commit>, n: nat) {
    && (forall i, j :: 0 <= i < j < |commits| ==> commits[i].len < commits[j].len)
    && (forall i :: 0 <= i < |commits| ==> commits[i].len <= n)
  }

  /** After any number of block writes the medium holds the newest checkpoint completed by then. */
  ghost predicate History(g: Geo, log: seq<Write>, commits: seq<Commit>) {
    && Ordered(commits, |log|)
    && (forall i :: 0 <= i < |commits| ==> ImageShape(g, commits[i].img) && Means(g, commits[i].img, commits[i].snap))
    && (forall i, k :: 0 <= i < |commits| && commits[i].len <= k <= End(log, commits, i) && k <= |log| ==>
      Holds(g, Replay(log[..k]), commits[i].img))
  }

  lemma HistoryWrite(g: Geo, log: seq<Write>, commits: seq<Commit>, w: Write)
    requires History(g, log, commits)
    requires commits != [] ==> Holds(g, Replay(log + [w]), commits[|commits| - 1].img)
    ensures History(g, log + [w], commits)
  {
    hide Holds, Means, ImageShape;
    var log' := log + [w];
    forall i, k | 0 <= i < |commits| && commits[i].len <= k <= End(log', commits, i) && k <= |log'|
      ensures Holds(g, Replay(log'[..k]), commits[i].img)
    {
      if k <= |log| {
        assert log'[..k] == log[..k];
        if i + 1 < |commits| {
          assert End(log, commits, i) == End(log', commits, i);
        }
      } else {
        assert log'[..k] == log';
      }
    }
  }

  lemma HistoryCommit(g: Geo, log: seq<Write>, commits: seq<Commit>, w: Write, img: Image, snap: Snapshot)
    requires History(g, log, commits)
    requires Holds(g, Replay(log + [w]), img) && Means(g, img, snap)
    ensures History(g, log + [w], commits + [Commit(|log| + 1, img, snap)])
  {
    hide Holds, Means, ImageShape, Replay, End;
    HoldsShape(g, Replay(log + [w]), img);
    var log' := log + [w];
    var commits' := commits + [Commit(|log| + 1, img, snap)];
    forall i, k | 0 <= i < |commits'| && commits'[i].len <= k <= End(log', commits', i) && k <= |log'|
      ensures Holds(g, Replay(log'[..k]), commits'[i].img)
    {
      CommitHolds(g, log, commits, w, img, snap, i, k);
    }
  }

  lemma CommitHolds(g: Geo, log: seq<Write>, commits: seq<Commit>, w: Write, img: Image, snap: Snapshot, i: nat, k: nat)
    requires History(g, log, commits) && Holds(g, Replay(log + [w]), img)
    requires var commits' := commits + [Commit(|log| + 1, img, snap)];
             i < |commits'| && commits'[i].len <= k <= End(log + [w], commits', i) && k <= |log| + 1
    ensures Holds(g, Replay((log + [w])[..k]), (commits + [Commit(|log| + 1, img, snap)])[i].img)
  {
    hide Holds, Means, ImageShape, Replay, History;
    HistoryOrdered(g, log, commits);
    if i < |commits| {
      assert (log + [w])[..k] == log[..k];
      HistoryAt(g, log, commits, i, k);
    } else {
      assert (log + [w])[..k] == log + [w];
    }
  }

  lemma HistoryOrdered(g: Geo, log: seq<Write>, commits: seq<Commit>)
    requires History(g, log, commits)
    ensures Ordered(commits, |log|)
  {
    hide Holds, Means, ImageShape, Replay;
  }

  lemma HistoryAt(g: Geo, log: seq<Write>, commits: seq<Commit>, i: nat, k: nat)
    requires History(g, log, commits) && i < |commits| && commits[i].len <= k <= End(log, commits, i) && k <= |log|
    ensures Holds(g, Replay(log[..k]), commits[i].img)
  {
    hide Holds, Replay;
  }

  lemma HoldsShape(g: Geo, d: Disk, img: Image)
    requires Holds(g, d, img)
    ensures ImageShape(g, img)
  {
  }

  /** Rolling the medium back to its first `n` writes. */
  lemma HistoryCut(g: Geo, log: seq<Write>, commits: seq<Commit>, n: nat, c: nat)
    requires History(g, log, commits) && n <= |log| && c <= |commits|
    requires forall i :: 0 <= i < c ==> commits[i].len <= n
    requires forall i :: c <= i < |commits| ==> n < commits[i].len
    ensures History(g, log[..n], commits[..c])
  {
    hide Holds, Means, ImageShape;
    var log' := log[..n];
    var commits' := commits[..c];
    forall i, k | 0 <= i < |commits'| && commits'[i].len <= k <= End(log', commits', i) && k <= |log'|
      ensures Holds(g, Replay(log'[..k]), commits'[i].img)
    {
      assert log'[..k] == log[..k];
      if i + 1 < c {
        assert End(log', commits', i) == End(log, commits, i);
      } else if i + 1 < |commits| {
        assert n < commits[i + 1].len;
      }
    }
  }

  /** Crash atomicity: cut the write log anywhere after the first completed checkpoint; a mount
      then chooses a pack without error, and what it reads is exactly the newest checkpoint that
      was complete at the cut. */
  lemma CrashAtomic(g: Geo, log: seq<Write>, commits: seq<Commit>, n: nat) returns (i: nat)
    requires History(g, log, commits)
    requires commits != [] && commits[0].len <= n <= |log|
    ensures i < |commits| && commits[i].len <= n
    ensures forall j :: i < j < |commits| ==> n < commits[j].len
    ensures Holds(g, Replay(log[..n]), commits[i].img)
    ensures Choose(Version(Replay(log[..n]), 0), Version(Replay(log[..n]), 1)) == Some(commits[i].img.pack)
    ensures ImageShape(g, commits[i].img) && Means(g, commits[i].img, commits[i].snap)
  {
    hide Holds, Means, ImageShape;
    i := |commits| - 1;
    while commits[i].len > n
      invariant i < |commits|
      invariant forall j :: i < j < |commits| ==> n < commits[j].len
    {
      i := i - 1;
    }
    HoldsChosen(g, Replay(log[..n]), commits[i].img);
  }

  class Checkpointer {
    const g: Geo
    const nats: Table<NatEntry>
    const sits: Table<SitEntry>
    const natVer: array<bool>
    const sitVer: array<bool>
    const cur: array<CurSeg>
    var verOpen: nat
    var verClose: nat
    var curCkpt: nat
    var log: seq<Write>
    var disk: Disk
    ghost var natBase: seq<seq<NatEntry>>
    ghost var sitBase: seq<seq<SitEntry>>
    ghost var commits: seq<Commit>

    constructor (g: Geo, node: NatEntry, seg: SitEntry)
      requires g.Ok()
      ensures this.g == g && Sizes() && Logged() && disk == map[] && commits == []
      ensures forall i :: 0 <= i < g.nodeNr ==> nats.cells[i] == node && nats.dirty[i]
      ensures forall i :: 0 <= i < g.segNr ==> sits.cells[i] == seg && sits.dirty[i]
      ensures nats.nr == 0 && sits.nr == 0 && verOpen == verClose == curCkpt == 1
      ensures forall b :: 0 <= b < g.natBlks ==> !natVer[b]
      ensures forall b :: 0 <= b < g.sitBlks ==> !sitVer[b]
      ensures fresh(nats) && fresh(nats.cells) && fresh(nats.dirty) && fresh(nats.journal) && fresh(natVer)
      ensures fresh(sits) && fresh(sits.cells) && fresh(sits.dirty) && fresh(sits.journal) && fresh(sitVer) && fresh(cur)
    {
      this.g := g;
      nats := new Table(g.natE, g.nodeNr, g.J(), node);
      sits := new Table(g.sitE, g.segNr, g.J(), seg);
      natVer := new bool[g.natBlks](_ => false);
      sitVer := new bool[g.sitBlks](_ => false);
      cur := new CurSeg[TEMP_NR](_ => CurSeg(-1, 0));
      verOpen, verClose, curCkpt := 1, 1, 1;
      log, disk, natBase, sitBase, commits := [], map[], [], [], [];
    }

    ghost predicate Sizes()
      reads this, nats, sits, nats.journal, sits.journal
    {
      && g.Ok() && nats.E == g.natE && sits.E == g.sitE
      && natVer.Length == g.natBlks && sitVer.Length == g.sitBlks && natVer != sitVer
      && nats.journal.Length == g.J() && sits.journal.Length == g.J()
      && nats.cells.Length == g.nodeNr && sits.cells.Length == g.segNr
      && nats.Shape(g.natBlks) && sits.Shape(g.sitBlks)
      && natVer != nats.dirty && natVer != sits.dirty && sitVer != nats.dirty && sitVer != sits.dirty
      && nats.dirty != sits.dirty && nats as object != sits && cur.Length == TEMP_NR
      && sits.cells as object != nats.cells
    }

    /** The medium and the log agree, and the history is what the commits say. */
    ghost predicate Logged()
      reads this`disk, this`log, this`commits
    {
      && disk == Replay(log) && History(g, log, commits)
      && (commits != [] ==> Holds(g, disk, commits[|commits| - 1].img))
    }

    lemma HeldNow()
      requires Logged() && commits != []
      ensures Holds(g, disk, commits[|commits| - 1].img)
    {
    }

    /** One block write. */
    method BlockWrite(a: Addr, b: MetaBlock)
      requires Logged()
      requires commits != [] ==> Holds(g, disk[a := b], commits[|commits| - 1].img)
      modifies this`log, this`disk
      ensures Logged() && disk == old(disk)[a := b] && log == old(log) + [Write(a, b)]
    {
      hide Holds, History, Replay;
      ReplayPush(log, Write(a, b));
      HistoryWrite(g, log, commits, Write(a, b));
      log := log + [Write(a, b)];
      disk := disk[a := b];
    }

    /** The block write that completes a checkpoint. */
    method CommitWrite(a: Addr, b: MetaBlock, ghost img: Image, ghost snap: Snapshot)
      requires Logged()
      requires Holds(g, disk[a := b], img) && Means(g, img, snap)
      modifies this`log, this`disk, this`commits
      ensures Logged() && disk == old(disk)[a := b] && log == old(log) + [Write(a, b)]
      ensures commits == old(commits) + [Commit(|log|, img, snap)]
    {
      hide Holds, History, Replay, Means;
      ReplayPush(log, Write(a, b));
      HistoryCommit(g, log, commits, Write(a, b), img, snap);
      log := log + [Write(a, b)];
      disk := disk[a := b];
      commits := commits + [Commit(|log|, img, snap)];
    }

    /** Writes the cached table pages to the copies that are not in use and flips their bits. */
    method WriteNatPages(slots: array<Slot<NatEntry>>)
      requires Logged() && slots.Length == natVer.Length == |natBase| && NatPages(disk, natVer[..], natBase)
      requires commits != [] ==> commits[|commits| - 1].img.head.natVer == natVer[..]
      modifies this`log, this`disk, natVer
      ensures Logged() && OnlyNat(old(disk), disk) && old(log) <= log
      ensures NatPages(disk, natVer[..], Merge(natBase, slots[..]))
    {
      hide Checkpointer.Logged, Holds, NatPages, OnlyNat;
      ghost var ver, d, base := natVer[..], disk, Merge(natBase, slots[..]);
      NatPagesNone(disk, natVer[..], natBase, base);
      var nn := 0;
      while nn < natVer.Length
        invariant nn <= natVer.Length && Logged() && OnlyNat(d, disk) && old(log) <= log
        invariant forall b :: nn <= b < natVer.Length ==> natVer[b] == ver[b]
        invariant NatPages(disk, natVer[..], base[..nn] + natBase[nn..])
      {
        NatPagesStep(d, disk, natVer[..], natBase, base, nn);
        if slots[nn].Present? {
          natVer[nn] := !natVer[nn];
          if commits != [] {
            HeldNow();
            WriteOutside(g, disk, commits[|commits| - 1].img, NatAt(natVer[nn], nn), NatB(slots[nn].page));
          }
          BlockWrite(NatAt(natVer[nn], nn), NatB(slots[nn].page));
        }
        nn := nn + 1;
      }
      assert base[..nn] + natBase[nn..] == base;
    }

    method WriteSitPages(slots: array<Slot<SitEntry>>)
      requires Logged() && slots.Length == sitVer.Length == |sitBase| && SitPages(disk, sitVer[..], sitBase)
      requires commits != [] ==> commits[|commits| - 1].img.head.sitVer == sitVer[..]
      modifies this`log, this`disk, sitVer
      ensures Logged() && OnlySit(old(disk), disk) && old(log) <= log
      ensures SitPages(disk, sitVer[..], Merge(sitBase, slots[..]))
    {
      hide Checkpointer.Logged, Holds, SitPages, OnlySit;
      ghost var ver, d, base := sitVer[..], disk, Merge(sitBase, slots[..]);
      SitPagesNone(disk, sitVer[..], sitBase, base);
      var nn := 0;
      while nn < sitVer.Length
        invariant nn <= sitVer.Length && Logged() && OnlySit(d, disk) && old(log) <= log
        invariant forall b :: nn <= b < sitVer.Length ==> sitVer[b] == ver[b]
        invariant SitPages(disk, sitVer[..], base[..nn] + sitBase[nn..])
      {
        SitPagesStep(d, disk, sitVer[..], sitBase, base, nn);
        if slots[nn].Present? {
          sitVer[nn] := !sitVer[nn];
          if commits != [] {
            HeldNow();
            WriteOutside(g, disk, commits[|commits| - 1].img, SitAt(sitVer[nn], nn), SitB(slots[nn].page));
          }
          BlockWrite(SitAt(sitVer[nn], nn), SitB(slots[nn].page));
        }
        nn := nn + 1;
      }
      assert base[..nn] + sitBase[nn..] == base;
    }

    // ----- Completing a checkpoint -----

    ghost function HeadNow(curs: seq<CurSeg>): Head
      reads this, nats, sits, natVer, sitVer
    {
      Head(curs, nats.nr, sits.nr, natVer[..], sitVer[..], verOpen, verClose)
    }

    ghost function ImageNow(pack: nat, head: Head): Image
      reads this, nats.journal, sits.journal
    {
      Image(pack, head, nats.journal[..], sits.journal[..], natBase, sitBase)
    }

    /** Writes pack `p`: header, journals, header again with the closing version. */
    method SaveCheckpoint(p: nat, ghost snap: Snapshot)
      requires Sizes() && Logged() && p < 2 && verOpen == verClose
      requires |natBase| == g.natBlks && PagesShape(natBase, g.natE) && NatPages(disk, natVer[..], natBase)
      requires |sitBase| == g.sitBlks && PagesShape(sitBase, g.sitE) && SitPages(disk, sitVer[..], sitBase)
      requires HeadsOk(disk, verClose)
      requires commits != [] ==> commits[|commits| - 1].img.pack == 1 - p
      requires snap.cur == cur[..] && |snap.nats| == g.nodeNr && |snap.sits| == g.segNr
      requires Decodes(Overlay(natBase, g.natE, nats.journal[..nats.nr]), g.natE, snap.nats)
      requires Decodes(Overlay(sitBase, g.sitE, sits.journal[..sits.nr]), g.sitE, snap.sits)
      modifies this`log, this`disk, this`commits, this`verOpen, this`verClose
      ensures Logged() && verOpen == verClose == old(verClose) + 1
      ensures old(log) <= log && |old(log)| < |log|
      ensures commits == old(commits) + [Commit(|log|, ImageNow(p, HeadNow(cur[..])), snap)]
      ensures OnlyPack(p, old(disk), disk) && HeadsOk(disk, verClose)
    {
      hide Checkpointer.Logged, HeadsOk, OnlyPack, PackBody, Holds, Means, NatPages, SitPages, Chunk, Decodes, Overlay;
      ghost var d := disk;
      verOpen := verOpen + 1;
      SaveBody(p);
      ghost var img := ImageNow(p, HeadNow(cur[..]).(close := verOpen));
      verClose := verClose + 1;
      var head := Head(cur[..], nats.nr, sits.nr, natVer[..], sitVer[..], verOpen, verClose);
      SaveHolds(g, d, disk, img, snap);
      CommitWrite(HeadAt(p), HeadB(head), img, snap);
    }

    /** The part of a pack that is written before the closing header. */
    method SaveBody(p: nat)
      requires Sizes() && Logged() && p < 2 && verOpen != verClose
      requires commits != [] ==> commits[|commits| - 1].img.pack == 1 - p
      modifies this`log, this`disk
      ensures Logged() && old(log) <= log && OnlyPack(p, old(disk), disk)
      ensures PackBody(g, disk, p, nats.journal[..], sits.journal[..])
      ensures HeadAt(p) in disk && disk[HeadAt(p)].HeadB?
    {
      hide Holds, History, Replay, Chunk;
      ghost var d := disk;
      var head := Head(cur[..], nats.nr, sits.nr, natVer[..], sitVer[..], verOpen, verClose);
      if commits != [] {
        WriteOpenHead(g, disk, commits[|commits| - 1].img, head);
      }
      BlockWrite(HeadAt(p), HeadB(head));
      if commits != [] {
        WriteOutside(g, disk, commits[|commits| - 1].img, NatJAt(p), NatJB(nats.journal[..]));
      }
      BlockWrite(NatJAt(p), NatJB(nats.journal[..]));
      var ii := 0;
      while ii < g.parts
        invariant ii <= g.parts && Logged() && old(log) <= log && OnlyPack(p, d, disk)
        invariant Stored(disk, NatJAt(p), NatJB(nats.journal[..]))
        invariant HeadAt(p) in disk && disk[HeadAt(p)].HeadB?
        invariant forall i :: 0 <= i < ii ==> Stored(disk, SitJAt(p, i), SitJB(Chunk(sits.journal[..], g.perPart, i, g.parts)))
      {
        var part := Chunk(sits.journal[..], g.perPart, ii, g.parts);
        if commits != [] {
          WriteOutside(g, disk, commits[|commits| - 1].img, SitJAt(p, ii), SitJB(part));
        }
        BlockWrite(SitJAt(p, ii), SitJB(part));
        ii := ii + 1;
      }
    }

    ghost predicate Tables()
      requires Sizes()
      reads this, nats, sits, natVer, sitVer, nats.journal, sits.journal, nats.cells, sits.cells, nats.dirty, sits.dirty
    {
      && |natBase| == g.natBlks && PagesShape(natBase, g.natE) && NatPages(disk, natVer[..], natBase)
      && |sitBase| == g.sitBlks && PagesShape(sitBase, g.sitE) && SitPages(disk, sitVer[..], sitBase)
      && nats.Covered(natBase) && sits.Covered(sitBase)
    }

    ghost predicate Last()
      reads this, natVer, sitVer
    {
      commits != [] ==>
        && commits[|commits| - 1].img.pack == curCkpt
        && commits[|commits| - 1].img.head.natVer == natVer[..]
        && commits[|commits| - 1].img.head.sitVer == sitVer[..]
    }

    /** Between operations: memory covers what the medium does not have, and the medium can be cut
        back to any earlier point. */
    ghost predicate Valid()
      reads this, nats, sits, natVer, sitVer, nats.journal, sits.journal, nats.cells, sits.cells, nats.dirty, sits.dirty
    {
      Sizes() && Logged() && Tables() && Last() && curCkpt < 2 && verOpen == verClose && HeadsOk(disk, verClose)
    }

    ghost function Memory(): Snapshot
      reads this, nats, sits, cur, nats.cells, sits.cells
    {
      Snapshot(nats.cells[..], sits.cells[..], cur[..])
    }

    method ReadNatBase() returns (base: seq<seq<NatEntry>>)
      requires Sizes() && NatPages(disk, natVer[..], natBase)
      ensures base == natBase
    {
      base := [];
      var b := 0;
      while b < natVer.Length
        invariant b <= natVer.Length && base == natBase[..b]
      {
        assert Stored(disk, NatAt(natVer[b], b), NatB(natBase[b]));
        base := base + [disk[NatAt(natVer[b], b)].natPage];
        b := b + 1;
      }
    }

    method ReadSitBase() returns (base: seq<seq<SitEntry>>)
      requires Sizes() && SitPages(disk, sitVer[..], sitBase)
      ensures base == sitBase
    {
      base := [];
      var b := 0;
      while b < sitVer.Length
        invariant b <= sitVer.Length && base == sitBase[..b]
      {
        assert Stored(disk, SitAt(sitVer[b], b), SitB(sitBase[b]));
        base := base + [disk[SitAt(sitVer[b], b)].sitPage];
        b := b + 1;
      }
    }

    /** Flushes the node table: afterwards pages and journal decode to it. */
    method FlushNat()
      requires Valid()
      modifies this`log, this`disk, this`natBase, natVer, nats`nr, nats.dirty, nats.journal
      ensures Sizes() && Logged() && old(log) <= log && OnlyNat(old(disk), disk)
      ensures |natBase| == g.natBlks && PagesShape(natBase, g.natE) && NatPages(disk, natVer[..], natBase)
      ensures Decodes(Overlay(natBase, g.natE, nats.journal[..nats.nr]), g.natE, nats.cells[..])
      ensures forall i :: 0 <= i < nats.dirty.Length ==> !nats.dirty[i]
    {
      hide Holds, History, Replay, Overlay, Decodes, CleanAgrees, HeadsOk, SitPages;
      var base := ReadNatBase();
      var slots := new Slot<NatEntry>[g.natBlks](_ => Absent);
      nats.Flush(base, slots);
      WriteNatPages(slots);
      natBase := Merge(natBase, slots[..]);
    }

    method FlushSit()
      requires Sizes() && Logged() && SitVerKept(sitVer[..])
      requires |sitBase| == g.sitBlks && PagesShape(sitBase, g.sitE) && SitPages(disk, sitVer[..], sitBase)
      requires sits.Covered(sitBase)
      modifies this`log, this`disk, this`sitBase, sitVer, sits`nr, sits.dirty, sits.journal
      ensures Sizes() && Logged() && old(log) <= log && OnlySit(old(disk), disk)
      ensures |sitBase| == g.sitBlks && PagesShape(sitBase, g.sitE) && SitPages(disk, sitVer[..], sitBase)
      ensures Decodes(Overlay(sitBase, g.sitE, sits.journal[..sits.nr]), g.sitE, sits.cells[..])
      ensures forall i :: 0 <= i < sits.dirty.Length ==> !sits.dirty[i]
    {
      hide Holds, History, Replay, Overlay, Decodes, CleanAgrees, HeadsOk, NatPages;
      var base := ReadSitBase();
      var slots := new Slot<SitEntry>[g.sitBlks](_ => Absent);
      sits.Flush(base, slots);
      WriteSitPages(slots);
      sitBase := Merge(sitBase, slots[..]);
    }

    ghost predicate SitVerKept(ver: seq<bool>)
      reads this
    {
      commits != [] ==> commits[|commits| - 1].img.head.sitVer == ver
    }

    /** Completes a checkpoint of the tables and current segments in memory. */
    method WriteCheckpoint()
      requires Valid()
      modifies this`log, this`disk, this`commits, this`verOpen, this`verClose, this`curCkpt, this`natBase, this`sitBase,
               natVer, sitVer, nats`nr, sits`nr, nats.dirty, sits.dirty, nats.journal, sits.journal
      ensures Valid() && old(log) <= log && |old(log)| < |log| && SsaSame(old(disk), disk)
      ensures |commits| == |old(commits)| + 1 && old(commits) <= commits
      ensures commits[|commits| - 1].len == |log| && commits[|commits| - 1].snap == Memory() == old(Memory())
      ensures forall i :: 0 <= i < nats.dirty.Length ==> !nats.dirty[i]
      ensures forall i :: 0 <= i < sits.dirty.Length ==> !sits.dirty[i]
    {
      hide SsaSame, OnlyNat, OnlySit, OnlyPack, Holds, History, Replay, Overlay, Decodes, CleanAgrees, NatPages, SitPages, Means, PagesShape, HeadsOk;
      ghost var snap := Memory();
      ghost var d := disk;
      FlushNat();
      ghost var d1 := disk;
      SitPagesStay(d, d1, sitVer[..], sitBase);
      FlushSit();
      NatPagesStay(d1, disk, natVer[..], natBase);
      HeadsStay(d, d1, disk, verClose);
      curCkpt := 1 - curCkpt;
      ghost var d2 := disk;
      SaveCheckpoint(curCkpt, snap);
      PackPagesStay(curCkpt, d2, disk, natVer[..], natBase, sitVer[..], sitBase);
      SsaApart(curCkpt, d, d1, d2, disk);
      DecodesCovers(Overlay(natBase, g.natE, nats.journal[..nats.nr]), g.natE, nats.cells[..], nats.dirty[..]);
      DecodesCovers(Overlay(sitBase, g.sitE, sits.journal[..sits.nr]), g.sitE, sits.cells[..], sits.dirty[..]);
    }

    // ----- Making the file system -----

    /** Writes every page of the node table in place, to the first copies. */
    method SyncNat()
      requires Sizes() && Logged() && commits == [] && nats.nr == 0
      requires forall b :: 0 <= b < g.natBlks ==> !natVer[b]
      modifies this`log, this`disk, this`natBase, nats.dirty
      ensures Sizes() && Logged() && OnlyNat(old(disk), disk)
      ensures |natBase| == g.natBlks && PagesShape(natBase, g.natE) && NatPages(disk, natVer[..], natBase)
      ensures nats.Covered(natBase)
      ensures forall i :: 0 <= i < nats.dirty.Length ==> !nats.dirty[i]
    {
      hide Checkpointer.Logged, PagesShape, Cap, CutPages, CleanAgrees, Overlay;
      natBase := [];
      ghost var cells := nats.cells[..];
      CutNone(g.natE, cells);
      ghost var d := disk;
      var nn := 0;
      while nn < natVer.Length
        invariant nn <= natVer.Length && Logged() && OnlyNat(d, disk)
        invariant |natBase| == nn && CutPages(natBase, g.natE, cells, nn) && nats.cells[..] == cells
        invariant forall b :: 0 <= b < nn ==> Stored(disk, NatAt(false, b), NatB(natBase[b]))
      {
        var page := nats.PageOut(nn, g.natBlks, Unused);
        BlockWrite(NatAt(false, nn), NatB(page));
        CutMore(natBase, g.natE, cells, page);
        natBase := natBase + [page];
        nn := nn + 1;
      }
      CutShape(natBase, g.natE, cells);
      forall i | 0 <= i < nats.dirty.Length { nats.dirty[i] := false; }
      assert nats.cells[..] == cells;
      PagesDecode(natBase, g.natE, cells, nats.dirty[..]);
      assert nats.journal[..nats.nr] == [];
      OverlayNil(natBase, g.natE);
    }

    /** The same for the segment table. */
    method SyncSit()
      requires Sizes() && Logged() && commits == [] && sits.nr == 0
      requires forall b :: 0 <= b < g.sitBlks ==> !sitVer[b]
      modifies this`log, this`disk, this`sitBase, sits.dirty
      ensures Sizes() && Logged() && OnlySit(old(disk), disk)
      ensures |sitBase| == g.sitBlks && PagesShape(sitBase, g.sitE) && SitPages(disk, sitVer[..], sitBase)
      ensures sits.Covered(sitBase)
      ensures forall i :: 0 <= i < sits.dirty.Length ==> !sits.dirty[i]
    {
      hide Checkpointer.Logged, PagesShape, Cap, CutPages, CleanAgrees, Overlay;
      sitBase := [];
      ghost var cells := sits.cells[..];
      CutNone(g.sitE, cells);
      ghost var d := disk;
      var nn := 0;
      while nn < sitVer.Length
        invariant nn <= sitVer.Length && Logged() && OnlySit(d, disk)
        invariant |sitBase| == nn && CutPages(sitBase, g.sitE, cells, nn) && sits.cells[..] == cells
        invariant forall b :: 0 <= b < nn ==> Stored(disk, SitAt(false, b), SitB(sitBase[b]))
      {
        var page := sits.PageOut(nn, g.sitBlks, SitEntry([], 0, 0));
        BlockWrite(SitAt(false, nn), SitB(page));
        CutMore(sitBase, g.sitE, cells, page);
        sitBase := sitBase + [page];
        nn := nn + 1;
      }
      CutShape(sitBase, g.sitE, cells);
      forall i | 0 <= i < sits.dirty.Length { sits.dirty[i] := false; }
      assert sits.cells[..] == cells;
      PagesDecode(sitBase, g.sitE, cells, sits.dirty[..]);
      assert sits.journal[..sits.nr] == [];
      OverlayNil(sitBase, g.sitE);
    }

    /** Writes two header blocks that validate for no mount. */
    method ClearHeads()
      requires Sizes() && Logged() && commits == []
      modifies this`log, this`disk, this`verOpen, this`verClose, this`curCkpt
      ensures Sizes() && Logged() && HeadsOk(disk, 0)
      ensures verOpen == verClose == 1 && curCkpt == 1
    {
      hide Holds, History, Replay;
      var zero := Head([], 0, 0, [], [], 0, 0);
      BlockWrite(HeadAt(0), HeadB(zero));
      BlockWrite(HeadAt(1), HeadB(zero));
      verOpen, verClose, curCkpt := 1, 1, 1;
    }

    /** Writes the owners of all blocks, of a medium without a checkpoint. */
    method SyncSsa(segs: seq<SegmentInfo>)
      requires Sizes() && Logged() && commits == [] && HeadsOk(disk, 0)
      modifies this`log, this`disk
      ensures Sizes() && Logged() && HeadsOk(disk, 0) && SsaOk(disk, segs)
    {
      hide Holds, History, Replay, Version;
      var s := 0;
      while s < |segs|
        invariant s <= |segs| && Sizes() && Logged() && HeadsOk(disk, 0)
        invariant forall k: nat :: k < s ==> Stored(disk, SsaAt(k), SsaB(segs[k].ssa))
      {
        ghost var d := disk;
        BlockWrite(SsaAt(s), SsaB(segs[s].ssa));
        HeadsKept(d, SsaAt(s), SsaB(segs[s].ssa));
        s := s + 1;
      }
    }

    /** Makes a file system of the tables in memory and the owners in `segs`: its first checkpoint is
        on the medium. */
    method Format(segs: seq<SegmentInfo>)
      requires Sizes() && Logged() && commits == [] && nats.nr == 0 && sits.nr == 0
      requires forall b :: 0 <= b < g.natBlks ==> !natVer[b]
      requires forall b :: 0 <= b < g.sitBlks ==> !sitVer[b]
      modifies this`log, this`disk, this`commits, this`verOpen, this`verClose, this`curCkpt, this`natBase, this`sitBase,
               natVer, sitVer, nats`nr, sits`nr, nats.dirty, sits.dirty, nats.journal, sits.journal
      ensures Valid() && |commits| == 1
      ensures commits[0].len == |log| && commits[0].snap == Memory() == old(Memory())
      ensures SsaOk(disk, segs)
    {
      hide Holds, History, Replay, Overlay, CleanAgrees, NatPages, SitPages, PagesShape, HeadsOk, Version, SsaOk, SsaSame;
      ClearHeads();
      SyncSsa(segs);
      ghost var d := disk;
      SyncSit();
      ghost var d1 := disk;
      SyncNat();
      SitPagesStay(d1, disk, sitVer[..], sitBase);
      HeadsClear(d, d1, disk);
      ghost var d2 := disk;
      WriteCheckpoint();
      TablesApart(d, d1, d2);
      SsaTrans(d, d2, disk);
      SsaStays(d, disk, segs);
    }

    // ----- Updates in memory, writes elsewhere -----

    method SetNat(i: nat, v: NatEntry)
      requires Valid() && i < g.nodeNr
      modifies nats.cells, nats.dirty
      ensures Valid() && Memory().sits == old(Memory().sits) && Memory().cur == old(Memory().cur)
      ensures Memory().nats == old(Memory().nats)[i := v] && nats.dirty[..] == old(nats.dirty[..])[i := true]
    {
      hide Holds, History, Replay, Overlay, CleanAgrees, NatPages, SitPages;
      nats.Set(i, v, natBase);
    }

    method SetSit(i: nat, v: SitEntry)
      requires Valid() && i < g.segNr
      modifies sits.cells, sits.dirty
      ensures Valid() && Memory().nats == old(Memory().nats) && Memory().cur == old(Memory().cur)
      ensures Memory().sits == old(Memory().sits)[i := v] && sits.dirty[..] == old(sits.dirty[..])[i := true]
    {
      hide Holds, History, Replay, Overlay, CleanAgrees, NatPages, SitPages;
      sits.Set(i, v, sitBase);
    }

    /** Writes the owners of the blocks of one segment, in place: no checkpoint is read from there. */
    method WriteSummary(s: nat, owners: seq<Summary>)
      requires Valid()
      modifies this`log, this`disk
      ensures Valid() && Memory() == old(Memory()) && commits == old(commits)
      ensures log == old(log) + [Write(SsaAt(s), SsaB(owners))] && disk == old(disk)[SsaAt(s) := SsaB(owners)]
    {
      hide Holds, History, Replay, Overlay, CleanAgrees;
      if commits != [] {
        WriteOutside(g, disk, commits[|commits| - 1].img, SsaAt(s), SsaB(owners));
      }
      BlockWrite(SsaAt(s), SsaB(owners));
    }

    // ----- Mounting -----

    /** Reads both headers and chooses: no pack exactly when both are valid with the same version
        or neither is valid. */
    method ChoosePack() returns (p: int)
      requires HeadAt(0) in disk && HeadAt(1) in disk
      ensures p == (match Choose(Version(disk, 0), Version(disk, 1)) case Some(q) => q case None => -1)
    {
      var ver := new nat[2](_ => 0);
      var ii := 0;
      while ii < 2
        invariant ii <= 2
        invariant forall i :: 0 <= i < ii ==> ver[i] == Version(disk, i)
        invariant forall i :: ii <= i < 2 ==> ver[i] == 0
      {
        var b := disk[HeadAt(ii)];
        if b.HeadB? && b.head.open == b.head.close {
          ver[ii] := b.head.close;
        }
        ii := ii + 1;
      }
      if ver[0] != 0 && ver[1] != 0 {
        if ver[0] == ver[1] {
          p := -1;
        } else if ver[1] > ver[0] {
          p := 1;
        } else {
          p := 0;
        }
      } else if ver[0] != 0 {
        p := 0;
      } else if ver[1] != 0 {
        p := 1;
      } else {
        p := -1;
      }
    }

    /** Puts the pieces of the segment journal together. */
    method JoinSitJournal(p: nat, ghost sitJ: seq<Entry<SitEntry>>) returns (j: seq<Entry<SitEntry>>)
      requires g.Ok() && |sitJ| == g.J()
      requires forall i :: 0 <= i < g.parts ==> Stored(disk, SitJAt(p, i), SitJB(Chunk(sitJ, g.perPart, i, g.parts)))
      ensures j == sitJ
    {
      hide Chunk, Cap;
      j := [];
      var ii := 0;
      ChunkPrefix(sitJ, g.perPart, g.parts, 0);
      while ii < g.parts
        invariant ii <= g.parts && 0 <= ii * g.perPart <= |sitJ|
        invariant j == sitJ[..ii * g.perPart]
      {
        assert Stored(disk, SitJAt(p, ii), SitJB(Chunk(sitJ, g.perPart, ii, g.parts)));
        ChunkPrefix(sitJ, g.perPart, g.parts, ii + 1);
        j := j + disk[SitJAt(p, ii)].sits;
        ii := ii + 1;
      }
      ChunkPrefix(sitJ, g.perPart, g.parts, g.parts);
    }

    /** Loads the chosen pack into memory. */
    method LoadCheckpoint(ghost img: Image)
      requires Sizes() && Holds(g, disk, img) && |img.head.cur| == TEMP_NR
      modifies this`verOpen, this`verClose, this`curCkpt, natVer, sitVer, cur, nats`nr, sits`nr, nats.journal, sits.journal
      ensures Sizes()
      ensures curCkpt == img.pack && verOpen == img.head.open && verClose == img.head.close
      ensures natVer[..] == img.head.natVer && sitVer[..] == img.head.sitVer && cur[..] == img.head.cur
      ensures nats.nr == img.head.natNr && sits.nr == img.head.sitNr
      ensures nats.journal[..] == img.natJ && sits.journal[..] == img.sitJ
    {
      hide NatPages, SitPages, Chunk, Choose, Version, Cap;
      HoldsChosen(g, disk, img);
      HoldsParts(g, disk, img);
      var p := ChoosePack();
      if p == -1 {
        assert false;
      }
      var head := disk[HeadAt(p)].head;
      var natJ := disk[NatJAt(p)].nats;
      var sitJ := JoinSitJournal(p, img.sitJ);
      forall b | 0 <= b < natVer.Length { natVer[b] := head.natVer[b]; }
      forall b | 0 <= b < sitVer.Length { sitVer[b] := head.sitVer[b]; }
      forall t | 0 <= t < cur.Length { cur[t] := head.cur[t]; }
      verOpen, verClose, curCkpt := head.open, head.close, p;
      LoadJournals(head.natNr, natJ, head.sitNr, sitJ);
    }

    method LoadJournals(natNr: nat, natJ: seq<Entry<NatEntry>>, sitNr: nat, sitJ: seq<Entry<SitEntry>>)
      requires Sizes() && |natJ| == |sitJ| == g.J() && natNr <= g.J() && sitNr <= g.J()
      requires InTable(natJ[..natNr], g.nodeNr) && InTable(sitJ[..sitNr], g.segNr)
      modifies nats`nr, sits`nr, nats.journal, sits.journal
      ensures Sizes()
      ensures nats.nr == natNr && sits.nr == sitNr && nats.journal[..] == natJ && sits.journal[..] == sitJ
    {
      forall k | 0 <= k < nats.journal.Length { nats.journal[k] := natJ[k]; }
      forall k | 0 <= k < sits.journal.Length { sits.journal[k] := sitJ[k]; }
      nats.nr := natNr;
      sits.nr := sitNr;
      assert nats.journal[..] == natJ && sits.journal[..] == sitJ;
      assert nats.journal[..natNr] == natJ[..natNr] && sits.journal[..sitNr] == sitJ[..sitNr];
    }

    /** Mounting reads back exactly what the newest completed checkpoint meant. */
    method Mount()
      requires Sizes() && Logged() && commits != []
      modifies this`verOpen, this`verClose, this`curCkpt, this`natBase, this`sitBase, natVer, sitVer, cur,
               nats`nr, sits`nr, nats.journal, sits.journal, nats.cells, nats.dirty, sits.cells, sits.dirty
      ensures Valid() && Memory() == commits[|commits| - 1].snap
      ensures forall i :: 0 <= i < nats.dirty.Length ==> !nats.dirty[i]
      ensures forall i :: 0 <= i < sits.dirty.Length ==> !sits.dirty[i]
    {
      hide Holds, History, Replay, Overlay, Decodes, CleanAgrees, NatPages, SitPages, Means, PagesShape;
      ghost var img, snap := commits[|commits| - 1].img, commits[|commits| - 1].snap;
      HistoryMeans(g, log, commits);
      MeansParts(g, img, snap);
      HoldsParts(g, disk, img);
      LoadCheckpoint(img);
      natBase, sitBase := img.natBase, img.sitBase;
      LoadTables();
      LoadedCells(g, img, snap, nats.cells[..], sits.cells[..], nats.journal[..nats.nr], sits.journal[..sits.nr]);
    }

    /** Reads both tables from the pages their version bitmaps select and the journals over them. */
    method LoadTables()
      requires Sizes()
      requires |natBase| == g.natBlks && PagesShape(natBase, g.natE) && NatPages(disk, natVer[..], natBase)
      requires |sitBase| == g.sitBlks && PagesShape(sitBase, g.sitE) && SitPages(disk, sitVer[..], sitBase)
      modifies nats.cells, nats.dirty, sits.cells, sits.dirty
      ensures Sizes() && Tables()
      ensures Decodes(Overlay(natBase, g.natE, nats.journal[..nats.nr]), g.natE, nats.cells[..])
      ensures Decodes(Overlay(sitBase, g.sitE, sits.journal[..sits.nr]), g.sitE, sits.cells[..])
      ensures forall i :: 0 <= i < nats.dirty.Length ==> !nats.dirty[i]
      ensures forall i :: 0 <= i < sits.dirty.Length ==> !sits.dirty[i]
    {
      hide Overlay, Decodes, CleanAgrees, NatPages, SitPages, PagesShape;
      var nb := ReadNatBase();
      var sb := ReadSitBase();
      nats.Load(nb);
      sits.Load(sb);
    }

    /** The run begins anew with the newest checkpoint. */
    ghost method Forget()
      requires Valid() && commits != []
      modifies this`commits
      ensures Valid() && Memory() == old(Memory()) && commits == [old(commits)[|old(commits)| - 1]] && commits[0].len <= |log|
    {
      hide Holds, History, Replay, Overlay, CleanAgrees, NatPages, SitPages, HeadsOk;
      HistoryLast(g, log, commits);
      commits := [commits[|commits| - 1]];
    }

    /** A power loss that keeps the first `n` block writes, followed by a mount.  Memory is then
        the newest checkpoint completed within those writes, and work can go on from it. */
    method Crash(n: nat) returns (ghost i: nat)
      requires Valid() && commits != [] && commits[0].len <= n <= |log|
      modifies this`log, this`disk, this`commits, this`verOpen, this`verClose, this`curCkpt, this`natBase, this`sitBase,
               natVer, sitVer, cur, nats`nr, sits`nr, nats.journal, sits.journal, nats.cells, nats.dirty, sits.cells, sits.dirty
      ensures Valid() && log == old(log)[..n]
      ensures i < |old(commits)| && old(commits)[i].len <= n && commits == old(commits)[..i + 1]
      ensures forall j :: i < j < |old(commits)| ==> n < old(commits)[j].len
      ensures Memory() == old(commits)[i].snap
    {
      hide Holds, History, Replay, Overlay, Decodes, CleanAgrees, NatPages, SitPages, Means, PagesShape, HeadsOk;
      i := CrashAtomic(g, log, commits, n);
      CommitsOrdered(g, log, commits, i);
      HistoryCut(g, log, commits, n, i + 1);
      log := log[..n];
      disk := Replay(log);
      commits := commits[..i + 1];
      Mount();
    }
  }

  lemma ValidLogged(c: Checkpointer)
    requires c.Valid()
    ensures History(c.g, c.log, c.commits) && c.disk == Replay(c.log)
  {
  }

  /** The newest checkpoint by itself. */
  lemma HistoryLast(g: Geo, log: seq<Write>, commits: seq<Commit>)
    requires History(g, log, commits) && commits != []
    ensures History(g, log, [commits[|commits| - 1]]) && commits[|commits| - 1].len <= |log|
  {
    hide Holds, Means, ImageShape;
    var c := commits[|commits| - 1];
    forall k | c.len <= k <= |log| ensures Holds(g, Replay(log[..k]), c.img) {
      assert End(log, commits, |commits| - 1) == |log|;
    }
  }

  lemma HistoryMeans(g: Geo, log: seq<Write>, commits: seq<Commit>)
    requires History(g, log, commits) && commits != []
    ensures var c := commits[|commits| - 1]; ImageShape(g, c.img) && Means(g, c.img, c.snap)
  {
    hide Holds, Means, ImageShape;
  }

  lemma CommitsOrdered(g: Geo, log: seq<Write>, commits: seq<Commit>, i: nat)
    requires History(g, log, commits) && i < |commits|
    ensures forall j :: 0 <= j <= i ==> commits[j].len <= commits[i].len
  {
    hide Holds, Means, ImageShape;
  }

  lemma HoldsParts(g: Geo, d: Disk, img: Image)
    requires Holds(g, d, img)
    ensures ImageShape(g, img) && img.pack < 2
    ensures HeadAt(img.pack) in d && d[HeadAt(img.pack)] == HeadB(img.head) && img.head.open == img.head.close
    ensures HeadAt(0) in d && HeadAt(1) in d && HeadsOk(d, img.head.close)
    ensures Stored(d, NatJAt(img.pack), NatJB(img.natJ))
    ensures |img.sitJ| == g.J()
    ensures forall i :: 0 <= i < g.parts ==> Stored(d, SitJAt(img.pack, i), SitJB(Chunk(img.sitJ, g.perPart, i, g.parts)))
    ensures |img.natBase| == g.natBlks && PagesShape(img.natBase, g.natE) && NatPages(d, img.head.natVer, img.natBase)
    ensures |img.sitBase| == g.sitBlks && PagesShape(img.sitBase, g.sitE) && SitPages(d, img.head.sitVer, img.sitBase)
  {
    hide NatPages, SitPages, Chunk;
    assert Version(d, img.pack) == img.head.close;
  }

  lemma MeansParts(g: Geo, img: Image, s: Snapshot)
    requires ImageShape(g, img) && Means(g, img, s)
    ensures |s.nats| == g.nodeNr && |s.sits| == g.segNr && |s.cur| == TEMP_NR && img.head.cur == s.cur
    ensures Decodes(Overlay(img.natBase, g.natE, img.natJ[..img.head.natNr]), g.natE, s.nats)
    ensures Decodes(Overlay(img.sitBase, g.sitE, img.sitJ[..img.head.sitNr]), g.sitE, s.sits)
  {
  }

  lemma LoadedCells(g: Geo, img: Image, s: Snapshot, nats: seq<NatEntry>, sits: seq<SitEntry>,
                    nj: seq<Entry<NatEntry>>, sj: seq<Entry<SitEntry>>)
    requires ImageShape(g, img) && Means(g, img, s)
    requires nj == img.natJ[..img.head.natNr] && sj == img.sitJ[..img.head.sitNr]
    requires |nats| == g.nodeNr && |sits| == g.segNr
    requires Decodes(Overlay(img.natBase, g.natE, nj), g.natE, nats)
    requires Decodes(Overlay(img.sitBase, g.sitE, sj), g.sitE, sits)
    ensures nats == s.nats && sits == s.sits
  {
    DecodesUnique(Overlay(img.natBase, g.natE, nj), g.natE, nats, s.nats);
    DecodesUnique(Overlay(img.sitBase, g.sitE, sj), g.sitE, sits, s.sits);
  }

  lemma ChunkPrefix<V>(s: seq<V>, P: nat, n: nat, i: nat)
    requires |s| == Cap(n, P) && i <= n
    ensures 0 <= i * P <= |s|
    ensures i > 0 ==> 0 <= (i - 1) * P <= |s| && s[..i * P] == s[..(i - 1) * P] + Chunk(s, P, i - 1, n)
    ensures i == n ==> s[..i * P] == s
  {
    if i < n {
      MulLess(i, n, P);
    }
    if i > 0 {
      MulLess(i - 1, i, P);
      SliceSplit(s, (i - 1) * P, i * P);
    }
  }

  lemma SliceSplit<V>(s: seq<V>, a: nat, b: nat)
    requires a <= b <= |s|
    ensures s[..b] == s[..a] + s[a..b]
  {
  }

  lemma SitPagesStay(d: Disk, d': Disk, ver: seq<bool>, base: seq<seq<SitEntry>>)
    requires SitPages(d, ver, base) && OnlyNat(d, d')
    ensures SitPages(d', ver, base)
  {
    forall b | 0 <= b < |ver| ensures Stored(d', SitAt(ver[b], b), SitB(base[b])) {
      assert Stored(d, SitAt(ver[b], b), SitB(base[b]));
    }
  }

  lemma NatPagesStay(d: Disk, d': Disk, ver: seq<bool>, base: seq<seq<NatEntry>>)
    requires NatPages(d, ver, base) && OnlySit(d, d')
    ensures NatPages(d', ver, base)
  {
    forall b | 0 <= b < |ver| ensures Stored(d', NatAt(ver[b], b), NatB(base[b])) {
      assert Stored(d, NatAt(ver[b], b), NatB(base[b]));
    }
  }

  lemma PackPagesStay(p: nat, d: Disk, d': Disk, nv: seq<bool>, nb: seq<seq<NatEntry>>, sv: seq<bool>, sb: seq<seq<SitEntry>>)
    requires NatPages(d, nv, nb) && SitPages(d, sv, sb) && OnlyPack(p, d, d')
    ensures NatPages(d', nv, nb) && SitPages(d', sv, sb)
  {
    forall b | 0 <= b < |nv| ensures Stored(d', NatAt(nv[b], b), NatB(nb[b])) {
      assert Stored(d, NatAt(nv[b], b), NatB(nb[b]));
    }
    forall b | 0 <= b < |sv| ensures Stored(d', SitAt(sv[b], b), SitB(sb[b])) {
      assert Stored(d, SitAt(sv[b], b), SitB(sb[b]));
    }
  }

  lemma HeadsStay(d: Disk, d1: Disk, d2: Disk, v: nat)
    requires HeadsOk(d, v) && OnlyNat(d, d1) && OnlySit(d1, d2)
    ensures HeadsOk(d2, v)
  {
    assert HeadAt(0) in d2 && d2[HeadAt(0)] == d[HeadAt(0)];
    assert HeadAt(1) in d2 && d2[HeadAt(1)] == d[HeadAt(1)];
  }

  /** A checkpoint touches no block of owners. */
  lemma SsaApart(p: nat, d: Disk, d1: Disk, d2: Disk, d3: Disk)
    requires OnlyNat(d, d1) && OnlySit(d1, d2) && OnlyPack(p, d2, d3)
    ensures SsaSame(d, d3)
  {
    forall s: nat ensures (SsaAt(s) in d3 <==> SsaAt(s) in d) && (SsaAt(s) in d ==> d3[SsaAt(s)] == d[SsaAt(s)]) {
      assert !OfPack(p, SsaAt(s)) && !SsaAt(s).NatAt? && !SsaAt(s).SitAt?;
    }
  }

  lemma TablesApart(d: Disk, d1: Disk, d2: Disk)
    requires OnlySit(d, d1) && OnlyNat(d1, d2)
    ensures SsaSame(d, d2)
  {
  }

  lemma SsaTrans(d: Disk, d1: Disk, d2: Disk)
    requires SsaSame(d, d1) && SsaSame(d1, d2)
    ensures SsaSame(d, d2)
  {
  }

  lemma HeadsKept(d: Disk, a: Addr, b: MetaBlock)
    requires HeadsOk(d, 0) && !a.HeadAt?
    ensures HeadsOk(d[a := b], 0)
  {
  }

  lemma HeadsClear(d: Disk, d1: Disk, d2: Disk)
    requires HeadsOk(d, 0) && OnlySit(d, d1) && OnlyNat(d1, d2)
    ensures HeadsOk(d2, 1)
  {
    assert HeadAt(0) in d2 && d2[HeadAt(0)] == d[HeadAt(0)];
    assert HeadAt(1) in d2 && d2[HeadAt(1)] == d[HeadAt(1)];
  }

  /** The first `n` pages of a table. */
  ghost predicate CutPages<V>(base: seq<seq<V>>, E: nat, cells: seq<V>, n: nat) {
    && 0 < E && n == |base| && PagesShape(base, E)
    && forall i :: 0 <= i < |cells| && i / E < n ==> 0 <= i / E && 0 <= i % E < E && base[i / E][i % E] == cells[i]
  }

  lemma CutNone<V>(E: nat, cells: seq<V>)
    requires 0 < E
    ensures CutPages([], E, cells, 0)
  {
  }

  lemma CutShape<V>(base: seq<seq<V>>, E: nat, cells: seq<V>)
    requires CutPages(base, E, cells, |base|)
    ensures PagesShape(base, E)
  {
  }

  lemma CutMore<V>(base: seq<seq<V>>, E: nat, cells: seq<V>, page: seq<V>)
    requires CutPages(base, E, cells, |base|) && |page| == E
    requires forall i :: 0 <= i < |cells| && i / E == |base| ==> i % E < E && page[i % E] == cells[i]
    ensures CutPages(base + [page], E, cells, |base| + 1)
  {
  }

  /** Pages cut from a table decode to it. */
  lemma PagesDecode<V>(m: seq<seq<V>>, E: nat, cells: seq<V>, dirty: seq<bool>)
    requires CutPages(m, E, cells, |m|) && |cells| == |dirty| <= Cap(|m|, E)
    ensures CleanAgrees(m, E, cells, dirty)
  {
    forall i | 0 <= i < |cells| ensures Agrees(m, E, cells, i) {
      DivMod(i, E, |m|);
    }
  }

  lemma DecodesCovers<V>(m: seq<seq<V>>, E: nat, cells: seq<V>, dirty: seq<bool>)
    requires 0 < E && PagesShape(m, E) && Decodes(m, E, cells) && |dirty| == |cells|
    ensures CleanAgrees(m, E, cells, dirty)
  {
  }

  /** Both packs have a header block, and no valid one is newer than `v`. */
  ghost predicate HeadsOk(d: Disk, v: nat) {
    && HeadAt(0) in d && d[HeadAt(0)].HeadB? && Version(d, 0) <= v
    && HeadAt(1) in d && d[HeadAt(1)].HeadB? && Version(d, 1) <= v
  }

  predicate OfPack(p: nat, a: Addr) {
    a == HeadAt(p) || a == NatJAt(p) || (a.SitJAt? && a.pack == p)
  }

  ghost predicate OnlyPack(p: nat, d: Disk, d': Disk) {
    forall a :: !OfPack(p, a) ==> (a in d' <==> a in d) && (a in d ==> d'[a] == d[a])
  }

  /** With its body in place the closing header makes a pack the checkpoint of the medium. */
  lemma SaveHolds(g: Geo, d0: Disk, d: Disk, img: Image, snap: Snapshot)
    requires ImageShape(g, img) && img.head.open == img.head.close > 0
    requires OnlyPack(img.pack, d0, d) && HeadsOk(d0, img.head.close - 1)
    requires PackBody(g, d, img.pack, img.natJ, img.sitJ)
    requires NatPages(d0, img.head.natVer, img.natBase) && SitPages(d0, img.head.sitVer, img.sitBase)
    requires snap.cur == img.head.cur && |snap.cur| == TEMP_NR && |snap.nats| == g.nodeNr && |snap.sits| == g.segNr
    requires Decodes(Overlay(img.natBase, g.natE, img.natJ[..img.head.natNr]), g.natE, snap.nats)
    requires Decodes(Overlay(img.sitBase, g.sitE, img.sitJ[..img.head.sitNr]), g.sitE, snap.sits)
    ensures Holds(g, d[HeadAt(img.pack) := HeadB(img.head)], img)
    ensures Means(g, img, snap)
    ensures HeadsOk(d[HeadAt(img.pack) := HeadB(img.head)], img.head.close)
    ensures OnlyPack(img.pack, d0, d[HeadAt(img.pack) := HeadB(img.head)])
  {
    hide Decodes, Overlay, Chunk;
    var d' := d[HeadAt(img.pack) := HeadB(img.head)];
    forall b | 0 <= b < |img.head.natVer| ensures Stored(d', NatAt(img.head.natVer[b], b), NatB(img.natBase[b])) {
      assert Stored(d0, NatAt(img.head.natVer[b], b), NatB(img.natBase[b]));
    }
    forall b | 0 <= b < |img.head.sitVer| ensures Stored(d', SitAt(img.head.sitVer[b], b), SitB(img.sitBase[b])) {
      assert Stored(d0, SitAt(img.head.sitVer[b], b), SitB(img.sitBase[b]));
    }
    assert !OfPack(img.pack, HeadAt(1 - img.pack));
    forall i | 0 <= i < g.parts
      ensures Stored(d', SitJAt(img.pack, i), SitJB(Chunk(img.sitJ, g.perPart, i, g.parts)))
    {
      assert Stored(d, SitJAt(img.pack, i), SitJB(Chunk(img.sitJ, g.perPart, i, g.parts)));
    }
  }

  /** Only table pages differ. */
  ghost predicate OnlyNat(d: Disk, d': Disk) {
    forall a: Addr :: !a.NatAt? ==> (a in d' <==> a in d) && (a in d ==> d'[a] == d[a])
  }

  ghost predicate OnlySit(d: Disk, d': Disk) {
    forall a: Addr :: !a.SitAt? ==> (a in d' <==> a in d) && (a in d ==> d'[a] == d[a])
  }

  lemma NatPagesNone(d: Disk, ver: seq<bool>, base: seq<seq<NatEntry>>, merged: seq<seq<NatEntry>>)
    requires NatPages(d, ver, base) && |merged| == |base|
    ensures NatPages(d, ver, merged[..0] + base[0..]) && OnlyNat(d, d)
  {
    assert merged[..0] + base[0..] == base;
  }

  /** Page `n` is taken over as it is, or written to its other copy. */
  lemma NatPagesStep(d0: Disk, d: Disk, ver: seq<bool>, base: seq<seq<NatEntry>>, merged: seq<seq<NatEntry>>, n: nat)
    requires |merged| == |base| == |ver| && n < |ver| && NatPages(d, ver, merged[..n] + base[n..]) && OnlyNat(d0, d)
    ensures merged[n] == base[n] ==> NatPages(d, ver, merged[..n + 1] + base[n + 1..])
    ensures NatPages(d[NatAt(!ver[n], n) := NatB(merged[n])], ver[n := !ver[n]], merged[..n + 1] + base[n + 1..])
    ensures OnlyNat(d0, d[NatAt(!ver[n], n) := NatB(merged[n])])
  {
    assert forall b :: 0 <= b < |ver| && b != n ==> (merged[..n + 1] + base[n + 1..])[b] == (merged[..n] + base[n..])[b];
  }

  lemma SitPagesNone(d: Disk, ver: seq<bool>, base: seq<seq<SitEntry>>, merged: seq<seq<SitEntry>>)
    requires SitPages(d, ver, base) && |merged| == |base|
    ensures SitPages(d, ver, merged[..0] + base[0..]) && OnlySit(d, d)
  {
    assert merged[..0] + base[0..] == base;
  }

  /** Page `n` is taken over as it is, or written to its other copy. */
  lemma SitPagesStep(d0: Disk, d: Disk, ver: seq<bool>, base: seq<seq<SitEntry>>, merged: seq<seq<SitEntry>>, n: nat)
    requires |merged| == |base| == |ver| && n < |ver| && SitPages(d, ver, merged[..n] + base[n..]) && OnlySit(d0, d)
    ensures merged[n] == base[n] ==> SitPages(d, ver, merged[..n + 1] + base[n + 1..])
    ensures SitPages(d[SitAt(!ver[n], n) := SitB(merged[n])], ver[n := !ver[n]], merged[..n + 1] + base[n + 1..])
    ensures OnlySit(d0, d[SitAt(!ver[n], n) := SitB(merged[n])])
  {
    assert forall b :: 0 <= b < |ver| && b != n ==> (merged[..n + 1] + base[n + 1..])[b] == (merged[..n] + base[n..])[b];
  }
}
