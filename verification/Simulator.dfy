/** The file system and its checkpoints together: every run is one that the recovery theorem speaks of,
    so a power loss at any event brings back the files of the newest checkpoint, and a mount makes a file
    system of them on which the run goes on. */
module Simulator {
  import opened Segments
  import opened SegmentRuns
  import opened Mapping
  import opened FileMap
  import opened FileChanges
  import opened FileSystem
  import opened Medium
  import opened Checkpoint
  import opened JournalTable
  import opened Recovery
  import opened SegmentManager

  function SegOps(steps: seq<Step>): (ops: seq<Op>)
    ensures |ops| == |steps|
  {
    if steps == [] then [] else SegOps(steps[..|steps| - 1]) + [Seg(steps[|steps| - 1])]
  }

  function MetaOps(writes: seq<Write>): (ops: seq<Op>)
    ensures |ops| == |writes|
  {
    if writes == [] then [] else MetaOps(writes[..|writes| - 1]) + [Meta(writes[|writes| - 1])]
  }

  lemma {:induction false} SegOpsLogs(steps: seq<Step>)
    ensures MetaLog(SegOps(steps)) == [] && SegSteps(SegOps(steps)) == steps
  {
    if steps != [] {
      SegOpsLogs(steps[..|steps| - 1]);
      var ops := SegOps(steps);
      assert ops[..|ops| - 1] == SegOps(steps[..|steps| - 1]);
    }
  }

  lemma {:induction false} MetaOpsLogs(writes: seq<Write>)
    ensures MetaLog(MetaOps(writes)) == writes && SegSteps(MetaOps(writes)) == []
    ensures writes != [] ==> MetaOps(writes)[|writes| - 1].Meta?
  {
    if writes != [] {
      MetaOpsLogs(writes[..|writes| - 1]);
      var ops := MetaOps(writes);
      assert ops[..|ops| - 1] == MetaOps(writes[..|writes| - 1]);
    }
  }

  /** Points of a run are points of every longer run. */
  lemma PointsStay(B: nat, ops: seq<Op>, more: seq<Op>, st0: State, commits: seq<Commit>, points: seq<Point>)
    requires |points| == |commits| && forall i :: 0 <= i < |points| ==> PointOk(B, ops, st0, commits[i], points[i])
    ensures forall i :: 0 <= i < |points| ==> PointOk(B, ops + more, st0, commits[i], points[i])
  {
    hide Run, Inv, NoDirty, SegSteps, MetaLog;
    forall i | 0 <= i < |points| ensures PointOk(B, ops + more, st0, commits[i], points[i]) {
      assert PointOk(B, ops, st0, commits[i], points[i]);
      assert (ops + more)[..points[i].at] == ops[..points[i].at];
    }
  }

  /** Steps of the segment log prolong a run. */
  lemma TrackSteps(g: Geo, B: nat, ops: seq<Op>, st0: State, commits: seq<Commit>, points: seq<Point>, steps: seq<Step>)
    requires Tracked(g, B, ops, st0, commits, points) && Run(B, st0, SegSteps(ops) + steps).Some?
    ensures Tracked(g, B, ops + SegOps(steps), st0, commits, points)
    ensures MetaLog(ops + SegOps(steps)) == MetaLog(ops) && SegSteps(ops + SegOps(steps)) == SegSteps(ops) + steps
  {
    hide Run, History, PointOk;
    SegOpsLogs(steps);
    MetaSplit(ops, SegOps(steps));
    StepSplit(ops, SegOps(steps));
    assert MetaLog(ops) + [] == MetaLog(ops);
    PointsStay(B, ops, SegOps(steps), st0, commits, points);
  }

  /** Metadata writes that complete no checkpoint prolong a run. */
  lemma TrackWrites(g: Geo, B: nat, ops: seq<Op>, st0: State, commits: seq<Commit>, points: seq<Point>, writes: seq<Write>)
    requires Tracked(g, B, ops, st0, commits, points) && History(g, MetaLog(ops) + writes, commits)
    ensures Tracked(g, B, ops + MetaOps(writes), st0, commits, points)
    ensures MetaLog(ops + MetaOps(writes)) == MetaLog(ops) + writes && SegSteps(ops + MetaOps(writes)) == SegSteps(ops)
  {
    hide Run, History, PointOk;
    MetaOpsLogs(writes);
    MetaSplit(ops, MetaOps(writes));
    StepSplit(ops, MetaOps(writes));
    assert SegSteps(ops) + [] == SegSteps(ops);
    PointsStay(B, ops, MetaOps(writes), st0, commits, points);
  }

  /** A checkpoint of a state without dirty nodes prolongs a run by one point. */
  lemma TrackCheckpoint(g: Geo, B: nat, ops: seq<Op>, st0: State, commits: seq<Commit>, points: seq<Point>,
                        writes: seq<Write>, c: Commit, w: World, l2p: map<Summary, Loc>)
    requires Run(B, st0, SegSteps(ops)) == Some(w.st) && |points| == |commits|
    requires forall i :: 0 <= i < |points| ==> PointOk(B, ops, st0, commits[i], points[i])
    requires History(g, MetaLog(ops) + writes, commits + [c]) && writes != [] && c.len == |MetaLog(ops) + writes|
    requires Inv(B, w, l2p, None) && NoDirty(w) && c.snap == SnapshotOf(w)
    ensures Tracked(g, B, ops + MetaOps(writes), st0, commits + [c], points + [Point(|ops + MetaOps(writes)|, w, l2p)])
    ensures MetaLog(ops + MetaOps(writes)) == MetaLog(ops) + writes && SegSteps(ops + MetaOps(writes)) == SegSteps(ops)
  {
    hide Run, History, Inv, NoDirty;
    MetaOpsLogs(writes);
    MetaSplit(ops, MetaOps(writes));
    StepSplit(ops, MetaOps(writes));
    var ops' := ops + MetaOps(writes);
    assert SegSteps(ops) + [] == SegSteps(ops);
    assert ops'[..|ops'|] == ops';
    LastPoint(B, ops', st0, c, Point(|ops'|, w, l2p));
    hide PointOk;
    PointsStay(B, ops, MetaOps(writes), st0, commits, points);
  }

  lemma LastPoint(B: nat, ops: seq<Op>, st0: State, c: Commit, p: Point)
    requires 0 < p.at == |ops| && ops[p.at - 1].Meta? && |MetaLog(ops)| == c.len && Run(B, st0, SegSteps(ops)) == Some(p.world.st)
    requires Inv(B, p.world, p.l2p, None) && NoDirty(p.world) && c.snap == SnapshotOf(p.world)
    ensures PointOk(B, ops, st0, c, p)
  {
    assert ops[..p.at] == ops;
  }

  /** A mount of `w'` shows the files of `w`: sizes, blocks, and so tags. */
  ghost predicate SameImage(d: Sizes, w: World, w': World)
    requires d.Ok()
  {
    && (forall f: int, k: nat :: FileBlock(d, w', f, k) == FileBlock(d, w, f, k))
    && (forall f :: SizeOf(w', f) == SizeOf(w, f))
    && (forall f :: Tagged(d, w, f) ==> Tagged(d, w', f))
  }

  /** A formatted medium for the tables of a segment manager. */
  method Formatted(m: Manager, g: Geo) returns (c: Checkpointer)
    requires g.Ok() && m.cur.Length == TEMP_NR && g.nodeNr == m.table.Length && g.segNr == m.segs.Length
    ensures fresh(c) && fresh(c.nats) && fresh(c.nats.cells) && fresh(c.nats.dirty) && fresh(c.nats.journal) && fresh(c.natVer)
    ensures fresh(c.sits) && fresh(c.sits.cells) && fresh(c.sits.dirty) && fresh(c.sits.journal) && fresh(c.sitVer) && fresh(c.cur)
    ensures c.g == g && c.Valid() && |c.commits| == 1 && c.commits[0].len == |c.log| && c.commits[0].snap == c.Memory()
    ensures c.cur[..] == m.cur[..] && c.nats.cells[..] == m.table[..] && |c.sits.cells[..]| == m.segs.Length
    ensures forall s :: 0 <= s < m.segs.Length ==> c.sits.cells[s] == SitOf(m.segs[s])
    ensures SsaOk(c.disk, m.segs[..])
  {
    hide Checkpointer.Valid, Checkpointer.Sizes, Checkpointer.Logged, SsaOk, SitOf;
    c := new Checkpointer(g, Unused, SitEntry([], 0, TEMP_NR));
    SizesOf(c);
    Fill(c, m);
    SizesOf(c);
    c.Format(m.segs[..]);
  }

  lemma SizesOf(c: Checkpointer)
    requires c.Sizes()
    ensures c.nats.cells.Length == c.g.nodeNr && c.sits.cells.Length == c.g.segNr && c.cur.Length == TEMP_NR
  {
  }

  /** Copies the tables of a segment manager. */
  method Fill(c: Checkpointer, m: Manager)
    requires c.nats.cells.Length == m.table.Length && c.sits.cells.Length == m.segs.Length && c.cur.Length == m.cur.Length
    requires c.cur != m.cur && c.nats.cells != m.table
    modifies c.nats.cells, c.sits.cells, c.cur
    ensures c.cur[..] == m.cur[..] && c.nats.cells[..] == m.table[..]
    ensures forall s :: 0 <= s < m.segs.Length ==> c.sits.cells[s] == SitOf(m.segs[s])
  {
    hide SitOf;
    forall n | 0 <= n < m.table.Length { c.nats.cells[n] := m.table[n]; }
    forall s | 0 <= s < m.segs.Length { c.sits.cells[s] := SitOf(m.segs[s]); }
    forall t | 0 <= t < m.cur.Length { c.cur[t] := m.cur[t]; }
  }

  /** The first checkpoint of a run. */
  lemma FirstPoint(g: Geo, B: nat, st0: State, steps: seq<Step>, log: seq<Write>, commits: seq<Commit>, w: World, l2p: map<Summary, Loc>)
    requires History(g, log, commits) && |commits| == 1 && commits[0].len == |log| && commits[0].snap == SnapshotOf(w)
    requires Run(B, st0, steps) == Some(w.st) && Inv(B, w, l2p, None) && NoDirty(w)
    ensures var ops := SegOps(steps) + MetaOps(log);
            && Tracked(g, B, ops, st0, commits, [Point(|ops|, w, l2p)])
            && MetaLog(ops) == log && SegSteps(ops) == steps
  {
    FirstLog(g, log, commits);
    RunNone(g, B, st0);
    hide Inv, Run, History, PointOk, MetaLog, SegSteps, NoDirty, Tracked;
    assert [] + SegOps(steps) == SegOps(steps) && [] + steps == steps && [] + log == log;
    TrackSteps(g, B, [], st0, [], [], steps);
    assert [] + commits == commits && commits == [] + [commits[0]];
    TrackCheckpoint(g, B, SegOps(steps), st0, [], [], log, commits[0], w, l2p);
    var p := Point(|SegOps(steps) + MetaOps(log)|, w, l2p);
    assert [] + [p] == [p];
  }

  /** The only checkpoint kept of a medium that is mounted, as the first point of a new run. */
  lemma LoadedPoint(g: Geo, B: nat, st0: State, log: seq<Write>, c: Commit, w: World, l2p: map<Summary, Loc>)
    requires History(g, log, [c]) && c.snap == SnapshotOf(w) && c.len <= |log|
    requires w.st == st0 && Inv(B, w, l2p, None) && NoDirty(w)
    ensures var first := MetaOps(log[..c.len]);
            && |first| == c.len && Tracked(g, B, first + MetaOps(log[c.len..]), st0, [c], [Point(c.len, w, l2p)])
            && MetaLog(first + MetaOps(log[c.len..])) == log && SegSteps(first + MetaOps(log[c.len..])) == []
            && MetaLog((first + MetaOps(log[c.len..]))[..c.len]) == log[..c.len]
  {
    var first, rest := MetaOps(log[..c.len]), log[c.len..];
    assert log[..c.len] + rest == log;
    HistoryCut(g, log, [c], c.len, 1);
    assert [c][..1] == [c];
    RunEmpty(B, st0);
    hide Run, History, PointOk, Tracked, Inv, NoDirty;
    FirstPoint(g, B, st0, [], log[..c.len], [c], w, l2p);
    assert SegOps([]) + first == first;
    TrackWrites(g, B, first, st0, [c], [Point(c.len, w, l2p)], rest);
    assert (first + MetaOps(rest))[..c.len] == first;
  }

  lemma RunEmpty(B: nat, st0: State)
    ensures Run(B, st0, []) == Some(st0)
  {
  }

  /** Whose the files of a point are. */
  datatype Catalog = Catalog(files: set<nat>, own: Owners, lost: set<int>)

  /** At every point of the run the owners on the medium are those of its segments, and its nodes are
      files. */
  ghost predicate RecordOk(d: Sizes, ops: seq<Op>, p: Point, cat: Catalog) {
    && p.at <= |ops| && SsaOk(Replay(MetaLog(ops[..p.at])), p.world.st.segs)
    && FsOk(d, p.world, cat.files, cat.own, cat.lost)
  }

  ghost predicate Recorded(d: Sizes, ops: seq<Op>, points: seq<Point>, cats: seq<Catalog>) {
    |cats| == |points| && forall i :: 0 <= i < |points| ==> RecordOk(d, ops, points[i], cats[i])
  }

  lemma RecordedStay(d: Sizes, ops: seq<Op>, more: seq<Op>, points: seq<Point>, cats: seq<Catalog>)
    requires Recorded(d, ops, points, cats)
    ensures Recorded(d, ops + more, points, cats)
  {
    hide FsOk, SsaOk, Replay, MetaLog;
    forall i | 0 <= i < |points| ensures RecordOk(d, ops + more, points[i], cats[i]) {
      assert RecordOk(d, ops, points[i], cats[i]);
      assert (ops + more)[..points[i].at] == ops[..points[i].at];
    }
  }

  lemma RecordedMore(d: Sizes, ops: seq<Op>, points: seq<Point>, cats: seq<Catalog>, p: Point, cat: Catalog)
    requires Recorded(d, ops, points, cats) && p.at == |ops|
    requires SsaOk(Replay(MetaLog(ops)), p.world.st.segs) && FsOk(d, p.world, cat.files, cat.own, cat.lost)
    ensures Recorded(d, ops, points + [p], cats + [cat])
  {
    hide FsOk, SsaOk, Replay, MetaLog;
    assert ops[..p.at] == ops;
    assert RecordOk(d, ops, p, cat);
  }

  /** No block of owners is written. */
  ghost predicate NoSummaries(writes: seq<Write>) {
    forall k :: 0 <= k < |writes| ==> !writes[k].addr.SsaAt?
  }

  lemma {:induction false} SummariesStay(log: seq<Write>, more: seq<Write>)
    requires NoSummaries(more)
    ensures SsaSame(Replay(log), Replay(log + more))
    decreases |more|
  {
    if more == [] {
      assert log + more == log;
    } else {
      var init := more[..|more| - 1];
      SummariesStay(log, init);
      assert log + more == (log + init) + [more[|more| - 1]];
      ReplayPush(log + init, more[|more| - 1]);
    }
  }

  /** After event `n` a mount with the node table `table` shows the files of point `p`, if no more
      segments were allocated since than were free at it. */
  ghost predicate Survives(d: Sizes, B: nat, st0: State, ops: seq<Op>, p: Point, n: nat, table: seq<NatEntry>)
  {
    && d.Ok() && p.at <= n <= |ops| && Run(B, st0, SegSteps(ops[..n])).Some?
    && (Allocs(SegSteps(ops[p.at..n])) <= |p.world.st.queue| ==>
      SameImage(d, p.world, Remounted(table, Run(B, st0, SegSteps(ops[..n])).value)))
  }

  /** Point `i` is the last one completed by event `n`. */
  ghost predicate Newest(points: seq<Point>, i: nat, n: nat) {
    i < |points| && points[i].at <= n && forall j :: i < j < |points| ==> n < points[j].at
  }

  /** The checkpoint that a power loss after event `n` leaves: by events, and by metadata writes. */
  lemma Survivor(g: Geo, B: nat, ops: seq<Op>, st0: State, commits: seq<Commit>, points: seq<Point>, n: nat, d: Sizes) returns (i: nat)
    requires Tracked(g, B, ops, st0, commits, points) && points != [] && points[0].at <= n <= |ops| && d.Ok()
    ensures |points| == |commits| && Newest(points, i, n)
    ensures forall j :: 0 <= j < |commits| ==> (commits[j].len <= |MetaLog(ops[..n])| <==> points[j].at <= n)
    ensures |MetaLog(ops[..n])| <= |MetaLog(ops)|
    ensures commits[i].snap == SnapshotOf(points[i].world)
    ensures Survives(d, B, st0, ops, points[i], n, points[i].world.table)
  {
    hide Run, Inv, NoDirty, SegSteps, MetaLog, History, SnapshotOf, Remounted, SizeOf, FileBlock, Tagged;
    i := FilesSurvive(g, B, ops, st0, commits, points, n, d);
    forall j | 0 <= j < |commits|
      ensures commits[j].len <= |MetaLog(ops[..n])| <==> points[j].at <= n
      ensures |MetaLog(ops[..n])| <= |MetaLog(ops)| && commits[j].snap == SnapshotOf(points[j].world)
    {
      assert PointOk(B, ops, st0, commits[j], points[j]);
      PointOrder(B, ops, st0, commits[j], points[j], n);
    }
  }

  lemma SnapshotTable(w: World, table: seq<NatEntry>)
    requires SnapshotOf(w).nats == table
    ensures w.table == table
  {
  }

  class Simulator {
    const fs: FileSystem
    const c: Checkpointer
    ghost var ops: seq<Op>
    ghost var points: seq<Point>
    ghost var cats: seq<Catalog>

    ghost predicate Fits() {
      fs.m.cur != c.cur && fs.m.table != c.nats.cells && c.g.nodeNr == fs.m.table.Length && c.g.segNr == fs.m.segs.Length
    }

    /** What belongs to the mounted file system, as opposed to the medium. */
    ghost function Repr(): set<object> {
      {this, fs, fs.m, fs.m.segs, fs.m.cur, fs.m.freeNext, fs.m.table, fs.m.cache}
    }

    /** The run so far is a run of the recovery theorem, with a point for every checkpoint. */
    ghost predicate Traced(steps: seq<Step>)
      reads this, fs.m`origin, c`log, c`commits
    {
      && MetaLog(ops) == c.log && SegSteps(ops) == steps
      && Tracked(c.g, fs.m.B, ops, fs.m.origin, c.commits, points)
      && Recorded(fs.d, ops, points, cats)
    }

    ghost predicate CkptValid()
      reads c, c.nats, c.sits, c.natVer, c.sitVer, c.nats.journal, c.sits.journal, c.nats.cells, c.sits.cells, c.nats.dirty, c.sits.dirty
    {
      c.Valid()
    }

    /** The tables of the checkpoint are what the dirty marks of the segment manager count from. */
    ghost predicate Synced()
      reads fs.m`natBase, fs.m`segBase, c, c.nats, c.sits, c.nats.cells, c.sits.cells
    {
      && c.nats.cells[..] == fs.m.natBase && c.sits.cells.Length == |fs.m.segBase|
      && forall s :: 0 <= s < |fs.m.segBase| ==> c.sits.cells[s] == SitOf(fs.m.segBase[s])
    }

    /** So are the owners on the medium. */
    ghost predicate Valid()
      reads this, fs, fs.m, fs.m.segs, fs.m.cur, fs.m.freeNext, fs.m.table, fs.m.cache,
            c, c.nats, c.sits, c.natVer, c.sitVer, c.nats.journal, c.sits.journal, c.nats.cells, c.sits.cells, c.nats.dirty, c.sits.dirty
    {
      Fits() && fs.Valid() && CkptValid() && Synced() && SsaOk(c.disk, fs.m.segBase) && Traced(fs.m.steps)
    }

    /** Makes a file system: the tables and the owners are written out, with a first checkpoint. */
    constructor (fs: FileSystem, g: Geo)
      requires fs.Valid() && NoDirty(fs.m.W()) && g.Ok() && g.nodeNr == fs.m.table.Length && g.segNr == fs.m.segs.Length
      modifies fs.m`natDirty, fs.m`segDirty, fs.m`natBase, fs.m`segBase
      ensures this.fs == fs && Valid() && |points| == 1 && points[0].at == |ops| && points[0].world == fs.m.W() == old(fs.m.W())
      ensures fs.m.natDirty == {} && fs.m.segDirty == {}
    {
      hide FsOk, Inv, Run, RingOk, History, PointOk, MetaLog, SegSteps, Holds, Tracked, Recorded, RecordOk, NoDirty, SsaOk, Replay, SitOf,
           Manager.SegsMarked, Manager.NatMarked, Checkpointer.Valid;
      fs.m.ClearMarks();
      var c0 := Formatted(fs.m, g);
      this.fs, c := fs, c0;
      ops := SegOps(fs.m.steps) + MetaOps(c0.log);
      points := [Point(|SegOps(fs.m.steps) + MetaOps(c0.log)|, fs.m.W(), fs.m.l2p)];
      cats := [Catalog(fs.files, fs.own, fs.lost)];
      new;
      assert c.Memory() == SnapshotOf(fs.m.W());
      ValidLogged(c);
      FirstPoint(c.g, fs.m.B, fs.m.origin, fs.m.steps, c.log, c.commits, fs.m.W(), fs.m.l2p);
      assert ops[..|ops|] == ops;
      OneRecord(fs.d, ops, points[0], cats[0]);
    }

    /** A file system whose tables were just loaded from the newest checkpoint of `c`. */
    constructor Loaded(fs: FileSystem, c: Checkpointer)
      requires fs.Valid() && c.Valid() && c.commits != [] && c.commits[|c.commits| - 1].snap == c.Memory() == SnapshotOf(fs.m.W())
      requires fs.m.cur != c.cur && fs.m.table != c.nats.cells && c.g.nodeNr == fs.m.table.Length && c.g.segNr == fs.m.segs.Length
      requires fs.m.steps == [] && fs.m.natBase == fs.m.table[..] && fs.m.segBase == fs.m.segs[..] && NoDirty(fs.m.W())
      requires c.commits[|c.commits| - 1].len <= |c.log| && SsaOk(Replay(c.log[..c.commits[|c.commits| - 1].len]), fs.m.segs[..])
      requires SsaOk(c.disk, fs.m.segs[..])
      modifies c`commits
      ensures this.fs == fs && this.c == c && Valid() && |points| == 1 && points[0].world == fs.m.W()
    {
      hide FsOk, Inv, Run, RingOk, History, PointOk, MetaLog, SegSteps, Holds, Tracked, Recorded, RecordOk, NoDirty, SsaOk, Replay, SnapshotOf;
      c.Forget();
      ghost var n := c.commits[0].len;
      this.fs, this.c := fs, c;
      ops := MetaOps(c.log[..n]) + MetaOps(c.log[n..]);
      points, cats := [Point(n, fs.m.W(), fs.m.l2p)], [Catalog(fs.files, fs.own, fs.lost)];
      new;
      SnapshotCells(fs.m.W(), c.Memory());
      assert Run(fs.m.B, fs.m.origin, []) == Some(fs.m.Log());
      RunEmpty(fs.m.B, fs.m.origin);
      LoadedPoint(c.g, fs.m.B, fs.m.origin, c.log, c.commits[0], fs.m.W(), fs.m.l2p);
      OneRecord(fs.d, ops, points[0], cats[0]);
    }

    /** Takes note of what the file system has done: whatever operation it was, the run stays one that
        the recovery theorem speaks of. */
    ghost method Note(steps0: seq<Step>)
      requires Fits() && fs.Valid() && CkptValid() && Synced() && SsaOk(c.disk, fs.m.segBase) && Traced(steps0) && steps0 <= fs.m.steps
      modifies this`ops
      ensures Valid() && ops == old(ops) + SegOps(fs.m.steps[|steps0|..])
    {
      hide FsOk, Inv, Run, RingOk, History, PointOk, MetaLog, SegSteps, Recorded, SsaOk;
      var more := fs.m.steps[|steps0|..];
      assert steps0 + more == fs.m.steps;
      TrackSteps(c.g, fs.m.B, ops, fs.m.origin, c.commits, points, more);
      RecordedStay(fs.d, ops, SegOps(more), points, cats);
      ops := ops + SegOps(more);
    }

    lemma CkptSizes()
      requires CkptValid() && Fits()
      ensures c.nats.cells.Length == fs.m.table.Length && c.sits.cells.Length == fs.m.segs.Length && c.cur.Length == TEMP_NR
      ensures c.nats.dirty != c.sits.dirty
    {
    }

    /** Hands the entries of the node table that are marked dirty to the checkpoint: then the whole
        table is the checkpoint's. */
    method StoreNats()
      requires Fits() && CkptValid() && c.nats.cells[..] == fs.m.natBase && fs.m.NatMarked()
      modifies c.nats.cells, c.nats.dirty
      ensures CkptValid() && c.nats.cells[..] == fs.m.table[..]
      ensures forall n: nat :: n < c.nats.dirty.Length && n !in fs.m.natDirty ==> c.nats.dirty[n] == old(c.nats.dirty[n])
    {
      hide CkptValid;
      CkptSizes();
      var n := 0;
      while n < fs.m.table.Length
        invariant n <= fs.m.table.Length && CkptValid()
        invariant forall k :: 0 <= k < n ==> c.nats.cells[k] == fs.m.table[k]
        invariant forall k :: n <= k < fs.m.table.Length ==> c.nats.cells[k] == fs.m.natBase[k]
        invariant forall k: nat :: k < c.nats.dirty.Length && k !in fs.m.natDirty ==> c.nats.dirty[k] == old(c.nats.dirty[k])
      {
        if n in fs.m.natDirty {
          StoreNat(n, fs.m.table[n]);
        }
        n := n + 1;
      }
    }

    /** The same for the segment table. */
    method StoreSits()
      requires Fits() && CkptValid() && c.sits.cells.Length == |fs.m.segBase| && fs.m.SegsMarked()
      requires forall s :: 0 <= s < |fs.m.segBase| ==> c.sits.cells[s] == SitOf(fs.m.segBase[s])
      modifies c.sits.cells, c.sits.dirty
      ensures CkptValid() && |c.sits.cells[..]| == fs.m.segs.Length
      ensures forall s: nat :: s < c.sits.dirty.Length && s !in fs.m.segDirty ==> c.sits.dirty[s] == old(c.sits.dirty[s])
      ensures forall k :: 0 <= k < fs.m.segs.Length ==> c.sits.cells[k] == SitOf(fs.m.segs[k])
    {
      hide CkptValid;
      CkptSizes();
      var s := 0;
      while s < fs.m.segs.Length
        invariant s <= fs.m.segs.Length && CkptValid()
        invariant forall k :: 0 <= k < s ==> c.sits.cells[k] == SitOf(fs.m.segs[k])
        invariant forall k :: s <= k < fs.m.segs.Length ==> c.sits.cells[k] == SitOf(fs.m.segBase[k])
        invariant forall k: nat :: k < c.sits.dirty.Length && k !in fs.m.segDirty ==> c.sits.dirty[k] == old(c.sits.dirty[k])
      {
        if s in fs.m.segDirty {
          StoreSit(s, SitOf(fs.m.segs[s]));
        }
        s := s + 1;
      }
    }

    method StoreNat(n: nat, e: NatEntry)
      requires CkptValid() && n < c.nats.cells.Length
      modifies c.nats.cells, c.nats.dirty
      ensures c.nats.dirty[..] == old(c.nats.dirty[..])[n := true]
      ensures CkptValid() && c.nats.cells[n] == e && forall k :: 0 <= k < c.nats.cells.Length && k != n ==> c.nats.cells[k] == old(c.nats.cells[k])
    {
      ghost var s := c.nats.cells[..];
      c.SetNat(n, e);
      assert c.nats.cells[..] == s[n := e];
    }

    method StoreSit(n: nat, e: SitEntry)
      requires CkptValid() && n < c.sits.cells.Length
      modifies c.sits.cells, c.sits.dirty
      ensures c.sits.dirty[..] == old(c.sits.dirty[..])[n := true]
      ensures CkptValid() && c.sits.cells[n] == e && forall k :: 0 <= k < c.sits.cells.Length && k != n ==> c.sits.cells[k] == old(c.sits.cells[k])
    {
      ghost var s := c.sits.cells[..];
      c.SetSit(n, e);
      assert c.sits.cells[..] == s[n := e];
    }

    /** Hands tables and current segments of the segment manager to the checkpoint: only marked entries
        are copied, and then the checkpoint's tables are the segment manager's. */
    method StoreTables()
      requires Fits() && fs.Valid() && CkptValid() && Synced()
      modifies c.nats.cells, c.nats.dirty, c.sits.cells, c.sits.dirty, c.cur
      ensures fs.Valid() && CkptValid() && c.Memory() == SnapshotOf(fs.m.W()) && fs.m.W() == old(fs.m.W())
      ensures forall n: nat :: n < c.nats.dirty.Length && n !in fs.m.natDirty ==> c.nats.dirty[n] == old(c.nats.dirty[n])
      ensures forall s: nat :: s < c.sits.dirty.Length && s !in fs.m.segDirty ==> c.sits.dirty[s] == old(c.sits.dirty[s])
    {
      hide FsOk, Inv, Run, RingOk, CkptValid, SsaOk;
      CkptSizes();
      StoreNats();
      StoreSits();
      forall t | 0 <= t < c.cur.Length { c.cur[t] := fs.m.cur[t]; }
    }

    /** Writes the owners of the blocks of every segment that is marked dirty: then the owners of all
        segments are on the medium. */
    method SyncSsa()
      requires Valid()
      modifies this`ops, c`log, c`disk
      ensures fs.Valid() && CkptValid() && Traced(fs.m.steps) && old(ops) <= ops && SsaOk(c.disk, fs.m.segs[..])
      ensures OnlyMarked(old(c.log), c.log, fs.m.segDirty)
    {
      hide FsOk, Inv, Run, RingOk, History, PointOk, MetaLog, SegSteps, Recorded, Tracked, CkptValid, Replay, OnlyMarked, SsaOk;
      ghost var log0 := c.log;
      CkptLog();
      StoreOwners();
      CkptLog();
      ghost var writes := c.log[|log0|..];
      assert log0 + writes == c.log;
      TrackWrites(c.g, fs.m.B, ops, fs.m.origin, c.commits, points, writes);
      RecordedStay(fs.d, ops, MetaOps(writes), points, cats);
      ops := ops + MetaOps(writes);
    }

    method StoreOwners()
      requires CkptValid() && fs.m.SegsMarked() && SsaOk(c.disk, fs.m.segBase)
      modifies c`log, c`disk
      ensures CkptValid() && c.commits == old(c.commits) && SsaOk(c.disk, fs.m.segs[..])
      ensures OnlyMarked(old(c.log), c.log, fs.m.segDirty) && old(c.log) <= c.log
    {
      hide CkptValid, OnlyMarked;
      NothingWritten(c.log, fs.m.segDirty);
      var s := 0;
      while s < fs.m.segs.Length
        modifies c`log, c`disk
        invariant s <= fs.m.segs.Length && CkptValid() && old(c.log) <= c.log && c.commits == old(c.commits)
        invariant forall k: nat :: k < s ==> Stored(c.disk, SsaAt(k), SsaB(fs.m.segs[k].ssa))
        invariant forall k: nat :: s <= k < fs.m.segs.Length ==> Stored(c.disk, SsaAt(k), SsaB(fs.m.segBase[k].ssa))
        invariant OnlyMarked(old(c.log), c.log, fs.m.segDirty)
      {
        if s in fs.m.segDirty {
          MarkedMore(old(c.log), c.log, fs.m.segDirty, s, SsaB(fs.m.segs[s].ssa));
          StoreSummary(s, fs.m.segs[s].ssa);
        }
        s := s + 1;
      }
    }

    lemma CkptLog()
      requires CkptValid()
      ensures History(c.g, c.log, c.commits) && c.disk == Replay(c.log)
    {
      ValidLogged(c);
    }

    method StoreSummary(s: nat, owners: seq<Summary>)
      requires CkptValid()
      modifies c`log, c`disk
      ensures CkptValid() && c.commits == old(c.commits)
      ensures c.log == old(c.log) + [Write(SsaAt(s), SsaB(owners))] && c.disk == old(c.disk)[SsaAt(s) := SsaB(owners)]
    {
      c.WriteSummary(s, owners);
    }

    /** Completes a checkpoint of the tables that were handed over. */
    method WriteCheckpoint()
      requires Fits() && fs.Valid() && CkptValid() && Traced(fs.m.steps)
      requires NoDirty(fs.m.W()) && c.Memory() == SnapshotOf(fs.m.W()) && SsaOk(c.disk, fs.m.segs[..])
      modifies this`ops, this`points, this`cats, c, c.nats, c.sits, c.natVer, c.sitVer, c.nats.journal, c.sits.journal, c.nats.dirty, c.sits.dirty
      ensures fs.Valid() && CkptValid() && Traced(fs.m.steps) && c.Memory() == SnapshotOf(fs.m.W()) && SsaOk(c.disk, fs.m.segs[..])
      ensures old(ops) <= ops && points == old(points) + [Point(|ops|, fs.m.W(), fs.m.l2p)]
      ensures cats == old(cats) + [Catalog(fs.files, fs.own, fs.lost)]
    {
      hide FsOk, Inv, Run, RingOk, History, PointOk, MetaLog, SegSteps, NoDirty, Holds, HeadsOk, NatPages, SitPages, PagesShape, CleanAgrees, Overlay, SsaOk, SsaSame, Replay, Recorded, RecordOk, Tracked;
      ghost var log0, commits0, disk0 := c.log, c.commits, c.disk;
      TracedParts(fs.m.steps);
      c.WriteCheckpoint();
      SsaStays(disk0, c.disk, fs.m.segs[..]);
      ghost var writes := c.log[|log0|..];
      assert log0 + writes == c.log;
      assert c.commits == commits0 + [c.commits[|commits0|]];
      TrackCheckpoint(c.g, fs.m.B, ops, fs.m.origin, commits0, points, writes, c.commits[|commits0|], fs.m.W(), fs.m.l2p);
      RecordedStay(fs.d, ops, MetaOps(writes), points, cats);
      ops := ops + MetaOps(writes);
      RecordedMore(fs.d, ops, points, cats, Point(|ops|, fs.m.W(), fs.m.l2p), Catalog(fs.files, fs.own, fs.lost));
      points := points + [Point(|ops|, fs.m.W(), fs.m.l2p)];
      cats := cats + [Catalog(fs.files, fs.own, fs.lost)];
    }

    lemma TracedParts(steps: seq<Step>)
      requires Traced(steps) && Run(fs.m.B, fs.m.origin, steps).Some?
      ensures Run(fs.m.B, fs.m.origin, SegSteps(ops)) == Run(fs.m.B, fs.m.origin, steps) && |points| == |c.commits|
      ensures forall i :: 0 <= i < |points| ==> PointOk(fs.m.B, ops, fs.m.origin, c.commits[i], points[i])
    {
      hide Run, PointOk, History, Recorded;
    }

    /** Nothing is marked any more once tables and owners are on the medium. */
    method Unmark()
      requires Fits() && fs.Valid() && CkptValid() && Traced(fs.m.steps) && c.Memory() == SnapshotOf(fs.m.W()) && SsaOk(c.disk, fs.m.segs[..])
      modifies fs.m`natDirty, fs.m`segDirty, fs.m`natBase, fs.m`segBase
      ensures Valid() && fs.m.W() == old(fs.m.W()) && fs.m.natDirty == {} && fs.m.segDirty == {}
    {
      hide FsOk, Inv, Run, RingOk, CkptValid, Simulator.Traced, SsaOk, SnapshotOf, SitOf, Manager.SegsMarked, Manager.NatMarked, Manager.Ring, Manager.PagesOk, Manager.Traced;
      SnapshotCells(fs.m.W(), c.Memory());
      fs.m.ClearMarks();
    }

    /** Writes the owners of changed segments and completes a checkpoint of a state without dirty nodes. */
    method StoreAll()
      requires Valid() && NoDirty(fs.m.W())
      modifies this`ops, this`points, this`cats, fs.m`natDirty, fs.m`segDirty, fs.m`natBase, fs.m`segBase, c,
               c.nats, c.sits, c.natVer, c.sitVer, c.nats.journal, c.sits.journal, c.nats.cells, c.sits.cells, c.nats.dirty, c.sits.dirty, c.cur
      ensures Valid() && fs.m.W() == old(fs.m.W()) && old(ops) <= ops
      ensures points == old(points) + [Point(|ops|, fs.m.W(), fs.m.l2p)] && cats == old(cats) + [Catalog(fs.files, fs.own, fs.lost)]
      ensures fs.m.natDirty == {} && fs.m.segDirty == {}
    {
      hide FileSystem.Valid, CkptValid, Simulator.Traced, NoDirty, SsaOk, SnapshotOf, SitOf;
      SyncSsa();
      StoreTables();
      WriteCheckpoint();
      Unmark();
    }

    /** Flushes every node, writes the owners of changed segments and completes a checkpoint of the
        result: one more point in the run, nothing is marked dirty, and no file shows a difference. */
    method SyncFs() returns (ok: bool)
      requires Valid() && fs.m.CurSafe()
      modifies this`ops, this`points, this`cats, fs.m, fs.m.segs, fs.m.cur, fs.m.freeNext, fs.m.table, fs.m.cache, c,
               c.nats, c.sits, c.natVer, c.sitVer, c.nats.journal, c.sits.journal, c.nats.cells, c.sits.cells, c.nats.dirty, c.sits.dirty, c.cur
      ensures Valid() && SameContents(old(fs.m.W()), fs.m.W()) && SameFiles(fs.d, old(fs.m.W()), fs.m.W(), fs.files)
      ensures old(ops) <= ops
      ensures ok ==> points == old(points) + [Point(|ops|, fs.m.W(), fs.m.l2p)] && cats == old(cats) + [Catalog(fs.files, fs.own, fs.lost)]
      ensures ok ==> fs.m.natDirty == {} && fs.m.segDirty == {}
      ensures !ok ==> points == old(points)
      ensures old(fs.m.freeNr) >= fs.m.reserved + DirtyNr(old(fs.m.W()), fs.m.table.Length) ==> ok
    {
      hide FsOk, Inv, Run, RingOk, CkptValid, Simulator.Traced, SameContents, SameFiles, NoDirty, SsaOk, SnapshotOf, SitOf, Manager.CurSafe, Manager.SegsMarked, Manager.NatMarked;
      ghost var steps0 := fs.m.steps;
      ok := fs.Sync();
      Note(steps0);
      if ok {
        StoreAll();
      }
    }

    /** A power loss after event `n`, when `k` metadata writes had reached the medium, and a mount.  The
        tables loaded are those of the newest checkpoint completed by then; and as long as no more
        segments were allocated since than were free at it, they show its files. */
    method PowerLoss(k: nat, ghost n: nat) returns (ghost i: nat)
      requires Valid() && points != [] && points[0].at <= n <= |ops| && k == |MetaLog(ops[..n])|
      modifies c, c.nats, c.sits, c.natVer, c.sitVer, c.nats.journal, c.sits.journal, c.nats.cells, c.sits.cells, c.nats.dirty, c.sits.dirty, c.cur
      ensures Newest(points, i, n) && CkptValid() && c.Memory() == SnapshotOf(points[i].world)
      ensures Survives(fs.d, fs.m.B, fs.m.origin, ops, points[i], n, c.nats.cells[..])
      ensures k <= |old(c.log)| && c.log == old(c.log)[..k]
      ensures i < |old(c.commits)| && c.commits == old(c.commits)[..i + 1] && c.commits[i].snap == c.Memory()
    {
      hide Inv, Run, RingOk, FsOk, Tracked, MetaLog, SegSteps, SnapshotOf, Survives, SameImage, History, Holds, HeadsOk, NatPages, SitPages, Recorded, SsaOk;
      OkHere(fs.d, fs.m.W(), fs.files, fs.own, fs.lost);
      i := Survivor(c.g, fs.m.B, ops, fs.m.origin, c.commits, points, n, fs.d);
      ghost var commits := c.commits;
      ghost var i' := c.Crash(k);
      SnapshotTable(points[i].world, c.nats.cells[..]);
    }

    /** The main area after event `n`. */
    ghost function DiskAt(n: nat): map<Loc, Block>
      requires n <= |ops|
      reads this, fs.m`origin
    {
      match Run(fs.m.B, fs.m.origin, SegSteps(ops[..n]))
      case Some(st) => st.disk
      case None => map[]
    }

    /** The segments as a mount reads them: the loaded table with the owners from the medium. */
    method ReadSegs(ghost w: World) returns (segs: seq<SegmentInfo>)
      requires CkptValid() && c.Memory() == SnapshotOf(w) && SsaOk(c.disk, w.st.segs)
      ensures segs == w.st.segs
    {
      hide CkptValid;
      SnapshotCells(w, c.Memory());
      segs := [];
      var s := 0;
      while s < c.sits.cells.Length
        invariant s <= c.sits.cells.Length && segs == w.st.segs[..s]
      {
        assert Stored(c.disk, SsaAt(s), SsaB(w.st.segs[s].ssa));
        var e := c.sits.cells[s];
        segs := segs + [SegmentInfo(e.valid, e.validNr, e.temp, c.disk[SsaAt(s)].owners)];
        s := s + 1;
      }
    }

    /** Mounts the medium of this file system as it was after event `n`, when no owners were written and
        no more segments allocated since the newest checkpoint than were free at it.  The result is a
        file system again, on which everything that was proved of files holds: with the files of that
        checkpoint, the root cached, and every node and block reading as it did.  It may write exactly
        when no current segment was empty. */
    method Recover(k: nat, ghost n: nat, disk0: map<Loc, Block>, root: nat) returns (sim: Simulator, ghost i: nat)
      requires Valid() && points != [] && points[0].at <= n <= |ops| && k == |MetaLog(ops[..n])| && disk0 == DiskAt(n)
      requires forall j: nat :: Newest(points, j, n) ==> Settled(ops, points[j], n) && root in cats[j].files
      modifies c, c.nats, c.sits, c.natVer, c.sitVer, c.nats.journal, c.sits.journal, c.nats.cells, c.sits.cells, c.nats.dirty, c.sits.dirty, c.cur
      ensures fresh(sim.Repr()) && sim.c == c && sim.fs.d == fs.d
      ensures Newest(points, i, n) && i < |cats| && sim.Valid() && sim.fs.Open(root)
      ensures sim.fs.files == cats[i].files && sim.fs.own == cats[i].own && sim.fs.lost == cats[i].lost
      ensures SameContents(points[i].world, sim.fs.m.W()) && SameFiles(fs.d, points[i].world, sim.fs.m.W(), sim.fs.files)
      ensures sim.fs.m.CurSafe() <==> Occupied(points[i].world.st.segs, points[i].world.st.cur)
    {
      hide FsOk, Inv, Run, RingOk, CkptValid, Simulator.Traced, Simulator.Mountable, NoDirty, SsaOk, Manager.SegsMarked, Manager.NatMarked, Manager.CurSafe,
           SameContents, SameFiles, Settled, Occupied, Newest, SegSteps, MetaLog;
      i := LoadPoint(k, n, disk0);
      sim := Assemble(points[i], cats[i], disk0, root);
    }

    /** Unmounting and mounting again: a sync, and the medium mounted from its last checkpoint.  The
        files are the same, and everything reads as before the sync. */
    method Remount(root: nat) returns (ok: bool, sim: Simulator)
      requires Valid() && fs.m.CurSafe() && root in fs.files
      modifies this`ops, this`points, this`cats, fs.m, fs.m.segs, fs.m.cur, fs.m.freeNext, fs.m.table, fs.m.cache, c,
               c.nats, c.sits, c.natVer, c.sitVer, c.nats.journal, c.sits.journal, c.nats.cells, c.sits.cells, c.nats.dirty, c.sits.dirty, c.cur
      ensures sim.Valid() && sim.c == c && sim.fs.d == fs.d
      ensures !ok ==> sim == this && SameContents(old(fs.m.W()), fs.m.W())
      ensures ok ==> fresh(sim.Repr()) && sim.fs.Open(root)
      ensures sim.fs.files == fs.files && sim.fs.own == fs.own && sim.fs.lost == fs.lost
      ensures SameContents(old(fs.m.W()), sim.fs.m.W()) && SameFiles(fs.d, old(fs.m.W()), sim.fs.m.W(), fs.files)
      ensures ok ==> (sim.fs.m.CurSafe() <==> Occupied(fs.m.segs[..], fs.m.cur[..]))
      ensures old(fs.m.freeNr) >= fs.m.reserved + DirtyNr(old(fs.m.W()), fs.m.table.Length) ==> ok
    {
      hide Simulator.Valid, FileSystem.Valid, FsOk, Inv, Run, RingOk, CkptValid, Simulator.Traced, NoDirty, SsaOk, Manager.SegsMarked, Manager.NatMarked, Manager.CurSafe,
           SameContents, SameFiles, Settled, Occupied, Newest, SegSteps, MetaLog, Manager.W, FileSystem.Open, Simulator.Repr, DirtyNr;
      ghost var w := fs.m.W();
      ok := SyncFs();
      sim := this;
      if ok {
        ghost var w1 := fs.m.W();
        SizesOk();
        sim := MountSynced(root);
        SameTrans(w, w1, sim.fs.m.W());
        sim.SizesOk();
        FilesStay(fs.d, w, sim.fs.m.W(), fs.files);
      }
    }

    lemma SizesOk()
      requires Valid()
      ensures fs.d.Ok() && Fits()
    {
      OkHere(fs.d, fs.m.W(), fs.files, fs.own, fs.lost);
    }

    /** Mounts the medium right after a checkpoint. */
    method MountSynced(root: nat) returns (sim: Simulator)
      requires Valid() && points != [] && points[|points| - 1].at == |ops| && points[|points| - 1].world == fs.m.W()
      requires cats != [] && cats[|cats| - 1] == Catalog(fs.files, fs.own, fs.lost) && root in fs.files
      modifies c, c.nats, c.sits, c.natVer, c.sitVer, c.nats.journal, c.sits.journal, c.nats.cells, c.sits.cells, c.nats.dirty, c.sits.dirty, c.cur
      ensures sim.Valid() && sim.c == c && sim.fs.d == fs.d && fresh(sim.Repr()) && sim.fs.Open(root)
      ensures sim.fs.files == fs.files && sim.fs.own == fs.own && sim.fs.lost == fs.lost && SameContents(fs.m.W(), sim.fs.m.W())
      ensures sim.fs.m.CurSafe() <==> Occupied(fs.m.segs[..], fs.m.cur[..])
    {
      hide Simulator.Valid, FileSystem.Valid, FsOk, Inv, Run, RingOk, CkptValid, Simulator.Traced, NoDirty, SsaOk, Manager.SegsMarked, Manager.NatMarked, Manager.CurSafe,
           SameContents, SameFiles, Settled, Occupied, Newest, SegSteps, MetaLog;
      SizesOk();
      SyncedMedium();
      ghost var i;
      sim, i := Recover(|c.log|, |ops|, fs.m.disk, root);
      NewestLast(points, i, |ops|);
    }

    /** Right after a checkpoint the medium can be mounted as it is. */
    lemma SyncedMedium()
      requires Valid() && points != [] && points[|points| - 1].at == |ops|
      ensures points[0].at <= |ops| && |c.log| == |MetaLog(ops[..|ops|])| && fs.m.disk == DiskAt(|ops|) && |cats| == |points|
      ensures forall j: nat :: Newest(points, j, |ops|) ==> j == |points| - 1 && Settled(ops, points[j], |ops|)
    {
      hide FsOk, Inv, Run, RingOk, CkptValid, NoDirty, SsaOk, Tracked, Simulator.Synced, SegSteps, MetaLog, Replay;
      assert ops[..|ops|] == ops;
      forall i | 0 <= i < |points| ensures points[i].at <= |ops| {
        assert RecordOk(fs.d, ops, points[i], cats[i]);
      }
      NothingSince(ops, points[|points| - 1]);
    }

    /** What was written is read back after unmounting and mounting: a read gives what it would have
        given before, and a file with its tags is read back exactly. */
    method RemountRead(root: nat, ino: nat, offset: nat, len: nat) returns (ok: bool, blks: seq<Option<Tag>>, sim: Simulator)
      requires Valid() && fs.m.CurSafe() && root in fs.files && ino in fs.files && offset <= SizeOf(fs.m.W(), ino)
      modifies this`ops, this`points, this`cats, fs.m, fs.m.segs, fs.m.cur, fs.m.freeNext, fs.m.table, fs.m.cache, c,
               c.nats, c.sits, c.natVer, c.sitVer, c.nats.journal, c.sits.journal, c.nats.cells, c.sits.cells, c.nats.dirty, c.sits.dirty, c.cur
      ensures sim.Valid() && sim.fs.files == fs.files && SameContents(old(fs.m.W()), sim.fs.m.W())
      ensures ok ==> fresh(sim.Repr()) && ReadsBack(fs.d, old(fs.m.W()), ino, offset, len, blks)
      ensures ok && Tagged(fs.d, old(fs.m.W()), ino) ==> AllTags(fs.d, ino, offset, blks)
    {
      hide FsOk, Inv, Run, RingOk, CkptValid, Simulator.Traced, Simulator.Synced, SsaOk, Manager.SegsMarked, Manager.NatMarked, Manager.CurSafe,
           SameContents, SameFiles, Occupied, ReadsBack, AllTags, Tagged, SizeOf;
      ghost var w := fs.m.W();
      OkHere(fs.d, w, fs.files, fs.own, fs.lost);
      blks := [];
      ok, sim := Remount(root);
      if ok {
        ghost var w1 := sim.fs.m.W();
        blks := sim.ReadFile(ino, offset, len, w);
        SameTrans(w, w1, sim.fs.m.W());
      }
    }

    /** Opens a file and reads from it what `w` shows, if nothing reads differently since. */
    method ReadFile(ino: nat, offset: nat, len: nat, ghost w: World) returns (blks: seq<Option<Tag>>)
      requires Valid() && ino in fs.files && offset <= SizeOf(w, ino) && SameContents(w, fs.m.W())
      modifies this`ops, fs, fs.m, fs.m.segs, fs.m.cur, fs.m.freeNext, fs.m.table, fs.m.cache
      ensures Valid() && fs.files == old(fs.files) && SameContents(old(fs.m.W()), fs.m.W())
      ensures ReadsBack(fs.d, w, ino, offset, len, blks)
      ensures Tagged(fs.d, w, ino) ==> AllTags(fs.d, ino, offset, blks)
    {
      hide FsOk, Inv, Run, RingOk, CkptValid, Simulator.Traced, Simulator.Synced, SsaOk, Manager.SegsMarked, Manager.NatMarked, Manager.CurSafe,
           SameContents, SameFiles, ReadsBack, AllTags, Tagged, SizeOf, Manager.Ring, Manager.PagesOk, Manager.Traced, Manager.W;
      ghost var w0, steps0 := fs.m.W(), fs.m.steps;
      OkHere(fs.d, w0, fs.files, fs.own, fs.lost);
      fs.OpenInode(ino);
      ghost var w1 := fs.m.W();
      SameTrans(w, w0, w1);
      ReadsSame(fs.d, w, w1, ino, offset, len, []);
      blks := fs.FileRead(ino, offset, len);
      SameTrans(w0, w1, fs.m.W());
      ReadsSame(fs.d, w, w1, ino, offset, len, blks);
      if Tagged(fs.d, w, ino) {
        TaggedReadsBack(fs.d, w, ino, offset, len, blks);
      }
      Note(steps0);
    }

    /** A power loss after event `n` and loading the tables of the newest checkpoint, when nothing
        written since forbids a mount. */
    method LoadPoint(k: nat, ghost n: nat, ghost disk0: map<Loc, Block>) returns (ghost i: nat)
      requires Valid() && points != [] && points[0].at <= n <= |ops| && k == |MetaLog(ops[..n])| && disk0 == DiskAt(n)
      requires forall j: nat :: Newest(points, j, n) ==> Settled(ops, points[j], n)
      modifies c, c.nats, c.sits, c.natVer, c.sitVer, c.nats.journal, c.sits.journal, c.nats.cells, c.sits.cells, c.nats.dirty, c.sits.dirty, c.cur
      ensures Newest(points, i, n) && i < |points| == |cats| && Mountable(points[i], cats[i], disk0)
    {
      hide FsOk, Inv, Run, RingOk, CkptValid, NoDirty, SsaOk, SnapshotOf, Manager.SegsMarked, Manager.NatMarked, Survives,
           Loadable, Mappable, MountedWorld, SameContents, Recorded, Tracked, Settled, SegSteps, MetaLog, Replay, FreshTemp, FileSystem.Valid, Simulator.Synced, Newest, History, Simulator.Fits;
      CkptLog();
      LogCut(ops, n);
      ghost var log0, commits0 := c.log, c.commits;
      i := PowerLoss(k, n);
      CkptLog();
      NewestIn(fs.d, ops, points, cats, i, n);
      MountReady(c.g, fs.m.B, fs.d, ops, fs.m.origin, commits0, points, cats, i, n);
    }

    /** The loaded tables and point `p` over a medium from which it can be mounted. */
    ghost predicate Mountable(p: Point, cat: Catalog, disk0: map<Loc, Block>)
      reads c, c.nats, c.sits, c.natVer, c.sitVer, c.nats.journal, c.sits.journal, c.nats.cells, c.sits.cells, c.nats.dirty, c.sits.dirty, c.cur
    {
      var w := p.world;
      && CkptValid() && c.Memory() == SnapshotOf(w) && SsaOk(c.disk, w.st.segs) && FsOk(fs.d, w, cat.files, cat.own, cat.lost)
      && Loadable(fs.m.B, w.st.segs, w.st.cur, disk0) && Mappable(fs.m.B, MountedWorld(w.st.segs, w.st.cur, w.table, disk0), p.l2p)
      && SameContents(w, MountedWorld(w.st.segs, w.st.cur, w.table, disk0))
      && (forall s :: 0 <= s < |w.st.segs| ==> FreshTemp(w.st.segs[s], w.st.cur, s) == w.st.segs[s])
      && c.commits != [] && c.commits[|c.commits| - 1].snap == c.Memory()
      && c.commits[|c.commits| - 1].len <= |c.log| && SsaOk(Replay(c.log[..c.commits[|c.commits| - 1].len]), w.st.segs)
    }

    /** The file system over the loaded tables. */
    method Build(ghost p: Point, ghost cat: Catalog, disk0: map<Loc, Block>) returns (sim: Simulator)
      requires Mountable(p, cat, disk0) && Fits() && fs.m.Arrays() && fs.maxFile <= fs.d.tableSize * fs.d.indexSize
      modifies c`commits
      ensures fresh(sim.Repr()) && sim.c == c && sim.fs.d == fs.d && sim.Valid()
      ensures sim.fs.files == cat.files && sim.fs.own == cat.own && sim.fs.lost == cat.lost && SameContents(p.world, sim.fs.m.W())
      ensures sim.fs.m.CurSafe() <==> Occupied(p.world.st.segs, p.world.st.cur)
    {
      hide FsOk, Inv, Run, RingOk, NoDirty, SsaOk, SnapshotOf, SitOf, Manager.SegsMarked, Manager.NatMarked, Manager.CurSafe, Checkpointer.Valid,
           Loadable, Mappable, MountedWorld, SameContents, SameFiles, Simulator.Traced, Occupied, Replay, FreshTemp;
      var f := MountFiles(p.world, p.l2p, cat, disk0);
      sim := new Simulator.Loaded(f, c);
    }

    /** The file system over the loaded tables, with the root in the cache. */
    method Assemble(ghost p: Point, ghost cat: Catalog, disk0: map<Loc, Block>, root: nat) returns (sim: Simulator)
      requires Mountable(p, cat, disk0) && Fits() && fs.m.Arrays() && fs.maxFile <= fs.d.tableSize * fs.d.indexSize && root in cat.files
      modifies c`commits
      ensures fresh(sim.Repr()) && sim.c == c && sim.fs.d == fs.d
      ensures sim.Valid() && sim.fs.Open(root)
      ensures sim.fs.files == cat.files && sim.fs.own == cat.own && sim.fs.lost == cat.lost
      ensures SameContents(p.world, sim.fs.m.W()) && SameFiles(fs.d, p.world, sim.fs.m.W(), sim.fs.files)
      ensures sim.fs.m.CurSafe() <==> Occupied(p.world.st.segs, p.world.st.cur)
    {
      hide Mountable, FsOk, Inv, Run, RingOk, NoDirty, SsaOk, Manager.SegsMarked, Manager.NatMarked, Manager.CurSafe, Checkpointer.Valid,
           SameContents, SameFiles, Simulator.Traced, Occupied, FileSystem.Open, Simulator.Valid, FileSystem.Valid;
      MountableFiles(p, cat, disk0);
      sim := Build(p, cat, disk0);
      ghost var w := sim.fs.m.W();
      sim.OpenRoot(root);
      SameTrans(p.world, w, sim.fs.m.W());
      FilesStay(fs.d, p.world, sim.fs.m.W(), sim.fs.files);
    }

    lemma MountableFiles(p: Point, cat: Catalog, disk0: map<Loc, Block>)
      requires Mountable(p, cat, disk0)
      ensures FsOk(fs.d, p.world, cat.files, cat.own, cat.lost)
    {
    }

    /** Brings the root into the cache. */
    method OpenRoot(root: nat)
      requires Valid() && root in fs.files
      modifies fs.m`pages, fs.m`nextPage, fs.m.cache
      ensures Valid() && fs.Open(root) && SameContents(old(fs.m.W()), fs.m.W()) && fs.m.CurSafe() == old(fs.m.CurSafe())
      ensures fs.files == old(fs.files) && fs.own == old(fs.own) && fs.lost == old(fs.lost)
    {
      hide FsOk, Inv, Run, RingOk, CkptValid, Simulator.Traced, SsaOk, Manager.SegsMarked, Manager.NatMarked, SameContents, SameFiles, Simulator.Synced;
      fs.OpenInode(root);
    }

    /** The segment manager and the files over the loaded tables. */
    method MountFiles(ghost w: World, ghost l2p: map<Summary, Loc>, ghost cat: Catalog, disk0: map<Loc, Block>) returns (f: FileSystem)
      requires CkptValid() && c.Memory() == SnapshotOf(w) && SsaOk(c.disk, w.st.segs) && Fits()
      requires fs.m.Arrays() && fs.maxFile <= fs.d.tableSize * fs.d.indexSize && FsOk(fs.d, w, cat.files, cat.own, cat.lost)
      requires Loadable(fs.m.B, w.st.segs, w.st.cur, disk0)
      requires Mappable(fs.m.B, MountedWorld(w.st.segs, w.st.cur, w.table, disk0), l2p)
      requires SameContents(w, MountedWorld(w.st.segs, w.st.cur, w.table, disk0))
      requires forall s :: 0 <= s < |w.st.segs| ==> FreshTemp(w.st.segs[s], w.st.cur, s) == w.st.segs[s]
      ensures fresh(f) && fresh(f.m) && fresh(f.m.segs) && fresh(f.m.cur) && fresh(f.m.freeNext) && fresh(f.m.table) && fresh(f.m.cache)
      ensures f.Valid() && f.d == fs.d && f.files == cat.files && f.own == cat.own && f.lost == cat.lost
      ensures f.m.steps == [] && f.m.natBase == f.m.table[..] && f.m.segBase == f.m.segs[..] == w.st.segs
      ensures NoDirty(f.m.W()) && SnapshotOf(f.m.W()) == c.Memory() && SameContents(w, f.m.W())
      ensures f.m.table.Length == fs.m.table.Length && f.m.segs.Length == fs.m.segs.Length
      ensures f.m.CurSafe() <==> Occupied(w.st.segs, w.st.cur)
    {
      hide CkptValid, FsOk, Inv, Run, RingOk, SsaOk, SitOf, Manager.SegsMarked, Manager.NatMarked, Manager.CurSafe, Loadable, Mappable, SameContents, FreshTemp;
      CkptSizes();
      SnapshotCells(w, c.Memory());
      var segs0 := ReadSegs(w);
      var m := new Manager.Mount(fs.m.B, fs.m.reserved, fs.m.gcHi, fs.m.poolSize, segs0, c.cur[..], c.nats.cells[..], disk0, l2p);
      SameTrans(w, MountedWorld(w.st.segs, w.st.cur, w.table, disk0), m.W());
      MountedFiles(fs.d, w, m.W(), cat);
      f := new FileSystem.Mounted(fs.d, m, fs.opSegs, fs.maxFile, cat.files, cat.own, cat.lost);
      assert f.m.segs[..] == w.st.segs;
    }
  }

  lemma MountedFiles(d: Sizes, w: World, w': World, cat: Catalog)
    requires FsOk(d, w, cat.files, cat.own, cat.lost) && SameContents(w, w') && w'.table == w.table && w'.cache == seq(|w.table|, _ => -1)
    ensures FsOk(d, w', cat.files, cat.own, cat.lost)
  {
    hide Reads, FileOk, IndexOk;
    SameNodes(w, w');
    FsStays(d, w, w', cat.files, cat.own, cat.lost);
  }

  /** What the medium holds after event `n`. */
  lemma LogCut(ops: seq<Op>, n: nat)
    requires n <= |ops|
    ensures |MetaLog(ops[..n])| <= |MetaLog(ops)| && MetaLog(ops)[..|MetaLog(ops[..n])|] == MetaLog(ops[..n])
  {
    assert ops[..n] + ops[n..] == ops;
    MetaSplit(ops[..n], ops[n..]);
  }

  lemma NewestIn(d: Sizes, ops: seq<Op>, points: seq<Point>, cats: seq<Catalog>, i: nat, n: nat)
    requires Newest(points, i, n) && Recorded(d, ops, points, cats)
    ensures i < |points| == |cats|
  {
  }

  lemma NewestLast(points: seq<Point>, i: nat, n: nat)
    requires Newest(points, i, n) && points[|points| - 1].at <= n
    ensures i == |points| - 1
  {
  }

  lemma NothingSince(ops: seq<Op>, p: Point)
    requires p.at == |ops|
    ensures Settled(ops, p, |ops|)
  {
    assert ops[p.at..|ops|] == [];
  }

  /** Between point `p` and event `n` no owners were written, and no more segments allocated than were
      free at the point. */
  ghost predicate Settled(ops: seq<Op>, p: Point, n: nat) {
    p.at <= n <= |ops| && NoSummaries(MetaLog(ops[p.at..n])) && Allocs(SegSteps(ops[p.at..n])) <= |p.world.st.queue|
  }

  /** What a mount of a point needs, over the medium that a later cut leaves. */
  lemma MountReady(g: Geo, B: nat, d: Sizes, ops: seq<Op>, st0: State, commits: seq<Commit>, points: seq<Point>, cats: seq<Catalog>, i: nat, n: nat)
    requires Tracked(g, B, ops, st0, commits, points) && Recorded(d, ops, points, cats) && i < |points| && Settled(ops, points[i], n)
    ensures Run(B, st0, SegSteps(ops[..n])).Some?
    ensures var w, disk := points[i].world, Run(B, st0, SegSteps(ops[..n])).value.disk;
            && Loadable(B, w.st.segs, w.st.cur, disk)
            && Mappable(B, MountedWorld(w.st.segs, w.st.cur, w.table, disk), points[i].l2p)
            && SameContents(w, MountedWorld(w.st.segs, w.st.cur, w.table, disk))
            && forall s :: 0 <= s < |w.st.segs| ==> FreshTemp(w.st.segs[s], w.st.cur, s) == w.st.segs[s]
    ensures var log := MetaLog(ops[..n]);
            && commits[i].len <= |log| && SsaOk(Replay(log[..commits[i].len]), points[i].world.st.segs)
            && SsaOk(Replay(log), points[i].world.st.segs)
    ensures i < |cats| && FsOk(d, points[i].world, cats[i].files, cats[i].own, cats[i].lost)
    ensures Inv(B, points[i].world, points[i].l2p, None) && NoDirty(points[i].world)
  {
    hide Run, Inv, NoDirty, SegSteps, MetaLog, History, SsaOk, FsOk, Replay, Loadable, Mappable, MountedWorld, SameContents, Allocs, NoSummaries, FreshTemp;
    var p := points[i];
    assert PointOk(B, ops, st0, commits[i], p) && RecordOk(d, ops, p, cats[i]);
    assert ops[..n] + ops[n..] == ops && ops[..p.at] + ops[p.at..n] == ops[..n];
    StepSplit(ops[..n], ops[n..]);
    StepSplit(ops[..p.at], ops[p.at..n]);
    MetaSplit(ops[..p.at], ops[p.at..n]);
    RunSplit(B, st0, SegSteps(ops[..n]), SegSteps(ops[n..]));
    RunSplit(B, st0, SegSteps(ops[..p.at]), SegSteps(ops[p.at..n]));
    SummariesStay(MetaLog(ops[..p.at]), MetaLog(ops[p.at..n]));
    SsaStays(Replay(MetaLog(ops[..p.at])), Replay(MetaLog(ops[..n])), p.world.st.segs);
    MountCut(B, p.world, p.l2p, SegSteps(ops[p.at..n]));
  }

  lemma MountCut(B: nat, w: World, l2p: map<Summary, Loc>, steps: seq<Step>)
    requires Inv(B, w, l2p, None) && NoDirty(w) && Run(B, w.st, steps).Some? && Allocs(steps) <= |w.st.queue|
    ensures var disk := Run(B, w.st, steps).value.disk;
            && Loadable(B, w.st.segs, w.st.cur, disk)
            && Mappable(B, MountedWorld(w.st.segs, w.st.cur, w.table, disk), l2p)
            && SameContents(w, MountedWorld(w.st.segs, w.st.cur, w.table, disk))
            && forall s :: 0 <= s < |w.st.segs| ==> FreshTemp(w.st.segs[s], w.st.cur, s) == w.st.segs[s]
  {
    hide Inv, SegInv, Run, Allocs, Guarded, NoDirty, Loadable, Mappable, MountedWorld, SameContents;
    InvSegs(B, w, l2p);
    FifoProtects(B, w.st, steps);
    var disk := Run(B, w.st, steps).value.disk;
    CutLoadable(B, w.st, disk);
    CleanMappable(B, w, l2p, disk);
    FreshSame(B, w.st);
  }

  lemma SnapshotCells(w: World, s: Snapshot)
    requires s == SnapshotOf(w)
    ensures s.nats == w.table && |s.sits| == |w.st.segs| && forall i :: 0 <= i < |w.st.segs| ==> s.sits[i] == SitOf(w.st.segs[i])
  {
  }

  lemma FirstLog(g: Geo, log: seq<Write>, commits: seq<Commit>)
    requires History(g, log, commits) && |commits| == 1 && commits[0].len == |log|
    ensures log != []
  {
    hide Means, ImageShape;
    assert Holds(g, Replay(log[..|log|]), commits[0].img);
  }

  lemma RunNone(g: Geo, B: nat, st0: State)
    ensures Tracked(g, B, [], st0, [], []) && SegSteps([]) == [] && MetaLog([]) == []
  {
  }

  lemma OneRecord(d: Sizes, ops: seq<Op>, p: Point, cat: Catalog)
    requires p.at <= |ops| && SsaOk(Replay(MetaLog(ops[..p.at])), p.world.st.segs)
    requires FsOk(d, p.world, cat.files, cat.own, cat.lost)
    ensures Recorded(d, ops, [p], [cat])
  {
    assert RecordOk(d, ops, p, cat);
  }
}
