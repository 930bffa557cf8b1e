/** The whole checkpointed image survives a power loss: the checkpoint protocol brings back the
    tables, and the FIFO order of the free queue brings back the blocks that they point to. */
module Recovery {
  import opened Segments
  import opened SegmentRuns
  import opened Mapping
  import opened Medium
  import opened Checkpoint
  import opened FileMap

  /** One event of a run: a metadata block write, or a step of the segment log. */
  datatype Op = Meta(write: Write) | Seg(step: Step)

  function MetaLog(ops: seq<Op>): seq<Write> {
    if ops == [] then []
    else
      var op := ops[|ops| - 1];
      MetaLog(ops[..|ops| - 1]) + if op.Meta? then [op.write] else []
  }

  function SegSteps(ops: seq<Op>): seq<Step> {
    if ops == [] then []
    else
      var op := ops[|ops| - 1];
      SegSteps(ops[..|ops| - 1]) + if op.Seg? then [op.step] else []
  }

  /** Memory right after a mount: the given node table, nothing cached. */
  function Remounted(table: seq<NatEntry>, st: State): World {
    World(st, table, seq(|table|, _ => -1), map[])
  }

  function SitOf(s: SegmentInfo): SitEntry {
    SitEntry(s.valid, s.validNr, s.temp)
  }

  /** What a checkpoint of `w` records. */
  function SnapshotOf(w: World): Snapshot {
    Snapshot(w.table, seq(|w.st.segs|, s requires 0 <= s < |w.st.segs| => SitOf(w.st.segs[s])), w.st.cur)
  }

  /** The blocks a world without dirty nodes reads are valid, so they are protected: whatever a run does
      within its allocation budget, the old node table still reads the old contents. */
  lemma OldTableReads(B: nat, w: World, l2p: map<Summary, Loc>, steps: seq<Step>)
    requires Inv(B, w, l2p, None) && NoDirty(w)
    requires Run(B, w.st, steps).Some? && Allocs(steps) <= |w.st.queue|
    ensures SameContents(w, Remounted(w.table, Run(B, w.st, steps).value))
  {
    hide Inv, SegInv, Run, Allocs, Guarded, NoDirty;
    InvSegs(B, w, l2p);
    FifoProtects(B, w.st, steps);
    var st := Run(B, w.st, steps).value;
    CleanMappable(B, w, l2p, st.disk);
    SameMount(w, st);
  }

  lemma InvSegs(B: nat, w: World, l2p: map<Summary, Loc>)
    requires Inv(B, w, l2p, None)
    ensures SegInv(B, w.st)
  {
  }

  /** What a mount reads depends on the node table and the medium. */
  lemma SameMount(w: World, st: State)
    ensures SameContents(MountedWorld(w.st.segs, w.st.cur, w.table, st.disk), Remounted(w.table, st))
  {
    var m, m' := MountedWorld(w.st.segs, w.st.cur, w.table, st.disk), Remounted(w.table, st);
    assert forall n: int :: NodeBlock(m', n) == NodeBlock(m, n);
    assert forall o :: Fwd(m', o) == Fwd(m, o);
  }

  // ----- Splitting a run -----

  lemma {:induction false} MetaSplit(a: seq<Op>, b: seq<Op>)
    ensures MetaLog(a + b) == MetaLog(a) + MetaLog(b)
    decreases |b|
  {
    if b == [] {
      assert a + b == a;
    } else {
      var init := b[..|b| - 1];
      MetaSplit(a, init);
      assert (a + b)[..|a + b| - 1] == a + init;
    }
  }

  lemma {:induction false} StepSplit(a: seq<Op>, b: seq<Op>)
    ensures SegSteps(a + b) == SegSteps(a) + SegSteps(b)
    decreases |b|
  {
    if b == [] {
      assert a + b == a;
    } else {
      var init := b[..|b| - 1];
      StepSplit(a, init);
      assert (a + b)[..|a + b| - 1] == a + init;
    }
  }

  lemma {:induction false} RunSplit(B: nat, st: State, a: seq<Step>, b: seq<Step>)
    requires Run(B, st, a + b).Some?
    ensures Run(B, st, a).Some?
    ensures Run(B, Run(B, st, a).value, b) == Run(B, st, a + b)
    decreases |b|
  {
    if b == [] {
      assert a + b == a;
    } else {
      var init := b[..|b| - 1];
      assert (a + b)[..|a + b| - 1] == a + init;
      RunSplit(B, st, a, init);
    }
  }

  // ----- The recovery theorem -----

  /** A completed checkpoint in a run: the state it was taken of, and where in the run. */
  datatype Point = Point(at: nat, world: World, l2p: map<Summary, Loc>)

  ghost predicate PointOk(B: nat, ops: seq<Op>, st0: State, c: Commit, p: Point) {
    && 0 < p.at <= |ops| && ops[p.at - 1].Meta? && |MetaLog(ops[..p.at])| == c.len
    && Run(B, st0, SegSteps(ops[..p.at])) == Some(p.world.st)
    && Inv(B, p.world, p.l2p, None) && NoDirty(p.world) && c.snap == SnapshotOf(p.world)
  }

  /** A run of the file system from `st0`, with its completed checkpoints. */
  ghost predicate Tracked(g: Geo, B: nat, ops: seq<Op>, st0: State, commits: seq<Commit>, points: seq<Point>) {
    && History(g, MetaLog(ops), commits)
    && Run(B, st0, SegSteps(ops)).Some?
    && |points| == |commits|
    && forall i :: 0 <= i < |points| ==> PointOk(B, ops, st0, commits[i], points[i])
  }

  /** Events up to `n` contain the metadata writes up to commit `c` exactly when `n` is past it. */
  lemma PointOrder(B: nat, ops: seq<Op>, st0: State, c: Commit, p: Point, n: nat)
    requires PointOk(B, ops, st0, c, p) && n <= |ops|
    ensures |MetaLog(ops[..n])| <= |MetaLog(ops)| && MetaLog(ops)[..|MetaLog(ops[..n])|] == MetaLog(ops[..n])
    ensures c.len <= |MetaLog(ops[..n])| <==> p.at <= n
  {
    hide Run, Inv, NoDirty, SegSteps;
    assert ops[..n] + ops[n..] == ops;
    MetaSplit(ops[..n], ops[n..]);
    if p.at <= n {
      assert ops[..p.at] + ops[p.at..n] == ops[..n];
      MetaSplit(ops[..p.at], ops[p.at..n]);
    } else {
      assert ops[..n] + ops[n..p.at - 1] == ops[..p.at - 1];
      MetaSplit(ops[..n], ops[n..p.at - 1]);
      assert ops[..p.at][..p.at - 1] == ops[..p.at - 1];
    }
  }

  /** Cut a run after any event past its first checkpoint.  A mount succeeds, it brings back the
      node table, the segment table and the current segments of the newest checkpoint completed
      by then, and, as long as no more segments were allocated since than were free at that
      checkpoint, every node and every data block reads what it read at that checkpoint. */
  lemma WholeImage(g: Geo, B: nat, ops: seq<Op>, st0: State, commits: seq<Commit>, points: seq<Point>, n: nat)
    returns (i: nat)
    requires Tracked(g, B, ops, st0, commits, points) && points != [] && points[0].at <= n <= |ops|
    ensures i < |points| && points[i].at <= n
    ensures forall j :: i < j < |points| ==> n < points[j].at
    ensures Run(B, st0, SegSteps(ops[..n])).Some?
    ensures var d := Replay(MetaLog(ops[..n]));
            && Choose(Version(d, 0), Version(d, 1)) == Some(commits[i].img.pack)
            && Holds(g, d, commits[i].img) && ImageShape(g, commits[i].img)
            && Means(g, commits[i].img, SnapshotOf(points[i].world))
    ensures Allocs(SegSteps(ops[points[i].at..n])) <= |points[i].world.st.queue| ==>
              SameContents(points[i].world, Remounted(points[i].world.table, Run(B, st0, SegSteps(ops[..n])).value))
  {
    hide Run, Inv, NoDirty, SegSteps, MetaLog, Holds, Means, ImageShape, Replay, Version, Choose, History, SnapshotOf, SameContents, Remounted;
    forall j | 0 <= j < |points|
      ensures |MetaLog(ops[..n])| <= |MetaLog(ops)| && MetaLog(ops)[..|MetaLog(ops[..n])|] == MetaLog(ops[..n])
      ensures commits[j].len <= |MetaLog(ops[..n])| <==> points[j].at <= n
    {
      assert PointOk(B, ops, st0, commits[j], points[j]);
      PointOrder(B, ops, st0, commits[j], points[j], n);
    }
    i := CrashAtomic(g, MetaLog(ops), commits, |MetaLog(ops[..n])|);
    var p := points[i];
    assert PointOk(B, ops, st0, commits[i], p);
    assert ops[..n] + ops[n..] == ops && ops[..p.at] + ops[p.at..n] == ops[..n];
    StepSplit(ops[..n], ops[n..]);
    StepSplit(ops[..p.at], ops[p.at..n]);
    RunSplit(B, st0, SegSteps(ops[..n]), SegSteps(ops[n..]));
    RunSplit(B, st0, SegSteps(ops[..p.at]), SegSteps(ops[p.at..n]));
    if Allocs(SegSteps(ops[p.at..n])) <= |p.world.st.queue| {
      OldTableReads(B, p.world, p.l2p, SegSteps(ops[p.at..n]));
    }
  }

  /** The files of the newest checkpoint survive with it: after a cut within its allocation budget a
      mount shows the same sizes and the same blocks, so files that had their tags have them. */
  lemma FilesSurvive(g: Geo, B: nat, ops: seq<Op>, st0: State, commits: seq<Commit>, points: seq<Point>, n: nat, d: Sizes)
    returns (i: nat)
    requires Tracked(g, B, ops, st0, commits, points) && points != [] && points[0].at <= n <= |ops| && d.Ok()
    ensures i < |points| && points[i].at <= n && forall j :: i < j < |points| ==> n < points[j].at
    ensures Run(B, st0, SegSteps(ops[..n])).Some?
    ensures Allocs(SegSteps(ops[points[i].at..n])) <= |points[i].world.st.queue| ==>
              var w, w' := points[i].world, Remounted(points[i].world.table, Run(B, st0, SegSteps(ops[..n])).value);
              && (forall f: int, k: nat :: FileBlock(d, w', f, k) == FileBlock(d, w, f, k))
              && (forall f :: SizeOf(w', f) == SizeOf(w, f))
              && (forall f :: Tagged(d, w, f) ==> Tagged(d, w', f))
  {
    hide Tracked, SameContents, Remounted, FileBlock, BodyOf, SizeOf, IndexOf, Holds, Means, ImageShape, Run, Choose, Version, Replay;
    i := WholeImage(g, B, ops, st0, commits, points, n);
    if Allocs(SegSteps(ops[points[i].at..n])) <= |points[i].world.st.queue| {
      var w, w' := points[i].world, Remounted(points[i].world.table, Run(B, st0, SegSteps(ops[..n])).value);
      BlocksStay(d, w, w');
      SizesSame(w, w');
    }
  }

  lemma SizesSame(w: World, w': World)
    requires forall f :: BodyOf(w', f) == BodyOf(w, f)
    ensures forall f :: SizeOf(w', f) == SizeOf(w, f)
  {
    hide BodyOf;
  }
}
