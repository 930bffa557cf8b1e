/** Runs of the segment log: the invariant over every run, the protection that the FIFO free
    queue gives a checkpoint, and the rewriting of one owned block. */
module SegmentRuns {
  import opened Segments

  /** The state after a run, or None when some step of it is not enabled. */
  ghost function Run(B: nat, st: State, steps: seq<Step>): Option<State>
    decreases |steps|
  {
    if steps == [] then Some(st)
    else
      var mid := Run(B, st, steps[..|steps| - 1]);
      if mid.Some? && Enabled(B, mid.value, steps[|steps| - 1])
      then Some(Apply(B, mid.value, steps[|steps| - 1]))
      else None
  }

  lemma {:induction false} RunKeeps(B: nat, st: State, steps: seq<Step>)
    requires SegInv(B, st) && Run(B, st, steps).Some?
    ensures SegInv(B, Run(B, st, steps).value)
    decreases |steps|
  {
    if steps != [] {
      var init := steps[..|steps| - 1];
      RunKeeps(B, st, init);
      StepKeeps(B, Run(B, st, init).value, steps[|steps| - 1]);
    }
  }

  lemma RunStep(B: nat, st: State, steps: seq<Step>, mid: State, step: Step)
    requires Run(B, st, steps) == Some(mid) && Enabled(B, mid, step)
    ensures Run(B, st, steps + [step]) == Some(Apply(B, mid, step))
  {
    assert (steps + [step])[..|steps|] == steps;
  }

  function Allocs(steps: seq<Step>): nat {
    if steps == [] then 0
    else Allocs(steps[..|steps| - 1]) + (if steps[|steps| - 1].Alloc? then 1 else 0)
  }

  /** How a state reached from `st0` by `a` allocations relates to `st0`: the queue still starts
      with what is left of the old queue, a current segment was either free in `st0` or was
      already current there, and the blocks valid in `st0` still hold what they held. */
  ghost predicate Guarded(st0: State, st: State, a: nat) {
    && a <= |st0.queue|
    && |st.segs| == |st0.segs| && |st.cur| == |st0.cur|
    && st0.queue[a..] <= st.queue
    && (forall t :: 0 <= t < |st.cur| && st.cur[t].segNo != -1 ==>
      || st.cur[t].segNo in st0.queue[..a]
      || (st.cur[t].segNo == st0.cur[t].segNo && st0.cur[t].off <= st.cur[t].off))
    && forall loc :: IsValid(st0, loc) ==> loc in st0.disk && loc in st.disk && st.disk[loc] == st0.disk[loc]
  }

  lemma GuardedAlloc(B: nat, st0: State, st: State, a: nat, t: nat)
    requires Guarded(st0, st, a) && a < |st0.queue|
    requires Enabled(B, st, Alloc(t))
    ensures Guarded(st0, DoAlloc(B, st, t), a + 1)
  {
    var st' := DoAlloc(B, st, t);
    assert st.queue[0] == st0.queue[a];
    assert st0.queue[..a + 1] == st0.queue[..a] + [st0.queue[a]];
    assert st0.queue[a..][1..] == st0.queue[a + 1..];
  }

  /** A put never lands on a block that was valid in `st0`. */
  lemma GuardedPut(B: nat, st0: State, st: State, a: nat, t: nat, o: Summary, block: Block)
    requires SegInv(B, st0) && Guarded(st0, st, a)
    requires Enabled(B, st, Put(t, o, block))
    ensures !IsValid(st0, Loc(st.cur[t].segNo, st.cur[t].off))
    ensures Guarded(st0, DoPut(st, t, o, block), a)
  {
    var s, b := st.cur[t].segNo, st.cur[t].off;
    if s in st0.queue[..a] {
      assert s in st0.queue;
      PopCountBounds(st0.segs[s].valid);
    } else {
      assert st0.cur[t].segNo == s && st0.cur[t].off <= b;
    }
  }

  lemma GuardedStep(B: nat, st0: State, st: State, a: nat, step: Step)
    requires SegInv(B, st0) && Guarded(st0, st, a) && Enabled(B, st, step)
    requires step.Alloc? ==> a < |st0.queue|
    ensures Guarded(st0, Apply(B, st, step), if step.Alloc? then a + 1 else a)
  {
    match step
    case Alloc(t) => GuardedAlloc(B, st0, st, a, t);
    case Put(t, o, block) => GuardedPut(B, st0, st, a, t, o, block);
    case Invalidate(loc) =>
    case Close(t) =>
  }

  /** FIFO protection: along any run that allocates at most as many segments as were free in
      `st0`, every block valid in `st0` keeps its content, whatever is invalidated, freed or
      moved meanwhile. */
  lemma {:induction false} FifoProtects(B: nat, st0: State, steps: seq<Step>)
    requires SegInv(B, st0) && Run(B, st0, steps).Some?
    requires Allocs(steps) <= |st0.queue|
    ensures Guarded(st0, Run(B, st0, steps).value, Allocs(steps))
    ensures forall loc :: IsValid(st0, loc) ==>
              loc in st0.disk && loc in Run(B, st0, steps).value.disk
              && Run(B, st0, steps).value.disk[loc] == st0.disk[loc]
    decreases |steps|
  {
    if steps == [] {
      assert st0.queue[0..] == st0.queue;
    } else {
      var init := steps[..|steps| - 1];
      FifoProtects(B, st0, init);
      GuardedStep(B, st0, Run(B, st0, init).value, Allocs(init), steps[|steps| - 1]);
    }
  }

  // ----- Rewriting the block of one owner -----

  /** The reverse map kept in the segments is the inverse of the forward map. */
  ghost predicate Linked(st: State, l2p: map<Summary, Loc>) {
    && (forall loc :: IsValid(st, loc) ==> OwnerAt(st, loc) in l2p && l2p[OwnerAt(st, loc)] == loc)
    && (forall o :: o in l2p ==> IsValid(st, l2p[o]) && OwnerAt(st, l2p[o]) == o)
  }

  function OldLoc(l2p: map<Summary, Loc>, o: Summary): Option<Loc> {
    if o in l2p then Some(l2p[o]) else None
  }

  ghost predicate Writable(B: nat, st: State, l2p: map<Summary, Loc>, t: nat, o: Summary, block: Block) {
    && SegInv(B, st) && Linked(st, l2p)
    && t < TEMP_NR && 0 <= st.cur[t].segNo && st.cur[t].off < B
    && t == OwnerTemp(o) && (IsNode(block) <==> o.offset < 0)
  }

  ghost function Target(st: State, t: nat): Loc
    requires t < |st.cur| && 0 <= st.cur[t].segNo
  {
    Loc(st.cur[t].segNo, st.cur[t].off)
  }

  /** What one block write does: `o` now lives at the old write offset with the new content, its
      old place is gone, nobody else's block moved or changed. */
  ghost predicate Written(B: nat, st: State, l2p: map<Summary, Loc>, t: nat, o: Summary, block: Block, st': State)
    requires Writable(B, st, l2p, t, o, block)
  {
    var L := Target(st, t);
    && SegInv(B, st')
    && Linked(st', l2p[o := L])
    && st'.disk == st.disk[L := block]
    && (forall p :: p in l2p ==> l2p[p] != L)
    && (forall loc :: IsValid(st', loc) <==> (IsValid(st, loc) && OldLoc(l2p, o) != Some(loc)) || loc == L)
    && st'.used + (if o in l2p then 1 else 0) == st.used + 1
    && st'.cur == st.cur[t := CurSeg(if L.blk + 1 >= B then -1 else L.seg, L.blk + 1)]
    && SegsWritten(st, l2p, t, o, st')
  }

  /** What one block write does to the segments and to the free queue. */
  ghost predicate SegsWritten(st: State, l2p: map<Summary, Loc>, t: nat, o: Summary, st': State)
    requires t < |st.cur| && 0 <= st.cur[t].segNo
    requires o in l2p ==> l2p[o].seg < |st.segs|
  {
    var L := Target(st, t);
    && L.seg < |st.segs| == |st'.segs|
    && st'.segs[L.seg].temp == st.segs[L.seg].temp == t
    && st'.segs[L.seg].validNr > 0
    && (forall s :: 0 <= s < |st.segs| && s != L.seg && (o in l2p ==> s != l2p[o].seg) ==> st'.segs[s] == st.segs[s])
    && (o in l2p && l2p[o].seg != L.seg ==>
      && st'.segs[l2p[o].seg].validNr + 1 == st.segs[l2p[o].seg].validNr
      && (Frees(st, l2p[o]) || st'.segs[l2p[o].seg].temp == st.segs[l2p[o].seg].temp))
    && st'.queue == st.queue + (if o in l2p && l2p[o].seg != L.seg && Frees(st, l2p[o]) then [l2p[o].seg] else [])
  }

  /** Invalidating `loc` empties its segment, which is not a current one. */
  predicate Frees(st: State, loc: Loc)
    requires loc.seg < |st.segs|
  {
    st.segs[loc.seg].validNr == 1 && CurOf(st, st.segs[loc.seg].temp) != loc.seg
  }

  function WriteTail(B: nat, st: State, t: nat): State
    requires t < |st.cur|
  {
    if st.cur[t].off >= B then DoClose(st, t) else st
  }

  lemma PutLinked(B: nat, st: State, l2p: map<Summary, Loc>, t: nat, o: Summary, block: Block)
    requires Writable(B, st, l2p, t, o, block)
    ensures Enabled(B, st, Put(t, o, block))
    ensures var st1 := DoPut(st, t, o, block);
            && SegInv(B, st1)
            && (o in l2p ==> Enabled(B, st1, Invalidate(l2p[o])) && l2p[o] != Target(st, t))
            && (forall p :: p in l2p ==> l2p[p] != Target(st, t))
            && (forall p :: p in l2p ==> IsValid(st1, l2p[p]) && OwnerAt(st1, l2p[p]) == p)
            && (forall loc :: IsValid(st1, loc) <==> IsValid(st, loc) || loc == Target(st, t))
            && st1.segs[Target(st, t).seg].validNr > 0
  {
    var st1 := DoPut(st, t, o, block);
    assert InArea(st, Target(st, t));
    PutKeeps(B, st, t, o, block);
    PutValid(st, t, o, block);
    PutFresh(B, st, t);
    if o in l2p {
      assert IsValid(st1, l2p[o]);
      ValidCounts(B, st1, l2p[o]);
    }
    assert st.segs[Target(st, t).seg].validNr >= 0;
  }

  /** A valid block is counted. */
  lemma ValidCounts(B: nat, st: State, loc: Loc)
    requires Counted(st) && IsValid(st, loc)
    ensures st.segs[loc.seg].validNr > 0 && st.used > 0
  {
    PopCountBounds(st.segs[loc.seg].valid);
    SumValidUpdate(st.segs, loc.seg, st.segs[loc.seg]);
  }

  /** The state between the put and the closing of the segment. */
  ghost function AfterInvalidate(B: nat, st: State, l2p: map<Summary, Loc>, t: nat, o: Summary, block: Block): State
    requires Writable(B, st, l2p, t, o, block)
  {
    PutLinked(B, st, l2p, t, o, block);
    var st1 := DoPut(st, t, o, block);
    if o in l2p then DoInvalidate(st1, l2p[o]) else st1
  }

  lemma AfterInvalidateInv(B: nat, st: State, l2p: map<Summary, Loc>, t: nat, o: Summary, block: Block)
    requires Writable(B, st, l2p, t, o, block)
    ensures SegInv(B, AfterInvalidate(B, st, l2p, t, o, block))
    ensures Linked(AfterInvalidate(B, st, l2p, t, o, block), l2p[o := Target(st, t)])
    ensures forall loc :: IsValid(AfterInvalidate(B, st, l2p, t, o, block), loc) <==>
              (IsValid(st, loc) && OldLoc(l2p, o) != Some(loc)) || loc == Target(st, t)
  {
    hide SegInv;
    PutLinked(B, st, l2p, t, o, block);
    var st1 := DoPut(st, t, o, block);
    var st2 := AfterInvalidate(B, st, l2p, t, o, block);
    PutValidOf(B, st, l2p, t, o, block);
    if o in l2p {
      InvalidateKeeps(B, st1, l2p[o]);
      InvalidateValid(st1, l2p[o]);
    }
    var l2p' := l2p[o := Target(st, t)];
    forall loc | IsValid(st2, loc) ensures OwnerAt(st2, loc) in l2p' && l2p'[OwnerAt(st2, loc)] == loc {
      if loc != Target(st, t) {
        assert IsValid(st, loc) && OwnerAt(st2, loc) == OwnerAt(st, loc);
      }
    }
    forall p | p in l2p' ensures IsValid(st2, l2p'[p]) && OwnerAt(st2, l2p'[p]) == p {
    }
  }

  lemma PutValidOf(B: nat, st: State, l2p: map<Summary, Loc>, t: nat, o: Summary, block: Block)
    requires Writable(B, st, l2p, t, o, block)
    ensures t < |st.cur| && 0 <= st.cur[t].segNo < |st.segs| && InArea(st, Target(st, t))
    ensures Linked(st, l2p)
    ensures forall loc :: loc != Target(st, t) ==> OwnerAt(DoPut(st, t, o, block), loc) == OwnerAt(st, loc)
    ensures OwnerAt(DoPut(st, t, o, block), Target(st, t)) == o
  {
    assert InArea(st, Target(st, t));
    PutValid(st, t, o, block);
  }

  lemma WriteSegs(B: nat, st: State, l2p: map<Summary, Loc>, t: nat, o: Summary, block: Block)
    requires Writable(B, st, l2p, t, o, block)
    ensures o in l2p ==> l2p[o].seg < |st.segs|
    ensures SegsWritten(st, l2p, t, o, WriteTail(B, AfterInvalidate(B, st, l2p, t, o, block), t))
  {
    PutLinked(B, st, l2p, t, o, block);
    if o in l2p {
      ValidCounts(B, st, l2p[o]);
    }
    WriteSegsAux(B, st, l2p, t, o, block);
  }

  lemma WriteSegsAux(B: nat, st: State, l2p: map<Summary, Loc>, t: nat, o: Summary, block: Block)
    requires Writable(B, st, l2p, t, o, block)
    requires InArea(st, Target(st, t)) && st.segs[Target(st, t).seg].temp == t
    requires o in l2p ==> IsValid(st, l2p[o]) && l2p[o] != Target(st, t) && st.segs[l2p[o].seg].validNr > 0
    ensures SegsWritten(st, l2p, t, o, WriteTail(B, AfterInvalidate(B, st, l2p, t, o, block), t))
  {
    hide SegInv, Linked, Enabled;
    PutLinked(B, st, l2p, t, o, block);
    var st1 := DoPut(st, t, o, block);
    assert st1.segs[Target(st, t).seg].temp == t;
    assert forall u :: CurOf(st1, u) == CurOf(st, u);
  }

  lemma WriteDoes(B: nat, st: State, l2p: map<Summary, Loc>, t: nat, o: Summary, block: Block)
    requires Writable(B, st, l2p, t, o, block)
    ensures Written(B, st, l2p, t, o, block, WriteTail(B, AfterInvalidate(B, st, l2p, t, o, block), t))
  {
    hide Linked, SegsWritten, IsValid, Enabled, Counted, Queued, Partitioned, Currents, Pure;
    var st2 := AfterInvalidate(B, st, l2p, t, o, block);
    var st' := WriteTail(B, st2, t);
    PutLinked(B, st, l2p, t, o, block);
    AfterInvalidateInv(B, st, l2p, t, o, block);
    WriteSegs(B, st, l2p, t, o, block);
    WriteClose(B, st, l2p, t, o, block);
    LinkedClose(B, st2, t, l2p[o := Target(st, t)]);
  }

  lemma WriteClose(B: nat, st: State, l2p: map<Summary, Loc>, t: nat, o: Summary, block: Block)
    requires Writable(B, st, l2p, t, o, block)
    ensures SegInv(B, WriteTail(B, AfterInvalidate(B, st, l2p, t, o, block), t))
    ensures var st2 := AfterInvalidate(B, st, l2p, t, o, block); st2.cur[t].off >= B ==> Enabled(B, st2, Close(t))
  {
    var st2 := AfterInvalidate(B, st, l2p, t, o, block);
    AfterInvalidateInv(B, st, l2p, t, o, block);
    if st2.cur[t].off >= B {
      ValidCounts(B, st2, Target(st, t));
      CloseKeeps(B, st2, t);
    }
  }

  lemma LinkedClose(B: nat, st: State, t: nat, l2p: map<Summary, Loc>)
    requires t < |st.cur|
    ensures Linked(WriteTail(B, st, t), l2p) <==> Linked(st, l2p)
    ensures forall loc :: IsValid(WriteTail(B, st, t), loc) <==> IsValid(st, loc)
  {
    var st' := WriteTail(B, st, t);
    assert forall loc :: IsValid(st', loc) == IsValid(st, loc) && OwnerAt(st', loc) == OwnerAt(st, loc);
  }
}
