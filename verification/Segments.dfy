/** The segment log as a value: segments with their validity bitmaps and summaries, the
    current segment of every temperature, the FIFO queue of free segments and the blocks of
    the main area.  Every state change of the segment manager is a sequence of the four
    primitive steps below. */
module Segments {
  import opened Basics


  /** Number of block temperatures; as a segment temperature it means "free". */
  const TEMP_NR: nat := 6
  const HOT_DATA: nat := 4
  const HOT_NODE: nat := 5

  datatype Loc = Loc(seg: nat, blk: nat)

  datatype Option<+T> = None | Some(value: T)

  /** Owner of a block: offset -1 is the node itself, otherwise entry `offset` of index node `nid`. */
  datatype Summary = Summary(nid: int, offset: int)

  const NO_OWNER := Summary(-1, -1)

  /** What an inode says of its file: the size and the index nodes, -1 where there is none. */
  datatype InodeBody = InodeBody(size: nat, index: seq<int>)

  /** What is written into a data block. */
  datatype Tag = Tag(fid: int, blk: nat)

  datatype Block =
    | Inode(nid: int, body: InodeBody)
    | Index(nid: int, ptrs: seq<Option<Loc>>)
    | Data(tag: Tag)

  datatype SegmentInfo = SegmentInfo(valid: seq<bool>, validNr: nat, temp: nat, ssa: seq<Summary>)

  /** A current segment; segNo -1 means none. */
  datatype CurSeg = CurSeg(segNo: int, off: nat)

  datatype State = State(
    segs: seq<SegmentInfo>,
    cur: seq<CurSeg>,
    queue: seq<nat>,
    used: nat,
    disk: map<Loc, Block>)

  function OwnerTemp(o: Summary): nat {
    if o.offset < 0 then HOT_NODE else HOT_DATA
  }

  predicate IsNode(b: Block) {
    b.Inode? || b.Index?
  }

  function PopCount(s: seq<bool>): nat {
    if s == [] then 0 else PopCount(s[..|s| - 1]) + (if s[|s| - 1] then 1 else 0)
  }

  function SumValid(segs: seq<SegmentInfo>): nat {
    if segs == [] then 0 else SumValid(segs[..|segs| - 1]) + segs[|segs| - 1].validNr
  }

  /** The current segment of a temperature; an out-of-range temperature has none. */
  function CurOf(st: State, temp: nat): int {
    if temp < |st.cur| then st.cur[temp].segNo else -1
  }

  predicate InArea(st: State, loc: Loc) {
    loc.seg < |st.segs| && loc.blk < |st.segs[loc.seg].valid| && loc.blk < |st.segs[loc.seg].ssa|
  }

  predicate IsValid(st: State, loc: Loc) {
    InArea(st, loc) && st.segs[loc.seg].valid[loc.blk]
  }

  function OwnerAt(st: State, loc: Loc): Summary {
    if InArea(st, loc) then st.segs[loc.seg].ssa[loc.blk] else NO_OWNER
  }

  // ----- Invariant -----

  ghost predicate Shape(B: nat, st: State) {
    && |st.cur| == TEMP_NR
    && forall s :: 0 <= s < |st.segs| ==>
      |st.segs[s].valid| == B && |st.segs[s].ssa| == B && st.segs[s].temp <= TEMP_NR
  }

  ghost predicate Counted(st: State) {
    && (forall s :: 0 <= s < |st.segs| ==> st.segs[s].validNr == PopCount(st.segs[s].valid))
    && st.used == SumValid(st.segs)
  }

  /** A segment is in the free queue exactly when its temperature says so, and at most once. */
  ghost predicate Queued(st: State) {
    && (forall i, j :: 0 <= i < j < |st.queue| ==> st.queue[i] != st.queue[j])
    && (forall s: nat :: s in st.queue <==> s < |st.segs| && st.segs[s].temp == TEMP_NR)
    && (forall s :: 0 <= s < |st.segs| && st.segs[s].temp == TEMP_NR ==> st.segs[s].validNr == 0)
  }

  /** Every segment that is not free holds a valid block or is the current one of its temperature. */
  ghost predicate Partitioned(st: State) {
    forall s :: 0 <= s < |st.segs| && st.segs[s].temp != TEMP_NR ==>
      st.segs[s].validNr > 0 || CurOf(st, st.segs[s].temp) == s
  }

  /** Current segments have their temperature and are clear from the write offset on. */
  ghost predicate Currents(B: nat, st: State) {
    forall t :: 0 <= t < |st.cur| && st.cur[t].segNo != -1 ==>
      && 0 <= st.cur[t].segNo < |st.segs|
      && st.segs[st.cur[t].segNo].temp == t
      && st.cur[t].off <= B
      && forall b :: st.cur[t].off <= b < B ==> !IsValid(st, Loc(st.cur[t].segNo, b))
  }

  /** Segments are temperature-pure and every valid block is on the medium. */
  ghost predicate Pure(st: State) {
    forall loc :: IsValid(st, loc) ==>
      && loc in st.disk
      && st.segs[loc.seg].temp == OwnerTemp(OwnerAt(st, loc))
      && (IsNode(st.disk[loc]) <==> OwnerAt(st, loc).offset < 0)
  }

  ghost predicate SegInv(B: nat, st: State) {
    Shape(B, st) && Counted(st) && Queued(st) && Partitioned(st) && Currents(B, st) && Pure(st)
  }

  // ----- Steps -----

  datatype Step =
    | Alloc(temp: nat)
    | Put(temp: nat, owner: Summary, block: Block)
    | Invalidate(loc: Loc)
    | Close(temp: nat)

  ghost predicate Enabled(B: nat, st: State, step: Step) {
    match step
    case Alloc(t) =>
      && t < |st.cur| && t < TEMP_NR && 0 < |st.queue| && st.queue[0] < |st.segs|
      && (0 <= st.cur[t].segNo < |st.segs| ==> st.segs[st.cur[t].segNo].validNr > 0)
    case Put(t, o, block) =>
      && t < |st.cur| && 0 <= st.cur[t].segNo < |st.segs| && st.cur[t].off < B
      && InArea(st, Loc(st.cur[t].segNo, st.cur[t].off))
      && t == OwnerTemp(o) && (IsNode(block) <==> o.offset < 0)
    case Invalidate(loc) => IsValid(st, loc) && st.segs[loc.seg].validNr > 0 && st.used > 0
    case Close(t) =>
      && t < |st.cur| && 0 <= st.cur[t].segNo < |st.segs| && B <= st.cur[t].off
      && st.segs[st.cur[t].segNo].validNr > 0
  }

  /** Takes the segment at the tail of the queue and makes it current. */
  function DoAlloc(B: nat, st: State, t: nat): State
    requires t < |st.cur| && 0 < |st.queue| && st.queue[0] < |st.segs|
  {
    var s := st.queue[0];
    st.(segs := st.segs[s := SegmentInfo(seq(B, _ => false), 0, t, seq(B, _ => NO_OWNER))],
        cur := st.cur[t := CurSeg(s, 0)],
        queue := st.queue[1..])
  }

  /** Writes a block at the write offset of a current segment. */
  function DoPut(st: State, t: nat, o: Summary, block: Block): State
    requires t < |st.cur| && 0 <= st.cur[t].segNo < |st.segs|
    requires InArea(st, Loc(st.cur[t].segNo, st.cur[t].off))
  {
    var s, b := st.cur[t].segNo, st.cur[t].off;
    var seg := st.segs[s];
    st.(segs := st.segs[s := seg.(valid := seg.valid[b := true], validNr := seg.validNr + 1, ssa := seg.ssa[b := o])],
        cur := st.cur[t := CurSeg(s, b + 1)],
        used := st.used + 1,
        disk := st.disk[Loc(s, b) := block])
  }

  /** Clears a valid block; a segment left empty that is not current joins the queue. */
  function DoInvalidate(st: State, loc: Loc): State
    requires IsValid(st, loc) && st.segs[loc.seg].validNr > 0 && st.used > 0
  {
    var seg := st.segs[loc.seg];
    var seg' := seg.(valid := seg.valid[loc.blk := false], validNr := seg.validNr - 1, ssa := seg.ssa[loc.blk := NO_OWNER]);
    if seg'.validNr == 0 && CurOf(st, seg.temp) != loc.seg then
      st.(segs := st.segs[loc.seg := seg'.(temp := TEMP_NR)], queue := st.queue + [loc.seg], used := st.used - 1)
    else
      st.(segs := st.segs[loc.seg := seg'], used := st.used - 1)
  }

  function DoClose(st: State, t: nat): State
    requires t < |st.cur|
  {
    st.(cur := st.cur[t := st.cur[t].(segNo := -1)])
  }

  ghost function Apply(B: nat, st: State, step: Step): State
    requires Enabled(B, st, step)
  {
    match step
    case Alloc(t) => DoAlloc(B, st, t)
    case Put(t, o, block) => DoPut(st, t, o, block)
    case Invalidate(loc) => DoInvalidate(st, loc)
    case Close(t) => DoClose(st, t)
  }

  // ----- Counting -----

  lemma {:induction false} PopCountUpdate(s: seq<bool>, i: nat, v: bool)
    requires i < |s|
    ensures PopCount(s[i := v]) == PopCount(s) - (if s[i] then 1 else 0) + (if v then 1 else 0)
  {
    var t := s[i := v];
    if i < |s| - 1 {
      assert t[..|t| - 1] == s[..|s| - 1][i := v];
      PopCountUpdate(s[..|s| - 1], i, v);
    } else {
      assert t[..|t| - 1] == s[..|s| - 1];
    }
  }

  lemma {:induction false} PopCountBounds(s: seq<bool>)
    ensures PopCount(s) <= |s|
    ensures PopCount(s) == 0 <==> forall i :: 0 <= i < |s| ==> !s[i]
  {
    if s != [] {
      PopCountBounds(s[..|s| - 1]);
      assert s == s[..|s| - 1] + [s[|s| - 1]];
    }
  }

  lemma {:induction false} PopCountFalse(n: nat)
    ensures PopCount(seq(n, _ => false)) == 0
  {
    PopCountBounds(seq(n, _ => false));
  }

  lemma {:induction false} SumValidUpdate(segs: seq<SegmentInfo>, i: nat, seg: SegmentInfo)
    requires i < |segs|
    ensures SumValid(segs[i := seg]) == SumValid(segs) - segs[i].validNr + seg.validNr
    ensures segs[i].validNr <= SumValid(segs)
  {
    var t := segs[i := seg];
    if i < |segs| - 1 {
      assert t[..|t| - 1] == segs[..|segs| - 1][i := seg];
      SumValidUpdate(segs[..|segs| - 1], i, seg);
    } else {
      assert t[..|t| - 1] == segs[..|segs| - 1];
    }
  }

  lemma {:induction false} SumBound(B: nat, segs: seq<SegmentInfo>)
    requires forall s :: 0 <= s < |segs| ==> segs[s].validNr <= B
    ensures SumValid(segs) <= B * |segs|
  {
    if segs != [] {
      SumBound(B, segs[..|segs| - 1]);
      assert B * |segs| == B * (|segs| - 1) + B;
    }
  }

  lemma {:induction false} UsedBound(B: nat, segs: seq<SegmentInfo>, q: seq<nat>)
    requires forall s :: 0 <= s < |segs| ==> segs[s].validNr <= B
    requires forall i :: 0 <= i < |q| ==> q[i] < |segs| && segs[q[i]].validNr == 0
    requires forall i, j :: 0 <= i < j < |q| ==> q[i] != q[j]
    ensures SumValid(segs) + B * |q| <= B * |segs|
    decreases |q|
  {
    if q == [] {
      SumBound(B, segs);
    } else {
      var s := q[|q| - 1];
      SumValidUpdate(segs, s, segs[s].(validNr := B));
      UsedBound(B, segs[s := segs[s].(validNr := B)], q[..|q| - 1]);
      assert B * |q| == B * (|q| - 1) + B;
    }
  }

  /** Blocks in use and free segments share the main area. */
  lemma FreeBound(B: nat, st: State)
    requires SegInv(B, st)
    ensures B * |st.queue| + st.used <= B * |st.segs|
  {
    forall s | 0 <= s < |st.segs| ensures st.segs[s].validNr <= B {
      PopCountBounds(st.segs[s].valid);
    }
    forall i | 0 <= i < |st.queue| ensures st.queue[i] < |st.segs| && st.segs[st.queue[i]].validNr == 0 {
      assert st.queue[i] in st.queue;
    }
    UsedBound(B, st.segs, st.queue);
  }

  lemma {:induction false} CoverCount(q: seq<nat>, n: nat)
    requires forall s: nat :: s < n ==> s in q
    ensures |q| >= n
  {
    if n > 0 {
      var last: nat := n - 1;
      assert last in q;
      var i :| 0 <= i < |q| && q[i] == last;
      var rest := q[..i] + q[i + 1..];
      forall s: nat | s < last ensures s in rest {
        assert s in q;
        var j :| 0 <= j < |q| && q[j] == s;
        assert rest[if j < i then j else j - 1] == s;
      }
      CoverCount(rest, last);
    }
  }

  /** When every segment is free no block is in use. */
  lemma AllFree(B: nat, st: State)
    requires SegInv(B, st) && 0 < B && forall s: nat :: s < |st.segs| ==> s in st.queue
    ensures |st.queue| == |st.segs| && st.used == 0
  {
    CoverCount(st.queue, |st.segs|);
    FreeBound(B, st);
    hide SegInv;
    NoRoomLeft(B, |st.queue|, |st.segs|, st.used);
  }

  lemma NoRoomLeft(B: nat, q: nat, n: nat, used: nat)
    requires 0 < B && n <= q && B * q + used <= B * n
    ensures q == n && used == 0
  {
    if n < q {
      MulLess(n, q, B);
    }
  }

  // ----- Every step keeps the invariant -----

  lemma AllocKeeps(B: nat, st: State, t: nat)
    requires SegInv(B, st) && Enabled(B, st, Alloc(t))
    ensures SegInv(B, DoAlloc(B, st, t))
  {
    var st' := DoAlloc(B, st, t);
    var s := st.queue[0];
    assert s in st.queue;
    assert st.segs[s].temp == TEMP_NR;
    PopCountFalse(B);
    SumValidUpdate(st.segs, s, st'.segs[s]);
    assert Shape(B, st') && Counted(st');
    AllocQueued(B, st, t);
    AllocRest(B, st, t);
  }

  lemma AllocQueued(B: nat, st: State, t: nat)
    requires Queued(st) && Enabled(B, st, Alloc(t))
    ensures Queued(DoAlloc(B, st, t))
  {
    var st' := DoAlloc(B, st, t);
    var s := st.queue[0];
    forall x: nat ensures x in st'.queue <==> x < |st'.segs| && st'.segs[x].temp == TEMP_NR {
      if x in st'.queue {
        var i :| 1 <= i < |st.queue| && st.queue[i] == x;
        assert x in st.queue;
      }
      if x < |st'.segs| && st'.segs[x].temp == TEMP_NR {
        assert x in st.queue && x != s;
        var i :| 0 <= i < |st.queue| && st.queue[i] == x;
        assert st'.queue[i - 1] == x;
      }
    }
  }

  lemma AllocRest(B: nat, st: State, t: nat)
    requires SegInv(B, st) && Enabled(B, st, Alloc(t))
    ensures Partitioned(DoAlloc(B, st, t)) && Currents(B, DoAlloc(B, st, t)) && Pure(DoAlloc(B, st, t))
  {
    var st' := DoAlloc(B, st, t);
    var s := st.queue[0];
    assert s in st.queue;
    assert st.segs[s].temp == TEMP_NR;
    forall loc | IsValid(st', loc)
      ensures IsValid(st, loc) && loc.seg != s && OwnerAt(st', loc) == OwnerAt(st, loc)
    {
    }
    assert Pure(st');
  }

  lemma PutKeeps(B: nat, st: State, t: nat, o: Summary, block: Block)
    requires SegInv(B, st) && Enabled(B, st, Put(t, o, block))
    ensures SegInv(B, DoPut(st, t, o, block))
  {
    hide Currents, Pure, Queued, Partitioned;
    var st' := DoPut(st, t, o, block);
    var s, b := st.cur[t].segNo, st.cur[t].off;
    PutFresh(B, st, t);
    PopCountUpdate(st.segs[s].valid, b, true);
    SumValidUpdate(st.segs, s, st'.segs[s]);
    PutCurrents(B, st, t, o, block);
    PutPure(B, st, t, o, block);
    PutQueued(B, st, t, o, block);
  }

  lemma PutQueued(B: nat, st: State, t: nat, o: Summary, block: Block)
    requires Queued(st) && Partitioned(st) && Enabled(B, st, Put(t, o, block))
    requires st.segs[st.cur[t].segNo].temp == t
    ensures Queued(DoPut(st, t, o, block)) && Partitioned(DoPut(st, t, o, block))
  {
    var st' := DoPut(st, t, o, block);
    assert t < TEMP_NR;
    assert forall s :: 0 <= s < |st.segs| ==> st'.segs[s].temp == st.segs[s].temp;
  }

  /** The slot at the write offset of a current segment holds no valid block. */
  lemma PutFresh(B: nat, st: State, t: nat)
    requires Currents(B, st) && t < |st.cur| && 0 <= st.cur[t].segNo && st.cur[t].off < B
    ensures !IsValid(st, Loc(st.cur[t].segNo, st.cur[t].off))
    ensures st.cur[t].segNo < |st.segs| && st.segs[st.cur[t].segNo].temp == t
  {
  }

  lemma PutCurrents(B: nat, st: State, t: nat, o: Summary, block: Block)
    requires Currents(B, st) && Enabled(B, st, Put(t, o, block))
    ensures Currents(B, DoPut(st, t, o, block))
  {
    var st' := DoPut(st, t, o, block);
    PutValid(st, t, o, block);
    forall u | 0 <= u < |st'.cur| && st'.cur[u].segNo != -1
      ensures 0 <= st'.cur[u].segNo < |st'.segs| && st'.segs[st'.cur[u].segNo].temp == u && st'.cur[u].off <= B
      ensures forall b :: st'.cur[u].off <= b < B ==> !IsValid(st', Loc(st'.cur[u].segNo, b))
    {
      assert st.cur[u].segNo != -1;
    }
  }

  lemma PutPure(B: nat, st: State, t: nat, o: Summary, block: Block)
    requires Currents(B, st) && Pure(st) && Enabled(B, st, Put(t, o, block))
    ensures Pure(DoPut(st, t, o, block))
  {
    var st' := DoPut(st, t, o, block);
    PutValid(st, t, o, block);
    PutFresh(B, st, t);
    forall l | IsValid(st', l)
      ensures l in st'.disk && st'.segs[l.seg].temp == OwnerTemp(OwnerAt(st', l))
      ensures IsNode(st'.disk[l]) <==> OwnerAt(st', l).offset < 0
    {
    }
  }

  /** The block written becomes valid and owned by `o`; no other block changes. */
  lemma PutValid(st: State, t: nat, o: Summary, block: Block)
    requires t < |st.cur| && 0 <= st.cur[t].segNo < |st.segs|
    requires InArea(st, Loc(st.cur[t].segNo, st.cur[t].off))
    ensures forall loc :: IsValid(DoPut(st, t, o, block), loc) <==>
              IsValid(st, loc) || loc == Loc(st.cur[t].segNo, st.cur[t].off)
    ensures forall loc :: loc != Loc(st.cur[t].segNo, st.cur[t].off) ==>
              OwnerAt(DoPut(st, t, o, block), loc) == OwnerAt(st, loc)
    ensures OwnerAt(DoPut(st, t, o, block), Loc(st.cur[t].segNo, st.cur[t].off)) == o
  {
  }

  lemma InvalidateValid(st: State, loc: Loc)
    requires IsValid(st, loc) && st.segs[loc.seg].validNr > 0 && st.used > 0
    ensures forall l :: IsValid(DoInvalidate(st, loc), l) <==> IsValid(st, l) && l != loc
    ensures forall l :: l != loc ==> OwnerAt(DoInvalidate(st, loc), l) == OwnerAt(st, l)
  {
  }

  lemma InvalidateKeeps(B: nat, st: State, loc: Loc)
    requires SegInv(B, st) && Enabled(B, st, Invalidate(loc))
    ensures SegInv(B, DoInvalidate(st, loc))
  {
    hide Currents, Pure, Queued, Partitioned;
    var st' := DoInvalidate(st, loc);
    PopCountUpdate(st.segs[loc.seg].valid, loc.blk, false);
    SumValidUpdate(st.segs, loc.seg, st'.segs[loc.seg]);
    InvalidateQueued(B, st, loc);
    InvalidatePure(B, st, loc);
    InvalidateCurrents(B, st, loc);
  }

  lemma InvalidateCurrents(B: nat, st: State, loc: Loc)
    requires Currents(B, st) && Partitioned(st) && Enabled(B, st, Invalidate(loc))
    ensures Currents(B, DoInvalidate(st, loc)) && Partitioned(DoInvalidate(st, loc))
  {
    var st' := DoInvalidate(st, loc);
    InvalidateValid(st, loc);
    forall t | 0 <= t < |st'.cur| && st'.cur[t].segNo != -1
      ensures 0 <= st'.cur[t].segNo < |st'.segs| && st'.segs[st'.cur[t].segNo].temp == t && st'.cur[t].off <= B
      ensures forall b :: st'.cur[t].off <= b < B ==> !IsValid(st', Loc(st'.cur[t].segNo, b))
    {
      assert st.cur[t].segNo != -1;
    }
  }

  lemma InvalidatePure(B: nat, st: State, loc: Loc)
    requires SegInv(B, st) && Enabled(B, st, Invalidate(loc))
    ensures Pure(DoInvalidate(st, loc))
  {
    var st' := DoInvalidate(st, loc);
    InvalidateValid(st, loc);
    PopCountUpdate(st.segs[loc.seg].valid, loc.blk, false);
    PopCountBounds(st'.segs[loc.seg].valid);
    forall l | IsValid(st', l)
      ensures l in st'.disk && st'.segs[l.seg].temp == OwnerTemp(OwnerAt(st', l))
      ensures IsNode(st'.disk[l]) <==> OwnerAt(st', l).offset < 0
    {
      assert IsValid(st, l);
    }
  }

  lemma InvalidateQueued(B: nat, st: State, loc: Loc)
    requires Queued(st) && Enabled(B, st, Invalidate(loc))
    ensures Queued(DoInvalidate(st, loc))
  {
    var st' := DoInvalidate(st, loc);
    assert st.segs[loc.seg].temp != TEMP_NR;
    assert loc.seg !in st.queue;
    forall x: nat ensures x in st'.queue <==> x < |st'.segs| && st'.segs[x].temp == TEMP_NR {
      assert x in st.queue <==> x < |st.segs| && st.segs[x].temp == TEMP_NR;
    }
  }

  lemma CloseKeeps(B: nat, st: State, t: nat)
    requires SegInv(B, st) && Enabled(B, st, Close(t))
    ensures SegInv(B, DoClose(st, t))
  {
    var st' := DoClose(st, t);
    assert forall loc :: IsValid(st', loc) == IsValid(st, loc) && OwnerAt(st', loc) == OwnerAt(st, loc);
  }

  lemma StepKeeps(B: nat, st: State, step: Step)
    requires SegInv(B, st) && Enabled(B, st, step)
    ensures SegInv(B, Apply(B, st, step))
  {
    match step
    case Alloc(t) => AllocKeeps(B, st, t);
    case Put(t, o, block) => PutKeeps(B, st, t, o, block);
    case Invalidate(loc) => InvalidateKeeps(B, st, loc);
    case Close(t) => CloseKeeps(B, st, t);
  }
}
