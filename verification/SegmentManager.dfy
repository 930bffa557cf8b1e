/** The segment manager with its collector, over in-memory tables that are updated in place. */
module SegmentManager {
  import opened Basics
  import opened Segments
  import opened SegmentRuns
  import opened Mapping
  import opened NodeOps
  import opened GcPool
  import opened Reclaim

  datatype ErrorCode = ERR_USER | ERR_NO_SPACE

  /** A block write ends at a place, finds no segment it may use, or throws. */
  datatype Outcome = Done(loc: Loc) | NoSegment | Thrown(code: ErrorCode)

  /** The free queue as a ring threaded through `next`: tail is the first out, head the last in. */
  ghost predicate RingOk(q: seq<nat>, next: seq<int>, head: int, tail: int, nr: nat) {
    && nr == |q|
    && (q == [] ==> head == -1 && tail == -1)
    && (forall i :: 0 <= i < |q| ==> q[i] < |next|)
    && (forall i :: 0 <= i < |q| - 1 ==> next[q[i]] == q[i + 1])
    && (q != [] ==> tail == q[0] && head == q[|q| - 1] && next[q[|q| - 1]] == q[0])
  }

  lemma RingLen(q: seq<nat>, next: seq<int>, head: int, tail: int, nr: nat)
    requires RingOk(q, next, head, tail, nr)
    ensures nr == |q|
  {
  }

  /** A queued segment has a proper link. */
  lemma RingLinked(q: seq<nat>, next: seq<int>, head: int, tail: int, nr: nat, s: nat)
    requires RingOk(q, next, head, tail, nr) && s in q
    ensures s < |next| && next[s] >= 0
  {
    var i :| 0 <= i < |q| && q[i] == s;
    if i < |q| - 1 {
      assert next[q[i]] == q[i + 1];
    }
  }

  function Weights(segs: seq<SegmentInfo>): seq<nat> {
    seq(|segs|, s requires 0 <= s < |segs| => segs[s].validNr)
  }

  /** The segments below `n` that the collector offers to its pool. */
  ghost function Offered(st: State, n: nat): seq<nat> {
    if n == 0 then []
    else if n <= |st.segs| && CurOf(st, st.segs[n - 1].temp) != n - 1 then Offered(st, n - 1) + [n - 1]
    else Offered(st, n - 1)
  }

  lemma {:induction false} OfferedFacts(B: nat, st: State, n: nat)
    requires SegInv(B, st) && n <= |st.segs|
    ensures |Offered(st, n)| <= n
    ensures forall i :: 0 <= i < |Offered(st, n)| ==> Offered(st, n)[i] < n && NotCurrent(st, Offered(st, n)[i])
    ensures forall i, j :: 0 <= i < j < |Offered(st, n)| ==> Offered(st, n)[i] != Offered(st, n)[j]
    ensures forall s: nat :: s < n && CurOf(st, st.segs[s].temp) != s ==> s in Offered(st, n)
  {
    hide SegInv, NotCurrent;
    if n > 0 {
      OfferedFacts(B, st, n - 1);
      if CurOf(st, st.segs[n - 1].temp) != n - 1 {
        NotCurrentByTemp(B, st, n - 1);
      }
    }
  }

  lemma NotCurrentByTemp(B: nat, st: State, s: nat)
    requires SegInv(B, st) && s < |st.segs| && CurOf(st, st.segs[s].temp) != s
    ensures NotCurrent(st, s)
  {
  }

  /** While a segment is free there is something to offer. */
  lemma FreeOffered(B: nat, st: State, n: nat)
    requires SegInv(B, st) && n == |st.segs| && st.queue != []
    ensures Offered(st, n) != []
  {
    OfferedFacts(B, st, n);
    assert st.queue[0] in st.queue;
  }

  lemma EmptyIsFree(B: nat, st: State, s: nat)
    requires SegInv(B, st) && s < |st.segs| && st.segs[s].validNr == 0
    ensures s in st.queue || CurOf(st, st.segs[s].temp) == s
  {
  }

  lemma InvLog(B: nat, w: World, l2p: map<Summary, Loc>, x: Option<Summary>)
    requires Inv(B, w, l2p, x)
    ensures SegInv(B, w.st) && Roomy(B, w.st) && Linked(w.st, l2p)
  {
  }

  lemma EmptyPool(key: seq<nat>)
    ensures Perm([] + [], [])
  {
  }

  lemma PermPush(t: seq<nat>, s: seq<nat>, offered: seq<nat>, x: nat)
    requires Perm(t, s + [x]) && Perm(s, offered)
    ensures Perm(t, offered + [x])
  {
  }

  lemma OrderFacts(B: nat, st: State, heap: seq<nat>, order: seq<nat>, dropped: seq<nat>)
    requires SegInv(B, st) && Perm(order, heap) && Perm(heap + dropped, Offered(st, |st.segs|))
    requires Ascending(order, Weights(st.segs)) && Below(heap, dropped, Weights(st.segs)) && InRange(order, Weights(st.segs))
    ensures FewestFirst(st, order)
    ensures forall j :: 0 <= j < |order| ==> NotCurrent(st, order[j])
    ensures Perm(order + dropped, Offered(st, |st.segs|))
    ensures Below(order, dropped, Weights(st.segs))
    ensures |order| == |heap|
  {
    var offered := Offered(st, |st.segs|);
    OfferedFacts(B, st, |st.segs|);
    assert |multiset(order)| == |multiset(heap)|;
    forall x | x in order ensures x in heap {
      assert x in multiset(order);
    }
    forall j | 0 <= j < |order| ensures NotCurrent(st, order[j]) {
      assert order[j] in multiset(order + dropped);
      assert order[j] in offered;
    }
    NoDup(offered);
    NoDupPart(order, dropped, offered);
    assert forall i, j :: 0 <= i <= j < |order| ==> W(Weights(st.segs), order[i]) <= W(Weights(st.segs), order[j]);
  }

  /** What the pool does not keep is no lighter than what it keeps, and then it is full. */
  lemma EmptiestOf(B: nat, st: State, order: seq<nat>, dropped: seq<nat>, n: nat)
    requires SegInv(B, st) && 2 <= n && FewestFirst(st, order) && forall j :: 0 <= j < |order| ==> NotCurrent(st, order[j])
    requires Perm(order + dropped, Offered(st, |st.segs|)) && Below(order, dropped, Weights(st.segs))
    requires |order| == if |Offered(st, |st.segs|)| < n then |Offered(st, |st.segs|)| else n - 1
    ensures Emptiest(st, n - 1, order)
  {
    hide SegInv, FewestFirst;
    var all := Offered(st, |st.segs|);
    OfferedFacts(B, st, |st.segs|);
    assert |multiset(order + dropped)| == |multiset(all)|;
    forall s: nat | s < |st.segs| && NotCurrent(st, s) && s !in order ensures |order| == n - 1 && HeavierThan(st, order, s) {
      assert s in all;
      assert s in multiset(order + dropped);
      assert s in dropped;
      forall j | 0 <= j < |order| && order[j] < |st.segs| ensures st.segs[order[j]].validNr <= st.segs[s].validNr {
        assert order[j] in order;
        assert W(Weights(st.segs), order[j]) <= W(Weights(st.segs), s);
      }
    }
  }

  lemma {:induction false} NoDup(s: seq<nat>)
    requires forall i, j :: 0 <= i < j < |s| ==> s[i] != s[j]
    ensures forall x :: multiset(s)[x] <= 1
  {
    if s != [] {
      NoDup(s[..|s| - 1]);
      assert s == s[..|s| - 1] + [s[|s| - 1]];
      assert s[|s| - 1] !in s[..|s| - 1];
    }
  }

  lemma NoDupPart(s: seq<nat>, d: seq<nat>, all: seq<nat>)
    requires Perm(s + d, all) && forall x :: multiset(all)[x] <= 1
    ensures forall i, j :: 0 <= i < j < |s| ==> s[i] != s[j]
  {
    assert forall x :: multiset(s)[x] <= multiset(s + d)[x];
    forall i, j | 0 <= i < j < |s| ensures s[i] != s[j] {
      if s[i] == s[j] {
        Twice(s, i, j);
      }
    }
  }

  /** A data block that waits in the write cache does not move. */
  ghost predicate CacheKept(cached: Summary, l2p: map<Summary, Loc>, l2p': map<Summary, Loc>) {
    cached.offset != -1 && cached in l2p ==> cached in l2p' && l2p'[cached] == l2p[cached]
  }

  lemma RingEmpty(next: seq<int>)
    ensures RingOk([], next, -1, -1, 0)
  {
  }

  /** A segment table, current segments and main area as they can come from the medium. */
  ghost predicate Loadable(B: nat, segs: seq<SegmentInfo>, cur: seq<CurSeg>, disk: map<Loc, Block>) {
    var st := State(segs, cur, [], 0, disk);
    && Shape(B, st) && Currents(B, st) && Pure(st)
    && forall s :: 0 <= s < |segs| ==> segs[s].validNr == PopCount(segs[s].valid)
  }

  function FreshTemp(seg: SegmentInfo, cur: seq<CurSeg>, s: nat): SegmentInfo {
    if seg.validNr == 0 && (seg.temp >= |cur| || cur[seg.temp].segNo != s) then seg.(temp := TEMP_NR) else seg
  }

  lemma LoadedTemp(B: nat, segs: seq<SegmentInfo>, cur: seq<CurSeg>, disk: map<Loc, Block>, s: nat)
    requires Loadable(B, segs, cur, disk) && s < |segs|
    requires segs[s].validNr > 0 || (segs[s].temp < |cur| && cur[segs[s].temp].segNo == s)
    ensures segs[s].temp != TEMP_NR
  {
    if segs[s].validNr > 0 {
      PopCountBounds(segs[s].valid);
      var b :| 0 <= b < |segs[s].valid| && segs[s].valid[b];
      assert IsValid(State(segs, cur, [], 0, disk), Loc(s, b));
    }
  }

  /** The tables while the free queue is being rebuilt, with `ii` segments seen. */
  ghost predicate Building(org: seq<SegmentInfo>, cur: seq<CurSeg>, segs: seq<SegmentInfo>, queue: seq<nat>, used: nat,
                           next: seq<int>, ii: nat)
  {
    && |segs| == |org| == |next| && ii <= |org| && Distinct(queue)
    && (forall s :: 0 <= s < ii ==> segs[s] == FreshTemp(org[s], cur, s))
    && (forall s :: ii <= s < |org| ==> segs[s] == org[s])
    && (forall s: nat :: s in queue <==> s < ii && segs[s].temp == TEMP_NR)
    && used == SumValid(org[..ii])
    && (forall s :: 0 <= s < ii && segs[s].temp != TEMP_NR ==> next[s] == -1)
  }

  lemma BuildStart(org: seq<SegmentInfo>, cur: seq<CurSeg>, next: seq<int>)
    requires |next| == |org|
    ensures Building(org, cur, org, [], 0, next, 0)
  {
  }

  ghost predicate Freeable(seg: SegmentInfo, cur: seq<CurSeg>, ii: nat) {
    seg.validNr == 0 && (seg.temp >= |cur| || cur[seg.temp].segNo != ii)
  }

  lemma BuildFacts(org: seq<SegmentInfo>, cur: seq<CurSeg>, segs: seq<SegmentInfo>, queue: seq<nat>, used: nat,
                   next: seq<int>, ii: nat)
    requires Building(org, cur, segs, queue, used, next, ii) && ii < |org|
    ensures |segs| == |next| == |org| && ii !in queue && Distinct(queue)
  {
  }

  lemma BuildFree(org: seq<SegmentInfo>, cur: seq<CurSeg>, segs: seq<SegmentInfo>, queue: seq<nat>, used: nat,
                  next: seq<int>, next': seq<int>, ii: nat)
    requires Building(org, cur, segs, queue, used, next, ii) && ii < |org| == |segs| && Freeable(segs[ii], cur, ii)
    requires |next'| == |next|
    requires forall j :: 0 <= j < |next| && j != ii && j !in queue ==> next'[j] == next[j]
    ensures Building(org, cur, segs[ii := segs[ii].(temp := TEMP_NR)], queue + [ii], used + segs[ii].validNr, next', ii + 1)
  {
    assert org[..ii + 1][..ii] == org[..ii];
  }

  lemma BuildMark(B: nat, org: seq<SegmentInfo>, cur: seq<CurSeg>, disk: map<Loc, Block>, segs: seq<SegmentInfo>,
                  queue: seq<nat>, used: nat, next: seq<int>, ii: nat)
    requires Building(org, cur, segs, queue, used, next, ii) && Loadable(B, org, cur, disk)
    requires ii < |org| == |segs| == |next| && !Freeable(segs[ii], cur, ii)
    ensures Building(org, cur, segs, queue, used + segs[ii].validNr, next[ii := -1], ii + 1)
  {
    assert org[..ii + 1][..ii] == org[..ii];
    LoadedTemp(B, org, cur, disk, ii);
  }

  lemma BuildEnd(B: nat, org: seq<SegmentInfo>, cur: seq<CurSeg>, disk: map<Loc, Block>, st: State, next: seq<int>)
    requires Loadable(B, org, cur, disk) && st.cur == cur && st.disk == disk
    requires Building(org, cur, st.segs, st.queue, st.used, next, |org|)
    ensures SegInv(B, st)
    ensures forall s :: 0 <= s < |org| ==> st.segs[s] == FreshTemp(org[s], cur, s)
    ensures forall t :: 0 <= t < |cur| && cur[t].segNo != -1 ==> 0 <= cur[t].segNo < |next| && next[cur[t].segNo] == -1
  {
    hide PopCount, IsValid, OwnerAt;
    var st0 := State(org, cur, [], 0, disk);
    assert org[..|org|] == org;
    BuiltValid(org, st, st0);
    SumSame(st.segs, org);
    BuiltTemps(B, org, cur, disk, st);
    forall t | 0 <= t < |cur| && cur[t].segNo != -1
      ensures 0 <= cur[t].segNo < |next| && next[cur[t].segNo] == -1 && st.segs[cur[t].segNo].temp == t
    {
      assert org[cur[t].segNo].temp == t;
    }
    assert Currents(B, st);
  }

  lemma BuiltValid(org: seq<SegmentInfo>, st: State, st0: State)
    requires |st.segs| == |org| && st0.segs == org
    requires forall s :: 0 <= s < |org| ==> st.segs[s].valid == org[s].valid && st.segs[s].ssa == org[s].ssa
    ensures forall loc :: IsValid(st, loc) <==> IsValid(st0, loc)
    ensures forall loc :: OwnerAt(st, loc) == OwnerAt(st0, loc)
  {
  }

  lemma BuiltTemps(B: nat, org: seq<SegmentInfo>, cur: seq<CurSeg>, disk: map<Loc, Block>, st: State)
    requires Loadable(B, org, cur, disk) && |st.segs| == |org|
    requires forall s :: 0 <= s < |org| ==> st.segs[s] == FreshTemp(org[s], cur, s)
    ensures forall s :: 0 <= s < |org| && st.segs[s].temp == TEMP_NR ==> st.segs[s].validNr == 0
    ensures forall loc :: IsValid(st, loc) ==> st.segs[loc.seg].temp == org[loc.seg].temp
  {
    forall s | 0 <= s < |org| && st.segs[s].temp == TEMP_NR ensures st.segs[s].validNr == 0 {
      if st.segs[s].validNr > 0 {
        LoadedTemp(B, org, cur, disk, s);
      }
    }
    forall loc | IsValid(st, loc) ensures st.segs[loc.seg].temp == org[loc.seg].temp {
      PopCountBounds(org[loc.seg].valid);
    }
  }

  lemma {:induction false} SumSame(a: seq<SegmentInfo>, b: seq<SegmentInfo>)
    requires |a| == |b| && forall s :: 0 <= s < |a| ==> a[s].validNr == b[s].validNr
    ensures SumValid(a) == SumValid(b)
  {
    if a != [] {
      SumSame(a[..|a| - 1], b[..|b| - 1]);
    }
  }

  lemma EmptyLoadable(B: nat, segs: seq<SegmentInfo>, cur: seq<CurSeg>, empty: SegmentInfo)
    requires empty == SegmentInfo(seq(B, _ => false), 0, TEMP_NR, seq(B, _ => NO_OWNER))
    requires |cur| == TEMP_NR && (forall t :: 0 <= t < |cur| ==> cur[t].segNo == -1)
    requires forall s :: 0 <= s < |segs| ==> segs[s] == empty
    ensures Loadable(B, segs, cur, map[])
    ensures forall s :: 0 <= s < |segs| ==> FreshTemp(segs[s], cur, s) == empty
  {
    PopCountFalse(B);
  }

  lemma EmptyInv(B: nat, w: World, empty: SegmentInfo)
    requires empty == SegmentInfo(seq(B, _ => false), 0, TEMP_NR, seq(B, _ => NO_OWNER))
    requires SegInv(B, w.st) && w.st.disk == map[] && forall s :: 0 <= s < |w.st.segs| ==> w.st.segs[s] == empty
    requires |w.st.cur| == TEMP_NR && forall t :: 0 <= t < |w.st.cur| ==> w.st.cur[t].segNo == -1
    requires |w.table| == |w.cache| && forall n :: 0 <= n < |w.table| ==> w.table[n] == Unused && w.cache[n] == -1
    ensures Inv(B, w, map[], None)
    ensures forall o :: Reads(w, o) == None
    ensures forall s :: 0 <= s < |w.st.segs| ==> s in w.st.queue
  {
    assert forall loc :: !IsValid(w.st, loc);
    assert forall n :: NodeBlock(w, n) == None;
  }

  /** What the scan before a collection would do to segment `s`. */
  function ScanFree(st: State, s: nat): State
    requires s < |st.segs|
  {
    st.(segs := st.segs[s := st.segs[s].(temp := TEMP_NR)], queue := st.queue + [s])
  }

  /** The scan frees a segment that is empty and carries the "not free" mark.  That is harmless for
      every segment exactly when no current segment is empty with that mark. */
  lemma ScanSafeIff(B: nat, st: State, next: seq<int>)
    requires SegInv(B, st) && |next| == |st.segs|
    requires forall s: nat :: s in st.queue ==> next[s] >= 0
    ensures (forall s :: 0 <= s < |st.segs| && st.segs[s].validNr == 0 && next[s] < 0 ==> SegInv(B, ScanFree(st, s)))
       <==> (forall t :: 0 <= t < |st.cur| && st.cur[t].segNo != -1 ==>
               st.segs[st.cur[t].segNo].validNr > 0 || next[st.cur[t].segNo] >= 0)
  {
    forall t | 0 <= t < |st.cur| && st.cur[t].segNo != -1 && st.segs[st.cur[t].segNo].validNr == 0
        && next[st.cur[t].segNo] < 0
      ensures !SegInv(B, ScanFree(st, st.cur[t].segNo))
    {
      var s := st.cur[t].segNo;
      assert ScanFree(st, s).segs[s].temp != t;
    }
    forall s | 0 <= s < |st.segs| && st.segs[s].validNr == 0 && next[s] < 0
      ensures exists t :: 0 <= t < |st.cur| && st.cur[t].segNo == s
    {
      EmptyIsFree(B, st, s);
      assert CurOf(st, st.segs[s].temp) == s;
    }
  }

  /** `now` differs from `base` only where it is marked. */
  ghost predicate MarksOk<T>(base: seq<T>, now: seq<T>, marks: set<nat>) {
    |base| == |now| && forall i: nat :: i < |now| && i !in marks ==> now[i] == base[i]
  }

  /** Every current segment holds a block. */
  ghost predicate Occupied(segs: seq<SegmentInfo>, cur: seq<CurSeg>) {
    forall t :: 0 <= t < |cur| && 0 <= cur[t].segNo < |segs| ==> segs[cur[t].segNo].validNr > 0
  }

  /** No current segment is empty with the "not free" link. */
  ghost predicate SafeCurs(segs: seq<SegmentInfo>, cur: seq<CurSeg>, next: seq<int>) {
    forall t :: 0 <= t < |cur| && 0 <= cur[t].segNo < |segs| && cur[t].segNo < |next| ==>
      segs[cur[t].segNo].validNr > 0 || next[cur[t].segNo] >= 0
  }

  /** A write leaves its own current segment with a block in it, and the others as they are. */
  lemma SafeWrite(B: nat, w: World, w': World, l2p: map<Summary, Loc>, pid: int, o: Summary, dirty: bool, next: seq<int>, next': seq<int>)
    requires Inv(B, w, l2p, None) && PageReady(w, l2p, pid, o) && BlockWritten(B, w, w', l2p, pid, o, dirty)
    requires SafeCurs(w.st.segs, w.st.cur, next) && |next'| == |next|
    requires forall j :: 0 <= j < |next| && next[j] >= 0 ==> next'[j] >= 0
    ensures SafeCurs(w'.st.segs, w'.st.cur, next')
  {
    hide NodesOk, Viewed, Roomy, Linked, Counted, Queued, Partitioned, NodeBlock;
    var t := OwnerTemp(o);
    forall u | 0 <= u < |w'.st.cur| && 0 <= w'.st.cur[u].segNo < |w'.st.segs| && w'.st.cur[u].segNo < |next'|
      ensures w'.st.segs[w'.st.cur[u].segNo].validNr > 0 || next'[w'.st.cur[u].segNo] >= 0
    {
      if u != t {
        assert w'.st.cur[u] == w.st.cur[u];
        OldElsewhere(B, w, l2p, o, u);
      }
    }
  }

  /** The old place of `o` is in no current segment of another temperature. */
  lemma OldElsewhere(B: nat, w: World, l2p: map<Summary, Loc>, o: Summary, u: nat)
    requires Inv(B, w, l2p, None) && u < |w.st.cur| && u != OwnerTemp(o) && w.st.cur[u].segNo != -1
    ensures o in l2p ==> l2p[o].seg != w.st.cur[u].segNo
    ensures OwnerTemp(o) < |w.st.cur| && w.st.cur[OwnerTemp(o)].segNo != -1 ==> w.st.cur[OwnerTemp(o)].segNo != w.st.cur[u].segNo
  {
    hide NodesOk, Viewed, Roomy, Counted, Queued, Partitioned;
    if o in l2p {
      assert IsValid(w.st, l2p[o]);
    }
  }

  /** A segment off the free queue carries a proper link. */
  lemma SafeAlloc(B: nat, st: State, t: nat, next: seq<int>, next': seq<int>)
    requires SegInv(B, st) && Enabled(B, st, Alloc(t)) && SafeCurs(st.segs, st.cur, next) && |next'| == |next|
    requires forall j :: 0 <= j < |next| && next[j] >= 0 ==> next'[j] >= 0
    requires st.queue[0] < |next| && next'[st.queue[0]] >= 0
    ensures SafeCurs(DoAlloc(B, st, t).segs, DoAlloc(B, st, t).cur, next')
  {
    hide Counted, Pure, Partitioned;
    var s := st.queue[0];
    assert s in st.queue;
  }

  /** Segments and current segments can be loaded over any medium that still has the valid blocks. */
  lemma CutLoadable(B: nat, st: State, disk: map<Loc, Block>)
    requires SegInv(B, st) && ValidKept(st, disk)
    ensures Loadable(B, st.segs, st.cur, disk)
  {
    var st' := State(st.segs, st.cur, [], 0, disk);
    assert forall loc :: IsValid(st', loc) == IsValid(st, loc) && OwnerAt(st', loc) == OwnerAt(st, loc);
    hide Queued, Partitioned, IsValid, OwnerAt, PopCount;
    assert Currents(B, st');
  }

  /** Rebuilding the free queue changes no segment. */
  lemma FreshSame(B: nat, st: State)
    requires SegInv(B, st)
    ensures forall s :: 0 <= s < |st.segs| ==> FreshTemp(st.segs[s], st.cur, s) == st.segs[s]
  {
    hide Shape, Counted, Currents, Pure;
    forall s | 0 <= s < |st.segs| ensures FreshTemp(st.segs[s], st.cur, s) == st.segs[s] {
      if st.segs[s].temp < |st.cur| && st.segs[s].validNr == 0 {
        assert CurOf(st, st.segs[s].temp) == st.cur[st.segs[s].temp].segNo;
      }
    }
  }

  lemma LoadableCur(B: nat, segs: seq<SegmentInfo>, cur: seq<CurSeg>, disk: map<Loc, Block>)
    requires Loadable(B, segs, cur, disk)
    ensures |cur| == TEMP_NR
  {
  }

  /** Rebuilding the free queue completes the loaded tables to a state that satisfies the invariant. */
  lemma MountBuilt(B: nat, w0: World, w: World, l2p: map<Summary, Loc>)
    requires Mappable(B, w0, l2p) && SegInv(B, w.st) && w == w0.(st := w.st)
    requires w.st.cur == w0.st.cur && w.st.disk == w0.st.disk && |w.st.segs| == |w0.st.segs|
    requires forall s :: 0 <= s < |w0.st.segs| ==> w.st.segs[s] == FreshTemp(w0.st.segs[s], w.st.cur, s)
    ensures Inv(B, w, l2p, None) && SameContents(w0, w)
  {
    hide Mappable, SegInv;
    forall loc ensures IsValid(w.st, loc) == IsValid(w0.st, loc) && OwnerAt(w.st, loc) == OwnerAt(w0.st, loc) {
    }
    MountInv(B, w0, w, l2p);
  }

  /** After a mount every current segment carries the "not free" link. */
  lemma MountSafe(B: nat, segs0: seq<SegmentInfo>, cur: seq<CurSeg>, disk: map<Loc, Block>, segs: seq<SegmentInfo>, next: seq<int>)
    requires Loadable(B, segs0, cur, disk) && |segs| == |segs0| == |next|
    requires forall s :: 0 <= s < |segs0| ==> segs[s] == FreshTemp(segs0[s], cur, s)
    requires forall t :: 0 <= t < |cur| && cur[t].segNo != -1 ==> 0 <= cur[t].segNo < |next| && next[cur[t].segNo] == -1
    ensures SafeCurs(segs, cur, next) <==> Occupied(segs0, cur)
  {
    hide Loadable;
    assert forall s :: 0 <= s < |segs0| ==> segs[s].validNr == segs0[s].validNr;
  }

  lemma NodeHere(B: nat, w: World, l2p: map<Summary, Loc>, nid: nat)
    requires Inv(B, w, l2p, None) && nid < |w.table| && !w.table[nid].At?
    ensures Summary(nid, -1) !in l2p
  {
    NodeUnmapped(w, l2p, nid);
  }

  lemma NodeMapped(B: nat, w: World, l2p: map<Summary, Loc>, nid: nat)
    requires Inv(B, w, l2p, None) && nid < |w.table|
    ensures Summary(nid, -1) in l2p <==> w.table[nid].At?
  {
    hide SegInv, Linked, NodesOk, Roomy;
    assert OldLoc(l2p, Summary(nid, -1)) == Fwd(w, Summary(nid, -1));
  }

  lemma CacheSized(B: nat, w: World, l2p: map<Summary, Loc>)
    requires Inv(B, w, l2p, None)
    ensures |w.cache| == |w.table|
  {
  }

  function Upto(n: nat): set<nat> {
    if n == 0 then {} else Upto(n - 1) + {n - 1}
  }

  lemma MarkSet<T>(base: seq<T>, now: seq<T>, marks: set<nat>, i: nat, v: T)
    requires MarksOk(base, now, marks) && i < |now|
    ensures MarksOk(base, now[i := v], marks + {i})
  {
  }

  lemma MarksNone<T>(now: seq<T>, marks: set<nat>)
    ensures MarksOk(now, now, marks)
  {
  }

  /** A write of temperature `t` needs no collection. */
  ghost predicate Ample(st: State, t: nat, reserved: nat) {
    t < |st.cur| && (st.cur[t].segNo != -1 || |st.queue| > reserved)
  }

  /** A write of temperature `t` that did not collect: it took at most one free segment, and left the
      other current segments alone. */
  ghost predicate Calm(B: nat, st: State, t: nat, st': State) {
    && t < |st.cur| == |st'.cur| && (forall u :: 0 <= u < |st.cur| && u != t ==> st'.cur[u] == st.cur[u])
    && |st'.queue| + (if st.cur[t].segNo == -1 then 1 else 0) >= |st.queue|
    && (st.cur[t].segNo == -1 && B >= 2 ==> st'.cur[t].segNo != -1)
  }

  /** No page but those in `except` is written to, dropped or brought in. */
  ghost predicate Steady(w: World, w': World, except: set<int>) {
    && w'.cache == w.cache
    && forall q :: q !in except ==> (q in w'.pages <==> q in w.pages) && (q in w.pages ==> w'.pages[q] == w.pages[q])
  }

  lemma SteadyRefl(w: World)
    ensures Steady(w, w, {})
  {
  }

  lemma SteadyAny(w: World, except: set<int>)
    ensures Steady(w, w, except)
  {
  }

  lemma SteadyCache(w: World, w': World, except: set<int>)
    ensures Steady(w, w', except) ==> w'.cache == w.cache
  {
  }

  /** Dropping a node from the cache leaves the others as dirty as they were. */
  lemma DroppedMarks(B: nat, w: World, w': World, w'': World, l2p: map<Summary, Loc>, k: nat)
    requires Inv(B, w, l2p, None) && k < |w.cache| && w.cache[k] >= 0 && Steady(w, w', {w.cache[k]}) && forall p :: p in w.pages ==> 0 <= p
    requires w''.cache == w'.cache[k := -1] && w''.pages == w'.pages
    ensures forall j: nat :: j != k ==> (Marked(w'', j) <==> Marked(w, j))
  {
    hide Inv;
    SteadyMarks(B, w, w', l2p, k);
    SteadyCache(w, w', {w.cache[k]});
  }

  lemma SteadySame(w: World, w1: World, w2: World, except: set<int>)
    requires w2.cache == w1.cache && w2.pages == w1.pages
    ensures Steady(w, w1, except) ==> Steady(w, w2, except)
  {
  }

  lemma SteadyWrite(B: nat, w: World, w1: World, w2: World, l2p: map<Summary, Loc>, pid: int, o: Summary)
    requires Inv(B, w1, l2p, None) && PageReady(w1, l2p, pid, o) && BlockWritten(B, w1, w2, l2p, pid, o, false)
    ensures Steady(w, w1, {}) ==> Steady(w, w2, {pid})
  {
  }

  /** The cached node waits to be written. */
  ghost predicate Marked(w: World, n: nat) {
    n < |w.cache| && w.cache[n] in w.pages && w.pages[w.cache[n]].dirty
  }

  /** How many of the first `n` nodes wait to be written. */
  ghost function DirtyNr(w: World, n: nat): nat {
    if n == 0 then 0 else DirtyNr(w, n - 1) + if Marked(w, n - 1) then 1 else 0
  }

  /** None of the first `n` nodes waits to be written. */
  ghost predicate Clean(w: World, n: nat) {
    forall k: nat :: k < n ==> !Marked(w, k)
  }

  /** Above the reserve there is a free segment for every node that waits to be written. */
  ghost predicate Enough(w: World, reserved: nat) {
    |w.st.queue| >= reserved + DirtyNr(w, |w.cache|)
  }

  lemma AllClean(w: World)
    ensures Clean(w, |w.cache|) <==> NoDirty(w)
  {
    if NoDirty(w) {
      forall k: nat | k < |w.cache| ensures !Marked(w, k) {
      }
    } else if Clean(w, |w.cache|) {
      forall n | 0 <= n < |w.cache| && w.cache[n] in w.pages ensures !w.pages[w.cache[n]].dirty {
        assert !Marked(w, n);
      }
    }
  }

  lemma {:induction false} CleanNone(w: World, n: nat)
    ensures DirtyNr(w, n) == 0 <==> Clean(w, n)
  {
    if n > 0 {
      CleanNone(w, n - 1);
    }
  }

  lemma {:induction false} DirtyLess(w: World, w': World, n: nat, k: nat)
    requires forall j: nat :: j != k ==> (Marked(w', j) <==> Marked(w, j))
    requires Marked(w, k) && !Marked(w', k)
    ensures DirtyNr(w', n) + (if k < n then 1 else 0) == DirtyNr(w, n)
  {
    hide Marked;
    if n > 0 {
      DirtyLess(w, w', n - 1, k);
    }
  }

  /** Each cached node has a page of its own. */
  lemma SteadyMarks(B: nat, w: World, w': World, l2p: map<Summary, Loc>, k: nat)
    requires Inv(B, w, l2p, None) && k < |w.cache| && w.cache[k] >= 0 && Steady(w, w', {w.cache[k]})
    requires forall p :: p in w.pages ==> 0 <= p
    ensures forall j: nat :: j != k ==> (Marked(w', j) <==> Marked(w, j))
  {
    hide SegInv, Roomy, Linked, Viewed;
    assert NodeOk(w, k, None);
    forall j: nat | j != k && j < |w.cache| ensures Marked(w', j) <==> Marked(w, j) {
      assert NodeOk(w, j, None);
      assert w.cache[j] >= 0 ==> w.cache[j] != w.cache[k];
    }
  }

  /** Writing one of the nodes that wait, without a collection, leaves enough for the others. */
  lemma EnoughLeft(B: nat, w: World, w': World, l2p: map<Summary, Loc>, k: nat, reserved: nat)
    requires Inv(B, w, l2p, None) && k < |w.cache| && Marked(w, k) && w.cache[k] >= 0 && forall p :: p in w.pages ==> 0 <= p
    requires Steady(w, w', {w.cache[k]}) && Calm(B, w.st, HOT_NODE, w'.st) && !Marked(w', k) && Enough(w, reserved)
    ensures Enough(w', reserved) && forall n: nat :: Clean(w, n) ==> Clean(w', n)
  {
    hide Inv, Marked, DirtyNr, Calm;
    SteadyMarks(B, w, w', l2p, k);
    DirtyLess(w, w', |w.cache|, k);
    CalmLeft(B, w.st, HOT_NODE, w'.st);
  }

  lemma EnoughAmple(w: World, reserved: nat, k: nat)
    requires Enough(w, reserved) && Marked(w, k) && HOT_NODE < |w.st.cur|
    ensures Ample(w.st, HOT_NODE, reserved)
  {
    CleanNone(w, |w.cache|);
  }

  lemma NoneClean(w: World)
    ensures Clean(w, 0)
  {
  }

  lemma StaysRefl(w: World)
    requires |w.cache| == |w.table|
    ensures CacheStays(w, w)
  {
  }

  lemma StaysTrans(w: World, w1: World, w2: World)
    requires CacheStays(w, w1) && CacheStays(w1, w2)
    ensures CacheStays(w, w2)
  {
  }

  /** Only the current segment for nodes is another. */
  ghost predicate NodesOnly(st: State, st': State) {
    |st'.cur| == |st.cur| && forall t :: 0 <= t < |st.cur| && t != HOT_NODE ==> st'.cur[t] == st.cur[t]
  }

  lemma NodesRefl(st: State)
    ensures NodesOnly(st, st)
  {
  }

  lemma NodesTrans(st: State, st1: State, st2: State)
    ensures NodesOnly(st, st1) && NodesOnly(st1, st2) ==> NodesOnly(st, st2)
  {
  }

  lemma CalmNodes(B: nat, st: State, st': State)
    requires Calm(B, st, HOT_NODE, st')
    ensures NodesOnly(st, st')
  {
  }

  lemma CleanMore(w: World, n: nat)
    requires Clean(w, n) && !Marked(w, n)
    ensures Clean(w, n + 1)
  {
  }

  lemma CalmLeft(B: nat, st: State, t: nat, st': State)
    ensures Calm(B, st, t, st') ==> |st'.queue| + 1 >= |st.queue|
  {
  }

  /** Temperature `t` has a current segment now: the one it had, or a fresh one. */
  ghost predicate Opens(B: nat, st: State, t: nat, reserved: nat, st': State) {
    && t < |st.cur| == |st'.cur| && st'.cur[t].segNo != -1
    && (st.cur[t].segNo != -1 ==> st' == st)
    && (st.cur[t].segNo == -1 ==> st'.cur[t].off == 0 && (|st.queue| > reserved ==> Calm(B, st, t, st')))
  }

  lemma CalmThen(B: nat, st: State, st1: State, st2: State, t: nat, reserved: nat)
    requires Opens(B, st, t, reserved, st1)
    requires t < |st1.cur| == |st2.cur| && forall u :: 0 <= u < |st1.cur| && u != t ==> st2.cur[u] == st1.cur[u]
    requires |st2.queue| >= |st1.queue| && st2.cur[t].segNo == if st1.cur[t].off + 1 >= B then -1 else st1.cur[t].segNo
    ensures Ample(st, t, reserved) ==> Calm(B, st, t, st2)
  {
  }

  /** When fewer blocks are unused than the reserve and one more segment hold, a collection cannot
      bring the free segments above the reserve. */
  lemma NoReserve(B: nat, st: State, reserved: nat)
    requires SegInv(B, st) && B * |st.segs| - st.used < B * (reserved + 1)
    ensures |st.queue| <= reserved
  {
    if |st.queue| > reserved {
      MulMore(B, |st.queue|, reserved);
    }
    FreeBound(B, st);
  }

  lemma MulMore(B: nat, n: nat, r: nat)
    requires n > r
    ensures B * n >= B * (r + 1)
  {
    MulLess(r, n, B);
  }

  ghost predicate Distinct(q: seq<nat>) {
    forall i, j :: 0 <= i < j < |q| ==> q[i] != q[j]
  }

  lemma QueueDistinct(B: nat, st: State)
    requires SegInv(B, st)
    ensures Distinct(st.queue)
  {
  }

  lemma InvalidFacts(B: nat, st: State, loc: Loc)
    requires SegInv(B, st) && Enabled(B, st, Invalidate(loc))
    ensures loc.seg !in st.queue && Distinct(st.queue) && |st.cur| == TEMP_NR && IsValid(st, loc) && st.used > 0
    ensures loc.seg < |st.segs| && st.segs[loc.seg].validNr > 0
    ensures loc.blk < |st.segs[loc.seg].valid| && loc.blk < |st.segs[loc.seg].ssa| && st.segs[loc.seg].valid[loc.blk]
    ensures Apply(B, st, Invalidate(loc)) == DoInvalidate(st, loc)
    ensures forall s :: s in st.queue ==> 0 <= s < |st.segs|
  {
  }

  /** What a step by step invalidation leaves. */
  lemma InvalidateDone(st: State, st2: State, loc: Loc, seg: SegmentInfo, freed: bool)
    requires IsValid(st, loc) && st.segs[loc.seg].validNr > 0 && st.used > 0 && st2.used == st.used - 1
    requires seg == st.segs[loc.seg].(valid := st.segs[loc.seg].valid[loc.blk := false], validNr := st.segs[loc.seg].validNr - 1,
                                      ssa := st.segs[loc.seg].ssa[loc.blk := NO_OWNER])
    requires freed <==> seg.validNr == 0 && CurOf(st, seg.temp) != loc.seg
    requires st2.segs == if freed then st.segs[loc.seg := seg][loc.seg := seg.(temp := TEMP_NR)] else st.segs[loc.seg := seg]
    requires st2.queue == (if freed then st.queue + [loc.seg] else st.queue) && st2.cur == st.cur && st2.disk == st.disk
    ensures st2 == DoInvalidate(st, loc)
  {
  }

  lemma EndsDiffer(q: seq<nat>)
    requires Distinct(q)
    ensures |q| > 1 ==> q[0] != q[|q| - 1]
  {
  }

  class Manager {
    const B: nat
    const reserved: nat
    const gcHi: nat
    const poolSize: nat
    const segs: array<SegmentInfo>
    const cur: array<CurSeg>
    const freeNext: array<int>
    const table: array<NatEntry>
    const cache: array<int>
    var freeHead: int
    var freeTail: int
    var freeNr: nat
    var usedNr: nat
    var pages: map<int, Page>
    var nextPage: int
    var disk: map<Loc, Block>
    var dataCache: Summary
    var natDirty: set<nat>
    var segDirty: set<nat>
    ghost var natBase: seq<NatEntry>
    ghost var segBase: seq<SegmentInfo>
    ghost var queue: seq<nat>
    ghost var l2p: map<Summary, Loc>
    ghost var origin: State
    ghost var steps: seq<Step>

    ghost function Log(): State
      reads this`queue, this`usedNr, this`disk, segs, cur
    {
      State(segs[..], cur[..], queue, usedNr, disk)
    }

    ghost function W(): World
      reads this`queue, this`usedNr, this`disk, this`pages, segs, cur, table, cache
    {
      World(Log(), table[..], cache[..], pages)
    }

    ghost predicate Arrays()
    {
      && 0 < B && 2 <= poolSize
      && cur.Length == TEMP_NR && freeNext.Length == segs.Length && cache.Length == table.Length
      && freeNext != cache
    }

    ghost predicate Ring()
      reads this`queue, this`freeHead, this`freeTail, this`freeNr, freeNext
    {
      RingOk(queue, freeNext[..], freeHead, freeTail, freeNr)
    }

    lemma FreeLen()
      requires Ring()
      ensures freeNr == |queue|
    {
    }

    ghost predicate Traced()
      reads this`origin, this`steps, this`queue, this`usedNr, this`disk, segs, cur
    {
      Run(B, origin, steps) == Some(Log())
    }

    ghost predicate PagesOk()
      reads this`pages, this`nextPage
    {
      0 <= nextPage && forall p :: p in pages ==> 0 <= p < nextPage
    }

    lemma PageNumbers()
      requires PagesOk()
      ensures forall p :: p in pages ==> 0 <= p
    {
    }

    lemma FreeIsQueue()
      requires Valid(None)
      ensures freeNr == |queue| && cur.Length == TEMP_NR
    {
      RingLen(queue, freeNext[..], freeHead, freeTail, freeNr);
    }

    /** Every entry that differs from what was last flushed is marked dirty. */
    ghost predicate SegsMarked()
      reads this`segBase, this`segDirty, segs
    {
      MarksOk(segBase, segs[..], segDirty)
    }

    ghost predicate NatMarked()
      reads this`natBase, this`natDirty, table
    {
      MarksOk(natBase, table[..], natDirty)
    }

    /** The invariant; at `x` the forward map is about to be told the new place. */
    ghost predicate Valid(x: Option<Summary>)
      reads this, segs, cur, freeNext, table, cache
    {
      Arrays() && Ring() && Traced() && PagesOk() && SegsMarked() && NatMarked() && Inv(B, W(), l2p, x)
    }

    /** A write of temperature `t` needs a segment and cannot have one without force: fewer blocks are
        unused than the reserve and one more segment hold. */
    ghost predicate Scarce(st: State, t: nat) {
      t < |st.cur| && st.cur[t].segNo == -1 && 3 <= |st.queue| && B * |st.segs| - st.used < B * (reserved + 1)
    }

    constructor (blockPerSeg: nat, segNr: nat, nodeNr: nat, reserved: nat, gcHi: nat, poolSize: nat)
      requires 0 < blockPerSeg && 2 <= poolSize
      ensures Arrays() && Blank(seq(B, _ => false), seq(B, _ => NO_OWNER))
      ensures B == blockPerSeg && segs.Length == segNr && table.Length == nodeNr && this.reserved == reserved && this.gcHi == gcHi && this.poolSize == poolSize
      ensures fresh(segs) && fresh(cur) && fresh(freeNext) && fresh(table) && fresh(cache)
    {
      B := blockPerSeg;
      this.reserved := reserved;
      this.gcHi := gcHi;
      this.poolSize := poolSize;
      segs := new SegmentInfo[segNr](_ =>
        SegmentInfo(seq(blockPerSeg, _ => false), 0, TEMP_NR, seq(blockPerSeg, _ => NO_OWNER)));
      cur := new CurSeg[TEMP_NR](_ => CurSeg(-1, 0));
      freeNext := new int[segNr](_ => -1);
      table := new NatEntry[nodeNr](_ => Unused);
      cache := new int[nodeNr](_ => -1);
      freeHead, freeTail, freeNr, usedNr := -1, -1, 0, 0;
      pages, nextPage, disk, dataCache := map[], 0, map[], NO_OWNER;
      natDirty, segDirty := Upto(nodeNr), Upto(segNr);
      queue, l2p, steps := [], map[], [];
    }

    /** Mounting: the tables as they were read from the medium, the free queue rebuilt, nothing cached
        and nothing marked.  Every read is what the tables lead to.  The current segments carry the
        "not free" link, so collecting is safe exactly when none of them is empty. */
    constructor Mount(blockPerSeg: nat, reserved: nat, gcHi: nat, poolSize: nat, segs0: seq<SegmentInfo>, cur0: seq<CurSeg>,
                      table0: seq<NatEntry>, disk0: map<Loc, Block>, ghost l2p0: map<Summary, Loc>)
      requires 0 < blockPerSeg && 2 <= poolSize && Loadable(blockPerSeg, segs0, cur0, disk0)
      requires Mappable(blockPerSeg, MountedWorld(segs0, cur0, table0, disk0), l2p0)
      ensures fresh(segs) && fresh(cur) && fresh(freeNext) && fresh(table) && fresh(cache)
      ensures Valid(None) && B == blockPerSeg && this.reserved == reserved && this.gcHi == gcHi && this.poolSize == poolSize
      ensures segs.Length == |segs0| && forall s :: 0 <= s < |segs0| ==> segs[s] == FreshTemp(segs0[s], cur0, s)
      ensures cur[..] == cur0 && table[..] == table0 && cache[..] == seq(|table0|, _ => -1) && disk == disk0 && l2p == l2p0
      ensures pages == map[] && natDirty == {} && segDirty == {} && steps == [] && origin == Log()
      ensures natBase == table[..] && segBase == segs[..]
      ensures SameContents(MountedWorld(segs0, cur0, table0, disk0), W())
      ensures CurSafe() <==> Occupied(segs0, cur0)
    {
      hide Manager.Valid, Manager.CurSafe, SegInv, Inv, RingOk, Reads, IsValid, OwnerAt, FreshTemp, PopCount, Mappable, MarksOk, SameContents, Loadable, SafeCurs, Occupied;
      B := blockPerSeg;
      this.reserved := reserved;
      this.gcHi := gcHi;
      this.poolSize := poolSize;
      segs := new SegmentInfo[|segs0|](s requires 0 <= s < |segs0| => segs0[s]);
      cur := new CurSeg[|cur0|](t requires 0 <= t < |cur0| => cur0[t]);
      freeNext := new int[|segs0|](_ => -1);
      table := new NatEntry[|table0|](n requires 0 <= n < |table0| => table0[n]);
      cache := new int[|table0|](_ => -1);
      freeHead, freeTail, freeNr, usedNr := -1, -1, 0, 0;
      pages, nextPage, disk, dataCache := map[], 0, disk0, NO_OWNER;
      natDirty, segDirty := {}, {};
      queue, l2p, steps := [], l2p0, [];
      new;
      LoadableCur(B, segs0, cur0, disk0);
      assert segs[..] == segs0 && cur[..] == cur0;
      assert table[..] == table0 && cache[..] == seq(|table0|, _ => -1);
      Adopt(MountedWorld(segs0, cur0, table0, disk0));
    }

    /** Takes over loaded tables: the free queue is rebuilt and nothing is dirty. */
    method Adopt(ghost w0: World)
      requires Arrays() && pages == map[] && nextPage == 0 && natDirty == {} && segDirty == {} && queue == [] && steps == []
      requires Loadable(B, segs[..], cur[..], disk) && W() == w0.(st := w0.st.(used := usedNr)) && Mappable(B, w0, l2p)
      modifies this`freeHead, this`freeTail, this`freeNr, this`usedNr, this`queue, this`origin, this`natBase, this`segBase, freeNext, segs
      ensures Valid(None) && origin == Log() && natBase == table[..] && segBase == segs[..]
      ensures forall s :: 0 <= s < segs.Length ==> segs[s] == FreshTemp(old(segs[s]), cur[..], s)
      ensures SameContents(w0, W())
      ensures CurSafe() <==> Occupied(old(segs[..]), cur[..])
    {
      hide SegInv, Inv, RingOk, Reads, IsValid, OwnerAt, FreshTemp, PopCount, Mappable, MarksOk, SameContents, Loadable, SafeCurs, Occupied;
      ghost var segs0 := segs[..];
      BuildFreeLink();
      origin, natBase, segBase := Log(), table[..], segs[..];
      MarksNone(table[..], natDirty);
      MarksNone(segs[..], segDirty);
      MountBuilt(B, w0, W(), l2p);
      MountSafe(B, segs0, cur[..], disk, segs[..], freeNext[..]);
    }

    ghost predicate Blank(none: seq<bool>, nobody: seq<Summary>)
      reads this, segs, cur, table, cache
    {
      && (forall s :: 0 <= s < segs.Length ==> segs[s] == SegmentInfo(none, 0, TEMP_NR, nobody))
      && (forall t :: 0 <= t < cur.Length ==> cur[t].segNo == -1)
      && (forall n :: 0 <= n < table.Length ==> table[n] == Unused)
      && (forall n :: 0 <= n < cache.Length ==> cache[n] == -1)
      && pages == map[] && nextPage == 0 && disk == map[] && l2p == map[]
    }

    /** An empty file system: every segment is free, nothing is mapped. */
    method InitSegmentManager()
      requires Arrays() && Blank(seq(B, _ => false), seq(B, _ => NO_OWNER))
      modifies this`freeHead, this`freeTail, this`freeNr, this`usedNr, this`queue, this`origin, this`steps, this`natBase, this`segBase, freeNext, segs
      ensures Valid(None) && CurLinked() && l2p == map[] && cur[..] == old(cur[..])
      ensures (forall s :: 0 <= s < segs.Length ==> s in queue) && freeNr == segs.Length && usedNr == 0
      ensures forall o :: Reads(W(), o) == None
    {
      hide MarksOk, SegInv, Inv, RingOk, Loadable, Reads, IsValid, FreshTemp, PopCount;
      EmptyLoadable(B, segs[..], cur[..], SegmentInfo(seq(B, _ => false), 0, TEMP_NR, seq(B, _ => NO_OWNER)));
      BuildFreeLink();
      origin, steps, natBase, segBase := Log(), [], table[..], segs[..];
      MarksNone(table[..], natDirty);
      MarksNone(segs[..], segDirty);
      EmptyInv(B, W(), SegmentInfo(seq(B, _ => false), 0, TEMP_NR, seq(B, _ => NO_OWNER)));
      AllFree(B, Log());
      RingLen(queue, freeNext[..], freeHead, freeTail, freeNr);
    }

    // ----- Changing an entry marks it -----

    method SetSeg(s: nat, info: SegmentInfo)
      requires s < segs.Length && SegsMarked()
      modifies this`segDirty, segs
      ensures SegsMarked() && segs[..] == old(segs[..])[s := info] && segDirty == old(segDirty) + {s}
    {
      MarkSet(segBase, segs[..], segDirty, s, info);
      segs[s] := info;
      segDirty := segDirty + {s};
      assert segs[..] == old(segs[..])[s := info];
    }

    method SetNat(n: nat, e: NatEntry)
      requires n < table.Length && NatMarked()
      modifies this`natDirty, table
      ensures NatMarked() && table[..] == old(table[..])[n := e] && natDirty == old(natDirty) + {n}
    {
      MarkSet(natBase, table[..], natDirty, n, e);
      table[n] := e;
      natDirty := natDirty + {n};
      assert table[..] == old(table[..])[n := e];
    }

    /** Nothing is dirty any more: the tables are on the medium. */
    method ClearMarks()
      requires Valid(None)
      modifies this`natDirty, this`segDirty, this`natBase, this`segBase
      ensures Valid(None) && natDirty == {} && segDirty == {} && natBase == table[..] && segBase == segs[..]
    {
      hide Inv, RingOk, Run, MarksOk;
      natDirty, segDirty, natBase, segBase := {}, {}, table[..], segs[..];
      MarksNone(table[..], natDirty);
      MarksNone(segs[..], segDirty);
    }

    // ----- The free queue -----

    method FreeEnQueue(ii: nat)
      requires Ring() && Distinct(queue) && ii < freeNext.Length && ii !in queue
      modifies this`freeHead, this`freeTail, this`freeNr, this`queue, freeNext
      ensures Ring() && queue == old(queue) + [ii]
      ensures forall j :: 0 <= j < freeNext.Length && old(freeNext[j]) >= 0 ==> freeNext[j] >= 0
      ensures forall j :: 0 <= j < freeNext.Length && j != ii && j !in old(queue) ==> freeNext[j] == old(freeNext[j])
    {
      if freeHead != -1 {
        freeNext[ii] := freeNext[freeHead];
        freeNext[freeHead] := ii;
        freeHead := ii;
      } else {
        freeNext[ii] := ii;
        freeHead := ii;
        freeTail := ii;
      }
      freeNr := freeNr + 1;
      queue := queue + [ii];
    }

    method FreeDeQueue() returns (s: nat)
      requires Ring() && Distinct(queue) && queue != []
      modifies this`freeHead, this`freeTail, this`freeNr, this`queue, freeNext
      ensures Ring() && s == old(queue)[0] && queue == old(queue)[1..]
      ensures forall j :: 0 <= j < freeNext.Length && old(freeNext[j]) >= 0 ==> freeNext[j] >= 0
      ensures freeNext[s] >= 0
    {
      s := freeTail;
      if freeTail == freeHead {
        EndsDiffer(queue);
        freeTail := -1;
        freeHead := -1;
      } else {
        freeTail := freeNext[s];
        freeNext[freeHead] := freeTail;
      }
      freeNr := freeNr - 1;
      queue := queue[1..];
    }

    /** Takes the segment at the tail of the queue, clears it and makes it current. */
    method TakeHead(t: nat)
      requires Arrays() && Ring() && Distinct(queue) && SegsMarked() && Enabled(B, Log(), Alloc(t))
      modifies this`segDirty, this`freeHead, this`freeTail, this`freeNr, this`queue, freeNext, segs, cur
      ensures Ring() && SegsMarked() && Log() == DoAlloc(B, old(Log()), t)
      ensures forall j :: 0 <= j < freeNext.Length && old(freeNext[j]) >= 0 ==> freeNext[j] >= 0
      ensures cur[t].segNo == old(queue)[0] < freeNext.Length && freeNext[cur[t].segNo] >= 0
      ensures forall u :: 0 <= u < cur.Length && u != t ==> cur[u] == old(cur[u])
    {
      hide SegsMarked, RingOk;
      var s := FreeDeQueue();
      SetSeg(s, SegmentInfo(seq(B, _ => false), 0, t, seq(B, _ => NO_OWNER)));
      cur[t] := CurSeg(s, 0);
      assert Log() == DoAlloc(B, old(Log()), t);
    }

    /** The tail end of segment allocation: takes a free segment and makes it current. */
    method TakeSegment(t: nat)
      requires Valid(None) && Enabled(B, Log(), Alloc(t))
      modifies this`segDirty, this`freeHead, this`freeTail, this`freeNr, this`queue, this`steps, freeNext, segs, cur
      ensures Valid(None)
      ensures Log() == DoAlloc(B, old(Log()), t)
      ensures W() == old(W()).(st := Log())
      ensures SameContents(old(W()), W())
      ensures steps == old(steps) + [Alloc(t)]
      ensures forall j :: 0 <= j < freeNext.Length && old(freeNext[j]) >= 0 ==> freeNext[j] >= 0
      ensures cur[t].segNo == old(queue)[0] < freeNext.Length && freeNext[cur[t].segNo] >= 0
      ensures old(CurLinked()) ==> CurLinked()
      ensures old(CurSafe()) ==> CurSafe()
      ensures forall u :: 0 <= u < cur.Length && u != t ==> cur[u] == old(cur[u])
    {
      hide SafeCurs, SegsMarked, NatMarked, RingOk, Inv, SegInv, SameContents, Run, DoAlloc;
      InvLog(B, W(), l2p, None);
      QueueDistinct(B, Log());
      RunStep(B, origin, steps, Log(), Alloc(t));
      AllocKeepsWorld(B, W(), l2p, t);
      TakeHead(t);
      steps := steps + [Alloc(t)];
      if old(CurSafe()) {
        SafeAlloc(B, old(Log()), t, old(freeNext[..]), freeNext[..]);
      }
    }

    // ----- Invalidating a block -----

    /** The double-invalidation error is unreachable: the caller's block is valid. */
    method InvalidBlock(loc: Loc)
      requires Arrays() && Ring() && Traced() && SegsMarked() && SegInv(B, Log()) && Enabled(B, Log(), Invalidate(loc))
      modifies this`segDirty, this`freeHead, this`freeTail, this`freeNr, this`usedNr, this`queue, this`steps, freeNext, segs
      ensures Ring() && Traced() && SegsMarked() && Log() == DoInvalidate(old(Log()), loc)
      ensures usedNr == old(usedNr) - 1 && freeNr >= old(freeNr)
      ensures steps == old(steps) + [Invalidate(loc)]
      ensures forall j :: 0 <= j < freeNext.Length && old(freeNext[j]) >= 0 ==> freeNext[j] >= 0
    {
      hide SegsMarked, NatMarked, Manager.Ring, RingOk, SegInv, Run, Inv, Pure, Currents, DoInvalidate, Enabled, Apply, IsValid;
      RunStep(B, origin, steps, Log(), Invalidate(loc));
      InvalidFacts(B, Log(), loc);
      ghost var st := Log();
      var seg := segs[loc.seg];
      if !seg.valid[loc.blk] {
        assert false;
      }
      usedNr := usedNr - 1;
      seg := seg.(valid := seg.valid[loc.blk := false], validNr := seg.validNr - 1, ssa := seg.ssa[loc.blk := NO_OWNER]);
      SetSeg(loc.seg, seg);
      ghost var freed := false;
      if seg.validNr == 0 && (seg.temp >= cur.Length || cur[seg.temp].segNo != loc.seg) {
        freed := true;
        FreeEmptied(loc.seg, seg);
      }
      steps := steps + [Invalidate(loc)];
      InvalidateDone(st, Log(), loc, seg, freed);
    }

    /** The last valid block of a segment is gone: it is queued again. */
    method FreeEmptied(s: nat, info: SegmentInfo)
      requires Ring() && SegsMarked() && Distinct(queue) && s < segs.Length == freeNext.Length && s !in queue
      modifies this`segDirty, this`freeHead, this`freeTail, this`freeNr, this`queue, freeNext, segs
      ensures Ring() && SegsMarked() && segs[..] == old(segs[..])[s := info.(temp := TEMP_NR)]
      ensures queue == old(queue) + [s] && freeNr == old(freeNr) + 1
      ensures forall j :: 0 <= j < freeNext.Length && old(freeNext[j]) >= 0 ==> freeNext[j] >= 0
    {
      hide SegsMarked, Manager.Ring, RingOk;
      FreeLen();
      SetSeg(s, info.(temp := TEMP_NR));
      FreeEnQueue(s);
      FreeLen();
    }

    // ----- Writing a page into the current segment of its temperature -----

    ghost function Owner(pid: int): Summary
      requires pid in pages
      reads this`pages
    {
      Summary(pages[pid].nid, pages[pid].offset)
    }

    ghost predicate Ready(pid: int)
      reads this`queue, this`usedNr, this`disk, this`pages, this`l2p, segs, cur, table, cache
    {
      pid in pages && PageReady(W(), l2p, pid, Owner(pid))
    }

    /** Sets the bit, writes the block, records its owner and advances the write offset. */
    method PutBlock(temp: nat, page: Page)
      requires Arrays() && Ring() && Traced() && SegsMarked() && SegInv(B, Log())
      requires Enabled(B, Log(), Put(temp, Summary(page.nid, page.offset), page.data))
      modifies this`segDirty, this`usedNr, this`steps, this`disk, segs, cur
      ensures Log() == DoPut(old(Log()), temp, Summary(page.nid, page.offset), page.data)
      ensures Ring() && Traced() && SegsMarked() && SegInv(B, Log())
      ensures steps == old(steps) + [Put(temp, Summary(page.nid, page.offset), page.data)]
      ensures usedNr == old(usedNr) + 1 && cur[temp] == CurSeg(old(cur[temp].segNo), old(cur[temp].off) + 1)
      ensures forall t :: 0 <= t < cur.Length && t != temp ==> cur[t] == old(cur[t])
    {
      hide SegsMarked, NatMarked, SegInv, Run, RingOk;
      ghost var o := Summary(page.nid, page.offset);
      RunStep(B, origin, steps, Log(), Put(temp, o, page.data));
      PutKeeps(B, Log(), temp, o, page.data);
      var seg, blk := cur[temp].segNo, cur[temp].off;
      var info := segs[seg];
      SetSeg(seg, info.(valid := info.valid[blk := true], validNr := info.validNr + 1,
                        ssa := info.ssa[blk := Summary(page.nid, page.offset)]));
      disk := disk[Loc(seg, blk) := page.data];
      usedNr := usedNr + 1;
      cur[temp] := CurSeg(seg, blk + 1);
      steps := steps + [Put(temp, o, page.data)];
      assert Log() == DoPut(old(Log()), temp, o, page.data);
    }

    method CloseIfFull(temp: nat)
      requires Arrays() && Ring() && Traced() && temp < cur.Length
      requires cur[temp].off >= B ==> Enabled(B, Log(), Close(temp))
      modifies this`steps, cur
      ensures Log() == WriteTail(B, old(Log()), temp) && Ring() && Traced()
      ensures cur[temp].segNo == if old(cur[temp].off) >= B then -1 else old(cur[temp].segNo)
      ensures forall t :: 0 <= t < cur.Length && t != temp ==> cur[t] == old(cur[t])
      ensures old(steps) <= steps
    {
      hide SegsMarked, NatMarked, Run, RingOk;
      if cur[temp].off >= B {
        RunStep(B, origin, steps, Log(), Close(temp));
        cur[temp] := cur[temp].(segNo := -1);
        steps := steps + [Close(temp)];
        assert Log() == WriteTail(B, old(Log()), temp);
      }
    }

    /** The effect of a block write on the log. */
    method StoreBlock(pid: int, temp: nat) returns (phy: Loc)
      requires Arrays() && Ring() && Traced() && SegsMarked() && pid in pages
      requires temp == OwnerTemp(Owner(pid)) && Placing(B, W(), l2p, pid, Owner(pid))
      modifies this`segDirty, this`freeHead, this`freeTail, this`freeNr, this`usedNr, this`queue, this`steps, this`disk,
               freeNext, segs, cur
      ensures Ring() && Traced() && SegsMarked()
      ensures phy == Target(old(Log()), temp)
      ensures Writable(B, old(Log()), l2p, temp, Owner(pid), pages[pid].data)
      ensures temp < |AfterInvalidate(B, old(Log()), l2p, temp, Owner(pid), pages[pid].data).cur|
      ensures Log() == WriteTail(B, AfterInvalidate(B, old(Log()), l2p, temp, Owner(pid), pages[pid].data), temp)
      ensures usedNr + (if pages[pid].phy.Some? then 1 else 0) == old(usedNr) + 1 && freeNr >= old(freeNr)
      ensures cur[temp].segNo == if old(cur[temp].off) + 1 >= B then -1 else old(cur[temp].segNo)
      ensures forall t :: 0 <= t < cur.Length && t != temp ==> cur[t] == old(cur[t])
      ensures old(CurLinked()) ==> CurLinked()
      ensures old(steps) <= steps
      ensures forall j :: 0 <= j < freeNext.Length && old(freeNext[j]) >= 0 ==> freeNext[j] >= 0
    {
      hide SegsMarked, NatMarked, Inv, SegInv, Run, RingOk, Enabled, PageReady, Writable, DoPut, DoInvalidate, AfterInvalidate, WriteTail;
      ghost var w := W();
      var page := pages[pid];
      PlaceStart(B, w, l2p, pid, Owner(pid));
      phy := Loc(cur[temp].segNo, cur[temp].off);
      PutBlock(temp, page);
      if page.phy.Some? {
        InvalidBlock(page.phy.value);
      }
      PlaceMiddle(B, w, Log(), l2p, pid, Owner(pid));
      CloseIfFull(temp);
    }

    /** Writes the page and records its new place in it; the reverse map is then ahead of the forward map. */
    method StorePage(pid: int, byGc: bool, temp: nat) returns (phy: Loc)
      requires Valid(None) && Ready(pid) && temp == OwnerTemp(Owner(pid)) && cur[temp].segNo != -1
      modifies this`segDirty, this`freeHead, this`freeTail, this`freeNr, this`usedNr, this`queue, this`steps, this`pages, this`disk,
               freeNext, segs, cur
      ensures Ring() && Traced() && SegsMarked() && NatMarked() && PagesOk() && phy == Target(old(Log()), temp)
      ensures Inv(B, W(), l2p[old(Owner(pid)) := phy], Some(old(Owner(pid))))
      ensures BlockWritten(B, old(W()), W(), l2p, pid, old(Owner(pid)), byGc && old(pages[pid].dirty))
      ensures SameExcept(old(W()), W(), old(Owner(pid)))
      ensures old(pages[pid].offset) == -1 ==> SameContents(old(W()), W())
      ensures old(steps) <= steps
      ensures usedNr + (if old(pages[pid].phy).Some? then 1 else 0) == old(usedNr) + 1 && freeNr >= old(freeNr)
      ensures cur[temp].segNo == (if old(cur[temp].off) + 1 >= B then -1 else old(cur[temp].segNo))
      ensures forall t :: 0 <= t < cur.Length && t != temp ==> cur[t] == old(cur[t])
      ensures old(CurLinked()) ==> CurLinked()
      ensures forall j :: 0 <= j < freeNext.Length && old(freeNext[j]) >= 0 ==> freeNext[j] >= 0
    {
      hide Manager.CurLinked, Manager.Traced, Manager.Ring, SegsMarked, NatMarked, Inv, Run, RingOk, SameExcept, SameContents, BlockWritten, PageReady, Writable, AfterInvalidate, WriteTail;
      ghost var w := W();
      var page := pages[pid];
      phy := StoreBlock(pid, temp);
      pages := pages[pid := page.(phy := Some(phy), dirty := byGc && page.dirty)];
      PlaceEnd(B, w, W(), l2p, pid, Summary(page.nid, page.offset), byGc && page.dirty);
    }

    /** The common part of a block write, once the temperature has a current segment. */
    method PlaceBlock(pid: int, byGc: bool) returns (phy: Loc)
      requires Valid(None) && Ready(pid)
      requires cur[OwnerTemp(Owner(pid))].segNo != -1
      modifies this`segDirty, this`freeHead, this`freeTail, this`freeNr, this`usedNr, this`queue, this`steps, this`pages, this`disk,
               this`l2p, freeNext, segs, cur
      ensures Valid(Some(old(Owner(pid))))
      ensures phy == Target(old(Log()), OwnerTemp(old(Owner(pid))))
      ensures l2p == old(l2p)[old(Owner(pid)) := phy]
      ensures BlockWritten(B, old(W()), W(), old(l2p), pid, old(Owner(pid)), byGc && old(pages[pid].dirty))
      ensures SameExcept(old(W()), W(), old(Owner(pid)))
      ensures old(pages[pid].offset) == -1 ==> SameContents(old(W()), W())
      ensures old(steps) <= steps
      ensures usedNr + (if old(pages[pid].phy).Some? then 1 else 0) == old(usedNr) + 1 && freeNr >= old(freeNr)
      ensures cur[OwnerTemp(old(Owner(pid)))].segNo == (if old(cur[OwnerTemp(Owner(pid))].off) + 1 >= B then -1 else old(cur[OwnerTemp(Owner(pid))].segNo))
      ensures forall t :: 0 <= t < cur.Length && t != OwnerTemp(old(Owner(pid))) ==> cur[t] == old(cur[t])
      ensures old(CurLinked()) ==> CurLinked()
      ensures old(CurSafe()) ==> CurSafe()
      ensures forall j :: 0 <= j < freeNext.Length && old(freeNext[j]) >= 0 ==> freeNext[j] >= 0
    {
      hide Manager.CurLinked, Manager.Traced, Manager.Ring, Manager.PagesOk, SafeCurs, SegsMarked, NatMarked, Inv, Run, RingOk, SameExcept, SameContents, BlockWritten, PageReady, Writable, AfterInvalidate, WriteTail;
      ghost var w := W();
      var page := pages[pid];
      ghost var o := Owner(pid);
      var temp := if page.offset < 0 then HOT_NODE else HOT_DATA;
      phy := StorePage(pid, byGc, temp);
      if old(CurSafe()) {
        SafeWrite(B, w, W(), l2p, pid, o, byGc && page.dirty, old(freeNext[..]), freeNext[..]);
      }
      l2p := l2p[o := phy];
    }

    /** Reads a node into the cache unless it is there. */
    method ReadNode(nid: int) returns (pid: int)
      requires Valid(None) && 0 <= nid < table.Length && NodeBlock(W(), nid).Some?
      modifies this`pages, this`nextPage, cache
      ensures Valid(None) && Quiet(old(W()), W())
      ensures Log() == old(Log()) && table[..] == old(table[..])
      ensures 0 <= pid == cache[nid] && pid in pages && pages[pid].data == NodeBlock(old(W()), nid).value
      ensures pages[pid].nid == nid && pages[pid].offset == -1
      ensures old(pages.Keys) <= pages.Keys && forall p :: p in old(pages) ==> pages[p] == old(pages[p])
      ensures forall n :: 0 <= n < cache.Length && old(cache[n]) >= 0 ==> cache[n] == old(cache[n])
      ensures forall n :: 0 <= n < cache.Length && old(cache[n]) != cache[n] ==> cache[n] !in old(pages)
      ensures forall n :: NodeBlock(W(), n) == NodeBlock(old(W()), n)
      ensures forall o :: Fwd(W(), o) == Fwd(old(W()), o)
    {
      hide SegsMarked, NatMarked, SegInv, Linked, Roomy, Viewed, Run, Quiet, SameContents;
      assert NodeOk(W(), nid, None);
      if cache[nid] >= 0 {
        pid := cache[nid];
        QuietRefl(W());
      } else {
        ghost var w := W();
        var phy := table[nid].loc;
        pid := nextPage;
        nextPage := nextPage + 1;
        pages := pages[pid := Page(Some(phy), nid, -1, false, disk[phy])];
        cache[nid] := pid;
        assert Loaded(w, W(), nid, pid);
        LoadKeeps(B, w, W(), l2p, nid, pid);
        LoadNodeBlocks(w, W(), nid, pid);
        QuietLoad(w, W(), nid, pid);
      }
    }

    // ----- Telling the forward map -----

    /** Every current segment was taken from the free queue, so its link is not the "not free" mark. */
    ghost predicate CurLinked()
      reads cur, freeNext
    {
      forall t :: 0 <= t < cur.Length && 0 <= cur[t].segNo < freeNext.Length ==> freeNext[cur[t].segNo] >= 0
    }

    method SetPhyBlk(nid: int, phy: Loc)
      requires Valid(Some(Summary(nid, -1))) && 0 <= nid < table.Length
      requires OldLoc(l2p, Summary(nid, -1)) == Some(phy)
      requires cache[nid] >= 0 && cache[nid] in pages && pages[cache[nid]].phy == Some(phy)
      requires phy in disk && IsNode(disk[phy]) && disk[phy].nid == nid
      requires pages[cache[nid]].dirty || pages[cache[nid]].data == disk[phy]
      modifies this`natDirty, table
      ensures Valid(None) && SameContents(old(W()), W())
      ensures table[..] == old(table[..])[nid := At(phy)] && W() == old(W()).(table := table[..])
    {
      hide SegsMarked, NatMarked, SegInv, Linked, Roomy, NodesOk, Viewed, Run, SameContents, RingOk;
      ghost var w := W();
      SetNat(nid, At(phy));
      assert W() == w.(table := w.table[nid := At(phy)]);
      SetNatKeeps(B, w, W(), l2p, nid);
    }

    /** Sets a pointer of a cached index node. */
    method SetIndex(nid: int, off: int, ptr: Option<Loc>)
      requires 0 <= nid < table.Length && 0 <= off && Valid(Some(Summary(nid, off)))
      requires OldLoc(l2p, Summary(nid, off)) == ptr
      requires cache[nid] >= 0 && cache[nid] in pages
      requires pages[cache[nid]].data.Index? && off < |pages[cache[nid]].data.ptrs|
      modifies this`pages
      ensures Valid(None) && SameExcept(old(W()), W(), Summary(nid, off))
      ensures PtrSet(old(W()), W(), nid, off, ptr)
      ensures ptr.None? ==> Reads(W(), Summary(nid, off)) == None
      ensures ptr.Some? && ptr.value in disk ==> Reads(W(), Summary(nid, off)) == Some(disk[ptr.value])
    {
      hide SegsMarked, NatMarked, SegInv, Linked, Roomy, NodesOk, Viewed, Run, SameExcept, RingOk;
      ghost var w := W();
      var p := pages[cache[nid]];
      pages := pages[cache[nid] := p.(data := SetPtr(p.data, off, ptr), dirty := true)];
      SetPtrKeeps(B, w, W(), l2p, nid, off);
    }

    // ----- The collector's write -----

    /** A block write by the collector: it may use the last free segment and never collects. */
    method WriteByGc(pid: int) returns (r: Outcome)
      requires Valid(None) && Ready(pid)
      modifies this`segDirty, this`freeHead, this`freeTail, this`freeNr, this`usedNr, this`queue, this`steps, this`pages, this`disk,
               this`l2p, freeNext, segs, cur
      ensures r.Done? || r == Thrown(ERR_USER)
      ensures r.Thrown? ==> old(freeNr) == 0 && CurOf(old(Log()), OwnerTemp(old(Owner(pid)))) == -1
      ensures r.Thrown? ==> Valid(None) && W() == old(W()) && l2p == old(l2p)
      ensures r.Done? ==>
                && Valid(Some(old(Owner(pid)))) && l2p == old(l2p)[old(Owner(pid)) := r.loc]
                && MoveStep(B, old(Log()), old(l2p), old(Owner(pid)), old(pages[pid].data), Log())
                && table[..] == old(table[..]) && cache[..] == old(cache[..])
                && r.loc in disk && disk[r.loc] == old(pages[pid].data)
                && pages == old(pages)[pid := old(pages[pid]).(phy := Some(r.loc))]
                && SameExcept(old(W()), W(), old(Owner(pid)))
      ensures r.Done? && old(pages[pid].offset) == -1 ==> SameContents(old(W()), W())
      ensures old(steps) <= steps
      ensures old(CurLinked()) ==> CurLinked()
      ensures old(CurSafe()) ==> CurSafe()
    {
      hide SafeCurs, SegsMarked, NatMarked, Inv, Run, SameContents, SameExcept, PageReady, DoAlloc, Written, Writable, Opened;
      ghost var w := W();
      ghost var o := Owner(pid);
      var page := pages[pid];
      var temp := if page.offset < 0 then HOT_NODE else HOT_DATA;
      GcWriteStart(B, w, l2p, pid, o);
      if cur[temp].segNo == -1 {
        if freeNr == 0 {
          return Thrown(ERR_USER);
        }
        TakeSegment(temp);
        ReadyAfterAlloc(w, W(), l2p, pid, o);
      }
      ghost var mid := W();
      SameRefl(w);
      assert mid.st == Opened(B, w.st, temp);
      var phy := PlaceBlock(pid, true);
      GcWriteEnd(B, w, mid, W(), old(l2p), pid, o, page.dirty);
      return Done(phy);
    }

    // ----- Moving one block -----

    method ClearDirty(nid: nat)
      requires nid < cache.Length && Valid(Some(Summary(nid, -1))) && cache[nid] >= 0 && cache[nid] in pages
      modifies this`pages
      ensures Valid(Some(Summary(nid, -1))) && SameContents(old(W()), W())
      ensures pages == old(pages)[cache[nid] := old(pages)[cache[nid]].(dirty := false)]
    {
      hide SegsMarked, NatMarked, Inv, Run, RingOk, SameContents;
      ghost var w := W();
      pages := pages[cache[nid] := pages[cache[nid]].(dirty := false)];
      MarkClean(B, w, W(), l2p, nid);
    }

    /** The dirty mark goes and the table learns the new place of a node that was written. */
    method NodeMoved(nid: nat, phy: Loc)
      requires Valid(Some(Summary(nid, -1))) && nid < table.Length && OldLoc(l2p, Summary(nid, -1)) == Some(phy)
      requires cache[nid] >= 0 && cache[nid] in pages && pages[cache[nid]].phy == Some(phy)
      requires phy in disk && IsNode(disk[phy]) && disk[phy].nid == nid && pages[cache[nid]].data == disk[phy]
      modifies this`pages, this`natDirty, table
      ensures Valid(None) && SameContents(old(W()), W())
      ensures table[..] == old(table[..])[nid := At(phy)]
      ensures pages == old(pages)[cache[nid] := old(pages)[cache[nid]].(dirty := false)]
    {
      hide SegsMarked, NatMarked, Inv, Run, RingOk, SameContents;
      ghost var w := W();
      ClearDirty(nid);
      ghost var w1 := W();
      SetPhyBlk(nid, phy);
      SameTrans(w, w1, W());
    }

    /** Moves a node block: the cached page is written and the table learns the new place. */
    method MoveNode(nid: int, org: Loc) returns (r: Outcome)
      requires Valid(None) && 0 <= nid < table.Length && cache[nid] >= 0
      requires Summary(nid, -1) in l2p && l2p[Summary(nid, -1)] == org && Untouched(Log(), org.seg)
      modifies this`segDirty, this`natDirty, this`freeHead, this`freeTail, this`freeNr, this`usedNr, this`queue, this`steps, this`pages, this`disk,
               this`l2p, freeNext, segs, cur, table
      ensures Valid(None) && Quiet(old(W()), W())
      ensures r.Done? || r.Thrown?
      ensures r.Thrown? ==> old(freeNr) == 0 && CurOf(old(Log()), HOT_NODE) == -1 && Log() == old(Log())
      ensures r.Done? ==> Moved(B, old(Log()), Log(), org.seg, HOT_NODE) && Unmapped(old(Log()), Log(), org)
      ensures CacheKept(dataCache, old(l2p), l2p)
      ensures old(steps) <= steps
      ensures old(CurLinked()) ==> CurLinked()
      ensures old(CurSafe()) ==> CurSafe()
    {
      hide Manager.CurLinked, Manager.CurSafe, SegsMarked, NatMarked, SegInv, Linked, Roomy, NodesOk, Viewed, Run, Quiet, SameContents, SameExcept, RingOk, PageReady, Moved, Untouched;
      ghost var w := W();
      CachedReady(B, w, l2p, nid);
      var pid := cache[nid];
      var l2p0 := table[nid];
      assert OldLoc(l2p, Summary(nid, -1)) == Fwd(w, Summary(nid, -1)) by { ViewedAt(w, l2p, Summary(nid, -1)); }
      if l2p0 != At(org) {
        assert false;
      }
      r := WriteByGc(pid);
      if r.Thrown? {
        QuietRefl(w);
        return;
      }
      MoveEffect(B, w.st, old(l2p), Summary(nid, -1), w.pages[pid].data, Log(), org.seg);
      ghost var w1 := W();
      NodeMoved(nid, r.loc);
      SameTrans(w, w1, W());
      QuietNode(w, W(), nid, r.loc, pages[pid]);
    }

    /** Reads a data block into a page of its own. */
    method ReadData(nid: int, off: int, org: Loc) returns (pid: int)
      requires Valid(None) && 0 <= nid < table.Length && cache[nid] >= 0 && cache[nid] in pages
      requires 0 <= off && OldLoc(l2p, Summary(nid, off)) == Some(org) && org in disk && disk[org].Data?
      modifies this`pages, this`nextPage
      ensures Valid(None) && SameContents(old(W()), W())
      ensures pid !in old(pages) && pages == old(pages)[pid := Page(Some(org), nid, off, false, disk[org])]
      ensures Ready(pid)
    {
      hide SegsMarked, NatMarked, SegInv, Linked, Roomy, NodesOk, Viewed, Run, SameContents, RingOk, PageReady;
      ghost var w := W();
      pid := nextPage;
      var page := Page(Some(org), nid, off, false, disk[org]);
      nextPage := nextPage + 1;
      pages := pages[pid := page];
      AddPage(B, w, W(), l2p, pid, page);
      DataReady(W(), l2p, pid, Summary(nid, off));
    }

    /** Moves a data block: it is read, written elsewhere, and its index node learns the new place. */
    method MoveData(nid: int, off: int, org: Loc) returns (r: Outcome)
      requires Valid(None) && 0 <= nid < table.Length && cache[nid] >= 0 && cache[nid] in pages
      requires Summary(nid, off) in l2p && l2p[Summary(nid, off)] == org && Untouched(Log(), org.seg)
      requires 0 <= off && pages[cache[nid]].data.Index? && off < |pages[cache[nid]].data.ptrs|
      requires org in disk && disk[org].Data?
      modifies this`segDirty, this`freeHead, this`freeTail, this`freeNr, this`usedNr, this`queue, this`steps, this`pages, this`nextPage,
               this`disk, this`l2p, freeNext, segs, cur
      ensures Valid(None) && Quiet(old(W()), W())
      ensures r.Done? || r.Thrown?
      ensures r.Thrown? ==> old(freeNr) == 0 && CurOf(old(Log()), HOT_DATA) == -1 && Log() == old(Log())
      ensures r.Done? ==> Moved(B, old(Log()), Log(), org.seg, HOT_DATA) && Unmapped(old(Log()), Log(), org)
      ensures r.Thrown? ==> l2p == old(l2p)
      ensures r.Done? ==> l2p == old(l2p)[Summary(nid, off) := r.loc]
      ensures old(steps) <= steps
      ensures old(CurLinked()) ==> CurLinked()
      ensures old(CurSafe()) ==> CurSafe()
    {
      hide SafeCurs, SegsMarked, NatMarked, SegInv, Linked, Roomy, NodesOk, Viewed, Run, Quiet, SameContents, SameExcept, RingOk, PageReady, Moved, Untouched,
           MoveStep, Fwd, NodeBlock;
      ghost var w := W();
      ghost var o := Summary(nid, off);
      ghost var data := disk[org];
      ViewedAt(w, l2p, o);
      ReadsAt(w, o, org);
      var pid := ReadData(nid, off, org);
      ghost var w1 := W();
      r := WriteByGc(pid);
      if r.Thrown? {
        QuietAdd(w, W(), pid, pages[pid]);
        return;
      }
      MoveEffect(B, w.st, old(l2p), o, data, Log(), org.seg);
      ghost var w2 := W();
      SetIndex(nid, off, Some(r.loc));
      ExceptSame(w, w1, o);
      ExceptTrans(w, w1, w2, o);
      ExceptTrans(w, w2, W(), o);
      SameFromExcept(w, W(), o);
      QuietData(w, W(), nid, pid, pages[pid], pages[cache[nid]]);
    }

    /** What the collector does with one valid block of a victim. */
    method MoveBlock(src: nat, bb: nat) returns (r: Outcome, skipped: bool)
      requires Valid(None) && IsValid(Log(), Loc(src, bb)) && Untouched(Log(), src)
      modifies this`segDirty, this`natDirty, this`freeHead, this`freeTail, this`freeNr, this`usedNr, this`queue, this`steps, this`pages, this`nextPage,
               this`disk, this`l2p, freeNext, segs, cur, table, cache
      ensures Valid(None) && Quiet(old(W()), W())
      ensures skipped ==> Log() == old(Log()) && OwnerAt(old(Log()), Loc(src, bb)) == dataCache && dataCache.offset != -1
      ensures CacheKept(dataCache, old(l2p), l2p)
      ensures !skipped ==> r.Done? || r.Thrown?
      ensures !skipped && r.Thrown? ==>
                && old(freeNr) == 0 && Log() == old(Log())
                && CurOf(old(Log()), OwnerTemp(OwnerAt(old(Log()), Loc(src, bb)))) == -1
      ensures !skipped && r.Done? ==>
                && Moved(B, old(Log()), Log(), src, OwnerTemp(OwnerAt(old(Log()), Loc(src, bb))))
                && Unmapped(old(Log()), Log(), Loc(src, bb))
      ensures old(steps) <= steps
      ensures old(CurLinked()) ==> CurLinked()
      ensures old(CurSafe()) ==> CurSafe()
    {
      hide SafeCurs, SegsMarked, NatMarked, SegInv, Linked, Roomy, NodesOk, Viewed, Run, Quiet, SameContents, RingOk, Moved, Unmapped, Untouched, NodeBlock, Fwd;
      ghost var w := W();
      var org := Loc(src, bb);
      var nid, off := segs[src].ssa[bb].nid, segs[src].ssa[bb].offset;
      OwnerLeadsHere(B, w, l2p, org);
      r, skipped := NoSegment, false;
      var pid := ReadNode(nid);
      ghost var w1 := W();
      if off == -1 {
        r := MoveNode(nid, org);
      } else if dataCache == Summary(nid, off) {
        skipped := true;
        return;
      } else {
        var node := pages[pid].data;
        if !node.Index? || off >= |node.ptrs| || node.ptrs[off] != Some(org) {
          assert false;
        }
        r := MoveData(nid, off, org);
      }
      QuietTrans(w, w1, W());
    }

    // ----- Collecting one victim -----

    /** Moves the valid blocks of segment `src`, except the one waiting in the write cache. */
    method CollectSegment(src: nat) returns (r: Outcome, ghost moved: nat, ghost a: nat)
      requires Valid(None) && src < segs.Length && NotCurrent(Log(), src)
      modifies this`segDirty, this`natDirty, this`freeHead, this`freeTail, this`freeNr, this`usedNr, this`queue, this`steps, this`pages, this`nextPage,
               this`disk, this`l2p, freeNext, segs, cur, table, cache
      ensures Valid(None) && Quiet(old(W()), W())
      ensures r.Thrown? ==> old(freeNr) == freeNr == 0
      ensures !r.Thrown? ==> CollectedSeg(B, old(Log()), Log(), src, dataCache, moved, a)
      ensures CacheKept(dataCache, old(l2p), l2p)
      ensures old(steps) <= steps
      ensures old(CurLinked()) ==> CurLinked()
      ensures old(CurSafe()) ==> CurSafe()
    {
      hide Manager.CurLinked, Manager.CurSafe, Manager.PagesOk, SegsMarked, NatMarked, SegInv, Linked, NodesOk, Viewed, Run, Quiet, SameContents, RingOk, Moved,
           Unmapped, Untouched, NodeBlock, Fwd, Collecting, CollectedSeg, Roomy;
      ghost var w := W();
      ghost var st0 := Log();
      RingLen(queue, freeNext[..], freeHead, freeTail, freeNr);
      r, moved, a := NoSegment, 0, 0;
      QuietRefl(w);
      CollectStart(B, st0, src, dataCache);
      var validBlk := segs[src].validNr;
      var bb := 0;
      while bb < B
        invariant bb <= B && Valid(None) && Quiet(w, W())
        invariant Collecting(B, st0, Log(), src, dataCache, bb, moved, a)
        invariant validBlk == segs[src].validNr
        invariant CacheKept(dataCache, old(l2p), l2p)
        invariant old(steps) <= steps
        invariant old(CurLinked()) ==> CurLinked()
        invariant old(CurSafe()) ==> CurSafe()
      {
        ghost var st := Log();
        SlotInRange(B, st, src, bb);
        if segs[src].valid[bb] {
          ghost var w1 := W();
          CollectingUntouched(B, st0, st, src, dataCache, bb, moved, a);
          RingLen(queue, freeNext[..], freeHead, freeTail, freeNr);
          var skipped: bool;
          r, skipped := MoveBlock(src, bb);
          QuietTrans(w, w1, W());
          if !skipped {
            if r.Thrown? {
              RingLen(queue, freeNext[..], freeHead, freeTail, freeNr);
              return;
            }
            ghost var t := OwnerTemp(OwnerAt(st, Loc(src, bb)));
            CollectMove(B, st0, st, Log(), src, dataCache, bb, moved, a, t);
            moved, a := moved + 1, a + Needs(st, t);
            validBlk := validBlk - 1;
            if validBlk == 0 {
              return;
            }
          } else {
            CollectPass(B, st0, st, src, dataCache, bb, moved, a);
          }
        } else {
          CollectPass(B, st0, st, src, dataCache, bb, moved, a);
        }
        bb := bb + 1;
      }
      CollectEnd(B, st0, Log(), l2p, src, dataCache, moved, a);
      r := NoSegment;
    }

    // ----- The collection -----

    /** No current segment is empty with the "not free" link; the scan would free such a segment. */
    ghost predicate CurSafe()
      reads segs, cur, freeNext
    {
      SafeCurs(segs[..], cur[..], freeNext[..])
    }

    /** The candidates are all segments but the current ones; the pool keeps the emptiest of them. */
    method SelectVictims() returns (pool: GcPoolHeap)
      requires Valid(None) && CurSafe() && freeNr > 0
      ensures fresh(pool) && fresh(pool.small) && pool.popPtr == 0 && pool.smallLen <= pool.small.Length
      ensures FewestFirst(Log(), pool.small[..pool.smallLen])
      ensures forall j :: 0 <= j < pool.smallLen ==> NotCurrent(Log(), pool.small[j])
      ensures Perm(pool.small[..pool.smallLen] + pool.dropped, Offered(Log(), segs.Length))
      ensures Below(pool.small[..pool.smallLen], pool.dropped, Weights(segs[..]))
      ensures Emptiest(Log(), poolSize - 1, pool.small[..pool.smallLen])
      ensures pool.smallLen == if |Offered(Log(), segs.Length)| < poolSize then |Offered(Log(), segs.Length)| else poolSize - 1
    {
      hide SafeCurs, SegsMarked, NatMarked, Manager.Ring, Manager.Traced, Manager.PagesOk, Inv, SegInv, Run, Perm, Below, IsHeap, InRange, Ascending,
           FewestFirst, NotCurrent, RingOk, Emptiest;
      ghost var st := Log();
      InvLog(B, W(), l2p, None);
      NothingToFree();
      pool := new GcPoolHeap(poolSize, Weights(segs[..]));
      var ss := 0;
      EmptyPool(Weights(segs[..]));
      while ss < segs.Length
        invariant ss <= segs.Length && segs[..] == st.segs && cur[..] == st.cur
        invariant fresh(pool) && fresh(pool.large) && fresh(pool.small)
        invariant pool.Valid() && pool.key == Weights(st.segs) && pool.n == poolSize
        invariant Perm(pool.Heap() + pool.dropped, Offered(st, ss))
        invariant pool.largeLen == if |Offered(st, ss)| < poolSize then |Offered(st, ss)| else poolSize - 1
      {
        if segs[ss].validNr == 0 && freeNext[ss] < 0 {
          assert false;
        }
        if segs[ss].temp >= cur.Length || cur[segs[ss].temp].segNo != ss {
          ghost var before := pool.Heap() + pool.dropped;
          pool.Push(ss);
          PermPush(pool.Heap() + pool.dropped, before, Offered(st, ss), ss);
        }
        ss := ss + 1;
      }
      FreeLen();
      FreeOffered(B, st, ss);
      SortPool(pool, st);
      EmptiestOf(B, st, pool.small[..pool.smallLen], pool.dropped, poolSize);
    }

    lemma NothingToFree()
      requires Valid(None) && CurSafe()
      ensures forall s :: 0 <= s < segs.Length ==> segs[s].validNr > 0 || freeNext[s] >= 0
    {
      hide SegsMarked, NatMarked, Linked, NodesOk, Viewed, Counted, Currents, Pure, Run, Queued, Partitioned;
      forall s | 0 <= s < segs.Length ensures segs[s].validNr > 0 || freeNext[s] >= 0 {
        if segs[s].validNr == 0 {
          EmptyIsFree(B, Log(), s);
          if s in queue {
            RingLinked(queue, freeNext[..], freeHead, freeTail, freeNr, s);
          }
        }
      }
    }

    method SortPool(pool: GcPoolHeap, ghost st: State)
      requires pool.Valid() && pool.key == Weights(st.segs) && SegInv(B, st) && pool.largeLen > 0
      requires Perm(pool.Heap() + pool.dropped, Offered(st, |st.segs|))
      modifies pool, pool.large, pool.small
      ensures pool.smallLen == old(pool.largeLen) <= pool.small.Length && pool.popPtr == 0
      ensures FewestFirst(st, pool.small[..pool.smallLen])
      ensures forall j :: 0 <= j < pool.smallLen ==> NotCurrent(st, pool.small[j])
      ensures Perm(pool.small[..pool.smallLen] + pool.dropped, Offered(st, |st.segs|))
      ensures Below(pool.small[..pool.smallLen], pool.dropped, Weights(st.segs))
    {
      hide SegsMarked, NatMarked, SegInv, Perm, Below, IsHeap, InRange, Ascending, FewestFirst, NotCurrent, Offered;
      ghost var heap, dropped := pool.Heap(), pool.dropped;
      pool.Sort();
      ghost var order := pool.small[..pool.smallLen];
      OrderFacts(B, st, heap, order, dropped);
      forall j | 0 <= j < pool.smallLen ensures NotCurrent(st, pool.small[j]) {
        assert pool.small[j] == order[j];
      }
    }

    /** What a collection has done after its first `k` victims. */
    ghost predicate Progress(st0: State, order: seq<nat>, k: nat, skip: int, seen: seq<State>)
      reads this, segs, cur
    {
      && k <= |order|
      && Pending(st0, Log(), order, k)
      && SkipOk(l2p, order, k, dataCache, skip)
      && |Log().queue| + (if skip >= 0 then 1 else 0) >= |st0.queue|
      && Space(B, Log()) == Space(B, st0) + TotalGain(B, st0, order[..k], skip)
      && Log().used == st0.used
      && (forall u: nat :: Filled(st0, u) ==> Filled(Log(), u))
      && Turns(B, seen, order, k, dataCache, gcHi) && |seen| == k + 1 && seen[0] == st0 && seen[k] == Log()
    }

    /** Collects victims, emptiest first, until enough segments are free.  Every read gives what it
        gave before, and the free space has grown by exactly what the victims held of garbage.
        With two free segments at the start the collector never runs out. */
    method GarbageCollection() 
      returns (r: Outcome, ghost order: seq<nat>, ghost k: nat, ghost skip: int, ghost seen: seq<State>)
      requires Valid(None) && CurSafe() && freeNr > 0
      modifies this`segDirty, this`natDirty, this`freeHead, this`freeTail, this`freeNr, this`usedNr, this`queue, this`steps, this`pages, this`nextPage,
               this`disk, this`l2p, freeNext, segs, cur, table, cache
      ensures Valid(None) && Quiet(old(W()), W())
      ensures old(freeNr) >= 2 ==> !r.Thrown?
      ensures r.Thrown? ==> freeNr == 0
      ensures !r.Thrown? ==>
                && Sweep(B, old(Log()), Log(), poolSize - 1, gcHi, dataCache, order, k, skip, seen)
                && usedNr == old(usedNr)
                && freeNr + (if skip >= 0 then 1 else 0) >= old(freeNr)
      ensures !r.Thrown? && skip >= 0 ==> dataCache in l2p && l2p[dataCache].seg == skip
      ensures !r.Thrown? ==> forall u: nat :: Filled(old(Log()), u) ==> Filled(Log(), u)
      ensures CacheKept(dataCache, old(l2p), l2p)
      ensures old(steps) <= steps
      ensures old(CurLinked()) ==> CurLinked()
      ensures old(CurSafe()) ==> CurSafe()
    {
      hide SafeCurs, SegsMarked, NatMarked, Inv, SegInv, Run, Quiet, SameContents, Perm, Below, FewestFirst, Progress, Manager.Ring, RingOk, NotCurrent, IsHeap,
           CurSafe, CurLinked, Space, TotalGain, Offered, Weights, Filled, Emptiest, Turns, Collects, Sweep;
      ghost var w := W();
      ghost var st0 := Log();
      FreeLen();
      QuietRefl(w);
      InvLog(B, w, l2p, None);
      var pool := SelectVictims();
      order, k, skip := pool.small[..pool.smallLen], 0, -1;
      r := NoSegment;
      seen := [st0];
      ProgressStart(order);
      while freeNr < gcHi
        invariant fresh(pool) && fresh(pool.small) && pool.smallLen <= pool.small.Length
        invariant k == pool.popPtr <= pool.smallLen && order == pool.small[..pool.smallLen]
        invariant Valid(None) && Quiet(w, W())
        invariant FewestFirst(st0, order) && Progress(st0, order, k, skip, seen)
        invariant CacheKept(dataCache, old(l2p), l2p)
        invariant old(steps) <= steps
        invariant old(CurLinked()) ==> CurLinked()
        invariant old(CurSafe()) ==> CurSafe()
        invariant r == NoSegment
        decreases pool.smallLen - pool.popPtr
      {
        var src := pool.Pop();
        if src < 0 { break; }
        ghost var w1 := W();
        FreeLen();
        r, skip, seen := CollectNext(st0, order, k, skip, seen, src);
        QuietTrans(w, w1, W());
        if r.Thrown? {
          return;
        }
        r := NoSegment;
        k := k + 1;
      }
      ProgressEnd(st0, order, k, skip, seen);
      FreeLen();
      SweepDone(B, st0, Log(), poolSize - 1, gcHi, dataCache, order, k, skip, seen);
    }

    lemma ProgressStart(order: seq<nat>)
      requires Valid(None) && FewestFirst(Log(), order)
      requires forall j :: 0 <= j < |order| ==> NotCurrent(Log(), order[j])
      ensures Progress(Log(), order, 0, -1, [Log()])
    {
      hide SegsMarked, NatMarked, Linked, NodesOk, Viewed, Run, RingOk;
      PendingStart(B, Log(), order);
      NoTurn(B, Log(), order, dataCache, gcHi);
    }

    lemma ProgressEnd(st0: State, order: seq<nat>, k: nat, skip: int, seen: seq<State>)
      requires Progress(st0, order, k, skip, seen)
      ensures k <= |order| && Log().used == st0.used
      ensures |Log().queue| + (if skip >= 0 then 1 else 0) >= |st0.queue|
      ensures Space(B, Log()) == Space(B, st0) + TotalGain(B, st0, order[..k], skip)
      ensures forall u: nat :: Filled(st0, u) ==> Filled(Log(), u)
      ensures skip >= 0 ==> dataCache in l2p && l2p[dataCache].seg == skip
      ensures Turns(B, seen, order, k, dataCache, gcHi) && |seen| == k + 1 && seen[0] == st0 && seen[k] == Log()
    {
    }

    /** One turn of the collection. */
    method CollectNext(ghost st0: State, ghost order: seq<nat>, ghost k: nat, ghost skip: int, ghost seen: seq<State>, src: nat)
      returns (r: Outcome, ghost skip': int, ghost seen': seq<State>)
      requires Valid(None) && FewestFirst(st0, order) && Progress(st0, order, k, skip, seen) && SegInv(B, st0) && freeNr < gcHi
      requires k < |order| && src == order[k]
      modifies this`segDirty, this`natDirty, this`freeHead, this`freeTail, this`freeNr, this`usedNr, this`queue, this`steps, this`pages, this`nextPage,
               this`disk, this`l2p, freeNext, segs, cur, table, cache
      ensures Valid(None) && Quiet(old(W()), W())
      ensures r.Thrown? ==> |st0.queue| <= 1 && freeNr == 0
      ensures !r.Thrown? ==> Progress(st0, order, k + 1, skip', seen')
      ensures CacheKept(dataCache, old(l2p), l2p)
      ensures old(steps) <= steps
      ensures old(CurLinked()) ==> CurLinked()
      ensures old(CurSafe()) ==> CurSafe()
    {
      hide SafeCurs, SegsMarked, NatMarked, Inv, SegInv, Run, Quiet, SameContents, RingOk, CollectedSeg, Space, TotalGain, Filled, Linked, Turns, Collects;
      ghost var st := Log();
      ghost var l2p0 := l2p;
      InvLog(B, W(), l2p, None);
      RingLen(queue, freeNext[..], freeHead, freeTail, freeNr);
      ghost var moved, a;
      r, moved, a := CollectSegment(src);
      skip', seen' := skip, seen;
      if r.Thrown? {
        return;
      }
      PendingStep(B, st0, st, Log(), order, k, dataCache, moved, a);
      SkipStep(B, st, Log(), l2p0, l2p, order, k, dataCache, skip, moved, a);
      CollectedFacts(B, st, Log(), src, dataCache, moved, a);
      skip' := if moved < st.segs[src].validNr then src else skip;
      TotalGainStep(B, st0, order, k, skip, skip');
      Collected(B, st, Log(), src, dataCache, moved, a);
      OneTurn(B, seen, Log(), order, k, dataCache, gcHi);
      seen' := seen + [Log()];
    }

    // ----- A write by the file system -----

    /** As long as no more blocks are unused than there were, the free segments stay in the reserve. */
    lemma ScarceNow(st: State, t: nat)
      requires Valid(None) && usedNr >= st.used && segs.Length == |st.segs|
      ensures Scarce(st, t) ==> |queue| <= reserved
    {
      hide SegInv, SegsMarked, NatMarked, Run, RingOk, Linked, NodesOk, Viewed;
      if Scarce(st, t) {
        NoReserve(B, Log(), reserved);
      }
    }

    /** A write of temperature `t` finds a segment: it needs no collection, or enough can be reclaimed. */
    ghost predicate Able(st: State, t: nat) {
      Ample(st, t, reserved) || (0 < poolSize && t < |st.cur| && reserved < gcHi && 2 <= |st.queue| && Reclaims(B, st, poolSize - 1, reserved))
    }

    /** Collects while few segments are free, and says whether one may be taken then. */
    method MakeRoom(force: bool) returns (r: Outcome)
      requires Valid(None) && CurSafe() && 0 < freeNr <= reserved
      modifies this`segDirty, this`natDirty, this`freeHead, this`freeTail, this`freeNr, this`usedNr, this`queue, this`steps, this`pages, this`nextPage,
               this`disk, this`l2p, freeNext, segs, cur, table, cache
      ensures Valid(None) && Quiet(old(W()), W())
      ensures CacheKept(dataCache, old(l2p), l2p)
      ensures r == Thrown(ERR_USER) ==> freeNr == 0 && old(freeNr) == 1
      ensures r != Thrown(ERR_USER) ==>
                && Swept(B, old(Log()), Log(), poolSize - 1, gcHi, dataCache) && freeNr + 1 >= old(freeNr)
                && usedNr == old(usedNr) && forall u: nat :: Filled(old(Log()), u) ==> Filled(Log(), u)
      ensures r.Done? ==> 1 < freeNr && (force || reserved < freeNr)
      ensures r.NoSegment? ==> 1 < freeNr <= reserved && !force
      ensures r.Thrown? ==> freeNr <= 1
      ensures Reclaims(B, old(Log()), poolSize - 1, reserved) && reserved < gcHi && r != Thrown(ERR_USER) ==> freeNr > reserved
      ensures old(steps) <= steps
      ensures old(CurLinked()) ==> CurLinked()
      ensures old(CurSafe()) ==> CurSafe()
    {
      hide SafeCurs, SegsMarked, NatMarked, Inv, SegInv, Run, Quiet, SameContents, CurSafe, CurLinked, Space, TotalGain, Filled, Sweep, Swept, Reclaims;
      ghost var w := W();
      InvLog(B, w, l2p, None);
      RingLen(queue, freeNext[..], freeHead, freeTail, freeNr);
      ghost var order, k, skip, seen;
      r, order, k, skip, seen := GarbageCollection();
      if r.Thrown? {
        return Thrown(ERR_USER);
      }
      RingLen(queue, freeNext[..], freeHead, freeTail, freeNr);
      InvLog(B, W(), l2p, None);
      SweepEnd(B, w.st, Log(), poolSize - 1, gcHi, reserved, dataCache, order, k, skip, seen);
      if freeNr <= 1 {
        return Thrown(ERR_NO_SPACE);
      } else if !force && freeNr <= reserved {
        return NoSegment;
      }
      r := Done(Loc(0, 0));
    }

    /** Gives temperature `temp` a current segment, collecting first when few segments are free: the answer
        is what the collection leaves free, and it finds a segment whenever enough can be reclaimed. */
    method AllocSegment(temp: nat, force: bool) returns (r: Outcome)
      requires Valid(None) && CurSafe() && temp < TEMP_NR && cur[temp].segNo == -1
      modifies this`segDirty, this`natDirty, this`freeHead, this`freeTail, this`freeNr, this`usedNr, this`queue, this`steps, this`pages, this`nextPage,
               this`disk, this`l2p, freeNext, segs, cur, table, cache
      ensures Valid(None) && Quiet(old(W()), W())
      ensures CacheKept(dataCache, old(l2p), l2p)
      ensures r.Done? ==> cur[temp].segNo != -1 && (reserved > 0 ==> freeNr > 0)
      ensures r.NoSegment? ==> !force && 2 <= freeNr <= reserved
      ensures r == Thrown(ERR_USER) ==> freeNr == 0 && (old(freeNr) == 0 || old(freeNr) == 1 <= reserved)
      ensures r.Thrown? ==> freeNr <= 1
      ensures old(freeNr) > reserved ==> r.Done? && Calm(B, old(Log()), temp, Log()) && Steady(old(W()), W(), {})
      ensures r.Done? ==> cur[temp].off == 0 && usedNr == old(usedNr)
      ensures old(freeNr) > reserved ==> Took(B, old(Log()), Log(), temp)
      ensures old(freeNr) <= reserved && r != Thrown(ERR_USER) ==>
                Refilled(B, old(Log()), Log(), temp, poolSize - 1, gcHi, dataCache, r.Done?, force, reserved)
      ensures Reclaims(B, old(Log()), poolSize - 1, reserved) && reserved < gcHi && 2 <= old(freeNr) ==> r.Done?
      ensures r.Done? && !force ==> freeNr >= reserved
      ensures r.NoSegment? ==> Swept(B, old(Log()), Log(), poolSize - 1, gcHi, dataCache)
      ensures old(freeNr) == 0 ==> r == Thrown(ERR_USER)
      ensures !force && Scarce(old(Log()), temp) ==> r.NoSegment?
      ensures old(steps) <= steps
      ensures old(CurLinked()) ==> CurLinked()
      ensures old(CurSafe()) ==> CurSafe()
    {
      hide SafeCurs, SegsMarked, NatMarked, Inv, SegInv, Run, Quiet, SameContents, CurSafe, CurLinked, Space, TotalGain, Filled, Swept, Refilled, Took, Reclaims, DoAlloc;
      QuietRefl(W());
      if freeNr == 0 {
        return Thrown(ERR_USER);
      }
      ghost var w := W();
      FilledWithout(Log(), temp);
      RingLen(queue, freeNext[..], freeHead, freeTail, freeNr);
      ScarceNow(w.st, temp);
      if freeNr <= reserved {
        r := MakeRoom(force);
        if !r.Done? {
          if r != Thrown(ERR_USER) {
            RingLen(queue, freeNext[..], freeHead, freeTail, freeNr);
            ScarceNow(w.st, temp);
            Untaken(B, w.st, Log(), temp, poolSize - 1, gcHi, dataCache, force, reserved);
          }
          return;
        }
        ScarceNow(w.st, temp);
      }
      ghost var w1 := W();
      AllocEnabled(B, w1, l2p, temp);
      RingLen(queue, freeNext[..], freeHead, freeTail, freeNr);
      TakeSegment(temp);
      RingLen(queue, freeNext[..], freeHead, freeTail, freeNr);
      TakenNow(B, w.st, w1.st, Log(), temp, poolSize - 1, gcHi, dataCache, force, reserved);
      QuietLog(w1, W());
      QuietTrans(w, w1, W());
      r := Done(Loc(cur[temp].segNo, 0));
    }

    /** Gives the temperature of the page a current segment if it has none.  The collection this may
        start moves blocks under the caller, but not the block that waits to be written. */
    method OpenSegment(pid: int, force: bool) returns (r: Outcome)
      requires Valid(None) && Ready(pid) && CurSafe() && dataCache == Owner(pid)
      modifies this`segDirty, this`natDirty, this`freeHead, this`freeTail, this`freeNr, this`usedNr, this`queue, this`steps, this`pages, this`nextPage,
               this`disk, this`l2p, freeNext, segs, cur, table, cache
      ensures Valid(None) && Quiet(old(W()), W()) && old(steps) <= steps
      ensures r.Done? ==>
                && Ready(pid) && Owner(pid) == old(Owner(pid)) && cur[OwnerTemp(Owner(pid))].segNo != -1
                && usedNr == old(usedNr) && (pages[pid].phy.Some? <==> old(Owner(pid)) in old(l2p))
      ensures r.NoSegment? ==> !force && 2 <= freeNr <= reserved
      ensures r.Thrown? ==> freeNr <= 1
      ensures Able(old(Log()), OwnerTemp(old(Owner(pid)))) ==> r.Done?
      ensures r.NoSegment? ==> Swept(B, old(Log()), Log(), poolSize - 1, gcHi, dataCache)
      ensures r.Done? && !force ==> freeNr >= old(freeNr) || freeNr >= reserved
      ensures Ample(old(Log()), OwnerTemp(old(Owner(pid))), reserved) ==> r.Done? && Steady(old(W()), W(), {})
      ensures r.Done? ==> Opens(B, old(Log()), OwnerTemp(old(Owner(pid))), reserved, Log())
      ensures !force && Scarce(old(Log()), OwnerTemp(old(Owner(pid)))) ==> r.NoSegment?
      ensures old(CurLinked()) ==> CurLinked()
      ensures old(CurSafe()) ==> CurSafe()
    {
      hide Calm, Steady, Swept, Refilled, Took, Reclaims, SafeCurs, SegsMarked, NatMarked, Inv, SegInv, Run, RingOk, Quiet, Gentle, SameContents, PageReady, CurSafe, CurLinked, NodeBlock, Fwd, Reads, Enabled;
      ghost var w := W();
      ghost var o := Owner(pid);
      var temp := if pages[pid].offset < 0 then HOT_NODE else HOT_DATA;
      r := Done(Loc(0, 0));
      QuietRefl(w);
      SteadyRefl(w);
      RingLen(queue, freeNext[..], freeHead, freeTail, freeNr);
      GcWriteStart(B, w, l2p, pid, o);
      if cur[temp].segNo == -1 {
        r := AllocSegment(temp, force);
      }
      if r.Done? {
        StillReady(B, w, W(), old(l2p), l2p, pid, o);
        OwnedStill(B, w, W(), old(l2p), l2p, pid, o);
      }
    }

    /** A block write by the file system.  The collection it may start moves blocks under the
        caller, but not the block that is being written: afterwards the page still knows where its
        block lives, so the old place is invalidated once and every other read is unchanged. */
    method WriteBlockToSeg(pid: int, force: bool) returns (r: Outcome)
      requires Valid(None) && Ready(pid) && CurSafe()
      modifies this`segDirty, this`natDirty, this`freeHead, this`freeTail, this`freeNr, this`usedNr, this`queue, this`steps, this`pages, this`nextPage,
               this`disk, this`l2p, this`dataCache, freeNext, segs, cur, table, cache
      ensures r.Done? ==>
                && Valid(Some(old(Owner(pid)))) && OldLoc(l2p, old(Owner(pid))) == Some(r.loc)
                && SameExcept(old(W()), W(), old(Owner(pid)))
                && pid in pages && pages[pid].phy == Some(r.loc) && !pages[pid].dirty
                && r.loc in disk && disk[r.loc] == pages[pid].data
                && CacheStays(old(W()), W())
      ensures r.Done? && old(pages[pid].offset) == -1 ==> SameContents(old(W()), W()) && IsNode(pages[pid].data) && pages[pid].data.nid == old(pages[pid].nid)
      ensures r.Done? && old(pages[pid].offset) != -1 ==> pages[pid].data == old(pages[pid].data)
      ensures r.Done? || r.NoSegment? ==> dataCache == NO_OWNER
      ensures !r.Done? ==> Valid(None) && Quiet(old(W()), W())
      ensures r.NoSegment? ==> !force && 2 <= freeNr <= reserved
      ensures r.Thrown? ==> freeNr <= 1
      ensures Able(old(Log()), OwnerTemp(old(Owner(pid)))) ==> r.Done?
      ensures r.NoSegment? ==> Swept(B, old(Log()), Log(), poolSize - 1, gcHi, old(Owner(pid)))
      ensures r.Done? && !force ==> freeNr >= old(freeNr) || freeNr >= reserved
      ensures Ample(old(Log()), OwnerTemp(old(Owner(pid))), reserved) ==>
                r.Done? && Calm(B, old(Log()), OwnerTemp(old(Owner(pid))), Log()) && Steady(old(W()), W(), {pid})
      ensures r.Done? ==> usedNr + (if old(Owner(pid)) in old(l2p) then 1 else 0) == old(usedNr) + 1
      ensures !force && Scarce(old(Log()), OwnerTemp(old(Owner(pid)))) ==> r.NoSegment?
      ensures old(CurLinked()) ==> CurLinked()
      ensures old(CurSafe()) ==> CurSafe()
      ensures old(steps) <= steps
    {
      hide Calm, Ample, Manager.Able, Swept, Opens, Steady, SafeCurs, SegsMarked, NatMarked, Inv, SegInv, Run, RingOk, Quiet, Gentle, SameContents, SameExcept, PageReady, CurSafe,
           CurLinked, BlockWritten, CacheStays,
           MoveStep, NodeBlock, Fwd, Reads, Manager.Scarce, Manager.Traced, Manager.PagesOk, Manager.Ring;
      ghost var w := W();
      ghost var o := Owner(pid);
      var page := pages[pid];
      dataCache := Summary(page.nid, page.offset);
      DataPageUncached(w, l2p, pid, o);
      FreeLen();
      r := OpenSegment(pid, force);
      if r.NoSegment? {
        dataCache := NO_OWNER;
      }
      if !r.Done? {
        return;
      }
      ghost var w1, l2p1 := W(), l2p;
      FreeLen();
      var phy := PlaceBlock(pid, false);
      FreeLen();
      CalmThen(B, w.st, w1.st, Log(), OwnerTemp(o), reserved);
      WriteEnd(B, w, w1, W(), l2p1, pid, o);
      SteadyWrite(B, w, w1, W(), l2p1, pid, o);
      dataCache := NO_OWNER;
      return Done(phy);
    }

    // ----- What the file system does with it -----

    /** Flushes a cached node: afterwards the table leads to a block that holds what is cached. */
    method WriteNode(nid: int, force: bool) returns (r: Outcome)
      requires Valid(None) && CurSafe() && 0 <= nid < table.Length && cache[nid] >= 0
      modifies this`segDirty, this`natDirty, this`freeHead, this`freeTail, this`freeNr, this`usedNr, this`queue, this`steps, this`pages, this`nextPage,
               this`disk, this`l2p, this`dataCache, freeNext, segs, cur, table, cache
      ensures Valid(None) && SameContents(old(W()), W()) && CacheStays(old(W()), W())
      ensures r.Done? ==>
                && cache[nid] == old(cache[nid]) && cache[nid] in pages && !pages[cache[nid]].dirty
                && table[nid] == At(r.loc) && r.loc in disk && disk[r.loc] == pages[cache[nid]].data
      ensures !r.Done? && !old(table[nid].At?) ==> !table[nid].At?
      ensures r.NoSegment? ==> !force && 2 <= freeNr <= reserved
      ensures old(freeNr) > reserved ==> r.Done?
      ensures r.Thrown? ==> freeNr <= 1
      ensures Able(old(Log()), HOT_NODE) ==> r.Done?
      ensures r.NoSegment? ==> Swept(B, old(Log()), Log(), poolSize - 1, gcHi, Summary(nid, -1))
      ensures r.Done? && !force ==> freeNr >= old(freeNr) || freeNr >= reserved
      ensures Ample(old(Log()), HOT_NODE, reserved) ==> r.Done? && Calm(B, old(Log()), HOT_NODE, Log()) && Steady(old(W()), W(), {old(cache[nid])})
      ensures r.Done? ==> usedNr + (if old(table[nid].At?) then 1 else 0) == old(usedNr) + 1
      ensures !force && Scarce(old(Log()), HOT_NODE) ==> r.NoSegment?
      ensures old(CurLinked()) ==> CurLinked()
      ensures old(CurSafe()) ==> CurSafe()
      ensures old(steps) <= steps
    {
      hide Calm, Manager.Able, Swept, Steady, Manager.Scarce, SafeCurs, SegsMarked, NatMarked, Inv, SegInv, Run, RingOk, Quiet, SameContents, SameExcept, PageReady, CurSafe, CurLinked, NodeBlock, Fwd, Reads;
      CachedReady(B, W(), l2p, nid);
      var pid := cache[nid];
      ghost var w := W();
      RingLen(queue, freeNext[..], freeHead, freeTail, freeNr);
      NodeMapped(B, w, l2p, nid);
      r := WriteBlockToSeg(pid, force);
      if r.Done? {
        ghost var w1 := W();
        SetPhyBlk(nid, r.loc);
        SameTrans(w, w1, W());
        SteadySame(w, w1, W(), {pid});
      } else {
        QuietSame(w, W());
        QuietUnwritten(w, W(), nid);
      }
    }

    /** Writes one block of a file through its cached index node. */
    method WriteData(nid: int, off: int, tag: Tag, force: bool) returns (r: Outcome)
      requires Valid(None) && CurSafe() && 0 <= nid < table.Length && cache[nid] >= 0 && cache[nid] in pages
      requires pages[cache[nid]].data.Index? && 0 <= off < |pages[cache[nid]].data.ptrs|
      modifies this`segDirty, this`natDirty, this`freeHead, this`freeTail, this`freeNr, this`usedNr, this`queue, this`steps, this`pages, this`nextPage,
               this`disk, this`l2p, this`dataCache, freeNext, segs, cur, table, cache
      ensures Valid(None)
      ensures r.Done? ==> SameExcept(old(W()), W(), Summary(nid, off)) && Reads(W(), Summary(nid, off)) == Some(Data(tag))
      ensures !r.Done? ==> SameContents(old(W()), W())
      ensures CacheStays(old(W()), W())
      ensures r.NoSegment? ==> !force && 2 <= freeNr <= reserved
      ensures old(freeNr) > reserved ==> r.Done?
      ensures Able(old(Log()), HOT_DATA) ==> r.Done?
      ensures r.NoSegment? ==> Swept(B, old(Log()), Log(), poolSize - 1, gcHi, Summary(nid, off))
      ensures r.Done? && !force ==> freeNr >= old(freeNr) || freeNr >= reserved
      ensures Ample(old(Log()), HOT_DATA, reserved) ==> r.Done? && Calm(B, old(Log()), HOT_DATA, Log())
      ensures r.Done? ==> usedNr + (if Summary(nid, off) in old(l2p) then 1 else 0) == old(usedNr) + 1
      ensures !force && Scarce(old(Log()), HOT_DATA) ==> r.NoSegment?
      ensures old(CurLinked()) ==> CurLinked()
      ensures old(CurSafe()) ==> CurSafe()
      ensures old(steps) <= steps
    {
      hide Calm, Manager.Able, Swept, Manager.Scarce, SafeCurs, SegsMarked, NatMarked, Inv, SegInv, Run, RingOk, Quiet, SameContents, SameExcept, PageReady, CurSafe, CurLinked, NodeBlock, Fwd, Reads;
      ghost var w := W();
      ghost var o := Summary(nid, off);
      var pid := NewData(nid, off, tag);
      ghost var w1 := W();
      ghost var l2p1 := l2p;
      RingLen(queue, freeNext[..], freeHead, freeTail, freeNr);
      r := WriteBlockToSeg(pid, force);
      if r.Done? {
        ghost var w2 := W();
        IndexStays(B, w1, w2, l2p1, l2p, nid, off);
        SetIndex(nid, off, Some(r.loc));
        ExceptSame(w, w1, o);
        ExceptTrans(w, w1, w2, o);
        ExceptTrans(w, w2, W(), o);
      } else {
        QuietSame(w1, W());
        SameTrans(w, w1, W());
      }
    }

    /** A page for the new content of a file block, told where the old content lives. */
    method NewData(nid: int, off: int, tag: Tag) returns (pid: int)
      requires Valid(None) && 0 <= nid < table.Length && cache[nid] >= 0 && cache[nid] in pages
      requires pages[cache[nid]].data.Index? && 0 <= off < |pages[cache[nid]].data.ptrs|
      modifies this`pages, this`nextPage
      ensures Valid(None) && SameContents(old(W()), W())
      ensures pid in pages && Owner(pid) == Summary(nid, off) && pages[pid].data == Data(tag)
      ensures Ready(pid) && Log() == old(Log()) && l2p == old(l2p)
      ensures forall p :: p in old(pages) ==> p in pages && pages[p] == old(pages[p])
    {
      hide SegsMarked, NatMarked, SegInv, Linked, Roomy, NodesOk, Run, SameContents, RingOk, PageReady;
      ghost var w := W();
      ViewedAt(w, l2p, Summary(nid, off));
      pid := nextPage;
      var page := Page(pages[cache[nid]].data.ptrs[off], nid, off, false, Data(tag));
      nextPage := nextPage + 1;
      pages := pages[pid := page];
      AddPage(B, w, W(), l2p, pid, page);
      DataReady(W(), l2p, pid, Summary(nid, off));
    }

    /** Truncates one block: the block is invalidated once and its pointer cleared. */
    method TruncateBlock(nid: int, off: int)
      requires Valid(None) && 0 <= nid < table.Length && cache[nid] >= 0 && cache[nid] in pages
      requires pages[cache[nid]].data.Index? && 0 <= off < |pages[cache[nid]].data.ptrs|
      modifies this`segDirty, this`freeHead, this`freeTail, this`freeNr, this`usedNr, this`queue, this`steps, this`pages, this`l2p,
               freeNext, segs
      ensures Valid(None)
      ensures SameExcept(old(W()), W(), Summary(nid, off)) && Reads(W(), Summary(nid, off)) == None
      ensures usedNr + (if Summary(nid, off) in old(l2p) then 1 else 0) == old(usedNr) && l2p == old(l2p) - {Summary(nid, off)}
      ensures cache[nid] in pages && pages[cache[nid]].data == SetPtr(old(pages[cache[nid]].data), off, None)
      ensures forall p :: p in old(pages) && p != cache[nid] ==> p in pages && pages[p] == old(pages[p])
      ensures old(CurLinked()) ==> CurLinked()
      ensures freeNr >= old(freeNr)
      ensures old(steps) <= steps
    {
      hide SegsMarked, NatMarked, SegInv, Linked, Roomy, NodesOk, Viewed, Run, SameContents, SameExcept, RingOk, Enabled, DoInvalidate;
      ghost var w := W();
      ghost var o := Summary(nid, off);
      ViewedAt(w, l2p, o);
      var phy := pages[cache[nid]].data.ptrs[off];
      if phy.Some? {
        DropStart(B, w, l2p, o);
        DropKeeps(B, w, l2p, o);
        InvalidBlock(phy.value);
        l2p := l2p - {o};
        ghost var w1 := W();
        SetIndex(nid, off, None);
        ExceptTrans(w, w1, W(), o);
      } else {
        SameRefl(w);
        ExceptSame(w, w, o);
      }
    }

    // ----- Creating, changing and removing nodes -----

    /** Marks a free identifier as used. */
    method ClaimNode(nid: nat)
      requires Valid(None) && nid < table.Length && table[nid] == Unused && cache[nid] < 0
      modifies this`natDirty, table
      ensures Valid(None) && SameContents(old(W()), W()) && table[..] == old(table[..])[nid := InUse]
    {
      hide SegsMarked, NatMarked, Inv, Run, RingOk, SameContents;
      ghost var w := W();
      SetNat(nid, InUse);
      ClaimKeeps(B, w, W(), l2p, nid);
    }

    /** A new node in the cache, not written yet. */
    method CreateNode(nid: nat, b: Block)
      requires Valid(None) && nid < table.Length && table[nid] == InUse && cache[nid] < 0
      requires IsNode(b) && b.nid == nid && Bare(b)
      modifies this`pages, this`nextPage, cache
      ensures Valid(None) && SameExcept(old(W()), W(), Summary(nid, -1)) && Reads(W(), Summary(nid, -1)) == Some(b)
      ensures cache[nid] >= 0 && cache[nid] in pages && pages[cache[nid]].data == b
      ensures forall n :: 0 <= n < cache.Length && n != nid ==> cache[n] == old(cache[n])
      ensures forall p :: p in old(pages) ==> p in pages && pages[p] == old(pages[p])
    {
      hide SegsMarked, NatMarked, Inv, Run, RingOk, SameExcept, Reads;
      ghost var w := W();
      var pid := nextPage;
      nextPage := nextPage + 1;
      pages := pages[pid := Page(None, nid, -1, true, b)];
      cache[nid] := pid;
      CreateKeeps(B, w, W(), l2p, nid, pid, b);
    }

    /** Changes a cached inode. */
    method SetInode(nid: nat, body: InodeBody)
      requires Valid(None) && nid < table.Length && cache[nid] >= 0 && cache[nid] in pages && pages[cache[nid]].data.Inode?
      modifies this`pages
      ensures Valid(None) && SameExcept(old(W()), W(), Summary(nid, -1)) && Reads(W(), Summary(nid, -1)) == Some(Inode(nid, body))
      ensures cache[nid] in pages && pages[cache[nid]].data == Inode(nid, body)
      ensures forall p :: p in old(pages) && p != cache[nid] ==> p in pages && pages[p] == old(pages[p])
    {
      hide SegsMarked, NatMarked, Inv, Run, RingOk, SameExcept, Reads;
      ghost var w := W();
      pages := pages[cache[nid] := pages[cache[nid]].(data := Inode(nid, body), dirty := true)];
      InodeSetKeeps(B, w, W(), l2p, nid, body);
    }

    /** Drops the page of a node that needs no writing. */
    method Decache(nid: nat)
      requires Valid(None) && nid < cache.Length && cache[nid] >= 0 && cache[nid] in pages && !pages[cache[nid]].dirty
      modifies cache
      ensures Valid(None) && SameContents(old(W()), W()) && cache[..] == old(cache[..])[nid := -1]
    {
      hide SegsMarked, NatMarked, Inv, Run, RingOk, SameContents;
      ghost var w := W();
      cache[nid] := -1;
      DecacheKeeps(B, w, W(), l2p, nid);
    }

    /** Gives up the block of a node, if it has one. */
    method VacateNode(nid: nat)
      requires Valid(None) && nid < table.Length
      modifies this`segDirty, this`freeHead, this`freeTail, this`freeNr, this`usedNr, this`queue, this`steps, freeNext, segs
      ensures Ring() && Traced() && SegsMarked() && W() == old(W()).(st := Log())
      ensures table[nid].At? ==> SegInv(B, old(Log())) && Enabled(B, old(Log()), Invalidate(table[nid].loc))
      ensures Log() == if table[nid].At? then DoInvalidate(old(Log()), table[nid].loc) else old(Log())
      ensures usedNr + (if Summary(nid, -1) in l2p then 1 else 0) == old(usedNr)
      ensures !table[nid].At? && old(CurSafe()) ==> CurSafe()
      ensures old(CurLinked()) ==> CurLinked()
      ensures old(steps) <= steps
    {
      hide Manager.CurSafe, Manager.PagesOk, SegsMarked, NatMarked, Inv, SegInv, Run, RingOk, Enabled, DoInvalidate;
      if table[nid].At? {
        NodeEnabled(B, W(), l2p, nid);
        InvalidBlock(table[nid].loc);
      } else {
        NodeHere(B, W(), l2p, nid);
      }
    }

    /** Gives a node that leads nowhere back, cached or not: its block, if it has one, is invalidated
        once. */
    method ReleaseNode(nid: nat)
      requires Valid(None) && nid < table.Length && (NodeBlock(W(), nid).None? || Bare(NodeBlock(W(), nid).value))
      modifies this`segDirty, this`natDirty, this`freeHead, this`freeTail, this`freeNr, this`usedNr, this`queue, this`steps, this`l2p, freeNext, segs, table, cache
      ensures Valid(None) && SameExcept(old(W()), W(), Summary(nid, -1)) && Reads(W(), Summary(nid, -1)) == None
      ensures usedNr + (if Summary(nid, -1) in old(l2p) then 1 else 0) == old(usedNr) && l2p == old(l2p) - {Summary(nid, -1)}
      ensures table[..] == old(table[..])[nid := Unused] && cache[..] == old(cache[..])[nid := -1]
      ensures !old(table[nid].At?) && old(CurSafe()) ==> CurSafe()
      ensures old(CurLinked()) ==> CurLinked()
      ensures old(steps) <= steps
    {
      hide Manager.CurSafe, Manager.CurLinked, Manager.PagesOk, SegsMarked, NatMarked, Inv, SegInv, Run, RingOk, SameExcept, Reads, Enabled, DoInvalidate,
           NodeBlock;
      ghost var w := W();
      CacheSized(B, w, l2p);
      VacateNode(nid);
      l2p := l2p - {Summary(nid, -1)};
      cache[nid] := -1;
      SetNat(nid, Unused);
      ReleaseKeeps(B, w, W(), old(l2p), nid);
    }

    // ----- Syncing -----

    /** Writes a cached node that waits for it. */
    method FlushMarked(nid: nat) returns (r: Outcome)
      requires Valid(None) && CurSafe() && nid < table.Length && cache[nid] >= 0 && Marked(W(), nid)
      modifies this`segDirty, this`natDirty, this`freeHead, this`freeTail, this`freeNr, this`usedNr, this`queue, this`steps, this`pages, this`nextPage,
               this`disk, this`l2p, this`dataCache, freeNext, segs, cur, table, cache
      ensures Valid(None) && CurSafe() && SameContents(old(W()), W()) && CacheStays(old(W()), W()) && old(steps) <= steps
      ensures old(CurLinked()) ==> CurLinked()
      ensures !r.Done? ==> r.Thrown? && freeNr <= 1
      ensures r.Done? ==> !Marked(W(), nid)
      ensures Enough(old(W()), reserved) ==> r.Done? && Enough(W(), reserved) && forall n: nat :: Clean(old(W()), n) ==> Clean(W(), n)
      ensures Enough(old(W()), reserved) ==> NodesOnly(old(Log()), Log())
    {
      hide Manager.Ring, Manager.Traced, SafeCurs, SegsMarked, NatMarked, Inv, SameContents, CurSafe, CurLinked, CacheStays, Enough, Clean, Ample, Calm, Steady, DirtyNr, NodesOnly;
      ghost var w, l2p0 := W(), l2p;
      assert reserved >= 0 && cur.Length == TEMP_NR;
      if Enough(w, reserved) {
        EnoughAmple(w, reserved, nid);
      }
      r := WriteNode(nid, true);
      if Enough(w, reserved) {
        EnoughLeft(B, w, W(), l2p0, nid, reserved);
        CalmNodes(B, w.st, Log());
      }
    }

    /** One round of flushing: the dirty index nodes first, then every dirty node.  It stops at a write
        that finds no segment even after a collection.  A collection during the round can make a node
        dirty again that was flushed before; with enough free segments there is none. */
    method SyncNodePage() returns (r: Outcome)
      requires Valid(None) && CurSafe()
      modifies this`segDirty, this`natDirty, this`freeHead, this`freeTail, this`freeNr, this`usedNr, this`queue, this`steps, this`pages, this`nextPage,
               this`disk, this`l2p, this`dataCache, freeNext, segs, cur, table, cache
      ensures Valid(None) && CurSafe() && SameContents(old(W()), W()) && CacheStays(old(W()), W()) && old(steps) <= steps
      ensures old(CurLinked()) ==> CurLinked()
      ensures !r.Done? ==> r.Thrown? && freeNr <= 1
      ensures Enough(old(W()), reserved) ==> r.Done? && NoDirty(W()) && NodesOnly(old(Log()), Log())
    {
      hide SafeCurs, SegsMarked, NatMarked, Inv, SegInv, Run, RingOk, SameContents, CurSafe, CurLinked, NodeBlock, Fwd, Reads, CacheStays, Enough, Clean, DirtyNr, NoDirty, NodesOnly;
      ghost var w := W();
      SameRefl(w);
      StaysRefl(w);
      NodesRefl(w.st);
      var phase := 0;
      while phase < 2
        invariant phase <= 2 && Valid(None) && CurSafe() && SameContents(w, W()) && CacheStays(w, W()) && old(steps) <= steps
        invariant old(CurLinked()) ==> CurLinked()
        invariant Enough(w, reserved) ==> Enough(W(), reserved) && NodesOnly(w.st, Log()) && (phase == 2 ==> NoDirty(W()))
      {
        var ii := 0;
        NoneClean(W());
        while ii < table.Length
          invariant ii <= table.Length && Valid(None) && CurSafe() && SameContents(w, W()) && CacheStays(w, W()) && old(steps) <= steps
          invariant old(CurLinked()) ==> CurLinked()
          invariant Enough(w, reserved) ==> Enough(W(), reserved) && NodesOnly(w.st, Log()) && (phase == 1 ==> Clean(W(), ii))
        {
          if cache[ii] >= 0 {
            CachedReady(B, W(), l2p, ii);
            var page := pages[cache[ii]];
            if page.dirty && (phase == 1 || page.data.Index?) {
              ghost var w1 := W();
              r := FlushMarked(ii);
              SameTrans(w, w1, W());
              StaysTrans(w, w1, W());
              NodesTrans(w.st, w1.st, Log());
              if !r.Done? {
                return;
              }
            }
          }
          if phase == 1 && Enough(w, reserved) {
            CleanMore(W(), ii);
          }
          ii := ii + 1;
        }
        AllClean(W());
        phase := phase + 1;
      }
      r := Done(Loc(0, 0));
    }

    lemma LinkedSafe()
      requires CurLinked()
      ensures CurSafe()
    {
    }

    method DirtyNodeNr() returns (n: nat)
      requires Valid(None)
      ensures n == DirtyNr(W(), table.Length)
      ensures n == 0 <==> NoDirty(W())
    {
      hide SegsMarked, NatMarked, Inv, Run, RingOk;
      n := 0;
      var ii := 0;
      while ii < table.Length
        invariant ii <= table.Length && n == DirtyNr(W(), ii)
      {
        if cache[ii] in pages && pages[cache[ii]].dirty {
          n := n + 1;
        }
        ii := ii + 1;
      }
      CleanNone(W(), table.Length);
      AllClean(W());
    }

    /** Flushes in rounds until no node is dirty; `worlds` are the states before the first round and
        after each.  It succeeds exactly when no round raises an error and one of the first ten of them
        has no dirty node: ten rounds end in an error whatever the tenth achieved.  A round that raises an
        error leaves one free segment or none; with a free segment above the reserve for every dirty
        node the first round is the last.  On success a checkpoint may be written: every node is on
        the medium. */
    method SyncFs() returns (ok: bool, ghost worlds: seq<World>, ghost raised: bool)
      requires Valid(None) && CurSafe()
      modifies this`segDirty, this`natDirty, this`freeHead, this`freeTail, this`freeNr, this`usedNr, this`queue, this`steps, this`pages, this`nextPage,
               this`disk, this`l2p, this`dataCache, freeNext, segs, cur, table, cache
      ensures Valid(None) && CurSafe() && SameContents(old(W()), W()) && CacheStays(old(W()), W()) && old(steps) <= steps
      ensures old(CurLinked()) ==> CurLinked()
      ensures 0 < |worlds| <= 11 && worlds[0] == old(W()) && worlds[|worlds| - 1] == W()
      ensures forall i :: 0 <= i < |worlds| - 1 ==> !NoDirty(worlds[i])
      ensures ok <==> !raised && |worlds| <= 10
      ensures raised ==> freeNr <= 1
      ensures old(freeNr) >= reserved + DirtyNr(old(W()), table.Length) ==> ok && |worlds| <= 2 && NodesOnly(old(Log()), Log())
      ensures ok ==> NoDirty(W())
      ensures old(NoDirty(W())) ==> ok && W() == old(W()) && steps == old(steps)
    {
      hide SafeCurs, SegsMarked, NatMarked, Inv, SegInv, Run, RingOk, SameContents, CurSafe, CurLinked, NodeBlock, Fwd, Reads, NoDirty, CacheStays, DirtyNr, NodesOnly;
      ghost var w := W();
      SameRefl(w);
      StaysRefl(w);
      NodesRefl(w.st);
      FreeIsQueue();
      worlds, raised := [w], false;
      var retry := 10;
      while retry > 0
        invariant 0 <= retry <= 10 && Valid(None) && CurSafe() && SameContents(w, W()) && CacheStays(w, W()) && old(steps) <= steps
        invariant old(CurLinked()) ==> CurLinked()
        invariant !raised && |worlds| == 11 - retry && worlds[0] == w && worlds[|worlds| - 1] == W()
        invariant forall i :: 0 <= i < |worlds| - 1 ==> !NoDirty(worlds[i])
        invariant retry == 10 ==> W() == w && steps == old(steps)
        invariant Enough(w, reserved) ==> NodesOnly(w.st, Log()) && (retry == 10 || (retry == 9 && NoDirty(W())))
      {
        var dirty := DirtyNodeNr();
        if dirty == 0 {
          return true, worlds, false;
        }
        ghost var w1 := W();
        var r := SyncNodePage();
        SameTrans(w, w1, W());
        StaysTrans(w, w1, W());
        worlds := worlds + [W()];
        if !r.Done? {
          return false, worlds, true;
        }
        retry := retry - 1;
      }
      return false, worlds, false;
    }

    // ----- Building the tables -----

    /** Rebuilds the free queue and the use count from the segment table: at a mount every segment
        without a valid block that is not current is free. */
    method BuildFreeLink()
      requires Arrays() && Loadable(B, segs[..], cur[..], disk)
      modifies this`freeHead, this`freeTail, this`freeNr, this`usedNr, this`queue, freeNext, segs
      ensures Ring() && SegInv(B, Log())
      ensures forall s :: 0 <= s < segs.Length ==> segs[s] == FreshTemp(old(segs[s]), cur[..], s)
      ensures forall t :: 0 <= t < cur.Length && cur[t].segNo != -1 ==>
                0 <= cur[t].segNo < freeNext.Length && freeNext[cur[t].segNo] == -1
      ensures disk == old(disk)
    {
      hide SegsMarked, NatMarked, RingOk, SegInv, Building, Loadable, SumValid, FreshTemp, Distinct;
      ghost var org := segs[..];
      freeTail, freeHead, freeNr, usedNr, queue := -1, -1, 0, 0, [];
      RingEmpty(freeNext[..]);
      BuildStart(org, cur[..], freeNext[..]);
      var ii := 0;
      while ii < segs.Length
        invariant ii <= segs.Length && Ring()
        invariant Building(org, cur[..], segs[..], queue, usedNr, freeNext[..], ii)
      {
        BuildFacts(org, cur[..], segs[..], queue, usedNr, freeNext[..], ii);
        ghost var s, q, u, n := segs[..], queue, usedNr, freeNext[..];
        var seg := segs[ii];
        usedNr := usedNr + seg.validNr;
        if seg.validNr == 0 && (seg.temp >= cur.Length || cur[seg.temp].segNo != ii) {
          segs[ii] := seg.(temp := TEMP_NR);
          FreeEnQueue(ii);
          BuildFree(org, cur[..], s, q, u, n, freeNext[..], ii);
        } else {
          LinkMark(ii);
          BuildMark(B, org, cur[..], disk, s, q, u, n, ii);
        }
        ii := ii + 1;
      }
      BuildEnd(B, org, cur[..], disk, Log(), freeNext[..]);
    }

    /** Marks a segment in use. */
    method LinkMark(ii: nat)
      requires Ring() && ii < freeNext.Length && ii !in queue
      modifies freeNext
      ensures Ring() && freeNext[ii] == -1 && freeNext[..] == old(freeNext[..])[ii := -1]
      ensures forall j :: 0 <= j < freeNext.Length && j != ii ==> freeNext[j] == old(freeNext[j])
    {
      freeNext[ii] := -1;
    }
  }
}
