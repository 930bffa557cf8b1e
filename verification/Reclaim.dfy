/** What a collection brings: the victims are the emptiest segments, and when these hold enough garbage
    the free segments rise above the reserve. */
module Reclaim {
  import opened Basics
  import opened Segments
  import opened Mapping

  // ----- A collection as a whole -----

  /** The victims: of the segments that are not current the emptiest `room`, or all, fewest valid blocks
      first. */
  ghost predicate Emptiest(st: State, room: nat, order: seq<nat>) {
    && FewestFirst(st, order) && |order| <= room
    && (forall j :: 0 <= j < |order| ==> NotCurrent(st, order[j]))
    && (forall s: nat :: s < |st.segs| && NotCurrent(st, s) && s !in order ==> |order| == room && HeavierThan(st, order, s))
  }

  ghost predicate HeavierThan(st: State, order: seq<nat>, s: nat)
    requires s < |st.segs|
  {
    forall j :: 0 <= j < |order| && order[j] < |st.segs| ==> st.segs[order[j]].validNr <= st.segs[s].validNr
  }

  /** One segment is collected. */
  ghost predicate Collects(B: nat, st: State, st': State, src: nat, cached: Summary) {
    exists moved: nat, a: nat :: CollectedSeg(B, st, st', src, cached, moved, a)
  }

  lemma Collected(B: nat, st: State, st': State, src: nat, cached: Summary, moved: nat, a: nat)
    requires CollectedSeg(B, st, st', src, cached, moved, a)
    ensures Collects(B, st, st', src, cached)
  {
  }

  /** Turn `i` of a collection: too few segments are free, and the next victim is collected. */
  ghost predicate Turn(B: nat, seen: seq<State>, order: seq<nat>, i: nat, cached: Summary, hi: nat) {
    && i + 1 < |seen| && i < |order| && |seen[i].queue| < hi
    && Collects(B, seen[i], seen[i + 1], order[i], cached)
  }

  /** The states between the turns of a collection that is still going on. */
  ghost predicate Turns(B: nat, seen: seq<State>, order: seq<nat>, k: nat, cached: Summary, hi: nat) {
    |seen| == k + 1 && forall i: nat :: i < k ==> Turn(B, seen, order, i, cached, hi)
  }

  lemma NoTurn(B: nat, st: State, order: seq<nat>, cached: Summary, hi: nat)
    ensures Turns(B, [st], order, 0, cached, hi)
  {
  }

  lemma OneTurn(B: nat, seen: seq<State>, st: State, order: seq<nat>, k: nat, cached: Summary, hi: nat)
    requires |seen| == k + 1 && Turns(B, seen, order, k, cached, hi) && k < |order| && |seen[k].queue| < hi && Collects(B, seen[k], st, order[k], cached)
    ensures Turns(B, seen + [st], order, k + 1, cached, hi) && (seen + [st])[0] == seen[0] && (seen + [st])[k + 1] == st
  {
    hide Collects;
    forall i: nat | i < k + 1 ensures Turn(B, seen + [st], order, i, cached, hi) {
      if i < k {
        assert Turn(B, seen, order, i, cached, hi);
      }
    }
  }

  /** A collection: the emptiest segments are collected one by one until `hi` segments are free or no
      victim is left, and the space grows by what they gain. */
  ghost predicate Sweep(B: nat, st: State, st': State, room: nat, hi: nat, cached: Summary, order: seq<nat>, k: nat, skip: int, seen: seq<State>) {
    && Emptiest(st, room, order) && k <= |order| && (k == |order| || |st'.queue| >= hi)
    && Turns(B, seen, order, k, cached, hi) && seen[0] == st && seen[k] == st'
    && Space(B, st') == Space(B, st) + TotalGain(B, st, order[..k], skip)
  }

  lemma SweepDone(B: nat, st: State, st': State, room: nat, hi: nat, cached: Summary, order: seq<nat>, k: nat, skip: int, seen: seq<State>)
    requires Emptiest(st, room, order) && k <= |order| && (k == |order| || |st'.queue| >= hi)
    requires Turns(B, seen, order, k, cached, hi) && |seen| == k + 1 && seen[0] == st && seen[k] == st'
    requires Space(B, st') == Space(B, st) + TotalGain(B, st, order[..k], skip)
    ensures Sweep(B, st, st', room, hi, cached, order, k, skip, seen)
  {
  }

  ghost predicate Swept(B: nat, st: State, st': State, room: nat, hi: nat, cached: Summary) {
    exists order, k, skip, seen :: Sweep(B, st, st', room, hi, cached, order, k, skip, seen)
  }

  /** A segment was taken for temperature `t`. */
  ghost predicate Took(B: nat, st: State, st': State, t: nat) {
    t < |st.cur| && 0 < |st.queue| && st.queue[0] < |st.segs| && st' == DoAlloc(B, st, t)
  }

  /** A collection, and then a segment for temperature `t` when more than one is free and the write may
      use the reserve or there is more than that. */
  ghost predicate Refilled(B: nat, st: State, st': State, t: nat, room: nat, hi: nat, cached: Summary, taken: bool, force: bool, reserved: nat) {
    exists mid: State ::
      && Swept(B, st, mid, room, hi, cached)
      && (taken <==> 1 < |mid.queue| && (force || reserved < |mid.queue|))
      && if taken then Took(B, mid, st', t) else st' == mid
  }

  lemma Untaken(B: nat, st: State, mid: State, t: nat, room: nat, hi: nat, cached: Summary, force: bool, reserved: nat)
    requires Swept(B, st, mid, room, hi, cached) && (|mid.queue| <= 1 || (!force && |mid.queue| <= reserved))
    ensures Refilled(B, st, mid, t, room, hi, cached, false, force, reserved)
  {
    hide Swept;
  }

  lemma TakenNow(B: nat, st: State, mid: State, st': State, t: nat, room: nat, hi: nat, cached: Summary, force: bool, reserved: nat)
    requires t < |mid.cur| && 0 < |mid.queue| && mid.queue[0] < |mid.segs| && st' == DoAlloc(B, mid, t)
    ensures Took(B, mid, st', t) && |st'.queue| + 1 == |mid.queue| && st'.cur == mid.cur[t := CurSeg(mid.queue[0], 0)] && st'.used == mid.used
    ensures Swept(B, st, mid, room, hi, cached) && 1 < |mid.queue| && (force || reserved < |mid.queue|) ==>
              Refilled(B, st, st', t, room, hi, cached, true, force, reserved)
  {
    hide Swept;
  }

  // ----- How much the victims hold -----

  /** What is not valid in the segments of a list. */
  function Garbage(B: nat, st: State, v: seq<nat>): int {
    if v == [] then 0
    else Garbage(B, st, v[..|v| - 1]) + B - (if v[|v| - 1] < |st.segs| then st.segs[v[|v| - 1]].validNr else 0)
  }

  ghost predicate Victim(st: State, s: nat) {
    s < |st.segs| && NotCurrent(st, s) && st.segs[s].validNr > 0
  }

  /** Different segments that can be collected. */
  ghost predicate Victims(st: State, v: seq<nat>) {
    (forall i :: 0 <= i < |v| ==> Victim(st, v[i])) && forall i, j :: 0 <= i < j < |v| ==> v[i] != v[j]
  }

  /** There are segments that the pool has room for beside the free ones, whose garbage and the space
      there is make more than the reserve, even with every current segment counted full and the cached
      block left behind. */
  ghost predicate Reclaims(B: nat, st: State, room: nat, reserved: nat) {
    exists v: seq<nat> :: Victims(st, v) && |st.queue| + |v| <= room && Space(B, st) + Garbage(B, st, v) >= B * (reserved + 2 + TEMP_NR)
  }

  /** How much more than `top` valid blocks a segment in use has, from below. */
  function Shortfall(st: State, top: int, s: nat): int {
    if s < |st.segs| && st.segs[s].validNr > 0 then top - st.segs[s].validNr else 0
  }

  function SumShort(st: State, top: int, v: seq<nat>): int {
    if v == [] then 0 else SumShort(st, top, v[..|v| - 1]) + Shortfall(st, top, v[|v| - 1])
  }

  /** How many segments of a list hold a valid block. */
  function InUse(st: State, v: seq<nat>): nat {
    if v == [] then 0
    else InUse(st, v[..|v| - 1]) + if v[|v| - 1] < |st.segs| && st.segs[v[|v| - 1]].validNr > 0 then 1 else 0
  }

  lemma {:induction false} GainSplit(B: nat, st: State, top: int, v: seq<nat>)
    ensures TotalGain(B, st, v, -1) == SumShort(st, top, v) + InUse(st, v) * (B - top)
  {
    if v != [] {
      GainSplit(B, st, top, v[..|v| - 1]);
    }
  }

  lemma {:induction false} GarbageSplit(B: nat, st: State, top: int, v: seq<nat>)
    requires forall i :: 0 <= i < |v| ==> Victim(st, v[i])
    ensures Garbage(B, st, v) == SumShort(st, top, v) + |v| * (B - top)
  {
    if v != [] {
      assert Victim(st, v[|v| - 1]);
      var u := v[..|v| - 1];
      forall i | 0 <= i < |u| ensures Victim(st, u[i]) {
        assert Victim(st, v[i]);
      }
      GarbageSplit(B, st, top, u);
    }
  }

  function Drop(v: seq<nat>, i: nat): seq<nat>
    requires i < |v|
  {
    v[..i] + v[i + 1..]
  }

  lemma {:induction false} SumDrop(st: State, top: int, v: seq<nat>, i: nat)
    requires i < |v|
    ensures SumShort(st, top, v) == SumShort(st, top, Drop(v, i)) + Shortfall(st, top, v[i])
    decreases |v|
  {
    if i == |v| - 1 {
      assert Drop(v, i) == v[..|v| - 1];
    } else {
      var u := v[..|v| - 1];
      SumDrop(st, top, u, i);
      assert Drop(v, i)[..|v| - 2] == Drop(u, i);
    }
  }

  lemma DropFacts(v: seq<nat>, i: nat)
    requires i < |v| && forall a, b :: 0 <= a < b < |v| ==> v[a] != v[b]
    ensures |Drop(v, i)| == |v| - 1 && forall a, b :: 0 <= a < b < |v| - 1 ==> Drop(v, i)[a] != Drop(v, i)[b]
    ensures forall x :: x in Drop(v, i) <==> x in v && x != v[i]
  {
    forall x | x in v && x != v[i] ensures x in Drop(v, i) {
      var a :| 0 <= a < |v| && v[a] == x;
      assert Drop(v, i)[if a < i then a else a - 1] == x;
    }
  }

  /** What lies below `top` is counted in `u`, what lies above adds nothing. */
  lemma {:induction false} SumWithin(st: State, top: int, v: seq<nat>, u: seq<nat>)
    requires forall i, j :: 0 <= i < j < |v| ==> v[i] != v[j]
    requires forall x :: x in u ==> Shortfall(st, top, x) >= 0
    requires forall x :: x in v && x !in u ==> Shortfall(st, top, x) <= 0
    ensures SumShort(st, top, v) <= SumShort(st, top, u)
    decreases |u| + |v|
  {
    if v == [] {
      if u != [] {
        assert u[|u| - 1] in u;
        SumWithin(st, top, v, u[..|u| - 1]);
      }
    } else if u == [] {
      assert v[|v| - 1] in v;
      SumWithin(st, top, v[..|v| - 1], u);
    } else {
      var x := u[|u| - 1];
      assert x in u;
      assert forall y :: y in u <==> y == x || y in u[..|u| - 1] by { assert u == u[..|u| - 1] + [x]; }
      if x in v {
        var i :| 0 <= i < |v| && v[i] == x;
        SumDrop(st, top, v, i);
        DropFacts(v, i);
        SumWithin(st, top, Drop(v, i), u[..|u| - 1]);
      } else {
        SumWithin(st, top, v, u[..|u| - 1]);
      }
    }
  }

  /** No list holds more different segments of a kind than there are. */
  lemma {:induction false} EmptyFew(st: State, v: seq<nat>, q: seq<nat>)
    requires forall i, j :: 0 <= i < j < |v| ==> v[i] != v[j]
    requires forall i :: 0 <= i < |v| ==> v[i] < |st.segs| && (st.segs[v[i]].validNr == 0 ==> v[i] in q)
    ensures |v| <= InUse(st, v) + |q|
    decreases |v|
  {
    if v != [] {
      var x, rest := v[|v| - 1], v[..|v| - 1];
      if st.segs[x].validNr > 0 {
        EmptyFew(st, rest, q);
      } else {
        var i :| 0 <= i < |q| && q[i] == x;
        forall a | 0 <= a < |rest| && st.segs[rest[a]].validNr == 0 ensures rest[a] in Drop(q, i) {
          assert rest[a] == v[a] && v[a] in q;
          var b :| 0 <= b < |q| && q[b] == v[a];
          assert Drop(q, i)[if b < i then b else b - 1] == v[a];
        }
        EmptyFew(st, rest, Drop(q, i));
      }
    }
  }

  lemma {:induction false} SumNonneg(st: State, top: int, v: seq<nat>)
    requires forall x :: x in v ==> Shortfall(st, top, x) >= 0
    ensures SumShort(st, top, v) >= 0
  {
    if v != [] {
      assert v[|v| - 1] in v;
      SumNonneg(st, top, v[..|v| - 1]);
    }
  }

  /** The victims of a collection gain at least what any segments hold that the pool has room for. */
  lemma PoolBest(B: nat, st: State, room: nat, order: seq<nat>, v: seq<nat>)
    requires SegInv(B, st) && Emptiest(st, room, order) && Victims(st, v) && |st.queue| + |v| <= room
    ensures TotalGain(B, st, order, -1) >= Garbage(B, st, v)
  {
    hide SegInv, NotCurrent;
    ValidBound(B, st);
    if forall i :: 0 <= i < |v| ==> v[i] in order {
      BestAmong(B, st, order, v, B);
    } else {
      var i :| 0 <= i < |v| && v[i] !in order;
      assert Victim(st, v[i]);
      assert |order| == room && HeavierThan(st, order, v[i]);
      EmptyQueued(B, st, order);
      EmptyFew(st, order, st.queue);
      if order == [] {
        assert false;
      }
      var top := st.segs[order[|order| - 1]].validNr;
      BestAmong(B, st, order, v, top);
    }
  }

  lemma ValidBound(B: nat, st: State)
    requires SegInv(B, st)
    ensures forall s :: 0 <= s < |st.segs| ==> st.segs[s].validNr <= B
  {
    forall s | 0 <= s < |st.segs| ensures st.segs[s].validNr <= B {
      PopCountBounds(st.segs[s].valid);
    }
  }

  /** An empty segment that is not current is free. */
  lemma EmptyQueued(B: nat, st: State, order: seq<nat>)
    requires SegInv(B, st) && forall j :: 0 <= j < |order| ==> order[j] < |st.segs| && NotCurrent(st, order[j])
    ensures forall j :: 0 <= j < |order| && st.segs[order[j]].validNr == 0 ==> order[j] in st.queue
  {
    forall j | 0 <= j < |order| && st.segs[order[j]].validNr == 0 ensures order[j] in st.queue {
      assert NotCurrent(st, order[j]);
    }
  }

  lemma BestAmong(B: nat, st: State, order: seq<nat>, v: seq<nat>, top: nat)
    requires FewestFirst(st, order) && Victims(st, v) && top <= B
    requires forall x :: x in order && x < |st.segs| ==> st.segs[x].validNr <= top
    requires forall x :: x in v && x !in order && x < |st.segs| ==> st.segs[x].validNr >= top
    requires top < B ==> InUse(st, order) >= |v|
    ensures TotalGain(B, st, order, -1) >= Garbage(B, st, v)
  {
    GainSplit(B, st, top, order);
    GarbageSplit(B, st, top, v);
    forall x | x in v && x !in order ensures Shortfall(st, top, x) <= 0 {
      var i :| 0 <= i < |v| && v[i] == x;
      assert Victim(st, v[i]);
    }
    hide Shortfall, FewestFirst, Victims, Garbage, TotalGain, SumShort, InUse;
    SumWithin(st, top, v, order);
    Mul(|v|, InUse(st, order), B - top);
  }

  lemma Mul(a: nat, b: nat, c: nat)
    requires a <= b || c == 0
    ensures a * c <= b * c
  {
  }

  // ----- What a collection leaves -----

  /** The block left behind costs less than a segment. */
  lemma {:induction false} SkipCost(B: nat, st: State, v: seq<nat>, skip: int)
    requires 0 < B && forall i, j :: 0 <= i < j < |v| ==> v[i] != v[j]
    ensures TotalGain(B, st, v, skip) >= TotalGain(B, st, v, -1) - if skip in v then B - 1 else 0
  {
    if v != [] {
      var u := v[..|v| - 1];
      SkipCost(B, st, u, skip);
      assert v == u + [v[|v| - 1]];
      assert v[|v| - 1] !in u;
    }
  }

  lemma SpaceBound(B: nat, st: State)
    requires SegInv(B, st)
    ensures Space(B, st) <= B * |st.queue| + B * TEMP_NR
    ensures B * |st.queue| <= Space(B, st)
  {
    forall t: nat | t < TEMP_NR ensures 0 <= Room(B, st, t) <= B {
    }
    hide SegInv;
    assert B * TEMP_NR == B + B + B + B + B + B;
  }

  /** A collection that ran out of victims has brought the free segments above the reserve when there
      was enough to reclaim. */
  lemma Reclaimed(B: nat, st: State, st': State, room: nat, reserved: nat, order: seq<nat>, skip: int)
    requires 0 < B && SegInv(B, st) && SegInv(B, st') && Emptiest(st, room, order) && Reclaims(B, st, room, reserved)
    requires Space(B, st') == Space(B, st) + TotalGain(B, st, order, skip)
    ensures |st'.queue| > reserved
  {
    hide SegInv, Space, Garbage, TotalGain, NotCurrent, Victims;
    var v: seq<nat> :| Victims(st, v) && |st.queue| + |v| <= room && Space(B, st) + Garbage(B, st, v) >= B * (reserved + 2 + TEMP_NR);
    PoolBest(B, st, room, order, v);
    SkipCost(B, st, order, skip);
    SpaceBound(B, st');
    Above(B, |st'.queue|, reserved);
  }

  lemma Above(B: nat, q: nat, reserved: nat)
    requires B * q + B * TEMP_NR + B > B * (reserved + 2 + TEMP_NR)
    ensures q > reserved
  {
    if q <= reserved {
      Mul(q, reserved, B);
    }
  }

  // ----- Room enough by count -----

  /** How many numbers below `n` are in a list. */
  ghost function CountIn(q: seq<int>, n: nat): nat {
    if n == 0 then 0 else CountIn(q, n - 1) + if n - 1 in q then 1 else 0
  }

  lemma {:induction false} CountSame(q: seq<int>, r: seq<int>, n: nat)
    requires forall s: nat :: s < n ==> (s in q <==> s in r)
    ensures CountIn(q, n) == CountIn(r, n)
  {
    if n > 0 {
      CountSame(q, r, n - 1);
    }
  }

  /** A list of different numbers below `n` is as long as they are many, another at least that long. */
  lemma {:induction false} CountLen(q: seq<int>, n: nat)
    ensures CountIn(q, n) <= |q|
    ensures (forall i, j :: 0 <= i < j < |q| ==> q[i] != q[j]) && (forall i :: 0 <= i < |q| ==> 0 <= q[i] < n) ==> CountIn(q, n) == |q|
  {
    if n == 0 {
      if q != [] {
        assert !(0 <= q[0] < n);
      }
    } else if n - 1 in q {
      var i :| 0 <= i < |q| && q[i] == n - 1;
      var r := q[..i] + q[i + 1..];
      forall s: nat | s < n - 1 ensures s in q <==> s in r {
        if s in q {
          var a :| 0 <= a < |q| && q[a] == s;
          assert r[if a < i then a else a - 1] == s;
        }
      }
      CountSame(q, r, n - 1);
      CountLen(r, n - 1);
    } else {
      CountLen(q, n - 1);
    }
  }

  /** The segments below `n` that can be collected. */
  ghost function Collectable(st: State, n: nat): seq<nat> {
    if n == 0 then []
    else if Victim(st, n - 1) then Collectable(st, n - 1) + [n - 1] else Collectable(st, n - 1)
  }

  lemma {:induction false} CollectableFacts(st: State, n: nat)
    ensures Victims(st, Collectable(st, n)) && forall i :: 0 <= i < |Collectable(st, n)| ==> Collectable(st, n)[i] < n
  {
    hide Victim;
    if n > 0 {
      CollectableFacts(st, n - 1);
    }
  }

  ghost function CurList(st: State): seq<int> {
    seq(|st.cur|, t requires 0 <= t < |st.cur| => st.cur[t].segNo)
  }

  /** Every segment is free, can be collected, or is current; what is not valid is in one of them. */
  lemma {:induction false} Shares(B: nat, st: State, n: nat)
    requires SegInv(B, st) && n <= |st.segs|
    ensures |Collectable(st, n)| + CountIn(st.queue, n) + CountIn(CurList(st), n) == n
    ensures B * n - SumValid(st.segs[..n]) <= B * CountIn(st.queue, n) + Garbage(B, st, Collectable(st, n)) + B * CountIn(CurList(st), n)
  {
    hide SegInv, SumValid, Garbage, Victim, NotCurrent, CurList, Collectable;
    if n == 0 {
      NoShares(B, st);
    } else {
      var s: nat := n - 1;
      Shares(B, st, s);
      OneShare(B, st, s);
      SharesNext(B, st, s);
      OneMore(B, s);
      OneMore(B, CountIn(st.queue, s));
      OneMore(B, CountIn(CurList(st), s));
    }
  }

  lemma NoShares(B: nat, st: State)
    ensures SumValid(st.segs[..0]) == 0 && Collectable(st, 0) == [] && Garbage(B, st, []) == 0
  {
  }

  lemma SharesNext(B: nat, st: State, s: nat)
    requires s < |st.segs|
    ensures SumValid(st.segs[..s + 1]) == SumValid(st.segs[..s]) + st.segs[s].validNr
    ensures var v, u := Collectable(st, s), Collectable(st, s + 1);
      if Victim(st, s) then |u| == |v| + 1 && Garbage(B, st, u) == Garbage(B, st, v) + B - st.segs[s].validNr else u == v
  {
    hide Victim;
    assert st.segs[..s + 1][..s] == st.segs[..s] && st.segs[..s + 1][s] == st.segs[s];
    var v := Collectable(st, s);
    assert (v + [s])[..|v|] == v;
  }

  lemma OneMore(B: nat, x: nat)
    ensures B * (x + 1) == B * x + B
  {
  }

  lemma OneShare(B: nat, st: State, s: nat)
    requires SegInv(B, st) && s < |st.segs|
    ensures s in CurList(st) <==> !NotCurrent(st, s)
    ensures s in st.queue ==> !Victim(st, s) && s !in CurList(st) && st.segs[s].validNr == 0
    ensures Victim(st, s) ==> s !in CurList(st)
    ensures s in st.queue || Victim(st, s) || s in CurList(st)
  {
    assert s in CurList(st) <==> !NotCurrent(st, s) by {
      if !NotCurrent(st, s) {
        var t :| 0 <= t < |st.cur| && st.cur[t].segNo == s;
        assert CurList(st)[t] == s;
      }
    }
    if s !in st.queue && !Victim(st, s) && NotCurrent(st, s) {
      EmptyQueued(B, st, [s]);
    }
    if s in st.queue {
      forall t | 0 <= t < |st.cur| ensures st.cur[t].segNo != s {
        if st.cur[t].segNo != -1 {
          TempOfCur(B, st, t);
        }
      }
    }
  }

  lemma TempOfCur(B: nat, st: State, t: nat)
    requires SegInv(B, st) && t < |st.cur| && st.cur[t].segNo != -1
    ensures 0 <= st.cur[t].segNo < |st.segs| && st.segs[st.cur[t].segNo].temp == t < TEMP_NR
    ensures forall s: nat :: s in st.queue ==> s < |st.segs| && st.segs[s].temp == TEMP_NR
  {
  }

  /** With a pool for all segments, unused blocks enough for the reserve and every current segment twice
      can always be reclaimed. */
  lemma SpareReclaims(B: nat, st: State, room: nat, reserved: nat)
    requires SegInv(B, st) && |st.segs| <= room && B * |st.segs| - st.used >= B * (reserved + 2 + 2 * TEMP_NR)
    ensures Reclaims(B, st, room, reserved)
  {
    hide SegInv, Space, Garbage, Victims, Collectable, CountIn, CurList, SumValid;
    var n, v := |st.segs|, Collectable(st, |st.segs|);
    Shares(B, st, n);
    assert st.segs[..n] == st.segs;
    CollectableFacts(st, n);
    SpaceBound(B, st);
    QueueFacts(B, st);
    CountLen(st.queue, n);
    CountLen(CurList(st), n);
    SpareLeft(B, CountIn(CurList(st), n), reserved);
    assert Space(B, st) + Garbage(B, st, v) >= B * (reserved + 2 + TEMP_NR);
  }

  lemma SpareLeft(B: nat, c: nat, reserved: nat)
    requires c <= TEMP_NR
    ensures B * c <= B * TEMP_NR && B * (reserved + 2 + 2 * TEMP_NR) == B * (reserved + 2 + TEMP_NR) + B * TEMP_NR
  {
    Mul(c, TEMP_NR, B);
  }

  lemma QueueFacts(B: nat, st: State)
    requires SegInv(B, st)
    ensures |st.cur| == TEMP_NR && |CurList(st)| == TEMP_NR && st.used == SumValid(st.segs)
    ensures forall i, j :: 0 <= i < j < |st.queue| ==> st.queue[i] != st.queue[j]
    ensures forall i :: 0 <= i < |st.queue| ==> 0 <= st.queue[i] < |st.segs|
  {
    forall i | 0 <= i < |st.queue| ensures 0 <= st.queue[i] < |st.segs| {
      assert st.queue[i] in st.queue;
    }
  }

  /** After a collection the free segments are above the reserve when there was enough to reclaim. */
  lemma SweepEnd(B: nat, st: State, st': State, room: nat, hi: nat, reserved: nat, cached: Summary, order: seq<nat>, k: nat, skip: int, seen: seq<State>)
    requires 0 < B && SegInv(B, st) && SegInv(B, st') && Sweep(B, st, st', room, hi, cached, order, k, skip, seen)
    ensures Swept(B, st, st', room, hi, cached)
    ensures Reclaims(B, st, room, reserved) && reserved < hi ==> |st'.queue| > reserved
  {
    hide SegInv, Emptiest, Turns, Reclaims;
    if Reclaims(B, st, room, reserved) && |st'.queue| < hi {
      assert order[..k] == order;
      Reclaimed(B, st, st', room, reserved, order, skip);
    }
  }
}
