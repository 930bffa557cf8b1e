/** The versioned block store behind the simulated medium, as values: records shared by any number
    of clones, each clone a position in the tree of write logs. */
module Versions {
  import opened Segments

  /** A block version: `preVer` is the version it replaced, `preWrite` the write before it. */
  datatype Rec = Rec(lba: int, data: int, preVer: int, preWrite: int, ref: int)

  datatype Wr = Wr(lba: int, data: int)

  /** A counted reference: a clone's entry for a block address, or a younger version. */
  datatype Ref = Head(c: nat, lba: nat) | Succ(rec: nat)

  // ----- What a clone contains -----

  /** The newest version of block `l` in a log, or -1. */
  function LastWith(recs: seq<Rec>, log: seq<nat>, l: int): int {
    if log == [] then -1
    else
      var r := log[|log| - 1];
      if r < |recs| && recs[r].lba == l then r else LastWith(recs, log[..|log| - 1], l)
  }

  /** The block writes of a log. */
  function Writes(recs: seq<Rec>, log: seq<nat>): seq<Wr> {
    seq(|log|, k requires 0 <= k < |log| => if log[k] < |recs| then Wr(recs[log[k]].lba, recs[log[k]].data) else Wr(-1, 0))
  }

  /** The medium after a sequence of block writes. */
  function Fold(ws: seq<Wr>): map<int, int> {
    if ws == [] then map[] else Fold(ws[..|ws| - 1])[ws[|ws| - 1].lba := ws[|ws| - 1].data]
  }

  /** Following the newest version is the same as replaying the log. */
  lemma {:induction false} LastIsFold(recs: seq<Rec>, log: seq<nat>, l: int)
    requires forall k :: 0 <= k < |log| ==> log[k] < |recs|
    ensures LastWith(recs, log, l) == -1 <==> l !in Fold(Writes(recs, log))
    ensures LastWith(recs, log, l) != -1 ==>
              && 0 <= LastWith(recs, log, l) < |recs| && LastWith(recs, log, l) in log
              && recs[LastWith(recs, log, l)].lba == l
              && Fold(Writes(recs, log))[l] == recs[LastWith(recs, log, l)].data
  {
    if log != [] {
      var init := log[..|log| - 1];
      assert Writes(recs, log)[..|log| - 1] == Writes(recs, init);
      LastIsFold(recs, init, l);
    }
  }

  // ----- Invariant -----

  /** The write before entry `k` of a log, or -1. */
  function Before(log: seq<nat>, k: nat): int
    requires k < |log|
  {
    if k == 0 then -1 else log[k - 1]
  }

  /** A log is threaded by `preWrite`; every version names the one it replaced in that log. */
  ghost predicate LogOk(recs: seq<Rec>, live: set<nat>, M: nat, log: seq<nat>) {
    && (forall k :: 0 <= k < |log| ==> log[k] in live && log[k] < |recs| && 0 <= recs[log[k]].lba < M)
    && (forall k {:trigger Before(log, k)} :: 0 <= k < |log| ==> recs[log[k]].preWrite == Before(log, k))
    && (forall k :: 0 <= k < |log| ==> recs[log[k]].preVer == LastWith(recs, log[..k], recs[log[k]].lba))
  }

  ghost predicate LogsOk(recs: seq<Rec>, live: set<nat>, M: nat, logs: seq<seq<nat>>) {
    forall c :: 0 <= c < |logs| ==> LogOk(recs, live, M, logs[c])
  }

  /** The entries of a clone are the newest versions in its log. */
  ghost predicate HeadsOk(recs: seq<Rec>, heads: seq<int>, log: seq<nat>) {
    forall l :: 0 <= l < |heads| ==> heads[l] == LastWith(recs, log, l)
  }

  ghost predicate OwnShape(own: seq<seq<int>>, N: nat, M: nat) {
    |own| == N && forall c :: 0 <= c < N ==> |own[c]| == M
  }

  /** A clone with a log owns the entries that its log says; a clone being emptied has no log. */
  ghost predicate AllHeads(recs: seq<Rec>, own: seq<seq<int>>, logs: seq<seq<nat>>) {
    |own| == |logs| && forall c :: 0 <= c < |logs| && logs[c] != [] ==> HeadsOk(recs, own[c], logs[c])
  }

  function RefsTo(recs: seq<Rec>, live: set<nat>, own: seq<seq<int>>, x: nat): set<Ref> {
    (set c: nat, l: nat | c < |own| && l < |own[c]| && own[c][l] == x :: Head(c, l))
    + (set s: nat | s in live && s < |recs| && recs[s].preVer == x :: Succ(s))
  }

  predicate Leads(recs: seq<Rec>, live: set<nat>, own: seq<seq<int>>, f: Ref, x: int) {
    match f
    case Head(c, l) => c < |own| && l < |own[c]| && own[c][l] == x
    case Succ(s) => s in live && s < |recs| && recs[s].preVer == x
  }

  lemma RefsAre(recs: seq<Rec>, live: set<nat>, own: seq<seq<int>>, x: nat)
    ensures forall f :: f in RefsTo(recs, live, own, x) <==> Leads(recs, live, own, f, x)
  {
    forall f ensures f in RefsTo(recs, live, own, x) <==> Leads(recs, live, own, f, x) {
      match f
      case Head(c, l) =>
      case Succ(s) =>
    }
  }

  /** The number of references to `x` when those of another state are the same, less `less`, plus `more`. */
  lemma RefsChange(recs: seq<Rec>, live: set<nat>, own: seq<seq<int>>, recs': seq<Rec>, live': set<nat>, own': seq<seq<int>>,
                   x: nat, less: set<Ref>, more: set<Ref>)
    requires forall f :: f in less ==> Leads(recs, live, own, f, x)
    requires forall f :: f in more ==> !Leads(recs, live, own, f, x)
    requires forall f :: Leads(recs', live', own', f, x) <==> (Leads(recs, live, own, f, x) && f !in less) || f in more
    ensures |RefsTo(recs', live', own', x)| == |RefsTo(recs, live, own, x)| - |less| + |more|
  {
    hide RefsTo, Leads;
    RefsAre(recs, live, own, x);
    RefsAre(recs', live', own', x);
    var kept := RefsTo(recs, live, own, x) - less;
    assert RefsTo(recs, live, own, x) == kept + less && kept !! less;
    assert RefsTo(recs', live', own', x) == kept + more && kept !! more;
  }

  /** Every counter is the number of references, plus one at `extra`; references lead to live records. */
  ghost predicate RefOk(recs: seq<Rec>, live: set<nat>, own: seq<seq<int>>, extra: int) {
    && (forall x :: x in live ==> x < |recs| && recs[x].ref == |RefsTo(recs, live, own, x)| + (if x == extra then 1 else 0))
    && (forall s :: s in live && s < |recs| && recs[s].preVer != -1 ==> 0 <= recs[s].preVer && recs[s].preVer in live)
    && (forall c, l :: 0 <= c < |own| && 0 <= l < |own[c]| && own[c][l] != -1 ==> 0 <= own[c][l] && own[c][l] in live)
    && (extra != -1 ==> 0 <= extra && extra in live)
  }

  /** The free list is threaded by `preVer`; with the live records and those in limbo it makes up the pool. */
  ghost predicate FreeOk(recs: seq<Rec>, live: set<nat>, limbo: set<nat>, free: seq<nat>, head: int, nr: nat) {
    && nr == |free| && head == (if free == [] then -1 else free[0])
    && (forall i :: 0 <= i < |free| ==> free[i] < |recs| && free[i] !in live && free[i] !in limbo)
    && (forall i, j :: 0 <= i < j < |free| ==> free[i] != free[j])
    && (forall i {:trigger recs[free[i]]} :: 0 <= i < |free| ==> recs[free[i]].preVer == (if i + 1 < |free| then free[i + 1] else -1))
    && (forall x: nat :: x < |recs| ==> x in live || x in limbo || x in free)
    && (forall x :: x in live ==> x < |recs|) && (forall x :: x in limbo ==> x < |recs| && x !in live)
  }

  /** Records are not changed but for their counters. */
  ghost predicate Keeps(recs: seq<Rec>, recs': seq<Rec>, live: set<nat>) {
    && |recs| <= |recs'|
    && forall x :: x in live && x < |recs| ==> recs'[x] == recs[x].(ref := recs'[x].ref)
  }

  // ----- Logs and the records in them -----

  lemma {:induction false} LastKept(recs: seq<Rec>, recs': seq<Rec>, live: set<nat>, log: seq<nat>, l: int)
    requires Keeps(recs, recs', live) && forall k :: 0 <= k < |log| ==> log[k] in live && log[k] < |recs|
    ensures LastWith(recs', log, l) == LastWith(recs, log, l)
  {
    if log != [] {
      LastKept(recs, recs', live, log[..|log| - 1], l);
    }
  }

  /** Logs, what they write and what clones own are not affected by a change of counters. */
  lemma LogsKept(recs: seq<Rec>, recs': seq<Rec>, live: set<nat>, live': set<nat>, M: nat, own: seq<seq<int>>, logs: seq<seq<nat>>)
    requires LogsOk(recs, live, M, logs) && AllHeads(recs, own, logs) && Keeps(recs, recs', live')
    requires forall c, k :: 0 <= c < |logs| && 0 <= k < |logs[c]| ==> logs[c][k] in live'
    ensures LogsOk(recs', live', M, logs) && AllHeads(recs', own, logs)
    ensures forall c :: 0 <= c < |logs| ==> Writes(recs', logs[c]) == Writes(recs, logs[c])
  {
    forall c, k, l | 0 <= c < |logs| && 0 <= k <= |logs[c]|
      ensures LastWith(recs', logs[c][..k], l) == LastWith(recs, logs[c][..k], l)
    {
      assert LogOk(recs, live, M, logs[c]);
      LastKept(recs, recs', live', logs[c][..k], l);
    }
    forall c | 0 <= c < |logs|
      ensures LogOk(recs', live', M, logs[c]) && Writes(recs', logs[c]) == Writes(recs, logs[c])
      ensures logs[c] != [] ==> HeadsOk(recs', own[c], logs[c])
    {
      assert LogOk(recs, live, M, logs[c]);
      assert logs[c][..|logs[c]|] == logs[c];
    }
  }

  lemma LogPrefix(recs: seq<Rec>, live: set<nat>, M: nat, log: seq<nat>, n: nat)
    requires LogOk(recs, live, M, log) && n <= |log|
    ensures LogOk(recs, live, M, log[..n])
  {
    var init := log[..n];
    forall k | 0 <= k < |init|
      ensures init[k] in live && init[k] < |recs| && 0 <= recs[init[k]].lba < M
      ensures recs[init[k]].preWrite == Before(init, k)
      ensures recs[init[k]].preVer == LastWith(recs, init[..k], recs[init[k]].lba)
    {
      assert init[k] == log[k] && init[..k] == log[..k] && Before(init, k) == Before(log, k);
    }
  }

  lemma LogAt(recs: seq<Rec>, live: set<nat>, M: nat, log: seq<nat>, k: nat)
    requires LogOk(recs, live, M, log) && k < |log|
    ensures log[k] in live && log[k] < |recs| && 0 <= recs[log[k]].lba < M
    ensures recs[log[k]].preVer == LastWith(recs, log[..k], recs[log[k]].lba)
  {
  }

  ghost predicate Replaced(recs: seq<Rec>, log: seq<nat>, x: nat) {
    exists j :: 0 <= j < |log| && log[j] < |recs| && recs[log[j]].preVer == x
  }

  /** A record in a log is the newest version there, or a version that another record replaced. */
  lemma {:induction false} Followed(recs: seq<Rec>, live: set<nat>, M: nat, log: seq<nat>, k: nat)
    requires LogOk(recs, live, M, log) && k < |log|
    ensures log[k] < |recs|
    ensures LastWith(recs, log, recs[log[k]].lba) == log[k] || Replaced(recs, log, log[k])
    decreases |log|
  {
    hide LogOk;
    LogAt(recs, live, M, log, k);
    var l := recs[log[k]].lba;
    var n := |log| - 1;
    if k < n {
      var init := log[..n];
      LogPrefix(recs, live, M, log, n);
      Followed(recs, live, M, init, k);
      LogAt(recs, live, M, log, n);
      if LastWith(recs, init, l) == log[k] {
        if recs[log[n]].lba == l {
          assert recs[log[n]].preVer == log[k];
        }
      } else {
        var j :| 0 <= j < n && init[j] < |recs| && recs[init[j]].preVer == log[k];
        assert recs[log[j]].preVer == log[k];
      }
    }
  }

  /** A record in a log has a holder that leads to it: the head of its address or its successor. */
  lemma HolderOf(recs: seq<Rec>, live: set<nat>, M: nat, own: seq<seq<int>>, logs: seq<seq<nat>>, c: nat, k: nat) returns (h: Ref)
    requires LogsOk(recs, live, M, logs) && AllHeads(recs, own, logs) && OwnShape(own, |logs|, M)
    requires c < |logs| && k < |logs[c]|
    ensures Leads(recs, live, own, h, logs[c][k])
  {
    var log := logs[c];
    var x := log[k];
    assert LogOk(recs, live, M, log) && HeadsOk(recs, own[c], log);
    Followed(recs, live, M, log, k);
    if LastWith(recs, log, recs[x].lba) == x {
      h := Head(c, recs[x].lba);
    } else {
      var j :| 0 <= j < |log| && log[j] < |recs| && recs[log[j]].preVer == x;
      LogAt(recs, live, M, log, j);
      h := Succ(log[j]);
    }
  }

  /** No record that a clone still needs is without references: what is reclaimed is in no log. */
  lemma DeadUnlogged(recs: seq<Rec>, live: set<nat>, M: nat, own: seq<seq<int>>, logs: seq<seq<nat>>, x: nat)
    requires LogsOk(recs, live, M, logs) && AllHeads(recs, own, logs) && OwnShape(own, |logs|, M)
    requires |RefsTo(recs, live, own, x)| == 0
    ensures forall c, k :: 0 <= c < |logs| && 0 <= k < |logs[c]| ==> logs[c][k] != x
  {
    hide RefsTo;
    NoRefs(recs, live, own, x);
    forall c, k | 0 <= c < |logs| && 0 <= k < |logs[c]| ensures logs[c][k] != x {
      var h := HolderOf(recs, live, M, own, logs, c, k);
      assert !Leads(recs, live, own, h, x);
    }
  }

  // ----- References -----

  /** Counters may change freely where no reference is concerned. */
  lemma RefsSame(recs: seq<Rec>, recs': seq<Rec>, live: set<nat>, own: seq<seq<int>>, x: nat)
    requires |recs'| == |recs| && forall y :: 0 <= y < |recs| ==> recs'[y] == recs[y].(ref := recs'[y].ref)
    ensures |RefsTo(recs', live, own, x)| == |RefsTo(recs, live, own, x)|
  {
    hide RefsTo;
    RefsChange(recs, live, own, recs', live, own, x, {}, {});
  }

  /** Dropping the extra reference is a decrement. */
  lemma DropExtra(recs: seq<Rec>, live: set<nat>, own: seq<seq<int>>, x: nat)
    requires RefOk(recs, live, own, x)
    ensures x in live && x < |recs| && recs[x].ref > 0
    ensures RefOk(recs[x := recs[x].(ref := recs[x].ref - 1)], live, own, -1)
  {
    hide RefsTo;
    var recs' := recs[x := recs[x].(ref := recs[x].ref - 1)];
    forall y | y in live ensures recs'[y].ref == |RefsTo(recs', live, own, y)| {
      RefsSame(recs, recs', live, own, y);
    }
  }

  /** Taking an extra reference is an increment. */
  lemma TakeExtra(recs: seq<Rec>, live: set<nat>, own: seq<seq<int>>, x: nat)
    requires RefOk(recs, live, own, -1) && x in live
    ensures x < |recs| && RefOk(recs[x := recs[x].(ref := recs[x].ref + 1)], live, own, x)
  {
    hide RefsTo;
    var recs' := recs[x := recs[x].(ref := recs[x].ref + 1)];
    forall y | y in live ensures recs'[y].ref == |RefsTo(recs', live, own, y)| + (if y == x then 1 else 0) {
      RefsSame(recs, recs', live, own, y);
    }
  }

  lemma NoRefs(recs: seq<Rec>, live: set<nat>, own: seq<seq<int>>, x: nat)
    requires |RefsTo(recs, live, own, x)| == 0
    ensures forall f :: !Leads(recs, live, own, f, x)
  {
    hide RefsTo, Leads;
    RefsAre(recs, live, own, x);
    assert RefsTo(recs, live, own, x) == {};
  }

  /** A record without references dies; the version it replaced keeps one reference too many. */
  lemma Die(recs: seq<Rec>, live: set<nat>, own: seq<seq<int>>, x: nat)
    requires RefOk(recs, live, own, -1) && x in live && recs[x].ref == 0
    ensures |RefsTo(recs, live, own, x)| == 0
    ensures RefOk(recs, live - {x}, own, recs[x].preVer)
  {
    hide RefsTo;
    var live' := live - {x};
    NoRefs(recs, live, own, x);
    forall c, l | 0 <= c < |own| && 0 <= l < |own[c]| ensures own[c][l] != x {
      assert !Leads(recs, live, own, Head(c, l), x);
    }
    forall s: nat | s in live ensures recs[s].preVer != x {
      assert !Leads(recs, live, own, Succ(s), x);
    }
    forall y: nat | y in live'
      ensures recs[y].ref == |RefsTo(recs, live', own, y)| + (if y == recs[x].preVer then 1 else 0)
    {
      RefsChange(recs, live, own, recs, live', own, y, if y == recs[x].preVer then {Succ(x)} else {}, {});
    }
  }

  /** A record outside the live ones is of no consequence to the references. */
  lemma RefsOutside(recs: seq<Rec>, recs': seq<Rec>, live: set<nat>, own: seq<seq<int>>, extra: int)
    requires RefOk(recs, live, own, extra) && |recs| <= |recs'|
    requires forall x :: x in live ==> recs'[x] == recs[x]
    ensures RefOk(recs', live, own, extra)
  {
    hide RefsTo;
    forall y: nat | y in live ensures |RefsTo(recs', live, own, y)| == |RefsTo(recs, live, own, y)| {
      RefsChange(recs, live, own, recs', live, own, y, {}, {});
    }
  }

  function SetOwn(own: seq<seq<int>>, c: nat, l: nat, x: int): seq<seq<int>>
    requires c < |own| && l < |own[c]|
  {
    own[c := own[c][l := x]]
  }

  /** An entry takes the extra reference and lets go of its own, which becomes the extra one. */
  lemma Exchange(recs: seq<Rec>, live: set<nat>, own: seq<seq<int>>, c: nat, l: nat, x: int)
    requires RefOk(recs, live, own, x) && c < |own| && l < |own[c]| && (x != own[c][l] || x == -1)
    ensures RefOk(recs, live, SetOwn(own, c, l, x), own[c][l])
  {
    hide RefsTo;
    var own' := SetOwn(own, c, l, x);
    forall y: nat | y in live
      ensures recs[y].ref == |RefsTo(recs, live, own', y)| + (if y == own[c][l] then 1 else 0)
    {
      RefsChange(recs, live, own, recs, live, own', y,
                 if y == own[c][l] then {Head(c, l)} else {}, if y == x then {Head(c, l)} else {});
    }
  }

  /** A new record takes over the extra reference to the version before it. */
  lemma Attach(recs: seq<Rec>, live: set<nat>, own: seq<seq<int>>, x: nat, r: Rec)
    requires RefOk(recs, live, own, r.preVer) && x !in live && x < |recs| && r.ref == 1
    ensures RefOk(recs[x := r], live + {x}, own, x)
  {
    hide RefsTo;
    var recs', live' := recs[x := r], live + {x};
    assert |RefsTo(recs', live', own, x)| == 0 by {
      hide RefOk;
      AttachNew(recs, live, own, x, r);
    }
    forall y: nat | y in live ensures recs'[y].ref == |RefsTo(recs', live', own, y)| {
      RefsChange(recs, live, own, recs', live', own, y, {}, if y == r.preVer then {Succ(x)} else {});
    }
  }

  lemma AttachNew(recs: seq<Rec>, live: set<nat>, own: seq<seq<int>>, x: nat, r: Rec)
    requires RefOk(recs, live, own, r.preVer) && x !in live && x < |recs|
    ensures |RefsTo(recs[x := r], live + {x}, own, x)| == 0
  {
    hide RefsTo;
    var recs', live' := recs[x := r], live + {x};
    RefsAre(recs', live', own, x);
    forall f ensures !Leads(recs', live', own, f, x) {
      match f
      case Head(c, l) =>
      case Succ(s) =>
    }
    assert RefsTo(recs', live', own, x) == {};
  }

  // ----- The free list -----

  lemma FreePop(recs: seq<Rec>, live: set<nat>, free: seq<nat>, head: int, nr: nat)
    requires FreeOk(recs, live, {}, free, head, nr) && nr > 0
    ensures 0 <= head < |recs| && head !in live && |free| == nr
    ensures FreeOk(recs[head := recs[head].(ref := 1, preVer := -1)], live, {head as nat}, free[1..], recs[head].preVer, nr - 1)
  {
    var recs', free' := recs[head := recs[head].(ref := 1, preVer := -1)], free[1..];
    assert recs[free[0]].preVer == if free' == [] then -1 else free'[0];
    forall i | 0 <= i < |free'|
      ensures free'[i] < |recs'| && free'[i] !in live && free'[i] != head
      ensures recs'[free'[i]].preVer == (if i + 1 < |free'| then free'[i + 1] else -1)
    {
      assert free'[i] == free[i + 1] && recs[free[i + 1]] == recs'[free'[i]];
    }
    forall x: nat | x < |recs'| ensures x in live || x == head || x in free' {
      if x in free && x != head {
        var i :| 0 <= i < |free| && free[i] == x;
        assert free'[i - 1] == x;
      }
    }
  }

  lemma FreePush(recs: seq<Rec>, live: set<nat>, limbo: set<nat>, free: seq<nat>, head: int, nr: nat, x: nat, r: Rec)
    requires FreeOk(recs, live, limbo, free, head, nr) && x in limbo && r.preVer == head
    ensures x < |recs| && FreeOk(recs[x := r], live, limbo - {x}, [x] + free, x, nr + 1)
  {
    var recs', free' := recs[x := r], [x] + free;
    forall i | 0 <= i < |free'|
      ensures free'[i] < |recs'| && free'[i] !in live && free'[i] !in limbo - {x}
      ensures recs'[free'[i]].preVer == (if i + 1 < |free'| then free'[i + 1] else -1)
    {
      if i > 0 {
        assert free'[i] == free[i - 1] && recs'[free'[i]] == recs[free[i - 1]];
      }
    }
    forall y: nat | y < |recs'| ensures y in live || y in limbo - {x} || y in free' {
      if y in free {
        var i :| 0 <= i < |free| && free[i] == y;
        assert free'[i + 1] == y;
      }
    }
  }

  /** The records of a refill, linked one after the other. */
  ghost predicate Fresh(recs: seq<Rec>, base: nat, n: nat, chunk: nat) {
    |recs| == base + n && forall x {:trigger recs[x]} :: base <= x < base + n ==> recs[x].preVer == (if x + 1 < base + chunk then x + 1 else -1)
  }

  lemma FreeFill(recs: seq<Rec>, recs': seq<Rec>, live: set<nat>, chunk: nat)
    requires FreeOk(recs, live, {}, [], -1, 0) && recs <= recs' && Fresh(recs', |recs|, chunk, chunk) && 0 < chunk
    ensures FreeOk(recs', live, {}, seq(chunk, k requires 0 <= k => |recs| + k), |recs|, chunk)
  {
    var free := seq(chunk, k requires 0 <= k => |recs| + k);
    forall i | 0 <= i < |free| ensures recs'[free[i]].preVer == (if i + 1 < |free| then free[i + 1] else -1) {
      assert free[i] == |recs| + i;
    }
    forall x: nat | x < |recs'| ensures x in live || x in free {
      if x >= |recs| {
        assert free[x - |recs|] == x;
      }
    }
  }

  // ----- The pool as a whole -----

  ghost predicate PoolOk(recs: seq<Rec>, live: set<nat>, M: nat, own: seq<seq<int>>, logs: seq<seq<nat>>, extra: int) {
    && RefOk(recs, live, own, extra) && OwnShape(own, |logs|, M)
    && LogsOk(recs, live, M, logs) && AllHeads(recs, own, logs)
  }

  /** Every live record but `x` has a reference. */
  ghost predicate Referred(recs: seq<Rec>, live: set<nat>, x: int) {
    forall y :: y in live && y < |recs| && y != x ==> recs[y].ref > 0
  }

  ghost predicate SameLogs(recs: seq<Rec>, recs': seq<Rec>, logs: seq<seq<nat>>) {
    forall c :: 0 <= c < |logs| ==> Writes(recs', logs[c]) == Writes(recs, logs[c])
  }

  lemma LogsLive(recs: seq<Rec>, live: set<nat>, M: nat, logs: seq<seq<nat>>)
    requires LogsOk(recs, live, M, logs)
    ensures forall c, k :: 0 <= c < |logs| && 0 <= k < |logs[c]| ==> logs[c][k] in live && logs[c][k] < |recs|
  {
    forall c, k | 0 <= c < |logs| && 0 <= k < |logs[c]| ensures logs[c][k] in live && logs[c][k] < |recs| {
      assert LogOk(recs, live, M, logs[c]);
    }
  }

  /** Records outside the live ones may change. */
  lemma PoolOutside(recs: seq<Rec>, recs': seq<Rec>, live: set<nat>, M: nat, own: seq<seq<int>>, logs: seq<seq<nat>>, extra: int)
    requires PoolOk(recs, live, M, own, logs, extra)
    requires |recs| <= |recs'| && forall x :: x in live && x < |recs| ==> recs'[x] == recs[x]
    ensures PoolOk(recs', live, M, own, logs, extra) && SameLogs(recs, recs', logs)
    ensures forall x: int :: Referred(recs, live, x) ==> Referred(recs', live, x)
  {
    hide RefsTo;
    RefsOutside(recs, recs', live, own, extra);
    LogsLive(recs, live, M, logs);
    LogsKept(recs, recs', live, live, M, own, logs);
  }

  function Counted(recs: seq<Rec>, x: nat, d: int): seq<Rec>
    requires x < |recs|
  {
    recs[x := recs[x].(ref := recs[x].ref + d)]
  }

  lemma PoolDrop(recs: seq<Rec>, live: set<nat>, M: nat, own: seq<seq<int>>, logs: seq<seq<nat>>, x: nat)
    requires PoolOk(recs, live, M, own, logs, x)
    ensures x in live && x < |recs| && recs[x].ref > 0
    ensures PoolOk(Counted(recs, x, -1), live, M, own, logs, -1) && SameLogs(recs, Counted(recs, x, -1), logs)
  {
    hide RefsTo;
    DropExtra(recs, live, own, x);
    LogsLive(recs, live, M, logs);
    LogsKept(recs, Counted(recs, x, -1), live, live, M, own, logs);
  }

  lemma PoolTake(recs: seq<Rec>, live: set<nat>, M: nat, own: seq<seq<int>>, logs: seq<seq<nat>>, x: nat)
    requires PoolOk(recs, live, M, own, logs, -1) && x in live
    ensures x < |recs| && PoolOk(Counted(recs, x, 1), live, M, own, logs, x) && SameLogs(recs, Counted(recs, x, 1), logs)
  {
    hide RefsTo;
    TakeExtra(recs, live, own, x);
    LogsLive(recs, live, M, logs);
    LogsKept(recs, Counted(recs, x, 1), live, live, M, own, logs);
  }

  /** A record without references leaves the live ones; no log misses it. */
  lemma PoolDie(recs: seq<Rec>, live: set<nat>, M: nat, own: seq<seq<int>>, logs: seq<seq<nat>>, x: nat)
    requires PoolOk(recs, live, M, own, logs, -1) && x in live && x < |recs| && recs[x].ref == 0
    ensures PoolOk(recs, live - {x}, M, own, logs, recs[x].preVer)
  {
    hide RefsTo;
    Die(recs, live, own, x);
    DeadUnlogged(recs, live, M, own, logs, x);
    LogsLive(recs, live, M, logs);
    LogsKept(recs, recs, live, live - {x}, M, own, logs);
  }

  // ----- Writing, rolling back, copying -----

  ghost predicate EveryHead(recs: seq<Rec>, own: seq<seq<int>>, logs: seq<seq<nat>>) {
    |own| == |logs| && forall c :: 0 <= c < |logs| ==> HeadsOk(recs, own[c], logs[c])
  }

  function TailOf(log: seq<nat>): int {
    if log == [] then -1 else log[|log| - 1]
  }

  lemma LogPush(recs: seq<Rec>, live: set<nat>, M: nat, log: seq<nat>, x: nat)
    requires LogOk(recs, live, M, log) && x in live && x < |recs| && 0 <= recs[x].lba < M
    requires recs[x].preWrite == TailOf(log) && recs[x].preVer == LastWith(recs, log, recs[x].lba)
    ensures LogOk(recs, live, M, log + [x])
  {
    var log' := log + [x];
    forall k | 0 <= k < |log'|
      ensures log'[k] in live && log'[k] < |recs| && 0 <= recs[log'[k]].lba < M
      ensures recs[log'[k]].preWrite == Before(log', k)
      ensures recs[log'[k]].preVer == LastWith(recs, log'[..k], recs[log'[k]].lba)
    {
      if k < |log| {
        assert log'[k] == log[k] && log'[..k] == log[..k] && Before(log', k) == Before(log, k);
      } else {
        assert log'[..k] == log;
      }
    }
  }

  /** A write makes the new record the newest version of its block in one clone, and no other
      clone sees it. */
  lemma WriteKeeps(recs: seq<Rec>, live: set<nat>, M: nat, own: seq<seq<int>>, logs: seq<seq<nat>>, c: nat, x: nat, r: Rec)
    requires PoolOk(recs, live, M, own, logs, -1) && EveryHead(recs, own, logs) && c < |logs|
    requires x !in live && x < |recs| && 0 <= r.lba < M && r.ref == 1
    requires r.preVer == own[c][r.lba] && r.preWrite == TailOf(logs[c])
    ensures var recs', own', logs' := recs[x := r], SetOwn(own, c, r.lba, x), logs[c := logs[c] + [x]];
            && PoolOk(recs', live + {x}, M, own', logs', -1) && EveryHead(recs', own', logs')
            && Writes(recs', logs'[c]) == Writes(recs, logs[c]) + [Wr(r.lba, r.data)]
            && SameLogs(recs, recs', logs)
    ensures Referred(recs, live, -1) ==> Referred(recs[x := r], live + {x}, -1)
  {
    hide RefsTo, RefOk, LogOk, HeadsOk, Writes;
    var recs', live', own', logs' := recs[x := r], live + {x}, SetOwn(own, c, r.lba, x), logs[c := logs[c] + [x]];
    var own1 := SetOwn(own, c, r.lba, -1);
    Exchange(recs, live, own, c, r.lba, -1);
    Attach(recs, live, own1, x, r);
    Exchange(recs', live', own1, c, r.lba, x);
    SetTwice(own, c, r.lba, -1, x);
    LogsLive(recs, live, M, logs);
    LogsKept(recs, recs', live, live, M, own, logs);
    forall b | 0 <= b < |logs| ensures HeadsOk(recs', own[b], logs[b]) && LogOk(recs', live', M, logs[b]) {
      assert HeadsOk(recs, own[b], logs[b]) && LogOk(recs', live, M, logs[b]);
      HeadsSame(recs, recs', live, own[b], logs[b]);
      LogMore(recs', live, live', M, logs[b]);
    }
    OwnIs(recs', own[c], logs[c], r.lba);
    LogPush(recs', live', M, logs[c], x);
    HeadsPush(recs', own[c], logs[c], x);
    assert forall b :: 0 <= b < |logs| && b != c ==> own'[b] == own[b] && logs'[b] == logs[b];
    WritesPush(recs', logs[c], x);
  }

  lemma OwnIs(recs: seq<Rec>, heads: seq<int>, log: seq<nat>, l: nat)
    requires HeadsOk(recs, heads, log) && l < |heads|
    ensures heads[l] == LastWith(recs, log, l)
  {
  }

  lemma HeadsSame(recs: seq<Rec>, recs': seq<Rec>, live: set<nat>, heads: seq<int>, log: seq<nat>)
    requires HeadsOk(recs, heads, log) && Keeps(recs, recs', live)
    requires forall k :: 0 <= k < |log| ==> log[k] in live && log[k] < |recs|
    ensures HeadsOk(recs', heads, log)
  {
    forall l | 0 <= l < |heads| ensures heads[l] == LastWith(recs', log, l) {
      LastKept(recs, recs', live, log, l);
    }
  }

  lemma LogMore(recs: seq<Rec>, live: set<nat>, live': set<nat>, M: nat, log: seq<nat>)
    requires LogOk(recs, live, M, log) && live <= live'
    ensures LogOk(recs, live', M, log)
  {
  }

  lemma SetTwice(own: seq<seq<int>>, c: nat, l: nat, x: int, y: int)
    requires c < |own| && l < |own[c]|
    ensures SetOwn(SetOwn(own, c, l, x), c, l, y) == SetOwn(own, c, l, y)
  {
    assert own[c][l := x][l := y] == own[c][l := y];
  }

  lemma HeadsPush(recs: seq<Rec>, heads: seq<int>, log: seq<nat>, x: nat)
    requires x < |recs| && 0 <= recs[x].lba < |heads|
    requires HeadsOk(recs, heads, log)
    ensures HeadsOk(recs, heads[recs[x].lba := x], log + [x])
  {
    assert (log + [x])[..|log|] == log;
  }

  lemma WritesPush(recs: seq<Rec>, log: seq<nat>, x: nat)
    requires x < |recs|
    ensures Writes(recs, log + [x]) == Writes(recs, log) + [Wr(recs[x].lba, recs[x].data)]
  {
  }

  /** The last write of a clone is the newest version of its block there. */
  lemma LastWrite(recs: seq<Rec>, live: set<nat>, M: nat, own: seq<seq<int>>, logs: seq<seq<nat>>, c: nat, x: nat)
    requires PoolOk(recs, live, M, own, logs, -1) && EveryHead(recs, own, logs)
    requires c < |logs| && logs[c] != [] && x == logs[c][|logs[c]| - 1]
    ensures x in live && x < |recs| && 0 <= recs[x].lba < M && recs[x].preWrite == TailOf(logs[c][..|logs[c]| - 1])
    ensures own[c][recs[x].lba] == x && recs[x].preVer != x
    ensures recs[x].preVer != -1 ==> 0 <= recs[x].preVer < |recs| && recs[x].preVer in live
  {
    hide RefsTo, LogOk, HeadsOk, Writes;
    assert LogOk(recs, live, M, logs[c]) && HeadsOk(recs, own[c], logs[c]);
    LogAt(recs, live, M, logs[c], |logs[c]| - 1);
    TailIs(recs, live, M, logs[c]);
    OwnIs(recs, own[c], logs[c], recs[x].lba);
    NotOwnAncestor(recs, live, M, logs[c]);
  }

  function Revived(recs: seq<Rec>, p: int): seq<Rec> {
    if 0 <= p < |recs| then Counted(recs, p, 1) else recs
  }

  /** Taking back the last write of a clone: its entry goes back to the version before. */
  lemma RollbackKeeps(recs: seq<Rec>, live: set<nat>, M: nat, own: seq<seq<int>>, logs: seq<seq<nat>>, c: nat, x: nat,
                      recs': seq<Rec>, own': seq<seq<int>>, logs': seq<seq<nat>>)
    requires PoolOk(recs, live, M, own, logs, -1) && EveryHead(recs, own, logs)
    requires c < |logs| && logs[c] != [] && x == logs[c][|logs[c]| - 1] && x < |recs| && 0 <= recs[x].lba < |own[c]|
    requires recs' == Revived(recs, recs[x].preVer)
    requires own' == SetOwn(own, c, recs[x].lba, recs[x].preVer) && logs' == logs[c := logs[c][..|logs[c]| - 1]]
    ensures PoolOk(recs', live, M, own', logs', x) && EveryHead(recs', own', logs') && SameLogs(recs, recs', logs)
    ensures Writes(recs', logs'[c]) == Writes(recs, logs[c])[..|logs[c]| - 1]
    ensures Referred(recs, live, -1) ==> Referred(recs', live, -1)
  {
    hide RefsTo, LogOk, HeadsOk, Writes;
    LastWrite(recs, live, M, own, logs, c, x);
    var n := |logs[c]| - 1;
    var p := recs[x].preVer;
    if p != -1 {
      PoolTake(recs, live, M, own, logs, p);
    }
    Exchange(recs', live, own, c, recs[x].lba, p);
    LogsLive(recs, live, M, logs);
    forall b | 0 <= b < |logs| ensures HeadsOk(recs', own[b], logs[b]) && LogOk(recs', live, M, logs[b]) {
      assert HeadsOk(recs, own[b], logs[b]) && LogOk(recs', live, M, logs[b]);
      HeadsSame(recs, recs', live, own[b], logs[b]);
    }
    LogAt(recs', live, M, logs[c], n);
    LogPrefix(recs', live, M, logs[c], n);
    HeadsPop(recs', own[c], logs[c]);
    assert forall b :: 0 <= b < |logs| && b != c ==> own'[b] == own[b] && logs'[b] == logs[b];
    assert Writes(recs', logs[c]) == Writes(recs, logs[c]);
    WritesPop(recs', logs[c]);
  }

  lemma TailIs(recs: seq<Rec>, live: set<nat>, M: nat, log: seq<nat>)
    requires LogOk(recs, live, M, log) && log != []
    ensures log[|log| - 1] < |recs| && recs[log[|log| - 1]].preWrite == TailOf(log[..|log| - 1])
  {
    assert recs[log[|log| - 1]].preWrite == Before(log, |log| - 1);
  }

  /** A record did not replace itself. */
  lemma NotOwnAncestor(recs: seq<Rec>, live: set<nat>, M: nat, log: seq<nat>)
    requires LogOk(recs, live, M, log) && log != []
    ensures log[|log| - 1] < |recs| && recs[log[|log| - 1]].preVer != log[|log| - 1]
  {
    hide LogOk;
    var n := |log| - 1;
    LogAt(recs, live, M, log, n);
    if recs[log[n]].preVer == log[n] {
      var k := LastFound(recs, log[..n], recs[log[n]].lba);
      NoRepeat(recs, live, M, log, k, n);
    }
  }

  lemma {:induction false} LastFound(recs: seq<Rec>, log: seq<nat>, l: int) returns (k: nat)
    requires LastWith(recs, log, l) != -1
    ensures k < |log| && log[k] == LastWith(recs, log, l)
  {
    var n := |log| - 1;
    if log[n] < |recs| && recs[log[n]].lba == l {
      k := n;
    } else {
      k := LastFound(recs, log[..n], l);
    }
  }

  /** No record occurs twice in a log: walking back from both places would end at the same start. */
  lemma {:induction false} NoRepeat(recs: seq<Rec>, live: set<nat>, M: nat, log: seq<nat>, i: nat, j: nat)
    requires LogOk(recs, live, M, log) && i < j < |log|
    ensures log[i] != log[j]
    decreases i
  {
    assert log[i] < |recs| && log[j] < |recs|;
    assert recs[log[i]].preWrite == Before(log, i) && recs[log[j]].preWrite == Before(log, j);
    if i > 0 {
      NoRepeat(recs, live, M, log, i - 1, j - 1);
    }
  }

  lemma HeadsPop(recs: seq<Rec>, heads: seq<int>, log: seq<nat>)
    requires HeadsOk(recs, heads, log) && log != []
    requires var r := log[|log| - 1]; r < |recs| && 0 <= recs[r].lba < |heads| && recs[r].preVer == LastWith(recs, log[..|log| - 1], recs[r].lba)
    ensures var r := log[|log| - 1]; HeadsOk(recs, heads[recs[r].lba := recs[r].preVer], log[..|log| - 1])
  {
  }

  lemma WritesPop(recs: seq<Rec>, log: seq<nat>)
    requires log != []
    ensures Writes(recs, log[..|log| - 1]) == Writes(recs, log)[..|log| - 1]
  {
  }

  /** A clone that is being emptied no longer has a log. */
  lemma ForgetLog(recs: seq<Rec>, live: set<nat>, M: nat, own: seq<seq<int>>, logs: seq<seq<nat>>, c: nat)
    requires PoolOk(recs, live, M, own, logs, -1) && c < |logs|
    ensures PoolOk(recs, live, M, own, logs[c := []], -1)
  {
    hide RefOk, LogOk, HeadsOk;
    var logs' := logs[c := []];
    forall b | 0 <= b < |logs'| ensures LogOk(recs, live, M, logs'[b]) {
      assert LogOk(recs, live, M, logs[b]);
      if b == c {
        EmptyLog(recs, live, M);
      }
    }
  }

  lemma EmptyLog(recs: seq<Rec>, live: set<nat>, M: nat)
    ensures LogOk(recs, live, M, [])
  {
  }

  /** An entry of a clone without a log exchanges its reference for the extra one. */
  lemma PoolExchange(recs: seq<Rec>, live: set<nat>, M: nat, own: seq<seq<int>>, logs: seq<seq<nat>>, c: nat, l: nat, x: int)
    requires PoolOk(recs, live, M, own, logs, x) && c < |logs| && l < M && logs[c] == [] && (x != own[c][l] || x == -1)
    ensures PoolOk(recs, live, M, SetOwn(own, c, l, x), logs, own[c][l])
  {
    hide RefOk, LogOk, HeadsOk;
    Exchange(recs, live, own, c, l, x);
    var own' := SetOwn(own, c, l, x);
    forall b | 0 <= b < |logs| && logs[b] != [] ensures HeadsOk(recs, own'[b], logs[b]) {
      assert own'[b] == own[b];
    }
  }

  /** A clone that owns what another one owns may take over its log. */
  lemma AdoptLog(recs: seq<Rec>, live: set<nat>, M: nat, own: seq<seq<int>>, logs: seq<seq<nat>>, d: nat, s: nat)
    requires PoolOk(recs, live, M, own, logs, -1) && d < |logs| && s < |logs| && own[d] == own[s]
    requires HeadsOk(recs, own[s], logs[s]) && forall b :: 0 <= b < |logs| && b != d ==> HeadsOk(recs, own[b], logs[b])
    ensures PoolOk(recs, live, M, own, logs[d := logs[s]], -1) && EveryHead(recs, own, logs[d := logs[s]])
  {
    hide RefOk, LogOk, HeadsOk;
    var logs' := logs[d := logs[s]];
    forall b | 0 <= b < |logs'| ensures LogOk(recs, live, M, logs'[b]) && HeadsOk(recs, own[b], logs'[b]) {
      assert LogOk(recs, live, M, logs[b]) && LogOk(recs, live, M, logs[s]);
    }
  }
}
