/** Any number of clones of the simulated medium over one pool of reference-counted records. */
module VersionStore {
  import opened Segments
  import opened Versions

  /** A pool without records serves clones without writes. */
  lemma EmptyPool(N: nat, M: nat)
    ensures var own, logs := seq(N, _ => seq(M, _ => -1)), seq(N, _ => []);
            && PoolOk([], {}, M, own, logs, -1) && EveryHead([], own, logs) && Referred([], {}, -1)
            && FreeOk([], {}, {}, [], -1, 0)
  {
  }

  class Stores {
    const N: nat
    const M: nat
    const chunk: nat
    const data: array2<int>
    const tail: array<int>
    const nr: array<nat>
    const begin: array<nat>
    var recs: seq<Rec>
    var freeHead: int
    var freeNr: nat
    ghost var live: set<nat>
    ghost var free: seq<nat>
    ghost var logs: seq<seq<nat>>
    ghost var own: seq<seq<int>>
    ghost var made: seq<seq<Wr>>

    /** `N` clones of a medium of `M` blocks that nothing was written to. */
    constructor (N: nat, M: nat, chunk: nat)
      requires 0 < chunk
      ensures this.N == N && this.M == M && this.chunk == chunk && Valid()
      ensures forall c :: 0 <= c < N ==> Log(c) == []
      ensures fresh(data) && fresh(tail) && fresh(nr) && fresh(begin)
    {
      this.N, this.M, this.chunk := N, M, chunk;
      data := new int[N, M]((_, _) => -1);
      tail := new int[N](_ => -1);
      nr := new nat[N](_ => 0);
      begin := new nat[N](_ => 0);
      recs, freeHead, freeNr := [], -1, 0;
      live, free := {}, [];
      logs := seq(N, _ => []);
      own := seq(N, _ => seq(M, _ => -1));
      made := seq(N, _ => []);
      new;
      EmptyPool(N, M);
      hide PoolOk, FreeOk, EveryHead, Referred, Writes;
    }

    ghost predicate Arrays()
      reads this`own, this`logs
    {
      && 0 < chunk && data.Length0 == N && data.Length1 == M && tail.Length == nr.Length == begin.Length == N
      && nr != begin && |logs| == N && OwnShape(own, N, M)
    }

    /** The entries of every clone are the ones it owns, its tail and count are those of its log. */
    ghost predicate Mirrored()
      requires Arrays()
      reads this`own, this`logs, data, tail, nr, begin
    {
      && (forall c, l :: 0 <= c < N && 0 <= l < M ==> data[c, l] == own[c][l])
      && (forall c :: 0 <= c < N ==>
        && tail[c] == (if logs[c] == [] then -1 else logs[c][|logs[c]| - 1])
        && nr[c] == |logs[c]| && begin[c] <= nr[c])
    }

    /** The pool, with an extra reference and some records in limbo. */
    ghost predicate Pool(extra: int, limbo: set<nat>)
      reads this`recs, this`freeHead, this`freeNr, this`live, this`free, this`logs, this`own
    {
      PoolOk(recs, live, M, own, logs, extra) && FreeOk(recs, live, limbo, free, freeHead, freeNr)
    }

    /** The first `begin` writes of a clone are those it was made with. */
    ghost predicate Bases()
      reads this`recs, this`logs, this`made, begin
    {
      |made| == N == begin.Length && forall c :: 0 <= c < N ==> Shared(Log(c), made[c], begin[c])
    }

    ghost predicate Valid()
      reads this, data, tail, nr, begin
    {
      && Arrays() && Mirrored() && Pool(-1, {}) && Referred(recs, live, -1)
      && EveryHead(recs, own, logs) && Bases()
    }

    /** The block writes that make up clone `c`. */
    ghost function Log(c: nat): seq<Wr>
      reads this`recs, this`logs
    {
      if c < |logs| then Writes(recs, logs[c]) else []
    }

    // ----- The pool -----

    /** Refills the empty free list. */
    method AllocateBuffer()
      requires 0 < chunk && Pool(-1, {}) && freeNr == 0
      modifies this`recs, this`freeHead, this`freeNr, this`free
      ensures Pool(-1, {}) && freeNr == chunk && old(recs) <= recs && |recs| == |old(recs)| + chunk
    {
      hide PoolOk;
      ghost var old0 := recs;
      var base := |recs|;
      var ii := 0;
      while ii < chunk
        invariant ii <= chunk && old0 <= recs && |recs| == base + ii && Fresh(recs, base, ii, chunk)
      {
        recs := recs + [Rec(-1, 0, if ii + 1 < chunk then base + ii + 1 else -1, -1, 0)];
        ii := ii + 1;
      }
      FreeFill(old0, recs, live, chunk);
      PoolOutside(old0, recs, live, M, own, logs, -1);
      free := seq(chunk, k requires 0 <= k => base + k);
      freeHead := base;
      freeNr := chunk;
    }

    /** Takes a record out of the free list, with one reference that nobody holds yet. */
    method Get() returns (x: nat)
      requires 0 < chunk && Pool(-1, {})
      modifies this`recs, this`freeHead, this`freeNr, this`free
      ensures x !in live && x < |recs| && recs[x].ref == 1 && recs[x].preVer == -1
      ensures freeNr + 1 == if old(freeNr) == 0 then chunk else old(freeNr)
      ensures |recs| == |old(recs)| + if old(freeNr) == 0 then chunk else 0
      ensures Pool(-1, {x}) && |old(recs)| <= |recs| && forall y :: y in live && y < |old(recs)| ==> recs[y] == old(recs)[y]
    {
      hide PoolOk, FreeOk;
      if freeNr == 0 {
        AllocateBuffer();
      }
      ghost var recs0 := recs;
      FreePop(recs, live, free, freeHead, freeNr);
      x := freeHead;
      freeHead := recs[x].preVer;
      freeNr := freeNr - 1;
      free := free[1..];
      recs := recs[x := recs[x].(ref := 1, preVer := -1)];
      PoolOutside(recs0, recs, live, M, own, logs, -1);
    }

    /** Puts a record that is in limbo back into the free list. */
    method Reclaim(x: nat, ghost extra: int, ghost limbo: set<nat>)
      requires Pool(extra, limbo) && x in limbo && x < |recs|
      modifies this`recs, this`freeHead, this`freeNr, this`free
      ensures Pool(extra, limbo - {x}) && |recs| == |old(recs)| && SameLogs(old(recs), recs, logs)
      ensures forall y :: y != x && 0 <= y < |recs| ==> recs[y] == old(recs)[y]
      ensures old(Referred(recs, live, -1)) ==> Referred(recs, live, -1)
    {
      hide PoolOk, FreeOk;
      ghost var recs0 := recs;
      FreePush(recs, live, limbo, free, freeHead, freeNr, x, Rec(-1, recs[x].data, freeHead, -1, recs[x].ref));
      FreeLimbo(recs, live, limbo, free, freeHead, freeNr, x);
      recs := recs[x := Rec(-1, recs[x].data, freeHead, -1, recs[x].ref)];
      freeHead := x;
      freeNr := freeNr + 1;
      free := [x] + free;
      PoolOutside(recs0, recs, live, M, own, logs, extra);
    }

    /** Gives up the extra reference to `x`. */
    method Decrement(x: nat, ghost limbo: set<nat>)
      requires Pool(x, limbo) && Referred(recs, live, -1)
      modifies this`recs
      ensures Pool(-1, limbo) && Referred(recs, live, x) && SameLogs(old(recs), recs, logs)
      ensures x in live && x < |recs| == |old(recs)| && 0 <= recs[x].ref
    {
      hide PoolOk, FreeOk;
      PoolDrop(recs, live, M, own, logs, x);
      FreeCount(recs, live, limbo, free, freeHead, freeNr, x, -1);
      recs := recs[x := recs[x].(ref := recs[x].ref - 1)];
    }

    /** Drops the extra reference to `x`.  A record without references is reclaimed, and with it
        the older versions that only it kept; nothing that a log needs goes. */
    method Put(x: nat)
      requires Pool(x, {}) && Referred(recs, live, -1)
      modifies this`recs, this`freeHead, this`freeNr, this`free, this`live
      ensures Pool(-1, {}) && Referred(recs, live, -1) && SameLogs(old(recs), recs, logs)
    {
      hide PoolOk, FreeOk, SameLogs;
      ghost var recs0 := recs;
      Decrement(x, {});
      if recs[x].ref == 0 {
        var pre := recs[x].preVer;
        Bury(recs, live, M, own, logs, {}, free, freeHead, freeNr, x);
        live := live - {x};
        assert {} + {x} == {x};
        while pre != -1
          invariant Pool(pre, {x}) && Referred(recs, live, -1) && x < |recs| && SameLogs(recs0, recs, logs)
          decreases live
        {
          ExtraNat(recs, live, M, own, logs, pre);
          ghost var recs1 := recs;
          Decrement(pre, {x});
          SameLogsTrans(recs0, recs1, recs, logs);
          if recs[pre].ref != 0 {
            pre := -1;
            break;
          }
          var cur := pre;
          pre := recs[cur].preVer;
          Bury(recs, live, M, own, logs, {x}, free, freeHead, freeNr, cur);
          live := live - {cur};
          ghost var recs2 := recs;
          Reclaim(cur, pre, {x} + {cur});
          SameLogsTrans(recs0, recs2, recs, logs);
          assert {x} + {cur} - {cur} == {x};
        }
        ghost var recs3 := recs;
        assert {x} - {x} == {};
        Reclaim(x, -1, {x});
        SameLogsTrans(recs0, recs3, recs, logs);
      }
    }

    // ----- A clone -----

    /** Writes a block of clone `c`; no other clone sees it. */
    method BlockWrite(c: nat, lba: nat, body: int)
      requires Valid() && c < N && lba < M
      modifies this`recs, this`freeHead, this`freeNr, this`free, this`live, this`own, this`logs, data, tail, nr
      ensures Valid() && Log(c) == old(Log(c)) + [Wr(lba, body)]
      ensures forall b :: 0 <= b < N && b != c ==> Log(b) == old(Log(b))
    {
      hide PoolOk, FreeOk, EveryHead, Referred, Writes;
      var x := Get();
      GotHeads(old(recs), recs, live, M, old(own), logs);
      var r := Rec(lba, body, data[c, lba], tail[c], 1);
      WriteKeeps(recs, live, M, own, logs, c, x, r);
      FreeUse(recs, live, free, freeHead, freeNr, x, r);
      recs := recs[x := r];
      live := live + {x};
      own := SetOwn(own, c, lba, x);
      logs := logs[c := logs[c] + [x]];
      SetEntry(c, lba, x, x, nr[c] + 1);
    }

    /** Stores an entry, the tail and the count of one clone. */
    method SetEntry(c: nat, lba: nat, x: int, t: int, n: nat)
      requires c < N && lba < M && data.Length0 == N && data.Length1 == M && tail.Length == nr.Length == N
      modifies data, tail, nr
      ensures data[c, lba] == x && tail[c] == t && nr[c] == n
      ensures forall i, j :: 0 <= i < N && 0 <= j < M && (i != c || j != lba) ==> data[i, j] == old(data[i, j])
      ensures forall i :: 0 <= i < N && i != c ==> tail[i] == old(tail[i]) && nr[i] == old(nr[i])
    {
      data[c, lba] := x;
      tail[c] := t;
      nr[c] := n;
    }

    /** Reads a block: nothing when the clone never wrote it, else what its log last wrote there. */
    method BlockRead(c: nat, lba: nat) returns (r: Option<int>)
      requires Valid() && c < N && lba < M
      ensures r == if lba in Fold(Log(c)) then Some(Fold(Log(c))[lba]) else None
    {
      hide FreeOk, Referred, RefOk;
      ClonesFold(recs, live, M, own, logs, c, lba);
      var x := data[c, lba];
      if x == -1 {
        return None;
      }
      if recs[x].lba != lba {
        assert false;
      }
      return Some(recs[x].data);
    }

    /** Takes back the last write of a clone. */
    method RollbackOne(c: nat)
      requires Valid() && c < N && nr[c] > 0
      modifies this`recs, this`freeHead, this`freeNr, this`free, this`live, this`own, this`logs, data, tail, nr, begin
      ensures Valid() && nr[c] == old(nr[c]) - 1 && Log(c) == old(Log(c))[..old(nr[c]) - 1]
      ensures forall b :: 0 <= b < N && b != c ==> Log(b) == old(Log(b))
      ensures begin[..] == old(begin[..])[c := Least(old(begin[c]), nr[c])]
    {
      hide PoolOk, FreeOk, EveryHead, Referred, Writes, OwnShape;
      var x := Unlink(c);
      ghost var recs1 := recs;
      Put(x);
      HeadsElse(recs1, recs, live, M, own, own, logs, -1);
      assert nr[c] == |Log(c)| by { WritesLen(recs, logs[c]); }
    }

    /** Points the entry of the last written block back to the version before; the reference to the
        last write is left over. */
    method Unlink(c: nat) returns (x: nat)
      requires Valid() && c < N && nr[c] > 0
      modifies this`recs, this`own, this`logs, data, tail, nr, begin
      ensures Arrays() && Mirrored() && Pool(x, {}) && Referred(recs, live, -1) && EveryHead(recs, own, logs)
      ensures nr[c] == old(nr[c]) - 1 && Log(c) == old(Log(c))[..old(nr[c]) - 1]
      ensures forall b :: 0 <= b < N && b != c ==> Log(b) == old(Log(b))
      ensures begin[..] == old(begin[..])[c := Least(old(begin[c]), nr[c])]
    {
      hide PoolOk, FreeOk, EveryHead, Referred, Writes;
      x := tail[c];
      ghost var recs0, logs0, own0 := recs, logs, own;
      LastWrite(recs, live, M, own, logs, c, x);
      var lba, p := recs[x].lba, recs[x].preVer;
      own := SetOwn(own, c, lba, p);
      logs := logs[c := logs[c][..|logs[c]| - 1]];
      SetEntry(c, lba, p, recs[x].preWrite, nr[c] - 1);
      Settle(c);
      RollbackKeeps(recs0, live, M, own0, logs0, c, x, Revived(recs0, p), own, logs);
      if p != -1 {
        FreeCount(recs, live, {}, free, freeHead, freeNr, p, 1);
        recs := recs[p := recs[p].(ref := recs[p].ref + 1)];
      }
    }

    /** A clone that goes back behind the point where it was made forgets that point. */
    method Settle(c: nat)
      requires c < N && nr.Length == begin.Length == N && nr != begin
      modifies begin
      ensures begin[..] == old(begin[..])[c := Least(old(begin[c]), nr[c])]
    {
      if nr[c] < begin[c] {
        begin[c] := nr[c];
      }
    }

    /** Takes back the last `n` writes of a clone, or refuses when there are not so many. */
    method Rollback(c: nat, n: nat) returns (ok: bool)
      requires Valid() && c < N
      modifies this`recs, this`freeHead, this`freeNr, this`free, this`live, this`own, this`logs, data, tail, nr, begin
      ensures Valid() && (ok <==> n <= |old(Log(c))|)
      ensures Log(c) == if ok then old(Log(c))[..|old(Log(c))| - n] else old(Log(c))
      ensures forall b :: 0 <= b < N && b != c ==> Log(b) == old(Log(b))
      ensures begin[..] == old(begin[..])[c := Least(old(begin[c]), |Log(c)|)]
    {
      hide PoolOk, FreeOk, EveryHead, Referred, Writes;
      assert nr[c] == |Log(c)| by { WritesLen(recs, logs[c]); }
      if n > nr[c] {
        return false;
      }
      ghost var log := Log(c);
      assert begin[..] == begin[..][c := Least(begin[c], nr[c])];
      var ii := 0;
      while ii < n
        invariant ii <= n <= |log| && Valid() && nr[c] == |log| - ii && Log(c) == log[..|log| - ii]
        invariant forall b :: 0 <= b < N && b != c ==> Log(b) == old(Log(b))
        invariant begin[..] == old(begin[..])[c := Least(old(begin[c]), nr[c])]
      {
        RollbackOne(c);
        ii := ii + 1;
      }
      return true;
    }

    /** Drops every reference of a clone. */
    method EmptyClone(d: nat)
      requires Valid() && d < N
      modifies this`recs, this`freeHead, this`freeNr, this`free, this`live, this`own, this`logs
      ensures Pool(-1, {}) && Referred(recs, live, -1) && OwnShape(own, N, M) && logs == old(logs)[d := []]
      ensures (forall l :: 0 <= l < M ==> own[d][l] == -1) && forall b :: 0 <= b < N && b != d ==> own[b] == old(own[b])
      ensures EveryHead(recs, own, logs) && SameLogs(old(recs), recs, logs)
    {
      hide PoolOk, FreeOk, EveryHead, Referred, SameLogs;
      ForgetLog(recs, live, M, own, logs, d);
      logs := logs[d := []];
      ghost var recs0, own0 := recs, own;
      SameLogsRefl(recs, logs);
      var l := 0;
      while l < M
        invariant l <= M && Pool(-1, {}) && Referred(recs, live, -1) && OwnShape(own, N, M) && SameLogs(recs0, recs, logs)
        invariant logs == old(logs)[d := []]
        invariant forall j :: 0 <= j < M ==> own[d][j] == if j < l then -1 else data[d, j]
        invariant forall b :: 0 <= b < N && b != d ==> own[b] == own0[b]
      {
        if data[d, l] != -1 {
          PoolExchange(recs, live, M, own, logs, d, l, -1);
          ghost var recs1 := recs;
          own := SetOwn(own, d, l, -1);
          ExtraNat(recs, live, M, own, logs, data[d, l]);
          Put(data[d, l]);
          SameLogsTrans(recs0, recs1, recs, logs);
        }
        l := l + 1;
      }
      EmptiedHeads(old(recs), recs, live, M, own0, own, old(logs), d);
    }

    method CopyRow(d: nat, s: nat)
      requires d < N && s < N && data.Length0 == N && data.Length1 == M
      modifies data
      ensures forall i, j :: 0 <= i < N && 0 <= j < M ==> data[i, j] == old(data[if i == d then s else i, j])
    {
      forall j | 0 <= j < M { data[d, j] := data[s, j]; }
    }

    /** Copies the entries of clone `s` and takes a reference to each. */
    method FillClone(d: nat, s: nat)
      requires Arrays() && Pool(-1, {}) && Referred(recs, live, -1) && d < N && s < N && d != s && logs[d] == []
      requires forall l :: 0 <= l < M ==> own[d][l] == -1 && data[s, l] == own[s][l]
      modifies this`recs, this`own, data
      ensures Arrays() && Pool(-1, {}) && Referred(recs, live, -1) && own == old(own)[d := own[s]]
      ensures forall i, j :: 0 <= i < N && 0 <= j < M ==> data[i, j] == old(data[if i == d then s else i, j])
      ensures SameLogs(old(recs), recs, logs)
    {
      hide PoolOk, FreeOk, Referred, SameLogs;
      ghost var recs0, own0 := recs, own;
      CopyRow(d, s);
      SameLogsRefl(recs, logs);
      var l := 0;
      while l < M
        modifies this`recs, this`own
        invariant l <= M && Pool(-1, {}) && Referred(recs, live, -1) && OwnShape(own, N, M) && SameLogs(recs0, recs, logs)
        invariant forall j :: 0 <= j < M ==> own[d][j] == if j < l then own0[s][j] else -1
        invariant forall b :: 0 <= b < N && b != d ==> own[b] == own0[b]
      {
        var x := data[d, l];
        if x != -1 {
          OwnedLive(recs, live, M, own, logs, s, l);
          PoolTake(recs, live, M, own, logs, x);
          FreeCount(recs, live, {}, free, freeHead, freeNr, x, 1);
          TakeReferred(recs, live, x);
          ghost var recs1 := recs;
          recs := recs[x := recs[x].(ref := recs[x].ref + 1)];
          PoolExchange(recs, live, M, own, logs, d, l, x);
          own := SetOwn(own, d, l, x);
          SameLogsTrans(recs0, recs1, recs, logs);
        }
        l := l + 1;
      }
      assert own[d] == own0[s];
      assert own == own0[d := own0[s]];
    }

    /** Makes clone `d` a copy of clone `s`, giving up what it had. */
    method CopyFrom(d: nat, s: nat)
      requires Valid() && d < N && s < N && d != s
      modifies this`recs, this`freeHead, this`freeNr, this`free, this`live, this`own, this`logs, this`made, data, tail, nr, begin
      ensures Valid() && Log(d) == old(Log(s))
      ensures forall b :: 0 <= b < N && b != d ==> Log(b) == old(Log(b))
      ensures made == old(made)[d := Log(d)] && begin[..] == old(begin[..])[d := |Log(d)|]
    {
      hide PoolOk, FreeOk, EveryHead, Referred, Writes, HeadsOk, Shared;
      EmptyClone(d);
      ghost var recs1, own1 := recs, own;
      FillClone(d, s);
      HeadsElse(recs1, recs, live, M, own1, own, logs, d);
      AdoptLog(recs, live, M, own, logs, d, s);
      logs := logs[d := logs[s]];
      tail[d], nr[d], begin[d] := tail[s], nr[s], nr[s];
      made := made[d := Log(d)];
      assert nr[d] == |Log(d)| by { WritesLen(recs, logs[d]); }
      SharedSelf(Log(d));
    }

    /** Writes since the clone was made, as far as they were not taken back: without the last `n` writes
        its log is the beginning of the log that it was made with, and all of it unless a rollback
        went behind that point. */
    method GetCacheNum(c: nat) returns (n: nat)
      requires Valid() && c < N
      ensures n <= |Log(c)| && Log(c)[..|Log(c)| - n] <= made[c] && n == |Log(c)| - begin[c]
      ensures begin[c] == |made[c]| ==> Log(c) == made[c] + Log(c)[|Log(c)| - n..]
    {
      hide PoolOk, FreeOk, EveryHead, Referred, Writes;
      assert nr[c] == |Log(c)| by { WritesLen(recs, logs[c]); }
      assert Shared(Log(c), made[c], begin[c]);
      n := nr[c] - begin[c];
    }
  }

  function Least(a: nat, b: nat): nat {
    if a < b then a else b
  }

  /** The first `n` writes of both logs are the same. */
  ghost predicate Shared(log: seq<Wr>, base: seq<Wr>, n: nat) {
    n <= |log| && n <= |base| && log[..n] == base[..n]
  }

  lemma SharedSelf(log: seq<Wr>)
    ensures Shared(log, log, |log|)
  {
  }

  lemma SameLogsRefl(recs: seq<Rec>, logs: seq<seq<nat>>)
    ensures SameLogs(recs, recs, logs)
  {
  }

  /** The entries of a clone without writes do not depend on the records. */
  lemma HeadsElse(recs: seq<Rec>, recs': seq<Rec>, live: set<nat>, M: nat, own: seq<seq<int>>, own': seq<seq<int>>, logs: seq<seq<nat>>, d: int)
    requires PoolOk(recs', live, M, own', logs, -1) && EveryHead(recs, own, logs)
    requires |own| == |own'| && forall b :: 0 <= b < |logs| && b != d ==> own'[b] == own[b]
    ensures forall b :: 0 <= b < |logs| && b != d ==> HeadsOk(recs', own'[b], logs[b])
    ensures d == -1 ==> EveryHead(recs', own', logs)
  {
    hide RefOk, LogOk, LogsOk;
    forall b | 0 <= b < |logs| && b != d ensures HeadsOk(recs', own'[b], logs[b]) {
      if logs[b] == [] {
        assert HeadsOk(recs, own[b], logs[b]);
      }
    }
  }

  lemma EmptiedHeads(recs: seq<Rec>, recs': seq<Rec>, live: set<nat>, M: nat, own: seq<seq<int>>, own': seq<seq<int>>, logs: seq<seq<nat>>, d: nat)
    requires d < |logs| && PoolOk(recs', live, M, own', logs[d := []], -1) && EveryHead(recs, own, logs)
    requires |own| == |own'| && forall b :: 0 <= b < |logs| && b != d ==> own'[b] == own[b]
    requires forall l :: 0 <= l < |own'[d]| ==> own'[d][l] == -1
    ensures EveryHead(recs', own', logs[d := []])
  {
    hide RefOk, LogOk, LogsOk;
    forall b | 0 <= b < |logs| ensures HeadsOk(recs', own'[b], logs[d := []][b]) {
      if logs[b] == [] {
        assert HeadsOk(recs, own[b], logs[b]);
      }
    }
  }

  lemma OwnedLive(recs: seq<Rec>, live: set<nat>, M: nat, own: seq<seq<int>>, logs: seq<seq<nat>>, c: nat, l: nat)
    requires PoolOk(recs, live, M, own, logs, -1) && c < |own| && l < |own[c]| && own[c][l] != -1
    ensures 0 <= own[c][l] && own[c][l] in live && own[c][l] < |recs|
  {
  }

  lemma TakeReferred(recs: seq<Rec>, live: set<nat>, x: nat)
    requires Referred(recs, live, -1) && x in live && x < |recs|
    ensures Referred(Versions.Counted(recs, x, 1), live, -1)
  {
  }

  lemma WritesLen(recs: seq<Rec>, log: seq<nat>)
    ensures |Writes(recs, log)| == |log|
  {
  }

  lemma GotHeads(recs: seq<Rec>, recs': seq<Rec>, live: set<nat>, M: nat, own: seq<seq<int>>, logs: seq<seq<nat>>)
    requires PoolOk(recs, live, M, own, logs, -1) && EveryHead(recs, own, logs) && |recs| <= |recs'|
    requires forall y :: y in live && y < |recs| ==> recs'[y] == recs[y]
    ensures EveryHead(recs', own, logs) && SameLogs(recs, recs', logs)
    ensures Referred(recs, live, -1) ==> Referred(recs', live, -1)
  {
    hide RefOk, HeadsOk;
    PoolOutside(recs, recs', live, M, own, logs, -1);
    LogsLive(recs, live, M, logs);
    forall c | 0 <= c < |logs| ensures HeadsOk(recs', own[c], logs[c]) {
      HeadsSame(recs, recs', live, own[c], logs[c]);
    }
  }

  /** A record in limbo comes into use. */
  lemma FreeUse(recs: seq<Rec>, live: set<nat>, free: seq<nat>, head: int, nr: nat, x: nat, r: Rec)
    requires FreeOk(recs, live, {x}, free, head, nr)
    ensures x < |recs| && FreeOk(recs[x := r], live + {x}, {}, free, head, nr)
  {
  }

  lemma ClonesFold(recs: seq<Rec>, live: set<nat>, M: nat, own: seq<seq<int>>, logs: seq<seq<nat>>, c: nat, l: nat)
    requires LogsOk(recs, live, M, logs) && EveryHead(recs, own, logs) && c < |logs| && l < |own[c]|
    ensures own[c][l] == -1 <==> l !in Fold(Writes(recs, logs[c]))
    ensures own[c][l] != -1 ==>
              && 0 <= own[c][l] < |recs| && recs[own[c][l]].lba == l && Fold(Writes(recs, logs[c]))[l] == recs[own[c][l]].data
  {
    hide Fold, Writes;
    LogsLive(recs, live, M, logs);
    assert HeadsOk(recs, own[c], logs[c]);
    LastIsFold(recs, logs[c], l);
  }

  lemma SameLogsTrans(recs: seq<Rec>, recs': seq<Rec>, recs'': seq<Rec>, logs: seq<seq<nat>>)
    requires SameLogs(recs, recs', logs) && SameLogs(recs', recs'', logs)
    ensures SameLogs(recs, recs'', logs)
  {
  }

  lemma ExtraNat(recs: seq<Rec>, live: set<nat>, M: nat, own: seq<seq<int>>, logs: seq<seq<nat>>, extra: int)
    requires PoolOk(recs, live, M, own, logs, extra) && extra != -1
    ensures 0 <= extra && extra in live && extra < |recs|
  {
  }

  lemma FreeLimbo(recs: seq<Rec>, live: set<nat>, limbo: set<nat>, free: seq<nat>, head: int, nr: nat, x: nat)
    requires FreeOk(recs, live, limbo, free, head, nr) && x in limbo
    ensures x !in live
  {
  }

  lemma FreeCount(recs: seq<Rec>, live: set<nat>, limbo: set<nat>, free: seq<nat>, head: int, nr: nat, x: nat, d: int)
    requires FreeOk(recs, live, limbo, free, head, nr) && x < |recs|
    ensures FreeOk(Versions.Counted(recs, x, d), live, limbo, free, head, nr)
  {
  }

  /** A record without references goes into limbo. */
  lemma Bury(recs: seq<Rec>, live: set<nat>, M: nat, own: seq<seq<int>>, logs: seq<seq<nat>>, limbo: set<nat>,
             free: seq<nat>, head: int, nr: nat, x: nat)
    requires PoolOk(recs, live, M, own, logs, -1) && FreeOk(recs, live, limbo, free, head, nr)
    requires x in live && x < |recs| && recs[x].ref == 0 && Referred(recs, live, x)
    ensures PoolOk(recs, live - {x}, M, own, logs, recs[x].preVer)
    ensures FreeOk(recs, live - {x}, limbo + {x}, free, head, nr) && Referred(recs, live - {x}, -1)
  {
    hide PoolOk;
    PoolDie(recs, live, M, own, logs, x);
  }
}
