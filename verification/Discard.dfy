/** The pending discard commands as an ordered list of disjoint block ranges: adding a range, and
    issuing a command piece by piece. */
module Discard {
  import opened Basics

  datatype CmdState = Prep | Partial | Submit | Finished

  /** A discard command: `len` blocks from logical block `lstart`, at `start` on device `dev`. */
  datatype Cmd = Cmd(lstart: nat, start: int, len: nat, dev: nat, state: CmdState)
  {
    function End(): nat { lstart + len }
  }

  // ----- Ordered ranges -----

  ghost predicate Ordered(s: seq<Cmd>) {
    && (forall i :: 0 <= i < |s| ==> 0 < s[i].len)
    && (forall i, j :: 0 <= i < j < |s| ==> s[i].End() <= s[j].lstart)
  }

  ghost predicate Covers(s: seq<Cmd>, x: int) {
    exists i :: 0 <= i < |s| && s[i].lstart <= x < s[i].End()
  }

  /** Block `x` is covered on device `v`. */
  ghost predicate On(s: seq<Cmd>, x: int, v: nat) {
    exists i :: 0 <= i < |s| && s[i].lstart <= x < s[i].End() && s[i].dev == v
  }

  function SumLen(s: seq<Cmd>): nat {
    if s == [] then 0 else SumLen(s[..|s| - 1]) + s[|s| - 1].len
  }

  /** Every command lies on its device where the mapping of the device puts it. */
  ghost predicate Mapped(s: seq<Cmd>, shift: nat -> int) {
    forall i :: 0 <= i < |s| ==> s[i].start == s[i].lstart + shift(s[i].dev)
  }

  lemma {:induction false} SumSplit(a: seq<Cmd>, b: seq<Cmd>)
    ensures SumLen(a + b) == SumLen(a) + SumLen(b)
    decreases |b|
  {
    if b == [] {
      assert a + b == a;
    } else {
      assert (a + b)[..|a + b| - 1] == a + b[..|b| - 1];
      SumSplit(a, b[..|b| - 1]);
    }
  }

  lemma CoversSplit(a: seq<Cmd>, b: seq<Cmd>, x: int)
    ensures Covers(a + b, x) <==> Covers(a, x) || Covers(b, x)
  {
    if Covers(a, x) {
      var i :| 0 <= i < |a| && a[i].lstart <= x < a[i].End();
      assert (a + b)[i] == a[i];
    }
    if Covers(b, x) {
      var i :| 0 <= i < |b| && b[i].lstart <= x < b[i].End();
      assert (a + b)[|a| + i] == b[i];
    }
    if Covers(a + b, x) {
      var i :| 0 <= i < |a + b| && (a + b)[i].lstart <= x < (a + b)[i].End();
      if i < |a| {
        assert a[i].lstart <= x < a[i].End();
      } else {
        assert b[i - |a|].lstart <= x < b[i - |a|].End();
      }
    }
  }

  lemma OnSplit(a: seq<Cmd>, b: seq<Cmd>, x: int, v: nat)
    ensures On(a + b, x, v) <==> On(a, x, v) || On(b, x, v)
  {
    if On(a, x, v) {
      var i :| 0 <= i < |a| && a[i].lstart <= x < a[i].End() && a[i].dev == v;
      assert (a + b)[i] == a[i];
    }
    if On(b, x, v) {
      var i :| 0 <= i < |b| && b[i].lstart <= x < b[i].End() && b[i].dev == v;
      assert (a + b)[|a| + i] == b[i];
    }
    if On(a + b, x, v) {
      var i :| 0 <= i < |a + b| && (a + b)[i].lstart <= x < (a + b)[i].End() && (a + b)[i].dev == v;
      if i < |a| {
        assert a[i].lstart <= x < a[i].End() && a[i].dev == v;
      } else {
        assert b[i - |a|].lstart <= x < b[i - |a|].End() && b[i - |a|].dev == v;
      }
    }
  }

  lemma OnOne(c: Cmd, x: int, v: nat)
    ensures On([c], x, v) <==> c.lstart <= x < c.End() && v == c.dev
  {
    if c.lstart <= x < c.End() && v == c.dev {
      assert [c][0].lstart <= x < [c][0].End() && [c][0].dev == v;
    }
  }

  /** A covered block is on one device. */
  lemma OnCovers(s: seq<Cmd>, x: int, v: nat)
    ensures On(s, x, v) ==> Covers(s, x)
    ensures Covers(s, x) ==> exists u :: On(s, x, u)
    ensures Ordered(s) ==> forall u: nat :: On(s, x, u) && On(s, x, v) ==> u == v
  {
    if Covers(s, x) {
      var i :| 0 <= i < |s| && s[i].lstart <= x < s[i].End();
      assert On(s, x, s[i].dev);
    }
  }

  /** The numbers from `a` below `b`. */
  function Range(a: int, b: int): (r: set<int>)
    ensures forall x :: x in r <==> a <= x < b
    decreases b - a
  {
    if a >= b then {} else Range(a, b - 1) + {b - 1}
  }

  lemma {:induction false} RangeSize(a: int, b: int)
    requires a <= b
    ensures |Range(a, b)| == b - a
    decreases b - a
  {
    if a < b {
      RangeSize(a, b - 1);
      assert b - 1 !in Range(a, b - 1);
    }
  }

  /** The blocks that are covered. */
  function CoverSet(s: seq<Cmd>): set<int> {
    if s == [] then {} else CoverSet(s[..|s| - 1]) + Range(s[|s| - 1].lstart, s[|s| - 1].End())
  }

  lemma {:induction false} CoverSetIs(s: seq<Cmd>)
    ensures forall x :: x in CoverSet(s) <==> Covers(s, x)
  {
    if s != [] {
      var init, last := s[..|s| - 1], s[|s| - 1];
      CoverSetIs(init);
      assert s == init + [last];
      forall x ensures x in CoverSet(s) <==> Covers(s, x) {
        CoversSplit(init, [last], x);
        assert Covers([last], x) <==> last.lstart <= x < last.End() by {
          if last.lstart <= x < last.End() {
            assert [last][0].lstart <= x < [last][0].End();
          }
        }
      }
    }
  }

  /** The ranges being disjoint, their lengths add up to the number of blocks covered. */
  lemma {:induction false} SumIsCount(s: seq<Cmd>)
    requires Ordered(s)
    ensures SumLen(s) == |CoverSet(s)|
  {
    if s != [] {
      var init, last := s[..|s| - 1], s[|s| - 1];
      SumIsCount(init);
      CoverSetIs(init);
      RangeSize(last.lstart, last.End());
      assert CoverSet(init) !! Range(last.lstart, last.End()) by {
        forall x | x in CoverSet(init) ensures x !in Range(last.lstart, last.End()) {
          assert Covers(init, x);
          var i :| 0 <= i < |init| && init[i].lstart <= x < init[i].End();
          assert s[i].End() <= s[|s| - 1].lstart;
        }
      }
    }
  }

  /** Equal coverage means equal totals. */
  lemma SameTotal(s: seq<Cmd>, t: seq<Cmd>)
    requires Ordered(s) && Ordered(t) && forall x :: Covers(s, x) <==> Covers(t, x)
    ensures SumLen(s) == SumLen(t)
  {
    hide Ordered, SumLen, CoverSet;
    SumIsCount(s);
    SumIsCount(t);
    CoverSetIs(s);
    CoverSetIs(t);
    forall x ensures x in CoverSet(s) <==> x in CoverSet(t) {
      assert Covers(s, x) <==> Covers(t, x);
    }
    assert CoverSet(s) == CoverSet(t);
  }

  /** The total grows by the number of blocks that were not covered before. */
  lemma GrowsByNew(s: seq<Cmd>, t: seq<Cmd>, a: int, b: int)
    requires Ordered(s) && Ordered(t) && forall x :: Covers(t, x) <==> Covers(s, x) || a <= x < b
    ensures SumLen(t) == SumLen(s) + |Range(a, b) - CoverSet(s)|
  {
    SumIsCount(s);
    SumIsCount(t);
    UnionByNew(s, t, a, b);
    hide Covers, CoverSet, Ordered, SumLen, Range;
    UnionSize(CoverSet(s), Range(a, b), CoverSet(t));
  }

  lemma UnionByNew(s: seq<Cmd>, t: seq<Cmd>, a: int, b: int)
    requires forall x :: Covers(t, x) <==> Covers(s, x) || a <= x < b
    ensures forall x :: x in CoverSet(t) <==> x in CoverSet(s) || x in Range(a, b)
  {
    hide Covers, CoverSet;
    CoverSetIs(s);
    CoverSetIs(t);
  }

  lemma UnionSize(before: set<int>, added: set<int>, all: set<int>)
    requires forall x :: x in all <==> x in before || x in added
    ensures |all| == |before| + |added - before|
  {
    var extra := added - before;
    forall x ensures x in all <==> x in before + extra {
    }
    assert all == before + extra;
    assert |before + extra| == |before| + |extra|;
  }

  // ----- Merging -----

  predicate Mergeable(back: Cmd, front: Cmd, max: nat) {
    back.End() == front.lstart && back.len + front.len <= max
  }

  /** Two neighbours that are pending on one device and could be one command. */
  predicate Joins(a: Cmd, b: Cmd, max: nat) {
    a.state == Prep && b.state == Prep && a.dev == b.dev && a.End() == b.lstart && a.len + b.len <= max
  }

  /** No two neighbours could be one command. */
  ghost predicate Coalesced(s: seq<Cmd>, max: nat) {
    forall i :: 0 <= i < |s| - 1 ==> !Joins(s[i], s[i + 1], max)
  }

  /** What filling the gap before command `k` with `d` makes of the list, and where that command is
      then; the other commands are left alone and no merged command is longer than `max`. */
  ghost predicate Filled(s: seq<Cmd>, k: nat, d: Cmd, max: nat, s': seq<Cmd>, k': nat) {
    && k <= |s| && k' <= |s'| && Ordered(s')
    && |s| - k == |s'| - k' && (k < |s| ==> s'[k'].End() == s[k].End()) && (k < |s| ==> s'[k' + 1..] == s[k + 1..])
    && (forall x :: Covers(s', x) <==> Covers(s, x) || d.lstart <= x < d.End())
    && (forall x, v :: On(s', x, v) <==> On(s, x, v) || (v == d.dev && d.lstart <= x < d.End()))
    && SumLen(s') == SumLen(s) + d.len
    && (Coalesced(s, max) ==> Coalesced(s', max))
    && (forall i :: 0 <= i < |s'| ==> s'[i].len <= max || s'[i] in s || s'[i] == d)
    && (forall i :: 0 <= i < |s| && s[i].state != Prep ==> s[i] in s')
  }

  /** `d` fits between command `k - 1` and command `k`. */
  ghost predicate Fits(s: seq<Cmd>, k: nat, d: Cmd) {
    && Ordered(s) && k <= |s| && 0 < d.len && d.state == Prep
    && (k > 0 ==> s[k - 1].End() <= d.lstart) && (k < |s| ==> d.End() <= s[k].lstart)
  }

  function Insert(s: seq<Cmd>, k: nat, d: Cmd): seq<Cmd>
    requires k <= |s|
  {
    s[..k] + [d] + s[k..]
  }

  lemma FitsAll(s: seq<Cmd>, k: nat, d: Cmd)
    requires Fits(s, k, d)
    ensures forall i :: 0 <= i < k ==> s[i].End() <= d.lstart
    ensures forall i :: k <= i < |s| ==> d.End() <= s[i].lstart
  {
  }

  lemma InsertAt(s: seq<Cmd>, k: nat, d: Cmd, i: nat)
    requires k <= |s| && i <= |s|
    ensures |Insert(s, k, d)| == |s| + 1
    ensures Insert(s, k, d)[i] == if i < k then s[i] else if i == k then d else s[i - 1]
  {
  }

  lemma InsertSum(s: seq<Cmd>, k: nat, d: Cmd)
    requires k <= |s|
    ensures SumLen(Insert(s, k, d)) == SumLen(s) + d.len
  {
    assert s == s[..k] + s[k..];
    SumSplit(s[..k], s[k..]);
    SumSplit(s[..k] + [d], s[k..]);
    SumSplit(s[..k], [d]);
    assert [d][..0] == [];
  }

  lemma InsertOrdered(s: seq<Cmd>, k: nat, d: Cmd)
    requires Fits(s, k, d)
    ensures Ordered(Insert(s, k, d)) && SumLen(Insert(s, k, d)) == SumLen(s) + d.len
  {
    InsertSum(s, k, d);
    FitsAll(s, k, d);
    hide Insert, SumLen;
    var s' := Insert(s, k, d);
    InsertAt(s, k, d, 0);
    forall i | 0 <= i < |s'| ensures 0 < s'[i].len {
      InsertAt(s, k, d, i);
    }
    forall i, j | 0 <= i < j < |s'| ensures s'[i].End() <= s'[j].lstart {
      InsertAt(s, k, d, i);
      InsertAt(s, k, d, j);
    }
  }

  lemma InsertFills(s: seq<Cmd>, k: nat, d: Cmd, max: nat)
    requires Fits(s, k, d) && (k > 0 ==> !Joins(s[k - 1], d, max)) && (k < |s| ==> !Joins(d, s[k], max))
    ensures Filled(s, k, d, max, Insert(s, k, d), k + 1)
  {
    hide Ordered, Covers, On, Joins, SumLen;
    InsertOrdered(s, k, d);
    InsertCovers(s, k, d);
    InsertOn(s, k, d);
    var s' := Insert(s, k, d);
    forall i | 0 <= i < |s'| ensures s'[i] in s || s'[i] == d {
      if i != k {
        assert s'[i] == s[if i < k then i else i - 1];
      }
    }
    forall i | 0 <= i < |s| && s[i].state != Prep ensures s[i] in s' {
      assert s'[if i < k then i else i + 1] == s[i];
    }
  }

  lemma InsertCovers(s: seq<Cmd>, k: nat, d: Cmd)
    requires k <= |s|
    ensures forall x :: Covers(Insert(s, k, d), x) <==> Covers(s, x) || d.lstart <= x < d.End()
  {
    forall x ensures Covers(Insert(s, k, d), x) <==> Covers(s, x) || d.lstart <= x < d.End() {
      assert s == s[..k] + s[k..];
      CoversSplit(s[..k], s[k..], x);
      CoversSplit(s[..k] + [d], s[k..], x);
      CoversSplit(s[..k], [d], x);
      assert Covers([d], x) <==> d.lstart <= x < d.End() by {
        if d.lstart <= x < d.End() {
          assert [d][0].lstart <= x < [d][0].End();
        }
      }
    }
  }

  lemma InsertOn(s: seq<Cmd>, k: nat, d: Cmd)
    requires k <= |s|
    ensures forall x, v :: On(Insert(s, k, d), x, v) <==> On(s, x, v) || (v == d.dev && d.lstart <= x < d.End())
  {
    hide On;
    forall x, v ensures On(Insert(s, k, d), x, v) <==> On(s, x, v) || (v == d.dev && d.lstart <= x < d.End()) {
      assert s == s[..k] + s[k..];
      OnSplit(s[..k], s[k..], x, v);
      OnSplit(s[..k] + [d], s[k..], x, v);
      OnSplit(s[..k], [d], x, v);
      OnOne(d, x, v);
    }
  }

  /** So does the device of every block stay, when they are all on one. */
  lemma SpanOn(s: seq<Cmd>, i: nat, j: nat, c: Cmd, x: int, v: nat)
    requires i < j <= |s| && c.lstart == s[i].lstart && c.End() == s[j - 1].End() && j - i <= 3
    requires forall k :: i < k < j ==> s[k].lstart == s[k - 1].End()
    requires forall k :: i <= k < j ==> s[k].dev == c.dev
    ensures On(s[..i] + [c] + s[j..], x, v) <==> On(s, x, v)
  {
    var mid := s[i..j];
    assert s == s[..i] + mid + s[j..];
    OnSplit(s[..i], mid, x, v);
    OnSplit(s[..i] + mid, s[j..], x, v);
    OnSplit(s[..i], [c], x, v);
    OnSplit(s[..i] + [c], s[j..], x, v);
    assert mid[..0] + [c] + mid[|mid|..] == [c];
    SpanAt(mid, 0, |mid|, c, x);
    OneDev(mid, c.dev, x, v);
    OneDev([c], c.dev, x, v);
  }

  lemma OneDev(s: seq<Cmd>, dev: nat, x: int, v: nat)
    requires forall k :: 0 <= k < |s| ==> s[k].dev == dev
    ensures On(s, x, v) <==> Covers(s, x) && v == dev
  {
  }

  /** Replacing adjoining commands by one that spans them changes neither coverage nor total. */
  lemma SpanCovers(s: seq<Cmd>, i: nat, j: nat, c: Cmd)
    requires Ordered(s) && i < j <= |s| && c.lstart == s[i].lstart && c.End() == s[j - 1].End()
    requires forall k :: i < k < j ==> s[k].lstart == s[k - 1].End()
    requires j - i <= 3
    ensures Ordered(s[..i] + [c] + s[j..])
    ensures forall x :: Covers(s[..i] + [c] + s[j..], x) <==> Covers(s, x)
    ensures SumLen(s[..i] + [c] + s[j..]) == SumLen(s)
  {
    var s' := s[..i] + [c] + s[j..];
    SpanOrdered(s, i, j, c);
    forall x ensures Covers(s', x) <==> Covers(s, x) {
      SpanAt(s, i, j, c, x);
    }
    SameTotal(s, s');
  }

  lemma SpanOrdered(s: seq<Cmd>, i: nat, j: nat, c: Cmd)
    requires Ordered(s) && i < j <= |s| && c.lstart == s[i].lstart && c.End() == s[j - 1].End()
    ensures Ordered(s[..i] + [c] + s[j..])
  {
    var s' := s[..i] + [c] + s[j..];
    forall k | 0 <= k < |s'| ensures 0 < s'[k].len {
      SpanPlace(s, i, j, c, k);
      if k == i {
        assert i < j - 1 ==> s[i].End() <= s[j - 1].lstart;
      }
    }
    forall k, l | 0 <= k < l < |s'| ensures s'[k].End() <= s'[l].lstart {
      SpanPlace(s, i, j, c, k);
      SpanPlace(s, i, j, c, l);
    }
  }

  /** Where the command at `k` after the replacement was before. */
  lemma SpanPlace(s: seq<Cmd>, i: nat, j: nat, c: Cmd, k: nat)
    requires i < j <= |s| && k < |s| - (j - i) + 1
    ensures (s[..i] + [c] + s[j..])[k] == if k < i then s[k] else if k == i then c else s[k + j - i - 1]
  {
  }

  lemma SpanAt(s: seq<Cmd>, i: nat, j: nat, c: Cmd, x: int)
    requires i < j <= |s| && c.lstart == s[i].lstart && c.End() == s[j - 1].End() && j - i <= 3
    requires forall k :: i < k < j ==> s[k].lstart == s[k - 1].End()
    ensures Covers(s[..i] + [c] + s[j..], x) <==> Covers(s, x)
  {
    var mid := s[i..j];
    assert s == s[..i] + mid + s[j..];
    CoversSplit(s[..i], mid, x);
    CoversSplit(s[..i] + mid, s[j..], x);
    CoversSplit(s[..i], [c], x);
    CoversSplit(s[..i] + [c], s[j..], x);
    if c.lstart <= x < c.End() {
      assert [c][0].lstart <= x < [c][0].End();
      if x < s[i].End() {
        assert mid[0].lstart <= x < mid[0].End();
      } else if x < s[i + 1].End() {
        assert s[i + 1].lstart == s[i].End();
        assert mid[1].lstart <= x < mid[1].End();
      } else {
        assert s[i + 2].lstart == s[i + 1].End();
        assert mid[2].lstart <= x < mid[2].End();
      }
    }
    if Covers(mid, x) {
      var k :| 0 <= k < |mid| && mid[k].lstart <= x < mid[k].End();
      assert s[i + k].lstart <= x < s[i + k].End();
      if j - i >= 2 {
        assert s[i + 1].lstart == s[i].End();
      }
      if j - i >= 3 {
        assert s[i + 2].lstart == s[i + 1].End();
      }
    }
  }

  /** Where the commands are after a merge of `t[i..j]` into `c`. */
  lemma SpanAtIndex(t: seq<Cmd>, i: nat, j: nat, c: Cmd, m: nat)
    requires i < j <= |t| && m < |t| - (j - i) + 1
    ensures |t[..i] + [c] + t[j..]| == |t| - (j - i) + 1
    ensures (t[..i] + [c] + t[j..])[m] == if m < i then t[m] else if m == i then c else t[m + (j - i) - 1]
  {
  }

  /** Merging is inserting and then replacing adjoining commands by one. */
  lemma SpanFills(s: seq<Cmd>, k: nat, d: Cmd, max: nat, i: nat, j: nat, c: Cmd, k': nat)
    requires Fits(s, k, d) && i < j <= |s| + 1 && i <= k < j && j - i <= 3
    requires c.lstart == Insert(s, k, d)[i].lstart && c.End() == Insert(s, k, d)[j - 1].End() && c.len <= max
    requires forall m :: i < m < j ==> Insert(s, k, d)[m].lstart == Insert(s, k, d)[m - 1].End()
    requires forall m :: i <= m < j ==> Insert(s, k, d)[m].state == Prep && Insert(s, k, d)[m].dev == c.dev
    requires Coalesced(s, max) ==> Coalesced(Insert(s, k, d)[..i] + [c] + Insert(s, k, d)[j..], max)
    requires k - 1 <= i && j <= k + 2 && 2 <= j - i && k' == (if j == k + 2 then i else k)
    ensures Filled(s, k, d, max, Insert(s, k, d)[..i] + [c] + Insert(s, k, d)[j..], k')
  {
    hide Covers, On, SumLen, Ordered, Insert, Filled, Coalesced;
    var t := Insert(s, k, d);
    InsertAt(s, k, d, 0);
    InsertOrdered(s, k, d);
    InsertCovers(s, k, d);
    InsertOn(s, k, d);
    SpanCovers(t, i, j, c);
    forall x, v ensures On(t[..i] + [c] + t[j..], x, v) <==> On(t, x, v) {
      SpanOn(t, i, j, c, x, v);
    }
    var s' := t[..i] + [c] + t[j..];
    SpanAtIndex(t, i, j, c, 0);
    forall m | 0 <= m < |s'| ensures s'[m] == c || s'[m] in s {
      SpanAtIndex(t, i, j, c, m);
      if m != i {
        var o := if m < i then m else m + j - i - 1;
        InsertAt(s, k, d, o);
      }
    }
    forall m | 0 <= m < |s| && s[m].state != Prep ensures s[m] in s' {
      var o := if m < k then m else m + 1;
      InsertAt(s, k, d, o);
      SpanAtIndex(t, i, j, c, if o < i then o else o - (j - i - 1));
    }
    SpanTail(s, k, d, i, j, c, k');
    NowFilled(s, k, d, max, s', k', c);
  }

  /** What follows the gap is where it was, seen from the end. */
  lemma SpanTail(s: seq<Cmd>, k: nat, d: Cmd, i: nat, j: nat, c: Cmd, k': nat)
    requires k <= |s| && i < j <= |s| + 1 && i <= k < j && c.End() == Insert(s, k, d)[j - 1].End()
    requires k - 1 <= i && j <= k + 2 && 2 <= j - i && k' == (if j == k + 2 then i else k)
    ensures var s' := Insert(s, k, d)[..i] + [c] + Insert(s, k, d)[j..];
            && |s'| - k' == |s| - k && k' <= |s'|
            && (k < |s| ==> s'[k'].End() == s[k].End() && s'[k' + 1..] == s[k + 1..])
  {
    var t := Insert(s, k, d);
    var s' := t[..i] + [c] + t[j..];
    assert t[k + 1..] == s[k..];
    if j == k + 2 {
      assert t[j..] == s[k + 1..];
      assert s'[i + 1..] == t[j..];
      InsertAt(s, k, d, j - 1);
    } else {
      assert s'[i + 1..] == t[j..];
      assert i == k - 1 || i == k;
      if k < |s| {
        assert s'[k] == t[k + (j - i) - 1];
      }
    }
  }

  lemma NowFilled(s: seq<Cmd>, k: nat, d: Cmd, max: nat, s': seq<Cmd>, k': nat, c: Cmd)
    requires k <= |s| && k' <= |s'| && Ordered(s') && |s| - k == |s'| - k'
    requires k < |s| ==> s'[k'].End() == s[k].End() && s'[k' + 1..] == s[k + 1..]
    requires forall x :: Covers(s', x) <==> Covers(s, x) || d.lstart <= x < d.End()
    requires forall x, v :: On(s', x, v) <==> On(s, x, v) || (v == d.dev && d.lstart <= x < d.End())
    requires SumLen(s') == SumLen(s) + d.len && (Coalesced(s, max) ==> Coalesced(s', max))
    requires forall i :: 0 <= i < |s'| ==> s'[i] in s || s'[i] == c
    requires c.len <= max || c == d
    requires forall i :: 0 <= i < |s| && s[i].state != Prep ==> s[i] in s'
    ensures Filled(s, k, d, max, s', k')
  {
    hide Covers, On, SumLen, Ordered, Coalesced;
  }

  /** Replacing what was inserted, with a neighbour or both, is a change of the list itself. */
  lemma InsertCut(s: seq<Cmd>, k: nat, d: Cmd, c: Cmd, i: nat, j: nat)
    requires k <= |s| && (k == i || k == i + 1) && k < j <= |s| + 1
    ensures |Insert(s, k, d)| == |s| + 1 && Insert(s, k, d)[..i] + [c] + Insert(s, k, d)[j..] == s[..i] + [c] + s[j - 1..]
    ensures j == i + 2 ==> s[..i] + [c] + s[j - 1..] == s[i := c]
  {
  }

  /** Extending the command before the gap. */
  lemma BackFills(s: seq<Cmd>, k: nat, d: Cmd, max: nat)
    requires Fits(s, k, d) && k > 0 && Joins(s[k - 1], d, max)
    requires k < |s| ==> !Joins(s[k - 1].(len := s[k - 1].len + d.len), s[k], max)
    ensures Filled(s, k, d, max, s[k - 1 := s[k - 1].(len := s[k - 1].len + d.len)], k)
  {
    hide Insert, Filled, Ordered, Coalesced;
    var c := s[k - 1].(len := s[k - 1].len + d.len);
    InsertCut(s, k, d, c, k - 1, k + 1);
    InsertAt(s, k, d, k - 1);
    InsertAt(s, k, d, k);
    GrownApart(s, k - 1, c, max);
    SpanFills(s, k, d, max, k - 1, k + 1, c, k);
  }

  function Front(di: Cmd, next: Cmd): Cmd {
    next.(lstart := di.lstart, len := next.len + di.len, start := di.start)
  }

  /** Extending the command after the gap. */
  lemma FrontFills(s: seq<Cmd>, k: nat, d: Cmd, max: nat)
    requires Fits(s, k, d) && k < |s| && Joins(d, s[k], max) && (k > 0 ==> !Joins(s[k - 1], d, max))
    ensures Filled(s, k, d, max, s[k := Front(d, s[k])], k)
  {
    hide Insert, Filled, Ordered, Coalesced;
    var c := Front(d, s[k]);
    InsertCut(s, k, d, c, k, k + 2);
    InsertAt(s, k, d, k);
    InsertAt(s, k, d, k + 1);
    GrownApart(s, k, c, max);
    SpanFills(s, k, d, max, k, k + 2, c, k);
  }

  /** Closing the gap: the command before it goes into the command after it. */
  lemma BothFill(s: seq<Cmd>, k: nat, d: Cmd, max: nat)
    requires Fits(s, k, d) && 0 < k < |s| && Joins(s[k - 1], d, max)
    requires Joins(s[k - 1].(len := s[k - 1].len + d.len), s[k], max)
    ensures Filled(s, k, d, max, s[..k - 1] + [Front(s[k - 1].(len := s[k - 1].len + d.len), s[k])] + s[k + 1..], k - 1)
  {
    hide Insert, Filled, Ordered, Coalesced;
    var c := Front(s[k - 1].(len := s[k - 1].len + d.len), s[k]);
    InsertCut(s, k, d, c, k - 1, k + 2);
    InsertAt(s, k, d, k - 1);
    InsertAt(s, k, d, k);
    InsertAt(s, k, d, k + 1);
    JoinedApart(s, k, c, max);
    SpanFills(s, k, d, max, k - 1, k + 2, c, k - 1);
  }

  /** A command that grows on one side joins nothing on the other that it did not join before. */
  lemma GrownApart(s: seq<Cmd>, i: nat, c: Cmd, max: nat)
    requires i < |s| && c.len >= s[i].len && c.state == s[i].state && c.dev == s[i].dev
    requires c.lstart == s[i].lstart || (i > 0 ==> !Joins(s[i - 1], c, max))
    requires c.End() == s[i].End() || (i < |s| - 1 ==> !Joins(c, s[i + 1], max))
    ensures Coalesced(s, max) ==> Coalesced(s[i := c], max)
  {
  }

  lemma JoinedApart(s: seq<Cmd>, k: nat, c: Cmd, max: nat)
    requires 0 < k < |s| && c.lstart == s[k - 1].lstart && c.End() == s[k].End() && c.len >= s[k - 1].len && c.len >= s[k].len
    requires c.state == s[k - 1].state == s[k].state && c.dev == s[k - 1].dev == s[k].dev
    ensures Coalesced(s, max) ==> Coalesced(s[..k - 1] + [c] + s[k + 1..], max)
  {
    var t := s[..k - 1] + [c] + s[k + 1..];
    if Coalesced(s, max) {
      forall i | 0 <= i < |t| - 1 ensures !Joins(t[i], t[i + 1], max) {
        if i + 1 < k - 1 {
          assert t[i] == s[i] && t[i + 1] == s[i + 1];
        } else if i + 1 == k - 1 {
          assert t[i] == s[i] && !Joins(s[i], s[i + 1], max);
        } else if i == k - 1 {
          assert t[i + 1] == s[k + 1] && !Joins(s[k], s[k + 1], max);
        } else {
          assert t[i] == s[i + 1] && t[i + 1] == s[i + 2] && !Joins(s[i + 1], s[i + 2], max);
        }
      }
    }
  }

  class DiscardControl {
    const max: nat
    const shift: nat -> int
    var cmds: seq<Cmd>
    var undiscard: nat

    ghost predicate Valid()
      reads this
    {
      Ordered(cmds) && undiscard == SumLen(cmds) && Mapped(cmds, shift)
    }

    constructor (max: nat, shift: nat -> int)
      ensures this.max == max && this.shift == shift && Valid() && cmds == []
    {
      this.max, this.shift, cmds, undiscard := max, shift, [], 0;
    }

    /** The command that contains a block, else its neighbours: the first command that starts after
        the block; the one before it, if any, contains the block or ends before it. */
    method Lookup(lstart: nat) returns (k: nat)
      requires Valid()
      ensures k <= |cmds| && (forall i :: 0 <= i < k ==> cmds[i].lstart <= lstart) && forall i :: k <= i < |cmds| ==> lstart < cmds[i].lstart
    {
      k := 0;
      while k < |cmds| && cmds[k].lstart <= lstart
        invariant k <= |cmds| && forall i :: 0 <= i < k ==> cmds[i].lstart <= lstart
      {
        k := k + 1;
      }
      forall i | k <= i < |cmds| ensures lstart < cmds[i].lstart {
        if i > k {
          assert cmds[k].End() <= cmds[i].lstart;
        }
      }
    }

    /** Fills the gap before command `k`: merges with the command before it, with the command after
        it, with both, or makes a new command. */
    method FillGap(k: nat, d: Cmd) returns (k': nat)
      requires Valid() && Fits(cmds, k, d) && d.start == d.lstart + shift(d.dev)
      modifies this
      ensures Valid() && Filled(old(cmds), k, d, max, cmds, k')
      ensures old(Coalesced(cmds, max)) ==> Coalesced(cmds, max)
    {
      hide Ordered, Filled, Covers, On, SumLen, Insert, Mapped, Coalesced;
      ghost var s := cmds;
      MappedAround(s, k, d, shift);
      var di := d;
      var merged, back := false, false;
      k' := k;
      if k > 0 && cmds[k - 1].state == Prep && cmds[k - 1].dev == d.dev && Mergeable(cmds[k - 1], di, max) {
        di := cmds[k - 1].(len := cmds[k - 1].len + d.len);
        cmds := cmds[k - 1 := di];
        undiscard := undiscard + d.len;
        merged, back := true, true;
      }
      if k < |cmds| && cmds[k].state == Prep && cmds[k].dev == d.dev && Mergeable(di, cmds[k], max) {
        cmds := cmds[k := Front(di, cmds[k])];
        undiscard := undiscard + di.len;
        if back {
          BothFill(s, k, d, max);
          MappedBoth(s, k, Front(di, s[k]), shift);
          undiscard := undiscard - di.len;
          cmds := cmds[..k - 1] + cmds[k..];
          k' := k - 1;
          assert cmds == s[..k - 1] + [Front(di, s[k])] + s[k + 1..];
        } else {
          FrontFills(s, k, d, max);
        }
        merged := true;
      } else if back {
        BackFills(s, k, d, max);
      }
      if !merged {
        InsertFills(s, k, d, max);
        cmds := cmds[..k] + [d] + cmds[k..];
        undiscard := undiscard + d.len;
        k' := k + 1;
        assert cmds == Insert(s, k, d) by { InsertIs(s, k, d); }
      }
      FilledOrdered(s, k, d, max, cmds, k');
    }

    /** Adds the range of `len` blocks from `lstart`: afterwards exactly the old blocks and the new
        ones are covered, each once; the total grows by the blocks that were not covered before; a
        command longer than the maximum is an old one or a gap of the request that merged with nothing,
        and commands under way stay as they are. */
    method UpdateTreeRange(dev: nat, lstart: nat, start: int, len: nat)
      requires Valid() && start == lstart + shift(dev)
      modifies this
      ensures Valid()
      ensures forall x :: Covers(cmds, x) <==> Covers(old(cmds), x) || lstart <= x < lstart + len
      ensures undiscard == old(undiscard) + |Range(lstart, lstart + len) - CoverSet(old(cmds))|
      ensures Kept(old(cmds), cmds, max, lstart, lstart + len)
      ensures old(Coalesced(cmds, max)) ==> Coalesced(cmds, max)
      ensures forall x, v :: On(cmds, x, v) <==> On(old(cmds), x, v) || (v == dev && lstart <= x < lstart + len && !Covers(old(cmds), x))
    {
      hide Ordered, Covers, On, SumLen, Filled, CoverSet, Range, Kept, Gap, Coalesced, OnAdded;
      ghost var org := cmds;
      var end := lstart + len;
      var k: nat := Lookup(lstart);
      var upto := if k > 0 && cmds[k - 1].End() > lstart then cmds[k - 1].End() else lstart;
      KeptRefl(org, max, lstart, end);
      OnRefl(org, dev, lstart, end);
      Entered(org, k, lstart, upto, end);
      while upto < end
        invariant Valid() && k <= |cmds| && lstart <= upto && Kept(org, cmds, max, lstart, end)
        invariant forall x :: Covers(cmds, x) <==> Covers(org, x) || lstart <= x < Min(upto, end)
        invariant (Coalesced(org, max) ==> Coalesced(cmds, max)) && OnAdded(org, cmds, dev, lstart, end)
        invariant k > 0 ==> cmds[k - 1].End() <= upto
        invariant k < |cmds| ==> upto <= cmds[k].lstart
        decreases |cmds| - k, end - upto
      {
        var stop := if k == |cmds| || cmds[k].lstart > end then end else cmds[k].lstart;
        var k': nat := k;
        ghost var s := cmds;
        var hasNext := k < |cmds|;
        var nextEnd := if hasNext then cmds[k].End() else end;
        if upto < stop {
          var di := Cmd(upto, start + upto - lstart, stop - upto, dev, Prep);
          k' := FillGap(k, di);
          FilledFacts(s, k, di, max, cmds, k');
          FitsGap(org, s, k, di, lstart, end);
          KeptStep(org, s, cmds, max, lstart, end, di, k, k');
          OnStep(org, s, cmds, max, dev, lstart, end, di, k, k');
        }
        if !hasNext {
          upto := end;
          break;
        }
        Passed(org, s, cmds, k, k', lstart, upto, stop, end);
        upto := nextEnd;
        k := k' + 1;
      }
      GrowsByNew(org, cmds, lstart, end);
      OnExact(org, cmds, dev, lstart, end);
    }

    /** Issues a command piece by piece, at most `maxReq` requests in all; `failAt` is the request
        that the device refuses, if any.  Without an error the blocks covered and the total are what
        they were: a part that was not issued is a pending command again.  There is an error exactly
        when the refused request is among those that the length and the limit allow, and then
        exactly the blocks after the refused piece are covered no more; the piece itself still is. */
    method SubmitDiscardCmd(i: nat, issued: nat, maxReq: nat, failAt: int) returns (n: nat, err: bool)
      requires Valid() && i < |cmds| && issued < maxReq && 0 < max
      modifies this
      ensures Ordered(cmds) && Mapped(cmds, shift)
      ensures old(cmds[i].state) != Prep ==> !err && n == issued && cmds == old(cmds)
      ensures err <==> old(cmds[i].state) == Prep && issued < failAt <= LastReq(old(cmds[i].len), max, issued, maxReq)
      ensures old(cmds[i].state) == Prep ==> n == if err then failAt else LastReq(old(cmds[i].len), max, issued, maxReq)
      ensures old(cmds[i].state) == Prep && !err ==>
                old(cmds[i]).(len := Min(Times(n - issued, max), old(cmds[i].len)), state := Submit) in cmds
      ensures err ==>
                && var was := old(cmds)[i];
                cmds == old(cmds)[i := was.(len := Min(Times(n - issued, max), was.len), state := if n == issued + 1 then Prep else Submit)]
      ensures !err ==> forall x, v :: On(cmds, x, v) <==> On(old(cmds), x, v)
      ensures !err && old(Coalesced(cmds, max)) ==> Coalesced(cmds, max)
      ensures !err ==> Valid() && undiscard == old(undiscard) && forall x :: Covers(cmds, x) <==> Covers(old(cmds), x)
      ensures err ==>
                && i < |cmds| && cmds[i].lstart == old(cmds[i].lstart) && 0 < cmds[i].len <= old(cmds[i].len)
                && cmds[i].len == Min(Times(failAt - issued, max), old(cmds[i].len))
                && undiscard == SumLen(cmds) + (old(cmds[i].len) - cmds[i].len)
                && forall x :: Covers(cmds, x) <==> Covers(old(cmds), x) && !(cmds[i].End() <= x < old(cmds[i].End()))
      ensures issued <= n <= maxReq
    {
      hide Ordered, Covers, On, SumLen, CoverSet, Range, Kept, Times, LastReq, Coalesced;
      n, err := issued, false;
      var dc := cmds[i];
      if dc.state != Prep {
        return;
      }
      ghost var s := cmds;
      LenPositive(s, i);
      var total, done, state := dc.len, 0, dc.state;
      TimesNone(max);
      LastReqMore(dc.len, max, issued, maxReq, 0);
      while total > 0 && n < maxReq && !err
        modifies {}
        invariant issued <= n <= maxReq && 0 <= total && 0 <= done && n <= LastReq(dc.len, max, issued, maxReq)
        invariant done == Min(Times(n - issued, max), dc.len)
        invariant if err then n == failAt else !(issued < failAt <= n)
        invariant err ==> issued < n && state == if n == issued + 1 then Prep else Submit
        invariant !err ==> state == if n == issued then Prep else if total == 0 || n == maxReq then Submit else Partial
        invariant (!err ==> done + total == dc.len) && done <= dc.len && (n > issued ==> 0 < done) && (err ==> 0 < done)
        decreases maxReq - n, if err then 0 else 1
      {
        var last := total <= max || n + 1 == maxReq;
        LastReqMore(dc.len, max, issued, maxReq, n - issued);
        TimesMore(n - issued, max);
        var len := if total > max then max else total;
        n := n + 1;
        done := done + len;
        if n == failAt {
          err := true;
          if state == Partial {
            state := Submit;
          }
        } else {
          state := if last then Submit else Partial;
          total := total - len;
        }
      }
      LastReqMore(dc.len, max, issued, maxReq, n - issued);
      Shrunk(s, i, done, state);
      cmds := cmds[i := dc.(len := done, state := state)];
      ShrunkMapped(s, i, done, state, shift);
      CutOn(s, i, done, state);
      CutApart(s, i, done, state, max);
      if !err && total > 0 {
        undiscard := undiscard - total;
        ghost var t := cmds;
        UpdateTreeRange(dc.dev, dc.lstart + done, dc.start + done, total);
        Regrown(s, t, cmds, i, done);
        RegrownOn(s, t, cmds, i, done);
        KeptAt(t, cmds, max, i, dc.lstart + done, dc.lstart + done + total);
      }
    }
  }

  function Times(a: nat, b: nat): nat {
    a * b
  }

  lemma TimesNone(b: nat)
    ensures Times(0, b) == 0
  {
  }

  lemma TimesMore(a: nat, b: nat)
    ensures Times(a + 1, b) == Times(a, b) + b
  {
  }

  /** The number of the last request for `len` blocks in pieces of `max`, after `issued` others and
      within the limit. */
  function LastReq(len: nat, max: nat, issued: nat, maxReq: nat): int
    requires 0 < max
  {
    Min(maxReq, issued + (len + max - 1) / max)
  }

  /** After `j` requests there is one more exactly when blocks are left and the limit is not reached. */
  lemma LastReqMore(len: nat, max: nat, issued: nat, maxReq: nat, j: nat)
    requires 0 < max && issued + j <= maxReq
    ensures issued + j < LastReq(len, max, issued, maxReq) <==> Times(j, max) < len && issued + j < maxReq
  {
    var q := (len + max - 1) / max;
    assert len + max - 1 == q * max + (len + max - 1) % max;
    if j < q {
      MulLess(j, q, max);
    } else if j > q {
      MulLess(q, j, max);
    }
  }

  lemma LenPositive(s: seq<Cmd>, i: nat)
    requires Ordered(s) && i < |s|
    ensures 0 < s[i].len
  {
  }

  function Cut(s: seq<Cmd>, i: nat, n: nat, state: CmdState): seq<Cmd>
    requires i < |s|
  {
    s[i := s[i].(len := n, state := state)]
  }

  lemma {:induction false} CutSum(s: seq<Cmd>, i: nat, n: nat, state: CmdState)
    requires i < |s| && n <= s[i].len
    ensures SumLen(Cut(s, i, n, state)) == SumLen(s) - (s[i].len - n)
  {
    var t := Cut(s, i, n, state);
    if i < |s| - 1 {
      assert t[..|t| - 1] == Cut(s[..|s| - 1], i, n, state);
      CutSum(s[..|s| - 1], i, n, state);
    } else {
      assert t[..|t| - 1] == s[..|s| - 1];
    }
  }

  /** A command cut short covers less, and the others as before. */
  lemma Shrunk(s: seq<Cmd>, i: nat, n: nat, state: CmdState)
    requires Ordered(s) && i < |s| && 0 < n <= s[i].len
    ensures Ordered(Cut(s, i, n, state)) && SumLen(Cut(s, i, n, state)) == SumLen(s) - (s[i].len - n)
    ensures forall x :: Covers(Cut(s, i, n, state), x) <==> Covers(s, x) && !(s[i].lstart + n <= x < s[i].End())
    ensures n == s[i].len ==> forall x :: Covers(Cut(s, i, n, state), x) <==> Covers(s, x)
  {
    CutSum(s, i, n, state);
    CutOrdered(s, i, n, state);
    forall x ensures Covers(Cut(s, i, n, state), x) <==> Covers(s, x) && !(s[i].lstart + n <= x < s[i].End()) {
      CutCovers(s, i, n, state, x);
    }
  }

  lemma CutOrdered(s: seq<Cmd>, i: nat, n: nat, state: CmdState)
    requires Ordered(s) && i < |s| && 0 < n <= s[i].len
    ensures Ordered(Cut(s, i, n, state))
  {
    var t := Cut(s, i, n, state);
    forall k, l | 0 <= k < l < |t| ensures t[k].End() <= t[l].lstart {
      assert s[k].End() <= s[l].lstart;
    }
  }

  lemma CutCovers(s: seq<Cmd>, i: nat, n: nat, state: CmdState, x: int)
    requires Ordered(s) && i < |s| && 0 < n <= s[i].len
    ensures Covers(Cut(s, i, n, state), x) <==> Covers(s, x) && !(s[i].lstart + n <= x < s[i].End())
  {
    var t := Cut(s, i, n, state);
    if Covers(t, x) {
      var k :| 0 <= k < |t| && t[k].lstart <= x < t[k].End();
      assert s[k].lstart <= x < s[k].End();
      if k < i {
        assert s[k].End() <= s[i].lstart;
      } else if i < k {
        assert s[i].End() <= s[k].lstart;
      }
    }
    if Covers(s, x) && !(s[i].lstart + n <= x < s[i].End()) {
      var k :| 0 <= k < |s| && s[k].lstart <= x < s[k].End();
      assert t[k].lstart <= x < t[k].End();
    }
  }

  lemma CutOn(s: seq<Cmd>, i: nat, n: nat, state: CmdState)
    requires Ordered(s) && i < |s| && 0 < n <= s[i].len
    ensures forall x, v :: On(Cut(s, i, n, state), x, v) <==> On(s, x, v) && !(s[i].lstart + n <= x < s[i].End())
  {
    var t := Cut(s, i, n, state);
    forall x, v ensures On(t, x, v) <==> On(s, x, v) && !(s[i].lstart + n <= x < s[i].End()) {
      if On(t, x, v) {
        var k :| 0 <= k < |t| && t[k].lstart <= x < t[k].End() && t[k].dev == v;
        assert s[k].lstart <= x < s[k].End() && s[k].dev == v;
        OutsideOf(s, i, k, n, x);
      }
      if On(s, x, v) && !(s[i].lstart + n <= x < s[i].End()) {
        var k :| 0 <= k < |s| && s[k].lstart <= x < s[k].End() && s[k].dev == v;
        assert t[k].lstart <= x < t[k].End() && t[k].dev == v;
      }
    }
  }

  lemma OutsideOf(s: seq<Cmd>, i: nat, k: nat, n: nat, x: int)
    requires Ordered(s) && i < |s| && k < |s| && s[k].lstart <= x < s[k].End() && n <= s[i].len && (k == i ==> x < s[i].lstart + n)
    ensures !(s[i].lstart + n <= x < s[i].End())
  {
    if k < i {
      assert s[k].End() <= s[i].lstart;
    } else if i < k {
      assert s[i].End() <= s[k].lstart;
    }
  }

  /** A command under way joins nothing. */
  lemma CutApart(s: seq<Cmd>, i: nat, n: nat, state: CmdState, max: nat)
    requires i < |s|
    ensures state != Prep && Coalesced(s, max) ==> Coalesced(Cut(s, i, n, state), max)
  {
  }

  lemma KeptAt(s: seq<Cmd>, s': seq<Cmd>, max: nat, i: nat, a: nat, b: nat)
    requires Kept(s, s', max, a, b) && i < |s| && s[i].state != Prep
    ensures s[i] in s'
  {
  }

  lemma RegrownOn(s: seq<Cmd>, t: seq<Cmd>, u: seq<Cmd>, i: nat, n: nat)
    requires Ordered(s) && i < |s| && n <= s[i].len
    requires forall x, v :: On(t, x, v) <==> On(s, x, v) && !(s[i].lstart + n <= x < s[i].End())
    requires forall x, v :: On(u, x, v) <==> On(t, x, v) || (v == s[i].dev && s[i].lstart + n <= x < s[i].End() && !Covers(t, x))
    ensures forall x, v :: On(u, x, v) <==> On(s, x, v)
  {
    hide Ordered, Covers, On;
    forall x, v ensures On(u, x, v) <==> On(s, x, v) {
      if s[i].lstart + n <= x < s[i].End() {
        assert On(s, x, s[i].dev) by { OnHere(s, i, x); }
        OnCovers(s, x, v);
        OnCovers(t, x, v);
      }
    }
  }

  lemma OnHere(s: seq<Cmd>, i: nat, x: int)
    requires i < |s| && s[i].lstart <= x < s[i].End()
    ensures On(s, x, s[i].dev)
  {
  }

  lemma ShrunkMapped(s: seq<Cmd>, i: nat, n: nat, state: CmdState, shift: nat -> int)
    requires i < |s| && Mapped(s, shift)
    ensures Mapped(Cut(s, i, n, state), shift)
  {
  }

  /** Putting the rest of a cut command back restores the coverage and the total. */
  lemma Regrown(s: seq<Cmd>, t: seq<Cmd>, u: seq<Cmd>, i: nat, n: nat)
    requires Ordered(s) && Ordered(u) && i < |s| && n <= s[i].len
    requires forall x :: Covers(t, x) <==> Covers(s, x) && !(s[i].lstart + n <= x < s[i].End())
    requires forall x :: Covers(u, x) <==> Covers(t, x) || s[i].lstart + n <= x < s[i].End()
    ensures SumLen(u) == SumLen(s) && forall x :: Covers(u, x) <==> Covers(s, x)
  {
    forall x ensures Covers(u, x) <==> Covers(s, x) {
      if s[i].lstart + n <= x < s[i].End() {
        assert s[i].lstart <= x < s[i].End();
      }
    }
    SameTotal(s, u);
  }

  /** When the walk starts, what the command before the range covers of it is done. */
  lemma Entered(s: seq<Cmd>, k: nat, lstart: nat, upto: nat, end: nat)
    requires Ordered(s) && k <= |s|
    requires forall i :: 0 <= i < k ==> s[i].lstart <= lstart
    requires forall i :: k <= i < |s| ==> lstart < s[i].lstart
    requires upto == if k > 0 && s[k - 1].End() > lstart then s[k - 1].End() else lstart
    ensures forall x :: Covers(s, x) <==> Covers(s, x) || lstart <= x < Min(upto, end)
    ensures k > 0 ==> s[k - 1].End() <= upto
    ensures k < |s| ==> upto <= s[k].lstart
  {
    forall x | lstart <= x < Min(upto, end) ensures Covers(s, x) {
      assert s[k - 1].lstart <= x < s[k - 1].End();
    }
  }

  lemma FilledFacts(s: seq<Cmd>, k: nat, d: Cmd, max: nat, s': seq<Cmd>, k': nat)
    requires Filled(s, k, d, max, s', k')
    ensures k <= |s| && k' <= |s'| && |s| - k == |s'| - k'
    ensures k < |s| ==> s'[k'].End() == s[k].End() && s'[k' + 1..] == s[k + 1..]
    ensures forall x :: Covers(s', x) <==> Covers(s, x) || d.lstart <= x < d.End()
  {
  }

  /** The walk goes past command `k`: the range is done up to its end. */
  lemma Passed(org: seq<Cmd>, s: seq<Cmd>, s': seq<Cmd>, k: nat, k': nat, lstart: nat, upto: nat, stop: nat, end: nat)
    requires Ordered(s) && k < |s| && k' < |s'| && |s'| - k' == |s| - k && lstart <= upto <= s[k].lstart
    requires s'[k'].End() == s[k].End() && s'[k' + 1..] == s[k + 1..]
    requires stop == if s[k].lstart > end then end else s[k].lstart
    requires forall x :: Covers(s, x) <==> Covers(org, x) || lstart <= x < Min(upto, end)
    requires forall x :: Covers(s', x) <==> Covers(s, x) || upto <= x < stop
    ensures forall x :: Covers(s', x) <==> Covers(org, x) || lstart <= x < Min(s[k].End(), end)
    ensures k' + 1 < |s'| ==> s[k].End() <= s'[k' + 1].lstart
  {
    forall x ensures Covers(s', x) <==> Covers(org, x) || lstart <= x < Min(s[k].End(), end) {
      if s[k].lstart <= x < s[k].End() {
        assert Covers(s, x);
      }
    }
    if k' + 1 < |s'| {
      assert s'[k' + 1] == s'[k' + 1..][0] == s[k + 1];
    }
  }

  /** A command within `a`..`b` none of whose blocks `s` covers: a whole gap, merged with nothing. */
  ghost predicate Gap(s: seq<Cmd>, c: Cmd, a: nat, b: nat) {
    c.state == Prep && a <= c.lstart && c.End() <= b && forall x :: c.lstart <= x < c.End() ==> !Covers(s, x)
  }

  /** A command longer than `max` is an old one or a whole gap of the request, so no merge has made it;
      and commands under way are still there. */
  ghost predicate Kept(s: seq<Cmd>, s': seq<Cmd>, max: nat, a: nat, b: nat) {
    && (forall i :: 0 <= i < |s'| ==> s'[i].len <= max || s'[i] in s || Gap(s, s'[i], a, b))
    && (forall i :: 0 <= i < |s| && s[i].state != Prep ==> s[i] in s')
  }

  lemma KeptRefl(s: seq<Cmd>, max: nat, a: nat, b: nat)
    ensures Kept(s, s, max, a, b)
  {
  }

  /** What fits between two commands is a gap. */
  lemma FitsGap(org: seq<Cmd>, s: seq<Cmd>, k: nat, d: Cmd, a: nat, b: nat)
    requires Fits(s, k, d) && a <= d.lstart && d.End() <= b && forall x :: Covers(org, x) ==> Covers(s, x)
    ensures Gap(org, d, a, b)
  {
    FitsAll(s, k, d);
  }

  lemma KeptStep(org: seq<Cmd>, s: seq<Cmd>, s': seq<Cmd>, max: nat, a: nat, b: nat, d: Cmd, k: nat, k': nat)
    requires Kept(org, s, max, a, b) && Filled(s, k, d, max, s', k') && Gap(org, d, a, b)
    ensures Kept(org, s', max, a, b)
  {
    hide Ordered, Covers, Gap;
    forall i | 0 <= i < |s'| ensures s'[i].len <= max || s'[i] in org || Gap(org, s'[i], a, b) {
      if s'[i] in s {
        var j :| 0 <= j < |s| && s[j] == s'[i];
      }
    }
    forall i | 0 <= i < |org| && org[i].state != Prep ensures org[i] in s' {
      assert org[i] in s;
      var j :| 0 <= j < |s| && s[j] == org[i];
    }
  }

  /** What is on a device was there, or is new and on the device of the request. */
  ghost predicate OnAdded(s: seq<Cmd>, s': seq<Cmd>, dev: nat, a: nat, b: nat) {
    forall x, v :: On(s', x, v) ==> On(s, x, v) || (v == dev && a <= x < b && !Covers(s, x))
  }

  lemma OnRefl(s: seq<Cmd>, dev: nat, a: nat, b: nat)
    ensures OnAdded(s, s, dev, a, b)
  {
    hide On;
  }

  lemma OnStep(org: seq<Cmd>, s: seq<Cmd>, s': seq<Cmd>, max: nat, dev: nat, a: nat, b: nat, d: Cmd, k: nat, k': nat)
    requires OnAdded(org, s, dev, a, b) && Filled(s, k, d, max, s', k') && Gap(org, d, a, b) && d.dev == dev
    ensures OnAdded(org, s', dev, a, b)
  {
    hide On, Ordered, Covers;
  }

  lemma OnExact(s: seq<Cmd>, s': seq<Cmd>, dev: nat, a: nat, b: nat)
    requires Ordered(s) && OnAdded(s, s', dev, a, b) && forall x :: Covers(s', x) <==> Covers(s, x) || a <= x < b
    ensures forall x, v :: On(s', x, v) <==> On(s, x, v) || (v == dev && a <= x < b && !Covers(s, x))
  {
    hide Ordered, Covers, On;
    forall x, v | On(s, x, v) || (v == dev && a <= x < b && !Covers(s, x)) ensures On(s', x, v) {
      OnCovers(s, x, v);
      OnCovers(s', x, v);
      var u: nat :| On(s', x, u);
      OnCovers(s, x, u);
    }
  }

  function Min(a: int, b: int): int {
    if a < b then a else b
  }

  lemma MappedAround(s: seq<Cmd>, k: nat, d: Cmd, shift: nat -> int)
    requires Mapped(s, shift) && k <= |s| && d.start == d.lstart + shift(d.dev)
    ensures Mapped(s[..k] + [d] + s[k..], shift)
    ensures k > 0 ==> Mapped(s[k - 1 := s[k - 1].(len := s[k - 1].len + d.len)], shift)
    ensures k < |s| && s[k].dev == d.dev ==> Mapped(s[k := Front(d, s[k])], shift)
    ensures k > 0 ==> s[k - 1].start == s[k - 1].lstart + shift(s[k - 1].dev)
  {
  }

  lemma MappedBoth(s: seq<Cmd>, k: nat, c: Cmd, shift: nat -> int)
    requires Mapped(s, shift) && 0 < k < |s| && c.start == c.lstart + shift(c.dev)
    ensures Mapped(s[..k - 1] + [c] + s[k + 1..], shift)
  {
  }

  lemma InsertIs(s: seq<Cmd>, k: nat, d: Cmd)
    requires k <= |s|
    ensures Insert(s, k, d) == s[..k] + [d] + s[k..]
  {
  }

  lemma FilledOrdered(s: seq<Cmd>, k: nat, d: Cmd, max: nat, s': seq<Cmd>, k': nat)
    requires Filled(s, k, d, max, s', k')
    ensures Ordered(s') && SumLen(s') == SumLen(s) + d.len && (Coalesced(s, max) ==> Coalesced(s', max))
  {
  }
}
