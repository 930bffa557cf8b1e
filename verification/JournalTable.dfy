/** A table kept on the medium as pages plus a short journal of later entries: the node address
    table and the segment table are flushed and loaded by the same algorithm. */
module JournalTable {
  import opened Basics

  datatype Entry<V> = Entry(idx: nat, val: V)

  datatype Slot<V> = Absent | Present(page: seq<V>)

  ghost predicate PagesShape<V>(m: seq<seq<V>>, E: nat) {
    forall b :: 0 <= b < |m| ==> |m[b]| == E
  }

  /** Number of entries in `n` pages. */
  function Cap(n: nat, E: nat): nat {
    n * E
  }

  /** Entry `i` of a paged table. */
  function Lookup<V>(m: seq<seq<V>>, E: nat, i: nat): V
    requires 0 < E && PagesShape(m, E) && i < Cap(|m|, E)
  {
    DivMod(i, E, |m|);
    m[i / E][i % E]
  }

  lemma DivMod(i: nat, E: nat, n: nat)
    requires 0 < E && i < Cap(n, E)
    ensures 0 <= i / E < n && 0 <= i % E < E && i == (i / E) * E + i % E
  {
    if i / E > n {
      MulLess(n, i / E, E);
    }
  }

  function SetEntry<V>(m: seq<seq<V>>, E: nat, e: Entry<V>): (r: seq<seq<V>>)
    requires 0 < E && PagesShape(m, E) && e.idx < Cap(|m|, E)
    ensures PagesShape(r, E) && |r| == |m|
  {
    DivMod(e.idx, E, |m|);
    m[e.idx / E := m[e.idx / E][e.idx % E := e.val]]
  }

  ghost predicate InTable<V>(j: seq<Entry<V>>, size: nat) {
    forall k :: 0 <= k < |j| ==> j[k].idx < size
  }

  /** The paged table with the journal applied in order. */
  function Overlay<V>(m: seq<seq<V>>, E: nat, j: seq<Entry<V>>): (r: seq<seq<V>>)
    requires 0 < E && PagesShape(m, E) && InTable(j, Cap(|m|, E))
    ensures PagesShape(r, E) && |r| == |m|
  {
    if j == [] then m else SetEntry(Overlay(m, E, j[..|j| - 1]), E, j[|j| - 1])
  }

  lemma LookupSet<V>(m: seq<seq<V>>, E: nat, e: Entry<V>, i: nat)
    requires 0 < E && PagesShape(m, E) && e.idx < Cap(|m|, E) && i < Cap(|m|, E)
    ensures Lookup(SetEntry(m, E, e), E, i) == if i == e.idx then e.val else Lookup(m, E, i)
  {
    DivMod(i, E, |m|);
    DivMod(e.idx, E, |m|);
  }

  lemma OverlayPush<V>(m: seq<seq<V>>, E: nat, j: seq<Entry<V>>, e: Entry<V>)
    requires 0 < E && PagesShape(m, E) && InTable(j, Cap(|m|, E)) && e.idx < Cap(|m|, E)
    ensures InTable(j + [e], Cap(|m|, E))
    ensures Overlay(m, E, j + [e]) == SetEntry(Overlay(m, E, j), E, e)
  {
    assert (j + [e])[..|j|] == j;
  }

  /** Entry `k` is the last for an index. */
  ghost predicate Decides<V>(j: seq<Entry<V>>, i: nat, k: nat) {
    k < |j| && j[k].idx == i && forall l :: k < l < |j| ==> j[l].idx != i
  }

  /** The last journal entry for an index decides; without one the page does. */
  lemma {:induction false} OverlayAt<V>(m: seq<seq<V>>, E: nat, j: seq<Entry<V>>, i: nat)
    requires 0 < E && PagesShape(m, E) && InTable(j, Cap(|m|, E)) && i < Cap(|m|, E)
    ensures (forall k :: 0 <= k < |j| ==> j[k].idx != i) ==> Lookup(Overlay(m, E, j), E, i) == Lookup(m, E, i)
    ensures forall k: nat :: Decides(j, i, k) ==> Lookup(Overlay(m, E, j), E, i) == j[k].val
  {
    hide Lookup, Cap, PagesShape, SetEntry;
    if j != [] {
      var init := j[..|j| - 1];
      OverlayAt(m, E, init, i);
      LookupSet(Overlay(m, E, init), E, j[|j| - 1], i);
      forall k: nat | Decides(j, i, k) ensures Lookup(Overlay(m, E, j), E, i) == j[k].val {
        if k < |j| - 1 {
          assert Decides(init, i, k);
        }
      }
    }
  }

  /** The pages once the cached ones have replaced the base copies. */
  function Merge<V>(base: seq<seq<V>>, slots: seq<Slot<V>>): (r: seq<seq<V>>)
    requires |slots| == |base|
    ensures |r| == |base|
  {
    seq(|base|, b requires 0 <= b < |base| => if slots[b].Present? then slots[b].page else base[b])
  }

  ghost predicate SlotsShape<V>(slots: seq<Slot<V>>, E: nat) {
    forall b :: 0 <= b < |slots| && slots[b].Present? ==> |slots[b].page| == E
  }

  /** Entry `i` of the table has the value it has in memory. */
  ghost predicate Agrees<V>(m: seq<seq<V>>, E: nat, cells: seq<V>, i: nat)
    requires 0 < E && PagesShape(m, E)
  {
    i < |cells| && i < Cap(|m|, E) && Lookup(m, E, i) == cells[i]
  }

  /** Pages and journal decode to the table in memory. */
  ghost predicate Decodes<V>(m: seq<seq<V>>, E: nat, cells: seq<V>)
    requires 0 < E && PagesShape(m, E)
  {
    |cells| <= Cap(|m|, E) && forall i :: 0 <= i < |cells| ==> Agrees(m, E, cells, i)
  }

  /** Every entry that is not dirty is on the medium. */
  ghost predicate CleanAgrees<V>(m: seq<seq<V>>, E: nat, cells: seq<V>, dirty: seq<bool>)
    requires 0 < E && PagesShape(m, E)
  {
    && |cells| == |dirty| <= Cap(|m|, E)
    && forall i :: 0 <= i < |cells| && !dirty[i] ==> Agrees(m, E, cells, i)
  }

  lemma StoreMerge<V>(base: seq<seq<V>>, slots: seq<Slot<V>>, E: nat, e: Entry<V>, page: seq<V>)
    requires 0 < E && PagesShape(base, E) && |slots| == |base| && SlotsShape(slots, E) && e.idx < Cap(|base|, E)
    requires e.idx / E < |base| && e.idx % E < E
    requires page == if slots[e.idx / E].Present? then slots[e.idx / E].page else base[e.idx / E]
    ensures PagesShape(Merge(base, slots), E) && |page| == E
    ensures Merge(base, slots[e.idx / E := Present(page[e.idx % E := e.val])]) == SetEntry(Merge(base, slots), E, e)
    ensures SlotsShape(slots[e.idx / E := Present(page[e.idx % E := e.val])], E)
  {
  }

  /** Entries of the journal lie in page `b`. */
  ghost predicate InPage<V>(j: seq<Entry<V>>, E: nat, b: nat)
    requires 0 < E
  {
    exists k :: 0 <= k < |j| && j[k].idx / E == b
  }

  /** Exactly the pages with an entry of the journal were brought in. */
  ghost predicate Touched<V>(slots: seq<Slot<V>>, slots': seq<Slot<V>>, j: seq<Entry<V>>, E: nat)
    requires 0 < E
  {
    |slots'| == |slots| && forall b :: 0 <= b < |slots| ==> (slots'[b].Present? <==> slots[b].Present? || InPage(j, E, b))
  }

  lemma NoneTouched<V>(slots: seq<Slot<V>>, E: nat)
    requires 0 < E
    ensures Touched(slots, slots, [], E)
  {
  }

  lemma OneTouched<V>(slots: seq<Slot<V>>, slots': seq<Slot<V>>, j: seq<Entry<V>>, E: nat, e: Entry<V>, page: seq<V>)
    requires 0 < E && Touched(slots, slots', j, E) && e.idx / E < |slots|
    ensures Touched(slots, slots'[e.idx / E := Present(page)], j + [e], E)
  {
    forall b: nat ensures InPage(j + [e], E, b) <==> InPage(j, E, b) || e.idx / E == b {
      if InPage(j, E, b) {
        var k :| 0 <= k < |j| && j[k].idx / E == b;
        assert (j + [e])[k] == j[k];
      }
      assert (j + [e])[|j|] == e;
    }
  }

  /** How many of the first `n` marks are set. */
  function Marks(s: seq<bool>, n: nat): nat {
    if n == 0 then 0 else Marks(s, n - 1) + if n <= |s| && s[n - 1] then 1 else 0
  }

  lemma {:induction false} MarksUpTo(s: seq<bool>, i: nat, n: nat)
    requires i < n
    ensures Marks(s, i + 1) == Marks(s, i) + (if i < |s| && s[i] then 1 else 0) <= Marks(s, n)
    decreases n
  {
    if i + 1 < n {
      MarksUpTo(s, i, n - 1);
    }
  }

  class Table<V(0)> {
    const E: nat
    const cells: array<V>
    const dirty: array<bool>
    const journal: array<Entry<V>>
    var nr: nat

    /** A table of `n` entries, all dirty, with an empty journal. */
    constructor (E: nat, n: nat, J: nat, v: V)
      requires 0 < E && 1 <= J
      ensures this.E == E && cells.Length == n && dirty.Length == n && journal.Length == J && nr == 0
      ensures fresh(cells) && fresh(dirty) && fresh(journal)
      ensures forall blks: nat :: n <= Cap(blks, E) ==> Shape(blks)
      ensures forall i :: 0 <= i < n ==> cells[i] == v && dirty[i]
    {
      this.E := E;
      cells := new V[n](_ => v);
      dirty := new bool[n](_ => true);
      journal := new Entry<V>[J](_ => Entry(0, v));
      nr := 0;
    }

    ghost predicate Shape(blks: nat)
      reads this, journal
    {
      && 0 < E && 1 <= journal.Length && nr <= journal.Length
      && cells.Length == dirty.Length <= Cap(blks, E) 
      && cells as object != dirty && journal as object != cells && journal as object != dirty
      && InTable(journal[..nr], cells.Length) && InTable(journal[..nr], Cap(blks, E))
    }

    /** The dirty marks cover every entry that differs from the medium. */
    ghost predicate Covered(base: seq<seq<V>>)
      requires Shape(|base|) && PagesShape(base, E)
      reads this, journal, cells, dirty
    {
      CleanAgrees(Overlay(base, E, journal[..nr]), E, cells[..], dirty[..])
    }

    method Set(i: nat, v: V, ghost base: seq<seq<V>>)
      requires Shape(|base|) && PagesShape(base, E) && Covered(base) && i < cells.Length
      modifies cells, dirty
      ensures Shape(|base|) && Covered(base)
      ensures cells[..] == old(cells[..])[i := v] && dirty[..] == old(dirty[..])[i := true]
    {
      hide Overlay, Cap, InTable, CleanAgrees, PagesShape;
      CleanDirty(Overlay(base, E, journal[..nr]), E, cells[..], dirty[..], i, v);
      ghost var j := journal[..nr];
      cells[i] := v;
      dirty[i] := true;
      assert journal[..nr] == j && cells[..] == old(cells[..])[i := v] && dirty[..] == old(dirty[..])[i := true];
    }

    /** Page `b` of the table in memory; slots past its end are padded. */
    method PageOut(b: nat, blks: nat, pad: V) returns (page: seq<V>)
      requires 0 < E && b < blks && cells.Length <= Cap(blks, E)
      ensures |page| == E
      ensures forall i :: 0 <= i < cells.Length && i / E == b ==> i % E < E && page[i % E] == cells[i]
    {
      page := [];
      var start := b * E;
      while |page| < E
        invariant |page| <= E
        invariant forall k :: 0 <= k < |page| && start + k < cells.Length ==> page[k] == cells[start + k]
      {
        var k := |page|;
        page := page + [if start + k < cells.Length then cells[start + k] else pad];
      }
      forall i | 0 <= i < cells.Length && i / E == b ensures i % E < E && page[i % E] == cells[i] {
        DivMod(i, E, blks);
      }
    }

    /** Applies the journal to the cached pages, reading a page when it is first needed, and
        empties it. */
    method OutJournal(base: seq<seq<V>>, slots: array<Slot<V>>)
      requires Shape(|base|) && PagesShape(base, E) && slots.Length == |base| && SlotsShape(slots[..], E)
      requires PagesShape(Merge(base, slots[..]), E)
      requires slots as object != journal && slots as object != cells && slots as object != dirty
      modifies this`nr, slots
      ensures Shape(|base|) && nr == 0 && SlotsShape(slots[..], E)
      ensures PagesShape(Merge(base, slots[..]), E)
      ensures Merge(base, slots[..]) == Overlay(Merge(base, old(slots[..])), E, old(journal[..nr]))
      ensures Touched(old(slots[..]), slots[..], old(journal[..nr]), E)
    {
      hide Overlay, SetEntry, Cap, PagesShape, Touched;
      ghost var m0 := Merge(base, slots[..]);
      ghost var j := journal[..nr];
      var ii := 0;
      OverlayNil(m0, E);
      NoneTouched(slots[..], E);
      while ii < nr
        invariant ii <= nr == |j| <= journal.Length && j == journal[..nr] && SlotsShape(slots[..], E)
        invariant InTable(j[..ii], Cap(|base|, E)) && InTable(j, Cap(|base|, E))
        invariant Merge(base, slots[..]) == Overlay(m0, E, j[..ii]) && Touched(old(slots[..]), slots[..], j[..ii], E)
      {
        var e := journal[ii];
        assert j[ii] == e && j[..ii + 1] == j[..ii] + [e];
        DivMod(e.idx, E, |base|);
        var b := e.idx / E;
        var page := if slots[b].Present? then slots[b].page else base[b];
        StoreMerge(base, slots[..], E, e, page);
        OverlayPush(m0, E, j[..ii], e);
        OneTouched(old(slots[..]), slots[..], j[..ii], E, e, page[e.idx % E := e.val]);
        slots[b] := Present(page[e.idx % E := e.val]);
        ii := ii + 1;
      }
      assert j[..ii] == j;
      nr := 0;
    }

    /** Moves the old journal into cached pages, then journals every dirty entry, spilling the
        journal into the cached pages whenever it is full. */
    method Flush(base: seq<seq<V>>, slots: array<Slot<V>>)
      requires Shape(|base|) && PagesShape(base, E) && Covered(base)
      requires slots.Length == |base| && forall b :: 0 <= b < |base| ==> slots[b] == Absent
      requires slots as object != journal && slots as object != cells && slots as object != dirty
      modifies this`nr, slots, dirty, journal
      ensures Shape(|base|) && SlotsShape(slots[..], E) && PagesShape(Merge(base, slots[..]), E)
      ensures Decodes(Overlay(Merge(base, slots[..]), E, journal[..nr]), E, cells[..])
      ensures forall i :: 0 <= i < dirty.Length ==> !dirty[i]
      ensures Marks(old(dirty[..]), cells.Length) <= journal.Length ==>
                nr == Marks(old(dirty[..]), cells.Length) && Touched(old(slots[..]), slots[..], old(journal[..nr]), E)
    {
      hide Overlay, SetEntry, Agrees, Cap, CleanAgrees, Decodes, Touched;
      ghost var d0, few := dirty[..], Marks(dirty[..], cells.Length) <= journal.Length;
      assert Merge(base, slots[..]) == base;
      ghost var table := Overlay(base, E, journal[..nr]);
      OutJournal(base, slots);
      OverlayNil(Merge(base, slots[..]), E);
      assert journal[..nr] == [];
      ghost var s1 := slots[..];
      var nid := 0;
      while nid < cells.Length
        invariant few ==> nr == Marks(d0, nid) && slots[..] == s1
        invariant forall i :: nid <= i < dirty.Length ==> dirty[i] == d0[i]
        invariant nid <= cells.Length && Shape(|base|) && SlotsShape(slots[..], E)
        invariant PagesShape(Merge(base, slots[..]), E)
        invariant forall i :: 0 <= i < nid ==> !dirty[i]
        invariant CleanAgrees(Overlay(Merge(base, slots[..]), E, journal[..nr]), E, cells[..], dirty[..])
      {
        MarksUpTo(d0, nid, cells.Length);
        if dirty[nid] {
          if nr >= journal.Length {
            ghost var m := Merge(base, slots[..]);
            OutJournal(base, slots);
            OverlayNil(Merge(base, slots[..]), E);
            assert journal[..nr] == [];
          }
          JournalOne(Merge(base, slots[..]), nid);
        }
        nid := nid + 1;
      }
      AllClean(Overlay(Merge(base, slots[..]), E, journal[..nr]), E, cells[..], dirty[..]);
    }

    /** Reads the table back: the pages first, then the journal over them; nothing is dirty. */
    method Load(base: seq<seq<V>>)
      requires Shape(|base|) && PagesShape(base, E)
      modifies cells, dirty
      ensures Decodes(Overlay(base, E, journal[..nr]), E, cells[..]) && Covered(base)
      ensures forall i :: 0 <= i < dirty.Length ==> !dirty[i]
    {
      hide Overlay, Cap, Agrees, SetEntry;
      var nid := 0;
      while nid < cells.Length
        invariant nid <= cells.Length && Shape(|base|)
        invariant forall i :: 0 <= i < nid ==> Agrees(base, E, cells[..], i) && !dirty[i]
      {
        LoadCell(base, nid);
        nid := nid + 1;
      }
      ghost var j := journal[..nr];
      OverlayNil(base, E);
      var ii := 0;
      while ii < nr
        invariant ii <= nr == |j| && Shape(|base|) && j == journal[..nr]
        invariant InTable(j[..ii], Cap(|base|, E)) && InTable(j, Cap(|base|, E))
        invariant Decodes(Overlay(base, E, j[..ii]), E, cells[..])
        invariant forall i :: 0 <= i < dirty.Length ==> !dirty[i]
      {
        assert j[..ii + 1] == j[..ii] + [j[ii]];
        OverlayPush(base, E, j[..ii], j[ii]);
        LoadEntry(Overlay(base, E, j[..ii]), ii);
        ii := ii + 1;
      }
      assert j[..ii] == j;
    }

    method LoadCell(base: seq<seq<V>>, nid: nat)
      requires Shape(|base|) && PagesShape(base, E) && nid < cells.Length
      requires forall i :: 0 <= i < nid ==> Agrees(base, E, cells[..], i) && !dirty[i]
      modifies cells, dirty
      ensures Shape(|base|) && forall i :: 0 <= i <= nid ==> Agrees(base, E, cells[..], i) && !dirty[i]
    {
      hide Cap;
      DivMod(nid, E, |base|);
      ghost var c := cells[..];
      cells[nid] := base[nid / E][nid % E];
      dirty[nid] := false;
      forall i | 0 <= i <= nid ensures Agrees(base, E, cells[..], i) {
        if i < nid {
          assert Agrees(base, E, c, i);
        }
      }
    }

    method LoadEntry(ghost m: seq<seq<V>>, k: nat)
      requires Shape(|m|) && PagesShape(m, E) && k < nr && Decodes(m, E, cells[..])
      modifies cells
      ensures Shape(|m|) && journal[k].idx < Cap(|m|, E) && Decodes(SetEntry(m, E, journal[k]), E, cells[..])
    {
      hide Cap, Overlay, SetEntry;
      ghost var c := cells[..];
      var e := journal[k];
      assert journal[..nr][k] == e;
      cells[e.idx] := e.val;
      assert cells[..] == c[e.idx := e.val] && journal[k] == e;
      forall i | 0 <= i < cells.Length ensures Agrees(SetEntry(m, E, e), E, cells[..], i) {
        LookupSet(m, E, e, i);
        assert Agrees(m, E, c, i);
      }
    }

    method JournalOne(ghost m: seq<seq<V>>, nid: nat)
      requires PagesShape(m, E) && Shape(|m|) && nid < cells.Length && nr < journal.Length
      requires CleanAgrees(Overlay(m, E, journal[..nr]), E, cells[..], dirty[..])
      modifies this`nr, dirty, journal
      ensures Shape(|m|) && dirty[..] == old(dirty[..])[nid := false] && nr == old(nr) + 1
      ensures CleanAgrees(Overlay(m, E, journal[..nr]), E, cells[..], dirty[..])
    {
      hide Overlay, SetEntry, Cap, CleanAgrees, PagesShape;
      ghost var j := journal[..nr];
      ghost var e := Entry(nid, cells[nid]);
      OverlayPush(m, E, j, e);
      CleanSet(Overlay(m, E, j), E, cells[..], dirty[..], nid);
      journal[nr] := Entry(nid, cells[nid]);
      dirty[nid] := false;
      nr := nr + 1;
      assert journal[..nr] == j + [e] && dirty[..] == old(dirty[..])[nid := false] && cells[..] == old(cells[..]);
    }
  }

  lemma OverlayNil<V>(m: seq<seq<V>>, E: nat)
    requires 0 < E && PagesShape(m, E)
    ensures Overlay(m, E, []) == m
  {
  }

  lemma CleanSet<V>(m: seq<seq<V>>, E: nat, cells: seq<V>, dirty: seq<bool>, i: nat)
    requires 0 < E && PagesShape(m, E) && CleanAgrees(m, E, cells, dirty) && i < |cells|
    ensures CleanAgrees(SetEntry(m, E, Entry(i, cells[i])), E, cells, dirty[i := false])
  {
    forall k | 0 <= k < |cells| && !dirty[i := false][k]
      ensures Agrees(SetEntry(m, E, Entry(i, cells[i])), E, cells, k)
    {
      LookupSet(m, E, Entry(i, cells[i]), k);
      if k != i {
        assert Agrees(m, E, cells, k);
      }
    }
  }

  lemma CleanDirty<V>(m: seq<seq<V>>, E: nat, cells: seq<V>, dirty: seq<bool>, i: nat, v: V)
    requires 0 < E && PagesShape(m, E) && CleanAgrees(m, E, cells, dirty) && i < |cells|
    ensures CleanAgrees(m, E, cells[i := v], dirty[i := true])
  {
    var d := dirty[i := true];
    forall k | 0 <= k < |cells| && !d[k] ensures Agrees(m, E, cells[i := v], k) {
      assert Agrees(m, E, cells, k);
    }
  }

  /** A medium decodes to one table only. */
  lemma DecodesUnique<V>(m: seq<seq<V>>, E: nat, a: seq<V>, b: seq<V>)
    requires 0 < E && PagesShape(m, E) && Decodes(m, E, a) && Decodes(m, E, b) && |a| == |b|
    ensures a == b
  {
    forall i | 0 <= i < |a| ensures a[i] == b[i] {
      assert Agrees(m, E, a, i) && Agrees(m, E, b, i);
    }
  }

  lemma AllClean<V>(m: seq<seq<V>>, E: nat, cells: seq<V>, dirty: seq<bool>)
    requires 0 < E && PagesShape(m, E) && CleanAgrees(m, E, cells, dirty)
    requires forall i :: 0 <= i < |dirty| ==> !dirty[i]
    ensures Decodes(m, E, cells)
  {
  }
}
