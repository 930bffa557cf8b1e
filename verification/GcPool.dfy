/** The victim pool of the garbage collector: a bounded max-heap that keeps the
    segments with the fewest valid blocks and then hands them out in ascending order. */
module GcPool {

  /** `p` is the position of the parent of position `i`. */
  predicate Parent(p: nat, i: nat) {
    i == 2 * p + 1 || i == 2 * p + 2
  }

  ghost predicate InRange(s: seq<nat>, key: seq<nat>) {
    forall i :: 0 <= i < |s| ==> s[i] < |key|
  }

  /** The weight of an entry: its number of valid blocks. */
  ghost function W(key: seq<nat>, x: nat): nat {
    if x < |key| then key[x] else 0
  }

  ghost predicate IsHeap(s: seq<nat>, key: seq<nat>)
  {
    forall p: nat, i: nat :: Parent(p, i) && i < |s| ==> W(key, s[i]) <= W(key, s[p])
  }

  /** A heap except that the entry at `cur` may be larger than its parent. */
  ghost predicate HeapUp(s: seq<nat>, key: seq<nat>, cur: nat)
  {
    && (forall p: nat, i: nat :: Parent(p, i) && i < |s| && i != cur ==> W(key, s[i]) <= W(key, s[p]))
    && (forall p: nat, i: nat :: Parent(p, cur) && Parent(cur, i) && i < |s| ==> W(key, s[i]) <= W(key, s[p]))
  }

  /** A heap except that the entry at `cur` may be smaller than its children. */
  ghost predicate HeapDown(s: seq<nat>, key: seq<nat>, cur: nat)
  {
    && (forall p: nat, i: nat :: Parent(p, i) && i < |s| && p != cur ==> W(key, s[i]) <= W(key, s[p]))
    && (forall p: nat, i: nat :: Parent(p, cur) && Parent(cur, i) && i < |s| ==> W(key, s[i]) <= W(key, s[p]))
  }

  ghost predicate Ascending(s: seq<nat>, key: seq<nat>)
  {
    forall i, j :: 0 <= i <= j < |s| ==> W(key, s[i]) <= W(key, s[j])
  }

  lemma {:induction false} RootIsMax(s: seq<nat>, key: seq<nat>, i: nat)
    requires IsHeap(s, key)
    requires i < |s|
    ensures W(key, s[i]) <= W(key, s[0])
  {
    if i > 0 {
      assert Parent((i - 1) / 2, i);
      RootIsMax(s, key, (i - 1) / 2);
    }
  }

  ghost predicate Perm(s: seq<nat>, t: seq<nat>) {
    multiset(s) == multiset(t)
  }

  lemma UpdateMultiset(s: seq<nat>, i: nat, x: nat)
    requires i < |s|
    ensures multiset(s[i := x]) == multiset(s) - multiset{s[i]} + multiset{x}
    ensures forall y :: y in s[i := x] ==> y == x || y in s
  {
  }

  /** The entries at `a` and `b` trade places. */
  function Swap(s: seq<nat>, a: nat, b: nat): (r: seq<nat>)
    requires a < |s| && b < |s|
    ensures |r| == |s| && r[a] == s[b] && r[b] == s[a]
    ensures forall i :: 0 <= i < |s| && i != a && i != b ==> r[i] == s[i]
    ensures Perm(r, s)
  {
    UpdateMultiset(s, a, s[b]);
    UpdateMultiset(s[a := s[b]], b, s[a]);
    s[a := s[b]][b := s[a]]
  }

  lemma SiftUpStep(all: seq<nat>, s: seq<nat>, key: seq<nat>, cur: nat, pp: nat)
    requires cur < |s| && Parent(pp, cur) && Perm(s, all)
    requires HeapUp(s, key, cur) && InRange(s, key)
    requires W(key, s[pp]) < W(key, s[cur])
    ensures HeapUp(Swap(s, cur, pp), key, pp) && InRange(Swap(s, cur, pp), key)
    ensures Perm(Swap(s, cur, pp), all)
  {
  }

  lemma SiftDownStep(all: seq<nat>, s: seq<nat>, key: seq<nat>, cur: nat, child: nat)
    requires child < |s| && Parent(cur, child) && Perm(s, all)
    requires HeapDown(s, key, cur) && InRange(s, key)
    requires W(key, s[cur]) < W(key, s[child])
    requires 2 * cur + 1 < |s| ==> W(key, s[2 * cur + 1]) <= W(key, s[child])
    requires 2 * cur + 2 < |s| ==> W(key, s[2 * cur + 2]) <= W(key, s[child])
    ensures HeapDown(Swap(s, cur, child), key, child) && InRange(Swap(s, cur, child), key)
    ensures Perm(Swap(s, cur, child), all)
  {
  }

  lemma RootIsMaximum(s: seq<nat>, key: seq<nat>)
    requires IsHeap(s, key)
    ensures forall x :: x in s ==> W(key, x) <= W(key, s[0])
  {
    forall x | x in s ensures W(key, x) <= W(key, s[0]) {
      var i :| 0 <= i < |s| && s[i] == x;
      RootIsMax(s, key, i);
    }
  }

  lemma HeapIsHeapDown(s: seq<nat>, key: seq<nat>)
    requires IsHeap(s, key)
    ensures HeapDown(s, key, 0)
  {
  }

  lemma InRangeAt(s: seq<nat>, key: seq<nat>, i: nat)
    requires InRange(s, key) && i < |s|
    ensures s[i] < |key|
  {
  }

  lemma SiftUpStart(s: seq<nat>, seg: nat, key: seq<nat>)
    requires IsHeap(s, key) && InRange(s, key) && seg < |key|
    ensures InRange(s + [seg], key) && HeapUp(s + [seg], key, |s|)
    ensures Perm(s + [seg], s + [seg])
  {
  }

  lemma SiftUpDone(s: seq<nat>, key: seq<nat>, cur: nat)
    requires cur < |s| && HeapUp(s, key, cur)
    requires cur == 0 || W(key, s[cur]) <= W(key, s[(cur - 1) / 2])
    ensures IsHeap(s, key)
  {
  }

  lemma SiftDownStart(s: seq<nat>, seg: nat, key: seq<nat>)
    requires 1 <= |s| && InRange(s, key) && HeapDown(s, key, 0) && seg < |key|
    ensures InRange(s[0 := seg], key) && HeapDown(s[0 := seg], key, 0)
    ensures Perm(s[0 := seg], s[0 := seg])
  {
  }

  lemma SiftDownDone(s: seq<nat>, key: seq<nat>, cur: nat)
    requires cur < |s| && HeapDown(s, key, cur)
    requires 2 * cur + 1 < |s| ==> W(key, s[2 * cur + 1]) <= W(key, s[cur])
    requires 2 * cur + 2 < |s| ==> W(key, s[2 * cur + 2]) <= W(key, s[cur])
    ensures IsHeap(s, key)
  {
  }

  /** Nothing in `s` weighs more than anything in `t`. */
  ghost predicate Below(s: seq<nat>, t: seq<nat>, key: seq<nat>) {
    forall x, y :: x in s && y in t ==> W(key, x) <= W(key, y)
  }

  lemma MultisetInRange(s: seq<nat>, t: seq<nat>, key: seq<nat>)
    requires Perm(t, s) && InRange(s, key)
    ensures InRange(t, key)
  {
    forall i | 0 <= i < |t| ensures t[i] < |key| {
      assert t[i] in multiset(t);
      assert t[i] in s;
    }
  }

  lemma SortStart(heap: seq<nat>, key: seq<nat>)
    ensures Ascending([], key) && Below(heap, [], key) && Perm(heap + [], heap)
  {
    assert heap + [] == heap;
  }

  /** Taking the root off a heap and putting it in front of the sorted part keeps that part sorted. */
  lemma SortStep(heap: seq<nat>, sorted: seq<nat>, key: seq<nat>)
    requires 1 <= |heap| && IsHeap(heap, key) && InRange(heap, key)
    requires Ascending(sorted, key) && Below(heap, sorted, key)
    ensures InRange(heap[..|heap| - 1], key) && HeapDown(heap[..|heap| - 1], key, 0)
    ensures Ascending([heap[0]] + sorted, key)
    ensures Below(heap, [heap[0]] + sorted, key)
  {
    var r := [heap[0]] + sorted;
    forall i, j | 0 <= i <= j < |r| ensures W(key, r[i]) <= W(key, r[j]) {
      if 0 < j {
        assert r[j] in sorted;
      }
      assert heap[0] in heap;
    }
    RootIsMaximum(heap, key);
  }

  /** The last entry of a heap replaces its root, which goes to the sorted part. */
  lemma SortPerm(all: seq<nat>, heap: seq<nat>, rest: seq<nat>, sorted: seq<nat>, key: seq<nat>)
    requires 2 <= |heap| && Perm(heap + sorted, all)
    requires Perm(rest, heap[..|heap| - 1][0 := heap[|heap| - 1]])
    requires Below(heap, [heap[0]] + sorted, key)
    ensures Perm(rest + ([heap[0]] + sorted), all)
    ensures Below(rest, [heap[0]] + sorted, key)
  {
    var init, last := heap[..|heap| - 1], heap[|heap| - 1];
    assert heap == init + [last];
    UpdateMultiset(init, 0, last);
    forall x | x in rest ensures x in heap {
      assert x in multiset(rest);
    }
  }

  lemma SortEnd(all: seq<nat>, heap: seq<nat>, sorted: seq<nat>, key: seq<nat>)
    requires |heap| == 1 && Perm(heap + sorted, all) && InRange(all, key)
    ensures Perm([heap[0]] + sorted, all) && InRange([heap[0]] + sorted, key)
  {
    assert heap == [heap[0]];
    MultisetInRange(all, [heap[0]] + sorted, key);
  }

  /** The root of a full heap is dropped for a lighter segment. */
  lemma Replace(h: seq<nat>, h': seq<nat>, d: seq<nat>, seg: nat, key: seq<nat>)
    requires 1 <= |h| && Perm(h', h[0 := seg]) && IsHeap(h, key)
    requires W(key, seg) < W(key, h[0]) && Below(h, d, key)
    ensures Perm(h' + (d + [h[0]]), h + d + [seg])
    ensures Below(h', d + [h[0]], key)
  {
    UpdateMultiset(h, 0, seg);
    RootIsMaximum(h, key);
    forall x | x in h' ensures x == seg || x in h {
      assert x in multiset(h');
    }
    assert h[0] in h;
  }

  /** A segment no lighter than the root of a full heap is dropped. */
  lemma Refuse(h: seq<nat>, d: seq<nat>, seg: nat, key: seq<nat>)
    requires 1 <= |h| && IsHeap(h, key) && W(key, h[0]) <= W(key, seg) && Below(h, d, key)
    ensures Perm(h + (d + [seg]), h + d + [seg])
    ensures Below(h, d + [seg], key)
  {
    RootIsMaximum(h, key);
  }

  lemma Accept(h: seq<nat>, h': seq<nat>, seg: nat, key: seq<nat>)
    requires Perm(h', h + [seg])
    ensures Perm(h' + [], h + [] + [seg])
    ensures Below(h', [], key)
  {
    assert h' + [] == h' && h + [] == h;
  }

  class GcPoolHeap {
    const n: nat
    const key: seq<nat>
    const large: array<nat>
    const small: array<nat>
    var largeLen: nat
    var smallLen: nat
    var popPtr: nat
    /** Every segment that was offered and is not kept. */
    ghost var dropped: seq<nat>

    ghost predicate Shape()
      reads this
    {
      2 <= n && large.Length == n && small.Length == n && large != small && largeLen < n
    }

    ghost function Heap(): seq<nat>
      requires Shape()
      reads this, large
    {
      large[..largeLen]
    }

    ghost predicate Valid()
      reads this, large
    {
      && Shape()
      && InRange(Heap(), key) && IsHeap(Heap(), key)
      && Below(Heap(), dropped, key)
      && (dropped != [] ==> largeLen == n - 1)
    }

    constructor (n: nat, key: seq<nat>)
      requires 2 <= n
      ensures Valid() && largeLen == 0 && this.key == key && this.n == n
      ensures dropped == []
      ensures fresh(large) && fresh(small)
    {
      this.n := n;
      this.key := key;
      large := new nat[n](_ => 0);
      small := new nat[n](_ => 0);
      largeLen, smallLen, popPtr := 0, 0, 0;
      dropped := [];
    }

    /** Nothing offered is lost: it is either kept or dropped, and nothing dropped is lighter
        than anything kept. */
    method Push(seg: nat)
      requires Valid() && seg < |key|
      modifies this`largeLen, this`dropped, large
      ensures Valid()
      ensures Perm(Heap() + dropped, old(Heap() + dropped) + [seg])
      ensures largeLen == if old(largeLen) < n - 1 then old(largeLen) + 1 else n - 1
    {
      hide IsHeap, HeapUp, HeapDown, Perm, Below;
      ghost var h := Heap();
      if largeLen < n - 1 {
        LargeAdd(seg);
        Accept(h, Heap(), seg, key);
      } else {
        assert large[0] == h[0];
        if key[seg] < key[large[0]] {
          HeapIsHeapDown(h, key);
          LargeHeapify(seg);
          Replace(h, Heap(), dropped, seg, key);
          dropped := dropped + [h[0]];
        } else {
          Refuse(h, dropped, seg, key);
          dropped := dropped + [seg];
        }
      }
    }

    /** Appends `seg` and sifts it up. */
    method LargeAdd(seg: nat)
      requires Shape() && largeLen < n - 1 && seg < |key|
      requires InRange(Heap(), key) && IsHeap(Heap(), key)
      modifies this`largeLen, large
      ensures Shape() && largeLen == old(largeLen) + 1
      ensures Perm(Heap(), old(Heap()) + [seg])
      ensures InRange(Heap(), key) && IsHeap(Heap(), key)
    {
      hide IsHeap, HeapUp, InRange, Perm;
      var cur := largeLen;
      ghost var all := Heap() + [seg];
      ghost var view := all;
      SiftUpStart(Heap(), seg, key);
      while cur > 0
        invariant 0 <= cur < |view| == largeLen + 1 <= n - 1 && largeLen == old(largeLen)
        invariant view[cur] == seg
        invariant forall i :: 0 <= i < |view| && i != cur ==> view[i] == large[i]
        invariant Perm(view, all)
        invariant InRange(view, key) && HeapUp(view, key, cur)
      {
        var pp := (cur - 1) / 2;
        InRangeAt(view, key, pp);
        if key[seg] <= key[large[pp]] { break; }
        SiftUpStep(all, view, key, cur, pp);
        view := Swap(view, cur, pp);
        large[cur] := large[pp];
        cur := pp;
      }
      SiftUpDone(view, key, cur);
      large[cur] := seg;
      largeLen := largeLen + 1;
      assert Heap() == view;
    }

    /** Replaces the root by `seg` and sifts it down. */
    method LargeHeapify(seg: nat)
      requires Shape() && 1 <= largeLen && seg < |key|
      requires InRange(Heap(), key) && HeapDown(Heap(), key, 0)
      modifies large
      ensures Perm(Heap(), old(Heap())[0 := seg])
      ensures InRange(Heap(), key) && IsHeap(Heap(), key)
    {
      hide IsHeap, HeapDown, InRange, Perm;
      var cur := 0;
      ghost var all := Heap()[0 := seg];
      ghost var view := all;
      SiftDownStart(Heap(), seg, key);
      while true
        invariant 0 <= cur < |view| == largeLen
        invariant view[cur] == seg
        invariant forall i :: 0 <= i < |view| && i != cur ==> view[i] == large[i]
        invariant Perm(view, all)
        invariant InRange(view, key) && HeapDown(view, key, cur)
        decreases largeLen - cur
      {
        var left := cur * 2 + 1;
        var right := left + 1;
        var largest := cur;
        var largestVal := key[seg];
        if left < largeLen { InRangeAt(view, key, left); }
        if right < largeLen { InRangeAt(view, key, right); }
        if left < largeLen && key[large[left]] > largestVal {
          largest, largestVal := left, key[large[left]];
        }
        if right < largeLen && key[large[right]] > largestVal {
          largest := right;
        }
        if largest == cur { break; }
        SiftDownStep(all, view, key, cur, largest);
        view := Swap(view, cur, largest);
        large[cur] := large[largest];
        cur := largest;
      }
      SiftDownDone(view, key, cur);
      large[cur] := seg;
      assert Heap() == view;
    }

    /** One turn of the sort: the root goes to the sorted pool, the last entry takes its place. */
    method TakeRoot(ghost all: seq<nat>, ghost sorted: seq<nat>)
      requires Shape() && 2 <= largeLen <= smallLen < n
      requires InRange(Heap(), key) && IsHeap(Heap(), key)
      requires sorted == small[largeLen..smallLen]
      requires Ascending(sorted, key) && Below(Heap(), sorted, key) && Perm(Heap() + sorted, all)
      modifies this`largeLen, large, small
      ensures Shape() && largeLen == old(largeLen) - 1
      ensures InRange(Heap(), key) && IsHeap(Heap(), key)
      ensures [old(large[0])] + sorted == small[largeLen..smallLen]
      ensures Ascending([old(large[0])] + sorted, key) && Below(Heap(), [old(large[0])] + sorted, key)
      ensures Perm(Heap() + ([old(large[0])] + sorted), all)
    {
      hide IsHeap, HeapDown, InRange, Ascending, Below, Perm;
      ghost var heap := Heap();
      SortStep(heap, sorted, key);
      largeLen := largeLen - 1;
      small[largeLen] := large[0];
      InRangeAt(heap, key, largeLen);
      assert Heap() == heap[..|heap| - 1];
      LargeHeapify(large[largeLen]);
      SortPerm(all, heap, Heap(), sorted, key);
    }

    /** Moves the heap, largest first, into the tail of the sorted pool. */
    method Sort()
      requires Valid() && 1 <= largeLen
      modifies this`largeLen, this`smallLen, this`popPtr, large, small
      ensures smallLen == old(largeLen) && largeLen == 0 && popPtr == 0 && smallLen <= small.Length
      ensures Perm(small[..smallLen], old(Heap()))
      ensures InRange(small[..smallLen], key) && Ascending(small[..smallLen], key)
    {
      hide IsHeap, HeapDown, InRange, Ascending, Below, Perm;
      smallLen := largeLen;
      ghost var all := Heap();
      ghost var sorted: seq<nat> := [];
      SortStart(all, key);
      while largeLen > 1
        invariant Shape() && 1 <= largeLen <= smallLen < n && smallLen == |all|
        invariant InRange(Heap(), key) && IsHeap(Heap(), key)
        invariant sorted == small[largeLen..smallLen]
        invariant Ascending(sorted, key) && Below(Heap(), sorted, key)
        invariant Perm(Heap() + sorted, all)
        decreases largeLen
      {
        ghost var top := large[0];
        TakeRoot(all, sorted);
        sorted := [top] + sorted;
      }
      SortStep(Heap(), sorted, key);
      SortEnd(all, Heap(), sorted, key);
      largeLen := 0;
      small[0] := large[0];
      popPtr := 0;
      assert small[..smallLen] == [large[0]] + sorted;
    }

    method Pop() returns (seg: int)
      requires smallLen <= small.Length && popPtr <= smallLen
      modifies this`popPtr
      ensures old(popPtr) == smallLen ==> seg == -1 && popPtr == smallLen
      ensures old(popPtr) < smallLen ==> seg == small[old(popPtr)] && popPtr == old(popPtr) + 1
    {
      if popPtr >= smallLen { return -1; }
      seg := small[popPtr];
      popPtr := popPtr + 1;
    }
  }
}
