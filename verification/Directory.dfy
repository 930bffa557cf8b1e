/** A directory as levels of hashed entry blocks, each with a slot bitmap: what it maps names to. */
module Directory {
  import opened Basics
  import opened Segments
  import opened JournalTable

  type Name = seq<char>

  /** The bytes of a new block. */
  const BLANK: char := 255 as char

  /** The head of an entry; `ino` is -1 in an unused slot. */
  datatype Dentry = Dentry(ino: int, hash: nat, len: nat)

  datatype DentryBlock = DentryBlock(bitmap: seq<bool>, names: seq<char>, dentries: seq<Dentry>)

  /** Slots of a block, bytes of a slot, and the greatest number of levels. */
  datatype Form = Form(slots: nat, bytes: nat, maxDepth: nat)
  {
    predicate Ok() { 0 < slots && 0 < bytes }

    /** Slots that a name of `len` bytes takes. */
    function SlotNum(len: nat): nat
      requires Ok()
    {
      (len + bytes - 1) / bytes
    }
  }

  lemma FactorPos(a: int, b: nat)
    requires 0 < a * b
    ensures 0 < a
  {
  }

  lemma SlotBytes(f: Form, len: nat)
    requires f.Ok()
    ensures len <= Cap(f.SlotNum(len), f.bytes)
    ensures len > 0 ==> f.SlotNum(len) > 0
  {
    var x := len + f.bytes - 1;
    assert x == (x / f.bytes) * f.bytes + x % f.bytes;
    if len > 0 {
      FactorPos(x / f.bytes, f.bytes);
    }
  }

  /** The slots of a name are the fewest that hold it. */
  lemma SlotLeast(f: Form, len: nat, n: nat)
    requires f.Ok()
    ensures f.SlotNum(len) <= n <==> len <= Cap(n, f.bytes)
  {
    QuotUpTo(len, f.bytes, n);
  }

  lemma CapMono(a: nat, b: nat, n: nat)
    requires a <= b
    ensures Cap(a, n) <= Cap(b, n)
    ensures Cap(b, n) - Cap(a, n) == Cap(b - a, n)
  {
    assert a * n <= b * n;
    assert b * n - a * n == (b - a) * n;
  }

  // ----- One block -----

  predicate Sized(f: Form, b: DentryBlock) {
    |b.bitmap| == f.slots && |b.dentries| == f.slots && |b.names| == Cap(f.slots, f.bytes)
  }

  predicate IsEntry(b: DentryBlock, i: nat) {
    i < |b.dentries| && b.dentries[i].ino != -1
  }

  /** The slot after those of entry `i`. */
  function EndOf(f: Form, b: DentryBlock, i: nat): nat
    requires f.Ok() && i < |b.dentries|
  {
    i + f.SlotNum(b.dentries[i].len)
  }

  function NameAt(f: Form, b: DentryBlock, i: nat): Name {
    if i < |b.dentries| && Cap(i, f.bytes) + b.dentries[i].len <= |b.names|
    then b.names[Cap(i, f.bytes)..Cap(i, f.bytes) + b.dentries[i].len] else []
  }

  predicate Free(bitmap: seq<bool>, s: nat, n: nat) {
    s + n <= |bitmap| && forall k :: s <= k < s + n ==> !bitmap[k]
  }

  /** Entries lie in the block, own the slots that their names take, and share none. */
  ghost predicate EntryOk(f: Form, hash: Name -> nat, b: DentryBlock, i: nat)
    requires f.Ok() && Sized(f, b) && IsEntry(b, i)
  {
    && 0 < b.dentries[i].len && EndOf(f, b, i) <= f.slots
    && (forall k :: i <= k < EndOf(f, b, i) ==> b.bitmap[k])
    && (forall j :: i < j && IsEntry(b, j) ==> EndOf(f, b, i) <= j)
    && b.dentries[i].hash == hash(NameAt(f, b, i)) && |NameAt(f, b, i)| == b.dentries[i].len
  }

  ghost predicate BlockOk(f: Form, hash: Name -> nat, b: DentryBlock) {
    && f.Ok() && Sized(f, b)
    && (forall i :: 0 <= i && IsEntry(b, i) ==> EntryOk(f, hash, b, i))
    && (forall k :: 0 <= k < f.slots && b.bitmap[k] ==> exists i: nat :: IsEntry(b, i) && i <= k < EndOf(f, b, i))
  }

  function EmptyBlock(f: Form): DentryBlock {
    DentryBlock(seq(f.slots, _ => false), seq(Cap(f.slots, f.bytes), _ => BLANK), seq(f.slots, _ => Dentry(-1, 0, 0)))
  }

  lemma EmptyOk(f: Form, hash: Name -> nat)
    requires f.Ok()
    ensures BlockOk(f, hash, EmptyBlock(f)) && forall i: nat :: !IsEntry(EmptyBlock(f), i)
  {
  }

  /** Writing name `fn` at slot `s` of a block. */
  function WriteName(f: Form, b: DentryBlock, s: nat, fn: Name, h: nat, ino: int): DentryBlock
    requires f.Ok() && Sized(f, b) && s + f.SlotNum(|fn|) <= f.slots && s < f.slots
  {
    var n := f.SlotNum(|fn|);
    SlotBytes(f, |fn|);
    CapMono(s, s + n, f.bytes);
    CapMono(s + n, f.slots, f.bytes);
    DentryBlock(
      seq(f.slots, k requires 0 <= k < f.slots => b.bitmap[k] || s <= k < s + n),
      b.names[..Cap(s, f.bytes)] + fn + seq(Cap(n, f.bytes) - |fn|, _ => '\0') + b.names[Cap(s + n, f.bytes)..],
      b.dentries[s := Dentry(ino, h, |fn|)])
  }

  /** Clearing entry `s` of a block. */
  function Clear(f: Form, b: DentryBlock, s: nat): DentryBlock
    requires f.Ok() && Sized(f, b) && s < f.slots && EndOf(f, b, s) <= f.slots
  {
    var e := EndOf(f, b, s);
    CapMono(s, e, f.bytes);
    CapMono(e, f.slots, f.bytes);
    DentryBlock(
      seq(f.slots, k requires 0 <= k < f.slots => b.bitmap[k] && !(s <= k < e)),
      b.names[..Cap(s, f.bytes)] + seq(Cap(e, f.bytes) - Cap(s, f.bytes), _ => '\0') + b.names[Cap(e, f.bytes)..],
      b.dentries[s := Dentry(-1, 0, 0)])
  }

  lemma SliceLow(a: Name, b: Name, c: nat, d: nat, p: nat)
    requires c <= d <= p <= |a| == |b| && a[..p] == b[..p]
    ensures a[c..d] == b[c..d]
  {
    forall k | 0 <= k < d - c ensures a[c..d][k] == b[c..d][k] {
      assert a[..p][c + k] == b[..p][c + k];
    }
  }

  lemma SliceHigh(a: Name, b: Name, c: nat, d: nat, p: nat)
    requires p <= c <= d <= |a| == |b| && a[p..] == b[p..]
    ensures a[c..d] == b[c..d]
  {
    forall k | 0 <= k < d - c ensures a[c..d][k] == b[c..d][k] {
      assert a[p..][c - p + k] == b[p..][c - p + k];
    }
  }

  /** Where the name of an entry lies. */
  lemma NamePlace(f: Form, b: DentryBlock, i: nat)
    requires f.Ok() && Sized(f, b) && i < |b.dentries| && EndOf(f, b, i) <= f.slots
    ensures Cap(i, f.bytes) + b.dentries[i].len <= Cap(EndOf(f, b, i), f.bytes) <= |b.names|
  {
    hide Cap;
    SlotBytes(f, b.dentries[i].len);
    CapMono(i, EndOf(f, b, i), f.bytes);
    CapMono(EndOf(f, b, i), f.slots, f.bytes);
  }

  /** Names outside a stretch of slots do not change with it. */
  lemma NameStays(f: Form, b: DentryBlock, b': DentryBlock, i: nat, s: nat, e: nat)
    requires f.Ok() && Sized(f, b) && Sized(f, b') && i < |b.dentries| && EndOf(f, b, i) <= f.slots
    requires b'.dentries[i] == b.dentries[i] && s <= e <= f.slots && (EndOf(f, b, i) <= s || e <= i)
    requires Cap(s, f.bytes) <= Cap(e, f.bytes) <= |b.names|
    requires b'.names[..Cap(s, f.bytes)] == b.names[..Cap(s, f.bytes)] && b'.names[Cap(e, f.bytes)..] == b.names[Cap(e, f.bytes)..]
    ensures NameAt(f, b', i) == NameAt(f, b, i)
  {
    NamePlace(f, b, i);
    hide Cap, EndOf;
    var c := Cap(i, f.bytes);
    if EndOf(f, b, i) <= s {
      CapMono(EndOf(f, b, i), s, f.bytes);
      SliceLow(b'.names, b.names, c, c + b.dentries[i].len, Cap(s, f.bytes));
    } else {
      CapMono(e, i, f.bytes);
      SliceHigh(b'.names, b.names, c, c + b.dentries[i].len, Cap(e, f.bytes));
    }
  }

  /** A name put into free slots is an entry of the block; the others stay as they are. */
  lemma PutEntries(f: Form, hash: Name -> nat, b: DentryBlock, s: nat, fn: Name, ino: int)
    requires BlockOk(f, hash, b) && 0 < |fn| && s < f.slots && Free(b.bitmap, s, f.SlotNum(|fn|)) && ino != -1
    ensures var b' := WriteName(f, b, s, fn, hash(fn), ino);
            && Sized(f, b') && NameAt(f, b', s) == fn && b'.dentries[s] == Dentry(ino, hash(fn), |fn|)
            && (forall i: nat :: IsEntry(b', i) <==> IsEntry(b, i) || i == s)
            && !IsEntry(b, s)
            && (forall i: nat :: IsEntry(b, i) ==>
              && NameAt(f, b', i) == NameAt(f, b, i) && b'.dentries[i] == b.dentries[i]
              && (EndOf(f, b, i) <= s || s + f.SlotNum(|fn|) <= i))
  {
    hide Cap;
    var n := f.SlotNum(|fn|);
    var b' := WriteName(f, b, s, fn, hash(fn), ino);
    SlotBytes(f, |fn|);
    CapMono(s, s + n, f.bytes);
    CapMono(s + n, f.slots, f.bytes);
    assert b'.names[Cap(s, f.bytes)..Cap(s, f.bytes) + |fn|] == fn;
    PutNames(f, b, s, fn, hash(fn), ino);
    forall i: nat | IsEntry(b, i)
      ensures i != s && NameAt(f, b', i) == NameAt(f, b, i) && (EndOf(f, b, i) <= s || s + n <= i)
    {
      assert EntryOk(f, hash, b, i);
      SlotBytes(f, b.dentries[i].len);
      assert b.bitmap[i];
      assert !b.bitmap[s];
      NameStays(f, b, b', i, s, s + n);
    }
  }

  lemma PutNames(f: Form, b: DentryBlock, s: nat, fn: Name, h: nat, ino: int)
    requires f.Ok() && Sized(f, b) && s + f.SlotNum(|fn|) <= f.slots && s < f.slots
    ensures var b' := WriteName(f, b, s, fn, h, ino);
            && Sized(f, b') && Cap(s, f.bytes) <= Cap(s + f.SlotNum(|fn|), f.bytes) <= |b.names|
            && b'.names[..Cap(s, f.bytes)] == b.names[..Cap(s, f.bytes)]
            && b'.names[Cap(s + f.SlotNum(|fn|), f.bytes)..] == b.names[Cap(s + f.SlotNum(|fn|), f.bytes)..]
  {
    hide Cap;
    var n := f.SlotNum(|fn|);
    SlotBytes(f, |fn|);
    CapMono(s, s + n, f.bytes);
    CapMono(s + n, f.slots, f.bytes);
  }

  lemma PutOk(f: Form, hash: Name -> nat, b: DentryBlock, s: nat, fn: Name, ino: int)
    requires BlockOk(f, hash, b) && 0 < |fn| && s < f.slots && Free(b.bitmap, s, f.SlotNum(|fn|)) && ino != -1
    ensures BlockOk(f, hash, WriteName(f, b, s, fn, hash(fn), ino))
  {
    hide Cap, NameAt;
    var b' := WriteName(f, b, s, fn, hash(fn), ino);
    PutEntries(f, hash, b, s, fn, ino);
    SlotBytes(f, |fn|);
    forall i: nat | IsEntry(b', i) ensures EntryOk(f, hash, b', i) {
      if i != s {
        assert EntryOk(f, hash, b, i);
      } else {
        assert EndOf(f, b', s) == s + f.SlotNum(|fn|);
      }
    }
    forall k | 0 <= k < f.slots && b'.bitmap[k] ensures exists i: nat :: IsEntry(b', i) && i <= k < EndOf(f, b', i) {
      if s <= k < s + f.SlotNum(|fn|) {
        assert IsEntry(b', s) && k < EndOf(f, b', s);
      } else {
        var i: nat :| IsEntry(b, i) && i <= k < EndOf(f, b, i);
        assert IsEntry(b', i) && EndOf(f, b', i) == EndOf(f, b, i);
      }
    }
  }

  lemma ClearNames(f: Form, b: DentryBlock, s: nat)
    requires f.Ok() && Sized(f, b) && s < f.slots && EndOf(f, b, s) <= f.slots
    ensures var b' := Clear(f, b, s); var e := EndOf(f, b, s);
            && Sized(f, b') && Cap(s, f.bytes) <= Cap(e, f.bytes) <= |b.names|
            && b'.names[..Cap(s, f.bytes)] == b.names[..Cap(s, f.bytes)]
            && b'.names[Cap(e, f.bytes)..] == b.names[Cap(e, f.bytes)..]
  {
    hide Cap;
    CapMono(s, EndOf(f, b, s), f.bytes);
    CapMono(EndOf(f, b, s), f.slots, f.bytes);
  }

  /** Clearing an entry removes it and nothing else. */
  lemma ClearEntries(f: Form, hash: Name -> nat, b: DentryBlock, s: nat)
    requires BlockOk(f, hash, b) && IsEntry(b, s)
    ensures EndOf(f, b, s) <= f.slots
    ensures var b' := Clear(f, b, s);
            && Sized(f, b') && b'.dentries == b.dentries[s := Dentry(-1, 0, 0)]
            && (forall i: nat :: IsEntry(b', i) <==> IsEntry(b, i) && i != s)
            && (forall i: nat :: IsEntry(b', i) ==>
              && NameAt(f, b', i) == NameAt(f, b, i) && b'.dentries[i] == b.dentries[i]
              && (EndOf(f, b, i) <= s || EndOf(f, b, s) <= i))
  {
    hide Cap;
    assert EntryOk(f, hash, b, s);
    var b' := Clear(f, b, s);
    ClearNames(f, b, s);
    forall i: nat | IsEntry(b', i) ensures NameAt(f, b', i) == NameAt(f, b, i) && (EndOf(f, b, i) <= s || EndOf(f, b, s) <= i) {
      assert EntryOk(f, hash, b, i);
      NameStays(f, b, b', i, s, EndOf(f, b, s));
    }
  }

  lemma ClearEntry(f: Form, hash: Name -> nat, b: DentryBlock, s: nat, i: nat)
    requires BlockOk(f, hash, b) && IsEntry(b, s) && EndOf(f, b, s) <= f.slots && Sized(f, Clear(f, b, s)) && IsEntry(Clear(f, b, s), i)
    ensures EntryOk(f, hash, Clear(f, b, s), i) && Clear(f, b, s).bitmap[i]
  {
    hide Cap, NameAt, BlockOk;
    ClearEntries(f, hash, b, s);
    EntriesOk(f, hash, b, i);
    EntriesOk(f, hash, b, s);
    SlotBytes(f, b.dentries[i].len);
    assert EndOf(f, Clear(f, b, s), i) == EndOf(f, b, i);
  }

  lemma EntriesOk(f: Form, hash: Name -> nat, b: DentryBlock, i: nat)
    requires BlockOk(f, hash, b) && IsEntry(b, i)
    ensures f.Ok() && Sized(f, b) && EntryOk(f, hash, b, i)
  {
  }

  lemma ClearOk(f: Form, hash: Name -> nat, b: DentryBlock, s: nat)
    requires BlockOk(f, hash, b) && IsEntry(b, s) && EndOf(f, b, s) <= f.slots
    ensures BlockOk(f, hash, Clear(f, b, s))
    ensures (forall k :: 0 <= k < f.slots ==> !Clear(f, b, s).bitmap[k]) ==> forall i: nat :: !IsEntry(Clear(f, b, s), i)
  {
    hide Cap, NameAt;
    var b' := Clear(f, b, s);
    ClearEntries(f, hash, b, s);
    forall i: nat | IsEntry(b', i) ensures EntryOk(f, hash, b', i) && b'.bitmap[i] {
      ClearEntry(f, hash, b, s, i);
    }
    forall k | 0 <= k < f.slots && b'.bitmap[k] ensures exists i: nat :: IsEntry(b', i) && i <= k < EndOf(f, b', i) {
      var i: nat :| IsEntry(b, i) && i <= k < EndOf(f, b, i);
      assert IsEntry(b', i) && EndOf(f, b', i) == EndOf(f, b, i);
    }
  }

  // ----- The levels -----

  function Pow2(n: nat): (r: nat)
    ensures r >= 1
  {
    if n == 0 then 1 else 2 * Pow2(n - 1)
  }

  /** The block of level `l` that a hash value selects. */
  function BlkAt(l: nat, h: nat): nat {
    Pow2(l) - 1 + h % Pow2(l)
  }

  lemma {:induction false} PowMono(a: nat, b: nat)
    requires a <= b
    ensures Pow2(a) <= Pow2(b)
    ensures a < b ==> 2 * Pow2(a) <= Pow2(b)
  {
    if a < b {
      PowMono(a, b - 1);
    }
  }

  /** Level `l` has the blocks from `2 ** l - 1` on, as many as there are before them and one more, and a
      hash value selects the block whose number is congruent to it. */
  lemma BlkExact(l: nat, h: nat, b: nat)
    ensures BlkAt(l, h) == b <==> Pow2(l) <= b + 1 < 2 * Pow2(l) && (b + 1 - h) % Pow2(l) == 0
  {
    ModSame(b + 1, h, Pow2(l));
  }

  /** Every block is a block of one level only, and some hash value selects it there. */
  lemma {:induction false} EveryBlock(b: nat) returns (l: nat)
    ensures BlkAt(l, b + 1) == b
    ensures forall k: nat, h: nat :: BlkAt(k, h) == b ==> k == l
  {
    l := 0;
    while b + 1 >= 2 * Pow2(l)
      invariant Pow2(l) <= b + 1
      decreases b + 1 - Pow2(l)
    {
      l := l + 1;
    }
    BlkExact(l, b + 1, b);
    forall k: nat, h: nat | BlkAt(k, h) == b ensures k == l {
      BlkExact(k, h, b);
      if k < l {
        PowMono(k, l);
      } else if l < k {
        PowMono(l, k);
      }
    }
  }

  lemma BlkRange(l: nat, h: nat, depth: nat)
    ensures Pow2(l) - 1 <= BlkAt(l, h) < 2 * Pow2(l) - 1
    ensures l < depth ==> BlkAt(l, h) < Pow2(depth) - 1
  {
    if l < depth {
      PowMono(l, depth);
    }
  }

  type Blocks = seq<Option<DentryBlock>>

  predicate EntryAt(bs: Blocks, b: nat, i: nat) {
    b < |bs| && bs[b].Some? && IsEntry(bs[b].value, i)
  }

  function NameOf(f: Form, bs: Blocks, b: nat, i: nat): Name {
    if b < |bs| && bs[b].Some? then NameAt(f, bs[b].value, i) else []
  }

  function InoOf(bs: Blocks, b: nat, i: nat): int {
    if EntryAt(bs, b, i) then bs[b].value.dentries[i].ino else -1
  }

  /** An entry lies in the block that its level and its hash value select. */
  ghost predicate Placed(f: Form, hash: Name -> nat, bs: Blocks, depth: nat, b: nat, i: nat) {
    exists l: nat :: l < depth && b == BlkAt(l, hash(NameOf(f, bs, b, i)))
  }

  /** The blocks of a directory with `depth` levels; a block without entries is a hole. */
  ghost predicate DirOk(f: Form, hash: Name -> nat, bs: Blocks, depth: nat) {
    && f.Ok() && depth <= f.maxDepth && |bs| == Pow2(f.maxDepth) - 1
    && (forall b :: 0 <= b < |bs| && bs[b].Some? ==> BlockOk(f, hash, bs[b].value) && b < Pow2(depth) - 1)
    && (forall b: nat, i: nat :: EntryAt(bs, b, i) ==> Placed(f, hash, bs, depth, b, i))
  }

  ghost predicate Has(f: Form, bs: Blocks, k: Name) {
    exists b: nat, i: nat :: EntryAt(bs, b, i) && NameOf(f, bs, b, i) == k
  }

  ghost predicate Distinct(f: Form, bs: Blocks, b: nat, i: nat) {
    forall b': nat, i': nat :: EntryAt(bs, b', i') && NameOf(f, bs, b', i') == NameOf(f, bs, b, i) ==> b' == b && i' == i
  }

  /** The directory maps exactly the names of its entries, each once, to their inodes. */
  ghost predicate Maps(f: Form, bs: Blocks, m: map<Name, int>) {
    && (forall b: nat, i: nat :: EntryAt(bs, b, i) ==>
      NameOf(f, bs, b, i) in m && m[NameOf(f, bs, b, i)] == InoOf(bs, b, i) && Distinct(f, bs, b, i))
    && (forall k :: k in m ==> Has(f, bs, k))
  }

  /** A name in the map is found in the block that some level selects for it. */
  lemma Found(f: Form, hash: Name -> nat, bs: Blocks, depth: nat, m: map<Name, int>, fn: Name) returns (l: nat, i: nat)
    requires DirOk(f, hash, bs, depth) && Maps(f, bs, m) && fn in m
    ensures l < depth && EntryAt(bs, BlkAt(l, hash(fn)), i) && NameOf(f, bs, BlkAt(l, hash(fn)), i) == fn
    ensures InoOf(bs, BlkAt(l, hash(fn)), i) == m[fn]
  {
    hide BlkAt, BlockOk, NameOf;
    assert Has(f, bs, fn);
    var b: nat, j: nat :| EntryAt(bs, b, j) && NameOf(f, bs, b, j) == fn;
    assert Placed(f, hash, bs, depth, b, j);
    l :| l < depth && b == BlkAt(l, hash(NameOf(f, bs, b, j)));
    i := j;
  }

  /** The comparison that a search makes at one slot says whether the slot holds the name. */
  predicate Matches(f: Form, b: DentryBlock, i: nat, fn: Name, h: nat)
    requires f.Ok() && Sized(f, b) && i < f.slots
  {
    && b.dentries[i].ino != -1 && b.dentries[i].hash == h && b.dentries[i].len == |fn|
    && Cap(i, f.bytes) + |fn| <= |b.names| && b.names[Cap(i, f.bytes)..Cap(i, f.bytes) + |fn|] == fn
  }

  lemma MatchIsName(f: Form, hash: Name -> nat, b: DentryBlock, i: nat, fn: Name)
    requires BlockOk(f, hash, b) && i < f.slots
    ensures Matches(f, b, i, fn, hash(fn)) <==> IsEntry(b, i) && NameAt(f, b, i) == fn
  {
    if IsEntry(b, i) {
      assert EntryOk(f, hash, b, i);
    }
  }

  /** Adding a fresh name to one block adds it to the map. */
  lemma PutMaps(f: Form, hash: Name -> nat, bs: Blocks, depth: nat, m: map<Name, int>, depth': nat, l: nat, blk: DentryBlock, s: nat, fn: Name, ino: int)
    requires DirOk(f, hash, bs, depth) && Maps(f, bs, m) && fn !in m && depth <= depth' <= f.maxDepth && l < depth'
    requires 0 < |fn| && ino != -1 && s < f.slots && BlkAt(l, hash(fn)) < |bs|
    requires BlockOk(f, hash, blk) && Free(blk.bitmap, s, f.SlotNum(|fn|))
    requires bs[BlkAt(l, hash(fn))] == Some(blk) || (bs[BlkAt(l, hash(fn))].None? && forall i: nat :: !IsEntry(blk, i))
    ensures var bs' := bs[BlkAt(l, hash(fn)) := Some(WriteName(f, blk, s, fn, hash(fn), ino))];
            DirOk(f, hash, bs', depth') && Maps(f, bs', m[fn := ino])
  {
    hide BlkAt, BlockOk, WriteName, Cap, Sized, NameAt, IsEntry, Pow2, Maps;
    PutReady(f, hash, blk, s, fn);
    var B := BlkAt(l, hash(fn));
    var bs' := bs[B := Some(WriteName(f, blk, s, fn, hash(fn), ino))];
    PutOk(f, hash, blk, s, fn, ino);
    PutEntries(f, hash, blk, s, fn, ino);
    BlkRange(l, hash(fn), depth');
    PowMono(depth, depth');
    PutSees(f, hash, bs, bs', blk, B, s, fn, ino);
    forall b: nat, i: nat | EntryAt(bs', b, i) ensures Placed(f, hash, bs', depth', b, i) {
      if b == B && i == s {
        assert NameOf(f, bs', b, i) == fn;
      } else {
        assert Placed(f, hash, bs, depth, b, i);
      }
    }
    AddedMaps(f, bs, bs', m, B, s, fn, ino);
  }

  lemma PutReady(f: Form, hash: Name -> nat, blk: DentryBlock, s: nat, fn: Name)
    requires BlockOk(f, hash, blk) && Free(blk.bitmap, s, f.SlotNum(|fn|))
    ensures Sized(f, blk) && s + f.SlotNum(|fn|) <= f.slots
  {
  }

  /** What the blocks show after a put: the old entries and the new one. */
  lemma PutSees(f: Form, hash: Name -> nat, bs: Blocks, bs': Blocks, blk: DentryBlock, B: nat, s: nat, fn: Name, ino: int)
    requires BlockOk(f, hash, blk) && 0 < |fn| && s < f.slots && Free(blk.bitmap, s, f.SlotNum(|fn|)) && ino != -1 && B < |bs|
    requires bs[B] == Some(blk) || (bs[B].None? && forall i: nat :: !IsEntry(blk, i))
    requires Sized(f, blk) && s + f.SlotNum(|fn|) <= f.slots
    requires bs' == bs[B := Some(WriteName(f, blk, s, fn, hash(fn), ino))]
    ensures forall b: nat, i: nat :: EntryAt(bs', b, i) <==> EntryAt(bs, b, i) || (b == B && i == s)
    ensures !EntryAt(bs, B, s) && NameOf(f, bs', B, s) == fn && InoOf(bs', B, s) == ino
    ensures forall b: nat, i: nat :: EntryAt(bs, b, i) ==> NameOf(f, bs', b, i) == NameOf(f, bs, b, i) && InoOf(bs', b, i) == InoOf(bs, b, i)
  {
    hide BlkAt, BlockOk, WriteName, Cap, Sized, NameAt, IsEntry;
    PutEntries(f, hash, blk, s, fn, ino);
    assert IsEntry(bs'[B].value, s);
  }

  /** One more entry with a fresh name is one more name in the map. */
  lemma AddedMaps(f: Form, bs: Blocks, bs': Blocks, m: map<Name, int>, B: nat, s: nat, fn: Name, ino: int)
    requires Maps(f, bs, m) && fn !in m
    requires forall b: nat, i: nat :: EntryAt(bs', b, i) <==> EntryAt(bs, b, i) || (b == B && i == s)
    requires !EntryAt(bs, B, s) && NameOf(f, bs', B, s) == fn && InoOf(bs', B, s) == ino
    requires forall b: nat, i: nat :: EntryAt(bs, b, i) ==> NameOf(f, bs', b, i) == NameOf(f, bs, b, i) && InoOf(bs', b, i) == InoOf(bs, b, i)
    ensures Maps(f, bs', m[fn := ino])
  {
    hide EntryAt, NameOf, InoOf;
    var m' := m[fn := ino];
    forall b: nat, i: nat | EntryAt(bs', b, i)
      ensures NameOf(f, bs', b, i) in m' && m'[NameOf(f, bs', b, i)] == InoOf(bs', b, i) && Distinct(f, bs', b, i)
    {
      if EntryAt(bs, b, i) {
        assert Distinct(f, bs, b, i);
      }
    }
    assert EntryAt(bs', B, s);
    forall k: Name | k in m' ensures Has(f, bs', k) {
      if k != fn {
        assert Has(f, bs, k);
        var b: nat, i: nat :| EntryAt(bs, b, i) && NameOf(f, bs, b, i) == k;
        assert EntryAt(bs', b, i) && NameOf(f, bs', b, i) == k;
      }
    }
  }

  /** Clearing an entry takes its name out of the map; a block that becomes empty becomes a hole. */
  lemma ClearMaps(f: Form, hash: Name -> nat, bs: Blocks, depth: nat, m: map<Name, int>, B: nat, s: nat, blk: Option<DentryBlock>)
    requires DirOk(f, hash, bs, depth) && Maps(f, bs, m) && EntryAt(bs, B, s)
    requires EndOf(f, bs[B].value, s) <= f.slots && Sized(f, bs[B].value) && s < f.slots
    requires blk == Some(Clear(f, bs[B].value, s)) || (blk.None? && forall k :: 0 <= k < f.slots ==> !Clear(f, bs[B].value, s).bitmap[k])
    ensures DirOk(f, hash, bs[B := blk], depth) && Maps(f, bs[B := blk], m - {NameOf(f, bs, B, s)})
  {
    hide BlkAt, BlockOk, Clear, Cap, Sized, NameAt, IsEntry, EndOf, Maps;
    var bs' := bs[B := blk];
    ClearOk(f, hash, bs[B].value, s);
    ClearEntries(f, hash, bs[B].value, s);
    assert forall b: nat, i: nat :: EntryAt(bs', b, i) <==> EntryAt(bs, b, i) && (b != B || i != s);
    forall b: nat, i: nat | EntryAt(bs', b, i)
      ensures Placed(f, hash, bs', depth, b, i) && NameOf(f, bs', b, i) == NameOf(f, bs, b, i) && InoOf(bs', b, i) == InoOf(bs, b, i)
    {
      assert EntryAt(bs, b, i);
      if b == B {
        assert NameAt(f, bs'[B].value, i) == NameAt(f, bs[B].value, i);
      }
      assert NameOf(f, bs', b, i) == NameOf(f, bs, b, i);
      assert Placed(f, hash, bs, depth, b, i);
    }
    DroppedMaps(f, bs, bs', m, B, s);
  }

  lemma DroppedMaps(f: Form, bs: Blocks, bs': Blocks, m: map<Name, int>, B: nat, s: nat)
    requires Maps(f, bs, m) && EntryAt(bs, B, s)
    requires forall b: nat, i: nat :: EntryAt(bs', b, i) <==> EntryAt(bs, b, i) && (b != B || i != s)
    requires forall b: nat, i: nat :: EntryAt(bs', b, i) ==> NameOf(f, bs', b, i) == NameOf(f, bs, b, i) && InoOf(bs', b, i) == InoOf(bs, b, i)
    ensures Maps(f, bs', m - {NameOf(f, bs, B, s)})
  {
    hide EntryAt, NameOf, InoOf;
    var fn := NameOf(f, bs, B, s);
    var m' := m - {fn};
    assert Distinct(f, bs, B, s);
    forall b: nat, i: nat | EntryAt(bs', b, i)
      ensures NameOf(f, bs', b, i) in m' && m'[NameOf(f, bs', b, i)] == InoOf(bs', b, i) && Distinct(f, bs', b, i)
    {
      assert Distinct(f, bs, b, i);
    }
    forall k: Name | k in m' ensures Has(f, bs', k) {
      assert Has(f, bs, k);
      var b: nat, i: nat :| EntryAt(bs, b, i) && NameOf(f, bs, b, i) == k;
      assert EntryAt(bs', b, i) && NameOf(f, bs', b, i) == k;
    }
  }

  // ----- Counting -----

  /** Places of entries before slot `i` of block `b`. */
  ghost predicate Earlier(b: nat, i: nat, p: (nat, nat)) {
    p.0 < b || (p.0 == b && p.1 < i)
  }

  ghost predicate AllPlaces(bs: Blocks, b: nat, i: nat, s: set<(nat, nat)>) {
    forall p :: p in s <==> Earlier(b, i, p) && EntryAt(bs, p.0, p.1)
  }

  lemma PlacesStep(bs: Blocks, b: nat, i: nat, s: set<(nat, nat)>)
    requires AllPlaces(bs, b, i, s)
    ensures (b, i) !in s
    ensures AllPlaces(bs, b, i + 1, if EntryAt(bs, b, i) then s + {(b, i)} else s)
  {
    hide EntryAt;
    forall p: (nat, nat) ensures Earlier(b, i + 1, p) <==> Earlier(b, i, p) || p == (b, i) {
    }
  }

  lemma {:induction false} ImageCard(f: Form, bs: Blocks, s: set<(nat, nat)>)
    requires forall p, q :: p in s && q in s && p != q ==> NameOf(f, bs, p.0, p.1) != NameOf(f, bs, q.0, q.1)
    ensures |set p | p in s :: NameOf(f, bs, p.0, p.1)| == |s|
    decreases |s|
  {
    hide NameOf;
    if s != {} {
      var x :| x in s;
      var rest := s - {x};
      ImageCard(f, bs, rest);
      var a, b := (set p | p in s :: NameOf(f, bs, p.0, p.1)), (set p | p in rest :: NameOf(f, bs, p.0, p.1));
      var n := NameOf(f, bs, x.0, x.1);
      assert n !in b;
      forall k ensures k in a <==> k in b + {n} {
        if k in a {
          var p :| p in s && k == NameOf(f, bs, p.0, p.1);
          if p != x {
            assert p in rest;
          }
        }
      }
      assert a == b + {n};
    } else {
      assert (set p | p in s :: NameOf(f, bs, p.0, p.1)) == {};
    }
  }

  /** There are as many entries as names in the map. */
  lemma EntriesAreNames(f: Form, bs: Blocks, m: map<Name, int>, s: set<(nat, nat)>)
    requires Maps(f, bs, m) && forall p :: p in s <==> EntryAt(bs, p.0, p.1)
    ensures |s| == |m|
  {
    hide EntryAt, NameOf, InoOf;
    forall p, q | p in s && q in s && p != q ensures NameOf(f, bs, p.0, p.1) != NameOf(f, bs, q.0, q.1) {
      assert Distinct(f, bs, p.0, p.1);
      assert EntryAt(bs, q.0, q.1);
      assert p == (p.0, p.1) && q == (q.0, q.1);
    }
    ImageCard(f, bs, s);
    var names := set p | p in s :: NameOf(f, bs, p.0, p.1);
    forall k ensures k in names <==> k in m.Keys {
      if k in m {
        assert Has(f, bs, k);
        var b: nat, i: nat :| EntryAt(bs, b, i) && NameOf(f, bs, b, i) == k;
        assert (b, i) in s;
      }
    }
    assert names == m.Keys;
    assert |m| == |m.Keys|;
  }

  // ----- The operations -----

  /** A block that is there has an entry: an emptied one is truncated. */
  ghost predicate Inhabited(bs: Blocks) {
    forall b: nat :: b < |bs| && bs[b].Some? ==> exists i: nat :: EntryAt(bs, b, i)
  }

  lemma StillInhabited(bs: Blocks, B: nat, b: Option<DentryBlock>)
    requires Inhabited(bs) && B < |bs| && (b.Some? ==> exists i: nat :: IsEntry(b.value, i))
    ensures Inhabited(bs[B := b])
  {
    hide IsEntry;
    var bs' := bs[B := b];
    forall c: nat | c < |bs'| && bs'[c].Some? ensures exists i: nat :: EntryAt(bs', c, i) {
      if c == B {
        var i: nat :| IsEntry(b.value, i);
        assert EntryAt(bs', c, i);
      } else {
        var i: nat :| EntryAt(bs, c, i);
        assert EntryAt(bs', c, i);
      }
    }
  }

  /** A block has an entry exactly when a slot of it is taken. */
  lemma TakenEntry(f: Form, hash: Name -> nat, b: DentryBlock, k: nat)
    requires BlockOk(f, hash, b) && k < |b.bitmap| && b.bitmap[k]
    ensures exists i: nat :: IsEntry(b, i)
  {
    hide IsEntry;
  }

  /** `n` is the least number of slots of `bytes` bytes that hold `len` bytes. */
  ghost predicate Least(len: nat, bytes: nat, n: nat) {
    len <= Cap(n, bytes) && forall m: nat :: m < n ==> Cap(m, bytes) < len
  }

  lemma LeastSlots(f: Form, len: nat)
    requires f.Ok()
    ensures Least(len, f.bytes, f.SlotNum(len))
    ensures forall n: nat :: Least(len, f.bytes, n) ==> n == f.SlotNum(len)
    ensures len <= Cap(f.slots, f.bytes) <==> f.SlotNum(len) <= f.slots
  {
    hide Form.SlotNum;
    var n := f.SlotNum(len);
    SlotLeast(f, len, n);
    SlotLeast(f, len, f.slots);
    forall m: nat | m < n ensures Cap(m, f.bytes) < len {
      SlotLeast(f, len, m);
    }
    forall m: nat | Least(len, f.bytes, m) ensures m == n {
      SlotLeast(f, len, m);
    }
  }

  /** No block that the first `d` levels select for a name has `n` free slots in a row. */
  ghost predicate Full(f: Form, hash: Name -> nat, bs: Blocks, d: nat, fn: Name, n: nat) {
    forall l: nat :: l < d ==>
      && BlkAt(l, hash(fn)) < |bs| && bs[BlkAt(l, hash(fn))].Some?
      && forall s: nat :: !Free(bs[BlkAt(l, hash(fn))].value.bitmap, s, n)
  }

  /** Level `l` is the first whose block can take `n` slots, and slot `s` the first there: the block is
      a hole or the level is new, or it has no earlier run. */
  ghost predicate FirstFit(f: Form, hash: Name -> nat, bs: Blocks, depth: nat, fn: Name, n: nat, l: nat, s: nat) {
    && Full(f, hash, bs, l, fn, n) && l <= depth && BlkAt(l, hash(fn)) < |bs|
    && var b := bs[BlkAt(l, hash(fn))];
      if b.None? then s == 0 else l < depth && Free(b.value.bitmap, s, n) && forall k: nat :: k < s ==> !Free(b.value.bitmap, k, n)
  }

  lemma NoneFull(f: Form, hash: Name -> nat, bs: Blocks, fn: Name, n: nat)
    ensures Full(f, hash, bs, 0, fn, n)
  {
  }

  lemma FullMore(f: Form, hash: Name -> nat, bs: Blocks, d: nat, fn: Name, n: nat)
    requires Full(f, hash, bs, d, fn, n) && BlkAt(d, hash(fn)) < |bs| && bs[BlkAt(d, hash(fn))].Some?
    requires forall s: nat :: !Free(bs[BlkAt(d, hash(fn))].value.bitmap, s, n)
    ensures Full(f, hash, bs, d + 1, fn, n)
  {
    hide BlkAt, Free;
  }

  lemma NotFull(f: Form, hash: Name -> nat, bs: Blocks, d: nat, fn: Name, n: nat, l: nat, s: nat)
    requires l < d && BlkAt(l, hash(fn)) < |bs|
    requires bs[BlkAt(l, hash(fn))].None? || Free(bs[BlkAt(l, hash(fn))].value.bitmap, s, n)
    ensures !Full(f, hash, bs, d, fn, n)
  {
    hide BlkAt, Free;
  }

  class DirFile {
    const f: Form
    const hash: Name -> nat
    const blocks: array<Option<DentryBlock>>
    var depth: nat
    ghost var content: map<Name, int>

    ghost predicate Valid()
      reads this, blocks
    {
      DirOk(f, hash, blocks[..], depth) && Maps(f, blocks[..], content) && Inhabited(blocks[..])
    }

    /** A directory without entries. */
    constructor (f: Form, hash: Name -> nat)
      requires f.Ok()
      ensures this.f == f && this.hash == hash && Valid() && content == map[] && depth == 0 && fresh(blocks)
    {
      this.f, this.hash, this.depth, this.content := f, hash, 0, map[];
      blocks := new Option<DentryBlock>[Pow2(f.maxDepth) - 1](_ => None);
    }

    /** The first run of `n` free slots, or a number past the last slot when there is none. */
    method FindSlot(bitmap: seq<bool>, n: nat) returns (start: nat)
      requires 0 < n
      ensures start < |bitmap| ==> Free(bitmap, start, n) && forall s: nat :: s < start ==> !Free(bitmap, s, n)
      ensures start >= |bitmap| ==> forall s: nat :: !Free(bitmap, s, n)
    {
      var index := 0;
      start := 0;
      while true
        invariant start <= |bitmap|
        invariant forall s: nat :: s < start ==> !Free(bitmap, s, n)
        decreases |bitmap| - start, if start < |bitmap| && bitmap[start] then 1 else 0
      {
        while start < |bitmap| && bitmap[start]
          invariant start <= |bitmap| && forall s: nat :: s < start ==> !Free(bitmap, s, n)
        {
          start := start + 1;
        }
        if start >= |bitmap| {
          return;
        }
        index := start;
        while index < |bitmap| && !bitmap[index]
          invariant start <= index <= |bitmap| && forall k :: start <= k < index ==> !bitmap[k]
        {
          index := index + 1;
        }
        if index - start >= n {
          return;
        }
        forall s: nat | start <= s < index ensures !Free(bitmap, s, n) {
          if s + n <= |bitmap| {
            assert s <= index < s + n;
          }
        }
        start := index;
      }
    }

    /** The inode of a name, or -1. */
    method FindFile(fn: Name) returns (fid: int)
      requires Valid()
      ensures fid == if fn in content then content[fn] else -1
    {
      hide BlkAt, BlockOk, Placed, Maps, Has, Distinct;
      fid := -1;
      if depth == 0 {
        NotThere(f, hash, blocks[..], depth, content, fn);
        return;
      }
      var h := hash(fn);
      var level, num, first := 0, 1, 0;
      while level < depth
        invariant level <= depth && num == Pow2(level) && first == num - 1
        invariant forall l: nat, i: nat :: l < level && EntryAt(blocks[..], BlkAt(l, h), i) ==> NameOf(f, blocks[..], BlkAt(l, h), i) != fn
      {
        BlkIs(level, h);
        BlkRange(level, h, depth);
        PowMono(depth, f.maxDepth);
        var blk := first + h % num;
        if blocks[blk].Some? {
          var i := FindInBlock(blk, fn);
          if i < f.slots {
            HitValue(f, blocks[..], content, blk, i);
            return blocks[blk].value.dentries[i].ino;
          }
        }
        first := first + num;
        num := num * 2;
        level := level + 1;
      }
      NotThere(f, hash, blocks[..], depth, content, fn);
    }

    /** The slot of a name in one block, or a number past the last slot. */
    method FindInBlock(blk: nat, fn: Name) returns (i: nat)
      requires DirOk(f, hash, blocks[..], depth) && blk < blocks.Length && blocks[blk].Some?
      ensures i < f.slots ==> EntryAt(blocks[..], blk, i) && NameOf(f, blocks[..], blk, i) == fn
      ensures i < f.slots ==> Sized(f, blocks[blk].value)
      ensures i >= f.slots ==> forall j: nat :: EntryAt(blocks[..], blk, j) ==> NameOf(f, blocks[..], blk, j) != fn
    {
      hide BlockOk, Placed, NameAt, Matches;
      var b := blocks[blk].value;
      assert blocks[..][blk] == Some(b);
      BlockSized(f, hash, b);
      var h := hash(fn);
      i := 0;
      while i < f.slots
        invariant i <= f.slots && Sized(f, b)
        invariant forall j: nat :: j < i && IsEntry(b, j) ==> NameAt(f, b, j) != fn
      {
        MatchIsName(f, hash, b, i, fn);
        if Matches(f, b, i, fn, h) {
          return;
        }
        i := i + 1;
      }
    }

    /** Adds a name that is not there, in the first run of enough slots on its way; the directory gets
        one level more when there is none.  It fails exactly when the last level is in use and no block
        that the name's hash selects is missing or has a run of slots for it. */
    method AddLink(fn: Name, fid: int) returns (ok: bool, ghost l: nat, ghost s: nat)
      requires Valid() && fn !in content && 0 < |fn| <= Cap(f.slots, f.bytes) && fid != -1
      modifies this`depth, this`content, blocks
      ensures Valid() && content == if ok then old(content)[fn := fid] else old(content)
      ensures forall n: nat :: Least(|fn|, f.bytes, n) ==>
                && (!ok <==> old(depth) == f.maxDepth && old(Full(f, hash, blocks[..], depth, fn, n)))
                && (depth > old(depth) <==> ok && old(Full(f, hash, blocks[..], depth, fn, n)))
                && (ok ==> FirstFit(f, hash, old(blocks[..]), old(depth), fn, n, l, s))
      ensures ok ==> Entered(old(blocks[..]), BlkAt(l, hash(fn)), s, fn, fid)
      ensures !ok ==> blocks[..] == old(blocks[..])
      ensures old(depth) <= depth <= old(depth) + 1
    {
      hide BlkAt, BlockOk, DirOk, Pow2, Maps, WriteName, Sized, Form.SlotNum, Free, Full, FirstFit, Least, DirFile.Entered;
      ok, l, s := false, 0, 0;
      var h := hash(fn);
      DepthBound(f, hash, blocks[..], depth);
      SlotBytes(f, |fn|);
      LeastSlots(f, |fn|);
      var n := f.SlotNum(|fn|);
      NoneFull(f, hash, blocks[..], fn, n);
      BlkIs(0, h);
      var level, num, first := 0, 1, 0;
      while level < depth
        invariant level <= depth && num == Pow2(level) && first == num - 1 && depth == old(depth)
        invariant Valid() && content == old(content) && blocks[..] == old(blocks[..]) && !ok
        invariant Full(f, hash, blocks[..], level, fn, n)
      {
        BlkIs(level, h);
        l := level;
        var blk := first + h % num;
        BlkThere(f, hash, blocks[..], depth, level, h);
        if blocks[blk].Some? {
          assert blocks[..][blk] == blocks[blk];
          var start := FindSlot(blocks[blk].value.bitmap, n);
          s := start;
          if start < f.slots {
            NotFull(f, hash, blocks[..], depth, fn, n, level, start);
            Fits(f, hash, blocks[..], depth, fn, n, level, start);
            Enter(level, blk, blocks[blk].value, start, fn, fid, depth);
            return true, l, s;
          }
          FullMore(f, hash, blocks[..], level, fn, n);
        } else {
          NotFull(f, hash, blocks[..], depth, fn, n, level, 0);
          Fits(f, hash, blocks[..], depth, fn, n, level, 0);
          NewBlock(level, blk, fn, fid, depth);
          return true, l, 0;
        }
        first := first + num;
        num := num * 2;
        level := level + 1;
      }
      if depth + 1 > f.maxDepth {
        return;
      }
      BlkIs(depth, h);
      NextLevel(f, hash, blocks[..], depth, h);
      num := Pow2(depth);
      l, s := depth, 0;
      Fits(f, hash, blocks[..], depth, fn, n, depth, 0);
      NewBlock(depth, num - 1 + h % num, fn, fid, depth + 1);
      depth := depth + 1;
      ok := true;
    }

    /** The block at `blk` got the name in slot `s`; the other blocks are as they were. */
    ghost predicate Entered(bs: Blocks, blk: nat, s: nat, fn: Name, fid: int)
      reads blocks
    {
      && |bs| == blocks.Length && blk < |bs| && EntryAt(blocks[..], blk, s)
      && NameOf(f, blocks[..], blk, s) == fn && InoOf(blocks[..], blk, s) == fid
      && forall b :: 0 <= b < |bs| && b != blk ==> blocks[b] == bs[b]
    }

    /** Enters a name in the hole at `blk`. */
    method NewBlock(level: nat, blk: nat, fn: Name, fid: int, ghost depth': nat)
      requires Valid() && fn !in content && 0 < |fn| && f.SlotNum(|fn|) <= f.slots && fid != -1
      requires level < depth' <= f.maxDepth && depth <= depth' && blk == BlkAt(level, hash(fn)) && blk < blocks.Length && blocks[blk].None?
      modifies this`content, blocks
      ensures DirOk(f, hash, blocks[..], depth') && Maps(f, blocks[..], content) && Inhabited(blocks[..]) && content == old(content)[fn := fid]
      ensures Entered(old(blocks[..]), blk, 0, fn, fid)
    {
      hide BlkAt, BlockOk, Placed, Maps, WriteName, DirFile.Entered;
      EmptyOk(f, hash);
      SlotBytes(f, |fn|);
      Enter(level, blk, EmptyBlock(f), 0, fn, fid, depth');
    }

    /** Writes a name into free slots of the block at `blk`. */
    method Enter(level: nat, blk: nat, b: DentryBlock, start: nat, fn: Name, fid: int, ghost depth': nat)
      requires Valid() && fn !in content && 0 < |fn| && fid != -1 && start < f.slots && BlockOk(f, hash, b)
      requires level < depth' <= f.maxDepth && depth <= depth' && blk == BlkAt(level, hash(fn)) && blk < blocks.Length
      requires Free(b.bitmap, start, f.SlotNum(|fn|))
      requires blocks[blk] == Some(b) || (blocks[blk].None? && forall i: nat :: !IsEntry(b, i))
      modifies this`content, blocks
      ensures DirOk(f, hash, blocks[..], depth') && Maps(f, blocks[..], content) && Inhabited(blocks[..]) && content == old(content)[fn := fid]
      ensures Entered(old(blocks[..]), blk, start, fn, fid)
    {
      hide BlkAt, BlockOk, Placed, Maps, WriteName, Free;
      ghost var bs := blocks[..];
      PutReady(f, hash, b, start, fn);
      PutMaps(f, hash, bs, depth, content, depth', level, b, start, fn, fid);
      PutHere(f, hash, bs, blk, b, start, fn, fid);
      blocks[blk] := Some(WriteName(f, b, start, fn, hash(fn), fid));
      content := content[fn := fid];
      assert blocks[..] == bs[blk := Some(WriteName(f, b, start, fn, hash(fn), fid))];
    }

    /** Removes the entry of a name that belongs to `fid`; a block that becomes empty is truncated.
        It finds nothing exactly when the name does not belong to `fid`. */
    method Unlink(fid: int, fn: Name) returns (found: bool)
      requires Valid()
      modifies this`content, blocks
      ensures Valid() && (found <==> fn in old(content) && old(content)[fn] == fid)
      ensures content == if found then old(content) - {fn} else old(content)
    {
      hide BlkAt, BlockOk, Placed, Maps, Has, Distinct, Clear, Sized, EndOf, Inhabited;
      found := false;
      var h := hash(fn);
      var level, num, first := 0, 1, 0;
      while level < depth
        invariant level <= depth && num == Pow2(level) && first == num - 1 && !found
        invariant Valid() && content == old(content) && blocks[..] == old(blocks[..])
        invariant forall l: nat, i: nat :: l < level && EntryAt(blocks[..], BlkAt(l, h), i) ==>
                    NameOf(f, blocks[..], BlkAt(l, h), i) != fn || InoOf(blocks[..], BlkAt(l, h), i) != fid
      {
        BlkIs(level, h);
        BlkRange(level, h, depth);
        PowMono(depth, f.maxDepth);
        var blk := first + h % num;
        if blocks[blk].Some? {
          var i := FindInBlock(blk, fn);
          if i < f.slots {
            HitValue(f, blocks[..], content, blk, i);
            if InoOf(blocks[..], blk, i) == fid {
              ClearSlot(blk, i);
              return true;
            }
            OnlyHit(f, blocks[..], content, blk, i);
          }
        }
        first := first + num;
        num := num * 2;
        level := level + 1;
      }
      if fn in content && content[fn] == fid {
        var l, i := Found(f, hash, blocks[..], depth, content, fn);
        assert false;
      }
    }

    method ClearSlot(blk: nat, i: nat)
      requires Valid() && EntryAt(blocks[..], blk, i) && i < f.slots && blk < blocks.Length
      modifies this`content, blocks
      ensures Valid() && content == old(content) - {old(NameOf(f, blocks[..], blk, i))}
    {
      hide Inhabited;
      hide BlkAt, BlockOk, Placed, Maps, Clear, EndOf, NameOf;
      ghost var bs := blocks[..];
      var b := blocks[blk].value;
      BlockEntry(f, hash, b, i);
      var b' := Clear(f, b, i);
      var empty := NoBits(b'.bitmap);
      ClearNames(f, b, i);
      if !empty {
        ClearOk(f, hash, b, i);
        var k: nat :| k < |b'.bitmap| && b'.bitmap[k];
        TakenEntry(f, hash, b', k);
      }
      StillInhabited(bs, blk, if empty then None else Some(b'));
      ClearMaps(f, hash, bs, depth, content, blk, i, if empty then None else Some(b'));
      content := content - {NameOf(f, bs, blk, i)};
      blocks[blk] := if empty then None else Some(b');
      assert blocks[..] == bs[blk := if empty then None else Some(b')];
    }

    method NoBits(bitmap: seq<bool>) returns (r: bool)
      ensures r <==> forall k :: 0 <= k < |bitmap| ==> !bitmap[k]
    {
      var k := 0;
      while k < |bitmap|
        invariant k <= |bitmap| && forall j :: 0 <= j < k ==> !bitmap[j]
      {
        if bitmap[k] {
          return false;
        }
        k := k + 1;
      }
      return true;
    }

    /** The number of entries is the size of the map. */
    method GetChildNumber() returns (child: nat)
      requires Valid()
      ensures child == |content|
    {
      hide DirOk, Maps, AllPlaces, Pow2;
      child := 0;
      var blkNr := Pow2(depth) - 1;
      ghost var bs := blocks[..];
      ghost var s: set<(nat, nat)> := {};
      NoPlaces(bs);
      var ii := 0;
      while ii < blkNr
        invariant ii <= blkNr && AllPlaces(bs, ii, 0, s) && child == |s|
      {
        BlockHere(f, hash, bs, depth, ii);
        var jj := 0;
        if blocks[ii].Some? {
          while jj < f.slots
            invariant jj <= f.slots && AllPlaces(bs, ii, jj, s) && child == |s|
          {
            PlacesStep(bs, ii, jj, s);
            if blocks[ii].value.dentries[jj].ino != -1 {
              child := child + 1;
              s := s + {(ii, jj)};
            }
            jj := jj + 1;
          }
        }
        PlacesNext(bs, ii, jj, s);
        ii := ii + 1;
      }
      AllThere(f, hash, bs, depth, s);
      EntriesAreNames(f, bs, content, s);
    }
  }

  /** The block of a level in use, if it is not a hole, is a proper block. */
  lemma BlkThere(f: Form, hash: Name -> nat, bs: Blocks, depth: nat, l: nat, h: nat)
    requires DirOk(f, hash, bs, depth) && l < depth
    ensures BlkAt(l, h) < |bs| && f.Ok() && depth <= f.maxDepth
    ensures bs[BlkAt(l, h)].Some? ==> BlockOk(f, hash, bs[BlkAt(l, h)].value) && |bs[BlkAt(l, h)].value.bitmap| == f.slots
  {
    BlkRange(l, h, depth);
    PowMono(depth, f.maxDepth);
  }

  /** The blocks of the level after the last are holes. */
  lemma NextLevel(f: Form, hash: Name -> nat, bs: Blocks, depth: nat, h: nat)
    requires DirOk(f, hash, bs, depth) && depth < f.maxDepth
    ensures BlkAt(depth, h) < |bs| && bs[BlkAt(depth, h)].None?
  {
    BlkRange(depth, h, depth + 1);
    PowMono(depth + 1, f.maxDepth);
  }

  lemma PutHere(f: Form, hash: Name -> nat, bs: Blocks, B: nat, b: DentryBlock, s: nat, fn: Name, ino: int)
    requires f.Ok() && BlockOk(f, hash, b) && 0 < |fn| && s < f.slots && Free(b.bitmap, s, f.SlotNum(|fn|)) && ino != -1 && B < |bs|
    requires Sized(f, b) && s + f.SlotNum(|fn|) <= f.slots
    ensures var bs' := bs[B := Some(WriteName(f, b, s, fn, hash(fn), ino))];
            EntryAt(bs', B, s) && NameOf(f, bs', B, s) == fn && InoOf(bs', B, s) == ino && (Inhabited(bs) ==> Inhabited(bs'))
  {
    hide BlockOk, NameAt, WriteName, Sized;
    PutEntries(f, hash, b, s, fn, ino);
    if Inhabited(bs) {
      assert IsEntry(WriteName(f, b, s, fn, hash(fn), ino), s);
      StillInhabited(bs, B, Some(WriteName(f, b, s, fn, hash(fn), ino)));
    }
  }

  lemma Fits(f: Form, hash: Name -> nat, bs: Blocks, depth: nat, fn: Name, n: nat, l: nat, s: nat)
    requires Full(f, hash, bs, l, fn, n) && l <= depth && BlkAt(l, hash(fn)) < |bs|
    requires bs[BlkAt(l, hash(fn))].None? ==> s == 0
    requires bs[BlkAt(l, hash(fn))].Some? ==>
               && var b := bs[BlkAt(l, hash(fn))].value.bitmap;
               l < depth && Free(b, s, n) && forall k: nat :: k < s ==> !Free(b, k, n)
    ensures FirstFit(f, hash, bs, depth, fn, n, l, s)
  {
    hide BlkAt, Free, Full;
  }

  lemma DepthBound(f: Form, hash: Name -> nat, bs: Blocks, depth: nat)
    requires DirOk(f, hash, bs, depth)
    ensures f.Ok() && depth <= f.maxDepth
  {
  }

  lemma BlkIs(l: nat, h: nat)
    ensures BlkAt(l, h) == Pow2(l) - 1 + h % Pow2(l)
    ensures Pow2(l + 1) == 2 * Pow2(l) && Pow2(0) == 1
  {
  }

  lemma BlockSized(f: Form, hash: Name -> nat, b: DentryBlock)
    requires BlockOk(f, hash, b)
    ensures f.Ok() && Sized(f, b) && |b.dentries| == |b.bitmap| == f.slots
  {
  }

  lemma BlockEntry(f: Form, hash: Name -> nat, b: DentryBlock, i: nat)
    requires BlockOk(f, hash, b) && IsEntry(b, i)
    ensures f.Ok() && Sized(f, b) && i < f.slots && EndOf(f, b, i) <= f.slots
  {
    assert EntryOk(f, hash, b, i);
  }

  lemma NotThere(f: Form, hash: Name -> nat, bs: Blocks, depth: nat, m: map<Name, int>, fn: Name)
    requires DirOk(f, hash, bs, depth) && Maps(f, bs, m)
    requires forall l: nat, i: nat :: l < depth && EntryAt(bs, BlkAt(l, hash(fn)), i) ==> NameOf(f, bs, BlkAt(l, hash(fn)), i) != fn
    ensures fn !in m
  {
    if fn in m {
      var l, i := Found(f, hash, bs, depth, m, fn);
    }
  }

  lemma HitValue(f: Form, bs: Blocks, m: map<Name, int>, b: nat, i: nat)
    requires Maps(f, bs, m) && EntryAt(bs, b, i)
    ensures NameOf(f, bs, b, i) in m && m[NameOf(f, bs, b, i)] == InoOf(bs, b, i) == bs[b].value.dentries[i].ino
  {
  }

  lemma OnlyHit(f: Form, bs: Blocks, m: map<Name, int>, b: nat, i: nat)
    requires Maps(f, bs, m) && EntryAt(bs, b, i)
    ensures forall j: nat :: EntryAt(bs, b, j) && NameOf(f, bs, b, j) == NameOf(f, bs, b, i) ==> j == i
  {
    hide EntryAt, NameOf;
    assert Distinct(f, bs, b, i);
  }

  lemma NoPlaces(bs: Blocks)
    ensures AllPlaces(bs, 0, 0, {})
  {
  }

  /** The block a loop over the levels stands at. */
  lemma BlockHere(f: Form, hash: Name -> nat, bs: Blocks, depth: nat, b: nat)
    requires DirOk(f, hash, bs, depth) && b < Pow2(depth) - 1
    ensures f.Ok() && b < |bs| && (bs[b].Some? ==> |bs[b].value.dentries| == f.slots)
  {
    hide Placed, Pow2;
    PowMono(depth, f.maxDepth);
    if bs[b].Some? {
      BlockSized(f, hash, bs[b].value);
    }
  }

  lemma PlacesNext(bs: Blocks, b: nat, i: nat, s: set<(nat, nat)>)
    requires AllPlaces(bs, b, i, s) && (b < |bs| && bs[b].Some? ==> |bs[b].value.dentries| <= i)
    ensures AllPlaces(bs, b + 1, 0, s)
  {
    forall p: (nat, nat) ensures p in s <==> Earlier(b + 1, 0, p) && EntryAt(bs, p.0, p.1) {
      if p.0 == b && p.1 >= i {
        assert !EntryAt(bs, b, p.1);
      }
    }
  }

  lemma AllThere(f: Form, hash: Name -> nat, bs: Blocks, depth: nat, s: set<(nat, nat)>)
    requires DirOk(f, hash, bs, depth) && AllPlaces(bs, Pow2(depth) - 1, 0, s)
    ensures forall p :: p in s <==> EntryAt(bs, p.0, p.1)
  {
    hide BlockOk, Placed;
  }
}
