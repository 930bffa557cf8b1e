/** The file system check as a walk over an arbitrary image, and what it means to pass it. */
module Fsck {
  import opened Segments
  import opened Mapping
  import opened Medium

  datatype FileType = Regular | Directory | UnknownType

  /** The blocks of the main area as the check reads them; -1 and None are the unused entries. */
  datatype Content =
    | InodeC(nid: int, ino: int, fileType: FileType, blkNum: nat, index: seq<int>)
    | IndexC(nid: int, validData: nat, ptrs: seq<Option<Loc>>)
    | DentryC(inos: seq<int>)
    | OtherC

  /** What a mount has in memory, and the main area: `disk(loc)` is the block at `loc`. */
  datatype Volume = Volume(B: nat, nats: seq<NatEntry>, sits: seq<SitEntry>, cur: seq<CurSeg>, freeNr: nat, disk: map<Loc, Content>)

  type Ssa = map<Loc, Summary>

  /** What the walk visits: a node reached as inode or as index node of a file, or a data block. */
  datatype Item =
    | NodeItem(nid: int, asInode: bool, fileType: FileType)
    | DataItem(loc: Loc, owner: Summary, inDir: bool)

  /** What a visit claims for itself. */
  datatype Id = Nid(nid: int) | Blk(loc: Loc)

  predicate InMain(vol: Volume, loc: Loc) {
    loc.seg < |vol.sits| && loc.blk < vol.B
  }

  predicate SitValid(vol: Volume, loc: Loc) {
    InMain(vol, loc) && loc.blk < |vol.sits[loc.seg].valid| && vol.sits[loc.seg].valid[loc.blk]
  }

  function At(vol: Volume, loc: Loc): Content {
    if loc in vol.disk then vol.disk[loc] else OtherC
  }

  predicate NodeAt(vol: Volume, nid: int) {
    0 <= nid < |vol.nats| && vol.nats[nid].At? && InMain(vol, vol.nats[nid].loc)
  }

  function Node(vol: Volume, nid: int): Content {
    if NodeAt(vol, nid) then At(vol, vol.nats[nid].loc) else OtherC
  }

  function PtrCount(ptrs: seq<Option<Loc>>): nat {
    if ptrs == [] then 0 else (if ptrs[0].Some? then 1 else 0) + PtrCount(ptrs[1..])
  }

  function IndexCount(vol: Volume, nid: int): nat {
    if Node(vol, nid).IndexC? then PtrCount(Node(vol, nid).ptrs) else 0
  }

  /** The data blocks below the index nodes of an inode. */
  function BlkCount(vol: Volume, index: seq<int>): nat {
    if index == [] then 0 else (if index[0] != -1 then IndexCount(vol, index[0]) else 0) + BlkCount(vol, index[1..])
  }

  /** The checks on one item besides the double assignments and the reverse map. */
  predicate Sound(vol: Volume, x: Item) {
    match x
    case NodeItem(nid, asInode, _) =>
      && NodeAt(vol, nid) && SitValid(vol, vol.nats[nid].loc)
      && var c := Node(vol, nid);
        if asInode then c.InodeC? && c.nid == nid && c.ino == nid && c.blkNum == BlkCount(vol, c.index)
        else c.IndexC? && c.nid == nid && c.validData == PtrCount(c.ptrs)
    case DataItem(loc, _, inDir) =>
      InMain(vol, loc) && (inDir ==> At(vol, loc).DentryC?)
  }

  /** The reverse map names the owner; for a block that is not valid it names nobody. */
  predicate SsaAgrees(vol: Volume, ssa: Ssa, x: Item) {
    match x
    case NodeItem(nid, _, _) => NodeAt(vol, nid) && Entry(ssa, vol.nats[nid].loc) == Summary(nid, -1)
    case DataItem(loc, owner, _) => SitValid(vol, loc) && Entry(ssa, loc) == owner
  }

  function Entry(ssa: Ssa, loc: Loc): Summary {
    if loc in ssa then ssa[loc] else NO_OWNER
  }

  function Claims(vol: Volume, x: Item): set<Id> {
    match x
    case NodeItem(nid, _, _) => if NodeAt(vol, nid) then {Nid(nid), Blk(vol.nats[nid].loc)} else {Nid(nid)}
    case DataItem(loc, _, _) => {Blk(loc)}
  }

  function IndexItems(index: seq<int>, ft: FileType): seq<Item> {
    if index == [] then []
    else (if index[0] != -1 then [NodeItem(index[0], false, ft)] else []) + IndexItems(index[1..], ft)
  }

  function DataItems(nid: int, ptrs: seq<Option<Loc>>, off: nat, inDir: bool): seq<Item> {
    if ptrs == [] then []
    else
      (if ptrs[0].Some? then [DataItem(ptrs[0].value, Summary(nid, off), inDir)] else []) + DataItems(nid, ptrs[1..], off + 1, inDir)
  }

  function DentryItems(inos: seq<int>): seq<Item> {
    if inos == [] then []
    else (if inos[0] != -1 then [NodeItem(inos[0], true, UnknownType)] else []) + DentryItems(inos[1..])
  }

  /** What an item leads to: an inode to its index nodes, an index node to its data blocks, a
      directory block to the inodes it names. */
  function Kids(vol: Volume, x: Item): seq<Item> {
    match x
    case NodeItem(nid, true, _) =>
      var c := Node(vol, nid);
      if c.InodeC? then IndexItems(c.index, c.fileType) else []
    case NodeItem(nid, false, ft) =>
      var c := Node(vol, nid);
      if c.IndexC? then DataItems(nid, c.ptrs, 0, ft.Directory?) else []
    case DataItem(loc, _, inDir) =>
      if inDir && At(vol, loc).DentryC? then DentryItems(At(vol, loc).inos) else []
  }

  // ----- The walk -----

  /** The marks of a walk and the reverse map it has repaired so far. */
  datatype Visit = Visit(ids: set<Id>, ssa: Ssa)

  function Universe(vol: Volume): set<Id> {
    (set n | 0 <= n < |vol.nats| :: Nid(n))
    + (set s, b | 0 <= s < |vol.sits| && 0 <= b < vol.B :: Blk(Loc(s, b)))
  }

  function Home(vol: Volume, x: Item): Loc
    requires Sound(vol, x)
  {
    match x
    case NodeItem(nid, _, _) => vol.nats[nid].loc
    case DataItem(loc, _, _) => loc
  }

  function OwnerOf(x: Item): Summary {
    match x
    case NodeItem(nid, _, _) => Summary(nid, -1)
    case DataItem(_, owner, _) => owner
  }

  /** Whether an item passes: sound, not claimed yet, and (unless repairing) as the reverse map says. */
  predicate Passes(vol: Volume, fix: bool, x: Item, v: Visit) {
    Sound(vol, x) && Claims(vol, x) * v.ids == {} && (fix || SsaAgrees(vol, v.ssa, x))
  }

  /** Visiting one item: it is marked, and a repair corrects its entry in the reverse map. */
  function Mark(vol: Volume, fix: bool, x: Item, v: Visit): Visit
    requires Sound(vol, x)
  {
    Visit(v.ids + Claims(vol, x),
          if fix && !SsaAgrees(vol, v.ssa, x) then v.ssa[Home(vol, x) := OwnerOf(x)] else v.ssa)
  }

  lemma MarkSmaller(vol: Volume, x: Item, ids: set<Id>)
    requires Sound(vol, x) && Claims(vol, x) * ids == {}
    ensures Universe(vol) - (ids + Claims(vol, x)) < Universe(vol) - ids
  {
    var loc := Home(vol, x);
    var id := Blk(Loc(loc.seg, loc.blk));
    assert id in Claims(vol, x) && id !in Claims(vol, x) * ids;
    assert id in Universe(vol);
    assert Universe(vol) - (ids + Claims(vol, x)) <= Universe(vol) - ids;
  }

  /** The recursive walk over a list of items: None when some check fails. */
  function Walk(vol: Volume, fix: bool, items: seq<Item>, v: Visit): (r: Option<Visit>)
    decreases Universe(vol) - v.ids, |items|
    ensures r.Some? ==> v.ids <= r.value.ids && (!fix ==> r.value.ssa == v.ssa)
  {
    if items == [] then Some(v)
    else if !Passes(vol, fix, items[0], v) then None
    else
      MarkSmaller(vol, items[0], v.ids);
      match Walk(vol, fix, Kids(vol, items[0]), Mark(vol, fix, items[0], v))
      case None => None
      case Some(w) =>
        assert Universe(vol) - w.ids < Universe(vol) - v.ids;
        Walk(vol, fix, items[1..], w)
  }

  const ROOT := NodeItem(0, true, Directory)

  // ----- What the walk means -----

  /** The item at the end of a path of child numbers. */
  function Reached(vol: Volume, items: seq<Item>, path: seq<nat>): Option<Item>
    decreases |path|
  {
    if path == [] || path[0] >= |items| then None
    else if |path| == 1 then Some(items[path[0]])
    else Reached(vol, Kids(vol, items[path[0]]), path[1..])
  }

  /** Everything that is reached is sound, and nothing is reached twice or was claimed before. */
  ghost predicate Fine(vol: Volume, fix: bool, items: seq<Item>, v: Visit) {
    && (forall p :: Reached(vol, items, p).Some? ==>
      && Sound(vol, Reached(vol, items, p).value)
      && Claims(vol, Reached(vol, items, p).value) * v.ids == {}
      && (fix || SsaAgrees(vol, v.ssa, Reached(vol, items, p).value)))
    && (forall p, q :: Reached(vol, items, p).Some? && Reached(vol, items, q).Some? && p != q ==>
      Claims(vol, Reached(vol, items, p).value) * Claims(vol, Reached(vol, items, q).value) == {})
  }

  /** Identifier `id` is claimed by something reached. */
  ghost predicate Claimed(vol: Volume, items: seq<Item>, id: Id) {
    exists p :: Reached(vol, items, p).Some? && id in Claims(vol, Reached(vol, items, p).value)
  }

  // Paths of a list lie below its first item or in the rest of the list.

  function Below(p: seq<nat>): seq<nat> {
    [0] + p
  }

  function Beside(p: seq<nat>): seq<nat>
    requires p != []
  {
    [p[0] + 1] + p[1..]
  }

  lemma ReachedBelow(vol: Volume, items: seq<Item>, p: seq<nat>)
    requires items != []
    ensures p != [] ==> Reached(vol, items, Below(p)) == Reached(vol, Kids(vol, items[0]), p)
    ensures p != [] ==> Reached(vol, items, Beside(p)) == Reached(vol, items[1..], p)
    ensures Reached(vol, items, [0]) == Some(items[0])
    ensures Reached(vol, items, p).Some? ==>
              || p == [0]
              || (|p| > 1 && p == Below(p[1..]) && Reached(vol, items, p) == Reached(vol, Kids(vol, items[0]), p[1..]))
              || (p[0] > 0 && p == Beside([p[0] - 1] + p[1..]) && Reached(vol, items, p) == Reached(vol, items[1..], [p[0] - 1] + p[1..]))
  {
    if p != [] {
      assert Below(p)[1..] == p;
      assert Beside(p)[1..] == p[1..];
      if p[0] > 0 {
        var q := [p[0] - 1] + p[1..];
        assert q[1..] == p[1..];
      } else {
        assert p == [0] + p[1..];
      }
    }
  }

  /** The identifiers claimed by a list are those of its first item, of what is below it, and of
      the rest. */
  lemma ClaimedSplit(vol: Volume, items: seq<Item>, id: Id)
    requires items != []
    ensures Claimed(vol, items, id) <==>
              || id in Claims(vol, items[0]) || Claimed(vol, Kids(vol, items[0]), id) || Claimed(vol, items[1..], id)
  {
    if Claimed(vol, items, id) {
      var p :| Reached(vol, items, p).Some? && id in Claims(vol, Reached(vol, items, p).value);
      ReachedBelow(vol, items, p);
    }
    if id in Claims(vol, items[0]) {
      ReachedBelow(vol, items, []);
    }
    if Claimed(vol, Kids(vol, items[0]), id) {
      var p :| Reached(vol, Kids(vol, items[0]), p).Some? && id in Claims(vol, Reached(vol, Kids(vol, items[0]), p).value);
      ReachedBelow(vol, items, p);
    }
    if Claimed(vol, items[1..], id) {
      var p :| Reached(vol, items[1..], p).Some? && id in Claims(vol, Reached(vol, items[1..], p).value);
      ReachedBelow(vol, items, p);
    }
  }

  /** A walk that succeeds marks exactly what is reached, and what is reached is fine. */
  lemma {:induction false} WalkSound(vol: Volume, fix: bool, items: seq<Item>, v: Visit)
    requires Walk(vol, fix, items, v).Some?
    ensures Fine(vol, fix, items, v)
    ensures forall id :: id in Walk(vol, fix, items, v).value.ids <==> id in v.ids || Claimed(vol, items, id)
    decreases Universe(vol) - v.ids, |items|
  {
    if items != [] {
      MarkSmaller(vol, items[0], v.ids);
      var kids, v1 := Kids(vol, items[0]), Mark(vol, fix, items[0], v);
      WalkSound(vol, fix, kids, v1);
      var v2 := Walk(vol, fix, kids, v1).value;
      assert Universe(vol) - v2.ids < Universe(vol) - v.ids;
      WalkSound(vol, fix, items[1..], v2);
      forall id ensures id in Walk(vol, fix, items, v).value.ids <==> id in v.ids || Claimed(vol, items, id) {
        ClaimedSplit(vol, items, id);
      }
      FineJoin(vol, fix, items, v, v1, v2);
    }
  }

  lemma FineJoin(vol: Volume, fix: bool, items: seq<Item>, v: Visit, v1: Visit, v2: Visit)
    requires items != [] && Passes(vol, fix, items[0], v) && v1.ids == v.ids + Claims(vol, items[0])
    requires Fine(vol, fix, Kids(vol, items[0]), v1) && Fine(vol, fix, items[1..], v2)
    requires !fix ==> v.ssa == v1.ssa == v2.ssa
    requires forall id :: id in v2.ids <==> id in v1.ids || Claimed(vol, Kids(vol, items[0]), id)
    ensures Fine(vol, fix, items, v)
  {
    hide Sound, Claims, SsaAgrees, Kids;
    var kids := Kids(vol, items[0]);
    forall p | Reached(vol, items, p).Some?
      ensures Sound(vol, Reached(vol, items, p).value)
      ensures Claims(vol, Reached(vol, items, p).value) * v.ids == {}
      ensures fix || SsaAgrees(vol, v.ssa, Reached(vol, items, p).value)
    {
      ReachedBelow(vol, items, p);
    }
    forall p, q | Reached(vol, items, p).Some? && Reached(vol, items, q).Some? && p != q
      ensures Claims(vol, Reached(vol, items, p).value) * Claims(vol, Reached(vol, items, q).value) == {}
    {
      if p[0] <= q[0] {
        FineApart(vol, fix, items, v, v1, v2, p, q);
      } else {
        FineApart(vol, fix, items, v, v1, v2, q, p);
      }
    }
  }

  lemma BackInjective(p: seq<nat>, q: seq<nat>)
    requires p != [] && q != [] && p[0] > 0 && q[0] > 0
    ensures [p[0] - 1] + p[1..] == [q[0] - 1] + q[1..] ==> p == q
  {
    var a, b := [p[0] - 1] + p[1..], [q[0] - 1] + q[1..];
    assert p == [a[0] + 1] + a[1..] && q == [b[0] + 1] + b[1..];
  }

  lemma FineApart(vol: Volume, fix: bool, items: seq<Item>, v: Visit, v1: Visit, v2: Visit, p: seq<nat>, q: seq<nat>)
    requires items != [] && v1.ids == v.ids + Claims(vol, items[0])
    requires Fine(vol, fix, Kids(vol, items[0]), v1) && Fine(vol, fix, items[1..], v2)
    requires forall id :: id in v2.ids <==> id in v1.ids || Claimed(vol, Kids(vol, items[0]), id)
    requires Reached(vol, items, p).Some? && Reached(vol, items, q).Some? && p != q && p[0] <= q[0]
    ensures Claims(vol, Reached(vol, items, p).value) * Claims(vol, Reached(vol, items, q).value) == {}
  {
    hide Sound, Claims, SsaAgrees, Kids;
    ReachedBelow(vol, items, p);
    ReachedBelow(vol, items, q);
    var kids, rest := Kids(vol, items[0]), items[1..];
    forall id | id in Claims(vol, Reached(vol, items, p).value) && id in Claims(vol, Reached(vol, items, q).value)
      ensures false
    {
      if q[0] > 0 {
        var q' := [q[0] - 1] + q[1..];
        if p[0] > 0 {
          BackInjective(p, q);
          FineOnce(vol, fix, rest, v2, [p[0] - 1] + p[1..], q', id);
        } else {
          assert p == [0] || Claimed(vol, kids, id);
          FineOnce(vol, fix, rest, v2, q', q', id);
        }
      } else if p == [0] {
        FineOnce(vol, fix, kids, v1, q[1..], q[1..], id);
      } else if q == [0] {
        FineOnce(vol, fix, kids, v1, p[1..], p[1..], id);
      } else {
        FineOnce(vol, fix, kids, v1, p[1..], q[1..], id);
      }
    }
  }

  /** A walk over fine items succeeds: double visits and bad items are the only ways to fail. */
  lemma {:induction false} WalkComplete(vol: Volume, fix: bool, items: seq<Item>, v: Visit)
    requires Fine(vol, fix, items, v)
    ensures Walk(vol, fix, items, v).Some?
    decreases Universe(vol) - v.ids, |items|
  {
    if items != [] {
      ReachedBelow(vol, items, []);
      assert Passes(vol, fix, items[0], v);
      MarkSmaller(vol, items[0], v.ids);
      var kids, v1 := Kids(vol, items[0]), Mark(vol, fix, items[0], v);
      FineBelow(vol, fix, items, v, v1);
      WalkComplete(vol, fix, kids, v1);
      WalkSound(vol, fix, kids, v1);
      var v2 := Walk(vol, fix, kids, v1).value;
      assert Universe(vol) - v2.ids < Universe(vol) - v.ids;
      FineBeside(vol, fix, items, v, v1, v2);
      WalkComplete(vol, fix, items[1..], v2);
    }
  }

  /** An identifier has one claimant, and none of them was marked before. */
  lemma FineOnce(vol: Volume, fix: bool, items: seq<Item>, v: Visit, p: seq<nat>, q: seq<nat>, id: Id)
    requires Fine(vol, fix, items, v) && Reached(vol, items, p).Some? && Reached(vol, items, q).Some?
    requires id in Claims(vol, Reached(vol, items, p).value)
    ensures id !in v.ids
    ensures id in Claims(vol, Reached(vol, items, q).value) ==> p == q
  {
    hide Sound, Claims, SsaAgrees, Reached;
    assert id !in Claims(vol, Reached(vol, items, p).value) * v.ids;
    if p != q {
      assert id !in Claims(vol, Reached(vol, items, p).value) * Claims(vol, Reached(vol, items, q).value);
    }
  }

  lemma FineBelow(vol: Volume, fix: bool, items: seq<Item>, v: Visit, v1: Visit)
    requires items != [] && Fine(vol, fix, items, v)
    requires v1.ids == v.ids + Claims(vol, items[0]) && (!fix ==> v1.ssa == v.ssa)
    ensures Fine(vol, fix, Kids(vol, items[0]), v1)
  {
    hide Sound, Claims, SsaAgrees, Kids;
    var kids := Kids(vol, items[0]);
    ReachedBelow(vol, items, []);
    forall p | Reached(vol, kids, p).Some?
      ensures Sound(vol, Reached(vol, kids, p).value)
      ensures Claims(vol, Reached(vol, kids, p).value) * v1.ids == {}
      ensures fix || SsaAgrees(vol, v1.ssa, Reached(vol, kids, p).value)
    {
      ReachedBelow(vol, items, p);
      assert Below(p) != [0];
    }
    forall p, q | Reached(vol, kids, p).Some? && Reached(vol, kids, q).Some? && p != q
      ensures Claims(vol, Reached(vol, kids, p).value) * Claims(vol, Reached(vol, kids, q).value) == {}
    {
      ReachedBelow(vol, items, p);
      ReachedBelow(vol, items, q);
      assert Below(p)[1..] == p && Below(q)[1..] == q;
    }
  }

  lemma BesideBack(p: seq<nat>)
    requires p != []
    ensures Beside(p)[0] > 0 && p == [Beside(p)[0] - 1] + Beside(p)[1..]
  {
  }

  lemma FineBeside(vol: Volume, fix: bool, items: seq<Item>, v: Visit, v1: Visit, v2: Visit)
    requires items != [] && Fine(vol, fix, items, v) && v1.ids == v.ids + Claims(vol, items[0])
    requires forall id :: id in v2.ids <==> id in v1.ids || Claimed(vol, Kids(vol, items[0]), id)
    requires !fix ==> v2.ssa == v.ssa
    ensures Fine(vol, fix, items[1..], v2)
  {
    hide Sound, Claims, SsaAgrees, Kids;
    var rest := items[1..];
    forall p | Reached(vol, rest, p).Some?
      ensures Sound(vol, Reached(vol, rest, p).value)
      ensures Claims(vol, Reached(vol, rest, p).value) * v2.ids == {}
      ensures fix || SsaAgrees(vol, v2.ssa, Reached(vol, rest, p).value)
    {
      ReachedBelow(vol, items, p);
      forall id | id in Claims(vol, Reached(vol, rest, p).value) ensures id !in v2.ids {
        ReachedBelow(vol, items, []);
        FineOnce(vol, fix, items, v, Beside(p), [0], id);
        if Claimed(vol, Kids(vol, items[0]), id) {
          var q :| Reached(vol, Kids(vol, items[0]), q).Some? && id in Claims(vol, Reached(vol, Kids(vol, items[0]), q).value);
          ReachedBelow(vol, items, q);
          FineOnce(vol, fix, items, v, Beside(p), Below(q), id);
        }
      }
    }
    forall p, q | Reached(vol, rest, p).Some? && Reached(vol, rest, q).Some? && p != q
      ensures Claims(vol, Reached(vol, rest, p).value) * Claims(vol, Reached(vol, rest, q).value) == {}
    {
      ReachedBelow(vol, items, p);
      ReachedBelow(vol, items, q);
      BesideBack(p);
      BesideBack(q);
    }
  }

  // ----- The verdict -----

  predicate SegInUse(sits: seq<SitEntry>, cur: seq<CurSeg>, s: nat)
    requires s < |sits|
  {
    (sits[s].temp < |cur| && cur[sits[s].temp].segNo == s) || sits[s].validNr != 0
  }

  function SegsInUse(sits: seq<SitEntry>, cur: seq<CurSeg>, n: nat): nat
    requires n <= |sits|
  {
    if n == 0 then 0 else SegsInUse(sits, cur, n - 1) + (if SegInUse(sits, cur, n - 1) then 1 else 0)
  }

  ghost predicate Counts(vol: Volume) {
    forall s :: 0 <= s < |vol.sits| ==> vol.sits[s].validNr == PopCount(vol.sits[s].valid)
  }

  /** Every bitmap matches its counter, and every segment is in use or counted as free. */
  ghost predicate MetaOk(vol: Volume) {
    Counts(vol) && SegsInUse(vol.sits, vol.cur, |vol.sits|) + vol.freeNr == |vol.sits|
  }

  ghost predicate Shaped(vol: Volume) {
    forall s :: 0 <= s < |vol.sits| ==> |vol.sits[s].valid| == vol.B
  }

  /** Every allocated node was visited. */
  ghost predicate NoDeadNid(vol: Volume, ids: set<Id>) {
    forall n :: 0 <= n < |vol.nats| && vol.nats[n] != Unused ==> Nid(n) in ids
  }

  ghost predicate NoDeadBlk(vol: Volume, ids: set<Id>) {
    forall loc :: SitValid(vol, loc) ==> Blk(loc) in ids
  }

  /** The check without repair does not throw. */
  ghost predicate Accepts(vol: Volume, ssa: Ssa) {
    && MetaOk(vol)
    && var r := Walk(vol, false, [ROOT], Visit({}, ssa));
      r.Some? && NoDeadNid(vol, r.value.ids) && NoDeadBlk(vol, r.value.ids)
  }

  /** What the check is for, said without the walk: the counters are right; whatever the root
      leads to along any path is sound and named by the reverse map; no node and no block is
      reached twice; allocated nodes are the reached ones and valid blocks are the reached ones. */
  ghost predicate Consistent(vol: Volume, ssa: Ssa) {
    && MetaOk(vol)
    && (forall p :: Reached(vol, [ROOT], p).Some? ==>
      Sound(vol, Reached(vol, [ROOT], p).value) && SsaAgrees(vol, ssa, Reached(vol, [ROOT], p).value))
    && (forall p, q :: Reached(vol, [ROOT], p).Some? && Reached(vol, [ROOT], q).Some? && p != q ==>
      Claims(vol, Reached(vol, [ROOT], p).value) * Claims(vol, Reached(vol, [ROOT], q).value) == {})
    && (forall n :: 0 <= n < |vol.nats| ==> (vol.nats[n] != Unused <==> Claimed(vol, [ROOT], Nid(n))))
    && (forall loc :: SitValid(vol, loc) <==> Claimed(vol, [ROOT], Blk(loc)))
  }

  /** Home of an item that the reverse map agrees on is valid. */
  lemma ClaimValid(vol: Volume, ssa: Ssa, x: Item, id: Id)
    requires Sound(vol, x) && SsaAgrees(vol, ssa, x) && id in Claims(vol, x)
    ensures id.Nid? ==> 0 <= id.nid < |vol.nats| && vol.nats[id.nid] != Unused
    ensures id.Blk? ==> SitValid(vol, id.loc)
  {
  }

  /** The check accepts exactly the consistent volumes. */
  lemma CheckExact(vol: Volume, ssa: Ssa)
    ensures Accepts(vol, ssa) <==> Consistent(vol, ssa)
  {
    hide Sound, SsaAgrees, Claims, Reached, Walk, MetaOk;
    var v := Visit({}, ssa);
    if Accepts(vol, ssa) {
      WalkSound(vol, false, [ROOT], v);
      forall id | Claimed(vol, [ROOT], id)
        ensures id.Nid? ==> 0 <= id.nid < |vol.nats| && vol.nats[id.nid] != Unused
        ensures id.Blk? ==> SitValid(vol, id.loc)
      {
        var p :| Reached(vol, [ROOT], p).Some? && id in Claims(vol, Reached(vol, [ROOT], p).value);
        ClaimValid(vol, ssa, Reached(vol, [ROOT], p).value, id);
      }
    }
    if Consistent(vol, ssa) {
      assert Fine(vol, false, [ROOT], v);
      WalkComplete(vol, false, [ROOT], v);
      WalkSound(vol, false, [ROOT], v);
    }
  }
}
