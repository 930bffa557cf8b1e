/** The metadata area as it is on the medium, and what a mount finds there. */
module Medium {
  import opened Segments
  import opened Mapping
  import opened Basics
  import opened JournalTable

  /** A segment table entry as it is stored. */
  datatype SitEntry = SitEntry(valid: seq<bool>, validNr: nat, temp: nat)

  datatype Head = Head(
    cur: seq<CurSeg>, natNr: nat, sitNr: nat, natVer: seq<bool>, sitVer: seq<bool>, open: nat, close: nat)

  /** Places of the metadata area: two checkpoint packs, two copies of either table, and one block of
      block owners for every segment. */
  datatype Addr =
    | HeadAt(pack: nat)
    | NatJAt(pack: nat)
    | SitJAt(pack: nat, part: nat)
    | NatAt(second: bool, blk: nat)
    | SitAt(second: bool, blk: nat)
    | SsaAt(seg: nat)

  datatype MetaBlock =
    | HeadB(head: Head)
    | NatJB(nats: seq<Entry<NatEntry>>)
    | SitJB(sits: seq<Entry<SitEntry>>)
    | NatB(natPage: seq<NatEntry>)
    | SitB(sitPage: seq<SitEntry>)
    | SsaB(owners: seq<Summary>)

  datatype Write = Write(addr: Addr, block: MetaBlock)

  type Disk = map<Addr, MetaBlock>

  /** The constants of the layout. */
  datatype Geo = Geo(natBlks: nat, natE: nat, sitBlks: nat, sitE: nat, parts: nat, perPart: nat, nodeNr: nat, segNr: nat)
  {
    function J(): nat { Cap(parts, perPart) }

    ghost predicate Ok() {
      && 0 < natE && 0 < sitE && 0 < parts && 0 < perPart && 0 < J()
      && nodeNr <= Cap(natBlks, natE) && segNr <= Cap(sitBlks, sitE)
    }
  }

  /** The contents of the medium after a sequence of block writes. */
  function Replay(log: seq<Write>): Disk
    decreases |log|
  {
    if log == [] then map[]
    else Replay(log[..|log| - 1])[log[|log| - 1].addr := log[|log| - 1].block]
  }

  lemma ReplayPush(log: seq<Write>, w: Write)
    ensures Replay(log + [w]) == Replay(log)[w.addr := w.block]
  {
    assert (log + [w])[..|log|] == log;
  }

  // ----- Choosing a checkpoint pack -----

  /** The version of a pack: 0 when it is not valid. */
  function Version(d: Disk, pack: nat): nat {
    if HeadAt(pack) in d && d[HeadAt(pack)].HeadB? && d[HeadAt(pack)].head.open == d[HeadAt(pack)].head.close
    then d[HeadAt(pack)].head.close else 0
  }

  /** The pack a mount chooses, if any. */
  function Choose(v0: nat, v1: nat): Option<nat> {
    if v0 != 0 && v1 != 0 then
      if v0 == v1 then None else if v1 > v0 then Some(1) else Some(0)
    else if v0 != 0 then Some(0)
    else if v1 != 0 then Some(1)
    else None
  }

  function Chunk<V>(s: seq<V>, P: nat, i: nat, n: nat): seq<V>
    requires i < n && |s| == Cap(n, P)
  {
    ChunkBounds(P, i, n);
    s[i * P..(i + 1) * P]
  }

  lemma ChunkBounds(P: nat, i: nat, n: nat)
    requires i < n
    ensures 0 <= i * P <= (i + 1) * P <= Cap(n, P)
  {
    MulLess(i, n, P);
    assert (i + 1) * P == i * P + P;
  }

  /** Everything a mount reads from a checkpoint. */
  datatype Image = Image(
    pack: nat,
    head: Head,
    natJ: seq<Entry<NatEntry>>,
    sitJ: seq<Entry<SitEntry>>,
    natBase: seq<seq<NatEntry>>,
    sitBase: seq<seq<SitEntry>>)

  ghost predicate ImageShape(g: Geo, img: Image) {
    && g.Ok() && img.pack < 2
    && |img.natBase| == |img.head.natVer| == g.natBlks && PagesShape(img.natBase, g.natE)
    && |img.sitBase| == |img.head.sitVer| == g.sitBlks && PagesShape(img.sitBase, g.sitE)
    && |img.natJ| == |img.sitJ| == g.J()
    && img.head.natNr <= g.J() && img.head.sitNr <= g.J()
    && InTable(img.natJ[..img.head.natNr], g.nodeNr)
    && InTable(img.sitJ[..img.head.sitNr], g.segNr)
  }

  ghost predicate Stored(d: Disk, a: Addr, b: MetaBlock) {
    a in d && d[a] == b
  }

  /** The base pages: the copies that the version bitmaps select. */
  ghost predicate NatPages(d: Disk, ver: seq<bool>, base: seq<seq<NatEntry>>) {
    |ver| == |base| && forall b :: 0 <= b < |ver| ==> Stored(d, NatAt(ver[b], b), NatB(base[b]))
  }

  ghost predicate SitPages(d: Disk, ver: seq<bool>, base: seq<seq<SitEntry>>) {
    |ver| == |base| && forall b :: 0 <= b < |ver| ==> Stored(d, SitAt(ver[b], b), SitB(base[b]))
  }

  ghost predicate PackBody(g: Geo, d: Disk, pack: nat, natJ: seq<Entry<NatEntry>>, sitJ: seq<Entry<SitEntry>>)
    requires |sitJ| == g.J()
  {
    && Stored(d, NatJAt(pack), NatJB(natJ))
    && forall i :: 0 <= i < g.parts ==> Stored(d, SitJAt(pack, i), SitJB(Chunk(sitJ, g.perPart, i, g.parts)))
  }

  /** The medium holds checkpoint `img` as its newest valid one. */
  ghost predicate Holds(g: Geo, d: Disk, img: Image) {
    && ImageShape(g, img)
    && Stored(d, HeadAt(img.pack), HeadB(img.head)) && img.head.open == img.head.close > 0
    && HeadAt(1 - img.pack) in d && d[HeadAt(1 - img.pack)].HeadB? && Version(d, 1 - img.pack) < img.head.close
    && PackBody(g, d, img.pack, img.natJ, img.sitJ)
    && NatPages(d, img.head.natVer, img.natBase)
    && SitPages(d, img.head.sitVer, img.sitBase)
  }

  /** What a checkpoint means: the two tables and the current segments. */
  datatype Snapshot = Snapshot(nats: seq<NatEntry>, sits: seq<SitEntry>, cur: seq<CurSeg>)

  ghost predicate Means(g: Geo, img: Image, s: Snapshot)
    requires ImageShape(g, img)
  {
    && |s.nats| == g.nodeNr && |s.sits| == g.segNr && |s.cur| == TEMP_NR && img.head.cur == s.cur
    && Decodes(Overlay(img.natBase, g.natE, img.natJ[..img.head.natNr]), g.natE, s.nats)
    && Decodes(Overlay(img.sitBase, g.sitE, img.sitJ[..img.head.sitNr]), g.sitE, s.sits)
  }

  /** A mount never fails on a medium that holds a checkpoint, and it chooses that checkpoint. */
  lemma HoldsChosen(g: Geo, d: Disk, img: Image)
    requires Holds(g, d, img)
    ensures Choose(Version(d, 0), Version(d, 1)) == Some(img.pack)
  {
    hide PackBody, NatPages, SitPages;
    assert Version(d, img.pack) == img.head.close;
  }

  /** The checkpoint a medium holds is unique, and so is what it means. */
  lemma HoldsUnique(g: Geo, d: Disk, a: Image, b: Image)
    requires Holds(g, d, a) && Holds(g, d, b)
    ensures a == b
  {
    HoldsChosen(g, d, a);
    HoldsChosen(g, d, b);
    forall i | 0 <= i < g.natBlks ensures a.natBase[i] == b.natBase[i] {
      assert Stored(d, NatAt(a.head.natVer[i], i), NatB(a.natBase[i]));
      assert Stored(d, NatAt(b.head.natVer[i], i), NatB(b.natBase[i]));
    }
    forall i | 0 <= i < g.sitBlks ensures a.sitBase[i] == b.sitBase[i] {
      assert Stored(d, SitAt(a.head.sitVer[i], i), SitB(a.sitBase[i]));
      assert Stored(d, SitAt(b.head.sitVer[i], i), SitB(b.sitBase[i]));
    }
    forall i | 0 <= i < g.parts
      ensures Chunk(a.sitJ, g.perPart, i, g.parts) == Chunk(b.sitJ, g.perPart, i, g.parts)
    {
      assert Stored(d, SitJAt(a.pack, i), SitJB(Chunk(a.sitJ, g.perPart, i, g.parts)));
      assert Stored(d, SitJAt(b.pack, i), SitJB(Chunk(b.sitJ, g.perPart, i, g.parts)));
    }
    ChunksEqual(a.sitJ, b.sitJ, g.perPart, g.parts);
  }

  /** Entry `x` is found in chunk `x / P`. */
  lemma ChunkAt<V>(s: seq<V>, P: nat, n: nat, x: nat)
    requires 0 < P && |s| == Cap(n, P) && x < |s|
    ensures 0 <= x / P < n && 0 <= x % P < P
    ensures |Chunk(s, P, x / P, n)| == P && Chunk(s, P, x / P, n)[x % P] == s[x]
  {
    DivMod(x, P, n);
    ChunkBounds(P, x / P, n);
    assert (x / P + 1) * P == (x / P) * P + P;
  }

  lemma ChunksEqual<V>(s: seq<V>, t: seq<V>, P: nat, n: nat)
    requires 0 < P && |s| == |t| == Cap(n, P)
    requires forall i :: 0 <= i < n ==> Chunk(s, P, i, n) == Chunk(t, P, i, n)
    ensures s == t
  {
    forall x | 0 <= x < |s| ensures s[x] == t[x] {
      ChunkAt(s, P, n, x);
      ChunkAt(t, P, n, x);
    }
  }

  /** The owners on the medium are those of the segments. */
  ghost predicate SsaOk(d: Disk, segs: seq<SegmentInfo>) {
    forall s: nat :: s < |segs| ==> Stored(d, SsaAt(s), SsaB(segs[s].ssa))
  }

  /** No block of owners differs. */
  ghost predicate SsaSame(d: Disk, d': Disk) {
    forall s: nat :: (SsaAt(s) in d' <==> SsaAt(s) in d) && (SsaAt(s) in d ==> d'[SsaAt(s)] == d[SsaAt(s)])
  }

  lemma SsaStays(d: Disk, d': Disk, segs: seq<SegmentInfo>)
    requires SsaOk(d, segs) && SsaSame(d, d')
    ensures SsaOk(d', segs)
  {
    forall s: nat | s < |segs| ensures Stored(d', SsaAt(s), SsaB(segs[s].ssa)) {
      assert Stored(d, SsaAt(s), SsaB(segs[s].ssa));
    }
  }

  // ----- Writes that leave a checkpoint alone -----

  /** What was written since are the owners of marked segments. */
  ghost predicate OnlyMarked(log0: seq<Write>, log: seq<Write>, marks: set<nat>) {
    |log0| <= |log| && forall i :: |log0| <= i < |log| ==> log[i].addr.SsaAt? && log[i].addr.seg in marks
  }

  lemma NothingWritten(log: seq<Write>, marks: set<nat>)
    ensures OnlyMarked(log, log, marks)
  {
  }

  lemma MarkedMore(log0: seq<Write>, log: seq<Write>, marks: set<nat>, s: nat, b: MetaBlock)
    requires OnlyMarked(log0, log, marks) && s in marks
    ensures OnlyMarked(log0, log + [Write(SsaAt(s), b)], marks)
  {
  }

  /** The places that checkpoint `img` is read from. */
  predicate Foot(img: Image, a: Addr) {
    match a
    case HeadAt(p) => p == img.pack || p == 1 - img.pack
    case NatJAt(p) => p == img.pack
    case SitJAt(p, _) => p == img.pack
    case NatAt(second, b) => b < |img.head.natVer| && second == img.head.natVer[b]
    case SitAt(second, b) => b < |img.head.sitVer| && second == img.head.sitVer[b]
    case SsaAt(_) => false
  }

  lemma WriteOutside(g: Geo, d: Disk, img: Image, a: Addr, b: MetaBlock)
    requires Holds(g, d, img) && !Foot(img, a)
    ensures Holds(g, d[a := b], img)
  {
  }

  /** While the other pack is being written its header does not validate. */
  lemma WriteOpenHead(g: Geo, d: Disk, img: Image, h: Head)
    requires Holds(g, d, img) && h.open != h.close
    ensures Holds(g, d[HeadAt(1 - img.pack) := HeadB(h)], img)
  {
  }
}
