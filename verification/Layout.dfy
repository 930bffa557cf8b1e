/** Where everything lives: the logical block address of every metadata block, summary block and
    main-area block, for any constants that pass the start-up check. */
module Layout {
  import opened Basics
  import opened Segments
  import opened JournalTable
  import opened Medium

  datatype Place =
    | MetaBlk(addr: Addr)
    | MainBlk(loc: Loc)

  /** The geometry with the block count of a segment and the offset of the main area. */
  datatype Plan = Plan(g: Geo, blkPerSeg: nat, mainOff: nat)
  {
    /** One header, one node journal block and the segment journal blocks. */
    function CkptNr(): nat { 2 + g.parts }

    function SitStart(): nat { 2 * CkptNr() }

    function NatStart(): nat { SitStart() + 2 * g.sitBlks }

    function SsaStart(): nat { NatStart() + 2 * g.natBlks }

    function EndMeta(): nat { SsaStart() + g.segNr }

    /** What the start-up check demands. */
    predicate Ok() { 0 < blkPerSeg && EndMeta() <= Cap(mainOff, blkPerSeg) }
  }

  predicate InPlan(p: Plan, x: Place) {
    match x
    case MetaBlk(HeadAt(pack)) => pack < 2
    case MetaBlk(NatJAt(pack)) => pack < 2
    case MetaBlk(SitJAt(pack, part)) => pack < 2 && part < p.g.parts
    case MetaBlk(NatAt(_, b)) => b < p.g.natBlks
    case MetaBlk(SitAt(_, b)) => b < p.g.sitBlks
    case MetaBlk(SsaAt(s)) => s < p.g.segNr
    case MainBlk(loc) => loc.seg < p.g.segNr && loc.blk < p.blkPerSeg
  }

  function PackStart(p: Plan, pack: nat): nat {
    if pack == 0 then 0 else p.CkptNr()
  }

  /** Block `blk` of segment `seg`, counted from the start of the main area. */
  function PhyBlock(p: Plan, loc: Loc): nat {
    Cap(loc.seg, p.blkPerSeg) + loc.blk
  }

  function BlockToSeg(p: Plan, phy: nat): Loc
    requires 0 < p.blkPerSeg
  {
    Loc(phy / p.blkPerSeg, phy % p.blkPerSeg)
  }

  function Lba(p: Plan, x: Place): nat
    requires InPlan(p, x)
  {
    match x
    case MetaBlk(HeadAt(pack)) => PackStart(p, pack)
    case MetaBlk(NatJAt(pack)) => PackStart(p, pack) + 1
    case MetaBlk(SitJAt(pack, part)) => PackStart(p, pack) + 2 + part
    case MetaBlk(NatAt(second, b)) => p.NatStart() + b + (if second then p.g.natBlks else 0)
    case MetaBlk(SitAt(second, b)) => p.SitStart() + b + (if second then p.g.sitBlks else 0)
    case MetaBlk(SsaAt(s)) => p.SsaStart() + s
    case MainBlk(loc) => Cap(p.mainOff, p.blkPerSeg) + PhyBlock(p, loc)
  }

  /** Addressing a main-area block and back. */
  lemma PhyRoundTrip(p: Plan, loc: Loc)
    requires 0 < p.blkPerSeg && loc.blk < p.blkPerSeg
    ensures BlockToSeg(p, PhyBlock(p, loc)) == loc
    ensures loc.seg < p.g.segNr <==> PhyBlock(p, loc) < Cap(p.g.segNr, p.blkPerSeg)
  {
    var B := p.blkPerSeg;
    DivExact(loc.seg, loc.blk, B);
    if loc.seg < p.g.segNr {
      MulLess(loc.seg, p.g.segNr, B);
    } else if loc.seg > p.g.segNr {
      MulLess(p.g.segNr, loc.seg, B);
    }
  }

  lemma MetaInjective(p: Plan, x: Addr, y: Addr)
    requires p.Ok() && InPlan(p, MetaBlk(x)) && InPlan(p, MetaBlk(y))
    ensures Lba(p, MetaBlk(x)) == Lba(p, MetaBlk(y)) <==> x == y
    ensures Lba(p, MetaBlk(x)) < p.EndMeta()
  {
    hide Cap;
  }

  /** No two blocks share an address, and everything but the main area lies below it: so a write
      to one place is never seen at another. */
  lemma LbaInjective(p: Plan, x: Place, y: Place)
    requires p.Ok() && InPlan(p, x) && InPlan(p, y)
    ensures Lba(p, x) == Lba(p, y) <==> x == y
    ensures x.MainBlk? <==> Lba(p, x) >= Cap(p.mainOff, p.blkPerSeg)
  {
    hide Cap, PhyBlock, BlockToSeg;
    if x.MetaBlk? && y.MetaBlk? {
      MetaInjective(p, x.addr, y.addr);
    } else if x.MainBlk? && y.MainBlk? {
      PhyRoundTrip(p, x.loc);
      PhyRoundTrip(p, y.loc);
    }
  }

  /** One block of the device. */
  datatype Sector = MetaS(meta: MetaBlock) | MainS(block: Block)

  /** The device holds the metadata and the main area, each block at its address. */
  ghost predicate OnDevice(p: Plan, d: Disk, main: map<Loc, Block>, dev: map<nat, Sector>) {
    && (forall a :: a in d ==> InPlan(p, MetaBlk(a)) && Lba(p, MetaBlk(a)) in dev && dev[Lba(p, MetaBlk(a))] == MetaS(d[a]))
    && (forall loc :: loc in main ==> InPlan(p, MainBlk(loc)) && Lba(p, MainBlk(loc)) in dev && dev[Lba(p, MainBlk(loc))] == MainS(main[loc]))
  }

  /** A metadata write by address is the write in the abstract medium, and the main area does not see it. */
  lemma MetaWrite(p: Plan, d: Disk, main: map<Loc, Block>, dev: map<nat, Sector>, a: Addr, b: MetaBlock)
    requires p.Ok() && OnDevice(p, d, main, dev) && InPlan(p, MetaBlk(a))
    ensures OnDevice(p, d[a := b], main, dev[Lba(p, MetaBlk(a)) := MetaS(b)])
  {
    hide Lba;
    forall x | x in d ensures Lba(p, MetaBlk(x)) == Lba(p, MetaBlk(a)) <==> x == a {
      LbaInjective(p, MetaBlk(x), MetaBlk(a));
    }
    forall loc | loc in main ensures Lba(p, MainBlk(loc)) != Lba(p, MetaBlk(a)) {
      LbaInjective(p, MainBlk(loc), MetaBlk(a));
    }
  }

  /** A block write to the main area is not seen by the metadata. */
  lemma MainWrite(p: Plan, d: Disk, main: map<Loc, Block>, dev: map<nat, Sector>, loc: Loc, b: Block)
    requires p.Ok() && OnDevice(p, d, main, dev) && InPlan(p, MainBlk(loc))
    ensures OnDevice(p, d, main[loc := b], dev[Lba(p, MainBlk(loc)) := MainS(b)])
  {
    hide Lba;
    forall x | x in d ensures Lba(p, MetaBlk(x)) != Lba(p, MainBlk(loc)) {
      LbaInjective(p, MetaBlk(x), MainBlk(loc));
    }
    forall l | l in main ensures Lba(p, MainBlk(l)) == Lba(p, MainBlk(loc)) <==> l == loc {
      LbaInjective(p, MainBlk(l), MainBlk(loc));
    }
  }
}
