/** calc_migrate_parameter of GlobalScan.cc without the anti-thrashing adjustment: the limits are
    spent greedily, hottest PMEM pages and coldest DRAM pages first, over all ranges and page types. */
module PlanRanges {
  import opened Arith
  import opened Planner

  /** Pages of a slot, one range and page type, by rank: rank 0 is taken first. */
  type Ranked = (nat, nat) -> nat

  /** struct migrate_parameter. */
  datatype Param = Param(hotThreshold: int, hotThresholdMax: int, nrPromote: nat, promoteRemain: nat,
                         coldThreshold: int, coldThresholdMin: int, nrDemote: nat, demoteRemain: nat, enabled: bool)

  /** One direction of a slot's plan: `rank` is the last rank taken from, -1 at first. */
  datatype Side = Side(rank: int, nr: nat, remain: nat)

  /** The pages of the first n ranks. */
  function SumTo(pages: Ranked, s: nat, n: nat): nat {
    if n == 0 then 0 else SumTo(pages, s, n - 1) + pages(s, n - 1)
  }

  /** All pages before the last rank and `remain` of it. */
  predicate PlanOk(pages: Ranked, s: nat, x: Side) {
    && x.rank >= -1
    && (x.rank == -1 ==> x.nr == 0 && x.remain == 0)
    && (x.rank >= 0 ==> x.nr == SumTo(pages, s, x.rank) + x.remain && x.remain <= pages(s, x.rank) && pages(s, x.rank) > 0)
  }

  /** The KB of the plans. */
  function PlanKb(sides: seq<Side>, kb: nat -> nat): nat {
    if sides == [] then 0 else PlanKb(sides[..|sides| - 1], kb) + sides[|sides| - 1].nr * kb(|sides| - 1)
  }

  /** The KB of one rank of the first n slots, and of the first r ranks of all. */
  function RowKb(pages: Ranked, kb: nat -> nat, r: nat, n: nat): nat {
    if n == 0 then 0 else RowKb(pages, kb, r, n - 1) + pages(n - 1, r) * kb(n - 1)
  }

  function RowsKb(pages: Ranked, kb: nat -> nat, r: nat, slots: nat): nat {
    if r == 0 then 0 else RowsKb(pages, kb, r - 1, slots) + RowKb(pages, kb, r - 1, slots)
  }

  /** The ranks a slot has been through. */
  function DoneRanks(i: nat, s: nat, x: nat): nat { if x < s then i + 1 else i }

  /** One direction during the loops, before slot s at rank i: `count` KB of `limit` are spent. */
  predicate Spent(pages: Ranked, kb: nat -> nat, limit: nat, sides: seq<Side>, i: nat, s: nat, count: nat) {
    && s <= |sides|
    && (forall x :: 0 <= x < |sides| ==> SideOk(pages, limit, sides[x], DoneRanks(i, s, x), count, x))
    && KbOk(pages, kb, limit, sides, i, s, count) && Unspent(sides, kb, limit, count) && Fair(pages, sides)
  }

  /** What was counted but not planned is less than a page, and nothing before the limit is reached. */
  predicate Unspent(sides: seq<Side>, kb: nat -> nat, limit: nat, count: nat) {
    PlanKb(sides, kb) == count || (count >= limit && UnderPage(sides, kb, count))
  }

  predicate UnderPage(sides: seq<Side>, kb: nat -> nat, count: nat) {
    exists s :: 0 <= s < |sides| && count < PlanKb(sides, kb) + kb(s)
  }

  /** Where slot x has come to a rank, slot y has taken all its ranks before, and this one too if it is
      the earlier slot. */
  predicate FairPair(pages: Ranked, sides: seq<Side>, x: nat, y: nat)
    requires x < |sides| && y < |sides|
  {
    sides[x].rank >= 0 ==> sides[y].nr >= SumTo(pages, y, if y < x then sides[x].rank + 1 else sides[x].rank)
  }

  predicate Fair(pages: Ranked, sides: seq<Side>) {
    forall x: nat, y: nat :: x < |sides| && y < |sides| ==> FairPair(pages, sides, x, y)
  }

  predicate KbOk(pages: Ranked, kb: nat -> nat, limit: nat, sides: seq<Side>, i: nat, s: nat, count: nat) {
    && PlanKb(sides, kb) <= count
    && count == MinNat(limit, RowsKb(pages, kb, i, |sides|) + RowKb(pages, kb, i, s))
  }

  /** While the limit is not reached, nothing was left behind. */
  predicate SideOk(pages: Ranked, limit: nat, x: Side, done: nat, count: nat, s: nat) {
    && PlanOk(pages, s, x) && x.rank < done
    && (count < limit ==> x.nr == SumTo(pages, s, done))
  }

  lemma {:induction false} PlanKbUpdate(sides: seq<Side>, kb: nat -> nat, s: nat, x: Side)
    requires s < |sides|
    ensures PlanKb(sides[s := x], kb) + sides[s].nr * kb(s) == PlanKb(sides, kb) + x.nr * kb(s)
  {
    var l := |sides| - 1;
    if s == l {
      assert sides[s := x][..l] == sides[..l];
    } else {
      PlanKbUpdate(sides[..l], kb, s, x);
      assert sides[s := x][..l] == sides[..l][s := x];
    }
  }

  /** What one slot takes at one rank. */
  function Taken(pagesHere: nat, kb: nat, left: nat): nat { MinNat(pagesHere * kb, left) }

  /** nr_kb >> shift. */
  function PagesIn(nrKb: nat, kb: nat): nat
    requires kb > 0
  {
    nrKb / kb
  }

  lemma TakenPages(pagesHere: nat, kb: nat, left: nat)
    requires kb > 0
    ensures var nrPage := PagesIn(Taken(pagesHere, kb, left), kb);
            && nrPage <= pagesHere && nrPage * kb <= Taken(pagesHere, kb, left)
            && (Taken(pagesHere, kb, left) < left ==> nrPage == pagesHere)
            && (Taken(pagesHere, kb, left) == pagesHere * kb ==> nrPage == pagesHere)
  {
    var t := Taken(pagesHere, kb, left);
    var q := t / kb;
    assert t == q * kb + t % kb;
    if q > pagesHere {
      MulAtLeast(q - pagesHere, kb);
      Distribute(q, pagesHere, kb);
      assert false;
    }
    if t == pagesHere * kb {
      DivModUnique(t, kb, pagesHere, 0);
    }
  }

  lemma SpendKb(pages: Ranked, kb: nat -> nat, limit: nat, sides: seq<Side>, i: nat, s: nat, count: nat, x: Side, nrKb: nat)
    requires KbOk(pages, kb, limit, sides, i, s, count) && s < |sides| && count < limit && kb(s) > 0
    requires nrKb == Taken(pages(s, i), kb(s), limit - count) && x == Side(i, sides[s].nr + PagesIn(nrKb, kb(s)), PagesIn(nrKb, kb(s)))
    ensures KbOk(pages, kb, limit, sides[s := x], i, s + 1, count + nrKb)
  {
    TakenPages(pages(s, i), kb(s), limit - count);
    PlanKbUpdate(sides, kb, s, x);
    Distribute(x.nr, sides[s].nr, kb(s));
  }

  lemma SpendSide(pages: Ranked, kb: nat, limit: nat, was: Side, i: nat, s: nat, count: nat, x: Side, nrKb: nat)
    requires SideOk(pages, limit, was, i, count, s) && count < limit && kb > 0 && pages(s, i) > 0
    requires nrKb == Taken(pages(s, i), kb, limit - count) && x == Side(i, was.nr + PagesIn(nrKb, kb), PagesIn(nrKb, kb))
    ensures SideOk(pages, limit, x, i + 1, count + nrKb, s)
  {
    TakenPages(pages(s, i), kb, limit - count);
  }

  lemma SpendUnspent(pages: Ranked, kb: nat -> nat, limit: nat, sides: seq<Side>, i: nat, s: nat, count: nat, x: Side,
                     nrKb: nat)
    requires Unspent(sides, kb, limit, count) && s < |sides| && count < limit && kb(s) > 0
    requires nrKb == Taken(pages(s, i), kb(s), limit - count) && x == Side(i, sides[s].nr + PagesIn(nrKb, kb(s)), PagesIn(nrKb, kb(s)))
    ensures Unspent(sides[s := x], kb, limit, count + nrKb)
  {
    TakenPages(pages(s, i), kb(s), limit - count);
    PlanKbUpdate(sides, kb, s, x);
    Distribute(x.nr, sides[s].nr, kb(s));
    assert nrKb == PagesIn(nrKb, kb(s)) * kb(s) + nrKb % kb(s);
    if PlanKb(sides[s := x], kb) != count + nrKb {
      assert UnderPage(sides[s := x], kb, count + nrKb);
    }
  }

  lemma SpendFair(pages: Ranked, limit: nat, sides: seq<Side>, i: nat, s: nat, count: nat, x: Side)
    requires Fair(pages, sides) && s < |sides| && count < limit && x.rank == i && x.nr >= sides[s].nr
    requires forall y :: 0 <= y < |sides| ==> SideOk(pages, limit, sides[y], DoneRanks(i, s, y), count, y)
    ensures Fair(pages, sides[s := x])
  {
    var sides' := sides[s := x];
    forall a: nat, b: nat | a < |sides'| && b < |sides'| ensures FairPair(pages, sides', a, b) {
      assert FairPair(pages, sides, a, b);
      assert SideOk(pages, limit, sides[b], DoneRanks(i, s, b), count, b);
    }
  }

  /** Taking from slot s at rank i. */
  lemma SpendSlot(pages: Ranked, kb: nat -> nat, limit: nat, sides: seq<Side>, i: nat, s: nat, count: nat, x: Side, nrKb: nat)
    requires Spent(pages, kb, limit, sides, i, s, count) && s < |sides| && count < limit && kb(s) > 0 && pages(s, i) > 0
    requires nrKb == Taken(pages(s, i), kb(s), limit - count) && x == Side(i, sides[s].nr + PagesIn(nrKb, kb(s)), PagesIn(nrKb, kb(s)))
    ensures Spent(pages, kb, limit, sides[s := x], i, s + 1, count + nrKb)
  {
    SpendKb(pages, kb, limit, sides, i, s, count, x, nrKb);
    SpendSide(pages, kb(s), limit, sides[s], i, s, count, x, nrKb);
    SpendUnspent(pages, kb, limit, sides, i, s, count, x, nrKb);
    SpendFair(pages, limit, sides, i, s, count, x);
  }

  /** Passing slot s at rank i: it has no pages there, or the limit is reached. */
  lemma PassSlot(pages: Ranked, kb: nat -> nat, limit: nat, sides: seq<Side>, i: nat, s: nat, count: nat)
    requires Spent(pages, kb, limit, sides, i, s, count) && s < |sides| && (count >= limit || pages(s, i) == 0)
    ensures Spent(pages, kb, limit, sides, i, s + 1, count)
  {
  }

  lemma NextRank(pages: Ranked, kb: nat -> nat, limit: nat, sides: seq<Side>, i: nat, count: nat)
    requires Spent(pages, kb, limit, sides, i, |sides|, count)
    ensures Spent(pages, kb, limit, sides, i + 1, 0, count)
  {
  }

  // ----- The two directions -----

  /** Hot pages by rank: the highest reference count first, 0 left out. */
  function HotRanks(pmem: Ranked, nrWalks: nat): Ranked {
    (s: nat, r: nat) => if r < nrWalks then pmem(s, nrWalks - r) else 0
  }

  /** Cold pages by rank: the lowest reference count first, nrWalks left out. */
  function ColdRanks(dram: Ranked, nrWalks: nat): Ranked {
    (s: nat, r: nat) => if r < nrWalks then dram(s, r) else 0
  }

  /** The pages of slot s with more than t references. */
  function PagesAbove(pmem: Ranked, s: nat, t: nat, nrWalks: nat): nat
    decreases nrWalks - t
  {
    if t >= nrWalks then 0 else PagesAbove(pmem, s, t + 1, nrWalks) + pmem(s, t + 1)
  }

  /** The pages of slot s with fewer than t references. */
  function PagesBelow(dram: Ranked, s: nat, t: nat): nat {
    if t == 0 then 0 else PagesBelow(dram, s, t - 1) + dram(s, t - 1)
  }

  lemma {:induction false} HotSum(pmem: Ranked, s: nat, t: nat, nrWalks: nat)
    requires t <= nrWalks
    ensures SumTo(HotRanks(pmem, nrWalks), s, nrWalks - t) == PagesAbove(pmem, s, t, nrWalks)
    decreases nrWalks - t
  {
    if t < nrWalks {
      HotSum(pmem, s, t + 1, nrWalks);
    }
  }

  lemma {:induction false} ColdSum(dram: Ranked, s: nat, t: nat, nrWalks: nat)
    requires t <= nrWalks
    ensures SumTo(ColdRanks(dram, nrWalks), s, t) == PagesBelow(dram, s, t)
  {
    if t > 0 {
      ColdSum(dram, s, t - 1, nrWalks);
    }
  }

  function HotSide(p: Param, nrWalks: nat): Side { Side(nrWalks - p.hotThreshold, p.nrPromote, p.promoteRemain) }

  function ColdSide(p: Param): Side { Side(p.coldThreshold, p.nrDemote, p.demoteRemain) }

  function HotSides(ps: seq<Param>, nrWalks: nat): (r: seq<Side>)
    ensures |r| == |ps| && forall i :: 0 <= i < |ps| ==> r[i] == HotSide(ps[i], nrWalks)
  {
    seq(|ps|, i requires 0 <= i < |ps| => HotSide(ps[i], nrWalks))
  }

  function ColdSides(ps: seq<Param>): (r: seq<Side>)
    ensures |r| == |ps| && forall i :: 0 <= i < |ps| ==> r[i] == ColdSide(ps[i])
  {
    seq(|ps|, i requires 0 <= i < |ps| => ColdSide(ps[i]))
  }

  /** init_migration_parameter. */
  function InitialParam(nrWalks: nat): Param { Param(nrWalks + 1, nrWalks + 1, 0, 0, -1, -1, 0, 0, false) }

  /** The hot half of the innermost loop body. */
  method PlanHot(p: Param, pages: nat, kb: nat, nrWalks: nat, i: nat, count: nat, limit: nat) returns (p': Param, count': nat)
    requires kb > 0 && i <= nrWalks
    ensures if count >= limit || i >= nrWalks || pages == 0 then p' == p && count' == count
            else var nrKb := Taken(pages, kb, limit - count);
                 && count' == count + nrKb
                 && p' == p.(nrPromote := p.nrPromote + PagesIn(nrKb, kb), promoteRemain := PagesIn(nrKb, kb),
                             hotThreshold := nrWalks - i, hotThresholdMax := nrWalks, enabled := true)
  {
    p', count' := p, count;
    var hotThreshold := nrWalks - i;
    if count >= limit || hotThreshold <= 0 || pages == 0 {
      return;
    }
    var nrKb := MinNat(pages * kb, limit - count);
    var nrPage := PagesIn(nrKb, kb);
    p' := p.(nrPromote := p.nrPromote + nrPage, promoteRemain := nrPage,
             hotThreshold := hotThreshold, hotThresholdMax := nrWalks, enabled := true);
    count' := count + nrKb;
  }

  /** The cold half. */
  method PlanCold(p: Param, pages: nat, kb: nat, nrWalks: nat, i: nat, count: nat, limit: nat) returns (p': Param, count': nat)
    requires kb > 0 && (p.enabled || p.nrDemote == 0)
    ensures if count >= limit || i >= nrWalks || pages == 0 then p' == p && count' == count
            else var nrKb := Taken(pages, kb, limit - count);
                 && count' == count + nrKb
                 && p' == p.(nrDemote := p.nrDemote + PagesIn(nrKb, kb), demoteRemain := PagesIn(nrKb, kb),
                             coldThreshold := i, coldThresholdMin := 0, enabled := true)
  {
    p', count' := p, count;
    if count >= limit || i >= nrWalks || pages == 0 || (!p.enabled && p.nrDemote != 0) {
      return;
    }
    var nrKb := MinNat(pages * kb, limit - count);
    var nrPage := PagesIn(nrKb, kb);
    p' := p.(nrDemote := p.nrDemote + nrPage, demoteRemain := nrPage,
             coldThreshold := i, coldThresholdMin := 0, enabled := true);
    count' := count + nrKb;
  }

  lemma HotNext(pmem: Ranked, kb: nat -> nat, limit: nat, ps: seq<Param>, nrWalks: nat, i: nat, s: nat, count: nat,
                p: Param, count': nat)
    requires s < |ps| && kb(s) > 0 && i <= nrWalks
    requires Spent(HotRanks(pmem, nrWalks), kb, limit, HotSides(ps, nrWalks), i, s, count)
    requires var pages := HotRanks(pmem, nrWalks)(s, i);
             if count >= limit || pages == 0 then HotSide(p, nrWalks) == HotSide(ps[s], nrWalks) && count' == count
             else var nrKb := Taken(pages, kb(s), limit - count);
                  count' == count + nrKb && HotSide(p, nrWalks) == Side(i, ps[s].nrPromote + PagesIn(nrKb, kb(s)), PagesIn(nrKb, kb(s)))
    ensures Spent(HotRanks(pmem, nrWalks), kb, limit, HotSides(ps[s := p], nrWalks), i, s + 1, count')
  {
    var ranks, sides := HotRanks(pmem, nrWalks), HotSides(ps, nrWalks);
    assert HotSides(ps[s := p], nrWalks) == sides[s := HotSide(p, nrWalks)];
    if count >= limit || ranks(s, i) == 0 {
      assert sides[s := HotSide(p, nrWalks)] == sides;
      PassSlot(ranks, kb, limit, sides, i, s, count);
    } else {
      SpendSlot(ranks, kb, limit, sides, i, s, count, HotSide(p, nrWalks), Taken(ranks(s, i), kb(s), limit - count));
    }
  }

  lemma ColdNext(dram: Ranked, kb: nat -> nat, limit: nat, ps: seq<Param>, nrWalks: nat, i: nat, s: nat, count: nat,
                 p: Param, count': nat)
    requires s < |ps| && kb(s) > 0 && i <= nrWalks
    requires Spent(ColdRanks(dram, nrWalks), kb, limit, ColdSides(ps), i, s, count)
    requires var pages := ColdRanks(dram, nrWalks)(s, i);
             if count >= limit || pages == 0 then ColdSide(p) == ColdSide(ps[s]) && count' == count
             else var nrKb := Taken(pages, kb(s), limit - count);
                  count' == count + nrKb && ColdSide(p) == Side(i, ps[s].nrDemote + PagesIn(nrKb, kb(s)), PagesIn(nrKb, kb(s)))
    ensures Spent(ColdRanks(dram, nrWalks), kb, limit, ColdSides(ps[s := p]), i, s + 1, count')
  {
    var ranks, sides := ColdRanks(dram, nrWalks), ColdSides(ps);
    assert ColdSides(ps[s := p]) == sides[s := ColdSide(p)];
    if count >= limit || ranks(s, i) == 0 {
      assert sides[s := ColdSide(p)] == sides;
      PassSlot(ranks, kb, limit, sides, i, s, count);
    } else {
      SpendSlot(ranks, kb, limit, sides, i, s, count, ColdSide(p), Taken(ranks(s, i), kb(s), limit - count));
    }
  }

  /** What a slot's parameter says it will promote: all pages above the threshold and some of those at it. */
  predicate HotPlan(p: Param, pmem: Ranked, s: nat, nrWalks: nat) {
    && 1 <= p.hotThreshold <= nrWalks + 1
    && (p.hotThreshold == nrWalks + 1 ==> p.nrPromote == 0 && p.promoteRemain == 0)
    && (p.hotThreshold <= nrWalks ==>
          && p.nrPromote == PagesAbove(pmem, s, p.hotThreshold, nrWalks) + p.promoteRemain
          && p.promoteRemain <= pmem(s, p.hotThreshold))
  }

  predicate ColdPlan(p: Param, dram: Ranked, s: nat, nrWalks: nat) {
    && -1 <= p.coldThreshold < nrWalks
    && (p.coldThreshold == -1 ==> p.nrDemote == 0 && p.demoteRemain == 0)
    && (p.coldThreshold >= 0 ==>
          && p.nrDemote == PagesBelow(dram, s, p.coldThreshold) + p.demoteRemain
          && p.demoteRemain <= dram(s, p.coldThreshold))
  }

  lemma SpentHotPlan(pmem: Ranked, kb: nat -> nat, limit: nat, ps: seq<Param>, nrWalks: nat, count: nat, s: nat)
    requires Spent(HotRanks(pmem, nrWalks), kb, limit, HotSides(ps, nrWalks), nrWalks + 1, 0, count) && s < |ps|
    ensures HotPlan(ps[s], pmem, s, nrWalks)
  {
    var p := ps[s];
    assert SideOk(HotRanks(pmem, nrWalks), limit, HotSides(ps, nrWalks)[s], DoneRanks(nrWalks + 1, 0, s), count, s);
    if nrWalks - p.hotThreshold >= 0 {
      assert HotRanks(pmem, nrWalks)(s, nrWalks - p.hotThreshold) > 0;
      HotSum(pmem, s, p.hotThreshold, nrWalks);
    }
  }

  lemma SpentColdPlan(dram: Ranked, kb: nat -> nat, limit: nat, ps: seq<Param>, nrWalks: nat, count: nat, s: nat)
    requires Spent(ColdRanks(dram, nrWalks), kb, limit, ColdSides(ps), nrWalks + 1, 0, count) && s < |ps|
    ensures ColdPlan(ps[s], dram, s, nrWalks)
  {
    var p := ps[s];
    assert SideOk(ColdRanks(dram, nrWalks), limit, ColdSides(ps)[s], DoneRanks(nrWalks + 1, 0, s), count, s);
    if p.coldThreshold >= 0 {
      assert ColdRanks(dram, nrWalks)(s, p.coldThreshold) > 0;
      ColdSum(dram, s, p.coldThreshold, nrWalks);
    }
  }

  lemma SpendingStarts(pages: Ranked, kb: nat -> nat, limit: nat, sides: seq<Side>)
    requires forall x :: 0 <= x < |sides| ==> sides[x] == Side(-1, 0, 0)
    ensures Spent(pages, kb, limit, sides, 0, 0, 0)
  {
    NothingPlanned(sides, kb);
  }

  lemma {:induction false} NothingPlanned(sides: seq<Side>, kb: nat -> nat)
    requires forall x :: 0 <= x < |sides| ==> sides[x].nr == 0
    ensures PlanKb(sides, kb) == 0
  {
    if sides != [] {
      NothingPlanned(sides[..|sides| - 1], kb);
    }
  }

  /** The far ends of the ranges go with the thresholds, and a slot with something to demote is enabled. */
  predicate ParamOk(p: Param, nrWalks: nat) {
    && (p.enabled || p.nrDemote == 0)
    && p.hotThresholdMax == (if p.hotThreshold <= nrWalks then nrWalks else nrWalks + 1)
    && p.coldThresholdMin == (if p.coldThreshold >= 0 then 0 else -1)
  }

  predicate ParamsOk(ps: seq<Param>, nrWalks: nat) {
    forall x :: 0 <= x < |ps| ==> ParamOk(ps[x], nrWalks)
  }

  datatype Direction = Promote | Demote

  /** One direction of the loop state before slot s at rank i. */
  predicate PlanningIn(d: Direction, pmem: Ranked, dram: Ranked, kb: nat -> nat, nrWalks: nat, promoteLimit: nat,
                       demoteLimit: nat, ps: seq<Param>, i: nat, s: nat, promoteCount: nat, demoteCount: nat) {
    match d
    case Promote =>
      ParamsOk(ps, nrWalks)
      && Spent(HotRanks(pmem, nrWalks), kb, promoteLimit, HotSides(ps, nrWalks), i, s, promoteCount)
    case Demote => Spent(ColdRanks(dram, nrWalks), kb, demoteLimit, ColdSides(ps), i, s, demoteCount)
  }

  /** The loop state before slot s at rank i. */
  predicate Planning(pmem: Ranked, dram: Ranked, kb: nat -> nat, nrWalks: nat, promoteLimit: nat, demoteLimit: nat,
                     ps: seq<Param>, i: nat, s: nat, promoteCount: nat, demoteCount: nat) {
    forall d: Direction ::
      PlanningIn(d, pmem, dram, kb, nrWalks, promoteLimit, demoteLimit, ps, i, s, promoteCount, demoteCount)
  }

  lemma PlanningParts(pmem: Ranked, dram: Ranked, kb: nat -> nat, nrWalks: nat, promoteLimit: nat, demoteLimit: nat,
                      ps: seq<Param>, i: nat, s: nat, promoteCount: nat, demoteCount: nat)
    requires Planning(pmem, dram, kb, nrWalks, promoteLimit, demoteLimit, ps, i, s, promoteCount, demoteCount)
    ensures ParamsOk(ps, nrWalks)
    ensures Spent(HotRanks(pmem, nrWalks), kb, promoteLimit, HotSides(ps, nrWalks), i, s, promoteCount)
    ensures Spent(ColdRanks(dram, nrWalks), kb, demoteLimit, ColdSides(ps), i, s, demoteCount)
  {
    assert PlanningIn(Promote, pmem, dram, kb, nrWalks, promoteLimit, demoteLimit, ps, i, s, promoteCount, demoteCount);
    assert PlanningIn(Demote, pmem, dram, kb, nrWalks, promoteLimit, demoteLimit, ps, i, s, promoteCount, demoteCount);
  }

  method PlanSlotHot(pmem: Ranked, kb: nat -> nat, nrWalks: nat, limit: nat, ps: seq<Param>, i: nat, s: nat, count: nat)
    returns (p: Param, count': nat)
    requires s < |ps| && i <= nrWalks && kb(s) > 0
    requires Spent(HotRanks(pmem, nrWalks), kb, limit, HotSides(ps, nrWalks), i, s, count)
    ensures Spent(HotRanks(pmem, nrWalks), kb, limit, HotSides(ps[s := p], nrWalks), i, s + 1, count')
    ensures ColdSide(p) == ColdSide(ps[s]) && (ParamOk(ps[s], nrWalks) ==> ParamOk(p, nrWalks))
  {
    p, count' := PlanHot(ps[s], if i < nrWalks then pmem(s, nrWalks - i) else 0, kb(s), nrWalks, i, count, limit);
    HotNext(pmem, kb, limit, ps, nrWalks, i, s, count, p, count');
  }

  method PlanSlotCold(dram: Ranked, kb: nat -> nat, nrWalks: nat, limit: nat, ghost ps: seq<Param>, p0: Param, i: nat,
                      s: nat, count: nat) returns (p: Param, count': nat)
    requires s < |ps| && i <= nrWalks && kb(s) > 0 && ColdSide(p0) == ColdSide(ps[s]) && ParamOk(p0, nrWalks)
    requires Spent(ColdRanks(dram, nrWalks), kb, limit, ColdSides(ps), i, s, count)
    ensures Spent(ColdRanks(dram, nrWalks), kb, limit, ColdSides(ps[s := p]), i, s + 1, count')
    ensures HotSide(p, nrWalks) == HotSide(p0, nrWalks) && ParamOk(p, nrWalks)
  {
    p, count' := PlanCold(p0, if i < nrWalks then dram(s, i) else 0, kb(s), nrWalks, i, count, limit);
    ColdNext(dram, kb, limit, ps, nrWalks, i, s, count, p, count');
  }

  /** The innermost loop body of calc_migrate_parameter. */
  method PlanSlot(pmem: Ranked, dram: Ranked, kb: nat -> nat, nrWalks: nat, promoteLimit: nat, demoteLimit: nat,
                  ps: seq<Param>, i: nat, s: nat, promoteCount: nat, demoteCount: nat)
    returns (ps': seq<Param>, promoteCount': nat, demoteCount': nat)
    requires s < |ps| && i <= nrWalks && kb(s) > 0
    requires Planning(pmem, dram, kb, nrWalks, promoteLimit, demoteLimit, ps, i, s, promoteCount, demoteCount)
    ensures |ps'| == |ps|
    ensures Planning(pmem, dram, kb, nrWalks, promoteLimit, demoteLimit, ps', i, s + 1, promoteCount', demoteCount')
  {
    var hot, p;
    PlanningParts(pmem, dram, kb, nrWalks, promoteLimit, demoteLimit, ps, i, s, promoteCount, demoteCount);
    hot, promoteCount' := PlanSlotHot(pmem, kb, nrWalks, promoteLimit, ps, i, s, promoteCount);
    p, demoteCount' := PlanSlotCold(dram, kb, nrWalks, demoteLimit, ps, hot, i, s, demoteCount);
    ps' := ps[s := p];
    assert HotSides(ps', nrWalks) == HotSides(ps[s := hot], nrWalks);
  }

  /** One rank over all slots. */
  method PlanRank(pmem: Ranked, dram: Ranked, kb: nat -> nat, nrWalks: nat, promoteLimit: nat, demoteLimit: nat,
                  ps0: seq<Param>, i: nat, promoteCount0: nat, demoteCount0: nat)
    returns (ps: seq<Param>, promoteCount: nat, demoteCount: nat)
    requires i <= nrWalks && forall x :: kb(x) > 0
    requires Planning(pmem, dram, kb, nrWalks, promoteLimit, demoteLimit, ps0, i, 0, promoteCount0, demoteCount0)
    ensures |ps| == |ps0|
    ensures Planning(pmem, dram, kb, nrWalks, promoteLimit, demoteLimit, ps, i, |ps0|, promoteCount, demoteCount)
  {
    ps, promoteCount, demoteCount := ps0, promoteCount0, demoteCount0;
    for s := 0 to |ps0|
      invariant |ps| == |ps0|
      invariant Planning(pmem, dram, kb, nrWalks, promoteLimit, demoteLimit, ps, i, s, promoteCount, demoteCount)
    {
      ps, promoteCount, demoteCount := PlanSlot(pmem, dram, kb, nrWalks, promoteLimit, demoteLimit, ps, i, s, promoteCount, demoteCount);
    }
  }

  lemma RankOver(pmem: Ranked, dram: Ranked, kb: nat -> nat, nrWalks: nat, promoteLimit: nat, demoteLimit: nat,
                 ps: seq<Param>, i: nat, promoteCount: nat, demoteCount: nat)
    requires Planning(pmem, dram, kb, nrWalks, promoteLimit, demoteLimit, ps, i, |ps|, promoteCount, demoteCount)
    ensures Planning(pmem, dram, kb, nrWalks, promoteLimit, demoteLimit, ps, i + 1, 0, promoteCount, demoteCount)
  {
    PlanningParts(pmem, dram, kb, nrWalks, promoteLimit, demoteLimit, ps, i, |ps|, promoteCount, demoteCount);
    NextRank(HotRanks(pmem, nrWalks), kb, promoteLimit, HotSides(ps, nrWalks), i, promoteCount);
    NextRank(ColdRanks(dram, nrWalks), kb, demoteLimit, ColdSides(ps), i, demoteCount);
  }

  method StartPlan(ghost pmem: Ranked, ghost dram: Ranked, ghost kb: nat -> nat, slots: nat, nrWalks: nat,
                   ghost promoteLimit: nat, ghost demoteLimit: nat) returns (ps: seq<Param>)
    ensures |ps| == slots && Planning(pmem, dram, kb, nrWalks, promoteLimit, demoteLimit, ps, 0, 0, 0, 0)
  {
    ps := seq(slots, i => InitialParam(nrWalks));
    SpendingStarts(HotRanks(pmem, nrWalks), kb, promoteLimit, HotSides(ps, nrWalks));
    SpendingStarts(ColdRanks(dram, nrWalks), kb, demoteLimit, ColdSides(ps));
  }

  /** The plans of all slots, and the KB they may use. */
  predicate PlanDone(pmem: Ranked, dram: Ranked, kb: nat -> nat, nrWalks: nat, promoteLimit: nat, demoteLimit: nat,
                     ps: seq<Param>, promoteCount: nat, demoteCount: nat) {
    && (forall s :: 0 <= s < |ps| ==>
          HotPlan(ps[s], pmem, s, nrWalks) && ColdPlan(ps[s], dram, s, nrWalks) && ParamOk(ps[s], nrWalks))
    && PlanKb(HotSides(ps, nrWalks), kb) <= promoteCount
    && promoteCount == MinNat(promoteLimit, RowsKb(HotRanks(pmem, nrWalks), kb, nrWalks + 1, |ps|))
    && PlanKb(ColdSides(ps), kb) <= demoteCount
    && demoteCount == MinNat(demoteLimit, RowsKb(ColdRanks(dram, nrWalks), kb, nrWalks + 1, |ps|))
  }

  /** No slot promotes pages with as many references as its threshold while another one keeps back pages
      with more, nor while an earlier slot keeps back pages with as many. */
  predicate HotFirst(ps: seq<Param>, pmem: Ranked, nrWalks: nat, x: nat, y: nat)
    requires x < |ps| && y < |ps|
  {
    1 <= ps[x].hotThreshold <= nrWalks ==>
      ps[y].nrPromote >= PagesAbove(pmem, y, if y < x then ps[x].hotThreshold - 1 else ps[x].hotThreshold, nrWalks)
  }

  /** The same for demotion, of pages with fewer references. */
  predicate ColdFirst(ps: seq<Param>, dram: Ranked, nrWalks: nat, x: nat, y: nat)
    requires x < |ps| && y < |ps|
  {
    0 <= ps[x].coldThreshold < nrWalks ==>
      ps[y].nrDemote >= PagesBelow(dram, y, if y < x then ps[x].coldThreshold + 1 else ps[x].coldThreshold)
  }

  /** The plans take the hottest and the coldest pages of all slots, and leave less than a page of what
      they may use. */
  ghost predicate PlanFair(pmem: Ranked, dram: Ranked, kb: nat -> nat, nrWalks: nat, ps: seq<Param>,
                           promoteCount: nat, demoteCount: nat) {
    && (forall x: nat, y: nat :: x < |ps| && y < |ps| ==> HotFirst(ps, pmem, nrWalks, x, y))
    && (forall x: nat, y: nat :: x < |ps| && y < |ps| ==> ColdFirst(ps, dram, nrWalks, x, y))
    && (PlanKb(HotSides(ps, nrWalks), kb) == promoteCount || UnderPage(HotSides(ps, nrWalks), kb, promoteCount))
    && (PlanKb(ColdSides(ps), kb) == demoteCount || UnderPage(ColdSides(ps), kb, demoteCount))
  }

  lemma HotIsFirst(pmem: Ranked, ps: seq<Param>, nrWalks: nat, x: nat, y: nat)
    requires Fair(HotRanks(pmem, nrWalks), HotSides(ps, nrWalks)) && x < |ps| && y < |ps|
    ensures HotFirst(ps, pmem, nrWalks, x, y)
  {
    var t := ps[x].hotThreshold;
    assert FairPair(HotRanks(pmem, nrWalks), HotSides(ps, nrWalks), x, y);
    if 1 <= t <= nrWalks {
      HotSum(pmem, y, if y < x then t - 1 else t, nrWalks);
    }
  }

  lemma ColdIsFirst(dram: Ranked, ps: seq<Param>, nrWalks: nat, x: nat, y: nat)
    requires Fair(ColdRanks(dram, nrWalks), ColdSides(ps)) && x < |ps| && y < |ps|
    ensures ColdFirst(ps, dram, nrWalks, x, y)
  {
    var t := ps[x].coldThreshold;
    assert FairPair(ColdRanks(dram, nrWalks), ColdSides(ps), x, y);
    if 0 <= t < nrWalks {
      ColdSum(dram, y, if y < x then t + 1 else t, nrWalks);
    }
  }

  lemma PlanIsFair(pmem: Ranked, dram: Ranked, kb: nat -> nat, nrWalks: nat, promoteLimit: nat, demoteLimit: nat,
                   ps: seq<Param>, promoteCount: nat, demoteCount: nat)
    requires Planning(pmem, dram, kb, nrWalks, promoteLimit, demoteLimit, ps, nrWalks + 1, 0, promoteCount, demoteCount)
    ensures PlanFair(pmem, dram, kb, nrWalks, ps, promoteCount, demoteCount)
  {
    PlanningParts(pmem, dram, kb, nrWalks, promoteLimit, demoteLimit, ps, nrWalks + 1, 0, promoteCount, demoteCount);
    forall x: nat, y: nat | x < |ps| && y < |ps| ensures HotFirst(ps, pmem, nrWalks, x, y) && ColdFirst(ps, dram, nrWalks, x, y) {
      HotIsFirst(pmem, ps, nrWalks, x, y);
      ColdIsFirst(dram, ps, nrWalks, x, y);
    }
  }

  lemma PlanningOver(pmem: Ranked, dram: Ranked, kb: nat -> nat, nrWalks: nat, promoteLimit: nat, demoteLimit: nat,
                     ps: seq<Param>, promoteCount: nat, demoteCount: nat)
    requires Planning(pmem, dram, kb, nrWalks, promoteLimit, demoteLimit, ps, nrWalks + 1, 0, promoteCount, demoteCount)
    ensures PlanDone(pmem, dram, kb, nrWalks, promoteLimit, demoteLimit, ps, promoteCount, demoteCount)
  {
    PlanningParts(pmem, dram, kb, nrWalks, promoteLimit, demoteLimit, ps, nrWalks + 1, 0, promoteCount, demoteCount);
    forall s | 0 <= s < |ps| ensures HotPlan(ps[s], pmem, s, nrWalks) && ColdPlan(ps[s], dram, s, nrWalks) {
      SpentHotPlan(pmem, kb, promoteLimit, ps, nrWalks, promoteCount, s);
      SpentColdPlan(dram, kb, demoteLimit, ps, nrWalks, demoteCount, s);
    }
  }

  /** calc_migrate_parameter: every plan takes all pages beyond its threshold and `remain` of those at
      it, the plans stay within the limits, as much of the limits is spent as there are pages for, and
      over all slots the hottest and the coldest pages go first. */
  method CalcMigrateParameter(pmem: Ranked, dram: Ranked, kb: nat -> nat, slots: nat, nrWalks: nat, promoteLimit: nat,
                              demoteLimit: nat) returns (ps: seq<Param>, promoteCount: nat, demoteCount: nat)
    requires forall x :: kb(x) > 0
    ensures |ps| == slots
    ensures PlanDone(pmem, dram, kb, nrWalks, promoteLimit, demoteLimit, ps, promoteCount, demoteCount)
    ensures PlanFair(pmem, dram, kb, nrWalks, ps, promoteCount, demoteCount)
  {
    ps := StartPlan(pmem, dram, kb, slots, nrWalks, promoteLimit, demoteLimit);
    promoteCount, demoteCount := 0, 0;
    for i := 0 to nrWalks + 1
      invariant |ps| == slots
      invariant Planning(pmem, dram, kb, nrWalks, promoteLimit, demoteLimit, ps, i, 0, promoteCount, demoteCount)
    {
      ps, promoteCount, demoteCount := PlanRank(pmem, dram, kb, nrWalks, promoteLimit, demoteLimit, ps, i, promoteCount, demoteCount);
      RankOver(pmem, dram, kb, nrWalks, promoteLimit, demoteLimit, ps, i, promoteCount, demoteCount);
    }
    PlanningOver(pmem, dram, kb, nrWalks, promoteLimit, demoteLimit, ps, promoteCount, demoteCount);
    PlanIsFair(pmem, dram, kb, nrWalks, promoteLimit, demoteLimit, ps, promoteCount, demoteCount);
  }
}
