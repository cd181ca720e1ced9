/** The migration planner of GlobalScan.cc: how much may move in one period, and which pages of which
    range by reference count. Floats are reals. */
module Planner {
  import opened Arith

  function MinNat(a: nat, b: nat): nat { if a < b then a else b }

  // ----- calc_migrate_count -----

  /** Pages by page type (0: 4 KB, 1: 2 MB) and reference count. */
  type Histogram = (nat, nat) -> nat

  /** KB of a page of the type. */
  function KbOf(t: nat): nat { if t == 0 then 4 else 2048 }

  /** The KB of both types at one reference count. */
  function LevelKb(h: Histogram, level: nat): nat { h(0, level) * KbOf(0) + h(1, level) * KbOf(1) }

  /** The KB at the n highest reference counts, 0 left out. */
  function HotKb(pmem: Histogram, nrWalks: nat, n: nat): nat {
    if n == 0 then 0 else HotKb(pmem, nrWalks, n - 1) + if n <= nrWalks then LevelKb(pmem, nrWalks - n + 1) else 0
  }

  /** The KB at the n lowest reference counts, nrWalks left out. */
  function ColdKb(dram: Histogram, nrWalks: nat, n: nat): nat {
    if n == 0 then 0 else ColdKb(dram, nrWalks, n - 1) + if n <= nrWalks then LevelKb(dram, n - 1) else 0
  }

  /** One greedy step: what fits into the budget. */
  method TakeKb(avail: nat, budget: nat, kb: nat) returns (avail': nat, budget': nat)
    ensures avail' == avail + MinNat(kb, budget) && budget' == budget - MinNat(kb, budget)
  {
    var pageKb := MinNat(kb, budget);
    avail' := avail + pageKb;
    budget' := budget - pageKb;
  }

  /** The hot side after i rounds and t types of the next. */
  predicate HotState(pmem: Histogram, nrWalks: nat, promoteKb: nat, tooManyAep: bool, i: nat, t: nat, hot: nat, promote: nat) {
    if tooManyAep then
      hot == MinNat(promoteKb, HotKb(pmem, nrWalks, i) + Part(pmem, t, nrWalks - i, i < nrWalks)) && promote == promoteKb - hot
    else hot == TopKb(pmem, nrWalks, promoteKb, if i == 0 then t else 2) && promote == promoteKb
  }

  predicate ColdState(dram: Histogram, nrWalks: nat, demoteKb: nat, i: nat, t: nat, cold: nat, demote: nat) {
    cold == MinNat(demoteKb, ColdKb(dram, nrWalks, i) + Part(dram, t, i, i < nrWalks)) && demote == demoteKb - cold
  }

  method HotStep(pmem: Histogram, nrWalks: nat, ghost promoteKb: nat, tooManyAep: bool, i: nat, t: nat, hot: nat, promote: nat)
    returns (hot': nat, promote': nat)
    requires t < 2 && i <= nrWalks && HotState(pmem, nrWalks, promoteKb, tooManyAep, i, t, hot, promote)
    ensures HotState(pmem, nrWalks, promoteKb, tooManyAep, i, t + 1, hot', promote')
  {
    hot', promote' := hot, promote;
    var hotThreshold := nrWalks - i;
    if !tooManyAep {
      if hotThreshold >= nrWalks {
        hot' := hot + MinNat(pmem(t, hotThreshold) * KbOf(t), promote);
      }
    } else if hotThreshold > 0 && promote > 0 {
      hot', promote' := TakeKb(hot, promote, pmem(t, hotThreshold) * KbOf(t));
    }
  }

  method ColdStep(dram: Histogram, nrWalks: nat, ghost demoteKb: nat, i: nat, t: nat, cold: nat, demote: nat)
    returns (cold': nat, demote': nat)
    requires t < 2 && i <= nrWalks && ColdState(dram, nrWalks, demoteKb, i, t, cold, demote)
    ensures ColdState(dram, nrWalks, demoteKb, i, t + 1, cold', demote')
  {
    cold', demote' := cold, demote;
    var coldThreshold := i;
    if coldThreshold < nrWalks && demote > 0 {
      cold', demote' := TakeKb(cold, demote, dram(t, coldThreshold) * KbOf(t));
    }
  }

  lemma NextRound(pmem: Histogram, dram: Histogram, nrWalks: nat, promoteKb: nat, demoteKb: nat, tooManyAep: bool, i: nat,
                  hot: nat, promote: nat, cold: nat, demote: nat)
    requires i <= nrWalks && HotState(pmem, nrWalks, promoteKb, tooManyAep, i, 2, hot, promote)
    requires ColdState(dram, nrWalks, demoteKb, i, 2, cold, demote)
    ensures HotState(pmem, nrWalks, promoteKb, tooManyAep, i + 1, 0, hot, promote)
    ensures ColdState(dram, nrWalks, demoteKb, i + 1, 0, cold, demote)
  {
  }

  /** The loops of calc_migrate_count: the hot and the cold memory that fits into the budgets. With too
      much memory on PMEM the promote budget is shared by all reference counts; otherwise only the
      highest one counts, and each page type may use the whole budget. */
  method AvailableKb(pmem: Histogram, dram: Histogram, nrWalks: nat, promoteKb: nat, demoteKb: nat, tooManyAep: bool)
    returns (hot: nat, cold: nat)
    ensures tooManyAep ==> hot == MinNat(promoteKb, HotKb(pmem, nrWalks, nrWalks + 1))
    ensures !tooManyAep ==> hot == TopKb(pmem, nrWalks, promoteKb, 2)
    ensures cold == MinNat(demoteKb, ColdKb(dram, nrWalks, nrWalks + 1))
  {
    hot, cold := 0, 0;
    var promote, demote := promoteKb, demoteKb;
    for i := 0 to nrWalks + 1
      invariant HotState(pmem, nrWalks, promoteKb, tooManyAep, i, 0, hot, promote)
      invariant ColdState(dram, nrWalks, demoteKb, i, 0, cold, demote)
    {
      for t := 0 to 2
        invariant HotState(pmem, nrWalks, promoteKb, tooManyAep, i, t, hot, promote)
        invariant ColdState(dram, nrWalks, demoteKb, i, t, cold, demote)
      {
        hot, promote := HotStep(pmem, nrWalks, promoteKb, tooManyAep, i, t, hot, promote);
        cold, demote := ColdStep(dram, nrWalks, demoteKb, i, t, cold, demote);
      }
      NextRound(pmem, dram, nrWalks, promoteKb, demoteKb, tooManyAep, i, hot, promote, cold, demote);
    }
  }

  /** The KB at the highest reference count, each of the first t types cut at the budget. */
  function TopKb(pmem: Histogram, nrWalks: nat, promoteKb: nat, t: nat): nat {
    if t == 0 then 0
    else if t == 1 then MinNat(pmem(0, nrWalks) * KbOf(0), promoteKb)
    else MinNat(pmem(0, nrWalks) * KbOf(0), promoteKb) + MinNat(pmem(1, nrWalks) * KbOf(1), promoteKb)
  }

  /** The KB of the first t types at a reference count. */
  function Part(h: Histogram, t: nat, level: int, counts: bool): nat {
    if t == 0 || !counts || level < 0 then 0
    else if t == 1 then h(0, level) * KbOf(0) else h(0, level) * KbOf(0) + h(1, level) * KbOf(1)
  }

  // ----- What the sums count -----

  /** h' has one page of type t at reference count `level` more than h. */
  ghost predicate OneMore(h: Histogram, h': Histogram, t: nat, level: nat) {
    forall u: nat, l: nat :: h'(u, l) == h(u, l) + if u == t && l == level then 1 else 0
  }

  /** A page adds its size, 4 KB or 2 MB, to the memory of its reference count, and to no other. */
  lemma LevelCounts(h: Histogram, h': Histogram, t: nat, level: nat, l: nat)
    requires t < 2 && OneMore(h, h', t, level)
    ensures LevelKb(h', l) == LevelKb(h, l) + if l == level then (if t == 0 then 4 else 2048) else 0
  {
    assert h'(0, l) == h(0, l) + if t == 0 && l == level then 1 else 0;
    assert h'(1, l) == h(1, l) + if t == 1 && l == level then 1 else 0;
  }

  /** The hot memory counts every page accessed in some walk with its size, and only those. */
  lemma {:induction false} HotCounts(h: Histogram, h': Histogram, t: nat, level: nat, nrWalks: nat, n: nat)
    requires t < 2 && OneMore(h, h', t, level) && n <= nrWalks + 1
    ensures HotKb(h', nrWalks, n)
            == HotKb(h, nrWalks, n) + if nrWalks - n < level <= nrWalks && level > 0 then (if t == 0 then 4 else 2048) else 0
  {
    if n > 0 {
      HotCounts(h, h', t, level, nrWalks, n - 1);
      if n <= nrWalks {
        LevelCounts(h, h', t, level, nrWalks - n + 1);
      }
    }
  }

  /** The cold memory counts every page not accessed in every walk. */
  lemma {:induction false} ColdCounts(h: Histogram, h': Histogram, t: nat, level: nat, nrWalks: nat, n: nat)
    requires t < 2 && OneMore(h, h', t, level) && n <= nrWalks + 1
    ensures ColdKb(h', nrWalks, n)
            == ColdKb(h, nrWalks, n) + if level < n && level < nrWalks then (if t == 0 then 4 else 2048) else 0
  {
    if n > 0 {
      ColdCounts(h, h', t, level, nrWalks, n - 1);
      if n <= nrWalks {
        LevelCounts(h, h', t, level, n - 1);
      }
    }
  }

  lemma {:induction false} EmptyCounts(h: Histogram, nrWalks: nat, n: nat)
    requires forall t: nat, l: nat :: h(t, l) == 0
    ensures HotKb(h, nrWalks, n) == 0 && ColdKb(h, nrWalks, n) == 0
  {
    if n > 0 {
      EmptyCounts(h, nrWalks, n - 1);
    }
  }

  datatype Limits = Limits(promoteKb: nat, demoteKb: nat)

  /** The last part of calc_migrate_count: both directions keep the ratio of the budgets, as far as
      there are pages. `unbalanced` is in_unbalanced_stage(). */
  function Balance(hot: nat, cold: nat, promoteKb: nat, demoteKb: nat, unbalanced: bool): (r: Limits)
    requires promoteKb > 0
  {
    var ratio := demoteKb as real / promoteKb as real;
    var needMoreColdPage := ratio > 1.0;
    if cold > 0 && hot > 0 then
      var pageKb := Floor(hot as real * ratio);
      var demoteLimit := MinNat(cold, pageKb);
      if needMoreColdPage && pageKb > cold then Limits(Floor(demoteLimit as real / ratio), demoteLimit)
      else Limits(hot, demoteLimit)
    else if hot > 0 then
      Limits(if unbalanced && !needMoreColdPage then hot else 0, 0)
    else if cold > 0 then
      Limits(0, if unbalanced && needMoreColdPage then cold else 0)
    else Limits(0, 0)
  }

  /** (long) of a float that is not negative. */
  function Floor(x: real): (n: nat)
    requires x >= 0.0
    ensures n as real <= x < n as real + 1.0
  {
    x.Floor
  }

  // ----- The bounds -----

  /** Without too much memory on PMEM the promote budget is not shared, so the hot memory found for it
      stays within it exactly when one page type alone is hot in every walk or both together fit. */
  lemma TopWithinBudgetExactly(pmem: Histogram, nrWalks: nat, promoteKb: nat)
    requires promoteKb > 0
    ensures TopKb(pmem, nrWalks, promoteKb, 2) <= promoteKb
            <==> pmem(0, nrWalks) == 0 || pmem(1, nrWalks) == 0 || LevelKb(pmem, nrWalks) <= promoteKb
  {
    assert KbOf(0) == 4 && KbOf(1) == 2048;
  }

  /** With one page of each type hot in every walk and a budget of 4 KB twice the budget is found. */
  lemma BudgetOverrun()
    ensures exists pmem: Histogram, nrWalks: nat, promoteKb: nat ::
              promoteKb > 0 && TopKb(pmem, nrWalks, promoteKb, 2) == 2 * promoteKb
  {
    var pmem: Histogram := (t, level) => 1;
    assert TopKb(pmem, 1, 4, 2) == 8;
  }

  lemma QuotientBelow(x: real, y: real, r: real)
    requires r > 0.0 && x <= y * r
    ensures x / r <= y
  {
    assert x / r * r == x;
    if x / r > y {
      Product(x / r, y, r);
    }
  }

  lemma Product(a: real, b: real, r: real)
    requires r > 0.0 && a > b
    ensures a * r > b * r
  {
  }

  /** The float comparison means that more is to be demoted than promoted. */
  lemma NeedsMoreCold(promoteKb: nat, demoteKb: nat)
    requires promoteKb > 0
    ensures demoteKb as real / promoteKb as real > 1.0 <==> demoteKb > promoteKb
  {
    var ratio := demoteKb as real / promoteKb as real;
    assert ratio * promoteKb as real == demoteKb as real;
    if ratio > 1.0 {
      Product(ratio, 1.0, promoteKb as real);
    }
    if ratio < 1.0 {
      Product(1.0, ratio, promoteKb as real);
    }
  }

  /** No limit exceeds what is available, and each direction moves only if the other one can or the
      stage wants it alone. */
  lemma BalanceBounds(hot: nat, cold: nat, promoteKb: nat, demoteKb: nat, unbalanced: bool) returns (r: Limits)
    requires promoteKb > 0
    ensures r == Balance(hot, cold, promoteKb, demoteKb, unbalanced)
    ensures r.promoteKb <= hot && r.demoteKb <= cold
    ensures hot == 0 && r.demoteKb > 0 ==> unbalanced && demoteKb > promoteKb
    ensures cold == 0 && r.promoteKb > 0 ==> unbalanced && demoteKb <= promoteKb
  {
    r := Balance(hot, cold, promoteKb, demoteKb, unbalanced);
    NeedsMoreCold(promoteKb, demoteKb);
    var ratio := demoteKb as real / promoteKb as real;
    if cold > 0 && hot > 0 && ratio > 1.0 && Floor(hot as real * ratio) > cold {
      ScaledBack(hot, cold, ratio);
    }
  }

  /** x times the ratio of the budgets, rounded down. */
  lemma FloorRatio(x: nat, promoteKb: nat, demoteKb: nat, n: nat)
    requires promoteKb > 0 && x as real * (demoteKb as real / promoteKb as real) >= 0.0
    requires n == Floor(x as real * (demoteKb as real / promoteKb as real))
    ensures n * promoteKb <= x * demoteKb < (n + 1) * promoteKb
  {
    var ratio := demoteKb as real / promoteKb as real;
    assert ratio * promoteKb as real == demoteKb as real;
    Cancelled(x as real, ratio, promoteKb as real, demoteKb as real, n as real, (n + 1) as real);
  }

  lemma Cancelled(x: real, ratio: real, p: real, d: real, n: real, m: real)
    requires p > 0.0 && ratio * p == d && n <= x * ratio < m
    ensures n * p <= x * d < m * p
  {
    var y := x * ratio;
    Regroup(x, ratio, p, y, d);
    Between(n, y, m, p);
  }

  lemma Between(a: real, y: real, b: real, p: real)
    requires p > 0.0 && a <= y < b
    ensures a * p <= y * p < b * p
  {
    Product(b, y, p);
    if a < y {
      Product(y, a, p);
    }
  }

  lemma Regroup(x: real, ratio: real, p: real, y: real, d: real)
    requires y == x * ratio && ratio * p == d
    ensures y * p == x * d
  {
    assert (x * ratio) * p == x * (ratio * p);
  }

  lemma FloorInverse(x: nat, promoteKb: nat, demoteKb: nat, n: nat)
    requires promoteKb > 0 && demoteKb > 0 && x as real / (demoteKb as real / promoteKb as real) >= 0.0
    requires n == Floor(x as real / (demoteKb as real / promoteKb as real))
    ensures n * demoteKb <= x * promoteKb < (n + 1) * demoteKb
  {
    var ratio := demoteKb as real / promoteKb as real;
    var inverse := promoteKb as real / demoteKb as real;
    assert ratio * promoteKb as real == demoteKb as real && inverse * demoteKb as real == promoteKb as real;
    Inverses(x as real, ratio, inverse, promoteKb as real, demoteKb as real);
    FloorRatio(x, demoteKb, promoteKb, n);
  }

  lemma Inverses(x: real, ratio: real, inverse: real, p: real, d: real)
    requires p > 0.0 && d > 0.0 && ratio == d / p && inverse == p / d
    ensures ratio > 0.0 && x / ratio == x * inverse
  {
    assert ratio * inverse == 1.0;
    assert x * inverse * ratio == x;
  }

  /** More is to be demoted than promoted, and what is cold does not go with all that is hot. */
  predicate ColdIsShort(hot: nat, cold: nat, promoteKb: nat, demoteKb: nat) {
    demoteKb > promoteKb && hot * demoteKb >= (cold + 1) * promoteKb
  }

  lemma BothMove(hot: nat, cold: nat, promoteKb: nat, demoteKb: nat, unbalanced: bool) returns (r: Limits)
    requires promoteKb > 0 && hot > 0 && cold > 0
    ensures r == Balance(hot, cold, promoteKb, demoteKb, unbalanced)
    ensures ColdIsShort(hot, cold, promoteKb, demoteKb) ==>
              r.demoteKb == cold && r.promoteKb * demoteKb <= cold * promoteKb < (r.promoteKb + 1) * demoteKb
    ensures !ColdIsShort(hot, cold, promoteKb, demoteKb) ==>
              && r.promoteKb == hot && r.demoteKb <= cold && r.demoteKb * promoteKb <= hot * demoteKb
              && (r.demoteKb < cold ==> hot * demoteKb < (r.demoteKb + 1) * promoteKb)
  {
    r := Balance(hot, cold, promoteKb, demoteKb, unbalanced);
    NeedsMoreCold(promoteKb, demoteKb);
    var pageKb := Floor(hot as real * (demoteKb as real / promoteKb as real));
    FloorRatio(hot, promoteKb, demoteKb, pageKb);
    CutAt(pageKb, cold, promoteKb, hot * demoteKb);
    if ColdIsShort(hot, cold, promoteKb, demoteKb) {
      FloorInverse(cold, promoteKb, demoteKb, r.promoteKb);
    }
  }

  /** The limits of both directions are in the ratio of the budgets, as far as there are pages: all that
      is hot is promoted, or, where more is to be demoted than promoted and too little is cold, all that
      is cold is demoted. Without pages in one direction the other moves in the unbalanced stage only,
      towards the side that has too little. */
  lemma BalanceExactly(hot: nat, cold: nat, promoteKb: nat, demoteKb: nat, unbalanced: bool) returns (r: Limits)
    requires promoteKb > 0
    ensures r == Balance(hot, cold, promoteKb, demoteKb, unbalanced)
    ensures hot > 0 && cold > 0 && ColdIsShort(hot, cold, promoteKb, demoteKb) ==>
              r.demoteKb == cold && r.promoteKb * demoteKb <= cold * promoteKb < (r.promoteKb + 1) * demoteKb
    ensures hot > 0 && cold > 0 && !ColdIsShort(hot, cold, promoteKb, demoteKb) ==>
              && r.promoteKb == hot && r.demoteKb <= cold && r.demoteKb * promoteKb <= hot * demoteKb
              && (r.demoteKb < cold ==> hot * demoteKb < (r.demoteKb + 1) * promoteKb)
    ensures hot > 0 && cold == 0 ==> r == Limits(if unbalanced && demoteKb <= promoteKb then hot else 0, 0)
    ensures hot == 0 && cold > 0 ==> r == Limits(0, if unbalanced && demoteKb > promoteKb then cold else 0)
    ensures hot == 0 && cold == 0 ==> r == Limits(0, 0)
  {
    NeedsMoreCold(promoteKb, demoteKb);
    if hot > 0 && cold > 0 {
      r := BothMove(hot, cold, promoteKb, demoteKb, unbalanced);
    } else {
      r := Balance(hot, cold, promoteKb, demoteKb, unbalanced);
    }
  }

  lemma CutAt(n: nat, cold: nat, p: nat, all: nat)
    requires p > 0 && n * p <= all < (n + 1) * p
    ensures n > cold <==> all >= (cold + 1) * p
    ensures n >= cold ==> cold * p <= all
  {
    if n > cold {
      MulUp(cold + 1, n, p);
    } else {
      MulUp(n, cold, p);
    }
    if n >= cold {
      MulUp(cold, n, p);
    }
  }

  lemma MulUp(a: nat, b: nat, p: nat)
    requires a <= b
    ensures a * p <= b * p && (a + 1) * p <= (b + 1) * p
  {
    Distribute(b, a, p);
    Distribute(b + 1, a + 1, p);
  }

  lemma ScaledBack(hot: nat, cold: nat, ratio: real)
    requires ratio > 1.0 && hot as real * ratio >= 0.0 && Floor(hot as real * ratio) > cold
    ensures cold as real / ratio >= 0.0 && Floor(cold as real / ratio) <= hot
  {
    QuotientBelow(cold as real, hot as real, ratio);
  }

  /** The settings and totals one plan starts from. */
  datatype Totals = Totals(totalKb: nat, dramKb: nat, pmemKb: nat, dramPercent: nat, onePeriodKb: nat, unbalanced: bool)

  function Gap(t: Totals): int { t.pmemKb - t.totalKb * (100 - t.dramPercent) / 100 }

  predicate TooManyAep(t: Totals)
    requires t.dramPercent <= 100
  {
    t.unbalanced && Gap(t) > 0
  }

  /** More than its share of all memory is on PMEM, while the stage is unbalanced. */
  lemma TooManyExactly(t: Totals)
    requires t.dramPercent <= 100
    ensures TooManyAep(t) <==> t.unbalanced && 100 * t.pmemKb > t.totalKb * (100 - t.dramPercent)
  {
  }

  /** How much DRAM lacks of its share of all memory, below 0 how much it has beyond. */
  function DramShortage(t: Totals): int { t.totalKb * t.dramPercent / 100 - t.dramKb }

  function Clamp(x: int, bound: nat): int { Max(0 - bound, Min(bound, x)) }

  lemma TargetIs(t: Totals, target: nat)
    requires target == Floor(t.totalKb as real * (t.dramPercent as real / 100.0))
    ensures target == t.totalKb * t.dramPercent / 100
  {
    var all := t.totalKb * t.dramPercent;
    RealShare(t.totalKb, t.dramPercent);
    assert target as real <= all as real / 100.0 < target as real + 1.0;
    assert target * 100 <= all < target * 100 + 100;
    DivModUnique(all, 100, target, all - target * 100);
  }

  lemma RealShare(total: nat, percent: nat)
    ensures total as real * (percent as real / 100.0) == (total * percent) as real / 100.0
  {
  }

  /** With DRAM above its target at least as much is to be demoted as promoted, below it the reverse. */
  lemma BudgetsLean(t: Totals, limit: nat, promoteKb: nat, demoteKb: nat)
    requires promoteKb - demoteKb == Clamp(DramShortage(t), limit - limit / 8)
    ensures 100 * t.dramKb > t.totalKb * t.dramPercent ==> demoteKb >= promoteKb
    ensures 100 * t.dramKb <= t.totalKb * t.dramPercent ==> promoteKb >= demoteKb
  {
  }

  /** calc_migrate_count. The budgets share the limit; they differ by what DRAM lacks of its target, at
      most by seven eighths of the limit. */
  method CalcMigrateCount(t: Totals, pmem: Histogram, dram: Histogram, nrWalks: nat)
    returns (r: Limits, limit: nat, promoteKb: nat, demoteKb: nat)
    requires t.dramPercent <= 100 && t.onePeriodKb >= 16
    ensures limit == if TooManyAep(t) && Gap(t) / 8 > t.onePeriodKb then Gap(t) / 8 else t.onePeriodKb
    ensures promoteKb > 0 && limit - 1 <= promoteKb + demoteKb <= limit
    ensures promoteKb - demoteKb == if t.dramPercent == 0 then 0 else Clamp(DramShortage(t), limit - limit / 8)
    ensures TooManyAep(t) ==>
              && r.promoteKb <= MinNat(promoteKb, HotKb(pmem, nrWalks, nrWalks + 1))
              && r.demoteKb <= MinNat(demoteKb, ColdKb(dram, nrWalks, nrWalks + 1))
              && r.promoteKb + r.demoteKb <= limit
    ensures r == Balance(if TooManyAep(t) then MinNat(promoteKb, HotKb(pmem, nrWalks, nrWalks + 1))
                         else TopKb(pmem, nrWalks, promoteKb, 2),
                         MinNat(demoteKb, ColdKb(dram, nrWalks, nrWalks + 1)), promoteKb, demoteKb, t.unbalanced)
  {
    var tooManyAep := t.unbalanced && Gap(t) > 0;
    limit := if tooManyAep && Gap(t) / 8 > t.onePeriodKb then Gap(t) / 8 else t.onePeriodKb;
    if t.dramPercent != 0 {
      var adjust := limit / 8;
      var dramTarget := Floor(t.totalKb as real * (t.dramPercent as real / 100.0));
      TargetIs(t, dramTarget);
      var delta: int := dramTarget - t.dramKb;
      if delta < 0 {
        delta := if delta < 0 - limit + adjust then 0 - limit + adjust else delta;
      } else {
        delta := Min(delta, limit - adjust);
      }
      promoteKb, demoteKb := (limit + delta) / 2, (limit - delta) / 2;
    } else {
      promoteKb, demoteKb := limit / 2, limit / 2;
    }
    var hot, cold := AvailableKb(pmem, dram, nrWalks, promoteKb, demoteKb, tooManyAep);
    r := Balance(hot, cold, promoteKb, demoteKb, t.unbalanced);
    ghost var r' := BalanceBounds(hot, cold, promoteKb, demoteKb, t.unbalanced);
  }
}
