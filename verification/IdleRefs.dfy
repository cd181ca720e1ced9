/** What the user-space walker counts for a list of pages (ProcIdlePages.cc), on values. */
module IdleRefs {
  import opened Arith
  import opened IdleStream
  import opened EptEncoder
  import opened PageList

  /** One call inc_payload(va, n) on the address sequence of a page type. */
  datatype Ref = Ref(index: PageType, va: int, n: nat)

  /** pagetype_index[]. */
  function PageIndex(t: PageType): PageType {
    if t == PTE_DIRTY || t == PTE_IDLE then PTE_ACCESSED
    else if t == PMD_DIRTY || t == PMD_IDLE then PMD_ACCESSED
    else t
  }

  function Weight(t: PageType): nat {
    if t >= PTE_IDLE then 0 else if t >= PTE_DIRTY then 3 else 1
  }

  /** va is a multiple of the page size of type t. */
  predicate Aligned(va: int, t: PageType) {
    if PageSize(t) == PAGE_SIZE then va % PAGE_SIZE == 0
    else if PageSize(t) == PMD_SIZE then va % PMD_SIZE == 0
    else PageSize(t) == PUD_SIZE && va % PUD_SIZE == 0
  }

  function OneRef(t: PageType, va: int, end: int): seq<Ref> {
    if va < end then [Ref(PageIndex(t), va, Weight(t))] else []
  }

  /** nr pages from va on, those at or behind `end` left out. */
  function RunRefs(t: PageType, nr: nat, va: int, end: int): seq<Ref> {
    if nr == 0 then [] else RunRefs(t, nr - 1, va, end) + OneRef(t, va + PageSize(t) * (nr - 1), end)
  }

  /** inc_page_refs: an unaligned run is ignored. */
  function IncRefs(t: PageType, nr: nat, va: int, end: int): seq<Ref> {
    if Aligned(va, t) then RunRefs(t, nr, va, end) else []
  }

  /** The calls parse_idlepages makes for one run: a run of PMD_IDLE_PTES is 512 idle 4 KB pages each. */
  function ItemRefs(t: PageType, nr: nat, va: int, end: int): seq<Ref> {
    if t == PMD_IDLE_PTES then IncRefs(PTE_IDLE, nr * 512, va, end)
    else if t < PMD_IDLE_PTES then IncRefs(t, nr, va, end)
    else []
  }

  /** The calls a list of pages deserves, each page by itself. */
  function Counted(ps: seq<Page>, end: int): seq<Ref> {
    if ps == [] then [] else Counted(ps[..|ps| - 1], end) + ItemRefs(ps[|ps| - 1].t, 1, ps[|ps| - 1].va, end)
  }

  // ----- Runs -----

  lemma {:induction false} RunBeyond(t: PageType, m: nat, nr: nat, va: int, end: int)
    requires m <= nr && end <= va + PageSize(t) * m
    ensures RunRefs(t, nr, va, end) == RunRefs(t, m, va, end)
    decreases nr
  {
    if m < nr {
      RunBeyond(t, m, nr - 1, va, end);
      MulMonotone(PageSize(t), m, nr - 1);
    }
  }

  lemma MulMonotone(a: nat, m: nat, n: nat)
    requires m <= n
    ensures a * m <= a * n
  {
    Distribute(n, m, a);
  }

  lemma {:induction false} RunAppend(t: PageType, m: nat, n: nat, va: int, end: int)
    ensures RunRefs(t, m + n, va, end) == RunRefs(t, m, va, end) + RunRefs(t, n, va + PageSize(t) * m, end)
    decreases n
  {
    if n > 0 {
      RunAppend(t, m, n - 1, va, end);
      var mid := va + PageSize(t) * m;
      assert va + PageSize(t) * (m + n - 1) == mid + PageSize(t) * (n - 1);
      Associative(RunRefs(t, m, va, end), RunRefs(t, n - 1, mid, end), OneRef(t, mid + PageSize(t) * (n - 1), end));
    }
  }

  lemma AlignedNext(t: PageType, va: int, k: nat)
    requires PageSize(t) > 0
    ensures Aligned(va + PageSize(t) * k, t) <==> Aligned(va, t)
  {
    var s := PageSize(t);
    MulMod(s, k);
    if va % s == 0 {
      ModAdd(va, s * k, s);
    }
    if (va + s * k) % s == 0 {
      ModSub(s * k, va + s * k, s);
    }
  }

  /** Alignment to 4 KB moves along steps of 2 MB. */
  lemma PteAlignedNext(va: int, k: nat)
    ensures Aligned(va + PMD_SIZE * k, PTE_IDLE) <==> Aligned(va, PTE_IDLE)
  {
    assert va + PMD_SIZE * k == va + PAGE_SIZE * (512 * k);
    AlignedNext(PTE_IDLE, va, 512 * k);
  }

  /** One more page of a run. */
  lemma ItemSnoc(t: PageType, nr: nat, va: int, end: int, last: int)
    requires nr > 0 && last == va + PageSize(t) * (nr - 1)
    ensures ItemRefs(t, nr, va, end) == ItemRefs(t, nr - 1, va, end) + ItemRefs(t, 1, last, end)
  {
    if t == PMD_IDLE_PTES {
      PteAlignedNext(va, nr - 1);
      RunAppend(PTE_IDLE, (nr - 1) * 512, 512, va, end);
      assert va + PAGE_SIZE * ((nr - 1) * 512) == last;
    } else if t < PMD_IDLE_PTES {
      AlignedNext(t, va, nr - 1);
      assert RunRefs(t, 1, last, end) == RunRefs(t, 0, last, end) + OneRef(t, last, end);
    }
  }

  lemma CountedSnoc(ps: seq<Page>, p: Page, end: int)
    ensures Counted(ps + [p], end) == Counted(ps, end) + ItemRefs(p.t, 1, p.va, end)
  {
    assert (ps + [p])[..|ps|] == ps;
  }

  lemma {:induction false} CountedAppend(ps: seq<Page>, qs: seq<Page>, end: int)
    ensures Counted(ps + qs, end) == Counted(ps, end) + Counted(qs, end)
  {
    if qs == [] {
      assert ps + qs == ps;
    } else {
      var qs', q := qs[..|qs| - 1], qs[|qs| - 1];
      CountedAppend(ps, qs', end);
      Associative(ps, qs', [q]);
      assert qs == qs' + [q];
      CountedSnoc(ps + qs', q, end);
      Associative(Counted(ps, end), Counted(qs', end), ItemRefs(q.t, 1, q.va, end));
    }
  }

  /** A run counts what its pages count. */
  lemma {:induction false} RunCounts(t: PageType, nr: nat, va: int, end: int)
    ensures ItemRefs(t, nr, va, end) == Counted(Expand(va, t, nr), end)
  {
    if nr > 0 {
      RunCounts(t, nr - 1, va, end);
      OneMoreCounts(t, nr - 1, va, end, va + PageSize(t) * (nr - 1));
    } else {
      NoItems(t, va, end);
    }
  }

  lemma OneMoreCounts(t: PageType, nr: nat, va: int, end: int, last: int)
    requires last == va + PageSize(t) * nr && ItemRefs(t, nr, va, end) == Counted(Expand(va, t, nr), end)
    ensures ItemRefs(t, nr + 1, va, end) == Counted(Expand(va, t, nr + 1), end)
  {
    ItemSnoc(t, nr + 1, va, end, last);
    ExpandSnoc(va, t, nr, last);
    CountedSnoc(Expand(va, t, nr), Page(last, t), end);
  }

  lemma ExpandSnoc(va: int, t: PageType, nr: nat, last: int)
    requires last == va + PageSize(t) * nr
    ensures Expand(va, t, nr + 1) == Expand(va, t, nr) + [Page(last, t)]
  {
  }

  lemma NoItems(t: PageType, va: int, end: int)
    ensures ItemRefs(t, 0, va, end) == []
  {
  }

  lemma ItemBeyond(t: PageType, va: int, end: int)
    requires va >= end
    ensures ItemRefs(t, 1, va, end) == []
  {
    RunBeyond(PTE_IDLE, 0, 512, va, end);
    RunBeyond(t, 0, 1, va, end);
  }

  lemma {:induction false} CountedBeyond(ps: seq<Page>, end: int)
    requires forall i :: 0 <= i < |ps| ==> ps[i].va >= end
    ensures Counted(ps, end) == []
  {
    if ps != [] {
      CountedBeyond(ps[..|ps| - 1], end);
      ItemBeyond(ps[|ps| - 1].t, ps[|ps| - 1].va, end);
    }
  }

  /** Holes count nothing. */
  lemma {:induction false} CountedPresent(ps: seq<Page>, end: int)
    ensures Counted(Present(ps), end) == Counted(ps, end)
  {
    if ps != [] {
      var ps', p := ps[..|ps| - 1], ps[|ps| - 1];
      CountedPresent(ps', end);
      CountedAppend(Present(ps'), IfPresent(p), end);
      assert !IsHole(p.t) ==> [p] == [] + [p];
      CountedSnoc([], p, end);
    }
  }

  // ----- Parsing -----

  datatype Parsed = Parsed(refs: seq<Ref>, va: int)

  function Before(refs: seq<Ref>, p: Parsed): Parsed { p.(refs := refs + p.refs) }

  /** parse_idlepages on tokens: it stops at the first item at or behind `end`. */
  function Parse(ks: seq<Token>, va: int, end: int): Parsed {
    if ks == [] then Parsed([], va)
    else match ks[0]
      case SetHva(hva) => Parse(ks[1..], hva, end)
      case Run(t, nr) =>
        if va >= end then Parsed([], va)
        else Before(ItemRefs(t, nr, va, end), Parse(ks[1..], va + PageSize(t) * nr, end))
  }

  /** v is the end of the reading m, or the place of one of its items at or behind `end`. */
  predicate StopsAt(v: int, m: Cursor, end: int) {
    v == m.va || (v >= end && exists i :: 0 <= i < |m.pages| && m.pages[i].va == v)
  }

  lemma StopsLater(v: int, first: seq<Page>, m: Cursor, end: int)
    requires StopsAt(v, m, end)
    ensures StopsAt(v, Cursor(first + m.pages, m.va), end)
  {
    if v != m.va {
      var i :| 0 <= i < |m.pages| && m.pages[i].va == v;
      assert (first + m.pages)[|first| + i] == m.pages[i];
    }
  }

  lemma StopAtEnd(va: int, t: PageType, nr: Nibble, rest: seq<Token>, end: int, m: Cursor)
    requires nr > 0 && va >= end && m == Meaning(va, [Run(t, nr)] + rest) && Rise(m.pages)
    ensures Counted(m.pages, end) == [] && StopsAt(va, m, end)
  {
    MeaningCons(va, Run(t, nr), rest);
    FirstOfRun(va, t, nr);
    assert m.pages[0] == Expand(va, t, nr)[0];
    CountedBeyond(m.pages, end);
  }

  lemma {:induction false} FirstOfRun(va: int, t: PageType, nr: nat)
    requires nr > 0
    ensures Expand(va, t, nr)[0] == Page(va, t)
  {
    if nr > 1 {
      FirstOfRun(va, t, nr - 1);
    }
  }

  lemma RiseParts(ps: seq<Page>, qs: seq<Page>)
    requires Rise(ps + qs)
    ensures Rise(qs)
  {
    forall i, j | 0 <= i < j < |qs| ensures qs[i].va < qs[j].va {
      assert (ps + qs)[|ps| + i] == qs[i] && (ps + qs)[|ps| + j] == qs[j];
    }
  }

  lemma RunMeaning(va: int, t: PageType, nr: Nibble, rest: seq<Token>, va': int)
    requires va' == va + PageSize(t) * nr
    ensures Meaning(va, [Run(t, nr)] + rest)
            == Cursor(Expand(va, t, nr) + Meaning(va', rest).pages, Meaning(va', rest).va)
  {
    MeaningCons(va, Run(t, nr), rest);
    assert [] + Expand(va, t, nr) == Expand(va, t, nr);
  }

  lemma HvaMeaning(va: int, hva: int, rest: seq<Token>)
    ensures Meaning(va, [SetHva(hva)] + rest) == Meaning(hva, rest)
  {
    MeaningCons(va, SetHva(hva), rest);
    assert [] + Meaning(hva, rest).pages == Meaning(hva, rest).pages;
  }

  /** The walker counts every listed item below `end`, although it may stop early, and ends where
      the stream ends, or at a listed item behind `end`. */
  lemma {:induction false} ParseCounts(ks: seq<Token>, va: int, end: int, m: Cursor) returns (p: Parsed)
    requires ValidTokens(ks) && m == Meaning(va, ks) && Rise(m.pages)
    ensures p == Parse(ks, va, end)
    ensures p.refs == Counted(m.pages, end) && StopsAt(p.va, m, end)
    decreases |ks|, 0
  {
    p := Parse(ks, va, end);
    if ks != [] {
      var k, rest := ks[0], ks[1..];
      assert ks == [k] + rest && ValidToken(k);
      match k
      case SetHva(hva) =>
        HvaMeaning(va, hva, rest);
        var q := ParseCounts(rest, hva, end, m);
      case Run(t, nr) =>
        if va >= end {
          StopAtEnd(va, t, nr, rest, end, m);
        } else {
          var q := ParseRun(va, t, nr, rest, end, va + PageSize(t) * nr, m);
        }
    }
  }

  lemma ParseRun(va: int, t: PageType, nr: Nibble, rest: seq<Token>, end: int, va': int, m: Cursor) returns (q: Parsed)
    requires ValidTokens(rest) && va' == va + PageSize(t) * nr
    requires m == Meaning(va, [Run(t, nr)] + rest) && Rise(m.pages)
    ensures q == Parse(rest, va', end) && StopsAt(q.va, m, end)
    ensures ItemRefs(t, nr, va, end) + q.refs == Counted(m.pages, end)
    decreases |rest|, 1
  {
    RunMeaning(va, t, nr, rest, va');
    var m' := Meaning(va', rest);
    RiseParts(Expand(va, t, nr), m'.pages);
    q := ParseCounts(rest, va', end, m');
    StopsLater(q.va, Expand(va, t, nr), m', end);
    RunCounts(t, nr, va, end);
    CountedAppend(Expand(va, t, nr), m'.pages, end);
  }

  // ----- Where parsing stops -----

  /** Every page has a size. */
  predicate Spans(ps: seq<Page>) {
    forall k :: 0 <= k < |ps| ==> ps[k].va < PageEnd(ps[k])
  }

  /** A run of the stream begins below `end` and lists the page q at or behind it. */
  predicate Crosses(ks: seq<Token>, va: int, end: int, q: Page) {
    exists k :: 0 <= k < |ks| && CrossesAt(ks, va, end, q, k)
  }

  predicate CrossesAt(ks: seq<Token>, va: int, end: int, q: Page, k: nat)
    requires k < |ks|
  {
    var at := Meaning(va, ks[..k]).va;
    ks[k].Run? && at < end <= q.va && q in Expand(at, ks[k].t, ks[k].nr)
  }

  lemma CrossesCons(ks: seq<Token>, va: int, va': int, end: int, q: Page)
    requires ks != [] && va' == Advance(Cursor([], va), ks[0]).va
    ensures Crosses(ks, va, end, q) <==> CrossesAt(ks, va, end, q, 0) || Crosses(ks[1..], va', end, q)
  {
    var rest := ks[1..];
    forall k: nat | k < |rest| ensures CrossesAt(ks, va, end, q, k + 1) <==> CrossesAt(rest, va', end, q, k) {
      assert ks[..k + 1] == [ks[0]] + rest[..k];
      MeaningCons(va, ks[0], rest[..k]);
    }
    if k: nat :| k < |ks| && CrossesAt(ks, va, end, q, k) {
      assert k > 0 ==> CrossesAt(rest, va', end, q, k - 1);
    }
    if k: nat :| k < |rest| && CrossesAt(rest, va', end, q, k) {
      assert CrossesAt(ks, va, end, q, k + 1);
    }
  }

  /** The pages of every run are listed. */
  lemma {:induction false} RunListed(ks: seq<Token>, va: int, k: nat, q: Page)
    requires k < |ks| && ks[k].Run? && q in Expand(Meaning(va, ks[..k]).va, ks[k].t, ks[k].nr)
    ensures q in Meaning(va, ks).pages
  {
    var front, m := ks[..|ks| - 1], Meaning(va, ks[..|ks| - 1]);
    assert Meaning(va, ks) == Advance(m, ks[|ks| - 1]);
    if k < |front| {
      assert front[..k] == ks[..k];
      RunListed(front, va, k, q);
    }
  }

  lemma NoneCross(ks: seq<Token>, va: int, end: int, q: Page)
    requires ValidTokens(ks) && forall p :: p in Meaning(va, ks).pages ==> p.va >= end
    ensures !Crosses(ks, va, end, q)
  {
    if k: nat :| k < |ks| && CrossesAt(ks, va, end, q, k) {
      var at := Meaning(va, ks[..k]).va;
      assert ValidToken(ks[k]);
      FirstOfRun(at, ks[k].t, ks[k].nr);
      RunListed(ks, va, k, Expand(at, ks[k].t, ks[k].nr)[0]);
    }
  }

  lemma {:induction false} ParseStops(ks: seq<Token>, va: int, end: int, m: Cursor) returns (v: int)
    requires ValidTokens(ks) && m == Meaning(va, ks) && Rise(m.pages)
    ensures v == Parse(ks, va, end).va && StopsAt(v, m, end)
  {
    var p := ParseCounts(ks, va, end, m);
    v := p.va;
  }

  /** A listed page behind `end` is passed over by the parser, so that the next mapping's walk begins
      behind it, if and only if it is in a run that begins before `end`. */
  lemma {:induction false} PassedOverExactly(ks: seq<Token>, va: int, end: int, m: Cursor, q: Page)
    requires ValidTokens(ks) && m == Meaning(va, ks) && Rise(m.pages) && Spans(m.pages) && EndBy(m.pages, m.va)
    requires q in m.pages && q.va >= end
    ensures q.va < Parse(ks, va, end).va <==> Crosses(ks, va, end, q)
    decreases |ks|, 0
  {
    var k, rest := ks[0], ks[1..];
    assert ks == [k] + rest && ValidToken(k);
    match k
    case SetHva(hva) =>
      HvaMeaning(va, hva, rest);
      PassedOverExactly(rest, hva, end, m, q);
      CrossesCons(ks, va, hva, end, q);
    case Run(t, nr) =>
      if va >= end {
        AllBehind(va, t, nr, rest, end, m);
        NoneCross(ks, va, end, q);
      } else {
        PassedInRun(va, t, nr, rest, end, va + PageSize(t) * nr, m, q);
        CrossesCons(ks, va, va + PageSize(t) * nr, end, q);
      }
  }

  /** The parser stops behind every page below `end`, and in the middle of no page. */
  lemma PassedEnds(ks: seq<Token>, va: int, end: int, m: Cursor, q: Page)
    requires ValidTokens(ks) && m == Meaning(va, ks) && Forward(m.pages, m.va)
    requires q in m.pages && !IsHole(q.t)
    ensures var v := Parse(ks, va, end).va; (q.va < end ==> q.va < v) && (q.va < v ==> PageEnd(q) <= v)
  {
    var v := ParseStops(ks, va, end, m);
    var i :| 0 <= i < |m.pages| && m.pages[i] == q;
    if v != m.va {
      var j :| 0 <= j < |m.pages| && m.pages[j].va == v;
    }
  }

  lemma AllBehind(va: int, t: PageType, nr: Nibble, rest: seq<Token>, end: int, m: Cursor)
    requires nr > 0 && va >= end && m == Meaning(va, [Run(t, nr)] + rest) && Rise(m.pages)
    ensures forall p :: p in m.pages ==> p.va >= va
  {
    MeaningCons(va, Run(t, nr), rest);
    FirstOfRun(va, t, nr);
    assert m.pages[0] == Expand(va, t, nr)[0];
  }

  lemma PassedInRun(va: int, t: PageType, nr: Nibble, rest: seq<Token>, end: int, va': int, m: Cursor, q: Page)
    requires ValidTokens(rest) && va' == va + PageSize(t) * nr && va < end
    requires m == Meaning(va, [Run(t, nr)] + rest) && Rise(m.pages) && Spans(m.pages) && EndBy(m.pages, m.va)
    requires q in m.pages && q.va >= end
    ensures q.va < Parse(rest, va', end).va <==> q in Expand(va, t, nr) || Crosses(rest, va', end, q)
    decreases |rest|, 1
  {
    RunMeaning(va, t, nr, rest, va');
    var run, m' := Expand(va, t, nr), Meaning(va', rest);
    RiseParts(run, m'.pages);
    assert forall i :: 0 <= i < |m'.pages| ==> m'.pages[i] == m.pages[|run| + i];
    if q in run {
      var v := ParseStops(rest, va', end, m');
      var i :| 0 <= i < |run| && run[i] == q;
      assert m.pages[i] == q;
    } else {
      PassedOverExactly(rest, va', end, m', q);
    }
  }

  /** Every call is made for a listed page below `end`, at an address in that page. */
  lemma {:induction false} CallInPage(ps: seq<Page>, end: int, i: nat) returns (j: nat)
    requires i < |Counted(ps, end)|
    ensures j < |ps| && ps[j].va < end && ps[j].va <= Counted(ps, end)[i].va < PageEnd(ps[j])
  {
    var front, p := ps[..|ps| - 1], ps[|ps| - 1];
    if i < |Counted(front, end)| {
      j := CallInPage(front, end, i);
    } else {
      j := |front|;
      ItemRises(p, end);
      if p.va >= end {
        ItemBeyond(p.t, p.va, end);
      }
    }
  }

  // ----- A page is counted once -----

  /** The calls come in ascending order, at or above lo and below hi. */
  predicate Rising(refs: seq<Ref>, lo: int, hi: int) {
    && (forall i :: 0 <= i < |refs| ==> lo <= refs[i].va < hi)
    && (forall i, j :: 0 <= i < j < |refs| ==> refs[i].va < refs[j].va)
  }

  lemma RisingAppend(a: seq<Ref>, b: seq<Ref>, lo: int, mid: int, hi: int)
    requires Rising(a, lo, mid) && Rising(b, mid, hi) && lo <= mid <= hi
    ensures Rising(a + b, lo, hi)
  {
  }

  lemma {:induction false} RunRises(t: PageType, nr: nat, va: int, end: int, hi: int)
    requires PageSize(t) > 0 && hi == va + PageSize(t) * nr
    ensures Rising(RunRefs(t, nr, va, end), va, hi) && va <= hi
  {
    if nr > 0 {
      var last := va + PageSize(t) * (nr - 1);
      Distribute(nr, 1, PageSize(t));
      RunRises(t, nr - 1, va, end, last);
      OneRises(t, nr, va, end, last, hi);
    }
  }

  lemma OneRises(t: PageType, nr: nat, va: int, end: int, last: int, hi: int)
    requires nr > 0 && PageSize(t) > 0 && last == va + PageSize(t) * (nr - 1) && hi == last + PageSize(t) && va <= last
    requires Rising(RunRefs(t, nr - 1, va, end), va, last)
    ensures Rising(RunRefs(t, nr, va, end), va, hi)
  {
    RisingAppend(RunRefs(t, nr - 1, va, end), OneRef(t, last, end), va, last, hi);
  }

  lemma ItemRises(p: Page, end: int)
    ensures Rising(ItemRefs(p.t, 1, p.va, end), p.va, PageEnd(p))
  {
    if p.t == PMD_IDLE_PTES {
      RunRises(PTE_IDLE, 512, p.va, end, PageEnd(p));
    } else if p.t < PMD_IDLE_PTES {
      RunRises(p.t, 1, p.va, end, PageEnd(p));
    }
  }

  /** One walk of pages that follow each other makes its calls in strictly ascending order: no page
      is counted twice. */
  lemma {:induction false} CountedRises(ps: seq<Page>, lo: int, v: int, end: int)
    requires Ascending(ps) && EndBy(ps, v) && (ps == [] || lo <= ps[0].va) && lo <= v
    requires Spans(ps)
    ensures Rising(Counted(ps, end), lo, v)
  {
    if ps != [] {
      var ps', p := ps[..|ps| - 1], ps[|ps| - 1];
      assert ps' != [] ==> ps'[0] == ps[0] && PageEnd(ps[0]) <= p.va;
      CountedRises(ps', lo, p.va, end);
      ItemRises(p, end);
      RisingAppend(Counted(ps', end), ItemRefs(p.t, 1, p.va, end), lo, p.va, PageEnd(p));
    }
  }

  /** The calls for addresses from lo to hi - 1. */
  function RefsIn(refs: seq<Ref>, lo: int, hi: int): seq<Ref> {
    if refs == [] then []
    else
      var last := refs[|refs| - 1];
      RefsIn(refs[..|refs| - 1], lo, hi) + if lo <= last.va < hi then [last] else []
  }

  lemma {:induction false} RefsInAppend(a: seq<Ref>, b: seq<Ref>, lo: int, hi: int)
    ensures RefsIn(a + b, lo, hi) == RefsIn(a, lo, hi) + RefsIn(b, lo, hi)
  {
    if b == [] {
      assert a + b == a;
    } else {
      var b', last := b[..|b| - 1], b[|b| - 1];
      RefsInAppend(a, b', lo, hi);
      assert (a + b)[..|a + b| - 1] == a + b';
    }
  }

  lemma {:induction false} RefsOutside(refs: seq<Ref>, lo: int, hi: int)
    requires forall i :: 0 <= i < |refs| ==> refs[i].va < lo || hi <= refs[i].va
    ensures RefsIn(refs, lo, hi) == []
  {
    if refs != [] {
      RefsOutside(refs[..|refs| - 1], lo, hi);
    }
  }

  lemma {:induction false} RefsInside(refs: seq<Ref>, lo: int, hi: int)
    requires Rising(refs, lo, hi)
    ensures RefsIn(refs, lo, hi) == refs
  {
    if refs != [] {
      RefsInside(refs[..|refs| - 1], lo, hi);
    }
  }

  /** Within a listed page exactly the page's own calls are made. */
  lemma {:induction false} OwnRefs(ps: seq<Page>, i: nat, end: int)
    requires Ascending(ps) && Spans(ps) && i < |ps|
    ensures RefsIn(Counted(ps, end), ps[i].va, PageEnd(ps[i])) == ItemRefs(ps[i].t, 1, ps[i].va, end)
  {
    var ps', p := ps[..|ps| - 1], ps[|ps| - 1];
    if i < |ps'| {
      OwnRefs(ps', i, end);
      RefsOfOther(Counted(ps', end), p, ps[i].va, PageEnd(ps[i]), end);
    } else {
      RefsBefore(ps', p.va, end);
      RefsOfLast(Counted(ps', end), p, end);
    }
  }

  lemma RefsOfOther(refs: seq<Ref>, p: Page, lo: int, hi: int, end: int)
    requires hi <= p.va
    ensures RefsIn(refs + ItemRefs(p.t, 1, p.va, end), lo, hi) == RefsIn(refs, lo, hi)
  {
    ItemRises(p, end);
    RefsInAppend(refs, ItemRefs(p.t, 1, p.va, end), lo, hi);
    RefsOutside(ItemRefs(p.t, 1, p.va, end), lo, hi);
  }

  lemma RefsOfLast(refs: seq<Ref>, p: Page, end: int)
    requires forall i :: 0 <= i < |refs| ==> refs[i].va < p.va
    ensures RefsIn(refs + ItemRefs(p.t, 1, p.va, end), p.va, PageEnd(p)) == ItemRefs(p.t, 1, p.va, end)
  {
    ItemRises(p, end);
    RefsInAppend(refs, ItemRefs(p.t, 1, p.va, end), p.va, PageEnd(p));
    RefsOutside(refs, p.va, PageEnd(p));
    RefsInside(ItemRefs(p.t, 1, p.va, end), p.va, PageEnd(p));
  }

  lemma {:induction false} RefsBefore(ps: seq<Page>, v: int, end: int)
    requires EndBy(ps, v)
    ensures forall i :: 0 <= i < |Counted(ps, end)| ==> Counted(ps, end)[i].va < v
  {
    if ps != [] {
      var p := ps[|ps| - 1];
      RefsBefore(ps[..|ps| - 1], v, end);
      ItemRises(p, end);
    }
  }

  /** Within a page of `size` bytes the one call is made that adds n to the page's entry in the address
      sequence `index`, if the page lies below `end` at a multiple of its size, and none otherwise. */
  predicate OneCall(refs: seq<Ref>, va: int, end: int, index: PageType, size: nat, n: nat)
    requires size > 0
  {
    RefsIn(refs, va, va + size) == if va < end && va % size == 0 then [Ref(index, va, n)] else []
  }

  /** What each type of page is worth: accessed pages and those of 1 GB count 1, dirty ones 3, idle ones
      0, in the sequence of their size. */
  lemma CountedOnceExactly(ps: seq<Page>, i: nat, end: int)
    requires Ascending(ps) && Spans(ps) && i < |ps|
    ensures ps[i].t == PTE_ACCESSED ==> OneCall(Counted(ps, end), ps[i].va, end, PTE_ACCESSED, 0x1000, 1)
    ensures ps[i].t == PMD_ACCESSED ==> OneCall(Counted(ps, end), ps[i].va, end, PMD_ACCESSED, 0x20_0000, 1)
    ensures ps[i].t == PUD_PRESENT ==> OneCall(Counted(ps, end), ps[i].va, end, PUD_PRESENT, 0x4000_0000, 1)
    ensures ps[i].t == PTE_DIRTY ==> OneCall(Counted(ps, end), ps[i].va, end, PTE_ACCESSED, 0x1000, 3)
    ensures ps[i].t == PMD_DIRTY ==> OneCall(Counted(ps, end), ps[i].va, end, PMD_ACCESSED, 0x20_0000, 3)
    ensures ps[i].t == PTE_IDLE ==> OneCall(Counted(ps, end), ps[i].va, end, PTE_ACCESSED, 0x1000, 0)
    ensures ps[i].t == PMD_IDLE ==> OneCall(Counted(ps, end), ps[i].va, end, PMD_ACCESSED, 0x20_0000, 0)
  {
    var t := ps[i].t;
    if t == PTE_ACCESSED {
      OneOf(ps, i, end, PTE_ACCESSED, 0x1000, 1);
    } else if t == PMD_ACCESSED {
      OneOf(ps, i, end, PMD_ACCESSED, 0x20_0000, 1);
    } else if t == PUD_PRESENT {
      OneOf(ps, i, end, PUD_PRESENT, 0x4000_0000, 1);
    } else if t == PTE_DIRTY {
      OneOf(ps, i, end, PTE_ACCESSED, 0x1000, 3);
    } else if t == PMD_DIRTY {
      OneOf(ps, i, end, PMD_ACCESSED, 0x20_0000, 3);
    } else if t == PTE_IDLE {
      OneOf(ps, i, end, PTE_ACCESSED, 0x1000, 0);
    } else if t == PMD_IDLE {
      OneOf(ps, i, end, PMD_ACCESSED, 0x20_0000, 0);
    }
  }

  lemma OneOf(ps: seq<Page>, i: nat, end: int, index: PageType, size: nat, n: nat)
    requires Ascending(ps) && Spans(ps) && i < |ps| && ps[i].t < PMD_IDLE_PTES
    requires size == PageSize(ps[i].t) && index == PageIndex(ps[i].t) && n == Weight(ps[i].t)
    ensures OneCall(Counted(ps, end), ps[i].va, end, index, size, n)
  {
    OwnRefs(ps, i, end);
    OneRefOnly(ps[i].t, ps[i].va, end);
  }

  lemma OneRefOnly(t: PageType, va: int, end: int)
    requires t < PMD_IDLE_PTES
    ensures ItemRefs(t, 1, va, end)
            == if va < end && va % PageSize(t) == 0 then [Ref(PageIndex(t), va, Weight(t))] else []
  {
    assert RunRefs(t, 1, va, end) == RunRefs(t, 0, va, end) + OneRef(t, va + PageSize(t) * 0, end);
  }

  /** m of nr pages from va on begin below `end`. */
  predicate Below(m: nat, nr: nat, va: int, size: nat, end: int) {
    m <= nr && (m > 0 ==> va + size * (m - 1) < end) && (m < nr ==> va + size * m >= end)
  }

  /** The calls for the first m of the pages from va on. */
  predicate AreCalls(refs: seq<Ref>, m: nat, index: PageType, va: int, size: nat, n: nat) {
    |refs| == m && forall k :: 0 <= k < m ==> refs[k] == Ref(index, va + size * k, n)
  }

  lemma {:induction false} RunRefsAre(t: PageType, nr: nat, va: int, end: int, index: PageType, size: nat, n: nat)
    returns (m: nat)
    requires size == PageSize(t) > 0 && index == PageIndex(t) && n == Weight(t)
    ensures Below(m, nr, va, size, end) && AreCalls(RunRefs(t, nr, va, end), m, index, va, size, n)
  {
    m := 0;
    if nr > 0 {
      m := RunRefsAre(t, nr - 1, va, end, index, size, n);
      if m == nr - 1 && va + size * (nr - 1) < end {
        m := nr;
      } else {
        MulMonotone(size, m, nr - 1);
      }
    }
  }

  /** The calls inc_page_refs makes for nr pages of 4 KB: one a page below `end`, in order. */
  lemma SmallRunCalls(t: PageType, nr: nat, va: int, end: int, n: nat) returns (m: nat)
    requires va % 0x1000 == 0
    requires (t == PTE_ACCESSED && n == 1) || (t == PTE_DIRTY && n == 3) || (t == PTE_IDLE && n == 0)
    ensures Below(m, nr, va, 0x1000, end) && AreCalls(IncRefs(t, nr, va, end), m, PTE_ACCESSED, va, 0x1000, n)
  {
    m := RunRefsAre(t, nr, va, end, PTE_ACCESSED, 0x1000, n);
  }

  /** The same for pages of 2 MB. */
  lemma LargeRunCalls(t: PageType, nr: nat, va: int, end: int, n: nat) returns (m: nat)
    requires va % 0x20_0000 == 0
    requires (t == PMD_ACCESSED && n == 1) || (t == PMD_DIRTY && n == 3) || (t == PMD_IDLE && n == 0)
    ensures Below(m, nr, va, 0x20_0000, end) && AreCalls(IncRefs(t, nr, va, end), m, PMD_ACCESSED, va, 0x20_0000, n)
  {
    m := RunRefsAre(t, nr, va, end, PMD_ACCESSED, 0x20_0000, n);
  }

  /** A run of idle 4 KB pages in 2 MB, reported as one item, is counted page by page if it lies at a
      multiple of 4 KB. */
  lemma SmallPagesCounted(ps: seq<Page>, i: nat, end: int) returns (m: nat)
    requires Ascending(ps) && Spans(ps) && i < |ps|
    requires ps[i].t == PMD_IDLE_PTES
    ensures ps[i].va % 0x1000 == 0 ==>
              && Below(m, 512, ps[i].va, 0x1000, end)
              && AreCalls(RefsIn(Counted(ps, end), ps[i].va, PageEnd(ps[i])), m, PTE_ACCESSED, ps[i].va, 0x1000, 0)
    ensures ps[i].va % 0x1000 != 0 ==> RefsIn(Counted(ps, end), ps[i].va, PageEnd(ps[i])) == []
  {
    OwnRefs(ps, i, end);
    m := 0;
    if ps[i].va % 0x1000 == 0 {
      m := SmallRunCalls(PTE_IDLE, 512, ps[i].va, end, 0);
    }
  }

  /** A 2 MB page at an address that is no multiple of 2 MB. */
  lemma UnalignedNotCounted(end: int)
    ensures Counted([Page(PAGE_SIZE, PMD_ACCESSED)], end) == []
  {
    OneRefOnly(PMD_ACCESSED, PAGE_SIZE, end);
    CountedSnoc([], Page(PAGE_SIZE, PMD_ACCESSED), end);
    assert [] + [Page(PAGE_SIZE, PMD_ACCESSED)] == [Page(PAGE_SIZE, PMD_ACCESSED)];
  }
}
