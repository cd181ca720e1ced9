/** Lists of reported pages against the pages an address space holds. */
module PageList {
  import opened IdleStream
  import opened EptEncoder

  datatype Extent = Extent(base: int, size: nat)

  /** The page, if any, that each address belongs to. */
  type Layout = nat -> Option<Extent>

  function PageEnd(p: Page): int { p.va + PageSize(p.t) }

  function ExtentOf(p: Page): Extent { Extent(p.va, PageSize(p.t)) }

  predicate Holds(f: Layout, x: nat) { f(x).Some? }

  /** p is a page that ends in (a, h], and its last address shows it. */
  predicate Meets(f: Layout, p: Page, a: nat, h: nat) {
    0 <= p.va < PageEnd(p) && a < PageEnd(p) <= h && f(PageEnd(p) - 1) == Some(ExtentOf(p))
  }

  predicate Listed(ps: seq<Page>, e: Extent) {
    exists i :: 0 <= i < |ps| && ExtentOf(ps[i]) == e
  }

  predicate Ascending(ps: seq<Page>) {
    forall i, j :: 0 <= i < j < |ps| ==> PageEnd(ps[i]) <= ps[j].va
  }

  /** `ps` lists every page that meets [a, h), each once and in ascending order, and nothing else. */
  predicate IsPageList(f: Layout, ps: seq<Page>, a: nat, h: nat) {
    && Ascending(ps)
    && (forall i :: 0 <= i < |ps| ==> Meets(f, ps[i], a, h))
    && (forall x: nat {:trigger Holds(f, x)} :: a <= x < h && Holds(f, x) ==> Listed(ps, f(x).value))
  }

  predicate NoPage(f: Layout, a: nat, h: nat) {
    forall x: nat :: a <= x < h ==> f(x) == None
  }

  /** From h to its end, the page e is all there is. */
  predicate OnePage(f: Layout, h: nat, e: Extent) {
    forall x: nat :: h <= x < e.base + e.size ==> f(x) == Some(e)
  }

  lemma ExtendHole(f: Layout, ps: seq<Page>, a: nat, h: nat, h': nat)
    requires IsPageList(f, ps, a, h) && h <= h' && NoPage(f, h, h')
    ensures IsPageList(f, ps, a, h')
  {
  }

  /** The listed items end at or before x. */
  predicate EndBy(ps: seq<Page>, x: int) {
    forall i :: 0 <= i < |ps| ==> PageEnd(ps[i]) <= x
  }

  lemma ListEnds(f: Layout, ps: seq<Page>, a: nat, h: nat)
    requires IsPageList(f, ps, a, h)
    ensures EndBy(ps, h)
  {
    forall i | 0 <= i < |ps| ensures PageEnd(ps[i]) <= h {
      assert Meets(f, ps[i], a, h);
    }
  }

  /** A page behind all listed ones. */
  lemma ExtendPage(f: Layout, ps: seq<Page>, a: nat, h: nat, p: Page)
    requires IsPageList(f, ps, a, h) && a <= h && 0 <= p.va <= h < PageEnd(p)
    requires EndBy(ps, p.va) && OnePage(f, h, ExtentOf(p))
    ensures IsPageList(f, ps + [p], a, PageEnd(p))
  {
    var qs, h' := ps + [p], PageEnd(p);
    forall i | 0 <= i < |qs| ensures Meets(f, qs[i], a, h') {
      if i < |ps| {
        assert Meets(f, ps[i], a, h);
      }
    }
    forall x: nat {:trigger Holds(f, x)} | a <= x < h' && Holds(f, x) ensures Listed(qs, f(x).value) {
      if x < h {
        assert Listed(ps, f(x).value);
        var i :| 0 <= i < |ps| && ExtentOf(ps[i]) == f(x).value;
        assert qs[i] == ps[i];
      } else {
        assert qs[|ps|] == p;
      }
    }
  }

  /** The end of a listed range may be moved down to any point behind the last page. */
  lemma ShrinkHole(f: Layout, ps: seq<Page>, a: nat, h: nat, h': nat)
    requires IsPageList(f, ps, a, h) && a < h' <= h
    requires ps != [] ==> PageEnd(ps[|ps| - 1]) <= h'
    ensures IsPageList(f, ps, a, h')
  {
    forall i | 0 <= i < |ps| ensures Meets(f, ps[i], a, h') {
      assert Meets(f, ps[i], a, h);
      assert i < |ps| - 1 ==> PageEnd(ps[i]) <= ps[|ps| - 1].va;
    }
  }

  /** The page listed at n by `ps` stands at n or earlier in any list that agrees before n. */
  lemma PageListNext(f: Layout, ps: seq<Page>, qs: seq<Page>, a: nat, h: nat, n: nat)
    requires n < |ps| && IsPageList(f, ps, a, h) && IsPageList(f, qs, a, h)
    requires forall i :: 0 <= i < n && i < |qs| ==> ExtentOf(ps[i]) == ExtentOf(qs[i])
    ensures n < |qs| && (ExtentOf(qs[n]) == ExtentOf(ps[n]) || qs[n].va < ps[n].va)
  {
    var p := ps[n];
    assert Meets(f, p, a, h);
    assert Holds(f, PageEnd(p) - 1);
    var i :| 0 <= i < |qs| && ExtentOf(qs[i]) == ExtentOf(p);
    NotBefore(ps, i, n);
    assert n < |qs| ==> Meets(f, qs[n], a, h);
    assert n < i ==> PageEnd(qs[n]) <= qs[i].va;
  }

  lemma NotBefore(ps: seq<Page>, i: nat, n: nat)
    requires Ascending(ps) && n < |ps| && ps[n].va < PageEnd(ps[n])
    ensures i < n ==> ExtentOf(ps[i]) != ExtentOf(ps[n])
  {
  }

  /** Lists of one range agree: addresses, sizes and order of the reported pages are determined by
      the layout. */
  lemma {:induction false} PageListUnique(f: Layout, ps: seq<Page>, qs: seq<Page>, a: nat, h: nat, n: nat)
    requires n <= |ps| && IsPageList(f, ps, a, h) && IsPageList(f, qs, a, h)
    ensures n <= |qs| && forall i :: 0 <= i < n ==> ExtentOf(ps[i]) == ExtentOf(qs[i])
  {
    if n > 0 {
      PageListUnique(f, ps, qs, a, h, n - 1);
      PageListNext(f, ps, qs, a, h, n - 1);
      PageListNext(f, qs, ps, a, h, n - 1);
    }
  }

  /** Every address of a page shows that page. */
  ghost predicate Consistent(f: Layout) {
    forall x: nat {:trigger Holds(f, x)} :: Holds(f, x) ==> ConsistentAt(f, x)
  }

  ghost predicate ConsistentAt(f: Layout, x: nat)
    requires Holds(f, x)
  {
    var e := f(x).value;
    && 0 <= e.base <= x < e.base + e.size
    && forall y: nat :: e.base <= y < e.base + e.size ==> f(y) == Some(e)
  }

  /** m shows nothing but what f does. */
  ghost predicate Under(m: Layout, f: Layout) {
    forall x: nat {:trigger Holds(m, x)} :: Holds(m, x) ==> m(x) == f(x)
  }

  /** The pages listed up to h end where a page that holds h begins, or before. */
  lemma ListedBefore(m: Layout, f: Layout, ps: seq<Page>, a: nat, h: nat, p: Page)
    requires Consistent(f) && Under(m, f) && IsPageList(m, ps, a, h)
    requires 0 <= p.va < PageEnd(p) && h < PageEnd(p) && f(PageEnd(p) - 1) == Some(ExtentOf(p))
    ensures EndBy(ps, p.va)
  {
    forall i | 0 <= i < |ps| ensures PageEnd(ps[i]) <= p.va {
      assert Meets(m, ps[i], a, h);
      var x := PageEnd(ps[i]) - 1;
      assert Holds(m, x) && Holds(f, PageEnd(p) - 1);
    }
  }

  /** Lists of two ranges that follow each other make up one list. */
  lemma JoinLists(m: Layout, f: Layout, ps: seq<Page>, qs: seq<Page>, a: nat, v: nat, h: nat)
    requires Consistent(f) && Under(m, f) && a < v <= h && IsPageList(m, ps, a, v) && IsPageList(m, qs, v, h)
    ensures IsPageList(m, ps + qs, a, h)
  {
    var rs := ps + qs;
    forall i | 0 <= i < |qs| ensures EndBy(ps, qs[i].va) && Meets(m, qs[i], a, h) {
      assert Meets(m, qs[i], v, h) && Holds(m, PageEnd(qs[i]) - 1);
      ListedBefore(m, f, ps, a, v, qs[i]);
    }
    forall i | 0 <= i < |rs| ensures Meets(m, rs[i], a, h) {
      assert i < |ps| ==> Meets(m, ps[i], a, v);
    }
    forall i, j | 0 <= i < j < |rs| ensures PageEnd(rs[i]) <= rs[j].va {
      assert i >= |ps| ==> rs[i] == qs[i - |ps|];
      assert j >= |ps| ==> rs[j] == qs[j - |ps|];
    }
    forall x: nat {:trigger Holds(m, x)} | a <= x < h && Holds(m, x) ensures Listed(rs, m(x).value) {
      if x < v {
        var i :| 0 <= i < |ps| && ExtentOf(ps[i]) == m(x).value;
        assert rs[i] == ps[i];
      } else {
        var i :| 0 <= i < |qs| && ExtentOf(qs[i]) == m(x).value;
        assert rs[|ps| + i] == qs[i];
      }
    }
  }

  /** A list depends on the range's part of the layout only. */
  lemma SameList(m: Layout, m': Layout, ps: seq<Page>, a: nat, h: nat)
    requires IsPageList(m, ps, a, h) && forall x: nat {:trigger Holds(m', x)} :: a <= x < h ==> m(x) == m'(x)
    ensures IsPageList(m', ps, a, h)
  {
    forall i | 0 <= i < |ps| ensures Meets(m', ps[i], a, h) {
      assert Meets(m, ps[i], a, h) && Holds(m', PageEnd(ps[i]) - 1) == Holds(m, PageEnd(ps[i]) - 1);
    }
    forall x: nat {:trigger Holds(m', x)} | a <= x < h && Holds(m', x) ensures Listed(ps, m'(x).value) {
      assert Holds(m, x);
    }
  }

  // ----- The stream's progress through a layout -----

  /** Everything up to address h is reported, by the items `before` and the buffer together, and the
      reader is in step and only moves forward. */
  predicate UpTo(f: Layout, c: Ctrl, before: seq<Page>, a: nat, h: nat) {
    && InSync(c) && ValidTokens(c.tokens) && WithinLimit(c)
    && a <= h && c.nextHva <= h && c.nextHva % PAGE_SIZE == 0 && (c.tokens != [] ==> a < c.nextHva)
    && IsPageList(f, Present(before) + Seen(c.tokens), a, h)
    && Forward(before + Items(c.tokens), c.nextHva)
  }

  predicate OnPages(ps: seq<Page>) {
    forall i :: 0 <= i < |ps| ==> ps[i].va % PAGE_SIZE == 0
  }

  /** The items start before x. */
  predicate StartBefore(ps: seq<Page>, x: int) {
    forall i :: 0 <= i < |ps| ==> ps[i].va < x
  }

  /** The starts of the items strictly rise. */
  predicate Rise(ps: seq<Page>) {
    forall i, j :: 0 <= i < j < |ps| ==> ps[i].va < ps[j].va
  }

  predicate Sized(ps: seq<Page>) {
    forall i :: 0 <= i < |ps| ==> PageSize(ps[i].t) > 0
  }

  /** The pages among the items, holes left out, end at or before x. */
  predicate PagesBy(ps: seq<Page>, x: int) {
    forall i :: 0 <= i < |ps| && !IsHole(ps[i].t) ==> PageEnd(ps[i]) <= x
  }

  /** Every page ends before the next item starts. */
  predicate PagesApart(ps: seq<Page>) {
    forall i, j :: 0 <= i < j < |ps| && !IsHole(ps[i].t) ==> PageEnd(ps[i]) <= ps[j].va
  }

  /** The items start at page boundaries, one after the other, and end at or before v. */
  predicate Forward(ps: seq<Page>, v: int) {
    Rise(ps) && OnPages(ps) && Sized(ps) && EndBy(ps, v) && PagesApart(ps)
  }

  lemma ForwardSnoc(ps: seq<Page>, v: int, p: Page)
    requires Forward(ps, v) && StartBefore(ps, p.va) && PagesBy(ps, p.va) && v <= PageEnd(p)
    requires p.va % PAGE_SIZE == 0 && PageSize(p.t) > 0
    ensures Forward(ps + [p], PageEnd(p))
  {
  }

  lemma ForwardNext(ps: seq<Page>, v: int, p: Page, ps': seq<Page>, v': int)
    requires Forward(ps, v) && StartBefore(ps, p.va) && PagesBy(ps, p.va) && v <= PageEnd(p)
    requires p.va % PAGE_SIZE == 0 && PageSize(p.t) > 0 && ps' == ps + [p] && v' == PageEnd(p)
    ensures Forward(ps', v')
  {
    ForwardSnoc(ps, v, p);
  }

  lemma ForwardStarts(ps: seq<Page>, v: int, x: int)
    requires Forward(ps, v) && v <= x
    ensures StartBefore(ps, x)
  {
  }

  /** The pages among forward items end at or before v, too. */
  lemma {:induction false} PresentEnds(ps: seq<Page>, v: int)
    requires EndBy(ps, v)
    ensures EndBy(Present(ps), v)
  {
    if ps != [] {
      PresentEnds(ps[..|ps| - 1], v);
    }
  }

  lemma {:induction false} PresentBy(ps: seq<Page>, x: int)
    requires EndBy(Present(ps), x)
    ensures PagesBy(ps, x)
  {
    if ps != [] {
      var front, p := ps[..|ps| - 1], ps[|ps| - 1];
      assert forall i :: 0 <= i < |Present(front)| ==> Present(ps)[i] == Present(front)[i];
      PresentBy(front, x);
      assert !IsHole(p.t) ==> Present(ps)[|Present(front)|] == p;
    }
  }

  lemma PagesByAppend(ps: seq<Page>, qs: seq<Page>, x: int)
    requires EndBy(Present(ps) + Present(qs), x)
    ensures PagesBy(ps + qs, x)
  {
    PresentAppend(ps, qs);
    PresentBy(ps + qs, x);
  }

  /** c' lists the entry at va in addition to what c lists. */
  predicate Extended(c: Ctrl, c': Ctrl, va: int, t: ItemType) {
    && InSync(c') && ValidTokens(c'.tokens) && WithinLimit(c') && c'.tokens != []
    && c'.nextHva == va + PageSize(t) && Items(c'.tokens) == Items(c.tokens) + [Page(va, t)]
    && Seen(c'.tokens) == Seen(c.tokens) + IfPresent(Page(va, t))
  }

  lemma PushedExtends(c: Ctrl, c': Ctrl, g: nat, t: ItemType, va: int)
    requires InSync(c) && ValidTokens(c.tokens) && WithinLimit(c)
    requires !NoRoom(c, g, t) && !Merges(c, g, t) && !Overruns(c, g, t)
    requires va == ReportedVa(c, g, t) && 0 <= va < U64_RANGE
    requires c'.tokens == Pushed(c, g, t) && c'.pieReadMax == c.pieReadMax && c'.nextHva == va + PageSize(t)
    ensures Extended(c, c', va, t)
  {
    PushedMeaning(c, g, t);
    PushedSound(c, c', g, t, va);
    if c.pieReadMax >= 0 {
      PushedSize(c, g, t);
    }
  }

  lemma FirstFits(c: Ctrl, addr: int, t: ItemType)
    requires LimitOk(c.pieReadMax) && c.tokens == []
    ensures !NoRoom(c, addr, t) && !Overruns(c, addr, t)
  {
    SizeSnoc([], SetHva(RoundDown(addr, t) + c.gpaToHva));
    SizeSnoc([] + [SetHva(RoundDown(addr, t) + c.gpaToHva)], Run(t, 1));
  }

  /** A call for a piece from g on of the block at `base`, for a hole that is merged. */
  lemma MergedMoves(c: Ctrl, g: nat, t: ItemType, base: int, next: int) returns (r: Added)
    requires base == RoundDown(g, t) && base <= g < next <= base + PageSize(t) && Merges(c, g, t)
    ensures r == AddPage(c, g, next, t) && r == Added(c.(restartGpa := base + PageSize(t)), false)
  {
    RoundUpInBlock(g, next, t);
    r := AddPage(c, g, next, t);
  }

  /** The same for any other entry: refused only with something in the buffer, else the block is
      listed and the restart point is its end. */
  lemma AddPageExtends(c: Ctrl, g: nat, t: ItemType, base: int, next: int, va: int) returns (r: Added)
    requires InSync(c) && ValidTokens(c.tokens) && WithinLimit(c) && LimitOk(c.pieReadMax)
    requires base == RoundDown(g, t) && base <= g < next <= base + PageSize(t) && !Merges(c, g, t)
    requires c.tokens == [] || g == base
    requires va == base + c.gpaToHva && 0 <= va < U64_RANGE
    ensures r == AddPage(c, g, next, t)
    ensures r.full ==> r.ctrl == c.(restartGpa := g, overrun := r.ctrl.overrun) && c.tokens != []
    ensures !r.full ==> Extended(c, r.ctrl, va, t)
    ensures !r.full ==> r.ctrl == c.(tokens := r.ctrl.tokens, nextHva := r.ctrl.nextHva,
                                     restartGpa := base + PageSize(t))
  {
    RoundUpInBlock(g, next, t);
    r := AddPage(c, g, next, t);
    ReportedAtBase(c, g, t);
    if c.tokens == [] {
      FirstFits(c, g, t);
    }
    if !r.full {
      PushedExtends(c, r.ctrl, g, t, va);
    }
  }

  lemma EmptyItems()
    ensures Items([]) == [] && Seen([]) == []
  {
    assert Present([]) == [];
  }

  lemma ForwardExtended(c: Ctrl, c': Ctrl, before: seq<Page>, va: int, t: ItemType)
    requires Forward(before + Items(c.tokens), c.nextHva) && Extended(c, c', va, t)
    requires va % PAGE_SIZE == 0 && StartBefore(before + Items(c.tokens), va) && c.nextHva <= va + PageSize(t)
    requires EndBy(Present(before) + Seen(c.tokens), va)
    ensures Forward(before + Items(c'.tokens), c'.nextHva)
  {
    var all, p := before + Items(c.tokens), Page(va, t);
    PagesByAppend(before, Items(c.tokens), va);
    Associative(before, Items(c.tokens), [p]);
    ForwardNext(all, c.nextHva, p, before + Items(c'.tokens), c'.nextHva);
  }

  lemma ListExtended(f: Layout, ps: seq<Page>, ps': seq<Page>, a: nat, h: nat, p: Page, h': nat)
    requires IsPageList(f, ps, a, h) && ps' == ps + IfPresent(p)
    requires a <= h < h' == PageEnd(p) && 0 <= p.va <= h
    requires IsHole(p.t) ==> NoPage(f, h, h')
    requires !IsHole(p.t) ==> EndBy(ps, p.va) && OnePage(f, h, ExtentOf(p))
    ensures IsPageList(f, ps', a, h')
  {
    if IsHole(p.t) {
      assert ps' == ps;
      ExtendHole(f, ps, a, h, h');
    } else {
      ExtendPage(f, ps, a, h, p);
    }
  }

  /** Listing the entry of the block that holds h moves the report to the end of the block. */
  lemma ExtendedUpTo(f: Layout, c: Ctrl, c': Ctrl, before: seq<Page>, a: nat, h: nat, va: nat, t: ItemType,
                     h': nat)
    requires UpTo(f, c, before, a, h) && Extended(c, c', va, t) && va <= h < h' == va + PageSize(t)
    requires va % PAGE_SIZE == 0 && h' % PAGE_SIZE == 0 && StartBefore(before + Items(c.tokens), va)
    requires IsHole(t) ==> NoPage(f, h, h')
    requires EndBy(Present(before) + Seen(c.tokens), va)
    requires !IsHole(t) ==> OnePage(f, h, Extent(va, PageSize(t)))
    ensures UpTo(f, c', before, a, h')
  {
    ForwardExtended(c, c', before, va, t);
    ExtendedList(f, c, c', before, a, h, va, t, h');
    assert c'.nextHva == h';
  }

  lemma ExtendedList(f: Layout, c: Ctrl, c': Ctrl, before: seq<Page>, a: nat, h: nat, va: nat, t: ItemType,
                     h': nat)
    requires IsPageList(f, Present(before) + Seen(c.tokens), a, h)
    requires Seen(c'.tokens) == Seen(c.tokens) + IfPresent(Page(va, t)) && a <= h && va <= h < h' == va + PageSize(t)
    requires IsHole(t) ==> NoPage(f, h, h')
    requires !IsHole(t) ==> EndBy(Present(before) + Seen(c.tokens), va) && OnePage(f, h, Extent(va, PageSize(t)))
    ensures IsPageList(f, Present(before) + Seen(c'.tokens), a, h')
  {
    Associative(Present(before), Seen(c.tokens), IfPresent(Page(va, t)));
    ListExtended(f, Present(before) + Seen(c.tokens), Present(before) + Seen(c'.tokens), a, h, Page(va, t), h');
  }

  /** A skipped directory entry or a merged hole only moves the restart point. */
  lemma SkippedUpTo(f: Layout, c: Ctrl, c': Ctrl, before: seq<Page>, a: nat, h: nat, h': nat)
    requires UpTo(f, c, before, a, h) && h <= h' && NoPage(f, h, h')
    requires c' == c.(restartGpa := c'.restartGpa)
    ensures UpTo(f, c', before, a, h')
  {
    ExtendHole(f, Present(before) + Seen(c.tokens), a, h, h');
  }
}
