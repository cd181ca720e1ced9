/** The walk of one memory slot reports the pages it examines. */
module EptReports {
  import opened Arith
  import opened IdleStream
  import opened EptEncoder
  import opened PageList
  import opened EptWalk
  import opened EptLayout
  import PT = PageTable

  /** Where one block ends, the next one starts. */
  lemma NextBlockStarts(root: PT.View, g: nat)
    requires PT.Tiled(root)
    ensures Start(root, End(root, g)) == End(root, g)
  {
    var next := End(root, g);
    var s2 := Start(root, next);
    if s2 < next {
      assert root(next - 1) == root(g) && root(next - 1) == root(next);
      var size := PT.BlockSize(root(g).level);
      MulMod(size, 1);
      ModAdd(Start(root, g), size, size);
      SameMultiple(s2, next, size);
      assert false;
    }
  }

  /** The buffer and the items before it list everything up to guest address g of slot s. */
  predicate Walking(vm: Vm, s: Slot, c: Ctrl, before: seq<Page>, a: nat, g: nat) {
    && s.gpa <= g && c.gpaToHva == s.hva - s.gpa && LimitOk(c.pieReadMax)
    && UpTo(Shown(vm, a), c, before, a, s.Hva(g)) && StartBefore(before + Items(c.tokens), s.hva + s.size)
  }

  /** The walk may go on at g: at the start of a block, or with an empty buffer and nothing of this
      slot listed. */
  predicate Ready(vm: Vm, s: Slot, c: Ctrl, before: seq<Page>, a: nat, g: nat) {
    && Walking(vm, s, c, before, a, g) && g < s.gpa + s.size
    && (Start(vm.root, g) == g || (c.tokens == [] && StartBefore(before, s.hva)))
  }

  /** Where a walk of the slot that is done with the entry of g goes on. */
  function After(root: PT.View, s: Slot, g: nat): (g': nat)
    requires g < s.gpa + s.size && s.size > 0
    ensures g < g'
  {
    var next := PT.AddrEnd(root(g).level, g, s.gpa + s.size);
    if next < s.gpa + s.size then next else Over(root, s)
  }

  /** A reported entry, and only it, moves the walk to the end of its block even where that is
      behind the slot. */
  lemma AfterIs(root: PT.View, s: Slot, g: nat)
    requires PT.Tiled(root) && s.size > 0 && s.gpa <= g < s.gpa + s.size
    ensures Reportable(root(g)) ==> After(root, s, g) == End(root, g)
    ensures !Reportable(root(g)) ==> After(root, s, g) == PT.AddrEnd(root(g).level, g, s.gpa + s.size)
    ensures After(root, s, g) < s.gpa + s.size ==> After(root, s, g) == End(root, g)
  {
    var last := s.gpa + s.size - 1;
    if End(root, g) > last {
      assert root(last) == root(g);
      PT.SameBlock(root(g).level, g, last);
    }
  }

  lemma Sizes()
    ensures PT.BlockSize(0) == PAGE_SIZE && PT.BlockSize(1) == PMD_SIZE && PT.BlockSize(2) == PUD_SIZE
  {
  }

  /** The type of a reported entry has the size of its level. */
  lemma EntrySize(b: PT.Block, g: nat, accessed: bool)
    requires Reportable(b)
    ensures var t := EntryType(b, accessed);
            && PageSize(t) == PT.BlockSize(b.level) && IsHole(t) == !b.isPage
            && RoundDown(g, t) == PT.BlockStart(b.level, g) && PT.BlockEnd(b.level, g) == PT.BlockStart(b.level, g) + PageSize(t)
  {
    Sizes();
  }

  /** An entry that is not a page shows nothing. */
  lemma HoleShows(vm: Vm, i: nat, s: Slot, a: nat, g: nat)
    requires VmOk(vm) && i < |vm.slots| && s == vm.slots[i] && s.gpa <= g < s.gpa + s.size
    requires InView(vm, s, a, s.Hva(g)) && !vm.root(g).isPage
    ensures NoPage(Shown(vm, a), s.Hva(g), s.Hva(After(vm.root, s, g)))
  {
    var next := PT.AddrEnd(vm.root(g).level, g, s.gpa + s.size);
    BlockPages(vm, i, s, g, next, None);
    forall x: nat | s.Hva(g) <= x < s.Hva(After(vm.root, s, g)) ensures Shown(vm, a)(x) == None {
    }
  }

  /** The page that g belongs to, as the host sees it from g on. */
  lemma PageAhead(vm: Vm, i: nat, s: Slot, g: nat, base: nat, next: nat, e: Extent)
    requires VmOk(vm) && i < |vm.slots| && s == vm.slots[i] && s.gpa <= g < s.gpa + s.size && vm.root(g).isPage
    requires base == Start(vm.root, g) && next == End(vm.root, g) && e == Extent(s.Hva(base), next - base)
    ensures s.gpa <= base && next <= s.gpa + s.size && OnePage(PagesOf(vm), s.Hva(g), e)
  {
    assert BlocksInside(vm.root, s);
    BlockPages(vm, i, s, g, next, Some(e));
    assert e.base + e.size == s.Hva(next);
  }

  /** What is in the slot and in view shows itself. */
  lemma OnePageInView(vm: Vm, s: Slot, a: nat, h: nat, e: Extent)
    requires s.size > 0 && InView(vm, s, a, h) && OnePage(PagesOf(vm), h, e) && e.base + e.size <= s.hva + s.size
    ensures OnePage(Shown(vm, a), h, e)
  {
    forall x: nat | h <= x < e.base + e.size ensures Shown(vm, a)(x) == Some(e) {
      assert PagesOf(vm)(x) == Some(e);
    }
  }

  /** A boundary of a block is a page boundary of the host, too. */
  lemma EdgeOnPage(s: Slot, level: nat, g: nat)
    requires SlotAligned(s) && g % PT.BlockSize(level) == 0
    ensures s.Hva(g) % PAGE_SIZE == 0 && g % PAGE_SIZE == 0
  {
    PT.BoundaryBelow(0, level, g);
    Sizes();
    ModSub(s.gpa, g, PAGE_SIZE);
    ModAdd(g - s.gpa, s.hva, PAGE_SIZE);
  }

  lemma BlockOnPages(s: Slot, root: PT.View, g: nat)
    requires SlotAligned(s)
    ensures s.Hva(Start(root, g)) % PAGE_SIZE == 0 && s.Hva(End(root, g)) % PAGE_SIZE == 0
    ensures End(root, g) % PAGE_SIZE == 0
  {
    var level := root(g).level;
    MulMod(PT.BlockSize(level), 1);
    ModAdd(Start(root, g), PT.BlockSize(level), PT.BlockSize(level));
    EdgeOnPage(s, level, Start(root, g));
    EdgeOnPage(s, level, End(root, g));
  }

  lemma OverOnPage(s: Slot, root: PT.View)
    requires SlotAligned(s) && s.size > 0
    ensures Over(root, s) % PAGE_SIZE == 0 && s.Hva(Over(root, s)) % PAGE_SIZE == 0
  {
    BlockOnPages(s, root, s.gpa + s.size - 1);
    ModAdd(s.gpa, s.size, PAGE_SIZE);
    ModAdd(s.hva, s.size, PAGE_SIZE);
  }

  /** The items so far start before the next one to be listed. */
  lemma ItemsBefore(vm: Vm, s: Slot, c: Ctrl, before: seq<Page>, a: nat, g: nat, va: int)
    requires Ready(vm, s, c, before, a, g) && s.hva <= va
    requires Start(vm.root, g) == g ==> va == s.Hva(g)
    ensures StartBefore(before + Items(c.tokens), va)
  {
    if Start(vm.root, g) == g {
      ForwardStarts(before + Items(c.tokens), c.nextHva, va);
    } else {
      EmptyItems();
      assert before + [] == before;
    }
  }

  /** An entry that is merged or skipped. */
  lemma SkippedStep(vm: Vm, i: nat, s: Slot, c: Ctrl, c': Ctrl, before: seq<Page>, a: nat, g: nat, g': nat)
    requires VmOk(vm) && i < |vm.slots| && s == vm.slots[i] && Ready(vm, s, c, before, a, g)
    requires InView(vm, s, a, s.Hva(g)) && !vm.root(g).isPage
    requires g' == After(vm.root, s, g) && c' == c.(restartGpa := g')
    ensures Walking(vm, s, c', before, a, g')
  {
    HoleShows(vm, i, s, a, g);
    SkippedUpTo(Shown(vm, a), c, c', before, a, s.Hva(g), s.Hva(g'));
  }

  lemma StartsSnoc(ps: seq<Page>, p: Page, x: int)
    requires StartBefore(ps, p.va) && p.va < x
    ensures StartBefore(ps + [p], x)
  {
  }

  /** An entry that is listed under address va. */
  lemma ListedStep(vm: Vm, s: Slot, c: Ctrl, c': Ctrl, before: seq<Page>, a: nat, g: nat, va: nat, t: ItemType, g': nat)
    requires s.size > 0 && SlotAligned(s) && Ready(vm, s, c, before, a, g)
    requires s.hva <= va <= s.Hva(g) < s.Hva(g') == va + PageSize(t) && va % PAGE_SIZE == 0 && s.Hva(g') % PAGE_SIZE == 0
    requires Start(vm.root, g) == g ==> va == s.Hva(g)
    requires IsHole(t) ==> NoPage(Shown(vm, a), s.Hva(g), s.Hva(g'))
    requires !IsHole(t) ==> OnePage(Shown(vm, a), s.Hva(g), Extent(va, PageSize(t)))
    requires EndBy(Present(before) + Seen(c.tokens), va)
    requires Extended(c, c', va, t) && c' == c.(tokens := c'.tokens, nextHva := c'.nextHva, restartGpa := g')
    ensures Walking(vm, s, c', before, a, g')
  {
    ItemsBefore(vm, s, c, before, a, g, va);
    ExtendedUpTo(Shown(vm, a), c, c', before, a, s.Hva(g), va, t, s.Hva(g'));
    ItemStarts(c, c', before, va, t, s.hva + s.size);
    WalkingOn(vm, s, c, c', before, a, g, g');
  }

  lemma WalkingOn(vm: Vm, s: Slot, c: Ctrl, c': Ctrl, before: seq<Page>, a: nat, g: nat, g': nat)
    requires Walking(vm, s, c, before, a, g) && g <= g' && c'.gpaToHva == c.gpaToHva && c'.pieReadMax == c.pieReadMax
    requires UpTo(Shown(vm, a), c', before, a, s.Hva(g')) && StartBefore(before + Items(c'.tokens), s.hva + s.size)
    ensures Walking(vm, s, c', before, a, g')
  {
  }

  lemma ItemStarts(c: Ctrl, c': Ctrl, before: seq<Page>, va: nat, t: ItemType, x: int)
    requires Items(c'.tokens) == Items(c.tokens) + [Page(va, t)] && StartBefore(before + Items(c.tokens), va) && va < x
    ensures StartBefore(before + Items(c'.tokens), x)
  {
    Associative(before, Items(c.tokens), [Page(va, t)]);
    StartsSnoc(before + Items(c.tokens), Page(va, t), x);
  }

  /** A page to be listed begins behind those listed. */
  lemma PageBehind(vm: Vm, ps: seq<Page>, a: nat, h: nat, p: Page, e: Extent)
    requires VmOk(vm) && IsPageList(Shown(vm, a), ps, a, h)
    requires e == ExtentOf(p) && 0 <= e.base <= h < e.base + e.size && OnePage(PagesOf(vm), h, e)
    ensures EndBy(ps, p.va)
  {
    PagesConsistent(vm);
    ShownUnder(vm, a);
    assert PagesOf(vm)(PageEnd(p) - 1) == Some(e);
    ListedBefore(Shown(vm, a), PagesOf(vm), ps, a, h, p);
  }

  lemma EntryShows(vm: Vm, i: nat, s: Slot, c: Ctrl, before: seq<Page>, a: nat, g: nat, t: ItemType, base: nat,
                   g': nat, e: Extent)
    requires VmOk(vm) && i < |vm.slots| && s == vm.slots[i] && Walking(vm, s, c, before, a, g) && g < s.gpa + s.size
    requires InView(vm, s, a, s.Hva(g)) && IsHole(t) == !vm.root(g).isPage
    requires base == Start(vm.root, g) && g' == After(vm.root, s, g) == End(vm.root, g) && (IsHole(t) ==> base == g)
    requires e == Extent(s.Hva(base), PageSize(t)) && PageSize(t) == g' - base
    ensures IsHole(t) ==> NoPage(Shown(vm, a), s.Hva(g), s.Hva(g'))
    ensures !IsHole(t) ==> s.gpa <= base && OnePage(Shown(vm, a), s.Hva(g), e)
    ensures EndBy(Present(before) + Seen(c.tokens), s.Hva(base))
  {
    if IsHole(t) {
      HoleShows(vm, i, s, a, g);
      ListEnds(Shown(vm, a), Present(before) + Seen(c.tokens), a, s.Hva(g));
    } else {
      PageAhead(vm, i, s, g, base, g', e);
      OnePageInView(vm, s, a, s.Hva(g), e);
      PageBehind(vm, Present(before) + Seen(c.tokens), a, s.Hva(g), Page(s.Hva(base), t), e);
    }
  }

  /** A call for an entry that is not merged, accepted or refused. */
  lemma PushedStep(vm: Vm, i: nat, s: Slot, c: Ctrl, before: seq<Page>, a: nat, g: nat, next: nat, t: ItemType,
                   base: nat, g': nat) returns (r: Added)
    requires VmOk(vm) && i < |vm.slots| && s == vm.slots[i] && Ready(vm, s, c, before, a, g)
    requires InView(vm, s, a, s.Hva(g)) && Reportable(vm.root(g)) && !Merges(c, g, t)
    requires base == Start(vm.root, g) == RoundDown(g, t) && g' == After(vm.root, s, g) == End(vm.root, g)
    requires PageSize(t) == g' - base && IsHole(t) == !vm.root(g).isPage && g < next <= g'
    ensures r == AddPage(c, g, next, t)
    ensures r.full ==> r.ctrl == c.(restartGpa := g, overrun := r.ctrl.overrun) && c.tokens != []
    ensures !r.full ==> Extended(c, r.ctrl, s.Hva(base), t) && s.gpa <= base
    ensures !r.full ==> r.ctrl.restartGpa == g' && Walking(vm, s, r.ctrl, before, a, g')
  {
    var va := s.Hva(base);
    assert IsHole(t) ==> c.tokens != [] && base == g;
    EntryShows(vm, i, s, c, before, a, g, t, base, g', Extent(va, PageSize(t)));
    r := AddPageExtends(c, g, t, base, next, va);
    if !r.full {
      AcceptedStep(vm, s, c, r.ctrl, before, a, g, t, base, g', va);
    }
  }

  /** The call was accepted. */
  lemma AcceptedStep(vm: Vm, s: Slot, c: Ctrl, c': Ctrl, before: seq<Page>, a: nat, g: nat, t: ItemType, base: nat, g': nat,
                     va: nat)
    requires va == s.Hva(base) && s.size > 0 && SlotAligned(s) && Ready(vm, s, c, before, a, g) && s.gpa <= base
    requires base == Start(vm.root, g) <= g < g' == End(vm.root, g) && PageSize(t) == g' - base
    requires IsHole(t) ==> NoPage(Shown(vm, a), s.Hva(g), s.Hva(g'))
    requires !IsHole(t) ==> OnePage(Shown(vm, a), s.Hva(g), Extent(va, PageSize(t)))
    requires EndBy(Present(before) + Seen(c.tokens), va) && Extended(c, c', va, t)
    requires c' == c.(tokens := c'.tokens, nextHva := c'.nextHva, restartGpa := g')
    ensures Walking(vm, s, c', before, a, g')
  {
    BlockOnPages(s, vm.root, g);
    ListedStep(vm, s, c, c', before, a, g, va, t, g');
  }

  /** The entry of g as a reader sees it, if it is a page. */
  function EntryOf(root: PT.View, s: Slot, g: nat, accessed: set<nat>): seq<Page> {
    if root(g).isPage then [Page(s.Hva(Start(root, g)), EntryType(root(g), Start(root, g) in accessed))] else []
  }

  /** The visit of one entry, accepted or refused. */
  lemma VisitReports(vm: Vm, i: nat, s: Slot, w: Walk, before: seq<Page>, a: nat, g: nat)
    returns (next: nat, r: Walked)
    requires VmOk(vm) && i < |vm.slots| && s == vm.slots[i] && Ready(vm, s, w.ctrl, before, a, g)
    requires InView(vm, s, a, s.Hva(g))
    ensures next == PT.AddrEnd(vm.root(g).level, g, s.gpa + s.size) && r == Visit(w, vm.root(g), g, next)
    ensures r.full ==> r.w.ctrl == w.ctrl.(restartGpa := g, overrun := r.w.ctrl.overrun) && w.ctrl.tokens != []
    ensures !r.full ==> r.w.ctrl.restartGpa == After(vm.root, s, g)
    ensures !r.full ==> Walking(vm, s, r.w.ctrl, before, a, After(vm.root, s, g))
    ensures Seen(r.w.ctrl.tokens) == Seen(w.ctrl.tokens) + if r.full then [] else EntryOf(vm.root, s, g, w.accessed)
  {
    var b, g' := vm.root(g), After(vm.root, s, g);
    next := PT.AddrEnd(b.level, g, s.gpa + s.size);
    r := Visit(w, b, g, next);
    AfterIs(vm.root, s, g);
    if Reportable(b) {
      var t, base := EntryType(b, PT.BlockStart(b.level, g) in w.accessed), Start(vm.root, g);
      EntrySize(b, g, PT.BlockStart(b.level, g) in w.accessed);
      if Merges(w.ctrl, g, t) {
        var added := MergedMoves(w.ctrl, g, t, base, next);
        SkippedStep(vm, i, s, w.ctrl, added.ctrl, before, a, g, g');
      } else {
        var added := PushedStep(vm, i, s, w.ctrl, before, a, g, next, t, base, g');
      }
    } else {
      SkippedStep(vm, i, s, w.ctrl, r.w.ctrl, before, a, g, g');
    }
  }

  /** The walk of the rest of a slot reports every page up to where it stops, and stops where the
      slot's last entry ends or at an entry the full buffer refused. */
  lemma {:induction false} FlatReports(vm: Vm, i: nat, s: Slot, w: Walk, before: seq<Page>, a: nat, g: nat)
    returns (r: Walked, stop: nat)
    requires VmOk(vm) && i < |vm.slots| && s == vm.slots[i] && Ready(vm, s, w.ctrl, before, a, g)
    requires InView(vm, s, a, s.Hva(g)) && g % PAGE_SIZE == 0
    ensures r == Flat(vm.root, w, g, s.gpa + s.size)
    ensures stop == r.w.ctrl.restartGpa && g <= stop && stop % PAGE_SIZE == 0
    ensures Walking(vm, s, r.w.ctrl, before, a, stop)
    ensures r.full ==> r.w.ctrl.tokens != [] && stop < s.gpa + s.size && (w.ctrl.tokens == [] ==> g < stop)
    ensures r.full ==> Start(vm.root, stop) == stop
    ensures !r.full ==> stop == Over(vm.root, s)
    decreases s.gpa + s.size - g
  {
    var next;
    next, r := VisitReports(vm, i, s, w, before, a, g);
    if r.full {
      stop := g;
    } else if next < s.gpa + s.size {
      AfterIs(vm.root, s, g);
      NextBlockStarts(vm.root, g);
      BlockOnPages(s, vm.root, g);
      r, stop := FlatReports(vm, i, s, r.w, before, a, next);
    } else {
      stop := Over(vm.root, s);
      OverOnPage(s, vm.root);
      assert Flat(vm.root, r.w, next, s.gpa + s.size) == Walked(r.w, false);
    }
  }
}
