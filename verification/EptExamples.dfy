/** Reads on which the scanner fails: one copies more than was asked for, one passes over a page, one
    clears the accessed bit of a page it does not report. */
module EptExamples {
  import opened Arith
  import opened IdleStream
  import opened EptEncoder
  import opened PageList
  import opened EptWalk
  import opened EptLayout
  import opened EptReports
  import opened EptIdle
  import opened EptRounds
  import opened EptBytes
  import opened EptRead
  import opened EptLoss
  import opened EptTypes
  import PT = PageTable

  // ----- Small page tables -----

  /** One table of 4 KB entries, the pages at lo to hi - 1. */
  function Ptes(lo: nat, hi: nat): seq<PT.Node> {
    seq(PT.ENTRIES, (i: nat) => if lo <= i < hi then PT.Page else PT.Hole)
  }

  /** A table with one path, to the 2 MB of `at`. */
  function Nest(level: nat, at: nat, ptes: seq<PT.Node>): seq<PT.Node>
    decreases level
  {
    if level == 0 then ptes
    else seq(PT.ENTRIES, (i: nat) => if i == PT.Index(level, at) then PT.Table(Nest(level - 1, at, ptes)) else PT.Hole)
  }

  lemma {:induction false} NestWellFormed(level: nat, at: nat, ptes: seq<PT.Node>)
    requires PT.WellFormed(0, ptes)
    ensures PT.WellFormed(level, Nest(level, at, ptes))
  {
    if level > 0 {
      NestWellFormed(level - 1, at, ptes);
    }
  }

  lemma NestLookup(level: nat, at: nat, ptes: seq<PT.Node>, x: nat)
    requires level > 0 && PT.WellFormed(0, ptes)
    requires PT.WellFormed(level, Nest(level, at, ptes)) && PT.WellFormed(level - 1, Nest(level - 1, at, ptes))
    ensures PT.Lookup(level, Nest(level, at, ptes), x)
            == if PT.Index(level, x) == PT.Index(level, at) then PT.Lookup(level - 1, Nest(level - 1, at, ptes), x)
               else PT.Block(level, false)
  {
  }

  lemma LargeSizes()
    ensures PT.BlockSize(3) == 0x80_0000_0000 && PT.BlockSize(4) == 0x1_0000_0000_0000
    ensures PT.BlockSize(5) == 0x200_0000_0000_0000
  {
    Sizes();
  }

  function Table(at: nat, lo: nat, hi: nat): (root: seq<PT.Node>)
    ensures PT.WellFormed(ROOT_LEVEL, root)
  {
    NestWellFormed(ROOT_LEVEL, at, Ptes(lo, hi));
    Nest(ROOT_LEVEL, at, Ptes(lo, hi))
  }

  /** What decides an address below 2 GB. */
  function Decides(at: nat, lo: nat, hi: nat, x: nat): PT.Block {
    if x >= PUD_SIZE then PT.Block(2, false)
    else if x / PMD_SIZE != at / PMD_SIZE then PT.Block(1, false)
    else PT.Block(0, lo <= (x / PAGE_SIZE) % 512 < hi)
  }

  lemma UpperIndex(x: nat)
    requires x < 2 * PUD_SIZE
    ensures PT.Index(4, x) == 0 && PT.Index(3, x) == 0 && PT.Index(2, x) == if x < PUD_SIZE then 0 else 1
  {
    Sizes();
    LargeSizes();
    DivModUnique(x, PT.BlockSize(4), 0, x);
    DivModUnique(x, PT.BlockSize(3), 0, x);
  }

  lemma TableDecides(at: nat, lo: nat, hi: nat, x: nat)
    requires at < PUD_SIZE && x < 2 * PUD_SIZE
    ensures PT.Lookup(ROOT_LEVEL, Table(at, lo, hi), x) == Decides(at, lo, hi, x)
  {
    var ptes := Ptes(lo, hi);
    UpperIndex(x);
    UpperIndex(at);
    NestWellFormed(3, at, ptes);
    NestWellFormed(2, at, ptes);
    NestWellFormed(1, at, ptes);
    NestLookup(4, at, ptes, x);
    NestLookup(3, at, ptes, x);
    NestLookup(2, at, ptes, x);
    NestLookup(1, at, ptes, x);
    Sizes();
    if x < PUD_SIZE {
      assert x / PMD_SIZE < 512 && at / PMD_SIZE < 512;
    }
  }

  lemma PteInside(lo: nat, hi: nat, g: nat)
    requires lo % PAGE_SIZE == 0 && hi % PAGE_SIZE == 0 && lo <= g < hi
    ensures lo <= PT.BlockStart(0, g) && PT.BlockEnd(0, g) <= hi
  {
    Sizes();
    PT.BlockStopsAt(0, 0, g, hi);
    if PT.BlockStart(0, g) < lo {
      PT.BlockStopsAt(0, 0, PT.BlockStart(0, g), lo);
    }
  }

  /** Pages of 4 KB never reach beyond a slot. */
  lemma PtesInside(root: PT.View, s: Slot)
    requires SlotAligned(s) && forall g :: s.gpa <= g < s.gpa + s.size && root(g).isPage ==> root(g).level == 0
    ensures BlocksInside(root, s)
  {
    ModAdd(s.gpa, s.size, PAGE_SIZE);
    forall g | s.gpa <= g < s.gpa + s.size && root(g).isPage
      ensures s.gpa <= Start(root, g) && End(root, g) <= s.gpa + s.size
    {
      PteInside(s.gpa, s.gpa + s.size, g);
    }
  }

  // ----- A page passed over -----

  /** One page of guest memory at 0, mapped nowhere, and one at 2 MB, in host addresses directly behind. */
  const OVERHANG_SLOTS := [Slot(0, 0, PAGE_SIZE), Slot(PAGE_SIZE, PMD_SIZE, PAGE_SIZE)]

  function OverhangTable(): (root: seq<PT.Node>)
    ensures PT.WellFormed(ROOT_LEVEL, root)
  {
    Table(PMD_SIZE, 0, 1)
  }

  function OverhangVm(): Vm { HostVm(OVERHANG_SLOTS, OverhangTable()) }

  const HIDDEN := Extent(PAGE_SIZE, PAGE_SIZE)

  lemma OverhangBlocks(x: nat)
    requires x < PMD_SIZE + PAGE_SIZE
    ensures OverhangVm().root(x) == if x < PMD_SIZE then PT.Block(1, false) else PT.Block(0, true)
  {
    TableDecides(PMD_SIZE, 0, 1, x);
    if x >= PMD_SIZE {
      assert (x / PAGE_SIZE) % 512 == 0;
    }
  }

  lemma OverhangInside()
    ensures BlocksInside(OverhangVm().root, OVERHANG_SLOTS[0]) && BlocksInside(OverhangVm().root, OVERHANG_SLOTS[1])
  {
    var root := OverhangVm().root;
    forall g | 0 <= g < PMD_SIZE + PAGE_SIZE ensures root(g).isPage ==> root(g).level == 0 {
      OverhangBlocks(g);
    }
    PtesInside(root, OVERHANG_SLOTS[0]);
    PtesInside(root, OVERHANG_SLOTS[1]);
  }

  lemma OverhangOk()
    ensures HostOk(OVERHANG_SLOTS, OverhangTable())
  {
    OverhangInside();
    LargeSizes();
    HostIsOk(OVERHANG_SLOTS, OverhangTable());
  }

  lemma OverhangLeaves()
    ensures Over(OverhangVm().root, OVERHANG_SLOTS[0]) == PMD_SIZE
  {
    OverhangBlocks(PAGE_SIZE - 1);
    Sizes();
  }

  lemma OverhangIndex(x: nat)
    requires x < 2 * PAGE_SIZE
    ensures SlotIndex(OVERHANG_SLOTS, x) == if x < PAGE_SIZE then 0 else 1
  {
    var rest := OVERHANG_SLOTS[1..];
    assert rest == [OVERHANG_SLOTS[1]];
    assert SlotIndex(rest, x) == if x < PAGE_SIZE then 1 else 0;
  }

  lemma HiddenPage()
    ensures IsPage(OverhangVm(), HIDDEN)
  {
    OverhangBlocks(PMD_SIZE + PAGE_SIZE - 1);
    Sizes();
    HiddenAt(OverhangVm(), 2 * PAGE_SIZE - 1, PMD_SIZE + PAGE_SIZE - 1);
  }

  lemma HiddenAt(vm: Vm, x: nat, g: nat)
    requires vm.slots == OVERHANG_SLOTS && x == 2 * PAGE_SIZE - 1 && g == PMD_SIZE + PAGE_SIZE - 1
    requires vm.root(g) == PT.Block(0, true)
    ensures HvaPage(vm, x) == Some(HIDDEN)
  {
    OverhangIndex(x);
    Sizes();
    HvaPageAt(vm, 1, OVERHANG_SLOTS[1], g, x);
    assert Start(vm.root, g) == PMD_SIZE;
  }

  /** A page behind the slot, under its last entry, is lost to a read that begins in the slot. */
  lemma HiddenLost(vm: Vm, s: Slot, a: nat, seen: seq<Page>, v: nat, e: Extent)
    requires VmOk(vm) && |vm.slots| > 0 && s == vm.slots[0] && s.HoldsHva(a) && IsPage(vm, e)
    requires s.hva + s.size <= LastOf(e) < s.Hva(Over(vm.root, s))
    requires IsPageList(Shown(vm, a), seen, a, v) && Track(vm, a, v) && s.hva + s.size <= v
    ensures LastOf(e) < v && !Listed(seen, e)
  {
    OutOfView(vm, 0, s, a, LastOf(e));
    UnseenNotListed(vm, seen, a, v, e);
    if v < s.Hva(Over(vm.root, s)) {
      NeverBetween(vm, 0, s, a, v);
    }
  }

  /** Every report of a read at 0 passes over the page at 4096. */
  lemma OverhangLosesPage(seen: seq<Page>, v: nat)
    requires IsPageList(Shown(OverhangVm(), 0), seen, 0, v) && Track(OverhangVm(), 0, v) && 0 < v && v % PAGE_SIZE == 0
    ensures HostOk(OVERHANG_SLOTS, OverhangTable()) && IsPage(OverhangVm(), HIDDEN)
    ensures LastOf(HIDDEN) < v && !Listed(seen, HIDDEN)
  {
    OverhangOk();
    HiddenPage();
    OverhangLeaves();
    PageMultiple(0, v);
    HiddenLost(OverhangVm(), OVERHANG_SLOTS[0], 0, seen, v, HIDDEN);
  }

  // ----- Walks of a few pages -----

  /** The type of a 4 KB page with base address `addr`. */
  function PteType(w: Walk, addr: nat): ItemType { if addr in w.accessed then PTE_ACCESSED else PTE_IDLE }

  lemma PteVisit(v: PT.View, w: Walk, addr: nat, next: nat, end: nat, r: Added, w': Walk)
    requires v(addr) == PT.Block(0, true) && addr % PAGE_SIZE == 0 && next == addr + PAGE_SIZE <= end
    requires r == AddPage(w.ctrl, addr, next, PteType(w, addr)) && w' == Walk(r.ctrl, w.accessed - {addr})
    ensures r.full ==> Flat(v, w, addr, end) == Walked(w', true)
    ensures !r.full ==> Flat(v, w, addr, end) == Flat(v, w', next, end)
  {
    Sizes();
    assert PT.AddrEnd(0, addr, end) == next && PT.BlockStart(0, addr) == addr;
    assert Visit(w, v(addr), addr, next) == Walked(w', r.full);
  }

  lemma PteRounds(addr: nat, next: nat, t: ItemType)
    requires addr % PAGE_SIZE == 0 && next == addr + PAGE_SIZE == addr + PageSize(t)
    ensures RoundDown(addr, t) == addr && RoundUp(next, t) == next
  {
    RoundUpInBlock(addr, next, t);
  }

  /** The walk has just listed the page before `addr`: `size` bytes, the last an item of type t. */
  predicate AtPte(w: Walk, addr: nat, size: nat, t: ItemType) {
    && w.ctrl.tokens != [] && Opened(w.ctrl.tokens) && w.ctrl.tokens[|w.ctrl.tokens| - 1].t == t
    && w.ctrl.nextHva == addr + w.ctrl.gpaToHva && Size(w.ctrl.tokens) == size
  }

  /** Nothing but the stream, the place and the page's bit has changed. */
  predicate Listed1(w: Walk, w': Walk, addr: nat) {
    w' == Walk(w.ctrl.(tokens := w'.ctrl.tokens, nextHva := addr + PAGE_SIZE + w.ctrl.gpaToHva,
                       restartGpa := addr + PAGE_SIZE), w.accessed - {addr})
  }

  lemma FirstAdded(c: Ctrl, addr: nat, next: nat, t: ItemType) returns (r: Added)
    requires addr % PAGE_SIZE == 0 && next == addr + PAGE_SIZE == addr + PageSize(t) && !IsHole(t)
    requires c.tokens == [] && LimitOk(c.pieReadMax)
    ensures r == AddPage(c, addr, next, t) && !r.full && Size(r.ctrl.tokens) == 10 && Opened(r.ctrl.tokens)
    ensures r.ctrl.tokens != [] && r.ctrl.tokens[|r.ctrl.tokens| - 1] == Run(t, 1)
    ensures r.ctrl == c.(tokens := r.ctrl.tokens, nextHva := next + c.gpaToHva, restartGpa := next)
  {
    PteRounds(addr, next, t);
    r := JumpAdded(c, addr, next, t, next);
    JumpSize(c, addr, t);
    FirstFits(c, addr, t);
    PushedOpened(c, addr, t);
  }

  lemma NewAdded(c: Ctrl, addr: nat, next: nat, t: ItemType) returns (r: Added)
    requires addr % PAGE_SIZE == 0 && next == addr + PAGE_SIZE == addr + PageSize(t)
    requires c.tokens != [] && Opened(c.tokens) && c.tokens[|c.tokens| - 1].t != t && c.nextHva == addr + c.gpaToHva
    requires Size(c.tokens) <= KBUF_SIZE && c.pieReadMax <= KBUF_SIZE
    ensures r == AddPage(c, addr, next, t)
    ensures Size(c.tokens) >= c.pieReadMax ==> r == Added(c.(restartGpa := addr), true)
    ensures Size(c.tokens) < c.pieReadMax ==>
              && !r.full && Size(r.ctrl.tokens) == Size(c.tokens) + 1 && r.ctrl.tokens == c.tokens + [Run(t, 1)]
              && r.ctrl == c.(tokens := r.ctrl.tokens, nextHva := next + c.gpaToHva, restartGpa := next)
  {
    PteRounds(addr, next, t);
    NextAdded(c, addr, next, t);
    r := AddPage(c, addr, next, t);
    SizeSnoc(c.tokens, Run(t, 1));
  }

  /** The first page of a walk. */
  lemma FirstPte(v: PT.View, w: Walk, addr: nat, next: nat, end: nat, t: ItemType) returns (w': Walk)
    requires v(addr) == PT.Block(0, true) && addr % PAGE_SIZE == 0 && next == addr + PAGE_SIZE <= end
    requires w.ctrl.tokens == [] && LimitOk(w.ctrl.pieReadMax) && t == PteType(w, addr)
    ensures Flat(v, w, addr, end) == Flat(v, w', next, end)
    ensures Listed1(w, w', addr) && AtPte(w', next, 10, t)
  {
    var r := FirstAdded(w.ctrl, addr, next, t);
    w' := Walk(r.ctrl, w.accessed - {addr});
    PteVisit(v, w, addr, next, end, r, w');
  }

  /** A page that continues the stream with another type than the last one's: listed if there is room
      for a byte, else refused after its bit is cleared. */
  lemma NewPte(v: PT.View, w: Walk, addr: nat, next: nat, end: nat, t0: ItemType, t: ItemType, size: nat)
    returns (w': Walk)
    requires v(addr) == PT.Block(0, true) && addr % PAGE_SIZE == 0 && next == addr + PAGE_SIZE <= end
    requires AtPte(w, addr, size, t0) && t == PteType(w, addr) != t0 && size <= KBUF_SIZE && w.ctrl.pieReadMax <= KBUF_SIZE
    ensures size >= w.ctrl.pieReadMax ==>
              Flat(v, w, addr, end) == Walked(Walk(w.ctrl.(restartGpa := addr), w.accessed - {addr}), true)
    ensures size < w.ctrl.pieReadMax ==>
              Flat(v, w, addr, end) == Flat(v, w', next, end) && Listed1(w, w', addr) && AtPte(w', next, size + 1, t)
  {
    var r := NewAdded(w.ctrl, addr, next, t);
    w' := Walk(r.ctrl, w.accessed - {addr});
    PteVisit(v, w, addr, next, end, r, w');
  }

  // ----- A page refused -----

  const THREE_PAGES := [Slot(0, 0, 3 * PAGE_SIZE)]

  /** Three pages, the first and the last accessed. */
  function ThreePages(): Vm { HostVm(THREE_PAGES, Table(0, 0, 3)) }

  lemma ThreePagesOk()
    ensures HostOk(THREE_PAGES, Table(0, 0, 3))
    ensures forall g: nat :: g < 3 * PAGE_SIZE ==> ThreePages().root(g) == PT.Block(0, true)
  {
    forall g: nat | g < 3 * PAGE_SIZE ensures ThreePages().root(g) == PT.Block(0, true) {
      TableDecides(0, 0, 3, g);
    }
    PtesInside(ThreePages().root, THREE_PAGES[0]);
    LargeSizes();
    HostIsOk(THREE_PAGES, Table(0, 0, 3));
  }

  /** A walk of three pages with room for 11 bytes refuses the third and clears its bit. */
  lemma ThirdRefused(v: PT.View, w: Walk, g0: nat, g1: nat, g2: nat, end: nat) returns (r: Walked)
    requires g1 == g0 + PAGE_SIZE && g2 == g1 + PAGE_SIZE && end == g2 + PAGE_SIZE
    requires g0 % PAGE_SIZE == 0 && g1 % PAGE_SIZE == 0 && g2 % PAGE_SIZE == 0
    requires v(g0) == PT.Block(0, true) && v(g1) == PT.Block(0, true) && v(g2) == PT.Block(0, true)
    requires g0 in w.accessed && g1 !in w.accessed && g2 in w.accessed
    requires w.ctrl.tokens == [] && w.ctrl.pieReadMax == 11
    ensures r.full && r.w.accessed == w.accessed - {g0} - {g1} - {g2} && AtPte(r.w, g2, 11, PTE_IDLE)
    ensures r.w.ctrl == w.ctrl.(tokens := r.w.ctrl.tokens, nextHva := r.w.ctrl.nextHva, restartGpa := g2)
    ensures r == Flat(v, w, g0, end)
  {
    var w1 := FirstPte(v, w, g0, g1, end, PTE_ACCESSED);
    var w2 := NewPte(v, w1, g1, g2, end, PTE_ACCESSED, PTE_IDLE, 10);
    var w3 := NewPte(v, w2, g2, end, end, PTE_IDLE, PTE_ACCESSED, 11);
    r := Flat(v, w, g0, end);
  }

  predicate ThreeAt(vm: Vm) {
    vm.slots == THREE_PAGES && vm.root(0) == vm.root(PAGE_SIZE) == vm.root(2 * PAGE_SIZE) == PT.Block(0, true)
  }

  lemma RefusingPiece(vm: Vm, s: Slot, w: Walk, g0: nat, g1: nat, g2: nat, end: nat) returns (p: Piece)
    requires g1 == g0 + PAGE_SIZE && g2 == g1 + PAGE_SIZE && end == g2 + PAGE_SIZE
    requires g0 % PAGE_SIZE == 0 && g1 % PAGE_SIZE == 0 && g2 % PAGE_SIZE == 0
    requires vm.root(g0) == PT.Block(0, true) && vm.root(g1) == PT.Block(0, true) && vm.root(g2) == PT.Block(0, true)
    requires s.hva == g0 && s.gpa == g0 && s.gpa + s.size == end
    requires w.ctrl.tokens == [] && w.ctrl.pieReadMax == 11 && w.ctrl.gpaToHva == 0 && w.accessed == {g0, g2}
    ensures p.full && p.next == g2 && p.vaEnd == end && p.w.ctrl.tokens != [] && Size(p.w.ctrl.tokens) == 11
    ensures p.w.accessed == {} && p.w.ctrl.restartGpa == g2 && p.w.ctrl.nextHva == g2
    ensures p == SlotPiece(vm, w, s, g0)
  {
    var f := ThirdRefused(vm.root, w, g0, g1, g2, end);
    SlotPieceIs(vm, s, w, g0, w, g0, f);
    p := Piece(f.w, g2, end, true);
    assert f.w.accessed == {};
  }

  /** The first round of a read of 20 bytes is its last and refuses the third page. */
  lemma RefusingRound(vm: Vm, sc: Scan, end: nat, g2: nat) returns (r: Scan)
    requires ThreeAt(vm) && g2 == 2 * PAGE_SIZE && sc.sent == [] && sc.refused == {} && sc.start == 0
    requires sc.w.ctrl.tokens == [] && sc.w.ctrl.pieReadMax == 11 && sc.w.ctrl.gpaToHva == 0 && sc.w.accessed == {0, g2}
    ensures r.ret == KBUF_FULL && r.refused == {g2} && r.w.accessed == {} && r.w.ctrl.nextHva == g2
    ensures r == RoundOf(vm, 20, end, sc)
  {
    Sizes();
    var p := RefusingPiece(vm, THREE_PAGES[0], sc.w, sc.start, PAGE_SIZE, g2, 3 * PAGE_SIZE);
    assert SlotIndex(vm.slots, sc.start) == 0;
    r := RefusingCopy(vm, sc, p, g2);
  }

  lemma RefusingCopy(vm: Vm, sc: Scan, p: Piece, g2: nat) returns (r: Scan)
    requires g2 == 2 * PAGE_SIZE && vm.root(g2) == PT.Block(0, true) && Start(vm.root, g2) == g2
    requires sc.sent == [] && sc.refused == {} && p.full && p.next == g2 && p.vaEnd == 3 * PAGE_SIZE
    requires p.w.accessed == {} && p.w.ctrl.restartGpa == g2 && p.w.ctrl.nextHva == g2
    requires p.w.ctrl.tokens != [] && Size(p.w.ctrl.tokens) == 11
    ensures r == CopyOf(vm, 20, sc, p) && r.ret == KBUF_FULL
    ensures r.refused == {g2} && r.w.accessed == {} && r.w.ctrl.nextHva == g2
  {
    r := CopyOf(vm, 20, sc, p);
    SizeAppend([], p.w.ctrl.tokens);
    LimitFailsExactly(20, r.sent);
  }

  /** A read that ends after its first round. */
  lemma OneRound(vm: Vm, count: int, end: nat, first: Scan, scans: seq<Scan>, r: Scan)
    requires IsRead(vm, count, end, first, scans) && GoesOn(first, end)
    requires r == RoundOf(vm, count, end, first) && !GoesOn(r, end)
    ensures |scans| == 2 && scans[1] == r
  {
    assert |scans| > 1;
    assert StepAt(vm, count, end, scans, 0);
    assert |scans| > 2 ==> StepAt(vm, count, end, scans, 1);
  }

  lemma RefusingRead(vm: Vm, w: Walk, end: nat, xs: seq<Scan>, last: Scan)
    requires ThreeAt(vm) && w.ctrl.gpaToHva == 0 && w.accessed == {0, 2 * PAGE_SIZE} && end > 0
    requires IsRead(vm, 20, end, First(20, w, 0), xs) && last == xs[|xs| - 1]
    ensures last.refused == {2 * PAGE_SIZE} && last.w.accessed == {} && last.w.ctrl.nextHva == 2 * PAGE_SIZE
  {
    var sc := First(20, w, 0);
    LimitFailsExactly(20, []);
    var r := RefusingRound(vm, sc, end, 2 * PAGE_SIZE);
    OneRound(vm, 20, end, sc, xs, r);
  }

  lemma ThirdPage()
    ensures IsPage(ThreePages(), Extent(2 * PAGE_SIZE, PAGE_SIZE)) && BaseOf(ThreePages(), 2 * PAGE_SIZE) == 2 * PAGE_SIZE
  {
    ThreePagesOk();
    ThirdPageAt(ThreePages(), 2 * PAGE_SIZE, 3 * PAGE_SIZE - 1);
  }

  lemma ThirdPageAt(vm: Vm, x: nat, y: nat)
    requires vm.slots == THREE_PAGES && x == 2 * PAGE_SIZE && y == 3 * PAGE_SIZE - 1
    requires vm.root(x) == vm.root(y) == PT.Block(0, true)
    ensures HvaPage(vm, y) == Some(Extent(x, PAGE_SIZE)) && BaseOf(vm, x) == x
  {
    Sizes();
    assert SlotIndex(vm.slots, x) == 0 && SlotIndex(vm.slots, y) == 0;
    HvaPageAt(vm, 0, THREE_PAGES[0], y, y);
    assert Start(vm.root, y) == x && Start(vm.root, x) == x;
  }

  /** A read that begins at a page of 4 KB whose bit is not set lists it as idle. */
  lemma FirstListedIdle(vm: Vm, i: nat, count: nat, w: Walk, a: nat, end: nat, e: Extent, ys: seq<Scan>)
    requires HostVmOk(vm) && GuestDisjoint(vm.slots) && Begins(count, w, a, end)
    requires IsRead(vm, count, end, First(count, w, a), ys)
    requires e == Extent(a, PAGE_SIZE) && IsPage(vm, e) && i < |vm.slots| && vm.slots[i].HoldsHva(a) && vm.slots[i].HoldsHva(LastOf(e))
    requires BaseOf(vm, a) >= 0 && vm.root(BaseOf(vm, a)).level == 0 && w.accessed == {}
    ensures Page(a, PTE_IDLE) in Seen(ys[|ys| - 1].sent)
  {
    var last := ys[|ys| - 1];
    ReadEnds(vm, count, w, a, end, ys);
    TrackInSlot(vm, i, a, LastOf(e));
    assert Examined(vm, LastOf(e), LastOf(e));
    TrackedSame(vm, a, LastOf(e), LastOf(e));
    PageMultiple(a, last.w.ctrl.nextHva);
    ExaminedListed(vm, Seen(last.sent), a, last.w.ctrl.nextHva, e);
    var k :| 0 <= k < |Seen(last.sent)| && ExtentOf(Seen(last.sent)[k]) == e;
    AccessedExactly(vm, count, w, a, end, ys, Seen(last.sent)[k]);
  }

  lemma PageMultiple(a: nat, v: int)
    requires a % PAGE_SIZE == 0 && v % PAGE_SIZE == 0 && a < v
    ensures a + PAGE_SIZE <= v
  {
  }

  lemma ThirdIdle(w: Walk, count: nat, a: nat, end: nat, ys: seq<Scan>)
    requires HostVmOk(ThreePages()) && a == 2 * PAGE_SIZE && w.accessed == {} && Begins(count, w, a, end)
    requires ThreePages().root(a) == PT.Block(0, true)
    requires IsRead(ThreePages(), count, end, First(count, w, a), ys)
    ensures Page(a, PTE_IDLE) in Seen(ys[|ys| - 1].sent)
  {
    ThirdPage();
    FirstListedIdle(ThreePages(), 0, count, w, a, end, Extent(a, PAGE_SIZE), ys);
  }

  /** A first read of 20 bytes begins with the bit of the third page set. It refuses the page and stops
      before it; the next read, from there on, lists it as idle. */
  lemma RefusedPageLooksIdle(w: Walk, end: nat, xs: seq<Scan>, last: Scan, w': Walk, count: nat, end': nat, ys: seq<Scan>)
    requires w.ctrl.gpaToHva == 0 && w.accessed == {0, 2 * PAGE_SIZE} && end > 0
    requires IsRead(ThreePages(), 20, end, First(20, w, 0), xs) && last == xs[|xs| - 1] && last.w.ctrl.nextHva >= 0
    requires w'.accessed == last.w.accessed && Begins(count, w', last.w.ctrl.nextHva, end')
    requires IsRead(ThreePages(), count, end', First(count, w', last.w.ctrl.nextHva), ys)
    ensures HostOk(THREE_PAGES, Table(0, 0, 3)) && last.w.ctrl.nextHva == 2 * PAGE_SIZE && 2 * PAGE_SIZE in last.refused
    ensures Page(2 * PAGE_SIZE, PTE_IDLE) in Seen(ys[|ys| - 1].sent)
  {
    ThreePagesOk();
    RefusingRead(ThreePages(), w, end, xs, last);
    ThirdIdle(w', count, last.w.ctrl.nextHva, end', ys);
  }

  // ----- More bytes than were asked for -----

  const LONG_SLOT := 0x3fff_c000

  /** Four pages at the end of the first GB and nothing behind them; one page below them, mapped
      directly behind them in the host. */
  const FULL_SLOTS := [Slot(0, LONG_SLOT, 20 * PAGE_SIZE), Slot(20 * PAGE_SIZE, LONG_SLOT - PAGE_SIZE, PAGE_SIZE)]

  function FullTable(): (root: seq<PT.Node>)
    ensures PT.WellFormed(ROOT_LEVEL, root)
  {
    Table(0x3fe0_0000, 507, 512)
  }

  function FullVm(): Vm { HostVm(FULL_SLOTS, FullTable()) }

  lemma FullBlocks(x: nat)
    requires LONG_SLOT - PAGE_SIZE <= x < LONG_SLOT + 20 * PAGE_SIZE
    ensures FullVm().root(x) == if x < PUD_SIZE then PT.Block(0, true) else PT.Block(2, false)
  {
    TableDecides(0x3fe0_0000, 507, 512, x);
    if x < PUD_SIZE {
      assert x / PMD_SIZE == 511 && 0x3fffb <= x / PAGE_SIZE <= 0x3ffff;
    }
  }

  lemma FullInside()
    ensures BlocksInside(FullVm().root, FULL_SLOTS[0]) && BlocksInside(FullVm().root, FULL_SLOTS[1])
  {
    var root := FullVm().root;
    forall g | LONG_SLOT - PAGE_SIZE <= g < LONG_SLOT + 20 * PAGE_SIZE ensures root(g).isPage ==> root(g).level == 0 {
      FullBlocks(g);
    }
    PtesInside(root, FULL_SLOTS[0]);
    PtesInside(root, FULL_SLOTS[1]);
  }

  lemma FullOk()
    ensures HostOk(FULL_SLOTS, FullTable())
  {
    FullInside();
    LargeSizes();
    HostIsOk(FULL_SLOTS, FullTable());
  }

  /** Four pages, alternately accessed and idle, and a directory hole behind them take 13 bytes. */
  lemma FourListed(v: PT.View, w: Walk, g0: nat, g1: nat, g2: nat, g3: nat, g4: nat, end: nat) returns (r: Walked)
    requires g1 == g0 + PAGE_SIZE && g2 == g1 + PAGE_SIZE && g3 == g2 + PAGE_SIZE && g4 == g3 + PAGE_SIZE < end
    requires g0 % PAGE_SIZE == 0 && g1 % PAGE_SIZE == 0 && g2 % PAGE_SIZE == 0 && g3 % PAGE_SIZE == 0
    requires v(g0) == PT.Block(0, true) && v(g1) == PT.Block(0, true) && v(g2) == PT.Block(0, true)
    requires v(g3) == PT.Block(0, true) && v(g4) == PT.Block(2, false) && PT.AddrEnd(2, g4, end) == end
    requires g0 in w.accessed && g1 !in w.accessed && g2 in w.accessed && g3 !in w.accessed
    requires w.ctrl.tokens == [] && w.ctrl.pieReadMax == 21
    ensures !r.full && AtPte(r.w, g4, 13, PTE_IDLE)
    ensures r.w.ctrl == w.ctrl.(tokens := r.w.ctrl.tokens, nextHva := r.w.ctrl.nextHva, restartGpa := end)
    ensures r == Flat(v, w, g0, end)
  {
    var w1 := FirstPte(v, w, g0, g1, end, PTE_ACCESSED);
    var w2 := NewPte(v, w1, g1, g2, end, PTE_ACCESSED, PTE_IDLE, 10);
    var w3 := NewPte(v, w2, g2, g3, end, PTE_IDLE, PTE_ACCESSED, 11);
    var w4 := NewPte(v, w3, g3, g4, end, PTE_ACCESSED, PTE_IDLE, 12);
    r := SkipLast(v, w4, g4, end);
  }

  /** A directory hole at the end of a range. */
  lemma SkipLast(v: PT.View, w: Walk, addr: nat, end: nat) returns (r: Walked)
    requires addr < end && !Reportable(v(addr)) && PT.AddrEnd(v(addr).level, addr, end) == end
    ensures r == Walked(w.(ctrl := w.ctrl.(restartGpa := end)), false)
    ensures r == Flat(v, w, addr, end)
  {
    r := Visit(w, v(addr), addr, end);
    assert Flat(v, r.w, end, end) == r;
  }

  /** The first round of a read of 30 bytes leaves 8, and the loop goes on. */
  lemma FillingCopy(vm: Vm, sc: Scan, p: Piece) returns (r: Scan)
    requires sc.sent == [] && !p.full && p.next == p.vaEnd > p.w.ctrl.nextHva
    requires p.w.ctrl.tokens != [] && Size(p.w.ctrl.tokens) == 13
    ensures r == CopyOf(vm, 30, sc, p) && r.ret == 0 && r.start == p.next && Short(30, r)
  {
    r := CopyOf(vm, 30, sc, p);
    SizeSnoc(p.w.ctrl.tokens, SetHva(p.next));
    SizeAppend([], p.w.ctrl.tokens + [SetHva(p.next)]);
    LimitFailsExactly(30, r.sent);
  }

  lemma FillingPiece(vm: Vm, s: Slot, w: Walk, g0: nat, g4: nat, end: nat) returns (p: Piece)
    requires s.hva == 0 && s.gpa == g0 && s.gpa + s.size == end && g4 == g0 + 4 * PAGE_SIZE < end && g0 % PAGE_SIZE == 0
    requires forall k :: k in {g0, g0 + PAGE_SIZE, g0 + 2 * PAGE_SIZE, g0 + 3 * PAGE_SIZE} ==> vm.root(k) == PT.Block(0, true)
    requires vm.root(g4) == PT.Block(2, false) && PT.AddrEnd(2, g4, end) == end
    requires w.ctrl.tokens == [] && w.ctrl.pieReadMax == 21 && w.accessed == {g0, g0 + 2 * PAGE_SIZE}
    ensures !p.full && p.next == p.vaEnd == s.size && p.w.ctrl.nextHva == 4 * PAGE_SIZE
    ensures p.w.ctrl.tokens != [] && Size(p.w.ctrl.tokens) == 13
    ensures p == SlotPiece(vm, w, s, 0)
  {
    var w' := w.(ctrl := w.ctrl.(gpaToHva := s.hva - s.gpa));
    var f := FourListed(vm.root, w', g0, g0 + PAGE_SIZE, g0 + 2 * PAGE_SIZE, g0 + 3 * PAGE_SIZE, g4, end);
    SlotPieceIs(vm, s, w, 0, w', g0, f);
    p := Piece(f.w, s.size, s.size, false);
  }

  lemma FullSlot()
    ensures forall k :: k in {LONG_SLOT, LONG_SLOT + PAGE_SIZE, LONG_SLOT + 2 * PAGE_SIZE, LONG_SLOT + 3 * PAGE_SIZE} ==>
              FullVm().root(k) == PT.Block(0, true)
    ensures FullVm().root(PUD_SIZE) == PT.Block(2, false)
    ensures PT.AddrEnd(2, PUD_SIZE, LONG_SLOT + 20 * PAGE_SIZE) == LONG_SLOT + 20 * PAGE_SIZE
  {
    FullBlocks(LONG_SLOT);
    FullBlocks(LONG_SLOT + PAGE_SIZE);
    FullBlocks(LONG_SLOT + 2 * PAGE_SIZE);
    FullBlocks(LONG_SLOT + 3 * PAGE_SIZE);
    FullBlocks(PUD_SIZE);
    Sizes();
  }

  lemma FillingRound(sc: Scan, end: nat) returns (r: Scan)
    requires sc.sent == [] && sc.start == 0 && sc.w.accessed == {LONG_SLOT, LONG_SLOT + 2 * PAGE_SIZE}
    requires sc.w.ctrl.tokens == [] && sc.w.ctrl.pieReadMax == 21
    ensures r.ret == 0 && r.start == 20 * PAGE_SIZE && Short(30, r)
    ensures r == RoundOf(FullVm(), 30, end, sc)
  {
    FullSlot();
    var p := FillingPiece(FullVm(), FULL_SLOTS[0], sc.w, LONG_SLOT, PUD_SIZE, LONG_SLOT + 20 * PAGE_SIZE);
    assert SlotIndex(FULL_SLOTS, 0) == 0;
    r := FillingCopy(FullVm(), sc, p);
  }

  lemma SecondRound(vm: Vm, count: int, end: nat, first: Scan, xs: seq<Scan>, r: Scan)
    requires IsRead(vm, count, end, first, xs) && GoesOn(first, end) && r == RoundOf(vm, count, end, first) && GoesOn(r, end)
    ensures |xs| > 2 && xs[1] == r
  {
    assert |xs| > 1;
    assert StepAt(vm, count, end, xs, 0);
  }

  /** A read of 30 bytes whose first round leaves 8 goes on and copies more than 30. */
  lemma ReadCopiesMore(w: Walk, end: nat, xs: seq<Scan>)
    requires Begins(30, w, 0, end) && end > 20 * PAGE_SIZE && w.accessed == {LONG_SLOT, LONG_SLOT + 2 * PAGE_SIZE}
    requires IsRead(FullVm(), 30, end, First(30, w, 0), xs)
    ensures HostOk(FULL_SLOTS, FullTable()) && Size(xs[|xs| - 1].sent) > 30
  {
    FullOk();
    var r := FillingRound(First(30, w, 0), end);
    SecondRound(FullVm(), 30, end, First(30, w, 0), xs, r);
    ReadFitsExactly(FullVm(), 30, w, 0, end, xs);
  }
}
