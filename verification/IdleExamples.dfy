/** Walks of a process that miss accessed pages: a run of the stream takes the parser behind the end of a
    mapping, and a read behind the end of a mapping clears the accessed bits of the next one's pages. */
module IdleExamples {
  import opened IdleStream
  import opened EptEncoder
  import opened PageList
  import opened EptWalk
  import opened EptLayout
  import opened EptReports
  import opened EptIdle
  import opened EptRounds
  import opened EptRead
  import opened EptTypes
  import opened EptBits
  import opened EptReads
  import opened EptExamples
  import opened IdleRefs
  import opened IdleWalk
  import opened MappingWalk
  import PT = PageTable

  const NEXT_PAGE := 0x1000
  const THIRD_PAGE := 0x2000

  /** The first page is one mapping, the other two another. */
  const TWO_MAPPINGS := [Mapping(0, NEXT_PAGE, true), Mapping(NEXT_PAGE, 0x3000, true)]

  // ----- The first read -----

  /** The walk has listed nr accessed pages from hva on and stands at `addr`. */
  predicate AtRun(w: Walk, addr: nat, hva: nat, nr: nat) {
    && nr < 16 && w.ctrl.tokens == [SetHva(hva), Run(PTE_ACCESSED, nr)] && Size(w.ctrl.tokens) == 10
    && w.ctrl.nextHva == addr && w.ctrl.gpaToHva == 0 && w.ctrl.pieReadMax <= KBUF_SIZE
  }

  lemma RunSize(hva: int, nr: Nibble)
    ensures Size([SetHva(hva), Run(PTE_ACCESSED, nr)]) == 10
  {
    assert [SetHva(hva), Run(PTE_ACCESSED, nr)] == [SetHva(hva)] + [Run(PTE_ACCESSED, nr)];
    assert [] + [SetHva(hva)] == [SetHva(hva)];
    SizeSnoc([], SetHva(hva));
    SizeSnoc([SetHva(hva)], Run(PTE_ACCESSED, nr));
  }

  lemma GrownIs(hva: int, nr: Nibble, next: Nibble)
    requires next == nr + 1
    ensures Grown([SetHva(hva), Run(PTE_ACCESSED, nr)]) == [SetHva(hva), Run(PTE_ACCESSED, next)]
  {
  }

  /** A page that continues the last run. */
  lemma GrownPte(v: PT.View, w: Walk, addr: nat, next: nat, end: nat, hva: nat, nr: nat) returns (w': Walk)
    requires v(addr) == PT.Block(0, true) && addr % PAGE_SIZE == 0 && next == addr + PAGE_SIZE <= end
    requires addr in w.accessed && AtRun(w, addr, hva, nr) && 0 < nr < 15
    ensures Flat(v, w, addr, end) == Flat(v, w', next, end)
    ensures AtRun(w', next, hva, nr + 1) && w'.accessed == w.accessed - {addr}
  {
    PteRounds(addr, next, PTE_ACCESSED);
    NextAdded(w.ctrl, addr, next, PTE_ACCESSED);
    GrownIs(hva, nr, nr + 1);
    RunSize(hva, nr + 1);
    var r := AddPage(w.ctrl, addr, next, PTE_ACCESSED);
    w' := Walk(r.ctrl, w.accessed - {addr});
    PteVisit(v, w, addr, next, end, r, w');
  }

  lemma FirstRun(v: PT.View, w: Walk, addr: nat, next: nat, end: nat) returns (w': Walk)
    requires v(addr) == PT.Block(0, true) && addr % PAGE_SIZE == 0 && next == addr + PAGE_SIZE <= end
    requires w.ctrl.tokens == [] && LimitOk(w.ctrl.pieReadMax) && w.ctrl.gpaToHva == 0 && addr in w.accessed
    ensures Flat(v, w, addr, end) == Flat(v, w', next, end)
    ensures AtRun(w', next, addr, 1) && w'.accessed == w.accessed - {addr}
  {
    PteRounds(addr, next, PTE_ACCESSED);
    RunSize(addr, 1);
    var r := FirstAdded(w.ctrl, addr, next, PTE_ACCESSED);
    var r' := JumpAdded(w.ctrl, addr, next, PTE_ACCESSED, next);
    w' := Walk(r.ctrl, w.accessed - {addr});
    PteVisit(v, w, addr, next, end, r, w');
  }

  lemma FlatDone(v: PT.View, w: Walk, end: nat)
    ensures Flat(v, w, end, end) == Walked(w, false)
  {
  }

  lemma TwoMore(v: PT.View, w: Walk, g1: nat, g2: nat, end: nat, hva: nat) returns (r: Walked)
    requires g2 == g1 + PAGE_SIZE && end == g2 + PAGE_SIZE && g1 % PAGE_SIZE == 0 && g2 % PAGE_SIZE == 0
    requires v(g1) == PT.Block(0, true) && v(g2) == PT.Block(0, true)
    requires AtRun(w, g1, hva, 1) && g1 in w.accessed && g2 in w.accessed
    ensures r == Flat(v, w, g1, end) && r.w.ctrl.tokens == [SetHva(hva), Run(PTE_ACCESSED, 3)]
  {
    var w2 := GrownPte(v, w, g1, g2, end, hva, 1);
    var w3 := GrownPte(v, w2, g2, end, end, hva, 2);
    FlatDone(v, w3, end);
    r := Walked(w3, false);
  }

  /** Three accessed pages are one run. */
  lemma ThreeInRun(v: PT.View, w: Walk, g0: nat, g1: nat, g2: nat, end: nat) returns (r: Walked)
    requires g1 == g0 + PAGE_SIZE && g2 == g1 + PAGE_SIZE && end == g2 + PAGE_SIZE
    requires g0 % PAGE_SIZE == 0 && g1 % PAGE_SIZE == 0 && g2 % PAGE_SIZE == 0
    requires v(g0) == PT.Block(0, true) && v(g1) == PT.Block(0, true) && v(g2) == PT.Block(0, true)
    requires g0 in w.accessed && g1 in w.accessed && g2 in w.accessed
    requires w.ctrl.tokens == [] && LimitOk(w.ctrl.pieReadMax) && w.ctrl.gpaToHva == 0
    ensures r == Flat(v, w, g0, end) && r.w.ctrl.tokens == [SetHva(g0), Run(PTE_ACCESSED, 3)]
  {
    var w1 := FirstRun(v, w, g0, g1, end);
    r := TwoMore(v, w1, g1, g2, end, g0);
  }

  /** With room for 12 bytes three pages, alternately accessed and idle, are listed, and no bit is left. */
  lemma ThreeListed(v: PT.View, w: Walk, g0: nat, g1: nat, g2: nat, end: nat) returns (r: Walked)
    requires g1 == g0 + PAGE_SIZE && g2 == g1 + PAGE_SIZE && end == g2 + PAGE_SIZE
    requires g0 % PAGE_SIZE == 0 && g1 % PAGE_SIZE == 0 && g2 % PAGE_SIZE == 0
    requires v(g0) == PT.Block(0, true) && v(g1) == PT.Block(0, true) && v(g2) == PT.Block(0, true)
    requires g0 in w.accessed && g1 !in w.accessed && g2 in w.accessed
    requires w.ctrl.tokens == [] && 11 < w.ctrl.pieReadMax <= KBUF_SIZE - 9
    ensures r == Flat(v, w, g0, end) && g2 !in r.w.accessed && !r.full
  {
    var w1 := FirstPte(v, w, g0, g1, end, PTE_ACCESSED);
    var w2 := NewPte(v, w1, g1, g2, end, PTE_ACCESSED, PTE_IDLE, 10);
    var w3 := NewPte(v, w2, g2, end, end, PTE_IDLE, PTE_ACCESSED, 11);
    FlatDone(v, w3, end);
    r := Walked(w3, false);
  }

  /** The walk of the slot in the first round. */
  lemma FirstPiece(vm: Vm, w: Walk, end: nat, r: Walked) returns (p: Piece)
    requires ThreeAt(vm) && w.ctrl.gpaToHva == 0 && r == Flat(vm.root, w, 0, 3 * PAGE_SIZE)
    ensures p == PieceOf(vm, w, 0, end) && p.w == r.w && p.full == r.full
  {
    Sizes();
    assert SlotIndex(vm.slots, 0) == 0;
    SlotPieceIs(vm, THREE_PAGES[0], w, 0, w, 0, r);
    p := SlotPiece(vm, w, THREE_PAGES[0], 0);
  }

  lemma FirstState(w: Walk) returns (sc: Scan)
    requires w.ctrl.gpaToHva == 0
    ensures sc == First(0x1000, w, 0) && sc.ret == 0 && sc.start == 0 && sc.sent == [] && sc.w.accessed == w.accessed
    ensures sc.w.ctrl.tokens == [] && sc.w.ctrl.pieReadMax == 4087 && sc.w.ctrl.gpaToHva == 0
  {
    sc := First(0x1000, w, 0);
  }

  lemma SentPrefix(vm: Vm, sc: Scan, p: Piece) returns (r: Scan)
    requires sc.sent == []
    ensures r == CopyOf(vm, 0x1000, sc, p) && p.w.ctrl.tokens <= r.sent
  {
    r := CopyOf(vm, 0x1000, sc, p);
    assert r.sent == Tailed(p.w.ctrl, p.next, p.vaEnd).tokens;
  }

  /** The first round lists three accessed pages as one run. */
  lemma RunRound(vm: Vm, w: Walk, end: nat) returns (r: Scan)
    requires ThreeAt(vm) && w.ctrl.gpaToHva == 0 && w.accessed == {0, PAGE_SIZE, 2 * PAGE_SIZE}
    ensures r == RoundOf(vm, 0x1000, end, First(0x1000, w, 0))
    ensures [SetHva(0), Run(PTE_ACCESSED, 3)] <= r.sent
  {
    var sc := FirstState(w);
    var f := ThreeInRun(vm.root, sc.w, 0, PAGE_SIZE, 2 * PAGE_SIZE, 3 * PAGE_SIZE);
    var p := FirstPiece(vm, sc.w, end, f);
    r := SentPrefix(vm, sc, p);
  }

  /** The first round leaves no bit of three pages, alternately accessed and idle. */
  lemma ClearingRound(vm: Vm, w: Walk, end: nat) returns (r: Scan)
    requires ThreeAt(vm) && w.ctrl.gpaToHva == 0 && w.accessed == {0, 2 * PAGE_SIZE}
    ensures r == RoundOf(vm, 0x1000, end, First(0x1000, w, 0)) && 2 * PAGE_SIZE !in r.w.accessed
  {
    var sc := FirstState(w);
    var f := ThreeListed(vm.root, sc.w, 0, PAGE_SIZE, 2 * PAGE_SIZE, 3 * PAGE_SIZE);
    var p := FirstPiece(vm, sc.w, end, f);
    r := CopyOf(vm, 0x1000, sc, p);
  }

  // ----- What the read keeps of its first round -----

  lemma SecondState(vm: Vm, count: int, end: nat, first: Scan, xs: seq<Scan>, r: Scan)
    requires IsRead(vm, count, end, first, xs) && GoesOn(first, end) && r == RoundOf(vm, count, end, first)
    ensures |xs| > 1 && xs[1] == r
  {
    assert |xs| > 1;
    assert StepAt(vm, count, end, xs, 0);
  }

  lemma {:induction false} SentGrows(vm: Vm, count: int, end: nat, first: Scan, xs: seq<Scan>, j: nat, k: nat)
    requires Scans(vm, count, end, first, xs) && j <= k < |xs|
    ensures xs[j].sent <= xs[k].sent
  {
    if j < k {
      SentGrows(vm, count, end, first, xs, j, k - 1);
      assert StepAt(vm, count, end, xs, k - 1);
    }
  }

  lemma RoundShrinks(vm: Vm, count: int, a: nat, end: nat, sc: Scan)
    requires HostVmOk(vm) && Going(vm, count, a, sc)
    ensures RoundOf(vm, count, end, sc).w.accessed <= sc.w.accessed
  {
    var i, p := SlotIndex(vm.slots, sc.start), PieceOf(vm, sc.w, sc.start, end);
    if i < |vm.slots| {
      SlotClears(vm, count, a, i, vm.slots[i], sc, p);
    }
  }

  lemma NextShrinks(vm: Vm, count: int, w: Walk, a: nat, end: nat, xs: seq<Scan>, k: nat, sc: Scan, r: Scan)
    requires HostVmOk(vm) && Begins(count, w, a, end) && Scans(vm, count, end, First(count, w, a), xs)
    requires k + 1 < |xs| && sc == xs[k] && r == xs[k + 1]
    ensures r.w.accessed <= sc.w.accessed
  {
    var sc' := RoundAt(vm, count, w, a, end, xs, k);
    RoundShrinks(vm, count, a, end, sc);
  }

  lemma {:induction false} BitsShrink(vm: Vm, count: int, w: Walk, a: nat, end: nat, xs: seq<Scan>, j: nat, k: nat)
    requires HostVmOk(vm) && Begins(count, w, a, end) && Scans(vm, count, end, First(count, w, a), xs) && j <= k < |xs|
    ensures xs[k].w.accessed <= xs[j].w.accessed
  {
    if j < k {
      BitsShrink(vm, count, w, a, end, xs, j, k - 1);
      NextShrinks(vm, count, w, a, end, xs, k - 1, xs[k - 1], xs[k]);
    }
  }

  // ----- The walks -----

  /** The first of the two mappings is walked from 0 on, beginning with a read of 4096 bytes. */
  lemma FirstWalk(vm: Vm, ws: seq<MapWalk>, bits: set<nat>)
    requires WalksOver(vm, TWO_MAPPINGS, 0, TASK_SIZE, 0x1000, ws, bits)
    ensures 1 <= |ws| <= 2 && ws[0].from == 0 && ws[0].stop == NEXT_PAGE && ws[0].rs != [] && MapOk(vm, ws[0], 0x1000)
    ensures |ws| == 2 ==> ws[1].stop == 0x3000
    ensures var r := ws[0].rs[0]; ReadOk(vm, r) && r.pos == 0 && r.count == 0x1000 && r.accessed == bits
  {
    var one := TWO_MAPPINGS[..1];
    assert one[..0] == [];
    if WalksOver(vm, one, 0, TASK_SIZE, 0x1000, ws, bits) {
      FirstTaken(vm, ws, bits);
    } else {
      var past := ws[..|ws| - 1];
      FirstTaken(vm, past, bits);
      assert past[0] == ws[0];
    }
  }

  lemma FirstTaken(vm: Vm, ws: seq<MapWalk>, bits: set<nat>)
    requires WalksOver(vm, TWO_MAPPINGS[..1], 0, TASK_SIZE, 0x1000, ws, bits)
    ensures |ws| == 1 && ws[0].from == 0 && ws[0].stop == NEXT_PAGE && ws[0].rs != [] && MapOk(vm, ws[0], 0x1000)
    ensures var r := ws[0].rs[0]; ReadOk(vm, r) && r.pos == 0 && r.count == 0x1000 && r.accessed == bits
  {
    var one := TWO_MAPPINGS[..1];
    assert one[..0] == [] && one[0] == Mapping(0, NEXT_PAGE, true);
    assert WalksOver(vm, [], 0, TASK_SIZE, 0x1000, ws[..|ws| - 1], bits);
    assert LastTakes(vm, ws, one[0], 0, TASK_SIZE, 0x1000, bits);
  }

  /** The states of the first read behind its first round. */
  lemma FirstRead(vm: Vm, r: PastRead, s: Scan)
    requires HostVmOk(vm) && ReadOk(vm, r) && r.pos == 0 && r.count == 0x1000
    requires s == RoundOf(vm, 0x1000, r.RangeEnd(), First(0x1000, r.W(), 0))
    ensures s.sent <= r.last.sent && r.last.w.accessed <= s.w.accessed
  {
    ReadBegins(vm, r);
    var first := FirstState(r.W());
    var last := |r.scans| - 1;
    SecondState(vm, 0x1000, r.RangeEnd(), first, r.scans, s);
    SentGrows(vm, 0x1000, r.RangeEnd(), first, r.scans, 1, last);
    BitsShrink(vm, 0x1000, r.W(), 0, r.RangeEnd(), r.scans, 1, last);
  }

  lemma ThreeOk() returns (vm: Vm)
    ensures vm == ThreePages() && HostVmOk(vm) && ThreeAt(vm) && GuestDisjoint(vm.slots)
    ensures HostOk(THREE_PAGES, Table(0, 0, 3))
  {
    vm := ThreePages();
    ThreePagesOk();
  }

  lemma TwoWalks(ws: seq<MapWalk>, bits: set<nat>) returns (vm: Vm, r: PastRead)
    requires WalksOver(ThreePages(), TWO_MAPPINGS, 0, TASK_SIZE, 0x1000, ws, bits)
    ensures ws != [] && ws[0].stop == NEXT_PAGE && ws[0].rs != [] && ws[0].rs[0] == r
    ensures r.pos == 0 && r.count == 0x1000 && r.accessed == bits
    ensures HostOk(THREE_PAGES, Table(0, 0, 3)) && HostVmOk(vm) && ThreeAt(vm) && GuestDisjoint(vm.slots)
    ensures InOrder(vm, ws, 0x1000, bits) && ReadOk(vm, r)
  {
    vm := ThreeOk();
    FirstWalk(vm, ws, bits);
    r := ws[0].rs[0];
    OverInOrder(vm, TWO_MAPPINGS, 0, TASK_SIZE, 0x1000, ws, bits);
  }

  lemma {:induction false} InPresent(ps: seq<Page>, q: Page)
    requires q in ps && !IsHole(q.t)
    ensures q in Present(ps)
  {
    if q in ps[..|ps| - 1] {
      InPresent(ps[..|ps| - 1], q);
    }
  }

  /** A stream that begins with a run of three pages at 0 takes a parser of the first page alone over the
      other two. */
  lemma RunCrosses(sent: seq<Token>, q: Page)
    requires [SetHva(0), Run(PTE_ACCESSED, 3)] <= sent && q in {Page(NEXT_PAGE, PTE_ACCESSED), Page(THIRD_PAGE, PTE_ACCESSED)}
    ensures q in Seen(sent) && Crosses(sent, 0, NEXT_PAGE, q)
  {
    assert sent[..1] == [] + [SetHva(0)];
    MeaningSnoc(0, [], SetHva(0));
    assert sent[1] == Run(PTE_ACCESSED, 3);
    ThreeExpanded();
    assert CrossesAt(sent, 0, NEXT_PAGE, q, 1);
    RunListed(sent, 0, 1, q);
    InPresent(Items(sent), q);
  }

  lemma ThreeExpanded()
    ensures Expand(0, PTE_ACCESSED, 3) == [Page(0, PTE_ACCESSED), Page(NEXT_PAGE, PTE_ACCESSED), Page(THIRD_PAGE, PTE_ACCESSED)]
  {
    assert Expand(0, PTE_ACCESSED, 1) == [] + [Page(0, PTE_ACCESSED)];
    assert Expand(0, PTE_ACCESSED, 2) == Expand(0, PTE_ACCESSED, 1) + [Page(NEXT_PAGE, PTE_ACCESSED)];
  }

  /** A read that lists a page behind the end of the mapping is the last of the mapping's walk. */
  lemma OnlyRead(vm: Vm, w: MapWalk, least: nat, q: Page)
    requires HostVmOk(vm) && MapOk(vm, w, least) && w.rs != [] && q in w.rs[0].Pages() && PageEnd(q) > w.stop
    ensures |w.rs| == 1
  {
    assert SizesOk(w.rs, w.stop, least);
    if |w.rs| > 1 {
      var v := ReadOrder(vm, w.rs, 0);
    }
  }

  /** Three accessed pages, the first in one mapping, the others in the next: the walk counts neither of
      the others. */
  lemma RunLosesPages(ws: seq<MapWalk>, q: Page)
    requires WalksOver(ThreePages(), TWO_MAPPINGS, 0, TASK_SIZE, 0x1000, ws, {0, NEXT_PAGE, THIRD_PAGE})
    requires q in {Page(NEXT_PAGE, PTE_ACCESSED), Page(THIRD_PAGE, PTE_ACCESSED)}
    ensures HostOk(THREE_PAGES, Table(0, 0, 3)) && RefsIn(CallsOf(ws), q.va, PageEnd(q)) == []
  {
    var bits := {0, NEXT_PAGE, THIRD_PAGE};
    var vm, r := TwoWalks(ws, bits);
    RunReadCrosses(vm, r, q);
    FirstLost(vm, ws, 0x1000, bits, q);
  }

  lemma FirstLost(vm: Vm, ws: seq<MapWalk>, least: nat, bits: set<nat>, q: Page)
    requires HostVmOk(vm) && InOrder(vm, ws, least, bits) && ws != [] && ws[0].rs != []
    requires var r := ws[0].rs[0];
             q in r.Pages() && Crosses(r.last.sent, r.pos, ws[0].stop, q) && ws[0].stop <= q.va < PageEnd(q)
    ensures RefsIn(CallsOf(ws), q.va, PageEnd(q)) == []
  {
    OnlyRead(vm, ws[0], least, q);
    CrossingLost(vm, ws, least, bits, 0, q);
  }

  lemma RunReadCrosses(vm: Vm, r: PastRead, q: Page)
    requires HostVmOk(vm) && ThreeAt(vm) && ReadOk(vm, r) && r.pos == 0 && r.count == 0x1000
    requires r.accessed == {0, NEXT_PAGE, THIRD_PAGE}
    requires q in {Page(NEXT_PAGE, PTE_ACCESSED), Page(THIRD_PAGE, PTE_ACCESSED)}
    ensures q in r.Pages() && Crosses(r.last.sent, 0, NEXT_PAGE, q)
  {
    var s := RunRound(vm, r.W(), r.RangeEnd());
    FirstRead(vm, r, s);
    RunCrosses(r.last.sent, q);
  }

  // ----- A bit cleared too early -----

  lemma {:induction false} RefsInHas(refs: seq<Ref>, lo: int, hi: int, c: Ref)
    requires c in refs && lo <= c.va < hi
    ensures c in RefsIn(refs, lo, hi)
  {
    if c in refs[..|refs| - 1] {
      RefsInHas(refs[..|refs| - 1], lo, hi, c);
    }
  }

  lemma {:induction false} BitsGrow(vm: Vm, rs: seq<PastRead>, n: nat)
    requires n <= |rs|
    ensures BitsOf(vm, ListOf(rs[..n])) <= BitsOf(vm, ListOf(rs)) && RefusedOf(rs[..n]) <= RefusedOf(rs)
  {
    if n < |rs| {
      var front := rs[..|rs| - 1];
      assert front[..n] == rs[..n];
      BitsGrow(vm, front, n);
      BitsAppend(vm, ListOf(front), rs[|rs| - 1].Pages());
    } else {
      assert rs[..n] == rs;
    }
  }

  /** A bit that the first read has cleared counts nothing in later reads. */
  lemma ClearedWorth(vm: Vm, ws: seq<MapWalk>, least: nat, bits: set<nat>, j: nat, k: nat, g: nat)
    requires HostVmOk(vm) && InOrder(vm, ws, least, bits) && 0 < j < |ws| && k < |ws[j].rs| && ws[0].rs != []
    requires g !in ws[0].rs[0].last.w.accessed
    ensures WorthIn(vm, ws, bits, j, k, g) == 0
  {
    var all := ChainTo(vm, ws, least, bits, j, k);
    var earlier := Earlier(ws, j, k);
    FirstOfReads(ws[..j]);
    assert all[0] == ws[0].rs[0] == earlier[0] && all[1].accessed == all[0].last.w.accessed;
    assert all[..1] == earlier[..1];
    ReadsClear(vm, all, 1);
    BitsGrow(vm, earlier, 1);
    BitsGrow(vm, all, |earlier|);
    assert all[..|earlier|] == earlier;
  }

  lemma {:induction false} FirstOfReads(ws: seq<MapWalk>)
    requires ws != [] && ws[0].rs != []
    ensures ReadsOf(ws) != [] && ReadsOf(ws)[0] == ws[0].rs[0]
  {
    if |ws| > 1 {
      FirstOfReads(ws[..|ws| - 1]);
    } else {
      assert ws[..0] == [];
    }
  }

  lemma ThirdHvaAt(vm: Vm, s: Slot, x: nat)
    requires ThreeAt(vm) && s == vm.slots[0] && x == 2 * PAGE_SIZE
    ensures PagesOf(vm)(x) == Some(Extent(x, PAGE_SIZE)) && BaseOf(vm, x) == x
  {
    Sizes();
    assert SlotIndex(vm.slots, x) == 0;
    BaseAt(vm, 0, s, x, x);
    assert Start(vm.root, x) == x;
  }

  lemma ThirdHva(vm: Vm)
    requires ThreeAt(vm)
    ensures PagesOf(vm)(THIRD_PAGE) == Some(Extent(THIRD_PAGE, PAGE_SIZE)) && BaseOf(vm, THIRD_PAGE) == THIRD_PAGE
    ensures vm.root(THIRD_PAGE).level == 0
  {
    ThirdHvaAt(vm, vm.slots[0], THIRD_PAGE);
  }

  /** The listed page for which a call at the third page is made. */
  lemma ThirdCall(vm: Vm, w: MapWalk, least: nat, c: Ref) returns (k: nat, p: Page)
    requires HostVmOk(vm) && ThreeAt(vm) && MapOk(vm, w, least) && c in CallsIn(w) && c.va == THIRD_PAGE
    ensures k < |w.rs| && p in w.rs[k].Pages() && p.va == THIRD_PAGE < w.stop
  {
    var i :| 0 <= i < |CallsIn(w)| && CallsIn(w)[i] == c;
    var j := CallInPage(ListOf(w.rs), w.stop, i);
    p := ListOf(w.rs)[j];
    k := InSomeRead(w.rs, p);
    WalkPages(vm, w, least, p);
    ThirdHva(vm);
    PagesConsistent(vm);
    ShownInside(PagesOf(vm), p, THIRD_PAGE);
  }

  lemma ClearingRead(vm: Vm, r: PastRead)
    requires HostVmOk(vm) && ThreeAt(vm) && ReadOk(vm, r) && r.pos == 0 && r.count == 0x1000
    requires r.accessed == {0, THIRD_PAGE}
    ensures THIRD_PAGE !in r.last.w.accessed
  {
    var s := ClearingRound(vm, r.W(), r.RangeEnd());
    FirstRead(vm, r, s);
  }

  /** Three pages, the first and the last accessed, the first one mapping and the others the next. The
      read of the first mapping goes beyond its end and clears the bit of the last page, which the walk
      of the next mapping then counts with 0. */
  lemma OverreadCountsIdle(ws: seq<MapWalk>, c: Ref)
    requires WalksOver(ThreePages(), TWO_MAPPINGS, 0, TASK_SIZE, 0x1000, ws, {0, THIRD_PAGE})
    requires c in CallsOf(ws) && c.va == THIRD_PAGE
    ensures HostOk(THREE_PAGES, Table(0, 0, 3)) && c.n == 0
  {
    var bits := {0, THIRD_PAGE};
    var vm, r := TwoWalks(ws, bits);
    ClearingRead(vm, r);
    ThirdCountsIdle(vm, ws, 0x1000, bits, c);
  }

  lemma ThirdCountsIdle(vm: Vm, ws: seq<MapWalk>, least: nat, bits: set<nat>, c: Ref)
    requires HostVmOk(vm) && ThreeAt(vm) && GuestDisjoint(vm.slots) && InOrder(vm, ws, least, bits)
    requires ws != [] && ws[0].rs != [] && ws[0].stop <= THIRD_PAGE
    requires THIRD_PAGE !in ws[0].rs[0].last.w.accessed
    requires c in CallsOf(ws) && c.va == THIRD_PAGE
    ensures c.n == 0
  {
    var j := CallIsIn(ws, c);
    var k, p := ThirdCall(vm, ws[j], least, c);
    ThirdHva(vm);
    ClearedWorth(vm, ws, least, bits, j, k, THIRD_PAGE);
    SmallPageCall(vm, ws, least, bits, j, k, p, THIRD_PAGE);
    OneCallCounts(CallsOf(ws), THIRD_PAGE, ws[j].stop, PTE_ACCESSED, 0x1000, 0, c);
  }

  lemma SmallPageCall(vm: Vm, ws: seq<MapWalk>, least: nat, bits: set<nat>, j: nat, k: nat, p: Page, g: nat)
    requires HostVmOk(vm) && GuestDisjoint(vm.slots) && InOrder(vm, ws, least, bits)
    requires j < |ws| && k < |ws[j].rs| && p in ws[j].rs[k].Pages() && 0 <= p.va < ws[j].stop
    requires g == BaseOf(vm, p.va) && vm.root(g).level == 0 && WorthIn(vm, ws, bits, j, k, g) == 0
    ensures OneCall(CallsOf(ws), p.va, ws[j].stop, PTE_ACCESSED, 0x1000, 0)
  {
    WholeWalkCalls(vm, ws, least, bits, j, k, p);
  }

  lemma OneCallCounts(refs: seq<Ref>, va: int, end: int, index: PageType, size: nat, n: nat, c: Ref)
    requires size > 0 && OneCall(refs, va, end, index, size, n) && c in refs && va <= c.va < va + size
    ensures c.n == n
  {
    RefsInHas(refs, va, va + size, c);
  }
}
