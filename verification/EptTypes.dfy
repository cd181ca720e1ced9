/** Which type a read gives a page: accessed exactly if its bit was set when the read began and no
    earlier round of the read refused it. */
module EptTypes {
  import opened IdleStream
  import opened EptEncoder
  import opened PageList
  import opened EptWalk
  import opened EptLayout
  import opened EptReports
  import opened EptRounds
  import PT = PageTable

  /** No guest address is in two slots. */
  predicate GuestDisjoint(slots: seq<Slot>) {
    forall i, j :: 0 <= i < |slots| && 0 <= j < |slots| && i != j ==>
      slots[i].gpa + slots[i].size <= slots[j].gpa || slots[j].gpa + slots[j].size <= slots[i].gpa
  }

  /** The guest address of the page that host address x belongs to. */
  function BaseOf(vm: Vm, x: nat): int {
    var i := SlotIndex(vm.slots, x);
    if i == |vm.slots| then -1
    else Start(vm.root, x - vm.slots[i].hva + vm.slots[i].gpa)
  }

  /** The type says whether the page's bit is in `bits`. */
  predicate TypeIs(vm: Vm, p: Page, bits: set<nat>) {
    && p.va >= 0 && var g := BaseOf(vm, p.va);
       g >= 0 && vm.root(g).isPage && p.t == EntryType(vm.root(g), g in bits)
  }

  predicate Typed(vm: Vm, ps: seq<Page>, bits: set<nat>) {
    forall i :: 0 <= i < |ps| ==> TypeIs(vm, ps[i], bits)
  }

  /** From h on the accessed bits are those in `bits`. */
  ghost predicate BitsFrom(vm: Vm, accessed: set<nat>, bits: set<nat>, h: nat) {
    forall x: nat {:trigger BaseOf(vm, x)} :: h <= x && HvaPage(vm, x).Some? ==>
      (BaseOf(vm, x) in accessed <==> BaseOf(vm, x) in bits)
  }

  lemma BaseInSlot(vm: Vm, i: nat, s: Slot, g: nat, x: nat)
    requires VmOk(vm) && i < |vm.slots| && s == vm.slots[i] && s.HoldsHva(x) && x == s.Hva(g)
    ensures BaseOf(vm, x) == Start(vm.root, g) && HvaPage(vm, x) == BlockPage(vm.root, s, g)
  {
    SlotIndexUnique(vm, x, i);
    BaseAt(vm, i, s, g, x);
  }

  lemma BaseAt(vm: Vm, i: nat, s: Slot, g: nat, x: nat)
    requires i == SlotIndex(vm.slots, x) < |vm.slots| && s == vm.slots[i] && g == x - s.hva + s.gpa
    ensures BaseOf(vm, x) == Start(vm.root, g) && HvaPage(vm, x) == BlockPage(vm.root, s, g)
  {
  }

  /** Pages of one guest address are one page, when the slots are apart in the guest. */
  lemma SameBase(vm: Vm, i: nat, s: Slot, g: nat, y: nat)
    requires VmOk(vm) && GuestDisjoint(vm.slots) && i < |vm.slots| && s == vm.slots[i]
    requires s.gpa <= g < s.gpa + s.size && vm.root(g).isPage
    requires HvaPage(vm, y).Some? && BaseOf(vm, y) == Start(vm.root, g)
    ensures s.Hva(Start(vm.root, g)) <= y < s.Hva(End(vm.root, g))
  {
    var j := SlotIndex(vm.slots, y);
    var s2 := vm.slots[j];
    var g2 := y - s2.hva + s2.gpa;
    assert BlocksInside(vm.root, s) && BlocksInside(vm.root, s2);
    assert vm.root(g2).isPage;
    assert s.gpa <= Start(vm.root, g) && s2.gpa <= Start(vm.root, g2);
    assert i == j;
    assert vm.root(Start(vm.root, g)) == vm.root(g) && vm.root(Start(vm.root, g2)) == vm.root(g2);
  }

  /** The page a walk refuses at g, whose bit it has cleared. */
  function RefusedAt(root: PT.View, g: nat): set<nat> {
    if root(g).isPage && root(g).level <= 1 then {Start(root, g)} else {}
  }

  lemma VisitBits(w: Walk, root: PT.View, g: nat, next: nat)
    ensures Visit(w, root(g), g, next).w.accessed == w.accessed - RefusedAt(root, g)
  {
  }

  // ----- One entry -----

  /** The entry of g is typed by its bit. */
  lemma EntryTyped(vm: Vm, i: nat, s: Slot, g: nat, accessed: set<nat>, bits: set<nat>)
    requires VmOk(vm) && i < |vm.slots| && s == vm.slots[i] && s.gpa <= g < s.gpa + s.size
    requires BitsFrom(vm, accessed, bits, s.Hva(g))
    ensures Typed(vm, EntryOf(vm.root, s, g, accessed), bits)
  {
    if vm.root(g).isPage {
      var base := Start(vm.root, g);
      assert BlocksInside(vm.root, s);
      BaseInSlot(vm, i, s, g, s.Hva(g));
      BaseInSlot(vm, i, s, base, s.Hva(base));
      assert vm.root(base) == vm.root(g);
      PT.SameBlock(vm.root(g).level, g, base);
    }
  }

  /** Clearing the bit of the entry of g changes no bit behind it. */
  lemma BitsBehind(vm: Vm, i: nat, s: Slot, g: nat, h: nat, accessed: set<nat>, bits: set<nat>)
    requires VmOk(vm) && GuestDisjoint(vm.slots) && i < |vm.slots| && s == vm.slots[i] && s.gpa <= g < s.gpa + s.size
    requires BitsFrom(vm, accessed, bits, s.Hva(g)) && s.Hva(g) <= h
    requires vm.root(g).isPage ==> s.Hva(End(vm.root, g)) <= h
    ensures BitsFrom(vm, accessed - RefusedAt(vm.root, g), bits, h)
  {
    forall y: nat | h <= y && HvaPage(vm, y).Some?
      ensures BaseOf(vm, y) in accessed - RefusedAt(vm.root, g) <==> BaseOf(vm, y) in bits
    {
      if vm.root(g).isPage && BaseOf(vm, y) == Start(vm.root, g) {
        SameBase(vm, i, s, g, y);
      }
    }
  }

  lemma TypedAppend(vm: Vm, ps: seq<Page>, qs: seq<Page>, bits: set<nat>)
    requires Typed(vm, ps, bits) && Typed(vm, qs, bits)
    ensures Typed(vm, ps + qs, bits)
  {
  }

  lemma VisitTyped(vm: Vm, i: nat, s: Slot, w: Walk, before: seq<Page>, a: nat, g: nat, bits: set<nat>)
    returns (next: nat, r: Walked)
    requires VmOk(vm) && GuestDisjoint(vm.slots) && i < |vm.slots| && s == vm.slots[i]
    requires Ready(vm, s, w.ctrl, before, a, g) && InView(vm, s, a, s.Hva(g))
    requires Typed(vm, Seen(w.ctrl.tokens), bits) && BitsFrom(vm, w.accessed, bits, s.Hva(g))
    ensures next == PT.AddrEnd(vm.root(g).level, g, s.gpa + s.size) && r == Visit(w, vm.root(g), g, next)
    ensures Typed(vm, Seen(r.w.ctrl.tokens), bits)
    ensures !r.full ==> BitsFrom(vm, r.w.accessed, bits, s.Hva(After(vm.root, s, g)))
    ensures r.full ==> BitsFrom(vm, r.w.accessed, bits - RefusedAt(vm.root, g), s.Hva(g))
  {
    next, r := VisitReports(vm, i, s, w, before, a, g);
    VisitBits(w, vm.root, g, next);
    AfterIs(vm.root, s, g);
    if !r.full {
      EntryTyped(vm, i, s, g, w.accessed, bits);
      TypedAppend(vm, Seen(w.ctrl.tokens), EntryOf(vm.root, s, g, w.accessed), bits);
      BitsBehind(vm, i, s, g, s.Hva(After(vm.root, s, g)), w.accessed, bits);
    } else {
      assert Seen(w.ctrl.tokens) + [] == Seen(w.ctrl.tokens);
    }
  }

  // ----- The walk of a slot -----

  lemma {:induction false} FlatTyped(vm: Vm, i: nat, s: Slot, w: Walk, before: seq<Page>, a: nat, g: nat, bits: set<nat>)
    returns (r: Walked, stop: nat)
    requires VmOk(vm) && GuestDisjoint(vm.slots) && i < |vm.slots| && s == vm.slots[i]
    requires Ready(vm, s, w.ctrl, before, a, g) && InView(vm, s, a, s.Hva(g))
    requires Typed(vm, Seen(w.ctrl.tokens), bits) && BitsFrom(vm, w.accessed, bits, s.Hva(g))
    ensures r == Flat(vm.root, w, g, s.gpa + s.size) && stop == r.w.ctrl.restartGpa && s.gpa <= stop
    ensures Typed(vm, Seen(r.w.ctrl.tokens), bits)
    ensures !r.full ==> stop == Over(vm.root, s) && BitsFrom(vm, r.w.accessed, bits, s.Hva(stop))
    ensures r.full ==> stop < s.gpa + s.size && BitsFrom(vm, r.w.accessed, bits - RefusedAt(vm.root, stop), s.Hva(stop))
    decreases s.gpa + s.size - g
  {
    var next;
    next, r := VisitReports(vm, i, s, w, before, a, g);
    next, r := VisitTyped(vm, i, s, w, before, a, g, bits);
    if r.full {
      stop := g;
    } else if next < s.gpa + s.size {
      AfterIs(vm.root, s, g);
      NextBlockStarts(vm.root, g);
      r, stop := FlatTyped(vm, i, s, r.w, before, a, next, bits);
    } else {
      stop := Over(vm.root, s);
      assert Flat(vm.root, r.w, next, s.gpa + s.size) == Walked(r.w, false);
    }
  }

  // ----- A round -----

  /** Pages listed before the refused one keep their types when its bit is cleared. */
  lemma TypedWithout(vm: Vm, i: nat, s: Slot, ps: seq<Page>, a: nat, g: nat, bits: set<nat>)
    requires VmOk(vm) && GuestDisjoint(vm.slots) && i < |vm.slots| && s == vm.slots[i] && s.gpa <= g < s.gpa + s.size
    requires Start(vm.root, g) == g && IsPageList(Shown(vm, a), ps, a, s.Hva(g)) && Typed(vm, ps, bits)
    ensures Typed(vm, ps, bits - RefusedAt(vm.root, g))
  {
    forall k | 0 <= k < |ps| ensures TypeIs(vm, ps[k], bits - RefusedAt(vm.root, g)) {
      assert TypeIs(vm, ps[k], bits) && Meets(Shown(vm, a), ps[k], a, s.Hva(g));
      if vm.root(g).isPage && BaseOf(vm, ps[k].va) == g {
        BaseIsPage(vm, ps[k].va);
        SameBase(vm, i, s, g, ps[k].va);
      }
    }
  }

  lemma BaseIsPage(vm: Vm, x: nat)
    requires VmOk(vm) && BaseOf(vm, x) >= 0 && vm.root(BaseOf(vm, x)).isPage
    ensures HvaPage(vm, x).Some?
  {
    var s := vm.slots[SlotIndex(vm.slots, x)];
    var g := x - s.hva + s.gpa;
    assert vm.root(Start(vm.root, g)) == vm.root(g);
  }

  /** At the head of a round, `bits` less what was refused type the pages sent and are the bits still
      ahead. */
  ghost predicate Types(vm: Vm, sc: Scan, bits: set<nat>) {
    && Typed(vm, Seen(sc.sent), bits - sc.refused)
    && (sc.ret == 0 ==> sc.start >= 0 && BitsFrom(vm, sc.w.accessed, bits - sc.refused, sc.start))
  }

  lemma SlotTyped(vm: Vm, i: nat, s: Slot, sc: Scan, a: nat, p: Piece, bits: set<nat>) returns (stop: nat)
    requires sc.start >= 0 && VmOk(vm) && GuestDisjoint(vm.slots)
    requires i == SlotIndex(vm.slots, sc.start) < |vm.slots| && s == vm.slots[i]
    requires sc.w.ctrl.tokens == [] && LimitOk(sc.w.ctrl.pieReadMax) && p == SlotPiece(vm, sc.w, s, sc.start)
    requires SentUpTo(Shown(vm, a), sc.sent, sc.w.ctrl.nextHva, a, sc.start)
    requires Edge(vm, Items(sc.sent), sc.start) && Track(vm, a, sc.start)
    requires BitsFrom(vm, sc.w.accessed, bits, sc.start)
    ensures stop == p.w.ctrl.restartGpa && p.next == s.Hva(stop) && s.gpa <= stop
    ensures Typed(vm, Seen(p.w.ctrl.tokens), bits)
    ensures !p.full ==> BitsFrom(vm, p.w.accessed, bits, p.next)
    ensures p.full ==> stop < s.gpa + s.size && BitsFrom(vm, p.w.accessed, bits - RefusedAt(vm.root, stop), p.next)
  {
    var g, w := sc.start - s.hva + s.gpa, sc.w.(ctrl := sc.w.ctrl.(gpaToHva := s.hva - s.gpa));
    SlotReady(vm, i, s, w.ctrl, sc.sent, a, sc.start, g);
    SlotInView(vm, i, s, a, sc.start);
    EmptyItems();
    var r;
    r, stop := FlatTyped(vm, i, s, w, Items(sc.sent), a, g, bits);
    SlotPieceIs(vm, s, sc.w, sc.start, w, g, r);
  }

  /** What a round adds to the pages sent. */
  lemma SentSeen(vm: Vm, count: int, sc: Scan, p: Piece)
    requires Opened(p.w.ctrl.tokens)
    ensures Seen(CopyOf(vm, count, sc, p).sent) == Seen(sc.sent) + Seen(p.w.ctrl.tokens)
  {
    var c, tail := p.w.ctrl, TailAt(p.w.ctrl, p.next, p.vaEnd);
    EmptyItems();
    assert Seen(sc.sent) + [] == Seen(sc.sent) && sc.sent + [] == sc.sent;
    if c.tokens != [] {
      SeenAppend(sc.sent, c.tokens);
    }
    SeenHva(sc.sent + c.tokens, tail);
    Associative(sc.sent, c.tokens, [SetHva(tail)]);
  }

  lemma SetsApart(a: set<nat>, b: set<nat>, c: set<nat>)
    ensures a - (b + c) == (a - b) - c
  {
  }

  /** A round that is not cut short by a refused entry. */
  lemma WholeTyped(vm: Vm, count: int, sc: Scan, p: Piece, bits: set<nat>) returns (r: Scan)
    requires Opened(p.w.ctrl.tokens) && Types(vm, sc, bits) && !p.full
    requires Typed(vm, Seen(p.w.ctrl.tokens), bits - sc.refused)
    requires p.w.ctrl.tokens != [] ==> p.next >= 0 && BitsFrom(vm, p.w.accessed, bits - sc.refused, p.next)
    ensures r == CopyOf(vm, count, sc, p) && Types(vm, r, bits)
  {
    r := CopyOf(vm, count, sc, p);
    SentSeen(vm, count, sc, p);
    TypedAppend(vm, Seen(sc.sent), Seen(p.w.ctrl.tokens), bits - sc.refused);
    assert r.refused == sc.refused;
  }

  /** A round that ends with a refused entry. */
  lemma RefusedTyped(vm: Vm, count: int, i: nat, s: Slot, a: nat, sc: Scan, p: Piece, stop: nat, bits: set<nat>)
    returns (r: Scan)
    requires VmOk(vm) && GuestDisjoint(vm.slots) && i < |vm.slots| && s == vm.slots[i] && s.gpa <= stop < s.gpa + s.size
    requires Opened(p.w.ctrl.tokens) && Types(vm, sc, bits) && p.full && stop == p.w.ctrl.restartGpa && p.next == s.Hva(stop)
    requires Typed(vm, Seen(p.w.ctrl.tokens), bits - sc.refused) && Start(vm.root, stop) == stop
    requires IsPageList(Shown(vm, a), Seen(sc.sent) + Seen(p.w.ctrl.tokens), a, s.Hva(stop))
    requires BitsFrom(vm, p.w.accessed, bits - sc.refused - RefusedAt(vm.root, stop), p.next)
    ensures r == CopyOf(vm, count, sc, p) && Types(vm, r, bits)
  {
    r := CopyOf(vm, count, sc, p);
    SentSeen(vm, count, sc, p);
    var listed := Seen(sc.sent) + Seen(p.w.ctrl.tokens);
    TypedAppend(vm, Seen(sc.sent), Seen(p.w.ctrl.tokens), bits - sc.refused);
    TypedWithout(vm, i, s, listed, a, stop, bits - sc.refused);
    SetsApart(bits, sc.refused, RefusedAt(vm.root, stop));
  }

  /** A round keeps the account of types, bits and refused pages. */
  lemma RoundTyped(vm: Vm, count: int, a: nat, end: nat, sc: Scan, bits: set<nat>) returns (r: Scan)
    requires HostVmOk(vm) && GuestDisjoint(vm.slots) && Going(vm, count, a, sc) && Types(vm, sc, bits)
    requires sc.start < end < U64_RANGE && end % PAGE_SIZE == 0
    ensures r == RoundOf(vm, count, end, sc) && Types(vm, r, bits)
  {
    var i := SlotIndex(vm.slots, sc.start);
    var p := PieceOf(vm, sc.w, sc.start, end);
    if i == |vm.slots| {
      EmptyItems();
      r := WholeTyped(vm, count, sc, p, bits);
    } else {
      var s := vm.slots[i];
      var stop := SlotTyped(vm, i, s, sc, a, p, bits - sc.refused);
      var stop' := SlotWalked(vm, count, a, i, s, sc, p);
      assert stop == stop';
      if p.full {
        r := RefusedTyped(vm, count, i, s, a, sc, p, stop, bits);
      } else {
        r := WholeTyped(vm, count, sc, p, bits);
      }
    }
  }

  // ----- A read -----

  lemma FirstTyped(vm: Vm, count: int, w: Walk, a: nat)
    ensures Types(vm, First(count, w, a), w.accessed)
  {
    EmptyItems();
    assert w.accessed - {} == w.accessed;
  }

  lemma NextTyped(vm: Vm, count: int, w: Walk, a: nat, end: nat, scans: seq<Scan>, k: nat, sc: Scan, r: Scan)
    requires HostVmOk(vm) && Begins(count, w, a, end) && Scans(vm, count, end, First(count, w, a), scans)
    requires k + 1 < |scans| && sc == scans[k] && r == scans[k + 1]
    requires GuestDisjoint(vm.slots) && Types(vm, sc, w.accessed)
    ensures Types(vm, r, w.accessed)
  {
    var sc' := RoundAt(vm, count, w, a, end, scans, k);
    var r' := RoundTyped(vm, count, a, end, sc, w.accessed);
  }

  lemma {:induction false} ReadTyped(vm: Vm, count: int, w: Walk, a: nat, end: nat, scans: seq<Scan>, k: nat)
    requires HostVmOk(vm) && Begins(count, w, a, end) && Scans(vm, count, end, First(count, w, a), scans) && k < |scans|
    requires GuestDisjoint(vm.slots)
    ensures Types(vm, scans[k], w.accessed)
  {
    if k == 0 {
      FirstTyped(vm, count, w, a);
    } else {
      ReadTyped(vm, count, w, a, end, scans, k - 1);
      NextTyped(vm, count, w, a, end, scans, k - 1, scans[k - 1], scans[k]);
    }
  }

  /** Of the pages a read lists, one of 4 KB or 2 MB has an accessed type if and only if its bit was
      set when the read began and no round of the read refused it. */
  lemma AccessedExactly(vm: Vm, count: int, w: Walk, a: nat, end: nat, scans: seq<Scan>, p: Page)
    requires HostVmOk(vm) && Begins(count, w, a, end) && Scans(vm, count, end, First(count, w, a), scans)
    requires GuestDisjoint(vm.slots) && p in Seen(scans[|scans| - 1].sent)
    ensures p.va >= 0 && BaseOf(vm, p.va) >= 0 && vm.root(BaseOf(vm, p.va)).isPage
    ensures p.t == EntryType(vm.root(BaseOf(vm, p.va)), BaseOf(vm, p.va) in w.accessed - scans[|scans| - 1].refused)
    ensures vm.root(BaseOf(vm, p.va)).level <= 1 ==>
              (p.t == PTE_ACCESSED || p.t == PMD_ACCESSED
               <==> BaseOf(vm, p.va) in w.accessed && BaseOf(vm, p.va) !in scans[|scans| - 1].refused)
  {
    ReadTyped(vm, count, w, a, end, scans, |scans| - 1);
    assert TypeIs(vm, p, w.accessed - scans[|scans| - 1].refused);
  }

  /** A walk that stops at a refused page has cleared its bit. */
  lemma {:induction false} FlatRefuses(root: PT.View, w: Walk, addr: nat, end: nat)
    requires Flat(root, w, addr, end).full
    ensures var r := Flat(root, w, addr, end).w;
            addr <= r.ctrl.restartGpa < end && RefusedAt(root, r.ctrl.restartGpa) !! r.accessed
    decreases end - addr
  {
    var next := PT.AddrEnd(root(addr).level, addr, end);
    var r := Visit(w, root(addr), addr, next);
    VisitBits(w, root, addr, next);
    if !r.full {
      FlatRefuses(root, r.w, next, end);
    }
  }

  lemma PieceRefuses(vm: Vm, s: Slot, w: Walk, start: nat, p: Piece)
    requires s.HoldsHva(start) && p == SlotPiece(vm, w, s, start)
    ensures RefusedBy(vm, p) !! p.w.accessed
  {
    var g, w' := start - s.hva + s.gpa, w.(ctrl := w.ctrl.(gpaToHva := s.hva - s.gpa));
    SlotPieceIs(vm, s, w, start, w', g, Flat(vm.root, w', g, s.gpa + s.size));
    if p.full {
      FlatRefuses(vm.root, w', g, s.gpa + s.size);
    }
  }

  /** A round refuses at most one page, and it has cleared its bit. */
  lemma RefusesOne(vm: Vm, count: int, end: nat, sc: Scan) returns (page: set<nat>)
    requires sc.start >= 0
    ensures var r := RoundOf(vm, count, end, sc);
            r.refused == sc.refused + page && |page| <= 1 && page !! r.w.accessed
  {
    var p := PieceOf(vm, sc.w, sc.start, end);
    page := RefusedBy(vm, p);
    var i := SlotIndex(vm.slots, sc.start);
    if i < |vm.slots| {
      PieceRefuses(vm, vm.slots[i], sc.w, sc.start, p);
    }
  }
}
