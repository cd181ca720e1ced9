/** What a read does to the accessed bits: it clears those of the pages it lists and of the pages it
    refuses, and no others. */
module EptBits {
  import opened IdleStream
  import opened EptEncoder
  import opened PageList
  import opened EptWalk
  import opened EptLayout
  import opened EptReports
  import opened EptRounds
  import opened EptTypes
  import PT = PageTable

  /** The guest address of the page, if it is one of 4 KB or 2 MB, which have an accessed bit. */
  function BitOf(vm: Vm, p: Page): set<nat> {
    if p.va >= 0 && BaseOf(vm, p.va) >= 0 && vm.root(BaseOf(vm, p.va)).level <= 1 then {BaseOf(vm, p.va)} else {}
  }

  function BitsOf(vm: Vm, ps: seq<Page>): set<nat> {
    if ps == [] then {} else BitsOf(vm, ps[..|ps| - 1]) + BitOf(vm, ps[|ps| - 1])
  }

  lemma {:induction false} BitsAppend(vm: Vm, ps: seq<Page>, qs: seq<Page>)
    ensures BitsOf(vm, ps + qs) == BitsOf(vm, ps) + BitsOf(vm, qs)
  {
    if qs == [] {
      assert ps + qs == ps;
    } else {
      var all, qs' := ps + qs, qs[..|qs| - 1];
      BitsAppend(vm, ps, qs');
      assert all[..|all| - 1] == ps + qs';
    }
  }

  /** A bit is among those of the pages exactly if it is one page's. */
  lemma {:induction false} BitsExactly(vm: Vm, ps: seq<Page>, g: nat)
    ensures g in BitsOf(vm, ps) <==> exists i :: 0 <= i < |ps| && g in BitOf(vm, ps[i])
  {
    if ps != [] {
      var front := ps[..|ps| - 1];
      BitsExactly(vm, front, g);
      if i :| 0 <= i < |front| && g in BitOf(vm, front[i]) {
        assert g in BitOf(vm, ps[i]);
      }
      assert forall i :: 0 <= i < |front| ==> front[i] == ps[i];
    }
  }

  // ----- One entry -----

  lemma OneBit(vm: Vm, p: Page)
    ensures BitsOf(vm, [p]) == BitOf(vm, p)
  {
    assert [p][..0] == [];
  }

  lemma BitAt(vm: Vm, i: nat, s: Slot, g: nat, base: nat, p: Page)
    requires VmOk(vm) && i < |vm.slots| && s == vm.slots[i] && s.gpa <= base < s.gpa + s.size
    requires base == Start(vm.root, g) && vm.root(g).isPage && p.va == s.Hva(base)
    ensures BitOf(vm, p) == RefusedAt(vm.root, g)
  {
    BaseInSlot(vm, i, s, base, s.Hva(base));
    assert vm.root(base) == vm.root(g);
    PT.SameBlock(vm.root(g).level, g, base);
  }

  /** The page of g, listed, is the one whose bit its visit clears. */
  lemma EntryBit(vm: Vm, i: nat, s: Slot, g: nat, accessed: set<nat>)
    requires VmOk(vm) && i < |vm.slots| && s == vm.slots[i] && s.gpa <= g < s.gpa + s.size
    ensures BitsOf(vm, EntryOf(vm.root, s, g, accessed)) == RefusedAt(vm.root, g)
  {
    if vm.root(g).isPage {
      var base := Start(vm.root, g);
      assert BlocksInside(vm.root, s);
      var p := Page(s.Hva(base), EntryType(vm.root(g), base in accessed));
      BitAt(vm, i, s, g, base, p);
      OneBit(vm, p);
    }
  }

  /** The bits left when `ps` have been listed. */
  predicate Left(vm: Vm, accessed: set<nat>, bits: set<nat>, ps: seq<Page>) {
    accessed == bits - BitsOf(vm, ps)
  }

  lemma LeftLess(vm: Vm, accessed: set<nat>, bits: set<nat>, ps: seq<Page>, entry: seq<Page>, gone: set<nat>)
    requires Left(vm, accessed, bits, ps) && BitsOf(vm, entry) == gone
    ensures Left(vm, accessed - gone, bits, ps + entry) && Left(vm, accessed - gone, bits - gone, ps)
  {
    BitsAppend(vm, ps, entry);
  }

  lemma VisitClears(vm: Vm, i: nat, s: Slot, w: Walk, before: seq<Page>, a: nat, g: nat, bits: set<nat>)
    returns (next: nat, r: Walked)
    requires VmOk(vm) && i < |vm.slots| && s == vm.slots[i]
    requires Ready(vm, s, w.ctrl, before, a, g) && InView(vm, s, a, s.Hva(g))
    requires Left(vm, w.accessed, bits, Seen(w.ctrl.tokens))
    ensures next == PT.AddrEnd(vm.root(g).level, g, s.gpa + s.size) && r == Visit(w, vm.root(g), g, next)
    ensures !r.full ==> Left(vm, r.w.accessed, bits, Seen(r.w.ctrl.tokens))
    ensures r.full ==> Left(vm, r.w.accessed, bits - RefusedAt(vm.root, g), Seen(r.w.ctrl.tokens))
  {
    next, r := VisitReports(vm, i, s, w, before, a, g);
    VisitBits(w, vm.root, g, next);
    EntryBit(vm, i, s, g, w.accessed);
    LeftLess(vm, w.accessed, bits, Seen(w.ctrl.tokens), EntryOf(vm.root, s, g, w.accessed), RefusedAt(vm.root, g));
    assert Seen(w.ctrl.tokens) + [] == Seen(w.ctrl.tokens);
  }

  lemma {:induction false} FlatClears(vm: Vm, i: nat, s: Slot, w: Walk, before: seq<Page>, a: nat, g: nat, bits: set<nat>)
    returns (r: Walked)
    requires VmOk(vm) && i < |vm.slots| && s == vm.slots[i]
    requires Ready(vm, s, w.ctrl, before, a, g) && InView(vm, s, a, s.Hva(g))
    requires Left(vm, w.accessed, bits, Seen(w.ctrl.tokens))
    ensures r == Flat(vm.root, w, g, s.gpa + s.size)
    ensures !r.full ==> Left(vm, r.w.accessed, bits, Seen(r.w.ctrl.tokens))
    ensures r.full ==> r.w.ctrl.restartGpa >= g
                       && Left(vm, r.w.accessed, bits - RefusedAt(vm.root, r.w.ctrl.restartGpa), Seen(r.w.ctrl.tokens))
    decreases s.gpa + s.size - g
  {
    var next;
    next, r := VisitReports(vm, i, s, w, before, a, g);
    next, r := VisitClears(vm, i, s, w, before, a, g, bits);
    if !r.full && next < s.gpa + s.size {
      AfterIs(vm.root, s, g);
      NextBlockStarts(vm.root, g);
      r := FlatClears(vm, i, s, r.w, before, a, next, bits);
    } else {
      assert !r.full ==> Flat(vm.root, r.w, next, s.gpa + s.size) == Walked(r.w, false);
    }
  }

  // ----- A round and a read -----

  /** What is left of `bits` when the pages sent have been listed and others refused. */
  predicate Cleared(vm: Vm, sc: Scan, bits: set<nat>) {
    sc.w.accessed == bits - BitsOf(vm, Seen(sc.sent)) - sc.refused
  }

  lemma SlotClears(vm: Vm, count: int, a: nat, i: nat, s: Slot, sc: Scan, p: Piece)
    requires HostVmOk(vm) && Going(vm, count, a, sc) && i == SlotIndex(vm.slots, sc.start) < |vm.slots|
    requires s == vm.slots[i] && p == SlotPiece(vm, sc.w, s, sc.start)
    ensures p.w.accessed == sc.w.accessed - BitsOf(vm, Seen(p.w.ctrl.tokens)) - RefusedBy(vm, p)
  {
    var g, w := sc.start - s.hva + s.gpa, sc.w.(ctrl := sc.w.ctrl.(gpaToHva := s.hva - s.gpa));
    SlotReady(vm, i, s, w.ctrl, sc.sent, a, sc.start, g);
    SlotInView(vm, i, s, a, sc.start);
    EmptyItems();
    var r := FlatClears(vm, i, s, w, Items(sc.sent), a, g, sc.w.accessed);
    SlotPieceIs(vm, s, sc.w, sc.start, w, g, r);
    assert RefusedBy(vm, p) == if r.full then RefusedAt(vm.root, r.w.ctrl.restartGpa) else {};
  }

  lemma RoundClears(vm: Vm, count: int, a: nat, end: nat, sc: Scan, bits: set<nat>) returns (r: Scan)
    requires HostVmOk(vm) && Going(vm, count, a, sc) && Cleared(vm, sc, bits)
    requires sc.start < end < U64_RANGE && end % PAGE_SIZE == 0
    ensures r == RoundOf(vm, count, end, sc) && Cleared(vm, r, bits)
  {
    var i, p := SlotIndex(vm.slots, sc.start), PieceOf(vm, sc.w, sc.start, end);
    r := CopyOf(vm, count, sc, p);
    EmptyItems();
    if i < |vm.slots| {
      var stop := SlotWalked(vm, count, a, i, vm.slots[i], sc, p);
      SlotClears(vm, count, a, i, vm.slots[i], sc, p);
    }
    SentSeen(vm, count, sc, p);
    BitsAppend(vm, Seen(sc.sent), Seen(p.w.ctrl.tokens));
  }

  lemma FirstCleared(vm: Vm, count: int, w: Walk, a: nat)
    ensures Cleared(vm, First(count, w, a), w.accessed)
  {
    EmptyItems();
  }

  lemma NextCleared(vm: Vm, count: int, w: Walk, a: nat, end: nat, scans: seq<Scan>, k: nat, sc: Scan, r: Scan)
    requires HostVmOk(vm) && Begins(count, w, a, end) && Scans(vm, count, end, First(count, w, a), scans)
    requires k + 1 < |scans| && sc == scans[k] && r == scans[k + 1] && Cleared(vm, sc, w.accessed)
    ensures Cleared(vm, r, w.accessed)
  {
    var sc' := RoundAt(vm, count, w, a, end, scans, k);
    var r' := RoundClears(vm, count, a, end, sc, w.accessed);
  }

  lemma {:induction false} ScansClear(vm: Vm, count: int, w: Walk, a: nat, end: nat, scans: seq<Scan>, k: nat)
    requires HostVmOk(vm) && Begins(count, w, a, end) && Scans(vm, count, end, First(count, w, a), scans) && k < |scans|
    ensures Cleared(vm, scans[k], w.accessed)
  {
    if k == 0 {
      FirstCleared(vm, count, w, a);
    } else {
      ScansClear(vm, count, w, a, end, scans, k - 1);
      NextCleared(vm, count, w, a, end, scans, k - 1, scans[k - 1], scans[k]);
    }
  }

  /** A read clears the accessed bits of exactly the pages of 4 KB and 2 MB that it lists or refuses. */
  lemma ReadClearsExactly(vm: Vm, count: int, w: Walk, a: nat, end: nat, scans: seq<Scan>, last: Scan, g: nat)
    requires HostVmOk(vm) && Begins(count, w, a, end) && Scans(vm, count, end, First(count, w, a), scans)
    requires last == scans[|scans| - 1]
    ensures g in last.w.accessed <==>
            g in w.accessed && g !in last.refused
            && !exists i :: 0 <= i < |Seen(last.sent)| && g in BitOf(vm, Seen(last.sent)[i])
  {
    ScansClear(vm, count, w, a, end, scans, |scans| - 1);
    BitsExactly(vm, Seen(last.sent), g);
  }
}
