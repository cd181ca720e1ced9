/** How far a round of a read goes, and when the read goes on: said of the slots and the bytes left. */
module EptProgress {
  import opened Arith
  import opened IdleStream
  import opened EptEncoder
  import opened PageList
  import opened EptWalk
  import opened EptLayout
  import opened EptReports
  import opened EptRounds
  import opened EptBytes
  import opened EptTypes
  import opened EptLoss
  import PT = PageTable

  // ----- In a gap -----

  /** v is the least start of a slot above h, or, without one, the end of the user's addresses or of the
      range, whichever is behind. */
  ghost predicate NextSlotAt(slots: seq<Slot>, h: int, end: int, v: int) {
    if exists j :: 0 <= j < |slots| && slots[j].hva > h
    then h < v && (exists j :: 0 <= j < |slots| && slots[j].hva == v)
         && (forall j :: 0 <= j < |slots| && slots[j].hva > h ==> v <= slots[j].hva)
    else v == Max(TASK_SIZE, end)
  }

  predicate InNoSlot(slots: seq<Slot>, h: nat) {
    forall j :: 0 <= j < |slots| ==> !slots[j].HoldsHva(h)
  }

  lemma AheadNext(slots: seq<Slot>, h: nat, end: nat, tail: int)
    requires h < U64_RANGE && forall j :: 0 <= j < |slots| ==> slots[j].hva < TASK_SIZE
    requires tail == if Ahead(slots, h) == ALL_ONES then Max(TASK_SIZE, end) else h + Ahead(slots, h)
    ensures NextSlotAt(slots, h, end, tail)
  {
    AheadIs(slots, h);
  }

  lemma GapEnds(vm: Vm, count: int, end: nat, sc: Scan) returns (r: Scan)
    requires HostVmOk(vm) && 0 <= sc.start < end < U64_RANGE && end % PAGE_SIZE == 0
    requires InNoSlot(vm.slots, sc.start) && sc.w.ctrl.tokens == [] && sc.w.ctrl.nextHva <= sc.start
    ensures r == RoundOf(vm, count, end, sc) && r.ret != 0
    ensures NextSlotAt(vm.slots, sc.start, end, r.w.ctrl.nextHva)
    ensures r.sent == sc.sent + [SetHva(r.w.ctrl.nextHva)]
  {
    var p := PieceOf(vm, sc.w, sc.start, end);
    assert SlotIndex(vm.slots, sc.start) == |vm.slots|;
    var tail := GapPieceIs(vm, sc.w, sc.start, end, p);
    AheadNext(vm.slots, sc.start, end, tail);
    r := CopyEmpty(vm, count, sc, p, tail);
  }

  // ----- In a slot -----

  /** A walk is cut short only when less than a command and an item is left of the limit. */
  lemma {:induction false} FlatFull(v: PT.View, w: Walk, addr: nat, end: nat)
    requires Flat(v, w, addr, end).full && 0 <= w.ctrl.pieReadMax <= KBUF_SIZE
    ensures Size(Flat(v, w, addr, end).w.ctrl.tokens) + 10 >= w.ctrl.pieReadMax
    decreases end - addr
  {
    var next := PT.AddrEnd(v(addr).level, addr, end);
    var r := Visit(w, v(addr), addr, next);
    if r.full {
      RefusedNear(w.ctrl, addr, next, EntryType(v(addr), PT.BlockStart(v(addr).level, addr) in w.accessed));
    } else {
      FlatFull(v, r.w, next, end);
    }
  }

  lemma RefusedNear(c: Ctrl, addr: nat, next: nat, t: ItemType)
    requires AddPage(c, addr, next, t).full && 0 <= c.pieReadMax <= KBUF_SIZE
    ensures Size(AddPage(c, addr, next, t).ctrl.tokens) + 10 >= c.pieReadMax
  {
    if Overruns(c, addr, t) {
      PushedSize(c, addr, t);
    }
  }

  /** What a walk has put into the buffer holds a page. */
  lemma {:induction false} FlatSees(vm: Vm, i: nat, s: Slot, w: Walk, before: seq<Page>, a: nat, g: nat)
    requires VmOk(vm) && i < |vm.slots| && s == vm.slots[i]
    requires Ready(vm, s, w.ctrl, before, a, g) && InView(vm, s, a, s.Hva(g))
    requires w.ctrl.tokens != [] ==> Seen(w.ctrl.tokens) != []
    ensures var c := Flat(vm.root, w, g, s.gpa + s.size).w.ctrl; c.tokens != [] ==> Seen(c.tokens) != []
    decreases s.gpa + s.size - g
  {
    var next, r := VisitReports(vm, i, s, w, before, a, g);
    if w.ctrl.tokens == [] && !vm.root(g).isPage {
      HoleKeeps(w, vm.root(g), g, next);
    }
    if !r.full && next < s.gpa + s.size {
      AfterIs(vm.root, s, g);
      NextBlockStarts(vm.root, g);
      FlatSees(vm, i, s, r.w, before, a, next);
    } else {
      assert !r.full ==> Flat(vm.root, r.w, next, s.gpa + s.size) == Walked(r.w, false);
    }
  }

  lemma HoleKeeps(w: Walk, b: PT.Block, g: nat, next: nat)
    requires w.ctrl.tokens == [] && !b.isPage
    ensures Visit(w, b, g, next).w.ctrl.tokens == []
  {
  }

  lemma SlotSees(vm: Vm, count: int, a: nat, i: nat, s: Slot, sc: Scan, p: Piece)
    requires HostVmOk(vm) && Going(vm, count, a, sc) && i == SlotIndex(vm.slots, sc.start) < |vm.slots|
    requires s == vm.slots[i] && p == SlotPiece(vm, sc.w, s, sc.start)
    ensures p.w.ctrl.tokens != [] ==> Seen(p.w.ctrl.tokens) != []
  {
    var g, w := sc.start - s.hva + s.gpa, sc.w.(ctrl := sc.w.ctrl.(gpaToHva := s.hva - s.gpa));
    SlotReady(vm, i, s, w.ctrl, sc.sent, a, sc.start, g);
    SlotInView(vm, i, s, a, sc.start);
    FlatSees(vm, i, s, w, Items(sc.sent), a, g);
    SlotPieceIs(vm, s, sc.w, sc.start, w, g, Flat(vm.root, w, g, s.gpa + s.size));
  }

  lemma SlotFull(vm: Vm, s: Slot, w: Walk, start: nat, p: Piece)
    requires s.HoldsHva(start) && p == SlotPiece(vm, w, s, start) && p.full && 0 <= w.ctrl.pieReadMax <= KBUF_SIZE
    ensures Size(p.w.ctrl.tokens) + 10 >= w.ctrl.pieReadMax
  {
    var g, w' := start - s.hva + s.gpa, w.(ctrl := w.ctrl.(gpaToHva := s.hva - s.gpa));
    FlatFull(vm.root, w', g, s.gpa + s.size);
    SlotPieceIs(vm, s, w, start, w', g, Flat(vm.root, w', g, s.gpa + s.size));
  }

  /** The round has stopped where the slot is left, or, short of that, with less than 20 bytes of room in
      kpie or in the user's buffer. */
  predicate SlotEnds(vm: Vm, count: int, i: nat, sc: Scan, r: Scan)
    requires i < |vm.slots| && vm.slots[i].size > 0
  {
    r.start == Leaves(vm, i)
    || (sc.start < r.start < SlotEnd(vm, i)
        && (Short(count, sc) || Size(r.sent) - Size(sc.sent) + 19 >= Min(KBUF_SIZE, count - Size(sc.sent))))
  }

  lemma SlotRoundEnds(vm: Vm, count: int, a: nat, end: nat, i: nat, sc: Scan) returns (r: Scan)
    requires HostVmOk(vm) && Going(vm, count, a, sc) && sc.start < end < U64_RANGE && end % PAGE_SIZE == 0
    requires i == SlotIndex(vm.slots, sc.start) < |vm.slots|
    ensures r == RoundOf(vm, count, end, sc) && SlotEnds(vm, count, i, sc, r)
  {
    var s := vm.slots[i];
    var p := PieceOf(vm, sc.w, sc.start, end);
    var stop := SlotWalked(vm, count, a, i, s, sc, p);
    r := CopyOf(vm, count, sc, p);
    LimitFailsExactly(count, sc.sent);
    if p.full {
      SizeAppend(sc.sent, p.w.ctrl.tokens);
      if sc.w.ctrl.pieReadMax >= 0 {
        SlotFull(vm, s, sc.w, sc.start, p);
      }
    }
  }

  // ----- When the read goes on -----

  /** The loop goes on exactly behind a round that listed a page and left more than 19 bytes, or fewer
      than 9. */
  lemma GoesOnExactly(vm: Vm, count: int, a: nat, end: nat, sc: Scan) returns (r: Scan)
    requires HostVmOk(vm) && Going(vm, count, a, sc) && sc.start < end < U64_RANGE && end % PAGE_SIZE == 0
    ensures r == RoundOf(vm, count, end, sc)
    ensures r.ret == 0 <==> Seen(r.sent) != Seen(sc.sent)
                            && (count - Size(r.sent) > 19 || 1 <= count - Size(r.sent) <= 8)
  {
    var i := SlotIndex(vm.slots, sc.start);
    var p := PieceWithin(vm, count, a, end, sc);
    r := CopyOf(vm, count, sc, p);
    SentSeen(vm, count, sc, p);
    EmptyItems();
    if p.w.ctrl.tokens != [] {
      SlotSees(vm, count, a, i, vm.slots[i], sc, p);
      if Size(r.sent) <= count {
        LimitFailsExactly(count, r.sent);
      }
    }
  }

  /** The round from sc to r is a read's last: the walk has come to the end of the range, it has listed no
      page, or 9 to 19 bytes or none are left. */
  predicate StopsAt(count: int, end: nat, sc: Scan, r: Scan) {
    r.start >= end || Seen(r.sent) == Seen(sc.sent) || 9 <= count - Size(r.sent) <= 19 || Size(r.sent) >= count
  }

  /** A read ends with the first round that is to be its last, and not before. */
  lemma ReadStopsExactly(vm: Vm, count: int, w: Walk, a: nat, end: nat, scans: seq<Scan>, k: nat)
    requires HostVmOk(vm) && Begins(count, w, a, end) && IsRead(vm, count, end, First(count, w, a), scans)
    requires k + 1 < |scans|
    ensures StopsAt(count, end, scans[k], scans[k + 1]) <==> k == |scans| - 2
  {
    var sc := RoundAt(vm, count, w, a, end, scans, k);
    var r := GoesOnExactly(vm, count, a, end, sc);
    if k + 2 < |scans| {
      assert StepAt(vm, count, end, scans, k + 1);
    } else {
      RoundMoves(vm, count, a, end, sc);
    }
  }

  lemma RoundMoves(vm: Vm, count: int, a: nat, end: nat, sc: Scan)
    requires HostVmOk(vm) && Going(vm, count, a, sc) && sc.start < end < U64_RANGE && end % PAGE_SIZE == 0
    ensures RoundOf(vm, count, end, sc).ret == 0 ==> RoundOf(vm, count, end, sc).start >= 0
  {
    var r := RoundReports(vm, count, a, end, sc);
  }

  /** A read that begins in no slot makes one round, and moves to the next slot. */
  lemma GapReadEnds(vm: Vm, count: int, w: Walk, a: nat, end: nat, scans: seq<Scan>, last: Scan)
    requires HostVmOk(vm) && Begins(count, w, a, end) && IsRead(vm, count, end, First(count, w, a), scans)
    requires last == scans[|scans| - 1] && InNoSlot(vm.slots, a)
    ensures |scans| == 2 && NextSlotAt(vm.slots, a, end, last.w.ctrl.nextHva)
  {
    var first := First(count, w, a);
    var r := GapEnds(vm, count, end, first);
    assert |scans| > 1;
    assert StepAt(vm, count, end, scans, 0);
    assert |scans| > 2 ==> StepAt(vm, count, end, scans, 1);
  }
}
