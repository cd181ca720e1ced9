/** When the walk of a slot stays inside kpie. Only a round with a negative limit can fill it: each jump
    it takes is behind a directory hole of 1 GB or more. */
module EptOverrun {
  import opened IdleStream
  import opened EptEncoder
  import opened EptWalk
  import opened EptLayout
  import opened EptReports
  import opened EptIdle
  import opened EptRounds
  import PT = PageTable

  const SAFE_SIZE := 798 * PUD_SIZE

  predicate SlotsFit(slots: seq<Slot>) {
    forall i :: 0 <= i < |slots| ==> slots[i].size <= SAFE_SIZE
  }

  /** Room for one command is left. */
  predicate Roomy(c: Ctrl) { Opened(c.tokens) && Size(c.tokens) + 9 <= KBUF_SIZE }

  // ----- Rounds with a positive limit -----

  /** An entry accepted within the limit leaves kpie room for a command. */
  lemma LimitedVisit(w: Walk, b: PT.Block, addr: nat, next: nat)
    requires Roomy(w.ctrl) && WithinLimit(w.ctrl) && 10 < w.ctrl.pieReadMax <= KBUF_SIZE - 9
    ensures var r := Visit(w, b, addr, next).w.ctrl;
            Roomy(r) && WithinLimit(r) && r.overrun == w.ctrl.overrun && r.pieReadMax == w.ctrl.pieReadMax
  {
    if Reportable(b) {
      var t := EntryType(b, PT.BlockStart(b.level, addr) in w.accessed);
      if !Merges(w.ctrl, addr, t) && !NoRoom(w.ctrl, addr, t) {
        PushedSize(w.ctrl, addr, t);
        PushedOpened(w.ctrl, addr, t);
      }
    }
  }

  lemma {:induction false} LimitedFlat(v: PT.View, w: Walk, addr: nat, end: nat)
    requires Roomy(w.ctrl) && WithinLimit(w.ctrl) && 10 < w.ctrl.pieReadMax <= KBUF_SIZE - 9
    ensures Roomy(Flat(v, w, addr, end).w.ctrl) && Flat(v, w, addr, end).w.ctrl.overrun == w.ctrl.overrun
    decreases end - addr
  {
    if addr < end {
      var next := PT.AddrEnd(v(addr).level, addr, end);
      var r := Visit(w, v(addr), addr, next);
      LimitedVisit(w, v(addr), addr, next);
      if !r.full {
        LimitedFlat(v, r.w, next, end);
      }
    }
  }

  // ----- Rounds with a negative limit -----

  /** Where the walk has come from g0 to addr: every 10 bytes beyond the first took 1 GB, and the next
      jump takes another. */
  predicate Paced(c: Ctrl, g0: nat, addr: nat) {
    c.tokens != [] ==>
      var at := c.nextHva - c.gpaToHva;
      (Size(c.tokens) - 10) * PUD_SIZE <= 10 * (at - g0) && (at == addr || at + PUD_SIZE <= addr)
  }

  /** What is in the buffer took its way. */
  predicate Spread(c: Ctrl, g0: nat, end: nat) {
    Opened(c.tokens) && (c.tokens != [] ==> (Size(c.tokens) - 10) * PUD_SIZE <= 10 * (end - g0))
  }

  lemma SpreadRoomy(c: Ctrl, g0: nat, end: nat)
    requires Spread(c, g0, end) && end - g0 <= SAFE_SIZE
    ensures Roomy(c)
  {
  }

  /** A jump of a round without a limit. */
  lemma ShortJump(c: Ctrl, g0: nat, addr: nat, next: nat, t: ItemType, base: nat) returns (r: Added)
    requires Opened(c.tokens) && Paced(c, g0, addr) && -8 <= c.pieReadMax < 0 && g0 <= addr
    requires base == RoundDown(addr, t) && base <= addr < next <= base + PageSize(t)
    requires Jumps(c, addr) && !IsHole(t) && addr - g0 <= SAFE_SIZE
    ensures r == AddPage(c, addr, next, t) && r.ctrl.overrun == c.overrun && !r.full
    ensures Spread(r.ctrl, g0, addr) && r.ctrl.nextHva - c.gpaToHva == base + PageSize(t) && r.ctrl.gpaToHva == c.gpaToHva
    ensures Size(r.ctrl.tokens) == Size(c.tokens) + 10
  {
    r := AddPage(c, addr, next, t);
    RoundUpInBlock(addr, next, t);
    JumpSize(c, addr, t);
    PushedOpened(c, addr, t);
  }

  /** An entry that continues grows the last item or is refused. */
  lemma ShortNext(c: Ctrl, g0: nat, addr: nat, next: nat, t: ItemType) returns (r: Added)
    requires Opened(c.tokens) && Paced(c, g0, addr) && -8 <= c.pieReadMax < 0 && !Jumps(c, addr)
    requires RoundUp(next, t) >= next > addr && Size(c.tokens) <= KBUF_SIZE
    ensures r == AddPage(c, addr, next, t) && r.ctrl.overrun == c.overrun && Opened(r.ctrl.tokens)
    ensures r.ctrl.gpaToHva == c.gpaToHva && Size(r.ctrl.tokens) == Size(c.tokens) && r.ctrl.tokens != []
    ensures !r.full ==> r.ctrl.nextHva - c.gpaToHva == RoundUp(next, t)
  {
    NextFits(c, addr, t);
    r := AddPage(c, addr, next, t);
    PushedOpened(c, addr, t);
    if GrowsLast(c, addr, t) {
      GrownByte(c.tokens);
      assert Pushed(c, addr, t) == Grown(c.tokens);
    }
  }

  /** A step of a walk in a round with a negative limit. */
  predicate ShortStep(w: Walk, r: Walked, g0: nat, addr: nat, next: nat, end: nat) {
    && r.w.ctrl.overrun == w.ctrl.overrun && r.w.ctrl.pieReadMax == w.ctrl.pieReadMax
    && r.w.ctrl.gpaToHva == w.ctrl.gpaToHva && Spread(r.w.ctrl, g0, end)
    && (!r.full && next < end ==> Paced(r.w.ctrl, g0, next))
  }

  lemma ShortSkip(v: PT.View, w: Walk, g0: nat, addr: nat, end: nat)
    requires g0 <= addr < end && Opened(w.ctrl.tokens) && Paced(w.ctrl, g0, addr) && !Reportable(v(addr))
    requires w.ctrl.tokens == [] || Start(v, addr) == addr
    ensures var next := PT.AddrEnd(v(addr).level, addr, end);
            ShortStep(w, Visit(w, v(addr), addr, next), g0, addr, next, end)
  {
    DirectorySize(v(addr).level);
  }

  /** A directory entry that is skipped spans 1 GB or more. */
  lemma {:induction false} DirectorySize(level: nat)
    requires level >= 2
    ensures PT.BlockSize(level) >= PUD_SIZE
  {
    Sizes();
    if level > 2 {
      DirectorySize(level - 1);
    }
  }

  /** An entry that is offered to the stream. */
  lemma ShortEntry(c: Ctrl, g0: nat, addr: nat, next: nat, end: nat, t: ItemType, base: nat) returns (r: Added)
    requires g0 <= addr < next <= end && end - g0 <= SAFE_SIZE && -8 <= c.pieReadMax < 0
    requires Opened(c.tokens) && Paced(c, g0, addr) && Spread(c, g0, end)
    requires base == RoundDown(addr, t) && base <= addr < next <= base + PageSize(t)
    requires next < end ==> next == base + PageSize(t)
    ensures r == AddPage(c, addr, next, t)
    ensures r.ctrl.overrun == c.overrun && r.ctrl.gpaToHva == c.gpaToHva && Spread(r.ctrl, g0, end)
    ensures !r.full && next < end ==> Paced(r.ctrl, g0, next)
  {
    RoundUpInBlock(addr, next, t);
    if Merges(c, addr, t) {
      r := AddPage(c, addr, next, t);
    } else if Jumps(c, addr) {
      r := ShortJump(c, g0, addr, next, t, base);
    } else {
      SpreadRoomy(c, g0, end);
      r := ShortNext(c, g0, addr, next, t);
    }
  }

  lemma ShortVisit(v: PT.View, w: Walk, g0: nat, addr: nat, end: nat)
    requires g0 <= addr < end && end - g0 <= SAFE_SIZE && -8 <= w.ctrl.pieReadMax < 0
    requires Opened(w.ctrl.tokens) && Paced(w.ctrl, g0, addr) && Spread(w.ctrl, g0, end)
    requires w.ctrl.tokens == [] || Start(v, addr) == addr
    ensures var next := PT.AddrEnd(v(addr).level, addr, end);
            ShortStep(w, Visit(w, v(addr), addr, next), g0, addr, next, end)
  {
    var b := v(addr);
    if Reportable(b) {
      var accessed := PT.BlockStart(b.level, addr) in w.accessed;
      EntrySize(b, addr, accessed);
      var r := ShortEntry(w.ctrl, g0, addr, PT.AddrEnd(b.level, addr, end), end, EntryType(b, accessed), Start(v, addr));
    } else {
      ShortSkip(v, w, g0, addr, end);
    }
  }

  lemma {:induction false} ShortFlat(v: PT.View, w: Walk, g0: nat, addr: nat, end: nat)
    requires PT.Tiled(v) && g0 <= addr < end && end - g0 <= SAFE_SIZE && -8 <= w.ctrl.pieReadMax < 0
    requires Opened(w.ctrl.tokens) && Paced(w.ctrl, g0, addr) && Spread(w.ctrl, g0, end)
    requires w.ctrl.tokens == [] || Start(v, addr) == addr
    ensures Spread(Flat(v, w, addr, end).w.ctrl, g0, end) && Flat(v, w, addr, end).w.ctrl.overrun == w.ctrl.overrun
    decreases end - addr
  {
    var next := PT.AddrEnd(v(addr).level, addr, end);
    var r := Visit(w, v(addr), addr, next);
    ShortVisit(v, w, g0, addr, end);
    if !r.full && next < end {
      NextBlockStarts(v, addr);
      ShortFlat(v, r.w, g0, next, end);
    } else {
      assert !r.full ==> Flat(v, r.w, next, end) == Walked(r.w, false);
    }
  }

  // ----- A read -----

  lemma SlotStays(vm: Vm, s: Slot, w: Walk, start: nat, p: Piece)
    requires PT.Tiled(vm.root) && s.HoldsHva(start) && s.size <= SAFE_SIZE && p == SlotPiece(vm, w, s, start)
    requires w.ctrl.tokens == [] && LimitOk(w.ctrl.pieReadMax)
    ensures Roomy(p.w.ctrl) && p.w.ctrl.overrun == w.ctrl.overrun
  {
    var g, w' := start - s.hva + s.gpa, w.(ctrl := w.ctrl.(gpaToHva := s.hva - s.gpa));
    var r := Flat(vm.root, w', g, s.gpa + s.size);
    SlotPieceIs(vm, s, w, start, w', g, r);
    if w.ctrl.pieReadMax < 0 {
      ShortFlat(vm.root, w', g, g, s.gpa + s.size);
      SpreadRoomy(r.w.ctrl, g, s.gpa + s.size);
    } else {
      LimitedFlat(vm.root, w', g, s.gpa + s.size);
    }
  }

  /** No round leaves kpie if no slot is longer than 798 GB. */
  lemma RoundStays(vm: Vm, count: int, a: nat, end: nat, sc: Scan)
    requires HostVmOk(vm) && Going(vm, count, a, sc) && sc.start < end < U64_RANGE && SlotsFit(vm.slots)
    ensures RoundOf(vm, count, end, sc).w.ctrl.overrun == sc.w.ctrl.overrun
  {
    var i := SlotIndex(vm.slots, sc.start);
    if i < |vm.slots| {
      SlotStays(vm, vm.slots[i], sc.w, sc.start, PieceOf(vm, sc.w, sc.start, end));
    }
  }

  lemma {:induction false} ReadStays(vm: Vm, count: int, w: Walk, a: nat, end: nat, scans: seq<Scan>, k: nat)
    requires HostVmOk(vm) && Begins(count, w, a, end) && Scans(vm, count, end, First(count, w, a), scans) && k < |scans|
    requires SlotsFit(vm.slots)
    ensures scans[k].w.ctrl.overrun == w.ctrl.overrun
  {
    if k > 0 {
      ReadStays(vm, count, w, a, end, scans, k - 1);
      var sc := RoundAt(vm, count, w, a, end, scans, k - 1);
      RoundStays(vm, count, a, end, sc);
    }
  }
}
