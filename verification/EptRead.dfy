/** One read of /proc/idle_pages by the control block: the walk of a range of host addresses with the
    buffer copied out whenever it fills (ept_idle_read and what it calls in kernel_module/ept_idle.c). */
module EptRead {
  import opened Arith
  import opened IdleStream
  import opened EptEncoder
  import opened EptWalk
  import opened EptLayout
  import opened EptIdle
  import opened EptRounds
  import opened EptBytes
  import opened EptOverrun
  import opened EptPacking
  import opened EptProgress
  import PT = PageTable

  const BUF_MIN := 19
  const EINVAL := 22
  const ROOT_LEVEL := 4

  function HostVm(slots: seq<Slot>, root: seq<PT.Node>): Vm
    requires PT.WellFormed(ROOT_LEVEL, root)
  {
    Vm(slots, PT.ViewOf(ROOT_LEVEL, root))
  }

  /** What the host guarantees: slots of whole pages, apart from each other, inside the user address
      range and the reach of the page table, with the guest's pages inside their slots. */
  ghost predicate HostOk(slots: seq<Slot>, root: seq<PT.Node>) {
    && PT.WellFormed(ROOT_LEVEL, root) && HostVmOk(HostVm(slots, root))
    && forall i :: 0 <= i < |slots| ==> slots[i].gpa + slots[i].size <= PT.BlockSize(ROOT_LEVEL + 1)
  }

  /** Nothing is asked of the page table but its shape: every table decides its blocks as a whole. */
  lemma HostIsOk(slots: seq<Slot>, root: seq<PT.Node>)
    requires PT.WellFormed(ROOT_LEVEL, root) && SlotsOk(HostVm(slots, root))
    requires forall i :: 0 <= i < |slots| ==>
               slots[i].hva + slots[i].size <= TASK_SIZE && slots[i].gpa + slots[i].size <= PT.BlockSize(ROOT_LEVEL + 1)
    ensures HostOk(slots, root)
  {
    PT.TableIsTiled(ROOT_LEVEL, root);
  }

  /** ept_idle_find_gpa: the guest address of hva and what is left of its slot, or the distance to
      the next slot above, all ones if there is none. */
  method FindGpa(slots: seq<Slot>, hva: nat) returns (gpa: Option<nat>, range: nat)
    requires hva % PAGE_SIZE == 0
    requires forall i :: 0 <= i < |slots| ==> SlotAligned(slots[i])
    ensures var i := SlotIndex(slots, hva);
            if i < |slots|
            then gpa == Some(hva - slots[i].hva + slots[i].gpa) && range == slots[i].hva + slots[i].size - hva
            else gpa == None && range == Ahead(slots, hva)
  {
    range := ALL_ONES;
    for i := 0 to |slots|
      invariant forall j :: 0 <= j < i ==> !slots[j].HoldsHva(hva)
      invariant range == Ahead(slots[..i], hva)
    {
      var s := slots[i];
      if s.hva <= hva < s.hva + s.size {
        var gfn := s.gpa / PAGE_SIZE + (hva - s.hva) / PAGE_SIZE;
        WholePages(s, hva);
        return Some(gfn * PAGE_SIZE), s.hva + s.size - hva;
      }
      assert slots[..i + 1][..i] == slots[..i];
      if s.hva > hva && s.hva - hva < range {
        range := s.hva - hva;
      }
    }
    assert slots[..|slots|] == slots;
    gpa := None;
  }

  lemma WholePages(s: Slot, hva: nat)
    requires SlotAligned(s) && s.hva <= hva && hva % PAGE_SIZE == 0
    ensures (s.gpa / PAGE_SIZE + (hva - s.hva) / PAGE_SIZE) * PAGE_SIZE == hva - s.hva + s.gpa
  {
    ModSub(s.hva, hva, PAGE_SIZE);
  }

  // ----- The copy to the user -----

  /** init_ept_idle_ctrl_buffer. With fewer than 9 bytes left the limit is negative and, converted,
      passes the test. */
  method InitBuffer(eic: EptIdleCtrl) returns (ret: nat)
    requires eic.Valid() && eic.bytesCopied <= eic.bufSize
    modifies eic`pieRead, eic`pieReadMax, eic`tokens
    ensures eic.Valid() && eic.C() == old(eic.C()).(tokens := [], pieReadMax := eic.pieReadMax)
    ensures var left := eic.bufSize - eic.bytesCopied;
            && eic.pieReadMax == Min(KBUF_SIZE, left) - 9
            && ret == if 9 <= left <= 19 then KBUF_FULL else 0
  {
    eic.pieRead := 0;
    eic.tokens := [];
    eic.pieReadMax := if KBUF_SIZE < eic.bufSize - eic.bytesCopied then KBUF_SIZE else eic.bufSize - eic.bytesCopied;
    eic.pieReadMax := eic.pieReadMax - (8 + 1);
    if AsSize(eic.pieReadMax) <= 8 + 2 {
      return KBUF_FULL;
    }
    return 0;
  }

  /** The first half of ept_idle_copy_user: a walk without pages, or with a hole behind the last
      page, ends with a command. */
  method MarkTail(eic: EptIdleCtrl, start: int, end: int) returns (lc: bool)
    requires eic.Valid()
    modifies eic`pieRead, eic`tokens, eic`nextHva, eic`overrun, eic.kpie
    ensures eic.Valid() && lc == (old(eic.tokens) == [])
    ensures eic.C() == Tailed(old(eic.C()), start, end)
  {
    EmptyBuffer(eic.tokens);
    lc := false;
    var tail := start;
    if eic.pieRead == 0 {
      lc := true;
      if tail < end {
        tail := end;
      }
    }
    if tail >= end && tail > eic.nextHva {
      if eic.pieRead + 1 + 8 > KBUF_SIZE {
        eic.overrun := true;
      } else {
        eic.nextHva := tail;
        eic.ReportAddr(tail);
      }
    }
  }

  /** The second half: the buffer goes to the user. */
  method SendBuffer(eic: EptIdleCtrl, lc: bool, ghost sent: seq<Token>) returns (ret: nat)
    requires eic.Valid() && eic.userBuf == Serialize(sent) && |eic.userBuf| == eic.bytesCopied
    modifies eic`pieRead, eic`pieReadMax, eic`tokens, eic`bytesCopied, eic`userBuf
    ensures eic.Valid() && eic.userBuf == Serialize(sent + old(eic.tokens)) && |eic.userBuf| == eic.bytesCopied
    ensures ret == CopyRet(eic.bufSize, lc, old(eic.tokens), sent + old(eic.tokens))
    ensures ret == 0 ==>
              eic.C() == old(eic.C()).(tokens := [], pieReadMax := LimitFor(eic.bufSize, sent + old(eic.tokens)))
  {
    EmptyBuffer(eic.tokens);
    SerializeAppend(sent, eic.tokens);
    var bytesRead := eic.pieRead;
    if bytesRead == 0 {
      assert sent + eic.tokens == sent;
      return 1;
    }
    eic.userBuf := eic.userBuf + eic.kpie[..bytesRead];
    eic.bytesCopied := eic.bytesCopied + bytesRead;
    if eic.bytesCopied >= eic.bufSize {
      return BUF_FULL;
    }
    if lc {
      return 1;
    }
    LimitFailsExactly(eic.bufSize, sent + eic.tokens);
    ret := InitBuffer(eic);
  }

  /** The control block as `sc` says it is between two rounds. */
  ghost predicate AtScan(eic: EptIdleCtrl, sc: Scan)
    reads eic
  {
    && eic.userBuf == Serialize(sc.sent) && |eic.userBuf| == eic.bytesCopied
    && eic.nextHva == sc.w.ctrl.nextHva && eic.overrun == sc.w.ctrl.overrun && eic.accessed == sc.w.accessed
    && (sc.ret == 0 ==> eic.W() == sc.w)
  }

  /** ept_idle_copy_user, after the round at `sc` has walked the piece p. */
  method CopyUser(eic: EptIdleCtrl, start: int, end: int, ghost vm: Vm, ghost sc: Scan, ghost p: Piece)
    returns (ret: nat)
    requires eic.Valid() && eic.userBuf == Serialize(sc.sent) && |eic.userBuf| == eic.bytesCopied
    requires p.w == eic.W() && p.next == start && p.vaEnd == end
    modifies eic`pieRead, eic`pieReadMax, eic`tokens, eic`nextHva, eic`overrun, eic`bytesCopied, eic`userBuf, eic.kpie
    ensures eic.Valid() && AtScan(eic, CopyOf(vm, eic.bufSize, sc, p)) && ret == CopyOf(vm, eic.bufSize, sc, p).ret
  {
    var lc := MarkTail(eic, start, end);
    ret := SendBuffer(eic, lc, sc.sent);
  }

  // ----- The rounds -----

  /** ept_page_range for a piece of one slot. */
  method PageRange(eic: EptIdleCtrl, root: seq<PT.Node>, gpa: nat, end: nat) returns (full: bool)
    requires eic.Valid() && Opened(eic.tokens) && PT.WellFormed(ROOT_LEVEL, root)
    requires gpa < end <= PT.BlockSize(ROOT_LEVEL + 1) && gpa % PAGE_SIZE == 0 && end % PAGE_SIZE == 0
    modifies eic`pieRead, eic`nextHva, eic`restartGpa, eic`tokens, eic`accessed, eic`overrun, eic.kpie
    ensures eic.Valid() && Opened(eic.tokens)
    ensures Walked(eic.W(), full) == Flat(PT.ViewOf(ROOT_LEVEL, root), old(eic.W()), gpa, end)
  {
    DivModUnique(gpa, PT.BlockSize(ROOT_LEVEL + 1), 0, gpa);
    full := eic.EptRange(ROOT_LEVEL, root, gpa, end);
  }

  method WalkGap(eic: EptIdleCtrl, ghost vm: Vm, start: nat, range: nat, end: nat)
    returns (next: int, vaEnd: int, ghost p: Piece)
    requires eic.Valid() && eic.tokens == [] && range == Ahead(vm.slots, start)
    modifies eic`gpaToHva, eic`restartGpa
    ensures eic.Valid() && p == GapPiece(vm, old(eic.W()), start, end)
    ensures p.w == eic.W() && p.next == next && p.vaEnd == vaEnd
  {
    p := GapPiece(vm, eic.W(), start, end);
    eic.gpaToHva := 0;
    if range == ALL_ONES {
      eic.restartGpa := TASK_SIZE;
      vaEnd := end;
    } else {
      eic.restartGpa := start + range;
      vaEnd := start + range;
    }
    next := eic.restartGpa + eic.gpaToHva;
  }

  method WalkSlot(eic: EptIdleCtrl, ghost vm: Vm, ghost s: Slot, root: seq<PT.Node>, start: nat, g: nat, range: nat)
    returns (next: int, vaEnd: int, ghost p: Piece)
    requires PT.WellFormed(ROOT_LEVEL, root) && vm.root == PT.ViewOf(ROOT_LEVEL, root)
    requires SlotAligned(s) && s.gpa + s.size <= PT.BlockSize(ROOT_LEVEL + 1) && s.HoldsHva(start)
    requires eic.Valid() && eic.tokens == [] && start % PAGE_SIZE == 0
    requires g == start - s.hva + s.gpa && range == s.hva + s.size - start
    modifies eic`pieRead, eic`nextHva, eic`gpaToHva, eic`restartGpa, eic`tokens, eic`accessed, eic`overrun, eic.kpie
    ensures eic.Valid() && p == SlotPiece(vm, old(eic.W()), s, start)
    ensures p.w == eic.W() && p.next == next && p.vaEnd == vaEnd
  {
    ghost var w := eic.W();
    eic.gpaToHva := start - g;
    SlotAddress(s, start, g);
    ModAdd(s.gpa, s.size, PAGE_SIZE);
    var end := g + range;
    ghost var w' := eic.W();
    var full := PageRange(eic, root, g, end);
    SlotPieceIs(vm, s, w, start, w', g, Walked(eic.W(), full));
    p := SlotPiece(vm, w, s, start);
    FlatKeeps(vm.root, w', g, end);
    next := eic.restartGpa + eic.gpaToHva;
    vaEnd := eic.gpaToHva + end;
  }

  /** The first half of a round of ept_idle_walk_hva_range: find the slot of `start` and walk it. */
  method WalkPiece(eic: EptIdleCtrl, slots: seq<Slot>, root: seq<PT.Node>, start: nat, end: nat)
    returns (next: int, vaEnd: int, ghost p: Piece)
    requires HostOk(slots, root) && eic.Valid() && eic.tokens == [] && start % PAGE_SIZE == 0
    modifies eic`pieRead, eic`nextHva, eic`gpaToHva, eic`restartGpa, eic`tokens, eic`accessed, eic`overrun, eic.kpie
    ensures eic.Valid() && p == PieceOf(HostVm(slots, root), old(eic.W()), start, end)
    ensures p.w == eic.W() && p.next == next && p.vaEnd == vaEnd
  {
    ghost var vm := HostVm(slots, root);
    var gpa, range := FindGpa(slots, start);
    match gpa
    case None =>
      next, vaEnd, p := WalkGap(eic, vm, start, range, end);
    case Some(g) =>
      next, vaEnd, p := WalkSlot(eic, vm, slots[SlotIndex(slots, start)], root, start, g, range);
  }

  /** One round of the loop of ept_idle_walk_hva_range. */
  method WalkRound(eic: EptIdleCtrl, slots: seq<Slot>, root: seq<PT.Node>, start: nat, end: nat, ghost sc: Scan)
    returns (ret: nat, next: int, ghost sc': Scan)
    requires HostOk(slots, root) && eic.Valid() && AtScan(eic, sc) && sc.ret == 0 && sc.w.ctrl.tokens == []
    requires sc.start == start && start % PAGE_SIZE == 0
    modifies eic, eic.kpie
    ensures eic.Valid() && eic.bufSize == old(eic.bufSize)
    ensures sc' == RoundOf(HostVm(slots, root), eic.bufSize, end, sc) && AtScan(eic, sc')
    ensures ret == sc'.ret && next == sc'.start
  {
    var vaEnd;
    ghost var p;
    next, vaEnd, p := WalkPiece(eic, slots, root, start, end);
    ret := CopyUser(eic, next, vaEnd, HostVm(slots, root), sc, p);
    sc' := CopyOf(HostVm(slots, root), eic.bufSize, sc, p);
  }

  lemma ScansSnoc(vm: Vm, count: int, end: nat, first: Scan, scans: seq<Scan>, sc: Scan)
    requires Scans(vm, count, end, first, scans) && GoesOn(scans[|scans| - 1], end)
    requires sc == RoundOf(vm, count, end, scans[|scans| - 1])
    ensures Scans(vm, count, end, first, scans + [sc])
  {
    var all := scans + [sc];
    forall k | 0 <= k < |all| - 1 ensures StepAt(vm, count, end, all, k) {
      assert k < |scans| - 1 ==> StepAt(vm, count, end, scans, k);
    }
  }

  /** What the next round finds and comes to. */
  lemma NextScan(vm: Vm, count: int, w: Walk, a: nat, end: nat, scans: seq<Scan>, last: Scan) returns (sc: Scan)
    requires HostVmOk(vm) && Begins(count, w, a, end) && Scans(vm, count, end, First(count, w, a), scans)
    requires last == scans[|scans| - 1] && last.ret == 0 && last.start < end
    ensures last.start >= 0 && last.start % PAGE_SIZE == 0 && last.w.ctrl.tokens == []
    ensures sc == RoundOf(vm, count, end, last) && Scans(vm, count, end, First(count, w, a), scans + [sc])
    ensures sc.ret == 0 ==> last.start < sc.start
  {
    ScansReport(vm, count, w, a, end, scans, |scans| - 1);
    sc := RoundReports(vm, count, a, end, last);
    ScansSnoc(vm, count, end, First(count, w, a), scans, sc);
  }

  /** The loop of ept_idle_walk_hva_range. */
  method WalkRounds(eic: EptIdleCtrl, slots: seq<Slot>, root: seq<PT.Node>, a: nat, end: nat, ghost w: Walk)
    returns (ret: nat, ghost scans: seq<Scan>)
    requires HostOk(slots, root) && eic.Valid() && Begins(eic.bufSize, w, a, end)
    requires AtScan(eic, First(eic.bufSize, w, a))
    modifies eic, eic.kpie
    ensures eic.Valid() && eic.bufSize == old(eic.bufSize)
    ensures IsRead(HostVm(slots, root), eic.bufSize, end, First(eic.bufSize, w, a), scans)
    ensures AtScan(eic, scans[|scans| - 1]) && ret == scans[|scans| - 1].ret
  {
    ghost var vm, count, sc := HostVm(slots, root), eic.bufSize, First(eic.bufSize, w, a);
    scans := [sc];
    ret := 0;
    var start: int := a;
    while start < end
      invariant eic.Valid() && eic.bufSize == count && AtScan(eic, sc) && sc.start == start && sc.ret == ret == 0
      invariant Scans(vm, count, end, First(count, w, a), scans) && sc == scans[|scans| - 1]
      decreases end - start
    {
      ghost var next := NextScan(vm, count, w, a, end, scans, sc);
      ret, start, sc := WalkRound(eic, slots, root, start, end, sc);
      scans := scans + [sc];
      if ret != 0 {
        break;
      }
    }
  }

  /** ept_idle_walk_hva_range. */
  method WalkHvaRange(eic: EptIdleCtrl, slots: seq<Slot>, root: seq<PT.Node>, a: nat, end: nat)
    returns (ret: nat, ghost scans: seq<Scan>)
    requires HostOk(slots, root) && eic.Valid() && eic.bytesCopied == 0 && eic.userBuf == [] && eic.nextHva == 0
    requires a % PAGE_SIZE == 0 && a < end < U64_RANGE && end % PAGE_SIZE == 0 && eic.bufSize > 0
    modifies eic, eic.kpie
    ensures eic.Valid() && eic.bufSize == old(eic.bufSize)
    ensures IsRead(HostVm(slots, root), eic.bufSize, end, First(eic.bufSize, old(eic.W()), a), scans)
    ensures AtScan(eic, scans[|scans| - 1]) && ret == if eic.userBuf != [] then 0 else scans[|scans| - 1].ret
  {
    ghost var w := eic.W();
    LimitFailsExactly(eic.bufSize, []);
    ret := InitBuffer(eic);
    if ret != 0 {
      scans := [First(eic.bufSize, w, a)];
      return;
    }
    ret, scans := WalkRounds(eic, slots, root, a, end, w);
    if eic.bytesCopied != 0 {
      ret := 0;
    }
  }

  /** A control block set up for a read. */
  function SetUp(accessed: set<nat>, overrun: bool): Walk {
    Walk(Ctrl([], 0, 0, 0, 0, overrun), accessed)
  }

  /** The rounds of a read at `pos` of `count` bytes. */
  predicate ReadAt(vm: Vm, accessed: set<nat>, overrun: bool, pos: nat, count: nat, scans: seq<Scan>) {
    IsRead(vm, count, (pos + count * 8 * PAGE_SIZE) % U64_RANGE, First(count, SetUp(accessed, overrun), pos), scans)
  }

  /** The last round is the first one that is to be a read's last. */
  predicate LastStops(count: int, end: nat, scans: seq<Scan>) {
    |scans| >= 2 && forall k :: 0 <= k < |scans| - 1 ==> (StopsAt(count, end, scans[k], scans[k + 1]) <==> k == |scans| - 2)
  }

  /** What a read that is neither refused nor of 19 bytes has done: the bytes, the file position and
      the accessed bits are those of its rounds, and decode to a report of the pages shown. */
  ghost predicate ReadDone(eic: EptIdleCtrl, vm: Vm, pos: nat, count: nat, scans: seq<Scan>, ret: int, newPos: int)
    reads eic
  {
    && scans != [] && var last := scans[|scans| - 1];
       && AtScan(eic, last) && Lex(eic.userBuf) == Some(last.sent) && 0 < ret == |eic.userBuf|
       && newPos == last.w.ctrl.nextHva && Behind(vm, pos, last) && WellPacked(last.sent)
       && (InNoSlot(vm.slots, pos) ==> NextSlotAt(vm.slots, pos, (pos + count * 8 * PAGE_SIZE) % U64_RANGE, newPos))
       && LastStops(count, (pos + count * 8 * PAGE_SIZE) % U64_RANGE, scans)
       && (ret <= count <==> NoneShort(count, scans)) && ret < count + KBUF_SIZE
  }

  /** ept_idle_read at file position `pos`: the result and the new position. A read of 20 bytes or
      more inside the address range moves on and copies bytes which a reader takes apart as a list of
      exactly the pages shown between the old and the new position, in runs as long as can be; from a
      position in no slot it moves to the next slot. The bytes are at most `count` exactly if no round
      began with 1 to 8 bytes left. A read of 19, the smallest the kernel accepts, returns 1 with nothing written. */
  method EptIdleRead(eic: EptIdleCtrl, slots: seq<Slot>, root: seq<PT.Node>, pos: nat, count: nat)
    returns (ret: int, newPos: int, ghost scans: seq<Scan>)
    requires HostOk(slots, root) && eic.Valid() && pos < U64_RANGE
    modifies eic, eic.kpie
    ensures eic.Valid()
    ensures var end := (pos + count * 8 * PAGE_SIZE) % U64_RANGE;
            if pos >= TASK_SIZE || end <= pos then ret == 0 && newPos == pos
            else if pos % PAGE_SIZE != 0 || count < BUF_MIN then ret == -EINVAL && newPos == pos
            else if count == BUF_MIN then ret == 1 && newPos == pos && eic.userBuf == []
            else
              && ReadAt(HostVm(slots, root), old(eic.accessed), old(eic.overrun), pos, count, scans)
              && ReadDone(eic, HostVm(slots, root), pos, count, scans, ret, newPos)
    ensures SlotsFit(slots) ==> eic.overrun == old(eic.overrun)
  {
    var hvaEnd := (pos + count * 8 * PAGE_SIZE) % U64_RANGE;
    scans := [];
    if pos >= TASK_SIZE {
      return 0, pos, scans;
    }
    if hvaEnd <= pos {
      return 0, pos, scans;
    }
    if pos % PAGE_SIZE != 0 {
      return -EINVAL, pos, scans;
    }
    if count < BUF_MIN {
      return -EINVAL, pos, scans;
    }
    EndAligned(pos, count);
    Setup(eic, count);
    ghost var w := eic.W();
    var walked;
    walked, scans := WalkHvaRange(eic, slots, root, pos, hvaEnd);
    LimitFailsExactly(count, []);
    if count == BUF_MIN {
      ReadFails(HostVm(slots, root), count, hvaEnd, First(count, w, pos), scans);
    } else {
      ReadEnds(HostVm(slots, root), count, w, pos, hvaEnd, scans);
    }
    if walked != 0 {
      return walked, pos, scans;
    }
    return eic.bytesCopied, eic.nextHva, scans;
  }

  /** A read without room for a round makes none. */
  lemma ReadFails(vm: Vm, count: int, end: nat, first: Scan, scans: seq<Scan>)
    requires IsRead(vm, count, end, first, scans) && first.ret != 0
    ensures scans == [first]
  {
    if |scans| > 1 {
      FirstGoesOn(vm, count, end, first, scans);
    }
  }

  lemma FirstGoesOn(vm: Vm, count: int, end: nat, first: Scan, scans: seq<Scan>)
    requires Scans(vm, count, end, first, scans) && |scans| > 1
    ensures GoesOn(first, end)
  {
    assert StepAt(vm, count, end, scans, 0);
  }

  /** A read that begins makes at least one round, and its last state is a report. */
  lemma ReadEnds(vm: Vm, count: int, w: Walk, a: nat, end: nat, scans: seq<Scan>)
    requires HostVmOk(vm) && Begins(count, w, a, end) && IsRead(vm, count, end, First(count, w, a), scans)
    ensures var last := scans[|scans| - 1];
            && Behind(vm, a, last) && Lex(Serialize(last.sent)) == Some(last.sent) && Size(last.sent) > 0
            && WellPacked(last.sent)
            && (Size(last.sent) <= count <==> NoneShort(count, scans)) && Size(last.sent) < count + KBUF_SIZE
            && (SlotsFit(vm.slots) ==> last.w.ctrl.overrun == w.ctrl.overrun)
            && (InNoSlot(vm.slots, a) ==> NextSlotAt(vm.slots, a, end, last.w.ctrl.nextHva))
            && LastStops(count, end, scans)
  {
    var last := scans[|scans| - 1];
    ScansReport(vm, count, w, a, end, scans, |scans| - 1);
    LexSerialize(last.sent);
    EmptyBuffer(last.sent);
    ReadFitsExactly(vm, count, w, a, end, scans);
    ReadPacks(vm, count, w, a, end, scans, |scans| - 1);
    forall k | 0 <= k < |scans| - 1 ensures StopsAt(count, end, scans[k], scans[k + 1]) <==> k == |scans| - 2 {
      ReadStopsExactly(vm, count, w, a, end, scans, k);
    }
    if SlotsFit(vm.slots) {
      ReadStays(vm, count, w, a, end, scans, |scans| - 1);
    }
    if InNoSlot(vm.slots, a) {
      GapReadEnds(vm, count, w, a, end, scans, last);
    }
  }

  lemma EndAligned(pos: nat, count: nat)
    requires pos % PAGE_SIZE == 0
    ensures ((pos + count * 8 * PAGE_SIZE) % U64_RANGE) % PAGE_SIZE == 0
  {
    MulMod(PAGE_SIZE, count * 8);
    ModAdd(pos, count * 8 * PAGE_SIZE, PAGE_SIZE);
    WordAligned(pos + count * 8 * PAGE_SIZE);
  }

  lemma WordAligned(x: nat)
    requires x % PAGE_SIZE == 0
    ensures (x % U64_RANGE) % PAGE_SIZE == 0
  {
    var q := x / U64_RANGE;
    MulMod(PAGE_SIZE, 0x10_0000_0000_0000 * q);
    assert x - x % U64_RANGE == PAGE_SIZE * (0x10_0000_0000_0000 * q);
    ModSub(x - x % U64_RANGE, x, PAGE_SIZE);
  }

  /** setup_ept_idle_ctrl. */
  method Setup(eic: EptIdleCtrl, count: nat)
    requires eic.Valid()
    modifies eic`userBuf, eic`bufSize, eic`bytesCopied, eic`nextHva, eic`gpaToHva, eic`restartGpa
    ensures eic.Valid() && eic.bytesCopied == 0 && eic.userBuf == [] && eic.nextHva == 0 && eic.bufSize == count
    ensures eic.gpaToHva == 0 && eic.restartGpa == 0
  {
    eic.userBuf := [];
    eic.bufSize := count;
    eic.bytesCopied := 0;
    eic.nextHva := 0;
    eic.gpaToHva := 0;
    eic.restartGpa := 0;
  }
}
