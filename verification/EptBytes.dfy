/** How many bytes a read of /proc/idle_pages copies, and when that is more than the user asked for. */
module EptBytes {
  import opened Arith
  import opened IdleStream
  import opened EptEncoder
  import opened EptWalk
  import opened EptLayout
  import opened EptRounds

  /** Setting up the buffer fails exactly with 9 to 19 bytes left: with fewer the limit is negative and
      compares as a huge one. */
  lemma LimitFailsExactly(count: int, sent: seq<Token>)
    requires Size(sent) <= count
    ensures LimitFails(LimitFor(count, sent)) <==> 9 <= count - Size(sent) <= 19
  {
  }

  /** The round begins with less than a command's room left. */
  predicate Short(count: int, sc: Scan) { 1 <= count - Size(sc.sent) <= 8 }

  lemma {:induction false} CommandSize(ks: seq<Token>)
    requires ks != [] && ks[0].SetHva?
    ensures Size(ks) >= 9
  {
    if |ks| > 1 {
      CommandSize(ks[..|ks| - 1]);
    } else {
      assert ks[..0] == [];
    }
  }

  lemma {:induction false} SizeAppend(a: seq<Token>, b: seq<Token>)
    ensures Size(a + b) == Size(a) + Size(b)
  {
    if b == [] {
      assert a + b == a;
    } else {
      var b', k := b[..|b| - 1], b[|b| - 1];
      SizeAppend(a, b');
      assert a + b == (a + b') + [k];
      SizeSnoc(a + b', k);
    }
  }

  /** What a round has walked is within its limit, and a round without pages has come to a place
      behind the reader's. */
  lemma PieceWithin(vm: Vm, count: int, a: nat, end: nat, sc: Scan) returns (p: Piece)
    requires HostVmOk(vm) && Going(vm, count, a, sc) && sc.start < end < U64_RANGE && end % PAGE_SIZE == 0
    ensures p == PieceOf(vm, sc.w, sc.start, end) && p.w.ctrl.pieReadMax == LimitFor(count, sc.sent)
    ensures WithinLimit(p.w.ctrl) && Opened(p.w.ctrl.tokens)
    ensures p.w.ctrl.tokens == [] ==> Max(p.next, p.vaEnd) > p.w.ctrl.nextHva
  {
    p := PieceOf(vm, sc.w, sc.start, end);
    var i := SlotIndex(vm.slots, sc.start);
    if i == |vm.slots| {
      var tail := GapPieceIs(vm, sc.w, sc.start, end, p);
    } else {
      var s := vm.slots[i];
      var stop := SlotWalked(vm, count, a, i, s, sc, p);
      SlotLimit(vm, s, sc.w, sc.start, p);
    }
  }

  lemma SlotLimit(vm: Vm, s: Slot, w: Walk, start: nat, p: Piece)
    requires s.HoldsHva(start) && p == SlotPiece(vm, w, s, start)
    ensures p.w.ctrl.pieReadMax == w.ctrl.pieReadMax
  {
    FlatKeeps(vm.root, w.(ctrl := w.ctrl.(gpaToHva := s.hva - s.gpa)), start - s.hva + s.gpa, s.gpa + s.size);
  }

  /** The bytes of the buffer with its last command. */
  lemma TailedSize(c: Ctrl, next: int, vaEnd: int)
    requires WithinLimit(c) && Opened(c.tokens) && (c.tokens == [] ==> Max(next, vaEnd) > c.nextHva)
    ensures 9 <= Size(Tailed(c, next, vaEnd).tokens) <= KBUF_SIZE
    ensures c.pieReadMax >= 0 ==> Size(Tailed(c, next, vaEnd).tokens) <= c.pieReadMax + 9
  {
    SizeSnoc(c.tokens, SetHva(TailAt(c, next, vaEnd)));
    if c.tokens != [] {
      CommandSize(c.tokens);
    }
  }

  /** A round copies 9 bytes or more, at most kpie's size. They fit exactly if at least 9 were left. */
  lemma RoundBytes(vm: Vm, count: int, a: nat, end: nat, sc: Scan) returns (r: Scan)
    requires HostVmOk(vm) && Going(vm, count, a, sc) && sc.start < end < U64_RANGE && end % PAGE_SIZE == 0
    ensures r == RoundOf(vm, count, end, sc) && Size(r.sent) >= Size(sc.sent) + 9
    ensures Size(r.sent) < count + KBUF_SIZE
    ensures Size(r.sent) <= count <==> !Short(count, sc)
    ensures Short(count, sc) ==> r.ret != 0
  {
    var p := PieceWithin(vm, count, a, end, sc);
    r := RoundOf(vm, count, end, sc);
    LimitFailsExactly(count, sc.sent);
    TailedSize(p.w.ctrl, p.next, p.vaEnd);
    SizeAppend(sc.sent, Tailed(p.w.ctrl, p.next, p.vaEnd).tokens);
  }

  /** The bytes after a round of a read. */
  lemma BytesAfter(vm: Vm, count: int, w: Walk, a: nat, end: nat, scans: seq<Scan>, k: nat)
    requires HostVmOk(vm) && Begins(count, w, a, end) && Scans(vm, count, end, First(count, w, a), scans)
    requires k + 1 < |scans|
    ensures Size(scans[k + 1].sent) <= count <==> !Short(count, scans[k])
    ensures Size(scans[k + 1].sent) < count + KBUF_SIZE
    ensures Short(count, scans[k]) ==> k + 2 == |scans|
  {
    var sc := RoundAt(vm, count, w, a, end, scans, k);
    var r := RoundBytes(vm, count, a, end, sc);
    assert k + 2 < |scans| ==> StepAt(vm, count, end, scans, k + 1);
  }

  predicate NoneShort(count: int, scans: seq<Scan>) {
    forall k :: 0 <= k < |scans| - 1 ==> !Short(count, scans[k])
  }

  /** A read copies no more than `count` bytes if and only if none of its rounds begins with 1 to 8
      bytes left. Only the last round can. */
  lemma ReadFitsExactly(vm: Vm, count: int, w: Walk, a: nat, end: nat, scans: seq<Scan>)
    requires HostVmOk(vm) && Begins(count, w, a, end) && Scans(vm, count, end, First(count, w, a), scans)
    requires |scans| > 1
    ensures Size(scans[|scans| - 1].sent) <= count <==> NoneShort(count, scans)
    ensures Size(scans[|scans| - 1].sent) < count + KBUF_SIZE
    ensures forall k :: 0 <= k < |scans| - 2 ==> !Short(count, scans[k])
  {
    BytesAfter(vm, count, w, a, end, scans, |scans| - 2);
    forall k | 0 <= k < |scans| - 2 ensures !Short(count, scans[k]) {
      BytesAfter(vm, count, w, a, end, scans, k);
    }
  }
}
