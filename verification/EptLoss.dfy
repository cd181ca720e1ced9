/** Which pages a walk passes over: those that end under an empty 2 MB entry which reaches beyond the
    slot before them. */
module EptLoss {
  import opened Arith
  import opened IdleStream
  import opened PageList
  import opened EptLayout
  import opened EptReports
  import PT = PageTable

  function SlotEnd(vm: Vm, i: nat): nat
    requires i < |vm.slots|
  {
    vm.slots[i].hva + vm.slots[i].size
  }

  /** Where a walk that leaves slot i goes on. */
  function Leaves(vm: Vm, i: nat): int
    requires i < |vm.slots| && vm.slots[i].size > 0
  {
    vm.slots[i].Hva(Over(vm.root, vm.slots[i]))
  }

  /** That is behind the slot exactly if the slot ends in the middle of an empty 2 MB entry. */
  lemma OverhangsExactly(vm: Vm, i: nat)
    requires VmOk(vm) && i < |vm.slots|
    ensures var s := vm.slots[i];
            var last := s.gpa + s.size - 1;
            && Leaves(vm, i) >= SlotEnd(vm, i)
            && (Leaves(vm, i) > SlotEnd(vm, i)
                <==> vm.root(last) == PT.Block(1, false) && End(vm.root, last) > s.gpa + s.size)
  {
    var s := vm.slots[i];
    var last := s.gpa + s.size - 1;
    assert BlocksInside(vm.root, s);
    if vm.root(last).level == 0 {
      Sizes();
      ModAdd(s.gpa, s.size, PAGE_SIZE);
      PT.BlockStopsAt(0, 0, last, s.gpa + s.size);
    }
  }

  lemma TrackedSame(vm: Vm, a: nat, h: nat, y: nat)
    requires Track(vm, a, h) && h <= y
    ensures Examined(vm, a, y) == Examined(vm, h, y)
  {
  }

  /** Where a walk at a goes first on its way to x: the next address, or out of the slot. */
  lemma FirstStop(vm: Vm, a: nat, x: nat) returns (b: nat)
    requires VmOk(vm) && Examined(vm, a, x) && a < x
    ensures a < b <= x && Track(vm, a, b) && Examined(vm, b, x)
  {
    var i := SlotIndex(vm.slots, a);
    b := a + 1;
    if i == |vm.slots| {
      TrackGap(vm, a, b);
    } else if b < SlotEnd(vm, i) {
      TrackInSlot(vm, i, a, b);
    } else {
      b := Leaves(vm, i);
      ExaminedFromSlot(vm, i, vm.slots[i], a, x, b);
      TrackLeave(vm, i, vm.slots[i], a);
    }
    TrackedSame(vm, a, b, x);
  }

  /** A walk that examines x comes to x. */
  lemma {:induction false} ExaminedTrack(vm: Vm, a: nat, x: nat)
    requires VmOk(vm) && Examined(vm, a, x)
    ensures Track(vm, a, x)
    decreases x - a
  {
    if a < x {
      var b := FirstStop(vm, a, x);
      ExaminedTrack(vm, b, x);
      TrackTrans(vm, a, b, x);
    }
  }

  /** A walk from a leaves slot i and passes over y. */
  predicate Skips(vm: Vm, a: nat, i: nat, y: int) {
    && i < |vm.slots| && vm.slots[i].size > 0
    && a < SlotEnd(vm, i) <= y < Leaves(vm, i) && Examined(vm, a, SlotEnd(vm, i) - 1)
  }

  lemma SkippedNotExamined(vm: Vm, a: nat, i: nat, y: nat)
    requires VmOk(vm) && Skips(vm, a, i, y)
    ensures !Examined(vm, a, y)
  {
    var last := SlotEnd(vm, i) - 1;
    ExaminedTrack(vm, a, last);
    TrackedSame(vm, a, last, y);
    OutOfView(vm, i, vm.slots[i], last, y);
  }

  lemma OutOfView(vm: Vm, i: nat, s: Slot, h: nat, y: nat)
    requires VmOk(vm) && i < |vm.slots| && s == vm.slots[i] && s.HoldsHva(h)
    requires s.hva + s.size <= y < s.Hva(Over(vm.root, s))
    ensures !Examined(vm, h, y)
  {
    SlotIndexUnique(vm, h, i);
    ExaminedFromSlot(vm, i, s, h, y, s.Hva(Over(vm.root, s)));
  }

  /** No walk from the slot comes to an address between its end and where it leaves to. */
  lemma NeverBetween(vm: Vm, i: nat, s: Slot, h: nat, y: nat)
    requires VmOk(vm) && i < |vm.slots| && s == vm.slots[i] && s.HoldsHva(h)
    requires s.hva + s.size <= y < s.Hva(Over(vm.root, s))
    ensures !Track(vm, h, y)
  {
    OutOfView(vm, i, s, h, y);
    assert Examined(vm, y, y);
  }

  lemma SkipsEarlier(vm: Vm, a: nat, b: nat, i: nat, y: int)
    requires a <= b && Track(vm, a, b) && Skips(vm, b, i, y)
    ensures Skips(vm, a, i, y)
  {
    TrackedSame(vm, a, b, SlotEnd(vm, i) - 1);
  }

  /** From an address in no slot a walk goes on to the next one. */
  lemma GapSame(vm: Vm, a: nat, y: nat)
    requires VmOk(vm) && SlotIndex(vm.slots, a) == |vm.slots| && a <= y && !Examined(vm, a, y)
    ensures a < y && !Examined(vm, a + 1, y)
  {
    TrackGap(vm, a, a + 1);
    TrackedSame(vm, a, a + 1, y);
  }

  lemma GapSkips(vm: Vm, a: nat, i: nat, y: int)
    requires VmOk(vm) && SlotIndex(vm.slots, a) == |vm.slots| && Skips(vm, a + 1, i, y)
    ensures Skips(vm, a, i, y)
  {
    var last := SlotEnd(vm, i) - 1;
    assert Examined(vm, a, last) == (last == a || Examined(vm, a + 1, last));
  }

  lemma {:induction false} NotExaminedSkipped(vm: Vm, a: nat, y: nat) returns (i: nat)
    requires VmOk(vm) && a <= y && !Examined(vm, a, y)
    ensures Skips(vm, a, i, y)
    decreases y - a
  {
    i := SlotIndex(vm.slots, a);
    if i == |vm.slots| {
      GapSame(vm, a, y);
      i := NotExaminedSkipped(vm, a + 1, y);
      GapSkips(vm, a, i, y);
    } else {
      var leaves := Leaves(vm, i);
      ExaminedFromSlot(vm, i, vm.slots[i], a, y, leaves);
      ExaminedFromSlot(vm, i, vm.slots[i], a, SlotEnd(vm, i) - 1, leaves);
      if y >= leaves {
        TrackLeave(vm, i, vm.slots[i], a);
        i := NotExaminedSkipped(vm, leaves, y);
        SkipsEarlier(vm, a, leaves, i, y);
      }
    }
  }

  function LastOf(e: Extent): int { e.base + e.size - 1 }

  /** e is a page of the guest as the host sees it. */
  predicate IsPage(vm: Vm, e: Extent) {
    e.size > 0 && e.base >= 0 && HvaPage(vm, LastOf(e)) == Some(e)
  }

  lemma UnseenNotListed(vm: Vm, seen: seq<Page>, a: nat, v: nat, e: Extent)
    requires IsPageList(Shown(vm, a), seen, a, v) && IsPage(vm, e) && !Examined(vm, a, LastOf(e))
    ensures !Listed(seen, e)
  {
    forall k | 0 <= k < |seen| ensures ExtentOf(seen[k]) != e {
      assert Meets(Shown(vm, a), seen[k], a, v);
    }
  }

  lemma ExaminedListed(vm: Vm, seen: seq<Page>, a: nat, v: nat, e: Extent)
    requires IsPageList(Shown(vm, a), seen, a, v) && IsPage(vm, e) && a <= LastOf(e) < v
    requires Examined(vm, a, LastOf(e))
    ensures Listed(seen, e)
  {
    assert Holds(Shown(vm, a), LastOf(e));
  }

  /** Of the pages that end between the old and the new file position a read lists exactly those that
      no slot it leaves passes over. */
  lemma ListedExactly(vm: Vm, seen: seq<Page>, a: nat, v: nat, e: Extent)
    requires VmOk(vm) && IsPageList(Shown(vm, a), seen, a, v) && IsPage(vm, e) && a <= LastOf(e) < v
    ensures Listed(seen, e) <==> forall i: nat :: !Skips(vm, a, i, LastOf(e))
  {
    var y := LastOf(e);
    if Examined(vm, a, y) {
      ExaminedListed(vm, seen, a, v, e);
      forall i: nat ensures !Skips(vm, a, i, y) {
        if Skips(vm, a, i, y) {
          SkippedNotExamined(vm, a, i, y);
        }
      }
    } else {
      UnseenNotListed(vm, seen, a, v, e);
      var i := NotExaminedSkipped(vm, a, y);
    }
  }

  /** The page ends under the empty entry at the end of slot i. */
  predicate Covered(vm: Vm, i: nat, e: Extent) {
    i < |vm.slots| && vm.slots[i].size > 0 && IsPage(vm, e) && SlotEnd(vm, i) <= LastOf(e) < Leaves(vm, i)
  }

  /** A walk from a lists the page, if it comes that far. */
  predicate Finds(vm: Vm, a: nat, e: Extent) {
    IsPage(vm, e) && a <= LastOf(e) ==> Examined(vm, a, LastOf(e))
  }

  /** A page under such an entry is lost to every read that begins in the slot. */
  lemma CoveredLost(vm: Vm, i: nat, e: Extent) returns (a: nat)
    requires VmOk(vm) && Covered(vm, i, e)
    ensures vm.slots[i].HoldsHva(a) && !Finds(vm, a, e)
  {
    a := SlotEnd(vm, i) - 1;
    SlotIndexUnique(vm, a, i);
    SkippedNotExamined(vm, a, i, LastOf(e));
  }

  lemma LostCovered(vm: Vm, a: nat, e: Extent) returns (i: nat)
    requires VmOk(vm) && !Finds(vm, a, e)
    ensures Covered(vm, i, e)
  {
    i := NotExaminedSkipped(vm, a, LastOf(e));
  }

  /** Reads lose no page, wherever they begin, if and only if no page ends under an empty 2 MB entry
      that reaches beyond the end of its slot. */
  lemma LosesNothingExactly(vm: Vm)
    requires VmOk(vm)
    ensures (forall a: nat, e: Extent :: Finds(vm, a, e)) <==> (forall i: nat, e: Extent :: !Covered(vm, i, e))
  {
    if a: nat, e: Extent :| !Finds(vm, a, e) {
      var i := LostCovered(vm, a, e);
    } else {
      forall i: nat, e: Extent ensures !Covered(vm, i, e) {
        if Covered(vm, i, e) {
          var a := CoveredLost(vm, i, e);
        }
      }
    }
  }
}
