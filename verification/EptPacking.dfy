/** How tightly a read packs its pages: a run is as long as its byte can say, and a command is sent only
    where the reader does not stand. */
module EptPacking {
  import opened IdleStream
  import opened EptEncoder
  import opened EptWalk
  import opened EptLayout
  import opened EptRounds
  import opened EptBytes
  import PT = PageTable

  // ----- One call -----

  /** The bytes an accepted call adds: none for an entry that lengthens the last run, one for an item
      where the reader stands, ten with the command that moves it. */
  lemma AddedBytes(c: Ctrl, addr: int, next: int, t: ItemType) returns (r: Added)
    requires !AddPage(c, addr, next, t).full
    ensures r == AddPage(c, addr, next, t)
    ensures var jumps := c.tokens == [] || addr + c.gpaToHva != c.nextHva;
            var hole := t == 8 || t == 9;
            Size(r.ctrl.tokens) - Size(c.tokens)
            == if jumps && hole then 0
               else if jumps then 10
               else if ExistsRun(c.tokens, t) then 0 else 1
  {
    r := AddPage(c, addr, next, t);
    if !Merges(c, addr, t) {
      PushedSize(c, addr, t);
    }
  }

  /** The last token is a run of the type with room for one more. */
  predicate ExistsRun(ks: seq<Token>, t: ItemType) {
    ks != [] && exists nr: Nibble :: nr < 15 && ks[|ks| - 1] == Run(t, nr)
  }

  /** An empty entry of 4 KB or 2 MB is listed as a hole where the reader stands, and nowhere else; one
      of 1 GB or more never is. */
  lemma HolesListed(w: Walk, b: PT.Block, addr: nat, next: nat) returns (r: Walked)
    requires InSync(w.ctrl) && !b.isPage && addr < next <= PT.BlockEnd(b.level, addr)
    requires !Visit(w, b, addr, next).full
    ensures r == Visit(w, b, addr, next) && r.w.accessed == w.accessed
    ensures Items(r.w.ctrl.tokens) == Items(w.ctrl.tokens)
            + if b.level > 1 || w.ctrl.tokens == [] || addr + w.ctrl.gpaToHva != w.ctrl.nextHva then []
              else [Page(w.ctrl.nextHva, if b.level == 0 then 8 else 9)]
  {
    r := Visit(w, b, addr, next);
    if Reportable(b) {
      var t := EntryType(b, PT.BlockStart(b.level, addr) in w.accessed);
      assert PT.BlockSize(0) == PAGE_SIZE && PT.BlockSize(1) == PMD_SIZE;
      var added, end := AddPageMeaning(w.ctrl, addr, next, t);
    }
  }

  // ----- A whole read -----

  /** Behind a run that is not full stands no run of the same type. */
  predicate Packed(ks: seq<Token>) {
    forall i :: 0 <= i < |ks| - 1 ==> PairPacked(ks[i], ks[i + 1])
  }

  predicate PairPacked(a: Token, b: Token) {
    a.Run? && b.Run? && a.t == b.t ==> a.nr == 15
  }

  lemma PackedSnoc(ks: seq<Token>, k: Token)
    requires Packed(ks) && (ks != [] ==> PairPacked(ks[|ks| - 1], k))
    ensures Packed(ks + [k])
  {
    var ks' := ks + [k];
    forall i | 0 <= i < |ks'| - 1 ensures PairPacked(ks'[i], ks'[i + 1]) {
      assert i < |ks| - 1 ==> PairPacked(ks[i], ks[i + 1]);
    }
  }

  lemma PackedLast(ks: seq<Token>, k: Token)
    requires ks != [] && Packed(ks) && k.Run? && ks[|ks| - 1].Run? && ks[|ks| - 1].t == k.t
    ensures Packed(ks[..|ks| - 1] + [k])
  {
    var init := ks[..|ks| - 1];
    assert forall i :: 0 <= i < |init| - 1 ==> PairPacked(ks[i], ks[i + 1]);
    assert |ks| > 1 ==> PairPacked(ks[|ks| - 2], ks[|ks| - 1]);
    PackedSnoc(init, k);
  }

  lemma PushedPacks(c: Ctrl, addr: int, t: ItemType)
    requires Packed(c.tokens) && RunsCount(c.tokens)
    ensures Packed(Pushed(c, addr, t)) && RunsCount(Pushed(c, addr, t))
  {
    if Jumps(c, addr) {
      var k := SetHva(RoundDown(addr, t) + c.gpaToHva);
      PackedSnoc(c.tokens, k);
      PackedSnoc(c.tokens + [k], Run(t, 1));
    } else if GrowsLast(c, addr, t) {
      PackedLast(c.tokens, c.tokens[|c.tokens| - 1].(nr := c.tokens[|c.tokens| - 1].nr + 1));
    } else {
      PackedSnoc(c.tokens, Run(t, 1));
    }
  }

  /** No run is empty. */
  predicate RunsCount(ks: seq<Token>) {
    forall i :: 0 <= i < |ks| && ks[i].Run? ==> ks[i].nr > 0
  }

  predicate WellPacked(ks: seq<Token>) { Packed(ks) && RunsCount(ks) }

  lemma VisitPacks(w: Walk, b: PT.Block, addr: nat, next: nat)
    requires WellPacked(w.ctrl.tokens)
    ensures WellPacked(Visit(w, b, addr, next).w.ctrl.tokens)
  {
    if Reportable(b) {
      PushedPacks(w.ctrl, addr, EntryType(b, PT.BlockStart(b.level, addr) in w.accessed));
    }
  }

  lemma {:induction false} FlatPacks(v: PT.View, w: Walk, addr: nat, end: nat)
    requires WellPacked(w.ctrl.tokens)
    ensures WellPacked(Flat(v, w, addr, end).w.ctrl.tokens)
    decreases end - addr
  {
    if addr < end {
      var next := PT.AddrEnd(v(addr).level, addr, end);
      var r := Visit(w, v(addr), addr, next);
      VisitPacks(w, v(addr), addr, next);
      if !r.full {
        FlatPacks(v, r.w, next, end);
      }
    }
  }

  lemma PiecePacks(vm: Vm, w: Walk, start: nat, end: nat)
    requires WellPacked(w.ctrl.tokens)
    ensures WellPacked(PieceOf(vm, w, start, end).w.ctrl.tokens)
  {
    var i := SlotIndex(vm.slots, start);
    if i < |vm.slots| {
      var s := vm.slots[i];
      FlatPacks(vm.root, w.(ctrl := w.ctrl.(gpaToHva := s.hva - s.gpa)), start - s.hva + s.gpa, s.gpa + s.size);
    }
  }

  lemma TailedPacks(c: Ctrl, next: int, vaEnd: int)
    requires WellPacked(c.tokens)
    ensures WellPacked(Tailed(c, next, vaEnd).tokens)
  {
    PackedSnoc(c.tokens, SetHva(TailAt(c, next, vaEnd)));
  }

  /** A buffer that opens with a command is packed behind any other. */
  lemma PackedJoin(a: seq<Token>, b: seq<Token>)
    requires WellPacked(a) && WellPacked(b) && (b == [] || b[0].SetHva?)
    ensures WellPacked(a + b)
  {
    var ks := a + b;
    forall i | 0 <= i < |ks| - 1 ensures PairPacked(ks[i], ks[i + 1]) {
      assert i < |a| - 1 ==> PairPacked(a[i], a[i + 1]);
      assert i >= |a| ==> PairPacked(b[i - |a|], b[i - |a| + 1]);
    }
  }

  lemma RoundPacks(vm: Vm, count: int, a: nat, end: nat, sc: Scan) returns (r: Scan)
    requires HostVmOk(vm) && Going(vm, count, a, sc) && sc.start < end < U64_RANGE && end % PAGE_SIZE == 0
    requires WellPacked(sc.sent)
    ensures r == RoundOf(vm, count, end, sc) && WellPacked(r.sent)
  {
    r := RoundOf(vm, count, end, sc);
    var p := PieceWithin(vm, count, a, end, sc);
    PiecePacks(vm, sc.w, sc.start, end);
    TailedPacks(p.w.ctrl, p.next, p.vaEnd);
    PackedJoin(sc.sent, Tailed(p.w.ctrl, p.next, p.vaEnd).tokens);
  }

  /** In everything a read has sent after any of its rounds, a run is followed by one of its own type
      only where it has the 15 pages its byte can count. */
  lemma {:induction false} ReadPacks(vm: Vm, count: int, w: Walk, a: nat, end: nat, scans: seq<Scan>, k: nat)
    requires HostVmOk(vm) && Begins(count, w, a, end) && Scans(vm, count, end, First(count, w, a), scans) && k < |scans|
    ensures var ks := scans[k].sent;
            forall i :: 0 <= i < |ks| - 1 && ks[i].Run? && ks[i + 1].Run? && ks[i].t == ks[i + 1].t ==> ks[i].nr == 15
    ensures WellPacked(scans[k].sent)
  {
    if k > 0 {
      ReadPacks(vm, count, w, a, end, scans, k - 1);
      var sc := RoundAt(vm, count, w, a, end, scans, k - 1);
      var r := RoundPacks(vm, count, a, end, sc);
      assert StepAt(vm, count, end, scans, k - 1);
    }
    var ks := scans[k].sent;
    assert forall i :: 0 <= i < |ks| - 1 && PairPacked(ks[i], ks[i + 1]) ==>
             (ks[i].Run? && ks[i + 1].Run? && ks[i].t == ks[i + 1].t ==> ks[i].nr == 15);
  }
}
