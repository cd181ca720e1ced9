/** Guest memory in the host's address space: the memory slots, the pages they show, and the addresses
    a walk examines. */
module EptLayout {
  import opened IdleStream
  import opened PageList
  import opened EptWalk
  import PT = PageTable

  /** A memory slot maps [hva, hva + size) of the host process to [gpa, gpa + size) of the guest. */
  datatype Slot = Slot(hva: nat, gpa: nat, size: nat) {
    predicate HoldsHva(h: nat) { hva <= h < hva + size }
    function Hva(g: int): int { g - gpa + hva }
  }

  /** `root` is the guest's page table as `PageTable.ViewOf` shows it. */
  datatype Vm = Vm(slots: seq<Slot>, root: PT.View)

  function Start(v: PT.View, g: nat): (s: nat)
    ensures s <= g
  {
    PT.BlockStart(v(g).level, g)
  }

  function End(v: PT.View, g: nat): (e: nat)
    ensures g < e
  {
    PT.BlockEnd(v(g).level, g)
  }

  /** The guest's pages lie inside their slot. An empty entry may reach beyond it. */
  predicate BlocksInside(root: PT.View, s: Slot) {
    forall g :: s.gpa <= g < s.gpa + s.size && root(g).isPage ==>
      s.gpa <= Start(root, g) && End(root, g) <= s.gpa + s.size
  }

  predicate SlotAligned(s: Slot) {
    s.hva % PAGE_SIZE == 0 && s.gpa % PAGE_SIZE == 0 && s.size % PAGE_SIZE == 0
  }

  predicate Disjoint(a: Slot, b: Slot) {
    a.hva + a.size <= b.hva || b.hva + b.size <= a.hva
  }

  predicate SlotsOk(vm: Vm) {
    && (forall i :: 0 <= i < |vm.slots| ==>
          vm.slots[i].size > 0 && SlotAligned(vm.slots[i]) && vm.slots[i].hva + vm.slots[i].size < U64_RANGE
          && BlocksInside(vm.root, vm.slots[i]))
    && (forall i, j :: 0 <= i < j < |vm.slots| ==> Disjoint(vm.slots[i], vm.slots[j]))
  }

  ghost predicate VmOk(vm: Vm) {
    PT.Tiled(vm.root) && SlotsOk(vm)
  }

  /** The index of the first slot that holds h, or |slots|. */
  function SlotIndex(slots: seq<Slot>, h: nat): (i: nat)
    ensures i <= |slots|
    ensures i < |slots| ==> slots[i].HoldsHva(h)
    ensures forall j :: 0 <= j < i ==> !slots[j].HoldsHva(h)
  {
    if slots == [] then 0 else if slots[0].HoldsHva(h) then 0 else 1 + SlotIndex(slots[1..], h)
  }

  /** The page, or none, that the block of guest address g shows to the host. */
  function BlockPage(root: PT.View, s: Slot, g: nat): Option<Extent> {
    if root(g).isPage
    then Some(Extent(s.Hva(Start(root, g)), PT.BlockSize(root(g).level)))
    else None
  }

  /** The guest page mapped at host address h. */
  function HvaPage(vm: Vm, h: nat): Option<Extent> {
    var i := SlotIndex(vm.slots, h);
    if i == |vm.slots| then None
    else BlockPage(vm.root, vm.slots[i], h - vm.slots[i].hva + vm.slots[i].gpa)
  }

  function PagesOf(vm: Vm): Layout {
    (h: nat) => HvaPage(vm, h)
  }

  lemma SlotIndexUnique(vm: Vm, h: nat, i: nat)
    requires VmOk(vm) && i < |vm.slots| && vm.slots[i].HoldsHva(h)
    ensures SlotIndex(vm.slots, h) == i
  {
    var k := SlotIndex(vm.slots, h);
    assert k < i ==> Disjoint(vm.slots[k], vm.slots[i]);
  }

  /** Every address of a block shows the same page. */
  lemma SameBlockPage(root: PT.View, s: Slot, g: nat, y: nat)
    requires PT.Tiled(root) && Start(root, g) <= y < End(root, g)
    ensures BlockPage(root, s, y) == BlockPage(root, s, g)
  {
    assert root(y) == root(g);
    PT.SameBlock(root(g).level, g, y);
  }

  lemma HvaPageAt(vm: Vm, i: nat, s: Slot, y: nat, x: nat)
    requires i == SlotIndex(vm.slots, x) < |vm.slots| && s == vm.slots[i] && x == s.Hva(y)
    ensures PagesOf(vm)(x) == BlockPage(vm.root, s, y)
  {
    assert x - s.hva + s.gpa == y;
  }

  lemma BlockPageAt(vm: Vm, i: nat, s: Slot, g: nat, y: nat, x: nat)
    requires PT.Tiled(vm.root) && i == SlotIndex(vm.slots, x) < |vm.slots| && s == vm.slots[i]
    requires Start(vm.root, g) <= y < End(vm.root, g) && x == s.Hva(y)
    ensures PagesOf(vm)(x) == BlockPage(vm.root, s, g)
  {
    SameBlockPage(vm.root, s, g, y);
    HvaPageAt(vm, i, s, y, x);
  }

  lemma BlockPages(vm: Vm, i: nat, s: Slot, g: nat, end: nat, shown: Option<Extent>)
    requires VmOk(vm) && i < |vm.slots| && s == vm.slots[i] && shown == BlockPage(vm.root, s, g)
    requires s.gpa <= g < end <= s.gpa + s.size && end <= End(vm.root, g)
    ensures forall x: nat :: s.Hva(g) <= x < s.Hva(end) ==> PagesOf(vm)(x) == shown
  {
    forall x: nat | s.Hva(g) <= x < s.Hva(end) ensures PagesOf(vm)(x) == shown {
      SlotIndexUnique(vm, x, i);
      BlockPageAt(vm, i, s, g, x - s.hva + s.gpa, x);
    }
  }

  /** The pages of a guest are consistent in the host's address space. */
  lemma PagesConsistent(vm: Vm)
    requires VmOk(vm)
    ensures Consistent(PagesOf(vm))
  {
    forall x: nat | Holds(PagesOf(vm), x) ensures ConsistentAt(PagesOf(vm), x) {
      var i := SlotIndex(vm.slots, x);
      var s := vm.slots[i];
      OneConsistent(vm, i, s, x - s.hva + s.gpa, x);
    }
  }

  lemma OneConsistent(vm: Vm, i: nat, s: Slot, g: nat, x: nat)
    requires VmOk(vm) && i == SlotIndex(vm.slots, x) < |vm.slots| && s == vm.slots[i]
    requires g == x - s.hva + s.gpa && PagesOf(vm)(x) == BlockPage(vm.root, s, g) && vm.root(g).isPage
    ensures ConsistentAt(PagesOf(vm), x)
  {
    var base, next := Start(vm.root, g), End(vm.root, g);
    assert BlocksInside(vm.root, s);
    var e := Extent(s.Hva(base), PT.BlockSize(vm.root(g).level));
    assert e.base + e.size == s.Hva(next);
    forall y: nat | e.base <= y < e.base + e.size ensures PagesOf(vm)(y) == Some(e) {
      SlotIndexUnique(vm, y, i);
      BlockPageAt(vm, i, s, g, y - s.hva + s.gpa, y);
    }
  }

  // ----- What a walk examines -----

  /** Where the walk of a slot restarts: at the end of the slot, or, if the slot ends with an empty
      entry that is reported, at the end of that entry. */
  function Over(root: PT.View, s: Slot): (g: nat)
    requires s.size > 0
    ensures g >= s.gpa + s.size
  {
    var last := s.gpa + s.size - 1;
    if Reportable(root(last)) then End(root, last) else s.gpa + s.size
  }

  /** A walk that starts at host address a examines address x. */
  predicate Examined(vm: Vm, a: nat, x: nat)
    decreases x - a
  {
    a <= x
    && var i := SlotIndex(vm.slots, a);
       if i == |vm.slots| then x == a || Examined(vm, a + 1, x)
       else
         var s := vm.slots[i];
         x < s.hva + s.size || Examined(vm, s.Hva(Over(vm.root, s)), x)
  }

  /** The pages a walk from a can see. */
  function Shown(vm: Vm, a: nat): Layout {
    (h: nat) => if Examined(vm, a, h) then HvaPage(vm, h) else None
  }

  /** A walk from a comes to h. */
  ghost predicate Track(vm: Vm, a: nat, h: nat) {
    a <= h && forall x: nat {:trigger Examined(vm, a, x)} {:trigger Examined(vm, h, x)} ::
                h <= x ==> Examined(vm, a, x) == Examined(vm, h, x)
  }

  lemma ShownUnder(vm: Vm, a: nat)
    ensures Under(Shown(vm, a), PagesOf(vm))
  {
  }

  lemma TrackTrans(vm: Vm, a: nat, b: nat, c: nat)
    requires Track(vm, a, b) && Track(vm, b, c)
    ensures Track(vm, a, c)
  {
    forall x: nat | c <= x ensures Examined(vm, a, x) == Examined(vm, c, x) {
      assert Examined(vm, a, x) == Examined(vm, b, x);
    }
  }

  lemma TrackInSlot(vm: Vm, i: nat, a: nat, h: nat)
    requires VmOk(vm) && i < |vm.slots| && vm.slots[i].HoldsHva(a) && vm.slots[i].HoldsHva(h) && a <= h
    ensures Track(vm, a, h)
  {
    SlotIndexUnique(vm, a, i);
    SlotIndexUnique(vm, h, i);
  }

  /** Out of a slot. */
  lemma TrackLeave(vm: Vm, i: nat, s: Slot, a: nat)
    requires VmOk(vm) && i < |vm.slots| && s == vm.slots[i] && s.HoldsHva(a)
    ensures Track(vm, a, s.Hva(Over(vm.root, s)))
  {
    SlotIndexUnique(vm, a, i);
  }

  /** Across addresses of no slot. */
  lemma {:induction false} TrackGap(vm: Vm, a: nat, h: nat)
    requires a <= h && forall x: nat :: a <= x < h ==> SlotIndex(vm.slots, x) == |vm.slots|
    ensures Track(vm, a, h)
    decreases h - a
  {
    if a < h {
      TrackGap(vm, a + 1, h);
      assert SlotIndex(vm.slots, a) == |vm.slots|;
    }
  }

  /** In the slot that holds h the walk sees every page, behind it none up to where it restarts. */
  ghost predicate InView(vm: Vm, s: Slot, a: nat, h: nat)
    requires s.size > 0
  {
    forall x: nat {:trigger Shown(vm, a)(x)} :: h <= x < s.Hva(Over(vm.root, s)) ==>
      Shown(vm, a)(x) == if x < s.hva + s.size then PagesOf(vm)(x) else None
  }

  lemma SlotInView(vm: Vm, i: nat, s: Slot, a: nat, h: nat)
    requires VmOk(vm) && i < |vm.slots| && s == vm.slots[i] && s.HoldsHva(h) && Track(vm, a, h)
    ensures InView(vm, s, a, h)
  {
    SlotIndexUnique(vm, h, i);
    forall x: nat | h <= x < s.Hva(Over(vm.root, s))
      ensures Shown(vm, a)(x) == if x < s.hva + s.size then PagesOf(vm)(x) else None
    {
      assert Examined(vm, a, x) == Examined(vm, h, x);
      ExaminedFromSlot(vm, i, s, h, x, s.Hva(Over(vm.root, s)));
    }
  }

  lemma ExaminedFromSlot(vm: Vm, i: nat, s: Slot, h: nat, x: nat, leaves: nat)
    requires i == SlotIndex(vm.slots, h) < |vm.slots| && s == vm.slots[i] && leaves == s.Hva(Over(vm.root, s))
    ensures Examined(vm, h, x) <==> h <= x && (x < s.hva + s.size || Examined(vm, leaves, x))
    ensures x < leaves ==> !Examined(vm, leaves, x)
  {
  }

  /** From h on, walks from a and from h see the same. */
  lemma SameShown(vm: Vm, a: nat, h: nat)
    requires Track(vm, a, h)
    ensures forall x: nat {:trigger Holds(Shown(vm, a), x)} :: h <= x ==> Shown(vm, h)(x) == Shown(vm, a)(x)
  {
    forall x: nat | h <= x ensures Shown(vm, h)(x) == Shown(vm, a)(x) {
      assert Examined(vm, a, x) == Examined(vm, h, x);
    }
  }
}
