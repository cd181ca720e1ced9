/** Reads of /proc/idle_pages one after the other, each from the file position the one before left. */
module EptReads {
  import opened IdleStream
  import opened EptEncoder
  import opened PageList
  import opened EptWalk
  import opened EptLayout
  import opened EptRounds
  import opened EptBytes
  import opened EptRead
  import opened EptTypes
  import opened EptBits

  /** A read at pos of count bytes, with the accessed bits it found and the states it went through. */
  datatype PastRead = PastRead(pos: nat, count: nat, accessed: set<nat>, overrun: bool, scans: seq<Scan>, last: Scan) {
    function W(): Walk { SetUp(accessed, overrun) }
    function RangeEnd(): nat { (pos + count * 8 * PAGE_SIZE) % U64_RANGE }
    function Pages(): seq<Page> { Seen(last.sent) }
  }

  predicate ReadOk(vm: Vm, r: PastRead) {
    && BUF_MIN < r.count && r.pos % PAGE_SIZE == 0 && r.pos < r.RangeEnd()
    && r.scans != [] && r.last == r.scans[|r.scans| - 1] && ReadAt(vm, r.accessed, r.overrun, r.pos, r.count, r.scans)
  }

  lemma PastReadOk(vm: Vm, pos: nat, count: nat, accessed: set<nat>, overrun: bool, scans: seq<Scan>) returns (r: PastRead)
    requires BUF_MIN < count && pos % PAGE_SIZE == 0 && pos < (pos + count * 8 * PAGE_SIZE) % U64_RANGE
    requires scans != [] && ReadAt(vm, accessed, overrun, pos, count, scans)
    ensures r == PastRead(pos, count, accessed, overrun, scans, scans[|scans| - 1]) && ReadOk(vm, r)
  {
    r := PastRead(pos, count, accessed, overrun, scans, scans[|scans| - 1]);
  }

  predicate Follows(r: PastRead, s: PastRead) {
    s.pos == r.last.w.ctrl.nextHva && s.accessed == r.last.w.accessed
  }

  /** Each read begins where the one before ended. */
  predicate Reads(vm: Vm, rs: seq<PastRead>) {
    && (forall k :: 0 <= k < |rs| ==> ReadOk(vm, rs[k]))
    && (forall k :: 0 <= k < |rs| - 1 ==> Follows(rs[k], rs[k + 1]))
  }

  /** Where reads from a on have come to. */
  function EndOf(rs: seq<PastRead>, a: int): int {
    if rs == [] then a else rs[|rs| - 1].last.w.ctrl.nextHva
  }

  function ListOf(rs: seq<PastRead>): seq<Page> {
    if rs == [] then [] else ListOf(rs[..|rs| - 1]) + rs[|rs| - 1].Pages()
  }

  /** The guest addresses of the pages refused by some round of the reads. */
  function RefusedOf(rs: seq<PastRead>): set<nat> {
    if rs == [] then {} else RefusedOf(rs[..|rs| - 1]) + rs[|rs| - 1].last.refused
  }

  lemma ReadBegins(vm: Vm, r: PastRead)
    requires ReadOk(vm, r)
    ensures Begins(r.count, r.W(), r.pos, r.RangeEnd())
    ensures IsRead(vm, r.count, r.RangeEnd(), First(r.count, r.W(), r.pos), r.scans)
  {
    LimitFailsExactly(r.count, []);
    EndAligned(r.pos, r.count);
  }

  lemma ReadSees(vm: Vm, count: int, w: Walk, a: nat, end: nat, scans: seq<Scan>, last: Scan)
    requires HostVmOk(vm) && Begins(count, w, a, end) && IsRead(vm, count, end, First(count, w, a), scans)
    requires last == scans[|scans| - 1]
    ensures Behind(vm, a, last)
  {
    ReadEnds(vm, count, w, a, end, scans);
  }

  lemma OneRead(vm: Vm, r: PastRead) returns (v: nat)
    requires HostVmOk(vm) && ReadOk(vm, r)
    ensures v == r.last.w.ctrl.nextHva && r.pos < v && v % PAGE_SIZE == 0
    ensures IsPageList(Shown(vm, r.pos), r.Pages(), r.pos, v) && Track(vm, r.pos, v)
  {
    ReadBegins(vm, r);
    ReadSees(vm, r.count, r.W(), r.pos, r.RangeEnd(), r.scans, r.last);
    v := r.last.w.ctrl.nextHva;
  }

  lemma ReadsPrefix(vm: Vm, rs: seq<PastRead>, n: nat)
    requires Reads(vm, rs) && n <= |rs|
    ensures Reads(vm, rs[..n])
  {
  }

  /** Pages two walks in a row see are the pages of one walk. */
  lemma JoinLater(vm: Vm, ps: seq<Page>, seen: seq<Page>, a: nat, w: nat, v: nat)
    requires VmOk(vm) && Track(vm, a, w) && a < w < v
    requires IsPageList(Shown(vm, a), ps, a, w) && IsPageList(Shown(vm, w), seen, w, v)
    ensures IsPageList(Shown(vm, a), ps + seen, a, v)
  {
    SameShown(vm, a, w);
    SameList(Shown(vm, w), Shown(vm, a), seen, w, v);
    PagesConsistent(vm);
    ShownUnder(vm, a);
    JoinLists(Shown(vm, a), PagesOf(vm), ps, seen, a, w, v);
  }

  /** The lists of the reads join to the list of one walk from a to where the last read has come. */
  lemma {:induction false} ReadsList(vm: Vm, rs: seq<PastRead>, a: nat) returns (v: nat)
    requires HostVmOk(vm) && Reads(vm, rs) && rs != [] && rs[0].pos == a
    ensures v == EndOf(rs, a) && a < v && v % PAGE_SIZE == 0
    ensures IsPageList(Shown(vm, a), ListOf(rs), a, v) && Track(vm, a, v)
  {
    var front, r := rs[..|rs| - 1], rs[|rs| - 1];
    assert ReadOk(vm, r);
    v := OneRead(vm, r);
    if front == [] {
      assert ListOf(rs) == r.Pages();
    } else {
      ReadsPrefix(vm, rs, |front|);
      var w := ReadsList(vm, front, a);
      assert Follows(rs[|front| - 1], rs[|front|]);
      JoinLater(vm, ListOf(front), r.Pages(), a, w, v);
      TrackTrans(vm, a, w, v);
    }
  }

  // ----- Accessed bits -----

  lemma OneReadClears(vm: Vm, r: PastRead)
    requires HostVmOk(vm) && ReadOk(vm, r)
    ensures Cleared(vm, r.last, r.accessed)
  {
    ReadBegins(vm, r);
    ScansClear(vm, r.count, r.W(), r.pos, r.RangeEnd(), r.scans, |r.scans| - 1);
  }

  /** Each read finds the accessed bits that the one before left, wherever it begins. */
  predicate BitsChain(vm: Vm, rs: seq<PastRead>) {
    && (forall k :: 0 <= k < |rs| ==> ReadOk(vm, rs[k]))
    && (forall k :: 0 <= k < |rs| - 1 ==> rs[k + 1].accessed == rs[k].last.w.accessed)
  }

  lemma ReadsChain(vm: Vm, rs: seq<PastRead>)
    requires Reads(vm, rs)
    ensures BitsChain(vm, rs)
  {
    forall k | 0 <= k < |rs| - 1 ensures rs[k + 1].accessed == rs[k].last.w.accessed {
      assert Follows(rs[k], rs[k + 1]);
    }
  }

  /** The bits the read n finds are those at the start, less those of pages listed or refused. */
  lemma {:induction false} ReadsClear(vm: Vm, rs: seq<PastRead>, n: nat)
    requires HostVmOk(vm) && BitsChain(vm, rs) && n < |rs|
    ensures rs[n].accessed == rs[0].accessed - BitsOf(vm, ListOf(rs[..n])) - RefusedOf(rs[..n])
  {
    if n == 0 {
      assert rs[..0] == [];
    } else {
      var front, r := rs[..n - 1], rs[n - 1];
      assert ReadOk(vm, r) && rs[n].accessed == r.last.w.accessed && rs[..n][..n - 1] == front;
      ReadsClear(vm, rs, n - 1);
      OneReadClears(vm, r);
      BitsAppend(vm, ListOf(front), r.Pages());
    }
  }

  lemma OneReadTypes(vm: Vm, r: PastRead, p: Page)
    requires HostVmOk(vm) && GuestDisjoint(vm.slots) && ReadOk(vm, r) && p in r.Pages()
    ensures p.va >= 0 && BaseOf(vm, p.va) >= 0 && vm.root(BaseOf(vm, p.va)).isPage
    ensures p.t == EntryType(vm.root(BaseOf(vm, p.va)), BaseOf(vm, p.va) in r.accessed - r.last.refused)
  {
    ReadBegins(vm, r);
    AccessedExactly(vm, r.count, r.W(), r.pos, r.RangeEnd(), r.scans, p);
  }

  /** A page that read k lists has the accessed type of its size if and only if its bit was set at the
      start, no read up to k refused it and none before k listed it. */
  lemma ChainTypes(vm: Vm, rs: seq<PastRead>, k: nat, p: Page)
    requires HostVmOk(vm) && GuestDisjoint(vm.slots) && BitsChain(vm, rs) && k < |rs| && p in rs[k].Pages()
    ensures p.va >= 0 && BaseOf(vm, p.va) >= 0 && vm.root(BaseOf(vm, p.va)).isPage
    ensures p.t == EntryType(vm.root(BaseOf(vm, p.va)),
                             && BaseOf(vm, p.va) in rs[0].accessed && BaseOf(vm, p.va) !in RefusedOf(rs[..k + 1])
                             && BaseOf(vm, p.va) !in BitsOf(vm, ListOf(rs[..k])))
  {
    assert rs[..k + 1][..k] == rs[..k];
    OneReadTypes(vm, rs[k], p);
    ReadsClear(vm, rs, k);
  }

  /** With the slots apart in the guest, the guest address of a page tells the page. */
  lemma BaseTells(vm: Vm, x: nat, y: nat)
    requires VmOk(vm) && GuestDisjoint(vm.slots) && HvaPage(vm, x).Some? && HvaPage(vm, y).Some?
    requires BaseOf(vm, x) == BaseOf(vm, y)
    ensures HvaPage(vm, x) == HvaPage(vm, y)
  {
    var i := SlotIndex(vm.slots, x);
    var s := vm.slots[i];
    var g := x - s.hva + s.gpa;
    BaseAt(vm, i, s, g, x);
    SameBase(vm, i, s, g, y);
    assert BlocksInside(vm.root, s);
    SlotIndexUnique(vm, y, i);
    BlockPageAt(vm, i, s, g, y - s.hva + s.gpa, y);
  }

  /** p is a page of the layout that ends by v. */
  predicate PageBy(f: Layout, p: Page, v: int) {
    0 <= p.va < PageEnd(p) <= v && f(p.va) == Some(ExtentOf(p))
  }

  /** A listed page is the one its address belongs to. */
  lemma ListedIs(m: Layout, f: Layout, ps: seq<Page>, a: nat, v: nat, p: Page)
    requires Consistent(f) && Under(m, f) && IsPageList(m, ps, a, v) && p in ps
    ensures PageBy(f, p, v) && a < PageEnd(p)
  {
    var i :| 0 <= i < |ps| && p == ps[i];
    assert Meets(m, ps[i], a, v);
    assert Holds(m, PageEnd(p) - 1) && Holds(f, PageEnd(p) - 1);
  }

  lemma ListedPages(vm: Vm, a: nat, ps: seq<Page>, w: nat, v: nat)
    requires VmOk(vm) && IsPageList(Shown(vm, a), ps, w, v)
    ensures forall p :: p in ps ==> PageBy(PagesOf(vm), p, v) && w < PageEnd(p)
  {
    PagesConsistent(vm);
    ShownUnder(vm, a);
    forall p | p in ps ensures PageBy(PagesOf(vm), p, v) && w < PageEnd(p) {
      ListedIs(Shown(vm, a), PagesOf(vm), ps, w, v, p);
    }
  }

  lemma BitDiffers(vm: Vm, p: Page, q: Page, w: int)
    requires VmOk(vm) && GuestDisjoint(vm.slots) && PageBy(PagesOf(vm), q, w) && w < PageEnd(p) && p.va >= 0
    requires PagesOf(vm)(p.va) == Some(ExtentOf(p))
    ensures BaseOf(vm, p.va) != BaseOf(vm, q.va)
  {
    if BaseOf(vm, p.va) == BaseOf(vm, q.va) {
      BaseTells(vm, p.va, q.va);
    }
  }

  /** The bit of a page is not among those of pages before it. */
  lemma {:induction false} BitFresh(vm: Vm, ps: seq<Page>, w: int, p: Page)
    requires VmOk(vm) && GuestDisjoint(vm.slots) && forall q :: q in ps ==> PageBy(PagesOf(vm), q, w)
    requires p.va >= 0 && w < PageEnd(p) && PagesOf(vm)(p.va) == Some(ExtentOf(p)) && BaseOf(vm, p.va) >= 0
    ensures BaseOf(vm, p.va) !in BitsOf(vm, ps)
  {
    if ps != [] {
      BitFresh(vm, ps[..|ps| - 1], w, p);
      BitDiffers(vm, p, ps[|ps| - 1], w);
    }
  }

  /** Of the pages that reads in a row list, one has the accessed type of its size if and only if its
      bit was set when the first read began and no round up to the end of the read that lists it
      refused it. */
  lemma ReadsTypes(vm: Vm, rs: seq<PastRead>, k: nat, p: Page)
    requires HostVmOk(vm) && GuestDisjoint(vm.slots) && Reads(vm, rs) && k < |rs| && p in rs[k].Pages()
    ensures p.va >= 0 && BaseOf(vm, p.va) >= 0 && vm.root(BaseOf(vm, p.va)).isPage
    ensures p.t == EntryType(vm.root(BaseOf(vm, p.va)),
                             BaseOf(vm, p.va) in rs[0].accessed && BaseOf(vm, p.va) !in RefusedOf(rs[..k + 1]))
  {
    ReadsChain(vm, rs);
    ChainTypes(vm, rs, k, p);
    if k == 0 {
      assert rs[..0] == [];
    } else {
      FreshInRead(vm, rs, k, p);
    }
  }

  lemma FreshInRead(vm: Vm, rs: seq<PastRead>, k: nat, p: Page)
    requires HostVmOk(vm) && GuestDisjoint(vm.slots) && Reads(vm, rs) && 0 < k < |rs| && p in rs[k].Pages()
    requires p.va >= 0 && BaseOf(vm, p.va) >= 0
    ensures BaseOf(vm, p.va) !in BitsOf(vm, ListOf(rs[..k]))
  {
    assert ReadOk(vm, rs[k]) && Follows(rs[k - 1], rs[k]) && rs[..k][k - 1] == rs[k - 1];
    ReadsPrefix(vm, rs, k);
    var w := ReadsList(vm, rs[..k], rs[0].pos);
    var v := OneRead(vm, rs[k]);
    ListedPages(vm, w, rs[k].Pages(), w, v);
    ListedPages(vm, rs[0].pos, ListOf(rs[..k]), rs[0].pos, w);
    BitFresh(vm, ListOf(rs[..k]), w, p);
  }
}
