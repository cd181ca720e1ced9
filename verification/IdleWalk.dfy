/** One walk of ProcIdlePages.cc on values: the reads over each mapping, the pages they count, and what
    each page is counted with. */
module IdleWalk {
  import opened Arith
  import opened IdleStream
  import opened EptEncoder
  import opened PageList
  import opened EptLayout
  import opened EptRounds
  import opened EptTypes
  import opened EptReads
  import opened IdleRefs

  const READ_BUF_SIZE := 0x10_0000

  /** The bytes asked for to read the whole pages of `rest` bytes, eight pages a byte: as few as cover
      them, within the least and the largest read. */
  predicate SizeFor(size: nat, rest: nat, least: nat) {
    && least <= size <= READ_BUF_SIZE
    && (size < READ_BUF_SIZE ==> size * 8 * PAGE_SIZE > rest - PAGE_SIZE)
    && (size > least ==> (size - 1) * 8 * PAGE_SIZE < rest)
  }

  // ----- The mappings -----

  datatype Mapping = Mapping(start: nat, end: nat, anonymous: bool)

  /** The mapping lies behind the range of interest [lo, hi): the walk stops. */
  predicate BehindRange(m: Mapping, lo: nat, hi: nat, nextVa: nat) {
    m.end > nextVa && m.end > lo && m.start >= hi
  }

  /** The mapping is walked: it is anonymous, in the range of interest and not yet walked to its end. */
  predicate Walks(m: Mapping, lo: nat, hi: nat, nextVa: nat) {
    m.end > nextVa && m.end > lo && m.start < hi && m.anonymous
  }

  /** Where its walk begins. */
  function From(m: Mapping, lo: nat, nextVa: nat): nat { Max(Max(m.start, nextVa), lo) }

  // ----- The reads over one mapping -----

  /** Where the parser has come to after the last read. */
  function ParsedTo(rs: seq<PastRead>, a: int, end: int): int {
    if rs == [] then a else Parse(rs[|rs| - 1].last.sent, rs[|rs| - 1].pos, end).va
  }

  predicate SizesOk(rs: seq<PastRead>, end: nat, least: nat) {
    forall k :: 0 <= k < |rs| ==> rs[k].pos < end && SizeFor(rs[k].count, end - rs[k].pos, least)
  }

  /** The walk of [a, end) stands at va: `rs` are the reads it has made, which have turned the accessed
      bits `before` into `after`. */
  predicate Underway(vm: Vm, rs: seq<PastRead>, a: nat, end: nat, va: nat, least: nat, before: set<nat>, after: set<nat>) {
    && Reads(vm, rs) && SizesOk(rs, end, least) && va == ParsedTo(rs, a, end) && va % PAGE_SIZE == 0
    && (va == EndOf(rs, a) || (va >= end && EndOf(rs, a) >= end))
    && if rs == [] then after == before
       else a < va && rs[0].pos == a && rs[0].accessed == before && after == rs[|rs| - 1].last.w.accessed
  }

  /** The walk of [a, end) is over. */
  predicate Done(vm: Vm, rs: seq<PastRead>, a: nat, end: nat, va: nat, least: nat, before: set<nat>, after: set<nat>) {
    Underway(vm, rs, a, end, va, least, before, after) && va >= end
  }

  lemma ReadsSnoc(vm: Vm, rs: seq<PastRead>, r: PastRead)
    requires Reads(vm, rs) && ReadOk(vm, r) && (rs != [] ==> Follows(rs[|rs| - 1], r))
    ensures Reads(vm, rs + [r])
  {
    var all := rs + [r];
    forall k | 0 <= k < |all| - 1 ensures Follows(all[k], all[k + 1]) {
      assert k < |rs| - 1 ==> Follows(rs[k], rs[k + 1]);
    }
  }

  lemma ListSnoc(rs: seq<PastRead>, r: PastRead, rs': seq<PastRead>)
    requires rs' == rs + [r]
    ensures ListOf(rs') == ListOf(rs) + r.Pages()
  {
    assert rs'[..|rs|] == rs;
  }

  lemma SizesSnoc(rs: seq<PastRead>, r: PastRead, end: nat, least: nat)
    requires SizesOk(rs, end, least) && r.pos < end && SizeFor(r.count, end - r.pos, least)
    ensures SizesOk(rs + [r], end, least)
  {
  }

  lemma ReadReports(vm: Vm, r: PastRead)
    requires HostVmOk(vm) && ReadOk(vm, r)
    ensures Report(Shown(vm, r.pos), r.last.sent, r.last.w.ctrl.nextHva, r.pos)
  {
    ReadBegins(vm, r);
    ReadSees(vm, r.count, r.W(), r.pos, r.RangeEnd(), r.scans, r.last);
  }

  /** The walker counts exactly the pages a read reports below `end`; it ends at the file position
      or, with the file position, behind `end`. */
  lemma ReportCounted(f: Layout, sent: seq<Token>, v: nat, a: nat, end: int) returns (seen: seq<Page>, p: Parsed)
    requires Report(f, sent, v, a) && a < end
    ensures seen == Seen(sent) && IsPageList(f, seen, a, v)
    ensures p == Parse(sent, a, end) && p.refs == Counted(seen, end) && Moved(a, p.va, v, end)
  {
    seen := Seen(sent);
    MeaningFresh(a, 0, sent);
    var m := Meaning(0, sent);
    p := ParseCounts(sent, a, end, m);
    CountedPresent(m.pages, end);
    StopMoved(m, p.va, v, a, end);
  }

  lemma ReadCounted(vm: Vm, r: PastRead, end: int) returns (p: Parsed)
    requires HostVmOk(vm) && ReadOk(vm, r) && r.pos < end
    ensures p == Parse(r.last.sent, r.pos, end) && p.refs == Counted(r.Pages(), end)
    ensures Moved(r.pos, p.va, r.last.w.ctrl.nextHva, end)
  {
    ReadReports(vm, r);
    var seen;
    seen, p := ReportCounted(Shown(vm, r.pos), r.last.sent, r.last.w.ctrl.nextHva, r.pos, end);
  }

  lemma StopMoved(m: Cursor, stop: int, v: int, a: int, end: int)
    requires Forward(m.pages, v) && m.va == v && StopsAt(stop, m, end) && a < end && a < v && v % PAGE_SIZE == 0
    ensures Moved(a, stop, v, end)
  {
    if stop != v {
      var i :| 0 <= i < |m.pages| && m.pages[i].va == stop;
    }
  }

  /** One more read. */
  lemma NextUnderway(vm: Vm, rs: seq<PastRead>, r: PastRead, a: nat, end: nat, va: nat, va': nat, least: nat,
                     before: set<nat>, after: set<nat>)
    returns (rs': seq<PastRead>)
    requires Underway(vm, rs, a, end, va, least, before, after) && va < end
    requires ReadOk(vm, r) && r.pos == va && r.accessed == after && SizeFor(r.count, end - va, least)
    requires va' == Parse(r.last.sent, va, end).va && Moved(va, va', r.last.w.ctrl.nextHva, end)
    ensures rs' == rs + [r] && Underway(vm, rs', a, end, va', least, before, r.last.w.accessed)
    ensures ListOf(rs') == ListOf(rs) + r.Pages()
  {
    rs' := rs + [r];
    ReadsSnoc(vm, rs, r);
    SizesSnoc(rs, r, end, least);
    ListSnoc(rs, r, rs');
  }

  /** A read at va was followed up to va', the file position being v. */
  predicate Moved(va: int, va': int, v: int, end: int) {
    va < va' && va' % PAGE_SIZE == 0 && va < v && (va' == v || (va' >= end && v >= end))
  }

  /** The walk of [a, end) has listed every page that a walk from a sees up to where its reads ended, and
      that is `end` or behind it. */
  lemma DoneLists(vm: Vm, rs: seq<PastRead>, a: nat, end: nat, va: nat, least: nat, before: set<nat>, after: set<nat>)
    returns (v: nat)
    requires HostVmOk(vm) && Done(vm, rs, a, end, va, least, before, after) && a < end
    ensures v == EndOf(rs, a) && v >= end && v % PAGE_SIZE == 0
    ensures IsPageList(Shown(vm, a), ListOf(rs), a, v) && Track(vm, a, v)
  {
    v := ReadsList(vm, rs, a);
  }

  // ----- What a page is counted with -----

  lemma {:induction false} InList(rs: seq<PastRead>, k: nat, p: Page)
    requires k < |rs| && p in rs[k].Pages()
    ensures p in ListOf(rs)
  {
    if k < |rs| - 1 {
      InList(rs[..|rs| - 1], k, p);
    }
  }

  /** The page lists of walks have no overlaps and no empty pages. */
  lemma ListShape(f: Layout, ps: seq<Page>, a: nat, v: nat)
    requires IsPageList(f, ps, a, v)
    ensures Ascending(ps) && Spans(ps)
  {
    forall k | 0 <= k < |ps| ensures ps[k].va < PageEnd(ps[k]) {
      assert Meets(f, ps[k], a, v);
    }
  }

  /** What a walk counts a page of guest address g with: 1 if its accessed bit was set when the walk began
      and no read up to the one that lists it refused it, 0 otherwise. */
  function Worth(rs: seq<PastRead>, k: nat, g: nat): nat
    requires k < |rs|
  {
    if g in rs[0].accessed && g !in RefusedOf(rs[..k + 1]) then 1 else 0
  }

  /** The calls for a page that read k of a walk lists. A page of 4 KB or 2 MB counts what its accessed
      bit says, in the sequence of its size, a page of 1 GB always 1; one that is not below `end` or not
      at a multiple of its size is not counted. */
  lemma WalkCallsExactly(vm: Vm, rs: seq<PastRead>, k: nat, p: Page, end: int)
    requires HostVmOk(vm) && GuestDisjoint(vm.slots) && Reads(vm, rs) && k < |rs| && p in rs[k].Pages()
    ensures p.va >= 0 && BaseOf(vm, p.va) >= 0 && vm.root(BaseOf(vm, p.va)).isPage
    ensures vm.root(BaseOf(vm, p.va)).level == 0 ==>
              OneCall(Counted(ListOf(rs), end), p.va, end, PTE_ACCESSED, 0x1000, Worth(rs, k, BaseOf(vm, p.va)))
    ensures vm.root(BaseOf(vm, p.va)).level == 1 ==>
              OneCall(Counted(ListOf(rs), end), p.va, end, PMD_ACCESSED, 0x20_0000, Worth(rs, k, BaseOf(vm, p.va)))
    ensures vm.root(BaseOf(vm, p.va)).level >= 2 ==>
              OneCall(Counted(ListOf(rs), end), p.va, end, PUD_PRESENT, 0x4000_0000, 1)
  {
    ReadsTypes(vm, rs, k, p);
    InList(rs, k, p);
    var v := ReadsList(vm, rs, rs[0].pos);
    ListShape(Shown(vm, rs[0].pos), ListOf(rs), rs[0].pos, v);
    var i :| 0 <= i < |ListOf(rs)| && ListOf(rs)[i] == p;
    CountedOnceExactly(ListOf(rs), i, end);
  }

  // ----- Pages passed over at the end of a mapping -----

  lemma {:induction false} PresentIn(ps: seq<Page>, q: Page)
    requires q in Present(ps)
    ensures q in ps && !IsHole(q.t)
  {
    if ps != [] && q in Present(ps[..|ps| - 1]) {
      PresentIn(ps[..|ps| - 1], q);
    }
  }

  /** A reader that starts where the read did sees the items go forward, the pages among them. */
  lemma ReadMeaning(vm: Vm, r: PastRead) returns (m: Cursor)
    requires HostVmOk(vm) && ReadOk(vm, r)
    ensures m == Meaning(r.pos, r.last.sent) && ValidTokens(r.last.sent) && Forward(m.pages, m.va) && Spans(m.pages)
    ensures forall p :: p in r.Pages() ==> p in m.pages && !IsHole(p.t)
  {
    ReadReports(vm, r);
    m := Meaning(r.pos, r.last.sent);
    MeaningFresh(r.pos, 0, r.last.sent);
    forall p | p in r.Pages() ensures p in m.pages && !IsHole(p.t) {
      PresentIn(Items(r.last.sent), p);
    }
  }

  /** The parser stops behind every page below the mapping's end. A listed page behind the end is passed
      over, so that the walk of the next mapping begins behind it, if and only if it is in a run that
      begins before the end. */
  lemma ReadPassesExactly(vm: Vm, r: PastRead, end: int, q: Page)
    requires HostVmOk(vm) && ReadOk(vm, r) && q in r.Pages() && q.va >= end
    ensures q.va < Parse(r.last.sent, r.pos, end).va <==> Crosses(r.last.sent, r.pos, end, q)
  {
    var m := ReadMeaning(vm, r);
    PassedOverExactly(r.last.sent, r.pos, end, m, q);
  }
}
