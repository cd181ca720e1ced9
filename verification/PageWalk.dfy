/** The page-table walk of kernel_module/ept_idle_native_pagewalk.c over a process's memory areas,
    with the callbacks the native scan installs: `pmd_entry`, `pud_entry` for huge pud entries and
    `test_walk`; `pte_hole`, `pte_entry` and `hugetlb_entry` are not set. */
module PageWalk {
  import opened Arith
  import opened IdleStream
  import PT = PageTable

  const EINVAL := 22

  /** A memory area. `file` is vm_file != NULL; the flags are VM_WRITE, VM_MAYSHARE and VM_HUGETLB. */
  datatype Vma = Vma(start: nat, end: nat, file: bool, write: bool, mayShare: bool, hugetlb: bool)

  /** One call of a callback: of `pmd_entry` at level 1, of `pud_entry` at level 2. */
  datatype Piece = Piece(start: nat, end: nat, level: nat, vma: Vma)

  type Answer = Piece -> int

  /** mm_idle_test_walk: 1 skips the area. */
  function TestWalk(v: Vma): int {
    if v.file then (if v.write && !v.mayShare then 0 else 1) else 0
  }

  predicate Accepted(v: Vma) {
    TestWalk(v) == 0 && !v.hugetlb
  }

  /** The areas of an address space: ascending, disjoint, not empty, below the table's reach. */
  predicate VmasValid(vmas: seq<Vma>) {
    && (forall i :: 0 <= i < |vmas| ==> vmas[i].start < vmas[i].end <= PT.BlockSize(5))
    && (forall i, j :: 0 <= i < j < |vmas| ==> vmas[i].end <= vmas[j].start)
  }

  // ----- What decides an address -----

  /** The entry at level 1 or above that decides an address: one the walk hands to a callback, or
      an empty one. A non-empty entry at level 1 decides whatever it points to. */
  function Upper(level: nat, kids: seq<PT.Node>, addr: nat): (b: PT.Block)
    requires level >= 1 && PT.WellFormed(level, kids)
    ensures 1 <= b.level <= level
    decreases level
  {
    match kids[PT.Index(level, addr)]
    case Hole => PT.Block(level, false)
    case Page => PT.Block(level, true)
    case Table(sub) => if level == 1 then PT.Block(1, true) else Upper(level - 1, sub, addr)
  }

  function UpperView(level: nat, kids: seq<PT.Node>): PT.View
    requires level >= 1 && PT.WellFormed(level, kids)
  {
    (addr: nat) => Upper(level, kids, addr)
  }

  /** A callback is due exactly where the tables down to the pmd are not empty, and it is
      `pud_entry` exactly on a huge pud. */
  lemma {:induction false} UpperIsLookup(level: nat, kids: seq<PT.Node>, addr: nat)
    requires level >= 1 && PT.WellFormed(level, kids)
    ensures var b, l := Upper(level, kids, addr), PT.Lookup(level, kids, addr);
            b.isPage == (l.isPage || l.level == 0) && b.level == Max(l.level, 1)
    decreases level
  {
    match kids[PT.Index(level, addr)]
    case Hole =>
    case Page =>
    case Table(sub) =>
      if level > 1 {
        UpperIsLookup(level - 1, sub, addr);
      }
  }

  lemma {:induction false} UpperConstant(level: nat, kids: seq<PT.Node>, x: nat, y: nat)
    requires level >= 1 && PT.WellFormed(level, kids)
    requires var l := Upper(level, kids, x).level; PT.BlockStart(l, x) <= y < PT.BlockEnd(l, x)
    ensures Upper(level, kids, y) == Upper(level, kids, x)
    decreases level
  {
    var l := Upper(level, kids, x).level;
    PT.SameBlock(l, x, y);
    PT.SameBlockAbove(l, level, x, y);
    match kids[PT.Index(level, x)]
    case Hole =>
    case Page =>
    case Table(sub) =>
      if level > 1 {
        UpperConstant(level - 1, sub, x, y);
      }
  }

  lemma UpperIsTiled(level: nat, kids: seq<PT.Node>)
    requires level >= 1 && PT.WellFormed(level, kids)
    ensures PT.Tiled(UpperView(level, kids))
  {
    var v := UpperView(level, kids);
    forall x: nat, y: nat | PT.BlockStart(v(x).level, x) <= y < PT.BlockEnd(v(x).level, x) ensures v(y) == v(x) {
      UpperConstant(level, kids, x, y);
    }
  }

  // ----- The pieces of a range -----

  function Here(v: PT.View, vma: Vma, addr: nat, next: nat): seq<Piece> {
    if v(addr).isPage then [Piece(addr, next, v(addr).level, vma)] else []
  }

  /** The callbacks due in [addr, end) of one area. */
  function Pieces(v: PT.View, vma: Vma, addr: nat, end: nat): seq<Piece>
    decreases end - addr
  {
    if addr >= end then []
    else var next := PT.AddrEnd(v(addr).level, addr, end); Here(v, vma, addr, next) + Pieces(v, vma, next, end)
  }

  /** The callbacks due in [start, end) of a whole address space. */
  function SpacePieces(v: PT.View, vmas: seq<Vma>, start: nat, end: nat): seq<Piece> {
    if vmas == [] then []
    else AreaPieces(v, vmas[0], start, end) + SpacePieces(v, vmas[1..], start, end)
  }

  function AreaPieces(v: PT.View, a: Vma, start: nat, end: nat): seq<Piece> {
    if Accepted(a) then Pieces(v, a, Max(start, a.start), Min(end, a.end)) else []
  }

  /** Cutting a range at a boundary of the blocks below a level changes nothing. */
  lemma {:induction false} PiecesSplit(v: PT.View, vma: Vma, level: nat, addr: nat, mid: nat, end: nat)
    requires forall x: nat :: v(x).level <= level
    requires addr <= mid <= end && (mid == end || mid % PT.BlockSize(level) == 0)
    ensures Pieces(v, vma, addr, end) == Pieces(v, vma, addr, mid) + Pieces(v, vma, mid, end)
    decreases mid - addr
  {
    if addr < mid {
      if mid < end {
        PT.BlockStopsAt(v(addr).level, level, addr, mid);
      }
      var next := PT.AddrEnd(v(addr).level, addr, mid);
      assert next == PT.AddrEnd(v(addr).level, addr, end);
      PiecesSplit(v, vma, level, next, mid, end);
    } else {
      assert Pieces(v, vma, addr, mid) == [];
    }
  }

  lemma {:induction false} PiecesSame(v: PT.View, u: PT.View, vma: Vma, addr: nat, end: nat)
    requires forall x: nat :: addr <= x < end ==> v(x) == u(x)
    ensures Pieces(v, vma, addr, end) == Pieces(u, vma, addr, end)
    decreases end - addr
  {
    if addr < end {
      PiecesSame(v, u, vma, PT.AddrEnd(v(addr).level, addr, end), end);
    }
  }

  lemma PiecesSub(level: nat, kids: seq<PT.Node>, sub: seq<PT.Node>, vma: Vma, addr: nat, end: nat)
    requires level > 1 && PT.WellFormed(level, kids) && PT.WellFormed(level - 1, sub)
    requires kids[PT.Index(level, addr)] == PT.Table(sub) && end <= PT.BlockEnd(level, addr)
    ensures Pieces(UpperView(level, kids), vma, addr, end) == Pieces(UpperView(level - 1, sub), vma, addr, end)
  {
    var v, u := UpperView(level, kids), UpperView(level - 1, sub);
    forall x: nat | addr <= x < end ensures v(x) == u(x) {
      PT.SameBlock(level, addr, x);
    }
    PiecesSame(v, u, vma, addr, end);
  }

  lemma PiecesEntry(v: PT.View, vma: Vma, addr: nat, end: nat)
    requires addr < end <= PT.BlockEnd(v(addr).level, addr)
    ensures Pieces(v, vma, addr, end) == Here(v, vma, addr, end)
  {
    assert PT.AddrEnd(v(addr).level, addr, end) == end;
    assert Pieces(v, vma, end, end) == [];
  }

  // ----- Callbacks that stop the walk -----

  /** The callbacks called and the error of the last, 0 when none failed. */
  datatype Outcome = Outcome(calls: seq<Piece>, err: int)

  /** The callbacks due are called in order until one does not answer 0. */
  function Then(o: Outcome, due: seq<Piece>, answer: Answer): Outcome
    decreases |due|
  {
    if o.err != 0 || due == [] then o
    else Then(Outcome(o.calls + [due[0]], answer(due[0])), due[1..], answer)
  }

  lemma {:induction false} ThenJoin(o: Outcome, a: seq<Piece>, b: seq<Piece>, answer: Answer)
    ensures Then(o, a + b, answer) == Then(Then(o, a, answer), b, answer)
    decreases |a|
  {
    if a == [] {
      assert a + b == b;
    } else if o.err == 0 {
      assert (a + b)[1..] == a[1..] + b;
      ThenJoin(Outcome(o.calls + [a[0]], answer(a[0])), a[1..], b, answer);
    }
  }

  // ----- The walkers -----

  class MmWalk {
    const mm: Option<AddressSpace>
    const answer: Answer
    var vma: Option<Vma>
    var calls: seq<Piece>

    constructor (mm: Option<AddressSpace>, answer: Answer)
      ensures this.mm == mm && this.answer == answer && calls == []
    {
      this.mm := mm;
      this.answer := answer;
      vma := None;
      calls := [];
    }

    ghost function So(err: int): Outcome
      reads this`calls
    {
      Outcome(calls, err)
    }

    /** `pmd_entry` at level 1, `pud_entry` at level 2. */
    method Callback(level: nat, addr: nat, next: nat) returns (err: int)
      requires vma.Some?
      modifies this`calls
      ensures calls == old(calls) + [Piece(addr, next, level, vma.value)]
      ensures err == answer(Piece(addr, next, level, vma.value))
    {
      var p := Piece(addr, next, level, vma.value);
      calls := calls + [p];
      err := answer(p);
    }

    /** walk_pgd_range, walk_p4d_range, walk_pud_range and walk_pmd_range: levels 4 to 1. */
    method WalkRange(level: nat, kids: seq<PT.Node>, start: nat, end: nat) returns (err: int)
      requires vma.Some? && 1 <= level && PT.WellFormed(level, kids)
      requires start < end <= PT.BlockEnd(level + 1, start)
      modifies this`calls
      ensures So(err) == Then(old(So(0)), Pieces(UpperView(level, kids), vma.value, start, end), answer)
      decreases level, 1
    {
      ghost var v, o := UpperView(level, kids), So(0);
      var addr, i := start, PT.Index(level, start);
      err := 0;
      while true
        invariant err == 0 && start <= addr < end && i == PT.Index(level, addr)
        invariant PT.BlockEnd(level + 1, addr) == PT.BlockEnd(level + 1, start)
        invariant Then(o, Pieces(v, vma.value, start, end), answer) == Then(So(0), Pieces(v, vma.value, addr, end), answer)
        decreases end - addr
      {
        ghost var o1 := So(0);
        var next := PT.AddrEnd(level, addr, end);
        err := WalkEntry(level, kids, i, addr, next);
        RangeStep(v, vma.value, level, o1, So(err), addr, next, end, answer);
        if err != 0 || next == end {
          return;
        }
        PT.NextIndex(level, addr, next, end);
        addr, i := next, i + 1;
      }
    }

    /** The body of the walkers' loops for the entry kids[i] that holds addr. */
    method WalkEntry(level: nat, kids: seq<PT.Node>, i: nat, addr: nat, next: nat) returns (err: int)
      requires vma.Some? && 1 <= level && PT.WellFormed(level, kids)
      requires i == PT.Index(level, addr) && addr < next <= PT.BlockEnd(level, addr)
      modifies this`calls
      ensures So(err) == Then(old(So(0)), Pieces(UpperView(level, kids), vma.value, addr, next), answer)
      decreases level, 0
    {
      ghost var v := UpperView(level, kids);
      if kids[i].Hole? {
        PiecesEntry(v, vma.value, addr, next);
        return 0;
      }
      if level == 1 || kids[i].Page? {
        PiecesEntry(v, vma.value, addr, next);
        err := Callback(level, addr, next);
      } else {
        PiecesSub(level, kids, kids[i].kids, vma.value, addr, next);
        err := WalkRange(level - 1, kids[i].kids, addr, next);
      }
    }

    /** __walk_page_range. */
    method WalkArea(pgd: seq<PT.Node>, start: nat, end: nat) returns (err: int)
      requires vma.Some? && PT.WellFormed(4, pgd) && start < end <= PT.BlockSize(5)
      modifies this`calls
      ensures So(err) == (if vma.value.hugetlb then old(So(0))
                          else Then(old(So(0)), Pieces(UpperView(4, pgd), vma.value, start, end), answer))
    {
      err := 0;
      if !vma.value.hugetlb {
        WholeTable(start);
        err := WalkRange(4, pgd, start, end);
      }
    }

    /** One round of the loop over the areas: the gap before area k, what is behind the last area,
        or the area itself. */
    method WalkNext(space: AddressSpace, k: nat, cur: nat, end: nat) returns (next: nat, k': nat, err: int)
      requires SpaceValid(space) && k <= |space.vmas| && cur < end
      requires k < |space.vmas| ==> cur < space.vmas[k].end
      modifies this`calls, this`vma
      ensures Advanced(UpperView(4, space.pgd), space.vmas, k, k', old(So(0)), So(err), cur, next, end, answer)
    {
      var vmas := space.vmas;
      k', err := k, 0;
      if k == |vmas| {
        vma := None;
        next := end;
      } else if cur < vmas[k].start {
        vma := None;
        next := Min(end, vmas[k].start);
      } else {
        vma := Some(vmas[k]);
        next := Min(end, vmas[k].end);
        k' := k + 1;
        if TestWalk(vmas[k]) == 0 {
          err := WalkArea(space.pgd, cur, next);
        }
      }
    }

    /** ept_idle_walk_page_range. */
    method WalkPageRange(start: nat, end: nat) returns (err: int)
      requires mm.Some? ==> SpaceValid(mm.value)
      modifies this`calls, this`vma
      ensures start >= end || mm.None? ==> err == -EINVAL && calls == old(calls)
      ensures start < end && mm.Some? ==>
                So(err) == Then(old(So(0)), Due(mm.value, start, end), answer)
    {
      if start >= end || mm.None? {
        return -EINVAL;
      }
      ghost var o, v := So(0), UpperView(4, mm.value.pgd);
      var cur: nat, k: nat := start, FindVma(mm.value.vmas, start);
      SkipVmas(v, mm.value.vmas, k, start, end);
      err := 0;
      while true
        invariant err == 0 && cur < end && k <= |mm.value.vmas|
        invariant k < |mm.value.vmas| ==> cur < mm.value.vmas[k].end
        invariant Then(o, Due(mm.value, start, end), answer)
                  == Then(So(0), SpacePieces(v, mm.value.vmas[k..], cur, end), answer)
        decreases end - cur
      {
        ghost var o1 := So(0);
        var next, k';
        next, k', err := WalkNext(mm.value, k, cur, end);
        SpaceStep(v, mm.value.vmas, k, k', o1, So(err), cur, next, end, answer);
        if err != 0 || next >= end {
          return;
        }
        cur, k := next, k';
      }
    }
  }

  /** From area k at `cur` the walk has gone on to area k' at `next`. */
  predicate Advanced(v: PT.View, vmas: seq<Vma>, k: nat, k': nat, o: Outcome, r: Outcome,
                     cur: nat, next: nat, end: nat, answer: Answer)
    requires k <= |vmas|
  {
    if k < |vmas| && vmas[k].start <= cur then
      && k' == k + 1 && next == Min(end, vmas[k].end)
      && r == Then(o, AreaPieces(v, vmas[k], cur, end), answer)
    else
      k' == k && r == o && next == (if k < |vmas| then Min(end, vmas[k].start) else end)
  }

  lemma WholeTable(addr: nat)
    requires addr < PT.BlockSize(5)
    ensures PT.BlockEnd(5, addr) == PT.BlockSize(5)
  {
    DivModUnique(addr, PT.BlockSize(5), 0, addr);
  }

  /** The areas of a process and the top of its page table. */
  datatype AddressSpace = AddressSpace(vmas: seq<Vma>, pgd: seq<PT.Node>)

  predicate SpaceValid(mm: AddressSpace) {
    VmasValid(mm.vmas) && PT.WellFormed(4, mm.pgd)
  }

  /** The callbacks due in a range. */
  function Due(mm: AddressSpace, start: nat, end: nat): seq<Piece>
    requires SpaceValid(mm)
  {
    SpacePieces(UpperView(4, mm.pgd), mm.vmas, start, end)
  }

  /** find_vma: the first area that ends above addr. */
  function FindVma(vmas: seq<Vma>, addr: nat): (k: nat)
    ensures k <= |vmas| && (forall i :: 0 <= i < k ==> vmas[i].end <= addr)
    ensures k < |vmas| ==> addr < vmas[k].end
  {
    if vmas == [] then 0 else if addr < vmas[0].end then 0 else 1 + FindVma(vmas[1..], addr)
  }

  lemma {:induction false} SkipVmas(v: PT.View, vmas: seq<Vma>, k: nat, start: nat, end: nat)
    requires k <= |vmas| && forall i :: 0 <= i < k ==> vmas[i].end <= start
    ensures SpacePieces(v, vmas, start, end) == SpacePieces(v, vmas[k..], start, end)
  {
    if k > 0 {
      SkipVmas(v, vmas[1..], k - 1, start, end);
      assert vmas[1..][k - 1..] == vmas[k..];
      assert AreaPieces(v, vmas[0], start, end) == [];
    } else {
      assert vmas[0..] == vmas;
    }
  }

  /** Where no area begins before `next` the walk may as well start there. */
  lemma {:induction false} SpaceFrom(v: PT.View, vmas: seq<Vma>, start: nat, next: nat, end: nat)
    requires start <= next && forall i :: 0 <= i < |vmas| ==> next <= vmas[i].start
    ensures SpacePieces(v, vmas, start, end) == SpacePieces(v, vmas, next, end)
  {
    if vmas != [] {
      SpaceFrom(v, vmas[1..], start, next, end);
    }
  }

  lemma {:induction false} SpaceEmpty(v: PT.View, vmas: seq<Vma>, end: nat)
    ensures SpacePieces(v, vmas, end, end) == []
  {
    if vmas != [] {
      SpaceEmpty(v, vmas[1..], end);
    }
  }

  /** One round of the loop over the areas. */
  lemma SpaceStep(v: PT.View, vmas: seq<Vma>, k: nat, k': nat, o: Outcome, r: Outcome,
                  cur: nat, next: nat, end: nat, answer: Answer)
    requires VmasValid(vmas) && k <= |vmas| && cur < end && o.err == 0
    requires k < |vmas| ==> cur < vmas[k].end
    requires Advanced(v, vmas, k, k', o, r, cur, next, end, answer)
    ensures cur < next <= end && k' <= |vmas| && (k' < |vmas| ==> next < vmas[k'].end || next == end)
    ensures var whole := Then(o, SpacePieces(v, vmas[k..], cur, end), answer);
            if r.err != 0 || next >= end then whole == r
            else whole == Then(r, SpacePieces(v, vmas[k'..], next, end), answer)
  {
    var rest := vmas[k'..];
    assert forall i :: 0 <= i < |rest| ==> rest[i] == vmas[k' + i];
    SpaceFrom(v, rest, cur, next, end);
    SpaceEmpty(v, rest, end);
    if k' == k + 1 {
      SpaceTail(v, vmas, k, rest, cur, end, o, answer);
    }
  }

  /** The walk of the areas from k on begins with area k. */
  lemma SpaceTail(v: PT.View, vmas: seq<Vma>, k: nat, rest: seq<Vma>, cur: nat, end: nat, o: Outcome, answer: Answer)
    requires k < |vmas| && rest == vmas[k + 1..]
    ensures Then(o, SpacePieces(v, vmas[k..], cur, end), answer)
            == Then(Then(o, AreaPieces(v, vmas[k], cur, end), answer), SpacePieces(v, rest, cur, end), answer)
  {
    assert vmas[k..][0] == vmas[k] && vmas[k..][1..] == rest;
    ThenJoin(o, AreaPieces(v, vmas[k], cur, end), SpacePieces(v, rest, cur, end), answer);
  }

  lemma RangeStep(v: PT.View, vma: Vma, level: nat, o: Outcome, r: Outcome, addr: nat, next: nat, end: nat,
                  answer: Answer)
    requires forall x: nat :: v(x).level <= level
    requires addr < end && next == PT.AddrEnd(level, addr, end)
    requires r == Then(o, Pieces(v, vma, addr, next), answer)
    ensures r.err != 0 || next == end ==> Then(o, Pieces(v, vma, addr, end), answer) == r
    ensures r.err == 0 ==> Then(o, Pieces(v, vma, addr, end), answer) == Then(r, Pieces(v, vma, next, end), answer)
  {
    if next < end {
      MulMod(PT.BlockSize(level), 1);
      ModAdd(PT.BlockStart(level, addr), PT.BlockSize(level), PT.BlockSize(level));
    }
    PiecesSplit(v, vma, level, addr, next, end);
    ThenJoin(o, Pieces(v, vma, addr, next), Pieces(v, vma, next, end), answer);
    assert Pieces(v, vma, end, end) == [];
  }

  // ----- The walk is a partition -----

  /** p is the part of [a, end) that lies in one block of its level, and that block has an entry. */
  predicate IsPiece(v: PT.View, p: Piece, a: nat, end: nat) {
    && p.start < p.end
    && p.start == Max(a, PT.BlockStart(p.level, p.start))
    && p.end == Min(end, PT.BlockEnd(p.level, p.start))
    && (p.level == 1 || p.level == 2)
    && forall x: nat :: p.start <= x < p.end ==> v(x) == PT.Block(p.level, true)
  }

  predicate Ascending(ps: seq<Piece>) {
    forall i, j :: 0 <= i < j < |ps| ==> ps[i].end <= ps[j].start
  }

  predicate InSome(ps: seq<Piece>, x: nat) {
    exists i :: 0 <= i < |ps| && ps[i].start <= x < ps[i].end
  }

  predicate Within(ps: seq<Piece>, a: nat, end: nat) {
    forall i :: 0 <= i < |ps| ==> a <= ps[i].start && ps[i].end <= end
  }

  /** `addr` is where the walk of [a, ..) starts or a block of the view ends. */
  predicate Boundary(v: PT.View, a: nat, addr: nat) {
    a == addr || (a < addr && PT.BlockEnd(v(addr - 1).level, addr - 1) == addr)
  }

  /** A block that begins before a boundary of its view has already ended there. */
  lemma BoundaryStarts(v: PT.View, a: nat, addr: nat)
    requires PT.Tiled(v) && a <= addr && Boundary(v, a, addr)
    ensures a == addr || PT.BlockStart(v(addr).level, addr) == addr
  {
    var l := v(addr).level;
    if a != addr && PT.BlockStart(l, addr) < addr {
      assert v(addr - 1) == v(addr);
      PT.SameBlock(l, addr, addr - 1);
      assert false;
    }
  }

  lemma NextBoundary(v: PT.View, addr: nat, next: nat, end: nat)
    requires PT.Tiled(v) && addr < end && next == PT.AddrEnd(v(addr).level, addr, end)
    ensures next < end ==> Boundary(v, addr, next)
  {
    if next < end {
      assert v(next - 1) == v(addr);
      PT.SameBlock(v(addr).level, addr, next - 1);
    }
  }

  ghost predicate UpperLevels(v: PT.View) {
    forall x: nat :: v(x).level >= 1
  }

  lemma InSomeJoin(ps: seq<Piece>, qs: seq<Piece>, x: nat)
    ensures InSome(ps + qs, x) <==> InSome(ps, x) || InSome(qs, x)
  {
    if InSome(ps, x) {
      var i :| 0 <= i < |ps| && ps[i].start <= x < ps[i].end;
      assert (ps + qs)[i] == ps[i];
    }
    if InSome(qs, x) {
      var i :| 0 <= i < |qs| && qs[i].start <= x < qs[i].end;
      assert (ps + qs)[|ps| + i] == qs[i];
    }
  }

  lemma HereIsPiece(v: PT.View, vma: Vma, a: nat, addr: nat, end: nat)
    requires PT.Tiled(v) && UpperLevels(v) && a <= addr < end && Boundary(v, a, addr) && v(addr).isPage
    ensures IsPiece(v, Piece(addr, PT.AddrEnd(v(addr).level, addr, end), v(addr).level, vma), a, end)
  {
    BoundaryStarts(v, a, addr);
  }

  lemma {:induction false} PiecesArePieces(v: PT.View, vma: Vma, a: nat, addr: nat, end: nat, i: nat)
    requires PT.Tiled(v) && UpperLevels(v) && a <= addr && (addr < end ==> Boundary(v, a, addr))
    requires i < |Pieces(v, vma, addr, end)|
    ensures IsPiece(v, Pieces(v, vma, addr, end)[i], a, end) && Pieces(v, vma, addr, end)[i].vma == vma
    decreases end - addr
  {
    var next := PT.AddrEnd(v(addr).level, addr, end);
    var n := |Here(v, vma, addr, next)|;
    if i < n {
      HereIsPiece(v, vma, a, addr, end);
    } else {
      NextBoundary(v, addr, next, end);
      PiecesArePieces(v, vma, a, next, end, i - n);
    }
  }

  lemma {:induction false} PiecesAscend(v: PT.View, vma: Vma, addr: nat, end: nat)
    ensures Ascending(Pieces(v, vma, addr, end)) && Within(Pieces(v, vma, addr, end), addr, end)
    decreases end - addr
  {
    if addr < end {
      PiecesAscend(v, vma, PT.AddrEnd(v(addr).level, addr, end), end);
    }
  }

  lemma {:induction false} PiecesCover(v: PT.View, vma: Vma, addr: nat, end: nat, x: nat)
    requires PT.Tiled(v) && addr <= x < end && v(x).isPage
    ensures InSome(Pieces(v, vma, addr, end), x)
    decreases end - addr
  {
    var next := PT.AddrEnd(v(addr).level, addr, end);
    InSomeJoin(Here(v, vma, addr, next), Pieces(v, vma, next, end), x);
    if x < next {
      assert v(x) == v(addr);
      assert Here(v, vma, addr, next)[0].start <= x < Here(v, vma, addr, next)[0].end;
    } else {
      PiecesCover(v, vma, next, end, x);
    }
  }

  /** x lies in an area that is walked: memory of no file, or a file's that is written privately, and no
      hugetlb memory. */
  predicate InArea(vmas: seq<Vma>, x: nat) {
    exists k :: 0 <= k < |vmas| && vmas[k].start <= x < vmas[k].end
                && !vmas[k].hugetlb && (vmas[k].file ==> vmas[k].write && !vmas[k].mayShare)
  }

  /** Each call is for one area the walk accepts, inside it, and one block of the table. */
  predicate IsCall(v: PT.View, vmas: seq<Vma>, p: Piece, start: nat, end: nat) {
    && p.vma in vmas && Accepted(p.vma)
    && IsPiece(v, p, Max(start, p.vma.start), Min(end, p.vma.end))
  }

  lemma {:induction false} CallsAreCalls(v: PT.View, vmas: seq<Vma>, start: nat, end: nat, i: nat)
    requires VmasValid(vmas) && PT.Tiled(v) && UpperLevels(v) && i < |SpacePieces(v, vmas, start, end)|
    ensures IsCall(v, vmas, SpacePieces(v, vmas, start, end)[i], start, end)
  {
    var n := |AreaPieces(v, vmas[0], start, end)|;
    if i < n {
      PiecesArePieces(v, vmas[0], Max(start, vmas[0].start), Max(start, vmas[0].start), Min(end, vmas[0].end), i);
    } else {
      CallsAreCalls(v, vmas[1..], start, end, i - n);
    }
  }

  lemma {:induction false} CallsAscend(v: PT.View, vmas: seq<Vma>, start: nat, end: nat, from: nat)
    requires VmasValid(vmas)
    requires forall i :: 0 <= i < |vmas| ==> from <= vmas[i].start
    ensures Ascending(SpacePieces(v, vmas, start, end))
    ensures forall i :: 0 <= i < |SpacePieces(v, vmas, start, end)| ==> from <= SpacePieces(v, vmas, start, end)[i].start
  {
    if vmas != [] {
      PiecesAscend(v, vmas[0], Max(start, vmas[0].start), Min(end, vmas[0].end));
      CallsAscend(v, vmas[1..], start, end, vmas[0].end);
    }
  }

  lemma {:induction false} CallsCover(v: PT.View, vmas: seq<Vma>, start: nat, end: nat, k: nat, x: nat)
    requires PT.Tiled(v) && start <= x < end && v(x).isPage
    requires k < |vmas| && vmas[k].start <= x < vmas[k].end && Accepted(vmas[k])
    ensures InSome(SpacePieces(v, vmas, start, end), x)
  {
    InSomeJoin(AreaPieces(v, vmas[0], start, end), SpacePieces(v, vmas[1..], start, end), x);
    if k == 0 {
      PiecesCover(v, vmas[0], Max(start, vmas[0].start), Min(end, vmas[0].end), x);
    } else {
      CallsCover(v, vmas[1..], start, end, k - 1, x);
    }
  }

  /** The pmd of x is not empty, nor any entry above it. */
  predicate Mapped(mm: AddressSpace, x: nat)
    requires SpaceValid(mm)
  {
    var l := PT.Lookup(4, mm.pgd, x);
    l.isPage || l.level == 0
  }

  /** The callbacks due are ascending, disjoint pieces, each the part of the range inside one
      accepted area and one block of the table; together they cover exactly the addresses of
      accepted areas whose entries are not empty. */
  lemma DueIsPartition(mm: AddressSpace, start: nat, end: nat)
    requires SpaceValid(mm)
    ensures var ps := Due(mm, start, end);
            && (forall i :: 0 <= i < |ps| ==> IsCall(UpperView(4, mm.pgd), mm.vmas, ps[i], start, end))
            && Ascending(ps)
            && (forall x: nat {:trigger InSome(ps, x)} ::
                  InSome(ps, x) <==> start <= x < end && InArea(mm.vmas, x) && Mapped(mm, x))
  {
    var v, ps := UpperView(4, mm.pgd), Due(mm, start, end);
    UpperIsTiled(4, mm.pgd);
    CallsAscend(v, mm.vmas, start, end, 0);
    forall i | 0 <= i < |ps| ensures IsCall(v, mm.vmas, ps[i], start, end) {
      CallsAreCalls(v, mm.vmas, start, end, i);
    }
    forall x: nat {:trigger InSome(ps, x)}
      ensures InSome(ps, x) <==> start <= x < end && InArea(mm.vmas, x) && Mapped(mm, x) {
      CoveredExactly(mm, start, end, x);
    }
  }

  lemma CoveredOnly(mm: AddressSpace, start: nat, end: nat, x: nat)
    requires SpaceValid(mm) && InSome(Due(mm, start, end), x)
    ensures start <= x < end && InArea(mm.vmas, x) && Mapped(mm, x)
  {
    var v, ps := UpperView(4, mm.pgd), Due(mm, start, end);
    var i :| 0 <= i < |ps| && ps[i].start <= x < ps[i].end;
    UpperIsTiled(4, mm.pgd);
    UpperIsLookup(4, mm.pgd, x);
    CallsAreCalls(v, mm.vmas, start, end, i);
    assert v(x) == PT.Block(ps[i].level, true);
    var k :| 0 <= k < |mm.vmas| && mm.vmas[k] == ps[i].vma;
  }

  lemma CoveredExactly(mm: AddressSpace, start: nat, end: nat, x: nat)
    requires SpaceValid(mm)
    ensures InSome(Due(mm, start, end), x) <==> start <= x < end && InArea(mm.vmas, x) && Mapped(mm, x)
  {
    if InSome(Due(mm, start, end), x) {
      CoveredOnly(mm, start, end, x);
    }
    if start <= x < end && InArea(mm.vmas, x) && Mapped(mm, x) {
      var k :| 0 <= k < |mm.vmas| && mm.vmas[k].start <= x < mm.vmas[k].end && Accepted(mm.vmas[k]);
      UpperIsTiled(4, mm.pgd);
      UpperIsLookup(4, mm.pgd, x);
      CallsCover(UpperView(4, mm.pgd), mm.vmas, start, end, k, x);
    }
  }

  /** `pud_entry` is called exactly for huge pud entries. */
  lemma HugePudExactly(mm: AddressSpace, start: nat, end: nat, i: nat)
    requires SpaceValid(mm) && i < |Due(mm, start, end)|
    ensures var p := Due(mm, start, end)[i];
            p.level == 2 <==> PT.Lookup(4, mm.pgd, p.start) == PT.Block(2, true)
  {
    var v, p := UpperView(4, mm.pgd), Due(mm, start, end)[i];
    UpperIsTiled(4, mm.pgd);
    CallsAreCalls(v, mm.vmas, start, end, i);
    UpperIsLookup(4, mm.pgd, p.start);
    assert v(p.start) == PT.Block(p.level, true);
  }

  /** The calls made are the first n of those due: all of them when every one answers 0, else up to
      the first that does not, whose answer is returned. */
  lemma {:induction false} StopsAtFirstError(o: Outcome, due: seq<Piece>, answer: Answer) returns (n: nat)
    requires o.err == 0
    ensures n <= |due| && Then(o, due, answer).calls == o.calls + due[..n]
    ensures forall i :: 0 <= i < n - 1 ==> answer(due[i]) == 0
    ensures Then(o, due, answer).err == (if n == 0 then 0 else answer(due[n - 1]))
    ensures n < |due| ==> n > 0 && answer(due[n - 1]) != 0
    decreases |due|
  {
    if due == [] {
      n := 0;
    } else if answer(due[0]) != 0 {
      n := 1;
      var r := Outcome(o.calls + [due[0]], answer(due[0]));
      assert Then(r, due[1..], answer) == r;
    } else {
      n := StopsAtFirstError(Outcome(o.calls + [due[0]], 0), due[1..], answer);
      n := n + 1;
      assert due[..n] == [due[0]] + due[1..][..n - 1];
    }
  }
}
