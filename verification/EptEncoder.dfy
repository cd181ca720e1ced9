/** eic_add_page of kernel_module/ept_idle.c on values: how one visited entry changes the stream,
    the reader's expected position and the restart point. */
module EptEncoder {
  import opened Arith
  import opened IdleStream

  const KBUF_SIZE := 8000

  /** The control block without its buffers: `tokens` are the bytes of kpie[..pie_read]. `overrun` is
      set where the code writes behind kpie; the model then refuses the entry instead. */
  datatype Ctrl = Ctrl(tokens: seq<Token>, pieReadMax: int, nextHva: int, gpaToHva: int, restartGpa: int,
                       overrun: bool)

  type ItemType = t: PageType | t < PIP_CMD witness 0

  /** round_down to the entry's size. */
  function RoundDown(x: int, t: ItemType): int {
    if PageSize(t) == PAGE_SIZE then x - x % PAGE_SIZE
    else if PageSize(t) == PMD_SIZE then x - x % PMD_SIZE
    else x - x % PUD_SIZE
  }

  /** round_up to the entry's size. */
  function RoundUp(x: int, t: ItemType): int {
    RoundDown(x + PageSize(t) - 1, t)
  }

  /** [addr, next) is a piece of one block of the entry's size. */
  predicate InBlock(addr: int, next: int, t: ItemType) {
    addr < next <= RoundDown(addr, t) + PageSize(t)
  }

  /** The entry does not continue at the reader's cursor. */
  predicate Jumps(c: Ctrl, addr: int) {
    c.tokens == [] || addr + c.gpaToHva != c.nextHva
  }

  predicate Merges(c: Ctrl, addr: int, t: ItemType) {
    Jumps(c, addr) && IsHole(t)
  }

  predicate GrowsLast(c: Ctrl, addr: int, t: ItemType) {
    !Jumps(c, addr)
    && var last := c.tokens[|c.tokens| - 1]; last.Run? && last.t == t && last.nr < 15
  }

  /** An int compared with a size_t is converted first. */
  function AsSize(n: int): int { if n < 0 then n + U64_RANGE else n }

  /** A jump is checked against the limit in size_t, an item that continues in int: a negative limit
      refuses no jump and every new item that continues. */
  predicate NoRoom(c: Ctrl, addr: int, t: ItemType) {
    !Merges(c, addr, t) && !GrowsLast(c, addr, t)
    && if Jumps(c, addr) then Size(c.tokens) + 8 + 2 >= AsSize(c.pieReadMax) else Size(c.tokens) >= c.pieReadMax
  }

  /** The entry is accepted but ends behind kpie. */
  predicate Overruns(c: Ctrl, addr: int, t: ItemType) {
    !Merges(c, addr, t) && !NoRoom(c, addr, t) && Size(Pushed(c, addr, t)) > KBUF_SIZE
  }

  datatype Added = Added(ctrl: Ctrl, full: bool)

  function AddPage(c: Ctrl, addr: int, next: int, t: ItemType): Added {
    var n := RoundUp(next, t);
    if Merges(c, addr, t) then Added(c.(restartGpa := n), false)
    else if NoRoom(c, addr, t) then Added(c.(restartGpa := addr), true)
    else if Overruns(c, addr, t) then Added(c.(restartGpa := addr, overrun := true), true)
    else
      Added(c.(tokens := Pushed(c, addr, t), nextHva := n + c.gpaToHva, restartGpa := n), false)
  }

  /** The stream with the entry added. */
  function Pushed(c: Ctrl, addr: int, t: ItemType): (ks: seq<Token>)
    ensures ks != []
  {
    if Jumps(c, addr) then
      c.tokens + [SetHva(RoundDown(addr, t) + c.gpaToHva)] + [Run(t, 1)]
    else if GrowsLast(c, addr, t) then
      var last := c.tokens[|c.tokens| - 1];
      c.tokens[..|c.tokens| - 1] + [last.(nr := last.nr + 1)]
    else
      c.tokens + [Run(t, 1)]
  }

  // ----- One call -----

  /** A buffer is empty, or opens with a command and ends with an item. */
  predicate Opened(ks: seq<Token>) {
    ks == [] || (ks[0].SetHva? && ks[|ks| - 1].Run?)
  }

  /** The reader's cursor at the end of the buffer is where the kernel believes it to be. */
  predicate InSync(c: Ctrl) {
    Opened(c.tokens) && (c.tokens != [] ==> ReaderVa(c.tokens) == c.nextHva)
  }

  /** Where a reader stands after the tokens. */
  function ReaderVa(ks: seq<Token>): int { Meaning(0, ks).va }

  /** The items, holes included, a reader of the tokens sees. */
  function Items(ks: seq<Token>): seq<Page> { Meaning(0, ks).pages }

  /** The pages, holes left out, a reader of the tokens sees. */
  function Seen(ks: seq<Token>): seq<Page> { Present(Items(ks)) }

  /** The buffer is within kpie and, unless negative, its limit. */
  predicate WithinLimit(c: Ctrl) {
    Size(c.tokens) <= KBUF_SIZE && (c.pieReadMax >= 0 ==> Size(c.tokens) <= c.pieReadMax)
  }

  /** The limits a buffer is started with. */
  predicate LimitOk(limit: int) { limit + 9 <= KBUF_SIZE && (limit > 10 || -8 <= limit < 0) }

  /** The address under which the reader will see the entry. */
  function ReportedVa(c: Ctrl, addr: int, t: ItemType): int {
    if Jumps(c, addr) then RoundDown(addr, t) + c.gpaToHva else addr + c.gpaToHva
  }

  lemma ReportedAtBase(c: Ctrl, g: int, t: ItemType)
    requires Jumps(c, g) || g == RoundDown(g, t)
    ensures ReportedVa(c, g, t) == RoundDown(g, t) + c.gpaToHva
  {
  }

  lemma RoundUpInBlock(addr: int, next: int, t: ItemType)
    requires InBlock(addr, next, t)
    ensures RoundUp(next, t) == RoundDown(addr, t) + PageSize(t)
  {
  }

  lemma PushedMeaning(c: Ctrl, addr: int, t: ItemType)
    requires InSync(c)
    ensures var va := ReportedVa(c, addr, t);
            Meaning(0, Pushed(c, addr, t))
            == Cursor(Meaning(0, c.tokens).pages + [Page(va, t)], va + PageSize(t))
  {
    var va := ReportedVa(c, addr, t);
    ExpandOne(va, t);
    if Jumps(c, addr) {
      MeaningSnoc(0, c.tokens, SetHva(va));
      MeaningSnoc(0, c.tokens + [SetHva(va)], Run(t, 1));
    } else if GrowsLast(c, addr, t) {
      var ks, last := c.tokens[..|c.tokens| - 1], c.tokens[|c.tokens| - 1];
      assert c.tokens == ks + [last];
      MeaningGrow(0, ks, t, last.nr);
    } else {
      MeaningSnoc(0, c.tokens, Run(t, 1));
    }
  }

  /** The bytes of a new entry. */
  lemma PushedSize(c: Ctrl, addr: int, t: ItemType)
    ensures Size(Pushed(c, addr, t)) - Size(c.tokens) == if Jumps(c, addr) then 10 else if GrowsLast(c, addr, t) then 0 else 1
  {
    if Jumps(c, addr) {
      var k := SetHva(RoundDown(addr, t) + c.gpaToHva);
      SizeSnoc(c.tokens, k);
      SizeSnoc(c.tokens + [k], Run(t, 1));
    } else if GrowsLast(c, addr, t) {
      var ks, last := c.tokens[..|c.tokens| - 1], c.tokens[|c.tokens| - 1];
      SizeSnoc(ks, last);
      SizeSnoc(ks, last.(nr := last.nr + 1));
      assert c.tokens == ks + [last];
    } else {
      SizeSnoc(c.tokens, Run(t, 1));
    }
  }

  lemma PushedOpened(c: Ctrl, addr: int, t: ItemType)
    requires Opened(c.tokens)
    ensures Opened(Pushed(c, addr, t))
  {
  }

  lemma PushedValid(c: Ctrl, addr: int, t: ItemType)
    requires ValidTokens(c.tokens) && 0 <= ReportedVa(c, addr, t) < U64_RANGE
    ensures ValidTokens(Pushed(c, addr, t))
  {
  }

  /** What an accepted call makes the reader see: one more page, unless it merged a hole. */
  lemma AddPageMeaning(c: Ctrl, addr: int, next: int, t: ItemType) returns (r: Added, end: int)
    requires InSync(c) && InBlock(addr, next, t)
    ensures r == AddPage(c, addr, next, t) && end == RoundDown(addr, t) + PageSize(t)
    ensures r.full <==> NoRoom(c, addr, t) || Overruns(c, addr, t)
    ensures r.full ==> r.ctrl == c.(restartGpa := addr, overrun := c.overrun || Overruns(c, addr, t))
    ensures !r.full && Merges(c, addr, t) ==> r.ctrl == c.(restartGpa := end)
    ensures !r.full && !Merges(c, addr, t) ==>
              && Opened(r.ctrl.tokens) && r.ctrl.tokens == Pushed(c, addr, t)
              && r.ctrl == c.(tokens := r.ctrl.tokens, nextHva := end + c.gpaToHva, restartGpa := end)
              && Meaning(0, r.ctrl.tokens)
                 == Cursor(Meaning(0, c.tokens).pages + [Page(ReportedVa(c, addr, t), t)],
                           ReportedVa(c, addr, t) + PageSize(t))
  {
    r, end := AddPage(c, addr, next, t), RoundDown(addr, t) + PageSize(t);
    RoundUpInBlock(addr, next, t);
    PushedMeaning(c, addr, t);
    PushedOpened(c, addr, t);
  }

  lemma ExpandOne(va: int, t: PageType)
    ensures Expand(va, t, 1) == [Page(va, t)]
  {
    assert Expand(va, t, 0) == [];
  }

  /** The condition a call must meet to keep reader and kernel together: it opens a new position,
      or it starts at a multiple of its page size. */
  predicate KeepsCursor(c: Ctrl, addr: int, t: ItemType) {
    Jumps(c, addr) || addr == RoundDown(addr, t)
  }

  /** An accepted call leaves the reader's cursor at next_hva exactly when `KeepsCursor` holds. */
  lemma CursorStaysExactly(c: Ctrl, addr: int, next: int, t: ItemType) returns (r: Added)
    requires InSync(c) && InBlock(addr, next, t) && !AddPage(c, addr, next, t).full
    ensures r == AddPage(c, addr, next, t)
    ensures InSync(r.ctrl) <==> KeepsCursor(c, addr, t)
  {
    var end;
    r, end := AddPageMeaning(c, addr, next, t);
  }

  /** An accepted call restarts at the end of its piece exactly when the piece ends its block: a
      piece cut short by the end of a memory slot sends the walker beyond the slot. */
  lemma RestartsAtNextExactly(c: Ctrl, addr: int, next: int, t: ItemType)
    requires InBlock(addr, next, t) && !AddPage(c, addr, next, t).full
    ensures AddPage(c, addr, next, t).ctrl.restartGpa == next <==> next % PageSize(t) == 0
  {
    RoundUpInBlock(addr, next, t);
    var base, size := RoundDown(addr, t), PageSize(t);
    assert base % size == 0;
    MulMod(size, 1);
    ModAdd(base, size, size);
    if next % size == 0 && next < base + size {
      SameMultiple(base, next, size);
    }
  }

  // ----- Any accepted sequence of calls -----

  datatype Call = Call(addr: int, next: int, t: ItemType)

  /** The first n calls one after the other. */
  function AddFirst(c: Ctrl, calls: seq<Call>, n: nat): Added
    requires n <= |calls|
  {
    if n == 0 then Added(c, false)
    else
      var r := AddFirst(c, calls, n - 1);
      if r.full then r else AddPage(r.ctrl, calls[n - 1].addr, calls[n - 1].next, calls[n - 1].t)
  }

  function Present(ps: seq<Page>): seq<Page> {
    if ps == [] then []
    else Present(ps[..|ps| - 1]) + IfPresent(ps[|ps| - 1])
  }

  function IfPresent(p: Page): seq<Page> { if IsHole(p.t) then [] else [p] }

  lemma PresentSnoc(ps: seq<Page>, p: Page)
    ensures Present(ps + [p]) == Present(ps) + IfPresent(p)
  {
    assert (ps + [p])[..|ps|] == ps;
  }

  lemma {:induction false} PresentAppend(ps: seq<Page>, qs: seq<Page>)
    ensures Present(ps + qs) == Present(ps) + Present(qs)
  {
    if qs == [] {
      assert ps + qs == ps;
    } else {
      var qs', q := qs[..|qs| - 1], qs[|qs| - 1];
      PresentAppend(ps, qs');
      Associative(ps, qs', [q]);
      assert qs == qs' + [q];
      PresentSnoc(ps + qs', q);
      Associative(Present(ps), Present(qs'), IfPresent(q));
    }
  }

  /** A buffer that opens with a command is read the same behind any stream. */
  lemma SeenAppend(a: seq<Token>, b: seq<Token>)
    requires b != [] && b[0].SetHva?
    ensures Seen(a + b) == Seen(a) + Seen(b) && ReaderVa(a + b) == ReaderVa(b)
    ensures Items(a + b) == Items(a) + Items(b)
  {
    MeaningAppend(0, a, b);
    MeaningFresh(Meaning(0, a).va, 0, b);
    PresentAppend(Meaning(0, a).pages, Meaning(0, b).pages);
  }

  /** A command at the end only moves the reader. */
  lemma SeenHva(ks: seq<Token>, hva: int)
    ensures Seen(ks + [SetHva(hva)]) == Seen(ks) && Items(ks + [SetHva(hva)]) == Items(ks)
    ensures ReaderVa(ks + [SetHva(hva)]) == hva
  {
    MeaningSnoc(0, ks, SetHva(hva));
  }

  /** The page a call is made for. */
  function CalledPage(c: Ctrl, k: Call): Page {
    Page(RoundDown(k.addr, k.t) + c.gpaToHva, k.t)
  }

  function CalledPages(c: Ctrl, calls: seq<Call>, n: nat): seq<Page>
    requires n <= |calls|
  {
    if n == 0 then [] else CalledPages(c, calls, n - 1) + IfPresent(CalledPage(c, calls[n - 1]))
  }

  /** The call is accepted, names a piece of one block inside the address space, and meets the
      condition of `CursorStaysExactly`. */
  predicate LegalCall(c: Ctrl, k: Call) {
    && InBlock(k.addr, k.next, k.t) && 0 <= CalledPage(c, k).va < U64_RANGE
    && KeepsCursor(c, k.addr, k.t) && !AddPage(c, k.addr, k.next, k.t).full
  }

  predicate Legal(c: Ctrl, calls: seq<Call>) {
    forall n :: 0 <= n < |calls| ==> LegalAt(c, calls, n)
  }

  predicate LegalAt(c: Ctrl, calls: seq<Call>, n: nat)
    requires n < |calls|
  {
    LegalCall(AddFirst(c, calls, n).ctrl, calls[n])
  }

  /** After n calls the reader is in step and sees the pages of the calls. */
  predicate Followed(c: Ctrl, calls: seq<Call>, n: nat, d: Ctrl)
    requires n <= |calls|
  {
    && InSync(d) && ValidTokens(d.tokens) && d.gpaToHva == c.gpaToHva
    && Seen(d.tokens) == CalledPages(c, calls, n)
  }

  predicate Reached(c: Ctrl, calls: seq<Call>, n: nat, d: Ctrl)
    requires n <= |calls|
  {
    AddFirst(c, calls, n) == Added(d, false) && Followed(c, calls, n, d)
  }

  lemma FollowedStart(c: Ctrl, calls: seq<Call>)
    requires c.tokens == []
    ensures Followed(c, calls, 0, c)
  {
    assert Seen([]) == Present([]) == [];
  }

  lemma FollowedStep(c: Ctrl, calls: seq<Call>, n: nat, d: Ctrl) returns (d': Ctrl)
    requires 0 < n <= |calls| && Followed(c, calls, n - 1, d) && LegalCall(d, calls[n - 1])
    ensures AddPage(d, calls[n - 1].addr, calls[n - 1].next, calls[n - 1].t) == Added(d', false)
    ensures Followed(c, calls, n, d')
  {
    var k := calls[n - 1];
    d' := LegalCallSeen(d, k);
    assert CalledPage(d, k) == CalledPage(c, k);
    assert Seen(d'.tokens) == CalledPages(c, calls, n - 1) + IfPresent(CalledPage(c, k));
  }

  lemma NextFollowed(c: Ctrl, calls: seq<Call>, n: nat, d: Ctrl) returns (d': Ctrl)
    requires 0 < n <= |calls| && Legal(c, calls) && Reached(c, calls, n - 1, d)
    ensures Reached(c, calls, n, d')
  {
    assert LegalAt(c, calls, n - 1);
    d' := FollowedStep(c, calls, n, d);
  }

  lemma {:induction false} LegalCallsSeen(c: Ctrl, calls: seq<Call>, n: nat) returns (d: Ctrl)
    requires c.tokens == [] && Legal(c, calls) && n <= |calls|
    ensures Reached(c, calls, n, d)
  {
    if n == 0 {
      d := c;
      FollowedStart(c, calls);
    } else {
      d := LegalCallsSeen(c, calls, n - 1);
      d := NextFollowed(c, calls, n, d);
    }
  }

  lemma MergedCallSeen(c: Ctrl, k: Call) returns (d: Ctrl)
    requires InSync(c) && LegalCall(c, k) && Merges(c, k.addr, k.t)
    ensures AddPage(c, k.addr, k.next, k.t) == Added(d, false) && d == c.(restartGpa := d.restartGpa)
    ensures InSync(d) && Seen(c.tokens) == Seen(c.tokens) + IfPresent(CalledPage(c, k))
  {
    d := c.(restartGpa := RoundUp(k.next, k.t));
    assert IfPresent(CalledPage(c, k)) == [];
  }

  lemma PushedCallSeen(c: Ctrl, k: Call) returns (d: Ctrl)
    requires InSync(c) && ValidTokens(c.tokens) && LegalCall(c, k) && !Merges(c, k.addr, k.t)
    ensures AddPage(c, k.addr, k.next, k.t) == Added(d, false) && d.gpaToHva == c.gpaToHva
    ensures InSync(d) && ValidTokens(d.tokens)
    ensures Seen(d.tokens) == Seen(c.tokens) + IfPresent(CalledPage(c, k))
  {
    ReportedAtBase(c, k.addr, k.t);
    var va := ReportedVa(c, k.addr, k.t);
    d := PushedCall(c, k, va);
    assert CalledPage(c, k) == Page(va, k.t);
  }

  lemma PushedCall(c: Ctrl, k: Call, va: int) returns (d: Ctrl)
    requires InSync(c) && ValidTokens(c.tokens) && InBlock(k.addr, k.next, k.t) && KeepsCursor(c, k.addr, k.t)
    requires !Merges(c, k.addr, k.t) && !NoRoom(c, k.addr, k.t) && !Overruns(c, k.addr, k.t)
    requires va == ReportedVa(c, k.addr, k.t) && 0 <= va < U64_RANGE
    ensures AddPage(c, k.addr, k.next, k.t) == Added(d, false) && d.gpaToHva == c.gpaToHva
    ensures InSync(d) && ValidTokens(d.tokens)
    ensures Seen(d.tokens) == Seen(c.tokens) + IfPresent(Page(va, k.t))
  {
    d := PushedForm(c, k, va);
    PushedSound(c, d, k.addr, k.t, va);
  }

  lemma PushedForm(c: Ctrl, k: Call, va: int) returns (d: Ctrl)
    requires InBlock(k.addr, k.next, k.t) && KeepsCursor(c, k.addr, k.t)
    requires !Merges(c, k.addr, k.t) && !NoRoom(c, k.addr, k.t) && !Overruns(c, k.addr, k.t)
    requires va == ReportedVa(c, k.addr, k.t)
    ensures AddPage(c, k.addr, k.next, k.t) == Added(d, false) && d.gpaToHva == c.gpaToHva
    ensures d.tokens == Pushed(c, k.addr, k.t) && d.nextHva == va + PageSize(k.t)
  {
    RoundUpInBlock(k.addr, k.next, k.t);
    ReportedAtBase(c, k.addr, k.t);
    d := AddPage(c, k.addr, k.next, k.t).ctrl;
  }

  lemma PushedSound(c: Ctrl, d: Ctrl, addr: int, t: ItemType, va: int)
    requires InSync(c) && ValidTokens(c.tokens) && va == ReportedVa(c, addr, t) && 0 <= va < U64_RANGE
    requires d.tokens == Pushed(c, addr, t) && d.nextHva == va + PageSize(t)
    ensures InSync(d) && ValidTokens(d.tokens)
    ensures Seen(d.tokens) == Seen(c.tokens) + IfPresent(Page(va, t))
  {
    PushedMeaning(c, addr, t);
    PushedOpened(c, addr, t);
    PushedValid(c, addr, t);
    PresentSnoc(Items(c.tokens), Page(va, t));
  }

  lemma LegalCallSeen(c: Ctrl, k: Call) returns (d: Ctrl)
    requires InSync(c) && ValidTokens(c.tokens) && LegalCall(c, k)
    ensures AddPage(c, k.addr, k.next, k.t) == Added(d, false)
    ensures InSync(d) && ValidTokens(d.tokens) && d.gpaToHva == c.gpaToHva
    ensures Seen(d.tokens) == Seen(c.tokens) + IfPresent(CalledPage(c, k))
  {
    if Merges(c, k.addr, k.t) {
      d := MergedCallSeen(c, k);
    } else {
      d := PushedCallSeen(c, k);
    }
  }

  /** The round trip of the stream. From an empty buffer, the bytes of any legal sequence of calls
      are read back, wherever the reader's cursor was, as exactly the non-empty entries of the
      calls in their order, and the reader ends at next_hva. */
  lemma StreamRoundTrip(c: Ctrl, calls: seq<Call>, va: int) returns (d: Ctrl, ks: seq<Token>)
    requires c.tokens == [] && Legal(c, calls)
    ensures AddFirst(c, calls, |calls|) == Added(d, false)
    ensures Lex(Serialize(d.tokens)) == Some(ks)
    ensures Present(Meaning(va, ks).pages) == CalledPages(c, calls, |calls|)
    ensures ks != [] ==> Meaning(va, ks).va == d.nextHva
  {
    d := LegalCallsSeen(c, calls, |calls|);
    ks := d.tokens;
    LexSerialize(ks);
    if ks != [] {
      MeaningFresh(va, 0, ks);
    }
  }

  /** Without the alignment condition the two sides part: a 2 MB hole that continues the stream in
      the middle of its block moves the reader a full 2 MB and the kernel only to the block's end. */
  lemma UnalignedContinuationParts()
    ensures exists c, addr, next, t ::
              && InSync(c) && InBlock(addr, next, t) && !AddPage(c, addr, next, t).full
              && !InSync(AddPage(c, addr, next, t).ctrl)
  {
    var c := Ctrl([SetHva(0), Run(PTE_IDLE, 1)], 100, PAGE_SIZE, 0, PAGE_SIZE, false);
    MeaningSnoc(0, [SetHva(0)], Run(PTE_IDLE, 1));
    MeaningSnoc(0, [], SetHva(0));
    assert [] + [SetHva(0)] == [SetHva(0)];
    assert c.tokens == [SetHva(0)] + [Run(PTE_IDLE, 1)];
    assert InSync(c);
    assert Size(c.tokens) == 10 by {
      SizeSnoc([SetHva(0)], Run(PTE_IDLE, 1));
      SizeSnoc([], SetHva(0));
    }
    var r := CursorStaysExactly(c, PAGE_SIZE, PMD_SIZE, PMD_HOLE);
    assert InBlock(PAGE_SIZE, PMD_SIZE, PMD_HOLE);
  }
}
