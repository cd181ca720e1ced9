/** One read of /proc/idle_pages on values: the rounds of ept_idle_walk_hva_range, each a walk from one
    host address and a copy of the buffer to the user. */
module EptRounds {
  import opened Arith
  import opened IdleStream
  import opened EptEncoder
  import opened PageList
  import opened EptWalk
  import opened EptLayout
  import opened EptReports
  import PT = PageTable

  const KBUF_FULL := 1
  const BUF_FULL := 2
  const TASK_SIZE := 0x7fff_ffff_f000
  const ALL_ONES := U64_RANGE - 1

  /** The distance from h to the next slot above, all ones if there is none. */
  function Ahead(slots: seq<Slot>, h: nat): (range: nat)
    ensures 0 < range <= ALL_ONES
  {
    if slots == [] then ALL_ONES
    else
      var rest, s := Ahead(slots[..|slots| - 1], h), slots[|slots| - 1];
      if s.hva > h && s.hva - h < rest then s.hva - h else rest
  }

  // ----- A round -----

  /** What a round has walked: the state, where the walk stopped and where the piece ends. */
  datatype Piece = Piece(w: Walk, next: int, vaEnd: int, full: bool)

  function GapPiece(vm: Vm, w: Walk, start: nat, end: nat): Piece {
    var range := Ahead(vm.slots, start);
    var next := if range == ALL_ONES then TASK_SIZE else start + range;
    Piece(w.(ctrl := w.ctrl.(gpaToHva := 0, restartGpa := next)), next, if range == ALL_ONES then end else next, false)
  }

  function SlotPiece(vm: Vm, w: Walk, s: Slot, start: nat): Piece
    requires s.HoldsHva(start)
  {
    WalkedPiece(s, Flat(vm.root, w.(ctrl := w.ctrl.(gpaToHva := s.hva - s.gpa)), start - s.hva + s.gpa, s.gpa + s.size))
  }

  function WalkedPiece(s: Slot, r: Walked): Piece {
    Piece(r.w, r.w.ctrl.restartGpa + s.hva - s.gpa, s.hva + s.size, r.full)
  }

  function PieceOf(vm: Vm, w: Walk, start: nat, end: nat): Piece {
    var i := SlotIndex(vm.slots, start);
    if i == |vm.slots| then GapPiece(vm, w, start, end) else SlotPiece(vm, w, vm.slots[i], start)
  }

  /** Where the first half of ept_idle_copy_user would put a last command. */
  function TailAt(c: Ctrl, next: int, vaEnd: int): int { if c.tokens == [] then Max(next, vaEnd) else next }

  /** A walk without pages, or with a hole behind the last page, ends with a command. */
  function Tailed(c: Ctrl, next: int, vaEnd: int): Ctrl {
    var tail := TailAt(c, next, vaEnd);
    if !(tail >= vaEnd && tail > c.nextHva) then c
    else if Size(c.tokens) + 9 > KBUF_SIZE then c.(overrun := true)
    else c.(tokens := c.tokens + [SetHva(tail)], nextHva := tail)
  }

  /** The limit init_ept_idle_ctrl_buffer sets, for a user's buffer of `count` bytes. */
  function LimitFor(count: int, sent: seq<Token>): int { Min(KBUF_SIZE, count - Size(sent)) - (8 + 1) }

  predicate LimitFails(limit: int) { AsSize(limit) <= 8 + 2 }

  /** What ept_idle_copy_user returns, with `sent` in the user's buffer, `out` of it new. */
  function CopyRet(count: int, empty: bool, out: seq<Token>, sent: seq<Token>): nat {
    if out == [] then 1
    else if Size(sent) >= count then BUF_FULL
    else if empty then 1
    else if LimitFails(LimitFor(count, sent)) then KBUF_FULL
    else 0
  }

  /** The read between two rounds. `sent` is in the user's buffer, ret is 0 as long as the loop goes
      on; `refused` are the pages refused so far after their accessed bits were cleared. */
  datatype Scan = Scan(w: Walk, start: int, sent: seq<Token>, ret: nat, refused: set<nat>)

  function First(count: int, w: Walk, pos: int): Scan {
    var limit := LimitFor(count, []);
    Scan(w.(ctrl := w.ctrl.(tokens := [], pieReadMax := limit)), pos, [], if LimitFails(limit) then KBUF_FULL else 0, {})
  }

  function RefusedBy(vm: Vm, p: Piece): set<nat> {
    var g := p.w.ctrl.restartGpa;
    if p.full && g >= 0 && vm.root(g).isPage && vm.root(g).level <= 1 then {Start(vm.root, g)} else {}
  }

  /** The second half of a round: the copy to the user. */
  function CopyOf(vm: Vm, count: int, sc: Scan, p: Piece): Scan {
    var c := Tailed(p.w.ctrl, p.next, p.vaEnd);
    var sent := sc.sent + c.tokens;
    Scan(Walk(c.(tokens := [], pieReadMax := LimitFor(count, sent)), p.w.accessed), p.next, sent,
         CopyRet(count, p.w.ctrl.tokens == [], c.tokens, sent), sc.refused + RefusedBy(vm, p))
  }

  function RoundOf(vm: Vm, count: int, end: nat, sc: Scan): Scan
    requires sc.start >= 0
  {
    CopyOf(vm, count, sc, PieceOf(vm, sc.w, sc.start, end))
  }

  // ----- A read -----

  predicate GoesOn(sc: Scan, end: nat) { sc.ret == 0 && 0 <= sc.start < end }

  predicate StepAt(vm: Vm, count: int, end: nat, scans: seq<Scan>, k: nat)
    requires k + 1 < |scans|
  {
    GoesOn(scans[k], end) && scans[k + 1] == RoundOf(vm, count, end, scans[k])
  }

  /** The states of a read's loop from `first` on. */
  predicate Scans(vm: Vm, count: int, end: nat, first: Scan, scans: seq<Scan>) {
    && scans != [] && scans[0] == first
    && forall k :: 0 <= k < |scans| - 1 ==> StepAt(vm, count, end, scans, k)
  }

  /** All of them, up to where the loop ends. */
  predicate IsRead(vm: Vm, count: int, end: nat, first: Scan, scans: seq<Scan>) {
    Scans(vm, count, end, first, scans) && !GoesOn(scans[|scans| - 1], end)
  }

  /** Two accounts of one read agree. */
  lemma {:induction false} ReadUnique(vm: Vm, count: int, end: nat, first: Scan, xs: seq<Scan>, ys: seq<Scan>, n: nat)
    requires IsRead(vm, count, end, first, xs) && IsRead(vm, count, end, first, ys) && n < |xs|
    ensures n < |ys| && xs[n] == ys[n]
  {
    if n > 0 {
      ReadUnique(vm, count, end, first, xs, ys, n - 1);
      assert StepAt(vm, count, end, xs, n - 1);
      assert n < |ys| ==> StepAt(vm, count, end, ys, n - 1);
    }
  }

  // ----- What has been sent -----

  /** The tokens sent so far list every page shown in (a, h], and the reader stands at v. */
  predicate SentUpTo(f: Layout, sent: seq<Token>, v: int, a: nat, h: nat) {
    && ValidTokens(sent) && a <= h && v <= h && v % PAGE_SIZE == 0
    && IsPageList(f, Seen(sent), a, h) && Forward(Items(sent), v)
    && (sent == [] ==> h == a && v <= a)
    && (sent != [] ==> a < v && ReaderVa(sent) == v && sent[0].SetHva?)
  }

  lemma NothingSent(f: Layout, a: nat)
    ensures SentUpTo(f, [], 0, a, a)
  {
    EmptyItems();
  }

  /** An empty buffer after what was sent. */
  lemma FreshUpTo(f: Layout, c: Ctrl, sent: seq<Token>, a: nat, h: nat)
    requires SentUpTo(f, sent, c.nextHva, a, h) && c.tokens == []
    ensures UpTo(f, c, Items(sent), a, h)
  {
    EmptyItems();
    assert Seen(sent) + [] == Seen(sent) && Items(sent) + [] == Items(sent);
  }

  /** Sending a buffer. */
  lemma BufferSent(f: Layout, c: Ctrl, sent: seq<Token>, a: nat, h: nat)
    requires UpTo(f, c, Items(sent), a, h) && c.tokens != [] && ValidTokens(sent) && (sent == [] || sent[0].SetHva?)
    ensures SentUpTo(f, sent + c.tokens, c.nextHva, a, h)
  {
    assert (sent + c.tokens)[0] == if sent == [] then c.tokens[0] else sent[0];
    SeenAppend(sent, c.tokens);
  }

  /** Sending a last command. */
  lemma TailSent(f: Layout, sent: seq<Token>, v: int, a: nat, h: nat)
    requires ValidTokens(sent) && IsPageList(f, Seen(sent), a, h) && Forward(Items(sent), v) && v <= h
    requires a < h < U64_RANGE && h % PAGE_SIZE == 0 && (sent == [] || sent[0].SetHva?)
    ensures SentUpTo(f, sent + [SetHva(h)], h, a, h)
  {
    SeenHva(sent, h);
  }

  /** The list may be cut down to where the reader stands. */
  lemma CutToReader(f: Layout, sent: seq<Token>, v: int, a: nat, h: nat)
    requires SentUpTo(f, sent, v, a, h) && sent != []
    ensures a < v && IsPageList(f, Seen(sent), a, v)
  {
    PresentEnds(Items(sent), v);
    ShrinkHole(f, Seen(sent), a, h, v);
  }

  /** A read that began at a has moved the file position to v: the reader ends at v and has seen
      every page of the layout that ends in (a, v] once, in order, and no other. */
  predicate Report(f: Layout, sent: seq<Token>, v: int, a: nat) {
    && ValidTokens(sent) && sent != [] && sent[0].SetHva?
    && a < v && v % PAGE_SIZE == 0 && ReaderVa(sent) == v
    && IsPageList(f, Seen(sent), a, v) && Forward(Items(sent), v)
  }

  lemma Reported(f: Layout, sent: seq<Token>, v: int, a: nat, h: nat)
    requires SentUpTo(f, sent, v, a, h) && sent != []
    ensures Report(f, sent, v, a)
  {
    CutToReader(f, sent, v, a, h);
  }

  // ----- The rounds report -----

  /** Slots below the user address limit. */
  ghost predicate HostVmOk(vm: Vm) {
    VmOk(vm) && forall i :: 0 <= i < |vm.slots| ==> vm.slots[i].hva + vm.slots[i].size <= TASK_SIZE
  }

  /** A walk may begin at h: a block begins there, or nothing of the slot is listed yet. */
  predicate Edge(vm: Vm, before: seq<Page>, h: nat) {
    var i := SlotIndex(vm.slots, h);
    i < |vm.slots| ==>
      var s := vm.slots[i];
      var g := h - s.hva + s.gpa;
      Start(vm.root, g) == g || StartBefore(before, s.hva)
  }

  /** The loop's state at the head of a round. */
  ghost predicate Going(vm: Vm, count: int, a: nat, sc: Scan) {
    && sc.ret == 0 && sc.w.ctrl.tokens == [] && sc.w.ctrl.pieReadMax == LimitFor(count, sc.sent)
    && Size(sc.sent) < count && !LimitFails(LimitFor(count, sc.sent))
    && 0 <= sc.start && sc.start % PAGE_SIZE == 0
    && SentUpTo(Shown(vm, a), sc.sent, sc.w.ctrl.nextHva, a, sc.start)
    && Track(vm, a, sc.start) && Edge(vm, Items(sc.sent), sc.start)
  }

  /** The state behind a round: a report up to the reader's place, to which the walk comes. */
  ghost predicate Behind(vm: Vm, a: nat, sc: Scan) {
    && Report(Shown(vm, a), sc.sent, sc.w.ctrl.nextHva, a) && Track(vm, a, sc.w.ctrl.nextHva)
  }

  lemma GapIsEmpty(vm: Vm, start: nat, h: nat)
    requires SlotIndex(vm.slots, start) == |vm.slots|
    requires forall j :: 0 <= j < |vm.slots| && vm.slots[j].hva > start ==> vm.slots[j].hva >= h
    ensures forall x: nat :: start <= x < h ==> SlotIndex(vm.slots, x) == |vm.slots|
    ensures NoPage(PagesOf(vm), start, h)
  {
    forall x: nat | start <= x < h ensures SlotIndex(vm.slots, x) == |vm.slots| {
      var k := SlotIndex(vm.slots, x);
      assert k < |vm.slots| ==> !vm.slots[k].HoldsHva(start);
    }
  }

  lemma {:induction false} AheadIs(slots: seq<Slot>, h: nat)
    requires forall j :: 0 <= j < |slots| ==> slots[j].hva < ALL_ONES
    ensures forall j :: 0 <= j < |slots| && slots[j].hva > h ==> slots[j].hva >= h + Ahead(slots, h)
    ensures Ahead(slots, h) < ALL_ONES ==> exists j :: 0 <= j < |slots| && slots[j].hva == h + Ahead(slots, h)
  {
    if slots != [] {
      var front := slots[..|slots| - 1];
      AheadIs(front, h);
      if Ahead(slots, h) == Ahead(front, h) < ALL_ONES {
        var j :| 0 <= j < |front| && front[j].hva == h + Ahead(front, h);
        assert slots[j].hva == h + Ahead(slots, h);
      } else if Ahead(slots, h) < ALL_ONES {
        assert slots[|slots| - 1].hva == h + Ahead(slots, h);
      }
    }
  }

  /** The copy of a buffer without pages ends the read with a command. */
  lemma CopyEmpty(vm: Vm, count: int, sc: Scan, p: Piece, tail: int) returns (r: Scan)
    requires p.w.ctrl.tokens == [] && tail == Max(p.next, p.vaEnd) && tail > p.w.ctrl.nextHva
    ensures r == CopyOf(vm, count, sc, p) && r.ret != 0
    ensures r.sent == sc.sent + [SetHva(tail)] && r.w.ctrl.nextHva == tail
  {
    r := CopyOf(vm, count, sc, p);
    assert [] + [SetHva(tail)] == [SetHva(tail)];
  }

  /** The copy of a buffer with pages. */
  lemma CopyFull(vm: Vm, count: int, sc: Scan, p: Piece) returns (r: Scan, marked: bool)
    requires p.w.ctrl.tokens != []
    ensures r == CopyOf(vm, count, sc, p) && r.start == p.next
    ensures marked ==> p.next >= p.vaEnd && p.next > p.w.ctrl.nextHva
    ensures marked ==> r.sent == sc.sent + p.w.ctrl.tokens + [SetHva(p.next)] && r.w.ctrl.nextHva == p.next
    ensures !marked ==> r.sent == sc.sent + p.w.ctrl.tokens && r.w.ctrl.nextHva == p.w.ctrl.nextHva
    ensures r.w.ctrl.tokens == [] && r.w.ctrl.pieReadMax == LimitFor(count, r.sent)
    ensures r.ret == 0 ==> Size(r.sent) < count && !LimitFails(LimitFor(count, r.sent))
  {
    r := CopyOf(vm, count, sc, p);
    var c := p.w.ctrl;
    marked := p.next >= p.vaEnd && p.next > c.nextHva && Size(c.tokens) + 9 <= KBUF_SIZE;
    Associative(sc.sent, c.tokens, [SetHva(p.next)]);
  }

  /** Everything up to `tail` is listed: a last command there makes a report. */
  lemma EmptyReports(vm: Vm, a: nat, sent: seq<Token>, v: int, tail: nat, r: Scan)
    requires ValidTokens(sent) && (sent == [] || sent[0].SetHva?) && Forward(Items(sent), v) && v <= tail
    requires a < tail < U64_RANGE && tail % PAGE_SIZE == 0 && IsPageList(Shown(vm, a), Seen(sent), a, tail)
    requires Track(vm, a, tail)
    requires r.sent == sent + [SetHva(tail)] && r.w.ctrl.nextHva == tail
    ensures Behind(vm, a, r)
  {
    TailSent(Shown(vm, a), sent, v, a, tail);
    Reported(Shown(vm, a), r.sent, tail, a, tail);
  }

  // ----- A round in a gap -----

  lemma GapPieceIs(vm: Vm, w: Walk, start: nat, end: nat, p: Piece) returns (tail: nat)
    requires HostVmOk(vm) && SlotIndex(vm.slots, start) == |vm.slots| && p == GapPiece(vm, w, start, end)
    requires start < end < U64_RANGE && end % PAGE_SIZE == 0
    ensures p.w.ctrl.tokens == w.ctrl.tokens && p.w.ctrl.nextHva == w.ctrl.nextHva
    ensures tail == Max(p.next, p.vaEnd) && start < tail < U64_RANGE && tail % PAGE_SIZE == 0
    ensures forall j :: 0 <= j < |vm.slots| && vm.slots[j].hva > start ==> vm.slots[j].hva >= tail
  {
    AheadIs(vm.slots, start);
    tail := Max(p.next, p.vaEnd);
    if Ahead(vm.slots, start) == ALL_ONES {
      assert forall j :: 0 <= j < |vm.slots| ==> vm.slots[j].hva + vm.slots[j].size <= TASK_SIZE;
    } else {
      var j :| 0 <= j < |vm.slots| && vm.slots[j].hva == start + Ahead(vm.slots, start);
      assert SlotAligned(vm.slots[j]);
    }
  }

  lemma GapRound(vm: Vm, count: int, a: nat, end: nat, sc: Scan) returns (r: Scan)
    requires HostVmOk(vm) && Going(vm, count, a, sc) && sc.start < end < U64_RANGE && end % PAGE_SIZE == 0
    requires SlotIndex(vm.slots, sc.start) == |vm.slots|
    ensures r == RoundOf(vm, count, end, sc) && Behind(vm, a, r) && r.ret != 0
  {
    var start, p := sc.start, PieceOf(vm, sc.w, sc.start, end);
    var tail := GapPieceIs(vm, sc.w, start, end, p);
    GapIsEmpty(vm, start, tail);
    ExtendHole(Shown(vm, a), Seen(sc.sent), a, start, tail);
    TrackGap(vm, start, tail);
    TrackTrans(vm, a, start, tail);
    r := CopyEmpty(vm, count, sc, p, tail);
    EmptyReports(vm, a, sc.sent, sc.w.ctrl.nextHva, tail, r);
  }

  // ----- A round in a slot -----

  /** The walk of the slot that holds the round's start may begin. */
  lemma SlotReady(vm: Vm, i: nat, s: Slot, c: Ctrl, sent: seq<Token>, a: nat, start: nat, g: nat)
    requires VmOk(vm) && i == SlotIndex(vm.slots, start) < |vm.slots| && s == vm.slots[i]
    requires g == start - s.hva + s.gpa && c.gpaToHva == s.hva - s.gpa && c.tokens == [] && LimitOk(c.pieReadMax)
    requires SentUpTo(Shown(vm, a), sent, c.nextHva, a, start) && Edge(vm, Items(sent), start)
    ensures Ready(vm, s, c, Items(sent), a, g)
  {
    FreshUpTo(Shown(vm, a), c, sent, a, start);
    ForwardStarts(Items(sent), c.nextHva, s.hva + s.size);
    EmptyItems();
    assert Items(sent) + [] == Items(sent);
  }

  lemma SlotAddress(s: Slot, start: nat, g: nat)
    requires SlotAligned(s) && s.HoldsHva(start) && start % PAGE_SIZE == 0 && g == start - s.hva + s.gpa
    ensures g % PAGE_SIZE == 0
  {
    ModSub(s.hva, start, PAGE_SIZE);
    ModAdd(start - s.hva, s.gpa, PAGE_SIZE);
  }

  lemma SlotFlat(vm: Vm, i: nat, s: Slot, w: Walk, sent: seq<Token>, a: nat, start: nat, g: nat)
    returns (r: Walked, stop: nat)
    requires VmOk(vm) && i == SlotIndex(vm.slots, start) < |vm.slots| && s == vm.slots[i] && start % PAGE_SIZE == 0
    requires g == start - s.hva + s.gpa && w.ctrl.gpaToHva == s.hva - s.gpa
    requires w.ctrl.tokens == [] && LimitOk(w.ctrl.pieReadMax)
    requires SentUpTo(Shown(vm, a), sent, w.ctrl.nextHva, a, start) && Edge(vm, Items(sent), start) && Track(vm, a, start)
    ensures r == Flat(vm.root, w, g, s.gpa + s.size)
    ensures stop == r.w.ctrl.restartGpa && stop % PAGE_SIZE == 0 && Walking(vm, s, r.w.ctrl, Items(sent), a, stop)
    ensures r.full ==> r.w.ctrl.tokens != [] && g < stop < s.gpa + s.size && Start(vm.root, stop) == stop
    ensures !r.full ==> stop == Over(vm.root, s)
  {
    SlotReady(vm, i, s, w.ctrl, sent, a, start, g);
    SlotAddress(s, start, g);
    SlotInView(vm, i, s, a, start);
    r, stop := FlatReports(vm, i, s, w, Items(sent), a, g);
  }

  /** Where the cursor is after the walk of a slot. */
  predicate CursorMoved(c: Ctrl, p: Piece, start: int) {
    var d := p.w.ctrl;
    && (d.tokens == [] ==> d.nextHva == c.nextHva)
    && (d.tokens != [] ==> start < d.nextHva && (d.nextHva < p.vaEnd || (!p.full && d.nextHva == p.next)))
  }

  lemma SlotMoved(vm: Vm, s: Slot, w: Walk, start: nat, p: Piece)
    requires s.HoldsHva(start) && w.ctrl.tokens == [] && p == SlotPiece(vm, w, s, start)
    ensures CursorMoved(w.ctrl, p, start)
  {
    var g, w' := start - s.hva + s.gpa, w.(ctrl := w.ctrl.(gpaToHva := s.hva - s.gpa));
    FlatMoves(vm.root, w', g, s.gpa + s.size);
  }

  lemma SlotPieceIs(vm: Vm, s: Slot, w: Walk, start: nat, w': Walk, g: nat, r: Walked)
    requires s.HoldsHva(start) && w' == w.(ctrl := w.ctrl.(gpaToHva := s.hva - s.gpa)) && g == start - s.hva + s.gpa
    requires r == Flat(vm.root, w', g, s.gpa + s.size)
    ensures SlotPiece(vm, w, s, start) == Piece(r.w, s.Hva(r.w.ctrl.restartGpa), s.hva + s.size, r.full)
  {
    assert SlotPiece(vm, w, s, start) == WalkedPiece(s, r);
  }

  /** What the walk of a slot has come to: `stop` is where it restarts. */
  lemma SlotWalked(vm: Vm, count: int, a: nat, i: nat, s: Slot, sc: Scan, p: Piece) returns (stop: nat)
    requires HostVmOk(vm) && Going(vm, count, a, sc) && i == SlotIndex(vm.slots, sc.start) < |vm.slots|
    requires s == vm.slots[i] && p == SlotPiece(vm, sc.w, s, sc.start)
    ensures p.next == s.Hva(stop) && stop % PAGE_SIZE == 0 && Walking(vm, s, p.w.ctrl, Items(sc.sent), a, stop)
    ensures p.full ==> p.w.ctrl.tokens != [] && sc.start < p.next < p.vaEnd && Start(vm.root, stop) == stop
    ensures !p.full ==> stop == Over(vm.root, s)
    ensures CursorMoved(sc.w.ctrl, p, sc.start)
  {
    var g, w := sc.start - s.hva + s.gpa, sc.w.(ctrl := sc.w.ctrl.(gpaToHva := s.hva - s.gpa));
    var r;
    r, stop := SlotFlat(vm, i, s, w, sc.sent, a, sc.start, g);
    SlotPieceIs(vm, s, sc.w, sc.start, w, g, r);
    SlotMoved(vm, s, sc.w, sc.start, p);
  }

  /** A round in a slot that met no page. */
  lemma EmptySlotRound(vm: Vm, count: int, a: nat, i: nat, s: Slot, sc: Scan, p: Piece, stop: nat) returns (r: Scan)
    requires HostVmOk(vm) && Going(vm, count, a, sc) && i == SlotIndex(vm.slots, sc.start) < |vm.slots|
    requires s == vm.slots[i] && p.w.ctrl.tokens == [] && p.w.ctrl.nextHva == sc.w.ctrl.nextHva
    requires stop == Over(vm.root, s) && p.next == s.Hva(stop) && p.vaEnd == s.hva + s.size
    requires Walking(vm, s, p.w.ctrl, Items(sc.sent), a, stop)
    ensures r == CopyOf(vm, count, sc, p) && Behind(vm, a, r) && r.ret != 0
  {
    EmptyItems();
    assert Seen(sc.sent) + [] == Seen(sc.sent);
    OverOnPage(s, vm.root);
    LeaveTrack(vm, i, s, a, sc.start);
    OverBound(s, vm.root);
    r := CopyEmpty(vm, count, sc, p, p.next);
    EmptyReports(vm, a, sc.sent, sc.w.ctrl.nextHva, p.next, r);
  }

  lemma LeaveTrack(vm: Vm, i: nat, s: Slot, a: nat, start: nat)
    requires VmOk(vm) && i < |vm.slots| && s == vm.slots[i] && s.HoldsHva(start) && Track(vm, a, start)
    ensures Track(vm, a, s.Hva(Over(vm.root, s)))
  {
    TrackLeave(vm, i, s, start);
    TrackTrans(vm, a, start, s.Hva(Over(vm.root, s)));
  }

  /** No entry reaches further than 1 GB beyond its slot. */
  lemma OverBound(s: Slot, root: PT.View)
    requires s.size > 0 && s.hva + s.size <= TASK_SIZE
    ensures s.hva + s.size <= s.Hva(Over(root, s)) < U64_RANGE
  {
    Sizes();
  }

  /** The reader's place after a round with pages, to which the walk comes, too. */
  lemma CursorTrack(vm: Vm, i: nat, s: Slot, a: nat, start: nat, v: nat)
    requires VmOk(vm) && i < |vm.slots| && s == vm.slots[i] && s.HoldsHva(start) && Track(vm, a, start)
    requires start < v && (v < s.hva + s.size || v == s.Hva(Over(vm.root, s)))
    ensures Track(vm, a, v)
  {
    if v < s.hva + s.size {
      TrackInSlot(vm, i, start, v);
      TrackTrans(vm, a, start, v);
    } else {
      LeaveTrack(vm, i, s, a, start);
    }
  }

  /** What a round with pages has sent. */
  lemma FullSent(vm: Vm, s: Slot, count: int, a: nat, sc: Scan, p: Piece, stop: nat) returns (r: Scan, marked: bool)
    requires ValidTokens(sc.sent) && (sc.sent == [] || sc.sent[0].SetHva?) && a < p.next < U64_RANGE && p.next % PAGE_SIZE == 0
    requires p.next == s.Hva(stop) && Walking(vm, s, p.w.ctrl, Items(sc.sent), a, stop) && p.w.ctrl.tokens != []
    ensures r == CopyOf(vm, count, sc, p) && r.start == p.next
    ensures SentUpTo(Shown(vm, a), r.sent, r.w.ctrl.nextHva, a, p.next) && r.sent != []
    ensures r.w.ctrl.nextHva == p.w.ctrl.nextHva || r.w.ctrl.nextHva == p.next >= p.vaEnd
    ensures Items(r.sent) == Items(sc.sent) + Items(p.w.ctrl.tokens)
    ensures r.w.ctrl.tokens == [] && r.w.ctrl.pieReadMax == LimitFor(count, r.sent)
    ensures r.ret == 0 ==> Size(r.sent) < count && !LimitFails(LimitFor(count, r.sent))
  {
    r, marked := CopyFull(vm, count, sc, p);
    var c, all := p.w.ctrl, sc.sent + p.w.ctrl.tokens;
    BufferSent(Shown(vm, a), c, sc.sent, a, p.next);
    SeenAppend(sc.sent, c.tokens);
    if marked {
      TailSent(Shown(vm, a), all, c.nextHva, a, p.next);
      SeenHva(all, p.next);
    }
  }

  /** The next round may begin where this one stopped. */
  lemma NextEdge(vm: Vm, i: nat, s: Slot, before: seq<Page>, stop: nat)
    requires VmOk(vm) && i < |vm.slots| && s == vm.slots[i] && s.gpa <= stop && StartBefore(before, s.hva + s.size)
    requires if stop < s.gpa + s.size then Start(vm.root, stop) == stop else true
    ensures Edge(vm, before, s.Hva(stop))
  {
    if stop < s.gpa + s.size {
      SlotIndexUnique(vm, s.Hva(stop), i);
    } else {
      EdgeBehind(vm, i, before, s.Hva(stop));
    }
  }

  lemma EdgeBehind(vm: Vm, i: nat, before: seq<Page>, h: nat)
    requires VmOk(vm) && i < |vm.slots| && vm.slots[i].hva + vm.slots[i].size <= h
    requires StartBefore(before, vm.slots[i].hva + vm.slots[i].size)
    ensures Edge(vm, before, h)
  {
    var k := SlotIndex(vm.slots, h);
    if k < |vm.slots| {
      SlotBehind(vm, i, k, h);
    }
  }

  /** A slot that holds an address behind another slot begins behind it. */
  lemma SlotBehind(vm: Vm, i: nat, k: nat, h: nat)
    requires VmOk(vm) && i < |vm.slots| && k < |vm.slots| && vm.slots[k].HoldsHva(h)
    requires vm.slots[i].hva + vm.slots[i].size <= h
    ensures vm.slots[i].hva + vm.slots[i].size <= vm.slots[k].hva
  {
    assert k < i ==> Disjoint(vm.slots[k], vm.slots[i]);
    assert i < k ==> Disjoint(vm.slots[i], vm.slots[k]);
  }

  /** A round in a slot that met pages. */
  lemma FullSlotRound(vm: Vm, count: int, a: nat, i: nat, s: Slot, sc: Scan, p: Piece, stop: nat) returns (r: Scan)
    requires HostVmOk(vm) && Going(vm, count, a, sc) && i == SlotIndex(vm.slots, sc.start) < |vm.slots|
    requires s == vm.slots[i] && p.w.ctrl.tokens != [] && p.vaEnd == s.hva + s.size
    requires p.next == s.Hva(stop) && stop % PAGE_SIZE == 0 && Walking(vm, s, p.w.ctrl, Items(sc.sent), a, stop)
    requires p.full ==> sc.start < p.next < p.vaEnd && Start(vm.root, stop) == stop
    requires !p.full ==> stop == Over(vm.root, s)
    requires CursorMoved(sc.w.ctrl, p, sc.start)
    ensures r == CopyOf(vm, count, sc, p) && Behind(vm, a, r)
    ensures r.ret == 0 ==> Going(vm, count, a, r) && sc.start < r.start
  {
    OverBound(s, vm.root);
    StopOnPage(s, stop);
    var marked;
    r, marked := FullSent(vm, s, count, a, sc, p, stop);
    CursorTrack(vm, i, s, a, sc.start, r.w.ctrl.nextHva);
    Reported(Shown(vm, a), r.sent, r.w.ctrl.nextHva, a, p.next);
    CursorTrack(vm, i, s, a, sc.start, p.next);
    NextEdge(vm, i, s, Items(r.sent), stop);
  }

  lemma StopOnPage(s: Slot, stop: nat)
    requires SlotAligned(s) && stop % PAGE_SIZE == 0
    ensures s.Hva(stop) % PAGE_SIZE == 0
  {
    ModSub(s.gpa, stop, PAGE_SIZE);
    ModAdd(stop - s.gpa, s.hva, PAGE_SIZE);
  }

  /** Every round reports: what has been sent up to its end is a report, and a round that goes on has
      moved on. */
  lemma RoundReports(vm: Vm, count: int, a: nat, end: nat, sc: Scan) returns (r: Scan)
    requires HostVmOk(vm) && Going(vm, count, a, sc) && sc.start < end < U64_RANGE && end % PAGE_SIZE == 0
    ensures r == RoundOf(vm, count, end, sc) && Behind(vm, a, r)
    ensures r.ret == 0 ==> Going(vm, count, a, r) && sc.start < r.start
  {
    var i := SlotIndex(vm.slots, sc.start);
    if i == |vm.slots| {
      r := GapRound(vm, count, a, end, sc);
    } else {
      var s := vm.slots[i];
      var p := SlotPiece(vm, sc.w, s, sc.start);
      var stop := SlotWalked(vm, count, a, i, s, sc, p);
      if p.w.ctrl.tokens == [] {
        r := EmptySlotRound(vm, count, a, i, s, sc, p, stop);
      } else {
        r := FullSlotRound(vm, count, a, i, s, sc, p, stop);
      }
    }
  }

  /** A read of `count` bytes at the page boundary a, far enough from the end for one round. */
  predicate Begins(count: int, w: Walk, a: nat, end: nat) {
    && count > 0 && !LimitFails(LimitFor(count, [])) && w.ctrl.nextHva == 0
    && a % PAGE_SIZE == 0 && a < end < U64_RANGE && end % PAGE_SIZE == 0
  }

  lemma FirstGoing(vm: Vm, count: int, w: Walk, a: nat, end: nat)
    requires Begins(count, w, a, end)
    ensures Going(vm, count, a, First(count, w, a))
  {
    NothingSent(Shown(vm, a), a);
    EmptyItems();
  }

  lemma NextReports(vm: Vm, count: int, a: nat, end: nat, first: Scan, scans: seq<Scan>, k: nat, sc: Scan, r: Scan)
    requires HostVmOk(vm) && Scans(vm, count, end, first, scans) && k + 1 < |scans| && sc == scans[k] && r == scans[k + 1]
    requires sc.ret == 0 ==> Going(vm, count, a, sc)
    requires end < U64_RANGE && end % PAGE_SIZE == 0
    ensures r.ret == 0 ==> Going(vm, count, a, r)
    ensures Behind(vm, a, r)
  {
    assert StepAt(vm, count, end, scans, k);
    var r' := RoundReports(vm, count, a, end, sc);
  }

  /** Every state of a read is a head of a round, or a report, or both. */
  lemma {:induction false} ScansReport(vm: Vm, count: int, w: Walk, a: nat, end: nat, scans: seq<Scan>, k: nat)
    requires HostVmOk(vm) && Begins(count, w, a, end) && Scans(vm, count, end, First(count, w, a), scans) && k < |scans|
    ensures scans[k].ret == 0 ==> Going(vm, count, a, scans[k])
    ensures k > 0 ==> Behind(vm, a, scans[k])
  {
    if k == 0 {
      FirstGoing(vm, count, w, a, end);
    } else {
      ScansReport(vm, count, w, a, end, scans, k - 1);
      NextReports(vm, count, a, end, First(count, w, a), scans, k - 1, scans[k - 1], scans[k]);
    }
  }

  /** A round of a read. */
  lemma RoundAt(vm: Vm, count: int, w: Walk, a: nat, end: nat, scans: seq<Scan>, k: nat) returns (sc: Scan)
    requires HostVmOk(vm) && Begins(count, w, a, end) && Scans(vm, count, end, First(count, w, a), scans)
    requires k + 1 < |scans|
    ensures sc == scans[k] && Going(vm, count, a, sc) && sc.start < end && scans[k + 1] == RoundOf(vm, count, end, sc)
  {
    sc := scans[k];
    assert StepAt(vm, count, end, scans, k);
    ScansReport(vm, count, w, a, end, scans, k);
  }
}
