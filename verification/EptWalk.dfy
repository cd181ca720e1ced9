/** The range walk of kernel_module/ept_idle.c over one memory slot, on values: the entries are
    visited in address order and handed to eic_add_page until it refuses one. */
module EptWalk {
  import opened IdleStream
  import opened EptEncoder
  import PT = PageTable

  /** `accessed` holds the base addresses of the page entries whose accessed bit is set. */
  datatype Walk = Walk(ctrl: Ctrl, accessed: set<nat>)

  datatype Walked = Walked(w: Walk, full: bool)

  /** Empty entries of the two lowest levels and all pages are reported, other holes skipped. */
  predicate Reportable(b: PT.Block) { b.isPage || b.level <= 1 }

  function EntryType(b: PT.Block, accessed: bool): ItemType
    requires Reportable(b)
  {
    if !b.isPage then (if b.level == 0 then PTE_HOLE else PMD_HOLE)
    else if b.level == 0 then (if accessed then PTE_ACCESSED else PTE_IDLE)
    else if b.level == 1 then (if accessed then PMD_ACCESSED else PMD_IDLE)
    else PUD_PRESENT
  }

  /** The accessed bit is tested and cleared before the page is offered to the stream. */
  function Visit(w: Walk, b: PT.Block, addr: nat, next: nat): Walked {
    if Reportable(b) then
      var base := PT.BlockStart(b.level, addr);
      var r := AddPage(w.ctrl, addr, next, EntryType(b, base in w.accessed));
      Walked(Walk(r.ctrl, if b.isPage && b.level <= 1 then w.accessed - {base} else w.accessed), r.full)
    else
      Walked(w.(ctrl := w.ctrl.(restartGpa := next)), false)
  }

  /** The walk of [addr, end) until the stream refuses an entry. */
  function Flat(v: PT.View, w: Walk, addr: nat, end: nat): Walked
    decreases end - addr
  {
    if addr >= end then Walked(w, false)
    else
      var next := PT.AddrEnd(v(addr).level, addr, end);
      var r := Visit(w, v(addr), addr, next);
      if r.full then r else Flat(v, r.w, next, end)
  }

  function Then(v: PT.View, r: Walked, addr: nat, end: nat): Walked {
    if r.full then r else Flat(v, r.w, addr, end)
  }

  /** Cutting the range at a boundary of the blocks below a level changes nothing. */
  lemma {:induction false} FlatSplit(v: PT.View, level: nat, w: Walk, addr: nat, mid: nat, end: nat)
    requires forall x: nat :: v(x).level <= level
    requires addr <= mid <= end && (mid == end || mid % PT.BlockSize(level) == 0)
    ensures Flat(v, w, addr, end) == Then(v, Flat(v, w, addr, mid), mid, end)
    decreases mid - addr
  {
    if addr < mid {
      if mid < end {
        PT.BlockStopsAt(v(addr).level, level, addr, mid);
      }
      var next := PT.AddrEnd(v(addr).level, addr, mid);
      assert next == PT.AddrEnd(v(addr).level, addr, end);
      var r := Visit(w, v(addr), addr, next);
      assert Flat(v, w, addr, end) == Then(v, r, next, end);
      assert Flat(v, w, addr, mid) == Then(v, r, next, mid);
      if !r.full {
        FlatSplit(v, level, r.w, next, mid, end);
      }
    }
  }

  /** The walk depends on the view of its range only. */
  lemma {:induction false} FlatSame(v: PT.View, u: PT.View, w: Walk, addr: nat, end: nat)
    requires forall x: nat :: addr <= x < end ==> v(x) == u(x)
    ensures Flat(v, w, addr, end) == Flat(u, w, addr, end)
    decreases end - addr
  {
    if addr < end {
      var next := PT.AddrEnd(v(addr).level, addr, end);
      var r := Visit(w, v(addr), addr, next);
      if !r.full {
        FlatSame(v, u, r.w, next, end);
      }
    }
  }

  /** Inside one directory entry the walk is the walk of the lower table. */
  lemma FlatSub(level: nat, kids: seq<PT.Node>, sub: seq<PT.Node>, w: Walk, addr: nat, end: nat)
    requires level > 0 && PT.WellFormed(level, kids) && PT.WellFormed(level - 1, sub)
    requires kids[PT.Index(level, addr)] == PT.Table(sub) && end <= PT.BlockEnd(level, addr)
    ensures Flat(PT.ViewOf(level, kids), w, addr, end) == Flat(PT.ViewOf(level - 1, sub), w, addr, end)
  {
    var v, u := PT.ViewOf(level, kids), PT.ViewOf(level - 1, sub);
    forall x: nat | addr <= x < end ensures v(x) == u(x) {
      PT.SameBlock(level, addr, x);
    }
    FlatSame(v, u, w, addr, end);
  }

  /** A page or an empty entry is one visit. */
  lemma FlatEntry(v: PT.View, w: Walk, addr: nat, end: nat)
    requires addr < end <= PT.BlockEnd(v(addr).level, addr)
    ensures Flat(v, w, addr, end) == Visit(w, v(addr), addr, end)
  {
    var r := Visit(w, v(addr), addr, end);
    assert PT.AddrEnd(v(addr).level, addr, end) == end;
    assert Flat(v, r.w, end, end) == Walked(r.w, false);
  }

  lemma RoundUpAtEnd(b: PT.Block, addr: nat, end: nat, accessed: bool)
    requires addr < end && Reportable(b)
    ensures var next, t := PT.AddrEnd(b.level, addr, end), EntryType(b, accessed);
            RoundUp(next, t) == PT.BlockEnd(b.level, addr) >= next && (next < end ==> RoundUp(next, t) == next)
  {
    var t := EntryType(b, accessed);
    assert PT.BlockSize(0) == PAGE_SIZE && PT.BlockSize(1) == PMD_SIZE && PT.BlockSize(2) == PUD_SIZE;
    RoundUpInBlock(addr, PT.AddrEnd(b.level, addr, end), t);
  }

  /** A walk either lists nothing, or its cursor ends up inside the range or at the restart point. */
  predicate MovedTo(w: Walk, r: Walked, addr: nat, end: nat) {
    var c, d := w.ctrl, r.w.ctrl;
    (d.tokens == c.tokens && d.nextHva == c.nextHva)
    || (d.tokens != [] && addr < d.nextHva - c.gpaToHva
        && (d.nextHva - c.gpaToHva < end || (!r.full && d.nextHva - c.gpaToHva == d.restartGpa)))
  }

  lemma VisitMoves(v: PT.View, w: Walk, addr: nat, end: nat)
    requires addr < end
    ensures var next := PT.AddrEnd(v(addr).level, addr, end);
            var r := Visit(w, v(addr), addr, next);
            MovedTo(w, r, addr, end) && (next < end ==> MovedTo(w, r.(full := true), addr, end))
            && r.w.ctrl.gpaToHva == w.ctrl.gpaToHva
  {
    var b, next := v(addr), PT.AddrEnd(v(addr).level, addr, end);
    if Reportable(b) {
      RoundUpAtEnd(b, addr, end, PT.BlockStart(b.level, addr) in w.accessed);
    }
  }

  lemma {:induction false} FlatMoves(v: PT.View, w: Walk, addr: nat, end: nat)
    requires addr < end
    ensures MovedTo(w, Flat(v, w, addr, end), addr, end)
    decreases end - addr
  {
    var next := PT.AddrEnd(v(addr).level, addr, end);
    var r := Visit(w, v(addr), addr, next);
    VisitMoves(v, w, addr, end);
    if !r.full && next < end {
      FlatMoves(v, r.w, next, end);
    } else {
      assert !r.full ==> Flat(v, r.w, next, end) == Walked(r.w, false);
    }
  }

  /** The walk of a slot leaves the slot's offset and the buffer's limit alone. */
  lemma {:induction false} FlatKeeps(v: PT.View, w: Walk, addr: nat, end: nat)
    ensures Flat(v, w, addr, end).w.ctrl.gpaToHva == w.ctrl.gpaToHva
    ensures Flat(v, w, addr, end).w.ctrl.pieReadMax == w.ctrl.pieReadMax
    ensures Flat(v, w, addr, end).w.accessed <= w.accessed
    decreases end - addr
  {
    if addr < end {
      var next := PT.AddrEnd(v(addr).level, addr, end);
      var r := Visit(w, v(addr), addr, next);
      if !r.full {
        FlatKeeps(v, r.w, next, end);
      }
    }
  }
}
