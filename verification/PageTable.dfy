/** A page table of up to five levels as the range walkers see it: 512 entries a table, level 0
    holding 4 KB entries, level 1 2 MB, level 2 1 GB, levels 3 and 4 directories only. */
module PageTable {
  import opened Arith

  const ENTRIES := 512

  datatype Node = Hole | Page | Table(kids: seq<Node>)

  function BlockSize(level: nat): (n: nat)
    ensures n > 0
  {
    if level == 0 then 4096 else ENTRIES * BlockSize(level - 1)
  }

  predicate WellFormed(level: nat, kids: seq<Node>)
    decreases level
  {
    && |kids| == ENTRIES
    && forall i :: 0 <= i < ENTRIES ==>
         match kids[i]
         case Hole => true
         case Page => level <= 2
         case Table(sub) => level > 0 && WellFormed(level - 1, sub)
  }

  function Index(level: nat, addr: nat): (i: nat)
    ensures i < ENTRIES
  {
    (addr / BlockSize(level)) % ENTRIES
  }

  function BlockStart(level: nat, addr: nat): (s: nat)
    ensures s <= addr < s + BlockSize(level) && s % BlockSize(level) == 0
  {
    StartIsMultiple(addr, BlockSize(level));
    addr - addr % BlockSize(level)
  }

  function BlockEnd(level: nat, addr: nat): nat {
    BlockStart(level, addr) + BlockSize(level)
  }

  /** pXd_addr_end. */
  function AddrEnd(level: nat, addr: nat, end: nat): (next: nat)
    requires addr < end
    ensures addr < next <= end
  {
    if BlockEnd(level, addr) < end then BlockEnd(level, addr) else end
  }

  /** The entry that decides an address: a page, or the highest empty entry on its path. */
  datatype AnyBlock = Block(level: nat, isPage: bool)

  type Block = b: AnyBlock | b.isPage ==> b.level <= 2 witness Block(0, false)

  function Lookup(level: nat, kids: seq<Node>, addr: nat): (b: Block)
    requires WellFormed(level, kids)
    ensures b.level <= level
    decreases level
  {
    match kids[Index(level, addr)]
    case Hole => Block(level, false)
    case Page => Block(level, true)
    case Table(sub) => Lookup(level - 1, sub, addr)
  }

  lemma StartIsMultiple(addr: nat, size: nat)
    requires size > 0
    ensures (addr - addr % size) % size == 0
  {
    assert addr - addr % size == size * (addr / size);
    MulMod(size, addr / size);
  }

  lemma DivDiv(x: nat, b: nat)
    requires b > 0
    ensures x / (ENTRIES * b) == (x / b) / ENTRIES
  {
    var q, r := x / b, x % b;
    var q2, r2 := q / ENTRIES, q % ENTRIES;
    calc {
      x;
      q * b + r;
      (q2 * ENTRIES + r2) * b + r;
      { Distribute(q2 * ENTRIES, -r2, b); }
      q2 * ENTRIES * b + r2 * b + r;
      q2 * (ENTRIES * b) + (r2 * b + r);
    }
    Distribute(ENTRIES, r2, b);
    MulAtLeast(ENTRIES - r2, b);
    DivModUnique(x, ENTRIES * b, q2, r2 * b + r);
  }

  /** Addresses in one block of a level are in one block of every higher level. */
  lemma {:induction false} SameBlockAbove(low: nat, high: nat, x: nat, y: nat)
    requires low <= high && x / BlockSize(low) == y / BlockSize(low)
    ensures x / BlockSize(high) == y / BlockSize(high)
  {
    if low < high {
      SameBlockAbove(low, high - 1, x, y);
      DivDiv(x, BlockSize(high - 1));
      DivDiv(y, BlockSize(high - 1));
    }
  }

  lemma SameBlock(level: nat, x: nat, y: nat)
    requires BlockStart(level, x) <= y < BlockEnd(level, x)
    ensures x / BlockSize(level) == y / BlockSize(level) && BlockStart(level, y) == BlockStart(level, x)
  {
    var s, size := BlockStart(level, x), BlockSize(level);
    assert s == (s / size) * size;
    DivModUnique(x, size, s / size, x - s);
    DivModUnique(y, size, s / size, y - s);
  }

  /** A boundary of a block is a boundary of every lower level. */
  lemma {:induction false} BoundaryBelow(low: nat, high: nat, s: nat)
    requires low <= high && s % BlockSize(high) == 0
    ensures s % BlockSize(low) == 0
  {
    if low < high {
      var b := BlockSize(high - 1);
      assert s == (ENTRIES * b) * (s / (ENTRIES * b));
      assert s == b * (ENTRIES * (s / (ENTRIES * b)));
      MulMod(b, ENTRIES * (s / (ENTRIES * b)));
      BoundaryBelow(low, high - 1, s);
    }
  }

  /** A lower block that starts below a boundary ends at or below it. */
  lemma BlockStopsAt(low: nat, high: nat, addr: nat, s: nat)
    requires low <= high && s % BlockSize(high) == 0 && addr < s
    ensures BlockEnd(low, addr) <= s
  {
    BoundaryBelow(low, high, s);
    var b := BlockStart(low, addr);
    if b + BlockSize(low) > s {
      ModSub(b, s, BlockSize(low));
      SameMultiple(b, s, BlockSize(low));
      assert false;
    }
  }

  lemma NextAligned(level: nat, addr: nat, end: nat)
    requires addr < end && end % BlockSize(0) == 0
    ensures var next := AddrEnd(level, addr, end);
            next % BlockSize(0) == 0 && (next == end || next % BlockSize(level) == 0)
  {
    var size := BlockSize(level);
    MulMod(size, 1);
    ModAdd(BlockStart(level, addr), size, size);
    BoundaryBelow(0, level, BlockEnd(level, addr));
  }

  /** A step inside one table goes to the table's next entry. */
  lemma NextIndex(level: nat, addr: nat, next: nat, end: nat)
    requires addr < next < end <= BlockEnd(level + 1, addr) && next == BlockEnd(level, addr)
    ensures Index(level, next) == Index(level, addr) + 1
    ensures BlockEnd(level + 1, next) == BlockEnd(level + 1, addr)
  {
    var b := BlockSize(level);
    var q := addr / b;
    assert next == (q + 1) * b by { Distribute(q, -1, b); }
    DivModUnique(next, b, q + 1, 0);
    SameBlock(level + 1, addr, next);
    DivDiv(addr, b);
    DivDiv(next, b);
    assert (q + 1) / ENTRIES == q / ENTRIES;
  }

  /** The whole block is decided by one entry. */
  lemma {:induction false} LookupConstant(level: nat, kids: seq<Node>, x: nat, y: nat)
    requires WellFormed(level, kids)
    requires var l := Lookup(level, kids, x).level; BlockStart(l, x) <= y < BlockEnd(l, x)
    ensures Lookup(level, kids, y) == Lookup(level, kids, x)
    decreases level
  {
    var l := Lookup(level, kids, x).level;
    SameBlock(l, x, y);
    SameBlockAbove(l, level, x, y);
    match kids[Index(level, x)]
    case Hole =>
    case Page =>
    case Table(sub) => LookupConstant(level - 1, sub, x, y);
  }

  /** How a walk sees an address space: what decides each address. */
  type View = nat -> Block

  function ViewOf(level: nat, kids: seq<Node>): View
    requires WellFormed(level, kids)
  {
    (addr: nat) => Lookup(level, kids, addr)
  }

  /** Every block is decided as a whole. */
  ghost predicate Tiled(v: View) {
    forall x: nat, y: nat {:trigger v(x), v(y)} :: BlockStart(v(x).level, x) <= y < BlockEnd(v(x).level, x) ==> v(y) == v(x)
  }

  lemma TableIsTiled(level: nat, kids: seq<Node>)
    requires WellFormed(level, kids)
    ensures Tiled(ViewOf(level, kids))
  {
    var v := ViewOf(level, kids);
    forall x: nat, y: nat | BlockStart(v(x).level, x) <= y < BlockEnd(v(x).level, x) ensures v(y) == v(x) {
      LookupConstant(level, kids, x, y);
    }
  }
}
