/** The TLB generation protocol of kernel_module/tlb_flush.c.

    `FlushInfo`, `Decide` and the class `CpuTlb` follow one flush handler; module `TlbProtocol`
    interleaves handlers, requests, page-table changes and TLB fills of a whole machine. */
module TlbFlush {
  import opened Arith

  const TLB_FLUSH_ALL: nat := 0xFFFF_FFFF_FFFF_FFFF
  const SINGLE_PAGE_FLUSH_CEILING: nat := 33
  const WORD: nat := 0x1_0000_0000_0000_0000

  /** A translation of [va, va + size) as the page table holds it. */
  datatype Leaf = Leaf(va: nat, size: nat, frame: nat) {
    predicate Contains(addr: nat) { va <= addr < va + size }
  }

  /** A cached translation. `fillGen` is a history value: the generation of the address space
      when the entry was loaded. No decision of the protocol reads it. */
  datatype Entry = Entry(leaf: Leaf, fillGen: nat)

  datatype FlushInfo = FlushInfo(start: nat, end: nat, stride: nat, newGen: nat)

  datatype Decision = UpToDate | Partial | Full

  /** Some byte of the leaf lies in [start, end). */
  predicate Overlaps(leaf: Leaf, start: nat, end: nat) {
    Max(leaf.va, start) < Min(leaf.va + leaf.size, end)
  }

  /** The translations a request asks every CPU to drop. */
  predicate Covers(f: FlushInfo, leaf: Leaf) {
    f.end == TLB_FLUSH_ALL || Overlaps(leaf, f.start, f.end)
  }

  /** What the requester must know of the mapped page sizes: no page in the range is smaller than
      the stride or straddles it. */
  predicate StrideFits(f: FlushInfo, leaf: Leaf) {
    f.end != TLB_FLUSH_ALL && Overlaps(leaf, f.start, f.end) ==>
      f.stride > 0 && f.start % f.stride == 0 && leaf.va % f.stride == 0 && leaf.size % f.stride == 0
  }

  /** The request as published: a range above the ceiling becomes a full flush. The difference is
      taken on unsigned 64-bit words. */
  function MakeInfo(start: nat, end: nat, strideShift: nat, newGen: nat): FlushInfo {
    if end != TLB_FLUSH_ALL && ((end - start) % WORD) / Pow2(strideShift) <= SINGLE_PAGE_FLUSH_CEILING
    then FlushInfo(start, end, Pow2(strideShift), newGen)
    else FlushInfo(0, TLB_FLUSH_ALL, Pow2(strideShift), newGen)
  }

  /** Widening the range never loses a translation the caller asked to drop. */
  lemma MakeInfoCovers(start: nat, end: nat, strideShift: nat, newGen: nat, leaf: Leaf)
    requires end == TLB_FLUSH_ALL || Overlaps(leaf, start, end)
    ensures Covers(MakeInfo(start, end, strideShift, newGen), leaf)
  {
  }

  lemma NoLess(a: nat, b: nat, m: nat)
    requires b <= a
    ensures b * m <= a * m
  {
    if a > b {
      MulAtLeast(a - b, m);
      Distribute(a, b, m);
    }
  }

  /** Only ranges of at most the ceiling stay partial, and they stay as they are; every other request
      flushes everything. A range that ends before it starts counts as the wrapped difference. */
  lemma PartialExactly(start: nat, end: nat, strideShift: nat, newGen: nat)
    requires start < WORD && end < WORD
    ensures var f := MakeInfo(start, end, strideShift, newGen);
            var length := if start <= end then end - start else WORD + end - start;
            && f.newGen == newGen && f.stride == Pow2(strideShift)
            && (f.end != TLB_FLUSH_ALL <==> end != TLB_FLUSH_ALL && length < 34 * Pow2(strideShift))
            && (f.end != TLB_FLUSH_ALL ==> f.start == start && f.end == end)
  {
    var length := if start <= end then end - start else WORD + end - start;
    assert (end - start) % WORD == length by {
      DivModUnique(end - start, WORD, if start <= end then 0 else -1, length);
    }
    var q, r := length / Pow2(strideShift), length % Pow2(strideShift);
    assert length == q * Pow2(strideShift) + r;
    if q <= 33 {
      MulAtLeast(34 - q, Pow2(strideShift));
      Distribute(34, q, Pow2(strideShift));
    } else {
      NoLess(q, 34, Pow2(strideShift));
    }
  }

  function Decide(f: FlushInfo, localGen: nat, mmGen: nat): Decision {
    if localGen == mmGen then UpToDate
    else if f.end != TLB_FLUSH_ALL && f.newGen == localGen + 1 && f.newGen == mmGen then Partial
    else Full
  }

  /** Dropping the translations of one address. */
  function FlushOneUser(tlb: set<Entry>, addr: nat): set<Entry> {
    set e | e in tlb && !e.leaf.Contains(addr)
  }

  function Uncovered(tlb: set<Entry>, f: FlushInfo): set<Entry> {
    set e | e in tlb && !Covers(f, e.leaf)
  }

  /** The entries a handler leaves when nothing runs beside it. */
  function Handled(tlb: set<Entry>, localGen: nat, f: FlushInfo, mmGen: nat): set<Entry> {
    match Decide(f, localGen, mmGen)
    case UpToDate => tlb
    case Partial => Uncovered(tlb, f)
    case Full => {}
  }

  /** The leaf holds an address of [start, end). */
  ghost predicate Holds(leaf: Leaf, start: nat, end: nat) {
    exists addr: nat :: start <= addr < end && leaf.Contains(addr)
  }

  lemma OverlapsExactly(leaf: Leaf, start: nat, end: nat)
    ensures Overlaps(leaf, start, end) <==> Holds(leaf, start, end)
  {
    if Overlaps(leaf, start, end) {
      assert leaf.Contains(Max(leaf.va, start));
    }
  }

  /** No handler flushes more than it has to: one that is up to date keeps everything, and one that
      has missed nothing but this request keeps exactly the entries that hold none of its addresses.
      One that has missed another request, or was asked for everything, keeps nothing. */
  lemma KeptExactly(tlb: set<Entry>, localGen: nat, f: FlushInfo, mmGen: nat, e: Entry)
    requires localGen <= mmGen && f.newGen <= mmGen
    ensures e in Handled(tlb, localGen, f, mmGen) <==>
            e in tlb && (localGen < mmGen ==>
              localGen + 1 == f.newGen == mmGen && f.end != TLB_FLUSH_ALL && !Holds(e.leaf, f.start, f.end))
  {
    OverlapsExactly(e.leaf, f.start, f.end);
  }

  /** One loop pass: an entry that meets [start, addr + stride) but not [start, addr) holds `addr`,
      so flushing `addr` extends the flushed part of the range by one stride. */
  lemma OneStride(f: FlushInfo, leaf: Leaf, addr: nat)
    requires f.stride > 0 && f.start <= addr < f.end && f.end != TLB_FLUSH_ALL
    requires StrideFits(f, leaf) && (f.start % f.stride == 0 ==> addr % f.stride == 0)
    requires !Overlaps(leaf, f.start, addr) && !leaf.Contains(addr)
    ensures !Overlaps(leaf, f.start, Min(addr + f.stride, f.end))
  {
    if Overlaps(leaf, f.start, Min(addr + f.stride, f.end)) {
      var m := Max(leaf.va, f.start);
      assert addr <= m;
      SameMultiple(addr, m, f.stride);
      assert false;
    }
  }

  /** One CPU's TLB and the generation it has caught up to. */
  class CpuTlb {
    var tlb: set<Entry>
    var tlbGen: nat

    constructor (entries: set<Entry>, gen: nat)
      ensures tlb == entries && tlbGen == gen
    {
      tlb, tlbGen := entries, gen;
    }

    /** The handler with nothing running beside it. */
    method FlushTlbFuncCommon(f: FlushInfo, mmGen: nat)
      requires tlbGen <= mmGen && f.newGen <= mmGen && f.stride > 0
      requires forall e :: e in tlb ==> StrideFits(f, e.leaf)
      modifies this
      ensures tlb == Handled(old(tlb), old(tlbGen), f, mmGen)
      ensures tlbGen == mmGen
    {
      if tlbGen == mmGen {
        return;
      }
      if f.end != TLB_FLUSH_ALL && f.newGen == tlbGen + 1 && f.newGen == mmGen {
        var addr := f.start;
        while addr < f.end
          invariant f.start <= addr && (f.start % f.stride == 0 ==> addr % f.stride == 0)
          invariant tlb <= old(tlb) && tlbGen == old(tlbGen)
          invariant forall e :: e in old(tlb) && e !in tlb ==> Covers(f, e.leaf)
          invariant forall e :: e in tlb ==> !Overlaps(e.leaf, f.start, Min(addr, f.end))
          decreases f.end - addr
        {
          forall e | e in tlb && !e.leaf.Contains(addr)
            ensures !Overlaps(e.leaf, f.start, Min(addr + f.stride, f.end))
          {
            OneStride(f, e.leaf, addr);
          }
          tlb := FlushOneUser(tlb, addr);
          if f.start % f.stride == 0 { MulMod(f.stride, 1); ModAdd(addr, f.stride, f.stride); }
          addr := addr + f.stride;
        }
      } else {
        tlb := {};
      }
      tlbGen := mmGen;
    }
  }
}
