/** AddressRangeFilter.cc: the addresses that are not to be migrated, as a sorted map of ranges. An
    iterator is the position of an entry, end() is the number of entries. */
module AddressRangeFilter {
  import opened RangeLists

  /** The key of r is at most (pid, addr). */
  predicate KeyAtMost(r: Range, pid: nat, addr: nat) { r.pid < pid || (r.pid == pid && r.start <= addr) }

  class AddressRangeFilter {
    var rmap: seq<Range>

    constructor ()
      ensures rmap == []
    {
      rmap := [];
    }

    method Clear()
      modifies this
      ensures rmap == []
    {
      rmap := [];
    }

    /** rmap.upper_bound. */
    method UpperBound(pid: nat, addr: nat) returns (u: nat)
      requires Canonical(rmap)
      ensures u <= |rmap|
      ensures forall i :: 0 <= i < u ==> KeyAtMost(rmap[i], pid, addr)
      ensures forall i :: u <= i < |rmap| ==> !KeyAtMost(rmap[i], pid, addr)
    {
      u := 0;
      while u < |rmap| && KeyAtMost(rmap[u], pid, addr)
        invariant u <= |rmap| && forall i :: 0 <= i < u ==> KeyAtMost(rmap[i], pid, addr)
      {
        u := u + 1;
      }
      assert forall i :: u < i < |rmap| ==> Apart(rmap[u], rmap[i]);
    }

    /** search_range: the entry that holds the address, the entry before it and the first one behind. */
    method SearchRange(pid: nat, addr: nat) returns (it: nat, lower: nat, upper: nat)
      requires Canonical(rmap)
      ensures upper <= |rmap| && it <= |rmap| && lower <= |rmap|
      ensures forall i :: 0 <= i < upper ==> KeyAtMost(rmap[i], pid, addr)
      ensures forall i :: upper <= i < |rmap| ==> !KeyAtMost(rmap[i], pid, addr)
      ensures it < |rmap| ==> it == upper - 1 && rmap[it].Has(pid, addr)
      ensures it == |rmap| ==> !Covers(rmap, pid, addr)
      ensures it == |rmap| && lower < |rmap| ==>
                lower == upper - 1 && rmap[lower].pid == pid && rmap[lower].End() <= addr
      ensures it == |rmap| && lower == |rmap| ==> forall i :: 0 <= i < upper ==> rmap[i].pid < pid
    {
      var end := |rmap|;
      it, lower, upper := end, end, end;
      if |rmap| == 0 {
        return;
      }
      upper := UpperBound(pid, addr);
      if upper == 0 {
        return;
      }
      it := upper - 1;
      Predecessor(upper, pid, addr);
      var r := rmap[it];
      if r.pid != pid {
        it := end;
        return;
      }
      if addr < r.start + r.size {
        lower := if it == 0 then end else it - 1;
        return;
      }
      lower := it;
      it := end;
    }

    /** Only the last entry with a key up to the address can hold it. */
    lemma Predecessor(upper: nat, pid: nat, addr: nat)
      requires Canonical(rmap) && 0 < upper <= |rmap|
      requires forall i :: 0 <= i < upper ==> KeyAtMost(rmap[i], pid, addr)
      requires forall i :: upper <= i < |rmap| ==> !KeyAtMost(rmap[i], pid, addr)
      ensures Covers(rmap, pid, addr) <==> rmap[upper - 1].Has(pid, addr)
      ensures rmap[upper - 1].pid < pid ==> forall i :: 0 <= i < upper ==> rmap[i].pid < pid
    {
      forall i | 0 <= i < |rmap| && i != upper - 1 ensures !rmap[i].Has(pid, addr) {
        assert i < upper - 1 ==> Apart(rmap[i], rmap[upper - 1]);
      }
      forall i | 0 <= i < upper ensures rmap[i].pid <= rmap[upper - 1].pid {
        assert i < upper - 1 ==> Apart(rmap[i], rmap[upper - 1]);
      }
    }

    /** search_address is membership. */
    method SearchAddress(pid: nat, addr: nat) returns (found: bool)
      requires Canonical(rmap)
      ensures found == Covers(rmap, pid, addr)
    {
      var it, lower, upper := SearchRange(pid, addr);
      found := it != |rmap|;
    }

    /** remove_ranges: the entries from lo up to hi, all inside the new range, are erased. */
    method RemoveRanges(rmStart: nat, rmEnd0: nat, pid: nat, newStart: nat, newEnd: nat, ghost lo: nat, ghost hi: nat)
      requires lo <= hi <= |rmap| && (rmStart == lo || rmStart == |rmap|)
      requires rmEnd0 == |rmap| || (lo < hi && rmEnd0 == hi - 1)
      requires forall i :: 0 <= i < |rmap| ==>
                 (lo <= i < hi <==> rmap[i].pid == pid && newStart <= rmap[i].start && newEnd >= rmap[i].End())
      modifies this
      ensures rmap == old(rmap)[..lo] + old(rmap)[hi..]
    {
      ghost var rs := rmap;
      var begin, rmEnd := rmStart, rmEnd0;
      if begin == |rmap| {
        begin := 0;
      }
      var it := begin;
      ghost var p: nat := begin;
      while it != |rmap| && it != rmEnd
        invariant p <= |rs| && rmap == Erased(rs, lo, hi, p) && it == (if p <= lo then p else if p <= hi then lo else lo + p - hi)
        invariant if rmEnd0 == |rs| then rmEnd == |rmap| else p <= rmEnd0 && rmEnd == rmEnd0 - (p - it)
        decreases |rs| - p
      {
        ErasedAt(rs, lo, hi, p, it);
        var r := rmap[it];
        if pid != r.pid {
          it := it + 1;
        } else if newStart <= r.start && newEnd >= r.start + r.size {
          rmap := rmap[..it] + rmap[it + 1..];
          rmEnd := rmEnd - 1;
        } else {
          it := it + 1;
        }
        p := p + 1;
      }
      ErasedAt(rs, lo, hi, p, it);
      if it != |rmap| {
        rmap := rmap[..it] + rmap[it + 1..];
      }
    }

    /** The first half of insert_range: where the new range starts, and the first entry it touches. */
    method FindStart(pid: nat, start: nat) returns (rmStart: nat, newStart: nat, ghost lo: nat)
      requires Canonical(rmap)
      ensures lo <= |rmap| && (rmStart == lo || rmStart == |rmap|)
      ensures forall i :: 0 <= i < lo ==> Before(rmap[i], pid, start)
      ensures forall i :: lo <= i < |rmap| ==> !Before(rmap[i], pid, start)
      ensures if lo < |rmap| && rmap[lo].pid == pid && rmap[lo].start < start then newStart == rmap[lo].start
              else newStart == start
    {
      var lower, upper;
      newStart := start;
      rmStart, lower, upper := SearchRange(pid, start);
      assert forall i, j :: 0 <= i < j < |rmap| ==> Apart(rmap[i], rmap[j]);
      if rmStart != |rmap| {
        lo := rmStart;
        newStart := rmap[rmStart].start;
      } else if lower != |rmap| {
        rmStart := lower;
        var r := rmap[rmStart];
        if pid == r.pid && r.start + r.size == start {
          lo := rmStart;
          newStart := r.start;
        } else {
          lo := rmStart + 1;
          rmStart := rmStart + 1;
        }
      } else {
        lo := upper;
      }
    }

    /** The second half: where the new range ends, and the entry behind the last one it touches. */
    method FindEnd(pid: nat, start: nat, size: nat) returns (rmEnd: nat, newEnd: nat, ghost hi: nat)
      requires Canonical(rmap) && size > 0
      ensures hi <= |rmap| && (rmEnd == |rmap| || (0 < hi && rmEnd == hi - 1))
      ensures rmEnd < |rmap| ==> rmap[rmEnd].pid == pid && rmap[rmEnd].End() >= start + size
      ensures forall i :: 0 <= i < hi ==> !Behind(rmap[i], pid, start + size)
      ensures forall i :: hi <= i < |rmap| ==> Behind(rmap[i], pid, start + size)
      ensures if 0 < hi && rmap[hi - 1].pid == pid && rmap[hi - 1].End() > start + size then newEnd == rmap[hi - 1].End()
              else newEnd == start + size
    {
      var lower, upper;
      newEnd := start + size;
      rmEnd, lower, upper := SearchRange(pid, start + size - 1);
      assert forall i, j :: 0 <= i < j < |rmap| ==> Apart(rmap[i], rmap[j]);
      hi := upper;
      if rmEnd != |rmap| {
        newEnd := rmap[rmEnd].start + rmap[rmEnd].size;
      } else {
        NotAcross(pid, start + size - 1, upper);
        if upper != |rmap| {
          var r := rmap[upper];
          if pid == r.pid && newEnd == r.start {
            hi := upper + 1;
            rmEnd := upper;
            newEnd := r.start + r.size;
          }
        }
      }
    }

    lemma NotAcross(pid: nat, last: nat, upper: nat)
      requires Canonical(rmap) && upper <= |rmap| && !Covers(rmap, pid, last)
      requires forall i :: 0 <= i < upper ==> KeyAtMost(rmap[i], pid, last)
      ensures forall i :: 0 <= i < upper && rmap[i].pid == pid ==> rmap[i].End() <= last
    {
      forall i | 0 <= i < upper && rmap[i].pid == pid ensures rmap[i].End() <= last {
        assert !rmap[i].Has(pid, last);
      }
    }

    /** insert_range: the map stays canonical and covers exactly the new addresses in addition. */
    method InsertRange(pid: nat, start: nat, size: nat)
      requires Canonical(rmap) && size > 0
      modifies this
      ensures Canonical(rmap)
      ensures forall p: nat, a: nat :: Covers(rmap, p, a) <==> Covers(old(rmap), p, a) || (p == pid && start <= a < start + size)
    {
      ghost var rs := rmap;
      var rmStart, newStart, rmEnd, newEnd;
      ghost var lo, hi;
      rmStart, newStart, lo := FindStart(pid, start);
      rmEnd, newEnd, hi := FindEnd(pid, start, size);
      EdgesJoin(rs, pid, start, start + size, lo, hi, newStart, newEnd, rmEnd);
      RemoveRanges(rmStart, rmEnd, pid, newStart, newEnd, lo, hi);
      rmap := InsertNewRange(rs, lo, hi, Range(pid, newStart, newEnd - newStart));
      JoinedCanonical(rs, pid, start, start + size, lo, hi, newStart, newEnd);
      forall p: nat, a: nat
        ensures Covers(rmap, p, a) <==> Covers(rs, p, a) || (p == pid && start <= a < start + size)
      {
        JoinedCovers(rs, pid, start, start + size, lo, hi, newStart, newEnd, p, a);
      }
    }

    /** insert_new_range: rmap.insert puts the entry where its key belongs. */
    method InsertNewRange(ghost rs: seq<Range>, ghost lo: nat, ghost hi: nat, r: Range) returns (qs: seq<Range>)
      requires lo <= hi <= |rs| && rmap == rs[..lo] + rs[hi..]
      requires forall i :: 0 <= i < lo ==> KeyAtMost(rs[i], r.pid, r.start) && (rs[i].pid, rs[i].start) != (r.pid, r.start)
      requires forall i :: hi <= i < |rs| ==> !KeyAtMost(rs[i], r.pid, r.start)
      ensures qs == Replaced(rs, lo, hi, r)
    {
      var u := 0;
      while u < |rmap| && KeyAtMost(rmap[u], r.pid, r.start)
        invariant u <= lo
      {
        u := u + 1;
      }
      assert u == lo;
      qs := rmap[..u] + [r] + rmap[u..];
    }
  }

  /** What is left after the first p entries were looked at. */
  function Erased(rs: seq<Range>, lo: nat, hi: nat, p: nat): seq<Range>
    requires lo <= hi <= |rs| && p <= |rs|
  {
    if p <= lo then rs else if p <= hi then rs[..lo] + rs[p..] else rs[..lo] + rs[hi..]
  }

  lemma ErasedAt(rs: seq<Range>, lo: nat, hi: nat, p: nat, it: nat)
    requires lo <= hi <= |rs| && p <= |rs|
    requires it == if p <= lo then p else if p <= hi then lo else lo + p - hi
    ensures var qs := Erased(rs, lo, hi, p);
            && it <= |qs| && |rs| - p == |qs| - it
            && (p < |rs| ==> it < |qs| && qs[it] == rs[p])
            && (lo <= p < hi ==> qs[..it] + qs[it + 1..] == Erased(rs, lo, hi, p + 1))
            && (p >= hi ==> qs == rs[..lo] + rs[hi..])
  {
    if p == lo {
      assert rs == rs[..lo] + rs[p..];
    }
  }

  /** The two edges found by insert_range fit together. */
  lemma EdgesJoin(rs: seq<Range>, pid: nat, start: nat, end: nat, lo: nat, hi: nat, newStart: nat, newEnd: nat, rmEnd: nat)
    requires Canonical(rs) && start < end && lo <= |rs| && hi <= |rs|
    requires forall i :: 0 <= i < lo ==> Before(rs[i], pid, start)
    requires forall i :: lo <= i < |rs| ==> !Before(rs[i], pid, start)
    requires forall i :: 0 <= i < hi ==> !Behind(rs[i], pid, end)
    requires forall i :: hi <= i < |rs| ==> Behind(rs[i], pid, end)
    requires if lo < |rs| && rs[lo].pid == pid && rs[lo].start < start then newStart == rs[lo].start else newStart == start
    requires if 0 < hi && rs[hi - 1].pid == pid && rs[hi - 1].End() > end then newEnd == rs[hi - 1].End() else newEnd == end
    requires rmEnd == |rs| || (0 < hi && rmEnd == hi - 1 && rs[rmEnd].pid == pid && rs[rmEnd].End() >= end)
    ensures Joins(rs, pid, start, end, lo, hi, newStart, newEnd) && newStart < newEnd
    ensures rmEnd == |rs| || (lo < hi && rmEnd == hi - 1)
    ensures forall i :: 0 <= i < |rs| ==>
              (lo <= i < hi <==> rs[i].pid == pid && newStart <= rs[i].start && newEnd >= rs[i].End())
    ensures forall i :: 0 <= i < lo ==> KeyAtMost(rs[i], pid, newStart) && (rs[i].pid, rs[i].start) != (pid, newStart)
    ensures forall i :: hi <= i < |rs| ==> !KeyAtMost(rs[i], pid, newStart)
  {
    assert lo > 0 ==> !Behind(rs[lo - 1], pid, end);
  }

  predicate Inserted(ins: seq<Range>, p: nat, a: nat) {
    exists i :: 0 <= i < |ins| && ins[i].Has(p, a)
  }

  /** The map is what a run of insertions into an empty filter leaves. */
  ghost predicate FilterOf(rs: seq<Range>, ins: seq<Range>) {
    Canonical(rs) && forall p: nat, a: nat :: Covers(rs, p, a) <==> Inserted(ins, p, a)
  }

  /** reset_arfilter of pmu-refs/hmd.cc: the configured ranges, one after the other. */
  method ResetArfilter(f: AddressRangeFilter, ins: seq<Range>)
    requires forall i :: 0 <= i < |ins| ==> ins[i].size > 0
    modifies f
    ensures FilterOf(f.rmap, ins)
  {
    f.Clear();
    for i := 0 to |ins|
      invariant FilterOf(f.rmap, ins[..i])
    {
      ghost var was := f.rmap;
      f.InsertRange(ins[i].pid, ins[i].start, ins[i].size);
      forall p: nat, a: nat ensures Covers(f.rmap, p, a) <==> Inserted(ins[..i + 1], p, a) {
        InsertedNext(ins, i, p, a);
        assert Covers(was, p, a) <==> Inserted(ins[..i], p, a);
      }
    }
    assert ins[..|ins|] == ins;
  }

  lemma InsertedNext(ins: seq<Range>, i: nat, p: nat, a: nat)
    requires i < |ins|
    ensures Inserted(ins[..i + 1], p, a) <==> Inserted(ins[..i], p, a) || ins[i].Has(p, a)
  {
    assert ins[..i + 1][i] == ins[i];
    if Inserted(ins[..i], p, a) {
      var k :| 0 <= k < i && ins[..i][k].Has(p, a);
      assert ins[..i + 1][k].Has(p, a);
    }
    if Inserted(ins[..i + 1], p, a) && !ins[i].Has(p, a) {
      var k :| 0 <= k < i + 1 && ins[..i + 1][k].Has(p, a);
      assert ins[..i][k].Has(p, a);
    }
  }

  /** The map depends on the set of inserted ranges only, not on their order or repetition. */
  lemma OrderDoesNotMatter(rs: seq<Range>, qs: seq<Range>, ins: seq<Range>, jns: seq<Range>)
    requires FilterOf(rs, ins) && FilterOf(qs, jns) && forall r: Range :: r in ins <==> r in jns
    ensures rs == qs
  {
    forall p: nat, a: nat ensures Covers(rs, p, a) <==> Covers(qs, p, a) {
      InsertedIn(ins, jns, p, a);
      InsertedIn(jns, ins, p, a);
    }
    CanonicalUnique(rs, qs);
  }

  lemma InsertedIn(ins: seq<Range>, jns: seq<Range>, p: nat, a: nat)
    requires forall r: Range :: r in ins ==> r in jns
    ensures Inserted(ins, p, a) ==> Inserted(jns, p, a)
  {
    if Inserted(ins, p, a) {
      var i :| 0 <= i < |ins| && ins[i].Has(p, a);
      assert ins[i] in ins;
      var j :| 0 <= j < |jns| && jns[j] == ins[i];
      assert jns[j].Has(p, a);
    }
  }
}
