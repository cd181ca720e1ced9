/** Sorted lists of address ranges per process, and the sets of addresses they stand for. */
module RangeLists {

  /** One entry of rmap: the key (pid, start) and the size. */
  datatype Range = Range(pid: nat, start: nat, size: nat) {
    function End(): nat { start + size }
    predicate Has(p: nat, a: nat) { pid == p && start <= a < End() }
  }

  /** x lies before y and does not touch it. */
  predicate Apart(x: Range, y: Range) {
    x.pid < y.pid || (x.pid == y.pid && x.End() < y.start)
  }

  /** Ascending, disjoint, not adjacent, not empty. */
  predicate Canonical(rs: seq<Range>) {
    && (forall i :: 0 <= i < |rs| ==> rs[i].size > 0)
    && forall i, j :: 0 <= i < j < |rs| ==> Apart(rs[i], rs[j])
  }

  predicate Covers(rs: seq<Range>, pid: nat, a: nat) {
    exists i :: 0 <= i < |rs| && rs[i].Has(pid, a)
  }

  ghost predicate SameAddresses(rs: seq<Range>, qs: seq<Range>) {
    forall p: nat, a: nat :: Covers(rs, p, a) <==> Covers(qs, p, a)
  }

  // ----- A set of addresses has one canonical list -----

  lemma CoversTail(rs: seq<Range>, p: nat, a: nat)
    requires Canonical(rs) && rs != []
    ensures Covers(rs, p, a) <==> rs[0].Has(p, a) || Covers(rs[1..], p, a)
    ensures !(rs[0].Has(p, a) && Covers(rs[1..], p, a))
  {
    if Covers(rs[1..], p, a) {
      var i :| 0 <= i < |rs[1..]| && rs[1..][i].Has(p, a);
      assert rs[i + 1].Has(p, a) && Apart(rs[0], rs[i + 1]);
    }
    if Covers(rs, p, a) && !rs[0].Has(p, a) {
      var i :| 0 <= i < |rs| && rs[i].Has(p, a);
      assert rs[1..][i - 1].Has(p, a);
    }
  }

  /** The first range holds the lowest address. */
  lemma FirstIsLowest(rs: seq<Range>, p: nat, a: nat)
    requires Canonical(rs) && rs != [] && Covers(rs, p, a)
    ensures rs[0].pid < p || (rs[0].pid == p && rs[0].start <= a)
  {
    var i :| 0 <= i < |rs| && rs[i].Has(p, a);
    assert i > 0 ==> Apart(rs[0], rs[i]);
  }

  /** The address behind a range is free. */
  lemma FreeBehind(rs: seq<Range>, i: nat)
    requires Canonical(rs) && i < |rs|
    ensures !Covers(rs, rs[i].pid, rs[i].End())
  {
    forall j | 0 <= j < |rs| ensures !rs[j].Has(rs[i].pid, rs[i].End()) {
      assert j < i ==> Apart(rs[j], rs[i]);
      assert i < j ==> Apart(rs[i], rs[j]);
    }
  }

  lemma FirstStarts(rs: seq<Range>, qs: seq<Range>)
    requires Canonical(rs) && Canonical(qs) && rs != [] && qs != [] && SameAddresses(rs, qs)
    ensures rs[0].pid == qs[0].pid && rs[0].start == qs[0].start
  {
    assert rs[0].Has(rs[0].pid, rs[0].start) && Covers(qs, rs[0].pid, rs[0].start);
    assert qs[0].Has(qs[0].pid, qs[0].start) && Covers(rs, qs[0].pid, qs[0].start);
    FirstIsLowest(qs, rs[0].pid, rs[0].start);
    FirstIsLowest(rs, qs[0].pid, qs[0].start);
  }

  lemma FirstEnds(rs: seq<Range>, qs: seq<Range>)
    requires Canonical(rs) && Canonical(qs) && rs != [] && qs != [] && SameAddresses(rs, qs)
    requires rs[0].pid == qs[0].pid && rs[0].start == qs[0].start
    ensures rs[0].End() >= qs[0].End()
  {
    if rs[0].End() < qs[0].End() {
      assert qs[0].Has(qs[0].pid, rs[0].End());
      assert Covers(rs, rs[0].pid, rs[0].End());
      FreeBehind(rs, 0);
    }
  }

  lemma Inhabited(rs: seq<Range>)
    requires Canonical(rs) && rs != []
    ensures Covers(rs, rs[0].pid, rs[0].start)
  {
    assert rs[0].Has(rs[0].pid, rs[0].start);
  }

  /** The list is determined by the addresses it covers. */
  lemma {:induction false} CanonicalUnique(rs: seq<Range>, qs: seq<Range>)
    requires Canonical(rs) && Canonical(qs) && SameAddresses(rs, qs)
    ensures rs == qs
  {
    if rs == [] {
      if qs != [] {
        Inhabited(qs);
      }
    } else if qs == [] {
      Inhabited(rs);
    } else {
      FirstStarts(rs, qs);
      FirstEnds(rs, qs);
      FirstEnds(qs, rs);
      assert rs[0] == qs[0];
      forall p: nat, a: nat ensures Covers(rs[1..], p, a) <==> Covers(qs[1..], p, a) {
        CoversTail(rs, p, a);
        CoversTail(qs, p, a);
      }
      CanonicalUnique(rs[1..], qs[1..]);
    }
  }

  // ----- Inserting -----

  /** The range lies before [start, end] of the process and does not touch it. */
  predicate Before(r: Range, pid: nat, start: nat) { r.pid < pid || (r.pid == pid && r.End() < start) }

  predicate Behind(r: Range, pid: nat, end: nat) { r.pid > pid || (r.pid == pid && r.start > end) }

  /** rs[lo..hi] are the ranges that touch [start, end]. */
  predicate Touching(rs: seq<Range>, pid: nat, start: nat, end: nat, lo: nat, hi: nat) {
    && lo <= hi <= |rs|
    && (forall i :: 0 <= i < lo ==> Before(rs[i], pid, start))
    && (forall i :: lo <= i < hi ==> rs[i].pid == pid && rs[i].End() >= start && rs[i].start <= end)
    && (forall i :: hi <= i < |rs| ==> Behind(rs[i], pid, end))
  }

  /** The new range joined with those it touches. */
  predicate Joins(rs: seq<Range>, pid: nat, start: nat, end: nat, lo: nat, hi: nat, newStart: nat, newEnd: nat) {
    && Touching(rs, pid, start, end, lo, hi)
    && newStart == (if lo < hi && rs[lo].start < start then rs[lo].start else start)
    && newEnd == (if lo < hi && rs[hi - 1].End() > end then rs[hi - 1].End() else end)
  }

  function Replaced(rs: seq<Range>, lo: nat, hi: nat, r: Range): seq<Range>
    requires lo <= hi <= |rs|
  {
    rs[..lo] + [r] + rs[hi..]
  }

  lemma JoinedCanonical(rs: seq<Range>, pid: nat, start: nat, end: nat, lo: nat, hi: nat, newStart: nat, newEnd: nat)
    requires Canonical(rs) && start < end && Joins(rs, pid, start, end, lo, hi, newStart, newEnd)
    ensures Canonical(Replaced(rs, lo, hi, Range(pid, newStart, newEnd - newStart)))
  {
    var r := Range(pid, newStart, newEnd - newStart);
    var qs := Replaced(rs, lo, hi, r);
    forall i | 0 <= i < lo ensures Apart(rs[i], r) {
      assert lo < hi ==> Apart(rs[i], rs[lo]);
    }
    forall i | hi <= i < |rs| ensures Apart(r, rs[i]) {
      assert lo < hi ==> Apart(rs[hi - 1], rs[i]);
    }
    forall i, j | 0 <= i < j < |qs| ensures Apart(qs[i], qs[j]) {
      if i < lo && j > lo {
        assert qs[i] == rs[i] && qs[j] == rs[j - lo - 1 + hi];
      }
    }
  }

  /** The joined range covers the new addresses and those of the ranges it replaces. */
  lemma JoinedHas(rs: seq<Range>, pid: nat, start: nat, end: nat, lo: nat, hi: nat, newStart: nat, newEnd: nat, a: nat)
    requires Canonical(rs) && start < end && Joins(rs, pid, start, end, lo, hi, newStart, newEnd)
    ensures newStart <= a < newEnd <==> start <= a < end || exists i :: lo <= i < hi && rs[i].Has(pid, a)
  {
    if newStart <= a < start {
      assert rs[lo].Has(pid, a);
    }
    if end <= a < newEnd {
      assert rs[hi - 1].Has(pid, a);
    }
    forall i | lo <= i < hi && rs[i].Has(pid, a) ensures newStart <= a < newEnd {
      assert lo < i ==> Apart(rs[lo], rs[i]);
      assert i < hi - 1 ==> Apart(rs[i], rs[hi - 1]);
    }
  }

  lemma CoversReplaced(rs: seq<Range>, lo: nat, hi: nat, r: Range, p: nat, a: nat)
    requires lo <= hi <= |rs|
    ensures Covers(Replaced(rs, lo, hi, r), p, a)
            <==> r.Has(p, a) || exists i :: 0 <= i < |rs| && !(lo <= i < hi) && rs[i].Has(p, a)
  {
    var qs := Replaced(rs, lo, hi, r);
    assert qs[lo] == r;
    forall i | 0 <= i < |rs| && !(lo <= i < hi) && rs[i].Has(p, a) ensures Covers(qs, p, a) {
      assert qs[if i < lo then i else i - hi + lo + 1] == rs[i];
    }
    if Covers(qs, p, a) && !r.Has(p, a) {
      var i :| 0 <= i < |qs| && qs[i].Has(p, a);
      assert rs[if i < lo then i else i - lo - 1 + hi].Has(p, a);
    }
  }

  lemma JoinedCovers(rs: seq<Range>, pid: nat, start: nat, end: nat, lo: nat, hi: nat, newStart: nat, newEnd: nat,
                     p: nat, a: nat)
    requires Canonical(rs) && start < end && Joins(rs, pid, start, end, lo, hi, newStart, newEnd)
    ensures Covers(Replaced(rs, lo, hi, Range(pid, newStart, newEnd - newStart)), p, a)
            <==> Covers(rs, p, a) || (p == pid && start <= a < end)
  {
    var r := Range(pid, newStart, newEnd - newStart);
    JoinedHas(rs, pid, start, end, lo, hi, newStart, newEnd, a);
    CoversReplaced(rs, lo, hi, r, p, a);
    assert r.Has(p, a) <==> p == pid && newStart <= a < newEnd;
    assert forall i :: lo <= i < hi ==> rs[i].pid == pid;
  }
}
