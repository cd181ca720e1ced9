/** A table of pmu-refs/cmsk.cc whose sort does not begin with its live items: clearing the hash leaves
    the items where they are. */
module StaleTable {
  import opened Arith
  import opened CountMin
  import opened HotHash
  import opened Achash
  import opened Cmsk
  import opened HotSort

  const FIRST := Key(0x1000, 1)
  const OFTEN := Key(0x2000, 1)
  const NEW := Key(0x3000, 1)

  lemma TouchedTwice()
    ensures Touched(Touched(Touched([], FIRST, 1), OFTEN, 1), OFTEN, 1) == [Entry(FIRST, 1), Entry(OFTEN, 2)]
    ensures Touched([], NEW, 1) == [Entry(NEW, 1)]
  {
    assert Touched([], FIRST, 1) == [Entry(FIRST, 1)];
    FindNone([Entry(FIRST, 1)], OFTEN);
    assert Touched([Entry(FIRST, 1)], OFTEN, 1) == [Entry(FIRST, 1), Entry(OFTEN, 1)];
    FindAt([Entry(FIRST, 1), Entry(OFTEN, 1)], OFTEN, 1);
  }

  /** Three samples of two addresses. */
  method FirstInterval(c: Cmsk)
    requires c.Valid() && c.achash.hashMode && c.achash.entries == [] && c.cms.total == 0 && c.achash.size >= 4
    modifies c`seen, c.cms`total, c.cms`aged, c.cms`counted, c.cms.matrix
    modifies c.achash`len, c.achash`samples, c.achash`entries, c.achash.items, c.achash.buckets, c.achash.hist
    ensures c.Valid() && c.achash.entries == [Entry(FIRST, 1), Entry(OFTEN, 2)]
    requires forall i :: 0 <= i < c.achash.size ==> c.achash.items[i].count == 0
    ensures c.achash.items[1].count == 2 && forall i :: 2 <= i < c.achash.size ==> c.achash.items[i].count == 0
  {
    ghost var items := c.achash.items[..];
    TouchedTwice();
    var full := c.Update(FIRST);
    assert c.achash.entries == [Entry(FIRST, 1)] && c.achash.items[..][1..][1..] == items[1..][1..];
    full := c.Update(OFTEN);
    assert c.achash.entries == [Entry(FIRST, 1), Entry(OFTEN, 1)];
    full := c.Update(OFTEN);
    assert ItemOk(c.achash.items[..][1], c.achash.entries, c.achash.hb, 1);
    forall i | 2 <= i < |items| ensures c.achash.items[i].count == 0 {
      assert c.achash.items[..][2..][i - 2] == items[2..][i - 2];
    }
  }

  /** The only live item counts 1, an item behind it 2, and the others nothing. */
  predicate Stale(items: seq<Item>) {
    && |items| >= 2 && items[0].count == 1 && items[1].count == 2
    && forall i :: 2 <= i < |items| ==> items[i].count == 0
  }

  /** From cmsk_init on, in hash mode: two addresses are sampled, the second twice, the filter is aged, and
      one sample of a new address is taken. The second address's item stays behind the only live one. */
  method ReachStale(halving: bool, depth: nat, widthOrder: nat, hash: (Key, nat) -> nat, threshold: nat, sizeOrder: nat,
                    histMax: nat) returns (c: Cmsk)
    requires depth >= 1 && widthOrder >= 1 && 4 <= Pow2(sizeOrder) <= SIZE_MAX && histMax > 0
    ensures c.Valid() && c.achash.len == 1 && c.achash.samples == 1 && Stale(c.achash.items[..])
  {
    c := new Cmsk(halving, depth, widthOrder, hash, true, threshold, sizeOrder, histMax);
    FirstInterval(c);
    ghost var items := c.achash.items[..];
    c.Age();
    SecondInterval(c);
    BehindFirst(items, c.achash.items[..]);
  }

  /** One sample after the ageing. */
  method SecondInterval(c: Cmsk)
    requires c.Valid() && c.achash.hashMode && c.achash.entries == [] && c.cms.total < CMS_COUNT_MAX && c.achash.size >= 4
    modifies c`seen, c.cms`total, c.cms`aged, c.cms`counted, c.cms.matrix
    modifies c.achash`len, c.achash`samples, c.achash`entries, c.achash.items, c.achash.buckets, c.achash.hist
    ensures c.Valid() && c.achash.len == 1 && c.achash.samples == 1 && c.achash.items[0].count == 1
    ensures c.achash.items[..][1..] == old(c.achash.items[..])[1..]
  {
    TouchedTwice();
    var full := c.Update(NEW);
    assert ItemOk(c.achash.items[..][0], c.achash.entries, c.achash.hb, 0);
    OneSample(c.achash.entries);
  }

  lemma BehindFirst(was: seq<Item>, now: seq<Item>)
    requires |was| == |now| >= 2 && now[1..] == was[1..] && now[0].count == 1 && was[1].count == 2
    requires forall i :: 2 <= i < |was| ==> was[i].count == 0
    ensures Stale(now)
  {
    forall i | 1 <= i < |now| ensures now[i] == was[i] {
      assert now[1..][i - 1] == was[1..][i - 1];
    }
  }

  lemma OneSample(es: seq<Entry>)
    requires es == [Entry(NEW, 1)]
    ensures Samples(es) == 1
  {
    assert es[..0] == [] && Sum([], Count()) == 0;
  }

  /** No descending order of such a table begins with the live item. With a threshold of 3 cmsk_sort cuts
      the stale item, which was never counted since the clear, and the one sample left wraps around. */
  lemma StaleSpoils(items: seq<Item>, sorted: seq<Item>)
    requires Stale(items) && SortOf(sorted, items)
    ensures |sorted| == |items| && multiset(sorted[..1]) != multiset(items[..1]) && sorted[0].count == 2
    ensures (1 - Between(sorted, 0, 1)) % HotSort.U32_RANGE == HotSort.U32_RANGE - 1
  {
    StaleOnTop(items, sorted, 1, 0, 1);
    assert items[1] in multiset(sorted);
    var j := IndexOf(sorted, items[1]);
    assert sorted[0] in multiset(items);
    var i := IndexOf(items, sorted[0]);
    assert sorted[..1] == [sorted[0]] && [sorted[0]][..0] == [] && sorted[..0] == [];
    assert Total(sorted[..1]) == 2 && Total(sorted[..0]) == 0;
  }

  lemma {:induction false} TotalIsSamples(items: seq<Item>, es: seq<Entry>)
    requires |items| == |es| && forall n :: 0 <= n < |es| ==> items[n].count == es[n].count
    ensures Total(items) == Samples(es)
  {
    if es != [] {
      TotalIsSamples(items[..|es| - 1], es[..|es| - 1]);
    }
  }

  /** The samples the hash keeps account of are the sum of the counts of its live items: what cmsk_sort
      takes the cut items off. */
  lemma SamplesAreTotal(a: Achash)
    requires a.Valid()
    ensures a.samples == Total(a.items[..a.len])
  {
    forall n | 0 <= n < a.len ensures a.items[..a.len][n].count == a.entries[n].count {
      assert ItemOk(a.items[..][n], a.entries, a.hb, n);
    }
    TotalIsSamples(a.items[..a.len], a.entries);
  }
}
