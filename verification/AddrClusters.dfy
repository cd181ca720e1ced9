/** How AddrSequence stores ascending addresses: clusters of one-byte distances over shared buffers
    of fixed size (AddrSequence.h, AddrSequence.cc), on values. */
module AddrClusters {
  import opened Arith

  type byte = x: int | 0 <= x < 256

  const MAX_ITEM_COUNT := 0x4000
  const MAX_DELTA_DIST := 255

  const LOC_DRAM: Loc := 0
  const LOC_PMEM: Loc := 1
  const LOC_UNKNOWN: Loc := 2

  type Loc = l: int | 0 <= l < 3

  /** DeltaPayload. */
  datatype Item = Item(delta: byte, payload: byte, nid: int, loc: Loc)

  /** AddrCluster: `size` items from `off` on in the buffer number `buf`. */
  datatype Cluster = Cluster(start: nat, size: nat, buf: nat, off: nat)

  /** walk_iterator: `cur` is the cluster its cached pointers were taken from. */
  datatype Iter = Iter(cluster: nat, end: nat, deltaSum: nat, deltaIndex: nat, cur: nat)

  /** What the sequence is for: an address with what is known of it. */
  datatype Entry = Entry(addr: nat, payload: byte, nid: int, loc: Loc)

  predicate Sorted(es: seq<Entry>) {
    forall i, j :: 0 <= i < j < |es| ==> es[i].addr < es[j].addr
  }

  /** Different slots hold different entries. */
  lemma SlotsApart(b: nat, o: nat, b': nat, o': nat)
    requires o < MAX_ITEM_COUNT && o' < MAX_ITEM_COUNT && b * MAX_ITEM_COUNT + o == b' * MAX_ITEM_COUNT + o'
    ensures b == b' && o == o'
  {
    DivModUnique(b * MAX_ITEM_COUNT + o, MAX_ITEM_COUNT, b, o);
    DivModUnique(b * MAX_ITEM_COUNT + o, MAX_ITEM_COUNT, b', o');
  }

  /** The address an entry's distance is counted from. */
  function Origin(es: seq<Entry>, first: nat, n: nat): nat
    requires first <= n < |es|
  {
    if n == first then es[n].addr else es[n - 1].addr
  }

  predicate DeltaOk(pagesize: nat, first: nat, items: seq<Item>, es: seq<Entry>, n: nat)
    requires first <= n < |es| == |items|
  {
    Origin(es, first, n) + items[n].delta * pagesize == es[n].addr
  }

  /** A cluster holds the entries from `first` up to `next`; the n-th entry of the sequence is item
      o of buffer b where n == b * MAX_ITEM_COUNT + o. */
  predicate Holds(pagesize: nat, c: Cluster, first: nat, next: nat, items: seq<Item>, es: seq<Entry>)
    requires |items| == |es|
  {
    && first < next == first + c.size <= |es|
    && c.buf * MAX_ITEM_COUNT + c.off == first && c.off + c.size <= MAX_ITEM_COUNT
    && c.start == es[first].addr
    && forall n :: first <= n < next ==> DeltaOk(pagesize, first, items, es, n)
  }

  /** Cluster k holds the entries from firsts[k] up to firsts[k + 1]. */
  predicate ClusterOk(pagesize: nat, cs: seq<Cluster>, firsts: seq<nat>, items: seq<Item>, es: seq<Entry>, k: nat)
    requires k < |cs| && |firsts| == |cs| + 1 && |items| == |es|
  {
    Holds(pagesize, cs[k], firsts[k], firsts[k + 1], items, es)
  }

  predicate SameData(i: Item, e: Entry) {
    i.payload == e.payload && i.nid == e.nid && i.loc == e.loc
  }

  predicate DataOk(items: seq<Item>, es: seq<Entry>) {
    |items| == |es| && forall n :: 0 <= n < |es| ==> SameData(items[n], es[n])
  }

  /** The clusters and items represent the entries. */
  predicate Represents(pagesize: nat, cs: seq<Cluster>, firsts: seq<nat>, items: seq<Item>, es: seq<Entry>) {
    && DataOk(items, es) && |firsts| == |cs| + 1 && firsts[0] == 0 && firsts[|cs|] == |es|
    && (forall k :: 0 <= k < |cs| ==> ClusterOk(pagesize, cs, firsts, items, es, k))
    && Sorted(es)
  }

  lemma NothingRepresents(pagesize: nat)
    ensures Represents(pagesize, [], [0], [], [])
  {
  }

  /** The iterator stands at entry n. */
  predicate IterAt(pagesize: nat, cs: seq<Cluster>, firsts: seq<nat>, es: seq<Entry>, it: Iter, n: nat) {
    && it.cluster <= it.end == |cs| && |firsts| == |cs| + 1 && n == firsts[it.cluster] + it.deltaIndex <= |es|
    && (it.cluster == it.end ==> it.deltaIndex == 0)
    && (it.cluster < it.end ==>
          && it.deltaIndex < cs[it.cluster].size && it.cur == it.cluster && n < |es|
          && cs[it.cluster].start + it.deltaSum * pagesize == Origin(es, firsts[it.cluster], n))
  }

  /** reset_iterator. */
  function ResetIter(cs: seq<Cluster>, k: nat, was: Iter): Iter {
    Iter(k, |cs|, 0, 0, if cs == [] then was.cur else k)
  }

  lemma ResetAt(pagesize: nat, cs: seq<Cluster>, firsts: seq<nat>, items: seq<Item>, es: seq<Entry>, k: nat, was: Iter)
    requires Represents(pagesize, cs, firsts, items, es) && k <= |cs| && (k == |cs| ==> cs == [])
    ensures IterAt(pagesize, cs, firsts, es, ResetIter(cs, k, was), firsts[k])
  {
    if k < |cs| {
      assert ClusterOk(pagesize, cs, firsts, items, es, k);
    }
  }

  /** What an iterator reads. */
  lemma ReadAt(pagesize: nat, cs: seq<Cluster>, firsts: seq<nat>, items: seq<Item>, es: seq<Entry>, it: Iter, n: nat)
    requires Represents(pagesize, cs, firsts, items, es) && IterAt(pagesize, cs, firsts, es, it, n)
    ensures it.cluster == it.end <==> n == |es|
    ensures it.cluster < it.end ==>
              && it.cur == it.cluster < |cs| && n < |es|
              && n == cs[it.cur].buf * MAX_ITEM_COUNT + cs[it.cur].off + it.deltaIndex && it.deltaIndex < cs[it.cur].size
              && cs[it.cur].off + cs[it.cur].size <= MAX_ITEM_COUNT
              && cs[it.cur].start + (it.deltaSum + items[n].delta) * pagesize == es[n].addr
              && SameData(items[n], es[n])
  {
    if it.cluster < it.end {
      assert ClusterOk(pagesize, cs, firsts, items, es, it.cluster);
      AddrAt(pagesize, cs[it.cluster], firsts[it.cluster], firsts[it.cluster + 1], items, es, it.deltaSum, n);
    }
  }

  lemma AddrAt(pagesize: nat, c: Cluster, first: nat, next: nat, items: seq<Item>, es: seq<Entry>, sum: nat, n: nat)
    requires |items| == |es| && Holds(pagesize, c, first, next, items, es) && first <= n < next
    requires c.start + sum * pagesize == Origin(es, first, n)
    ensures c.start + (sum + items[n].delta) * pagesize == es[n].addr
  {
    assert DeltaOk(pagesize, first, items, es, n);
    var d: int := items[n].delta;
    Distribute(sum, -d, pagesize);
  }

  /** do_walk_move_next. */
  function MoveNext(cs: seq<Cluster>, it: Iter, delta: byte): Iter
    requires it.cur < |cs|
  {
    if it.deltaIndex + 1 >= cs[it.cur].size then
      Iter(it.cluster + 1, it.end, 0, 0, if it.cluster + 1 < it.end then it.cluster + 1 else it.cur)
    else
      it.(deltaSum := it.deltaSum + delta, deltaIndex := it.deltaIndex + 1)
  }

  lemma MovedAt(pagesize: nat, cs: seq<Cluster>, firsts: seq<nat>, items: seq<Item>, es: seq<Entry>, it: Iter, n: nat)
    requires Represents(pagesize, cs, firsts, items, es) && IterAt(pagesize, cs, firsts, es, it, n) && n < |es|
    ensures it.cur < |cs| && IterAt(pagesize, cs, firsts, es, MoveNext(cs, it, items[n].delta), n + 1)
  {
    ReadAt(pagesize, cs, firsts, items, es, it, n);
    assert ClusterOk(pagesize, cs, firsts, items, es, it.cur);
    if it.deltaIndex + 1 < cs[it.cluster].size {
      assert Origin(es, firsts[it.cluster], n + 1) == es[n].addr;
    } else if it.cluster + 1 < it.end {
      assert ClusterOk(pagesize, cs, firsts, items, es, it.cluster + 1);
    }
  }

  // ----- Changes -----

  /** What a cluster holds depends on the addresses and distances of its entries only. */
  lemma HoldsKept(pagesize: nat, c: Cluster, first: nat, next: nat, items: seq<Item>, es: seq<Entry>,
                  items': seq<Item>, es': seq<Entry>)
    requires |items| == |es| <= |items'| == |es'| && Holds(pagesize, c, first, next, items, es)
    requires forall n :: first <= n < next ==> items'[n].delta == items[n].delta && es'[n].addr == es[n].addr
    ensures Holds(pagesize, c, first, next, items', es')
  {
    forall n | first <= n < next ensures DeltaOk(pagesize, first, items', es', n) {
      assert DeltaOk(pagesize, first, items, es, n);
    }
  }

  /** A changed payload, node or location leaves the structure as it is. */
  lemma UpdateKeeps(pagesize: nat, cs: seq<Cluster>, firsts: seq<nat>, items: seq<Item>, es: seq<Entry>, n: nat,
                    i: Item, e: Entry)
    requires Represents(pagesize, cs, firsts, items, es) && n < |es|
    requires i.delta == items[n].delta && e.addr == es[n].addr && SameData(i, e)
    ensures Represents(pagesize, cs, firsts, items[n := i], es[n := e])
  {
    var items', es' := items[n := i], es[n := e];
    forall k | 0 <= k < |cs| ensures ClusterOk(pagesize, cs, firsts, items', es', k) {
      assert ClusterOk(pagesize, cs, firsts, items, es, k);
      HoldsKept(pagesize, cs[k], firsts[k], firsts[k + 1], items, es, items', es');
    }
  }

  lemma UpdateKeepsIter(pagesize: nat, cs: seq<Cluster>, firsts: seq<nat>, es: seq<Entry>, it: Iter, m: nat, n: nat, e: Entry)
    requires IterAt(pagesize, cs, firsts, es, it, m) && n < |es| && e.addr == es[n].addr
    ensures IterAt(pagesize, cs, firsts, es[n := e], it, m)
  {
  }

  /** A cluster with one more entry at its end. */
  lemma HoldsMore(pagesize: nat, c: Cluster, first: nat, items: seq<Item>, es: seq<Entry>, i: Item, e: Entry)
    requires |items| == |es| && Holds(pagesize, c, first, |es|, items, es) && c.off + c.size < MAX_ITEM_COUNT
    requires e.addr == es[|es| - 1].addr + i.delta * pagesize
    ensures Holds(pagesize, c.(size := c.size + 1), first, |es| + 1, items + [i], es + [e])
  {
    HoldsKept(pagesize, c, first, |es|, items, es, items + [i], es + [e]);
    forall n | first <= n < |es| + 1 ensures DeltaOk(pagesize, first, items + [i], es + [e], n) {
    }
  }

  lemma SortedSnoc(es: seq<Entry>, e: Entry)
    requires Sorted(es) && (es != [] ==> es[|es| - 1].addr < e.addr)
    ensures Sorted(es + [e])
  {
  }

  /** A new address in the last cluster. */
  lemma MergeKeeps(pagesize: nat, cs: seq<Cluster>, firsts: seq<nat>, items: seq<Item>, es: seq<Entry>, i: Item, e: Entry)
    requires Represents(pagesize, cs, firsts, items, es) && cs != []
    requires cs[|cs| - 1].off + cs[|cs| - 1].size < MAX_ITEM_COUNT
    requires es != [] && es[|es| - 1].addr < e.addr == es[|es| - 1].addr + i.delta * pagesize && SameData(i, e)
    ensures var last := cs[|cs| - 1];
            Represents(pagesize, cs[|cs| - 1 := last.(size := last.size + 1)], firsts[|cs| := |es| + 1], items + [i], es + [e])
  {
    var l := |cs| - 1;
    var cs', firsts', items', es' :=
      cs[l := cs[l].(size := cs[l].size + 1)], firsts[|cs| := |es| + 1], items + [i], es + [e];
    SortedSnoc(es, e);
    assert ClusterOk(pagesize, cs, firsts, items, es, l);
    HoldsMore(pagesize, cs[l], firsts[l], items, es, i, e);
    forall k | 0 <= k < |cs'| ensures ClusterOk(pagesize, cs', firsts', items', es', k) {
      if k < l {
        assert ClusterOk(pagesize, cs, firsts, items, es, k);
        HoldsKept(pagesize, cs[k], firsts[k], firsts[k + 1], items, es, items', es');
      }
    }
  }

  /** A new address in a cluster of its own. */
  lemma CreateKeeps(pagesize: nat, cs: seq<Cluster>, firsts: seq<nat>, items: seq<Item>, es: seq<Entry>, buf: nat,
                    off: nat, i: Item, e: Entry)
    requires Represents(pagesize, cs, firsts, items, es)
    requires buf * MAX_ITEM_COUNT + off == |es| && off < MAX_ITEM_COUNT
    requires (es != [] ==> es[|es| - 1].addr < e.addr) && i.delta == 0 && SameData(i, e)
    ensures Represents(pagesize, cs + [Cluster(e.addr, 1, buf, off)], firsts + [|es| + 1], items + [i], es + [e])
  {
    var c := Cluster(e.addr, 1, buf, off);
    var cs', firsts', items', es' := cs + [c], firsts + [|es| + 1], items + [i], es + [e];
    SortedSnoc(es, e);
    assert DeltaOk(pagesize, |es|, items', es', |es|);
    assert Holds(pagesize, c, |es|, |es| + 1, items', es');
    forall k | 0 <= k < |cs'| ensures ClusterOk(pagesize, cs', firsts', items', es', k) {
      if k < |cs| {
        assert ClusterOk(pagesize, cs, firsts, items, es, k);
        HoldsKept(pagesize, cs[k], firsts[k], firsts[k + 1], items, es, items', es');
      }
    }
  }

  // ----- How many clusters there are -----

  /** b lies at most 255 whole pages behind a. */
  predicate Near(a: nat, b: nat, pagesize: nat)
    requires pagesize > 0
  {
    a < b && (b - a) % pagesize == 0 && (b - a) / pagesize <= 255
  }

  /** Entry n cannot join the entry before it: a buffer of 16384 items was full, or it is not near. */
  predicate MustSplit(pagesize: nat, es: seq<Entry>, n: nat)
    requires pagesize > 0
  {
    0 < n < |es| && (n % 16384 == 0 || !Near(es[n - 1].addr, es[n].addr, pagesize))
  }

  /** No cluster begins where the last one could have gone on. */
  predicate Compact(pagesize: nat, firsts: seq<nat>, es: seq<Entry>)
    requires pagesize > 0
  {
    forall k :: 0 < k < |firsts| - 1 ==> MustSplit(pagesize, es, firsts[k])
  }

  /** The last cluster, or a new one where there must be one, gets one more entry. */
  lemma CompactAppend(pagesize: nat, firsts: seq<nat>, es: seq<Entry>, e: Entry, firsts': seq<nat>, opens: bool)
    requires pagesize > 0 && Compact(pagesize, firsts, es) && firsts != [] && firsts[|firsts| - 1] == |es|
    requires firsts' == if opens then firsts + [|es| + 1] else firsts[|firsts| - 1 := |es| + 1]
    requires opens && |firsts| > 1 ==> MustSplit(pagesize, es + [e], |es|)
    ensures Compact(pagesize, firsts', es + [e])
  {
    forall k | 0 < k < |firsts'| - 1 ensures MustSplit(pagesize, es + [e], firsts'[k]) {
      if k < |firsts| - 1 {
        assert MustSplit(pagesize, es, firsts[k]);
      }
    }
  }

  /** The clusters depend on the addresses only. */
  lemma CompactSame(pagesize: nat, firsts: seq<nat>, es: seq<Entry>, es': seq<Entry>)
    requires pagesize > 0 && Compact(pagesize, firsts, es)
    requires |es'| == |es| && forall k :: 0 <= k < |es| ==> es'[k].addr == es[k].addr
    ensures Compact(pagesize, firsts, es')
  {
    forall k | 0 < k < |firsts| - 1 ensures MustSplit(pagesize, es', firsts[k]) {
      assert MustSplit(pagesize, es, firsts[k]);
    }
  }
}
