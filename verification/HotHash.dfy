/** The address/count hash of pmu-refs/cmsk.cc on values: chains through an array of items. */
module HotHash {
  import opened CountMin

  datatype Entry = Entry(key: Key, count: nat)

  /** achash_item: `next` is the number, from 1 on, of the next item of the chain, 0 at its end. */
  datatype Item = Item(addr: nat, pid: nat, next: nat, count: nat)

  /** The bucket of a key. */
  type Bucketing = Key -> nat

  /** The first item at or behind `from` in bucket b, or the number of items. */
  function FirstFrom(es: seq<Entry>, hb: Bucketing, b: nat, from: nat): (n: nat)
    requires from <= |es|
    ensures from <= n <= |es|
    ensures n < |es| ==> hb(es[n].key) == b
    ensures forall i :: from <= i < n ==> hb(es[i].key) != b
    decreases |es| - from
  {
    if from == |es| || hb(es[from].key) == b then from else FirstFrom(es, hb, b, from + 1)
  }

  /** The link to the first item at or behind `from` in bucket b. */
  function LinkFrom(es: seq<Entry>, hb: Bucketing, b: nat, from: nat): nat
    requires from <= |es|
  {
    var n := FirstFrom(es, hb, b, from);
    if n == |es| then 0 else n + 1
  }

  predicate Unique(es: seq<Entry>) {
    forall i, j :: 0 <= i < j < |es| ==> es[i].key != es[j].key
  }

  predicate ItemOk(it: Item, es: seq<Entry>, hb: Bucketing, n: nat)
    requires n < |es|
  {
    && Key(it.addr, it.pid) == es[n].key && it.count == es[n].count
    && it.next == LinkFrom(es, hb, hb(es[n].key), n + 1)
  }

  /** The items up to |es| and the buckets form the chains of the entries: each chain goes through
      the items of its bucket in ascending order. */
  predicate Chained(items: seq<Item>, buckets: seq<nat>, es: seq<Entry>, hb: Bucketing) {
    && |es| <= |items|
    && (forall n :: 0 <= n < |es| ==> ItemOk(items[n], es, hb, n))
    && (forall b :: 0 <= b < |buckets| ==> buckets[b] == LinkFrom(es, hb, b, 0))
  }

  /** The item of a key, or the number of items. */
  function Find(es: seq<Entry>, k: Key): (n: nat)
    ensures n <= |es|
    ensures n < |es| ==> es[n].key == k
    ensures forall i :: 0 <= i < n ==> es[i].key != k
  {
    if es == [] then 0 else if es[0].key == k then 0 else 1 + Find(es[1..], k)
  }

  lemma FindAt(es: seq<Entry>, k: Key, n: nat)
    requires Unique(es) && n < |es| && es[n].key == k
    ensures Find(es, k) == n
  {
    var m := Find(es, k);
  }

  lemma FindNone(es: seq<Entry>, k: Key)
    requires forall i :: 0 <= i < |es| ==> es[i].key != k
    ensures Find(es, k) == |es|
  {
  }

  /** What achash_update makes of the entries. */
  function Touched(es: seq<Entry>, k: Key, initial: nat): seq<Entry> {
    var n := Find(es, k);
    if n < |es| then es[n := es[n].(count := es[n].count + 1)] else es + [Entry(k, initial)]
  }

  /** The stored count of a key, if it is in the hash. */
  function Stored(es: seq<Entry>, k: Key): (r: Maybe)
    ensures r.Some? <==> exists n :: 0 <= n < |es| && es[n].key == k
  {
    var n := Find(es, k);
    if n < |es| then Some(es[n].count) else None
  }

  datatype Maybe = None | Some(count: nat)

  lemma StoredTouched(es: seq<Entry>, k: Key, initial: nat, x: Key)
    requires Unique(es)
    ensures Unique(Touched(es, k, initial))
    ensures x != k ==> Stored(Touched(es, k, initial), x) == Stored(es, x)
    ensures Stored(Touched(es, k, initial), k)
            == if Stored(es, k) == None then Some(initial) else Some(Stored(es, k).count + 1)
  {
    var es' := Touched(es, k, initial);
    var n := Find(es, k);
    assert n < |es| ==> forall i :: 0 <= i < |es| ==> es'[i].key == es[i].key;
    FindAt(es', k, n);
    var m := Find(es, x);
    if x != k {
      if m < |es| {
        assert es'[m] == es[m];
        FindAt(es', x, m);
      } else {
        FindNone(es', x);
      }
    }
  }

  lemma UniqueSnoc(es: seq<Entry>, e: Entry)
    requires Unique(es) && Find(es, e.key) == |es|
    ensures Unique(es + [e])
  {
  }

  lemma UniqueCounted(es: seq<Entry>, n: nat, count: nat)
    requires Unique(es) && n < |es|
    ensures Unique(es[n := es[n].(count := count)])
  {
  }

  // ----- Changes -----

  lemma FirstSameKeys(es: seq<Entry>, es': seq<Entry>, hb: Bucketing, b: nat, from: nat)
    requires |es'| == |es| && from <= |es| && forall i :: 0 <= i < |es| ==> es'[i].key == es[i].key
    ensures FirstFrom(es', hb, b, from) == FirstFrom(es, hb, b, from)
  {
    var n, n' := FirstFrom(es, hb, b, from), FirstFrom(es', hb, b, from);
  }

  /** Counting an item up leaves the chains as they are. */
  lemma CountKeeps(items: seq<Item>, buckets: seq<nat>, es: seq<Entry>, hb: Bucketing, n: nat, count: nat)
    requires Chained(items, buckets, es, hb) && n < |es|
    ensures Chained(items[n := items[n].(count := count)], buckets, es[n := es[n].(count := count)], hb)
  {
    var items', es' := items[n := items[n].(count := count)], es[n := es[n].(count := count)];
    forall m | 0 <= m < |es'| ensures ItemOk(items'[m], es', hb, m) {
      assert ItemOk(items[m], es, hb, m);
      FirstSameKeys(es, es', hb, hb(es[m].key), m + 1);
    }
    forall b | 0 <= b < |buckets| ensures buckets[b] == LinkFrom(es', hb, b, 0) {
      FirstSameKeys(es, es', hb, b, 0);
    }
  }

  /** A new last entry ends every search in its bucket that found nothing. */
  lemma FirstSnoc(es: seq<Entry>, e: Entry, hb: Bucketing, b: nat, from: nat)
    requires from <= |es|
    ensures LinkFrom(es, hb, b, from) != 0 ==> LinkFrom(es + [e], hb, b, from) == LinkFrom(es, hb, b, from)
    ensures LinkFrom(es, hb, b, from) == 0 ==>
              LinkFrom(es + [e], hb, b, from) == if hb(e.key) == b then |es| + 1 else 0
  {
    var es' := es + [e];
    var n, n' := FirstFrom(es, hb, b, from), FirstFrom(es', hb, b, from);
    assert forall i :: 0 <= i < |es| ==> es'[i] == es[i];
    if n < |es| {
      assert n' <= n;
    } else {
      assert es'[|es|] == e;
    }
  }

  /** The last item of a chain. */
  predicate IsLast(es: seq<Entry>, hb: Bucketing, b: nat, last: nat) {
    last < |es| && hb(es[last].key) == b && LinkFrom(es, hb, b, last + 1) == 0
  }

  lemma OneLast(es: seq<Entry>, hb: Bucketing, b: nat, last: nat, m: nat)
    requires IsLast(es, hb, b, last) && IsLast(es, hb, b, m)
    ensures m == last
  {
  }

  /** An entry whose bucket was empty. */
  lemma NewChain(items: seq<Item>, buckets: seq<nat>, es: seq<Entry>, hb: Bucketing, e: Entry, it: Item)
    requires Chained(items, buckets, es, hb) && |es| < |items|
    requires hb(e.key) < |buckets| && buckets[hb(e.key)] == 0
    requires it == Item(e.key.addr, e.key.pid, 0, e.count)
    ensures Chained(items[|es| := it], buckets[hb(e.key) := |es| + 1], es + [e], hb)
  {
    var items', buckets', es' := items[|es| := it], buckets[hb(e.key) := |es| + 1], es + [e];
    forall n | 0 <= n < |es'| ensures ItemOk(items'[n], es', hb, n) {
      if n < |es| {
        assert ItemOk(items[n], es, hb, n);
        FirstSnoc(es, e, hb, hb(es[n].key), n + 1);
        NotInEmpty(es, hb, hb(e.key), n);
      }
    }
    forall b | 0 <= b < |buckets'| ensures buckets'[b] == LinkFrom(es', hb, b, 0) {
      FirstSnoc(es, e, hb, b, 0);
    }
  }

  lemma NotInEmpty(es: seq<Entry>, hb: Bucketing, b: nat, n: nat)
    requires LinkFrom(es, hb, b, 0) == 0 && n < |es|
    ensures hb(es[n].key) != b
  {
  }

  /** An entry linked behind the last item of its bucket. */
  lemma LongerChain(items: seq<Item>, buckets: seq<nat>, es: seq<Entry>, hb: Bucketing, e: Entry, it: Item, last: nat)
    requires Chained(items, buckets, es, hb) && |es| < |items| && IsLast(es, hb, hb(e.key), last)
    requires it == Item(e.key.addr, e.key.pid, 0, e.count)
    ensures Chained(items[|es| := it][last := items[last].(next := |es| + 1)], buckets, es + [e], hb)
  {
    var items', es' := items[|es| := it][last := items[last].(next := |es| + 1)], es + [e];
    forall n | 0 <= n < |es'| ensures ItemOk(items'[n], es', hb, n) {
      if n < |es| {
        assert ItemOk(items[n], es, hb, n);
        FirstSnoc(es, e, hb, hb(es[n].key), n + 1);
        if hb(es[n].key) == hb(e.key) && items[n].next == 0 {
          OneLast(es, hb, hb(e.key), last, n);
        }
      }
    }
    forall b | 0 <= b < |buckets| ensures buckets[b] == LinkFrom(es', hb, b, 0) {
      FirstSnoc(es, e, hb, b, 0);
      if b == hb(e.key) {
        assert FirstFrom(es, hb, b, 0) <= last;
      }
    }
  }

  // ----- Sums -----

  /** The weights of the entries, added up. */
  function Sum(es: seq<Entry>, w: Entry -> nat): nat {
    if es == [] then 0 else Sum(es[..|es| - 1], w) + w(es[|es| - 1])
  }

  lemma SumSnoc(es: seq<Entry>, e: Entry, w: Entry -> nat)
    ensures Sum(es + [e], w) == Sum(es, w) + w(e)
  {
    assert (es + [e])[..|es|] == es;
  }

  lemma {:induction false} SumUpdate(es: seq<Entry>, n: nat, e: Entry, w: Entry -> nat)
    requires n < |es|
    ensures Sum(es[n := e], w) + w(es[n]) == Sum(es, w) + w(e)
  {
    var es' := es[n := e];
    if n == |es| - 1 {
      assert es'[..n] == es[..n];
    } else {
      SumUpdate(es[..|es| - 1], n, e, w);
      assert es'[..|es| - 1] == es[..|es| - 1][n := e];
    }
  }

  lemma {:induction false} SumAtLeast(es: seq<Entry>, n: nat, w: Entry -> nat)
    requires n < |es|
    ensures w(es[n]) <= Sum(es, w)
  {
    if n < |es| - 1 {
      SumAtLeast(es[..|es| - 1], n, w);
    }
  }

  // ----- The histogram -----

  /** hist_index. */
  function HistIndex(count: nat, histMax: nat): (i: nat)
    requires histMax > 0
    ensures i < histMax
  {
    if count >= histMax then histMax - 1 else count
  }

  /** 1 for the entries whose clamped count is i. */
  function AtIndex(i: nat, histMax: nat): Entry -> nat
    requires histMax > 0
  {
    (e: Entry) => if HistIndex(e.count, histMax) == i then 1 else 0
  }

  function HistAt(es: seq<Entry>, i: nat, histMax: nat): nat
    requires histMax > 0
  {
    Sum(es, AtIndex(i, histMax))
  }

  lemma {:induction false} HistBound(es: seq<Entry>, i: nat, histMax: nat)
    requires histMax > 0
    ensures HistAt(es, i, histMax) <= |es|
  {
    if es != [] {
      HistBound(es[..|es| - 1], i, histMax);
    }
  }

  /** The entries counted at an index: those of that count, at the last one also those above. */
  function Counting(es: seq<Entry>, i: nat, histMax: nat): set<nat> {
    set n: nat | n < |es| && (es[n].count == i || (i == histMax - 1 && es[n].count > i))
  }

  lemma CountingLast(es: seq<Entry>, l: nat, i: nat, histMax: nat)
    requires histMax > 0 && i < histMax && |es| == l + 1
    ensures l !in Counting(es[..l], i, histMax)
    ensures Counting(es, i, histMax) == Counting(es[..l], i, histMax) + if AtIndex(i, histMax)(es[l]) == 1 then {l} else {}
  {
  }

  lemma {:induction false} HistCounts(es: seq<Entry>, i: nat, histMax: nat)
    requires histMax > 0 && i < histMax
    ensures HistAt(es, i, histMax) == |Counting(es, i, histMax)|
  {
    if es == [] {
      assert Counting(es, i, histMax) == {};
    } else {
      HistCounts(es[..|es| - 1], i, histMax);
      CountingLast(es, |es| - 1, i, histMax);
    }
  }

  function Count(): Entry -> nat { (e: Entry) => e.count }

  function Samples(es: seq<Entry>): nat { Sum(es, Count()) }
}
