/** struct achash of pmu-refs/cmsk.cc: the hash of hot addresses, its sample count and histogram. */
module Achash {
  import opened CountMin
  import opened HotHash

  const COUNT_MAX := 65535
  const SIZE_MAX := 0x80_0000
  const U32_RANGE := 0x1_0000_0000

  class Achash {
    const hashMode: bool
    const threshold: nat
    const size: nat
    const histMax: nat
    /** The bucket of a key: its hash in the last row of the sketch, masked. */
    const hb: Bucketing
    const items: array<Item>
    const buckets: array<nat>
    const hist: array<nat>
    var len: nat
    var samples: nat
    ghost var entries: seq<Entry>

    ghost predicate HistOk(h: seq<nat>, es: seq<Entry>)
      requires histMax > 0 && |h| == histMax
    {
      forall i: nat :: i < histMax ==> h[i] == HistAt(es, i, histMax)
    }

    ghost predicate Shape() {
      && 0 < size <= SIZE_MAX && histMax > 0 && buckets != hist
      && items.Length == buckets.Length == size && hist.Length == histMax
      && forall k: Key :: hb(k) < size
    }

    ghost predicate Valid()
      reads this, items, buckets, hist
    {
      && Shape() && len == |entries| <= size && Unique(entries)
      && Chained(items[..], buckets[..], entries, hb)
      && samples == Samples(entries)
      && (hashMode ==> HistOk(hist[..], entries))
    }

    constructor (hashMode: bool, threshold: nat, size: nat, histMax: nat, hb: Bucketing)
      requires 0 < size <= SIZE_MAX && histMax > 0 && forall k: Key :: hb(k) < size
      ensures Valid() && entries == [] && fresh(items) && fresh(buckets) && fresh(hist)
      ensures this.hashMode == hashMode && this.threshold == threshold && this.size == size && this.hb == hb
      ensures this.histMax == histMax
      ensures forall i :: 0 <= i < size ==> items[i].count == 0
    {
      this.hashMode, this.threshold, this.size, this.histMax, this.hb := hashMode, threshold, size, histMax, hb;
      items := new Item[size](i => Item(0, 0, 0, 0));
      buckets := new nat[size](i => 0);
      hist := new nat[histMax](i => 0);
      len, samples, entries := 0, 0, [];
    }

    /** achash_clear: the items stay where they are. */
    method Clear()
      requires Valid()
      modifies this, buckets, hist
      ensures Valid() && entries == []
    {
      len, samples, entries := 0, 0, [];
      for i := 0 to size
        invariant len == 0 && samples == 0 && entries == []
        invariant forall b :: 0 <= b < i ==> buckets[b] == 0
      {
        buckets[i] := 0;
      }
      for i := 0 to histMax
        invariant len == 0 && samples == 0 && entries == []
        invariant forall b :: 0 <= b < size ==> buckets[b] == 0
        invariant forall b :: 0 <= b < i ==> hist[b] == 0
      {
        hist[i] := 0;
      }
    }

    method HistInc(count: nat)
      requires Shape()
      modifies hist
      ensures hist[..] == old(hist[..])[HistIndex(count, histMax) := (old(hist[HistIndex(count, histMax)]) + 1) % U32_RANGE]
    {
      var index := HistIndex(count, histMax);
      hist[index] := (hist[index] + 1) % U32_RANGE;
    }

    method HistDec(count: nat)
      requires Shape()
      modifies hist
      ensures hist[..] == old(hist[..])[HistIndex(count, histMax) := (old(hist[HistIndex(count, histMax)]) + U32_RANGE - 1) % U32_RANGE]
    {
      var index := HistIndex(count, histMax);
      hist[index] := (hist[index] + U32_RANGE - 1) % U32_RANGE;
    }

    /** A histogram of the entries takes in one more. */
    lemma HistAppends(h: seq<nat>, es: seq<Entry>, e: Entry)
      requires Shape() && |h| == histMax && HistOk(h, es) && |es| < SIZE_MAX
      ensures var i := HistIndex(e.count, histMax); HistOk(h[i := (h[i] + 1) % U32_RANGE], es + [e])
    {
      var x := HistIndex(e.count, histMax);
      forall i: nat | i < histMax ensures h[x := (h[x] + 1) % U32_RANGE][i] == HistAt(es + [e], i, histMax) {
        SumSnoc(es, e, AtIndex(i, histMax));
        HistBound(es, i, histMax);
      }
    }

    /** It follows an entry that is counted up. */
    lemma HistMoves(h: seq<nat>, es: seq<Entry>, n: nat, h1: seq<nat>, h2: seq<nat>)
      requires Shape() && |h| == histMax && HistOk(h, es) && n < |es| <= SIZE_MAX
      requires var i := HistIndex(es[n].count + 1, histMax); h1 == h[i := (h[i] + 1) % U32_RANGE]
      requires var i := HistIndex(es[n].count, histMax); h2 == h1[i := (h1[i] + U32_RANGE - 1) % U32_RANGE]
      ensures HistOk(h2, es[n := es[n].(count := es[n].count + 1)])
    {
      var e := es[n].(count := es[n].count + 1);
      forall i: nat | i < histMax ensures h2[i] == HistAt(es[n := e], i, histMax) {
        var w := AtIndex(i, histMax);
        SumUpdate(es, n, e, w);
        SumAtLeast(es, n, w);
        HistBound(es, i, histMax);
      }
    }

    /** achash_new_item: the item is stored but not yet linked. */
    method NewItem(k: Key) returns (num: nat)
      requires Valid() && len < size
      modifies this`len, this`samples, items, hist
      ensures len == num == old(len) + 1
      ensures var count := if hashMode then 1 else threshold;
              && items[..] == old(items[..])[old(len) := Item(k.addr, k.pid, 0, count)]
              && samples == old(samples) + count
              && (hashMode ==> HistOk(hist[..], entries + [Entry(k, count)]))
    {
      if hashMode {
        items[len] := Item(k.addr, k.pid, 0, 1);
        samples := samples + 1;
        HistAppends(hist[..], entries, Entry(k, 1));
        HistInc(1);
      } else {
        items[len] := Item(k.addr, k.pid, 0, threshold);
        samples := samples + threshold;
      }
      len := len + 1;
      num := len;
    }

    /** The walk through a chain: the number of the key's item, or 0 and the number of the last item. */
    method FindItem(k: Key, hash: nat) returns (num: nat, last: nat)
      requires Valid() && hash == hb(k)
      ensures num != 0 ==> num == Find(entries, k) + 1 <= |entries|
      ensures num == 0 ==> Find(entries, k) == |entries|
      ensures num == 0 && last == 0 ==> buckets[hash] == 0
      ensures num == 0 && last != 0 ==> IsLast(entries, hb, hash, last - 1)
    {
      num, last := buckets[hash], 0;
      assert num == LinkFrom(entries, hb, hash, 0);
      while num != 0
        invariant last <= |entries| && num == LinkFrom(entries, hb, hash, last)
        invariant if last == 0 then num == buckets[hash] else hb(entries[last - 1].key) == hash
        invariant forall i :: 0 <= i < last ==> entries[i].key != k
        decreases |entries| - last
      {
        var item := items[num - 1];
        assert ItemOk(items[..][num - 1], entries, hb, num - 1);
        if item.addr == k.addr && item.pid == k.pid {
          FindAt(entries, k, num - 1);
          return;
        }
        last := num;
        num := item.next;
      }
      FindNone(entries, k);
    }

    /** The histogram follows entry n that is counted up. */
    method HistMove(count: nat, ghost es: seq<Entry>, ghost n: nat)
      requires Shape() && count > 0 && n < |es| <= SIZE_MAX && es[n].count + 1 == count
      requires hashMode ==> HistOk(hist[..], es)
      modifies hist
      ensures hashMode ==> HistOk(hist[..], es[n := es[n].(count := count)])
    {
      ghost var h := hist[..];
      HistInc(count);
      ghost var h1 := hist[..];
      HistDec(count - 1);
      if hashMode {
        HistMoves(h, es, n, h1, hist[..]);
      }
    }

    /** The item of a key is counted up. */
    method CountUp(n: nat)
      requires Valid() && n < |entries| && entries[n].count < COUNT_MAX
      modifies this`samples, this`entries, items, hist
      ensures Valid() && entries == old(entries)[n := old(entries[n]).(count := old(entries[n]).count + 1)]
      ensures items[..][len..] == old(items[..])[len..]
    {
      assert ItemOk(items[..][n], entries, hb, n);
      ghost var was, e := items[..], entries[n].(count := entries[n].count + 1);
      CountKeeps(was, buckets[..], entries, hb, n, e.count);
      SumUpdate(entries, n, e, Count());
      UniqueCounted(entries, n, e.count);
      var count := (items[n].count + 1) % (COUNT_MAX + 1);
      items[n] := items[n].(count := count);
      assert items[..] == was[n := was[n].(count := e.count)];
      samples := samples + 1;
      HistMove(count, entries, n);
      entries := entries[n := e];
    }

    /** A new item in an empty bucket. */
    method AppendFirst(k: Key, hash: nat)
      requires Valid() && hash == hb(k) && len < size && Find(entries, k) == |entries| && buckets[hash] == 0
      modifies this`len, this`samples, this`entries, items, buckets, hist
      ensures Valid() && entries == old(entries) + [Entry(k, if hashMode then 1 else threshold)]
      ensures items[..][len..] == old(items[..])[len..]
    {
      ghost var e := Entry(k, if hashMode then 1 else threshold);
      SumSnoc(entries, e, Count());
      UniqueSnoc(entries, e);
      NewChain(items[..], buckets[..], entries, hb, e, Item(k.addr, k.pid, 0, e.count));
      var num := NewItem(k);
      ghost var was := buckets[..];
      buckets[hash] := num;
      assert buckets[..] == was[hash := num];
      entries := entries + [e];
    }

    /** A new item at the end of its chain. */
    method AppendLast(k: Key, hash: nat, last: nat)
      requires Valid() && hash == hb(k) && len < size && Find(entries, k) == |entries|
      requires IsLast(entries, hb, hash, last)
      modifies this`len, this`samples, this`entries, items, hist
      ensures Valid() && entries == old(entries) + [Entry(k, if hashMode then 1 else threshold)]
      ensures items[..][len..] == old(items[..])[len..]
    {
      ghost var e := Entry(k, if hashMode then 1 else threshold);
      SumSnoc(entries, e, Count());
      UniqueSnoc(entries, e);
      ghost var was, it := items[..], Item(k.addr, k.pid, 0, e.count);
      LongerChain(was, buckets[..], entries, hb, e, it, last);
      var num := NewItem(k);
      items[last] := items[last].(next := num);
      assert items[..] == was[|entries| := it][last := was[last].(next := |entries| + 1)];
      entries := entries + [e];
    }

    /** achash_update, called while there is room: true when the last free item was taken. */
    method Update(k: Key, h: nat) returns (full: bool)
      requires Valid() && len < size && h % size == hb(k)
      requires forall n :: 0 <= n < |entries| ==> entries[n].count < COUNT_MAX
      modifies this`len, this`samples, this`entries, items, buckets, hist
      ensures Valid() && full == (len >= size)
      ensures entries == Touched(old(entries), k, if hashMode then 1 else threshold)
      ensures items[..][len..] == old(items[..])[len..]
    {
      var num, last := FindItem(k, h % size);
      if num != 0 {
        CountUp(num - 1);
        return false;
      }
      if last == 0 {
        AppendFirst(k, h % size);
      } else {
        AppendLast(k, h % size, last - 1);
      }
      return len >= size;
    }

    /** In hash mode the histogram holds, for each count, the number of addresses that have it, and in its
        last place that of all addresses with at least as many. */
    lemma HistExactly(i: nat)
      requires Valid() && hashMode && i < histMax
      ensures hist[i] == |set n: nat | n < |entries| && (entries[n].count == i || (i == histMax - 1 && entries[n].count > i))|
    {
      HistCounts(entries, i, histMax);
      assert hist[..][i] == hist[i];
    }
  }
}
