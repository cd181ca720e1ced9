/** cmsk_sort of pmu-refs/cmsk.cc: the items of the hash in descending order, cut at the threshold. */
module HotSort {
  import opened Arith
  import opened HotHash

  const U16_RANGE := 65536

  predicate Descending(items: seq<Item>) {
    forall i, j :: 0 <= i < j < |items| ==> items[i].count >= items[j].count
  }

  /** What std::sort may leave: it sorts all slots of the table, used or not. */
  predicate SortOf(sorted: seq<Item>, items: seq<Item>) {
    Descending(sorted) && multiset(sorted) == multiset(items)
  }

  // ----- Unused slots -----

  /** Whatever the sort does with equal counts, the table begins with the live items. */
  ghost predicate LiveFirst(items: seq<Item>, len: nat)
    requires len <= |items|
  {
    forall sorted :: SortOf(sorted, items) ==>
      |sorted| == |items| && multiset(sorted[..len]) == multiset(items[..len])
  }

  /** Every slot behind the live items counts less than each of them, or holds the same. */
  predicate StaleBelow(items: seq<Item>, len: nat)
    requires len <= |items|
  {
    forall i, j :: 0 <= i < len <= j < |items| ==> items[j].count < items[i].count || items[j] == items[i]
  }

  lemma Parts(items: seq<Item>, n: nat)
    requires n <= |items|
    ensures multiset(items) == multiset(items[..n]) + multiset(items[n..])
  {
    assert items == items[..n] + items[n..];
  }

  lemma SameLength(a: seq<Item>, b: seq<Item>)
    requires multiset(a) == multiset(b)
    ensures |a| == |b|
  {
    assert |multiset(a)| == |a| && |multiset(b)| == |b|;
  }

  lemma TopAboveRest(sorted: seq<Item>, len: nat, x: Item, y: Item)
    requires Descending(sorted) && len <= |sorted|
    requires x in multiset(sorted[..len]) && y in multiset(sorted[len..])
    ensures x.count >= y.count
  {
    var i :| 0 <= i < |sorted[..len]| && sorted[..len][i] == x;
    var j :| 0 <= j < |sorted[len..]| && sorted[len..][j] == y;
    assert sorted[i] == x && sorted[len + j] == y;
  }

  lemma WholeMultiset(a: multiset<Item>, b: multiset<Item>)
    requires a <= b && |a| == |b|
    ensures a == b
  {
    assert b == a + (b - a);
  }

  lemma SameRest(a: multiset<Item>, b: multiset<Item>, c: multiset<Item>)
    requires a + b == a + c
    ensures b == c
  {
    forall x ensures b[x] == c[x] {
      assert (a + b)[x] == (a + c)[x];
    }
  }

  /** Different multisets of one size: each has more of something. */
  lemma Surplus(a: multiset<Item>, b: multiset<Item>) returns (y: Item, z: Item)
    requires |a| == |b| && a != b
    ensures a[y] > b[y] && a[z] < b[z]
  {
    if a <= b {
      WholeMultiset(a, b);
    }
    if b <= a {
      WholeMultiset(b, a);
    }
    y :| a[y] > b[y];
    z :| a[z] < b[z];
  }

  lemma TopIsLive(items: seq<Item>, sorted: seq<Item>, len: nat)
    requires SortOf(sorted, items) && len <= |items| && StaleBelow(items, len)
    ensures |sorted| == |items| && multiset(sorted[..len]) == multiset(items[..len])
  {
    SameLength(sorted, items);
    var live, dead, top, rest := multiset(items[..len]), multiset(items[len..]), multiset(sorted[..len]), multiset(sorted[len..]);
    Parts(items, len);
    Parts(sorted, len);
    if top != live {
      var y, z := Surplus(top, live);
      assert (top + rest)[y] == (live + dead)[y] && (top + rest)[z] == (live + dead)[z];
      TopAboveRest(sorted, len, y, z);
      LiveAboveDead(items, len, z, y);
    }
  }

  lemma LiveAboveDead(items: seq<Item>, len: nat, x: Item, y: Item)
    requires len <= |items| && StaleBelow(items, len)
    requires x in multiset(items[..len]) && y in multiset(items[len..])
    ensures y.count < x.count || y == x
  {
    var i :| 0 <= i < |items[..len]| && items[..len][i] == x;
    var j :| 0 <= j < |items[len..]| && items[len..][j] == y;
    assert items[i] == x && items[len + j] == y;
  }

  function Insert(s: seq<Item>, x: Item): seq<Item> {
    if s == [] || x.count >= s[0].count then [x] + s else [s[0]] + Insert(s[1..], x)
  }

  lemma {:induction false} InsertKeeps(s: seq<Item>, x: Item)
    ensures multiset(Insert(s, x)) == multiset(s) + multiset{x}
  {
    if s != [] && x.count < s[0].count {
      InsertKeeps(s[1..], x);
      assert s == [s[0]] + s[1..];
    }
  }

  lemma {:induction false} InsertSorts(s: seq<Item>, x: Item)
    requires Descending(s)
    ensures Descending(Insert(s, x))
  {
    if s != [] && x.count < s[0].count {
      InsertSorts(s[1..], x);
      FirstOfInsert(s[1..], x);
    }
  }

  lemma FirstOfInsert(s: seq<Item>, x: Item)
    ensures Insert(s, x) != [] && Insert(s, x)[0] == if s == [] || x.count >= s[0].count then x else s[0]
  {
  }

  lemma {:induction false} SortExists(items: seq<Item>) returns (sorted: seq<Item>)
    ensures SortOf(sorted, items)
  {
    if items == [] {
      sorted := [];
    } else {
      sorted := SortExists(items[1..]);
      InsertSorts(sorted, items[0]);
      InsertKeeps(sorted, items[0]);
      sorted := Insert(sorted, items[0]);
      assert items == [items[0]] + items[1..];
    }
  }

  /** Of two different items with one count, on both sides of the cut, a sort may exchange them. */
  lemma Exchanged(sorted: seq<Item>, items: seq<Item>, len: nat, x: Item, y: Item) returns (other: seq<Item>)
    requires SortOf(sorted, items) && len <= |sorted| && x.count == y.count && x != y
    requires x in multiset(sorted[..len]) && y in multiset(sorted[len..])
    ensures SortOf(other, items) && |other| == |sorted| && multiset(other[..len]) != multiset(sorted[..len])
  {
    var i :| 0 <= i < |sorted[..len]| && sorted[..len][i] == x;
    var j :| 0 <= j < |sorted[len..]| && sorted[len..][j] == y;
    other := sorted[i := y][len + j := x];
    TopExchanged(sorted, other, len, i, y);
  }

  lemma TopExchanged(sorted: seq<Item>, other: seq<Item>, len: nat, i: nat, y: Item)
    requires i < len <= |sorted| == |other| && other[..len] == sorted[..len][i := y] && y != sorted[i]
    ensures multiset(other[..len]) != multiset(sorted[..len])
  {
    var top, x := sorted[..len], sorted[i];
    assert top[i] == x;
    assert multiset(top[i := y])[x] == multiset(top)[x] - 1;
  }

  /** The first items of the sorted table are the live ones, in every sort, exactly if no unused slot
      counts as much as a live item that it differs from. */
  lemma LiveFirstExactly(items: seq<Item>, len: nat)
    requires len <= |items|
    ensures LiveFirst(items, len) <==> StaleBelow(items, len)
  {
    if StaleBelow(items, len) {
      forall sorted | SortOf(sorted, items)
        ensures |sorted| == |items| && multiset(sorted[..len]) == multiset(items[..len]) {
        TopIsLive(items, sorted, len);
      }
    }
    if LiveFirst(items, len) {
      forall i, j | 0 <= i < len <= j < |items| ensures items[j].count < items[i].count || items[j] == items[i] {
        var sorted := SortExists(items);
        OnBothSides(items, sorted, len, i, j);
        TopAboveRest(sorted, len, items[i], items[j]);
        if items[j].count == items[i].count && items[j] != items[i] {
          var other := Exchanged(sorted, items, len, items[i], items[j]);
        }
      }
    }
  }

  lemma OnBothSides(items: seq<Item>, sorted: seq<Item>, len: nat, i: nat, j: nat)
    requires SortOf(sorted, items) && i < len <= j < |items| == |sorted|
    requires multiset(sorted[..len]) == multiset(items[..len])
    ensures items[i] in multiset(sorted[..len]) && items[j] in multiset(sorted[len..])
  {
    Parts(items, len);
    Parts(sorted, len);
    assert items[..len][i] == items[i] && items[len..][j - len] == items[j];
    SameRest(multiset(items[..len]), multiset(sorted[len..]), multiset(items[len..]));
  }

  /** If an unused slot still counts more than a live item, no sort begins with the live items. */
  lemma StaleOnTop(items: seq<Item>, sorted: seq<Item>, len: nat, i: nat, j: nat)
    requires SortOf(sorted, items) && i < len <= j < |items| && items[j].count > items[i].count
    ensures |sorted| == |items| && multiset(sorted[..len]) != multiset(items[..len])
  {
    SameLength(sorted, items);
    if multiset(sorted[..len]) == multiset(items[..len]) {
      OnBothSides(items, sorted, len, i, j);
      TopAboveRest(sorted, len, items[i], items[j]);
    }
  }

  // ----- The cut -----

  /** achash_bsearch: the first of a descending table's items that counts at most `count`. */
  method Bsearch(items: seq<Item>, last: nat, count: nat) returns (start: nat)
    requires Descending(items) && last <= |items|
    ensures start <= last
    ensures forall i :: 0 <= i < start ==> items[i].count > count
    ensures forall i :: start <= i < last ==> items[i].count <= count
  {
    start := 0;
    var end := last;
    while true
      invariant start <= end <= last
      invariant forall i :: 0 <= i < start ==> items[i].count > count
      invariant forall i :: end <= i < last ==> items[i].count <= count
      decreases end - start
    {
      if start == end {
        return;
      }
      var mid := (start + end) / 2;
      var mcnt := items[mid].count;
      if mcnt <= count {
        end := mid;
      } else if mcnt > count {
        start := mid + 1;
      }
    }
  }

  function Total(items: seq<Item>): nat {
    if items == [] then 0 else Total(items[..|items| - 1]) + items[|items| - 1].count
  }

  lemma TotalSnoc(items: seq<Item>, n: nat)
    requires n < |items|
    ensures Total(items[..n + 1]) == Total(items[..n]) + items[n].count
  {
    assert items[..n + 1][..n] == items[..n];
  }

  const U32_RANGE := 0x1_0000_0000

  /** The counts of the items from a to b - 1. */
  function Between(items: seq<Item>, a: nat, b: nat): int
    requires a <= b <= |items|
  {
    Total(items[..b]) - Total(items[..a])
  }

  /** The loop of cmsk_sort that takes the items cut off the samples, in 32 bits. */
  method TakeOff(sorted: seq<Item>, from: nat, to: nat, samples: nat) returns (samples': nat)
    requires from <= to <= |sorted| && samples < U32_RANGE
    ensures samples' == (samples - Between(sorted, from, to)) % U32_RANGE
  {
    samples' := samples;
    var i := from;
    while i < to
      invariant from <= i <= to && samples' == (samples - Between(sorted, from, i)) % U32_RANGE
    {
      TotalSnoc(sorted, i);
      SubtractWraps(samples, Between(sorted, from, i), sorted[i].count);
      samples' := (samples' - sorted[i].count) % U32_RANGE;
      i := i + 1;
    }
  }

  /** cmsk_sort once the table is sorted: of the first `len` items those below the threshold are cut,
      and their counts taken off the samples. The threshold is handed to the search as a 16-bit count. */
  method CutAtThreshold(sorted: seq<Item>, len: nat, samples: nat, threshold: nat) returns (len': nat, samples': nat)
    requires Descending(sorted) && 0 < len <= |sorted| && threshold <= U16_RANGE && samples < U32_RANGE
    ensures len' <= len && forall i :: 0 <= i < len ==> (i < len' <==> sorted[i].count >= threshold)
    ensures samples' == (samples - Between(sorted, len', len)) % U32_RANGE
  {
    len', samples' := len, samples;
    if sorted[len - 1].count < threshold {
      len' := Bsearch(sorted, len - 1, (threshold - 1) % U16_RANGE);
      samples' := TakeOff(sorted, len', len, samples);
    } else {
      assert forall i :: 0 <= i < len ==> sorted[i].count >= sorted[len - 1].count;
    }
  }

  lemma SubtractWraps(samples: int, gone: int, count: int)
    ensures ((samples - gone) % U32_RANGE - count) % U32_RANGE == (samples - (gone + count)) % U32_RANGE
  {
    var x := samples - gone;
    var q, r := (x % U32_RANGE - count) / U32_RANGE, (x % U32_RANGE - count) % U32_RANGE;
    Distribute(x / U32_RANGE, -q, U32_RANGE);
    DivModUnique(x - count, U32_RANGE, x / U32_RANGE + q, r);
  }

  // ----- What the cut leaves of the samples -----

  lemma {:induction false} TotalAppend(a: seq<Item>, b: seq<Item>)
    ensures Total(a + b) == Total(a) + Total(b)
  {
    if b == [] {
      assert a + b == a;
    } else {
      TotalAppend(a, b[..|b| - 1]);
      assert (a + b)[..|a + b| - 1] == a + b[..|b| - 1];
    }
  }

  lemma TotalCons(x: Item, s: seq<Item>)
    ensures Total([x] + s) == x.count + Total(s)
  {
    TotalAppend([x], s);
    assert [x][..0] == [];
  }

  lemma {:induction false} InsertTotal(s: seq<Item>, x: Item)
    ensures Total(Insert(s, x)) == Total(s) + x.count
  {
    if s == [] || x.count >= s[0].count {
      TotalCons(x, s);
    } else {
      InsertTotal(s[1..], x);
      TotalCons(s[0], Insert(s[1..], x));
      TotalCons(s[0], s[1..]);
      assert s == [s[0]] + s[1..];
    }
  }

  lemma {:induction false} SortTotal(items: seq<Item>) returns (sorted: seq<Item>)
    ensures SortOf(sorted, items) && Total(sorted) == Total(items)
  {
    if items == [] {
      sorted := [];
    } else {
      sorted := SortTotal(items[1..]);
      InsertSorts(sorted, items[0]);
      InsertKeeps(sorted, items[0]);
      InsertTotal(sorted, items[0]);
      TotalCons(items[0], items[1..]);
      sorted := Insert(sorted, items[0]);
      assert items == [items[0]] + items[1..];
    }
  }

  /** Of a descending table at most k items count more than its entry k. */
  lemma FewAbove(some: multiset<Item>, sorted: seq<Item>, k: nat)
    requires Descending(sorted) && k < |sorted| && some <= multiset(sorted)
    requires forall x :: x in some ==> x.count > sorted[k].count
    ensures |some| <= k
  {
    Parts(sorted, k);
    forall x | x in sorted[k..] ensures x !in some {
      var j :| 0 <= j < |sorted[k..]| && sorted[k..][j] == x;
      assert sorted[k + j] == x;
    }
    forall x ensures some[x] <= multiset(sorted[..k])[x] {
      assert x in some ==> x !in multiset(sorted[k..]);
    }
    MultisetSize(some, multiset(sorted[..k]));
  }

  lemma MultisetSize(a: multiset<Item>, b: multiset<Item>)
    requires a <= b
    ensures |a| <= |b|
  {
    assert b == a + (b - a);
  }

  /** The k-th largest item of the whole table counts at least the k-th largest of a part of it. */
  lemma KthLargest(sorted: seq<Item>, part: seq<Item>, k: nat)
    requires Descending(sorted) && Descending(part) && multiset(part) <= multiset(sorted) && k < |part| <= |sorted|
    ensures sorted[k].count >= part[k].count
  {
    if sorted[k].count < part[k].count {
      Parts(part, k + 1);
      forall x | x in multiset(part[..k + 1]) ensures x.count > sorted[k].count {
        var i :| 0 <= i < |part[..k + 1]| && part[..k + 1][i] == x;
        assert part[i] == x;
      }
      FewAbove(multiset(part[..k + 1]), sorted, k);
    }
  }

  lemma {:induction false} TotalsOrdered(a: seq<Item>, b: seq<Item>, n: nat)
    requires n <= |a| && n <= |b| && forall k :: 0 <= k < n ==> a[k].count >= b[k].count
    ensures Total(a[..n]) >= Total(b[..n])
  {
    if n > 0 {
      TotalsOrdered(a, b, n - 1);
      TotalSnoc(a, n - 1);
      TotalSnoc(b, n - 1);
    }
  }

  /** The first items of a sorted table count at least what the live items count together. */
  lemma TopCountsMost(items: seq<Item>, sorted: seq<Item>, len: nat)
    requires SortOf(sorted, items) && len <= |items|
    ensures |sorted| == |items| && Total(sorted[..len]) >= Total(items[..len])
  {
    SameLength(sorted, items);
    var live := SortTotal(items[..len]);
    SameLength(live, items[..len]);
    Parts(items, len);
    forall k | 0 <= k < len ensures sorted[k].count >= live[k].count {
      KthLargest(sorted, live, k);
    }
    TotalsOrdered(sorted, live, len);
    assert live[..len] == live;
  }

  /** An unused slot counts more than a live item. */
  predicate StaleAbove(items: seq<Item>, len: nat)
    requires len <= |items|
  {
    exists i, j :: 0 <= i < len <= j < |items| && items[j].count > items[i].count
  }

  lemma TotalSwap(items: seq<Item>, len: nat, i: nat, x: Item)
    requires i < len <= |items|
    ensures Total(items[..len][i := x]) == Total(items[..len]) - items[i].count + x.count
  {
    var top := items[..len];
    assert top == top[..i] + ([top[i]] + top[i + 1..]) && top[i := x] == top[..i] + ([x] + top[i + 1..]);
    TotalAppend(top[..i], [top[i]] + top[i + 1..]);
    TotalAppend(top[..i], [x] + top[i + 1..]);
    TotalCons(top[i], top[i + 1..]);
    TotalCons(x, top[i + 1..]);
  }

  lemma StaleCountsMore(items: seq<Item>, sorted: seq<Item>, len: nat, i: nat, j: nat)
    requires SortOf(sorted, items) && i < len <= j < |items| && items[j].count > items[i].count
    ensures |sorted| == |items| && Total(sorted[..len]) > Total(items[..len])
  {
    var swapped := items[i := items[j]][j := items[i]];
    assert multiset(swapped) == multiset(items);
    TopCountsMost(swapped, sorted, len);
    assert swapped[..len] == items[..len][i := items[j]];
    TotalSwap(items, len, i, items[j]);
  }

  lemma NoStaleSame(items: seq<Item>, sorted: seq<Item>, len: nat)
    requires SortOf(sorted, items) && len <= |items| && !StaleAbove(items, len)
    ensures |sorted| == |items| && Total(sorted[..len]) == Total(items[..len])
  {
    TopCountsMost(items, sorted, len);
    var live := SortTotal(items[..len]);
    SameLength(live, items[..len]);
    forall k | 0 <= k < len ensures live[k].count >= sorted[k].count {
      LiveLargest(items, sorted, live, len, k);
    }
    TotalsOrdered(live, sorted, len);
    assert live[..len] == live;
  }

  /** The k + 1 largest items are live, if no unused slot counts more than a live item. */
  lemma LargestAreLive(items: seq<Item>, sorted: seq<Item>, live: seq<Item>, len: nat, k: nat)
    requires len <= |items| == |sorted| && SortOf(sorted, items) && SortOf(live, items[..len]) && k < len == |live|
    requires !StaleAbove(items, len) && sorted[k].count > live[k].count
    ensures multiset(sorted[..k + 1]) <= multiset(live)
  {
    var top, dead := multiset(sorted[..k + 1]), multiset(items[len..]);
    Parts(sorted, k + 1);
    Parts(items, len);
    var i := IndexOf(items[..len], live[k]);
    forall x ensures top[x] <= multiset(live)[x] {
      if x in top {
        var n := IndexOf(sorted[..k + 1], x);
        assert sorted[n] == x && sorted[n].count >= sorted[k].count;
        NotDead(items, len, i, x);
        assert (top + multiset(sorted[k + 1..]))[x] == (multiset(live) + dead)[x];
      }
    }
  }

  lemma NotDead(items: seq<Item>, len: nat, i: nat, x: Item)
    requires i < len <= |items| && !StaleAbove(items, len) && x.count > items[i].count
    ensures x !in multiset(items[len..])
  {
    forall j | 0 <= j < |items[len..]| ensures items[len..][j] != x {
      assert items[len..][j] == items[len + j];
    }
  }

  lemma LiveLargest(items: seq<Item>, sorted: seq<Item>, live: seq<Item>, len: nat, k: nat)
    requires len <= |items| == |sorted| && SortOf(sorted, items) && SortOf(live, items[..len]) && k < len == |live|
    requires !StaleAbove(items, len)
    ensures live[k].count >= sorted[k].count
  {
    if live[k].count < sorted[k].count {
      LargestAreLive(items, sorted, live, len, k);
      forall x | x in multiset(sorted[..k + 1]) ensures x.count > live[k].count {
        var n := IndexOf(sorted[..k + 1], x);
        assert sorted[n] == x && sorted[n].count >= sorted[k].count;
      }
      FewAbove(multiset(sorted[..k + 1]), live, k);
    }
  }

  lemma IndexOf(s: seq<Item>, x: Item) returns (i: nat)
    requires x in multiset(s)
    ensures i < |s| && s[i] == x
  {
    i :| 0 <= i < |s| && s[i] == x;
  }

  /** What the cut leaves. The live items count `samples`. Behind the cut samples is the sum of the kept
      items if and only if no unused slot counts more than a live item; else it is short of the sum, or
      wraps. */
  lemma CutSumExactly(items: seq<Item>, sorted: seq<Item>, len: nat, len': nat, samples: nat)
    requires SortOf(sorted, items) && len' <= len <= |items| == |sorted| && samples == Total(items[..len])
    requires Total(sorted[..len]) < U32_RANGE
    ensures (samples - Between(sorted, len', len)) % U32_RANGE == Total(sorted[..len'])
            <==> !StaleAbove(items, len)
  {
    TotalRange(sorted, len', len);
    TopCountsMost(items, sorted, len);
    var kept, excess := Total(sorted[..len']), Total(sorted[..len]) - samples;
    if StaleAbove(items, len) {
      var i, j :| 0 <= i < len <= j < |items| && items[j].count > items[i].count;
      StaleCountsMore(items, sorted, len, i, j);
      assert kept - excess < 0 ==> (kept - excess) % U32_RANGE == kept - excess + U32_RANGE;
    } else {
      NoStaleSame(items, sorted, len);
    }
  }

  lemma {:induction false} TotalRange(items: seq<Item>, a: nat, b: nat)
    requires a <= b <= |items|
    ensures Total(items[..a]) <= Total(items[..b])
    decreases b - a
  {
    if a < b {
      TotalSnoc(items, a);
      TotalRange(items, a + 1, b);
    }
  }
}
