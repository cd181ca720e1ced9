/** calc_page_hotness_drifting of GlobalScan.cc: two scans of one process are merged and compared. */
module HotDrift {
  import opened AddrClusters
  import opened AddrSequence
  import opened HotPages

  /** The addresses of the hot pages among the first n entries. */
  function Hot(es: seq<Entry>, n: nat): set<nat>
    requires n <= |es|
  {
    set k: nat | k < n && es[k].payload == 1 :: es[k].addr
  }

  /** Of a normalized sequence the hot pages are those whose payload was in the band. */
  lemma HotIsBand(es: seq<Entry>, lo: int, hi: int)
    ensures Hot(Normalized(es, lo, hi), |es|) == set k: nat | k < |es| && lo <= es[k].payload <= hi :: es[k].addr
  {
    var r := Normalized(es, lo, hi);
    assert forall k :: 0 <= k < |es| ==> r[k].addr == es[k].addr && (r[k].payload == 1 <==> lo <= es[k].payload <= hi);
  }

  function Differ(a: set<nat>, b: set<nat>): set<nat> { (a - b) + (b - a) }

  predicate Binary(es: seq<Entry>) {
    forall k :: 0 <= k < |es| ==> es[k].payload <= 1
  }

  /** What was read of one sequence lies below what comes next in the other. */
  predicate Below(es: seq<Entry>, i: nat, fs: seq<Entry>, j: nat) {
    i <= |es| && (j < |fs| ==> forall k :: 0 <= k < i ==> es[k].addr < fs[j].addr)
  }

  /** After i and j entries. */
  predicate Merged(es: seq<Entry>, fs: seq<Entry>, i: nat, j: nat, stable: nat, unstable: nat) {
    && Sorted(es) && Sorted(fs) && i <= |es| && j <= |fs|
    && Below(es, i, fs, j) && Below(fs, j, es, i)
    && stable == |Hot(es, i) * Hot(fs, j)| && unstable == |Differ(Hot(es, i), Hot(fs, j))|
  }

  lemma HotNext(es: seq<Entry>, i: nat)
    requires i < |es| && Sorted(es) && es[i].payload <= 1
    ensures es[i].addr !in Hot(es, i)
    ensures es[i].payload == 1 ==> Hot(es, i + 1) == Hot(es, i) + {es[i].addr}
    ensures es[i].payload == 0 ==> Hot(es, i + 1) == Hot(es, i)
  {
  }

  lemma OneMoreHot(a: set<nat>, b: set<nat>, x: nat)
    requires x !in a && x !in b
    ensures (a + {x}) * b == a * b && |Differ(a + {x}, b)| == |Differ(a, b)| + 1
  {
    assert Differ(a + {x}, b) == Differ(a, b) + {x};
  }

  lemma BothMoreHot(a: set<nat>, b: set<nat>, x: nat)
    requires x !in a && x !in b
    ensures |(a + {x}) * (b + {x})| == |a * b| + 1 && Differ(a + {x}, b + {x}) == Differ(a, b)
  {
    assert (a + {x}) * (b + {x}) == a * b + {x};
  }

  /** The entry of the lower address is in one sequence only. */
  lemma MergeLower(es: seq<Entry>, fs: seq<Entry>, i: nat, j: nat, stable: nat, unstable: nat)
    requires Merged(es, fs, i, j, stable, unstable) && Binary(es)
    requires i < |es| && j < |fs| && es[i].addr < fs[j].addr
    ensures Merged(es, fs, i + 1, j, stable, unstable + if es[i].payload == 1 then 1 else 0)
  {
    HotNext(es, i);
    if es[i].payload == 1 {
      OneMoreHot(Hot(es, i), Hot(fs, j), es[i].addr);
    }
  }

  lemma MergedSwap(es: seq<Entry>, fs: seq<Entry>, i: nat, j: nat, stable: nat, unstable: nat)
    requires Merged(es, fs, i, j, stable, unstable)
    ensures Merged(fs, es, j, i, stable, unstable)
  {
    assert Hot(fs, j) * Hot(es, i) == Hot(es, i) * Hot(fs, j);
    assert Differ(Hot(fs, j), Hot(es, i)) == Differ(Hot(es, i), Hot(fs, j));
  }

  lemma MergeUpper(es: seq<Entry>, fs: seq<Entry>, i: nat, j: nat, stable: nat, unstable: nat)
    requires Merged(es, fs, i, j, stable, unstable) && Binary(fs)
    requires i < |es| && j < |fs| && fs[j].addr < es[i].addr
    ensures Merged(es, fs, i, j + 1, stable, unstable + if fs[j].payload == 1 then 1 else 0)
  {
    MergedSwap(es, fs, i, j, stable, unstable);
    MergeLower(fs, es, j, i, stable, unstable);
    MergedSwap(fs, es, j + 1, i, stable, unstable + if fs[j].payload == 1 then 1 else 0);
  }

  function With(a: set<nat>, x: nat, hot: bool): set<nat> { if hot then a + {x} else a }

  lemma EqualHot(a: set<nat>, b: set<nat>, x: nat, p: bool, q: bool)
    requires x !in a && x !in b
    ensures |With(a, x, p) * With(b, x, q)| == |a * b| + (if p && q then 1 else 0)
    ensures |Differ(With(a, x, p), With(b, x, q))| == |Differ(a, b)| + (if p != q then 1 else 0)
  {
    if p && q {
      BothMoreHot(a, b, x);
    } else if p {
      OneMoreHot(a, b, x);
    } else if q {
      OneMoreHot(b, a, x);
      assert Differ(b, a) == Differ(a, b) && Differ(b + {x}, a) == Differ(a, b + {x});
      assert (b + {x}) * a == a * (b + {x}) && b * a == a * b;
    }
  }

  lemma BelowNext(es: seq<Entry>, i: nat, fs: seq<Entry>, j: nat)
    requires Sorted(es) && Sorted(fs) && Below(es, i, fs, j) && i < |es| && j < |fs| && es[i].addr == fs[j].addr
    ensures Below(es, i + 1, fs, j + 1)
  {
  }

  lemma MergeEqual(es: seq<Entry>, fs: seq<Entry>, i: nat, j: nat, stable: nat, unstable: nat)
    requires Merged(es, fs, i, j, stable, unstable) && Binary(es) && Binary(fs)
    requires i < |es| && j < |fs| && es[i].addr == fs[j].addr
    ensures Merged(es, fs, i + 1, j + 1,
                   stable + (if es[i].payload + fs[j].payload == 2 then 1 else 0),
                   unstable + (if es[i].payload + fs[j].payload == 1 then 1 else 0))
  {
    HotNext(es, i);
    HotNext(fs, j);
    EqualHot(Hot(es, i), Hot(fs, j), es[i].addr, es[i].payload == 1, fs[j].payload == 1);
    BelowNext(es, i, fs, j);
    BelowNext(fs, j, es, i);
  }

  /** Once one sequence is read, the common hot pages are all found. */
  lemma MergeEnds(es: seq<Entry>, fs: seq<Entry>, j: nat, stable: nat, unstable: nat)
    requires Merged(es, fs, |es|, j, stable, unstable)
    ensures stable == |Hot(es, |es|) * Hot(fs, |fs|)|
  {
    var a, b, all := Hot(es, |es|), Hot(fs, j), Hot(fs, |fs|);
    forall m: nat | j <= m < |fs| ensures fs[m].addr !in a {
    }
    assert a * b == a * all;
  }

  datatype Read = Read(rc: int, addr: nat, hot: byte)

  /** The sequence has just been read at entry i. */
  ghost predicate ReadAt(a: AddrSequence, es: seq<Entry>, i: nat, r: Read)
    reads a`bufPool, a`bufUsed, a`items, a`addrSize, a`entries, a`clusters, a`firsts, a`walkIter
    reads set b | b in a.bufPool
  {
    && a.Valid() && a.entries == es
    && if i < |es| then r == Read(0, es[i].addr, es[i].payload) && a.WalkAt(i + 1) else r.rc != 0
  }

  method ReadFirst(a: AddrSequence) returns (r: Read)
    requires a.Valid()
    modifies a`walkIter
    ensures ReadAt(a, old(a.entries), 0, r)
  {
    var rc, addr, hot, unusedNid := a.GetFirst();
    r := Read(rc, addr, hot);
  }

  method ReadFirsts(a: AddrSequence, b: AddrSequence) returns (r0: Read, r1: Read)
    requires a != b && a.Valid() && b.Valid()
    modifies a`walkIter, b`walkIter
    ensures ReadAt(a, old(a.entries), 0, r0) && ReadAt(b, old(b.entries), 0, r1)
  {
    r0 := ReadFirst(a);
    r1 := ReadFirst(b);
  }

  /** The next entry of one sequence; the other one stays where it is. */
  method ReadNext(a: AddrSequence, ghost es: seq<Entry>, ghost i: nat, r0: Read,
                  ghost b: AddrSequence, ghost fs: seq<Entry>, ghost j: nat, ghost r1: Read) returns (r: Read)
    requires a != b && i < |es| && ReadAt(a, es, i, r0) && ReadAt(b, fs, j, r1)
    modifies a`walkIter
    ensures ReadAt(a, es, i + 1, r) && ReadAt(b, fs, j, r1)
  {
    var rc, addr, hot, unusedNid := a.GetNext(i + 1);
    r := Read(rc, addr, hot);
  }

  method CountUnstable(unstable: nat, hot: byte) returns (n: nat)
    ensures n == unstable + if hot == 1 then 1 else 0
  {
    n := unstable;
    if hot == 1 {
      n := n + 1;
    }
  }

  method CountBoth(stable: nat, unstable: nat, hot0: byte, hot1: byte) returns (s: nat, u: nat)
    requires hot0 <= 1 && hot1 <= 1
    ensures s == stable + if hot0 + hot1 == 2 then 1 else 0
    ensures u == unstable + if hot0 + hot1 == 1 then 1 else 0
  {
    s, u := stable, unstable;
    var finalHotness := hot0 + hot1;
    if finalHotness == 1 {
      u := u + 1;
    } else if finalHotness == 2 {
      s := s + 1;
    }
  }

  predicate IsRead(es: seq<Entry>, i: nat, r: Read) {
    i < |es| && r == Read(0, es[i].addr, es[i].payload)
  }

  /** The counting of one round of the merge loop. */
  method CountRound(ghost es: seq<Entry>, ghost fs: seq<Entry>, ghost i: nat, ghost j: nat, r0: Read, r1: Read,
                    stable: nat, unstable: nat) returns (s: nat, u: nat, ghost i': nat, ghost j': nat)
    requires Binary(es) && Binary(fs) && IsRead(es, i, r0) && IsRead(fs, j, r1)
    requires Merged(es, fs, i, j, stable, unstable)
    ensures i' == (if r0.addr <= r1.addr then i + 1 else i) && j' == (if r0.addr >= r1.addr then j + 1 else j)
    ensures Merged(es, fs, i', j', s, u)
  {
    s, i', j' := stable, i, j;
    if r0.addr < r1.addr {
      i' := i + 1;
      MergeLower(es, fs, i, j, stable, unstable);
      u := CountUnstable(unstable, r0.hot);
    } else if r0.addr > r1.addr {
      j' := j + 1;
      MergeUpper(es, fs, i, j, stable, unstable);
      u := CountUnstable(unstable, r1.hot);
    } else {
      i', j' := i + 1, j + 1;
      MergeEqual(es, fs, i, j, stable, unstable);
      s, u := CountBoth(stable, unstable, r0.hot, r1.hot);
    }
  }

  datatype Which = First | Second

  ghost predicate ReadIn(which: Which, a: AddrSequence, b: AddrSequence, es: seq<Entry>, fs: seq<Entry>, i: nat, j: nat,
                         r0: Read, r1: Read)
    reads a`bufPool, a`bufUsed, a`items, a`addrSize, a`entries, a`clusters, a`firsts, a`walkIter
    reads b`bufPool, b`bufUsed, b`items, b`addrSize, b`entries, b`clusters, b`firsts, b`walkIter
    reads set x | x in a.bufPool, set x | x in b.bufPool
  {
    match which
    case First => ReadAt(a, es, i, r0)
    case Second => ReadAt(b, fs, j, r1)
  }

  /** Both sequences have just been read. */
  ghost predicate BothRead(a: AddrSequence, b: AddrSequence, es: seq<Entry>, fs: seq<Entry>, i: nat, j: nat, r0: Read,
                           r1: Read)
    reads a`bufPool, a`bufUsed, a`items, a`addrSize, a`entries, a`clusters, a`firsts, a`walkIter
    reads b`bufPool, b`bufUsed, b`items, b`addrSize, b`entries, b`clusters, b`firsts, b`walkIter
    reads set x | x in a.bufPool, set x | x in b.bufPool
  {
    forall which: Which :: ReadIn(which, a, b, es, fs, i, j, r0, r1)
  }

  lemma ReadParts(a: AddrSequence, b: AddrSequence, es: seq<Entry>, fs: seq<Entry>, i: nat, j: nat, r0: Read, r1: Read)
    requires BothRead(a, b, es, fs, i, j, r0, r1)
    ensures ReadAt(a, es, i, r0) && ReadAt(b, fs, j, r1)
  {
    assert ReadIn(First, a, b, es, fs, i, j, r0, r1) && ReadIn(Second, a, b, es, fs, i, j, r0, r1);
  }

  lemma ReadEntries(a: AddrSequence, b: AddrSequence, es: seq<Entry>, fs: seq<Entry>, i: nat, j: nat, r0: Read, r1: Read)
    requires BothRead(a, b, es, fs, i, j, r0, r1)
    ensures r0.rc == 0 <==> IsRead(es, i, r0)
    ensures r1.rc == 0 <==> IsRead(fs, j, r1)
  {
    assert ReadIn(First, a, b, es, fs, i, j, r0, r1) && ReadIn(Second, a, b, es, fs, i, j, r0, r1);
  }

  /** The reading of one round: whoever is not behind moves on. */
  method ReadRound(a: AddrSequence, b: AddrSequence, ghost es: seq<Entry>, ghost fs: seq<Entry>, ghost i: nat, ghost j: nat,
                   r0: Read, r1: Read) returns (r0': Read, r1': Read, ghost i': nat, ghost j': nat)
    requires a != b && i < |es| && j < |fs| && BothRead(a, b, es, fs, i, j, r0, r1)
    modifies a`walkIter, b`walkIter
    ensures BothRead(a, b, es, fs, i', j', r0', r1')
    ensures i' == (if r0.addr <= r1.addr then i + 1 else i) && j' == (if r0.addr >= r1.addr then j + 1 else j)
  {
    r0', r1', i', j' := r0, r1, i, j;
    ReadParts(a, b, es, fs, i, j, r0, r1);
    if r0.addr <= r1.addr {
      r0' := ReadNext(a, es, i, r0, b, fs, j, r1);
      i' := i + 1;
    }
    if r0.addr >= r1.addr {
      r1' := ReadNext(b, fs, j, r1, a, es, i', r0');
      j' := j + 1;
    }
  }

  /** One round of the merge loop. */
  method MergeRound(a: AddrSequence, b: AddrSequence, ghost es: seq<Entry>, ghost fs: seq<Entry>, ghost i: nat,
                    ghost j: nat, r0: Read, r1: Read, stable: nat, unstable: nat)
    returns (s: nat, u: nat, ghost i': nat, ghost j': nat, r0': Read, r1': Read)
    requires a != b && Binary(es) && Binary(fs) && BothRead(a, b, es, fs, i, j, r0, r1) && r0.rc == 0 && r1.rc == 0
    requires Merged(es, fs, i, j, stable, unstable)
    modifies a`walkIter, b`walkIter
    ensures BothRead(a, b, es, fs, i', j', r0', r1') && Merged(es, fs, i', j', s, u)
    ensures i <= i' && j <= j' && i + j < i' + j'
  {
    ReadEntries(a, b, es, fs, i, j, r0, r1);
    s, u, i', j' := CountRound(es, fs, i, j, r0, r1, stable, unstable);
    r0', r1', i', j' := ReadRound(a, b, es, fs, i, j, r0, r1);
  }

  /** calc_page_hotness_drifting for one page type of two normalized scans: the stable pages are those
      hot in both, the unstable ones those hot in one of what was read of each. */
  method CalcPageHotnessDrifting(a: AddrSequence, b: AddrSequence)
    returns (stable: nat, unstable: nat, ghost i: nat, ghost j: nat)
    requires a != b && a.Valid() && b.Valid() && Binary(a.entries) && Binary(b.entries)
    modifies a`walkIter, b`walkIter
    ensures stable == |Hot(a.entries, |a.entries|) * Hot(b.entries, |b.entries|)|
    ensures i <= |a.entries| && j <= |b.entries| && (i == |a.entries| || j == |b.entries|)
    ensures unstable == |Differ(Hot(a.entries, i), Hot(b.entries, j))|
  {
    ghost var es, fs := a.entries, b.entries;
    stable, unstable, i, j := 0, 0, 0, 0;
    MergeStarts(es, fs);
    var r0, r1 := ReadFirsts(a, b);
    assert BothRead(a, b, es, fs, i, j, r0, r1) by {
      forall which: Which ensures ReadIn(which, a, b, es, fs, i, j, r0, r1) {
      }
    }
    while r0.rc == 0 && r1.rc == 0
      invariant BothRead(a, b, es, fs, i, j, r0, r1) && Merged(es, fs, i, j, stable, unstable)
      decreases |es| - i + |fs| - j
    {
      stable, unstable, i, j, r0, r1 := MergeRound(a, b, es, fs, i, j, r0, r1, stable, unstable);
    }
    ReadParts(a, b, es, fs, i, j, r0, r1);
    MergeOver(es, fs, i, j, stable, unstable);
  }

  lemma MergeOver(es: seq<Entry>, fs: seq<Entry>, i: nat, j: nat, stable: nat, unstable: nat)
    requires Merged(es, fs, i, j, stable, unstable) && (i == |es| || j == |fs|)
    ensures stable == |Hot(es, |es|) * Hot(fs, |fs|)|
  {
    if i == |es| {
      MergeEnds(es, fs, j, stable, unstable);
    } else {
      MergedSwap(es, fs, i, j, stable, unstable);
      MergeEnds(fs, es, i, stable, unstable);
      assert Hot(fs, |fs|) * Hot(es, |es|) == Hot(es, |es|) * Hot(fs, |fs|);
    }
  }

  lemma MergeStarts(es: seq<Entry>, fs: seq<Entry>)
    requires Sorted(es) && Sorted(fs)
    ensures Merged(es, fs, 0, 0, 0, 0)
  {
    assert Hot(es, 0) == {} && Hot(fs, 0) == {};
  }
}
