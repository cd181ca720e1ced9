/** count_refs_one of EPTScan.cc: pages by location and reference count. */
module Histogram {
  import opened AddrClusters
  import opened AddrSequence

  const MAX_NID := 31
  const REF_LOC_UNKNOWN := 32
  const REF_LOC_DRAM := 33
  const REF_LOC_PMEM := 34
  const REF_LOC_ALL := 35
  const REF_LOC_MAX := 36

  /** What the system knows of a node number. */
  datatype NodeKind = Invalid | Dram | Pmem

  type NodeMap = int -> NodeKind

  /** The number of entries with a property. */
  function CountOf(es: seq<Entry>, p: Entry -> bool): (n: nat)
    ensures n <= |es|
  {
    if es == [] then 0 else CountOf(es[..|es| - 1], p) + if p(es[|es| - 1]) then 1 else 0
  }

  lemma CountNext(es: seq<Entry>, i: nat, p: Entry -> bool)
    requires i < |es|
    ensures CountOf(es[..i + 1], p) == CountOf(es[..i], p) + if p(es[i]) then 1 else 0
  {
    assert es[..i + 1][..i] == es[..i];
  }

  /** The row of the histogram a page is counted in first. */
  function RowOf(nid: int): int { if nid >= 0 then nid else REF_LOC_UNKNOWN }

  function Clamped(payload: nat, nrWalks: nat): (l: nat)
    ensures l <= nrWalks
  {
    if payload < nrWalks then payload else nrWalks
  }

  function InCell(row: int, level: nat, nrWalks: nat): Entry -> bool {
    (e: Entry) => RowOf(e.nid) == row && Clamped(e.payload, nrWalks) == level
  }

  /** The pages on nodes of a kind with a clamped reference count. */
  function OnKind(kind: NodeKind, nodes: NodeMap, level: nat, nrWalks: nat): Entry -> bool {
    (e: Entry) => 0 <= e.nid <= MAX_NID && nodes(e.nid) == kind && Clamped(e.payload, nrWalks) == level
  }

  /** The pages of the nodes 0 .. n - 1 of a kind. */
  function BelowNode(kind: NodeKind, nodes: NodeMap, n: nat, level: nat, nrWalks: nat): Entry -> bool {
    (e: Entry) => 0 <= e.nid < n && nodes(e.nid) == kind && Clamped(e.payload, nrWalks) == level
  }

  lemma {:induction false} CountSame(es: seq<Entry>, p: Entry -> bool, q: Entry -> bool)
    requires forall e: Entry :: p(e) == q(e)
    ensures CountOf(es, p) == CountOf(es, q)
  {
    if es != [] {
      CountSame(es[..|es| - 1], p, q);
    }
  }

  lemma {:induction false} CountNone(es: seq<Entry>, p: Entry -> bool)
    requires forall e: Entry :: !p(e)
    ensures CountOf(es, p) == 0
  {
    if es != [] {
      CountNone(es[..|es| - 1], p);
    }
  }

  /** Two properties no entry has both of, and the one that is either. */
  lemma {:induction false} CountEither(es: seq<Entry>, p: Entry -> bool, q: Entry -> bool, r: Entry -> bool)
    requires forall e: Entry :: r(e) == (p(e) || q(e)) && !(p(e) && q(e))
    ensures CountOf(es, r) == CountOf(es, p) + CountOf(es, q)
  {
    if es != [] {
      CountEither(es[..|es| - 1], p, q, r);
    }
  }

  lemma NextNode(es: seq<Entry>, kind: NodeKind, nodes: NodeMap, n: nat, level: nat, nrWalks: nat)
    requires n <= MAX_NID
    ensures CountOf(es, BelowNode(kind, nodes, n + 1, level, nrWalks))
            == CountOf(es, BelowNode(kind, nodes, n, level, nrWalks))
               + if nodes(n) == kind then CountOf(es, InCell(n, level, nrWalks)) else 0
  {
    if nodes(n) == kind {
      CountEither(es, BelowNode(kind, nodes, n, level, nrWalks), InCell(n, level, nrWalks),
                  BelowNode(kind, nodes, n + 1, level, nrWalks));
    } else {
      CountSame(es, BelowNode(kind, nodes, n + 1, level, nrWalks), BelowNode(kind, nodes, n, level, nrWalks));
    }
  }

  /** The first loop: every page in the row of its node. */
  method CountPages(a: AddrSequence, h: array2<nat>, nrWalks: nat)
    requires a.Valid() && h.Length0 == REF_LOC_MAX && h.Length1 == nrWalks + 1
    requires forall r: nat, l: nat :: r < REF_LOC_MAX && l <= nrWalks ==> h[r, l] == 0
    requires forall k :: 0 <= k < |a.entries| ==> a.entries[k].nid <= MAX_NID
    modifies h, a`walkIter
    ensures forall r: nat, l: nat :: r < REF_LOC_MAX && l <= nrWalks ==> h[r, l] == CountOf(a.entries, InCell(r, l, nrWalks))
  {
    ghost var w := 0;
    var rc, addr, refCount, nid := a.GetFirst();
    while rc == 0
      invariant a.Valid() && w <= |a.entries|
      invariant if w < |a.entries|
                then rc == 0 && a.WalkAt(w + 1) && refCount == a.entries[w].payload && nid == a.entries[w].nid
                else rc != 0
      invariant forall r: nat, l: nat :: r < REF_LOC_MAX && l <= nrWalks ==>
                  h[r, l] == CountOf(a.entries[..w], InCell(r, l, nrWalks))
      decreases |a.entries| - w
    {
      var level := Clamped(refCount, nrWalks);
      CountCell(a, h, nrWalks, w, RowOf(nid), level);
      w := w + 1;
      rc, addr, refCount, nid := a.GetNext(w);
    }
    assert a.entries[..w] == a.entries;
  }

  method CountCell(ghost a: AddrSequence, h: array2<nat>, nrWalks: nat, ghost w: nat, row: nat, level: nat)
    requires h.Length0 == REF_LOC_MAX && h.Length1 == nrWalks + 1 && w < |a.entries|
    requires row == RowOf(a.entries[w].nid) < REF_LOC_MAX && level == Clamped(a.entries[w].payload, nrWalks)
    requires forall r: nat, l: nat :: r < REF_LOC_MAX && l <= nrWalks ==>
               h[r, l] == CountOf(a.entries[..w], InCell(r, l, nrWalks))
    modifies h
    ensures forall r: nat, l: nat :: r < REF_LOC_MAX && l <= nrWalks ==>
              h[r, l] == CountOf(a.entries[..w + 1], InCell(r, l, nrWalks))
  {
    h[row, level] := h[row, level] + 1;
    forall r: nat, l: nat | r < REF_LOC_MAX && l <= nrWalks
      ensures h[r, l] == CountOf(a.entries[..w + 1], InCell(r, l, nrWalks))
    {
      CountNext(a.entries, w, InCell(r, l, nrWalks));
    }
  }

  /** The rows of the nodes are as counted. */
  ghost predicate NodeRows(h: array2<nat>, es: seq<Entry>, nrWalks: nat)
    requires h.Length0 == REF_LOC_MAX && h.Length1 == nrWalks + 1
    reads h
  {
    forall r: nat, l: nat :: r <= REF_LOC_UNKNOWN && l <= nrWalks ==> h[r, l] == CountOf(es, InCell(r, l, nrWalks))
  }

  /** The sums over the first n nodes, and over one more at the levels below m. */
  ghost predicate SumsOk(h: array2<nat>, es: seq<Entry>, nodes: NodeMap, nrWalks: nat, n: nat, m: nat)
    requires h.Length0 == REF_LOC_MAX && h.Length1 == nrWalks + 1
    reads h
  {
    forall l: nat :: l <= nrWalks ==>
      var k := if l < m then n + 1 else n;
      && h[REF_LOC_DRAM, l] == CountOf(es, BelowNode(Dram, nodes, k, l, nrWalks))
      && h[REF_LOC_PMEM, l] == CountOf(es, BelowNode(Pmem, nodes, k, l, nrWalks))
      && h[REF_LOC_ALL, l] == h[REF_LOC_DRAM, l] + h[REF_LOC_PMEM, l]
  }

  /** One step of the second loop: a node's pages at one reference count join those of its kind. */
  method AddCell(h: array2<nat>, ghost es: seq<Entry>, nodes: NodeMap, nrWalks: nat, i: nat, j: nat)
    requires h.Length0 == REF_LOC_MAX && h.Length1 == nrWalks + 1 && i <= MAX_NID && j <= nrWalks && nodes(i) != Invalid
    requires NodeRows(h, es, nrWalks) && SumsOk(h, es, nodes, nrWalks, i, j)
    modifies h
    ensures NodeRows(h, es, nrWalks) && SumsOk(h, es, nodes, nrWalks, i, j + 1)
  {
    var locIndex := if nodes(i) == Pmem then REF_LOC_PMEM else REF_LOC_DRAM;
    NextNode(es, Dram, nodes, i, j, nrWalks);
    NextNode(es, Pmem, nodes, i, j, nrWalks);
    h[locIndex, j] := h[locIndex, j] + h[i, j];
    h[REF_LOC_ALL, j] := h[REF_LOC_ALL, j] + h[i, j];
  }

  lemma SkipNode(h: array2<nat>, es: seq<Entry>, nodes: NodeMap, nrWalks: nat, i: nat)
    requires h.Length0 == REF_LOC_MAX && h.Length1 == nrWalks + 1 && i <= MAX_NID && nodes(i) == Invalid
    requires SumsOk(h, es, nodes, nrWalks, i, 0)
    ensures SumsOk(h, es, nodes, nrWalks, i + 1, 0)
  {
    forall l: nat | l <= nrWalks
      ensures CountOf(es, BelowNode(Dram, nodes, i + 1, l, nrWalks)) == CountOf(es, BelowNode(Dram, nodes, i, l, nrWalks))
      ensures CountOf(es, BelowNode(Pmem, nodes, i + 1, l, nrWalks)) == CountOf(es, BelowNode(Pmem, nodes, i, l, nrWalks))
    {
      NextNode(es, Dram, nodes, i, l, nrWalks);
      NextNode(es, Pmem, nodes, i, l, nrWalks);
    }
  }

  /** The second loop of count_refs_one. */
  method AddNodes(h: array2<nat>, ghost es: seq<Entry>, nodes: NodeMap, nrWalks: nat)
    requires h.Length0 == REF_LOC_MAX && h.Length1 == nrWalks + 1
    requires NodeRows(h, es, nrWalks) && SumsOk(h, es, nodes, nrWalks, 0, 0)
    modifies h
    ensures NodeRows(h, es, nrWalks) && SumsOk(h, es, nodes, nrWalks, MAX_NID + 1, 0)
  {
    for i := 0 to MAX_NID + 1
      invariant NodeRows(h, es, nrWalks) && SumsOk(h, es, nodes, nrWalks, i, 0)
    {
      if nodes(i) == Invalid {
        SkipNode(h, es, nodes, nrWalks, i);
        continue;
      }
      for j := 0 to nrWalks + 1
        invariant NodeRows(h, es, nrWalks) && SumsOk(h, es, nodes, nrWalks, i, j)
      {
        AddCell(h, es, nodes, nrWalks, i, j);
      }
    }
  }

  /** count_refs_one, for node numbers up to MAX_NID: the DRAM and PMEM rows hold the pages on nodes of
      that kind by clamped reference count, the ALL row these and the pages nobody located. */
  method CountRefsOne(a: AddrSequence, h: array2<nat>, nodes: NodeMap, nrWalks: nat)
    requires a.Valid() && h.Length0 == REF_LOC_MAX && h.Length1 == nrWalks + 1
    requires forall k :: 0 <= k < |a.entries| ==> a.entries[k].nid <= MAX_NID
    modifies h, a`walkIter
    ensures forall l: nat :: l <= nrWalks ==>
              && h[REF_LOC_DRAM, l] == CountOf(a.entries, OnKind(Dram, nodes, l, nrWalks))
              && h[REF_LOC_PMEM, l] == CountOf(a.entries, OnKind(Pmem, nodes, l, nrWalks))
              && h[REF_LOC_ALL, l] == h[REF_LOC_DRAM, l] + h[REF_LOC_PMEM, l] + CountOf(a.entries, InCell(REF_LOC_UNKNOWN, l, nrWalks))
  {
    Clear(h);
    CountPages(a, h, nrWalks);
    ghost var es := a.entries;
    SumsStart(h, es, nodes, nrWalks);
    AddNodes(h, es, nodes, nrWalks);
    AllNodes(es, nodes, nrWalks);
    AddUnknown(h, es, nodes, nrWalks);
  }

  /** The rows of the two kinds of nodes, and the ALL row with the unknown pages of the first k counts. */
  ghost predicate KindRows(h: array2<nat>, es: seq<Entry>, nodes: NodeMap, nrWalks: nat, k: nat)
    requires h.Length0 == REF_LOC_MAX && h.Length1 == nrWalks + 1
    reads h
  {
    forall l: nat :: l <= nrWalks ==>
      && h[REF_LOC_DRAM, l] == CountOf(es, OnKind(Dram, nodes, l, nrWalks))
      && h[REF_LOC_PMEM, l] == CountOf(es, OnKind(Pmem, nodes, l, nrWalks))
      && h[REF_LOC_ALL, l] == h[REF_LOC_DRAM, l] + h[REF_LOC_PMEM, l]
         + if l < k then CountOf(es, InCell(REF_LOC_UNKNOWN, l, nrWalks)) else 0
  }

  method AddUnknown(h: array2<nat>, ghost es: seq<Entry>, nodes: NodeMap, nrWalks: nat)
    requires h.Length0 == REF_LOC_MAX && h.Length1 == nrWalks + 1
    requires NodeRows(h, es, nrWalks) && KindRows(h, es, nodes, nrWalks, 0)
    modifies h
    ensures KindRows(h, es, nodes, nrWalks, nrWalks + 1)
  {
    for k := 0 to nrWalks + 1
      invariant NodeRows(h, es, nrWalks) && KindRows(h, es, nodes, nrWalks, k)
    {
      h[REF_LOC_ALL, k] := h[REF_LOC_ALL, k] + h[REF_LOC_UNKNOWN, k];
    }
  }

  /** reset_one_ref_count. */
  method Clear(h: array2<nat>)
    modifies h
    ensures forall r: nat, l: nat :: r < h.Length0 && l < h.Length1 ==> h[r, l] == 0
  {
    for i := 0 to h.Length0
      invariant forall r: nat, l: nat :: r < i && l < h.Length1 ==> h[r, l] == 0
    {
      for j := 0 to h.Length1
        invariant forall r: nat, l: nat :: r < i && l < h.Length1 ==> h[r, l] == 0
        invariant forall l: nat :: l < j ==> h[i, l] == 0
      {
        h[i, j] := 0;
      }
    }
  }

  lemma SumsStart(h: array2<nat>, es: seq<Entry>, nodes: NodeMap, nrWalks: nat)
    requires h.Length0 == REF_LOC_MAX && h.Length1 == nrWalks + 1
    requires forall k :: 0 <= k < |es| ==> es[k].nid <= MAX_NID
    requires forall r: nat, l: nat :: r < REF_LOC_MAX && l <= nrWalks ==> h[r, l] == CountOf(es, InCell(r, l, nrWalks))
    ensures NodeRows(h, es, nrWalks) && SumsOk(h, es, nodes, nrWalks, 0, 0)
  {
    forall l: nat | l <= nrWalks
      ensures CountOf(es, BelowNode(Dram, nodes, 0, l, nrWalks)) == 0 && CountOf(es, BelowNode(Pmem, nodes, 0, l, nrWalks)) == 0
      ensures h[REF_LOC_DRAM, l] == 0 && h[REF_LOC_PMEM, l] == 0 && h[REF_LOC_ALL, l] == 0
    {
      CountNone(es, BelowNode(Dram, nodes, 0, l, nrWalks));
      CountNone(es, BelowNode(Pmem, nodes, 0, l, nrWalks));
      NoneInRow(es, REF_LOC_DRAM, l, nrWalks);
      NoneInRow(es, REF_LOC_PMEM, l, nrWalks);
      NoneInRow(es, REF_LOC_ALL, l, nrWalks);
    }
  }

  lemma {:induction false} NoneInRow(es: seq<Entry>, row: int, level: nat, nrWalks: nat)
    requires row > REF_LOC_UNKNOWN && forall k :: 0 <= k < |es| ==> es[k].nid <= MAX_NID
    ensures CountOf(es, InCell(row, level, nrWalks)) == 0
  {
    if es != [] {
      NoneInRow(es[..|es| - 1], row, level, nrWalks);
    }
  }

  lemma AllNodes(es: seq<Entry>, nodes: NodeMap, nrWalks: nat)
    ensures forall l: nat :: l <= nrWalks ==>
              && CountOf(es, BelowNode(Dram, nodes, MAX_NID + 1, l, nrWalks)) == CountOf(es, OnKind(Dram, nodes, l, nrWalks))
              && CountOf(es, BelowNode(Pmem, nodes, MAX_NID + 1, l, nrWalks)) == CountOf(es, OnKind(Pmem, nodes, l, nrWalks))
  {
    forall l: nat | l <= nrWalks
      ensures CountOf(es, BelowNode(Dram, nodes, MAX_NID + 1, l, nrWalks)) == CountOf(es, OnKind(Dram, nodes, l, nrWalks))
      ensures CountOf(es, BelowNode(Pmem, nodes, MAX_NID + 1, l, nrWalks)) == CountOf(es, OnKind(Pmem, nodes, l, nrWalks))
    {
      CountSame(es, BelowNode(Dram, nodes, MAX_NID + 1, l, nrWalks), OnKind(Dram, nodes, l, nrWalks));
      CountSame(es, BelowNode(Pmem, nodes, MAX_NID + 1, l, nrWalks), OnKind(Pmem, nodes, l, nrWalks));
    }
  }
}
