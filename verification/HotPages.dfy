/** The users of AddrSequence: the calls of a walk (ProcIdlePages.cc), the normalization of payloads
    (EPTMigrate.cc) and the comparison of two scans (GlobalScan.cc). */
module HotPages {
  import opened AddrClusters
  import opened AddrSequence
  import opened AddrRuns

  /** The first n calls of a first walk have been made. */
  ghost predicate Appending(a: AddrSequence, ts: seq<Touch>, n: nat)
    reads a, set b | b in a.bufPool
  {
    && a.Valid() && a.nrWalks < 2 && n <= |ts| && a.entries == Appended(ts[..n])
    && (a.entries != [] ==> a.lastClusterEnd == a.entries[|a.entries| - 1].addr)
  }

  method AppendOne(a: AddrSequence, ts: seq<Touch>, i: nat)
    requires Appending(a, ts, i) && i < |ts| && a.Packed()
    modifies a`clusters, a`items, a`entries, a`firsts, a`bufPool, a`bufUsed, a`addrSize,
             a`lastClusterEnd, a`findIter, a`topBytes, a`youngBytes, a.bufPool
    ensures Appending(a, ts, i + 1) && a.Packed()
    ensures a.topBytes == old(a.topBytes) && a.youngBytes == old(a.youngBytes)
    ensures old(a.bufPool) <= a.bufPool && fresh(set b | b in a.bufPool[|old(a.bufPool)|..])
  {
    var rc := a.IncPayload(ts[i].addr, ts[i].n, 0);
    assert ts[..i + 1][..i] == ts[..i];
  }

  /** The calls of a first walk. */
  method AppendWalk(a: AddrSequence, ts: seq<Touch>)
    requires a.Valid() && a.nrWalks < 2 && a.entries == [] && a.Packed()
    modifies a, a.bufPool
    ensures a.Valid() && a.entries == Appended(ts) && a.nrWalks == old(a.nrWalks)
    ensures a.topBytes == old(a.topBytes) && a.youngBytes == old(a.youngBytes) && a.Packed()
    ensures old(a.bufPool) <= a.bufPool && fresh(set b | b in a.bufPool[|old(a.bufPool)|..])
  {
    assert ts[..0] == [];
    for i := 0 to |ts|
      invariant Appending(a, ts, i) && a.Packed() && a.nrWalks == old(a.nrWalks)
      invariant a.topBytes == old(a.topBytes) && a.youngBytes == old(a.youngBytes)
      invariant old(a.bufPool) <= a.bufPool && fresh(set b | b in a.bufPool[|old(a.bufPool)|..])
    {
      AppendOne(a, ts, i);
    }
    assert ts[..|ts|] == ts;
  }

  /** The calls of a later walk. */
  method UpdateWalkCalls(a: AddrSequence, ts: seq<Touch>)
    requires a.Valid() && a.nrWalks >= 1
    modifies a, a.bufPool
    ensures a.Valid() && a.nrWalks == old(a.nrWalks) + 1 && a.bufPool == old(a.bufPool) && a.firsts == old(a.firsts)
    ensures var s := UpdateWalk(old(a.entries), a.pagesize, a.nrWalks, ts);
            a.entries == s.entries && a.topBytes == s.top && a.youngBytes == s.young
  {
    a.Rewind();
    ghost var es, walks := a.entries, a.nrWalks;
    assert ts[..0] == [];
    for i := 0 to |ts|
      invariant a.Valid() && a.nrWalks == walks && a.bufPool == old(a.bufPool) && a.firsts == old(a.firsts)
      invariant Marks(a.entries, UpdateWalk(es, a.pagesize, walks, ts[..i]).find, a.topBytes, a.youngBytes)
                == UpdateWalk(es, a.pagesize, walks, ts[..i])
      invariant a.FindAt(UpdateWalk(es, a.pagesize, walks, ts[..i]).find)
    {
      ghost var s := UpdateWalk(es, a.pagesize, walks, ts[..i]);
      var rc := a.UpdateAddr(ts[i].addr, ts[i].n, true, s.find);
      assert ts[..i + 1][..i] == ts[..i];
    }
    assert ts[..|ts|] == ts;
  }

  /** The sequence as `s` says. */
  ghost predicate AtMarks(a: AddrSequence, s: Marks)
    reads a
  {
    a.FindAt(s.find) && a.entries == s.entries && a.topBytes == s.top && a.youngBytes == s.young
  }

  /** One call of update_nodeid. */
  method PlaceCall(a: AddrSequence, p: Place, ghost s: Marks) returns (ghost s': Marks)
    requires a.Valid() && a.nrWalks < 2 && AtMarks(a, s)
    modifies a`findIter, a`items, a`entries, a`topBytes, a`youngBytes, a.bufPool
    ensures a.Valid() && s' == PlaceStep(s, a.pagesize, a.nrWalks, p) && AtMarks(a, s')
  {
    var rc := a.UpdateNodeid(p.addr, p.nid, p.loc, s.find);
    s' := PlaceStep(s, a.pagesize, a.nrWalks, p);
  }

  /** The calls of update_nodeid between the first two walks. */
  method PlaceCalls(a: AddrSequence, ps: seq<Place>)
    requires a.Valid() && a.nrWalks < 2
    modifies a`findIter, a`lastClusterEnd, a`items, a`entries, a`topBytes, a`youngBytes, a.bufPool
    ensures a.Valid()
    ensures var s := PlaceWalk(Marks(old(a.entries), 0, old(a.topBytes), old(a.youngBytes)), a.pagesize, a.nrWalks, ps);
            a.entries == s.entries && a.topBytes == s.top && a.youngBytes == s.young
  {
    ghost var s0 := Marks(a.entries, 0, a.topBytes, a.youngBytes);
    ghost var s := s0;
    a.PrepareUpdate();
    assert ps[..0] == [];
    for i := 0 to |ps|
      invariant a.Valid() && AtMarks(a, s) && s == PlaceWalk(s0, a.pagesize, a.nrWalks, ps[..i])
    {
      s := PlaceCall(a, ps[i], s);
      assert ps[..i + 1][..i] == ps[..i];
    }
    assert ps[..|ps|] == ps;
  }

  /** The appends of a run's first walk. */
  method FirstAppends(a: AddrSequence, ts: seq<Touch>)
    requires a.Valid()
    modifies a, a.bufPool
    ensures a.Valid() && a.nrWalks == 1 && a.entries == Appended(ts) && a.topBytes == a.youngBytes == NONE && a.Packed()
    ensures fresh(set b | b in a.bufPool)
  {
    a.Clear();
    a.Rewind();
    AppendWalk(a, ts);
  }

  /** The sequence is what the walk has made of the entries. */
  ghost predicate WalkedBy(a: AddrSequence, ts: seq<Touch>, es: seq<Entry>, n: nat)
    reads a
  {
    var s := UpdateWalk(es, a.pagesize, n + 1, ts);
    a.entries == s.entries && a.topBytes == s.top && a.youngBytes == s.young
  }

  /** What the sequence is after n walks of a run: entries and, but for the first walk, byte counts. */
  ghost predicate AfterWalks(a: AddrSequence, walks: seq<seq<Touch>>, where: Places, n: nat)
    requires 1 <= n <= |walks|
    reads a
  {
    && a.nrWalks == n && a.entries == AfterRun(walks[..n], where, a.pagesize)
    && (n >= 2 ==> WalkedBy(a, walks[n - 1], AfterRun(walks[..n - 1], where, a.pagesize), n - 1))
  }

  /** The first walk of a run and the placement of its pages. */
  method FirstCalls(a: AddrSequence, walks: seq<seq<Touch>>, ps: seq<Place>)
    requires a.Valid() && walks != [] && Ascending(walks[0]) && PlacesAscend(ps)
    modifies a, a.bufPool
    ensures a.Valid() && AfterWalks(a, walks, WhereOf(ps), 1) && fresh(set b | b in a.bufPool) && a.Packed()
    ensures PutTallies(a.youngBytes, NONE, a.pagesize, Appended(walks[0]), WhereOf(ps), 1) && a.topBytes == a.youngBytes
  {
    FirstAppends(a, walks[0]);
    ghost var es := a.entries;
    FirstPlaced(walks, ps, a.pagesize, Marks(a.entries, 0, a.topBytes, a.youngBytes));
    PlaceCalls(a, ps);
    CompactSame(a.pagesize, a.firsts, es, a.entries);
  }

  lemma FirstPlaced(walks: seq<seq<Touch>>, ps: seq<Place>, pagesize: nat, s: Marks)
    requires walks != [] && Ascending(walks[0]) && PlacesAscend(ps) && s == Marks(Appended(walks[0]), 0, NONE, NONE)
    ensures var r := PlaceWalk(s, pagesize, 1, ps);
            && r.entries == AfterRun(walks[..1], WhereOf(ps), pagesize) && r.top == r.young
            && PutTallies(r.young, NONE, pagesize, Appended(walks[0]), WhereOf(ps), 1)
  {
    AppendedAll(walks[0]);
    PlaceWalkPlaces(s, pagesize, 1, ps);
    assert walks[..1] == [walks[0]];
    var r := PlaceWalk(s, pagesize, 1, ps);
    assert forall l: Loc :: r.top[l] == r.young[l];
  }

  lemma StaysPacked(a: AddrSequence, es: seq<Entry>, ts: seq<Touch>, n: nat)
    requires a.pagesize > 0 && WalkedBy(a, ts, es, n)
    ensures Compact(a.pagesize, a.firsts, es) ==> a.Packed()
  {
    SameAddrs(es, a.pagesize, n + 1, ts);
    if Compact(a.pagesize, a.firsts, es) {
      CompactSame(a.pagesize, a.firsts, es, a.entries);
    }
  }

  /** The calls of a later walk leave the clusters as they are. */
  method NextWalkCalls(a: AddrSequence, ts: seq<Touch>, ghost es: seq<Entry>, ghost n: nat)
    requires a.Valid() && a.nrWalks == n >= 1 && a.entries == es
    modifies a, a.bufPool
    ensures a.Valid() && a.nrWalks == n + 1 && a.bufPool == old(a.bufPool)
    ensures WalkedBy(a, ts, es, n)
    ensures old(a.Packed()) ==> a.Packed()
  {
    UpdateWalkCalls(a, ts);
    assert WalkedBy(a, ts, es, n);
    StaysPacked(a, es, ts, n);
  }

  /** A later walk of a run. */
  method NextCalls(a: AddrSequence, walks: seq<seq<Touch>>, ghost where: Places, n: nat)
    requires a.Valid() && 1 <= n < |walks| && AfterWalks(a, walks, where, n)
    modifies a, a.bufPool
    ensures a.Valid() && AfterWalks(a, walks, where, n + 1) && a.bufPool == old(a.bufPool)
    ensures old(a.Packed()) ==> a.Packed()
  {
    NextWalkCalls(a, walks[n], AfterRun(walks[..n], where, a.pagesize), n);
    AfterNext(a, walks, where, n);
  }

  lemma AfterNext(a: AddrSequence, walks: seq<seq<Touch>>, where: Places, n: nat)
    requires 1 <= n < |walks| && a.nrWalks == n + 1
    requires WalkedBy(a, walks[n], AfterRun(walks[..n], where, a.pagesize), n)
    ensures AfterWalks(a, walks, where, n + 1)
  {
    NextIs(walks, where, a.pagesize, n);
  }

  lemma NextIs(walks: seq<seq<Touch>>, where: Places, pagesize: nat, n: nat)
    requires 1 <= n < |walks|
    ensures AfterRun(walks[..n + 1], where, pagesize)
            == UpdateWalk(AfterRun(walks[..n], where, pagesize), pagesize, n + 1, walks[n]).entries
  {
    assert walks[..n + 1][..n] == walks[..n];
  }

  /** A run: the sequence is cleared and filled by the first walk, its pages are placed, and each later
      walk counts what it sees accessed. Every payload is the number of walks that saw its page, and the
      sequence has a cluster only where one was needed. */
  method RunCalls(a: AddrSequence, walks: seq<seq<Touch>>, ps: seq<Place>)
    requires a.Valid() && RunOk(walks) && PlacesAscend(ps)
    modifies a, a.bufPool
    ensures a.Valid() && AfterWalks(a, walks, WhereOf(ps), |walks|)
    ensures RunEntries(a.entries, walks[0], walks) && a.Packed()
  {
    assert WalkOfRun(walks[0]);
    FirstCalls(a, walks, ps);
    for i := 1 to |walks|
      invariant a.Valid() && AfterWalks(a, walks, WhereOf(ps), i) && fresh(set b | b in a.bufPool) && a.Packed()
    {
      NextCalls(a, walks, WhereOf(ps), i);
    }
    assert walks[..|walks|] == walks;
    ghost var es := RunPayloads(walks, WhereOf(ps), a.pagesize);
  }

  // ----- normalize_addr_sequence -----

  function Indicator(payload: byte, lo: int, hi: int): byte { if lo <= payload <= hi then 1 else 0 }

  function Normalized(es: seq<Entry>, lo: int, hi: int): (r: seq<Entry>)
    ensures |r| == |es| && forall k :: 0 <= k < |es| ==> r[k] == es[k].(payload := Indicator(es[k].payload, lo, hi))
  {
    seq(|es|, k requires 0 <= k < |es| => es[k].(payload := Indicator(es[k].payload, lo, hi)))
  }

  /** The first w entries are normalized, the others are as before. */
  predicate NormalizedTo(now: seq<Entry>, was: seq<Entry>, lo: int, hi: int, w: nat) {
    && |now| == |was| && w <= |was|
    && (forall k :: 0 <= k < w ==> now[k] == was[k].(payload := Indicator(was[k].payload, lo, hi)))
    && (forall k :: w <= k < |was| ==> now[k] == was[k])
  }

  lemma NormalizeNext(now: seq<Entry>, was: seq<Entry>, lo: int, hi: int, w: nat, f: nat, s: Marks, s': Marks, rc: int,
                      pagesize: nat, nrWalks: nat)
    requires Sorted(was) && NormalizedTo(now, was, lo, hi, w) && w < |was| && f <= w
    requires s.entries == now && s.find == f
    requires (s', rc) == UpdateStep(s, pagesize, nrWalks, was[w].addr, Indicator(was[w].payload, lo, hi), false)
    ensures rc == 0 && s'.find == w && NormalizedTo(s'.entries, was, lo, hi, w + 1)
  {
    var m := Seek(now, f, was[w].addr);
    assert now[w].addr == was[w].addr;
    assert m <= w;
    assert m == w by {
      assert now[m].addr == was[m].addr;
    }
  }

  /** w entries are done, or none while appending; the write cursor has not passed entry w. */
  ghost predicate Normalizing(a: AddrSequence, was: seq<Entry>, lo: int, hi: int, f: nat, w: nat)
    reads a, set b | b in a.bufPool
  {
    && a.Valid() && a.FindAt(f) && Sorted(was) && |a.entries| == |was| && w <= |was|
    && (a.nrWalks < 2 ==> a.entries == was)
    && (a.nrWalks >= 2 ==> NormalizedTo(a.entries, was, lo, hi, w) && f <= w)
  }

  /** The write of one round. */
  method NormalizeOne(a: AddrSequence, ghost was: seq<Entry>, lo: int, hi: int, addr: nat, count: byte, ghost f: nat,
                      ghost w: nat) returns (ghost f': nat)
    requires Normalizing(a, was, lo, hi, f, w) && w < |was| && a.WalkAt(w + 1)
    requires addr == was[w].addr && count == was[w].payload
    modifies a`findIter, a`items, a`entries, a`topBytes, a`youngBytes, a.bufPool
    ensures Normalizing(a, was, lo, hi, f', w + 1) && a.WalkAt(w + 1)
  {
    ghost var s := Marks(a.entries, f, a.topBytes, a.youngBytes);
    var newPayload := if count >= lo && count <= hi then 1 else 0;
    var rc := a.SetPayload(addr, newPayload, f);
    f' := f;
    if a.nrWalks >= 2 {
      ghost var r := UpdateStep(s, a.pagesize, a.nrWalks, addr, newPayload, false);
      NormalizeNext(s.entries, was, lo, hi, w, f, s, r.0, r.1, a.pagesize, a.nrWalks);
      f' := r.0.find;
    }
  }

  /** normalize_addr_sequence with a read cursor and a write cursor on the same sequence. `normalized`
      is the sequence's user flag. While the sequence is still appending nothing is written. */
  method NormalizeAddrSequence(a: AddrSequence, lo: int, hi: int, normalized: bool) returns (flag: bool)
    requires a.Valid()
    modifies a, a.bufPool
    ensures a.Valid() && flag && a.nrWalks == old(a.nrWalks) && a.bufPool == old(a.bufPool)
    ensures a.entries == if normalized || a.nrWalks < 2 then old(a.entries) else Normalized(old(a.entries), lo, hi)
  {
    if normalized {
      return true;
    }
    ghost var was, f: nat, w: nat := a.entries, 0, 0;
    var rc, addr, count := NormalizeStart(a, lo, hi);
    while rc == 0
      invariant a.bufPool == old(a.bufPool) && a.nrWalks == old(a.nrWalks) && Normalizing(a, was, lo, hi, f, w)
      invariant AtRead(a, was, w, rc, addr, count)
      decreases |was| - w
    {
      rc, addr, count, f := NormalizeRound(a, was, lo, hi, addr, count, f, w);
      w := w + 1;
    }
    return true;
  }

  /** The read cursor has returned entry w, or the end. */
  ghost predicate AtRead(a: AddrSequence, was: seq<Entry>, w: nat, rc: int, addr: nat, count: byte)
    reads a
  {
    if rc == 0 then w < |was| && a.WalkAt(w + 1) && addr == was[w].addr && count == was[w].payload else w == |was|
  }

  method NormalizeStart(a: AddrSequence, ghost lo: int, ghost hi: int) returns (rc: int, addr: nat, count: byte)
    requires a.Valid()
    modifies a
    ensures a.bufPool == old(a.bufPool) && a.nrWalks == old(a.nrWalks) && a.entries == old(a.entries)
    ensures Normalizing(a, a.entries, lo, hi, 0, 0) && AtRead(a, a.entries, 0, rc, addr, count)
  {
    a.PrepareUpdate();
    var unusedNid;
    rc, addr, count, unusedNid := a.GetFirst();
  }

  method NormalizeRound(a: AddrSequence, ghost was: seq<Entry>, lo: int, hi: int, addr: nat, count: byte, ghost f: nat,
                        ghost w: nat) returns (rc: int, addr': nat, count': byte, ghost f': nat)
    requires Normalizing(a, was, lo, hi, f, w) && w < |was| && AtRead(a, was, w, 0, addr, count)
    modifies a`walkIter, a`findIter, a`items, a`entries, a`topBytes, a`youngBytes, a.bufPool
    ensures Normalizing(a, was, lo, hi, f', w + 1) && AtRead(a, was, w + 1, rc, addr', count')
  {
    f' := NormalizeOne(a, was, lo, hi, addr, count, f, w);
    var unusedNid;
    rc, addr', count', unusedNid := a.GetNext(w + 1);
    assert w + 1 < |was| ==> a.entries[w + 1] == was[w + 1];
  }

  /** Without the flag a second pass would keep the first one's result exactly when the band counts
      1 as hot, if anything was hot, and 0 as cold, if anything was cold. */
  lemma SecondPassKeepsExactly(es: seq<Entry>, lo: int, hi: int)
    ensures Normalized(Normalized(es, lo, hi), lo, hi) == Normalized(es, lo, hi)
            <==> ((exists k :: 0 <= k < |es| && lo <= es[k].payload <= hi) ==> lo <= 1 <= hi)
                 && ((exists k :: 0 <= k < |es| && !(lo <= es[k].payload <= hi)) ==> !(lo <= 0 <= hi))
  {
    var once := Normalized(es, lo, hi);
    var twice := Normalized(once, lo, hi);
    assert forall k :: 0 <= k < |es| ==> once[k].payload == Indicator(es[k].payload, lo, hi);
    assert forall k :: 0 <= k < |es| ==> twice[k] == once[k].(payload := Indicator(once[k].payload, lo, hi));
    if forall k :: 0 <= k < |es| ==> twice[k] == once[k] {
      assert twice == once;
    }
  }
}
