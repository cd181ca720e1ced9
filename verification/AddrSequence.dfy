/** AddrSequence (AddrSequence.h, AddrSequence.cc): the addresses one page type was seen at, with
    two forward-only cursors. */
module AddrSequence {
  import opened Arith
  import opened AddrClusters

  const ADDR_NOT_FOUND := 101
  const IGNORE_DUPLICATED_ADDR := 102
  const END_OF_SEQUENCE := 103

  /** The first entry at or behind `from` whose address is not below addr. */
  function Seek(es: seq<Entry>, from: nat, addr: nat): (m: nat)
    requires from <= |es|
    ensures from <= m <= |es|
    ensures forall i :: from <= i < m ==> es[i].addr < addr
    ensures m < |es| ==> es[m].addr >= addr
    decreases |es| - from
  {
    if from == |es| || es[from].addr >= addr then from else Seek(es, from + 1, addr)
  }

  predicate FoundAt(es: seq<Entry>, m: nat, addr: nat) { m < |es| && es[m].addr == addr }

  /** Bytes per location: LOC_DRAM, LOC_PMEM, LOC_UNKNOW. */
  type Bytes = s: seq<nat> | |s| == 3 witness [0, 0, 0]

  function Add(b: Bytes, loc: Loc, size: nat, yes: bool): Bytes {
    if yes then b[loc := b[loc] + size] else b
  }

  /** What an update makes of an entry: counting up by one if n is not 0, or setting to n. */
  function Updated(e: Entry, n: byte, isInc: bool): Entry {
    if !isInc then e.(payload := n) else if n == 0 then e else e.(payload := (e.payload + 1) % 256)
  }

  /** What the update methods change: the entries, the place of the find cursor and the byte counts. */
  datatype Marks = Marks(entries: seq<Entry>, find: nat, top: Bytes, young: Bytes)

  /** One call of update_addr. */
  function UpdateStep(s: Marks, pagesize: nat, nrWalks: nat, addr: nat, n: byte, isInc: bool): (r: (Marks, int))
    requires s.find <= |s.entries|
    ensures r.0.find <= |r.0.entries| == |s.entries|
  {
    var m := Seek(s.entries, s.find, addr);
    if !FoundAt(s.entries, m, addr) then (s.(find := m), ADDR_NOT_FOUND)
    else
      var e, counts := Updated(s.entries[m], n, isInc), !(isInc && n == 0);
      (Marks(s.entries[m := e], m,
             Add(s.top, e.loc, pagesize, counts && e.payload >= nrWalks),
             Add(s.young, e.loc, pagesize, counts && e.payload >= 1)), 0)
  }

  class AddrSequence {
    const pagesize: nat
    var nrWalks: nat
    var addrSize: nat
    var topBytes: Bytes
    var youngBytes: Bytes
    var clusters: seq<Cluster>
    var bufPool: seq<array<Item>>
    var bufUsed: nat
    var walkIter: Iter
    var findIter: Iter
    var lastClusterEnd: nat
    ghost var firsts: seq<nat>
    ghost var items: seq<Item>
    ghost var entries: seq<Entry>

    ghost predicate SlotOk(b: nat, o: nat)
      reads `bufPool, `items, set b | b in bufPool
    {
      b < |bufPool| && o < bufPool[b].Length && b * MAX_ITEM_COUNT + o < |items|
      && bufPool[b][o] == items[b * MAX_ITEM_COUNT + o]
    }

    ghost predicate Slots()
      reads `bufPool, `items, set b | b in bufPool
    {
      forall b: nat, o: nat :: o < MAX_ITEM_COUNT && b * MAX_ITEM_COUNT + o < |items| ==> SlotOk(b, o)
    }

    /** The buffers hold the items, and room for more in the last one only. */
    ghost predicate Stored()
      reads `bufPool, `bufUsed, `items, set b | b in bufPool
    {
      && bufUsed <= MAX_ITEM_COUNT && |items| + MAX_ITEM_COUNT == |bufPool| * MAX_ITEM_COUNT + bufUsed
      && (forall i :: 0 <= i < |bufPool| ==> bufPool[i].Length == MAX_ITEM_COUNT)
      && (forall i, j :: 0 <= i < j < |bufPool| ==> bufPool[i] != bufPool[j])
      && Slots()
    }

    ghost predicate Valid()
      reads `bufPool, `bufUsed, `items, `addrSize, `entries, `clusters, `firsts, set b | b in bufPool
    {
      Structured() && bufUsed > 0
    }

    ghost predicate Structured()
      reads `bufPool, `bufUsed, `items, `addrSize, `entries, `clusters, `firsts, set b | b in bufPool
    {
      && Stored() && pagesize > 0 && addrSize == |entries|
      && Represents(pagesize, clusters, firsts, items, entries)
    }

    /** The find cursor stands at entry f. */
    ghost predicate FindAt(f: nat)
      reads `clusters, `firsts, `entries, `findIter
    {
      IterAt(pagesize, clusters, firsts, entries, findIter, f)
    }

    /** The walk cursor stands at entry w. */
    ghost predicate WalkAt(w: nat)
      reads `clusters, `firsts, `entries, `walkIter
    {
      IterAt(pagesize, clusters, firsts, entries, walkIter, w)
    }

    constructor (pageshift: nat)
      ensures Valid() && entries == [] && nrWalks == 0 && bufPool == [] && Packed()
    {
      pagesize := Pow2(pageshift);
      nrWalks, addrSize, topBytes, youngBytes := 0, 0, [0, 0, 0], [0, 0, 0];
      clusters, bufPool, bufUsed, lastClusterEnd := [], [], MAX_ITEM_COUNT, 0;
      walkIter, findIter := Iter(0, 0, 0, 0, 0), Iter(0, 0, 0, 0, 0);
      firsts, items, entries := [0], [], [];
    }

    method Clear()
      requires Valid()
      modifies this
      ensures Valid() && entries == [] && nrWalks == 0 && bufPool == [] && FindAt(0) && Packed()
      ensures topBytes == [0, 0, 0] && youngBytes == [0, 0, 0]
    {
      addrSize, nrWalks := 0, 0;
      clusters, bufPool, bufUsed := [], [], MAX_ITEM_COUNT;
      firsts, items, entries := [0], [], [];
      NothingRepresents(pagesize);
      findIter := ResetIter(clusters, 0, findIter);
      topBytes, youngBytes := [0, 0, 0], [0, 0, 0];
    }

    /** Called before each walk. */
    method Rewind()
      requires Valid()
      modifies this`findIter, this`nrWalks, this`lastClusterEnd, this`topBytes, this`youngBytes
      ensures Valid() && FindAt(0) && nrWalks == old(nrWalks) + 1
      ensures topBytes == [0, 0, 0] && youngBytes == [0, 0, 0]
    {
      ResetAt(pagesize, clusters, firsts, items, entries, 0, findIter);
      findIter := ResetIter(clusters, 0, findIter);
      nrWalks := nrWalks + 1;
      lastClusterEnd := 0;
      topBytes, youngBytes := [0, 0, 0], [0, 0, 0];
    }

    method PrepareUpdate()
      requires Valid()
      modifies this`findIter, this`lastClusterEnd
      ensures Valid() && FindAt(0)
    {
      ResetAt(pagesize, clusters, firsts, items, entries, 0, findIter);
      findIter := ResetIter(clusters, 0, findIter);
      lastClusterEnd := 0;
    }

    // ----- Reading -----

    /** do_walk: what the cursor reads. */
    method DoWalk(it: Iter, ghost n: nat) returns (rc: int, addr: nat, payload: byte, nid: int)
      requires Valid() && IterAt(pagesize, clusters, firsts, entries, it, n)
      ensures rc == if n == |entries| then END_OF_SEQUENCE else 0
      ensures n < |entries| ==> addr == entries[n].addr && payload == entries[n].payload && nid == entries[n].nid
    {
      addr, payload, nid := 0, 0, 0;
      ReadAt(pagesize, clusters, firsts, items, entries, it, n);
      if it.cluster == it.end {
        return END_OF_SEQUENCE, addr, payload, nid;
      }
      var c := clusters[it.cur];
      assert SlotOk(c.buf, c.off + it.deltaIndex);
      var item := bufPool[c.buf][c.off + it.deltaIndex];
      var deltaSum := it.deltaSum + item.delta;
      return 0, c.start + deltaSum * pagesize, item.payload, item.nid;
    }

    /** do_walk_move_next. */
    method DoWalkMoveNext(it: Iter, ghost n: nat) returns (next: Iter)
      requires Valid() && IterAt(pagesize, clusters, firsts, entries, it, n) && n < |entries|
      ensures IterAt(pagesize, clusters, firsts, entries, next, n + 1)
    {
      ReadAt(pagesize, clusters, firsts, items, entries, it, n);
      MovedAt(pagesize, clusters, firsts, items, entries, it, n);
      var c := clusters[it.cur];
      assert SlotOk(c.buf, c.off + it.deltaIndex);
      next := MoveNext(clusters, it, bufPool[c.buf][c.off + it.deltaIndex].delta);
    }

    /** get_first: -1 for an empty sequence. */
    method GetFirst() returns (rc: int, addr: nat, payload: byte, nid: int)
      requires Valid()
      modifies this`walkIter
      ensures Valid()
      ensures entries == [] ==> rc == -1 && walkIter == old(walkIter)
      ensures entries != [] ==>
                rc == 0 && addr == entries[0].addr && payload == entries[0].payload && nid == entries[0].nid && WalkAt(1)
    {
      NoClusters();
      if clusters == [] {
        return -1, 0, 0, 0;
      }
      ResetAt(pagesize, clusters, firsts, items, entries, 0, walkIter);
      walkIter := ResetIter(clusters, 0, walkIter);
      rc, addr, payload, nid := GetNext(0);
    }

    /** get_next: the entries one after the other, then END_OF_SEQUENCE. */
    method GetNext(ghost w: nat) returns (rc: int, addr: nat, payload: byte, nid: int)
      requires Valid() && WalkAt(w)
      modifies this`walkIter
      ensures Valid()
      ensures w == |entries| ==> rc == END_OF_SEQUENCE && walkIter == old(walkIter)
      ensures w < |entries| ==>
                rc == 0 && addr == entries[w].addr && payload == entries[w].payload && nid == entries[w].nid && WalkAt(w + 1)
    {
      rc, addr, payload, nid := DoWalk(walkIter, w);
      if rc >= 0 && rc != END_OF_SEQUENCE {
        walkIter := DoWalkMoveNext(walkIter, w);
      }
    }

    // ----- Updating -----

    /** A store to the item an iterator stands at. */
    method PutItem(c: Cluster, index: nat, item: Item, ghost n: nat)
      requires Stored() && n < |items| && n == c.buf * MAX_ITEM_COUNT + c.off + index && c.off + index < MAX_ITEM_COUNT
      modifies this`items, bufPool
      ensures Stored() && items == old(items)[n := item]
    {
      assert SlotOk(c.buf, c.off + index);
      bufPool[c.buf][c.off + index] := item;
      items := items[n := item];
      forall b: nat, o: nat | o < MAX_ITEM_COUNT && b * MAX_ITEM_COUNT + o < |items| ensures SlotOk(b, o) {
        assert old(SlotOk(b, o));
        if b * MAX_ITEM_COUNT + o == n {
          SlotsApart(b, o, c.buf, c.off + index);
        } else if b != c.buf {
          assert bufPool[b] != bufPool[c.buf];
        }
      }
    }

    /** update_addr_location_count for an entry. */
    method CountLocation(payload: byte, loc: Loc)
      modifies this`topBytes, this`youngBytes
      ensures youngBytes == Add(old(youngBytes), loc, pagesize, payload >= 1)
      ensures topBytes == Add(old(topBytes), loc, pagesize, payload >= nrWalks)
    {
      if payload >= 1 {
        youngBytes := youngBytes[loc := youngBytes[loc] + pagesize];
      }
      if payload >= nrWalks {
        topBytes := topBytes[loc := topBytes[loc] + pagesize];
      }
    }

    /** The find cursor's entry becomes e: a changed payload, node or location. */
    method PutEntry(item: Item, ghost f: nat, ghost e: Entry)
      requires Valid() && FindAt(f) && f < |entries|
      requires item.delta == items[f].delta && e.addr == entries[f].addr && SameData(item, e)
      modifies this`items, this`entries, bufPool
      ensures Valid() && FindAt(f) && entries == old(entries)[f := e]
      ensures forall w :: old(WalkAt(w)) ==> WalkAt(w)
    {
      ReadAt(pagesize, clusters, firsts, items, entries, findIter, f);
      UpdateKeeps(pagesize, clusters, firsts, items, entries, f, item, e);
      UpdateKeepsIter(pagesize, clusters, firsts, entries, findIter, f, f, e);
      forall w | WalkAt(w) ensures IterAt(pagesize, clusters, firsts, entries[f := e], walkIter, w) {
        UpdateKeepsIter(pagesize, clusters, firsts, entries, walkIter, w, f, e);
      }
      PutItem(clusters[findIter.cur], findIter.deltaIndex, item, f);
      entries := entries[f := e];
    }

    /** do_walk_update_payload at the find cursor. */
    method UpdatePayload(n: byte, isInc: bool, ghost f: nat)
      requires Valid() && FindAt(f) && f < |entries|
      modifies this`items, this`entries, this`topBytes, this`youngBytes, bufPool
      ensures Valid() && FindAt(f) && entries == old(entries)[f := Updated(old(entries[f]), n, isInc)]
      ensures var e, counts := entries[f], !(isInc && n == 0);
              && youngBytes == Add(old(youngBytes), e.loc, pagesize, counts && e.payload >= 1)
              && topBytes == Add(old(topBytes), e.loc, pagesize, counts && e.payload >= nrWalks)
      ensures forall w :: old(WalkAt(w)) ==> WalkAt(w)
    {
      ghost var e := entries[f];
      if isInc && n == 0 {
        assert entries[f := e] == entries;
        return;
      }
      var item := CurrentItem(f);
      item := item.(payload := if isInc then (item.payload + 1) % 256 else n);
      PutEntry(item, f, Updated(e, n, isInc));
      CountLocation(item.payload, item.loc);
    }

    method CurrentItem(ghost f: nat) returns (item: Item)
      requires Valid() && FindAt(f) && f < |entries|
      ensures item == items[f] && SameData(item, entries[f])
    {
      ReadAt(pagesize, clusters, firsts, items, entries, findIter, f);
      var c := clusters[findIter.cur];
      assert SlotOk(c.buf, c.off + findIter.deltaIndex);
      item := bufPool[c.buf][c.off + findIter.deltaIndex];
    }

    /** do_walk_update_nid at the find cursor. */
    method UpdateNid(nid: int, location: Loc, ghost f: nat)
      requires Valid() && FindAt(f) && f < |entries|
      modifies this`items, this`entries, this`topBytes, this`youngBytes, bufPool
      ensures Valid() && FindAt(f) && entries == old(entries)[f := old(entries)[f].(nid := nid, loc := location)]
      ensures youngBytes == Add(old(youngBytes), location, pagesize, entries[f].payload >= 1)
      ensures topBytes == Add(old(topBytes), location, pagesize, entries[f].payload >= nrWalks)
      ensures forall w :: old(WalkAt(w)) ==> WalkAt(w)
    {
      var item := CurrentItem(f);
      item := item.(nid := nid, loc := location);
      PutEntry(item, f, entries[f].(nid := nid, loc := location));
      CountLocation(item.payload, item.loc);
    }

    /** The search loop of update_addr and update_nodeid: the find cursor goes on to the first entry
        that is not below addr. */
    method FindForward(addr: nat, ghost f: nat) returns (rc: int)
      requires Valid() && FindAt(f)
      modifies this`findIter
      ensures Valid() && FindAt(Seek(entries, f, addr))
      ensures rc == if FoundAt(entries, Seek(entries, f, addr), addr) then 0 else ADDR_NOT_FOUND
    {
      ghost var c := f;
      while true
        invariant c <= |entries| && FindAt(c) && Seek(entries, c, addr) == Seek(entries, f, addr)
        decreases |entries| - c
      {
        var got, nextAddr, unusedPayload, unusedNid := DoWalk(findIter, c);
        if got == END_OF_SEQUENCE {
          return ADDR_NOT_FOUND;
        }
        if nextAddr == addr {
          return 0;
        } else if nextAddr > addr {
          return ADDR_NOT_FOUND;
        }
        findIter := DoWalkMoveNext(findIter, c);
        c := c + 1;
      }
    }

    /** update_addr. */
    method UpdateAddr(addr: nat, n: byte, isInc: bool, ghost f: nat) returns (rc: int)
      requires Valid() && FindAt(f)
      modifies this`findIter, this`items, this`entries, this`topBytes, this`youngBytes, bufPool
      ensures Valid()
      ensures var r := UpdateStep(Marks(old(entries), f, old(topBytes), old(youngBytes)), pagesize, nrWalks, addr, n, isInc);
              && FindAt(r.0.find) && Marks(entries, r.0.find, topBytes, youngBytes) == r.0 && rc == r.1
      ensures forall w :: old(WalkAt(w)) ==> WalkAt(w)
    {
      ghost var m := Seek(entries, f, addr);
      rc := FindForward(addr, f);
      if rc == 0 {
        UpdatePayload(n, isInc, m);
      }
    }

    /** update_nodeid: only between the appends and the second walk. */
    method UpdateNodeid(addr: nat, nid: int, location: Loc, ghost f: nat) returns (rc: int)
      requires Valid() && FindAt(f)
      modifies this`findIter, this`items, this`entries, this`topBytes, this`youngBytes, bufPool
      ensures Valid()
      ensures nrWalks >= 2 ==>
                rc == -1 && FindAt(f) && entries == old(entries) && topBytes == old(topBytes) && youngBytes == old(youngBytes)
      ensures nrWalks < 2 ==>
                var m := Seek(old(entries), f, addr);
                && FindAt(m) && rc == if FoundAt(old(entries), m, addr) then 0 else ADDR_NOT_FOUND
      ensures rc == ADDR_NOT_FOUND ==> entries == old(entries) && topBytes == old(topBytes) && youngBytes == old(youngBytes)
      ensures rc == 0 ==>
                var m := Seek(old(entries), f, addr);
                var e := old(entries)[m].(nid := nid, loc := location);
                && entries == old(entries)[m := e]
                && youngBytes == Add(old(youngBytes), e.loc, pagesize, e.payload >= 1)
                && topBytes == Add(old(topBytes), e.loc, pagesize, e.payload >= nrWalks)
      ensures forall w :: old(WalkAt(w)) ==> WalkAt(w)
    {
      if nrWalks >= 2 {
        return -1;
      }
      ghost var m := Seek(entries, f, addr);
      rc := FindForward(addr, f);
      if rc == 0 {
        UpdateNid(nid, location, m);
      }
    }

    // ----- Appending -----

    /** Where the last cluster ends, the last buffer is used up to. */
    lemma LastClusterEnds()
      requires Valid() && clusters != []
      ensures var c := clusters[|clusters| - 1];
              && c.buf * MAX_ITEM_COUNT + c.off + c.size == |items| && entries != []
              && c.buf == |bufPool| - 1 && c.off + c.size == bufUsed
    {
      var c := clusters[|clusters| - 1];
      assert ClusterOk(pagesize, clusters, firsts, items, entries, |clusters| - 1);
      SlotsApart(c.buf, c.off + c.size - 1, |bufPool| - 1, bufUsed - 1);
    }

    /** allocate_buf. */
    method AllocateBuf()
      requires Stored() && bufUsed == MAX_ITEM_COUNT
      modifies this`bufPool, this`bufUsed
      ensures Stored() && bufUsed == 0 && |bufPool| == old(|bufPool|) + 1
      ensures bufPool[..|bufPool| - 1] == old(bufPool) && fresh(bufPool[|bufPool| - 1])
    {
      var buf := new Item[MAX_ITEM_COUNT](i => Item(0, 0, 0, LOC_DRAM));
      ghost var was := bufPool;
      bufPool := bufPool + [buf];
      bufUsed := 0;
      forall b: nat, o: nat | o < MAX_ITEM_COUNT && b * MAX_ITEM_COUNT + o < |items| ensures SlotOk(b, o) {
        assert old(SlotOk(b, o));
        assert bufPool[b] == was[b];
      }
    }

    /** save_into_cluster: one more item behind the last cluster. */
    method SaveIntoCluster(addr: nat, payload: byte)
      requires Stored() && clusters != [] && bufPool != [] && bufUsed < MAX_ITEM_COUNT
      requires clusters[|clusters| - 1].off + clusters[|clusters| - 1].size == bufUsed
      requires pagesize > 0 && lastClusterEnd <= addr && (addr - lastClusterEnd) / pagesize <= MAX_DELTA_DIST
      modifies this`clusters, this`items, this`bufUsed, this`addrSize, this`lastClusterEnd, bufPool[|bufPool| - 1]
      ensures Stored() && addrSize == old(addrSize) + 1 && lastClusterEnd == addr
      ensures var l := |old(clusters)| - 1;
              clusters == old(clusters)[l := old(clusters)[l].(size := old(clusters)[l].size + 1)]
      ensures items == old(items) + [Item((addr - old(lastClusterEnd)) / pagesize, payload, -1, LOC_DRAM)]
    {
      var l, b := |clusters| - 1, |bufPool| - 1;
      var item := Item((addr - lastClusterEnd) / pagesize, payload, -1, LOC_DRAM);
      ghost var n, used := |items|, bufUsed;
      assert n == b * MAX_ITEM_COUNT + used;
      bufPool[b][bufUsed] := item;
      items := items + [item];
      clusters := clusters[l := clusters[l].(size := clusters[l].size + 1)];
      bufUsed := bufUsed + 1;
      addrSize := addrSize + 1;
      lastClusterEnd := addr;
      forall b': nat, o: nat | o < MAX_ITEM_COUNT && b' * MAX_ITEM_COUNT + o < |items| ensures SlotOk(b', o) {
        if b' * MAX_ITEM_COUNT + o == n {
          SlotsApart(b', o, b, used);
        } else {
          assert old(SlotOk(b', o));
          assert b' != b ==> bufPool[b'] != bufPool[b];
          assert b' == b ==> o != used;
        }
      }
    }

    /** get_free_buffer: a new buffer if the last one is full. */
    method GetFreeBuffer()
      requires Valid()
      modifies this`bufPool, this`bufUsed
      ensures Structured() && bufUsed < MAX_ITEM_COUNT && bufPool != []
      ensures old(bufPool) <= bufPool && fresh(set b | b in bufPool[|old(bufPool)|..])
    {
      if bufUsed == MAX_ITEM_COUNT {
        AllocateBuf();
      }
    }

    /** create_cluster: the address opens a cluster. */
    method CreateCluster(addr: nat, n: byte)
      requires Valid() && (entries != [] ==> entries[|entries| - 1].addr < addr)
      modifies this`clusters, this`items, this`entries, this`firsts, this`bufPool, this`bufUsed, this`addrSize,
               this`lastClusterEnd, this`findIter, bufPool
      ensures Valid() && entries == old(entries) + [Entry(addr, n, -1, LOC_DRAM)] && lastClusterEnd == addr
      ensures firsts == old(firsts) + [|entries|]
      ensures old(bufPool) <= bufPool && fresh(set b | b in bufPool[|old(bufPool)|..])
    {
      GetFreeBuffer();
      NewCluster(addr, n);
    }

    method NewCluster(addr: nat, n: byte)
      requires Structured() && bufUsed < MAX_ITEM_COUNT && bufPool != []
      requires entries != [] ==> entries[|entries| - 1].addr < addr
      modifies this`clusters, this`items, this`entries, this`firsts, this`bufUsed, this`addrSize,
               this`lastClusterEnd, this`findIter, bufPool[|bufPool| - 1]
      ensures Valid() && entries == old(entries) + [Entry(addr, n, -1, LOC_DRAM)] && lastClusterEnd == addr
      ensures firsts == old(firsts) + [|entries|]
    {
      ghost var e, c := Entry(addr, n, -1, LOC_DRAM), Cluster(addr, 1, |bufPool| - 1, bufUsed);
      CreateKeeps(pagesize, clusters, firsts, items, entries, |bufPool| - 1, bufUsed, Item(0, n, -1, LOC_DRAM), e);
      DivModUnique(0, pagesize, 0, 0);
      ghost var was := clusters;
      clusters := clusters + [Cluster(addr, 0, |bufPool| - 1, bufUsed)];
      lastClusterEnd := addr;
      findIter := ResetIter(clusters, |clusters| - 1, findIter);
      SaveIntoCluster(addr, n);
      assert clusters == was + [c];
      firsts := firsts + [|entries| + 1];
      entries := entries + [e];
    }

    /** can_merge_into_cluster. */
    method CanMergeIntoCluster(addr: nat) returns (yes: bool)
      requires pagesize > 0 && lastClusterEnd <= addr
      ensures yes <==> bufUsed != MAX_ITEM_COUNT && (addr - lastClusterEnd) / pagesize <= 255 && (addr - lastClusterEnd) % pagesize == 0
      ensures yes ==> addr == lastClusterEnd + (addr - lastClusterEnd) / pagesize * pagesize
    {
      var addrDelta := addr - lastClusterEnd;
      var deltaDistance, isNotAlign := addrDelta / pagesize, addrDelta % pagesize;
      yes := !(deltaDistance > MAX_DELTA_DIST || bufUsed == MAX_ITEM_COUNT || isNotAlign != 0);
    }

    /** The address joins the last cluster. */
    method MergeIntoCluster(addr: nat, n: byte)
      requires Valid() && entries != [] && lastClusterEnd == entries[|entries| - 1].addr < addr
      requires bufUsed != MAX_ITEM_COUNT && (addr - lastClusterEnd) / pagesize <= MAX_DELTA_DIST
      requires addr == lastClusterEnd + (addr - lastClusterEnd) / pagesize * pagesize
      modifies this`clusters, this`items, this`entries, this`firsts, this`bufUsed, this`addrSize,
               this`lastClusterEnd, bufPool
      ensures Valid() && entries == old(entries) + [Entry(addr, n, -1, LOC_DRAM)] && lastClusterEnd == addr
      ensures firsts == old(firsts)[|old(firsts)| - 1 := |entries|]
    {
      NoClusters();
      LastClusterEnds();
      ghost var e, i := Entry(addr, n, -1, LOC_DRAM), Item((addr - lastClusterEnd) / pagesize, n, -1, LOC_DRAM);
      MergeKeeps(pagesize, clusters, firsts, items, entries, i, e);
      SaveIntoCluster(addr, n);
      firsts := firsts[|clusters| := |entries| + 1];
      entries := entries + [e];
    }

    /** The clusters are as few as the items' one-byte distances and the buffers allow. */
    ghost predicate Packed()
      reads `firsts, `entries
    {
      pagesize > 0 && Compact(pagesize, firsts, entries)
    }

    lemma PackedAppend(e: Entry, firsts': seq<nat>, opens: bool)
      requires Valid() && (entries != [] ==> entries[|entries| - 1].addr < e.addr)
      requires firsts' == if opens then firsts + [|entries| + 1] else firsts[|firsts| - 1 := |entries| + 1]
      requires opens && entries != [] ==> bufUsed == MAX_ITEM_COUNT || !Near(entries[|entries| - 1].addr, e.addr, pagesize)
      ensures Packed() ==> Compact(pagesize, firsts', entries + [e])
    {
      NoClusters();
      if bufUsed == MAX_ITEM_COUNT {
        MulMod(MAX_ITEM_COUNT, |bufPool|);
        assert |items| % 16384 == 0;
      }
      if Packed() {
        CompactAppend(pagesize, firsts, entries, e, firsts', opens);
      }
    }

    /** append_addr: an address not above the last one is ignored. */
    method AppendAddr(addr: nat, n: byte) returns (rc: int)
      requires Valid() && (entries != [] ==> lastClusterEnd == entries[|entries| - 1].addr)
      modifies this`clusters, this`items, this`entries, this`firsts, this`bufPool, this`bufUsed, this`addrSize,
               this`lastClusterEnd, this`findIter, bufPool
      ensures Valid() && old(bufPool) <= bufPool && fresh(set b | b in bufPool[|old(bufPool)|..])
      ensures if old(entries) != [] && addr <= old(entries)[|old(entries)| - 1].addr
              then rc == IGNORE_DUPLICATED_ADDR && entries == old(entries) && lastClusterEnd == old(lastClusterEnd)
              else rc == 0 && entries == old(entries) + [Entry(addr, n, -1, LOC_DRAM)] && lastClusterEnd == addr
      ensures old(Packed()) ==> Packed()
    {
      NoClusters();
      ghost var e := Entry(addr, n, -1, LOC_DRAM);
      if clusters == [] {
        PackedAppend(e, firsts + [|entries| + 1], true);
        CreateCluster(addr, n);
        return 0;
      }
      if addr <= lastClusterEnd {
        return IGNORE_DUPLICATED_ADDR;
      }
      var merge := CanMergeIntoCluster(addr);
      PackedAppend(e, if merge then firsts[|firsts| - 1 := |entries| + 1] else firsts + [|entries| + 1], !merge);
      if merge {
        MergeIntoCluster(addr, n);
      } else {
        CreateCluster(addr, n);
      }
      return 0;
    }

    /** inc_payload: appends in the first walk, counts up in later ones. */
    method IncPayload(addr: nat, n: byte, ghost f: nat) returns (rc: int)
      requires Valid()
      requires if nrWalks < 2 then entries != [] ==> lastClusterEnd == entries[|entries| - 1].addr else FindAt(f)
      modifies this`clusters, this`items, this`entries, this`firsts, this`bufPool, this`bufUsed, this`addrSize,
               this`lastClusterEnd, this`findIter, this`topBytes, this`youngBytes, bufPool
      ensures Valid() && old(bufPool) <= bufPool && fresh(set b | b in bufPool[|old(bufPool)|..])
      ensures nrWalks < 2 ==>
                if old(entries) != [] && addr <= old(entries)[|old(entries)| - 1].addr
                then rc == IGNORE_DUPLICATED_ADDR && entries == old(entries) && lastClusterEnd == old(lastClusterEnd)
                else rc == 0 && entries == old(entries) + [Entry(addr, n, -1, LOC_DRAM)] && lastClusterEnd == addr
      ensures nrWalks < 2 ==> topBytes == old(topBytes) && youngBytes == old(youngBytes) && (old(Packed()) ==> Packed())
      ensures nrWalks >= 2 ==>
                var r := UpdateStep(Marks(old(entries), f, old(topBytes), old(youngBytes)), pagesize, nrWalks, addr, n, true);
                FindAt(r.0.find) && Marks(entries, r.0.find, topBytes, youngBytes) == r.0 && rc == r.1
    {
      if nrWalks < 2 {
        rc := AppendAddr(addr, n);
      } else {
        rc := UpdateAddr(addr, n, true, f);
      }
    }

    /** set_payload: refused while appending. */
    method SetPayload(addr: nat, n: byte, ghost f: nat) returns (rc: int)
      requires Valid() && FindAt(f)
      modifies this`findIter, this`items, this`entries, this`topBytes, this`youngBytes, bufPool
      ensures Valid()
      ensures nrWalks < 2 ==>
                rc == -1 && FindAt(f) && entries == old(entries) && topBytes == old(topBytes) && youngBytes == old(youngBytes)
      ensures nrWalks >= 2 ==>
                var r := UpdateStep(Marks(old(entries), f, old(topBytes), old(youngBytes)), pagesize, nrWalks, addr, n, false);
                FindAt(r.0.find) && Marks(entries, r.0.find, topBytes, youngBytes) == r.0 && rc == r.1
      ensures forall w :: old(WalkAt(w)) ==> WalkAt(w)
    {
      if nrWalks < 2 {
        return -1;
      }
      rc := UpdateAddr(addr, n, false, f);
    }

    lemma NoClusters()
      requires Valid()
      ensures clusters == [] <==> entries == []
    {
      if clusters != [] {
        assert ClusterOk(pagesize, clusters, firsts, items, entries, |clusters| - 1);
      }
    }
  }
}
