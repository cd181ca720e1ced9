/** Whole walks over an AddrSequence: which calls find their address, and what the payloads and byte
    counts mean afterwards. */
module AddrRuns {
  import opened Arith
  import opened AddrClusters
  import opened AddrSequence

  /** One report of a walk: inc_payload(addr, n). */
  datatype Touch = Touch(addr: nat, n: byte)

  predicate Ascending(ts: seq<Touch>) {
    forall i, j :: 0 <= i < j < |ts| ==> ts[i].addr < ts[j].addr
  }

  /** The walk saw the page accessed. */
  predicate Touched(ts: seq<Touch>, addr: nat) {
    exists j :: 0 <= j < |ts| && ts[j].addr == addr && ts[j].n != 0
  }

  predicate Stores(es: seq<Entry>, addr: nat) {
    exists k :: 0 <= k < |es| && es[k].addr == addr
  }

  const NONE: Bytes := [0, 0, 0]

  /** The reports of one walk, one after the other, from a rewound find cursor. */
  function UpdateWalk(es: seq<Entry>, pagesize: nat, nrWalks: nat, ts: seq<Touch>): (s: Marks)
    ensures s.find <= |s.entries| == |es|
  {
    if ts == [] then Marks(es, 0, NONE, NONE)
    else
      var t := ts[|ts| - 1];
      UpdateStep(UpdateWalk(es, pagesize, nrWalks, ts[..|ts| - 1]), pagesize, nrWalks, t.addr, t.n, true).0
  }

  lemma {:induction false} SameAddrs(es: seq<Entry>, pagesize: nat, nrWalks: nat, ts: seq<Touch>)
    ensures forall k :: 0 <= k < |es| ==> UpdateWalk(es, pagesize, nrWalks, ts).entries[k].addr == es[k].addr
  {
    if ts != [] {
      SameAddrs(es, pagesize, nrWalks, ts[..|ts| - 1]);
    }
  }

  /** What a walk makes of an entry, said without the cursor. */
  function WalkedEntry(e: Entry, ts: seq<Touch>): Entry {
    if Touched(ts, e.addr) then Updated(e, 1, true) else e
  }

  function Young(es: seq<Entry>, ts: seq<Touch>, l: Loc, least: nat): set<nat> {
    set k: nat | k < |es| && es[k].loc == l && Touched(ts, es[k].addr) && WalkedEntry(es[k], ts).payload >= least
  }

  function BytesOf(pagesize: nat, pages: set<nat>): nat { pagesize * |pages| }

  predicate Tallies(b: Bytes, pagesize: nat, es: seq<Entry>, ts: seq<Touch>, least: nat) {
    forall l: Loc :: b[l] == BytesOf(pagesize, Young(es, ts, l, least))
  }

  predicate EntriesAre(es': seq<Entry>, es: seq<Entry>, ts: seq<Touch>) {
    |es'| == |es| && forall k :: 0 <= k < |es| ==> es'[k] == WalkedEntry(es[k], ts)
  }

  /** The cursor has only passed addresses below the last report. */
  predicate CursorOk(es: seq<Entry>, find: nat, ts: seq<Touch>) {
    && find <= |es| && (ts == [] ==> find == 0)
    && forall k :: 0 <= k < find ==> es[k].addr < ts[|ts| - 1].addr
  }

  predicate WalkOk(s: Marks, es: seq<Entry>, pagesize: nat, nrWalks: nat, ts: seq<Touch>) {
    && EntriesAre(s.entries, es, ts) && CursorOk(es, s.find, ts)
    && Tallies(s.top, pagesize, es, ts, nrWalks) && Tallies(s.young, pagesize, es, ts, 1)
  }

  // ----- One report -----

  lemma TouchedSnoc(ts: seq<Touch>, t: Touch, addr: nat)
    ensures Touched(ts + [t], addr) <==> Touched(ts, addr) || (t.addr == addr && t.n != 0)
  {
    var ts' := ts + [t];
    if Touched(ts, addr) {
      var j :| 0 <= j < |ts| && ts[j].addr == addr && ts[j].n != 0;
      assert ts'[j] == ts[j];
    }
    assert ts'[|ts|] == t;
  }

  lemma NotYetTouched(ts: seq<Touch>, t: Touch)
    requires Ascending(ts + [t])
    ensures !Touched(ts, t.addr)
  {
    forall j | 0 <= j < |ts| ensures ts[j].addr != t.addr {
      assert (ts + [t])[j] == ts[j] && (ts + [t])[|ts|] == t;
    }
  }

  /** The cursor stops at the stored address, wherever it was, or there is none. */
  lemma SeekFinds(es: seq<Entry>, find: nat, ts: seq<Touch>, t: Touch) returns (m: nat)
    requires Sorted(es) && CursorOk(es, find, ts) && Ascending(ts + [t])
    ensures m == Seek(es, find, t.addr)
    ensures FoundAt(es, m, t.addr) <==> Stores(es, t.addr)
    ensures CursorOk(es, m, ts + [t])
  {
    m := Seek(es, find, t.addr);
    assert ts != [] ==> (ts + [t])[|ts| - 1].addr < (ts + [t])[|ts|].addr;
    if Stores(es, t.addr) {
      var k :| 0 <= k < |es| && es[k].addr == t.addr;
      assert k >= m;
    }
  }

  lemma SeekSame(es: seq<Entry>, es': seq<Entry>, from: nat, addr: nat)
    requires |es'| == |es| && from <= |es| && forall k :: 0 <= k < |es| ==> es'[k].addr == es[k].addr
    ensures Seek(es', from, addr) == Seek(es, from, addr)
  {
    var m, m' := Seek(es, from, addr), Seek(es', from, addr);
  }

  lemma MissedReport(es: seq<Entry>, ts: seq<Touch>, t: Touch)
    requires !Stores(es, t.addr) || t.n == 0
    ensures forall k :: 0 <= k < |es| ==> WalkedEntry(es[k], ts + [t]) == WalkedEntry(es[k], ts)
    ensures forall l: Loc, least: nat :: Young(es, ts + [t], l, least) == Young(es, ts, l, least)
  {
    forall k | 0 <= k < |es| ensures Touched(ts + [t], es[k].addr) <==> Touched(ts, es[k].addr) {
      TouchedSnoc(ts, t, es[k].addr);
    }
  }

  lemma FoundReport(es: seq<Entry>, ts: seq<Touch>, t: Touch, m: nat)
    requires Sorted(es) && FoundAt(es, m, t.addr) && t.n != 0 && Ascending(ts + [t])
    ensures forall k :: 0 <= k < |es| && k != m ==> WalkedEntry(es[k], ts + [t]) == WalkedEntry(es[k], ts)
    ensures WalkedEntry(es[m], ts + [t]) == Updated(es[m], t.n, true) && WalkedEntry(es[m], ts) == es[m]
    ensures forall k :: 0 <= k < |es| ==> (Touched(ts + [t], es[k].addr) <==> Touched(ts, es[k].addr) || k == m)
  {
    NotYetTouched(ts, t);
    forall k | 0 <= k < |es| ensures Touched(ts + [t], es[k].addr) <==> Touched(ts, es[k].addr) || k == m {
      TouchedSnoc(ts, t, es[k].addr);
      assert k < m ==> es[k].addr < es[m].addr;
      assert m < k ==> es[m].addr < es[k].addr;
    }
  }

  lemma YoungReport(es: seq<Entry>, ts: seq<Touch>, t: Touch, m: nat, l: Loc, least: nat)
    requires Sorted(es) && Ascending(ts + [t]) && FoundAt(es, m, t.addr) && t.n != 0
    ensures var e := Updated(es[m], t.n, true);
            && m !in Young(es, ts, l, least)
            && (l == e.loc && e.payload >= least ==> Young(es, ts + [t], l, least) == Young(es, ts, l, least) + {m})
            && (!(l == e.loc && e.payload >= least) ==> Young(es, ts + [t], l, least) == Young(es, ts, l, least))
  {
    FoundReport(es, ts, t, m);
    NotYetTouched(ts, t);
    forall k: nat | k < |es| && k != m
      ensures k in Young(es, ts + [t], l, least) <==> k in Young(es, ts, l, least)
    {
      assert WalkedEntry(es[k], ts + [t]) == WalkedEntry(es[k], ts);
    }
  }

  lemma TallyReport(b: Bytes, pagesize: nat, es: seq<Entry>, ts: seq<Touch>, t: Touch, m: nat, least: nat)
    requires Tallies(b, pagesize, es, ts, least) && Sorted(es) && Ascending(ts + [t])
    requires FoundAt(es, m, t.addr) && t.n != 0
    ensures var e := Updated(es[m], t.n, true);
            Tallies(Add(b, e.loc, pagesize, e.payload >= least), pagesize, es, ts + [t], least)
  {
    var e := Updated(es[m], t.n, true);
    var b' := Add(b, e.loc, pagesize, e.payload >= least);
    forall l: Loc ensures b'[l] == BytesOf(pagesize, Young(es, ts + [t], l, least)) {
      YoungReport(es, ts, t, m, l, least);
      OnePageMore(pagesize, Young(es, ts, l, least), m);
    }
  }

  lemma OnePageMore(pagesize: nat, pages: set<nat>, m: nat)
    requires m !in pages
    ensures BytesOf(pagesize, pages + {m}) == BytesOf(pagesize, pages) + pagesize
  {
    Distribute(|pages|, -1, pagesize);
  }

  lemma ReportOk(s: Marks, es: seq<Entry>, pagesize: nat, nrWalks: nat, ts: seq<Touch>, t: Touch) returns (s': Marks)
    requires Sorted(es) && Ascending(ts + [t]) && WalkOk(s, es, pagesize, nrWalks, ts)
    ensures (s', if Stores(es, t.addr) then 0 else ADDR_NOT_FOUND) == UpdateStep(s, pagesize, nrWalks, t.addr, t.n, true)
    ensures WalkOk(s', es, pagesize, nrWalks, ts + [t])
  {
    var m := SeekFinds(es, s.find, ts, t);
    SeekSame(es, s.entries, s.find, t.addr);
    s' := UpdateStep(s, pagesize, nrWalks, t.addr, t.n, true).0;
    if !Stores(es, t.addr) || t.n == 0 {
      MissedReport(es, ts, t);
      if Stores(es, t.addr) {
        assert s'.entries == s.entries;
      }
    } else {
      FoundReport(es, ts, t, m);
      TallyReport(s.top, pagesize, es, ts, t, m, nrWalks);
      TallyReport(s.young, pagesize, es, ts, t, m, 1);
    }
  }

  // ----- One walk -----

  lemma WalkStarts(es: seq<Entry>, pagesize: nat, nrWalks: nat)
    ensures WalkOk(Marks(es, 0, NONE, NONE), es, pagesize, nrWalks, [])
  {
    forall l: Loc, least: nat ensures Young(es, [], l, least) == {} && BytesOf(pagesize, Young(es, [], l, least)) == 0 {
    }
  }

  /** An update walk with ascending reports counts each stored page up once if the walk saw it
      accessed, changes nothing else, and tallies the pages it counted. */
  lemma {:induction false} WalkCounts(es: seq<Entry>, pagesize: nat, nrWalks: nat, ts: seq<Touch>)
    requires Sorted(es) && Ascending(ts)
    ensures WalkOk(UpdateWalk(es, pagesize, nrWalks, ts), es, pagesize, nrWalks, ts)
  {
    if ts == [] {
      WalkStarts(es, pagesize, nrWalks);
    } else {
      var init, t := ts[..|ts| - 1], ts[|ts| - 1];
      assert ts == init + [t];
      WalkCounts(es, pagesize, nrWalks, init);
      var s' := ReportOk(UpdateWalk(es, pagesize, nrWalks, init), es, pagesize, nrWalks, init, t);
    }
  }

  /** The forward-only cursor misses nothing: the i-th report succeeds exactly on a stored address. */
  lemma ReportFoundExactly(es: seq<Entry>, pagesize: nat, nrWalks: nat, ts: seq<Touch>, i: nat)
    requires Sorted(es) && Ascending(ts) && i < |ts|
    ensures var s := UpdateWalk(es, pagesize, nrWalks, ts[..i]);
            UpdateStep(s, pagesize, nrWalks, ts[i].addr, ts[i].n, true).1 == 0 <==> Stores(es, ts[i].addr)
  {
    assert ts[..i] + [ts[i]] == ts[..i + 1];
    WalkCounts(es, pagesize, nrWalks, ts[..i]);
    var s' := ReportOk(UpdateWalk(es, pagesize, nrWalks, ts[..i]), es, pagesize, nrWalks, ts[..i], ts[i]);
  }

  // ----- A run of walks -----

  function NewEntry(t: Touch): Entry { Entry(t.addr, t.n, -1, LOC_DRAM) }

  /** The entries after the appends of a first walk. */
  function Appended(ts: seq<Touch>): seq<Entry> {
    if ts == [] then []
    else
      var es, t := Appended(ts[..|ts| - 1]), ts[|ts| - 1];
      if es != [] && t.addr <= es[|es| - 1].addr then es else es + [NewEntry(t)]
  }

  /** Ascending appends all arrive, in order. */
  lemma {:induction false} AppendedAll(ts: seq<Touch>)
    requires Ascending(ts)
    ensures |Appended(ts)| == |ts| && forall i :: 0 <= i < |ts| ==> Appended(ts)[i] == NewEntry(ts[i])
    ensures Sorted(Appended(ts))
  {
    if ts != [] {
      AppendedAll(ts[..|ts| - 1]);
    }
  }

  /** Where update_nodeid has put the pages between the first two walks. */
  type Places = map<nat, (int, Loc)>

  /** One call update_nodeid(addr, nid, loc). */
  datatype Place = Place(addr: nat, nid: int, loc: Loc)

  function Placed(es: seq<Entry>, where: Places): (r: seq<Entry>)
    ensures |r| == |es| && forall k :: 0 <= k < |es| ==> r[k].addr == es[k].addr && r[k].payload == es[k].payload
  {
    seq(|es|, k requires 0 <= k < |es| =>
      if es[k].addr in where then es[k].(nid := where[es[k].addr].0, loc := where[es[k].addr].1) else es[k])
  }

  /** One call of update_nodeid while the sequence is appending. */
  function PlaceStep(s: Marks, pagesize: nat, nrWalks: nat, p: Place): (r: Marks)
    requires s.find <= |s.entries|
    ensures r.find <= |r.entries| == |s.entries|
  {
    var m := Seek(s.entries, s.find, p.addr);
    if !FoundAt(s.entries, m, p.addr) then s.(find := m)
    else
      var e := s.entries[m].(nid := p.nid, loc := p.loc);
      Marks(s.entries[m := e], m, Add(s.top, e.loc, pagesize, e.payload >= nrWalks),
            Add(s.young, e.loc, pagesize, e.payload >= 1))
  }

  /** The calls one after the other, from a find cursor at the first entry. */
  function PlaceWalk(s: Marks, pagesize: nat, nrWalks: nat, ps: seq<Place>): (r: Marks)
    ensures r.find <= |r.entries| == |s.entries|
  {
    if ps == [] then s.(find := 0)
    else PlaceStep(PlaceWalk(s, pagesize, nrWalks, ps[..|ps| - 1]), pagesize, nrWalks, ps[|ps| - 1])
  }

  predicate PlacesAscend(ps: seq<Place>) {
    forall i, j :: 0 <= i < j < |ps| ==> ps[i].addr < ps[j].addr
  }

  function WhereOf(ps: seq<Place>): (where: Places)
    ensures forall x :: x in where ==> exists j :: 0 <= j < |ps| && ps[j].addr == x
  {
    if ps == [] then map[]
    else
      var init, p := ps[..|ps| - 1], ps[|ps| - 1];
      var where := WhereOf(init);
      assert forall j :: 0 <= j < |init| ==> init[j] == ps[j];
      where[p.addr := (p.nid, p.loc)]
  }

  /** The stored pages put at a location with a payload of at least `least`. */
  function PutAt(es: seq<Entry>, where: Places, l: Loc, least: nat): set<nat> {
    set k: nat | k < |es| && es[k].addr in where && where[es[k].addr].1 == l && es[k].payload >= least
  }

  /** The byte counts have grown by the pages put at each location. */
  predicate PutTallies(b': Bytes, b: Bytes, pagesize: nat, es: seq<Entry>, where: Places, least: nat) {
    forall l: Loc :: b'[l] == b[l] + BytesOf(pagesize, PutAt(es, where, l, least))
  }

  /** The cursor has only passed addresses below the last call's. */
  predicate PlaceCursorOk(es: seq<Entry>, find: nat, ps: seq<Place>) {
    && find <= |es| && (ps == [] ==> find == 0)
    && forall k :: 0 <= k < find ==> es[k].addr < ps[|ps| - 1].addr
  }

  predicate PlacesOk(r: Marks, s: Marks, pagesize: nat, nrWalks: nat, ps: seq<Place>) {
    && r.entries == Placed(s.entries, WhereOf(ps)) && PlaceCursorOk(s.entries, r.find, ps)
    && PutTallies(r.top, s.top, pagesize, s.entries, WhereOf(ps), nrWalks)
    && PutTallies(r.young, s.young, pagesize, s.entries, WhereOf(ps), 1)
  }

  lemma PlaceSeek(es: seq<Entry>, find: nat, ps: seq<Place>, p: Place) returns (m: nat)
    requires Sorted(es) && PlaceCursorOk(es, find, ps) && PlacesAscend(ps + [p])
    ensures m == Seek(es, find, p.addr) && PlaceCursorOk(es, m, ps + [p])
    ensures FoundAt(es, m, p.addr) <==> Stores(es, p.addr)
  {
    m := Seek(es, find, p.addr);
    assert ps != [] ==> (ps + [p])[|ps| - 1].addr < (ps + [p])[|ps|].addr;
    if Stores(es, p.addr) {
      var k :| 0 <= k < |es| && es[k].addr == p.addr;
      assert k >= m;
    }
  }

  lemma NotYetPlaced(ps: seq<Place>, p: Place)
    requires PlacesAscend(ps + [p])
    ensures p.addr !in WhereOf(ps)
  {
    forall j | 0 <= j < |ps| ensures ps[j].addr != p.addr {
      assert (ps + [p])[j] == ps[j] && (ps + [p])[|ps|] == p;
    }
  }

  /** A call for an address that is stored puts one more page. */
  lemma PlaceOne(es: seq<Entry>, where: Places, where': Places, m: nat, p: Place)
    requires Sorted(es) && FoundAt(es, m, p.addr) && p.addr !in where && where' == where[p.addr := (p.nid, p.loc)]
    ensures Placed(es, where') == Placed(es, where)[m := es[m].(nid := p.nid, loc := p.loc)]
    ensures Placed(es, where)[m] == es[m]
  {
    forall k | 0 <= k < |es| && k != m ensures es[k].addr != p.addr {
      assert k < m ==> es[k].addr < es[m].addr;
      assert m < k ==> es[m].addr < es[k].addr;
    }
  }

  lemma PutOne(es: seq<Entry>, where: Places, where': Places, m: nat, p: Place, l: Loc, least: nat)
    requires Sorted(es) && FoundAt(es, m, p.addr) && p.addr !in where && where' == where[p.addr := (p.nid, p.loc)]
    ensures m !in PutAt(es, where, l, least)
    ensures PutAt(es, where', l, least)
            == PutAt(es, where, l, least) + if l == p.loc && es[m].payload >= least then {m} else {}
  {
    forall k: nat | k < |es| && k != m ensures es[k].addr != p.addr {
      assert k < m ==> es[k].addr < es[m].addr;
      assert m < k ==> es[m].addr < es[k].addr;
    }
  }

  lemma PutTally(b': Bytes, b: Bytes, pagesize: nat, es: seq<Entry>, where: Places, where': Places, m: nat, p: Place,
                 least: nat)
    requires Sorted(es) && FoundAt(es, m, p.addr) && p.addr !in where && where' == where[p.addr := (p.nid, p.loc)]
    requires PutTallies(b', b, pagesize, es, where, least)
    ensures PutTallies(Add(b', p.loc, pagesize, es[m].payload >= least), b, pagesize, es, where', least)
  {
    var b2 := Add(b', p.loc, pagesize, es[m].payload >= least);
    forall l: Loc ensures b2[l] == b[l] + BytesOf(pagesize, PutAt(es, where', l, least)) {
      PutOne(es, where, where', m, p, l, least);
      OnePageMore(pagesize, PutAt(es, where, l, least), m);
      assert PutAt(es, where, l, least) + {} == PutAt(es, where, l, least);
    }
  }

  /** A call for an address that is not stored changes nothing. */
  lemma PlaceNone(es: seq<Entry>, where: Places, where': Places, p: Place)
    requires !Stores(es, p.addr) && where' == where[p.addr := (p.nid, p.loc)]
    ensures Placed(es, where') == Placed(es, where)
    ensures forall l: Loc, least: nat :: PutAt(es, where', l, least) == PutAt(es, where, l, least)
  {
  }

  lemma PlaceNext(r: Marks, s: Marks, pagesize: nat, nrWalks: nat, ps: seq<Place>, p: Place) returns (r': Marks)
    requires Sorted(s.entries) && PlacesAscend(ps + [p]) && PlacesOk(r, s, pagesize, nrWalks, ps)
    ensures r' == PlaceStep(r, pagesize, nrWalks, p) && PlacesOk(r', s, pagesize, nrWalks, ps + [p])
  {
    var es, where, where' := s.entries, WhereOf(ps), WhereOf(ps)[p.addr := (p.nid, p.loc)];
    var m := PlaceSeek(es, r.find, ps, p);
    SeekSame(es, r.entries, r.find, p.addr);
    NotYetPlaced(ps, p);
    assert (ps + [p])[..|ps|] == ps;
    r' := PlaceStep(r, pagesize, nrWalks, p);
    if Stores(es, p.addr) {
      PlaceOne(es, where, where', m, p);
      PutTally(r.top, s.top, pagesize, es, where, where', m, p, nrWalks);
      PutTally(r.young, s.young, pagesize, es, where, where', m, p, 1);
    } else {
      PlaceNone(es, where, where', p);
    }
  }

  /** Ascending calls of update_nodeid put every stored page where its call says, change nothing else,
      and count the bytes of the pages put. */
  lemma {:induction false} PlaceWalkPlaces(s: Marks, pagesize: nat, nrWalks: nat, ps: seq<Place>)
    requires Sorted(s.entries) && PlacesAscend(ps)
    ensures PlacesOk(PlaceWalk(s, pagesize, nrWalks, ps), s, pagesize, nrWalks, ps)
  {
    if ps == [] {
      forall l: Loc, least: nat ensures PutAt(s.entries, map[], l, least) == {} && BytesOf(pagesize, {}) == 0 {
      }
    } else {
      var init, p := ps[..|ps| - 1], ps[|ps| - 1];
      assert ps == init + [p];
      PlaceWalkPlaces(s, pagesize, nrWalks, init);
      var r' := PlaceNext(PlaceWalk(s, pagesize, nrWalks, init), s, pagesize, nrWalks, init, p);
    }
  }

  predicate RunOk(walks: seq<seq<Touch>>) {
    && 1 <= |walks| <= 255
    && forall i :: 0 <= i < |walks| ==> WalkOfRun(walks[i])
  }

  predicate WalkOfRun(ts: seq<Touch>) {
    Ascending(ts) && forall j :: 0 <= j < |ts| ==> ts[j].n <= 1
  }

  /** The entries after a run of walks: appends first, then updates. */
  function AfterRun(walks: seq<seq<Touch>>, where: Places, pagesize: nat): seq<Entry>
    requires walks != []
  {
    if |walks| == 1 then Placed(Appended(walks[0]), where)
    else UpdateWalk(AfterRun(walks[..|walks| - 1], where, pagesize), pagesize, |walks|, walks[|walks| - 1]).entries
  }

  /** The number of walks that saw the page accessed. */
  function Accesses(walks: seq<seq<Touch>>, addr: nat): (n: nat)
    ensures n <= |walks|
    ensures n == |walks| <==> forall i :: 0 <= i < |walks| ==> Touched(walks[i], addr)
  {
    if walks == [] then 0
    else
      var init, last := walks[..|walks| - 1], walks[|walks| - 1];
      assert forall i :: 0 <= i < |init| ==> init[i] == walks[i];
      Accesses(init, addr) + if Touched(last, addr) then 1 else 0
  }

  predicate RunEntry(e: Entry, t: Touch, walks: seq<seq<Touch>>) {
    e.addr == t.addr && e.payload == Accesses(walks, e.addr)
  }

  /** Each page of the first walk is stored once, in order, and its payload is the number of walks
      that saw it accessed. */
  predicate RunEntries(es: seq<Entry>, first: seq<Touch>, walks: seq<seq<Touch>>) {
    |es| == |first| && Sorted(es) && forall k :: 0 <= k < |es| ==> RunEntry(es[k], first[k], walks)
  }

  lemma FirstWalk(ts: seq<Touch>, where: Places, pagesize: nat)
    requires WalkOfRun(ts)
    ensures RunEntries(AfterRun([ts], where, pagesize), ts, [ts])
  {
    AppendedAll(ts);
    var es := AfterRun([ts], where, pagesize);
    forall k | 0 <= k < |es| ensures RunEntry(es[k], ts[k], [ts]) {
      assert [ts][..0] == [] && Accesses([], es[k].addr) == 0;
      if Touched(ts, es[k].addr) {
        var j :| 0 <= j < |ts| && ts[j].addr == es[k].addr && ts[j].n != 0;
        assert j == k;
      }
    }
  }

  lemma AccessesSnoc(walks: seq<seq<Touch>>, last: seq<Touch>, addr: nat)
    ensures Accesses(walks + [last], addr) == Accesses(walks, addr) + if Touched(last, addr) then 1 else 0
  {
    assert (walks + [last])[..|walks|] == walks;
  }

  lemma NextWalk(was: seq<Entry>, first: seq<Touch>, walks: seq<seq<Touch>>, last: seq<Touch>, es: seq<Entry>)
    requires RunEntries(was, first, walks) && EntriesAre(es, was, last) && |walks| < 255
    ensures RunEntries(es, first, walks + [last])
  {
    forall k | 0 <= k < |es| ensures RunEntry(es[k], first[k], walks + [last]) {
      assert RunEntry(was[k], first[k], walks);
      AccessesSnoc(walks, last, was[k].addr);
    }
  }

  /** The payloads after any run of walks that report in ascending order. */
  lemma {:induction false} RunPayloads(walks: seq<seq<Touch>>, where: Places, pagesize: nat) returns (es: seq<Entry>)
    requires RunOk(walks)
    ensures es == AfterRun(walks, where, pagesize) && RunEntries(es, walks[0], walks)
  {
    es := AfterRun(walks, where, pagesize);
    if |walks| == 1 {
      assert walks == [walks[0]];
      FirstWalk(walks[0], where, pagesize);
    } else {
      var init, last := walks[..|walks| - 1], walks[|walks| - 1];
      var was := RunPayloads(init, where, pagesize);
      WalkCounts(was, pagesize, |walks|, last);
      assert walks == init + [last];
      NextWalk(was, walks[0], init, last, es);
    }
  }

  /** The pages at a location a walk saw accessed, and those every walk of the run did. */
  function AccessedNow(es: seq<Entry>, walks: seq<seq<Touch>>, l: Loc): set<nat>
    requires walks != []
  {
    set k: nat | k < |es| && es[k].loc == l && Touched(walks[|walks| - 1], es[k].addr)
  }

  function AccessedAlways(es: seq<Entry>, walks: seq<seq<Touch>>, l: Loc): set<nat> {
    set k: nat | k < |es| && es[k].loc == l && Always(walks, es[k].addr)
  }

  predicate Always(walks: seq<seq<Touch>>, addr: nat) {
    forall i :: 0 <= i < |walks| ==> Touched(walks[i], addr)
  }

  lemma YoungNow(was: seq<Entry>, init: seq<seq<Touch>>, last: seq<Touch>, first: seq<Touch>, l: Loc)
    requires RunEntries(was, first, init) && |init| < 255
    ensures Young(was, last, l, 1) == AccessedNow(was, init + [last], l)
    ensures Young(was, last, l, |init| + 1) == AccessedAlways(was, init + [last], l)
    ensures AccessedAlways(was, init + [last], l) <= AccessedNow(was, init + [last], l)
  {
    var walks := init + [last];
    forall k: nat | k < |was|
      ensures Touched(last, was[k].addr) ==> 1 <= WalkedEntry(was[k], last).payload == Accesses(walks, was[k].addr)
      ensures Always(walks, was[k].addr) <==> Accesses(walks, was[k].addr) == |walks|
      ensures Always(walks, was[k].addr) ==> Touched(last, was[k].addr)
    {
      assert RunEntry(was[k], first[k], init);
      AccessesSnoc(init, last, was[k].addr);
      assert walks[|init|] == last;
    }
  }

  lemma WalkBytes(was: seq<Entry>, init: seq<seq<Touch>>, last: seq<Touch>, walks: seq<seq<Touch>>, first: seq<Touch>,
                  pagesize: nat, s: Marks, l: Loc)
    requires RunEntries(was, first, init) && |init| < 255 && walks == init + [last]
    requires WalkOk(s, was, pagesize, |walks|, last)
    ensures s.young[l] == BytesOf(pagesize, AccessedNow(was, walks, l))
    ensures s.top[l] == BytesOf(pagesize, AccessedAlways(was, walks, l))
    ensures s.top[l] <= s.young[l] <= pagesize * |was|
  {
    YoungNow(was, init, last, first, l);
    FewerBytes(pagesize, AccessedAlways(was, walks, l), AccessedNow(was, walks, l));
    AtMost(AccessedNow(was, walks, l), |was|);
    Distribute(|was|, |AccessedNow(was, walks, l)|, pagesize);
  }

  /** After every update walk young_bytes are the pages this walk saw accessed and top_bytes those
      all walks did. */
  lemma RunBytes(walks: seq<seq<Touch>>, where: Places, pagesize: nat, l: Loc) returns (was: seq<Entry>, s: Marks)
    requires RunOk(walks) && |walks| >= 2
    ensures was == AfterRun(walks[..|walks| - 1], where, pagesize)
    ensures s == UpdateWalk(was, pagesize, |walks|, walks[|walks| - 1])
    ensures s.young[l] == BytesOf(pagesize, AccessedNow(was, walks, l))
    ensures s.top[l] == BytesOf(pagesize, AccessedAlways(was, walks, l))
    ensures s.top[l] <= s.young[l] <= pagesize * |was|
  {
    var init, last := walks[..|walks| - 1], walks[|walks| - 1];
    was := RunPayloads(init, where, pagesize);
    s := UpdateWalk(was, pagesize, |walks|, last);
    WalkCounts(was, pagesize, |walks|, last);
    WalkBytes(was, init, last, walks, init[0], pagesize, s, l);
  }

  lemma FewerBytes(pagesize: nat, a: set<nat>, b: set<nat>)
    requires a <= b
    ensures BytesOf(pagesize, a) <= BytesOf(pagesize, b)
  {
    assert b == a + (b - a);
    Distribute(|b|, |a|, pagesize);
  }

  lemma {:induction false} AtMost(pages: set<nat>, n: nat)
    requires forall k :: k in pages ==> k < n
    ensures |pages| <= n
  {
    if n == 0 {
      assert pages == {};
    } else {
      AtMost(pages - {n - 1}, n - 1);
    }
  }
}
