/** promote_and_demote of EPTMigrate.cc: the pages a plan selects. */
module Selector {
  import opened Arith
  import opened AddrClusters
  import opened AddrSequence
  import opened Planner
  import opened PlanRanges
  import opened Histogram

  /** A page to move, the node it is on and the node it goes to. */
  datatype Choice = Choice(addr: nat, fromNid: int, targetNid: int)

  datatype Peer = NoPeer | Peer(node: int)

  type Peers = int -> Peer

  /** One direction of a selection: all pages in the range, and the first `remain` at the threshold. */
  datatype Rule = Rule(inRange: Entry -> bool, at: Entry -> bool, remain: nat)

  function HotRule(p: Param, nodes: NodeMap): Rule {
    Rule((e: Entry) => nodes(e.nid) == Pmem && e.payload > p.hotThreshold && e.payload <= p.hotThresholdMax,
         (e: Entry) => nodes(e.nid) == Pmem && e.payload == p.hotThreshold, p.promoteRemain)
  }

  function ColdRule(p: Param, nodes: NodeMap): Rule {
    Rule((e: Entry) => nodes(e.nid) == Dram && e.payload < p.coldThreshold && e.payload >= p.coldThresholdMin,
         (e: Entry) => nodes(e.nid) == Dram && e.payload == p.coldThreshold, p.demoteRemain)
  }

  /** The rule takes the last of the entries. */
  predicate TakesLast(r: Rule, es: seq<Entry>)
    requires es != []
  {
    var init, e := es[..|es| - 1], es[|es| - 1];
    r.inRange(e) || (r.at(e) && CountOf(init, r.at) < r.remain)
  }

  /** save_migrate_parameter: a page whose node has no peer is left out. */
  function Saved(e: Entry, peers: Peers): seq<Choice> {
    if peers(e.nid).Peer? then [Choice(e.addr, e.nid, peers(e.nid).node)] else []
  }

  function Chosen(r: Rule, es: seq<Entry>, peers: Peers): seq<Choice> {
    if es == [] then []
    else if TakesLast(r, es) then Chosen(r, es[..|es| - 1], peers) + Saved(es[|es| - 1], peers)
    else Chosen(r, es[..|es| - 1], peers)
  }

  lemma ChosenNext(r: Rule, es: seq<Entry>, i: nat, peers: Peers)
    requires i < |es|
    ensures Chosen(r, es[..i + 1], peers)
            == if r.inRange(es[i]) || (r.at(es[i]) && CountOf(es[..i], r.at) < r.remain)
               then Chosen(r, es[..i], peers) + Saved(es[i], peers) else Chosen(r, es[..i], peers)
  {
    assert es[..i + 1][..i] == es[..i];
  }

  // ----- How many are chosen -----

  /** No more than the pages in the range and `remain` of those at the threshold; just as many if every
      node has a peer. */
  lemma {:induction false} ChosenCount(r: Rule, es: seq<Entry>, peers: Peers)
    requires forall e: Entry :: !(r.inRange(e) && r.at(e))
    ensures |Chosen(r, es, peers)| <= CountOf(es, r.inRange) + MinNat(r.remain, CountOf(es, r.at))
    ensures (forall k :: 0 <= k < |es| ==> peers(es[k].nid).Peer?) ==>
              |Chosen(r, es, peers)| == CountOf(es, r.inRange) + MinNat(r.remain, CountOf(es, r.at))
  {
    if es != [] {
      ChosenCount(r, es[..|es| - 1], peers);
    }
  }

  /** Every page in the range whose node has a peer is chosen, with that peer. */
  lemma {:induction false} RangeIsChosen(r: Rule, es: seq<Entry>, peers: Peers, k: nat)
    requires k < |es| && r.inRange(es[k]) && peers(es[k].nid).Peer?
    ensures Choice(es[k].addr, es[k].nid, peers(es[k].nid).node) in Chosen(r, es, peers)
  {
    if k < |es| - 1 {
      RangeIsChosen(r, es[..|es| - 1], peers, k);
    }
  }

  /** Every chosen page is a page of the range or at the threshold. */
  lemma {:induction false} ChosenIsPage(r: Rule, es: seq<Entry>, peers: Peers, c: Choice) returns (k: nat)
    requires c in Chosen(r, es, peers)
    ensures k < |es| && (r.inRange(es[k]) || r.at(es[k]))
    ensures peers(es[k].nid) == Peer(c.targetNid) && c.addr == es[k].addr && c.fromNid == es[k].nid
  {
    if c in Chosen(r, es[..|es| - 1], peers) {
      k := ChosenIsPage(r, es[..|es| - 1], peers, c);
    } else {
      k := |es| - 1;
    }
  }

  // ----- Which are chosen -----

  /** The places of the entries with a property. */
  function Places(es: seq<Entry>, p: Entry -> bool): set<nat> { set j: nat | j < |es| && p(es[j]) }

  lemma PlacesLast(es: seq<Entry>, l: nat, p: Entry -> bool)
    requires |es| == l + 1
    ensures l !in Places(es[..l], p) && Places(es, p) == Places(es[..l], p) + if p(es[l]) then {l} else {}
  {
  }

  lemma {:induction false} CountIsPlaces(es: seq<Entry>, p: Entry -> bool)
    ensures CountOf(es, p) == |Places(es, p)|
  {
    if es == [] {
      assert Places(es, p) == {};
    } else {
      CountIsPlaces(es[..|es| - 1], p);
      PlacesLast(es, |es| - 1, p);
    }
  }

  predicate Takes(r: Rule, es: seq<Entry>, k: nat)
    requires k < |es|
  {
    r.inRange(es[k]) || (r.at(es[k]) && CountOf(es[..k], r.at) < r.remain)
  }

  ghost predicate InChoices(cs: seq<Choice>, addr: nat) { exists c :: c in cs && c.addr == addr }

  lemma InChoicesSnoc(cs: seq<Choice>, saved: seq<Choice>, addr: nat)
    ensures InChoices(cs + saved, addr) <==> InChoices(cs, addr) || InChoices(saved, addr)
  {
    if InChoices(cs + saved, addr) {
      var c :| c in cs + saved && c.addr == addr;
      assert c in cs || c in saved;
    }
  }

  /** An entry is chosen exactly if the rule takes it and its node has a peer. */
  lemma {:induction false} ChosenExactly(r: Rule, es: seq<Entry>, peers: Peers, k: nat)
    requires Sorted(es) && k < |es|
    ensures InChoices(Chosen(r, es, peers), es[k].addr) <==> Takes(r, es, k) && peers(es[k].nid).Peer?
  {
    var l := |es| - 1;
    InChoicesSnoc(Chosen(r, es[..l], peers), Saved(es[l], peers), es[k].addr);
    if k < l {
      ChosenExactly(r, es[..l], peers, k);
      assert es[..l][..k] == es[..k];
    } else {
      NoneChosen(r, es[..l], peers, es[l].addr);
      assert peers(es[l].nid).Peer? ==> Saved(es[l], peers)[0].addr == es[l].addr;
    }
  }

  lemma NoneChosen(r: Rule, es: seq<Entry>, peers: Peers, addr: nat)
    requires forall i :: 0 <= i < |es| ==> es[i].addr != addr
    ensures !InChoices(Chosen(r, es, peers), addr)
  {
    if c :| c in Chosen(r, es, peers) && c.addr == addr {
      var i := ChosenIsPage(r, es, peers, c);
    }
  }

  /** The choices come in the order of the addresses. */
  lemma {:induction false} ChosenAscend(r: Rule, es: seq<Entry>, peers: Peers)
    requires Sorted(es)
    ensures var cs := Chosen(r, es, peers); forall i, j :: 0 <= i < j < |cs| ==> cs[i].addr < cs[j].addr
  {
    if es != [] {
      var l := |es| - 1;
      ChosenAscend(r, es[..l], peers);
      forall i | 0 <= i < |Chosen(r, es[..l], peers)| ensures Chosen(r, es[..l], peers)[i].addr < es[l].addr {
        var k := ChosenIsPage(r, es[..l], peers, Chosen(r, es[..l], peers)[i]);
      }
    }
  }

  /** The pages before k with a payload, on nodes of a kind. */
  function Earlier(es: seq<Entry>, k: nat, kind: NodeKind, nodes: NodeMap, payload: int): set<nat>
    requires k <= |es|
  {
    set j: nat | j < k && nodes(es[j].nid) == kind && es[j].payload == payload
  }

  /** A page is promoted exactly if it is on PMEM, its node has a peer, and it was seen more often than
      the threshold and at most as often as its bound, or as often as the threshold and fewer than
      promote_remain such pages come before it. */
  lemma PromotedExactly(p: Param, es: seq<Entry>, nodes: NodeMap, peers: Peers, k: nat)
    requires Sorted(es) && k < |es|
    ensures InChoices(Chosen(HotRule(p, nodes), es, peers), es[k].addr)
            <==> nodes(es[k].nid) == Pmem && peers(es[k].nid).Peer?
                 && (p.hotThreshold < es[k].payload <= p.hotThresholdMax
                     || (es[k].payload == p.hotThreshold
                         && |Earlier(es, k, Pmem, nodes, p.hotThreshold)| < p.promoteRemain))
  {
    var r := HotRule(p, nodes);
    ChosenExactly(r, es, peers, k);
    CountIsPlaces(es[..k], r.at);
    assert Places(es[..k], r.at) == Earlier(es, k, Pmem, nodes, p.hotThreshold);
  }

  /** The same for demotion: on DRAM, and seen less often. */
  lemma DemotedExactly(p: Param, es: seq<Entry>, nodes: NodeMap, peers: Peers, k: nat)
    requires Sorted(es) && k < |es|
    ensures InChoices(Chosen(ColdRule(p, nodes), es, peers), es[k].addr)
            <==> nodes(es[k].nid) == Dram && peers(es[k].nid).Peer?
                 && (p.coldThresholdMin <= es[k].payload < p.coldThreshold
                     || (es[k].payload == p.coldThreshold
                         && |Earlier(es, k, Dram, nodes, p.coldThreshold)| < p.demoteRemain))
  {
    var r := ColdRule(p, nodes);
    ChosenExactly(r, es, peers, k);
    CountIsPlaces(es[..k], r.at);
    assert Places(es[..k], r.at) == Earlier(es, k, Dram, nodes, p.coldThreshold);
  }

  lemma {:induction false} CountImplies(es: seq<Entry>, p: Entry -> bool, q: Entry -> bool)
    requires forall k :: 0 <= k < |es| && p(es[k]) ==> q(es[k])
    ensures CountOf(es, p) <= CountOf(es, q)
  {
    if es != [] {
      CountImplies(es[..|es| - 1], p, q);
    }
  }

  /** The pages on PMEM with more than t references, those beyond nrWalks counted as nrWalks. */
  function ClampedAbove(t: int, nodes: NodeMap, nrWalks: nat): Entry -> bool {
    (e: Entry) => 0 <= e.nid <= MAX_NID && nodes(e.nid) == Pmem && Clamped(e.payload, nrWalks) > t
  }

  function ClampedBelow(t: int, nodes: NodeMap, nrWalks: nat): Entry -> bool {
    (e: Entry) => 0 <= e.nid <= MAX_NID && nodes(e.nid) == Dram && Clamped(e.payload, nrWalks) < t
  }

  /** The histogram of a slot is that of its pages. */
  predicate IsHistogram(h: Ranked, s: nat, es: seq<Entry>, kind: NodeKind, nodes: NodeMap, nrWalks: nat) {
    forall l: nat :: l <= nrWalks ==> h(s, l) == CountOf(es, OnKind(kind, nodes, l, nrWalks))
  }

  lemma {:induction false} AboveIsCount(h: Ranked, s: nat, es: seq<Entry>, nodes: NodeMap, nrWalks: nat, t: nat)
    requires IsHistogram(h, s, es, Pmem, nodes, nrWalks) && t <= nrWalks
    ensures PagesAbove(h, s, t, nrWalks) == CountOf(es, ClampedAbove(t, nodes, nrWalks))
    decreases nrWalks - t
  {
    if t == nrWalks {
      forall e: Entry ensures !ClampedAbove(t, nodes, nrWalks)(e) {
        assert Clamped(e.payload, nrWalks) <= nrWalks;
      }
      CountNone(es, ClampedAbove(t, nodes, nrWalks));
    } else {
      AboveIsCount(h, s, es, nodes, nrWalks, t + 1);
      CountEither(es, ClampedAbove(t + 1, nodes, nrWalks), OnKind(Pmem, nodes, t + 1, nrWalks), ClampedAbove(t, nodes, nrWalks));
    }
  }

  lemma {:induction false} BelowIsCount(h: Ranked, s: nat, es: seq<Entry>, nodes: NodeMap, nrWalks: nat, t: nat)
    requires IsHistogram(h, s, es, Dram, nodes, nrWalks) && t <= nrWalks
    ensures PagesBelow(h, s, t) == CountOf(es, ClampedBelow(t, nodes, nrWalks))
  {
    if t == 0 {
      forall e: Entry ensures !ClampedBelow(0, nodes, nrWalks)(e) {
        assert Clamped(e.payload, nrWalks) >= 0;
      }
      CountNone(es, ClampedBelow(0, nodes, nrWalks));
    } else {
      BelowIsCount(h, s, es, nodes, nrWalks, t - 1);
      CountEither(es, ClampedBelow(t - 1, nodes, nrWalks), OnKind(Dram, nodes, t - 1, nrWalks), ClampedBelow(t, nodes, nrWalks));
    }
  }

  predicate NodesKnown(nodes: NodeMap, es: seq<Entry>) {
    forall k :: 0 <= k < |es| && nodes(es[k].nid) != Invalid ==> 0 <= es[k].nid <= MAX_NID
  }

  /** The selection honours the plan: it promotes at most nr_promote pages, and exactly that many when
      no page was counted more often than there were walks and every node has a peer. */
  lemma PromotesAsPlanned(p: Param, pmem: Ranked, s: nat, es: seq<Entry>, nodes: NodeMap, peers: Peers, nrWalks: nat)
    requires HotPlan(p, pmem, s, nrWalks) && IsHistogram(pmem, s, es, Pmem, nodes, nrWalks) && NodesKnown(nodes, es)
    requires ParamOk(p, nrWalks)
    ensures |Chosen(HotRule(p, nodes), es, peers)| <= p.nrPromote
    ensures (forall k :: 0 <= k < |es| ==> es[k].payload <= nrWalks && peers(es[k].nid).Peer?) ==>
              |Chosen(HotRule(p, nodes), es, peers)| == p.nrPromote
  {
    var r, t := HotRule(p, nodes), p.hotThreshold;
    ChosenCount(r, es, peers);
    if t > nrWalks {
      CountNone(es, r.inRange);
    } else {
      AboveIsCount(pmem, s, es, nodes, nrWalks, t);
      CountImplies(es, r.inRange, ClampedAbove(t, nodes, nrWalks));
      if forall k :: 0 <= k < |es| ==> es[k].payload <= nrWalks {
        CountImplies(es, ClampedAbove(t, nodes, nrWalks), r.inRange);
        CountImplies(es, OnKind(Pmem, nodes, t, nrWalks), r.at);
      }
    }
  }

  /** The same for demotion. */
  lemma DemotesAsPlanned(p: Param, dram: Ranked, s: nat, es: seq<Entry>, nodes: NodeMap, peers: Peers, nrWalks: nat)
    requires ColdPlan(p, dram, s, nrWalks) && IsHistogram(dram, s, es, Dram, nodes, nrWalks) && NodesKnown(nodes, es)
    requires ParamOk(p, nrWalks)
    ensures |Chosen(ColdRule(p, nodes), es, peers)| <= p.nrDemote
    ensures (forall k :: 0 <= k < |es| ==> peers(es[k].nid).Peer?) ==>
              |Chosen(ColdRule(p, nodes), es, peers)| == p.nrDemote
  {
    var r, t := ColdRule(p, nodes), p.coldThreshold;
    ChosenCount(r, es, peers);
    if t < 0 {
      CountNone(es, r.inRange);
    } else {
      BelowIsCount(dram, s, es, nodes, nrWalks, t);
      CountImplies(es, r.inRange, ClampedBelow(t, nodes, nrWalks));
      CountImplies(es, ClampedBelow(t, nodes, nrWalks), r.inRange);
      CountImplies(es, OnKind(Dram, nodes, t, nrWalks), r.at);
    }
  }

  // ----- The selection loop -----

  /** The hot half of the loop body: `promote_remain--` is evaluated for every page at the threshold. */
  method TakeHot(p: Param, remain: int, addr: nat, refs: byte, nid: int, peers: Peers, hot: seq<Choice>)
    returns (hot': seq<Choice>, remain': int)
    ensures remain' == if refs == p.hotThreshold then remain - 1 else remain
    ensures hot' == if (refs == p.hotThreshold && remain > 0) || p.hotThreshold < refs <= p.hotThresholdMax
                    then hot + (if peers(nid).Peer? then [Choice(addr, nid, peers(nid).node)] else []) else hot
  {
    hot', remain' := hot, remain;
    var refsInRange := refs > p.hotThreshold && refs <= p.hotThresholdMax;
    var take := refsInRange;
    if refs == p.hotThreshold {
      take := take || remain' > 0;
      remain' := remain' - 1;
    }
    if take && peers(nid).Peer? {
      hot' := hot + [Choice(addr, nid, peers(nid).node)];
    }
  }

  method TakeCold(p: Param, remain: int, addr: nat, refs: byte, nid: int, peers: Peers, cold: seq<Choice>)
    returns (cold': seq<Choice>, remain': int)
    ensures remain' == if refs == p.coldThreshold then remain - 1 else remain
    ensures cold' == if (refs == p.coldThreshold && remain > 0) || p.coldThresholdMin <= refs < p.coldThreshold
                     then cold + (if peers(nid).Peer? then [Choice(addr, nid, peers(nid).node)] else []) else cold
  {
    cold', remain' := cold, remain;
    var refsInRange := refs < p.coldThreshold && refs >= p.coldThresholdMin;
    var take := refsInRange;
    if refs == p.coldThreshold {
      take := take || remain' > 0;
      remain' := remain' - 1;
    }
    if take && peers(nid).Peer? {
      cold' := cold + [Choice(addr, nid, peers(nid).node)];
    }
  }

  /** What is chosen of the first w pages, and what remains to be taken at the threshold. */
  predicate Choosing(r: Rule, es: seq<Entry>, w: nat, peers: Peers, chosen: seq<Choice>, remain: int) {
    w <= |es| && chosen == Chosen(r, es[..w], peers) && remain == r.remain - CountOf(es[..w], r.at)
  }

  method ChooseOne(p: Param, nodes: NodeMap, peers: Peers, addr: nat, refs: byte, nid: int, ghost es: seq<Entry>, ghost w: nat,
                   hot: seq<Choice>, promoteRemain: int, cold: seq<Choice>, demoteRemain: int)
    returns (hot': seq<Choice>, promoteRemain': int, cold': seq<Choice>, demoteRemain': int)
    requires w < |es| && addr == es[w].addr && refs == es[w].payload && nid == es[w].nid
    requires Choosing(HotRule(p, nodes), es, w, peers, hot, promoteRemain)
    requires Choosing(ColdRule(p, nodes), es, w, peers, cold, demoteRemain)
    ensures Choosing(HotRule(p, nodes), es, w + 1, peers, hot', promoteRemain')
    ensures Choosing(ColdRule(p, nodes), es, w + 1, peers, cold', demoteRemain')
  {
    hot', promoteRemain', cold', demoteRemain' := hot, promoteRemain, cold, demoteRemain;
    ghost var h, c := HotRule(p, nodes), ColdRule(p, nodes);
    ChosenNext(h, es, w, peers);
    ChosenNext(c, es, w, peers);
    CountNext(es, w, h.at);
    CountNext(es, w, c.at);
    if nodes(nid) == Pmem {
      hot', promoteRemain' := TakeHot(p, promoteRemain, addr, refs, nid, peers, hot);
    } else if nodes(nid) == Dram {
      cold', demoteRemain' := TakeCold(p, demoteRemain, addr, refs, nid, peers, cold);
    }
  }

  /** The selection loop of promote_and_demote. */
  method SelectPages(a: AddrSequence, p: Param, nodes: NodeMap, peers: Peers) returns (hot: seq<Choice>, cold: seq<Choice>)
    requires a.Valid()
    modifies a`walkIter
    ensures hot == Chosen(HotRule(p, nodes), a.entries, peers)
    ensures cold == Chosen(ColdRule(p, nodes), a.entries, peers)
  {
    hot, cold := [], [];
    var promoteRemain: int, demoteRemain: int := p.promoteRemain, p.demoteRemain;
    ghost var es, w := a.entries, 0;
    var rc, addr, refs, nid := a.GetFirst();
    while rc == 0
      invariant a.Valid() && a.entries == es && w <= |es|
      invariant if w < |es| then rc == 0 && a.WalkAt(w + 1) && addr == es[w].addr && refs == es[w].payload && nid == es[w].nid
                else rc != 0
      invariant Choosing(HotRule(p, nodes), es, w, peers, hot, promoteRemain)
      invariant Choosing(ColdRule(p, nodes), es, w, peers, cold, demoteRemain)
      decreases |es| - w
    {
      hot, promoteRemain, cold, demoteRemain :=
        ChooseOne(p, nodes, peers, addr, refs, nid, es, w, hot, promoteRemain, cold, demoteRemain);
      w := w + 1;
      rc, addr, refs, nid := a.GetNext(w);
    }
    assert es[..w] == es;
  }

  // ----- All slots -----

  /** The KB of the pages chosen in each slot. */
  function MovedKb(chosen: seq<seq<Choice>>, kb: nat -> nat): nat {
    if chosen == [] then 0
    else MovedKb(chosen[..|chosen| - 1], kb) + |chosen[|chosen| - 1]| * kb(|chosen| - 1)
  }

  lemma FewerKb(a: nat, b: nat, kb: nat)
    requires a <= b
    ensures a * kb <= b * kb
  {
    Distribute(b, a, kb);
  }

  /** Slots that choose no more than planned move no more KB than planned, just as many if they choose
      what is planned. */
  lemma {:induction false} MovedWithinPlan(chosen: seq<seq<Choice>>, sides: seq<Side>, kb: nat -> nat)
    requires |chosen| == |sides| && forall s :: 0 <= s < |sides| ==> |chosen[s]| <= sides[s].nr
    ensures MovedKb(chosen, kb) <= PlanKb(sides, kb)
    ensures (forall s :: 0 <= s < |sides| ==> |chosen[s]| == sides[s].nr) ==> MovedKb(chosen, kb) == PlanKb(sides, kb)
  {
    if chosen != [] {
      var l := |chosen| - 1;
      MovedWithinPlan(chosen[..l], sides[..l], kb);
      FewerKb(|chosen[l]|, sides[l].nr, kb(l));
    }
  }

  /** The slots' histograms are those of their pages. */
  predicate HistogramsOf(pmem: Ranked, dram: Ranked, slots: seq<seq<Entry>>, nodes: NodeMap, nrWalks: nat) {
    forall s :: 0 <= s < |slots| ==>
      IsHistogram(pmem, s, slots[s], Pmem, nodes, nrWalks) && IsHistogram(dram, s, slots[s], Dram, nodes, nrWalks)
      && NodesKnown(nodes, slots[s])
  }

  predicate Selected(hot: seq<seq<Choice>>, cold: seq<seq<Choice>>, ps: seq<Param>, slots: seq<seq<Entry>>,
                     nodes: NodeMap, peers: Peers) {
    |hot| == |cold| == |slots| == |ps|
    && forall s :: 0 <= s < |slots| ==>
         hot[s] == Chosen(HotRule(ps[s], nodes), slots[s], peers)
         && cold[s] == Chosen(ColdRule(ps[s], nodes), slots[s], peers)
  }

  /** From the limits to the pages: what is selected over all ranges and page types under the computed
      plans stays within the promote limit and the demote limit. */
  lemma SelectedWithinLimits(pmem: Ranked, dram: Ranked, kb: nat -> nat, nrWalks: nat, promoteLimit: nat, demoteLimit: nat,
                             ps: seq<Param>, promoteCount: nat, demoteCount: nat, slots: seq<seq<Entry>>,
                             nodes: NodeMap, peers: Peers, hot: seq<seq<Choice>>, cold: seq<seq<Choice>>)
    requires PlanDone(pmem, dram, kb, nrWalks, promoteLimit, demoteLimit, ps, promoteCount, demoteCount)
    requires HistogramsOf(pmem, dram, slots, nodes, nrWalks) && Selected(hot, cold, ps, slots, nodes, peers)
    ensures MovedKb(hot, kb) <= promoteLimit && MovedKb(cold, kb) <= demoteLimit
  {
    forall s | 0 <= s < |ps|
      ensures |hot[s]| <= HotSides(ps, nrWalks)[s].nr && |cold[s]| <= ColdSides(ps)[s].nr
    {
      PromotesAsPlanned(ps[s], pmem, s, slots[s], nodes, peers, nrWalks);
      DemotesAsPlanned(ps[s], dram, s, slots[s], nodes, peers, nrWalks);
    }
    MovedWithinPlan(hot, HotSides(ps, nrWalks), kb);
    MovedWithinPlan(cold, ColdSides(ps), kb);
  }

  /** Where no page was counted more often than there were walks and every node has a peer, the pages
      selected are as many KB as the plans say. */
  lemma SelectedAsPlanned(pmem: Ranked, dram: Ranked, kb: nat -> nat, nrWalks: nat, promoteLimit: nat, demoteLimit: nat,
                          ps: seq<Param>, promoteCount: nat, demoteCount: nat, slots: seq<seq<Entry>>,
                          nodes: NodeMap, peers: Peers, hot: seq<seq<Choice>>, cold: seq<seq<Choice>>)
    requires PlanDone(pmem, dram, kb, nrWalks, promoteLimit, demoteLimit, ps, promoteCount, demoteCount)
    requires HistogramsOf(pmem, dram, slots, nodes, nrWalks) && Selected(hot, cold, ps, slots, nodes, peers)
    requires forall s, k :: 0 <= s < |slots| && 0 <= k < |slots[s]| ==>
               slots[s][k].payload <= nrWalks && peers(slots[s][k].nid).Peer?
    ensures MovedKb(hot, kb) == PlanKb(HotSides(ps, nrWalks), kb) && MovedKb(cold, kb) == PlanKb(ColdSides(ps), kb)
  {
    forall s | 0 <= s < |ps|
      ensures |hot[s]| == HotSides(ps, nrWalks)[s].nr && |cold[s]| == ColdSides(ps)[s].nr
    {
      PromotesAsPlanned(ps[s], pmem, s, slots[s], nodes, peers, nrWalks);
      DemotesAsPlanned(ps[s], dram, s, slots[s], nodes, peers, nrWalks);
    }
    MovedWithinPlan(hot, HotSides(ps, nrWalks), kb);
    MovedWithinPlan(cold, ColdSides(ps), kb);
  }
}
