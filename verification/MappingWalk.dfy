/** A whole walk of a process on values: the walks of its mappings one after the other, the calls they
    make, and the pages they miss. */
module MappingWalk {
  import opened Arith
  import opened IdleStream
  import opened PageList
  import opened EptWalk
  import opened EptLayout
  import opened EptRounds
  import opened EptTypes
  import opened EptBits
  import opened EptReads
  import opened IdleRefs
  import opened IdleWalk

  /** The walk of one mapping: from where to where, by which reads, where the next one may begin, and the
      accessed bits before and after. */
  datatype MapWalk = MapWalk(from: nat, stop: nat, rs: seq<PastRead>, next: nat, before: set<nat>, after: set<nat>)

  function NextVa(ws: seq<MapWalk>): nat { if ws == [] then 0 else ws[|ws| - 1].next }

  function BitsNow(ws: seq<MapWalk>, bits: set<nat>): set<nat> { if ws == [] then bits else ws[|ws| - 1].after }

  predicate MapOk(vm: Vm, w: MapWalk, least: nat) {
    Done(vm, w.rs, w.from, w.stop, w.next, least, w.before, w.after)
  }

  /** w is the walk of mapping m. */
  predicate WalkOf(vm: Vm, w: MapWalk, m: Mapping, lo: nat, hi: nat, least: nat, nextVa: nat) {
    && Walks(m, lo, hi, nextVa) && w.from == From(m, lo, nextVa) && w.stop == Min(m.end, hi)
    && MapOk(vm, w, least)
  }

  /** The last of the walks is that of mapping m. */
  predicate LastTakes(vm: Vm, ws: seq<MapWalk>, m: Mapping, lo: nat, hi: nat, least: nat, bits: set<nat>) {
    && ws != []
    && var past, w := ws[..|ws| - 1], ws[|ws| - 1];
       w.before == BitsNow(past, bits) && WalkOf(vm, w, m, lo, hi, least, NextVa(past))
  }

  /** After the walks, m is passed over. */
  predicate Skips(ws: seq<MapWalk>, m: Mapping, lo: nat, hi: nat) {
    !Walks(m, lo, hi, NextVa(ws)) && !BehindRange(m, lo, hi, NextVa(ws))
  }

  /** `ws` are the walks of those of the mappings that are walked, one after the other. */
  predicate WalksOver(vm: Vm, maps: seq<Mapping>, lo: nat, hi: nat, least: nat, ws: seq<MapWalk>, bits: set<nat>) {
    if maps == [] then ws == []
    else
      var front, m := maps[..|maps| - 1], maps[|maps| - 1];
      || (LastTakes(vm, ws, m, lo, hi, least, bits) && WalksOver(vm, front, lo, hi, least, ws[..|ws| - 1], bits))
      || (Skips(ws, m, lo, hi) && WalksOver(vm, front, lo, hi, least, ws, bits))
  }

  function CallsIn(w: MapWalk): seq<Ref> { Counted(ListOf(w.rs), w.stop) }

  /** The calls of inc_payload the walks make. */
  function CallsOf(ws: seq<MapWalk>): seq<Ref> {
    if ws == [] then [] else CallsOf(ws[..|ws| - 1]) + CallsIn(ws[|ws| - 1])
  }

  function ReadsOf(ws: seq<MapWalk>): seq<PastRead> {
    if ws == [] then [] else ReadsOf(ws[..|ws| - 1]) + ws[|ws| - 1].rs
  }

  predicate AllOk(vm: Vm, ws: seq<MapWalk>, least: nat) {
    forall j :: 0 <= j < |ws| ==> MapOk(vm, ws[j], least)
  }

  predicate BitsPass(ws: seq<MapWalk>, bits: set<nat>) {
    && (ws != [] ==> ws[0].before == bits)
    && (forall j :: 0 <= j < |ws| - 1 ==> ws[j + 1].before == ws[j].after)
  }

  predicate PlacesPass(ws: seq<MapWalk>) {
    forall j :: 0 <= j < |ws| - 1 ==> ws[j].next <= ws[j + 1].from
  }

  /** What the walks have in common: each is done, finds the accessed bits the one before left, and
      begins at or behind where that ended. */
  predicate InOrder(vm: Vm, ws: seq<MapWalk>, least: nat, bits: set<nat>) {
    AllOk(vm, ws, least) && BitsPass(ws, bits) && PlacesPass(ws)
  }

  lemma InOrderPrefix(vm: Vm, ws: seq<MapWalk>, least: nat, bits: set<nat>, n: nat)
    requires InOrder(vm, ws, least, bits) && n <= |ws|
    ensures InOrder(vm, ws[..n], least, bits)
  {
    var front := ws[..n];
    forall j | 0 <= j < n - 1 ensures front[j + 1].before == front[j].after && front[j].next <= front[j + 1].from {
      assert front[j] == ws[j] && front[j + 1] == ws[j + 1];
    }
  }

  lemma AllOkLast(vm: Vm, ws: seq<MapWalk>, past: seq<MapWalk>, w: MapWalk, least: nat)
    requires ws != [] && past == ws[..|ws| - 1] && w == ws[|ws| - 1] && AllOk(vm, past, least) && MapOk(vm, w, least)
    ensures AllOk(vm, ws, least)
  {
    forall j | 0 <= j < |ws| ensures MapOk(vm, ws[j], least) {
      if j < |past| {
        assert ws[j] == past[j];
      }
    }
  }

  lemma PassLast(ws: seq<MapWalk>, past: seq<MapWalk>, w: MapWalk, bits: set<nat>)
    requires ws != [] && past == ws[..|ws| - 1] && w == ws[|ws| - 1] && BitsPass(past, bits) && PlacesPass(past)
    requires w.before == BitsNow(past, bits) && NextVa(past) <= w.from
    ensures BitsPass(ws, bits) && PlacesPass(ws)
  {
    forall j | 0 <= j < |ws| - 1 ensures ws[j + 1].before == ws[j].after && ws[j].next <= ws[j + 1].from {
      assert j < |past| - 1 ==> past[j] == ws[j] && past[j + 1] == ws[j + 1];
      assert j == |past| - 1 ==> past[j] == ws[j];
    }
  }

  lemma WalkOfFrom(vm: Vm, w: MapWalk, m: Mapping, lo: nat, hi: nat, least: nat, nextVa: nat)
    requires WalkOf(vm, w, m, lo, hi, least, nextVa)
    ensures MapOk(vm, w, least) && nextVa <= w.from
  {
  }

  lemma TakenInOrder(vm: Vm, ws: seq<MapWalk>, m: Mapping, lo: nat, hi: nat, least: nat, bits: set<nat>)
    requires LastTakes(vm, ws, m, lo, hi, least, bits) && InOrder(vm, ws[..|ws| - 1], least, bits)
    ensures InOrder(vm, ws, least, bits)
  {
    var past, w := ws[..|ws| - 1], ws[|ws| - 1];
    WalkOfFrom(vm, w, m, lo, hi, least, NextVa(past));
    AllOkLast(vm, ws, past, w, least);
    PassLast(ws, past, w, bits);
  }

  lemma {:induction false} OverInOrder(vm: Vm, maps: seq<Mapping>, lo: nat, hi: nat, least: nat, ws: seq<MapWalk>,
                                       bits: set<nat>)
    requires WalksOver(vm, maps, lo, hi, least, ws, bits)
    ensures InOrder(vm, ws, least, bits)
  {
    if maps != [] {
      var front, m := maps[..|maps| - 1], maps[|maps| - 1];
      if WalksOver(vm, front, lo, hi, least, ws, bits) {
        OverInOrder(vm, front, lo, hi, least, ws, bits);
      } else {
        OverInOrder(vm, front, lo, hi, least, ws[..|ws| - 1], bits);
        TakenInOrder(vm, ws, m, lo, hi, least, bits);
      }
    }
  }

  lemma {:induction false} LaterFrom(vm: Vm, ws: seq<MapWalk>, least: nat, bits: set<nat>, i: nat, j: nat)
    requires InOrder(vm, ws, least, bits) && i < j < |ws|
    ensures ws[i].next <= ws[j].from
  {
    if i < j - 1 {
      LaterFrom(vm, ws, least, bits, i, j - 1);
      assert MapOk(vm, ws[j - 1], least);
    }
  }

  // ----- The pages of one mapping's walk -----

  /** The page lies behind where the walk began, is the one of its address, and if it begins before the
      place where the parser stopped, ends there or before. */
  predicate PageOf(vm: Vm, w: MapWalk, p: Page) {
    && PageBy(PagesOf(vm), p, PageEnd(p)) && w.from < PageEnd(p)
    && (p.va < w.stop ==> p.va < w.next) && (p.va < w.next ==> PageEnd(p) <= w.next)
  }

  lemma LastReadPages(vm: Vm, r: PastRead, end: int, p: Page)
    requires HostVmOk(vm) && ReadOk(vm, r) && p in r.Pages()
    ensures var v := Parse(r.last.sent, r.pos, end).va; (p.va < end ==> p.va < v) && (p.va < v ==> PageEnd(p) <= v)
  {
    var m := ReadMeaning(vm, r);
    PassedEnds(r.last.sent, r.pos, end, m, p);
  }

  lemma {:induction false} InSomeRead(rs: seq<PastRead>, p: Page) returns (k: nat)
    requires p in ListOf(rs)
    ensures k < |rs| && p in rs[k].Pages()
  {
    if p in rs[|rs| - 1].Pages() {
      k := |rs| - 1;
    } else {
      k := InSomeRead(rs[..|rs| - 1], p);
    }
  }

  lemma ReadOrder(vm: Vm, rs: seq<PastRead>, k: nat) returns (v: nat)
    requires HostVmOk(vm) && Reads(vm, rs) && k + 1 < |rs|
    ensures v == rs[k].last.w.ctrl.nextHva && v == rs[k + 1].pos
    ensures forall p :: p in rs[k].Pages() ==> PageEnd(p) <= v
  {
    assert Follows(rs[k], rs[k + 1]) && ReadOk(vm, rs[k]);
    v := OneRead(vm, rs[k]);
    ListedPages(vm, rs[k].pos, rs[k].Pages(), rs[k].pos, v);
  }

  lemma {:induction false} PosRises(vm: Vm, rs: seq<PastRead>, j: nat, k: nat)
    requires HostVmOk(vm) && Reads(vm, rs) && j <= k < |rs|
    ensures rs[j].pos <= rs[k].pos
  {
    if j < k {
      PosRises(vm, rs, j, k - 1);
      assert Follows(rs[k - 1], rs[k]) && ReadOk(vm, rs[k - 1]);
      var v := OneRead(vm, rs[k - 1]);
    }
  }

  /** A page of an earlier read ends where the last read began, or before. */
  lemma EarlierPage(vm: Vm, rs: seq<PastRead>, k: nat, p: Page)
    requires HostVmOk(vm) && Reads(vm, rs) && k + 1 < |rs| && p in rs[k].Pages()
    ensures PageEnd(p) <= rs[|rs| - 1].pos
  {
    var v := ReadOrder(vm, rs, k);
    PosRises(vm, rs, k + 1, |rs| - 1);
  }

  lemma WalkPages(vm: Vm, w: MapWalk, least: nat, p: Page)
    requires HostVmOk(vm) && MapOk(vm, w, least) && p in ListOf(w.rs)
    ensures PageOf(vm, w, p)
  {
    var rs := w.rs;
    var v := ReadsList(vm, rs, w.from);
    ListedPages(vm, w.from, ListOf(rs), w.from, v);
    var k := InSomeRead(rs, p);
    var last := rs[|rs| - 1];
    assert ReadOk(vm, last);
    if k < |rs| - 1 {
      EarlierPage(vm, rs, k, p);
      ParsedBehind(vm, last, w.stop);
    } else {
      LastReadPages(vm, last, w.stop, p);
    }
  }

  lemma ParsedBehind(vm: Vm, r: PastRead, end: int)
    requires HostVmOk(vm) && ReadOk(vm, r) && r.pos < end
    ensures r.pos < Parse(r.last.sent, r.pos, end).va
  {
    var p := ReadCounted(vm, r, end);
  }

  // ----- No page is counted twice -----

  /** The place a call is made for: it is in a page of the walk that begins below the mapping's end and
      ends where the parser stopped, or before. */
  predicate CallOk(vm: Vm, w: MapWalk, c: Ref) {
    c.va >= 0 && var e := PagesOf(vm)(c.va);
    && e.Some? && e.value.base <= c.va < e.value.base + e.value.size
    && e.value.base < w.stop && w.from < e.value.base + e.value.size <= w.next
  }

  lemma ShownInside(f: Layout, p: Page, x: nat)
    requires Consistent(f) && PageBy(f, p, PageEnd(p)) && p.va <= x < PageEnd(p)
    ensures f(x) == Some(ExtentOf(p))
  {
    assert Holds(f, p.va);
  }

  lemma CallsOk(vm: Vm, w: MapWalk, least: nat, c: Ref)
    requires HostVmOk(vm) && MapOk(vm, w, least) && c in CallsIn(w)
    ensures CallOk(vm, w, c)
  {
    var i :| 0 <= i < |CallsIn(w)| && CallsIn(w)[i] == c;
    var j := CallInPage(ListOf(w.rs), w.stop, i);
    var p := ListOf(w.rs)[j];
    WalkPages(vm, w, least, p);
    PagesConsistent(vm);
    ShownInside(PagesOf(vm), p, c.va);
  }

  lemma WalkRises(vm: Vm, w: MapWalk, least: nat)
    requires HostVmOk(vm) && MapOk(vm, w, least)
    ensures Rises(CallsIn(w))
  {
    var ps := ListOf(w.rs);
    if ps != [] {
      var v := ReadsList(vm, w.rs, w.from);
      ListShape(Shown(vm, w.from), ps, w.from, v);
      ListEnds(Shown(vm, w.from), ps, w.from, v);
      CountedRises(ps, Min(ps[0].va, v), v, w.stop);
    }
  }

  /** Of two pages that show themselves consistently, the one that ends first lies first. */
  lemma LaterCall(vm: Vm, c: Ref, d: Ref, mid: nat)
    requires VmOk(vm) && c.va >= 0 && d.va >= 0 && PagesOf(vm)(c.va).Some? && PagesOf(vm)(d.va).Some?
    requires var e := PagesOf(vm)(c.va).value; e.base <= c.va < e.base + e.size <= mid
    requires var e := PagesOf(vm)(d.va).value; e.base <= d.va && mid < e.base + e.size
    ensures c.va < d.va
  {
    PagesConsistent(vm);
    assert Holds(PagesOf(vm), d.va);
  }

  lemma AllOkPrefix(vm: Vm, ws: seq<MapWalk>, past: seq<MapWalk>, least: nat)
    requires AllOk(vm, ws, least) && ws != [] && past == ws[..|ws| - 1]
    ensures AllOk(vm, past, least) && MapOk(vm, ws[|ws| - 1], least)
  {
  }

  lemma CallsIs(ws: seq<MapWalk>, past: seq<MapWalk>, w: MapWalk)
    requires ws != [] && past == ws[..|ws| - 1] && w == ws[|ws| - 1]
    ensures CallsOf(ws) == CallsOf(past) + CallsIn(w)
  {
  }

  /** Every call is one of some mapping's walk. */
  lemma {:induction false} CallIsIn(ws: seq<MapWalk>, c: Ref) returns (j: nat)
    requires c in CallsOf(ws)
    ensures j < |ws| && c in CallsIn(ws[j])
  {
    var past := ws[..|ws| - 1];
    if c in CallsOf(past) {
      j := CallIsIn(past, c);
      assert past[j] == ws[j];
    } else {
      j := |past|;
    }
  }

  lemma CallOf(vm: Vm, ws: seq<MapWalk>, least: nat, c: Ref) returns (j: nat)
    requires HostVmOk(vm) && AllOk(vm, ws, least) && c in CallsOf(ws)
    ensures j < |ws| && CallOk(vm, ws[j], c)
  {
    j := CallIsIn(ws, c);
    CallsOk(vm, ws[j], least, c);
  }

  lemma CallsApart(vm: Vm, ws: seq<MapWalk>, past: seq<MapWalk>, w: MapWalk, least: nat, bits: set<nat>, c: Ref, d: Ref)
    requires HostVmOk(vm) && InOrder(vm, ws, least, bits) && ws != [] && past == ws[..|ws| - 1] && w == ws[|ws| - 1]
    requires AllOk(vm, past, least) && MapOk(vm, w, least) && c in CallsOf(past) && d in CallsIn(w)
    ensures c.va < d.va
  {
    var k := CallOf(vm, past, least, c);
    CallsOk(vm, w, least, d);
    LaterFrom(vm, ws, least, bits, k, |past|);
    LaterCall(vm, c, d, w.from);
  }

  predicate Rises(refs: seq<Ref>) {
    forall i, j :: 0 <= i < j < |refs| ==> refs[i].va < refs[j].va
  }

  lemma RisesAppend(a: seq<Ref>, b: seq<Ref>)
    requires Rises(a) && Rises(b) && forall c, d :: c in a && d in b ==> c.va < d.va
    ensures Rises(a + b)
  {
  }

  /** The calls of a whole walk rise strictly: every address is counted at most once, and an address
      sequence filled by the calls takes all of them. */
  lemma {:induction false} CallsRise(vm: Vm, ws: seq<MapWalk>, least: nat, bits: set<nat>)
    requires HostVmOk(vm) && InOrder(vm, ws, least, bits)
    ensures Rises(CallsOf(ws))
  {
    if ws != [] {
      var past, w := ws[..|ws| - 1], ws[|ws| - 1];
      InOrderPrefix(vm, ws, least, bits, |past|);
      AllOkPrefix(vm, ws, past, least);
      CallsRise(vm, past, least, bits);
      WalkRises(vm, w, least);
      forall c, d | c in CallsOf(past) && d in CallsIn(w) ensures c.va < d.va {
        CallsApart(vm, ws, past, w, least, bits, c, d);
      }
      CallsIs(ws, past, w);
      RisesAppend(CallsOf(past), CallsIn(w));
    }
  }

  // ----- What a page is counted with -----

  /** The reads turn the accessed bits `before` into `after`. */
  predicate Carries(vm: Vm, rs: seq<PastRead>, before: set<nat>, after: set<nat>) {
    && BitsChain(vm, rs)
    && if rs == [] then after == before
       else rs[0].accessed == before && rs[|rs| - 1].last.w.accessed == after
  }

  lemma WalkCarries(vm: Vm, w: MapWalk, least: nat)
    requires MapOk(vm, w, least)
    ensures Carries(vm, w.rs, w.before, w.after)
  {
    ReadsChain(vm, w.rs);
  }

  lemma ChainAppend(vm: Vm, rs: seq<PastRead>, qs: seq<PastRead>)
    requires BitsChain(vm, rs) && BitsChain(vm, qs)
    requires rs != [] && qs != [] ==> qs[0].accessed == rs[|rs| - 1].last.w.accessed
    ensures BitsChain(vm, rs + qs)
  {
    var all := rs + qs;
    forall k | 0 <= k < |all| - 1 ensures all[k + 1].accessed == all[k].last.w.accessed {
      if k < |rs| - 1 {
        assert rs[k + 1].accessed == rs[k].last.w.accessed;
      } else if k >= |rs| {
        assert qs[k - |rs| + 1].accessed == qs[k - |rs|].last.w.accessed;
      }
    }
  }

  lemma CarriesAppend(vm: Vm, rs: seq<PastRead>, qs: seq<PastRead>, a: set<nat>, b: set<nat>, c: set<nat>)
    requires Carries(vm, rs, a, b) && Carries(vm, qs, b, c)
    ensures Carries(vm, rs + qs, a, c)
  {
    ChainAppend(vm, rs, qs);
    assert rs == [] ==> rs + qs == qs;
    assert qs == [] ==> rs + qs == rs;
  }

  lemma {:induction false} ReadsOfCarries(vm: Vm, ws: seq<MapWalk>, least: nat, bits: set<nat>)
    requires InOrder(vm, ws, least, bits)
    ensures Carries(vm, ReadsOf(ws), bits, BitsNow(ws, bits))
  {
    if ws != [] {
      var past, w := ws[..|ws| - 1], ws[|ws| - 1];
      InOrderPrefix(vm, ws, least, bits, |past|);
      AllOkPrefix(vm, ws, past, least);
      ReadsOfCarries(vm, past, least, bits);
      WalkCarries(vm, w, least);
      CarriesAppend(vm, ReadsOf(past), w.rs, bits, w.before, w.after);
    }
  }

  /** The walk counts nothing in page p: it began behind it, ended before its end, or the page begins
      behind the mapping. */
  predicate Elsewhere(w: MapWalk, p: Page) {
    PageEnd(p) <= w.from || w.next < PageEnd(p) || w.stop <= p.va
  }

  lemma NotInPage(vm: Vm, w: MapWalk, p: Page, c: Ref)
    requires VmOk(vm) && CallOk(vm, w, c) && PageBy(PagesOf(vm), p, PageEnd(p)) && Elsewhere(w, p)
    ensures c.va < p.va || PageEnd(p) <= c.va
  {
    if p.va <= c.va < PageEnd(p) {
      PagesConsistent(vm);
      ShownInside(PagesOf(vm), p, c.va);
    }
  }

  lemma NoneInWalk(vm: Vm, w: MapWalk, least: nat, p: Page)
    requires HostVmOk(vm) && MapOk(vm, w, least) && PageBy(PagesOf(vm), p, PageEnd(p)) && Elsewhere(w, p)
    ensures RefsIn(CallsIn(w), p.va, PageEnd(p)) == []
  {
    forall i | 0 <= i < |CallsIn(w)| ensures CallsIn(w)[i].va < p.va || PageEnd(p) <= CallsIn(w)[i].va {
      CallsOk(vm, w, least, CallsIn(w)[i]);
      NotInPage(vm, w, p, CallsIn(w)[i]);
    }
    RefsOutside(CallsIn(w), p.va, PageEnd(p));
  }

  lemma {:induction false} OneWalkOnly(ws: seq<MapWalk>, lo: int, hi: int, j: nat)
    requires forall i :: 0 <= i < |ws| && i != j ==> RefsIn(CallsIn(ws[i]), lo, hi) == []
    ensures RefsIn(CallsOf(ws), lo, hi) == if j < |ws| then RefsIn(CallsIn(ws[j]), lo, hi) else []
  {
    if ws != [] {
      var past, w := ws[..|ws| - 1], ws[|ws| - 1];
      CallsIs(ws, past, w);
      OneWalkOnly(past, lo, hi, j);
      RefsInAppend(CallsOf(past), CallsIn(w), lo, hi);
    }
  }

  /** Within a page only the walk j makes calls, if any does. */
  lemma OnlyHere(vm: Vm, ws: seq<MapWalk>, least: nat, p: Page, j: nat)
    requires HostVmOk(vm) && AllOk(vm, ws, least) && PageBy(PagesOf(vm), p, PageEnd(p))
    requires forall i :: 0 <= i < |ws| && i != j ==> Elsewhere(ws[i], p)
    ensures RefsIn(CallsOf(ws), p.va, PageEnd(p)) == if j < |ws| then RefsIn(CallsIn(ws[j]), p.va, PageEnd(p)) else []
  {
    forall i | 0 <= i < |ws| && i != j ensures RefsIn(CallsIn(ws[i]), p.va, PageEnd(p)) == [] {
      NoneInWalk(vm, ws[i], least, p);
    }
    OneWalkOnly(ws, p.va, PageEnd(p), j);
  }

  lemma OthersElsewhere(vm: Vm, ws: seq<MapWalk>, least: nat, bits: set<nat>, p: Page, j: nat)
    requires InOrder(vm, ws, least, bits) && j < |ws| && ws[j].from < PageEnd(p) <= ws[j].next
    ensures forall i :: 0 <= i < |ws| && i != j ==> Elsewhere(ws[i], p)
  {
    forall i | 0 <= i < |ws| && i != j ensures Elsewhere(ws[i], p) {
      if i < j {
        LaterFrom(vm, ws, least, bits, i, j);
      } else {
        LaterFrom(vm, ws, least, bits, j, i);
      }
    }
  }

  /** The reads of a walk before read k of mapping walk j. */
  function Earlier(ws: seq<MapWalk>, j: nat, k: nat): seq<PastRead>
    requires j < |ws| && k < |ws[j].rs|
  {
    ReadsOf(ws[..j]) + ws[j].rs[..k]
  }

  /** What the walk counts a page of guest address g with that this read lists: 1 if its accessed bit
      was set when the whole walk began, no read so far refused it and none before listed it. */
  function WorthIn(vm: Vm, ws: seq<MapWalk>, bits: set<nat>, j: nat, k: nat, g: nat): nat
    requires j < |ws| && k < |ws[j].rs|
  {
    if && g in bits && g !in RefusedOf(Earlier(ws, j, k) + [ws[j].rs[k]])
       && g !in BitsOf(vm, ListOf(Earlier(ws, j, k)))
    then 1 else 0
  }

  lemma ChainTo(vm: Vm, ws: seq<MapWalk>, least: nat, bits: set<nat>, j: nat, k: nat) returns (rs: seq<PastRead>)
    requires InOrder(vm, ws, least, bits) && j < |ws| && k < |ws[j].rs|
    ensures rs == Earlier(ws, j, k) + [ws[j].rs[k]] && BitsChain(vm, rs) && rs[0].accessed == bits
  {
    InOrderPrefix(vm, ws, least, bits, j);
    ReadsOfCarries(vm, ws[..j], least, bits);
    WalkCarries(vm, ws[j], least);
    var past, front := ReadsOf(ws[..j]), ws[j].rs[..k];
    assert ws[j].before == BitsNow(ws[..j], bits);
    CarriesFront(vm, ws[j].rs, ws[j].before, ws[j].after, k);
    CarriesAppend(vm, past, front + [ws[j].rs[k]], bits, ws[j].before, ws[j].rs[k].last.w.accessed);
    rs := past + (front + [ws[j].rs[k]]);
    Associative(past, front, [ws[j].rs[k]]);
  }

  lemma CarriesFront(vm: Vm, rs: seq<PastRead>, before: set<nat>, after: set<nat>, k: nat)
    requires Carries(vm, rs, before, after) && k < |rs|
    ensures Carries(vm, rs[..k] + [rs[k]], before, rs[k].last.w.accessed)
  {
    var front := rs[..k] + [rs[k]];
    forall i | 0 <= i < k ensures front[i + 1].accessed == front[i].last.w.accessed {
      assert rs[i + 1].accessed == rs[i].last.w.accessed && front[i] == rs[i] && front[i + 1] == rs[i + 1];
    }
  }

  lemma TypeIn(vm: Vm, ws: seq<MapWalk>, least: nat, bits: set<nat>, j: nat, k: nat, p: Page)
    requires HostVmOk(vm) && GuestDisjoint(vm.slots) && InOrder(vm, ws, least, bits)
    requires j < |ws| && k < |ws[j].rs| && p in ws[j].rs[k].Pages()
    ensures p.va >= 0 && BaseOf(vm, p.va) >= 0 && vm.root(BaseOf(vm, p.va)).isPage
    ensures p.t == EntryType(vm.root(BaseOf(vm, p.va)), WorthIn(vm, ws, bits, j, k, BaseOf(vm, p.va)) == 1)
  {
    var rs := ChainTo(vm, ws, least, bits, j, k);
    var n := |Earlier(ws, j, k)|;
    assert rs[..n] == Earlier(ws, j, k) && rs[..n + 1] == rs && rs[n] == ws[j].rs[k];
    ChainTypes(vm, rs, n, p);
  }

  /** The one call for a page of the type, if it lies at a multiple of its size. */
  predicate CallFor(refs: seq<Ref>, p: Page, end: int) {
    && (p.t == PTE_ACCESSED ==> OneCall(refs, p.va, end, PTE_ACCESSED, 0x1000, 1))
    && (p.t == PTE_IDLE ==> OneCall(refs, p.va, end, PTE_ACCESSED, 0x1000, 0))
    && (p.t == PMD_ACCESSED ==> OneCall(refs, p.va, end, PMD_ACCESSED, 0x20_0000, 1))
    && (p.t == PMD_IDLE ==> OneCall(refs, p.va, end, PMD_ACCESSED, 0x20_0000, 0))
    && (p.t == PUD_PRESENT ==> OneCall(refs, p.va, end, PUD_PRESENT, 0x4000_0000, 1))
  }

  lemma CallsHere(vm: Vm, w: MapWalk, least: nat, p: Page)
    requires HostVmOk(vm) && MapOk(vm, w, least) && p in ListOf(w.rs)
    ensures CallFor(CallsIn(w), p, w.stop)
  {
    var v := ReadsList(vm, w.rs, w.from);
    ListShape(Shown(vm, w.from), ListOf(w.rs), w.from, v);
    var i :| 0 <= i < |ListOf(w.rs)| && ListOf(w.rs)[i] == p;
    CountedOnceExactly(ListOf(w.rs), i, w.stop);
  }

  lemma SameCalls(all: seq<Ref>, here: seq<Ref>, p: Page, end: int)
    requires RefsIn(all, p.va, PageEnd(p)) == RefsIn(here, p.va, PageEnd(p)) && CallFor(here, p, end)
    ensures CallFor(all, p, end)
  {
  }

  /** The calls of a whole walk for a page that is listed below the end of the mapping walked. It is
      counted in no other mapping's walk, and here what WorthIn says. */
  lemma WholeWalkCalls(vm: Vm, ws: seq<MapWalk>, least: nat, bits: set<nat>, j: nat, k: nat, p: Page)
    requires HostVmOk(vm) && GuestDisjoint(vm.slots) && InOrder(vm, ws, least, bits)
    requires j < |ws| && k < |ws[j].rs| && p in ws[j].rs[k].Pages() && p.va < ws[j].stop
    ensures p.va >= 0 && BaseOf(vm, p.va) >= 0 && vm.root(BaseOf(vm, p.va)).isPage
    ensures var g := BaseOf(vm, p.va);
            var n := WorthIn(vm, ws, bits, j, k, g);
            && (vm.root(g).level == 0 ==> OneCall(CallsOf(ws), p.va, ws[j].stop, PTE_ACCESSED, 0x1000, n))
            && (vm.root(g).level == 1 ==> OneCall(CallsOf(ws), p.va, ws[j].stop, PMD_ACCESSED, 0x20_0000, n))
            && (vm.root(g).level >= 2 ==> OneCall(CallsOf(ws), p.va, ws[j].stop, PUD_PRESENT, 0x4000_0000, 1))
  {
    var w := ws[j];
    TypeIn(vm, ws, least, bits, j, k, p);
    InList(w.rs, k, p);
    WalkPages(vm, w, least, p);
    OthersElsewhere(vm, ws, least, bits, p, j);
    OnlyHere(vm, ws, least, p, j);
    CallsHere(vm, w, least, p);
    SameCalls(CallsOf(ws), CallsIn(w), p, w.stop);
  }

  /** A page behind the mapping's end that the last read of its walk lists in a run begun before the end
      is counted by no mapping's walk. */
  lemma CrossingLost(vm: Vm, ws: seq<MapWalk>, least: nat, bits: set<nat>, j: nat, q: Page)
    requires HostVmOk(vm) && InOrder(vm, ws, least, bits) && j < |ws| && ws[j].rs != []
    requires var r := ws[j].rs[|ws[j].rs| - 1];
             q in r.Pages() && q.va >= ws[j].stop && Crosses(r.last.sent, r.pos, ws[j].stop, q)
    ensures RefsIn(CallsOf(ws), q.va, PageEnd(q)) == []
  {
    var w, r := ws[j], ws[j].rs[|ws[j].rs| - 1];
    InList(w.rs, |w.rs| - 1, q);
    WalkPages(vm, w, least, q);
    LastReadOk(vm, w, least);
    ReadPassesExactly(vm, r, w.stop, q);
    OthersElsewhere(vm, ws, least, bits, q, j);
    OnlyHere(vm, ws, least, q, |ws|);
  }

  lemma LastReadOk(vm: Vm, w: MapWalk, least: nat)
    requires MapOk(vm, w, least) && w.rs != []
    ensures ReadOk(vm, w.rs[|w.rs| - 1]) && w.next == Parse(w.rs[|w.rs| - 1].last.sent, w.rs[|w.rs| - 1].pos, w.stop).va
  {
  }
}
