/** What migrate_pages of pmu-refs/hmd.cc hands to migration, on values: the pages of the hot items, without
    those the filter holds, process by process. */
module HotGroups {
  import opened Arith
  import opened RangeLists
  import opened Migration

  const PAGE_SHIFT := 12

  datatype HotItem = HotItem(addr: nat, pid: nat, count: int)

  /** A page handed over, with the count of its item. */
  datatype Handed = Handed(page: nat, count: int)

  /** The pages of an item. */
  function PagesPerItem(order: nat): nat { Pow2(if order > PAGE_SHIFT then order - PAGE_SHIFT else 0) }

  /** The page that holds the first of the addr-th `unit` bytes. */
  function PageAt(addr: nat, unit: nat): nat { addr * unit / PAGE_SIZE * PAGE_SIZE }

  function FirstPage(item: HotItem, order: nat): nat { PageAt(item.addr, Pow2(order)) }

  function IfFree(pid: nat, page: nat, count: int, rmap: seq<Range>): seq<Handed> {
    if Covers(rmap, pid, page) then [] else [Handed(page, count)]
  }

  /** The first n pages of an item, without those the filter holds. */
  function ItemPages(item: HotItem, order: nat, rmap: seq<Range>, n: nat): (r: seq<Handed>)
    ensures |r| <= n
  {
    if n == 0 then []
    else ItemPages(item, order, rmap, n - 1)
         + IfFree(item.pid, FirstPage(item, order) + (n - 1) * PAGE_SIZE, item.count, rmap)
  }

  function GroupPages(items: seq<HotItem>, order: nat, rmap: seq<Range>): seq<Handed> {
    if items == [] then []
    else
      var item := items[|items| - 1];
      GroupPages(items[..|items| - 1], order, rmap) + ItemPages(item, order, rmap, PagesPerItem(order))
  }

  lemma GroupSnoc(items: seq<HotItem>, item: HotItem, order: nat, rmap: seq<Range>)
    ensures GroupPages(items + [item], order, rmap)
            == GroupPages(items, order, rmap) + ItemPages(item, order, rmap, PagesPerItem(order))
  {
    assert (items + [item])[..|items|] == items;
  }

  // ----- Which pages those are -----

  /** x is a page that overlaps the 2^order bytes the item stands for. */
  predicate IsPageOf(item: HotItem, order: nat, x: nat) {
    Overlaps(x, item.addr, Pow2(order))
  }

  /** x is a page that overlaps the addr-th `unit` bytes. */
  predicate Overlaps(x: nat, addr: nat, unit: nat) {
    x % PAGE_SIZE == 0 && x < (addr + 1) * unit && addr * unit < x + PAGE_SIZE
  }

  lemma {:induction false} Pow2Page(order: nat)
    ensures order >= PAGE_SHIFT ==> Pow2(order) == PagesPerItem(order) * PAGE_SIZE
    ensures order <= PAGE_SHIFT ==> PagesPerItem(order) == 1 && PAGE_SIZE == Pow2(order) * Pow2(PAGE_SHIFT - order)
    decreases order
  {
    if order > PAGE_SHIFT {
      Pow2Page(order - 1);
    } else {
      Pow2Split(order, PAGE_SHIFT - order);
      assert Pow2(4) == 16 && Pow2(8) == 256 && Pow2(12) == PAGE_SIZE;
    }
  }

  lemma {:induction false} Pow2Split(a: nat, b: nat)
    ensures Pow2(a + b) == Pow2(a) * Pow2(b)
  {
    if b > 0 {
      Pow2Split(a, b - 1);
      Doubled(Pow2(a), Pow2(b - 1));
    }
  }

  lemma Doubled(x: nat, y: nat)
    ensures x * (2 * y) == 2 * (x * y)
  {
  }

  predicate NthPage(first: nat, j: nat, x: nat) { x == first + j * PAGE_SIZE }

  /** From the item's first page on there are as many of its pages as the granularity says, and no more. */
  lemma PageOfExactly(item: HotItem, order: nat, x: nat)
    ensures IsPageOf(item, order, x)
            <==> exists j: nat :: j < PagesPerItem(order) && NthPage(FirstPage(item, order), j, x)
  {
    Pow2Page(order);
    assert FirstPage(item, order) == PageAt(item.addr, Pow2(order));
    if order >= PAGE_SHIFT {
      LargeItem(item.addr, Pow2(order), PagesPerItem(order), x);
    } else {
      SmallItem(item.addr, Pow2(order), Pow2(PAGE_SHIFT - order), x);
      OnlyFirst(FirstPage(item, order), PagesPerItem(order), x);
    }
  }

  lemma OnlyFirst(first: nat, pages: nat, x: nat)
    requires pages == 1
    ensures (exists j: nat :: j < pages && NthPage(first, j, x)) <==> x == first
  {
    assert NthPage(first, 0, x) <==> x == first;
  }

  lemma LargeItem(addr: nat, unit: nat, pages: nat, x: nat)
    requires unit == pages * PAGE_SIZE && pages > 0
    ensures Overlaps(x, addr, unit) <==> exists j: nat :: j < pages && NthPage(PageAt(addr, unit), j, x)
  {
    var first := addr * unit;
    assert first == PAGE_SIZE * (addr * pages);
    MulMod(PAGE_SIZE, addr * pages);
    NextUnit(addr, unit);
    assert PageAt(addr, unit) == first;
    if Overlaps(x, addr, unit) {
      var j := x / PAGE_SIZE - addr * pages;
      assert 0 <= j < pages && NthPage(first, j, x);
    }
    if j: nat :| j < pages && NthPage(first, j, x) {
      MulMod(PAGE_SIZE, addr * pages + j);
      assert x == PAGE_SIZE * (addr * pages + j);
    }
  }

  lemma NextUnit(addr: nat, unit: nat)
    ensures (addr + 1) * unit == addr * unit + unit
  {
  }

  lemma SmallItem(addr: nat, unit: nat, perPage: nat, x: nat)
    requires unit > 0 && unit * perPage == PAGE_SIZE
    ensures Overlaps(x, addr, unit) <==> x == PageAt(addr, unit)
  {
    var page, at := addr / perPage, addr % perPage;
    var first := page * PAGE_SIZE;
    assert addr * unit == page * (unit * perPage) + at * unit;
    UnitsInPage(at, perPage, unit);
    assert first <= addr * unit && (addr + 1) * unit <= first + PAGE_SIZE;
    DivModUnique(addr * unit, PAGE_SIZE, page, at * unit);
    MulMod(PAGE_SIZE, page);
    if x % PAGE_SIZE == 0 && x < (addr + 1) * unit && addr * unit < x + PAGE_SIZE {
      NearPage(x, first);
    }
  }

  lemma UnitsInPage(at: nat, perPage: nat, unit: nat)
    requires at < perPage
    ensures 0 <= at * unit && (at + 1) * unit <= perPage * unit
  {
    NotNegative(at, unit);
    NotNegative(perPage - at - 1, unit);
    Distribute(perPage, at + 1, unit);
  }

  lemma NotNegative(a: nat, b: nat)
    ensures a * b >= 0
  {
  }

  lemma NearPage(x: nat, first: nat)
    requires x % PAGE_SIZE == 0 && first % PAGE_SIZE == 0 && x < first + PAGE_SIZE && first < x + PAGE_SIZE
    ensures x == first
  {
    if x <= first {
      SameMultiple(x, first, PAGE_SIZE);
    } else {
      SameMultiple(first, x, PAGE_SIZE);
    }
  }

  lemma OneMoreNth(first: nat, n: nat, x: nat)
    ensures (exists j: nat :: j < n + 1 && NthPage(first, j, x))
            <==> (exists j: nat :: j < n && NthPage(first, j, x)) || x == first + n * PAGE_SIZE
  {
    assert NthPage(first, n, x) <==> x == first + n * PAGE_SIZE;
  }

  lemma {:induction false} ItemHands(item: HotItem, order: nat, rmap: seq<Range>, n: nat, h: Handed)
    ensures h in ItemPages(item, order, rmap, n)
            <==> h.count == item.count && !Covers(rmap, item.pid, h.page)
                 && exists j: nat :: j < n && NthPage(FirstPage(item, order), j, h.page)
  {
    if n > 0 {
      ItemHands(item, order, rmap, n - 1, h);
      OneMoreNth(FirstPage(item, order), n - 1, h.page);
    }
  }

  /** A page is handed over with a count exactly if it is a page of an item with that count and the filter
      does not hold it. */
  lemma {:induction false} GroupHandsExactly(items: seq<HotItem>, order: nat, rmap: seq<Range>, h: Handed)
    ensures h in GroupPages(items, order, rmap)
            <==> exists i :: 0 <= i < |items| && Hands(items[i], order, rmap, h)
  {
    if items != [] {
      var front, item := items[..|items| - 1], items[|items| - 1];
      GroupHandsExactly(front, order, rmap, h);
      ItemHands(item, order, rmap, PagesPerItem(order), h);
      PageOfExactly(item, order, h.page);
      HandsSnoc(items, front, order, rmap, h);
    }
  }

  /** The item hands over the page with this count. */
  predicate Hands(item: HotItem, order: nat, rmap: seq<Range>, h: Handed) {
    item.count == h.count && IsPageOf(item, order, h.page) && !Covers(rmap, item.pid, h.page)
  }

  lemma HandsSnoc(items: seq<HotItem>, front: seq<HotItem>, order: nat, rmap: seq<Range>, h: Handed)
    requires items != [] && front == items[..|items| - 1]
    ensures (exists i :: 0 <= i < |items| && Hands(items[i], order, rmap, h))
            <==> (exists i :: 0 <= i < |front| && Hands(front[i], order, rmap, h))
                 || Hands(items[|items| - 1], order, rmap, h)
  {
    if i :| 0 <= i < |front| && Hands(front[i], order, rmap, h) {
      assert items[i] == front[i];
    }
    if i :| 0 <= i < |items| && Hands(items[i], order, rmap, h) {
      assert i < |front| ==> front[i] == items[i];
    }
  }

  predicate PagesRise(hs: seq<Handed>) {
    forall i, j :: 0 <= i < j < |hs| ==> hs[i].page < hs[j].page
  }

  /** The pages of an item are handed over in ascending order. */
  lemma {:induction false} ItemInOrder(item: HotItem, order: nat, rmap: seq<Range>, n: nat)
    ensures PagesRise(ItemPages(item, order, rmap, n))
    ensures forall h :: h in ItemPages(item, order, rmap, n) ==> h.page < FirstPage(item, order) + n * PAGE_SIZE
  {
    if n > 0 {
      ItemInOrder(item, order, rmap, n - 1);
    }
  }

  lemma GroupSplit(items: seq<HotItem>, front: seq<HotItem>, last: HotItem, order: nat, rmap: seq<Range>)
    requires items == front + [last]
    ensures GroupPages(items, order, rmap)
            == GroupPages(front, order, rmap) + ItemPages(last, order, rmap, PagesPerItem(order))
  {
    assert items[..|items| - 1] == front;
  }

  lemma Regrouped(a: seq<Handed>, b: seq<Handed>, c: seq<Handed>)
    ensures (a + b) + c == a + (b + c)
  {
  }

  lemma AppendLast(items: seq<HotItem>, more: seq<HotItem>, front: seq<HotItem>, last: HotItem, all: seq<HotItem>, part: seq<HotItem>)
    requires more == front + [last] && all == items + more && part == items + front
    ensures all == part + [last]
  {
  }

  /** Items come in order: what is handed over for a group is what is handed over for its first items and
      then for the others. */
  lemma {:induction false} GroupInOrder(items: seq<HotItem>, more: seq<HotItem>, order: nat, rmap: seq<Range>, all: seq<HotItem>)
    requires all == items + more
    ensures GroupPages(all, order, rmap) == GroupPages(items, order, rmap) + GroupPages(more, order, rmap)
  {
    if more == [] {
      assert all == items;
    } else {
      var front, last := more[..|more| - 1], more[|more| - 1];
      var part := items + front;
      GroupInOrder(items, front, order, rmap, part);
      AppendLast(items, more, front, last, all, part);
      GroupSplit(all, part, last, order, rmap);
      GroupSplit(more, front, last, order, rmap);
      Regrouped(GroupPages(items, order, rmap), GroupPages(front, order, rmap),
                ItemPages(last, order, rmap, PagesPerItem(order)));
    }
  }

  // ----- The calls -----

  function PagesOf(hs: seq<Handed>): (r: seq<nat>)
    ensures |r| == |hs|
  {
    seq(|hs|, i requires 0 <= i < |hs| => hs[i].page)
  }

  function CountsOf(hs: seq<Handed>): (r: seq<int>)
    ensures |r| == |hs|
  {
    seq(|hs|, i requires 0 <= i < |hs| => hs[i].count)
  }

  /** One call of MigrationState::move_pages: the process, what the filter held before, the pages handed
      over, those of them submitted to the system and those that failed. */
  datatype Event = Event(pid: nat, filter: seq<Range>, handed: seq<Handed>, pages: seq<nat>, failed: seq<nat>)

  /** The call came out as the system answered. */
  ghost predicate CameOut(e: Event, env: Env)
    requires env.Answers()
  {
    var o := MoveOutcome(e.pid, PagesOf(e.handed), CountsOf(e.handed), env);
    e.pages == Addrs(o.submitted) && e.failed == o.failed
  }

  predicate OnePid(run: seq<HotItem>) {
    run != [] && forall i :: 0 <= i < |run| ==> run[i].pid == run[0].pid
  }

  function Joined(runs: seq<seq<HotItem>>): seq<HotItem> {
    if runs == [] then [] else Joined(runs[..|runs| - 1]) + runs[|runs| - 1]
  }

  /** The items fall into runs of one process each. */
  predicate RunsOf(items: seq<HotItem>, runs: seq<seq<HotItem>>) {
    && Joined(runs) == items && (forall k :: 0 <= k < |runs| ==> OnePid(runs[k]))
    && forall k :: 0 <= k < |runs| - 1 ==> PidChanges(runs, k)
  }

  predicate PidChanges(runs: seq<seq<HotItem>>, k: nat)
    requires k + 1 < |runs|
  {
    runs[k] != [] && runs[k + 1] != [] && runs[k][0].pid != runs[k + 1][0].pid
  }

  /** Each run has been handed over to its process, without the pages the filter held. */
  predicate HandedOver(runs: seq<seq<HotItem>>, order: nat, events: seq<Event>) {
    |events| == |runs|
    && forall k :: 0 <= k < |runs| ==>
         && runs[k] != [] && events[k].pid == runs[k][0].pid
         && events[k].handed == GroupPages(runs[k], order, events[k].filter)
  }

  /** A call adds its failed pages to the filter. */
  ghost predicate Adds(e: Event, after: seq<Range>) {
    forall p: nat, a: nat :: Covers(after, p, a) <==> Covers(e.filter, p, a) || (p == e.pid && InPage(a, e.failed))
  }

  /** The filter before each call is what the calls before have made of the first. */
  ghost predicate FilterPasses(events: seq<Event>, first: seq<Range>, last: seq<Range>) {
    && (events == [] ==> first == last) && (events != [] ==> events[0].filter == first && Adds(events[|events| - 1], last))
    && forall k :: 0 <= k < |events| - 1 ==> Adds(events[k], events[k + 1].filter)
  }

  lemma FilterPassesSnoc(events: seq<Event>, first: seq<Range>, last: seq<Range>, e: Event, after: seq<Range>)
    requires FilterPasses(events, first, last) && e.filter == last && Adds(e, after)
    ensures FilterPasses(events + [e], first, after)
  {
  }

  lemma JoinedSnoc(runs: seq<seq<HotItem>>, run: seq<HotItem>)
    ensures Joined(runs + [run]) == Joined(runs) + run
  {
    assert (runs + [run])[..|runs|] == runs;
  }

  /** One more run. */
  lemma RunsSnoc(items: seq<HotItem>, runs: seq<seq<HotItem>>, run: seq<HotItem>)
    requires RunsOf(items, runs) && OnePid(run)
    requires runs != [] ==> runs[|runs| - 1] != [] && runs[|runs| - 1][0].pid != run[0].pid
    ensures RunsOf(items + run, runs + [run])
  {
    var all := runs + [run];
    JoinedSnoc(runs, run);
    forall k | 0 <= k < |all| - 1 ensures PidChanges(all, k) {
      assert k < |runs| - 1 ==> PidChanges(runs, k);
    }
  }

  lemma HandedSnoc(runs: seq<seq<HotItem>>, run: seq<HotItem>, order: nat, events: seq<Event>, e: Event)
    requires HandedOver(runs, order, events) && run != []
    requires e.pid == run[0].pid && e.handed == GroupPages(run, order, e.filter)
    ensures HandedOver(runs + [run], order, events + [e])
  {
  }

  // ----- What is submitted -----

  /** What is submitted to the system for a process are pages of the run's items that the filter did not
      hold. */
  lemma SubmittedFromRun(run: seq<HotItem>, order: nat, e: Event, env: Env, x: nat) returns (i: nat)
    requires OnePid(run) && e.pid == run[0].pid && e.handed == GroupPages(run, order, e.filter)
    requires env.Answers() && CameOut(e, env) && x in e.pages
    ensures i < |run| && IsPageOf(run[i], order, x) && run[i].pid == e.pid && !Covers(e.filter, e.pid, x)
  {
    OutcomeFrom(e.pid, PagesOf(e.handed), CountsOf(e.handed), env);
    var k :| 0 <= k < |e.handed| && PagesOf(e.handed)[k] == x;
    GroupHandsExactly(run, order, e.filter, e.handed[k]);
    i :| 0 <= i < |run| && Hands(run[i], order, e.filter, e.handed[k]);
  }

  /** What is submitted comes from the pages of the call. */
  lemma SubmittedFrom(pages: seq<nat>, counts: seq<int>, located: seq<int>, nodes: Nodes, hot: (int, int) -> bool, x: nat)
    requires |pages| == |counts| == |located|
    requires x in Addrs(Submitted(Zip(pages, counts, located), nodes, hot))
    ensures x in pages
  {
    var ps := Zip(pages, counts, located);
    var r, at := SubmittedAligned(ps, nodes, hot);
    var k :| 0 <= k < |r| && Addrs(r)[k] == x;
    assert r[k].addr == ps[at[k]].addr == pages[at[k]];
  }

  lemma OutcomeFrom(pid: nat, pages: seq<nat>, counts: seq<int>, env: Env)
    requires |counts| == |pages| && env.Answers()
    ensures forall x :: x in Addrs(MoveOutcome(pid, pages, counts, env).submitted) ==> x in pages
  {
    forall x | x in Addrs(MoveOutcome(pid, pages, counts, env).submitted) ensures x in pages {
      SubmittedFrom(pages, counts, env.locate(pid, pages).nodes, env.nodes, env.hot, x);
    }
  }

  // ----- A sequence of calls -----

  ghost predicate AllAnswer(envs: nat -> Env) {
    forall n: nat :: envs(n).Answers()
  }

  /** The runs have been handed over one after the other: the calls came out as the system answered, and
      have made the filter `last` of `first`. */
  ghost predicate CallsMade(runs: seq<seq<HotItem>>, order: nat, events: seq<Event>, envs: nat -> Env, first: seq<Range>, last: seq<Range>)
    requires AllAnswer(envs)
  {
    && RunsOf(Joined(runs), runs) && HandedOver(runs, order, events) && FilterPasses(events, first, last)
    && forall k :: 0 <= k < |events| ==> CameOut(events[k], envs(k))
  }

  ghost function MovedBy(e: Event, env: Env): nat
    requires env.Answers()
  {
    MoveOutcome(e.pid, PagesOf(e.handed), CountsOf(e.handed), env).moved
  }

  /** The pages the calls moved. */
  ghost function MovedIn(events: seq<Event>, envs: nat -> Env): nat
    requires AllAnswer(envs)
  {
    if events == [] then 0
    else MovedIn(events[..|events| - 1], envs) + MovedBy(events[|events| - 1], envs(|events| - 1))
  }

  lemma MovedSnoc(events: seq<Event>, e: Event, envs: nat -> Env)
    requires AllAnswer(envs)
    ensures MovedIn(events + [e], envs) == MovedIn(events, envs) + MovedBy(e, envs(|events|))
  {
    assert (events + [e])[..|events|] == events;
  }

  lemma CallsSnoc(runs: seq<seq<HotItem>>, run: seq<HotItem>, order: nat, events: seq<Event>, e: Event, envs: nat -> Env,
                  first: seq<Range>, last: seq<Range>, after: seq<Range>)
    requires AllAnswer(envs) && CallsMade(runs, order, events, envs, first, last) && OnePid(run)
    requires runs != [] ==> runs[|runs| - 1] != [] && runs[|runs| - 1][0].pid != run[0].pid
    requires e.pid == run[0].pid && e.handed == GroupPages(run, order, e.filter) && e.filter == last && Adds(e, after)
    requires CameOut(e, envs(|events|))
    ensures CallsMade(runs + [run], order, events + [e], envs, first, after)
  {
    JoinedSnoc(runs, run);
    RunsSnoc(Joined(runs), runs, run);
    HandedSnoc(runs, run, order, events, e);
    FilterPassesSnoc(events, first, last, e, after);
  }
}
