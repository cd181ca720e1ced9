/** migrate_pages and reset_arfilter of pmu-refs/hmd.cc: hot pages go to migration process by process,
    without those the filter holds. */
module HotMigration {
  import opened Arith
  import opened RangeLists
  import opened AddressRangeFilter
  import opened Migration
  import opened HotGroups

  /** Failed pages are in the filter. */
  ghost predicate FailedFiltered(log: seq<Event>, rmap: seq<Range>) {
    forall i, f :: 0 <= i < |log| && f in log[i].failed ==> Covers(rmap, log[i].pid, f)
  }

  /** No page is submitted again after it failed. */
  predicate NeverAgain(log: seq<Event>) {
    forall i, j :: 0 <= i < j < |log| && log[i].pid == log[j].pid ==> Distinct(log[i].failed, log[j].pages)
  }

  predicate Distinct(a: seq<nat>, b: seq<nat>) {
    forall x :: x in a ==> x !in b
  }

  /** Pages free of the filter may be submitted. */
  lemma SubmitFree(log: seq<Event>, rmap: seq<Range>, e: Event, rmap': seq<Range>)
    requires FailedFiltered(log, rmap) && NeverAgain(log)
    requires forall x :: x in e.pages ==> !Covers(rmap, e.pid, x)
    requires forall p: nat, a: nat :: Covers(rmap, p, a) ==> Covers(rmap', p, a)
    requires forall x :: x in e.failed ==> Covers(rmap', e.pid, x)
    ensures FailedFiltered(log + [e], rmap') && NeverAgain(log + [e])
  {
    var log' := log + [e];
    forall i | 0 <= i < |log| && log[i].pid == e.pid ensures Distinct(log[i].failed, e.pages) {
      forall x | x in log[i].failed ensures x !in e.pages {
        assert Covers(rmap, log[i].pid, x);
      }
    }
    forall i, j | 0 <= i < j < |log'| && log'[i].pid == log'[j].pid ensures Distinct(log'[i].failed, log'[j].pages) {
      if j < |log| {
        assert log'[i] == log[i] && log'[j] == log[j];
      }
    }
  }

  lemma FailedInPage(failed: seq<nat>, x: nat)
    requires x in failed
    ensures InPage(x, failed)
  {
    var i :| 0 <= i < |failed| && failed[i] == x;
    assert failed[i] <= x < failed[i] + PAGE_SIZE;
  }

  class Optimizer {
    const state: MigrationState
    var hotPages: seq<nat>
    var sampleCounts: seq<int>
    /** The submissions since the filter was reset. */
    ghost var log: seq<Event>

    ghost predicate Valid()
      reads this, state.filter
    {
      && state.Shape() && Canonical(state.filter.rmap)
      && FailedFiltered(log, state.filter.rmap) && NeverAgain(log)
      && |sampleCounts| == |hotPages|
    }

    /** The collected pages are free of the filter. */
    ghost predicate Collected(pid: nat)
      reads this, state.filter
    {
      forall i :: 0 <= i < |hotPages| ==> !Covers(state.filter.rmap, pid, hotPages[i])
    }

    constructor (movePagesMax: nat)
      ensures Valid() && state.hotPages.Length == movePagesMax && log == []
    {
      var filter := new AddressRangeFilter();
      state := new MigrationState(movePagesMax, filter);
      hotPages, sampleCounts, log := [], [], [];
    }

    /** reset_arfilter: a new round begins. */
    method Reset(ins: seq<Range>)
      requires Valid() && forall i :: 0 <= i < |ins| ==> ins[i].size > 0
      modifies this`log, state.filter
      ensures Valid() && log == [] && FilterOf(state.filter.rmap, ins)
    {
      ResetArfilter(state.filter, ins);
      log := [];
    }

    /** What has been collected. */
    ghost function Waiting(): (r: seq<Handed>)
      requires |sampleCounts| == |hotPages|
      reads this
      ensures PagesOf(r) == hotPages && CountsOf(r) == sampleCounts
    {
      seq(|hotPages|, i requires 0 <= i < |hotPages| && |sampleCounts| == |hotPages| reads this =>
        Handed(hotPages[i], sampleCounts[i]))
    }

    /** The pages of one process go to migration. */
    method MoveCollected(pid: nat, env: Env) returns (moved: nat, ghost e: Event)
      requires Valid() && Collected(pid) && env.Answers() && |hotPages| <= state.hotPages.Length
      modifies this, state, state.hotPages, state.sampleCounts, state.targetNodes, state.migrateStatus, state.filter
      ensures Valid() && hotPages == [] && log == old(log) + [e]
      ensures e.pid == pid && e.filter == old(state.filter.rmap) && e.handed == old(Waiting())
      ensures CameOut(e, env) && moved == MoveOutcome(pid, PagesOf(e.handed), CountsOf(e.handed), env).moved
      ensures Adds(e, state.filter.rmap)
    {
      ghost var was, o := state.filter.rmap, MoveOutcome(pid, hotPages, sampleCounts, env);
      e := Event(pid, was, Waiting(), Addrs(o.submitted), o.failed);
      OutcomeFrom(pid, hotPages, sampleCounts, env);
      moved := state.MovePages(pid, hotPages, sampleCounts, env);
      forall x | x in e.failed ensures Covers(state.filter.rmap, pid, x) {
        FailedInPage(e.failed, x);
      }
      SubmitFree(log, was, e, state.filter.rmap);
      log := log + [e];
      hotPages, sampleCounts := [], [];
    }

    /** The pages of one item that the filter lets through. */
    method CollectItem(item: HotItem, order: nat, pages: nat)
      requires Valid() && Collected(item.pid) && pages == PagesPerItem(order)
      modifies this`hotPages, this`sampleCounts
      ensures Valid() && Collected(item.pid) && |hotPages| <= old(|hotPages|) + pages
      ensures Waiting() == old(Waiting()) + ItemPages(item, order, state.filter.rmap, pages)
    {
      var addr := item.addr * Pow2(order) / PAGE_SIZE * PAGE_SIZE;
      for j := 0 to pages
        invariant Valid() && Collected(item.pid) && |hotPages| <= old(|hotPages|) + j
        invariant Waiting() == old(Waiting()) + ItemPages(item, order, state.filter.rmap, j)
      {
        var page := addr + j * PAGE_SIZE;
        var filtered := state.filter.SearchAddress(item.pid, page);
        if !filtered {
          sampleCounts := sampleCounts + [item.count];
          hotPages := hotPages + [page];
        }
      }
    }

    /** The waiting run goes to migration. */
    method MoveRun(pid: nat, order: nat, envs: nat -> Env, calls: nat, ghost runs: seq<seq<HotItem>>, ghost run: seq<HotItem>,
                   ghost events: seq<Event>, ghost first: seq<Range>, ghost was: seq<Event>)
      returns (moved: nat, ghost runs': seq<seq<HotItem>>, ghost events': seq<Event>)
      requires Valid() && Collected(pid) && AllAnswer(envs) && |hotPages| <= state.hotPages.Length && calls == |events|
      requires CallsMade(runs, order, events, envs, first, state.filter.rmap) && OnePid(run) && run[0].pid == pid
      requires runs != [] ==> runs[|runs| - 1] != [] && runs[|runs| - 1][0].pid != pid
      requires Waiting() == GroupPages(run, order, state.filter.rmap) && log == was + events
      modifies this, state, state.hotPages, state.sampleCounts, state.targetNodes, state.migrateStatus, state.filter
      ensures Valid() && hotPages == [] && Waiting() == [] && log == was + events' && |events'| == calls + 1
      ensures |runs'| == |runs| + 1 && runs'[|runs|] == run && Joined(runs') == Joined(runs) + run
      ensures CallsMade(runs', order, events', envs, first, state.filter.rmap)
      ensures MovedIn(events', envs) == MovedIn(events, envs) + moved
    {
      ghost var filter := state.filter.rmap;
      ghost var e;
      moved, e := MoveCollected(pid, envs(calls));
      runs', events' := runs + [run], events + [e];
      CallsSnoc(runs, run, order, events, e, envs, first, filter, state.filter.rmap);
      MovedSnoc(events, e, envs);
      JoinedSnoc(runs, run);
      EventsRegrouped(was, events, e);
    }

    /** The items of `runs` are handed over, those of `run` wait to go to process pid. */
    ghost predicate Busy(pid: nat, order: nat, envs: nat -> Env, runs: seq<seq<HotItem>>, run: seq<HotItem>,
                         events: seq<Event>, first: seq<Range>, was: seq<Event>)
      requires AllAnswer(envs)
      reads this, state.filter
    {
      && Valid() && Collected(pid) && log == was + events
      && (if pid == 0 then run == [] && runs == [] else OnePid(run) && run[0].pid == pid)
      && (runs != [] ==> runs[|runs| - 1] != [] && runs[|runs| - 1][0].pid != pid)
      && Waiting() == GroupPages(run, order, state.filter.rmap)
      && CallsMade(runs, order, events, envs, first, state.filter.rmap)
    }

    /** One more item of the process, or the first of another one. */
    method AddItem(item: HotItem, order: nat, pages: nat, envs: nat -> Env, ghost runs: seq<seq<HotItem>>,
                   ghost run: seq<HotItem>, ghost events: seq<Event>, ghost first: seq<Range>, ghost was: seq<Event>)
      requires AllAnswer(envs) && item.pid != 0 && pages == PagesPerItem(order)
      requires Valid() && Collected(item.pid) && log == was + events && (run != [] ==> OnePid(run) && run[0].pid == item.pid)
      requires runs != [] ==> runs[|runs| - 1] != [] && runs[|runs| - 1][0].pid != item.pid
      requires Waiting() == GroupPages(run, order, state.filter.rmap)
      requires CallsMade(runs, order, events, envs, first, state.filter.rmap)
      modifies this`hotPages, this`sampleCounts
      ensures Busy(item.pid, order, envs, runs, run + [item], events, first, was)
      ensures |hotPages| <= old(|hotPages|) + pages
    {
      GroupSnoc(run, item, order, state.filter.rmap);
      CollectItem(item, order, pages);
    }

    /** An item of another process: what waits is sent off first. */
    method SwitchItem(item: HotItem, pid: nat, order: nat, pages: nat, envs: nat -> Env, calls: nat,
                      ghost runs: seq<seq<HotItem>>, ghost run: seq<HotItem>, ghost events: seq<Event>, ghost first: seq<Range>,
                      ghost was: seq<Event>)
      returns (moved: nat, ghost runs': seq<seq<HotItem>>, ghost events': seq<Event>)
      requires AllAnswer(envs) && |hotPages| <= state.hotPages.Length && calls == |events|
      requires item.pid != 0 && pid != 0 && item.pid != pid && pages == PagesPerItem(order)
      requires Busy(pid, order, envs, runs, run, events, first, was)
      modifies this, state, state.hotPages, state.sampleCounts, state.targetNodes, state.migrateStatus, state.filter
      ensures Busy(item.pid, order, envs, runs', [item], events', first, was) && calls + 1 == |events'|
      ensures Joined(runs') == Joined(runs) + run && |hotPages| <= pages
      ensures MovedIn(events', envs) == MovedIn(events, envs) + moved
    {
      moved, runs', events' := MoveRun(pid, order, envs, calls, runs, run, events, first, was);
      AddItem(item, order, pages, envs, runs', [], events', first, was);
      assert [] + [item] == [item];
    }

    /** The body of migrate_pages' loop. */
    method TakeItem(item: HotItem, pid: nat, order: nat, pages: nat, envs: nat -> Env, calls: nat,
                    ghost runs: seq<seq<HotItem>>, ghost run: seq<HotItem>, ghost events: seq<Event>, ghost first: seq<Range>,
                    ghost was: seq<Event>)
      returns (moved: nat, calls': nat, ghost runs': seq<seq<HotItem>>, ghost run': seq<HotItem>, ghost events': seq<Event>)
      requires AllAnswer(envs) && |hotPages| <= state.hotPages.Length && calls == |events| && item.pid != 0
      requires Busy(pid, order, envs, runs, run, events, first, was) && pages == PagesPerItem(order)
      modifies this, state, state.hotPages, state.sampleCounts, state.targetNodes, state.migrateStatus, state.filter
      ensures Busy(item.pid, order, envs, runs', run', events', first, was) && calls' == |events'|
      ensures Joined(runs') + run' == (Joined(runs) + run) + [item]
      ensures |hotPages| <= old(|hotPages|) + pages && MovedIn(events', envs) == MovedIn(events, envs) + moved
    {
      moved, calls', runs', run', events' := 0, calls, runs, run, events;
      if item.pid != pid && pid != 0 {
        moved, runs', events' := SwitchItem(item, pid, order, pages, envs, calls, runs, run, events, first, was);
        calls', run' := calls + 1, [item];
      } else {
        AddItem(item, order, pages, envs, runs, run, events, first, was);
        run' := run + [item];
        ItemsRegrouped(Joined(runs), run, item);
      }
    }

    /** The loop of migrate_pages. */
    method TakeItems(items: seq<HotItem>, order: nat, pages: nat, envs: nat -> Env, ghost was: seq<Event>)
      returns (moved: nat, pid: nat, calls: nat, ghost runs: seq<seq<HotItem>>, ghost run: seq<HotItem>, ghost events: seq<Event>)
      requires Valid() && hotPages == [] && AllAnswer(envs) && items != [] && log == was && pages == PagesPerItem(order)
      requires forall i :: 0 <= i < |items| ==> items[i].pid != 0
      requires |items| * pages <= state.hotPages.Length
      modifies this, state, state.hotPages, state.sampleCounts, state.targetNodes, state.migrateStatus, state.filter
      ensures Busy(pid, order, envs, runs, run, events, old(state.filter.rmap), was) && pid != 0
      ensures Joined(runs) + run == items && |events| == calls && moved == MovedIn(events, envs)
      ensures |hotPages| <= |items| * pages
    {
      ghost var first := state.filter.rmap;
      moved, pid, calls, runs, run, events := 0, 0, 0, [], [], [];
      for i := 0 to |items|
        invariant Busy(pid, order, envs, runs, run, events, first, was) && Joined(runs) + run == items[..i]
        invariant |hotPages| <= i * pages && |events| == calls && (i > 0 ==> pid != 0) && moved == MovedIn(events, envs)
      {
        PagesSoFar(i, |items|, pages);
        Prefix(items, i);
        var n;
        n, calls, runs, run, events := TakeItem(items[i], pid, order, pages, envs, calls, runs, run, events, first, was);
        pid, moved := items[i].pid, moved + n;
      }
      Prefix(items, |items|);
    }

    /** migrate_pages. The items are handed over process by process, each item's pages in order without
        those the filter holds at that time; the system answers the n-th call as `envs(n)` says; the pages
        that failed join the filter, and none of them is submitted again since the last reset. */
    method MigratePages(items: seq<HotItem>, order: nat, envs: nat -> Env)
      returns (moved: nat, ghost runs: seq<seq<HotItem>>, ghost events: seq<Event>)
      requires Valid() && hotPages == [] && AllAnswer(envs)
      requires forall i :: 0 <= i < |items| ==> items[i].pid != 0
      requires |items| * PagesPerItem(order) <= state.hotPages.Length
      modifies this, state, state.hotPages, state.sampleCounts, state.targetNodes, state.migrateStatus, state.filter
      ensures Valid() && NeverAgain(log) && log == old(log) + events
      ensures Joined(runs) == items && moved == MovedIn(events, envs)
      ensures CallsMade(runs, order, events, envs, old(state.filter.rmap), state.filter.rmap)
    {
      var pages := PagesPerItem(order);
      moved, runs, events := 0, [], [];
      if |items| == 0 {
        return;
      }
      hotPages, sampleCounts := [], [];
      var pid, calls;
      ghost var run;
      ghost var first, was := state.filter.rmap, log;
      moved, pid, calls, runs, run, events := TakeItems(items, order, pages, envs, was);
      var n;
      n, runs, events := MoveRun(pid, order, envs, calls, runs, run, events, first, was);
      moved := moved + n;
    }
  }

  lemma ItemsRegrouped(a: seq<HotItem>, b: seq<HotItem>, item: HotItem)
    ensures a + (b + [item]) == (a + b) + [item]
  {
  }

  lemma EventsRegrouped(was: seq<Event>, events: seq<Event>, e: Event)
    ensures (was + events) + [e] == was + (events + [e])
  {
  }

  lemma Prefix(items: seq<HotItem>, i: nat)
    requires i <= |items|
    ensures i < |items| ==> items[..i + 1] == items[..i] + [items[i]]
    ensures i == |items| ==> items[..i] == items
  {
  }

  lemma PagesSoFar(i: nat, n: nat, pages: nat)
    requires i < n
    ensures (i + 1) * pages == i * pages + pages && i * pages <= n * pages
  {
  }
}
