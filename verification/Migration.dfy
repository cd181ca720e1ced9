/** The migration of hot pages: pmu-refs/migration.cc and migrate_pages of pmu-refs/hmd.cc. What the
    move_pages system call answers, the nodes and the hotness test are arbitrary inputs. */
module Migration {
  import opened RangeLists
  import opened AddressRangeFilter

  const PAGE_SIZE := 4096

  /** A page with its sample count and a node: the one it is on, or the one it is to move to. */
  datatype Page = Page(addr: nat, count: int, node: int)

  /** The answer of a system call: an error, or the status of each page. */
  datatype Answer = Failed | Status(nodes: seq<int>)

  /** The DRAM node a PMEM node promotes to; None for DRAM nodes and numbers that are no node. */
  datatype Promotion = NoTarget | Target(node: int)

  type Nodes = int -> Promotion

  function PromotedOne(p: Page, nodes: Nodes): seq<Page> {
    if nodes(p.node).Target? then [p.(node := nodes(p.node).node)] else []
  }

  /** The pages on PMEM, with their target nodes. */
  function Promoted(ps: seq<Page>, nodes: Nodes): (r: seq<Page>)
    ensures |r| <= |ps|
  {
    if ps == [] then [] else Promoted(ps[..|ps| - 1], nodes) + PromotedOne(ps[|ps| - 1], nodes)
  }

  /** The pages hot enough for their target. */
  function HotOnly(ps: seq<Page>, hot: (int, int) -> bool): (r: seq<Page>)
    ensures |r| <= |ps|
  {
    if ps == [] then [] else HotOnly(ps[..|ps| - 1], hot) + HotOne(ps[|ps| - 1], hot)
  }

  function HotOne(p: Page, hot: (int, int) -> bool): seq<Page> {
    if hot(p.count, p.node) then [p] else []
  }

  /** Positions in strictly ascending order. */
  predicate Positions(at: seq<nat>, n: nat) {
    (forall k :: 0 <= k < |at| ==> at[k] < n) && forall i, j :: 0 <= i < j < |at| ==> at[i] < at[j]
  }

  /** The page's own node has a target and the page is hot enough for it. */
  predicate Wanted(p: Page, nodes: Nodes, hot: (int, int) -> bool) {
    nodes(p.node).Target? && hot(p.count, nodes(p.node).node)
  }

  /** r holds the wanted pages of ps, those at the positions `at`, with the targets of their nodes. */
  predicate Aligned(r: seq<Page>, ps: seq<Page>, at: seq<nat>, nodes: Nodes, hot: (int, int) -> bool) {
    && |at| == |r| && Positions(at, |ps|)
    && (forall k :: 0 <= k < |r| ==> Wanted(ps[at[k]], nodes, hot) && r[k] == ps[at[k]].(node := nodes(ps[at[k]].node).node))
    && (forall i :: 0 <= i < |ps| && Wanted(ps[i], nodes, hot) ==> i in at)
  }

  lemma AlignedSkip(r: seq<Page>, ps: seq<Page>, at: seq<nat>, nodes: Nodes, hot: (int, int) -> bool, p: Page)
    requires Aligned(r, ps, at, nodes, hot) && !Wanted(p, nodes, hot)
    ensures Aligned(r, ps + [p], at, nodes, hot)
  {
  }

  lemma AlignedTake(r: seq<Page>, ps: seq<Page>, at: seq<nat>, nodes: Nodes, hot: (int, int) -> bool, p: Page)
    requires Aligned(r, ps, at, nodes, hot) && Wanted(p, nodes, hot)
    ensures Aligned(r + [p.(node := nodes(p.node).node)], ps + [p], at + [|ps|], nodes, hot)
  {
    var at' := at + [|ps|];
    assert at'[|at|] == |ps|;
    assert forall i :: i in at ==> i in at';
  }

  lemma HotSnoc(ps: seq<Page>, q: Page, hot: (int, int) -> bool)
    ensures HotOnly(ps + [q], hot) == HotOnly(ps, hot) + HotOne(q, hot)
  {
    assert (ps + [q])[..|ps|] == ps;
  }

  lemma PromotedSnoc(ps: seq<Page>, p: Page, nodes: Nodes)
    ensures Promoted(ps + [p], nodes) == Promoted(ps, nodes) + PromotedOne(p, nodes)
  {
    assert (ps + [p])[..|ps|] == ps;
  }

  /** What is submitted to be moved of the pages of one call. */
  function Submitted(ps: seq<Page>, nodes: Nodes, hot: (int, int) -> bool): seq<Page> {
    HotOnly(Promoted(ps, nodes), hot)
  }

  lemma WantedSnoc(ps: seq<Page>, p: Page, nodes: Nodes, hot: (int, int) -> bool)
    ensures Submitted(ps + [p], nodes, hot)
            == if Wanted(p, nodes, hot) then Submitted(ps, nodes, hot) + [p.(node := nodes(p.node).node)]
               else Submitted(ps, nodes, hot)
  {
    PromotedSnoc(ps, p, nodes);
    if nodes(p.node).Target? {
      HotSnoc(Promoted(ps, nodes), p.(node := nodes(p.node).node), hot);
    } else {
      assert Promoted(ps + [p], nodes) == Promoted(ps, nodes);
    }
  }

  lemma AlignedNext(r: seq<Page>, ps: seq<Page>, at: seq<nat>, nodes: Nodes, hot: (int, int) -> bool, p: Page, r': seq<Page>)
    returns (at': seq<nat>)
    requires Aligned(r, ps, at, nodes, hot)
    requires r' == if Wanted(p, nodes, hot) then r + [p.(node := nodes(p.node).node)] else r
    ensures Aligned(r', ps + [p], at', nodes, hot)
  {
    if Wanted(p, nodes, hot) {
      AlignedTake(r, ps, at, nodes, hot, p);
      at' := at + [|ps|];
    } else {
      AlignedSkip(r, ps, at, nodes, hot, p);
      at' := at;
    }
  }

  /** The submitted pages are the wanted ones in their order, each with its own count and the target
      of its own node. */
  lemma {:induction false} SubmittedAligned(ps: seq<Page>, nodes: Nodes, hot: (int, int) -> bool) returns (r: seq<Page>, at: seq<nat>)
    ensures r == Submitted(ps, nodes, hot) && Aligned(r, ps, at, nodes, hot)
  {
    r, at := Submitted(ps, nodes, hot), [];
    if ps != [] {
      var init, p := ps[..|ps| - 1], ps[|ps| - 1];
      var was;
      was, at := SubmittedAligned(init, nodes, hot);
      assert ps == init + [p];
      WantedSnoc(init, p, nodes, hot);
      at := AlignedNext(was, init, at, nodes, hot, p, r);
    }
  }

  /** What a page failed to move: it is not on its target. */
  function FailedPages(ps: seq<Page>, status: seq<int>): (r: seq<nat>)
    requires |status| == |ps|
  {
    if ps == [] then []
    else FailedPages(ps[..|ps| - 1], status[..|ps| - 1]) + FailedOne(ps[|ps| - 1], status[|ps| - 1])
  }

  function FailedOne(p: Page, status: int): seq<nat> {
    if status != p.node then [p.addr] else []
  }

  /** A page fails exactly if the answer for it is not its target. */
  lemma {:induction false} FailedExactly(ps: seq<Page>, status: seq<int>, x: nat)
    requires |status| == |ps|
    ensures x in FailedPages(ps, status) <==> exists i :: 0 <= i < |ps| && ps[i].addr == x && status[i] != ps[i].node
  {
    if ps != [] {
      var l := |ps| - 1;
      FailedExactly(ps[..l], status[..l], x);
      assert ps == ps[..l] + [ps[l]] && status == status[..l] + [status[l]];
    }
  }

  /** The places of the pages whose answer is not their target. */
  function Missed(ps: seq<Page>, status: seq<int>): set<nat>
    requires |status| == |ps|
  {
    set i: nat | i < |ps| && status[i] != ps[i].node
  }

  lemma MissedLast(ps: seq<Page>, status: seq<int>, l: nat)
    requires |status| == |ps| == l + 1
    ensures l !in Missed(ps[..l], status[..l])
    ensures Missed(ps, status) == Missed(ps[..l], status[..l]) + if status[l] != ps[l].node then {l} else {}
  {
  }

  /** As many pages fail as are not on their targets. */
  lemma {:induction false} FailedCount(ps: seq<Page>, status: seq<int>)
    requires |status| == |ps|
    ensures |FailedPages(ps, status)| == |Missed(ps, status)| <= |ps|
  {
    if ps == [] {
      assert Missed(ps, status) == {};
    } else {
      var l := |ps| - 1;
      FailedCount(ps[..l], status[..l]);
      MissedLast(ps, status, l);
    }
  }

  predicate InPage(a: nat, pages: seq<nat>) {
    exists i :: 0 <= i < |pages| && pages[i] <= a < pages[i] + PAGE_SIZE
  }

  lemma InPageSnoc(a: nat, pages: seq<nat>, p: nat)
    ensures InPage(a, pages + [p]) <==> InPage(a, pages) || p <= a < p + PAGE_SIZE
  {
    if InPage(a, pages) {
      var i :| 0 <= i < |pages| && pages[i] <= a < pages[i] + PAGE_SIZE;
      assert (pages + [p])[i] == pages[i];
    }
    assert (pages + [p])[|pages|] == p;
  }

  function Zip(pages: seq<nat>, counts: seq<int>, nodes: seq<int>): (r: seq<Page>)
    requires |pages| == |counts| == |nodes|
    ensures |r| == |pages|
  {
    seq(|pages|, i requires 0 <= i < |pages| => Page(pages[i], counts[i], nodes[i]))
  }

  function Addrs(ps: seq<Page>): (r: seq<nat>)
    ensures |r| == |ps|
  {
    seq(|ps|, i requires 0 <= i < |ps| => ps[i].addr)
  }

  function Targets(ps: seq<Page>): (r: seq<int>)
    ensures |r| == |ps|
  {
    seq(|ps|, i requires 0 <= i < |ps| => ps[i].node)
  }

  /** The world around: the system call, asked for nodes or told to move, the nodes and the hotness test. */
  datatype Env = Env(locate: (nat, seq<nat>) -> Answer, move: (nat, seq<nat>, seq<int>) -> Answer, nodes: Nodes,
                     hot: (int, int) -> bool) {
    ghost predicate Answers() {
      && (forall pid: nat, pages: seq<nat> :: locate(pid, pages).Status? ==> |locate(pid, pages).nodes| == |pages|)
      && (forall pid: nat, pages: seq<nat>, targets: seq<int> ::
            move(pid, pages, targets).Status? ==> |move(pid, pages, targets).nodes| == |pages|)
    }
  }

  datatype Outcome = Outcome(submitted: seq<Page>, failed: seq<nat>, moved: nat)

  const NOTHING := Outcome([], [], 0)

  /** What one call of move_pages submits, and which of it fails. */
  ghost function MoveOutcome(pid: nat, pages: seq<nat>, counts: seq<int>, env: Env): Outcome
    requires |counts| == |pages| && env.Answers()
  {
    if pid == 0 || pages == [] || env.locate(pid, pages).Failed? then NOTHING
    else
      var ps := Submitted(Zip(pages, counts, env.locate(pid, pages).nodes), env.nodes, env.hot);
      if ps == [] then NOTHING
      else if env.move(pid, Addrs(ps), Targets(ps)).Failed? then Outcome(ps, [], 0)
      else
        var failed := FailedPages(ps, env.move(pid, Addrs(ps), Targets(ps)).nodes);
        Outcome(ps, failed, if |failed| <= |ps| then |ps| - |failed| else 0)
  }

  /** One call of move_pages, said of the system call's answers alone. A page is told to move exactly if
      the node it was found on has a target and the page's count is hot enough for that target; the call
      names them in their order, each with the target of its own node. What fails is what the second
      answer does not put on its target, and what has moved is the rest. */
  lemma MoveOutcomeExactly(pid: nat, pages: seq<nat>, counts: seq<int>, env: Env) returns (o: Outcome, at: seq<nat>)
    requires |counts| == |pages| && env.Answers()
    ensures o == MoveOutcome(pid, pages, counts, env) && |at| == |o.submitted| && Positions(at, |pages|)
    ensures pid == 0 || env.locate(pid, pages).Failed? ==> o == NOTHING
    ensures pid != 0 && env.locate(pid, pages).Status? ==>
              var found := env.locate(pid, pages).nodes;
              && (forall i: nat :: i < |pages| ==>
                    (i in at <==> env.nodes(found[i]).Target? && env.hot(counts[i], env.nodes(found[i]).node)))
              && (forall k :: 0 <= k < |at| ==> env.nodes(found[at[k]]).Target?)
              && (forall k :: 0 <= k < |at| ==>
                    o.submitted[k] == Page(pages[at[k]], counts[at[k]], env.nodes(found[at[k]]).node))
    ensures o.submitted == [] ==> o == NOTHING
    ensures o.submitted != [] ==>
              var told := env.move(pid, Addrs(o.submitted), Targets(o.submitted));
              if told.Failed? then o.failed == [] && o.moved == 0
              else
                && (forall x :: x in o.failed <==>
                      exists k :: 0 <= k < |at| && o.submitted[k].addr == x && told.nodes[k] != o.submitted[k].node)
                && |o.failed| == |Missed(o.submitted, told.nodes)| && |o.failed| + o.moved == |o.submitted|
  {
    o, at := MoveOutcome(pid, pages, counts, env), [];
    if pid != 0 && env.locate(pid, pages).Status? {
      var found := Zip(pages, counts, env.locate(pid, pages).nodes);
      var r;
      r, at := SubmittedAligned(found, env.nodes, env.hot);
      if pages == [] {
        assert r == [];
      }
      if r != [] {
        var told := env.move(pid, Addrs(r), Targets(r));
        if told.Status? {
          FailedCount(r, told.nodes);
          forall x ensures x in o.failed <==>
            exists k :: 0 <= k < |at| && r[k].addr == x && told.nodes[k] != r[k].node
          {
            FailedExactly(r, told.nodes, x);
          }
        }
      }
    }
  }

  class MigrationState {
    var pid: nat
    var len: nat
    const hotPages: array<nat>
    const sampleCounts: array<int>
    const targetNodes: array<int>
    const migrateStatus: array<int>
    const filter: AddressRangeFilter

    ghost predicate Shape() {
      && sampleCounts != targetNodes && sampleCounts != migrateStatus && targetNodes != migrateStatus
      && hotPages.Length == sampleCounts.Length == targetNodes.Length == migrateStatus.Length
    }

    /** The pages with the nodes they are on. */
    ghost function Located(n: nat): (r: seq<Page>)
      requires Shape() && n <= hotPages.Length
      reads hotPages, sampleCounts, migrateStatus
      ensures |r| == n
    {
      seq(n, i requires 0 <= i < n reads hotPages, sampleCounts, migrateStatus =>
        Page(hotPages[i], sampleCounts[i], migrateStatus[i]))
    }

    /** The pages with the nodes they are to move to. */
    ghost function Targeted(n: nat): (r: seq<Page>)
      requires Shape() && n <= hotPages.Length
      reads hotPages, sampleCounts, targetNodes
      ensures |r| == n
    {
      seq(n, i requires 0 <= i < n reads hotPages, sampleCounts, targetNodes =>
        Page(hotPages[i], sampleCounts[i], targetNodes[i]))
    }

    constructor (movePagesMax: nat, filter: AddressRangeFilter)
      ensures Shape() && hotPages.Length == movePagesMax && this.filter == filter
      ensures fresh(hotPages) && fresh(sampleCounts) && fresh(targetNodes) && fresh(migrateStatus)
    {
      pid, len := 0, 0;
      hotPages := new nat[movePagesMax](i => 0);
      sampleCounts := new int[movePagesMax](i => 0);
      targetNodes := new int[movePagesMax](i => 0);
      migrateStatus := new int[movePagesMax](i => 0);
      this.filter := filter;
    }

    /** Row i moves to place j with the given target. */
    method Keep(i: nat, j: nat, node: int)
      requires Shape() && j <= i < hotPages.Length
      modifies hotPages, sampleCounts, targetNodes
      ensures forall k :: 0 <= k < hotPages.Length && k != j ==>
                hotPages[k] == old(hotPages[k]) && sampleCounts[k] == old(sampleCounts[k]) && targetNodes[k] == old(targetNodes[k])
      ensures hotPages[j] == old(hotPages[i]) && sampleCounts[j] == old(sampleCounts[i]) && targetNodes[j] == node
    {
      hotPages[j] := hotPages[i];
      sampleCounts[j] := sampleCounts[i];
      targetNodes[j] := node;
    }

    /** The first rows are `done`, in place. */
    ghost predicate RowsAre(done: seq<Page>)
      reads hotPages, sampleCounts, targetNodes
    {
      && Shape() && |done| <= hotPages.Length
      && forall k :: 0 <= k < |done| ==> Page(hotPages[k], sampleCounts[k], targetNodes[k]) == done[k]
    }

    lemma RowsTargeted(done: seq<Page>)
      requires RowsAre(done)
      ensures Targeted(|done|) == done
    {
    }

    /** The pages from i on, and where all of them are, are as they were. */
    ghost predicate PagesFrom(ps: seq<Page>, i: nat)
      reads hotPages, sampleCounts, migrateStatus
    {
      && Shape() && i <= |ps| <= hotPages.Length
      && forall k :: 0 <= k < |ps| ==>
           migrateStatus[k] == ps[k].node && (k >= i ==> hotPages[k] == ps[k].addr && sampleCounts[k] == ps[k].count)
    }

    /** The body of get_target_nodes' loop. */
    method TargetRow(nodes: Nodes, i: nat, j: nat, ghost ps: seq<Page>, ghost done: seq<Page>) returns (j': nat)
      requires RowsAre(done) && PagesFrom(ps, i) && j == |done| <= i < |ps|
      modifies hotPages, sampleCounts, targetNodes
      ensures j' == |done + PromotedOne(ps[i], nodes)| <= i + 1
      ensures RowsAre(done + PromotedOne(ps[i], nodes)) && PagesFrom(ps, i + 1)
    {
      j' := j;
      var nid := migrateStatus[i];
      if nodes(nid).Target? {
        Keep(i, j, nodes(nid).node);
        j' := j + 1;
      }
    }

    /** get_target_nodes: in place, the pages on PMEM close up. */
    method GetTargetNodes(nodes: Nodes)
      requires Shape() && len <= hotPages.Length
      modifies this`len, hotPages, sampleCounts, targetNodes
      ensures len <= old(len) && Targeted(len) == Promoted(old(Located(len)), nodes)
    {
      ghost var ps := Located(len);
      ghost var done: seq<Page> := [];
      var j := 0;
      for i := 0 to len
        invariant len == old(len) == |ps| && j == |done| <= i && done == Promoted(ps[..i], nodes)
        invariant RowsAre(done) && PagesFrom(ps, i)
      {
        assert ps[..i + 1] == ps[..i] + [ps[i]];
        PromotedSnoc(ps[..i], ps[i], nodes);
        j := TargetRow(nodes, i, j, ps, done);
        done := done + PromotedOne(ps[i], nodes);
      }
      assert ps[..len] == ps;
      RowsTargeted(done);
      len := j;
    }

    /** The rows from i on are as they were. */
    ghost predicate RowsFrom(ps: seq<Page>, i: nat)
      reads hotPages, sampleCounts, targetNodes
    {
      && Shape() && i <= |ps| <= hotPages.Length
      && forall k :: i <= k < |ps| ==> Page(hotPages[k], sampleCounts[k], targetNodes[k]) == ps[k]
    }

    /** The body of filter's loop. */
    method FilterRow(hot: (int, int) -> bool, i: nat, j: nat, ghost ps: seq<Page>, ghost done: seq<Page>) returns (j': nat)
      requires RowsAre(done) && RowsFrom(ps, i) && j == |done| <= i < |ps|
      modifies hotPages, sampleCounts, targetNodes
      ensures j' == |done + HotOne(ps[i], hot)| <= i + 1 && RowsAre(done + HotOne(ps[i], hot)) && RowsFrom(ps, i + 1)
    {
      j' := j;
      var node, sampleCount := targetNodes[i], sampleCounts[i];
      if hot(sampleCount, node) {
        Keep(i, j, node);
        j' := j + 1;
      }
    }

    /** filter: in place, the pages hot enough close up. */
    method Filter(hot: (int, int) -> bool)
      requires Shape() && len <= hotPages.Length
      modifies this`len, hotPages, sampleCounts, targetNodes
      ensures len <= old(len) && Targeted(len) == HotOnly(old(Targeted(len)), hot)
    {
      ghost var ps := Targeted(len);
      ghost var done: seq<Page> := [];
      var j := 0;
      for i := 0 to len
        invariant len == old(len) == |ps| && j == |done| <= i && done == HotOnly(ps[..i], hot)
        invariant RowsAre(done) && RowsFrom(ps, i)
      {
        assert ps[..i + 1] == ps[..i] + [ps[i]];
        HotSnoc(ps[..i], ps[i], hot);
        j := FilterRow(hot, i, j, ps, done);
        done := done + HotOne(ps[i], hot);
      }
      assert ps[..len] == ps;
      RowsTargeted(done);
      len := j;
    }

    /** The copy of a system call's answer into the status array. */
    method SetStatus(nodes: seq<int>)
      requires Shape() && |nodes| == len <= hotPages.Length
      modifies migrateStatus
      ensures migrateStatus[..len] == nodes
    {
      for i := 0 to len
        invariant forall k :: 0 <= k < i ==> migrateStatus[k] == nodes[k]
      {
        migrateStatus[i] := nodes[i];
      }
    }

    /** std::copy of the arguments of move_pages. */
    method Load(pid: nat, pages: seq<nat>, counts: seq<int>)
      requires Shape() && |counts| == |pages| <= hotPages.Length
      modifies this`pid, this`len, hotPages, sampleCounts
      ensures this.pid == pid && len == |pages| && hotPages[..len] == pages && sampleCounts[..len] == counts
    {
      this.pid, len := pid, |pages|;
      for i := 0 to len
        invariant this.pid == pid && len == |pages|
        invariant forall k :: 0 <= k < i ==> hotPages[k] == pages[k] && sampleCounts[k] == counts[k]
      {
        hotPages[i], sampleCounts[i] := pages[i], counts[i];
      }
    }

    /** The loop over the answer of move_pages: a page that is not on its target is filtered from now on. */
    method FilterFailed() returns (moved: nat)
      requires Shape() && len <= hotPages.Length && Canonical(filter.rmap)
      modifies filter
      ensures Canonical(filter.rmap)
      ensures var status := migrateStatus[..len];
              && moved + |FailedPages(Targeted(len), status)| == len
              && forall p: nat, a: nat :: Covers(filter.rmap, p, a)
                   <==> Covers(old(filter.rmap), p, a) || (p == pid && InPage(a, FailedPages(Targeted(len), status)))
    {
      moved := 0;
      ghost var ps, status := Targeted(len), migrateStatus[..len];
      for i := 0 to len
        invariant Canonical(filter.rmap) && moved + |FailedPages(ps[..i], status[..i])| == i
        invariant forall p: nat, a: nat :: Covers(filter.rmap, p, a)
                    <==> Covers(old(filter.rmap), p, a) || (p == pid && InPage(a, FailedPages(ps[..i], status[..i])))
      {
        ghost var failed := FailedPages(ps[..i], status[..i]);
        FailedSnoc(ps, status, i);
        if migrateStatus[i] == targetNodes[i] {
          moved := moved + 1;
          assert FailedPages(ps[..i + 1], status[..i + 1]) == failed;
        } else {
          filter.InsertRange(pid, hotPages[i], PAGE_SIZE);
          forall a: nat ensures InPage(a, failed + [hotPages[i]]) <==> InPage(a, failed) || hotPages[i] <= a < hotPages[i] + PAGE_SIZE {
            InPageSnoc(a, failed, hotPages[i]);
          }
        }
      }
      assert ps[..len] == ps && status[..len] == status;
    }

    /** move_pages: what was submitted and failed is filtered from now on, nothing else. `locate` and
        `move` are the answers of the system call. */
    method MovePages(pid: nat, pages: seq<nat>, counts: seq<int>, env: Env) returns (moved: nat)
      requires Shape() && |counts| == |pages| <= hotPages.Length && Canonical(filter.rmap)
      requires env.Answers()
      modifies this`pid, this`len, hotPages, sampleCounts, targetNodes, migrateStatus, filter
      ensures Canonical(filter.rmap)
      ensures var o := MoveOutcome(pid, pages, counts, env);
              && moved == o.moved
              && forall p: nat, a: nat :: Covers(filter.rmap, p, a)
                   <==> Covers(old(filter.rmap), p, a) || (p == pid && InPage(a, o.failed))
    {
      Load(pid, pages, counts);
      if this.pid == 0 || len == 0 {
        return 0;
      }
      var located := env.locate(pid, pages);
      if located.Failed? {
        return 0;
      }
      Select(pages, counts, located.nodes, env);
      if len == 0 {
        return 0;
      }
      moved := Submit(pid, pages, counts, env);
    }

    /** get_target_nodes and filter after the pages were located. */
    method Select(ghost pages: seq<nat>, ghost counts: seq<int>, nodes: seq<int>, env: Env)
      requires Shape() && |counts| == |pages| == |nodes| == len <= hotPages.Length
      requires hotPages[..len] == pages && sampleCounts[..len] == counts
      modifies this`len, hotPages, sampleCounts, targetNodes, migrateStatus
      ensures len <= hotPages.Length && Targeted(len) == Submitted(Zip(pages, counts, nodes), env.nodes, env.hot)
    {
      SetStatus(nodes);
      assert Located(len) == Zip(pages, counts, nodes) by {
        forall i | 0 <= i < len ensures Located(len)[i] == Zip(pages, counts, nodes)[i] {
          assert hotPages[..len][i] == pages[i] && sampleCounts[..len][i] == counts[i] && migrateStatus[..len][i] == nodes[i];
        }
      }
      GetTargetNodes(env.nodes);
      Filter(env.hot);
    }

    /** The second system call and what follows. */
    method Submit(pid: nat, ghost pages: seq<nat>, ghost counts: seq<int>, env: Env) returns (moved: nat)
      requires Shape() && 0 < len <= hotPages.Length && Canonical(filter.rmap) && env.Answers()
      requires |counts| == |pages| && pid == this.pid != 0 && pages != [] && env.locate(pid, pages).Status?
      requires Targeted(len) == Submitted(Zip(pages, counts, env.locate(pid, pages).nodes), env.nodes, env.hot)
      modifies migrateStatus, filter
      ensures Canonical(filter.rmap)
      ensures var o := MoveOutcome(pid, pages, counts, env);
              && moved == o.moved
              && forall p: nat, a: nat :: Covers(filter.rmap, p, a)
                   <==> Covers(old(filter.rmap), p, a) || (p == pid && InPage(a, o.failed))
    {
      ghost var submitted := Targeted(len);
      var answer := env.move(pid, hotPages[..len], targetNodes[..len]);
      assert hotPages[..len] == Addrs(submitted);
      assert targetNodes[..len] == Targets(submitted);
      if answer.Failed? {
        return 0;
      }
      SetStatus(answer.nodes);
      moved := FilterFailed();
    }
  }

  lemma FailedSnoc(ps: seq<Page>, status: seq<int>, i: nat)
    requires |status| == |ps| && i < |ps|
    ensures FailedPages(ps[..i + 1], status[..i + 1])
            == FailedPages(ps[..i], status[..i]) + FailedOne(ps[i], status[i])
  {
    assert ps[..i + 1][..i] == ps[..i] && status[..i + 1][..i] == status[..i];
  }
}
