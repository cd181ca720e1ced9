/** Choosing target nodes for a batch of located pages (MovePages.cc), and the key under which the
    statistics file a page's move. */
module MovePages {
  import opened IdleStream

  /** A node of the machine: promote_target of a PMEM node, demote_target of a DRAM node. */
  datatype Node = Node(isPmem: bool, peer: Option<nat>)

  /** node_map_: none for an id that is possible but absent. */
  type Nodes = seq<Option<Node>>

  /** A page and what move_pages said of it: its node, or a negative error. */
  datatype Located = Located(addr: nat, status: int)

  predicate StatusesValid(status: seq<int>, nodes: Nodes) {
    forall i :: 0 <= i < |status| ==> status[i] < |nodes|
  }

  /** The node a page on `node` should be on. `hot` is type <= MAX_ACCESSED. */
  function GetTargetNode(hot: bool, nodes: Nodes, node: nat): int
    requires node < |nodes|
  {
    if nodes[node].None? then -1
    else
      var n := nodes[node].value;
      if hot == !n.isPmem then node
      else if n.peer.Some? then n.peer.value
      else -2
  }

  /** A peer is a node of the other kind. */
  predicate PeersCross(nodes: Nodes) {
    forall i :: 0 <= i < |nodes| && nodes[i].Some? && nodes[i].value.peer.Some? ==>
      var p := nodes[i].value.peer.value;
      p < |nodes| && nodes[p].Some? && nodes[p].value.isPmem != nodes[i].value.isPmem
  }

  /** A target is an error or a present node of the wanted kind, and a page that is on such a node
      stays where it is. */
  lemma TargetIsWanted(hot: bool, nodes: Nodes, node: nat)
    requires node < |nodes| && PeersCross(nodes)
    ensures var t := GetTargetNode(hot, nodes, node);
            && (t >= 0 ==> t < |nodes| && nodes[t].Some? && nodes[t].value.isPmem == !hot)
            && (nodes[node].Some? && nodes[node].value.isPmem == !hot ==> t == node)
            && (t == -1 <==> nodes[node].None?)
            && (t == -2 <==> nodes[node].Some? && nodes[node].value.isPmem == hot && nodes[node].value.peer.None?)
  {
  }

  function Pairs(addrs: seq<nat>, status: seq<int>): (ps: seq<Located>)
    requires |addrs| == |status|
    ensures |ps| == |addrs| && forall i :: 0 <= i < |ps| ==> ps[i] == Located(addrs[i], status[i])
  {
    seq(|addrs|, i requires 0 <= i < |addrs| => Located(addrs[i], status[i]))
  }

  function Swapped<T>(s: seq<T>, i: nat, j: nat): seq<T>
    requires i < |s| && j < |s|
  {
    s[i := s[j]][j := s[i]]
  }

  /** Exactly the first g pages of qs are located, and those of ps that were on their side of the
      cut have not moved. */
  predicate SplitFrom(ps: seq<Located>, qs: seq<Located>, g: nat) {
    |ps| == |qs| && forall k :: 0 <= k < |ps| ==>
      (qs[k].status >= 0 <==> k < g) && ((ps[k].status >= 0 <==> k < g) ==> qs[k] == ps[k])
  }

  /** The first g pages have the target of their own node, the targets behind are those of `was`. */
  predicate TargetsGiven(hot: bool, nodes: Nodes, status: seq<int>, targets: seq<int>, was: seq<int>, g: nat) {
    |status| == |targets| && forall k :: 0 <= k < |status| ==>
      if k < g then 0 <= status[k] < |nodes| && targets[k] == GetTargetNode(hot, nodes, status[k])
      else k < |was| ==> targets[k] == was[k]
  }

  /** What the loop has made of ps when it stands at g: nothing between g and h has moved, and no
      page from h on is located. */
  predicate Cut(ps: seq<Located>, qs: seq<Located>, g: nat, h: nat) {
    |ps| == |qs| && forall k :: 0 <= k < |ps| ==> CutAt(ps[k], qs[k], g, h, k)
  }

  predicate CutAt(p: Located, q: Located, g: nat, h: nat, k: nat) {
    if k < g then q.status >= 0 && (p.status >= 0 ==> q == p)
    else if k >= h then q.status < 0 && (p.status < 0 ==> q == p)
    else q == p || (k == g && p.status < 0 && q.status >= 0)
  }

  lemma SwapCut(ps: seq<Located>, qs: seq<Located>, g: nat, h: nat, last: nat)
    requires Cut(ps, qs, g, h) && g < last < |qs| && h <= |qs| && qs[g].status < 0 && qs[last].status >= 0
    requires forall k :: last < k < |qs| ==> qs[k].status < 0
    ensures last < h && Cut(ps, Swapped(qs, g, last), g, last)
    ensures multiset(Swapped(qs, g, last)) == multiset(qs)
  {
  }

  lemma AdvanceCut(ps: seq<Located>, qs: seq<Located>, g: nat, h: nat)
    requires g <= h <= |qs| && Cut(ps, qs, g, h) && g < |qs| && qs[g].status >= 0
    ensures g < h && Cut(ps, qs, g + 1, h)
  {
  }

  lemma EndCut(ps: seq<Located>, qs: seq<Located>, g: nat, h: nat)
    requires g <= h <= |qs| && Cut(ps, qs, g, h) && forall k :: g <= k < |qs| ==> qs[k].status < 0
    ensures SplitFrom(ps, qs, g)
  {
  }

  class Mover {
    var status: seq<int>
    var targetNodes: seq<int>

    constructor ()
      ensures status == [] && targetNodes == []
    {
      status, targetNodes := [], [];
    }

    /** The last located page behind endPos, or endPos. */
    method FindLastGood(endPos: nat) returns (last: nat)
      requires endPos < |status|
      ensures endPos <= last < |status|
      ensures last > endPos ==> status[last] >= 0
      ensures forall k :: last < k < |status| ==> status[k] < 0
      ensures last == endPos ==> forall k :: endPos < k < |status| ==> status[k] < 0
    {
      var i := |status| - 1;
      while i > endPos
        invariant endPos <= i < |status|
        invariant forall k :: i < k < |status| ==> status[k] < 0
      {
        if status[i] >= 0 {
          return i;
        }
        i := i - 1;
      }
      return endPos;
    }

    ghost function Batch(addrs: array<nat>): seq<Located>
      requires |status| == addrs.Length
      reads this`status, addrs
    {
      Pairs(addrs[..], status)
    }

    /** Moves the located pages of the batch to its front and gives each the target of its own
        node. A page that is already on its side of the cut stays where it is; targets behind the
        located pages are left from the batch before. */
    method CalcTargetNodes(hot: bool, nodes: Nodes, addrs: array<nat>) returns (g: nat)
      requires |status| == addrs.Length && StatusesValid(status, nodes)
      modifies this, addrs
      ensures |status| == addrs.Length && g <= |status|
      ensures SplitFrom(old(Batch(addrs)), Batch(addrs), g)
      ensures multiset(Batch(addrs)) == multiset(old(Batch(addrs)))
      ensures TargetsGiven(hot, nodes, status, targetNodes, old(targetNodes), g)
    {
      ghost var ps, h: nat, was := Batch(addrs), |status|, targetNodes;
      targetNodes := Resized(targetNodes, |status|);
      g := 0;
      var more := true;
      while g < |status| && more
        invariant AtCut(addrs, hot, nodes, ps, was, g, h)
        invariant !more ==> forall k :: g <= k < |status| ==> status[k] < 0
        decreases more, |status| - g, if g < |status| && status[g] < 0 then 1 else 0
      {
        if status[g] >= 0 {
          KeepAt(hot, nodes, addrs, g, ps, h, was);
          g := g + 1;
        } else {
          more, h := SwapIn(hot, addrs, g, nodes, ps, h, was);
        }
      }
      EndCut(ps, Batch(addrs), g, h);
    }

    /** The loop's state at g. */
    ghost predicate AtCut(addrs: array<nat>, hot: bool, nodes: Nodes, ps: seq<Located>, was: seq<int>, g: nat, h: nat)
      reads this, addrs
    {
      && |status| == addrs.Length == |ps| && g <= h <= |ps| && StatusesValid(status, nodes)
      && Sorting(addrs, ps, g, h) && TargetsGiven(hot, nodes, status, targetNodes, was, g)
    }

    /** The page at g is located and gets its target. */
    method KeepAt(hot: bool, nodes: Nodes, ghost addrs: array<nat>, g: nat, ghost ps: seq<Located>, ghost h: nat,
                  ghost was: seq<int>)
      requires AtCut(addrs, hot, nodes, ps, was, g, h) && g < |status| && status[g] >= 0
      modifies this`targetNodes
      ensures AtCut(addrs, hot, nodes, ps, was, g + 1, h)
    {
      AdvanceCut(ps, Batch(addrs), g, h);
      GiveTarget(hot, nodes, g, was);
    }

    /** Where the loop stands with the batch it was given. */
    ghost predicate Sorting(addrs: array<nat>, ps: seq<Located>, g: nat, h: nat)
      requires |status| == addrs.Length
      reads this`status, addrs
    {
      Cut(ps, Batch(addrs), g, h) && multiset(Batch(addrs)) == multiset(ps)
    }

    method GiveTarget(hot: bool, nodes: Nodes, g: nat, ghost was: seq<int>)
      requires g < |status| && 0 <= status[g] < |nodes| && TargetsGiven(hot, nodes, status, targetNodes, was, g)
      modifies this`targetNodes
      ensures TargetsGiven(hot, nodes, status, targetNodes, was, g + 1)
    {
      targetNodes := targetNodes[g := GetTargetNode(hot, nodes, status[g])];
    }

    /** Exchanges the page at g, which is not located, with the last located one behind it. */
    method SwapIn(ghost hot: bool, addrs: array<nat>, g: nat, nodes: Nodes, ghost ps: seq<Located>, ghost h: nat,
                  ghost was: seq<int>) returns (moved: bool, ghost h': nat)
      requires AtCut(addrs, hot, nodes, ps, was, g, h) && g < |status| && status[g] < 0
      modifies this`status, addrs
      ensures AtCut(addrs, hot, nodes, ps, was, g, h')
      ensures if moved then status[g] >= 0 else forall k :: g <= k < |status| ==> status[k] < 0
    {
      var last := FindLastGood(g);
      moved, h' := last != g, h;
      if moved {
        SwapCut(ps, Batch(addrs), g, h, last);
        Swap(addrs, g, last);
        h' := last;
      }
    }

    method Swap(addrs: array<nat>, i: nat, j: nat)
      requires |status| == addrs.Length && i < |status| && j < |status|
      modifies this`status, addrs
      ensures status == Swapped(old(status), i, j)
      ensures Batch(addrs) == Swapped(old(Batch(addrs)), i, j)
    {
      addrs[i], addrs[j] := addrs[j], addrs[i];
      status := status[i := status[j]][j := status[i]];
    }
  }

  /** vector::resize. */
  function Resized(s: seq<int>, size: nat): (r: seq<int>)
    ensures |r| == size && (forall k :: 0 <= k < size && k < |s| ==> r[k] == s[k])
    ensures forall k :: |s| <= k < size ==> r[k] == 0
  {
    if size <= |s| then s[..size] else s + seq(size - |s|, _ => 0)
  }

  // ----- The key of a page's move -----

  /** A node or an error number, as a signed char. */
  type Byte = x: int | -128 <= x <= 127

  datatype Move = Move(from: int, to: int, result: int)

  function BoxMoveState(m: Move): int {
    m.from + m.to * 256 + m.result * 65536
  }

  function SignedByte(x: int): Byte {
    if x % 256 < 128 then x % 256 else x % 256 - 256
  }

  function UnboxMoveState(key: int): Move {
    Move(SignedByte(key), SignedByte(key / 256), SignedByte(key / 65536))
  }

  predicate IsPageMoved(m: Move) {
    m.from >= 0 && m.from != m.to && m.to == m.result
  }

  /** Unboxing gives back the node a page came from; a negative lower field borrows from the one
      above it, so the target comes back only for pages that were located and the result only
      where what is below it is not negative. */
  lemma UnboxExactly(from: Byte, to: Byte, result: Byte)
    ensures var m, u := Move(from, to, result), UnboxMoveState(BoxMoveState(Move(from, to, result)));
            && u.from == from
            && (u.to == to <==> from >= 0)
            && (u.result == result <==> to > 0 || (to == 0 && from >= 0))
            && (u == m <==> from >= 0 && to >= 0)
  {
    var key, low := BoxMoveState(Move(from, to, result)), from + to * 256;
    assert key / 256 == to + result * 256 + (if from >= 0 then 0 else -1);
    assert key / 65536 == result + (if low >= 0 then 0 else -1);
  }

  /** Which pages the statistics take for moved: a located page without a target is taken for moved
      when its result is one above the missing target, and not when the two agree. */
  lemma MovedReadBackExactly(from: Byte, to: Byte, result: Byte)
    ensures var m := Move(from, to, result);
            IsPageMoved(UnboxMoveState(BoxMoveState(m))) == IsPageMoved(m)
            <==> from < 0 || to >= 0 || (result != to && result != to + 1)
  {
    UnboxExactly(from, to, result);
    var key := BoxMoveState(Move(from, to, result));
    if from >= 0 && to < 0 {
      assert key / 65536 == result - 1;
    }
  }
}
