/**
 The kernel's singly linked list on the heap, refined to a sequence of values. The value 0 is NULL:
 iteration by value stops there, and the operations that return a value return 0 for "none".
 */
module LinkedList {
  import opened Machine

  // ---------------------------------------------------------------- meaning on sequences

  /** linkedlist_find: the position of the first equal value, as far as the iteration gets. */
  function Find(xs: seq<nat>, el: nat): (r: int)
    ensures -1 <= r < |xs|
  {
    if xs == [] || xs[0] == 0 then -1
    else if xs[0] == el then 0
    else
      var r := Find(xs[1..], el);
      if r == -1 then -1 else r + 1
  }

  datatype Action = GoNext | StopAndReturn | RemoveAndReturn | RemoveAndNext | Invalid

  /** The list after an iteration with actions, the value returned, and how often the size went down. */
  datatype Outcome = Outcome(xs: seq<nat>, ret: nat, removed: nat)

  /**
   linkedlist_iter_with_action from the point where `xs` is still to visit. `kept` are the values
   before that point still in the list; `linked` says whether the node visited last is one of them.
   After a removal it is not, so a node removed right behind a removed one stays in the list --
   unless nothing before it is left, when the head of the list moves on.
   */
  function Iterate<D(!new)>(xs: seq<nat>, act: (D, nat) -> (D, Action), d: D, kept: seq<nat>, linked: bool): Outcome {
    if xs == [] then Outcome(kept, 0, 0)
    else
      var (d', action) := act(d, xs[0]);
      var unlinks := kept == [] || linked;
      match action
      case StopAndReturn => Outcome(kept + xs, xs[0], 0)
      case GoNext => Iterate(xs[1..], act, d', kept + [xs[0]], true)
      case RemoveAndNext =>
        var rest := if unlinks then Iterate(xs[1..], act, d', kept, false)
                    else Iterate(xs[1..], act, d', kept + [xs[0]], true);
        rest.(removed := rest.removed + 1)
      case RemoveAndReturn => Outcome(if unlinks then kept + xs[1..] else kept + xs, xs[0], 1)
      case Invalid => Outcome(kept + xs, 0, 0)
  }

  /** linkedlist_iter_remove_element: the action linkedlist_remove iterates with. */
  function CountDown(remaining: nat, value: nat): (nat, Action) {
    if remaining == 0 then (0, RemoveAndReturn) else (remaining - 1, GoNext)
  }

  /** linkedlist_remove_element */
  function RemoveFirst(xs: seq<nat>, el: nat): seq<nat> {
    if xs == [] then [] else if xs[0] == el then xs[1..] else [xs[0]] + RemoveFirst(xs[1..], el)
  }

  // ---------------------------------------------------------------- laws of the sequence operations

  /** Place k holds the value, and the iteration gets there: no place up to it holds 0. */
  predicate GetsTo(xs: seq<nat>, el: nat, k: int) {
    0 <= k < |xs| && xs[k] == el && 0 !in xs[..k + 1]
  }

  /**
   linkedlist_find gives the first place of the value that the iteration gets to, or -1 when there is
   none: exactly when the value is absent or only found behind a 0.
   */
  lemma {:induction false} FindExact(xs: seq<nat>, el: nat)
    ensures Find(xs, el) == -1 <==> forall k :: !GetsTo(xs, el, k)
    ensures Find(xs, el) >= 0 ==> GetsTo(xs, el, Find(xs, el)) && el !in xs[..Find(xs, el)]
    ensures 0 !in xs ==> (Find(xs, el) == -1 <==> el !in xs)
    decreases |xs|
  {
    if xs != [] {
      var rest := xs[1..];
      FindExact(rest, el);
      assert xs == [xs[0]] + rest;
      forall k ensures GetsTo(xs, el, k) <==> xs[0] != 0 && if k == 0 then xs[0] == el else GetsTo(rest, el, k - 1) {
        GetsToTail(xs, el, k);
      }
      var r := Find(xs, el);
      if r > 0 {
        assert xs[..r] == [xs[0]] + rest[..r - 1] && GetsTo(rest, el, r - 1);
        assert GetsTo(xs, el, r);
      } else if r == 0 {
        assert GetsTo(xs, el, 0);
      }
    }
  }

  lemma GetsToTail(xs: seq<nat>, el: nat, k: int)
    requires xs != []
    ensures GetsTo(xs, el, k) <==> xs[0] != 0 && if k == 0 then xs[0] == el else GetsTo(xs[1..], el, k - 1)
  {
    if 0 <= k < |xs| {
      assert xs[..k + 1] == [xs[0]] + xs[1..][..k];
    }
  }

  lemma {:induction false} RemoveAt(xs: seq<nat>, index: nat, kept: seq<nat>)
    requires index < |xs|
    ensures Iterate(xs, CountDown, index, kept, true) == Outcome(kept + xs[..index] + xs[index + 1..], xs[index], 1)
    decreases index
  {
    if index == 0 {
      assert kept + xs[..0] + xs[1..] == kept + xs[1..];
    } else {
      RemoveAt(xs[1..], index - 1, kept + [xs[0]]);
      assert kept + [xs[0]] + xs[1..][..index - 1] + xs[1..][index..] == kept + xs[..index] + xs[index + 1..];
    }
  }

  lemma {:induction false} RemoveFirstAt(xs: seq<nat>, el: nat, k: nat)
    requires k < |xs| && xs[k] == el && el !in xs[..k]
    ensures RemoveFirst(xs, el) == xs[..k] + xs[k + 1..]
    decreases |xs|
  {
    if k > 0 {
      assert xs[0] in xs[..k] && xs[1..][..k - 1] == xs[1..k];
      RemoveFirstAt(xs[1..], el, k - 1);
      assert [xs[0]] + (xs[1..][..k - 1] + xs[1..][k..]) == xs[..k] + xs[k + 1..];
    }
  }

  lemma {:induction false} RemoveFirstMisses(xs: seq<nat>, el: nat)
    requires el !in xs
    ensures RemoveFirst(xs, el) == xs
    decreases |xs|
  {
    if xs != [] { RemoveFirstMisses(xs[1..], el); }
  }

  /**
   An iteration goes on over the first k values and then ends. At the end of the list it returns 0;
   otherwise the action for value k decides: stopping returns it, removing returns it and takes it
   out, and an action that does not exist returns 0. Nothing else happens to the list.
   */
  lemma {:induction false} IterationEnds<D(!new)>(xs: seq<nat>, act: (D, nat) -> (D, Action), d: D, kept: seq<nat>,
                                                  k: nat)
    requires k <= |xs| && forall i :: 0 <= i < k ==> Decisions(xs, act, d)[i] == GoNext
    requires k < |xs| ==> Decisions(xs, act, d)[k] != GoNext && Decisions(xs, act, d)[k] != RemoveAndNext
    ensures var o := Iterate(xs, act, d, kept, true);
            if k == |xs| then o == Outcome(kept + xs, 0, 0)
            else
              match Decisions(xs, act, d)[k]
              case StopAndReturn => o == Outcome(kept + xs, xs[k], 0)
              case RemoveAndReturn => o == Outcome(kept + (xs[..k] + xs[k + 1..]), xs[k], 1)
              case _ => o == Outcome(kept + xs, 0, 0)
    decreases k
  {
    if k == 0 {
      assert xs == [] ==> kept + xs == kept;
      assert xs != [] ==> Decisions(xs, act, d)[0] == act(d, xs[0]).1 && xs[..0] + xs[1..] == xs[1..];
    } else {
      var ds := Decisions(xs, act, d);
      var d', rest, kept' := act(d, xs[0]).0, xs[1..], kept + [xs[0]];
      assert ds[0] == act(d, xs[0]).1 == GoNext && ds[1..] == Decisions(rest, act, d');
      assert forall i :: 0 <= i < |rest| ==> Decisions(rest, act, d')[i] == ds[i + 1];
      IterationEnds(rest, act, d', kept', k - 1);
      IterateGoNext(xs, act, d, kept, true);
      assert kept' + rest == kept + xs;
      if k < |xs| {
        assert rest[k - 1] == xs[k] && kept' + (rest[..k - 1] + rest[k..]) == kept + (xs[..k] + xs[k + 1..]);
      }
    }
  }

  // ---------------------------------------------------------------- remove-and-next and filtering

  /** The decisions of an action function along a list. */
  function Decisions<D(!new)>(xs: seq<nat>, act: (D, nat) -> (D, Action), d: D): (r: seq<Action>)
    ensures |r| == |xs|
  {
    if xs == [] then [] else [act(d, xs[0]).1] + Decisions(xs[1..], act, act(d, xs[0]).0)
  }

  predicate OnlyFilters(actions: seq<Action>) {
    forall i :: 0 <= i < |actions| ==> actions[i] == GoNext || actions[i] == RemoveAndNext
  }

  /** What filtering should leave: the values not marked for removal. */
  function Filtered(xs: seq<nat>, actions: seq<Action>): seq<nat>
    requires |xs| == |actions|
  {
    if xs == [] then []
    else (if actions[0] == RemoveAndNext then [] else [xs[0]]) + Filtered(xs[1..], actions[1..])
  }

  predicate BothRemoved(actions: seq<Action>, i: nat) {
    i + 1 < |actions| && actions[i] == RemoveAndNext && actions[i + 1] == RemoveAndNext
  }

  predicate Neighbours(actions: seq<Action>) {
    exists i: nat :: i < |actions| && BothRemoved(actions, i)
  }

  /** Two neighbours are both marked for removal somewhere behind a kept value. */
  predicate AdjacentRemovals(actions: seq<Action>) {
    exists k, i :: 0 <= k < i < |actions| && actions[k] != RemoveAndNext && BothRemoved(actions, i)
  }

  /** The same, looking ahead from a point behind which something was kept or the last node was unlinked. */
  predicate Sticks(actions: seq<Action>, anyKept: bool, lastUnlinked: bool) {
    if actions == [] then false
    else if actions[0] == RemoveAndNext then (anyKept && lastUnlinked) || Sticks(actions[1..], anyKept, true)
    else Sticks(actions[1..], true, false)
  }

  lemma {:induction false} SticksExactly(actions: seq<Action>, anyKept: bool, lastUnlinked: bool)
    ensures Sticks(actions, anyKept, lastUnlinked)
       <==> || AdjacentRemovals(actions)
            || (anyKept && lastUnlinked && actions != [] && actions[0] == RemoveAndNext)
            || (anyKept && Neighbours(actions))
    decreases |actions|
  {
    hide Neighbours, AdjacentRemovals;
    if actions == [] {
      NoNeighbours(actions);
    } else {
      SticksExactly(actions[1..], anyKept || actions[0] != RemoveAndNext, actions[0] == RemoveAndNext);
      NeighboursTail(actions);
      AdjacentTail(actions);
    }
  }

  lemma NoNeighbours(actions: seq<Action>)
    requires actions == []
    ensures !Neighbours(actions) && !AdjacentRemovals(actions)
  {
  }

  lemma NeighboursTail(actions: seq<Action>)
    requires actions != []
    ensures Neighbours(actions) <==> BothRemoved(actions, 0) || Neighbours(actions[1..])
  {
    var rest := actions[1..];
    if i: nat :| i < |rest| && BothRemoved(rest, i) {
      assert BothRemoved(actions, i + 1);
    }
    if i: nat :| i < |actions| && BothRemoved(actions, i) {
      assert i > 0 ==> BothRemoved(rest, i - 1);
    }
  }

  lemma AdjacentTail(actions: seq<Action>)
    requires actions != []
    ensures AdjacentRemovals(actions)
       <==> AdjacentRemovals(actions[1..]) || (actions[0] != RemoveAndNext && Neighbours(actions[1..]))
  {
    var rest := actions[1..];
    if k, i :| 0 <= k < i < |rest| && rest[k] != RemoveAndNext && BothRemoved(rest, i) {
      assert actions[k + 1] != RemoveAndNext && BothRemoved(actions, i + 1);
    }
    if i: nat :| i < |rest| && BothRemoved(rest, i) {
      assert actions[0] != RemoveAndNext ==> BothRemoved(actions, i + 1);
    }
    if k, i :| 0 <= k < i < |actions| && actions[k] != RemoveAndNext && BothRemoved(actions, i) {
      assert BothRemoved(rest, i - 1);
      assert k > 0 ==> rest[k - 1] != RemoveAndNext;
    }
  }

  /** How many marked values a filtering iteration leaves in the list. */
  lemma {:induction false} FilterLeaves<D(!new)>(xs: seq<nat>, act: (D, nat) -> (D, Action), d: D, kept: seq<nat>,
                                                 linked: bool)
    requires OnlyFilters(Decisions(xs, act, d))
    ensures var o := Iterate(xs, act, d, kept, linked);
            var actions := Decisions(xs, act, d);
            && |o.xs| >= |kept| + |Filtered(xs, actions)|
            && |o.xs| + o.removed >= |kept| + |xs|
            && (!Sticks(actions, kept != [], !linked) ==>
                  o.xs == kept + Filtered(xs, actions) && |o.xs| + o.removed == |kept| + |xs|)
            && (Sticks(actions, kept != [], !linked) ==>
                  |o.xs| > |kept| + |Filtered(xs, actions)| && |o.xs| + o.removed > |kept| + |xs|)
    decreases |xs|
  {
    if xs != [] {
      var actions := Decisions(xs, act, d);
      var d' := act(d, xs[0]).0;
      assert actions[1..] == Decisions(xs[1..], act, d') && actions[0] == act(d, xs[0]).1;
      assert kept + ([xs[0]] + Filtered(xs[1..], actions[1..])) == kept + [xs[0]] + Filtered(xs[1..], actions[1..]);
      if actions[0] == RemoveAndNext && (kept == [] || linked) {
        FilterLeaves(xs[1..], act, d', kept, false);
      } else {
        FilterLeaves(xs[1..], act, d', kept + [xs[0]], true);
      }
    }
  }

  /**
   An iteration that only keeps and removes filters the list, and leaves its size equal to its
   length, exactly when no two neighbours behind a kept value are both to be removed.
   */
  lemma FiltersExactlyWithoutAdjacentRemovals<D(!new)>(xs: seq<nat>, act: (D, nat) -> (D, Action), d: D)
    requires OnlyFilters(Decisions(xs, act, d))
    ensures var o := Iterate(xs, act, d, [], true);
            && (o.xs == Filtered(xs, Decisions(xs, act, d)) <==> !AdjacentRemovals(Decisions(xs, act, d)))
            && (|xs| - o.removed == |o.xs| <==> !AdjacentRemovals(Decisions(xs, act, d)))
  {
    FilterLeaves(xs, act, d, [], true);
    SticksExactly(Decisions(xs, act, d), false, false);
  }

  /** The values at the even-numbered places, counted from 1. */
  function EverySecond(ys: seq<nat>): seq<nat> {
    if |ys| < 2 then [] else [ys[1]] + EverySecond(ys[2..])
  }

  /** The data an action function has after n values. */
  function DataAfter<D(!new)>(ys: seq<nat>, act: (D, nat) -> (D, Action), d: D, n: nat): D
    requires n <= |ys|
  {
    if n == 0 then d else DataAfter(ys[1..], act, act(d, ys[0]).0, n - 1)
  }

  /** The first n values are all to be removed. */
  predicate RemovesFirst<D(!new)>(ys: seq<nat>, act: (D, nat) -> (D, Action), d: D, n: nat)
    requires n <= |ys|
  {
    n > 0 ==> act(d, ys[0]).1 == RemoveAndNext && RemovesFirst(ys[1..], act, act(d, ys[0]).0, n - 1)
  }

  /**
   A run of n removals behind a kept value, whatever comes behind it: exactly the values at its
   even-numbered places stay in the list, while all n are counted as removed.
   */
  lemma {:induction false} EverySecondStays<D(!new)>(ys: seq<nat>, act: (D, nat) -> (D, Action), d: D,
                                                     kept: seq<nat>, n: nat)
    requires kept != [] && n <= |ys| && RemovesFirst(ys, act, d, n)
    ensures var o := Iterate(ys[n..], act, DataAfter(ys, act, d, n), kept + EverySecond(ys[..n]), n % 2 == 0);
            Iterate(ys, act, d, kept, true) == o.(removed := o.removed + n)
    decreases n
  {
    if n == 0 {
      assert ys[0..] == ys && kept + [] == kept;
    } else {
      IterateRemove(ys, act, d, kept, true);
      var d1, ys1 := act(d, ys[0]).0, ys[1..];
      assert ys1[n - 1..] == ys[n..];
      if n == 1 {
        assert kept + [] == kept;
      } else {
        IterateRemove(ys1, act, d1, kept, false);
        var d2, ys2, kept2 := act(d1, ys1[0]).0, ys1[1..], kept + [ys1[0]];
        assert ys2 == ys[2..] && ys2[n - 2..] == ys[n..] && ys[..n][2..] == ys2[..n - 2];
        EverySecondStays(ys2, act, d2, kept2, n - 2);
        assert kept2 + EverySecond(ys2[..n - 2]) == kept + ([ys[1]] + EverySecond(ys2[..n - 2]));
      }
    }
  }

  /** Keeps 1 and removes everything else. */
  function KeepOne(d: nat, x: nat): (nat, Action) {
    (d, if x == 1 then GoNext else RemoveAndNext)
  }

  /** Removing 2 and 3 from [1, 2, 3] leaves 3 in the list, and a size of 1 for two values. */
  lemma NeighbourStays()
    ensures var o := Iterate([1, 2, 3], KeepOne, 0, [], true);
            o.xs == [1, 3] && o.removed == 2 && Filtered([1, 2, 3], Decisions([1, 2, 3], KeepOne, 0)) == [1]
  {
    assert [1, 2, 3][1..] == [2, 3] && [2, 3][1..] == [3] && [3][1..] == [];
    assert Iterate([3], KeepOne, 0, [1], false) == Outcome([1, 3], 0, 1);
    assert Iterate([2, 3], KeepOne, 0, [1], true) == Outcome([1, 3], 0, 2);
    IterateGoNext([1, 2, 3], KeepOne, 0, [], true);
    assert [] + [1] == [1];
    assert Decisions([3], KeepOne, 0) == [RemoveAndNext];
    assert Decisions([2, 3], KeepOne, 0) == [RemoveAndNext, RemoveAndNext];
    var actions := Decisions([1, 2, 3], KeepOne, 0);
    assert actions == [GoNext, RemoveAndNext, RemoveAndNext];
    assert actions[1..] == [RemoveAndNext, RemoveAndNext] && actions[1..][1..] == [RemoveAndNext];
    assert Filtered([3], [RemoveAndNext]) == [] && Filtered([2, 3], actions[1..]) == [];
    assert Filtered([1, 2, 3], actions) == [1] + [];
  }

  // ---------------------------------------------------------------- the list on the heap

  class Node {
    const val: nat        // set when the node is appended, never changed
    var next: Node?

    constructor (val: nat)
      ensures this.val == val && next == null
    {
      this.val := val;
      next := null;
    }
  }

  function Vals(nodes: seq<Node>): (r: seq<nat>)
    ensures |r| == |nodes| && forall i :: 0 <= i < |nodes| ==> r[i] == nodes[i].val
  {
    if nodes == [] then [] else [nodes[0].val] + Vals(nodes[1..])
  }

  /** The node after position i of a chain, or null. */
  function After(nodes: seq<Node>, i: nat): Node?
    requires i < |nodes|
  {
    if i + 1 < |nodes| then nodes[i + 1] else null
  }

  ghost predicate Chain(first: Node?, nodes: seq<Node>)
    reads nodes
  {
    && Distinct(nodes)
    && first == (if nodes == [] then null else nodes[0])
    && (forall i :: 0 <= i < |nodes| ==> nodes[i].next == After(nodes, i))
  }

  class List {
    var first: Node?
    var size: nat
    ghost var nodes: seq<Node>

    /** The pointers form the chain of `nodes`, without a cycle. */
    ghost predicate Linked()
      reads this, nodes
    {
      Chain(first, nodes)
    }

    ghost predicate Valid()
      reads this, nodes
    {
      Linked() && size == |nodes|
    }

    ghost function Contents(): seq<nat>
      reads this
    {
      Vals(nodes)
    }

    constructor ()
      ensures Valid() && Contents() == [] && nodes == []
    {
      first := null;
      size := 0;
      nodes := [];
    }

    method Append(data: nat)
      requires Valid()
      modifies this, nodes
      ensures Valid() && Contents() == old(Contents()) + [data]
      ensures fresh(nodes[|nodes| - 1]) && nodes == old(nodes) + [nodes[|nodes| - 1]]
    {
      hide Vals, Distinct;
      var node := new Node(data);
      AddOne(nodes, node);
      if size == 0 {
        first := node;
      } else {
        var i := 0;
        var last := first;
        while last.next != null
          invariant 0 <= i < |nodes| && last == nodes[i]
          decreases |nodes| - i
        {
          last := last.next;
          i := i + 1;
        }
        last.next := node;
      }
      size := size + 1;
      nodes := nodes + [node];
    }

    method Get(index: nat) returns (val: nat)
      requires Valid()
      ensures val == if index < |nodes| then Contents()[index] else 0
    {
      if index >= size {
        return 0;
      }
      var node := first;
      for i := 0 to index
        invariant node == nodes[i]
      {
        node := node.next;
      }
      return node.val;
    }

    method FindElement(el: nat) returns (r: int)
      requires Valid()
      ensures r == Find(Contents(), el)
    {
      var node := first;
      var i := 0;
      while node != null && node.val != 0
        invariant 0 <= i <= |nodes|
        invariant node == if i < |nodes| then nodes[i] else null
        invariant Find(Contents(), el)
               == if Find(Contents()[i..], el) == -1 then -1 else i + Find(Contents()[i..], el)
        decreases |nodes| - i
      {
        if node.val == el {
          return i;
        }
        node := node.next;
        i := i + 1;
      }
      return -1;
    }

    /**
     linkedlist_remove_node during an iteration that has visited `done` and is at `node`: the node
     goes when the node visited last is still in the list, or nothing before it is.
     */
    method RemoveNode(previous: Node?, node: Node, ghost done: seq<Node>, ghost rest: seq<Node>, ghost linked: bool)
      requires Linked() && nodes == done + [node] + rest && size > 0
      requires previous == null ==> done == [] && linked
      requires previous != null && linked ==> done != [] && done[|done| - 1] == previous
      requires previous != null && !linked ==> previous !in nodes
      modifies this, previous
      ensures Linked() && size == old(size) - 1
      ensures nodes == if done == [] || linked then done + rest else old(nodes)
      ensures done == [] || linked ==> node !in nodes
    {
      hide Vals, Distinct;
      ghost var was := nodes;
      DropOne(done, node, rest);
      var next := node.next;
      if previous != null {
        previous.next := next;
      }
      if first == node {
        first := next;
      }
      size := size - 1;
      if done == [] || linked {
        nodes := done + rest;
      }
      assert forall i :: 0 <= i < |was| && was[i] != previous ==> was[i].next == After(was, i);
      assert done == [] || linked ==> forall i :: 0 <= i < |nodes| ==> nodes[i].next == After(nodes, i);
    }

    /** linkedlist_iter_with_action */
    method IterWithAction<D(!new)>(act: (D, nat) -> (D, Action), data: D) returns (ret: nat)
      requires Valid()
      modifies this, nodes
      ensures Linked() && forall n :: n in nodes ==> n in old(nodes)
      ensures var o := Iterate(old(Contents()), act, data, [], true);
              Contents() == o.xs && ret == o.ret && size == old(|nodes|) - o.removed
    {
      hide Chain, Iterate, SameVals, Vals;
      ghost var orig := nodes;
      ghost var done: seq<Node>, kept: seq<nat>, linked := [], [], true;
      ghost var rest, ys, removals := nodes, Vals(nodes), 0;
      ghost var whole := Iterate(ys, act, data, kept, linked);
      StartVals(nodes);
      ChainFirst(first, nodes);
      assert done + rest == nodes;
      var d, nextNode, previous: Node? := data, first, null;
      while nextNode != null
        invariant nextNode == if rest == [] then null else rest[0]
        invariant nodes == done + rest && Linked() && forall n :: n in nodes ==> n in orig
        invariant previous == null ==> done == [] && linked
        invariant previous != null ==> previous in orig
        invariant previous != null && linked ==> done != [] && done[|done| - 1] == previous
        invariant previous != null && !linked ==> previous !in nodes
        invariant SameVals(rest, ys) && SameVals(done, kept)
        invariant removals + |rest| <= |orig| && size == |orig| - removals
        invariant var o := Iterate(ys, act, d, kept, linked); whole == o.(removed := o.removed + removals)
        decreases |rest|
      {
        var node := nextNode;
        ghost var tail := rest[1..];
        SplitHead(done, rest);
        ChainNext(first, nodes, |done|);
        nextNode := node.next;
        HeadVals(rest, ys, done, kept);
        var (d', action) := act(d, node.val);
        match action {
          case StopAndReturn =>
            IterateReturns(ys, act, d, kept, linked);
            return node.val;
          case GoNext =>
            IterateGoNext(ys, act, d, kept, linked);
            done, kept, linked := done + [node], kept + [node.val], true;
          case RemoveAndNext =>
            IterateRemove(ys, act, d, kept, linked);
            ghost var unlinks := done == [] || linked;
            RemoveNode(previous, node, done, tail, linked);
            removals := removals + 1;
            if unlinks {
              linked := false;
            } else {
              done, kept, linked := done + [node], kept + [node.val], true;
            }
          case RemoveAndReturn =>
            IterateReturns(ys, act, d, kept, linked);
            RemoveNode(previous, node, done, tail, linked);
            return node.val;
          case Invalid =>
            IterateReturns(ys, act, d, kept, linked);
            return 0;
        }
        previous, d, rest, ys := node, d', tail, ys[1..];
        assert done + rest == nodes;
      }
      EndVals(rest, ys, done, kept);
      IterateEnds(ys, act, d, kept, linked);
      ret := 0;
    }

    /** linkedlist_remove */
    method Remove(index: nat) returns (val: nat)
      requires Valid()
      modifies this, nodes
      ensures Valid()
      ensures index >= |old(Contents())| ==> val == 0 && Contents() == old(Contents())
      ensures index < |old(Contents())| ==>
                val == old(Contents())[index] && Contents() == old(Contents())[..index] + old(Contents())[index + 1..]
    {
      hide Chain, Iterate;
      if index >= size {
        return 0;
      }
      RemoveAt(Contents(), index, []);
      val := IterWithAction(CountDown, index);
      assert [] + old(Contents())[..index] == old(Contents())[..index];
    }

    /** linkedlist_pop */
    method Pop() returns (val: nat)
      requires Valid()
      modifies this, nodes
      ensures Valid()
      ensures old(Contents()) == [] ==> val == 0 && Contents() == []
      ensures old(Contents()) != [] ==> old(Contents()) == Contents() + [val]
    {
      ChainFirst(first, nodes);
      if first == null {
        return 0;
      }
      val := Remove(size - 1);
    }

    /** linkedlist_remove_element */
    method RemoveElement(el: nat) returns (found: bool)
      requires Valid()
      modifies this, nodes
      ensures Valid()
      ensures found <==> el in old(Contents())
      ensures Contents() == RemoveFirst(old(Contents()), el)
    {
      hide Chain, Vals, RemoveFirst;
      ghost var done: seq<Node>, rest := [], nodes;
      ChainFirst(first, nodes);
      NoneSeen(nodes, el);
      var next, previous: Node? := first, null;
      while next != null
        invariant next == if rest == [] then null else rest[0]
        invariant nodes == old(nodes) == done + rest && Linked() && size == |nodes|
        invariant previous == if done == [] then null else done[|done| - 1]
        invariant el !in Vals(done)
        decreases |rest|
      {
        ChainNext(first, nodes, |done|);
        SplitHead(done, rest);
        ValsOneMore(done, next);
        if next.val == el {
          FoundAt(done, rest, el);
          assert previous != null ==> previous == nodes[|done| - 1];
          RemoveNode(previous, next, done, rest[1..], true);
          return true;
        }
        done, rest := done + [next], rest[1..];
        previous := next;
        next := next.next;
      }
      assert done == nodes;
      RemoveFirstMisses(Vals(nodes), el);
      return false;
    }
  }

  lemma NoneSeen(nodes: seq<Node>, el: nat)
    ensures el !in Vals([]) && [] + nodes == nodes
  {
  }

  lemma SplitHead<T>(done: seq<T>, rest: seq<T>)
    requires rest != []
    ensures done + rest == done + [rest[0]] + rest[1..] && (done + rest)[|done|] == rest[0]
  {
  }

  lemma ValsOneMore(done: seq<Node>, node: Node)
    ensures Vals(done + [node]) == Vals(done) + [node.val]
  {
    ContentsAre(done + [node], Vals(done) + [node.val]);
  }

  lemma FoundAt(done: seq<Node>, rest: seq<Node>, el: nat)
    requires rest != [] && rest[0].val == el && el !in Vals(done)
    ensures el in Vals(done + rest)
    ensures RemoveFirst(Vals(done + rest), el) == Vals(done + rest[1..])
  {
    var all, n := Vals(done + rest), |done|;
    assert all[..n] == Vals(done);
    assert all[..n] + all[n + 1..] == Vals(done + rest[1..]);
    RemoveFirstAt(all, el, n);
  }

  lemma StartVals(nodes: seq<Node>)
    ensures SameVals(nodes, Vals(nodes)) && SameVals([], [])
  {
  }

  /** Values of the parts of a list that is visited up to its node rest[0]. */
  lemma HeadVals(rest: seq<Node>, ys: seq<nat>, done: seq<Node>, kept: seq<nat>)
    requires rest != [] && SameVals(rest, ys) && SameVals(done, kept)
    ensures ys != [] && ys[0] == rest[0].val && SameVals(rest[1..], ys[1..])
    ensures SameVals(done + [rest[0]], kept + [rest[0].val])
    ensures kept == [] <==> done == []
    ensures Vals(done + rest) == kept + ys && Vals(done + rest[1..]) == kept + ys[1..]
  {
    ContentsAre(done + rest, kept + ys);
    ContentsAre(done + rest[1..], kept + ys[1..]);
  }

  lemma EndVals(rest: seq<Node>, ys: seq<nat>, done: seq<Node>, kept: seq<nat>)
    requires rest == [] && SameVals(rest, ys) && SameVals(done, kept)
    ensures ys == [] && Vals(done + rest) == kept
  {
    ContentsAre(done + rest, kept);
  }

  lemma AddOne(nodes: seq<Node>, node: Node)
    requires Distinct(nodes) && node !in nodes
    ensures Distinct(nodes + [node]) && Vals(nodes + [node]) == Vals(nodes) + [node.val]
    ensures forall i :: 0 <= i < |nodes| - 1 ==> nodes[i] != nodes[|nodes| - 1]
  {
    ValsOneMore(nodes, node);
  }

  /** A chain without one of its nodes. */
  lemma DropOne(done: seq<Node>, node: Node, rest: seq<Node>)
    requires Distinct(done + [node] + rest)
    ensures Distinct(done + rest) && node !in done + rest
    ensures forall i :: 0 <= i < |done + rest| ==>
              (done + rest)[i] == (done + [node] + rest)[if i < |done| then i else i + 1]
    ensures forall i :: 0 <= i < |done + rest| && i != |done| - 1 && done != [] ==> (done + rest)[i] != done[|done| - 1]
  {
    var was, now := done + [node] + rest, done + rest;
    forall i | 0 <= i < |now| ensures now[i] == was[if i < |done| then i else i + 1] && now[i] != was[|done|] {
    }
    assert forall i :: 0 <= i < |now| && i != |done| - 1 && done != [] ==> now[i] != now[|done| - 1];
  }

  lemma IterateGoNext<D(!new)>(ys: seq<nat>, act: (D, nat) -> (D, Action), d: D, kept: seq<nat>, linked: bool)
    requires ys != [] && act(d, ys[0]).1 == GoNext
    ensures Iterate(ys, act, d, kept, linked) == Iterate(ys[1..], act, act(d, ys[0]).0, kept + [ys[0]], true)
  {
  }

  lemma IterateRemove<D(!new)>(ys: seq<nat>, act: (D, nat) -> (D, Action), d: D, kept: seq<nat>, linked: bool)
    requires ys != [] && act(d, ys[0]).1 == RemoveAndNext
    ensures var o := if kept == [] || linked then Iterate(ys[1..], act, act(d, ys[0]).0, kept, false)
                     else Iterate(ys[1..], act, act(d, ys[0]).0, kept + [ys[0]], true);
            Iterate(ys, act, d, kept, linked) == o.(removed := o.removed + 1)
  {
  }

  lemma IterateEnds<D(!new)>(ys: seq<nat>, act: (D, nat) -> (D, Action), d: D, kept: seq<nat>, linked: bool)
    requires ys == []
    ensures Iterate(ys, act, d, kept, linked) == Outcome(kept, 0, 0)
  {
  }

  lemma IterateReturns<D(!new)>(ys: seq<nat>, act: (D, nat) -> (D, Action), d: D, kept: seq<nat>, linked: bool)
    requires ys != [] && !act(d, ys[0]).1.GoNext? && !act(d, ys[0]).1.RemoveAndNext?
    ensures Iterate(ys, act, d, kept, linked)
         == match act(d, ys[0]).1
            case StopAndReturn => Outcome(kept + ys, ys[0], 0)
            case RemoveAndReturn => Outcome(if kept == [] || linked then kept + ys[1..] else kept + ys, ys[0], 1)
            case Invalid => Outcome(kept + ys, 0, 0)
  {
  }

  lemma ChainFirst(first: Node?, nodes: seq<Node>)
    requires Chain(first, nodes)
    ensures first == if nodes == [] then null else nodes[0]
  {
  }

  lemma ChainNext(first: Node?, nodes: seq<Node>, i: nat)
    requires Chain(first, nodes) && i < |nodes|
    ensures nodes[i].next == After(nodes, i)
  {
  }

  ghost predicate SameVals(nodes: seq<Node>, xs: seq<nat>)
  {
    |nodes| == |xs| && forall k :: 0 <= k < |nodes| ==> nodes[k].val == xs[k]
  }

  lemma ContentsAre(nodes: seq<Node>, xs: seq<nat>)
    requires SameVals(nodes, xs)
    ensures Vals(nodes) == xs
  {
  }
}
