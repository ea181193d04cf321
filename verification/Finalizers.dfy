/** Intrusive singly linked FIFOs, and the two that hold the finalizers of a heap. */
module Finalizers {
  type Object = nat

  const NULL_OBJECT: Object := 0

  /** An element of a list; the anchor of a list is one too, with nothing in it. */
  class Node {
    var next: Node?
    var key: Object
    var lambda: Object

    constructor (key: Object, lambda: Object)
      ensures next == null && this.key == key && this.lambda == lambda
    {
      next, this.key, this.lambda := null, key, lambda;
    }
  }

  ghost predicate Distinct(chain: seq<Node>)
  {
    forall i, j :: 0 <= i < j < |chain| ==> chain[i] != chain[j]
  }

  /** Each node leads to the one after it, and the last one to none. */
  ghost predicate Linked(chain: seq<Node>)
    reads chain`next
  {
    && (forall i :: 0 <= i < |chain| - 1 ==> chain[i].next == chain[i + 1])
    && (chain != [] ==> chain[|chain| - 1].next == null)
  }

  /** As `Linked`, where nothing is known about where the node at `i` leads. */
  ghost predicate LinkedBut(chain: seq<Node>, i: nat)
    reads chain`next
  {
    && (forall k :: 0 <= k < |chain| - 1 && k != i ==> chain[k].next == chain[k + 1])
    && (i + 1 < |chain| ==> chain[|chain| - 1].next == null)
  }

  ghost function Without(chain: seq<Node>, i: nat): seq<Node>
    requires i < |chain|
  {
    chain[..i] + chain[i + 1..]
  }

  ghost function Follower(chain: seq<Node>, i: nat): Node?
  {
    if i + 1 < |chain| then chain[i + 1] else null
  }

  lemma WithoutDistinct(chain: seq<Node>, i: nat)
    requires i < |chain| && Distinct(chain)
    ensures Distinct(Without(chain, i)) && chain[i] !in Without(chain, i)
    ensures forall n :: n in Without(chain, i) ==> n in chain
  {
    var shorter := Without(chain, i);
    assert forall k :: 0 <= k < |shorter| ==> shorter[k] == if k < i then chain[k] else chain[k + 1];
  }

  ghost function KeysOf(nodes: seq<Node>): (r: seq<Object>)
    reads nodes`key
    ensures |r| == |nodes| && forall i :: 0 <= i < |nodes| ==> r[i] == nodes[i].key
  {
    if nodes == [] then [] else KeysOf(nodes[..|nodes| - 1]) + [nodes[|nodes| - 1].key]
  }

  ghost function LambdasOf(nodes: seq<Node>): (r: seq<Object>)
    reads nodes`lambda
    ensures |r| == |nodes| && forall i :: 0 <= i < |nodes| ==> r[i] == nodes[i].lambda
  {
    if nodes == [] then [] else LambdasOf(nodes[..|nodes| - 1]) + [nodes[|nodes| - 1].lambda]
  }

  /** The first `i` nodes have been visited: of the keys, those that are dead are gone. */
  ghost predicate Visited(
    nodes: seq<Node>, keys: seq<Object>, lambdas: seq<Object>, alive: Object -> bool, visit: Object -> Object, i: nat)
    requires |keys| == |lambdas| == |nodes|
    reads nodes`key, nodes`lambda
  {
    forall k :: 0 <= k < |nodes| ==>
      && nodes[k].key == (if k >= i then keys[k] else visit(if alive(keys[k]) then keys[k] else NULL_OBJECT))
      && nodes[k].lambda == (if k >= i then lambdas[k] else visit(lambdas[k]))
  }

  /** The nodes, in order, whose key is alive or, as the case may be, is not. */
  ghost function Select(nodes: seq<Node>, keys: seq<Object>, alive: Object -> bool, which: bool): (r: seq<Node>)
    requires |keys| == |nodes|
    ensures forall n :: n in r ==> n in nodes
  {
    if nodes == [] then []
    else
      var last := |nodes| - 1;
      Select(nodes[..last], keys[..last], alive, which) + if alive(keys[last]) == which then [nodes[last]] else []
  }

  /** How many of the first `i` keys are alive or, as the case may be, are not. */
  function Rank(keys: seq<Object>, alive: Object -> bool, which: bool, i: nat): (r: nat)
    requires i <= |keys|
    ensures r <= i
  {
    if i == 0 then 0 else Rank(keys, alive, which, i - 1) + if alive(keys[i - 1]) == which then 1 else 0
  }

  /** Each node whose key is, stands behind exactly those before it whose keys are, and there are no others. */
  ghost predicate Picked(r: seq<Node>, nodes: seq<Node>, keys: seq<Object>, alive: Object -> bool, which: bool)
    requires |keys| == |nodes|
  {
    && |r| == Rank(keys, alive, which, |keys|)
    && forall i :: 0 <= i < |keys| && alive(keys[i]) == which ==>
         Rank(keys, alive, which, i) < |r| && r[Rank(keys, alive, which, i)] == nodes[i]
  }

  lemma {:induction false} SelectIsPicked(nodes: seq<Node>, keys: seq<Object>, alive: Object -> bool, which: bool)
    requires |nodes| == |keys|
    ensures Picked(Select(nodes, keys, alive, which), nodes, keys, alive, which)
  {
    hide Rank;
    if nodes == [] {
      RankOfNone(keys, alive, which);
    } else {
      var last := |nodes| - 1;
      SelectIsPicked(nodes[..last], keys[..last], alive, which);
      PickedStep(Select(nodes[..last], keys[..last], alive, which), nodes, keys, alive, which);
    }
  }

  lemma PickedStep(r: seq<Node>, nodes: seq<Node>, keys: seq<Object>, alive: Object -> bool, which: bool)
    requires |nodes| == |keys| > 0
    requires Picked(r, nodes[..|nodes| - 1], keys[..|nodes| - 1], alive, which)
    ensures var last := |nodes| - 1;
      Picked(r + if alive(keys[last]) == which then [nodes[last]] else [], nodes, keys, alive, which)
  {
    hide Rank;
    var last := |nodes| - 1;
    var more := r + if alive(keys[last]) == which then [nodes[last]] else [];
    RankOfPrefix(keys, last, alive, which, last);
    RankStep(keys, alive, which, last);
    forall i | 0 <= i < |keys| && alive(keys[i]) == which
      ensures Rank(keys, alive, which, i) < |more| && more[Rank(keys, alive, which, i)] == nodes[i]
    {
      if i < last {
        RankOfPrefix(keys, last, alive, which, i);
        assert keys[..last][i] == keys[i] && nodes[..last][i] == nodes[i];
      }
    }
  }

  lemma RankOfNone(keys: seq<Object>, alive: Object -> bool, which: bool)
    ensures Rank(keys, alive, which, 0) == 0
  {
  }

  lemma RankStep(keys: seq<Object>, alive: Object -> bool, which: bool, i: nat)
    requires i < |keys|
    ensures Rank(keys, alive, which, i + 1) == Rank(keys, alive, which, i) + if alive(keys[i]) == which then 1 else 0
  {
  }

  lemma {:induction false} RankOfPrefix(keys: seq<Object>, n: nat, alive: Object -> bool, which: bool, i: nat)
    requires i <= n <= |keys|
    ensures Rank(keys[..n], alive, which, i) == Rank(keys, alive, which, i)
  {
    if i == 0 {
    } else {
      RankOfPrefix(keys, n, alive, which, i - 1);
    }
  }

  /** The first `i` nodes, divided. */
  ghost predicate Divided(
    nodes: seq<Node>, keys: seq<Object>, alive: Object -> bool, i: nat, kept: seq<Node>, gone: seq<Node>)
  {
    && i <= |nodes| == |keys|
    && kept == Select(nodes[..i], keys[..i], alive, true) && gone == Select(nodes[..i], keys[..i], alive, false)
  }

  lemma DividedStart(nodes: seq<Node>, keys: seq<Object>, alive: Object -> bool)
    requires |nodes| == |keys|
    ensures Divided(nodes, keys, alive, 0, [], [])
  {
  }

  lemma DividedStep(nodes: seq<Node>, keys: seq<Object>, alive: Object -> bool, i: nat, kept: seq<Node>, gone: seq<Node>)
    requires Divided(nodes, keys, alive, i, kept, gone) && i < |nodes|
    ensures alive(keys[i]) ==> Divided(nodes, keys, alive, i + 1, kept + [nodes[i]], gone)
    ensures !alive(keys[i]) ==> Divided(nodes, keys, alive, i + 1, kept, gone + [nodes[i]])
  {
    assert nodes[..i + 1][..i] == nodes[..i] && keys[..i + 1][..i] == keys[..i];
  }

  lemma DividedEnd(nodes: seq<Node>, keys: seq<Object>, alive: Object -> bool, kept: seq<Node>, gone: seq<Node>)
    requires Divided(nodes, keys, alive, |nodes|, kept, gone)
    ensures kept == Select(nodes, keys, alive, true) && gone == Select(nodes, keys, alive, false)
  {
    assert nodes[..|nodes|] == nodes && keys[..|keys|] == keys;
  }

  /** The chain `[anchor] + kept + rest`, around the first node of the rest. */
  lemma ChainStep(anchor: Node, kept: seq<Node>, rest: seq<Node>)
    requires rest != []
    ensures var chain, i := [anchor] + kept + rest, |kept| + 1;
      && chain[i] == rest[0] && Follower(chain, i) == (if |rest| > 1 then rest[1] else null)
      && chain == [anchor] + (kept + [rest[0]]) + rest[1..]
      && Without(chain, i) == [anchor] + kept + rest[1..]
  {
  }

  lemma NoneVisited(nodes: seq<Node>, alive: Object -> bool, visit: Object -> Object)
    ensures Visited(nodes, KeysOf(nodes), LambdasOf(nodes), alive, visit, 0)
  {
  }

  class Fifo {
    const anchor: Node
    var tail: Node
    ghost var chain: seq<Node>  // the anchor and the nodes in order

    ghost predicate Valid()
      reads this, chain`next
    {
      && chain != [] && chain[0] == anchor && tail == chain[|chain| - 1]
      && Distinct(chain) && Linked(chain)
    }

    ghost function Nodes(): seq<Node>
      reads this
    {
      if chain == [] then [] else chain[1..]
    }

    constructor ()
      ensures Valid() && chain == [anchor] && fresh(anchor)
    {
      var node := new Node(NULL_OBJECT, NULL_OBJECT);
      anchor, tail, chain := node, node, [node];
    }

    method Append(entry: Node)
      requires Valid() && entry !in chain && entry.next == null
      modifies this, tail`next, entry`next
      ensures Valid() && chain == old(chain) + [entry] && entry.next == null
    {
      entry.next := tail.next;
      tail.next := entry;
      tail, chain := entry, chain + [entry];
    }

    /** Whether some node has the key. */
    method Contains(key: Object) returns (found: bool)
      requires Valid()
      ensures found <==> key in KeysOf(Nodes())
    {
      var node := anchor.next;
      ghost var i := 1;
      while node != null
        invariant 0 < i <= |chain| && node == Follower(chain, i - 1)
        invariant forall k :: 1 <= k < i ==> chain[k].key != key
        decreases |chain| - i
      {
        if node.key == key {
          assert KeysOf(Nodes())[i - 1] == key;
          return true;
        }
        node := node.next;
        i := i + 1;
      }
      return false;
    }

    // ----- Removal --------------------------------------------------------------------------

    /** The list while the node at `i` is looked at: that node leads nowhere. */
    ghost predicate Suspended(i: nat)
      reads this, chain`next
    {
      && 0 < i < |chain| && chain[0] == anchor && tail == chain[|chain| - 1]
      && Distinct(chain) && LinkedBut(chain, i)
    }

    method Suspend(current: Node, ghost i: nat) returns (next: Node?)
      requires Valid() && 0 < i < |chain| && current == chain[i]
      modifies current`next
      ensures Suspended(i) && current.next == null && next == Follower(chain, i)
    {
      next := current.next;
      current.next := null;
    }

    method Keep(current: Node, next: Node?, ghost i: nat)
      requires Suspended(i) && current == chain[i] && next == Follower(chain, i)
      modifies current`next
      ensures Valid()
    {
      current.next := next;
    }

    method Drop(prev: Node, next: Node?, ghost i: nat)
      requires Suspended(i) && prev == chain[i - 1] && next == Follower(chain, i)
      modifies this, prev`next
      ensures Valid() && chain == Without(old(chain), i)
    {
      if next == null {
        tail := prev;
      }
      prev.next := next;
      ghost var longer := chain;
      chain := Without(chain, i);
      WithoutDistinct(longer, i);
      assert forall k :: 0 <= k < |chain| ==> chain[k] == if k < i then longer[k] else longer[k + 1];
    }

    method RemoveFirst() returns (first: Node?)
      requires Valid()
      modifies this, chain`next
      ensures Valid()
      ensures first == Follower(old(chain), 0)
      ensures first == null ==> chain == old(chain)
      ensures first != null ==> chain == Without(old(chain), 1) && first.next == null
    {
      first := anchor.next;
      assert |chain| > 1 ==> chain[0].next == chain[1];
      if first != null {
        var next := Suspend(first, 1);
        Drop(anchor, next, 1);
      }
      assert |chain| > 1 ==> chain[0].next == chain[1];
      if anchor.next == null {
        tail := anchor;
      }
    }

    /** Two lists have no nodes in common. */
    ghost predicate Apart(sink: Fifo)
      reads this, sink
    {
      sink != this && forall n :: n in chain ==> n !in sink.chain
    }

    /** What the garbage collector does with the node of a registered finalizer. */
    static method Examine(node: Node, alive: Object -> bool, visit: Object -> Object, sink: Fifo) returns (remove: bool)
      requires sink.Valid() && node !in sink.chain && node.next == null
      modifies node, sink, sink.tail`next
      ensures sink.Valid() && node.next == null
      ensures remove == !alive(old(node.key))
      ensures node.key == visit(if remove then NULL_OBJECT else old(node.key)) && node.lambda == visit(old(node.lambda))
      ensures sink.chain == if remove then old(sink.chain) + [node] else old(sink.chain)
    {
      remove := !alive(node.key);
      if remove {
        node.key := NULL_OBJECT;
      }
      node.key, node.lambda := visit(node.key), visit(node.lambda);
      if remove {
        sink.Append(node);
      }
    }

    /** One round of the removal, for the node at `i`. */
    method Round(prev: Node, current: Node, ghost i: nat, alive: Object -> bool, visit: Object -> Object, sink: Fifo)
      returns (last: Node, next: Node?)
      requires Valid() && sink.Valid() && Apart(sink)
      requires 0 < i < |chain| && prev == chain[i - 1] && current == chain[i]
      modifies this, prev`next, current, sink, sink.tail`next
      ensures Valid() && sink.Valid() && Apart(sink)
      ensures next == Follower(old(chain), i)
      ensures alive(old(current.key)) ==> chain == old(chain) && last == current && sink.chain == old(sink.chain)
      ensures !alive(old(current.key)) ==>
        chain == Without(old(chain), i) && last == prev && sink.chain == old(sink.chain) + [current]
      ensures current.key == visit(if alive(old(current.key)) then old(current.key) else NULL_OBJECT)
      ensures current.lambda == visit(old(current.lambda))
      ensures (last == prev || last == current) && (sink.tail == old(sink.tail) || sink.tail == current)
    {
      hide Linked, LinkedBut, Without;
      WithoutDistinct(chain, i);
      assert sink.tail in sink.chain && current in chain && prev in chain;
      next := Suspend(current, i);
      var remove := Examine(current, alive, visit, sink);
      if remove {
        Drop(prev, next, i);
        last := prev;
      } else {
        Keep(current, next, i);
        last := current;
      }
    }

    /** Between two rounds: `prev` is the last node that was kept. */
    ghost predicate Between(
      nodes: seq<Node>, i: nat, kept: seq<Node>, gone: seq<Node>, prev: Node, current: Node?, sink: Fifo, others: seq<Node>)
      reads this, sink
    {
      && i <= |nodes| && current == (if i < |nodes| then nodes[i] else null)
      && chain == [anchor] + kept + nodes[i..] && prev == chain[|kept|]
      && sink.chain == others + gone
    }

    method Advance(
      prev: Node, current: Node, alive: Object -> bool, visit: Object -> Object, sink: Fifo, ghost nodes: seq<Node>,
      ghost keys: seq<Object>, ghost lambdas: seq<Object>, ghost i: nat, ghost kept: seq<Node>, ghost gone: seq<Node>,
      ghost others: seq<Node>)
      returns (last: Node, next: Node?)
      requires Valid() && sink.Valid() && Apart(sink) && Distinct(nodes) && |keys| == |lambdas| == |nodes|
      requires i < |nodes| && Between(nodes, i, kept, gone, prev, current, sink, others)
      requires Visited(nodes, keys, lambdas, alive, visit, i)
      modifies this, prev`next, current, sink, sink.tail`next
      ensures Valid() && sink.Valid() && Apart(sink)
      ensures alive(keys[i]) ==> Between(nodes, i + 1, kept + [nodes[i]], gone, last, next, sink, others)
      ensures !alive(keys[i]) ==> Between(nodes, i + 1, kept, gone + [nodes[i]], last, next, sink, others)
      ensures Visited(nodes, keys, lambdas, alive, visit, i + 1)
      ensures (last == prev || last == current) && (sink.tail == old(sink.tail) || sink.tail == current)
    {
      hide Valid, Linked, Apart, Follower, Without;
      ChainStep(anchor, kept, nodes[i..]);
      last, next := Round(prev, current, |kept| + 1, alive, visit, sink);
    }

    /** Nodes with live keys stay, in order; the others move, in order, to the end of the
        other list, and lose their keys. */
    method RemoveDead(alive: Object -> bool, visit: Object -> Object, sink: Fifo)
      requires Valid() && sink.Valid() && Apart(sink)
      modifies this, chain, sink, sink.tail`next
      ensures Valid() && sink.Valid() && Apart(sink) && forall n :: n in chain ==> n in old(chain)
      ensures var nodes, keys := old(Nodes()), old(KeysOf(Nodes()));
        && Nodes() == Select(nodes, keys, alive, true)
        && sink.Nodes() == old(sink.Nodes()) + Select(nodes, keys, alive, false)
        && Visited(nodes, keys, old(LambdasOf(Nodes())), alive, visit, |nodes|)
    {
      hide *;
      ghost var nodes, keys, lambdas, others := Nodes(), KeysOf(Nodes()), LambdasOf(Nodes()), sink.chain;
      ghost var i, kept: seq<Node>, gone: seq<Node> := 0, [], [];
      DividedStart(nodes, keys, alive);
      NoneVisited(nodes, alive, visit);
      FirstNode(sink);
      var prev, current := anchor, anchor.next;
      while current != null
        invariant Valid() && sink.Valid() && Apart(sink)
        invariant Between(nodes, i, kept, gone, prev, current, sink, others)
        invariant Divided(nodes, keys, alive, i, kept, gone)
        invariant Visited(nodes, keys, lambdas, alive, visit, i)
        invariant prev in old(chain) && (sink.tail == old(sink.tail) || sink.tail in nodes)
        decreases |nodes| - i
      {
        MoreNodes(nodes, i, kept, gone, prev, current, sink, others);
        DividedStep(nodes, keys, alive, i, kept, gone);
        assert nodes[i] in nodes;
        prev, current := Advance(prev, current, alive, visit, sink, nodes, keys, lambdas, i, kept, gone, others);
        if alive(keys[i]) {
          kept := kept + [nodes[i]];
        } else {
          gone := gone + [nodes[i]];
        }
        i := i + 1;
      }
      NoMoreNodes(nodes, i, kept, gone, prev, sink, others);
      DividedEnd(nodes, keys, alive, kept, gone);
      assert anchor in old(chain) && forall n :: n in kept ==> n in nodes;
    }

    /** Nodes that are deleted go to a list of their own, which is then forgotten. */
    method Delete(key: Object) returns (found: bool, ghost gone: seq<Node>)
      requires Valid()
      modifies this, chain
      ensures Valid() && forall n :: n in chain ==> n in old(chain)
      ensures Nodes() == Select(old(Nodes()), old(KeysOf(Nodes())), OtherThan(key), true)
      ensures gone == Select(old(Nodes()), old(KeysOf(Nodes())), OtherThan(key), false) && AsSet(gone) !! AsSet(chain)
      ensures found <==> key in old(KeysOf(Nodes()))
    {
      hide Linked, Distinct, Select, Visited, AsSet, KeysOf, OtherThan;
      ghost var nodes, keys := Nodes(), KeysOf(Nodes());
      var deleted := new Fifo();
      RemoveDead(OtherThan(key), o => o, deleted);
      found := deleted.anchor.next != null;
      gone := deleted.Nodes();
      GoneApart(deleted);
      deleted.HasNodes();
      NoneOfKey(nodes, keys, key);
    }

    lemma MoreNodes(
      nodes: seq<Node>, i: nat, kept: seq<Node>, gone: seq<Node>, prev: Node, current: Node, sink: Fifo, others: seq<Node>)
      requires Between(nodes, i, kept, gone, prev, current, sink, others)
      ensures i < |nodes| && current == nodes[i]
    {
    }

    lemma NoMoreNodes(
      nodes: seq<Node>, i: nat, kept: seq<Node>, gone: seq<Node>, prev: Node, sink: Fifo, others: seq<Node>)
      requires Between(nodes, i, kept, gone, prev, null, sink, others) && others != []
      ensures i == |nodes| && chain == [anchor] + kept && Nodes() == kept && sink.Nodes() == others[1..] + gone
    {
    }

    lemma HasNodes()
      requires Valid()
      ensures anchor.next != null <==> Nodes() != []
    {
      assert |chain| > 1 ==> chain[0].next == chain[1];
    }

    lemma GoneApart(sink: Fifo)
      requires Apart(sink)
      ensures AsSet(sink.Nodes()) !! AsSet(chain)
    {
      assert forall n :: n in sink.Nodes() ==> n in sink.chain;
    }

    lemma FirstNode(sink: Fifo)
      requires Valid() && sink.Valid()
      ensures Between(Nodes(), 0, [], [], anchor, anchor.next, sink, sink.chain)
      ensures anchor in chain && (forall n :: n in Nodes() ==> n in chain) && Distinct(Nodes())
      ensures sink.chain != [] && sink.Nodes() == sink.chain[1..]
    {
      assert |chain| > 1 ==> chain[0].next == chain[1];
      assert chain == [anchor] + [] + Nodes();
      assert sink.chain + [] == sink.chain;
    }
  }

  lemma {:induction false} SelectNone(nodes: seq<Node>, keys: seq<Object>, alive: Object -> bool)
    requires |nodes| == |keys|
    ensures Select(nodes, keys, alive, false) == [] <==> forall i :: 0 <= i < |keys| ==> alive(keys[i])
  {
    if nodes == [] {
    } else {
      var last := |nodes| - 1;
      SelectNone(nodes[..last], keys[..last], alive);
      assert forall i :: 0 <= i < last ==> keys[..last][i] == keys[i];
    }
  }

  lemma NoneOfKey(nodes: seq<Node>, keys: seq<Object>, key: Object)
    requires |nodes| == |keys|
    ensures Select(nodes, keys, OtherThan(key), false) == [] <==> key !in keys
  {
    hide Select;
    SelectNone(nodes, keys, OtherThan(key));
  }

  lemma {:induction false} SelectParts(nodes: seq<Node>, keys: seq<Object>, alive: Object -> bool)
    requires |nodes| == |keys|
    ensures AsSet(nodes) == AsSet(Select(nodes, keys, alive, true)) + AsSet(Select(nodes, keys, alive, false))
  {
    hide AsSet, Select;
    if nodes == [] {
      SetOfNone(keys, alive);
    } else {
      var last := |nodes| - 1;
      var before, keysBefore := nodes[..last], keys[..last];
      SelectParts(before, keysBefore, alive);
      assert nodes == before + [nodes[last]];
      SetOfSnoc(before, nodes[last]);
      SetOfSnoc(Select(before, keysBefore, alive, alive(keys[last])), nodes[last]);
      SelectSkips(nodes, keys, alive);
    }
  }

  lemma SetOfNone(keys: seq<Object>, alive: Object -> bool)
    requires keys == []
    ensures AsSet([]) == {} && Select([], keys, alive, true) == [] == Select([], keys, alive, false)
  {
  }

  lemma SelectSkips(nodes: seq<Node>, keys: seq<Object>, alive: Object -> bool)
    requires |nodes| == |keys| > 0
    ensures var last := |nodes| - 1; var a := alive(keys[last]);
      && Select(nodes, keys, alive, !a) == Select(nodes[..last], keys[..last], alive, !a)
      && Select(nodes, keys, alive, a) == Select(nodes[..last], keys[..last], alive, a) + [nodes[last]]
  {
  }

  lemma OthersPicked(nodes: seq<Node>, keys: seq<Object>, key: Object)
    requires |nodes| == |keys|
    ensures Picked(Select(nodes, keys, OtherThan(key), true), nodes, keys, o => o != key, true)
  {
    SelectIsPicked(nodes, keys, o => o != key, true);
  }

  function OtherThan(key: Object): Object -> bool
  {
    o => o != key
  }

  ghost function AsSet(nodes: seq<Node>): set<Node>
  {
    set n | n in nodes
  }

  /** Every node that was added is in one list, or finished, and never in two places. */
  ghost predicate Accounted(registered: seq<Node>, runnable: seq<Node>, finished: set<Node>, added: set<Node>)
  {
    && registered != [] && runnable != []
    && added == AsSet(registered[1..]) + AsSet(runnable[1..]) + finished
    && registered[0] !in added && runnable[0] !in added
    && AsSet(registered) !! AsSet(runnable) && AsSet(registered) !! finished && AsSet(runnable) !! finished
  }

  lemma SetOfSnoc(nodes: seq<Node>, n: Node)
    ensures AsSet(nodes + [n]) == AsSet(nodes) + {n}
  {
  }

  lemma AccountedAdd(registered: seq<Node>, runnable: seq<Node>, finished: set<Node>, added: set<Node>, n: Node)
    requires Accounted(registered, runnable, finished, added)
    requires n !in registered && n !in runnable && n !in finished
    ensures Accounted(registered + [n], runnable, finished, added + {n})
    ensures (registered + [n])[1..] == registered[1..] + [n]
  {
    assert (registered + [n])[1..] == registered[1..] + [n];
    SetOfSnoc(registered, n);
    SetOfSnoc(registered[1..], n);
  }

  lemma AccountedNext(registered: seq<Node>, runnable: seq<Node>, finished: set<Node>, added: set<Node>)
    requires Accounted(registered, runnable, finished, added) && |runnable| > 1 && Distinct(runnable)
    ensures Accounted(registered, Without(runnable, 1), finished + {runnable[1]}, added)
    ensures Without(runnable, 1)[1..] == runnable[1..][1..] && runnable[1] !in finished
  {
    var first, rest := runnable[1], runnable[2..];
    assert Without(runnable, 1) == [runnable[0]] + rest;
    assert ([runnable[0]] + rest)[1..] == rest && runnable[1..] == [first] + rest;
    assert AsSet(runnable[1..]) == {first} + AsSet(rest);
    assert AsSet([runnable[0]] + rest) == {runnable[0]} + AsSet(rest);
    assert AsSet(runnable) == {runnable[0]} + AsSet(runnable[1..]);
  }

  lemma AccountedMove(
    registered: seq<Node>, runnable: seq<Node>, finished: set<Node>, added: set<Node>, keys: seq<Object>,
    alive: Object -> bool, shorter: seq<Node>, gone: seq<Node>)
    requires Accounted(registered, runnable, finished, added) && |keys| == |registered| - 1
    requires shorter != [] && shorter[0] == registered[0] && shorter[1..] == Select(registered[1..], keys, alive, true)
    requires gone == Select(registered[1..], keys, alive, false) && AsSet(gone) !! AsSet(shorter)
    ensures Accounted(shorter, runnable + gone, finished, added)
    ensures Accounted(shorter, runnable, finished + AsSet(gone), added)
  {
    hide Select, AsSet;
    SelectParts(registered[1..], keys, alive);
    SetOfConcat(runnable, gone);
    SetOfConcat(runnable[1..], gone);
    SetOfCons(shorter);
    SetOfCons(registered);
    assert (runnable + gone)[1..] == runnable[1..] + gone;
  }

  lemma SetOfCons(nodes: seq<Node>)
    requires nodes != []
    ensures AsSet(nodes) == {nodes[0]} + AsSet(nodes[1..])
  {
    assert nodes == [nodes[0]] + nodes[1..];
  }

  lemma SetOfConcat(a: seq<Node>, b: seq<Node>)
    ensures AsSet(a + b) == AsSet(a) + AsSet(b)
  {
  }

  datatype Added = Registered(node: Node) | OutOfBounds | MallocFailed

  class ObjectHeap {
    const registered: Fifo
    const runnable: Fifo
    ghost var finished: set<Node>  // those that were run, and those that were removed
    ghost var added: set<Node>

    ghost predicate Valid()
      reads this, registered, runnable, registered.chain`next, runnable.chain`next
    {
      && registered.Valid() && runnable.Valid() && registered.Apart(runnable)
      && Accounted(registered.chain, runnable.chain, finished, added)
    }

    constructor ()
      ensures Valid() && registered.Nodes() == [] && runnable.Nodes() == [] && added == {} && finished == {}
    {
      registered := new Fifo();
      runnable := new Fifo();
      finished, added := {}, {};
    }

    /** The primitive: an object has at most one finalizer, and there may be no memory for the
        node. */
    method AddFinalizer(key: Object, lambda: Object, allocates: bool) returns (r: Added)
      requires Valid()
      modifies this, registered, registered.tail`next
      ensures Valid() && finished == old(finished)
      ensures r == OutOfBounds <==> key in old(KeysOf(registered.Nodes()))
      ensures r == MallocFailed <==> key !in old(KeysOf(registered.Nodes())) && !allocates
      ensures r.Registered? ==>
        && fresh(r.node) && r.node.key == key && r.node.lambda == lambda
        && registered.Nodes() == old(registered.Nodes()) + [r.node] && added == old(added) + {r.node}
      ensures !r.Registered? ==> registered.Nodes() == old(registered.Nodes()) && added == old(added)
    {
      hide Linked, Distinct, Accounted, AsSet, KeysOf;
      var found := registered.Contains(key);
      if found {
        return OutOfBounds;
      }
      if !allocates {
        return MallocFailed;
      }
      var node := new Node(key, lambda);
      AccountedAdd(registered.chain, runnable.chain, finished, added, node);
      assert registered.tail in registered.chain;
      registered.Append(node);
      added := added + {node};
      return Registered(node);
    }

    /** During a garbage collection. */
    method ProcessRegisteredFinalizers(alive: Object -> bool, visit: Object -> Object)
      requires Valid()
      modifies registered, registered.chain, runnable, runnable.tail`next
      ensures Valid()
      ensures var nodes, keys := old(registered.Nodes()), old(KeysOf(registered.Nodes()));
        && registered.Nodes() == Select(nodes, keys, alive, true)
        && runnable.Nodes() == old(runnable.Nodes()) + Select(nodes, keys, alive, false)
        && Visited(nodes, keys, old(LambdasOf(registered.Nodes())), alive, visit, |nodes|)
      ensures var nodes, keys := old(registered.Nodes()), old(KeysOf(registered.Nodes()));
        && Picked(registered.Nodes(), nodes, keys, alive, true)
        && old(runnable.Nodes()) <= runnable.Nodes()
        && Picked(runnable.Nodes()[|old(runnable.Nodes())|..], nodes, keys, alive, false)
    {
      hide Linked, Distinct, Select, Visited, Accounted, Picked;
      SelectIsPicked(registered.Nodes(), KeysOf(registered.Nodes()), alive, true);
      SelectIsPicked(registered.Nodes(), KeysOf(registered.Nodes()), alive, false);
      ghost var nodes, keys := registered.Nodes(), KeysOf(registered.Nodes());
      ghost var before, others := registered.chain, runnable.chain;
      registered.RemoveDead(alive, visit, runnable);
      ghost var gone := Select(nodes, keys, alive, false);
      assert runnable.chain == others + gone;
      AccountedMove(before, others, finished, added, keys, alive, registered.chain, gone);
    }

    method RemoveFinalizer(key: Object) returns (found: bool)
      requires Valid()
      modifies this, registered, registered.chain
      ensures Valid() && runnable.Nodes() == old(runnable.Nodes()) && added == old(added)
      ensures registered.Nodes() == Select(old(registered.Nodes()), old(KeysOf(registered.Nodes())), OtherThan(key), true)
      ensures Picked(registered.Nodes(), old(registered.Nodes()), old(KeysOf(registered.Nodes())), o => o != key, true)
      ensures found <==> key in old(KeysOf(registered.Nodes()))
    {
      hide Linked, Distinct, Select, Accounted, AsSet, OtherThan;
      OthersPicked(registered.Nodes(), KeysOf(registered.Nodes()), key);
      ghost var keys, before := KeysOf(registered.Nodes()), registered.chain;
      ghost var gone;
      found, gone := registered.Delete(key);
      assert forall n :: n in runnable.chain ==> n !in old(registered.chain) && n.next == old(n.next);
      AccountedMove(before, runnable.chain, finished, added, keys, OtherThan(key), registered.chain, gone);
      finished := finished + AsSet(gone);
    }

    /** The finalizers run in the order in which they became runnable, each once. */
    method NextFinalizerToRun() returns (lambda: Object)
      requires Valid()
      modifies this, runnable, runnable.chain`next
      ensures Valid() && registered.Nodes() == old(registered.Nodes()) && added == old(added)
      ensures old(runnable.Nodes()) == [] ==> lambda == NULL_OBJECT && runnable.Nodes() == [] && finished == old(finished)
      ensures old(runnable.Nodes()) != [] ==>
        && lambda == old(runnable.Nodes()[0].lambda) && runnable.Nodes() == old(runnable.Nodes())[1..]
        && old(runnable.Nodes())[0] !in old(finished) && finished == old(finished) + {old(runnable.Nodes())[0]}
    {
      hide Linked, Accounted, AsSet;
      if |runnable.chain| > 1 {
        AccountedNext(registered.chain, runnable.chain, finished, added);
        WithoutDistinct(runnable.chain, 1);
      }
      var node := runnable.RemoveFirst();
      assert forall n :: n in registered.chain ==> n !in old(runnable.chain) && n.next == old(n.next);
      if node == null {
        return NULL_OBJECT;
      }
      finished := finished + {node};
      return node.lambda;
    }
  }
}
