/**
  Optimistic sorted linked-list set (optimistic_list.h).

  The list runs from a head sentinel holding `ElementTraits::Min()` to a tail sentinel
  holding `ElementTraits::Max()`; the elements in between are strictly increasing.
  `Locate` walks without locks, then `Insert` and `Remove` lock the two nodes it found
  and `Validate` them, retrying from scratch when the check fails. The spin locks and
  atomics are not modelled: one thread works on plain fields, so `Validate` holds on
  whatever `Locate` returns (its postcondition says so) and the retry is never taken;
  `Insert` and `Remove` are therefore written as one pass. The element type is 64-bit
  signed integers, whose minimum and maximum are the sentinels.

  The ghost sequence `chain` is the list as reached from `head`, sentinels included.
*/
module OptimisticLists {

  /** `std::numeric_limits<int64_t>::min()` and `max()`: the two sentinels. */
  const MIN: int := -0x8000_0000_0000_0000
  const MAX: int := 0x7fff_ffff_ffff_ffff

  type Elem = x: int | MIN <= x <= MAX

  /** `std::numeric_limits<size_t>::max()`: what `--size_` on a zero size wraps around to. */
  const SIZE_MAX: nat := 0xffff_ffff_ffff_ffff

  /** `Node`: the element is fixed at allocation; `next` and `marked` change. */
  class Node {
    const element: Elem
    var next: Node?
    /** Set when the node is unlinked by `Remove`. */
    var marked: bool

    constructor (element: Elem, next: Node? := null)
      ensures this.element == element && this.next == next && !marked
    {
      this.element := element;
      this.next := next;
      marked := false;
    }
  }

  /** `Edge`: a node and the node `Locate` reached after it. */
  datatype Edge = Edge(pred: Node, curr: Node)

  /**
    Past the head sentinel, the elements strictly increase. The head is left out because
    the minimum is itself a value an element may take: `Insert(Min())` links a node
    holding it right after the head sentinel, which holds it too.
  */
  ghost predicate Increasing(nodes: seq<Node>)
  {
    forall i, j :: 0 < i < j < |nodes| ==> nodes[i].element < nodes[j].element
  }

  ghost predicate Distinct(nodes: seq<Node>)
  {
    forall i, j :: 0 <= i < j < |nodes| ==> nodes[i] != nodes[j]
  }

  /** Each node links to the next one, and the last to nothing. */
  ghost predicate Linked(nodes: seq<Node>)
    reads nodes
  {
    && (|nodes| >= 1 ==> nodes[|nodes| - 1].next == null)
    && (forall k :: 0 <= k < |nodes| - 1 ==> nodes[k].next == nodes[k + 1])
  }

  ghost predicate Unmarked(nodes: seq<Node>)
    reads nodes
  {
    forall k :: 0 <= k < |nodes| ==> !nodes[k].marked
  }

  /** The elements held by a run of nodes. */
  ghost function Values(nodes: seq<Node>): set<Elem>
  {
    if nodes == [] then {} else {nodes[0].element} + Values(nodes[1..])
  }

  /** An element is held exactly when some node of the run holds it. */
  lemma {:induction false} ValuesHas(nodes: seq<Node>, x: Elem)
    ensures x in Values(nodes) <==> exists k :: 0 <= k < |nodes| && nodes[k].element == x
  {
    if nodes != [] {
      ValuesHas(nodes[1..], x);
      if x in Values(nodes[1..]) {
        var k :| 0 <= k < |nodes| - 1 && nodes[1..][k].element == x;
        assert nodes[k + 1].element == x;
      }
      if exists k :: 0 <= k < |nodes| && nodes[k].element == x {
        var k :| 0 <= k < |nodes| && nodes[k].element == x;
        if k > 0 {
          assert nodes[1..][k - 1].element == x;
        }
      }
    }
  }

  lemma {:induction false} ValuesConcat(a: seq<Node>, b: seq<Node>)
    ensures Values(a + b) == Values(a) + Values(b)
  {
    if a != [] {
      ValuesConcat(a[1..], b);
      assert (a + b)[1..] == a[1..] + b;
    } else {
      assert a + b == b;
    }
  }

  /** Strictly increasing nodes hold as many distinct elements as there are nodes. */
  lemma {:induction false} ValuesCount(nodes: seq<Node>)
    requires forall i, j :: 0 <= i < j < |nodes| ==> nodes[i].element < nodes[j].element
    ensures |Values(nodes)| == |nodes|
  {
    if nodes != [] {
      ValuesCount(nodes[1..]);
      ValuesHas(nodes[1..], nodes[0].element);
    }
  }

  /** `nodes` with `node` placed at position `j`. */
  function Inserted(nodes: seq<Node>, j: nat, node: Node): (r: seq<Node>)
    requires j <= |nodes|
    ensures |r| == |nodes| + 1 && r[j] == node
  {
    nodes[..j] + [node] + nodes[j..]
  }

  /** `nodes` without the node at position `j`. */
  function Removed(nodes: seq<Node>, j: nat): (r: seq<Node>)
    requires j < |nodes|
    ensures |r| == |nodes| - 1
  {
    nodes[..j] + nodes[j + 1..]
  }

  /** Placing a node of `repr` among nodes of `repr` gives nodes of `repr`. */
  lemma ReprIn(before: seq<Node>, j: nat, node: Node, after: seq<Node>, repr: set<object>)
    requires j <= |before| && after == Inserted(before, j, node)
    requires (forall n :: n in before ==> n in repr) && node in repr
    ensures forall n :: n in after ==> n in repr
  {
    forall n | n in after
      ensures n in repr
    {
      if n != node {
        assert n in before[..j] || n in before[j..];
      }
    }
  }

  /** Dropping a node keeps the rest among the nodes of `repr`. */
  lemma ReprOut(before: seq<Node>, j: nat, after: seq<Node>, repr: set<object>)
    requires j < |before| && after == Removed(before, j)
    requires forall n :: n in before ==> n in repr
    ensures forall n :: n in after ==> n in repr
  {
    forall n | n in after
      ensures n in repr
    {
      assert n in before[..j] || n in before[j + 1..];
    }
  }

  /** Linking `node` in between positions `j - 1` and `j` keeps the nodes linked in order. */
  lemma LinkIn(before: seq<Node>, j: nat, node: Node, after: seq<Node>)
    requires 1 <= j < |before| && before[|before| - 1].next == null
    requires after == Inserted(before, j, node)
    requires forall k :: 0 <= k < |before| - 1 && k != j - 1 ==> before[k].next == before[k + 1]
    requires before[j - 1].next == node && node.next == before[j]
    ensures Linked(after)
  {
    forall k | 0 <= k < |after| - 1
      ensures after[k].next == after[k + 1]
    {
      if k < j - 1 {
        assert after[k] == before[k] && after[k + 1] == before[k + 1];
      } else if k > j {
        assert after[k] == before[k - 1] && after[k + 1] == before[k];
      }
    }
  }

  /** A new element strictly between its neighbours keeps the order and the nodes distinct. */
  lemma OrderIn(before: seq<Node>, j: nat, node: Node, after: seq<Node>)
    requires 1 <= j < |before| && Increasing(before) && Distinct(before) && node !in before
    requires after == Inserted(before, j, node)
    requires j == 1 || before[j - 1].element < node.element
    requires node.element < before[j].element
    ensures Increasing(after) && Distinct(after)
  {
    forall a, b | 0 < a < b < |after|
      ensures after[a].element < after[b].element
    {
      if a < j && b > j {
        assert after[a].element <= before[j - 1].element;
      }
    }
  }

  /** Placing a node strictly inside keeps the first and the last node. */
  lemma KeepIn(before: seq<Node>, j: nat, node: Node, after: seq<Node>)
    requires 1 <= j < |before|
    requires after == Inserted(before, j, node)
    ensures after[0] == before[0]
    ensures after[|after| - 1] == before[|before| - 1]
  {
  }

  /** Placing an unmarked node among unmarked ones leaves no node marked. */
  lemma UnmarkedIn(before: seq<Node>, j: nat, node: Node, after: seq<Node>)
    requires j <= |before| && Unmarked(before) && !node.marked
    requires after == Inserted(before, j, node)
    ensures Unmarked(after)
  {
    forall k | 0 <= k < |after|
      ensures !after[k].marked
    {
      if k < j {
        assert after[k] == before[k];
      } else if k > j {
        assert after[k] == before[k - 1];
      }
    }
  }

  /** Linking a node in between the sentinels adds its element to those between them. */
  lemma ValuesIn(before: seq<Node>, j: nat, node: Node, after: seq<Node>)
    requires 1 <= j < |before|
    requires after == Inserted(before, j, node)
    ensures Values(after[1..|after| - 1]) == Values(before[1..|before| - 1]) + {node.element}
  {
    assert after[1..|after| - 1] == before[1..j] + [node] + before[j..|before| - 1];
    assert before[1..|before| - 1] == before[1..j] + before[j..|before| - 1];
    ValuesConcat(before[1..j] + [node], before[j..|before| - 1]);
    ValuesConcat(before[1..j], [node]);
    ValuesConcat(before[1..j], before[j..|before| - 1]);
    assert Values([node]) == {node.element} by {
      assert [node][1..] == [];
    }
  }

  /** Unlinking the node at position `j` keeps the remaining nodes linked in order. */
  lemma LinkOut(before: seq<Node>, j: nat, after: seq<Node>)
    requires 1 <= j < |before| - 1 && before[|before| - 1].next == null
    requires after == Removed(before, j)
    requires forall k :: 0 <= k < |before| - 1 && k != j - 1 && k != j ==> before[k].next == before[k + 1]
    requires before[j - 1].next == before[j + 1]
    ensures Linked(after)
  {
    forall k | 0 <= k < |after| - 1
      ensures after[k].next == after[k + 1]
    {
      if k < j - 1 {
        assert after[k] == before[k] && after[k + 1] == before[k + 1];
      } else if k >= j {
        assert after[k] == before[k + 1] && after[k + 1] == before[k + 2];
      }
    }
  }

  /** Dropping a node strictly inside keeps the first and the last node. */
  lemma KeepOut(before: seq<Node>, j: nat, after: seq<Node>)
    requires 1 <= j < |before| - 1
    requires after == Removed(before, j)
    ensures after[0] == before[0]
    ensures after[|after| - 1] == before[|before| - 1]
  {
  }

  /** Dropping the only marked node leaves no node marked. */
  lemma UnmarkedOut(before: seq<Node>, j: nat, after: seq<Node>)
    requires j < |before|
    requires after == Removed(before, j)
    requires forall k :: 0 <= k < |before| && k != j ==> !before[k].marked
    ensures Unmarked(after)
  {
    forall k | 0 <= k < |after|
      ensures !after[k].marked
    {
      assert after[k] == before[if k < j then k else k + 1];
    }
  }

  /** Unlinking a node keeps the order and the nodes distinct. */
  lemma OrderOut(before: seq<Node>, j: nat, after: seq<Node>)
    requires 1 <= j < |before| && Increasing(before) && Distinct(before)
    requires after == Removed(before, j)
    ensures Increasing(after) && Distinct(after)
  {
  }

  /** Unlinking a node between the sentinels removes its element from those between them. */
  lemma ValuesOut(before: seq<Node>, j: nat, after: seq<Node>)
    requires 1 <= j < |before| - 1 && Increasing(before)
    requires after == Removed(before, j)
    ensures Values(after[1..|after| - 1]) == Values(before[1..|before| - 1]) - {before[j].element}
  {
    var rest := before[1..j] + before[j + 1..|before| - 1];
    assert after[1..|after| - 1] == rest;
    assert before[1..|before| - 1] == before[1..j] + [before[j]] + before[j + 1..|before| - 1];
    ValuesConcat(before[1..j] + [before[j]], before[j + 1..|before| - 1]);
    ValuesConcat(before[1..j], [before[j]]);
    ValuesConcat(before[1..j], before[j + 1..|before| - 1]);
    assert Values([before[j]]) == {before[j].element} by {
      assert [before[j]][1..] == [];
    }
    ValuesHas(before[1..j], before[j].element);
    ValuesHas(before[j + 1..|before| - 1], before[j].element);
    var front, back := before[1..j], before[j + 1..|before| - 1];
    forall k | 0 <= k < |front|
      ensures front[k].element != before[j].element
    {
      assert front[k] == before[k + 1];
    }
    forall k | 0 <= k < |back|
      ensures back[k].element != before[j].element
    {
      assert back[k] == before[k + j + 1];
    }
  }

  class OptimisticLinkedSet {
    /** `head_`: the head sentinel. */
    var head: Node?
    /** `size_` */
    var size: nat
    /** The nodes reachable from `head`, in list order, both sentinels included. */
    ghost var chain: seq<Node>
    /** Every node the set has allocated, unlinked ones included: the arena's nodes. */
    ghost var Repr: set<object>

    /**
      The list's invariant: `chain` starts at `head` with the minimum and ends at a tail
      holding the maximum, each node links to the next, none is marked, the elements past
      the head strictly increase, and `size` counts the nodes between the sentinels.
      Every node of the list is one the set allocated.
    */
    ghost predicate Valid()
      reads this, Repr
    {
      && (forall n :: n in chain ==> n in Repr)
      && |chain| >= 2
      && head == chain[0]
      && chain[0].element == MIN
      && chain[|chain| - 1].element == MAX
      && Linked(chain)
      && Unmarked(chain)
      && Increasing(chain)
      && Distinct(chain)
      && size == |chain| - 2
    }

    /** The lists elements: those of the nodes between the sentinels. */
    ghost function Elements(): set<Elem>
      reads this
      requires |chain| >= 2
    {
      Values(chain[1..|chain| - 1])
    }

    constructor ()
      ensures Valid() && Elements() == {} && size == 0
      ensures fresh(Repr)
    {
      head := null;
      size := 0;
      chain := [];
      Repr := {};
      new;
      CreateEmptyList();
    }

    /** `CreateEmptyList`: links a fresh head sentinel to a fresh tail sentinel. */
    method CreateEmptyList()
      requires size == 0
      modifies this
      ensures Valid() && Elements() == {} && size == 0
      ensures fresh(head) && fresh(head.next) && Repr == {head, head.next}
    {
      head := new Node(MIN);
      var tail := new Node(MAX);
      head.next := tail;
      chain := [head, tail];
      Repr := {head, tail};
    }

    /** `Validate`: both nodes are unmarked and still linked to each other. */
    predicate Validate(edge: Edge)
      reads edge.pred, edge.curr
    {
      !edge.pred.marked && !edge.curr.marked && edge.pred.next == edge.curr
    }

    /** On a valid list, `Validate` holds exactly for two adjacent nodes of the list. */
    lemma ValidateIffAdjacent(edge: Edge, i: nat)
      requires Valid() && i < |chain| && edge.pred == chain[i]
      ensures Validate(edge) <==> i + 1 < |chain| && edge.curr == chain[i + 1]
    {
    }

    /**
      `Locate`: walks from the head to the first node whose element is not below `element`,
      returning that node and its predecessor. The ghost `i` is the predecessor's position.
    */
    method Locate(element: Elem) returns (edge: Edge, ghost i: nat)
      requires Valid()
      ensures i + 1 < |chain| && edge.pred == chain[i] && edge.curr == chain[i + 1]
      ensures element <= edge.curr.element
      ensures forall k :: 0 < k <= i ==> chain[k].element < element
      ensures Validate(edge)
    {
      assert chain[0].next == chain[1];
      edge := Edge(head, head.next);
      i := 0;
      while edge.curr.element < element
        invariant i + 1 < |chain| && edge.pred == chain[i] && edge.curr == chain[i + 1]
        invariant forall k :: 0 < k <= i ==> chain[k].element < element
        decreases |chain| - i
      {
        assert i + 2 < |chain| && chain[i + 1].next == chain[i + 2];
        edge := Edge(edge.curr, edge.curr.next);
        i := i + 1;
      }
    }

    /** An element lies in the list exactly where `Locate` stops. */
    lemma LocatedIsOnly(element: Elem, i: nat)
      requires Valid() && i + 1 < |chain|
      requires element <= chain[i + 1].element
      requires forall k :: 0 < k <= i ==> chain[k].element < element
      ensures element in Elements() <==> chain[i + 1].element == element && i + 2 < |chain|
    {
      var inner := chain[1..|chain| - 1];
      ValuesHas(inner, element);
      if element in Elements() {
        var k :| 0 <= k < |inner| && inner[k].element == element;
        assert chain[k + 1].element == element;
        assert !(k + 1 <= i);
        assert !(i < k);
      }
      if chain[i + 1].element == element && i + 2 < |chain| {
        assert inner[i] == chain[i + 1];
      }
    }

    /** The maximum, held by the tail sentinel, is never an element. */
    lemma MaxIsNoElement()
      requires Valid()
      ensures MAX !in Elements()
    {
      var inner := chain[1..|chain| - 1];
      ValuesHas(inner, MAX);
      forall k | 0 <= k < |inner|
        ensures inner[k].element < MAX
      {
        assert inner[k] == chain[k + 1];
      }
    }

    /**
      `Insert`: an element already present, or the maximum (which `Locate` matches to the
      tail sentinel), leaves the list as it was and reports false; otherwise a new node is
      linked between the two nodes `Locate` found.
    */
    method Insert(element: Elem) returns (inserted: bool)
      requires Valid()
      modifies this, Repr
      ensures Valid()
      ensures inserted <==> element !in old(Elements()) && element != MAX
      ensures Elements() == if inserted then old(Elements()) + {element} else old(Elements())
      ensures size == old(size) + (if inserted then 1 else 0)
      ensures !inserted ==> chain == old(chain)
      ensures inserted ==> exists j :: 0 < j < |old(chain)| && chain == Inserted(old(chain), j, chain[j]) && fresh(chain[j])
      ensures !inserted ==> Repr == old(Repr)
      ensures old(Repr) <= Repr && fresh(Repr - old(Repr))
      ensures forall n: Node :: n in old(Repr) ==> n.marked == old(n.marked)
    {
      var edge;
      ghost var i: nat;
      edge, i := Locate(element);
      LocatedIsOnly(element, i);
      if edge.curr.element == element {
        return false;
      }
      LinkAfter(edge, i, element);
      inserted := true;
    }

    /**
      The locked step of `Insert`: a fresh node holding `element` is linked between the
      adjacent nodes of `edge`, between whose elements `element` lies.
    */
    method LinkAfter(edge: Edge, ghost i: nat, element: Elem)
      requires Valid() && i + 1 < |chain| && edge.pred == chain[i] && edge.curr == chain[i + 1]
      requires i == 0 || edge.pred.element < element
      requires element < edge.curr.element
      modifies this, edge.pred
      ensures Valid()
      ensures Elements() == old(Elements()) + {element} && size == old(size) + 1
      ensures chain == Inserted(old(chain), i + 1, chain[i + 1])
      ensures fresh(chain[i + 1]) && Repr == old(Repr) + {chain[i + 1]}
      ensures forall n: Node :: n in old(Repr) ==> n.marked == old(n.marked)
    {
      ghost var before := chain;
      var node := new Node(element, edge.curr);
      edge.pred.next := node;
      size := size + 1;
      chain := Inserted(before, i + 1, node);
      Repr := Repr + {node};
      LinkedValid(before, i, node);
    }

    /** The state `LinkAfter` leaves behind satisfies the invariant. */
    lemma LinkedValid(before: seq<Node>, i: nat, node: Node)
      requires i + 1 < |before| && chain == Inserted(before, i + 1, node) && node !in before
      requires (forall n :: n in before ==> n in Repr) && node in Repr
      requires head == before[0] && before[0].element == MIN && before[|before| - 1].element == MAX
      requires Increasing(before) && Distinct(before) && size == |before| - 1
      requires i == 0 || before[i].element < node.element
      requires node.element < before[i + 1].element
      requires before[|before| - 1].next == null && before[i].next == node && node.next == before[i + 1]
      requires forall k :: 0 <= k < |before| - 1 && k != i ==> before[k].next == before[k + 1]
      requires forall k :: 0 <= k < |before| ==> !before[k].marked
      requires !node.marked
      ensures Valid()
      ensures Elements() == Values(before[1..|before| - 1]) + {node.element}
    {
      ReprIn(before, i + 1, node, chain, Repr);
      ValuesIn(before, i + 1, node, chain);
      OrderIn(before, i + 1, node, chain);
      LinkIn(before, i + 1, node, chain);
      KeepIn(before, i + 1, node, chain);
      UnmarkedIn(before, i + 1, node, chain);
    }

    /**
      `Remove`: an absent element leaves the list as it was and reports false; a present one
      has its node marked and unlinked from its predecessor. The maximum is the tail
      sentinel, never an element, so removing it reports false; `RemoveAsWritten` shows
      what happens without that check.
    */
    method Remove(element: Elem) returns (removed: bool)
      requires Valid()
      modifies this, Repr
      ensures Valid() && Repr == old(Repr)
      ensures removed <==> element in old(Elements())
      ensures Elements() == old(Elements()) - {element}
      ensures size == old(size) - (if removed then 1 else 0)
      ensures !removed ==> chain == old(chain)
      ensures removed ==> exists j :: 0 < j < |old(chain)| - 1 && chain == Removed(old(chain), j) && old(chain)[j].marked
      ensures forall n: Node :: n in old(Repr) && old(n.marked) ==> n.marked
      ensures forall n: Node :: n in old(Repr) && n.marked && !old(n.marked) ==> removed && n.element == element
    {
      if element == MAX {
        MaxIsNoElement();
        return false;
      }
      var edge;
      ghost var i: nat;
      edge, i := Locate(element);
      LocatedIsOnly(element, i);
      if edge.curr.element != element {
        return false;
      }
      Unlink(edge, i);
      removed := true;
    }

    /**
      `Remove` as the source writes it, with `size_` a wrapping `size_t`: the only check
      is that the located node holds `element`. For the maximum, `Locate` stops at the
      tail sentinel, which holds it, so the tail is marked and cut off (its predecessor
      now links to nothing) and the call reports true; on an empty set `head_->next_`
      becomes null and `size_` wraps around to `SIZE_MAX`.
    */
    method RemoveAsWritten(element: Elem) returns (removed: bool)
      requires Valid()
      modifies this, Repr
      ensures Repr == old(Repr) && chain == old(chain) && head == old(head) && |chain| >= 2 && head == chain[0]
      ensures element == MAX ==> removed && chain[|chain| - 1].marked && chain[|chain| - 2].next == null
      ensures element == MAX && old(size) == 0 ==> head.next == null && size == SIZE_MAX
      ensures forall n: Node :: n in old(Repr) && old(n.marked) ==> n.marked
    {
      var edge;
      ghost var i: nat;
      edge, i := Locate(element);
      if edge.curr.element != element {
        return false;
      }
      if element == MAX {
        assert i + 1 == |chain| - 1;
      }
      edge.curr.marked := true;
      edge.pred.next := edge.curr.next;
      size := if size == 0 then SIZE_MAX else size - 1;
      removed := true;
    }

    /**
      The locked step of `Remove`: the node after `edge.pred` is marked and unlinked by
      pointing its predecessor past it.
    */
    method Unlink(edge: Edge, ghost i: nat)
      requires Valid() && i + 2 < |chain| && edge.pred == chain[i] && edge.curr == chain[i + 1]
      modifies this, edge.pred, edge.curr
      ensures Valid()
      ensures Elements() == old(Elements()) - {edge.curr.element} && size == old(size) - 1
      ensures chain == Removed(old(chain), i + 1) && edge.curr.marked
      ensures Repr == old(Repr)
      ensures forall n: Node :: n in old(Repr) && n != edge.curr ==> n.marked == old(n.marked)
    {
      ghost var before := chain;
      edge.curr.marked := true;
      edge.pred.next := edge.curr.next;
      size := size - 1;
      chain := Removed(before, i + 1);
      UnlinkedValid(before, i);
    }

    /** The state `Unlink` leaves behind satisfies the invariant. */
    lemma UnlinkedValid(before: seq<Node>, i: nat)
      requires i + 2 < |before| && chain == Removed(before, i + 1)
      requires forall n :: n in before ==> n in Repr
      requires head == before[0] && before[0].element == MIN && before[|before| - 1].element == MAX
      requires Increasing(before) && Distinct(before) && size == |before| - 3
      requires before[|before| - 1].next == null && before[i].next == before[i + 2]
      requires forall k :: 0 <= k < |before| - 1 && k != i && k != i + 1 ==> before[k].next == before[k + 1]
      requires forall k :: 0 <= k < |before| && k != i + 1 ==> !before[k].marked
      ensures Valid()
      ensures Elements() == Values(before[1..|before| - 1]) - {before[i + 1].element}
    {
      ReprOut(before, i + 1, chain, Repr);
      ValuesOut(before, i + 1, chain);
      OrderOut(before, i + 1, chain);
      LinkOut(before, i + 1, chain);
      KeepOut(before, i + 1, chain);
      UnmarkedOut(before, i + 1, chain);
    }

    /**
      `Contains`: reports whether `element` is in the set. The maximum is the tail
      sentinel, never an element, so it is reported absent; `ContainsAsWritten` shows
      what happens without that check.
    */
    method Contains(element: Elem) returns (r: bool)
      requires Valid()
      ensures r <==> element in Elements()
    {
      if element == MAX {
        MaxIsNoElement();
        return false;
      }
      var edge;
      ghost var i;
      edge, i := Locate(element);
      LocatedIsOnly(element, i);
      r := edge.curr.element == element && !edge.curr.marked;
    }

    /**
      `Contains` as the source writes it: the located node holds the element and is
      unmarked. For the maximum, `Locate` stops at the tail sentinel, which holds it,
      so the maximum is reported present although it is never an element.
    */
    method ContainsAsWritten(element: Elem) returns (r: bool)
      requires Valid()
      ensures r <==> element in Elements() || element == MAX
    {
      var edge;
      ghost var i;
      edge, i := Locate(element);
      LocatedIsOnly(element, i);
      r := edge.curr.element == element && !edge.curr.marked;
    }

    /** `Size`: the number of elements. */
    method Size() returns (r: nat)
      requires Valid()
      ensures r == |Elements()|
    {
      ValuesCount(chain[1..|chain| - 1]);
      r := size;
    }
  }

  /**
    On a new set, inserting an element twice succeeds the first time only, and so does
    removing it twice afterwards; the maximum, being the tail sentinel, is never inserted.
  */
  method InsertTwiceRemoveTwice(element: Elem) returns (first: bool, second: bool, third: bool, fourth: bool)
    ensures first <==> element != MAX
    ensures !second
    ensures third <==> element != MAX
    ensures !fourth
  {
    var list := new OptimisticLinkedSet();
    first := list.Insert(element);
    second := list.Insert(element);
    third := list.Remove(element);
    fourth := list.Remove(element);
  }

  /** On a new, empty set, `Contains` as written reports the maximum present; the corrected one does not. */
  method MaxOnNewSet() returns (asWritten: bool, corrected: bool)
    ensures asWritten && !corrected
  {
    var list := new OptimisticLinkedSet();
    asWritten := list.ContainsAsWritten(MAX);
    corrected := list.Contains(MAX);
  }

  /**
    The minimum, which the head sentinel holds, is an ordinary element: on a new set it
    is inserted, then found, then removed.
  */
  method MinIsAnElement() returns (inserted: bool, present: bool, removed: bool)
    ensures inserted && present && removed
  {
    var list := new OptimisticLinkedSet();
    inserted := list.Insert(MIN);
    present := list.Contains(MIN);
    removed := list.Remove(MIN);
  }
}
