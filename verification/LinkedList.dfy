/** The circular list of dstruct/linkedlist/linkedlist.c: nodes on the heap, linked both ways in one
    cycle through the head. */
module LinkedList {
  import opened Division

  const ERR_CHECKPARAM := 1
  const ERR_LOCK := 4

  class Node {
    var pre: Node?
    var next: Node?

    constructor ()
    {
      pre, next := null, null;
    }
  }

  /** The place after i in a cycle of n. */
  function Succ(i: nat, n: nat): nat
    requires i < n
  {
    if i + 1 == n then 0 else i + 1
  }

  /** next and pre are mutually inverse along the cycle. */
  ghost predicate Cycle(ring: seq<Node>)
    reads ring
  {
    forall i :: 0 <= i < |ring| ==>
      ring[i].next == ring[Succ(i, |ring|)] && ring[Succ(i, |ring|)].pre == ring[i]
  }

  ghost predicate Distinct(ring: seq<Node>) {
    forall i, j :: 0 <= i < j < |ring| ==> ring[i] != ring[j]
  }

  /** Where index steps lead in a cycle of n, backwards when negative. */
  function Place(index: int, n: nat): (k: nat)
    requires n > 0
    ensures k < n
  {
    index % n
  }

  /** An index in range names its position from the front or, when negative, from the back; any other
      is wrapped round the cycle. */
  lemma PlaceIs(index: int, count: nat)
    ensures Place(index, count + 1) == index <==> 0 <= index <= count
    ensures index < 0 ==> (Place(index, count + 1) == count + 1 + index <==> -index <= count + 1)
  {
  }

  lemma PlaceNext(i: int, n: nat)
    requires n > 0
    ensures Place(i + 1, n) == Succ(Place(i, n), n)
  {
    var q, r := i / n, i % n;
    if r + 1 == n {
      assert i + 1 == n * q + n == n * (q + 1);
      Quotient(i + 1, n, q + 1, 0);
    } else {
      Quotient(i + 1, n, q, r + 1);
    }
  }

  lemma DistinctInsert(ring: seq<Node>, k: nat, node: Node)
    requires k <= |ring| && Distinct(ring) && node !in ring
    ensures Distinct(ring[..k] + [node] + ring[k..])
  {
  }

  lemma DistinctRemove(ring: seq<Node>, k: nat)
    requires k < |ring| && Distinct(ring)
    ensures Distinct(ring[..k] + ring[k + 1..]) && ring[k] !in ring[..k] + ring[k + 1..]
  {
  }

  class List {
    const head: Node
    var nodeCount: int
    ghost var nodes: seq<Node>

    ghost function Ring(): seq<Node>
      reads this
    {
      [head] + nodes
    }

    ghost predicate Valid()
      reads this, head, nodes
    {
      Distinct(Ring()) && Cycle(Ring()) && nodeCount == |nodes|
    }

    /** init_linkedlist */
    constructor ()
      ensures Valid() && nodes == [] && fresh(head)
    {
      head := new Node();
      nodeCount, nodes := 0, [];
      new;
      head.next := head;
      head.pre := head;
    }

    /** The walk from the head by as many steps as the index says. */
    method Walk(index0: int) returns (p: Node)
      requires Valid()
      ensures p == Ring()[Place(index0, |Ring()|)]
    {
      hide Place, Distinct;
      PlaceNone(|Ring()|);
      p := head;
      var index := index0;
      if index > 0 {
        while index > 0
          invariant index >= 0 && p == Ring()[Place(index0 - index, |Ring()|)]
        {
          PlaceNext(index0 - index, |Ring()|);
          p := p.next;
          index := index - 1;
        }
      } else if index < 0 {
        while index < 0
          invariant index <= 0 && p == Ring()[Place(index0 - index, |Ring()|)]
        {
          PlaceNext(index0 - index - 1, |Ring()|);
          assert Ring()[Place(index0 - index - 1, |Ring()|)].next == p;
          p := p.pre;
          index := index + 1;
        }
      }
    }

    /** pnode --- node */
    method Link(p: Node, node: Node, ghost k: nat)
      requires Valid() && k < |Ring()| && p == Ring()[k] && node !in Ring()
      modifies this`nodeCount, this`nodes, head, nodes, node
      ensures Valid() && nodes == old(nodes[..k] + [node] + nodes[k..])
    {
      ghost var was := Ring();
      DistinctInsert(was, k + 1, node);
      Splice(p, node, was, k);
      nodeCount := nodeCount + 1;
      nodes := nodes[..k] + [node] + nodes[k..];
      assert Ring() == was[..k + 1] + [node] + was[k + 1..];
    }

    static method Splice(p: Node, node: Node, ghost was: seq<Node>, ghost k: nat)
      requires k < |was| && p == was[k] && Cycle(was) && Distinct(was) && node !in was
      modifies was, node
      ensures Cycle(was[..k + 1] + [node] + was[k + 1..])
    {
      ghost var ring, n := was[..k + 1] + [node] + was[k + 1..], |was|;
      assert p.next == was[Succ(k, n)];
      node.next := p.next;
      p.next.pre := node;
      p.next := node;
      node.pre := p;
      forall i | 0 <= i < n + 1
        ensures ring[i].next == ring[Succ(i, n + 1)] && ring[Succ(i, n + 1)].pre == ring[i]
      {
        if i < k {
          assert ring[i] == was[i] && ring[i + 1] == was[i + 1] && was[i + 1] != was[Succ(k, n)];
        } else if i > k + 1 {
          assert ring[i] == was[i - 1] && ring[Succ(i, n + 1)] == was[Succ(i - 1, n)];
        }
      }
    }

    /** insert_lknode. seen is the node count when the index was tested, before the lock was taken; by
        then it may have changed, and the walk goes round the cycle that is there. */
    method InsertLkNode(node: Node?, index: int, seen: int, lock1: bool, lock2: bool) returns (r: int)
      requires Valid() && node !in Ring()
      modifies this`nodeCount, this`nodes, head, nodes, node
      ensures Valid()
      ensures r == if node == null || index > seen || -index > seen then -ERR_CHECKPARAM
                   else if !lock1 && !lock2 then -ERR_LOCK else 0
      ensures nodes == if r == 0 then InsertAt(old(nodes), index, node) else old(nodes)
    {
      if node == null {
        return -ERR_CHECKPARAM;
      }
      if index > seen || -index > seen {
        return -ERR_CHECKPARAM;
      }
      if !lock1 && !lock2 {
        return -ERR_LOCK;
      }
      var p := Walk(index);
      Link(p, node, Place(index, |Ring()|));
      r := 0;
    }

    method InsertHead(node: Node?, seen: int, lock1: bool, lock2: bool) returns (r: int)
      requires Valid() && node !in Ring() && seen >= 0
      modifies this`nodeCount, this`nodes, head, nodes, node
      ensures Valid()
      ensures r == if node == null then -ERR_CHECKPARAM else if !lock1 && !lock2 then -ERR_LOCK else 0
      ensures nodes == if r == 0 then [node] + old(nodes) else old(nodes)
    {
      if node == null {
        return -ERR_CHECKPARAM;
      }
      PlaceNone(|Ring()|);
      r := InsertLkNode(node, 0, seen, lock1, lock2);
    }

    method InsertTail(node: Node?, lock1: bool, lock2: bool) returns (r: int)
      requires Valid() && node !in Ring()
      modifies this`nodeCount, this`nodes, head, nodes, node
      ensures Valid()
      ensures r == if node == null then -ERR_CHECKPARAM else if !lock1 && !lock2 then -ERR_LOCK else 0
      ensures nodes == if r == 0 then old(nodes) + [node] else old(nodes)
    {
      if node == null {
        return -ERR_CHECKPARAM;
      }
      if !lock1 && !lock2 {
        return -ERR_LOCK;
      }
      assert Succ(|nodes|, |Ring()|) == 0 && Ring()[0].pre == Ring()[|nodes|];
      assert nodes[..|nodes|] == nodes && nodes[|nodes|..] == [];
      Link(head.pre, node, |nodes|);
      r := 0;
    }

    /** remove_lknode: here the count is tested under the lock. */
    method RemoveLkNode(index: int, lock1: bool, lock2: bool) returns (r: int, node: Node?)
      requires Valid()
      modifies this`nodeCount, this`nodes, head, nodes
      ensures Valid()
      ensures r == if index == 0 then -ERR_CHECKPARAM else if !lock1 && !lock2 then -ERR_LOCK
                   else if index > |old(nodes)| || -index > |old(nodes)| then -ERR_CHECKPARAM else 0
      ensures r != 0 ==> node == null && nodes == old(nodes)
      ensures r == 0 ==> var k := if index > 0 then index - 1 else |old(nodes)| + index;
                         node == old(nodes)[k] && node !in Ring() && nodes == old(nodes)[..k] + old(nodes)[k + 1..]
    {
      if index == 0 {
        return -ERR_CHECKPARAM, null;
      }
      if !lock1 && !lock2 {
        return -ERR_LOCK, null;
      }
      if index > nodeCount || -index > nodeCount {
        return -ERR_CHECKPARAM, null;
      }
      var p := Walk(index);
      PlaceIs(index, |nodes|);
      Unlink(p, if index > 0 then index else |nodes| + 1 + index);
      r, node := 0, p;
    }

    /** The neighbours are joined; the node itself keeps its links. */
    method Unlink(p: Node, ghost k: nat)
      requires Valid() && 0 < k < |Ring()| && p == Ring()[k]
      modifies this`nodeCount, this`nodes, head, nodes
      ensures Valid() && nodes == old(nodes[..k - 1] + nodes[k..]) && p !in Ring()
    {
      ghost var was := Ring();
      ghost var ring, n := was[..k] + was[k + 1..], |was|;
      assert p.next == was[Succ(k, n)] && was[Succ(k - 1, n)] == p && p.pre == was[k - 1];
      p.pre.next := p.next;
      p.next.pre := p.pre;
      nodeCount := nodeCount - 1;
      nodes := nodes[..k - 1] + nodes[k..];
      assert Ring() == ring;
      DistinctRemove(was, k);
      forall i | 0 <= i < n - 1
        ensures ring[i].next == ring[Succ(i, n - 1)] && ring[Succ(i, n - 1)].pre == ring[i]
      {
        if i < k - 1 {
          assert ring[i] == was[i] && ring[i + 1] == was[i + 1] && was[i + 1] != was[Succ(k, n)];
        } else if i >= k {
          assert ring[i] == was[i + 1] && ring[Succ(i, n - 1)] == was[Succ(i + 1, n)];
        }
      }
    }

    /** foreach_lklist: the callback gets the nodes in order until it returns a negative number. */
    method ForEach(hand: Node -> int, lock1: bool, lock2: bool) returns (ret: int, visited: seq<Node>)
      requires Valid()
      ensures !lock1 && !lock2 ==> ret == -ERR_LOCK && visited == []
      ensures lock1 || lock2 ==>
                && visited <= nodes && ret == (if visited == [] then 0 else hand(visited[|visited| - 1]))
                && (if ret < 0 then visited != [] && forall v <- visited[..|visited| - 1] :: hand(v) >= 0
                    else visited == nodes && forall v <- visited :: hand(v) >= 0)
    {
      ret, visited := 0, [];
      if !lock1 && !lock2 {
        return -ERR_LOCK, [];
      }
      var node := head.next;
      assert node == Ring()[Succ(0, |Ring()|)];
      for i := 0 to nodeCount
        invariant visited == nodes[..i] && ret >= 0 && node == Ring()[Succ(i, |Ring()|)]
        invariant forall v <- visited :: hand(v) >= 0
        invariant (visited != [] ==> ret == hand(visited[|visited| - 1])) && (visited == [] ==> ret == 0)
      {
        assert node == nodes[i];
        ret := hand(node);
        visited := visited + [node];
        if ret < 0 {
          return;
        }
        assert Ring()[i + 1].next == Ring()[Succ(i + 1, |Ring()|)];
        node := node.next;
      }
    }
  }

  lemma PlaceNone(n: nat)
    requires n > 0
    ensures Place(0, n) == 0
  {
  }

  // ---------- what the operations mean on sequences

  function InsertAt(nodes: seq<Node>, index: int, node: Node): seq<Node> {
    var k := Place(index, |nodes| + 1);
    nodes[..k] + [node] + nodes[k..]
  }

  /** The place an index asks for, counted from the front or, when negative, from the back. */
  function Wanted(index: int, count: nat): int { if index >= 0 then index else count + 1 + index }

  /** The node comes to lie at one place, which is the one asked for exactly when the index is in range of
      the nodes that are there; with any other it is wrapped round the cycle. */
  lemma InsertedWhere(nodes: seq<Node>, index: int, node: Node)
    requires node !in nodes
    ensures var r, n := InsertAt(nodes, index, node), |nodes|;
            && |r| == n + 1
            && (forall k :: 0 <= k <= n ==> (r[k] == node <==> k == Place(index, n + 1)))
            && (Place(index, n + 1) == Wanted(index, n) <==> -(n + 1) <= index <= n)
    ensures index == |nodes| || index == -1 ==> InsertAt(nodes, index, node) == nodes + [node]
  {
    PlaceIs(index, |nodes|);
    hide Place;
    var k := Place(index, |nodes| + 1);
    var r := InsertAt(nodes, index, node);
    assert forall i :: 0 <= i < k ==> r[i] == nodes[i];
    assert forall i :: k < i <= |nodes| ==> r[i] == nodes[i - 1];
  }

  /** For example an insertion behind the second node, tested while there were two: by the time it has the
      lock there is one, and the node goes in front of it. */
  lemma StaleCount(first: Node, node: Node)
    ensures Apply([first], Insert(node, 2, 2)) == [node, first]
  {
    assert Place(2, 2) == 0;
  }

  datatype Op = Insert(node: Node, index: int, seen: int) | Front(node: Node) | Back(node: Node) | Remove(index: int)

  function Apply(nodes: seq<Node>, op: Op): seq<Node> {
    match op
    case Insert(node, index, seen) => if index > seen || -index > seen then nodes else InsertAt(nodes, index, node)
    case Front(node) => [node] + nodes
    case Back(node) => nodes + [node]
    case Remove(index) =>
      if index == 0 || index > |nodes| || -index > |nodes| then nodes
      else
        var k := if index > 0 then index - 1 else |nodes| + index;
        nodes[..k] + nodes[k + 1..]
  }

  function ApplyAll(nodes: seq<Node>, ops: seq<Op>): seq<Node> {
    if ops == [] then nodes else Apply(ApplyAll(nodes, ops[..|ops| - 1]), ops[|ops| - 1])
  }

  predicate Inserts(op: Op, node: Node) { !op.Remove? && op.node == node }

  /** No node is put in while it is in. */
  predicate Sound(head: Node, nodes: seq<Node>, ops: seq<Op>) {
    forall k :: 0 <= k < |ops| && !ops[k].Remove? ==>
      ops[k].node != head && ops[k].node !in ApplyAll(nodes, ops[..k])
  }

  ghost function NodesOf(ops: seq<Op>): set<Node> {
    set op <- ops | !op.Remove? :: op.node
  }

  /** Any run of calls, in the order in which they get the lock and each with a count of any age: the
      list is well-formed throughout and holds what the same run leaves on a sequence. */
  method Run(list: List, ops: seq<Op>)
    requires list.Valid() && Sound(list.head, list.nodes, ops)
    modifies list, list.head, list.nodes, NodesOf(ops)
    ensures list.Valid() && list.nodes == ApplyAll(old(list.nodes), ops)
  {
    hide Apply;
    ghost var first := list.nodes;
    for k := 0 to |ops|
      invariant list.Valid() && list.nodes == ApplyAll(first, ops[..k])
      invariant forall n <- list.nodes :: n in first || n in NodesOf(ops)
    {
      assert ops[..k + 1][..k] == ops[..k];
      RunOne(list, ops[k]);
    }
    assert ops[..|ops|] == ops;
  }

  method RunOne(list: List, op: Op)
    requires list.Valid() && (!op.Remove? ==> op.node !in list.Ring())
    modifies list`nodeCount, list`nodes, list.head, list.nodes, if op.Remove? then {} else {op.node}
    ensures list.Valid() && list.nodes == Apply(old(list.nodes), op)
    ensures forall n <- list.nodes :: n in old(list.nodes) || Inserts(op, n)
  {
    match op {
      case Insert(node, index, seen) =>
        var _ := list.InsertLkNode(node, index, seen, true, true);
      case Front(node) =>
        var _ := list.InsertHead(node, list.nodeCount, true, true);
      case Back(node) =>
        var _ := list.InsertTail(node, true, true);
      case Remove(index) =>
        var _, _ := list.RemoveLkNode(index, true, true);
    }
  }

  /** What was just inserted can be taken out again by its position. */
  lemma RemoveUndoesInsert(nodes: seq<Node>, index: int, node: Node)
    ensures var k := Place(index, |nodes| + 1);
            Apply(InsertAt(nodes, index, node), Remove(k + 1)) == nodes
  {
  }
}
