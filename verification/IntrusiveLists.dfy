/** The intrusive doubly linked lists: the global list of condition variables, and each thread's robust mutexes. */
module IntrusiveLists {

  class Node<T> {
    const item: T
    var next: Node?<T>
    var prev: Node?<T>

    constructor (item: T)
      ensures this.item == item && next == null && prev == null
    {
      this.item := item;
      next, prev := null, null;
    }
  }

  function At<T>(ns: seq<Node<T>>, i: int): Node?<T> {
    if 0 <= i < |ns| then ns[i] else null
  }

  /** The links run through exactly these nodes, forwards and backwards, each once. */
  ghost predicate Chained<T>(ns: seq<Node<T>>)
    reads ns
  {
    && (forall i, j :: 0 <= i < j < |ns| ==> ns[i] != ns[j])
    && (forall i, j :: 0 <= i < j < |ns| && j == i + 1 ==> ns[i].next == ns[j] && ns[j].prev == ns[i])
    && (ns != [] ==> ns[0].prev == null && ns[|ns| - 1].next == null)
  }

  function Without<T>(ns: seq<T>, k: nat): (r: seq<T>)
    requires k < |ns|
    ensures |r| == |ns| - 1 && forall i :: 0 <= i < |r| ==> r[i] == ns[if i < k then i else i + 1]
  {
    ns[..k] + ns[k + 1..]
  }

  lemma OthersStay<T>(ns: seq<T>, k: nat)
    requires k < |ns| && forall i, j :: 0 <= i < j < |ns| ==> ns[i] != ns[j]
    ensures forall n :: n in Without(ns, k) ==> n in ns && n != ns[k]
  {
  }

  /** Where a member stands. */
  ghost function IndexOf<T>(ns: seq<T>, n: T): (k: nat)
    requires n in ns
    ensures k < |ns| && ns[k] == n
  {
    var k :| 0 <= k < |ns| && ns[k] == n; k
  }

  lemma IndexIs<T>(ns: seq<T>, k: nat)
    requires k < |ns| && forall i, j :: 0 <= i < j < |ns| ==> ns[i] != ns[j]
    ensures IndexOf(ns, ns[k]) == k
  {
  }

  lemma Neighbours<T>(ns: seq<Node<T>>, k: nat)
    requires Chained(ns) && k < |ns|
    ensures ns[k].next == At(ns, k + 1) && ns[k].prev == At(ns, k - 1)
  {
    assert k > 0 ==> ns[k - 1].next == ns[k] && ns[k].prev == ns[k - 1];
    assert k + 1 < |ns| ==> ns[k].next == ns[k + 1] && ns[k + 1].prev == ns[k];
  }

  /** The node that n steps along the links lead to. */
  ghost function Follow<T>(from: Node?<T>, n: nat, ns: seq<Node<T>>): Node?<T>
    reads ns
  {
    if n == 0 || from == null || from !in ns then from else Follow(from.next, n - 1, ns)
  }

  /** No cycle: from member i the links lead through the later members to null. */
  lemma {:induction false} LinksEnd<T>(ns: seq<Node<T>>, i: nat, n: nat)
    requires Chained(ns)
    ensures Follow(At(ns, i), n, ns) == if i + n < |ns| then ns[i + n] else null
    decreases n
  {
    if n > 0 && i < |ns| {
      LinksEnd(ns, i + 1, n - 1);
    }
  }

  // ----- the list of condition variables -----

  datatype ListOp<T(==)> = Append(n: Node<T>) | Unlink(n: Node<T>)

  /** What is on the list after some operations. */
  ghost function Live<T>(ops: seq<ListOp<T>>): seq<Node<T>> {
    if ops == [] then []
    else
      var before := Live(ops[..|ops| - 1]);
      match ops[|ops| - 1]
      case Append(n) => before + [n]
      case Unlink(n) => if n in before then Without(before, IndexOf(before, n)) else before
  }

  /** Only what is not on the list is appended, only what is on it is unlinked. */
  ghost predicate Legal<T>(ops: seq<ListOp<T>>) {
    forall i :: 0 <= i < |ops| ==> (ops[i].n in Live(ops[..i]) <==> ops[i].Unlink?)
  }

  class NodeList<T> {
    var head: Node?<T>
    var tail: Node?<T>
    ghost var nodes: seq<Node<T>>

    ghost predicate Valid()
      reads this, nodes
    {
      Chained(nodes) && head == At(nodes, 0) && tail == At(nodes, |nodes| - 1)
    }

    constructor ()
      ensures Valid() && nodes == []
    {
      head, tail, nodes := null, null, [];
    }

    /** A new variable goes to the end. */
    method Append(n: Node<T>)
      requires Valid() && n !in nodes
      modifies this, n, nodes
      ensures Valid() && nodes == old(nodes) + [n]
    {
      n.next := null;
      n.prev := tail;
      if tail != null {
        tail.next := n;
      }
      tail := n;
      if head == null {
        head := n;
      }
      nodes := nodes + [n];
    }

    /** A destroyed variable goes, from wherever it is. */
    method Unlink(n: Node<T>)
      requires Valid() && n in nodes
      modifies this, nodes
      ensures Valid() && nodes == Without(old(nodes), IndexOf(old(nodes), n))
    {
      ghost var k := IndexOf(nodes, n);
      Neighbours(nodes, k);
      if head == n {
        head := n.next;
      } else {
        n.prev.next := n.next;
      }
      if tail == n {
        tail := n.prev;
      } else {
        n.next.prev := n.prev;
      }
      nodes := Without(nodes, k);
    }

    /** The walk that broadcasts to every variable on the list, each once and in order, until one fails. */
    method BroadcastAll(failing: set<Node<T>>) returns (ok: bool, visited: seq<Node<T>>)
      requires Valid()
      ensures visited <= nodes && (ok <==> forall n :: n in nodes ==> n !in failing)
      ensures ok ==> visited == nodes
      ensures !ok ==> visited != [] && visited[|visited| - 1] in failing
      ensures forall i :: 0 <= i < |visited| - 1 ==> visited[i] !in failing
    {
      ok, visited := true, [];
      var n := head;
      while n != null && ok
        invariant visited <= nodes && n == At(nodes, |visited|)
        invariant ok ==> forall i :: 0 <= i < |visited| ==> visited[i] !in failing
        invariant !ok ==> visited != [] && visited[|visited| - 1] in failing
        invariant forall i :: 0 <= i < |visited| - 1 ==> visited[i] !in failing
        decreases |nodes| - |visited|
      {
        ok := n !in failing;
        visited := visited + [n];
        n := n.next;
      }
      assert !ok ==> visited[|visited| - 1] in nodes;
      assert ok ==> visited == nodes;
    }
  }

  /** Over any legal run of operations the list is exactly what is live, in the order of creation. */
  method Perform<T>(ops: seq<ListOp<T>>, list: NodeList<T>, ghost scope: set<Node<T>>)
    requires list.Valid() && list.nodes == [] && Legal(ops) && forall op :: op in ops ==> op.n in scope
    modifies list, scope
    ensures list.Valid() && list.nodes == Live(ops)
  {
    for i := 0 to |ops|
      invariant list.Valid() && list.nodes == Live(ops[..i])
      invariant forall n :: n in list.nodes ==> n in scope
    {
      hide Chained;
      assert ops[..i + 1][..i] == ops[..i];
      if ops[i].Append? {
        list.Append(ops[i].n);
      } else {
        list.Unlink(ops[i].n);
      }
    }
    assert ops[..|ops|] == ops;
  }
}
