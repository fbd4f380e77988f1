/** The doubly linked list of list.h and the sequence it represents. */
module Lists {
  class ListNode<T(!new)> {
    var next: ListNode?<T>
    var prev: ListNode?<T>
    var obj: T

    constructor (obj: T)
      ensures next == null && prev == null && this.obj == obj
    {
      next, prev, this.obj := null, null, obj;
    }
  }

  /** s without the element at pos. */
  function Without<T>(s: seq<T>, pos: nat): (r: seq<T>)
    requires pos < |s|
    ensures |r| == |s| - 1
    ensures forall i :: 0 <= i < |r| ==> r[i] == if i < pos then s[i] else s[i + 1]
  {
    s[..pos] + s[pos + 1..]
  }

  // ---- Chains of nodes ----

  ghost predicate Apart<T(!new)>(nodes: seq<ListNode<T>>)
  {
    forall i, j :: 0 <= i < j < |nodes| ==> nodes[i] != nodes[j]
  }

  ghost function Node<T(!new)>(nodes: seq<ListNode<T>>, i: int): ListNode?<T>
  {
    if 0 <= i < |nodes| then nodes[i] else null
  }

  ghost predicate LinkedAt<T(!new)>(nodes: seq<ListNode<T>>, i: nat)
    requires i < |nodes|
    reads nodes[i]
  {
    nodes[i].next == Node(nodes, i + 1) && nodes[i].prev == Node(nodes, i - 1)
  }

  /** next and prev are mutually inverse along the chain. */
  ghost predicate Linked<T(!new)>(nodes: seq<ListNode<T>>)
    reads nodes
  {
    forall i :: 0 <= i < |nodes| ==> LinkedAt(nodes, i)
  }

  ghost function Objects<T(!new)>(nodes: seq<ListNode<T>>): (s: seq<T>)
    reads nodes
    ensures |s| == |nodes|
    ensures forall i :: 0 <= i < |s| ==> s[i] == nodes[i].obj
  {
    seq(|nodes|, i requires 0 <= i < |nodes| reads nodes => nodes[i].obj)
  }

  lemma ApartFrom<T(!new)>(nodes: seq<ListNode<T>>, k: int)
    requires Apart(nodes)
    ensures 0 <= k < |nodes| ==> forall i :: 0 <= i < |nodes| && i != k ==> nodes[i] != nodes[k]
  {}

  lemma ApartAround<T(!new)>(a: seq<ListNode<T>>, node: ListNode<T>)
    requires Apart(a) && node !in a
    ensures Apart(a + [node]) && Apart([node] + a)
  {}

  lemma ApartWithout<T(!new)>(nodes: seq<ListNode<T>>, pos: nat)
    requires Apart(nodes) && pos < |nodes|
    ensures Apart(Without(nodes, pos))
  {}

  lemma NodeEnds<T(!new)>(nodes: seq<ListNode<T>>)
    ensures Node(nodes, 0) == (if nodes == [] then null else nodes[0])
    ensures Node(nodes, |nodes| - 1) == if nodes == [] then null else nodes[|nodes| - 1]
  {}

  /** The neighbours of the node at pos have been joined, everything else is as it was. */
  twostate predicate Joined<T(!new)>(was: seq<ListNode<T>>, pos: nat, i: nat)
    requires i < |was|
    reads was
  {
    was[i].obj == old(was[i].obj)
    && was[i].next == (if i == pos - 1 then Node(was, pos + 1) else old(was[i].next))
    && was[i].prev == (if i == pos + 1 then Node(was, pos - 1) else old(was[i].prev))
  }

  /** Removing a node by joining its neighbours. */
  twostate lemma Unlinked<T(!new)>(was: seq<ListNode<T>>, new pos: nat)
    requires old(Linked(was)) && pos < |was|
    requires forall i :: 0 <= i < |was| && i != pos ==> Joined(was, pos, i)
    ensures Linked(Without(was, pos)) && Objects(Without(was, pos)) == Without(old(Objects(was)), pos)
  {
    var nodes := Without(was, pos);
    forall i | 0 <= i < |nodes|
      ensures LinkedAt(nodes, i) && nodes[i].obj == old(Objects(was))[if i < pos then i else i + 1]
    {
      var k := if i < pos then i else i + 1;
      assert old(LinkedAt(was, k)) && Joined(was, pos, k);
    }
  }

  /** Adding a node behind the last one. */
  twostate lemma Appended<T(!new)>(was: seq<ListNode<T>>, new node: ListNode<T>)
    requires old(Linked(was)) && node.next == null && node.prev == Node(was, |was| - 1)
    requires forall i :: 0 <= i < |was| ==> was[i].obj == old(was[i].obj) && was[i].prev == old(was[i].prev)
    requires forall i :: 0 <= i < |was| ==> was[i].next == if i == |was| - 1 then node else old(was[i].next)
    ensures Linked(was + [node]) && Objects(was + [node]) == old(Objects(was)) + [node.obj]
  {
    var nodes := was + [node];
    forall i | 0 <= i < |nodes| ensures LinkedAt(nodes, i) {
      if i < |was| { assert old(LinkedAt(was, i)); }
    }
  }

  /** Adding a node before the first one. */
  twostate lemma Prepended<T(!new)>(was: seq<ListNode<T>>, new node: ListNode<T>)
    requires old(Linked(was)) && node.prev == null && node.next == Node(was, 0)
    requires forall i :: 0 <= i < |was| ==> was[i].obj == old(was[i].obj) && was[i].next == old(was[i].next)
    requires forall i :: 0 <= i < |was| ==> was[i].prev == if i == 0 then node else old(was[i].prev)
    ensures Linked([node] + was) && Objects([node] + was) == [node.obj] + old(Objects(was))
  {
    var nodes := [node] + was;
    forall i | 0 <= i < |nodes| ensures LinkedAt(nodes, i) {
      if i > 0 { assert old(LinkedAt(was, i - 1)); }
    }
  }

  class List<T(!new)> {
    // The value memset leaves when there is no element to return.
    const zero: T
    var front: ListNode?<T>
    var back: ListNode?<T>
    var num: nat
    ghost var nodes: seq<ListNode<T>>

    /** front, back and num are the first, the last and the number of the nodes of a chain. */
    ghost predicate Valid()
      reads this, nodes
    {
      num == |nodes| && Apart(nodes) && Linked(nodes)
      && front == Node(nodes, 0) && back == Node(nodes, |nodes| - 1)
    }

    /** The elements in the order of the next links. */
    ghost function Contents(): (s: seq<T>)
      reads this, nodes
    {
      Objects(nodes)
    }

    constructor (zero: T)
      ensures Valid() && Contents() == [] && nodes == [] && this.zero == zero
    {
      this.zero := zero;
      front, back, num, nodes := null, null, 0, [];
    }

    method AddBack(obj: T)
      requires Valid()
      modifies this, nodes
      ensures Valid() && Contents() == old(Contents()) + [obj]
      ensures |nodes| > 0 && nodes[..|nodes| - 1] == old(nodes) && fresh(nodes[|nodes| - 1])
    {
      hide Apart, Objects, Linked, LinkedAt, Node;
      NodeEnds(nodes);
      var node := new ListNode(obj);
      if front == null {
        front := node;
      } else {
        back.next := node;
        node.prev := back;
      }
      back := node;
      num := num + 1;
      ghost var was := nodes;
      nodes := nodes + [node];
      NodeEnds(nodes);
      ApartAround(was, node);
      ApartFrom(was, |was| - 1);
      Appended(was, node);
    }

    /** add_lock: in front. */
    method AddFront(obj: T)
      requires Valid()
      modifies this, nodes
      ensures Valid() && Contents() == [obj] + old(Contents())
      ensures |nodes| > 0 && nodes[1..] == old(nodes) && fresh(nodes[0])
    {
      hide Apart, Objects, Linked, LinkedAt;
      var node := new ListNode(obj);
      if back == null {
        back := node;
      } else {
        front.prev := node;
        node.next := front;
      }
      front := node;
      num := num + 1;
      ghost var was := nodes;
      nodes := [node] + nodes;
      ApartAround(was, node);
      ApartFrom(was, 0);
      Prepended(was, node);
    }

    method GetAt(pos: nat) returns (obj: T)
      requires Valid()
      ensures obj == if pos < |Contents()| then Contents()[pos] else zero
    {
      if num <= 0 || pos >= num || front == null {
        return zero;
      }
      var current: ListNode<T> := front;
      var i := 0;
      while i < pos && i < num && current.next != null
        invariant 0 <= i <= pos && current == nodes[i]
      {
        assert LinkedAt(nodes, i);
        current := current.next;
        i := i + 1;
      }
      assert LinkedAt(nodes, i);
      return current.obj;
    }

    method ReplaceAt(pos: nat, obj: T)
      requires Valid()
      modifies nodes
      ensures Valid() && nodes == old(nodes)
      ensures Contents() == if pos < |old(Contents())| then old(Contents())[pos := obj] else old(Contents())
    {
      hide Apart, Objects;
      if pos >= num {
        return;
      }
      var current := front;
      var i := 0;
      while i < pos
        invariant 0 <= i <= pos && current == nodes[i]
      {
        assert LinkedAt(nodes, i);
        current := current.next;
        i := i + 1;
      }
      if current != null {
        current.obj := obj;
      }
      ApartFrom(nodes, pos);
      forall j | 0 <= j < |nodes|
        ensures LinkedAt(nodes, j) && nodes[j].obj == if j == pos then obj else old(nodes[j].obj)
      {
        assert old(LinkedAt(nodes, j));
      }
      assert Objects(nodes) == old(Objects(nodes))[pos := obj];
    }

    /** The nodes handed back to the heap are all but the last, each once; the last one leaks. */
    method Clear() returns (freed: seq<ListNode<T>>)
      requires Valid()
      modifies this
      ensures Valid() && Contents() == [] && nodes == []
      ensures freed == if old(nodes) == [] then [] else old(nodes)[..|old(nodes)| - 1]
    {
      var node := front;
      freed := [];
      while node != null && node.next != null
        invariant |freed| <= |nodes| && freed == nodes[..|freed|] && node == Node(nodes, |freed|)
        invariant nodes != [] ==> |freed| < |nodes|
        decreases |nodes| - |freed|
      {
        assert LinkedAt(nodes, |freed|);
        var n := node.next;
        freed := freed + [node];
        node := n;
      }
      assert node != null ==> LinkedAt(nodes, |freed|);
      front, back, num := null, null, 0;
      nodes := [];
    }

    /** The source stops behind the guard: what follows unlinks the node as ReceiveMessage needs it. */
    method RemoveAt(pos: nat) returns (obj: T)
      requires Valid()
      modifies this, nodes
      ensures Valid()
      ensures pos < |old(Contents())| ==> obj == old(Contents())[pos] && Contents() == Without(old(Contents()), pos)
      ensures pos < |old(nodes)| ==> nodes == Without(old(nodes), pos)
      ensures pos >= |old(Contents())| ==> obj == zero && Contents() == old(Contents()) && nodes == old(nodes)
    {
      hide Apart, Objects;
      if num <= 0 || pos >= num || front == null {
        return zero;
      }
      var current := front;
      var i := 0;
      while i < pos
        invariant 0 <= i <= pos && current == nodes[i]
      {
        assert LinkedAt(nodes, i);
        current := current.next;
        i := i + 1;
      }
      obj := current.obj;
      Unlink(current, pos);
    }

    /** Joins the neighbours of a node. */
    method Unlink(node: ListNode<T>, ghost pos: nat)
      requires Valid() && pos < |nodes| && node == nodes[pos]
      modifies this, nodes
      ensures Valid() && nodes == Without(old(nodes), pos) && Contents() == Without(old(Contents()), pos)
    {
      hide Apart, Objects;
      assert LinkedAt(nodes, pos);
      ApartFrom(nodes, pos);
      if node.prev == null {
        front := node.next;
      } else {
        node.prev.next := node.next;
      }
      if node.next == null {
        back := node.prev;
      } else {
        node.next.prev := node.prev;
      }
      num := num - 1;
      ghost var was := nodes;
      nodes := Without(nodes, pos);
      ApartWithout(was, pos);
      ApartFrom(was, pos - 1);
      ApartFrom(was, pos + 1);
      forall i | 0 <= i < |was| && i != pos ensures Joined(was, pos, i) {}
      Unlinked(was, pos);
      assert front == Node(nodes, 0);
    }
  }
}
