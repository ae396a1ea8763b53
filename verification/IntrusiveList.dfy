/** The doubly linked list with two sentinels of lib/kernel/list.c.  A list is the sequence of the nodes
    linked between its sentinels; the operations rewrite the prev and next fields in place. */
module IntrusiveList {

  class Node {
    var prev: Node?
    var next: Node?

    constructor ()
      ensures prev == null && next == null
    {
      prev, next := null, null;
    }
  }

  ghost predicate Distinct(s: seq<Node>) {
    forall i, j :: 0 <= i < j < |s| ==> s[i] != s[j]
  }

  // consecutive nodes point at each other
  ghost predicate Linked(s: seq<Node>)
    reads s
  {
    forall i {:trigger s[i].next} {:trigger s[i + 1].prev} :: 0 <= i < |s| - 1 ==> s[i].next == s[i + 1] && s[i + 1].prev == s[i]
  }

  // s without the element at k, and with x before position k
  function Without<T>(s: seq<T>, k: nat): seq<T>
    requires k < |s|
  {
    s[..k] + s[k + 1..]
  }

  function With<T>(s: seq<T>, k: nat, x: T): seq<T>
    requires k <= |s|
  {
    s[..k] + [x] + s[k..]
  }

  // the same on the list between the sentinels
  lemma InnerWith<T>(s: seq<T>, k: nat, x: T)
    requires k + 1 < |s|
    ensures With(s, k + 1, x)[1..|s|] == With(s[1..|s| - 1], k, x)
  {
  }

  lemma InnerWithout<T>(s: seq<T>, k: nat)
    requires k + 2 < |s|
    ensures Without(s, k + 1)[1..|s| - 2] == Without(s[1..|s| - 1], k)
  {
  }

  lemma WithDistinct(s: seq<Node>, k: nat, x: Node)
    requires Distinct(s) && k <= |s| && x !in s
    ensures Distinct(With(s, k, x))
  {
    var r := With(s, k, x);
    forall i, j | 0 <= i < j < |r|
      ensures r[i] != r[j]
    {
      assert i != k ==> r[i] == s[if i < k then i else i - 1];
      assert j != k ==> r[j] == s[if j < k then j else j - 1];
    }
  }

  class List {
    var head: Node
    var tail: Node
    ghost var nodes: seq<Node>  // head, the elements in order, tail

    ghost predicate Valid()
      reads this, nodes
    {
      && |nodes| >= 2 && nodes[0] == head && nodes[|nodes| - 1] == tail
      && Distinct(nodes) && Linked(nodes)
    }

    ghost function Elems(): seq<Node>
      reads this, nodes
      requires Valid()
    {
      nodes[1..|nodes| - 1]
    }

    // list_init
    constructor ()
      ensures Valid() && Elems() == [] && fresh(nodes)
    {
      var h := new Node();
      var t := new Node();
      head, tail := h, t;
      nodes := [h, t];
      new;
      h.next := t;
      t.prev := h;
    }

    // list_insert_before the node at position k of the list, a sentinel's position included
    method InsertBefore(before: Node, elem: Node, ghost k: nat)
      requires Valid() && k < |Elems()| + 1 && before == nodes[k + 1] && elem !in nodes
      modifies this`nodes, nodes, elem
      ensures Valid() && Elems() == With(old(Elems()), k, elem) && head == old(head) && tail == old(tail)
      ensures nodes == With(old(nodes), k + 1, elem)
    {
      assert before.prev == nodes[k] by {
        assert nodes[k].next == nodes[k + 1];
      }
      ghost var was := nodes;
      elem.prev := before.prev;
      elem.next := before;
      before.prev.next := elem;
      before.prev := elem;
      nodes := With(nodes, k + 1, elem);
      InnerWith(was, k, elem);
      WithDistinct(was, k + 1, elem);
      forall i | 0 <= i < |nodes| - 1
        ensures nodes[i].next == nodes[i + 1] && nodes[i + 1].prev == nodes[i]
      {
        var j := if i <= k then i else i - 1;
        assert 0 <= j < |was| && (i != k + 1 ==> nodes[i] == was[j]);
        assert i > k + 1 ==> nodes[i + 1] == was[j + 1] && old(was[j].next) == was[j + 1];
        assert i < k ==> nodes[i + 1] == was[j + 1] && old(was[j].next) == was[j + 1];
      }
    }

    // list_push
    method Push(elem: Node)
      requires Valid() && elem !in nodes
      modifies this`nodes, nodes, elem
      ensures Valid() && Elems() == [elem] + old(Elems()) && nodes == With(old(nodes), 1, elem)
    {
      assert nodes[0].next == nodes[1];
      InsertBefore(head.next, elem, 0);
    }

    // list_append
    method Append(elem: Node)
      requires Valid() && elem !in nodes
      modifies this`nodes, nodes, elem
      ensures Valid() && Elems() == old(Elems()) + [elem] && nodes == With(old(nodes), |old(nodes)| - 1, elem)
    {
      InsertBefore(tail, elem, |Elems()|);
    }

    // list_remove of the element at position k; the code is given the node alone
    method Remove(elem: Node, ghost k: nat)
      requires Valid() && k < |Elems()| && elem == Elems()[k]
      modifies this`nodes, nodes
      ensures Valid() && Elems() == Without(old(Elems()), k) && nodes == Without(old(nodes), k + 1)
      ensures elem.prev == old(elem.prev) && elem.next == old(elem.next)
    {
      ghost var was := nodes;
      assert was[k].next == was[k + 1] && was[k + 1].next == was[k + 2];
      elem.prev.next := elem.next;
      elem.next.prev := elem.prev;
      nodes := Without(nodes, k + 1);
      InnerWithout(was, k);
      forall i | 0 <= i < |nodes| - 1
        ensures nodes[i].next == nodes[i + 1] && nodes[i + 1].prev == nodes[i]
      {
        var j := if i <= k then i else i + 1;
        assert nodes[i] == was[j];
        assert i < k ==> was[j].next == was[j + 1];
        assert i > k ==> was[j].next == was[j + 1];
      }
    }

    // list_pop
    method Pop() returns (elem: Node)
      requires Valid() && Elems() != []
      modifies this`nodes, nodes
      ensures Valid() && elem == old(Elems())[0] && Elems() == old(Elems())[1..]
    {
      assert nodes[0].next == nodes[1];
      elem := head.next;
      Remove(elem, 0);
    }

    // elem_find
    method Find(obj: Node) returns (found: bool)
      requires Valid()
      ensures found == (obj in Elems())
    {
      ghost var i := 1;
      assert nodes[0].next == nodes[1];
      var elem := head.next;
      while elem != tail
        invariant 1 <= i < |nodes| && elem == nodes[i]
        invariant obj !in nodes[1..i]
        decreases |nodes| - i
      {
        if elem == obj {
          assert Elems()[i - 1] == obj;
          return true;
        }
        assert nodes[i].next == nodes[i + 1];
        elem := elem.next;
        i := i + 1;
      }
      found := false;
    }

    // list_len
    method Len() returns (len: nat)
      requires Valid()
      ensures len == |Elems()|
    {
      len := 0;
      assert nodes[0].next == nodes[1];
      var elem := head.next;
      while elem != tail
        invariant len + 1 < |nodes| && elem == nodes[len + 1]
        decreases |nodes| - len
      {
        len := len + 1;
        assert nodes[len].next == nodes[len + 1];
        elem := elem.next;
      }
    }

    // list_empty
    method IsEmpty() returns (empty: bool)
      requires Valid()
      ensures empty == (Elems() == [])
    {
      assert nodes[0].next == nodes[1];
      empty := head.next == tail;
    }
  }

  // On lists without duplicates, taking a node off by its links removes that element and no other.
  lemma WithoutDistinct<T>(s: seq<T>, k: nat)
    requires k < |s| && forall i, j :: 0 <= i < j < |s| ==> s[i] != s[j]
    ensures forall x :: x in Without(s, k) <==> x in s && x != s[k]
    ensures With(Without(s, k), k, s[k]) == s
  {
    forall x | x in s && x != s[k]
      ensures x in Without(s, k)
    {
      var i :| 0 <= i < |s| && s[i] == x;
      if i < k {
        assert Without(s, k)[i] == x;
      } else {
        assert Without(s, k)[i - 1] == x;
      }
    }
  }
}
