/** The kernel's own doubly linked list. */
module LinkedList {
  import opened Kernel

  class Node<T> {
    var prev: Node?<T>
    var next: Node?<T>
    var value: T

    constructor (value: T)
      ensures this.value == value && prev == null && next == null
    {
      this.value, prev, next := value, null, null;
    }
  }

  /** The sequence without its element `k`. */
  function Without<T>(s: seq<T>, k: nat): seq<T>
    requires k < |s|
  {
    s[..k] + s[k + 1..]
  }

  lemma WithoutAt<T>(s: seq<T>, k: nat)
    requires k < |s|
    ensures |Without(s, k)| == |s| - 1
    ensures forall i {:trigger Without(s, k)[i]} :: 0 <= i < |s| - 1 ==>
      Without(s, k)[i] == s[if i < k then i else i + 1]
  {
  }

  lemma WithoutDistinct<T>(s: seq<T>, k: nat)
    requires k < |s| && forall i, j :: 0 <= i < j < |s| ==> s[i] != s[j]
    ensures var t := Without(s, k); forall i, j :: 0 <= i < j < |t| ==> t[i] != t[j]
  {
    WithoutAt(s, k);
  }

  /** The index of the first `v` in `s`, or |s|. */
  function IndexOf<T(==)>(s: seq<T>, v: T): (k: nat)
    ensures k <= |s| && v !in s[..k] && (k < |s| ==> s[k] == v)
  {
    if s == [] || s[0] == v then 0
    else
      var r := IndexOf(s[1..], v);
      assert s[..r + 1] == [s[0]] + s[1..][..r];
      r + 1
  }

  lemma IndexOfUnique<T>(s: seq<T>, v: T, k: nat)
    requires k <= |s| && (forall i :: 0 <= i < k ==> s[i] != v) && (k < |s| ==> s[k] == v)
    ensures IndexOf(s, v) == k
  {
    var r := IndexOf(s, v);
    assert forall i :: 0 <= i < r ==> s[i] in s[..r];
  }

  class List<T(==)> {
    var head: Node?<T>
    var tail: Node?<T>
    ghost var nodes: seq<Node<T>>

    /** prev and next are mutually inverse along `nodes`, with head and tail at its ends. */
    ghost predicate Valid()
      reads this, nodes
    {
      && (forall i, j :: 0 <= i < j < |nodes| ==> nodes[i] != nodes[j])
      && (if nodes == [] then head == null && tail == null
          else head == nodes[0] && tail == nodes[|nodes| - 1])
      && (forall i {:trigger nodes[i].next} :: 0 <= i < |nodes| ==>
            nodes[i].next == if i + 1 < |nodes| then nodes[i + 1] else null)
      && (forall i {:trigger nodes[i].prev} :: 0 <= i < |nodes| ==>
            nodes[i].prev == if i > 0 then nodes[i - 1] else null)
    }

    /** The sequence the list stands for. */
    ghost function Contents(): seq<T>
      reads this, nodes
    {
      seq(|nodes|, (i: int) requires 0 <= i < |nodes| reads this, nodes => nodes[i].value)
    }

    constructor ()
      ensures Valid() && Contents() == [] && nodes == []
    {
      head, tail, nodes := null, null, [];
    }

    method PushBack(element: T)
      requires Valid()
      modifies this, nodes
      ensures Valid() && Contents() == old(Contents()) + [element]
      ensures |nodes| == old(|nodes|) + 1 && nodes[..|nodes| - 1] == old(nodes) && fresh(nodes[|nodes| - 1])
    {
      var n := new Node(element);
      n.prev := tail;
      if tail != null {
        tail.next := n;
      } else {
        head := n;
      }
      tail := n;
      nodes := nodes + [n];
    }

    method PopBack() returns (value: T)
      requires Valid() && nodes != []
      modifies this, nodes
      ensures Valid() && nodes == old(nodes)[..|old(nodes)| - 1]
      ensures value == old(Contents())[|old(nodes)| - 1] && Contents() == old(Contents())[..|old(nodes)| - 1]
    {
      var n := tail;
      tail := tail.prev;
      if tail != null {
        tail.next := null;
      } else {
        head := null;
      }
      nodes := nodes[..|nodes| - 1];
      value := n.value;
    }

    /** The first node holding the value; the end iterator (null) when there is none. */
    method Find(value: T) returns (it: Node?<T>)
      requires Valid()
      ensures var k := IndexOf(Contents(), value); it == if k < |nodes| then nodes[k] else null
    {
      it := head;
      ghost var i := 0;
      while it != null
        invariant 0 <= i <= |nodes| && it == if i < |nodes| then nodes[i] else null
        invariant forall j :: 0 <= j < i ==> Contents()[j] != value
        decreases |nodes| - i
      {
        if it.value == value {
          IndexOfUnique(Contents(), value, i);
          return;
        }
        it, i := it.next, i + 1;
      }
      IndexOfUnique(Contents(), value, i);
    }

    /** Erasing at an iterator of this list, or at its end. */
    method Erase(it: Node?<T>, ghost k: nat)
      requires Valid() && k <= |nodes| && it == if k < |nodes| then nodes[k] else null
      modifies this, nodes
      ensures Valid()
      ensures k < |old(nodes)| ==> nodes == Without(old(nodes), k) && Contents() == Without(old(Contents()), k)
      ensures k == |old(nodes)| ==> nodes == old(nodes) && Contents() == old(Contents())
    {
      if it == null {
        return;
      }
      Unlink(it, k);
      ghost var s, t := nodes, Without(nodes, k);
      WithoutAt(s, k);
      WithoutDistinct(s, k);
      forall i | 0 <= i < |t|
        ensures t[i].next == if i + 1 < |t| then t[i + 1] else null
        ensures t[i].prev == if i > 0 then t[i - 1] else null
      {
        assert t[i] == s[if i < k then i else i + 1];
      }
      WithoutAt(Contents(), k);
      nodes := t;
    }

    /** The neighbours of node `k`, or the list's ends, now point past it. */
    method Unlink(n: Node<T>, ghost k: nat)
      requires Valid() && k < |nodes| && nodes[k] == n
      modifies this`head, this`tail, nodes`prev, nodes`next
      ensures Contents() == old(Contents())
      ensures head == if k > 0 then nodes[0] else if |nodes| > 1 then nodes[1] else null
      ensures tail == if k + 1 < |nodes| then nodes[|nodes| - 1] else if k > 0 then nodes[k - 1] else null
      ensures forall i {:trigger nodes[i].next} :: 0 <= i < |nodes| && i != k ==>
        nodes[i].next == var j := if i + 1 == k then k + 1 else i + 1; if j < |nodes| then nodes[j] else null
      ensures forall i {:trigger nodes[i].prev} :: 0 <= i < |nodes| && i != k ==>
        nodes[i].prev == var j := if i - 1 == k then k - 1 else i - 1; if j >= 0 then nodes[j] else null
    {
      if n.prev != null {
        n.prev.next := n.next;
      }
      if n.next != null {
        n.next.prev := n.prev;
      }
      if head == n {
        head := n.next;
      }
      if tail == n {
        tail := n.prev;
      }
    }

    method EraseValue(value: T)
      requires Valid()
      modifies this, nodes
      ensures Valid()
      ensures var c := old(Contents()); var k := IndexOf(c, value);
              Contents() == if k < |c| then Without(c, k) else c
    {
      var it := Find(value);
      Erase(it, IndexOf(Contents(), value));
    }

    method Empty() returns (r: bool)
      requires Valid()
      ensures r <==> Contents() == []
    {
      r := head == null;
    }

    method Clear()
      requires Valid()
      modifies this, nodes
      ensures Valid() && Contents() == [] && nodes == []
    {
      while true
        invariant Valid() && nodes == old(nodes)[..|nodes|] && |nodes| <= |old(nodes)|
        decreases |nodes|
      {
        var done := Empty();
        if done {
          break;
        }
        var _ := PopBack();
      }
    }

    method Size() returns (count: nat)
      requires Valid()
      ensures count == |Contents()|
    {
      count := 0;
      var it := head;
      while it != null
        invariant 0 <= count <= |nodes| && it == if count < |nodes| then nodes[count] else null
        decreases |nodes| - count
      {
        it, count := it.next, count + 1;
      }
    }

    /** operator[]. Where the list has no such element, the code dereferences the end iterator: None. */
    method At(index: int) returns (value: Option<T>)
      requires Valid()
      ensures value == if 0 <= index < |nodes| then Some(Contents()[index]) else None
    {
      var it, left := head, index;
      ghost var i := 0;
      while it != null && left != 0
        invariant 0 <= i <= |nodes| && left == index - i && it == if i < |nodes| then nodes[i] else null
        invariant 0 <= index ==> 0 <= left
        decreases |nodes| - i
      {
        it, left, i := it.next, left - 1, i + 1;
      }
      value := if it == null then None else Some(it.value);
    }

    /** The loop of operator=, run on a list just cleared. */
    method AppendAll(other: List<T>)
      requires Valid() && other.Valid() && other != this && nodes == []
      modifies this
      ensures Valid() && other.Valid() && other.nodes == old(other.nodes)
      ensures Contents() == other.Contents() == old(other.Contents())
    {
      ghost var values := other.Contents();
      var it := other.head;
      ghost var i := 0;
      while it != null
        invariant Valid() && other.Valid() && other.nodes == old(other.nodes) && other.Contents() == values
        invariant 0 <= i <= |other.nodes| && it == if i < |other.nodes| then other.nodes[i] else null
        invariant forall k :: 0 <= k < |nodes| ==> fresh(nodes[k])
        invariant Contents() == values[..i]
        decreases |other.nodes| - i
      {
        assert values[..i] + [it.value] == values[..i + 1];
        PushBack(it.value);
        it, i := it.next, i + 1;
      }
      assert values[..i] == values;
    }

    /** operator=: element by element, into new nodes. Assigning a list to itself empties it. */
    method Assign(other: List<T>)
      requires Valid() && other.Valid()
      requires other == this || forall i, j :: 0 <= i < |nodes| && 0 <= j < |other.nodes| ==> nodes[i] != other.nodes[j]
      modifies this, nodes
      ensures Valid() && other.Valid()
      ensures Contents() == if other == this then [] else old(other.Contents())
      ensures other != this ==> other.Contents() == old(other.Contents())
    {
      Clear();
      if other != this {
        AppendAll(other);
      }
    }
  }
}
