// lsd/dlink.c: intrusive doubly linked lists.  A list object describes one
// sequence of nodes through head, tail, prev, next and length.
module Dlink {
  import opened Base

  // struct _dlink_node
  class DNode<T> {
    var data: Option<T>
    var next: DNode?<T>
    var prev: DNode?<T>

    constructor ()
      ensures data == None && next == null && prev == null
    {
      data, next, prev := None, null, null;
    }
  }

  function Maybe<T>(n: DNode?<T>): set<DNode<T>> {
    if n == null then {} else {n}
  }

  function First<T>(s: seq<DNode<T>>): DNode?<T> {
    if s == [] then null else s[0]
  }

  function Last<T>(s: seq<DNode<T>>): DNode?<T> {
    if s == [] then null else s[|s| - 1]
  }

  function RemoveAt<T>(s: seq<T>, k: nat): (r: seq<T>)
    requires k < |s|
    ensures |r| == |s| - 1
    ensures forall i :: 0 <= i < k ==> r[i] == s[i]
    ensures forall i :: k <= i < |r| ==> r[i] == s[i + 1]
  {
    s[..k] + s[k + 1..]
  }

  lemma RemovedDistinct<T>(s: seq<DNode<T>>, k: nat)
    requires Distinct(s) && k < |s|
    ensures Distinct(RemoveAt(s, k)) && s[k] !in RemoveAt(s, k)
    ensures forall n :: n in s <==> n == s[k] || n in RemoveAt(s, k)
  {
    var r := RemoveAt(s, k);
    forall n | n in s
      ensures n == s[k] || n in r
    {
      var i :| 0 <= i < |s| && s[i] == n;
      if i < k {
        assert r[i] == n;
      } else if i > k {
        assert r[i - 1] == n;
      }
    }
  }

  ghost predicate Distinct<T>(s: seq<DNode<T>>) {
    forall i, j :: 0 <= i < j < |s| ==> s[i] != s[j]
  }

  // The nodes' pointers describe the sequence s.
  ghost predicate Chained<T>(s: seq<DNode<T>>)
    reads s
  {
    && (forall i {:trigger s[i].next} :: 0 <= i < |s| ==> s[i].next == if i + 1 < |s| then s[i + 1] else null)
    && (forall i {:trigger s[i].prev} :: 0 <= i < |s| ==> s[i].prev == if i > 0 then s[i - 1] else null)
  }

  // struct _dlink_list
  class DList<T(==)> {
    var head: DNode?<T>
    var tail: DNode?<T>
    var length: nat
    ghost var nodes: seq<DNode<T>>

    ghost predicate Valid()
      reads this, nodes
    {
      && Distinct(nodes) && Chained(nodes)
      && head == First(nodes) && tail == Last(nodes) && length == |nodes|
    }

    constructor ()
      ensures Valid() && nodes == []
    {
      head, tail, length, nodes := null, null, 0, [];
    }

    lemma HeadIn()
      requires Valid()
      ensures head != null ==> head in nodes
    {
    }

    lemma TailIn()
      requires Valid()
      ensures tail != null ==> tail in nodes
    {
    }

    // dlink_add
    method Add(data: T, m: DNode<T>)
      requires Valid() && m !in nodes
      modifies this, m, Maybe(head)`prev
      ensures Valid() && nodes == [m] + old(nodes) && m.data == Some(data)
    {
      m.data := Some(data);
      m.next := head;
      m.prev := null;
      if head != null {
        head.prev := m;
      } else if tail == null {
        tail := m;
      }
      head := m;
      length := length + 1;
      nodes := [m] + nodes;
    }

    // dlink_add_tail
    method AddTail(data: T, m: DNode<T>)
      requires Valid() && m !in nodes
      modifies this, m, Maybe(tail)`next
      ensures Valid() && nodes == old(nodes) + [m] && m.data == Some(data)
    {
      m.data := Some(data);
      m.next := null;
      m.prev := tail;
      if head == null {
        head := m;
      } else if tail != null {
        tail.next := m;
      }
      tail := m;
      length := length + 1;
      nodes := nodes + [m];
    }

    // dlink_add_before
    method AddBefore(b: DNode<T>, data: T, m: DNode<T>, ghost k: nat)
      requires Valid() && m !in nodes && k < |nodes| && nodes[k] == b
      modifies this, m, nodes`next, nodes`prev
      ensures Valid() && nodes == old(nodes[..k] + [m] + nodes[k..]) && m.data == Some(data)
    {
      if b == head {
        Add(data, m);
      } else {
        m.data := Some(data);
        b.prev.next := m;
        m.prev := b.prev;
        b.prev := m;
        m.next := b;
        length := length + 1;
        nodes := nodes[..k] + [m] + nodes[k..];
      }
    }

    // dlink_delete
    method Delete(m: DNode<T>, ghost k: nat)
      requires Valid() && k < |nodes| && nodes[k] == m
      modifies this, nodes`next, nodes`prev
      ensures Valid() && nodes == RemoveAt(old(nodes), k)
    {
      if m.prev == null {
        head := m.next;
      } else {
        m.prev.next := m.next;
      }
      if m.next == null {
        tail := m.prev;
      } else {
        m.next.prev := m.prev;
      }
      length := length - 1;
      RemovedDistinct(nodes, k);
      nodes := RemoveAt(nodes, k);
    }

    // dlink_find: the first node carrying data
    method Find(data: T) returns (r: DNode?<T>)
      requires Valid()
      ensures r == null ==> forall i :: 0 <= i < |nodes| ==> nodes[i].data != Some(data)
      ensures r != null ==> exists k :: FirstAt(k, data) && nodes[k] == r
    {
      ghost var i := 0;
      r := head;
      while r != null
        invariant i <= |nodes| && r == (if i < |nodes| then nodes[i] else null)
        invariant forall j :: 0 <= j < i ==> nodes[j].data != Some(data)
        decreases |nodes| - i
      {
        if r.data == Some(data) {
          assert FirstAt(i, data);
          return;
        }
        r := r.next;
        i := i + 1;
      }
    }

    ghost predicate FirstAt(k: int, data: T)
      reads this, nodes
    {
      && 0 <= k < |nodes| && nodes[k].data == Some(data)
      && forall j :: 0 <= j < k ==> nodes[j].data != Some(data)
    }

    // dlink_find_delete
    method FindDelete(data: T) returns (r: DNode?<T>)
      requires Valid()
      modifies this, nodes`next, nodes`prev
      ensures Valid()
      ensures r == null ==> nodes == old(nodes) && forall i :: 0 <= i < |nodes| ==> nodes[i].data != Some(data)
      ensures r != null ==>
        && r.next == null && r.prev == null
        && exists k :: old(FirstAt(k, data)) && old(nodes)[k] == r && nodes == RemoveAt(old(nodes), k)
    {
      r := Find(data);
      if r == null {
        return;
      }
      ghost var k :| FirstAt(k, data) && nodes[k] == r;
      Unlink(r, k);
      r.next, r.prev := null, null;
    }

    // What dlink_find_delete and dlink_move do to the list m leaves.
    method Unlink(m: DNode<T>, ghost k: nat)
      requires Valid() && k < |nodes| && nodes[k] == m
      modifies this, nodes`next, nodes`prev
      ensures Valid() && nodes == RemoveAt(old(nodes), k) && m !in nodes
    {
      hide RemoveAt;
      RemovedDistinct(nodes, k);
      if m.next != null {
        m.next.prev := m.prev;
      } else {
        tail := m.prev;
      }
      if m.prev != null {
        m.prev.next := m.next;
      } else {
        head := m.next;
      }
      length := length - 1;
      nodes := RemoveAt(nodes, k);
    }

    // The second half of dlink_move: m, data and all, becomes the head.
    method Push(m: DNode<T>)
      requires Valid() && m !in nodes
      modifies this, m`next, m`prev, nodes`prev
      ensures Valid() && nodes == [m] + old(nodes)
    {
      m.prev := null;
      m.next := head;
      if head != null {
        head.prev := m;
      } else if tail == null {
        tail := m;
      }
      head := m;
      length := length + 1;
      nodes := [m] + nodes;
    }

    // dlink_length
    method Length() returns (n: nat)
      requires Valid()
      ensures n == |nodes|
    {
      n := length;
    }

    // dlink_move from this list to newlist, after its test for NULL.
    method MoveTo(m: DNode<T>, newlist: DList<T>, ghost k: nat)
      requires this != newlist && Valid() && newlist.Valid() && Apart(nodes, newlist.nodes)
      requires k < |nodes| && nodes[k] == m
      modifies this, newlist, nodes`next, nodes`prev, newlist.nodes`prev
      ensures Valid() && newlist.Valid()
      ensures nodes == RemoveAt(old(nodes), k) && newlist.nodes == [m] + old(newlist.nodes)
    {
      Unlink(m, k);
      newlist.Push(m);
    }
  }

  ghost predicate Apart<T>(s: seq<DNode<T>>, t: seq<DNode<T>>) {
    forall i, j :: 0 <= i < |s| && 0 <= j < |t| ==> s[i] != t[j]
  }

  // dlink_move conserves the nodes of the two lists and keeps them apart.
  lemma MoveConserves<T>(s: seq<DNode<T>>, t: seq<DNode<T>>, k: nat)
    requires k < |s| && Distinct(s) && Distinct(t) && Apart(s, t)
    ensures var s', t' := RemoveAt(s, k), [s[k]] + t;
      && Distinct(s') && Distinct(t') && Apart(s', t')
      && multiset(s') + multiset(t') == multiset(s) + multiset(t)
  {
    RemovedDistinct(s, k);
    assert s == s[..k] + [s[k]] + s[k + 1..];
    assert forall j :: 0 <= j < |s| - 1 ==> RemoveAt(s, k)[j] in RemoveAt(s, k);
  }

  ghost function NodesOf<T>(l: DList?<T>): seq<DNode<T>>
    reads l
  {
    if l == null then [] else l.nodes
  }

  // dlink_move
  method Move<T(==)>(m: DNode?<T>, oldlist: DList?<T>, newlist: DList?<T>, ghost k: nat)
    requires m != null && oldlist != null && newlist != null ==>
      && oldlist != newlist && oldlist.Valid() && newlist.Valid() && Apart(oldlist.nodes, newlist.nodes)
      && k < |oldlist.nodes| && oldlist.nodes[k] == m
    modifies oldlist, newlist, NodesOf(oldlist)`next, NodesOf(oldlist)`prev, NodesOf(newlist)`prev
    ensures m == null || oldlist == null || newlist == null ==>
      && (oldlist != null ==> unchanged(oldlist))
      && (newlist != null ==> unchanged(newlist))
    ensures m != null && oldlist != null && newlist != null ==>
      && oldlist.Valid() && newlist.Valid()
      && oldlist.nodes == RemoveAt(old(oldlist.nodes), k) && newlist.nodes == [m] + old(newlist.nodes)
  {
    if m == null || oldlist == null || newlist == null {
      return;
    }
    oldlist.MoveTo(m, newlist, k);
  }
}
