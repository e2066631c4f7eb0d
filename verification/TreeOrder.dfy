// Order of the data in a tree: searching, the place of a new element, the
// neighbours of a node, and what pull_out removes.  Pure.
module TreeOrder {
  import opened TreeShape
  import opened RedBlack

  // What lsd/tree.c asks of cmpfunc: a total preorder.
  ghost predicate Preorder(cmp: (Data, Data) -> int) {
    && (forall x, y :: cmp(x, y) < 0 <==> cmp(y, x) > 0)
    && (forall x, y, z :: cmp(x, y) <= 0 && cmp(y, z) <= 0 ==> cmp(x, z) <= 0)
  }

  ghost predicate Sorted(cmp: (Data, Data) -> int, s: seq<Entry>) {
    forall i, j :: 0 <= i < j < |s| ==> cmp(s[i].data, s[j].data) <= 0
  }

  function Datas(s: seq<Entry>): seq<Data> {
    seq(|s|, i requires 0 <= i < |s| => s[i].data)
  }

  lemma SortedParts(cmp: (Data, Data) -> int, l: seq<Entry>, e: Entry, r: seq<Entry>)
    requires Sorted(cmp, l + [e] + r)
    ensures Sorted(cmp, l) && Sorted(cmp, r)
    ensures forall x :: x in l ==> cmp(x.data, e.data) <= 0
    ensures forall x :: x in r ==> cmp(e.data, x.data) <= 0
  {
    var s := l + [e] + r;
    assert s[|l|] == e;
    assert forall i :: 0 <= i < |l| ==> s[i] == l[i];
    assert forall i :: 0 <= i < |r| ==> s[|l| + 1 + i] == r[i];
  }

  // ------------------------------------------------------------ tree_search

  function Search(cmp: (Data, Data) -> int, t: Tree, key: Data): Node? {
    if t == Nil then null
    else if cmp(key, t.data) == 0 then t.node
    else if cmp(key, t.data) < 0 then Search(cmp, t.left, key)
    else Search(cmp, t.right, key)
  }

  // A node comparing equal is found exactly when there is one, wherever
  // rotations have put the duplicates.
  lemma {:induction false} SearchCorrect(cmp: (Data, Data) -> int, t: Tree, key: Data)
    requires Preorder(cmp) && Sorted(cmp, InOrder(t))
    ensures Search(cmp, t, key) != null ==>
      exists e :: e in InOrder(t) && e.node == Search(cmp, t, key) && cmp(key, e.data) == 0
    ensures Search(cmp, t, key) == null ==> forall e :: e in InOrder(t) ==> cmp(key, e.data) != 0
  {
    match t
    case Nil =>
    case Bin(_, l, n, d, r) =>
      SortedParts(cmp, InOrder(l), Entry(n, d), InOrder(r));
      SearchCorrect(cmp, l, key);
      SearchCorrect(cmp, r, key);
      assert Entry(n, d) in InOrder(t);
  }

  // Of several nodes comparing equal the one nearest the root is found: all of them are in
  // the subtree x that it heads.
  lemma {:induction false} SearchTopmost(cmp: (Data, Data) -> int, c0: Ctx, t: Tree, key: Data)
    returns (c: Ctx, x: Tree)
    requires Preorder(cmp) && Sorted(cmp, InOrder(t))
    requires forall e :: e in Before(c0) || e in After(c0) ==> cmp(key, e.data) != 0
    ensures Plug(c, x) == Plug(c0, t) && Root(x) == Search(cmp, t, key)
    ensures x.Bin? ==> cmp(key, x.data) == 0
    ensures forall e :: e in Before(c) || e in After(c) ==> cmp(key, e.data) != 0
    decreases t
  {
    c, x := c0, t;
    if t.Bin? && cmp(key, t.data) != 0 {
      var s := if cmp(key, t.data) < 0 then Left else Right;
      SortedParts(cmp, InOrder(t.left), Entry(t.node, t.data), InOrder(t.right));
      PlugDown(s, c0, t, t);
      c, x := SearchTopmost(cmp, Down(s, c0, t), Child(s, t), key);
    }
  }

  // ------------------------------------------------------------ tree_insert

  // Everything before the hole is <= d and everything after it is > d.
  ghost predicate Place(cmp: (Data, Data) -> int, c: Ctx, d: Data) {
    && (forall e :: e in Before(c) ==> cmp(d, e.data) >= 0)
    && (forall e :: e in After(c) ==> cmp(d, e.data) < 0)
  }

  lemma PlaceDown(cmp: (Data, Data) -> int, c: Ctx, t: Tree, d: Data)
    requires Preorder(cmp) && Sorted(cmp, InOrder(t)) && t.Bin? && Place(cmp, c, d)
    ensures var s := if cmp(d, t.data) < 0 then Left else Right;
      Place(cmp, Down(s, c, t), d) && Sorted(cmp, InOrder(Child(s, t)))
  {
    SortedParts(cmp, InOrder(t.left), Entry(t.node, t.data), InOrder(t.right));
  }

  // The index after all elements <= d.
  function UpperBound(cmp: (Data, Data) -> int, s: seq<Entry>, d: Data): (k: nat)
    ensures k <= |s|
  {
    if s == [] then 0
    else if cmp(d, s[|s| - 1].data) >= 0 then |s|
    else UpperBound(cmp, s[..|s| - 1], d)
  }

  lemma {:induction false} UpperBoundSplit(cmp: (Data, Data) -> int, a: seq<Entry>, b: seq<Entry>, d: Data)
    requires forall e :: e in a ==> cmp(d, e.data) >= 0
    requires forall e :: e in b ==> cmp(d, e.data) < 0
    ensures UpperBound(cmp, a + b, d) == |a|
    decreases |b|
  {
    if b == [] {
      assert a + b == a;
    } else {
      assert (a + b)[..|a + b| - 1] == a + b[..|b| - 1];
      UpperBoundSplit(cmp, a, b[..|b| - 1], d);
    }
  }

  // A new element at such a place keeps the sequence sorted.
  lemma {:induction false} InsertSorted(cmp: (Data, Data) -> int, a: seq<Entry>, e: Entry, b: seq<Entry>)
    requires Preorder(cmp) && Sorted(cmp, a + b)
    requires forall x :: x in a ==> cmp(e.data, x.data) >= 0
    requires forall x :: x in b ==> cmp(e.data, x.data) < 0
    ensures Sorted(cmp, a + [e] + b)
  {
    var s, u := a + [e] + b, a + b;
    assert cmp(e.data, e.data) == 0;
    forall i, j | 0 <= i < j < |s|
      ensures cmp(s[i].data, s[j].data) <= 0
    {
      var i', j' := if i > |a| then i - 1 else i, if j > |a| then j - 1 else j;
      if i != |a| && j != |a| {
        assert s[i] == u[i'] && s[j] == u[j'];
      } else if i == |a| {
        assert s[j] == b[j - |a| - 1] && s[j] in b;
      } else {
        assert s[i] == a[i] && s[i] in a;
      }
    }
  }

  // Hanging a leaf at its place.
  lemma LeafOrder(cmp: (Data, Data) -> int, c: Ctx, leaf: Tree)
    requires Preorder(cmp) && Sorted(cmp, InOrder(Plug(c, Nil)))
    requires leaf.Bin? && leaf.left == Nil && leaf.right == Nil && Place(cmp, c, leaf.data)
    ensures Sorted(cmp, InOrder(Plug(c, leaf)))
    ensures Nodes(Plug(c, leaf)) == Nodes(Plug(c, Nil)) + {leaf.node}
    ensures InOrder(Plug(c, leaf)) == Before(c) + [Entry(leaf.node, leaf.data)] + After(c)
    ensures InOrder(Plug(c, Nil)) == Before(c) + After(c)
  {
    PlugOrder(c, Nil);
    PlugOrder(c, leaf);
    assert Before(c) + [] == Before(c);
    assert InOrder(leaf) == [Entry(leaf.node, leaf.data)];
    InsertSorted(cmp, Before(c), Entry(leaf.node, leaf.data), After(c));
    PlugNodes(c, Nil);
    PlugNodes(c, leaf);
  }

  // ... is the stable sorted insertion.
  lemma InsertedAt(cmp: (Data, Data) -> int, c: Ctx, leaf: Tree)
    requires Preorder(cmp) && Sorted(cmp, InOrder(Plug(c, Nil)))
    requires leaf.Bin? && leaf.left == Nil && leaf.right == Nil && Place(cmp, c, leaf.data)
    ensures var s := InOrder(Plug(c, Nil)); var k := UpperBound(cmp, s, leaf.data);
      InOrder(Plug(c, leaf)) == s[..k] + [Entry(leaf.node, leaf.data)] + s[k..]
  {
    LeafOrder(cmp, c, leaf);
    UpperBoundSplit(cmp, Before(c), After(c), leaf.data);
  }

  // ------------------------------------------------------------ neighbours

  lemma {:induction false} CtxNodesOrder(c: Ctx)
    ensures forall e :: e in Before(c) || e in After(c) ==> e.node in CtxNodes(c)
  {
    match c
    case Top =>
    case Hole(_, _, _, _, sib, up) =>
      InOrderNodes(sib);
      CtxNodesOrder(up);
  }

  // Position of the root of t within Plug(c, t).
  function Index(c: Ctx, t: Tree): nat
    requires t.Bin?
  {
    |Before(c)| + |InOrder(t.left)|
  }

  lemma SplitAt<T>(a: seq<T>, e: T, b: seq<T>)
    ensures (a + [e] + b)[|a|] == e && (a + [e] + b)[..|a|] == a && (a + [e] + b)[|a| + 1..] == b
  {
  }

  lemma Regroup5<T>(a: seq<T>, l: seq<T>, e: seq<T>, r: seq<T>, b: seq<T>)
    ensures a + (l + e + r) + b == (a + l) + e + (r + b)
  {
  }

  lemma Regroup4<T>(a: seq<T>, l: seq<T>, r: seq<T>, b: seq<T>)
    ensures a + (l + r) + b == (a + l) + (r + b)
  {
  }

  lemma Regroup3<T>(l: seq<T>, r: seq<T>, b: seq<T>)
    ensures (l + r) + b == l + (r + b)
  {
  }

  // What follows and what precedes the root of t.
  lemma NextEntry(c: Ctx, t: Tree)
    requires t.Bin?
    ensures var s, i := InOrder(Plug(c, t)), Index(c, t);
      && i < |s| && s[i] == Entry(t.node, t.data)
      && s[..i] == Before(c) + InOrder(t.left)
      && s[i + 1..] == InOrder(t.right) + After(c)
  {
    PlugOrder(c, t);
    Regroup5(Before(c), InOrder(t.left), [Entry(t.node, t.data)], InOrder(t.right), After(c));
    SplitAt(Before(c) + InOrder(t.left), Entry(t.node, t.data), InOrder(t.right) + After(c));
  }

  // The entries next to the root of t.
  lemma Neighbours(c: Ctx, t: Tree)
    requires t.Bin?
    ensures var s, k := InOrder(Plug(c, t)), Index(c, t);
      && k < |s|
      && (t.right.Bin? ==> k + 1 < |s| && s[k + 1] == InOrder(t.right)[0])
      && (t.right == Nil ==> (k + 1 < |s| <==> After(c) != []) && (After(c) != [] ==> s[k + 1] == After(c)[0]))
      && (t.left.Bin? ==> k > 0 && s[k - 1] == InOrder(t.left)[|InOrder(t.left)| - 1])
      && (t.left == Nil ==>
            (k > 0 <==> Before(c) != []) && (Before(c) != [] ==> s[k - 1] == Before(c)[|Before(c)| - 1]))
  {
    NextEntry(c, t);
    Beside(InOrder(Plug(c, t)), Index(c, t), Before(c), InOrder(t.left), InOrder(t.right), After(c));
  }

  lemma Beside<T>(s: seq<T>, k: nat, a: seq<T>, l: seq<T>, r: seq<T>, b: seq<T>)
    requires k < |s| && s[..k] == a + l && s[k + 1..] == r + b
    ensures k + 1 < |s| <==> r != [] || b != []
    ensures k > 0 <==> a != [] || l != []
    ensures r != [] ==> s[k + 1] == r[0]
    ensures r == [] && b != [] ==> s[k + 1] == b[0]
    ensures l != [] ==> s[k - 1] == l[|l| - 1]
    ensures l == [] && a != [] ==> s[k - 1] == a[|a| - 1]
  {
    assert |s| == k + 1 + |r| + |b| && k == |a| + |l|;
    if k + 1 < |s| {
      assert s[k + 1] == s[k + 1..][0];
    }
    if k > 0 {
      assert s[k - 1] == s[..k][k - 1];
    }
  }

  // Where no node occurs twice, the root of t occurs at Index(c, t) only.
  lemma {:induction false} IndexUnique(c: Ctx, t: Tree, i: nat)
    requires t.Bin? && Nodes(t) !! CtxNodes(c) && t.node !in Nodes(t.left) && t.node !in Nodes(t.right)
    requires i < |InOrder(Plug(c, t))|
    ensures InOrder(Plug(c, t))[i].node == t.node <==> i == Index(c, t)
  {
    NextEntry(c, t);
    CtxNodesOrder(c);
    InOrderNodes(t.left);
    InOrderNodes(t.right);
    var s, k := InOrder(Plug(c, t)), Index(c, t);
    if i < k {
      assert s[i] == s[..k][i] && s[i] in Before(c) + InOrder(t.left);
    } else if i > k {
      assert s[i] == s[k + 1..][i - k - 1] && s[i] in InOrder(t.right) + After(c);
    }
  }

  // ------------------------------------------------------------ pull_out

  // The way to the leftmost node.
  function MinCtx(c: Ctx, t: Tree): Ctx
    requires t.Bin?
    decreases t
  {
    if t.left == Nil then c else MinCtx(Down(Left, c, t), t.left)
  }

  function MinTree(t: Tree): (m: Tree)
    requires t.Bin?
    ensures m.Bin? && m.left == Nil
  {
    if t.left == Nil then t else MinTree(t.left)
  }

  function RemoveMin(t: Tree): Tree
    requires t.Bin?
  {
    if t.left == Nil then t.right else t.(left := RemoveMin(t.left))
  }

  lemma {:induction false} MinPlug(c: Ctx, t: Tree)
    requires t.Bin?
    ensures Plug(MinCtx(c, t), MinTree(t)) == Plug(c, t)
    ensures Plug(MinCtx(c, t), MinTree(t).right) == Plug(c, RemoveMin(t))
    ensures InOrder(t) == [Entry(MinTree(t).node, MinTree(t).data)] + InOrder(RemoveMin(t))
    ensures Before(MinCtx(c, t)) == Before(c)
    decreases t
  {
    if t.left != Nil {
      MinPlug(Down(Left, c, t), t.left);
      assert InOrder(t) == InOrder(t.left) + [Entry(t.node, t.data)] + InOrder(t.right);
    }
  }

  // The node taken out of the structure for the root of t, in the context that
  // already carries the data moved up to t's node.
  function PulledCtx(c: Ctx, t: Tree): Ctx
    requires t.Bin?
  {
    if t.left == Nil || t.right == Nil then c
    else MinCtx(Down(Right, c, t.(data := MinTree(t.right).data)), t.right)
  }

  // The same context before the data is moved.
  function PulledFrom(c: Ctx, t: Tree): Ctx
    requires t.Bin?
  {
    if t.left == Nil || t.right == Nil then c else MinCtx(Down(Right, c, t), t.right)
  }

  lemma {:induction false} SameHolder(c: Ctx, d: Ctx, t: Tree)
    requires t.Bin? && Holder(c) == Holder(d)
    ensures Holder(MinCtx(c, t)) == Holder(MinCtx(d, t))
    decreases t
  {
    if t.left != Nil {
      SameHolder(Down(Left, c, t), Down(Left, d, t), t.left);
    }
  }

  function Pulled(t: Tree): (m: Tree)
    requires t.Bin?
    ensures m.Bin? && (m.left == Nil || m.right == Nil)
  {
    if t.left == Nil || t.right == Nil then t else MinTree(t.right)
  }

  // The only child of the node taken out, if any.
  function OnlyChild(t: Tree): Tree
    requires t.Bin?
  {
    if t.left != Nil then t.left else t.right
  }

  lemma DatasConcat(a: seq<Entry>, b: seq<Entry>)
    ensures Datas(a + b) == Datas(a) + Datas(b)
  {
  }

  // Exactly the requested position leaves the data sequence.
  lemma PulledOrder(c: Ctx, t: Tree)
    requires t.Bin?
    ensures var s, i := InOrder(Plug(c, t)), Index(c, t);
      && i < |s|
      && Datas(InOrder(Plug(PulledCtx(c, t), OnlyChild(Pulled(t))))) == Datas(s[..i]) + Datas(s[i + 1..])
  {
    NextEntry(c, t);
    PulledPlug(c, t);
    var u := if t.left == Nil || t.right == Nil then SplicedTree(t) else SplicedTree(t).(data := Pulled(t).data);
    PlugOrder(c, u);
    var a, b := Before(c) + InOrder(t.left), InOrder(t.right) + After(c);
    if t.left == Nil || t.right == Nil {
      OnlyChildOrder(t);
      Regroup4(Before(c), InOrder(t.left), InOrder(t.right), After(c));
      DatasConcat(a, b);
    } else {
      var m := MinTree(t.right);
      MinPlug(Top, t.right);
      var e, rest := Entry(m.node, m.data), InOrder(RemoveMin(t.right)) + After(c);
      Regroup3([e], InOrder(RemoveMin(t.right)), After(c));
      Regroup5(Before(c), InOrder(t.left), [Entry(t.node, m.data)], InOrder(RemoveMin(t.right)), After(c));
      PulledDatas(a, Entry(t.node, m.data), e, rest);
    }
  }

  // ... and exactly one node leaves the entries: the root of t, or where that has two
  // children the next one, whose data it takes over.
  lemma PulledEntries(c: Ctx, t: Tree)
    requires t.Bin?
    ensures var s, i := InOrder(Plug(c, t)), Index(c, t);
      && i < |s| && (t.left != Nil && t.right != Nil ==> i + 1 < |s| && s[i + 1].data == Pulled(t).data)
      && InOrder(Plug(PulledCtx(c, t), OnlyChild(Pulled(t)))) == s[..i] +
           (if t.left != Nil && t.right != Nil then [Entry(t.node, s[i + 1].data)] + s[i + 2..] else s[i + 1..])
  {
    hide InOrder, Pulled, PulledCtx, OnlyChild, SplicedTree;
    if t.left == Nil || t.right == Nil {
      PulledSingle(c, t);
    } else {
      PulledDouble(c, t);
    }
  }

  lemma PulledSingle(c: Ctx, t: Tree)
    requires t.Bin? && (t.left == Nil || t.right == Nil)
    ensures var s, i := InOrder(Plug(c, t)), Index(c, t);
      i < |s| && InOrder(Plug(PulledCtx(c, t), OnlyChild(Pulled(t)))) == s[..i] + s[i + 1..]
  {
    hide InOrder;
    NextEntry(c, t);
    PlugOrder(c, OnlyChild(t));
    OnlyChildOrder(t);
    Regroup4(Before(c), InOrder(t.left), InOrder(t.right), After(c));
  }

  lemma PulledDouble(c: Ctx, t: Tree)
    requires t.Bin? && t.left != Nil && t.right != Nil
    ensures var s, i := InOrder(Plug(c, t)), Index(c, t);
      && i + 1 < |s| && s[i + 1].data == Pulled(t).data
      && InOrder(Plug(PulledCtx(c, t), OnlyChild(Pulled(t)))) == s[..i] + ([Entry(t.node, s[i + 1].data)] + s[i + 2..])
  {
    hide InOrder;
    NextEntry(c, t);
    PulledPlug(c, t);
    var m := MinTree(t.right);
    var rest := InOrder(RemoveMin(t.right)) + After(c);
    MinPlug(Top, t.right);
    Regroup3([Entry(m.node, m.data)], InOrder(RemoveMin(t.right)), After(c));
    AfterNext(InOrder(Plug(c, t)), Index(c, t), Entry(m.node, m.data), rest);
    MovedUp(c, t, m.data);
    Regroup3(Before(c) + InOrder(t.left), [Entry(t.node, m.data)], rest);
  }

  lemma MovedUp(c: Ctx, t: Tree, d: Data)
    requires t.Bin? && t.right != Nil
    ensures var u := t.(right := RemoveMin(t.right), data := d);
      InOrder(Plug(c, u)) == (Before(c) + InOrder(t.left)) + [Entry(t.node, d)] + (InOrder(u.right) + After(c))
  {
    var u := t.(right := RemoveMin(t.right), data := d);
    PlugOrder(c, u);
    Regroup5(Before(c), InOrder(t.left), [Entry(t.node, d)], InOrder(u.right), After(c));
  }

  lemma AfterNext<T>(s: seq<T>, i: nat, e: T, rest: seq<T>)
    requires i < |s| && s[i + 1..] == [e] + rest
    ensures i + 1 < |s| && s[i + 1] == e && s[i + 2..] == rest
  {
    assert |s[i + 1..]| == |s| - i - 1;
    assert s[i + 1] == s[i + 1..][0];
    assert s[i + 2..] == s[i + 1..][1..];
  }

  lemma OnlyChildOrder(t: Tree)
    requires t.Bin? && (t.left == Nil || t.right == Nil)
    ensures InOrder(OnlyChild(t)) == InOrder(t.left) + InOrder(t.right)
  {
  }

  lemma PulledDatas(a: seq<Entry>, e: Entry, f: Entry, rest: seq<Entry>)
    requires e.data == f.data
    ensures Datas(a + [e] + rest) == Datas(a) + Datas([f] + rest)
  {
    DatasConcat(a + [e], rest);
    DatasConcat(a, [e]);
    DatasConcat([f], rest);
  }

  // Splicing and moving the data, as seen at the hole of c.
  function SplicedTree(t: Tree): Tree
    requires t.Bin?
  {
    if t.left == Nil || t.right == Nil then OnlyChild(t) else t.(right := RemoveMin(t.right))
  }

  lemma PulledPlug(c: Ctx, t: Tree)
    requires t.Bin?
    ensures Plug(PulledFrom(c, t), Pulled(t)) == Plug(c, t)
    ensures Plug(PulledFrom(c, t), OnlyChild(Pulled(t))) == Plug(c, SplicedTree(t))
    ensures Holder(PulledFrom(c, t)) == Holder(PulledCtx(c, t))
    ensures t.left != Nil && t.right != Nil ==>
      && Plug(PulledCtx(c, t), OnlyChild(Pulled(t))) == Plug(c, SplicedTree(t).(data := Pulled(t).data))
      && Pulled(t).node == InOrder(t.right)[0].node
    ensures t.left == Nil || t.right == Nil ==> PulledCtx(c, t) == PulledFrom(c, t)
  {
    if t.left != Nil && t.right != Nil {
      var t' := t.(data := MinTree(t.right).data);
      MinPlug(Down(Right, c, t), t.right);
      MinPlug(Down(Right, c, t'), t.right);
      SameHolder(Down(Right, c, t), Down(Right, c, t'), t.right);
    }
  }

  lemma SortedDatas(cmp: (Data, Data) -> int, s: seq<Entry>, i: nat, u: seq<Entry>)
    requires Sorted(cmp, s) && i < |s| && Datas(u) == Datas(s[..i]) + Datas(s[i + 1..])
    ensures Sorted(cmp, u)
  {
    assert |u| == |Datas(u)| == |s| - 1;
    forall j | 0 <= j < |u|
      ensures u[j].data == s[if j < i then j else j + 1].data
    {
      assert Datas(u)[j] == u[j].data;
    }
  }

  // What is left for rb_delete_fixup to repair.
  lemma {:induction false} PulledDeficit(c: Ctx, t: Tree)
    requires t.Bin? && Rb(Plug(c, t))
    ensures var cc, m := PulledCtx(c, t), Pulled(t);
      && (m.color == Black ==> DeleteInv(cc, OnlyChild(m)))
      && (m.color == Red ==> Rb(Plug(cc, OnlyChild(m))))
  {
    var cc, m := PulledCtx(c, t), Pulled(t);
    PlugRb(c, t);
    if t.left != Nil && t.right != Nil {
      var t' := t.(data := m.data);
      PlugRb(c, t');
      MinPlug(Down(Right, c, t'), t.right);
    }
    assert Rb(Plug(cc, m));
    PlugRb(cc, m);
    PlugRb(cc, OnlyChild(m));
  }

  // ------------------------------------------------------------ the guard of a deletion

  ghost function Locate(t: Tree, n: Node, c: Ctx): (z: (Ctx, Tree))
    requires n in Nodes(t)
    ensures Plug(z.0, z.1) == Plug(c, t) && z.1.Bin? && z.1.node == n
    decreases t
  {
    if t.node == n then (c, t)
    else if n in Nodes(t.left) then Locate(t.left, n, Down(Left, c, t))
    else Locate(t.right, n, Down(Right, c, t))
  }

  // Deleting node n sends rb_delete_fixup into the branch that rotates the
  // sibling.
  ghost predicate DeletionMeetsNear(t: Tree, n: Node)
    requires n in Nodes(t)
  {
    var z := Locate(t, n, Top);
    Pulled(z.1).color == Black && MeetsNear(PulledCtx(z.0, z.1), Col(OnlyChild(Pulled(z.1))))
  }

  // What becomes of deleting node n as written.
  ghost function DeletionFate(t: Tree, n: Node): Fate
    requires n in Nodes(t)
  {
    var z := Locate(t, n, Top);
    PulledFate(z.0, z.1)
  }

  function PulledFate(c: Ctx, t: Tree): Fate
    requires t.Bin?
  {
    if Pulled(t).color == Red then Restored else FateOf(PulledCtx(c, t), Col(OnlyChild(Pulled(t))))
  }

  lemma FateOfDeletion(t: Tree, n: Node)
    requires n in Nodes(t)
    ensures DeletionFate(t, n) == Restored <==> !DeletionMeetsNear(t, n)
  {
    var z := Locate(t, n, Top);
    FateMeets(PulledCtx(z.0, z.1), Col(OnlyChild(Pulled(z.1))));
  }

  function Leaf(color: Color, n: Node, d: Data): Tree {
    Bin(color, Nil, n, d, Nil)
  }

  lemma LeafFacts(color: Color, n: Node, d: Data)
    ensures Ok(Leaf(color, n, d)) && BH(Leaf(color, n, d)) == Weight(color) && Nodes(Leaf(color, n, d)) == {n}
  {
  }

  // A deletion that reaches a NULL sibling: the left child of a black root, when the
  // right child is black with a red left child only.
  lemma NullSiblingExample(n1: Node, n2: Node, n3: Node, n4: Node, d: Data)
    requires n1 != n2 && n1 != n3 && n1 != n4 && n2 != n3 && n2 != n4 && n3 != n4
    ensures var t := Bin(Black, Leaf(Black, n2, d), n1, d, Bin(Black, Leaf(Red, n4, d), n3, d, Nil));
      Rb(t) && n2 in Nodes(t) && DeletionMeetsNear(t, n2) && DeletionFate(t, n2) == NullSibling
  {
    var l, r := Leaf(Black, n2, d), Bin(Black, Leaf(Red, n4, d), n3, d, Nil);
    var t := Bin(Black, l, n1, d, r);
    assert Ok(l) && Ok(r);
    assert Locate(t, n2, Top) == (Down(Left, Top, t), l);
  }

  // ... and one that ends on an unbalanced tree: one level further down on the left,
  // when that red left child has black children.
  lemma UnbalancedExample(n: seq<Node>, d: Data)
    requires |n| == 9 && forall i, j :: 0 <= i < j < 9 ==> n[i] != n[j]
    ensures var l := Bin(Black, Leaf(Black, n[2], d), n[1], d, Leaf(Black, n[3], d));
      var m := Bin(Red, Leaf(Black, n[6], d), n[5], d, Leaf(Black, n[7], d));
      var t := Bin(Black, l, n[0], d, Bin(Black, m, n[4], d, Leaf(Black, n[8], d)));
      Rb(t) && n[2] in Nodes(t) && DeletionMeetsNear(t, n[2]) && DeletionFate(t, n[2]) == Unbalanced
  {
    var x := Leaf(Black, n[2], d);
    var l := Bin(Black, x, n[1], d, Leaf(Black, n[3], d));
    var m := Bin(Red, Leaf(Black, n[6], d), n[5], d, Leaf(Black, n[7], d));
    var r := Bin(Black, m, n[4], d, Leaf(Black, n[8], d));
    var t := Bin(Black, l, n[0], d, r);
    LeafFacts(Black, n[2], d);
    LeafFacts(Black, n[3], d);
    LeafFacts(Black, n[6], d);
    LeafFacts(Black, n[7], d);
    LeafFacts(Black, n[8], d);
    assert Ok(l) && BH(l) == 2;
    assert Ok(m) && BH(m) == 1;
    assert Ok(r) && BH(r) == 2;
    assert Nodes(x) == {n[2]} && n[2] in Nodes(l) && n[2] in Nodes(t);
    var c1 := Down(Left, Top, t);
    var c := Down(Left, c1, l);
    assert Locate(l, n[2], c1) == (c, x);
    assert Locate(t, n[2], Top) == Locate(l, n[2], c1);
    assert FateOf(c, Black) == FateOf(c1, Black) == DriftFate(Left, m.left) == Unbalanced;
    FateOfDeletion(t, n[2]);
  }
}
