// lsd/tree.c on the heap: nodes with left, right and parent pointers, rewritten
// in place.
module TreeHeap {
  import opened Base
  import opened TreeShape
  import opened TreeImage
  import opened RedBlack
  import opened TreeOrder

  // struct tree
  class RbTree {
    var root: Node?
    const cmp: (Data, Data) -> int
    ghost var repr: set<Node>
    ghost var shape: Tree

    ghost function Img(): Image
      reads this`repr, repr
    {
      map n | n in repr :: Fields(n.left, n.right, n.parent, n.color, n.data)
    }

    ghost predicate Rep(t: Tree)
      reads this`repr, this`root, repr
    {
      Holds(Img(), t, root, null)
    }

    // A well-formed, parent-linked search tree over exactly the nodes of repr.
    ghost predicate WellFormed()
      reads this, repr
    {
      && Preorder(cmp) && Rep(shape) && Nodes(shape) == repr
      && Sorted(cmp, InOrder(shape))
    }

    // ... that is also a red-black tree.
    ghost predicate Valid()
      reads this, repr
    {
      WellFormed() && Rb(shape)
    }

    constructor (compare: (Data, Data) -> int)
      requires Preorder(compare)
      ensures Valid() && shape == Nil && cmp == compare
    {
      root, cmp := null, compare;
      repr, shape := {}, Nil;
    }

    method LeftRotate(node: Node)
      requires Rotatable(Left, Img(), node, root)
      modifies this`root, repr
      ensures old(node.right) == null ==> Img() == old(Img()) && root == old(root)
      ensures old(node.right) != null ==> Rotated(Left, old(Img()), Img(), node, old(node.right), old(root), root)
    {
      var right := node.right;
      if right == null {
        return;
      }
      node.right := right.left;
      if right.left != null {
        right.left.parent := node;
      }
      right.parent := node.parent;
      if node.parent == null {
        root := right;
      } else if node.parent.left == node {
        node.parent.left := right;
      } else {
        node.parent.right := right;
      }
      right.left := node;
      node.parent := right;
    }

    method RightRotate(node: Node)
      requires Rotatable(Right, Img(), node, root)
      modifies this`root, repr
      ensures old(node.left) == null ==> Img() == old(Img()) && root == old(root)
      ensures old(node.left) != null ==> Rotated(Right, old(Img()), Img(), node, old(node.left), old(root), root)
    {
      var left := node.left;
      if left == null {
        return;
      }
      node.left := left.right;
      if left.right != null {
        left.right.parent := node;
      }
      left.parent := node.parent;
      if node.parent == null {
        root := left;
      } else if node.parent.left == node {
        node.parent.left := left;
      } else {
        node.parent.right := left;
      }
      left.right := node;
      node.parent := left;
    }

    // left_rotate or right_rotate, seen as a step on the shape.
    method RotateAt(s: Side, node: Node, ghost c: Ctx, ghost t: Tree)
      requires Rep(Plug(c, t)) && t.Bin? && t.node == node && Child(s.Other(), t).Bin?
      modifies this`root, repr
      ensures Rep(Plug(c, Rotate(s, t)))
      ensures SameOrder(Plug(c, Rotate(s, t)), Plug(c, t))
    {
      RotatedOrder(s, c, t);
      RotationStart(s, Img(), c, t, root);
      ghost var h, r := Img(), root;
      if s == Left {
        LeftRotate(node);
      } else {
        RightRotate(node);
      }
      RotatedHolds(s, h, Img(), c, t, r, root);
    }

    // n->color = col
    method Paint(n: Node, col: Color, ghost c: Ctx, ghost t: Tree)
      requires Rep(Plug(c, t)) && t.Bin? && t.node == n
      modifies repr`color
      ensures Rep(Plug(c, t.(color := col)))
      ensures SameOrder(Plug(c, t.(color := col)), Plug(c, t))
    {
      PaintOrder(c, t, col);
      PaintHolds(Img(), c, t, col, root);
      ghost var h := Img();
      n.color := col;
      assert Img() == h[n := h[n].(color := col)];
    }

    // ------------------------------------------------------------ tree_insert

    method TreeInsert(d: Data) returns (node: Node, ghost c: Ctx)
      requires WellFormed()
      modifies this`root, this`repr, this`shape, repr`left, repr`right
      ensures fresh(node) && repr == old(repr) + {node}
      ensures Plug(c, Nil) == old(shape) && Place(cmp, c, d)
      ensures shape == Plug(c, Bin(node.color, Nil, node, d, Nil))
      ensures WellFormed()
    {
      hide Holds, HoldsCtx, Preorder, Nodes, CtxNodes;
      node := new Node(d);
      var parent: Node? := null;
      var current := root;
      ghost var t := shape;
      c := Top;
      FromRoot();
      while current != null
        modifies {}
        invariant At(Img(), c, t, current, root) && parent == Holder(c) && Plug(c, t) == shape
        invariant Place(cmp, c, d) && Sorted(cmp, InOrder(t))
        invariant c.Hole? ==> (c.side == Left <==> cmp(d, c.data) < 0)
        decreases t
      {
        parent := current;
        AtRoot(c, t, current);
        ghost var s := if cmp(d, t.data) < 0 then Left else Right;
        DownAt(s, Img(), c, t, current, root);
        PlaceDown(cmp, c, t, d);
        if cmp(node.data.value, current.data.value) < 0 {
          current := current.left;
        } else {
          current := current.right;
        }
        c, t := Down(s, c, t), Child(s, t);
      }
      AtRoot(c, t, current);
      LinkLeaf(node, parent, d, c);
    }

    lemma AtRoot(c: Ctx, t: Tree, p: Node?)
      requires At(Img(), c, t, p, root)
      ensures p == Root(t)
    {
    }

    // The last lines of tree_insert.
    method LinkLeaf(node: Node, parent: Node?, d: Data, ghost c: Ctx)
      requires WellFormed() && node !in repr
      requires At(Img(), c, Nil, null, root) && parent == Holder(c) && Plug(c, Nil) == shape
      requires node.left == null && node.right == null && node.data == Some(d)
      requires Place(cmp, c, d) && (c.Hole? ==> (c.side == Left <==> cmp(d, c.data) < 0))
      modifies this`root, this`repr, this`shape, repr`left, repr`right, node`parent
      ensures repr == old(repr) + {node}
      ensures shape == Plug(c, Bin(node.color, Nil, node, d, Nil))
      ensures WellFormed()
    {
      ghost var h, r := Img(), root;
      if c.Hole? {
        UpAt(h, c, Nil, null, root);
      }
      node.parent := parent;
      if parent == null {
        root := node;
      } else if cmp(node.data.value, parent.data.value) < 0 {
        parent.left := node;
      } else {
        parent.right := node;
      }
      repr := repr + {node};
      ghost var leaf := Bin(node.color, Nil, node, d, Nil);
      shape := Plug(c, leaf);
      LeafHolds(h, Img(), c, node, d, r, root);
      LeafOrder(cmp, c, leaf);
    }

    // ------------------------------------------------------------ neighbours

    // The pointers read below describe the shape.
    method TreeMinimum(start: Node, ghost c: Ctx, ghost t: Tree) returns (node: Node)
      requires At(Img(), c, t, start, root) && t.Bin?
      ensures node == InOrder(t)[0].node
    {
      node := start;
      ghost var k, u := c, t;
      DownAt(Left, Img(), k, u, node, root);
      while node.left != null
        invariant At(Img(), k, u, node, root) && u.Bin?
        invariant node in repr && (node.left == null ==> u.left == Nil)
        invariant InOrder(u)[0] == InOrder(t)[0]
        decreases u
      {
        DownAt(Left, Img(), k, u, node, root);
        node := node.left;
        k, u := Down(Left, k, u), u.left;
        DownAt(Left, Img(), k, u, node, root);
      }
    }

    method TreeMaximum(start: Node, ghost c: Ctx, ghost t: Tree) returns (node: Node)
      requires At(Img(), c, t, start, root) && t.Bin?
      ensures node == InOrder(t)[|InOrder(t)| - 1].node
    {
      node := start;
      ghost var k, u := c, t;
      DownAt(Right, Img(), k, u, node, root);
      while node.right != null
        invariant At(Img(), k, u, node, root) && u.Bin?
        invariant node in repr && (node.right == null ==> u.right == Nil)
        invariant InOrder(u)[|InOrder(u)| - 1] == InOrder(t)[|InOrder(t)| - 1]
        decreases u
      {
        DownAt(Right, Img(), k, u, node, root);
        node := node.right;
        k, u := Down(Right, k, u), u.right;
        DownAt(Right, Img(), k, u, node, root);
      }
    }

    // The climbing half of tree_successor.
    method ClimbRight(start: Node, ghost c0: Ctx, ghost t0: Tree) returns (next: Node?)
      requires At(Img(), c0, t0, start, root) && t0.Bin?
      ensures next == if After(c0) == [] then null else After(c0)[0].node
    {
      hide Holds, HoldsCtx, At, InOrder;
      var node := start;
      ghost var c, t := c0, t0;
      DownAt(Left, Img(), c, t, node, root);
      next := node.parent;
      if c.Hole? {
        UpAt(Img(), c, t, node, root);
      }
      while next != null && node == next.right
        invariant At(Img(), c, t, node, root) && next == Holder(c)
        invariant c.Hole? ==> next in repr && (node == next.right <==> c.side == Right)
        invariant After(c) == After(c0)
        decreases c
      {
        assert c.Hole?;
        UpAt(Img(), c, t, node, root);
        node := next;
        next := next.parent;
        c, t := c.up, Join(c.side, c.color, t, c.node, c.data, c.sib);
        if c.Hole? {
          UpAt(Img(), c, t, node, root);
        }
      }
    }

    // The climbing half of tree_predecessor.
    method ClimbLeft(start: Node, ghost c0: Ctx, ghost t0: Tree) returns (next: Node?)
      requires At(Img(), c0, t0, start, root) && t0.Bin?
      ensures next == if Before(c0) == [] then null else Before(c0)[|Before(c0)| - 1].node
    {
      hide Holds, HoldsCtx, At, InOrder;
      var node := start;
      ghost var c, t := c0, t0;
      DownAt(Left, Img(), c, t, node, root);
      next := node.parent;
      if c.Hole? {
        UpAt(Img(), c, t, node, root);
      }
      while next != null && node == next.left
        invariant At(Img(), c, t, node, root) && next == Holder(c)
        invariant c.Hole? ==> next in repr && (node == next.left <==> c.side == Left)
        invariant Before(c) == Before(c0)
        decreases c
      {
        assert c.Hole?;
        UpAt(Img(), c, t, node, root);
        node := next;
        next := next.parent;
        c, t := c.up, Join(c.side, c.color, t, c.node, c.data, c.sib);
        if c.Hole? {
          UpAt(Img(), c, t, node, root);
        }
      }
    }

    method TreeSuccessor(node: Node, ghost i: nat) returns (next: Node?)
      requires WellFormed() && i < |InOrder(shape)| && InOrder(shape)[i].node == node
      ensures next == if i + 1 < |InOrder(shape)| then InOrder(shape)[i + 1].node else null
    {
      ghost var z := PositionOf(node, i);
      Neighbours(z.0, z.1);
      DownAt(Right, Img(), z.0, z.1, node, root);
      if node.right != null {
        next := TreeMinimum(node.right, Down(Right, z.0, z.1), z.1.right);
      } else {
        next := ClimbRight(node, z.0, z.1);
      }
    }

    method TreePredecessor(node: Node, ghost i: nat) returns (next: Node?)
      requires WellFormed() && i < |InOrder(shape)| && InOrder(shape)[i].node == node
      ensures next == if i > 0 then InOrder(shape)[i - 1].node else null
    {
      ghost var z := PositionOf(node, i);
      Neighbours(z.0, z.1);
      DownAt(Left, Img(), z.0, z.1, node, root);
      if node.left != null {
        next := TreeMaximum(node.left, Down(Left, z.0, z.1), z.1.left);
      } else {
        next := ClimbLeft(node, z.0, z.1);
      }
    }

    lemma PositionOf(node: Node, i: nat) returns (z: (Ctx, Tree))
      requires WellFormed() && i < |InOrder(shape)| && InOrder(shape)[i].node == node
      ensures Plug(z.0, z.1) == shape && z.1.Bin? && z.1.node == node && i == Index(z.0, z.1)
      ensures node in repr && At(Img(), z.0, z.1, node, root) && z == Locate(shape, node, Top)
    {
      InOrderNodes(shape);
      assert InOrder(shape)[i] in InOrder(shape);
      z := Locate(shape, node, Top);
      var p := Focus(Img(), z.0, z.1, root);
      IndexUnique(z.0, z.1, i);
    }

    // ------------------------------------------------------------ tree_search

    method SearchR(node: Node?, key: Data, ghost c: Ctx, ghost t: Tree) returns (r: Node?)
      requires At(Img(), c, t, node, root)
      ensures r == Search(cmp, t, key)
      decreases t
    {
      if node == null {
        return null;
      }
      DownAt(Left, Img(), c, t, node, root);
      DownAt(Right, Img(), c, t, node, root);
      var res := cmp(key, node.data.value);
      if res == 0 {
        return node;
      }
      if res < 0 {
        r := SearchR(node.left, key, Down(Left, c, t), t.left);
      } else {
        r := SearchR(node.right, key, Down(Right, c, t), t.right);
      }
    }

    method TreeSearch(key: Data) returns (r: Node?)
      requires WellFormed()
      ensures r == null <==> forall n :: n in repr ==> n.data.Some? && cmp(key, n.data.value) != 0
      ensures r != null ==> r in repr && r.data.Some? && cmp(key, r.data.value) == 0
      ensures r == Search(cmp, shape, key)
    {
      r := SearchR(root, key, Top, shape);
      SearchCorrect(cmp, shape, key);
      HoldsData(Img(), shape, root, null);
    }

    // tree_minimum followed by tree_successor until NULL: every node once, in
    // order.
    method Iterate() returns (nodes: seq<Node>)
      requires WellFormed()
      ensures |nodes| == |InOrder(shape)|
      ensures forall i :: 0 <= i < |nodes| ==> nodes[i] == InOrder(shape)[i].node
    {
      hide WellFormed, InOrder;
      nodes := [];
      ghost var s := InOrder(shape);
      FromRoot();
      if root == null {
        return;
      }
      var node: Node? := TreeMinimum(root, Top, shape);
      while node != null
        invariant |nodes| <= |s|
        invariant forall i :: 0 <= i < |nodes| ==> nodes[i] == s[i].node
        invariant node == if |nodes| < |s| then s[|nodes|].node else null
        decreases |s| - |nodes|
      {
        nodes := nodes + [node];
        node := TreeSuccessor(node, |nodes| - 1);
      }
    }

    lemma FromRoot()
      requires WellFormed()
      ensures At(Img(), Top, shape, root, root) && (root == null <==> shape == Nil)
      ensures shape == Nil <==> InOrder(shape) == []
    {
    }

    // ------------------------------------------------------------ rb_insert

    // One pass of the loop of rb_insert whose parent is the child of the
    // grandparent on side s; the source spells out both sides.
    method InsertPass(s: Side, current: Node, ghost c: Ctx, ghost t: Tree)
        returns (next: Node, ghost c': Ctx, ghost t': Tree)
      requires Rep(Plug(c, t)) && InsertInv(c, t) && t.node == current
      requires c.Hole? && c.color == Red && c.up.Hole? && c.up.side == s
      modifies this`root, repr
      ensures Rep(Plug(c', t')) && InsertInv(c', t') && t'.node == next
      ensures SameOrder(Plug(c', t'), Plug(c, t)) && InsertMeasure(c') < InsertMeasure(c)
    {
      ghost var p := Focus(Img(), c, t, root);
      UpAt(Img(), c, t, current, root);
      ghost var u := Join(c.side, c.color, t, c.node, c.data, c.sib);
      UpAt(Img(), c.up, u, c.node, root);
      var parent := current.parent;
      var grand := parent.parent;
      var uncle := if s == Left then grand.right else grand.left;
      if uncle != null && uncle.color == Red {
        next := InsertRecolourPass(parent, uncle, grand, c, t);
        c', t' := c.up.up, InsertRecolour(c, t);
        InsertRecolourKeeps(c, t);
      } else if current == (if s == Left then parent.right else parent.left) {
        next := parent;
        RotateAt(s, next, c.up, u);
        c', t' := InsertInnerCtx(c, t), InsertInnerTree(c, t);
        InsertInnerKeeps(c, t);
      } else {
        next := current;
        InsertOuterPass(s, parent, grand, c, t);
        c', t' := InsertOuterCtx(c), t;
        InsertOuterKeeps(c, t);
      }
    }

    method InsertRecolourPass(parent: Node, uncle: Node, grand: Node, ghost c: Ctx, ghost t: Tree)
        returns (current: Node)
      requires c.Hole? && c.up.Hole? && c.up.sib.Bin?
      requires Rep(Plug(c, t)) && parent == c.node && grand == c.up.node && uncle == c.up.sib.node
      modifies repr`color
      ensures Rep(Plug(c.up.up, InsertRecolour(c, t))) && current == grand
      ensures SameOrder(Plug(c.up.up, InsertRecolour(c, t)), Plug(c, t))
    {
      Paint(parent, Black, c.up, Join(c.side, c.color, t, c.node, c.data, c.sib));
      ghost var u := Join(c.side, Black, t, c.node, c.data, c.sib);
      ghost var g := c.up;
      Paint(uncle, Black, g.(side := g.side.Other(), sib := u), g.sib);
      current := grand;
      Paint(current, Red, g.up, Join(g.side, g.color, u, g.node, g.data, g.sib.(color := Black)));
    }

    method InsertOuterPass(s: Side, parent: Node, grand: Node, ghost c: Ctx, ghost t: Tree)
      requires c.Hole? && c.up.Hole? && c.side == c.up.side == s
      requires Rep(Plug(c, t)) && parent == c.node && grand == c.up.node
      modifies this`root, repr
      ensures var u := Plug(c.up.up, Rotate(s.Other(), Join(s, Red,
            Join(s, Black, t, c.node, c.data, c.sib), c.up.node, c.up.data, c.up.sib)));
        Rep(u) && SameOrder(u, Plug(c, t))
    {
      Paint(parent, Black, c.up, Join(s, c.color, t, c.node, c.data, c.sib));
      ghost var u := Join(s, Black, t, c.node, c.data, c.sib);
      ghost var g := c.up;
      Paint(grand, Red, g.up, Join(s, g.color, u, g.node, g.data, g.sib));
      RotateAt(s.Other(), grand, g.up, Join(s, Red, u, g.node, g.data, g.sib));
    }

    // The loop of rb_insert and its last assignment.
    method InsertFixup(node: Node, ghost c0: Ctx, ghost t0: Tree)
      requires Rep(Plug(c0, t0)) && InsertInv(c0, t0) && t0.node == node
      modifies this`root, this`shape, repr
      ensures Rep(shape) && Rb(shape) && SameOrder(shape, Plug(c0, t0))
    {
      ghost var c, t := c0, t0;
      var current := node;
      while current != root && current.parent != null && current.parent.color == Red
        invariant Rep(Plug(c, t)) && InsertInv(c, t) && t.node == current
        invariant SameOrder(Plug(c, t), Plug(c0, t0))
        decreases InsertMeasure(c)
      {
        FocusUp(c, t);
        InsertGrandparent(c, t);
        if current.parent == current.parent.parent.left {
          current, c, t := InsertPass(Left, current, c, t);
        } else {
          current, c, t := InsertPass(Right, current, c, t);
        }
      }
      FocusUp(c, t);
      InsertDone(c, t);
      Paint(root, Black, Top, Plug(c, t));
      shape := Blacken(Plug(c, t));
    }

    method RbInsert(d: Data) returns (node: Node)
      requires Valid()
      modifies this`root, this`repr, this`shape, repr
      ensures Valid() && fresh(node) && repr == old(repr) + {node}
      ensures var s, k := old(InOrder(shape)), UpperBound(cmp, old(InOrder(shape)), d);
        InOrder(shape) == s[..k] + [Entry(node, d)] + s[k..]
    {
      ghost var c;
      node, c := TreeInsert(d);
      ghost var t := Bin(node.color, Nil, node, d, Nil);
      InsertedAt(cmp, c, t);
      PlugRb(c, Nil);
      Paint(node, Red, c, t);
      InsertFixup(node, c, t.(color := Red));
    }

    // What rb_insert sees above current.
    lemma FocusUp(c: Ctx, t: Tree)
      requires Rep(Plug(c, t)) && t.Bin?
      ensures t.node in repr && t.node.parent == Holder(c)
      ensures c == Top <==> root == t.node
      ensures root != null && root in repr && Plug(c, t).Bin? && Plug(c, t).node == root
      ensures c.Hole? ==>
        && c.node in repr && c.node.color == c.color && c.node.parent == Holder(c.up)
        && (c.up.Hole? ==> c.up.node in repr && (c.node == c.up.node.left <==> c.up.side == Left))
    {
      var p := Focus(Img(), c, t, root);
      DownAt(Left, Img(), c, t, p, root);
      if c.Hole? {
        UpAt(Img(), c, t, p, root);
        RootAbove(Img(), c, p, root);
        if c.up.Hole? {
          UpAt(Img(), c.up, Join(c.side, c.color, t, c.node, c.data, c.sib), c.node, root);
        }
      }
      HoldsRoot(Img(), c, t, root);
    }

    // ------------------------------------------------------------ rb_delete_fixup

    // rb_color
    function RbColor(node: Node?): Color
      reads node
    {
      if node == null then Black else node.color
    }

    function Get(node: Node, s: Side): Node?
      reads node
    {
      if s == Left then node.left else node.right
    }

    // A red sibling is repainted and rotated above the parent.
    method RedSiblingPass(s: Side, parent: Node, sibling: Node, ghost c: Ctx, ghost t: Tree)
      requires c.Hole? && c.side == s && c.sib.Bin? && parent == c.node && sibling == c.sib.node
      requires Rep(Plug(c, t))
      modifies this`root, repr
      ensures Rep(Plug(RedSibling(c), t)) && SameOrder(Plug(RedSibling(c), t), Plug(c, t))
    {
      Paint(sibling, Black, SiblingCtx(c, t), c.sib);
      Paint(parent, Red, c.up, Join(s, c.color, t, c.node, c.data, c.sib.(color := Black)));
      RotateAt(s, parent, c.up, Join(s, Red, t, c.node, c.data, c.sib.(color := Black)));
      RedSiblingPlug(c, t);
    }

    // The terminal case.
    method FarRedPass(s: Side, parent: Node, sibling: Node, far: Node, ghost c: Ctx, ghost t: Tree)
      requires c.Hole? && c.side == s && c.sib.Bin? && Child(s.Other(), c.sib).Bin?
      requires parent == c.node && sibling == c.sib.node && far == Child(s.Other(), c.sib).node
      requires Rep(Plug(c, t)) && parent in repr && parent.color == c.color
      modifies this`root, repr
      ensures Rep(Plug(c.up, FarRed(c, t))) && SameOrder(Plug(c.up, FarRed(c, t)), Plug(c, t))
    {
      ghost var q := c.sib;
      Paint(sibling, parent.color, SiblingCtx(c, t), q);
      ghost var q1 := q.(color := c.color);
      Paint(parent, Black, c.up, Join(s, c.color, t, c.node, c.data, q1));
      ghost var o, d := s.Other(), SiblingCtx(c.(color := Black), t);
      ghost var far1 := Child(o, q).(color := Black);
      PlugDown(o, d, q1, far1);
      Paint(far, Black, Down(o, d, q1), Child(o, q1));
      ghost var q2 := Join(o, c.color, far1, q.node, q.data, Child(s, q));
      PlugSibling(c.(color := Black), t, q2);
      RotateAt(s, parent, c.up, Join(s, Black, t, c.node, c.data, q2));
      FarRedPlug(c, t);
    }

    // The branch that rotates the sibling.  As written, the near child is painted
    // red; repaired, it becomes black and the sibling red.
    method NearRedPass(s: Side, sibling: Node, near: Node, repaired: bool, ghost c: Ctx, ghost t: Tree)
      requires c.Hole? && c.side == s && NearOnly(s, c.sib)
      requires sibling == c.sib.node && near == Child(s, c.sib).node
      requires Rep(Plug(c, t))
      modifies this`root, repr
      ensures var c' := if repaired then NearRotated(c, Black, Red) else NearRotated(c, Red, Black);
        Rep(Plug(c', t)) && SameOrder(Plug(c', t), Plug(c, t))
    {
      ghost var top, down := if repaired then Black else Red, if repaired then Red else Black;
      ghost var d, q := SiblingCtx(c, t), c.sib;
      ghost var near1 := Child(s, q).(color := top);
      PlugSibling(c, t, q);
      PlugDown(s, d, q, near1);
      ghost var q1 := Join(s, Black, near1, q.node, q.data, Child(s.Other(), q));
      if repaired {
        Paint(near, Black, Down(s, d, q), Child(s, q));
        Paint(sibling, Red, d, q1);
      } else {
        Paint(near, Red, Down(s, d, q), Child(s, q));
      }
      RotateAt(s.Other(), sibling, d, q1.(color := down));
      PlugSibling(c, t, Rotate(s.Other(), q1.(color := down)));
    }

    // What rb_delete_fixup reads around the hole.
    lemma FixupView(c: Ctx, t: Tree)
      requires Rep(Plug(c, t)) && c.Hole?
      ensures c.node in repr && c.node.parent == Holder(c.up) && c.node.color == c.color
      ensures Get(c.node, c.side.Other()) == if c.sib.Bin? then c.sib.node else null
      ensures Get(c.node, c.side) == if t.Bin? then t.node else null
      ensures t.Bin? ==> t.node in repr && t.node.color == t.color && t.node != root && c.node.left != c.node.right
      ensures c.sib.Bin? ==>
        && c.sib.node in repr && c.sib.node.color == c.sib.color && c.node.left != c.node.right
        && var l, r := c.sib.node.left, c.sib.node.right;
        && (l == if c.sib.left.Bin? then c.sib.left.node else null)
        && (r == if c.sib.right.Bin? then c.sib.right.node else null)
        && RbColor(l) == Col(c.sib.left) && RbColor(r) == Col(c.sib.right)
      ensures root != null
    {
      var p := Focus(Img(), c, t, root);
      UpAt(Img(), c, t, p, root);
      RootAbove(Img(), c, p, root);
      if t.Bin? {
        DownAt(Left, Img(), c, t, p, root);
      }
      if c.sib.Bin? {
        SiblingView(SiblingCtx(c, t), c.sib);
      }
    }

    lemma SiblingView(c: Ctx, t: Tree)
      requires Rep(Plug(c, t)) && t.Bin?
      ensures t.node in repr && t.node.color == t.color
      ensures t.node.left == (if t.left.Bin? then t.left.node else null) && RbColor(t.node.left) == Col(t.left)
      ensures t.node.right == (if t.right.Bin? then t.right.node else null) && RbColor(t.node.right) == Col(t.right)
    {
      var p := Focus(Img(), c, t, root);
      DownAt(Left, Img(), c, t, p, root);
      DownAt(Right, Img(), c, t, p, root);
      if t.left.Bin? {
        DownAt(Left, Img(), Down(Left, c, t), t.left, t.node.left, root);
      }
      if t.right.Bin? {
        DownAt(Left, Img(), Down(Right, c, t), t.right, t.node.right, root);
      }
    }

    // One pass of the loop, for a hole on side s of its parent; the source spells
    // out both sides.  ok is false where the source dereferences a NULL sibling.
    method DeletePass(s: Side, parent: Node, node: Node?, repaired: bool,
                      ghost ph: Phase, ghost c: Ctx, ghost t: Tree, ghost fate: Fate)
        returns (ok: bool, parent': Node?, node': Node?, ghost ph': Phase, ghost c': Ctx, ghost t': Tree)
      requires Rep(Plug(c, t)) && LoopState(ph, c, t, repaired, fate)
      requires c.Hole? && c.side == s && parent == c.node && node == Root(t) && Col(t) == Black
      modifies this`root, repr
      ensures !ok ==> !repaired && fate == NullSibling
      ensures ok ==> Rep(Plug(c', t')) && SameOrder(Plug(c', t'), Plug(c, t))
      ensures ok ==> LoopState(ph', c', t', repaired, fate) && parent' == Holder(c') && node' == Root(t')
      ensures ok ==> Progress(ph, c, t, ph', c', t')
    {
      PassStart(ph, c, t, repaired, fate);
      FixupView(c, t);
      var sibling := Get(parent, s.Other());
      ghost var c1 := c;
      if RbColor(sibling) == Red {
        RedSiblingPass(s, parent, sibling, c, t);
        c1 := RedSibling(c);
        FixupView(c1, t);
        sibling := Get(parent, s.Other());
      }
      if sibling == null {
        ok, parent', node', ph', c', t' := false, parent, node, ph, c, t;
        return;
      }
      ok, ph', c', t', parent', node' := DeletePassEnd(s, parent, node, sibling, repaired, ph, c, c1, t, fate);
    }

    method DeletePassEnd(s: Side, parent: Node, node: Node?, sibling: Node, repaired: bool,
                         ghost ph: Phase, ghost c0: Ctx, ghost c: Ctx, ghost t: Tree, ghost fate: Fate)
        returns (ok: bool, ghost ph': Phase, ghost c': Ctx, ghost t': Tree, parent': Node?, node': Node?)
      requires Rep(Plug(c, t)) && MidState(ph, c0, c, t, repaired, fate)
      requires c.side == s && parent == c.node && node == Root(t) && sibling == Root(c.sib)
      modifies this`root, repr
      ensures ok && Rep(Plug(c', t')) && SameOrder(Plug(c', t'), Plug(c, t))
      ensures LoopState(ph', c', t', repaired, fate) && parent' == Holder(c') && node' == Root(t')
      ensures Progress(ph, c0, t, ph', c', t')
    {
      ok := true;
      FixupView(c, t);
      if RbColor(sibling.left) == Black && RbColor(sibling.right) == Black {
        Paint(sibling, Red, SiblingCtx(c, t), c.sib);
        PlugSibling(c, t, c.sib.(color := Red));
        FixupView(c.(sib := c.sib.(color := Red)), t);
        node' := parent;
        parent' := parent.parent;
        c', t' := c.up, RecolourSibling(c, t);
        ph' := PassRecolour(ph, c0, c, t, repaired, fate);
      } else if RbColor(Get(sibling, s.Other())) == Black {
        NearRedPass(s, sibling, Get(sibling, s), repaired, c, t);
        node', parent' := node, parent;
        c', t' := if repaired then NearRotated(c, Black, Red) else NearRotated(c, Red, Black), t;
        ph' := PassNear(ph, c0, c, t, repaired, fate);
      } else {
        FarRedPass(s, parent, sibling, Get(sibling, s.Other()), c, t);
        node', parent' := root, null;
        c', t' := Top, Plug(c.up, FarRed(c, t));
        ph' := PassFar(ph, c0, c, t, repaired, fate);
      }
    }

    // The body of the loop: one half of it for each side.
    method DeleteTurn(parent: Node?, node: Node?, repaired: bool,
                      ghost ph: Phase, ghost c: Ctx, ghost t: Tree, ghost fate: Fate)
        returns (ok: bool, parent': Node?, node': Node?, ghost ph': Phase, ghost c': Ctx, ghost t': Tree)
      requires Rep(Plug(c, t)) && LoopState(ph, c, t, repaired, fate)
      requires c.Hole? && parent == c.node && node == Root(t) && Col(t) == Black
      modifies this`root, repr
      ensures !ok ==> !repaired && fate == NullSibling
      ensures ok ==> Rep(Plug(c', t')) && SameOrder(Plug(c', t'), Plug(c, t))
      ensures ok ==> LoopState(ph', c', t', repaired, fate) && parent' == Holder(c') && node' == Root(t')
      ensures ok ==> Progress(ph, c, t, ph', c', t')
    {
      PassStart(ph, c, t, repaired, fate);
      FixupView(c, t);
      if node == parent.left {
        ok, parent', node', ph', c', t' := DeletePass(Left, parent, node, repaired, ph, c, t, fate);
      } else {
        ok, parent', node', ph', c', t' := DeletePass(Right, parent, node, repaired, ph, c, t, fate);
      }
    }

    method RbDeleteFixup(parent0: Node?, node0: Node?, repaired: bool, ghost c0: Ctx, ghost t0: Tree) returns (ok: bool)
      requires Rep(Plug(c0, t0)) && DeleteInv(c0, t0) && parent0 == Holder(c0) && node0 == Root(t0)
      modifies this`root, this`shape, repr
      ensures ok ==> Rep(shape) && SameOrder(shape, Plug(c0, t0))
      ensures ok <==> repaired || FateOf(c0, Col(t0)) != NullSibling
      ensures ok && Rb(shape) <==> repaired || !MeetsNear(c0, Col(t0))
    {
      hide MeetsNear, FateOf, DriftFate, DeleteInv, TopBlack, Skewed;
      var parent, node := parent0, node0;
      ghost var ph, c, t, fate := Sound, c0, t0, FateOf(c0, Col(t0));
      FateMeets(c0, Col(t0));
      LoopView(c, t);
      while node != root && RbColor(node) == Black
        invariant Rep(Plug(c, t)) && SameOrder(Plug(c, t), Plug(c0, t0))
        invariant LoopState(ph, c, t, repaired, fate) && parent == Holder(c) && node == Root(t)
        invariant (node == root <==> c == Top) && RbColor(node) == Col(t)
        decreases LoopRank(ph), LoopMeasure(ph, c, t)
      {
        ok, parent, node, ph, c, t := DeleteTurn(parent, node, repaired, ph, c, t, fate);
        if !ok {
          return;
        }
        LoopView(c, t);
      }
      LoopDone(ph, c, t, repaired, fate);
      ok := true;
      if node != null {
        Paint(node, Black, c, t);
      }
      shape := Plug(c, Blacken(t));
    }

    lemma LoopView(c: Ctx, t: Tree)
      requires Rep(Plug(c, t))
      ensures (Root(t) == root <==> c == Top)
      ensures t.Bin? ==> t.node in repr
      ensures RbColor(Root(t)) == Col(t)
    {
      if c.Hole? {
        FixupView(c, t);
      }
    }

    // ------------------------------------------------------------ pull_out, rb_delete

    // The splice in pull_out: the only child of current takes its place.
    method Splice(current: Node, ghost c: Ctx, ghost t: Tree)
      requires Rep(Plug(c, t)) && t.Bin? && t.node == current && (t.left == Nil || t.right == Nil)
      modifies this`root, repr`left, repr`right, repr`parent
      ensures Rep(Plug(c, OnlyChild(t))) && current in repr
      ensures current.parent == Holder(c)
      ensures (if current.left != null then current.left else current.right) == Root(OnlyChild(t))
    {
      hide Holds, HoldsCtx, Plug;
      ghost var h, r := Img(), root;
      ghost var p := Focus(h, c, t, root);
      DownAt(Left, h, c, t, current, root);
      DownAt(Right, h, c, t, current, root);
      if c.Hole? {
        UpAt(h, c, t, current, root);
      }
      SpliceView(h, c, t);
      var parent := current.parent;
      var next := current.left;
      if current.left == null {
        next := current.right;
      }
      if next != null {
        next.parent := parent;
      }
      if parent == null {
        root := next;
      } else if current == parent.left {
        parent.left := next;
      } else {
        parent.right := next;
      }
      SpliceHolds(h, Img(), c, t, next, r, root);
    }

    lemma SpliceView(h: Image, c: Ctx, t: Tree)
      requires t.Bin? && At(h, c, t, t.node, root) && (t.left == Nil || t.right == Nil)
      ensures Holder(c) != null ==> Holder(c) in CtxNodes(c) && Holder(c) != t.node && Holder(c) !in Nodes(t)
      ensures OnlyChild(t).Bin? ==>
        OnlyChild(t).node in Nodes(t) && OnlyChild(t).node in h && OnlyChild(t).node != t.node
    {
      HoldsKeys(h, t, t.node, Holder(c));
    }

    // mem_free(node->data) and the move of the data.
    method MoveData(node: Node, current: Node, ghost c: Ctx, ghost t: Tree)
      requires t.Bin? && t.node == node && current == Pulled(t).node
      requires Holds(Img(), Plug(c, SplicedTree(t)), root, null)
      requires node in repr && current in repr && current.data == Some(Pulled(t).data)
      requires Nodes(Plug(c, SplicedTree(t))) == repr - {current}
      requires node != current <==> t.left != Nil && t.right != Nil
      modifies this`repr, this`shape, {node, current}`data
      ensures shape == Plug(PulledCtx(c, t), OnlyChild(Pulled(t)))
      ensures Rep(shape) && repr == old(repr) - {current} && Nodes(shape) == repr
    {
      PulledPlug(c, t);
      ghost var h := Img();
      ghost var u := SplicedTree(t);
      if node != current {
        node.data := current.data;
        DataHolds(h, c, u, Pulled(t).data, root);
        assert Img() == h[node := h[node].(data := Some(Pulled(t).data))];
        PlugNodes(c, u);
        u := u.(data := Pulled(t).data);
        PlugNodes(c, u);
      }
      h := Img();
      current.data := None;
      repr := repr - {current};
      shape := Plug(c, u);
      HoldsFrame(h, Img(), shape, root, null);
    }

    // Returns the node taken out of the structure; the data of the requested
    // position has left the sequence.
    method PullOut(node: Node, ghost c: Ctx, ghost t: Tree) returns (current: Node)
      requires WellFormed() && Plug(c, t) == shape && t.Bin? && t.node == node
      modifies this`root, this`repr, this`shape, repr`left, repr`right, repr`parent, repr`data
      ensures WellFormed() && shape == Plug(PulledCtx(c, t), OnlyChild(Pulled(t)))
      ensures current == Pulled(t).node && current in old(repr) && repr == old(repr) - {current}
      ensures current.color == Pulled(t).color && current.parent == Holder(PulledCtx(c, t))
      ensures (if current.left != null then current.left else current.right) == Root(OnlyChild(Pulled(t)))
    {
      PullOutView(c, t);
      if node.left == null || node.right == null {
        current := node;
      } else {
        var next := TreeSuccessor(node, Index(c, t));
        current := next;
      }
      Splice(current, PulledFrom(c, t), Pulled(t));
      MoveData(node, current, c, t);
    }

    lemma PullOutView(c: Ctx, t: Tree)
      requires WellFormed() && Plug(c, t) == shape && t.Bin?
      ensures t.node in repr && t.node.left == Root(t.left) && t.node.right == Root(t.right)
      ensures var m := Pulled(t);
        && m.node in repr && m.node.data == Some(m.data) && m.node.color == m.color
        && Nodes(Plug(c, SplicedTree(t))) == repr - {m.node}
        && (t.node != m.node <==> t.left != Nil && t.right != Nil)
      ensures Index(c, t) < |InOrder(shape)| && InOrder(shape)[Index(c, t)].node == t.node
      ensures t.left != Nil && t.right != Nil ==>
        Index(c, t) + 1 < |InOrder(shape)| && InOrder(shape)[Index(c, t) + 1].node == Pulled(t).node
      ensures Plug(PulledFrom(c, t), Pulled(t)) == shape
      ensures Plug(PulledFrom(c, t), OnlyChild(Pulled(t))) == Plug(c, SplicedTree(t))
      ensures Holder(PulledFrom(c, t)) == Holder(PulledCtx(c, t))
      ensures Sorted(cmp, InOrder(Plug(PulledCtx(c, t), OnlyChild(Pulled(t)))))
    {
      var p := Focus(Img(), c, t, root);
      DownAt(Left, Img(), c, t, p, root);
      DownAt(Right, Img(), c, t, p, root);
      PulledPlug(c, t);
      Neighbours(c, t);
      NextEntry(c, t);
      PulledNodes(c, t);
      PulledOrder(c, t);
      SortedDatas(cmp, InOrder(shape), Index(c, t), InOrder(Plug(PulledCtx(c, t), OnlyChild(Pulled(t)))));
    }

    lemma PulledNodes(c: Ctx, t: Tree)
      requires Rep(Plug(c, t)) && t.Bin?
      ensures var m := Pulled(t);
        && m.node in repr && m.node.data == Some(m.data) && m.node.color == m.color
        && Nodes(Plug(c, SplicedTree(t))) == Nodes(Plug(c, t)) - {m.node}
        && (t.node != m.node <==> t.left != Nil && t.right != Nil)
    {
      PulledPlug(c, t);
      var m, k := Pulled(t), PulledFrom(c, t);
      var p := Focus(Img(), k, m, root);
      DownAt(Left, Img(), k, m, p, root);
      PlugNodes(k, m);
      PlugNodes(k, OnlyChild(m));
      var q := Focus(Img(), c, t, root);
      if t.left != Nil && t.right != Nil {
        MinNodes(t.right);
      }
    }

    lemma {:induction false} MinNodes(t: Tree)
      requires t.Bin?
      ensures MinTree(t).node in Nodes(t)
    {
      if t.left != Nil {
        MinNodes(t.left);
      }
    }

    // rb_delete at a known position of the shape.
    method DeleteAt(node: Node, repaired: bool, ghost c: Ctx, ghost t: Tree) returns (ok: bool)
      requires Valid() && Plug(c, t) == shape && t.Bin? && t.node == node
      modifies this`root, this`repr, this`shape, repr
      ensures ok <==> repaired || PulledFate(c, t) != NullSibling
      ensures ok && Rb(shape) <==>
        repaired || !(Pulled(t).color == Black && MeetsNear(PulledCtx(c, t), Col(OnlyChild(Pulled(t)))))
      ensures ok ==>
        && WellFormed() && repr == old(repr) - {Pulled(t).node}
        && InOrder(shape) == InOrder(Plug(PulledCtx(c, t), OnlyChild(Pulled(t))))
    {
      hide FateOf, MeetsNear, Sorted;
      PulledDeficit(c, t);
      var current := PullOut(node, c, t);
      var next := current.left;
      if current.left == null {
        next := current.right;
      }
      ok := true;
      if RbColor(current) == Black {
        ok := RbDeleteFixup(current.parent, next, repaired, PulledCtx(c, t), OnlyChild(Pulled(t)));
      }
      Detach(current);
    }

    method Detach(current: Node)
      requires current !in repr
      modifies current
      ensures current.parent == null && current.left == null && current.right == null
      ensures Img() == old(Img())
    {
      current.parent, current.left, current.right := null, null, null;
    }

    // As written (repaired == false), or with the near child painted black and the
    // sibling red in the branch that rotates the sibling (repaired == true).  ok is
    // false where the source as written dereferences a NULL pointer.  A node with two
    // children stays and takes over the data of its successor, whose node leaves.
    method RbDelete(node: Node, repaired: bool, ghost i: nat) returns (ok: bool)
      requires Valid() && i < |InOrder(shape)| && InOrder(shape)[i].node == node
      modifies this`root, this`repr, this`shape, repr
      ensures node in Nodes(old(shape)) && node in old(repr)
      ensures ok <==> repaired || DeletionFate(old(shape), node) != NullSibling
      ensures ok && Rb(shape) <==> repaired || !DeletionMeetsNear(old(shape), node)
      ensures old(node.left != null && node.right != null) ==> i + 1 < |old(InOrder(shape))|
      ensures ok ==>
        var s, two := old(InOrder(shape)), old(node.left != null && node.right != null);
        && WellFormed() && repr == old(repr) - {if two then s[i + 1].node else node}
        && InOrder(shape) == s[..i] + (if two then [Entry(node, s[i + 1].data)] + s[i + 2..] else s[i + 1..])
        && Datas(InOrder(shape)) == Datas(s[..i]) + Datas(s[i + 1..])
    {
      hide FateOf, MeetsNear, InOrder, Sorted, Rep, Plug;
      ghost var z := PositionOf(node, i);
      PulledOrder(z.0, z.1);
      PulledEntries(z.0, z.1);
      PulledNodes(z.0, z.1);
      PullOutView(z.0, z.1);
      ok := DeleteAt(node, repaired, z.0, z.1);
    }
  }
}
