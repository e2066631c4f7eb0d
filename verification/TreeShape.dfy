// Shapes of the binary trees of lsd/tree.c: a pure tree of node references, and
// the context ("zipper") of a subtree inside it.  Pointers in the heap are
// compared with these values in TreeHeap.dfy; everything here is pure.
module TreeShape {
  import opened Base

  // What a node's data pointer refers to; compared only through cmpfunc.
  type Data(!new, ==)

  datatype Color = Red | Black

  datatype Side = Left | Right {
    function Other(): Side {
      if this == Left then Right else Left
    }
  }

  // struct tree_node
  class Node {
    var left: Node?
    var right: Node?
    var parent: Node?
    var data: Option<Data>
    var color: Color

    // make_node
    constructor (d: Data)
      ensures left == null && right == null && parent == null && data == Some(d)
    {
      data := Some(d);
      parent, left, right := null, null, null;
      color := *;
    }
  }

  datatype Tree =
    | Nil
    | Bin(color: Color, left: Tree, node: Node, data: Data, right: Tree)

  // The surroundings of a subtree: the hole is the child on `side` of `node`,
  // `sib` is the child on the other side.
  datatype Ctx =
    | Top
    | Hole(side: Side, color: Color, node: Node, data: Data, sib: Tree, up: Ctx)

  function Child(s: Side, t: Tree): Tree
    requires t.Bin?
  {
    if s == Left then t.left else t.right
  }

  // The node whose child on side s is x and whose other child is y.
  function Join(s: Side, color: Color, x: Tree, n: Node, d: Data, y: Tree): Tree {
    if s == Left then Bin(color, x, n, d, y) else Bin(color, y, n, d, x)
  }

  function Plug(c: Ctx, t: Tree): Tree
    decreases c
  {
    match c
    case Top => t
    case Hole(s, color, n, d, sib, up) => Plug(up, Join(s, color, t, n, d, sib))
  }

  // The context of the child on side s.
  function Down(s: Side, c: Ctx, t: Tree): Ctx
    requires t.Bin?
  {
    Hole(s, t.color, t.node, t.data, Child(s.Other(), t), c)
  }

  ghost function Nodes(t: Tree): set<Node> {
    match t
    case Nil => {}
    case Bin(_, l, n, _, r) => Nodes(l) + {n} + Nodes(r)
  }

  ghost function CtxNodes(c: Ctx): set<Node> {
    match c
    case Top => {}
    case Hole(_, _, n, _, sib, up) => {n} + Nodes(sib) + CtxNodes(up)
  }

  // A node reference with the data it carries.
  datatype Entry = Entry(node: Node, data: Data)

  function InOrder(t: Tree): seq<Entry> {
    match t
    case Nil => []
    case Bin(_, l, n, d, r) => InOrder(l) + [Entry(n, d)] + InOrder(r)
  }

  function Size(t: Tree): nat {
    match t
    case Nil => 0
    case Bin(_, l, _, _, r) => Size(l) + 1 + Size(r)
  }

  function Depth(c: Ctx): nat {
    match c
    case Top => 0
    case Hole(_, _, _, _, _, up) => 1 + Depth(up)
  }

  // The node holding the hole; null at the top.
  function Holder(c: Ctx): Node? {
    match c
    case Top => null
    case Hole(_, _, n, _, _, _) => n
  }

  // The pointer to a subtree.
  function Root(t: Tree): Node? {
    if t.Bin? then t.node else null
  }

  // What precedes and what follows the hole in-order.
  function Before(c: Ctx): seq<Entry> {
    match c
    case Top => []
    case Hole(s, _, n, d, sib, up) =>
      if s == Left then Before(up) else Before(up) + InOrder(sib) + [Entry(n, d)]
  }

  function After(c: Ctx): seq<Entry> {
    match c
    case Top => []
    case Hole(s, _, n, d, sib, up) =>
      if s == Left then [Entry(n, d)] + InOrder(sib) + After(up) else After(up)
  }

  lemma PlugDown(s: Side, c: Ctx, t: Tree, x: Tree)
    requires t.Bin?
    ensures Plug(Down(s, c, t), x) == Plug(c, Join(s, t.color, x, t.node, t.data, Child(s.Other(), t)))
    ensures Plug(Down(s, c, t), Child(s, t)) == Plug(c, t)
  {
  }

  lemma {:induction false} PlugOrder(c: Ctx, t: Tree)
    ensures InOrder(Plug(c, t)) == Before(c) + InOrder(t) + After(c)
    decreases c
  {
    match c
    case Top =>
    case Hole(s, color, n, d, sib, up) =>
      PlugOrder(up, Join(s, color, t, n, d, sib));
      var e := [Entry(n, d)];
      if s == Left {
        RegroupLeft(Before(up), InOrder(t), e, InOrder(sib), After(up));
      } else {
        RegroupRight(Before(up), InOrder(sib), e, InOrder(t), After(up));
      }
  }

  lemma RegroupLeft<T>(a: seq<T>, x: seq<T>, e: seq<T>, y: seq<T>, b: seq<T>)
    ensures a + (x + e + y) + b == a + x + (e + y + b)
  {
  }

  lemma RegroupRight<T>(a: seq<T>, x: seq<T>, e: seq<T>, y: seq<T>, b: seq<T>)
    ensures a + (x + e + y) + b == (a + x + e) + y + b
  {
  }

  lemma {:induction false} PlugNodes(c: Ctx, t: Tree)
    ensures Nodes(Plug(c, t)) == CtxNodes(c) + Nodes(t)
    decreases c
  {
    match c
    case Top =>
    case Hole(s, color, n, d, sib, up) =>
      PlugNodes(up, Join(s, color, t, n, d, sib));
  }

  lemma {:induction false} InOrderNodes(t: Tree)
    ensures forall e :: e in InOrder(t) ==> e.node in Nodes(t)
    ensures forall n :: n in Nodes(t) ==> exists d :: Entry(n, d) in InOrder(t)
    ensures |InOrder(t)| == Size(t)
  {
    match t
    case Nil =>
    case Bin(_, l, n, d, r) =>
      InOrderNodes(l);
      InOrderNodes(r);
      assert Entry(n, d) in InOrder(t);
      forall m | m in Nodes(t)
        ensures exists x :: Entry(m, x) in InOrder(t)
      {
        if m in Nodes(l) {
          var x :| Entry(m, x) in InOrder(l);
          assert Entry(m, x) in InOrder(t);
        } else if m in Nodes(r) {
          var x :| Entry(m, x) in InOrder(r);
          assert Entry(m, x) in InOrder(t);
        }
      }
  }

  // Rotation towards side s: the child on the other side comes up and the root
  // goes down on side s.  left_rotate is Rotate(Left, _), right_rotate
  // Rotate(Right, _).
  function Rotate(s: Side, t: Tree): Tree
    requires t.Bin? && Child(s.Other(), t).Bin?
  {
    var q := Child(s.Other(), t);
    Join(s, q.color,
         Join(s, t.color, Child(s, t), t.node, t.data, Child(s, q)),
         q.node, q.data, Child(s.Other(), q))
  }

  lemma RotateOrder(s: Side, t: Tree)
    requires t.Bin? && Child(s.Other(), t).Bin?
    ensures InOrder(Rotate(s, t)) == InOrder(t)
    ensures Nodes(Rotate(s, t)) == Nodes(t)
  {
    var q := Child(s.Other(), t);
    var x, y := [Entry(t.node, t.data)], [Entry(q.node, q.data)];
    if s == Left {
      Regroup(InOrder(t.left), x, InOrder(q.left), y, InOrder(q.right));
    } else {
      Regroup(InOrder(q.left), y, InOrder(q.right), x, InOrder(t.right));
    }
  }

  lemma Regroup<T>(a: seq<T>, x: seq<T>, b: seq<T>, y: seq<T>, c: seq<T>)
    ensures a + x + (b + y + c) == (a + x + b) + y + c
  {
  }

  // The same nodes carry the same data in the same order.
  ghost predicate SameOrder(t: Tree, u: Tree) {
    InOrder(t) == InOrder(u) && Nodes(t) == Nodes(u)
  }

  lemma PaintOrder(c: Ctx, t: Tree, col: Color)
    requires t.Bin?
    ensures SameOrder(Plug(c, t.(color := col)), Plug(c, t))
  {
    PlugOrder(c, t);
    PlugOrder(c, t.(color := col));
    PlugNodes(c, t);
    PlugNodes(c, t.(color := col));
  }

  lemma RotatedOrder(s: Side, c: Ctx, t: Tree)
    requires t.Bin? && Child(s.Other(), t).Bin?
    ensures SameOrder(Plug(c, Rotate(s, t)), Plug(c, t))
  {
    RotateOrder(s, t);
    PlugOrder(c, t);
    PlugOrder(c, Rotate(s, t));
    PlugNodes(c, t);
    PlugNodes(c, Rotate(s, t));
  }
}
