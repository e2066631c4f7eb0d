// When a heap image (the fields of a set of nodes) represents a pure tree, and
// how rotations, repainting and splicing act on images.
module TreeImage {
  import opened Base
  import opened TreeShape

  datatype Fields = Fields(left: Node?, right: Node?, parent: Node?, color: Color, data: Option<Data>) {
    function Get(s: Side): Node? {
      if s == Left then left else right
    }
  }

  type Image = map<Node, Fields>

  ghost predicate Holds(h: Image, t: Tree, p: Node?, up: Node?) {
    match t
    case Nil => p == null
    case Bin(c, l, n, d, r) =>
      && p == n && n in h
      && h[n].parent == up && h[n].color == c && h[n].data == Some(d)
      && n !in Nodes(l) && n !in Nodes(r) && Nodes(l) !! Nodes(r)
      && Holds(h, l, h[n].left, n) && Holds(h, r, h[n].right, n)
  }

  ghost predicate HoldsCtx(h: Image, c: Ctx, p: Node?, root: Node?)
    decreases c
  {
    match c
    case Top => root == p
    case Hole(s, col, n, d, sib, up) =>
      && n in h
      && h[n].parent == Holder(up) && h[n].color == col && h[n].data == Some(d)
      && n !in Nodes(sib) && n !in CtxNodes(up) && Nodes(sib) !! CtxNodes(up)
      && h[n].Get(s) == p && Holds(h, sib, h[n].Get(s.Other()), n)
      && HoldsCtx(h, up, n, root)
  }

  ghost predicate At(h: Image, c: Ctx, t: Tree, p: Node?, root: Node?) {
    && Holds(h, t, p, Holder(c))
    && HoldsCtx(h, c, p, root)
    && Nodes(t) !! CtxNodes(c)
  }

  ghost predicate Agree(h: Image, h': Image, s: set<Node>) {
    forall n :: n in s && n in h ==> n in h' && h'[n] == h[n]
  }

  lemma {:induction false} Assemble(h: Image, c: Ctx, t: Tree, p: Node?, root: Node?)
    requires At(h, c, t, p, root)
    ensures Holds(h, Plug(c, t), root, null)
    decreases c
  {
    match c
    case Top =>
    case Hole(s, col, n, d, sib, up) =>
      Assemble(h, up, Join(s, col, t, n, d, sib), n, root);
  }

  lemma {:induction false} Focus(h: Image, c: Ctx, t: Tree, root: Node?) returns (p: Node?)
    requires Holds(h, Plug(c, t), root, null)
    ensures At(h, c, t, p, root)
    ensures p == if t.Bin? then t.node else null
    decreases c
  {
    match c
    case Top =>
      p := root;
    case Hole(s, col, n, d, sib, up) =>
      var q := Focus(h, up, Join(s, col, t, n, d, sib), root);
      p := h[n].Get(s);
  }

  lemma {:induction false} HoldsFrame(h: Image, h': Image, t: Tree, p: Node?, up: Node?)
    requires Holds(h, t, p, up) && Agree(h, h', Nodes(t))
    ensures Holds(h', t, p, up)
  {
    match t
    case Nil =>
    case Bin(_, l, n, _, r) =>
      HoldsFrame(h, h', l, h[n].left, n);
      HoldsFrame(h, h', r, h[n].right, n);
  }

  lemma {:induction false} CtxFrame(h: Image, h': Image, c: Ctx, p: Node?, root: Node?)
    requires HoldsCtx(h, c, p, root) && Agree(h, h', CtxNodes(c))
    ensures HoldsCtx(h', c, p, root)
    decreases c
  {
    match c
    case Top =>
    case Hole(s, _, n, _, sib, up) =>
      HoldsFrame(h, h', sib, h[n].Get(s.Other()), n);
      CtxFrame(h, h', up, n, root);
  }

  // A subtree whose root got another parent.
  lemma {:induction false} Reparent(h: Image, h': Image, t: Tree, p: Node?, up: Node?, now: Node?)
    requires Holds(h, t, p, up) && Agree(h, h', Nodes(t) - {p})
    requires p != null && p in h ==> p in h' && h'[p] == h[p].(parent := now)
    ensures Holds(h', t, p, now)
  {
    if t.Bin? {
      HoldsFrame(h, h', t.left, h[p].left, p);
      HoldsFrame(h, h', t.right, h[p].right, p);
    }
  }

  // Only the child pointer of the hole's holder (or the root) has changed.
  lemma {:induction false} CtxRelink(h: Image, h': Image, c: Ctx, p: Node?, q: Node?, root: Node?, root': Node?)
    requires HoldsCtx(h, c, p, root) && Agree(h, h', CtxNodes(c) - {Holder(c)})
    requires c == Top ==> root' == q
    requires c.Hole? ==>
      && root' == root && c.node in h && c.node in h'
      && h'[c.node] == if c.side == Left then h[c.node].(left := q) else h[c.node].(right := q)
    ensures HoldsCtx(h', c, q, root')
  {
    match c
    case Top =>
    case Hole(s, _, n, _, sib, up) =>
      HoldsFrame(h, h', sib, h[n].Get(s.Other()), n);
      CtxFrame(h, h', up, n, root);
  }

  // One step of folding or unfolding, on either side.
  lemma HoldsJoin(s: Side, h: Image, color: Color, x: Tree, n: Node, d: Data, y: Tree, up: Node?)
    ensures Holds(h, Join(s, color, x, n, d, y), n, up) <==>
      && n in h && h[n].parent == up && h[n].color == color && h[n].data == Some(d)
      && n !in Nodes(x) && n !in Nodes(y) && Nodes(x) !! Nodes(y)
      && Holds(h, x, h[n].Get(s), n) && Holds(h, y, h[n].Get(s.Other()), n)
  {
  }

  // What left_rotate (s == Left) and right_rotate (s == Right) write at node n
  // with child q coming up.
  ghost predicate Rotated(s: Side, h: Image, h': Image, n: Node, q: Node, root: Node?, root': Node?)
    requires n in h && q in h
  {
    var b, p := h[q].Get(s), h[n].parent;
    && n in h' && q in h'
    && h'[n] == (if s == Left then h[n].(right := b, parent := q) else h[n].(left := b, parent := q))
    && h'[q] == (if s == Left then h[q].(left := n, parent := p) else h[q].(right := n, parent := p))
    && (b != null && b in h ==> b in h' && h'[b] == h[b].(parent := n))
    && (p == null ==> root' == q)
    && (p != null && p in h ==>
        && root' == root && p in h'
        && h'[p] == if h[p].left == n then h[p].(left := q) else h[p].(right := q))
    && Agree(h, h', h.Keys - {n, q, b, p})
  }

  // What a rotation at n reads and writes is in the image and distinct: n, the
  // child q coming up, q's inner child b and the parent p.
  ghost predicate Rotatable(s: Side, h: Image, n: Node, root: Node?) {
    && n in h
    && var q, p := h[n].Get(s.Other()), h[n].parent;
    && (q != null ==>
        && q in h && n != q && q != p
        && var b := h[q].Get(s);
        b != null ==> b in h && b != n && b != q && b != p)
    && (p != null ==> p in h && p != n && (h[p].left == n || h[p].right == n) && h[p].left != h[p].right)
    && (p == null ==> root == n)
  }

  lemma RotationStart(s: Side, h: Image, c: Ctx, t: Tree, root: Node?)
    requires Holds(h, Plug(c, t), root, null) && t.Bin?
    ensures At(h, c, t, t.node, root)
    ensures Rotatable(s, h, t.node, root)
    ensures h[t.node].Get(s.Other()) == if Child(s.Other(), t) == Nil then null else Child(s.Other(), t).node
  {
    var p := Focus(h, c, t, root);
    var n, u := t.node, Child(s.Other(), t);
    assert Holds(h, u, h[n].Get(s.Other()), n);
    if u.Bin? {
      var b := Child(s, u);
      assert Holds(h, b, h[u.node].Get(s), u.node);
      assert Nodes(b) <= Nodes(u) <= Nodes(t);
    }
    if c.Hole? {
      assert Holds(h, c.sib, h[c.node].Get(c.side.Other()), c.node);
      assert c.sib.Bin? ==> c.sib.node in CtxNodes(c);
    }
  }

  lemma RotatedSubtree(s: Side, h: Image, h': Image, t: Tree, up: Node?, root: Node?, root': Node?)
    requires t.Bin? && Child(s.Other(), t).Bin?
    requires t.node in h && Child(s.Other(), t).node in h
    requires Holds(h, t, t.node, up) && up !in Nodes(t)
    requires Rotated(s, h, h', t.node, Child(s.Other(), t).node, root, root')
    ensures Holds(h', Rotate(s, t), Child(s.Other(), t).node, up)
  {
    var n, u := t.node, Child(s.Other(), t);
    var a, b, d := Child(s, t), Child(s, u), Child(s.Other(), u);
    var q := u.node;
    HoldsJoin(s, h, t.color, a, n, t.data, u, up);
    HoldsJoin(s, h, u.color, b, q, u.data, d, n);
    HoldsFrame(h, h', a, h[n].Get(s), n);
    HoldsFrame(h, h', d, h[q].Get(s.Other()), q);
    Reparent(h, h', b, h[q].Get(s), q, n);
    HoldsJoin(s, h', t.color, a, n, t.data, b, q);
    HoldsJoin(s, h', u.color, Join(s, t.color, a, n, t.data, b), q, u.data, d, up);
  }

  lemma RotatedCtx(s: Side, h: Image, h': Image, c: Ctx, t: Tree, root: Node?, root': Node?)
    requires t.Bin? && Child(s.Other(), t).Bin?
    requires t.node in h && Child(s.Other(), t).node in h
    requires At(h, c, t, t.node, root)
    requires Rotated(s, h, h', t.node, Child(s.Other(), t).node, root, root')
    ensures HoldsCtx(h', c, Child(s.Other(), t).node, root')
  {
    var u := Child(s.Other(), t);
    HoldsJoin(s, h, t.color, Child(s, t), t.node, t.data, u, Holder(c));
    var b := Child(s, u);
    HoldsJoin(s, h, u.color, b, u.node, u.data, Child(s.Other(), u), t.node);
    assert b.Bin? ==> b.node in Nodes(t);
    CtxRelink(h, h', c, t.node, u.node, root, root');
  }

  lemma RotatedHolds(s: Side, h: Image, h': Image, c: Ctx, t: Tree, root: Node?, root': Node?)
    requires t.Bin? && Child(s.Other(), t).Bin?
    requires t.node in h && Child(s.Other(), t).node in h
    requires At(h, c, t, t.node, root)
    requires Rotated(s, h, h', t.node, Child(s.Other(), t).node, root, root')
    ensures Holds(h', Plug(c, Rotate(s, t)), root', null)
  {
    RotatedSubtree(s, h, h', t, Holder(c), root, root');
    RotatedCtx(s, h, h', c, t, root, root');
    RotateOrder(s, t);
    Assemble(h', c, Rotate(s, t), Child(s.Other(), t).node, root');
  }

  // ------------------------------------------------------------ moving about

  lemma DownAt(s: Side, h: Image, c: Ctx, t: Tree, p: Node?, root: Node?)
    requires At(h, c, t, p, root) && t.Bin?
    ensures p in h && p == t.node && h[p].data == Some(t.data) && h[p].color == t.color && h[p].parent == Holder(c)
    ensures At(h, Down(s, c, t), Child(s, t), h[p].Get(s), root)
    ensures h[p].Get(s) == if Child(s, t).Bin? then Child(s, t).node else null
    ensures Plug(Down(s, c, t), Child(s, t)) == Plug(c, t)
  {
    HoldsJoin(s, h, t.color, Child(s, t), t.node, t.data, Child(s.Other(), t), Holder(c));
  }

  lemma UpAt(h: Image, c: Ctx, t: Tree, p: Node?, root: Node?)
    requires At(h, c, t, p, root) && c.Hole?
    ensures At(h, c.up, Join(c.side, c.color, t, c.node, c.data, c.sib), c.node, root)
    ensures c.node in h && h[c.node].Get(c.side) == p && h[c.node].parent == Holder(c.up) && p != c.node
    ensures h[c.node].Get(c.side.Other()) == if c.sib.Bin? then c.sib.node else null
    ensures p != null ==> h[c.node].Get(c.side.Other()) != p
    ensures h[c.node].color == c.color && h[c.node].data == Some(c.data)
  {
    HoldsJoin(c.side, h, c.color, t, c.node, c.data, c.sib, Holder(c.up));
  }

  // The root pointer does not reach below the top.
  lemma {:induction false} RootAbove(h: Image, c: Ctx, p: Node?, root: Node?)
    requires HoldsCtx(h, c, p, root) && c.Hole?
    ensures root in CtxNodes(c)
    decreases c
  {
    if c.up.Hole? {
      RootAbove(h, c.up, c.node, root);
    }
  }

  lemma HoldsRoot(h: Image, c: Ctx, t: Tree, root: Node?)
    requires Holds(h, Plug(c, t), root, null) && t.Bin?
    ensures root != null && root in h && Plug(c, t).Bin? && Plug(c, t).node == root
  {
    PlugNodes(c, t);
  }

  lemma {:induction false} HoldsKeys(h: Image, t: Tree, p: Node?, up: Node?)
    requires Holds(h, t, p, up)
    ensures Nodes(t) <= h.Keys
  {
    match t
    case Nil =>
    case Bin(_, l, n, _, r) =>
      HoldsKeys(h, l, h[n].left, n);
      HoldsKeys(h, r, h[n].right, n);
  }

  // The in-order entries are the nodes and their data.
  lemma {:induction false} HoldsData(h: Image, t: Tree, p: Node?, up: Node?)
    requires Holds(h, t, p, up)
    ensures forall e :: e in InOrder(t) ==> e.node in Nodes(t) && e.node in h && h[e.node].data == Some(e.data)
    ensures forall n :: n in Nodes(t) ==> n in h && h[n].data.Some? && Entry(n, h[n].data.value) in InOrder(t)
  {
    match t
    case Nil =>
    case Bin(_, l, n, _, r) =>
      HoldsData(h, l, h[n].left, n);
      HoldsData(h, r, h[n].right, n);
  }

  // ------------------------------------------------------------ single writes

  lemma PaintHolds(h: Image, c: Ctx, t: Tree, col: Color, root: Node?)
    requires Holds(h, Plug(c, t), root, null) && t.Bin?
    ensures t.node in h
    ensures Holds(h[t.node := h[t.node].(color := col)], Plug(c, t.(color := col)), root, null)
  {
    var p := Focus(h, c, t, root);
    var h' := h[t.node := h[t.node].(color := col)];
    HoldsFrame(h, h', t.left, h[p].left, p);
    HoldsFrame(h, h', t.right, h[p].right, p);
    CtxFrame(h, h', c, p, root);
    Assemble(h', c, t.(color := col), p, root);
  }

  lemma DataHolds(h: Image, c: Ctx, t: Tree, d: Data, root: Node?)
    requires Holds(h, Plug(c, t), root, null) && t.Bin?
    ensures t.node in h
    ensures Holds(h[t.node := h[t.node].(data := Some(d))], Plug(c, t.(data := d)), root, null)
  {
    var p := Focus(h, c, t, root);
    var h' := h[t.node := h[t.node].(data := Some(d))];
    HoldsFrame(h, h', t.left, h[p].left, p);
    HoldsFrame(h, h', t.right, h[p].right, p);
    CtxFrame(h, h', c, p, root);
    Assemble(h', c, t.(data := d), p, root);
  }

  // Hanging a new leaf n at the hole.
  lemma LeafHolds(h: Image, h': Image, c: Ctx, n: Node, d: Data, root: Node?, root': Node?)
    requires At(h, c, Nil, null, root) && n !in h && n in h'
    requires h'[n].left == null && h'[n].right == null && h'[n].parent == Holder(c) && h'[n].data == Some(d)
    requires Agree(h, h', h.Keys - {Holder(c)})
    requires c == Top ==> root' == n
    requires c.Hole? ==>
      && root' == root && c.node in h && c.node in h'
      && h'[c.node] == if c.side == Left then h[c.node].(left := n) else h[c.node].(right := n)
    ensures Holds(h', Plug(c, Bin(h'[n].color, Nil, n, d, Nil)), root', null)
  {
    CtxRelink(h, h', c, null, n, root, root');
    CtxKeys(h, c, null, root);
    Assemble(h', c, Bin(h'[n].color, Nil, n, d, Nil), n, root');
  }

  lemma {:induction false} CtxKeys(h: Image, c: Ctx, p: Node?, root: Node?)
    requires HoldsCtx(h, c, p, root)
    ensures CtxNodes(c) <= h.Keys
    decreases c
  {
    match c
    case Top =>
    case Hole(s, _, n, _, sib, up) =>
      HoldsKeys(h, sib, h[n].Get(s.Other()), n);
      CtxKeys(h, up, n, root);
  }

  // Splicing out a node with at most one child: the child takes its place.
  lemma SpliceHolds(h: Image, h': Image, c: Ctx, t: Tree, next: Node?, root: Node?, root': Node?)
    requires t.Bin? && (t.left == Nil || t.right == Nil)
    requires At(h, c, t, t.node, root) && t.node in h
    requires next == if h[t.node].left != null then h[t.node].left else h[t.node].right
    requires next != null && next in h ==> next in h' && h'[next] == h[next].(parent := Holder(c))
    requires Agree(h, h', h.Keys - {Holder(c), next})
    requires c == Top ==> root' == next
    requires c.Hole? ==>
      && root' == root && c.node in h && c.node in h'
      && h'[c.node] == if c.side == Left then h[c.node].(left := next) else h[c.node].(right := next)
    ensures Holds(h', Plug(c, if t.left != Nil then t.left else t.right), root', null)
  {
    var x := if t.left != Nil then t.left else t.right;
    HoldsJoin(Left, h, t.color, t.left, t.node, t.data, t.right, Holder(c));
    assert x.Bin? ==> next in Nodes(x);
    Reparent(h, h', x, next, t.node, Holder(c));
    CtxRelink(h, h', c, t.node, next, root, root');
    Assemble(h', c, x, next, root');
  }
}
