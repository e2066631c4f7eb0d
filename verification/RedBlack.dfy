// The red-black invariants of lsd/tree.c on pure trees, and what each step of
// rb_insert and rb_delete_fixup does to them.
module RedBlack {
  import opened Base
  import opened TreeShape

  // rb_color: a missing node is black.
  function Col(t: Tree): Color {
    if t.Bin? then t.color else Black
  }

  function Weight(color: Color): nat {
    if color == Black then 1 else 0
  }

  // Black nodes on the leftmost path.
  function BH(t: Tree): nat {
    match t
    case Nil => 0
    case Bin(color, l, _, _, _) => BH(l) + Weight(color)
  }

  // No red node has a red child, and all paths have equal black counts.
  predicate Ok(t: Tree) {
    match t
    case Nil => true
    case Bin(color, l, _, _, r) =>
      && Ok(l) && Ok(r) && BH(l) == BH(r)
      && (color == Red ==> Col(l) == Black && Col(r) == Black)
  }

  predicate Rb(t: Tree) {
    Ok(t) && Col(t) == Black
  }

  // The context accepts a subtree of black height h and root colour col.
  predicate CtxOk(c: Ctx, h: nat, col: Color)
    decreases c
  {
    match c
    case Top => col == Black
    case Hole(_, color, _, _, sib, up) =>
      && Ok(sib) && BH(sib) == h
      && (color == Red ==> Col(sib) == Black && col == Black)
      && CtxOk(up, h + Weight(color), color)
  }

  lemma {:induction false} PlugRb(c: Ctx, t: Tree)
    ensures Rb(Plug(c, t)) <==> Ok(t) && CtxOk(c, BH(t), Col(t))
    decreases c
  {
    match c
    case Top =>
    case Hole(s, color, n, d, sib, up) =>
      PlugRb(up, Join(s, color, t, n, d, sib));
  }

  lemma {:induction false} PlugOk(c: Ctx, t: Tree)
    ensures Ok(Plug(c, t)) ==> Ok(t)
    decreases c
  {
    match c
    case Top =>
    case Hole(s, color, n, d, sib, up) =>
      PlugOk(up, Join(s, color, t, n, d, sib));
  }

  // tr->root->color = BLACK, where there is a root.
  function Blacken(t: Tree): Tree {
    if t.Bin? then t.(color := Black) else t
  }

  // ------------------------------------------------------------ height

  function Height(t: Tree): nat {
    match t
    case Nil => 0
    case Bin(_, l, _, _, r) => 1 + if Height(l) < Height(r) then Height(r) else Height(l)
  }

  lemma {:induction false} OkBounds(t: Tree)
    requires Ok(t)
    ensures Height(t) <= 2 * BH(t) + 1 - Weight(Col(t))
    ensures Pow2(BH(t)) <= Size(t) + 1
  {
    match t
    case Nil =>
    case Bin(color, l, _, _, r) =>
      OkBounds(l);
      OkBounds(r);
  }

  // height <= 2 log2(n + 1)
  lemma HeightBound(t: Tree)
    requires Rb(t)
    ensures Pow2(Height(t)) <= (Size(t) + 1) * (Size(t) + 1)
  {
    OkBounds(t);
    Pow2Monotone(Height(t), 2 * BH(t));
    Pow2Add(BH(t), BH(t));
    SquareMonotone(Pow2(BH(t)), Size(t) + 1);
  }

  lemma SquareMonotone(a: nat, b: nat)
    requires a <= b
    ensures a * a <= b * b
  {
    assert b * b == a * a + (b - a) * (b + a);
  }

  // ------------------------------------------------------------ rb_insert

  // At each loop head the only possible fault is the red current under a red
  // parent, or as a red root.
  predicate InsertInv(c: Ctx, t: Tree) {
    t.Bin? && t.color == Red && Ok(t) && CtxOk(c, BH(t), Black)
  }

  lemma {:induction false} InsertDone(c: Ctx, t: Tree)
    requires InsertInv(c, t) && (c.Hole? ==> c.color == Black)
    ensures Rb(Blacken(Plug(c, t)))
  {
    if c.Hole? {
      PlugRb(c, t);
    }
  }

  // parent->parent exists, and is black.
  lemma InsertGrandparent(c: Ctx, t: Tree)
    requires InsertInv(c, t) && c.Hole? && c.color == Red
    ensures c.up.Hole? && c.up.color == Black && Col(c.sib) == Black
  {
    assert CtxOk(c.up, BH(t), Red);
  }

  // Twice the depth, plus one for a current that is an inner grandchild; zero
  // where the loop stops.
  function InsertMeasure(c: Ctx): nat {
    if c == Top || c.color == Black then 0
    else 2 * Depth(c) + if c.up.Hole? && c.side != c.up.side then 1 else 0
  }

  function InsertRecolour(c: Ctx, t: Tree): Tree
    requires c.Hole? && c.up.Hole? && c.up.sib.Bin?
  {
    Join(c.up.side, Red, Join(c.side, Black, t, c.node, c.data, c.sib),
         c.up.node, c.up.data, c.up.sib.(color := Black))
  }

  lemma InsertRecolourKeeps(c: Ctx, t: Tree)
    requires InsertInv(c, t) && c.Hole? && c.color == Red && c.up.Hole? && Col(c.up.sib) == Red
    ensures InsertInv(c.up.up, InsertRecolour(c, t))
    ensures InsertMeasure(c.up.up) < InsertMeasure(c)
  {
    assert CtxOk(c.up, BH(t), Red);
    assert Ok(Join(c.side, Black, t, c.node, c.data, c.sib));
    assert Depth(c) == 2 + Depth(c.up.up);
  }

  // current moves to its parent, which is rotated towards the outside.
  function InsertInnerCtx(c: Ctx, t: Tree): Ctx
    requires c.Hole? && t.Bin?
  {
    var s := c.side.Other();
    Hole(s, t.color, t.node, t.data, Child(c.side, t), c.up)
  }

  function InsertInnerTree(c: Ctx, t: Tree): Tree
    requires c.Hole? && t.Bin?
  {
    var s := c.side.Other();
    Join(s, c.color, c.sib, c.node, c.data, Child(s, t))
  }

  lemma InsertInnerKeeps(c: Ctx, t: Tree)
    requires InsertInv(c, t) && c.Hole? && c.color == Red && c.up.Hole? && c.side != c.up.side
    ensures InsertInv(InsertInnerCtx(c, t), InsertInnerTree(c, t))
    ensures InsertMeasure(InsertInnerCtx(c, t)) < InsertMeasure(c)
    ensures Plug(InsertInnerCtx(c, t), InsertInnerTree(c, t))
         == Plug(c.up, Rotate(c.side.Other(), Join(c.side, c.color, t, c.node, c.data, c.sib)))
  {
  }

  // The grandparent, now red, goes down beside the unchanged current.
  function InsertOuterCtx(c: Ctx): Ctx
    requires c.Hole? && c.up.Hole?
  {
    Hole(c.side, Black, c.node, c.data,
         Join(c.side, Red, c.sib, c.up.node, c.up.data, c.up.sib), c.up.up)
  }

  lemma InsertOuterKeeps(c: Ctx, t: Tree)
    requires InsertInv(c, t) && c.Hole? && c.color == Red && c.up.Hole?
    requires c.side == c.up.side && Col(c.up.sib) == Black
    ensures InsertInv(InsertOuterCtx(c), t)
    ensures InsertMeasure(InsertOuterCtx(c)) < InsertMeasure(c)
    ensures Plug(InsertOuterCtx(c), t)
         == Plug(c.up.up, Rotate(c.side.Other(),
              Join(c.side, Red, Join(c.side, Black, t, c.node, c.data, c.sib), c.up.node, c.up.data, c.up.sib)))
  {
    assert CtxOk(c.up, BH(t), Red);
    assert CtxOk(c.up.up, BH(t) + 1, Black);
    assert Ok(Join(c.side, Red, c.sib, c.up.node, c.up.data, c.up.sib));
  }

  // ------------------------------------------------------------ rb_delete_fixup

  // The subtree at the hole lacks one black node; painting its root black is
  // enough when the root is red.
  predicate DeleteInv(c: Ctx, t: Tree) {
    Ok(Blacken(t)) && CtxOk(c, BH(t) + 1, Black)
  }

  lemma {:induction false} DeleteDone(c: Ctx, t: Tree)
    requires DeleteInv(c, t) && (c == Top || Col(t) == Red)
    ensures Rb(Plug(c, Blacken(t)))
  {
    PlugRb(c, Blacken(t));
  }

  lemma DeleteSibling(c: Ctx, t: Tree)
    requires DeleteInv(c, t) && c.Hole? && Col(t) == Black
    ensures c.sib.Bin?
    ensures c.sib.color == Red ==>
      && c.color == Black
      && Child(c.side, c.sib).Bin? && Child(c.side, c.sib).color == Black
  {
  }

  // The same position, seen from the sibling.
  function SiblingCtx(c: Ctx, t: Tree): Ctx
    requires c.Hole?
  {
    Hole(c.side.Other(), c.color, c.node, c.data, t, c.up)
  }

  lemma PlugSibling(c: Ctx, t: Tree, x: Tree)
    requires c.Hole?
    ensures Plug(SiblingCtx(c, t), x) == Plug(c.(sib := x), t)
  {
  }

  // A red sibling is rotated above the parent.
  function RedSibling(c: Ctx): Ctx
    requires c.Hole? && c.sib.Bin?
  {
    Hole(c.side, Red, c.node, c.data, Child(c.side, c.sib),
         Hole(c.side, Black, c.sib.node, c.sib.data, Child(c.side.Other(), c.sib), c.up))
  }

  lemma RedSiblingPlug(c: Ctx, t: Tree)
    requires c.Hole? && c.sib.Bin?
    ensures Plug(RedSibling(c), t)
         == Plug(c.up, Rotate(c.side, Join(c.side, Red, t, c.node, c.data, c.sib.(color := Black))))
  {
  }

  lemma RedSiblingKeeps(c: Ctx, t: Tree)
    requires DeleteInv(c, t) && c.Hole? && Col(t) == Black && Col(c.sib) == Red
    ensures DeleteInv(RedSibling(c), t)
  {
  }

  predicate BothBlack(t: Tree)
    requires t.Bin?
  {
    Col(t.left) == Black && Col(t.right) == Black
  }

  function RecolourSibling(c: Ctx, t: Tree): Tree
    requires c.Hole? && c.sib.Bin?
  {
    Join(c.side, c.color, t, c.node, c.data, c.sib.(color := Red))
  }

  lemma RecolourSiblingKeeps(c: Ctx, t: Tree)
    requires DeleteInv(c, t) && c.Hole? && Col(t) == Black && c.sib.Bin?
    requires c.sib.color == Black && BothBlack(c.sib)
    ensures DeleteInv(c.up, RecolourSibling(c, t))
  {
    assert Ok(c.sib.(color := Red));
    assert BH(c.sib.(color := Red)) == BH(t);
    assert CtxOk(c.up, BH(t) + 1 + Weight(c.color), c.color);
  }

  // The terminal rotation: the far child of the sibling is red.
  function FarRed(c: Ctx, t: Tree): Tree
    requires c.Hole? && c.sib.Bin? && Child(c.side.Other(), c.sib).Bin?
  {
    var far := Child(c.side.Other(), c.sib);
    Join(c.side, c.color,
         Join(c.side, Black, t, c.node, c.data, Child(c.side, c.sib)),
         c.sib.node, c.sib.data, far.(color := Black))
  }

  lemma FarRedPlug(c: Ctx, t: Tree)
    requires c.Hole? && c.sib.Bin? && Child(c.side.Other(), c.sib).Bin?
    ensures var s := c.side.Other(); var q := c.sib;
      Plug(c.up, FarRed(c, t))
      == Plug(c.up, Rotate(c.side, Join(c.side, Black, t, c.node, c.data,
           Join(s, c.color, Child(s, q).(color := Black), q.node, q.data, Child(c.side, q)))))
  {
  }

  lemma {:induction false} FarRedRestores(c: Ctx, t: Tree)
    requires DeleteInv(c, t) && c.Hole? && Col(t) == Black && c.sib.Bin?
    requires c.sib.color == Black && Col(Child(c.side.Other(), c.sib)) == Red
    ensures Rb(Plug(c.up, FarRed(c, t)))
  {
    var near, far := Child(c.side, c.sib), Child(c.side.Other(), c.sib);
    assert Ok(near) && Ok(far) && BH(near) == BH(far) == BH(t);
    assert Ok(Join(c.side, Black, t, c.node, c.data, near));
    PlugRb(c.up, FarRed(c, t));
  }

  // The guard of the branch that rotates the sibling.
  predicate NearOnly(s: Side, t: Tree) {
    t.Bin? && t.color == Black && Col(Child(s, t)) == Red && Col(Child(s.Other(), t)) == Black
  }

  // The sibling rotated down on its far side, with the colours given to the near
  // child (now on top) and to the sibling.
  function NearRotated(c: Ctx, top: Color, down: Color): Ctx
    requires c.Hole? && c.sib.Bin? && Child(c.side, c.sib).Bin?
  {
    var near := Child(c.side, c.sib);
    var s := c.side.Other();
    c.(sib := Join(s, top,
                   Join(s, down, Child(s, c.sib), c.sib.node, c.sib.data, Child(s, near)),
                   near.node, near.data, Child(c.side, near)))
  }

  lemma NearRepairedKeeps(c: Ctx, t: Tree)
    requires DeleteInv(c, t) && c.Hole? && Col(t) == Black && NearOnly(c.side, c.sib)
    ensures var c' := NearRotated(c, Black, Red);
      && DeleteInv(c', t)
      && c'.sib.color == Black && Col(Child(c.side.Other(), c'.sib)) == Red
  {
    var near, far := Child(c.side, c.sib), Child(c.side.Other(), c.sib);
    assert Ok(near) && Ok(far) && BH(near) == BH(far) == BH(t);
    assert Ok(Child(c.side, near)) && Ok(Child(c.side.Other(), near));
    assert Ok(Join(c.side.Other(), Red, far, c.sib.node, c.sib.data, Child(c.side.Other(), near)));
  }

  // The walk of rb_delete_fixup enters the rotate-the-sibling branch.
  predicate MeetsNear(c: Ctx, col: Color)
    decreases c
  {
    && c.Hole? && col == Black && c.sib.Bin?
    && if c.sib.color == Red then NearOnly(c.side, Child(c.side, c.sib))
       else if BothBlack(c.sib) then MeetsNear(c.up, c.color)
       else NearOnly(c.side, c.sib)
  }

  // How rb_delete_fixup as written ends: with a red-black tree, with a tree that is
  // not one, or by dereferencing a NULL sibling.
  datatype Fate = Restored | Unbalanced | NullSibling

  function FateOf(c: Ctx, col: Color): Fate
    decreases c
  {
    if !c.Hole? || col == Red || c.sib == Nil then Restored
    else if c.sib.color == Red then NearFate(c.side, Child(c.side, c.sib))
    else if BothBlack(c.sib) then FateOf(c.up, c.color)
    else NearFate(c.side, c.sib)
  }

  function NearFate(s: Side, sib: Tree): Fate {
    if NearOnly(s, sib) then DriftFate(s, Child(s, Child(s, sib))) else Restored
  }

  // After the branch, when y is next to become the sibling.
  function DriftFate(s: Side, y: Tree): (f: Fate)
    ensures f != Restored
    decreases y
  {
    if y == Nil then NullSibling
    else if NearOnly(s, y) then DriftFate(s, Child(s, Child(s, y)))
    else Unbalanced
  }

  lemma {:induction false} FateMeets(c: Ctx, col: Color)
    ensures FateOf(c, col) == Restored <==> !MeetsNear(c, col)
    decreases c
  {
    if c.Hole? {
      FateMeets(c.up, c.color);
    }
  }

  lemma RedSiblingFate(c: Ctx)
    requires c.Hole? && c.sib.Bin? && c.sib.color == Red
    requires Child(c.side, c.sib).Bin? && Child(c.side, c.sib).color == Black
    ensures FateOf(RedSibling(c), Black) == FateOf(c, Black)
  {
  }

  // --- after the branch as written, which leaves the near child red on top

  // The root of the whole tree is a black node above the hole.
  predicate TopBlack(c: Ctx)
    decreases c
  {
    c.Hole? && if c.up == Top then c.color == Black else TopBlack(c.up)
  }

  lemma {:induction false} TopBlackPlug(c: Ctx, t: Tree)
    requires TopBlack(c)
    ensures Plug(c, t).Bin? && Plug(c, t).color == Black
    decreases c
  {
    if c.up != Top {
      TopBlackPlug(c.up, Join(c.side, c.color, t, c.node, c.data, c.sib));
    }
  }

  lemma {:induction false} CtxOkTopBlack(c: Ctx, h: nat, col: Color)
    requires CtxOk(c, h, col) && c.Hole?
    ensures TopBlack(c)
    decreases c
  {
    if c.up != Top {
      CtxOkTopBlack(c.up, h + Weight(c.color), c.color);
    }
  }

  // A red sibling whose near child can no longer reach the black height of the
  // subtree at the hole.
  predicate Skewed(c: Ctx, t: Tree) {
    && TopBlack(c) && Ok(t) && Col(t) == Black
    && c.sib.Bin? && c.sib.color == Red
    && var near := Child(c.side, c.sib);
    && Ok(near) && Col(near) == Black && BH(near) <= BH(t)
  }

  lemma NearAsWrittenSkews(c: Ctx, t: Tree)
    requires DeleteInv(c, t) && c.Hole? && Col(t) == Black && NearOnly(c.side, c.sib)
    ensures Skewed(NearRotated(c, Red, Black), t)
  {
    CtxOkTopBlack(c, BH(t) + 1, Black);
    assert Ok(Child(c.side, c.sib));
  }

  // The next pass turns the skewed position into c' below ...
  lemma SkewedNext(c: Ctx, t: Tree)
    requires Skewed(c, t)
    ensures var c' := RedSibling(c);
      && TopBlack(c') && c'.color == Red && Ok(c'.sib) && Col(c'.sib) == Black && BH(c'.sib) <= BH(t)
  {
  }

  // ... from which each branch leads to an unbalanced node or to another
  // skewed position.
  lemma SkewedRecolour(c: Ctx, t: Tree)
    requires c.Hole? && c.sib.Bin? && c.sib.color == Black && BH(c.sib) <= BH(t)
    ensures !Ok(Blacken(RecolourSibling(c, t)))
  {
  }

  lemma {:induction false} SkewedFar(c: Ctx, t: Tree)
    requires TopBlack(c) && c.color == Red && c.sib.Bin? && c.sib.color == Black && Ok(c.sib) && BH(c.sib) <= BH(t)
    requires Col(Child(c.side.Other(), c.sib)) == Red
    requires c.up.Hole? && TopBlack(c.up)
    ensures !Ok(Blacken(Plug(c.up, FarRed(c, t))))
    ensures Col(Plug(c.up, FarRed(c, t))) == Black
  {
    PlugOk(c.up, FarRed(c, t));
    TopBlackPlug(c.up, FarRed(c, t));
  }

  lemma SkewedAgain(c: Ctx, t: Tree)
    requires TopBlack(c) && Ok(t) && Col(t) == Black
    requires NearOnly(c.side, c.sib) && Ok(c.sib) && BH(c.sib) <= BH(t)
    ensures Skewed(NearRotated(c, Red, Black), t)
    ensures Size(NearRotated(c, Red, Black).sib) == Size(c.sib)
  {
  }

  // --- the loop state of rb_delete_fixup

  // Sound: only the deficit at the hole.  Adrift: the sibling was rotated as
  // written and the position is skewed.  Ruined: the loop is about to stop on an
  // unbalanced tree.
  datatype Phase = Sound | Adrift | Ruined

  predicate LoopState(ph: Phase, c: Ctx, t: Tree, repaired: bool, fate: Fate) {
    match ph
    case Sound => DeleteInv(c, t) && (repaired || FateOf(c, Col(t)) == fate)
    case Adrift => !repaired && Skewed(c, t) && fate == DriftFate(c.side, Child(c.side, c.sib))
    case Ruined => !repaired && fate == Unbalanced && !Ok(Blacken(t)) && (c == Top || Col(t) == Red)
  }

  function LoopRank(ph: Phase): nat {
    match ph
    case Sound => 2
    case Adrift => 1
    case Ruined => 0
  }

  function LoopMeasure(ph: Phase, c: Ctx, t: Tree): nat {
    if c == Top || Col(t) == Red || ph == Ruined then 0
    else if ph == Adrift then Size(c.sib)
    else if c.sib.Bin? && c.sib.color == Black && Col(Child(c.side.Other(), c.sib)) == Red then 1
    else 2 + Depth(c)
  }

  predicate Progress(ph: Phase, c: Ctx, t: Tree, ph': Phase, c': Ctx, t': Tree) {
    || LoopRank(ph') < LoopRank(ph)
    || (ph' == ph && LoopMeasure(ph', c', t') < LoopMeasure(ph, c, t))
  }

  lemma {:induction false} LoopDone(ph: Phase, c: Ctx, t: Tree, repaired: bool, fate: Fate)
    requires LoopState(ph, c, t, repaired, fate) && (c == Top || Col(t) == Red)
    ensures Rb(Plug(c, Blacken(t))) <==> repaired || fate == Restored
    ensures repaired || fate != NullSibling
  {
    if ph == Sound {
      DeleteDone(c, t);
    } else {
      PlugOk(c, Blacken(t));
    }
  }

  // A position in mid-pass: the sibling, if it was red, has been rotated away.
  predicate MidState(ph: Phase, c0: Ctx, c: Ctx, t: Tree, repaired: bool, fate: Fate) {
    && c0.Hole? && c.Hole? && c.side == c0.side && Col(t) == Black
    && (ph == Sound ==>
        && DeleteInv(c, t) && (repaired || FateOf(c, Black) == fate)
        && c.sib.Bin? && c.sib.color == Black
        && (c == c0 || (c.color == Red && c0.sib.Bin? && c0.sib.color == Red)))
    && (ph == Adrift ==>
        && !repaired && fate == DriftFate(c.side, c.sib)
        && Ok(t) && TopBlack(c) && c.up.Hole? && TopBlack(c.up) && c.color == Red
        && Ok(c.sib) && Col(c.sib) == Black && BH(c.sib) <= BH(t)
        && Size(c.sib) < Size(c0.sib))
    && ph != Ruined
  }

  // Entering a pass.
  lemma {:induction false} PassStart(ph: Phase, c: Ctx, t: Tree, repaired: bool, fate: Fate)
    requires LoopState(ph, c, t, repaired, fate) && c.Hole? && Col(t) == Black
    ensures c.sib.Bin?
    ensures MidState(ph, c, if c.sib.color == Red then RedSibling(c) else c, t, repaired, fate)
  {
    if ph == Sound {
      DeleteSibling(c, t);
      if c.sib.color == Red {
        RedSiblingKeeps(c, t);
        RedSiblingFate(c);
      }
    } else {
      SkewedNext(c, t);
    }
  }

  lemma PassRecolour(ph: Phase, c0: Ctx, c: Ctx, t: Tree, repaired: bool, fate: Fate) returns (ph': Phase)
    requires MidState(ph, c0, c, t, repaired, fate) && c.sib.Bin? && BothBlack(c.sib)
    ensures LoopState(ph', c.up, RecolourSibling(c, t), repaired, fate)
    ensures Progress(ph, c0, t, ph', c.up, RecolourSibling(c, t))
  {
    if ph == Sound {
      ph' := Sound;
      RecolourSiblingKeeps(c, t);
    } else {
      ph' := Ruined;
      SkewedRecolour(c, t);
    }
  }

  lemma {:induction false} PassFar(ph: Phase, c0: Ctx, c: Ctx, t: Tree, repaired: bool, fate: Fate)
      returns (ph': Phase)
    requires MidState(ph, c0, c, t, repaired, fate) && c.sib.Bin? && Col(Child(c.side.Other(), c.sib)) == Red
    ensures LoopState(ph', Top, Plug(c.up, FarRed(c, t)), repaired, fate)
    ensures Progress(ph, c0, t, ph', Top, Plug(c.up, FarRed(c, t)))
    ensures Col(Plug(c.up, FarRed(c, t))) == Black
  {
    if ph == Sound {
      ph' := Sound;
      FarRedRestores(c, t);
    } else {
      ph' := Ruined;
      SkewedFar(c, t);
    }
  }

  lemma PassNear(ph: Phase, c0: Ctx, c: Ctx, t: Tree, repaired: bool, fate: Fate) returns (ph': Phase)
    requires MidState(ph, c0, c, t, repaired, fate) && NearOnly(c.side, c.sib)
    ensures var c' := if repaired then NearRotated(c, Black, Red) else NearRotated(c, Red, Black);
      LoopState(ph', c', t, repaired, fate) && Progress(ph, c0, t, ph', c', t)
  {
    if repaired {
      ph' := Sound;
      NearRepairedKeeps(c, t);
    } else if ph == Sound {
      ph' := Adrift;
      NearAsWrittenSkews(c, t);
    } else {
      ph' := Adrift;
      SkewedAgain(c, t);
    }
  }
}
