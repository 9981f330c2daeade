/** The colour argument behind `recolorForInsertion`: the red node `t` at
    position `ctx` may have a red parent, but every other red-black
    condition holds. Each case of the repair either ends with a red-black
    tree or moves the violation two levels up. */
module InsertFix {
  import opened Nodes
  import opened Abstract
  import opened Zipper
  import opened Rotation

  /** The state on entry to `recolorForInsertion(t.id)`. */
  ghost predicate InsInv(ctx: Ctx, t: Tree) {
    ctx.Hole? && t.Node? && t.color == Red && NoRedRed(t) && Balanced(t) &&
    CtxBH(ctx, BH(t)) && CtxRed(ctx, false) && RootBlack(Plug(ctx, t))
  }

  /** The subtree rooted at the parent of the hole. */
  function ParentTree(ctx: Ctx, t: Tree): Tree
    requires ctx.Hole?
  {
    MkNode(ctx.id, ctx.color, ctx.key, ctx.value, ctx.d, t, ctx.sib)
  }

  /** The subtree rooted at the grandparent of the hole. */
  function GrandTree(ctx: Ctx, t: Tree): Tree
    requires ctx.Hole? && ctx.up.Hole?
  {
    ParentTree(ctx.up, ParentTree(ctx, t))
  }

  /** What `rotateWithType` makes of the grandparent's subtree: one rotation
      at the grandparent when `t` and its parent are children on the same
      side (LL, RR), otherwise first one at the parent (LR, RL). */
  function Rotated(ctx: Ctx, t: Tree): Tree
    requires ctx.Hole? && ctx.up.Hole? && t.Node?
  {
    var g := ctx.up;
    if ctx.d == g.d then Rot(GrandTree(ctx, t), g.d)
    else Rot(ParentTree(g, Rot(ParentTree(ctx, t), ctx.d)), g.d)
  }

  lemma PlugGrand(ctx: Ctx, t: Tree)
    requires ctx.Hole? && ctx.up.Hole?
    ensures Plug(ctx, t) == Plug(ctx.up.up, GrandTree(ctx, t))
  {
  }

  /** A fresh red leaf with `key` in the empty hole of `ctx` of a red-black
      tree: the result holds one entry more and needs at most the repair
      `recolorForInsertion` makes. */
  lemma Attached(ctx: Ctx, leaf: Tree)
    requires leaf.Node? && leaf.color == Red && leaf.left.Nil? && leaf.right.Nil?
    requires RedBlack(Plug(ctx, Nil)) && ctx.Hole? && CtxBst(ctx, {leaf.key})
    ensures Bst(Plug(ctx, leaf)) && InsInv(ctx, leaf)
    ensures leaf.key !in Keys(Plug(ctx, Nil))
    ensures Content(Plug(ctx, leaf)) == Content(Plug(ctx, Nil))[leaf.key := leaf.value]
  {
    assert Keys(leaf) == {leaf.key} && Bst(leaf);
    PlugBst(ctx, leaf);
    assert !IsRed(leaf.left) && !IsRed(leaf.right);
    assert BH(leaf) == 0 && Balanced(leaf) && NoRedRed(leaf) && IsRed(leaf);
    PlugBalanced(ctx, Nil);
    PlugRed(ctx, Nil);
    PlugTop(ctx, Nil, leaf);
    PlugKeys(ctx, Nil);
    CtxBstDisjoint(ctx, {leaf.key});
    assert Content(leaf) == Content(Nil)[leaf.key := leaf.value];
    PlugContentUpdate(ctx, Nil, leaf, leaf.key, leaf.value);
  }

  /** A black parent: the tree is already red-black. */
  lemma InsParentBlack(ctx: Ctx, t: Tree)
    requires InsInv(ctx, t) && ctx.color == Black
    ensures Colored(Plug(ctx, t))
  {
    PlugRed(ctx, t);
    PlugBalanced(ctx, t);
  }

  /** A red parent is not the root, and its parent is black. */
  lemma InsParentRed(ctx: Ctx, t: Tree)
    requires InsInv(ctx, t) && ctx.color == Red
    ensures ctx.up.Hole? && ctx.up.color == Black
  {
    assert ctx.up.Top? ==> Plug(ctx, t) == ParentTree(ctx, t);
    assert CtxRed(ctx.up, true);
  }

  /** What the invariant says around a red parent: its sibling subtree and
      the uncle's are fault-free with the black height of `t`, and the
      context above the grandparent expects one black more. */
  lemma InsFacts(ctx: Ctx, t: Tree)
    requires InsInv(ctx, t) && ctx.color == Red
    ensures ctx.up.Hole? && ctx.up.color == Black
    ensures NoRedRed(ctx.sib) && !IsRed(ctx.sib) && Balanced(ctx.sib) && BH(ctx.sib) == BH(t)
    ensures NoRedRed(ctx.up.sib) && Balanced(ctx.up.sib) && BH(ctx.up.sib) == BH(t)
    ensures CtxBH(ctx.up.up, BH(t) + 1) && CtxRed(ctx.up.up, false)
    ensures Plug(ctx, t) == Plug(ctx.up.up, GrandTree(ctx, t))
  {
    InsParentRed(ctx, t);
    assert CtxBH(ctx.up, BH(t));
    assert CtxRed(ctx.up, true);
  }

  /** The subtree of the grandparent after the red-uncle recolouring. */
  function Recolored(ctx: Ctx, t: Tree): (r: Tree)
    requires ctx.Hole? && ctx.up.Hole? && ctx.up.sib.Node?
    ensures r.Node? && r.id == ctx.up.id && r.color == Red
  {
    var g := ctx.up;
    MkNode(g.id, Red, g.key, g.value, g.d,
           MkNode(ctx.id, Black, ctx.key, ctx.value, ctx.d, t, ctx.sib),
           g.sib.(color := Black))
  }

  /** Red parent and red uncle: after the recolouring the grandparent is a
      red node whose only possible fault is a red parent; at the root,
      painting it black finishes. */
  lemma InsRedUncle(ctx: Ctx, t: Tree)
    requires InsInv(ctx, t) && ctx.color == Red && ctx.up.Hole? && IsRed(ctx.up.sib)
    ensures ctx.up.up.Hole? ==> InsInv(ctx.up.up, Recolored(ctx, t))
    ensures ctx.up.up.Top? ==> var r := Recolored(ctx, t); Colored(r.(color := Black))
  {
    InsFacts(ctx, t);
    var g := ctx.up;
    var u := g.sib;
    var p' := MkNode(ctx.id, Black, ctx.key, ctx.value, ctx.d, t, ctx.sib);
    var r := Recolored(ctx, t);
    assert NoRedRed(p') && Balanced(p') && BH(p') == BH(t) + 1;
    assert NoRedRed(u.(color := Black)) && Balanced(u.(color := Black));
    assert BH(u.(color := Black)) == BH(t) + 1;
    assert NoRedRed(r) && Balanced(r) && BH(r) == BH(t) + 1;
    if g.up.Hole? {
      PlugTop(g.up, GrandTree(ctx, t), r);
    }
  }

  /** Black (or no) uncle, `t` and its parent on the same side: the parent
      painted black and the grandparent red, then one rotation at the
      grandparent. */
  lemma InsLine(ctx: Ctx, t: Tree)
    requires InsInv(ctx, t) && ctx.color == Red && ctx.up.Hole? && !IsRed(ctx.up.sib)
    requires ctx.d == ctx.up.d
    ensures var g := ctx.up;
            var c := Hole(ctx.d, ctx.id, Black, ctx.key, ctx.value, ctx.sib,
                          Hole(g.d, g.id, Red, g.key, g.value, g.sib, g.up));
            Colored(Plug(g.up, Rotated(c, t)))
  {
    InsFacts(ctx, t);
    var g := ctx.up;
    var c := Hole(ctx.d, ctx.id, Black, ctx.key, ctx.value, ctx.sib,
                  Hole(g.d, g.id, Red, g.key, g.value, g.sib, g.up));
    var d := ctx.d;
    var inner := MkNode(g.id, Red, g.key, g.value, d, ctx.sib, g.sib);
    var r := MkNode(ctx.id, Black, ctx.key, ctx.value, d, t, inner);
    assert Rotated(c, t) == r;
    assert NoRedRed(inner) && Balanced(inner) && BH(inner) == BH(t);
    assert NoRedRed(r) && Balanced(r) && BH(r) == BH(t) + 1;
    PlugRed(g.up, r);
    PlugBalanced(g.up, r);
    if g.up.Hole? {
      PlugTop(g.up, GrandTree(ctx, t), r);
    }
  }

  /** Black (or no) uncle, `t` and its parent on opposite sides: the
      grandparent painted red and `t` black, then a rotation at the parent
      and one at the grandparent bring `t` to the top. */
  lemma InsZigzag(ctx: Ctx, t: Tree)
    requires InsInv(ctx, t) && ctx.color == Red && ctx.up.Hole? && !IsRed(ctx.up.sib)
    requires ctx.d != ctx.up.d
    ensures var g := ctx.up;
            var c := Hole(ctx.d, ctx.id, Red, ctx.key, ctx.value, ctx.sib,
                          Hole(g.d, g.id, Red, g.key, g.value, g.sib, g.up));
            Colored(Plug(g.up, Rotated(c, t.(color := Black))))
  {
    InsFacts(ctx, t);
    var g := ctx.up;
    var c := Hole(ctx.d, ctx.id, Red, ctx.key, ctx.value, ctx.sib,
                  Hole(g.d, g.id, Red, g.key, g.value, g.sib, g.up));
    var dd := g.d;
    var cd := ctx.d;
    assert cd == Opp(dd);
    var pl := MkNode(ctx.id, Red, ctx.key, ctx.value, cd, Child(t, dd), ctx.sib);
    var gr := MkNode(g.id, Red, g.key, g.value, dd, Child(t, cd), g.sib);
    var r := MkNode(t.id, Black, t.key, t.value, dd, pl, gr);
    assert Rot(ParentTree(c, t.(color := Black)), cd) ==
           MkNode(t.id, Black, t.key, t.value, cd, Child(t, cd), pl);
    assert Rotated(c, t.(color := Black)) == r;
    assert NoRedRed(pl) && Balanced(pl) && BH(pl) == BH(t);
    assert NoRedRed(gr) && Balanced(gr) && BH(gr) == BH(t);
    assert NoRedRed(r) && Balanced(r) && BH(r) == BH(t) + 1;
    PlugRed(g.up, r);
    PlugBalanced(g.up, r);
    if g.up.Hole? {
      PlugTop(g.up, GrandTree(ctx, t), r);
    }
  }
}
