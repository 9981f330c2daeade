/** The arena side of deletion: which records `recolorForDelete` and the
    three branches of `remove` read, and that the arena a branch leaves
    represents the tree without the removed entry, with the colour facts
    the repair starts from. */
module Removal {
  import opened Nodes
  import opened Abstract
  import opened Zipper
  import opened Representation
  import opened DeleteFix

  // ---------------------------------------------------------------- the repair loop

  /** The records the loop of `recolorForDelete` reads at the parent of `x`:
      the hole's side can be told from the parent's left link, and the
      sibling's record holds its colour. */
  lemma ParentLinks(nodes: Arena, c: Ctx, s: Tree, rs: Side)
    requires Rep(nodes, Plug(c, s), Null, rs) && Unique(Plug(c, s)) && c.Hole? && c.sib.Node?
    ensures c.id in nodes && c.sib.id in nodes
    ensures nodes[c.id].left == RootPtr(s) <==> c.d == Left
    ensures nodes[c.id].Child(Opp(c.d)) == Ref(c.sib.id)
    ensures nodes[c.sib.id].color == c.sib.color
  {
    Around(nodes, c, s, rs);
    PlugUnique(c, s);
    assert c.sib.id in CtxIds(c);
  }

  /** The records of the children of the sibling of `x`. */
  lemma Nephews(nodes: Arena, c: Ctx, s: Tree, rs: Side)
    requires Rep(nodes, Plug(c, s), Null, rs) && c.Hole? && c.sib.Node?
    ensures c.sib.id in nodes
    ensures nodes[c.sib.id].Child(c.d) == RootPtr(Near(c))
    ensures nodes[c.sib.id].Child(Opp(c.d)) == RootPtr(Far(c))
    ensures Near(c).Node? ==> Near(c).id in nodes && nodes[Near(c).id].color == Near(c).color
    ensures Far(c).Node? ==> Far(c).id in nodes && nodes[Far(c).id].color == Far(c).color
  {
    Around(nodes, c, s, rs);
    RepKids(nodes, c.sib, Ref(c.id), SideOf(Opp(c.d)), c.d);
    RepKids(nodes, c.sib, Ref(c.id), SideOf(Opp(c.d)), Opp(c.d));
  }

  // ---------------------------------------------------------------- one child

  /** Node `y` after the one-child branch: no children, and the entry and
      colour of its only child, which sits on side `Opp(e)`. */
  function CloneChild(y: Tree, e: Dir): (t: Tree)
    requires y.Node? && Child(y, Opp(e)).Node?
    ensures t.Node? && t.id == y.id && t.left.Nil? && t.right.Nil?
  {
    var z := Child(y, Opp(e));
    Node(y.id, z.color, z.key, z.value, Nil, Nil)
  }

  /** Overwriting the record of `y` with that of `CloneChild(y, e)` gives an
      arena for the tree with `y` replaced. */
  lemma OneChildRep(n0: Arena, n2: Arena, ctx: Ctx, y: Tree, e: Dir, rs: Side)
    requires Rep(n0, Plug(ctx, y), Null, rs) && Unique(Plug(ctx, y))
    requires y.Node? && Child(y, Opp(e)).Node?
    requires n2 == n0[y.id := RecOf(CloneChild(y, e), HoleParent(ctx), HoleSide(ctx, rs))]
    ensures Rep(n2, Plug(ctx, CloneChild(y, e)), Null, rs) && Unique(Plug(ctx, CloneChild(y, e)))
    ensures RootPtr(Plug(ctx, CloneChild(y, e))) == RootPtr(Plug(ctx, y))
  {
    var t2 := CloneChild(y, e);
    PlugUnique(ctx, y);
    PlugRep(n0, ctx, y, rs);
    RepCtxIds(n0, ctx, Ref(y.id), rs);
    RepSwap(n0, n2, ctx, y, t2, rs);
    if ctx.Hole? {
      PlugTop(ctx, y, t2);
    }
  }

  /** The one-child branch on a red-black tree: the node is black, its
      child a red leaf, and after the substitution the tree is ordered,
      lacks the node's entry, and is one black short at the node. */
  lemma OneChildFacts(ctx: Ctx, y: Tree, e: Dir)
    requires RedBlack(Plug(ctx, y)) && y.Node? && Child(y, e).Nil? && Child(y, Opp(e)).Node?
    ensures y.color == Black
    ensures Bst(Plug(ctx, CloneChild(y, e)))
    ensures Content(Plug(ctx, CloneChild(y, e))) == Content(Plug(ctx, y)) - {y.key}
    ensures DelInv(ctx, CloneChild(y, e))
  {
    var z := Child(y, Opp(e));
    Unlink(ctx, y, e);
    assert (y.left == z && y.right.Nil?) || (y.right == z && y.left.Nil?) by {
      if e == Left {} else {}
    }
    PlugBst(ctx, y);
    RemoveOneFacts(ctx, y, z, CloneChild(y, e));
    DelInvSameColors(ctx, z, CloneChild(y, e));
  }

  // ---------------------------------------------------------------- two children

  /** The position of `high` once `y` holds its entry. */
  function SubstCtx(ctx: Ctx, y: Tree, path: Ctx, high: Tree, e: Dir): (c: Ctx)
    requires y.Node? && high.Node?
    ensures c.Hole?
  {
    Append(path, Hole(e, y.id, y.color, high.key, high.value, Child(y, Opp(e)), ctx))
  }

  /** The records the two-children branch reads: those of `y` and of the
      substitute `high` and its parent. */
  lemma SubstRecords(n0: Arena, ctx: Ctx, y: Tree, path: Ctx, high: Tree, e: Dir, rs: Side)
    requires Rep(n0, Plug(ctx, y), Null, rs) && Unique(Plug(ctx, y))
    requires y.Node? && Child(y, e) == Plug(path, high) && high.Node?
    ensures var c2 := SubstCtx(ctx, y, path, high, e);
            y.id in n0 && high.id in n0 && c2.id in n0 && y.id != high.id &&
            n0[y.id] == RecOf(y, HoleParent(ctx), HoleSide(ctx, rs)) &&
            n0[high.id] == RecOf(high, Ref(c2.id), SideOf(c2.d)) &&
            (Child(high, e).Node? ==> Child(high, e).id in n0)
  {
    var co := Append(path, Hole(e, y.id, y.color, y.key, y.value, Child(y, Opp(e)), ctx));
    var c2 := SubstCtx(ctx, y, path, high, e);
    assert co.Hole? && co.id == c2.id && co.d == c2.d;
    assert Plug(co, high) == Plug(ctx, y) by {
      Rebuild(y, e);
      PlugAppend(path, Hole(e, y.id, y.color, y.key, y.value, Child(y, Opp(e)), ctx), high);
    }
    SubstAt(n0, co, high, e, rs);
    Around(n0, ctx, y, rs);
    assert y.id != high.id by {
      PlugUnique(ctx, y);
      PlugIds(path, high);
      assert high.id in Ids(Child(y, e));
      if e == Left {} else {}
    }
  }

  /** The records around a node `high` in the hole of `co`. */
  lemma SubstAt(n0: Arena, co: Ctx, high: Tree, e: Dir, rs: Side)
    requires Rep(n0, Plug(co, high), Null, rs) && Unique(Plug(co, high)) && co.Hole? && high.Node?
    ensures high.id in n0 && co.id in n0 && co.id != high.id
    ensures n0[high.id] == RecOf(high, Ref(co.id), SideOf(co.d))
    ensures Child(high, e).Node? ==> Child(high, e).id in n0
  {
    Around(n0, co, high, rs);
    RepKids(n0, high, HoleParent(co), HoleSide(co, rs), e);
    assert co.id in CtxIds(co);
    PlugUnique(co, high);
  }

  /** The arena after the two-children branch: `y` got the entry of `high`
      (`n1`), then the parent of `high` got the child of `high` on side `e`
      (`n2`). */
  lemma SubstRep(n0: Arena, n1: Arena, n2: Arena, ctx: Ctx, y: Tree, path: Ctx, high: Tree, e: Dir, rs: Side)
    requires Rep(n0, Plug(ctx, y), Null, rs) && Unique(Plug(ctx, y))
    requires y.Node? && Child(y, e) == Plug(path, high) && high.Node?
    requires n1 == n0[y.id := RecOf(y.(key := high.key, value := high.value), HoleParent(ctx), HoleSide(ctx, rs))]
    requires var c2 := SubstCtx(ctx, y, path, high, e);
             c2.id in n1 && (Child(high, e).Node? ==> Child(high, e).id in n1) &&
             n2 == LinkChild(n1, c2.id, c2.d, RootPtr(Child(high, e)))
    ensures var c2 := SubstCtx(ctx, y, path, high, e);
            Rep(n2, Plug(c2, Child(high, e)), Null, rs) && Unique(Plug(c2, Child(high, e))) &&
            RootPtr(Plug(c2, Child(high, e))) == RootPtr(Plug(ctx, y))
  {
    var c2 := SubstCtx(ctx, y, path, high, e);
    var y' := y.(key := high.key, value := high.value);
    RepRecord(n0, ctx, y, y', rs);
    Rebuild(y', e);
    PlugAppend(path, Hole(e, y.id, y.color, high.key, high.value, Child(y, Opp(e)), ctx), high);
    assert Plug(c2, high) == Plug(ctx, y');
    RepSplice(n1, n2, c2, high, e, rs);
    PlugTop(c2, high, Child(high, e));
    if ctx.Hole? {
      PlugTop(ctx, y, y');
    }
  }

  /** The two-children branch on a red-black tree: the tree is ordered and
      lacks the entry of `y`; a black substitute leaves its child one black
      short, a red one leaves a red-black tree. */
  lemma SubstColors(ctx: Ctx, y: Tree, path: Ctx, high: Tree, e: Dir)
    requires RedBlack(Plug(ctx, y)) && y.Node? && Child(y, e) == Plug(path, high) && AllOn(path, Opp(e))
    requires high.Node? && Child(high, Opp(e)).Nil?
    ensures var c2, t2 := SubstCtx(ctx, y, path, high, e), Child(high, e);
            Bst(Plug(c2, t2)) && Content(Plug(c2, t2)) == Content(Plug(ctx, y)) - {y.key} &&
            (high.color == Black ==> DelInv(c2, t2)) &&
            (high.color == Red ==> RedBlack(Plug(c2, t2)))
  {
    var y' := y.(key := high.key, value := high.value);
    var c2 := SubstCtx(ctx, y, path, high, e);
    SubstituteFacts(ctx, y, path, high, e);
    SameColorsRefl(y.left);
    SameColorsRefl(y.right);
    PlugSameColors(ctx, y, y');
    SameColorsKeeps(Plug(ctx, y), Plug(ctx, y'));
    Unlink(c2, high, Opp(e));
  }
}
