/** How the arena of node records represents an abstract tree: every node of
    the tree has a slot whose record holds its key, value and colour, links to
    the slots of its two children, a link to its parent and the side flag
    that says which child of the parent it is. */
module Representation {
  import opened Nodes
  import opened Abstract
  import opened Zipper

  type Arena = map<nat, NodeRec>

  /** The record that a node of the tree, with parent link `p` and side flag
      `s`, must have in the arena. */
  function RecOf(t: Tree, p: Ptr, s: Side): NodeRec
    requires t.Node?
  {
    NodeRec(t.key, t.value, RootPtr(t.left), RootPtr(t.right), p, s, t.color)
  }

  ghost predicate Rep(nodes: Arena, t: Tree, p: Ptr, s: Side) {
    t.Node? ==>
      t.id in nodes && nodes[t.id] == RecOf(t, p, s) &&
      Rep(nodes, t.left, Ref(t.id), LeftSide) && Rep(nodes, t.right, Ref(t.id), RightSide)
  }

  /** The record of the innermost node of a context whose hole holds `hole`. */
  function CtxRec(ctx: Ctx, hole: Ptr, rs: Side): (r: NodeRec)
    requires ctx.Hole?
    ensures r.Child(ctx.d) == hole && r.Child(Opp(ctx.d)) == RootPtr(ctx.sib)
    ensures r.parent == HoleParent(ctx.up) && r.side == HoleSide(ctx.up, rs)
    ensures r.key == ctx.key && r.value == ctx.value && r.color == ctx.color
  {
    RecOf(MkNode(ctx.id, ctx.color, ctx.key, ctx.value, ctx.d, Nil, ctx.sib),
          HoleParent(ctx.up), HoleSide(ctx.up, rs)).WithChild(ctx.d, hole)
  }

  ghost predicate RepCtx(nodes: Arena, ctx: Ctx, hole: Ptr, rs: Side) {
    ctx.Hole? ==>
      ctx.id in nodes && nodes[ctx.id] == CtxRec(ctx, hole, rs) &&
      Rep(nodes, ctx.sib, Ref(ctx.id), SideOf(Opp(ctx.d))) &&
      RepCtx(nodes, ctx.up, Ref(ctx.id), rs)
  }

  lemma {:induction false} PlugRep(nodes: Arena, ctx: Ctx, t: Tree, rs: Side)
    ensures Rep(nodes, Plug(ctx, t), Null, rs) <==>
              RepCtx(nodes, ctx, RootPtr(t), rs) && Rep(nodes, t, HoleParent(ctx), HoleSide(ctx, rs))
    decreases ctx
  {
    if ctx.Hole? {
      var m := MkNode(ctx.id, ctx.color, ctx.key, ctx.value, ctx.d, t, ctx.sib);
      PlugRep(nodes, ctx.up, m, rs);
      assert RecOf(m, HoleParent(ctx.up), HoleSide(ctx.up, rs)) == CtxRec(ctx, RootPtr(t), rs);
    }
  }

  // ---------------------------------------------------------------- frames

  /** `n2` has the same records as `n1` at the slots in `s` that `n1` has. */
  ghost predicate Agree(n1: Arena, n2: Arena, s: set<nat>) {
    forall i | i in s && i in n1 :: i in n2 && n2[i] == n1[i]
  }

  lemma {:induction false} RepFrame(n1: Arena, n2: Arena, t: Tree, p: Ptr, s: Side)
    requires Rep(n1, t, p, s) && Agree(n1, n2, Ids(t))
    ensures Rep(n2, t, p, s)
  {
    if t.Node? {
      RepFrame(n1, n2, t.left, Ref(t.id), LeftSide);
      RepFrame(n1, n2, t.right, Ref(t.id), RightSide);
    }
  }

  lemma {:induction false} RepCtxFrame(n1: Arena, n2: Arena, ctx: Ctx, hole: Ptr, rs: Side)
    requires RepCtx(n1, ctx, hole, rs) && Agree(n1, n2, CtxIds(ctx))
    ensures RepCtx(n2, ctx, hole, rs)
    decreases ctx
  {
    if ctx.Hole? {
      RepFrame(n1, n2, ctx.sib, Ref(ctx.id), SideOf(Opp(ctx.d)));
      RepCtxFrame(n1, n2, ctx.up, Ref(ctx.id), rs);
    }
  }

  /** A represented tree lives in the arena. */
  lemma {:induction false} RepIds(nodes: Arena, t: Tree, p: Ptr, s: Side)
    requires Rep(nodes, t, p, s)
    ensures Ids(t) <= nodes.Keys
  {
    if t.Node? {
      RepIds(nodes, t.left, Ref(t.id), LeftSide);
      RepIds(nodes, t.right, Ref(t.id), RightSide);
    }
  }

  lemma {:induction false} RepCtxIds(nodes: Arena, ctx: Ctx, hole: Ptr, rs: Side)
    requires RepCtx(nodes, ctx, hole, rs)
    ensures CtxIds(ctx) <= nodes.Keys
    decreases ctx
  {
    if ctx.Hole? {
      RepIds(nodes, ctx.sib, Ref(ctx.id), SideOf(Opp(ctx.d)));
      RepCtxIds(nodes, ctx.up, Ref(ctx.id), rs);
    }
  }

  /** Only the record of the root changed, and it still lists the same
      children: the tree `t2` that differs from `t1` only in the root's data
      and links is represented. */
  lemma RepNewRoot(n1: Arena, n2: Arena, t1: Tree, t2: Tree, p1: Ptr, s1: Side, p2: Ptr, s2: Side)
    requires Rep(n1, t1, p1, s1) && Unique(t1)
    requires t1.Node? && t2.Node? && t2.id == t1.id && t2.left == t1.left && t2.right == t1.right
    requires Agree(n1, n2, Ids(t1) - {t1.id})
    requires t1.id in n2 && n2[t1.id] == RecOf(t2, p2, s2)
    ensures Rep(n2, t2, p2, s2)
  {
    RepFrame(n1, n2, t1.left, Ref(t1.id), LeftSide);
    RepFrame(n1, n2, t1.right, Ref(t1.id), RightSide);
  }

  /** A subtree whose root got a new parent link and side flag. */
  lemma Reparent(n1: Arena, n2: Arena, t: Tree, p1: Ptr, s1: Side, p2: Ptr, s2: Side)
    requires Rep(n1, t, p1, s1) && Unique(t)
    requires Agree(n1, n2, if t.Nil? then {} else Ids(t) - {t.id})
    requires t.Node? ==> t.id in n2 && n2[t.id] == n1[t.id].(parent := p2, side := s2)
    ensures Rep(n2, t, p2, s2)
  {
    if t.Node? {
      RepNewRoot(n1, n2, t, t, p1, s1, p2, s2);
    }
  }

  // ---------------------------------------------------------------- updates

  /** The innermost node of a context now links to `hole1` instead of
      `hole0`, and no other node of the context changed. */
  lemma CtxRelink(n0: Arena, n1: Arena, ctx: Ctx, hole0: Ptr, hole1: Ptr, rs: Side)
    requires RepCtx(n0, ctx, hole0, rs) && CtxUnique(ctx)
    requires ctx.Hole? ==> ctx.id in n1 && n1[ctx.id] == n0[ctx.id].WithChild(ctx.d, hole1)
    requires Agree(n0, n1, CtxIds(ctx) - (if ctx.Hole? then {ctx.id} else {}))
    ensures RepCtx(n1, ctx, hole1, rs)
  {
    if ctx.Hole? {
      assert n1[ctx.id] == CtxRec(ctx, hole1, rs) by {
        if ctx.d == Left { } else { }
      }
      assert CtxIds(ctx) == CtxIds(ctx.up) + Ids(ctx.sib) + {ctx.id};
      RepFrame(n0, n1, ctx.sib, Ref(ctx.id), SideOf(Opp(ctx.d)));
      RepCtxFrame(n0, n1, ctx.up, Ref(ctx.id), rs);
    }
  }

  /** A new subtree `t1` fills the hole of `ctx` in place of `t0`: the
      context is untouched and `t1` is represented under the hole's links. */
  lemma RepSwap(n0: Arena, n1: Arena, ctx: Ctx, t0: Tree, t1: Tree, rs: Side)
    requires Rep(n0, Plug(ctx, t0), Null, rs) && Unique(Plug(ctx, t0))
    requires RootPtr(t1) == RootPtr(t0)
    requires Agree(n0, n1, CtxIds(ctx))
    requires Rep(n1, t1, HoleParent(ctx), HoleSide(ctx, rs))
    requires Unique(t1) && Ids(t1) <= Ids(t0)
    ensures Rep(n1, Plug(ctx, t1), Null, rs) && Unique(Plug(ctx, t1))
  {
    PlugRep(n0, ctx, t0, rs);
    PlugUnique(ctx, t0);
    RepCtxFrame(n0, n1, ctx, RootPtr(t0), rs);
    PlugRep(n1, ctx, t1, rs);
    PlugUnique(ctx, t1);
  }

  /** Only the record of the node in the hole changes, to one with the same
      children: the data of that node (colour, key, value) has changed. */
  lemma RepRecord(n0: Arena, ctx: Ctx, t0: Tree, t1: Tree, rs: Side)
    requires Rep(n0, Plug(ctx, t0), Null, rs) && Unique(Plug(ctx, t0))
    requires t0.Node? && t1.Node? && t1.id == t0.id && t1.left == t0.left && t1.right == t0.right
    ensures t0.id in n0 && n0[t0.id] == RecOf(t0, HoleParent(ctx), HoleSide(ctx, rs))
    ensures Rep(n0[t0.id := RecOf(t1, HoleParent(ctx), HoleSide(ctx, rs))], Plug(ctx, t1), Null, rs)
    ensures Unique(Plug(ctx, t1))
  {
    var n1 := n0[t0.id := RecOf(t1, HoleParent(ctx), HoleSide(ctx, rs))];
    PlugRep(n0, ctx, t0, rs);
    PlugUnique(ctx, t0);
    RepNewRoot(n0, n1, t0, t1, HoleParent(ctx), HoleSide(ctx, rs), HoleParent(ctx), HoleSide(ctx, rs));
    assert Ids(t1) == Ids(t0);
    RepSwap(n0, n1, ctx, t0, t1, rs);
  }

  /** The records around a position: the node in the hole, its parent, its
      sibling, its grandparent and its uncle. */
  lemma Around(nodes: Arena, ctx: Ctx, t: Tree, rs: Side)
    requires Rep(nodes, Plug(ctx, t), Null, rs)
    ensures Rep(nodes, t, HoleParent(ctx), HoleSide(ctx, rs)) && RepCtx(nodes, ctx, RootPtr(t), rs)
    ensures t.Node? ==> t.id in nodes && nodes[t.id] == RecOf(t, HoleParent(ctx), HoleSide(ctx, rs))
    ensures ctx.Hole? ==> ctx.id in nodes && nodes[ctx.id] == CtxRec(ctx, RootPtr(t), rs)
    ensures ctx.Hole? && ctx.sib.Node? ==>
              ctx.sib.id in nodes && nodes[ctx.sib.id] == RecOf(ctx.sib, Ref(ctx.id), SideOf(Opp(ctx.d)))
    ensures ctx.Hole? && ctx.up.Hole? ==>
              ctx.up.id in nodes && nodes[ctx.up.id] == CtxRec(ctx.up, Ref(ctx.id), rs)
    ensures ctx.Hole? && ctx.up.Hole? && ctx.up.sib.Node? ==>
              ctx.up.sib.id in nodes &&
              nodes[ctx.up.sib.id] == RecOf(ctx.up.sib, Ref(ctx.up.id), SideOf(Opp(ctx.up.d)))
  {
    PlugRep(nodes, ctx, t, rs);
  }

  /** A fresh leaf hung into the empty hole of `ctx` by `setLeftChild` or
      `setRightChild` of the hole's parent. */
  lemma RepAttach(n0: Arena, n2: Arena, ctx: Ctx, leaf: Tree, rs: Side)
    requires Rep(n0, Plug(ctx, Nil), Null, rs) && Unique(Plug(ctx, Nil)) && ctx.Hole?
    requires leaf.Node? && leaf.left.Nil? && leaf.right.Nil? && leaf.id !in n0
    requires ctx.id in n0
    requires n2 == LinkChild(n0[leaf.id := RecOf(leaf, Null, NoSide)], ctx.id, ctx.d, Ref(leaf.id))
    ensures Rep(n2, Plug(ctx, leaf), Null, rs) && Unique(Plug(ctx, leaf))
  {
    var n1 := n0[leaf.id := RecOf(leaf, Null, NoSide)];
    PlugRep(n0, ctx, Nil, rs);
    PlugUnique(ctx, Nil);
    RepCtxIds(n0, ctx, Null, rs);
    RepCtxFrame(n0, n1, ctx, Null, rs);
    CtxRelink(n1, n2, ctx, Null, Ref(leaf.id), rs);
    assert n2[leaf.id] == RecOf(leaf, Ref(ctx.id), SideOf(ctx.d));
    PlugRep(n2, ctx, leaf, rs);
    PlugUnique(ctx, leaf);
  }

  /** The records of the children of a node of the tree. */
  lemma RepKids(nodes: Arena, t: Tree, p: Ptr, s: Side, e: Dir)
    requires Rep(nodes, t, p, s) && t.Node?
    ensures t.id in nodes && nodes[t.id].Child(e) == RootPtr(Child(t, e))
    ensures Rep(nodes, Child(t, e), Ref(t.id), SideOf(e))
    ensures Child(t, e).Node? ==>
              Child(t, e).id in nodes && nodes[Child(t, e).id] == RecOf(Child(t, e), Ref(t.id), SideOf(e))
  {
    if e == Left {} else {}
  }

  /** The node `t0` in the hole of `ctx` is cut out by `setLeftChild` or
      `setRightChild` of its parent, which takes the child of `t0` on side
      `e` instead. */
  lemma RepSplice(n1: Arena, n2: Arena, ctx: Ctx, t0: Tree, e: Dir, rs: Side)
    requires Rep(n1, Plug(ctx, t0), Null, rs) && Unique(Plug(ctx, t0)) && ctx.Hole? && t0.Node?
    requires ctx.id in n1 && (Child(t0, e).Node? ==> Child(t0, e).id in n1)
    requires n2 == LinkChild(n1, ctx.id, ctx.d, RootPtr(Child(t0, e)))
    ensures Rep(n2, Plug(ctx, Child(t0, e)), Null, rs) && Unique(Plug(ctx, Child(t0, e)))
  {
    var t1 := Child(t0, e);
    PlugRep(n1, ctx, t0, rs);
    PlugUnique(ctx, t0);
    RepKids(n1, t0, Ref(ctx.id), SideOf(ctx.d), e);
    assert Unique(t1) && Ids(t1) <= Ids(t0) by {
      if e == Left {} else {}
    }
    assert ctx.id in CtxIds(ctx);
    CtxRelink(n1, n2, ctx, Ref(t0.id), RootPtr(t1), rs);
    Reparent(n1, n2, t1, Ref(t0.id), SideOf(e), Ref(ctx.id), SideOf(ctx.d));
    PlugRep(n2, ctx, t1, rs);
    PlugUnique(ctx, t1);
  }
}
