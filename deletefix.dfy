/** The colour argument behind `recolorForDelete`. After a black node has
    been unlinked, the subtree `t` in its place (the node `x` of the loop,
    possibly null) carries one black node less than its context expects;
    each case of the loop either moves that deficit one level up or removes
    it with at most two rotations. */
module DeleteFix {
  import opened Nodes
  import opened Abstract
  import opened Zipper
  import opened Rotation

  /** The state at the head of the loop of `recolorForDelete`: `t` is
      balanced but one black short, and apart from a red root of `t` with a
      red child there is no red node with a red child. */
  ghost predicate DelInv(ctx: Ctx, t: Tree) {
    Balanced(t) && CtxBH(ctx, BH(t) + 1) && CtxRed(ctx, false) &&
    (t.Node? ==> NoRedRed(t.left) && NoRedRed(t.right)) &&
    (ctx.Hole? ==> RootBlack(Plug(ctx, t)))
  }

  /** The children of the sibling of the hole: the one next to the hole and
      the one away from it. */
  function Near(ctx: Ctx): Tree
    requires ctx.Hole? && ctx.sib.Node?
  {
    Child(ctx.sib, ctx.d)
  }

  function Far(ctx: Ctx): Tree
    requires ctx.Hole? && ctx.sib.Node?
  {
    Child(ctx.sib, Opp(ctx.d))
  }

  lemma BHChild(t: Tree, e: Dir)
    requires t.Node? && Balanced(t)
    ensures Balanced(Child(t, e)) && BH(Child(t, e)) + BlackCount(t.color) == BH(t)
  {
  }

  lemma CtxRedFalse(ctx: Ctx, b: bool)
    requires CtxRed(ctx, b)
    ensures CtxRed(ctx, false)
  {
  }

  /** The sibling is a real node (its black height is at least one) and
      its subtrees are balanced and free of red-red faults. */
  lemma DelSibling(ctx: Ctx, t: Tree)
    requires DelInv(ctx, t) && ctx.Hole?
    ensures ctx.sib.Node? && Balanced(ctx.sib) && NoRedRed(ctx.sib) && BH(ctx.sib) == BH(t) + 1
    ensures Balanced(Near(ctx)) && BH(Near(ctx)) + BlackCount(ctx.sib.color) == BH(t) + 1
    ensures Balanced(Far(ctx)) && BH(Far(ctx)) + BlackCount(ctx.sib.color) == BH(t) + 1
    ensures NoRedRed(Near(ctx)) && NoRedRed(Far(ctx))
    ensures IsRed(ctx.sib) ==> ctx.color == Black && !IsRed(Near(ctx)) && !IsRed(Far(ctx))
    ensures CtxBH(ctx.up, BH(t) + 1 + BlackCount(ctx.color)) && CtxRed(ctx.up, ctx.color == Red)
  {
    BHChild(ctx.sib, ctx.d);
    BHChild(ctx.sib, Opp(ctx.d));
  }

  /** Where `x` sits after case 1: under its old parent, now red, whose new
      sibling is the old near nephew, under the old sibling, now black. */
  function RedSiblingCtx(ctx: Ctx): Ctx
    requires ctx.Hole? && ctx.sib.Node?
  {
    var w := ctx.sib;
    Hole(ctx.d, ctx.id, Red, ctx.key, ctx.value, Near(ctx),
         Hole(ctx.d, w.id, Black, w.key, w.value, Far(ctx), ctx.up))
  }

  /** Case 1, a red sibling: sibling black, parent red, rotation at the
      parent. `x` keeps its deficit, has a red parent and a black sibling. */
  lemma DelCase1(ctx: Ctx, t: Tree)
    requires DelInv(ctx, t) && !IsRed(t) && ctx.Hole? && IsRed(ctx.sib)
    ensures var p1 := MkNode(ctx.id, Red, ctx.key, ctx.value, ctx.d, t, ctx.sib.(color := Black));
            Child(p1, Opp(ctx.d)).Node? && Plug(ctx.up, Rot(p1, Opp(ctx.d))) == Plug(RedSiblingCtx(ctx), t)
    ensures DelInv(RedSiblingCtx(ctx), t)
    ensures RedSiblingCtx(ctx).sib.Node? && !IsRed(RedSiblingCtx(ctx).sib)
  {
    DelSibling(ctx, t);
    var d, w := ctx.d, ctx.sib;
    var wb := w.(color := Black);
    var p0 := MkNode(ctx.id, ctx.color, ctx.key, ctx.value, d, t, w);
    var p1 := MkNode(ctx.id, Red, ctx.key, ctx.value, d, t, wb);
    var inner := MkNode(ctx.id, Red, ctx.key, ctx.value, d, t, Near(ctx));
    var r := MkNode(w.id, Black, w.key, w.value, d, inner, Far(ctx));
    assert Child(wb, d) == Near(ctx) && Child(wb, Opp(d)) == Far(ctx);
    Flip(ctx.id, Red, ctx.key, ctx.value, d, t, Near(ctx));
    Flip(w.id, Black, w.key, w.value, d, inner, Far(ctx));
    assert Rot(p1, Opp(d)) == r;
    assert CtxBH(Hole(d, w.id, Black, w.key, w.value, Far(ctx), ctx.up), BH(t) + 1);
    assert CtxRed(Hole(d, w.id, Black, w.key, w.value, Far(ctx), ctx.up), true);
    if ctx.up.Hole? {
      PlugTop(ctx.up, p0, r);
    }
  }

  /** Case 2, a black sibling with two black (or null) children: the
      sibling turns red and the deficit moves to the parent. */
  lemma DelCase2(ctx: Ctx, t: Tree)
    requires DelInv(ctx, t) && !IsRed(t) && ctx.Hole? && ctx.sib.Node? && !IsRed(ctx.sib)
    requires !IsRed(Near(ctx)) && !IsRed(Far(ctx))
    ensures DelInv(ctx.up, MkNode(ctx.id, ctx.color, ctx.key, ctx.value, ctx.d, t, ctx.sib.(color := Red)))
  {
    DelSibling(ctx, t);
    var d, w := ctx.d, ctx.sib;
    var wr := w.(color := Red);
    var p0 := MkNode(ctx.id, ctx.color, ctx.key, ctx.value, d, t, w);
    var p := MkNode(ctx.id, ctx.color, ctx.key, ctx.value, d, t, wr);
    assert Child(wr, d) == Near(ctx) && Child(wr, Opp(d)) == Far(ctx);
    assert Balanced(wr) && BH(wr) == BH(t) && NoRedRed(wr);
    assert NoRedRed(t);
    assert Balanced(p) && BH(p) == BH(t) + BlackCount(ctx.color);
    CtxRedFalse(ctx.up, ctx.color == Red);
    if ctx.up.Hole? {
      PlugTop(ctx.up, p0, p);
    }
  }

  /** The sibling after case 3: the near nephew, black, on top of the old
      sibling, red. */
  function NearRedSibling(ctx: Ctx): (w2: Tree)
    requires ctx.Hole? && ctx.sib.Node? && Near(ctx).Node?
    ensures w2.Node?
  {
    var w, d := ctx.sib, ctx.d;
    Rot(MkNode(w.id, Red, w.key, w.value, d, Near(ctx).(color := Black), Far(ctx)), d)
  }

  /** The subtree the sibling becomes in case 3: a balanced black node of
      the old sibling's black height, with no red-red fault and a red far
      child. */
  lemma NearRedFacts(ctx: Ctx, t: Tree)
    requires DelInv(ctx, t) && !IsRed(t) && ctx.Hole? && ctx.sib.Node? && !IsRed(ctx.sib)
    requires IsRed(Near(ctx)) && !IsRed(Far(ctx))
    ensures var w2 := NearRedSibling(ctx);
            Balanced(w2) && BH(w2) == BH(t) + 1 && NoRedRed(w2) && !IsRed(w2) &&
            IsRed(Child(w2, Opp(ctx.d)))
  {
    DelSibling(ctx, t);
    var d, w, n := ctx.d, ctx.sib, Near(ctx);
    BHChild(n, d);
    BHChild(n, Opp(d));
    var nb := n.(color := Black);
    var w1 := MkNode(w.id, Red, w.key, w.value, d, nb, Far(ctx));
    var inner := MkNode(w.id, Red, w.key, w.value, d, Child(n, Opp(d)), Far(ctx));
    var w2 := MkNode(n.id, Black, n.key, n.value, d, Child(n, d), inner);
    assert Child(nb, d) == Child(n, d) && Child(nb, Opp(d)) == Child(n, Opp(d));
    assert NearRedSibling(ctx) == Rot(w1, d) == w2;
    assert Balanced(inner) && BH(inner) == BH(t) && NoRedRed(inner);
  }

  /** Case 3, a black sibling whose near child is red and far child is not:
      near nephew black, sibling red, rotation at the sibling. The new
      sibling is black with a red far child, which is case 4. */
  lemma DelCase3(ctx: Ctx, t: Tree)
    requires DelInv(ctx, t) && !IsRed(t) && ctx.Hole? && ctx.sib.Node? && !IsRed(ctx.sib)
    requires IsRed(Near(ctx)) && !IsRed(Far(ctx))
    ensures DelInv(ctx.(sib := NearRedSibling(ctx)), t)
    ensures !IsRed(NearRedSibling(ctx)) && IsRed(Far(ctx.(sib := NearRedSibling(ctx))))
  {
    DelSibling(ctx, t);
    NearRedFacts(ctx, t);
    var d, w, w2 := ctx.d, ctx.sib, NearRedSibling(ctx);
    var p0 := MkNode(ctx.id, ctx.color, ctx.key, ctx.value, d, t, w);
    var p2 := MkNode(ctx.id, ctx.color, ctx.key, ctx.value, d, t, w2);
    assert Plug(ctx.(sib := w2), t) == Plug(ctx.up, p2);
    assert Plug(ctx, t) == Plug(ctx.up, p0);
    if ctx.up.Hole? {
      PlugTop(ctx.up, p0, p2);
    }
  }

  /** Case 4, a black sibling with a red far child: sibling takes the
      parent's colour, parent and far nephew black, rotation at the parent.
      The deficit is gone and only the root may be red; the loop ends. */
  lemma DelCase4(ctx: Ctx, t: Tree)
    requires DelInv(ctx, t) && !IsRed(t) && ctx.Hole? && ctx.sib.Node? && !IsRed(ctx.sib)
    requires IsRed(Far(ctx))
    ensures var w, d := ctx.sib, ctx.d;
            var w3 := MkNode(w.id, ctx.color, w.key, w.value, d, Near(ctx), Far(ctx).(color := Black));
            var p3 := MkNode(ctx.id, Black, ctx.key, ctx.value, d, t, w3);
            Child(p3, Opp(d)).Node? && DelInv(Top, Plug(ctx.up, Rot(p3, Opp(d))))
  {
    DelSibling(ctx, t);
    var d, w, f := ctx.d, ctx.sib, Far(ctx);
    var fb := f.(color := Black);
    var w3 := MkNode(w.id, ctx.color, w.key, w.value, d, Near(ctx), fb);
    var p3 := MkNode(ctx.id, Black, ctx.key, ctx.value, d, t, w3);
    var left := MkNode(ctx.id, Black, ctx.key, ctx.value, d, t, Near(ctx));
    var r := MkNode(w.id, ctx.color, w.key, w.value, d, left, fb);
    Flip(ctx.id, Black, ctx.key, ctx.value, d, t, Near(ctx));
    Flip(w.id, ctx.color, w.key, w.value, d, left, fb);
    assert Rot(p3, Opp(d)) == r;
    assert NoRedRed(t);
    assert Balanced(left) && BH(left) == BH(t) + 1 && NoRedRed(left);
    assert Balanced(fb) && BH(fb) == BH(t) + 1 && NoRedRed(fb);
    assert Balanced(r) && BH(r) == BH(t) + 1 + BlackCount(ctx.color) && NoRedRed(r);
    PlugBalanced(ctx.up, r);
    PlugRed(ctx.up, r);
  }

  /** The loop has stopped: `x` is red or the root. Painting a non-null
      `x` black gives the colour conditions of a red-black tree. */
  lemma DelDone(ctx: Ctx, t: Tree)
    requires DelInv(ctx, t) && (ctx.Top? || IsRed(t))
    ensures t.Nil? ==> ctx.Top? && Colored(Plug(ctx, t))
    ensures t.Node? ==> Colored(Plug(ctx, t.(color := Black)))
  {
    if t.Node? {
      var tb := t.(color := Black);
      assert NoRedRed(tb) && Balanced(tb);
      if ctx.Hole? {
        assert BH(tb) == BH(t) + 1;
        PlugBalanced(ctx, tb);
        PlugRed(ctx, tb);
        PlugTop(ctx, t, tb);
      }
    }
  }

  // ---------------------------------------------------------------- unlinking

  /** A subtree of the same form and colours fills the hole equally well.  */
  lemma DelInvSameColors(ctx: Ctx, a: Tree, b: Tree)
    requires DelInv(ctx, a) && SameColors(a, b)
    ensures DelInv(ctx, b)
  {
    SameColorsKeeps(a, b);
    if a.Node? {
      SameColorsKeeps(a.left, b.left);
      SameColorsKeeps(a.right, b.right);
    }
    if ctx.Hole? {
      PlugTop(ctx, a, b);
    }
  }

  /** Unlinking a node `y` with no child on side `e` from a tree with the
      colour conditions, its other subtree `z` moving up into its place: a
      non-null `z` is a red leaf; a red `y` has no child and leaves a tree
      with the colour conditions; a black `y` leaves `z` one black short. */
  lemma Unlink(ctx: Ctx, y: Tree, e: Dir)
    requires Colored(Plug(ctx, y)) && y.Node? && Child(y, e).Nil?
    ensures var z := Child(y, Opp(e));
            (z.Node? ==> y.color == Black && z.color == Red && z.left.Nil? && z.right.Nil?) &&
            (y.color == Black ==> DelInv(ctx, z)) &&
            (y.color == Red ==> z.Nil? && (ctx.Hole? ==> Colored(Plug(ctx, z))))
  {
    var z := Child(y, Opp(e));
    PlugBalanced(ctx, y);
    PlugRed(ctx, y);
    BHChild(y, e);
    BHChild(y, Opp(e));
    assert BH(z) == 0;
    if z.Node? {
      BHChild(z, Left);
      assert z.color == Red;
      assert z.left.Nil? && z.right.Nil?;
    }
    CtxRedFalse(ctx, IsRed(y));
    if ctx.Hole? {
      PlugTop(ctx, y, z);
      if y.color == Red {
        PlugBalanced(ctx, z);
        PlugRed(ctx, z);
      }
    }
  }

  // ---------------------------------------------------------------- order and contents

  /** A leaf `y` removed from an ordered tree: the tree stays ordered and
      loses exactly the entry of `y`. */
  lemma RemoveLeafFacts(ctx: Ctx, y: Tree)
    requires Bst(Plug(ctx, y)) && y.Node? && y.left.Nil? && y.right.Nil?
    ensures Bst(Plug(ctx, Nil))
    ensures Content(Plug(ctx, Nil)) == Content(Plug(ctx, y)) - {y.key}
  {
    PlugBst(ctx, y);
    assert Keys(y) == {y.key};
    CtxBstSubset(ctx, {y.key}, {});
    PlugBst(ctx, Nil);
    CtxBstDisjoint(ctx, {y.key});
    assert Content(Nil) == Content(y) - {y.key};
    PlugContentRemove(ctx, y, Nil, y.key);
  }

  /** A node `y` with one child, a leaf `c`, replaced by a leaf with the id
      of `y` and the entry of `c`: the tree stays ordered and loses exactly
      the entry of `y`. */
  lemma RemoveOneFacts(ctx: Ctx, y: Tree, c: Tree, t1: Tree)
    requires Bst(y) && CtxBst(ctx, Keys(y)) && y.Node? && c.Node? && c.left.Nil? && c.right.Nil?
    requires (y.left == c && y.right.Nil?) || (y.right == c && y.left.Nil?)
    requires t1.Node? && t1.key == c.key && t1.value == c.value && t1.left.Nil? && t1.right.Nil?
    ensures Bst(Plug(ctx, t1))
    ensures Content(Plug(ctx, t1)) == Content(Plug(ctx, y)) - {y.key}
  {
    PlugBst(ctx, y);
    OneChildLocal(y, c, t1);
    PlugBstShrink(ctx, y, t1);
    CtxBstDisjoint(ctx, Keys(y));
    PlugContentRemove(ctx, y, t1, y.key);
  }

  lemma OneChildLocal(y: Tree, c: Tree, t1: Tree)
    requires Bst(y) && y.Node? && c.Node? && c.left.Nil? && c.right.Nil?
    requires (y.left == c && y.right.Nil?) || (y.right == c && y.left.Nil?)
    requires t1.Node? && t1.key == c.key && t1.value == c.value && t1.left.Nil? && t1.right.Nil?
    ensures Keys(y) == {y.key, c.key} && c.key != y.key && Keys(t1) == {c.key} && Bst(t1)
    ensures Content(t1) == Content(y) - {y.key}
  {
    assert Content(c) == map[c.key := c.value];
    assert Content(t1) == map[c.key := c.value];
    if y.left == c {
      assert Content(y) == map[c.key := c.value][y.key := y.value];
    } else {
      assert Content(y) == map[c.key := c.value][y.key := y.value];
    }
  }

  /** Putting back the entry at `k` of a map after taking it out. */
  lemma MapRestore(a: map<int, string>, b: map<int, string>, k: int)
    requires k in a && k !in b
    ensures ((a - {k}) + b)[k := a[k]] == a + b
    ensures (b + (a - {k}))[k := a[k]] == b + a
  {
  }

  lemma MapDrop(a: map<int, string>, b: map<int, string>, k: int, v: string)
    requires k !in a && k !in b
    ensures (a + b)[k := v] - {k} == a + b
  {
  }

  /** A node with no child on side `Opp(e)`: its keys are its own and
      those of its child on side `e`, and that child holds all its other
      entries. */
  lemma ExtremeLocal(high: Tree, e: Dir)
    requires Bst(high) && high.Node? && Child(high, Opp(e)).Nil?
    ensures var z := Child(high, e);
            Bst(z) && Keys(high) == Keys(z) + {high.key} && high.key !in Keys(z) &&
            Content(z) == Content(high) - {high.key}
  {
    var z := Child(high, e);
    ContentKeys(z);
    if e == Left {
      assert Content(high) == Content(z)[high.key := high.value];
    } else {
      assert Content(high) == Content(z)[high.key := high.value];
    }
  }

  /** All keys but the extreme one lie strictly on side `e` of it. */
  lemma ExtremeSide(s: set<int>, k: int, e: Dir)
    requires k in s
    requires forall x | x in s :: if Opp(e) == Left then k <= x else x <= k
    ensures OnSide(e, s - {k}, k)
  {
  }

  /** The extreme node `high` of an ordered subtree `Plug(path, high)` (the
      maximum when `e == Left`, the minimum when `e == Right`), removed with
      its only subtree moving up: what is left is ordered, lies on side `e`
      of the removed key, and lacks exactly the removed entry. */
  lemma RemoveExtreme(path: Ctx, high: Tree, e: Dir)
    requires Bst(Plug(path, high)) && AllOn(path, Opp(e)) && high.Node? && Child(high, Opp(e)).Nil?
    ensures var s, s' := Plug(path, high), Plug(path, Child(high, e));
            high.key in Keys(s) && high.key in Content(s) && Content(s)[high.key] == high.value &&
            Bst(s') && Keys(s') == Keys(s) - {high.key} && OnSide(e, Keys(s'), high.key) &&
            Content(s') == Content(s) - {high.key}
  {
    RemoveExtremeKeys(path, high, e);
    RemoveExtremeContent(path, high, e);
  }

  lemma RemoveExtremeKeys(path: Ctx, high: Tree, e: Dir)
    requires Bst(Plug(path, high)) && AllOn(path, Opp(e)) && high.Node? && Child(high, Opp(e)).Nil?
    ensures var s, s' := Plug(path, high), Plug(path, Child(high, e));
            high.key in Keys(s) && Bst(s') && Keys(s') == Keys(s) - {high.key} &&
            OnSide(e, Keys(s'), high.key)
  {
    var z := Child(high, e);
    var s, s' := Plug(path, high), Plug(path, z);
    PlugBst(path, high);
    ExtremeDrop(path, high, e);
    assert OnSide(e, Keys(s'), high.key) by {
      ExtremeKey(path, high, Opp(e));
      ExtremeSide(Keys(s), high.key, e);
    }
    assert Bst(s') by {
      PlugBst(path, high);
      ExtremeLocal(high, e);
      PlugBstShrink(path, high, z);
    }
  }

  lemma ExtremeDrop(path: Ctx, high: Tree, e: Dir)
    requires Bst(high) && CtxBst(path, Keys(high)) && high.Node? && Child(high, Opp(e)).Nil?
    ensures Keys(Plug(path, Child(high, e))) == Keys(Plug(path, high)) - {high.key}
    ensures high.key in Keys(Plug(path, high))
  {
    var z := Child(high, e);
    var ck := CtxKeys(path);
    assert Keys(high) == Keys(z) + {high.key} && high.key !in Keys(z) by {
      if e == Left {} else {}
    }
    assert high.key !in ck by {
      CtxBstDisjoint(path, Keys(high));
    }
    PlugKeys(path, high);
    PlugKeys(path, z);
    SetDrop(ck, Keys(z), high.key);
  }

  lemma SetDrop(a: set<int>, b: set<int>, k: int)
    requires k !in a && k !in b
    ensures (a + (b + {k})) - {k} == a + b
  {
  }

  lemma RemoveExtremeContent(path: Ctx, high: Tree, e: Dir)
    requires Bst(Plug(path, high)) && AllOn(path, Opp(e)) && high.Node? && Child(high, Opp(e)).Nil?
    ensures var s, s' := Plug(path, high), Plug(path, Child(high, e));
            high.key in Content(s) && Content(s)[high.key] == high.value &&
            Content(s') == Content(s) - {high.key}
  {
    var z := Child(high, e);
    PlugBst(path, high);
    ExtremeLocal(high, e);
    CtxBstDisjoint(path, Keys(high));
    PlugContentRemove(path, high, z, high.key);
    PlugContentAt(path, high);
  }

  /** Node `y` of two children takes the entry of the extreme node `high`
      of its subtree on side `e`, which is removed: the result is ordered
      and lacks exactly the entry of `y`. */
  lemma SubstLocal(y: Tree, path: Ctx, high: Tree, e: Dir)
    requires Bst(y) && y.Node? && Child(y, e) == Plug(path, high) && AllOn(path, Opp(e))
    requires high.Node? && Child(high, Opp(e)).Nil?
    ensures var y1 := MkNode(y.id, y.color, high.key, high.value, e, Plug(path, Child(high, e)), Child(y, Opp(e)));
            Bst(y1) && Keys(y1) <= Keys(y) && Content(y1) == Content(y) - {y.key}
  {
    var s' := Plug(path, Child(high, e));
    RemoveExtreme(path, high, e);
    SubstOrder(y, s', high.key, high.value, e);
    SubstContent(y, s', high.key, high.value, e);
  }

  /** Order half of `SubstLocal`, on the removed entry `hk` alone. */
  lemma SubstOrder(y: Tree, s': Tree, hk: int, hv: string, e: Dir)
    requires Bst(y) && y.Node? && Bst(s')
    requires hk in Keys(Child(y, e)) && Keys(s') == Keys(Child(y, e)) - {hk} && OnSide(e, Keys(s'), hk)
    ensures var y1 := MkNode(y.id, y.color, hk, hv, e, s', Child(y, Opp(e)));
            Bst(y1) && Keys(y1) <= Keys(y)
  {
    var y1 := MkNode(y.id, y.color, hk, hv, e, s', Child(y, Opp(e)));
    if e == Left {
      assert Above(Keys(y.right), hk);
      assert Bst(y1);
    } else {
      assert Below(Keys(y.left), hk);
      assert Bst(y1);
    }
  }

  /** Content half of `SubstLocal`. */
  lemma SubstContent(y: Tree, s': Tree, hk: int, hv: string, e: Dir)
    requires Bst(y) && y.Node?
    requires hk in Content(Child(y, e)) && Content(Child(y, e))[hk] == hv
    requires Content(s') == Content(Child(y, e)) - {hk}
    ensures var y1 := MkNode(y.id, y.color, hk, hv, e, s', Child(y, Opp(e)));
            Content(y1) == Content(y) - {y.key}
  {
    var s, o := Child(y, e), Child(y, Opp(e));
    ContentKeys(s);
    ContentKeys(o);
    assert hk !in Keys(o) && y.key !in Keys(s) && y.key !in Keys(o) by {
      if e == Left {} else {}
    }
    if e == Left {
      MapRestore(Content(s), Content(o), hk);
      MapDrop(Content(s), Content(o), y.key, y.value);
    } else {
      MapRestore(Content(s), Content(o), hk);
      MapDrop(Content(o), Content(s), y.key, y.value);
    }
  }

  /** The two-children branch of `remove` on the tree: `y` at `ctx` takes
      the entry of `high`, which sits at `path` below the child of `y` on
      side `e`, and `high` is replaced by its remaining subtree. */
  lemma SubstituteFacts(ctx: Ctx, y: Tree, path: Ctx, high: Tree, e: Dir)
    requires Bst(Plug(ctx, y)) && y.Node? && Child(y, e) == Plug(path, high) && AllOn(path, Opp(e))
    requires high.Node? && Child(high, Opp(e)).Nil?
    ensures var c2 := Append(path, Hole(e, y.id, y.color, high.key, high.value, Child(y, Opp(e)), ctx));
            Plug(c2, high) == Plug(ctx, y.(key := high.key, value := high.value)) &&
            Bst(Plug(c2, Child(high, e))) &&
            Content(Plug(c2, Child(high, e))) == Content(Plug(ctx, y)) - {y.key}
  {
    var hole := Hole(e, y.id, y.color, high.key, high.value, Child(y, Opp(e)), ctx);
    var y1 := MkNode(y.id, y.color, high.key, high.value, e, Plug(path, Child(high, e)), Child(y, Opp(e)));
    PlugAppend(path, hole, high);
    PlugAppend(path, hole, Child(high, e));
    Rebuild(y.(key := high.key, value := high.value), e);
    PlugBst(ctx, y);
    SubstLocal(y, path, high, e);
    PlugBstShrink(ctx, y, y1);
    CtxBstDisjoint(ctx, Keys(y));
    PlugContentRemove(ctx, y, y1, y.key);
  }
}
