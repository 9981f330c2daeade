/** How each invariant of a tree splits into an invariant of a position
    (`Ctx`) and one of the subtree that fills it. */
module Zipper {
  import opened Nodes
  import opened Abstract

  lemma {:induction false} PlugIds(ctx: Ctx, t: Tree)
    ensures Ids(Plug(ctx, t)) == CtxIds(ctx) + Ids(t)
    decreases ctx
  {
    if ctx.Hole? {
      var m := MkNode(ctx.id, ctx.color, ctx.key, ctx.value, ctx.d, t, ctx.sib);
      PlugIds(ctx.up, m);
    }
  }

  lemma {:induction false} PlugKeys(ctx: Ctx, t: Tree)
    ensures Keys(Plug(ctx, t)) == CtxKeys(ctx) + Keys(t)
    decreases ctx
  {
    if ctx.Hole? {
      var m := MkNode(ctx.id, ctx.color, ctx.key, ctx.value, ctx.d, t, ctx.sib);
      PlugKeys(ctx.up, m);
    }
  }

  lemma {:induction false} PlugUnique(ctx: Ctx, t: Tree)
    ensures Unique(Plug(ctx, t)) <==> CtxUnique(ctx) && Unique(t) && CtxIds(ctx) !! Ids(t)
    decreases ctx
  {
    if ctx.Hole? {
      var m := MkNode(ctx.id, ctx.color, ctx.key, ctx.value, ctx.d, t, ctx.sib);
      PlugUnique(ctx.up, m);
      assert Ids(m) == Ids(t) + Ids(ctx.sib) + {ctx.id};
    }
  }

  lemma {:induction false} PlugBst(ctx: Ctx, t: Tree)
    ensures Bst(Plug(ctx, t)) <==> Bst(t) && CtxBst(ctx, Keys(t))
    decreases ctx
  {
    if ctx.Hole? {
      var m := MkNode(ctx.id, ctx.color, ctx.key, ctx.value, ctx.d, t, ctx.sib);
      PlugBst(ctx.up, m);
      assert Keys(m) == Keys(t) + Keys(ctx.sib) + {ctx.key};
    }
  }

  lemma {:induction false} PlugBalanced(ctx: Ctx, t: Tree)
    ensures Balanced(Plug(ctx, t)) <==> Balanced(t) && CtxBH(ctx, BH(t))
    decreases ctx
  {
    if ctx.Hole? {
      var m := MkNode(ctx.id, ctx.color, ctx.key, ctx.value, ctx.d, t, ctx.sib);
      PlugBalanced(ctx.up, m);
    }
  }

  lemma {:induction false} PlugRed(ctx: Ctx, t: Tree)
    ensures NoRedRed(Plug(ctx, t)) <==> NoRedRed(t) && CtxRed(ctx, IsRed(t))
    decreases ctx
  {
    if ctx.Hole? {
      var m := MkNode(ctx.id, ctx.color, ctx.key, ctx.value, ctx.d, t, ctx.sib);
      PlugRed(ctx.up, m);
    }
  }

  /** Below a proper context the root of the whole tree is a node of the
      context, whatever fills the hole. */
  lemma {:induction false} PlugTop(ctx: Ctx, t1: Tree, t2: Tree)
    requires ctx.Hole?
    ensures Plug(ctx, t1).Node? && Plug(ctx, t2).Node?
    ensures Plug(ctx, t1).id == Plug(ctx, t2).id && Plug(ctx, t1).color == Plug(ctx, t2).color
    ensures Plug(ctx, t1).id in CtxIds(ctx)
    decreases ctx
  {
    var m1 := MkNode(ctx.id, ctx.color, ctx.key, ctx.value, ctx.d, t1, ctx.sib);
    var m2 := MkNode(ctx.id, ctx.color, ctx.key, ctx.value, ctx.d, t2, ctx.sib);
    if ctx.up.Hole? {
      PlugTop(ctx.up, m1, m2);
    }
  }

  /** The subtree in a proper hole is never the whole tree. */
  lemma PlugNotRoot(ctx: Ctx, t: Tree)
    requires ctx.Hole? && Unique(Plug(ctx, t))
    ensures RootPtr(Plug(ctx, t)).Ref? && RootPtr(Plug(ctx, t)) != RootPtr(t)
  {
    PlugTop(ctx, t, t);
    PlugUnique(ctx, t);
  }

  /** Contexts compose: `inner` is a position inside the subtree that fills
      `outer`. */
  function Append(inner: Ctx, outer: Ctx): Ctx
    decreases inner
  {
    match inner
    case Top => outer
    case Hole(d, id, c, k, v, sib, up) => Hole(d, id, c, k, v, sib, Append(up, outer))
  }

  lemma {:induction false} PlugAppend(inner: Ctx, outer: Ctx, t: Tree)
    ensures Plug(Append(inner, outer), t) == Plug(outer, Plug(inner, t))
    decreases inner
  {
    if inner.Hole? {
      var m := MkNode(inner.id, inner.color, inner.key, inner.value, inner.d, t, inner.sib);
      PlugAppend(inner.up, outer, m);
    }
  }

  // ---------------------------------------------------------------- contents

  lemma {:induction false} ContentKeys(t: Tree)
    ensures Content(t).Keys == Keys(t)
  {
    if t.Node? {
      ContentKeys(t.left);
      ContentKeys(t.right);
    }
  }

  /** The whole map depends on the subtree in the hole only through that
      subtree's map. */
  lemma {:induction false} PlugContentSame(ctx: Ctx, t1: Tree, t2: Tree)
    requires Content(t1) == Content(t2)
    ensures Content(Plug(ctx, t1)) == Content(Plug(ctx, t2))
    decreases ctx
  {
    if ctx.Hole? {
      var m1 := MkNode(ctx.id, ctx.color, ctx.key, ctx.value, ctx.d, t1, ctx.sib);
      var m2 := MkNode(ctx.id, ctx.color, ctx.key, ctx.value, ctx.d, t2, ctx.sib);
      PlugContentSame(ctx.up, m1, m2);
    }
  }

  /** Setting key `k` in the hole's map sets it in the whole map, provided no
      node of the context holds `k`. */
  lemma {:induction false} PlugContentUpdate(ctx: Ctx, t0: Tree, t1: Tree, k: int, v: string)
    requires Content(t1) == Content(t0)[k := v]
    requires k !in CtxKeys(ctx)
    ensures Content(Plug(ctx, t1)) == Content(Plug(ctx, t0))[k := v]
    decreases ctx
  {
    if ctx.Hole? {
      var m0 := MkNode(ctx.id, ctx.color, ctx.key, ctx.value, ctx.d, t0, ctx.sib);
      var m1 := MkNode(ctx.id, ctx.color, ctx.key, ctx.value, ctx.d, t1, ctx.sib);
      assert Content(m1) == Content(m0)[k := v] by {
        ContentKeys(ctx.sib);
        MapSetUnder(Content(t0), Content(ctx.sib), k, v, ctx.key, ctx.value);
        if ctx.d == Left {} else {}
      }
      PlugContentUpdate(ctx.up, m0, m1, k, v);
    }
  }

  /** Removing key `k` from the hole's map removes it from the whole map,
      provided no node of the context holds `k`. */
  lemma {:induction false} PlugContentRemove(ctx: Ctx, t0: Tree, t1: Tree, k: int)
    requires Content(t1) == Content(t0) - {k}
    requires k !in CtxKeys(ctx)
    ensures Content(Plug(ctx, t1)) == Content(Plug(ctx, t0)) - {k}
    decreases ctx
  {
    if ctx.Hole? {
      var m0 := MkNode(ctx.id, ctx.color, ctx.key, ctx.value, ctx.d, t0, ctx.sib);
      var m1 := MkNode(ctx.id, ctx.color, ctx.key, ctx.value, ctx.d, t1, ctx.sib);
      assert Content(m1) == Content(m0) - {k} by {
        ContentKeys(ctx.sib);
        MapDropUnder(Content(t0), Content(ctx.sib), k, ctx.key, ctx.value);
        if ctx.d == Left {} else {}
      }
      PlugContentRemove(ctx.up, m0, m1, k);
    }
  }

  /** Setting `k` on one side of a union below another key. */
  lemma MapSetUnder(a: map<int, string>, b: map<int, string>, k: int, v: string, key: int, w: string)
    requires k !in b && k != key
    ensures (a[k := v] + b)[key := w] == ((a + b)[key := w])[k := v]
    ensures (b + a[k := v])[key := w] == ((b + a)[key := w])[k := v]
  {
  }

  /** Taking `k` out of one side of a union below another key. */
  lemma MapDropUnder(a: map<int, string>, b: map<int, string>, k: int, key: int, v: string)
    requires k !in b && k != key
    ensures ((a - {k}) + b)[key := v] == ((a + b)[key := v]) - {k}
    ensures (b + (a - {k}))[key := v] == ((b + a)[key := v]) - {k}
  {
  }

  /** In an ordered tree the keys in a hole are not keys of its context. */
  lemma {:induction false} CtxBstDisjoint(ctx: Ctx, s: set<int>)
    requires CtxBst(ctx, s)
    ensures CtxKeys(ctx) !! s
    decreases ctx
  {
    if ctx.Hole? {
      CtxBstDisjoint(ctx.up, s + Keys(ctx.sib) + {ctx.key});
      forall x | x in s
        ensures x !in Keys(ctx.sib) && x != ctx.key
      {
        if ctx.d == Left {
          assert x < ctx.key;
        } else {
          assert ctx.key < x;
        }
      }
    }
  }

  /** A context that accepts a set of keys accepts every subset of it. */
  lemma {:induction false} CtxBstSubset(ctx: Ctx, s: set<int>, s': set<int>)
    requires CtxBst(ctx, s) && s' <= s
    ensures CtxBst(ctx, s')
    decreases ctx
  {
    if ctx.Hole? {
      CtxBstSubset(ctx.up, s + Keys(ctx.sib) + {ctx.key}, s' + Keys(ctx.sib) + {ctx.key});
    }
  }

  /** One step of the binary-search descent for `key`: the context of the
      child on `key`'s side accepts that child's keys together with `key`. */
  lemma Descend(ctx: Ctx, t: Tree, key: int, d: Dir)
    requires t.Node? && Bst(t) && CtxBst(ctx, Keys(t) + {key}) && OnSide(d, {key}, t.key)
    ensures CtxBst(Hole(d, t.id, t.color, t.key, t.value, Child(t, Opp(d)), ctx), Keys(Child(t, d)) + {key})
  {
    var a, b := Child(t, d), Child(t, Opp(d));
    assert Keys(a) + {key} + Keys(b) + {t.key} == Keys(t) + {key};
  }

  /** An ordered subtree with fewer keys fills the hole of an ordered tree
      and keeps it ordered. */
  lemma PlugBstShrink(ctx: Ctx, t0: Tree, t1: Tree)
    requires Bst(Plug(ctx, t0)) && Bst(t1) && Keys(t1) <= Keys(t0)
    ensures Bst(Plug(ctx, t1))
  {
    PlugBst(ctx, t0);
    CtxBstSubset(ctx, Keys(t0), Keys(t1));
    PlugBst(ctx, t1);
  }

  /** A key of the subtree that no node of the context holds maps, in the
      whole tree, to what it maps to in the subtree. */
  lemma {:induction false} PlugContentAgree(ctx: Ctx, t: Tree, k: int)
    requires k in Keys(t) && k !in CtxKeys(ctx)
    ensures k in Content(t)
    ensures k in Content(Plug(ctx, t)) && Content(Plug(ctx, t))[k] == Content(t)[k]
    decreases ctx
  {
    ContentKeys(t);
    if ctx.Hole? {
      var m := MkNode(ctx.id, ctx.color, ctx.key, ctx.value, ctx.d, t, ctx.sib);
      ContentKeys(ctx.sib);
      assert Content(m)[k] == Content(t)[k];
      PlugContentAgree(ctx.up, m, k);
    }
  }

  /** In an ordered tree the key of any node maps to that node's value. */
  lemma PlugContentAt(ctx: Ctx, t: Tree)
    requires Bst(Plug(ctx, t)) && t.Node?
    ensures t.key in Content(Plug(ctx, t)) && Content(Plug(ctx, t))[t.key] == t.value
  {
    PlugBst(ctx, t);
    CtxBstDisjoint(ctx, Keys(t));
    PlugContentAgree(ctx, t, t.key);
  }

  /** Every hole of the context lies on side `d` of its node. */
  ghost predicate AllOn(ctx: Ctx, d: Dir) {
    ctx.Hole? ==> ctx.d == d && AllOn(ctx.up, d)
  }

  /** Along a spine that always goes to side `d`, every key of the context
      lies on the far side of every key in the hole. */
  lemma {:induction false} SpineBound(ctx: Ctx, s: set<int>, d: Dir)
    requires CtxBst(ctx, s) && AllOn(ctx, d)
    ensures forall k, x | k in CtxKeys(ctx) && x in s :: if d == Left then x < k else k < x
    decreases ctx
  {
    if ctx.Hole? {
      var s' := s + Keys(ctx.sib) + {ctx.key};
      SpineBound(ctx.up, s', d);
      forall k, x | k in CtxKeys(ctx) && x in s
        ensures if d == Left then x < k else k < x
      {
        if k in CtxKeys(ctx.up) {
          assert x in s';
        } else if d == Left {
          assert x < ctx.key;
        } else {
          assert ctx.key < x;
        }
      }
    }
  }

  /** The node at the end of a spine to side `d` with no child on side `d`
      holds the least (`Left`) or greatest (`Right`) key of an ordered
      tree. */
  lemma ExtremeKey(ctx: Ctx, t: Tree, d: Dir)
    requires Bst(Plug(ctx, t)) && AllOn(ctx, d) && t.Node? && Child(t, d).Nil?
    ensures t.key in Keys(Plug(ctx, t))
    ensures forall k | k in Keys(Plug(ctx, t)) :: if d == Left then t.key <= k else k <= t.key
  {
    PlugBst(ctx, t);
    PlugKeys(ctx, t);
    SpineBound(ctx, Keys(t), d);
    assert t.key in Keys(t);
  }

  // ---------------------------------------------------------------- shape

  /** Trees of the same shape have the same nodes, keys, order and colours. */
  lemma {:induction false} SameShapeKeeps(a: Tree, b: Tree)
    requires SameShape(a, b)
    ensures Ids(a) == Ids(b) && Keys(a) == Keys(b) && RootPtr(a) == RootPtr(b)
    ensures Unique(a) == Unique(b) && Bst(a) == Bst(b)
    ensures BH(a) == BH(b) && Balanced(a) == Balanced(b)
    ensures IsRed(a) == IsRed(b) && NoRedRed(a) == NoRedRed(b) && RootBlack(a) == RootBlack(b)
  {
    if a.Node? {
      SameShapeKeeps(a.left, b.left);
      SameShapeKeeps(a.right, b.right);
    }
  }

  lemma {:induction false} SameShapeRefl(t: Tree)
    ensures SameShape(t, t)
  {
    if t.Node? {
      SameShapeRefl(t.left);
      SameShapeRefl(t.right);
    }
  }

  lemma {:induction false} PlugSameShape(ctx: Ctx, a: Tree, b: Tree)
    requires SameShape(a, b)
    ensures SameShape(Plug(ctx, a), Plug(ctx, b))
    decreases ctx
  {
    if ctx.Hole? {
      SameShapeRefl(ctx.sib);
      PlugSameShape(ctx.up, MkNode(ctx.id, ctx.color, ctx.key, ctx.value, ctx.d, a, ctx.sib),
                    MkNode(ctx.id, ctx.color, ctx.key, ctx.value, ctx.d, b, ctx.sib));
    }
  }

  // ---------------------------------------------------------------- sides

  /** A node built with its children given from the other side. */
  lemma Flip(id: nat, c: Color, k: int, v: string, d: Dir, a: Tree, b: Tree)
    ensures MkNode(id, c, k, v, Opp(d), b, a) == MkNode(id, c, k, v, d, a, b)
  {
  }

  /** Every node is the node built from its two children seen from side `d`. */
  lemma Rebuild(t: Tree, d: Dir)
    requires t.Node?
    ensures t == MkNode(t.id, t.color, t.key, t.value, d, Child(t, d), Child(t, Opp(d)))
  {
  }

  /** The position of the sibling of the subtree `t` in the hole of `ctx`. */
  function SibCtx(ctx: Ctx, t: Tree): (c: Ctx)
    requires ctx.Hole?
    ensures c.Hole? && c.d == Opp(ctx.d) && c.id == ctx.id && c.color == ctx.color && c.up == ctx.up
  {
    Hole(Opp(ctx.d), ctx.id, ctx.color, ctx.key, ctx.value, t, ctx.up)
  }

  lemma PlugSib(ctx: Ctx, t: Tree, w: Tree)
    requires ctx.Hole?
    ensures Plug(SibCtx(ctx, t), w) == Plug(ctx.(sib := w), t)
  {
    Flip(ctx.id, ctx.color, ctx.key, ctx.value, ctx.d, t, w);
  }

  // ---------------------------------------------------------------- colours

  /** Trees of the same form and colours satisfy the same colour conditions. */
  lemma {:induction false} SameColorsKeeps(a: Tree, b: Tree)
    requires SameColors(a, b)
    ensures BH(a) == BH(b) && Balanced(a) == Balanced(b)
    ensures IsRed(a) == IsRed(b) && NoRedRed(a) == NoRedRed(b) && RootBlack(a) == RootBlack(b)
  {
    if a.Node? {
      SameColorsKeeps(a.left, b.left);
      SameColorsKeeps(a.right, b.right);
    }
  }

  lemma {:induction false} SameColorsRefl(t: Tree)
    ensures SameColors(t, t)
  {
    if t.Node? {
      SameColorsRefl(t.left);
      SameColorsRefl(t.right);
    }
  }

  lemma {:induction false} PlugSameColors(ctx: Ctx, a: Tree, b: Tree)
    requires SameColors(a, b)
    ensures SameColors(Plug(ctx, a), Plug(ctx, b))
    decreases ctx
  {
    if ctx.Hole? {
      SameColorsRefl(ctx.sib);
      PlugSameColors(ctx.up, MkNode(ctx.id, ctx.color, ctx.key, ctx.value, ctx.d, a, ctx.sib),
                     MkNode(ctx.id, ctx.color, ctx.key, ctx.value, ctx.d, b, ctx.sib));
    }
  }
}
