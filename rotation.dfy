/** The two rotations, `rotateWithLeftChild` (direction `Left`) and
    `rotateWithRightChild` (direction `Right`), on abstract trees and on the
    arena. */
module Rotation {
  import opened Nodes
  import opened Abstract
  import opened Zipper
  import opened Representation

  /** The child on side `d` takes the place of `t`; its inner subtree moves
      over to `t`. */
  function Rot(t: Tree, d: Dir): (r: Tree)
    requires t.Node? && Child(t, d).Node?
    ensures r.Node? && r.id == Child(t, d).id && r.color == Child(t, d).color
  {
    var c := Child(t, d);
    MkNode(c.id, c.color, c.key, c.value, d, Child(c, d),
           MkNode(t.id, t.color, t.key, t.value, d, Child(c, Opp(d)), Child(t, Opp(d))))
  }

  /** The keys in symmetric (in-order) order. */
  function InOrder(t: Tree): seq<int> {
    if t.Nil? then [] else InOrder(t.left) + [t.key] + InOrder(t.right)
  }

  lemma RotInOrder(t: Tree, d: Dir)
    requires t.Node? && Child(t, d).Node?
    ensures InOrder(Rot(t, d)) == InOrder(t)
  {
    var c := Child(t, d);
    if d == Left {
      assert t == Node(t.id, t.color, t.key, t.value, Node(c.id, c.color, c.key, c.value, c.left, c.right), t.right);
      assert Rot(t, d) == Node(c.id, c.color, c.key, c.value, c.left, Node(t.id, t.color, t.key, t.value, c.right, t.right));
      InOrderPair(c.left, c.right, t.right, c.id, c.color, c.key, c.value, t.id, t.color, t.key, t.value);
    } else {
      assert t == Node(t.id, t.color, t.key, t.value, t.left, Node(c.id, c.color, c.key, c.value, c.left, c.right));
      assert Rot(t, d) == Node(c.id, c.color, c.key, c.value, Node(t.id, t.color, t.key, t.value, t.left, c.left), c.right);
      InOrderPair(t.left, c.left, c.right, t.id, t.color, t.key, t.value, c.id, c.color, c.key, c.value);
    }
  }

  /** `((a x b) y e)` and `(a x (b y e))` have the same in-order sequence. */
  lemma InOrderPair(a: Tree, b: Tree, e: Tree, ix: nat, cx: Color, kx: int, vx: string,
                    iy: nat, cy: Color, ky: int, vy: string)
    ensures InOrder(Node(iy, cy, ky, vy, Node(ix, cx, kx, vx, a, b), e)) ==
            InOrder(Node(ix, cx, kx, vx, a, Node(iy, cy, ky, vy, b, e)))
  {
    var sa, sb, se := InOrder(a), InOrder(b), InOrder(e);
    assert (sa + [kx] + sb) + [ky] + se == sa + [kx] + (sb + [ky] + se);
  }

  /** Subtrees with the same in-order sequence give whole trees with the
      same in-order sequence, wherever they are plugged in. */
  lemma {:induction false} PlugInOrder(ctx: Ctx, s: Tree, t: Tree)
    requires InOrder(s) == InOrder(t)
    ensures InOrder(Plug(ctx, s)) == InOrder(Plug(ctx, t))
    decreases ctx
  {
    if ctx.Hole? {
      var ms := MkNode(ctx.id, ctx.color, ctx.key, ctx.value, ctx.d, s, ctx.sib);
      var mt := MkNode(ctx.id, ctx.color, ctx.key, ctx.value, ctx.d, t, ctx.sib);
      assert InOrder(ms) == InOrder(mt) by {
        if ctx.d == Left {} else {}
      }
      PlugInOrder(ctx.up, ms, mt);
    }
  }

  /** A rotation anywhere in a tree keeps the in-order sequence of the
      whole tree. */
  lemma RotPlugInOrder(ctx: Ctx, t: Tree, d: Dir)
    requires t.Node? && Child(t, d).Node?
    ensures InOrder(Plug(ctx, Rot(t, d))) == InOrder(Plug(ctx, t))
  {
    RotInOrder(t, d);
    PlugInOrder(ctx, Rot(t, d), t);
  }

  /** A rotation keeps the set of nodes, the keys and, in an ordered tree,
      the order and the map. */
  lemma RotSame(t: Tree, d: Dir)
    requires t.Node? && Child(t, d).Node?
    ensures Ids(Rot(t, d)) == Ids(t) && Keys(Rot(t, d)) == Keys(t)
    ensures Unique(t) ==> Unique(Rot(t, d))
    ensures Bst(t) ==> Bst(Rot(t, d)) && Content(Rot(t, d)) == Content(t)
  {
    var c := Child(t, d);
    if d == Left {
      assert t == Node(t.id, t.color, t.key, t.value, Node(c.id, c.color, c.key, c.value, c.left, c.right), t.right);
      assert Rot(t, d) == Node(c.id, c.color, c.key, c.value, c.left, Node(t.id, t.color, t.key, t.value, c.right, t.right));
      RotPair(c.left, c.right, t.right, c.id, c.color, c.key, c.value, t.id, t.color, t.key, t.value);
    } else {
      assert t == Node(t.id, t.color, t.key, t.value, t.left, Node(c.id, c.color, c.key, c.value, c.left, c.right));
      assert Rot(t, d) == Node(c.id, c.color, c.key, c.value, Node(t.id, t.color, t.key, t.value, t.left, c.left), c.right);
      RotPair(t.left, c.left, c.right, t.id, t.color, t.key, t.value, c.id, c.color, c.key, c.value);
    }
  }

  /** `(a x b) y e` and `a x (b y e)` have the same nodes and keys, and one
      is unique, or ordered, exactly when the other is; ordered, they hold
      the same map. */
  lemma RotPair(a: Tree, b: Tree, e: Tree, ix: nat, cx: Color, kx: int, vx: string,
                iy: nat, cy: Color, ky: int, vy: string)
    ensures var l := Node(iy, cy, ky, vy, Node(ix, cx, kx, vx, a, b), e);
            var r := Node(ix, cx, kx, vx, a, Node(iy, cy, ky, vy, b, e));
            && Ids(l) == Ids(r) && Keys(l) == Keys(r)
            && (Unique(l) <==> Unique(r))
            && (Bst(l) <==> Bst(r))
            && (Bst(l) ==> Content(l) == Content(r))
  {
    var l := Node(iy, cy, ky, vy, Node(ix, cx, kx, vx, a, b), e);
    var r := Node(ix, cx, kx, vx, a, Node(iy, cy, ky, vy, b, e));
    assert Ids(l) == Ids(a) + Ids(b) + Ids(e) + {ix, iy};
    assert Ids(r) == Ids(a) + Ids(b) + Ids(e) + {ix, iy};
    RotPairUnique(a, b, e, ix, cx, kx, vx, iy, cy, ky, vy);
    RotPairBst(a, b, e, ix, cx, kx, vx, iy, cy, ky, vy);
    assert Bst(l) <==> Bst(r);
    if Bst(l) {
      RotContent(a, b, e, ky, vy, kx, vx);
    }
  }

  lemma RotPairUnique(a: Tree, b: Tree, e: Tree, ix: nat, cx: Color, kx: int, vx: string,
                      iy: nat, cy: Color, ky: int, vy: string)
    ensures Unique(Node(iy, cy, ky, vy, Node(ix, cx, kx, vx, a, b), e)) <==>
            Unique(a) && Unique(b) && Unique(e) && ix != iy &&
            Ids(a) !! Ids(b) && Ids(a) !! Ids(e) && Ids(b) !! Ids(e) &&
            ix !in Ids(a) + Ids(b) + Ids(e) && iy !in Ids(a) + Ids(b) + Ids(e)
    ensures Unique(Node(ix, cx, kx, vx, a, Node(iy, cy, ky, vy, b, e))) <==>
            Unique(a) && Unique(b) && Unique(e) && ix != iy &&
            Ids(a) !! Ids(b) && Ids(a) !! Ids(e) && Ids(b) !! Ids(e) &&
            ix !in Ids(a) + Ids(b) + Ids(e) && iy !in Ids(a) + Ids(b) + Ids(e)
  {
  }

  lemma RotPairBst(a: Tree, b: Tree, e: Tree, ix: nat, cx: Color, kx: int, vx: string,
                   iy: nat, cy: Color, ky: int, vy: string)
    ensures Bst(Node(iy, cy, ky, vy, Node(ix, cx, kx, vx, a, b), e)) <==>
            Bst(a) && Bst(b) && Bst(e) && kx < ky &&
            Below(Keys(a), kx) && Above(Keys(b), kx) && Below(Keys(b), ky) && Above(Keys(e), ky)
    ensures Bst(Node(ix, cx, kx, vx, a, Node(iy, cy, ky, vy, b, e))) <==>
            Bst(a) && Bst(b) && Bst(e) && kx < ky &&
            Below(Keys(a), kx) && Above(Keys(b), kx) && Below(Keys(b), ky) && Above(Keys(e), ky)
  {
  }

  /** The map of `((a k1 b) k2 e)` equals that of `(a k1 (b k2 e))` when the
      keys are in order. */
  lemma RotContent(a: Tree, b: Tree, e: Tree, k2: int, v2: string, k1: int, v1: string)
    requires Below(Keys(a), k1) && Above(Keys(b), k1) && Below(Keys(b), k2) && Above(Keys(e), k2)
    requires k1 < k2
    ensures ((Content(a) + Content(b))[k1 := v1] + Content(e))[k2 := v2] ==
            (Content(a) + (Content(b) + Content(e))[k2 := v2])[k1 := v1]
  {
    ContentKeys(e);
    var ca, cb, ce := Content(a), Content(b), Content(e);
    UpdateUnion(ca + cb, ce, k1, v1);
    UnionUpdate(ca, cb + ce, k2, v2);
    assert (ca + cb) + ce == ca + (cb + ce);
    UpdateSwap(ca + cb + ce, k1, v1, k2, v2);
  }

  /** An update on the left of a union survives when the right map lacks the key. */
  lemma UpdateUnion(m: map<int, string>, n: map<int, string>, k: int, v: string)
    requires k !in n
    ensures m[k := v] + n == (m + n)[k := v]
  {
  }

  /** An update on the right of a union is an update of the union. */
  lemma UnionUpdate(m: map<int, string>, n: map<int, string>, k: int, v: string)
    ensures m + n[k := v] == (m + n)[k := v]
  {
  }

  /** Updates at different keys commute. */
  lemma UpdateSwap(m: map<int, string>, k1: int, v1: string, k2: int, v2: string)
    requires k1 != k2
    ensures m[k1 := v1][k2 := v2] == m[k2 := v2][k1 := v1]
  {
  }

  /** The arena after `rotateWithLeftChild(node)` (`d == Left`) or
      `rotateWithRightChild(node)` (`d == Right`), where `pd` is the slot of
      `parent` that `node` occupies: first the parent (or `root`) takes the
      child `l`, then `node` takes the inner subtree of `l`, then `l` takes
      `node`. */
  function RotArena(n0: Arena, parent: Ptr, pd: Dir, node: nat, l: nat, d: Dir): Arena
    requires node in n0 && l in n0 && (parent.Ref? ==> parent.id in n0 && parent.id != l)
    requires n0[l].Child(Opp(d)).Ref? ==> n0[l].Child(Opp(d)).id in n0
  {
    var n1 := RotStep1(n0, parent, pd, l);
    var n2 := LinkChild(n1, node, d, n1[l].Child(Opp(d)));
    LinkChild(n2, l, Opp(d), Ref(node))
  }

  /** What `RotArena` does, slot by slot: `l` moves up to the parent (or the
      root), `node` becomes its child on the side opposite `d` and takes the
      inner subtree `b` of `l`; no other slot changes. */
  lemma RotArenaSlots(n0: Arena, parent: Ptr, pd: Dir, node: nat, l: nat, d: Dir)
    requires node in n0 && l in n0 && node != l
    requires var b := n0[l].Child(Opp(d));
             b.Ref? ==> b.id in n0 && b.id != node && b.id != l
    requires parent.Ref? ==> parent.id in n0 && parent.id != node && parent.id != l
    requires parent.Ref? && n0[l].Child(Opp(d)).Ref? ==> parent.id != n0[l].Child(Opp(d)).id
    ensures var n3 := RotArena(n0, parent, pd, node, l, d);
            var b := n0[l].Child(Opp(d));
            && n3.Keys == n0.Keys
            && n3[l] == n0[l].WithChild(Opp(d), Ref(node)).(parent := parent,
                          side := if parent.Ref? then SideOf(pd) else n0[l].side)
            && n3[node] == n0[node].WithChild(d, b).(parent := Ref(l), side := SideOf(Opp(d)))
            && (b.Ref? ==> n3[b.id] == n0[b.id].(parent := Ref(node), side := SideOf(d)))
            && (parent.Ref? ==> n3[parent.id] == n0[parent.id].WithChild(pd, Ref(l)))
            && (forall i | i in n0 && i != node && i != l && (b.Ref? ==> i != b.id) &&
                           (parent.Ref? ==> i != parent.id) :: n3[i] == n0[i])
  {
    RotArenaUp(n0, parent, pd, node, l, d);
    RotArenaDown(n0, parent, pd, node, l, d);
    RotArenaInner(n0, parent, pd, node, l, d);
    RotArenaRest(n0, parent, pd, node, l, d);
  }

  /** The record of `l`, which moves up into the place of `node`. */
  lemma RotArenaUp(n0: Arena, parent: Ptr, pd: Dir, node: nat, l: nat, d: Dir)
    requires node in n0 && l in n0 && node != l
    requires var b := n0[l].Child(Opp(d));
             b.Ref? ==> b.id in n0 && b.id != node && b.id != l
    requires parent.Ref? ==> parent.id in n0 && parent.id != node && parent.id != l
    ensures RotArena(n0, parent, pd, node, l, d)[l] ==
              n0[l].WithChild(Opp(d), Ref(node)).(parent := parent,
                side := if parent.Ref? then SideOf(pd) else n0[l].side)
  {
    var n1 := RotStep1(n0, parent, pd, l);
    var n2 := LinkChild(n1, node, d, n1[l].Child(Opp(d)));
    assert n2[l] == n1[l];
  }

  /** The record of `node`, which moves down below `l`. */
  lemma RotArenaDown(n0: Arena, parent: Ptr, pd: Dir, node: nat, l: nat, d: Dir)
    requires node in n0 && l in n0 && node != l
    requires var b := n0[l].Child(Opp(d));
             b.Ref? ==> b.id in n0 && b.id != node && b.id != l
    requires parent.Ref? ==> parent.id in n0 && parent.id != node && parent.id != l
    ensures RotArena(n0, parent, pd, node, l, d)[node] ==
              n0[node].WithChild(d, n0[l].Child(Opp(d))).(parent := Ref(l), side := SideOf(Opp(d)))
  {
    var n1 := RotStep1(n0, parent, pd, l);
    var n2 := LinkChild(n1, node, d, n1[l].Child(Opp(d)));
    assert n2[node] == n1[node].WithChild(d, n0[l].Child(Opp(d)));
  }

  /** The record of the inner subtree's root, which changes parent. */
  lemma RotArenaInner(n0: Arena, parent: Ptr, pd: Dir, node: nat, l: nat, d: Dir)
    requires node in n0 && l in n0 && node != l
    requires var b := n0[l].Child(Opp(d));
             b.Ref? ==> b.id in n0 && b.id != node && b.id != l
    requires parent.Ref? ==> parent.id in n0 && parent.id != node && parent.id != l
    requires parent.Ref? && n0[l].Child(Opp(d)).Ref? ==> parent.id != n0[l].Child(Opp(d)).id
    ensures var n3 := RotArena(n0, parent, pd, node, l, d);
            var b := n0[l].Child(Opp(d));
            && n3.Keys == n0.Keys
            && (b.Ref? ==> n3[b.id] == n0[b.id].(parent := Ref(node), side := SideOf(d)))
  {
  }

  /** The record of the parent, which takes `l` in the slot of `node`, and
      every other record, which stays. */
  lemma RotArenaRest(n0: Arena, parent: Ptr, pd: Dir, node: nat, l: nat, d: Dir)
    requires node in n0 && l in n0 && node != l
    requires var b := n0[l].Child(Opp(d));
             b.Ref? ==> b.id in n0 && b.id != node && b.id != l
    requires parent.Ref? ==> parent.id in n0 && parent.id != node && parent.id != l
    requires parent.Ref? && n0[l].Child(Opp(d)).Ref? ==> parent.id != n0[l].Child(Opp(d)).id
    ensures var n3 := RotArena(n0, parent, pd, node, l, d);
            var b := n0[l].Child(Opp(d));
            && (parent.Ref? ==> n3[parent.id] == n0[parent.id].WithChild(pd, Ref(l)))
            && (forall i | i in n0 && i != node && i != l && (b.Ref? ==> i != b.id) &&
                           (parent.Ref? ==> i != parent.id) :: n3[i] == n0[i])
  {
  }

  function RotStep1(n0: Arena, parent: Ptr, pd: Dir, l: nat): (n1: Arena)
    requires l in n0 && (parent.Ref? ==> parent.id in n0 && parent.id != l)
    ensures n1.Keys == n0.Keys
    ensures n1[l] == n0[l].(parent := parent, side := if parent.Ref? then SideOf(pd) else n0[l].side)
    ensures parent.Ref? ==> n1[parent.id] == n0[parent.id].WithChild(pd, Ref(l))
    ensures forall i | i in n0 && i != l && (parent.Ref? ==> i != parent.id) :: n1[i] == n0[i]
  {
    if parent.Ref? then LinkChild(n0, parent.id, pd, Ref(l)) else n0[l := n0[l].(parent := Null)]
  }

  /** The record of `MkNode(.., d, x, y)`, with the children put back on
      their sides. */
  lemma RecOfMk(id: nat, c: Color, k: int, v: string, d: Dir, x: Tree, y: Tree, p: Ptr, s: Side)
    ensures RecOf(MkNode(id, c, k, v, d, x, y), p, s) ==
            NodeRec(k, v, if d == Left then RootPtr(x) else RootPtr(y),
                    if d == Left then RootPtr(y) else RootPtr(x), p, s, c)
  {
  }

  lemma RepMk(nodes: Arena, id: nat, c: Color, k: int, v: string, d: Dir, x: Tree, y: Tree, p: Ptr, s: Side)
    ensures Rep(nodes, MkNode(id, c, k, v, d, x, y), p, s) <==>
              id in nodes && nodes[id] == RecOf(MkNode(id, c, k, v, d, x, y), p, s) &&
              Rep(nodes, x, Ref(id), SideOf(d)) && Rep(nodes, y, Ref(id), SideOf(Opp(d)))
  {
  }

  lemma UniqueMk(id: nat, c: Color, k: int, v: string, d: Dir, x: Tree, y: Tree)
    ensures Unique(MkNode(id, c, k, v, d, x, y)) <==>
              Unique(x) && Unique(y) && Ids(x) !! Ids(y) && id !in Ids(x) && id !in Ids(y)
    ensures Ids(MkNode(id, c, k, v, d, x, y)) == Ids(x) + Ids(y) + {id}
  {
  }

  /** `b`, the inner subtree of the child on side `d`. */
  function Inner(t: Tree, d: Dir): Tree
    requires t.Node? && Child(t, d).Node?
  {
    Child(Child(t, d), Opp(d))
  }

  /** The slots of the rotated part: the pivot, its child and the root of
      the inner subtree. */
  function Moved(t: Tree, d: Dir): set<nat>
    requires t.Node? && Child(t, d).Node?
  {
    {t.id, Child(t, d).id} + (if Inner(t, d).Node? then {Inner(t, d).id} else {})
  }

  /** Everything a rotation at `t` reads from a represented tree. */
  lemma RotFacts(n0: Arena, ctx: Ctx, t: Tree, d: Dir, rs: Side)
    requires Rep(n0, Plug(ctx, t), Null, rs) && Unique(Plug(ctx, t))
    requires t.Node? && Child(t, d).Node?
    ensures RepCtx(n0, ctx, RootPtr(t), rs) && CtxUnique(ctx)
    ensures Rep(n0, t, HoleParent(ctx), HoleSide(ctx, rs)) && Unique(t)
    ensures CtxIds(ctx) !! Ids(t) && CtxIds(ctx) <= n0.Keys && Ids(t) <= n0.Keys
    ensures Moved(t, d) <= Ids(t) && t.id != Child(t, d).id
    ensures Inner(t, d).Node? ==> Inner(t, d).id != t.id && Inner(t, d).id != Child(t, d).id
    ensures n0[t.id] == RecOf(t, HoleParent(ctx), HoleSide(ctx, rs))
    ensures n0[Child(t, d).id] == RecOf(Child(t, d), Ref(t.id), SideOf(d))
    ensures n0[t.id].Child(d) == Ref(Child(t, d).id)
    ensures n0[Child(t, d).id].Child(Opp(d)) == RootPtr(Inner(t, d))
    ensures ctx.Hole? ==> ctx.id in CtxIds(ctx) && ctx.id in n0
  {
    PlugRep(n0, ctx, t, rs);
    PlugUnique(ctx, t);
    RepIds(n0, t, HoleParent(ctx), HoleSide(ctx, rs));
    RepCtxIds(n0, ctx, RootPtr(t), rs);
    var c := Child(t, d);
    RepMk(n0, t.id, t.color, t.key, t.value, d, c, Child(t, Opp(d)), HoleParent(ctx), HoleSide(ctx, rs));
    assert t == MkNode(t.id, t.color, t.key, t.value, d, c, Child(t, Opp(d)));
    UniqueMk(t.id, t.color, t.key, t.value, d, c, Child(t, Opp(d)));
    assert c == MkNode(c.id, c.color, c.key, c.value, d, Child(c, d), Inner(t, d));
    UniqueMk(c.id, c.color, c.key, c.value, d, Child(c, d), Inner(t, d));
    RecOfMk(t.id, t.color, t.key, t.value, d, c, Child(t, Opp(d)), HoleParent(ctx), HoleSide(ctx, rs));
    RecOfMk(c.id, c.color, c.key, c.value, d, Child(c, d), Inner(t, d), Ref(t.id), SideOf(d));
  }

  /** The rotated subtree is represented once the three moved slots hold
      their new records and the rest of the subtree is untouched. */
  lemma RotSubPart(n0: Arena, n3: Arena, t: Tree, d: Dir, p: Ptr, s: Side, p': Ptr, s': Side)
    requires t.Node? && Child(t, d).Node?
    requires Rep(n0, t, p, s) && Unique(t)
    requires Child(t, d).id in n3 && n3[Child(t, d).id] == RecOf(Rot(t, d), p', s')
    requires t.id in n3 &&
             n3[t.id] == RecOf(MkNode(t.id, t.color, t.key, t.value, d, Inner(t, d), Child(t, Opp(d))),
                               Ref(Child(t, d).id), SideOf(Opp(d)))
    requires Inner(t, d).Node? ==>
               (Inner(t, d).id in n0 && Inner(t, d).id in n3 &&
                n3[Inner(t, d).id] == n0[Inner(t, d).id].(parent := Ref(t.id), side := SideOf(d)))
    requires Agree(n0, n3, Ids(t) - Moved(t, d))
    ensures Rep(n3, Rot(t, d), p', s')
  {
    var c := Child(t, d);
    var a, b, e := Child(c, d), Inner(t, d), Child(t, Opp(d));
    assert t == MkNode(t.id, t.color, t.key, t.value, d, c, e);
    assert c == MkNode(c.id, c.color, c.key, c.value, d, a, b);
    RepMk(n0, t.id, t.color, t.key, t.value, d, c, e, p, s);
    RepMk(n0, c.id, c.color, c.key, c.value, d, a, b, Ref(t.id), SideOf(d));
    UniqueMk(t.id, t.color, t.key, t.value, d, c, e);
    UniqueMk(c.id, c.color, c.key, c.value, d, a, b);
    assert Ids(a) <= Ids(t) - Moved(t, d);
    assert Ids(e) <= Ids(t) - Moved(t, d);
    assert Ids(b) - (if b.Node? then {b.id} else {}) <= Ids(t) - Moved(t, d);
    RepFrame(n0, n3, a, Ref(c.id), SideOf(d));
    RepFrame(n0, n3, e, Ref(t.id), SideOf(Opp(d)));
    Reparent(n0, n3, b, Ref(c.id), SideOf(Opp(d)), Ref(t.id), SideOf(d));
    var inner := MkNode(t.id, t.color, t.key, t.value, d, b, e);
    RepMk(n3, t.id, t.color, t.key, t.value, d, b, e, Ref(c.id), SideOf(Opp(d)));
    assert Rot(t, d) == MkNode(c.id, c.color, c.key, c.value, d, a, inner);
    RepMk(n3, c.id, c.color, c.key, c.value, d, a, inner, p', s');
  }

  /** The new records of the pivot and of its child agree with the rotated
      tree. */
  lemma RotNewRecs(n0: Arena, n3: Arena, t: Tree, d: Dir, p: Ptr, s: Side, s': Side)
    requires t.Node? && Child(t, d).Node?
    requires t.id in n0 && Child(t, d).id in n0 && t.id in n3 && Child(t, d).id in n3
    requires n0[t.id] == RecOf(t, p, s)
    requires n0[Child(t, d).id] == RecOf(Child(t, d), Ref(t.id), SideOf(d))
    requires n3[Child(t, d).id] ==
               n0[Child(t, d).id].WithChild(Opp(d), Ref(t.id)).(parent := p, side := s')
    requires n3[t.id] ==
               n0[t.id].WithChild(d, RootPtr(Inner(t, d))).(parent := Ref(Child(t, d).id), side := SideOf(Opp(d)))
    ensures n3[Child(t, d).id] == RecOf(Rot(t, d), p, s')
    ensures n3[t.id] == RecOf(MkNode(t.id, t.color, t.key, t.value, d, Inner(t, d), Child(t, Opp(d))),
                              Ref(Child(t, d).id), SideOf(Opp(d)))
  {
    if d == Left { } else { }
  }

  /** The slots a rotation at `t` (towards `d`) reads are allocated and
      distinct where `RotArena` needs them to be. */
  ghost predicate RotReady(n0: Arena, ctx: Ctx, t: Tree, d: Dir)
    requires t.Node? && Child(t, d).Node?
  {
    && t.id in n0 && Child(t, d).id in n0 && t.id != Child(t, d).id
    && (HoleParent(ctx).Ref? ==> HoleParent(ctx).id in n0 && HoleParent(ctx).id != Child(t, d).id)
    && (n0[Child(t, d).id].Child(Opp(d)).Ref? ==> n0[Child(t, d).id].Child(Opp(d)).id in n0)
  }

  /** The arena after a rotation at `t`, the child of the parent slot
      given by the side flag of `t`. */
  ghost function RotatedArena(n0: Arena, ctx: Ctx, t: Tree, d: Dir): Arena
    requires t.Node? && Child(t, d).Node? && RotReady(n0, ctx, t, d)
  {
    var pd := if n0[t.id].side == LeftSide then Left else Right;
    RotArena(n0, HoleParent(ctx), pd, t.id, Child(t, d).id, d)
  }

  /** On the arena the two rotations do what `Rot` does to the tree; at the
      root the promoted child keeps its old side flag. */
  lemma RotateRep(n0: Arena, ctx: Ctx, t: Tree, d: Dir, rs: Side)
    requires Rep(n0, Plug(ctx, t), Null, rs) && Unique(Plug(ctx, t))
    requires t.Node? && Child(t, d).Node?
    ensures RotReady(n0, ctx, t, d)
    ensures n0[t.id].parent == HoleParent(ctx) && n0[t.id].Child(d) == Ref(Child(t, d).id)
    ensures ctx.Hole? ==> n0[t.id].side == SideOf(ctx.d)
    ensures n0[Child(t, d).id].Child(Opp(d)) == RootPtr(Inner(t, d))
    ensures Rep(RotatedArena(n0, ctx, t, d), Plug(ctx, Rot(t, d)), Null, if ctx.Top? then SideOf(d) else rs)
  {
    RotFacts(n0, ctx, t, d, rs);
    var rs' := if ctx.Top? then SideOf(d) else rs;
    RotCtxSide(n0, ctx, t, d, rs);
    RotTreeSide(n0, ctx, t, d, rs);
    PlugRep(RotatedArena(n0, ctx, t, d), ctx, Rot(t, d), rs');
  }

  /** Above the pivot, only the parent's link changes: the context is still
      represented, now around the promoted child. */
  lemma RotCtxSide(n0: Arena, ctx: Ctx, t: Tree, d: Dir, rs: Side)
    requires Rep(n0, Plug(ctx, t), Null, rs) && Unique(Plug(ctx, t))
    requires t.Node? && Child(t, d).Node? && RotReady(n0, ctx, t, d)
    ensures RepCtx(RotatedArena(n0, ctx, t, d), ctx, Ref(Child(t, d).id), if ctx.Top? then SideOf(d) else rs)
  {
    RotFacts(n0, ctx, t, d, rs);
    var c := Child(t, d);
    var pd := if n0[t.id].side == LeftSide then Left else Right;
    assert ctx.Hole? ==> pd == ctx.d;
    RotArenaSlots(n0, HoleParent(ctx), pd, t.id, c.id, d);
    var n3 := RotatedArena(n0, ctx, t, d);
    var ctxSlot := if ctx.Hole? then {ctx.id} else {};
    assert Agree(n0, n3, CtxIds(ctx) - ctxSlot);
    CtxRelink(n0, n3, ctx, Ref(t.id), Ref(c.id), rs);
  }

  /** The rotated subtree is represented below the old parent slot. */
  lemma RotTreeSide(n0: Arena, ctx: Ctx, t: Tree, d: Dir, rs: Side)
    requires Rep(n0, Plug(ctx, t), Null, rs) && Unique(Plug(ctx, t))
    requires t.Node? && Child(t, d).Node? && RotReady(n0, ctx, t, d)
    ensures Rep(RotatedArena(n0, ctx, t, d), Rot(t, d), HoleParent(ctx),
                HoleSide(ctx, if ctx.Top? then SideOf(d) else rs))
  {
    RotFacts(n0, ctx, t, d, rs);
    var c := Child(t, d);
    var hp, hs := HoleParent(ctx), HoleSide(ctx, rs);
    var hs' := HoleSide(ctx, if ctx.Top? then SideOf(d) else rs);
    var pd := if n0[t.id].side == LeftSide then Left else Right;
    RotArenaSlots(n0, hp, pd, t.id, c.id, d);
    var n3 := RotatedArena(n0, ctx, t, d);
    assert Agree(n0, n3, Ids(t) - Moved(t, d));
    RotNewRecs(n0, n3, t, d, hp, hs, hs');
    RotSubPart(n0, n3, t, d, hp, hs, hp, hs');
  }

  /** A rotation inside a tree keeps its nodes, their uniqueness, its order
      and its map, and the root slot unless the pivot was the root. */
  lemma RotatedPlug(ctx: Ctx, t: Tree, d: Dir, rs: Side)
    requires t.Node? && Child(t, d).Node?
    ensures Unique(Plug(ctx, t)) ==> Unique(Plug(ctx, Rot(t, d)))
    ensures Bst(Plug(ctx, t)) ==>
              Bst(Plug(ctx, Rot(t, d))) && Content(Plug(ctx, Rot(t, d))) == Content(Plug(ctx, t))
    ensures RootPtr(Plug(ctx, Rot(t, d))) ==
              if ctx.Top? then Ref(Child(t, d).id) else RootPtr(Plug(ctx, t))
  {
    RotSame(t, d);
    PlugUnique(ctx, t);
    PlugUnique(ctx, Rot(t, d));
    PlugBst(ctx, t);
    PlugBst(ctx, Rot(t, d));
    if Bst(t) {
      PlugContentSame(ctx, t, Rot(t, d));
    }
    if ctx.Hole? {
      PlugTop(ctx, t, Rot(t, d));
    }
  }
}
