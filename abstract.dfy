/** The abstract view of a red-black tree: a tree value whose nodes carry the
    slot id, colour, key and value of the node objects they stand for, a
    zipper (`Ctx`) that names a position inside such a tree, and the
    invariants of the structure. */
module Abstract {
  import opened Nodes

  datatype Tree =
    | Nil
    | Node(id: nat, color: Color, key: int, value: string, left: Tree, right: Tree)

  function RootPtr(t: Tree): Ptr {
    if t.Nil? then Null else Ref(t.id)
  }

  function Child(t: Tree, d: Dir): Tree
    requires t.Node?
  {
    if d == Left then t.left else t.right
  }

  /** A node whose child on side `d` is `a` and whose other child is `b`. */
  function MkNode(id: nat, c: Color, k: int, v: string, d: Dir, a: Tree, b: Tree): (t: Tree)
    ensures t.Node? && t.id == id && t.color == c && t.key == k && t.value == v
    ensures Child(t, d) == a && Child(t, Opp(d)) == b
  {
    if d == Left then Node(id, c, k, v, a, b) else Node(id, c, k, v, b, a)
  }

  predicate IsRed(t: Tree) {
    t.Node? && t.color == Red
  }

  /** One position in a tree: the hole lies on side `d` of the node described
      by the other fields, `sib` is that node's other child, and `up` is the
      position of that node. */
  datatype Ctx =
    | Top
    | Hole(d: Dir, id: nat, color: Color, key: int, value: string, sib: Tree, up: Ctx)

  function Plug(ctx: Ctx, t: Tree): Tree
    decreases ctx
  {
    match ctx
    case Top => t
    case Hole(d, id, c, k, v, sib, up) => Plug(up, MkNode(id, c, k, v, d, t, sib))
  }

  function Depth(ctx: Ctx): nat {
    if ctx.Top? then 0 else 1 + Depth(ctx.up)
  }

  /** The node whose child slot is the hole, if any. */
  function HoleParent(ctx: Ctx): Ptr {
    if ctx.Top? then Null else Ref(ctx.id)
  }

  /** The side flag the subtree in the hole carries; at the root it is the
      flag `rs` left over from earlier operations. */
  function HoleSide(ctx: Ctx, rs: Side): Side {
    if ctx.Top? then rs else SideOf(ctx.d)
  }

  // ---------------------------------------------------------------- ids

  function Ids(t: Tree): set<nat> {
    if t.Nil? then {} else Ids(t.left) + Ids(t.right) + {t.id}
  }

  function CtxIds(ctx: Ctx): set<nat> {
    if ctx.Top? then {} else CtxIds(ctx.up) + Ids(ctx.sib) + {ctx.id}
  }

  /** No slot is used twice. */
  ghost predicate Unique(t: Tree) {
    t.Node? ==>
      Unique(t.left) && Unique(t.right) && Ids(t.left) !! Ids(t.right) &&
      t.id !in Ids(t.left) && t.id !in Ids(t.right)
  }

  ghost predicate CtxUnique(ctx: Ctx) {
    ctx.Hole? ==>
      CtxUnique(ctx.up) && Unique(ctx.sib) && CtxIds(ctx.up) !! Ids(ctx.sib) &&
      ctx.id !in CtxIds(ctx.up) && ctx.id !in Ids(ctx.sib)
  }

  // ---------------------------------------------------------------- contents

  function Keys(t: Tree): set<int> {
    if t.Nil? then {} else Keys(t.left) + Keys(t.right) + {t.key}
  }

  function CtxKeys(ctx: Ctx): set<int> {
    if ctx.Top? then {} else CtxKeys(ctx.up) + Keys(ctx.sib) + {ctx.key}
  }

  /** The key-to-value map the tree stands for. */
  function Content(t: Tree): map<int, string> {
    if t.Nil? then map[] else (Content(t.left) + Content(t.right))[t.key := t.value]
  }

  // ---------------------------------------------------------------- order

  ghost predicate Below(s: set<int>, k: int) {
    forall x | x in s :: x < k
  }

  ghost predicate Above(s: set<int>, k: int) {
    forall x | x in s :: k < x
  }

  /** All of `s` lies on side `d` of key `k`. */
  ghost predicate OnSide(d: Dir, s: set<int>, k: int) {
    if d == Left then Below(s, k) else Above(s, k)
  }

  /** Binary-search-tree order. */
  ghost predicate Bst(t: Tree) {
    t.Node? ==>
      Bst(t.left) && Bst(t.right) && Below(Keys(t.left), t.key) && Above(Keys(t.right), t.key)
  }

  /** The context is ordered when a subtree with the keys `s` fills its hole. */
  ghost predicate CtxBst(ctx: Ctx, s: set<int>) {
    ctx.Hole? ==>
      Bst(ctx.sib) && OnSide(ctx.d, s, ctx.key) && OnSide(Opp(ctx.d), Keys(ctx.sib), ctx.key) &&
      CtxBst(ctx.up, s + Keys(ctx.sib) + {ctx.key})
  }

  // ---------------------------------------------------------------- colours

  function BlackCount(c: Color): nat {
    if c == Black then 1 else 0
  }

  /** Black nodes on the leftmost path (the null leaf itself not counted). */
  function BH(t: Tree): nat {
    if t.Nil? then 0 else BH(t.left) + BlackCount(t.color)
  }

  /** Every path to a null leaf passes the same number of black nodes. */
  ghost predicate Balanced(t: Tree) {
    t.Node? ==> Balanced(t.left) && Balanced(t.right) && BH(t.left) == BH(t.right)
  }

  /** The context is balanced when a balanced subtree of black height `n`
      fills its hole. */
  ghost predicate CtxBH(ctx: Ctx, n: nat) {
    ctx.Hole? ==>
      Balanced(ctx.sib) && BH(ctx.sib) == n && CtxBH(ctx.up, n + BlackCount(ctx.color))
  }

  /** No red node has a red child. */
  ghost predicate NoRedRed(t: Tree) {
    t.Node? ==>
      NoRedRed(t.left) && NoRedRed(t.right) &&
      (t.color == Red ==> !IsRed(t.left) && !IsRed(t.right))
  }

  /** The context has no red node with a red child when the subtree in its
      hole has no such node and its root is red exactly when `holeRed`. */
  ghost predicate CtxRed(ctx: Ctx, holeRed: bool) {
    ctx.Hole? ==>
      NoRedRed(ctx.sib) &&
      (ctx.color == Red ==> !holeRed && !IsRed(ctx.sib)) &&
      CtxRed(ctx.up, ctx.color == Red)
  }

  ghost predicate RootBlack(t: Tree) {
    t.Node? ==> t.color == Black
  }

  /** The colour conditions of a red-black tree (the order is kept apart). */
  ghost predicate Colored(t: Tree) {
    NoRedRed(t) && Balanced(t) && RootBlack(t)
  }

  /** The four colour and order invariants of a red-black tree. */
  ghost predicate RedBlack(t: Tree) {
    Bst(t) && NoRedRed(t) && Balanced(t) && RootBlack(t)
  }

  // ---------------------------------------------------------------- shape

  /** The two trees differ at most in the values their nodes hold. */
  ghost predicate SameShape(a: Tree, b: Tree) {
    (a.Nil? && b.Nil?) ||
    (a.Node? && b.Node? && a.id == b.id && a.color == b.color && a.key == b.key &&
     SameShape(a.left, b.left) && SameShape(a.right, b.right))
  }

  /** The two trees have the same form and colours; ids, keys and values
      may differ. */
  ghost predicate SameColors(a: Tree, b: Tree) {
    (a.Nil? && b.Nil?) ||
    (a.Node? && b.Node? && a.color == b.color &&
     SameColors(a.left, b.left) && SameColors(a.right, b.right))
  }
}
