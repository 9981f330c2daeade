/** Model of RedBlackTree.java: the tree object with its `root` link, the
    substitute policy of `remove`, and its operations. The node objects are
    the slots of the arena `h`; the ghost tree `T` is the tree they form. */
module Trees {
  import opened Nodes
  import opened Abstract
  import opened Zipper
  import opened Representation
  import opened Rotation
  import opened InsertFix
  import opened DeleteFix
  import opened Removal
  import opened Decimal
  import opened Printing

  datatype Option<V> = None | Some(value: V)

  /** The rotation codes returned by `findRotationType`. */
  const LLRotate: int := 0
  const RRRotate: int := 1
  const LRRotate: int := 2
  const RLRotate: int := 3

  /** The code `findRotationType` returns for a child on side `c` of a
      parent on side `p`. */
  function RotationType(c: Dir, p: Dir): int {
    match (c, p)
    case (Left, Left) => LLRotate
    case (Left, Right) => RLRotate
    case (Right, Left) => LRRotate
    case (Right, Right) => RRRotate
  }

  class RedBlackTree {
    const h: NodeHeap
    var root: Ptr
    var chooseSubstituteInLeftSubtreeForDelete: bool
    /** The tree formed by the nodes reachable from `root`. */
    ghost var T: Tree
    /** The side flag of the root node, which no operation resets when a
        rotation moves a node up to the root. */
    ghost var rootSide: Side

    /** The arena holds `T`, with consistent child, parent and side links. */
    ghost predicate Linked()
      reads this, h
    {
      h.Valid() && root == RootPtr(T) && Rep(h.nodes, T, Null, rootSide) && Unique(T)
    }

    /** A well-formed red-black tree. */
    ghost predicate Valid()
      reads this, h
    {
      Linked() && RedBlack(T)
    }

    /** The key-to-value map the tree stands for. */
    ghost function Entries(): map<int, string>
      reads this
    {
      Content(T)
    }

    constructor ()
      ensures Valid() && T == Nil && Entries() == map[]
      ensures chooseSubstituteInLeftSubtreeForDelete
    {
      h := new NodeHeap();
      root := Null;
      chooseSubstituteInLeftSubtreeForDelete := true;
      T := Nil;
      rootSide := NoSide;
    }

    /** What the queries of a node say about node `t.id`, the root of
        subtree `t` at position `ctx`: its colour, its children, the side it
        hangs on below a parent (the root's flag is stale and not read), and
        whether it has a sibling. */
    lemma NodeQueries(ctx: Ctx, t: Tree)
      requires Linked() && T == Plug(ctx, t) && t.Node?
      ensures t.id in h.nodes && h.GetColor(t.id) == t.color
      ensures (h.IsRed(t.id) <==> t.color == Red) && (h.IsBlack(t.id) <==> t.color == Black)
      ensures h.IsLeaf(t.id) <==> t.left.Nil? && t.right.Nil?
      ensures (h.HasLeftChild(t.id) <==> t.left.Node?) && (h.HasRightChild(t.id) <==> t.right.Node?)
      ensures ctx.Hole? ==> (h.IsLeftChild(t.id) <==> ctx.d == Left) && (h.IsRightChild(t.id) <==> ctx.d == Right)
      ensures h.nodes[t.id].parent.Ref? ==> h.nodes[t.id].parent.id in h.nodes
      ensures h.HasSibling(t.id) <==> ctx.Hole? && ctx.sib.Node?
    {
      Around(h.nodes, ctx, t, rootSide);
    }

    /** Gives node `n`, the root of subtree `t` at position `ctx`, colour `c`
        (`setRedColor`, `setBlackColor` and `setColor` of the node). */
    method Paint(n: nat, c: Color, ghost ctx: Ctx, ghost t: Tree)
      requires Linked() && T == Plug(ctx, t) && t.Node? && t.id == n
      modifies this, h
      ensures Linked() && T == Plug(ctx, t.(color := c))
      ensures root == old(root) && rootSide == old(rootSide)
      ensures chooseSubstituteInLeftSubtreeForDelete == old(chooseSubstituteInLeftSubtreeForDelete)
      ensures Entries() == old(Entries()) && Bst(T) == Bst(old(T))
    {
      var t' := t.(color := c);
      PlugBst(ctx, t);
      PlugBst(ctx, t');
      RepRecord(h.nodes, ctx, t, t', rootSide);
      if c == Red {
        h.SetRedColor(n);
      } else {
        h.SetBlackColor(n);
      }
      T := Plug(ctx, t');
      if ctx.Hole? {
        PlugTop(ctx, t, t');
      }
      PlugContentSame(ctx, t, t');
    }

    /** `findNode`: the binary-search descent from the root. */
    method FindNode(key: int) returns (n: Ptr, ghost ctx: Ctx, ghost sub: Tree)
      requires Linked() && Bst(T)
      ensures T == Plug(ctx, sub) && n == RootPtr(sub)
      ensures sub.Node? ==> sub.key == key
      ensures sub.Nil? <==> key !in Keys(T)
    {
      if root == Null {
        return Null, Top, Nil;
      }
      var current := root;
      ctx, sub := Top, T;
      while current != Null
        invariant T == Plug(ctx, sub) && current == RootPtr(sub)
        invariant key in Keys(T) <==> key in Keys(sub)
        invariant Rep(h.nodes, sub, HoleParent(ctx), HoleSide(ctx, rootSide)) && Bst(sub)
        decreases sub
      {
        var k := h.nodes[current.id].key;
        if key > k {
          current := h.nodes[current.id].right;
          ctx, sub := Hole(Right, sub.id, sub.color, sub.key, sub.value, sub.left, ctx), sub.right;
        } else if key < k {
          current := h.nodes[current.id].left;
          ctx, sub := Hole(Left, sub.id, sub.color, sub.key, sub.value, sub.right, ctx), sub.left;
        } else {
          break;
        }
      }
      n := current;
    }

    /** `find`: the value stored under `key`, if any. */
    method Find(key: int) returns (r: Option<string>)
      requires Valid()
      ensures r == (if key in Entries() then Some(Entries()[key]) else None)
    {
      var n, ctx, sub := FindNode(key);
      ContentKeys(T);
      if n != Null {
        PlugContentAt(ctx, sub);
        PlugRep(h.nodes, ctx, sub, rootSide);
        r := Some(h.nodes[n.id].value);
      } else {
        r := None;
      }
    }

    /** `findMin(start)`: follows left links from `start`, the root of
        subtree `sub` at position `ctx`, to a node without a left child.
        `path` is the way down from `start` to that node. */
    method FindMin(start: Ptr, ghost ctx: Ctx, ghost sub: Tree) returns (m: Ptr, ghost path: Ctx, ghost low: Tree)
      requires Linked() && T == Plug(ctx, sub) && start == RootPtr(sub)
      ensures sub.Nil? ==> m == Null
      ensures sub.Node? ==> low.Node? && low.left.Nil? && m == Ref(low.id)
      ensures sub.Node? ==> sub == Plug(path, low) && AllOn(path, Left)
      ensures sub.Node? && Bst(sub) ==>
                low.key in Keys(sub) && forall k | k in Keys(sub) :: low.key <= k
    {
      if start == Null {
        return Null, Top, Nil;
      }
      PlugRep(h.nodes, ctx, sub, rootSide);
      var cur := start;
      path, low := Top, sub;
      ghost var lp, ls := HoleParent(ctx), HoleSide(ctx, rootSide);
      while h.nodes[cur.id].left != Null
        invariant low.Node? && cur == Ref(low.id) && sub == Plug(path, low) && AllOn(path, Left)
        invariant Rep(h.nodes, low, lp, ls)
        decreases low
      {
        cur := h.nodes[cur.id].left;
        path, low := Hole(Left, low.id, low.color, low.key, low.value, low.right, path), low.left;
        lp, ls := Ref(path.id), LeftSide;
      }
      m := cur;
      if Bst(sub) {
        ExtremeKey(path, low, Left);
      }
    }

    /** `findMax(start)`, the mirror image of `findMin`. */
    method FindMax(start: Ptr, ghost ctx: Ctx, ghost sub: Tree) returns (m: Ptr, ghost path: Ctx, ghost high: Tree)
      requires Linked() && T == Plug(ctx, sub) && start == RootPtr(sub)
      ensures sub.Nil? ==> m == Null
      ensures sub.Node? ==> high.Node? && high.right.Nil? && m == Ref(high.id)
      ensures sub.Node? ==> sub == Plug(path, high) && AllOn(path, Right)
      ensures sub.Node? && Bst(sub) ==>
                high.key in Keys(sub) && forall k | k in Keys(sub) :: k <= high.key
    {
      if start == Null {
        return Null, Top, Nil;
      }
      PlugRep(h.nodes, ctx, sub, rootSide);
      var cur := start;
      path, high := Top, sub;
      ghost var lp, ls := HoleParent(ctx), HoleSide(ctx, rootSide);
      while h.nodes[cur.id].right != Null
        invariant high.Node? && cur == Ref(high.id) && sub == Plug(path, high) && AllOn(path, Right)
        invariant Rep(h.nodes, high, lp, ls)
        decreases high
      {
        cur := h.nodes[cur.id].right;
        path, high := Hole(Right, high.id, high.color, high.key, high.value, high.left, path), high.right;
        lp, ls := Ref(path.id), RightSide;
      }
      m := cur;
      if Bst(sub) {
        ExtremeKey(path, high, Right);
      }
    }

    /** `rotateWithLeftChild(node)`: the left child of `node`, the root of
        `t` at position `ctx`, takes its place in the parent (or in `root`). */
    method RotateWithLeftChild(node: nat, ghost ctx: Ctx, ghost t: Tree)
      requires Linked() && T == Plug(ctx, t) && t.Node? && t.id == node && t.left.Node?
      modifies this, h
      ensures Linked() && T == Plug(ctx, Rot(t, Left))
      ensures rootSide == if ctx.Top? then LeftSide else old(rootSide)
      ensures chooseSubstituteInLeftSubtreeForDelete == old(chooseSubstituteInLeftSubtreeForDelete)
      ensures Bst(old(T)) ==> Bst(T) && Entries() == old(Entries())
    {
      var left, parent := RelinkLeftRotation(node, ctx, t, rootSide);
      if parent == Null {
        root := left;
      }
      RotatedPlug(ctx, t, Left, rootSide);
      T := Plug(ctx, Rot(t, Left));
      rootSide := if ctx.Top? then LeftSide else rootSide;
    }

    /** The arena steps of `rotateWithLeftChild(node)`: the parent of `node`
        (if any) takes the left child `left` of `node`, `node` takes the inner
        subtree of `left`, and `left` takes `node`. */
    method RelinkLeftRotation(node: nat, ghost ctx: Ctx, ghost t: Tree, ghost rs: Side) returns (left: Ptr, parent: Ptr)
      requires h.Valid() && Rep(h.nodes, Plug(ctx, t), Null, rs) && Unique(Plug(ctx, t))
      requires t.Node? && t.id == node && Child(t, Left).Node?
      modifies h
      ensures left == Ref(Child(t, Left).id) && parent == HoleParent(ctx) && h.Valid()
      ensures Rep(h.nodes, Plug(ctx, Rot(t, Left)), Null, if ctx.Top? then SideOf(Left) else rs)
    {
      RotateRep(h.nodes, ctx, t, Left, rs);
      left := h.nodes[node].left;
      parent := h.nodes[node].parent;
      if parent != Null {
        if h.IsLeftChild(node) {
          h.SetLeftChild(parent.id, left);
        } else {
          h.SetRightChild(parent.id, left);
        }
      } else {
        h.SetParent(left.id, Null);
      }
      h.SetLeftChild(node, h.nodes[left.id].right);
      h.SetRightChild(left.id, Ref(node));
    }

    /** `rotateWithRightChild(node)`, the mirror image. */
    method RotateWithRightChild(node: nat, ghost ctx: Ctx, ghost t: Tree)
      requires Linked() && T == Plug(ctx, t) && t.Node? && t.id == node && t.right.Node?
      modifies this, h
      ensures Linked() && T == Plug(ctx, Rot(t, Right))
      ensures rootSide == if ctx.Top? then RightSide else old(rootSide)
      ensures chooseSubstituteInLeftSubtreeForDelete == old(chooseSubstituteInLeftSubtreeForDelete)
      ensures Bst(old(T)) ==> Bst(T) && Entries() == old(Entries())
    {
      var right, parent := RelinkRightRotation(node, ctx, t, rootSide);
      if parent == Null {
        root := right;
      }
      RotatedPlug(ctx, t, Right, rootSide);
      T := Plug(ctx, Rot(t, Right));
      rootSide := if ctx.Top? then RightSide else rootSide;
    }
  
    /** The arena steps of `rotateWithRightChild(node)`: the parent of `node`
        (if any) takes the right child `right` of `node`, `node` takes the inner
        subtree of `right`, and `right` takes `node`. */
    method RelinkRightRotation(node: nat, ghost ctx: Ctx, ghost t: Tree, ghost rs: Side) returns (right: Ptr, parent: Ptr)
      requires h.Valid() && Rep(h.nodes, Plug(ctx, t), Null, rs) && Unique(Plug(ctx, t))
      requires t.Node? && t.id == node && Child(t, Right).Node?
      modifies h
      ensures right == Ref(Child(t, Right).id) && parent == HoleParent(ctx) && h.Valid()
      ensures Rep(h.nodes, Plug(ctx, Rot(t, Right)), Null, if ctx.Top? then SideOf(Right) else rs)
    {
      RotateRep(h.nodes, ctx, t, Right, rs);
      right := h.nodes[node].right;
      parent := h.nodes[node].parent;
      if parent != Null {
        if h.IsLeftChild(node) {
          h.SetLeftChild(parent.id, right);
        } else {
          h.SetRightChild(parent.id, right);
        }
      } else {
        h.SetParent(right.id, Null);
      }
      h.SetRightChild(node, h.nodes[right.id].left);
      h.SetLeftChild(right.id, Ref(node));
    }

    /** `findRotationType(child)`: the code of the side flags of `child` and
        of its parent, or -1 when one of them is unset. */
    function FindRotationType(child: nat): (r: int)
      reads h
      requires child in h.nodes && h.nodes[child].parent.Ref? && h.nodes[child].parent.id in h.nodes
      ensures var cs, ps := h.nodes[child].side, h.nodes[h.nodes[child].parent.id].side;
              (r == LLRotate <==> cs == LeftSide && ps == LeftSide) &&
              (r == RLRotate <==> cs == LeftSide && ps == RightSide) &&
              (r == LRRotate <==> cs == RightSide && ps == LeftSide) &&
              (r == RRRotate <==> cs == RightSide && ps == RightSide) &&
              (r == -1 <==> cs == NoSide || ps == NoSide)
    {
      var p := h.nodes[child].parent.id;
      if h.IsLeftChild(child) && h.IsLeftChild(p) then LLRotate
      else if h.IsLeftChild(child) && h.IsRightChild(p) then RLRotate
      else if h.IsRightChild(child) && h.IsLeftChild(p) then LRRotate
      else if h.IsRightChild(child) && h.IsRightChild(p) then RRRotate
      else -1
    }

    /** `rotateWithType(rotateType, child)`: one rotation at the grandparent
        of `child` (LL, RR) or one at the parent and one at the grandparent
        (LR, RL). */
    method RotateWithType(rotateType: int, child: nat, ghost ctx: Ctx, ghost t: Tree)
      requires Linked() && T == Plug(ctx, t) && t.Node? && t.id == child
      requires ctx.Hole? && ctx.up.Hole? && rotateType == RotationType(ctx.d, ctx.up.d)
      modifies this, h
      ensures Linked() && T == Plug(ctx.up.up, Rotated(ctx, t))
      ensures chooseSubstituteInLeftSubtreeForDelete == old(chooseSubstituteInLeftSubtreeForDelete)
      ensures Bst(old(T)) ==> Bst(T) && Entries() == old(Entries())
    {
      Around(h.nodes, ctx, t, rootSide);
      ghost var g := ctx.up;
      ghost var pt := ParentTree(ctx, t);
      PlugGrand(ctx, t);
      var parent := h.nodes[child].parent;
      var grandParent := h.nodes[parent.id].parent;
      if rotateType == LLRotate {
        RotateWithLeftChild(grandParent.id, g.up, ParentTree(g, pt));
      } else if rotateType == RRRotate {
        RotateWithRightChild(grandParent.id, g.up, ParentTree(g, pt));
      } else if rotateType == LRRotate {
        RotateWithRightChild(parent.id, g, pt);
        RotateWithLeftChild(grandParent.id, g.up, ParentTree(g, Rot(pt, Right)));
      } else if rotateType == RLRotate {
        RotateWithLeftChild(parent.id, g, pt);
        RotateWithRightChild(grandParent.id, g.up, ParentTree(g, Rot(pt, Left)));
      }
    }

    /** `recolorForInsertion(newNode)`: repairs a red node `newNode`, the
        root of `t` at position `ctx`, whose parent may be red. */
    method RecolorForInsertion(newNode: nat, ghost ctx: Ctx, ghost t: Tree)
      requires Linked() && Bst(T) && T == Plug(ctx, t) && t.Node? && t.id == newNode && InsInv(ctx, t)
      modifies this, h
      ensures Valid() && Entries() == old(Entries())
      ensures chooseSubstituteInLeftSubtreeForDelete == old(chooseSubstituteInLeftSubtreeForDelete)
      decreases Depth(ctx)
    {
      var needBottomUpCheck := false;
      PlugNotRoot(ctx, t);
      if Ref(newNode) == root {
        return;
      }
      Around(h.nodes, ctx, t, rootSide);
      var parent := h.nodes[newNode].parent;
      if h.IsBlack(parent.id) {
        InsParentBlack(ctx, t);
        return;
      }
      InsFacts(ctx, t);
      var grandParent := h.nodes[parent.id].parent;
      var uncle := Null;
      if parent != Null {
        uncle := h.GetSibling(parent.id);
      }
      assert uncle == RootPtr(ctx.up.sib);
      if uncle == Null || h.IsBlack(uncle.id) {
        RestructureForInsertion(newNode, parent.id, grandParent.id, ctx, t);
      } else if h.IsRed(uncle.id) {
        needBottomUpCheck := RecolorWithUncle(parent.id, grandParent.id, uncle.id, ctx, t);
      }
      if needBottomUpCheck {
        assert Depth(ctx.up.up) < Depth(ctx.up) < Depth(ctx);
        RecolorForInsertion(grandParent.id, ctx.up.up, Recolored(ctx, t));
      }
    }

    /** The black-uncle branch of `recolorForInsertion`: two or three
        repaintings, then `rotateWithType`. */
    method RestructureForInsertion(newNode: nat, parent: nat, grandParent: nat, ghost ctx: Ctx, ghost t: Tree)
      requires Linked() && Bst(T) && T == Plug(ctx, t) && t.Node? && t.id == newNode && InsInv(ctx, t)
      requires ctx.color == Red && ctx.up.Hole? && !IsRed(ctx.up.sib)
      requires parent == ctx.id && grandParent == ctx.up.id
      modifies this, h
      ensures Valid() && Entries() == old(Entries())
      ensures chooseSubstituteInLeftSubtreeForDelete == old(chooseSubstituteInLeftSubtreeForDelete)
    {
      Around(h.nodes, ctx, t, rootSide);
      var rotateType := FindRotationType(newNode);
      ghost var c, t2 := ctx, t;
      if rotateType == LLRotate || rotateType == RRRotate {
        c := PaintLine(parent, grandParent, ctx, t);
      } else if rotateType == LRRotate || rotateType == RLRotate {
        c, t2 := PaintZigzag(newNode, parent, grandParent, ctx, t);
      }
      RotateWithType(rotateType, newNode, c, t2);
    }

    /** The recolouring before a single rotation (LL, RR): parent black,
        grandparent red. */
    method PaintLine(parent: nat, grandParent: nat, ghost ctx: Ctx, ghost t: Tree) returns (ghost c: Ctx)
      requires Linked() && Bst(T) && T == Plug(ctx, t) && t.Node? && InsInv(ctx, t)
      requires ctx.color == Red && ctx.up.Hole? && !IsRed(ctx.up.sib) && ctx.d == ctx.up.d
      requires parent == ctx.id && grandParent == ctx.up.id
      modifies this, h
      ensures Linked() && Bst(T) && T == Plug(c, t) && Entries() == old(Entries())
      ensures chooseSubstituteInLeftSubtreeForDelete == old(chooseSubstituteInLeftSubtreeForDelete)
      ensures c == ctx.(color := Black, up := ctx.up.(color := Red))
      ensures Colored(Plug(c.up.up, Rotated(c, t)))
    {
      ghost var g := ctx.up;
      Paint(parent, Black, g, ParentTree(ctx, t));
      c := Hole(ctx.d, ctx.id, Black, ctx.key, ctx.value, ctx.sib, g);
      Paint(grandParent, Red, g.up, GrandTree(c, t));
      c := Hole(ctx.d, ctx.id, Black, ctx.key, ctx.value, ctx.sib,
                Hole(g.d, g.id, Red, g.key, g.value, g.sib, g.up));
      InsLine(ctx, t);
    }

    /** The recolouring before a double rotation (LR, RL): grandparent and
        parent red, the new node black. */
    method PaintZigzag(newNode: nat, parent: nat, grandParent: nat, ghost ctx: Ctx, ghost t: Tree)
      returns (ghost c: Ctx, ghost t2: Tree)
      requires Linked() && Bst(T) && T == Plug(ctx, t) && t.Node? && t.id == newNode && InsInv(ctx, t)
      requires ctx.color == Red && ctx.up.Hole? && !IsRed(ctx.up.sib) && ctx.d != ctx.up.d
      requires parent == ctx.id && grandParent == ctx.up.id
      modifies this, h
      ensures Linked() && Bst(T) && T == Plug(c, t2) && Entries() == old(Entries())
      ensures chooseSubstituteInLeftSubtreeForDelete == old(chooseSubstituteInLeftSubtreeForDelete)
      ensures c == ctx.(up := ctx.up.(color := Red)) && t2 == t.(color := Black)
      ensures Colored(Plug(c.up.up, Rotated(c, t2)))
    {
      ghost var g := ctx.up;
      Paint(grandParent, Red, g.up, GrandTree(ctx, t));
      c := Hole(ctx.d, ctx.id, Red, ctx.key, ctx.value, ctx.sib,
                Hole(g.d, g.id, Red, g.key, g.value, g.sib, g.up));
      Paint(parent, Red, c.up, ParentTree(c, t));
      Paint(newNode, Black, c, t);
      t2 := t.(color := Black);
      InsZigzag(ctx, t);
    }

    /** The red-uncle branch of `recolorForInsertion`: grandparent red,
        parent and uncle black; at the root the grandparent is painted black
        again, otherwise the check goes on from the grandparent. */
    method RecolorWithUncle(parent: nat, grandParent: nat, uncle: nat, ghost ctx: Ctx, ghost t: Tree)
      returns (needBottomUpCheck: bool)
      requires Linked() && Bst(T) && T == Plug(ctx, t) && t.Node? && InsInv(ctx, t)
      requires ctx.color == Red && ctx.up.Hole? && IsRed(ctx.up.sib)
      requires parent == ctx.id && grandParent == ctx.up.id && uncle == ctx.up.sib.id
      modifies this, h
      ensures Bst(T) && Entries() == old(Entries())
      ensures chooseSubstituteInLeftSubtreeForDelete == old(chooseSubstituteInLeftSubtreeForDelete)
      ensures needBottomUpCheck <==> ctx.up.up.Hole?
      ensures !needBottomUpCheck ==> Valid()
      ensures needBottomUpCheck ==>
                Linked() && T == Plug(ctx.up.up, Recolored(ctx, t)) && InsInv(ctx.up.up, Recolored(ctx, t))
    {
      ghost var g := ctx.up;
      PlugGrand(ctx, t);
      Paint(grandParent, Red, g.up, GrandTree(ctx, t));
      ghost var c := Hole(ctx.d, ctx.id, Red, ctx.key, ctx.value, ctx.sib,
                          Hole(g.d, g.id, Red, g.key, g.value, g.sib, g.up));
      Paint(parent, Black, c.up, ParentTree(c, t));
      ghost var p' := MkNode(ctx.id, Black, ctx.key, ctx.value, ctx.d, t, ctx.sib);
      Paint(uncle, Black, Hole(Opp(g.d), g.id, Red, g.key, g.value, p', g.up), g.sib);
      assert T == Plug(g.up, Recolored(ctx, t));
      InsRedUncle(ctx, t);
      if g.up.Hole? {
        PlugNotRoot(g.up, Recolored(ctx, t));
      }
      if Ref(grandParent) == root {
        Paint(grandParent, Black, Top, Recolored(ctx, t));
        needBottomUpCheck := false;
      } else {
        needBottomUpCheck := true;
      }
    }
  
    /** `insert(key, value)`: a new key goes into a fresh red leaf, which is
        then repaired; an existing key gets the new value in place. */
    method Insert(key: int, value: string)
      requires Valid()
      modifies this, h
      ensures Valid() && Entries() == old(Entries())[key := value]
      ensures old(T).Nil? ==> T.Node? && T == Node(T.id, Black, key, value, Nil, Nil)
      ensures key in old(Entries()) ==> SameShape(old(T), T)
      ensures chooseSubstituteInLeftSubtreeForDelete == old(chooseSubstituteInLeftSubtreeForDelete)
    {
      if root == Null {
        var id := h.NewNode(key, value, Null, Null);
        root := Ref(id);
        h.SetBlackColor(id);
        T := Node(id, Black, key, value, Nil, Nil);
        rootSide := NoSide;
        return;
      }
      var next := root;
      var current := root;
      ghost var ctx, sub := Top, T;
      ContentKeys(T);
      while next != Null
        invariant h.nodes == old(h.nodes) && h.next == old(h.next) && T == old(T)
        invariant root == old(root) && rootSide == old(rootSide)
        invariant chooseSubstituteInLeftSubtreeForDelete == old(chooseSubstituteInLeftSubtreeForDelete)
        invariant T == Plug(ctx, sub) && next == RootPtr(sub)
        invariant CtxBst(ctx, Keys(sub) + {key}) && Bst(sub)
        invariant Rep(h.nodes, sub, HoleParent(ctx), HoleSide(ctx, rootSide))
        invariant ctx.Hole? ==> current == Ref(ctx.id)
        invariant ctx.Top? ==> sub.Node?
        decreases sub
      {
        current := next;
        var k := h.nodes[current.id].key;
        if key > k {
          next := h.nodes[current.id].right;
          Descend(ctx, sub, key, Right);
          ctx, sub := Hole(Right, sub.id, sub.color, sub.key, sub.value, sub.left, ctx), sub.right;
        } else if key < k {
          next := h.nodes[current.id].left;
          Descend(ctx, sub, key, Left);
          ctx, sub := Hole(Left, sub.id, sub.color, sub.key, sub.value, sub.right, ctx), sub.left;
        } else {
          UpdateValue(current.id, value, ctx, sub);
          return;
        }
      }
      assert Keys(sub) + {key} == {key};
      InsertLeaf(current.id, key, value, ctx);
    }

    /** The insertion branch of `insert`: a fresh red leaf with `key` and
        `value` becomes a child of `current`, the parent of the empty hole
        of `ctx`, and is repaired. */
    method InsertLeaf(current: nat, key: int, value: string, ghost ctx: Ctx)
      requires Valid() && T == Plug(ctx, Nil) && ctx.Hole? && current == ctx.id && CtxBst(ctx, {key})
      modifies this, h
      ensures Valid() && Entries() == old(Entries())[key := value] && key !in old(Entries())
      ensures chooseSubstituteInLeftSubtreeForDelete == old(chooseSubstituteInLeftSubtreeForDelete)
    {
      var newNode := LinkLeaf(current, key, value, ctx);
      ghost var leaf := Node(newNode, Red, key, value, Nil, Nil);
      Attached(ctx, leaf);
      ContentKeys(T);
      T := Plug(ctx, leaf);
      PlugTop(ctx, Nil, leaf);
      RecolorForInsertion(newNode, ctx, leaf);
    }

    /** The arena steps of `insert` for a new key: a fresh red node under
        `current`, on the side the key order picks. */
    method LinkLeaf(current: nat, key: int, value: string, ghost ctx: Ctx) returns (newNode: nat)
      requires h.Valid() && Rep(h.nodes, Plug(ctx, Nil), Null, rootSide) && Unique(Plug(ctx, Nil))
      requires ctx.Hole? && current == ctx.id && CtxBst(ctx, {key})
      modifies h
      ensures h.Valid() && newNode !in old(h.nodes)
      ensures var leaf := Node(newNode, Red, key, value, Nil, Nil);
              Rep(h.nodes, Plug(ctx, leaf), Null, rootSide) && Unique(Plug(ctx, leaf))
    {
      ghost var n0 := h.nodes;
      PlugRep(n0, ctx, Nil, rootSide);
      newNode := h.NewNode(key, value, Null, Null);
      h.SetRedColor(newNode);
      ghost var leaf := Node(newNode, Red, key, value, Nil, Nil);
      assert h.nodes == n0[newNode := RecOf(leaf, Null, NoSide)];
      assert key > h.nodes[current].key <==> ctx.d == Right by {
        Around(n0, ctx, Nil, rootSide);
      }
      if key > h.nodes[current].key {
        h.SetRightChild(current, Ref(newNode));
      } else {
        h.SetLeftChild(current, Ref(newNode));
      }
      RepAttach(n0, h.nodes, ctx, leaf, rootSide);
    }

    /** The overwrite branch of `insert`: node `n`, the root of `sub`, holds
        `key` already and gets `value`. */
    method UpdateValue(n: nat, value: string, ghost ctx: Ctx, ghost sub: Tree)
      requires Valid() && T == Plug(ctx, sub) && sub.Node? && sub.id == n
      modifies this, h
      ensures Valid() && Entries() == old(Entries())[sub.key := value]
      ensures SameShape(old(T), T)
      ensures chooseSubstituteInLeftSubtreeForDelete == old(chooseSubstituteInLeftSubtreeForDelete)
    {
      var sub' := sub.(value := value);
      RepRecord(h.nodes, ctx, sub, sub', rootSide);
      h.SetValue(n, value);
      PlugBst(ctx, sub);
      CtxBstDisjoint(ctx, Keys(sub));
      PlugContentUpdate(ctx, sub, sub', sub.key, value);
      SameShapeRefl(sub.left);
      SameShapeRefl(sub.right);
      PlugSameShape(ctx, sub, sub');
      SameShapeKeeps(Plug(ctx, sub), Plug(ctx, sub'));
      T := Plug(ctx, sub');
    }

    /** `rotateWithLeftChild(node)` for `e == Left`, `rotateWithRightChild(node)`
        otherwise. */
    method Rotate(node: nat, e: Dir, ghost ctx: Ctx, ghost t: Tree)
      requires Linked() && T == Plug(ctx, t) && t.Node? && t.id == node && Child(t, e).Node?
      modifies this, h
      ensures Linked() && T == Plug(ctx, Rot(t, e))
      ensures chooseSubstituteInLeftSubtreeForDelete == old(chooseSubstituteInLeftSubtreeForDelete)
      ensures Bst(old(T)) ==> Bst(T) && Entries() == old(Entries())
    {
      if e == Left {
        RotateWithLeftChild(node, ctx, t);
      } else {
        RotateWithRightChild(node, ctx, t);
      }
    }

    /** Case 1 of `recolorForDelete`, for `x` on side `d` of `parent`: the red
        sibling turns black, the parent red, and the parent is rotated down
        towards `x`. Returns the new sibling of `x`. */
    method SiblingRedCase(d: Dir, parent: nat, sibling: nat, ghost ctx: Ctx, ghost t: Tree)
      returns (newSibling: nat)
      requires Linked() && Bst(T) && T == Plug(ctx, t) && DelInv(ctx, t) && !IsRed(t)
      requires ctx.Hole? && IsRed(ctx.sib) && d == ctx.d && parent == ctx.id && sibling == ctx.sib.id
      modifies this, h
      ensures Linked() && Bst(T) && Entries() == old(Entries())
      ensures chooseSubstituteInLeftSubtreeForDelete == old(chooseSubstituteInLeftSubtreeForDelete)
      ensures T == Plug(RedSiblingCtx(ctx), t) && DelInv(RedSiblingCtx(ctx), t)
      ensures RedSiblingCtx(ctx).sib.Node? && !IsRed(RedSiblingCtx(ctx).sib)
      ensures newSibling == RedSiblingCtx(ctx).sib.id
    {
      ghost var w := ctx.sib;
      PlugSib(ctx, t, w);
      assert ctx.(sib := w) == ctx;
      Paint(sibling, Black, SibCtx(ctx, t), w);
      PlugSib(ctx, t, w.(color := Black));
      ghost var p0 := MkNode(ctx.id, ctx.color, ctx.key, ctx.value, d, t, w.(color := Black));
      assert T == Plug(ctx.up, p0);
      Paint(parent, Red, ctx.up, p0);
      ghost var p1 := MkNode(ctx.id, Red, ctx.key, ctx.value, d, t, w.(color := Black));
      assert p0.(color := Red) == p1 by {
        if d == Left {} else {}
      }
      DelCase1(ctx, t);
      Rotate(parent, Opp(d), ctx.up, p1);
      Around(h.nodes, RedSiblingCtx(ctx), t, rootSide);
      newSibling := h.nodes[parent].Child(Opp(d)).id;
    }

    /** Case 3 of `recolorForDelete`: the far nephew is black and the near
        one red. The near nephew turns black, the sibling red, and the
        sibling is rotated away from `x`. Returns the new sibling of `x`. */
    method NearRedCase(d: Dir, parent: nat, sibling: nat, ghost ctx: Ctx, ghost t: Tree)
      returns (newSibling: nat)
      requires Linked() && Bst(T) && T == Plug(ctx, t) && DelInv(ctx, t) && !IsRed(t)
      requires ctx.Hole? && ctx.sib.Node? && !IsRed(ctx.sib) && IsRed(Near(ctx)) && !IsRed(Far(ctx))
      requires d == ctx.d && parent == ctx.id && sibling == ctx.sib.id
      modifies this, h
      ensures Linked() && Bst(T) && Entries() == old(Entries())
      ensures chooseSubstituteInLeftSubtreeForDelete == old(chooseSubstituteInLeftSubtreeForDelete)
      ensures T == Plug(ctx.(sib := NearRedSibling(ctx)), t)
      ensures DelInv(ctx.(sib := NearRedSibling(ctx)), t)
      ensures !IsRed(NearRedSibling(ctx)) && IsRed(Far(ctx.(sib := NearRedSibling(ctx))))
      ensures newSibling == NearRedSibling(ctx).id
    {
      ghost var w := ctx.sib;
      ghost var sc := SibCtx(ctx, t);
      PlugSib(ctx, t, w);
      assert ctx.(sib := w) == ctx;
      Around(h.nodes, sc, w, rootSide);
      RepKids(h.nodes, w, Ref(ctx.id), SideOf(Opp(d)), d);
      var siblingNear := h.nodes[sibling].Child(d);
      Rebuild(w, d);
      ghost var w1 := MkNode(w.id, w.color, w.key, w.value, d, Near(ctx).(color := Black), Far(ctx));
      if siblingNear != Null {
        Paint(siblingNear.id, Black, Hole(d, w.id, w.color, w.key, w.value, Far(ctx), sc), Near(ctx));
      } else {
        assert false;
      }
      assert T == Plug(sc, w1);
      Paint(sibling, Red, sc, w1);
      ghost var w2 := MkNode(w.id, Red, w.key, w.value, d, Near(ctx).(color := Black), Far(ctx));
      assert w1.(color := Red) == w2 by {
        if d == Left {} else {}
      }
      Rotate(sibling, d, sc, w2);
      PlugSib(ctx, t, NearRedSibling(ctx));
      DelCase3(ctx, t);
      Around(h.nodes, ctx.(sib := NearRedSibling(ctx)), t, rootSide);
      newSibling := h.nodes[parent].Child(Opp(d)).id;
    }

    /** Case 4 of `recolorForDelete`: the far nephew is red. The sibling
        takes the parent's colour, the parent and the far nephew turn black,
        and the parent is rotated down towards `x`; the tree is then
        red-black once its root is black. */
    method FarRedCase(d: Dir, parent: nat, sibling: nat, ghost ctx: Ctx, ghost t: Tree)
      requires Linked() && Bst(T) && T == Plug(ctx, t) && DelInv(ctx, t) && !IsRed(t)
      requires ctx.Hole? && ctx.sib.Node? && !IsRed(ctx.sib) && IsRed(Far(ctx))
      requires d == ctx.d && parent == ctx.id && sibling == ctx.sib.id
      modifies this, h
      ensures Linked() && Bst(T) && Entries() == old(Entries())
      ensures chooseSubstituteInLeftSubtreeForDelete == old(chooseSubstituteInLeftSubtreeForDelete)
      ensures DelInv(Top, T)
    {
      ghost var w := ctx.sib;
      Around(h.nodes, ctx, t, rootSide);
      PlugSib(ctx, t, w);
      assert ctx.(sib := w) == ctx;
      var pc := h.GetColor(parent);
      Paint(sibling, pc, SibCtx(ctx, t), w);
      ghost var w3 := MkNode(w.id, pc, w.key, w.value, d, Near(ctx), Far(ctx));
      assert w.(color := pc) == w3 by {
        Rebuild(w, d);
        if d == Left {} else {}
      }
      PlugSib(ctx, t, w3);
      assert T == Plug(ctx.up, MkNode(ctx.id, ctx.color, ctx.key, ctx.value, d, t, w3));
      Paint(parent, Black, ctx.up, MkNode(ctx.id, ctx.color, ctx.key, ctx.value, d, t, w3));
      ghost var cb := ctx.(color := Black, sib := w3);
      ghost var sc := SibCtx(cb, t);
      assert MkNode(ctx.id, ctx.color, ctx.key, ctx.value, d, t, w3).(color := Black) ==
             MkNode(ctx.id, Black, ctx.key, ctx.value, d, t, w3) by {
        if d == Left {} else {}
      }
      PlugSib(cb, t, w3);
      assert T == Plug(sc, w3);
      Around(h.nodes, sc, w3, rootSide);
      RepKids(h.nodes, w3, Ref(ctx.id), SideOf(Opp(d)), Opp(d));
      var siblingFar := h.nodes[sibling].Child(Opp(d));
      Flip(w.id, pc, w.key, w.value, d, Near(ctx), Far(ctx));
      if siblingFar != Null {
        Paint(siblingFar.id, Black, Hole(Opp(d), w.id, pc, w.key, w.value, Near(ctx), sc), Far(ctx));
      } else {
        assert false;
      }
      ghost var w4 := MkNode(w.id, pc, w.key, w.value, d, Near(ctx), Far(ctx).(color := Black));
      Flip(w.id, pc, w.key, w.value, d, Near(ctx), Far(ctx).(color := Black));
      PlugSib(cb, t, w4);
      ghost var p3 := MkNode(ctx.id, Black, ctx.key, ctx.value, d, t, w4);
      assert T == Plug(ctx.up, p3);
      DelCase4(ctx, t);
      Rotate(parent, Opp(d), ctx.up, p3);
    }

    /** The state at the head of the loop of `recolorForDelete`: `x` is the
        root of `s` at position `c`, one black node short, below `xParent`. */
    ghost predicate Deficit(xNode: Ptr, xParent: Ptr, c: Ctx, s: Tree)
      reads this, h
    {
      Linked() && Bst(T) && T == Plug(c, s) && DelInv(c, s) &&
      xNode == RootPtr(s) && xParent == HoleParent(c) &&
      (xNode.Ref? ==> xNode.id in h.nodes && h.nodes[xNode.id].color == s.color)
    }

    /** `recolorForDelete(child, parent)`: `child` (possibly null), the root
        of `t` at position `ctx` below `parent`, is one black node short;
        the loop moves the deficit up or removes it, and `x` is painted
        black at the end. */
    method RecolorForDelete(child: Ptr, parent: Ptr, ghost ctx: Ctx, ghost t: Tree)
      requires Linked() && Bst(T) && T == Plug(ctx, t) && DelInv(ctx, t)
      requires child == RootPtr(t) && parent == HoleParent(ctx)
      modifies this, h
      ensures Valid() && Entries() == old(Entries())
      ensures chooseSubstituteInLeftSubtreeForDelete == old(chooseSubstituteInLeftSubtreeForDelete)
    {
      var xNode, xParent := child, parent;
      ghost var c, s := ctx, t;
      Around(h.nodes, c, s, rootSide);
      while (xNode == Null || h.IsBlack(xNode.id)) && xNode != root
        invariant Deficit(xNode, xParent, c, s)
        invariant Entries() == old(Entries())
        invariant chooseSubstituteInLeftSubtreeForDelete == old(chooseSubstituteInLeftSubtreeForDelete)
        decreases Depth(c) + (if IsRed(s) then 0 else 1)
      {
        var done;
        xNode, xParent, done, c, s := DeleteStep(xNode, xParent, c, s);
        if done {
          c, s := Top, T;
          break;
        }
      }
      BlackenLast(xNode, c, s);
    }

    /** The end of `recolorForDelete`: `x`, now red or the root, is painted
        black, which leaves a red-black tree. */
    method BlackenLast(xNode: Ptr, ghost c: Ctx, ghost s: Tree)
      requires Linked() && Bst(T) && T == Plug(c, s) && DelInv(c, s) && xNode == RootPtr(s)
      requires xNode == root || IsRed(s)
      modifies this, h
      ensures Valid() && Entries() == old(Entries())
      ensures chooseSubstituteInLeftSubtreeForDelete == old(chooseSubstituteInLeftSubtreeForDelete)
    {
      if c.Hole? {
        PlugNotRoot(c, s);
      }
      DelDone(c, s);
      if xNode != Null {
        Paint(xNode.id, Black, c, s);
      }
    }

    /** One iteration of the loop of `recolorForDelete`, for `x` on side
        `d` of its parent: case 1 if the sibling is red, then case 2, which
        moves `x` up, or cases 3 and 4, after which the loop stops (`done`)
        with `x` at the root. */
    method DeleteStep(xNode: Ptr, xParent: Ptr, ghost c: Ctx, ghost s: Tree)
      returns (xNode': Ptr, xParent': Ptr, done: bool, ghost c': Ctx, ghost s': Tree)
      requires Deficit(xNode, xParent, c, s) && (xNode == Null || h.IsBlack(xNode.id)) && xNode != root
      modifies this, h
      ensures Entries() == old(Entries())
      ensures chooseSubstituteInLeftSubtreeForDelete == old(chooseSubstituteInLeftSubtreeForDelete)
      ensures done ==> Linked() && Bst(T) && DelInv(Top, T) && xNode' == root
      ensures !done ==> Deficit(xNode', xParent', c', s')
      ensures !done ==> Depth(c') + (if IsRed(s') then 0 else 1) < Depth(c) + 1
    {
      assert c.Hole? && !IsRed(s);
      var d, sibling;
      ghost var c1;
      d, sibling, c1 := SiblingStep(xNode, xParent, c, s);
      var near := h.nodes[sibling].Child(d);
      var far := h.nodes[sibling].Child(Opp(d));
      if (near == Null || h.IsBlack(near.id)) && (far == Null || h.IsBlack(far.id)) {
        xNode' := xParent;
        xParent', c', s' := BlackNephewsCase(xNode'.id, sibling, c1, s);
        done := false;
      } else {
        RestructureForDelete(d, xParent.id, sibling, far, c1, s);
        xNode', xParent', c', s' := root, xParent, Top, T;
        done := true;
      }
    }

    /** The start of an iteration of `recolorForDelete`: the side `d` of `x`
        below its parent, its sibling, and case 1 when the sibling is red.
        Afterwards the sibling is black and its children's records are
        at hand. */
    method SiblingStep(xNode: Ptr, xParent: Ptr, ghost c: Ctx, ghost s: Tree)
      returns (d: Dir, sibling: nat, ghost c1: Ctx)
      requires Linked() && Bst(T) && T == Plug(c, s) && DelInv(c, s) && c.Hole? && !IsRed(s)
      requires xNode == RootPtr(s) && xParent == HoleParent(c)
      modifies this, h
      ensures Linked() && Bst(T) && Entries() == old(Entries())
      ensures chooseSubstituteInLeftSubtreeForDelete == old(chooseSubstituteInLeftSubtreeForDelete)
      ensures c1 == if IsRed(c.sib) then RedSiblingCtx(c) else c
      ensures T == Plug(c1, s) && DelInv(c1, s) && c1.Hole? && c1.d == d && c1.id == xParent.id
      ensures c1.sib.Node? && !IsRed(c1.sib) && sibling == c1.sib.id
      ensures Depth(c1) <= Depth(c) + 1 && (Depth(c1) == Depth(c) + 1 ==> c1.color == Red)
      ensures c1.up == c.up || c1.color == Red
      ensures sibling in h.nodes
      ensures h.nodes[sibling].Child(d) == RootPtr(Near(c1))
      ensures h.nodes[sibling].Child(Opp(d)) == RootPtr(Far(c1))
      ensures Near(c1).Node? ==> Near(c1).id in h.nodes && h.nodes[Near(c1).id].color == Near(c1).color
      ensures Far(c1).Node? ==> Far(c1).id in h.nodes && h.nodes[Far(c1).id].color == Far(c1).color
    {
      DelSibling(c, s);
      ParentLinks(h.nodes, c, s, rootSide);
      d := if h.nodes[xParent.id].left == xNode then Left else Right;
      sibling := h.nodes[xParent.id].Child(Opp(d)).id;
      c1 := c;
      if h.IsRed(sibling) {
        sibling := SiblingRedCase(d, xParent.id, sibling, c, s);
        c1 := RedSiblingCtx(c);
      }
      Nephews(h.nodes, c1, s, rootSide);
    }

    /** Case 2 of `recolorForDelete`: both nephews black. The sibling turns
        red and the deficit moves up to the parent, which becomes `x`. */
    method BlackNephewsCase(parent: nat, sibling: nat, ghost c: Ctx, ghost s: Tree)
      returns (newParent: Ptr, ghost c2: Ctx, ghost s2: Tree)
      requires Linked() && Bst(T) && T == Plug(c, s) && DelInv(c, s) && !IsRed(s)
      requires c.Hole? && c.sib.Node? && !IsRed(c.sib) && !IsRed(Near(c)) && !IsRed(Far(c))
      requires parent == c.id && sibling == c.sib.id
      modifies this, h
      ensures Linked() && Bst(T) && Entries() == old(Entries())
      ensures chooseSubstituteInLeftSubtreeForDelete == old(chooseSubstituteInLeftSubtreeForDelete)
      ensures T == Plug(c2, s2) && DelInv(c2, s2) && c2 == c.up
      ensures s2 == MkNode(c.id, c.color, c.key, c.value, c.d, s, c.sib.(color := Red))
      ensures newParent == HoleParent(c2) && parent in h.nodes && h.nodes[parent].color == c.color
    {
      ghost var w := c.sib;
      PlugSib(c, s, w);
      assert c.(sib := w) == c;
      Paint(sibling, Red, SibCtx(c, s), w);
      PlugSib(c, s, w.(color := Red));
      DelCase2(c, s);
      s2 := MkNode(c.id, c.color, c.key, c.value, c.d, s, w.(color := Red));
      c2 := c.up;
      Around(h.nodes, c2, s2, rootSide);
      newParent := h.nodes[parent].parent;
    }

    /** Cases 3 and 4 of `recolorForDelete`: a red nephew. Case 3 first
        when only the near nephew is red; case 4 then ends the loop. */
    method RestructureForDelete(d: Dir, parent: nat, sibling: nat, far: Ptr, ghost c: Ctx, ghost s: Tree)
      requires Linked() && Bst(T) && T == Plug(c, s) && DelInv(c, s) && !IsRed(s)
      requires c.Hole? && c.sib.Node? && !IsRed(c.sib) && (IsRed(Near(c)) || IsRed(Far(c)))
      requires d == c.d && parent == c.id && sibling == c.sib.id
      requires far == RootPtr(Far(c)) && (far.Ref? ==> far.id in h.nodes && h.nodes[far.id].color == Far(c).color)
      modifies this, h
      ensures Linked() && Bst(T) && Entries() == old(Entries())
      ensures chooseSubstituteInLeftSubtreeForDelete == old(chooseSubstituteInLeftSubtreeForDelete)
      ensures DelInv(Top, T)
    {
      var sib := sibling;
      ghost var c1 := c;
      if far == Null || h.IsBlack(far.id) {
        sib := NearRedCase(d, parent, sibling, c, s);
        c1 := c.(sib := NearRedSibling(c));
      }
      FarRedCase(d, parent, sib, c1, s);
    }

    /** What a branch of `remove` leaves for the repair: the entry is gone,
        the tree is ordered, and `child` (possibly null) at position `c2`
        below `parent` is one black short when the unlinked node was black;
        otherwise the tree is already red-black. */
    ghost predicate Unlinked(child: Ptr, parent: Ptr, black: bool, c2: Ctx, t2: Tree)
      reads this, h
    {
      Linked() && Bst(T) && T == Plug(c2, t2) && child == RootPtr(t2) && parent == HoleParent(c2) &&
      (black ==> DelInv(c2, t2)) && (!black ==> RedBlack(T))
    }

    /** `delete(key)`. */
    method Delete(key: int)
      requires Valid()
      modifies this, h
      ensures Valid() && Entries() == old(Entries()) - {key}
      ensures chooseSubstituteInLeftSubtreeForDelete == old(chooseSubstituteInLeftSubtreeForDelete)
    {
      var _ := Remove(key);
    }

    /** `remove(key)`: unlinks the node with `key` as in a binary search
        tree, repairs the colours when the node unlinked was black, and
        returns the value that was stored under `key`. */
    method Remove(key: int) returns (r: Option<string>)
      requires Valid()
      modifies this, h
      ensures Valid() && Entries() == old(Entries()) - {key}
      ensures r == if key in old(Entries()) then Some(old(Entries())[key]) else None
      ensures key !in old(Entries()) ==> T == old(T) && h.nodes == old(h.nodes)
      ensures chooseSubstituteInLeftSubtreeForDelete == old(chooseSubstituteInLeftSubtreeForDelete)
    {
      var nodex, ctx, y := FindNode(key);
      ContentKeys(T);
      if nodex == Null {
        return None;
      }
      PlugContentAt(ctx, y);
      Around(h.nodes, ctx, y, rootSide);
      var oldNodeValue := h.nodes[nodex.id].value;
      var child, parent, black := Null, Null, false;
      ghost var c2, t2;
      var numOfChildren := h.NumOfChildren(nodex.id);
      if numOfChildren == 1 {
        child, parent, black, c2, t2 := RemoveOneChild(nodex.id, ctx, y);
      } else if numOfChildren == 0 {
        child, parent, black, c2, t2 := RemoveLeaf(nodex.id, ctx, y);
      } else {
        ghost var path, high;
        child, parent, black, c2, t2, path, high := RemoveTwoChildren(nodex.id, ctx, y);
      }
      if black {
        RecolorForDelete(child, parent, c2, t2);
      }
      r := Some(oldNodeValue);
    }

    /** The one-child branch of `remove`: the child, a red leaf, is cut off
        and node `n` takes its entry and colour; `n` is then the `x` of the
        repair. */
    method RemoveOneChild(n: nat, ghost ctx: Ctx, ghost y: Tree)
      returns (child: Ptr, parent: Ptr, black: bool, ghost c2: Ctx, ghost t2: Tree)
      requires Valid() && T == Plug(ctx, y) && y.Node? && y.id == n && y.left.Nil? != y.right.Nil?
      modifies this, h
      ensures Unlinked(child, parent, black, c2, t2) && Entries() == old(Entries()) - {y.key}
      ensures c2 == ctx && t2 == CloneChild(y, if y.left.Nil? then Left else Right)
      ensures child == Ref(n) && black == (y.color == Black)
      ensures chooseSubstituteInLeftSubtreeForDelete == old(chooseSubstituteInLeftSubtreeForDelete)
    {
      ghost var e := if y.left.Nil? then Left else Right;
      child, parent, black := CutChild(n, ctx, y);
      c2, t2 := ctx, CloneChild(y, e);
      OneChildFacts(ctx, y, e);
      T := Plug(ctx, t2);
    }

    /** The arena steps of the one-child branch: the link from `n` to its
        only child is cleared and `n` takes the child's entry and colour.
        The arena then represents the tree with `y` replaced by
        `CloneChild(y, e)`, where `e` is the side `y` has no child on. */
    method CutChild(n: nat, ghost ctx: Ctx, ghost y: Tree) returns (child: Ptr, parent: Ptr, black: bool)
      requires h.Valid() && Rep(h.nodes, Plug(ctx, y), Null, rootSide) && Unique(Plug(ctx, y))
      requires y.Node? && y.id == n && y.left.Nil? != y.right.Nil?
      modifies h
      ensures var e := if y.left.Nil? then Left else Right;
              var t2 := CloneChild(y, e);
              h.Valid() && Rep(h.nodes, Plug(ctx, t2), Null, rootSide) && Unique(Plug(ctx, t2)) &&
              RootPtr(Plug(ctx, t2)) == RootPtr(Plug(ctx, y)) &&
              child == Ref(n) && parent == HoleParent(ctx) && black == (y.color == Black)
    {
      ghost var n0 := h.nodes;
      Around(n0, ctx, y, rootSide);
      black := h.IsBlack(n);
      ghost var e := if y.left.Nil? then Left else Right;
      assert n0[n].Child(e) == Null && n0[n].Child(Opp(e)) != Null by {
        if e == Left {} else {}
      }
      child := Detach(n, e);
      RepKids(n0, y, HoleParent(ctx), HoleSide(ctx, rootSide), Opp(e));
      assert child == Ref(Child(y, Opp(e)).id) && child.id != n by {
        PlugUnique(ctx, y);
        if e == Left {} else {}
      }
      h.CloneElementAndColor(n, child.id);
      child := Ref(n);
      parent := h.nodes[n].parent;
      assert h.nodes == n0[n := RecOf(CloneChild(y, e), HoleParent(ctx), HoleSide(ctx, rootSide))];
      OneChildRep(n0, h.nodes, ctx, y, e, rootSide);
    }

    /** Clears the only link of node `n`, on side `Opp(e)`, and returns it. */
    method Detach(n: nat, ghost e: Dir) returns (child: Ptr)
      requires n in h.nodes && h.nodes[n].Child(e) == Null && h.nodes[n].Child(Opp(e)) != Null
      modifies h
      ensures child == old(h.nodes[n].Child(Opp(e))) && h.next == old(h.next)
      ensures h.nodes == old(h.nodes)[n := old(h.nodes[n]).WithChild(Opp(e), Null)]
    {
      child := h.nodes[n].left;
      if child != Null {
        h.SetLeftChild(n, Null);
      } else {
        child := h.nodes[n].right;
        h.SetRightChild(n, Null);
      }
    }

    /** The leaf branch of `remove`: the parent's link to leaf `n` becomes
        null, or the tree becomes empty when `n` is the root. */
    method RemoveLeaf(n: nat, ghost ctx: Ctx, ghost y: Tree)
      returns (child: Ptr, parent: Ptr, black: bool, ghost c2: Ctx, ghost t2: Tree)
      requires Valid() && T == Plug(ctx, y) && y.Node? && y.id == n && y.left.Nil? && y.right.Nil?
      modifies this, h
      ensures Unlinked(child, parent, black, c2, t2) && Entries() == old(Entries()) - {y.key}
      ensures t2 == Nil && child == Null
      ensures ctx.Hole? ==> c2 == ctx && black == (y.color == Black)
      ensures ctx.Top? ==> c2 == Top && !black && T == Nil && root == Null
      ensures chooseSubstituteInLeftSubtreeForDelete == old(chooseSubstituteInLeftSubtreeForDelete)
    {
      ghost var n0 := h.nodes;
      Around(n0, ctx, y, rootSide);
      child, parent, black := Null, Null, false;
      if Ref(n) != root {
        black := h.IsBlack(n);
        parent := h.nodes[n].parent;
        if h.IsLeftChild(n) {
          h.SetLeftChild(parent.id, Null);
        } else {
          h.SetRightChild(parent.id, Null);
        }
        RepSplice(n0, h.nodes, ctx, y, Left, rootSide);
        RemoveLeafFacts(ctx, y);
        Unlink(ctx, y, Left);
        PlugTop(ctx, y, Nil);
        c2, t2 := ctx, Nil;
        T := Plug(ctx, Nil);
      } else {
        if ctx.Hole? {
          PlugNotRoot(ctx, y);
        }
        root := Null;
        c2, t2 := Top, Nil;
        T := Nil;
      }
    }

    /** The two-children branch of `remove`: node `n` takes the entry of its
        in-order predecessor (the maximum of the left subtree) or, when the
        policy flag is off, of its successor, and that node, which lacks a
        child on one side, is cut out. */
    method RemoveTwoChildren(n: nat, ghost ctx: Ctx, ghost y: Tree)
      returns (child: Ptr, parent: Ptr, black: bool, ghost c2: Ctx, ghost t2: Tree, ghost path: Ctx, ghost high: Tree)
      requires Valid() && T == Plug(ctx, y) && y.Node? && y.id == n && y.left.Node? && y.right.Node?
      modifies this, h
      ensures Unlinked(child, parent, black, c2, t2) && Entries() == old(Entries()) - {y.key}
      ensures var e := if chooseSubstituteInLeftSubtreeForDelete then Left else Right;
              Child(y, e) == Plug(path, high) && AllOn(path, Opp(e)) && high.Node? && Child(high, Opp(e)).Nil? &&
              high.key in Keys(Child(y, e)) &&
              (forall k | k in Keys(Child(y, e)) :: if e == Left then k <= high.key else high.key <= k) &&
              c2 == SubstCtx(ctx, y, path, high, e) && t2 == Child(high, e) &&
              child == RootPtr(t2) && black == (high.color == Black)
      ensures chooseSubstituteInLeftSubtreeForDelete == old(chooseSubstituteInLeftSubtreeForDelete)
    {
      Around(h.nodes, ctx, y, rootSide);
      var rntd: Ptr;
      ghost var e := if chooseSubstituteInLeftSubtreeForDelete then Left else Right;
      Rebuild(y, e);
      PlugBst(ctx, y);
      if chooseSubstituteInLeftSubtreeForDelete {
        rntd, path, high := FindMax(h.nodes[n].left, Hole(Left, y.id, y.color, y.key, y.value, y.right, ctx), y.left);
      } else {
        rntd, path, high := FindMin(h.nodes[n].right, Hole(Right, y.id, y.color, y.key, y.value, y.left, ctx), y.right);
      }
      child, parent, black := Null, Null, false;
      if rntd != Null {
        child, parent, black, c2, t2 := Substitute(n, rntd.id, ctx, y, path, high, e);
      } else {
        assert false;
      }
    }

    /** The rest of the two-children branch: node `n`, the root of `y`,
        takes the entry of `rntd`, the root of `high` at `path` below the
        child of `y` on side `e`, and `rntd` is replaced by its child. */
    method Substitute(n: nat, rntd: nat, ghost ctx: Ctx, ghost y: Tree, ghost path: Ctx, ghost high: Tree, ghost e: Dir)
      returns (child: Ptr, parent: Ptr, black: bool, ghost c2: Ctx, ghost t2: Tree)
      requires Valid() && T == Plug(ctx, y) && y.Node? && y.id == n
      requires Child(y, e) == Plug(path, high) && AllOn(path, Opp(e)) && high.Node? && high.id == rntd
      requires Child(high, Opp(e)).Nil?
      requires e == (if chooseSubstituteInLeftSubtreeForDelete then Left else Right)
      modifies this, h
      ensures Unlinked(child, parent, black, c2, t2) && Entries() == old(Entries()) - {y.key}
      ensures c2 == SubstCtx(ctx, y, path, high, e) && t2 == Child(high, e)
      ensures child == RootPtr(t2) && black == (high.color == Black)
      ensures chooseSubstituteInLeftSubtreeForDelete == old(chooseSubstituteInLeftSubtreeForDelete)
    {
      c2, t2 := SubstCtx(ctx, y, path, high, e), Child(high, e);
      child, parent, black := Unhook(n, rntd, ctx, y, path, high, e);
      SubstColors(ctx, y, path, high, e);
      T := Plug(c2, t2);
    }

    /** The arena steps of the two-children branch: `n` takes the entry of
        `rntd`, and the child of `rntd` on the chosen side takes its place
        under the parent of `rntd`. The arena then represents the tree with
        `high` cut out and its entry moved into `y`. */
    method Unhook(n: nat, rntd: nat, ghost ctx: Ctx, ghost y: Tree, ghost path: Ctx, ghost high: Tree, ghost e: Dir)
      returns (child: Ptr, parent: Ptr, black: bool)
      requires h.Valid() && Rep(h.nodes, Plug(ctx, y), Null, rootSide) && Unique(Plug(ctx, y))
      requires y.Node? && y.id == n && Child(y, e) == Plug(path, high) && high.Node? && high.id == rntd
      requires e == (if chooseSubstituteInLeftSubtreeForDelete then Left else Right)
      modifies h
      ensures var c2, t2 := SubstCtx(ctx, y, path, high, e), Child(high, e);
              h.Valid() && Rep(h.nodes, Plug(c2, t2), Null, rootSide) && Unique(Plug(c2, t2)) &&
              RootPtr(Plug(c2, t2)) == RootPtr(Plug(ctx, y)) &&
              child == RootPtr(t2) && parent == HoleParent(c2) && black == (high.color == Black)
    {
      ghost var n0 := h.nodes;
      ghost var c2, t2 := SubstCtx(ctx, y, path, high, e), Child(high, e);
      SubstRecords(n0, ctx, y, path, high, e, rootSide);
      parent := h.nodes[rntd].parent;
      if chooseSubstituteInLeftSubtreeForDelete {
        child := h.nodes[rntd].left;
      } else {
        child := h.nodes[rntd].right;
      }
      assert parent == Ref(c2.id) && child == RootPtr(t2) by {
        if e == Left {} else {}
      }
      h.CloneElement(n, rntd);
      ghost var n1 := h.nodes;
      assert n1 == n0[y.id := RecOf(y.(key := high.key, value := high.value), HoleParent(ctx), HoleSide(ctx, rootSide))];
      assert n1[rntd] == n0[rntd];
      if h.IsLeftChild(rntd) {
        h.SetLeftChild(parent.id, child);
      } else {
        h.SetRightChild(parent.id, child);
      }
      black := h.IsBlack(rntd);
      assert black == (high.color == Black) by {
        SameColor(n1, parent.id, c2.d, child, rntd);
      }
      SubstRep(n0, n1, h.nodes, ctx, y, path, high, e, rootSide);
    }

    /** `toString`: the preorder listing of the nodes, or a fixed sentence
        for the empty tree. */
    function ToString(): (s: string)
      reads this, h
      requires Linked()
      ensures s == TreeText(T)
    {
      if root == Null then "This tree is empty"
      else PreorderTraversal(root.id, "root", T, Null, rootSide)
    }

    /** `preorder_traversal(start, name)`: the line of `start`, the root of
        `t`, then the lines of its left and of its right subtree. */
    function PreorderTraversal(start: nat, name: string, ghost t: Tree, ghost p: Ptr, ghost sd: Side): (current: string)
      reads h
      requires Rep(h.nodes, t, p, sd) && t.Node? && t.id == start
      ensures current == Preorder(t, name)
      decreases t
    {
      var r := h.nodes[start];
      var line := name + ":" + (if h.IsBlack(start) then "BLACK" else "RED") + "(" +
                  IntText(r.key) + "," + r.value + ")" + "\n";
      assert line == NodeLine(name, t.color, t.key, t.value);
      var left := if r.left != Null then PreorderTraversal(r.left.id, name + "-left", t.left, Ref(start), LeftSide) else "";
      var right := if r.right != Null then PreorderTraversal(r.right.id, name + "-right", t.right, Ref(start), RightSide) else "";
      line + left + right
    }
  }
}
