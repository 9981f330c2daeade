/** Model of RedBlackNode.java.
    A node object of the source is a slot of the arena `NodeHeap.nodes`; a Java
    reference to a node is a `Ptr` (`Null` or `Ref(id)` with `id` a slot). */
module Nodes {

  /** The colour field (`REDCOLOR == 0`, `BLACKCOLOR == 1`). */
  datatype Color = Red | Black

  /** The cached `sideOfChild` field: 0 (unset), 1 (left child), 2 (right child). */
  datatype Side = NoSide | LeftSide | RightSide

  /** A direction from a node to one of its children. */
  datatype Dir = Left | Right

  function Opp(d: Dir): (e: Dir)
    ensures e != d
  {
    if d == Left then Right else Left
  }

  /** The side flag that marks a node as the `d` child of its parent. */
  function SideOf(d: Dir): (s: Side)
    ensures s != NoSide
    ensures (s == LeftSide) <==> (d == Left)
  {
    if d == Left then LeftSide else RightSide
  }

  datatype Ptr = Null | Ref(id: nat)

  /** The fields of one node: its element (key and value), the three links,
      the cached side and the colour. */
  datatype NodeRec = NodeRec(key: int, value: string, left: Ptr, right: Ptr,
                             parent: Ptr, side: Side, color: Color)
  {
    function Child(d: Dir): Ptr {
      if d == Left then left else right
    }

    function WithChild(d: Dir, c: Ptr): (r: NodeRec)
      ensures r.Child(d) == c && r.Child(Opp(d)) == Child(Opp(d))
      ensures r.key == key && r.value == value && r.parent == parent
      ensures r.side == side && r.color == color
    {
      if d == Left then this.(left := c) else this.(right := c)
    }
  }

  /** The effect of `setLeftChild(c)` (for `d == Left`) or `setRightChild(c)`
      on node `n`: the child slot becomes `c`, and a non-null `c` gets `n` as
      its parent and the matching side flag. Nothing else changes; in
      particular the child that was there before keeps its parent link. */
  function LinkChild(nodes: map<nat, NodeRec>, n: nat, d: Dir, c: Ptr): (m: map<nat, NodeRec>)
    requires n in nodes && (c.Ref? ==> c.id in nodes)
    ensures m.Keys == nodes.Keys
    ensures c.Ref? ==> m[c.id].parent == Ref(n) && m[c.id].side == SideOf(d)
    ensures c.Ref? && c.id != n ==> m[c.id] == nodes[c.id].(parent := Ref(n), side := SideOf(d))
    ensures c.Ref? && c.id != n ==> m[n] == nodes[n].WithChild(d, c)
    ensures c == Null ==> m[n] == nodes[n].WithChild(d, c)
    ensures forall i | i in nodes && i != n && (c.Ref? ==> i != c.id) :: m[i] == nodes[i]
  {
    var m := nodes[n := nodes[n].WithChild(d, c)];
    if c.Ref? then m[c.id := m[c.id].(parent := Ref(n), side := SideOf(d))] else m
  }

  /** Linking a child changes no colour. */
  lemma SameColor(nodes: map<nat, NodeRec>, n: nat, d: Dir, c: Ptr, i: nat)
    requires n in nodes && (c.Ref? ==> c.id in nodes) && i in nodes
    ensures LinkChild(nodes, n, d, c)[i].color == nodes[i].color
  {
  }

  /** The arena of all nodes ever allocated. */
  class NodeHeap {
    var nodes: map<nat, NodeRec>
    var next: nat

    ghost predicate Valid()
      reads this
    {
      forall i | i in nodes :: i < next
    }

    constructor ()
      ensures Valid() && nodes == map[] && next == 0
    {
      nodes := map[];
      next := 0;
    }

    /** `new RedBlackNode(e, l, r)`: the node gets the element and the two
        child links, a null parent, side 0 and colour 0 (red), and the
        children are not told about their new parent. */
    method NewNode(key: int, value: string, l: Ptr, r: Ptr) returns (id: nat)
      requires Valid()
      modifies this
      ensures Valid() && id !in old(nodes) && next == id + 1
      ensures nodes == old(nodes)[id := NodeRec(key, value, l, r, Null, NoSide, Red)]
    {
      id := next;
      nodes := nodes[id := NodeRec(key, value, l, r, Null, NoSide, Red)];
      next := next + 1;
    }

    /** `getColor`, which agrees with `isRed` and `isBlack`. */
    function GetColor(n: nat): (c: Color)
      reads this
      requires n in nodes
      ensures c == Red <==> IsRed(n)
      ensures c == Black <==> IsBlack(n)
    {
      nodes[n].color
    }

    method SetColor(n: nat, c: Color)
      requires n in nodes
      modifies this
      ensures next == old(next)
      ensures nodes == old(nodes)[n := old(nodes)[n].(color := c)]
    {
      nodes := nodes[n := nodes[n].(color := c)];
    }

    /** `isRed`: exactly when not `isBlack`, as the colour has only two
        values here. */
    predicate IsRed(n: nat): (r: bool)
      reads this
      requires n in nodes
      ensures r <==> !IsBlack(n)
    {
      nodes[n].color == Red
    }

    predicate IsBlack(n: nat)
      reads this
      requires n in nodes
    {
      nodes[n].color == Black
    }

    method SetRedColor(n: nat)
      requires n in nodes
      modifies this
      ensures next == old(next)
      ensures nodes == old(nodes)[n := old(nodes)[n].(color := Red)]
      ensures IsRed(n)
    {
      nodes := nodes[n := nodes[n].(color := Red)];
    }

    method SetBlackColor(n: nat)
      requires n in nodes
      modifies this
      ensures next == old(next)
      ensures nodes == old(nodes)[n := old(nodes)[n].(color := Black)]
      ensures IsBlack(n)
    {
      nodes := nodes[n := nodes[n].(color := Black)];
    }

    /** `getSibling`: null without a parent or with side 0, otherwise the
        parent's child on the other side. */
    function GetSibling(n: nat): (s: Ptr)
      reads this
      requires n in nodes
      requires nodes[n].parent.Ref? ==> nodes[n].parent.id in nodes
      ensures nodes[n].parent == Null ==> s == Null
      ensures nodes[n].side == NoSide ==> s == Null
      ensures nodes[n].parent.Ref? && nodes[n].side == LeftSide ==>
                s == nodes[nodes[n].parent.id].right
      ensures nodes[n].parent.Ref? && nodes[n].side == RightSide ==>
                s == nodes[nodes[n].parent.id].left
    {
      var p := nodes[n].parent;
      if p == Null then Null
      else if nodes[n].side == LeftSide then nodes[p.id].right
      else if nodes[n].side == RightSide then nodes[p.id].left
      else Null
    }

    /** `setLeftChild(c)`: `left := c`; a non-null `c` gets this node as its
        parent and is marked as a left child. The old left child is not
        touched. */
    method SetLeftChild(n: nat, c: Ptr)
      requires n in nodes && (c.Ref? ==> c.id in nodes)
      modifies this
      ensures next == old(next)
      ensures nodes == LinkChild(old(nodes), n, Left, c)
    {
      nodes := nodes[n := nodes[n].(left := c)];
      if c.Ref? {
        nodes := nodes[c.id := nodes[c.id].(parent := Ref(n))];
        SetAsLeftChild(c.id);
      }
    }

    /** `setRightChild(c)`, the mirror image of `setLeftChild`. */
    method SetRightChild(n: nat, c: Ptr)
      requires n in nodes && (c.Ref? ==> c.id in nodes)
      modifies this
      ensures next == old(next)
      ensures nodes == LinkChild(old(nodes), n, Right, c)
    {
      nodes := nodes[n := nodes[n].(right := c)];
      if c.Ref? {
        nodes := nodes[c.id := nodes[c.id].(parent := Ref(n))];
        SetAsRightChild(c.id);
      }
    }

    /** `setParent(p)` changes only the parent link (not the side). */
    method SetParent(n: nat, p: Ptr)
      requires n in nodes
      modifies this
      ensures next == old(next)
      ensures nodes == old(nodes)[n := old(nodes)[n].(parent := p)]
    {
      nodes := nodes[n := nodes[n].(parent := p)];
    }

    /** `cloneElementAndColor(src)`: copy key, value and colour of `src`. */
    method CloneElementAndColor(n: nat, src: nat)
      requires n in nodes && src in nodes
      modifies this
      ensures next == old(next)
      ensures nodes == old(nodes)[n := old(nodes)[n].(key := old(nodes)[src].key,
                value := old(nodes)[src].value, color := old(nodes)[src].color)]
    {
      var s := nodes[src];
      nodes := nodes[n := nodes[n].(key := s.key, value := s.value, color := s.color)];
    }

    /** `cloneElement(src)`: copy key and value of `src`; keep the colour. */
    method CloneElement(n: nat, src: nat)
      requires n in nodes && src in nodes
      modifies this
      ensures next == old(next)
      ensures nodes == old(nodes)[n := old(nodes)[n].(key := old(nodes)[src].key,
                value := old(nodes)[src].value)]
    {
      var s := nodes[src];
      nodes := nodes[n := nodes[n].(key := s.key, value := s.value)];
    }

    /** `getElement().setValue(v)`. */
    method SetValue(n: nat, v: string)
      requires n in nodes
      modifies this
      ensures next == old(next)
      ensures nodes == old(nodes)[n := old(nodes)[n].(value := v)]
    {
      nodes := nodes[n := nodes[n].(value := v)];
    }

    method SetAsLeftChild(n: nat)
      requires n in nodes
      modifies this
      ensures next == old(next)
      ensures nodes == old(nodes)[n := old(nodes)[n].(side := LeftSide)]
      ensures IsLeftChild(n)
    {
      nodes := nodes[n := nodes[n].(side := LeftSide)];
    }

    method SetAsRightChild(n: nat)
      requires n in nodes
      modifies this
      ensures next == old(next)
      ensures nodes == old(nodes)[n := old(nodes)[n].(side := RightSide)]
      ensures IsRightChild(n)
    {
      nodes := nodes[n := nodes[n].(side := RightSide)];
    }

    /** `isLeftChild`, which excludes `isRightChild`. */
    predicate IsLeftChild(n: nat): (b: bool)
      reads this
      requires n in nodes
      ensures b ==> !IsRightChild(n)
    {
      nodes[n].side == LeftSide
    }

    predicate IsRightChild(n: nat)
      reads this
      requires n in nodes
    {
      nodes[n].side == RightSide
    }

    /** `isLeaf`: neither `hasLeftChild` nor `hasRightChild`. */
    predicate IsLeaf(n: nat): (b: bool)
      reads this
      requires n in nodes
      ensures b <==> !HasLeftChild(n) && !HasRightChild(n)
    {
      nodes[n].left == Null && nodes[n].right == Null
    }

    predicate HasLeftChild(n: nat)
      reads this
      requires n in nodes
    {
      nodes[n].left != Null
    }

    predicate HasRightChild(n: nat)
      reads this
      requires n in nodes
    {
      nodes[n].right != Null
    }

    /** `hasSibling`: only a node below a parent, with its side set, can
        have one. */
    predicate HasSibling(n: nat): (b: bool)
      reads this
      requires n in nodes
      requires nodes[n].parent.Ref? ==> nodes[n].parent.id in nodes
      ensures b ==> nodes[n].parent.Ref? && nodes[n].side != NoSide
    {
      GetSibling(n) != Null
    }

    /** `numOfChildren`: the number of non-null children. */
    function NumOfChildren(n: nat): (k: nat)
      reads this
      requires n in nodes
      ensures k <= 2
      ensures k == 0 <==> IsLeaf(n)
      ensures k == 2 <==> HasLeftChild(n) && HasRightChild(n)
      ensures k == 1 <==> (HasLeftChild(n) != HasRightChild(n))
    {
      (if nodes[n].left == Null then 0 else 1) + (if nodes[n].right == Null then 0 else 1)
    }
  }
}
