/** The text `toString` of the tree produces: one line per node, in
    preorder, each naming the node by its path from the root. */
module Printing {
  import opened Nodes
  import opened Abstract
  import opened Zipper
  import opened Decimal

  function ColorText(c: Color): string {
    if c == Black then "BLACK" else "RED"
  }

  /** The line `preorder_traversal` writes for a node called `name`. */
  function NodeLine(name: string, c: Color, k: int, v: string): string {
    name + ":" + ColorText(c) + "(" + IntText(k) + "," + v + ")" + "\n"
  }

  /** `preorder_traversal(start, name)` on the node at the root of `t`. */
  function Preorder(t: Tree, name: string): string
    requires t.Node?
    decreases t
  {
    NodeLine(name, t.color, t.key, t.value) +
    (if t.left.Node? then Preorder(t.left, name + "-left") else "") +
    (if t.right.Node? then Preorder(t.right, name + "-right") else "")
  }

  /** `toString` of the tree. */
  function TreeText(t: Tree): string {
    if t.Nil? then "This tree is empty" else Preorder(t, "root")
  }

  // ---------------------------------------------------------------- the lines as items

  /** One line of the text: a node's name, colour and entry. */
  datatype Item = Item(name: string, color: Color, key: int, value: string)

  /** The items of the nodes of `t`, root first, then the left subtree, then
      the right one. */
  function Items(t: Tree, name: string): seq<Item>
    decreases t
  {
    if t.Nil? then []
    else [Item(name, t.color, t.key, t.value)] + Items(t.left, name + "-left") + Items(t.right, name + "-right")
  }

  function Render(items: seq<Item>): string
    decreases |items|
  {
    if items == [] then ""
    else NodeLine(items[0].name, items[0].color, items[0].key, items[0].value) + Render(items[1..])
  }

  lemma {:induction false} RenderAppend(a: seq<Item>, b: seq<Item>)
    ensures Render(a + b) == Render(a) + Render(b)
    decreases |a|
  {
    if a != [] {
      var x := a[0];
      var line := NodeLine(x.name, x.color, x.key, x.value);
      assert (a + b)[0] == x && (a + b)[1..] == a[1..] + b;
      RenderAppend(a[1..], b);
      assert Render(a + b) == line + (Render(a[1..]) + Render(b));
      assert Render(a) == line + Render(a[1..]);
    } else {
      assert a + b == b;
    }
  }

  /** The text is the lines of the items, in order. */
  lemma {:induction false} PreorderItems(t: Tree, name: string)
    requires t.Node?
    ensures Preorder(t, name) == Render(Items(t, name))
    decreases t
  {
    var root := [Item(name, t.color, t.key, t.value)];
    var l, r := Items(t.left, name + "-left"), Items(t.right, name + "-right");
    if t.left.Node? {
      PreorderItems(t.left, name + "-left");
    }
    if t.right.Node? {
      PreorderItems(t.right, name + "-right");
    }
    RenderAppend(root + l, r);
    RenderAppend(root, l);
    assert Render(root) == NodeLine(name, t.color, t.key, t.value) by {
      assert root[1..] == [];
    }
  }

  /** The empty tree prints as a fixed sentence; any other tree prints the
      line of its root first. */
  lemma TreeTextStart(t: Tree)
    ensures t.Nil? ==> TreeText(t) == "This tree is empty"
    ensures t.Node? ==> TreeText(t)[..|NodeLine("root", t.color, t.key, t.value)|] ==
                        NodeLine("root", t.color, t.key, t.value)
  {
  }

  // ---------------------------------------------------------------- entries

  /** In an ordered tree the items list every entry exactly once. */
  lemma ItemsEntries(t: Tree, name: string)
    requires Bst(t)
    ensures (forall i | 0 <= i < |Items(t, name)| ::
               Items(t, name)[i].key in Content(t) && Content(t)[Items(t, name)[i].key] == Items(t, name)[i].value) &&
            (forall k | k in Content(t) :: exists i | 0 <= i < |Items(t, name)| :: Items(t, name)[i].key == k) &&
            (forall i, j | 0 <= i < j < |Items(t, name)| :: Items(t, name)[i].key != Items(t, name)[j].key)
  {
    ItemsValues(t, name);
    ItemsCover(t, name);
    ItemsKeysDistinct(t, name);
  }

  /** Each item holds an entry of the tree. */
  lemma {:induction false} ItemsValues(t: Tree, name: string)
    requires Bst(t)
    ensures forall i | 0 <= i < |Items(t, name)| ::
              Items(t, name)[i].key in Content(t) && Content(t)[Items(t, name)[i].key] == Items(t, name)[i].value
    decreases t
  {
    if t.Node? {
      var items := Items(t, name);
      var l, r := Items(t.left, name + "-left"), Items(t.right, name + "-right");
      ItemsValues(t.left, name + "-left");
      ItemsValues(t.right, name + "-right");
      ItemKeys(t.left, name + "-left");
      ItemKeys(t.right, name + "-right");
      ContentKeys(t.left);
      ContentKeys(t.right);
      forall i | 0 <= i < |items|
        ensures items[i].key in Content(t) && Content(t)[items[i].key] == items[i].value
      {
        var k := items[i].key;
        if i == 0 {
          assert items[0] == Item(name, t.color, t.key, t.value);
        } else if i <= |l| {
          assert items[i] == l[i - 1];
          assert k in Keys(t.left) && k !in Keys(t.right) && k != t.key;
          assert Content(t)[k] == Content(t.left)[k];
          assert Content(t.left)[k] == l[i - 1].value;
        } else {
          assert items[i] == r[i - 1 - |l|];
          assert k in Keys(t.right) && k != t.key;
          assert Content(t)[k] == Content(t.right)[k];
          assert Content(t.right)[k] == r[i - 1 - |l|].value;
        }
      }
    }
  }

  /** Each entry of the tree has an item. */
  lemma {:induction false} ItemsCover(t: Tree, name: string)
    ensures forall k | k in Content(t) :: exists i | 0 <= i < |Items(t, name)| :: Items(t, name)[i].key == k
    decreases t
  {
    if t.Node? {
      var items := Items(t, name);
      var l, r := Items(t.left, name + "-left"), Items(t.right, name + "-right");
      ItemsCover(t.left, name + "-left");
      ItemsCover(t.right, name + "-right");
      forall k | k in Content(t)
        ensures exists i | 0 <= i < |Items(t, name)| :: Items(t, name)[i].key == k
      {
        if k == t.key {
          assert items[0].key == k;
        } else if k in Content(t.left) {
          var i :| 0 <= i < |l| && l[i].key == k;
          assert items[i + 1] == l[i];
        } else {
          assert k in Content(t.left) + Content(t.right);
          var i :| 0 <= i < |r| && r[i].key == k;
          assert items[i + 1 + |l|] == r[i];
        }
      }
      assert forall k | k in Content(t) :: exists i | 0 <= i < |Items(t, name)| :: Items(t, name)[i].key == k;
    } else {
      assert Content(t) == map[];
    }
  }

  /** In an ordered tree no key has two items. */
  lemma {:induction false} ItemsKeysDistinct(t: Tree, name: string)
    requires Bst(t)
    ensures forall i, j | 0 <= i < j < |Items(t, name)| :: Items(t, name)[i].key != Items(t, name)[j].key
    decreases t
  {
    if t.Node? {
      var items := Items(t, name);
      var l, r := Items(t.left, name + "-left"), Items(t.right, name + "-right");
      ItemsKeysDistinct(t.left, name + "-left");
      ItemsKeysDistinct(t.right, name + "-right");
      ItemKeys(t.left, name + "-left");
      ItemKeys(t.right, name + "-right");
      forall i, j | 0 <= i < j < |items|
        ensures items[i].key != items[j].key
      {
        if i == 0 {
          if j <= |l| {
            assert items[j] == l[j - 1];
          } else {
            assert items[j] == r[j - 1 - |l|];
          }
        } else if j <= |l| {
          assert items[i] == l[i - 1] && items[j] == l[j - 1];
        } else if i > |l| {
          assert items[i] == r[i - 1 - |l|] && items[j] == r[j - 1 - |l|];
        } else {
          assert items[i] == l[i - 1] && items[j] == r[j - 1 - |l|];
          assert items[i].key in Keys(t.left) && items[j].key in Keys(t.right);
        }
      }
    }
  }

  /** The keys of the items are the keys of the tree. */
  lemma {:induction false} ItemKeys(t: Tree, name: string)
    ensures forall i | 0 <= i < |Items(t, name)| :: Items(t, name)[i].key in Keys(t)
    decreases t
  {
    if t.Node? {
      var items := Items(t, name);
      var l, r := Items(t.left, name + "-left"), Items(t.right, name + "-right");
      ItemKeys(t.left, name + "-left");
      ItemKeys(t.right, name + "-right");
      forall i | 0 <= i < |items|
        ensures items[i].key in Keys(t)
      {
        if 0 < i <= |l| {
          assert items[i] == l[i - 1];
        } else if i > |l| {
          assert items[i] == r[i - 1 - |l|];
        }
      }
    }
  }

  // ---------------------------------------------------------------- names

  predicate Prefix(p: string, s: string) {
    |p| <= |s| && s[..|p|] == p
  }

  /** Every name extends `name`, and only the root's is `name` itself. */
  lemma {:induction false} LabelsExtend(t: Tree, name: string)
    ensures forall i | 0 <= i < |Items(t, name)| :: Prefix(name, Items(t, name)[i].name) && (i > 0 ==> |Items(t, name)[i].name| > |name|)
    decreases t
  {
    if t.Node? {
      var items := Items(t, name);
      var nl, nr := name + "-left", name + "-right";
      var l, r := Items(t.left, nl), Items(t.right, nr);
      LabelsExtend(t.left, nl);
      LabelsExtend(t.right, nr);
      forall i | 0 <= i < |items|
        ensures Prefix(name, items[i].name) && (i > 0 ==> |items[i].name| > |name|)
      {
        if 0 < i <= |l| {
          assert items[i] == l[i - 1];
          assert nl[..|name|] == name;
          PrefixTrans(name, nl, items[i].name);
        } else if i > |l| {
          assert items[i] == r[i - 1 - |l|];
          assert nr[..|name|] == name;
          PrefixTrans(name, nr, items[i].name);
        }
      }
    }
  }

  lemma PrefixTrans(a: string, b: string, c: string)
    requires Prefix(a, b) && Prefix(b, c)
    ensures Prefix(a, c)
  {
    assert c[..|a|] == c[..|b|][..|a|];
  }

  /** No two nodes get the same name. */
  lemma {:induction false} LabelsDistinct(t: Tree, name: string)
    ensures forall i, j | 0 <= i < j < |Items(t, name)| :: Items(t, name)[i].name != Items(t, name)[j].name
    decreases t
  {
    if t.Node? {
      var items := Items(t, name);
      var nl, nr := name + "-left", name + "-right";
      var l, r := Items(t.left, nl), Items(t.right, nr);
      LabelsDistinct(t.left, nl);
      LabelsDistinct(t.right, nr);
      LabelsExtend(t, name);
      LabelsExtend(t.left, nl);
      LabelsExtend(t.right, nr);
      forall i, j | 0 <= i < j < |items|
        ensures items[i].name != items[j].name
      {
        if i == 0 {
          assert |items[j].name| > |name|;
        } else if j <= |l| {
          assert items[i] == l[i - 1] && items[j] == l[j - 1];
        } else if i > |l| {
          assert items[i] == r[i - 1 - |l|] && items[j] == r[j - 1 - |l|];
        } else {
          var a, b := items[i].name, items[j].name;
          assert items[i] == l[i - 1] && items[j] == r[j - 1 - |l|];
          assert Prefix(nl, a) && Prefix(nr, b);
          assert a[|name| + 1] == nl[|name| + 1] == 'l';
          assert b[|name| + 1] == nr[|name| + 1] == 'r';
        }
      }
    }
  }
}
