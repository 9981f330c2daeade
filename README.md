# Red-black tree from `int` keys to `String` values, verified in Dafny

This project models a small Java library: a pointer-based red-black tree
(`RedBlackTree`) built from mutable node objects (`RedBlackNode`), each
holding a key/value pair (`Element`).

The node objects become the slots of an arena, a class `Nodes.NodeHeap`
whose field `nodes: map<nat, NodeRec>` maps a slot id to the node's fields:
key, value, left, right, parent, side flag (`sideOfChild`) and colour. A Java
reference becomes a `Ptr` (`Null` or `Ref(id)`). Every setter of
`RedBlackNode` is a `NodeHeap` method that changes exactly the records the
Java setter writes. For example, `setLeftChild` also updates the child's
parent link and side flag.

The tree is the class `Trees.RedBlackTree`. It has the same fields as the
Java class: `root` and the substitute policy
`chooseSubstituteInLeftSubtreeForDelete`. It also has two ghost fields:

- `T`, the abstract tree the arena forms (`Abstract.Tree`, with each node's
  slot id, colour, key and value);
- `rootSide`, the side flag the root node still carries from before a
  rotation made it the root. The Java code never resets it.

The invariant `Valid()` has two parts:

- `Linked()`: the arena represents `T`. Every child link, parent link and
  side flag agrees with the shape of `T`, and no slot is used twice.
- `RedBlack(T)`: keys are in binary-search order, no red node has a red
  child, every path has the same black height, and the root is black.

`Entries()` is the key-to-value map the tree stands for. Each public
operation states its effect on `Entries()` and is proved to keep `Valid()`.

The proofs work on the abstract tree through a zipper (`Abstract.Ctx`, a
position in a tree). They are split into modules:

- `Zipper`: plugging a subtree into a position;
- `Representation`: arena ↔ tree;
- `Rotation`;
- `InsertFix`: the colour cases of `recolorForInsertion`;
- `DeleteFix`: the four cases of `recolorForDelete` and the three removal
  branches;
- `Removal`: the arena side of deletion.

Two questions the comments of `remove` put to the reader are answered by
proofs. The one-child branch (RedBlackTree.java:276) asks why the child
must be red under a black parent: in a red-black tree a node with one child
is black and that child is a red leaf (`DeleteFix.Unlink`,
`Removal.OneChildFacts`), so dropping the child's subtrees loses nothing.
The two-children branch (RedBlackTree.java:322) asks why the substitute's
child on the policy side is the one to keep: the substitute ends the search
spine, so it has no child on the other side (`FindMin`, `FindMax` and
`RemoveTwoChildren`). Separately, the code never resets the side flag of a
node that a rotation makes the root; the model carries that flag as
`rootSide`, and no operation reads it while the node has no parent.

`Decimal` renders an `int` the way Java string concatenation does.
`Printing` gives the text `toString` produces. `Elements` is `Element.java`.

## Model

| member | source | states |
|---|---|---|
| Nodes.NodeHeap.constructor | RedBlackTree.java:12-16 | the heap a new tree starts with: no node exists yet |
| Nodes.NodeHeap.NewNode | RedBlackNode.java:8-20 | a fresh slot holding the key, value and children, with no parent, no side and colour red (the default value of the colour field), and every other slot unchanged |
| Nodes.NodeHeap.SetColor | RedBlackNode.java:27 | only the colour of that node changes |
| Nodes.NodeHeap.GetColor | RedBlackNode.java:26 | the colour is red exactly when `isRed` holds and black exactly when `isBlack` holds |
| Nodes.NodeHeap.IsRed | RedBlackNode.java:30 | holds exactly when `isBlack` does not: the two never hold together and one always holds |
| Nodes.NodeHeap.SetRedColor | RedBlackNode.java:33 | only the colour changes, and `isRed` holds afterwards |
| Nodes.NodeHeap.SetBlackColor | RedBlackNode.java:34 | only the colour changes, and `isBlack` holds afterwards |
| Nodes.NodeHeap.GetSibling | RedBlackNode.java:40-50 | null without a parent or with an unset side; otherwise the parent's child on the other side |
| Nodes.NodeHeap.SetLeftChild | RedBlackNode.java:53-60 | `left := c`; a non-null `c` gets this node as parent and the left side flag; nothing else changes, so the old child keeps its parent link |
| Nodes.NodeHeap.SetRightChild | RedBlackNode.java:62-68 | the mirror image of `SetLeftChild` |
| Nodes.NodeHeap.SetParent | RedBlackNode.java:71-73 | only the parent link changes |
| Nodes.NodeHeap.CloneElementAndColor | RedBlackNode.java:76-80 | copies key, value and colour of `src`; all else unchanged |
| Nodes.NodeHeap.CloneElement | RedBlackNode.java:82-85 | copies key and value of `src`, keeps the colour |
| Nodes.NodeHeap.SetAsLeftChild | RedBlackNode.java:88 | only the side flag changes, and `isLeftChild` holds afterwards |
| Nodes.NodeHeap.SetAsRightChild | RedBlackNode.java:89 | only the side flag changes, and `isRightChild` holds afterwards |
| Nodes.NodeHeap.IsLeftChild | RedBlackNode.java:91 | a node marked as a left child is not marked as a right child |
| Nodes.NodeHeap.IsLeaf | RedBlackNode.java:94 | a leaf is a node with neither `hasLeftChild` nor `hasRightChild` |
| Nodes.NodeHeap.HasSibling | RedBlackNode.java:99 | a node with a sibling has a parent and a set side flag |
| Nodes.NodeHeap.NumOfChildren | RedBlackNode.java:94-103 | at most 2; 0 exactly for a leaf, 2 exactly with both children, 1 exactly with one |
| Nodes.NodeHeap.SetValue | RedBlackTree.java:100 | only the value of that node changes (`getElement().setValue`) |
| Elements.Element.constructor | Element.java:9-12 | key and value are the arguments |
| Elements.Element.GetKey | Element.java:14-16 | the key is the number `toString` prints after the bracket |
| Elements.Element.GetValue | Element.java:22-24 | the value is the text `toString` prints between the separator and the closing bracket |
| Elements.Element.SetKey | Element.java:18-20 | the key changes, the value does not |
| Elements.Element.SetValue | Element.java:26-28 | the value changes, the key does not |
| Elements.Element.ToString | Element.java:30-33 | the text is `(`, the decimal key, ` , `, the value and `)`; and it determines the element: any key and value rendering to the same text are this key and value |
| Elements.ElementTextKey | Element.java:32 | the layout of the text: bracket, the key's digits, the first blank right after them, the value, the closing bracket |
| Elements.ElementTextUnique | Element.java:32 | different elements render to different texts |
| Decimal.IntTextRoundTrip | Element.java:32 | reading back the decimal text of an int gives the int |
| Decimal.IntTextInjective | Element.java:32 | different ints have different decimal texts |
| Trees.RedBlackTree.constructor | RedBlackTree.java:12-16 | an empty valid tree with the left-subtree substitute policy |
| Trees.RedBlackTree.NodeQueries | RedBlackNode.java:26-99 | on a node of the tree: `getColor`, `isRed` and `isBlack` give its colour; `isLeaf`, `hasLeftChild` and `hasRightChild` its children; `isLeftChild` and `isRightChild`, below a parent, the side it hangs on; `hasSibling` holds exactly when it has a parent and the parent's other child exists |
| Trees.RedBlackTree.Paint | RedBlackTree.java:148-464 | every `setRedColor`, `setBlackColor` and `setColor` call of the tree: the tree becomes the same tree with that node's colour changed; links, root, order and map are kept |
| Trees.RedBlackTree.FindNode | RedBlackTree.java:28-48 | the descent stops at the node with the key, and reaches null exactly when the key is absent |
| Trees.RedBlackTree.Find | RedBlackTree.java:18-26 | the value stored under the key, or `None` when the key is absent |
| Trees.RedBlackTree.FindMin | RedBlackTree.java:50-61 | null for a null start; otherwise the node reached by left links, which has no left child and holds the least key of the subtree |
| Trees.RedBlackTree.FindMax | RedBlackTree.java:63-75 | the mirror image: no right child, the greatest key |
| Trees.RedBlackTree.Insert | RedBlackTree.java:77-117 | the map gains `key ↦ value` (a present key is overwritten) and the tree stays valid; into an empty tree it makes a single black root; a present key leaves the shape unchanged |
| Trees.RedBlackTree.UpdateValue | RedBlackTree.java:98-101 | only that node's value changes: same shape and colours, the map updated at its key |
| Trees.RedBlackTree.InsertLeaf | RedBlackTree.java:105-116 | attaching a red leaf for an absent key and recolouring adds exactly that entry and leaves a valid tree |
| Trees.RedBlackTree.LinkLeaf | RedBlackTree.java:106-113 | a fresh red node becomes the right child of `current` for a larger key and the left child otherwise, with consistent links |
| Trees.RedBlackTree.RecolorForInsertion | RedBlackTree.java:124-176 | from a red node whose only fault may be a red parent, it makes a valid tree and keeps the map |
| Trees.RedBlackTree.RecolorWithUncle | RedBlackTree.java:158-168 | with a red uncle: recolours, and asks for the check at the grandparent exactly when the grandparent is not the root |
| Trees.RedBlackTree.RestructureForInsertion | RedBlackTree.java:143-157 | with a black or missing uncle: recolouring and rotating leaves a valid tree with the same map |
| Trees.RedBlackTree.PaintLine | RedBlackTree.java:147-150 | LL/RR case: the position of the new node becomes the same one with the parent black and the grandparent red, after which the single rotation gives a red-black tree |
| Trees.RedBlackTree.PaintZigzag | RedBlackTree.java:151-155 | LR/RL case: the grandparent turns red, the parent stays red and the new node turns black, with nothing else changed, after which the double rotation gives a red-black tree |
| Trees.RedBlackTree.FindRotationType | RedBlackTree.java:231-244 | each code corresponds exactly to a pair of side flags (child, parent); -1 exactly when one flag is unset |
| Trees.RedBlackTree.RotateWithType | RedBlackTree.java:178-194 | LL/RR rotate at the grandparent; LR/RL rotate at the parent and then at the grandparent; the result is the rotated tree, with order and map kept |
| Trees.RedBlackTree.RotateWithLeftChild | RedBlackTree.java:196-211 | the tree becomes its rotation at `node`; links stay consistent, `root` changes only when `node` was the root, and order and map are kept |
| Trees.RedBlackTree.RelinkLeftRotation | RedBlackTree.java:196-211 | the arena writes of the rotation yield an arena for the rotated tree |
| Trees.RedBlackTree.RotateWithRightChild | RedBlackTree.java:213-229 | the mirror image of `RotateWithLeftChild` |
| Trees.RedBlackTree.RelinkRightRotation | RedBlackTree.java:213-229 | the mirror image of `RelinkLeftRotation` |
| Trees.RedBlackTree.Delete | RedBlackTree.java:249-251 | the map loses the key and the tree stays valid |
| Trees.RedBlackTree.Remove | RedBlackTree.java:258-346 | returns the old value of the key, or `None` and leaves the tree untouched when the key is absent; the map loses the key and the tree stays valid, under either substitute policy |
| Trees.RedBlackTree.RemoveOneChild | RedBlackTree.java:274-289 | at the same position, the node becomes a leaf holding the entry and colour of its only child, a red leaf, which is unlinked; `x` is the node itself; the black flag is the node's colour; the map loses the key |
| Trees.RedBlackTree.CutChild | RedBlackTree.java:278-288 | the arena writes of the one-child branch yield the arena of the tree in which the node is replaced by a leaf holding the child's entry and colour; the black flag is the node's colour |
| Trees.RedBlackTree.Detach | RedBlackTree.java:280-285 | clears the one non-null child link of the node and returns that child |
| Trees.RedBlackTree.RemoveLeaf | RedBlackTree.java:290-303 | below a parent, the leaf's position becomes empty, `x` is null and the black flag is the leaf's colour; at the root, the tree and `root` become empty and the flag stays false; the map loses the key |
| Trees.RedBlackTree.RemoveTwoChildren | RedBlackTree.java:304-339 | the substitute is the end of the spine of the left subtree (holding its greatest key) or of the right subtree (holding its least key), as the policy chooses, and has no child on the other side; the node takes its entry, the substitute's remaining child takes its place, and the black flag is the substitute's colour; the map loses the key |
| Trees.RedBlackTree.Substitute | RedBlackTree.java:316-337 | the substitute's entry is copied in, the substitute's remaining child takes its position (`SubstCtx`), `x` is that child, and the black flag is the substitute's colour |
| Trees.RedBlackTree.Unhook | RedBlackTree.java:317-337 | the arena writes of the substitution represent the tree without the substitute |
| Trees.RedBlackTree.RecolorForDelete | RedBlackTree.java:357-465 | from a tree one black short at `child`, it gives a valid tree with the same map |
| Trees.RedBlackTree.DeleteStep | RedBlackTree.java:362-462 | one pass of the loop: it either finishes with a tree whose only possible fault is a red root, or moves the deficit to a position closer to the root or to a red node |
| Trees.RedBlackTree.SiblingStep | RedBlackTree.java:364-375 | finds which side `x` is on and reaches a black sibling: the position of `x` is the case-1 rotated one exactly when the sibling was red, and unchanged otherwise |
| Trees.RedBlackTree.SiblingRedCase | RedBlackTree.java:369-375 | case 1: sibling black, parent red, rotation at the parent; the deficit is kept with a black sibling |
| Trees.RedBlackTree.BlackNephewsCase | RedBlackTree.java:379-387 | case 2: the parent's subtree is the same with only the sibling turned red, and the deficit moves to the parent, which becomes `x` |
| Trees.RedBlackTree.RestructureForDelete | RedBlackTree.java:388-414 | cases 3 and 4 end with a tree whose only possible fault is a red root, with the same map |
| Trees.RedBlackTree.NearRedCase | RedBlackTree.java:393-403 | case 3: a rotation at the sibling makes the far nephew red |
| Trees.RedBlackTree.FarRedCase | RedBlackTree.java:407-413 | case 4: recolouring and a rotation at the parent remove the deficit |
| Trees.RedBlackTree.BlackenLast | RedBlackTree.java:463-464 | blackening the last `x` (a red node or the root) leaves a valid tree |
| Trees.RedBlackTree.Rotate | RedBlackTree.java:373-457 | the rotations of `recolorForDelete` (lines 373, 401, 411, 424, 449 and 457) in either direction: the rotated tree, with order and map kept |
| Trees.RedBlackTree.ToString | RedBlackTree.java:470-478 | the text of the tree the arena forms: `This tree is empty` for no root, otherwise the preorder listing from `root` |
| Trees.RedBlackTree.PreorderTraversal | RedBlackTree.java:480-498 | walking the arena gives the preorder listing of the subtree at `start` |
| Printing.PreorderItems | RedBlackTree.java:480-498 | the listing is one line per node: the node, then the left subtree, then the right one |
| Printing.ItemsEntries | RedBlackTree.java:480-498 | in an ordered tree the lines list every entry exactly once, each with its value |
| Printing.LabelsDistinct | RedBlackTree.java:480-498 | no two lines carry the same node name |
| Printing.LabelsExtend | RedBlackTree.java:480-498 | every name starts with the name of the subtree root, and only the root's is that name itself |
| Printing.TreeTextStart | RedBlackTree.java:470-478 | the empty tree prints as the fixed sentence, and any other tree prints its root line first, named `root` |
| Rotation.RotInOrder | RedBlackTree.java:196-229 | a rotation keeps the in-order key sequence of the subtree |
| Rotation.PlugInOrder | RedBlackTree.java:196-229 | subtrees with the same in-order sequence give whole trees with the same in-order sequence |
| Rotation.RotPlugInOrder | RedBlackTree.java:196-229 | a rotation anywhere in the tree keeps the in-order key sequence of the whole tree |
| Rotation.RotSame | RedBlackTree.java:196-229 | a rotation keeps the node set and the key set, and keeps uniqueness, order and the map |
| Rotation.RotatedPlug | RedBlackTree.java:196-229 | rotating a subtree in place keeps order and map of the whole tree, and changes the root exactly when the pivot was the root |
| Rotation.RotateRep | RedBlackTree.java:196-229 | the records a rotation reads are there, and the rotated arena represents the rotated tree |
| InsertFix.Attached | RedBlackTree.java:105-113 | a red leaf at the descent's position keeps order and adds exactly its entry |
| InsertFix.InsParentBlack | RedBlackTree.java:137-139 | a black parent means nothing is left to repair |
| InsertFix.InsRedUncle | RedBlackTree.java:158-168 | recolouring under a red uncle moves the fault to the grandparent, or ends with a red-black tree once the root is blackened |
| InsertFix.InsLine | RedBlackTree.java:147-157 | LL/RR: the recolouring and single rotation give a red-black tree |
| InsertFix.InsZigzag | RedBlackTree.java:151-157 | LR/RL: the recolouring and double rotation give a red-black tree |
| DeleteFix.DelCase1 | RedBlackTree.java:369-375 | case 1 keeps the deficit invariant and leaves a black sibling |
| DeleteFix.DelCase2 | RedBlackTree.java:379-387 | case 2 moves the deficit invariant to the parent |
| DeleteFix.DelCase3 | RedBlackTree.java:393-403 | case 3 keeps the invariant and makes the far nephew red |
| DeleteFix.DelCase4 | RedBlackTree.java:407-413 | case 4 gives a tree whose only possible fault is a red root |
| DeleteFix.DelDone | RedBlackTree.java:463-464 | blackening `x` when the loop ends gives a red-black tree |
| DeleteFix.Unlink | RedBlackTree.java:274-303 | in a red-black tree a node missing one child is red with no children, or black with a red leaf child; removing it leaves the deficit invariant when it was black |
| DeleteFix.RemoveLeafFacts | RedBlackTree.java:290-303 | unlinking a leaf keeps order and removes exactly its entry |
| DeleteFix.SubstituteFacts | RedBlackTree.java:304-339 | copying the extreme entry in and unlinking its node keeps order and removes exactly the node's entry |
| Removal.OneChildFacts | RedBlackTree.java:274-289 | the one-child branch: node black, order kept, entry removed, one black short at the node |
| Removal.SubstColors | RedBlackTree.java:304-339 | a black substitute leaves a deficit at its child; a red one leaves a red-black tree |

## Left out

- The console messages of `remove` (RedBlackTree.java:263, 328) are not modelled. The not-found path returns `None`. The `rntd == null` branch cannot be reached, because a node with two children has a left maximum and a right minimum.
- `TreeInterface` is not part of this model. It is a Java interface declaration.
- The logarithmic height bound is not stated.
- The colour constants 0 and 1 become the datatype `Color`. `setColor` is only called with the colour of another node.
- `Element` objects are not modelled separately inside the tree. Each node record holds its key and value directly, because the tree never shares an `Element` between nodes. `Element` on its own is `Elements.Element`.
- Node objects are arena slots rather than heap references. Object identity is the slot id.
- The mirrored halves of `recolorForDelete` (lines 364-415 and 416-461) are one body over a direction `d`.
- `Trees.RedBlackTree.Rotate`, `Unhook`, `CutChild`, `Detach`, `LinkLeaf`, `PaintLine`, `PaintZigzag`, `RecolorWithUncle`, `RestructureForInsertion`, `SiblingStep`, `DeleteStep` and the other case methods split long Java bodies into steps. Their statements run in the Java order.
- Java `int` keys are unbounded integers. The code only compares keys and prints them, so wrap-around never arises.
- `null` `String` values are not modelled: a value is always a string.
- Trees.RedBlackTree.ToString: requires the arena to represent the ghost tree. It says nothing about a corrupted structure.
