# Red-black tree map: insertion and rotations

This project models the core of `RBTree.java`, a red-black tree map with
heap nodes. Each node holds a parent link, two child links, a colour, a key
and a value. The model covers:

- the node constructor;
- the tree's `root` field;
- `put`: a descent from the root, then either an overwrite of an equal key's
  value or a fresh RED leaf hung under the last node visited;
- the empty `fixAfterPut`;
- `leftRotate` and `rightRotate`.

The model is imperative, as the code is.

- `TreeNode.Node` is a class with mutable links, colour and value.
- `RBTrees.RBTree` is a class with the `root` link and two ghost fields:
  - `shape` is a datatype mirror of the links;
  - `Repr` is the set of nodes.
- `Valid` ties the heap to `shape`:
  - every node's parent, left and right links agree with the shape;
  - no node occurs twice;
  - the in-order key sequence strictly increases, which is binary-search-tree order (`Shapes.SearchTreeSorted`).
- Keys are integers. `TreeNode.Compare` plays the role of `compareTo`.
- The reference definition of insertion is `SortedKeys.InsertSorted`, keyed insertion into a sorted sequence. `put` is proved to change the in-order keys exactly as `InsertSorted` does.
- Rotations are specified on shapes by `Shapes.RotLeft` and `Shapes.RotRight`, which follow the diagrams in the source comments.
- The descent is the source's loop, with invariants. It keeps a zipper (`Shapes.Path`) that records where in the shape the loop stands.

Three defects of the code are handled as explicit branches instead of being copied:

- On an empty tree, `put` creates the root and returns. The code creates the root but does not return: it runs the descent with the local `t` still null and dereferences it (`RBTree.java:44-46`, `:55-57`).
- A rotation whose pivot has no parent makes the rotated child the new root. The code dereferences `p.parent` unchecked (`:114`, `:151`).
- A null key (`Option.None`) is rejected before anything changes. On a non-empty tree this is what the code does. On an empty tree the code has already created a root with a null key when it throws (`:44-54`).

## Model

| member | source | states |
|---|---|---|
| TreeNode.Compare | src/main/java/cn/zhanyeye/RBTree.java:57-62 | the comparison is negative, zero or positive exactly when the key is smaller than, equal to or larger than the node's key |
| TreeNode.Node.constructor | src/main/java/cn/zhanyeye/RBTree.java:33-38 | a new node holds the given key, value and parent, is RED and has no children |
| RBTrees.RBTree.constructor | src/main/java/cn/zhanyeye/RBTree.java:19 | a new map has a null root and is a valid, empty tree |
| RBTrees.RBTree.Put | src/main/java/cn/zhanyeye/RBTree.java:42-80 | a null key is rejected with nothing changed; otherwise the in-order keys become `InsertSorted` of the old keys; only the value stored under the key changes and no colour changes; an equal key changes no link, root or node set; a new key adds one fresh RED childless leaf holding the key and value, which becomes the root of an empty tree or hangs on the side the key's order picks, in an empty slot of an old node; every other node keeps its links |
| RBTrees.RBTree.Descend | src/main/java/cn/zhanyeye/RBTree.java:55-66 | the loop ends on the node holding the key (then last visited node = that node, comparison 0) exactly when the key is present; otherwise on the last node visited, whose child slot on the side of the final comparison is empty; all keys before the stop are smaller and all after it larger |
| RBTrees.RBTree.Overwrite | src/main/java/cn/zhanyeye/RBTree.java:62-64 | only the found node's value is written; every node keeps its colour and links, and the tree stays valid |
| RBTrees.RBTree.Attach | src/main/java/cn/zhanyeye/RBTree.java:68-76 | the new RED leaf fills the parent's left slot on a negative final comparison and its right slot otherwise, the slot having been empty; the node set grows by that leaf, the keys become `InsertSorted(old keys, key)`, nodes other than the parent are untouched and the tree stays valid |
| RBTrees.RBTree.ReprClosed | src/main/java/cn/zhanyeye/RBTree.java:18-27 | in a valid tree the root link and every parent, left and right link of a node lead to a node of the tree or to null, so the nodes a rotation writes are nodes of the tree |
| Shapes.LinkedClosed | src/main/java/cn/zhanyeye/RBTree.java:25-27 | a linked subtree's links stay inside the subtree, except its root's parent link, which is the node it hangs from |
| RBTrees.RBTree.Attached | src/main/java/cn/zhanyeye/RBTree.java:70-76 | once the parent's empty slot holds the new leaf, the heap links mirror the shape grown by that leaf, with the same root |
| RBTrees.RBTree.FixAfterPut | src/main/java/cn/zhanyeye/RBTree.java:82-88 | the empty repair leaves a valid tree valid |
| RBTrees.RBTree.LeftRotate | src/main/java/cn/zhanyeye/RBTree.java:90-125 | a null pivot changes nothing; otherwise `p.right` becomes the old `r.left` (whose parent becomes `p`), `r.left` becomes `p`, `p.parent` becomes `r`, `r` takes `p`'s old parent and the child slot that held `p` (or the root), the shape becomes the left rotation at `p`, the in-order keys, colours and values are unchanged and the tree stays valid |
| RBTrees.RBTree.RelinkLeft | src/main/java/cn/zhanyeye/RBTree.java:104-122 | the link writes of `leftRotate`, in source order: the exact new links of `p`, `r`, `r`'s old left child and `p`'s parent (or the root), colours and values untouched, every other node unchanged |
| RBTrees.RBTree.RotatedLeft | src/main/java/cn/zhanyeye/RBTree.java:90-122 | after those writes the heap mirrors the left-rotated shape drawn in the comment, and the in-order keys are the old ones |
| RBTrees.RBTree.LinkedBelowLeft | src/main/java/cn/zhanyeye/RBTree.java:105-122 | below the pivot's parent, `p(a, r(b, c))` relinked as the code does is linked as `r(p(a, b), c)` |
| RBTrees.RBTree.RightRotate | src/main/java/cn/zhanyeye/RBTree.java:127-162 | the mirror of `LeftRotate` with `l = p.left`: `p.left` becomes the old `l.right`, `l.right` becomes `p`, `l` takes `p`'s place; keys, colours and values are unchanged and the tree stays valid |
| RBTrees.RBTree.RelinkRight | src/main/java/cn/zhanyeye/RBTree.java:141-159 | the link writes of `rightRotate`, in source order, with their exact effect and frame |
| RBTrees.RBTree.RotatedRight | src/main/java/cn/zhanyeye/RBTree.java:127-159 | after those writes the heap mirrors the right-rotated shape drawn in the comment |
| RBTrees.RBTree.LinkedBelowRight | src/main/java/cn/zhanyeye/RBTree.java:142-159 | below the pivot's parent, `p(l(a, b), c)` relinked as the code does is linked as `l(a, p(b, c))` |
| RBTrees.RBTree.Reroot | src/main/java/cn/zhanyeye/RBTree.java:112-118 | when the parent's slot that held the pivot (or the root link) now holds the new subtree root, and nothing else above changed, the path above is linked to the new subtree root |
| Shapes.RotLeftPreserves | src/main/java/cn/zhanyeye/RBTree.java:90-98 | the left rotation keeps the node set and the in-order key sequence |
| Shapes.RotRightPreserves | src/main/java/cn/zhanyeye/RBTree.java:127-136 | the right rotation keeps the node set and the in-order key sequence |
| Shapes.RotationsInverse | src/main/java/cn/zhanyeye/RBTree.java:90-136 | a right rotation undoes a left rotation and vice versa, wherever they apply |
| Shapes.RotateInPlace | src/main/java/cn/zhanyeye/RBTree.java:90-98 | rotating a subtree anywhere in the tree keeps the whole tree's keys, nodes and absence of repeated nodes |
| Shapes.PlugLeaf | src/main/java/cn/zhanyeye/RBTree.java:68-76 | hanging a new node in the empty slot where the search for its key ended adds exactly that node, keeps nodes distinct and keys sorted, and places the key as `InsertSorted` does |
| Shapes.PlugLinked | src/main/java/cn/zhanyeye/RBTree.java:26-28 | a whole tree is linked from a null parent with the right root exactly when its path part and its subtree part are linked |
| Shapes.KeyOwner | src/main/java/cn/zhanyeye/RBTree.java:62-63 | in a valid tree a key identifies its node, so the overwrite changes the value of that key only |
| Shapes.SearchTreeSorted | src/main/java/cn/zhanyeye/RBTree.java:55-61 | the order the descent relies on (left subtree smaller, right subtree larger) holds exactly when the in-order keys strictly increase |
| SortedKeys.InsertSortedSpec | src/main/java/cn/zhanyeye/RBTree.java:68-76 | keyed insertion keeps the sequence sorted, its elements are the old ones plus the key, and it grows by one exactly when the key was absent |
| SortedKeys.InsertSortedPresent | src/main/java/cn/zhanyeye/RBTree.java:62-64 | inserting a key that is present leaves the keys unchanged |
| SortedKeys.KeysBetween | src/main/java/cn/zhanyeye/RBTree.java:68-76 | a key above every key before the slot and below every key after it lands in that slot, and the result is sorted |

## Left out

- Lombok annotations and the getters, setters and constructors they generate are not modelled. The fields are plain mutable fields; `setValue` is a field write.
- Generic keys ordered by `Comparable.compareTo` are not modelled: keys are `int` and `Compare` stands for `compareTo`.
- Node keys are `const`: no modelled code writes a key after construction.
- Red-black colouring invariants are not modelled (root BLACK, no red node with a red child, equal black height). `fixAfterPut` is empty in the code, so nothing restores them; the model proves only binary-search-tree order and link consistency.
- RBTrees.RBTree.Put: on an empty tree it stops after creating the root, where the code goes on to dereference null.
- RBTrees.RBTree.Put: a null key on an empty tree leaves the tree empty, where the code has already created a root with a null key before it throws.
- RBTrees.RBTree.Put: the `NullPointerException` is the result `NullKey`; the ghost result `added` names the new leaf only for the specification.
- RBTrees.RBTree.LeftRotate and RBTrees.RBTree.RightRotate: a pivot without a parent makes the rotated child the root, where the code dereferences null. The rotated child must exist (`requires`), as the code dereferences it unchecked.
- The split of `put` into `Descend`, `Overwrite` and `Attach`, and of each rotation into its link writes and a proof, is a matter of proof structure; the statements run in the code's order.
- Deletion, lookup and traversal are not in the code and are not modelled.
