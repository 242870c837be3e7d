/**
  Ghost shapes: a datatype mirror of the heap links of a tree of `Node`s,
  and one-hole contexts (paths from the root down to a subtree). The tree
  class keeps its shape in a ghost field and ties it to the heap with
  `Linked`; everything else here is about shapes alone.
 */
module Shapes {
  import opened TreeNode
  import opened SortedKeys

  /** A binary tree whose nodes are heap objects. */
  datatype Tree<V> = Nil | Br(l: Tree<V>, n: Node<V>, r: Tree<V>)

  /** The way down from the root to a subtree: each step remembers the
      node it passed and the sibling subtree it did not enter. */
  datatype Path<V> =
    | Top
    | GoL(up: Path<V>, n: Node<V>, r: Tree<V>)
    | GoR(l: Tree<V>, n: Node<V>, up: Path<V>)

  function Root<V>(t: Tree<V>): Node?<V>
  {
    if t.Nil? then null else t.n
  }

  function Nodes<V>(t: Tree<V>): set<Node<V>>
  {
    match t
    case Nil => {}
    case Br(l, n, r) => Nodes(l) + {n} + Nodes(r)
  }

  /** The in-order key sequence. */
  function Keys<V>(t: Tree<V>): seq<int>
  {
    match t
    case Nil => []
    case Br(l, n, r) => Keys(l) + [n.key] + Keys(r)
  }

  /** Every node occurs once. */
  predicate Distinct<V>(t: Tree<V>)
  {
    match t
    case Nil => true
    case Br(l, n, r) =>
      Distinct(l) && Distinct(r) && n !in Nodes(l) && n !in Nodes(r) && Nodes(l) !! Nodes(r)
  }

  /** Binary-search-tree order: every key in a left subtree is smaller,
      every key in a right subtree larger. */
  predicate SearchTree<V>(t: Tree<V>)
  {
    match t
    case Nil => true
    case Br(l, n, r) =>
      SearchTree(l) && SearchTree(r) &&
      (forall x :: x in Keys(l) ==> x < n.key) &&
      (forall x :: x in Keys(r) ==> n.key < x)
  }

  /** The heap agrees with the shape: each node's parent link is `up`, and
      its child links point at the roots of its subtrees. */
  ghost predicate Linked<V>(t: Tree<V>, up: Node?<V>)
    reads Nodes(t)
  {
    match t
    case Nil => true
    case Br(l, n, r) =>
      n.parent == up && n.left == Root(l) && n.right == Root(r) &&
      Linked(l, n) && Linked(r, n)
  }

  /** Links that read only nodes nobody wrote are as they were. */
  twostate lemma KeepLinked<V>(t: Tree<V>)
    requires old(allocated(Nodes(t))) && unchanged(Nodes(t))
    ensures forall up :: old(allocated(up)) ==> Linked(t, up) == old(Linked(t, up))
  {
  }

  /** A linked subtree is closed under its links: every link of one of its
      nodes leads to a node of the subtree, to null, or (for the subtree's
      root) to the parent it hangs from. */
  lemma {:induction false} LinkedClosed<V>(t: Tree<V>, up: Node?<V>)
    requires Linked(t, up)
    ensures forall n :: n in Nodes(t) ==>
      (n.parent == up || n.parent in Nodes(t)) &&
      (n.left == null || n.left in Nodes(t)) &&
      (n.right == null || n.right in Nodes(t))
  {
    match t {
      case Nil =>
      case Br(l, n, r) =>
        LinkedClosed(l, n);
        LinkedClosed(r, n);
        assert l.Br? ==> Root(l) in Nodes(l);
        assert r.Br? ==> Root(r) in Nodes(r);
    }
  }

  twostate lemma KeepPath<V>(p: Path<V>)
    requires old(allocated(PathNodes(p))) && unchanged(PathNodes(p))
    ensures forall hole, root :: old(allocated(hole)) && old(allocated(root)) ==>
      LinkedPath(p, hole, root) == old(LinkedPath(p, hole, root))
  {
  }

  /** Rebuild the whole tree from a path and the subtree at its end. */
  function Plug<V>(p: Path<V>, t: Tree<V>): Tree<V>
  {
    match p
    case Top => t
    case GoL(up, n, r) => Plug(up, Br(t, n, r))
    case GoR(l, n, up) => Plug(up, Br(l, n, t))
  }

  /** The node right above the hole (the parent of the subtree's root). */
  function Up<V>(p: Path<V>): Node?<V>
  {
    if p.Top? then null else p.n
  }

  function PathNodes<V>(p: Path<V>): set<Node<V>>
  {
    match p
    case Top => {}
    case GoL(up, n, r) => PathNodes(up) + {n} + Nodes(r)
    case GoR(l, n, up) => PathNodes(up) + Nodes(l) + {n}
  }

  /** In-order keys to the left of the hole. */
  function Before<V>(p: Path<V>): seq<int>
  {
    match p
    case Top => []
    case GoL(up, n, r) => Before(up)
    case GoR(l, n, up) => Before(up) + Keys(l) + [n.key]
  }

  /** In-order keys to the right of the hole. */
  function After<V>(p: Path<V>): seq<int>
  {
    match p
    case Top => []
    case GoL(up, n, r) => [n.key] + Keys(r) + After(up)
    case GoR(l, n, up) => After(up)
  }

  predicate DistinctPath<V>(p: Path<V>)
  {
    match p
    case Top => true
    case GoL(up, n, r) =>
      DistinctPath(up) && Distinct(r) && n !in Nodes(r) && n !in PathNodes(up) && Nodes(r) !! PathNodes(up)
    case GoR(l, n, up) =>
      DistinctPath(up) && Distinct(l) && n !in Nodes(l) && n !in PathNodes(up) && Nodes(l) !! PathNodes(up)
  }

  /** The heap agrees with the path: the child slot above the hole holds
      `hole`, and the sibling subtrees and the nodes further up are linked.
      When the path is empty the hole is the tree's root slot. */
  ghost predicate LinkedPath<V>(p: Path<V>, hole: Node?<V>, root: Node?<V>)
    reads PathNodes(p)
  {
    match p
    case Top => hole == root
    case GoL(up, n, r) =>
      n.left == hole && n.right == Root(r) && n.parent == Up(up) &&
      Linked(r, n) && LinkedPath(up, n, root)
    case GoR(l, n, up) =>
      n.right == hole && n.left == Root(l) && n.parent == Up(up) &&
      Linked(l, n) && LinkedPath(up, n, root)
  }

  /** The path to node `x` within `t`, continuing path `ctx`, and the
      subtree rooted at `x`. */
  function Focus<V>(t: Tree<V>, x: Node<V>, ctx: Path<V>): (z: (Path<V>, Tree<V>))
    requires x in Nodes(t)
    ensures Plug(z.0, z.1) == Plug(ctx, t)
    ensures z.1.Br? && z.1.n == x
    decreases t
  {
    if t.n == x then (ctx, t)
    else if x in Nodes(t.l) then Focus(t.l, x, GoL(ctx, t.n, t.r))
    else Focus(t.r, x, GoR(t.l, t.n, ctx))
  }

  /** Left rotation of a shape, as drawn in the comment on `leftRotate`:
      p(a, r(b, c)) becomes r(p(a, b), c). Any other shape is left alone. */
  function RotLeft<V>(t: Tree<V>): Tree<V>
  {
    match t
    case Br(a, p, Br(b, r, c)) => Br(Br(a, p, b), r, c)
    case _ => t
  }

  /** Right rotation, the mirror: p(l(a, b), c) becomes l(a, p(b, c)). */
  function RotRight<V>(t: Tree<V>): Tree<V>
  {
    match t
    case Br(Br(a, l, b), p, c) => Br(a, l, Br(b, p, c))
    case _ => t
  }

  // ---------------------------------------------------------------------
  // Lemmas

  lemma {:induction false} PlugNodes<V>(p: Path<V>, s: Tree<V>)
    ensures Nodes(Plug(p, s)) == PathNodes(p) + Nodes(s)
  {
    match p
    case Top =>
    case GoL(up, n, r) => PlugNodes(up, Br(s, n, r));
    case GoR(l, n, up) => PlugNodes(up, Br(l, n, s));
  }

  lemma {:induction false} PlugKeys<V>(p: Path<V>, s: Tree<V>)
    ensures Keys(Plug(p, s)) == Before(p) + Keys(s) + After(p)
  {
    match p
    case Top =>
      assert [] + Keys(s) + [] == Keys(s);
    case GoL(up, n, r) =>
      var b, m, a := Before(up), [n.key] + Keys(r), After(up);
      calc {
        Keys(Plug(p, s));
        Keys(Plug(up, Br(s, n, r)));
        { PlugKeys(up, Br(s, n, r)); }
        b + Keys(Br(s, n, r)) + a;
        { assert Keys(Br(s, n, r)) == Keys(s) + m; }
        b + (Keys(s) + m) + a;
        { Concat4(b, Keys(s), m, a); }
        b + Keys(s) + (m + a);
      }
    case GoR(l, n, up) =>
      var b, m, a := Before(up), Keys(l) + [n.key], After(up);
      calc {
        Keys(Plug(p, s));
        Keys(Plug(up, Br(l, n, s)));
        { PlugKeys(up, Br(l, n, s)); }
        b + Keys(Br(l, n, s)) + a;
        b + (m + Keys(s)) + a;
        { Concat4(b, m, Keys(s), a); }
        b + m + Keys(s) + a;
      }
  }

  /** Regrouping a four-part concatenation. */
  lemma Concat4(a: seq<int>, b: seq<int>, c: seq<int>, d: seq<int>)
    ensures a + (b + c) + d == a + b + (c + d)
    ensures a + b + c + d == a + b + (c + d)
    ensures a + b + c + d == a + (b + c + d)
  {
  }

  lemma {:induction false} PlugDistinct<V>(p: Path<V>, s: Tree<V>)
    ensures Distinct(Plug(p, s)) <==>
      DistinctPath(p) && Distinct(s) && PathNodes(p) !! Nodes(s)
  {
    match p
    case Top =>
    case GoL(up, n, r) => PlugDistinct(up, Br(s, n, r));
    case GoR(l, n, up) => PlugDistinct(up, Br(l, n, s));
  }

  /** A whole tree is linked under `root` exactly when the part along the
      path and the subtree at its end are. */
  lemma {:induction false} PlugLinked<V>(p: Path<V>, s: Tree<V>, root: Node?<V>)
    ensures Linked(Plug(p, s), null) && root == Root(Plug(p, s)) <==>
      LinkedPath(p, Root(s), root) && Linked(s, Up(p))
  {
    match p
    case Top =>
    case GoL(up, n, r) => PlugLinked(up, Br(s, n, r), root);
    case GoR(l, n, up) => PlugLinked(up, Br(l, n, s), root);
  }

  /** Binary-search-tree order is the same thing as a strictly increasing
      in-order key sequence. */
  lemma {:induction false} SearchTreeSorted<V>(t: Tree<V>)
    ensures SearchTree(t) <==> Sorted(Keys(t))
  {
    match t
    case Nil =>
    case Br(l, n, r) =>
      SearchTreeSorted(l);
      SearchTreeSorted(r);
      if Sorted(Keys(t)) {
        SortedSplit(Keys(l), n.key, Keys(r));
      }
      if SearchTree(t) {
        SortedJoin(Keys(l), n.key, Keys(r));
      }
  }

  /** Each node's key occurs among the in-order keys. */
  lemma {:induction false} NodeKeys<V>(t: Tree<V>)
    ensures forall m :: m in Nodes(t) ==> m.key in Keys(t)
  {
    match t
    case Nil =>
    case Br(l, n, r) =>
      NodeKeys(l);
      NodeKeys(r);
  }

  /** In a search tree without repeated nodes a key identifies its node. */
  lemma {:induction false} KeyOwner<V>(t: Tree<V>, m: Node<V>)
    requires Distinct(t) && Sorted(Keys(t)) && m in Nodes(t)
    ensures forall m' :: m' in Nodes(t) && m'.key == m.key ==> m' == m
  {
    match t
    case Br(l, n, r) =>
      SortedSplit(Keys(l), n.key, Keys(r));
      NodeKeys(l);
      NodeKeys(r);
      if m in Nodes(l) {
        KeyOwner(l, m);
      } else if m in Nodes(r) {
        KeyOwner(r, m);
      }
  }

  /** Hanging a new node as a leaf in the empty slot where a search for its
      key ended adds exactly that node and puts its key at its sorted place
      among the in-order keys. */
  lemma PlugLeaf<V>(p: Path<V>, e: Node<V>)
    requires Distinct(Plug(p, Nil)) && Sorted(Keys(Plug(p, Nil)))
    requires e !in Nodes(Plug(p, Nil))
    requires forall x :: x in Before(p) ==> x < e.key
    requires forall x :: x in After(p) ==> e.key < x
    ensures Nodes(Plug(p, Br(Nil, e, Nil))) == Nodes(Plug(p, Nil)) + {e}
    ensures Distinct(Plug(p, Br(Nil, e, Nil)))
    ensures Sorted(Keys(Plug(p, Br(Nil, e, Nil))))
    ensures Keys(Plug(p, Br(Nil, e, Nil))) == InsertSorted(Keys(Plug(p, Nil)), e.key)
  {
    LeafNodes(p, e);
    LeafKeys(p, e);
  }

  /** The node part of `PlugLeaf`. */
  lemma LeafNodes<V>(p: Path<V>, e: Node<V>)
    requires Distinct(Plug(p, Nil)) && e !in Nodes(Plug(p, Nil))
    ensures Nodes(Plug(p, Br(Nil, e, Nil))) == Nodes(Plug(p, Nil)) + {e}
    ensures Distinct(Plug(p, Br(Nil, e, Nil)))
  {
    PlugNodes(p, Nil);
    PlugNodes(p, Br(Nil, e, Nil));
    PlugDistinct(p, Nil);
    PlugDistinct(p, Br(Nil, e, Nil));
  }

  /** The key part of `PlugLeaf`. */
  lemma LeafKeys<V>(p: Path<V>, e: Node<V>)
    requires Sorted(Keys(Plug(p, Nil)))
    requires forall x :: x in Before(p) ==> x < e.key
    requires forall x :: x in After(p) ==> e.key < x
    ensures Sorted(Keys(Plug(p, Br(Nil, e, Nil))))
    ensures Keys(Plug(p, Br(Nil, e, Nil))) == InsertSorted(Keys(Plug(p, Nil)), e.key)
  {
    var b, a := Before(p), After(p);
    assert Keys(Plug(p, Br(Nil, e, Nil))) == b + [e.key] + a by {
      PlugKeys(p, Br(Nil, e, Nil));
      assert Keys(Br(Nil, e, Nil)) == [e.key];
    }
    assert Keys(Plug(p, Nil)) == b + a by {
      PlugKeys(p, Nil);
      assert b + Keys<V>(Nil) + a == b + a;
    }
    KeysBetween(b, e.key, a);
  }

  /** A rotation keeps the nodes and their in-order sequence of keys. */
  lemma RotLeftPreserves<V>(t: Tree<V>)
    ensures Nodes(RotLeft(t)) == Nodes(t) && Keys(RotLeft(t)) == Keys(t)
  {
    match t
    case Br(a, p, Br(b, r, c)) =>
      assert Keys(t) == Keys(a) + [p.key] + Keys(b) + [r.key] + Keys(c);
    case _ =>
  }

  lemma RotRightPreserves<V>(t: Tree<V>)
    ensures Nodes(RotRight(t)) == Nodes(t) && Keys(RotRight(t)) == Keys(t)
  {
    match t
    case Br(Br(a, l, b), p, c) =>
      assert Keys(RotRight(t)) == Keys(a) + [l.key] + Keys(b) + [p.key] + Keys(c);
    case _ =>
  }

  /** A rotation neither creates nor removes a repeated node. */
  lemma RotLeftDistinct<V>(t: Tree<V>)
    ensures Distinct(RotLeft(t)) == Distinct(t)
  {
  }

  lemma RotRightDistinct<V>(t: Tree<V>)
    ensures Distinct(RotRight(t)) == Distinct(t)
  {
  }

  /** Each rotation undoes the other. */
  lemma RotationsInverse<V>(t: Tree<V>)
    ensures t.Br? && t.r.Br? ==> RotRight(RotLeft(t)) == t
    ensures t.Br? && t.l.Br? ==> RotLeft(RotRight(t)) == t
  {
  }

  /** Rotating a subtree anywhere in a tree keeps the tree's in-order key
      sequence, its node set and the absence of repeated nodes. */
  lemma RotateInPlace<V>(p: Path<V>, s: Tree<V>, s': Tree<V>)
    requires s' == RotLeft(s) || s' == RotRight(s)
    ensures Keys(Plug(p, s')) == Keys(Plug(p, s))
    ensures Nodes(Plug(p, s')) == Nodes(Plug(p, s))
    ensures Distinct(Plug(p, s')) == Distinct(Plug(p, s))
  {
    RotLeftPreserves(s);
    RotRightPreserves(s);
    RotLeftDistinct(s);
    RotRightDistinct(s);
    PlugKeys(p, s);
    PlugKeys(p, s');
    PlugNodes(p, s);
    PlugNodes(p, s');
    PlugDistinct(p, s);
    PlugDistinct(p, s');
  }
}
