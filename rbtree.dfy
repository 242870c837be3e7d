/**
  The red-black tree map: a root link, `put`, the empty `fixAfterPut` and
  the two rotations. The ghost field `shape` mirrors the heap links;
  `Valid` ties them together and states binary-search-tree order.
 */
module RBTrees {
  import opened TreeNode
  import opened SortedKeys
  import opened Shapes

  /** A key that may be null. */
  datatype Option<T> = None | Some(value: T)

  /** How a `Put` ends: normally, or by rejecting a null key. */
  datatype PutResult = Stored | NullKey

  /** A rotation site: the subtree rooted at the pivot and the path above it. */
  datatype Site<V> = Site(path: Path<V>, sub: Tree<V>)

  /** The path above a rotated subtree, the subtree's old root and its new root. */
  datatype Slot<V> = Slot(path: Path<V>, was: Node<V>, now: Node<V>)

  class RBTree<V> {
    var root: Node?<V>
    ghost var shape: Tree<V>
    ghost var Repr: set<Node<V>>

    /** The links form a tree with exactly the nodes of `Repr`, mirrored by
        `shape`, and its in-order keys strictly increase. */
    ghost predicate Valid()
      reads this, Repr
    {
      Repr == Nodes(shape) && Distinct(shape) && Sorted(Keys(shape)) &&
      root == Root(shape) && Linked(shape, null)
    }

    /** A new map is empty. */
    constructor ()
      ensures Valid() && shape == Nil && Repr == {} && root == null
    {
      root := null;
      shape := Nil;
      Repr := {};
    }

    /** Store `value` under `key`. An existing key has its value replaced
        in place; a new key gets a fresh RED leaf under the last node the
        descent visited. A null key is rejected before anything changes. */
    method Put(key: Option<int>, value: V) returns (result: PutResult, ghost added: Node?<V>)
      requires Valid()
      modifies this, Repr
      ensures Valid()
      ensures result == NullKey <==> key.None?
      ensures key.None? ==> shape == old(shape) && Repr == old(Repr) && unchanged(Repr)
      // keys: the in-order key sequence gains the key at its sorted place
      ensures key.Some? ==> Keys(shape) == InsertSorted(old(Keys(shape)), key.value)
      // values: only the entry for the key changes
      ensures key.Some? ==> forall n :: n in old(Repr) ==>
        n.value == (if n.key == key.value then value else old(n.value))
      // colours never change
      ensures forall n :: n in old(Repr) ==> n.color == old(n.color)
      // overwrite: no link, no root, no node set changes
      ensures key.Some? && key.value in old(Keys(shape)) ==>
        shape == old(shape) && Repr == old(Repr) && root == old(root) &&
        forall n :: n in Repr ==>
          n.left == old(n.left) && n.right == old(n.right) && n.parent == old(n.parent)
      // insertion: one fresh RED leaf, hung under a node of the old tree
      ensures key.Some? && key.value !in old(Keys(shape)) ==>
        added != null && fresh(added) && Repr == old(Repr) + {added} &&
        added.key == key.value && added.value == value && added.color == RED &&
        added.left == null && added.right == null &&
        (added.parent == null ==> old(root) == null && root == added) &&
        (added.parent != null ==> (root == old(root) && added.parent in old(Repr) &&
          var g := added.parent;
          if key.value < g.key
          then (old(g.left) == null && g.left == added && g.right == old(g.right))
          else (old(g.right) == null && g.right == added && g.left == old(g.left)))) &&
        forall n :: n in old(Repr) && n != added.parent ==>
          n.left == old(n.left) && n.right == old(n.right) && n.parent == old(n.parent)
    {
      if key.None? {
        return NullKey, null;
      }
      var k := key.value;
      var t := root;
      if t == null {
        root := new Node(k, value, null);
        shape := Br(Nil, root, Nil);
        Repr := {root};
        return Stored, root;
      }

      var parent, cmp;
      ghost var path, sub;
      t, parent, cmp, path, sub := Descend(k);

      if t != null {
        // equal key: overwrite the value in place, nothing else changes
        assert t in Repr && k in Keys(shape);
        Overwrite(t, value, path, sub);
        assert InsertSorted(Keys(shape), k) == Keys(shape) by {
          InsertSortedPresent(Keys(shape), k);
        }
        assert forall n :: n in Repr && n.key == k ==> n == t by {
          KeyOwner(shape, t);
        }
        return Stored, null;
      }

      // the key is absent: attach a new RED leaf where the descent ended
      assert forall n :: n in Repr ==> n.key != k by {
        NodeKeys(shape);
      }
      var e := Attach(k, value, parent, cmp, path);
      added := e;
      FixAfterPut(e);
      result := Stored;
    }

    /** The end of `put` for a key already present: only the value of the
        node holding it is written. */
    method Overwrite(t: Node<V>, value: V, ghost path: Path<V>, ghost sub: Tree<V>)
      requires Valid() && Plug(path, sub) == shape && t == Root(sub)
      requires LinkedPath(path, t, root) && Linked(sub, Up(path))
      modifies t
      ensures Valid() && t.value == value
      ensures forall n :: n in Repr ==>
        n.value == (if n == t then value else old(n.value)) && n.color == old(n.color) &&
        n.left == old(n.left) && n.right == old(n.right) && n.parent == old(n.parent)
    {
      assert t == sub.n && DistinctPath(path) && Distinct(sub) &&
        PathNodes(path) !! Nodes(sub) by {
        PlugDistinct(path, sub);
      }
      assert Linked(sub.l, t) && Linked(sub.r, t);
      t.value := value;
      assert LinkedPath(path, t, root) && Linked(sub, Up(path));
      assert Linked(shape, null) by {
        PlugLinked(path, sub, root);
      }
    }

    /** The end of `put` for an absent key: a new RED leaf hangs under
        `parent`, on the side the last comparison chose, in the empty slot
        where the descent stopped. */
    method Attach(k: int, value: V, parent: Node<V>, cmp: int, ghost path: Path<V>)
      returns (e: Node<V>)
      requires Valid() && Plug(path, Nil) == shape
      requires LinkedPath(path, null, root) && parent == Up(path)
      requires cmp == Compare(k, parent.key) && (path.GoL? <==> cmp < 0)
      requires forall x :: x in Before(path) ==> x < k
      requires forall x :: x in After(path) ==> k < x
      modifies this, parent
      ensures Valid() && fresh(e) && Repr == old(Repr) + {e} && root == old(root)
      ensures shape == Plug(path, Br(Nil, e, Nil))
      ensures Keys(shape) == InsertSorted(old(Keys(shape)), k)
      ensures e.key == k && e.value == value && e.color == RED
      ensures e.left == null && e.right == null && e.parent == parent
      ensures parent.value == old(parent.value) && parent.color == old(parent.color)
      ensures parent.parent == old(parent.parent)
      ensures forall n :: n in old(Repr) && n != parent ==> unchanged(n)
      ensures if cmp < 0
        then old(parent.left) == null && parent.left == e && parent.right == old(parent.right)
        else old(parent.right) == null && parent.right == e && parent.left == old(parent.left)
    {
      assert !path.Top?;
      assert DistinctPath(path) && PathNodes(path) == Repr by {
        PlugNodes(path, Nil);
        PlugDistinct(path, Nil);
      }
      e := new Node(k, value, parent);
      PlugLeaf(path, e);
      shape, Repr := Plug(path, Br(Nil, e, Nil)), Repr + {e};
      if cmp < 0 {
        parent.left := e;
      } else {
        parent.right := e;
      }
      Attached(path);
    }

    /** The descent of `put`: from the root, go left on a smaller key and
        right on a larger one, until the key is found or the way ends.
        Returns the node holding the key (or null), the last node visited
        and the last comparison; the ghost results locate the stop. */
    method Descend(k: int) returns (t: Node?<V>, parent: Node?<V>, cmp: int,
                                    ghost path: Path<V>, ghost sub: Tree<V>)
      requires Valid() && root != null
      ensures t != null ==> t in Repr && t.key == k && parent == t && cmp == 0
      ensures t == null <==> k !in Keys(shape)
      ensures t == null ==>
        parent != null && parent in Repr && cmp == Compare(k, parent.key) &&
        (cmp < 0 ==> parent.left == null) && (cmp > 0 ==> parent.right == null)
      ensures Plug(path, sub) == shape && t == Root(sub)
      ensures LinkedPath(path, t, root) && Linked(sub, Up(path))
      ensures t == null ==> parent == Up(path) && (path.GoL? <==> cmp < 0)
      ensures forall x :: x in Before(path) ==> x < k
      ensures forall x :: x in After(path) ==> k < x
    {
      t := root;
      parent, cmp := null, 0;
      path, sub := Top, shape;
      while t != null
        invariant Plug(path, sub) == shape
        invariant t == Root(sub) && parent == Up(path)
        invariant LinkedPath(path, t, root) && Linked(sub, parent)
        invariant Sorted(Keys(sub))
        invariant forall x :: x in Before(path) ==> x < k
        invariant forall x :: x in After(path) ==> k < x
        invariant t == null ==> !path.Top?
        invariant path.GoL? ==> cmp < 0
        invariant path.GoR? ==> cmp > 0
        invariant parent != null ==> cmp == Compare(k, parent.key)
        decreases sub
      {
        parent := t;
        cmp := Compare(k, t.key);
        assert Sorted(Keys(sub.l)) && Sorted(Keys(sub.r)) &&
          (forall x :: x in Keys(sub.l) ==> x < t.key) &&
          (forall x :: x in Keys(sub.r) ==> t.key < x) by {
          SortedSplit(Keys(sub.l), t.key, Keys(sub.r));
        }
        if cmp < 0 {
          assert forall x :: x in [t.key] + Keys(sub.r) + After(path) ==> k < x;
          path, sub := GoL(path, t, sub.r), sub.l;
          t := t.left;
        } else if cmp > 0 {
          assert forall x :: x in Before(path) + Keys(sub.l) + [t.key] ==> x < k;
          path, sub := GoR(sub.l, t, path), sub.r;
          t := t.right;
        } else {
          break;
        }
      }
      PlugNodes(path, sub);
      PlugKeys(path, sub);
      if t != null {
        assert k in Keys(sub);
      } else {
        assert sub == Nil;
        assert k !in Before(path) + After(path);
      }
    }

    /** The insertion repair is an empty method in the code: it does
        nothing, so it leaves the tree as it is. */
    method FixAfterPut(x: Node<V>)
      requires Valid() && x in Repr
      ensures Valid() && x in Repr
    {
    }

    /** Rotate left around `p` with `r = p.right`: `r` takes `p`'s place
        (under `p`'s parent, or as the root), `p` becomes `r`'s left child,
        and `r`'s old left subtree becomes `p`'s right one. A null pivot
        does nothing; colours and values are not touched. */
    method LeftRotate(p: Node?<V>)
      requires Valid()
      requires p != null ==> p in Repr && p.right != null
      modifies this, if p == null then {} else {p, p.right, p.right.left, p.parent}
      ensures Valid() && Repr == old(Repr)
      ensures p == null ==> shape == old(shape) && root == old(root)
      ensures p != null ==>
        var z := Focus(old(shape), p, Top); shape == Plug(z.0, RotLeft(z.1))
      ensures Keys(shape) == old(Keys(shape))
      ensures forall n :: n in Repr ==> n.color == old(n.color) && n.value == old(n.value)
      ensures p != null ==>
        var r, b, g := old(p.right), old(p.right.left), old(p.parent);
        p.right == b && (b != null ==> b.parent == p) && p.left == old(p.left) &&
        r.left == p && p.parent == r && r.right == old(r.right) && r.parent == g &&
        (g == null ==> root == r) &&
        (g != null ==> (root == old(root) &&
          if old(g.left) == p then g.left == r && g.right == old(g.right)
          else g.right == r && g.left == old(g.left)))
    {
      if p != null {
        ghost var z := Focus(shape, p, Top);
        RotationSite(z.0, z.1);
        RelinkLeft(p);
        shape := Plug(z.0, RotLeft(z.1));
        RotatedLeft(p);
      }
    }

    /** The mirror of `LeftRotate`, with `l = p.left`. */
    method RightRotate(p: Node?<V>)
      requires Valid()
      requires p != null ==> p in Repr && p.left != null
      modifies this, if p == null then {} else {p, p.left, p.left.right, p.parent}
      ensures Valid() && Repr == old(Repr)
      ensures p == null ==> shape == old(shape) && root == old(root)
      ensures p != null ==>
        var z := Focus(old(shape), p, Top); shape == Plug(z.0, RotRight(z.1))
      ensures Keys(shape) == old(Keys(shape))
      ensures forall n :: n in Repr ==> n.color == old(n.color) && n.value == old(n.value)
      ensures p != null ==>
        var l, b, g := old(p.left), old(p.left.right), old(p.parent);
        p.left == b && (b != null ==> b.parent == p) && p.right == old(p.right) &&
        l.right == p && p.parent == l && l.left == old(l.left) && l.parent == g &&
        (g == null ==> root == l) &&
        (g != null ==> (root == old(root) &&
          if old(g.left) == p then g.left == l && g.right == old(g.right)
          else g.right == l && g.left == old(g.left)))
    {
      if p != null {
        ghost var z := Focus(shape, p, Top);
        RotationSite(z.0, z.1);
        RelinkRight(p);
        shape := Plug(z.0, RotRight(z.1));
        RotatedRight(p);
      }
    }

    /** The link writes of `leftRotate`, in the order the code makes
        them, for a pivot `p` whose right child `r` exists. Nothing but the
        links of `p`, `r`, `r`'s left child, `p`'s parent and the root
        changes. */
    method RelinkLeft(p: Node<V>)
      requires p.right != null && p.right != p && p.parent != p && p.parent != p.right
      requires p.right.left != null ==>
        p.right.left != p && p.right.left != p.right && p.right.left != p.parent
      modifies this, p, p.right, p.right.left, p.parent
      ensures shape == old(shape) && Repr == old(Repr)
      ensures var r, b, g := old(p.right), old(p.right.left), old(p.parent);
        p.left == old(p.left) && p.right == b && p.parent == r &&
        r.left == p && r.right == old(r.right) && r.parent == g &&
        (b != null ==> b.parent == p && b.left == old(b.left) && b.right == old(b.right)) &&
        (g == null ==> root == r) &&
        (g != null ==> (root == old(root) && g.parent == old(g.parent) &&
          if old(g.left) == p then g.left == r && g.right == old(g.right)
          else g.right == r && g.left == old(g.left)))
      ensures forall n :: n in Repr ==> n.color == old(n.color) && n.value == old(n.value)
      ensures forall n ::
        (n in Repr && n != p && n != old(p.right) && n != old(p.right.left) && n != old(p.parent))
        ==> unchanged(n)
    {
      var r := p.right;
      p.right := r.left;
      if r.left != null {
        r.left.parent := p;
      }
      r.parent := p.parent;
      if p.parent == null {
        root := r;
      } else if p.parent.left == p {
        p.parent.left := r;
      } else {
        p.parent.right := r;
      }
      r.left := p;
      p.parent := r;
    }

    /** The link writes of `rightRotate`, the mirror of `RelinkLeft`. */
    method RelinkRight(p: Node<V>)
      requires p.left != null && p.left != p && p.parent != p && p.parent != p.left
      requires p.left.right != null ==>
        p.left.right != p && p.left.right != p.left && p.left.right != p.parent
      modifies this, p, p.left, p.left.right, p.parent
      ensures shape == old(shape) && Repr == old(Repr)
      ensures var l, b, g := old(p.left), old(p.left.right), old(p.parent);
        p.right == old(p.right) && p.left == b && p.parent == l &&
        l.right == p && l.left == old(l.left) && l.parent == g &&
        (b != null ==> b.parent == p && b.left == old(b.left) && b.right == old(b.right)) &&
        (g == null ==> root == l) &&
        (g != null ==> (root == old(root) && g.parent == old(g.parent) &&
          if old(g.left) == p then g.left == l && g.right == old(g.right)
          else g.right == l && g.left == old(g.left)))
      ensures forall n :: n in Repr ==> n.color == old(n.color) && n.value == old(n.value)
      ensures forall n ::
        (n in Repr && n != p && n != old(p.left) && n != old(p.left.right) && n != old(p.parent))
        ==> unchanged(n)
    {
      var l := p.left;
      p.left := l.right;
      if l.right != null {
        l.right.parent := p;
      }
      l.parent := p.parent;
      if p.parent == null {
        root := l;
      } else if p.parent.left == p {
        p.parent.left := l;
      } else {
        p.parent.right := l;
      }
      l.right := p;
      p.parent := l;
    }

    /** In a valid tree the root and every link of every node lead to a node
        of `Repr` or to null, so a caller can name the nodes a rotation may
        modify. */
    lemma ReprClosed()
      requires Valid()
      ensures root == null || root in Repr
      ensures forall n :: n in Repr ==>
        (n.parent == null || n.parent in Repr) &&
        (n.left == null || n.left in Repr) &&
        (n.right == null || n.right in Repr)
    {
      LinkedClosed(shape, null);
    }

    /** What `Valid` says about the place of a node: the path above it and
        the subtree below it are linked, hold no node twice and share none. */
    lemma RotationSite(path: Path<V>, sub: Tree<V>)
      requires Valid() && Plug(path, sub) == shape
      ensures LinkedPath(path, Root(sub), root) && Linked(sub, Up(path))
      ensures DistinctPath(path) && Distinct(sub) && PathNodes(path) !! Nodes(sub)
      ensures Repr == PathNodes(path) + Nodes(sub)
      ensures Up(path) != null ==> Up(path) in PathNodes(path)
      ensures sub.Br? && sub.r.Br? ==> Distinct(sub.r) && Nodes(sub.r.l) <= Nodes(sub.r)
      ensures sub.Br? && sub.l.Br? ==> Distinct(sub.l) && Nodes(sub.l.r) <= Nodes(sub.l)
    {
      PlugLinked(path, sub, root);
      PlugDistinct(path, sub);
      PlugNodes(path, sub);
    }

    /** After the writes of `RelinkLeft` the heap mirrors the rotated shape. */
    twostate lemma RotatedLeft(p: Node<V>)
      requires old(Valid()) && p in old(Repr) && old(p.right) != null
      requires Repr == old(Repr) && root == (if old(p.parent) == null then old(p.right) else old(root))
      requires var z := Focus(old(shape), p, Top);
        shape == Plug(z.0, RotLeft(z.1)) &&
        old(LinkedPath(z.0, p, root)) && old(Linked(z.1, Up(z.0))) &&
        DistinctPath(z.0) && Distinct(z.1) && PathNodes(z.0) !! Nodes(z.1) &&
        Repr == PathNodes(z.0) + Nodes(z.1)
      requires var r, b, g := old(p.right), old(p.right.left), old(p.parent);
        p.left == old(p.left) && p.right == b && p.parent == r &&
        r.left == p && r.right == old(r.right) && r.parent == g &&
        (b != null ==> b.parent == p && b.left == old(b.left) && b.right == old(b.right)) &&
        (g != null ==> (g.parent == old(g.parent) &&
          if old(g.left) == p then g.left == r && g.right == old(g.right)
          else g.right == r && g.left == old(g.left)))
      requires forall n ::
        (n in Repr && n != p && n != old(p.right) && n != old(p.right.left) && n != old(p.parent))
        ==> unchanged(n)
      ensures Valid() && Keys(shape) == old(Keys(shape))
    {
      var z := Focus(old(shape), p, Top);
      assert old(allocated(z));
      var path, sub := z.0, z.1;
      assert old(Linked(sub.r, p));
      LinkedBelowLeft(Site(path, sub));
      Reroot(Slot(path, p, sub.r.n));
      PlugLinked(path, RotLeft(sub), root);
      RotateInPlace(path, sub, RotLeft(sub));
    }

    /** The mirror of `RotatedLeft`, after the writes of `RelinkRight`. */
    twostate lemma RotatedRight(p: Node<V>)
      requires old(Valid()) && p in old(Repr) && old(p.left) != null
      requires Repr == old(Repr) && root == (if old(p.parent) == null then old(p.left) else old(root))
      requires var z := Focus(old(shape), p, Top);
        shape == Plug(z.0, RotRight(z.1)) &&
        old(LinkedPath(z.0, p, root)) && old(Linked(z.1, Up(z.0))) &&
        DistinctPath(z.0) && Distinct(z.1) && PathNodes(z.0) !! Nodes(z.1) &&
        Repr == PathNodes(z.0) + Nodes(z.1)
      requires var l, b, g := old(p.left), old(p.left.right), old(p.parent);
        p.right == old(p.right) && p.left == b && p.parent == l &&
        l.right == p && l.left == old(l.left) && l.parent == g &&
        (b != null ==> b.parent == p && b.left == old(b.left) && b.right == old(b.right)) &&
        (g != null ==> (g.parent == old(g.parent) &&
          if old(g.left) == p then g.left == l && g.right == old(g.right)
          else g.right == l && g.left == old(g.left)))
      requires forall n ::
        (n in Repr && n != p && n != old(p.left) && n != old(p.left.right) && n != old(p.parent))
        ==> unchanged(n)
      ensures Valid() && Keys(shape) == old(Keys(shape))
    {
      var z := Focus(old(shape), p, Top);
      assert old(allocated(z));
      var path, sub := z.0, z.1;
      assert old(Linked(sub.l, p));
      LinkedBelowRight(Site(path, sub));
      Reroot(Slot(path, p, sub.l.n));
      PlugLinked(path, RotRight(sub), root);
      RotateInPlace(path, sub, RotRight(sub));
    }

    /** Below the parent `g`: once `p(a, r(b, c))` is relinked as
        `r(p(a, b), c)`, the rotated subtree is linked under `g`. */
    twostate lemma LinkedBelowLeft(site: Site<V>)
      requires site.sub.Br? && site.sub.r.Br? && Distinct(site.sub) && old(allocated(Nodes(site.sub)))
      requires old(Linked(site.sub, Up(site.path)))
      requires var p, r, b := site.sub.n, site.sub.r.n, Root(site.sub.r.l);
        p.left == old(p.left) && p.right == b && p.parent == r &&
        r.left == p && r.right == old(r.right) && r.parent == Up(site.path) &&
        (b != null ==> b.parent == p && b.left == old(b.left) && b.right == old(b.right))
      requires var p, r, b := site.sub.n, site.sub.r.n, Root(site.sub.r.l);
        forall n :: (n in Nodes(site.sub) && n != p && n != r && n != b) ==> unchanged(n)
      ensures Linked(RotLeft(site.sub), Up(site.path))
    {
      var p, a, r, b, c := site.sub.n, site.sub.l, site.sub.r.n, site.sub.r.l, site.sub.r.r;
      assert Distinct(site.sub.r) && old(Linked(site.sub.r, p));
      KeepLinked(a);
      KeepLinked(c);
      if b.Br? {
        assert Distinct(b) && b.n !in Nodes(b.l) + Nodes(b.r) && old(Linked(b, r));
        KeepLinked(b.l);
        KeepLinked(b.r);
      }
    }

    /** The mirror of `LinkedBelowLeft`: `p(l(a, b), c)` relinked as
        `l(a, p(b, c))`. */
    twostate lemma LinkedBelowRight(site: Site<V>)
      requires site.sub.Br? && site.sub.l.Br? && Distinct(site.sub) && old(allocated(Nodes(site.sub)))
      requires old(Linked(site.sub, Up(site.path)))
      requires var p, l, b := site.sub.n, site.sub.l.n, Root(site.sub.l.r);
        p.right == old(p.right) && p.left == b && p.parent == l &&
        l.right == p && l.left == old(l.left) && l.parent == Up(site.path) &&
        (b != null ==> b.parent == p && b.left == old(b.left) && b.right == old(b.right))
      requires var p, l, b := site.sub.n, site.sub.l.n, Root(site.sub.l.r);
        forall n :: (n in Nodes(site.sub) && n != p && n != l && n != b) ==> unchanged(n)
      ensures Linked(RotRight(site.sub), Up(site.path))
    {
      var p, a, l, b, c := site.sub.n, site.sub.l.l, site.sub.l.n, site.sub.l.r, site.sub.r;
      assert Distinct(site.sub.l) && old(Linked(site.sub.l, p));
      KeepLinked(a);
      KeepLinked(c);
      if b.Br? {
        assert Distinct(b) && b.n !in Nodes(b.l) + Nodes(b.r) && old(Linked(b, l));
        KeepLinked(b.l);
        KeepLinked(b.r);
      }
    }

    /** Above the rotated subtree: when the parent's child slot that held
        `p` (or the root slot) now holds `x`, the path is linked to `x`. */
    twostate lemma Reroot(slot: Slot<V>)
      requires DistinctPath(slot.path) && slot.path.Top? == (Up(slot.path) == null)
      requires old(allocated(PathNodes(slot.path)))
      requires slot.was !in PathNodes(slot.path)
      requires old(LinkedPath(slot.path, slot.was, root))
      requires var p, x, g := slot.was, slot.now, Up(slot.path);
        (g == null ==> root == x) &&
        (g != null ==> (root == old(root) && g.parent == old(g.parent) &&
          if old(g.left) == p then g.left == x && g.right == old(g.right)
          else g.right == x && g.left == old(g.left)))
      requires forall n :: (n in PathNodes(slot.path) && n != Up(slot.path)) ==> unchanged(n)
      ensures LinkedPath(slot.path, slot.now, root)
    {
      match slot.path
      case Top =>
      case GoL(up, g, r) =>
        KeepLinked(r);
        KeepPath(up);
      case GoR(l, g, up) =>
        assert l.Br? ==> Root(l) in Nodes(l);
        KeepLinked(l);
        KeepPath(up);
    }

    /** After `Attach` hangs a leaf in the empty slot at the end of `path`,
        the heap mirrors the grown shape. */
    twostate lemma Attached(path: Path<V>)
      requires !path.Top? && DistinctPath(path) && old(allocated(PathNodes(path)))
      requires old(LinkedPath(path, null, root)) && root == old(root)
      requires var g := path.n; var e := if path.GoL? then g.left else g.right;
        e != null && e.parent == g && e.left == null && e.right == null &&
        g.parent == old(g.parent) &&
        if path.GoL? then g.right == old(g.right) else g.left == old(g.left)
      requires forall n :: (n in PathNodes(path) && n != path.n) ==> unchanged(n)
      ensures var e := if path.GoL? then path.n.left else path.n.right;
        e != null && Linked(Plug(path, Br(Nil, e, Nil)), null) &&
        root == Root(Plug(path, Br(Nil, e, Nil)))
    {
      var e := if path.GoL? then path.n.left else path.n.right;
      match path {
        case GoL(up, _, r) =>
          KeepLinked(r);
          KeepPath(up);
        case GoR(l, _, up) =>
          KeepLinked(l);
          KeepPath(up);
      }
      assert LinkedPath(path, e, root);
      PlugLinked(path, Br(Nil, e, Nil), root);
    }
  }
}
