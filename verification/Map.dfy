/** The red-black map over nodes on the heap.  `LinkedTree` says which tree the links of the nodes spell out,
    `RedBlackTree` what a tree holds, and `RedBlackFixup` what a turn of the fix-up loops does to it. */
module Maps {
  import opened Errors
  import opened RedBlackTree
  import opened LinkedTree
  import opened PowersOfTwo
  import opened RedBlackFixup

  /** The comparator: negative, zero or positive as the first key is below, equal to or above the second. */
  function Compare(a: KeyPointer, b: KeyPointer): int
    requires a.Key? && b.Key?
  {
    a.rank - b.rank
  }

  class Map {
    var size: nat
    var root: MapNode
    const sentinel: MapNode

    /** Every live node, with the sentinel. */
    ghost var nodes: set<MapNode>
    ghost var tree: Tree
    /** Whether the root has ever been deleted while it had two children: its successor has then become the left child
        of the sentinel as well, and stays it for good. */
    ghost var rootReplaced: bool
    /** Numbers below and above every key. */
    ghost var lo: int
    ghost var hi: int

    /** The links of the live nodes, as a value. */
    ghost function Links(): Cells
      reads this`nodes, nodes
    {
      map o | o in nodes :: Cell(o.parent, o.left, o.right, o.isBlack, o.value)
    }

    /** The nodes spell out the tree `Plug(c, t)`. */
    ghost predicate At(c: Path, t: Tree)
      reads `root, `nodes, `lo, `hi, nodes
    {
      Zipped(Links(), root, c, t, lo, hi, sentinel)
    }

    /** The nodes spell out a red-black tree. */
    ghost predicate Whole()
      reads `root, `nodes, `lo, `hi, `tree, `size, nodes
    {
      At(Top, tree) && Balanced(tree) && IsBlack(tree) && size == |Inorder(tree)| && |nodes| == size + 1
    }

    ghost predicate Valid()
      reads this, nodes
    {
      Whole() && LooseEnds()
    }

    /** The links of the sentinel, which are no part of the tree. */
    ghost predicate LooseEnds()
      reads this, sentinel
    {
      (rootReplaced <==> sentinel.left != sentinel) && sentinel.right == sentinel
    }

    twostate predicate SentinelKept()
      reads sentinel
    {
      sentinel.parent == old(sentinel.parent) && SidesKept()
    }

    twostate predicate SidesKept()
      reads sentinel
    {
      sentinel.left == old(sentinel.left) && sentinel.right == old(sentinel.right)
    }

    /** What the map holds: which node carries which key and value, in the comparator's order. */
    ghost function Entries(): seq<Entry>
      reads this`tree
    {
      Inorder(tree)
    }

    /** Nothing has changed: not a link, a colour or a value of any node. */
    twostate predicate SameMap()
      reads this, nodes
    {
      && size == old(size) && root == old(root) && nodes == old(nodes)
      && Links() == old(Links()) && tree == old(tree) && rootReplaced == old(rootReplaced)
    }

    constructor ()
      ensures Valid() && Entries() == [] && fresh(nodes) && !rootReplaced
    {
      var s := new MapNode.Sentinel();
      size, root, sentinel := 0, s, s;
      nodes, tree, lo, hi, rootReplaced := {s}, Leaf, 0, 0, false;
    }

    // ---------- moving the focus ----------

    lemma GoUp(c: Path, t: Tree)
      requires At(c, t) && !c.Top?
      ensures At(c.up, Up(c, t))
    {
      MovedUp(Links(), root, c, t, lo, hi, sentinel);
    }

    lemma GoDown(c: Path, t: Tree)
      requires At(c, t) && t.Node?
      ensures At(InLeft(c, t.e, t.black, t.right), t.left) && At(InRight(c, t.e, t.black, t.left), t.right)
    {
      MovedDown(Links(), root, c, t, lo, hi, sentinel);
    }

    lemma {:induction false} GoTop(c: Path, t: Tree)
      requires At(c, t)
      ensures At(Top, Plug(c, t))
      decreases c
    {
      if !c.Top? {
        GoUp(c, t);
        GoTop(c.up, Up(c, t));
      }
    }

    /** What can be read off the node `x` at the focus. */
    lemma LookAround(c: Path, t: Tree, x: MapNode)
      requires At(c, t) && x == NodeOf(t, sentinel)
      ensures {x, root, PathNode(c, sentinel)} <= nodes && (c.Top? <==> root == x) && x.isBlack == IsBlack(t)
      ensures t.Node? ==> x != sentinel && x.key == Key(t.e.key) && x.parent == PathNode(c, sentinel)
      ensures t.Node? ==> x.left == NodeOf(t.left, sentinel) && x.right == NodeOf(t.right, sentinel)
      ensures !c.Top? ==>
                c.e.node != sentinel && c.e.node.isBlack == c.black && c.e.node.parent == PathNode(c.up, sentinel)
      ensures c.InLeft? ==> c.e.node.left == x && c.e.node.right == NodeOf(c.sib, sentinel)
      ensures c.InRight? ==>
                c.e.node.right == x && c.e.node.left == NodeOf(c.sib, sentinel) && (t.Node? ==> c.e.node.left != x)
    {
      Neighbours(Links(), root, c, t, lo, hi, sentinel);
    }

    // ---------- rotations ----------

    /** The four nodes that a rotation at `x` with lower neighbour `y` and inner subtree `b` touches are distinct. */
    ghost predicate Rotatable(x: MapNode, y: MapNode, b: MapNode)
      reads this, nodes, x
    {
      && {x, y, b, x.parent, sentinel} <= nodes
      && (forall o :: o in nodes ==> (o.key == Null <==> o == sentinel))
      && x != sentinel && y != sentinel && x != y && b != x && b != y
      && x.parent != x && x.parent != y && (x.parent != sentinel ==> x.parent != b)
    }

    method LeftRotate(x: MapNode)
      requires Rotatable(x, x.right, x.right.left)
      modifies `root, nodes
      ensures LeftRotation(old(Links()), Links(), root, old(root), x, sentinel)
    {
      var y := x.right;
      x.right := y.left;
      if y.left.key != Null {
        y.left.parent := x;
      }
      y.parent := x.parent;
      if x.parent.key == Null {
        root := y;
      } else if x == x.parent.left {
        x.parent.left := y;
      } else {
        x.parent.right := y;
      }
      y.left := x;
      x.parent := y;
    }

    method RightRotate(x: MapNode)
      requires Rotatable(x, x.left, x.left.right)
      modifies `root, nodes
      ensures RightRotation(old(Links()), Links(), root, old(root), x, sentinel)
    {
      var y := x.left;
      x.left := y.right;
      if y.right.key != Null {
        y.right.parent := x;
      }
      y.parent := x.parent;
      if x.parent.key == Null {
        root := y;
      } else if x == x.parent.right {
        x.parent.right := y;
      } else {
        x.parent.left := y;
      }
      y.right := x;
      x.parent := y;
    }

    /** A left rotation below the path `c`, seen as a change of the tree. */
    method LeftRotateAt(x: MapNode, ghost c: Path, ghost t: Tree)
      requires t.Node? && t.right.Node? && t.e.node == x
      requires At(c, t)
      modifies `root, nodes
      ensures At(c, RotatedLeft(t)) && SentinelKept()
    {
      ghost var m, root0 := Links(), root;
      RotatableLeft(m, root, c, t, lo, hi, sentinel);
      LeftRotate(x);
      LeftRotated(m, Links(), root0, root, c, t, lo, hi, sentinel);
    }

    method RightRotateAt(x: MapNode, ghost c: Path, ghost t: Tree)
      requires t.Node? && t.left.Node? && t.e.node == x
      requires At(c, t)
      modifies `root, nodes
      ensures At(c, RotatedRight(t)) && SentinelKept()
    {
      ghost var m, root0 := Links(), root;
      RotatableRight(m, root, c, t, lo, hi, sentinel);
      RightRotate(x);
      RightRotated(m, Links(), root0, root, c, t, lo, hi, sentinel);
    }

    // ---------- recolouring ----------

    method SetBlack(x: MapNode, b: bool, ghost c: Path, ghost t: Tree)
      requires t.Node? && t.e.node == x && At(c, t)
      modifies nodes
      ensures At(c, Painted(t, b)) && SentinelKept()
    {
      ghost var m := Links();
      x.isBlack := b;
      assert Links() == m[x := m[x].(isBlack := b)];
      PaintedLinks(m, Links(), root, c, t, b, lo, hi, sentinel);
    }

    // ---------- insertion ----------

    /** The parent `p` and the uncle `y` of `x` are red: they turn black, and the grandparent `g` turns red. */
    method RecolourUncle(p: MapNode, y: MapNode, g: MapNode, ghost c: Path, ghost t: Tree)
      requires At(c, t) && !c.Top? && !c.up.Top? && c.up.sib.Node?
      requires p == c.e.node && y == c.up.sib.e.node && g == c.up.e.node
      modifies nodes
      ensures At(c.up.up, Recoloured(c, t)) && SentinelKept()
    {
      ghost var up, ge, gb, sib := c.up.up, c.up.e, c.up.black, c.up.sib;
      ghost var pt, yt := Painted(Up(c, t), true), Painted(sib, true);
      GoUp(c, t);
      SetBlack(p, true, c.up, Up(c, t));
      GoUp(c.up, pt);
      GoDown(up, Up(c.up, pt));
      ghost var cy := if c.up.InLeft? then InRight(up, ge, gb, pt) else InLeft(up, ge, gb, pt);
      SetBlack(y, true, cy, sib);
      GoUp(cy, yt);
      SetBlack(g, false, up, Up(cy, yt));
    }

    /** `x` is on the outer side of its red parent `p`, and the uncle is black. */
    method RaiseLeft(p: MapNode, g: MapNode, ghost c: Path, ghost t: Tree)
      requires At(c, t) && t.Node? && c.InLeft? && c.up.InLeft? && p == c.e.node && g == c.up.e.node
      modifies `root, nodes
      ensures At(Lifted(c), t) && SentinelKept()
    {
      GoUp(c, t);
      SetBlack(p, true, c.up, Up(c, t));
      ghost var pt := Painted(Up(c, t), true);
      GoUp(c.up, pt);
      SetBlack(g, false, c.up.up, Up(c.up, pt));
      ghost var gt := Painted(Up(c.up, pt), false);
      RightRotateAt(g, c.up.up, gt);
      GoDown(c.up.up, RotatedRight(gt));
    }

    method RaiseRight(p: MapNode, g: MapNode, ghost c: Path, ghost t: Tree)
      requires At(c, t) && t.Node? && c.InRight? && c.up.InRight? && p == c.e.node && g == c.up.e.node
      modifies `root, nodes
      ensures At(Lifted(c), t) && SentinelKept()
    {
      GoUp(c, t);
      SetBlack(p, true, c.up, Up(c, t));
      ghost var pt := Painted(Up(c, t), true);
      GoUp(c.up, pt);
      SetBlack(g, false, c.up.up, Up(c.up, pt));
      ghost var gt := Painted(Up(c.up, pt), false);
      LeftRotateAt(g, c.up.up, gt);
      GoDown(c.up.up, RotatedLeft(gt));
    }

    /** One turn of the loop when the red parent is the left child of the grandparent. */
    method InsertTurnLeft(x: MapNode, ghost c: Path, ghost t: Tree)
      returns (x': MapNode, ghost c': Path, ghost t': Tree)
      requires At(c, t) && RedBelow(c, t) && RedRed(c) && !c.up.Top? && c.up.InLeft? && x == t.e.node
      modifies `root, nodes
      ensures At(c', t') && RedBelow(c', t') && x' == t'.e.node && SentinelKept()
      ensures Inorder(Plug(c', t')) == Inorder(Plug(c, t)) && InsertMeasure(c') < InsertMeasure(c)
    {
      Grandparent(c, t);
      LookAround(c, t, x);
      GoUp(c, t);
      LookAround(c.up, Up(c, t), x.parent);
      var p, g := x.parent, x.parent.parent;
      var y := g.right;
      GoUp(c.up, Up(c, t));
      GoDown(c.up.up, Up(c.up, Up(c, t)));
      LookAround(InRight(c.up.up, c.up.e, c.up.black, Up(c, t)), c.up.sib, y);
      if !y.isBlack {
        RedUncle(c, t);
        RecolourUncle(p, y, g, c, t);
        x', c', t' := g, c.up.up, Recoloured(c, t);
      } else if x == p.right {
        InnerChild(c, t);
        LeftRotateAt(p, c.up, Up(c, t));
        GoDown(c.up, RotatedLeft(Up(c, t)));
        x', c', t' := p, TurnedOut(c, t).0, TurnedOut(c, t).1;
      } else {
        OuterChild(c, t);
        RaiseLeft(p, g, c, t);
        x', c', t' := x, Lifted(c), t;
      }
    }

    /** One turn of the loop when the red parent is the right child of the grandparent. */
    method InsertTurnRight(x: MapNode, ghost c: Path, ghost t: Tree)
      returns (x': MapNode, ghost c': Path, ghost t': Tree)
      requires At(c, t) && RedBelow(c, t) && RedRed(c) && !c.up.Top? && c.up.InRight? && x == t.e.node
      modifies `root, nodes
      ensures At(c', t') && RedBelow(c', t') && x' == t'.e.node && SentinelKept()
      ensures Inorder(Plug(c', t')) == Inorder(Plug(c, t)) && InsertMeasure(c') < InsertMeasure(c)
    {
      Grandparent(c, t);
      LookAround(c, t, x);
      GoUp(c, t);
      LookAround(c.up, Up(c, t), x.parent);
      var p, g := x.parent, x.parent.parent;
      var y := g.left;
      GoUp(c.up, Up(c, t));
      GoDown(c.up.up, Up(c.up, Up(c, t)));
      LookAround(InLeft(c.up.up, c.up.e, c.up.black, Up(c, t)), c.up.sib, y);
      if !y.isBlack {
        RedUncle(c, t);
        RecolourUncle(p, y, g, c, t);
        x', c', t' := g, c.up.up, Recoloured(c, t);
      } else if x == p.left {
        InnerChild(c, t);
        RightRotateAt(p, c.up, Up(c, t));
        GoDown(c.up, RotatedRight(Up(c, t)));
        x', c', t' := p, TurnedOut(c, t).0, TurnedOut(c, t).1;
      } else {
        OuterChild(c, t);
        RaiseRight(p, g, c, t);
        x', c', t' := x, Lifted(c), t;
      }
    }

    method InsertTurn(x: MapNode, ghost c: Path, ghost t: Tree) returns (x': MapNode, ghost c': Path, ghost t': Tree)
      requires At(c, t) && RedBelow(c, t) && RedRed(c) && x == t.e.node
      modifies `root, nodes
      ensures At(c', t') && RedBelow(c', t') && x' == t'.e.node && SentinelKept()
      ensures Inorder(Plug(c', t')) == Inorder(Plug(c, t)) && InsertMeasure(c') < InsertMeasure(c)
    {
      Grandparent(c, t);
      LookAround(c, t, x);
      GoUp(c, t);
      LookAround(c.up, Up(c, t), x.parent);
      if x.parent == x.parent.parent.left {
        x', c', t' := InsertTurnLeft(x, c, t);
      } else {
        x', c', t' := InsertTurnRight(x, c, t);
      }
    }

    /** The fix-up loop of `insertNode`. */
    method InsertFixup(z: MapNode, ghost c0: Path, ghost t0: Tree)
      requires At(c0, t0) && RedBelow(c0, t0) && z == t0.e.node
      modifies `root, `tree, nodes
      ensures At(Top, tree) && Balanced(tree) && IsBlack(tree) && Entries() == Inorder(Plug(c0, t0))
      ensures SentinelKept()
    {
      ghost var c, t := c0, t0;
      var x := z;
      LookAround(c, t, x);
      while x != root && !x.parent.isBlack
        invariant At(c, t) && RedBelow(c, t) && x == t.e.node && SentinelKept()
        invariant Inorder(Plug(c, t)) == Inorder(Plug(c0, t0))
        invariant {x, root, x.parent} <= nodes && (c.Top? <==> x == root)
        invariant !c.Top? ==> x.parent == c.e.node && x.parent.isBlack == c.black
        decreases InsertMeasure(c)
      {
        x, c, t := InsertTurn(x, c, t);
        LookAround(c, t, x);
      }
      InsertDone(c, t);
      BlackenRoot(c, t);
    }

    /** `_root->_isBlack = true` */
    method BlackenRoot(ghost c: Path, ghost t: Tree)
      requires At(c, t) && t.Node? && IsBlack(Plug(c, if c.Top? then Painted(t, true) else t))
      modifies nodes, `tree
      ensures tree == Plug(c, if c.Top? then Painted(t, true) else t) && At(Top, tree) && SentinelKept()
    {
      PlugPainted(c, t);
      GoTop(c, t);
      SetBlack(root, true, Top, Plug(c, t));
      tree := Painted(Plug(c, t), true);
    }

    /** Moves the bounds out far enough for a key. */
    ghost method MakeRoom(k: int)
      requires Valid()
      modifies `lo, `hi
      ensures Valid() && lo < k < hi
    {
      ghost var lo', hi' := if k <= lo then k - 1 else lo, if hi <= k then k + 1 else hi;
      Rebounded(Links(), root, tree, lo, hi, lo', hi', sentinel);
      lo, hi := lo', hi';
    }

    /** The search loop of `insertNode`: where a new node `z` would go, unless its key is taken. */
    method FindPlace(z: MapNode) returns (free: bool, y: MapNode, result: int, ghost c: Path)
      requires Valid() && z.key.Key? && lo < z.key.rank < hi
      ensures free <==> !HasKey(Entries(), z.key.rank)
      ensures free ==> At(c, Leaf) && Plug(c, Leaf) == tree && HoleLo(c, lo) < z.key.rank < HoleHi(c, hi)
      ensures free ==> y == PathNode(c, sentinel) && (c.InLeft? ==> result < 0) && (c.InRight? ==> result > 0)
    {
      result, y := 0, sentinel;
      var x := root;
      ghost var t := tree;
      c := Top;
      LookAround(c, t, x);
      while x.key != Null
        invariant At(c, t) && x == NodeOf(t, sentinel) && y == PathNode(c, sentinel) && {x, y} <= nodes
        invariant HoleLo(c, lo) < z.key.rank < HoleHi(c, hi) && Plug(c, t) == tree
        invariant (c.InLeft? ==> result < 0) && (c.InRight? ==> result > 0)
        decreases t
      {
        LookAround(c, t, x);
        GoDown(c, t);
        y := x;
        result := Compare(z.key, x.key);
        if 0 > result {
          x := x.left;
          c, t := InLeft(c, t.e, t.black, t.right), t.left;
        } else if 0 < result {
          x := x.right;
          c, t := InRight(c, t.e, t.black, t.left), t.right;
        } else {
          Narrowed(c, t, lo, hi, z.key.rank);
          assert t.e in Inorder(t);
          free := false;
          return;
        }
        LookAround(c, t, x);
      }
      Narrowed(c, t, lo, hi, z.key.rank);
      free := true;
    }

    /** The link writes of `insertNode`. */
    method Attach(z: MapNode, y: MapNode, result: int)
      requires {y, sentinel} <= nodes && z !in nodes
      modifies `root, `size, z`parent, z`left, z`right, y`left, y`right
      ensures size == old(size) + 1
      ensures z.parent == y && z.left == z.right == sentinel
      ensures root == if y == sentinel then z else old(root)
      ensures y.left == if y != sentinel && 0 >= result then z else old(y.left)
      ensures y.right == if y != sentinel && 0 < result then z else old(y.right)
    {
      z.parent := y;
      z.left := sentinel;
      z.right := sentinel;
      if sentinel == y {
        root := z;
      } else if 0 >= result {
        y.left := z;
      } else {
        y.right := z;
      }
      size := size + 1;
    }

    method AttachAt(z: MapNode, y: MapNode, result: int, ghost c: Path)
      requires At(c, Leaf) && z !in nodes && z.key.Key? && HoleLo(c, lo) < z.key.rank < HoleHi(c, hi)
      requires y == PathNode(c, sentinel) && (c.InLeft? ==> result < 0) && (c.InRight? ==> result > 0)
      modifies `root, `size, `nodes, nodes, z
      ensures nodes == old(nodes) + {z} && z.value == old(z.value) && size == old(size) + 1
      ensures At(c, Node(Leaf, Entry(z, z.key.rank, z.value), z.isBlack, Leaf)) && SentinelKept()
    {
      ghost var m, root0 := Links(), root;
      LookAround(c, Leaf, sentinel);
      Attach(z, y, result);
      nodes := nodes + {z};
      Attached(m, Links(), root0, root, c, Entry(z, z.key.rank, z.value), z.isBlack, lo, hi, sentinel);
    }

    /** The second half of `insertNode`: `z` goes where the search for its key has ended. */
    method AddLeaf(z: MapNode, y: MapNode, result: int, ghost c: Path)
      requires At(c, Leaf) && z !in nodes && z.key.Key? && HoleLo(c, lo) < z.key.rank < HoleHi(c, hi)
      requires y == PathNode(c, sentinel) && (c.InLeft? ==> result < 0) && (c.InRight? ==> result > 0)
      requires Whole() && Plug(c, Leaf) == tree
      modifies `root, `size, `tree, `nodes, nodes, z
      ensures Whole() && nodes == old(nodes) + {z} && SentinelKept()
      ensures Added(old(Entries()), Entry(z, z.key.rank, old(z.value)), Entries())
    {
      ghost var e := Entry(z, z.key.rank, z.value);
      AttachedBalance(tree, c, e);
      AttachAt(z, y, result, c);
      SetBlack(z, false, c, Node(Leaf, e, z.isBlack, Leaf));
      InsertFixup(z, c, Node(Leaf, e, false, Leaf));
      AddedLength(old(Entries()), e, Entries());
    }

    /** Inserts a node unless its key is taken. */
    method InsertNode(z: MapNode) returns (inserted: bool)
      requires Valid() && z !in nodes && z.key.Key?
      modifies this, nodes, z
      ensures Valid() && rootReplaced == old(rootReplaced)
      ensures inserted <==> !HasKey(old(Entries()), z.key.rank)
      ensures !inserted ==> SameMap() && unchanged(z)
      ensures inserted ==> nodes == old(nodes) + {z}
      ensures inserted ==> Added(old(Entries()), Entry(z, z.key.rank, old(z.value)), Entries())
    {
      MakeRoom(z.key.rank);
      var y, result;
      ghost var c;
      inserted, y, result, c := FindPlace(z);
      if !inserted {
        return;
      }
      AddLeaf(z, y, result, c);
    }

    // ---------- deletion ----------

    /** The sibling `w` on the right is red: a rotation at the parent `p` gives `x` a black sibling. */
    method TurnLeftRedSibling(p: MapNode, w: MapNode, ghost c: Path, ghost t: Tree)
      requires At(c, t) && c.InLeft? && c.sib.Node? && Near(c).Node? && c.black && p == c.e.node && w == c.sib.e.node
      modifies `root, nodes
      ensures At(AfterRedSibling(c), t) && SentinelKept()
    {
      ghost var cw := InRight(c.up, c.e, c.black, t);
      ghost var wt := Painted(c.sib, true);
      GoUp(c, t);
      GoDown(c.up, Up(c, t));
      SetBlack(w, true, cw, c.sib);
      GoUp(cw, wt);
      SetBlack(p, false, c.up, Up(cw, wt));
      ghost var pt := Painted(Up(cw, wt), false);
      LeftRotateAt(p, c.up, pt);
      GoDown(c.up, RotatedLeft(pt));
      GoDown(AfterRedSibling(c).up, RotatedLeft(pt).left);
    }

    /** Only the nephew `v` next to `x` is red: a rotation at the sibling `w` moves the red node to the far side. */
    method TurnLeftNearNephew(w: MapNode, v: MapNode, ghost c: Path, ghost t: Tree)
      requires At(c, t) && c.InLeft? && c.sib.Node? && Near(c).Node? && w == c.sib.e.node && v == Near(c).e.node
      modifies `root, nodes
      ensures At(AfterNearNephew(c), t) && SentinelKept()
    {
      ghost var cw := InRight(c.up, c.e, c.black, t);
      ghost var cv := InLeft(cw, c.sib.e, c.sib.black, Far(c));
      GoUp(c, t);
      GoDown(c.up, Up(c, t));
      GoDown(cw, c.sib);
      SetBlack(v, true, cv, Near(c));
      GoUp(cv, Painted(Near(c), true));
      ghost var wt := Up(cv, Painted(Near(c), true));
      SetBlack(w, false, cw, wt);
      RightRotateAt(w, cw, Painted(wt, false));
      ghost var wr := RotatedRight(Painted(wt, false));
      GoUp(cw, wr);
      GoDown(c.up, Up(cw, wr));
    }

    /** The far nephew `v` is red: recolouring and a rotation at the parent end the loop. */
    method TurnLeftFarNephew(p: MapNode, w: MapNode, v: MapNode, ghost c: Path, ghost t: Tree)
      requires At(c, t) && c.InLeft? && c.sib.Node? && Far(c).Node?
      requires p == c.e.node && w == c.sib.e.node && v == Far(c).e.node && p.isBlack == c.black && p in nodes
      modifies `root, nodes
      ensures At(c.up, AfterFarNephew(c, t)) && SentinelKept()
    {
      ghost var cw := InRight(c.up, c.e, c.black, t);
      GoUp(c, t);
      GoDown(c.up, Up(c, t));
      SetBlack(w, p.isBlack, cw, c.sib);
      ghost var wt := Painted(c.sib, c.black);
      GoUp(cw, wt);
      SetBlack(p, true, c.up, Up(cw, wt));
      ghost var cw' := InRight(c.up, c.e, true, t);
      ghost var cv := InRight(cw', wt.e, wt.black, Near(c));
      GoDown(c.up, Up(cw', wt));
      GoDown(cw', wt);
      SetBlack(v, true, cv, Far(c));
      GoUp(cv, Painted(Far(c), true));
      ghost var wt' := Up(cv, Painted(Far(c), true));
      GoUp(cw', wt');
      LeftRotateAt(p, c.up, Up(cw', wt'));
    }

    /** The sibling `w` on the left is red: a rotation at the parent `p` gives `x` a black sibling. */
    method TurnRightRedSibling(p: MapNode, w: MapNode, ghost c: Path, ghost t: Tree)
      requires At(c, t) && c.InRight? && c.sib.Node? && Near(c).Node? && c.black && p == c.e.node && w == c.sib.e.node
      modifies `root, nodes
      ensures At(AfterRedSibling(c), t) && SentinelKept()
    {
      ghost var cw := InLeft(c.up, c.e, c.black, t);
      ghost var wt := Painted(c.sib, true);
      GoUp(c, t);
      GoDown(c.up, Up(c, t));
      SetBlack(w, true, cw, c.sib);
      GoUp(cw, wt);
      SetBlack(p, false, c.up, Up(cw, wt));
      ghost var pt := Painted(Up(cw, wt), false);
      RightRotateAt(p, c.up, pt);
      GoDown(c.up, RotatedRight(pt));
      GoDown(AfterRedSibling(c).up, RotatedRight(pt).right);
    }

    /** Only the nephew `v` next to `x` is red: a rotation at the sibling `w` moves the red node to the far side. */
    method TurnRightNearNephew(w: MapNode, v: MapNode, ghost c: Path, ghost t: Tree)
      requires At(c, t) && c.InRight? && c.sib.Node? && Near(c).Node? && w == c.sib.e.node && v == Near(c).e.node
      modifies `root, nodes
      ensures At(AfterNearNephew(c), t) && SentinelKept()
    {
      ghost var cw := InLeft(c.up, c.e, c.black, t);
      ghost var cv := InRight(cw, c.sib.e, c.sib.black, Far(c));
      GoUp(c, t);
      GoDown(c.up, Up(c, t));
      GoDown(cw, c.sib);
      SetBlack(v, true, cv, Near(c));
      GoUp(cv, Painted(Near(c), true));
      ghost var wt := Up(cv, Painted(Near(c), true));
      SetBlack(w, false, cw, wt);
      LeftRotateAt(w, cw, Painted(wt, false));
      ghost var wr := RotatedLeft(Painted(wt, false));
      GoUp(cw, wr);
      GoDown(c.up, Up(cw, wr));
    }

    /** The far nephew `v` is red: recolouring and a rotation at the parent end the loop. */
    method TurnRightFarNephew(p: MapNode, w: MapNode, v: MapNode, ghost c: Path, ghost t: Tree)
      requires At(c, t) && c.InRight? && c.sib.Node? && Far(c).Node?
      requires p == c.e.node && w == c.sib.e.node && v == Far(c).e.node && p.isBlack == c.black && p in nodes
      modifies `root, nodes
      ensures At(c.up, AfterFarNephew(c, t)) && SentinelKept()
    {
      ghost var cw := InLeft(c.up, c.e, c.black, t);
      GoUp(c, t);
      GoDown(c.up, Up(c, t));
      SetBlack(w, p.isBlack, cw, c.sib);
      ghost var wt := Painted(c.sib, c.black);
      GoUp(cw, wt);
      SetBlack(p, true, c.up, Up(cw, wt));
      ghost var cw' := InLeft(c.up, c.e, true, t);
      ghost var cv := InLeft(cw', wt.e, wt.black, Near(c));
      GoDown(c.up, Up(cw', wt));
      GoDown(cw', wt);
      SetBlack(v, true, cv, Far(c));
      GoUp(cv, Painted(Far(c), true));
      ghost var wt' := Up(cv, Painted(Far(c), true));
      GoUp(cw', wt');
      RightRotateAt(p, c.up, Up(cw', wt'));
    }

    /** Cases 2, 3 and 4 of the loop of `deleteNode`, for `x` on the left. */
    method DeleteTurnLeft(x: MapNode, w: MapNode, ghost c: Path, ghost t: Tree)
      returns (x': MapNode, ghost c': Path, ghost t': Tree)
      requires At(c, t) && Short(c, t) && x == NodeOf(t, sentinel) && IsBlack(t) && c.InLeft?
      requires x.parent == PathNode(c, sentinel)
      requires c.sib.Node? && c.sib.black && w == c.sib.e.node
      modifies `root, nodes
      ensures At(c', t') && Short(c', t') && x' == NodeOf(t', sentinel) && x'.parent == PathNode(c', sentinel)
      ensures SentinelKept()
      ensures Inorder(Plug(c', t')) == Inorder(Plug(c, t))
      ensures DeleteMeasure(c', t') < DeleteMeasure(c, t)
      ensures (!c.black && DeleteMeasure(c, t) > 2 ==> DeleteMeasure(c', t') == 0)
    {
      ghost var cw := InRight(c.up, c.e, c.black, t);
      LookAround(c, t, x);
      GoUp(c, t);
      GoDown(c.up, Up(c, t));
      LookAround(cw, c.sib, w);
      GoDown(cw, c.sib);
      LookAround(InLeft(cw, c.sib.e, c.sib.black, c.sib.right), c.sib.left, w.left);
      LookAround(InRight(cw, c.sib.e, c.sib.black, c.sib.left), c.sib.right, w.right);
      if w.left.isBlack && w.right.isBlack {
        BlackNephews(c, t);
        SetBlack(w, false, cw, c.sib);
        GoUp(cw, Painted(c.sib, false));
        x', c', t' := x.parent, c.up, AfterBlackNephews(c, t);
        LookAround(c', t', x');
      } else if w.right.isBlack {
        NearNephew(c, t);
        TurnLeftNearNephew(w, w.left, c, t);
        x', c', t' := x, AfterNearNephew(c), t;
        LookAround(c', t', x');
      } else {
        FarNephew(c, t);
        TurnLeftFarNephew(x.parent, w, w.right, c, t);
        GoTop(c.up, AfterFarNephew(c, t));
        x', c', t' := root, Top, Plug(c.up, AfterFarNephew(c, t));
        PlugPainted(c.up, AfterFarNephew(c, t));
        LookAround(c', t', x');
      }
    }

    /** Cases 2, 3 and 4 of the loop of `deleteNode`, for `x` on the right. */
    method DeleteTurnRight(x: MapNode, w: MapNode, ghost c: Path, ghost t: Tree)
      returns (x': MapNode, ghost c': Path, ghost t': Tree)
      requires At(c, t) && Short(c, t) && x == NodeOf(t, sentinel) && IsBlack(t) && c.InRight?
      requires x.parent == PathNode(c, sentinel)
      requires c.sib.Node? && c.sib.black && w == c.sib.e.node
      modifies `root, nodes
      ensures At(c', t') && Short(c', t') && x' == NodeOf(t', sentinel) && x'.parent == PathNode(c', sentinel)
      ensures SentinelKept()
      ensures Inorder(Plug(c', t')) == Inorder(Plug(c, t))
      ensures DeleteMeasure(c', t') < DeleteMeasure(c, t)
      ensures (!c.black && DeleteMeasure(c, t) > 2 ==> DeleteMeasure(c', t') == 0)
    {
      ghost var cw := InLeft(c.up, c.e, c.black, t);
      LookAround(c, t, x);
      GoUp(c, t);
      GoDown(c.up, Up(c, t));
      LookAround(cw, c.sib, w);
      GoDown(cw, c.sib);
      LookAround(InLeft(cw, c.sib.e, c.sib.black, c.sib.right), c.sib.left, w.left);
      LookAround(InRight(cw, c.sib.e, c.sib.black, c.sib.left), c.sib.right, w.right);
      if w.right.isBlack && w.left.isBlack {
        BlackNephews(c, t);
        SetBlack(w, false, cw, c.sib);
        GoUp(cw, Painted(c.sib, false));
        x', c', t' := x.parent, c.up, AfterBlackNephews(c, t);
        LookAround(c', t', x');
      } else if w.left.isBlack {
        NearNephew(c, t);
        TurnRightNearNephew(w, w.right, c, t);
        x', c', t' := x, AfterNearNephew(c), t;
        LookAround(c', t', x');
      } else {
        FarNephew(c, t);
        TurnRightFarNephew(x.parent, w, w.left, c, t);
        GoTop(c.up, AfterFarNephew(c, t));
        x', c', t' := root, Top, Plug(c.up, AfterFarNephew(c, t));
        PlugPainted(c.up, AfterFarNephew(c, t));
        LookAround(c', t', x');
      }
    }

    /** One turn of the loop of `deleteNode` for `x` on the left. */
    method DeleteStepLeft(x: MapNode, ghost c: Path, ghost t: Tree)
      returns (x': MapNode, ghost c': Path, ghost t': Tree)
      requires At(c, t) && Short(c, t) && x == NodeOf(t, sentinel) && IsBlack(t) && c.InLeft?
      requires x.parent == PathNode(c, sentinel)
      modifies `root, nodes
      ensures At(c', t') && Short(c', t') && x' == NodeOf(t', sentinel) && x'.parent == PathNode(c', sentinel)
      ensures SentinelKept()
      ensures Inorder(Plug(c', t')) == Inorder(Plug(c, t)) && DeleteMeasure(c', t') < DeleteMeasure(c, t)
    {
      Sibling(c, t);
      LookAround(c, t, x);
      GoUp(c, t);
      GoDown(c.up, Up(c, t));
      var w := x.parent.right;
      LookAround(InRight(c.up, c.e, c.black, t), c.sib, w);
      if !w.isBlack {
        RedSibling(c, t);
        TurnLeftRedSibling(x.parent, w, c, t);
        LookAround(AfterRedSibling(c), t, x);
        x', c', t' := DeleteTurnLeft(x, x.parent.right, AfterRedSibling(c), t);
      } else {
        x', c', t' := DeleteTurnLeft(x, w, c, t);
      }
    }

    /** One turn of the loop of `deleteNode` for `x` on the right. */
    method DeleteStepRight(x: MapNode, ghost c: Path, ghost t: Tree)
      returns (x': MapNode, ghost c': Path, ghost t': Tree)
      requires At(c, t) && Short(c, t) && x == NodeOf(t, sentinel) && IsBlack(t) && c.InRight?
      requires x.parent == PathNode(c, sentinel)
      modifies `root, nodes
      ensures At(c', t') && Short(c', t') && x' == NodeOf(t', sentinel) && x'.parent == PathNode(c', sentinel)
      ensures SentinelKept()
      ensures Inorder(Plug(c', t')) == Inorder(Plug(c, t)) && DeleteMeasure(c', t') < DeleteMeasure(c, t)
    {
      Sibling(c, t);
      LookAround(c, t, x);
      GoUp(c, t);
      GoDown(c.up, Up(c, t));
      var w := x.parent.left;
      LookAround(InLeft(c.up, c.e, c.black, t), c.sib, w);
      if !w.isBlack {
        RedSibling(c, t);
        TurnRightRedSibling(x.parent, w, c, t);
        LookAround(AfterRedSibling(c), t, x);
        x', c', t' := DeleteTurnRight(x, x.parent.left, AfterRedSibling(c), t);
      } else {
        x', c', t' := DeleteTurnRight(x, w, c, t);
      }
    }

    /** The fix-up loop of `deleteNode`. */
    method DeleteFixup(x0: MapNode, ghost c0: Path, ghost t0: Tree)
      requires At(c0, t0) && Short(c0, t0) && x0 == NodeOf(t0, sentinel) && x0.parent == PathNode(c0, sentinel)
      modifies `root, `tree, nodes
      ensures At(Top, tree) && Balanced(tree) && IsBlack(tree) && Entries() == Inorder(Plug(c0, t0))
      ensures SentinelKept()
    {
      var x := x0;
      ghost var c, t := c0, t0;
      LookAround(c, t, x);
      while root != x && x.isBlack
        invariant At(c, t) && Short(c, t) && x == NodeOf(t, sentinel) && x.parent == PathNode(c, sentinel)
        invariant Inorder(Plug(c, t)) == Inorder(Plug(c0, t0))
        invariant {x, root, x.parent} <= nodes && (c.Top? <==> root == x) && x.isBlack == IsBlack(t)
        invariant !c.Top? ==> c.e.node.left == if c.InLeft? then x else NodeOf(c.sib, sentinel)
        invariant SentinelKept()
        decreases DeleteMeasure(c, t)
      {
        Sibling(c, t);
        LookAround(c, t, x);
        if x == x.parent.left {
          x, c, t := DeleteStepLeft(x, c, t);
        } else {
          x, c, t := DeleteStepRight(x, c, t);
        }
        LookAround(c, t, x);
      }
      DeleteDone(c, t);
      Blacken(x, c, t);
    }

    /** `x->_isBlack = true`, where `x` may be the sentinel. */
    method Blacken(x: MapNode, ghost c: Path, ghost t: Tree)
      requires At(c, t) && x == NodeOf(t, sentinel)
      modifies `tree, nodes
      ensures tree == Plug(c, Painted(t, true)) && At(Top, tree) && SentinelKept()
    {
      ghost var m := Links();
      LookAround(c, t, x);
      x.isBlack := true;
      assert Links() == m[x := m[x].(isBlack := true)];
      if t.Node? {
        PaintedLinks(m, Links(), root, c, t, true, lo, hi, sentinel);
      } else {
        assert Links() == m;
      }
      GoTop(c, Painted(t, true));
      tree := Plug(c, Painted(t, true));
    }

    // ---------- neighbours in key order ----------

    lemma {:induction false} GoAlong(rel: Path, base: Path, t: Tree)
      requires At(base, Plug(rel, t))
      ensures At(Onto(rel, base), t)
      decreases rel
    {
      if !rel.Top? {
        GoAlong(rel.up, base, Up(rel, t));
        GoDown(Onto(rel.up, base), Up(rel, t));
      }
    }

    lemma {:induction false} GoBack(rel: Path, base: Path, t: Tree)
      requires At(Onto(rel, base), t)
      ensures At(base, Plug(rel, t))
      decreases rel
    {
      if !rel.Top? {
        GoUp(Onto(rel, base), t);
        GoBack(rel.up, base, Up(rel, t));
      }
    }

    /** The first entry of a sequence, as a node. */
    ghost function First(s: seq<Entry>): MapNode
    {
      if s == [] then sentinel else s[0].node
    }

    /** The leftmost node below `x`, which is at the focus. */
    method FindMinimum(x: MapNode, ghost c: Path, ghost t: Tree) returns (r: MapNode, ghost rel: Path, ghost low: Tree)
      requires At(c, t) && t.Node? && x == t.e.node
      ensures LeftSpine(rel) && Plug(rel, low) == t && low.Node? && low.left.Leaf? && r == low.e.node
      ensures At(Onto(rel, c), low) && r == First(Inorder(t))
    {
      r, rel, low := x, Top, t;
      LookAround(c, low, r);
      GoDown(c, low);
      LookAround(InLeft(c, low.e, low.black, low.right), low.left, r.left);
      while r.left.key != Null
        invariant LeftSpine(rel) && Plug(rel, low) == t && low.Node? && r == low.e.node && At(Onto(rel, c), low)
        invariant {r, r.left} <= nodes && r.left == NodeOf(low.left, sentinel)
        invariant (r.left.key == Null <==> low.left.Leaf?)
        decreases low
      {
        GoDown(Onto(rel, c), low);
        r := r.left;
        rel, low := InLeft(rel, low.e, low.black, low.right), low.left;
        LookAround(Onto(rel, c), low, r);
        GoDown(Onto(rel, c), low);
        LookAround(InLeft(Onto(rel, c), low.e, low.black, low.right), low.left, r.left);
      }
      NothingBefore(rel);
      InorderPlug(rel, low);
    }

    /** The node after `x` in key order, or the sentinel. */
    method FindSuccessor(x: MapNode, ghost c: Path, ghost t: Tree)
      returns (r: MapNode, ghost rel: Path, ghost low: Tree)
      requires At(c, t) && t.Node? && x == t.e.node
      ensures r == First(Inorder(t.right) + After(c)) && r in nodes
      ensures t.right.Node? ==>
                LeftSpine(rel) && Plug(rel, low) == t.right && low.Node? && low.left.Leaf? && r == low.e.node
      ensures t.right.Node? ==> At(Onto(rel, InRight(c, t.e, t.black, t.left)), low)
    {
      LookAround(c, t, x);
      GoDown(c, t);
      LookAround(InRight(c, t.e, t.black, t.left), t.right, x.right);
      if x.right.key != Null {
        r, rel, low := FindMinimum(x.right, InRight(c, t.e, t.black, t.left), t.right);
        LookAround(Onto(rel, InRight(c, t.e, t.black, t.left)), low, r);
        InorderPlug(rel, low);
        NothingBefore(rel);
      } else {
        var x' := x;
        ghost var c', t' := c, t;
        r := x.parent;
        while r.key != Null && x' == r.right
          invariant At(c', t') && t'.Node? && x' == t'.e.node && r == PathNode(c', sentinel) && After(c') == After(c)
          invariant r in nodes && (c'.Top? <==> r.key == Null) && (!c'.Top? ==> (r.right == x' <==> c'.InRight?))
          decreases c'
        {
          GoUp(c', t');
          c', t' := c'.up, Up(c', t');
          x' := r;
          LookAround(c', t', x');
          r := r.parent;
        }
        rel, low := Top, t;
      }
    }

    // ---------- deletion ----------

    /** Takes a node with at most one child out of the tree; its child `x` moves up. */
    method Splice(y: MapNode) returns (x: MapNode)
      requires {y, y.left, y.right, y.parent, sentinel} <= nodes
      requires forall o :: o in nodes ==> (o.key == Null <==> o == sentinel)
      requires y != sentinel && y.parent != y && y.left != y && y.right != y
      requires y.parent != sentinel ==> y.parent != y.left && y.parent != y.right
      modifies `root, nodes
      ensures SpliceWrites(old(Links()), Links(), old(root), root, y, sentinel)
      ensures x == if old(y.left) != sentinel then old(y.left) else old(y.right)
    {
      if y.left.key != Null {
        x := y.left;
      } else {
        x := y.right;
      }
      x.parent := y.parent;
      if y.parent.key == Null {
        root := x;
      } else if y == y.parent.left {
        y.parent.left := x;
      } else {
        y.parent.right := x;
      }
    }

    method SpliceAt(y: MapNode, ghost c: Path, ghost t: Tree) returns (x: MapNode)
      requires At(c, t) && t.Node? && (t.left.Leaf? || t.right.Leaf?) && y == t.e.node
      modifies `root, nodes
      ensures At(c, OnlyChild(t)) && x == NodeOf(OnlyChild(t), sentinel) && x.parent == PathNode(c, sentinel)
      ensures x in nodes && SidesKept()
      ensures y.isBlack == old(y.isBlack) && y.value == old(y.value)
    {
      ghost var m, root0 := Links(), root;
      SurroundingsDistinct(m, root, c, t, lo, hi, sentinel);
      x := Splice(y);
      Spliced(m, Links(), root0, root, c, t, lo, hi, sentinel);
    }

    /** Gives `y` the links and the colour of `z`, and makes it the parent of the children of `z`. */
    method AdoptChildren(z: MapNode, y: MapNode)
      requires {z, y, z.left, z.right} <= nodes && y !in {z, z.left, z.right} && z !in {z.left, z.right}
      modifies nodes
      ensures forall o :: o in nodes && o != y && o != z.left && o != z.right ==>
                            o.parent == old(o.parent) && o.left == old(o.left) && o.right == old(o.right)
      ensures forall o :: o in nodes && o != y ==>
                            o.left == old(o.left) && o.right == old(o.right) && o.isBlack == old(o.isBlack)
                            && o.value == old(o.value)
      ensures y.parent == z.parent && y.left == z.left && y.right == z.right && y.isBlack == z.isBlack
      ensures y.value == old(y.value)
      ensures z.left.parent == z.right.parent == y
    {
      y.parent := z.parent;
      y.left := z.left;
      y.right := z.right;
      y.isBlack := z.isBlack;
      y.right.parent := y;
      y.left.parent := y;
    }

    /** Makes the link that leads to `z` from above lead to `y`. */
    method LeadTo(z: MapNode, y: MapNode)
      requires {y, y.parent} <= nodes && y.parent != y
      modifies `root, y.parent`left, y.parent`right
      ensures y.parent == old(y.parent)
      ensures y.parent.right == if z == old(y.parent.right) then y else old(y.parent.right)
      ensures y.parent.left == if z == old(y.parent.right) then old(y.parent.left) else y
      ensures root == if old(root) == z then y else old(root)
    {
      if z == y.parent.right {
        y.parent.right := y;
      } else {
        y.parent.left := y;
      }
      if root == z {
        root := y;
      }
    }

    /** Puts `y` in the place of `z`. */
    method TakeOver(z: MapNode, y: MapNode)
      requires {z, y, z.left, z.right, z.parent, sentinel} <= nodes
      requires z != sentinel && y != sentinel && z != y && z !in {z.left, z.right, z.parent}
      requires y !in {z.left, z.right, z.parent}
      requires z.left != sentinel ==> z.left != z.right && z.left != z.parent
      requires z.right != sentinel ==> z.right != z.parent
      modifies `root, nodes
      ensures TakeOverWrites(old(Links()), Links(), old(root), root, z, y, sentinel)
    {
      AdoptChildren(z, y);
      LeadTo(z, y);
    }

    method TakeOverAt(z: MapNode, y: MapNode, ghost c: Path, ghost t: Tree, ghost e: Entry)
      requires At(c, t) && t.Node? && z == t.e.node && y in nodes && e == Entry(y, e.key, y.value)
      requires y.key == Key(e.key)
      requires HoleLo(c, lo) < e.key < HoleHi(c, hi) && Within(t.left, HoleLo(c, lo), e.key)
      requires Within(t.right, e.key, HoleHi(c, hi))
      requires t.left.Node? && e.key != t.e.key && sentinel.right == sentinel
      modifies `root, nodes
      ensures At(c, Node(t.left, e, t.black, t.right))
      ensures sentinel.parent == if t.right.Leaf? then y else old(sentinel.parent)
      ensures sentinel.left == (if c.Top? then y else old(sentinel.left)) && sentinel.right == sentinel
    {
      ghost var m, root0 := Links(), root;
      SurroundingsDistinct(m, root, c, t, lo, hi, sentinel);
      TakeOver(z, y);
      TakenOver(m, Links(), root0, root, c, t, e, lo, hi, sentinel);
    }

    /** The relinking part of `deleteNode` for a node with at most one child. */
    method UnlinkHere(z: MapNode, ghost c: Path, ghost t: Tree) returns (x: MapNode)
      requires Valid() && At(c, t) && t.Node? && (t.left.Leaf? || t.right.Leaf?) && z == t.e.node && Plug(c, t) == tree
      modifies `root, nodes
      ensures At(c, OnlyChild(t)) && x == NodeOf(OnlyChild(t), sentinel) && x.parent == PathNode(c, sentinel)
      ensures z.isBlack == t.black && (t.black ==> Short(c, OnlyChild(t))) && SidesKept()
      ensures !t.black ==> Balanced(Plug(c, OnlyChild(t))) && IsBlack(Plug(c, OnlyChild(t)))
      ensures Added(Inorder(Plug(c, OnlyChild(t))), t.e, old(Entries()))
    {
      LookAround(c, t, z);
      SplicedBalance(c, t);
      if !t.black {
        BalancedPlug(c, OnlyChild(t));
      }
      WalkWithout(c, t, OnlyChild(t), t.e);
      x := SpliceAt(z, c, t);
    }

    /** Puts `y`, which has been taken out, in the place of `z`; the focus goes back to where `y` was. */
    method Settle(x: MapNode, z: MapNode, y: MapNode, ghost c: Path, ghost t: Tree, ghost rel: Path, ghost g: Tree,
                  ghost e: Entry)
      returns (ghost c': Path)
      requires At(c, t) && t.Node? && t.left.Node? && z == t.e.node && t.right == Plug(rel, g)
      requires y in nodes && e == Entry(y, e.key, y.value) && y.key == Key(e.key) && t.e.key < e.key < HoleHi(c, hi)
      requires Within(t.right, e.key, HoleHi(c, hi))
      requires x == NodeOf(g, sentinel) && x.parent == PathNode(Onto(rel, InRight(c, t.e, t.black, t.left)), sentinel)
      requires sentinel.right == sentinel
      modifies `root, nodes
      ensures c' == Onto(rel, InRight(c, e, t.black, t.left))
      ensures At(c', g) && x.parent == PathNode(c', sentinel)
      ensures sentinel.left == (if c.Top? then y else old(sentinel.left)) && sentinel.right == sentinel
    {
      Widened(t.left, HoleLo(c, lo), t.e.key, HoleLo(c, lo), e.key);
      TakeOverAt(z, y, c, t, e);
      GoDown(c, Node(t.left, e, t.black, t.right));
      c' := Onto(rel, InRight(c, e, t.black, t.left));
      GoAlong(rel, InRight(c, e, t.black, t.left), g);
      if g.Node? {
        LookAround(c', g, x);
      } else if !rel.Top? {
        PlugIsNode(rel, g);
      }
    }

    /** The relinking part of `deleteNode` for a node with two children: its successor `y` is taken out, and then put
        in the place of `z`. */
    method UnlinkThere(z: MapNode, y: MapNode, ghost c: Path, ghost t: Tree, ghost rel: Path, ghost low: Tree)
      returns (x: MapNode, ghost c': Path)
      requires At(c, t) && t.Node? && t.left.Node? && z == t.e.node
      requires LeftSpine(rel) && Plug(rel, low) == t.right && low.Node? && low.left.Leaf? && y == low.e.node
      requires At(Onto(rel, InRight(c, t.e, t.black, t.left)), low) && sentinel.right == sentinel
      modifies `root, nodes
      ensures c' == Onto(rel, InRight(c, low.e, t.black, t.left))
      ensures At(c', low.right) && x == NodeOf(low.right, sentinel) && x.parent == PathNode(c', sentinel)
      ensures sentinel.left == (if c.Top? then y else old(sentinel.left)) && sentinel.right == sentinel
    {
      ghost var base, r' := InRight(c, t.e, t.black, t.left), Plug(rel, low.right);
      LookAround(Onto(rel, base), low, y);
      x := SpliceAt(y, Onto(rel, base), low);
      GoBack(rel, base, low.right);
      GoUp(base, r');
      LeftmostRemoved(rel, low, t.e.key, HoleHi(c, hi));
      c' := Settle(x, z, y, c, Node(t.left, t.e, t.black, r'), rel, low.right, low.e);
    }

    /** Frees a node that is no longer linked.  Everything from here on leaves it alone. */
    method Free(z: MapNode, ghost c: Path, ghost t: Tree, ghost e: Entry, ghost s: seq<Entry>)
      requires At(c, t) && e.node == z && z != sentinel && z in nodes && z.key == Key(e.key)
      requires Sorted(s) && Added(Inorder(Plug(c, t)), e, s)
      modifies `nodes
      ensures nodes == old(nodes) - {z} && At(c, t)
    {
      ghost var m := Links();
      KeyGone(s, e, Inorder(Plug(c, t)));
      InorderPlug(c, t);
      assert forall e' :: e' in Before(c) || e' in Inorder(t) || e' in After(c) ==> e' in Inorder(Plug(c, t));
      Forgotten(m, root, c, t, lo, hi, sentinel, e);
      nodes := nodes - {z};
      assert Links() == m - {z};
    }

    /** The relinking part of `deleteNode`: `x` ends up where one black node may be missing. */
    method Unlink(z: MapNode, ghost c: Path, ghost t: Tree)
      returns (x: MapNode, isBlack: bool, ghost c': Path, ghost t': Tree)
      requires Valid() && At(c, t) && t.Node? && z == t.e.node && Plug(c, t) == tree
      modifies `root, nodes
      ensures At(c', t') && x == NodeOf(t', sentinel) && x.parent == PathNode(c', sentinel)
      ensures if isBlack then Short(c', t') else Balanced(Plug(c', t')) && IsBlack(Plug(c', t'))
      ensures Added(Inorder(Plug(c', t')), t.e, old(Entries()))
      ensures sentinel.left == (if c.Top? && t.left.Node? && t.right.Node? then First(Inorder(t.right))
                                else old(sentinel.left))
      ensures sentinel.right == sentinel && (c.Top? && t.left.Node? && t.right.Node? ==> sentinel.left != sentinel)
    {
      LookAround(c, t, z);
      GoDown(c, t);
      LookAround(InLeft(c, t.e, t.black, t.right), t.left, z.left);
      LookAround(InRight(c, t.e, t.black, t.left), t.right, z.right);
      if z.left.key == Null || z.right.key == Null {
        isBlack := z.isBlack;
        c', t' := c, OnlyChild(t);
        x := UnlinkHere(z, c, t);
      } else {
        var y;
        ghost var rel, low;
        y, rel, low := FindSuccessor(z, c, t);
        LookAround(Onto(rel, InRight(c, t.e, t.black, t.left)), low, y);
        isBlack := y.isBlack;
        ReplacedBalance(c, t, rel, low);
        ReplacedWalk(c, t, rel, low);
        x, c' := UnlinkThere(z, y, c, t, rel, low);
        t' := low.right;
      }
    }

    /** Finds the place of a node that the map holds. */
    lemma Focus(e: Entry) returns (c: Path, t: Tree)
      requires Valid() && e in Entries()
      ensures At(c, t) && t.Node? && t.e == e && Plug(c, t) == tree
      ensures e.node in nodes && e.node != sentinel && e.node.key == Key(e.key) && e.node.value == e.value
    {
      c, t := Locate(Top, tree, e);
      OntoTop(c);
      GoAlong(c, Top, t);
      WalkWithin(tree, lo, hi);
    }

    /** The node after the root in key order. */
    ghost function RootSuccessor(): MapNode
      reads this`tree
    {
      if tree.Leaf? then sentinel else First(Inorder(tree.right))
    }

    /** The root has two children if and only if the map has three entries or more. */
    lemma AtRoot(z: MapNode, c: Path, t: Tree)
      requires Valid() && At(c, t) && t.Node? && z == t.e.node && Plug(c, t) == tree
      ensures c.Top? && t.left.Node? && t.right.Node? <==> z == root && size >= 3
      ensures c.Top? ==> t == tree
    {
      LookAround(c, t, z);
      RootHasTwo(tree);
    }

    /** The fix-up loop runs if a black node has gone. */
    method Rebalance(x: MapNode, isBlack: bool, ghost c: Path, ghost t: Tree)
      requires At(c, t) && x == NodeOf(t, sentinel) && x.parent == PathNode(c, sentinel)
      requires if isBlack then Short(c, t) else Balanced(Plug(c, t)) && IsBlack(Plug(c, t))
      modifies `root, `tree, nodes
      ensures At(Top, tree) && Balanced(tree) && IsBlack(tree) && Entries() == Inorder(Plug(c, t)) && SentinelKept()
    {
      if !isBlack {
        GoTop(c, t);
        tree := Plug(c, t);
        return;
      }
      DeleteFixup(x, c, t);
    }

    /** What `deleteNode` does once `z` is no longer linked. */
    method FinishDeletion(z: MapNode, x: MapNode, isBlack: bool, ghost c: Path, ghost t: Tree, ghost e: Entry,
                          ghost s: seq<Entry>)
      requires At(c, t) && x == NodeOf(t, sentinel) && x.parent == PathNode(c, sentinel)
      requires if isBlack then Short(c, t) else Balanced(Plug(c, t)) && IsBlack(Plug(c, t))
      requires e.node == z && z != sentinel && z in nodes && z.key == Key(e.key)
      requires Sorted(s) && Added(Inorder(Plug(c, t)), e, s) && size == |s| && |nodes| == size + 1
      modifies `root, `size, `tree, `nodes, nodes
      ensures Whole() && nodes == old(nodes) - {z} && Added(Entries(), e, s) && SentinelKept()
    {
      Free(z, c, t, e, s);
      KeyGone(s, e, Inorder(Plug(c, t)));
      size := size - 1;
      Rebalance(x, isBlack, c, t);
    }

    /** `deleteNode`, with what it leaves on the left of the sentinel. */
    method Delete(z: MapNode, ghost e: Entry)
      requires Valid() && e in Entries() && e.node == z
      modifies `root, `size, `tree, `nodes, nodes
      ensures Whole() && nodes == old(nodes) - {z} && Added(Entries(), e, old(Entries()))
      ensures z == old(root) && old(size) >= 3 ==> sentinel.left == old(RootSuccessor()) != sentinel
      ensures !(z == old(root) && old(size) >= 3) ==> sentinel.left == old(sentinel.left)
      ensures sentinel.right == sentinel
    {
      ghost var s, c, t := Entries(), Top, tree;
      WalkWithin(tree, lo, hi);
      c, t := Focus(e);
      AtRoot(z, c, t);
      var x, isBlack;
      x, isBlack, c, t := Unlink(z, c, t);
      FinishDeletion(z, x, isBlack, c, t, e, s);
    }

    /** Takes a node out of the map. */
    method DeleteNode(z: MapNode, ghost e: Entry)
      requires Valid() && e in Entries() && e.node == z
      modifies this, nodes
      ensures Valid() && nodes == old(nodes) - {z}
      ensures Added(Entries(), e, old(Entries()))
      ensures rootReplaced == (old(rootReplaced) || (z == old(root) && old(size) >= 3))
      ensures sentinel.left == if z == old(root) && old(size) >= 3 then old(RootSuccessor()) else old(sentinel.left)
    {
      Delete(z, e);
      rootReplaced := sentinel.left != sentinel;
    }

    // ---------- the public operations ----------

    /** The search loop of `findNode`, from the root: the node that carries the key, or the sentinel. */
    method FindNode(k: KeyPointer) returns (r: MapNode, ghost e: Entry)
      requires Valid() && k.Key?
      ensures r in nodes && (r == sentinel <==> !HasKey(Entries(), k.rank)) && (r == sentinel <==> r.key == Null)
      ensures r != sentinel ==> e in Entries() && e == Entry(r, k.rank, r.value)
    {
      ghost var l, h := if k.rank <= lo then k.rank - 1 else lo, if hi <= k.rank then k.rank + 1 else hi;
      ghost var c, t, m := Top, tree, Links();
      Rebounded(m, root, tree, lo, hi, l, h, sentinel);
      var x := root;
      Neighbours(m, root, c, t, l, h, sentinel);
      e := Entry(sentinel, 0, 0);
      while x.key != Null
        invariant Zipped(m, root, c, t, l, h, sentinel) && x == NodeOf(t, sentinel) && x in nodes
        invariant HoleLo(c, l) < k.rank < HoleHi(c, h) && Plug(c, t) == tree
        decreases t
      {
        Neighbours(m, root, c, t, l, h, sentinel);
        MovedDown(m, root, c, t, l, h, sentinel);
        var result := Compare(k, x.key);
        if 0 == result {
          Narrowed(c, t, l, h, k.rank);
          InorderPlug(c, t);
          assert t.e in Inorder(t);
          e := t.e;
          return x, e;
        } else if 0 < result {
          x := x.right;
          c, t := InRight(c, t.e, t.black, t.left), t.right;
        } else {
          x := x.left;
          c, t := InLeft(c, t.e, t.black, t.right), t.left;
        }
        Neighbours(m, root, c, t, l, h, sentinel);
      }
      Narrowed(c, t, l, h, k.rank);
      r := sentinel;
    }

    /** Adds a key, unless it is null, taken, or `memory` says that the allocator has none left.  `node` is the new
        node, if any. */
    method Insert(key: KeyPointer, value: int, memory: bool) returns (error: Error, node: MapNode?)
      requires Valid()
      modifies this, nodes
      ensures Valid() && rootReplaced == old(rootReplaced)
      ensures error == if key == Null then NullPointer
                       else if old(size) == UINT32_MAX then Overflow
                       else if !memory then OutOfMemory
                       else if HasKey(old(Entries()), key.rank) then UniquenessViolation
                       else Success
      ensures error != Success ==> SameMap() && node == null
      ensures error == Success ==> node != null && fresh(node) && nodes == old(nodes) + {node}
      ensures error == Success ==> Added(old(Entries()), Entry(node, key.rank, value), Entries())
    {
      node := null;
      if key == Null {
        return NullPointer, null;
      }
      if size == UINT32_MAX {
        return Overflow, null;
      }
      if !memory {
        return OutOfMemory, null;
      }
      var z := new MapNode(sentinel, true, key.rank, value);
      var inserted := InsertNode(z);
      if !inserted {
        return UniquenessViolation, null;
      }
      return Success, z;
    }

    /** Takes out the entry with a key. */
    method Remove(key: KeyPointer) returns (error: Error, ghost e: Entry)
      requires Valid()
      modifies this, nodes
      ensures Valid() && nodes <= old(nodes)
      ensures error == if key == Null then NullPointer else if !HasKey(old(Entries()), key.rank)
                       then CannotFind else Success
      ensures error != Success ==> SameMap()
      ensures error == Success ==> e.key == key.rank && Added(Entries(), e, old(Entries()))
      ensures error == Success ==> rootReplaced == (old(rootReplaced) || (e.node == old(root) && old(size) >= 3))
    {
      e := Entry(sentinel, 0, 0);
      if key == Null {
        return NullPointer, e;
      }
      var node;
      node, e := FindNode(key);
      if node.key == Null {
        return CannotFind, e;
      }
      DeleteNode(node, e);
      error := Success;
    }

    /** One freeing step of `clear`: the leaf `x` below `p` goes. */
    method FreeLeaf(x: MapNode, p: MapNode, ghost c: Path, ghost t: Tree)
      requires At(c, t) && t.Node? && t.left.Leaf? && t.right.Leaf? && !c.Top? && x == t.e.node && p == c.e.node
      modifies `nodes, nodes
      ensures At(c, Leaf) && x in old(nodes) && nodes == old(nodes) - {x} && SentinelKept()
    {
      ghost var m := Links();
      LookAround(c, t, x);
      SurroundingsDistinct(m, root, c, t, lo, hi, sentinel);
      nodes := nodes - {x};
      if x == p.right {
        p.right := sentinel;
      } else {
        p.left := sentinel;
      }
      Pruned(m, Links(), root, c, t, lo, hi, sentinel);
    }

    lemma OneLeft(s: set<MapNode>, o: MapNode)
      requires |s| == 1 && o in s
      ensures s == {o}
    {
      assert |s - {o}| == 0;
    }

    /** What has been freed was live before, is not live any more, and was freed once. */
    ghost predicate FreedOnce(freed: seq<MapNode>, live: set<MapNode>, all: set<MapNode>)
    {
      && (forall i :: 0 <= i < |freed| ==> freed[i] in all && freed[i] != sentinel && freed[i] !in live)
      && (forall i, j :: 0 <= i < j < |freed| ==> freed[i] != freed[j])
    }

    lemma FreedOneMore(freed: seq<MapNode>, live: set<MapNode>, all: set<MapNode>, x: MapNode)
      requires FreedOnce(freed, live, all) && x in live && x in all && x != sentinel
      ensures FreedOnce(freed + [x], live - {x}, all)
    {
    }

    /** One turn of the loop of `clear`, unless only the root is left: one step down, or a leaf is freed. */
    method ClearStep(x: MapNode, ghost c: Path, ghost t: Tree)
      returns (x': MapNode, leaf: bool, ghost c': Path, ghost t': Tree)
      requires At(c, t) && t.Node? && x == t.e.node && !(c.Top? && t.left.Leaf? && t.right.Leaf?)
      modifies `nodes, nodes
      ensures At(c', t') && t'.Node? && x' == t'.e.node && x in old(nodes) && x != sentinel && SidesKept()
      ensures nodes == if leaf then old(nodes) - {x} else old(nodes)
      ensures if leaf then |Inorder(Plug(c, t))| == |Inorder(Plug(c', t'))| + 1
              else Plug(c', t') == Plug(c, t) && |Inorder(t')| < |Inorder(t)|
    {
      LookAround(c, t, x);
      GoDown(c, t);
      LookAround(InLeft(c, t.e, t.black, t.right), t.left, x.left);
      LookAround(InRight(c, t.e, t.black, t.left), t.right, x.right);
      if x.right.key != Null {
        x', leaf := x.right, false;
        c', t' := InRight(c, t.e, t.black, t.left), t.right;
      } else if x.left.key != Null {
        x', leaf := x.left, false;
        c', t' := InLeft(c, t.e, t.black, t.right), t.left;
      } else {
        x', leaf := x.parent, true;
        c', t' := c.up, Up(c, Leaf);
        PrunedWalk(c, t);
        FreeLeaf(x, x', c, t);
        GoUp(c, Leaf);
      }
    }

    /** `x` is the only node left. */
    method OnlyNode(x: MapNode, ghost c: Path, ghost t: Tree) returns (only: bool)
      requires At(c, t) && t.Node? && x == t.e.node
      ensures only <==> c.Top? && t.left.Leaf? && t.right.Leaf?
      ensures {x, sentinel} <= nodes && x != sentinel
    {
      LookAround(c, t, x);
      GoDown(c, t);
      LookAround(InLeft(c, t.e, t.black, t.right), t.left, x.left);
      LookAround(InRight(c, t.e, t.black, t.left), t.right, x.right);
      only := x.right.key == Null && x.left.key == Null && x.parent.key == Null;
    }

    method FreeRoot(x: MapNode, ghost t: Tree)
      requires At(Top, t) && t.Node? && t.left.Leaf? && t.right.Leaf? && x == t.e.node && x != sentinel && x in nodes
      requires |nodes| == 2 && LooseEnds()
      modifies `root, `size, `nodes, `tree
      ensures Valid() && Entries() == [] && nodes == {sentinel} && nodes == old(nodes) - {x}
    {
      root := sentinel;
      size := 0;
      nodes, tree := nodes - {x}, Leaf;
      OneLeft(nodes, sentinel);
    }

    /** Frees every node, in the order of a walk that cuts off leaf after leaf. */
    method Clear() returns (freed: seq<MapNode>)
      requires Valid()
      modifies `root, `size, `nodes, `tree, nodes
      ensures Valid() && Entries() == [] && nodes == {sentinel} && SidesKept()
      ensures |freed| == |old(Entries())| && FreedOnce(freed, nodes, old(nodes))
    {
      freed := [];
      ghost var c, t, all := Top, tree, nodes;
      var x := root;
      LookAround(c, t, x);
      while x.key != Null
        invariant At(c, t) && x == NodeOf(t, sentinel) && x in nodes && nodes <= all && FreedOnce(freed, nodes, all)
        invariant |nodes| == |Inorder(Plug(c, t))| + 1 && |freed| + |Inorder(Plug(c, t))| == |old(Entries())|
        invariant (t.Leaf? ==> freed == [] && c == Top && tree == Leaf && size == 0) && SidesKept()
        invariant x.key == Null <==> t.Leaf?
        decreases |Inorder(Plug(c, t))|, |Inorder(t)|
      {
        ghost var live := nodes;
        var only := OnlyNode(x, c, t);
        if only {
          FreedOneMore(freed, live, all, x);
          freed := freed + [x];
          FreeRoot(x, t);
          return;
        }
        var next, leaf;
        next, leaf, c, t := ClearStep(x, c, t);
        if leaf {
          FreedOneMore(freed, live, all, x);
          freed := freed + [x];
        }
        x := next;
        LookAround(c, t, x);
      }
      OneLeft(nodes, sentinel);
      EmptyTree();
    }

    lemma EmptyTree()
      requires At(Top, tree) && root == sentinel
      ensures tree == Leaf
    {
      LookAround(Top, tree, root);
    }

    // ---------- iteration ----------

    /** The search for the minimum starts at the root even if that is the sentinel.  What it then reads is live if and
        only if no root with two children has been deleted in all the life of the map. */
    lemma MinimumSafe()
      requires Valid()
      ensures root.left in nodes <==> Entries() != [] || !rootReplaced
      ensures Entries() == [] ==> root == sentinel && nodes == {sentinel}
    {
      LookAround(Top, tree, root);
      if tree.Node? {
        GoDown(Top, tree);
        LookAround(InLeft(Top, tree.e, tree.black, tree.right), tree.left, root.left);
      } else {
        OneLeft(nodes, sentinel);
      }
    }

    /** The root of a map of three entries carries the second key. */
    lemma Middle()
      requires Valid() && size == 3
      ensures Sorted(Entries()) && root == Entries()[1].node
    {
      LookAround(Top, tree, root);
      RootHasTwo(tree);
      WalkWithin(tree, lo, hi);
      assert Inorder(tree) == Inorder(tree.left) + [tree.e] + Inorder(tree.right);
    }

    /** Inserts a key above all others. */
    method InsertLast(k: int) returns (ghost e: Entry)
      requires Valid() && size < UINT32_MAX && KeysBelow(Entries(), k)
      modifies this, nodes
      ensures Valid() && fresh(e.node) && nodes == old(nodes) + {e.node}
      ensures Entries() == old(Entries()) + [e] && KeysBelow(Entries(), k + 1) && e.key == k
    {
      var error, node;
      error, node := Insert(Key(k), 0, true);
      e := Entry(node, k, 0);
      WalkWithin(tree, lo, hi);
      AddedLast(old(Entries()), e, Entries());
    }

    method OneTwo() returns (ghost a: Entry, ghost b: Entry)
      requires Valid() && Entries() == []
      modifies this, nodes
      ensures Valid() && fresh({a.node, b.node}) && nodes == old(nodes) + {a.node, b.node}
      ensures Entries() == [a, b] && b.key == 2 && KeysBelow(Entries(), 3)
    {
      a := InsertLast(1);
      b := InsertLast(2);
    }

    /** Inserts the keys 1, 2 and 3 into an empty map. */
    method OneTwoThree() returns (ghost b: Entry)
      requires Valid() && Entries() == []
      modifies this, nodes
      ensures Valid() && fresh(nodes - old(nodes)) && size == 3 && b in Entries() && b.key == 2 && b.node == root
    {
      ghost var a;
      a, b := OneTwo();
      ghost var c := InsertLast(3);
      Middle();
    }

    /** A map that has been emptied, and whose search for the minimum would read a link to a freed node: after the keys
        1, 2 and 3 have been inserted and 2 has been removed. */
    static method EmptiedMap() returns (m: Map)
      ensures m.Valid() && m.Entries() == [] && m.root.left !in m.nodes
    {
      ghost var two, e;
      m := new Map();
      two := m.OneTwoThree();
      ghost var s := m.Entries();
      m.Middle();
      var error;
      error, e := m.Remove(Key(2));
      SameKey(s, two, e, m.Entries());
      var freed := m.Clear();
      m.MinimumSafe();
    }

    /** The least node, or the sentinel if there is none. */
    method MinimumIterator() returns (r: MapNode)
      requires Valid() && (Entries() == [] ==> !rootReplaced)
      ensures r == First(Entries()) && r in nodes && (r.key == Null <==> Entries() == [])
    {
      ghost var rel, low;
      LookAround(Top, tree, root);
      WalkWithin(tree, lo, hi);
      if root == sentinel {
        assert root.left.key == Null;
        return root;
      }
      r, rel, low := FindMinimum(root, Top, tree);
      OntoTop(rel);
      LookAround(rel, low, r);
      InorderPlug(rel, low);
      NothingBefore(rel);
    }

    /** The pre-increment of an iterator that points to the `i`-th entry. */
    method Next(x: MapNode, ghost i: nat) returns (r: MapNode)
      requires Valid() && i < |Entries()| && Entries()[i].node == x
      ensures r == First(Entries()[i + 1..]) && r in nodes && (r.key == Null <==> i + 1 == |Entries()|)
    {
      ghost var c, t, s, rel, low := Top, tree, Entries(), Top, tree;
      c, t := Focus(s[i]);
      InorderPlug(c, t);
      ghost var j := |Before(c)| + |Inorder(t.left)|;
      assert s == Before(c) + (Inorder(t.left) + [t.e] + Inorder(t.right)) + After(c);
      assert s[j] == t.e && s[j + 1..] == Inorder(t.right) + After(c);
      WalkWithin(tree, lo, hi);
      assert i == j;
      r, rel, low := FindSuccessor(x, c, t);
      if i + 1 < |s| {
        assert s[i + 1] in s && r == s[i + 1].node;
      }
    }

    ghost predicate Ascending(visited: seq<MapNode>)
    {
      forall i, j :: 0 <= i < j < |visited| ==>
                       visited[i].key.Key? && visited[j].key.Key? && visited[i].key.rank < visited[j].key.rank
    }

    lemma EntriesAscend(visited: seq<MapNode>)
      requires Valid()
      requires |visited| == |Entries()| && forall i :: 0 <= i < |visited| ==> visited[i] == Entries()[i].node
      ensures Ascending(visited)
    {
      WalkWithin(tree, lo, hi);
      forall i | 0 <= i < |visited|
        ensures visited[i].key == Key(Entries()[i].key)
      {
        assert Entries()[i] in Entries();
      }
    }

    /** Walking a map from its minimum visits every entry once, in key order. */
    method Visit() returns (visited: seq<MapNode>)
      requires Valid() && (Entries() == [] ==> !rootReplaced)
      ensures |visited| == |Entries()| && forall i :: 0 <= i < |visited| ==> visited[i] == Entries()[i].node
      ensures Ascending(visited)
    {
      visited := [];
      var it := MinimumIterator();
      while it.key != Null
        invariant |visited| <= |Entries()| && it == First(Entries()[|visited|..]) && it in nodes
        invariant it.key == Null <==> |visited| == |Entries()|
        invariant forall i :: 0 <= i < |visited| ==> visited[i] == Entries()[i].node
        decreases |Entries()| - |visited|
      {
        ghost var i := |visited|;
        visited := visited + [it];
        it := Next(it, i);
      }
      EntriesAscend(visited);
    }

    // ---------- the map's own check ----------

    method GetHeight(x: MapNode, ghost c: Path, ghost t: Tree) returns (height: nat)
      requires At(c, t) && x == NodeOf(t, sentinel)
      ensures height == Height(t)
      decreases t
    {
      LookAround(c, t, x);
      if x.key == Null {
        return 0;
      }
      GoDown(c, t);
      var right := GetHeight(x.right, InRight(c, t.e, t.black, t.left), t.right);
      var left := GetHeight(x.left, InLeft(c, t.e, t.black, t.right), t.left);
      height := if right > left then right + 1 else left + 1;
    }

    method GetBlackHeight(x: MapNode, ghost c: Path, ghost t: Tree) returns (height: nat, unbalanced: bool)
      requires At(c, t) && x == NodeOf(t, sentinel)
      ensures height == MaxBlack(t) && (unbalanced <==> !Even(t))
      decreases t
    {
      LookAround(c, t, x);
      if x.key == Null {
        return 0, false;
      }
      GoDown(c, t);
      var right, unbalancedRight := GetBlackHeight(x.right, InRight(c, t.e, t.black, t.left), t.right);
      var left, unbalancedLeft := GetBlackHeight(x.left, InLeft(c, t.e, t.black, t.right), t.left);
      unbalanced := unbalancedRight || unbalancedLeft || right != left;
      var max := if right > left then right else left;
      height := if x.isBlack then max + 1 else max;
    }

    /** Checks a tree that is linked, but may have any colours.  The bound on the height, twice the binary logarithm of
        one more than the size, is stated without logarithms. */
    method IsBalanced() returns (balanced: bool)
      requires At(Top, tree)
      ensures balanced <==> Pow2(Height(tree)) <= (size + 1) * (size + 1) && Even(tree)
    {
      LookAround(Top, tree, root);
      var height := GetHeight(root, Top, tree);
      if Pow2(height) > (size + 1) * (size + 1) {
        return false;
      }
      var blackHeight, unbalanced := GetBlackHeight(root, Top, tree);
      balanced := !unbalanced;
    }

    /** The check never fails on a map that only its operations have changed. */
    lemma AlwaysBalanced()
      requires Valid()
      ensures Pow2(Height(tree)) <= (size + 1) * (size + 1) && Even(tree)
    {
      LogarithmicHeight(tree);
      BalancedEven(tree);
    }
  }

  const UINT32_MAX := 0xFFFF_FFFF
}
