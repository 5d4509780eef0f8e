module LinkedTree {
  import opened RedBlackTree

  datatype Cell = Cell(parent: MapNode, left: MapNode, right: MapNode, isBlack: bool, value: int)
  type Cells = map<MapNode, Cell>

  ghost function NodeOf(t: Tree, nil: MapNode): MapNode
  {
    if t.Leaf? then nil else t.e.node
  }

  ghost function PathNode(c: Path, nil: MapNode): MapNode
  {
    if c.Top? then nil else c.e.node
  }

  ghost predicate Linked(m: Cells, t: Tree, parent: MapNode, nil: MapNode)
  {
    match t
    case Leaf => true
    case Node(l, e, b, r) =>
      && e.node in m && m[e.node] == Cell(parent, NodeOf(l, nil), NodeOf(r, nil), b, e.value)
      && Linked(m, l, e.node, nil) && Linked(m, r, e.node, nil)
  }

  ghost predicate PathLinked(m: Cells, c: Path, hole: MapNode, root: MapNode, nil: MapNode)
    decreases c
  {
    match c
    case Top => root == hole
    case InLeft(up, e, b, sib) =>
      && e.node in m && m[e.node] == Cell(PathNode(up, nil), hole, NodeOf(sib, nil), b, e.value)
      && Linked(m, sib, e.node, nil) && PathLinked(m, up, e.node, root, nil)
    case InRight(up, e, b, sib) =>
      && e.node in m && m[e.node] == Cell(PathNode(up, nil), NodeOf(sib, nil), hole, b, e.value)
      && Linked(m, sib, e.node, nil) && PathLinked(m, up, e.node, root, nil)
  }

  lemma {:induction false} LinkedFrame(m: Cells, m': Cells, t: Tree, parent: MapNode, nil: MapNode, lo: int, hi: int)
    requires Linked(m, t, parent, nil) && Within(t, lo, hi)
    requires forall o: MapNode :: o in m && o.key.Key? && lo < o.key.rank < hi ==> o in m' && m'[o] == m[o]
    ensures Linked(m', t, parent, nil)
  {
    if t.Node? {
      LinkedFrame(m, m', t.left, t.e.node, nil, lo, t.e.key);
      LinkedFrame(m, m', t.right, t.e.node, nil, t.e.key, hi);
    }
  }

  lemma {:induction false} PathFrame(m: Cells, m': Cells, c: Path, hole: MapNode, root: MapNode, nil: MapNode, lo: int,
                                     hi: int)
    requires PathLinked(m, c, hole, root, nil) && PathWithin(c, lo, hi)
    requires forall o: MapNode :: o in m && o.key.Key?
                                  && (o.key.rank <= HoleLo(c, lo) || HoleHi(c, hi) <= o.key.rank) ==>
                                    o in m' && m'[o] == m[o]
    ensures PathLinked(m', c, hole, root, nil)
    decreases c
  {
    match c
    case Top =>
    case InLeft(up, e, b, sib) =>
      LinkedFrame(m, m', sib, e.node, nil, e.key, HoleHi(up, hi));
      PathFrame(m, m', up, e.node, root, nil, lo, hi);
    case InRight(up, e, b, sib) =>
      LinkedFrame(m, m', sib, e.node, nil, HoleLo(up, lo), e.key);
      PathFrame(m, m', up, e.node, root, nil, lo, hi);
  }

  ghost predicate Zipped(m: Cells, root: MapNode, c: Path, t: Tree, lo: int, hi: int, nil: MapNode)
  {
    && PathWithin(c, lo, hi) && Within(t, HoleLo(c, lo), HoleHi(c, hi))
    && PathLinked(m, c, NodeOf(t, nil), root, nil)
    && Linked(m, t, PathNode(c, nil), nil)
    && nil in m && m[nil].isBlack && (forall o: MapNode :: o in m ==> (o.key == Null <==> o == nil))
  }

  /** Redirecting the link that leads to the hole of a path. */
  lemma {:induction false} Redirected(m: Cells, m': Cells, c: Path, x: MapNode, y: MapNode, root: MapNode,
                                      nil: MapNode, lo: int, hi: int)
    requires PathLinked(m, c, x, root, nil) && PathWithin(c, lo, hi) && !c.Top?
    requires nil.key == Null
    requires forall o: MapNode :: o in m && o.key.Key? && o != c.e.node
                                  && (o.key.rank <= HoleLo(c, lo) || HoleHi(c, hi) <= o.key.rank) ==>
                                    o in m' && m'[o] == m[o]
    requires c.e.node in m' && m'[c.e.node] == if c.InLeft? then m[c.e.node].(left := y) else m[c.e.node].(right := y)
    ensures PathLinked(m', c, y, root, nil)
  {
    match c
    case InLeft(up, e, b, sib) =>
      LinkedFrame(m, m', sib, e.node, nil, e.key, HoleHi(up, hi));
      PathFrame(m, m', up, e.node, root, nil, lo, hi);
    case InRight(up, e, b, sib) =>
      LinkedFrame(m, m', sib, e.node, nil, HoleLo(up, lo), e.key);
      PathFrame(m, m', up, e.node, root, nil, lo, hi);
  }

  /** What a left rotation at the root of `t` writes. */
  ghost predicate LeftRotation(m: Cells, m': Cells, root': MapNode, root: MapNode, x: MapNode, nil: MapNode)
    requires x in m && nil in m
  {
    var y := m[x].right;
    y in m && y != nil &&
    var b, p := m[y].left, m[x].parent;
    && m'.Keys == m.Keys && b in m && p in m
    && (forall o :: o in m && o != x && o != y && o != b && o != p ==> m'[o] == m[o])
    && m'[x] == m[x].(right := b, parent := y)
    && m'[y] == m[y].(left := x, parent := p)
    && (b != nil ==> m'[b] == m[b].(parent := x))
    && (p == nil ==> root' == y)
    && (p != nil ==> root' == root && m'[p] == if x == m[p].left then m[p].(left := y) else m[p].(right := y))
    && m'[nil] == m[nil]
  }


  /** What a right rotation at the root of `t` writes. */
  ghost predicate RightRotation(m: Cells, m': Cells, root': MapNode, root: MapNode, x: MapNode, nil: MapNode)
    requires x in m && nil in m
  {
    var y := m[x].left;
    y in m && y != nil &&
    var b, p := m[y].right, m[x].parent;
    && m'.Keys == m.Keys && b in m && p in m
    && (forall o :: o in m && o != x && o != y && o != b && o != p ==> m'[o] == m[o])
    && m'[x] == m[x].(left := b, parent := y)
    && m'[y] == m[y].(right := x, parent := p)
    && (b != nil ==> m'[b] == m[b].(parent := x))
    && (p == nil ==> root' == y)
    && (p != nil ==> root' == root && m'[p] == if x == m[p].right then m[p].(right := y) else m[p].(left := y))
    && m'[nil] == m[nil]
  }

  /** Giving the root of a subtree a new parent. */
  lemma {:induction false} Reparented(m: Cells, m': Cells, t: Tree, p: MapNode, p': MapNode, nil: MapNode, lo: int,
                                      hi: int)
    requires Linked(m, t, p, nil) && Within(t, lo, hi)
    requires forall o: MapNode :: o in m && o.key.Key? && lo < o.key.rank < hi && o != NodeOf(t, nil) ==>
                                    o in m' && m'[o] == m[o]
    requires t.Node? ==> t.e.node in m' && m'[t.e.node] == m[t.e.node].(parent := p')
    ensures Linked(m', t, p', nil)
  {
    if t.Node? {
      LinkedFrame(m, m', t.left, t.e.node, nil, lo, t.e.key);
      LinkedFrame(m, m', t.right, t.e.node, nil, t.e.key, hi);
    }
  }

  lemma {:induction false} LeftRotatedBelow(m: Cells, m': Cells, root: MapNode, root': MapNode, p: MapNode, t: Tree,
                                            L: int, H: int, nil: MapNode)
    requires t.Node? && t.right.Node? && Within(t, L, H) && Linked(m, t, p, nil)
    requires nil in m && nil.key == Null && (p.key.Key? ==> p.key.rank <= L || H <= p.key.rank)
    requires LeftRotation(m, m', root', root, t.e.node, nil)
    ensures Linked(m', RotatedLeft(t), p, nil)
  {
    var x, ty := t.e.node, t.right;
    var a, b, g, y := t.left, ty.left, ty.right, ty.e.node;
    assert Within(ty, t.e.key, H) && Within(b, t.e.key, ty.e.key) && Linked(m, ty, x, nil);
    LinkedFrame(m, m', a, x, nil, L, t.e.key);
    LinkedFrame(m, m', g, y, nil, ty.e.key, H);
    Reparented(m, m', b, y, x, nil, t.e.key, ty.e.key);
  }

  lemma {:induction false} LeftRotated(m: Cells, m': Cells, root: MapNode, root': MapNode, c: Path, t: Tree, lo: int,
                                       hi: int, nil: MapNode)
    requires t.Node? && t.right.Node? && Zipped(m, root, c, t, lo, hi, nil)
    requires LeftRotation(m, m', root', root, t.e.node, nil)
    ensures Zipped(m', root', c, RotatedLeft(t), lo, hi, nil)
  {
    var L, H := HoleLo(c, lo), HoleHi(c, hi);
    assert !c.Top? ==> c.e.node.key == Key(if c.InLeft? then H else L);
    LeftRotatedBelow(m, m', root, root', PathNode(c, nil), t, L, H, nil);
    RotateLeftKeeps(t, L, H);
    if !c.Top? {
      assert Within(t.right, t.e.key, H) && Within(t.right.left, t.e.key, t.right.e.key)
             && Linked(m, t.right, t.e.node, nil);
      Redirected(m, m', c, t.e.node, t.right.e.node, root, nil, lo, hi);
    }
  }

  lemma {:induction false} RightRotatedBelow(m: Cells, m': Cells, root: MapNode, root': MapNode, p: MapNode, t: Tree,
                                             L: int, H: int, nil: MapNode)
    requires t.Node? && t.left.Node? && Within(t, L, H) && Linked(m, t, p, nil)
    requires nil in m && nil.key == Null && (p.key.Key? ==> p.key.rank <= L || H <= p.key.rank)
    requires RightRotation(m, m', root', root, t.e.node, nil)
    ensures Linked(m', RotatedRight(t), p, nil)
  {
    var x, ty := t.e.node, t.left;
    var a, b, g, y := ty.left, ty.right, t.right, ty.e.node;
    assert Within(ty, L, t.e.key) && Within(b, ty.e.key, t.e.key) && Linked(m, ty, x, nil);
    LinkedFrame(m, m', a, y, nil, L, ty.e.key);
    LinkedFrame(m, m', g, x, nil, t.e.key, H);
    Reparented(m, m', b, y, x, nil, ty.e.key, t.e.key);
  }

  lemma {:induction false} RightRotated(m: Cells, m': Cells, root: MapNode, root': MapNode, c: Path, t: Tree, lo: int,
                                        hi: int, nil: MapNode)
    requires t.Node? && t.left.Node? && Zipped(m, root, c, t, lo, hi, nil)
    requires RightRotation(m, m', root', root, t.e.node, nil)
    ensures Zipped(m', root', c, RotatedRight(t), lo, hi, nil)
  {
    var L, H := HoleLo(c, lo), HoleHi(c, hi);
    assert !c.Top? ==> c.e.node.key == Key(if c.InLeft? then H else L);
    RightRotatedBelow(m, m', root, root', PathNode(c, nil), t, L, H, nil);
    RotateRightKeeps(t, L, H);
    if !c.Top? {
      assert Within(t.left, L, t.e.key) && Within(t.left.right, t.left.e.key, t.e.key)
             && Linked(m, t.left, t.e.node, nil);
      Redirected(m, m', c, t.e.node, t.left.e.node, root, nil, lo, hi);
    }
  }

  /** Where a path and a subtree meet, the neighbours of the subtree's root are known. */
  lemma RotatableLeft(m: Cells, root: MapNode, c: Path, t: Tree, lo: int, hi: int, nil: MapNode)
    requires t.Node? && t.right.Node? && Zipped(m, root, c, t, lo, hi, nil)
    ensures var x, y := t.e.node, t.right.e.node; var b, p := NodeOf(t.right.left, nil), PathNode(c, nil);
                                                  && {x, y, b, p} <= m.Keys
                                                  && m[x].right == y && m[y].left == b && m[x].parent == p
                                                  && x != nil && y != nil && x != y && b != x && b != y && p != x
                                                  && p != y && (p != nil ==> p != b)
  {
    var L, H := HoleLo(c, lo), HoleHi(c, hi);
    assert !c.Top? ==> c.e.node.key == Key(if c.InLeft? then H else L);
    assert Within(t.right, t.e.key, H) && Within(t.right.left, t.e.key, t.right.e.key);
    assert Linked(m, t.right, t.e.node, nil) && Linked(m, t.right.left, t.right.e.node, nil);
  }

  lemma RotatableRight(m: Cells, root: MapNode, c: Path, t: Tree, lo: int, hi: int, nil: MapNode)
    requires t.Node? && t.left.Node? && Zipped(m, root, c, t, lo, hi, nil)
    ensures var x, y := t.e.node, t.left.e.node; var b, p := NodeOf(t.left.right, nil), PathNode(c, nil);
                                                 && {x, y, b, p} <= m.Keys
                                                 && m[x].left == y && m[y].right == b && m[x].parent == p
                                                 && x != nil && y != nil && x != y && b != x && b != y && p != x
                                                 && p != y && (p != nil ==> p != b)
  {
    var L, H := HoleLo(c, lo), HoleHi(c, hi);
    assert !c.Top? ==> c.e.node.key == Key(if c.InLeft? then H else L);
    assert Within(t.left, L, t.e.key) && Within(t.left.right, t.left.e.key, t.e.key);
    assert Linked(m, t.left, t.e.node, nil) && Linked(m, t.left.right, t.left.e.node, nil);
  }

  // ---------- moving the focus; nothing is written ----------

  lemma MovedUp(m: Cells, root: MapNode, c: Path, t: Tree, lo: int, hi: int, nil: MapNode)
    requires Zipped(m, root, c, t, lo, hi, nil) && !c.Top?
    ensures Zipped(m, root, c.up, Up(c, t), lo, hi, nil)
  {
  }

  lemma MovedDown(m: Cells, root: MapNode, c: Path, t: Tree, lo: int, hi: int, nil: MapNode)
    requires Zipped(m, root, c, t, lo, hi, nil) && t.Node?
    ensures Zipped(m, root, InLeft(c, t.e, t.black, t.right), t.left, lo, hi, nil)
    ensures Zipped(m, root, InRight(c, t.e, t.black, t.left), t.right, lo, hi, nil)
  {
  }

  lemma {:induction false} RootAbove(m: Cells, root: MapNode, c: Path, x: MapNode, lo: int, hi: int, nil: MapNode)
    requires PathLinked(m, c, x, root, nil) && PathWithin(c, lo, hi) && !c.Top?
    ensures root in m && root.key.Key? && (root.key.rank <= HoleLo(c, lo) || HoleHi(c, hi) <= root.key.rank)
    decreases c
  {
    if !c.up.Top? {
      RootAbove(m, root, c.up, c.e.node, lo, hi, nil);
    }
  }

  /** What the links around a subtree say. */
  lemma Neighbours(m: Cells, root: MapNode, c: Path, t: Tree, lo: int, hi: int, nil: MapNode)
    requires Zipped(m, root, c, t, lo, hi, nil)
    ensures var x, p := NodeOf(t, nil), PathNode(c, nil);
            && {x, p, root} <= m.Keys && (c.Top? <==> root == x) && (c.Top? <==> p == nil) && (!c.Top? ==> x != p)
            && m[x].isBlack == IsBlack(t)
            && (t.Node? ==>
                  x != nil && m[x].parent == p && m[x].left == NodeOf(t.left, nil)
                  && m[x].right == NodeOf(t.right, nil))
            && (!c.Top? ==> m[p].isBlack == c.black && m[p].parent == PathNode(c.up, nil))
            && (c.InLeft? ==> m[p].left == x && m[p].right == NodeOf(c.sib, nil))
            && (c.InRight? ==> m[p].right == x && m[p].left == NodeOf(c.sib, nil))
            && (c.InRight? && t.Node? ==> m[p].left != x)
  {
    if !c.Top? {
      RootAbove(m, root, c, NodeOf(t, nil), lo, hi, nil);
    }
  }

  /** Recolouring the root of a subtree. */
  lemma {:induction false} PaintedLinks(m: Cells, m': Cells, root: MapNode, c: Path, t: Tree, b: bool, lo: int,
                                        hi: int, nil: MapNode)
    requires t.Node? && Zipped(m, root, c, t, lo, hi, nil)
    requires t.e.node in m && m' == m[t.e.node := m[t.e.node].(isBlack := b)]
    ensures Zipped(m', root, c, Painted(t, b), lo, hi, nil)
  {
    LinkedFrame(m, m', t.left, t.e.node, nil, HoleLo(c, lo), t.e.key);
    LinkedFrame(m, m', t.right, t.e.node, nil, t.e.key, HoleHi(c, hi));
    PathFrame(m, m', c, t.e.node, root, nil, lo, hi);
  }

  // ---------- adding a node ----------

  lemma {:induction false} Attached(m: Cells, m': Cells, root: MapNode, root': MapNode, c: Path, e: Entry, b: bool,
                                    lo: int, hi: int, nil: MapNode)
    requires Zipped(m, root, c, Leaf, lo, hi, nil)
    requires e.node !in m && e.node.key == Key(e.key) && HoleLo(c, lo) < e.key < HoleHi(c, hi)
    requires m'.Keys == m.Keys + {e.node}
    requires m'[e.node] == Cell(PathNode(c, nil), nil, nil, b, e.value)
    requires forall o :: o in m && o != PathNode(c, nil) ==> m'[o] == m[o]
    requires c.Top? ==> root' == e.node && m'[nil] == m[nil]
    requires !c.Top? ==> root' == root && c.e.node in m
    requires !c.Top? ==>
               m'[c.e.node] == if c.InLeft? then m[c.e.node].(left := e.node) else m[c.e.node].(right := e.node)
    ensures Zipped(m', root', c, Node(Leaf, e, b, Leaf), lo, hi, nil)
  {
    if !c.Top? {
      Redirected(m, m', c, nil, e.node, root, nil, lo, hi);
    }
  }

  /** The bounds may be moved outwards. */
  lemma {:induction false} Rebounded(m: Cells, root: MapNode, t: Tree, lo: int, hi: int, lo': int, hi': int,
                                     nil: MapNode)
    requires Zipped(m, root, Top, t, lo, hi, nil) && lo' <= lo && hi <= hi'
    ensures Zipped(m, root, Top, t, lo', hi', nil)
  {
    Widened(t, lo, hi, lo', hi');
  }

  // ---------- taking a node out ----------

  /** A node, its children and its parent are distinct. */
  lemma SurroundingsDistinct(m: Cells, root: MapNode, c: Path, t: Tree, lo: int, hi: int, nil: MapNode)
    requires Zipped(m, root, c, t, lo, hi, nil) && t.Node?
    ensures var z, l, r, p := t.e.node, NodeOf(t.left, nil), NodeOf(t.right, nil), PathNode(c, nil);
            && {z, l, r, p, nil} <= m.Keys && m[z].left == l && m[z].right == r && m[z].parent == p
            && z != nil && z !in {l, r, p} && (l != nil ==> l != r && l != p) && (r != nil ==> r != p)
            && (root == z <==> c.Top?) && m[z].isBlack == t.black && (p == nil <==> c.Top?)
            && (c.InLeft? ==> m[p].left == z && m[p].right != z) && (c.InRight? ==> m[p].right == z && m[p].left != z)
    ensures forall e: Entry :: e.node.key == Key(e.key) && HoleLo(c, lo) < e.key < HoleHi(c, hi) ==>
                                 e.node != PathNode(c, nil)
    ensures t.left.Node? ==> t.left.e.node.key == Key(t.left.e.key)
    ensures t.right.Node? ==> t.right.e.node.key == Key(t.right.e.key)
  {
    Neighbours(m, root, c, t, lo, hi, nil);
    assert !c.Top? ==> c.e.node.key == Key(if c.InLeft? then HoleHi(c, hi) else HoleLo(c, lo));
    assert Linked(m, t.left, t.e.node, nil) && Linked(m, t.right, t.e.node, nil);
    assert Within(t.left, HoleLo(c, lo), t.e.key) && Within(t.right, t.e.key, HoleHi(c, hi));
  }

  /** The only child of a node takes its place. */
  lemma {:induction false} Spliced(m: Cells, m': Cells, root: MapNode, root': MapNode, c: Path, t: Tree, lo: int,
                                   hi: int, nil: MapNode)
    requires Zipped(m, root, c, t, lo, hi, nil) && t.Node? && (t.left.Leaf? || t.right.Leaf?)
    requires var x, p := NodeOf(OnlyChild(t), nil), PathNode(c, nil);
             && m'.Keys == m.Keys && x in m && p in m
             && (forall o :: o in m && o != x && o != p ==> m'[o] == m[o])
             && (x != p ==> m'[x] == m[x].(parent := p))
             && m'[nil].isBlack
             && (if c.Top? then root' == x else root' == root && m'[p] == if c.InLeft?
                                                                          then m[p].(left := x) else m[p].(right := x))
    ensures Zipped(m', root', c, OnlyChild(t), lo, hi, nil)
  {
    var y, x, p := OnlyChild(t), NodeOf(OnlyChild(t), nil), PathNode(c, nil);
    var L, H := HoleLo(c, lo), HoleHi(c, hi);
    assert !c.Top? ==> c.e.node.key == Key(if c.InLeft? then H else L);
    assert Linked(m, y, t.e.node, nil);
    if t.left.Node? {
      Widened(y, L, t.e.key, L, H);
    } else {
      Widened(y, t.e.key, H, L, H);
    }
    if y.Node? {
      Reparented(m, m', y, t.e.node, p, nil, L, H);
    }
    if !c.Top? {
      Redirected(m, m', c, t.e.node, x, root, nil, lo, hi);
    }
  }

  /** Another node takes over the place, the links and the colour of the root of a subtree. */
  lemma {:induction false} TakenOver(m: Cells, m': Cells, root: MapNode, root': MapNode, c: Path, t: Tree, e: Entry,
                                     lo: int, hi: int, nil: MapNode)
    requires Zipped(m, root, c, t, lo, hi, nil) && t.Node? && e.node in m
    requires e.node.key == Key(e.key) && HoleLo(c, lo) < e.key < HoleHi(c, hi)
    requires Within(t.left, HoleLo(c, lo), e.key) && Within(t.right, e.key, HoleHi(c, hi))
    requires var y, l, r, p := e.node, NodeOf(t.left, nil), NodeOf(t.right, nil), PathNode(c, nil);
             && m'.Keys == m.Keys && l in m && r in m && p in m
             && (forall o :: o in m && o != y && o != l && o != r && o != p && o != nil ==> m'[o] == m[o])
             && m'[y] == Cell(p, l, r, t.black, e.value)
             && (l != nil ==> m'[l] == m[l].(parent := y))
             && (r != nil ==> m'[r] == m[r].(parent := y))
             && m'[nil].isBlack
             && (if c.Top? then root' == y else root' == root && m'[p] == if c.InLeft?
                                                                          then m[p].(left := y) else m[p].(right := y))
    ensures Zipped(m', root', c, Node(t.left, e, t.black, t.right), lo, hi, nil)
  {
    var L, H := HoleLo(c, lo), HoleHi(c, hi);
    assert !c.Top? ==> c.e.node.key == Key(if c.InLeft? then H else L);
    Reparented(m, m', t.left, t.e.node, e.node, nil, L, e.key);
    Reparented(m, m', t.right, t.e.node, e.node, nil, e.key, H);
    if !c.Top? {
      Redirected(m, m', c, t.e.node, e.node, root, nil, lo, hi);
    }
  }

  /** Forgetting a node that is no longer part of the tree. */
  lemma {:induction false} Forgotten(m: Cells, root: MapNode, c: Path, t: Tree, lo: int, hi: int, nil: MapNode,
                                     z: Entry)
    requires Zipped(m, root, c, t, lo, hi, nil) && z.node != nil && z.node.key == Key(z.key)
    requires !HasKey(Before(c), z.key) && !HasKey(Inorder(t), z.key) && !HasKey(After(c), z.key)
    ensures Zipped(m - {z.node}, root, c, t, lo, hi, nil)
  {
    ForgottenBelow(m, t, PathNode(c, nil), nil, HoleLo(c, lo), HoleHi(c, hi), z);
    ForgottenAbove(m, c, NodeOf(t, nil), root, nil, lo, hi, z);
  }

  lemma {:induction false} ForgottenBelow(m: Cells, t: Tree, p: MapNode, nil: MapNode, lo: int, hi: int, z: Entry)
    requires Linked(m, t, p, nil) && Within(t, lo, hi) && z.node.key == Key(z.key) && !HasKey(Inorder(t), z.key)
    ensures Linked(m - {z.node}, t, p, nil)
  {
    if t.Node? {
      assert forall e :: e in Inorder(t.left) || e in Inorder(t.right) || e == t.e ==> e in Inorder(t);
      ForgottenBelow(m, t.left, t.e.node, nil, lo, t.e.key, z);
      ForgottenBelow(m, t.right, t.e.node, nil, t.e.key, hi, z);
    }
  }

  lemma {:induction false} ForgottenAbove(m: Cells, c: Path, x: MapNode, root: MapNode, nil: MapNode, lo: int, hi: int,
                                          z: Entry)
    requires PathLinked(m, c, x, root, nil) && PathWithin(c, lo, hi) && z.node.key == Key(z.key)
    requires !HasKey(Before(c), z.key) && !HasKey(After(c), z.key)
    ensures PathLinked(m - {z.node}, c, x, root, nil)
    decreases c
  {
    match c
    case Top =>
    case InLeft(up, e, b, sib) =>
      assert forall e' :: e' in Inorder(sib) || e' in After(up) || e' == e ==> e' in After(c);
      ForgottenBelow(m, sib, e.node, nil, e.key, HoleHi(up, hi), z);
      ForgottenAbove(m, up, e.node, root, nil, lo, hi, z);
    case InRight(up, e, b, sib) =>
      assert forall e' :: e' in Inorder(sib) || e' in Before(up) || e' == e ==> e' in Before(c);
      ForgottenBelow(m, sib, e.node, nil, HoleLo(up, lo), e.key, z);
      ForgottenAbove(m, up, e.node, root, nil, lo, hi, z);
  }

  /** What `deleteNode` writes to take `y` out. */
  ghost predicate SpliceWrites(m: Cells, m': Cells, root: MapNode, root': MapNode, y: MapNode, nil: MapNode)
    requires y in m && nil in m
  {
    var x, p := if m[y].left != nil then m[y].left else m[y].right, m[y].parent;
    && m'.Keys == m.Keys && x in m && p in m
    && (forall o :: o in m && o != x && o != p ==> m'[o] == m[o])
    && (x != p ==> m'[x] == m[x].(parent := p))
    && m'[x].parent == p && m'[nil].isBlack == m[nil].isBlack
    && m'[nil].left == m[nil].left && m'[nil].right == m[nil].right
    && (if p == nil then root' == x else root' == root && m'[p] == if y == m[p].left
                                                                   then m[p].(left := x) else m[p].(right := x))
  }

  /** What `deleteNode` writes to put `y` in the place of `z`. */
  ghost predicate TakeOverWrites(m: Cells, m': Cells, root: MapNode, root': MapNode, z: MapNode, y: MapNode,
                                 nil: MapNode)
    requires z in m && y in m && nil in m
  {
    var l, r, p := m[z].left, m[z].right, m[z].parent;
    && m'.Keys == m.Keys && l in m && r in m && p in m
    && (forall o :: o in m && o != y && o != l && o != r && o != p && o != nil ==> m'[o] == m[o])
    && m'[y] == Cell(p, l, r, m[z].isBlack, m[y].value)
    && (l != nil ==> m'[l] == m[l].(parent := y))
    && (r != nil ==> m'[r] == m[r].(parent := y))
    && (p != nil ==> m'[p] == if z == m[p].right then m[p].(right := y) else m[p].(left := y))
    && m'[nil].isBlack == m[nil].isBlack && m'[nil].parent == (if l == nil || r == nil then y else m[nil].parent)
    && m'[nil].left == (if p == nil && z != m[nil].right then y else m[nil].left)
    && m'[nil].right == (if p == nil && z == m[nil].right then y else m[nil].right)
    && root' == if root == z then y else root
  }

  /** Cutting off a leaf. */
  lemma {:induction false} Pruned(m: Cells, m': Cells, root: MapNode, c: Path, t: Tree, lo: int, hi: int, nil: MapNode)
    requires Zipped(m, root, c, t, lo, hi, nil) && t.Node? && t.left.Leaf? && t.right.Leaf? && !c.Top?
    requires m'.Keys == m.Keys - {t.e.node} && c.e.node in m && c.e.node != t.e.node && t.e.node != nil
    requires forall o :: o in m' && o != c.e.node ==> m'[o] == m[o]
    requires m'[c.e.node] == if c.InLeft? then m[c.e.node].(left := nil) else m[c.e.node].(right := nil)
    ensures Zipped(m', root, c, Leaf, lo, hi, nil)
  {
    assert !c.Top? ==> c.e.node.key == Key(if c.InLeft? then HoleHi(c, hi) else HoleLo(c, lo));
    Redirected(m, m', c, t.e.node, nil, root, nil, lo, hi);
  }
}
