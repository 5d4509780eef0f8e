/**
  * What one turn of each fix-up loop does to the colours of the tree, and why the loops end.  `c` is the path to the
  * loop's node `x`, and `t` is the subtree at
  `x`. */
module RedBlackFixup {
  import opened RedBlackTree

  /** Rewriting a subtree into one with the same in-order walk does not change the walk of the whole tree. */
  lemma {:induction false} SameWalk(c: Path, t: Tree, t': Tree)
    requires Inorder(t) == Inorder(t')
    ensures Inorder(Plug(c, t)) == Inorder(Plug(c, t'))
  {
    InorderPlug(c, t);
    InorderPlug(c, t');
  }

  ghost function Length(c: Path): nat
    decreases c
  {
    if c.Top? then 0 else 1 + Length(c.up)
  }

  // ---------- insertion ----------

  /** The loop of `insertNode`: everything holds, except that red `x` may have a red parent. */
  ghost predicate RedBelow(c: Path, t: Tree)
  {
    t.Node? && !t.black && Balanced(t) && Accepts(c, BlackHeight(t), true)
  }

  /** The loop's guard. */
  ghost predicate RedRed(c: Path)
  {
    !c.Top? && !c.black
  }

  ghost function InsertMeasure(c: Path): nat
  {
    if !RedRed(c) || c.up.Top? then 0
    else if !IsBlack(c.up.sib) then 3 + Length(c)
    else if c.InLeft? != c.up.InLeft? then 2
    else 1
  }

  /** A red parent has a black grandparent. */
  lemma Grandparent(c: Path, t: Tree)
    requires RedBelow(c, t) && RedRed(c)
    ensures !c.up.Top? && c.up.black && IsBlack(c.sib) && Balanced(c.sib) && BlackHeight(c.sib) == BlackHeight(t)
    ensures Balanced(c.up.sib) && BlackHeight(c.up.sib) == BlackHeight(t)
    ensures Accepts(c.up.up, BlackHeight(t) + 1, true)
  {
    assert Accepts(c.up, BlackHeight(t), false);
  }

  /** The uncle is red: colours move one level down, and the violation two levels up. */
  ghost function Recoloured(c: Path, t: Tree): Tree
    requires !c.Top? && !c.up.Top?
  {
    var p := Painted(Up(c, t), true);
    var y := Painted(c.up.sib, true);
    if c.up.InLeft? then Node(p, c.up.e, false, y) else Node(y, c.up.e, false, p)
  }

  lemma {:induction false} RedUncle(c: Path, t: Tree)
    requires RedBelow(c, t) && RedRed(c) && !c.up.Top? && !IsBlack(c.up.sib)
    ensures RedBelow(c.up.up, Recoloured(c, t))
    ensures Inorder(Plug(c.up.up, Recoloured(c, t))) == Inorder(Plug(c, t))
    ensures InsertMeasure(c.up.up) < InsertMeasure(c)
  {
    Grandparent(c, t);
    assert Length(c) == 2 + Length(c.up.up);
    assert Inorder(Painted(Up(c, t), true)) == Inorder(Up(c, t))
           && Inorder(Painted(c.up.sib, true)) == Inorder(c.up.sib);
    SameWalk(c.up.up, Up(c.up, Up(c, t)), Recoloured(c, t));
  }

  /** `x` is on the inner side of its parent: after a rotation, the parent is on the outer side of `x`. */
  ghost function TurnedOut(c: Path, t: Tree): (Path, Tree)
    requires !c.Top? && !c.up.Top? && t.Node?
  {
    if c.InRight?
    then (InLeft(c.up, t.e, t.black, t.right), Node(c.sib, c.e, c.black, t.left))
    else (InRight(c.up, t.e, t.black, t.left), Node(t.right, c.e, c.black, c.sib))
  }

  lemma {:induction false} InnerChild(c: Path, t: Tree)
    requires RedBelow(c, t) && RedRed(c) && !c.up.Top? && IsBlack(c.up.sib) && c.InLeft? != c.up.InLeft?
    ensures var (c', t') := TurnedOut(c, t);
            && RedBelow(c', t') && Inorder(Plug(c', t')) == Inorder(Plug(c, t)) && InsertMeasure(c') < InsertMeasure(c)
            && Up(c', t') == if c.InRight? then RotatedLeft(Up(c, t)) else RotatedRight(Up(c, t))
  {
    Grandparent(c, t);
    var (c', t') := TurnedOut(c, t);
    assert Accepts(c.up, BlackHeight(t), true);
    if c.InRight? {
      Associate(Inorder(c.sib), c.e, Inorder(t.left), t.e, Inorder(t.right));
    } else {
      Associate(Inorder(t.left), t.e, Inorder(t.right), c.e, Inorder(c.sib));
    }
    SameWalk(c.up, Up(c, t), Up(c', t'));
  }

  /** `x` is on the outer side of its parent: after recolouring, the parent takes the grandparent's place. */
  ghost function Lifted(c: Path): Path
    requires !c.Top? && !c.up.Top?
  {
    if c.InLeft?
    then InLeft(c.up.up, c.e, true, Node(c.sib, c.up.e, false, c.up.sib))
    else InRight(c.up.up, c.e, true, Node(c.up.sib, c.up.e, false, c.sib))
  }

  lemma {:induction false} OuterChild(c: Path, t: Tree)
    requires RedBelow(c, t) && RedRed(c) && !c.up.Top? && IsBlack(c.up.sib) && c.InLeft? == c.up.InLeft?
    ensures RedBelow(Lifted(c), t) && Inorder(Plug(Lifted(c), t)) == Inorder(Plug(c, t))
    ensures InsertMeasure(Lifted(c)) < InsertMeasure(c)
  {
    Grandparent(c, t);
    if c.InLeft? {
      Associate(Inorder(t), c.e, Inorder(c.sib), c.up.e, Inorder(c.up.sib));
    } else {
      Associate(Inorder(c.up.sib), c.up.e, Inorder(c.sib), c.e, Inorder(t));
    }
    SameWalk(c.up.up, Up(c.up, Up(c, t)), Up(Lifted(c), t));
  }

  /** Once the guard fails, a black root makes the whole tree balanced. */
  lemma {:induction false} InsertDone(c: Path, t: Tree)
    requires RedBelow(c, t) && !RedRed(c)
    ensures var t' := if c.Top? then Painted(t, true) else t;
            && Balanced(Plug(c, t')) && IsBlack(Plug(c, t')) && Inorder(Plug(c, t')) == Inorder(Plug(c, t))
  {
    var t' := if c.Top? then Painted(t, true) else t;
    BalancedPlug(c, t');
    SameWalk(c, t, t');
  }

  /** Painting the root of the whole tree black changes nothing above the focus if that root is black already. */
  lemma {:induction false} PlugPainted(c: Path, t: Tree)
    requires t.Node?
    ensures Plug(c, t).Node? && (c.Top? ==> Plug(c, Painted(t, true)) == Painted(Plug(c, t), true))
    ensures IsBlack(Plug(c, t)) ==> Painted(Plug(c, t), true) == Plug(c, t)
    decreases c
  {
    if !c.Top? {
      PlugPainted(c.up, Up(c, t));
    }
  }

  /** The path to any place of a balanced tree with a black root accepts what is there. */
  lemma {:induction false} AcceptsPlug(c: Path, t: Tree)
    requires Balanced(Plug(c, t)) && IsBlack(Plug(c, t))
    ensures Balanced(t) && Accepts(c, BlackHeight(t), IsBlack(t))
    decreases c
  {
    if !c.Top? {
      AcceptsPlug(c.up, Up(c, t));
    }
  }

  /** A red leaf in an empty place starts the insertion loop. */
  lemma {:induction false} AttachedBalance(t0: Tree, c: Path, e: Entry)
    requires Balanced(t0) && IsBlack(t0) && Plug(c, Leaf) == t0
    ensures RedBelow(c, Node(Leaf, e, false, Leaf))
    ensures Added(Inorder(t0), e, Inorder(Plug(c, Node(Leaf, e, false, Leaf))))
  {
    AcceptsPlug(c, Leaf);
    InorderPlug(c, Leaf);
    InorderPlug(c, Node(Leaf, e, false, Leaf));
    AddedBetween(Before(c), [], e, [], After(c));
  }

  /** An entry between two walks, with other walks around them. */
  lemma AddedBetween(a: seq<Entry>, l: seq<Entry>, e: Entry, r: seq<Entry>, g: seq<Entry>)
    ensures Added(a + (l + r) + g, e, a + (l + [e] + r) + g)
  {
    var s, i := a + (l + r) + g, |a| + |l|;
    assert s[..i] == a + l && s[i..] == r + g;
    assert a + (l + [e] + r) + g == s[..i] + [e] + s[i..];
  }

  // ---------- deletion ----------

  /** The loop of `deleteNode`: the subtree at `x` is one black node short.  If its root is red, painting it black
      makes up for that. */
  ghost predicate Short(c: Path, t: Tree)
  {
    Balanced(Painted(t, true)) && Accepts(c, BlackHeight(t) + 1, true)
  }

  /** The child of the sibling on the side of `x`, and the one on the far side. */
  ghost function Near(c: Path): Tree
    requires !c.Top? && c.sib.Node?
  {
    if c.InLeft? then c.sib.left else c.sib.right
  }

  ghost function Far(c: Path): Tree
    requires !c.Top? && c.sib.Node?
  {
    if c.InLeft? then c.sib.right else c.sib.left
  }

  ghost function DeleteMeasure(c: Path, t: Tree): nat
  {
    if c.Top? || !IsBlack(t) || c.sib.Leaf? then 0
    else if !c.sib.black then 3
    else if !IsBlack(Far(c)) then 1
    else if !IsBlack(Near(c)) then 2
    else 4 + Length(c)
  }

  /** The sibling of a short black subtree is a node. */
  lemma Sibling(c: Path, t: Tree)
    requires Short(c, t) && !c.Top?
    ensures c.sib.Node? && Balanced(c.sib) && BlackHeight(c.sib) == BlackHeight(t) + 1
    ensures !c.sib.black ==> c.black && Near(c).Node? && Near(c).black && Far(c).Node? && Far(c).black
  {
  }

  /** Case 1, the sibling is red: after a rotation the sibling is black. */
  ghost function AfterRedSibling(c: Path): Path
    requires !c.Top? && c.sib.Node?
  {
    if c.InLeft?
    then InLeft(InLeft(c.up, c.sib.e, true, c.sib.right), c.e, false, c.sib.left)
    else InRight(InRight(c.up, c.sib.e, true, c.sib.left), c.e, false, c.sib.right)
  }

  lemma {:induction false} RedSibling(c: Path, t: Tree)
    requires Short(c, t) && !c.Top? && c.sib.Node? && !c.sib.black && IsBlack(t)
    ensures Short(AfterRedSibling(c), t) && AfterRedSibling(c).sib.Node? && AfterRedSibling(c).sib.black
    ensures Inorder(Plug(AfterRedSibling(c), t)) == Inorder(Plug(c, t))
  {
    Sibling(c, t);
    var c' := AfterRedSibling(c);
    assert Accepts(c'.up, BlackHeight(t) + 1, false);
    assert Accepts(c', BlackHeight(t) + 1, true);
    if c.InLeft? {
      Associate(Inorder(t), c.e, Inorder(c.sib.left), c.sib.e, Inorder(c.sib.right));
      assert Up(c'.up, Up(c', t)) == Node(Node(t, c.e, false, c.sib.left), c.sib.e, true, c.sib.right);
      assert Inorder(Node(t, c.e, false, c.sib.left)) == Inorder(t) + [c.e] + Inorder(c.sib.left);
    } else {
      Associate(Inorder(c.sib.left), c.sib.e, Inorder(c.sib.right), c.e, Inorder(t));
      assert Up(c'.up, Up(c', t)) == Node(c.sib.left, c.sib.e, true, Node(c.sib.right, c.e, false, t));
      assert Inorder(Node(c.sib.right, c.e, false, t)) == Inorder(c.sib.right) + [c.e] + Inorder(t);
    }
    assert Inorder(Up(c, t)) == Inorder(Up(c'.up, Up(c', t)));
    SameWalk(c.up, Up(c, t), Up(c'.up, Up(c', t)));
  }

  /** Case 2, the sibling and its children are black: the sibling turns red and the shortage moves up. */
  ghost function AfterBlackNephews(c: Path, t: Tree): Tree
    requires !c.Top?
  {
    Up(c.(sib := Painted(c.sib, false)), t)
  }

  lemma {:induction false} BlackNephews(c: Path, t: Tree)
    requires Short(c, t) && !c.Top? && IsBlack(t) && c.sib.Node? && c.sib.black && IsBlack(Near(c)) && IsBlack(Far(c))
    ensures Short(c.up, AfterBlackNephews(c, t))
    ensures Inorder(Plug(c.up, AfterBlackNephews(c, t))) == Inorder(Plug(c, t))
    ensures DeleteMeasure(c.up, AfterBlackNephews(c, t)) < DeleteMeasure(c, t)
    ensures !c.black ==> DeleteMeasure(c.up, AfterBlackNephews(c, t)) == 0
  {
    Sibling(c, t);
    if !c.black {
      AcceptsBlack(c.up, BlackHeight(t) + 1);
    }
    SameWalk(c.up, Up(c, t), AfterBlackNephews(c, t));
  }

  /** Case 3, only the near child of the sibling is red: it takes the sibling's place. */
  ghost function AfterNearNephew(c: Path): Path
    requires !c.Top? && c.sib.Node? && Near(c).Node?
  {
    var w, v := c.sib, Near(c);
    c.(sib := if c.InLeft? then LeftRaised(w) else RightRaised(w))
  }

  /** The red left child of a black node takes its place, and the node turns red. */
  ghost function LeftRaised(w: Tree): Tree
    requires w.Node? && w.left.Node?
  {
    Node(w.left.left, w.left.e, true, Node(w.left.right, w.e, false, w.right))
  }

  ghost function RightRaised(w: Tree): Tree
    requires w.Node? && w.right.Node?
  {
    Node(Node(w.left, w.e, false, w.right.left), w.right.e, true, w.right.right)
  }

  lemma RaisedLeft(w: Tree)
    requires w.Node? && w.black && Balanced(w) && !IsBlack(w.left) && IsBlack(w.right)
    ensures Balanced(LeftRaised(w)) && BlackHeight(LeftRaised(w)) == BlackHeight(w)
    ensures Inorder(LeftRaised(w)) == Inorder(w)
  {
    var v := w.left;
    var lower := Node(v.right, w.e, false, w.right);
    assert Balanced(v) && BlackHeight(v) == BlackHeight(w.right);
    assert Balanced(lower) && BlackHeight(lower) == BlackHeight(v);
    Associate(Inorder(v.left), v.e, Inorder(v.right), w.e, Inorder(w.right));
    assert Inorder(lower) == Inorder(v.right) + [w.e] + Inorder(w.right);
  }

  lemma RaisedRight(w: Tree)
    requires w.Node? && w.black && Balanced(w) && !IsBlack(w.right) && IsBlack(w.left)
    ensures Balanced(RightRaised(w)) && BlackHeight(RightRaised(w)) == BlackHeight(w)
    ensures Inorder(RightRaised(w)) == Inorder(w)
  {
    var v := w.right;
    var lower := Node(w.left, w.e, false, v.left);
    assert Balanced(v) && BlackHeight(v) == BlackHeight(w.left);
    assert Balanced(lower) && BlackHeight(lower) == BlackHeight(v);
    Associate(Inorder(w.left), w.e, Inorder(v.left), v.e, Inorder(v.right));
    assert Inorder(lower) == Inorder(w.left) + [w.e] + Inorder(v.left);
  }

  lemma {:induction false} NearNephew(c: Path, t: Tree)
    requires Short(c, t) && !c.Top? && IsBlack(t) && c.sib.Node? && c.sib.black && !IsBlack(Near(c)) && IsBlack(Far(c))
    ensures Short(AfterNearNephew(c), t) && DeleteMeasure(AfterNearNephew(c), t) == 1
    ensures Inorder(Plug(AfterNearNephew(c), t)) == Inorder(Plug(c, t))
  {
    Sibling(c, t);
    if c.InLeft? {
      RaisedLeft(c.sib);
    } else {
      RaisedRight(c.sib);
    }
    SameWalk(c.up, Up(c, t), Up(AfterNearNephew(c), t));
  }

  /** Case 4, the far child of the sibling is red: a rotation makes up for the missing black node. */
  ghost function AfterFarNephew(c: Path, t: Tree): Tree
    requires !c.Top? && c.sib.Node?
  {
    var w := c.sib;
    if c.InLeft?
    then Node(Node(t, c.e, true, w.left), w.e, c.black, Painted(w.right, true))
    else Node(Painted(w.left, true), w.e, c.black, Node(w.right, c.e, true, t))
  }

  lemma {:induction false} FarNephew(c: Path, t: Tree)
    requires Short(c, t) && !c.Top? && IsBlack(t) && c.sib.Node? && c.sib.black && !IsBlack(Far(c))
    ensures var t' := Plug(c.up, AfterFarNephew(c, t));
            Balanced(t') && IsBlack(t') && Inorder(t') == Inorder(Plug(c, t))
  {
    Sibling(c, t);
    var w := c.sib;
    if c.InLeft? {
      Associate(Inorder(t), c.e, Inorder(w.left), w.e, Inorder(w.right));
    } else {
      Associate(Inorder(w.left), w.e, Inorder(w.right), c.e, Inorder(t));
    }
    BalancedPlug(c.up, AfterFarNephew(c, t));
    SameWalk(c.up, Up(c, t), AfterFarNephew(c, t));
  }

  /** When the loop ends, painting `x` black repairs the tree. */
  lemma {:induction false} DeleteDone(c: Path, t: Tree)
    requires Short(c, t) && (c.Top? || !IsBlack(t))
    ensures var t' := Plug(c, Painted(t, true));
            Balanced(t') && IsBlack(t') && Inorder(t') == Inorder(Plug(c, t))
  {
    BalancedPlug(c, Painted(t, true));
    SameWalk(c, t, Painted(t, true));
  }

  /** Splicing out a node with at most one child: if it was black, the child is one black node short; if it was red,
      nothing is amiss. */
  lemma {:induction false} SplicedBalance(c: Path, t: Tree)
    requires Balanced(Plug(c, t)) && IsBlack(Plug(c, t)) && t.Node? && (t.left.Leaf? || t.right.Leaf?)
    ensures t.black ==> Short(c, OnlyChild(t))
    ensures !t.black ==> OnlyChild(t).Leaf? && Accepts(c, 0, true)
    ensures Inorder(t) == if t.left.Node? then Inorder(OnlyChild(t)) + [t.e] else [t.e] + Inorder(OnlyChild(t))
  {
    AcceptsPlug(c, t);
    if !t.black {
      AcceptsBlack(c, 0);
    }
  }

  /** The walk with the entry at the focus taken out. */
  lemma {:induction false} WalkWithout(c: Path, t: Tree, k: Tree, e: Entry)
    requires Inorder(t) == Inorder(k) + [e] || Inorder(t) == [e] + Inorder(k)
    ensures Added(Inorder(Plug(c, k)), e, Inorder(Plug(c, t)))
  {
    InorderPlug(c, t);
    InorderPlug(c, k);
    if Inorder(t) == [e] + Inorder(k) {
      AddedBetween(Before(c), [], e, Inorder(k), After(c));
      assert [] + [e] + Inorder(k) == Inorder(t) && [] + Inorder(k) == Inorder(k);
    } else {
      AddedBetween(Before(c), Inorder(k), e, [], After(c));
      assert Inorder(k) + [e] + [] == Inorder(t) && Inorder(k) + [] == Inorder(k);
    }
  }

  /** Balance does not depend on which entry sits at the end of the path. */
  lemma {:induction false} AcceptsOnto(rel: Path, c: Path, e: Entry, e': Entry, b: bool, sib: Tree, h: nat,
                                       holeBlack: bool)
    requires Accepts(Onto(rel, InRight(c, e, b, sib)), h, holeBlack)
    ensures Accepts(Onto(rel, InRight(c, e', b, sib)), h, holeBlack)
    decreases rel
  {
    if !rel.Top? {
      AcceptsOnto(rel.up, c, e, e', b, sib, if rel.black then h + 1 else h, rel.black);
    }
  }

  /** Replacing a node that has two children by its successor, whose right child moves up. */
  lemma {:induction false} ReplacedBalance(c: Path, t: Tree, rel: Path, low: Tree)
    requires Balanced(Plug(c, t)) && IsBlack(Plug(c, t)) && t.Node? && LeftSpine(rel) && Plug(rel, low) == t.right
    requires low.Node? && low.left.Leaf?
    ensures var c' := Onto(rel, InRight(c, low.e, t.black, t.left));
            && (low.black ==> Short(c', low.right))
            && (!low.black ==> Balanced(Plug(c', low.right)) && IsBlack(Plug(c', low.right)))
  {
    var base, base' := InRight(c, t.e, t.black, t.left), InRight(c, low.e, t.black, t.left);
    PlugOnto(rel, base, low);
    SplicedBalance(Onto(rel, base), low);
    if low.black {
      AcceptsOnto(rel, c, t.e, low.e, t.black, t.left, BlackHeight(low.right) + 1, true);
    } else {
      AcceptsOnto(rel, c, t.e, low.e, t.black, t.left, 0, true);
      BalancedPlug(Onto(rel, base'), low.right);
    }
  }

  lemma {:induction false} ReplacedWalk(c: Path, t: Tree, rel: Path, low: Tree)
    requires t.Node? && LeftSpine(rel) && Plug(rel, low) == t.right && low.Node? && low.left.Leaf?
    ensures Added(Inorder(Plug(Onto(rel, InRight(c, low.e, t.black, t.left)), low.right)), t.e, Inorder(Plug(c, t)))
  {
    var r' := Plug(rel, low.right);
    var t' := Node(t.left, low.e, t.black, r');
    PlugOnto(rel, InRight(c, low.e, t.black, t.left), low.right);
    InorderPlug(c, t);
    InorderPlug(c, t');
    InorderPlug(rel, low);
    InorderPlug(rel, low.right);
    NothingBefore(rel);
    assert Inorder(t.right) == [low.e] + Inorder(r');
    var s, i := Inorder(Plug(c, t')), |Before(c)| + |Inorder(t.left)|;
    PutBack(Before(c), Inorder(t.left), t.e, low.e, Inorder(r'), After(c));
    assert s == Before(c) + (Inorder(t.left) + [low.e] + Inorder(r')) + After(c);
  }

  lemma PutBack(a: seq<Entry>, l: seq<Entry>, z: Entry, y: Entry, r: seq<Entry>, g: seq<Entry>)
    ensures Added(a + (l + [y] + r) + g, z, a + (l + [z] + ([y] + r)) + g)
  {
    var s, i := a + (l + [y] + r) + g, |a| + |l|;
    assert s[..i] == a + l;
    assert s[i..] == [y] + r + g;
    assert a + (l + [z] + ([y] + r)) + g == s[..i] + [z] + s[i..];
  }
}
