/**
  * The shape of the red-black map as a value: a tree of node identities, and a zipper (a subtree together with
  * the path from it up to the root).  Nothing here reads the heap; `Map.dfy` relates these values to the linked
  nodes. */
module RedBlackTree {
  import opened PowersOfTwo

  /** The `_key` pointer of a node.  Only the sentinel has a null key.  A key is represented by its rank in the order
      that the map's comparator defines. */
  datatype KeyPointer = Null | Key(rank: int)

  /** One node of the map (or its sentinel). */
  class MapNode {
    var parent: MapNode
    var left: MapNode
    var right: MapNode
    var isBlack: bool
    const key: KeyPointer
    var value: int

    constructor (link: MapNode, isBlack: bool, rank: int, value: int)
      ensures parent == left == right == link
      ensures this.isBlack == isBlack && key == Key(rank) && this.value == value
    {
      parent, left, right := link, link, link;
      this.isBlack, key, this.value := isBlack, Key(rank), value;
    }

    constructor Sentinel()
      ensures parent == left == right == this
      ensures isBlack && key == Null
    {
      parent, left, right := this, this, this;
      isBlack, key, value := true, Null, 0;
    }
  }

  /** What an iterator can observe: which node it is, its key and its value. */
  datatype Entry = Entry(node: MapNode, key: int, value: int)

  datatype Tree = Leaf | Node(left: Tree, e: Entry, black: bool, right: Tree)

  /** The path from a subtree up to the root; each step remembers the node and the subtree on its other side. */
  datatype Path =
    | Top
    | InLeft(up: Path, e: Entry, black: bool, sib: Tree)
    | InRight(up: Path, e: Entry, black: bool, sib: Tree)

  // ---------- contents ----------

  ghost function Inorder(t: Tree): (s: seq<Entry>)
  {
    match t
    case Leaf => []
    case Node(l, e, _, r) => Inorder(l) + [e] + Inorder(r)
  }

  /** The entries that come before, respectively after, the subtree that a path leads to. */
  ghost function Before(c: Path): seq<Entry>
  {
    match c
    case Top => []
    case InLeft(up, _, _, _) => Before(up)
    case InRight(up, e, _, sib) => Before(up) + Inorder(sib) + [e]
  }

  ghost function After(c: Path): seq<Entry>
  {
    match c
    case Top => []
    case InLeft(up, e, _, sib) => [e] + Inorder(sib) + After(up)
    case InRight(up, _, _, _) => After(up)
  }

  /** The subtree one step further up. */
  ghost function Up(c: Path, t: Tree): Tree
    requires !c.Top?
  {
    if c.InLeft? then Node(t, c.e, c.black, c.sib) else Node(c.sib, c.e, c.black, t)
  }

  ghost function Plug(c: Path, t: Tree): Tree
  {
    match c
    case Top => t
    case InLeft(up, e, b, sib) => Plug(up, Node(t, e, b, sib))
    case InRight(up, e, b, sib) => Plug(up, Node(sib, e, b, t))
  }

  lemma Associate(a: seq<Entry>, x: Entry, b: seq<Entry>, y: Entry, g: seq<Entry>)
    ensures a + [x] + (b + [y] + g) == (a + [x] + b) + [y] + g
  {
  }

  lemma AssociateIn(a: seq<Entry>, l: seq<Entry>, x: Entry, r: seq<Entry>, g: seq<Entry>)
    ensures a + (l + [x] + r) + g == (a + l + [x]) + r + g
    ensures a + (l + [x] + r) + g == a + l + ([x] + r + g)
  {
  }

  lemma {:induction false} InorderPlug(c: Path, t: Tree)
    ensures Inorder(Plug(c, t)) == Before(c) + Inorder(t) + After(c)
    decreases c
  {
    match c
    case Top =>
    case InLeft(up, e, b, sib) =>
      InorderPlug(up, Node(t, e, b, sib));
      AssociateIn(Before(up), Inorder(t), e, Inorder(sib), After(up));
    case InRight(up, e, b, sib) =>
      InorderPlug(up, Node(sib, e, b, t));
      AssociateIn(Before(up), Inorder(sib), e, Inorder(t), After(up));
  }

  /** Search order: keys strictly increase along the in-order walk. */
  ghost predicate Sorted(s: seq<Entry>)
  {
    forall i, j :: 0 <= i < j < |s| ==> s[i].key < s[j].key
  }

  // ---------- search order ----------

  /** Search order: every key of `t` lies strictly between the bounds, on the right side of every ancestor's key. */
  ghost predicate Within(t: Tree, lo: int, hi: int)
  {
    match t
    case Leaf => true
    case Node(l, e, _, r) =>
      e.node.key == Key(e.key) && lo < e.key < hi && Within(l, lo, e.key) && Within(r, e.key, hi)
  }

  /** The bounds that a path leaves for the subtree below it. */
  ghost function HoleLo(c: Path, lo: int): int
  {
    match c
    case Top => lo
    case InLeft(up, _, _, _) => HoleLo(up, lo)
    case InRight(_, e, _, _) => e.key
  }

  ghost function HoleHi(c: Path, hi: int): int
  {
    match c
    case Top => hi
    case InLeft(_, e, _, _) => e.key
    case InRight(up, _, _, _) => HoleHi(up, hi)
  }

  ghost predicate PathWithin(c: Path, lo: int, hi: int)
  {
    match c
    case Top => true
    case InLeft(up, e, _, sib) =>
      e.node.key == Key(e.key) && HoleLo(up, lo) < e.key < HoleHi(up, hi)
      && Within(sib, e.key, HoleHi(up, hi)) && PathWithin(up, lo, hi)
    case InRight(up, e, _, sib) =>
      e.node.key == Key(e.key) && HoleLo(up, lo) < e.key < HoleHi(up, hi)
      && Within(sib, HoleLo(up, lo), e.key) && PathWithin(up, lo, hi)
  }

  /** Search order makes the in-order walk strictly increasing. */
  lemma {:induction false} WalkWithin(t: Tree, lo: int, hi: int)
    requires Within(t, lo, hi)
    ensures Sorted(Inorder(t))
    ensures forall e :: e in Inorder(t) ==> lo < e.key < hi && e.node.key == Key(e.key)
  {
    match t
    case Leaf =>
    case Node(l, e, _, r) =>
      WalkWithin(l, lo, e.key);
      WalkWithin(r, e.key, hi);
      SortedAround(Inorder(l), e, Inorder(r));
  }

  lemma SortedAround(a: seq<Entry>, e: Entry, b: seq<Entry>)
    requires Sorted(a) && Sorted(b)
    requires (forall x :: x in a ==> x.key < e.key) && (forall x :: x in b ==> e.key < x.key)
    ensures Sorted(a + [e] + b)
  {
    var s, n := a + [e] + b, |a|;
    forall i, j | 0 <= i < j < |s|
      ensures s[i].key < s[j].key
    {
      assert i < n ==> s[i] == a[i] && a[i] in a;
      assert j < n ==> s[j] == a[j];
      assert i > n ==> s[i] == b[i - n - 1];
      assert j > n ==> s[j] == b[j - n - 1] && b[j - n - 1] in b;
    }
  }

  /** Everything before a subtree lies below its bounds, and everything after it lies above. */
  lemma {:induction false} WalkAround(c: Path, lo: int, hi: int)
    requires PathWithin(c, lo, hi) && lo < hi
    ensures lo <= HoleLo(c, lo) < HoleHi(c, hi) + 1 && HoleHi(c, hi) <= hi
    ensures forall e :: e in Before(c) ==> e.key <= HoleLo(c, lo)
    ensures forall e :: e in After(c) ==> HoleHi(c, hi) <= e.key
    decreases c
  {
    match c
    case Top =>
    case InLeft(up, e, _, sib) =>
      WalkAround(up, lo, hi);
      WalkWithin(sib, e.key, HoleHi(up, hi));
    case InRight(up, e, _, sib) =>
      WalkAround(up, lo, hi);
      WalkWithin(sib, HoleLo(up, lo), e.key);
  }

  lemma {:induction false} Widened(t: Tree, lo: int, hi: int, lo': int, hi': int)
    requires Within(t, lo, hi) && lo' <= lo && hi <= hi'
    ensures Within(t, lo', hi')
  {
    if t.Node? {
      Widened(t.left, lo, t.e.key, lo', t.e.key);
      Widened(t.right, t.e.key, hi, t.e.key, hi');
    }
  }

  /** A key belongs to the tree exactly if it belongs to the subtree that the search has narrowed down to. */
  lemma {:induction false} Narrowed(c: Path, t: Tree, lo: int, hi: int, k: int)
    requires PathWithin(c, lo, hi) && lo < hi && HoleLo(c, lo) < k < HoleHi(c, hi)
    ensures HasKey(Inorder(Plug(c, t)), k) <==> HasKey(Inorder(t), k)
  {
    InorderPlug(c, t);
    WalkAround(c, lo, hi);
    if HasKey(Inorder(Plug(c, t)), k) {
      var e :| e in Inorder(Plug(c, t)) && e.key == k;
      assert e in Before(c) || e in Inorder(t) || e in After(c);
    }
  }

  ghost predicate HasKey(s: seq<Entry>, k: int)
  {
    exists e :: e in s && e.key == k
  }

  /** One entry has been put in, respectively taken out, and nothing else has changed. */
  ghost predicate Added(s: seq<Entry>, e: Entry, s': seq<Entry>)
  {
    exists i :: 0 <= i <= |s| && s' == s[..i] + [e] + s[i..]
  }

  lemma AddedLength(s: seq<Entry>, e: Entry, s': seq<Entry>)
    requires Added(s, e, s')
    ensures |s'| == |s| + 1
  {
  }

  /** A key above all others comes last. */
  lemma AddedLast(s: seq<Entry>, e: Entry, s': seq<Entry>)
    requires Added(s, e, s') && Sorted(s') && KeysBelow(s, e.key)
    ensures s' == s + [e]
  {
    var i :| 0 <= i <= |s| && s' == s[..i] + [e] + s[i..];
    AroundEntry(s', e, s, i);
  }

  ghost predicate KeysBelow(s: seq<Entry>, k: int)
  {
    forall i :: 0 <= i < |s| ==> s[i].key < k
  }

  /** What has been taken out is the one entry with its key. */
  lemma SameKey(s: seq<Entry>, a: Entry, e: Entry, s': seq<Entry>)
    requires Sorted(s) && a in s && Added(s', e, s) && a.key == e.key
    ensures a == e
  {
    assert e in s;
  }

  /** Where the other entries are. */
  lemma AroundEntry(s: seq<Entry>, e: Entry, s': seq<Entry>, i: nat)
    requires i <= |s'| && s == s'[..i] + [e] + s'[i..]
    ensures |s| == |s'| + 1 && s[i] == e
    ensures forall j :: 0 <= j < |s'| ==> s'[j] == s[if j < i then j else j + 1]
  {
  }

  lemma SortedAroundEntry(s: seq<Entry>, s': seq<Entry>, i: nat)
    requires Sorted(s) && i < |s| == |s'| + 1
    requires forall j :: 0 <= j < |s'| ==> s'[j] == s[if j < i then j else j + 1]
    ensures Sorted(s') && forall j :: 0 <= j < |s'| ==> s'[j].key != s[i].key
  {
    forall j, k | 0 <= j < k < |s'|
      ensures s'[j].key < s'[k].key
    {
      assert s'[j] == s[if j < i then j else j + 1] && s'[k] == s[if k < i then k else k + 1];
    }
  }

  /** In a strictly increasing walk an entry's key goes with the entry. */
  lemma KeyGone(s: seq<Entry>, e: Entry, s': seq<Entry>)
    requires Sorted(s) && Added(s', e, s)
    ensures !HasKey(s', e.key) && Sorted(s') && |s| == |s'| + 1
  {
    var i :| 0 <= i <= |s'| && s == s'[..i] + [e] + s'[i..];
    AroundEntry(s, e, s', i);
    SortedAroundEntry(s, s', i);
  }

  // ---------- red-black properties ----------

  ghost predicate IsBlack(t: Tree)
  {
    t.Node? ==> t.black
  }

  /** The subtree with another colour at its root. */
  ghost function Painted(t: Tree, b: bool): Tree
  {
    if t.Node? then t.(black := b) else t
  }

  /** The number of black nodes on the way down (the sentinel is not counted). */
  ghost function BlackHeight(t: Tree): nat
  {
    match t
    case Leaf => 0
    case Node(l, _, b, _) => BlackHeight(l) + (if b then 1 else 0)
  }

  /** Every path down has the same number of black nodes, and no red node has a red child. */
  ghost predicate Balanced(t: Tree)
  {
    match t
    case Leaf => true
    case Node(l, _, b, r) =>
      Balanced(l) && Balanced(r) && BlackHeight(l) == BlackHeight(r) && (b || (IsBlack(l) && IsBlack(r)))
  }

  /** A balanced tree without black nodes has one entry at most, and one with three or more has a node on both sides of
      its root. */
  lemma {:induction false} RootHasTwo(t: Tree)
    requires Balanced(t) && IsBlack(t)
    ensures t.Node? && t.left.Node? && t.right.Node? <==> |Inorder(t)| >= 3
  {
    if t.Node? {
      if t.left.Leaf? {
        AtMostOne(t.right);
      } else if t.right.Leaf? {
        AtMostOne(t.left);
      }
    }
  }

  lemma {:induction false} AtMostOne(t: Tree)
    requires Balanced(t) && BlackHeight(t) == 0
    ensures |Inorder(t)| <= 1
  {
    if t.Node? {
      assert t.left.Leaf? && t.right.Leaf?;
    }
  }

  /** Plugging a balanced subtree of black height `h` whose root is black (if `holeBlack`) or red (if not) into this
      path gives a balanced tree with a black root. */
  ghost predicate Accepts(c: Path, h: nat, holeBlack: bool)
    decreases c
  {
    match c
    case Top => holeBlack
    case InLeft(up, _, b, sib) =>
      Balanced(sib) && BlackHeight(sib) == h &&
      if b then Accepts(up, h + 1, true) else holeBlack && IsBlack(sib) && Accepts(up, h, false)
    case InRight(up, _, b, sib) =>
      Balanced(sib) && BlackHeight(sib) == h &&
      if b then Accepts(up, h + 1, true) else holeBlack && IsBlack(sib) && Accepts(up, h, false)
  }

  lemma {:induction false} BalancedPlug(c: Path, t: Tree)
    requires Balanced(t) && Accepts(c, BlackHeight(t), IsBlack(t))
    ensures Balanced(Plug(c, t)) && IsBlack(Plug(c, t))
    decreases c
  {
    match c
    case Top =>
    case InLeft(up, e, b, sib) => BalancedPlug(up, Node(t, e, b, sib));
    case InRight(up, e, b, sib) => BalancedPlug(up, Node(sib, e, b, t));
  }

  lemma {:induction false} AcceptsBlack(c: Path, h: nat)
    requires Accepts(c, h, false)
    ensures Accepts(c, h, true)
  {
  }

  // ---------- rotations ----------

  ghost function RotatedLeft(t: Tree): Tree
    requires t.Node? && t.right.Node?
  {
    Node(Node(t.left, t.e, t.black, t.right.left), t.right.e, t.right.black, t.right.right)
  }

  ghost function RotatedRight(t: Tree): Tree
    requires t.Node? && t.left.Node?
  {
    Node(t.left.left, t.left.e, t.left.black, Node(t.left.right, t.e, t.black, t.right))
  }

  /** Rotations undo each other; neither changes the in-order walk nor the search order. */
  lemma {:induction false} RotateLeftKeeps(t: Tree, lo: int, hi: int)
    requires t.Node? && t.right.Node? && Within(t, lo, hi)
    ensures Inorder(RotatedLeft(t)) == Inorder(t)
    ensures Within(RotatedLeft(t), lo, hi)
    ensures RotatedRight(RotatedLeft(t)) == t
  {
    var a, b, g := t.left, t.right.left, t.right.right;
    assert t == Node(a, t.e, t.black, Node(b, t.right.e, t.right.black, g));
    Associate(Inorder(a), t.e, Inorder(b), t.right.e, Inorder(g));
  }

  lemma {:induction false} RotateRightKeeps(t: Tree, lo: int, hi: int)
    requires t.Node? && t.left.Node? && Within(t, lo, hi)
    ensures Inorder(RotatedRight(t)) == Inorder(t)
    ensures Within(RotatedRight(t), lo, hi)
    ensures RotatedLeft(RotatedRight(t)) == t
  {
    var a, b, g := t.left.left, t.left.right, t.right;
    assert t == Node(Node(a, t.left.e, t.left.black, b), t.e, t.black, g);
    Associate(Inorder(a), t.left.e, Inorder(b), t.e, Inorder(g));
  }

  /** The subtree that is left when a node with at most one child goes. */
  ghost function OnlyChild(t: Tree): Tree
    requires t.Node?
  {
    if t.left.Node? then t.left else t.right
  }

  // ---------- the way down to a successor ----------

  /** The path `rel`, continued upwards by `base`. */
  ghost function Onto(rel: Path, base: Path): Path
    decreases rel
  {
    match rel
    case Top => base
    case InLeft(up, e, b, sib) => InLeft(Onto(up, base), e, b, sib)
    case InRight(up, e, b, sib) => InRight(Onto(up, base), e, b, sib)
  }

  lemma {:induction false} OntoTop(rel: Path)
    ensures Onto(rel, Top) == rel
    decreases rel
  {
    if !rel.Top? {
      OntoTop(rel.up);
    }
  }

  lemma {:induction false} PlugOnto(rel: Path, base: Path, t: Tree)
    ensures Plug(Onto(rel, base), t) == Plug(base, Plug(rel, t))
    decreases rel
  {
    if !rel.Top? {
      PlugOnto(rel.up, base, Up(rel, t));
    }
  }

  lemma {:induction false} PlugIsNode(c: Path, t: Tree)
    requires !c.Top? || t.Node?
    ensures Plug(c, t).Node?
    decreases c
  {
    if !c.Top? {
      PlugIsNode(c.up, Up(c, t));
    }
  }

  ghost predicate LeftSpine(rel: Path)
    decreases rel
  {
    rel.Top? || (rel.InLeft? && LeftSpine(rel.up))
  }

  /** Taking out the leftmost entry of a subtree, which has only a right child. */
  lemma {:induction false} LeftmostRemoved(rel: Path, t: Tree, lo: int, hi: int)
    requires LeftSpine(rel) && t.Node? && t.left.Leaf? && Within(Plug(rel, t), lo, hi)
    ensures Within(t, lo, HoleHi(rel, hi)) && lo < t.e.key < HoleHi(rel, hi) <= hi
    ensures t.e.node.key == Key(t.e.key) && Within(Plug(rel, t.right), t.e.key, hi)
    ensures Inorder(Plug(rel, t)) == [t.e] + Inorder(Plug(rel, t.right))
    decreases rel
  {
    LeftmostWithin(rel, t, lo, hi);
    Widened(t.right, t.e.key, HoleHi(rel, hi), t.e.key, HoleHi(rel, hi));
    LeftmostPlug(rel, t.right, t.e.key, lo, hi);
    InorderPlug(rel, t);
    InorderPlug(rel, t.right);
    NothingBefore(rel);
  }

  lemma {:induction false} NothingBefore(rel: Path)
    requires LeftSpine(rel)
    ensures Before(rel) == []
    decreases rel
  {
    if !rel.Top? {
      NothingBefore(rel.up);
    }
  }

  lemma {:induction false} LeftmostWithin(rel: Path, t: Tree, lo: int, hi: int)
    requires LeftSpine(rel) && Within(Plug(rel, t), lo, hi)
    ensures Within(t, lo, HoleHi(rel, hi)) && PathWithin(rel, lo, hi) && HoleLo(rel, lo) == lo && HoleHi(rel, hi) <= hi
    decreases rel
  {
    if !rel.Top? {
      LeftmostWithin(rel.up, Up(rel, t), lo, hi);
    }
  }

  lemma {:induction false} LeftmostPlug(rel: Path, t: Tree, lo': int, lo: int, hi: int)
    requires LeftSpine(rel) && PathWithin(rel, lo, hi) && Within(t, lo', HoleHi(rel, hi)) && lo' < HoleHi(rel, hi)
    ensures Within(Plug(rel, t), lo', hi)
    decreases rel
  {
    if !rel.Top? {
      LeftmostPlug(rel.up, Up(rel, t), lo', lo, hi);
    }
  }

  /** Where an entry sits in the tree. */
  lemma {:induction false} Locate(c0: Path, t0: Tree, e: Entry) returns (c: Path, t: Tree)
    requires e in Inorder(t0)
    ensures t.Node? && t.e == e && Plug(c, t) == Plug(c0, t0)
    decreases t0
  {
    if e in Inorder(t0.left) {
      c, t := Locate(InLeft(c0, t0.e, t0.black, t0.right), t0.left, e);
    } else if e in Inorder(t0.right) {
      c, t := Locate(InRight(c0, t0.e, t0.black, t0.left), t0.right, e);
    } else {
      c, t := c0, t0;
    }
  }

  /** Cutting off a leaf shortens the walk by one. */
  lemma {:induction false} PrunedWalk(c: Path, t: Tree)
    requires t.Node? && t.left.Leaf? && t.right.Leaf?
    ensures |Inorder(Plug(c, t))| == |Inorder(Plug(c, Leaf))| + 1
  {
    InorderPlug(c, t);
    InorderPlug(c, Leaf);
  }

  /** The largest number of black nodes on a way down. */
  ghost function MaxBlack(t: Tree): nat
  {
    match t
    case Leaf => 0
    case Node(l, _, b, r) => (if MaxBlack(l) > MaxBlack(r) then MaxBlack(l) else MaxBlack(r)) + (if b then 1 else 0)
  }

  /** Every way down has the same number of black nodes. */
  ghost predicate Even(t: Tree)
  {
    t.Node? ==> Even(t.left) && Even(t.right) && MaxBlack(t.left) == MaxBlack(t.right)
  }

  lemma {:induction false} BalancedEven(t: Tree)
    requires Balanced(t)
    ensures Even(t) && MaxBlack(t) == BlackHeight(t)
  {
    if t.Node? {
      BalancedEven(t.left);
      BalancedEven(t.right);
    }
  }

  // ---------- height ----------

  ghost function Height(t: Tree): nat
  {
    match t
    case Leaf => 0
    case Node(l, _, _, r) => 1 + if Height(l) > Height(r) then Height(l) else Height(r)
  }

  /** A way from the root of a subtree down to a missing child, `true` for each step to the left. */
  ghost predicate Way(t: Tree, w: seq<bool>)
    decreases t
  {
    if t.Leaf? then w == [] else w != [] && Way(if w[0] then t.left else t.right, w[1..])
  }

  /** The black nodes on a way. */
  ghost function Blacks(t: Tree, w: seq<bool>): nat
    requires Way(t, w)
    decreases t
  {
    if t.Leaf? then 0
    else Blacks(if w[0] then t.left else t.right, w[1..]) + (if t.black then 1 else 0)
  }

  /** No way is longer than the height, and none has more black nodes than the largest number. */
  lemma {:induction false} WaysBounded(t: Tree, w: seq<bool>)
    requires Way(t, w)
    ensures |w| <= Height(t) && Blacks(t, w) <= MaxBlack(t)
    decreases t
  {
    if t.Node? {
      WaysBounded(if w[0] then t.left else t.right, w[1..]);
    }
  }

  /** One way is as long as the height, and one has the largest number of black nodes. */
  lemma {:induction false} WaysReach(t: Tree) returns (high: seq<bool>, black: seq<bool>)
    ensures Way(t, high) && |high| == Height(t)
    ensures Way(t, black) && Blacks(t, black) == MaxBlack(t)
    decreases t
  {
    if t.Leaf? {
      return [], [];
    }
    var lh, lb := WaysReach(t.left);
    var rh, rb := WaysReach(t.right);
    high := if Height(t.left) > Height(t.right) then [true] + lh else [false] + rh;
    black := if MaxBlack(t.left) > MaxBlack(t.right) then [true] + lb else [false] + rb;
  }

  /** All ways have the same number of black nodes. */
  ghost predicate SameBlacks(t: Tree)
  {
    forall w, w' :: Way(t, w) && Way(t, w') ==> Blacks(t, w) == Blacks(t, w')
  }

  lemma {:induction false} EvenMeans(t: Tree)
    ensures Even(t) <==> SameBlacks(t)
    decreases t
  {
    if t.Node? {
      EvenMeans(t.left);
      EvenMeans(t.right);
      if Even(t) {
        EvenWays(t);
      } else if SameBlacks(t) {
        SameBelow(t);
        assert false;
      }
    }
  }

  lemma {:induction false} EvenWay(t: Tree, w: seq<bool>)
    requires Even(t) && Way(t, w)
    ensures Blacks(t, w) == MaxBlack(t)
    decreases t
  {
    if t.Node? {
      EvenWay(if w[0] then t.left else t.right, w[1..]);
    }
  }

  lemma EvenWays(t: Tree)
    requires Even(t)
    ensures SameBlacks(t)
  {
    forall w, w' | Way(t, w) && Way(t, w')
      ensures Blacks(t, w) == Blacks(t, w')
    {
      EvenWay(t, w);
      EvenWay(t, w');
    }
  }

  lemma StepDown(t: Tree, left: bool, w: seq<bool>)
    requires t.Node? && Way(if left then t.left else t.right, w)
    ensures Way(t, [left] + w)
    ensures Blacks(t, [left] + w) == Blacks(if left then t.left else t.right, w) + (if t.black then 1 else 0)
  {
    assert ([left] + w)[1..] == w;
  }

  lemma SameBelow(t: Tree)
    requires t.Node? && SameBlacks(t)
    ensures SameBlacks(t.left) && SameBlacks(t.right) && MaxBlack(t.left) == MaxBlack(t.right)
  {
    var lh, lb := WaysReach(t.left);
    var rh, rb := WaysReach(t.right);
    StepDown(t, true, lb);
    StepDown(t, false, rb);
    assert SameBlacks(t.left) by {
      forall w, w' | Way(t.left, w) && Way(t.left, w')
        ensures Blacks(t.left, w) == Blacks(t.left, w')
      {
        StepDown(t, true, w);
        StepDown(t, true, w');
      }
    }
    assert SameBlacks(t.right) by {
      forall w, w' | Way(t.right, w) && Way(t.right, w')
        ensures Blacks(t.right, w) == Blacks(t.right, w')
      {
        StepDown(t, false, w);
        StepDown(t, false, w');
      }
    }
  }

  lemma {:induction false} HeightBounds(t: Tree)
    requires Balanced(t)
    ensures Height(t) <= 2 * BlackHeight(t) + if IsBlack(t) then 0 else 1
    ensures Pow2(BlackHeight(t)) <= |Inorder(t)| + 1
  {
    if t.Node? {
      HeightBounds(t.left);
      HeightBounds(t.right);
    }
  }

  /** A balanced tree with a black root and n entries is at most 2 lg(n + 1) high. */
  lemma {:induction false} LogarithmicHeight(t: Tree)
    requires Balanced(t) && IsBlack(t)
    ensures Pow2(Height(t)) <= (|Inorder(t)| + 1) * (|Inorder(t)| + 1)
  {
    HeightBounds(t);
    Pow2Monotone(Height(t), 2 * BlackHeight(t));
    Pow2Double(BlackHeight(t));
    SquareMonotone(Pow2(BlackHeight(t)), |Inorder(t)| + 1);
  }

  lemma SquareMonotone(b: nat, n: nat)
    requires b <= n
    ensures b * b <= n * n
  {
    assert b * b <= b * n <= n * n;
  }
}
