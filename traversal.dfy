/**
  * The full-structure walk of sb_tree_primitive_iterator. Every node is
  * entered from above once, in pre-order, and is met again from below once
  * its subtrees are exhausted; operator-- walks the mirror image. A spot of
  * the walk is a node of the tree, given as a subtree in its context, or
  * the header, together with the state of the step that led there.
  */
module Traversal {
  import opened Trees
  import opened Insertion

  /**
    * sb_tree_node_state: how the iterator came to its node. Root is the
    * state of a freshly constructed iterator, Parent says it climbed up
    * from a child, the others that it went down to a left child, a right
    * child or across to a sibling.
    */
  datatype PrimState = Root | Parent | Left | Right | Sibling

  /** The sb_tree_node_state code of a state, a signed char. */
  function StateCode(st: PrimState): int
  {
    match st
    case Root => 0x00
    case Parent => -0x0F
    case Left => 0x12
    case Right => 0x13
    case Sibling => 0x04
  }

  /**
    * get_depth: the code shifted right by four. The shift of a signed char
    * is arithmetic, a division by 16 rounding down, which Dafny's / is for
    * a positive divisor. It is the change of depth of the step that led to
    * the state.
    */
  function GetDepth(st: PrimState): int
  {
    StateCode(st) / 16
  }

  /** Where a primitive iterator stands on a tree: a node with its context, or the header. */
  datatype Spot =
    | AtNode(c: Ctx, s: Tree, state: PrimState)
    | AtHeader(state: PrimState)

  /** The node ids of t in pre-order: a node, its left subtree, its right subtree. */
  function PreOrder(t: Tree): (s: seq<int>)
    ensures |s| == Size(t)
  {
    match t
    case Nil => []
    case Node(l, i, _, r) => [i] + PreOrder(l) + PreOrder(r)
  }

  /** The mirrored pre-order: a node, its right subtree, its left subtree. */
  function MirrorOrder(t: Tree): (s: seq<int>)
    ensures |s| == Size(t)
  {
    match t
    case Nil => []
    case Node(l, i, _, r) => [i] + MirrorOrder(r) + MirrorOrder(l)
  }

  /** How many nodes pre-order lists before the subtree in the hole of c. */
  function Ahead(c: Ctx): nat
  {
    match c
    case Top => 0
    case InLeft(up, _, _, _) => Ahead(up) + 1
    case InRight(l, _, _, up) => Ahead(up) + 1 + Size(l)
  }

  /** How many nodes the mirrored pre-order lists before the hole of c. */
  function AheadMirror(c: Ctx): nat
  {
    match c
    case Top => 0
    case InLeft(up, _, _, r) => AheadMirror(up) + 1 + Size(r)
    case InRight(_, _, _, up) => AheadMirror(up) + 1
  }

  /** The subtree in the hole of c is listed by pre-order from index Ahead(c) on, in its own pre-order. */
  lemma {:induction false} PreOrderPlug(c: Ctx, s: Tree, j: nat)
    requires j < Size(s)
    ensures Ahead(c) + j < Size(Plug(c, s)) && PreOrder(Plug(c, s))[Ahead(c) + j] == PreOrder(s)[j]
  {
    match c
    case Top =>
    case InLeft(up, i, k, r) =>
      var n := Node(s, i, k, r);
      PreOrderPlug(up, n, 1 + j);
      assert PreOrder(n) == [i] + PreOrder(s) + PreOrder(r);
    case InRight(l, i, k, up) =>
      var n := Node(l, i, k, s);
      PreOrderPlug(up, n, 1 + Size(l) + j);
      assert PreOrder(n) == [i] + PreOrder(l) + PreOrder(s);
  }

  /** The mirror image of PreOrderPlug. */
  lemma {:induction false} MirrorOrderPlug(c: Ctx, s: Tree, j: nat)
    requires j < Size(s)
    ensures AheadMirror(c) + j < Size(Plug(c, s)) && MirrorOrder(Plug(c, s))[AheadMirror(c) + j] == MirrorOrder(s)[j]
  {
    match c
    case Top =>
    case InLeft(up, i, k, r) =>
      var n := Node(s, i, k, r);
      MirrorOrderPlug(up, n, 1 + Size(r) + j);
      assert MirrorOrder(n) == [i] + MirrorOrder(r) + MirrorOrder(s);
    case InRight(l, i, k, up) =>
      var n := Node(l, i, k, s);
      MirrorOrderPlug(up, n, 1 + j);
      assert MirrorOrder(n) == [i] + MirrorOrder(s) + MirrorOrder(l);
  }

  /**
    * p is a spot of the walk on t: a node of t with its context, or the
    * header, though not in state Parent when t is empty (header->parent is
    * then null, and operator++ would read through it).
    */
  predicate OnTree(t: Tree, p: Spot)
  {
    match p
    case AtNode(c, s, _) => s.Node? && Plug(c, s) == t
    case AtHeader(st) => st == Parent ==> t.Node?
  }

  /** The node a spot stands at, HEADER naming the header. */
  function SpotId(p: Spot): int
  {
    if p.AtNode? then RootOf(p.s) else HEADER
  }

  /** The iterator fields node and state stand for spot p. */
  predicate Names(p: Spot, node: int, state: PrimState)
  {
    state == p.state && node == SpotId(p)
  }

  /**
    * operator++ on tree t. Unless the iterator came up from below: down to
    * the left child, else down to the right child. Otherwise, and at a
    * leaf, across to the right sibling when the node is a left child with
    * one (the test node != node->parent->parent rules out the root, whose
    * parent is the header), else up to the parent. From the header, whose
    * left is the minimum and whose parent is the root, the same rules lead
    * down to the minimum, or up to the root.
    */
  function PrimNext(t: Tree, p: Spot): (q: Spot)
    requires OnTree(t, p)
  {
    match p
    case AtHeader(st) =>
      if st != Parent then
        if t.Nil? then AtHeader(Left) else AtNode(MinCtx(Top, t), MinSub(t), Left)
      else
        AtNode(Top, t, Parent)
    case AtNode(c, s, st) =>
      if st != Parent && s.left.Node? then AtNode(InLeft(c, s.id, s.key, s.right), s.left, Left)
      else if st != Parent && s.right.Node? then AtNode(InRight(s.left, s.id, s.key, c), s.right, Right)
      else
        match c
        case Top => AtHeader(Parent)
        case InLeft(up, i, k, r) =>
          if r.Node? then AtNode(InRight(s, i, k, up), r, Sibling) else AtNode(up, Node(s, i, k, r), Parent)
        case InRight(l, i, k, up) => AtNode(up, Node(l, i, k, s), Parent)
  }

  /** operator--: PrimNext with left and right exchanged, the header's right being the maximum. */
  function PrimPrev(t: Tree, p: Spot): (q: Spot)
    requires OnTree(t, p)
  {
    match p
    case AtHeader(st) =>
      if st != Parent then
        if t.Nil? then AtHeader(Right) else AtNode(MaxCtx(Top, t), MaxSub(t), Right)
      else
        AtNode(Top, t, Parent)
    case AtNode(c, s, st) =>
      if st != Parent && s.right.Node? then AtNode(InRight(s.left, s.id, s.key, c), s.right, Right)
      else if st != Parent && s.left.Node? then AtNode(InLeft(c, s.id, s.key, s.right), s.left, Left)
      else
        match c
        case Top => AtHeader(Parent)
        case InRight(l, i, k, up) =>
          if l.Node? then AtNode(InLeft(up, i, k, s), l, Sibling) else AtNode(up, Node(l, i, k, s), Parent)
        case InLeft(up, i, k, r) => AtNode(up, Node(s, i, k, r), Parent)
  }

  /**
    * How many nodes the walk has entered on reaching a node spot: those
    * ahead of it in pre-order and the node itself, or its whole subtree
    * once it has climbed back to it.
    */
  function Entered(p: Spot): nat
    requires p.AtNode?
  {
    Ahead(p.c) + (if p.state == Parent then Size(p.s) else 1)
  }

  /** Entered for the mirrored walk of operator--. */
  function EnteredMirror(p: Spot): nat
    requires p.AtNode?
  {
    AheadMirror(p.c) + (if p.state == Parent then Size(p.s) else 1)
  }

  /**
    * The step from node spot p to q keeps to pre-order: a step down or
    * across enters the next node of PreOrder(t), the one at index
    * Entered(p), and counts it; a step up enters nothing; get_depth of the new
    * state is the change of depth; the step up from the root reaches the header exactly when every
    * node has been entered.
    */
  predicate NextInOrder(t: Tree, p: Spot, q: Spot)
    requires p.AtNode?
  {
    && Entered(p) <= Size(t)
    && OnTree(t, q)
    && (q.AtNode? && q.state != Parent ==> Entered(q) == Entered(p) + 1 <= Size(t))
    && (q.AtNode? && q.state != Parent ==> Ahead(q.c) == Entered(p) && PreOrder(t)[Entered(p)] == q.s.id)
    && (q.AtNode? && q.state == Parent ==> Entered(q) == Entered(p))
    && (q.AtNode? ==> Depth(q.c) == Depth(p.c) + GetDepth(q.state))
    && (q.AtHeader? ==> q.state == Parent && Entered(p) == Size(t))
  }

  /** NextInOrder for the mirrored walk of operator--. */
  predicate PrevInOrder(t: Tree, p: Spot, q: Spot)
    requires p.AtNode?
  {
    && EnteredMirror(p) <= Size(t)
    && OnTree(t, q)
    && (q.AtNode? && q.state != Parent ==> EnteredMirror(q) == EnteredMirror(p) + 1 <= Size(t))
    && (q.AtNode? && q.state != Parent ==> AheadMirror(q.c) == EnteredMirror(p) && MirrorOrder(t)[EnteredMirror(p)] == q.s.id)
    && (q.AtNode? && q.state == Parent ==> EnteredMirror(q) == EnteredMirror(p))
    && (q.AtNode? ==> Depth(q.c) == Depth(p.c) + GetDepth(q.state))
    && (q.AtHeader? ==> q.state == Parent && EnteredMirror(p) == Size(t))
  }

  /** operator++ down to the left child. */
  lemma {:induction false} DownLeftNext(c: Ctx, s: Tree, st: PrimState)
    requires s.Node? && s.left.Node? && st != Parent
    ensures NextInOrder(Plug(c, s), AtNode(c, s, st), AtNode(InLeft(c, s.id, s.key, s.right), s.left, Left))
  {
    PreOrderPlug(InLeft(c, s.id, s.key, s.right), s.left, 0);
  }

  /** operator++ down to the right child, there being no left one. */
  lemma {:induction false} DownRightNext(c: Ctx, s: Tree, st: PrimState)
    requires s.Node? && s.left.Nil? && s.right.Node? && st != Parent
    ensures NextInOrder(Plug(c, s), AtNode(c, s, st), AtNode(InRight(s.left, s.id, s.key, c), s.right, Right))
  {
    PreOrderPlug(InRight(s.left, s.id, s.key, c), s.right, 0);
  }

  /** operator++ across from an exhausted left subtree s to its right sibling. */
  lemma {:induction false} AcrossNext(up: Ctx, s: Tree, i: int, k: int, r: Tree, st: PrimState)
    requires s.Node? && r.Node? && (st == Parent || (s.left.Nil? && s.right.Nil?))
    ensures NextInOrder(Plug(up, Node(s, i, k, r)), AtNode(InLeft(up, i, k, r), s, st), AtNode(InRight(s, i, k, up), r, Sibling))
  {
    PreOrderPlug(InLeft(up, i, k, r), s, Size(s) - 1);
    PreOrderPlug(InRight(s, i, k, up), r, 0);
  }

  /** operator++ up from the root, an exhausted subtree, to the header. */
  lemma {:induction false} UpNextRoot(s: Tree, st: PrimState)
    requires s.Node? && (st == Parent || (s.left.Nil? && s.right.Nil?))
    ensures NextInOrder(s, AtNode(Top, s, st), AtHeader(Parent))
  {
  }

  /** operator++ up from an exhausted left subtree s, with no right sibling, to its parent. */
  lemma {:induction false} UpNextLeft(up: Ctx, s: Tree, i: int, k: int, r: Tree, st: PrimState)
    requires s.Node? && r.Nil? && (st == Parent || (s.left.Nil? && s.right.Nil?))
    ensures NextInOrder(Plug(up, Node(s, i, k, r)), AtNode(InLeft(up, i, k, r), s, st), AtNode(up, Node(s, i, k, r), Parent))
  {
    PreOrderPlug(InLeft(up, i, k, r), s, Size(s) - 1);
    assert Size(Node(s, i, k, r)) == Size(s) + 1;
    assert Entered(AtNode(InLeft(up, i, k, r), s, st)) == Ahead(up) + 1 + Size(s);
  }

  /** operator++ up from an exhausted right subtree s to its parent. */
  lemma {:induction false} UpNextRight(l: Tree, i: int, k: int, up: Ctx, s: Tree, st: PrimState)
    requires s.Node? && (st == Parent || (s.left.Nil? && s.right.Nil?))
    ensures NextInOrder(Plug(up, Node(l, i, k, s)), AtNode(InRight(l, i, k, up), s, st), AtNode(up, Node(l, i, k, s), Parent))
  {
    PreOrderPlug(InRight(l, i, k, up), s, Size(s) - 1);
  }

  /** operator++ follows pre-order, as NextInOrder says. */
  lemma {:induction false} PrimNextOrder(t: Tree, p: Spot)
    requires OnTree(t, p) && p.AtNode?
    ensures NextInOrder(t, p, PrimNext(t, p))
  {
    var AtNode(c, s, st) := p;
    if st != Parent && s.left.Node? {
      DownLeftNext(c, s, st);
    } else if st != Parent && s.right.Node? {
      DownRightNext(c, s, st);
    } else {
      match c
      case Top =>
        UpNextRoot(s, st);
      case InLeft(up, i, k, r) =>
        if r.Node? {
          assert PrimNext(t, p) == AtNode(InRight(s, i, k, up), r, Sibling);
          AcrossNext(up, s, i, k, r, st);
        } else {
          assert PrimNext(t, p) == AtNode(up, Node(s, i, k, r), Parent);
          UpNextLeft(up, s, i, k, r, st);
        }
      case InRight(l, i, k, up) =>
        assert PrimNext(t, p) == AtNode(up, Node(l, i, k, s), Parent);
        UpNextRight(l, i, k, up, s, st);
    }
  }

  /** operator-- down to the right child. */
  lemma {:induction false} DownRightPrev(c: Ctx, s: Tree, st: PrimState)
    requires s.Node? && s.right.Node? && st != Parent
    ensures PrevInOrder(Plug(c, s), AtNode(c, s, st), AtNode(InRight(s.left, s.id, s.key, c), s.right, Right))
  {
    MirrorOrderPlug(InRight(s.left, s.id, s.key, c), s.right, 0);
  }

  /** operator-- down to the left child, there being no right one. */
  lemma {:induction false} DownLeftPrev(c: Ctx, s: Tree, st: PrimState)
    requires s.Node? && s.right.Nil? && s.left.Node? && st != Parent
    ensures PrevInOrder(Plug(c, s), AtNode(c, s, st), AtNode(InLeft(c, s.id, s.key, s.right), s.left, Left))
  {
    MirrorOrderPlug(InLeft(c, s.id, s.key, s.right), s.left, 0);
  }

  /** operator-- across from an exhausted right subtree s to its left sibling. */
  lemma {:induction false} AcrossPrev(l: Tree, i: int, k: int, up: Ctx, s: Tree, st: PrimState)
    requires s.Node? && l.Node? && (st == Parent || (s.left.Nil? && s.right.Nil?))
    ensures PrevInOrder(Plug(up, Node(l, i, k, s)), AtNode(InRight(l, i, k, up), s, st), AtNode(InLeft(up, i, k, s), l, Sibling))
  {
    MirrorOrderPlug(InRight(l, i, k, up), s, Size(s) - 1);
    MirrorOrderPlug(InLeft(up, i, k, s), l, 0);
  }

  /** operator-- up from the root, an exhausted subtree, to the header. */
  lemma {:induction false} UpPrevRoot(s: Tree, st: PrimState)
    requires s.Node? && (st == Parent || (s.left.Nil? && s.right.Nil?))
    ensures PrevInOrder(s, AtNode(Top, s, st), AtHeader(Parent))
  {
  }

  /** operator-- up from an exhausted left subtree s to its parent. */
  lemma {:induction false} UpPrevLeft(up: Ctx, s: Tree, i: int, k: int, r: Tree, st: PrimState)
    requires s.Node? && (st == Parent || (s.left.Nil? && s.right.Nil?))
    ensures PrevInOrder(Plug(up, Node(s, i, k, r)), AtNode(InLeft(up, i, k, r), s, st), AtNode(up, Node(s, i, k, r), Parent))
  {
    MirrorOrderPlug(InLeft(up, i, k, r), s, Size(s) - 1);
  }

  /** operator-- up from an exhausted right subtree s, with no left sibling, to its parent. */
  lemma {:induction false} UpPrevRight(l: Tree, i: int, k: int, up: Ctx, s: Tree, st: PrimState)
    requires s.Node? && l.Nil? && (st == Parent || (s.left.Nil? && s.right.Nil?))
    ensures PrevInOrder(Plug(up, Node(l, i, k, s)), AtNode(InRight(l, i, k, up), s, st), AtNode(up, Node(l, i, k, s), Parent))
  {
    MirrorOrderPlug(InRight(l, i, k, up), s, Size(s) - 1);
    assert Size(Node(l, i, k, s)) == Size(s) + 1;
    assert EnteredMirror(AtNode(InRight(l, i, k, up), s, st)) == AheadMirror(up) + 1 + Size(s);
  }

  /** operator-- follows the mirrored pre-order, as PrevInOrder says. */
  lemma {:induction false} PrimPrevOrder(t: Tree, p: Spot)
    requires OnTree(t, p) && p.AtNode?
    ensures PrevInOrder(t, p, PrimPrev(t, p))
  {
    var AtNode(c, s, st) := p;
    if st != Parent && s.right.Node? {
      DownRightPrev(c, s, st);
    } else if st != Parent && s.left.Node? {
      DownLeftPrev(c, s, st);
    } else {
      match c
      case Top =>
        UpPrevRoot(s, st);
      case InRight(l, i, k, up) =>
        if l.Node? {
          assert PrimPrev(t, p) == AtNode(InLeft(up, i, k, s), l, Sibling);
          AcrossPrev(l, i, k, up, s, st);
        } else {
          assert PrimPrev(t, p) == AtNode(up, Node(l, i, k, s), Parent);
          UpPrevRight(l, i, k, up, s, st);
        }
      case InLeft(up, i, k, r) =>
        assert PrimPrev(t, p) == AtNode(up, Node(s, i, k, r), Parent);
        UpPrevLeft(up, s, i, k, r, st);
    }
  }
}
