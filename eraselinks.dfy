/**
  * What the pointer writes of erase_node do to the node store: splicing a
  * node with at most one child out of its place, putting the successor (or
  * predecessor) into the place of the removed node, and where header->left
  * and header->right must point afterwards.
  */
module EraseLinks {
  import opened Trees
  import opened Arena
  import opened Insertion
  import opened InsertLinks
  import opened Erasure

  /** A subtree of s's nodes in s's place keeps the whole tree's nodes distinct. */
  lemma {:induction false} PlugDistinctSub(c: Ctx, s: Tree, y: Tree)
    requires Distinct(Plug(c, s)) && Distinct(y) && Ids(y) <= Ids(s)
    ensures Distinct(Plug(c, y)) && Ids(Plug(c, y)) <= Ids(Plug(c, s))
  {
    PlugIds(c, s);
    PlugIds(c, y);
    match c
    case Top =>
    case InLeft(up, i, k, r) =>
      PlugIds(up, Node(s, i, k, r));
      PlugDistinctSub(up, Node(s, i, k, r), Node(y, i, k, r));
    case InRight(l, i, k, up) =>
      PlugIds(up, Node(l, i, k, s));
      PlugDistinctSub(up, Node(l, i, k, s), Node(l, i, k, y));
  }

  /**
    * The pointer stores of case 1 of erase_node, stated slot by slot: the
    * only child y of s takes the hole's parent as its parent, the pointer
    * into the hole names y, and the header's leftmost and rightmost
    * pointers move to y's extreme nodes, or to the hole's parent when y is
    * empty, when they named s. No size changes. Afterwards the store
    * holds Plug(c, y) except that the path above still counts s.
    */
  lemma {:induction false} UnlinkStores(ns: seq<NodeRec>, m: seq<NodeRec>, c: Ctx, s: Tree)
    requires Holds(ns, Plug(c, s)) && s.Node? && (s.left.Nil? || s.right.Nil?)
    requires |m| == |ns|
    requires var y := OnlyChild(s);
      y.Node? ==> 0 <= y.id < |ns| && m[y.id] == ns[y.id].(parent := HoleParent(c))
    requires m[HEADER].parent == (if c.Top? then RootOf(OnlyChild(s)) else ns[HEADER].parent)
    requires c.InLeft? ==> 0 <= c.id < |ns| && m[c.id] == ns[c.id].(left := RootOf(OnlyChild(s)))
    requires c.InRight? ==> 0 <= c.id < |ns| && m[c.id] == ns[c.id].(right := RootOf(OnlyChild(s)))
    requires forall j :: 0 < j < |ns| && j != RootOf(OnlyChild(s)) && j != HoleParent(c) ==> m[j] == ns[j]
    requires var y := OnlyChild(s);
      m[HEADER].left == (if ns[HEADER].left != s.id then ns[HEADER].left
                         else if y.Node? then Leftmost(y) else HoleParent(c))
    requires var y := OnlyChild(s);
      m[HEADER].right == (if ns[HEADER].right != s.id then ns[HEADER].right
                          else if y.Node? then Rightmost(y) else HoleParent(c))
    requires m[HEADER].size == ns[HEADER].size
    ensures var y, t := OnlyChild(s), Plug(c, OnlyChild(s));
      LinkedTop(m, t) && LinkedCtx(m, c, RootOf(y)) && Sized(m, y) && SizedCtx(m, c, Size(y) + 1) &&
      Distinct(t) && (forall i :: i in Ids(t) ==> 0 < i < |m|) &&
      Ids(t) == Ids(Plug(c, s)) - {s.id} &&
      m[HEADER].left == (if t.Nil? then HEADER else Leftmost(t)) &&
      m[HEADER].right == (if t.Nil? then HEADER else Rightmost(t)) && m[HEADER].size == 0
  {
    UnlinkLinks(ns, m, c, s);
    UnlinkHeader(ns, m, c, s);
  }

  /** The links and sizes that UnlinkStores promises. */
  lemma {:induction false} UnlinkLinks(ns: seq<NodeRec>, m: seq<NodeRec>, c: Ctx, s: Tree)
    requires Holds(ns, Plug(c, s)) && s.Node? && (s.left.Nil? || s.right.Nil?)
    requires |m| == |ns|
    requires var y := OnlyChild(s);
      y.Node? ==> 0 <= y.id < |ns| && m[y.id] == ns[y.id].(parent := HoleParent(c))
    requires m[HEADER].parent == (if c.Top? then RootOf(OnlyChild(s)) else ns[HEADER].parent)
    requires c.InLeft? ==> 0 <= c.id < |ns| && m[c.id] == ns[c.id].(left := RootOf(OnlyChild(s)))
    requires c.InRight? ==> 0 <= c.id < |ns| && m[c.id] == ns[c.id].(right := RootOf(OnlyChild(s)))
    requires forall j :: 0 < j < |ns| && j != RootOf(OnlyChild(s)) && j != HoleParent(c) ==> m[j] == ns[j]
    requires var y := OnlyChild(s);
      m[HEADER].left == (if ns[HEADER].left != s.id then ns[HEADER].left
                         else if y.Node? then Leftmost(y) else HoleParent(c))
    requires var y := OnlyChild(s);
      m[HEADER].right == (if ns[HEADER].right != s.id then ns[HEADER].right
                          else if y.Node? then Rightmost(y) else HoleParent(c))
    requires m[HEADER].size == ns[HEADER].size
    ensures var y, t := OnlyChild(s), Plug(c, OnlyChild(s));
      LinkedTop(m, t) && LinkedCtx(m, c, RootOf(y)) && Sized(m, y) && SizedCtx(m, c, Size(y) + 1)
  {
    var y := OnlyChild(s);
    assert Sized(m, y) && SizedCtx(m, c, Size(y) + 1) by {
      HoldsAt(ns, c, s);
      assert Size(y) + 1 == Size(s);
      assert SameSizes(ns, m);
      UnlinkSized(ns, m, c, s, y);
    }
    assert LinkedTop(m, Plug(c, y)) by {
      Splice(ns, m, c, s, y);
    }
    LinkedSplit(m, c, y);
  }

  /** The node set and header pointers that UnlinkStores promises. */
  lemma {:induction false} UnlinkHeader(ns: seq<NodeRec>, m: seq<NodeRec>, c: Ctx, s: Tree)
    requires Holds(ns, Plug(c, s)) && s.Node? && (s.left.Nil? || s.right.Nil?)
    requires |m| == |ns|
    requires var y := OnlyChild(s);
      y.Node? ==> 0 <= y.id < |ns| && m[y.id] == ns[y.id].(parent := HoleParent(c))
    requires m[HEADER].parent == (if c.Top? then RootOf(OnlyChild(s)) else ns[HEADER].parent)
    requires c.InLeft? ==> 0 <= c.id < |ns| && m[c.id] == ns[c.id].(left := RootOf(OnlyChild(s)))
    requires c.InRight? ==> 0 <= c.id < |ns| && m[c.id] == ns[c.id].(right := RootOf(OnlyChild(s)))
    requires forall j :: 0 < j < |ns| && j != RootOf(OnlyChild(s)) && j != HoleParent(c) ==> m[j] == ns[j]
    requires var y := OnlyChild(s);
      m[HEADER].left == (if ns[HEADER].left != s.id then ns[HEADER].left
                         else if y.Node? then Leftmost(y) else HoleParent(c))
    requires var y := OnlyChild(s);
      m[HEADER].right == (if ns[HEADER].right != s.id then ns[HEADER].right
                          else if y.Node? then Rightmost(y) else HoleParent(c))
    requires m[HEADER].size == ns[HEADER].size
    ensures var t := Plug(c, OnlyChild(s));
      Distinct(t) && (forall i :: i in Ids(t) ==> 0 < i < |m|) &&
      Ids(t) == Ids(Plug(c, s)) - {s.id} &&
      m[HEADER].left == (if t.Nil? then HEADER else Leftmost(t)) &&
      m[HEADER].right == (if t.Nil? then HEADER else Rightmost(t)) && m[HEADER].size == 0
  {
    UnlinkIds(c, s, |m|);
    UnlinkEnds(ns, m, c, s);
  }

  /** Case 1 of erase_node drops exactly s's node from the tree. */
  lemma {:induction false} UnlinkIds(c: Ctx, s: Tree, n: int)
    requires s.Node? && (s.left.Nil? || s.right.Nil?) && Distinct(Plug(c, s))
    requires forall i :: i in Ids(Plug(c, s)) ==> 0 < i < n
    ensures var t := Plug(c, OnlyChild(s));
      Distinct(t) && (forall i :: i in Ids(t) ==> 0 < i < n) && Ids(t) == Ids(Plug(c, s)) - {s.id}
  {
    var y := OnlyChild(s);
    PlugIds(c, s);
    assert Ids(y) == Ids(s) - {s.id} by {
      assert Ids(s) == Ids(s.left) + {s.id} + Ids(s.right);
    }
    PlugShrink(c, s, y);
  }

  /** The pointer stores of case 1 change no size. */
  lemma {:induction false} UnlinkSized(ns: seq<NodeRec>, m: seq<NodeRec>, c: Ctx, s: Tree, y: Tree)
    requires Sized(ns, Plug(c, s)) && SameSizes(ns, m) && Size(y) + 1 == Size(s) && Sized(ns, y)
    ensures Sized(m, y) && SizedCtx(m, c, Size(y) + 1)
  {
    SizedSplit(ns, c, s);
    SizedSame(ns, m, y);
    SizedCtxSame(ns, m, c, Size(s));
  }

  /** The header's extreme pointers after the stores of case 1. */
  lemma {:induction false} UnlinkEnds(ns: seq<NodeRec>, m: seq<NodeRec>, c: Ctx, s: Tree)
    requires s.Node? && (s.left.Nil? || s.right.Nil?) && Distinct(Plug(c, s)) && 0 < |ns| && 0 < |m|
    requires var t := Plug(c, s);
      ns[HEADER].left == (if t.Nil? then HEADER else Leftmost(t)) &&
      ns[HEADER].right == (if t.Nil? then HEADER else Rightmost(t))
    requires var y := OnlyChild(s);
      m[HEADER].left == (if ns[HEADER].left != s.id then ns[HEADER].left
                         else if y.Node? then Leftmost(y) else HoleParent(c))
    requires var y := OnlyChild(s);
      m[HEADER].right == (if ns[HEADER].right != s.id then ns[HEADER].right
                          else if y.Node? then Rightmost(y) else HoleParent(c))
    ensures var t := Plug(c, OnlyChild(s));
      m[HEADER].left == (if t.Nil? then HEADER else Leftmost(t)) &&
      m[HEADER].right == (if t.Nil? then HEADER else Rightmost(t))
  {
    UnlinkMin(c, s);
    UnlinkMax(c, s);
  }

  /** Size fixes that leave every pointer and the header alone keep a linked store linked. */
  lemma {:induction false} Resized(ns: seq<NodeRec>, ns': seq<NodeRec>, t: Tree)
    requires LinkedTop(ns, t) && Distinct(t) && (forall i :: i in Ids(t) ==> 0 < i < |ns|)
    requires ns[HEADER].left == (if t.Nil? then HEADER else Leftmost(t))
    requires ns[HEADER].right == (if t.Nil? then HEADER else Rightmost(t)) && ns[HEADER].size == 0
    requires SameLinks(ns, ns') && |ns'| == |ns| && ns'[HEADER] == ns[HEADER] && Sized(ns', t)
    ensures Holds(ns', t)
  {
    LinkedLinks(ns, ns', t, HEADER);
  }

  /**
    * Halfway through the size loop of erase_node: the loop has reached the
    * root of xx, whose size and those of the nodes above it still count the
    * erased node, while everything below is right. The pointers are as in
    * ns0.
    */
  predicate Shrinking(ns0: seq<NodeRec>, ns: seq<NodeRec>, c: Ctx, y: Tree, cc: Ctx, xx: Tree)
  {
    |ns0| == |ns| && SameLinks(ns0, ns) &&
    Distinct(Plug(c, y)) && (forall i :: i in Ids(Plug(c, y)) ==> 0 < i < |ns|) &&
    Plug(cc, xx) == Plug(c, y) && SizedBut(ns, cc, xx, 1) && 0 < xx.id &&
    LinkedCtx(ns0, cc, xx.id) && ns0[xx.id].parent == HoleParent(cc)
  }

  /** Where the size loop starts: at the parent of the place that lost a node. */
  lemma {:induction false} ShrinkBegin(ns: seq<NodeRec>, c: Ctx, y: Tree, h: int)
    requires LinkedCtx(ns, c, h) && Sized(ns, y) && SizedCtx(ns, c, Size(y) + 1)
    requires Distinct(Plug(c, y)) && (forall i :: i in Ids(Plug(c, y)) ==> 0 < i < |ns|)
    ensures c.Top? ==> HoleParent(c) == HEADER && Sized(ns, Plug(c, y))
    ensures !c.Top? ==> HoleParent(c) != HEADER && Shrinking(ns, ns, c, y, c.up, Lift(c, y))
  {
    PlugHoleParentIn(c, y, |ns|);
    LiftSized(ns, c, y, 1);
  }

  /** One round of the size loop: --p->size, then p = p->parent. */
  lemma {:induction false} ShrinkAdvance(ns0: seq<NodeRec>, ns: seq<NodeRec>, c: Ctx, y: Tree, cc: Ctx, xx: Tree)
    requires Shrinking(ns0, ns, c, y, cc, xx)
    ensures var p := xx.id; var ns' := ns[p := ns[p].(size := ns[p].size - 1)];
      SameLinks(ns0, ns') && ns'[HEADER] == ns[HEADER] && ns'[p].parent == HoleParent(cc) &&
      (cc.Top? ==> HoleParent(cc) == HEADER && Sized(ns', Plug(c, y))) &&
      (!cc.Top? ==> HoleParent(cc) != HEADER && Shrinking(ns0, ns', c, y, cc.up, Lift(cc, xx)))
  {
    var p := xx.id;
    var ns' := ns[p := ns[p].(size := ns[p].size - 1)];
    PlugHoleFresh(cc, xx);
    PlugHoleParentIn(cc, xx, |ns|);
    PendingSized(ns, ns', cc, xx, 1);
    LiftSized(ns', cc, xx, 1);
  }

  /** The subtree in the hole of a tree with distinct nodes has distinct nodes of its own. */
  lemma {:induction false} PlugHoleFresh(c: Ctx, x: Tree)
    requires Distinct(Plug(c, x)) && x.Node?
    ensures Distinct(x) && x.id !in CtxIds(c)
  {
    PlugIds(c, x);
  }

  /** The innermost layer of a context names a node of the whole tree. */
  lemma {:induction false} PlugHoleParentIn(c: Ctx, x: Tree, n: int)
    requires forall i :: i in Ids(Plug(c, x)) ==> 0 < i < n
    ensures !c.Top? ==> 0 < HoleParent(c) < n
  {
    PlugIds(c, x);
    if !c.Top? {
      assert c.id in CtxIds(c);
    }
  }

  /**
    * Splicing out the root of s, which has at most one child y: y's root
    * takes the hole's parent as its parent and the child pointer into the
    * hole names y's root. No other slot of the resulting tree changes.
    */
  lemma {:induction false} Splice(ns: seq<NodeRec>, ns': seq<NodeRec>, c: Ctx, s: Tree, y: Tree)
    requires s.Node? && ((s.left.Nil? && y == s.right) || (s.right.Nil? && y == s.left))
    requires LinkedTop(ns, Plug(c, s)) && Distinct(Plug(c, s))
    requires forall i :: i in Ids(Plug(c, s)) ==> 0 < i < |ns|
    requires |ns'| == |ns|
    requires y.Node? ==> 0 <= y.id < |ns| && ns'[y.id] == ns[y.id].(parent := HoleParent(c))
    requires ns'[HEADER].parent == (if c.Top? then RootOf(y) else ns[HEADER].parent)
    requires c.InLeft? ==> 0 <= c.id < |ns| && ns'[c.id] == ns[c.id].(left := RootOf(y))
    requires c.InRight? ==> 0 <= c.id < |ns| && ns'[c.id] == ns[c.id].(right := RootOf(y))
    requires forall j :: 0 < j < |ns| && j != RootOf(y) && j != HoleParent(c) ==> ns'[j] == ns[j]
    ensures LinkedTop(ns', Plug(c, y))
  {
    PlugIds(c, s);
    PlugIds(c, y);
    LinkedSplit(ns, c, s);
    assert Ids(s) == Ids(s.left) + {s.id} + Ids(s.right);
    assert Linked(ns, y, s.id) && Distinct(y);
    assert RootOf(y) == NIL || RootOf(y) in Ids(y);
    LinkedCtxFrame(ns, ns', c, s.id, RootOf(y));
    LinkedMove(ns, ns', y, s.id, HoleParent(c));
    LinkedSplit(ns', c, y);
  }

  /**
    * Putting node x with key kx in the place of the root t of Node(l, t, _, r):
    * both subtrees take x as their parent, x takes the hole's parent as its
    * parent, both subtrees as children and the place's size, and the child
    * pointer into the hole names x. No other slot of the resulting tree
    * changes. The parent pointers of l and r led to pl and pr, which need
    * not be t.
    */
  lemma {:induction false} Substitute(ns: seq<NodeRec>, ns': seq<NodeRec>, c: Ctx, l: Tree, r: Tree,
                   t: int, pl: int, pr: int, x: int, kx: int)
    requires LinkedCtx(ns, c, t) && Linked(ns, l, pl) && Linked(ns, r, pr)
    requires SizedCtx(ns, c, Size(l) + Size(r) + 1) && Sized(ns, l) && Sized(ns, r)
    requires Distinct(Plug(c, Node(l, x, kx, r)))
    requires forall i :: i in Ids(Plug(c, Node(l, x, kx, r))) ==> 0 < i < |ns|
    requires |ns'| == |ns| && 0 <= x < |ns|
    requires ns'[x] == NodeRec(HoleParent(c), RootOf(l), RootOf(r), Size(l) + Size(r) + 1, kx)
    requires l.Node? ==> 0 <= l.id < |ns| && ns'[l.id] == ns[l.id].(parent := x)
    requires r.Node? ==> 0 <= r.id < |ns| && ns'[r.id] == ns[r.id].(parent := x)
    requires ns'[HEADER].parent == (if c.Top? then x else ns[HEADER].parent)
    requires c.InLeft? ==> 0 <= c.id < |ns| && ns'[c.id] == ns[c.id].(left := x)
    requires c.InRight? ==> 0 <= c.id < |ns| && ns'[c.id] == ns[c.id].(right := x)
    requires forall j :: 0 < j < |ns| && j != x && j != RootOf(l) && j != RootOf(r) && j != HoleParent(c) ==>
      ns'[j] == ns[j]
    ensures LinkedTop(ns', Plug(c, Node(l, x, kx, r))) && Sized(ns', Plug(c, Node(l, x, kx, r)))
  {
    var n := Node(l, x, kx, r);
    PlugIds(c, n);
    assert Ids(n) == Ids(l) + {x} + Ids(r);
    SubstituteParts(ns, ns', c, l, r, t, pl, pr, x, kx);
    LinkedSplit(ns', c, n);
    SizedSplit(ns', c, n);
  }

  /** Substitute, stated for the context and the new subtree separately. */
  lemma {:induction false} SubstituteParts(ns: seq<NodeRec>, ns': seq<NodeRec>, c: Ctx, l: Tree, r: Tree,
                        t: int, pl: int, pr: int, x: int, kx: int)
    requires LinkedCtx(ns, c, t) && Linked(ns, l, pl) && Linked(ns, r, pr)
    requires SizedCtx(ns, c, Size(l) + Size(r) + 1) && Sized(ns, l) && Sized(ns, r)
    requires CtxDistinct(c) && Distinct(Node(l, x, kx, r)) && CtxIds(c) !! Ids(Node(l, x, kx, r))
    requires forall i :: i in CtxIds(c) ==> 0 < i < |ns|
    requires forall i :: i in Ids(l) ==> 0 < i < |ns|
    requires forall i :: i in Ids(r) ==> 0 < i < |ns|
    requires |ns'| == |ns| && 0 < x < |ns|
    requires ns'[x] == NodeRec(HoleParent(c), RootOf(l), RootOf(r), Size(l) + Size(r) + 1, kx)
    requires l.Node? ==> 0 <= l.id < |ns| && ns'[l.id] == ns[l.id].(parent := x)
    requires r.Node? ==> 0 <= r.id < |ns| && ns'[r.id] == ns[r.id].(parent := x)
    requires ns'[HEADER].parent == (if c.Top? then x else ns[HEADER].parent)
    requires c.InLeft? ==> 0 <= c.id < |ns| && ns'[c.id] == ns[c.id].(left := x)
    requires c.InRight? ==> 0 <= c.id < |ns| && ns'[c.id] == ns[c.id].(right := x)
    requires forall j :: 0 < j < |ns| && j != x && j != RootOf(l) && j != RootOf(r) && j != HoleParent(c) ==>
      ns'[j] == ns[j]
    ensures LinkedCtx(ns', c, x) && SizedCtx(ns', c, Size(l) + Size(r) + 1)
    ensures Linked(ns', Node(l, x, kx, r), HoleParent(c)) && Sized(ns', Node(l, x, kx, r))
  {
    var a, b, hp := RootOf(l), RootOf(r), HoleParent(c);
    var n := Node(l, x, kx, r);
    assert Ids(n) == Ids(l) + {x} + Ids(r);
    assert a == NIL || a in Ids(l);
    assert b == NIL || b in Ids(r);
    assert LinkedCtx(ns', c, x) && SizedCtx(ns', c, Size(l) + Size(r) + 1) by {
      assert !c.Top? ==> hp in CtxIds(c);
      FrameIn(ns, ns', CtxIds(c), hp, x, a, b);
      SubstituteAbove(ns, ns', c, t, x, Size(l) + Size(r) + 1);
    }
    assert Linked(ns', n, hp) && Sized(ns', n) by {
      FrameIn(ns, ns', Ids(l), a, x, b, hp);
      FrameIn(ns, ns', Ids(r), b, x, a, hp);
      SubstituteBelow(ns, ns', l, r, pl, pr, x, kx, hp);
    }
  }

  /** A store-wide frame restricted to a set of slots that misses three of the changed ones. */
  lemma {:induction false} FrameIn(ns: seq<NodeRec>, ns': seq<NodeRec>, S: set<int>, a: int, b: int, b': int, b'': int)
    requires |ns'| == |ns|
    requires forall j :: 0 < j < |ns| && j != a && j != b && j != b' && j != b'' ==> ns'[j] == ns[j]
    requires forall i :: i in S ==> 0 < i < |ns|
    requires b !in S && b' !in S && b'' !in S
    ensures forall j :: j in S && j != a ==> 0 <= j < |ns| && ns'[j] == ns[j]
  {
  }

  lemma {:induction false} SubstituteAbove(ns: seq<NodeRec>, ns': seq<NodeRec>, c: Ctx, t: int, x: int, hs: int)
    requires LinkedCtx(ns, c, t) && SizedCtx(ns, c, hs) && CtxDistinct(c) && HEADER !in CtxIds(c)
    requires |ns'| == |ns| && ns'[HEADER].parent == (if c.Top? then x else ns[HEADER].parent)
    requires c.InLeft? ==> 0 <= c.id < |ns| && ns'[c.id] == ns[c.id].(left := x)
    requires c.InRight? ==> 0 <= c.id < |ns| && ns'[c.id] == ns[c.id].(right := x)
    requires forall j :: j in CtxIds(c) && j != HoleParent(c) ==> 0 <= j < |ns| && ns'[j] == ns[j]
    ensures LinkedCtx(ns', c, x) && SizedCtx(ns', c, hs)
  {
    LinkedCtxFrame(ns, ns', c, t, x);
    SizedCtxFrame(ns, ns', c, hs);
  }

  lemma {:induction false} SubstituteBelow(ns: seq<NodeRec>, ns': seq<NodeRec>, l: Tree, r: Tree,
                        pl: int, pr: int, x: int, kx: int, hp: int)
    requires Linked(ns, l, pl) && Linked(ns, r, pr) && Sized(ns, l) && Sized(ns, r)
    requires Distinct(l) && Distinct(r)
    requires |ns'| == |ns| && 0 <= x < |ns|
    requires ns'[x] == NodeRec(hp, RootOf(l), RootOf(r), Size(l) + Size(r) + 1, kx)
    requires l.Node? ==> 0 <= l.id < |ns| && ns'[l.id] == ns[l.id].(parent := x)
    requires r.Node? ==> 0 <= r.id < |ns| && ns'[r.id] == ns[r.id].(parent := x)
    requires forall j :: j in Ids(l) && j != RootOf(l) ==> 0 <= j < |ns| && ns'[j] == ns[j]
    requires forall j :: j in Ids(r) && j != RootOf(r) ==> 0 <= j < |ns| && ns'[j] == ns[j]
    ensures Linked(ns', Node(l, x, kx, r), hp) && Sized(ns', Node(l, x, kx, r))
  {
    LinkedMove(ns, ns', l, pl, x);
    LinkedMove(ns, ns', r, pr, x);
    SizedFrame(ns, ns', l);
    SizedFrame(ns, ns', r);
  }

  /** With the hole on the left spine, a hole left empty below c's own node makes that node the minimum. */
  lemma {:induction false} NilMin(c: Ctx)
    requires LeftSpine(c) && c.InLeft?
    ensures Plug(c, Nil).Node? && Leftmost(Plug(c, Nil)) == c.id
  {
    var n := Node(Nil, c.id, c.key, c.right);
    PlugMin(c.up, n, n);
  }

  lemma {:induction false} NilMax(c: Ctx)
    requires RightSpine(c) && c.InRight?
    ensures Plug(c, Nil).Node? && Rightmost(Plug(c, Nil)) == c.id
  {
    var n := Node(c.left, c.id, c.key, Nil);
    PlugMax(c.up, n, n);
  }

  /** Off the left spine, the minimum is a node of the context whatever fills the hole. */
  lemma {:induction false} PlugMinAny(c: Ctx, s: Tree, s': Tree)
    requires !LeftSpine(c)
    ensures Plug(c, s).Node? && Plug(c, s').Node? && Leftmost(Plug(c, s')) == Leftmost(Plug(c, s))
  {
    match c
    case InLeft(up, i, k, r) =>
      PlugMinAny(up, Node(s, i, k, r), Node(s', i, k, r));
    case InRight(l, i, k, up) =>
      var n, n' := Node(l, i, k, s), Node(l, i, k, s');
      if LeftSpine(up) {
        PlugMin(up, n, n');
      } else {
        PlugMinAny(up, n, n');
      }
  }

  lemma {:induction false} PlugMaxAny(c: Ctx, s: Tree, s': Tree)
    requires !RightSpine(c)
    ensures Plug(c, s).Node? && Plug(c, s').Node? && Rightmost(Plug(c, s')) == Rightmost(Plug(c, s))
  {
    match c
    case InLeft(up, i, k, r) =>
      var n, n' := Node(s, i, k, r), Node(s', i, k, r);
      if RightSpine(up) {
        PlugMax(up, n, n');
      } else {
        PlugMaxAny(up, n, n');
      }
    case InRight(l, i, k, up) =>
      PlugMaxAny(up, Node(l, i, k, s), Node(l, i, k, s'));
  }

  /** The child that replaces a node with at most one child. */
  function OnlyChild(s: Tree): (y: Tree)
    requires s.Node? && (s.left.Nil? || s.right.Nil?)
    ensures Ids(y) <= Ids(s) && Size(y) == Size(s) - 1
  {
    if s.left.Nil? then s.right else s.left
  }

  /**
    * header->left after splicing out the root of s, which has at most one
    * child y: when s's root was the minimum it becomes y's minimum, or the
    * hole's parent when y is empty; otherwise it stays.
    */
  lemma {:induction false} UnlinkMin(c: Ctx, s: Tree)
    requires s.Node? && (s.left.Nil? || s.right.Nil?) && Distinct(Plug(c, s))
    ensures Plug(c, s).Node?
    ensures var y, t1 := OnlyChild(s), Plug(c, OnlyChild(s));
      Leftmost(Plug(c, s)) == s.id ==>
        (if t1.Nil? then HEADER else Leftmost(t1)) == (if y.Node? then Leftmost(y) else HoleParent(c))
    ensures Leftmost(Plug(c, s)) != s.id ==>
      Plug(c, OnlyChild(s)).Node? && Leftmost(Plug(c, OnlyChild(s))) == Leftmost(Plug(c, s))
  {
    var y := OnlyChild(s);
    PlugIds(c, s);
    assert Ids(s) == Ids(s.left) + {s.id} + Ids(s.right);
    if LeftSpine(c) {
      PlugMin(c, s, s);
      if s.left.Node? {
        MinIn(s.left);
        PlugMin(c, s, y);
      } else if y.Node? {
        PlugMin(c, s, y);
      } else if c.InLeft? {
        NilMin(c);
      }
    } else {
      PlugMin(c, s, s);
      PlugMinAny(c, s, y);
    }
  }

  lemma {:induction false} UnlinkMax(c: Ctx, s: Tree)
    requires s.Node? && (s.left.Nil? || s.right.Nil?) && Distinct(Plug(c, s))
    ensures Plug(c, s).Node?
    ensures var y, t1 := OnlyChild(s), Plug(c, OnlyChild(s));
      Rightmost(Plug(c, s)) == s.id ==>
        (if t1.Nil? then HEADER else Rightmost(t1)) == (if y.Node? then Rightmost(y) else HoleParent(c))
    ensures Rightmost(Plug(c, s)) != s.id ==>
      Plug(c, OnlyChild(s)).Node? && Rightmost(Plug(c, OnlyChild(s))) == Rightmost(Plug(c, s))
  {
    var y := OnlyChild(s);
    PlugIds(c, s);
    assert Ids(s) == Ids(s.left) + {s.id} + Ids(s.right);
    if RightSpine(c) {
      PlugMax(c, s, s);
      if s.right.Node? {
        MaxIn(s.right);
        PlugMax(c, s, y);
      } else if y.Node? {
        PlugMax(c, s, y);
      } else if c.InRight? {
        NilMax(c);
      }
    } else {
      PlugMax(c, s, s);
      PlugMaxAny(c, s, y);
    }
  }

  /** Splicing out the minimum keeps the maximum, unless the minimum was the only node. */
  lemma {:induction false} RemoveMinMax(t: Tree)
    requires t.Node?
    ensures RemoveMin(t).Nil? ==> Rightmost(t) == MinSub(t).id
    ensures RemoveMin(t).Node? ==> Rightmost(RemoveMin(t)) == Rightmost(t)
  {
  }

  lemma {:induction false} RemoveMaxMin(t: Tree)
    requires t.Node?
    ensures RemoveMax(t).Nil? ==> Leftmost(t) == MaxSub(t).id
    ensures RemoveMax(t).Node? ==> Leftmost(RemoveMax(t)) == Leftmost(t)
  {
  }

  /** Replacing a node with two children by its successor moves neither end of the tree. */
  lemma {:induction false} SuccessorEnds(c: Ctx, s: Tree)
    requires s.Node? && s.left.Node? && s.right.Node?
    ensures var m := MinSub(s.right); var n := Node(s.left, m.id, m.key, RemoveMin(s.right));
      Plug(c, n).Node? && Plug(c, s).Node? &&
      Leftmost(Plug(c, n)) == Leftmost(Plug(c, s)) && Rightmost(Plug(c, n)) == Rightmost(Plug(c, s))
  {
    var m := MinSub(s.right);
    var n := Node(s.left, m.id, m.key, RemoveMin(s.right));
    PlugMin(c, s, n);
    PlugMax(c, s, n);
    RemoveMinMax(s.right);
  }

  lemma {:induction false} PredecessorEnds(c: Ctx, s: Tree)
    requires s.Node? && s.left.Node? && s.right.Node?
    ensures var m := MaxSub(s.left); var n := Node(RemoveMax(s.left), m.id, m.key, s.right);
      Plug(c, n).Node? && Plug(c, s).Node? &&
      Leftmost(Plug(c, n)) == Leftmost(Plug(c, s)) && Rightmost(Plug(c, n)) == Rightmost(Plug(c, s))
  {
    var m := MaxSub(s.left);
    var n := Node(RemoveMax(s.left), m.id, m.key, s.right);
    PlugMin(c, s, n);
    PlugMax(c, s, n);
    RemoveMaxMin(s.left);
  }

  /**
    * The place of the minimum of t below any context: t's own place when t
    * has no left child, and otherwise a left child of the same node of t,
    * whatever the context above t.
    */
  lemma {:induction false} MinCtxShape(c: Ctx, c': Ctx, t: Tree)
    requires t.Node?
    ensures t.left.Nil? ==> MinCtx(c, t) == c && MinSub(t) == t
    ensures t.left.Node? ==>
      MinCtx(c, t).InLeft? && MinCtx(c', t).InLeft? && MinCtx(c, t).id == MinCtx(c', t).id
    decreases t
  {
    if t.left.Node? && t.left.left.Node? {
      MinCtxShape(InLeft(c, t.id, t.key, t.right), InLeft(c', t.id, t.key, t.right), t.left);
    }
  }

  lemma {:induction false} MaxCtxShape(c: Ctx, c': Ctx, t: Tree)
    requires t.Node?
    ensures t.right.Nil? ==> MaxCtx(c, t) == c && MaxSub(t) == t
    ensures t.right.Node? ==>
      MaxCtx(c, t).InRight? && MaxCtx(c', t).InRight? && MaxCtx(c, t).id == MaxCtx(c', t).id
    decreases t
  {
    if t.right.Node? && t.right.right.Node? {
      MaxCtxShape(InRight(t.left, t.id, t.key, c), InRight(t.left, t.id, t.key, c'), t.right);
    }
  }
}
