/**
  * What the pointer writes of insert_equal_node and insert_unique_node do to
  * the node store, before the rebalancing climb: the size increments on the
  * way down or up, and the few stores that hang the new node below the
  * landing node and move header->left or header->right onto it.
  */
module InsertLinks {
  import opened Trees
  import opened Arena
  import opened Search
  import opened Insertion

  /** The store holds t except, possibly, for the size fields of t's nodes. */
  predicate Shape(ns: seq<NodeRec>, t: Tree)
  {
    0 < |ns| && Distinct(t) && (forall i :: i in Ids(t) ==> 0 < i < |ns|) &&
    LinkedTop(ns, t) &&
    ns[HEADER].left == (if t.Nil? then HEADER else Leftmost(t)) &&
    ns[HEADER].right == (if t.Nil? then HEADER else Rightmost(t)) &&
    ns[HEADER].size == 0
  }

  /**
    * Below x every size field is right; x's own size field and those of the
    * nodes of context c are all off by d.
    */
  predicate SizedBut(ns: seq<NodeRec>, c: Ctx, x: Tree, d: int)
  {
    x.Node? && 0 <= x.id < |ns| && Sized(ns, x.left) && Sized(ns, x.right) &&
    ns[x.id].size == Size(x) + d && SizedCtx(ns, c, Size(x) + d)
  }

  /** The subtree one level up: x put back into the innermost layer of c. */
  function Lift(c: Ctx, x: Tree): (y: Tree)
    ensures !c.Top? ==> y.Node? && y.id == c.id && Plug(c.up, y) == Plug(c, x)
  {
    match c
    case Top => x
    case InLeft(up, i, k, r) => Node(x, i, k, r)
    case InRight(l, i, k, up) => Node(l, i, k, x)
  }

  lemma {:induction false} HoldsShape(ns: seq<NodeRec>, t: Tree)
    ensures Holds(ns, t) <==> Shape(ns, t) && Sized(ns, t)
  {
  }

  /** With nothing off, the store holds the whole tree. */
  lemma {:induction false} SizedButNone(ns: seq<NodeRec>, c: Ctx, x: Tree)
    requires Shape(ns, Plug(c, x)) && SizedBut(ns, c, x, 0)
    ensures Holds(ns, Plug(c, x))
  {
    SizedSplit(ns, c, x);
  }

  /** A store that holds Plug(c, x) has nothing off at x. */
  lemma {:induction false} HoldsSizedBut(ns: seq<NodeRec>, c: Ctx, x: Tree)
    requires Holds(ns, Plug(c, x)) && x.Node?
    ensures Shape(ns, Plug(c, x)) && SizedBut(ns, c, x, 0)
  {
    HoldsAt(ns, c, x);
  }

  /** Changing size fields only, and not the header's, keeps the shape. */
  lemma {:induction false} ShapeSizes(ns: seq<NodeRec>, ns': seq<NodeRec>, t: Tree)
    requires Shape(ns, t) && SameLinks(ns, ns') && ns'[HEADER].size == 0
    ensures Shape(ns', t)
  {
    LinkedLinks(ns, ns', t, HEADER);
    LinkedCtxLinks(ns, ns', Top, RootOf(t));
  }

  /** create_node: a new slot at the end of the store leaves the tree where it was. */
  lemma {:induction false} AppendHolds(ns: seq<NodeRec>, t: Tree, rec: NodeRec)
    requires Holds(ns, t)
    ensures Holds(ns + [rec], t) && |ns| !in Ids(t)
  {
    var ns' := ns + [rec];
    assert SameLinks(ns, ns');
    LinkedLinks(ns, ns', t, HEADER);
    SizedFrame(ns, ns', t);
  }

  /** What a store in shape for Plug(c, s) says about the slots of s and c. */
  lemma {:induction false} ShapeParts(ns: seq<NodeRec>, c: Ctx, s: Tree)
    requires Shape(ns, Plug(c, s)) && s.Node?
    ensures 0 < s.id < |ns| && Distinct(s) && CtxDistinct(c)
    ensures s.id !in Ids(s.left) && s.id !in Ids(s.right) && s.id !in CtxIds(c)
    ensures forall i :: i in Ids(s) ==> 0 < i < |ns|
    ensures forall i :: i in CtxIds(c) ==> 0 < i < |ns|
    ensures Ids(s) !! CtxIds(c)
  {
    PlugIds(c, s);
  }

  /** The pointers and the payload of the root of s, in a store in shape for Plug(c, s). */
  lemma {:induction false} ShapeNode(ns: seq<NodeRec>, c: Ctx, s: Tree)
    requires Shape(ns, Plug(c, s)) && s.Node?
    ensures 0 < s.id < |ns| && ns[s.id].data == s.key && ns[s.id].parent == HoleParent(c)
    ensures ns[s.id].left == RootOf(s.left) && ns[s.id].right == RootOf(s.right)
    ensures RootOf(s.left) == NIL || 0 < RootOf(s.left) < |ns|
    ensures RootOf(s.right) == NIL || 0 < RootOf(s.right) < |ns|
    ensures (s.left.Nil? <==> RootOf(s.left) == NIL) && (s.right.Nil? <==> RootOf(s.right) == NIL)
  {
    ShapeParts(ns, c, s);
    LinkedSplit(ns, c, s);
    assert RootOf(s.left) == NIL || RootOf(s.left) in Ids(s);
    assert RootOf(s.right) == NIL || RootOf(s.right) in Ids(s);
  }

  /** Raising one node's size field, not the header's, keeps the shape and every other size. */
  lemma {:induction false} Bump(ns: seq<NodeRec>, ns': seq<NodeRec>, t: Tree, i: int)
    requires Shape(ns, t) && 0 < i < |ns| && ns' == ns[i := ns[i].(size := ns[i].size + 1)]
    ensures Shape(ns', t) && ns'[i].size == ns[i].size + 1
    ensures |ns'| == |ns| && forall j :: 0 <= j < |ns| && j != i ==> ns'[j] == ns[j]
  {
    assert SameLinks(ns, ns');
    ShapeSizes(ns, ns', t);
  }

  /**
    * One step of insert_equal_node's descent: ++t->size on the root of s,
    * whose nodes are sized while the nodes above already count the new node.
    * Afterwards s's root counts it too, and so does either child's context.
    */
  lemma {:induction false} GrowStep(ns: seq<NodeRec>, ns': seq<NodeRec>, c: Ctx, s: Tree)
    requires Shape(ns, Plug(c, s)) && s.Node? && Sized(ns, s) && SizedCtx(ns, c, Size(s) + 1)
    requires 0 <= s.id < |ns| && ns' == ns[s.id := ns[s.id].(size := ns[s.id].size + 1)]
    ensures s.id != HEADER
    ensures Shape(ns', Plug(c, s)) && SizedBut(ns', c, s, 1)
    ensures SizedCtx(ns', InLeft(c, s.id, s.key, s.right), Size(s.left) + 1)
    ensures SizedCtx(ns', InRight(s.left, s.id, s.key, c), Size(s.right) + 1)
  {
    ShapeParts(ns, c, s);
    Bump(ns, ns', Plug(c, s), s.id);
    GrowSized(ns, ns', c, s);
    ChildCtx(ns', c, s);
  }

  lemma {:induction false} GrowSized(ns: seq<NodeRec>, ns': seq<NodeRec>, c: Ctx, s: Tree)
    requires s.Node? && Distinct(s) && s.id !in CtxIds(c) && Sized(ns, s) && SizedCtx(ns, c, Size(s) + 1)
    requires 0 <= s.id < |ns| && ns' == ns[s.id := ns[s.id].(size := ns[s.id].size + 1)]
    ensures SizedBut(ns', c, s, 1)
  {
    var rec := ns[s.id].(size := ns[s.id].size + 1);
    SizedPoke(ns, s.left, s.id, rec);
    SizedPoke(ns, s.right, s.id, rec);
    SizedCtxPoke(ns, c, Size(s) + 1, s.id, rec);
  }

  /** Once s's root counts the new node, so do the contexts of both its children. */
  lemma {:induction false} ChildCtx(ns: seq<NodeRec>, c: Ctx, s: Tree)
    requires SizedBut(ns, c, s, 1)
    ensures SizedCtx(ns, InLeft(c, s.id, s.key, s.right), Size(s.left) + 1)
    ensures SizedCtx(ns, InRight(s.left, s.id, s.key, c), Size(s.right) + 1)
  {
  }

  /**
    * The state of insert_equal_node's descent at subtree s in context c of
    * the tree t: the nodes above s already count the new node, those of s
    * do not yet, and the descent from the root lands where the one from s
    * does.
    */
  predicate Growing(ns: seq<NodeRec>, t: Tree, c: Ctx, s: Tree, key: int)
  {
    t == Plug(c, s) && s.Node? && t.Node? && LandingAt(c, s, key) == LandingAt(Top, t, key) &&
    Shape(ns, t) && Sized(ns, s) && SizedCtx(ns, c, Size(s) + 1)
  }

  /**
    * ++t->size at the root of s, and what the descent does next: it goes
    * on to the child on key's side, or it has landed.
    */
  lemma {:induction false} GrowNext(ns: seq<NodeRec>, ns': seq<NodeRec>, t: Tree, c: Ctx, s: Tree, key: int)
    requires Growing(ns, t, c, s, key)
    requires 0 <= s.id < |ns| && ns' == ns[s.id := ns[s.id].(size := ns[s.id].size + 1)]
    ensures s.id in Ids(t) && 0 < s.id < |ns'| && ns'[s.id].data == s.key
    ensures ns'[s.id].left == RootOf(s.left) && ns'[s.id].right == RootOf(s.right)
    ensures (s.left.Nil? <==> RootOf(s.left) == NIL) && (s.right.Nil? <==> RootOf(s.right) == NIL)
    ensures key < s.key && s.left.Node? ==> Growing(ns', t, InLeft(c, s.id, s.key, s.right), s.left, key)
    ensures !(key < s.key) && s.right.Node? ==> Growing(ns', t, InRight(s.left, s.id, s.key, c), s.right, key)
    ensures (key < s.key && s.left.Nil?) || (!(key < s.key) && s.right.Nil?) ==>
      LandingAt(Top, t, key) == (c, s) && Shape(ns', t) && SizedBut(ns', c, s, 1)
  {
    PlugIds(c, s);
    GrowStep(ns, ns', c, s);
    ShapeNode(ns', c, s);
    assert Sized(ns', s.left) && Sized(ns', s.right);
    if key < s.key {
      if s.left.Node? {
        assert Plug(InLeft(c, s.id, s.key, s.right), s.left) == t;
        assert LandingAt(InLeft(c, s.id, s.key, s.right), s.left, key) == LandingAt(c, s, key);
      } else {
        assert LandingAt(c, s, key) == (c, s);
      }
    } else {
      if s.right.Node? {
        assert Plug(InRight(s.left, s.id, s.key, c), s.right) == t;
        assert LandingAt(InRight(s.left, s.id, s.key, c), s.right, key) == LandingAt(c, s, key);
      } else {
        assert LandingAt(c, s, key) == (c, s);
      }
    }
  }

  /**
    * One step of insert_unique_node's size loop: ++p->size on node x, the
    * only node below which everything is sized, and then the node above it.
    */
  lemma {:induction false} PendingStep(ns: seq<NodeRec>, ns': seq<NodeRec>, c: Ctx, x: Tree)
    requires Shape(ns, Plug(c, x)) && SizedBut(ns, c, x, -1)
    requires ns' == ns[x.id := ns[x.id].(size := ns[x.id].size + 1)]
    ensures 0 < x.id < |ns| && ns[x.id].parent == HoleParent(c)
    ensures Shape(ns', Plug(c, x))
    ensures c.Top? ==> Holds(ns', Plug(c, x))
    ensures !c.Top? ==> SizedBut(ns', c.up, Lift(c, x), -1) && 0 < HoleParent(c) < |ns|
  {
    ShapeParts(ns, c, x);
    assert !c.Top? ==> HoleParent(c) in CtxIds(c);
    ParentOf(ns, c, x);
    Bump(ns, ns', Plug(c, x), x.id);
    PendingSized(ns, ns', c, x, -1);
    LiftSized(ns', c, x, -1);
    if c.Top? {
      HoldsShape(ns', Plug(c, x));
    }
  }

  lemma {:induction false} PendingSized(ns: seq<NodeRec>, ns': seq<NodeRec>, c: Ctx, x: Tree, d: int)
    requires x.Node? && Distinct(x) && x.id !in CtxIds(c) && SizedBut(ns, c, x, d)
    requires ns' == ns[x.id := ns[x.id].(size := ns[x.id].size - d)]
    ensures Sized(ns', x) && SizedCtx(ns', c, Size(x) + d)
  {
    var rec := ns[x.id].(size := ns[x.id].size - d);
    SizedPoke(ns, x.left, x.id, rec);
    SizedPoke(ns, x.right, x.id, rec);
    SizedCtxPoke(ns, c, Size(x) + d, x.id, rec);
  }

  /** The parent pointer of the subtree's root leads to the hole's parent. */
  lemma {:induction false} ParentOf(ns: seq<NodeRec>, c: Ctx, x: Tree)
    requires Shape(ns, Plug(c, x)) && x.Node?
    ensures 0 <= x.id < |ns| && ns[x.id].parent == HoleParent(c)
  {
    LinkedSplit(ns, c, x);
  }

  /** A sized subtree below a context whose sizes are off by d is one step further up. */
  lemma {:induction false} LiftSized(ns: seq<NodeRec>, c: Ctx, x: Tree, d: int)
    requires Sized(ns, x) && SizedCtx(ns, c, Size(x) + d)
    ensures c.Top? ==> Sized(ns, Plug(c, x))
    ensures !c.Top? ==> SizedBut(ns, c.up, Lift(c, x), d)
  {
    if c.Top? {
      SizedSplit(ns, c, x);
    }
  }

  /** Growing the subtree in the hole by one fresh node keeps the whole tree's nodes distinct. */
  lemma {:induction false} DistinctPlugGrow(c: Ctx, s: Tree, s': Tree, n: int)
    requires Distinct(Plug(c, s)) && n !in Ids(Plug(c, s))
    requires Ids(s') == Ids(s) + {n} && Size(s') == Size(s) + 1
    ensures Distinct(Plug(c, s')) && Ids(Plug(c, s')) == Ids(Plug(c, s)) + {n}
  {
    PlugIds(c, s);
    PlugIds(c, s');
    PlugSize(c, s, s');
    DistinctCount(Plug(c, s));
    DistinctCount(Plug(c, s'));
    assert Ids(Plug(c, s')) == Ids(Plug(c, s)) + {n};
    assert |Ids(Plug(c, s'))| == |Ids(Plug(c, s))| + 1;
  }

  /** The hole lies on the left spine of the tree: every step down from the root goes left. */
  predicate LeftSpine(c: Ctx)
  {
    match c
    case Top => true
    case InLeft(up, _, _, _) => LeftSpine(up)
    case InRight(_, _, _, _) => false
  }

  predicate RightSpine(c: Ctx)
  {
    match c
    case Top => true
    case InLeft(_, _, _, _) => false
    case InRight(_, _, _, up) => RightSpine(up)
  }

  /**
    * The minimum of Plug(c, s) is the minimum of s when the hole is on the
    * left spine, and otherwise a node of c that no change to s moves.
    */
  lemma {:induction false} PlugMin(c: Ctx, s: Tree, s': Tree)
    requires s.Node? && s'.Node?
    ensures Plug(c, s).Node? && Plug(c, s').Node?
    ensures LeftSpine(c) ==> Leftmost(Plug(c, s)) == Leftmost(s) && Leftmost(Plug(c, s')) == Leftmost(s')
    ensures !LeftSpine(c) ==> Leftmost(Plug(c, s')) == Leftmost(Plug(c, s)) && Leftmost(Plug(c, s)) in CtxIds(c)
  {
    match c
    case Top =>
    case InLeft(up, i, k, r) =>
      PlugMin(up, Node(s, i, k, r), Node(s', i, k, r));
    case InRight(l, i, k, up) =>
      PlugMin(up, Node(l, i, k, s), Node(l, i, k, s'));
      LeftmostIn(l, i, k, s);
  }

  lemma {:induction false} PlugMax(c: Ctx, s: Tree, s': Tree)
    requires s.Node? && s'.Node?
    ensures Plug(c, s).Node? && Plug(c, s').Node?
    ensures RightSpine(c) ==> Rightmost(Plug(c, s)) == Rightmost(s) && Rightmost(Plug(c, s')) == Rightmost(s')
    ensures !RightSpine(c) ==> Rightmost(Plug(c, s')) == Rightmost(Plug(c, s)) && Rightmost(Plug(c, s)) in CtxIds(c)
  {
    match c
    case Top =>
    case InLeft(up, i, k, r) =>
      PlugMax(up, Node(s, i, k, r), Node(s', i, k, r));
      RightmostIn(s, i, k, r);
    case InRight(l, i, k, up) =>
      PlugMax(up, Node(l, i, k, s), Node(l, i, k, s'));
  }

  /** The minimum of a tree with a left part lies in that part or is the root. */
  lemma {:induction false} LeftmostIn(l: Tree, i: int, k: int, r: Tree)
    ensures Leftmost(Node(l, i, k, r)) in Ids(l) + {i}
  {
    if l.Node? {
      MinIn(l);
    }
  }

  lemma {:induction false} RightmostIn(l: Tree, i: int, k: int, r: Tree)
    ensures Rightmost(Node(l, i, k, r)) in Ids(r) + {i}
  {
    if r.Node? {
      MaxIn(r);
    }
  }

  lemma {:induction false} MinIn(t: Tree)
    requires t.Node?
    ensures Leftmost(t) in Ids(t)
  {
    if t.left.Node? {
      MinIn(t.left);
    }
  }

  lemma {:induction false} MaxIn(t: Tree)
    requires t.Node?
    ensures Rightmost(t) in Ids(t)
  {
    if t.right.Node? {
      MaxIn(t.right);
    }
  }

  /** The minimum and maximum of the landing node's subtree once the leaf hangs below it. */
  lemma {:induction false} AttachEnds(s: Tree, n: int, key: int)
    requires s.Node?
    requires key < s.key ==> s.left.Nil?
    requires !(key < s.key) ==> s.right.Nil?
    ensures key < s.key ==> Leftmost(s) == s.id && Leftmost(Attach(s, n, key)) == n
    ensures key < s.key ==> Rightmost(Attach(s, n, key)) == Rightmost(s)
    ensures !(key < s.key) ==> Rightmost(s) == s.id && Rightmost(Attach(s, n, key)) == n
    ensures !(key < s.key) ==> Leftmost(Attach(s, n, key)) == Leftmost(s)
  {
  }

  /**
    * The new leaf becomes the minimum exactly when it hangs left of the old
    * minimum, and the maximum exactly when it hangs right of the old maximum.
    */
  lemma {:induction false} AttachExtremes(c: Ctx, s: Tree, n: int, key: int)
    requires Distinct(Plug(c, s)) && s.Node?
    requires key < s.key ==> s.left.Nil?
    requires !(key < s.key) ==> s.right.Nil?
    ensures var t, t' := Plug(c, s), Plug(c, Attach(s, n, key));
      t.Node? && t'.Node? &&
      Leftmost(t') == (if key < s.key && Leftmost(t) == s.id then n else Leftmost(t)) &&
      Rightmost(t') == (if !(key < s.key) && Rightmost(t) == s.id then n else Rightmost(t))
  {
    AttachMin(c, s, n, key);
    AttachMax(c, s, n, key);
  }

  lemma {:induction false} AttachMin(c: Ctx, s: Tree, n: int, key: int)
    requires Distinct(Plug(c, s)) && s.Node?
    requires key < s.key ==> s.left.Nil?
    requires !(key < s.key) ==> s.right.Nil?
    ensures var t, t' := Plug(c, s), Plug(c, Attach(s, n, key));
      t.Node? && t'.Node? &&
      Leftmost(t') == (if key < s.key && Leftmost(t) == s.id then n else Leftmost(t))
  {
    PlugMin(c, s, Attach(s, n, key));
    AttachEnds(s, n, key);
    PlugIds(c, s);
    assert s.id in Ids(s);
  }

  lemma {:induction false} AttachMax(c: Ctx, s: Tree, n: int, key: int)
    requires Distinct(Plug(c, s)) && s.Node?
    requires key < s.key ==> s.left.Nil?
    requires !(key < s.key) ==> s.right.Nil?
    ensures var t, t' := Plug(c, s), Plug(c, Attach(s, n, key));
      t.Node? && t'.Node? &&
      Rightmost(t') == (if !(key < s.key) && Rightmost(t) == s.id then n else Rightmost(t))
  {
    PlugMax(c, s, Attach(s, n, key));
    AttachEnds(s, n, key);
    PlugIds(c, s);
    assert s.id in Ids(s);
  }

  /**
    * n->parent = t; t->left = n (or t->right = n); and header->left = n
    * (header->right = n) when t was the minimum (maximum): the store holds
    * the tree with the leaf attached, and every size that was off by d is
    * now off by d - 1 against the grown tree.
    */
  lemma {:induction false} AttachLinks(ns: seq<NodeRec>, m: seq<NodeRec>, c: Ctx, s: Tree, n: int, key: int, d: int)
    requires Shape(ns, Plug(c, s)) && SizedBut(ns, c, s, d)
    requires key < s.key ==> s.left.Nil?
    requires !(key < s.key) ==> s.right.Nil?
    requires 0 < n < |ns| && n !in Ids(Plug(c, s))
    requires ns[n].left == NIL && ns[n].right == NIL && ns[n].size == 1 && ns[n].data == key
    requires |m| == |ns| && m[n] == ns[n].(parent := s.id)
    requires m[s.id] == if key < s.key then ns[s.id].(left := n) else ns[s.id].(right := n)
    requires m[HEADER].parent == ns[HEADER].parent && m[HEADER].size == ns[HEADER].size
    requires m[HEADER].left == if key < s.key && ns[HEADER].left == s.id then n else ns[HEADER].left
    requires m[HEADER].right == if !(key < s.key) && ns[HEADER].right == s.id then n else ns[HEADER].right
    requires forall j :: 0 <= j < |ns| && j != n && j != s.id && j != HEADER ==> m[j] == ns[j]
    ensures Shape(m, Plug(c, Attach(s, n, key))) && SizedBut(m, c, Attach(s, n, key), d - 1)
  {
    ShapeParts(ns, c, s);
    AttachShape(ns, m, c, s, n, key);
    AttachSizes(ns, m, s.id, n);
    AttachSized(ns, m, s, c, n, key, d);
  }

  lemma {:induction false} AttachShape(ns: seq<NodeRec>, m: seq<NodeRec>, c: Ctx, s: Tree, n: int, key: int)
    requires Shape(ns, Plug(c, s)) && s.Node? && 0 < s.id < |ns|
    requires key < s.key ==> s.left.Nil?
    requires !(key < s.key) ==> s.right.Nil?
    requires 0 < n < |ns| && n !in Ids(Plug(c, s))
    requires ns[n].left == NIL && ns[n].right == NIL && ns[n].size == 1 && ns[n].data == key
    requires |m| == |ns| && m[n] == ns[n].(parent := s.id)
    requires m[s.id] == if key < s.key then ns[s.id].(left := n) else ns[s.id].(right := n)
    requires m[HEADER].parent == ns[HEADER].parent && m[HEADER].size == ns[HEADER].size
    requires m[HEADER].left == if key < s.key && ns[HEADER].left == s.id then n else ns[HEADER].left
    requires m[HEADER].right == if !(key < s.key) && ns[HEADER].right == s.id then n else ns[HEADER].right
    requires forall j :: 0 <= j < |ns| && j != n && j != s.id && j != HEADER ==> m[j] == ns[j]
    ensures Shape(m, Plug(c, Attach(s, n, key)))
  {
    var a := Attach(s, n, key);
    AttachLinked(ns, m, c, s, n, key);
    DistinctPlugGrow(c, s, a, n);
    AttachExtremes(c, s, n, key);
    assert forall i :: i in Ids(Plug(c, a)) ==> i == n || i in Ids(Plug(c, s));
    assert m[HEADER].left == Leftmost(Plug(c, a)) && m[HEADER].right == Rightmost(Plug(c, a));
  }

  lemma {:induction false} AttachLinked(ns: seq<NodeRec>, m: seq<NodeRec>, c: Ctx, s: Tree, n: int, key: int)
    requires Shape(ns, Plug(c, s)) && s.Node? && 0 < s.id < |ns|
    requires key < s.key ==> s.left.Nil?
    requires !(key < s.key) ==> s.right.Nil?
    requires 0 < n < |ns| && n !in Ids(Plug(c, s))
    requires ns[n].left == NIL && ns[n].right == NIL && ns[n].size == 1 && ns[n].data == key
    requires |m| == |ns| && m[n] == ns[n].(parent := s.id)
    requires m[s.id] == if key < s.key then ns[s.id].(left := n) else ns[s.id].(right := n)
    requires m[HEADER].parent == ns[HEADER].parent && m[HEADER].size == ns[HEADER].size
    requires m[HEADER].left == if key < s.key && ns[HEADER].left == s.id then n else ns[HEADER].left
    requires m[HEADER].right == if !(key < s.key) && ns[HEADER].right == s.id then n else ns[HEADER].right
    requires forall j :: 0 <= j < |ns| && j != n && j != s.id && j != HEADER ==> m[j] == ns[j]
    ensures LinkedTop(m, Plug(c, Attach(s, n, key)))
  {
    var a := Attach(s, n, key);
    ShapeParts(ns, c, s);
    PlugIds(c, s);
    LinkedSplit(ns, c, s);
    AttachSubtree(ns, m, HoleParent(c), s, n, key);
    forall j | j in CtxIds(c) ensures 0 <= j < |ns| && j < |m| && m[j] == ns[j] {
      assert j != n && j != s.id && j != HEADER;
    }
    if !c.Top? {
      assert c.id in CtxIds(c);
    }
    LinkedCtxFrame(ns, m, c, s.id, s.id);
    LinkedSplit(m, c, a);
  }

  lemma {:induction false} AttachSized(ns: seq<NodeRec>, m: seq<NodeRec>, s: Tree, c: Ctx, n: int, key: int, d: int)
    requires SizedBut(ns, c, s, d) && SameSizes(ns, m)
    requires key < s.key ==> s.left.Nil?
    requires !(key < s.key) ==> s.right.Nil?
    requires 0 <= n < |m| && m[n].size == 1
    ensures SizedBut(m, c, Attach(s, n, key), d - 1)
  {
    SizedSame(ns, m, s.left);
    SizedSame(ns, m, s.right);
    SizedCtxSame(ns, m, c, Size(s) + d);
    assert Sized(m, Leaf(n, key));
  }

  /** The stores of AttachLinks change pointers only. */
  lemma {:induction false} AttachSizes(ns: seq<NodeRec>, m: seq<NodeRec>, t: int, n: int)
    requires 0 <= t < |ns| && 0 <= n < |ns| && 0 < |ns|
    requires |m| == |ns| && m[n].size == ns[n].size && m[t].size == ns[t].size && m[HEADER].size == ns[HEADER].size
    requires forall j :: 0 <= j < |ns| && j != n && j != t && j != HEADER ==> m[j] == ns[j]
    ensures SameSizes(ns, m)
  {
    forall j | 0 <= j < |ns| ensures m[j].size == ns[j].size {
      if j != n && j != t && j != HEADER {
        assert m[j] == ns[j];
      }
    }
  }

  /** The landing node's subtree with the leaf hung below it, in the updated store. */
  lemma {:induction false} AttachSubtree(ns: seq<NodeRec>, m: seq<NodeRec>, hp: int, s: Tree, n: int, key: int)
    requires Linked(ns, s, hp) && Distinct(s) && s.Node?
    requires key < s.key ==> s.left.Nil?
    requires !(key < s.key) ==> s.right.Nil?
    requires forall i :: i in Ids(s) ==> 0 < i < |ns|
    requires 0 < n < |ns| && n !in Ids(s)
    requires ns[n].left == NIL && ns[n].right == NIL && ns[n].data == key
    requires |m| == |ns| && m[n] == ns[n].(parent := s.id)
    requires m[s.id] == if key < s.key then ns[s.id].(left := n) else ns[s.id].(right := n)
    requires forall j :: 0 <= j < |ns| && j != n && j != s.id && j != HEADER ==> m[j] == ns[j]
    ensures Linked(m, Attach(s, n, key), hp)
  {
    assert Ids(s) == Ids(s.left) + {s.id} + Ids(s.right);
    var leaf := Leaf(n, key);
    assert Linked(m, leaf, s.id);
    if key < s.key {
      LinkedMove(ns, m, s.right, s.id, s.id);
    } else {
      LinkedMove(ns, m, s.left, s.id, s.id);
    }
  }
}
