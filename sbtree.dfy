/**
  * The container sb_tree: a header node in slot HEADER of an arena of nodes,
  * and the operations of the tree core written as the source writes them,
  * pointer by pointer. The ghost field `tree` is the abstract tree the arena
  * holds; every operation says what it does to it.
  */
module SbTrees {
  import opened Trees
  import opened Arena
  import opened Search
  import opened Insertion
  import opened InsertLinks
  import opened Erasure
  import opened EraseLinks
  import opened ReplaceLinks
  import opened Teardown
  import opened Traversal
  import opened Copying

  /** A rotated subtree is linked and sized when its three moved nodes are updated as the rotation does. */
  lemma {:induction false} RotLLinked(ns: seq<NodeRec>, ns': seq<NodeRec>, s: Tree, hp: int)
    requires Linked(ns, s, hp) && Sized(ns, s) && Distinct(s) && s.Node? && s.right.Node? && |ns'| == |ns|
    requires var t, r, b := s.id, s.right.id, RootOf(s.right.left);
      0 <= t < |ns| && 0 <= r < |ns| && (b == NIL || 0 <= b < |ns|) &&
      ns'[t] == ns[t].(right := b, parent := r, size := Size(s.left) + Size(s.right.left) + 1) &&
      ns'[r] == ns[r].(parent := hp, left := t, size := Size(s)) &&
      (b != NIL ==> ns'[b] == ns[b].(parent := t)) &&
      forall j :: j in Ids(s) && j != t && j != r && j != b ==> 0 <= j < |ns| && ns'[j] == ns[j]
    ensures Linked(ns', RotL(s), hp) && Sized(ns', RotL(s))
  {
    var Node(a, t, kt, rt) := s;
    var Node(b, r, kr, cc) := rt;
    assert Distinct(rt) && Linked(ns, rt, t) && Sized(ns, rt);
    assert Ids(s) == Ids(a) + {t} + Ids(rt) && Ids(rt) == Ids(b) + {r} + Ids(cc);
    var bb := RootOf(b);
    LinkedIds(ns, s, hp);
    assert bb == NIL || bb in Ids(b);
    assert t !in Ids(a) && r !in Ids(a) && bb !in Ids(a);
    assert t !in Ids(cc) && r !in Ids(cc) && bb !in Ids(cc);
    assert a.Node? ==> ns'[a.id] == ns[a.id];
    assert cc.Node? ==> ns'[cc.id] == ns[cc.id];
    LinkedMove(ns, ns', a, t, t);
    LinkedMove(ns, ns', b, r, t);
    LinkedMove(ns, ns', cc, r, r);
    SizedFrame(ns, ns', a);
    SizedFrame(ns, ns', b);
    SizedFrame(ns, ns', cc);
  }

  lemma {:induction false} RotRLinked(ns: seq<NodeRec>, ns': seq<NodeRec>, s: Tree, hp: int)
    requires Linked(ns, s, hp) && Sized(ns, s) && Distinct(s) && s.Node? && s.left.Node? && |ns'| == |ns|
    requires var t, l, b := s.id, s.left.id, RootOf(s.left.right);
      0 <= t < |ns| && 0 <= l < |ns| && (b == NIL || 0 <= b < |ns|) &&
      ns'[t] == ns[t].(left := b, parent := l, size := Size(s.left.right) + Size(s.right) + 1) &&
      ns'[l] == ns[l].(parent := hp, right := t, size := Size(s)) &&
      (b != NIL ==> ns'[b] == ns[b].(parent := t)) &&
      forall j :: j in Ids(s) && j != t && j != l && j != b ==> 0 <= j < |ns| && ns'[j] == ns[j]
    ensures Linked(ns', RotR(s), hp) && Sized(ns', RotR(s))
  {
    var Node(lt, t, kt, cc) := s;
    var Node(a, l, kl, b) := lt;
    assert Distinct(lt) && Linked(ns, lt, t) && Sized(ns, lt);
    assert Ids(s) == Ids(lt) + {t} + Ids(cc) && Ids(lt) == Ids(a) + {l} + Ids(b);
    var bb := RootOf(b);
    LinkedIds(ns, s, hp);
    assert bb == NIL || bb in Ids(b);
    assert t !in Ids(a) && l !in Ids(a) && bb !in Ids(a);
    assert t !in Ids(cc) && l !in Ids(cc) && bb !in Ids(cc);
    assert a.Node? ==> ns'[a.id] == ns[a.id];
    assert cc.Node? ==> ns'[cc.id] == ns[cc.id];
    LinkedMove(ns, ns', a, l, l);
    LinkedMove(ns, ns', b, l, t);
    LinkedMove(ns, ns', cc, t, t);
    SizedFrame(ns, ns', a);
    SizedFrame(ns, ns', b);
    SizedFrame(ns, ns', cc);
  }

  /**
    * Replacing the subtree s below context c by s', which has the same nodes
    * in the same order, keeps the arena holding the whole tree when the slots
    * of c are untouched except the child pointer into the hole, and s' is
    * linked and sized in the new arena.
    */
  lemma {:induction false} ReplaceLinked(ns: seq<NodeRec>, ns': seq<NodeRec>, c: Ctx, s: Tree, s': Tree)
    requires LinkedTop(ns, Plug(c, s)) && Sized(ns, Plug(c, s)) && Distinct(Plug(c, s))
    requires HEADER !in CtxIds(c) && s.Node? && |ns'| == |ns| && Size(s') == Size(s)
    requires Linked(ns', s', HoleParent(c)) && Sized(ns', s')
    requires ns'[HEADER].parent == (if c.Top? then RootOf(s') else ns[HEADER].parent)
    requires c.InLeft? ==> 0 <= c.id < |ns| && ns'[c.id] == ns[c.id].(left := RootOf(s'))
    requires c.InRight? ==> 0 <= c.id < |ns| && ns'[c.id] == ns[c.id].(right := RootOf(s'))
    requires forall j :: j in CtxIds(c) && j != HoleParent(c) ==> 0 <= j < |ns| && ns'[j] == ns[j]
    ensures LinkedTop(ns', Plug(c, s')) && Sized(ns', Plug(c, s'))
  {
    PlugIds(c, s);
    LinkedSplit(ns, c, s);
    SizedSplit(ns, c, s);
    LinkedCtxFrame(ns, ns', c, s.id, RootOf(s'));
    SizedCtxFrame(ns, ns', c, Size(s));
    LinkedSplit(ns', c, s');
    SizedSplit(ns', c, s');
  }

  /**
    * Replacing the subtree s below context c by s', which has the same nodes
    * in the same order, keeps the arena holding the whole tree when the slots
    * of c are untouched except the child pointer into the hole, and s' is
    * linked and sized in the new arena.
    */
  lemma {:induction false} ReplaceHolds(ns: seq<NodeRec>, ns': seq<NodeRec>, c: Ctx, s: Tree, s': Tree)
    requires Holds(ns, Plug(c, s)) && s.Node? && |ns'| == |ns|
    requires Entries(s') == Entries(s) && Ids(s') == Ids(s) && Size(s') == Size(s)
    requires Linked(ns', s', HoleParent(c)) && Sized(ns', s')
    requires c.Top? ==> ns'[HEADER] == ns[HEADER].(parent := RootOf(s'))
    requires !c.Top? ==> ns'[HEADER] == ns[HEADER]
    requires c.InLeft? ==> 0 <= c.id < |ns| && ns'[c.id] == ns[c.id].(left := RootOf(s'))
    requires c.InRight? ==> 0 <= c.id < |ns| && ns'[c.id] == ns[c.id].(right := RootOf(s'))
    requires forall j :: j in CtxIds(c) && j != HoleParent(c) ==> 0 <= j < |ns| && ns'[j] == ns[j]
    ensures Holds(ns', Plug(c, s'))
  {
    var t, t' := Plug(c, s), Plug(c, s');
    assert Distinct(t') && Ids(t') == Ids(t) && Entries(t') == Entries(t) by {
      PlugSame(c, s, s');
    }
    assert LinkedTop(ns', t') && Sized(ns', t') by {
      PlugIds(c, s);
      assert HEADER !in CtxIds(c);
      ReplaceLinked(ns, ns', c, s, s');
    }
    assert s.id in Ids(t) by {
      PlugIds(c, s);
      assert s.id in Ids(s);
    }
    assert t.Node? && t'.Node?;
    SameExtremes(t, t');
  }

  /** The slots a left rotation of the subtree s below context c reads, and what they hold. */
  lemma {:induction false} RotLPre(ns: seq<NodeRec>, c: Ctx, s: Tree)
    requires Holds(ns, Plug(c, s)) && s.Node? && s.right.Node?
    ensures var t, r, rl, p := s.id, s.right.id, RootOf(s.right.left), HoleParent(c);
      0 < t < |ns| && 0 < r < |ns| && 0 <= p < |ns| && (rl == NIL || 0 < rl < |ns|) &&
      t != r && t != p && r != p && (rl != NIL ==> rl != t && rl != r && rl != p) &&
      ns[t].right == r && ns[r].left == rl && ns[t].parent == p && ns[t].size == Size(s) &&
      (ns[t].left == NIL || (0 < ns[t].left < |ns| && ns[t].left != r && ns[t].left != rl && ns[t].left != p)) &&
      SizeAt(ns, ns[t].left) == Size(s.left) && SizeAt(ns, rl) == Size(s.right.left) &&
      (ns[HEADER].parent == t <==> c.Top?) && (!c.Top? ==> (ns[p].left == t <==> c.InLeft?)) &&
      (p == HEADER <==> c.Top?) && t != HEADER && r != HEADER && rl != HEADER
  {
    HoldsAt(ns, c, s);
    assert Ids(s) == Ids(s.left) + {s.id} + Ids(s.right.left) + {s.right.id} + Ids(s.right.right);
    assert RootOf(s.right.left) == NIL || RootOf(s.right.left) in Ids(s.right.left);
    assert RootOf(s.left) == NIL || RootOf(s.left) in Ids(s.left);
    assert Sized(ns, s.right);
    SizeAtRoot(ns, s.left);
    SizeAtRoot(ns, s.right.left);
  }

  /**
    * A store in which the slots of a left rotation of s were written as
    * left_rotate writes them holds the tree with s rotated.
    */
  lemma {:induction false} RotLPost(ns: seq<NodeRec>, m: seq<NodeRec>, c: Ctx, s: Tree)
    requires Holds(ns, Plug(c, s)) && s.Node? && s.right.Node? && |m| == |ns|
    requires var t, r, rl, p := s.id, s.right.id, RootOf(s.right.left), HoleParent(c);
      0 < t < |ns| && 0 < r < |ns| && 0 <= p < |ns| && (rl == NIL || 0 < rl < |ns|) &&
      m[t] == ns[t].(right := rl, parent := r, size := Size(s.left) + Size(s.right.left) + 1) &&
      m[r] == ns[r].(parent := p, left := t, size := Size(s)) &&
      (rl != NIL ==> m[rl] == ns[rl].(parent := t)) &&
      m[HEADER] == (if c.Top? then ns[HEADER].(parent := r) else ns[HEADER]) &&
      (c.InLeft? ==> m[p] == ns[p].(left := r)) &&
      (c.InRight? ==> m[p] == ns[p].(right := r)) &&
      forall j :: 0 <= j < |ns| && j != t && j != r && j != rl && j != p && j != HEADER ==> m[j] == ns[j]
    ensures Holds(m, Plug(c, RotL(s)))
  {
    HoldsAt(ns, c, s);
    var b := s.right.left;
    assert Ids(s) == Ids(s.left) + {s.id} + Ids(b) + {s.right.id} + Ids(s.right.right);
    assert RootOf(b) == NIL || RootOf(b) in Ids(b);
    RotLLinked(ns, m, s, HoleParent(c));
    assert s.id in Ids(s) && s.right.id in Ids(s) && (RootOf(b) == NIL || RootOf(b) in Ids(s));
    assert forall j :: j in CtxIds(c) && j != HoleParent(c) ==> 0 <= j < |ns| && m[j] == ns[j];
    ReplaceHolds(ns, m, c, s, RotL(s));
  }

  /** The slots a right rotation of the subtree s below context c reads, and what they hold. */
  lemma {:induction false} RotRPre(ns: seq<NodeRec>, c: Ctx, s: Tree)
    requires Holds(ns, Plug(c, s)) && s.Node? && s.left.Node?
    ensures var t, l, lr, p := s.id, s.left.id, RootOf(s.left.right), HoleParent(c);
      0 < t < |ns| && 0 < l < |ns| && 0 <= p < |ns| && (lr == NIL || 0 < lr < |ns|) &&
      t != l && t != p && l != p && (lr != NIL ==> lr != t && lr != l && lr != p) &&
      ns[t].left == l && ns[l].right == lr && ns[t].parent == p && ns[t].size == Size(s) &&
      (ns[t].right == NIL || (0 < ns[t].right < |ns| && ns[t].right != l && ns[t].right != lr && ns[t].right != p)) &&
      SizeAt(ns, ns[t].right) == Size(s.right) && SizeAt(ns, lr) == Size(s.left.right) &&
      (ns[HEADER].parent == t <==> c.Top?) && (!c.Top? ==> (ns[p].right == t <==> c.InRight?)) &&
      (p == HEADER <==> c.Top?) && t != HEADER && l != HEADER && lr != HEADER
  {
    HoldsAt(ns, c, s);
    assert Ids(s) == Ids(s.right) + {s.id} + Ids(s.left.right) + {s.left.id} + Ids(s.left.left);
    assert RootOf(s.left.right) == NIL || RootOf(s.left.right) in Ids(s.left.right);
    assert RootOf(s.right) == NIL || RootOf(s.right) in Ids(s.right);
    assert Sized(ns, s.left);
    SizeAtRoot(ns, s.right);
    SizeAtRoot(ns, s.left.right);
  }

  /**
    * A store in which the slots of a right rotation of s were written as
    * right_rotate writes them holds the tree with s rotated.
    */
  lemma {:induction false} RotRPost(ns: seq<NodeRec>, m: seq<NodeRec>, c: Ctx, s: Tree)
    requires Holds(ns, Plug(c, s)) && s.Node? && s.left.Node? && |m| == |ns|
    requires var t, l, lr, p := s.id, s.left.id, RootOf(s.left.right), HoleParent(c);
      0 < t < |ns| && 0 < l < |ns| && 0 <= p < |ns| && (lr == NIL || 0 < lr < |ns|) &&
      m[t] == ns[t].(left := lr, parent := l, size := Size(s.right) + Size(s.left.right) + 1) &&
      m[l] == ns[l].(parent := p, right := t, size := Size(s)) &&
      (lr != NIL ==> m[lr] == ns[lr].(parent := t)) &&
      m[HEADER] == (if c.Top? then ns[HEADER].(parent := l) else ns[HEADER]) &&
      (c.InRight? ==> m[p] == ns[p].(right := l)) &&
      (c.InLeft? ==> m[p] == ns[p].(left := l)) &&
      forall j :: 0 <= j < |ns| && j != t && j != l && j != lr && j != p && j != HEADER ==> m[j] == ns[j]
    ensures Holds(m, Plug(c, RotR(s)))
  {
    HoldsAt(ns, c, s);
    var b := s.left.right;
    assert Ids(s) == Ids(s.right) + {s.id} + Ids(b) + {s.left.id} + Ids(s.left.left);
    assert RootOf(b) == NIL || RootOf(b) in Ids(b);
    RotRLinked(ns, m, s, HoleParent(c));
    assert s.id in Ids(s) && s.left.id in Ids(s) && (RootOf(b) == NIL || RootOf(b) in Ids(s));
    assert forall j :: j in CtxIds(c) && j != HoleParent(c) ==> 0 <= j < |ns| && m[j] == ns[j];
    ReplaceHolds(ns, m, c, s, RotR(s));
  }

  /**
    * Below a node s with a right subtree, in a store holding Plug(c, s): the
    * right pointer leads into that subtree, and its leftmost node is the
    * entry that follows s in order.
    */
  lemma {:induction false} RightDescent(ns: seq<NodeRec>, c: Ctx, s: Tree)
    requires Holds(ns, Plug(c, s)) && s.Node? && s.right.Node?
    ensures 0 <= s.id < |ns| && Linked(ns, s.right, s.id) && ns[s.id].right == s.right.id
    ensures NodeAt(Entries(Plug(c, s)), |Before(c)| + Size(s.left) + 1) == Leftmost(s.right)
  {
    HoldsAt(ns, c, s);
    NextBelow(c, s);
  }

  lemma {:induction false} NodeLinks(ns: seq<NodeRec>, c: Ctx, s: Tree)
    requires Holds(ns, Plug(c, s)) && s.Node?
    ensures 0 < s.id < |ns| && ns[s.id].left == RootOf(s.left) && ns[s.id].right == RootOf(s.right)
    ensures ns[s.id].size == Size(s) && ns[s.id].data == s.key && ns[s.id].parent == HoleParent(c)
    ensures RootOf(s.left) == NIL || 0 < RootOf(s.left) < |ns|
    ensures RootOf(s.right) == NIL || 0 < RootOf(s.right) < |ns|
    ensures (s.left.Nil? <==> RootOf(s.left) == NIL) && (s.right.Nil? <==> RootOf(s.right) == NIL)
    ensures SizeAt(ns, RootOf(s.left)) == Size(s.left) && SizeAt(ns, RootOf(s.right)) == Size(s.right)
  {
    HoldsAt(ns, c, s);
    assert Ids(s) == Ids(s.left) + {s.id} + Ids(s.right);
    assert RootOf(s.left) == NIL || RootOf(s.left) in Ids(s.left);
    assert RootOf(s.right) == NIL || RootOf(s.right) in Ids(s.right);
    SizeAtRoot(ns, s.left);
    SizeAtRoot(ns, s.right);
  }

  /**
    * The outcome of at(key): the node whose payload the returned reference
    * names, or the exception thrown (std::domain_error for an empty tree,
    * std::out_of_range for an absent key).
    */
  datatype AtResult = Ref(node: int) | DomainError | OutOfRange

  /**
    * What the store says about the node above the subtree s: which of its
    * child pointers leads to s, and where its own parent pointer leads.
    */
  lemma {:induction false} CtxLinks(ns: seq<NodeRec>, c: Ctx, s: Tree)
    requires Holds(ns, Plug(c, s)) && s.Node?
    ensures 0 < s.id < |ns| && 0 <= HoleParent(c) < |ns|
    ensures !c.Top? ==> 0 < c.id < |ns|
    ensures ns[s.id].parent == HoleParent(c)
    ensures c.Top? ==>
      ns[HEADER].parent == s.id && ns[HEADER].left == Leftmost(s) && ns[HEADER].right == Rightmost(s)
    ensures c.InLeft? ==>
      ns[c.id].left == s.id && ns[c.id].right != s.id && ns[s.id].right != c.id &&
      ns[c.id].parent == HoleParent(c.up) && ns[c.id].parent != s.id && 0 <= HoleParent(c.up) < |ns|
    ensures c.InRight? ==>
      ns[c.id].right == s.id && ns[c.id].left != s.id && ns[s.id].left != c.id &&
      ns[c.id].parent == HoleParent(c.up) && ns[c.id].parent != s.id && 0 <= HoleParent(c.up) < |ns|
  {
    HoldsAt(ns, c, s);
    assert s.id in Ids(s);
    assert RootOf(s.left) == NIL || RootOf(s.left) in Ids(s);
    assert RootOf(s.right) == NIL || RootOf(s.right) in Ids(s);
    match c
    case Top =>
    case InLeft(up, i, k, r) =>
      assert RootOf(r) == NIL || RootOf(r) in Ids(r);
      assert up.Top? || HoleParent(up) in CtxIds(up);
    case InRight(l, i, k, up) =>
      assert up.Top? || HoleParent(up) in CtxIds(up);
  }

  /**
    * What case 1 of erase_node reads before it writes: s's only child y, the
    * hole's parent, which of its pointers leads to s, and whether s is the
    * root.
    */
  lemma {:induction false} UnlinkPre(ns: seq<NodeRec>, c: Ctx, s: Tree)
    requires Holds(ns, Plug(c, s)) && s.Node? && (s.left.Nil? || s.right.Nil?)
    ensures var y, t := OnlyChild(s), s.id;
      0 < t < |ns| && 0 <= HoleParent(c) < |ns| && ns[t].parent == HoleParent(c) &&
      RootOf(y) == (if ns[t].left != NIL then ns[t].left else ns[t].right) &&
      (y.Node? ==> 0 < y.id < |ns| && y.id != HoleParent(c)) &&
      (c.Top? <==> ns[HEADER].parent == t) && (c.Top? ==> HoleParent(c) == HEADER) &&
      (!c.Top? ==>
        HoleParent(c) != HEADER &&
        (ns[HoleParent(c)].left == t <==> c.InLeft?) && (ns[HoleParent(c)].right == t <==> c.InRight?))
  {
    NodeLinks(ns, c, s);
    CtxLinks(ns, c, s);
    HoldsAt(ns, c, s);
    HoldsRoot(ns, Plug(c, s));
    PlugIds(c, s);
    assert Ids(s) == Ids(s.left) + {s.id} + Ids(s.right);
    assert RootOf(OnlyChild(s)) == NIL || RootOf(OnlyChild(s)) in Ids(s);
  }

  /** The stores SbTree.SpliceOut makes, read against the tree: they are those of EraseLinks.UnlinkStores. */
  lemma {:induction false} UnlinkSpliced(ns: seq<NodeRec>, m: seq<NodeRec>, c: Ctx, s: Tree, lo: int, hi: int)
    requires Holds(ns, Plug(c, s)) && s.Node? && (s.left.Nil? || s.right.Nil?)
    requires var t, x, tp := s.id, RootOf(OnlyChild(s)), HoleParent(c);
      |m| == |ns| && 0 < t < |ns| && 0 <= tp < |ns| &&
      (x != NIL ==> 0 <= x < |ns| && m[x] == ns[x].(parent := tp)) &&
      m[HEADER].parent == (if ns[HEADER].parent == t then x else ns[HEADER].parent) &&
      (tp != HEADER && ns[HEADER].parent != t ==>
        m[tp] == if ns[tp].left == t then ns[tp].(left := x) else ns[tp].(right := x)) &&
      (forall j :: 0 < j < |m| && j != x && j != tp ==> m[j] == ns[j]) &&
      m[HEADER].left == (if ns[HEADER].left == t then (if x != NIL then lo else tp) else ns[HEADER].left) &&
      m[HEADER].right == (if ns[HEADER].right == t then (if x != NIL then hi else tp) else ns[HEADER].right) &&
      m[HEADER].size == ns[HEADER].size
    requires OnlyChild(s).Node? && ns[HEADER].left == s.id ==> lo == Leftmost(OnlyChild(s))
    requires OnlyChild(s).Node? && ns[HEADER].right == s.id ==> hi == Rightmost(OnlyChild(s))
    ensures var y, t := OnlyChild(s), Plug(c, OnlyChild(s));
      LinkedTop(m, t) && LinkedCtx(m, c, RootOf(y)) && Sized(m, y) && SizedCtx(m, c, Size(y) + 1) &&
      Distinct(t) && (forall i :: i in Ids(t) ==> 0 < i < |m|) &&
      m[HEADER].left == (if t.Nil? then HEADER else Leftmost(t)) &&
      m[HEADER].right == (if t.Nil? then HEADER else Rightmost(t)) && m[HEADER].size == 0
  {
    UnlinkPre(ns, c, s);
    assert OnlyChild(s).Node? <==> RootOf(OnlyChild(s)) != NIL;
    UnlinkStores(ns, m, c, s);
  }

  /**
    * What case 2 of erase_node reads when the successor x of s replaces it:
    * the pointers of s, of x and of x's parent xp, as the tree says.
    */
  lemma {:induction false} SuccessorSlots(ns: seq<NodeRec>, c: Ctx, s: Tree)
    requires Holds(ns, Plug(c, s)) && s.Node? && s.left.Node? && s.right.Node?
    ensures var L, R, t := s.left, s.right, s.id;
      var cm := MinCtx(InRight(L, t, s.key, c), R); var mx := MinSub(R);
      var x, xp, xr, tl, tr, tp := mx.id, HoleParent(cm), RootOf(mx.right), L.id, R.id, HoleParent(c);
      0 < t < |ns| && 0 < x < |ns| && 0 <= xp < |ns| && 0 <= tp < |ns| &&
      ns[t].left == tl && ns[t].right == tr && ns[t].parent == tp &&
      ns[x].parent == xp && ns[x].right == xr && ns[x].data == mx.key && Leftmost(R) == x &&
      (x != tr ==> ns[xp].left == x && ns[xp].right != x) && (x == tr ==> ns[xp].right == x) &&
      (c.Top? <==> ns[HEADER].parent == t) && (c.Top? <==> tp == HEADER) &&
      (!c.Top? ==> (ns[tp].left == t <==> c.InLeft?))
  {
    var L, R, t := s.left, s.right, s.id;
    var cr := InRight(L, t, s.key, c);
    var cm := MinCtx(cr, R);
    var mx := MinSub(R);
    SuccessorIds(c, s, |ns|);
    NodeLinks(ns, c, s);
    CtxLinks(ns, c, s);
    NodeLinks(ns, cm, mx);
    CtxLinks(ns, cm, mx);
    MinSubLeftmost(R);
    HoldsRoot(ns, Plug(c, s));
    PlugIds(c, s);
  }

  /**
    * The store after case 2 of erase_node with the successor, before the
    * rebalancing: ns held Plug(c, s), ns0 is ns after the size loop from
    * the successor's parent, and m is ns0 after the pointer stores. Then m
    * holds s's context with the replacement in s's place.
    */
  lemma {:induction false} SuccessorRelink(ns: seq<NodeRec>, ns0: seq<NodeRec>, m: seq<NodeRec>,
                                           c: Ctx, s: Tree, parent: int)
    requires Holds(ns, Plug(c, s)) && s.Node? && s.left.Node? && s.right.Node? && Size(s.left) < Size(s.right)
    requires SameLinks(ns, ns0) && |ns0| == |ns| && ns0[HEADER] == ns[HEADER]
    requires Sized(ns0, Plug(c, Node(s.left, s.id, s.key, RemoveMin(s.right))))
    requires SuccessorStored(ns0, m, s.id, MinSub(s.right).id, parent)
    ensures Holds(m, Plug(c, Replacement(s)))
  {
    var L, R, t, k := s.left, s.right, s.id, s.key;
    var cr := InRight(L, t, k, c);
    var cm, mx := MinCtx(cr, R), MinSub(R);
    var x, kx, y := mx.id, mx.key, mx.right;
    var n := Replacement(s);
    assert n == Node(L, x, kx, RemoveMin(R));
    SuccessorIds(c, s, |ns|);
    SuccessorSlots(ns, c, s);
    assert y.Node? ==> 0 < y.id && ns[y.id].parent == x by {
      if y.Node? {
        assert Plug(InRight(Nil, x, kx, cm), y) == Plug(cm, mx);
        NodeLinks(ns, InRight(Nil, x, kx, cm), y);
      }
    }
    LinkedLinks(ns, ns0, Plug(c, s), HEADER);
    assert LinkedTop(ns0, Plug(c, s));
    PlugIds(c, s);
    ReplacementEntries(s);
    PlugShrink(c, s, n);
    if x != R.id {
      SuccessorDeep(ns0, m, c, s, parent);
    } else {
      SuccessorAdjacent(ns0, m, c, s, parent);
    }
    SuccessorEnds(c, s);
  }

  /** SuccessorRelink when the successor lies below the left child of s's right child. */
  lemma {:induction false} SuccessorDeep(ns0: seq<NodeRec>, m: seq<NodeRec>, c: Ctx, s: Tree, parent: int)
    requires s.Node? && s.left.Node? && s.right.Node? && s.right.left.Node? && Size(s.left) < Size(s.right)
    requires LinkedTop(ns0, Plug(c, s)) && Distinct(Plug(c, s)) && (forall i :: i in Ids(Plug(c, s)) ==> 0 < i < |ns0|)
    requires Sized(ns0, Plug(c, Node(s.left, s.id, s.key, RemoveMin(s.right))))
    requires Distinct(Plug(c, Replacement(s))) && (forall i :: i in Ids(Plug(c, Replacement(s))) ==> 0 < i < |ns0|)
    requires var L, R, t := s.left, s.right, s.id;
      var cm, mx := MinCtx(InRight(L, t, s.key, c), R), MinSub(R);
      var x, xp, xr := mx.id, HoleParent(cm), RootOf(mx.right);
      cm.InLeft? && SuccessorStored(ns0, m, t, x, parent) && (mx.right.Node? ==> 0 < xr) &&
      ns0[t].left == L.id && ns0[t].right == R.id && ns0[t].parent == HoleParent(c) &&
      ns0[x].parent == xp && ns0[x].right == xr && ns0[x].data == mx.key &&
      (!c.Top? ==> (ns0[HoleParent(c)].left == t <==> c.InLeft?))
    ensures LinkedTop(m, Plug(c, Replacement(s))) && Sized(m, Plug(c, Replacement(s)))
  {
    var L, R, t, k := s.left, s.right, s.id, s.key;
    var cr := InRight(L, t, k, c);
    var cm, mx := MinCtx(cr, R), MinSub(R);
    var x, kx, y := mx.id, mx.key, mx.right;
    var xp, xr := HoleParent(cm), RootOf(y);
    var R' := RemoveMin(R);
    var N' := Node(L, t, k, R');
    assert Replacement(s) == Node(L, x, kx, R');
    var ns1 := ns0[xp := ns0[xp].(left := xr)];
    if xr != NIL {
      ns1 := ns1[xr := ns1[xr].(parent := xp)];
    }
    SuccessorBypassed(ns0, ns1, c, s);
    SizedSplit(ns0, c, N');
    LinkedSplit(ns1, c, N');
    SizedSplit(ns1, c, N');
    assert RootOf(R') == R.id;
    Substitute(ns1, m, c, L, R', t, t, t, x, kx);
  }

  /**
    * The successor's right subtree moved up into the successor's place:
    * the store then holds s's context with s's root over the rest of the
    * right subtree, the sizes already counting one node less.
    */
  lemma {:induction false} SuccessorBypassed(ns0: seq<NodeRec>, ns1: seq<NodeRec>, c: Ctx, s: Tree)
    requires s.Node? && s.right.Node? && s.right.left.Node?
    requires LinkedTop(ns0, Plug(c, s)) && Distinct(Plug(c, s)) && (forall i :: i in Ids(Plug(c, s)) ==> 0 < i < |ns0|)
    requires Sized(ns0, Plug(c, Node(s.left, s.id, s.key, RemoveMin(s.right))))
    requires var cm, mx := MinCtx(InRight(s.left, s.id, s.key, c), s.right), MinSub(s.right);
      var xp, xr := HoleParent(cm), RootOf(mx.right);
      cm.InLeft? && 0 < xp < |ns0| && xp != xr && (xr == NIL || 0 < xr < |ns0|) && |ns1| == |ns0| &&
      ns1[xp] == ns0[xp].(left := xr) &&
      (mx.right.Node? ==> 0 < xr && ns1[xr] == ns0[xr].(parent := xp)) &&
      ns1[HEADER] == ns0[HEADER] &&
      forall j :: 0 < j < |ns0| && j != xp && j != xr ==> ns1[j] == ns0[j]
    ensures var N' := Node(s.left, s.id, s.key, RemoveMin(s.right));
      LinkedTop(ns1, Plug(c, N')) && Sized(ns1, Plug(c, N'))
  {
    var N' := Node(s.left, s.id, s.key, RemoveMin(s.right));
    var cm, mx := MinCtx(InRight(s.left, s.id, s.key, c), s.right), MinSub(s.right);
    assert Plug(cm, mx) == Plug(c, s);
    Splice(ns0, ns1, cm, mx, mx.right);
    MinCtxPlug(InRight(s.left, s.id, s.key, c), s.right);
    assert SameSizes(ns0, ns1);
    SizedSame(ns0, ns1, Plug(c, N'));
  }

  /** SuccessorRelink when the successor is s's right child. */
  lemma {:induction false} SuccessorAdjacent(ns0: seq<NodeRec>, m: seq<NodeRec>, c: Ctx, s: Tree, parent: int)
    requires s.Node? && s.left.Node? && s.right.Node? && s.right.left.Nil? && Size(s.left) < Size(s.right)
    requires LinkedTop(ns0, Plug(c, s))
    requires Sized(ns0, Plug(c, Node(s.left, s.id, s.key, s.right.right)))
    requires Distinct(Plug(c, Replacement(s))) && (forall i :: i in Ids(Plug(c, Replacement(s))) ==> 0 < i < |ns0|)
    requires var L, R, t := s.left, s.right, s.id;
      SuccessorStored(ns0, m, t, R.id, parent) &&
      ns0[t].left == L.id && ns0[t].right == R.id && ns0[t].parent == HoleParent(c) &&
      ns0[R.id].parent == t && ns0[R.id].right == RootOf(R.right) && ns0[R.id].data == R.key &&
      (!c.Top? ==> (ns0[HoleParent(c)].left == t <==> c.InLeft?))
    ensures LinkedTop(m, Plug(c, Replacement(s))) && Sized(m, Plug(c, Replacement(s)))
  {
    var L, R, t, k := s.left, s.right, s.id, s.key;
    var x, kx, y := R.id, R.key, R.right;
    var N' := Node(L, t, k, y);
    assert Replacement(s) == Node(L, x, kx, y);
    LinkedSplit(ns0, c, s);
    assert Linked(ns0, y, x);
    LinkedSplit(ns0, c, N');
    SizedSplit(ns0, c, N');
    Substitute(ns0, m, c, L, y, t, t, x, x, kx);
  }

  /**
    * Before the size loop of case 2 of erase_node with the successor: the
    * context of the successor's place, its right subtree and the tree left
    * when that subtree fills the place are as the size loop needs them.
    */
  lemma {:induction false} SuccessorShrinkPre(ns: seq<NodeRec>, c: Ctx, s: Tree)
    requires Holds(ns, Plug(c, s)) && s.Node? && s.right.Node?
    ensures var cm, mx := MinCtx(InRight(s.left, s.id, s.key, c), s.right), MinSub(s.right);
      var y := mx.right;
      LinkedCtx(ns, cm, mx.id) && Sized(ns, y) && SizedCtx(ns, cm, Size(y) + 1) &&
      Distinct(Plug(cm, y)) && (forall i :: i in Ids(Plug(cm, y)) ==> 0 < i < |ns|) &&
      Plug(cm, y) == Plug(c, Node(s.left, s.id, s.key, RemoveMin(s.right)))
  {
    var cr := InRight(s.left, s.id, s.key, c);
    var cm, mx := MinCtx(cr, s.right), MinSub(s.right);
    assert Plug(cm, mx) == Plug(c, s);
    HoldsAt(ns, cm, mx);
    assert Ids(mx) == {mx.id} + Ids(mx.right) && Size(mx) == Size(mx.right) + 1;
    PlugDistinctSub(cm, mx, mx.right);
    MinCtxPlug(cr, s.right);
  }

  /**
    * After that size loop, the slots the pointer stores touch are as they
    * need: the loop changed sizes only.
    */
  lemma {:induction false} SuccessorReady(ns: seq<NodeRec>, ns0: seq<NodeRec>, c: Ctx, s: Tree)
    requires Holds(ns, Plug(c, s)) && s.Node? && s.left.Node? && s.right.Node?
    requires SameLinks(ns, ns0) && |ns0| == |ns| && ns0[HEADER] == ns[HEADER]
    ensures SuccessorSlotsOk(ns0, s.id, MinSub(s.right).id)
  {
    SuccessorIds(c, s, |ns|);
    SuccessorSlots(ns, c, s);
  }

  /**
    * Where the climb after case 2 with the successor starts: at the
    * successor's old parent, on its left, or at the successor itself, on
    * its right, when it was s's right child.
    */
  lemma {:induction false} SuccessorHole(c: Ctx, s: Tree)
    requires s.Node? && s.left.Node? && s.right.Node? && Size(s.left) < Size(s.right)
    ensures var h, cm := Removal(c, s), MinCtx(InRight(s.left, s.id, s.key, c), s.right);
      Plug(h.0, h.1) == Plug(c, Replacement(s)) &&
      (s.right.left.Nil? ==> h.0.InRight? && HoleParent(h.0) == MinSub(s.right).id) &&
      (s.right.left.Node? ==> h.0.InLeft? && HoleParent(h.0) == HoleParent(cm))
  {
    var m := MinSub(s.right);
    var cr := InRight(s.left, s.id, s.key, c);
    RemovalShape(c, s);
    MinCtxShape(InRight(s.left, m.id, m.key, c), cr, s.right);
  }

  lemma {:induction false} PredecessorSlots(ns: seq<NodeRec>, c: Ctx, s: Tree)
    requires Holds(ns, Plug(c, s)) && s.Node? && s.left.Node? && s.right.Node?
    ensures var L, R, t := s.left, s.right, s.id;
      var cm := MaxCtx(InLeft(c, t, s.key, R), L); var mx := MaxSub(L);
      var x, xp, xl, tl, tr, tp := mx.id, HoleParent(cm), RootOf(mx.left), L.id, R.id, HoleParent(c);
      0 < t < |ns| && 0 < x < |ns| && 0 <= xp < |ns| && 0 <= tp < |ns| &&
      ns[t].left == tl && ns[t].right == tr && ns[t].parent == tp &&
      ns[x].parent == xp && ns[x].left == xl && ns[x].data == mx.key && Rightmost(L) == x &&
      (x != tl ==> ns[xp].right == x) && (x == tl ==> ns[xp].left == x && ns[xp].right != x) &&
      (c.Top? <==> ns[HEADER].parent == t) && (c.Top? <==> tp == HEADER) &&
      (!c.Top? ==> (ns[tp].left == t <==> c.InLeft?))
  {
    var L, R, t := s.left, s.right, s.id;
    var cl := InLeft(c, t, s.key, R);
    var cm := MaxCtx(cl, L);
    var mx := MaxSub(L);
    PredecessorIds(c, s, |ns|);
    NodeLinks(ns, c, s);
    CtxLinks(ns, c, s);
    NodeLinks(ns, cm, mx);
    CtxLinks(ns, cm, mx);
    MaxSubRightmost(L);
    HoldsRoot(ns, Plug(c, s));
    PlugIds(c, s);
  }

  /**
    * The store after case 2 of erase_node with the predecessor, before the
    * rebalancing: the mirror image of SuccessorRelink.
    */
  lemma {:induction false} PredecessorRelink(ns: seq<NodeRec>, ns0: seq<NodeRec>, m: seq<NodeRec>,
                                             c: Ctx, s: Tree, parent: int)
    requires Holds(ns, Plug(c, s)) && s.Node? && s.left.Node? && s.right.Node? && Size(s.right) <= Size(s.left)
    requires SameLinks(ns, ns0) && |ns0| == |ns| && ns0[HEADER] == ns[HEADER]
    requires Sized(ns0, Plug(c, Node(RemoveMax(s.left), s.id, s.key, s.right)))
    requires PredecessorStored(ns0, m, s.id, MaxSub(s.left).id, parent)
    ensures Holds(m, Plug(c, Replacement(s)))
  {
    var L, R, t, k := s.left, s.right, s.id, s.key;
    var cl := InLeft(c, t, k, R);
    var cm, mx := MaxCtx(cl, L), MaxSub(L);
    var x, kx, y := mx.id, mx.key, mx.left;
    var n := Replacement(s);
    assert n == Node(RemoveMax(L), x, kx, R);
    PredecessorIds(c, s, |ns|);
    PredecessorSlots(ns, c, s);
    assert y.Node? ==> 0 < y.id && ns[y.id].parent == x by {
      if y.Node? {
        assert Plug(InLeft(cm, x, kx, Nil), y) == Plug(cm, mx);
        NodeLinks(ns, InLeft(cm, x, kx, Nil), y);
      }
    }
    LinkedLinks(ns, ns0, Plug(c, s), HEADER);
    assert LinkedTop(ns0, Plug(c, s));
    PlugIds(c, s);
    ReplacementEntries(s);
    PlugShrink(c, s, n);
    if x != L.id {
      PredecessorDeep(ns0, m, c, s, parent);
    } else {
      PredecessorAdjacent(ns0, m, c, s, parent);
    }
    PredecessorEnds(c, s);
  }

  /** PredecessorRelink when the predecessor lies below the right child of s's left child. */
  lemma {:induction false} PredecessorDeep(ns0: seq<NodeRec>, m: seq<NodeRec>, c: Ctx, s: Tree, parent: int)
    requires s.Node? && s.left.Node? && s.right.Node? && s.left.right.Node? && Size(s.right) <= Size(s.left)
    requires LinkedTop(ns0, Plug(c, s)) && Distinct(Plug(c, s)) && (forall i :: i in Ids(Plug(c, s)) ==> 0 < i < |ns0|)
    requires Sized(ns0, Plug(c, Node(RemoveMax(s.left), s.id, s.key, s.right)))
    requires Distinct(Plug(c, Replacement(s))) && (forall i :: i in Ids(Plug(c, Replacement(s))) ==> 0 < i < |ns0|)
    requires var L, R, t := s.left, s.right, s.id;
      var cm, mx := MaxCtx(InLeft(c, t, s.key, R), L), MaxSub(L);
      var x, xp, xl := mx.id, HoleParent(cm), RootOf(mx.left);
      cm.InRight? && PredecessorStored(ns0, m, t, x, parent) && (mx.left.Node? ==> 0 < xl) &&
      ns0[t].left == L.id && ns0[t].right == R.id && ns0[t].parent == HoleParent(c) &&
      ns0[x].parent == xp && ns0[x].left == xl && ns0[x].data == mx.key &&
      (!c.Top? ==> (ns0[HoleParent(c)].left == t <==> c.InLeft?))
    ensures LinkedTop(m, Plug(c, Replacement(s))) && Sized(m, Plug(c, Replacement(s)))
  {
    var L, R, t, k := s.left, s.right, s.id, s.key;
    var cl := InLeft(c, t, k, R);
    var cm, mx := MaxCtx(cl, L), MaxSub(L);
    var x, kx, y := mx.id, mx.key, mx.left;
    var xp, xl := HoleParent(cm), RootOf(y);
    var L' := RemoveMax(L);
    var N' := Node(L', t, k, R);
    assert Replacement(s) == Node(L', x, kx, R);
    var ns1 := ns0[xp := ns0[xp].(right := xl)];
    if xl != NIL {
      ns1 := ns1[xl := ns1[xl].(parent := xp)];
    }
    PredecessorBypassed(ns0, ns1, c, s);
    SizedSplit(ns0, c, N');
    LinkedSplit(ns1, c, N');
    SizedSplit(ns1, c, N');
    assert RootOf(L') == L.id;
    Substitute(ns1, m, c, L', R, t, t, t, x, kx);
  }

  /**
    * The predecessor's left subtree moved up into the predecessor's place:
    * the mirror image of SuccessorBypassed.
    */
  lemma {:induction false} PredecessorBypassed(ns0: seq<NodeRec>, ns1: seq<NodeRec>, c: Ctx, s: Tree)
    requires s.Node? && s.left.Node? && s.left.right.Node?
    requires LinkedTop(ns0, Plug(c, s)) && Distinct(Plug(c, s)) && (forall i :: i in Ids(Plug(c, s)) ==> 0 < i < |ns0|)
    requires Sized(ns0, Plug(c, Node(RemoveMax(s.left), s.id, s.key, s.right)))
    requires var cm, mx := MaxCtx(InLeft(c, s.id, s.key, s.right), s.left), MaxSub(s.left);
      var xp, xl := HoleParent(cm), RootOf(mx.left);
      cm.InRight? && 0 < xp < |ns0| && xp != xl && (xl == NIL || 0 < xl < |ns0|) && |ns1| == |ns0| &&
      ns1[xp] == ns0[xp].(right := xl) &&
      (mx.left.Node? ==> 0 < xl && ns1[xl] == ns0[xl].(parent := xp)) &&
      ns1[HEADER] == ns0[HEADER] &&
      forall j :: 0 < j < |ns0| && j != xp && j != xl ==> ns1[j] == ns0[j]
    ensures var N' := Node(RemoveMax(s.left), s.id, s.key, s.right);
      LinkedTop(ns1, Plug(c, N')) && Sized(ns1, Plug(c, N'))
  {
    var N' := Node(RemoveMax(s.left), s.id, s.key, s.right);
    var cm, mx := MaxCtx(InLeft(c, s.id, s.key, s.right), s.left), MaxSub(s.left);
    assert Plug(cm, mx) == Plug(c, s);
    Splice(ns0, ns1, cm, mx, mx.left);
    MaxCtxPlug(InLeft(c, s.id, s.key, s.right), s.left);
    assert SameSizes(ns0, ns1);
    SizedSame(ns0, ns1, Plug(c, N'));
  }

  /** PredecessorRelink when the predecessor is s's left child. */
  lemma {:induction false} PredecessorAdjacent(ns0: seq<NodeRec>, m: seq<NodeRec>, c: Ctx, s: Tree, parent: int)
    requires s.Node? && s.left.Node? && s.right.Node? && s.left.right.Nil? && Size(s.right) <= Size(s.left)
    requires LinkedTop(ns0, Plug(c, s))
    requires Sized(ns0, Plug(c, Node(s.left.left, s.id, s.key, s.right)))
    requires Distinct(Plug(c, Replacement(s))) && (forall i :: i in Ids(Plug(c, Replacement(s))) ==> 0 < i < |ns0|)
    requires var L, R, t := s.left, s.right, s.id;
      PredecessorStored(ns0, m, t, L.id, parent) &&
      ns0[t].left == L.id && ns0[t].right == R.id && ns0[t].parent == HoleParent(c) &&
      ns0[L.id].parent == t && ns0[L.id].left == RootOf(L.left) && ns0[L.id].data == L.key &&
      (!c.Top? ==> (ns0[HoleParent(c)].left == t <==> c.InLeft?))
    ensures LinkedTop(m, Plug(c, Replacement(s))) && Sized(m, Plug(c, Replacement(s)))
  {
    var L, R, t, k := s.left, s.right, s.id, s.key;
    var x, kx, y := L.id, L.key, L.left;
    var N' := Node(y, t, k, R);
    assert Replacement(s) == Node(y, x, kx, R);
    LinkedSplit(ns0, c, s);
    assert Linked(ns0, y, x);
    LinkedSplit(ns0, c, N');
    SizedSplit(ns0, c, N');
    Substitute(ns0, m, c, y, R, t, x, t, x, kx);
  }

  /**
    * Before the size loop of case 2 of erase_node with the predecessor:
    * the mirror image of SuccessorShrinkPre.
    */
  lemma {:induction false} PredecessorShrinkPre(ns: seq<NodeRec>, c: Ctx, s: Tree)
    requires Holds(ns, Plug(c, s)) && s.Node? && s.left.Node?
    ensures var cm, mx := MaxCtx(InLeft(c, s.id, s.key, s.right), s.left), MaxSub(s.left);
      var y := mx.left;
      LinkedCtx(ns, cm, mx.id) && Sized(ns, y) && SizedCtx(ns, cm, Size(y) + 1) &&
      Distinct(Plug(cm, y)) && (forall i :: i in Ids(Plug(cm, y)) ==> 0 < i < |ns|) &&
      Plug(cm, y) == Plug(c, Node(RemoveMax(s.left), s.id, s.key, s.right))
  {
    var cl := InLeft(c, s.id, s.key, s.right);
    var cm, mx := MaxCtx(cl, s.left), MaxSub(s.left);
    assert Plug(cm, mx) == Plug(c, s);
    HoldsAt(ns, cm, mx);
    assert Ids(mx) == Ids(mx.left) + {mx.id} && Size(mx) == Size(mx.left) + 1;
    PlugDistinctSub(cm, mx, mx.left);
    MaxCtxPlug(cl, s.left);
  }

  /** After that size loop, the slots the pointer stores touch are as they need. */
  lemma {:induction false} PredecessorReady(ns: seq<NodeRec>, ns0: seq<NodeRec>, c: Ctx, s: Tree)
    requires Holds(ns, Plug(c, s)) && s.Node? && s.left.Node? && s.right.Node?
    requires SameLinks(ns, ns0) && |ns0| == |ns| && ns0[HEADER] == ns[HEADER]
    ensures PredecessorSlotsOk(ns0, s.id, MaxSub(s.left).id)
  {
    PredecessorIds(c, s, |ns|);
    PredecessorSlots(ns, c, s);
  }

  /**
    * Where the climb after case 2 with the predecessor starts: at the
    * predecessor's old parent, on its right, or at the predecessor itself,
    * on its left, when it was s's left child.
    */
  lemma {:induction false} PredecessorHole(c: Ctx, s: Tree)
    requires s.Node? && s.left.Node? && s.right.Node? && Size(s.right) <= Size(s.left)
    ensures var h, cm := Removal(c, s), MaxCtx(InLeft(c, s.id, s.key, s.right), s.left);
      Plug(h.0, h.1) == Plug(c, Replacement(s)) &&
      (s.left.right.Nil? ==> h.0.InLeft? && HoleParent(h.0) == MaxSub(s.left).id) &&
      (s.left.right.Node? ==> h.0.InRight? && HoleParent(h.0) == HoleParent(cm))
  {
    var m := MaxSub(s.left);
    var cl := InLeft(c, s.id, s.key, s.right);
    RemovalShape(c, s);
    MaxCtxShape(InLeft(c, m.id, m.key, s.right), cl, s.left);
  }

  /** The node x of the tree: its position in order and its child pointers. */
  lemma {:induction false} Located(ns: seq<NodeRec>, t: Tree, x: int)
    requires Holds(ns, t) && x in Ids(t)
    ensures var c, s := Locate(t, x).0, Locate(t, x).1;
      Position(t, x) == |Before(c)| + Size(s.left) && 0 < x < |ns| &&
      ns[x].left == RootOf(s.left) && ns[x].right == RootOf(s.right) &&
      (s.left.Nil? <==> ns[x].left == NIL) && (s.right.Nil? <==> ns[x].right == NIL)
  {
    var c, s := Locate(t, x).0, Locate(t, x).1;
    NodeLinks(ns, c, s);
    SelectHere(c, s);
    PositionUnique(t, |Before(c)| + Size(s.left));
  }

  /**
    * After the size loop of case 2 of erase_node: the pointers and payloads
    * of ns are kept, the store ns0 is as long, its header unchanged, and it
    * stores the sizes of t.
    */
  predicate Shrunk(ns: seq<NodeRec>, ns0: seq<NodeRec>, t: Tree)
  {
    SameLinks(ns, ns0) && |ns0| == |ns| && 0 < |ns| && ns0[HEADER] == ns[HEADER] && Sized(ns0, t)
  }

  /** What copy_node reads of the source store at a node s: its links, and its children's sizes and payloads. */
  lemma {:induction false} ChildReads(ns: seq<NodeRec>, c: Ctx, s: Tree)
    requires Holds(ns, Plug(c, s)) && s.Node?
    ensures 0 < s.id < |ns| && ns[s.id].left == RootOf(s.left) && ns[s.id].right == RootOf(s.right)
    ensures ns[s.id].parent == HoleParent(c) && 0 <= HoleParent(c) < |ns|
    ensures s.left.Node? ==> 0 < s.left.id < |ns| && ns[s.left.id].size == Size(s.left) && ns[s.left.id].data == s.left.key
    ensures s.right.Node? ==> 0 < s.right.id < |ns| && ns[s.right.id].size == Size(s.right) && ns[s.right.id].data == s.right.key
  {
    CtxLinks(ns, c, s);
    NodeLinks(ns, c, s);
    if s.left.Node? {
      NodeLinks(ns, InLeft(c, s.id, s.key, s.right), s.left);
    }
    if s.right.Node? {
      NodeLinks(ns, InRight(s.left, s.id, s.key, c), s.right);
    }
  }

  /**
    * What copy_node's third test reads once the walk may leave the node s
    * (it came up, or s is a leaf): whether s's parent has a right child
    * other than s, which is exactly when s is a left subtree with a right
    * sibling, whose size and payload it then reads.
    */
  lemma {:induction false} SiblingReads(ns: seq<NodeRec>, c: Ctx, s: Tree, st: PrimState)
    requires Holds(ns, Plug(c, s)) && s.Node? && (st == Parent || (s.left.Nil? && s.right.Nil?)) && !(c.Top? && st == Parent)
    ensures 0 < s.id < |ns| && ns[s.id].parent == HoleParent(c) && 0 <= HoleParent(c) < |ns|
    ensures ns[HoleParent(c)].right != NIL && s.id != ns[HoleParent(c)].right <==> c.InLeft? && c.right.Node?
    ensures c.InLeft? && c.right.Node? ==>
      ns[c.id].right == c.right.id && 0 < c.right.id < |ns| &&
      ns[c.right.id].size == Size(c.right) && ns[c.right.id].data == c.right.key
  {
    CtxLinks(ns, c, s);
    match c
    case Top =>
      assert Rightmost(s) == s.id;
    case InLeft(up, i, k, r) =>
      NodeLinks(ns, up, Node(s, i, k, r));
      if r.Node? {
        NodeLinks(ns, InRight(s, i, k, up), r);
      }
    case InRight(_, _, _, _) =>
  }

  /** The same test at the header, reached only from a root without children: the root has no right child. */
  lemma {:induction false} HeaderReads(ns: seq<NodeRec>, t: Tree)
    requires Holds(ns, t) && t.Node? && t.left.Nil? && t.right.Nil?
    ensures ns[HEADER].parent == t.id && 0 < t.id < |ns| && ns[t.id].right == NIL
  {
    HoldsRoot(ns, t);
    NodeLinks(ns, Top, t);
  }

  /**
    * Everything copy_node reads of the source store at spot p of the walk,
    * in terms of the tree: the node's children with their sizes and
    * payloads, and, once the walk may leave the node, the parent's right
    * child, and the parent itself.
    */
  lemma {:induction false} CopyReads(ns: seq<NodeRec>, t: Tree, p: Spot, flag: bool)
    requires Holds(ns, t) && t.Node? && OnTree(t, p) && flag == (p.state != Parent) && p != AtNode(Top, t, Parent)
    requires p.AtHeader? ==> t.left.Nil? && t.right.Nil?
    ensures 0 <= SpotId(p) < |ns| && 0 <= ns[SpotId(p)].parent < |ns|
    ensures ns[SpotId(p)].parent == (if p.AtHeader? then t.id else HoleParent(p.c))
    ensures p.AtNode? ==> ns[SpotId(p)].left == RootOf(p.s.left) && ns[SpotId(p)].right == RootOf(p.s.right)
    ensures p.AtNode? && p.s.left.Node? ==>
      0 < p.s.left.id < |ns| && ns[p.s.left.id].size == Size(p.s.left) && ns[p.s.left.id].data == p.s.left.key
    ensures p.AtNode? && p.s.right.Node? ==>
      0 < p.s.right.id < |ns| && ns[p.s.right.id].size == Size(p.s.right) && ns[p.s.right.id].data == p.s.right.key
    ensures var x := SpotId(p); var q := ns[x].parent;
      !flag || (p.AtNode? && p.s.left.Nil? && p.s.right.Nil?) ==>
        (ns[q].right != NIL && x != ns[q].right <==> p.AtNode? && p.c.InLeft? && p.c.right.Node?)
    ensures p.AtNode? && p.c.InLeft? && p.c.right.Node? ==>
      var r := p.c.right;
      ns[p.c.id].right == r.id && 0 < r.id < |ns| && ns[r.id].size == Size(r) && ns[r.id].data == r.key
  {
    match p
    case AtHeader(_) =>
      HeaderReads(ns, t);
    case AtNode(c, s, st) =>
      ChildReads(ns, c, s);
      if !flag || (s.left.Nil? && s.right.Nil?) {
        SiblingReads(ns, c, s, st);
      } else if c.InLeft? && c.right.Node? {
        NodeLinks(ns, InRight(s, c.id, c.key, c.up), c.right);
        NodeLinks(ns, c.up, Node(s, c.id, c.key, c.right));
      }
  }

  /** In a tree held by a store, the only spot naming the root's node is the root itself. */
  lemma {:induction false} RootSpot(ns: seq<NodeRec>, t: Tree, p: Spot)
    requires Holds(ns, t) && t.Node? && OnTree(t, p)
    ensures SpotId(p) == t.id <==> p.AtNode? && p.c.Top?
  {
    HoldsRoot(ns, t);
    if p.AtNode? {
      PlugIds(p.c, p.s);
      assert p.s.id in Ids(p.s);
    }
  }

  /**
    * operator-- at a root with a left subtree: the root has a predecessor,
    * the last node of its left subtree, and the root's right child, where
    * the source's operator-- goes, is not it.
    */
  lemma {:induction false} RootDecrementMisses(t: Tree)
    requires Distinct(t) && NIL !in Ids(t) && t.Node? && t.left.Node?
    ensures t.id in Ids(t) && Position(t, t.id) > 0
    ensures RootOf(t.right) != Entries(t)[Position(t, t.id) - 1].id
  {
    var p := Trees.Size(t.left);
    assert Entries(t)[p] == Entry(t.id, t.key);
    PositionUnique(t, p);
    assert Entries(t)[p - 1] == Entries(t.left)[p - 1];
    MaxIn(t.left);
    if t.right.Node? {
      assert t.right.id in Ids(t.right);
    }
  }

  class SbTree {
    /** The node store; slot HEADER is the header node. */
    var nodes: seq<NodeRec>
    /** The tree the store holds. */
    ghost var tree: Tree

    ghost predicate Valid()
      reads this
    {
      Holds(nodes, tree) && Ordered(tree)
    }

    /** create_header: an empty tree whose header points at itself. */
    constructor ()
      ensures Valid() && tree == Nil
      ensures nodes == [NodeRec(NIL, HEADER, HEADER, 0, 0)]
    {
      nodes := [NodeRec(NIL, HEADER, HEADER, 0, 0)];
      tree := Nil;
    }

    /**
      * The copy constructor: create_header, then copy_node of other's root
      * when other is not empty. The copy's nodes take the slots 1, 2, ... in
      * pre-order.
      */
    constructor Copy(other: SbTree)
      requires other.Valid()
      ensures Valid() && tree == Renumber(other.tree, 1) && Congruent(tree, other.tree)
      ensures |nodes| == 1 + Trees.Size(other.tree)
      ensures nodes[HEADER] ==
        if other.tree.Nil? then NodeRec(NIL, HEADER, HEADER, 0, 0)
        else NodeRec(1, Leftmost(tree), Rightmost(tree), 0, 0)
    {
      nodes := [NodeRec(NIL, HEADER, HEADER, 0, 0)];
      tree := Nil;
      new;
      HoldsRoot(other.nodes, other.tree);
      var r := other.nodes[HEADER].parent;
      if r != NIL {
        CopyNode(other, r);
      } else {
        RenumberCongruent(other.tree, 1);
      }
    }

    /** left_rotate(t): t's right child takes t's place and t becomes its left child. */
    method LeftRotate(t: int, ghost c: Ctx, ghost s: Tree) returns (r: int)
      requires Holds(nodes, tree) && tree == Plug(c, s) && s.Node? && s.right.Node? && t == s.id
      modifies this
      ensures Holds(nodes, tree) && tree == Plug(c, RotL(s)) && r == s.right.id
      ensures |nodes| == old(|nodes|)
    {
      ghost var ns := nodes;
      RotLPre(nodes, c, s);
      var m := nodes;
      r := m[t].right;
      var rl := m[r].left;
      var p := m[t].parent;
      if rl != NIL {
        m := m[rl := m[rl].(parent := t)];
      }
      if t == m[HEADER].parent {
        m := m[HEADER := m[HEADER].(parent := r)];
      } else if t == m[p].left {
        m := m[p := m[p].(left := r)];
      } else {
        m := m[p := m[p].(right := r)];
      }
      m := m[r := m[r].(parent := p, left := t, size := m[t].size)];
      m := m[t := m[t].(right := rl, parent := r, size := SizeAt(m, m[t].left) + SizeAt(m, rl) + 1)];
      RotLPost(ns, m, c, s);
      nodes, tree := m, Plug(c, RotL(s));
    }

    /** right_rotate(t): t's left child takes t's place and t becomes its right child. */
    method RightRotate(t: int, ghost c: Ctx, ghost s: Tree) returns (l: int)
      requires Holds(nodes, tree) && tree == Plug(c, s) && s.Node? && s.left.Node? && t == s.id
      modifies this
      ensures Holds(nodes, tree) && tree == Plug(c, RotR(s)) && l == s.left.id
      ensures |nodes| == old(|nodes|)
    {
      ghost var ns := nodes;
      RotRPre(nodes, c, s);
      var m := nodes;
      l := m[t].left;
      var lr := m[l].right;
      var p := m[t].parent;
      if lr != NIL {
        m := m[lr := m[lr].(parent := t)];
      }
      if t == m[HEADER].parent {
        m := m[HEADER := m[HEADER].(parent := l)];
      } else if t == m[p].right {
        m := m[p := m[p].(right := l)];
      } else {
        m := m[p := m[p].(left := l)];
      }
      m := m[l := m[l].(parent := p, right := t, size := m[t].size)];
      m := m[t := m[t].(left := lr, parent := l, size := SizeAt(m, lr) + SizeAt(m, m[t].right) + 1)];
      RotRPost(ns, m, c, s);
      nodes, tree := m, Plug(c, RotR(s));
    }

    /**
      * insert_rebalance(t, flag) on a node t other than the header: the
      * subtree s rooted at t becomes Maintain(s, flag), and the new root of
      * that subtree is returned. The four cases are the four methods below.
      * The source stores each returned pointer back into t->left or t->right;
      * the rotation has already written the same pointer there, so those
      * stores change nothing and are not repeated.
      */
    method InsertRebalance(t: int, flag: bool, ghost c: Ctx, ghost s: Tree) returns (r: int)
      requires Holds(nodes, tree) && tree == Plug(c, s) && s.Node? && t == s.id
      modifies this
      ensures Holds(nodes, tree) && tree == Plug(c, Maintain(s, flag)) && r == Maintain(s, flag).id
      ensures |nodes| == old(|nodes|)
      decreases SD(s), 2
    {
      if flag {
        r := RebalanceRight(t, c, s);
      } else {
        r := RebalanceLeft(t, c, s);
      }
    }

    /** insert_rebalance with flag true: the tests of cases 1 and 2. */
    method RebalanceRight(t: int, ghost c: Ctx, ghost s: Tree) returns (r: int)
      requires Holds(nodes, tree) && tree == Plug(c, s) && s.Node? && t == s.id
      modifies this
      ensures Holds(nodes, tree) && tree == Plug(c, Maintain(s, true)) && r == Maintain(s, true).id
      ensures |nodes| == old(|nodes|)
      decreases SD(s), 1
    {
      NodeLinks(nodes, c, s);
      r := t;
      var tr := nodes[t].right;
      if tr != NIL {
        NodeLinks(nodes, InRight(s.left, s.id, s.key, c), s.right);
        var leftSize := SizeAt(nodes, nodes[t].left);
        var trl := nodes[tr].left;
        var trr := nodes[tr].right;
        if trl != NIL && leftSize < nodes[trl].size {
          // case 1: size(T.left) < size(T.right.left)
          r := RightInnerCase(t, c, s);
        } else if trr != NIL && leftSize < nodes[trr].size {
          // case 2: size(T.left) < size(T.right.right)
          r := RightOuterCase(t, c, s);
        }
      }
    }

    /** insert_rebalance with flag false: the tests of cases 3 and 4. */
    method RebalanceLeft(t: int, ghost c: Ctx, ghost s: Tree) returns (r: int)
      requires Holds(nodes, tree) && tree == Plug(c, s) && s.Node? && t == s.id
      modifies this
      ensures Holds(nodes, tree) && tree == Plug(c, Maintain(s, false)) && r == Maintain(s, false).id
      ensures |nodes| == old(|nodes|)
      decreases SD(s), 1
    {
      NodeLinks(nodes, c, s);
      r := t;
      var tl := nodes[t].left;
      if tl != NIL {
        NodeLinks(nodes, InLeft(c, s.id, s.key, s.right), s.left);
        var rightSize := SizeAt(nodes, nodes[t].right);
        var tlr := nodes[tl].right;
        var tll := nodes[tl].left;
        if tlr != NIL && rightSize < nodes[tlr].size {
          // case 3: size(T.right) < size(T.left.right)
          r := LeftInnerCase(t, c, s);
        } else if tll != NIL && rightSize < nodes[tll].size {
          // case 4: size(T.right) < size(T.left.left)
          r := LeftOuterCase(t, c, s);
        }
      }
    }

    /** Case 1: rotate the right child right, then t left, then repair both halves and the whole. */
    method RightInnerCase(t: int, ghost c: Ctx, ghost s: Tree) returns (r: int)
      requires RightInnerHeavy(s) && Holds(nodes, tree) && tree == Plug(c, s) && t == s.id
      modifies this
      ensures Holds(nodes, tree) && tree == Plug(c, Maintain(s, true)) && r == Maintain(s, true).id
      ensures |nodes| == old(|nodes|)
      decreases SD(s), 0
    {
      NodeLinks(nodes, c, s);
      var x := RightRotate(nodes[t].right, InRight(s.left, s.id, s.key, c), s.right);
      ghost var s1 := Node(s.left, s.id, s.key, RotR(s.right));
      r := LeftRotate(t, c, s1);
      ghost var u := RotL(s1);
      NodeLinks(nodes, c, u);
      var y := InsertRebalance(nodes[r].left, false, InLeft(c, u.id, u.key, u.right), u.left);
      ghost var v := Node(Maintain(u.left, false), u.id, u.key, u.right);
      NodeLinks(nodes, c, v);
      var z := InsertRebalance(nodes[r].right, true, InRight(v.left, v.id, v.key, c), v.right);
      ghost var w := Node(v.left, v.id, v.key, Maintain(v.right, true));
      r := InsertRebalance(r, true, c, w);
    }

    /** Case 2: rotate t left, then repair the left half and the whole. */
    method RightOuterCase(t: int, ghost c: Ctx, ghost s: Tree) returns (r: int)
      requires RightOuterHeavy(s) && !RightInnerHeavy(s)
      requires Holds(nodes, tree) && tree == Plug(c, s) && t == s.id
      modifies this
      ensures Holds(nodes, tree) && tree == Plug(c, Maintain(s, true)) && r == Maintain(s, true).id
      ensures |nodes| == old(|nodes|)
      decreases SD(s), 0
    {
      r := LeftRotate(t, c, s);
      ghost var u := RotL(s);
      NodeLinks(nodes, c, u);
      var y := InsertRebalance(nodes[r].left, false, InLeft(c, u.id, u.key, u.right), u.left);
      ghost var v := Node(Maintain(u.left, false), u.id, u.key, u.right);
      r := InsertRebalance(r, true, c, v);
    }

    /** Case 3: rotate the left child left, then t right, then repair both halves and the whole. */
    method LeftInnerCase(t: int, ghost c: Ctx, ghost s: Tree) returns (r: int)
      requires LeftInnerHeavy(s) && Holds(nodes, tree) && tree == Plug(c, s) && t == s.id
      modifies this
      ensures Holds(nodes, tree) && tree == Plug(c, Maintain(s, false)) && r == Maintain(s, false).id
      ensures |nodes| == old(|nodes|)
      decreases SD(s), 0
    {
      NodeLinks(nodes, c, s);
      var x := LeftRotate(nodes[t].left, InLeft(c, s.id, s.key, s.right), s.left);
      ghost var s1 := Node(RotL(s.left), s.id, s.key, s.right);
      r := RightRotate(t, c, s1);
      ghost var u := RotR(s1);
      NodeLinks(nodes, c, u);
      var y := InsertRebalance(nodes[r].left, false, InLeft(c, u.id, u.key, u.right), u.left);
      ghost var v := Node(Maintain(u.left, false), u.id, u.key, u.right);
      NodeLinks(nodes, c, v);
      var z := InsertRebalance(nodes[r].right, true, InRight(v.left, v.id, v.key, c), v.right);
      ghost var w := Node(v.left, v.id, v.key, Maintain(v.right, true));
      r := InsertRebalance(r, false, c, w);
    }

    /** Case 4: rotate t right, then repair the right half and the whole. */
    method LeftOuterCase(t: int, ghost c: Ctx, ghost s: Tree) returns (r: int)
      requires LeftOuterHeavy(s) && !LeftInnerHeavy(s)
      requires Holds(nodes, tree) && tree == Plug(c, s) && t == s.id
      modifies this
      ensures Holds(nodes, tree) && tree == Plug(c, Maintain(s, false)) && r == Maintain(s, false).id
      ensures |nodes| == old(|nodes|)
      decreases SD(s), 0
    {
      r := RightRotate(t, c, s);
      ghost var u := RotR(s);
      NodeLinks(nodes, c, u);
      var y := InsertRebalance(nodes[r].right, true, InRight(u.left, u.id, u.key, c), u.right);
      ghost var v := Node(u.left, u.id, u.key, Maintain(u.right, true));
      r := InsertRebalance(r, false, c, v);
    }
  

    // -------------------------------------------------------------------
    // capacity and lookups; none of these changes the tree

    /** empty(): no root below the header. */
    method Empty() returns (b: bool)
      requires Valid()
      ensures b <==> Entries(tree) == []
    {
      b := nodes[HEADER].parent == NIL;
    }

    /** size(): the size field of the root, 0 without one. */
    method Size() returns (n: int)
      requires Valid()
      ensures n == |Entries(tree)|
    {
      var root := nodes[HEADER].parent;
      if root != NIL {
        NodeLinks(nodes, Top, tree);
        n := nodes[root].size;
      } else {
        n := 0;
      }
    }

    /**
      * lower_bound_node(key): the first node in order whose key is not less
      * than key, the header when there is none. The descent keeps the last
      * node at which it turned left.
      */
    method LowerBound(key: int) returns (r: int)
      requires Valid()
      ensures var E := Entries(tree); var i := LowerIndex(E, key);
        r == NodeAt(E, i) && (i < |E| ==> 0 < r < |nodes| && nodes[r].data == E[i].key)
    {
      ghost var c: Ctx := Top;
      ghost var S := tree;
      HoldsRoot(nodes, tree);
      var pre := HEADER;
      var cur := nodes[HEADER].parent;
      while cur != NIL
        invariant tree == Plug(c, S) && cur == RootOf(S) && (S.Nil? <==> cur == NIL)
        invariant LowerSplit(c, key)
        invariant pre == (if After(c) == [] then HEADER else After(c)[0].id)
        invariant After(c) != [] ==> 0 < pre < |nodes| && nodes[pre].data == After(c)[0].key
        decreases Trees.Size(S)
      {
        NodeLinks(nodes, c, S);
        LowerStep(c, S, key);
        if !(nodes[cur].data < key) {
          pre := cur;
          cur := nodes[cur].left;
          c, S := InLeft(c, S.id, S.key, S.right), S.left;
        } else {
          cur := nodes[cur].right;
          c, S := InRight(S.left, S.id, S.key, c), S.right;
        }
      }
      LowerEnd(c, key);
      r := pre;
    }

    /**
      * upper_bound_node(key): the first node in order whose key is greater
      * than key, the header when there is none.
      */
    method UpperBound(key: int) returns (r: int)
      requires Valid()
      ensures r == NodeAt(Entries(tree), UpperIndex(Entries(tree), key))
    {
      ghost var c: Ctx := Top;
      ghost var S := tree;
      HoldsRoot(nodes, tree);
      var pre := HEADER;
      var cur := nodes[HEADER].parent;
      while cur != NIL
        invariant tree == Plug(c, S) && cur == RootOf(S) && (S.Nil? <==> cur == NIL)
        invariant UpperSplit(c, key)
        invariant pre == (if After(c) == [] then HEADER else After(c)[0].id)
        decreases Trees.Size(S)
      {
        NodeLinks(nodes, c, S);
        UpperStep(c, S, key);
        if key < nodes[cur].data {
          pre := cur;
          cur := nodes[cur].left;
          c, S := InLeft(c, S.id, S.key, S.right), S.left;
        } else {
          cur := nodes[cur].right;
          c, S := InRight(S.left, S.id, S.key, c), S.right;
        }
      }
      UpperEnd(c, key);
      r := pre;
    }

    /**
      * find_node(key): the first node in order holding key, the header when
      * no node does. Its descent is lower_bound_node's; the final test would
      * compare key with the header's default payload when the descent ends at
      * the header, and either outcome yields the header then.
      */
    method Find(key: int) returns (r: int)
      requires Valid()
      ensures var E := Entries(tree);
        (exists j :: 0 <= j < |E| && E[j].key == key) ==>
          LowerIndex(E, key) < |E| && r == E[LowerIndex(E, key)].id && 0 < r < |nodes| && nodes[r].data == key
      ensures var E := Entries(tree);
        (forall j :: 0 <= j < |E| ==> E[j].key != key) ==> r == HEADER
    {
      r := LowerBound(key);
      FoundAtLowerIndex(Entries(tree), key);
      if r != HEADER && key < nodes[r].data {
        r := HEADER;
      }
    }

    /** at(key): the node holding key, or the exception for an empty tree or an absent key. */
    method At(key: int) returns (res: AtResult)
      requires Valid()
      ensures Entries(tree) == [] <==> res == DomainError
      ensures var E := Entries(tree);
        E != [] && (forall j :: 0 <= j < |E| ==> E[j].key != key) <==> res == OutOfRange
      ensures var E := Entries(tree);
        res.Ref? ==>
          LowerIndex(E, key) < |E| && res.node == E[LowerIndex(E, key)].id &&
          0 < res.node < |nodes| && nodes[res.node].data == key
    {
      var empty := Empty();
      if empty {
        return DomainError;
      }
      var itr := Find(key);
      if itr == HEADER {
        return OutOfRange;
      }
      res := Ref(itr);
    }

    /**
      * rank_node(key): the 0-based position of the first node holding key,
      * size_type(-1) when no node holds it. The descent adds up the sizes
      * of the subtrees it passes on the left.
      */
    method Rank(key: int) returns (n: int)
      requires Valid()
      ensures var E := Entries(tree); var i := LowerIndex(E, key);
        n == (if i < |E| && E[i].key == key then i else NPOS)
    {
      ghost var c: Ctx := Top;
      ghost var S := tree;
      HoldsRoot(nodes, tree);
      n := 0;
      var pre := HEADER;
      var cur := nodes[HEADER].parent;
      while cur != NIL
        invariant tree == Plug(c, S) && cur == RootOf(S) && (S.Nil? <==> cur == NIL)
        invariant n == |Before(c)|
        invariant LowerSplit(c, key)
        invariant pre == (if After(c) == [] then HEADER else After(c)[0].id)
        invariant After(c) != [] ==> 0 < pre < |nodes| && nodes[pre].data == After(c)[0].key
        decreases Trees.Size(S)
      {
        NodeLinks(nodes, c, S);
        LowerStep(c, S, key);
        if !(nodes[cur].data < key) {
          pre := cur;
          cur := nodes[cur].left;
          c, S := InLeft(c, S.id, S.key, S.right), S.left;
        } else {
          var l := nodes[cur].left;
          n := n + (if l != NIL then nodes[l].size + 1 else 1);
          BeforeRight(c, S);
          cur := nodes[cur].right;
          c, S := InRight(S.left, S.id, S.key, c), S.right;
        }
      }
      LowerEnd(c, key);
      if pre == HEADER || key < nodes[pre].data {
        n := NPOS;
      }
    }

    /**
      * select_node(k): the node at 0-based position k in order, the header
      * when k is not less than the size.
      */
    method Select(k: nat) returns (r: int)
      requires Valid()
      ensures r == NodeAt(Entries(tree), k)
    {
      ghost var c: Ctx := Top;
      ghost var S := tree;
      HoldsRoot(nodes, tree);
      var j: nat := k;
      var t := nodes[HEADER].parent;
      while t != NIL
        invariant tree == Plug(c, S) && t == RootOf(S) && (S.Nil? <==> t == NIL)
        invariant k == |Before(c)| + j
        invariant After(c) == [] || j < Trees.Size(S)
        decreases Trees.Size(S)
      {
        NodeLinks(nodes, c, S);
        var leftSize := SizeAt(nodes, nodes[t].left);
        if leftSize < j {
          t := nodes[t].right;
          j := j - (leftSize + 1);
          c, S := InRight(S.left, S.id, S.key, c), S.right;
        } else if j < leftSize {
          t := nodes[t].left;
          c, S := InLeft(c, S.id, S.key, S.right), S.left;
        } else {
          SelectHere(c, S);
          return t;
        }
      }
      SelectEnd(c, k);
      r := HEADER;
    }
  
    // -------------------------------------------------------------------
    // sb_tree_iterator: in-order stepping

    /** The descent to the leftmost node of the subtree t, whose root is x. */
    method LeftmostFrom(x: int, ghost p: int, ghost t: Tree) returns (r: int)
      requires Linked(nodes, t, p) && t.Node? && x == t.id
      ensures r == Leftmost(t)
    {
      r := x;
      ghost var p2, t2 := p, t;
      while nodes[r].left != NIL
        invariant Linked(nodes, t2, p2) && t2.Node? && r == t2.id
        invariant Leftmost(t2) == Leftmost(t)
        decreases Trees.Size(t2)
      {
        p2, t2 := r, t2.left;
        r := nodes[r].left;
      }
    }

    /** The descent to the rightmost node of the subtree t, whose root is x. */
    method RightmostFrom(x: int, ghost p: int, ghost t: Tree) returns (r: int)
      requires Linked(nodes, t, p) && t.Node? && x == t.id
      ensures r == Rightmost(t)
    {
      r := x;
      ghost var p2, t2 := p, t;
      while nodes[r].right != NIL
        invariant Linked(nodes, t2, p2) && t2.Node? && r == t2.id
        invariant Rightmost(t2) == Rightmost(t)
        decreases Trees.Size(t2)
      {
        p2, t2 := r, t2.right;
        r := nodes[r].right;
      }
    }

    /**
      * The climb of operator++ from a node s without a right child: up while
      * the node is its parent's right child, then to the parent, unless the
      * climb went through the header (the test node->right != p). The result
      * is the node at the position after the last node of s, the header
      * when there is none.
      */
    method ClimbNext(x: int, ghost c: Ctx, ghost s: Tree) returns (r: int)
      requires Valid() && tree == Plug(c, s) && s.Node? && x == s.id
      ensures r == NodeAt(Entries(tree), |Before(c)| + Trees.Size(s))
    {
      ghost var K := |Before(c)| + Trees.Size(s);
      ghost var cc, ss := c, s;
      CtxLinks(nodes, cc, ss);
      r := x;
      var p := nodes[r].parent;
      while r == nodes[p].right
        invariant 0 <= p < |nodes|
        invariant r != HEADER ==>
          tree == Plug(cc, ss) && ss.Node? && r == ss.id && p == HoleParent(cc) &&
          K == |Before(cc)| + Trees.Size(ss)
        invariant r == HEADER ==>
          tree.Node? && p == tree.id && nodes[HEADER].right == p && nodes[p].right != HEADER &&
          K == |Entries(tree)|
        decreases if r == HEADER then 0 else Depth(cc) + 1
      {
        CtxLinks(nodes, cc, ss);
        NodeLinks(nodes, cc, ss);
        r := p;
        p := nodes[p].parent;
        if !cc.Top? {
          cc, ss := cc.up, Node(cc.left, cc.id, cc.key, ss);
        }
      }
      if r != HEADER {
        CtxLinks(nodes, cc, ss);
        NodeLinks(nodes, cc, ss);
        NextAfter(cc, ss);
      }
      if nodes[r].right != p {
        r := p;
      }
    }

    /**
      * operator++ from a node s with a right subtree: the leftmost node of
      * that subtree is the next in order.
      */
    method DescendNext(x: int, ghost c: Ctx, ghost s: Tree) returns (r: int)
      requires Valid() && tree == Plug(c, s) && s.Node? && s.right.Node? && x == s.id
      ensures r == NodeAt(Entries(tree), |Before(c)| + Trees.Size(s.left) + 1)
    {
      RightDescent(nodes, c, s);
      r := LeftmostFrom(nodes[x].right, x, s.right);
    }

    /**
      * operator++ from a node of the tree: the leftmost node of its right
      * subtree if it has one, otherwise where the climb ends; the header
      * after the last node.
      */
    method Increment(node: int) returns (r: int)
      requires Valid() && node in Ids(tree)
      ensures r == NodeAt(Entries(tree), Position(tree, node) + 1)
    {
      ghost var cs := Locate(tree, node);
      ghost var c, s := cs.0, cs.1;
      Located(nodes, tree, node);
      ghost var j := Position(tree, node);
      assert j == |Before(c)| + Trees.Size(s.left);
      if nodes[node].right != NIL {
        r := DescendNext(node, c, s);
      } else {
        assert |Before(c)| + Trees.Size(s) == j + 1;
        r := ClimbNext(node, c, s);
      }
    }

    // -------------------------------------------------------------------
    // sb_tree_primitive_iterator: the full-structure walk

    /**
      * operator++ of sb_tree_primitive_iterator on the fields node and state:
      * the four branches of the source, read through the store. The new
      * fields stand for the spot PrimNext gives.
      */
    method PrimIncrement(node: int, state: PrimState, ghost p: Spot) returns (node': int, state': PrimState)
      requires Valid() && OnTree(tree, p) && Names(p, node, state)
      ensures Names(PrimNext(tree, p), node', state')
    {
      HoldsRoot(nodes, tree);
      match p {
      case AtHeader(_) =>
        if tree.Node? {
          NodeLinks(nodes, Top, tree);
          NodeLinks(nodes, MinCtx(Top, tree), MinSub(tree));
          MinSubLeftmost(tree);
        }
      case AtNode(c, s, _) =>
        NodeLinks(nodes, c, s);
        CtxLinks(nodes, c, s);
        if c.InLeft? {
          NodeLinks(nodes, c.up, Node(s, c.id, c.key, c.right));
        }
      }
      if state != Parent && nodes[node].left != NIL {
        node', state' := nodes[node].left, Left;
      } else if state != Parent && nodes[node].right != NIL {
        node', state' := nodes[node].right, Right;
      } else if node != nodes[nodes[node].parent].parent &&
          nodes[nodes[node].parent].right != NIL && node != nodes[nodes[node].parent].right {
        node', state' := nodes[nodes[node].parent].right, Sibling;
      } else {
        node', state' := nodes[node].parent, Parent;
      }
    }

    /** operator-- of sb_tree_primitive_iterator: PrimIncrement with left and right exchanged. */
    method PrimDecrement(node: int, state: PrimState, ghost p: Spot) returns (node': int, state': PrimState)
      requires Valid() && OnTree(tree, p) && Names(p, node, state)
      ensures Names(PrimPrev(tree, p), node', state')
    {
      HoldsRoot(nodes, tree);
      match p {
      case AtHeader(_) =>
        if tree.Node? {
          NodeLinks(nodes, Top, tree);
          NodeLinks(nodes, MaxCtx(Top, tree), MaxSub(tree));
          MaxSubRightmost(tree);
        }
      case AtNode(c, s, _) =>
        NodeLinks(nodes, c, s);
        CtxLinks(nodes, c, s);
        if c.InRight? {
          NodeLinks(nodes, c.up, Node(c.left, c.id, c.key, s));
        }
      }
      if state != Parent && nodes[node].right != NIL {
        node', state' := nodes[node].right, Right;
      } else if state != Parent && nodes[node].left != NIL {
        node', state' := nodes[node].left, Left;
      } else if node != nodes[nodes[node].parent].parent &&
          nodes[nodes[node].parent].left != NIL && node != nodes[nodes[node].parent].left {
        node', state' := nodes[nodes[node].parent].left, Sibling;
      } else {
        node', state' := nodes[node].parent, Parent;
      }
    }

    /**
      * The climb of operator-- from a node s without a left child: up while
      * the node is its parent's left child, then to the parent: the node at
      * the position before the first node of s.
      */
    method ClimbPrev(x: int, ghost c: Ctx, ghost s: Tree) returns (r: int)
      requires Valid() && tree == Plug(c, s) && s.Node? && x == s.id && |Before(c)| > 0
      ensures |Before(c)| <= |Entries(tree)| && r == Entries(tree)[|Before(c)| - 1].id
    {
      ghost var K := |Before(c)|;
      ghost var cc, ss := c, s;
      CtxLinks(nodes, cc, ss);
      r := x;
      var p := nodes[r].parent;
      while r == nodes[p].left
        invariant tree == Plug(cc, ss) && ss.Node? && r == ss.id && p == HoleParent(cc) && 0 <= p < |nodes|
        invariant |Before(cc)| == K
        decreases Depth(cc)
      {
        CtxLinks(nodes, cc, ss);
        r := p;
        p := nodes[p].parent;
        cc, ss := cc.up, Node(ss, cc.id, cc.key, cc.right);
      }
      CtxLinks(nodes, cc, ss);
      PrevBefore(cc, ss);
      r := p;
    }

    /**
      * The step of operator-- from a node of the tree other than the first:
      * the rightmost node of its left subtree if it has one, otherwise where
      * the climb ends.
      */
    method StepBack(node: int) returns (r: int)
      requires Valid() && node in Ids(tree) && Position(tree, node) > 0
      ensures r == Entries(tree)[Position(tree, node) - 1].id
    {
      ghost var cs := Locate(tree, node);
      ghost var c, s := cs.0, cs.1;
      Located(nodes, tree, node);
      if nodes[node].left != NIL {
        LinkedSplit(nodes, InLeft(c, s.id, s.key, s.right), s.left);
        r := RightmostFrom(nodes[node].left, HoleParent(InLeft(c, s.id, s.key, s.right)), s.left);
        LastOf(InLeft(c, s.id, s.key, s.right), s.left);
      } else {
        r := ClimbPrev(node, c, s);
      }
    }

    /**
      * operator-- as the source writes it. The test meant to recognise the
      * header, node->parent->parent == node, also holds at the root, so from
      * the root the iterator moves to the root's right child (possibly
      * nullptr) instead of to its predecessor.
      */
    method DecrementAsWritten(node: int) returns (r: int)
      requires Valid()
      requires node == HEADER || (node in Ids(tree) && Position(tree, node) > 0)
      ensures node == HEADER ==>
        r == (if Entries(tree) == [] then HEADER else Entries(tree)[|Entries(tree)| - 1].id)
      ensures node != HEADER && node == RootOf(tree) ==> r == RootOf(tree.right)
      ensures node != HEADER && node != RootOf(tree) ==> r == Entries(tree)[Position(tree, node) - 1].id
    {
      HoldsRoot(nodes, tree);
      if tree.Node? {
        NodeLinks(nodes, Top, tree);
      }
      if node != HEADER {
        ghost var c, s := Locate(tree, node).0, Locate(tree, node).1;
        CtxLinks(nodes, c, s);
        NodeLinks(nodes, c, s);
      }
      var p := nodes[node].parent;
      if p == NIL || nodes[p].parent == node {
        r := nodes[node].right;
      } else {
        r := StepBack(node);
      }
    }

    /**
      * operator-- with the header recognised by its size field, which is 0
      * for the header alone: from end() to the last node, from any other
      * node to its predecessor.
      */
    method Decrement(node: int) returns (r: int)
      requires Valid()
      requires node == HEADER || (node in Ids(tree) && Position(tree, node) > 0)
      ensures node == HEADER ==>
        r == (if Entries(tree) == [] then HEADER else Entries(tree)[|Entries(tree)| - 1].id)
      ensures node != HEADER ==> r == Entries(tree)[Position(tree, node) - 1].id
    {
      if node != HEADER {
        ghost var c, s := Locate(tree, node).0, Locate(tree, node).1;
        NodeLinks(nodes, c, s);
      }
      if nodes[node].size == 0 {
        r := nodes[node].right;
      } else {
        r := StepBack(node);
      }
    }

    // -------------------------------------------------------------------
    // Insertion
    // -------------------------------------------------------------------

    /**
      * insert_rebalance(header, flag), which the do-while climb calls when
      * the landing node is the root, and erase_node's climb as its last
      * step. It returns the header. Whether the header's size comparisons
      * would make it rotate is reported, and the model performs no
      * rotation: a rotation about the header would relink the root's left
      * child and leave no tree. The callers pass that report on, and
      * HeaderQuiet and HeaderCalm say when none is due.
      */
    method HeaderRebalance(flag: bool) returns (r: int, rotates: bool)
      requires Holds(nodes, tree)
      ensures r == HEADER && (rotates <==> tree.Node? && HeaderFires(tree, flag))
    {
      r := HEADER;
      if tree.Node? {
        MinSubLeftmost(tree);
        MaxSubRightmost(tree);
        NodeLinks(nodes, MinCtx(Top, tree), MinSub(tree));
        NodeLinks(nodes, MaxCtx(Top, tree), MaxSub(tree));
      }
      var tl, tr := nodes[HEADER].left, nodes[HEADER].right;
      if flag {
        var leftSize := nodes[tl].size;
        var a, b := nodes[tr].left, nodes[tr].right;
        rotates := Exceeds(nodes, a, leftSize) || Exceeds(nodes, b, leftSize);
      } else {
        var rightSize := nodes[tr].size;
        var a, b := nodes[tl].right, nodes[tl].left;
        rotates := Exceeds(nodes, a, rightSize) || Exceeds(nodes, b, rightSize);
      }
    }

    /**
      * One pass of the do-while climb: t = insert_rebalance(t->parent,
      * t == t->parent->right), for t the root x of a subtree in context c.
      * From the root the call lands on the header; from the header it lands
      * on the root with the flag false.
      */
    method ClimbStep(t: int, ghost c: Ctx, ghost x: Tree) returns (r: int, ghost rotates: bool)
      requires Holds(nodes, tree) && tree == Plug(c, x) && x.Node?
      requires if t == HEADER then c.Top? else t == x.id
      modifies this
      ensures Holds(nodes, tree) && |nodes| == old(|nodes|)
      ensures rotates <==> t != HEADER && c.Top? && HeaderFires(x, x.id == Rightmost(x))
      ensures t == HEADER ==> tree == Maintain(x, false) && r == tree.id
      ensures t != HEADER && c.Top? ==> tree == old(tree) && r == HEADER
      ensures t != HEADER && !c.Top? ==>
        tree == Plug(c.up, Maintain(Lift(c, x), c.InRight?)) && r == Maintain(Lift(c, x), c.InRight?).id
    {
      if t == HEADER {
        HoldsRoot(nodes, tree);
        NodeLinks(nodes, Top, x);
      } else {
        CtxLinks(nodes, c, x);
      }
      var p := nodes[t].parent;
      var flag := t == nodes[p].right;
      rotates := false;
      if p == HEADER {
        var fires;
        r, fires := HeaderRebalance(flag);
        rotates := fires;
      } else {
        r := InsertRebalance(p, flag, if t == HEADER then Top else c.up, if t == HEADER then x else Lift(c, x));
      }
    }

    /**
      * The do-while climb after an insertion: t = insert_rebalance(t->parent,
      * t == t->parent->right) until the returned node hangs below the header.
      * It starts at the landing node x, which is not rebalanced itself.
      */
    method InsertClimb(t0: int, ghost c: Ctx, ghost x: Tree) returns (ghost rotates: bool)
      requires Holds(nodes, tree) && tree == Plug(c, x) && x.Node? && t0 == x.id
      modifies this
      ensures Holds(nodes, tree) && tree == Climb(c, x) && |nodes| == old(|nodes|)
      ensures rotates <==> c.Top? && HeaderFires(x, x.id == Rightmost(x))
    {
      var t := t0;
      ghost var cc, xx := c, x;
      var done := false;
      rotates := false;
      while !done
        invariant Holds(nodes, tree) && |nodes| == old(|nodes|)
        invariant done ==> tree == Climb(c, x)
        invariant done ==> (rotates <==> c.Top? && HeaderFires(x, x.id == Rightmost(x)))
        invariant !done && c.Top? ==> (rotates <==> t == HEADER && HeaderFires(x, x.id == Rightmost(x)))
        invariant !c.Top? ==> !rotates
        invariant !done && c.Top? ==> tree == x && cc.Top? && xx == x && (t == x.id || t == HEADER)
        invariant !done && !c.Top? ==>
          !cc.Top? && tree == Plug(cc, xx) && xx.Node? && t == xx.id && Up(cc, xx) == Up(c, x)
        decreases if done then 0 else if c.Top? then (if t == HEADER then 1 else 2) else Depth(cc) + 1
      {
        ghost var t1 := t;
        UpStep(c, x);
        if !c.Top? {
          CtxLinks(nodes, cc, xx);
        }
        ghost var fires;
        t, fires := ClimbStep(t, cc, xx);
        rotates := rotates || fires;
        if t1 != HEADER {
          if c.Top? {
            HoldsRoot(nodes, tree);
          } else {
            UpStep(cc, xx);
            ghost var y := Maintain(Lift(cc, xx), cc.InRight?);
            assert Up(cc, xx) == Up(cc.up, y);
            cc, xx := cc.up, y;
            CtxLinks(nodes, cc, xx);
            UpStep(cc, xx);
          }
        } else {
          CtxLinks(nodes, Top, tree);
        }
        done := nodes[t].parent == HEADER;
      }
    }

    /**
      * The descent of insert_equal_node: ++t->size on every node passed,
      * left on a smaller key and right otherwise, down to the landing node,
      * which lacks the child the descent would go on to.
      */
    method GrowDown(n: int, key: int) returns (t: int, ghost c: Ctx, ghost s: Tree)
      requires Holds(nodes, tree) && tree.Node? && 0 <= n < |nodes| && n !in Ids(tree)
      modifies this
      ensures tree == old(tree) && |nodes| == old(|nodes|) && nodes[n] == old(nodes[n])
      ensures (c, s) == LandingAt(Top, tree, key) && t == s.id
      ensures Shape(nodes, tree) && SizedBut(nodes, c, s, 1)
    {
      HoldsRoot(nodes, tree);
      t := nodes[HEADER].parent;
      c, s := Top, tree;
      while true
        invariant tree == old(tree) && |nodes| == old(|nodes|) && nodes[n] == old(nodes[n])
        invariant Growing(nodes, tree, c, s, key) && t == s.id
        decreases Trees.Size(s)
      {
        GrowNext(nodes, nodes[t := nodes[t].(size := nodes[t].size + 1)], tree, c, s, key);
        nodes := nodes[t := nodes[t].(size := nodes[t].size + 1)];
        if key < nodes[t].data {
          if nodes[t].left == NIL {
            return;
          }
          t := nodes[t].left;
          c, s := InLeft(c, s.id, s.key, s.right), s.left;
        } else {
          if nodes[t].right == NIL {
            return;
          }
          t := nodes[t].right;
          c, s := InRight(s.left, s.id, s.key, c), s.right;
        }
      }
    }

    /**
      * n->parent = t; then t->left = n or t->right = n on the side the
      * descent would have gone on, and header->left or header->right moves to
      * n when t was the minimum or the maximum. The size fields that were
      * off by d are off by d - 1 against the tree with the leaf attached.
      */
    method AttachLeaf(t: int, n: int, key: int, ghost c: Ctx, ghost s: Tree, ghost d: int)
      requires Shape(nodes, Plug(c, s)) && SizedBut(nodes, c, s, d) && t == s.id
      requires key < s.key ==> s.left.Nil?
      requires !(key < s.key) ==> s.right.Nil?
      requires 0 < n < |nodes| && n !in Ids(Plug(c, s))
      requires nodes[n].left == NIL && nodes[n].right == NIL && nodes[n].size == 1 && nodes[n].data == key
      modifies this
      ensures Shape(nodes, Plug(c, Attach(s, n, key))) && SizedBut(nodes, c, Attach(s, n, key), d - 1)
      ensures tree == old(tree) && |nodes| == old(|nodes|)
    {
      ShapeNode(nodes, c, s);
      ShapeParts(nodes, c, s);
      PlugIds(c, s);
      assert t in Ids(Plug(c, s));
      var m := nodes;
      m := m[n := m[n].(parent := t)];
      if key < m[t].data {
        m := m[t := m[t].(left := n)];
        if t == m[HEADER].left {
          m := m[HEADER := m[HEADER].(left := n)];
        }
      } else {
        m := m[t := m[t].(right := n)];
        if t == m[HEADER].right {
          m := m[HEADER := m[HEADER].(right := n)];
        }
      }
      AttachLinks(nodes, m, c, s, n, key, d);
      nodes := m;
    }

    /**
      * insert_equal_node(key): a new node n in a fresh slot, placed after
      * every node whose key is not greater than key, and the tree rebalanced
      * on the way up. n is returned.
      */
    method InsertEqual(key: int) returns (n: int, ghost rotates: bool)
      requires Valid()
      modifies this
      ensures n == old(|nodes|) && |nodes| == n + 1
      ensures rotates <==> old(tree).Node? && InsertFires(old(tree), n, key)
      ensures Balanced(old(tree)) ==> !rotates
      ensures Valid() && tree == InsertEqualTree(old(tree), n, key)
      ensures var E := old(Entries(tree)); var u := UpperIndex(E, key);
        Entries(tree) == E[..u] + [Entry(n, key)] + E[u..]
    {
      rotates := false;
      if tree.Node? && Balanced(tree) {
        InsertQuiet(tree, |nodes|, key);
      }
      n := |nodes|;
      AppendHolds(nodes, tree, NodeRec(NIL, NIL, NIL, 1, key));
      nodes := nodes + [NodeRec(NIL, NIL, NIL, 1, key)];
      InsertEqualEntries(tree, n, key);
      HoldsRoot(nodes, tree);
      if nodes[HEADER].parent != NIL {
        var t;
        ghost var c, s;
        t, c, s := GrowDown(n, key);
        AttachLeaf(t, n, key, c, s, 1);
        SizedButNone(nodes, c, Attach(s, n, key));
        tree := Plug(c, Attach(s, n, key));
        rotates := InsertClimb(t, c, Attach(s, n, key));
        assert tree == InsertEqualTree(old(tree), n, key);
        assert Holds(nodes, tree);
        assert Ordered(tree);
      } else {
        var m := nodes;
        m := m[n := m[n].(parent := HEADER)];
        m := m[HEADER := m[HEADER].(parent := n, left := n, right := n)];
        nodes := m;
        tree := Leaf(n, key);
        assert Leftmost(tree) == n && Rightmost(tree) == n;
        assert Holds(nodes, tree);
        assert Ordered(tree);
      }
    }

    /**
      * The descent of insert_unique_node: left on a smaller key, right on a
      * greater one, until it meets a node holding key or lands. Nothing is
      * changed on the way down.
      */
    method SeekUnique(key: int) returns (t: int, found: bool, ghost c: Ctx, ghost s: Tree)
      requires Valid() && tree.Node?
      ensures tree == Plug(c, s) && s.Node? && t == s.id
      ensures found ==> s.key == key
      ensures !found ==> (c, s) == LandingAt(Top, tree, key)
      ensures !found ==> forall j :: 0 <= j < |Entries(tree)| ==> Entries(tree)[j].key != key
    {
      HoldsRoot(nodes, tree);
      t := nodes[HEADER].parent;
      c, s := Top, tree;
      while true
        invariant tree == Plug(c, s) && s.Node? && t == s.id && KeyApart(c, key)
        invariant LandingAt(c, s, key) == LandingAt(Top, tree, key)
        decreases Trees.Size(s)
      {
        NodeLinks(nodes, c, s);
        ApartStep(c, s, key);
        if key < nodes[t].data {
          if nodes[t].left == NIL {
            ApartAbsent(c, s, key);
            return t, false, c, s;
          }
          t := nodes[t].left;
          c, s := InLeft(c, s.id, s.key, s.right), s.left;
        } else {
          if !(nodes[t].data < key) {
            return t, true, c, s;
          }
          if nodes[t].right == NIL {
            ApartAbsent(c, s, key);
            return t, false, c, s;
          }
          t := nodes[t].right;
          c, s := InRight(s.left, s.id, s.key, c), s.right;
        }
      }
    }

    /**
      * The size loop of insert_unique_node, for (p = t; p != header; p =
      * p->parent) ++p->size, started at the landing node x once the new leaf
      * hangs below it: afterwards every size field counts the leaf.
      */
    method SizeUp(t: int, ghost c: Ctx, ghost x: Tree)
      requires tree == Plug(c, x) && Shape(nodes, tree) && SizedBut(nodes, c, x, -1) && t == x.id
      modifies this
      ensures Holds(nodes, tree) && tree == old(tree) && |nodes| == old(|nodes|)
    {
      ShapeParts(nodes, c, x);
      var p := t;
      ghost var cc, xx := c, x;
      while p != HEADER
        invariant tree == old(tree) && |nodes| == old(|nodes|) && tree == Plug(cc, xx) && Shape(nodes, tree)
        invariant p != HEADER ==> SizedBut(nodes, cc, xx, -1) && p == xx.id
        invariant p == HEADER ==> Holds(nodes, tree)
        decreases if p == HEADER then 0 else Depth(cc) + 1
      {
        ghost var ns' := nodes[p := nodes[p].(size := nodes[p].size + 1)];
        PendingStep(nodes, ns', cc, xx);
        var q := nodes[p].parent;
        nodes := nodes[p := nodes[p].(size := nodes[p].size + 1)];
        assert nodes == ns' && q == HoleParent(cc);
        p := q;
        if !cc.Top? {
          cc, xx := cc.up, Lift(cc, xx);
        }
      }
    }

    /**
      * insert_unique_node(key) once the descent has landed at s, below
      * which key belongs: a new node in a fresh slot hangs below s, the
      * sizes on the path up to the root grow by one and the rebalancing climb
      * follows. Like InsertClimb it reports whether the header call rotates.
      */
    method UniqueLand(t: int, key: int, ghost c: Ctx, ghost s: Tree) returns (n: int, ghost rotates: bool)
      requires Valid() && tree.Node? && tree == Plug(c, s) && s.Node? && t == s.id && (c, s) == LandingAt(Top, tree, key)
      modifies this
      ensures n == old(|nodes|) && |nodes| == n + 1
      ensures Valid() && tree == InsertEqualTree(old(tree), n, key)
      ensures rotates <==> InsertFires(old(tree), n, key)
    {
      n := |nodes|;
      AppendHolds(nodes, tree, NodeRec(NIL, NIL, NIL, 1, key));
      nodes := nodes + [NodeRec(NIL, NIL, NIL, 1, key)];
      InsertEqualEntries(tree, n, key);
      HoldsSizedBut(nodes, c, s);
      AttachLeaf(t, n, key, c, s, 0);
      ghost var x := Attach(s, n, key);
      tree := Plug(c, x);
      SizeUp(t, c, x);
      rotates := InsertClimb(t, c, x);
      assert tree == InsertEqualTree(old(tree), n, key);
      assert Holds(nodes, tree);
      assert Ordered(tree);
    }

    /**
      * insert_unique_node(key): when some node already holds key, that node
      * and false, with nothing changed; otherwise a new node n in a fresh
      * slot, placed as insert_equal_node places it, and true.
      */
    method InsertUnique(key: int) returns (n: int, inserted: bool, ghost rotates: bool)
      requires Valid()
      modifies this
      ensures var E := old(Entries(tree)); inserted <==> forall j :: 0 <= j < |E| ==> E[j].key != key
      ensures rotates <==> inserted && old(tree).Node? && InsertFires(old(tree), n, key)
      ensures Balanced(old(tree)) ==> !rotates
      ensures !inserted ==>
        nodes == old(nodes) && tree == old(tree) && n in Ids(tree) && 0 < n < |nodes| && nodes[n].data == key
      ensures inserted ==> n == old(|nodes|) && |nodes| == n + 1
      ensures Valid()
      ensures inserted ==> tree == InsertEqualTree(old(tree), n, key)
      ensures inserted ==> var E := old(Entries(tree)); var u := UpperIndex(E, key);
        Entries(tree) == E[..u] + [Entry(n, key)] + E[u..]
    {
      rotates := false;
      if tree.Node? && Balanced(tree) {
        InsertQuiet(tree, |nodes|, key);
      }
      HoldsRoot(nodes, tree);
      if nodes[HEADER].parent != NIL {
        var t, found;
        ghost var c, s;
        t, found, c, s := SeekUnique(key);
        if found {
          NodeLinks(nodes, c, s);
          SelectHere(c, s);
          PlugIds(c, s);
          return t, false, false;
        }
        InsertEqualEntries(tree, |nodes|, key);
        n, rotates := UniqueLand(t, key, c, s);
        inserted := true;
      } else {
        n := |nodes|;
        AppendHolds(nodes, tree, NodeRec(NIL, NIL, NIL, 1, key));
        InsertEqualEntries(tree, n, key);
        var m := nodes + [NodeRec(NIL, NIL, NIL, 1, key)];
        m := m[n := m[n].(parent := HEADER)];
        m := m[HEADER := m[HEADER].(parent := n, left := n, right := n)];
        nodes := m;
        tree := Leaf(n, key);
        inserted := true;
        assert Leftmost(tree) == n && Rightmost(tree) == n;
        assert Holds(nodes, tree);
        assert Ordered(tree);
      }
    }

    // -------------------------------------------------------------------
    // Erasure
    // -------------------------------------------------------------------

    /**
      * The size loop of erase_node, for (p = p0; p != header; p = p->parent)
      * --p->size, started at the parent of the place that lost a node: the
      * nodes of context c still count it, y and everything outside c do
      * not. Afterwards every size field of Plug(c, y) is right and no
      * pointer has changed.
      */
    method ShrinkPath(p0: int, ghost c: Ctx, ghost y: Tree, ghost h: int)
      requires LinkedCtx(nodes, c, h) && Sized(nodes, y) && SizedCtx(nodes, c, Trees.Size(y) + 1)
      requires Distinct(Plug(c, y)) && (forall i :: i in Ids(Plug(c, y)) ==> 0 < i < |nodes|)
      requires p0 == HoleParent(c)
      modifies this
      ensures Sized(nodes, Plug(c, y)) && SameLinks(old(nodes), nodes) && |nodes| == old(|nodes|)
      ensures nodes[HEADER] == old(nodes[HEADER]) && tree == old(tree)
    {
      var p := p0;
      ghost var ns0 := nodes;
      ghost var cc, xx := c, y;
      ShrinkBegin(nodes, c, y, h);
      if !c.Top? {
        cc, xx := c.up, Lift(c, y);
      }
      while p != HEADER
        invariant SameLinks(ns0, nodes) && |nodes| == |ns0| && tree == old(tree)
        invariant nodes[HEADER] == ns0[HEADER]
        invariant p == HEADER ==> Sized(nodes, Plug(c, y))
        invariant p != HEADER ==> Shrinking(ns0, nodes, c, y, cc, xx) && p == xx.id
        decreases if p == HEADER then 0 else Depth(cc) + 1
      {
        ShrinkAdvance(ns0, nodes, c, y, cc, xx);
        nodes := nodes[p := nodes[p].(size := nodes[p].size - 1)];
        p := nodes[p].parent;
        if !cc.Top? {
          cc, xx := cc.up, Lift(cc, xx);
        }
      }
    }

    /**
      * The new leftmost and rightmost nodes case 1 of erase_node needs: those
      * of t's only child x, found only when the header names t as its
      * leftmost or rightmost node and x is not null.
      */
    method UnlinkExtremes(t: int, x: int, ghost c: Ctx, ghost s: Tree) returns (lo: int, hi: int)
      requires Valid() && tree == Plug(c, s) && s.Node? && t == s.id && (s.left.Nil? || s.right.Nil?)
      requires x == RootOf(OnlyChild(s))
      ensures OnlyChild(s).Node? && nodes[HEADER].left == t ==> lo == Leftmost(OnlyChild(s))
      ensures OnlyChild(s).Node? && nodes[HEADER].right == t ==> hi == Rightmost(OnlyChild(s))
    {
      ghost var y := OnlyChild(s);
      ghost var cy := if s.left.Node? then InLeft(c, t, s.key, Nil) else InRight(Nil, t, s.key, c);
      assert Plug(cy, y) == tree;
      UnlinkPre(nodes, c, s);
      lo, hi := HEADER, HEADER;
      if x != NIL && t == nodes[HEADER].left {
        LinkedSplit(nodes, cy, y);
        lo := LeftmostFrom(x, HoleParent(cy), y);
      }
      if x != NIL && t == nodes[HEADER].right {
        LinkedSplit(nodes, cy, y);
        hi := RightmostFrom(x, HoleParent(cy), y);
      }
    }

    /**
      * The pointer stores of case 1 of erase_node, in the order written:
      * the child x (when there is one) takes t's parent tp as its parent,
      * the pointer that named t names x, and the header's leftmost and
      * rightmost pointers, when they named t, move to lo and hi (x's
      * extreme nodes), or to tp when x is null.
      */
    method SpliceOut(t: int, x: int, tp: int, lo: int, hi: int)
      requires 0 < t < |nodes| && 0 <= tp < |nodes| && (x == NIL || (0 < x < |nodes| && x != tp))
      requires tp == HEADER ==> nodes[HEADER].parent == t
      modifies this
      ensures |nodes| == old(|nodes|) && tree == old(tree)
      ensures x != NIL ==> nodes[x] == old(nodes[x]).(parent := tp)
      ensures nodes[HEADER].parent == if old(nodes[HEADER].parent) == t then x else old(nodes[HEADER].parent)
      ensures tp != HEADER && old(nodes[HEADER].parent) != t ==>
        nodes[tp] == if old(nodes[tp].left) == t then old(nodes[tp]).(left := x) else old(nodes[tp]).(right := x)
      ensures forall j :: 0 < j < |nodes| && j != x && j != tp ==> nodes[j] == old(nodes[j])
      ensures nodes[HEADER].left == if old(nodes[HEADER].left) == t then (if x != NIL then lo else tp)
                                    else old(nodes[HEADER].left)
      ensures nodes[HEADER].right == if old(nodes[HEADER].right) == t then (if x != NIL then hi else tp)
                                     else old(nodes[HEADER].right)
      ensures nodes[HEADER].size == old(nodes[HEADER].size)
    {
      if x != NIL {
        nodes := nodes[x := nodes[x].(parent := tp)];
      }
      if t == nodes[HEADER].parent {
        nodes := nodes[HEADER := nodes[HEADER].(parent := x)];
      } else if t == nodes[tp].left {
        nodes := nodes[tp := nodes[tp].(left := x)];
      } else {
        nodes := nodes[tp := nodes[tp].(right := x)];
      }
      if t == nodes[HEADER].left {
        nodes := nodes[HEADER := nodes[HEADER].(left := if x != NIL then lo else tp)];
      }
      if t == nodes[HEADER].right {
        nodes := nodes[HEADER := nodes[HEADER].(right := if x != NIL then hi else tp)];
      }
    }

    /**
      * The tail of both halves of case 2 of erase_node: the pointer that
      * named t (the header's root pointer or a child pointer of t's parent)
      * names x, and x takes t's parent and t's size.
      */
    method TakePlace(t: int, x: int)
      requires 0 < t < |nodes| && 0 < x < |nodes| && x != t
      requires var tp := nodes[t].parent;
        0 <= tp < |nodes| && tp != t && tp != x && (tp == HEADER <==> nodes[HEADER].parent == t)
      modifies this
      ensures var o := old(nodes);
        var tp := o[t].parent;
        |nodes| == |o| && tree == old(tree) &&
        nodes[x] == o[x].(parent := tp, size := o[t].size) &&
        nodes[HEADER] == (if tp == HEADER then o[HEADER].(parent := x) else o[HEADER]) &&
        (tp != HEADER ==> nodes[tp] == if o[tp].left == t then o[tp].(left := x) else o[tp].(right := x)) &&
        (forall j :: 0 < j < |o| && j != x && j != tp ==> nodes[j] == o[j])
    {
      var tp := nodes[t].parent;
      if t == nodes[HEADER].parent {
        nodes := nodes[HEADER := nodes[HEADER].(parent := x)];
      } else if t == nodes[tp].left {
        nodes := nodes[tp := nodes[tp].(left := x)];
      } else {
        nodes := nodes[tp := nodes[tp].(right := x)];
      }
      nodes := nodes[x := nodes[x].(parent := tp)];
      nodes := nodes[x := nodes[x].(size := nodes[t].size)];
    }

    /**
      * The successor x of t lies deeper than t's right child tr: x's right
      * subtree takes x's place under x's parent xp, and x adopts tr. Answers
      * xp, where the rebalancing starts.
      */
    method SuccessorBypass(t: int, x: int) returns (parent: int)
      requires 0 < t < |nodes| && 0 < x < |nodes|
      requires var tr, xp, xr := nodes[t].right, nodes[x].parent, nodes[x].right;
        0 < tr < |nodes| && 0 < xp < |nodes| && (xr == NIL || 0 < xr < |nodes|) &&
        x != tr && x != xp && x != xr && xp != xr && xr != tr
      modifies this
      ensures var o := old(nodes);
        var tr, xp, xr := o[t].right, o[x].parent, o[x].right;
        |nodes| == |o| && tree == old(tree) && parent == xp &&
        nodes[x] == o[x].(right := tr) &&
        nodes[tr] == (if tr == xp then o[tr].(left := xr, parent := x) else o[tr].(parent := x)) &&
        (xp != tr ==> nodes[xp] == o[xp].(left := xr)) &&
        (xr != NIL ==> nodes[xr] == o[xr].(parent := xp)) &&
        (forall j :: 0 <= j < |o| && j != x && j != tr && j != xp && j != xr ==> nodes[j] == o[j])
    {
      var tr, xp, xr := nodes[t].right, nodes[x].parent, nodes[x].right;
      nodes := nodes[xp := nodes[xp].(left := xr)];
      if xr != NIL {
        nodes := nodes[xr := nodes[xr].(parent := xp)];
      }
      nodes := nodes[tr := nodes[tr].(parent := x)];
      nodes := nodes[x := nodes[x].(right := tr)];
      parent := nodes[x].parent;
    }

    /**
      * The pointer stores of case 2 of erase_node when the successor x of t
      * takes t's place, in the order written: x adopts t's left subtree;
      * unless x is t's right child, x's right subtree moves up into x's
      * place under x's parent xp and x adopts t's right subtree; the pointer
      * that named t names x; x takes t's parent and t's size. Answers the
      * node the rebalancing starts from: xp, or x itself when x was t's
      * right child.
      */
    method SuccessorStores(t: int, x: int) returns (parent: int)
      requires SuccessorSlotsOk(nodes, t, x)
      modifies this
      ensures SuccessorStored(old(nodes), nodes, t, x, parent) && tree == old(tree)
    {
      var tl, tr := nodes[t].left, nodes[t].right;
      nodes := nodes[tl := nodes[tl].(parent := x)];
      nodes := nodes[x := nodes[x].(left := tl)];
      if x != tr {
        parent := SuccessorBypass(t, x);
      } else {
        parent := x;
      }
      TakePlace(t, x);
    }

    /**
      * The first half of case 2 of erase_node with the successor: x is
      * found as the leftmost node of t's right subtree, flag says whether
      * x is its parent's right child, and the sizes from x's parent up are
      * decremented.
      */
    method SuccessorShrink(t: int, ghost c: Ctx, ghost s: Tree) returns (x: int, flag: bool)
      requires Valid() && tree == Plug(c, s) && s.Node? && t == s.id && s.left.Node? && s.right.Node?
      modifies this
      ensures Shrunk(old(nodes), nodes, Plug(c, Node(s.left, s.id, s.key, RemoveMin(s.right))))
      ensures tree == old(tree) && x == MinSub(s.right).id && flag == s.right.left.Nil?
      ensures 0 < t < |nodes| && 0 < x < |nodes| && nodes[t].right == s.right.id && (x == s.right.id <==> flag)
      ensures nodes[x].parent == HoleParent(MinCtx(InRight(s.left, s.id, s.key, c), s.right))
    {
      ghost var cr := InRight(s.left, t, s.key, c);
      ghost var cm, mx := MinCtx(cr, s.right), MinSub(s.right);
      SuccessorIds(c, s, |nodes|);
      SuccessorSlots(nodes, c, s);
      LinkedSplit(nodes, cr, s.right);
      x := LeftmostFrom(nodes[t].right, HoleParent(cr), s.right);
      var xp := nodes[x].parent;
      flag := x == nodes[xp].right;
      SuccessorShrinkPre(nodes, c, s);
      ShrinkPath(xp, cm, mx.right, x);
    }

    /**
      * Case 2 of erase_node with the successor, when t has two children and
      * its left subtree is the smaller: t's successor x takes t's place.
      * Answers where the rebalancing climb starts and on which side.
      */
    method ReplaceBySuccessor(t: int, ghost c: Ctx, ghost s: Tree) returns (p0: int, flag: bool)
      requires Valid() && tree == Plug(c, s) && s.Node? && t == s.id && s.left.Node? && s.right.Node?
      requires Trees.Size(s.left) < Trees.Size(s.right)
      modifies this
      ensures Holds(nodes, tree) && tree == Plug(c, Replacement(s)) && |nodes| == old(|nodes|)
      ensures var h := Removal(c, s);
        tree == Plug(h.0, h.1) && p0 == HoleParent(h.0) && (!h.0.Top? ==> flag == h.0.InRight?)
    {
      ghost var ns := nodes;
      var x;
      x, flag := SuccessorShrink(t, c, s);
      ghost var ns0 := nodes;
      SuccessorReady(ns, ns0, c, s);
      p0 := SuccessorStores(t, x);
      SuccessorRelink(ns, ns0, nodes, c, s, p0);
      SuccessorHole(c, s);
      tree := Plug(c, Replacement(s));
    }

    /**
      * The predecessor x of t lies deeper than t's left child tl: x's left
      * subtree takes x's place under x's parent xp, and x adopts tl. Answers
      * xp, where the rebalancing starts.
      */
    method PredecessorBypass(t: int, x: int) returns (parent: int)
      requires 0 < t < |nodes| && 0 < x < |nodes|
      requires var tl, xp, xl := nodes[t].left, nodes[x].parent, nodes[x].left;
        0 < tl < |nodes| && 0 < xp < |nodes| && (xl == NIL || 0 < xl < |nodes|) &&
        x != tl && x != xp && x != xl && xp != xl && xl != tl
      modifies this
      ensures var o := old(nodes);
        var tl, xp, xl := o[t].left, o[x].parent, o[x].left;
        |nodes| == |o| && tree == old(tree) && parent == xp &&
        nodes[x] == o[x].(left := tl) &&
        nodes[tl] == (if tl == xp then o[tl].(right := xl, parent := x) else o[tl].(parent := x)) &&
        (xp != tl ==> nodes[xp] == o[xp].(right := xl)) &&
        (xl != NIL ==> nodes[xl] == o[xl].(parent := xp)) &&
        (forall j :: 0 <= j < |o| && j != x && j != tl && j != xp && j != xl ==> nodes[j] == o[j])
    {
      var tl, xp, xl := nodes[t].left, nodes[x].parent, nodes[x].left;
      nodes := nodes[xp := nodes[xp].(right := xl)];
      if xl != NIL {
        nodes := nodes[xl := nodes[xl].(parent := xp)];
      }
      nodes := nodes[tl := nodes[tl].(parent := x)];
      nodes := nodes[x := nodes[x].(left := tl)];
      parent := nodes[x].parent;
    }

    /**
      * The pointer stores of case 2 of erase_node when the predecessor x of
      * t takes t's place, in the order written: the mirror image of
      * SuccessorStores.
      */
    method PredecessorStores(t: int, x: int) returns (parent: int)
      requires PredecessorSlotsOk(nodes, t, x)
      modifies this
      ensures PredecessorStored(old(nodes), nodes, t, x, parent) && tree == old(tree)
    {
      var tl, tr := nodes[t].left, nodes[t].right;
      nodes := nodes[tr := nodes[tr].(parent := x)];
      nodes := nodes[x := nodes[x].(right := tr)];
      if x != tl {
        parent := PredecessorBypass(t, x);
      } else {
        parent := x;
      }
      TakePlace(t, x);
    }

    /**
      * The first half of case 2 of erase_node with the predecessor: the
      * mirror image of SuccessorShrink.
      */
    method PredecessorShrink(t: int, ghost c: Ctx, ghost s: Tree) returns (x: int, flag: bool)
      requires Valid() && tree == Plug(c, s) && s.Node? && t == s.id && s.left.Node? && s.right.Node?
      modifies this
      ensures Shrunk(old(nodes), nodes, Plug(c, Node(RemoveMax(s.left), s.id, s.key, s.right)))
      ensures tree == old(tree) && x == MaxSub(s.left).id && flag == s.left.right.Node?
      ensures 0 < t < |nodes| && 0 < x < |nodes| && nodes[t].left == s.left.id && (x == s.left.id <==> !flag)
      ensures nodes[x].parent == HoleParent(MaxCtx(InLeft(c, s.id, s.key, s.right), s.left))
    {
      ghost var cl := InLeft(c, t, s.key, s.right);
      ghost var cm, mx := MaxCtx(cl, s.left), MaxSub(s.left);
      PredecessorIds(c, s, |nodes|);
      PredecessorSlots(nodes, c, s);
      LinkedSplit(nodes, cl, s.left);
      x := RightmostFrom(nodes[t].left, HoleParent(cl), s.left);
      var xp := nodes[x].parent;
      flag := x == nodes[xp].right;
      PredecessorShrinkPre(nodes, c, s);
      ShrinkPath(xp, cm, mx.left, x);
    }

    /**
      * Case 2 of erase_node with the predecessor, when t has two children
      * and its right subtree is not the larger: the mirror image of
      * ReplaceBySuccessor.
      */
    method ReplaceByPredecessor(t: int, ghost c: Ctx, ghost s: Tree) returns (p0: int, flag: bool)
      requires Valid() && tree == Plug(c, s) && s.Node? && t == s.id && s.left.Node? && s.right.Node?
      requires Trees.Size(s.right) <= Trees.Size(s.left)
      modifies this
      ensures Holds(nodes, tree) && tree == Plug(c, Replacement(s)) && |nodes| == old(|nodes|)
      ensures var h := Removal(c, s);
        tree == Plug(h.0, h.1) && p0 == HoleParent(h.0) && (!h.0.Top? ==> flag == h.0.InRight?)
    {
      ghost var ns := nodes;
      var x;
      x, flag := PredecessorShrink(t, c, s);
      ghost var ns0 := nodes;
      PredecessorReady(ns, ns0, c, s);
      p0 := PredecessorStores(t, x);
      PredecessorRelink(ns, ns0, nodes, c, s, p0);
      PredecessorHole(c, s);
      tree := Plug(c, Replacement(s));
    }

    /**
      * Case 1 of erase_node, up to the rebalancing: node t has at most one
      * child x, which takes t's place under t's parent; the header's
      * leftmost and rightmost pointers move off t when they named it, and
      * the sizes on the path above drop by one. Answers where the
      * rebalancing starts and on which side of it the tree shrank.
      */
    method Unlink(t: int, ghost c: Ctx, ghost s: Tree) returns (p0: int, flag: bool)
      requires Valid() && tree == Plug(c, s) && s.Node? && t == s.id && (s.left.Nil? || s.right.Nil?)
      modifies this
      ensures Holds(nodes, tree) && tree == Plug(c, OnlyChild(s)) && |nodes| == old(|nodes|)
      ensures p0 == HoleParent(c) && (!c.Top? ==> flag == c.InRight?)
      ensures c.Top? ==> flag == (t == Rightmost(s))
    {
      ghost var ns := nodes;
      ghost var y := OnlyChild(s);
      UnlinkPre(nodes, c, s);
      var x := if nodes[t].left != NIL then nodes[t].left else nodes[t].right;
      var tp := nodes[t].parent;
      flag := t == nodes[tp].right;
      var lo, hi := UnlinkExtremes(t, x, c, s);
      SpliceOut(t, x, tp, lo, hi);
      ghost var m := nodes;
      UnlinkSpliced(ns, m, c, s, lo, hi);
      ShrinkPath(tp, c, y, RootOf(y));
      Resized(m, nodes, Plug(c, y));
      tree := Plug(c, y);
      p0 := tp;
    }

    /**
      * One call p = erase_rebalance(q, flag), which is insert_rebalance(q,
      * !flag), on the parent q of subtree y in context c: on the header it
      * returns the header and reports whether it would rotate, elsewhere
      * it maintains the node above y on the side that shrank.
      */
    method EraseStep(q: int, flag: bool, ghost c: Ctx, ghost y: Tree) returns (p: int, ghost rotates: bool)
      requires Holds(nodes, tree) && tree == Plug(c, y) && q == HoleParent(c)
      requires !c.Top? ==> flag == c.InRight?
      modifies this
      ensures Holds(nodes, tree) && |nodes| == old(|nodes|)
      ensures c.Top? ==> p == HEADER && tree == y && (rotates <==> y.Node? && HeaderFires(y, !flag))
      ensures !c.Top? ==> !rotates && tree == Plug(c.up, Maintain(Lift(c, y), !flag))
      ensures !c.Top? ==> p == Maintain(Lift(c, y), !flag).id
    {
      PlugHoleParentIn(c, y, |nodes|);
      rotates := false;
      if q == HEADER {
        var fires;
        p, fires := HeaderRebalance(!flag);
        rotates := fires;
      } else {
        p := InsertRebalance(q, !flag, c.up, Lift(c, y));
      }
    }

    /**
      * The rebalancing after an erasure: p = erase_rebalance(p0, flag), then
      * p = erase_rebalance(p->parent, p == p->parent->right) until p is the
      * header. The tree shrank in the hole of c, on the side flag names, and
      * every node above it is maintained on that side, bottom-up.
      */
    method EraseClimb(p0: int, flag: bool, ghost c: Ctx, ghost y: Tree) returns (ghost rotates: bool)
      requires Holds(nodes, tree) && tree == Plug(c, y) && p0 == HoleParent(c)
      requires !c.Top? ==> flag == c.InRight?
      modifies this
      ensures Holds(nodes, tree) && tree == EraseUp(c, y) && |nodes| == old(|nodes|)
      ensures rotates ==> HeaderDue(tree)
      ensures c.Top? ==> (rotates <==> tree.Node? && HeaderFires(tree, !flag))
      ensures !c.Top? ==> tree.Node? && (rotates <==> HeaderFires(tree, tree.id != Rightmost(tree)))
    {
      var p;
      ghost var cc, xx := c, y;
      p, rotates := EraseStep(p0, flag, c, y);
      if !c.Top? {
        cc, xx := c.up, Maintain(Lift(c, y), !flag);
        CtxLinks(nodes, cc, xx);
      }
      while p != HEADER
        invariant Holds(nodes, tree) && |nodes| == old(|nodes|)
        invariant p == HEADER ==> tree == EraseUp(c, y) && (rotates ==> HeaderDue(tree))
        invariant p == HEADER && c.Top? ==> (rotates <==> tree.Node? && HeaderFires(tree, !flag))
        invariant p == HEADER && !c.Top? ==> tree.Node? && (rotates <==> HeaderFires(tree, tree.id != Rightmost(tree)))
        invariant p != HEADER ==> !c.Top?
        invariant p != HEADER ==> !rotates && tree == Plug(cc, xx) && xx.Node? && p == xx.id
        invariant p != HEADER ==> EraseUp(cc, xx) == EraseUp(c, y)
        decreases if p == HEADER then 0 else Depth(cc) + 1
      {
        CtxLinks(nodes, cc, xx);
        var q := nodes[p].parent;
        var f := p == nodes[q].right;
        ghost var c1, x1 := cc, xx;
        assert c1.Top? ==> tree == x1 && f == (x1.id == Rightmost(x1));
        p, rotates := EraseStep(q, f, cc, xx);
        if !c1.Top? {
          cc, xx := c1.up, Maintain(Lift(c1, x1), !f);
          CtxLinks(nodes, cc, xx);
        }
      }
    }
  
    /**
      * erase_node(t): t is unlinked (at most one child) or replaced by its
      * successor or predecessor (two children, chosen by comparing the
      * children's sizes), then the rebalancing climbs from the hole to the
      * header. Exactly t's entry leaves the in-order sequence, at t's
      * position, and the tree stays ordered. The slot of t stays in the
      * store, unlinked. The state described is the model's, whose header
      * call never rotates; rotates says whether the source's would, which
      * happens only if the tree left behind is not balanced.
      */
    method EraseNode(t: int) returns (ghost rotates: bool)
      requires Valid() && t in Ids(tree)
      modifies this
      ensures Valid() && tree == EraseTree(old(tree), t) && |nodes| == old(|nodes|)
      ensures var E, p := Entries(old(tree)), Position(old(tree), t);
        Entries(tree) == E[..p] + E[p + 1..] && Ids(tree) == Ids(old(tree)) - {t}
      ensures rotates <==> EraseFires(old(tree), t)
      ensures rotates ==> HeaderDue(tree)
      ensures Balanced(tree) ==> !rotates
    {
      ghost var t0 := tree;
      ghost var c, s := Locate(tree, t).0, Locate(tree, t).1;
      ghost var h := Removal(c, s);
      NodeLinks(nodes, c, s);
      var p0, flag;
      if nodes[t].left == NIL || nodes[t].right == NIL {
        p0, flag := Unlink(t, c, s);
      } else {
        if nodes[nodes[t].left].size < nodes[nodes[t].right].size {
          p0, flag := ReplaceBySuccessor(t, c, s);
        } else {
          p0, flag := ReplaceByPredecessor(t, c, s);
        }
      }
      RemovalTop(c, s);
      LocateTop(t0, t);
      rotates := EraseClimb(p0, flag, h.0, h.1);
      EraseEntries(t0, t);
      EraseFiresDue(t0, t);
    }
  
    /**
      * erase(pos): from a node, the iterator past it is taken before the
      * node is erased; end() erases nothing. The iterator returned names the
      * entry that followed the erased one, which now stands at its position.
      * Like EraseNode it describes the model's state and reports whether the
      * source's header call would rotate.
      */
    method EraseAt(pos: int) returns (next: int, ghost rotates: bool)
      requires Valid() && (pos == HEADER || pos in Ids(tree))
      modifies this
      ensures |nodes| == old(|nodes|)
      ensures pos == HEADER ==> next == HEADER && tree == old(tree) && nodes == old(nodes) && !rotates
      ensures pos != HEADER ==> next == NodeAt(Entries(old(tree)), Position(old(tree), pos) + 1)
      ensures pos != HEADER ==> (rotates <==> EraseFires(old(tree), pos))
      ensures pos != HEADER && Balanced(EraseTree(old(tree), pos)) ==> !rotates
      ensures Valid()
      ensures pos != HEADER ==>
        var E, p := Entries(old(tree)), Position(old(tree), pos);
        tree == EraseTree(old(tree), pos) && Entries(tree) == E[..p] + E[p + 1..] &&
        next == NodeAt(Entries(tree), p)
    {
      next := pos;
      rotates := false;
      if pos != HEADER {
        ghost var E, p := Entries(tree), Position(tree, pos);
        next := Increment(next);
        rotates := EraseNode(pos);
        NodeAtDrop(E, p, p);
      }
    }

    /**
      * One turn of erase(key)'s loop: the iterator first is advanced and
      * the node it named is erased, the n-th of the block [lo, hi) of E0,
      * and n' counts it. Like EraseNode it describes the model's state and
      * reports whether the source's header call would rotate.
      */
    method EraseNext(ghost E0: seq<Entry>, ghost lo: nat, ghost hi: nat, n: nat, first: int, last: int)
      returns (next: int, n': nat, ghost rotates: bool)
      requires Valid() && Erasing(E0, lo, hi, n, Entries(tree), first, last) && lo + n < hi
      modifies this
      ensures Valid() && |nodes| == old(|nodes|) && n' == n + 1
      ensures Erasing(E0, lo, hi, n', Entries(tree), next, last)
      ensures lo + n' < hi ==> next != last
      ensures first in Ids(old(tree)) && (rotates <==> EraseFires(old(tree), first))
      ensures Balanced(tree) ==> !rotates
    {
      ErasingAt(tree, E0, lo, hi, n, first, last);
      ghost var t0 := tree;
      next := Increment(first);
      n' := n + 1;
      rotates := EraseNode(first);
      EraseKeyNext(t0, tree, E0, lo, hi, n, first, last, next);
    }

    /**
      * erase(key): the nodes from lower_bound(key) up to upper_bound(key)
      * are erased one by one, each iterator advanced before its node goes.
      * Answers how many entries held the key; exactly those leave the
      * in-order sequence, which keeps its order. rotates is set when some
      * erasure's header call would rotate in the source.
      */
    method EraseKey(key: int) returns (n: int, ghost rotates: bool)
      requires Valid()
      modifies this
      ensures |nodes| == old(|nodes|)
      ensures n == 0 ==> !rotates
      ensures Valid()
      ensures var E := Entries(old(tree));
        n == CountKey(E, key) && Entries(tree) == E[..LowerIndex(E, key)] + E[UpperIndex(E, key)..]
      ensures forall e :: e in Entries(tree) ==> e.key != key
    {
      rotates := false;
      ghost var E0 := Entries(tree);
      ghost var lo, hi := LowerIndex(E0, key), UpperIndex(E0, key);
      n := 0;
      var first := LowerBound(key);
      var last := UpperBound(key);
      KeyBlock(E0, key);
      EraseKeyStart(E0, lo, hi, first, last);
      if lo < hi {
        NodeAtApart(tree, lo, hi);
      }
      ghost var E := E0;
      while first != last
        invariant Valid() && |nodes| == old(|nodes|) && E == Entries(tree)
        invariant Erasing(E0, lo, hi, n, E, first, last)
        invariant lo + n < hi ==> first != last
        invariant n == 0 ==> !rotates
        decreases hi - lo - n
      {
        ghost var fires;
        first, n, fires := EraseNext(E0, lo, hi, n, first, last);
        rotates, E := rotates || fires, Entries(tree);
      }
      EraseKeyEnd(E0, key, n, E, first, last);
    }

    /**
      * erase_root: destroys every node, children before their parent. The
      * destroyed nodes are answered in the order destroy_node meets them;
      * their slots keep everything but their child pointers, which end up
      * nullptr. Of the header only the pointer that named the root, if any,
      * is cleared; nothing is left of the tree.
      */
    method EraseRoot() returns (freed: seq<int>)
      requires Valid() && nodes[HEADER].parent != NIL
      modifies this
      ensures tree == Nil && freed == PostOrder(old(tree)) && TornDown(old(nodes), nodes, old(tree))
      ensures nodes[HEADER] ==
        if old(nodes[HEADER].parent) == old(nodes[HEADER].left) then old(nodes[HEADER]).(left := NIL)
        else old(nodes[HEADER]).(right := NIL)
    {
      ghost var ns0, T0 := nodes, tree;
      HoldsRoot(nodes, tree);
      TearStart(nodes, tree);
      ghost var c: Ctx, s := Top, tree;
      freed := [];
      var cur := nodes[HEADER].parent;
      while cur != HEADER
        invariant Tearing(ns0, nodes, T0, c, s, freed, cur)
        invariant cur == HEADER ==>
          nodes[HEADER] == if nodes[HEADER].parent == ns0[HEADER].left then ns0[HEADER].(left := NIL) else ns0[HEADER].(right := NIL)
        decreases Trees.Size(Plug(c, s)), Trees.Size(s)
      {
        ghost var T, S := Plug(c, s), Trees.Size(s);
        TearAt(ns0, nodes, T0, c, s, freed, cur);
        while nodes[cur].left != NIL
          invariant Tearing(ns0, nodes, T0, c, s, freed, cur) && cur != HEADER && 0 < cur < |nodes|
          invariant nodes[cur].left == RootOf(s.left) && nodes[cur].right == RootOf(s.right)
          invariant (s.left.Nil? <==> nodes[cur].left == NIL) && (s.right.Nil? <==> nodes[cur].right == NIL)
          invariant nodes[cur].parent == HoleParent(c) && 0 <= HoleParent(c) < |nodes|
          invariant Plug(c, s) == T && Trees.Size(s) <= S
          decreases Trees.Size(s)
        {
          TearLeft(ns0, nodes, T0, c, s, freed, cur);
          cur := nodes[cur].left;
          c, s := InLeft(c, s.id, s.key, s.right), s.left;
          TearAt(ns0, nodes, T0, c, s, freed, cur);
        }
        if nodes[cur].right != NIL {
          TearRight(ns0, nodes, T0, c, s, freed, cur);
          cur := nodes[cur].right;
          c, s := InRight(s.left, s.id, s.key, c), s.right;
        } else {
          ghost var ns := nodes;
          var next := nodes[cur].parent;
          if cur == nodes[next].left {
            nodes := nodes[next := nodes[next].(left := NIL)];
          } else {
            nodes := nodes[next := nodes[next].(right := NIL)];
          }
          // destroy_node(cur)
          freed := freed + [cur];
          TearDestroy(ns0, ns, nodes, T0, c, s, freed[..|freed| - 1], cur, next);
          cur := next;
          c, s := Pop(c).0, Pop(c).1;
        }
      }
      TearEnd(ns0, nodes, T0, freed);
      tree := Nil;
    }

    /**
      * clear(): a non-empty tree is torn down and the header reset to the
      * empty tree's; the destroyed nodes are answered as erase_root
      * answers them.
      */
    method Clear() returns (freed: seq<int>)
      requires Valid()
      modifies this
      ensures Valid() && tree == Nil && freed == PostOrder(old(tree)) && TornDown(old(nodes), nodes, old(tree))
      ensures nodes[HEADER] == old(nodes[HEADER]).(parent := NIL, left := HEADER, right := HEADER)
    {
      freed := [];
      if nodes[HEADER].parent != NIL {
        freed := EraseRoot();
        nodes := nodes[HEADER := nodes[HEADER].(parent := NIL)];
        nodes := nodes[HEADER := nodes[HEADER].(left := HEADER)];
        nodes := nodes[HEADER := nodes[HEADER].(right := HEADER)];
      } else {
        HoldsRoot(nodes, tree);
      }
    }
  
    // -------------------------------------------------------------------
    // copy_node: the copy constructor's clone of another tree

    /**
      * One pass of copy_node's loop, and what it keeps: the walk stays a
      * copy in progress, one step further along the primitive walk of T, and
      * it has either added a node or come closer to the root.
      */
    method CopyStep(on: seq<NodeRec>, ghost b: int, ghost T: Tree, ghost sp: Spot, src: int, dst: int, flag: bool)
      returns (src': int, dst': int, flag': bool, ghost sp': Spot)
      requires Holds(on, T) && T.Node?
      requires CopyAt(nodes, b, T, sp, dst, flag) && src == SpotId(sp) && sp != AtNode(Top, T, Parent)
      modifies this
      ensures (nodes, dst', flag') == CopyNext(old(nodes), b, T, sp, dst, flag)
      ensures sp' == PrimNext(T, sp) && src' == SpotId(sp') && tree == old(tree)
      ensures CopyAt(nodes, b, T, sp', dst', flag') && |nodes| <= b + Trees.Size(T) && nodes[..b] == old(nodes[..b])
      ensures |nodes| == old(|nodes|) + 1 || CopyRank(sp') < CopyRank(sp)
      ensures src' == T.id <==> sp' == AtNode(Top, T, Parent)
    {
      CopyNextAt(nodes, b, T, sp, dst, flag);
      RootSpot(on, T, PrimNext(T, sp));
      src', dst', flag' := CopyBranch(on, b, T, sp, src, dst, flag);
      sp' := PrimNext(T, sp);
    }

    /**
      * The four branches of copy_node's loop. The source walk reads other's store as
      * the primitive iterator does, without its test for the root (copy_node
      * stops at the root before that test could matter); each step down or
      * across creates the copy of the node it enters, hung below dst or
      * below dst's parent, and a step up moves dst to its parent.
      */
    method CopyBranch(on: seq<NodeRec>, ghost b: int, ghost T: Tree, ghost sp: Spot, src: int, dst: int, flag: bool)
      returns (src': int, dst': int, flag': bool)
      requires Holds(on, T) && T.Node?
      requires CopyAt(nodes, b, T, sp, dst, flag) && src == SpotId(sp) && sp != AtNode(Top, T, Parent)
      modifies this
      ensures (nodes, dst', flag') == CopyNext(old(nodes), b, T, sp, dst, flag)
      ensures src' == SpotId(PrimNext(T, sp)) && tree == old(tree)
    {
      CopyAtParent(nodes, b, T, sp, dst, flag);
      CopyReads(on, T, sp, flag);
      if flag && on[src].left != NIL {
        src' := on[src].left;
        var n := |nodes|;
        nodes := nodes + [NodeRec(dst, NIL, NIL, on[src'].size, on[src'].data)];
        nodes := nodes[dst := nodes[dst].(left := n)];
        dst', flag' := n, true;
      } else if flag && on[src].right != NIL {
        src' := on[src].right;
        var n := |nodes|;
        nodes := nodes + [NodeRec(dst, NIL, NIL, on[src'].size, on[src'].data)];
        nodes := nodes[dst := nodes[dst].(right := n)];
        dst', flag' := n, true;
      } else if on[on[src].parent].right != NIL && src != on[on[src].parent].right {
        src' := on[on[src].parent].right;
        var n, pd := |nodes|, nodes[dst].parent;
        nodes := nodes + [NodeRec(pd, NIL, NIL, on[src'].size, on[src'].data)];
        nodes := nodes[pd := nodes[pd].(right := n)];
        dst', flag' := n, true;
      } else {
        src', dst', flag' := on[src].parent, nodes[dst].parent, false;
      }
    }

    /**
      * The start of copy_node: the root t of T, read from the store on, is
      * copied into a fresh slot whose parent is the header, and the header
      * names it as the root. The walk then stands on the copy, about to
      * descend.
      */
    method CopyRoot(on: seq<NodeRec>, ghost T: Tree, t: int) returns (dst: int)
      requires 0 < |nodes| && Holds(on, T) && T.Node? && t == T.id
      modifies this
      ensures dst == old(|nodes|) && tree == old(tree)
      ensures nodes == (old(nodes) + [NodeRec(HEADER, NIL, NIL, Trees.Size(T), T.key)])[HEADER := old(nodes[HEADER]).(parent := dst)]
      ensures CopyAt(nodes, dst, T, AtNode(Top, T, Root), dst, true)
    {
      NodeLinks(on, Top, T);
      var n := |nodes|;
      nodes := nodes + [NodeRec(HEADER, NIL, NIL, on[t].size, on[t].data)];
      nodes := nodes[HEADER := nodes[HEADER].(parent := n)];
      dst := n;
      CopyStart(old(nodes), T, nodes);
    }

    /**
      * The end of copy_node: with the copy of T linked and sized from slot b
      * on and the header naming its root, header->left and header->right
      * are pointed at the copy's minimum and maximum, found by walking down
      * from the root. Then the store holds the copy.
      */
    method CopyEnds(ghost b: int, ghost T: Tree)
      requires T.Node? && 0 < b && |nodes| == b + Trees.Size(T) && tree == Renumber(T, b)
      requires Linked(nodes, tree, HEADER) && Sized(nodes, tree) && tree.Node? && tree.id == b
      requires nodes[HEADER].parent == b && nodes[HEADER].size == 0
      modifies this
      ensures tree == old(tree) && Holds(nodes, tree)
      ensures nodes == old(nodes)[HEADER := old(nodes[HEADER]).(left := Leftmost(tree), right := Rightmost(tree))]
    {
      var lo := LeftmostFrom(nodes[HEADER].parent, HEADER, tree);
      var hi := RightmostFrom(nodes[HEADER].parent, HEADER, tree);
      ghost var ns := nodes;
      nodes := nodes[HEADER := nodes[HEADER].(left := lo)];
      nodes := nodes[HEADER := nodes[HEADER].(right := hi)];
      CopyHolds(ns, b, T, nodes);
    }

    /**
      * copy_node(t), t being the root of the non-empty tree other, into this
      * empty tree: the copy's nodes take fresh slots from b on, in the
      * pre-order the walk enters them, and have the source's shape, keys and
      * sizes; the header points at the copy's root, minimum and maximum, and
      * no slot before b but the header changes.
      */
    method CopyNode(other: SbTree, t: int)
      requires Valid() && tree.Nil? && other != this && other.Valid() && other.tree.Node? && t == other.tree.id
      modifies this
      ensures Valid() && tree == Renumber(old(other.tree), old(|nodes|)) && Congruent(tree, old(other.tree))
      ensures |nodes| == old(|nodes|) + Trees.Size(tree)
      ensures forall j :: 0 <= j < Trees.Size(tree) ==> PreOrder(tree)[j] == old(|nodes|) + j
      ensures nodes[HEADER] == old(nodes[HEADER]).(parent := old(|nodes|), left := Leftmost(tree), right := Rightmost(tree))
      ensures forall j :: 0 < j < old(|nodes|) ==> nodes[j] == old(nodes[j])
    {
      ghost var T, b := other.tree, |nodes|;
      ghost var ns0 := nodes;
      var on := other.nodes;
      var flag, src := true, t;
      var dst := CopyRoot(on, T, t);
      ghost var ns1 := nodes;
      ghost var sp := AtNode(Top, T, Root);
      var done := false;
      while !done
        invariant CopyAt(nodes, b, T, sp, dst, flag) && src == SpotId(sp)
        invariant done <==> sp == AtNode(Top, T, Parent)
        invariant b <= |nodes| <= b + Trees.Size(T)
        invariant nodes[..b] == ns1[..b]
        decreases if done then 0 else 1, b + Trees.Size(T) - |nodes|, CopyRank(sp)
      {
        src, dst, flag, sp := CopyStep(on, b, T, sp, src, dst, flag);
        done := src == t;
      }
      CopyComplete(nodes, b, T, dst);
      ghost var ns2 := nodes;
      assert ns2[HEADER] == ns0[HEADER].(parent := b) && forall j :: 0 < j < b ==> ns2[j] == ns0[j] by {
        assert ns2[..b][HEADER] == ns1[..b][HEADER];
        forall j | 0 < j < b
          ensures ns2[j] == ns0[j]
        {
          assert ns2[..b][j] == ns1[..b][j];
        }
      }
      tree := Renumber(T, b);
      CopyEnds(b, T);
      CopyOrdered(T, b);
      RenumberCongruent(T, b);
      forall j | 0 <= j < Trees.Size(tree)
        ensures PreOrder(tree)[j] == b + j
      {
        RenumberPreOrder(T, b, j);
      }
    }
  }
}
