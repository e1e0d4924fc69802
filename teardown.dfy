/**
  * Tearing the whole tree down, as erase_root does: starting at the root it
  * walks down to the leftmost node, steps into a right subtree when there is
  * one, and otherwise destroys the leaf it stands on, clearing the parent's
  * pointer to it (the header's left or right pointer for the root) and moving
  * up. The predicate `Tearing` is the loop's state; the lemmas below are its
  * steps.
  */
module Teardown {
  import opened Trees
  import opened Arena

  /** The nodes in the order erase_root destroys them: left subtree, right subtree, node. */
  function PostOrder(t: Tree): (s: seq<int>)
    ensures |s| == Size(t)
  {
    match t
    case Nil => []
    case Node(l, i, _, r) => PostOrder(l) + PostOrder(r) + [i]
  }

  /** Each node of the tree is destroyed, and nothing else is. */
  lemma {:induction false} PostOrderIds(t: Tree)
    ensures forall i :: i in PostOrder(t) <==> i in Ids(t)
  {
    match t
    case Nil =>
    case Node(l, i, _, r) =>
      PostOrderIds(l);
      PostOrderIds(r);
  }

  /** Each node of a tree without repeated nodes is destroyed once. */
  lemma {:induction false} PostOrderDistinct(t: Tree)
    requires Distinct(t)
    ensures forall a, b :: 0 <= a < b < |PostOrder(t)| ==> PostOrder(t)[a] != PostOrder(t)[b]
  {
    match t
    case Nil =>
    case Node(l, i, _, r) =>
      PostOrderDistinct(l);
      PostOrderDistinct(r);
      PostOrderIds(l);
      PostOrderIds(r);
      var L, R := PostOrder(l), PostOrder(r);
      var s := PostOrder(t);
      assert s == L + R + [i];
      forall a, b | 0 <= a < b < |s| ensures s[a] != s[b] {
        if b < |L| {
          assert s[a] == L[a] && s[b] == L[b];
        } else if a < |L| {
          assert s[a] in L;
          if b < |L| + |R| {
            assert s[b] == R[b - |L|];
          }
        } else if b < |L| + |R| {
          assert s[a] == R[a - |L|] && s[b] == R[b - |L|];
        } else {
          assert s[b] == i;
          if a < |L| + |R| {
            assert s[a] == R[a - |L|];
          }
        }
      }
  }

  /** Every node along c whose subtree beside the hole is a left one has lost it already. */
  predicate LeftDone(c: Ctx)
  {
    match c
    case Top => true
    case InLeft(up, _, _, _) => LeftDone(up)
    case InRight(l, _, _, up) => l.Nil? && LeftDone(up)
  }

  /** The nodes of c left to destroy once the hole's subtree is gone, in order. */
  function CtxPost(c: Ctx): seq<int>
  {
    match c
    case Top => []
    case InLeft(up, i, _, r) => PostOrder(r) + [i] + CtxPost(up)
    case InRight(_, i, _, up) => [i] + CtxPost(up)
  }

  lemma {:induction false} PostOrderPlug(c: Ctx, s: Tree)
    requires LeftDone(c)
    ensures PostOrder(Plug(c, s)) == PostOrder(s) + CtxPost(c)
  {
    match c
    case Top =>
    case InLeft(up, i, k, r) =>
      PostOrderPlug(up, Node(s, i, k, r));
    case InRight(l, i, k, up) =>
      PostOrderPlug(up, Node(l, i, k, s));
  }

  /** Plugging a subtree with fewer nodes keeps the nodes distinct. */
  lemma {:induction false} PlugPrune(c: Ctx, s: Tree, s': Tree)
    requires Distinct(Plug(c, s)) && Distinct(s') && Ids(s') <= Ids(s)
    ensures Distinct(Plug(c, s')) && Ids(Plug(c, s')) <= Ids(Plug(c, s))
  {
    match c
    case Top =>
    case InLeft(up, i, k, r) =>
      PlugIds(up, Node(s, i, k, r));
      PlugPrune(up, Node(s, i, k, r), Node(s', i, k, r));
    case InRight(l, i, k, up) =>
      PlugIds(up, Node(l, i, k, s));
      PlugPrune(up, Node(l, i, k, s), Node(l, i, k, s'));
  }

  /** The context and subtree at the parent once the hole's subtree is destroyed. */
  function Pop(c: Ctx): (cs: (Ctx, Tree))
    ensures Plug(cs.0, cs.1) == Plug(c, Nil)
    ensures c.Top? <==> cs.1.Nil?
  {
    match c
    case Top => (Top, Nil)
    case InLeft(up, i, k, r) => (up, Node(Nil, i, k, r))
    case InRight(l, i, k, up) => (up, Node(l, i, k, Nil))
  }

  /**
    * Halfway through erase_root on the store ns0 that held T0: the nodes in
    * freed are destroyed, in post-order, and have no children left; the rest
    * of T0 is Plug(c, s), still linked as before, and cur is the root of s
    * (the header once nothing is left). Only child pointers have changed.
    */
  predicate Tearing(ns0: seq<NodeRec>, ns: seq<NodeRec>, T0: Tree, c: Ctx, s: Tree, freed: seq<int>, cur: int)
  {
    |ns| == |ns0| && 0 < |ns| && ns0[HEADER].parent == RootOf(T0) &&
    Distinct(T0) && (forall i :: i in Ids(T0) ==> 0 < i < |ns|) &&
    LeftDone(c) && Distinct(Plug(c, s)) && Ids(Plug(c, s)) <= Ids(T0) &&
    PostOrder(T0) == freed + PostOrder(Plug(c, s)) &&
    (forall i :: i in freed ==> i in Ids(T0) && i !in Ids(Plug(c, s)) && ns[i].left == NIL && ns[i].right == NIL) &&
    (forall i :: 0 < i < |ns| && i !in Ids(T0) ==> ns[i] == ns0[i]) &&
    (forall i :: i in Ids(T0) ==> ns[i] == ns0[i].(left := ns[i].left, right := ns[i].right)) &&
    (cur == HEADER ==> c == Top && s == Nil && ns[HEADER] == ns0[HEADER].(left := ns[HEADER].left, right := ns[HEADER].right)) &&
    (cur != HEADER ==> s.Node? && cur == s.id && ns[HEADER] == ns0[HEADER] && LinkedTop(ns, Plug(c, s)))
  }

  /** erase_root starts at header->parent with nothing destroyed. */
  lemma {:induction false} TearStart(ns: seq<NodeRec>, T0: Tree)
    requires Holds(ns, T0) && T0.Node?
    ensures ns[HEADER].parent == T0.id && Tearing(ns, ns, T0, Top, T0, [], T0.id)
  {
    assert T0.id in Ids(T0);
  }

  /** The pointers stored at cur are those of s. */
  lemma {:induction false} TearAt(ns0: seq<NodeRec>, ns: seq<NodeRec>, T0: Tree, c: Ctx, s: Tree, freed: seq<int>, cur: int)
    requires Tearing(ns0, ns, T0, c, s, freed, cur) && cur != HEADER
    ensures 0 < cur < |ns| && ns[cur].left == RootOf(s.left) && ns[cur].right == RootOf(s.right)
    ensures (s.left.Nil? <==> ns[cur].left == NIL) && (s.right.Nil? <==> ns[cur].right == NIL)
    ensures ns[cur].parent == HoleParent(c) && 0 <= HoleParent(c) < |ns|
  {
    LinkedSplit(ns, c, s);
    PlugIds(c, s);
    assert cur in Ids(Plug(c, s));
    assert s.left.Node? ==> s.left.id in Ids(Plug(c, s));
    assert s.right.Node? ==> s.right.id in Ids(Plug(c, s));
    assert c.InLeft? || c.InRight? ==> c.id in Ids(Plug(c, s));
  }

  /** while (cur->left) cur = cur->left: the hole moves into the left subtree. */
  lemma {:induction false} TearLeft(ns0: seq<NodeRec>, ns: seq<NodeRec>, T0: Tree, c: Ctx, s: Tree, freed: seq<int>, cur: int)
    requires Tearing(ns0, ns, T0, c, s, freed, cur) && cur != HEADER && s.left.Node?
    ensures Plug(InLeft(c, s.id, s.key, s.right), s.left) == Plug(c, s)
    ensures Tearing(ns0, ns, T0, InLeft(c, s.id, s.key, s.right), s.left, freed, s.left.id)
  {
    PlugIds(c, s);
    assert s.id in Ids(Plug(c, s));
  }

  /** cur = cur->right, taken only once cur has no left child. */
  lemma {:induction false} TearRight(ns0: seq<NodeRec>, ns: seq<NodeRec>, T0: Tree, c: Ctx, s: Tree, freed: seq<int>, cur: int)
    requires Tearing(ns0, ns, T0, c, s, freed, cur) && cur != HEADER && s.left.Nil? && s.right.Node?
    ensures Plug(InRight(s.left, s.id, s.key, c), s.right) == Plug(c, s)
    ensures Tearing(ns0, ns, T0, InRight(s.left, s.id, s.key, c), s.right, freed, s.right.id)
  {
    PlugIds(c, s);
    assert s.id in Ids(Plug(c, s));
  }

  /**
    * A leaf cur is destroyed: the child pointer of its parent next that
    * names it is cleared (header->left or header->right when cur is the
    * root), and erase_root goes on at next.
    */
  lemma {:induction false} TearDestroy(ns0: seq<NodeRec>, ns: seq<NodeRec>, ns': seq<NodeRec>, T0: Tree, c: Ctx, s: Tree,
                    freed: seq<int>, cur: int, next: int)
    requires Tearing(ns0, ns, T0, c, s, freed, cur) && cur != HEADER && s.left.Nil? && s.right.Nil?
    requires next == HoleParent(c) && 0 <= next < |ns|
    requires ns' == if cur == ns[next].left then ns[next := ns[next].(left := NIL)] else ns[next := ns[next].(right := NIL)]
    ensures Size(Plug(c, Nil)) < Size(Plug(c, s))
    ensures Tearing(ns0, ns', T0, Pop(c).0, Pop(c).1, freed + [cur], next)
    ensures c.Top? ==> ns'[HEADER] == if RootOf(T0) == ns0[HEADER].left then ns0[HEADER].(left := NIL) else ns0[HEADER].(right := NIL)
  {
    TearOrder(c, s);
    TearLinks(ns, ns', c, s, cur, next);
    TearKeep(ns0, ns, ns', T0, c, s, freed, cur, next);
    var c', s' := Pop(c).0, Pop(c).1;
    assert Plug(c', s') == Plug(c, Nil);
    assert PostOrder(T0) == (freed + [cur]) + PostOrder(Plug(c', s'));
    if c.Top? {
      assert next == HEADER && c' == Top && s' == Nil;
    } else {
      assert next != HEADER && s'.Node? && next == s'.id;
    }
  }

  /** Clearing the parent's pointer to the leaf s leaves the rest of the tree linked. */
  lemma {:induction false} TearLinks(ns: seq<NodeRec>, ns': seq<NodeRec>, c: Ctx, s: Tree, cur: int, next: int)
    requires LinkedTop(ns, Plug(c, s)) && Distinct(Plug(c, s)) && LeftDone(c)
    requires forall i :: i in Ids(Plug(c, s)) ==> 0 < i < |ns|
    requires s.Node? && cur == s.id && next == HoleParent(c) && 0 <= next < |ns|
    requires ns' == if cur == ns[next].left then ns[next := ns[next].(left := NIL)] else ns[next := ns[next].(right := NIL)]
    ensures !c.Top? ==> LinkedTop(ns', Plug(c, Nil))
  {
    PlugIds(c, s);
    LinkedSplit(ns, c, s);
    if !c.Top? {
      assert next in CtxIds(c);
      assert c.InRight? ==> ns[next].left == NIL;
      LinkedCtxFrame(ns, ns', c, cur, NIL);
      LinkedSplit(ns', c, Nil);
    }
  }

  /** Destroying the leaf s takes one node off the tree, the next one in post-order. */
  lemma {:induction false} TearOrder(c: Ctx, s: Tree)
    requires LeftDone(c) && Distinct(Plug(c, s)) && s.Node? && s.left.Nil? && s.right.Nil?
    ensures Size(Plug(c, Nil)) < Size(Plug(c, s))
    ensures Distinct(Plug(c, Nil)) && Ids(Plug(c, Nil)) <= Ids(Plug(c, s))
    ensures PostOrder(Plug(c, s)) == [s.id] + PostOrder(Plug(c, Nil))
  {
    PlugSize(c, s, Nil);
    PlugPrune(c, s, Nil);
    PostOrderPlug(c, s);
    PostOrderPlug(c, Nil);
  }

  /** The slot and payload facts of Tearing survive the store and the destruction. */
  lemma {:induction false} TearKeep(ns0: seq<NodeRec>, ns: seq<NodeRec>, ns': seq<NodeRec>, T0: Tree, c: Ctx, s: Tree,
                 freed: seq<int>, cur: int, next: int)
    requires Tearing(ns0, ns, T0, c, s, freed, cur) && cur != HEADER && s.left.Nil? && s.right.Nil?
    requires next == HoleParent(c) && 0 <= next < |ns|
    requires ns' == if cur == ns[next].left then ns[next := ns[next].(left := NIL)] else ns[next := ns[next].(right := NIL)]
    ensures forall i :: i in freed + [cur] ==> i in Ids(T0) && i !in Ids(Plug(c, Nil)) && ns'[i].left == NIL && ns'[i].right == NIL
    ensures forall i :: 0 < i < |ns'| && i !in Ids(T0) ==> ns'[i] == ns0[i]
    ensures forall i :: i in Ids(T0) ==> ns'[i] == ns0[i].(left := ns'[i].left, right := ns'[i].right)
    ensures c.Top? ==> ns'[HEADER] == if RootOf(T0) == ns0[HEADER].left then ns0[HEADER].(left := NIL) else ns0[HEADER].(right := NIL)
    ensures !c.Top? ==> ns'[HEADER] == ns0[HEADER] && 0 < next
  {
    PlugIds(c, s);
    PlugIds(c, Nil);
    LinkedSplit(ns, c, s);
    assert cur in Ids(Plug(c, s));
    assert !c.Top? ==> next in Ids(Plug(c, s)) && next != cur;
    assert next !in freed;
  }

  /** When erase_root stops, every node of T0 is destroyed, in post-order. */
  lemma {:induction false} TearEnd(ns0: seq<NodeRec>, ns: seq<NodeRec>, T0: Tree, freed: seq<int>)
    requires Tearing(ns0, ns, T0, Top, Nil, freed, HEADER)
    ensures freed == PostOrder(T0) && TornDown(ns0, ns, T0)
  {
    PostOrderIds(T0);
  }

  /**
    * The store after erase_root: the slots of T0's nodes have lost their
    * children and nothing else; other slots but the header's are untouched.
    */
  predicate TornDown(ns0: seq<NodeRec>, ns: seq<NodeRec>, T0: Tree)
  {
    |ns| == |ns0| &&
    forall i :: 0 < i < |ns| ==> ns[i] == if i in Ids(T0) then ns0[i].(left := NIL, right := NIL) else ns0[i]
  }
}
