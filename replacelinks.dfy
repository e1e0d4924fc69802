/**
  * Case 2 of erase_node, where the removed node s has two children: the
  * node that follows s in order (the leftmost node of its right subtree)
  * or the one that precedes it (the rightmost node of its left subtree)
  * is unlinked from its own place and put into s's place.
  */
module ReplaceLinks {
  import opened Trees
  import opened Arena
  import opened Insertion
  import opened InsertLinks
  import opened Erasure
  import opened EraseLinks

  lemma {:induction false} MinSubIds(t: Tree)
    requires t.Node?
    ensures Ids(MinSub(t)) <= Ids(t)
  {
    if t.left.Node? {
      MinSubIds(t.left);
    }
  }

  /** Below a left child, the minimum hangs from a node of the subtree. */
  lemma {:induction false} MinCtxParentIn(c: Ctx, t: Tree)
    requires t.Node? && t.left.Node?
    ensures MinCtx(c, t).InLeft? && HoleParent(MinCtx(c, t)) in Ids(t)
    decreases t
  {
    var c' := InLeft(c, t.id, t.key, t.right);
    if t.left.left.Node? {
      MinCtxParentIn(c', t.left);
    }
  }

  /**
    * The slots the successor replacement touches are distinct where they
    * must be: s's id t, its children's roots tl and tr, its parent tp, the
    * successor x, x's parent xp and x's right child xr.
    */
  lemma {:induction false} SuccessorIds(c: Ctx, s: Tree, n: int)
    requires s.Node? && s.left.Node? && s.right.Node? && Distinct(Plug(c, s))
    requires forall i :: i in Ids(Plug(c, s)) ==> 0 < i < n
    ensures var L, R, t := s.left, s.right, s.id;
      var cm := MinCtx(InRight(L, t, s.key, c), R); var mx := MinSub(R);
      var x, xp, xr, tl, tr, tp := mx.id, HoleParent(cm), RootOf(mx.right), L.id, R.id, HoleParent(c);
      (x == tr <==> R.left.Nil?) &&
      (x == tr ==> xp == t && cm == InRight(L, t, s.key, c)) &&
      (x != tr ==> cm.InLeft? && xp != t && xr != tr && xp != xr && 0 < xp < n) &&
      0 < x < n && 0 < tl < n && 0 < tr < n && 0 <= tp < n && (xr == NIL || 0 < xr < n) &&
      x != t && x != tl && x != tp && x != xp && x != xr &&
      tl != t && tl != tr && tl != xp && tl != xr && tl != tp &&
      tp != t && tp != tr && tp != xp && tp != xr &&
      t != tr && t != xr
  {
    var L, R, t := s.left, s.right, s.id;
    var cr := InRight(L, t, s.key, c);
    var cm := MinCtx(cr, R);
    var mx := MinSub(R);
    PlugIds(c, s);
    assert Ids(s) == Ids(L) + {t} + Ids(R);
    assert L.id in Ids(L) && R.id in Ids(R);
    assert c.Top? || HoleParent(c) in CtxIds(c);
    MinCtxShape(cr, cr, R);
    PlugIds(cm, mx);
    assert mx.id in Ids(mx);
    assert Ids(mx) == {mx.id} + Ids(mx.right);
    assert mx.right.Nil? || mx.right.id in Ids(mx.right);
    assert HoleParent(cm) in CtxIds(cm);
    MinSubIds(R);
    if R.left.Node? {
      MinCtxParentIn(cr, R);
      MinSubIds(R.left);
      assert Ids(R) == Ids(R.left) + {R.id} + Ids(R.right);
    }
  }

  /**
    * What the successor replacement's pointer stores need of the slots
    * they touch: t's children tl and tr, t's parent tp, the successor x,
    * x's parent xp and x's right child xr are in the store and distinct
    * where they must be, and tp is the header exactly when the header's
    * root pointer names t.
    */
  predicate SuccessorSlotsOk(o: seq<NodeRec>, t: int, x: int)
  {
    0 < t < |o| && 0 < x < |o| &&
    var tl, tr, tp, xp, xr := o[t].left, o[t].right, o[t].parent, o[x].parent, o[x].right;
    0 < tl < |o| && 0 < tr < |o| && 0 <= tp < |o| && 0 <= xp < |o| && (xr == NIL || 0 < xr < |o|) &&
    (x == tr ==> xp == t) && (x != tr ==> 0 < xp && xp != t && xr != tr && xp != xr) &&
    x != t && x != tl && x != tp && x != xp && x != xr &&
    tl != t && tl != tr && tl != xp && tl != xr && tl != tp &&
    tp != t && tp != tr && tp != xp && tp != xr && t != tr && t != xr &&
    (tp == HEADER <==> o[HEADER].parent == t)
  }

  /**
    * Store m is store o after the successor x was put into t's place:
    * x holds t's parent, t's left subtree, t's right subtree (or its own
    * right subtree when it was t's right child), t's size and its own
    * entry; unless x was t's right child, x's right subtree hangs from
    * x's old parent xp instead of x; the pointer that named t names x;
    * t's own slot and every slot not touched keep their records.
    * parent is where the rebalancing starts: xp, or x itself.
    */
  predicate SuccessorStored(o: seq<NodeRec>, m: seq<NodeRec>, t: int, x: int, parent: int)
  {
    SuccessorSlotsOk(o, t, x) && |m| == |o| &&
    var tl, tr, tp, xp, xr := o[t].left, o[t].right, o[t].parent, o[x].parent, o[x].right;
    parent == (if x != tr then xp else x) &&
    m[x] == NodeRec(tp, tl, if x != tr then tr else xr, o[t].size, o[x].data) &&
    m[tl] == o[tl].(parent := x) && m[t] == o[t] &&
    (x != tr ==> m[tr] == if tr == xp then o[tr].(left := xr, parent := x) else o[tr].(parent := x)) &&
    (x != tr && xp != tr ==> m[xp] == o[xp].(left := xr)) &&
    (xr != NIL ==> m[xr] == if x != tr then o[xr].(parent := xp) else o[xr]) &&
    m[HEADER] == (if tp == HEADER then o[HEADER].(parent := x) else o[HEADER]) &&
    (tp != HEADER ==> m[tp] == if o[tp].left == t then o[tp].(left := x) else o[tp].(right := x)) &&
    forall j :: 0 < j < |o| && j != x && j != tl && j != tr && j != xp && j != xr && j != tp ==> m[j] == o[j]
  }

  lemma {:induction false} MaxSubIds(t: Tree)
    requires t.Node?
    ensures Ids(MaxSub(t)) <= Ids(t)
  {
    if t.right.Node? {
      MaxSubIds(t.right);
    }
  }

  /** Below a right child, the maximum hangs from a node of the subtree. */
  lemma {:induction false} MaxCtxParentIn(c: Ctx, t: Tree)
    requires t.Node? && t.right.Node?
    ensures MaxCtx(c, t).InRight? && HoleParent(MaxCtx(c, t)) in Ids(t)
    decreases t
  {
    var c' := InRight(t.left, t.id, t.key, c);
    if t.right.right.Node? {
      MaxCtxParentIn(c', t.right);
    }
  }

  /**
    * The slots the predecessor replacement touches are distinct where they
    * must be: s's id t, its children's roots tl and tr, its parent tp, the
    * predecessor x, x's parent xp and x's left child xl.
    */
  lemma {:induction false} PredecessorIds(c: Ctx, s: Tree, n: int)
    requires s.Node? && s.left.Node? && s.right.Node? && Distinct(Plug(c, s))
    requires forall i :: i in Ids(Plug(c, s)) ==> 0 < i < n
    ensures var L, R, t := s.left, s.right, s.id;
      var cm := MaxCtx(InLeft(c, t, s.key, R), L); var mx := MaxSub(L);
      var x, xp, xl, tl, tr, tp := mx.id, HoleParent(cm), RootOf(mx.left), L.id, R.id, HoleParent(c);
      (x == tl <==> L.right.Nil?) &&
      (x == tl ==> xp == t && cm == InLeft(c, t, s.key, R)) &&
      (x != tl ==> cm.InRight? && xp != t && xl != tl && xp != xl && 0 < xp < n) &&
      0 < x < n && 0 < tl < n && 0 < tr < n && 0 <= tp < n && (xl == NIL || 0 < xl < n) &&
      x != t && x != tr && x != tp && x != xp && x != xl &&
      tr != t && tr != tl && tr != xp && tr != xl && tr != tp &&
      tp != t && tp != tl && tp != xp && tp != xl &&
      t != tl && t != xl
  {
    var L, R, t := s.left, s.right, s.id;
    var cl := InLeft(c, t, s.key, R);
    var cm := MaxCtx(cl, L);
    var mx := MaxSub(L);
    PlugIds(c, s);
    assert Ids(s) == Ids(L) + {t} + Ids(R);
    assert L.id in Ids(L) && R.id in Ids(R);
    assert c.Top? || HoleParent(c) in CtxIds(c);
    MaxCtxShape(cl, cl, L);
    PlugIds(cm, mx);
    assert mx.id in Ids(mx);
    assert Ids(mx) == Ids(mx.left) + {mx.id};
    assert mx.left.Nil? || mx.left.id in Ids(mx.left);
    assert HoleParent(cm) in CtxIds(cm);
    MaxSubIds(L);
    if L.right.Node? {
      MaxCtxParentIn(cl, L);
      MaxSubIds(L.right);
      assert Ids(L) == Ids(L.left) + {L.id} + Ids(L.right);
    }
  }

  /** What the predecessor replacement's pointer stores need of the slots they touch. */
  predicate PredecessorSlotsOk(o: seq<NodeRec>, t: int, x: int)
  {
    0 < t < |o| && 0 < x < |o| &&
    var tl, tr, tp, xp, xl := o[t].left, o[t].right, o[t].parent, o[x].parent, o[x].left;
    0 < tl < |o| && 0 < tr < |o| && 0 <= tp < |o| && 0 <= xp < |o| && (xl == NIL || 0 < xl < |o|) &&
    (x == tl ==> xp == t) && (x != tl ==> 0 < xp && xp != t && xl != tl && xp != xl) &&
    x != t && x != tr && x != tp && x != xp && x != xl &&
    tr != t && tr != tl && tr != xp && tr != xl && tr != tp &&
    tp != t && tp != tl && tp != xp && tp != xl && t != tl && t != xl &&
    (tp == HEADER <==> o[HEADER].parent == t)
  }

  /**
    * Store m is store o after the predecessor x was put into t's place,
    * the mirror image of SuccessorStored: unless x was t's left child,
    * x's left subtree hangs from x's old parent xp instead of x.
    */
  predicate PredecessorStored(o: seq<NodeRec>, m: seq<NodeRec>, t: int, x: int, parent: int)
  {
    PredecessorSlotsOk(o, t, x) && |m| == |o| &&
    var tl, tr, tp, xp, xl := o[t].left, o[t].right, o[t].parent, o[x].parent, o[x].left;
    parent == (if x != tl then xp else x) &&
    m[x] == NodeRec(tp, if x != tl then tl else xl, tr, o[t].size, o[x].data) &&
    m[tr] == o[tr].(parent := x) && m[t] == o[t] &&
    (x != tl ==> m[tl] == if tl == xp then o[tl].(right := xl, parent := x) else o[tl].(parent := x)) &&
    (x != tl && xp != tl ==> m[xp] == o[xp].(right := xl)) &&
    (xl != NIL ==> m[xl] == if x != tl then o[xl].(parent := xp) else o[xl]) &&
    m[HEADER] == (if tp == HEADER then o[HEADER].(parent := x) else o[HEADER]) &&
    (tp != HEADER ==> m[tp] == if o[tp].left == t then o[tp].(left := x) else o[tp].(right := x)) &&
    forall j :: 0 < j < |o| && j != x && j != tl && j != tr && j != xp && j != xl && j != tp ==> m[j] == o[j]
  }
}
