/**
  * What copy_node builds. The copy of a tree has the same shape and keys,
  * and its nodes take fresh slots in the order the copy creates them, which
  * is pre-order: the copy of a subtree whose root gets slot b is
  * Renumber(t, b). While the copy is under way, the source walk stands at a
  * spot of the primitive iterator's walk, and the store holds the part of
  * the copy entered so far: along the path, the copies of the ancestors and
  * of the left subtrees already finished; at the hole, either the fresh copy
  * of the current node or the finished copy of its whole subtree.
  */
module Copying {
  import opened Trees
  import opened Arena
  import opened Traversal

  /** The copy of t whose nodes take the slots b, b + 1, ... in pre-order. */
  function Renumber(t: Tree, b: int): (r: Tree)
    ensures Size(r) == Size(t) && (r.Node? <==> t.Node?)
  {
    match t
    case Nil => Nil
    case Node(l, _, k, r) => Node(Renumber(l, b + 1), b, k, Renumber(r, b + 1 + Size(l)))
  }

  /** Two trees with the same shape and the same key at every place. */
  predicate Congruent(a: Tree, b: Tree)
  {
    match a
    case Nil => b.Nil?
    case Node(l, _, k, r) => b.Node? && b.key == k && Congruent(l, b.left) && Congruent(r, b.right)
  }

  /** The copy has the source's shape and keys. */
  lemma {:induction false} RenumberCongruent(t: Tree, b: int)
    ensures Congruent(Renumber(t, b), t)
  {
    match t
    case Nil =>
    case Node(l, _, _, r) =>
      RenumberCongruent(l, b + 1);
      RenumberCongruent(r, b + 1 + Size(l));
  }

  /** Congruent trees list the same keys in order. */
  lemma {:induction false} CongruentEntries(a: Tree, b: Tree)
    requires Congruent(a, b)
    ensures |Entries(a)| == |Entries(b)|
    ensures forall j :: 0 <= j < |Entries(a)| ==> Entries(a)[j].key == Entries(b)[j].key
  {
    match a
    case Nil =>
    case Node(l, i, k, r) =>
      CongruentEntries(l, b.left);
      CongruentEntries(r, b.right);
      var ea, eb := Entries(a), Entries(b);
      assert ea == Entries(l) + [Entry(i, k)] + Entries(r);
      assert eb == Entries(b.left) + [Entry(b.id, b.key)] + Entries(b.right);
      forall j | 0 <= j < |ea|
        ensures ea[j].key == eb[j].key
      {
        if j < |Entries(l)| {
          assert ea[j] == Entries(l)[j] && eb[j] == Entries(b.left)[j];
        } else if j > |Entries(l)| {
          var m := j - |Entries(l)| - 1;
          assert ea[j] == Entries(r)[m] && eb[j] == Entries(b.right)[m];
        }
      }
  }

  /** A copy of an ordered tree is ordered. */
  lemma {:induction false} CopyOrdered(t: Tree, b: int)
    requires Ordered(t)
    ensures Ordered(Renumber(t, b))
  {
    RenumberCongruent(t, b);
    CongruentEntries(Renumber(t, b), t);
  }

  /** The copy's nodes are the slots b up to b + Size(t), one each. */
  lemma {:induction false} RenumberIds(t: Tree, b: int)
    ensures forall i :: i in Ids(Renumber(t, b)) ==> b <= i < b + Size(t)
    ensures Distinct(Renumber(t, b))
  {
    match t
    case Nil =>
    case Node(l, _, k, r) =>
      var L, R := Renumber(l, b + 1), Renumber(r, b + 1 + Size(l));
      RenumberIds(l, b + 1);
      RenumberIds(r, b + 1 + Size(l));
      assert Renumber(t, b) == Node(L, b, k, R);
      assert Ids(Renumber(t, b)) == Ids(L) + {b} + Ids(R);
      assert Ids(L) !! Ids(R) by {
        forall x | x in Ids(L)
          ensures x !in Ids(R)
        {
        }
      }
  }

  /** The copy's slots are handed out in pre-order: the j-th node of the walk gets slot b + j. */
  lemma {:induction false} RenumberPreOrder(t: Tree, b: int, j: nat)
    requires j < Size(t)
    ensures PreOrder(Renumber(t, b))[j] == b + j
  {
    var Node(l, _, k, r) := t;
    var L, R := Renumber(l, b + 1), Renumber(r, b + 1 + Size(l));
    assert Renumber(t, b) == Node(L, b, k, R);
    if j == 0 {
      assert PreOrder(Node(L, b, k, R)) == [b] + PreOrder(L) + PreOrder(R);
    } else if j <= Size(l) {
      RenumberPreOrder(l, b + 1, j - 1);
      PreOrderPlug(InLeft(Top, b, k, R), L, j - 1);
      assert Plug(InLeft(Top, b, k, R), L) == Renumber(t, b) && Ahead(InLeft(Top, b, k, R)) == 1;
    } else {
      RenumberPreOrder(r, b + 1 + Size(l), j - 1 - Size(l));
      PreOrderPlug(InRight(L, b, k, Top), R, j - 1 - Size(l));
      assert Plug(InRight(L, b, k, Top), R) == Renumber(t, b) && Ahead(InRight(L, b, k, Top)) == 1 + Size(l);
    }
  }

  /**
    * The part of the copy along context c, the copy's first slot being b:
    * every ancestor's copy is in place; a finished left subtree is copied
    * in full, a right subtree not reached yet is still nullptr.
    */
  function PartCtx(c: Ctx, b: int): Ctx
  {
    match c
    case Top => Top
    case InLeft(up, _, k, _) => InLeft(PartCtx(up, b), b + Ahead(up), k, Nil)
    case InRight(l, _, k, up) => InRight(Renumber(l, b + Ahead(up) + 1), b + Ahead(up), k, PartCtx(up, b))
  }

  lemma {:induction false} PartCtxIds(c: Ctx, b: int)
    ensures forall j :: j in CtxIds(PartCtx(c, b)) ==> b <= j < b + Ahead(c)
  {
    match c
    case Top =>
    case InLeft(up, _, _, _) =>
      PartCtxIds(up, b);
    case InRight(l, _, _, up) =>
      PartCtxIds(up, b);
      RenumberIds(l, b + Ahead(up) + 1);
  }

  /**
    * The copies pc of the ancestors along c store the sizes of the source's
    * subtrees (the hole's being hs), and the finished left subtrees are
    * sized.
    */
  predicate SizedPart(ns: seq<NodeRec>, c: Ctx, pc: Ctx, hs: int)
  {
    match c
    case Top => true
    case InLeft(up, _, _, r) =>
      pc.InLeft? && 0 <= pc.id < |ns| && ns[pc.id].size == hs + Size(r) + 1 &&
      SizedPart(ns, up, pc.up, hs + Size(r) + 1)
    case InRight(l, _, _, up) =>
      pc.InRight? && 0 <= pc.id < |ns| && ns[pc.id].size == hs + Size(l) + 1 &&
      Sized(ns, pc.left) && SizedPart(ns, up, pc.up, hs + Size(l) + 1)
  }

  /**
    * The store holds the copy so far, the walk standing at the subtree s in
    * context c: the path is copied as PartCtx says, and s's copy sits in slot
    * b + Ahead(c), either freshly created with no children (down: s was
    * just entered) or finished with its whole subtree.
    */
  predicate Copied(ns: seq<NodeRec>, b: int, c: Ctx, s: Tree, down: bool)
    requires s.Node?
  {
    var d := b + Ahead(c);
    0 < b && |ns| == d + (if down then 1 else Size(s)) &&
    LinkedCtx(ns, PartCtx(c, b), d) && SizedPart(ns, c, PartCtx(c, b), Size(s)) &&
    (down ==> ns[d] == NodeRec(HoleParent(PartCtx(c, b)), NIL, NIL, Size(s), s.key)) &&
    (!down ==> Linked(ns, Renumber(s, d), HoleParent(PartCtx(c, b))) && Sized(ns, Renumber(s, d)))
  }

  /**
    * The state of copy_node with the source walk at spot p of t: src is the
    * spot's node (the source header for the header), flag says the walk did
    * not come up from below, and dst is the copy of src (this header for the
    * source header, which the walk reaches only from a root without
    * children).
    */
  predicate CopyAt(ns: seq<NodeRec>, b: int, t: Tree, p: Spot, dst: int, flag: bool)
  {
    OnTree(t, p) && flag == (p.state != Parent) &&
    match p
    case AtNode(c, s, _) => dst == b + Ahead(c) && Copied(ns, b, c, s, flag)
    case AtHeader(st) =>
      st == Parent && t.Node? && t.left.Nil? && t.right.Nil? && dst == HEADER && Copied(ns, b, Top, t, false)
  }

  // How far the walk of copy_node still has to go.
  function CopyRank(p: Spot): nat
  {
    match p
    case AtHeader(_) => 1
    case AtNode(c, _, st) => Depth(c) + (if st == Parent then 0 else 2)
  }

  lemma {:induction false} LinkedRange(ns: seq<NodeRec>, ns': seq<NodeRec>, t: Tree, p: int, lo: int, hi: int)
    requires Linked(ns, t, p) && 0 <= lo && hi <= |ns| && hi <= |ns'|
    requires forall i :: i in Ids(t) ==> lo <= i < hi
    requires forall j :: lo <= j < hi ==> ns'[j] == ns[j]
    ensures Linked(ns', t, p)
  {
    match t
    case Nil =>
    case Node(l, i, _, r) =>
      assert Ids(t) == Ids(l) + {i} + Ids(r);
      assert ns'[i] == ns[i];
      LinkedRange(ns, ns', l, i, lo, hi);
      LinkedRange(ns, ns', r, i, lo, hi);
  }

  lemma {:induction false} SizedRange(ns: seq<NodeRec>, ns': seq<NodeRec>, t: Tree, lo: int, hi: int)
    requires Sized(ns, t) && 0 <= lo && hi <= |ns| && hi <= |ns'|
    requires forall i :: i in Ids(t) ==> lo <= i < hi
    requires forall j :: lo <= j < hi ==> ns'[j] == ns[j]
    ensures Sized(ns', t)
  {
    match t
    case Nil =>
    case Node(l, i, _, r) =>
      assert Ids(t) == Ids(l) + {i} + Ids(r);
      assert ns'[i] == ns[i];
      SizedRange(ns, ns', l, lo, hi);
      SizedRange(ns, ns', r, lo, hi);
  }

  lemma {:induction false} LinkedCtxRange(ns: seq<NodeRec>, ns': seq<NodeRec>, c: Ctx, h: int, lo: int, hi: int)
    requires LinkedCtx(ns, c, h) && 0 <= lo && hi <= |ns| && hi <= |ns'| && 0 < |ns'| && ns'[HEADER].parent == ns[HEADER].parent
    requires forall i :: i in CtxIds(c) ==> lo <= i < hi
    requires forall j :: lo <= j < hi ==> ns'[j] == ns[j]
    ensures LinkedCtx(ns', c, h)
  {
    match c
    case Top =>
    case InLeft(up, i, _, r) =>
      assert CtxIds(c) == CtxIds(up) + {i} + Ids(r);
      assert ns'[i] == ns[i];
      LinkedRange(ns, ns', r, i, lo, hi);
      LinkedCtxRange(ns, ns', up, i, lo, hi);
    case InRight(l, i, _, up) =>
      assert CtxIds(c) == CtxIds(up) + {i} + Ids(l);
      assert ns'[i] == ns[i];
      LinkedRange(ns, ns', l, i, lo, hi);
      LinkedCtxRange(ns, ns', up, i, lo, hi);
  }

  /** A copy whose slots the second store leaves alone is linked there too. */
  lemma {:induction false} CopyLinkedRange(ns: seq<NodeRec>, ns': seq<NodeRec>, t: Tree, d: int, p: int, hi: int)
    requires Linked(ns, Renumber(t, d), p) && 0 <= d && d + Size(t) <= hi <= |ns| && hi <= |ns'|
    requires forall j :: d <= j < hi ==> ns'[j] == ns[j]
    ensures Linked(ns', Renumber(t, d), p)
  {
    RenumberIds(t, d);
    LinkedRange(ns, ns', Renumber(t, d), p, d, hi);
  }

  /** A copy whose slots the second store leaves alone is sized there too. */
  lemma {:induction false} CopySizedRange(ns: seq<NodeRec>, ns': seq<NodeRec>, t: Tree, d: int, hi: int)
    requires Sized(ns, Renumber(t, d)) && 0 <= d && d + Size(t) <= hi <= |ns| && hi <= |ns'|
    requires forall j :: d <= j < hi ==> ns'[j] == ns[j]
    ensures Sized(ns', Renumber(t, d))
  {
    RenumberIds(t, d);
    SizedRange(ns, ns', Renumber(t, d), d, hi);
  }

  lemma {:induction false} SizedPartRange(ns: seq<NodeRec>, ns': seq<NodeRec>, c: Ctx, pc: Ctx, hs: int, lo: int, hi: int)
    requires SizedPart(ns, c, pc, hs) && 0 <= lo && hi <= |ns| && hi <= |ns'|
    requires forall i :: i in CtxIds(pc) ==> lo <= i < hi
    requires forall j :: lo <= j < hi ==> ns'[j] == ns[j]
    ensures SizedPart(ns', c, pc, hs)
  {
    match c
    case Top =>
    case InLeft(up, _, _, r) =>
      assert CtxIds(pc) == CtxIds(pc.up) + {pc.id} + Ids(pc.right);
      assert ns'[pc.id] == ns[pc.id];
      SizedPartRange(ns, ns', up, pc.up, hs + Size(r) + 1, lo, hi);
    case InRight(l, _, _, up) =>
      assert CtxIds(pc) == CtxIds(pc.up) + {pc.id} + Ids(pc.left);
      assert ns'[pc.id] == ns[pc.id];
      SizedRange(ns, ns', pc.left, lo, hi);
      SizedPartRange(ns, ns', up, pc.up, hs + Size(l) + 1, lo, hi);
  }

  /** The first store of copy_node: the root's copy, with this header's parent pointing at it. */
  lemma {:induction false} CopyStart(ns: seq<NodeRec>, t: Tree, ns': seq<NodeRec>)
    requires 0 < |ns| && t.Node?
    requires ns' == (ns + [NodeRec(HEADER, NIL, NIL, Size(t), t.key)])[HEADER := ns[HEADER].(parent := |ns|)]
    ensures Copied(ns', |ns|, Top, t, true)
  {
  }

  /** A leaf freshly copied is a finished subtree. */
  lemma {:induction false} CopyLeaf(ns: seq<NodeRec>, b: int, c: Ctx, s: Tree)
    requires s.Node? && s.left.Nil? && s.right.Nil? && Copied(ns, b, c, s, true)
    ensures Copied(ns, b, c, s, false)
  {
  }

  /** Going down to the left child: its copy is appended and becomes dst's left child. */
  lemma {:induction false} CopyDownLeft(ns: seq<NodeRec>, b: int, c: Ctx, s: Tree, ns': seq<NodeRec>)
    requires s.Node? && s.left.Node? && Copied(ns, b, c, s, true)
    requires ns' == (ns + [NodeRec(b + Ahead(c), NIL, NIL, Size(s.left), s.left.key)])[b + Ahead(c) := ns[b + Ahead(c)].(left := |ns|)]
    ensures Copied(ns', b, InLeft(c, s.id, s.key, s.right), s.left, true)
  {
    var d := b + Ahead(c);
    PartCtxIds(c, b);
    LinkedCtxRange(ns, ns', PartCtx(c, b), d, b, d);
    SizedPartRange(ns, ns', c, PartCtx(c, b), Size(s), b, d);
  }

  /** Going down to the right child of a node without a left one: the mirror of CopyDownLeft. */
  lemma {:induction false} CopyDownRight(ns: seq<NodeRec>, b: int, c: Ctx, s: Tree, ns': seq<NodeRec>)
    requires s.Node? && s.left.Nil? && s.right.Node? && Copied(ns, b, c, s, true)
    requires ns' == (ns + [NodeRec(b + Ahead(c), NIL, NIL, Size(s.right), s.right.key)])[b + Ahead(c) := ns[b + Ahead(c)].(right := |ns|)]
    ensures Copied(ns', b, InRight(s.left, s.id, s.key, c), s.right, true)
  {
    var d := b + Ahead(c);
    PartCtxIds(c, b);
    LinkedCtxRange(ns, ns', PartCtx(c, b), d, b, d);
    SizedPartRange(ns, ns', c, PartCtx(c, b), Size(s), b, d);
  }

  /**
    * Going across from a finished left subtree s to its sibling r: r's copy
    * is appended and becomes the right child of dst's parent.
    */
  lemma {:induction false} CopyAcross(ns: seq<NodeRec>, b: int, up: Ctx, s: Tree, i: int, k: int, r: Tree, ns': seq<NodeRec>)
    requires s.Node? && r.Node? && Copied(ns, b, InLeft(up, i, k, r), s, false)
    requires ns' == (ns + [NodeRec(b + Ahead(up), NIL, NIL, Size(r), r.key)])[b + Ahead(up) := ns[b + Ahead(up)].(right := |ns|)]
    ensures Copied(ns', b, InRight(s, i, k, up), r, true)
  {
    AcrossFacts(ns, b, up, s, i, k, r);
    AcrossStore(ns, b, up, s, k, r, ns');
    AcrossGoal(ns', b, up, s, i, k, r);
  }

  // CopyAcross's store keeps the path and the finished left subtree in place.
  lemma {:induction false} AcrossStore(ns: seq<NodeRec>, b: int, up: Ctx, s: Tree, k: int, r: Tree, ns': seq<NodeRec>)
    requires s.Node? && r.Node?
    requires var pb, pu := b + Ahead(up), PartCtx(up, b);
      0 < b && |ns| == pb + 1 + Size(s) && 0 <= pb &&
      LinkedCtx(ns, pu, pb) && SizedPart(ns, up, pu, Size(s) + Size(r) + 1) &&
      ns[pb] == NodeRec(HoleParent(pu), pb + 1, NIL, Size(s) + Size(r) + 1, k) &&
      Linked(ns, Renumber(s, pb + 1), pb) && Sized(ns, Renumber(s, pb + 1))
    requires ns' == (ns + [NodeRec(b + Ahead(up), NIL, NIL, Size(r), r.key)])[b + Ahead(up) := ns[b + Ahead(up)].(right := |ns|)]
    ensures var pb, pu, n := b + Ahead(up), PartCtx(up, b), b + Ahead(up) + 1 + Size(s);
      |ns'| == n + 1 &&
      LinkedCtx(ns', pu, pb) && SizedPart(ns', up, pu, Size(s) + Size(r) + 1) &&
      ns'[pb] == NodeRec(HoleParent(pu), pb + 1, n, Size(s) + Size(r) + 1, k) &&
      Linked(ns', Renumber(s, pb + 1), pb) && Sized(ns', Renumber(s, pb + 1)) &&
      ns'[n] == NodeRec(pb, NIL, NIL, Size(r), r.key)
  {
    var pb, d, n := b + Ahead(up), b + Ahead(up) + 1, |ns|;
    var pu := PartCtx(up, b);
    PartCtxIds(up, b);
    LinkedCtxRange(ns, ns', pu, pb, b, pb);
    SizedPartRange(ns, ns', up, pu, Size(s) + Size(r) + 1, b, pb);
    CopyLinkedRange(ns, ns', s, d, pb, n);
    CopySizedRange(ns, ns', s, d, n);
  }

  // What Copied says before CopyAcross's store ...
  lemma {:induction false} AcrossFacts(ns: seq<NodeRec>, b: int, up: Ctx, s: Tree, i: int, k: int, r: Tree)
    requires s.Node? && r.Node? && Copied(ns, b, InLeft(up, i, k, r), s, false)
    ensures var pb, pu := b + Ahead(up), PartCtx(up, b);
      0 < b && |ns| == pb + 1 + Size(s) && 0 <= pb &&
      LinkedCtx(ns, pu, pb) && SizedPart(ns, up, pu, Size(s) + Size(r) + 1) &&
      ns[pb] == NodeRec(HoleParent(pu), pb + 1, NIL, Size(s) + Size(r) + 1, k) &&
      Linked(ns, Renumber(s, pb + 1), pb) && Sized(ns, Renumber(s, pb + 1))
  {
    var pb, pu := b + Ahead(up), PartCtx(up, b);
    assert PartCtx(InLeft(up, i, k, r), b) == InLeft(pu, pb, k, Nil);
  }

  // ... and what it needs after it.
  lemma {:induction false} AcrossGoal(ns': seq<NodeRec>, b: int, up: Ctx, s: Tree, i: int, k: int, r: Tree)
    requires s.Node? && r.Node? && 0 < b
    requires var pb, pu, n := b + Ahead(up), PartCtx(up, b), b + Ahead(up) + 1 + Size(s);
      |ns'| == n + 1 && 0 <= pb &&
      LinkedCtx(ns', pu, pb) && SizedPart(ns', up, pu, Size(s) + Size(r) + 1) &&
      ns'[pb] == NodeRec(HoleParent(pu), pb + 1, n, Size(s) + Size(r) + 1, k) &&
      Linked(ns', Renumber(s, pb + 1), pb) && Sized(ns', Renumber(s, pb + 1)) &&
      ns'[n] == NodeRec(pb, NIL, NIL, Size(r), r.key)
    ensures Copied(ns', b, InRight(s, i, k, up), r, true)
  {
    var pb, pu := b + Ahead(up), PartCtx(up, b);
    assert PartCtx(InRight(s, i, k, up), b) == InRight(Renumber(s, pb + 1), pb, k, pu);
  }

  /** Going up from a finished left subtree with no right sibling: the parent's copy is finished. */
  lemma {:induction false} CopyUpLeft(ns: seq<NodeRec>, b: int, up: Ctx, s: Tree, i: int, k: int, r: Tree)
    requires s.Node? && r.Nil? && Copied(ns, b, InLeft(up, i, k, r), s, false)
    ensures Copied(ns, b, up, Node(s, i, k, r), false)
  {
  }

  /** Going up from a finished right subtree: the parent's copy is finished. */
  lemma {:induction false} CopyUpRight(ns: seq<NodeRec>, b: int, l: Tree, i: int, k: int, up: Ctx, s: Tree)
    requires s.Node? && Copied(ns, b, InRight(l, i, k, up), s, false)
    ensures Copied(ns, b, up, Node(l, i, k, s), false)
  {
    UpRightLinked(ns, b, l, i, k, up, s);
    UpRightSized(ns, b, l, i, k, up, s);
    UpRightPath(ns, b, l, i, k, up, s);
  }

  // The three parts of CopyUpRight: the parent's copy is linked, sized, and its path is in place.
  lemma {:induction false} UpRightLinked(ns: seq<NodeRec>, b: int, l: Tree, i: int, k: int, up: Ctx, s: Tree)
    requires s.Node? && Copied(ns, b, InRight(l, i, k, up), s, false)
    ensures Linked(ns, Renumber(Node(l, i, k, s), b + Ahead(up)), HoleParent(PartCtx(up, b)))
  {
  }

  lemma {:induction false} UpRightSized(ns: seq<NodeRec>, b: int, l: Tree, i: int, k: int, up: Ctx, s: Tree)
    requires s.Node? && Copied(ns, b, InRight(l, i, k, up), s, false)
    ensures Sized(ns, Renumber(Node(l, i, k, s), b + Ahead(up)))
  {
  }

  lemma {:induction false} UpRightPath(ns: seq<NodeRec>, b: int, l: Tree, i: int, k: int, up: Ctx, s: Tree)
    requires s.Node? && Copied(ns, b, InRight(l, i, k, up), s, false)
    ensures LinkedCtx(ns, PartCtx(up, b), b + Ahead(up)) && SizedPart(ns, up, PartCtx(up, b), Size(Node(l, i, k, s)))
    ensures |ns| == b + Ahead(up) + Size(Node(l, i, k, s))
  {
  }

  // -------------------------------------------------------------------
  // The steps of copy_node's loop, on the walk's spots

  /** Where dst's parent pointer leads: the copy of the spot's parent, this header for the root. */
  lemma {:induction false} CopyAtParent(ns: seq<NodeRec>, b: int, t: Tree, p: Spot, dst: int, flag: bool)
    requires CopyAt(ns, b, t, p, dst, flag)
    ensures 0 <= dst < |ns| && 0 < b <= |ns| <= b + Size(t)
    ensures p.AtNode? ==> ns[dst].parent == (if p.c.Top? then HEADER else b + Ahead(p.c.up))
    ensures p.AtHeader? ==> ns[HEADER].parent == b
  {
    match p
    case AtHeader(_) =>
    case AtNode(c, s, _) =>
      PreOrderPlug(c, s, Size(s) - 1);
      var pc := PartCtx(c, b);
      assert HoleParent(pc) == if c.Top? then HEADER else b + Ahead(c.up);
      if !flag {
        assert Renumber(s, dst).id == dst;
      }
  }

  /** The step down to the left child creates its copy as dst's left child. */
  lemma {:induction false} CopyAtLeft(ns: seq<NodeRec>, b: int, t: Tree, p: Spot, dst: int, ns': seq<NodeRec>)
    requires CopyAt(ns, b, t, p, dst, true) && p.AtNode? && p.s.left.Node?
    requires ns' == (ns + [NodeRec(dst, NIL, NIL, Size(p.s.left), p.s.left.key)])[dst := ns[dst].(left := |ns|)]
    ensures PrimNext(t, p) == AtNode(InLeft(p.c, p.s.id, p.s.key, p.s.right), p.s.left, Left)
    ensures CopyAt(ns', b, t, PrimNext(t, p), |ns|, true)
    ensures |ns'| <= b + Size(t)
  {
    var AtNode(c, s, _) := p;
    CopyDownLeft(ns, b, c, s, ns');
    assert Plug(InLeft(c, s.id, s.key, s.right), s.left) == Plug(c, s);
    CopyAtParent(ns', b, t, PrimNext(t, p), |ns|, true);
  }

  /** The step down to the right child of a node without a left one: the mirror of CopyAtLeft. */
  lemma {:induction false} CopyAtRight(ns: seq<NodeRec>, b: int, t: Tree, p: Spot, dst: int, ns': seq<NodeRec>)
    requires CopyAt(ns, b, t, p, dst, true) && p.AtNode? && p.s.left.Nil? && p.s.right.Node?
    requires ns' == (ns + [NodeRec(dst, NIL, NIL, Size(p.s.right), p.s.right.key)])[dst := ns[dst].(right := |ns|)]
    ensures PrimNext(t, p) == AtNode(InRight(p.s.left, p.s.id, p.s.key, p.c), p.s.right, Right)
    ensures CopyAt(ns', b, t, PrimNext(t, p), |ns|, true)
    ensures |ns'| <= b + Size(t)
  {
    var AtNode(c, s, _) := p;
    CopyDownRight(ns, b, c, s, ns');
    assert Plug(InRight(s.left, s.id, s.key, c), s.right) == Plug(c, s);
    CopyAtParent(ns', b, t, PrimNext(t, p), |ns|, true);
  }

  /**
    * The step across from a finished left subtree, or a leaf, to its right
    * sibling r creates r's copy as the right child of dst's parent.
    */
  lemma {:induction false} CopyAtSibling(ns: seq<NodeRec>, b: int, t: Tree, p: Spot, dst: int, flag: bool, ns': seq<NodeRec>)
    requires CopyAt(ns, b, t, p, dst, flag) && p.AtNode? && (flag ==> p.s.left.Nil? && p.s.right.Nil?)
    requires p.c.InLeft? && p.c.right.Node?
    requires var pd := b + Ahead(p.c.up);
      0 <= pd < |ns| && ns' == (ns + [NodeRec(pd, NIL, NIL, Size(p.c.right), p.c.right.key)])[pd := ns[pd].(right := |ns|)]
    ensures PrimNext(t, p) == AtNode(InRight(p.s, p.c.id, p.c.key, p.c.up), p.c.right, Sibling)
    ensures CopyAt(ns', b, t, PrimNext(t, p), |ns|, true)
    ensures |ns'| <= b + Size(t)
  {
    var AtNode(InLeft(up, i, k, r), s, _) := p;
    if flag {
      CopyLeaf(ns, b, p.c, s);
    }
    CopyAcross(ns, b, up, s, i, k, r, ns');
    assert Plug(InRight(s, i, k, up), r) == Plug(p.c, s);
    CopyAtParent(ns', b, t, PrimNext(t, p), |ns|, true);
  }

  /**
    * The step up, from a finished subtree or a leaf without a right
    * sibling, or from the header: nothing is stored, dst moves to its
    * parent, and the walk gets nearer its end.
    */
  lemma {:induction false} CopyAtUp(ns: seq<NodeRec>, b: int, t: Tree, p: Spot, dst: int, flag: bool, dst': int)
    requires CopyAt(ns, b, t, p, dst, flag) && p != AtNode(Top, t, Parent)
    requires p.AtNode? ==> (flag ==> p.s.left.Nil? && p.s.right.Nil?) && !(p.c.InLeft? && p.c.right.Node?)
    requires dst' == (if p.AtNode? && !p.c.Top? then b + Ahead(p.c.up) else if p.AtNode? then HEADER else b)
    ensures CopyAt(ns, b, t, PrimNext(t, p), dst', false)
    ensures CopyRank(PrimNext(t, p)) < CopyRank(p)
  {
    match p
    case AtHeader(_) =>
    case AtNode(c, s, st) =>
      if flag {
        CopyLeaf(ns, b, c, s);
      }
      match c
      case Top =>
      case InLeft(up, i, k, r) =>
        CopyUpLeft(ns, b, up, s, i, k, r);
        assert PrimNext(t, p) == AtNode(up, Node(s, i, k, r), Parent);
      case InRight(l, i, k, up) =>
        CopyUpRight(ns, b, l, i, k, up, s);
        assert PrimNext(t, p) == AtNode(up, Node(l, i, k, s), Parent);
  }

  /**
    * What one pass of copy_node's loop does to the copy: the store after
    * it, the new dst and the new flag. Stepping down or across appends the
    * entered node's copy and links it below dst or below dst's parent;
    * stepping up stores nothing and moves dst to its parent.
    */
  function CopyNext(ns: seq<NodeRec>, b: int, t: Tree, p: Spot, dst: int, flag: bool): (r: (seq<NodeRec>, int, bool))
    requires CopyAt(ns, b, t, p, dst, flag) && p != AtNode(Top, t, Parent)
    ensures |r.0| == |ns| || |r.0| == |ns| + 1
  {
    CopyAtParent(ns, b, t, p, dst, flag);
    match p
    case AtHeader(_) => (ns, b, false)
    case AtNode(c, s, _) =>
      if flag && s.left.Node? then
        ((ns + [NodeRec(dst, NIL, NIL, Size(s.left), s.left.key)])[dst := ns[dst].(left := |ns|)], |ns|, true)
      else if flag && s.right.Node? then
        ((ns + [NodeRec(dst, NIL, NIL, Size(s.right), s.right.key)])[dst := ns[dst].(right := |ns|)], |ns|, true)
      else if c.InLeft? && c.right.Node? then
        var pd := ns[dst].parent;
        ((ns + [NodeRec(pd, NIL, NIL, Size(c.right), c.right.key)])[pd := ns[pd].(right := |ns|)], |ns|, true)
      else
        (ns, ns[dst].parent, false)
  }

  /**
    * A pass of the loop keeps CopyAt, the walk moving on as the primitive
    * iterator does; it adds a node or brings the walk nearer its end, and
    * changes no slot before the copy's.
    */
  lemma {:induction false} CopyNextAt(ns: seq<NodeRec>, b: int, t: Tree, p: Spot, dst: int, flag: bool)
    requires CopyAt(ns, b, t, p, dst, flag) && p != AtNode(Top, t, Parent)
    ensures var (ns', dst', flag') := CopyNext(ns, b, t, p, dst, flag);
      CopyAt(ns', b, t, PrimNext(t, p), dst', flag') && |ns'| <= b + Size(t) &&
      (|ns'| == |ns| + 1 || CopyRank(PrimNext(t, p)) < CopyRank(p)) &&
      ns'[..b] == ns[..b]
    ensures PrimNext(t, p).AtNode? && PrimNext(t, p).c.Top? ==> PrimNext(t, p).state == Parent
  {
    CopyAtParent(ns, b, t, p, dst, flag);
    var (ns', dst', flag') := CopyNext(ns, b, t, p, dst, flag);
    match p
    case AtHeader(_) =>
      CopyAtUp(ns, b, t, p, dst, flag, dst');
    case AtNode(c, s, _) =>
      if flag && s.left.Node? {
        CopyAtLeft(ns, b, t, p, dst, ns');
      } else if flag && s.right.Node? {
        CopyAtRight(ns, b, t, p, dst, ns');
      } else if c.InLeft? && c.right.Node? {
        CopyAtSibling(ns, b, t, p, dst, flag, ns');
      } else {
        CopyAtUp(ns, b, t, p, dst, flag, dst');
      }
  }

  /** When the walk is back at the root, the whole copy hangs below this header. */
  lemma {:induction false} CopyComplete(ns: seq<NodeRec>, b: int, t: Tree, dst: int)
    requires CopyAt(ns, b, t, AtNode(Top, t, Parent), dst, false)
    ensures Linked(ns, Renumber(t, b), HEADER) && Sized(ns, Renumber(t, b))
    ensures 0 < b && |ns| == b + Size(t) && ns[HEADER].parent == b && Renumber(t, b).id == b
  {
  }

  /**
    * With the header's left and right set to the copy's leftmost and
    * rightmost nodes, the store holds the copy: the slots before b, the
    * header's aside, are as they were.
    */
  lemma {:induction false} CopyHolds(ns: seq<NodeRec>, b: int, t: Tree, ns': seq<NodeRec>)
    requires t.Node? && 0 < b && |ns| == b + Size(t) && ns[HEADER].parent == b && ns[HEADER].size == 0
    requires Linked(ns, Renumber(t, b), HEADER) && Sized(ns, Renumber(t, b))
    requires |ns'| == |ns| && forall j :: 0 < j < |ns| ==> ns'[j] == ns[j]
    requires ns'[HEADER] == ns[HEADER].(left := Leftmost(Renumber(t, b)), right := Rightmost(Renumber(t, b)))
    ensures Holds(ns', Renumber(t, b))
  {
    var T := Renumber(t, b);
    RenumberIds(t, b);
    LinkedRange(ns, ns', T, HEADER, b, b + Size(t));
    SizedRange(ns, ns', T, b, b + Size(t));
  }
}
