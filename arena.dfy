/**
  * The node store of the imperative model. Every `sb_tree_node` lives in a
  * slot of a sequence; a pointer is the slot's index, `nullptr` is NIL and slot
  * HEADER holds the header node. `Linked` and `Sized` say that the pointers,
  * payloads and size fields stored in the slots describe a given abstract tree,
  * and the lemmas below say which updates of the slots keep that description.
  */
module Arena {
  import opened Trees

  /** One stored node: the fields of sb_tree_node. */
  datatype NodeRec = NodeRec(parent: int, left: int, right: int, size: int, data: int)

  /** Every node of t sits in ns, points to its parent p and to its children, and holds its key. */
  predicate Linked(ns: seq<NodeRec>, t: Tree, p: int)
  {
    match t
    case Nil => true
    case Node(l, i, k, r) =>
      0 <= i < |ns| &&
      ns[i].parent == p && ns[i].left == RootOf(l) && ns[i].right == RootOf(r) && ns[i].data == k &&
      Linked(ns, l, i) && Linked(ns, r, i)
  }

  /** Every node of t stores the size of its own subtree. */
  predicate Sized(ns: seq<NodeRec>, t: Tree)
  {
    match t
    case Nil => true
    case Node(l, i, _, r) => 0 <= i < |ns| && ns[i].size == Size(t) && Sized(ns, l) && Sized(ns, r)
  }

  /**
    * The nodes along context c are linked as c says, and the child pointer
    * that leads into the hole (header->parent when the hole is the root)
    * holds h.
    */
  predicate LinkedCtx(ns: seq<NodeRec>, c: Ctx, h: int)
  {
    match c
    case Top => 0 < |ns| && ns[HEADER].parent == h
    case InLeft(up, i, k, r) =>
      0 <= i < |ns| &&
      ns[i].left == h && ns[i].right == RootOf(r) && ns[i].data == k && ns[i].parent == HoleParent(up) &&
      Linked(ns, r, i) && LinkedCtx(ns, up, i)
    case InRight(l, i, k, up) =>
      0 <= i < |ns| &&
      ns[i].right == h && ns[i].left == RootOf(l) && ns[i].data == k && ns[i].parent == HoleParent(up) &&
      Linked(ns, l, i) && LinkedCtx(ns, up, i)
  }

  /** The nodes along context c store their sizes, for a hole of size hs. */
  predicate SizedCtx(ns: seq<NodeRec>, c: Ctx, hs: int)
  {
    match c
    case Top => true
    case InLeft(up, i, _, r) =>
      0 <= i < |ns| && ns[i].size == hs + Size(r) + 1 && Sized(ns, r) && SizedCtx(ns, up, hs + Size(r) + 1)
    case InRight(l, i, _, up) =>
      0 <= i < |ns| && ns[i].size == hs + Size(l) + 1 && Sized(ns, l) && SizedCtx(ns, up, hs + Size(l) + 1)
  }

  /** Every node of a linked tree sits in a slot of the store. */
  lemma {:induction false} LinkedIds(ns: seq<NodeRec>, t: Tree, p: int)
    requires Linked(ns, t, p)
    ensures forall i :: i in Ids(t) ==> 0 <= i < |ns|
  {
    match t
    case Nil =>
    case Node(l, i, k, r) =>
      LinkedIds(ns, l, i);
      LinkedIds(ns, r, i);
  }

  /** The whole tree hangs below the header. */
  predicate LinkedTop(ns: seq<NodeRec>, t: Tree)
  {
    LinkedCtx(ns, Top, RootOf(t)) && Linked(ns, t, HEADER)
  }

  /** The whole tree is linked exactly when its context and the plugged subtree are. */
  lemma {:induction false} LinkedSplit(ns: seq<NodeRec>, c: Ctx, s: Tree)
    ensures LinkedTop(ns, Plug(c, s)) <==> LinkedCtx(ns, c, RootOf(s)) && Linked(ns, s, HoleParent(c))
  {
    match c
    case Top =>
    case InLeft(up, i, k, r) =>
      LinkedSplit(ns, up, Node(s, i, k, r));
    case InRight(l, i, k, up) =>
      LinkedSplit(ns, up, Node(l, i, k, s));
  }

  /** The whole tree stores its sizes exactly when its context and the plugged subtree do. */
  lemma {:induction false} SizedSplit(ns: seq<NodeRec>, c: Ctx, s: Tree)
    ensures Sized(ns, Plug(c, s)) <==> SizedCtx(ns, c, Size(s)) && Sized(ns, s)
  {
    match c
    case Top =>
    case InLeft(up, i, k, r) =>
      SizedSplit(ns, up, Node(s, i, k, r));
    case InRight(l, i, k, up) =>
      SizedSplit(ns, up, Node(l, i, k, s));
  }

  /**
    * A subtree stays linked when no slot of it changes, except that its root
    * may be given a new parent pointer.
    */
  lemma {:induction false} LinkedMove(ns: seq<NodeRec>, ns': seq<NodeRec>, t: Tree, p: int, p': int)
    requires Linked(ns, t, p) && Distinct(t)
    requires forall i :: i in Ids(t) && i != RootOf(t) ==> 0 <= i < |ns| && i < |ns'| && ns'[i] == ns[i]
    requires t.Node? ==> 0 <= t.id < |ns| && t.id < |ns'| && ns'[t.id] == ns[t.id].(parent := p')
    ensures Linked(ns', t, p')
  {
    match t
    case Nil =>
    case Node(l, i, k, r) =>
      LinkedMove(ns, ns', l, i, i);
      LinkedMove(ns, ns', r, i, i);
  }

  lemma {:induction false} SizedFrame(ns: seq<NodeRec>, ns': seq<NodeRec>, t: Tree)
    requires Sized(ns, t)
    requires forall i :: i in Ids(t) ==> 0 <= i < |ns| && i < |ns'| && ns'[i].size == ns[i].size
    ensures Sized(ns', t)
  {
    match t
    case Nil =>
    case Node(l, i, k, r) =>
      SizedFrame(ns, ns', l);
      SizedFrame(ns, ns', r);
  }

  /**
    * A context stays linked when no slot of it changes except the child
    * pointer of the hole's parent (header->parent for the root), which now
    * holds h'.
    */
  lemma {:induction false} LinkedCtxFrame(ns: seq<NodeRec>, ns': seq<NodeRec>, c: Ctx, h: int, h': int)
    requires LinkedCtx(ns, c, h) && CtxDistinct(c) && HEADER !in CtxIds(c)
    requires forall j :: j in CtxIds(c) && j != HoleParent(c) ==> 0 <= j < |ns| && j < |ns'| && ns'[j] == ns[j]
    requires 0 < |ns| && 0 < |ns'| && ns'[HEADER].parent == (if c.Top? then h' else ns[HEADER].parent)
    requires c.InLeft? ==> 0 <= c.id < |ns| && c.id < |ns'| && ns'[c.id] == ns[c.id].(left := h')
    requires c.InRight? ==> 0 <= c.id < |ns| && c.id < |ns'| && ns'[c.id] == ns[c.id].(right := h')
    ensures LinkedCtx(ns', c, h')
  {
    match c
    case Top =>
    case InLeft(up, i, k, r) =>
      LinkedMove(ns, ns', r, i, i);
      LinkedCtxFrame(ns, ns', up, i, i);
    case InRight(l, i, k, up) =>
      LinkedMove(ns, ns', l, i, i);
      LinkedCtxFrame(ns, ns', up, i, i);
  }

  lemma {:induction false} SizedCtxFrame(ns: seq<NodeRec>, ns': seq<NodeRec>, c: Ctx, hs: int)
    requires SizedCtx(ns, c, hs)
    requires forall j :: j in CtxIds(c) ==> 0 <= j < |ns| && j < |ns'| && ns'[j].size == ns[j].size
    ensures SizedCtx(ns', c, hs)
  {
    match c
    case Top =>
    case InLeft(up, i, k, r) =>
      SizedFrame(ns, ns', r);
      SizedCtxFrame(ns, ns', up, hs + Size(r) + 1);
    case InRight(l, i, k, up) =>
      SizedFrame(ns, ns', l);
      SizedCtxFrame(ns, ns', up, hs + Size(l) + 1);
  }

  /** Two stores that agree on every size field. */
  predicate SameSizes(ns: seq<NodeRec>, ns': seq<NodeRec>)
  {
    |ns| == |ns'| && forall j :: 0 <= j < |ns| ==> ns'[j].size == ns[j].size
  }

  lemma {:induction false} SizedSame(ns: seq<NodeRec>, ns': seq<NodeRec>, t: Tree)
    requires Sized(ns, t) && SameSizes(ns, ns')
    ensures Sized(ns', t)
  {
    match t
    case Nil =>
    case Node(l, _, _, r) =>
      SizedSame(ns, ns', l);
      SizedSame(ns, ns', r);
  }

  lemma {:induction false} SizedCtxSame(ns: seq<NodeRec>, ns': seq<NodeRec>, c: Ctx, hs: int)
    requires SizedCtx(ns, c, hs) && SameSizes(ns, ns')
    ensures SizedCtx(ns', c, hs)
  {
    match c
    case Top =>
    case InLeft(up, _, _, r) =>
      SizedSame(ns, ns', r);
      SizedCtxSame(ns, ns', up, hs + Size(r) + 1);
    case InRight(l, _, _, up) =>
      SizedSame(ns, ns', l);
      SizedCtxSame(ns, ns', up, hs + Size(l) + 1);
  }

  /** Writing a slot outside t leaves t sized. */
  lemma {:induction false} SizedPoke(ns: seq<NodeRec>, t: Tree, i: int, rec: NodeRec)
    requires Sized(ns, t) && 0 <= i < |ns| && i !in Ids(t)
    ensures Sized(ns[i := rec], t)
  {
    match t
    case Nil =>
    case Node(l, _, _, r) =>
      SizedPoke(ns, l, i, rec);
      SizedPoke(ns, r, i, rec);
  }

  /** Writing a slot outside c leaves c sized. */
  lemma {:induction false} SizedCtxPoke(ns: seq<NodeRec>, c: Ctx, hs: int, i: int, rec: NodeRec)
    requires SizedCtx(ns, c, hs) && 0 <= i < |ns| && i !in CtxIds(c)
    ensures SizedCtx(ns[i := rec], c, hs)
  {
    match c
    case Top =>
    case InLeft(up, _, _, r) =>
      SizedPoke(ns, r, i, rec);
      SizedCtxPoke(ns, up, hs + Size(r) + 1, i, rec);
    case InRight(l, _, _, up) =>
      SizedPoke(ns, l, i, rec);
      SizedCtxPoke(ns, up, hs + Size(l) + 1, i, rec);
  }

  /**
    * The arena ns holds tree t: its nodes sit in slots other than the
    * header's, hang below the header, store their sizes, and the header
    * points at the root, the minimum and the maximum (at itself when the tree
    * is empty) and has size 0.
    */
  predicate Holds(ns: seq<NodeRec>, t: Tree)
  {
    0 < |ns| && Distinct(t) && (forall i :: i in Ids(t) ==> 0 < i < |ns|) &&
    LinkedTop(ns, t) && Sized(ns, t) &&
    ns[HEADER].left == (if t.Nil? then HEADER else Leftmost(t)) &&
    ns[HEADER].right == (if t.Nil? then HEADER else Rightmost(t)) &&
    ns[HEADER].size == 0
  }

  /**
    * What a store holding Plug(c, s) says about the subtree s and its
    * context: both are linked and sized, their nodes are distinct slots other
    * than the header's, and the pointer into the hole is the one c names.
    */
  lemma {:induction false} HoldsAt(ns: seq<NodeRec>, c: Ctx, s: Tree)
    requires Holds(ns, Plug(c, s))
    ensures Linked(ns, s, HoleParent(c)) && Sized(ns, s) && Distinct(s)
    ensures LinkedCtx(ns, c, RootOf(s)) && SizedCtx(ns, c, Size(s)) && CtxDistinct(c)
    ensures forall i :: i in Ids(s) ==> 0 < i < |ns|
    ensures forall i :: i in CtxIds(c) ==> 0 < i < |ns|
    ensures Ids(s) !! CtxIds(c)
    ensures c.Top? ==> HoleParent(c) == HEADER
    ensures !c.Top? ==> HoleParent(c) in CtxIds(c) && ns[HEADER].parent in CtxIds(c)
    ensures c.InRight? ==> ns[c.id].left == RootOf(c.left) && (c.left.Nil? || c.left.id in Ids(c.left))
  {
    PlugIds(c, s);
    LinkedSplit(ns, c, s);
    SizedSplit(ns, c, s);
  }

  /** The header's parent pointer is the root, nullptr exactly for the empty tree. */
  lemma {:induction false} HoldsRoot(ns: seq<NodeRec>, t: Tree)
    requires Holds(ns, t)
    ensures ns[HEADER].parent == RootOf(t)
    ensures t.Nil? <==> RootOf(t) == NIL
    ensures t.Node? ==> 0 < t.id < |ns|
  {
    assert t.Node? ==> t.id in Ids(t);
  }

  /** The size field of the node a pointer names, read as the source reads it: 0 for nullptr. */
  function SizeAt(ns: seq<NodeRec>, x: int): int
    requires x == NIL || 0 <= x < |ns|
  {
    if x == NIL then 0 else ns[x].size
  }

  /** The pointer x is not nullptr and the size field it names exceeds bound. */
  predicate Exceeds(ns: seq<NodeRec>, x: int, bound: int)
    requires x == NIL || 0 <= x < |ns|
  {
    x != NIL && bound < ns[x].size
  }

  lemma {:induction false} SizeAtRoot(ns: seq<NodeRec>, t: Tree)
    requires Sized(ns, t)
    ensures RootOf(t) == NIL || 0 <= RootOf(t) < |ns|
    ensures SizeAt(ns, RootOf(t)) == Size(t)
  {
  }

  /**
    * The second store agrees with the first on every pointer and payload of
    * the first's slots; only size fields may differ, and slots may be added.
    */
  predicate SameLinks(ns: seq<NodeRec>, ns': seq<NodeRec>)
  {
    |ns| <= |ns'| &&
    forall j :: 0 <= j < |ns| ==>
      ns'[j].parent == ns[j].parent && ns'[j].left == ns[j].left &&
      ns'[j].right == ns[j].right && ns'[j].data == ns[j].data
  }

  lemma {:induction false} LinkedLinks(ns: seq<NodeRec>, ns': seq<NodeRec>, t: Tree, p: int)
    requires Linked(ns, t, p) && SameLinks(ns, ns')
    ensures Linked(ns', t, p)
  {
    match t
    case Nil =>
    case Node(l, i, k, r) =>
      LinkedLinks(ns, ns', l, i);
      LinkedLinks(ns, ns', r, i);
  }

  lemma {:induction false} LinkedCtxLinks(ns: seq<NodeRec>, ns': seq<NodeRec>, c: Ctx, h: int)
    requires LinkedCtx(ns, c, h) && SameLinks(ns, ns')
    ensures LinkedCtx(ns', c, h)
  {
    match c
    case Top =>
    case InLeft(up, i, k, r) =>
      LinkedLinks(ns, ns', r, i);
      LinkedCtxLinks(ns, ns', up, i);
    case InRight(l, i, k, up) =>
      LinkedLinks(ns, ns', l, i);
      LinkedCtxLinks(ns, ns', up, i);
  }
}
