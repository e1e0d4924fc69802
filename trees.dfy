/**
  * The abstract view of a size-balanced tree: a binary tree whose nodes carry
  * the node's identity (its address in the arena of the imperative model) and
  * its key, the in-order sequence of entries, zipper contexts for the path from
  * the root to a node, and the two tree transformations the container is built
  * from: the rotations and the rebalancer `Maintain`.
  */
module Trees {
  /** The null pointer and the header node, as arena indices. */
  const NIL: int := -1
  const HEADER: int := 0

  datatype Tree = Nil | Node(left: Tree, id: int, key: int, right: Tree)

  /** One element as an in-order traversal meets it: which node, which key. */
  datatype Entry = Entry(id: int, key: int)

  function Size(t: Tree): nat
  {
    match t
    case Nil => 0
    case Node(l, _, _, r) => Size(l) + Size(r) + 1
  }

  /** The in-order sequence of entries: what iteration from begin() to end() visits. */
  function Entries(t: Tree): (s: seq<Entry>)
    ensures |s| == Size(t)
  {
    match t
    case Nil => []
    case Node(l, i, k, r) => Entries(l) + [Entry(i, k)] + Entries(r)
  }

  function Ids(t: Tree): set<int>
  {
    match t
    case Nil => {}
    case Node(l, i, _, r) => Ids(l) + {i} + Ids(r)
  }

  /** No node occurs twice. */
  predicate Distinct(t: Tree)
  {
    match t
    case Nil => true
    case Node(l, i, _, r) =>
      Distinct(l) && Distinct(r) && i !in Ids(l) && i !in Ids(r) && Ids(l) !! Ids(r)
  }

  /** The pointer to the subtree's root node; `nullptr` for the empty tree. */
  function RootOf(t: Tree): int
  {
    if t.Nil? then NIL else t.id
  }

  /** Sum of the depths of all nodes: the rebalancer's termination measure. */
  function SD(t: Tree): nat
  {
    match t
    case Nil => 0
    case Node(l, _, _, r) => SD(l) + Size(l) + SD(r) + Size(r)
  }

  /** Keys never decrease along the in-order sequence (duplicates allowed). */
  predicate Sorted(s: seq<Entry>)
  {
    forall i, j :: 0 <= i < j < |s| ==> s[i].key <= s[j].key
  }

  predicate Ordered(t: Tree)
  {
    Sorted(Entries(t))
  }

  lemma {:induction false} IdsOfEntries(t: Tree, e: Entry)
    requires e in Entries(t)
    ensures e.id in Ids(t)
  {
    match t
    case Nil =>
    case Node(l, i, k, r) =>
      if e in Entries(l) {
        IdsOfEntries(l, e);
      } else if e in Entries(r) {
        IdsOfEntries(r, e);
      }
  }

  lemma {:induction false} EntriesOfIds(t: Tree, x: int)
    requires x in Ids(t)
    ensures exists j :: 0 <= j < |Entries(t)| && Entries(t)[j].id == x
  {
    match t
    case Nil =>
    case Node(l, i, k, r) =>
      if x in Ids(l) {
        EntriesOfIds(l, x);
        var j :| 0 <= j < |Entries(l)| && Entries(l)[j].id == x;
        assert Entries(t)[j] == Entries(l)[j];
      } else if x in Ids(r) {
        EntriesOfIds(r, x);
        var j :| 0 <= j < |Entries(r)| && Entries(r)[j].id == x;
        assert Entries(t)[|Entries(l)| + 1 + j] == Entries(r)[j];
      } else {
        assert Entries(t)[|Entries(l)|].id == x;
      }
  }

  /** In a tree whose nodes are distinct, the in-order sequence names each node once. */
  lemma {:induction false} DistinctEntries(t: Tree)
    requires Distinct(t)
    ensures forall a, b :: 0 <= a < b < |Entries(t)| ==> Entries(t)[a].id != Entries(t)[b].id
  {
    match t
    case Nil =>
    case Node(l, i, k, r) =>
      DistinctEntries(l);
      DistinctEntries(r);
      var s := Entries(t);
      var n := |Entries(l)|;
      forall a, b | 0 <= a < b < |s| ensures s[a].id != s[b].id {
        if b < n {
          assert s[a] == Entries(l)[a] && s[b] == Entries(l)[b];
        } else if a > n {
          assert s[a] == Entries(r)[a - n - 1] && s[b] == Entries(r)[b - n - 1];
        } else if a == n {
          assert s[b] == Entries(r)[b - n - 1];
          IdsOfEntries(r, s[b]);
        } else if b == n {
          assert s[a] == Entries(l)[a];
          IdsOfEntries(l, s[a]);
        } else {
          assert s[a] == Entries(l)[a] && s[b] == Entries(r)[b - n - 1];
          IdsOfEntries(l, s[a]);
          IdsOfEntries(r, s[b]);
        }
      }
  }

  lemma {:induction false} SortedConcat(a: seq<Entry>, e: Entry, b: seq<Entry>)
    ensures Sorted(a + [e] + b) <==>
      Sorted(a) && Sorted(b) &&
      (forall x :: x in a ==> x.key <= e.key) && (forall y :: y in b ==> e.key <= y.key)
  {
    if Sorted(a + [e] + b) {
      SortedParts(a, e, b);
    }
    if Sorted(a) && Sorted(b) &&
      (forall x :: x in a ==> x.key <= e.key) && (forall y :: y in b ==> e.key <= y.key)
    {
      SortedJoin(a, e, b);
    }
  }

  lemma {:induction false} SortedParts(a: seq<Entry>, e: Entry, b: seq<Entry>)
    requires Sorted(a + [e] + b)
    ensures Sorted(a) && Sorted(b)
    ensures (forall x :: x in a ==> x.key <= e.key) && (forall y :: y in b ==> e.key <= y.key)
  {
    var s := a + [e] + b;
    assert s[|a|] == e;
    forall i, j | 0 <= i < j < |a| ensures a[i].key <= a[j].key {
      assert s[i] == a[i] && s[j] == a[j];
    }
    forall i, j | 0 <= i < j < |b| ensures b[i].key <= b[j].key {
      assert s[|a| + 1 + i] == b[i] && s[|a| + 1 + j] == b[j];
    }
    forall x | x in a ensures x.key <= e.key {
      var i :| 0 <= i < |a| && a[i] == x;
      assert s[i] == x;
    }
    forall y | y in b ensures e.key <= y.key {
      var i :| 0 <= i < |b| && b[i] == y;
      assert s[|a| + 1 + i] == y;
    }
  }

  lemma {:induction false} SortedJoin(a: seq<Entry>, e: Entry, b: seq<Entry>)
    requires Sorted(a) && Sorted(b)
    requires (forall x :: x in a ==> x.key <= e.key) && (forall y :: y in b ==> e.key <= y.key)
    ensures Sorted(a + [e] + b)
  {
    var s := a + [e] + b;
    forall i, j | 0 <= i < j < |s| ensures s[i].key <= s[j].key {
      if j < |a| {
        assert s[i] == a[i] && s[j] == a[j];
      } else if i > |a| {
        assert s[i] == b[i - |a| - 1] && s[j] == b[j - |a| - 1];
      } else if i == |a| {
        assert s[i] == e && s[j] == b[j - |a| - 1];
      } else if j == |a| {
        assert s[i] == a[i] && s[j] == e;
      } else {
        assert s[i] == a[i] && s[j] == b[j - |a| - 1];
        assert a[i] in a && b[j - |a| - 1] in b;
      }
    }
  }

  /** The node holding the smallest entry: what header->left points to. */
  function Leftmost(t: Tree): (x: int)
    requires t.Node?
    ensures x == Entries(t)[0].id
  {
    if t.left.Nil? then t.id else Leftmost(t.left)
  }

  /** The node holding the largest entry: what header->right points to. */
  function Rightmost(t: Tree): (x: int)
    requires t.Node?
    ensures x == Entries(t)[|Entries(t)| - 1].id
  {
    if t.right.Nil? then t.id else Rightmost(t.right)
  }

  /** Trees with the same in-order entries have the same extreme nodes. */
  lemma {:induction false} SameExtremes(t: Tree, u: Tree)
    requires t.Node? && u.Node? && Entries(t) == Entries(u)
    ensures Leftmost(t) == Leftmost(u) && Rightmost(t) == Rightmost(u)
  {
  }

  // ---------------------------------------------------------------------
  // Rotations (left_rotate, right_rotate) and the rebalancer (insert_rebalance)
  // ---------------------------------------------------------------------

  /** left_rotate: the right child becomes the subtree's root. */
  function RotL(t: Tree): (r: Tree)
    requires t.Node? && t.right.Node?
    ensures r.Node? && r.id == t.right.id && r.left.Node? && r.left.id == t.id
    ensures Entries(r) == Entries(t) && Ids(r) == Ids(t) && Size(r) == Size(t)
    ensures Distinct(t) ==> Distinct(r)
    ensures SD(r) + Size(t.right.right) == SD(t) + Size(t.left)
  {
    RotLDistinct(t);
    Node(Node(t.left, t.id, t.key, t.right.left), t.right.id, t.right.key, t.right.right)
  }

  /** right_rotate: the left child becomes the subtree's root. */
  function RotR(t: Tree): (r: Tree)
    requires t.Node? && t.left.Node?
    ensures r.Node? && r.id == t.left.id && r.right.Node? && r.right.id == t.id
    ensures Entries(r) == Entries(t) && Ids(r) == Ids(t) && Size(r) == Size(t)
    ensures Distinct(t) ==> Distinct(r)
    ensures SD(r) + Size(t.left.left) == SD(t) + Size(t.right)
  {
    RotRDistinct(t);
    Node(t.left.left, t.left.id, t.left.key, Node(t.left.right, t.id, t.key, t.right))
  }

  lemma {:induction false} RotLDistinct(t: Tree)
    requires t.Node? && t.right.Node?
    ensures Distinct(t) ==>
      Distinct(Node(Node(t.left, t.id, t.key, t.right.left), t.right.id, t.right.key, t.right.right))
  {
    var Node(a, x, kx, r) := t;
    var Node(b, y, ky, c) := r;
    var u := Node(a, x, kx, b);
    if Distinct(t) {
      assert Distinct(r);
      assert Ids(r) == Ids(b) + {y} + Ids(c);
      assert Ids(u) == Ids(a) + {x} + Ids(b);
      assert Distinct(u);
    }
  }

  lemma {:induction false} RotRDistinct(t: Tree)
    requires t.Node? && t.left.Node?
    ensures Distinct(t) ==>
      Distinct(Node(t.left.left, t.left.id, t.left.key, Node(t.left.right, t.id, t.key, t.right)))
  {
    var Node(l, y, ky, c) := t;
    var Node(a, x, kx, b) := l;
    var u := Node(b, y, ky, c);
    if Distinct(t) {
      assert Distinct(l);
      assert Ids(l) == Ids(a) + {x} + Ids(b);
      assert Ids(u) == Ids(b) + {y} + Ids(c);
      assert Distinct(u);
    }
  }

  /** Case 1 of insert_rebalance: size(T.left) < size(T.right.left). */
  predicate RightInnerHeavy(t: Tree)
  {
    t.Node? && t.right.Node? && t.right.left.Node? && Size(t.left) < Size(t.right.left)
  }

  /** Case 2 of insert_rebalance: size(T.left) < size(T.right.right). */
  predicate RightOuterHeavy(t: Tree)
  {
    t.Node? && t.right.Node? && t.right.right.Node? && Size(t.left) < Size(t.right.right)
  }

  /** Case 3 of insert_rebalance: size(T.right) < size(T.left.right). */
  predicate LeftInnerHeavy(t: Tree)
  {
    t.Node? && t.left.Node? && t.left.right.Node? && Size(t.right) < Size(t.left.right)
  }

  /** Case 4 of insert_rebalance: size(T.right) < size(T.left.left). */
  predicate LeftOuterHeavy(t: Tree)
  {
    t.Node? && t.left.Node? && t.left.left.Node? && Size(t.right) < Size(t.left.left)
  }

  /** Whether the rebalancer rotates at t: flag true checks the right side, false the left. */
  predicate Fires(t: Tree, rightSide: bool)
  {
    if rightSide then RightInnerHeavy(t) || RightOuterHeavy(t)
    else LeftInnerHeavy(t) || LeftOuterHeavy(t)
  }

  /**
    * insert_rebalance(t, flag): with flag set, repairs a right side grown too
    * heavy (cases 1 and 2), otherwise a left side (cases 3 and 4), and repairs
    * recursively what the rotations disturbed. erase_rebalance(t, flag) is the
    * same function with the flag inverted. It only rearranges: the in-order
    * sequence is kept and the sum of depths never grows.
    */
  function Maintain(t: Tree, rightSide: bool): (r: Tree)
    ensures Entries(r) == Entries(t) && Ids(r) == Ids(t) && Size(r) == Size(t)
    ensures t.Node? ==> r.Node?
    ensures SD(r) <= SD(t)
    ensures !Fires(t, rightSide) ==> r == t
    decreases SD(t)
  {
    if rightSide then
      if RightInnerHeavy(t) then
        var u := RotL(Node(t.left, t.id, t.key, RotR(t.right)));
        var v := Node(Maintain(u.left, false), u.id, u.key, u.right);
        var w := Node(v.left, v.id, v.key, Maintain(v.right, true));
        Maintain(w, true)
      else if RightOuterHeavy(t) then
        var u := RotL(t);
        Maintain(Node(Maintain(u.left, false), u.id, u.key, u.right), true)
      else
        t
    else
      if LeftInnerHeavy(t) then
        var u := RotR(Node(RotL(t.left), t.id, t.key, t.right));
        var v := Node(Maintain(u.left, false), u.id, u.key, u.right);
        var w := Node(v.left, v.id, v.key, Maintain(v.right, true));
        Maintain(w, false)
      else if LeftOuterHeavy(t) then
        var u := RotR(t);
        Maintain(Node(u.left, u.id, u.key, Maintain(u.right, true)), false)
      else
        t
  }

  /** Distinctness is a matter of counting: no node is shared iff there are as many ids as nodes. */
  lemma {:induction false} DistinctCount(t: Tree)
    ensures Distinct(t) <==> |Ids(t)| == Size(t)
    ensures |Ids(t)| <= Size(t)
  {
    match t
    case Nil =>
    case Node(l, i, k, r) =>
      DistinctCount(l);
      DistinctCount(r);
      var L, R := Ids(l), Ids(r);
      assert |L + R| == |L| + |R| - |L * R|;
      var U := L + R;
      if i in U {
        assert U + {i} == U;
      } else {
        assert |U + {i}| == |U| + 1;
      }
      assert Ids(t) == U + {i};
      if |Ids(t)| == Size(t) {
        assert |L * R| == 0;
        assert L * R == {};
      }
  }

  lemma {:induction false} MaintainDistinct(t: Tree, rightSide: bool)
    ensures Distinct(Maintain(t, rightSide)) <==> Distinct(t)
  {
    DistinctCount(t);
    DistinctCount(Maintain(t, rightSide));
  }

  // ---------------------------------------------------------------------
  // Contexts: the path from the root down to one subtree
  // ---------------------------------------------------------------------

  /**
    * A tree with a hole. InLeft means the hole is the left child of node `id`,
    * whose right subtree is `right`; InRight the mirror image.
    */
  datatype Ctx =
    | Top
    | InLeft(up: Ctx, id: int, key: int, right: Tree)
    | InRight(left: Tree, id: int, key: int, up: Ctx)

  function Plug(c: Ctx, s: Tree): Tree
  {
    match c
    case Top => s
    case InLeft(up, i, k, r) => Plug(up, Node(s, i, k, r))
    case InRight(l, i, k, up) => Plug(up, Node(l, i, k, s))
  }

  /** The node whose child pointer leads to the hole; the header for the root. */
  function HoleParent(c: Ctx): int
  {
    match c
    case Top => HEADER
    case InLeft(_, i, _, _) => i
    case InRight(_, i, _, _) => i
  }

  function CtxIds(c: Ctx): set<int>
  {
    match c
    case Top => {}
    case InLeft(up, i, _, r) => CtxIds(up) + {i} + Ids(r)
    case InRight(l, i, _, up) => CtxIds(up) + {i} + Ids(l)
  }

  /** The entries that an in-order traversal meets before and after the hole. */
  function Before(c: Ctx): seq<Entry>
  {
    match c
    case Top => []
    case InLeft(up, _, _, _) => Before(up)
    case InRight(l, i, k, up) => Before(up) + Entries(l) + [Entry(i, k)]
  }

  function After(c: Ctx): seq<Entry>
  {
    match c
    case Top => []
    case InLeft(up, i, k, r) => [Entry(i, k)] + Entries(r) + After(up)
    case InRight(_, _, _, up) => After(up)
  }

  function Depth(c: Ctx): nat
  {
    match c
    case Top => 0
    case InLeft(up, _, _, _) => Depth(up) + 1
    case InRight(_, _, _, up) => Depth(up) + 1
  }

  /** The context `inner` placed in the hole of `outer`. */
  function Compose(inner: Ctx, outer: Ctx): (c: Ctx)
    ensures Depth(c) == Depth(inner) + Depth(outer)
  {
    match inner
    case Top => outer
    case InLeft(up, i, k, r) => InLeft(Compose(up, outer), i, k, r)
    case InRight(l, i, k, up) => InRight(l, i, k, Compose(up, outer))
  }

  lemma {:induction false} PlugCompose(inner: Ctx, outer: Ctx, s: Tree)
    ensures Plug(Compose(inner, outer), s) == Plug(outer, Plug(inner, s))
  {
    match inner
    case Top =>
    case InLeft(up, i, k, r) => PlugCompose(up, outer, Node(s, i, k, r));
    case InRight(l, i, k, up) => PlugCompose(up, outer, Node(l, i, k, s));
  }

  lemma {:induction false} PlugEntries(c: Ctx, s: Tree)
    ensures Entries(Plug(c, s)) == Before(c) + Entries(s) + After(c)
  {
    match c
    case Top =>
    case InLeft(up, i, k, r) =>
      PlugEntries(up, Node(s, i, k, r));
      RegroupLeft(Before(up), Entries(s), [Entry(i, k)], Entries(r), After(up));
    case InRight(l, i, k, up) =>
      PlugEntries(up, Node(l, i, k, s));
      RegroupRight(Before(up), Entries(l), [Entry(i, k)], Entries(s), After(up));
  }

  lemma {:induction false} RegroupLeft<T>(a: seq<T>, b: seq<T>, c: seq<T>, d: seq<T>, e: seq<T>)
    ensures a + (b + c + d) + e == a + b + (c + d + e)
  {
  }

  lemma {:induction false} RegroupRight<T>(a: seq<T>, b: seq<T>, c: seq<T>, d: seq<T>, e: seq<T>)
    ensures a + (b + c + d) + e == a + b + c + d + e
  {
  }

  /** No node occurs twice along the context or in the subtrees hanging off it. */
  predicate CtxDistinct(c: Ctx)
  {
    match c
    case Top => true
    case InLeft(up, i, _, r) =>
      CtxDistinct(up) && Distinct(r) && i !in Ids(r) && i !in CtxIds(up) && Ids(r) !! CtxIds(up)
    case InRight(l, i, _, up) =>
      CtxDistinct(up) && Distinct(l) && i !in Ids(l) && i !in CtxIds(up) && Ids(l) !! CtxIds(up)
  }

  lemma {:induction false} PlugIds(c: Ctx, s: Tree)
    ensures Ids(Plug(c, s)) == CtxIds(c) + Ids(s)
    ensures Size(Plug(c, s)) >= Size(s)
    ensures Distinct(Plug(c, s)) ==> Distinct(s) && CtxDistinct(c) && CtxIds(c) !! Ids(s)
    ensures c != Top ==> RootOf(Plug(c, s)) in CtxIds(c)
    ensures c == Top ==> RootOf(Plug(c, s)) == RootOf(s)
  {
    match c
    case Top =>
    case InLeft(up, i, k, r) =>
      PlugIds(up, Node(s, i, k, r));
    case InRight(l, i, k, up) =>
      PlugIds(up, Node(l, i, k, s));
  }

  /** Plugging a bigger subtree into the same context grows the tree by the difference. */
  lemma {:induction false} PlugSize(c: Ctx, s: Tree, s': Tree)
    ensures Size(Plug(c, s')) - Size(Plug(c, s)) == Size(s') - Size(s)
  {
    match c
    case Top =>
    case InLeft(up, i, k, r) =>
      PlugSize(up, Node(s, i, k, r), Node(s', i, k, r));
    case InRight(l, i, k, up) =>
      PlugSize(up, Node(l, i, k, s), Node(l, i, k, s'));
  }

  /**
    * Replacing the plugged subtree by one with the same nodes, in the same
    * order, changes neither the in-order sequence nor the node set of the
    * whole tree, nor whether its nodes are distinct.
    */
  lemma {:induction false} PlugSame(c: Ctx, s: Tree, s': Tree)
    requires Entries(s) == Entries(s') && Ids(s) == Ids(s') && Size(s) == Size(s')
    ensures Entries(Plug(c, s)) == Entries(Plug(c, s'))
    ensures Ids(Plug(c, s)) == Ids(Plug(c, s')) && Size(Plug(c, s)) == Size(Plug(c, s'))
    ensures Distinct(Plug(c, s)) <==> Distinct(Plug(c, s'))
  {
    match c
    case Top =>
      DistinctCount(s);
      DistinctCount(s');
    case InLeft(up, i, k, r) =>
      PlugSame(up, Node(s, i, k, r), Node(s', i, k, r));
    case InRight(l, i, k, up) =>
      PlugSame(up, Node(l, i, k, s), Node(l, i, k, s'));
  }

  /** A slice of a sorted sequence is sorted. */
  lemma {:induction false} SortedSlice(a: seq<Entry>, b: seq<Entry>, c: seq<Entry>)
    requires Sorted(a + b + c)
    ensures Sorted(b)
  {
    var s := a + b + c;
    forall i, j | 0 <= i < j < |b| ensures b[i].key <= b[j].key {
      assert b[i] == s[|a| + i] && b[j] == s[|a| + j];
    }
  }

  /**
    * In an ordered tree, the keys of the left subtree of any node are at most
    * its key and those of its right subtree at least its key.
    */
  lemma {:induction false} SubtreeOrder(c: Ctx, s: Tree)
    requires Ordered(Plug(c, s)) && s.Node?
    ensures Sorted(Entries(s))
    ensures forall e :: e in Entries(s.left) ==> e.key <= s.key
    ensures forall e :: e in Entries(s.right) ==> s.key <= e.key
  {
    PlugEntries(c, s);
    SortedSlice(Before(c), Entries(s), After(c));
    SortedConcat(Entries(s.left), Entry(s.id, s.key), Entries(s.right));
  }

  /** The in-order position of node x: where an iterator at x stands. */
  function Position(t: Tree, x: int): (p: nat)
    requires x in Ids(t)
    ensures p < Size(t) && Entries(t)[p].id == x
  {
    match t
    case Node(l, i, k, r) =>
      if x in Ids(l) then
        assert Entries(t)[Position(l, x)] == Entries(l)[Position(l, x)];
        Position(l, x)
      else if x == i then
        Size(l)
      else
        assert Entries(t)[Size(l) + 1 + Position(r, x)] == Entries(r)[Position(r, x)];
        Size(l) + 1 + Position(r, x)
  }

  /** In a tree of distinct nodes the node at position j stands at position j. */
  lemma {:induction false} PositionUnique(t: Tree, j: int)
    requires Distinct(t) && 0 <= j < |Entries(t)|
    ensures Entries(t)[j].id in Ids(t) && Position(t, Entries(t)[j].id) == j
  {
    IdsOfEntries(t, Entries(t)[j]);
    DistinctEntries(t);
  }

  /** The context and the subtree at node x. */
  function Locate(t: Tree, x: int): (cs: (Ctx, Tree))
    requires x in Ids(t)
    ensures Plug(cs.0, cs.1) == t && cs.1.Node? && cs.1.id == x
  {
    match t
    case Node(l, i, k, r) =>
      if x == i then
        (Top, t)
      else if x in Ids(l) then
        var (c, s) := Locate(l, x);
        PlugCompose(c, InLeft(Top, i, k, r), s);
        (Compose(c, InLeft(Top, i, k, r)), s)
      else
        var (c, s) := Locate(r, x);
        PlugCompose(c, InRight(l, i, k, Top), s);
        (Compose(c, InRight(l, i, k, Top)), s)
  }
}
