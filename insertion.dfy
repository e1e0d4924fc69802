/**
  * What insert_equal_node and insert_unique_node do to the abstract tree.
  * The new node goes where a plain binary-search-tree descent ends (left on
  * a smaller key, right otherwise), hangs below that landing node, and then
  * the do-while climb runs insert_rebalance on every ancestor of the
  * landing node, with the flag saying on which side the changed subtree
  * hangs. The landing node itself is not rebalanced. When it is the root,
  * the climb's first call lands on the header and its second one rebalances
  * the root with the flag false.
  */
module Insertion {
  import opened Trees
  import opened Search

  function Leaf(id: int, key: int): Tree
  {
    Node(Nil, id, key, Nil)
  }

  /** Binary-search-tree insertion without rebalancing. */
  function AttachTree(t: Tree, id: int, key: int): (r: Tree)
    ensures r.Node? && Size(r) == Size(t) + 1 && Ids(r) == Ids(t) + {id}
  {
    match t
    case Nil => Leaf(id, key)
    case Node(l, i, k, r) =>
      if key < k then Node(AttachTree(l, id, key), i, k, r) else Node(l, i, k, AttachTree(r, id, key))
  }

  /**
    * Where the descent for key stops when it starts at subtree s in context
    * c: the landing node's subtree and its context. The landing node lacks
    * the child the descent would go on to.
    */
  function LandingAt(c: Ctx, s: Tree, key: int): (cl: (Ctx, Tree))
    requires s.Node?
    ensures cl.1.Node? && Plug(cl.0, cl.1) == Plug(c, s)
    ensures key < cl.1.key ==> cl.1.left.Nil?
    ensures !(key < cl.1.key) ==> cl.1.right.Nil?
    decreases Size(s)
  {
    if key < s.key then
      if s.left.Nil? then (c, s) else LandingAt(InLeft(c, s.id, s.key, s.right), s.left, key)
    else
      if s.right.Nil? then (c, s) else LandingAt(InRight(s.left, s.id, s.key, c), s.right, key)
  }

  /** The landing node with the new leaf on the side the descent would continue on. */
  function Attach(s: Tree, id: int, key: int): Tree
    requires s.Node?
  {
    if key < s.key then Node(Leaf(id, key), s.id, s.key, s.right) else Node(s.left, s.id, s.key, Leaf(id, key))
  }

  /** Attaching at the landing node is binary-search-tree insertion into the whole tree. */
  lemma {:induction false} LandingAttach(c: Ctx, s: Tree, id: int, key: int)
    requires s.Node?
    ensures var cl := LandingAt(c, s, key);
      Plug(cl.0, Attach(cl.1, id, key)) == Plug(c, AttachTree(s, id, key))
    decreases Size(s)
  {
    if key < s.key {
      if s.left.Node? {
        LandingAttach(InLeft(c, s.id, s.key, s.right), s.left, id, key);
      }
    } else {
      if s.right.Node? {
        LandingAttach(InRight(s.left, s.id, s.key, c), s.right, id, key);
      }
    }
  }

  /** The climb: every ancestor rebalanced, towards the side its changed child hangs on. */
  function Up(c: Ctx, x: Tree): Tree
  {
    match c
    case Top => x
    case InLeft(up, i, k, r) => Up(up, Maintain(Node(x, i, k, r), false))
    case InRight(l, i, k, up) => Up(up, Maintain(Node(l, i, k, x), true))
  }

  /**
    * The do-while climb started at the landing node x in context c. From
    * the root it calls the rebalancer on the header, which does not rotate,
    * and then on the root with flag (header == root->right), which is false.
    */
  function Climb(c: Ctx, x: Tree): Tree
  {
    if c.Top? then Maintain(x, false) else Up(c, x)
  }

  /** One step of the climb, and where it ends. */
  lemma {:induction false} UpStep(c: Ctx, x: Tree)
    ensures c.InLeft? ==> Up(c, x) == Up(c.up, Maintain(Node(x, c.id, c.key, c.right), false))
    ensures c.InRight? ==> Up(c, x) == Up(c.up, Maintain(Node(c.left, c.id, c.key, x), true))
    ensures c.Top? ==> Up(c, x) == x && Climb(c, x) == Maintain(x, false)
    ensures !c.Top? ==> Climb(c, x) == Up(c, x)
  {
  }

  /** The climb only rearranges: the in-order sequence and the node set stay. */
  lemma {:induction false} UpKeeps(c: Ctx, x: Tree)
    ensures Entries(Up(c, x)) == Entries(Plug(c, x)) && Ids(Up(c, x)) == Ids(Plug(c, x))
    ensures Distinct(Up(c, x)) <==> Distinct(Plug(c, x))
  {
    match c
    case Top =>
    case InLeft(up, i, k, r) =>
      var y := Node(x, i, k, r);
      MaintainDistinct(y, false);
      PlugSame(up, y, Maintain(y, false));
      UpKeeps(up, Maintain(y, false));
    case InRight(l, i, k, up) =>
      var y := Node(l, i, k, x);
      MaintainDistinct(y, true);
      PlugSame(up, y, Maintain(y, true));
      UpKeeps(up, Maintain(y, true));
  }

  lemma {:induction false} ClimbKeeps(c: Ctx, x: Tree)
    ensures Entries(Climb(c, x)) == Entries(Plug(c, x)) && Ids(Climb(c, x)) == Ids(Plug(c, x))
    ensures Distinct(Climb(c, x)) <==> Distinct(Plug(c, x))
    ensures x.Node? ==> Climb(c, x).Node?
  {
    UpKeeps(c, x);
    MaintainDistinct(x, false);
    if x.Node? && !c.Top? {
      PlugIds(c, x);
      assert x.id in Ids(Up(c, x));
    }
  }

  /** The tree insert_equal_node leaves behind. */
  function InsertEqualTree(t: Tree, id: int, key: int): Tree
  {
    if t.Nil? then Leaf(id, key)
    else
      var cl := LandingAt(Top, t, key);
      Climb(cl.0, Attach(cl.1, id, key))
  }

  /** Insertion into the left part of L + [e] + R, for a key less than e's. */
  lemma {:induction false} InsertLeftPart(L: seq<Entry>, e: Entry, R: seq<Entry>, key: int, x: Entry)
    requires key < e.key
    ensures var E := L + [e] + R; var u := UpperIndex(L, key);
      UpperIndex(E, key) == u &&
      E[..u] + [x] + E[u..] == (L[..u] + [x] + L[u..]) + [e] + R
  {
    var eR := [e] + R;
    assert L + [e] + R == L + eR;
    UpperIndexBefore(L, eR, key);
    InsertBefore(L, eR, UpperIndex(L, key), x);
  }

  /** An entry with a greater key, and whatever follows it, does not move the upper index. */
  lemma {:induction false} UpperIndexBefore(b: seq<Entry>, a: seq<Entry>, key: int)
    requires a != [] && key < a[0].key
    ensures UpperIndex(b + a, key) == UpperIndex(b, key)
  {
    if b != [] {
      assert (b + a)[0] == b[0];
      assert (b + a)[1..] == b[1..] + a;
      UpperIndexBefore(b[1..], a, key);
    } else {
      assert b + a == a;
    }
  }

  /** Inserting at position u of b + a, with u inside b, is inserting into b. */
  lemma {:induction false} InsertBefore<T>(b: seq<T>, a: seq<T>, u: nat, x: T)
    requires u <= |b|
    ensures (b + a)[..u] + [x] + (b + a)[u..] == (b[..u] + [x] + b[u..]) + a
  {
    assert (b + a)[..u] == b[..u];
    assert (b + a)[u..] == b[u..] + a;
  }

  /** Insertion into the right part of L + [e] + R, for a key not less than any key of L or e's. */
  lemma {:induction false} InsertRightPart(L: seq<Entry>, e: Entry, R: seq<Entry>, key: int, x: Entry)
    requires e.key <= key && forall f :: f in L ==> f.key <= key
    ensures var E := L + [e] + R; var v := UpperIndex(R, key);
      UpperIndex(E, key) == |L| + 1 + v &&
      E[..|L| + 1 + v] + [x] + E[|L| + 1 + v..] == L + [e] + (R[..v] + [x] + R[v..])
  {
    var Le := L + [e];
    forall f | f in Le ensures f.key <= key {
      if f != e {
        assert f in L;
      }
    }
    UpperIndexAfter(Le, R, key);
    InsertAfter(Le, R, UpperIndex(R, key), x);
  }

  /** Entries whose keys are all not greater than the key come before the upper index. */
  lemma {:induction false} UpperIndexAfter(b: seq<Entry>, a: seq<Entry>, key: int)
    requires forall f :: f in b ==> f.key <= key
    ensures UpperIndex(b + a, key) == |b| + UpperIndex(a, key)
  {
    if b != [] {
      assert (b + a)[0] == b[0];
      assert (b + a)[1..] == b[1..] + a;
      UpperIndexAfter(b[1..], a, key);
    } else {
      assert b + a == a;
    }
  }

  /** Inserting at position |b| + v of b + a is inserting at position v of a. */
  lemma {:induction false} InsertAfter<T>(b: seq<T>, a: seq<T>, v: nat, x: T)
    requires v <= |a|
    ensures (b + a)[..|b| + v] + [x] + (b + a)[|b| + v..] == b + (a[..v] + [x] + a[v..])
  {
    assert (b + a)[..|b| + v] == b + a[..v];
    assert (b + a)[|b| + v..] == a[v..];
  }

  /**
    * In a sorted sequence, binary-search-tree insertion puts the new entry
    * right after the last entry whose key is not greater.
    */
  lemma {:induction false} AttachEntries(t: Tree, id: int, key: int)
    requires Ordered(t)
    ensures var E := Entries(t); var u := UpperIndex(E, key);
      Entries(AttachTree(t, id, key)) == E[..u] + [Entry(id, key)] + E[u..]
  {
    var x := Entry(id, key);
    match t
    case Nil =>
      assert Entries(AttachTree(t, id, key)) == [x] == Entries(t)[..0] + [x] + Entries(t)[0..];
    case Node(l, i, k, r) =>
      var L, e, R := Entries(l), Entry(i, k), Entries(r);
      assert Entries(t) == L + [e] + R;
      if key < k {
        assert Ordered(l) by {
          SortedParts(L, e, R);
        }
        AttachEntries(l, id, key);
        assert Entries(AttachTree(t, id, key)) == Entries(AttachTree(l, id, key)) + [e] + R;
        InsertLeftPart(L, e, R, key, x);
      } else {
        assert Ordered(r) && forall f :: f in L ==> f.key <= key by {
          SortedParts(L, e, R);
        }
        AttachEntries(r, id, key);
        assert Entries(AttachTree(t, id, key)) == L + [e] + Entries(AttachTree(r, id, key));
        InsertRightPart(L, e, R, key, x);
      }
  }

  /** Inserting an entry where UpperIndex points keeps a sorted sequence sorted. */
  lemma {:induction false} SortedInsert(E: seq<Entry>, key: int, e: Entry)
    requires Sorted(E) && e.key == key
    ensures var u := UpperIndex(E, key); Sorted(E[..u] + [e] + E[u..])
  {
    var u := UpperIndex(E, key);
    UpperIndexPartition(E, key);
    var s := E[..u] + [e] + E[u..];
    forall i, j | 0 <= i < j < |s| ensures s[i].key <= s[j].key {
      if j < u {
        assert s[i] == E[i] && s[j] == E[j];
      } else if j == u {
        assert s[i] == E[i];
      } else if i == u {
        assert s[j] == E[j - 1];
      } else if i < u {
        assert s[i] == E[i] && s[j] == E[j - 1];
      } else {
        assert s[i] == E[i - 1] && s[j] == E[j - 1];
      }
    }
  }

  /**
    * insert_equal_node adds exactly the new entry, right after every entry
    * with a key not greater than its own, so the sequence stays sorted; the
    * node set grows by the new node.
    */
  lemma {:induction false} InsertEqualEntries(t: Tree, id: int, key: int)
    requires Ordered(t)
    ensures var E := Entries(t); var u := UpperIndex(E, key);
      Entries(InsertEqualTree(t, id, key)) == E[..u] + [Entry(id, key)] + E[u..]
    ensures Ordered(InsertEqualTree(t, id, key))
    ensures Ids(InsertEqualTree(t, id, key)) == Ids(t) + {id}
    ensures Distinct(t) && id !in Ids(t) ==> Distinct(InsertEqualTree(t, id, key))
    ensures InsertEqualTree(t, id, key).Node?
  {
    AttachEntries(t, id, key);
    SortedInsert(Entries(t), key, Entry(id, key));
    if t.Node? {
      var cl := LandingAt(Top, t, key);
      LandingAttach(Top, t, id, key);
      ClimbKeeps(cl.0, Attach(cl.1, id, key));
    }
    if Distinct(t) && id !in Ids(t) {
      DistinctCount(t);
      DistinctCount(AttachTree(t, id, key));
    }
  }

  // ---------------------------------------------------------------------
  // insert_unique_node: the same descent, stopped by an equal key
  // ---------------------------------------------------------------------

  /** Every entry before the hole has a smaller key and every entry after it a greater one. */
  predicate KeyApart(c: Ctx, key: int)
  {
    (forall e :: e in Before(c) ==> e.key < key) && (forall e :: e in After(c) ==> key < e.key)
  }

  /** Turning left at a greater key, or right at a smaller one, keeps the key apart. */
  lemma {:induction false} ApartStep(c: Ctx, s: Tree, key: int)
    requires s.Node? && Ordered(Plug(c, s)) && KeyApart(c, key)
    ensures key < s.key ==> KeyApart(InLeft(c, s.id, s.key, s.right), key)
    ensures s.key < key ==> KeyApart(InRight(s.left, s.id, s.key, c), key)
  {
    SubtreeOrder(c, s);
  }

  /**
    * A descent that lands without meeting the key, at a node lacking the
    * child it would go on to, proves the key absent from the whole tree.
    */
  lemma {:induction false} ApartAbsent(c: Ctx, s: Tree, key: int)
    requires s.Node? && Ordered(Plug(c, s)) && KeyApart(c, key)
    requires (key < s.key && s.left.Nil?) || (s.key < key && s.right.Nil?)
    ensures forall j :: 0 <= j < |Entries(Plug(c, s))| ==> Entries(Plug(c, s))[j].key != key
  {
    PlugEntries(c, s);
    var E, b, es, f := Entries(Plug(c, s)), Before(c), Entries(s), After(c);
    assert forall e :: e in es ==> e.key != key by {
      SubtreeOrder(c, s);
      if key < s.key {
        assert es == [Entry(s.id, s.key)] + Entries(s.right);
      } else {
        assert es == Entries(s.left) + [Entry(s.id, s.key)];
      }
    }
    forall j | 0 <= j < |E| ensures E[j].key != key {
      if j < |b| {
        assert E[j] == b[j];
      } else if j < |b| + |es| {
        assert E[j] == es[j - |b|];
      } else {
        assert E[j] == f[j - |b| - |es|];
      }
    }
  }

  // ---------------------------------------------------------------------
  // insert_rebalance(header, flag): the call the do-while climb makes on
  // the header when the landing node is the root
  // ---------------------------------------------------------------------

  /** The subtree of the minimum node, the one header->left points to. */
  function MinSub(t: Tree): (m: Tree)
    requires t.Node?
    ensures m.Node? && m.left.Nil?
  {
    if t.left.Nil? then t else MinSub(t.left)
  }

  /** The subtree of the maximum node, the one header->right points to. */
  function MaxSub(t: Tree): (m: Tree)
    requires t.Node?
    ensures m.Node? && m.right.Nil?
  {
    if t.right.Nil? then t else MaxSub(t.right)
  }

  lemma {:induction false} MinSubLeftmost(t: Tree)
    requires t.Node?
    ensures MinSub(t).id == Leftmost(t)
  {
    if t.left.Node? {
      MinSubLeftmost(t.left);
    }
  }

  lemma {:induction false} MaxSubRightmost(t: Tree)
    requires t.Node?
    ensures MaxSub(t).id == Rightmost(t)
  {
    if t.right.Node? {
      MaxSubRightmost(t.right);
    }
  }

  /** The context of MinSub(t) inside Plug(c, t). */
  function MinCtx(c: Ctx, t: Tree): (m: Ctx)
    requires t.Node?
    ensures Plug(m, MinSub(t)) == Plug(c, t)
    decreases t
  {
    if t.left.Nil? then c else MinCtx(InLeft(c, t.id, t.key, t.right), t.left)
  }

  /** The context of MaxSub(t) inside Plug(c, t). */
  function MaxCtx(c: Ctx, t: Tree): (m: Ctx)
    requires t.Node?
    ensures Plug(m, MaxSub(t)) == Plug(c, t)
    decreases t
  {
    if t.right.Nil? then c else MaxCtx(InRight(t.left, t.id, t.key, c), t.right)
  }

  /**
    * Whether insert_rebalance(header, flag) would rotate. On the header,
    * t->left is the minimum, t->right the maximum, and the sizes compared
    * are theirs: with the flag, size(min) against the children of max;
    * without it, size(max) against the children of min.
    */
  predicate HeaderFires(t: Tree, flag: bool)
    requires t.Node?
  {
    var lo, hi := MinSub(t), MaxSub(t);
    if flag then
      (hi.left.Node? && Size(lo) < Size(hi.left)) || (hi.right.Node? && Size(lo) < Size(hi.right))
    else
      (lo.right.Node? && Size(hi) < Size(lo.right)) || (lo.left.Node? && Size(hi) < Size(lo.left))
  }

  /** Whether a header call on t would rotate with one flag or the other. */
  predicate HeaderDue(t: Tree)
  {
    t.Node? && (HeaderFires(t, true) || HeaderFires(t, false))
  }

  /** Neither child of b is larger than a. */
  predicate NoHeavier(a: Tree, b: Tree)
  {
    b.Node? ==> Size(b.left) <= Size(a) && Size(b.right) <= Size(a)
  }

  /**
    * The size-balanced-tree property: no subtree is smaller than either
    * child of its sibling.
    */
  predicate Balanced(t: Tree)
  {
    match t
    case Nil => true
    case Node(l, _, _, r) => Balanced(l) && Balanced(r) && NoHeavier(l, r) && NoHeavier(r, l)
  }

  /**
    * In a balanced tree the descent lands at the root only when the root has
    * at most one more node below it, and then the header call rotates
    * nothing, whichever flag it is given.
    */
  lemma {:induction false} HeaderQuiet(t: Tree, id: int, key: int, flag: bool)
    requires Balanced(t) && t.Node?
    requires key < t.key ==> t.left.Nil?
    requires !(key < t.key) ==> t.right.Nil?
    ensures !HeaderFires(Attach(t, id, key), flag)
  {
    var a := Attach(t, id, key);
    var leaf := Leaf(id, key);
    if key < t.key {
      assert MinSub(a) == leaf;
      if t.right.Node? {
        assert t.right.left.Nil? && t.right.right.Nil?;
        assert MaxSub(a) == t.right;
      } else {
        assert MaxSub(a) == a && Size(leaf) == 1;
      }
    } else {
      assert MaxSub(a) == leaf;
      if t.left.Node? {
        assert t.left.left.Nil? && t.left.right.Nil?;
        assert MinSub(a) == t.left;
      } else {
        assert MinSub(a) == a && Size(leaf) == 1;
      }
    }
  }

  /**
    * Whether the header call of insert_equal_node's climb would rotate. The
    * climb reaches the header only when the key lands at the root; the
    * flag it is given says whether the root is then the maximum.
    */
  predicate InsertFires(t: Tree, id: int, key: int)
    requires t.Node?
  {
    var cl := LandingAt(Top, t, key);
    var a := Attach(cl.1, id, key);
    cl.0.Top? && HeaderFires(a, a.id == Rightmost(a))
  }

  /** Inserting into a balanced tree never makes the header call rotate. */
  lemma {:induction false} InsertQuiet(t: Tree, id: int, key: int)
    requires Balanced(t) && t.Node?
    ensures !InsertFires(t, id, key)
  {
    var cl := LandingAt(Top, t, key);
    if cl.0.Top? {
      HeaderQuiet(t, id, key, Attach(t, id, key).id == Rightmost(Attach(t, id, key)));
    }
  }

  lemma {:induction false} MinSubBalanced(t: Tree)
    requires Balanced(t) && t.Node?
    ensures Balanced(MinSub(t))
  {
    if t.left.Node? {
      MinSubBalanced(t.left);
    }
  }

  lemma {:induction false} MaxSubBalanced(t: Tree)
    requires Balanced(t) && t.Node?
    ensures Balanced(MaxSub(t))
  {
    if t.right.Node? {
      MaxSubBalanced(t.right);
    }
  }

  /**
    * In a balanced tree the children of the minimum and of the maximum hold
    * at most one node each, so the header call rotates nothing, whichever
    * flag it is given: the call that ends every erasure is quiet whenever
    * the erasure leaves the tree balanced.
    */
  lemma {:induction false} HeaderCalm(t: Tree, flag: bool)
    requires Balanced(t) && t.Node?
    ensures !HeaderFires(t, flag)
  {
    MinSubBalanced(t);
    MaxSubBalanced(t);
    var lo, hi := MinSub(t), MaxSub(t);
    assert NoHeavier(hi.right, hi.left) && NoHeavier(lo.left, lo.right);
    assert Size(hi.left) <= 1 <= Size(lo);
    assert Size(lo.right) <= 1 <= Size(hi);
  }
}
