/**
  * What the lookups of sb_tree compute, stated on the in-order sequence of
  * entries: the position of the first entry not less than a key (where
  * lower_bound, find and rank stop) and of the first entry greater than it
  * (where upper_bound stops).
  */
module Search {
  import opened Trees

  /** size_type(-1): what rank_node returns for an absent key (size_type is 64 bits wide). */
  const NPOS: int := 0xFFFF_FFFF_FFFF_FFFF

  /** The node an iterator at position i of s names: the header (end()) past the last entry. */
  function NodeAt(s: seq<Entry>, i: nat): int
  {
    if i < |s| then s[i].id else HEADER
  }

  /** The first position whose key is not less than `key`; |s| when there is none. */
  function LowerIndex(s: seq<Entry>, key: int): (i: nat)
    ensures i <= |s|
    ensures forall j :: 0 <= j < i ==> s[j].key < key
    ensures i < |s| ==> key <= s[i].key
  {
    if s == [] then 0
    else if key <= s[0].key then 0
    else 1 + LowerIndex(s[1..], key)
  }

  /** The first position whose key is greater than `key`; |s| when there is none. */
  function UpperIndex(s: seq<Entry>, key: int): (i: nat)
    ensures i <= |s|
    ensures forall j :: 0 <= j < i ==> s[j].key <= key
    ensures i < |s| ==> key < s[i].key
  {
    if s == [] then 0
    else if key < s[0].key then 0
    else 1 + UpperIndex(s[1..], key)
  }

  /** In a sorted sequence every entry from LowerIndex on is not less than the key. */
  lemma {:induction false} LowerIndexPartition(s: seq<Entry>, key: int)
    requires Sorted(s)
    ensures forall j :: LowerIndex(s, key) <= j < |s| ==> key <= s[j].key
  {
    var i := LowerIndex(s, key);
    forall j | i <= j < |s| ensures key <= s[j].key {
      assert s[i].key <= s[j].key;
    }
  }

  /** In a sorted sequence every entry from UpperIndex on is greater than the key. */
  lemma {:induction false} UpperIndexPartition(s: seq<Entry>, key: int)
    requires Sorted(s)
    ensures forall j :: UpperIndex(s, key) <= j < |s| ==> key < s[j].key
  {
    var i := UpperIndex(s, key);
    forall j | i <= j < |s| ensures key < s[j].key {
      assert s[i].key <= s[j].key;
    }
  }

  /**
    * A sequence split into a part whose keys are all less than the key and a
    * part that starts with a key not less than it has its LowerIndex at the
    * split.
    */
  lemma {:induction false} LowerIndexAt(b: seq<Entry>, a: seq<Entry>, key: int)
    requires forall e :: e in b ==> e.key < key
    requires a != [] ==> key <= a[0].key
    ensures LowerIndex(b + a, key) == |b|
  {
    if b != [] {
      assert (b + a)[1..] == b[1..] + a;
      LowerIndexAt(b[1..], a, key);
    }
  }

  lemma {:induction false} UpperIndexAt(b: seq<Entry>, a: seq<Entry>, key: int)
    requires forall e :: e in b ==> e.key <= key
    requires a != [] ==> key < a[0].key
    ensures UpperIndex(b + a, key) == |b|
  {
    if b != [] {
      assert (b + a)[1..] == b[1..] + a;
      UpperIndexAt(b[1..], a, key);
    }
  }

  /**
    * In a sorted sequence an entry with the key exists exactly when the one at
    * LowerIndex has it; that entry is then the first one with the key.
    */
  lemma {:induction false} FoundAtLowerIndex(s: seq<Entry>, key: int)
    requires Sorted(s)
    ensures (exists j :: 0 <= j < |s| && s[j].key == key) <==>
      (LowerIndex(s, key) < |s| && s[LowerIndex(s, key)].key == key)
  {
    var i := LowerIndex(s, key);
    if j :| 0 <= j < |s| && s[j].key == key {
      LowerIndexPartition(s, key);
      assert i <= j;
      assert s[i].key <= s[j].key;
    }
  }

  /** The number of entries whose key is less than `key`. */
  function CountLess(s: seq<Entry>, key: int): (n: nat)
    ensures n <= |s|
  {
    if s == [] then 0 else (if s[0].key < key then 1 else 0) + CountLess(s[1..], key)
  }

  /** In a sorted sequence LowerIndex counts the entries less than the key: what rank reports. */
  lemma {:induction false} LowerIndexCounts(s: seq<Entry>, key: int)
    requires Sorted(s)
    ensures LowerIndex(s, key) == CountLess(s, key)
  {
    if s != [] {
      assert Sorted(s[1..]);
      LowerIndexCounts(s[1..], key);
      if key <= s[0].key {
        NoneLess(s[1..], key);
      }
    }
  }

  lemma {:induction false} NoneLess(s: seq<Entry>, key: int)
    requires forall e :: e in s ==> key <= e.key
    ensures CountLess(s, key) == 0
  {
    if s != [] {
      NoneLess(s[1..], key);
    }
  }

  /** The number of entries whose key equals `key`. */
  function CountKey(s: seq<Entry>, key: int): (n: nat)
    ensures n <= |s|
  {
    if s == [] then 0 else (if s[0].key == key then 1 else 0) + CountKey(s[1..], key)
  }

  /** In a sorted sequence the entries with the key are the block [LowerIndex, UpperIndex). */
  lemma {:induction false} KeyBlock(s: seq<Entry>, key: int)
    requires Sorted(s)
    ensures LowerIndex(s, key) <= UpperIndex(s, key)
    ensures CountKey(s, key) == UpperIndex(s, key) - LowerIndex(s, key)
    ensures forall j :: LowerIndex(s, key) <= j < UpperIndex(s, key) ==> s[j].key == key
  {
    LowerIndexPartition(s, key);
    UpperIndexPartition(s, key);
    if s != [] {
      assert Sorted(s[1..]);
      KeyBlock(s[1..], key);
      if key < s[0].key {
        NoKey(s[1..], key);
      }
    }
  }

  lemma {:induction false} NoKey(s: seq<Entry>, key: int)
    requires forall e :: e in s ==> key < e.key
    ensures CountKey(s, key) == 0
  {
    if s != [] {
      NoKey(s[1..], key);
    }
  }

  // ---------------------------------------------------------------------
  // The descents of the lookups, one step at a time.

  /**
    * The hole of c splits the in-order sequence where lower_bound splits it:
    * every entry before the hole is less than key, and the first one after
    * it is not.
    */
  predicate LowerSplit(c: Ctx, key: int)
  {
    (forall e :: e in Before(c) ==> e.key < key) && (After(c) != [] ==> key <= After(c)[0].key)
  }

  /** The same split for upper_bound: before the hole at most key, after it greater. */
  predicate UpperSplit(c: Ctx, key: int)
  {
    (forall e :: e in Before(c) ==> e.key <= key) && (After(c) != [] ==> key < After(c)[0].key)
  }

  /** Turning left at a node not less than key, or right at one less than key, keeps the split. */
  lemma {:induction false} LowerStep(c: Ctx, s: Tree, key: int)
    requires s.Node? && Ordered(Plug(c, s)) && LowerSplit(c, key)
    ensures key <= s.key ==> LowerSplit(InLeft(c, s.id, s.key, s.right), key)
    ensures s.key < key ==> LowerSplit(InRight(s.left, s.id, s.key, c), key)
  {
    SubtreeOrder(c, s);
  }

  /** Turning left at a node greater than key, or right at one not greater, keeps the split. */
  lemma {:induction false} UpperStep(c: Ctx, s: Tree, key: int)
    requires s.Node? && Ordered(Plug(c, s)) && UpperSplit(c, key)
    ensures key < s.key ==> UpperSplit(InLeft(c, s.id, s.key, s.right), key)
    ensures s.key <= key ==> UpperSplit(InRight(s.left, s.id, s.key, c), key)
  {
    SubtreeOrder(c, s);
  }

  /** Turning right at the root of s passes the left subtree and the root itself. */
  lemma {:induction false} BeforeRight(c: Ctx, s: Tree)
    requires s.Node?
    ensures |Before(InRight(s.left, s.id, s.key, c))| == |Before(c)| + Size(s.left) + 1
  {
  }

  /** A descent that falls off the tree with the split intact has found LowerIndex. */
  lemma {:induction false} LowerEnd(c: Ctx, key: int)
    requires LowerSplit(c, key)
    ensures Entries(Plug(c, Nil)) == Before(c) + After(c)
    ensures LowerIndex(Entries(Plug(c, Nil)), key) == |Before(c)|
    ensures NodeAt(Entries(Plug(c, Nil)), |Before(c)|) == (if After(c) == [] then HEADER else After(c)[0].id)
    ensures After(c) != [] ==> Entries(Plug(c, Nil))[|Before(c)|] == After(c)[0]
  {
    PlugEntries(c, Nil);
    assert Before(c) + [] + After(c) == Before(c) + After(c);
    LowerIndexAt(Before(c), After(c), key);
  }

  lemma {:induction false} UpperEnd(c: Ctx, key: int)
    requires UpperSplit(c, key)
    ensures Entries(Plug(c, Nil)) == Before(c) + After(c)
    ensures UpperIndex(Entries(Plug(c, Nil)), key) == |Before(c)|
    ensures NodeAt(Entries(Plug(c, Nil)), |Before(c)|) == (if After(c) == [] then HEADER else After(c)[0].id)
    ensures After(c) != [] ==> Entries(Plug(c, Nil))[|Before(c)|] == After(c)[0]
  {
    PlugEntries(c, Nil);
    assert Before(c) + [] + After(c) == Before(c) + After(c);
    UpperIndexAt(Before(c), After(c), key);
  }

  /** The entry of the node at the hole sits at position |Before(c)| + Size(s.left) in order. */
  lemma {:induction false} SelectHere(c: Ctx, s: Tree)
    requires s.Node?
    ensures |Before(c)| + Size(s.left) < |Entries(Plug(c, s))|
    ensures Entries(Plug(c, s))[|Before(c)| + Size(s.left)] == Entry(s.id, s.key)
  {
    PlugEntries(c, s);
    var b, l := Before(c), Entries(s.left);
    assert Entries(s) == l + [Entry(s.id, s.key)] + Entries(s.right);
    assert (b + Entries(s) + After(c))[|b| + |l|] == Entries(s)[|l|];
  }

  /** A select descent that falls off the tree has run past the last entry. */
  lemma {:induction false} SelectEnd(c: Ctx, k: nat)
    requires After(c) == [] && |Before(c)| <= k
    ensures |Entries(Plug(c, Nil))| <= k
  {
    PlugEntries(c, Nil);
  }

  // ---------------------------------------------------------------------
  // Where the iterators step: positions of the neighbours of a subtree.

  /** Past a subtree that is a left child comes its parent; past the whole tree, nothing. */
  lemma {:induction false} NextAfter(c: Ctx, s: Tree)
    ensures c.InLeft? ==>
      |Before(c)| + Size(s) < |Entries(Plug(c, s))| &&
      Entries(Plug(c, s))[|Before(c)| + Size(s)] == Entry(c.id, c.key)
    ensures c.Top? ==> |Before(c)| + Size(s) == |Entries(Plug(c, s))|
  {
    PlugEntries(c, s);
    if c.InLeft? {
      assert After(c)[0] == Entry(c.id, c.key);
      assert (Before(c) + Entries(s) + After(c))[|Before(c)| + Size(s)] == After(c)[0];
    }
  }

  /** Before a subtree that is a right child comes its parent. */
  lemma {:induction false} PrevBefore(c: Ctx, s: Tree)
    ensures c.InRight? ==>
      0 < |Before(c)| <= |Entries(Plug(c, s))| &&
      Entries(Plug(c, s))[|Before(c)| - 1] == Entry(c.id, c.key)
  {
    PlugEntries(c, s);
    if c.InRight? {
      var b := Before(c);
      assert b[|b| - 1] == Entry(c.id, c.key);
      assert (b + Entries(s) + After(c))[|b| - 1] == b[|b| - 1];
    }
  }

  /** The first node of a subtree stands right after the context's entries before it. */
  lemma {:induction false} FirstOf(c: Ctx, t: Tree)
    requires t.Node?
    ensures |Before(c)| < |Entries(Plug(c, t))| && Entries(Plug(c, t))[|Before(c)|].id == Leftmost(t)
  {
    PlugEntries(c, t);
    assert (Before(c) + Entries(t) + After(c))[|Before(c)|] == Entries(t)[0];
  }

  /** The entry after a node with a right subtree is the leftmost node of that subtree. */
  lemma {:induction false} NextBelow(c: Ctx, s: Tree)
    requires s.Node? && s.right.Node?
    ensures NodeAt(Entries(Plug(c, s)), |Before(c)| + Size(s.left) + 1) == Leftmost(s.right)
  {
    var c2 := InRight(s.left, s.id, s.key, c);
    assert Plug(c, s) == Plug(c2, s.right);
    BeforeRight(c, s);
    FirstOf(c2, s.right);
  }

  /** The last node of a subtree stands right before the context's entries after it. */
  lemma {:induction false} LastOf(c: Ctx, t: Tree)
    requires t.Node?
    ensures |Before(c)| + Size(t) <= |Entries(Plug(c, t))|
    ensures Entries(Plug(c, t))[|Before(c)| + Size(t) - 1].id == Rightmost(t)
  {
    PlugEntries(c, t);
    var b, e := Before(c), Entries(t);
    assert (b + e + After(c))[|b| + |e| - 1] == e[|e| - 1];
  }
}
