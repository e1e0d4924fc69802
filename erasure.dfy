/**
  * What erase_node does to the abstract tree. A node with at most one child
  * is replaced by that child. A node with two children is replaced by its
  * successor (the minimum of its right subtree) when its left subtree is the
  * smaller one, and by its predecessor (the maximum of its left subtree)
  * otherwise; that node is spliced out of its old place first. Either way
  * one position of the tree is left with a subtree one node smaller: the
  * hole. The climb then runs erase_rebalance on every ancestor of the hole,
  * with the flag saying on which side the hole hangs.
  */
module Erasure {
  import opened Trees
  import opened Search
  import opened Insertion

  /** The subtree with its minimum node spliced out: the minimum's right subtree takes its place. */
  function RemoveMin(t: Tree): (r: Tree)
    requires t.Node?
    ensures Size(r) == Size(t) - 1
  {
    if t.left.Nil? then t.right else Node(RemoveMin(t.left), t.id, t.key, t.right)
  }

  /** The subtree with its maximum node spliced out. */
  function RemoveMax(t: Tree): (r: Tree)
    requires t.Node?
    ensures Size(r) == Size(t) - 1
  {
    if t.right.Nil? then t.left else Node(t.left, t.id, t.key, RemoveMax(t.right))
  }

  /** The minimum comes first in order, and splicing it out drops exactly that entry. */
  lemma {:induction false} RemoveMinEntries(t: Tree)
    requires t.Node?
    ensures Entries(t) == [Entry(MinSub(t).id, MinSub(t).key)] + Entries(RemoveMin(t))
    ensures Ids(t) == Ids(RemoveMin(t)) + {MinSub(t).id}
    ensures Distinct(t) ==> Distinct(RemoveMin(t)) && MinSub(t).id !in Ids(RemoveMin(t))
  {
    if t.left.Node? {
      RemoveMinEntries(t.left);
      MinSubIn(t.left);
      var m := Entry(MinSub(t).id, MinSub(t).key);
      assert Entries(t) == [m] + Entries(RemoveMin(t.left)) + [Entry(t.id, t.key)] + Entries(t.right);
    }
  }

  lemma {:induction false} RemoveMaxEntries(t: Tree)
    requires t.Node?
    ensures Entries(t) == Entries(RemoveMax(t)) + [Entry(MaxSub(t).id, MaxSub(t).key)]
    ensures Ids(t) == Ids(RemoveMax(t)) + {MaxSub(t).id}
    ensures Distinct(t) ==> Distinct(RemoveMax(t)) && MaxSub(t).id !in Ids(RemoveMax(t))
  {
    if t.right.Node? {
      RemoveMaxEntries(t.right);
      MaxSubIn(t.right);
      var m := Entry(MaxSub(t).id, MaxSub(t).key);
      assert Entries(t) == Entries(t.left) + [Entry(t.id, t.key)] + Entries(RemoveMax(t.right)) + [m];
    }
  }

  lemma {:induction false} MinSubIn(t: Tree)
    requires t.Node?
    ensures MinSub(t).id in Ids(t)
  {
    if t.left.Node? {
      MinSubIn(t.left);
    }
  }

  lemma {:induction false} MaxSubIn(t: Tree)
    requires t.Node?
    ensures MaxSub(t).id in Ids(t)
  {
    if t.right.Node? {
      MaxSubIn(t.right);
    }
  }

  /** Filling the minimum's place with its right subtree is RemoveMin. */
  lemma {:induction false} MinCtxPlug(c: Ctx, t: Tree)
    requires t.Node?
    ensures Plug(MinCtx(c, t), MinSub(t).right) == Plug(c, RemoveMin(t))
    decreases t
  {
    if t.left.Node? {
      MinCtxPlug(InLeft(c, t.id, t.key, t.right), t.left);
    }
  }

  lemma {:induction false} MaxCtxPlug(c: Ctx, t: Tree)
    requires t.Node?
    ensures Plug(MaxCtx(c, t), MaxSub(t).left) == Plug(c, RemoveMax(t))
    decreases t
  {
    if t.right.Node? {
      MaxCtxPlug(InRight(t.left, t.id, t.key, c), t.right);
    }
  }

  /**
    * The hole erase_node leaves when it removes the root of s, and the
    * subtree that now fills it: for at most one child, s's place and that
    * child (nullptr when there is none); for two children, the old place of
    * the successor (or predecessor), which has moved up into s's place, and
    * its one child.
    */
  function Removal(c: Ctx, s: Tree): (h: (Ctx, Tree))
    requires s.Node?
  {
    if s.left.Nil? then (c, s.right)
    else if s.right.Nil? then (c, s.left)
    else if Size(s.left) < Size(s.right) then
      var m := MinSub(s.right);
      (MinCtx(InRight(s.left, m.id, m.key, c), s.right), m.right)
    else
      var m := MaxSub(s.left);
      (MaxCtx(InLeft(c, m.id, m.key, s.right), s.left), m.left)
  }

  /** The subtree that takes the place of s once its root is removed, before any rebalancing. */
  function Replacement(s: Tree): Tree
    requires s.Node?
  {
    if s.left.Nil? then s.right
    else if s.right.Nil? then s.left
    else if Size(s.left) < Size(s.right) then
      Node(s.left, MinSub(s.right).id, MinSub(s.right).key, RemoveMin(s.right))
    else
      Node(RemoveMax(s.left), MaxSub(s.left).id, MaxSub(s.left).key, s.right)
  }

  /** Filling the hole of the removal gives s's context with the replacement in s's place. */
  lemma {:induction false} RemovalShape(c: Ctx, s: Tree)
    requires s.Node?
    ensures var h := Removal(c, s); Plug(h.0, h.1) == Plug(c, Replacement(s))
  {
    if s.left.Node? && s.right.Node? {
      if Size(s.left) < Size(s.right) {
        var m := MinSub(s.right);
        MinCtxPlug(InRight(s.left, m.id, m.key, c), s.right);
      } else {
        var m := MaxSub(s.left);
        MaxCtxPlug(InLeft(c, m.id, m.key, s.right), s.left);
      }
    }
  }

  /** The replacement holds s's entries and nodes except the root's. */
  lemma {:induction false} ReplacementEntries(s: Tree)
    requires s.Node? && Distinct(s)
    ensures Entries(Replacement(s)) == Entries(s.left) + Entries(s.right)
    ensures Ids(Replacement(s)) == Ids(s) - {s.id} && Size(Replacement(s)) == Size(s) - 1
  {
    var Node(l, i, k, r) := s;
    assert Ids(s) - {i} == Ids(l) + Ids(r);
    if l.Node? && r.Node? {
      if Size(l) < Size(r) {
        SuccessorUp(l, r);
      } else {
        PredecessorUp(l, r);
      }
    }
  }

  lemma {:induction false} SuccessorUp(l: Tree, r: Tree)
    requires r.Node?
    ensures var m := MinSub(r); var t := Node(l, m.id, m.key, RemoveMin(r));
      Entries(t) == Entries(l) + Entries(r) && Ids(t) == Ids(l) + Ids(r)
  {
    var m := MinSub(r);
    RemoveMinEntries(r);
    assert Entries(Node(l, m.id, m.key, RemoveMin(r))) == Entries(l) + ([Entry(m.id, m.key)] + Entries(RemoveMin(r)));
  }

  lemma {:induction false} PredecessorUp(l: Tree, r: Tree)
    requires l.Node?
    ensures var m := MaxSub(l); var t := Node(RemoveMax(l), m.id, m.key, r);
      Entries(t) == Entries(l) + Entries(r) && Ids(t) == Ids(l) + Ids(r)
  {
    var m := MaxSub(l);
    RemoveMaxEntries(l);
    assert Entries(Node(RemoveMax(l), m.id, m.key, r)) == (Entries(RemoveMax(l)) + [Entry(m.id, m.key)]) + Entries(r);
  }

  /** Dropping the element at |a| from a + [x] + b leaves a + b. */
  lemma {:induction false} DropAt<T>(a: seq<T>, x: T, b: seq<T>)
    ensures (a + [x] + b)[..|a|] + (a + [x] + b)[|a| + 1..] == a + b
  {
    assert (a + [x] + b)[..|a|] == a;
    assert (a + [x] + b)[|a| + 1..] == b;
  }

  /** The removal drops one entry, the removed node's, and one node. */
  lemma {:induction false} RemovalEntries(c: Ctx, s: Tree)
    requires s.Node? && Distinct(Plug(c, s))
    ensures var h, E, i := Removal(c, s), Entries(Plug(c, s)), |Before(c)| + Size(s.left);
      i < |E| && Entries(Plug(h.0, h.1)) == E[..i] + E[i + 1..]
    ensures var h := Removal(c, s);
      Ids(Plug(h.0, h.1)) == Ids(Plug(c, s)) - {s.id} && Distinct(Plug(h.0, h.1))
  {
    RemovalShape(c, s);
    PlugIds(c, s);
    ReplacementEntries(s);
    PlugDrop(c, s, Replacement(s));
    PlugShrink(c, s, Replacement(s));
  }

  /** A subtree holding s's entries but the root's, in s's place, drops the root's entry. */
  lemma {:induction false} PlugDrop(c: Ctx, s: Tree, s': Tree)
    requires s.Node? && Entries(s') == Entries(s.left) + Entries(s.right)
    ensures var E, i := Entries(Plug(c, s)), |Before(c)| + Size(s.left);
      i < |E| && Entries(Plug(c, s')) == E[..i] + E[i + 1..]
  {
    PlugNode(c, s);
    PlugEntries(c, s');
    DropMid(Entries(Plug(c, s)), Entries(Plug(c, s')), Before(c), Entries(s.left),
      Entry(s.id, s.key), Entries(s.right), After(c), |Before(c)| + Size(s.left));
  }

  lemma {:induction false} PlugNode(c: Ctx, s: Tree)
    requires s.Node?
    ensures Entries(Plug(c, s))
         == Before(c) + (Entries(s.left) + [Entry(s.id, s.key)] + Entries(s.right)) + After(c)
  {
    PlugEntries(c, s);
  }

  lemma {:induction false} DropMid<T>(E: seq<T>, E': seq<T>, b: seq<T>, l: seq<T>, x: T, r: seq<T>, a: seq<T>, i: int)
    requires E == b + (l + [x] + r) + a && E' == b + (l + r) + a && i == |b| + |l|
    ensures i < |E| && E' == E[..i] + E[i + 1..]
  {
    Regroup(b, l, [x], r, a);
    DropAt(b + l, x, r + a);
    assert b + (l + r) + a == (b + l) + (r + a);
  }

  lemma {:induction false} Regroup<T>(a: seq<T>, b: seq<T>, c: seq<T>, d: seq<T>, e: seq<T>)
    ensures a + (b + c + d) + e == (a + b) + c + (d + e)
  {
  }

  /** A subtree holding s's nodes but the root, in s's place, drops the root from the tree. */
  lemma {:induction false} PlugShrink(c: Ctx, s: Tree, s': Tree)
    requires s.Node? && Distinct(Plug(c, s))
    requires Ids(s') == Ids(s) - {s.id} && Size(s') == Size(s) - 1
    ensures Ids(Plug(c, s')) == Ids(Plug(c, s)) - {s.id} && Distinct(Plug(c, s'))
  {
    PlugIds(c, s);
    PlugIds(c, s');
    PlugSize(c, s, s');
    DistinctCount(Plug(c, s));
    DistinctCount(Plug(c, s'));
  }

  /** The climb of erase_node: every ancestor of the hole rebalanced with erase_rebalance. */
  function EraseUp(c: Ctx, y: Tree): Tree
  {
    match c
    case Top => y
    case InLeft(up, i, k, r) => EraseUp(up, Maintain(Node(y, i, k, r), true))
    case InRight(l, i, k, up) => EraseUp(up, Maintain(Node(l, i, k, y), false))
  }

  /** The climb only rearranges. */
  lemma {:induction false} EraseUpKeeps(c: Ctx, y: Tree)
    ensures Entries(EraseUp(c, y)) == Entries(Plug(c, y)) && Ids(EraseUp(c, y)) == Ids(Plug(c, y))
    ensures Distinct(EraseUp(c, y)) <==> Distinct(Plug(c, y))
  {
    match c
    case Top =>
    case InLeft(up, i, k, r) =>
      var x := Node(y, i, k, r);
      MaintainDistinct(x, true);
      PlugSame(up, x, Maintain(x, true));
      EraseUpKeeps(up, Maintain(x, true));
    case InRight(l, i, k, up) =>
      var x := Node(l, i, k, y);
      MaintainDistinct(x, false);
      PlugSame(up, x, Maintain(x, false));
      EraseUpKeeps(up, Maintain(x, false));
  }

  /** The tree erase_node(x) leaves behind. */
  function EraseTree(t: Tree, x: int): Tree
    requires x in Ids(t)
  {
    var cs := Locate(t, x);
    var h := Removal(cs.0, cs.1);
    EraseUp(h.0, h.1)
  }

  /**
    * Whether erase_node(x)'s last call, erase_rebalance(header, flag), would
    * rotate; that call is insert_rebalance(header, !flag) on the tree left
    * behind. When x was the root with at most one child, flag says whether
    * x was the rightmost node; otherwise the climb ends at the new root and
    * flag says whether that root is the rightmost node.
    */
  predicate EraseFires(t: Tree, x: int)
    requires x in Ids(t)
  {
    var r := EraseTree(t, x);
    r.Node? &&
    HeaderFires(r, if x == t.id && (t.left.Nil? || t.right.Nil?) then x != Rightmost(t) else r.id != Rightmost(r))
  }

  /** A header call that fires is one that is due, and none is due on a balanced result. */
  lemma EraseFiresDue(t: Tree, x: int)
    requires x in Ids(t)
    ensures EraseFires(t, x) ==> HeaderDue(EraseTree(t, x))
    ensures Balanced(EraseTree(t, x)) ==> !EraseFires(t, x)
  {
    var r := EraseTree(t, x);
    if r.Node? && Balanced(r) {
      HeaderCalm(r, true);
      HeaderCalm(r, false);
    }
  }

  /** Below a node, MinCtx and MaxCtx stay below it. */
  lemma {:induction false} DeeperCtx(c: Ctx, t: Tree)
    requires t.Node? && !c.Top?
    ensures !MinCtx(c, t).Top? && !MaxCtx(c, t).Top?
    decreases t
  {
    if t.left.Node? {
      DeeperCtx(InLeft(c, t.id, t.key, t.right), t.left);
    }
    if t.right.Node? {
      DeeperCtx(InRight(t.left, t.id, t.key, c), t.right);
    }
  }

  /** The hole of a removal is at the top exactly when a root with at most one child goes. */
  lemma RemovalTop(c: Ctx, s: Tree)
    requires s.Node?
    ensures Removal(c, s).0.Top? <==> c.Top? && (s.left.Nil? || s.right.Nil?)
  {
    if s.left.Node? && s.right.Node? {
      if Size(s.left) < Size(s.right) {
        DeeperCtx(InRight(s.left, MinSub(s.right).id, MinSub(s.right).key, c), s.right);
      } else {
        DeeperCtx(InLeft(c, MaxSub(s.left).id, MaxSub(s.left).key, s.right), s.left);
      }
    }
  }

  /** Locate answers the empty context exactly for the root. */
  lemma LocateTop(t: Tree, x: int)
    requires x in Ids(t)
    ensures Locate(t, x).0.Top? <==> x == t.id
  {
    if x != t.id {
      var cs := if x in Ids(t.left) then Locate(t.left, x) else Locate(t.right, x);
      match cs.0
      case Top =>
      case InLeft(_, _, _, _) =>
      case InRight(_, _, _, _) =>
    }
  }

  /** Removing one entry from a sorted sequence leaves it sorted. */
  lemma {:induction false} SortedDrop(E: seq<Entry>, i: nat)
    requires Sorted(E) && i < |E|
    ensures Sorted(E[..i] + E[i + 1..])
  {
    var D := E[..i] + E[i + 1..];
    forall a, b | 0 <= a < b < |D| ensures D[a].key <= D[b].key {
      var a' := if a < i then a else a + 1;
      var b' := if b < i then b else b + 1;
      assert D[a] == E[a'] && D[b] == E[b'];
    }
  }

  /**
    * erase_node(x) removes exactly x: its entry leaves the in-order
    * sequence at x's position, the rest keeps its order, and x leaves the
    * node set.
    */
  lemma {:induction false} EraseEntries(t: Tree, x: int)
    requires Distinct(t) && Ordered(t) && x in Ids(t)
    ensures var E, p := Entries(t), Position(t, x);
      Entries(EraseTree(t, x)) == E[..p] + E[p + 1..]
    ensures Ids(EraseTree(t, x)) == Ids(t) - {x}
    ensures Distinct(EraseTree(t, x)) && Ordered(EraseTree(t, x))
  {
    var h := Removal(Locate(t, x).0, Locate(t, x).1);
    var E, p := Entries(t), Position(t, x);
    RemovalAt(t, x);
    SortedDrop(E, p);
    EraseUpKeeps(h.0, h.1);
    assert EraseTree(t, x) == EraseUp(h.0, h.1);
  }

  /** The removal before the climb, at the position of x in the whole tree. */
  lemma {:induction false} RemovalAt(t: Tree, x: int)
    requires Distinct(t) && x in Ids(t)
    ensures var h, E, p := Removal(Locate(t, x).0, Locate(t, x).1), Entries(t), Position(t, x);
      p < |E| && Entries(Plug(h.0, h.1)) == E[..p] + E[p + 1..]
    ensures var h := Removal(Locate(t, x).0, Locate(t, x).1);
      Ids(Plug(h.0, h.1)) == Ids(t) - {x} && Distinct(Plug(h.0, h.1))
  {
    var cs := Locate(t, x);
    var c, s := cs.0, cs.1;
    var i := |Before(c)| + Size(s.left);
    assert i == Position(t, x) by {
      SelectHere(c, s);
      PositionUnique(t, i);
    }
    RemovalEntries(c, s);
  }

  /** An iterator position after dropping the entry at p: past p everything moves down by one. */
  lemma {:induction false} NodeAtDrop(E: seq<Entry>, p: nat, i: nat)
    requires p < |E|
    ensures NodeAt(E[..p] + E[p + 1..], i) == NodeAt(E, if i < p then i else i + 1)
  {
    var D := E[..p] + E[p + 1..];
    if i < |D| {
      assert D[i] == if i < p then E[i] else E[i + 1];
    }
  }

  /** Two different positions of a tree of distinct nodes other than the header name different nodes. */
  lemma {:induction false} NodeAtApart(t: Tree, i: nat, j: nat)
    requires Distinct(t) && (forall x :: x in Ids(t) ==> x != HEADER) && i < j <= Size(t)
    ensures NodeAt(Entries(t), i) != NodeAt(Entries(t), j)
  {
    DistinctEntries(t);
    IdsOfEntries(t, Entries(t)[i]);
  }

  /**
    * Halfway through erase(key): of the entries of E0 at positions lo up to
    * hi, the first n are gone from E; first names position lo of E, last
    * names the position that hi has moved to.
    */
  predicate Erasing(E0: seq<Entry>, lo: nat, hi: nat, n: nat, E: seq<Entry>, first: int, last: int)
  {
    lo + n <= hi <= |E0| && E == E0[..lo] + E0[lo + n..] &&
    first == NodeAt(E, lo) && last == NodeAt(E, hi - n)
  }

  /** Before erase(key)'s loop: lower_bound and upper_bound name the ends of the key's block. */
  lemma {:induction false} EraseKeyStart(E0: seq<Entry>, lo: nat, hi: nat, first: int, last: int)
    requires lo <= hi <= |E0| && first == NodeAt(E0, lo) && last == NodeAt(E0, hi)
    ensures Erasing(E0, lo, hi, 0, E0, first, last)
  {
    assert E0[..lo] + E0[lo..] == E0;
  }

  /** After erase(key)'s loop: the whole block is gone, and no entry left holds the key. */
  lemma {:induction false} EraseKeyEnd(E0: seq<Entry>, key: int, n: nat, E: seq<Entry>, first: int, last: int)
    requires Sorted(E0)
    requires Erasing(E0, LowerIndex(E0, key), UpperIndex(E0, key), n, E, first, last)
    requires LowerIndex(E0, key) + n < UpperIndex(E0, key) ==> first != last
    requires first == last
    ensures n == CountKey(E0, key) && E == E0[..LowerIndex(E0, key)] + E0[UpperIndex(E0, key)..]
    ensures forall e :: e in E ==> e.key != key
  {
    KeyBlock(E0, key);
    KeyDropped(E0, key);
  }

  /** While entries are left to erase, first names the node at position lo of the tree. */
  lemma {:induction false} ErasingAt(t: Tree, E0: seq<Entry>, lo: nat, hi: nat, n: nat, first: int, last: int)
    requires Distinct(t) && Erasing(E0, lo, hi, n, Entries(t), first, last) && lo + n < hi
    ensures first in Ids(t) && Position(t, first) == lo
  {
    PositionUnique(t, lo);
  }

  /** One more erasure at position lo, with first advanced past it beforehand. */
  lemma {:induction false} EraseKeyStep(E0: seq<Entry>, lo: nat, hi: nat, n: nat, E: seq<Entry>, first: int, last: int, first': int)
    requires Erasing(E0, lo, hi, n, E, first, last) && lo + n < hi
    requires first' == NodeAt(E, lo + 1)
    ensures lo < |E| && Erasing(E0, lo, hi, n + 1, E[..lo] + E[lo + 1..], first', last)
  {
    var D := E[..lo] + E[lo + 1..];
    assert E[..lo] == E0[..lo];
    assert E[lo + 1..] == E0[lo + n + 1..];
    NodeAtDrop(E, lo, lo);
    NodeAtDrop(E, lo, hi - n - 1);
  }

  /**
    * One turn of erase(key)'s loop on trees: t loses the node first at
    * position lo and becomes u; first' is the iterator past it, taken
    * beforehand. While the block is not used up, first' is not last.
    */
  lemma {:induction false} EraseKeyNext(t: Tree, u: Tree, E0: seq<Entry>, lo: nat, hi: nat, n: nat, first: int, last: int, first': int)
    requires Erasing(E0, lo, hi, n, Entries(t), first, last) && lo + n < hi
    requires first' == NodeAt(Entries(t), lo + 1) && Entries(u) == Entries(t)[..lo] + Entries(t)[lo + 1..]
    requires Distinct(u) && forall x :: x in Ids(u) ==> x != HEADER
    ensures Erasing(E0, lo, hi, n + 1, Entries(u), first', last)
    ensures lo + n + 1 < hi ==> first' != last
  {
    EraseKeyStep(E0, lo, hi, n, Entries(t), first, last, first');
    if lo + n + 1 < hi {
      NodeAtApart(u, lo, hi - n - 1);
    }
  }

  /**
    * Dropping the block of entries whose key is key from a sorted sequence
    * leaves no entry with that key.
    */
  lemma {:induction false} KeyDropped(E: seq<Entry>, key: int)
    requires Sorted(E)
    ensures LowerIndex(E, key) <= UpperIndex(E, key)
    ensures forall e :: e in E[..LowerIndex(E, key)] + E[UpperIndex(E, key)..] ==> e.key != key
  {
    var lo, hi := LowerIndex(E, key), UpperIndex(E, key);
    KeyBlock(E, key);
    UpperIndexPartition(E, key);
    forall e | e in E[..lo] + E[hi..] ensures e.key != key {
      if e in E[..lo] {
        var j :| 0 <= j < lo && E[..lo][j] == e;
        assert E[j] == e;
      } else {
        var j :| 0 <= j < |E| - hi && E[hi..][j] == e;
        assert E[hi + j] == e;
      }
    }
  }
}
