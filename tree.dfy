/** Dependency trees given as head arrays. Node 0 is the symbolic root; for
    1 <= c < |heads|, heads[c] is the parent of node c. heads[0] is never read. */
module Tree {

  /** Every real node's head is an index of the array. */
  predicate InRange(heads: seq<int>) {
    forall c :: 1 <= c < |heads| ==> 0 <= heads[c] < |heads|
  }

  /** Following heads from c reaches the root 0 within fuel steps. */
  predicate ReachesRoot(heads: seq<int>, c: int, fuel: nat)
    requires InRange(heads) && 0 <= c < |heads|
    decreases fuel
  {
    c == 0 || (fuel > 0 && ReachesRoot(heads, heads[c], fuel - 1))
  }

  /** The head array forms one tree rooted at 0: every node reaches the root. */
  predicate Rooted(heads: seq<int>) {
    |heads| >= 1 && InRange(heads) &&
    forall c :: 0 <= c < |heads| ==> ReachesRoot(heads, c, |heads|)
  }

  /** The number of head steps from c to the root, following heads at most fuel times. */
  function DistWithin(heads: seq<int>, c: int, fuel: nat): (d: nat)
    requires InRange(heads) && 0 <= c < |heads| && ReachesRoot(heads, c, fuel)
    ensures d <= fuel
    decreases fuel
  {
    if c == 0 then 0 else 1 + DistWithin(heads, heads[c], fuel - 1)
  }

  /** The count of steps does not depend on how much fuel was allowed. */
  lemma {:induction false} DistWithinFuel(heads: seq<int>, c: int, f1: nat, f2: nat)
    requires InRange(heads) && 0 <= c < |heads|
    requires ReachesRoot(heads, c, f1) && ReachesRoot(heads, c, f2)
    ensures DistWithin(heads, c, f1) == DistWithin(heads, c, f2)
    decreases f1
  {
    if c != 0 {
      DistWithinFuel(heads, heads[c], f1 - 1, f2 - 1);
    }
  }

  /** The distance of node c from the root: the number of head steps from c to 0. */
  function Dist(heads: seq<int>, c: int): (d: nat)
    requires Rooted(heads) && 0 <= c < |heads|
    ensures d <= |heads|
  {
    DistWithin(heads, c, |heads|)
  }

  /** A real node is one step further from the root than its head. */
  lemma DistParent(heads: seq<int>, c: int)
    requires Rooted(heads) && 1 <= c < |heads|
    ensures Dist(heads, c) == Dist(heads, heads[c]) + 1
  {
    assert ReachesRoot(heads, c, |heads|);
    DistWithinFuel(heads, heads[c], |heads| - 1, |heads|);
  }

  /** x lies in the subtree rooted at h (x is h or one of its descendants). */
  predicate InSubtree(heads: seq<int>, x: int, h: int)
    requires Rooted(heads) && 0 <= x < |heads|
    decreases Dist(heads, x)
  {
    if x == h then true
    else if x == 0 then false
    else DistParent(heads, x); InSubtree(heads, heads[x], h)
  }

  lemma {:induction false} SubtreeDist(heads: seq<int>, x: int, h: int)
    requires Rooted(heads) && 0 <= x < |heads| && 0 <= h < |heads|
    requires InSubtree(heads, x, h)
    ensures Dist(heads, x) >= Dist(heads, h)
    decreases Dist(heads, x)
  {
    if x != h {
      DistParent(heads, x);
      SubtreeDist(heads, heads[x], h);
    }
  }

  /** The subtree of a node lies inside the subtree of its head. */
  lemma {:induction false} SubtreeOfChild(heads: seq<int>, x: int, c: int)
    requires Rooted(heads) && 0 <= x < |heads| && 1 <= c < |heads|
    requires InSubtree(heads, x, c)
    ensures InSubtree(heads, x, heads[c])
    decreases Dist(heads, x)
  {
    if x != c {
      DistParent(heads, x);
      SubtreeOfChild(heads, heads[x], c);
    }
  }

  /** A proper descendant of h lies in the subtree of one of h's children. */
  lemma {:induction false} ChildOnPath(heads: seq<int>, x: int, h: int) returns (c: int)
    requires Rooted(heads) && 0 <= x < |heads|
    requires InSubtree(heads, x, h) && x != h
    ensures 1 <= c < |heads| && heads[c] == h && InSubtree(heads, x, c)
    decreases Dist(heads, x)
  {
    DistParent(heads, x);
    if heads[x] == h {
      c := x;
    } else {
      c := ChildOnPath(heads, heads[x], h);
    }
  }

  /** The subtrees of two different children of one head are disjoint. */
  lemma {:induction false} SiblingSubtreesDisjoint(heads: seq<int>, x: int, c1: int, c2: int)
    requires Rooted(heads) && 0 <= x < |heads|
    requires 1 <= c1 < |heads| && 1 <= c2 < |heads| && c1 != c2 && heads[c1] == heads[c2]
    requires InSubtree(heads, x, c1)
    ensures !InSubtree(heads, x, c2)
    decreases Dist(heads, x)
  {
    DistParent(heads, c1);
    DistParent(heads, c2);
    if x == c1 {
      if InSubtree(heads, x, c2) {
        DistParent(heads, x);
        SubtreeDist(heads, heads[x], c2);
      }
    } else if x == c2 {
      DistParent(heads, x);
      SubtreeDist(heads, heads[x], c1);
    } else {
      DistParent(heads, x);
      SiblingSubtreesDisjoint(heads, heads[x], c1, c2);
    }
  }

  /** Every node of a rooted tree is in the root's subtree. */
  lemma {:induction false} InRootSubtree(heads: seq<int>, x: int)
    requires Rooted(heads) && 0 <= x < |heads|
    ensures InSubtree(heads, x, 0)
    decreases Dist(heads, x)
  {
    if x != 0 {
      DistParent(heads, x);
      InRootSubtree(heads, heads[x]);
    }
  }

  lemma {:induction false} ClosedSetNeverReaches(heads: seq<int>, u: set<int>, x: int, fuel: nat)
    requires InRange(heads)
    requires forall y :: y in u ==> 1 <= y < |heads| && heads[y] in u
    requires x in u
    ensures !ReachesRoot(heads, x, fuel)
    decreases fuel
  {
    if fuel > 0 {
      ClosedSetNeverReaches(heads, u, heads[x], fuel - 1);
    }
  }

  /** In a rooted tree, a set of real nodes that contains the head of each of its
      members is empty: following heads would never leave it. */
  lemma ClosedUnderHeadsIsEmpty(heads: seq<int>, u: set<int>)
    requires Rooted(heads)
    requires forall y :: y in u ==> 1 <= y < |heads| && heads[y] in u
    ensures u == {}
  {
    forall x | x in u ensures !ReachesRoot(heads, x, |heads|) {
      ClosedSetNeverReaches(heads, u, x, |heads|);
    }
    assert forall x :: x !in u;
  }

  /** No real node of a rooted tree is its own head. */
  lemma NoSelfLoop(heads: seq<int>, c: int)
    requires Rooted(heads) && 1 <= c < |heads|
    ensures heads[c] != c
  {
    if heads[c] == c {
      ClosedUnderHeadsIsEmpty(heads, {c});
    }
  }

  /** No real node is its own head. */
  predicate NoSelfHeads(heads: seq<int>) {
    forall c :: 1 <= c < |heads| ==> heads[c] != c
  }

  lemma RootedHasNoSelfHeads(heads: seq<int>)
    requires Rooted(heads)
    ensures NoSelfHeads(heads)
  {
    forall c | 1 <= c < |heads| ensures heads[c] != c {
      NoSelfLoop(heads, c);
    }
  }

  /** The children of h with index in [lo, hi), in ascending order. */
  function ChildrenIn(heads: seq<int>, h: int, lo: int, hi: int): seq<int>
    requires hi <= |heads| && (1 <= lo || hi <= lo)
    decreases hi - lo
  {
    if hi <= lo then []
    else ChildrenIn(heads, h, lo, hi - 1) + (if heads[hi - 1] == h then [hi - 1] else [])
  }

  /** The children of h in ascending index order: the left-to-right child list. */
  function Children(heads: seq<int>, h: int): seq<int> {
    if |heads| == 0 then [] else ChildrenIn(heads, h, 1, |heads|)
  }

  predicate StrictlyIncreasing(s: seq<int>) {
    forall i, j :: 0 <= i < j < |s| ==> s[i] < s[j]
  }

  /** Every entry of ChildrenIn is a child of h in [lo, hi). */
  lemma {:induction false} ChildrenInBounds(heads: seq<int>, h: int, lo: int, hi: int)
    requires 1 <= lo && hi <= |heads|
    ensures forall i :: 0 <= i < |ChildrenIn(heads, h, lo, hi)| ==>
      lo <= ChildrenIn(heads, h, lo, hi)[i] < hi && heads[ChildrenIn(heads, h, lo, hi)[i]] == h
    decreases hi - lo
  {
    if hi > lo {
      ChildrenInBounds(heads, h, lo, hi - 1);
    }
  }

  /** ChildrenIn holds exactly the children of h in [lo, hi). */
  lemma {:induction false} ChildrenInMembers(heads: seq<int>, h: int, lo: int, hi: int)
    requires 1 <= lo && hi <= |heads|
    ensures forall x :: x in ChildrenIn(heads, h, lo, hi) <==> lo <= x < hi && heads[x] == h
    decreases hi - lo
  {
    if hi > lo {
      ChildrenInMembers(heads, h, lo, hi - 1);
      var last := if heads[hi - 1] == h then [hi - 1] else [];
      assert ChildrenIn(heads, h, lo, hi) == ChildrenIn(heads, h, lo, hi - 1) + last;
      assert forall x :: x in ChildrenIn(heads, h, lo, hi) <==> x in ChildrenIn(heads, h, lo, hi - 1) || x in last;
    }
  }

  /** ChildrenIn lists the children of h in [lo, hi) in strictly increasing order. */
  lemma {:induction false} ChildrenInIncreasing(heads: seq<int>, h: int, lo: int, hi: int)
    requires 1 <= lo && hi <= |heads|
    ensures StrictlyIncreasing(ChildrenIn(heads, h, lo, hi))
    decreases hi - lo
  {
    if hi > lo {
      ChildrenInIncreasing(heads, h, lo, hi - 1);
      ChildrenInBounds(heads, h, lo, hi - 1);
    }
  }

  /** Splitting the index range splits the child list. */
  lemma {:induction false} ChildrenInSplit(heads: seq<int>, h: int, lo: int, mid: int, hi: int)
    requires 1 <= lo <= mid <= hi <= |heads|
    ensures ChildrenIn(heads, h, lo, hi) == ChildrenIn(heads, h, lo, mid) + ChildrenIn(heads, h, mid, hi)
    decreases hi - mid
  {
    if hi > mid {
      ChildrenInSplit(heads, h, lo, mid, hi - 1);
      assert ChildrenIn(heads, h, lo, hi)
          == ChildrenIn(heads, h, lo, mid) + ChildrenIn(heads, h, mid, hi - 1)
             + (if heads[hi - 1] == h then [hi - 1] else []);
    }
  }

  /** Taking off the lowest index of the range. */
  lemma ChildrenInCons(heads: seq<int>, h: int, lo: int, hi: int)
    requires 1 <= lo < hi <= |heads|
    ensures ChildrenIn(heads, h, lo, hi) == (if heads[lo] == h then [lo] else []) + ChildrenIn(heads, h, lo + 1, hi)
  {
    ChildrenInSplit(heads, h, lo, lo + 1, hi);
    assert ChildrenIn(heads, h, lo, lo + 1) == ChildrenIn(heads, h, lo, lo) + (if heads[lo] == h then [lo] else []);
  }

  /** Children(heads, h) is exactly the set of real nodes whose head is h, ascending. */
  lemma ChildrenSpec(heads: seq<int>, h: int)
    ensures forall x :: x in Children(heads, h) <==> 1 <= x < |heads| && heads[x] == h
    ensures StrictlyIncreasing(Children(heads, h))
  {
    if |heads| > 0 {
      ChildrenInMembers(heads, h, 1, |heads|);
      ChildrenInIncreasing(heads, h, 1, |heads|);
    }
  }
}
