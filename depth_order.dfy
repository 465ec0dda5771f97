/** The depth-based child orders deep_first and shallow_first: each child list is the
    left-to-right list stably sorted by the height of each child's subtree, highest
    first (deep_first, reverse = true) or lowest first (shallow_first, reverse = false). */
module DepthOrder {
  import opened Tree
  import opened SeqUtil
  import opened ChildOrder

  /** A child together with the height of its subtree, as calc_depth records it. */
  datatype ChildDepth = ChildDepth(child: int, depth: nat)

  /** The height of the subtree rooted at h, following the child lists of ids: 0 for a
      leaf, otherwise one more than the largest height among its children. */
  function Height(heads: seq<int>, ids: seq<seq<int>>, h: int): nat
    requires Rooted(heads) && ListsChildren(heads, ids) && 0 <= h < |heads|
    decreases |heads| - Dist(heads, h), 1, 0
  {
    HeightUpTo(heads, ids, h, |ids[h]|)
  }

  /** The largest of Height(c) + 1 over the first i children c of h, or 0 when i = 0:
      max_depth after i rounds of the loop of calc_depth. */
  function HeightUpTo(heads: seq<int>, ids: seq<seq<int>>, h: int, i: nat): nat
    requires Rooted(heads) && ListsChildren(heads, ids) && 0 <= h < |heads| && i <= |ids[h]|
    decreases |heads| - Dist(heads, h), 0, i
  {
    if i == 0 then 0
    else
      var c := ids[h][i - 1];
      DistParent(heads, c);
      Max(HeightUpTo(heads, ids, h, i - 1), Height(heads, ids, c) + 1)
  }

  /** The pairs (c, Height(c)) for the first i children c of h: child_with_depth[h]
      after i rounds of the loop of calc_depth. */
  function AnnotateUpTo(heads: seq<int>, ids: seq<seq<int>>, h: int, i: nat): (r: seq<ChildDepth>)
    requires Rooted(heads) && ListsChildren(heads, ids) && 0 <= h < |heads| && i <= |ids[h]|
    ensures |r| == i
  {
    if i == 0 then []
    else AnnotateUpTo(heads, ids, h, i - 1) + [ChildDepth(ids[h][i - 1], Height(heads, ids, ids[h][i - 1]))]
  }

  /** The k-th pair is the k-th child with its height. */
  lemma {:induction false} AnnotateIndex(heads: seq<int>, ids: seq<seq<int>>, h: int, i: nat)
    requires Rooted(heads) && ListsChildren(heads, ids) && 0 <= h < |heads| && i <= |ids[h]|
    ensures forall k :: 0 <= k < i ==>
      AnnotateUpTo(heads, ids, h, i)[k] == ChildDepth(ids[h][k], Height(heads, ids, ids[h][k]))
  {
    if i > 0 {
      AnnotateIndex(heads, ids, h, i - 1);
    }
  }

  /** Height(c) + 1 is at most HeightUpTo(i) for each of the first i children c, and
      when i > 0 one of them attains it. */
  lemma {:induction false} HeightUpToIsMax(heads: seq<int>, ids: seq<seq<int>>, h: int, i: nat)
    requires Rooted(heads) && ListsChildren(heads, ids) && 0 <= h < |heads| && i <= |ids[h]|
    ensures forall k :: 0 <= k < i ==> Height(heads, ids, ids[h][k]) + 1 <= HeightUpTo(heads, ids, h, i)
    ensures i > 0 ==> exists k :: 0 <= k < i && Height(heads, ids, ids[h][k]) + 1 == HeightUpTo(heads, ids, h, i)
  {
    if i > 0 {
      HeightUpToIsMax(heads, ids, h, i - 1);
      if HeightUpTo(heads, ids, h, i) != Height(heads, ids, ids[h][i - 1]) + 1 {
        var k :| 0 <= k < i - 1 && Height(heads, ids, ids[h][k]) + 1 == HeightUpTo(heads, ids, h, i - 1);
      }
    }
  }

  /** A leaf has height 0; otherwise the height is one more than the largest height of
      a child. */
  lemma HeightIsMax(heads: seq<int>, ids: seq<seq<int>>, h: int)
    requires Rooted(heads) && ListsChildren(heads, ids) && 0 <= h < |heads|
    ensures ids[h] == [] ==> Height(heads, ids, h) == 0
    ensures forall c :: c in ids[h] ==> 0 <= c < |heads| && Height(heads, ids, c) < Height(heads, ids, h)
    ensures ids[h] != [] ==> exists c :: c in ids[h] && 0 <= c < |heads| && Height(heads, ids, c) + 1 == Height(heads, ids, h)
  {
    HeightUpToIsMax(heads, ids, h, |ids[h]|);
    if ids[h] != [] {
      var k :| 0 <= k < |ids[h]| && Height(heads, ids, ids[h][k]) + 1 == Height(heads, ids, h);
      assert ids[h][k] in ids[h];
    }
  }

  /** a sorts strictly before b by depth: deeper first when reverse, shallower first otherwise. */
  predicate Before(a: ChildDepth, b: ChildDepth, reverse: bool) {
    if reverse then a.depth > b.depth else a.depth < b.depth
  }

  /** Inserts x after every element of s that it does not sort strictly before. */
  function Insert(x: ChildDepth, s: seq<ChildDepth>, reverse: bool): seq<ChildDepth> {
    if s == [] then [x]
    else if Before(x, s[0], reverse) then [x] + s
    else [s[0]] + Insert(x, s[1..], reverse)
  }

  /** The stable sort by depth that sorted(..., key=depth, reverse=reverse) performs. */
  function SortByDepth(s: seq<ChildDepth>, reverse: bool): seq<ChildDepth> {
    if s == [] then []
    else Insert(s[|s| - 1], SortByDepth(s[..|s| - 1], reverse), reverse)
  }

  /** The child ids of a list of pairs: the comprehension that ends the depth orders. */
  function Firsts(s: seq<ChildDepth>): (r: seq<int>)
    ensures |r| == |s| && forall i :: 0 <= i < |s| ==> r[i] == s[i].child
  {
    seq(|s|, i requires 0 <= i < |s| => s[i].child)
  }

  /** The sorted pair list calc_depth leaves for head h. */
  function SortedChildDepths(heads: seq<int>, ids: seq<seq<int>>, h: int, reverse: bool): seq<ChildDepth>
    requires Rooted(heads) && ListsChildren(heads, ids) && 0 <= h < |heads|
  {
    SortByDepth(AnnotateUpTo(heads, ids, h, |ids[h]|), reverse)
  }

  /** The height of the subtree rooted at x, over the left-to-right child lists that
      _obtain_child_index_for_depth hands to calc_depth. */
  function SubtreeHeight(heads: seq<int>, x: int): nat
    requires Rooted(heads) && 0 <= x < |heads|
  {
    Left2RightComplete(heads, LeftToRightIndex(heads));
    Height(heads, LeftToRightIndex(heads), x)
  }

  /** The depth-based child list of head h. */
  function DepthOrderOf(heads: seq<int>, h: int, reverse: bool): seq<int>
    requires Rooted(heads) && 0 <= h < |heads|
  {
    Left2RightComplete(heads, LeftToRightIndex(heads));
    Firsts(SortedChildDepths(heads, LeftToRightIndex(heads), h, reverse))
  }

  // ---------------------------------------------------------------------------
  // The stable sort

  /** r is sorted by depth and, among equal depths, by strictly increasing child id. */
  predicate LexOrdered(r: seq<ChildDepth>, reverse: bool) {
    forall i, j :: 0 <= i < j < |r| ==> InOrder(r[i], r[j], reverse)
  }

  lemma {:induction false} InsertMultiset(x: ChildDepth, s: seq<ChildDepth>, reverse: bool)
    ensures multiset(Insert(x, s, reverse)) == multiset(s) + multiset{x}
  {
    if s != [] && !Before(x, s[0], reverse) {
      InsertMultiset(x, s[1..], reverse);
      assert s == [s[0]] + s[1..];
      assert multiset(s) == multiset{s[0]} + multiset(s[1..]);
      assert multiset(Insert(x, s, reverse)) == multiset{s[0]} + multiset(Insert(x, s[1..], reverse));
    }
  }

  /** Sorting by depth rearranges its input and nothing more. */
  lemma {:induction false} SortByDepthMultiset(s: seq<ChildDepth>, reverse: bool)
    ensures multiset(SortByDepth(s, reverse)) == multiset(s)
  {
    if s != [] {
      SortByDepthMultiset(s[..|s| - 1], reverse);
      InsertMultiset(s[|s| - 1], SortByDepth(s[..|s| - 1], reverse), reverse);
      assert s == s[..|s| - 1] + [s[|s| - 1]];
    }
  }

  /** a may sort directly ahead of b. */
  predicate InOrder(a: ChildDepth, b: ChildDepth, reverse: bool) {
    Before(a, b, reverse) || (a.depth == b.depth && a.child < b.child)
  }

  lemma LexOrderedCons(a: ChildDepth, t: seq<ChildDepth>, reverse: bool)
    requires LexOrdered(t, reverse)
    requires forall j :: 0 <= j < |t| ==> InOrder(a, t[j], reverse)
    ensures LexOrdered([a] + t, reverse)
  {
    var r := [a] + t;
    forall i, j | 0 <= i < j < |r| ensures InOrder(r[i], r[j], reverse) {
      if i == 0 {
        assert r[j] == t[j - 1];
      } else {
        assert r[i] == t[i - 1] && r[j] == t[j - 1];
      }
    }
  }

  lemma LexOrderedTail(s: seq<ChildDepth>, reverse: bool)
    requires s != [] && LexOrdered(s, reverse)
    ensures LexOrdered(s[1..], reverse)
  {
    var t := s[1..];
    forall i, j | 0 <= i < j < |t| ensures InOrder(t[i], t[j], reverse) {
      assert t[i] == s[i + 1] && t[j] == s[j + 1];
    }
  }

  lemma {:induction false} InsertLexOrdered(x: ChildDepth, s: seq<ChildDepth>, reverse: bool)
    requires LexOrdered(s, reverse)
    requires forall i :: 0 <= i < |s| ==> s[i].child < x.child
    ensures LexOrdered(Insert(x, s, reverse), reverse)
  {
    if s == [] {
    } else if Before(x, s[0], reverse) {
      forall j | 0 <= j < |s| ensures InOrder(x, s[j], reverse) {
        if j > 0 {
          assert InOrder(s[0], s[j], reverse);
        }
      }
      LexOrderedCons(x, s, reverse);
    } else {
      var tail := Insert(x, s[1..], reverse);
      LexOrderedTail(s, reverse);
      InsertLexOrdered(x, s[1..], reverse);
      InsertMultiset(x, s[1..], reverse);
      forall j | 0 <= j < |tail| ensures InOrder(s[0], tail[j], reverse) {
        assert tail[j] in multiset(tail);
        if tail[j] != x {
          assert tail[j] in multiset(s[1..]);
          var k :| 0 <= k < |s[1..]| && s[1..][k] == tail[j];
          assert InOrder(s[0], s[k + 1], reverse);
        }
      }
      LexOrderedCons(s[0], tail, reverse);
    }
  }

  /** Sorting a list whose child ids increase gives a list sorted by depth whose equal
      depths keep their original (increasing) order. */
  lemma {:induction false} SortByDepthLexOrdered(s: seq<ChildDepth>, reverse: bool)
    requires forall i, j :: 0 <= i < j < |s| ==> s[i].child < s[j].child
    ensures LexOrdered(SortByDepth(s, reverse), reverse)
  {
    if s != [] {
      var init := s[..|s| - 1];
      var sorted := SortByDepth(init, reverse);
      SortByDepthLexOrdered(init, reverse);
      SortByDepthMultiset(init, reverse);
      forall i | 0 <= i < |sorted| ensures sorted[i].child < s[|s| - 1].child {
        assert sorted[i] in multiset(init);
        var k :| 0 <= k < |init| && init[k] == sorted[i];
      }
      InsertLexOrdered(s[|s| - 1], sorted, reverse);
    }
  }

  // ---------------------------------------------------------------------------
  // The recursive depth computation

  /** x lies in the subtree of one of the first i children of h. */
  predicate InEarlierSubtree(heads: seq<int>, ids: seq<seq<int>>, x: int, h: int, i: nat)
    requires Rooted(heads) && ListsChildren(heads, ids) && 0 <= x < |heads| && 0 <= h < |heads| && i <= |ids[h]|
  {
    i > 0 && (InSubtree(heads, x, ids[h][i - 1]) || InEarlierSubtree(heads, ids, x, h, i - 1))
  }

  lemma {:induction false} InEarlierSubtreeMember(heads: seq<int>, ids: seq<seq<int>>, x: int, h: int, i: nat, k: nat)
    requires Rooted(heads) && ListsChildren(heads, ids) && 0 <= x < |heads| && 0 <= h < |heads| && k < i <= |ids[h]|
    requires InSubtree(heads, x, ids[h][k])
    ensures InEarlierSubtree(heads, ids, x, h, i)
  {
    if k < i - 1 {
      InEarlierSubtreeMember(heads, ids, x, h, i - 1, k);
    }
  }

  lemma {:induction false} InEarlierSubtreeWitness(heads: seq<int>, ids: seq<seq<int>>, x: int, h: int, i: nat)
    returns (k: nat)
    requires Rooted(heads) && ListsChildren(heads, ids) && 0 <= x < |heads| && 0 <= h < |heads| && i <= |ids[h]|
    requires InEarlierSubtree(heads, ids, x, h, i)
    ensures k < i && InSubtree(heads, x, ids[h][k])
  {
    if InSubtree(heads, x, ids[h][i - 1]) {
      k := i - 1;
    } else {
      k := InEarlierSubtreeWitness(heads, ids, x, h, i - 1);
    }
  }

  /** The subtree of the i-th child of head lies in head's subtree, avoids head, and
      meets none of the subtrees of the children listed before it. */
  lemma ChildSubtreeFresh(heads: seq<int>, ids: seq<seq<int>>, head: int, i: nat)
    requires Rooted(heads) && IsChildIndex(heads, ids) && 0 <= head < |heads| && i < |ids[head]|
    ensures forall x :: 0 <= x < |heads| && InSubtree(heads, x, ids[head][i]) ==>
      x != head && InSubtree(heads, x, head) && !InEarlierSubtree(heads, ids, x, head, i)
  {
    var child := ids[head][i];
    DistParent(heads, child);
    forall x | 0 <= x < |heads| && InSubtree(heads, x, child)
      ensures x != head && InSubtree(heads, x, head) && !InEarlierSubtree(heads, ids, x, head, i)
    {
      SubtreeDist(heads, x, child);
      SubtreeOfChild(heads, x, child);
      if InEarlierSubtree(heads, ids, x, head, i) {
        var k := InEarlierSubtreeWitness(heads, ids, x, head, i);
        assert ids[head][k] != child;
        SiblingSubtreesDisjoint(heads, x, child, ids[head][k]);
      }
    }
  }

  /** Apart from head itself, head's subtree is the union of its children's subtrees. */
  lemma SubtreeIsUnionOfChildSubtrees(heads: seq<int>, ids: seq<seq<int>>, head: int, x: int)
    requires Rooted(heads) && IsCompleteChildIndex(heads, ids)
    requires 0 <= head < |heads| && 0 <= x < |heads| && x != head
    ensures InSubtree(heads, x, head) <==> InEarlierSubtree(heads, ids, x, head, |ids[head]|)
  {
    if InSubtree(heads, x, head) {
      var c := ChildOnPath(heads, x, head);
      NoSelfLoop(heads, c);
      assert c in ids[head];
      var k :| 0 <= k < |ids[head]| && ids[head][k] == c;
      InEarlierSubtreeMember(heads, ids, x, head, |ids[head]|, k);
    }
    if InEarlierSubtree(heads, ids, x, head, |ids[head]|) {
      var k := InEarlierSubtreeWitness(heads, ids, x, head, |ids[head]|);
      SubtreeOfChild(heads, x, ids[head][k]);
    }
  }

  /** No entry for a node of the subtree of h has been written yet. */
  predicate EmptyOn(heads: seq<int>, cwd: seq<seq<ChildDepth>>, h: int)
    requires Rooted(heads) && |cwd| == |heads|
  {
    forall x :: 0 <= x < |heads| && InSubtree(heads, x, h) ==> cwd[x] == []
  }

  /** calc_depth(h) may start on cwd: ids is a complete child index of a rooted tree, h is
      a node, and no entry of h's subtree has been written yet. */
  predicate Ready(heads: seq<int>, ids: seq<seq<int>>, cwd: seq<seq<ChildDepth>>, h: int) {
    Rooted(heads) && IsCompleteChildIndex(heads, ids) && 0 <= h < |heads| &&
    |cwd| == |heads| && EmptyOn(heads, cwd, h)
  }

  /** The entry of x once calc_depth(h) has returned on the entries start: the sorted
      pairs of x's children when x is in h's subtree, its entry of start otherwise. */
  function OverlayEntry(heads: seq<int>, ids: seq<seq<int>>, start: seq<seq<ChildDepth>>, h: int, reverse: bool, x: int)
    : seq<ChildDepth>
    requires Rooted(heads) && ListsChildren(heads, ids) && |start| == |heads| && 0 <= x < |heads|
  {
    if InSubtree(heads, x, h) then SortedChildDepths(heads, ids, x, reverse) else start[x]
  }

  /** cwd holds the entries calc_depth(h) leaves when it starts on start. */
  predicate IsOverlay(heads: seq<int>, ids: seq<seq<int>>, start: seq<seq<ChildDepth>>, h: int, reverse: bool,
                      cwd: seq<seq<ChildDepth>>)
    requires Rooted(heads) && ListsChildren(heads, ids) && |start| == |heads|
  {
    |cwd| == |heads| &&
    forall x :: 0 <= x < |heads| ==> cwd[x] == OverlayEntry(heads, ids, start, h, reverse, x)
  }

  /** The entry of x while calc_depth(head) runs, once its first i children are done: head
      holds their pairs in visiting order, the nodes of their subtrees hold sorted pairs,
      every other node its entry of start. */
  function VisitedEntry(heads: seq<int>, ids: seq<seq<int>>, start: seq<seq<ChildDepth>>, head: int, i: nat,
                        reverse: bool, x: int): seq<ChildDepth>
    requires Rooted(heads) && ListsChildren(heads, ids) && 0 <= head < |heads| && i <= |ids[head]|
    requires |start| == |heads| && 0 <= x < |heads|
  {
    if x == head then AnnotateUpTo(heads, ids, head, i)
    else if InEarlierSubtree(heads, ids, x, head, i) then SortedChildDepths(heads, ids, x, reverse)
    else start[x]
  }

  /** cwd holds the entries of calc_depth(head) after its first i children. */
  predicate IsVisited(heads: seq<int>, ids: seq<seq<int>>, start: seq<seq<ChildDepth>>, head: int, i: nat,
                      reverse: bool, cwd: seq<seq<ChildDepth>>)
    requires Rooted(heads) && ListsChildren(heads, ids) && 0 <= head < |heads| && i <= |ids[head]|
    requires |start| == |heads|
  {
    |cwd| == |heads| &&
    forall x :: 0 <= x < |heads| ==> cwd[x] == VisitedEntry(heads, ids, start, head, i, reverse, x)
  }

  /** Before the first child, nothing has been visited. */
  lemma VisitedStart(heads: seq<int>, ids: seq<seq<int>>, head: int, start: seq<seq<ChildDepth>>, reverse: bool)
    requires Ready(heads, ids, start, head)
    ensures IsVisited(heads, ids, start, head, 0, reverse, start)
  {
    forall x | 0 <= x < |heads| ensures start[x] == VisitedEntry(heads, ids, start, head, 0, reverse, x) {
      if x == head {
        assert InSubtree(heads, head, head);
      }
    }
  }

  /** Before the call on the i-th child, that child is one step further from the root and
      the entries of its subtree are still empty. */
  lemma VisitedFresh(heads: seq<int>, ids: seq<seq<int>>, head: int, i: nat, start: seq<seq<ChildDepth>>, reverse: bool,
                     cwd: seq<seq<ChildDepth>>)
    requires Ready(heads, ids, start, head) && i < |ids[head]|
    requires IsVisited(heads, ids, start, head, i, reverse, cwd)
    ensures 1 <= ids[head][i] < |heads| && Dist(heads, ids[head][i]) == Dist(heads, head) + 1
    ensures Ready(heads, ids, cwd, ids[head][i])
  {
    DistParent(heads, ids[head][i]);
    ChildSubtreeFresh(heads, ids, head, i);
  }

  /** The call on the i-th child, followed by appending its pair to head's entry, moves
      the visited prefix on by one child. */
  lemma VisitedStep(heads: seq<int>, ids: seq<seq<int>>, head: int, i: nat, start: seq<seq<ChildDepth>>, reverse: bool,
                    cwd: seq<seq<ChildDepth>>, next: seq<seq<ChildDepth>>)
    requires Ready(heads, ids, start, head) && i < |ids[head]|
    requires IsVisited(heads, ids, start, head, i, reverse, cwd)
    requires IsOverlay(heads, ids, cwd, ids[head][i], reverse, next)
    ensures IsVisited(heads, ids, start, head, i + 1, reverse,
                      next[head := next[head] + [ChildDepth(ids[head][i], Height(heads, ids, ids[head][i]))]])
  {
    var child := ids[head][i];
    var after := next[head := next[head] + [ChildDepth(child, Height(heads, ids, child))]];
    DistParent(heads, child);
    if InSubtree(heads, head, child) {
      SubtreeDist(heads, head, child);
    }
    forall x | 0 <= x < |heads| ensures after[x] == VisitedEntry(heads, ids, start, head, i + 1, reverse, x) {
      assert next[x] == OverlayEntry(heads, ids, cwd, child, reverse, x);
      if x == head {
        assert next[x] == cwd[x] == AnnotateUpTo(heads, ids, head, i);
      } else if InSubtree(heads, x, child) {
        assert InEarlierSubtree(heads, ids, x, head, i + 1);
      } else {
        assert next[x] == cwd[x] == VisitedEntry(heads, ids, start, head, i, reverse, x);
        assert InEarlierSubtree(heads, ids, x, head, i + 1) == InEarlierSubtree(heads, ids, x, head, i);
      }
    }
  }

  /** Once every child is done, sorting head's pairs leaves the entries of calc_depth(head). */
  lemma VisitedDone(heads: seq<int>, ids: seq<seq<int>>, head: int, start: seq<seq<ChildDepth>>, reverse: bool,
                    cwd: seq<seq<ChildDepth>>)
    requires Ready(heads, ids, start, head)
    requires IsVisited(heads, ids, start, head, |ids[head]|, reverse, cwd)
    ensures IsOverlay(heads, ids, start, head, reverse, cwd[head := SortByDepth(cwd[head], reverse)])
  {
    var done := cwd[head := SortByDepth(cwd[head], reverse)];
    forall x | 0 <= x < |heads| ensures done[x] == OverlayEntry(heads, ids, start, head, reverse, x) {
      assert cwd[x] == VisitedEntry(heads, ids, start, head, |ids[head]|, reverse, x);
      if x == head {
        assert InSubtree(heads, head, head);
      } else {
        SubtreeIsUnionOfChildSubtrees(heads, ids, head, x);
      }
    }
  }

  /** calc_depth(head): computes the height of head's subtree and, for every node x of
      that subtree, leaves in childWithDepth[x] the sorted pairs of x's children. Nodes
      outside the subtree keep their entries. */
  method CalcDepth(heads: seq<int>, childIds: seq<seq<int>>, childWithDepth: seq<seq<ChildDepth>>,
                   head: int, reverse: bool)
    returns (maxDepth: nat, cwd: seq<seq<ChildDepth>>)
    requires Ready(heads, childIds, childWithDepth, head)
    ensures maxDepth == Height(heads, childIds, head)
    ensures IsOverlay(heads, childIds, childWithDepth, head, reverse, cwd)
    decreases |heads| - Dist(heads, head)
  {
    var children := childIds[head];
    maxDepth := 0;
    VisitedStart(heads, childIds, head, childWithDepth, reverse);
    cwd := childWithDepth;
    var i := 0;
    while i < |children|
      invariant 0 <= i <= |children|
      invariant maxDepth == HeightUpTo(heads, childIds, head, i)
      invariant IsVisited(heads, childIds, childWithDepth, head, i, reverse, cwd)
    {
      var child := children[i];
      VisitedFresh(heads, childIds, head, i, childWithDepth, reverse, cwd);
      var depth, next := CalcDepth(heads, childIds, cwd, child, reverse);
      VisitedStep(heads, childIds, head, i, childWithDepth, reverse, cwd, next);
      cwd := next[head := next[head] + [ChildDepth(child, depth)]];
      maxDepth := Max(maxDepth, depth + 1);
      i := i + 1;
    }
    VisitedDone(heads, childIds, head, childWithDepth, reverse, cwd);
    cwd := cwd[head := SortByDepth(cwd[head], reverse)];
  }

  /** _obtain_child_index_for_depth: the left-to-right index, re-sorted by subtree height. */
  method DepthChildIndex(heads: seq<int>, reverse: bool) returns (childIds: seq<seq<int>>)
    requires Rooted(heads)
    ensures |childIds| == |heads|
    ensures forall h :: 0 <= h < |heads| ==> childIds[h] == DepthOrderOf(heads, h, reverse)
  {
    var leftToRight := Left2Right(heads);
    assert leftToRight == LeftToRightIndex(heads);
    Left2RightComplete(heads, leftToRight);
    var childWithDepth: seq<seq<ChildDepth>> := seq(|heads|, _ => []);
    var _, cwd := CalcDepth(heads, leftToRight, childWithDepth, 0, reverse);
    forall x | 0 <= x < |heads| ensures cwd[x] == SortedChildDepths(heads, leftToRight, x, reverse) {
      InRootSubtree(heads, x);
      assert cwd[x] == OverlayEntry(heads, leftToRight, childWithDepth, 0, reverse, x);
    }
    childIds := seq(|heads|, h requires 0 <= h < |heads| => Firsts(cwd[h]));
  }

  // ---------------------------------------------------------------------------
  // What the depth orders promise

  /** The child ids of a concatenation. */
  lemma FirstsAppend(a: seq<ChildDepth>, b: seq<ChildDepth>)
    ensures Firsts(a + b) == Firsts(a) + Firsts(b)
  {
  }

  lemma {:induction false} InsertFirsts(x: ChildDepth, s: seq<ChildDepth>, reverse: bool)
    ensures multiset(Firsts(Insert(x, s, reverse))) == multiset(Firsts(s)) + multiset{x.child}
  {
    if s == [] {
    } else if Before(x, s[0], reverse) {
      FirstsAppend([x], s);
    } else {
      InsertFirsts(x, s[1..], reverse);
      FirstsAppend([s[0]], Insert(x, s[1..], reverse));
      FirstsAppend([s[0]], s[1..]);
      assert s == [s[0]] + s[1..];
    }
  }

  /** Sorting by depth rearranges the child ids and nothing more. */
  lemma {:induction false} SortByDepthFirsts(s: seq<ChildDepth>, reverse: bool)
    ensures multiset(Firsts(SortByDepth(s, reverse))) == multiset(Firsts(s))
  {
    if s != [] {
      var init := s[..|s| - 1];
      SortByDepthFirsts(init, reverse);
      InsertFirsts(s[|s| - 1], SortByDepth(init, reverse), reverse);
      FirstsAppend(init, [s[|s| - 1]]);
      assert s == init + [s[|s| - 1]];
    }
  }

  /** Every pair of the sorted list for h is a child of h with the height of its subtree. */
  lemma SortedPairsAreChildren(heads: seq<int>, ids: seq<seq<int>>, h: int, reverse: bool)
    requires Rooted(heads) && ListsChildren(heads, ids) && 0 <= h < |heads|
    ensures var sorted := SortedChildDepths(heads, ids, h, reverse);
      forall i :: 0 <= i < |sorted| ==>
        1 <= sorted[i].child < |heads| && heads[sorted[i].child] == h &&
        sorted[i].depth == Height(heads, ids, sorted[i].child)
  {
    var ann := AnnotateUpTo(heads, ids, h, |ids[h]|);
    AnnotateIndex(heads, ids, h, |ids[h]|);
    var sorted := SortByDepth(ann, reverse);
    SortByDepthMultiset(ann, reverse);
    forall i | 0 <= i < |sorted|
      ensures 1 <= sorted[i].child < |heads| && heads[sorted[i].child] == h
      ensures sorted[i].depth == Height(heads, ids, sorted[i].child)
    {
      assert sorted[i] in multiset(ann);
      var k :| 0 <= k < |ann| && ann[k] == sorted[i];
    }
  }

  /** The re-sorted list of h is a rearrangement of ids[h]. */
  lemma SortedListMembers(heads: seq<int>, ids: seq<seq<int>>, h: int, reverse: bool)
    requires Rooted(heads) && ListsChildren(heads, ids) && 0 <= h < |heads|
    ensures multiset(Firsts(SortedChildDepths(heads, ids, h, reverse))) == multiset(ids[h])
  {
    var ann := AnnotateUpTo(heads, ids, h, |ids[h]|);
    AnnotateIndex(heads, ids, h, |ids[h]|);
    SortByDepthFirsts(ann, reverse);
    assert Firsts(ann) == ids[h];
  }

  /** When ids[h] is in increasing order, the re-sorted list of h is sorted by height,
      and children of equal height keep their increasing order. */
  lemma SortedListOrdered(heads: seq<int>, ids: seq<seq<int>>, h: int, reverse: bool)
    requires Rooted(heads) && ListsChildren(heads, ids) && 0 <= h < |heads|
    requires StrictlyIncreasing(ids[h])
    ensures forall i, j :: 0 <= i < j < |Firsts(SortedChildDepths(heads, ids, h, reverse))| ==>
      var r := Firsts(SortedChildDepths(heads, ids, h, reverse));
      0 <= r[i] < |heads| && 0 <= r[j] < |heads| &&
      (if reverse then Height(heads, ids, r[i]) >= Height(heads, ids, r[j])
       else Height(heads, ids, r[i]) <= Height(heads, ids, r[j])) &&
      (Height(heads, ids, r[i]) == Height(heads, ids, r[j]) ==> r[i] < r[j])
  {
    var ann := AnnotateUpTo(heads, ids, h, |ids[h]|);
    AnnotateIndex(heads, ids, h, |ids[h]|);
    var sorted := SortByDepth(ann, reverse);
    SortByDepthLexOrdered(ann, reverse);
    SortedPairsAreChildren(heads, ids, h, reverse);
    assert sorted == SortedChildDepths(heads, ids, h, reverse);
    var r := Firsts(sorted);
    forall i, j | 0 <= i < j < |r|
      ensures 0 <= r[i] < |heads| && 0 <= r[j] < |heads|
      ensures InOrder(sorted[i], sorted[j], reverse)
    {
    }
  }

  /** The depth-based list of h: a rearrangement of its left-to-right list, sorted by
      subtree height (descending for deep_first, ascending for shallow_first), with
      children of equal height kept in left-to-right order. */
  lemma DepthOrderSpec(heads: seq<int>, h: int, reverse: bool)
    requires Rooted(heads) && 0 <= h < |heads|
    ensures multiset(DepthOrderOf(heads, h, reverse)) == multiset(Children(heads, h))
    ensures forall i :: 0 <= i < |DepthOrderOf(heads, h, reverse)| ==>
      1 <= DepthOrderOf(heads, h, reverse)[i] < |heads| && heads[DepthOrderOf(heads, h, reverse)[i]] == h
    ensures forall i, j :: 0 <= i < j < |DepthOrderOf(heads, h, reverse)| ==>
      var r := DepthOrderOf(heads, h, reverse);
      (if reverse then SubtreeHeight(heads, r[i]) >= SubtreeHeight(heads, r[j])
       else SubtreeHeight(heads, r[i]) <= SubtreeHeight(heads, r[j])) &&
      (SubtreeHeight(heads, r[i]) == SubtreeHeight(heads, r[j]) ==> r[i] < r[j])
  {
    var ids := LeftToRightIndex(heads);
    Left2RightComplete(heads, ids);
    ChildrenSpec(heads, h);
    SortedPairsAreChildren(heads, ids, h, reverse);
    SortedListMembers(heads, ids, h, reverse);
    SortedListOrdered(heads, ids, h, reverse);
    var r := DepthOrderOf(heads, h, reverse);
    assert r == Firsts(SortedChildDepths(heads, ids, h, reverse));
  }

  /** The depth-based orders give a complete child index of a rooted tree. */
  lemma DepthOrderIsComplete(heads: seq<int>, ids: seq<seq<int>>, reverse: bool)
    requires Rooted(heads)
    requires |ids| == |heads| && forall h :: 0 <= h < |heads| ==> ids[h] == DepthOrderOf(heads, h, reverse)
    ensures IsCompleteChildIndex(heads, ids)
  {
    forall h | 0 <= h < |heads|
      ensures forall x :: x in ids[h] <==> 1 <= x < |heads| && heads[x] == h
      ensures Distinct(ids[h])
    {
      DepthOrderSpec(heads, h, reverse);
      ChildrenSpec(heads, h);
      var r := ids[h];
      forall x ensures x in r <==> x in Children(heads, h) {
        assert x in r <==> x in multiset(r);
      }
      forall i, j | 0 <= i < j < |r| ensures r[i] != r[j] {
        if SubtreeHeight(heads, r[i]) != SubtreeHeight(heads, r[j]) {
        } else {
          assert r[i] < r[j];
        }
      }
    }
    forall h, i | 0 <= h < |heads| && 0 <= i < |ids[h]| ensures 1 <= ids[h][i] < |heads| && heads[ids[h][i]] == h {
      assert ids[h][i] in ids[h];
    }
  }
}
