/** The three index-order child lists: left-to-right, right-to-left and inside-out.
    Each builder starts from one empty list per node and appends children to their
    head's list while scanning node indices. */
module ChildOrder {
  import opened Tree
  import opened SeqUtil

  /** ids holds one list per node, and each list holds real nodes whose head is that node. */
  predicate ListsChildren(heads: seq<int>, ids: seq<seq<int>>) {
    |ids| == |heads| &&
    forall h, i :: 0 <= h < |ids| && 0 <= i < |ids[h]| ==> 1 <= ids[h][i] < |heads| && heads[ids[h][i]] == h
  }

  /** A child index: moreover, no list repeats a node. */
  predicate IsChildIndex(heads: seq<int>, ids: seq<seq<int>>) {
    ListsChildren(heads, ids) && forall h :: 0 <= h < |ids| ==> Distinct(ids[h])
  }

  /** A child index that, moreover, lists every real node (other than a node that is
      its own head) in the list of its head. */
  predicate IsCompleteChildIndex(heads: seq<int>, ids: seq<seq<int>>)
    requires InRange(heads)
  {
    IsChildIndex(heads, ids) &&
    forall c :: 1 <= c < |heads| && heads[c] != c ==> c in ids[heads[c]]
  }

  /** The left-to-right child index of the whole array. */
  function LeftToRightIndex(heads: seq<int>): (ids: seq<seq<int>>)
    ensures |ids| == |heads| && forall h :: 0 <= h < |heads| ==> ids[h] == Children(heads, h)
  {
    seq(|heads|, h => Children(heads, h))
  }

  /** The inside-out order for head h: its children below h from nearest to farthest,
      then its children above h from nearest to farthest. */
  function InsideOutOrder(heads: seq<int>, h: int): seq<int>
    requires 0 <= h < |heads|
  {
    Reverse(ChildrenIn(heads, h, 1, h)) + ChildrenIn(heads, h, h + 1, |heads|)
  }

  /** left2right: scan the real nodes upward, appending each to its head's list. */
  method Left2Right(heads: seq<int>) returns (childIds: seq<seq<int>>)
    requires InRange(heads)
    ensures |childIds| == |heads|
    ensures forall h :: 0 <= h < |heads| ==> childIds[h] == Children(heads, h)
  {
    childIds := seq(|heads|, _ => []);
    var child := 1;
    while child < |heads|
      invariant 1 <= child && (child <= |heads| || child == 1)
      invariant |childIds| == |heads|
      invariant forall h :: 0 <= h < |heads| ==> childIds[h] == ChildrenIn(heads, h, 1, child)
    {
      var head := heads[child];
      childIds := childIds[head := childIds[head] + [child]];
      child := child + 1;
    }
  }

  /** right2left: scan the real nodes downward, appending each to its head's list. */
  method Right2Left(heads: seq<int>) returns (childIds: seq<seq<int>>)
    requires InRange(heads)
    ensures |childIds| == |heads|
    ensures forall h :: 0 <= h < |heads| ==> childIds[h] == Reverse(Children(heads, h))
  {
    childIds := seq(|heads|, _ => []);
    var child := |heads| - 1;
    while child > 0
      invariant -1 <= child < |heads| && (child >= 0 || |heads| == 0)
      invariant |childIds| == |heads|
      invariant forall h :: 0 <= h < |heads| ==>
        childIds[h] == Reverse(ChildrenIn(heads, h, child + 1, |heads|))
    {
      var head := heads[child];
      forall h | 0 <= h < |heads|
        ensures heads[child] != h ==> ChildrenIn(heads, h, child, |heads|) == ChildrenIn(heads, h, child + 1, |heads|)
      {
        ChildrenInCons(heads, h, child, |heads|);
      }
      ChildrenInCons(heads, head, child, |heads|);
      ReverseCons(child, ChildrenIn(heads, head, child + 1, |heads|));
      childIds := childIds[head := childIds[head] + [child]];
      child := child - 1;
    }
  }

  /** inside_out: for every head, scan downward from it for its left children, then
      upward from it for its right children. */
  method InsideOut(heads: seq<int>) returns (childIds: seq<seq<int>>)
    ensures |childIds| == |heads|
    ensures forall h :: 0 <= h < |heads| ==> childIds[h] == InsideOutOrder(heads, h)
  {
    childIds := seq(|heads|, _ => []);
    var head := 0;
    while head < |heads|
      invariant 0 <= head <= |heads| && |childIds| == |heads|
      invariant forall h :: 0 <= h < head ==> childIds[h] == InsideOutOrder(heads, h)
      invariant forall h :: head <= h < |heads| ==> childIds[h] == []
    {
      // list is child_ids[head], empty until this round appends to it
      var list := [];
      // left children, nearest first
      var child := head - 1;
      while child >= 1
        invariant 0 <= child + 1 <= head && (child >= 0 || head == 0)
        invariant list == Reverse(ChildrenIn(heads, head, child + 1, head))
      {
        ChildrenInCons(heads, head, child, head);
        if heads[child] == head {
          ReverseCons(child, ChildrenIn(heads, head, child + 1, head));
          list := list + [child];
        } else {
          assert ChildrenIn(heads, head, child, head) == ChildrenIn(heads, head, child + 1, head);
        }
        child := child - 1;
      }
      if head == 0 {
        assert ChildrenIn(heads, head, child + 1, head) == [] == ChildrenIn(heads, head, 1, head);
      } else {
        assert child + 1 == 1;
      }
      // right children, nearest first
      child := head + 1;
      while child < |heads|
        invariant head + 1 <= child <= |heads|
        invariant list == Reverse(ChildrenIn(heads, head, 1, head)) + ChildrenIn(heads, head, head + 1, child)
      {
        if heads[child] == head {
          list := list + [child];
        } else {
          assert ChildrenIn(heads, head, head + 1, child + 1) == ChildrenIn(heads, head, head + 1, child);
        }
        child := child + 1;
      }
      childIds := childIds[head := list];
      head := head + 1;
    }
  }

  /** Every left-to-right list holds exactly the children of its head, ascending. */
  lemma Left2RightSpec(heads: seq<int>, h: int)
    ensures forall x :: x in Children(heads, h) <==> 1 <= x < |heads| && heads[x] == h
    ensures StrictlyIncreasing(Children(heads, h))
  {
    ChildrenSpec(heads, h);
  }

  /** Every right-to-left list holds exactly the children of its head, descending. */
  lemma Right2LeftSpec(heads: seq<int>, h: int)
    ensures forall x :: x in Reverse(Children(heads, h)) <==> 1 <= x < |heads| && heads[x] == h
    ensures forall i, j :: 0 <= i < j < |Children(heads, h)| ==>
      Reverse(Children(heads, h))[i] > Reverse(Children(heads, h))[j]
  {
    ChildrenSpec(heads, h);
    ReverseMembers(Children(heads, h));
    ReverseIndex(Children(heads, h));
  }

  /** The children of h listed inside-out are exactly its children other than h. */
  lemma InsideOutMembers(heads: seq<int>, h: int)
    requires 0 <= h < |heads|
    ensures forall x :: x in InsideOutOrder(heads, h) <==> 1 <= x < |heads| && x != h && heads[x] == h
  {
    ChildrenInMembers(heads, h, 1, h);
    ChildrenInMembers(heads, h, h + 1, |heads|);
    ReverseMembers(ChildrenIn(heads, h, 1, h));
  }

  /** Inside-out, the left children come first and run downward, the right children
      follow and run upward. */
  lemma InsideOutOrdering(heads: seq<int>, h: int)
    requires 0 <= h < |heads|
    ensures forall i, j :: 0 <= i < j < |InsideOutOrder(heads, h)| ==>
      var r := InsideOutOrder(heads, h);
      (r[i] < h && r[j] < h ==> r[i] > r[j]) &&
      (r[i] > h && r[j] > h ==> r[i] < r[j]) &&
      !(r[i] > h && r[j] < h)
  {
    var left, right := ChildrenIn(heads, h, 1, h), ChildrenIn(heads, h, h + 1, |heads|);
    ChildrenInBounds(heads, h, 1, h);
    ChildrenInBounds(heads, h, h + 1, |heads|);
    ChildrenInIncreasing(heads, h, 1, h);
    ChildrenInIncreasing(heads, h, h + 1, |heads|);
    var rl := Reverse(left);
    ReverseIndex(left);
    var r := InsideOutOrder(heads, h);
    assert r == rl + right;
    forall i, j | 0 <= i < j < |r|
      ensures (r[i] < h && r[j] < h ==> r[i] > r[j]) &&
              (r[i] > h && r[j] > h ==> r[i] < r[j]) &&
              !(r[i] > h && r[j] < h)
    {
      if j < |rl| {
        assert r[i] == left[|left| - 1 - i] && r[j] == left[|left| - 1 - j];
      } else if i < |rl| {
        assert r[i] == left[|left| - 1 - i] && r[j] == right[j - |rl|];
      } else {
        assert r[i] == right[i - |rl|] && r[j] == right[j - |rl|];
      }
    }
  }

  lemma IncreasingIsDistinct(s: seq<int>)
    requires StrictlyIncreasing(s)
    ensures Distinct(s) && Distinct(Reverse(s))
  {
    ReverseIndex(s);
  }

  /** The left-to-right lists form a complete child index. */
  lemma Left2RightComplete(heads: seq<int>, ids: seq<seq<int>>)
    requires InRange(heads)
    requires |ids| == |heads| && forall h :: 0 <= h < |heads| ==> ids[h] == Children(heads, h)
    ensures IsCompleteChildIndex(heads, ids)
  {
    forall h | 0 <= h < |heads|
      ensures forall x :: x in ids[h] <==> 1 <= x < |heads| && heads[x] == h
      ensures Distinct(ids[h])
    {
      Left2RightSpec(heads, h);
      IncreasingIsDistinct(Children(heads, h));
    }
    forall h, i | 0 <= h < |heads| && 0 <= i < |ids[h]| ensures 1 <= ids[h][i] < |heads| && heads[ids[h][i]] == h {
      assert ids[h][i] in ids[h];
    }
  }

  /** The right-to-left lists form a complete child index. */
  lemma Right2LeftComplete(heads: seq<int>, ids: seq<seq<int>>)
    requires InRange(heads)
    requires |ids| == |heads| && forall h :: 0 <= h < |heads| ==> ids[h] == Reverse(Children(heads, h))
    ensures IsCompleteChildIndex(heads, ids)
  {
    forall h | 0 <= h < |heads|
      ensures forall x :: x in ids[h] <==> 1 <= x < |heads| && heads[x] == h
      ensures Distinct(ids[h])
    {
      Right2LeftSpec(heads, h);
      ChildrenSpec(heads, h);
      IncreasingIsDistinct(Children(heads, h));
    }
    forall h, i | 0 <= h < |heads| && 0 <= i < |ids[h]| ensures 1 <= ids[h][i] < |heads| && heads[ids[h][i]] == h {
      assert ids[h][i] in ids[h];
    }
  }

  /** The inside-out lists form a complete child index when no node is its own head,
      which holds in every rooted tree. */
  lemma InsideOutComplete(heads: seq<int>, ids: seq<seq<int>>)
    requires InRange(heads)
    requires |ids| == |heads| && forall h :: 0 <= h < |heads| ==> ids[h] == InsideOutOrder(heads, h)
    requires forall c :: 1 <= c < |heads| ==> heads[c] != c
    ensures IsCompleteChildIndex(heads, ids)
  {
    forall h | 0 <= h < |heads|
      ensures forall x :: x in ids[h] <==> 1 <= x < |heads| && x != h && heads[x] == h
      ensures Distinct(ids[h])
    {
      InsideOutMembers(heads, h);
      InsideOutOrdering(heads, h);
      var r := ids[h];
      forall i, j | 0 <= i < j < |r| ensures r[i] != r[j] {
        assert r[i] in r && r[j] in r;
      }
    }
    forall h, i | 0 <= h < |heads| && 0 <= i < |ids[h]| ensures 1 <= ids[h][i] < |heads| && heads[ids[h][i]] == h {
      assert ids[h][i] in ids[h];
    }
  }
}
