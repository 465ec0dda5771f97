/** The decoder inputs of the stack-pointer parser: the prior-order dispatcher and the
    explicit-stack walk that turns a child index into five parallel step lists. */
module StackInputs {
  import opened Wrappers
  import opened SeqUtil
  import opened Tree
  import ChildOrder
  import DepthOrder

  // ---------------------------------------------------------------------------
  // Prior orders

  /** The five child orders a decoder can be trained on. */
  datatype PriorOrder = DeepFirst | ShallowFirst | LeftToRight | InsideOut | RightToLeft

  /** The name a configuration uses for each order. */
  function OrderName(o: PriorOrder): string {
    match o
    case DeepFirst => "deep_first"
    case ShallowFirst => "shallow_first"
    case LeftToRight => "left2right"
    case InsideOut => "inside_out"
    case RightToLeft => "right2left"
  }

  /** Reads an order name; None for a name that is none of the five. */
  function ParseOrder(name: string): (o: Option<PriorOrder>)
    ensures o.Some? ==> OrderName(o.value) == name
    ensures o.None? ==> forall p: PriorOrder :: OrderName(p) != name
  {
    if name == "deep_first" then Some(DeepFirst)
    else if name == "shallow_first" then Some(ShallowFirst)
    else if name == "left2right" then Some(LeftToRight)
    else if name == "inside_out" then Some(InsideOut)
    else if name == "right2left" then Some(RightToLeft)
    else None
  }

  /** Every order is read back from its own name. */
  lemma ParseOrderName(o: PriorOrder)
    ensures ParseOrder(OrderName(o)) == Some(o)
  {
  }

  /** The depth-based orders measure subtree heights, which needs a rooted tree. */
  predicate NeedsTree(o: PriorOrder) {
    o.DeepFirst? || o.ShallowFirst?
  }

  /** The child list of head h under order o. */
  function OrderedChildren(heads: seq<int>, o: PriorOrder, h: int): seq<int>
    requires InRange(heads) && 0 <= h < |heads|
    requires NeedsTree(o) ==> Rooted(heads)
  {
    match o
    case LeftToRight => Children(heads, h)
    case RightToLeft => Reverse(Children(heads, h))
    case InsideOut => ChildOrder.InsideOutOrder(heads, h)
    case DeepFirst => DepthOrder.DepthOrderOf(heads, h, true)
    case ShallowFirst => DepthOrder.DepthOrderOf(heads, h, false)
  }

  /** The child index of the whole array under order o. */
  function OrderedIndex(heads: seq<int>, o: PriorOrder): (ids: seq<seq<int>>)
    requires InRange(heads)
    requires NeedsTree(o) ==> Rooted(heads)
    ensures |ids| == |heads| && forall h :: 0 <= h < |heads| ==> ids[h] == OrderedChildren(heads, o, h)
  {
    seq(|heads|, h requires 0 <= h < |heads| => OrderedChildren(heads, o, h))
  }

  /** The dispatch on the prior order: run the builder the order names. */
  method ObtainChildIndex(heads: seq<int>, o: PriorOrder) returns (childIds: seq<seq<int>>)
    requires InRange(heads)
    requires NeedsTree(o) ==> Rooted(heads)
    ensures |childIds| == |heads|
    ensures forall h :: 0 <= h < |heads| ==> childIds[h] == OrderedChildren(heads, o, h)
  {
    match o
    case DeepFirst => childIds := DepthOrder.DepthChildIndex(heads, true);
    case ShallowFirst => childIds := DepthOrder.DepthChildIndex(heads, false);
    case LeftToRight => childIds := ChildOrder.Left2Right(heads);
    case InsideOut => childIds := ChildOrder.InsideOut(heads);
    case RightToLeft => childIds := ChildOrder.Right2Left(heads);
  }

  /** Under every order, the list of h holds exactly the children of h (in a rooted
      tree, where no node is its own head). */
  lemma EveryOrderListsChildren(heads: seq<int>, o: PriorOrder, h: int)
    requires Rooted(heads) && 0 <= h < |heads|
    ensures forall x :: x in OrderedChildren(heads, o, h) <==> 1 <= x < |heads| && heads[x] == h
  {
    OrderedIndexIsComplete(heads, o);
    var ids := OrderedIndex(heads, o);
    forall x ensures x in ids[h] <==> 1 <= x < |heads| && heads[x] == h {
      if x in ids[h] {
        var i :| 0 <= i < |ids[h]| && ids[h][i] == x;
      }
      if 1 <= x < |heads| && heads[x] == h {
        NoSelfLoop(heads, x);
      }
    }
  }

  /** Every order lists only children of each head. */
  lemma OrderedIndexListsChildren(heads: seq<int>, o: PriorOrder)
    requires InRange(heads)
    requires NeedsTree(o) ==> Rooted(heads)
    ensures ChildOrder.ListsChildren(heads, OrderedIndex(heads, o))
  {
    var ids := OrderedIndex(heads, o);
    match o {
      case LeftToRight => ChildOrder.Left2RightComplete(heads, ids);
      case RightToLeft => ChildOrder.Right2LeftComplete(heads, ids);
      case DeepFirst => DepthOrder.DepthOrderIsComplete(heads, ids, true);
      case ShallowFirst => DepthOrder.DepthOrderIsComplete(heads, ids, false);
      case InsideOut =>
        forall h, i | 0 <= h < |ids| && 0 <= i < |ids[h]| ensures 1 <= ids[h][i] < |heads| && heads[ids[h][i]] == h {
          ChildOrder.InsideOutMembers(heads, h);
          assert ids[h][i] in ChildOrder.InsideOutOrder(heads, h);
        }
    }
  }

  /** In a rooted tree every order gives a complete child index. */
  lemma OrderedIndexIsComplete(heads: seq<int>, o: PriorOrder)
    requires Rooted(heads)
    ensures ChildOrder.IsCompleteChildIndex(heads, OrderedIndex(heads, o))
  {
    var ids := OrderedIndex(heads, o);
    match o {
      case LeftToRight => ChildOrder.Left2RightComplete(heads, ids);
      case RightToLeft => ChildOrder.Right2LeftComplete(heads, ids);
      case DeepFirst => DepthOrder.DepthOrderIsComplete(heads, ids, true);
      case ShallowFirst => DepthOrder.DepthOrderIsComplete(heads, ids, false);
      case InsideOut =>
        RootedHasNoSelfHeads(heads);
        ChildOrder.InsideOutComplete(heads, ids);
    }
  }

  // ---------------------------------------------------------------------------
  // The step lists

  /** The five lists the walk emits, one entry per step. */
  datatype Inputs = Inputs(stackedHeads: seq<int>, children: seq<int>, siblings: seq<int>,
                           stackedTypes: seq<int>, skipConnect: seq<int>)

  predicate Parallel(r: Inputs) {
    |r.children| == |r.stackedHeads| && |r.siblings| == |r.stackedHeads| &&
    |r.stackedTypes| == |r.stackedHeads| && |r.skipConnect| == |r.stackedHeads|
  }

  /** The lists with one more step appended. */
  function Emit(r: Inputs, head: int, child: int, sibling: int, tag: int, skip: int): Inputs {
    Inputs(r.stackedHeads + [head], r.children + [child], r.siblings + [sibling],
           r.stackedTypes + [tag], r.skipConnect + [skip])
  }

  /** The 1-based position of the last occurrence of x in s, or 0 when x does not occur. */
  function LastVisit(s: seq<int>, x: int): (p: nat)
    ensures p <= |s|
  {
    if |s| == 0 then 0
    else if s[|s| - 1] == x then |s|
    else LastVisit(s[..|s| - 1], x)
  }

  /** LastVisit finds the last occurrence: x is at position p and nowhere after it. */
  lemma {:induction false} LastVisitSpec(s: seq<int>, x: int)
    ensures var p := LastVisit(s, x);
      (p > 0 ==> s[p - 1] == x) && forall k :: p <= k < |s| ==> s[k] != x
  {
    if |s| > 0 && s[|s| - 1] != x {
      LastVisitSpec(s[..|s| - 1], x);
    }
  }

  /** The sibling recorded for a head whose previous visit is at 1-based position p:
      the child taken at that visit, or 0 if there was none or it closed the head. */
  function SiblingAt(sh: seq<int>, ch: seq<int>, p: int): int
    requires 0 <= p <= |sh| == |ch|
  {
    if p == 0 || ch[p - 1] == sh[p - 1] then 0 else ch[p - 1]
  }

  /** Step t descends: it takes a real child of its head and carries the child's type. */
  predicate IsDescend(heads: seq<int>, types: seq<int>, r: Inputs, t: int)
    requires |types| == |heads| && Parallel(r) && 0 <= t < |r.stackedHeads|
  {
    1 <= r.children[t] < |heads| && heads[r.children[t]] == r.stackedHeads[t] &&
    r.stackedTypes[t] == types[r.children[t]]
  }

  /** Step t closes its head when it points at the head itself, and then carries the pad
      tag; otherwise it descends. */
  predicate StepKind(heads: seq<int>, types: seq<int>, padTag: int, r: Inputs, t: int)
    requires |types| == |heads| && Parallel(r) && 0 <= t < |r.stackedHeads|
  {
    if r.children[t] == r.stackedHeads[t] then r.stackedTypes[t] == padTag
    else IsDescend(heads, types, r, t)
  }

  /** Every step closes or descends. */
  predicate Moves(heads: seq<int>, types: seq<int>, padTag: int, r: Inputs)
    requires |types| == |heads|
  {
    Parallel(r) &&
    forall t :: 0 <= t < |r.stackedHeads| ==> StepKind(heads, types, padTag, r, t)
  }

  /** The step after t stands at the child step t took, or, when step t closed a head, at
      that head's parent, which is then the top of the stack. Only the root's close, which
      empties the stack, has no step after it. */
  predicate StepsOn(heads: seq<int>, r: Inputs, t: int)
    requires Parallel(r) && 0 <= t < |r.stackedHeads| - 1
  {
    if r.children[t] == r.stackedHeads[t] then
      1 <= r.stackedHeads[t] < |heads| && r.stackedHeads[t + 1] == heads[r.stackedHeads[t]]
    else r.stackedHeads[t + 1] == r.children[t]
  }

  /** Every step but the last leads on to the next one as the stack does. */
  predicate FollowsStack(heads: seq<int>, r: Inputs) {
    Parallel(r) && forall t :: 0 <= t < |r.stackedHeads| - 1 ==> StepsOn(heads, r, t)
  }

  /** The walk starts at the root and its last step closes the root. */
  predicate RootToRoot(padTag: int, r: Inputs) {
    Parallel(r) && |r.stackedHeads| >= 1 && r.stackedHeads[0] == 0 &&
    var last := |r.stackedHeads| - 1;
    r.stackedHeads[last] == 0 && r.children[last] == 0 && r.stackedTypes[last] == padTag
  }

  /** Each skip connection is the 1-based position of the same head's previous visit. */
  predicate SkipsToLastVisit(r: Inputs) {
    Parallel(r) &&
    forall t :: 0 <= t < |r.stackedHeads| ==>
      r.skipConnect[t] == LastVisit(r.stackedHeads[..t], r.stackedHeads[t])
  }

  /** Each sibling is the child the same head took at its previous visit. */
  predicate SiblingsFromLastVisit(r: Inputs) {
    SkipsToLastVisit(r) &&
    forall t :: 0 <= t < |r.stackedHeads| ==>
      r.siblings[t] == SiblingAt(r.stackedHeads, r.children, r.skipConnect[t])
  }

  /** The children head h takes, in the order it takes them. */
  function TakenBy(sh: seq<int>, ch: seq<int>, h: int): seq<int>
    requires |ch| == |sh|
  {
    if |sh| == 0 then []
    else TakenBy(sh[..|sh| - 1], ch[..|ch| - 1], h) +
         (if sh[|sh| - 1] == h && ch[|ch| - 1] != h then [ch[|ch| - 1]] else [])
  }

  /** The children head h takes in the first t steps. */
  function TakenBefore(r: Inputs, t: int, h: int): seq<int>
    requires Parallel(r) && 0 <= t <= |r.stackedHeads|
  {
    TakenBy(r.stackedHeads[..t], r.children[..t], h)
  }

  /** Step t takes the next child of its head's list, or closes the head once the list is
      used up: what the head has taken before is a prefix of its list. */
  predicate TakesNext(ids: seq<seq<int>>, r: Inputs, t: int)
    requires Parallel(r) && 0 <= t < |r.stackedHeads|
  {
    var h := r.stackedHeads[t];
    var taken := TakenBefore(r, t, h);
    0 <= h < |ids| && |taken| <= |ids[h]| && ids[h][..|taken|] == taken &&
    r.children[t] == if |taken| == |ids[h]| then h else ids[h][|taken|]
  }

  /** Every step takes the next child of its head, or closes the head. */
  predicate TakesInOrder(ids: seq<seq<int>>, r: Inputs) {
    Parallel(r) && forall t :: 0 <= t < |r.stackedHeads| ==> TakesNext(ids, r, t)
  }

  /** r is the walk of the child index ids: from the root back to the root, every step
      taking the next child of its head or closing it, moving on as the stack does, with
      the skip connections and siblings of the previous visits. */
  predicate Traces(heads: seq<int>, types: seq<int>, ids: seq<seq<int>>, padTag: int, r: Inputs)
    requires |types| == |heads|
  {
    RootToRoot(padTag, r) && Moves(heads, types, padTag, r) && FollowsStack(heads, r) &&
    TakesInOrder(ids, r) && SiblingsFromLastVisit(r)
  }

  /** The walk of a whole tree: 2n - 1 steps, and every head takes exactly its list. */
  predicate WalksTree(heads: seq<int>, ids: seq<seq<int>>, r: Inputs) {
    Parallel(r) && |ids| == |heads| && |r.stackedHeads| == 2 * |heads| - 1 &&
    forall h :: 0 <= h < |heads| ==> TakenBy(r.stackedHeads, r.children, h) == ids[h]
  }

  // ---------------------------------------------------------------------------
  // The walk

  /** The sum of the lengths of the lists. */
  function TotalLength(ls: seq<seq<int>>): nat {
    if ls == [] then 0 else |ls[0]| + TotalLength(ls[1..])
  }

  lemma {:induction false} TotalLengthPop(ls: seq<seq<int>>, i: int)
    requires 0 <= i < |ls| && |ls[i]| > 0
    ensures TotalLength(ls[i := ls[i][1..]]) == TotalLength(ls) - 1
  {
    if i > 0 {
      assert ls[i := ls[i][1..]][1..] == ls[1..][i - 1 := ls[i][1..]];
      TotalLengthPop(ls[1..], i - 1);
    }
  }

  lemma LastVisitAppend(s: seq<int>, x: int, y: int)
    ensures LastVisit(s + [x], y) == if y == x then |s| + 1 else LastVisit(s, y)
  {
    assert (s + [x])[..|s|] == s;
  }

  lemma TakenByAppend(sh: seq<int>, ch: seq<int>, x: int, c: int, h: int)
    requires |ch| == |sh|
    ensures TakenBy(sh + [x], ch + [c], h) == TakenBy(sh, ch, h) + (if x == h && c != h then [c] else [])
  {
    assert (sh + [x])[..|sh|] == sh;
    assert (ch + [c])[..|ch|] == ch;
  }

  /** The state of the walk other than the lists. The stack is a path down from the root:
      every node above the bottom sits on its head, and none sits on itself. */
  predicate Frame(heads: seq<int>, stack: seq<int>, cur: seq<seq<int>>, prev: seq<int>, sibs: seq<int>) {
    |cur| == |heads| && |prev| == |heads| && |sibs| == |heads| &&
    ChildOrder.ListsChildren(heads, cur) &&
    (forall i :: 0 <= i < |stack| ==> 0 <= stack[i] < |heads|) &&
    (forall i :: 1 <= i < |stack| ==>
      stack[i] != 0 && heads[stack[i]] == stack[i - 1] && stack[i] != stack[i - 1]) &&
    (|stack| > 0 ==> stack[0] == 0)
  }

  /** The top of the stack is where the last step leads. */
  predicate Continues(heads: seq<int>, stack: seq<int>, r: Inputs) {
    Parallel(r) &&
    (|r.stackedHeads| > 0 && |stack| > 0 ==>
      var t := |r.stackedHeads| - 1;
      if r.children[t] == r.stackedHeads[t] then
        1 <= r.stackedHeads[t] < |heads| && stack[|stack| - 1] == heads[r.stackedHeads[t]]
      else stack[|stack| - 1] == r.children[t])
  }

  /** How far the lists have come: empty at the start; started at the root; ended by
      closing the root once the stack is empty. */
  predicate Ends(padTag: int, stack: seq<int>, r: Inputs) {
    Parallel(r) &&
    (|r.stackedHeads| == 0 ==> stack == [0]) &&
    (|r.stackedHeads| > 0 ==> r.stackedHeads[0] == 0) &&
    (stack == [] ==> RootToRoot(padTag, r))
  }

  /** prev holds, for every node, the position of its last visit. */
  predicate PrevIsLastVisit(heads: seq<int>, prev: seq<int>, r: Inputs) {
    |prev| == |heads| && forall x :: 0 <= x < |heads| ==> prev[x] == LastVisit(r.stackedHeads, x)
  }

  /** sibs holds, for every node, the child taken at its last visit. */
  predicate SibsIsLastChild(heads: seq<int>, prev: seq<int>, sibs: seq<int>, r: Inputs)
    requires Parallel(r) && PrevIsLastVisit(heads, prev, r)
  {
    |sibs| == |heads| &&
    forall x :: 0 <= x < |heads| ==> sibs[x] == SiblingAt(r.stackedHeads, r.children, prev[x])
  }

  lemma EmitMoves(heads: seq<int>, types: seq<int>, padTag: int, r: Inputs,
                  head: int, child: int, sibling: int, tag: int, skip: int)
    requires |types| == |heads| && Moves(heads, types, padTag, r)
    requires if child == head then tag == padTag
             else 1 <= child < |heads| && heads[child] == head && tag == types[child]
    ensures Moves(heads, types, padTag, Emit(r, head, child, sibling, tag, skip))
  {
    var r' := Emit(r, head, child, sibling, tag, skip);
    forall t | 0 <= t < |r'.stackedHeads| ensures StepKind(heads, types, padTag, r', t) {
      if t < |r.stackedHeads| {
        assert StepKind(heads, types, padTag, r, t);
      }
    }
  }

  /** A step from the top of the stack follows on from the last one. */
  lemma EmitFollows(heads: seq<int>, stack: seq<int>, r: Inputs, child: int, sibling: int, tag: int, skip: int)
    requires FollowsStack(heads, r) && Continues(heads, stack, r) && |stack| > 0
    ensures FollowsStack(heads, Emit(r, stack[|stack| - 1], child, sibling, tag, skip))
  {
    var r' := Emit(r, stack[|stack| - 1], child, sibling, tag, skip);
    forall t | 0 <= t < |r'.stackedHeads| - 1 ensures StepsOn(heads, r', t) {
      if t < |r.stackedHeads| - 1 {
        assert StepsOn(heads, r, t);
      }
    }
  }

  /** A step that takes the first remaining child of its head, or closes a head with none
      left, takes the next child of the head's list. */
  lemma EmitTakes(heads: seq<int>, ids: seq<seq<int>>, cur: seq<seq<int>>, r: Inputs,
                  head: int, sibling: int, tag: int, skip: int)
    requires TakenSoFar(heads, ids, cur, r) && TakesInOrder(ids, r) && 0 <= head < |heads|
    ensures var child := if cur[head] == [] then head else cur[head][0];
      TakesInOrder(ids, Emit(r, head, child, sibling, tag, skip))
  {
    var child := if cur[head] == [] then head else cur[head][0];
    var r' := Emit(r, head, child, sibling, tag, skip);
    forall t | 0 <= t < |r'.stackedHeads| ensures TakesNext(ids, r', t) {
      assert r'.stackedHeads[..t] == r.stackedHeads[..t] && r'.children[..t] == r.children[..t];
      if t < |r.stackedHeads| {
        assert TakesNext(ids, r, t);
      } else {
        assert r.stackedHeads[..t] == r.stackedHeads && r.children[..t] == r.children;
        var taken := TakenBy(r.stackedHeads, r.children, head);
        assert ids[head] == taken + cur[head];
        assert ids[head][..|taken|] == taken;
      }
    }
  }

  lemma EmitSkips(heads: seq<int>, prev: seq<int>, r: Inputs,
                  head: int, child: int, sibling: int, tag: int)
    requires SkipsToLastVisit(r) && PrevIsLastVisit(heads, prev, r) && 0 <= head < |heads|
    ensures var r' := Emit(r, head, child, sibling, tag, prev[head]);
      SkipsToLastVisit(r') && PrevIsLastVisit(heads, prev[head := |r.stackedHeads| + 1], r')
  {
    var r' := Emit(r, head, child, sibling, tag, prev[head]);
    forall t | 0 <= t < |r'.stackedHeads|
      ensures r'.skipConnect[t] == LastVisit(r'.stackedHeads[..t], r'.stackedHeads[t])
    {
      if t < |r.stackedHeads| {
        assert r'.stackedHeads[..t] == r.stackedHeads[..t];
      } else {
        assert r'.stackedHeads[..t] == r.stackedHeads;
      }
    }
    forall x | 0 <= x < |heads|
      ensures prev[head := |r.stackedHeads| + 1][x] == LastVisit(r'.stackedHeads, x)
    {
      LastVisitAppend(r.stackedHeads, head, x);
    }
  }

  lemma EmitSiblings(heads: seq<int>, prev: seq<int>, sibs: seq<int>, r: Inputs,
                     head: int, child: int, tag: int)
    requires SiblingsFromLastVisit(r) && PrevIsLastVisit(heads, prev, r)
    requires SibsIsLastChild(heads, prev, sibs, r) && 0 <= head < |heads|
    ensures var r' := Emit(r, head, child, sibs[head], tag, prev[head]);
      var prev' := prev[head := |r.stackedHeads| + 1];
      SkipsToLastVisit(r') && PrevIsLastVisit(heads, prev', r') &&
      SiblingsFromLastVisit(r') &&
      SibsIsLastChild(heads, prev', sibs[head := if child == head then 0 else child], r')
  {
    var r' := Emit(r, head, child, sibs[head], tag, prev[head]);
    EmitSkips(heads, prev, r, head, child, sibs[head], tag);
    EmitSiblingList(heads, prev, sibs, r, head, child, tag, r');
    EmitSibs(heads, prev, sibs, r, head, child, tag, r');
  }

  lemma EmitSiblingList(heads: seq<int>, prev: seq<int>, sibs: seq<int>, r: Inputs, head: int,
                        child: int, tag: int, r': Inputs)
    requires SiblingsFromLastVisit(r) && PrevIsLastVisit(heads, prev, r)
    requires SibsIsLastChild(heads, prev, sibs, r) && 0 <= head < |heads|
    requires SkipsToLastVisit(r')
    requires r' == Emit(r, head, child, sibs[head], tag, prev[head])
    ensures SiblingsFromLastVisit(r')
  {
    forall t | 0 <= t < |r'.stackedHeads|
      ensures r'.siblings[t] == SiblingAt(r'.stackedHeads, r'.children, r'.skipConnect[t])
    {
      var p := r'.skipConnect[t];
      assert p <= |r.stackedHeads|;
      assert SiblingAt(r'.stackedHeads, r'.children, p) == SiblingAt(r.stackedHeads, r.children, p);
    }
  }

  lemma EmitSibs(heads: seq<int>, prev: seq<int>, sibs: seq<int>, r: Inputs, head: int, child: int,
                 tag: int, r': Inputs)
    requires Parallel(r) && PrevIsLastVisit(heads, prev, r)
    requires SibsIsLastChild(heads, prev, sibs, r) && 0 <= head < |heads|
    requires r' == Emit(r, head, child, sibs[head], tag, prev[head])
    requires PrevIsLastVisit(heads, prev[head := |r.stackedHeads| + 1], r')
    ensures SibsIsLastChild(heads, prev[head := |r.stackedHeads| + 1], sibs[head := if child == head then 0 else child], r')
  {
    var prev' := prev[head := |r.stackedHeads| + 1];
    var sibs' := sibs[head := if child == head then 0 else child];
    forall x | 0 <= x < |heads|
      ensures sibs'[x] == SiblingAt(r'.stackedHeads, r'.children, prev'[x])
    {
      if x != head {
        assert SiblingAt(r'.stackedHeads, r'.children, prev[x]) == SiblingAt(r.stackedHeads, r.children, prev[x]);
      }
    }
  }


  /** Each list is what its head has taken so far followed by what it has left. */
  predicate TakenSoFar(heads: seq<int>, ids: seq<seq<int>>, cur: seq<seq<int>>, r: Inputs) {
    Parallel(r) && |ids| == |heads| && |cur| == |heads| &&
    forall h :: 0 <= h < |heads| ==> ids[h] == TakenBy(r.stackedHeads, r.children, h) + cur[h]
  }

  /** The visited nodes are the root and the nodes their heads have taken. */
  ghost predicate VisitedAreTaken(heads: seq<int>, r: Inputs, visited: set<int>) {
    Parallel(r) &&
    (forall x :: x in visited ==> 0 <= x < |heads|) &&
    forall x :: 0 <= x < |heads| ==>
      (x in visited <==> x == 0 || x in TakenBy(r.stackedHeads, r.children, heads[x]))
  }

  /** The closed nodes were visited and have nothing left to take. */
  ghost predicate ClosedAreDone(heads: seq<int>, cur: seq<seq<int>>, visited: set<int>, closed: set<int>) {
    |cur| == |heads| && (forall x :: x in visited ==> 0 <= x < |heads|) &&
    closed <= visited && forall x :: x in closed ==> cur[x] == []
  }

  /** The stack holds, once each, the nodes visited and not closed. */
  ghost predicate StackIsOpen(stack: seq<int>, visited: set<int>, closed: set<int>) {
    (forall x :: x in stack <==> x in visited && x !in closed) && Distinct(stack)
  }

  /** The ghost record of a walk over a complete child index: which nodes have been
      pushed (visited) and popped (closed), and what each head has taken so far. Every
      step pushes a new node or pops one. */
  ghost predicate Tracking(heads: seq<int>, ids: seq<seq<int>>, stack: seq<int>, cur: seq<seq<int>>,
                           r: Inputs, visited: set<int>, closed: set<int>)
  {
    TakenSoFar(heads, ids, cur, r) && VisitedAreTaken(heads, r, visited) &&
    ClosedAreDone(heads, cur, visited, closed) && StackIsOpen(stack, visited, closed) &&
    |r.stackedHeads| + 1 == |visited| + |closed|
  }

  lemma DistinctParts(a: seq<int>, b: seq<int>, x: int)
    requires Distinct(a + b)
    ensures !(x in a && x in b)
  {
    forall i, j | 0 <= i < |a| && 0 <= j < |b| ensures a[i] != b[j] {
      assert (a + b)[i] == a[i] && (a + b)[|a| + j] == b[j];
    }
  }

  /** The child a head takes next has not been visited. */
  lemma NextChildIsFresh(heads: seq<int>, ids: seq<seq<int>>, cur: seq<seq<int>>, r: Inputs,
                         visited: set<int>, head: int)
    requires TakenSoFar(heads, ids, cur, r) && VisitedAreTaken(heads, r, visited)
    requires ChildOrder.ListsChildren(heads, cur)
    requires 0 <= head < |heads| && |cur[head]| > 0 && Distinct(ids[head])
    ensures cur[head][0] !in visited
  {
    var child := cur[head][0];
    assert 1 <= child < |heads| && heads[child] == head;
    assert child in cur[head];
    DistinctParts(TakenBy(r.stackedHeads, r.children, head), cur[head], child);
  }

  /** Taking a child moves it from the head's remaining list to its taken list. */
  lemma DescendTakes(heads: seq<int>, ids: seq<seq<int>>, cur: seq<seq<int>>, r: Inputs,
                     head: int, sibling: int, tag: int, skip: int, r': Inputs)
    requires TakenSoFar(heads, ids, cur, r) && 0 <= head < |heads| && |cur[head]| > 0
    requires cur[head][0] != head
    requires r' == Emit(r, head, cur[head][0], sibling, tag, skip)
    ensures TakenSoFar(heads, ids, cur[head := cur[head][1..]], r')
    ensures forall h :: 0 <= h < |heads| ==>
      TakenBy(r'.stackedHeads, r'.children, h) ==
      TakenBy(r.stackedHeads, r.children, h) + (if h == head then [cur[head][0]] else [])
  {
    var child := cur[head][0];
    var cur' := cur[head := cur[head][1..]];
    forall h | 0 <= h < |heads|
      ensures TakenBy(r'.stackedHeads, r'.children, h) ==
              TakenBy(r.stackedHeads, r.children, h) + (if h == head then [child] else [])
    {
      TakenByAppend(r.stackedHeads, r.children, head, child, h);
    }
    assert cur[head] == [child] + cur'[head];
    forall h | 0 <= h < |heads| ensures ids[h] == TakenBy(r'.stackedHeads, r'.children, h) + cur'[h] {
      if h == head {
        assert ids[h] == TakenBy(r.stackedHeads, r.children, h) + [child] + cur'[h];
      }
    }
  }

  lemma DescendVisits(heads: seq<int>, r: Inputs, visited: set<int>, head: int, child: int, r': Inputs)
    requires InRange(heads) && VisitedAreTaken(heads, r, visited) && Parallel(r')
    requires 1 <= child < |heads| && heads[child] == head
    requires forall h :: 0 <= h < |heads| ==>
      TakenBy(r'.stackedHeads, r'.children, h) ==
      TakenBy(r.stackedHeads, r.children, h) + (if h == head then [child] else [])
    ensures VisitedAreTaken(heads, r', visited + {child})
  {
    forall x | 0 <= x < |heads|
      ensures x in visited + {child} <==> x == 0 || x in TakenBy(r'.stackedHeads, r'.children, heads[x])
    {
      if x != 0 {
        var h := heads[x];
        assert TakenBy(r'.stackedHeads, r'.children, h) ==
               TakenBy(r.stackedHeads, r.children, h) + (if h == head then [child] else []);
      }
    }
  }

  lemma DescendKeepsTracking(heads: seq<int>, ids: seq<seq<int>>, stack: seq<int>, cur: seq<seq<int>>,
                             r: Inputs, visited: set<int>, closed: set<int>,
                             sibling: int, tag: int, skip: int)
    requires Rooted(heads) && ChildOrder.IsCompleteChildIndex(heads, ids)
    requires Tracking(heads, ids, stack, cur, r, visited, closed)
    requires ChildOrder.ListsChildren(heads, cur)
    requires |stack| > 0 && 0 <= stack[|stack| - 1] < |heads| && |cur[stack[|stack| - 1]]| > 0
    ensures var head := stack[|stack| - 1];
      var child := cur[head][0];
      Tracking(heads, ids, stack + [child], cur[head := cur[head][1..]],
               Emit(r, head, child, sibling, tag, skip), visited + {child}, closed)
  {
    var head := stack[|stack| - 1];
    var child := cur[head][0];
    var r' := Emit(r, head, child, sibling, tag, skip);
    var cur' := cur[head := cur[head][1..]];
    assert 1 <= child < |heads| && heads[child] == head;
    NoSelfLoop(heads, child);
    NextChildIsFresh(heads, ids, cur, r, visited, head);
    DescendTakes(heads, ids, cur, r, head, sibling, tag, skip, r');
    DescendVisits(heads, r, visited, head, child, r');
    assert head in stack;
    assert ClosedAreDone(heads, cur', visited + {child}, closed);
    PushKeepsOpen(stack, visited, closed, child);
    assert |visited + {child}| == |visited| + 1;
  }

  lemma CloseKeepsTracking(heads: seq<int>, ids: seq<seq<int>>, stack: seq<int>, cur: seq<seq<int>>,
                           r: Inputs, visited: set<int>, closed: set<int>,
                           sibling: int, tag: int, skip: int)
    requires InRange(heads) && Tracking(heads, ids, stack, cur, r, visited, closed)
    requires |stack| > 0 && 0 <= stack[|stack| - 1] < |heads| && cur[stack[|stack| - 1]] == []
    ensures var head := stack[|stack| - 1];
      Tracking(heads, ids, stack[..|stack| - 1], cur,
               Emit(r, head, head, sibling, tag, skip), visited, closed + {head})
  {
    var head := stack[|stack| - 1];
    var r' := Emit(r, head, head, sibling, tag, skip);
    CloseTakesNothing(heads, ids, cur, r, head, sibling, tag, skip, r');
    CloseVisits(heads, r, visited, r');
    PopKeepsOpen(stack, visited, closed);
    assert |closed + {head}| == |closed| + 1;
  }

  /** Popping the top node closes it. */
  lemma PopKeepsOpen(stack: seq<int>, visited: set<int>, closed: set<int>)
    requires |stack| > 0 && StackIsOpen(stack, visited, closed)
    ensures var head := stack[|stack| - 1];
      head in visited && head !in closed && StackIsOpen(stack[..|stack| - 1], visited, closed + {head})
  {
    var head := stack[|stack| - 1];
    var stack' := stack[..|stack| - 1];
    assert head in stack;
    assert stack == stack' + [head];
    forall x ensures x in stack' <==> x in visited && x !in closed + {head} {
      if x in stack' {
        var i :| 0 <= i < |stack'| && stack'[i] == x;
        assert stack[i] == x && stack[|stack| - 1] == head;
      }
    }
  }

  /** Pushing a fresh node opens it. */
  lemma PushKeepsOpen(stack: seq<int>, visited: set<int>, closed: set<int>, child: int)
    requires StackIsOpen(stack, visited, closed) && closed <= visited && child !in visited
    ensures StackIsOpen(stack + [child], visited + {child}, closed)
  {
    assert child !in stack;
    assert forall x :: x in stack + [child] <==> x in stack || x == child;
  }

  /** Closing a head takes nothing. */
  lemma CloseTakesNothing(heads: seq<int>, ids: seq<seq<int>>, cur: seq<seq<int>>, r: Inputs,
                          head: int, sibling: int, tag: int, skip: int, r': Inputs)
    requires TakenSoFar(heads, ids, cur, r)
    requires r' == Emit(r, head, head, sibling, tag, skip)
    ensures TakenSoFar(heads, ids, cur, r')
    ensures forall h :: 0 <= h < |heads| ==> TakenBy(r'.stackedHeads, r'.children, h) == TakenBy(r.stackedHeads, r.children, h)
  {
    forall h | 0 <= h < |heads|
      ensures TakenBy(r'.stackedHeads, r'.children, h) == TakenBy(r.stackedHeads, r.children, h)
    {
      TakenByAppend(r.stackedHeads, r.children, head, head, h);
    }
  }

  lemma CloseVisits(heads: seq<int>, r: Inputs, visited: set<int>, r': Inputs)
    requires InRange(heads) && VisitedAreTaken(heads, r, visited) && Parallel(r')
    requires forall h :: 0 <= h < |heads| ==> TakenBy(r'.stackedHeads, r'.children, h) == TakenBy(r.stackedHeads, r.children, h)
    ensures VisitedAreTaken(heads, r', visited)
  {
    forall x | 0 <= x < |heads|
      ensures x in visited <==> x == 0 || x in TakenBy(r'.stackedHeads, r'.children, heads[x])
    {
      if x != 0 {
        assert TakenBy(r'.stackedHeads, r'.children, heads[x]) == TakenBy(r.stackedHeads, r.children, heads[x]);
      }
    }
  }

  /** Once the stack is empty, every node has been visited and closed, and every head
      has taken its whole list. */
  lemma TrackingDone(heads: seq<int>, ids: seq<seq<int>>, cur: seq<seq<int>>,
                     r: Inputs, visited: set<int>, closed: set<int>)
    requires Rooted(heads) && ChildOrder.IsCompleteChildIndex(heads, ids)
    requires Tracking(heads, ids, [], cur, r, visited, closed)
    ensures WalksTree(heads, ids, r)
  {
    forall x | x in visited ensures x in closed {
      assert x !in [];
    }
    assert visited == closed;
    var unvisited := set x | 0 <= x < |heads| && x !in visited;
    forall y | y in unvisited ensures 1 <= y < |heads| && heads[y] in unvisited {
      assert y != 0;
      NoSelfLoop(heads, y);
    }
    ClosedUnderHeadsIsEmpty(heads, unvisited);
    assert visited == Range(0, |heads|) by {
      forall x | 0 <= x < |heads| ensures x in visited {
        assert x !in unvisited;
      }
    }
    RangeCard(0, |heads|);
    forall h | 0 <= h < |heads| ensures TakenBy(r.stackedHeads, r.children, h) == ids[h] {
      assert h in closed;
      assert ids[h] == TakenBy(r.stackedHeads, r.children, h) + [];
    }
  }

  /** Everything the walk keeps true from one step to the next. */
  ghost predicate Walking(heads: seq<int>, types: seq<int>, ids: seq<seq<int>>, padTag: int,
                          stack: seq<int>, cur: seq<seq<int>>, prev: seq<int>, sibs: seq<int>,
                          r: Inputs, visited: set<int>, closed: set<int>)
  {
    |types| == |heads| &&
    Frame(heads, stack, cur, prev, sibs) && Ends(padTag, stack, r) && Continues(heads, stack, r) &&
    Moves(heads, types, padTag, r) && FollowsStack(heads, r) &&
    TakenSoFar(heads, ids, cur, r) && TakesInOrder(ids, r) &&
    SiblingsFromLastVisit(r) && PrevIsLastVisit(heads, prev, r) && SibsIsLastChild(heads, prev, sibs, r) &&
    (Rooted(heads) && ChildOrder.IsCompleteChildIndex(heads, ids) ==>
      Tracking(heads, ids, stack, cur, r, visited, closed))
  }

  lemma WalkStart(heads: seq<int>, types: seq<int>, ids: seq<seq<int>>, padTag: int)
    requires |heads| >= 1 && |types| == |heads| && ChildOrder.ListsChildren(heads, ids)
    ensures Walking(heads, types, ids, padTag, [0], ids, seq(|heads|, _ => 0), seq(|heads|, _ => 0),
                    Inputs([], [], [], [], []), {0}, {})
  {
    var r := Inputs([], [], [], [], []);
    assert TakenSoFar(heads, ids, ids, r) by {
      forall h | 0 <= h < |heads| ensures ids[h] == TakenBy(r.stackedHeads, r.children, h) + ids[h] {
        assert TakenBy(r.stackedHeads, r.children, h) == [];
      }
    }
    if Rooted(heads) && ChildOrder.IsCompleteChildIndex(heads, ids) {
      assert VisitedAreTaken(heads, r, {0});
    }
  }

  /** A step that finds the top head's list empty records the close and pops it. */
  lemma CloseStep(heads: seq<int>, types: seq<int>, ids: seq<seq<int>>, padTag: int,
                  stack: seq<int>, cur: seq<seq<int>>, prev: seq<int>, sibs: seq<int>,
                  r: Inputs, visited: set<int>, closed: set<int>)
    requires Walking(heads, types, ids, padTag, stack, cur, prev, sibs, r, visited, closed)
    requires |stack| > 0 && cur[stack[|stack| - 1]] == []
    ensures var head := stack[|stack| - 1];
      Walking(heads, types, ids, padTag, stack[..|stack| - 1], cur,
              prev[head := |r.stackedHeads| + 1], sibs[head := 0],
              Emit(r, head, head, sibs[head], padTag, prev[head]), visited, closed + {head})
  {
    var head := stack[|stack| - 1];
    var r' := Emit(r, head, head, sibs[head], padTag, prev[head]);
    CloseEnds(heads, padTag, stack, cur, prev, sibs, r);
    EmitMoves(heads, types, padTag, r, head, head, sibs[head], padTag, prev[head]);
    EmitFollows(heads, stack, r, head, sibs[head], padTag, prev[head]);
    EmitTakes(heads, ids, cur, r, head, sibs[head], padTag, prev[head]);
    CloseTakesNothing(heads, ids, cur, r, head, sibs[head], padTag, prev[head], r');
    EmitSiblings(heads, prev, sibs, r, head, head, padTag);
    if Rooted(heads) && ChildOrder.IsCompleteChildIndex(heads, ids) {
      CloseKeepsTracking(heads, ids, stack, cur, r, visited, closed, sibs[head], padTag, prev[head]);
    }
  }

  lemma CloseEnds(heads: seq<int>, padTag: int, stack: seq<int>, cur: seq<seq<int>>,
                  prev: seq<int>, sibs: seq<int>, r: Inputs)
    requires Frame(heads, stack, cur, prev, sibs) && Ends(padTag, stack, r) && |stack| > 0
    ensures var head := stack[|stack| - 1];
      var r' := Emit(r, head, head, sibs[head], padTag, prev[head]);
      Frame(heads, stack[..|stack| - 1], cur, prev[head := |r.stackedHeads| + 1], sibs[head := 0]) &&
      Ends(padTag, stack[..|stack| - 1], r') && Continues(heads, stack[..|stack| - 1], r')
  {
    var head := stack[|stack| - 1];
    var r' := Emit(r, head, head, sibs[head], padTag, prev[head]);
    if |stack| == 1 {
      assert head == 0;
      assert RootToRoot(padTag, r');
    } else {
      assert 1 <= head < |heads| && heads[head] == stack[|stack| - 2];
    }
  }

  lemma DescendEnds(heads: seq<int>, padTag: int, stack: seq<int>, cur: seq<seq<int>>,
                    prev: seq<int>, sibs: seq<int>, r: Inputs)
    requires Frame(heads, stack, cur, prev, sibs) && Ends(padTag, stack, r)
    requires |stack| > 0 && |cur[stack[|stack| - 1]]| > 0
    ensures var head := stack[|stack| - 1];
      var child := cur[head][0];
      1 <= child < |heads| && heads[child] == head && child != head &&
      Frame(heads, stack + [child], cur[head := cur[head][1..]], prev[head := |r.stackedHeads| + 1], sibs[head := child]) &&
      forall sibling, tag, skip ::
        Ends(padTag, stack + [child], Emit(r, head, child, sibling, tag, skip)) &&
        Continues(heads, stack + [child], Emit(r, head, child, sibling, tag, skip))
  {
    var head := stack[|stack| - 1];
    var child := cur[head][0];
    assert 1 <= child < |heads| && heads[child] == head;
    if |stack| > 1 {
      assert heads[head] == stack[|stack| - 2] && head != stack[|stack| - 2];
    }
    assert child != head;
    var cur' := cur[head := cur[head][1..]];
    forall h, i | 0 <= h < |cur'| && 0 <= i < |cur'[h]| ensures 1 <= cur'[h][i] < |heads| && heads[cur'[h][i]] == h {
      if h == head {
        assert cur'[h][i] == cur[h][i + 1];
      }
    }
  }

  /** A step that finds children left pops the first one, records it and pushes it. */
  lemma DescendStep(heads: seq<int>, types: seq<int>, ids: seq<seq<int>>, padTag: int,
                    stack: seq<int>, cur: seq<seq<int>>, prev: seq<int>, sibs: seq<int>,
                    r: Inputs, visited: set<int>, closed: set<int>)
    requires Walking(heads, types, ids, padTag, stack, cur, prev, sibs, r, visited, closed)
    requires |stack| > 0 && |cur[stack[|stack| - 1]]| > 0
    ensures var head := stack[|stack| - 1];
      var child := cur[head][0];
      1 <= child < |heads| &&
      Walking(heads, types, ids, padTag, stack + [child], cur[head := cur[head][1..]],
              prev[head := |r.stackedHeads| + 1], sibs[head := child],
              Emit(r, head, child, sibs[head], types[child], prev[head]), visited + {child}, closed)
  {
    var head := stack[|stack| - 1];
    var child := cur[head][0];
    var r' := Emit(r, head, child, sibs[head], types[child], prev[head]);
    DescendEnds(heads, padTag, stack, cur, prev, sibs, r);
    EmitMoves(heads, types, padTag, r, head, child, sibs[head], types[child], prev[head]);
    EmitFollows(heads, stack, r, child, sibs[head], types[child], prev[head]);
    EmitTakes(heads, ids, cur, r, head, sibs[head], types[child], prev[head]);
    DescendTakes(heads, ids, cur, r, head, sibs[head], types[child], prev[head], r');
    EmitSiblings(heads, prev, sibs, r, head, child, types[child]);
    if Rooted(heads) && ChildOrder.IsCompleteChildIndex(heads, ids) {
      DescendKeepsTracking(heads, ids, stack, cur, r, visited, closed, sibs[head], types[child], prev[head]);
    }
  }

  /** _generate_stack_inputs after the dispatch: walk the tree from the root with an
      explicit stack, consuming each head's list front to back. */
  method StackTrace(heads: seq<int>, types: seq<int>, childIds: seq<seq<int>>, padTag: int)
    returns (r: Inputs)
    requires |heads| >= 1 && |types| == |heads| && ChildOrder.ListsChildren(heads, childIds)
    ensures RootToRoot(padTag, r) && Moves(heads, types, padTag, r)
    ensures FollowsStack(heads, r) && TakesInOrder(childIds, r)
    ensures SiblingsFromLastVisit(r)
    ensures Rooted(heads) && ChildOrder.IsCompleteChildIndex(heads, childIds) ==> WalksTree(heads, childIds, r)
  {
    r := Inputs([], [], [], [], []);
    var cur := childIds;
    var prev := seq(|heads|, _ => 0);
    var sibs := seq(|heads|, _ => 0);
    var stack := [0];
    var position := 1;
    ghost var visited: set<int> := {0};
    ghost var closed: set<int> := {};
    WalkStart(heads, types, childIds, padTag);
    while |stack| > 0
      invariant Walking(heads, types, childIds, padTag, stack, cur, prev, sibs, r, visited, closed)
      invariant position == |r.stackedHeads| + 1
      decreases 2 * TotalLength(cur) + |stack|
    {
      var head := stack[|stack| - 1];
      var sibling := sibs[head];
      var skip := prev[head];
      if |cur[head]| == 0 {
        CloseStep(heads, types, childIds, padTag, stack, cur, prev, sibs, r, visited, closed);
        prev := prev[head := position];
        r := Emit(r, head, head, sibling, padTag, skip);
        sibs := sibs[head := 0];
        stack := stack[..|stack| - 1];
        closed := closed + {head};
      } else {
        DescendStep(heads, types, childIds, padTag, stack, cur, prev, sibs, r, visited, closed);
        TotalLengthPop(cur, head);
        var child := cur[head][0];
        cur := cur[head := cur[head][1..]];
        prev := prev[head := position];
        r := Emit(r, head, child, sibling, types[child], skip);
        sibs := sibs[head := child];
        stack := stack + [child];
        visited := visited + {child};
      }
      position := position + 1;
    }
    WalkDone(heads, types, childIds, padTag, cur, prev, sibs, r, visited, closed);
  }

  /** With the stack empty, the walk has produced everything StackTrace promises. */
  lemma WalkDone(heads: seq<int>, types: seq<int>, ids: seq<seq<int>>, padTag: int,
                 cur: seq<seq<int>>, prev: seq<int>, sibs: seq<int>,
                 r: Inputs, visited: set<int>, closed: set<int>)
    requires Walking(heads, types, ids, padTag, [], cur, prev, sibs, r, visited, closed)
    ensures Traces(heads, types, ids, padTag, r)
    ensures Rooted(heads) && ChildOrder.IsCompleteChildIndex(heads, ids) ==> WalksTree(heads, ids, r)
  {
    if Rooted(heads) && ChildOrder.IsCompleteChildIndex(heads, ids) {
      TrackingDone(heads, ids, cur, r, visited, closed);
    }
  }

  // ---------------------------------------------------------------------------
  // The walk is determined by the child index

  /** What a head has taken grows by the child of each step that descends from it. */
  lemma TakenBeforeStep(r: Inputs, t: int, h: int)
    requires Parallel(r) && 0 <= t < |r.stackedHeads|
    ensures TakenBefore(r, t + 1, h) ==
      TakenBefore(r, t, h) + (if r.stackedHeads[t] == h && r.children[t] != h then [r.children[t]] else [])
  {
    assert r.stackedHeads[..t + 1] == r.stackedHeads[..t] + [r.stackedHeads[t]];
    assert r.children[..t + 1] == r.children[..t] + [r.children[t]];
    TakenByAppend(r.stackedHeads[..t], r.children[..t], r.stackedHeads[t], r.children[t], h);
  }

  /** r walks ids from the root, step after step as the stack does. */
  predicate Steps(heads: seq<int>, ids: seq<seq<int>>, r: Inputs) {
    Parallel(r) && |r.stackedHeads| >= 1 && r.stackedHeads[0] == 0 &&
    FollowsStack(heads, r) && TakesInOrder(ids, r)
  }

  /** Two walks that agree on their first s steps agree on step s too. */
  lemma SameNextStep(heads: seq<int>, ids: seq<seq<int>>, r1: Inputs, r2: Inputs, s: nat)
    requires Steps(heads, ids, r1) && Steps(heads, ids, r2)
    requires s < |r1.stackedHeads| && s < |r2.stackedHeads|
    requires r1.stackedHeads[..s] == r2.stackedHeads[..s] && r1.children[..s] == r2.children[..s]
    ensures r1.stackedHeads[..s + 1] == r2.stackedHeads[..s + 1] && r1.children[..s + 1] == r2.children[..s + 1]
  {
    if s > 0 {
      assert r1.stackedHeads[s - 1] == r1.stackedHeads[..s][s - 1] == r2.stackedHeads[s - 1];
      assert r1.children[s - 1] == r1.children[..s][s - 1] == r2.children[s - 1];
      assert StepsOn(heads, r1, s - 1) && StepsOn(heads, r2, s - 1);
    }
    assert TakenBefore(r1, s, r1.stackedHeads[s]) == TakenBefore(r2, s, r2.stackedHeads[s]);
    assert TakesNext(ids, r1, s) && TakesNext(ids, r2, s);
    assert r1.stackedHeads[..s + 1] == r1.stackedHeads[..s] + [r1.stackedHeads[s]];
    assert r2.stackedHeads[..s + 1] == r2.stackedHeads[..s] + [r2.stackedHeads[s]];
    assert r1.children[..s + 1] == r1.children[..s] + [r1.children[s]];
    assert r2.children[..s + 1] == r2.children[..s] + [r2.children[s]];
  }

  /** Two walks of the same child index agree step by step as far as both go. */
  lemma {:induction false} SameSteps(heads: seq<int>, ids: seq<seq<int>>, r1: Inputs, r2: Inputs, t: nat)
    requires Steps(heads, ids, r1) && Steps(heads, ids, r2)
    requires t <= |r1.stackedHeads| && t <= |r2.stackedHeads|
    ensures r1.stackedHeads[..t] == r2.stackedHeads[..t] && r1.children[..t] == r2.children[..t]
  {
    if t > 0 {
      SameSteps(heads, ids, r1, r2, t - 1);
      SameNextStep(heads, ids, r1, r2, t - 1);
    }
  }

  /** Closing the root is the last step of a walk. */
  lemma RootCloseIsLast(heads: seq<int>, r: Inputs, t: int)
    requires FollowsStack(heads, r) && 0 <= t < |r.stackedHeads|
    ensures r.stackedHeads[t] == 0 && r.children[t] == 0 ==> t == |r.stackedHeads| - 1
  {
    if t < |r.stackedHeads| - 1 {
      assert StepsOn(heads, r, t);
    }
  }

  /** A walk that ends by closing the root is at least as long as any other walk of the
      same index: where it closes the root, so does the other, and that is the other's last step. */
  lemma NoLongerWalk(heads: seq<int>, ids: seq<seq<int>>, r1: Inputs, r2: Inputs)
    requires Steps(heads, ids, r1) && Steps(heads, ids, r2)
    requires r1.stackedHeads[|r1.stackedHeads| - 1] == 0 && r1.children[|r1.stackedHeads| - 1] == 0
    ensures |r2.stackedHeads| <= |r1.stackedHeads|
  {
    var n := if |r1.stackedHeads| <= |r2.stackedHeads| then |r1.stackedHeads| else |r2.stackedHeads|;
    SameSteps(heads, ids, r1, r2, n);
    assert r1.stackedHeads[n - 1] == r1.stackedHeads[..n][n - 1] == r2.stackedHeads[n - 1];
    assert r1.children[n - 1] == r1.children[..n][n - 1] == r2.children[n - 1];
    RootCloseIsLast(heads, r2, n - 1);
  }

  /** A child index has exactly one walk: two step lists that both walk ids are equal. */
  lemma TraceIsUnique(heads: seq<int>, types: seq<int>, ids: seq<seq<int>>, padTag: int, r1: Inputs, r2: Inputs)
    requires |types| == |heads|
    requires Traces(heads, types, ids, padTag, r1) && Traces(heads, types, ids, padTag, r2)
    ensures r1 == r2
  {
    assert Steps(heads, ids, r1) && Steps(heads, ids, r2);
    NoLongerWalk(heads, ids, r1, r2);
    NoLongerWalk(heads, ids, r2, r1);
    var n := |r1.stackedHeads|;
    SameSteps(heads, ids, r1, r2, n);
    assert r1.stackedHeads == r1.stackedHeads[..n] && r2.stackedHeads == r2.stackedHeads[..n];
    assert r1.children == r1.children[..n] && r2.children == r2.children[..n];
    forall t | 0 <= t < n
      ensures r1.stackedTypes[t] == r2.stackedTypes[t] && r1.skipConnect[t] == r2.skipConnect[t]
    {
      assert StepKind(heads, types, padTag, r1, t) && StepKind(heads, types, padTag, r2, t);
    }
    assert r1.stackedTypes == r2.stackedTypes && r1.skipConnect == r2.skipConnect;
    forall t | 0 <= t < n ensures r1.siblings[t] == r2.siblings[t] {
    }
    assert r1.siblings == r2.siblings;
  }

  // ---------------------------------------------------------------------------
  // The generator

  /** r is what the generator produces for the tree under order o: the walk of the order's
      child index, and in a rooted tree one that takes every child once in 2n - 1 steps. */
  predicate Generated(heads: seq<int>, types: seq<int>, o: PriorOrder, padTag: int, r: Inputs)
    requires InRange(heads) && |types| == |heads|
    requires NeedsTree(o) ==> Rooted(heads)
  {
    Traces(heads, types, OrderedIndex(heads, o), padTag, r) &&
    (Rooted(heads) ==> WalksTree(heads, OrderedIndex(heads, o), r))
  }

  /** The generator's step lists are determined by the sentence and the order. */
  lemma GeneratedIsUnique(heads: seq<int>, types: seq<int>, o: PriorOrder, padTag: int, r1: Inputs, r2: Inputs)
    requires InRange(heads) && |types| == |heads| && (NeedsTree(o) ==> Rooted(heads))
    requires Generated(heads, types, o, padTag, r1) && Generated(heads, types, o, padTag, r2)
    ensures r1 == r2
  {
    TraceIsUnique(heads, types, OrderedIndex(heads, o), padTag, r1, r2);
  }

  /** The left-to-right child index of heads [0, 0, 1, 1]. */
  lemma ExampleIndex()
    ensures OrderedIndex([0, 0, 1, 1], LeftToRight) == [[1], [2, 3], [], []]
  {
    var heads := [0, 0, 1, 1];
    assert ChildrenIn(heads, 0, 1, 4) == [1];
    assert ChildrenIn(heads, 1, 1, 4) == [2, 3];
    assert ChildrenIn(heads, 2, 1, 4) == [];
    assert ChildrenIn(heads, 3, 1, 4) == [];
  }

  /** Heads [0, 0, 1, 1] form one tree. */
  lemma ExampleRooted()
    ensures Rooted([0, 0, 1, 1])
  {
    var heads := [0, 0, 1, 1];
    assert ReachesRoot(heads, 1, 4) && ReachesRoot(heads, 2, 4) && ReachesRoot(heads, 3, 4);
  }

  /** The left-to-right walk of heads [0, 0, 1, 1], where node 1 hangs under the root and
      nodes 2 and 3 under node 1: down to 1, down to 2, back to 1, down to 3, back to 1,
      back to the root, and the root's close. */
  lemma LeftToRightExample(types: seq<int>, padTag: int, r: Inputs)
    requires |types| == 4 && Generated([0, 0, 1, 1], types, LeftToRight, padTag, r)
    ensures r.stackedHeads == [0, 1, 2, 1, 3, 1, 0]
    ensures r.children == [1, 2, 2, 3, 3, 1, 0]
    ensures r.siblings == [0, 0, 0, 2, 0, 3, 1]
    ensures r.stackedTypes == [types[1], types[2], padTag, types[3], padTag, padTag, padTag]
    ensures r.skipConnect == [0, 0, 0, 2, 0, 4, 1]
  {
    ExampleIndex();
    ExampleRooted();
    assert Steps([0, 0, 1, 1], [[1], [2, 3], [], []], r);
    ExampleSteps(r);
    ExampleSkips(r);
    ExampleSiblings(r);
    ExampleTypes(types, padTag, r);
  }

  /** The skip connections of that walk: the previous visits of heads 1, 1 and 0. */
  lemma ExampleSkips(r: Inputs)
    requires SkipsToLastVisit(r)
    requires r.stackedHeads == [0, 1, 2, 1, 3, 1, 0]
    ensures r.skipConnect == [0, 0, 0, 2, 0, 4, 1]
  {
    var sh := r.stackedHeads;
    assert sh[..3] == [0, 1, 2] && sh[..5] == [0, 1, 2, 1, 3] && sh[..6] == [0, 1, 2, 1, 3, 1];
    assert LastVisit(sh[..1], 1) == 0 && LastVisit(sh[..2], 2) == 0;
    assert LastVisit(sh[..3], 1) == 2;
    // The prefixes LastVisit steps back through.
    assert [0, 1, 2, 1, 3, 1][..5] == [0, 1, 2, 1, 3];
    assert [0, 1, 2, 1, 3][..4] == [0, 1, 2, 1];
    assert [0, 1, 2, 1][..3] == [0, 1, 2];
    assert [0, 1, 2][..2] == [0, 1];
    assert [0, 1][..1] == [0];
    assert sh[..4] == [0, 1, 2, 1];
    assert LastVisit([0, 1, 2, 1], 3) == 0;
    assert LastVisit(sh[..5], 1) == 4;
    assert LastVisit(sh[..6], 0) == 1;
  }

  /** The siblings of that walk: the children taken at those previous visits. */
  lemma ExampleSiblings(r: Inputs)
    requires SiblingsFromLastVisit(r)
    requires r.stackedHeads == [0, 1, 2, 1, 3, 1, 0] && r.children == [1, 2, 2, 3, 3, 1, 0]
    requires r.skipConnect == [0, 0, 0, 2, 0, 4, 1]
    ensures r.siblings == [0, 0, 0, 2, 0, 3, 1]
  {
  }

  /** The stacked types of that walk: a child's type on each descent, the pad tag on each close. */
  lemma ExampleTypes(types: seq<int>, padTag: int, r: Inputs)
    requires |types| == 4 && Moves([0, 0, 1, 1], types, padTag, r)
    requires r.stackedHeads == [0, 1, 2, 1, 3, 1, 0] && r.children == [1, 2, 2, 3, 3, 1, 0]
    ensures r.stackedTypes == [types[1], types[2], padTag, types[3], padTag, padTag, padTag]
  {
    var heads := [0, 0, 1, 1];
    assert StepKind(heads, types, padTag, r, 0) && StepKind(heads, types, padTag, r, 1);
    assert StepKind(heads, types, padTag, r, 2) && StepKind(heads, types, padTag, r, 3);
    assert StepKind(heads, types, padTag, r, 4) && StepKind(heads, types, padTag, r, 5);
    assert StepKind(heads, types, padTag, r, 6);
  }

  /** Any walk of that index with seven steps, ending at the root, is the one above. */
  lemma ExampleSteps(r: Inputs)
    requires Steps([0, 0, 1, 1], [[1], [2, 3], [], []], r) && |r.stackedHeads| == 7
    requires r.children[6] == 0
    ensures r.stackedHeads == [0, 1, 2, 1, 3, 1, 0]
    ensures r.children == [1, 2, 2, 3, 3, 1, 0]
  {
    ExampleFirstSteps(r);
    ExampleLastSteps(r);
  }

  /** The first three steps of that walk: down to 1, down to 2, and node 2 closes. */
  lemma ExampleFirstSteps(r: Inputs)
    requires Steps([0, 0, 1, 1], [[1], [2, 3], [], []], r) && |r.stackedHeads| == 7
    ensures r.children[0] == 1 && r.children[1] == 2 && r.children[2] == 2
    ensures r.stackedHeads[1] == 1 && r.stackedHeads[2] == 2 && r.stackedHeads[3] == 1
  {
    var heads := [0, 0, 1, 1];
    var ids := [[1], [2, 3], [], []];
    var sh, ch := r.stackedHeads, r.children;
    assert TakesNext(ids, r, 0) && StepsOn(heads, r, 0);
    assert ch[0] == 1 && sh[1] == 1;
    TakenBeforeStep(r, 0, 1);
    assert TakesNext(ids, r, 1) && StepsOn(heads, r, 1);
    assert ch[1] == 2 && sh[2] == 2;
    TakenBeforeStep(r, 0, 2);
    TakenBeforeStep(r, 1, 2);
    assert TakesNext(ids, r, 2) && StepsOn(heads, r, 2);
  }

  /** The last four steps: down to 3, node 3 closes, node 1 closes, the root closes. */
  lemma ExampleLastSteps(r: Inputs)
    requires Steps([0, 0, 1, 1], [[1], [2, 3], [], []], r) && |r.stackedHeads| == 7
    requires r.children[6] == 0
    requires r.children[0] == 1 && r.children[1] == 2 && r.children[2] == 2
    requires r.stackedHeads[1] == 1 && r.stackedHeads[2] == 2 && r.stackedHeads[3] == 1
    ensures r.stackedHeads == [0, 1, 2, 1, 3, 1, 0]
    ensures r.children == [1, 2, 2, 3, 3, 1, 0]
  {
    var heads := [0, 0, 1, 1];
    var ids := [[1], [2, 3], [], []];
    var sh, ch := r.stackedHeads, r.children;
    TakenBeforeStep(r, 0, 1);
    TakenBeforeStep(r, 1, 1);
    TakenBeforeStep(r, 2, 1);
    assert TakenBefore(r, 3, 1) == [2];
    assert TakesNext(ids, r, 3) && StepsOn(heads, r, 3);
    assert ch[3] == 3 && sh[4] == 3;
    TakenBeforeStep(r, 0, 3);
    TakenBeforeStep(r, 1, 3);
    TakenBeforeStep(r, 2, 3);
    TakenBeforeStep(r, 3, 3);
    assert TakesNext(ids, r, 4) && StepsOn(heads, r, 4);
    assert ch[4] == 3 && sh[5] == 1;
    TakenBeforeStep(r, 3, 1);
    TakenBeforeStep(r, 4, 1);
    assert TakenBefore(r, 5, 1) == [2, 3];
    assert TakesNext(ids, r, 5) && StepsOn(heads, r, 5);
    assert ch[5] == 1 && sh[6] == 0;
  }

  /** Builds the five decoder step lists of one sentence: reads the prior order, builds
      the child index it names and walks it. An unknown order name is an error. */
  method GenerateStackInputs(heads: seq<int>, types: seq<int>, priorOrder: string, padTag: int)
    returns (res: Result<Inputs, string>)
    requires |heads| >= 1 && InRange(heads) && |types| == |heads|
    requires ParseOrder(priorOrder).Some? && NeedsTree(ParseOrder(priorOrder).value) ==> Rooted(heads)
    ensures res.Failure? <==> ParseOrder(priorOrder).None?
    ensures res.Failure? ==> res.error == "Unknown prior order: " + priorOrder
    ensures res.Success? ==> Generated(heads, types, ParseOrder(priorOrder).value, padTag, res.value)
  {
    var order := ParseOrder(priorOrder);
    if order.None? {
      return Failure("Unknown prior order: " + priorOrder);
    }
    var childIds := ObtainChildIndex(heads, order.value);
    assert childIds == OrderedIndex(heads, order.value);
    OrderedIndexListsChildren(heads, order.value);
    if Rooted(heads) {
      OrderedIndexIsComplete(heads, order.value);
    }
    var r := StackTrace(heads, types, childIds, padTag);
    return Success(r);
  }
}
