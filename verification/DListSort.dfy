/** SortList: a merge sort that relinks the nodes of a list in place. */
module DListSort {
  import opened DList
  import opened MergeSort

  /** A comparison callback; the first argument counts the calls made so far, so that it may answer as it pleases. */
  type Compare<!T> = (nat, T, Tag, T, Tag) -> Comparison

  function Answer<T>(compare: Compare<T>, calls: nat, x: T, s: Tag, y: T, t: Tag): Comparison {
    compare(calls, x, s, y, t)
  }

  /** ask is what the callback answers about the items of these nodes, named by their positions. */
  ghost predicate Asks<T>(compare: Compare<T>, nodes: seq<LinkNode<T>>, ask: Ask)
    reads nodes`data, nodes`tag
  {
    forall k: nat, i: nat, j: nat | i < |nodes| && j < |nodes| ::
      ask(k, i, j) == Answer(compare, k, nodes[i].data, nodes[i].tag, nodes[j].data, nodes[j].tag)
  }

  /** Position i of the list holds the node that stood at position perm[i] before. */
  ghost predicate Rearranged<A>(before: seq<A>, perm: seq<nat>, after: seq<A>) {
    && |perm| == |before| == |after|
    && Within(perm, 0, |before|)
    && forall i :: 0 <= i < |after| ==> after[i] == before[perm[i]]
  }

  function MoveSource(k: nat, i: nat, j: nat): nat {
    if k == i then j else if i < k <= j then k - 1 else k
  }

  /** The element at position j moves to position i <= j, and those in between make room. */
  function Moved<A>(s: seq<A>, i: nat, j: nat): (t: seq<A>)
    requires i <= j < |s|
    ensures |t| == |s|
  {
    seq(|s|, k requires 0 <= k < |s| => s[MoveSource(k, i, j)])
  }

  function CursorAfterMove(cursor: int, i: nat, j: nat): int {
    if cursor == j then i else if i <= cursor < j then cursor + 1 else cursor
  }

  lemma MovedIsRemovedAndInserted<A>(s: seq<A>, i: nat, j: nat)
    requires i <= j < |s|
    ensures Moved(s, i, j) == InsertAt(RemoveAt(s, j), i, s[j])
  {
  }

  /** Take nodeToMove, at position j, out of the chain. */
  method CutOut<T(==)>(list: ControlNode<T>, ghost j: nat, nodeToMove: LinkNode<T>, mergeList2: LinkNode?<T>)
    requires list.Valid() && 0 < j < |list.nodes|
    requires nodeToMove == list.nodes[j] && mergeList2 == At(list.nodes, j + 1)
    modifies list`endOfList, list.nodes`next, list.nodes`prev
    ensures Chained(RemoveAt(list.nodes, j)) && Distinct(RemoveAt(list.nodes, j))
    ensures list.endOfList == if j == |list.nodes| - 1 then list.nodes[j - 1] else old(list.endOfList)
  {
    if nodeToMove == list.endOfList {
      list.endOfList := nodeToMove.prev;
    }
    if nodeToMove.prev != null {
      nodeToMove.prev.next := mergeList2;
      if mergeList2 != null {
        mergeList2.prev := nodeToMove.prev;
      }
    }
    ChainedRemove(list.nodes, j);
  }

  /** Put nodeToMove in front of mergeList1, which stands at position i of the chain s. */
  method PutBefore<T(==)>(ghost s: seq<LinkNode<T>>, ghost i: nat, nodeToMove: LinkNode<T>, mergeList1: LinkNode<T>)
    requires i < |s| && mergeList1 == s[i] && Chained(s) && Distinct(s) && nodeToMove !in s
    modifies s`next, s`prev, nodeToMove`next, nodeToMove`prev
    ensures Chained(InsertAt(s, i, nodeToMove)) && Distinct(InsertAt(s, i, nodeToMove))
  {
    if mergeList1.prev != null {
      mergeList1.prev.next := nodeToMove;
    }
    nodeToMove.prev := mergeList1.prev;
    nodeToMove.next := mergeList1;
    mergeList1.prev := nodeToMove;
    ChainedInsert(s, i, nodeToMove);
  }

  ghost method RecordMove<T>(list: ControlNode<T>, i: nat, j: nat)
    requires i < j < |list.nodes| == list.itemCount <= MAX_COUNT
    requires list.startOfList == list.nodes[if i == 0 then j else 0]
    requires list.endOfList == list.nodes[if j == |list.nodes| - 1 then j - 1 else |list.nodes| - 1]
    requires 0 <= list.cursor < |list.nodes| && list.currentItem == list.nodes[list.cursor]
    requires forall k {:trigger list.nodes[k].owner} :: 0 <= k < |list.nodes| ==> list.nodes[k].owner == list
    requires Chained(Moved(list.nodes, i, j)) && Distinct(Moved(list.nodes, i, j))
    modifies list`nodes, list`cursor
    ensures list.Valid() && list.nodes == Moved(old(list.nodes), i, j)
  {
    list.nodes, list.cursor := Moved(list.nodes, i, j), CursorAfterMove(list.cursor, i, j);
  }

  lemma OnlyThere<T>(list: ControlNode<T>, i: nat, j: nat)
    requires list.Valid() && i < j < |list.nodes|
    ensures list.nodes[j] !in RemoveAt(list.nodes, j) && list.nodes[j].next == At(list.nodes, j + 1)
    ensures RemoveAt(list.nodes, j)[i] == list.nodes[i] && (list.nodes[i] == list.startOfList <==> i == 0)
  {
  }

  /** Object 2 is smaller: its node moves from position j to position i, in front of object 1. */
  method MoveInFront<T(==)>(list: ControlNode<T>, ghost i: nat, ghost j: nat, mergeList1: LinkNode<T>,
                            nodeToMove: LinkNode<T>)
    returns (mergeList2: LinkNode?<T>)
    requires list.Valid() && i < j < |list.nodes| && mergeList1 == list.nodes[i] && nodeToMove == list.nodes[j]
    modifies list, list.nodes`next, list.nodes`prev
    ensures list.Valid() && list.nodes == Moved(old(list.nodes), i, j)
    ensures list.itemCount == old(list.itemCount) && list.currentItem == old(list.currentItem)
    ensures mergeList2 == At(list.nodes, j + 1)
  {
    hide Chained, Distinct;
    OnlyThere(list, i, j);
    mergeList2 := nodeToMove.next;
    CutOut(list, j, nodeToMove, mergeList2);
    PutBefore(RemoveAt(list.nodes, j), i, nodeToMove, mergeList1);
    MovedIsRemovedAndInserted(list.nodes, i, j);
    if mergeList1 == list.startOfList {
      list.startOfList := nodeToMove;
    }
    RecordMove(list, i, j);
  }

  /** Walk count nodes ahead, or off the end of the list. */
  method Advance<T(==)>(list: ControlNode<T>, start: LinkNode?<T>, count: nat, ghost p: nat) returns (node: LinkNode?<T>)
    requires list.Valid() && p <= |list.nodes| && start == At(list.nodes, p)
    ensures node == At(list.nodes, Min(p + count, |list.nodes|))
  {
    node := start;
    var listSize := count;
    ghost var q := p;
    while node != null && listSize > 0
      invariant 0 <= listSize <= count && q == p + count - listSize <= |list.nodes| && node == At(list.nodes, q)
    {
      node := node.next;
      listSize := listSize - 1;
      q := q + 1;
    }
  }

  /** The list as the sort found it, and how the nodes have been rearranged since. */
  ghost predicate Rearrangement<T>(list: ControlNode<T>, before: seq<LinkNode<T>>, current: LinkNode?<T>, perm: seq<nat>)
    reads list, list.nodes`next, list.nodes`prev, list.nodes`owner
  {
    && list.Valid() && Rearranged(before, perm, list.nodes)
    && list.currentItem == current
  }

  lemma RearrangedMoved<A>(before: seq<A>, perm: seq<nat>, after: seq<A>, i: nat, j: nat)
    requires Rearranged(before, perm, after) && i < j < |after|
    ensures Rearranged(before, Moved(perm, i, j), Moved(after, i, j))
    ensures Moved(after, i, j)[i + 1] == after[i]
  {
  }

  method MoveMerged<T(==)>(list: ControlNode<T>, ghost before: seq<LinkNode<T>>, ghost current: LinkNode?<T>,
                           ghost perm: seq<nat>, ghost i: nat, ghost j: nat, mergeList1: LinkNode<T>,
                           nodeToMove: LinkNode<T>)
    returns (mergeList2: LinkNode?<T>)
    requires Rearrangement(list, before, current, perm) && i < j < |before| == |list.nodes| == |perm|
    requires mergeList1 == list.nodes[i] && nodeToMove == list.nodes[j]
    modifies list, before`next, before`prev
    ensures Rearrangement(list, before, current, Moved(perm, i, j))
    ensures mergeList2 == At(list.nodes, j + 1) && mergeList1 == At(list.nodes, i + 1)
  {
    hide ControlNode.Valid;
    RearrangedMoved(before, perm, list.nodes, i, j);
    mergeList2 := MoveInFront(list, i, j, mergeList1, nodeToMove);
  }

  lemma NextAt<T>(list: ControlNode<T>, i: nat)
    requires list.Valid() && i < |list.nodes|
    ensures list.nodes[i].next == At(list.nodes, i + 1)
  {
  }

  lemma RearrangementFacts<T>(list: ControlNode<T>, before: seq<LinkNode<T>>, current: LinkNode?<T>, perm: seq<nat>)
    requires Rearrangement(list, before, current, perm)
    ensures list.Valid() && list.itemCount == |list.nodes| == |before| == |perm|
    ensures list.startOfList == At(list.nodes, 0) && list.currentItem == current
  {
  }

  /**
   * The call of the callback. What it may rely on, whenever it is called and whatever it answered before: the list is
   * well linked and counted, it holds exactly the original nodes, and the current item has not changed.
   */
  method CallCompare<T(==)>(list: ControlNode<T>, compare: Compare<T>,
                           ghost before: seq<LinkNode<T>>, ghost ask: Ask, ghost current: LinkNode?<T>,
                           ghost perm: seq<nat>, calls: nat, x: LinkNode<T>, y: LinkNode<T>, ghost i: nat, ghost j: nat)
    returns (r: Comparison)
    requires Rearrangement(list, before, current, perm) && Asks(compare, before, ask)
    requires i < |before| && j < |before| && x == list.nodes[i] && y == list.nodes[j]
    ensures r == Answer(compare, calls, x.data, x.tag, y.data, y.tag) == ask(calls, perm[i], perm[j])
  {
    r := Answer(compare, calls, x.data, x.tag, y.data, y.tag);
  }

  /** What becomes of s when the runs s[i..j] and s[j..hi] are merged where they stand, after k calls of the callback. */
  function TryMergeAt(ask: Ask, k: nat, s: seq<nat>, i: nat, j: nat, hi: nat): Attempt
    requires i <= j <= hi <= |s|
  {
    var m := TryMerge(ask, k, s[i..j], s[j..hi]);
    Attempt(s[..i] + m.order + s[hi..], m.calls, m.error)
  }

  /** The sort has come as far as the attempt says: same order, same number of further calls, same code. */
  ghost predicate Achieved(goal: Attempt, perm: seq<nat>, calls0: nat, calls: nat, rc: int) {
    goal.order == perm && calls == calls0 + |goal.calls| && goal.error == rc
  }

  /** What is still to be done, seen from where part of the calls has been made. */
  ghost predicate Underway(goal: Attempt, done: seq<nat>, calls0: nat, calls: nat, rest: Attempt) {
    exists made: seq<(nat, nat)> :: calls == calls0 + |made| && goal == After(done, made, rest)
  }

  lemma UnderwayFirst(goal: Attempt, calls0: nat)
    ensures Underway(goal, [], calls0, calls0, goal)
  {
    AfterNothing(goal);
    var none: seq<(nat, nat)> := [];
    assert calls0 == calls0 + |none|;
  }

  lemma UnderwayNext(goal: Attempt, done: seq<nat>, calls0: nat, calls: nat, rest: Attempt,
                     more: seq<nat>, made: seq<(nat, nat)>, rest': Attempt, done': seq<nat>)
    requires Underway(goal, done, calls0, calls, rest) && rest == After(more, made, rest') && done' == done + more
    ensures Underway(goal, done', calls0, calls + |made|, rest')
  {
    var before :| calls == calls0 + |before| && goal == After(done, before, rest);
    AfterAfter(done, more, before, made, rest');
    assert calls + |made| == calls0 + |before + made|;
  }

  lemma UnderwayLast(goal: Attempt, done: seq<nat>, calls0: nat, calls: nat, rest: Attempt)
    requires Underway(goal, done, calls0, calls, rest)
    ensures Achieved(goal, done + rest.order, calls0, calls + |rest.calls|, rest.error)
  {
  }

  lemma MergeTakesSecond(s: seq<nat>, i: nat, j: nat, hi: nat)
    requires i < j < hi <= |s|
    ensures var t := Moved(s, i, j);
            t[..i + 1] == s[..i] + [s[j]] && t[hi..] == s[hi..] && t[i + 1..j + 1] == s[i..j] && t[j + 1..hi] == s[j..hi][1..]
  {
  }

  lemma MergeTakesFirst(s: seq<nat>, i: nat, j: nat, hi: nat)
    requires i < j < hi <= |s|
    ensures s[..i + 1] == s[..i] + [s[i]] && s[i + 1..j] == s[i..j][1..]
  {
  }

  lemma OneMore(a: seq<nat>, x: nat, m: seq<nat>, b: seq<nat>)
    ensures a + ([x] + m) + b == (a + [x]) + m + b
  {
  }

  lemma MergeFinished(ask: Ask, k: nat, s: seq<nat>, i: nat, j: nat, hi: nat)
    requires i <= j <= hi <= |s| && (i == j || j == hi)
    ensures TryMergeAt(ask, k, s, i, j, hi) == Attempt(s, [], SUCCESS)
  {
    assert s[i..j] + s[j..hi] == s[i..hi];
  }

  lemma MergeFails(ask: Ask, k: nat, s: seq<nat>, i: nat, j: nat, hi: nat)
    requires i < j < hi <= |s| && ask(k, s[i], s[j]).error != SUCCESS
    ensures TryMergeAt(ask, k, s, i, j, hi) == Attempt(s, [(s[i], s[j])], ask(k, s[i], s[j]).error)
  {
    assert s[i..j] + s[j..hi] == s[i..hi];
  }

  /** One step of merging in front of b, which is what is left of the sequence. */
  lemma MergePutsFirst(a: seq<nat>, x: nat, a': seq<nat>, b: seq<nat>, pair: seq<(nat, nat)>, m: Attempt)
    requires a' == a + [x]
    ensures var n := After([x], pair, m);
            Attempt(a + n.order + b, n.calls, n.error) == After([], pair, Attempt(a' + m.order + b, m.calls, m.error))
  {
    OneMore(a, x, m.order, b);
    AfterNothing(Attempt(a' + m.order + b, m.calls, m.error));
  }

  lemma MergeAdvancesSecond(ask: Ask, k: nat, s: seq<nat>, i: nat, j: nat, hi: nat, t: seq<nat>)
    requires i < j < hi <= |s| && t == Moved(s, i, j)
    requires ask(k, s[i], s[j]).error == SUCCESS && ask(k, s[i], s[j]).result > 0
    ensures TryMergeAt(ask, k, s, i, j, hi) == After([], [(s[i], s[j])], TryMergeAt(ask, k + 1, t, i + 1, j + 1, hi))
  {
    hide Moved;
    var m := TryMerge(ask, k + 1, s[i..j], s[j..hi][1..]);
    assert TryMerge(ask, k, s[i..j], s[j..hi]) == After([s[j]], [(s[i], s[j])], m);
    hide TryMerge, After;
    MergeTakesSecond(s, i, j, hi);
    MergePutsFirst(s[..i], s[j], t[..i + 1], s[hi..], [(s[i], s[j])], m);
  }

  lemma MergeAdvancesFirst(ask: Ask, k: nat, s: seq<nat>, i: nat, j: nat, hi: nat)
    requires i < j < hi <= |s|
    requires ask(k, s[i], s[j]).error == SUCCESS && ask(k, s[i], s[j]).result <= 0
    ensures TryMergeAt(ask, k, s, i, j, hi) == After([], [(s[i], s[j])], TryMergeAt(ask, k + 1, s, i + 1, j, hi))
  {
    var m := TryMerge(ask, k + 1, s[i..j][1..], s[j..hi]);
    assert TryMerge(ask, k, s[i..j], s[j..hi]) == After([s[i]], [(s[i], s[j])], m);
    hide TryMerge, After;
    MergeTakesFirst(s, i, j, hi);
    MergePutsFirst(s[..i], s[i], s[..i + 1], s[hi..], [(s[i], s[j])], m);
  }

  lemma MergeAdvances(ask: Ask, k: nat, s: seq<nat>, i: nat, j: nat, hi: nat, t: seq<nat>, i': nat, j': nat)
    requires i < j < hi <= |s| && i' == i + 1 && ask(k, s[i], s[j]).error == SUCCESS
    requires if ask(k, s[i], s[j]).result > 0 then t == Moved(s, i, j) && j' == j + 1 else t == s && j' == j
    ensures TryMergeAt(ask, k, s, i, j, hi) == After([], [(s[i], s[j])], TryMergeAt(ask, k + 1, t, i', j', hi))
  {
    hide TryMergeAt, Moved, After;
    if ask(k, s[i], s[j]).result > 0 {
      MergeAdvancesSecond(ask, k, s, i, j, hi, t);
    } else {
      MergeAdvancesFirst(ask, k, s, i, j, hi);
    }
  }

  /** One comparison: object 2 moves in front of object 1, or object 1 is passed over. */
  method MergeStep<T(==)>(list: ControlNode<T>, compare: Compare<T>,
                          ghost before: seq<LinkNode<T>>, ghost ask: Ask, ghost current: LinkNode?<T>,
                          ghost perm0: seq<nat>, calls: nat, mergeList1: LinkNode<T>, mergeList2: LinkNode<T>,
                          ghost i0: nat, ghost j0: nat, ghost hi: nat)
    returns (error: int, second: bool, next1: LinkNode?<T>, next2: LinkNode?<T>, ghost perm: seq<nat>,
             ghost i: nat, ghost j: nat)
    requires Rearrangement(list, before, current, perm0) && Asks(compare, before, ask) && i0 < j0 < hi <= |before| == |perm0|
    requires mergeList1 == list.nodes[i0] && mergeList2 == list.nodes[j0]
    modifies list, before`next, before`prev
    ensures Rearrangement(list, before, current, perm)
    ensures error == SUCCESS ==> i == i0 + 1 && next1 == At(list.nodes, i)
    ensures error == SUCCESS ==> j == (if second then j0 + 1 else j0) && next2 == At(list.nodes, j)
    ensures |perm| == |perm0|
    ensures error == SUCCESS ==>
              TryMergeAt(ask, calls, perm0, i0, j0, hi) ==
              After([], [(perm0[i0], perm0[j0])], TryMergeAt(ask, calls + 1, perm, i, j, hi))
    ensures error != SUCCESS ==>
              TryMergeAt(ask, calls, perm0, i0, j0, hi) == Attempt(perm, [(perm0[i0], perm0[j0])], error)
  {
    hide Rearrangement, Asks, TryMergeAt, Moved, ControlNode.Valid;
    RearrangementFacts(list, before, current, perm0);
    NextAt(list, i0);
    var comparison := CallCompare(list, compare, before, ask, current, perm0, calls, mergeList1, mergeList2, i0, j0);
    error, second, next1, next2, perm := comparison.error, false, mergeList1, mergeList2, perm0;
    i, j := i0 + 1, j0;
    if error != SUCCESS {
      MergeFails(ask, calls, perm0, i0, j0, hi);
      return;
    }
    if comparison.result > 0 {
      second, j := true, j0 + 1;
      next2 := MoveMerged(list, before, current, perm0, i0, j0, mergeList1, mergeList2);
      perm := Moved(perm0, i0, j0);
    } else {
      next1 := mergeList1.next;
    }
    RearrangementFacts(list, before, current, perm);
    MergeAdvances(ask, calls, perm0, i0, j0, hi, perm, i, j);
  }

  /** The heads of both runs are compared until one of the runs is used up. */
  method MergeLoop<T(==)>(list: ControlNode<T>, compare: Compare<T>,
                          ghost before: seq<LinkNode<T>>, ghost ask: Ask, ghost current: LinkNode?<T>,
                          ghost perm0: seq<nat>, calls0: nat, start1: LinkNode?<T>, start2: LinkNode?<T>, w: nat,
                          ghost lo: nat, ghost mid: nat, ghost hi: nat)
    returns (rc: int, mergeList2: LinkNode?<T>, mergeList2Size: nat, ghost perm: seq<nat>, calls: nat, ghost j: nat)
    requires Rearrangement(list, before, current, perm0) && Asks(compare, before, ask) && |before| == |perm0|
    requires lo <= mid <= hi <= |before| && start1 == At(list.nodes, lo) && start2 == At(list.nodes, mid)
    requires mid < |before| ==> mid == lo + w && hi == Min(mid + w, |before|)
    modifies list, before`next, before`prev
    ensures Rearrangement(list, before, current, perm)
    ensures calls0 <= calls <= calls0 + (hi - lo)
    ensures rc == SUCCESS ==> mid <= j <= hi && mergeList2 == At(list.nodes, j)
    ensures rc == SUCCESS && mid < |before| ==> mergeList2Size == mid + w - j
    ensures w == 0 ==> rc == SUCCESS && list.nodes == old(list.nodes)
    ensures Achieved(TryMergeAt(ask, calls0, perm0, lo, mid, hi), perm, calls0, calls, rc)
  {
    hide Rearranged, Asks, TryMergeAt, Chained, Distinct, Underway, Achieved;
    rc, mergeList2, perm, calls := SUCCESS, start2, perm0, calls0;
    RearrangementFacts(list, before, current, perm0);
    ghost var i, goal := lo, TryMergeAt(ask, calls0, perm0, lo, mid, hi);
    UnderwayFirst(goal, calls0);
    j := mid;
    var mergeList1 := start1;
    var mergeList1Size := w;
    mergeList2Size := w;
    while mergeList1 != null && mergeList2 != null && mergeList1Size > 0 && mergeList2Size > 0
      invariant Rearrangement(list, before, current, perm) && |list.nodes| == |before| == |perm|
      invariant lo <= i <= j <= hi && mid <= j && mergeList1 == At(list.nodes, i) && mergeList2 == At(list.nodes, j)
      invariant mid < |before| ==> mergeList1Size == j - i && mergeList2Size == mid + w - j
      invariant calls == calls0 + (i - lo)
      invariant mergeList1Size <= w && (w == 0 ==> list.nodes == old(list.nodes))
      invariant Underway(goal, [], calls0, calls, TryMergeAt(ask, calls, perm, i, j, hi))
      decreases hi - i
    {
      var error, second;
      ghost var perm1, i1, j1, rest := perm, i, j, TryMergeAt(ask, calls, perm, i, j, hi);
      error, second, mergeList1, mergeList2, perm, i, j :=
        MergeStep(list, compare, before, ask, current, perm1, calls, mergeList1, mergeList2, i1, j1, hi);
      RearrangementFacts(list, before, current, perm);
      if error != SUCCESS {
        UnderwayLast(goal, [], calls0, calls, rest);
        assert [] + perm == perm;
        calls := calls + 1;
        return error, null, 0, perm, calls, 0;
      }
      UnderwayNext(goal, [], calls0, calls, rest, [], [(perm1[i1], perm1[j1])],
                   TryMergeAt(ask, calls + 1, perm, i, j, hi), []);
      calls := calls + 1;
      if second {
        mergeList2Size := mergeList2Size - 1;
      } else {
        mergeList1Size := mergeList1Size - 1;
      }
    }
    MergeFinished(ask, calls, perm, i, j, hi);
    UnderwayLast(goal, [], calls0, calls, TryMergeAt(ask, calls, perm, i, j, hi));
    assert [] + perm == perm;
  }

  lemma PassOfRest(ask: Ask, k: nat, s: seq<nat>, w: nat, lo: nat, mid: nat, hi: nat)
    requires 0 < w && lo < |s| && mid == Min(lo + w, |s|) && hi == Min(lo + 2 * w, |s|)
    ensures var m := TryMerge(ask, k, s[lo..mid], s[mid..hi]);
            TryPass(ask, k, s[lo..], w) ==
            if m.error != SUCCESS then Attempt(m.order + s[hi..], m.calls, m.error)
            else After(m.order, m.calls, TryPass(ask, k + |m.calls|, s[hi..], w))
  {
    hide TryMerge, After;
    var r := s[lo..];
    if |r| <= w {
      assert s[lo..mid] == r && s[mid..hi] == [] && s[hi..] == [];
      ShortPass(ask, k, r, w);
    } else {
      assert mid == lo + w && hi == lo + Min(2 * w, |r|);
      assert r[..w] == s[lo..mid];
      assert r[w..Min(2 * w, |r|)] == s[mid..hi];
      assert r[Min(2 * w, |r|)..] == s[hi..];
    }
  }

  /** A last run with nothing behind it stays as it is. */
  lemma ShortPass(ask: Ask, k: nat, r: seq<nat>, w: nat)
    requires 0 < w && |r| <= w
    ensures TryMerge(ask, k, r, []) == Attempt(r, [], SUCCESS)
    ensures TryPass(ask, k, r, w) == After(r, [], TryPass(ask, k, [], w))
  {
    assert r + [] == r;
  }

  /** One round of the inner loop brings the sweep forward, or an error ends it. */
  lemma PassAdvances(goal: Attempt, ask: Ask, calls0: nat, k: nat, s: seq<nat>, w: nat, lo: nat, mid: nat, hi: nat,
                     t: seq<nat>, k': nat, rc: int)
    requires 0 < w && lo < |s| && mid == Min(lo + w, |s|) && hi == Min(lo + 2 * w, |s|)
    requires Underway(goal, s[..lo], calls0, k, TryPass(ask, k, s[lo..], w))
    requires Achieved(TryMergeAt(ask, k, s, lo, mid, hi), t, k, k', rc)
    ensures |t| == |s|
    ensures rc == SUCCESS ==> Underway(goal, t[..hi], calls0, k', TryPass(ask, k', t[hi..], w))
    ensures rc != SUCCESS ==> Achieved(goal, t, calls0, k', rc)
  {
    hide TryPass, TryMerge, Underway;
    PassOfRest(ask, k, s, w, lo, mid, hi);
    var m := TryMerge(ask, k, s[lo..mid], s[mid..hi]);
    MergeSize(ask, k, s[lo..mid], s[mid..hi]);
    Resumed(s[..lo], m.order, s[hi..]);
    if rc == SUCCESS {
      UnderwayNext(goal, s[..lo], calls0, k, TryPass(ask, k, s[lo..], w), m.order, m.calls,
                   TryPass(ask, k', s[hi..], w), t[..hi]);
    } else {
      UnderwayLast(goal, s[..lo], calls0, k, TryPass(ask, k, s[lo..], w));
    }
  }

  lemma MergeSize(ask: Ask, k: nat, a: seq<nat>, b: seq<nat>)
    ensures |TryMerge(ask, k, a, b).order| == |a| + |b|
  {
  }

  lemma Resumed(a: seq<nat>, m: seq<nat>, b: seq<nat>)
    ensures var t := a + m + b; var k := |a| + |m|; t[k..] == b && t[..k] == a + m && t == a + (m + b)
  {
  }

  /**
   * One round of the inner loop: the run of width w at position lo is merged with the run behind it, and mergeList1
   * steps over both. With a width of 0, which a wrapped-around doubling would give, the round gets nowhere.
   */
  method MergeRuns<T(==)>(list: ControlNode<T>, compare: Compare<T>,
                          ghost before: seq<LinkNode<T>>, ghost ask: Ask, ghost current: LinkNode?<T>,
                          ghost perm0: seq<nat>, calls0: nat, mergeList1: LinkNode<T>, w: nat,
                          ghost lo: nat, ghost mid: nat, ghost hi: nat)
    returns (rc: int, following: LinkNode?<T>, ghost perm: seq<nat>, calls: nat)
    requires Rearrangement(list, before, current, perm0) && Asks(compare, before, ask) && |before| == |perm0|
    requires lo < |before| && mergeList1 == list.nodes[lo]
    requires mid == Min(lo + w, |before|) && hi == Min(lo + 2 * w, |before|)
    modifies list, before`next, before`prev
    ensures Rearrangement(list, before, current, perm)
    ensures calls0 <= calls <= calls0 + (hi - lo)
    ensures rc == SUCCESS ==> following == At(list.nodes, hi)
    ensures w == 0 ==> rc == SUCCESS && following == mergeList1
    ensures Achieved(TryMergeAt(ask, calls0, perm0, lo, mid, hi), perm, calls0, calls, rc)
  {
    hide Rearrangement, TryMergeAt, Achieved, Asks, Pass, Chained, Distinct;
    RearrangementFacts(list, before, current, perm0);
    var mergeList2 := Advance(list, mergeList1, w, lo);
    var mergeList2Size;
    ghost var j;
    rc, mergeList2, mergeList2Size, perm, calls, j :=
      MergeLoop(list, compare, before, ask, current, perm0, calls0, mergeList1, mergeList2, w, lo, mid, hi);
    if rc != SUCCESS {
      return rc, null, perm, calls;
    }
    RearrangementFacts(list, before, current, perm);
    if mergeList2Size == 0 || mergeList2 == null {
      following := mergeList2;
    } else {
      following := Advance(list, mergeList2, mergeList2Size, j);
    }
  }

  /** The inner loop: one sweep over the whole list. */
  method MergePass<T(==)>(list: ControlNode<T>, compare: Compare<T>, ghost before: seq<LinkNode<T>>, ghost ask: Ask,
                          ghost current: LinkNode?<T>, ghost perm0: seq<nat>, calls0: nat, w: nat)
    returns (rc: int, ghost perm: seq<nat>, calls: nat)
    requires Rearrangement(list, before, current, perm0) && Asks(compare, before, ask) && 0 < w
    modifies list, before`next, before`prev
    ensures Rearrangement(list, before, current, perm)
    ensures calls0 <= calls <= calls0 + |before|
    ensures Achieved(TryPass(ask, calls0, perm0, w), perm, calls0, calls, rc)
  {
    hide Rearrangement, TryMergeAt, TryPass, Asks, Underway, Achieved;
    rc, perm, calls := SUCCESS, perm0, calls0;
    RearrangementFacts(list, before, current, perm);
    ghost var lo: nat, goal := 0, TryPass(ask, calls0, perm0, w);
    var mergeList1 := list.startOfList;
    UnderwayFirst(goal, calls0);
    assert perm[0..] == perm && perm[..0] == [];
    while mergeList1 != null
      invariant rc == SUCCESS && Rearrangement(list, before, current, perm)
      invariant lo <= |before| == |perm| == |list.nodes| && mergeList1 == At(list.nodes, lo)
      invariant calls0 <= calls <= calls0 + lo
      invariant Underway(goal, perm[..lo], calls0, calls, TryPass(ask, calls, perm[lo..], w))
      decreases |before| - lo
    {
      ghost var s, k, mid, hi := perm, calls, Min(lo + w, |before|), Min(lo + 2 * w, |before|);
      rc, mergeList1, perm, calls :=
        MergeRuns(list, compare, before, ask, current, s, calls, mergeList1, w, lo, mid, hi);
      PassAdvances(goal, ask, calls0, k, s, w, lo, mid, hi, perm, calls, rc);
      if rc != SUCCESS {
        return;
      }
      lo := hi;
      RearrangementFacts(list, before, current, perm);
    }
    assert perm[..lo] == perm && perm[lo..] == [];
    NothingToSweep(ask, calls, w);
    UnderwayLast(goal, perm[..lo], calls0, calls, TryPass(ask, calls, perm[lo..], w));
    assert perm + [] == perm;
  }

  lemma NothingToSweep(ask: Ask, k: nat, w: nat)
    requires 0 < w
    ensures TryPass(ask, k, [], w) == Attempt([], [], SUCCESS)
  {
  }

  function Pow2(p: nat): (x: nat)
    ensures p < x
  {
    if p == 0 then 1 else 2 * Pow2(p - 1)
  }

  lemma RearrangedDistinct<A>(before: seq<A>, perm: seq<nat>, after: seq<A>)
    requires Rearranged(before, perm, after) && Distinct(after)
    ensures Permutation(perm, |before|)
  {
    forall i, j | 0 <= i < j < |perm|
      ensures perm[i] != perm[j]
    {
      assert after[i] != after[j];
    }
  }

  /** The width of the sublists is a 32-bit unsigned number. */
  function NextWidth(w: nat): nat {
    w * 2 % 0x1_0000_0000
  }

  /** The width of the sublists after a number of doublings. */
  function WidthAfter(doublings: nat): nat {
    if doublings == 0 then 1 else NextWidth(WidthAfter(doublings - 1))
  }

  lemma Pow2Of31()
    ensures Pow2(31) == 0x8000_0000
  {
    assert Pow2(8) == 0x100;
    assert Pow2(16) == 0x1_0000;
    assert Pow2(24) == 0x100_0000;
  }

  lemma Doubling(w: nat)
    requires w <= 0x8000_0000
    ensures NextWidth(w) == if w < 0x8000_0000 then 2 * w else 0
  {
  }

  lemma {:induction false} WidthWraps(p: nat)
    ensures WidthAfter(p) == if p < 32 then Pow2(p) else 0
    ensures p < 32 ==> Pow2(p) <= 0x8000_0000
  {
    hide NextWidth;
    if p > 0 {
      WidthWraps(p - 1);
      Doubling(WidthAfter(p - 1));
      WidthBound(p - 1);
      WidthBound(p);
    }
  }

  lemma WidthBound(p: nat)
    ensures p < 32 ==> Pow2(p) <= 0x8000_0000
    ensures p == 31 ==> Pow2(p) == 0x8000_0000
    ensures p < 31 ==> Pow2(p) < 0x8000_0000
  {
    Pow2Of31();
    if p < 31 {
      Pow2Monotone(p, 30);
      assert Pow2(31) == 2 * Pow2(30);
    }
  }

  lemma {:induction false} Pow2Monotone(p: nat, q: nat)
    requires p <= q
    ensures Pow2(p) <= Pow2(q)
  {
    if p < q {
      Pow2Monotone(p, q - 1);
    }
  }

  /**
   * Sorting ends once the doubled width reaches the number of items, which happens exactly for lists of up to 2^31
   * items. On a longer list the width wraps around to 0 and, as MergeRuns shows, a round with width 0 stands still.
   */
  lemma SortEndsExactly(n: nat)
    requires n <= MAX_COUNT
    ensures (exists p: nat :: n <= WidthAfter(p)) <==> n <= 0x8000_0000
    ensures n > 0x8000_0000 ==> WidthAfter(32) == 0
  {
    WidthWraps(31);
    WidthWraps(32);
    Pow2Of31();
    if p: nat :| n <= WidthAfter(p) {
      WidthWraps(p);
    }
  }

  lemma SortStep(ask: Ask, k: nat, s: seq<nat>, w: nat)
    requires 0 < w
    ensures TrySort(ask, k, s, w) ==
            if |s| <= w then Attempt(s, [], SUCCESS)
            else var p := TryPass(ask, k, s, w);
                 if p.error != SUCCESS then p else After([], p.calls, TrySort(ask, k + |p.calls|, p.order, 2 * w))
  {
  }

  /** One sweep brings the sort forward, or an error ends it. */
  lemma SortAdvances(goal: Attempt, ask: Ask, k: nat, s: seq<nat>, w: nat, t: seq<nat>, k': nat, rc: int)
    requires 0 < w < |s| && Underway(goal, [], 0, k, TrySort(ask, k, s, w))
    requires Achieved(TryPass(ask, k, s, w), t, k, k', rc)
    ensures rc == SUCCESS ==> Underway(goal, [], 0, k', TrySort(ask, k', t, 2 * w))
    ensures rc != SUCCESS ==> Achieved(goal, t, 0, k', rc)
  {
    hide TryPass, TrySort, Underway;
    SortStep(ask, k, s, w);
    if rc == SUCCESS {
      UnderwayNext(goal, [], 0, k, TrySort(ask, k, s, w), [], TryPass(ask, k, s, w).calls, TrySort(ask, k', t, 2 * w), []);
    } else {
      UnderwayLast(goal, [], 0, k, TrySort(ask, k, s, w));
      assert [] + t == t;
    }
  }

  /** Fewer than p doublings do not reach n. */
  ghost predicate StillNeeded(n: nat, p: nat) {
    p > 0 ==> Pow2(p - 1) < n
  }

  /** p rounds over n items compare at most n times each. */
  function MostCalls(n: nat, p: nat): nat { n * p }

  lemma DoubledWidth(w: nat, p: nat, q: nat, n: nat)
    requires w == Pow2(p) && q == p + 1 && w < n <= 0x8000_0000
    ensures NextWidth(w) == 2 * w == Pow2(q) && StillNeeded(n, q) && MostCalls(n, q) == MostCalls(n, p) + n
  {
  }

  /** Where the outer loop stands after a number of rounds. */
  ghost predicate Rounds(n: nat, width: nat, passes: nat, calls: nat) {
    0 < width == Pow2(passes) && StillNeeded(n, passes) && calls <= MostCalls(n, passes)
  }

  /** One round of the outer loop: a sweep, and the width doubles. */
  method SortRound<T(==)>(list: ControlNode<T>, compare: Compare<T>, ghost before: seq<LinkNode<T>>, ghost ask: Ask,
                          ghost current: LinkNode?<T>, ghost perm0: seq<nat>, ghost passes: nat, calls0: nat, width0: nat)
    returns (rc: int, ghost perm: seq<nat>, calls: nat, width: nat)
    requires Rearrangement(list, before, current, perm0) && Asks(compare, before, ask)
    requires Rounds(|before|, width0, passes, calls0)
    requires width0 < |before| == |perm0| <= 0x8000_0000
    modifies list, before`next, before`prev
    ensures Rearrangement(list, before, current, perm) && Rounds(|before|, width, passes + 1, calls) && width0 < width
    ensures width == 2 * width0 && Achieved(TryPass(ask, calls0, perm0, width0), perm, calls0, calls, rc)
  {
    hide Rearrangement, Asks, Achieved, NextWidth, Pow2, StillNeeded, TryPass, MostCalls;
    DoubledWidth(width0, passes, passes + 1, |before|);
    rc, perm, calls := MergePass(list, compare, before, ask, current, perm0, calls0, width0);
    width := NextWidth(width0);
  }

  /** The outer loop: sweeps with sublists of doubling width. */
  method SortPasses<T(==)>(list: ControlNode<T>, compare: Compare<T>, ghost before: seq<LinkNode<T>>, ghost ask: Ask,
                           ghost current: LinkNode?<T>)
    returns (rc: int, ghost perm: seq<nat>, ghost passes: nat, calls: nat)
    requires Rearrangement(list, before, current, Identity(|before|)) && Asks(compare, before, ask)
    requires 1 < |before| <= 0x8000_0000
    modifies list, before`next, before`prev
    ensures Rearrangement(list, before, current, perm)
    ensures Achieved(TrySort(ask, 0, Identity(|before|), 1), perm, 0, calls, rc)
    ensures rc == SUCCESS ==> |before| <= Pow2(passes)
    ensures StillNeeded(|before|, passes) && calls <= MostCalls(|before|, passes)
  {
    hide Rearrangement, Asks, TrySort, TryPass, Rounds, Identity, Underway, Achieved;
    rc, perm, passes, calls := SUCCESS, Identity(|before|), 0, 0;
    var mergeListMaxSize := 1;
    NoRounds(|before|);
    RearrangementFacts(list, before, current, perm);
    ghost var goal := TrySort(ask, 0, perm, 1);
    UnderwayFirst(goal, 0);
    while list.itemCount > mergeListMaxSize
      invariant rc == SUCCESS && Rearrangement(list, before, current, perm)
      invariant list.itemCount == |before| == |perm| && Rounds(|before|, mergeListMaxSize, passes, calls)
      invariant mergeListMaxSize > 0 && Underway(goal, [], 0, calls, TrySort(ask, calls, perm, mergeListMaxSize))
      decreases |before| - mergeListMaxSize
    {
      ghost var s, k, w := perm, calls, mergeListMaxSize;
      rc, perm, calls, mergeListMaxSize :=
        SortRound(list, compare, before, ask, current, perm, passes, calls, mergeListMaxSize);
      passes := passes + 1;
      RearrangementFacts(list, before, current, perm);
      SortAdvances(goal, ask, k, s, w, perm, calls, rc);
      if rc != SUCCESS {
        RoundsSay(|before|, mergeListMaxSize, passes, calls);
        return;
      }
    }
    RoundsSay(|before|, mergeListMaxSize, passes, calls);
    SortStep(ask, calls, perm, mergeListMaxSize);
    UnderwayLast(goal, [], 0, calls, TrySort(ask, calls, perm, mergeListMaxSize));
    assert [] + perm == perm;
  }

  lemma NoRounds(n: nat)
    ensures Rounds(n, 1, 0, 0)
  {
  }

  lemma RoundsSay(n: nat, width: nat, passes: nat, calls: nat)
    requires Rounds(n, width, passes, calls)
    ensures 0 < width == Pow2(passes) && StillNeeded(n, passes) && calls <= MostCalls(n, passes)
  {
  }

  /**
   * Relink a list of at most 2^31 items in sorted order. perm tells where each node came from. Order, code and number of
   * calls are those of the merge sort whose comparisons are what the callback answers: the code is the first error that
   * it reports, and no call follows it. StablySorted says what the order is when there is none.
   */
  method SortList<T(==)>(list: ControlNode<T>, compare: Compare<T>, ghost ask: Ask)
    returns (rc: int, ghost perm: seq<nat>, ghost passes: nat, ghost calls: nat)
    requires list.Valid() && list.itemCount <= 0x8000_0000 && Asks(compare, list.nodes, ask)
    modifies list, list.nodes`next, list.nodes`prev
    ensures list.Valid() && list.currentItem == old(list.currentItem) && list.itemCount == old(list.itemCount)
    ensures Rearranged(old(list.nodes), perm, list.nodes) && Permutation(perm, |list.nodes|)
    ensures var goal := TrySort(ask, 0, Identity(|list.nodes|), 1);
            Achieved(goal, perm, 0, calls, rc) && StopsAtFirstError(ask, 0, goal)
    ensures forall c: Order ::
              Decides(ask, c, |list.nodes|) && TotalPreorder(c, |list.nodes|) ==> rc == SUCCESS && StablySorted(c, perm)
    ensures rc == SUCCESS ==> |list.nodes| <= Pow2(passes) && StillNeeded(|list.nodes|, passes)
    ensures calls <= |list.nodes| * passes
  {
    hide Asks, TrySort, Decides, TotalPreorder, StablySorted, StopsAtFirstError;
    ghost var before, current, n := list.nodes, list.currentItem, |list.nodes|;
    rc, perm, passes, calls := SUCCESS, Identity(n), 0, 0;
    SortStep(ask, 0, Identity(n), 1);
    SortStops(ask, 0, Identity(n), 1);
    if list.itemCount > 1 {
      var count;
      rc, perm, passes, count := SortPasses(list, compare, before, ask, current);
      calls := count;
    }
    RearrangedDistinct(before, perm, list.nodes);
    forall c: Order | Decides(ask, c, n) && TotalPreorder(c, n)
      ensures rc == SUCCESS && StablySorted(c, perm)
    {
      TrySortDecided(ask, c, n, 0, Identity(n), 1);
      SortCorrect(c, n);
    }
  }
}
