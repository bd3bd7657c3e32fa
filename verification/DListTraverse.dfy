/** ForEachItem and PruneList: traversals that hand every item to a callback. */
module DListTraverse {
  import opened DList

  datatype Processed<S> = Processed(state: S, error: int)
  datatype Verdict<S> = Verdict(kill: bool, state: S, error: int)

  /** The callbacks; what they remember in the parameter block is threaded through as a state. */
  type Process<!T, !S> = (T, Tag, S) -> Processed<S>
  type Kill<!T, !S> = (T, Tag, S) -> Verdict<S>

  function DoProcess<T, S>(f: Process<T, S>, x: T, t: Tag, s: S): Processed<S> { f(x, t, s) }
  function Judge<T, S>(f: Kill<T, S>, x: T, t: Tag, s: S): Verdict<S> { f(x, t, s) }

  /** Ending a search early is not an error. */
  function Settled(error: int): int {
    if error == SEARCH_COMPLETE then SUCCESS else error
  }

  function Reversed<A>(s: seq<A>): (r: seq<A>)
    ensures |r| == |s|
  {
    seq(|s|, i requires 0 <= i < |s| => s[|s| - 1 - i])
  }

  /** Hand the items to f one by one until it reports something other than success. */
  function Fold<T, S>(items: seq<(T, Tag)>, f: Process<T, S>, s: S): Processed<S> {
    if items == [] then Processed(s, SUCCESS)
    else
      var r := DoProcess(f, items[0].0, items[0].1, s);
      if r.error != SUCCESS then Processed(r.state, Settled(r.error)) else Fold(items[1..], f, r.state)
  }

  /** The items in the order of a traversal, and the position in the list of number k of them. */
  ghost function Traversed<T>(list: ControlNode<T>, forward: bool): (items: seq<(T, Tag)>)
    reads list, list.nodes`data, list.nodes`tag
    ensures |items| == |list.nodes|
  {
    if forward then Items(list.nodes) else Reversed(Items(list.nodes))
  }

  ghost function Visited(n: nat, forward: bool, k: nat): int { if forward then k else n - 1 - k }

  lemma VisitedNode<T>(list: ControlNode<T>, forward: bool, k: nat)
    requires list.Valid() && k < |list.nodes|
    ensures var node := list.nodes[Visited(|list.nodes|, forward, k)];
            && Traversed(list, forward)[k] == (node.data, node.tag)
            && (if forward then node.next else node.prev) == At(list.nodes, Visited(|list.nodes|, forward, k + 1))
  {
    var q := Visited(|list.nodes|, forward, k);
    ItemAt(list.nodes, q);
    NextInChain(list.nodes, q);
    PrevInChain(list.nodes, q);
  }

  lemma FoldNext<T, S>(items: seq<(T, Tag)>, k: nat, f: Process<T, S>, s: S)
    requires k < |items|
    ensures Fold(items[k..], f, s) ==
            var r := DoProcess(f, items[k].0, items[k].1, s);
            if r.error != SUCCESS then Processed(r.state, Settled(r.error)) else Fold(items[k + 1..], f, r.state)
  {
    assert items[k..][1..] == items[k + 1..];
  }

  method ForEachItem<T(==), S>(list: ControlNode<T>, processItem: Process<T, S>, parameters: S, forward: bool)
    returns (rc: int, state: S)
    requires list.Valid()
    ensures Processed(state, rc) ==
            Fold(if forward then Items(list.nodes) else Reversed(Items(list.nodes)), processItem, parameters)
  {
    hide Chained, Distinct, Traversed, Fold;
    TraversedIs(list, forward);
    ghost var items, n := Traversed(list, forward), |list.nodes|;
    ghost var goal := Fold(items, processItem, parameters);
    state := parameters;
    rc := SUCCESS;
    NothingToFold(items[n..], processItem, state);
    assert items[0..] == items;
    if list.itemCount == 0 {
      return;
    }
    var node := if forward then list.startOfList else list.endOfList;
    ghost var k := 0;
    while node != null
      invariant 0 <= k <= n && node == At(list.nodes, Visited(n, forward, k))
      invariant rc == SUCCESS && goal == Fold(items[k..], processItem, state)
      decreases n - k
    {
      VisitedNode(list, forward, k);
      FoldNext(items, k, processItem, state);
      var r := DoProcess(processItem, node.data, node.tag, state);
      rc, state := r.error, r.state;
      if rc != SUCCESS {
        if rc == SEARCH_COMPLETE {
          rc := SUCCESS;
        }
        return;
      }
      node := if forward then node.next else node.prev;
      k := k + 1;
    }
    NothingToFold(items[k..], processItem, state);
  }

  lemma TraversedIs<T>(list: ControlNode<T>, forward: bool)
    ensures Traversed(list, forward) == if forward then Items(list.nodes) else Reversed(Items(list.nodes))
  {
  }

  lemma NothingToFold<T, S>(items: seq<(T, Tag)>, f: Process<T, S>, s: S)
    ensures items == [] ==> Fold(items, f, s) == Processed(s, SUCCESS)
  {
  }

  /** Which items of the list survive a pruning, the code it returns and the final state of the callback. */
  datatype Pruning<S> = Pruning(keep: seq<bool>, error: int, state: S)

  function AllTrue(n: nat): (s: seq<bool>)
    ensures |s| == n && forall i :: 0 <= i < n ==> s[i]
  {
    seq(n, i => true)
  }

  /** Ask about the items one by one; an error or the end of the search lets all further ones survive. */
  function Prune<T, S>(items: seq<(T, Tag)>, f: Kill<T, S>, s: S): (r: Pruning<S>)
    ensures |r.keep| == |items|
  {
    if items == [] then Pruning([], SUCCESS, s)
    else
      var v := Judge(f, items[0].0, items[0].1, s);
      if v.error == SUCCESS then
        var rest := Prune(items[1..], f, v.state);
        Pruning([!v.kill] + rest.keep, rest.error, rest.state)
      else if v.error == SEARCH_COMPLETE then
        Pruning([!v.kill] + AllTrue(|items| - 1), SUCCESS, v.state)
      else
        Pruning(AllTrue(|items|), v.error, v.state)
  }

  /** The elements of s that are marked. */
  function Kept<A>(s: seq<A>, keep: seq<bool>): seq<A>
    requires |s| == |keep|
  {
    if s == [] then []
    else Kept(s[..|s| - 1], keep[..|s| - 1]) + if keep[|s| - 1] then [s[|s| - 1]] else []
  }

  function Count(keep: seq<bool>): (n: nat)
    ensures n <= |keep|
  {
    if keep == [] then 0 else Count(keep[..|keep| - 1]) + if keep[|keep| - 1] then 1 else 0
  }

  /** The first survivor at or after the old current item, else the last survivor, else none. */
  function CursorAfterPrune(cursor: int, keep: seq<bool>): int
    requires cursor <= |keep|
  {
    if cursor >= 0 && Count(keep[..cursor]) < Count(keep) then Count(keep[..cursor]) else Count(keep) - 1
  }

  lemma {:induction false} KeptLength<A>(s: seq<A>, keep: seq<bool>)
    requires |s| == |keep|
    ensures |Kept(s, keep)| == Count(keep)
  {
    if s != [] {
      KeptLength(s[..|s| - 1], keep[..|s| - 1]);
    }
  }

  lemma {:induction false} KeptAll<A>(s: seq<A>)
    ensures Kept(s, AllTrue(|s|)) == s && Count(AllTrue(|s|)) == |s|
  {
    if s != [] {
      assert AllTrue(|s|)[..|s| - 1] == AllTrue(|s| - 1);
      KeptAll(s[..|s| - 1]);
    }
  }

  lemma {:induction false} CountMonotone(keep: seq<bool>, k: nat)
    requires k <= |keep|
    ensures Count(keep[..k]) <= Count(keep)
  {
    if k == |keep| {
      assert keep[..k] == keep;
    } else {
      assert keep[..|keep| - 1][..k] == keep[..k];
      CountMonotone(keep[..|keep| - 1], k);
    }
  }

  /** A marked element at position k is found after all the marked ones in front of it. */
  lemma {:induction false} KeptAt<A>(s: seq<A>, keep: seq<bool>, k: nat)
    requires |s| == |keep| && k < |s| && keep[k]
    ensures Count(keep[..k]) < |Kept(s, keep)| == Count(keep) && Kept(s, keep)[Count(keep[..k])] == s[k]
  {
    var n := |s| - 1;
    KeptLength(s, keep);
    KeptLength(s[..n], keep[..n]);
    if k < n {
      assert keep[..n][..k] == keep[..k];
      KeptAt(s[..n], keep[..n], k);
    }
  }

  lemma RemoveFromFront<A>(s: seq<A>, t: seq<A>, c: nat)
    requires c < |s|
    ensures RemoveAt(s + t, c) == RemoveAt(s, c) + t
  {
  }

  lemma RemoveLast<A>(s: seq<A>, x: A)
    ensures RemoveAt(s + [x], |s|) == s
  {
  }

  /** Unmarking an element removes it, and nothing else. */
  lemma {:induction false} KeptUnmark<A>(s: seq<A>, keep: seq<bool>, k: nat)
    requires |s| == |keep| && k < |s| && keep[k]
    ensures Count(keep[..k]) < |Kept(s, keep)|
    ensures Kept(s, keep[k := false]) == RemoveAt(Kept(s, keep), Count(keep[..k]))
  {
    var n := |s| - 1;
    var kept := Kept(s[..n], keep[..n]);
    KeptAt(s, keep, k);
    KeptLength(s[..n], keep[..n]);
    if k < n {
      KeptUnmark(s[..n], keep[..n], k);
      assert keep[..n][..k] == keep[..k] && keep[k := false][..n] == keep[..n][k := false];
      hide RemoveAt;
      RemoveFromFront(kept, if keep[n] then [s[n]] else [], Count(keep[..k]));
    } else {
      assert keep[k := false][..n] == keep[..n];
      hide RemoveAt;
      RemoveLast(kept, s[n]);
    }
  }

  lemma {:induction false} CountUnmark(keep: seq<bool>, k: nat, c: nat)
    requires k < |keep| && keep[k] && c <= |keep|
    ensures Count(keep[k := false][..c]) == Count(keep[..c]) - if k < c then 1 else 0
  {
    if c == 0 {
    } else {
      CountUnmark(keep, k, c - 1);
      assert keep[..c][..c - 1] == keep[..c - 1] && keep[k := false][..c][..c - 1] == keep[k := false][..c - 1];
    }
  }

  lemma CountUpTo(keep: seq<bool>, c: nat, d: nat)
    requires c <= d <= |keep|
    ensures Count(keep[..c]) <= Count(keep[..d])
  {
    assert keep[..d][..c] == keep[..c];
    CountMonotone(keep[..d], c);
  }

  /** Removing the item under discussion moves the cursor the way the final rule demands. */
  lemma CursorUnmark(cursor: int, keep: seq<bool>, k: nat)
    requires 0 <= cursor < |keep| && k < |keep| && forall i :: k <= i < |keep| ==> keep[i]
    ensures CursorAfterPrune(cursor, keep[k := false]) ==
            CursorAfterRemove(CursorAfterPrune(cursor, keep), Count(keep[..k]), Count(keep))
  {
    var n := |keep|;
    assert keep[..n] == keep && keep[k := false][..n] == keep[k := false];
    CountUnmark(keep, k, n);
    CountUnmark(keep, k, cursor);
    KeptAt(keep, keep, k);
    if cursor < k {
      CountUpTo(keep, cursor, k);
    } else {
      KeptAt(keep, keep, cursor);
      CountUpTo(keep, k, cursor);
      if k < cursor {
        assert keep[..k + 1][..k] == keep[..k];
        CountUpTo(keep, k + 1, cursor);
      }
    }
  }

  /** The node at position p is bypassed on both sides. */
  method PruneLinks<T(==)>(list: ControlNode<T>, ghost p: nat, node: LinkNode<T>, previous: LinkNode?<T>)
    requires list.Valid() && p < |list.nodes| && list.nodes[p] == node && previous == node.prev
    modifies list`startOfList, list`endOfList, list.nodes`next, list.nodes`prev
    ensures Chained(RemoveAt(list.nodes, p)) && Distinct(RemoveAt(list.nodes, p)) && node.next == old(node.next)
    ensures list.startOfList == At(list.nodes, if p == 0 then 1 else 0)
    ensures list.endOfList == At(list.nodes, if p == |list.nodes| - 1 then p - 1 else |list.nodes| - 1)
  {
    if previous == null {
      list.startOfList := node.next;
    } else {
      previous.next := node.next;
    }
    if node == list.endOfList {
      list.endOfList := previous;
    } else {
      node.next.prev := previous;
    }
    ChainedRemove(list.nodes, p);
  }

  /** The bypassed node gives up the place of the current item and is released. */
  method PruneCount<T(==)>(list: ControlNode<T>, ghost p: nat, node: LinkNode<T>, previous: LinkNode?<T>)
    requires p < |list.nodes| == list.itemCount <= MAX_COUNT && list.nodes[p] == node
    requires previous == At(list.nodes, p - 1) && node.next == At(list.nodes, p + 1)
    requires forall i {:trigger list.nodes[i].owner} :: 0 <= i < |list.nodes| ==> list.nodes[i].owner == list
    requires list.startOfList == At(list.nodes, if p == 0 then 1 else 0)
    requires list.endOfList == At(list.nodes, if p == |list.nodes| - 1 then p - 1 else |list.nodes| - 1)
    requires 0 <= list.cursor < |list.nodes| && list.currentItem == list.nodes[list.cursor] && Distinct(list.nodes)
    requires Chained(RemoveAt(list.nodes, p)) && Distinct(RemoveAt(list.nodes, p))
    modifies list, node`owner
    ensures list.Valid() && list.nodes == RemoveAt(old(list.nodes), p) && node.owner == null
    ensures list.cursor == CursorAfterRemove(old(list.cursor), p, |old(list.nodes)|)
  {
    if node == list.currentItem {
      if node.next != null {
        list.currentItem := node.next;
      } else {
        list.currentItem := previous;
      }
    }
    list.itemCount := list.itemCount - 1;
    node.owner := null;
    CountRemoved(list, p);
  }

  /** Take the node at position p out of the list; the traversal goes on with the node behind it. */
  method PruneNode<T(==)>(list: ControlNode<T>, ghost p: nat, node: LinkNode<T>) returns (following: LinkNode?<T>)
    requires list.Valid() && p < |list.nodes| && list.nodes[p] == node
    modifies list, list.nodes`next, list.nodes`prev, node`owner
    ensures list.Valid() && list.nodes == RemoveAt(old(list.nodes), p) && node.owner == null
    ensures list.cursor == CursorAfterRemove(old(list.cursor), p, |old(list.nodes)|)
    ensures following == At(list.nodes, p)
  {
    PrevInChain(list.nodes, p);
    NextInChain(list.nodes, p);
    hide Chained, Distinct;
    var previous := node.prev;
    PruneLinks(list, p, node, previous);
    PruneCount(list, p, node, previous);
    if previous != null {
      NextInChain(list.nodes, p - 1);
      following := previous.next;
    } else {
      following := list.startOfList;
    }
  }

  /** The decisions of a pruning that has judged the first k items so far and has done for keep[..k]. */
  ghost predicate Judged<T, S>(goal: Pruning<S>, items: seq<(T, Tag)>, f: Kill<T, S>, keep: seq<bool>, k: nat, s: S) {
    && |keep| == |items| && k <= |items|
    && var rest := Prune(items[k..], f, s);
       goal == Pruning(keep[..k] + rest.keep, rest.error, rest.state)
  }

  /** One more item has been judged without ending the traversal. */
  lemma JudgedNext<T, S>(goal: Pruning<S>, items: seq<(T, Tag)>, f: Kill<T, S>, keep: seq<bool>, k: nat, s: S,
                         v: Verdict<S>, keep': seq<bool>)
    requires Judged(goal, items, f, keep, k, s) && k < |items| && v == Judge(f, items[k].0, items[k].1, s)
    requires v.error == SUCCESS && keep' == keep[k := !v.kill]
    ensures Judged(goal, items, f, keep', k + 1, v.state)
  {
    assert items[k..][1..] == items[k + 1..];
    assert keep'[..k + 1] == keep[..k] + [!v.kill];
    var rest := Prune(items[k + 1..], f, v.state);
    assert keep[..k] + ([!v.kill] + rest.keep) == keep'[..k + 1] + rest.keep;
  }

  /** An error or the end of the search ends the traversal; the items behind stay. */
  lemma JudgedLast<T, S>(goal: Pruning<S>, items: seq<(T, Tag)>, f: Kill<T, S>, keep: seq<bool>, k: nat, s: S,
                         v: Verdict<S>, keep': seq<bool>)
    requires Judged(goal, items, f, keep, k, s) && k < |items| && v == Judge(f, items[k].0, items[k].1, s)
    requires v.error != SUCCESS && forall i :: k <= i < |keep| ==> keep[i]
    requires keep' == if v.kill && v.error == SEARCH_COMPLETE then keep[k := false] else keep
    ensures goal == Pruning(keep', Settled(v.error), v.state)
  {
    assert items[k..][0] == items[k];
    if v.error == SEARCH_COMPLETE {
      assert keep' == keep[..k] + ([!v.kill] + AllTrue(|items| - k - 1));
    } else {
      assert keep' == keep[..k] + AllTrue(|items| - k);
    }
  }

  /** The list holds the survivors so far and the cursor stands where the final rule would put it. */
  ghost predicate PrunedTo<T>(list: ControlNode<T>, before: seq<LinkNode<T>>, cursor: int, keep: seq<bool>)
    reads list, list.nodes`next, list.nodes`prev, list.nodes`owner
  {
    && list.Valid() && |keep| == |before| && 0 <= cursor < |before|
    && list.nodes == Kept(before, keep) && list.cursor == CursorAfterPrune(cursor, keep)
  }

  ghost predicate Released<T>(before: seq<LinkNode<T>>, keep: seq<bool>)
    requires |keep| == |before|
    reads before`owner
  {
    forall i :: 0 <= i < |before| && !keep[i] ==> before[i].owner == null
  }

  /** The item at position k, the next one of the traversal, is killed. */
  method KillNode<T(==)>(list: ControlNode<T>, ghost before: seq<LinkNode<T>>, ghost cursor: int, ghost keep: seq<bool>,
                         ghost k: nat, node: LinkNode<T>) returns (following: LinkNode?<T>)
    requires PrunedTo(list, before, cursor, keep) && Distinct(before) && k < |before| && node == before[k]
    requires forall i :: k <= i < |keep| ==> keep[i]
    requires Released(before, keep)
    modifies list, before`next, before`prev, before`owner
    ensures PrunedTo(list, before, cursor, keep[k := false]) && Released(before, keep[k := false])
    ensures following == At(list.nodes, Count(keep[..k]))
  {
    ghost var p := Count(keep[..k]);
    KeptAt(before, keep, k);
    KeptUnmark(before, keep, k);
    CursorUnmark(cursor, keep, k);
    KeptMembers(before, keep);
    assert forall i :: 0 <= i < |list.nodes| ==> list.nodes[i] in before;
    following := PruneNode(list, p, node);
  }

  lemma {:induction false} KeptMembers<A>(s: seq<A>, keep: seq<bool>)
    requires |s| == |keep|
    ensures forall x :: x in Kept(s, keep) ==> x in s
  {
    if s != [] {
      KeptMembers(s[..|s| - 1], keep[..|s| - 1]);
    }
  }

  /** Behind the marked elements in front of position k comes the element at position k, when it is marked. */
  lemma NextToJudge<A>(s: seq<A>, keep: seq<bool>, k: nat)
    requires |s| == |keep| && k <= |s| && forall i :: k <= i < |keep| ==> keep[i]
    ensures Count(keep[..k]) <= |Kept(s, keep)|
    ensures k < |s| ==> Count(keep[..k]) < |Kept(s, keep)| && Kept(s, keep)[Count(keep[..k])] == s[k]
    ensures k == |s| ==> Count(keep[..k]) == |Kept(s, keep)|
  {
    KeptLength(s, keep);
    if k < |s| {
      KeptAt(s, keep, k);
    } else {
      assert keep[..k] == keep;
    }
  }

  /** Where a traversal stands: k items have been judged, node is the next one, and everything from there on is kept. */
  ghost predicate Traversing<T, S>(list: ControlNode<T>, before: seq<LinkNode<T>>, cursor: int, goal: Pruning<S>,
                                   f: Kill<T, S>, keep: seq<bool>, k: nat, s: S, node: LinkNode?<T>)
    reads list, list.nodes`next, list.nodes`prev, list.nodes`owner, before`owner, before`data, before`tag
  {
    && PrunedTo(list, before, cursor, keep) && Released(before, keep)
    && Judged(goal, Items(before), f, keep, k, s)
    && (forall i :: k <= i < |keep| ==> keep[i])
    && node == At(list.nodes, Count(keep[..k]))
  }

  ghost predicate Finished<T, S>(list: ControlNode<T>, before: seq<LinkNode<T>>, cursor: int, goal: Pruning<S>,
                                 rc: int, s: S)
    reads list, list.nodes`next, list.nodes`prev, list.nodes`owner, before`owner
  {
    && |goal.keep| == |before| && PrunedTo(list, before, cursor, goal.keep) && Released(before, goal.keep)
    && rc == goal.error && s == goal.state
  }

  /** One round of the traversal. */
  method PruneStep<T(==), S>(list: ControlNode<T>, killItem: Kill<T, S>, ghost before: seq<LinkNode<T>>,
                             ghost cursor: int, ghost goal: Pruning<S>, ghost keep0: seq<bool>, ghost k: nat,
                             state0: S, node: LinkNode<T>)
    returns (done: bool, rc: int, state: S, following: LinkNode?<T>, ghost keep: seq<bool>, ghost next: nat)
    requires Traversing(list, before, cursor, goal, killItem, keep0, k, state0, node) && Distinct(before)
    requires k < |before|
    modifies list, before`next, before`prev, before`owner
    ensures if done then Finished(list, before, cursor, goal, rc, state)
            else && rc == SUCCESS && next == k + 1
                 && Traversing(list, before, cursor, goal, killItem, keep, next, state, following)
  {
    ghost var items := Items(before);
    hide Prune, Kept, CursorAfterPrune, Judged, Chained, Distinct, Items;
    NextToJudge(before, keep0, k);
    NextInChain(list.nodes, Count(keep0[..k]));
    ItemAt(before, k);
    var v := Judge(killItem, node.data, node.tag, state0);
    done, rc, state, following, keep, next := true, Settled(v.error), v.state, node, keep0, k + 1;
    if v.kill {
      if v.error != SUCCESS && v.error != SEARCH_COMPLETE {
        JudgedLast(goal, items, killItem, keep0, k, state0, v, keep);
        return;
      }
      following := KillNode(list, before, cursor, keep0, k, node);
      keep := keep0[k := false];
      if v.error == SEARCH_COMPLETE {
        JudgedLast(goal, items, killItem, keep0, k, state0, v, keep);
        return;
      }
    } else {
      if v.error != SUCCESS {
        JudgedLast(goal, items, killItem, keep0, k, state0, v, keep);
        return;
      }
      following := node.next;
    }
    done := false;
    JudgedNext(goal, items, killItem, keep0, k, state0, v, keep);
    CountNext(keep, k);
    assert keep[..k] == keep0[..k];
  }

  method PruneLoop<T(==), S>(list: ControlNode<T>, killItem: Kill<T, S>, ghost before: seq<LinkNode<T>>,
                             ghost cursor: int, ghost goal: Pruning<S>, ghost keep0: seq<bool>,
                             parameters: S, start: LinkNode?<T>)
    returns (rc: int, state: S)
    requires Traversing(list, before, cursor, goal, killItem, keep0, 0, parameters, start) && Distinct(before)
    modifies list, before`next, before`prev, before`owner
    ensures Finished(list, before, cursor, goal, rc, state)
  {
    hide Traversing, Finished;
    rc, state := SUCCESS, parameters;
    var node := start;
    ghost var keep, k: nat := keep0, 0;
    while node != null
      invariant rc == SUCCESS && Traversing(list, before, cursor, goal, killItem, keep, k, state, node)
      decreases |before| - k
    {
      var done;
      TraversingFacts(list, before, cursor, goal, killItem, keep, k, state, node);
      done, rc, state, node, keep, k := PruneStep(list, killItem, before, cursor, goal, keep, k, state, node);
      if done {
        return;
      }
    }
    TraversingEnds(list, before, cursor, goal, killItem, keep, k, state);
  }

  /**
   * Everything the callback condemned is gone, all the rest keeps its order, and the cursor is where
   * CursorAfterPrune says. Prune gives the callback's answers, CursorAfterPrune the place of the cursor.
   */
  method PruneList<T(==), S>(list: ControlNode<T>, killItem: Kill<T, S>, parameters: S) returns (rc: int, state: S)
    requires list.Valid()
    modifies list, list.nodes`next, list.nodes`prev, list.nodes`owner
    ensures list.Valid()
    ensures var goal := Prune(old(Items(list.nodes)), killItem, parameters);
            && rc == goal.error && state == goal.state
            && list.nodes == Kept(old(list.nodes), goal.keep)
            && list.cursor == CursorAfterPrune(old(list.cursor), goal.keep)
            && Released(old(list.nodes), goal.keep)
  {
    if list.itemCount == 0 {
      return SUCCESS, parameters;
    }
    ghost var before, cursor := list.nodes, list.cursor;
    ghost var goal := Prune(Items(before), killItem, parameters);
    TraversingStarts(list, goal, killItem, parameters);
    hide Traversing;
    rc, state := PruneLoop(list, killItem, before, cursor, goal, AllTrue(|before|), parameters, list.startOfList);
  }

  lemma TraversingStarts<T, S>(list: ControlNode<T>, goal: Pruning<S>, f: Kill<T, S>, s: S)
    requires list.Valid() && list.nodes != [] && goal == Prune(Items(list.nodes), f, s)
    ensures Traversing(list, list.nodes, list.cursor, goal, f, AllTrue(|list.nodes|), 0, s, list.startOfList)
  {
    hide Items, Chained, Distinct, Prune, Kept, CursorAfterPrune, Count;
    var keep, items := AllTrue(|list.nodes|), Items(list.nodes);
    KeptAll(list.nodes);
    PruningStarts(list.cursor, |list.nodes|);
    NoneCounted(keep);
    assert items[0..] == items && keep[..0] == [] && [] + goal.keep == goal.keep;
  }

  lemma NoneCounted(keep: seq<bool>)
    ensures Count(keep[..0]) == 0
  {
  }

  lemma TraversingFacts<T, S>(list: ControlNode<T>, before: seq<LinkNode<T>>, cursor: int, goal: Pruning<S>,
                              f: Kill<T, S>, keep: seq<bool>, k: nat, s: S, node: LinkNode?<T>)
    requires Traversing(list, before, cursor, goal, f, keep, k, s, node)
    ensures k <= |before| && (node == null <==> k == |before|)
  {
    NextToJudge(before, keep, k);
  }

  lemma TraversingEnds<T, S>(list: ControlNode<T>, before: seq<LinkNode<T>>, cursor: int, goal: Pruning<S>,
                             f: Kill<T, S>, keep: seq<bool>, k: nat, s: S)
    requires Traversing(list, before, cursor, goal, f, keep, k, s, null)
    ensures Finished(list, before, cursor, goal, SUCCESS, s)
  {
    TraversingFacts(list, before, cursor, goal, f, keep, k, s, null);
    JudgedAll(goal, Items(before), f, keep, k, s);
  }

  lemma PruningStarts(cursor: int, n: nat)
    requires 0 <= cursor < n
    ensures CursorAfterPrune(cursor, AllTrue(n)) == cursor
  {
    assert AllTrue(n)[..cursor] == AllTrue(cursor);
    KeptAll(AllTrue(cursor));
    KeptAll(AllTrue(n));
  }

  lemma CountNext(keep: seq<bool>, k: nat)
    requires k < |keep|
    ensures Count(keep[..k + 1]) == Count(keep[..k]) + if keep[k] then 1 else 0
  {
    assert keep[..k + 1][..k] == keep[..k];
  }

  lemma JudgedAll<T, S>(goal: Pruning<S>, items: seq<(T, Tag)>, f: Kill<T, S>, keep: seq<bool>, k: nat, s: S)
    requires Judged(goal, items, f, keep, k, s) && k == |items|
    ensures goal == Pruning(keep, SUCCESS, s)
  {
    assert items[k..] == [] && keep[..k] == keep;
  }

  /** With a survivor at or after the old current item, the first such survivor is current. */
  lemma CursorOnNextSurvivor<A>(s: seq<A>, keep: seq<bool>, cursor: int, i: nat)
    requires |s| == |keep| && 0 <= cursor <= i < |s| && keep[i] && forall j :: cursor <= j < i ==> !keep[j]
    ensures 0 <= CursorAfterPrune(cursor, keep) < |Kept(s, keep)|
    ensures Kept(s, keep)[CursorAfterPrune(cursor, keep)] == s[i]
  {
    KeptAt(s, keep, i);
    CountGap(keep, cursor, i);
  }

  /** With survivors in front of the old current item only, the last of them is current. */
  lemma CursorOnLastSurvivor<A>(s: seq<A>, keep: seq<bool>, cursor: int, i: nat)
    requires |s| == |keep| && i < cursor < |s| && keep[i] && forall j :: i < j < |s| ==> !keep[j]
    ensures 0 <= CursorAfterPrune(cursor, keep) < |Kept(s, keep)|
    ensures Kept(s, keep)[CursorAfterPrune(cursor, keep)] == s[i]
  {
    assert keep[..|keep|] == keep;
    KeptAt(s, keep, i);
    CountNext(keep, i);
    CountGap(keep, i + 1, cursor);
    CountGap(keep, i + 1, |keep|);
  }

  lemma CursorWithoutSurvivor<A>(s: seq<A>, keep: seq<bool>, cursor: int)
    requires |s| == |keep| && 0 <= cursor < |s| && forall j :: 0 <= j < |s| ==> !keep[j]
    ensures Kept(s, keep) == [] && CursorAfterPrune(cursor, keep) == -1
  {
    assert keep[..|keep|] == keep;
    KeptLength(s, keep);
    CountGap(keep, 0, |keep|);
    CountGap(keep, 0, cursor);
  }

  lemma {:induction false} CountGap(keep: seq<bool>, c: nat, d: nat)
    requires c <= d <= |keep| && forall j :: c <= j < d ==> !keep[j]
    ensures Count(keep[..d]) == Count(keep[..c])
  {
    if c < d {
      CountGap(keep, c, d - 1);
      CountNext(keep, d - 1);
    }
  }

  /** When the callback never stops the traversal and its verdict depends on the item alone, pruning is a filter. */
  lemma {:induction false} PruneIsFilter<T, S>(items: seq<(T, Tag)>, f: Kill<T, S>, s: S, bad: (T, Tag) -> bool)
    requires forall i, r :: 0 <= i < |items| ==>
               var v := f(items[i].0, items[i].1, r); v.error == SUCCESS && v.kill == bad(items[i].0, items[i].1)
    ensures var p := Prune(items, f, s);
            p.error == SUCCESS && forall i :: 0 <= i < |items| ==> p.keep[i] == !bad(items[i].0, items[i].1)
  {
    if items != [] {
      var v := Judge(f, items[0].0, items[0].1, s);
      PruneIsFilter(items[1..], f, v.state, bad);
    }
  }

  /** The callback runs through the states without an error as long as it is asked about the first k items. */
  ghost predicate RunsThrough<T, S>(items: seq<(T, Tag)>, f: Process<T, S>, states: seq<S>, k: nat) {
    k <= |items| && |states| == k + 1 &&
    forall j :: 0 <= j < k ==> f(items[j].0, items[j].1, states[j]) == Processed(states[j + 1], 0)
  }

  /**
   * A traversal hands over one item after the other and stops at the first code other than 0; 255 is the end of a search
   * and reported as 0.
   */
  lemma {:induction false} FoldStops<T, S>(items: seq<(T, Tag)>, f: Process<T, S>, states: seq<S>, k: nat)
    requires RunsThrough(items, f, states, k)
    ensures k == |items| ==> Fold(items, f, states[0]) == Processed(states[k], 0)
    ensures k < |items| && f(items[k].0, items[k].1, states[k]).error != 0 ==>
              var r := f(items[k].0, items[k].1, states[k]);
              Fold(items, f, states[0]) == Processed(r.state, if r.error == 255 then 0 else r.error)
    decreases k
  {
    if k > 0 {
      assert f(items[0].0, items[0].1, states[0]) == Processed(states[1], 0);
      assert RunsThrough(items[1..], f, states[1..], k - 1);
      FoldStops(items[1..], f, states[1..], k - 1);
    }
  }

  /** The same for a callback that judges the items. */
  ghost predicate JudgesThrough<T, S>(items: seq<(T, Tag)>, f: Kill<T, S>, states: seq<S>, k: nat) {
    k <= |items| && |states| == k + 1 &&
    forall j :: 0 <= j < k ==>
      var v := f(items[j].0, items[j].1, states[j]); v.state == states[j + 1] && v.error == 0
  }

  lemma JudgesOn<T, S>(items: seq<(T, Tag)>, f: Kill<T, S>, states: seq<S>, k: nat)
    requires JudgesThrough(items, f, states, k) && k > 0
    ensures JudgesThrough(items[1..], f, states[1..], k - 1)
  {
    forall j | 0 <= j < k - 1
      ensures var v := f(items[1..][j].0, items[1..][j].1, states[1..][j]); v.state == states[1..][j + 1] && v.error == 0
    {
      assert items[1..][j] == items[j + 1] && states[1..][j] == states[j + 1] && states[1..][j + 1] == states[j + 2];
    }
  }

  /**
   * A pruning kills the items that the callback condemns up to the first code other than 0, and keeps all behind it. The
   * item judged with that code is kept, unless the code is 255, the end of the search, which is reported as 0.
   */
  lemma {:induction false} PruneStops<T, S>(items: seq<(T, Tag)>, f: Kill<T, S>, states: seq<S>, k: nat)
    requires JudgesThrough(items, f, states, k)
    ensures var p := Prune(items, f, states[0]);
            k == |items| ==>
              p.error == 0 && p.state == states[k] &&
              forall j :: 0 <= j < k ==> p.keep[j] == !f(items[j].0, items[j].1, states[j]).kill
    ensures var p := Prune(items, f, states[0]);
            k < |items| && f(items[k].0, items[k].1, states[k]).error != 0 ==>
              var v := f(items[k].0, items[k].1, states[k]);
              && p.error == (if v.error == 255 then 0 else v.error) && p.state == v.state
              && (forall j :: 0 <= j < k ==> p.keep[j] == !f(items[j].0, items[j].1, states[j]).kill)
              && p.keep[k] == !(v.error == 255 && v.kill)
              && forall j :: k < j < |items| ==> p.keep[j]
    decreases k
  {
    if k > 0 {
      var v := f(items[0].0, items[0].1, states[0]);
      assert v.state == states[1] && v.error == 0;
      JudgesOn(items, f, states, k);
      PruneStops(items[1..], f, states[1..], k - 1);
      var p, q := Prune(items, f, states[0]), Prune(items[1..], f, states[1]);
      assert p == Pruning([!v.kill] + q.keep, q.error, q.state);
      assert forall j :: 0 < j < |items| ==> p.keep[j] == q.keep[j - 1] && items[j] == items[1..][j - 1];
      assert forall j :: 0 < j <= k ==> states[j] == states[1..][j - 1];
    }
  }
}
