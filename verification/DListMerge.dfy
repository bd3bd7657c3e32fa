/** AppendList and CopyList: moving or copying the items of one list into another. */
module DListMerge {
  import opened DList

  function Spliced<A>(s: seq<A>, p: nat, t: seq<A>): seq<A>
    requires p <= |s|
  {
    s[..p] + t + s[p..]
  }

  ghost predicate Disjoint<A>(s: seq<A>, t: seq<A>) {
    forall i, j :: 0 <= i < |s| && 0 <= j < |t| ==> s[i] != t[j]
  }

  /** The chain t, linked in between positions p - 1 and p of the chain s, gives one chain. */
  lemma ChainedSplice<T>(s: seq<LinkNode<T>>, p: nat, t: seq<LinkNode<T>>)
    requires p <= |s| && t != [] && Distinct(s) && Distinct(t) && Disjoint(s, t)
    requires forall i {:trigger s[i].next} :: 0 <= i < |s| ==> s[i].next == if i == p - 1 then t[0] else At(s, i + 1)
    requires forall i {:trigger s[i].prev} :: 0 <= i < |s| ==> s[i].prev == if i == p then t[|t| - 1] else At(s, i - 1)
    requires forall i {:trigger t[i].next} :: 0 <= i < |t| ==> t[i].next == if i == |t| - 1 then At(s, p) else t[i + 1]
    requires forall i {:trigger t[i].prev} :: 0 <= i < |t| ==> t[i].prev == if i == 0 then At(s, p - 1) else t[i - 1]
    ensures Chained(Spliced(s, p, t)) && Distinct(Spliced(s, p, t))
  {
    var u := Spliced(s, p, t);
    SpliceDistinct(s, p, t);
    forall i | 0 <= i < |u|
      ensures u[i].next == At(u, i + 1) && u[i].prev == At(u, i - 1)
    {
      if i < p {
        assert u[i] == s[i];
      } else if i < p + |t| {
        assert u[i] == t[i - p];
      } else {
        assert u[i] == s[i - |t|];
      }
    }
  }

  lemma SpliceDistinct<A>(s: seq<A>, p: nat, t: seq<A>)
    requires p <= |s| && Distinct(s) && Distinct(t) && Disjoint(s, t)
    ensures Distinct(Spliced(s, p, t))
  {
  }

  /** Every node from position i on gets list as its owner. */
  method Adopt<T(==)>(list: ControlNode<T>, ghost nodes: seq<LinkNode<T>>, ghost i0: nat, start: LinkNode?<T>)
    requires Chained(nodes) && Distinct(nodes) && i0 <= |nodes| && start == At(nodes, i0)
    modifies nodes[i0..]`owner
    ensures forall i {:trigger nodes[i].owner} :: i0 <= i < |nodes| ==> nodes[i].owner == list
  {
    var node := start;
    ghost var i := i0;
    while node != null
      invariant i0 <= i <= |nodes| && node == At(nodes, i)
      invariant forall k {:trigger nodes[k].owner} :: i0 <= k < i ==> nodes[k].owner == list
      decreases |nodes| - i
    {
      assert node == nodes[i0..][i - i0];
      node.owner := list;
      node := node.next;
      i := i + 1;
    }
  }

  /** Two lists share no node, because a node names its one owner. */
  lemma OwnersDisjoint<T>(l: ControlNode<T>, m: ControlNode<T>)
    requires l.Valid() && m.Valid() && l != m
    ensures Disjoint(l.nodes, m.nodes)
  {
    forall i, j | 0 <= i < |l.nodes| && 0 <= j < |m.nodes|
      ensures l.nodes[i] != m.nodes[j]
    {
      assert l.nodes[i].owner == l && m.nodes[j].owner == m;
    }
  }

  method AppendList<T(==)>(target: ControlNode<T>, source: ControlNode<T>) returns (rc: int)
    requires target.Valid() && source.Valid() && target != source
    requires target.itemCount + source.itemCount <= MAX_COUNT
    modifies target, source, target.nodes`next, source.nodes`prev, source.nodes`owner
    ensures target.Valid() && source.Valid() && rc == SUCCESS
    ensures target.nodes == old(target.nodes) + old(source.nodes) && source.nodes == []
    ensures target.cursor == if old(target.nodes) == [] then old(source.cursor) else old(target.cursor)
  {
    if source.itemCount == 0 {
      return SUCCESS;
    }
    if target.itemCount == 0 {
      SwapControl(target, source);
    } else {
      OwnersDisjoint(target, source);
      Concatenate(target, source);
    }
    return SUCCESS;
  }

  /** The target is empty: the two control nodes trade their contents. */
  method SwapControl<T(==)>(target: ControlNode<T>, source: ControlNode<T>)
    requires target.Valid() && source.Valid() && target != source && target.nodes == [] && source.nodes != []
    modifies target, source, source.nodes`owner
    ensures target.Valid() && source.Valid()
    ensures target.nodes == old(source.nodes) && target.cursor == old(source.cursor) && source.nodes == []
  {
    hide Chained, Distinct;
    ghost var nodes := source.nodes;
    NextInChain(nodes, 0);
    target.itemCount, target.startOfList, target.endOfList, target.currentItem,
    source.itemCount, source.startOfList, source.endOfList, source.currentItem :=
      source.itemCount, source.startOfList, source.endOfList, source.currentItem,
      target.itemCount, target.startOfList, target.endOfList, target.currentItem;
    target.nodes, target.cursor, source.nodes, source.cursor := source.nodes, source.cursor, [], -1;
    target.startOfList.owner := target;
    Adopt(target, nodes, 1, target.startOfList.next);
  }

  /** Link the chain t behind the chain s. */
  method JoinChains<T(==)>(ghost s: seq<LinkNode<T>>, ghost t: seq<LinkNode<T>>, current: LinkNode<T>, first: LinkNode<T>)
    requires s != [] && t != [] && current == s[|s| - 1] && first == t[0]
    requires Chained(s) && Chained(t) && Distinct(s) && Distinct(t) && Disjoint(s, t)
    modifies current`next, first`prev
    ensures Chained(s + t) && Distinct(s + t) && current.next == first
  {
    current.next := first;
    first.prev := current;
    ChainedSplice(s, |s|, t);
    assert Spliced(s, |s|, t) == s + t;
  }

  /** The control node describes the joined chain already; what is missing is that its new nodes name their owner. */
  method AdoptTail<T(==)>(list: ControlNode<T>, ghost s: seq<LinkNode<T>>, ghost t: seq<LinkNode<T>>, last: LinkNode<T>)
    requires list.nodes == s + t && s != [] && t != [] && last == s[|s| - 1]
    requires list.itemCount == |s| + |t| <= MAX_COUNT && list.startOfList == s[0] && list.endOfList == t[|t| - 1]
    requires 0 <= list.cursor < |s| && list.currentItem == s[list.cursor]
    requires Chained(s + t) && Distinct(s + t)
    requires forall i {:trigger s[i].owner} :: 0 <= i < |s| ==> s[i].owner == list
    modifies t`owner
    ensures list.Valid()
  {
    hide Chained, Distinct;
    ghost var u := s + t;
    NextInChain(u, |s| - 1);
    assert u[|s| - 1] == last && u[|s|..] == t;
    TailIsNew(s, t);
    Adopt(list, u, |s|, last.next);
    forall i | 0 <= i < |u|
      ensures u[i].owner == list
    {
      if i < |s| {
        assert u[i] == s[i] && s[i] !in t;
      }
    }
  }

  lemma TailIsNew<A>(s: seq<A>, t: seq<A>)
    requires Distinct(s + t)
    ensures forall i :: 0 <= i < |s| ==> s[i] !in t
  {
    forall i, j | 0 <= i < |s| && 0 <= j < |t|
      ensures s[i] != t[j]
    {
      assert (s + t)[i] != (s + t)[|s| + j];
    }
  }

  /** The target has items: those of the source are linked behind them. */
  method Concatenate<T(==)>(target: ControlNode<T>, source: ControlNode<T>)
    requires target.Valid() && source.Valid() && target != source && Disjoint(target.nodes, source.nodes)
    requires target.nodes != [] && source.nodes != [] && target.itemCount + source.itemCount <= MAX_COUNT
    modifies target, source, target.nodes`next, source.nodes`prev, source.nodes`owner
    ensures target.Valid() && source.Valid()
    ensures target.nodes == old(target.nodes) + old(source.nodes) && target.cursor == old(target.cursor)
    ensures source.nodes == []
  {
    ghost var s, t := target.nodes, source.nodes;
    var current := target.endOfList;
    JoinChains(s, t, current, source.startOfList);
    target.endOfList := source.endOfList;
    target.itemCount := target.itemCount + source.itemCount;
    source.startOfList := null;
    source.endOfList := null;
    source.currentItem := null;
    source.itemCount := 0;
    source.nodes, source.cursor := [], -1;
    target.nodes := s + t;
    AdoptTail(target, s, t, current);
  }

  /** Node for node the same data and tags. */
  ghost predicate SameItems<T>(s: seq<LinkNode<T>>, t: seq<LinkNode<T>>)
    reads s`data, s`tag, t`data, t`tag
  {
    |s| == |t| && forall i :: 0 <= i < |s| ==> s[i].data == t[i].data && s[i].tag == t[i].tag
  }

  ghost predicate AllSucceed(mallocs: nat -> bool, n: nat) {
    forall k: nat :: k < n ==> mallocs(k)
  }

  /** A list made of new nodes only. */
  ghost predicate NewList<T>(list: ControlNode<T>, nodes: set<LinkNode<T>>)
    reads list, list.nodes`next, list.nodes`prev, list.nodes`owner
  {
    list.Valid() && forall i :: 0 <= i < |list.nodes| ==> list.nodes[i] in nodes
  }

  /** The temporary list holds copies of the first k items, unless the memory ran out. */
  ghost predicate CopiedUpTo<T>(temp: ControlNode<T>, items: seq<LinkNode<T>>, k: nat, mallocs: nat -> bool, rc: int)
    requires k <= |items|
    reads temp, temp.nodes`data, temp.nodes`tag, items`data, items`tag
  {
    && rc == (if AllSucceed(mallocs, k) then SUCCESS else OUT_OF_MEMORY)
    && (rc == SUCCESS ==> SameItems(temp.nodes, items[..k]))
  }

  /** Append a copy of one item to the temporary list. */
  method CopyItem<T(==)>(temp: ControlNode<T>, node: LinkNode<T>, ghost items: seq<LinkNode<T>>, ghost k: nat,
                         ghost mallocs: nat -> bool, mallocOk: bool, ghost new0: set<LinkNode<T>>)
    returns (rc: int, ghost next: nat, ghost new1: set<LinkNode<T>>)
    requires NewList(temp, new0) && k < |items| && node == items[k] && k < MAX_COUNT
    requires CopiedUpTo(temp, items, k, mallocs, SUCCESS) && mallocOk == mallocs(k)
    requires forall i :: 0 <= i < |items| ==> items[i] !in new0
    modifies temp, new0
    ensures next == k + 1 && new0 <= new1 && fresh(new1 - new0) && NewList(temp, new1)
    ensures CopiedUpTo(temp, items, next, mallocs, rc)
  {
    var handle;
    rc, handle := InsertObject(temp, node.data, node.tag, null, AppendToList, false, mallocOk);
    next := k + 1;
    new1 := new0 + if handle == null then {} else {handle};
    assert items[..next] == items[..k] + [items[k]];
  }

  /** A copy of every item of the source in new nodes; or failure, when an allocation fails. */
  method BuildCopy<T(==)>(source: ControlNode<T>, mallocs: nat -> bool)
    returns (rc: int, temp: ControlNode<T>, ghost new1: set<LinkNode<T>>)
    requires source.Valid()
    ensures fresh(temp) && fresh(new1) && NewList(temp, new1)
    ensures CopiedUpTo(temp, source.nodes, |source.nodes|, mallocs, rc)
  {
    hide Chained, Distinct, SameItems, AllSucceed, NewList, CopiedUpTo;
    temp := new ControlNode<T>();
    new1 := {};
    rc := SUCCESS;
    var node := source.startOfList;
    ghost var nodes, k: nat := source.nodes, 0;
    var count: nat := 0;
    CopyStarts(temp, nodes, mallocs);
    while rc == SUCCESS && node != null
      invariant source.Valid() && source.nodes == nodes && fresh(temp) && fresh(new1) && NewList(temp, new1)
      invariant k == count <= |nodes| && CopiedUpTo(temp, nodes, k, mallocs, rc)
      invariant node == At(nodes, k)
      decreases |nodes| - count
    {
      NextInChain(nodes, k);
      rc, k, new1 := CopyItem(temp, node, nodes, k, mallocs, mallocs(count), new1);
      node := node.next;
      count := count + 1;
    }
    CopyEnds(temp, nodes, k, mallocs, rc);
  }

  lemma CopyEnds<T>(temp: ControlNode<T>, items: seq<LinkNode<T>>, k: nat, mallocs: nat -> bool, rc: int)
    requires k <= |items| && CopiedUpTo(temp, items, k, mallocs, rc) && (rc == SUCCESS ==> k == |items|)
    ensures CopiedUpTo(temp, items, |items|, mallocs, rc)
  {
  }

  lemma CopyStarts<T>(temp: ControlNode<T>, items: seq<LinkNode<T>>, mallocs: nat -> bool)
    requires temp.Valid() && temp.nodes == []
    ensures NewList(temp, {}) && CopiedUpTo(temp, items, 0, mallocs, SUCCESS)
  {
  }

  /** Where the copies go: relative to the current item of the target, whatever the handle of an insertion would be. */
  function CopyPoint(mode: InsertionMode, cursor: int, size: nat): nat
    requires !mode.OtherMode? && (size > 0 ==> 0 <= cursor < size)
  {
    if size == 0 then 0 else InsertionPoint(mode, cursor, size)
  }

  /**
   * Where the copies go in a list with items: to either end, or right in front of or right behind the current item, which
   * stays current.
   */
  lemma CopiedWhere<A>(s: seq<A>, cursor: int, mode: InsertionMode, t: seq<A>)
    requires !mode.OtherMode? && 0 <= cursor < |s|
    ensures CopyPoint(mode, cursor, |s|) <= |s|
    ensures var u := Spliced(s, CopyPoint(mode, cursor, |s|), t);
            && (mode == InsertAtStart ==> u == t + s)
            && (mode == AppendToList ==> u == s + t)
            && (mode == InsertBefore ==> u == s[..cursor] + t + [s[cursor]] + s[cursor + 1..])
            && (mode == InsertAfter ==> u == s[..cursor] + [s[cursor]] + t + s[cursor + 1..])
            && var c := CursorAfterInsert(cursor, CopyPoint(mode, cursor, |s|), |t|); 0 <= c < |u| && u[c] == s[cursor]
  {
  }

  /** Link the chain t between the neighbours left and right, which stand at positions p - 1 and p of the chain s. */
  method LinkChain<T(==)>(ghost s: seq<LinkNode<T>>, ghost p: nat, ghost t: seq<LinkNode<T>>, first: LinkNode<T>,
                          last: LinkNode<T>, left: LinkNode?<T>, right: LinkNode?<T>)
    requires p <= |s| && t != [] && first == t[0] && last == t[|t| - 1]
    requires left == At(s, p - 1) && right == At(s, p)
    requires Chained(s) && Chained(t) && Distinct(s) && Distinct(t) && Disjoint(s, t)
    modifies s`next, s`prev, first`prev, last`next
    ensures Chained(Spliced(s, p, t)) && Distinct(Spliced(s, p, t))
  {
    if left != null {
      first.prev := left;
      left.next := first;
    }
    if right != null {
      last.next := right;
      right.prev := last;
    }
    ChainedSplice(s, p, t);
  }

  /** Counting the linked chain completes the copy. */
  ghost method CountSpliced<T>(list: ControlNode<T>, p: nat, t: seq<LinkNode<T>>)
    requires p <= |list.nodes| && t != [] && |list.nodes| + |t| == list.itemCount <= MAX_COUNT
    requires forall i {:trigger list.nodes[i].owner} :: 0 <= i < |list.nodes| ==> list.nodes[i].owner == list
    requires forall i {:trigger t[i].owner} :: 0 <= i < |t| ==> t[i].owner == list
    requires list.startOfList == if p == 0 then t[0] else At(list.nodes, 0)
    requires list.endOfList == if p == |list.nodes| then t[|t| - 1] else At(list.nodes, |list.nodes| - 1)
    requires if list.nodes == [] then list.cursor == -1 && list.currentItem == t[0]
             else 0 <= list.cursor < |list.nodes| && list.currentItem == list.nodes[list.cursor]
    requires Chained(Spliced(list.nodes, p, t)) && Distinct(Spliced(list.nodes, p, t))
    modifies list`nodes, list`cursor
    ensures list.Valid() && list.nodes == Spliced(old(list.nodes), p, t)
    ensures list.cursor == CursorAfterInsert(old(list.cursor), p, |t|)
  {
    hide Chained, Distinct;
    list.nodes, list.cursor := Spliced(list.nodes, p, t), CursorAfterInsert(list.cursor, p, |t|);
  }

  lemma CurrentIsEnd<T>(list: ControlNode<T>)
    requires list.Valid() && list.nodes != []
    ensures list.currentItem == list.startOfList <==> list.cursor == 0
    ensures list.currentItem == list.endOfList <==> list.cursor == |list.nodes| - 1
  {
  }

  /** The target has items: the copies are linked in at the place the mode dictates. */
  method SpliceLinks<T(==)>(target: ControlNode<T>, temp: ControlNode<T>, mode: InsertionMode, ghost p: nat)
    requires target.Valid() && temp.nodes != [] && Chained(temp.nodes) && Distinct(temp.nodes)
    requires temp.startOfList == temp.nodes[0] && temp.endOfList == temp.nodes[|temp.nodes| - 1]
    requires target != temp && target.nodes != [] && !mode.OtherMode? && Disjoint(target.nodes, temp.nodes)
    requires p == InsertionPoint(mode, target.cursor, |target.nodes|)
    modifies target`startOfList, target`endOfList, target.nodes`next, target.nodes`prev, temp.nodes`next, temp.nodes`prev
    ensures p <= |target.nodes|
    ensures Chained(Spliced(target.nodes, p, temp.nodes)) && Distinct(Spliced(target.nodes, p, temp.nodes))
    ensures target.startOfList == if p == 0 then temp.nodes[0] else target.nodes[0]
    ensures target.endOfList == if p == |target.nodes| then temp.nodes[|temp.nodes| - 1] else target.nodes[|target.nodes| - 1]
  {
    hide Chained, Distinct;
    CurrentIsEnd(target);
    ghost var s, t := target.nodes, temp.nodes;
    if mode == InsertAtStart || (mode == InsertBefore && target.currentItem == target.startOfList) {
      LinkChain(s, p, t, temp.startOfList, temp.endOfList, null, target.startOfList);
      target.startOfList := temp.startOfList;
    } else if mode == InsertBefore {
      PrevInChain(s, p);
      LinkChain(s, p, t, temp.startOfList, temp.endOfList, target.currentItem.prev, target.currentItem);
    } else if mode == AppendToList || (mode == InsertAfter && target.currentItem == target.endOfList) {
      LinkChain(s, p, t, temp.startOfList, temp.endOfList, target.endOfList, null);
      target.endOfList := temp.endOfList;
    } else {
      NextInChain(s, p - 1);
      LinkChain(s, p, t, temp.startOfList, temp.endOfList, target.currentItem, target.currentItem.next);
    }
  }

  /** The copies, a complete list of their own so far, become part of the target. */
  method SpliceCopy<T(==)>(target: ControlNode<T>, temp: ControlNode<T>, mode: InsertionMode)
    requires target.Valid() && temp.Valid() && target != temp && temp.nodes != [] && !mode.OtherMode?
    requires target.itemCount + temp.itemCount <= MAX_COUNT && Disjoint(target.nodes, temp.nodes)
    modifies target, target.nodes`next, target.nodes`prev, temp.nodes`next, temp.nodes`prev, temp.nodes`owner
    ensures target.Valid()
    ensures var p := CopyPoint(mode, old(target.cursor), |old(target.nodes)|);
            && target.nodes == Spliced(old(target.nodes), p, temp.nodes)
            && target.cursor == CursorAfterInsert(old(target.cursor), p, |temp.nodes|)
  {
    hide Chained, Distinct;
    ghost var t, p := temp.nodes, CopyPoint(mode, target.cursor, |target.nodes|);
    assert t[0..] == t;
    Adopt(target, t, 0, temp.startOfList);
    if target.currentItem == null {
      target.startOfList := temp.startOfList;
      target.endOfList := temp.endOfList;
      target.currentItem := temp.startOfList;
      assert Spliced(target.nodes, p, t) == t;
    } else {
      SpliceLinks(target, temp, mode, p);
    }
    target.itemCount := target.itemCount + temp.itemCount;
    CountSpliced(target, p, t);
  }

  /**
   * All or nothing, also when source and target are the same list: either the target is its old self, or its old
   * sequence with new nodes for the items of the source at the place the mode dictates.
   */
  method CopyList<T(==)>(target: ControlNode<T>, source: ControlNode<T>, mode: InsertionMode, mallocs: nat -> bool)
    returns (rc: int, ghost copy: seq<LinkNode<T>>)
    requires target.Valid() && source.Valid()
    requires target.itemCount + source.itemCount <= MAX_COUNT
    modifies target, target.nodes`next, target.nodes`prev
    ensures target.Valid()
    ensures rc == (if old(source.nodes) == [] then SUCCESS
                   else if mode.OtherMode? then INVALID_INSERTION_MODE
                   else if AllSucceed(mallocs, |old(source.nodes)|) then SUCCESS else OUT_OF_MEMORY)
    ensures rc != SUCCESS || old(source.nodes) == [] ==>
              unchanged(target) && unchanged(old(target.nodes)) && copy == []
    ensures rc == SUCCESS && old(source.nodes) != [] ==>
              var p := CopyPoint(mode, old(target.cursor), |old(target.nodes)|);
              && SameItems(copy, old(source.nodes)) && (forall i :: 0 <= i < |copy| ==> fresh(copy[i]))
              && target.nodes == Spliced(old(target.nodes), p, copy)
              && target.cursor == CursorAfterInsert(old(target.cursor), p, |copy|)
  {
    copy := [];
    if source.itemCount == 0 {
      return SUCCESS, copy;
    }
    if mode.OtherMode? {
      return INVALID_INSERTION_MODE, copy;
    }
    hide Chained, Distinct;
    var temp;
    ghost var new1;
    rc, temp, new1 := BuildCopy(source, mallocs);
    if rc != SUCCESS {
      var _ := DeleteAllItems(temp);
      return rc, copy;
    }
    copy := temp.nodes;
    SpliceCopy(target, temp, mode);
  }
}
