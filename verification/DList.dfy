/** The generic doubly linked list: records, representation invariant and basic operations. */
module DList {

  const SUCCESS: int := 0
  const OUT_OF_MEMORY: int := 12
  const EMPTY: int := 204
  const ITEM_TAG_WRONG: int := 208
  const END_OF_LIST: int := 209
  const ALREADY_AT_START: int := 210
  const BAD_HANDLE: int := 211
  const INVALID_INSERTION_MODE: int := 212
  const OBJECT_NOT_FOUND: int := 213
  const SEARCH_COMPLETE: int := 0xFF

  /** The largest value of the 32-bit unsigned field ItemCount. */
  const MAX_COUNT: nat := 0xFFFF_FFFF

  type Tag = int

  datatype Option<+A> = None | Some(value: A)

  /** The C enumeration is passed unchecked, so a caller can hand over any other number. */
  datatype InsertionMode = InsertAtStart | InsertBefore | InsertAfter | AppendToList | OtherMode(code: int)

  class LinkNode<T(==)> {
    var data: T
    var tag: Tag
    var owner: ControlNode?<T>
    var next: LinkNode?<T>
    var prev: LinkNode?<T>

    constructor (data: T, tag: Tag, owner: ControlNode<T>)
      ensures this.data == data && this.tag == tag && this.owner == owner
      ensures next == null && prev == null
    {
      this.data, this.tag, this.owner := data, tag, owner;
      next, prev := null, null;
    }
  }

  ghost function At<T>(s: seq<LinkNode<T>>, i: int): LinkNode?<T> {
    if 0 <= i < |s| then s[i] else null
  }

  /** Neighbouring nodes point at each other and the outer ends are null. */
  ghost predicate Chained<T>(s: seq<LinkNode<T>>)
    reads s`next, s`prev
  {
    && (forall i {:trigger s[i].next} :: 0 <= i < |s| ==> s[i].next == At(s, i + 1))
    && (forall i {:trigger s[i].prev} :: 0 <= i < |s| ==> s[i].prev == At(s, i - 1))
  }

  ghost predicate Distinct<A>(s: seq<A>) {
    forall i, j :: 0 <= i < j < |s| ==> s[i] != s[j]
  }

  lemma NextInChain<T>(s: seq<LinkNode<T>>, i: nat)
    requires Chained(s) && i < |s|
    ensures s[i].next == At(s, i + 1)
  {
  }

  lemma PrevInChain<T>(s: seq<LinkNode<T>>, i: nat)
    requires Chained(s) && i < |s|
    ensures s[i].prev == At(s, i - 1)
  {
  }

  class ControlNode<T(==)> {
    var itemCount: nat
    var startOfList: LinkNode?<T>
    var endOfList: LinkNode?<T>
    var currentItem: LinkNode?<T>

    // The sequence of link nodes the chain spells out, and the position of the current item in it.
    ghost var nodes: seq<LinkNode<T>>
    ghost var cursor: int

    ghost predicate Valid()
      reads this, nodes`next, nodes`prev, nodes`owner
    {
      && itemCount == |nodes| <= MAX_COUNT
      && startOfList == At(nodes, 0)
      && endOfList == At(nodes, |nodes| - 1)
      && currentItem == At(nodes, cursor)
      && (if nodes == [] then cursor == -1 else 0 <= cursor < |nodes|)
      && Distinct(nodes)
      && Chained(nodes)
      && forall i {:trigger nodes[i].owner} :: 0 <= i < |nodes| ==> nodes[i].owner == this
    }

    constructor ()
      ensures Valid() && nodes == []
    {
      itemCount := 0;
      startOfList, endOfList, currentItem := null, null, null;
      nodes, cursor := [], -1;
    }
  }

  /** What the nodes hold: data and tags. */
  ghost function Items<T>(nodes: seq<LinkNode<T>>): (items: seq<(T, Tag)>)
    reads nodes`data, nodes`tag
    ensures |items| == |nodes|
  {
    if nodes == [] then []
    else Items(nodes[..|nodes| - 1]) + [(nodes[|nodes| - 1].data, nodes[|nodes| - 1].tag)]
  }

  lemma {:induction false} ItemAt<T>(nodes: seq<LinkNode<T>>, i: nat)
    requires i < |nodes|
    ensures Items(nodes)[i] == (nodes[i].data, nodes[i].tag)
  {
    var n := |nodes| - 1;
    if i < n {
      ItemAt(nodes[..n], i);
    }
  }

  lemma ItemsAre<T>(nodes: seq<LinkNode<T>>)
    ensures forall i :: 0 <= i < |nodes| ==> Items(nodes)[i] == (nodes[i].data, nodes[i].tag)
  {
    forall i | 0 <= i < |nodes|
      ensures Items(nodes)[i] == (nodes[i].data, nodes[i].tag)
    {
      ItemAt(nodes, i);
    }
  }

  function InsertAt<A>(s: seq<A>, p: nat, x: A): seq<A>
    requires p <= |s|
  {
    s[..p] + [x] + s[p..]
  }

  function RemoveAt<A>(s: seq<A>, p: nat): seq<A>
    requires p < |s|
  {
    s[..p] + s[p + 1..]
  }

  ghost function IndexOf<A>(s: seq<A>, x: A): (i: nat)
    requires x in s
    ensures i < |s| && s[i] == x
  {
    var i :| 0 <= i < |s| && s[i] == x; i
  }

  /** Where a new node goes, given the position of the reference item. */
  function InsertionPoint(mode: InsertionMode, reference: nat, size: nat): nat
    requires !mode.OtherMode?
  {
    match mode
    case InsertAtStart => 0
    case InsertBefore => reference
    case InsertAfter => reference + 1
    case AppendToList => size
  }

  /** The current item after something was inserted at p: it stays on the same node. */
  function CursorAfterInsert(cursor: int, p: nat, width: nat): int {
    if cursor < 0 then 0 else if p <= cursor then cursor + width else cursor
  }

  /** What an insertion of x does to a list: reference is the position of the item it is placed relative to. */
  ghost predicate Inserted<A>(nodes0: seq<A>, cursor0: int, reference: int, mode: InsertionMode, makeCurrent: bool,
                              x: A, nodes1: seq<A>, cursor1: int)
  {
    if nodes0 == [] then nodes1 == [x] && cursor1 == 0
    else
      && !mode.OtherMode? && 0 <= reference < |nodes0|
      && var p := InsertionPoint(mode, reference, |nodes0|);
         && nodes1 == InsertAt(nodes0, p, x)
         && cursor1 == if makeCurrent then p else CursorAfterInsert(cursor0, p, 1)
  }

  /** The current item after position p was removed: the successor, else the predecessor, else none. */
  function CursorAfterRemove(cursor: int, p: nat, size: nat): int {
    if p < cursor || (p == cursor && p == size - 1) then cursor - 1 else cursor
  }

  /**
   * Where an insertion into a list with items puts the new one: at either end, or right in front of or right behind the
   * reference item; nothing else changes. The current item is the new one or stays what it was.
   */
  lemma InsertedWhere<A>(nodes0: seq<A>, cursor0: int, reference: int, mode: InsertionMode, makeCurrent: bool, x: A,
                         nodes1: seq<A>, cursor1: int)
    requires nodes0 != [] && 0 <= cursor0 < |nodes0|
    requires Inserted(nodes0, cursor0, reference, mode, makeCurrent, x, nodes1, cursor1)
    ensures mode == InsertAtStart ==> nodes1 == [x] + nodes0
    ensures mode == AppendToList ==> nodes1 == nodes0 + [x]
    ensures mode == InsertBefore ==> nodes1 == nodes0[..reference] + [x, nodes0[reference]] + nodes0[reference + 1..]
    ensures mode == InsertAfter ==> nodes1 == nodes0[..reference] + [nodes0[reference], x] + nodes0[reference + 1..]
    ensures 0 <= cursor1 < |nodes1| && nodes1[cursor1] == if makeCurrent then x else nodes0[cursor0]
  {
  }

  /** Where a removal leaves the current item: on its node, else on the one behind it, else on the one in front of it. */
  lemma RemovedWhere<A>(s: seq<A>, cursor: int, p: nat)
    requires p < |s| && 0 <= cursor < |s|
    ensures var c, t := CursorAfterRemove(cursor, p, |s|), RemoveAt(s, p);
            if |s| == 1 then c == -1
            else
              && 0 <= c < |t|
              && t[c] == if cursor != p then s[cursor] else if p + 1 < |s| then s[p + 1] else s[p - 1]
  {
  }

  /** A chain s into which x was linked between positions p - 1 and p is the chain of the longer sequence. */
  lemma ChainedInsert<T>(s: seq<LinkNode<T>>, p: nat, x: LinkNode<T>)
    requires p <= |s| && Distinct(s) && x !in s
    requires x.next == At(s, p) && x.prev == At(s, p - 1)
    requires forall i {:trigger s[i].next} :: 0 <= i < |s| ==> s[i].next == if i == p - 1 then x else At(s, i + 1)
    requires forall i {:trigger s[i].prev} :: 0 <= i < |s| ==> s[i].prev == if i == p then x else At(s, i - 1)
    ensures Chained(InsertAt(s, p, x)) && Distinct(InsertAt(s, p, x))
  {
    var t := InsertAt(s, p, x);
    forall i | 0 <= i < |t|
      ensures t[i].next == At(t, i + 1) && t[i].prev == At(t, i - 1)
    {
      if i != p {
        var k := if i < p then i else i - 1;
        assert t[i] == s[k];
        assert s[k].next == if k == p - 1 then x else At(s, k + 1);
      }
    }
  }

  /** Counting a freshly linked node completes the insertion. */
  ghost method CountInserted<T>(list: ControlNode<T>, p: nat, x: LinkNode<T>)
    requires p <= |list.nodes| && x.owner == list
    requires forall i {:trigger list.nodes[i].owner} :: 0 <= i < |list.nodes| ==> list.nodes[i].owner == list
    requires list.itemCount == |list.nodes| + 1 <= MAX_COUNT
    requires list.startOfList == if p == 0 then x else At(list.nodes, 0)
    requires list.endOfList == if p == |list.nodes| then x else At(list.nodes, |list.nodes| - 1)
    requires list.nodes != [] && 0 <= list.cursor < |list.nodes| && list.currentItem == list.nodes[list.cursor]
    requires Chained(InsertAt(list.nodes, p, x)) && Distinct(InsertAt(list.nodes, p, x))
    modifies list`nodes, list`cursor
    ensures list.Valid() && list.nodes == InsertAt(old(list.nodes), p, x)
    ensures list.cursor == CursorAfterInsert(old(list.cursor), p, 1)
  {
    list.nodes, list.cursor := InsertAt(list.nodes, p, x), CursorAfterInsert(list.cursor, p, 1);
  }

  /** The InsertAtStart and InsertBefore branches: node goes in front of the item at position p. */
  method LinkBefore<T(==)>(list: ControlNode<T>, ghost p: nat, current: LinkNode<T>, node: LinkNode<T>)
    requires list.Valid() && list.itemCount < MAX_COUNT && p < |list.nodes| && current == list.nodes[p]
    requires node !in list.nodes && node.next == null && node.prev == null && node.owner == list
    modifies list, list.nodes`next, list.nodes`prev, node`next, node`prev
    ensures list.Valid() && list.nodes == InsertAt(old(list.nodes), p, node)
    ensures list.cursor == CursorAfterInsert(old(list.cursor), p, 1)
  {
    if list.startOfList != current {
      var previous := current.prev;
      previous.next := node;
      node.prev := previous;
    } else {
      list.startOfList := node;
    }
    node.next := current;
    current.prev := node;
    list.itemCount := list.itemCount + 1;
    ChainedInsert(list.nodes, p, node);
    CountInserted(list, p, node);
  }

  /** The InsertAfter and AppendToList branches: node goes behind the item at position p. */
  method LinkAfter<T(==)>(list: ControlNode<T>, ghost p: nat, current: LinkNode<T>, node: LinkNode<T>)
    requires list.Valid() && list.itemCount < MAX_COUNT && p < |list.nodes| && current == list.nodes[p]
    requires node !in list.nodes && node.next == null && node.prev == null && node.owner == list
    modifies list, list.nodes`next, list.nodes`prev, node`next, node`prev
    ensures list.Valid() && list.nodes == InsertAt(old(list.nodes), p + 1, node)
    ensures list.cursor == CursorAfterInsert(old(list.cursor), p + 1, 1)
  {
    NextInChain(list.nodes, p);
    assert list.endOfList != current <==> p + 1 < |list.nodes|;
    if list.endOfList != current {
      var following := current.next;
      following.prev := node;
      node.next := following;
    } else {
      list.endOfList := node;
    }
    current.next := node;
    node.prev := current;
    list.itemCount := list.itemCount + 1;
    ChainedInsert(list.nodes, p + 1, node);
    CountInserted(list, p + 1, node);
  }

  /** The item an operation refers to: the given one, or the current item when none is given. */
  ghost function Reference<T>(list: ControlNode<T>, target: LinkNode?<T>): int
    reads list
  {
    if target != null && target in list.nodes then IndexOf(list.nodes, target) else list.cursor
  }

  /** The switch over the insertion modes of a list that has items; reference is the item current stands at. */
  method LinkByMode<T(==)>(list: ControlNode<T>, ghost reference: nat, current: LinkNode<T>, mode: InsertionMode,
                           node: LinkNode<T>)
    requires list.Valid() && list.itemCount < MAX_COUNT && list.nodes != [] && !mode.OtherMode?
    requires mode.InsertBefore? || mode.InsertAfter? ==> reference < |list.nodes| && current == list.nodes[reference]
    requires node !in list.nodes && node.next == null && node.prev == null && node.owner == list
    modifies list, list.nodes`next, list.nodes`prev, node`next, node`prev
    ensures list.Valid() && InsertionPoint(mode, reference, |old(list.nodes)|) <= |old(list.nodes)|
    ensures list.nodes == InsertAt(old(list.nodes), InsertionPoint(mode, reference, |old(list.nodes)|), node)
    ensures list.cursor == CursorAfterInsert(old(list.cursor), InsertionPoint(mode, reference, |old(list.nodes)|), 1)
  {
    match mode
    case InsertAtStart =>
      LinkBefore(list, 0, list.startOfList, node);
    case InsertBefore =>
      LinkBefore(list, reference, current, node);
    case InsertAfter =>
      LinkAfter(list, reference, current, node);
    case AppendToList =>
      LinkAfter(list, |list.nodes| - 1, list.endOfList, node);
  }

  method MakeCurrent<T(==)>(list: ControlNode<T>, node: LinkNode<T>, ghost p: nat)
    requires list.Valid() && p < |list.nodes| && list.nodes[p] == node
    modifies list`currentItem, list`cursor
    ensures list.Valid() && list.cursor == p
  {
    list.currentItem, list.cursor := node, p;
  }

  /** The first item of an empty list becomes its first, last and current item. */
  method LinkFirst<T(==)>(list: ControlNode<T>, node: LinkNode<T>)
    requires list.Valid() && list.nodes == [] && node.next == null && node.prev == null && node.owner == list
    modifies list
    ensures list.Valid() && list.nodes == [node] && list.cursor == 0
  {
    list.endOfList := node;
    list.startOfList := node;
    list.currentItem := node;
    list.itemCount := list.itemCount + 1;
    list.nodes, list.cursor := [node], 0;
  }

  method InsertObject<T(==)>(list: ControlNode<T>, item: T, tag: Tag, target: LinkNode?<T>, mode: InsertionMode,
                             makeCurrent: bool, mallocOk: bool)
    returns (rc: int, handle: LinkNode?<T>)
    requires list.Valid() && list.itemCount < MAX_COUNT
    requires target != null && list.nodes != [] && (mode.InsertBefore? || mode.InsertAfter?) ==> target in list.nodes
    modifies list, list.nodes`next, list.nodes`prev
    ensures list.Valid()
    ensures rc == (if !mallocOk then OUT_OF_MEMORY
                   else if old(list.nodes) != [] && mode.OtherMode? then INVALID_INSERTION_MODE
                   else SUCCESS)
    ensures rc != SUCCESS ==> handle == null && list.nodes == old(list.nodes) && list.cursor == old(list.cursor)
    ensures rc == SUCCESS ==>
              && handle != null && fresh(handle)
              && handle.data == item && handle.tag == tag
              && Inserted(old(list.nodes), old(list.cursor), old(Reference(list, target)), mode, makeCurrent,
                          handle, list.nodes, list.cursor)
  {
    handle := null;
    var current := if target != null then target else list.currentItem;
    if !mallocOk {
      return OUT_OF_MEMORY, null;
    }
    var node := new LinkNode<T>(item, tag, list);
    ghost var nodes, r, p := list.nodes, Reference(list, target), 0;
    if list.currentItem == null {
      LinkFirst(list, node);
    } else if mode.OtherMode? {
      node.owner := null;
      return INVALID_INSERTION_MODE, null;
    } else {
      LinkByMode(list, r, current, mode, node);
      p := InsertionPoint(mode, r, |nodes|);
    }
    if makeCurrent {
      MakeCurrent(list, node, p);
    }
    return SUCCESS, node;
  }

  /** A chain s out of which position p was unlinked is the chain of the shorter sequence. */
  lemma ChainedRemove<T>(s: seq<LinkNode<T>>, p: nat)
    requires p < |s| && Distinct(s)
    requires forall i {:trigger s[i].next} ::
               0 <= i < |s| && i != p ==> s[i].next == At(s, if i == p - 1 then p + 1 else i + 1)
    requires forall i {:trigger s[i].prev} ::
               0 <= i < |s| && i != p ==> s[i].prev == At(s, if i == p + 1 then p - 1 else i - 1)
    ensures Chained(RemoveAt(s, p)) && Distinct(RemoveAt(s, p))
  {
    var t := RemoveAt(s, p);
    forall i | 0 <= i < |t|
      ensures t[i].next == At(t, i + 1) && t[i].prev == At(t, i - 1)
    {
      assert t[i] == s[if i < p then i else i + 1];
    }
  }

  /** Discounting the unlinked item at position p completes a removal. */
  ghost method CountRemoved<T>(list: ControlNode<T>, p: nat)
    requires p < |list.nodes| && list.itemCount == |list.nodes| - 1 < MAX_COUNT
    requires forall i {:trigger list.nodes[i].owner} :: 0 <= i < |list.nodes| && i != p ==> list.nodes[i].owner == list
    requires list.startOfList == At(list.nodes, if p == 0 then 1 else 0)
    requires list.endOfList == At(list.nodes, if p == |list.nodes| - 1 then p - 1 else |list.nodes| - 1)
    requires 0 <= list.cursor < |list.nodes|
    requires list.currentItem == if list.cursor == p then At(list.nodes, if p == |list.nodes| - 1 then p - 1 else p + 1)
                                 else list.nodes[list.cursor]
    requires Chained(RemoveAt(list.nodes, p)) && Distinct(RemoveAt(list.nodes, p))
    modifies list`nodes, list`cursor
    ensures list.Valid() && list.nodes == RemoveAt(old(list.nodes), p)
    ensures list.cursor == CursorAfterRemove(old(list.cursor), p, |old(list.nodes)|)
  {
    list.cursor := CursorAfterRemove(list.cursor, p, |list.nodes|);
    list.nodes := RemoveAt(list.nodes, p);
  }

  /** The neighbours of the node at position p are linked to each other. */
  method Bypass<T(==)>(ghost nodes: seq<LinkNode<T>>, ghost p: nat, previous: LinkNode?<T>, following: LinkNode?<T>)
    requires p < |nodes| && Distinct(nodes) && Chained(nodes)
    requires previous == At(nodes, p - 1) && following == At(nodes, p + 1)
    modifies nodes`next, nodes`prev
    ensures Chained(RemoveAt(nodes, p)) && Distinct(RemoveAt(nodes, p))
  {
    if previous != null {
      previous.next := following;
    }
    if following != null {
      following.prev := previous;
    }
    ChainedRemove(nodes, p);
  }

  /** The bypassed node gives up its places as first, last and current item. */
  method GiveUpPlaces<T(==)>(list: ControlNode<T>, ghost p: nat, node: LinkNode<T>, previous: LinkNode?<T>,
                             following: LinkNode?<T>)
    requires p < |list.nodes| && list.nodes[p] == node && Distinct(list.nodes)
    requires previous == At(list.nodes, p - 1) && following == At(list.nodes, p + 1)
    requires list.startOfList == list.nodes[0] && list.endOfList == list.nodes[|list.nodes| - 1]
    requires 0 <= list.cursor < |list.nodes| && list.currentItem == list.nodes[list.cursor]
    modifies list`startOfList, list`endOfList, list`currentItem
    ensures list.startOfList == At(list.nodes, if p == 0 then 1 else 0)
    ensures list.endOfList == At(list.nodes, if p == |list.nodes| - 1 then p - 1 else |list.nodes| - 1)
    ensures list.currentItem == if list.cursor == p then At(list.nodes, if p == |list.nodes| - 1 then p - 1 else p + 1)
                                else list.nodes[list.cursor]
  {
    if list.startOfList == node {
      list.startOfList := following;
    }
    if list.endOfList == node {
      list.endOfList := previous;
    }
    if list.currentItem == node {
      if following != null {
        list.currentItem := following;
      } else if previous != null {
        list.currentItem := previous;
      } else {
        list.currentItem := null;
      }
    }
  }

  /** The part ExtractObject and BlindExtractObject share: take a node out of its list and release it. */
  method Unlink<T(==)>(list: ControlNode<T>, ghost p: nat, node: LinkNode<T>)
    requires list.Valid() && p < |list.nodes| && list.nodes[p] == node
    modifies list, list.nodes`next, list.nodes`prev, node`owner
    ensures list.Valid() && list.nodes == RemoveAt(old(list.nodes), p) && node.owner == null
    ensures list.cursor == CursorAfterRemove(old(list.cursor), p, |old(list.nodes)|)
  {
    NextInChain(list.nodes, p);
    PrevInChain(list.nodes, p);
    OwnedOnce(list, p);
    hide Chained, Distinct;
    var following, previous := node.next, node.prev;
    Bypass(list.nodes, p, previous, following);
    GiveUpPlaces(list, p, node, previous, following);
    list.itemCount := list.itemCount - 1;
    node.owner := null;
    CountRemoved(list, p);
  }

  lemma OwnedOnce<T>(list: ControlNode<T>, p: nat)
    requires list.Valid() && p < |list.nodes|
    ensures forall i {:trigger list.nodes[i]} :: 0 <= i < |list.nodes| && i != p ==> list.nodes[i] != list.nodes[p]
  {
  }

  /** A handle says it belongs to this list exactly when it does; holds of every node the module ever made. */
  ghost predicate Truthful<T>(list: ControlNode<T>, handle: LinkNode?<T>)
    reads list, handle
  {
    handle != null ==> (handle.owner == list <==> handle in list.nodes)
  }

  /** The outcome of looking up a handle, where null stands for the current item. */
  ghost function LookupCode<T>(list: ControlNode<T>, handle: LinkNode?<T>): int
    reads list
  {
    if list.nodes == [] then EMPTY else if handle != null && handle !in list.nodes then BAD_HANDLE else SUCCESS
  }

  ghost function TaggedLookupCode<T>(list: ControlNode<T>, handle: LinkNode?<T>, tag: Tag): int
    requires list.Valid()
    reads list, list.nodes
  {
    if LookupCode(list, handle) != SUCCESS then LookupCode(list, handle)
    else if list.nodes[Reference(list, handle)].tag != tag then ITEM_TAG_WRONG else SUCCESS
  }

  method Lookup<T(==)>(list: ControlNode<T>, handle: LinkNode?<T>) returns (rc: int, node: LinkNode?<T>)
    requires list.Valid() && Truthful(list, handle)
    ensures rc == LookupCode(list, handle)
    ensures rc == SUCCESS ==> 0 <= Reference(list, handle) < |list.nodes| && node == list.nodes[Reference(list, handle)]
  {
    if list.itemCount == 0 {
      return EMPTY, null;
    }
    if handle != null {
      if handle.owner != list {
        return BAD_HANDLE, null;
      }
      return SUCCESS, handle;
    }
    return SUCCESS, list.currentItem;
  }

  method ExtractObject<T(==)>(list: ControlNode<T>, tag: Tag, handle: LinkNode?<T>)
    returns (rc: int, data: Option<T>)
    requires list.Valid() && Truthful(list, handle)
    modifies list, list.nodes`next, list.nodes`prev, list.nodes`owner
    ensures list.Valid() && rc == old(TaggedLookupCode(list, handle, tag))
    ensures rc != SUCCESS ==> data == None && list.nodes == old(list.nodes) && list.cursor == old(list.cursor)
    ensures rc == SUCCESS ==>
              var p := old(Reference(list, handle));
              && data == Some(old(list.nodes)[p].data) && old(list.nodes)[p].owner == null
              && list.nodes == RemoveAt(old(list.nodes), p)
              && list.cursor == CursorAfterRemove(old(list.cursor), p, |old(list.nodes)|)
  {
    var node;
    rc, node := Lookup(list, handle);
    if rc != SUCCESS {
      return rc, None;
    }
    if node.tag != tag {
      return ITEM_TAG_WRONG, None;
    }
    data := Some(node.data);
    Unlink(list, Reference(list, handle), node);
  }

  method BlindExtractObject<T(==)>(list: ControlNode<T>, handle: LinkNode?<T>, tag0: Tag)
    returns (rc: int, tag: Tag, data: Option<T>)
    requires list.Valid() && Truthful(list, handle)
    modifies list, list.nodes`next, list.nodes`prev, list.nodes`owner
    ensures list.Valid() && rc == old(LookupCode(list, handle))
    ensures rc != SUCCESS ==>
              tag == tag0 && data == None && list.nodes == old(list.nodes) && list.cursor == old(list.cursor)
    ensures rc == SUCCESS ==>
              var p := old(Reference(list, handle));
              && data == Some(old(list.nodes)[p].data) && tag == old(list.nodes)[p].tag && old(list.nodes)[p].owner == null
              && list.nodes == RemoveAt(old(list.nodes), p)
              && list.cursor == CursorAfterRemove(old(list.cursor), p, |old(list.nodes)|)
  {
    var node;
    rc, node := Lookup(list, handle);
    if rc != SUCCESS {
      return rc, tag0, None;
    }
    tag, data := node.tag, Some(node.data);
    Unlink(list, Reference(list, handle), node);
  }

  /** The first position that holds the given data, or the length when there is none. */
  ghost function FirstWith<T>(nodes: seq<LinkNode<T>>, item: T): (p: nat)
    reads nodes
    ensures p <= |nodes| && (p < |nodes| ==> nodes[p].data == item)
    ensures forall i :: 0 <= i < p ==> nodes[i].data != item
  {
    if nodes == [] then 0 else if nodes[0].data == item then 0 else 1 + FirstWith(nodes[1..], item)
  }

  method Find<T(==)>(list: ControlNode<T>, item: T) returns (node: LinkNode?<T>)
    requires list.Valid()
    ensures node == At(list.nodes, FirstWith(list.nodes, item))
  {
    ghost var i: nat := 0;
    node := list.startOfList;
    while node != null
      invariant i <= |list.nodes| && node == At(list.nodes, i)
      invariant forall k :: 0 <= k < i ==> list.nodes[k].data != item
      decreases |list.nodes| - i
    {
      if node.data == item {
        return;
      }
      node := node.next;
      i := i + 1;
    }
  }

  /** When the item is present already the handle variable of the caller is left alone. */
  method ExclusiveInsertObject<T(==)>(list: ControlNode<T>, item: T, tag: Tag, target: LinkNode?<T>,
                                      mode: InsertionMode, makeCurrent: bool, mallocOk: bool, handle0: LinkNode?<T>)
    returns (rc: int, handle: LinkNode?<T>)
    requires list.Valid() && list.itemCount < MAX_COUNT
    requires target != null && list.nodes != [] && (mode.InsertBefore? || mode.InsertAfter?) ==> target in list.nodes
    modifies list, list.nodes`next, list.nodes`prev
    ensures list.Valid()
    ensures old(FirstWith(list.nodes, item) < |list.nodes|) ==>
              rc == SUCCESS && handle == handle0 && list.nodes == old(list.nodes) && list.cursor == old(list.cursor)
    ensures old(FirstWith(list.nodes, item) == |list.nodes|) ==>
              && rc == (if !mallocOk then OUT_OF_MEMORY
                        else if old(list.nodes) != [] && mode.OtherMode? then INVALID_INSERTION_MODE else SUCCESS)
              && (rc != SUCCESS ==> handle == null && list.nodes == old(list.nodes) && list.cursor == old(list.cursor))
              && (rc == SUCCESS ==>
                    && handle != null && fresh(handle) && handle.data == item && handle.tag == tag
                    && Inserted(old(list.nodes), old(list.cursor), old(Reference(list, target)), mode, makeCurrent,
                                handle, list.nodes, list.cursor))
  {
    if list.itemCount != 0 {
      var present := Find(list, item);
      if present != null {
        return SUCCESS, handle0;
      }
    }
    rc, handle := InsertObject(list, item, tag, target, mode, makeCurrent, mallocOk);
  }

  lemma StandsFor<T>(list: ControlNode<T>, p: nat)
    requires list.Valid() && p < |list.nodes|
    ensures Reference(list, list.nodes[p]) == p
  {
  }

  method DeleteObject<T(==)>(list: ControlNode<T>, item: T) returns (rc: int)
    requires list.Valid()
    modifies list, list.nodes`next, list.nodes`prev, list.nodes`owner
    ensures list.Valid()
    ensures var p := old(FirstWith(list.nodes, item));
            if p == |old(list.nodes)|
            then rc == OBJECT_NOT_FOUND && list.nodes == old(list.nodes) && list.cursor == old(list.cursor)
            else && rc == SUCCESS && list.nodes == RemoveAt(old(list.nodes), p) && old(list.nodes)[p].owner == null
                 && list.cursor == CursorAfterRemove(old(list.cursor), p, |old(list.nodes)|)
  {
    hide Chained, Distinct;
    if list.itemCount == 0 {
      return OBJECT_NOT_FOUND;
    }
    rc := OBJECT_NOT_FOUND;
    var node := Find(list, item);
    if node != null {
      StandsFor(list, FirstWith(list.nodes, item));
      var taken;
      rc, taken := ExtractObject(list, node.tag, node);
    }
  }

  method DeleteAllItems<T(==)>(list: ControlNode<T>) returns (rc: int)
    requires list.Valid()
    modifies list, list.nodes`owner
    ensures list.Valid() && rc == SUCCESS && list.nodes == []
    ensures forall n :: n in old(list.nodes) ==> n.owner == null
  {
    ghost var nodes, i := list.nodes, 0;
    while list.itemCount > 0
      invariant 0 <= i <= |nodes| == i + list.itemCount && list.nodes == nodes
      invariant list.startOfList == At(nodes, i)
      invariant forall k :: 0 <= k < i ==> nodes[k].owner == null
    {
      var node := list.startOfList;
      list.startOfList := node.next;
      list.itemCount := list.itemCount - 1;
      node.owner := null;
      i := i + 1;
    }
    list.currentItem := null;
    list.endOfList := null;
    list.nodes, list.cursor := [], -1;
    return SUCCESS;
  }

  method GetObject<T(==)>(list: ControlNode<T>, tag: Tag, handle: LinkNode?<T>, makeCurrent: bool)
    returns (rc: int, data: Option<T>)
    requires list.Valid() && Truthful(list, handle)
    modifies list`currentItem, list`cursor
    ensures list.Valid() && rc == old(TaggedLookupCode(list, handle, tag))
    ensures rc != SUCCESS ==> data == None && list.cursor == old(list.cursor)
    ensures rc == SUCCESS ==>
              var p := old(Reference(list, handle));
              && data == Some(list.nodes[p].data)
              && list.cursor == if makeCurrent then p else old(list.cursor)
  {
    var node;
    rc, node := Lookup(list, handle);
    if rc != SUCCESS {
      return rc, None;
    }
    if node.tag != tag {
      return ITEM_TAG_WRONG, None;
    }
    if makeCurrent {
      MakeCurrent(list, node, Reference(list, handle));
    }
    data := Some(node.data);
  }

  method BlindGetObject<T(==)>(list: ControlNode<T>, handle: LinkNode?<T>, makeCurrent: bool, tag0: Tag)
    returns (rc: int, tag: Tag, data: Option<T>)
    requires list.Valid() && Truthful(list, handle)
    modifies list`currentItem, list`cursor
    ensures list.Valid() && rc == old(LookupCode(list, handle))
    ensures rc != SUCCESS ==> tag == tag0 && data == None && list.cursor == old(list.cursor)
    ensures rc == SUCCESS ==>
              var p := old(Reference(list, handle));
              && tag == list.nodes[p].tag && data == Some(list.nodes[p].data)
              && list.cursor == if makeCurrent then p else old(list.cursor)
  {
    var node;
    rc, node := Lookup(list, handle);
    if rc != SUCCESS {
      return rc, tag0, None;
    }
    tag := node.tag;
    if makeCurrent {
      MakeCurrent(list, node, Reference(list, handle));
    }
    data := Some(node.data);
  }

  method ReplaceObject<T(==)>(list: ControlNode<T>, item: T, tag: Tag, handle: LinkNode?<T>, makeCurrent: bool)
    returns (rc: int, oldTag: Tag, data: Option<T>)
    requires list.Valid() && Truthful(list, handle)
    modifies list`currentItem, list`cursor, list.nodes`data, list.nodes`tag
    ensures list.Valid() && rc == old(LookupCode(list, handle))
    ensures rc != SUCCESS ==> oldTag == tag && data == None && list.cursor == old(list.cursor)
    ensures forall i :: 0 <= i < |list.nodes| && (rc != SUCCESS || i != old(Reference(list, handle))) ==>
              list.nodes[i].data == old(list.nodes[i].data) && list.nodes[i].tag == old(list.nodes[i].tag)
    ensures rc == SUCCESS ==>
              var p := old(Reference(list, handle));
              && list.nodes[p].data == item && list.nodes[p].tag == tag
              && data == Some(old(list.nodes[p].data)) && oldTag == old(list.nodes[p].tag)
              && list.cursor == if makeCurrent then p else old(list.cursor)
  {
    var node;
    rc, node := Lookup(list, handle);
    if rc != SUCCESS {
      return rc, tag, None;
    }
    oldTag, data := node.tag, Some(node.data);
    node.tag, node.data := tag, item;
    if makeCurrent {
      MakeCurrent(list, node, Reference(list, handle));
    }
  }

  method GetNextObject<T(==)>(list: ControlNode<T>, tag: Tag) returns (rc: int, data: Option<T>)
    requires list.Valid()
    modifies list`currentItem, list`cursor
    ensures list.Valid()
    ensures rc == (if list.nodes == [] then EMPTY
                   else if old(list.cursor) == |list.nodes| - 1 then END_OF_LIST
                   else if list.nodes[old(list.cursor) + 1].tag != tag then ITEM_TAG_WRONG else SUCCESS)
    ensures rc != SUCCESS ==> data == None && list.cursor == old(list.cursor)
    ensures rc == SUCCESS ==>
              list.cursor == old(list.cursor) + 1 && data == Some(list.nodes[list.cursor].data)
  {
    if list.itemCount == 0 {
      return EMPTY, None;
    }
    if list.currentItem == list.endOfList {
      return END_OF_LIST, None;
    }
    var original := list.currentItem;
    list.currentItem := original.next;
    var node := list.currentItem;
    if node.tag != tag {
      list.currentItem := original;
      return ITEM_TAG_WRONG, None;
    }
    list.cursor := list.cursor + 1;
    return SUCCESS, Some(node.data);
  }

  method NextItem<T(==)>(list: ControlNode<T>) returns (rc: int)
    requires list.Valid()
    modifies list`currentItem, list`cursor
    ensures list.Valid()
    ensures rc == if list.nodes == [] then EMPTY else if old(list.cursor) == |list.nodes| - 1 then END_OF_LIST else SUCCESS
    ensures list.cursor == if rc == SUCCESS then old(list.cursor) + 1 else old(list.cursor)
  {
    if list.itemCount == 0 {
      return EMPTY;
    }
    if list.currentItem == list.endOfList {
      return END_OF_LIST;
    }
    list.currentItem, list.cursor := list.currentItem.next, list.cursor + 1;
    return SUCCESS;
  }

  method PreviousItem<T(==)>(list: ControlNode<T>) returns (rc: int)
    requires list.Valid()
    modifies list`currentItem, list`cursor
    ensures list.Valid()
    ensures rc == if list.nodes == [] then EMPTY else if old(list.cursor) == 0 then ALREADY_AT_START else SUCCESS
    ensures list.cursor == if rc == SUCCESS then old(list.cursor) - 1 else old(list.cursor)
  {
    if list.itemCount == 0 {
      return EMPTY;
    }
    if list.currentItem == list.startOfList {
      return ALREADY_AT_START;
    }
    list.currentItem, list.cursor := list.currentItem.prev, list.cursor - 1;
    return SUCCESS;
  }

  method GoToStartOfList<T(==)>(list: ControlNode<T>) returns (rc: int)
    requires list.Valid()
    modifies list`currentItem, list`cursor
    ensures list.Valid() && rc == SUCCESS && list.cursor == if list.nodes == [] then -1 else 0
  {
    list.currentItem, list.cursor := list.startOfList, if list.nodes == [] then -1 else 0;
    return SUCCESS;
  }

  method GoToEndOfList<T(==)>(list: ControlNode<T>) returns (rc: int)
    requires list.Valid()
    modifies list`currentItem, list`cursor
    ensures list.Valid() && rc == SUCCESS && list.cursor == |list.nodes| - 1
  {
    list.currentItem, list.cursor := list.endOfList, |list.nodes| - 1;
    return SUCCESS;
  }

  method GoToSpecifiedItem<T(==)>(list: ControlNode<T>, handle: LinkNode?<T>) returns (rc: int)
    requires list.Valid() && Truthful(list, handle)
    modifies list`currentItem, list`cursor
    ensures list.Valid()
    ensures rc == if handle != null && handle in list.nodes then SUCCESS else BAD_HANDLE
    ensures list.cursor == if rc == SUCCESS then IndexOf(list.nodes, handle) else old(list.cursor)
  {
    if handle != null && handle.owner == list {
      MakeCurrent(list, handle, IndexOf(list.nodes, handle));
    } else {
      return BAD_HANDLE;
    }
    return SUCCESS;
  }
}
