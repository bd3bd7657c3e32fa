/** The methods of the list do what the operations mean, and lose track of no node. */
module DListActs {
  import opened DList
  import opened DListTraverse
  import opened DListMerge
  import opened DListOps
  import MergeSort
  import DListSort

  /** The operation op turns the list b into a and reports r; s is the list it reads and new1 the nodes it makes. */
  ghost predicate Yields<T>(op: Op<T>, b: AbstractList<T>, s: AbstractList<T>, new1: seq<LinkNode<T>>,
                            a: AbstractList<T>, r: Reply<T>)
  {
    WellFormed(b) && |new1| == NewNodes(op, b, s) && After(op, b, s, new1) == (a, r)
  }

  ghost function Members<A>(s: seq<A>): set<A> {
    set x | x in s
  }

  /** No node is lost track of: those the list had are still in it or have been released, further ones are new. */
  ghost predicate Accounted<T>(list: ControlNode<T>, nodes: seq<LinkNode<T>>, new1: seq<LinkNode<T>>)
    reads list, nodes`owner
  {
    && (forall i :: 0 <= i < |nodes| ==> nodes[i] in list.nodes || nodes[i].owner == null)
    && (forall i :: 0 <= i < |list.nodes| ==> list.nodes[i] in nodes || list.nodes[i] in new1)
    && (forall i :: 0 <= i < |new1| ==> new1[i] in list.nodes)
  }

  lemma ViewWellFormed<T>(list: ControlNode<T>)
    requires list.Valid()
    ensures WellFormed(View(list)) && list.itemCount == |list.nodes|
  {
  }

  lemma InsertedMembers<A>(s: seq<A>, p: nat, x: A)
    requires p <= |s|
    ensures forall y :: y in InsertAt(s, p, x) <==> y in s || y == x
  {
    forall y
      ensures y in InsertAt(s, p, x) <==> y in s || y == x
    {
      assert s == s[..p] + s[p..];
    }
  }

  lemma RemovedMembers<A>(s: seq<A>, p: nat)
    requires p < |s|
    ensures forall y :: y in s <==> y in RemoveAt(s, p) || y == s[p]
  {
    assert s == s[..p] + [s[p]] + s[p + 1..];
  }

  lemma SplicedMembers<A>(s: seq<A>, p: nat, t: seq<A>)
    requires p <= |s|
    ensures forall y :: y in Spliced(s, p, t) <==> y in s || y in t
  {
    assert s == s[..p] + s[p..];
  }

  lemma {:induction false} ItemsConcat<T>(s: seq<LinkNode<T>>, t: seq<LinkNode<T>>)
    ensures Items(s + t) == Items(s) + Items(t)
  {
    if t == [] {
      assert s + t == s;
    } else {
      var n := |t| - 1;
      ItemsConcat(s, t[..n]);
      assert (s + t)[..|s + t| - 1] == s + t[..n];
    }
  }

  lemma ItemsPrefix<T>(s: seq<LinkNode<T>>, p: nat)
    requires p <= |s|
    ensures Items(s[..p]) == Items(s)[..p] && Items(s[p..]) == Items(s)[p..]
  {
    ItemsConcat(s[..p], s[p..]);
    assert s[..p] + s[p..] == s;
  }

  lemma ItemsInserted<T>(s: seq<LinkNode<T>>, p: nat, x: LinkNode<T>)
    requires p <= |s|
    ensures Items(InsertAt(s, p, x)) == InsertAt(Items(s), p, (x.data, x.tag))
  {
    ItemsPrefix(s, p);
    ItemsConcat(s[..p] + [x], s[p..]);
    ItemsConcat(s[..p], [x]);
  }

  lemma ItemsRemoved<T>(s: seq<LinkNode<T>>, p: nat)
    requires p < |s|
    ensures Items(RemoveAt(s, p)) == RemoveAt(Items(s), p)
  {
    ItemsPrefix(s, p);
    ItemsPrefix(s, p + 1);
    ItemsConcat(s[..p], s[p + 1..]);
  }

  lemma ItemsSpliced<T>(s: seq<LinkNode<T>>, p: nat, t: seq<LinkNode<T>>)
    requires p <= |s|
    ensures Items(Spliced(s, p, t)) == Spliced(Items(s), p, Items(t))
  {
    ItemsPrefix(s, p);
    ItemsConcat(s[..p] + t, s[p..]);
    ItemsConcat(s[..p], t);
  }

  lemma {:induction false} ItemsKept<T>(s: seq<LinkNode<T>>, keep: seq<bool>)
    requires |s| == |keep|
    ensures Items(Kept(s, keep)) == Kept(Items(s), keep)
  {
    if s != [] {
      var n := |s| - 1;
      ItemsKept(s[..n], keep[..n]);
      ItemsPrefix(s, n);
      ItemsConcat(Kept(s[..n], keep[..n]), if keep[n] then [s[n]] else []);
    }
  }

  lemma NothingNew<T>(list: ControlNode<T>)
    ensures Accounted(list, list.nodes, [])
  {
  }

  ghost predicate Inserts<T>(op: Op<T>, b: AbstractList<T>, new1: seq<LinkNode<T>>, a: AbstractList<T>, r: Reply<T>)
    requires op.Insert? || op.ExclusiveInsert?
  {
    && WellFormed(b) && |new1| == (if InsertCode(b.nodes == [], op.mode, op.mallocOk) == SUCCESS then 1 else 0)
    && AfterInsert(b, op.item, op.tag, op.target, op.mode, op.makeCurrent, op.mallocOk, new1) == (a, r)
  }

  /** An insertion into a list, as the list and as the view of it. */
  lemma InsertionSeen<T>(list: ControlNode<T>, op: Op<T>, b: AbstractList<T>, x: LinkNode<T>)
    requires WellFormed(b) && Items(b.nodes) == b.items && (op.Insert? || op.ExclusiveInsert?)
    requires InsertCode(b.nodes == [], op.mode, op.mallocOk) == SUCCESS && x.data == op.item && x.tag == op.tag
    requires Inserted(b.nodes, b.cursor, Position(b, op.target), op.mode, op.makeCurrent, x, list.nodes, list.cursor)
    ensures Inserts(op, b, [x], View(list), Reply(SUCCESS, x, None, None)) && Accounted(list, b.nodes, [x])
  {
    hide Items, Distinct;
    var p := InsertPosition(b, op.target, op.mode);
    InsertedMembers(b.nodes, p, x);
    ItemsInserted(b.nodes, p, x);
    assert b.nodes == [] ==> InsertAt(b.nodes, p, x) == [x];
    assert View(list) == PutIn(b, p, x, op.item, op.tag, op.makeCurrent);
  }

  lemma NotInserted<T>(list: ControlNode<T>, op: Op<T>, b: AbstractList<T>, rc: int)
    requires WellFormed(b) && View(list) == b && (op.Insert? || op.ExclusiveInsert?)
    requires rc == InsertCode(b.nodes == [], op.mode, op.mallocOk) != SUCCESS
    ensures Inserts(op, b, [], View(list), Code(rc)) && Accounted(list, b.nodes, [])
  {
  }

  lemma InsertYields<T>(op: Op<T>, b: AbstractList<T>, new1: seq<LinkNode<T>>, a: AbstractList<T>, r: Reply<T>)
    requires op.Insert? && Inserts(op, b, new1, a, r)
    ensures Yields(op, b, b, new1, a, r)
  {
  }

  lemma ExclusiveInsertYields<T>(op: Op<T>, b: AbstractList<T>, new1: seq<LinkNode<T>>, a: AbstractList<T>, r: Reply<T>)
    requires WellFormed(b) && op.ExclusiveInsert?
    requires if FirstItem(b.items, op.item) < |b.items| then a == b && r == Code(SUCCESS) && new1 == []
             else Inserts(op, b, new1, a, r)
    ensures Yields(op, b, b, new1, a, r)
  {
  }

  lemma SameReference<T>(list: ControlNode<T>, target: LinkNode?<T>)
    ensures Reference(list, target) == Position(View(list), target)
  {
  }

  method PlaceItem<T(==)>(list: ControlNode<T>, op: Op<T>) returns (r: Reply<T>, ghost new1: seq<LinkNode<T>>)
    requires list.Valid() && op.Insert? && InsertDemands(View(list), op.target, op.mode)
    modifies list, list.nodes`next, list.nodes`prev
    ensures list.Valid() && Accounted(list, old(list.nodes), new1) && fresh(new1)
    ensures Inserts(op, old(View(list)), new1, View(list), r)
  {
    ViewWellFormed(list);
    SameReference(list, op.target);
    hide ControlNode.Valid, Items, Accounted, Inserted, Inserts, WellFormed, Distinct, Reference, Position;
    ghost var b := View(list);
    var rc, handle := InsertObject(list, op.item, op.tag, op.target, op.mode, op.makeCurrent, op.mallocOk);
    assert Items(b.nodes) == b.items && (handle == null ==> View(list) == b);
    r := Reply(rc, handle, None, None);
    new1 := [];
    if rc == SUCCESS {
      new1 := [handle];
      InsertionSeen(list, op, b, handle);
    } else {
      NotInserted(list, op, b, rc);
    }
  }

  lemma InsertDemanded<T>(op: Op<T>, b: AbstractList<T>)
    requires (op.Insert? || op.ExclusiveInsert?) && Demands(op, b, b)
    ensures InsertDemands(b, op.target, op.mode)
  {
  }

  method ActInsert<T(==)>(list: ControlNode<T>, op: Op<T>) returns (r: Reply<T>, ghost new1: seq<LinkNode<T>>)
    requires list.Valid() && op.Insert? && Demands(op, View(list), View(list))
    modifies list, list.nodes`next, list.nodes`prev
    ensures list.Valid() && Accounted(list, old(list.nodes), new1) && fresh(new1)
    ensures Yields(op, old(View(list)), old(View(list)), new1, View(list), r)
  {
    hide ControlNode.Valid, View, Accounted, Inserts, Yields, Demands, InsertDemands;
    InsertDemanded(op, View(list));
    r, new1 := PlaceItem(list, op);
    InsertYields(op, old(View(list)), new1, View(list), r);
  }

  method PlaceExclusively<T(==)>(list: ControlNode<T>, op: Op<T>) returns (r: Reply<T>, ghost new1: seq<LinkNode<T>>)
    requires list.Valid() && op.ExclusiveInsert? && InsertDemands(View(list), op.target, op.mode)
    modifies list, list.nodes`next, list.nodes`prev
    ensures list.Valid() && Accounted(list, old(list.nodes), new1) && fresh(new1)
    ensures if old(FirstWith(list.nodes, op.item) < |list.nodes|)
            then View(list) == old(View(list)) && r == Code(SUCCESS) && new1 == []
            else Inserts(op, old(View(list)), new1, View(list), r)
  {
    ViewWellFormed(list);
    SameReference(list, op.target);
    hide ControlNode.Valid, Items, Accounted, Inserted, Inserts, WellFormed, Distinct, Reference, Position, FirstWith;
    ghost var b, present := View(list), FirstWith(list.nodes, op.item) < |list.nodes|;
    var rc, handle :=
      ExclusiveInsertObject(list, op.item, op.tag, op.target, op.mode, op.makeCurrent, op.mallocOk, null);
    assert Items(b.nodes) == b.items && (handle == null ==> View(list) == b);
    r := Reply(rc, handle, None, None);
    new1 := [];
    if handle != null {
      new1 := [handle];
      InsertionSeen(list, op, b, handle);
    } else if rc != SUCCESS {
      NotInserted(list, op, b, rc);
    } else {
      NothingNew(list);
    }
  }

  method ActExclusiveInsert<T(==)>(list: ControlNode<T>, op: Op<T>) returns (r: Reply<T>, ghost new1: seq<LinkNode<T>>)
    requires list.Valid() && op.ExclusiveInsert? && Demands(op, View(list), View(list))
    modifies list, list.nodes`next, list.nodes`prev
    ensures list.Valid() && Accounted(list, old(list.nodes), new1) && fresh(new1)
    ensures Yields(op, old(View(list)), old(View(list)), new1, View(list), r)
  {
    ghost var b := View(list);
    ViewWellFormed(list);
    SameFirst(list.nodes, op.item);
    InsertDemanded(op, b);
    hide ControlNode.Valid, Items, Accounted, Inserts, WellFormed, FirstWith, FirstItem, Yields, Demands, InsertDemands;
    r, new1 := PlaceExclusively(list, op);
    ExclusiveInsertYields(op, b, new1, View(list), r);
  }

  /** The first item with some data stands at the first node with it. */
  lemma {:induction false} SameFirst<T>(nodes: seq<LinkNode<T>>, item: T)
    ensures FirstWith(nodes, item) == FirstItem(Items(nodes), item)
  {
    if nodes != [] {
      ItemsPrefix(nodes, 1);
      ItemAt(nodes, 0);
      SameFirst(nodes[1..], item);
    }
  }

  /** The codes of looking up a handle, for the list and for the view of it. */
  lemma SameCodes<T>(list: ControlNode<T>, handle: LinkNode?<T>, tag: Tag)
    requires list.Valid() && WellFormed(View(list))
    ensures LookupCode(list, handle) == HandleCode(View(list), handle)
    ensures TaggedLookupCode(list, handle, tag) == TagCode(View(list), handle, tag)
    ensures Reference(list, handle) == Position(View(list), handle)
    ensures HandleCode(View(list), handle) == SUCCESS ==> 0 <= Position(View(list), handle) < |list.nodes|
    ensures TagCode(View(list), handle, tag) == SUCCESS ==> HandleCode(View(list), handle) == SUCCESS
  {
    hide Chained, Distinct, Items;
    ItemsAre(list.nodes);
  }

  lemma ExtractYields<T>(op: Op<T>, b: AbstractList<T>, a: AbstractList<T>, r: Reply<T>)
    requires WellFormed(b) && (op.Extract? || op.BlindExtract?)
    requires AfterExtract(b, op.handle, if op.Extract? then TagCode(b, op.handle, op.tag) else HandleCode(b, op.handle),
                          op.BlindExtract?) == (a, r)
    ensures Yields(op, b, b, [], a, r)
  {
  }

  /** A removal from a list, as the list and as the view of it. */
  lemma RemovalSeen<T>(list: ControlNode<T>, b: AbstractList<T>, p: nat)
    requires WellFormed(b) && Items(b.nodes) == b.items && p < |b.nodes| && b.nodes[p].owner == null
    requires list.nodes == RemoveAt(b.nodes, p) && list.cursor == CursorAfterRemove(b.cursor, p, |b.nodes|)
    ensures View(list) == TakeOut(b, p) && Accounted(list, b.nodes, [])
  {
    hide Items, Distinct;
    RemovedMembers(b.nodes, p);
    ItemsRemoved(b.nodes, p);
  }

  method ActExtract<T(==)>(list: ControlNode<T>, op: Op<T>) returns (r: Reply<T>)
    requires list.Valid() && op.Extract? && Truthful(list, op.handle)
    modifies list, list.nodes`next, list.nodes`prev, list.nodes`owner
    ensures list.Valid() && Accounted(list, old(list.nodes), [])
    ensures Yields(op, old(View(list)), old(View(list)), [], View(list), r)
  {
    ViewWellFormed(list);
    SameCodes(list, op.handle, op.tag);
    ItemsAre(list.nodes);
    hide ControlNode.Valid, Items, Yields, Accounted, TakeOut, WellFormed, TagCode, TaggedLookupCode, Reference, Position;
    ghost var b := View(list);
    ghost var p := Position(b, op.handle);
    var rc, data := ExtractObject(list, op.tag, op.handle);
    assert Items(b.nodes) == b.items;
    r := Reply(rc, null, data, None);
    if rc == SUCCESS {
      RemovalSeen(list, b, p);
    } else {
      NothingNew(list);
    }
    ExtractYields(op, b, View(list), r);
  }

  method ActBlindExtract<T(==)>(list: ControlNode<T>, op: Op<T>) returns (r: Reply<T>)
    requires list.Valid() && op.BlindExtract? && Truthful(list, op.handle)
    modifies list, list.nodes`next, list.nodes`prev, list.nodes`owner
    ensures list.Valid() && Accounted(list, old(list.nodes), [])
    ensures Yields(op, old(View(list)), old(View(list)), [], View(list), r)
  {
    ViewWellFormed(list);
    SameCodes(list, op.handle, 0);
    ItemsAre(list.nodes);
    hide ControlNode.Valid, Items, Yields, Accounted, TakeOut, WellFormed, HandleCode, LookupCode, Reference, Position;
    ghost var b := View(list);
    ghost var p := Position(b, op.handle);
    var rc, tag, data := BlindExtractObject(list, op.handle, 0);
    assert Items(b.nodes) == b.items;
    r := Reply(rc, null, data, if rc == SUCCESS then Some(tag) else None);
    if rc == SUCCESS {
      RemovalSeen(list, b, p);
    } else {
      NothingNew(list);
    }
    ExtractYields(op, b, View(list), r);
  }

  lemma DeleteYields<T>(op: Op<T>, b: AbstractList<T>, a: AbstractList<T>, r: Reply<T>)
    requires WellFormed(b) && op.Delete?
    requires var p := FirstItem(b.items, op.item);
             if p == |b.items| then a == b && r == Code(OBJECT_NOT_FOUND) else a == TakeOut(b, p) && r == Code(SUCCESS)
    ensures Yields(op, b, b, [], a, r)
  {
  }

  method ActDelete<T(==)>(list: ControlNode<T>, op: Op<T>) returns (r: Reply<T>)
    requires list.Valid() && op.Delete?
    modifies list, list.nodes`next, list.nodes`prev, list.nodes`owner
    ensures list.Valid() && Accounted(list, old(list.nodes), [])
    ensures Yields(op, old(View(list)), old(View(list)), [], View(list), r)
  {
    ViewWellFormed(list);
    SameFirst(list.nodes, op.item);
    hide ControlNode.Valid, Items, Yields, Accounted, TakeOut, WellFormed, FirstItem, FirstWith;
    ghost var b := View(list);
    ghost var p := FirstWith(b.nodes, op.item);
    var rc := DeleteObject(list, op.item);
    assert Items(b.nodes) == b.items;
    r := Code(rc);
    if p < |b.nodes| {
      RemovalSeen(list, b, p);
    } else {
      NothingNew(list);
    }
    DeleteYields(op, b, View(list), r);
  }

  method ActDeleteAll<T(==)>(list: ControlNode<T>, op: Op<T>) returns (r: Reply<T>)
    requires list.Valid() && op.DeleteAll?
    modifies list, list.nodes`owner
    ensures list.Valid() && Accounted(list, old(list.nodes), [])
    ensures Yields(op, old(View(list)), old(View(list)), [], View(list), r)
  {
    ViewWellFormed(list);
    hide Chained, Distinct;
    var rc := DeleteAllItems(list);
    r := Code(rc);
  }

  lemma ItemsReplaced<T>(nodes: seq<LinkNode<T>>, items: seq<(T, Tag)>, p: nat, item: T, tag: Tag)
    requires p < |nodes| == |items| && nodes[p].data == item && nodes[p].tag == tag
    requires forall i :: 0 <= i < |nodes| && i != p ==> (nodes[i].data, nodes[i].tag) == items[i]
    ensures Items(nodes) == items[p := (item, tag)]
  {
    ItemsEqual(nodes, items[p := (item, tag)]);
  }

  lemma ItemsEqual<T>(nodes: seq<LinkNode<T>>, items: seq<(T, Tag)>)
    requires |nodes| == |items| && forall i :: 0 <= i < |nodes| ==> (nodes[i].data, nodes[i].tag) == items[i]
    ensures Items(nodes) == items
  {
    forall i | 0 <= i < |nodes|
      ensures Items(nodes)[i] == items[i]
    {
      ItemAt(nodes, i);
    }
  }

  lemma ReplaceYields<T>(op: Op<T>, b: AbstractList<T>, a: AbstractList<T>, r: Reply<T>)
    requires WellFormed(b) && op.Replace?
    requires AfterReplace(b, op.item, op.tag, op.handle, op.makeCurrent) == (a, r)
    ensures Yields(op, b, b, [], a, r)
  {
  }

  method ActReplace<T(==)>(list: ControlNode<T>, op: Op<T>) returns (r: Reply<T>)
    requires list.Valid() && op.Replace? && Truthful(list, op.handle)
    modifies list`currentItem, list`cursor, list.nodes`data, list.nodes`tag
    ensures list.Valid() && Accounted(list, old(list.nodes), [])
    ensures Yields(op, old(View(list)), old(View(list)), [], View(list), r)
  {
    ViewWellFormed(list);
    SameCodes(list, op.handle, op.tag);
    ItemsAre(list.nodes);
    hide ControlNode.Valid, Items, Yields, Accounted, WellFormed, HandleCode, LookupCode, Reference, Position;
    ghost var b := View(list);
    var rc, tag, data := ReplaceObject(list, op.item, op.tag, op.handle, op.makeCurrent);
    r := Reply(rc, null, data, if rc == SUCCESS then Some(tag) else None);
    if rc == SUCCESS {
      ItemsReplaced(b.nodes, b.items, Position(b, op.handle), op.item, op.tag);
    } else {
      ItemsEqual(b.nodes, b.items);
    }
    NothingNew(list);
    ReplaceYields(op, b, View(list), r);
  }

  lemma GetYields<T>(op: Op<T>, b: AbstractList<T>, a: AbstractList<T>, r: Reply<T>)
    requires WellFormed(b) && (op.Get? || op.BlindGet?)
    requires AfterGet(b, op.handle, if op.Get? then TagCode(b, op.handle, op.tag) else HandleCode(b, op.handle),
                      op.makeCurrent, op.BlindGet?) == (a, r)
    ensures Yields(op, b, b, [], a, r)
  {
  }

  method ActGet<T(==)>(list: ControlNode<T>, op: Op<T>) returns (r: Reply<T>)
    requires list.Valid() && op.Get? && Truthful(list, op.handle)
    modifies list`currentItem, list`cursor
    ensures list.Valid() && Accounted(list, old(list.nodes), [])
    ensures Yields(op, old(View(list)), old(View(list)), [], View(list), r)
  {
    ViewWellFormed(list);
    SameCodes(list, op.handle, op.tag);
    ItemsAre(list.nodes);
    hide ControlNode.Valid, Items, Yields, Accounted, WellFormed, TagCode, TaggedLookupCode, Reference, Position;
    ghost var b := View(list);
    var rc, data := GetObject(list, op.tag, op.handle, op.makeCurrent);
    r := Reply(rc, null, data, None);
    NothingNew(list);
    GetYields(op, b, View(list), r);
  }

  method ActBlindGet<T(==)>(list: ControlNode<T>, op: Op<T>) returns (r: Reply<T>)
    requires list.Valid() && op.BlindGet? && Truthful(list, op.handle)
    modifies list`currentItem, list`cursor
    ensures list.Valid() && Accounted(list, old(list.nodes), [])
    ensures Yields(op, old(View(list)), old(View(list)), [], View(list), r)
  {
    ViewWellFormed(list);
    SameCodes(list, op.handle, 0);
    ItemsAre(list.nodes);
    hide ControlNode.Valid, Items, Yields, Accounted, WellFormed, HandleCode, LookupCode, Reference, Position;
    ghost var b := View(list);
    var rc, tag, data := BlindGetObject(list, op.handle, op.makeCurrent, 0);
    r := Reply(rc, null, data, if rc == SUCCESS then Some(tag) else None);
    NothingNew(list);
    GetYields(op, b, View(list), r);
  }

  lemma StepYields<T>(op: Op<T>, b: AbstractList<T>, a: AbstractList<T>, r: Reply<T>)
    requires WellFormed(b)
    requires if op.GetNext? then AfterGetNext(b, op.tag) == (a, r)
             else if op.Next? then AfterMove(b, NextCode(b), b.cursor + 1) == (a, r)
             else if op.Previous? then AfterMove(b, PreviousCode(b), b.cursor - 1) == (a, r)
             else if op.ToStart? then AfterMove(b, SUCCESS, if b.nodes == [] then -1 else 0) == (a, r)
             else if op.ToEnd? then AfterMove(b, SUCCESS, |b.nodes| - 1) == (a, r)
             else op.GoTo? && AfterMove(b, if op.handle != null && op.handle in b.nodes then SUCCESS else BAD_HANDLE,
                                        Position(b, op.handle)) == (a, r)
    ensures Yields(op, b, b, [], a, r)
  {
  }

  method ActGetNext<T(==)>(list: ControlNode<T>, op: Op<T>) returns (r: Reply<T>)
    requires list.Valid() && op.GetNext?
    modifies list`currentItem, list`cursor
    ensures list.Valid() && Accounted(list, old(list.nodes), [])
    ensures Yields(op, old(View(list)), old(View(list)), [], View(list), r)
  {
    ViewWellFormed(list);
    ItemsAre(list.nodes);
    hide ControlNode.Valid, Items, Yields, Accounted, Distinct;
    ghost var b := View(list);
    var rc, data := GetNextObject(list, op.tag);
    r := Reply(rc, null, data, None);
    NothingNew(list);
    StepYields(op, b, View(list), r);
  }

  /** The operations that only move the cursor. */
  method ActStep<T(==)>(list: ControlNode<T>, op: Op<T>) returns (r: Reply<T>)
    requires list.Valid() && (op.Next? || op.Previous?)
    modifies list`currentItem, list`cursor
    ensures list.Valid() && Accounted(list, old(list.nodes), [])
    ensures Yields(op, old(View(list)), old(View(list)), [], View(list), r)
  {
    ViewWellFormed(list);
    hide ControlNode.Valid, Items, Yields, Accounted, Distinct;
    ghost var b := View(list);
    var rc;
    if op.Next? {
      rc := NextItem(list);
    } else {
      rc := PreviousItem(list);
    }
    r := Code(rc);
    NothingNew(list);
    StepYields(op, b, View(list), r);
  }

  method ActGo<T(==)>(list: ControlNode<T>, op: Op<T>) returns (r: Reply<T>)
    requires list.Valid() && (op.ToStart? || op.ToEnd? || op.GoTo?) && Truthful(list, HandleOf(op))
    modifies list`currentItem, list`cursor
    ensures list.Valid() && Accounted(list, old(list.nodes), [])
    ensures Yields(op, old(View(list)), old(View(list)), [], View(list), r)
  {
    ViewWellFormed(list);
    hide ControlNode.Valid, Items, Yields, Accounted, Distinct;
    ghost var b := View(list);
    var rc;
    if op.ToStart? {
      rc := GoToStartOfList(list);
    } else if op.ToEnd? {
      rc := GoToEndOfList(list);
    } else {
      rc := GoToSpecifiedItem(list, op.handle);
    }
    r := Code(rc);
    NothingNew(list);
    StepYields(op, b, View(list), r);
  }

  lemma CopiedItems<T>(copy: seq<LinkNode<T>>, source: seq<LinkNode<T>>, items: seq<(T, Tag)>)
    requires SameItems(copy, source) && Items(source) == items
    ensures Items(copy) == items
  {
    ItemsAre(copy);
    ItemsAre(source);
  }

  lemma CopyYields<T>(op: Op<T>, b: AbstractList<T>, s: AbstractList<T>, copy: seq<LinkNode<T>>, a: AbstractList<T>,
                      r: Reply<T>)
    requires WellFormed(b) && op.Copy?
    requires var ok := AllSucceed(op.mallocs, |s.nodes|);
             && |copy| == (if CopyCode(s.nodes == [], op.mode, ok) == SUCCESS then |s.nodes| else 0)
             && AfterCopy(b, s, op.mode, ok, copy) == (a, r)
    ensures Yields(op, b, s, copy, a, r)
  {
  }

  /** A copy spliced into a list, as the list and as the view of it. */
  lemma CopySeen<T>(list: ControlNode<T>, b: AbstractList<T>, s: AbstractList<T>, mode: InsertionMode, copy: seq<LinkNode<T>>)
    requires WellFormed(b) && Items(b.nodes) == b.items && Items(s.nodes) == s.items && !mode.OtherMode?
    requires SameItems(copy, s.nodes) && s.nodes != []
    requires var p := CopyPoint(mode, b.cursor, |b.nodes|);
             list.nodes == Spliced(b.nodes, p, copy) && list.cursor == CursorAfterInsert(b.cursor, p, |copy|)
    ensures |copy| == |s.nodes| && AfterCopy(b, s, mode, true, copy) == (View(list), Code(SUCCESS))
    ensures Accounted(list, b.nodes, copy)
  {
    hide Items, Distinct;
    var p := CopyPoint(mode, b.cursor, |b.nodes|);
    SplicedMembers(b.nodes, p, copy);
    ItemsSpliced(b.nodes, p, copy);
    CopiedItems(copy, s.nodes, s.items);
  }

  lemma CopyDemanded<T>(op: Op<T>, b: AbstractList<T>, s: AbstractList<T>)
    requires op.Copy? && Demands(op, b, s)
    ensures |b.nodes| + |s.nodes| <= MAX_COUNT
  {
  }

  method ActCopy<T(==)>(list: ControlNode<T>, op: Op<T>) returns (r: Reply<T>, ghost copy: seq<LinkNode<T>>)
    requires list.Valid() && op.Copy? && op.source.Valid() && Demands(op, View(list), View(op.source))
    modifies list, list.nodes`next, list.nodes`prev
    ensures list.Valid() && Accounted(list, old(list.nodes), copy) && fresh(copy)
    ensures Yields(op, old(View(list)), old(View(op.source)), copy, View(list), r)
  {
    ViewWellFormed(list);
    ViewWellFormed(op.source);
    CopyDemanded(op, View(list), View(op.source));
    hide ControlNode.Valid, Items, Yields, Accounted, WellFormed, Spliced, AllSucceed, SameItems, Demands;
    ghost var b, s := View(list), View(op.source);
    var rc;
    rc, copy := CopyList(list, op.source, op.mode, op.mallocs);
    assert Items(b.nodes) == b.items && Items(s.nodes) == s.items;
    r := Code(rc);
    if rc == SUCCESS && s.nodes != [] {
      CopySeen(list, b, s, op.mode, copy);
    } else {
      NothingNew(list);
    }
    CopyYields(op, b, s, copy, View(list), r);
  }

  lemma KeptAccounted<T>(list: ControlNode<T>, nodes: seq<LinkNode<T>>, keep: seq<bool>)
    requires |keep| == |nodes| && list.nodes == Kept(nodes, keep) && Released(nodes, keep)
    ensures Accounted(list, nodes, [])
  {
    KeptMembers(nodes, keep);
    forall i | 0 <= i < |nodes| && keep[i]
      ensures nodes[i] in list.nodes
    {
      KeptAt(nodes, keep, i);
    }
  }

  lemma PruneYields<T>(op: Op<T>, b: AbstractList<T>, a: AbstractList<T>, r: Reply<T>)
    requires WellFormed(b) && op.Prune? && AfterPrune(b, op.kill, op.memory) == (a, r)
    ensures Yields(op, b, b, [], a, r)
  {
  }

  method ActPrune<T(==)>(list: ControlNode<T>, op: Op<T>) returns (r: Reply<T>)
    requires list.Valid() && op.Prune?
    modifies list, list.nodes`next, list.nodes`prev, list.nodes`owner
    ensures list.Valid() && Accounted(list, old(list.nodes), [])
    ensures Yields(op, old(View(list)), old(View(list)), [], View(list), r)
  {
    ViewWellFormed(list);
    hide ControlNode.Valid, Items, Yields, Accounted, WellFormed, Kept, DListTraverse.Prune, CursorAfterPrune, Released;
    ghost var b := View(list);
    ghost var goal := DListTraverse.Prune(b.items, op.kill, op.memory);
    var rc, memory := PruneList(list, op.kill, op.memory);
    assert Items(b.nodes) == b.items;
    KeptAccounted(list, b.nodes, goal.keep);
    ItemsKept(b.nodes, goal.keep);
    r := Code(rc);
    PruneYields(op, b, View(list), r);
  }

  lemma RearrangedAccounted<T>(list: ControlNode<T>, before: seq<LinkNode<T>>, perm: seq<nat>)
    requires DListSort.Rearranged(before, perm, list.nodes) && MergeSort.Permutation(perm, |before|)
    ensures Accounted(list, before, [])
  {
    forall i: nat | i < |before|
      ensures before[i] in list.nodes
    {
      var k := WhereTo(perm, |before|, i);
      assert list.nodes[k] == before[i];
    }
  }

  /** Every position turns up somewhere in a permutation. */
  lemma WhereTo(perm: seq<nat>, n: nat, i: nat) returns (k: nat)
    requires MergeSort.Permutation(perm, n) && i < n
    ensures k < |perm| && perm[k] == i && i in perm && IndexOf(perm, i) == k
  {
    MergeSort.PermutationOnto(perm, n);
    assert MergeSort.Identity(n)[i] == i;
    assert i in MergeSort.Identity(n);
    k := IndexOf(perm, i);
  }

  /** A rearranged list with its old current item is the list that the sort on values gives. */
  lemma SortedView<T>(list: ControlNode<T>, b: AbstractList<T>, perm: seq<nat>)
    requires list.Valid() && WellFormed(b) && Items(b.nodes) == b.items
    requires DListSort.Rearranged(b.nodes, perm, list.nodes) && MergeSort.Permutation(perm, |b.nodes|)
    requires list.currentItem == At(b.nodes, b.cursor)
    ensures View(list) == AbstractList(Arranged(b.nodes, perm), Arranged(b.items, perm),
                                       if b.cursor >= 0 && b.cursor in perm then IndexOf(perm, b.cursor) else -1)
  {
    assert list.nodes == Arranged(b.nodes, perm);
    ItemsAre(list.nodes);
    ItemsAre(b.nodes);
    assert Items(list.nodes) == Arranged(b.items, perm);
    if b.cursor >= 0 {
      var k := WhereTo(perm, |b.nodes|, b.cursor);
      assert list.nodes[k] == b.nodes[b.cursor] == list.nodes[list.cursor];
    }
  }

  lemma SortYields<T>(op: Op<T>, b: AbstractList<T>, a: AbstractList<T>, r: Reply<T>)
    requires WellFormed(b) && op.Sort? && AfterSort(b, op.compare) == (a, r)
    ensures Yields(op, b, b, [], a, r)
  {
  }

  lemma SortDemanded<T>(op: Op<T>, b: AbstractList<T>)
    requires op.Sort? && Demands(op, b, b)
    ensures |b.nodes| <= 0x8000_0000
  {
  }

  method ActSort<T(==)>(list: ControlNode<T>, op: Op<T>) returns (r: Reply<T>)
    requires list.Valid() && op.Sort? && Demands(op, View(list), View(list))
    modifies list, list.nodes`next, list.nodes`prev
    ensures list.Valid() && Accounted(list, old(list.nodes), [])
    ensures Yields(op, old(View(list)), old(View(list)), [], View(list), r)
  {
    ViewWellFormed(list);
    CurrentAt(list);
    SortDemanded(op, View(list));
    AsksAbout(op.compare, list.nodes);
    hide ControlNode.Valid, Items, Yields, Accounted, WellFormed, Demands, DListSort.Asks, MergeSort.Permutation;
    hide DListSort.Rearranged, MergeSort.TrySort, AskAbout;
    ghost var b, ask := View(list), AskAbout(op.compare, Items(list.nodes));
    var rc;
    ghost var perm, passes, calls;
    rc, perm, passes, calls := DListSort.SortList(list, op.compare, ask);
    assert Items(b.nodes) == b.items;
    RearrangedAccounted(list, b.nodes, perm);
    SortedView(list, b, perm);
    r := Code(rc);
    SortYields(op, b, View(list), r);
  }

  lemma CurrentAt<T>(list: ControlNode<T>)
    requires list.Valid()
    ensures list.currentItem == At(list.nodes, list.cursor) && list.itemCount == |list.nodes|
  {
  }

  lemma AsksAbout<T>(compare: DListSort.Compare<T>, nodes: seq<LinkNode<T>>)
    ensures DListSort.Asks(compare, nodes, AskAbout(compare, Items(nodes)))
  {
    ItemsAre(nodes);
  }

  ghost function SourceOf<T>(op: Op<T>, list: ControlNode<T>): ControlNode<T> {
    if op.Copy? then op.source else list
  }

  /** One operation on one list. */
  method Act<T(==)>(list: ControlNode<T>, op: Op<T>) returns (r: Reply<T>, ghost new1: seq<LinkNode<T>>)
    requires list.Valid() && SourceOf(op, list).Valid() && Truthful(list, HandleOf(op))
    requires Demands(op, View(list), View(SourceOf(op, list)))
    modifies list, list.nodes
    ensures list.Valid() && Accounted(list, old(list.nodes), new1) && fresh(new1)
    ensures Yields(op, old(View(list)), old(View(SourceOf(op, list))), new1, View(list), r)
  {
    hide Chained, Distinct, Yields, Accounted, Demands, View;
    new1 := [];
    if op.Insert? {
      r, new1 := ActInsert(list, op);
    } else if op.ExclusiveInsert? {
      r, new1 := ActExclusiveInsert(list, op);
    } else if op.Extract? {
      r := ActExtract(list, op);
    } else if op.BlindExtract? {
      r := ActBlindExtract(list, op);
    } else if op.Delete? {
      r := ActDelete(list, op);
    } else if op.DeleteAll? {
      r := ActDeleteAll(list, op);
    } else if op.Replace? {
      r := ActReplace(list, op);
    } else if op.Copy? {
      r, new1 := ActCopy(list, op);
    } else if op.Prune? {
      r := ActPrune(list, op);
    } else if op.Sort? {
      r := ActSort(list, op);
    } else if op.Get? {
      r := ActGet(list, op);
    } else if op.BlindGet? {
      r := ActBlindGet(list, op);
    } else if op.GetNext? {
      r := ActGetNext(list, op);
    } else if op.Next? || op.Previous? {
      r := ActStep(list, op);
    } else {
      r := ActGo(list, op);
    }
  }
}
