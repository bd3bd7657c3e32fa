/** What the operations mean: a list as its users see it, and what each operation makes of it and reports. */
module DListOps {
  import opened DList
  import opened DListTraverse
  import opened DListMerge
  import MergeSort
  import DListSort

  /** The handles of the items, the items themselves, and the position of the current one (-1: none). */
  datatype AbstractList<T> = AbstractList(nodes: seq<LinkNode<T>>, items: seq<(T, Tag)>, cursor: int)

  ghost function View<T>(list: ControlNode<T>): AbstractList<T>
    reads list, list.nodes`data, list.nodes`tag
  {
    AbstractList(list.nodes, Items(list.nodes), list.cursor)
  }

  ghost predicate WellFormed<T>(l: AbstractList<T>) {
    && |l.items| == |l.nodes| <= MAX_COUNT
    && Distinct(l.nodes)
    && if l.nodes == [] then l.cursor == -1 else 0 <= l.cursor < |l.nodes|
  }

  /**
   * The operations that change a list or its current item; Copy reads a second list, which may be the same. What the
   * callback of Prune remembers is a number here, and that of Sort counts the calls.
   */
  datatype Op<!T> =
    | Insert(item: T, tag: Tag, target: LinkNode?<T>, mode: InsertionMode, makeCurrent: bool, mallocOk: bool)
    | ExclusiveInsert(item: T, tag: Tag, target: LinkNode?<T>, mode: InsertionMode, makeCurrent: bool, mallocOk: bool)
    | Extract(tag: Tag, handle: LinkNode?<T>)
    | BlindExtract(handle: LinkNode?<T>)
    | Delete(item: T)
    | DeleteAll
    | Replace(item: T, tag: Tag, handle: LinkNode?<T>, makeCurrent: bool)
    | Get(tag: Tag, handle: LinkNode?<T>, makeCurrent: bool)
    | BlindGet(handle: LinkNode?<T>, makeCurrent: bool)
    | GetNext(tag: Tag)
    | Next
    | Previous
    | ToStart
    | ToEnd
    | GoTo(handle: LinkNode?<T>)
    | Copy(source: ControlNode<T>, mode: InsertionMode, mallocs: nat -> bool)
    | Prune(kill: Kill<T, nat>, memory: nat)
    | Sort(compare: DListSort.Compare<T>)

  /**
   * What a call reports: its code, a new handle, data and a tag it hands over. The handle is null also when an exclusive
   * insertion leaves the caller's variable alone. Skipped: the caller saw that the call must not be made.
   */
  datatype Reply<T> =
    | Reply(rc: int, handle: LinkNode?<T>, data: Option<T>, tag: Option<Tag>)
    | Skipped

  function Code<T>(rc: int): Reply<T> { Reply(rc, null, None, None) }

  /** The position a handle stands for: its own, or that of the current item when the list does not hold it. */
  ghost function Position<T>(l: AbstractList<T>, handle: LinkNode?<T>): int {
    if handle != null && handle in l.nodes then IndexOf(l.nodes, handle) else l.cursor
  }

  ghost function HandleCode<T>(l: AbstractList<T>, handle: LinkNode?<T>): int {
    if l.nodes == [] then EMPTY else if handle != null && handle !in l.nodes then BAD_HANDLE else SUCCESS
  }

  ghost function TagCode<T>(l: AbstractList<T>, handle: LinkNode?<T>, tag: Tag): int
    requires WellFormed(l)
  {
    if HandleCode(l, handle) != SUCCESS then HandleCode(l, handle)
    else if l.items[Position(l, handle)].1 != tag then ITEM_TAG_WRONG else SUCCESS
  }

  /** The position of the first item with the given data, or the length when there is none. */
  ghost function FirstItem<T>(items: seq<(T, Tag)>, item: T): (p: nat)
    ensures p <= |items| && (p < |items| ==> items[p].0 == item)
    ensures forall i :: 0 <= i < p ==> items[i].0 != item
  {
    if items == [] || items[0].0 == item then 0 else 1 + FirstItem(items[1..], item)
  }

  function InsertCode(empty: bool, mode: InsertionMode, mallocOk: bool): int {
    if !mallocOk then OUT_OF_MEMORY else if !empty && mode.OtherMode? then INVALID_INSERTION_MODE else SUCCESS
  }

  ghost function InsertPosition<T>(l: AbstractList<T>, target: LinkNode?<T>, mode: InsertionMode): (p: nat)
    requires WellFormed(l) && (l.nodes != [] ==> !mode.OtherMode?)
    ensures p <= |l.nodes|
  {
    if l.nodes == [] then 0 else InsertionPoint(mode, Position(l, target), |l.nodes|)
  }

  /** Item and node x at position p. */
  function PutIn<T>(l: AbstractList<T>, p: nat, x: LinkNode<T>, item: T, tag: Tag, makeCurrent: bool): AbstractList<T>
    requires p <= |l.nodes| == |l.items|
  {
    AbstractList(InsertAt(l.nodes, p, x), InsertAt(l.items, p, (item, tag)),
                 if makeCurrent then p else CursorAfterInsert(l.cursor, p, 1))
  }

  function TakeOut<T>(l: AbstractList<T>, p: nat): AbstractList<T>
    requires p < |l.nodes| == |l.items|
  {
    AbstractList(RemoveAt(l.nodes, p), RemoveAt(l.items, p), CursorAfterRemove(l.cursor, p, |l.nodes|))
  }

  function CopyCode(empty: bool, mode: InsertionMode, ok: bool): int {
    if empty then SUCCESS else if mode.OtherMode? then INVALID_INSERTION_MODE else if ok then SUCCESS else OUT_OF_MEMORY
  }

  /** The comparison callback as one that is asked about positions. */
  function AskAbout<T>(compare: DListSort.Compare<T>, items: seq<(T, Tag)>): MergeSort.Ask {
    (k: nat, i: nat, j: nat) =>
      if i < |items| && j < |items|
      then DListSort.Answer(compare, k, items[i].0, items[i].1, items[j].0, items[j].1)
      else MergeSort.Comparison(0, SUCCESS)
  }

  function Sorting<T>(compare: DListSort.Compare<T>, items: seq<(T, Tag)>): MergeSort.Attempt {
    MergeSort.TrySort(AskAbout(compare, items), 0, MergeSort.Identity(|items|), 1)
  }

  function Arranged<A>(s: seq<A>, order: seq<nat>): (t: seq<A>)
    requires MergeSort.Within(order, 0, |s|)
    ensures |t| == |order|
  {
    seq(|order|, i requires 0 <= i < |order| => s[order[i]])
  }

  /** How many nodes an operation makes. */
  ghost function NewNodes<T>(op: Op<T>, b: AbstractList<T>, s: AbstractList<T>): nat {
    match op
    case Insert(_, _, _, mode, _, mallocOk) => if InsertCode(b.nodes == [], mode, mallocOk) == SUCCESS then 1 else 0
    case ExclusiveInsert(item, _, _, mode, _, mallocOk) =>
      if FirstItem(b.items, item) == |b.items| && InsertCode(b.nodes == [], mode, mallocOk) == SUCCESS then 1 else 0
    case Copy(_, mode, mallocs) =>
      if CopyCode(s.nodes == [], mode, AllSucceed(mallocs, |s.nodes|)) == SUCCESS then |s.nodes| else 0
    case _ => 0
  }

  type Outcome<T> = (AbstractList<T>, Reply<T>)

  ghost function AfterInsert<T>(b: AbstractList<T>, item: T, tag: Tag, target: LinkNode?<T>, mode: InsertionMode,
                                makeCurrent: bool, mallocOk: bool, new1: seq<LinkNode<T>>): Outcome<T>
    requires WellFormed(b) && (InsertCode(b.nodes == [], mode, mallocOk) == SUCCESS ==> |new1| == 1)
  {
    var rc := InsertCode(b.nodes == [], mode, mallocOk);
    if rc != SUCCESS then (b, Code(rc))
    else (PutIn(b, InsertPosition(b, target, mode), new1[0], item, tag, makeCurrent), Reply(SUCCESS, new1[0], None, None))
  }

  /** Taking out the item of a handle, when looking it up had the given result. */
  ghost function AfterExtract<T>(b: AbstractList<T>, handle: LinkNode?<T>, rc: int, tellTag: bool): Outcome<T>
    requires WellFormed(b) && (rc == SUCCESS ==> HandleCode(b, handle) == SUCCESS)
  {
    if rc != SUCCESS then (b, Code(rc))
    else
      var p := Position(b, handle);
      (TakeOut(b, p), Reply(SUCCESS, null, Some(b.items[p].0), if tellTag then Some(b.items[p].1) else None))
  }

  ghost function AfterGet<T>(b: AbstractList<T>, handle: LinkNode?<T>, rc: int, makeCurrent: bool, tellTag: bool): Outcome<T>
    requires WellFormed(b) && (rc == SUCCESS ==> HandleCode(b, handle) == SUCCESS)
  {
    if rc != SUCCESS then (b, Code(rc))
    else
      var p := Position(b, handle);
      (if makeCurrent then b.(cursor := p) else b,
       Reply(SUCCESS, null, Some(b.items[p].0), if tellTag then Some(b.items[p].1) else None))
  }

  ghost function AfterReplace<T>(b: AbstractList<T>, item: T, tag: Tag, handle: LinkNode?<T>, makeCurrent: bool): Outcome<T>
    requires WellFormed(b)
  {
    if HandleCode(b, handle) != SUCCESS then (b, Code(HandleCode(b, handle)))
    else
      var p := Position(b, handle);
      (AbstractList(b.nodes, b.items[p := (item, tag)], if makeCurrent then p else b.cursor),
       Reply(SUCCESS, null, Some(b.items[p].0), Some(b.items[p].1)))
  }

  ghost function AfterMove<T>(b: AbstractList<T>, rc: int, to: int): Outcome<T> {
    (if rc == SUCCESS then b.(cursor := to) else b, Code(rc))
  }

  ghost function NextCode<T>(b: AbstractList<T>): int {
    if b.nodes == [] then EMPTY else if b.cursor == |b.nodes| - 1 then END_OF_LIST else SUCCESS
  }

  ghost function PreviousCode<T>(b: AbstractList<T>): int {
    if b.nodes == [] then EMPTY else if b.cursor == 0 then ALREADY_AT_START else SUCCESS
  }

  ghost function AfterGetNext<T>(b: AbstractList<T>, tag: Tag): Outcome<T>
    requires WellFormed(b)
  {
    if NextCode(b) != SUCCESS then (b, Code(NextCode(b)))
    else
      var p := b.cursor + 1;
      if b.items[p].1 != tag then (b, Code(ITEM_TAG_WRONG))
      else (b.(cursor := p), Reply(SUCCESS, null, Some(b.items[p].0), None))
  }

  ghost function AfterCopy<T>(b: AbstractList<T>, s: AbstractList<T>, mode: InsertionMode, ok: bool,
                              new1: seq<LinkNode<T>>): Outcome<T>
    requires WellFormed(b)
  {
    var rc := CopyCode(s.nodes == [], mode, ok);
    if rc != SUCCESS || s.nodes == [] then (b, Code(rc))
    else
      var p := CopyPoint(mode, b.cursor, |b.nodes|);
      (AbstractList(Spliced(b.nodes, p, new1), Spliced(b.items, p, s.items), CursorAfterInsert(b.cursor, p, |new1|)),
       Code(rc))
  }

  ghost function AfterPrune<T>(b: AbstractList<T>, kill: Kill<T, nat>, memory: nat): Outcome<T>
    requires WellFormed(b)
  {
    var goal := DListTraverse.Prune(b.items, kill, memory);
    (AbstractList(Kept(b.nodes, goal.keep), Kept(b.items, goal.keep), CursorAfterPrune(b.cursor, goal.keep)),
     Code(goal.error))
  }

  ghost function AfterSort<T>(b: AbstractList<T>, compare: DListSort.Compare<T>): Outcome<T>
    requires WellFormed(b)
  {
    var goal := Sorting(compare, b.items);
    MergeSort.TrySortPermutes(AskAbout(compare, b.items), 0, |b.items|, 1);
    (AbstractList(Arranged(b.nodes, goal.order), Arranged(b.items, goal.order),
                  if b.cursor >= 0 && b.cursor in goal.order then IndexOf(goal.order, b.cursor) else -1),
     Code(goal.error))
  }

  /**
   * The list that an operation leaves behind and what it reports; s is the list that Copy reads, and new1 are the nodes
   * that the operation makes.
   */
  ghost function After<T>(op: Op<T>, b: AbstractList<T>, s: AbstractList<T>, new1: seq<LinkNode<T>>): Outcome<T>
    requires WellFormed(b) && |new1| == NewNodes(op, b, s)
  {
    match op
    case Insert(item, tag, target, mode, makeCurrent, mallocOk) =>
      AfterInsert(b, item, tag, target, mode, makeCurrent, mallocOk, new1)
    case ExclusiveInsert(item, tag, target, mode, makeCurrent, mallocOk) =>
      if FirstItem(b.items, item) < |b.items| then (b, Code(SUCCESS))
      else AfterInsert(b, item, tag, target, mode, makeCurrent, mallocOk, new1)
    case Extract(tag, handle) => AfterExtract(b, handle, TagCode(b, handle, tag), false)
    case BlindExtract(handle) => AfterExtract(b, handle, HandleCode(b, handle), true)
    case Delete(item) =>
      var p := FirstItem(b.items, item);
      if p == |b.items| then (b, Code(OBJECT_NOT_FOUND)) else (TakeOut(b, p), Code(SUCCESS))
    case DeleteAll => (AbstractList([], [], -1), Code(SUCCESS))
    case Replace(item, tag, handle, makeCurrent) => AfterReplace(b, item, tag, handle, makeCurrent)
    case Get(tag, handle, makeCurrent) => AfterGet(b, handle, TagCode(b, handle, tag), makeCurrent, false)
    case BlindGet(handle, makeCurrent) => AfterGet(b, handle, HandleCode(b, handle), makeCurrent, true)
    case GetNext(tag) => AfterGetNext(b, tag)
    case Next => AfterMove(b, NextCode(b), b.cursor + 1)
    case Previous => AfterMove(b, PreviousCode(b), b.cursor - 1)
    case ToStart => AfterMove(b, SUCCESS, if b.nodes == [] then -1 else 0)
    case ToEnd => AfterMove(b, SUCCESS, |b.nodes| - 1)
    case GoTo(handle) =>
      AfterMove(b, if handle != null && handle in b.nodes then SUCCESS else BAD_HANDLE, Position(b, handle))
    case Copy(_, mode, mallocs) => AfterCopy(b, s, mode, AllSucceed(mallocs, |s.nodes|), new1)
    case Prune(kill, memory) => AfterPrune(b, kill, memory)
    case Sort(compare) => AfterSort(b, compare)
  }

  /** What an operation asks of its caller: room, and a reference item that is in the list when one is used. */
  ghost predicate Demands<T>(op: Op<T>, b: AbstractList<T>, s: AbstractList<T>) {
    match op
    case Insert(_, _, target, mode, _, _) => InsertDemands(b, target, mode)
    case ExclusiveInsert(_, _, target, mode, _, _) => InsertDemands(b, target, mode)
    case Copy(_, _, _) => |b.nodes| + |s.nodes| <= MAX_COUNT
    case Sort(_) => |b.nodes| <= 0x8000_0000
    case _ => true
  }

  ghost predicate InsertDemands<T>(b: AbstractList<T>, target: LinkNode?<T>, mode: InsertionMode) {
    && |b.nodes| < MAX_COUNT
    && (target != null && b.nodes != [] && (mode.InsertBefore? || mode.InsertAfter?) ==> target in b.nodes)
  }

  function HandleOf<T>(op: Op<T>): LinkNode?<T> {
    match op
    case Insert(_, _, target, _, _, _) => target
    case ExclusiveInsert(_, _, target, _, _, _) => target
    case Extract(_, handle) => handle
    case BlindExtract(handle) => handle
    case Replace(_, _, handle, _) => handle
    case Get(_, handle, _) => handle
    case BlindGet(handle, _) => handle
    case GoTo(handle) => handle
    case _ => null
  }

  function WithHandle<T>(op: Op<T>, handle: LinkNode?<T>): Op<T> {
    match op
    case Insert(item, tag, _, mode, makeCurrent, mallocOk) => Insert(item, tag, handle, mode, makeCurrent, mallocOk)
    case ExclusiveInsert(item, tag, _, mode, makeCurrent, mallocOk) =>
      ExclusiveInsert(item, tag, handle, mode, makeCurrent, mallocOk)
    case Extract(tag, _) => Extract(tag, handle)
    case BlindExtract(_) => BlindExtract(handle)
    case Replace(item, tag, _, makeCurrent) => Replace(item, tag, handle, makeCurrent)
    case Get(tag, _, makeCurrent) => Get(tag, handle, makeCurrent)
    case BlindGet(_, makeCurrent) => BlindGet(handle, makeCurrent)
    case GoTo(_) => GoTo(handle)
    case _ => op
  }

  lemma IndexUnique<A>(s: seq<A>, x: A, p: nat)
    requires Distinct(s) && p < |s| && s[p] == x
    ensures x in s && IndexOf(s, x) == p
  {
  }

  lemma RemoveInserted<A>(s: seq<A>, p: nat, x: A)
    requires p <= |s|
    ensures InsertAt(s, p, x)[p] == x && RemoveAt(InsertAt(s, p, x), p) == s
  {
  }

  lemma InsertedDistinct<A>(s: seq<A>, p: nat, x: A)
    requires Distinct(s) && x !in s && p <= |s|
    ensures Distinct(InsertAt(s, p, x))
  {
  }

  lemma InsertMeans<T>(op: Op<T>, b: AbstractList<T>, new1: seq<LinkNode<T>>)
    requires WellFormed(b) && op.Insert? && Demands(op, b, b) && |new1| == NewNodes(op, b, b) == 1
    ensures InsertCode(b.nodes == [], op.mode, op.mallocOk) == SUCCESS && |b.nodes| < MAX_COUNT
    ensures After(op, b, b, new1) ==
            AfterInsert(b, op.item, op.tag, op.target, op.mode, op.makeCurrent, op.mallocOk, new1)
  {
  }

  lemma ExtractMeans<T>(b: AbstractList<T>, tag: Tag, handle: LinkNode?<T>)
    requires WellFormed(b)
    ensures NewNodes(Extract(tag, handle), b, b) == 0
    ensures After(Extract(tag, handle), b, b, []) == AfterExtract(b, handle, TagCode(b, handle, tag), false)
  {
  }

  /** Extracting by the handle that an insertion returned gives the item back and undoes the insertion. */
  lemma ExtractUndoesInsert<T>(op: Op<T>, b: AbstractList<T>, new1: seq<LinkNode<T>>)
    requires WellFormed(b) && op.Insert? && Demands(op, b, b) && |new1| == NewNodes(op, b, b) == 1 && new1[0] !in b.nodes
    ensures var (a, r) := After(op, b, b, new1);
            && r.Reply? && r.handle == new1[0] && WellFormed(a)
            && var (u, e) := After(Extract(op.tag, r.handle), a, a, []);
               && e == Reply(SUCCESS, null, Some(op.item), None) && u.nodes == b.nodes && u.items == b.items
               && (!op.makeCurrent ==> u == b)
  {
    InsertMeans(op, b, new1);
    hide After, Demands, NewNodes;
    var p := InsertPosition(b, op.target, op.mode);
    RemoveInserted(b.nodes, p, new1[0]);
    RemoveInserted(b.items, p, (op.item, op.tag));
    InsertedDistinct(b.nodes, p, new1[0]);
    IndexUnique(InsertAt(b.nodes, p, new1[0]), new1[0], p);
    var a := PutIn(b, p, new1[0], op.item, op.tag, op.makeCurrent);
    ExtractMeans(a, op.tag, new1[0]);
  }

  /** What a replacement put under a handle is what the next operation finds there. */
  lemma ExtractAfterReplace<T>(b: AbstractList<T>, item: T, tag: Tag, handle: LinkNode?<T>, makeCurrent: bool)
    requires WellFormed(b) && HandleCode(b, handle) == SUCCESS
    ensures var (a, r) := After(Replace(item, tag, handle, makeCurrent), b, b, []);
            && WellFormed(a)
            && After(BlindExtract(handle), a, a, []).1 == Reply(SUCCESS, null, Some(item), Some(tag))
  {
  }

  /** The outcome of comparing two items. */
  type ItemOrder<!T> = ((T, Tag), (T, Tag)) -> int

  /** The callback never fails and goes by a total preorder of the items. */
  ghost predicate OrdersItems<T>(compare: DListSort.Compare<T>, cmp: ItemOrder<T>, items: seq<(T, Tag)>) {
    && (forall k: nat, i, j | 0 <= i < |items| && 0 <= j < |items| ::
          compare(k, items[i].0, items[i].1, items[j].0, items[j].1) == MergeSort.Comparison(cmp(items[i], items[j]), SUCCESS))
    && (forall i, j | 0 <= i < |items| && 0 <= j < |items| ::
          cmp(items[i], items[j]) <= 0 || cmp(items[j], items[i]) <= 0)
    && (forall i, j, l | 0 <= i < |items| && 0 <= j < |items| && 0 <= l < |items| &&
          cmp(items[i], items[j]) <= 0 && cmp(items[j], items[l]) <= 0 ::
          cmp(items[i], items[l]) <= 0)
  }

  function PositionOrder<T>(cmp: ItemOrder<T>, items: seq<(T, Tag)>): MergeSort.Order {
    (i: nat, j: nat) => if i < |items| && j < |items| then cmp(items[i], items[j]) else 0
  }

  lemma AnswersDecide<T>(compare: DListSort.Compare<T>, cmp: ItemOrder<T>, items: seq<(T, Tag)>)
    requires OrdersItems(compare, cmp, items)
    ensures MergeSort.Decides(AskAbout(compare, items), PositionOrder(cmp, items), |items|)
  {
  }

  lemma OrderIsPreorder<T>(compare: DListSort.Compare<T>, cmp: ItemOrder<T>, items: seq<(T, Tag)>)
    requires OrdersItems(compare, cmp, items)
    ensures MergeSort.TotalPreorder(PositionOrder(cmp, items), |items|)
  {
  }

  /** Positions in sorted order name items in sorted order. */
  lemma ItemsInOrder<T>(cmp: ItemOrder<T>, items: seq<(T, Tag)>, order: seq<nat>, i: nat, j: nat)
    requires i < j < |order| && MergeSort.Permutation(order, |items|)
    requires MergeSort.StablySorted(PositionOrder(cmp, items), order)
    ensures cmp(items[order[i]], items[order[j]]) <= 0
    ensures cmp(items[order[j]], items[order[i]]) <= 0 ==> order[i] < order[j]
  {
    assert MergeSort.Precedes(PositionOrder(cmp, items), order[i], order[j]);
  }

  /** Such a callback sorts the items of the list, and equal ones keep their order. */
  lemma SortSortsItems<T>(b: AbstractList<T>, compare: DListSort.Compare<T>, cmp: ItemOrder<T>)
    requires WellFormed(b) && OrdersItems(compare, cmp, b.items)
    ensures AfterSort(b, compare).1 == Code(SUCCESS)
    ensures var a, order := AfterSort(b, compare).0, Sorting(compare, b.items).order;
            && MergeSort.Permutation(order, |b.items|)
            && a.items == Arranged(b.items, order) && a.nodes == Arranged(b.nodes, order)
            && (forall i, j :: 0 <= i < j < |a.items| ==> cmp(a.items[i], a.items[j]) <= 0)
            && (forall i, j :: 0 <= i < j < |a.items| && cmp(a.items[j], a.items[i]) <= 0 ==> order[i] < order[j])
  {
    hide OrdersItems, AskAbout, PositionOrder, MergeSort.Decides, MergeSort.TotalPreorder, MergeSort.StablySorted;
    hide MergeSort.TrySort;
    var ask, c, n := AskAbout(compare, b.items), PositionOrder(cmp, b.items), |b.items|;
    var order := Sorting(compare, b.items).order;
    MergeSort.TrySortPermutes(ask, 0, n, 1);
    AnswersDecide(compare, cmp, b.items);
    OrderIsPreorder(compare, cmp, b.items);
    MergeSort.TrySortDecided(ask, c, n, 0, MergeSort.Identity(n), 1);
    MergeSort.SortCorrect(c, n);
    forall i, j | 0 <= i < j < |order|
      ensures cmp(b.items[order[i]], b.items[order[j]]) <= 0
      ensures cmp(b.items[order[j]], b.items[order[i]]) <= 0 ==> order[i] < order[j]
    {
      ItemsInOrder(cmp, b.items, order, i, j);
    }
  }
}
