/** Runs of list operations on several lists at once. */
module DListRun {
  import opened DList
  import opened DListMerge
  import opened DListOps
  import opened DListActs

  function HandleIn<T>(r: Reply<T>): LinkNode?<T> {
    if r.Reply? then r.handle else null
  }

  lemma HandleIsNew<T>(op: Op<T>, b: AbstractList<T>, s: AbstractList<T>, new1: seq<LinkNode<T>>, a: AbstractList<T>,
                       r: Reply<T>)
    requires Yields(op, b, s, new1, a, r)
    ensures HandleIn(r) == null || HandleIn(r) in new1
  {
    hide PutIn, TakeOut, AfterSort;
    if op.Sort? {
      assert AfterSort(b, op.compare).1 == Code(Sorting(op.compare, b.items).error) by { AfterSortReply(b, op.compare); }
    }
  }

  lemma AfterSortReply<T>(b: AbstractList<T>, compare: DListSort.Compare<T>)
    requires WellFormed(b)
    ensures AfterSort(b, compare).1 == Code(Sorting(compare, b.items).error)
  {
  }

  /**
   * A command of a program: an operation with a handle that was known before the run, an operation with the handle that
   * reply number k of the run gave away, or the joining of two lists.
   */
  datatype Command<!T> =
    | On(list: ControlNode<T>, op: Op<T>)
    | OnReply(list: ControlNode<T>, op: Op<T>, k: nat)
    | Join(target: ControlNode<T>, source: ControlNode<T>)

  function Resolved<T>(c: Command<T>, replies: seq<Reply<T>>): Command<T> {
    match c
    case OnReply(list, op, k) => On(list, WithHandle(op, if k < |replies| then HandleIn(replies[k]) else null))
    case _ => c
  }

  /** The command names only lists and nodes of this world. */
  ghost predicate Proper<T>(lists: set<ControlNode<T>>, made: set<LinkNode<T>>, c: Command<T>) {
    match c
    case On(list, op) => list in lists && (HandleOf(op) == null || HandleOf(op) in made) && (op.Copy? ==> op.source in lists)
    case OnReply(list, op, _) => list in lists && (op.Copy? ==> op.source in lists)
    case Join(target, source) => target in lists && source in lists && target != source
  }

  type Snapshot<T> = map<ControlNode<T>, AbstractList<T>>

  /** The lists are well formed, they share no node, and all their nodes are known. */
  ghost predicate InOrder<T>(b: Snapshot<T>, known: set<LinkNode<T>>) {
    && (forall l | l in b :: WellFormed(b[l]))
    && (forall l, i | l in b && 0 <= i < |b[l].nodes| :: b[l].nodes[i] in known)
    && (forall l, m | l in b && m in b && l != m :: Disjoint(b[l].nodes, b[m].nodes))
  }

  ghost predicate Named<T>(b: Snapshot<T>, c: Command<T>) {
    match c
    case On(list, op) => list in b && WellFormed(b[list]) && (op.Copy? ==> op.source in b)
    case OnReply(_, _, _) => false
    case Join(t, s) => t in b && s in b
  }

  ghost function Source<T>(b: Snapshot<T>, list: ControlNode<T>, op: Op<T>): AbstractList<T>
    requires Named(b, On(list, op))
  {
    b[SourceOf(op, list)]
  }

  function Joined<T>(t: AbstractList<T>, s: AbstractList<T>): AbstractList<T> {
    AbstractList(t.nodes + s.nodes, t.items + s.items, if t.nodes == [] then s.cursor else t.cursor)
  }

  /** How many nodes a command makes. */
  ghost function NewIn<T>(b: Snapshot<T>, c: Command<T>): nat
    requires Named(b, c)
  {
    match c
    case On(list, op) =>
      if Demands(op, b[list], Source(b, list, op)) then NewNodes(op, b[list], Source(b, list, op)) else 0
    case _ => 0
  }

  /**
   * What a command makes of the lists, and its reply, given the nodes it makes. A caller does not make a call whose
   * demands are not met.
   */
  ghost function Step<T>(b: Snapshot<T>, c: Command<T>, new1: seq<LinkNode<T>>): (Snapshot<T>, Reply<T>)
    requires Named(b, c) && |new1| == NewIn(b, c)
  {
    match c
    case On(list, op) =>
      if Demands(op, b[list], Source(b, list, op)) then
        var (a, r) := After(op, b[list], Source(b, list, op), new1);
        (b[list := a], r)
      else
        (b, Skipped)
    case Join(t, s) =>
      if |b[t].nodes| + |b[s].nodes| <= MAX_COUNT then
        (b[t := Joined(b[t], b[s])][s := AbstractList([], [], -1)], Code(SUCCESS))
      else
        (b, Skipped)
  }

  /** A step of a run: the lists and the reply are what the command says, and the nodes it makes were not known before. */
  ghost predicate Stepped<T>(b: Snapshot<T>, known: set<LinkNode<T>>, c: Command<T>, new1: seq<LinkNode<T>>,
                             a: Snapshot<T>, known': set<LinkNode<T>>, r: Reply<T>)
  {
    && Named(b, c) && |new1| == NewIn(b, c) && (a, r) == Step(b, c, new1)
    && Members(new1) !! known && known' == known + Members(new1)
  }

  lemma SteppedOn<T>(b: Snapshot<T>, known: set<LinkNode<T>>, list: ControlNode<T>, op: Op<T>, new1: seq<LinkNode<T>>,
                     a: AbstractList<T>, known': set<LinkNode<T>>, r: Reply<T>)
    requires Named(b, On(list, op)) && Demands(op, b[list], Source(b, list, op))
    requires Yields(op, b[list], Source(b, list, op), new1, a, r)
    requires Members(new1) !! known && known' == known + Members(new1)
    ensures Stepped(b, known, On(list, op), new1, b[list := a], known', r)
  {
    hide After, Demands, NewNodes;
  }

  lemma SkippedOn<T>(b: Snapshot<T>, known: set<LinkNode<T>>, list: ControlNode<T>, op: Op<T>)
    requires Named(b, On(list, op)) && !Demands(op, b[list], Source(b, list, op))
    ensures Stepped(b, known, On(list, op), [], b, known, Skipped)
  {
    hide After, Demands, NewNodes;
  }

  /** The run of a script: the lists and the known nodes between the steps, the replies, and the nodes made on the way. */
  ghost predicate Runs<T>(script: seq<Command<T>>, replies: seq<Reply<T>>, news: seq<seq<LinkNode<T>>>,
                          snaps: seq<Snapshot<T>>, known: seq<set<LinkNode<T>>>)
  {
    && |replies| == |news| == |script| && |snaps| == |known| == |script| + 1
    && (forall k :: 0 <= k <= |script| ==> InOrder(snaps[k], known[k]))
    && (forall k :: 0 <= k < |script| ==>
          Stepped(snaps[k], known[k], Resolved(script[k], replies[..k]), news[k], snaps[k + 1], known[k + 1], replies[k]))
  }

  /** Two runs of a script that start with the same lists and make the same nodes agree in every list and every reply. */
  lemma {:induction false} RunDetermined<T>(
      script: seq<Command<T>>, news: seq<seq<LinkNode<T>>>,
      replies: seq<Reply<T>>, snaps: seq<Snapshot<T>>, known: seq<set<LinkNode<T>>>,
      replies': seq<Reply<T>>, snaps': seq<Snapshot<T>>, known': seq<set<LinkNode<T>>>, n: nat)
    requires Runs(script, replies, news, snaps, known) && Runs(script, replies', news, snaps', known')
    requires snaps[0] == snaps'[0] && n <= |script|
    ensures replies[..n] == replies'[..n] && snaps[..n + 1] == snaps'[..n + 1]
  {
    hide Step, Named, NewIn, InOrder, Resolved;
    if n > 0 {
      RunDetermined(script, news, replies, snaps, known, replies', snaps', known', n - 1);
      var k := n - 1;
      assert snaps[..n][k] == snaps'[..n][k];
      assert Stepped(snaps[k], known[k], Resolved(script[k], replies[..k]), news[k], snaps[n], known[n], replies[k]);
      assert Stepped(snaps'[k], known'[k], Resolved(script[k], replies'[..k]), news[k], snaps'[n], known'[n], replies'[k]);
      assert replies[..n] == replies[..k] + [replies[k]] && replies'[..n] == replies'[..k] + [replies'[k]];
      assert snaps[..n + 1] == snaps[..n] + [snaps[n]] && snaps'[..n + 1] == snaps'[..n] + [snaps'[n]];
    }
  }

  lemma DemandsOf<T>(op: Op<T>, b: AbstractList<T>, s: AbstractList<T>)
    ensures Demands(op, b, s) <==>
            if op.Insert? || op.ExclusiveInsert? then InsertDemands(b, op.target, op.mode)
            else if op.Copy? then |b.nodes| + |s.nodes| <= MAX_COUNT
            else !op.Sort? || |b.nodes| <= 0x8000_0000
  {
  }

  /** The test a careful caller makes before an operation. */
  method Ready<T(==)>(list: ControlNode<T>, op: Op<T>) returns (ok: bool)
    requires list.Valid() && Truthful(list, HandleOf(op)) && SourceOf(op, list).Valid()
    ensures ok == Demands(op, View(list), View(SourceOf(op, list)))
  {
    hide Chained, Distinct;
    DemandsOf(op, View(list), View(SourceOf(op, list)));
    hide Demands, Items;
    if op.Insert? || op.ExclusiveInsert? {
      ok := list.itemCount < MAX_COUNT &&
            (op.target == null || list.itemCount == 0 || !(op.mode.InsertBefore? || op.mode.InsertAfter?)
             || op.target.owner == list);
    } else if op.Copy? {
      ok := list.itemCount + op.source.itemCount <= MAX_COUNT;
    } else {
      ok := !op.Sort? || list.itemCount <= 0x8000_0000;
    }
  }

  /** The lists a program works with, and all the nodes that were ever made for them. */
  class ListWorld<T(==)> {
    ghost var lists: set<ControlNode<T>>
    ghost var made: set<LinkNode<T>>

    /** Every list is well formed, and a node names an owner exactly when it is in that list: lists share no node. */
    ghost predicate Valid()
      reads this, lists, made
    {
      && (forall l, i | l in lists && 0 <= i < |l.nodes| :: l.nodes[i] in made)
      && (forall l | l in lists :: l.Valid())
      && (forall n | n in made && n.owner != null :: n.owner in lists && n in n.owner.nodes)
    }

    lemma HandlesTruthful(list: ControlNode<T>, handle: LinkNode?<T>)
      requires Valid() && list in lists && (handle == null || handle in made)
      ensures Truthful(list, handle)
    {
      if handle != null && handle in list.nodes {
        var i :| 0 <= i < |list.nodes| && list.nodes[i] == handle;
        assert list.nodes[i].owner == list;
      }
    }

    ghost predicate Known(list: ControlNode<T>, op: Op<T>)
      reads this
    {
      list in lists && (HandleOf(op) == null || HandleOf(op) in made) && SourceOf(op, list) in lists
    }

    /** After an operation on one list only that list's nodes and the new ones need another look. */
    lemma OwnersRestored(list: ControlNode<T>, nodesOf: map<ControlNode<T>, seq<LinkNode<T>>>,
                         ownerOf: map<LinkNode<T>, ControlNode?<T>>, made0: set<LinkNode<T>>, new1: seq<LinkNode<T>>)
      requires list in lists && nodesOf.Keys == lists && ownerOf.Keys == made0 && made == made0 + Members(new1)
      requires forall l | l in lists :: l.Valid()
      requires forall l | l in lists && l != list :: l.nodes == nodesOf[l]
      requires forall l, i | l in lists && 0 <= i < |nodesOf[l]| :: nodesOf[l][i] in made0
      requires forall n | n in made0 && ownerOf[n] != null :: ownerOf[n] in lists && n in nodesOf[ownerOf[n]]
      requires forall n | n in made0 && n !in nodesOf[list] :: n.owner == ownerOf[n]
      requires Accounted(list, nodesOf[list], new1)
      ensures Valid()
    {
      forall n | n in made && n.owner != null
        ensures n.owner in lists && n in n.owner.nodes
      {
        if n in list.nodes {
          var i :| 0 <= i < |list.nodes| && list.nodes[i] == n;
          assert list.nodes[i].owner == list;
        }
      }
      forall l, i | l in lists && 0 <= i < |l.nodes|
        ensures l.nodes[i] in made
      {
        if l == list && l.nodes[i] in nodesOf[list] {
          var k :| 0 <= k < |nodesOf[list]| && nodesOf[list][k] == l.nodes[i];
        }
      }
    }

    /** What an operation on one list leaves alone. */
    method ActApart(list: ControlNode<T>, op: Op<T>) returns (r: Reply<T>, ghost new1: seq<LinkNode<T>>)
      requires Valid() && Known(list, op) && Demands(op, View(list), View(SourceOf(op, list)))
      modifies list, list.nodes
      ensures fresh(new1) && Accounted(list, old(list.nodes), new1)
      ensures Yields(op, old(View(list)), old(View(SourceOf(op, list))), new1, View(list), r)
      ensures forall l | l in lists :: l.Valid() && (l != list ==> l.nodes == old(l.nodes) && View(l) == old(View(l)))
      ensures forall n | n in made && n !in old(list.nodes) :: n.owner == old(n.owner)
    {
      hide Chained, Distinct, Yields, Demands, Accounted, Items;
      forall l | l in lists && l != list
        ensures Disjoint(l.nodes, list.nodes)
      {
        OwnersDisjoint(l, list);
      }
      HandlesTruthful(list, HandleOf(op));
      r, new1 := Act(list, op);
    }

    /** One operation keeps the whole world in order and leaves every other list as it is. */
    method Perform(list: ControlNode<T>, op: Op<T>) returns (r: Reply<T>, ghost new1: seq<LinkNode<T>>)
      requires Valid() && Known(list, op) && Demands(op, View(list), View(SourceOf(op, list)))
      modifies this`made, list, list.nodes
      ensures Valid() && made == old(made) + Members(new1) && fresh(new1)
      ensures Yields(op, old(View(list)), old(View(SourceOf(op, list))), new1, View(list), r)
      ensures forall l :: l in lists && l != list ==> View(l) == old(View(l))
    {
      hide Chained, Distinct, Yields, Demands, Accounted, View, ControlNode.Valid;
      ghost var nodesOf := map l | l in lists :: l.nodes;
      ghost var ownerOf := map n | n in made :: n.owner;
      ghost var made0 := made;
      r, new1 := ActApart(list, op);
      made := made + Members(new1);
      OwnersRestored(list, nodesOf, ownerOf, made0, new1);
    }

    lemma OwnersAfterAppend(target: ControlNode<T>, source: ControlNode<T>,
                            nodesOf: map<ControlNode<T>, seq<LinkNode<T>>>,
                            ownerOf: map<LinkNode<T>, ControlNode?<T>>)
      requires target in lists && source in lists && nodesOf.Keys == lists && ownerOf.Keys == made
      requires forall l | l in lists :: l.Valid()
      requires forall l | l in lists && l != target && l != source :: l.nodes == nodesOf[l]
      requires target.nodes == nodesOf[target] + nodesOf[source] && source.nodes == []
      requires forall l, i | l in lists && 0 <= i < |nodesOf[l]| :: nodesOf[l][i] in made
      requires forall n | n in made && ownerOf[n] != null :: ownerOf[n] in lists && n in nodesOf[ownerOf[n]]
      requires forall n | n in made && n !in target.nodes :: n.owner == ownerOf[n]
      ensures Valid()
    {
      forall n | n in made && n.owner != null
        ensures n.owner in lists && n in n.owner.nodes
      {
        if n in target.nodes {
          var i :| 0 <= i < |target.nodes| && target.nodes[i] == n;
          assert target.nodes[i].owner == target;
        } else {
          assert n !in nodesOf[target] && n !in nodesOf[source];
        }
      }
    }

    /** What appending leaves alone. */
    method AppendApart(target: ControlNode<T>, source: ControlNode<T>) returns (rc: int)
      requires Valid() && target in lists && source in lists && target != source
      requires target.itemCount + source.itemCount <= MAX_COUNT
      modifies target, source, target.nodes, source.nodes
      ensures rc == SUCCESS && target.nodes == old(target.nodes) + old(source.nodes) && source.nodes == []
      ensures target.cursor == if old(target.nodes) == [] then old(source.cursor) else old(target.cursor)
      ensures Items(old(target.nodes)) == old(Items(target.nodes)) && Items(old(source.nodes)) == old(Items(source.nodes))
      ensures source.Valid()
      ensures forall l | l in lists ::
                l.Valid() && (l != target && l != source ==> l.nodes == old(l.nodes) && View(l) == old(View(l)))
      ensures forall n | n in made && n !in old(target.nodes) && n !in old(source.nodes) :: n.owner == old(n.owner)
    {
      hide Chained, Distinct, Items;
      forall l | l in lists && l != target && l != source
        ensures Disjoint(l.nodes, target.nodes) && Disjoint(l.nodes, source.nodes)
      {
        OwnersDisjoint(l, target);
        OwnersDisjoint(l, source);
      }
      rc := AppendList(target, source);
    }

    method Append(target: ControlNode<T>, source: ControlNode<T>) returns (rc: int)
      requires Valid() && target in lists && source in lists && target != source
      requires target.itemCount + source.itemCount <= MAX_COUNT
      modifies target, source, target.nodes, source.nodes
      ensures Valid() && rc == SUCCESS && View(source) == AbstractList([], [], -1)
      ensures View(target) == Joined(old(View(target)), old(View(source)))
      ensures forall l :: l in lists && l != target && l != source ==> View(l) == old(View(l))
    {
      hide Chained, Distinct, ControlNode.Valid, Items;
      ghost var nodesOf := map l | l in lists :: l.nodes;
      ghost var ownerOf := map n | n in made :: n.owner;
      rc := AppendApart(target, source);
      NoItems(source);
      OwnersAfterAppend(target, source, nodesOf, ownerOf);
      ItemsConcat(nodesOf[target], nodesOf[source]);
    }

    lemma NoItems(list: ControlNode<T>)
      requires list.Valid() && list.nodes == []
      ensures View(list) == AbstractList([], [], -1)
    {
    }

    /** There is no list when its memory cannot be had. */
    method Create(mallocOk: bool) returns (list: ControlNode?<T>)
      requires Valid()
      modifies this`lists
      ensures Valid() && (list != null <==> mallocOk)
      ensures list == null ==> lists == old(lists)
      ensures list != null ==> fresh(list) && lists == old(lists) + {list} && View(list) == AbstractList([], [], -1)
      ensures forall l :: l in old(lists) ==> View(l) == old(View(l))
    {
      if !mallocOk {
        return null;
      }
      var made := new ControlNode<T>();
      lists := lists + {made};
      list := made;
    }

    ghost function Snap(): Snapshot<T>
      requires Valid()
      reads this, lists, made
    {
      map l | l in lists :: View(l)
    }

    lemma SnapInOrder()
      requires Valid()
      ensures InOrder(Snap(), made)
    {
      hide Chained, Items;
      forall l, m | l in lists && m in lists && l != m
        ensures Disjoint(l.nodes, m.nodes)
      {
        OwnersDisjoint(l, m);
      }
    }

    lemma SnapAt(list: ControlNode<T>)
      requires Valid() && list in lists
      ensures list.Valid() && list in Snap() && Snap()[list] == View(list) && WellFormed(View(list))
    {
      ViewWellFormed(list);
    }

    method ExecuteOn(list: ControlNode<T>, op: Op<T>) returns (r: Reply<T>, ghost new1: seq<LinkNode<T>>)
      requires Valid() && Known(list, op)
      modifies this`made, list, list.nodes
      ensures Valid() && lists == old(lists) && old(made) <= made && fresh(made - old(made))
      ensures HandleIn(r) == null || HandleIn(r) in made
      ensures Stepped(old(Snap()), old(made), On(list, op), new1, Snap(), made, r)
    {
      hide Chained, Distinct, Yields, Demands, Stepped, View, ListWorld.Valid, ControlNode.Valid, WellFormed;
      ghost var b: Snapshot<T> := Snap();
      ghost var known, s := made, SourceOf(op, list);
      SnapAt(list);
      SnapAt(s);
      HandlesTruthful(list, HandleOf(op));
      r, new1 := Skipped, [];
      var ok := Ready(list, op);
      if ok {
        r, new1 := Perform(list, op);
        HandleIsNew(op, b[list], b[s], new1, View(list), r);
        assert Snap() == b[list := View(list)];
        SteppedOn(b, known, list, op, new1, View(list), made, r);
      } else {
        SkippedOn(b, known, list, op);
      }
    }

    method ExecuteJoin(target: ControlNode<T>, source: ControlNode<T>) returns (r: Reply<T>)
      requires Valid() && target in lists && source in lists && target != source
      modifies target, source, target.nodes, source.nodes
      ensures Valid() && HandleIn(r) == null
      ensures Stepped(old(Snap()), made, Join(target, source), [], Snap(), made, r)
    {
      hide Chained, Distinct, View, ListWorld.Valid, ControlNode.Valid, WellFormed;
      ghost var b: Snapshot<T> := Snap();
      SnapAt(target);
      SnapAt(source);
      Counts(target);
      Counts(source);
      r := Skipped;
      if target.itemCount + source.itemCount <= MAX_COUNT {
        var rc := Append(target, source);
        r := Code(rc);
        assert Snap() == b[target := View(target)][source := View(source)];
      }
    }

    lemma Counts(list: ControlNode<T>)
      requires list.Valid()
      ensures list.itemCount == |View(list).nodes|
    {
    }

    /** One command of a program. */
    method Execute(c: Command<T>, replies: seq<Reply<T>>) returns (r: Reply<T>, ghost new1: seq<LinkNode<T>>)
      requires Valid() && Proper(lists, made, c)
      requires forall k :: 0 <= k < |replies| && HandleIn(replies[k]) != null ==> HandleIn(replies[k]) in made
      modifies this`made, lists, made
      ensures Valid() && lists == old(lists) && old(made) <= made && fresh(made - old(made))
      ensures HandleIn(r) == null || HandleIn(r) in made
      ensures Stepped(old(Snap()), old(made), Resolved(c, replies), new1, Snap(), made, r)
    {
      hide Chained, Distinct, Demands, Stepped, View, ControlNode.Valid;
      new1 := [];
      match c
      case On(list, op) => r, new1 := ExecuteOn(list, op);
      case OnReply(list, op, k) =>
        r, new1 := ExecuteOn(list, WithHandle(op, if k < |replies| then HandleIn(replies[k]) else null));
      case Join(target, source) => r := ExecuteJoin(target, source);
    }

    /**
     * A run of any program on the lists of this world: the world stays in order all the way, and the recorded snapshots
     * lead from the start to the end, each step and each reply as its command says.
     */
    method Run(script: seq<Command<T>>)
      returns (replies: seq<Reply<T>>, ghost news: seq<seq<LinkNode<T>>>, ghost snaps: seq<Snapshot<T>>,
               ghost known: seq<set<LinkNode<T>>>)
      requires Valid() && forall k :: 0 <= k < |script| ==> Proper(lists, made, script[k])
      modifies this`made, lists, made
      ensures Valid() && lists == old(lists) && Runs(script, replies, news, snaps, known)
      ensures snaps[0] == old(Snap()) && snaps[|script|] == Snap()
      ensures known[0] == old(made) && known[|script|] == made && fresh(made - old(made))
    {
      hide Chained, Distinct, Stepped, View, ControlNode.Valid, ListWorld.Valid, Resolved, InOrder;
      replies, news, snaps, known := [], [], [Snap()], [made];
      SnapInOrder();
      for i := 0 to |script|
        invariant Valid() && lists == old(lists) && old(made) <= made && fresh(made - old(made))
        invariant |replies| == i && forall k :: 0 <= k < i && HandleIn(replies[k]) != null ==> HandleIn(replies[k]) in made
        invariant Runs(script[..i], replies, news, snaps, known)
        invariant snaps[0] == old(Snap()) && snaps[i] == Snap() && known[0] == old(made) && known[i] == made
      {
        var r;
        ghost var new1;
        r, new1 := Execute(script[i], replies);
        SnapInOrder();
        RunsOn(script[..i], replies, news, snaps, known, script[i], new1, Snap(), made, r);
        assert script[..i + 1] == script[..i] + [script[i]];
        replies, news, snaps, known := replies + [r], news + [new1], snaps + [Snap()], known + [made];
      }
      assert script[..|script|] == script;
    }
  }

  /** A run goes on by one more step. */
  lemma RunsOn<T>(script: seq<Command<T>>, replies: seq<Reply<T>>, news: seq<seq<LinkNode<T>>>, snaps: seq<Snapshot<T>>,
                  known: seq<set<LinkNode<T>>>, c: Command<T>, new1: seq<LinkNode<T>>, a: Snapshot<T>,
                  known1: set<LinkNode<T>>, r: Reply<T>)
    requires Runs(script, replies, news, snaps, known) && InOrder(a, known1)
    requires Stepped(snaps[|script|], known[|script|], Resolved(c, replies), new1, a, known1, r)
    ensures Runs(script + [c], replies + [r], news + [new1], snaps + [a], known + [known1])
  {
    hide Stepped, InOrder, Resolved;
    assert forall k :: 0 <= k <= |replies| ==> (replies + [r])[..k] == replies[..k];
    assert replies[..|replies|] == replies;
  }
}
