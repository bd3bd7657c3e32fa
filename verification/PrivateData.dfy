/** The private data of threads: a chained hash table with a bounded list of sizes for every thread. */
module PrivateData {

  const HASH_SIZE: nat := 64
  const MAX_EXPAND_POINTS: nat := 128

  type Thread = nat

  datatype Point = Point(handle: nat, size: nat)

  // ----- what the table means

  /** The points that each thread has used up so far; a thread without an entry is different from one with none. */
  type Table = map<Thread, seq<Point>>

  datatype Event = Insert(thread: Thread, handle: nat, size: nat) | Clear(thread: Thread)

  function PointsOf(m: Table, t: Thread): seq<Point> { if t in m then m[t] else [] }

  function Cleared(n: nat): (s: seq<Point>)
    ensures |s| == n && forall k :: 0 <= k < n ==> s[k] == Point(0, 0)
  {
    seq(n, k => Point(0, 0))
  }

  function Inserted(m: Table, t: Thread, h: nat, size: nat): Table {
    var points := PointsOf(m, t);
    m[t := if |points| >= MAX_EXPAND_POINTS then points else points + [Point(h, size)]]
  }

  function Emptied(m: Table, t: Thread): Table {
    if t in m then m[t := Cleared(|m[t]|)] else m
  }

  function Apply(m: Table, e: Event): Table {
    match e
    case Insert(t, h, size) => Inserted(m, t, h, size)
    case Clear(t) => Emptied(m, t)
  }

  function Run(events: seq<Event>): Table {
    if events == [] then map[] else Apply(Run(events[..|events| - 1]), events[|events| - 1])
  }

  /** The size at the first point with that handle, or 0. */
  function Lookup(points: seq<Point>, h: nat): nat {
    if points == [] then 0 else if points[0].handle == h then points[0].size else Lookup(points[1..], h)
  }

  // ----- what a query gives after any history

  function Inserts(events: seq<Event>, t: Thread): nat {
    if events == [] then 0
    else
      var last := events[|events| - 1];
      Inserts(events[..|events| - 1], t) + if last.Insert? && last.thread == t then 1 else 0
  }

  datatype Option<+A> = None | Some(value: A)

  /** The first size that the thread inserted for the handle since it last cleared, not counting what it could not store. */
  function FirstSince(events: seq<Event>, t: Thread, h: nat): Option<nat> {
    if events == [] then None
    else
      var before := events[..|events| - 1];
      match events[|events| - 1]
      case Clear(u) => if u == t then None else FirstSince(before, t, h)
      case Insert(u, k, size) =>
        if u == t && k == h && FirstSince(before, t, h).None? && Inserts(before, t) < 128 then Some(size)
        else FirstSince(before, t, h)
  }

  predicate Occurs(points: seq<Point>, h: nat) { exists k :: 0 <= k < |points| && points[k].handle == h }

  lemma {:induction false} LookupAppend(points: seq<Point>, x: Point, h: nat)
    ensures Lookup(points + [x], h) == if Occurs(points, h) then Lookup(points, h) else if x.handle == h then x.size else 0
    ensures !Occurs(points, h) ==> Lookup(points, h) == 0
    ensures Occurs(points + [x], h) <==> Occurs(points, h) || x.handle == h
  {
    var longer := points + [x];
    assert longer[|points|] == x;
    if points != [] {
      LookupAppend(points[1..], x, h);
      assert longer[1..] == points[1..] + [x];
      OccursCons(points, h);
      OccursCons(longer, h);
    }
  }

  lemma OccursCons(points: seq<Point>, h: nat)
    requires points != []
    ensures Occurs(points, h) <==> points[0].handle == h || Occurs(points[1..], h)
  {
    if Occurs(points[1..], h) {
      var k :| 0 <= k < |points[1..]| && points[1..][k].handle == h;
      assert points[k + 1].handle == h;
    }
    if Occurs(points, h) && points[0].handle != h {
      var k :| 0 <= k < |points| && points[k].handle == h;
      assert points[1..][k - 1].handle == h;
    }
  }

  /** A thread uses up a point with every insertion, up to the maximum, and never gets one back. */
  lemma {:induction false} PointsUsed(events: seq<Event>, t: Thread)
    ensures var n := Inserts(events, t); |PointsOf(Run(events), t)| == if n < 128 then n else 128
    ensures t in Run(events) <==> Inserts(events, t) > 0
  {
    if events != [] {
      PointsUsed(events[..|events| - 1], t);
    }
  }

  lemma {:induction false} PointsNeverShrink(events: seq<Event>, more: seq<Event>, t: Thread)
    ensures |PointsOf(Run(events), t)| <= |PointsOf(Run(events + more), t)|
  {
    if more == [] {
      assert events + more == events;
    } else {
      var last := |more| - 1;
      assert (events + more)[..|events| + last] == events + more[..last];
      PointsNeverShrink(events, more[..last], t);
    }
  }

  lemma {:induction false} QueryGives(events: seq<Event>, t: Thread, h: nat)
    requires h != 0
    ensures var points, first := PointsOf(Run(events), t), FirstSince(events, t, h);
            && (Occurs(points, h) <==> first.Some?)
            && Lookup(points, h) == if first.Some? then first.value else 0
  {
    if events != [] {
      var before := events[..|events| - 1];
      var points := PointsOf(Run(before), t);
      QueryGives(before, t, h);
      PointsUsed(before, t);
      match events[|events| - 1]
      case Clear(u) => ClearedHasNone(|points|, h);
      case Insert(u, k, size) => LookupAppend(points, Point(k, size), h);
    }
  }

  lemma {:induction false} ClearedHasNone(n: nat, h: nat)
    requires h != 0
    ensures Lookup(Cleared(n), h) == 0 && !Occurs(Cleared(n), h)
  {
    if n > 0 {
      assert Cleared(n)[1..] == Cleared(n - 1);
      ClearedHasNone(n - 1, h);
    }
  }

  /**
   * After any history a query of a handle other than 0 gives the first size that this thread has stored for it since it
   * last cleared its node, and 0 if there is none.
   */
  lemma QueryIsFirstSince(events: seq<Event>, t: Thread, h: nat)
    requires h != 0
    ensures Lookup(PointsOf(Run(events), t), h) == match FirstSince(events, t, h) case Some(size) => size case None => 0
  {
    QueryGives(events, t, h);
  }

  /** How many slots of the thread were zeroed when it last cleared its node. */
  function ClearedSlots(events: seq<Event>, t: Thread): nat {
    if events == [] then 0
    else
      var before := events[..|events| - 1];
      if events[|events| - 1] == Clear(t) then |PointsOf(Run(before), t)| else ClearedSlots(before, t)
  }

  /** The zeroed slots come first; as long as there are none, handle 0 is like any other. */
  lemma {:induction false} ZeroGives(events: seq<Event>, t: Thread)
    ensures var points, first := PointsOf(Run(events), t), FirstSince(events, t, 0);
            && ClearedSlots(events, t) <= |points|
            && (ClearedSlots(events, t) > 0 ==> points[0] == Point(0, 0))
            && (ClearedSlots(events, t) == 0 ==>
                  && (Occurs(points, 0) <==> first.Some?)
                  && Lookup(points, 0) == if first.Some? then first.value else 0)
  {
    if events != [] {
      var before := events[..|events| - 1];
      var points := PointsOf(Run(before), t);
      ZeroGives(before, t);
      PointsUsed(before, t);
      match events[|events| - 1]
      case Clear(u) => assert u == t && |points| == 0 ==> PointsOf(Run(events), t) == [];
      case Insert(u, k, size) => LookupAppend(points, Point(k, size), 0);
    }
  }

  /**
   * Handle 0 is different: what was stored for it behind zeroed slots is not found. A query gives the first size since the
   * last clearing if and only if no slot was in use then, or that size is 0.
   */
  lemma ZeroQueryExactly(events: seq<Event>, t: Thread)
    ensures var expected := match FirstSince(events, t, 0) case Some(size) => size case None => 0;
            Lookup(PointsOf(Run(events), t), 0) == expected <==> ClearedSlots(events, t) == 0 || expected == 0
  {
    ZeroGives(events, t);
  }

  /** The shortest such history. */
  lemma ZeroHandleIsHidden(t: Thread, h: nat, size: nat, later: nat)
    ensures var events := [Insert(t, h, size), Clear(t), Insert(t, 0, later)];
            Lookup(PointsOf(Run(events), t), 0) == 0 && FirstSince(events, t, 0) == Some(later)
  {
    var a, b, c := Insert(t, h, size), Clear(t), Insert(t, 0, later);
    assert [a, b, c][..2] == [a, b] && [a, b][..1] == [a] && [a][..0] == [];
    assert Run([a]) == Apply(Run([]), a);
    assert Run([a, b]) == Apply(Run([a]), b);
    assert Run([a, b, c]) == Apply(Run([a, b]), c);
    assert PointsOf(Run([a, b]), t) == [Point(0, 0)];
    assert FirstSince([a, b], t, 0) == None && Inserts([a], t) == 1 && Inserts([a, b], t) == 1;
  }

  /** The events of one thread. */
  function Own(events: seq<Event>, t: Thread): seq<Event> {
    if events == [] then []
    else Own(events[..|events| - 1], t) + if events[|events| - 1].thread == t then [events[|events| - 1]] else []
  }

  /** What a thread finds depends on its own insertions and clearings only. */
  lemma {:induction false} ThreadsApart(events: seq<Event>, t: Thread)
    ensures PointsOf(Run(events), t) == PointsOf(Run(Own(events, t)), t)
    ensures t in Run(events) <==> t in Run(Own(events, t))
  {
    if events != [] {
      var before, last := events[..|events| - 1], events[|events| - 1];
      ThreadsApart(before, t);
      if last.thread == t {
        assert (Own(before, t) + [last])[..|Own(before, t)|] == Own(before, t);
      } else {
        assert Own(before, t) + [] == Own(before, t);
      }
    }
  }

  // ----- the chained hash table

  class HashNode {
    const threadId: Thread
    var count: nat
    /** The slots are part of the node. */
    var points: seq<Point>
    var next: HashNode?

    constructor (threadId: Thread, next: HashNode?)
      ensures this.threadId == threadId && this.next == next && count == 0 && points == Cleared(MAX_EXPAND_POINTS)
    {
      this.threadId, this.next := threadId, next;
      count := 0;
      points := Cleared(MAX_EXPAND_POINTS);
    }
  }

  ghost function At(chain: seq<HashNode>, k: int): HashNode? { if 0 <= k < |chain| then chain[k] else null }

  /** The chain of bucket b: nodes that belong there, no two for the same thread, linked up to the last one. */
  ghost predicate Chained(chain: seq<HashNode>, first: HashNode?, b: nat, nodes: map<Thread, HashNode>)
    reads chain`next
  {
    && first == At(chain, 0)
    && (forall k {:trigger chain[k].threadId} :: 0 <= k < |chain| ==>
          chain[k].threadId % HASH_SIZE == b && chain[k].threadId in nodes && nodes[chain[k].threadId] == chain[k])
    && (forall k {:trigger chain[k].next} :: 0 <= k < |chain| ==> chain[k].next == At(chain, k + 1))
    && (forall j, k :: 0 <= j < k < |chain| ==> chain[j] != chain[k])
  }

  /** A node of a new thread in front of a chain. */
  lemma ChainedInFront(chain: seq<HashNode>, b: nat, nodes: map<Thread, HashNode>, node: HashNode)
    requires Chained(chain, node.next, b, nodes) && node.threadId % HASH_SIZE == b && node.threadId !in nodes
    ensures Chained([node] + chain, node, b, nodes[node.threadId := node])
  {
    var longer := [node] + chain;
    forall k | 0 < k < |longer|
      ensures longer[k] == chain[k - 1] && longer[k] != node && longer[k].next == At(longer, k + 1)
    {
      assert chain[k - 1].threadId in nodes;
      assert chain[k - 1].next == At(chain, k);
    }
  }

  lemma ChainedStill(chain: seq<HashNode>, first: HashNode?, b: nat, nodes: map<Thread, HashNode>, node: HashNode)
    requires Chained(chain, first, b, nodes) && node.threadId !in nodes
    ensures Chained(chain, first, b, nodes[node.threadId := node])
  {
  }

  class HashTable {
    const entries: array<HashNode?>
    /** The nodes of each bucket in the order of its chain. */
    ghost var chains: seq<seq<HashNode>>
    ghost var nodes: map<Thread, HashNode>

    /** Every bucket is a chain, and every thread has at most one node, in the bucket of its number. */
    ghost predicate Linked()
      reads this, entries, nodes.Values`next
    {
      && entries.Length == HASH_SIZE == |chains|
      && (forall b, k {:trigger chains[b][k]} :: 0 <= b < HASH_SIZE && 0 <= k < |chains[b]| ==> chains[b][k] in nodes.Values)
      && (forall b {:trigger chains[b]} :: 0 <= b < HASH_SIZE ==> Chained(chains[b], entries[b], b, nodes))
      && (forall t :: t in nodes ==> nodes[t].threadId == t && nodes[t] in chains[t % HASH_SIZE])
    }

    ghost predicate Sized()
      reads this, nodes.Values`count, nodes.Values`points
    {
      forall t :: t in nodes ==> nodes[t].count <= MAX_EXPAND_POINTS == |nodes[t].points|
    }

    ghost predicate Valid()
      reads this, entries, nodes.Values
    {
      Linked() && Sized()
    }

    ghost function View(): Table
      requires Sized()
      reads this, nodes.Values`count, nodes.Values`points
    {
      map t | t in nodes :: nodes[t].points[..nodes[t].count]
    }

    constructor ()
      ensures Valid() && View() == map[]
    {
      entries := new HashNode?[HASH_SIZE](i => null);
      chains, nodes := seq(HASH_SIZE, i => []), map[];
    }

    method InitHash()
      requires entries.Length == HASH_SIZE
      modifies this, entries
      ensures Valid() && View() == map[]
    {
      for i := 0 to HASH_SIZE
        invariant forall k :: 0 <= k < i ==> entries[k] == null
      {
        entries[i] := null;
      }
      chains, nodes := seq(HASH_SIZE, i => []), map[];
    }

    method SearchNode(t: Thread) returns (node: HashNode?)
      requires Valid()
      ensures node == if t in nodes then nodes[t] else null
    {
      var b := t % HASH_SIZE;
      ghost var k := 0;
      node := entries[b];
      while node != null
        invariant 0 <= k <= |chains[b]| && node == At(chains[b], k)
        invariant forall j :: 0 <= j < k ==> chains[b][j].threadId != t
        decreases |chains[b]| - k
      {
        if node.threadId == t {
          return;
        }
        node := node.next;
        k := k + 1;
      }
    }

    /** The node of the thread; a new one goes to the front of its chain. */
    method AddNode(t: Thread) returns (node: HashNode)
      requires Valid()
      modifies this, entries
      ensures Valid() && t in nodes && node == nodes[t] && (t in old(nodes) ==> node == old(nodes)[t])
      ensures nodes == old(nodes)[t := node] && (t !in old(nodes) ==> fresh(node))
      ensures View() == old(View())[t := PointsOf(old(View()), t)]
    {
      hide Linked, Sized, View;
      Facts(t);
      var present := SearchNode(t);
      if present != null {
        assert View()[t := PointsOf(View(), t)] == View();
        return present;
      }
      var b := t % HASH_SIZE;
      node := new HashNode(t, entries[b]);
      LinkInFront(b, node);
    }

    lemma Facts(t: Thread)
      requires Valid()
      ensures entries.Length == HASH_SIZE && (t in View() <==> t in nodes)
    {
    }

    method LinkInFront(b: nat, node: HashNode)
      requires Valid() && b < HASH_SIZE && node.threadId % HASH_SIZE == b
      requires node.threadId !in nodes && entries.Length == HASH_SIZE
      requires node.next == entries[b] && node.count == 0 && |node.points| == MAX_EXPAND_POINTS
      modifies this, entries
      ensures Valid() && nodes == old(nodes)[node.threadId := node] && View() == old(View())[node.threadId := []]
    {
      hide Chained;
      AllChained(b, node);
      AllListed(chains, nodes, b, node);
      entries[b] := node;
      chains, nodes := chains[b := [node] + chains[b]], nodes[node.threadId := node];
    }

    lemma AllChained(b: nat, node: HashNode)
      requires Linked() && b == node.threadId % HASH_SIZE && node.threadId !in nodes && node.next == entries[b]
      ensures Listed(chains, nodes) && Chained([node] + chains[b], node, b, nodes[node.threadId := node])
      ensures forall c {:trigger chains[c]} :: 0 <= c < HASH_SIZE ==>
                Chained(chains[c], entries[c], c, nodes[node.threadId := node])
    {
      ChainedInFront(chains[b], b, nodes, node);
      forall c | 0 <= c < HASH_SIZE
        ensures Chained(chains[c], entries[c], c, nodes[node.threadId := node])
      {
        ChainedStill(chains[c], entries[c], c, nodes, node);
      }
    }

    ghost predicate Listed(chains: seq<seq<HashNode>>, nodes: map<Thread, HashNode>) {
      && |chains| == HASH_SIZE
      && (forall b, k {:trigger chains[b][k]} :: 0 <= b < HASH_SIZE && 0 <= k < |chains[b]| ==> chains[b][k] in nodes.Values)
      && (forall t :: t in nodes ==> nodes[t].threadId == t && nodes[t] in chains[t % HASH_SIZE])
    }

    lemma AllListed(chains: seq<seq<HashNode>>, nodes: map<Thread, HashNode>, b: nat, node: HashNode)
      requires Listed(chains, nodes) && b == node.threadId % HASH_SIZE && node.threadId !in nodes
      ensures Listed(chains[b := [node] + chains[b]], nodes[node.threadId := node])
    {
      var chains', nodes' := chains[b := [node] + chains[b]], nodes[node.threadId := node];
      assert nodes'[node.threadId] in nodes'.Values && chains'[b][0] == node;
      forall c, k | 0 <= c < HASH_SIZE && 0 <= k < |chains'[c]|
        ensures chains'[c][k] in nodes'.Values
      {
        if c != b || k > 0 {
          var x := if c == b then chains[b][k - 1] else chains[c][k];
          var t :| t in nodes && nodes[t] == x;
          assert nodes'[t] == x;
        }
      }
      forall t | t in nodes'
        ensures nodes'[t].threadId == t && nodes'[t] in chains'[t % HASH_SIZE]
      {
        if t != node.threadId {
          assert nodes[t] in chains[t % HASH_SIZE];
        }
      }
    }

    /** ClearNode: the points are zeroed, but stay used up. */
    method ClearNode(t: Thread) returns (r: int)
      requires Valid()
      modifies nodes.Values`points
      ensures Valid() && r == (if t in old(View()) then 0 else -1) && View() == Emptied(old(View()), t)
    {
      hide Linked, Sized, View;
      Facts(t);
      var node := SearchNode(t);
      if node == null {
        return -1;
      }
      OwnNode(t);
      Zero(node);
      return 0;
    }

    method Zero(node: HashNode)
      requires Valid() && node.threadId in nodes && nodes[node.threadId] == node
      modifies node`points
      ensures Valid() && View() == old(View())[node.threadId := Cleared(|old(View())[node.threadId]|)]
    {
      OwnNode(node.threadId);
      hide Linked;
      assert |View()[node.threadId]| == node.count;
      node.points := Cleared(MAX_EXPAND_POINTS);
      assert node.points[..node.count] == Cleared(node.count);
    }

    /** The nodes of other threads are other nodes. */
    lemma OwnNode(t: Thread)
      requires Valid() && t in nodes
      ensures nodes[t] in nodes.Values && nodes[t].threadId == t && forall u :: u in nodes && u != t ==> nodes[u] != nodes[t]
    {
    }

    method InsertPrivateData(t: Thread, h: nat, size: nat) returns (r: int)
      requires Valid()
      modifies this, entries, nodes.Values`points, nodes.Values`count
      ensures Valid() && View() == Inserted(old(View()), t, h, size)
      ensures t in nodes && nodes == old(nodes)[t := nodes[t]]
      ensures if t in old(nodes) then nodes[t] == old(nodes)[t] else fresh(nodes[t])
      ensures r == if |PointsOf(old(View()), t)| >= MAX_EXPAND_POINTS then -1 else 0
    {
      hide Linked;
      ghost var before := View();
      var node := AddNode(t);
      OwnNode(t);
      assert PointsOf(before, t) == View()[t] && |View()[t]| == node.count;
      if node.count >= MAX_EXPAND_POINTS {
        return -1;
      }
      Store(node, h, size);
      return 0;
    }

    method Store(node: HashNode, h: nat, size: nat)
      requires Valid() && node.threadId in nodes && nodes[node.threadId] == node && node.count < MAX_EXPAND_POINTS
      modifies node`points, node`count
      ensures Valid() && View() == old(View())[node.threadId := old(View())[node.threadId] + [Point(h, size)]]
    {
      OwnNode(node.threadId);
      hide Linked;
      node.points := node.points[node.count := Point(h, size)];
      node.count := node.count + 1;
      assert node.points[..node.count] == old(node.points[..node.count]) + [Point(h, size)];
    }

    /** A history of calls leaves the table that the history means. */
    method Execute(events: seq<Event>)
      requires Valid() && View() == map[]
      modifies this, entries, nodes.Values`points, nodes.Values`count
      ensures Valid() && View() == Run(events)
    {
      hide Linked, Sized, View, Inserted, Emptied;
      assert events[..0] == [];
      for i := 0 to |events|
        invariant Valid() && View() == Run(events[..i])
        invariant forall t :: t in nodes ==> (t in old(nodes) && nodes[t] == old(nodes)[t]) || fresh(nodes[t])
      {
        assert events[..i + 1][..i] == events[..i];
        match events[i]
        case Insert(t, h, size) => var _ := InsertPrivateData(t, h, size);
        case Clear(t) => var _ := ClearNode(t);
      }
      assert events[..|events|] == events;
    }

    /** The loop over the used slots of the thread's node. */
    method QueryPrivateData(t: Thread, h: nat) returns (size: nat)
      requires Valid()
      ensures size == Lookup(PointsOf(View(), t), h)
    {
      var node := SearchNode(t);
      if node == null {
        return 0;
      }
      ghost var points := node.points[..node.count];
      assert points[0..] == points;
      var i := 0;
      while i < node.count
        invariant 0 <= i <= node.count == |points|
        invariant Lookup(points, h) == Lookup(points[i..], h)
      {
        assert points[i..][0] == node.points[i] && points[i..][1..] == points[i + 1..];
        if h == node.points[i].handle {
          return node.points[i].size;
        }
        i := i + 1;
      }
      return 0;
    }
  }
}
