/** What a bottom-up merge sort does to the positions 0, 1, 2, ... of a list, and why the outcome is sorted and stable. */
module MergeSort {

  /** Compares the items that stood at two positions of the original list; positive when the first must come last. */
  type Order = (nat, nat) -> int

  function Merge(c: Order, a: seq<nat>, b: seq<nat>): (m: seq<nat>)
    ensures |m| == |a| + |b|
    decreases |a| + |b|
  {
    if a == [] then b
    else if b == [] then a
    else if c(a[0], b[0]) > 0 then [b[0]] + Merge(c, a, b[1..])
    else [a[0]] + Merge(c, a[1..], b)
  }

  function Min(a: nat, b: nat): nat { if a <= b then a else b }

  /** One sweep over the list: neighbouring runs of width w are merged pairwise. */
  function Pass(c: Order, s: seq<nat>, w: nat): (t: seq<nat>)
    requires 0 < w
    ensures |t| == |s|
    decreases |s|
  {
    if |s| <= w then s
    else Merge(c, s[..w], s[w..Min(2 * w, |s|)]) + Pass(c, s[Min(2 * w, |s|)..], w)
  }

  /** Sweeps with runs of width w, 2w, 4w, ... until one run covers everything. */
  function Sort(c: Order, s: seq<nat>, w: nat): (t: seq<nat>)
    requires 0 < w
    ensures |t| == |s|
    decreases |s| - w
  {
    if |s| <= w then s else Sort(c, Pass(c, s, w), 2 * w)
  }

  /** The comparison is a total preorder on the items of a list of length n. */
  ghost predicate TotalPreorder(c: Order, n: nat) {
    && (forall x: nat, y: nat | x < n && y < n :: c(x, y) <= 0 || c(y, x) <= 0)
    && (forall x: nat, y: nat, z: nat | x < n && y < n && z < n && c(x, y) <= 0 && c(y, z) <= 0 :: c(x, z) <= 0)
  }

  /** A stable sort may leave x somewhere in front of y: it is not greater, and if equal it stood in front before. */
  predicate Precedes(c: Order, x: nat, y: nat) {
    c(x, y) <= 0 && (c(y, x) <= 0 ==> x < y)
  }

  ghost predicate StablySorted(c: Order, s: seq<nat>) {
    forall i, j :: 0 <= i < j < |s| ==> Precedes(c, s[i], s[j])
  }

  ghost predicate Within(s: seq<nat>, lo: nat, hi: nat) {
    forall i :: 0 <= i < |s| ==> lo <= s[i] < hi
  }

  /** x may stand in front of everything in s. */
  ghost predicate Leads(c: Order, x: nat, s: seq<nat>) {
    forall i :: 0 <= i < |s| ==> Precedes(c, x, s[i])
  }

  lemma LeadsTransitive(c: Order, n: nat, x: nat, s: seq<nat>)
    requires TotalPreorder(c, n) && x < n && Within(s, 0, n) && StablySorted(c, s)
    requires s != [] && Precedes(c, x, s[0])
    ensures Leads(c, x, s)
  {
    forall i | 0 < i < |s|
      ensures Precedes(c, x, s[i])
    {
      assert Precedes(c, s[0], s[i]);
      assert c(x, s[i]) <= 0;
      if c(s[i], x) <= 0 {
        assert c(s[i], s[0]) <= 0 && c(s[0], x) <= 0;
      }
    }
  }

  lemma {:induction false} LeadsMerge(c: Order, x: nat, a: seq<nat>, b: seq<nat>)
    requires Leads(c, x, a) && Leads(c, x, b)
    ensures Leads(c, x, Merge(c, a, b))
    decreases |a| + |b|
  {
    if a != [] && b != [] {
      if c(a[0], b[0]) > 0 {
        LeadsMerge(c, x, a, b[1..]);
      } else {
        LeadsMerge(c, x, a[1..], b);
      }
    }
  }

  lemma SortedCons(c: Order, x: nat, s: seq<nat>)
    requires Leads(c, x, s) && StablySorted(c, s)
    ensures StablySorted(c, [x] + s)
  {
  }

  /** Everything of run a stood in front of everything of run b before the sort; merging them is then stable. */
  lemma {:induction false} MergeSorted(c: Order, n: nat, a: seq<nat>, b: seq<nat>, mid: nat)
    requires TotalPreorder(c, n) && mid <= n && Within(a, 0, mid) && Within(b, mid, n)
    requires StablySorted(c, a) && StablySorted(c, b)
    ensures StablySorted(c, Merge(c, a, b))
    decreases |a| + |b|
  {
    if a != [] && b != [] {
      if c(a[0], b[0]) > 0 {
        MergeSorted(c, n, a, b[1..], mid);
        LeadsTransitive(c, n, b[0], a);
        assert Leads(c, b[0], b[1..]);
        LeadsMerge(c, b[0], a, b[1..]);
        SortedCons(c, b[0], Merge(c, a, b[1..]));
      } else {
        MergeSorted(c, n, a[1..], b, mid);
        LeadsTransitive(c, n, a[0], b);
        assert Leads(c, a[0], a[1..]);
        LeadsMerge(c, a[0], a[1..], b);
        SortedCons(c, a[0], Merge(c, a[1..], b));
      }
    }
  }

  lemma {:induction false} MergeWithin(c: Order, a: seq<nat>, b: seq<nat>, lo: nat, hi: nat)
    requires Within(a, lo, hi) && Within(b, lo, hi)
    ensures Within(Merge(c, a, b), lo, hi)
    decreases |a| + |b|
  {
    if a != [] && b != [] {
      if c(a[0], b[0]) > 0 {
        MergeWithin(c, a, b[1..], lo, hi);
      } else {
        MergeWithin(c, a[1..], b, lo, hi);
      }
    }
  }

  /** Cut into runs of width w, each run is sorted and holds exactly the positions it covers. */
  ghost predicate RunsSorted(c: Order, s: seq<nat>, w: nat, lo: nat)
    requires 0 < w
    decreases |s|
  {
    if |s| <= w then StablySorted(c, s) && Within(s, lo, lo + |s|)
    else StablySorted(c, s[..w]) && Within(s[..w], lo, lo + w) && RunsSorted(c, s[w..], w, lo + w)
  }

  lemma MergedRun(c: Order, a: seq<nat>, b: seq<nat>, lo: nat, n: nat)
    requires TotalPreorder(c, n) && lo + |a| + |b| <= n
    requires StablySorted(c, a) && StablySorted(c, b)
    requires Within(a, lo, lo + |a|) && Within(b, lo + |a|, lo + |a| + |b|)
    ensures StablySorted(c, Merge(c, a, b)) && Within(Merge(c, a, b), lo, lo + |a| + |b|)
  {
    MergeSorted(c, n, a, b, lo + |a|);
    MergeWithin(c, a, b, lo, lo + |a| + |b|);
  }

  lemma {:induction false} PassSorted(c: Order, s: seq<nat>, w: nat, lo: nat, n: nat)
    requires 0 < w && TotalPreorder(c, n) && lo + |s| <= n && RunsSorted(c, s, w, lo)
    ensures RunsSorted(c, Pass(c, s, w), 2 * w, lo)
    decreases |s|
  {
    hide StablySorted, TotalPreorder, Merge, Within;
    if |s| > 2 * w {
      var left, right, rest := s[..w], s[w..2 * w], s[2 * w..];
      assert s[w..][..w] == right && s[w..][w..] == rest;
      MergedRun(c, left, right, lo, n);
      PassSorted(c, rest, w, lo + 2 * w, n);
      var t := Merge(c, left, right) + Pass(c, rest, w);
      assert t[..2 * w] == Merge(c, left, right) && t[2 * w..] == Pass(c, rest, w);
    } else if |s| > w {
      assert s[w..|s|] == s[w..] && s[|s|..] == [];
      MergedRun(c, s[..w], s[w..], lo, n);
      assert Merge(c, s[..w], s[w..]) + [] == Merge(c, s[..w], s[w..]);
    }
  }

  lemma {:induction false} SortSorted(c: Order, s: seq<nat>, w: nat)
    requires 0 < w && TotalPreorder(c, |s|) && RunsSorted(c, s, w, 0)
    ensures StablySorted(c, Sort(c, s, w)) && Within(Sort(c, s, w), 0, |s|)
    decreases |s| - w
  {
    if |s| > w {
      PassSorted(c, s, w, 0, |s|);
      SortSorted(c, Pass(c, s, w), 2 * w);
    }
  }

  function Identity(n: nat): (s: seq<nat>)
    ensures |s| == n && forall i :: 0 <= i < n ==> s[i] == i
  {
    seq(n, i requires 0 <= i => i)
  }

  lemma {:induction false} SingletonRuns(c: Order, s: seq<nat>, lo: nat)
    requires forall i :: 0 <= i < |s| ==> s[i] == lo + i
    ensures RunsSorted(c, s, 1, lo)
  {
    if |s| > 1 {
      SingletonRuns(c, s[1..], lo + 1);
    }
  }

  /** n different positions below n. */
  ghost predicate Permutation(s: seq<nat>, n: nat) {
    && |s| == n && Within(s, 0, n)
    && forall i, j :: 0 <= i < j < |s| ==> s[i] != s[j]
  }

  ghost function Elements(s: seq<nat>): set<nat> {
    set x | x in s
  }

  lemma {:induction false} DistinctCount(s: seq<nat>)
    requires forall i, j :: 0 <= i < j < |s| ==> s[i] != s[j]
    ensures |Elements(s)| == |s|
  {
    if s != [] {
      var r := s[..|s| - 1];
      DistinctCount(r);
      assert s == r + [s[|s| - 1]];
      assert Elements(s) == Elements(r) + {s[|s| - 1]};
    }
  }

  lemma SubsetOfSameSize(a: set<nat>, b: set<nat>)
    requires a <= b && |a| == |b|
    ensures a == b
  {
    assert b == a + (b - a);
  }

  /** A permutation leaves no position out. */
  lemma PermutationOnto(s: seq<nat>, n: nat)
    requires Permutation(s, n)
    ensures forall x :: x in s <==> x in Identity(n)
  {
    DistinctCount(s);
    DistinctCount(Identity(n));
    assert Elements(s) <= Elements(Identity(n)) by {
      forall x | x in s
        ensures x in Identity(n)
      {
        assert Identity(n)[x] == x;
      }
    }
    SubsetOfSameSize(Elements(s), Elements(Identity(n)));
    assert forall x :: x in s <==> x in Elements(s);
    assert forall x :: x in Identity(n) <==> x in Elements(Identity(n));
  }

  /** For every total preorder the outcome is a permutation of the positions, sorted and stable. */
  lemma SortCorrect(c: Order, n: nat)
    requires TotalPreorder(c, n)
    ensures StablySorted(c, Sort(c, Identity(n), 1)) && Permutation(Sort(c, Identity(n), 1), n)
  {
    SingletonRuns(c, Identity(n), 0);
    SortSorted(c, Identity(n), 1);
    var s := Sort(c, Identity(n), 1);
    forall i, j | 0 <= i < j < |s|
      ensures s[i] != s[j]
    {
      assert Precedes(c, s[i], s[j]);
    }
  }

  lemma SameHead(c: Order, s: seq<nat>, t: seq<nat>)
    requires StablySorted(c, s) && StablySorted(c, t) && s != [] && t != [] && s[0] in t && t[0] in s
    ensures s[0] == t[0]
  {
    var i :| 0 <= i < |s| && s[i] == t[0];
    var j :| 0 <= j < |t| && t[j] == s[0];
    assert i > 0 ==> Precedes(c, s[0], s[i]);
    assert j > 0 ==> Precedes(c, t[0], t[j]);
  }

  /** There is no other stably sorted arrangement of the same positions. */
  lemma {:induction false} StablySortedUnique(c: Order, s: seq<nat>, t: seq<nat>)
    requires StablySorted(c, s) && StablySorted(c, t) && forall x :: x in s <==> x in t
    ensures s == t
  {
    assert s != [] ==> s[0] in t;
    assert t != [] ==> t[0] in s;
    if s != [] {
      SameHead(c, s, t);
      forall x
        ensures x in s[1..] <==> x in t[1..]
      {
        TailElements(c, s, x);
        TailElements(c, t, x);
      }
      StablySortedUnique(c, s[1..], t[1..]);
    }
  }

  lemma TailElements(c: Order, s: seq<nat>, x: nat)
    requires StablySorted(c, s) && s != []
    ensures x in s[1..] <==> x in s && x != s[0]
  {
    if i :| 0 < i < |s| && s[i] == x {
      assert Precedes(c, s[0], s[i]);
      assert s[1..][i - 1] == x;
    }
  }

  // ----- sorting with a callback that may fail

  datatype Comparison = Comparison(result: int, error: int)

  /** A callback that compares the items of two positions; the first argument counts the calls made before. */
  type Ask = (nat, nat, nat) -> Comparison

  /** The order arrived at, the pairs that were compared, and the error that put an end to it, or 0. */
  datatype Attempt = Attempt(order: seq<nat>, calls: seq<(nat, nat)>, error: int)

  /** What was done before is kept in front. */
  function After(done: seq<nat>, calls: seq<(nat, nat)>, t: Attempt): Attempt {
    Attempt(done + t.order, calls + t.calls, t.error)
  }

  lemma AfterAfter(a: seq<nat>, b: seq<nat>, c: seq<(nat, nat)>, d: seq<(nat, nat)>, t: Attempt)
    ensures After(a, c, After(b, d, t)) == After(a + b, c + d, t)
  {
    assert a + (b + t.order) == (a + b) + t.order && c + (d + t.calls) == (c + d) + t.calls;
  }

  lemma AfterNothing(t: Attempt)
    ensures After([], [], t) == t
  {
    assert [] + t.order == t.order && [] + t.calls == t.calls;
  }

  /** Merging when k calls were made before; an error leaves both rests where they are. */
  function TryMerge(ask: Ask, k: nat, a: seq<nat>, b: seq<nat>): (t: Attempt)
    ensures |t.order| == |a| + |b| && |t.calls| <= |a| + |b|
    decreases |a| + |b|
  {
    if a == [] || b == [] then Attempt(a + b, [], 0)
    else
      var v := ask(k, a[0], b[0]);
      if v.error != 0 then Attempt(a + b, [(a[0], b[0])], v.error)
      else if v.result > 0 then After([b[0]], [(a[0], b[0])], TryMerge(ask, k + 1, a, b[1..]))
      else After([a[0]], [(a[0], b[0])], TryMerge(ask, k + 1, a[1..], b))
  }

  function TryPass(ask: Ask, k: nat, s: seq<nat>, w: nat): (t: Attempt)
    requires 0 < w
    ensures |t.order| == |s| && |t.calls| <= |s|
    decreases |s|
  {
    if |s| <= w then Attempt(s, [], 0)
    else
      var rest := s[Min(2 * w, |s|)..];
      var m := TryMerge(ask, k, s[..w], s[w..Min(2 * w, |s|)]);
      if m.error != 0 then Attempt(m.order + rest, m.calls, m.error)
      else After(m.order, m.calls, TryPass(ask, k + |m.calls|, rest, w))
  }

  function TrySort(ask: Ask, k: nat, s: seq<nat>, w: nat): (t: Attempt)
    requires 0 < w
    ensures |t.order| == |s|
    decreases |s| - w
  {
    if |s| <= w then Attempt(s, [], 0)
    else
      var p := TryPass(ask, k, s, w);
      if p.error != 0 then p else After([], p.calls, TrySort(ask, k + |p.calls|, p.order, 2 * w))
  }

  lemma {:induction false} TryMergeKeeps(ask: Ask, k: nat, a: seq<nat>, b: seq<nat>)
    ensures multiset(TryMerge(ask, k, a, b).order) == multiset(a) + multiset(b)
    decreases |a| + |b|
  {
    if a != [] && b != [] {
      if ask(k, a[0], b[0]).error != 0 {
      } else if ask(k, a[0], b[0]).result > 0 {
        TryMergeKeeps(ask, k + 1, a, b[1..]);
        assert b == [b[0]] + b[1..];
      } else {
        TryMergeKeeps(ask, k + 1, a[1..], b);
        assert a == [a[0]] + a[1..];
      }
    }
  }

  lemma Apart(s: seq<nat>, w: nat, hi: nat)
    requires w <= hi <= |s|
    ensures multiset(s) == multiset(s[..w]) + multiset(s[w..hi]) + multiset(s[hi..])
  {
    assert s == s[..w] + s[w..hi] + s[hi..];
  }

  lemma {:induction false} TryPassKeeps(ask: Ask, k: nat, s: seq<nat>, w: nat)
    requires 0 < w
    ensures multiset(TryPass(ask, k, s, w).order) == multiset(s)
    decreases |s|
  {
    hide TryMerge;
    if |s| > w {
      var hi := Min(2 * w, |s|);
      var m := TryMerge(ask, k, s[..w], s[w..hi]);
      TryMergeKeeps(ask, k, s[..w], s[w..hi]);
      Apart(s, w, hi);
      if m.error == 0 {
        TryPassKeeps(ask, k + |m.calls|, s[hi..], w);
      }
    }
  }

  lemma {:induction false} TrySortKeeps(ask: Ask, k: nat, s: seq<nat>, w: nat)
    requires 0 < w
    ensures multiset(TrySort(ask, k, s, w).order) == multiset(s)
    decreases |s| - w
  {
    hide TryPass;
    if |s| > w {
      var p := TryPass(ask, k, s, w);
      TryPassKeeps(ask, k, s, w);
      if p.error == 0 {
        TrySortKeeps(ask, k + |p.calls|, p.order, 2 * w);
        AfterNothing(TrySort(ask, k + |p.calls|, p.order, 2 * w));
      }
    }
  }

  lemma {:induction false} IdentityCounts(n: nat, x: nat)
    ensures multiset(Identity(n))[x] == if x < n then 1 else 0
  {
    if n > 0 {
      IdentityCounts(n - 1, x);
      assert Identity(n) == Identity(n - 1) + [n - 1];
    }
  }

  lemma TwiceCounted(s: seq<nat>, i: nat, j: nat)
    requires i < j < |s| && s[i] == s[j]
    ensures multiset(s)[s[i]] >= 2
  {
    assert s == s[..i + 1] + s[i + 1..];
    assert s[..i + 1] == s[..i] + [s[i]];
    assert s[i + 1..][j - i - 1] == s[j] && s[j] in s[i + 1..];
  }

  /** Whatever the callback answers, no position is lost or doubled. */
  lemma TrySortPermutes(ask: Ask, k: nat, n: nat, w: nat)
    requires 0 < w
    ensures Permutation(TrySort(ask, k, Identity(n), w).order, n)
  {
    var t := TrySort(ask, k, Identity(n), w).order;
    TrySortKeeps(ask, k, Identity(n), w);
    forall i | 0 <= i < |t|
      ensures t[i] < n
    {
      IdentityCounts(n, t[i]);
      assert t[i] in multiset(t);
    }
    forall i, j | 0 <= i < j < |t|
      ensures t[i] != t[j]
    {
      IdentityCounts(n, t[i]);
      if t[i] == t[j] {
        TwiceCounted(t, i, j);
      }
    }
  }

  /** The callback never fails on the first n positions and orders them the way c does. */
  ghost predicate Decides(ask: Ask, c: Order, n: nat) {
    forall k: nat, x: nat, y: nat | x < n && y < n :: ask(k, x, y) == Comparison(c(x, y), 0)
  }

  lemma {:induction false} TryMergeDecided(ask: Ask, c: Order, n: nat, k: nat, a: seq<nat>, b: seq<nat>)
    requires Decides(ask, c, n) && Within(a, 0, n) && Within(b, 0, n)
    ensures TryMerge(ask, k, a, b).order == Merge(c, a, b) && TryMerge(ask, k, a, b).error == 0
    decreases |a| + |b|
  {
    if a != [] && b != [] {
      assert 0 <= a[0] < n && 0 <= b[0] < n;
      if c(a[0], b[0]) > 0 {
        TryMergeDecided(ask, c, n, k + 1, a, b[1..]);
      } else {
        TryMergeDecided(ask, c, n, k + 1, a[1..], b);
      }
    } else {
      assert a + [] == a && [] + b == b;
    }
  }

  lemma {:induction false} TryPassDecided(ask: Ask, c: Order, n: nat, k: nat, s: seq<nat>, w: nat)
    requires 0 < w && Decides(ask, c, n) && Within(s, 0, n)
    ensures TryPass(ask, k, s, w).order == Pass(c, s, w) && TryPass(ask, k, s, w).error == 0
    ensures Within(Pass(c, s, w), 0, n)
    decreases |s|
  {
    hide Within, Merge, TryMerge, Decides;
    if |s| > w {
      var hi := Min(2 * w, |s|);
      WithinCut(s, n, w, hi);
      TryMergeDecided(ask, c, n, k, s[..w], s[w..hi]);
      var m := TryMerge(ask, k, s[..w], s[w..hi]);
      TryPassDecided(ask, c, n, k + |m.calls|, s[hi..], w);
      MergeWithin(c, s[..w], s[w..hi], 0, n);
      WithinJoin(Merge(c, s[..w], s[w..hi]), Pass(c, s[hi..], w), n);
    }
  }

  lemma WithinCut(s: seq<nat>, n: nat, w: nat, hi: nat)
    requires w <= hi <= |s| && Within(s, 0, n)
    ensures Within(s[..w], 0, n) && Within(s[w..hi], 0, n) && Within(s[hi..], 0, n)
  {
  }

  lemma WithinJoin(a: seq<nat>, b: seq<nat>, n: nat)
    requires Within(a, 0, n) && Within(b, 0, n)
    ensures Within(a + b, 0, n)
  {
  }

  lemma {:induction false} TrySortDecided(ask: Ask, c: Order, n: nat, k: nat, s: seq<nat>, w: nat)
    requires 0 < w && Decides(ask, c, n) && Within(s, 0, n)
    ensures TrySort(ask, k, s, w).order == Sort(c, s, w) && TrySort(ask, k, s, w).error == 0
    decreases |s| - w
  {
    hide Within, Pass, TryPass, Decides;
    if |s| > w {
      TryPassDecided(ask, c, n, k, s, w);
      var p := TryPass(ask, k, s, w);
      TrySortDecided(ask, c, n, k + |p.calls|, p.order, 2 * w);
    }
  }

  function FinalAnswer(ask: Ask, k: nat, calls: seq<(nat, nat)>): Comparison
    requires calls != []
  {
    ask(k + |calls| - 1, calls[|calls| - 1].0, calls[|calls| - 1].1)
  }

  /** All calls but the last one succeeded; the error is that of the last call, and with an error there is a last call. */
  ghost predicate StopsAtFirstError(ask: Ask, k: nat, t: Attempt) {
    && (forall j: nat | j < |t.calls| - (if t.error == 0 then 0 else 1) :: ask(k + j, t.calls[j].0, t.calls[j].1).error == 0)
    && (t.error != 0 ==> t.calls != [])
    && (t.error != 0 ==> FinalAnswer(ask, k, t.calls).error == t.error)
  }

  lemma StopsAfter(ask: Ask, k: nat, done: seq<nat>, calls: seq<(nat, nat)>, t: Attempt)
    requires StopsAtFirstError(ask, k + |calls|, t)
    requires forall j: nat | j < |calls| :: ask(k + j, calls[j].0, calls[j].1).error == 0
    ensures StopsAtFirstError(ask, k, After(done, calls, t))
  {
    var all := calls + t.calls;
    forall j: nat | j < |all|
      ensures j < |calls| ==> all[j] == calls[j]
      ensures j >= |calls| ==> all[j] == t.calls[j - |calls|] && k + j == k + |calls| + (j - |calls|)
    {
    }
    forall j: nat | j < |all| - (if t.error == 0 then 0 else 1)
      ensures ask(k + j, all[j].0, all[j].1).error == 0
    {
      if j >= |calls| {
        var i: nat := j - |calls|;
        assert ask(k + |calls| + i, t.calls[i].0, t.calls[i].1).error == 0;
      }
    }
  }

  lemma {:induction false} MergeStops(ask: Ask, k: nat, a: seq<nat>, b: seq<nat>)
    ensures StopsAtFirstError(ask, k, TryMerge(ask, k, a, b))
    decreases |a| + |b|
  {
    if a != [] && b != [] {
      var v, pair := ask(k, a[0], b[0]), [(a[0], b[0])];
      if v.error == 0 {
        if v.result > 0 {
          MergeStops(ask, k + 1, a, b[1..]);
          StopsAfter(ask, k, [b[0]], pair, TryMerge(ask, k + 1, a, b[1..]));
        } else {
          MergeStops(ask, k + 1, a[1..], b);
          StopsAfter(ask, k, [a[0]], pair, TryMerge(ask, k + 1, a[1..], b));
        }
      }
    }
  }

  lemma {:induction false} PassStops(ask: Ask, k: nat, s: seq<nat>, w: nat)
    requires 0 < w
    ensures StopsAtFirstError(ask, k, TryPass(ask, k, s, w))
    decreases |s|
  {
    hide TryMerge;
    if |s| > w {
      var hi := Min(2 * w, |s|);
      var m := TryMerge(ask, k, s[..w], s[w..hi]);
      MergeStops(ask, k, s[..w], s[w..hi]);
      if m.error == 0 {
        PassStops(ask, k + |m.calls|, s[hi..], w);
        StopsAfter(ask, k, m.order, m.calls, TryPass(ask, k + |m.calls|, s[hi..], w));
      }
    }
  }

  /** The sort hands back the first error that the callback reports, and makes no call after it. */
  lemma {:induction false} SortStops(ask: Ask, k: nat, s: seq<nat>, w: nat)
    requires 0 < w
    ensures StopsAtFirstError(ask, k, TrySort(ask, k, s, w))
    decreases |s| - w
  {
    hide TryPass;
    if |s| > w {
      var p := TryPass(ask, k, s, w);
      PassStops(ask, k, s, w);
      if p.error == 0 {
        SortStops(ask, k + |p.calls|, p.order, 2 * w);
        StopsAfter(ask, k, [], p.calls, TrySort(ask, k + |p.calls|, p.order, 2 * w));
      }
    }
  }
}
