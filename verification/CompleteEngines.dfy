/** When queries succeed: an engine that knows every handle it hands out fails none of the searches of a filter. */
module CompleteEngines {
  import opened DList
  import opened DListTraverse
  import opened Engine
  import opened Filters
  import opened Interpreter
  import opened Reachability

  /** Every handle in a record is known and the features of volumes and storage objects are listed. */
  predicate Complete(e: Engine) {
    forall h :: h in e.infos ==>
      && e.infos[h].handle == h
      && (forall k :: 0 <= k < |Below(e.infos[h])| ==> Below(e.infos[h])[k] in e.infos)
      && (e.infos[h].Volume? ==> e.infos[h].obj in e.infos)
      && (e.infos[h].Volume? || e.infos[h].Storage? ==> h in e.features)
  }

  predicate AllIn(e: Engine, handles: seq<Handle>) { forall k :: 0 <= k < |handles| ==> handles[k] in e.infos }

  lemma {:induction false} PathsStayKnown(e: Engine, s: Search, p: seq<Handle>)
    requires Complete(e) && Descends(e, s, p) && p[0] in e.infos
    ensures p[|p| - 1] in e.infos
    decreases |p|
  {
    if |p| > 1 {
      DownOne(e, s, p);
      PathsStayKnown(e, s, p[1..]);
    }
  }

  lemma SearchSucceeds(e: Engine, s: Search, h: Handle)
    requires Complete(e) && h in e.infos
    ensures Check(e, s, h).error == SUCCESS
  {
    hide Check, Complete;
    CheckDecidesReachability(e, s, h);
    forall p: seq<Handle> | Descends(e, s, p) && p[0] == h
      ensures p[|p| - 1] in e.infos
    {
      PathsStayKnown(e, s, p);
    }
  }

  lemma {:induction false} AmongSucceeds(e: Engine, s: Search, children: seq<Handle>)
    requires Complete(e) && AllIn(e, children)
    ensures AmongChildren(e, s, children).error == SUCCESS
    decreases |children|
  {
    hide Check, Complete;
    if children != [] {
      SearchSucceeds(e, s, children[0]);
      AmongSucceeds(e, s, children[1..]);
    }
  }

  lemma {:induction false} UnderSucceeds(e: Engine, s: Search, children: seq<Handle>)
    requires Complete(e) && AllIn(e, children)
    ensures UnderChildren(e, s, children).error == SUCCESS
    decreases |children|
  {
    hide Check, Complete;
    if children != [] {
      SearchSucceeds(e, s, children[0]);
      UnderSucceeds(e, s, children[1..]);
    }
  }

  lemma {:induction false} SegmentSearchSucceeds(e: Engine, h: Handle, target: Handle)
    requires Complete(e) && h in e.infos
    ensures CheckSegment(e, h, target).error == SUCCESS
    decreases Height(e, h), 1, 0
  {
    SegmentSearchSucceedsFrom(e, h, target, 0);
    if e.infos[h].Storage? {
      assert Below(e.infos[h]) == e.infos[h].children;
      AmongSucceeds(e, ForRegion(target), e.infos[h].children);
    }
  }

  lemma {:induction false} SegmentSearchSucceedsFrom(e: Engine, h: Handle, target: Handle, k: nat)
    requires Complete(e) && h in e.infos && k <= |Below(e.infos[h])|
    ensures CheckSegmentFrom(e, h, target, k).error == SUCCESS
    decreases Height(e, h), 0, |Below(e.infos[h])| - k
  {
    if k < |Below(e.infos[h])| {
      SegmentSearchSucceeds(e, Below(e.infos[h])[k], target);
      SegmentSearchSucceedsFrom(e, h, target, k + 1);
    }
  }

  /** What a criterion was made of is known to the engine. */
  predicate Grounded(e: Engine, c: Criterion) {
    match c
    case ByVolume(v) => v in e.features
    case ByObject(o) => o.handle in e.infos && o.handle in e.features
    case _ => true
  }

  lemma ScanSucceeds(e: Engine, c: Criterion, h: Handle)
    requires Complete(e) && WellTyped(c) && Grounded(e, c) && h in e.infos
    ensures Scan(e, c, e.infos[h]).error == SUCCESS
  {
    hide Check, CheckSegment, AmongChildren, UnderChildren;
    var i := e.infos[h];
    assert i.Storage? ==> Below(i) == i.children;
    match c {
      case ByObject(o) =>
        SearchSucceeds(e, ForRegion(i.handle), o.handle);
        SegmentSearchSucceeds(e, o.handle, i.handle);
      case ByContainer(k) =>
        if i.Volume? {
          SearchSucceeds(e, ForContainer(k.handle), i.obj);
        }
      case ByRegion(r) =>
        if i.Volume? {
          SearchSucceeds(e, ForRegion(r.handle), i.obj);
        } else if i.Storage? {
          UnderSucceeds(e, ForRegion(r.handle), i.children);
        }
      case ByDisk(d) =>
        if i.Storage? {
          AmongSucceeds(e, ForDisk(d), i.children);
        }
      case BySegment(d) =>
        if i.Storage? {
          AmongSucceeds(e, ForDisk(d), i.children);
        }
      case _ =>
    }
  }

  /** The engine knows the volume or object that a filter names. */
  predicate NamesKnown(e: Engine, f: Node)
    requires WellFormed(e, f) && Evaluates(e, f)
  {
    f.kind == VolumeFilter ==> f.operands[0].named.handle in e.infos && e.infos[f.operands[0].named.handle].Volume?
  }

  lemma CriterionGrounded(e: Engine, f: Node)
    requires Complete(e) && WellFormed(e, f) && Evaluates(e, f) && NamesKnown(e, f)
    ensures CriterionOf(e, f).Ok? && Grounded(e, CriterionOf(e, f).value)
  {
    EvaluatesExactly(e, f);
  }

  lemma {:induction false} SelectedAmong(e: Engine, fs: seq<Node>, infos: seq<Info>)
    requires forall f :: f in fs ==> WellFormed(e, f) && Evaluates(e, f)
    ensures forall x :: x in Selected(e, fs, infos) ==> x in infos
  {
    forall x | x in Selected(e, fs, infos)
      ensures x in infos
    {
      SelectedMembers(e, fs, infos, x);
    }
  }

  /**
   * In a complete engine a query fails only for what it is given: with filters that can be evaluated, volumes that exist
   * and candidates that are known, every filter runs without an error.
   */
  lemma QueriesSucceed(e: Engine, fs: seq<Node>, handles: seq<Handle>)
    requires Complete(e) && Known(e, handles)
    requires forall f :: f in fs ==> WellFormed(e, f) && Evaluates(e, f) && NamesKnown(e, f)
    ensures RunsClean(e, fs, Candidates(e, handles))
  {
    hide Complete, WellFormed, Evaluates, NamesKnown, CriterionOf, Grounded, WellTyped, Selected, Scan;
    var infos := Candidates(e, handles);
    forall k | 0 <= k < |fs|
      ensures StepsClean(e, fs, k, infos)
    {
      var f := fs[k];
      assert f in fs;
      CriterionGrounded(e, f);
      SelectedAmong(e, fs[..k], infos);
      var left, c := Selected(e, fs[..k], infos), CriterionOf(e, f).value;
      forall j | 0 <= j < |left|
        ensures Scan(e, c, left[j]).error == SUCCESS
      {
        assert left[j] in infos;
        var m :| 0 <= m < |infos| && infos[m] == left[j];
        assert handles[m] in handles;
        ScanSucceeds(e, c, handles[m]);
      }
    }
  }
}
