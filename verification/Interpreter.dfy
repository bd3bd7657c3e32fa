/** The execution of queries: operands leave their values on the stack and filters thin out the list they find there. */
module Interpreter {
  import opened DList
  import opened DListTraverse
  import opened Engine
  import opened FilterMeaning
  import opened Filters
  import opened TypedStack
  import opened Units
  import Reachability

  datatype FilterKind =
    | VolumeFilter | PluginFilter | ObjectFilter | ContainerFilter | RegionFilter | DiskFilter | SegmentFilter
    | PluginTypeFilter | GreaterFilter | LessFilter | EqualFilter

  /** What the engine answers when it is asked for the handle of a name. */
  datatype Named = Found(handle: Handle) | Failed(error: int)

  /** A tree of the parser. */
  datatype Node =
    | NameNode(named: Named)
    | MaskNode(mask: PluginType)
    | IntegerNode(number: int, units: seq<Node>)
    | PrecisionNode(number: int, units: seq<Node>)
    | UnitsNode(unit: UnitName)
    | FilterNode(kind: FilterKind, operands: seq<Node>)

  predicate IsUnits(s: seq<Node>) { |s| <= 1 && forall n :: n in s ==> n.UnitsNode? }

  /** The operands that the parser gives to each kind of filter; the engine finds names of the right type only. */
  predicate WellFormed(e: Engine, f: Node) {
    f.FilterNode? &&
    match f.kind
    case PluginTypeFilter => |f.operands| == 1 && f.operands[0].MaskNode?
    case GreaterFilter | LessFilter => |f.operands| == 1 && IsSize(f.operands[0])
    case EqualFilter => 1 <= |f.operands| <= 2 && IsSize(f.operands[0]) && (|f.operands| == 2 ==> IsPrecision(f.operands[1]))
    case _ =>
      && |f.operands| == 1 && f.operands[0].NameNode?
      && IsOperand(f.operands[0])
      && (f.operands[0].named.Found? ==> FindsType(e, f.kind, f.operands[0].named.handle))
  }

  predicate IsSize(n: Node) { n.IntegerNode? && IsUnits(n.units) }
  predicate IsPrecision(n: Node) { n.PrecisionNode? && IsUnits(n.units) }

  predicate FindsType(e: Engine, kind: FilterKind, h: Handle) {
    h in e.infos ==>
      && (kind == ObjectFilter || kind == RegionFilter ==> e.infos[h].Storage?)
      && (kind == ContainerFilter ==> e.infos[h].Container?)
  }

  /** A value with the code of the failure that prevented it. */
  datatype Result<T> = Ok(value: T) | Err(error: int)

  /** The number that an integer node with its unit leaves on the stack. */
  function Amount(number: int, units: seq<Node>): Result<int>
    requires IsUnits(units)
  {
    if units == [] then Ok(number)
    else
      match Convert(number, units[0].unit)
      case Converted(n, _) => Ok(n)
      case BadUnit => Err(Reachability.CORRUPTED)
  }

  /** A signed number as an unsigned one of 64 bits. */
  function Unsigned(n: int): (r: nat)
    ensures r < TWO_TO_64
  {
    n % TWO_TO_64
  }

  /** The limits of the EQ filter; a tolerance without a unit is a percentage. */
  function Limits(size: nat, tolerance: nat, percent: bool): (nat, nat) {
    var t := if percent then (size * tolerance) % TWO_TO_64 / 100 else tolerance;
    ((size - t) % TWO_TO_64, (size + t) % TWO_TO_64)
  }

  function SizeCriterion(kind: FilterKind, size: nat): Criterion {
    BySize(if kind == GreaterFilter then GreaterThan else if kind == LessFilter then LessThan else EqualTo, size, size)
  }

  /** The criterion that a filter applies, once its operands have been evaluated. */
  function CriterionOf(e: Engine, f: Node): (r: Result<Criterion>)
    requires WellFormed(e, f)
    ensures r.Ok? ==> WellTyped(r.value)
    ensures r.Err? ==> r.error != SUCCESS
  {
    match f.kind
    case PluginTypeFilter => Ok(ByType(f.operands[0].mask))
    case GreaterFilter | LessFilter =>
      (match Amount(f.operands[0].number, f.operands[0].units)
       case Ok(n) => Ok(SizeCriterion(f.kind, Unsigned(n)))
       case Err(code) => Err(code))
    case EqualFilter =>
      (match Amount(f.operands[0].number, f.operands[0].units)
       case Ok(n) =>
         if |f.operands| == 1 then Ok(SizeCriterion(f.kind, Unsigned(n)))
         else
           (match Amount(f.operands[1].number, f.operands[1].units)
            case Ok(t) =>
              var (lower, upper) := Limits(Unsigned(n), Unsigned(t), f.operands[1].units == []);
              Ok(BySize(EqualTo, lower, upper))
            case Err(code) => Err(code))
       case Err(code) => Err(code))
    case _ =>
      (match f.operands[0].named
       case Failed(code) => Err(code)
       case Found(h) => HandleCriterion(e, f.kind, h))
  }

  function HandleCriterion(e: Engine, kind: FilterKind, h: Handle): (r: Result<Criterion>)
    requires FindsType(e, kind, h)
    ensures r.Ok? ==> WellTyped(r.value)
    ensures r.Err? ==> r.error != SUCCESS
  {
    match kind
    case VolumeFilter => Ok(ByVolume(h))
    case PluginFilter => Ok(ByPlugin(h))
    case DiskFilter => Ok(ByDisk(h))
    case SegmentFilter => Ok(BySegment(h))
    case ObjectFilter => if h in e.infos then Ok(ByObject(e.infos[h])) else Err(e.failure)
    case ContainerFilter => if h in e.infos then Ok(ByContainer(e.infos[h])) else Err(e.failure)
    case _ => if h in e.infos && e.infos[h].Storage? then Ok(ByRegion(e.infos[h])) else Err(e.failure)
  }

  /** The cells that an operand leaves on the stack, or the code of its failure. */
  function Cells(n: Node): Result<seq<(Cell, Tag)>>
    requires IsOperand(n)
  {
    match n
    case NameNode(Found(h)) => Ok([(HandleCell(h), HANDLE)])
    case NameNode(Failed(code)) => Err(code)
    case MaskNode(mask) => Ok([(MaskCell(mask), PLUGIN_ID_MASK)])
    case IntegerNode(number, units) =>
      (match Amount(number, units)
       case Ok(a) => Ok([(IntegerCell(a), INTEGER_VALUE)])
       case Err(code) => Err(code))
    case _ =>
      (match Amount(n.number, n.units)
       case Ok(a) => Ok([(IntegerCell(a), INTEGER_VALUE), (BooleanCell(n.units == []), BOOLEAN_VALUE)])
       case Err(code) => Err(code))
  }

  predicate IsOperand(n: Node) {
    match n
    case NameNode(named) => named.Failed? ==> named.error != SUCCESS && named.error != SEARCH_COMPLETE
    case MaskNode(_) => true
    case IntegerNode(_, units) => IsUnits(units)
    case PrecisionNode(_, units) => IsUnits(units)
    case _ => false
  }

  function AllCells(s: seq<Node>): Result<seq<(Cell, Tag)>>
    requires forall n :: n in s ==> IsOperand(n)
  {
    if s == [] then Ok([])
    else
      var last := |s| - 1;
      match AllCells(s[..last])
      case Ok(cells) =>
        (match Cells(s[last])
         case Ok(more) => Ok(cells + more)
         case Err(code) => Err(code))
      case Err(code) => Err(code)
  }

  // ----- lists of records

  type Records = ControlNode<Info>

  ghost function Data(nodes: seq<LinkNode<Info>>): (infos: seq<Info>)
    reads nodes`data
    ensures |infos| == |nodes| && forall i :: 0 <= i < |nodes| ==> infos[i] == nodes[i].data
  {
    if nodes == [] then [] else Data(nodes[..|nodes| - 1]) + [nodes[|nodes| - 1].data]
  }

  /** Every item has the tag that the filters expect. */
  ghost predicate AllRecords(nodes: seq<LinkNode<Info>>)
    reads nodes`tag
  {
    forall i :: 0 <= i < |nodes| ==> nodes[i].tag == HANDLE_INFO
  }

  predicate Passes(e: Engine, cs: seq<Criterion>, i: Info)
    requires forall c :: c in cs ==> WellTyped(c)
  {
    forall c :: c in cs ==> !Scan(e, c, i).kill
  }

  /** The records that pass all criteria, in their order. */
  function Passing(e: Engine, cs: seq<Criterion>, infos: seq<Info>): seq<Info>
    requires forall c :: c in cs ==> WellTyped(c)
  {
    if infos == [] then []
    else
      var last := |infos| - 1;
      Passing(e, cs, infos[..last]) + if Passes(e, cs, infos[last]) then [infos[last]] else []
  }

  /** The number of bytes that the operand of a size filter comes to, as a 64-bit number without a sign. */
  function OperandBytes(n: Node): nat
    requires IsSize(n) || IsPrecision(n)
    requires Amount(n.number, n.units).Ok?
  {
    Amount(n.number, n.units).value % 0x1_0000_0000_0000_0000
  }

  /** A tolerance without a unit is a percentage of the wanted size. */
  function Tolerance(wanted: nat, n: Node): nat
    requires IsPrecision(n) && Amount(n.number, n.units).Ok?
  {
    if n.units == [] then wanted * OperandBytes(n) % 0x1_0000_0000_0000_0000 / 100 else OperandBytes(n)
  }

  /** The sizes that the EQ filter is content with. */
  predicate WithinTolerance(size: nat, wanted: nat, tolerance: nat) {
    (wanted - tolerance) % 0x1_0000_0000_0000_0000 <= size <= (wanted + tolerance) % 0x1_0000_0000_0000_0000
  }

  /** The operands of the filter have been evaluated without an error. */
  predicate Evaluates(e: Engine, f: Node)
    requires WellFormed(e, f)
  {
    match f.kind
    case PluginTypeFilter => true
    case GreaterFilter | LessFilter | EqualFilter =>
      forall n :: n in f.operands ==> Amount(n.number, n.units).Ok?
    case _ =>
      && f.operands[0].named.Found?
      && (f.kind == ObjectFilter || f.kind == ContainerFilter || f.kind == RegionFilter ==>
            f.operands[0].named.handle in e.infos)
  }

  /** What a filter keeps, said about its operands and the fields of a record. */
  ghost predicate Shows(e: Engine, f: Node, i: Info)
    requires WellFormed(e, f) && Evaluates(e, f)
  {
    match f.kind
    case VolumeFilter => KeptByVolume(e, f.operands[0].named.handle, i)
    case PluginFilter => KeptByPlugin(e, f.operands[0].named.handle, i)
    case ObjectFilter => KeptByObject(e, e.infos[f.operands[0].named.handle], i)
    case ContainerFilter => KeptByContainer(e, e.infos[f.operands[0].named.handle], i)
    case RegionFilter => KeptByRegion(e, e.infos[f.operands[0].named.handle], i)
    case DiskFilter => KeptByDisk(e, f.operands[0].named.handle, i)
    case SegmentFilter => KeptBySegment(e, f.operands[0].named.handle, i)
    case PluginTypeFilter => KeptByType(f.operands[0].mask, i)
    case GreaterFilter => i.Plugin? || i.size * 512 % 0x1_0000_0000_0000_0000 > OperandBytes(f.operands[0])
    case LessFilter => i.Plugin? || i.size * 512 % 0x1_0000_0000_0000_0000 < OperandBytes(f.operands[0])
    case EqualFilter =>
      || i.Plugin?
      || (|f.operands| == 1 && i.size * 512 % 0x1_0000_0000_0000_0000 == OperandBytes(f.operands[0]))
      || (|f.operands| == 2 &&
            var n := OperandBytes(f.operands[0]);
            WithinTolerance(i.size * 512 % 0x1_0000_0000_0000_0000, n, Tolerance(n, f.operands[1])))
  }

  lemma EvaluatesExactly(e: Engine, f: Node)
    requires WellFormed(e, f)
    ensures CriterionOf(e, f).Ok? <==> Evaluates(e, f)
  {
  }

  lemma CellsEvaluated(e: Engine, f: Node)
    requires WellFormed(e, f) && Evaluates(e, f) && forall n :: n in f.operands ==> IsOperand(n)
    ensures AllCells(f.operands).Ok?
  {
    var s := f.operands;
    assert s[0] in s && s[..1] == [s[0]];
    AllCellsOne(s[0]);
    if |s| > 1 {
      assert s[1] in s && s[..|s| - 1] == [s[0]];
    }
  }

  /** The limits that a size filter ends up with, in numbers of bytes. */
  lemma SizeCriterionIs(e: Engine, f: Node)
    requires WellFormed(e, f) && Evaluates(e, f) && CriterionOf(e, f).Ok?
    requires f.kind == GreaterFilter || f.kind == LessFilter || f.kind == EqualFilter
    ensures var c, n := CriterionOf(e, f).value, OperandBytes(f.operands[0]);
            if f.kind == GreaterFilter then c == BySize(GreaterThan, n, n)
            else if f.kind == LessFilter then c == BySize(LessThan, n, n)
            else if |f.operands| == 1 then c == BySize(EqualTo, n, n)
            else
              var t := Tolerance(n, f.operands[1]);
              c == BySize(EqualTo, (n - t) % 0x1_0000_0000_0000_0000, (n + t) % 0x1_0000_0000_0000_0000)
  {
  }

  lemma SizeFilterShows(e: Engine, f: Node, i: Info)
    requires WellFormed(e, f) && Evaluates(e, f) && CriterionOf(e, f).Ok?
    requires f.kind == GreaterFilter || f.kind == LessFilter || f.kind == EqualFilter
    ensures Scan(e, CriterionOf(e, f).value, i).kill <==> !Shows(e, f, i)
  {
    SizeCriterionIs(e, f);
    hide CriterionOf, Evaluates, OperandBytes, Tolerance;
    var c := CriterionOf(e, f).value;
    SizeFilterKeeps(c.comparison, c.lower, c.upper, i);
  }

  /** A scan without an error condemns a record exactly when the filter does not show it. */
  lemma FilterShows(e: Engine, f: Node, i: Info)
    requires WellFormed(e, f) && Evaluates(e, f) && CriterionOf(e, f).Ok?
    requires Scan(e, CriterionOf(e, f).value, i).error == SUCCESS
    ensures Scan(e, CriterionOf(e, f).value, i).kill <==> !Shows(e, f, i)
  {
    hide ScanForVolumes, ScanForPlugin, ScanForObjects, ScanForContainers, ScanForRegions, ScanForDisks, ScanForSegments,
         ScanForPlugins, ScanForSize, KeptByVolume, KeptByPlugin, KeptByObject, KeptByContainer, KeptByRegion, KeptByDisk,
         KeptBySegment, KeptByType;
    match f.kind
    case VolumeFilter => VolumeFilterKeeps(e, f.operands[0].named.handle, i);
    case PluginFilter => PluginFilterKeeps(e, f.operands[0].named.handle, i);
    case ObjectFilter => ObjectFilterKeeps(e, e.infos[f.operands[0].named.handle], i);
    case ContainerFilter => ContainerFilterKeeps(e, e.infos[f.operands[0].named.handle], i);
    case RegionFilter => RegionFilterKeepsAll(e, e.infos[f.operands[0].named.handle], i);
    case DiskFilter => DiskFilterKeepsAll(e, f.operands[0].named.handle, i);
    case SegmentFilter => SegmentFilterKeeps(e, f.operands[0].named.handle, i);
    case PluginTypeFilter => TypeFilterKeeps(f.operands[0].mask, i);
    case GreaterFilter | LessFilter | EqualFilter => SizeFilterShows(e, f, i);
  }

  ghost predicate ShowsAll(e: Engine, fs: seq<Node>, i: Info)
    requires forall f :: f in fs ==> WellFormed(e, f) && Evaluates(e, f)
  {
    forall f :: f in fs ==> Shows(e, f, i)
  }

  /** The records that all filters show, in their order. */
  ghost function Selected(e: Engine, fs: seq<Node>, infos: seq<Info>): seq<Info>
    requires forall f :: f in fs ==> WellFormed(e, f) && Evaluates(e, f)
  {
    if infos == [] then []
    else
      var last := |infos| - 1;
      Selected(e, fs, infos[..last]) + if ShowsAll(e, fs, infos[last]) then [infos[last]] else []
  }

  /** Every record has been judged without an error. */
  predicate ScansClean(e: Engine, c: Criterion, infos: seq<Info>)
    requires WellTyped(c)
  {
    forall k :: 0 <= k < |infos| ==> Scan(e, c, infos[k]).error == SUCCESS
  }

  /** The operands can be evaluated and every record is judged without an error. */
  predicate FiltersCleanly(e: Engine, f: Node, infos: seq<Info>)
    requires WellFormed(e, f)
  {
    CriterionOf(e, f).Ok? && ScansClean(e, CriterionOf(e, f).value, infos)
  }

  predicate AllEvaluate(e: Engine, fs: seq<Node>)
    requires forall f :: f in fs ==> WellFormed(e, f)
  {
    forall f :: f in fs ==> Evaluates(e, f)
  }

  /** Every filter can be evaluated and judges without an error all records that those in front of it leave. */
  ghost predicate RunsClean(e: Engine, fs: seq<Node>, infos: seq<Info>)
    requires forall f :: f in fs ==> WellFormed(e, f)
  {
    && AllEvaluate(e, fs)
    && forall k :: 0 <= k < |fs| ==> StepsClean(e, fs, k, infos)
  }

  ghost predicate StepsClean(e: Engine, fs: seq<Node>, k: nat, infos: seq<Info>)
    requires k < |fs| && (forall f :: f in fs ==> WellFormed(e, f)) && AllEvaluate(e, fs)
  {
    WellFormed(e, fs[k]) && FiltersCleanly(e, fs[k], Selected(e, fs[..k], infos))
  }

  lemma NothingRuns(e: Engine, infos: seq<Info>)
    ensures RunsClean(e, [], infos)
  {
  }

  /** Filters run without an error as far as the next one if and only if it does what it has to. */
  lemma FilterRuns(e: Engine, fs: seq<Node>, i: nat, infos: seq<Info>)
    requires i < |fs| && (forall f :: f in fs ==> WellFormed(e, f)) && RunsClean(e, fs[..i], infos)
    ensures RunsClean(e, fs[..i + 1], infos) <==>
            FiltersCleanly(e, fs[i], Selected(e, fs[..i], infos))
    ensures RunsClean(e, fs, infos) ==> RunsClean(e, fs[..i + 1], infos)
  {
    EvaluatesExactly(e, fs[i]);
    assert FiltersCleanly(e, fs[i], Selected(e, fs[..i], infos)) ==> Evaluates(e, fs[i]);
    hide WellFormed, CriterionOf, Evaluates, Selected, FiltersCleanly;
    var more := fs[..i + 1];
    assert more == fs[..i] + [fs[i]] && more[..i] == fs[..i];
    assert forall k :: 0 <= k < i ==> more[k] == fs[..i][k] == fs[k] && more[..k] == fs[..i][..k] == fs[..k];
    assert AllEvaluate(e, more) <==> AllEvaluate(e, fs[..i]) && Evaluates(e, fs[i]);
    if RunsClean(e, fs, infos) {
      forall k | 0 <= k < |more|
        ensures StepsClean(e, more, k, infos)
      {
        assert StepsClean(e, fs, k, infos);
      }
    }
    if RunsClean(e, more, infos) {
      assert StepsClean(e, more, i, infos);
    } else if Evaluates(e, fs[i]) {
      forall k | 0 <= k < i
        ensures StepsClean(e, more, k, infos)
      {
        assert StepsClean(e, fs[..i], k, infos);
      }
    }
  }

  lemma {:induction false} PassingIsSelected(e: Engine, f: Node, infos: seq<Info>)
    requires WellFormed(e, f) && FiltersCleanly(e, f, infos)
    ensures Evaluates(e, f) && Passing(e, [CriterionOf(e, f).value], infos) == Selected(e, [f], infos)
  {
    EvaluatesExactly(e, f);
    hide WellFormed, CriterionOf, Evaluates, Shows, Scan;
    if infos != [] {
      var last, c := |infos| - 1, CriterionOf(e, f).value;
      PassingIsSelected(e, f, infos[..last]);
      FilterShows(e, f, infos[last]);
      assert Passes(e, [c], infos[last]) <==> !Scan(e, c, infos[last]).kill;
      assert ShowsAll(e, [f], infos[last]) <==> Shows(e, f, infos[last]);
    }
  }

  /** Selecting by one more filter is selecting by all. */
  lemma {:induction false} SelectedTwice(e: Engine, fs: seq<Node>, f: Node, infos: seq<Info>)
    requires WellFormed(e, f) && Evaluates(e, f) && forall g :: g in fs ==> WellFormed(e, g) && Evaluates(e, g)
    ensures Selected(e, [f], Selected(e, fs, infos)) == Selected(e, fs + [f], infos)
  {
    hide WellFormed, Evaluates, Shows;
    if infos != [] {
      var last := |infos| - 1;
      SelectedTwice(e, fs, f, infos[..last]);
      assert ShowsAll(e, fs + [f], infos[last]) <==> ShowsAll(e, fs, infos[last]) && ShowsAll(e, [f], infos[last]);
      var front := Selected(e, fs, infos[..last]);
      SelectedAppend(e, [f], front, [infos[last]]);
      SelectedOne(e, [f], infos[last]);
      assert front + [] == front;
    }
  }

  lemma SelectedOne(e: Engine, fs: seq<Node>, x: Info)
    requires forall f :: f in fs ==> WellFormed(e, f) && Evaluates(e, f)
    ensures Selected(e, fs, [x]) == if ShowsAll(e, fs, x) then [x] else []
  {
    assert [x][..0] == [];
  }

  lemma {:induction false} SelectedAppend(e: Engine, fs: seq<Node>, a: seq<Info>, b: seq<Info>)
    requires forall f :: f in fs ==> WellFormed(e, f) && Evaluates(e, f)
    ensures Selected(e, fs, a + b) == Selected(e, fs, a) + Selected(e, fs, b)
  {
    hide WellFormed, Evaluates, ShowsAll;
    if b == [] {
      assert a + b == a;
    } else {
      var last := |b| - 1;
      SelectedAppend(e, fs, a, b[..last]);
      assert (a + b)[..|a + b| - 1] == a + b[..last];
    }
  }

  /** A record is shown if and only if it is a candidate and every filter shows it. */
  lemma {:induction false} SelectedMembers(e: Engine, fs: seq<Node>, infos: seq<Info>, x: Info)
    requires forall f :: f in fs ==> WellFormed(e, f) && Evaluates(e, f)
    ensures x in Selected(e, fs, infos) <==> x in infos && forall f :: f in fs ==> Shows(e, f, x)
  {
    hide WellFormed, Evaluates, Shows;
    if infos != [] {
      var last := |infos| - 1;
      SelectedMembers(e, fs, infos[..last], x);
      assert infos == infos[..last] + [infos[last]];
    }
  }

  lemma {:induction false} SelectedByNone(e: Engine, infos: seq<Info>)
    ensures Selected(e, [], infos) == infos
  {
    if infos != [] {
      SelectedByNone(e, infos[..|infos| - 1]);
    }
  }

  function Killer(e: Engine, c: Criterion): Kill<Info, ()>
    requires WellTyped(c)
  {
    (i: Info, t: Tag, s: ()) => Scan(e, c, i)
  }

  /** A scan fails with the code of the engine or of the search below a handle, neither of which ends a traversal early. */
  lemma ScanErrors(e: Engine, c: Criterion, i: Info)
    requires WellTyped(c)
    ensures Scan(e, c, i).error in {SUCCESS, e.failure, Reachability.CORRUPTED}
  {
    match c {
      case ByObject(o) =>
        if i.Storage? {
          Reachability.CheckDecidesReachability(e, Reachability.ForRegion(i.handle), o.handle);
          SegmentErrors(e, o.handle, i.handle);
        }
      case ByContainer(k) =>
        if i.Volume? {
          Reachability.CheckDecidesReachability(e, Reachability.ForContainer(k.handle), i.obj);
        }
      case ByRegion(r) =>
        if i.Volume? {
          Reachability.CheckDecidesReachability(e, Reachability.ForRegion(r.handle), i.obj);
        } else if i.Storage? {
          UnderErrors(e, Reachability.ForRegion(r.handle), i.children);
        }
      case ByDisk(h) =>
        if i.Storage? {
          AmongErrors(e, Reachability.ForDisk(h), i.children);
        }
      case BySegment(h) =>
        if i.Storage? {
          AmongErrors(e, Reachability.ForDisk(h), i.children);
        }
      case _ =>
    }
  }

  lemma {:induction false} AmongErrors(e: Engine, s: Reachability.Search, children: seq<Handle>)
    ensures AmongChildren(e, s, children).error in {SUCCESS, Reachability.CORRUPTED}
    decreases |children|
  {
    if children != [] {
      Reachability.CheckDecidesReachability(e, s, children[0]);
      AmongErrors(e, s, children[1..]);
    }
  }

  lemma {:induction false} UnderErrors(e: Engine, s: Reachability.Search, children: seq<Handle>)
    ensures UnderChildren(e, s, children).error in {SUCCESS, Reachability.CORRUPTED}
    decreases |children|
  {
    if children != [] {
      Reachability.CheckDecidesReachability(e, s, children[0]);
      UnderErrors(e, s, children[1..]);
    }
  }

  lemma {:induction false} SegmentErrors(e: Engine, h: Handle, target: Handle)
    ensures CheckSegment(e, h, target).error in {SUCCESS, Reachability.CORRUPTED}
    decreases Height(e, h), 1, 0
  {
    if h in e.infos {
      SegmentErrorsFrom(e, h, target, 0);
      if e.infos[h].Storage? {
        AmongErrors(e, Reachability.ForRegion(target), e.infos[h].children);
      }
    }
  }

  lemma {:induction false} SegmentErrorsFrom(e: Engine, h: Handle, target: Handle, k: nat)
    requires h in e.infos && k <= |Below(e.infos[h])|
    ensures CheckSegmentFrom(e, h, target, k).error in {SUCCESS, Reachability.CORRUPTED}
    decreases Height(e, h), 0, |Below(e.infos[h])| - k
  {
    if k < |Below(e.infos[h])| {
      SegmentErrors(e, Below(e.infos[h])[k], target);
      SegmentErrorsFrom(e, h, target, k + 1);
    }
  }

  /** A pruning that reports success has had a verdict without error on every record, and kept what was not condemned. */
  lemma {:induction false} PruneSucceeds(e: Engine, c: Criterion, items: seq<(Info, Tag)>)
    requires WellTyped(c) && e.failure != SEARCH_COMPLETE && Prune(items, Killer(e, c), ()).error == SUCCESS
    ensures forall i :: 0 <= i < |items| ==>
              Scan(e, c, items[i].0).error == SUCCESS &&
              Prune(items, Killer(e, c), ()).keep[i] == !Scan(e, c, items[i].0).kill
  {
    if items != [] {
      var v := Judge(Killer(e, c), items[0].0, items[0].1, ());
      assert v == Scan(e, c, items[0].0);
      ScanErrors(e, c, items[0].0);
      PruneSucceeds(e, c, items[1..]);
    }
  }

  /** It reports success if and only if there is no error. */
  lemma {:induction false} PruneFails(e: Engine, c: Criterion, items: seq<(Info, Tag)>)
    requires WellTyped(c) && e.failure != SEARCH_COMPLETE
    ensures Prune(items, Killer(e, c), ()).error == SUCCESS <==>
            forall i :: 0 <= i < |items| ==> Scan(e, c, items[i].0).error == SUCCESS
  {
    if items != [] {
      var v := Judge(Killer(e, c), items[0].0, items[0].1, ());
      assert v == Scan(e, c, items[0].0);
      ScanErrors(e, c, items[0].0);
      PruneFails(e, c, items[1..]);
      assert forall i :: 0 < i < |items| ==> items[i] == items[1..][i - 1];
    }
  }

  lemma {:induction false} PruneErrors(e: Engine, c: Criterion, items: seq<(Info, Tag)>)
    requires WellTyped(c) && e.failure != SEARCH_COMPLETE
    ensures Prune(items, Killer(e, c), ()).error != SEARCH_COMPLETE
  {
    if items != [] {
      var v := Judge(Killer(e, c), items[0].0, items[0].1, ());
      assert v == Scan(e, c, items[0].0);
      ScanErrors(e, c, items[0].0);
      PruneErrors(e, c, items[1..]);
    }
  }

  lemma CriterionErrors(e: Engine, f: Node)
    requires WellFormed(e, f) && e.failure != SEARCH_COMPLETE
    ensures CriterionOf(e, f).Err? ==> CriterionOf(e, f).error != SEARCH_COMPLETE
  {
  }

  lemma {:induction false} KeptIsPassing(e: Engine, c: Criterion, infos: seq<Info>, keep: seq<bool>)
    requires WellTyped(c) && |keep| == |infos| && forall i :: 0 <= i < |infos| ==> keep[i] == !Scan(e, c, infos[i]).kill
    ensures Kept(infos, keep) == Passing(e, [c], infos)
  {
    if infos != [] {
      var last := |infos| - 1;
      KeptIsPassing(e, c, infos[..last], keep[..last]);
      assert Passes(e, [c], infos[last]) <==> keep[last];
    }
  }

  lemma {:induction false} KeptData(nodes: seq<LinkNode<Info>>, keep: seq<bool>)
    requires |keep| == |nodes|
    ensures Data(Kept(nodes, keep)) == Kept(Data(nodes), keep)
    ensures AllRecords(nodes) ==> AllRecords(Kept(nodes, keep))
    ensures forall i :: 0 <= i < |Kept(nodes, keep)| ==> Kept(nodes, keep)[i] in nodes
  {
    if nodes != [] {
      var last := |nodes| - 1;
      KeptData(nodes[..last], keep[..last]);
      KeptMembers(nodes, keep);
    }
  }

  /** Filtering twice is filtering by both criteria. */
  lemma {:induction false} PassingTwice(e: Engine, cs: seq<Criterion>, c: Criterion, infos: seq<Info>)
    requires WellTyped(c) && forall d :: d in cs ==> WellTyped(d)
    ensures Passing(e, [c], Passing(e, cs, infos)) == Passing(e, cs + [c], infos)
  {
    if infos != [] {
      var last := |infos| - 1;
      PassingTwice(e, cs, c, infos[..last]);
      assert Passes(e, cs + [c], infos[last]) <==> Passes(e, cs, infos[last]) && Passes(e, [c], infos[last]);
      var front := Passing(e, cs, infos[..last]);
      PassingAppend(e, c, front, infos[last]);
      assert front + [] == front;
    }
  }

  lemma PassingAppend(e: Engine, c: Criterion, infos: seq<Info>, x: Info)
    requires WellTyped(c)
    ensures Passing(e, [c], infos + [x]) == Passing(e, [c], infos) + if Passes(e, [c], x) then [x] else []
  {
    assert (infos + [x])[..|infos|] == infos;
  }

  lemma {:induction false} PassingAll(e: Engine, infos: seq<Info>)
    ensures Passing(e, [], infos) == infos
  {
    if infos != [] {
      PassingAll(e, infos[..|infos| - 1]);
    }
  }

  /** The order of the filters, and giving one twice, makes no difference to what is shown. */
  lemma {:induction false} OrderIrrelevant(e: Engine, cs: seq<Criterion>, ds: seq<Criterion>, infos: seq<Info>)
    requires forall c :: c in cs <==> c in ds
    requires forall c :: c in cs ==> WellTyped(c)
    ensures Passing(e, cs, infos) == Passing(e, ds, infos)
  {
    if infos != [] {
      OrderIrrelevant(e, cs, ds, infos[..|infos| - 1]);
    }
  }

  lemma {:induction false} OnlyPassing(e: Engine, cs: seq<Criterion>, infos: seq<Info>, x: Info)
    requires (forall c :: c in cs ==> WellTyped(c)) && x in Passing(e, cs, infos)
    ensures Passes(e, cs, x)
  {
    var last := |infos| - 1;
    if x in Passing(e, cs, infos[..last]) {
      OnlyPassing(e, cs, infos[..last], x);
    }
  }

  /**
   * An engine whose failures carry the code that ends a traversal early would go unnoticed: with a plugin in front whose
   * features cannot be listed the volume filter reports success and keeps everything, also a volume that it condemns and
   * that does not belong to the outcome.
   */
  lemma SearchCompleteGoesUnnoticed(e: Engine, volume: Handle, items: seq<(Info, Tag)>, k: nat, infos: seq<Info>)
    requires e.failure == SEARCH_COMPLETE && volume !in e.features && items != [] && items[0].0.Plugin?
    requires 0 < k < |items| && items[k].0.Volume? && items[k].0.handle != volume
    ensures Prune(items, Killer(e, ByVolume(volume)), ()) == Pruning(AllTrue(|items|), SUCCESS, ())
    ensures Scan(e, ByVolume(volume), items[k].0) == Killed(true)
    ensures items[k].0 !in Passing(e, [ByVolume(volume)], infos)
  {
    var c := ByVolume(volume);
    var v := Judge(Killer(e, c), items[0].0, items[0].1, ());
    assert v == Scan(e, c, items[0].0) == Verdict(false, (), SEARCH_COMPLETE);
    assert [true] + AllTrue(|items| - 1) == AllTrue(|items|);
    if items[k].0 in Passing(e, [c], infos) {
      OnlyPassing(e, [c], infos, items[k].0);
    }
  }

  /**
   * The EQ filter accepts exactly the sizes within the tolerance if and only if the tolerance is at most the size and
   * neither limit wraps around.
   */
  lemma ToleranceIsRange(size: nat, tolerance: nat)
    requires size < TWO_TO_64 && tolerance < TWO_TO_64
    ensures var (lower, upper) := Limits(size, tolerance, false);
            (forall x: nat :: x < TWO_TO_64 ==>
               (Accepts(EqualTo, lower, upper, x) <==> size - tolerance <= x <= size + tolerance))
            <==> tolerance <= size && size + tolerance < TWO_TO_64
  {
    var (lower, upper) := Limits(size, tolerance, false);
    if tolerance > size {
      assert lower == size - tolerance + TWO_TO_64;
      assert !Accepts(EqualTo, lower, upper, size);
    } else if size + tolerance >= TWO_TO_64 {
      assert upper == size + tolerance - TWO_TO_64;
      assert !Accepts(EqualTo, lower, upper, size);
    }
  }

  /** A tolerance without a unit is a percentage of the size, rounded down, if the product fits. */
  lemma ToleranceInPercent(size: nat, percent: nat)
    requires size * percent < TWO_TO_64
    ensures Limits(size, percent, true) == Limits(size, size * percent / 100, false)
  {
    SmallRemainder(size * percent);
  }

  /** The sectors of an option are those of the records: a size in sectors comes back from its number of bytes. */
  lemma SectorsComeBack(size: nat)
    ensures Divisor(Sectors) == VSECTOR_SIZE == 512
    ensures ConvertInt(Bytes, Sectors, size * VSECTOR_SIZE) == Value(size)
  {
    QuotientTruncates(size * 512, 512);
  }

  lemma SmallRemainder(x: nat)
    requires x < TWO_TO_64
    ensures x % TWO_TO_64 == x
  {
  }

  predicate AllOk(e: Engine, fs: seq<Node>)
    requires forall f :: f in fs ==> WellFormed(e, f)
  {
    forall f :: f in fs ==> CriterionOf(e, f).Ok?
  }

  /** The criteria of all filters, in their order. */
  function Criteria(e: Engine, fs: seq<Node>): (cs: seq<Criterion>)
    requires (forall f :: f in fs ==> WellFormed(e, f)) && AllOk(e, fs)
    ensures |cs| == |fs| && forall k :: 0 <= k < |fs| ==> cs[k] == CriterionOf(e, fs[k]).value && WellTyped(cs[k])
  {
    if fs == [] then [] else [CriterionOf(e, fs[0]).value] + Criteria(e, fs[1..])
  }

  lemma CriterionIn(e: Engine, fs: seq<Node>, gs: seq<Node>, c: Criterion)
    requires (forall f :: f in fs ==> WellFormed(e, f)) && AllOk(e, fs) && c in Criteria(e, fs)
    requires (forall f :: f in gs ==> WellFormed(e, f)) && AllOk(e, gs) && forall f :: f in fs ==> f in gs
    ensures c in Criteria(e, gs)
  {
    hide WellFormed, CriterionOf, AllOk;
    var k :| 0 <= k < |fs| && Criteria(e, fs)[k] == c;
    assert fs[k] in gs;
    var j :| 0 <= j < |gs| && gs[j] == fs[k];
    assert Criteria(e, gs)[j] == c;
  }

  /** A query shows the same whatever the order of its filters, and however often one of them is given. */
  lemma FilterOrderIrrelevant(e: Engine, fs: seq<Node>, gs: seq<Node>, infos: seq<Info>)
    requires (forall f :: f in fs ==> WellFormed(e, f)) && forall f :: f in fs <==> f in gs
    ensures AllOk(e, fs) <==> AllOk(e, gs)
    ensures AllOk(e, fs) ==> Passing(e, Criteria(e, fs), infos) == Passing(e, Criteria(e, gs), infos)
  {
    hide WellFormed, CriterionOf;
    if AllOk(e, fs) {
      var cs, ds := Criteria(e, fs), Criteria(e, gs);
      forall c
        ensures c in cs <==> c in ds
      {
        if c in cs {
          CriterionIn(e, fs, gs, c);
        }
        if c in ds {
          CriterionIn(e, gs, fs, c);
        }
      }
      OrderIrrelevant(e, cs, ds, infos);
    }
  }

  lemma CriteriaOfNone(e: Engine, infos: seq<Info>)
    ensures AllOk(e, []) && Criteria(e, []) == [] && Passing(e, Criteria(e, []), infos) == infos
  {
    PassingAll(e, infos);
  }

  lemma CriteriaOfMore(e: Engine, fs: seq<Node>, i: nat, infos: seq<Info>)
    requires i < |fs| && (forall f :: f in fs ==> WellFormed(e, f)) && AllOk(e, fs[..i]) && CriterionOf(e, fs[i]).Ok?
    ensures AllOk(e, fs[..i + 1])
    ensures Passing(e, [CriterionOf(e, fs[i]).value], Passing(e, Criteria(e, fs[..i]), infos)) ==
            Passing(e, Criteria(e, fs[..i + 1]), infos)
  {
    hide WellFormed, CriterionOf, Passing;
    assert fs[..i + 1] == fs[..i] + [fs[i]];
    assert Criteria(e, fs[..i + 1]) == Criteria(e, fs[..i]) + [CriterionOf(e, fs[i]).value];
    PassingTwice(e, Criteria(e, fs[..i]), CriterionOf(e, fs[i]).value, infos);
  }

  predicate Known(e: Engine, handles: seq<Handle>) { forall h :: h in handles ==> h in e.infos }

  function Candidates(e: Engine, handles: seq<Handle>): (infos: seq<Info>)
    requires Known(e, handles)
  {
    seq(|handles|, i requires 0 <= i < |handles| => e.infos[handles[i]])
  }

  /** What a query shows: of the handles in turn, the records that every filter shows. */
  ghost function Chosen(e: Engine, fs: seq<Node>, handles: seq<Handle>): (infos: seq<Info>)
    requires (forall f :: f in fs ==> WellFormed(e, f)) && AllEvaluate(e, fs) && Known(e, handles)
  {
    if handles == [] then []
    else (if ShowsAll(e, fs, e.infos[handles[0]]) then [e.infos[handles[0]]] else []) + Chosen(e, fs, handles[1..])
  }

  lemma {:induction false} ChosenIsSelected(e: Engine, fs: seq<Node>, handles: seq<Handle>)
    requires (forall f :: f in fs ==> WellFormed(e, f)) && AllEvaluate(e, fs) && Known(e, handles)
    ensures Chosen(e, fs, handles) == Selected(e, fs, Candidates(e, handles))
  {
    hide WellFormed, Evaluates, ShowsAll;
    if handles != [] {
      ChosenIsSelected(e, fs, handles[1..]);
      assert Candidates(e, handles) == [e.infos[handles[0]]] + Candidates(e, handles[1..]);
      SelectedAppend(e, fs, [e.infos[handles[0]]], Candidates(e, handles[1..]));
      SelectedOne(e, fs, e.infos[handles[0]]);
    }
  }

  /** Without filters record k of the outcome is that of handle k. */
  lemma {:induction false} ChosenByNone(e: Engine, handles: seq<Handle>)
    requires Known(e, handles)
    ensures |Chosen(e, [], handles)| == |handles|
    ensures forall k :: 0 <= k < |handles| ==> Chosen(e, [], handles)[k] == e.infos[handles[k]]
  {
    if handles != [] {
      ChosenByNone(e, handles[1..]);
    }
  }

  lemma ShowsBySize(e: Engine, f: Node, i: Info)
    requires WellFormed(e, f) && Evaluates(e, f) && (f.kind == GreaterFilter || f.kind == LessFilter) && !i.Plugin?
    ensures var size, wanted := i.size * 512 % 0x1_0000_0000_0000_0000, OperandBytes(f.operands[0]);
            Shows(e, f, i) <==> if f.kind == GreaterFilter then size > wanted else size < wanted
  {
  }

  /** The record of a handle is among those that a query shows if and only if every filter shows it. */
  lemma ChosenMembers(e: Engine, fs: seq<Node>, handles: seq<Handle>, h: Handle)
    requires (forall f :: f in fs ==> WellFormed(e, f)) && AllEvaluate(e, fs) && Known(e, handles) && h in handles
    ensures e.infos[h] in Chosen(e, fs, handles) <==> ShowsAll(e, fs, e.infos[h])
  {
    hide WellFormed, Evaluates, Shows, Chosen, Selected;
    ChosenIsSelected(e, fs, handles);
    SelectedMembers(e, fs, Candidates(e, handles), e.infos[h]);
    var k :| 0 <= k < |handles| && handles[k] == h;
    assert Candidates(e, handles)[k] == e.infos[h];
  }

  /** A query with a single GT or LT filter shows exactly the records whose bytes compare that way, and the plugins. */
  lemma ChosenBySize(e: Engine, f: Node, handles: seq<Handle>, h: Handle)
    requires WellFormed(e, f) && Evaluates(e, f) && AllEvaluate(e, [f]) && Known(e, handles)
    requires (f.kind == GreaterFilter || f.kind == LessFilter) && h in handles && !e.infos[h].Plugin?
    ensures var size, wanted := e.infos[h].size * 512 % 0x1_0000_0000_0000_0000, OperandBytes(f.operands[0]);
            e.infos[h] in Chosen(e, [f], handles) <==> if f.kind == GreaterFilter then size > wanted else size < wanted
  {
    assert f in [f] && Evaluates(e, f);
    ShowsBySize(e, f, e.infos[h]);
    hide WellFormed, Evaluates, Shows, Chosen, OperandBytes;
    ChosenMembers(e, [f], handles, h);
  }

  function Printer(): Process<Info, seq<Info>> {
    (i: Info, t: Tag, s: seq<Info>) => Processed(s + [i], SUCCESS)
  }

  lemma {:induction false} Shown(nodes: seq<LinkNode<Info>>, items: seq<(Info, Tag)>, s: seq<Info>)
    requires |items| == |nodes| && forall i :: 0 <= i < |nodes| ==> items[i].0 == nodes[i].data
    ensures Fold(items, Printer(), s) == Processed(s + Data(nodes), SUCCESS)
    decreases |items|
  {
    if items == [] {
      assert Data(nodes) == [] && s + [] == s;
    } else {
      assert DoProcess(Printer(), items[0].0, items[0].1, s) == Processed(s + [items[0].0], SUCCESS);
      Shown(nodes[1..], items[1..], s + [items[0].0]);
      assert Data(nodes) == [items[0].0] + Data(nodes[1..]);
      assert s + ([items[0].0] + Data(nodes[1..])) == s + [items[0].0] + Data(nodes[1..]);
    }
  }

  /** The cells that the operands of a filter need at most. */
  const HEADROOM: nat := 4

  class Interpreter {
    const engine: Engine
    const stack: Stack
    var currentUnits: Unit

    constructor (engine: Engine)
      ensures this.engine == engine && stack.Valid() && Contents(stack) == [] && fresh(stack)
    {
      this.engine := engine;
      stack := new ControlNode<Cell>();
      currentUnits := NoUnit;
    }

    /** Do_Unit_Conversion for an integer. */
    method DoUnitConversion(unit: UnitName, ghost below: seq<(Cell, Tag)>, ghost number: int) returns (error: int)
      requires stack.Valid() && |below| + HEADROOM < MAX_COUNT
      requires Contents(stack) == below + [(IntegerCell(number), INTEGER_VALUE)]
      modifies this, stack, stack.nodes`next, stack.nodes`prev, stack.nodes`owner
      ensures stack.Valid()
      ensures forall i :: 0 <= i < |stack.nodes| ==> stack.nodes[i] in old(stack.nodes) || fresh(stack.nodes[i])
      ensures match Convert(number, unit)
              case Converted(n, u) =>
                error == SUCCESS && currentUnits == u && Contents(stack) == below + [(IntegerCell(n), INTEGER_VALUE)]
              case BadUnit => error == Reachability.CORRUPTED && currentUnits == NoUnit && Contents(stack) == below
    {
      hide ControlNode.Valid, Contents, Items;
      var aborted, tag := Peek(stack);
      assert !aborted && tag == INTEGER_VALUE;
      var cell;
      aborted, cell := Pop(stack, INTEGER_VALUE);
      assert !aborted && Contents(stack) == below;
      match Convert(cell.value.number, unit)
      case Converted(n, u) =>
        currentUnits := u;
        Push(stack, INTEGER_VALUE, IntegerCell(n));
        error := SUCCESS;
      case BadUnit =>
        currentUnits := NoUnit;
        error := Reachability.CORRUPTED;
    }

    /** The children of a number: at most a unit, which replaces the number on the stack. */
    method ProcessUnits(units: seq<Node>, ghost below: seq<(Cell, Tag)>, ghost number: int) returns (error: int)
      requires IsUnits(units) && stack.Valid() && |below| + HEADROOM < MAX_COUNT
      requires Contents(stack) == below + [(IntegerCell(number), INTEGER_VALUE)]
      modifies this, stack, stack.nodes`next, stack.nodes`prev, stack.nodes`owner
      ensures stack.Valid()
      ensures forall i :: 0 <= i < |stack.nodes| ==> stack.nodes[i] in old(stack.nodes) || fresh(stack.nodes[i])
      ensures match Amount(number, units)
              case Ok(n) => error == SUCCESS && Contents(stack) == below + [(IntegerCell(n), INTEGER_VALUE)]
              case Err(code) => error == code
    {
      hide ControlNode.Valid, Contents, Items;
      error := SUCCESS;
      var i := 0;
      while i < |units| && error == SUCCESS
        invariant i <= |units| && stack.Valid()
        invariant forall i :: 0 <= i < |stack.nodes| ==> stack.nodes[i] in old(stack.nodes) || fresh(stack.nodes[i])
        invariant match Amount(number, units[..i])
                  case Ok(n) => error == SUCCESS && Contents(stack) == below + [(IntegerCell(n), INTEGER_VALUE)]
                  case Err(code) => error == code
      {
        assert units[i] in units && units[..i] == [] && units[..1] == units;
        error := DoUnitConversion(units[i].unit, below, number);
        i := i + 1;
      }
      assert i < |units| ==> i == 0;
      assert units[..|units|] == units;
    }

    method DoIntegerData(number: int, units: seq<Node>) returns (error: int)
      requires IsUnits(units) && stack.Valid() && |Contents(stack)| + HEADROOM < MAX_COUNT
      modifies this, stack, stack.nodes`next, stack.nodes`prev, stack.nodes`owner
      ensures stack.Valid()
      ensures forall i :: 0 <= i < |stack.nodes| ==> stack.nodes[i] in old(stack.nodes) || fresh(stack.nodes[i])
      ensures match Amount(number, units)
              case Ok(n) => error == SUCCESS && Contents(stack) == old(Contents(stack)) + [(IntegerCell(n), INTEGER_VALUE)]
              case Err(code) => error == code
    {
      hide ControlNode.Valid, Contents, Items;
      ghost var below := Contents(stack);
      Push(stack, INTEGER_VALUE, IntegerCell(number));
      error := ProcessUnits(units, below, number);
    }

    method DoPrecision(number: int, units: seq<Node>) returns (error: int)
      requires IsUnits(units) && stack.Valid() && |Contents(stack)| + HEADROOM < MAX_COUNT
      modifies this, stack, stack.nodes`next, stack.nodes`prev, stack.nodes`owner
      ensures stack.Valid()
      ensures forall i :: 0 <= i < |stack.nodes| ==> stack.nodes[i] in old(stack.nodes) || fresh(stack.nodes[i])
      ensures match Cells(PrecisionNode(number, units))
              case Ok(cells) => error == SUCCESS && Contents(stack) == old(Contents(stack)) + cells
              case Err(code) => error == code
    {
      hide ControlNode.Valid, Contents, Items;
      ghost var below := Contents(stack);
      Push(stack, INTEGER_VALUE, IntegerCell(number));
      error := ProcessUnits(units, below, number);
      if error == SUCCESS {
        AmountErrs(number, units);
        Push(stack, BOOLEAN_VALUE, BooleanCell(|units| == 0));
      }
    }

    /** Process_Node for an operand. */
    method ProcessOperand(node: Node) returns (error: int)
      requires IsOperand(node) && stack.Valid() && |Contents(stack)| + HEADROOM < MAX_COUNT
      modifies this, stack, stack.nodes`next, stack.nodes`prev, stack.nodes`owner
      ensures stack.Valid()
      ensures forall i :: 0 <= i < |stack.nodes| ==> stack.nodes[i] in old(stack.nodes) || fresh(stack.nodes[i])
      ensures match Cells(node)
              case Ok(cells) => error == SUCCESS && Contents(stack) == old(Contents(stack)) + cells
              case Err(code) => error == code
    {
      hide ControlNode.Valid, Contents, Items;
      error := SUCCESS;
      match node
      case NameNode(named) =>
        match named {
          case Found(h) => Push(stack, HANDLE, HandleCell(h));
          case Failed(code) => error := code;
        }
      case MaskNode(mask) => Push(stack, PLUGIN_ID_MASK, MaskCell(mask));
      case IntegerNode(number, units) => error := DoIntegerData(number, units);
      case PrecisionNode(number, units) => error := DoPrecision(number, units);
    }

    /** The children of a filter, one after the other until one fails. */
    method ProcessOperands(operands: seq<Node>) returns (error: int)
      requires |operands| <= 2 && forall n :: n in operands ==> IsOperand(n)
      requires stack.Valid() && |Contents(stack)| + 2 * HEADROOM < MAX_COUNT
      modifies this, stack, stack.nodes`next, stack.nodes`prev, stack.nodes`owner
      ensures stack.Valid()
      ensures forall i :: 0 <= i < |stack.nodes| ==> stack.nodes[i] in old(stack.nodes) || fresh(stack.nodes[i])
      ensures match AllCells(operands)
              case Ok(cells) => error == SUCCESS && Contents(stack) == old(Contents(stack)) + cells
              case Err(code) => error == code && code != SUCCESS && code != SEARCH_COMPLETE
    {
      hide ControlNode.Valid, Contents, Items, Cells, IsOperand;
      error := SUCCESS;
      var i := 0;
      while i < |operands| && error == SUCCESS
        invariant i <= |operands| && stack.Valid()
        invariant forall i :: 0 <= i < |stack.nodes| ==> stack.nodes[i] in old(stack.nodes) || fresh(stack.nodes[i])
        invariant match AllCells(operands[..i])
                  case Ok(cells) => error == SUCCESS && Contents(stack) == old(Contents(stack)) + cells && |cells| <= 2 * i
                  case Err(code) =>
                    error == code && code != SUCCESS && code != SEARCH_COMPLETE && AllCells(operands) == Err(code)
      {
        assert operands[i] in operands && operands[..i + 1][..i] == operands[..i];
        CellsErr(operands[i]);
        error := ProcessOperand(operands[i]);
        i := i + 1;
        if error != SUCCESS {
          FirstErrorCounts(operands, i);
        }
      }
      assert operands[..|operands|] == operands;
    }

    /** Thin out the list with the callback of a criterion and put it back on the stack if that succeeds. */
    method PruneAndPush(list: Records, c: Criterion) returns (error: int)
      requires WellTyped(c) && engine.failure != SEARCH_COMPLETE
      requires stack.Valid() && |Contents(stack)| + HEADROOM < MAX_COUNT && list.Valid() && AllRecords(list.nodes)
      modifies stack, stack.nodes`next, stack.nodes`prev, list, list.nodes`next, list.nodes`prev, list.nodes`owner
      ensures stack.Valid() && list.Valid() && AllRecords(list.nodes)
      ensures forall i :: 0 <= i < |stack.nodes| ==> stack.nodes[i] in old(stack.nodes) || fresh(stack.nodes[i])
      ensures forall i :: 0 <= i < |list.nodes| ==> list.nodes[i] in old(list.nodes)
      ensures error != SEARCH_COMPLETE
      ensures error == SUCCESS <==> ScansClean(engine, c, old(Data(list.nodes)))
      ensures error == SUCCESS ==>
                Data(list.nodes) == Passing(engine, [c], old(Data(list.nodes)))
      ensures error == SUCCESS ==>
                Contents(stack) == old(Contents(stack)) + [(ListCell(list), LIST)]
    {
      hide ControlNode.Valid, Contents, Items, Data, AllRecords, Passing, WellTyped, ScansClean;
      error := PruneBy(list, c);
      if error == SUCCESS {
        Push(stack, LIST, ListCell(list));
      }
    }

    method PruneBy(list: Records, c: Criterion) returns (error: int)
      requires WellTyped(c) && engine.failure != SEARCH_COMPLETE && list.Valid() && AllRecords(list.nodes)
      modifies list, list.nodes`next, list.nodes`prev, list.nodes`owner
      ensures list.Valid() && AllRecords(list.nodes)
      ensures forall i :: 0 <= i < |list.nodes| ==> list.nodes[i] in old(list.nodes)
      ensures error != SEARCH_COMPLETE
      ensures error == SUCCESS <==> ScansClean(engine, c, old(Data(list.nodes)))
      ensures error == SUCCESS ==> Data(list.nodes) == Passing(engine, [c], old(Data(list.nodes)))
    {
      hide ControlNode.Valid, Prune, Kept, CursorAfterPrune, Passing, Scan;
      ghost var before := list.nodes;
      ghost var infos, items := Data(before), Items(before);
      ItemsAre(before);
      var s;
      error, s := PruneList(list, Killer(engine, c), ());
      ghost var keep := Prune(items, Killer(engine, c), ()).keep;
      KeptData(before, keep);
      PruneErrors(engine, c, items);
      PruneFails(engine, c, items);
      if error == SUCCESS {
        PruneSucceeds(engine, c, items);
        KeptIsPassing(engine, c, infos, keep);
      }
    }

    /** Take the operands of a handle filter from the stack; three of them look up the record behind the handle. */
    method TakeHandle(f: Node, ghost below: seq<(Cell, Tag)>) returns (error: int, c: Option<Criterion>)
      requires WellFormed(engine, f) && f.operands[0].NameNode? && f.operands[0].named.Found?
      requires stack.Valid() && Contents(stack) == below + [(HandleCell(f.operands[0].named.handle), HANDLE)]
      modifies stack, stack.nodes`next, stack.nodes`prev, stack.nodes`owner
      ensures stack.Valid() && Contents(stack) == below
      ensures forall i :: 0 <= i < |stack.nodes| ==> stack.nodes[i] in old(stack.nodes)
      ensures match CriterionOf(engine, f)
              case Ok(criterion) => error == SUCCESS && c == Some(criterion)
              case Err(code) => error == code
    {
      hide ControlNode.Valid, Contents, Items;
      var aborted, cell := Pop(stack, HANDLE);
      assert !aborted;
      var h := cell.value.handle;
      c, error := None, SUCCESS;
      if f.kind == VolumeFilter {
        c := Some(ByVolume(h));
      } else if f.kind == PluginFilter {
        c := Some(ByPlugin(h));
      } else if f.kind == DiskFilter {
        c := Some(ByDisk(h));
      } else if f.kind == SegmentFilter {
        c := Some(BySegment(h));
      } else if h !in engine.infos {
        error := engine.failure;
      } else if f.kind == ObjectFilter {
        c := Some(ByObject(engine.infos[h]));
      } else if f.kind == ContainerFilter {
        c := Some(ByContainer(engine.infos[h]));
      } else {
        c := Some(ByRegion(engine.infos[h]));
      }
    }

    /** Take the operands of a size filter from the stack: with two children the tolerance is above the size. */
    method TakeSizes(f: Node, ghost below: seq<(Cell, Tag)>) returns (c: Criterion)
      requires WellFormed(engine, f) && (f.kind == GreaterFilter || f.kind == LessFilter || f.kind == EqualFilter)
      requires AllCells(f.operands).Ok? && stack.Valid() && Contents(stack) == below + AllCells(f.operands).value
      modifies stack, stack.nodes`next, stack.nodes`prev, stack.nodes`owner
      ensures stack.Valid() && Contents(stack) == below
      ensures forall i :: 0 <= i < |stack.nodes| ==> stack.nodes[i] in old(stack.nodes)
      ensures CriterionOf(engine, f) == Ok(c)
    {
      hide ControlNode.Valid, Contents, Items, AllCells, Cells, Amount;
      var aborted, cell;
      SizeCells(engine, f);
      var lower, upper := 0, 0;
      if f.kind == EqualFilter && |f.operands| == 2 {
        aborted, cell := Pop(stack, BOOLEAN_VALUE);
        assert !aborted;
        var percent := cell.value.flag;
        aborted, cell := Pop(stack, INTEGER_VALUE);
        assert !aborted;
        var tolerance := Unsigned(cell.value.number);
        aborted, cell := Pop(stack, INTEGER_VALUE);
        assert !aborted && Contents(stack) == below;
        var size := Unsigned(cell.value.number);
        if percent {
          tolerance := (size * tolerance) % TWO_TO_64 / 100;
        }
        lower, upper := (size - tolerance) % TWO_TO_64, (size + tolerance) % TWO_TO_64;
        c := BySize(EqualTo, lower, upper);
      } else {
        aborted, cell := Pop(stack, INTEGER_VALUE);
        assert !aborted && Contents(stack) == below;
        lower := Unsigned(cell.value.number);
        c := SizeCriterion(f.kind, lower);
      }
    }

    method TakeMask(f: Node, ghost below: seq<(Cell, Tag)>) returns (c: Criterion)
      requires f.FilterNode? && f.kind == PluginTypeFilter && WellFormed(engine, f)
      requires stack.Valid() && Contents(stack) == below + [(MaskCell(f.operands[0].mask), PLUGIN_ID_MASK)]
      modifies stack, stack.nodes`next, stack.nodes`prev, stack.nodes`owner
      ensures stack.Valid() && Contents(stack) == below
      ensures forall i :: 0 <= i < |stack.nodes| ==> stack.nodes[i] in old(stack.nodes)
      ensures CriterionOf(engine, f) == Ok(c)
    {
      hide ControlNode.Valid, Contents, Items;
      var aborted, cell := Pop(stack, PLUGIN_ID_MASK);
      assert !aborted && Contents(stack) == below;
      c := ByType(cell.value.mask);
    }

    /** Take the operands of a filter, which have been processed without error, from the stack. */
    method TakeOperands(f: Node, ghost below: seq<(Cell, Tag)>) returns (error: int, c: Option<Criterion>)
      requires WellFormed(engine, f) && (forall n :: n in f.operands ==> IsOperand(n)) && AllCells(f.operands).Ok?
      requires stack.Valid() && Contents(stack) == below + AllCells(f.operands).value
      modifies stack, stack.nodes`next, stack.nodes`prev, stack.nodes`owner
      ensures stack.Valid() && Contents(stack) == below
      ensures forall i :: 0 <= i < |stack.nodes| ==> stack.nodes[i] in old(stack.nodes)
      ensures match CriterionOf(engine, f)
              case Ok(criterion) => error == SUCCESS && c == Some(criterion)
              case Err(code) => error == code
    {
      hide ControlNode.Valid, Contents, Items, AllCells, CriterionOf;
      error := SUCCESS;
      if f.kind == GreaterFilter || f.kind == LessFilter || f.kind == EqualFilter {
        var criterion := TakeSizes(f, below);
        c := Some(criterion);
      } else {
        assert f.operands == [f.operands[0]];
        AllCellsOne(f.operands[0]);
        if f.kind == PluginTypeFilter {
          var criterion := TakeMask(f, below);
          c := Some(criterion);
        } else {
          error, c := TakeHandle(f, below);
        }
      }
    }

    /** The children of a filter are processed and the values that they leave are taken from the stack. */
    method EvaluateOperands(f: Node) returns (error: int, c: Option<Criterion>)
      requires WellFormed(engine, f) && engine.failure != SEARCH_COMPLETE
      requires stack.Valid() && |Contents(stack)| + 3 * HEADROOM < MAX_COUNT
      modifies this, stack, stack.nodes`next, stack.nodes`prev, stack.nodes`owner
      ensures stack.Valid()
      ensures forall i :: 0 <= i < |stack.nodes| ==> stack.nodes[i] in old(stack.nodes) || fresh(stack.nodes[i])
      ensures error != SEARCH_COMPLETE && (error == SUCCESS <==> CriterionOf(engine, f).Ok?)
      ensures error == SUCCESS ==> c == Some(CriterionOf(engine, f).value) && Contents(stack) == old(Contents(stack))
    {
      OperandsOfFilter(engine, f);
      CriterionErrors(engine, f);
      EvaluatesExactly(engine, f);
      if Evaluates(engine, f) {
        CellsEvaluated(engine, f);
      }
      hide ControlNode.Valid, Contents, Items, WellTyped, CriterionOf, AllCells, Evaluates, WellFormed;
      ghost var below := Contents(stack);
      c := None;
      error := ProcessOperands(f.operands);
      if error == SUCCESS {
        error, c := TakeOperands(f, below);
      }
    }

    /** The Do_Filter functions: the list comes off the stack, is thinned out and goes back on. */
    method DoFilter(f: Node, ghost list: Records) returns (error: int)
      requires WellFormed(engine, f) && engine.failure != SEARCH_COMPLETE
      requires stack.Valid() && |Contents(stack)| + 4 * HEADROOM < MAX_COUNT && list.Valid() && AllRecords(list.nodes)
      requires Contents(stack) != [] && Contents(stack)[|Contents(stack)| - 1] == (ListCell(list), LIST)
      modifies this, stack, stack.nodes`next, stack.nodes`prev, stack.nodes`owner
      modifies list, list.nodes`next, list.nodes`prev, list.nodes`owner
      ensures stack.Valid() && list.Valid() && AllRecords(list.nodes)
      ensures forall i :: 0 <= i < |stack.nodes| ==> stack.nodes[i] in old(stack.nodes) || fresh(stack.nodes[i])
      ensures forall i :: 0 <= i < |list.nodes| ==> list.nodes[i] in old(list.nodes)
      ensures error != SEARCH_COMPLETE
      ensures error == SUCCESS <==> FiltersCleanly(engine, f, old(Data(list.nodes)))
      ensures error == SUCCESS ==>
                && Contents(stack) == old(Contents(stack))
                && Data(list.nodes) == Passing(engine, [CriterionOf(engine, f).value], old(Data(list.nodes)))
    {
      hide ControlNode.Valid, Contents, Items, Data, AllRecords, Passing, WellTyped, CriterionOf, ScansClean, WellFormed;
      ghost var before := Contents(stack);
      ghost var below := before[..|before| - 1];
      var aborted, cell := Pop(stack, LIST);
      assert !aborted && cell == Some(ListCell(list)) && Contents(stack) == below;
      var c;
      error, c := EvaluateOperands(f);
      if error == SUCCESS {
        error := PruneAndPush(cell.value.list, c.value);
        assert before == below + [(ListCell(list), LIST)];
      }
    }

    /** The children of a query, one after the other; like every traversal it ends at the first failure. */
    method ProcessFilters(filters: seq<Node>, ghost list: Records) returns (error: int)
      requires (forall f :: f in filters ==> WellFormed(engine, f)) && engine.failure != SEARCH_COMPLETE
      requires stack.Valid() && |Contents(stack)| + 4 * HEADROOM < MAX_COUNT && list.Valid() && AllRecords(list.nodes)
      requires Contents(stack) != [] && Contents(stack)[|Contents(stack)| - 1] == (ListCell(list), LIST)
      modifies this, stack, stack.nodes`next, stack.nodes`prev, stack.nodes`owner
      modifies list, list.nodes`next, list.nodes`prev, list.nodes`owner
      ensures stack.Valid() && list.Valid() && AllRecords(list.nodes)
      ensures forall i :: 0 <= i < |stack.nodes| ==> stack.nodes[i] in old(stack.nodes) || fresh(stack.nodes[i])
      ensures forall i :: 0 <= i < |list.nodes| ==> list.nodes[i] in old(list.nodes)
      ensures error == SUCCESS <==> RunsClean(engine, filters, old(Data(list.nodes)))
      ensures error == SUCCESS ==>
                && AllOk(engine, filters) && Contents(stack) == old(Contents(stack))
                && Data(list.nodes) == Passing(engine, Criteria(engine, filters), old(Data(list.nodes)))
                && AllEvaluate(engine, filters) && Data(list.nodes) == Selected(engine, filters, old(Data(list.nodes)))
    {
      hide ControlNode.Valid, Contents, Items, Data, AllRecords, WellTyped, CriterionOf, WellFormed, Passing,
           Criteria, AllOk, Evaluates, Selected, RunsClean, ScansClean;
      ghost var infos := Data(list.nodes);
      NothingRuns(engine, infos);
      error := SUCCESS;
      CriteriaOfNone(engine, infos);
      SelectedByNone(engine, infos);
      assert filters[..0] == [];
      var i := 0;
      while i < |filters| && error == SUCCESS
        invariant i <= |filters| && stack.Valid() && list.Valid() && AllRecords(list.nodes)
        invariant forall k :: 0 <= k < |stack.nodes| ==> stack.nodes[k] in old(stack.nodes) || fresh(stack.nodes[k])
        invariant forall k :: 0 <= k < |list.nodes| ==> list.nodes[k] in old(list.nodes)
        invariant if error == SUCCESS then RunsClean(engine, filters[..i], infos) else !RunsClean(engine, filters, infos)
        invariant error == SUCCESS ==>
                    && AllOk(engine, filters[..i]) && Contents(stack) == old(Contents(stack))
                    && Data(list.nodes) == Passing(engine, Criteria(engine, filters[..i]), infos)
                    && AllEvaluate(engine, filters[..i]) && Data(list.nodes) == Selected(engine, filters[..i], infos)
      {
        FilterRuns(engine, filters, i, infos);
        error := DoFilter(filters[i], list);
        if error == SUCCESS {
          PassingIsSelected(engine, filters[i], Selected(engine, filters[..i], infos));
          CriteriaOfMore(engine, filters, i, infos);
          SelectedTwice(engine, filters[..i], filters[i], infos);
          assert filters[..i + 1] == filters[..i] + [filters[i]];
        }
        i := i + 1;
      }
      assert filters[..|filters|] == filters;
    }

    /** The records of the handles go into the list, until one of them is not known. */
    method FillList(list: Records, handles: seq<Handle>) returns (error: int)
      requires list.Valid() && list.nodes == [] && |handles| <= MAX_COUNT
      modifies list
      ensures list.Valid() && AllRecords(list.nodes)
      ensures forall i :: 0 <= i < |list.nodes| ==> fresh(list.nodes[i])
      ensures error == if Known(engine, handles) then SUCCESS else engine.failure
      ensures error == SUCCESS ==> Data(list.nodes) == Candidates(engine, handles)
    {
      hide Chained, Distinct;
      error := SUCCESS;
      var i := 0;
      while i < |handles|
        invariant i <= |handles| && list.Valid() && |list.nodes| == i
        invariant forall k :: 0 <= k < i ==> fresh(list.nodes[k]) && list.nodes[k].tag == HANDLE_INFO
        invariant forall k :: 0 <= k < i ==> handles[k] in engine.infos && list.nodes[k].data == engine.infos[handles[k]]
      {
        if handles[i] !in engine.infos {
          error := engine.failure;
          break;
        }
        InsertInfo(list, engine.infos[handles[i]]);
        i := i + 1;
      }
    }

    method InsertInfo(list: Records, info: Info)
      requires list.Valid() && |list.nodes| < MAX_COUNT
      modifies list, list.nodes`next, list.nodes`prev
      ensures list.Valid() && |list.nodes| == |old(list.nodes)| + 1 && list.nodes[..|old(list.nodes)|] == old(list.nodes)
      ensures var node := list.nodes[|old(list.nodes)|]; fresh(node) && node.data == info && node.tag == HANDLE_INFO
    {
      hide Chained, Distinct;
      var rc, node := InsertObject(list, info, HANDLE_INFO, null, AppendToList, true, true);
    }

    /**
     * Do_Query: the candidates that the engine lists are filtered and shown. When it reports success the stack is as it
     * was, and what was shown is exactly the candidates that pass all filters, in their order.
     */
    method DoQuery(answer: Result<seq<Handle>>, filters: seq<Node>) returns (error: int, shown: seq<Info>)
      requires answer.Ok? ==> |answer.value| <= MAX_COUNT
      requires answer.Err? ==> answer.error != SUCCESS
      requires (forall f :: f in filters ==> WellFormed(engine, f)) && engine.failure != SEARCH_COMPLETE
      requires stack.Valid() && |Contents(stack)| + 5 * HEADROOM < MAX_COUNT
      modifies this, stack, stack.nodes`next, stack.nodes`prev, stack.nodes`owner
      ensures stack.Valid()
      ensures error == SUCCESS <==>
                && answer.Ok? && Known(engine, answer.value)
                && RunsClean(engine, filters, Candidates(engine, answer.value))
      ensures error != SUCCESS ==> shown == []
      ensures answer.Err? ==> error == answer.error
      ensures answer.Ok? && !Known(engine, answer.value) ==> error == engine.failure
      ensures error == SUCCESS ==>
                && answer.Ok? && Known(engine, answer.value) && AllOk(engine, filters)
                && Contents(stack) == old(Contents(stack))
                && shown == Passing(engine, Criteria(engine, filters), Candidates(engine, answer.value))
                && AllEvaluate(engine, filters) && shown == Chosen(engine, filters, answer.value)
    {
      hide ControlNode.Valid, Contents, Items, Data, AllRecords, WellFormed, Passing, Criteria, AllOk, Candidates, Known,
           CriterionOf, WellTyped, AllEvaluate, Selected, Chosen, RunsClean;
      shown := [];
      var list := NewList();
      if answer.Err? {
        error := answer.error;
      } else {
        error := FillList(list, answer.value);
      }
      if error == SUCCESS {
        error, shown := FilterAndShow(list, filters);
        if error == SUCCESS {
          ChosenIsSelected(engine, filters, answer.value);
        }
      }
      var rc := DeleteAllItems(list);
    }

    /** The list goes through all filters on the stack and what comes back is shown. */
    method FilterAndShow(list: Records, filters: seq<Node>) returns (error: int, shown: seq<Info>)
      requires (forall f :: f in filters ==> WellFormed(engine, f)) && engine.failure != SEARCH_COMPLETE
      requires stack.Valid() && |Contents(stack)| + 5 * HEADROOM < MAX_COUNT && list.Valid() && AllRecords(list.nodes)
      modifies this, stack, stack.nodes`next, stack.nodes`prev, stack.nodes`owner
      modifies list, list.nodes`next, list.nodes`prev, list.nodes`owner
      ensures stack.Valid() && list.Valid()
      ensures forall i :: 0 <= i < |list.nodes| ==> list.nodes[i] in old(list.nodes)
      ensures error == SUCCESS <==> RunsClean(engine, filters, old(Data(list.nodes)))
      ensures error != SUCCESS ==> shown == []
      ensures error == SUCCESS ==>
                && AllOk(engine, filters) && Contents(stack) == old(Contents(stack))
                && shown == Passing(engine, Criteria(engine, filters), old(Data(list.nodes)))
                && AllEvaluate(engine, filters) && shown == Selected(engine, filters, old(Data(list.nodes)))
    {
      hide ControlNode.Valid, Contents, Items, Data, AllRecords, WellFormed, Passing, Criteria, AllOk, CriterionOf,
           WellTyped, AllEvaluate, Selected, RunsClean;
      shown := [];
      ghost var below := Contents(stack);
      Push(stack, LIST, ListCell(list));
      error := ProcessFilters(filters, list);
      if error == SUCCESS {
        var aborted, cell := Pop(stack, LIST);
        assert !aborted && cell == Some(ListCell(list)) && Contents(stack) == below;
        error, shown := Show(cell.value.list);
      }
    }

    method NewList() returns (list: Records)
      ensures list.Valid() && list.nodes == [] && fresh(list)
    {
      list := new ControlNode<Info>();
    }

    /** Print_Object_Info for every record of the list. */
    method Show(list: Records) returns (error: int, shown: seq<Info>)
      requires list.Valid()
      ensures error == SUCCESS && shown == Data(list.nodes)
    {
      error, shown := ForEachItem(list, Printer(), [], true);
      ItemsAre(list.nodes);
      Shown(list.nodes, Items(list.nodes), []);
    }
  }

  lemma AmountErrs(number: int, units: seq<Node>)
    requires IsUnits(units)
    ensures Amount(number, units).Err? ==> Amount(number, units).error == Reachability.CORRUPTED
  {
  }

  lemma CellsErr(n: Node)
    requires IsOperand(n)
    ensures match Cells(n)
            case Ok(cells) => |cells| <= 2
            case Err(code) => code != SUCCESS && code != SEARCH_COMPLETE
  {
  }

  lemma {:induction false} FirstErrorCounts(s: seq<Node>, i: nat)
    requires i <= |s| && (forall n :: n in s ==> IsOperand(n)) && AllCells(s[..i]).Err?
    ensures AllCells(s) == Err(AllCells(s[..i]).error)
    decreases |s|
  {
    if i == |s| {
      assert s[..i] == s;
    } else {
      var last := |s| - 1;
      assert s[..last][..i] == s[..i];
      FirstErrorCounts(s[..last], i);
    }
  }

  /** The cells that the operands of a size filter leave, from the bottom to the top. */
  lemma SizeCells(e: Engine, f: Node)
    requires WellFormed(e, f) && (f.kind == GreaterFilter || f.kind == LessFilter || f.kind == EqualFilter)
    requires forall n :: n in f.operands ==> IsOperand(n)
    requires AllCells(f.operands).Ok?
    ensures Amount(f.operands[0].number, f.operands[0].units).Ok?
    ensures |f.operands| == 2 ==> Amount(f.operands[1].number, f.operands[1].units).Ok?
    ensures AllCells(f.operands).value ==
            [(IntegerCell(Amount(f.operands[0].number, f.operands[0].units).value), INTEGER_VALUE)] +
            if |f.operands| == 1 then []
            else [(IntegerCell(Amount(f.operands[1].number, f.operands[1].units).value), INTEGER_VALUE),
                  (BooleanCell(f.operands[1].units == []), BOOLEAN_VALUE)]
  {
    var s := f.operands;
    AllCellsOne(s[0]);
    if |s| == 1 {
      assert s == [s[0]];
    } else {
      assert s[..1] == [s[0]] && s == [s[0], s[1]];
    }
  }

  lemma AllCellsOne(n: Node)
    requires IsOperand(n)
    ensures AllCells([n]) == Cells(n)
  {
    assert [n][..0] == [];
    assert Cells(n).Ok? ==> [] + Cells(n).value == Cells(n).value;
  }

  lemma OperandsOfFilter(e: Engine, f: Node)
    requires WellFormed(e, f)
    ensures 1 <= |f.operands| <= 2 && forall n :: n in f.operands ==> IsOperand(n)
  {
  }
}
