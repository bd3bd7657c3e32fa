/** The Scan_For callbacks of the query filters: what each criterion makes of a record. */
module Filters {
  import opened DList
  import opened DListTraverse
  import opened Engine
  import opened Reachability

  /** The bytes of a sector, and the range of an unsigned 64-bit number. */
  const VSECTOR_SIZE: nat := 512
  const TWO_TO_64: nat := 0x1_0000_0000_0000_0000

  datatype SizeFilter = GreaterThan | LessThan | EqualTo

  /** A filter with its operands evaluated. */
  datatype Criterion =
    | ByVolume(volume: Handle)
    | ByPlugin(plugin: Handle)
    | ByObject(obj: Info)
    | ByContainer(container: Info)
    | ByRegion(region: Info)
    | ByDisk(disk: Handle)
    | BySegment(segment: Handle)
    | ByType(mask: PluginType)
    | BySize(comparison: SizeFilter, lower: nat, upper: nat)

  function Killed(kill: bool): Verdict<()> { Verdict(kill, (), SUCCESS) }

  function OfFinding(f: Finding): Verdict<()> { Verdict(f.missing, (), f.error) }

  /** Kill unless the handle is among the features that the engine lists for the owner. */
  function UnlessFeature(e: Engine, owner: Handle, h: Handle): Verdict<()> {
    if owner in e.features then Killed(h !in e.features[owner]) else Verdict(false, (), e.failure)
  }

  /** The loops over the children of a candidate: a child that is the target, or from which it is found. */
  function AmongChildren(e: Engine, s: Search, children: seq<Handle>): Finding
    decreases |children|
  {
    if children == [] then Finding(true, SUCCESS)
    else if children[0] == s.target then Finding(false, SUCCESS)
    else
      var f := Check(e, s, children[0]);
      if f.missing then AmongChildren(e, s, children[1..]) else f
  }

  /** The loop of the region filter, which does not compare the children themselves with the region. */
  function UnderChildren(e: Engine, s: Search, children: seq<Handle>): Finding
    decreases |children|
  {
    if children == [] then Finding(true, SUCCESS)
    else
      var f := Check(e, s, children[0]);
      if f.missing then UnderChildren(e, s, children[1..]) else f
  }

  /** Check_Child_For_Segment: a segment is never a hit by itself, because its case falls through to the default. */
  function CheckSegment(e: Engine, h: Handle, target: Handle): Finding
    decreases Height(e, h), 1, 0
  {
    if h !in e.infos then Finding(false, CORRUPTED)
    else
      match e.infos[h]
      case Container(_, _, _, _) => CheckSegmentFrom(e, h, target, 0)
      case Storage(kind, _, _, _, _, children, _, _, _) =>
        if kind == EvmsObject then CheckSegmentFrom(e, h, target, 0)
        else if kind == StorageKind.Region then AmongChildren(e, ForRegion(target), children)
        else Finding(true, SUCCESS)
      case _ => Finding(true, SUCCESS)
  }

  function CheckSegmentFrom(e: Engine, h: Handle, target: Handle, k: nat): Finding
    requires h in e.infos && k <= |Below(e.infos[h])|
    decreases Height(e, h), 0, |Below(e.infos[h])| - k
  {
    var below := Below(e.infos[h]);
    if k == |below| then Finding(true, SUCCESS)
    else if below[k] == target then Finding(false, SUCCESS)
    else
      var f := CheckSegment(e, below[k], target);
      if f.missing then CheckSegmentFrom(e, h, target, k + 1) else f
  }

  function ScanForVolumes(e: Engine, volume: Handle, i: Info): Verdict<()> {
    match i
    case Plugin(h, _) => UnlessFeature(e, volume, h)
    case Volume(h, _, _) => Killed(h != volume)
    case Container(_, _, _, _) => Killed(true)
    case Storage(kind, _, v, _, _, _, _, _, _) =>
      Killed(if kind == EvmsObject || kind == StorageKind.Region then v != volume else true)
  }

  function ScanForPlugin(e: Engine, plugin: Handle, i: Info): Verdict<()> {
    match i
    case Plugin(h, _) => Killed(h != plugin)
    case Volume(h, _, _) => UnlessFeature(e, h, plugin)
    case Container(_, p, _, _) => Killed(p != plugin)
    case Storage(_, _, _, p, _, _, _, _, _) => Killed(p != plugin)
  }

  function ScanForObjects(e: Engine, o: Info, i: Info): Verdict<()>
    requires o.Storage?
  {
    match i
    case Plugin(h, _) => UnlessFeature(e, o.handle, h)
    case Volume(h, _, _) => Killed(o.volume != h)
    case Container(_, _, _, _) => Killed(false)
    case Storage(kind, h, _, _, _, _, _, _, _) =>
      if h == o.handle then Killed(false)
      else if kind == StorageKind.Region then OfFinding(Check(e, ForRegion(h), o.handle))
      else if kind == Segment then OfFinding(CheckSegment(e, o.handle, h))
      else Killed(true)
  }

  function ScanForContainers(e: Engine, c: Info, i: Info): Verdict<()>
    requires c.Container?
  {
    match i
    case Plugin(h, _) => Killed(h != c.plugin)
    case Volume(_, obj, _) => OfFinding(Check(e, ForContainer(c.handle), obj))
    case Container(h, _, _, _) => Killed(h != c.handle)
    case Storage(kind, _, _, _, _, _, _, producing, consuming) =>
      Killed((if kind == EvmsObject || kind == StorageKind.Region then producing else consuming) != c.handle)
  }

  function ScanForRegions(e: Engine, r: Info, i: Info): Verdict<()>
    requires r.Storage?
  {
    match i
    case Volume(h, obj, _) => if h == r.volume then Killed(false) else OfFinding(Check(e, ForRegion(r.handle), obj))
    case Container(h, _, _, _) => Killed(r.producingContainer != h)
    case Storage(kind, h, _, _, _, children, _, _, _) =>
      if kind == EvmsObject then
        if h == r.handle then Killed(false) else OfFinding(UnderChildren(e, ForRegion(r.handle), children))
      else Killed(kind == StorageKind.Region && h != r.handle)
    case _ => Killed(false)
  }

  function ScanForDisks(e: Engine, disk: Handle, i: Info): Verdict<()> {
    if i.Storage? && i.kind == Segment then
      if i.handle == disk then Killed(false) else OfFinding(AmongChildren(e, ForDisk(disk), i.children))
    else Killed(i.Storage? && i.kind == Disk && i.handle != disk)
  }

  function ScanForSegments(e: Engine, segment: Handle, i: Info): Verdict<()> {
    match i
    case Container(_, _, _, consumed) => Killed(segment !in consumed)
    case Storage(kind, h, _, _, _, children, parents, _, _) =>
      if kind == Segment then
        if h == segment then Killed(false) else OfFinding(AmongChildren(e, ForDisk(segment), children))
      else Killed(kind == Disk && segment !in parents)
    case _ => Killed(false)
  }

  function ScanForPlugins(mask: PluginType, i: Info): Verdict<()> {
    Killed(i.Plugin? && i.pluginType != mask && !(mask == Feature && i.pluginType == AssociativeFeature))
  }

  /** The unsigned 64-bit number of bytes is compared with the limits. */
  function Accepts(comparison: SizeFilter, lower: nat, upper: nat, size: nat): bool {
    match comparison
    case GreaterThan => size > lower
    case LessThan => size < upper
    case EqualTo => lower <= size <= upper
  }

  function ScanForSize(comparison: SizeFilter, lower: nat, upper: nat, i: Info): Verdict<()> {
    Killed(!i.Plugin? && !Accepts(comparison, lower, upper, (i.size * VSECTOR_SIZE) % TWO_TO_64))
  }

  predicate WellTyped(c: Criterion) {
    (c.ByObject? ==> c.obj.Storage?) && (c.ByRegion? ==> c.region.Storage?) && (c.ByContainer? ==> c.container.Container?)
  }

  function Scan(e: Engine, c: Criterion, i: Info): Verdict<()>
    requires WellTyped(c)
  {
    match c
    case ByVolume(h) => ScanForVolumes(e, h, i)
    case ByPlugin(h) => ScanForPlugin(e, h, i)
    case ByObject(o) => ScanForObjects(e, o, i)
    case ByContainer(k) => ScanForContainers(e, k, i)
    case ByRegion(r) => ScanForRegions(e, r, i)
    case ByDisk(h) => ScanForDisks(e, h, i)
    case BySegment(h) => ScanForSegments(e, h, i)
    case ByType(mask) => ScanForPlugins(mask, i)
    case BySize(k, lower, upper) => ScanForSize(k, lower, upper, i)
  }

  // ----- what the disk filter keeps

  lemma {:induction false} AmongChildrenIsCheckFrom(e: Engine, s: Search, h: Handle, k: nat)
    requires h in e.infos && k <= |Below(e.infos[h])|
    ensures AmongChildren(e, s, Below(e.infos[h])[k..]) == CheckFrom(e, s, h, k, SUCCESS)
    decreases |Below(e.infos[h])| - k
  {
    var below := Below(e.infos[h]);
    if k < |below| {
      assert below[k..][1..] == below[k + 1..];
      AmongChildrenIsCheckFrom(e, s, h, k + 1);
      if Check(e, s, below[k]).missing {
        MissingWithoutError(e, s, below[k]);
      }
    }
  }

  /**
   * Without an engine error the disk filter keeps exactly the segments built on the disk, over any number of layers, and
   * of the disks only the disk itself.
   */
  lemma DiskFilterKeeps(e: Engine, disk: Handle, h: Handle)
    requires h in e.infos && e.infos[h].handle == h && ScanForDisks(e, disk, e.infos[h]).error == SUCCESS
    ensures var i := e.infos[h];
            ScanForDisks(e, disk, i).kill <==>
            if i.Storage? && i.kind == Segment then h != disk && !Reachable(e, ForDisk(disk), h)
            else i.Storage? && i.kind == Disk && h != disk
  {
    var i := e.infos[h];
    if i.Storage? && i.kind == Segment && h != disk {
      assert Below(i)[0..] == i.children;
      AmongChildrenIsCheckFrom(e, ForDisk(disk), h, 0);
      CheckDecidesReachability(e, ForDisk(disk), h);
    }
  }

  /** Without an engine error the container filter keeps exactly the volumes that the search below them finds it for. */
  lemma ContainerFilterOnVolumes(e: Engine, c: Info, i: Info)
    requires c.Container? && i.Volume? && ScanForContainers(e, c, i).error == SUCCESS
    ensures ScanForContainers(e, c, i).kill <==> !Reachable(e, ForContainer(c.handle), i.obj)
  {
    CheckDecidesReachability(e, ForContainer(c.handle), i.obj);
  }

  // ----- what the region filter keeps

  lemma {:induction false} UnderChildrenDecides(e: Engine, s: Search, children: seq<Handle>)
    requires UnderChildren(e, s, children).error == SUCCESS
    ensures UnderChildren(e, s, children).missing <==>
            forall k :: 0 <= k < |children| ==> !Reachable(e, s, children[k])
  {
    hide Check, Reachable;
    if children != [] {
      CheckDecidesReachability(e, s, children[0]);
      if Check(e, s, children[0]).missing {
        MissingWithoutError(e, s, children[0]);
        UnderChildrenDecides(e, s, children[1..]);
        assert forall k :: 0 < k < |children| ==> children[k] == children[1..][k - 1];
      }
    }
  }

  /**
   * Without an engine error the region filter kills an object exactly when it is not the wanted one and the region is
   * not found below any of its children. The children themselves are not compared with the region.
   */
  lemma RegionFilterKeeps(e: Engine, r: Info, i: Info)
    requires r.Storage? && i.Storage? && i.kind == EvmsObject && ScanForRegions(e, r, i).error == SUCCESS
    ensures ScanForRegions(e, r, i).kill <==>
            i.handle != r.handle && forall k :: 0 <= k < |i.children| ==> !Reachable(e, ForRegion(r.handle), i.children[k])
  {
    if i.handle != r.handle {
      UnderChildrenDecides(e, ForRegion(r.handle), i.children);
    }
  }

  /** A region is found below an object if it is one of its children or is found below one of them. */
  lemma RegionReachable(e: Engine, target: Handle, h: Handle)
    requires h in e.infos && ForRegion(target).Expands(e.infos[h])
    ensures Reachable(e, ForRegion(target), h) <==>
            exists k :: 0 <= k < |Below(e.infos[h])| &&
                        (Below(e.infos[h])[k] == target || Reachable(e, ForRegion(target), Below(e.infos[h])[k]))
  {
    var s, below := ForRegion(target), Below(e.infos[h]);
    if p: seq<Handle> :| Finds(e, s, p) && p[0] == h {
      DownOne(e, s, p);
      var k :| 0 <= k < |below| && below[k] == p[1];
      assert below[k] == target || Finds(e, s, p[1..]);
    }
    forall k | 0 <= k < |below|
      ensures below[k] == target || Reachable(e, s, below[k]) ==> Reachable(e, s, h)
    {
      if below[k] == target {
        assert Finds(e, s, [h, target]);
      } else if q: seq<Handle> :| Finds(e, s, q) && q[0] == below[k] {
        StepDown(e, s, h, q);
      }
    }
  }

  /**
   * The filter goes by what an object is built on except in one case: the region is a child of the object and is not
   * found below any child. An object built directly on the region is killed then.
   */
  lemma RegionFilterMissesDirectChild(e: Engine, r: Info, h: Handle)
    requires r.Storage? && h in e.infos && e.infos[h].handle == h && e.infos[h].Storage? && e.infos[h].kind == EvmsObject
    requires ScanForRegions(e, r, e.infos[h]).error == SUCCESS
    ensures var i, s := e.infos[h], ForRegion(r.handle);
            (ScanForRegions(e, r, i).kill <==> h != r.handle && !Reachable(e, s, h)) <==>
            !(h != r.handle && r.handle in i.children && forall k :: 0 <= k < |i.children| ==> !Reachable(e, s, i.children[k]))
  {
    hide Reachable, ScanForRegions;
    RegionFilterKeeps(e, r, e.infos[h]);
    RegionReachable(e, r.handle, h);
    var i, s := e.infos[h], ForRegion(r.handle);
    assert Below(i) == i.children;
    if k :| 0 <= k < |i.children| && (i.children[k] == r.handle || Reachable(e, s, i.children[k])) {
      assert Reachable(e, s, h);
    }
  }

  /** For example an object whose only child is the region. */
  lemma DirectChildIsKilled(e: Engine, r: Info, i: Info)
    requires r.Storage? && r.kind == StorageKind.Region && r.children == []
    requires r.handle in e.infos && e.infos[r.handle] == r
    requires i.Storage? && i.kind == EvmsObject && i.children == [r.handle] && i.handle != r.handle
    ensures ScanForRegions(e, r, i) == Killed(true)
  {
    assert i.children[1..] == [];
    assert Below(r) == [];
    assert Check(e, ForRegion(r.handle), r.handle) == CheckFrom(e, ForRegion(r.handle), r.handle, 0, SUCCESS);
    assert UnderChildren(e, ForRegion(r.handle), []) == Finding(true, SUCCESS);
  }

  /** The method form of the disk filter: the loop over the children of a segment. */
  method ScanForDisksLoop(e: Engine, disk: Handle, i: Info) returns (kill: bool, error: int)
    ensures Verdict(kill, (), error) == ScanForDisks(e, disk, i)
  {
    kill, error := false, SUCCESS;
    if i.Storage? && i.kind == Segment {
      if i.handle != disk {
        kill := true;
        var k := 0;
        while k < |i.children| && kill
          invariant k <= |i.children|
          invariant if kill
                    then error == SUCCESS &&
                         AmongChildren(e, ForDisk(disk), i.children[k..]) == AmongChildren(e, ForDisk(disk), i.children)
                    else Finding(false, error) == AmongChildren(e, ForDisk(disk), i.children)
        {
          assert i.children[k..][1..] == i.children[k + 1..];
          if i.children[k] == disk {
            kill := false;
          } else {
            if Check(e, ForDisk(disk), i.children[k]).missing {
              MissingWithoutError(e, ForDisk(disk), i.children[k]);
            }
            kill, error := CheckChildForDisk(e, i.children[k], disk);
          }
          k := k + 1;
        }
      }
    } else if i.Storage? && i.kind == Disk {
      kill := i.handle != disk;
    }
  }
}
