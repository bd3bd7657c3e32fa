/** What each filter keeps, said about the fields of the records and the chains of handles below them. */
module FilterMeaning {
  import opened DList
  import opened DListTraverse
  import opened Engine
  import opened Reachability
  import opened Filters

  // ----- chains of handles

  /** Every handle is a child of the storage record in front of it. */
  predicate StorageChain(e: Engine, p: seq<Handle>) {
    && p != []
    && forall k :: 0 <= k < |p| - 1 ==>
         p[k] in e.infos && e.infos[p[k]].Storage? && p[k + 1] in e.infos[p[k]].children
  }

  /** The same through objects and regions only. */
  predicate RegionChain(e: Engine, p: seq<Handle>) {
    StorageChain(e, p) && forall k :: 0 <= k < |p| - 1 ==> e.infos[p[k]].kind.EvmsObject? || e.infos[p[k]].kind.Region?
  }

  ghost predicate BuiltOn(e: Engine, h: Handle, target: Handle) {
    exists p: seq<Handle> :: StorageChain(e, p) && |p| > 1 && p[0] == h && p[|p| - 1] == target
  }

  ghost predicate RegionBelow(e: Engine, h: Handle, target: Handle) {
    exists p: seq<Handle> :: RegionChain(e, p) && |p| > 1 && p[0] == h && p[|p| - 1] == target
  }

  /** The record is the container, or the container produced it. */
  predicate OfContainer(i: Info, container: Handle) {
    (i.Container? && i.handle == container) || (i.Storage? && i.producingContainer == container)
  }

  ghost predicate ContainerBelow(e: Engine, h: Handle, container: Handle) {
    exists p: seq<Handle> ::
      StorageChain(e, p) && p[0] == h &&
      ((|p| > 1 && p[|p| - 1] == container) || (p[|p| - 1] in e.infos && OfContainer(e.infos[p[|p| - 1]], container)))
  }

  lemma DiskSpelled(e: Engine, target: Handle, h: Handle)
    ensures Reachable(e, ForDisk(target), h) <==> BuiltOn(e, h, target)
  {
    forall p: seq<Handle> | p != []
      ensures Finds(e, ForDisk(target), p) <==> StorageChain(e, p) && |p| > 1 && p[|p| - 1] == target
    {
    }
  }

  lemma RegionSpelled(e: Engine, target: Handle, h: Handle)
    ensures Reachable(e, ForRegion(target), h) <==> RegionBelow(e, h, target)
  {
    forall p: seq<Handle> | p != []
      ensures Finds(e, ForRegion(target), p) <==> RegionChain(e, p) && |p| > 1 && p[|p| - 1] == target
    {
    }
  }

  lemma ContainerSpelled(e: Engine, container: Handle, h: Handle)
    ensures Reachable(e, ForContainer(container), h) <==> ContainerBelow(e, h, container)
  {
    forall p: seq<Handle> | p != []
      ensures Finds(e, ForContainer(container), p) <==>
              StorageChain(e, p) &&
              ((|p| > 1 && p[|p| - 1] == container) || (p[|p| - 1] in e.infos && OfContainer(e.infos[p[|p| - 1]], container)))
    {
    }
  }

  // ----- the search for a segment

  /** Every handle is consumed by the container or is a child of the object in front of it. */
  predicate SegmentChain(e: Engine, p: seq<Handle>) {
    && p != []
    && forall k :: 0 <= k < |p| - 1 ==> p[k] in e.infos && LooksThrough(e.infos[p[k]]) && p[k + 1] in Below(e.infos[p[k]])
  }

  predicate LooksThrough(i: Info) { i.Container? || (i.Storage? && i.kind.EvmsObject?) }

  /** The chain ends at the segment, or at a region below which the search for regions finds it. */
  ghost predicate SegmentFound(e: Engine, p: seq<Handle>, target: Handle) {
    && SegmentChain(e, p)
    && var last := p[|p| - 1];
       || (|p| > 1 && last == target)
       || (last in e.infos && e.infos[last].Storage? && e.infos[last].kind.Region? && RegionBelow(e, last, target))
  }

  ghost predicate SegmentBelow(e: Engine, h: Handle, target: Handle) {
    exists p: seq<Handle> :: SegmentFound(e, p, target) && p[0] == h
  }

  lemma {:induction false} AmongDecides(e: Engine, s: Search, children: seq<Handle>)
    requires AmongChildren(e, s, children).error == SUCCESS
    ensures AmongChildren(e, s, children).missing <==>
            forall k :: 0 <= k < |children| ==> children[k] != s.target && !Reachable(e, s, children[k])
  {
    hide Check, Reachable;
    if children != [] && children[0] != s.target {
      CheckDecidesReachability(e, s, children[0]);
      if Check(e, s, children[0]).missing {
        MissingWithoutError(e, s, children[0]);
        AmongDecides(e, s, children[1..]);
        assert forall k :: 0 < k < |children| ==> children[k] == children[1..][k - 1];
      }
    }
  }

  lemma {:induction false} AmongMissing(e: Engine, s: Search, children: seq<Handle>)
    requires AmongChildren(e, s, children).missing
    ensures AmongChildren(e, s, children).error == SUCCESS
  {
    if children != [] && children[0] != s.target {
      AmongMissing(e, s, children[1..]);
    }
  }

  /** What a region is built on, as the search among its children finds it. */
  lemma RegionChildren(e: Engine, h: Handle, target: Handle)
    requires h in e.infos && e.infos[h].Storage? && e.infos[h].kind.Region?
    requires AmongChildren(e, ForRegion(target), e.infos[h].children).error == SUCCESS
    ensures AmongChildren(e, ForRegion(target), e.infos[h].children).missing <==> !RegionBelow(e, h, target)
  {
    hide Reachable, RegionBelow;
    AmongDecides(e, ForRegion(target), e.infos[h].children);
    RegionReachable(e, target, h);
    RegionSpelled(e, target, h);
    assert Below(e.infos[h]) == e.infos[h].children;
  }

  lemma {:induction false} SegmentMissing(e: Engine, h: Handle, target: Handle, p: seq<Handle>)
    requires CheckSegment(e, h, target).missing && p != [] && p[0] == h
    ensures CheckSegment(e, h, target).error == SUCCESS && !SegmentFound(e, p, target)
    decreases Height(e, h), 1, 0
  {
    hide RegionBelow;
    var i := e.infos[h];
    if LooksThrough(i) {
      SegmentMissingFrom(e, h, target, 0, p);
      assert Below(i)[0..] == Below(i);
      if |p| > 1 && p[1] != target && SegmentFound(e, p, target) {
        SegmentTail(e, p, target);
      }
    } else if i.Storage? && i.kind.Region? {
      AmongMissing(e, ForRegion(target), i.children);
      RegionChildren(e, h, target);
    }
  }

  lemma SegmentTail(e: Engine, p: seq<Handle>, target: Handle)
    requires SegmentFound(e, p, target) && |p| > 1 && p[1] != target
    ensures SegmentFound(e, p[1..], target)
  {
    hide RegionBelow;
    var q := p[1..];
    forall k | 0 <= k < |q| - 1
      ensures q[k] in e.infos && LooksThrough(e.infos[q[k]]) && q[k + 1] in Below(e.infos[q[k]])
    {
      assert q[k] == p[k + 1] && q[k + 1] == p[k + 2];
    }
  }

  /** From child number k on no child is the segment or leads to it. */
  lemma {:induction false} SegmentMissingFrom(e: Engine, h: Handle, target: Handle, k: nat, p: seq<Handle>)
    requires h in e.infos && LooksThrough(e.infos[h]) && k <= |Below(e.infos[h])|
    requires CheckSegmentFrom(e, h, target, k).missing && p != []
    ensures CheckSegmentFrom(e, h, target, k).error == SUCCESS
    ensures |p| > 1 && p[1] in Below(e.infos[h])[k..] ==> p[1] != target && !SegmentFound(e, p[1..], target)
    decreases Height(e, h), 0, |Below(e.infos[h])| - k
  {
    hide SegmentFound;
    var below := Below(e.infos[h]);
    if k < |below| {
      if |p| > 1 && p[1] == below[k] {
        SegmentMissing(e, below[k], target, p[1..]);
      }
      SegmentMissing(e, below[k], target, [below[k]]);
      SegmentMissingFrom(e, h, target, k + 1, p);
      assert below[k..] == [below[k]] + below[k + 1..];
    }
  }

  lemma {:induction false} SegmentWitness(e: Engine, h: Handle, target: Handle) returns (p: seq<Handle>)
    requires !CheckSegment(e, h, target).missing && CheckSegment(e, h, target).error == SUCCESS
    ensures SegmentFound(e, p, target) && p[0] == h
    decreases Height(e, h), 1, 0
  {
    hide RegionBelow;
    if LooksThrough(e.infos[h]) {
      p := SegmentWitnessFrom(e, h, target, 0);
    } else {
      RegionChildren(e, h, target);
      p := [h];
    }
  }

  lemma {:induction false} SegmentWitnessFrom(e: Engine, h: Handle, target: Handle, k: nat) returns (p: seq<Handle>)
    requires h in e.infos && LooksThrough(e.infos[h]) && k <= |Below(e.infos[h])|
    requires !CheckSegmentFrom(e, h, target, k).missing && CheckSegmentFrom(e, h, target, k).error == SUCCESS
    ensures SegmentFound(e, p, target) && p[0] == h
    decreases Height(e, h), 0, |Below(e.infos[h])| - k
  {
    hide RegionBelow;
    var below := Below(e.infos[h]);
    if below[k] == target {
      p := [h, target];
    } else if CheckSegment(e, below[k], target).missing {
      SegmentMissing(e, below[k], target, [below[k]]);
      p := SegmentWitnessFrom(e, h, target, k + 1);
    } else {
      var q := SegmentWitness(e, below[k], target);
      p := [h] + q;
      SegmentStep(e, h, q, target);
    }
  }

  lemma SegmentStep(e: Engine, h: Handle, q: seq<Handle>, target: Handle)
    requires h in e.infos && LooksThrough(e.infos[h]) && SegmentFound(e, q, target) && q[0] in Below(e.infos[h])
    ensures SegmentFound(e, [h] + q, target)
  {
    hide RegionBelow;
    var p := [h] + q;
    forall k | 0 <= k < |p| - 1
      ensures p[k] in e.infos && LooksThrough(e.infos[p[k]]) && p[k + 1] in Below(e.infos[p[k]])
    {
      if k > 0 {
        assert p[k] == q[k - 1] && p[k + 1] == q[k];
      }
    }
  }

  /** Without an error Check_Child_For_Segment finds exactly what the chains say. */
  lemma SegmentSearchDecides(e: Engine, h: Handle, target: Handle)
    requires CheckSegment(e, h, target).error == SUCCESS
    ensures CheckSegment(e, h, target).missing <==> !SegmentBelow(e, h, target)
  {
    hide CheckSegment, SegmentFound;
    if CheckSegment(e, h, target).missing {
      forall p: seq<Handle> | p != [] && p[0] == h
        ensures !SegmentFound(e, p, target)
      {
        SegmentMissing(e, h, target, p);
      }
      assert forall p: seq<Handle> :: SegmentFound(e, p, target) ==> p != [] by { FoundNonempty(e, target); }
    } else {
      var p := SegmentWitness(e, h, target);
    }
  }

  lemma FoundNonempty(e: Engine, target: Handle)
    ensures forall p: seq<Handle> :: SegmentFound(e, p, target) ==> p != []
  {
  }

  // ----- what the filters keep

  /** One of the handles is the target or is built on it. */
  ghost predicate SomeOn(e: Engine, handles: seq<Handle>, target: Handle) {
    exists k :: 0 <= k < |handles| && (handles[k] == target || BuiltOn(e, handles[k], target))
  }

  ghost predicate SomeRegionBelow(e: Engine, handles: seq<Handle>, target: Handle) {
    exists k :: 0 <= k < |handles| && RegionBelow(e, handles[k], target)
  }

  predicate ListsFeature(e: Engine, owner: Handle, plugin: Handle) {
    owner in e.features && plugin in e.features[owner]
  }

  predicate KeptByVolume(e: Engine, volume: Handle, i: Info) {
    || (i.Plugin? && ListsFeature(e, volume, i.handle))
    || (i.Volume? && i.handle == volume)
    || (i.Storage? && (i.kind.EvmsObject? || i.kind.Region?) && i.volume == volume)
  }

  predicate KeptByPlugin(e: Engine, plugin: Handle, i: Info) {
    || (i.Plugin? && i.handle == plugin)
    || (i.Volume? && ListsFeature(e, i.handle, plugin))
    || (i.Container? && i.plugin == plugin)
    || (i.Storage? && i.plugin == plugin)
  }

  /** Regions and segments are kept that the object is built on, and the object itself. */
  ghost predicate KeptByObject(e: Engine, o: Info, i: Info)
    requires o.Storage?
  {
    || (i.Plugin? && ListsFeature(e, o.handle, i.handle))
    || (i.Volume? && i.handle == o.volume)
    || i.Container?
    || (i.Storage? && i.handle == o.handle)
    || (i.Storage? && i.kind.Region? && RegionBelow(e, o.handle, i.handle))
    || (i.Storage? && i.kind.Segment? && SegmentBelow(e, o.handle, i.handle))
  }

  /** Objects and regions are kept that the container produced, segments and disks that it consumes. */
  ghost predicate KeptByContainer(e: Engine, c: Info, i: Info)
    requires c.Container?
  {
    || (i.Plugin? && i.handle == c.plugin)
    || (i.Volume? && ContainerBelow(e, i.obj, c.handle))
    || (i.Container? && i.handle == c.handle)
    || (i.Storage? && (i.kind.EvmsObject? || i.kind.Region?) && i.producingContainer == c.handle)
    || (i.Storage? && (i.kind.Segment? || i.kind.Disk?) && i.consumingContainer == c.handle)
  }

  /** Plugins, segments and disks are kept in any case. */
  ghost predicate KeptByRegion(e: Engine, r: Info, i: Info)
    requires r.Storage?
  {
    || i.Plugin?
    || (i.Volume? && (i.handle == r.volume || RegionBelow(e, i.obj, r.handle)))
    || (i.Container? && i.handle == r.producingContainer)
    || (i.Storage? && i.kind.EvmsObject? && (i.handle == r.handle || SomeRegionBelow(e, i.children, r.handle)))
    || (i.Storage? && i.kind.Region? && i.handle == r.handle)
    || (i.Storage? && (i.kind.Segment? || i.kind.Disk?))
  }

  /** Everything but segments and disks is kept in any case. */
  ghost predicate KeptByDisk(e: Engine, disk: Handle, i: Info) {
    i.Storage? ==>
      && (i.kind.Segment? ==> i.handle == disk || SomeOn(e, i.children, disk))
      && (i.kind.Disk? ==> i.handle == disk)
  }

  /** Everything but containers, segments and disks is kept in any case. */
  ghost predicate KeptBySegment(e: Engine, segment: Handle, i: Info) {
    && (i.Container? ==> segment in i.consumed)
    && (i.Storage? && i.kind.Segment? ==> i.handle == segment || SomeOn(e, i.children, segment))
    && (i.Storage? && i.kind.Disk? ==> segment in i.parents)
  }

  /** The plugins of one type; associative features count as features. */
  predicate KeptByType(mask: PluginType, i: Info) {
    i.Plugin? ==> i.pluginType == mask || (mask.Feature? && i.pluginType.AssociativeFeature?)
  }

  /** The size of a record that is no plugin, in bytes of a 64-bit number. */
  function SizeInBytes(i: Info): nat
    requires !i.Plugin?
  {
    i.size * 512 % 0x1_0000_0000_0000_0000
  }

  lemma SomeOnSpelled(e: Engine, target: Handle, children: seq<Handle>)
    requires AmongChildren(e, ForDisk(target), children).error == SUCCESS
    ensures AmongChildren(e, ForDisk(target), children).missing <==> !SomeOn(e, children, target)
  {
    hide Reachable, BuiltOn;
    AmongDecides(e, ForDisk(target), children);
    forall k | 0 <= k < |children|
      ensures Reachable(e, ForDisk(target), children[k]) <==> BuiltOn(e, children[k], target)
    {
      DiskSpelled(e, target, children[k]);
    }
  }

  lemma SomeRegionSpelled(e: Engine, target: Handle, children: seq<Handle>)
    requires UnderChildren(e, ForRegion(target), children).error == SUCCESS
    ensures UnderChildren(e, ForRegion(target), children).missing <==> !SomeRegionBelow(e, children, target)
  {
    hide Reachable, RegionBelow;
    UnderChildrenDecides(e, ForRegion(target), children);
    forall k | 0 <= k < |children|
      ensures Reachable(e, ForRegion(target), children[k]) <==> RegionBelow(e, children[k], target)
    {
      RegionSpelled(e, target, children[k]);
    }
  }

  lemma VolumeFilterKeeps(e: Engine, volume: Handle, i: Info)
    requires ScanForVolumes(e, volume, i).error == SUCCESS
    ensures ScanForVolumes(e, volume, i).kill <==> !KeptByVolume(e, volume, i)
  {
  }

  lemma PluginFilterKeeps(e: Engine, plugin: Handle, i: Info)
    requires ScanForPlugin(e, plugin, i).error == SUCCESS
    ensures ScanForPlugin(e, plugin, i).kill <==> !KeptByPlugin(e, plugin, i)
  {
  }

  lemma ObjectFilterKeeps(e: Engine, o: Info, i: Info)
    requires o.Storage? && ScanForObjects(e, o, i).error == SUCCESS
    ensures ScanForObjects(e, o, i).kill <==> !KeptByObject(e, o, i)
  {
    hide Check, CheckSegment, RegionBelow, SegmentBelow, Reachable;
    if i.Storage? && i.handle != o.handle && i.kind.Region? {
      CheckDecidesReachability(e, ForRegion(i.handle), o.handle);
      RegionSpelled(e, i.handle, o.handle);
    } else if i.Storage? && i.handle != o.handle && i.kind.Segment? {
      SegmentSearchDecides(e, o.handle, i.handle);
    }
  }

  /**
   * The container filter keeps a volume exactly when a chain of children from its object ends at the container or at a
   * storage record that the container produced.
   */
  lemma ContainerFilterKeeps(e: Engine, c: Info, i: Info)
    requires c.Container? && ScanForContainers(e, c, i).error == SUCCESS
    ensures ScanForContainers(e, c, i).kill <==> !KeptByContainer(e, c, i)
  {
    hide Check, ContainerBelow, Reachable;
    if i.Volume? {
      CheckDecidesReachability(e, ForContainer(c.handle), i.obj);
      ContainerSpelled(e, c.handle, i.obj);
    }
  }

  lemma RegionFilterKeepsAll(e: Engine, r: Info, i: Info)
    requires r.Storage? && ScanForRegions(e, r, i).error == SUCCESS
    ensures ScanForRegions(e, r, i).kill <==> !KeptByRegion(e, r, i)
  {
    hide Check, UnderChildren, RegionBelow, SomeRegionBelow, Reachable;
    if i.Volume? && i.handle != r.volume {
      CheckDecidesReachability(e, ForRegion(r.handle), i.obj);
      RegionSpelled(e, r.handle, i.obj);
    } else if i.Storage? && i.kind.EvmsObject? && i.handle != r.handle {
      SomeRegionSpelled(e, r.handle, i.children);
    }
  }

  lemma DiskFilterKeepsAll(e: Engine, disk: Handle, i: Info)
    requires ScanForDisks(e, disk, i).error == SUCCESS
    ensures ScanForDisks(e, disk, i).kill <==> !KeptByDisk(e, disk, i)
  {
    hide AmongChildren, SomeOn;
    if i.Storage? && i.kind.Segment? && i.handle != disk {
      SomeOnSpelled(e, disk, i.children);
    }
  }

  lemma SegmentFilterKeeps(e: Engine, segment: Handle, i: Info)
    requires ScanForSegments(e, segment, i).error == SUCCESS
    ensures ScanForSegments(e, segment, i).kill <==> !KeptBySegment(e, segment, i)
  {
    hide AmongChildren, SomeOn;
    if i.Storage? && i.kind.Segment? && i.handle != segment {
      SomeOnSpelled(e, segment, i.children);
    }
  }

  lemma TypeFilterKeeps(mask: PluginType, i: Info)
    ensures ScanForPlugins(mask, i) == Killed(!KeptByType(mask, i))
  {
  }

  lemma SizeFilterKeeps(comparison: SizeFilter, lower: nat, upper: nat, i: Info)
    ensures ScanForSize(comparison, lower, upper, i).error == SUCCESS
    ensures ScanForSize(comparison, lower, upper, i).kill <==>
            !i.Plugin? &&
            match comparison
            case GreaterThan => SizeInBytes(i) <= lower
            case LessThan => SizeInBytes(i) >= upper
            case EqualTo => SizeInBytes(i) < lower || SizeInBytes(i) > upper
  {
  }
}
