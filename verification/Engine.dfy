/** The storage engine as the interpreter sees it: handles, the records behind them, and lookups that can fail. */
module Engine {
  import opened DList

  type Handle = nat

  datatype StorageKind = EvmsObject | Region | Segment | Disk

  datatype PluginType = NoPlugin | Device | SegmentManager | RegionManager | Feature | AssociativeFeature | FileSystem

  /** The record of a handle; objects, regions, segments and disks share one layout. */
  datatype Info =
    | Plugin(handle: Handle, pluginType: PluginType)
    | Volume(handle: Handle, obj: Handle, size: nat)
    | Container(handle: Handle, plugin: Handle, size: nat, consumed: seq<Handle>)
    | Storage(kind: StorageKind, handle: Handle, volume: Handle, plugin: Handle, size: nat,
              children: seq<Handle>, parents: seq<Handle>, producingContainer: Handle, consumingContainer: Handle)

  /** What a record is built on. */
  function Below(i: Info): seq<Handle> {
    match i
    case Storage(_, _, _, _, _, children, _, _, _) => children
    case Container(_, _, _, consumed) => consumed
    case _ => []
  }

  /** Records, feature lists, the code of a failed lookup, and how high up each handle is in the stack of layers. */
  datatype State = State(infos: map<Handle, Info>, features: map<Handle, seq<Handle>>, failure: int,
                         height: map<Handle, nat>)

  predicate Layered(e: State) {
    && e.failure != SUCCESS
    && forall h, k :: h in e.infos && 0 <= k < |Below(e.infos[h])| ==>
         Height(e, Below(e.infos[h])[k]) < Height(e, h)
  }

  function Height(e: State, h: Handle): nat { if h in e.height then e.height[h] else 0 }

  /** An engine in which nothing is built on itself, not even by way of others. */
  type Engine = e: State | Layered(e) witness State(map[], map[], 1, map[])
}
