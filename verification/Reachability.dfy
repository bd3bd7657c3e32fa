/** Check_Child_For_Disk and its siblings: a search of all that a handle is built on, with an early exit. */
module Reachability {
  import opened DList
  import opened Engine

  const CORRUPTED: int := 201

  /** What is looked for: whether a record is a hit by itself, and whether what it is built on is searched. */
  datatype Search =
    | ForDisk(target: Handle)
    | ForRegion(target: Handle)
    | ForContainer(target: Handle)
  {
    predicate Hit(i: Info) {
      ForContainer? && match i
                       case Container(h, _, _, _) => h == target
                       case Storage(_, _, _, _, _, _, _, c, _) => c == target
                       case _ => false
    }

    predicate Expands(i: Info) {
      i.Storage? && (ForRegion? ==> i.kind == EvmsObject || i.kind == Region)
    }
  }

  /** Whether the search came back empty-handed, and its error code; an error ends the search with false. */
  datatype Finding = Finding(missing: bool, error: int)

  function Check(e: Engine, s: Search, h: Handle): Finding
    decreases Height(e, h), 1, 0
  {
    if h !in e.infos then Finding(false, CORRUPTED)
    else if s.Hit(e.infos[h]) then Finding(false, SUCCESS)
    else if s.Expands(e.infos[h]) then CheckFrom(e, s, h, 0, SUCCESS)
    else Finding(true, SUCCESS)
  }

  /** The loop over the children from number k on; the code is that of the previous lookup. */
  function CheckFrom(e: Engine, s: Search, h: Handle, k: nat, error: int): Finding
    requires h in e.infos && k <= |Below(e.infos[h])|
    decreases Height(e, h), 0, |Below(e.infos[h])| - k
  {
    var below := Below(e.infos[h]);
    if k == |below| then Finding(true, error)
    else if below[k] == s.target then Finding(false, error)
    else
      var v := Check(e, s, below[k]);
      if v.missing then CheckFrom(e, s, h, k + 1, v.error) else v
  }

  /** A path downwards through records that are searched. */
  predicate Descends(e: Engine, s: Search, p: seq<Handle>) {
    && p != []
    && forall k :: 0 <= k < |p| - 1 ==>
         p[k] in e.infos && s.Expands(e.infos[p[k]]) && p[k + 1] in Below(e.infos[p[k]])
  }

  /** The path ends at what is looked for: one or more steps down to the target, or at a record that is a hit. */
  predicate Finds(e: Engine, s: Search, p: seq<Handle>) {
    && Descends(e, s, p)
    && var last := p[|p| - 1];
       (|p| > 1 && last == s.target) || (last in e.infos && s.Hit(e.infos[last]))
  }

  ghost predicate Reachable(e: Engine, s: Search, h: Handle) {
    exists p: seq<Handle> :: Finds(e, s, p) && p[0] == h
  }

  /** Every record that the search may visit is known to the engine. */
  ghost predicate AllKnown(e: Engine, s: Search, h: Handle) {
    forall p: seq<Handle> :: Descends(e, s, p) && p[0] == h ==> p[|p| - 1] in e.infos
  }

  lemma StepDown(e: Engine, s: Search, h: Handle, p: seq<Handle>)
    requires h in e.infos && s.Expands(e.infos[h]) && Descends(e, s, p) && p[0] in Below(e.infos[h])
    ensures Descends(e, s, [h] + p)
    ensures Finds(e, s, p) ==> Finds(e, s, [h] + p)
  {
    var q := [h] + p;
    forall k | 0 <= k < |q| - 1
      ensures q[k] in e.infos && s.Expands(e.infos[q[k]]) && q[k + 1] in Below(e.infos[q[k]])
    {
      if k > 0 {
        assert q[k] == p[k - 1] && q[k + 1] == p[k];
      }
    }
  }

  lemma DownOne(e: Engine, s: Search, p: seq<Handle>)
    requires Descends(e, s, p) && |p| > 1
    ensures Descends(e, s, p[1..]) && p[1] in Below(e.infos[p[0]]) && p[1..][0] == p[1]
    ensures Finds(e, s, p) && !(|p| == 2 && p[1] == s.target) ==> Finds(e, s, p[1..])
  {
    var q := p[1..];
    forall k | 0 <= k < |q| - 1
      ensures q[k] in e.infos && s.Expands(e.infos[q[k]]) && q[k + 1] in Below(e.infos[q[k]])
    {
      assert q[k] == p[k + 1] && q[k + 1] == p[k + 2];
    }
  }

  /** A search that stops early has found a path, to what is looked for or to a record that is not known. */
  lemma {:induction false} Witness(e: Engine, s: Search, h: Handle) returns (p: seq<Handle>)
    requires !Check(e, s, h).missing
    ensures Descends(e, s, p) && p[0] == h
    ensures if Check(e, s, h).error == SUCCESS then Finds(e, s, p)
            else Check(e, s, h).error == CORRUPTED && p[|p| - 1] !in e.infos
    decreases Height(e, h), 1, 0
  {
    if h !in e.infos || s.Hit(e.infos[h]) {
      p := [h];
    } else {
      p := WitnessFrom(e, s, h, 0);
    }
  }

  lemma {:induction false} WitnessFrom(e: Engine, s: Search, h: Handle, k: nat) returns (p: seq<Handle>)
    requires h in e.infos && s.Expands(e.infos[h]) && k <= |Below(e.infos[h])|
    requires !CheckFrom(e, s, h, k, SUCCESS).missing
    ensures Descends(e, s, p) && p[0] == h
    ensures if CheckFrom(e, s, h, k, SUCCESS).error == SUCCESS then Finds(e, s, p)
            else CheckFrom(e, s, h, k, SUCCESS).error == CORRUPTED && p[|p| - 1] !in e.infos
    decreases Height(e, h), 0, |Below(e.infos[h])| - k
  {
    var below := Below(e.infos[h]);
    if below[k] == s.target {
      p := [h, below[k]];
    } else if Check(e, s, below[k]).missing {
      MissingWithoutError(e, s, below[k]);
      p := WitnessFrom(e, s, h, k + 1);
    } else {
      var q := Witness(e, s, below[k]);
      StepDown(e, s, h, q);
      p := [h] + q;
    }
  }

  lemma {:induction false} MissingWithoutError(e: Engine, s: Search, h: Handle)
    requires Check(e, s, h).missing
    ensures Check(e, s, h).error == SUCCESS
    decreases Height(e, h), 1, 0
  {
    if s.Expands(e.infos[h]) {
      AllMissing(e, s, h, 0);
    }
  }

  lemma {:induction false} AllMissing(e: Engine, s: Search, h: Handle, k: nat)
    requires h in e.infos && k <= |Below(e.infos[h])| && CheckFrom(e, s, h, k, SUCCESS).missing
    ensures CheckFrom(e, s, h, k, SUCCESS).error == SUCCESS
    ensures forall j :: k <= j < |Below(e.infos[h])| ==>
              Below(e.infos[h])[j] != s.target && Check(e, s, Below(e.infos[h])[j]).missing
    decreases Height(e, h), 0, |Below(e.infos[h])| - k
  {
    if k < |Below(e.infos[h])| {
      MissingWithoutError(e, s, Below(e.infos[h])[k]);
      AllMissing(e, s, h, k + 1);
    }
  }

  lemma {:induction false} NoPath(e: Engine, s: Search, h: Handle, p: seq<Handle>)
    requires Check(e, s, h).missing && p != [] && p[0] == h
    ensures !Finds(e, s, p)
    decreases |p|
  {
    if Finds(e, s, p) && |p| > 1 {
      AllMissing(e, s, h, 0);
      DownOne(e, s, p);
      NoPath(e, s, p[1], p[1..]);
    }
  }

  /**
   * The early-exit search decides reachability: without an error it comes back empty-handed if and only if no path leads
   * to what is looked for; and there is no error when every record on the way is known.
   */
  lemma CheckDecidesReachability(e: Engine, s: Search, h: Handle)
    ensures var v := Check(e, s, h);
            && (v.error == SUCCESS ==> (v.missing <==> !Reachable(e, s, h)))
            && (v.error != SUCCESS ==> v == Finding(false, CORRUPTED) && !AllKnown(e, s, h))
  {
    if Check(e, s, h).missing {
      MissingWithoutError(e, s, h);
      forall p: seq<Handle> | p != [] && p[0] == h
        ensures !Finds(e, s, p)
      {
        NoPath(e, s, h, p);
      }
    } else {
      var p := Witness(e, s, h);
    }
  }

  /** For the disk search: a path of one or more child edges that ends at the disk. */
  lemma DiskReachable(e: Engine, disk: Handle, h: Handle)
    ensures Reachable(e, ForDisk(disk), h) <==>
            exists p: seq<Handle> :: |p| > 1 && Descends(e, ForDisk(disk), p) && p[0] == h && p[|p| - 1] == disk
  {
    forall p: seq<Handle> | p != []
      ensures Finds(e, ForDisk(disk), p) <==> |p| > 1 && Descends(e, ForDisk(disk), p) && p[|p| - 1] == disk
    {
    }
  }

  // ----- the searches as they run

  method CheckChildForDisk(e: Engine, handle: Handle, disk: Handle) returns (missing: bool, error: int)
    ensures Finding(missing, error) == Check(e, ForDisk(disk), handle)
    decreases Height(e, handle)
  {
    if handle !in e.infos {
      return false, CORRUPTED;
    }
    var info := e.infos[handle];
    error := SUCCESS;
    if !info.Storage? || |info.children| == 0 {
      return true, SUCCESS;
    }
    missing := true;
    var i := 0;
    while i < |info.children| && missing
      invariant i <= |info.children|
      invariant if missing then CheckFrom(e, ForDisk(disk), handle, i, error) == Check(e, ForDisk(disk), handle)
                else Finding(false, error) == Check(e, ForDisk(disk), handle)
    {
      assert Below(info)[i] == info.children[i];
      if info.children[i] == disk {
        missing := false;
      } else {
        missing, error := CheckChildForDisk(e, info.children[i], disk);
      }
      i := i + 1;
    }
  }

  method CheckChildForRegion(e: Engine, handle: Handle, region: Handle) returns (missing: bool, error: int)
    ensures Finding(missing, error) == Check(e, ForRegion(region), handle)
    decreases Height(e, handle)
  {
    if handle !in e.infos {
      return false, CORRUPTED;
    }
    var info := e.infos[handle];
    error := SUCCESS;
    missing := true;
    if info.Storage? && (info.kind == EvmsObject || info.kind == Region) {
      var i := 0;
      while i < |info.children| && missing
        invariant i <= |info.children|
        invariant if missing then CheckFrom(e, ForRegion(region), handle, i, error) == Check(e, ForRegion(region), handle)
                  else Finding(false, error) == Check(e, ForRegion(region), handle)
      {
        assert Below(info)[i] == info.children[i];
        if info.children[i] == region {
          missing := false;
        } else {
          missing, error := CheckChildForRegion(e, info.children[i], region);
        }
        i := i + 1;
      }
    }
  }

  method CheckChildForContainer(e: Engine, handle: Handle, container: Handle) returns (missing: bool, error: int)
    ensures Finding(missing, error) == Check(e, ForContainer(container), handle)
    decreases Height(e, handle)
  {
    if handle !in e.infos {
      return false, CORRUPTED;
    }
    var info := e.infos[handle];
    error := SUCCESS;
    missing := true;
    match info
    case Container(h, _, _, _) =>
      missing := h != container;
    case Storage(_, _, _, _, _, children, _, producing, _) =>
      if producing == container {
        missing := false;
      } else {
        var i := 0;
        while i < |children| && missing
          invariant i <= |children|
          invariant if missing
                    then CheckFrom(e, ForContainer(container), handle, i, error) == Check(e, ForContainer(container), handle)
                    else Finding(false, error) == Check(e, ForContainer(container), handle)
        {
          assert Below(info)[i] == children[i];
          if children[i] == container {
            missing := false;
          } else {
            missing, error := CheckChildForContainer(e, children[i], container);
          }
          i := i + 1;
        }
      }
    case _ =>
  }
}
