/** Packing objects into a buffer and unpacking them, step by step, and the tables they are kept in. */
module CodecBuffers {
  import opened Codec

  const NET_BUFFER_LEN: nat := 64 * 1024 - 1

  function Positive(n: int): nat { if n > 0 then n else 0 }

  /** The bounded tables of an object's operations, tasks and features; a count from the wire can be below 0. */
  class AdvanceInfo {
    const operations: array<Entry>
    const tasks: array<Entry>
    const features: array<Bytes>
    var operationNum: int
    var taskNum: int
    var featureNum: int

    ghost predicate Valid()
      reads this
    {
      && operations.Length == MAX_OPERATION_NUM && tasks.Length == MAX_TASK_NUM && features.Length == MAX_FEATURE_NUM
      && operationNum <= MAX_OPERATION_NUM && taskNum <= MAX_TASK_NUM && featureNum <= MAX_FEATURE_NUM
      && operations != tasks
    }

    ghost function Value(): Advance
      requires Valid()
      reads this, operations, tasks, features
    {
      Advance(operations[..Positive(operationNum)], tasks[..Positive(taskNum)], features[..Positive(featureNum)])
    }

    constructor ()
      ensures Valid() && Value() == Advance([], [], [])
      ensures fresh(operations) && fresh(tasks) && fresh(features)
    {
      operations := new Entry[MAX_OPERATION_NUM](i => Entry([], []));
      tasks := new Entry[MAX_TASK_NUM](i => Entry([], []));
      features := new Bytes[MAX_FEATURE_NUM](i => []);
      operationNum, taskNum, featureNum := 0, 0, 0;
    }

    /** MY_ADD_OPERATION; the options of the new operation are what the fresh memory holds. */
    method AddOperation(opType: int, options: seq<Bytes>) returns (r: int)
      requires Valid() && operationNum >= 0
      modifies this`operationNum, operations
      ensures Valid() && operationNum >= 0
      ensures r == if |options| > 32 then -1 else if old(operationNum) >= 32 then -2 else old(operationNum)
      ensures r < 0 ==> Value() == old(Value())
      ensures r >= 0 ==>
                Value() == old(Value()).(operations := old(Value()).operations + [Entry(EncodeInt(opType), options)])
    {
      if |options| > MAX_OPERATION_NUM {
        return -1;
      }
      if operationNum >= MAX_OPERATION_NUM {
        return -2;
      }
      operations[operationNum] := Entry(EncodeInt(opType), options);
      operationNum := operationNum + 1;
      return operationNum - 1;
    }

    /** MY_ADD_OPTION_DESCRIPTORS, for the operation at a position: the first descriptors replace the first options. */
    method AddOptionDescriptors(position: nat, descriptors: seq<Bytes>)
      requires Valid() && position < operationNum && operations[position].Entry?
      requires |descriptors| <= |operations[position].options|
      modifies operations
      ensures var e := old(operations[position]);
              Value() == old(Value()).(operations := old(Value()).operations[position :=
                           e.(options := descriptors + e.options[|descriptors|..])])
    {
      var e := operations[position];
      var i := 0;
      while i < |descriptors|
        invariant i <= |descriptors|
        invariant operations[position] == e.(options := descriptors[..i] + e.options[i..])
        invariant forall k :: 0 <= k < operations.Length && k != position ==> operations[k] == old(operations[k])
      {
        var options := operations[position].options;
        ReplacedOne(descriptors, e.options, i);
        operations[position] := operations[position].(options := options[i := descriptors[i]]);
        i := i + 1;
      }
      assert descriptors[..i] == descriptors;
      assert operations[..operationNum] == old(operations[..operationNum])[position := operations[position]];
    }

    method AddTask(task: Entry) returns (r: int)
      requires Valid() && taskNum >= 0
      modifies this`taskNum, tasks
      ensures Valid() && taskNum >= 0
      ensures r == if old(taskNum) >= 32 then -2 else old(taskNum)
      ensures r < 0 ==> Value() == old(Value())
      ensures r >= 0 ==> Value() == old(Value()).(tasks := old(Value()).tasks + [task])
    {
      if taskNum >= MAX_TASK_NUM {
        return -2;
      }
      tasks[taskNum] := task;
      taskNum := taskNum + 1;
      return taskNum - 1;
    }

    /** MY_ADD_FEATURE: the name, cut off if it is too long, in front of what the fresh memory holds. */
    method AddFeature(name: Bytes, memory: Bytes) returns (r: int)
      requires Valid() && featureNum >= 0 && |memory| > 0
      modifies this`featureNum, features
      ensures Valid() && featureNum >= 0
      ensures r == if old(featureNum) >= 5 then -2 else old(featureNum)
      ensures r < 0 ==> Value() == old(Value())
      ensures r >= 0 ==>
                var n := if |name| > |memory| - 1 then |memory| - 1 else |name|;
                Value() == old(Value()).(features := old(Value()).features + [name[..n] + memory[n..]])
    {
      if featureNum >= MAX_FEATURE_NUM {
        return -2;
      }
      var n := if |name| > |memory| - 1 then |memory| - 1 else |name|;
      features[featureNum] := name[..n] + memory[n..];
      featureNum := featureNum + 1;
      return featureNum - 1;
    }
  }

  /** Tables filled by the methods above fit the layout as long as the records do. */
  lemma FilledFits(l: Layout, a: Advance, opType: int, options: seq<Bytes>, task: Entry, feature: Bytes)
    requires AdvanceFits(l, a)
    ensures |a.operations| < MAX_OPERATION_NUM && |options| <= MAX_OPERATION_NUM && AllOfSize(options, l.option) ==>
              AdvanceFits(l, a.(operations := a.operations + [Entry(EncodeInt(opType), options)]))
    ensures |a.tasks| < MAX_TASK_NUM && EntryFits(l, l.task, task) ==> AdvanceFits(l, a.(tasks := a.tasks + [task]))
    ensures |a.features| < MAX_FEATURE_NUM && |feature| == l.feature ==>
              AdvanceFits(l, a.(features := a.features + [feature]))
  {
  }

  lemma ReplacedOne(s: seq<Bytes>, t: seq<Bytes>, i: nat)
    requires i < |s| <= |t|
    ensures (s[..i] + t[i..])[i := s[i]] == s[..i + 1] + t[i + 1..]
  {
  }

  // ----- packing

  /**
   * 0, -1 for a refusal, an access out of bounds, whose effect the language leaves open, or the end of the program
   * because memory cannot be had.
   */
  datatype Status = Done | Rejected | OutOfBounds | Aborted

  /** memcpy */
  method Copy(buffer: array<Byte>, at: nat, s: Bytes)
    requires at + |s| <= buffer.Length
    modifies buffer
    ensures Wrote(old(buffer[..]), buffer[..], at, s)
  {
    forall k | 0 <= k < |s| {
      buffer[at + k] := s[k];
    }
    assert buffer[..][at..at + |s|] == s;
  }

  /** The bytes outside the stretch that may be written are as they were. */
  ghost predicate OnlyWithin(before: Bytes, after: Bytes, at: int, end: int) {
    && |before| == |after|
    && forall k :: 0 <= k < |after| && !(at <= k < end) ==> after[k] == before[k]
  }

  /** These bytes were written at a position, and nothing else. */
  ghost predicate Wrote(before: Bytes, after: Bytes, at: nat, s: Bytes) {
    && OnlyWithin(before, after, at, at + |s|)
    && at + |s| <= |after| && after[at..at + |s|] == s
  }

  /** What a method that packs does to the buffer, of which left bytes are its own. */
  ghost predicate Written(p: Put, before: Bytes, after: Bytes, at: nat, left: int) {
    if p.Put? then Wrote(before, after, at, p.bytes) else OnlyWithin(before, after, at, at + left)
  }

  lemma NothingWritten(s: Bytes, at: nat, left: int)
    requires at <= |s|
    ensures Wrote(s, s, at, []) && OnlyWithin(s, s, at, at + left)
  {
  }

  /** Two stretches written one after the other. */
  lemma WroteBoth(s0: Bytes, s1: Bytes, s2: Bytes, at: nat, p: Bytes, q: Bytes)
    requires Wrote(s0, s1, at, p) && Wrote(s1, s2, at + |p|, q)
    ensures Wrote(s0, s2, at, p + q)
  {
    assert s2[at..at + |p|] == s1[at..at + |p|];
    assert s2[at..at + |p + q|] == s2[at..at + |p|] + s2[at + |p|..at + |p| + |q|];
  }

  lemma WroteWithin(s0: Bytes, s1: Bytes, s2: Bytes, at: nat, p: Bytes, end: int)
    requires Wrote(s0, s1, at, p) && OnlyWithin(s1, s2, at + |p|, end) && at + |p| <= end
    ensures OnlyWithin(s0, s2, at, end)
  {
  }

  /** One stretch was written, and behind it what a further method does. */
  lemma WrittenBehind(s0: Bytes, s1: Bytes, s2: Bytes, at: nat, done: Bytes, p: Put, left: int)
    requires Wrote(s0, s1, at, done) && Written(p, s1, s2, at + |done|, left - |done|) && |done| <= left
    ensures Written(Behind(done, p), s0, s2, at, left)
  {
    if p.Put? {
      WroteBoth(s0, s1, s2, at, done, p.bytes);
    } else {
      WroteWithin(s0, s1, s2, at, done, at + left);
    }
  }

  /** What writing comes to: the bytes written, too little room, or a copy of a length below 0. */
  datatype Put = Put(bytes: Bytes) | NoRoom | Overrun

  function StatusOfPut(p: Put): Status {
    if p.Put? then Done else if p.NoRoom? then Rejected else OutOfBounds
  }

  function Behind(done: Bytes, p: Put): Put {
    if p.Put? then Put(done + p.bytes) else p
  }

  /** The length of the options is a 32-bit number, and no more than that is checked and copied. */
  function PutEntry(l: Layout, head: nat, e: Entry, left: int): (p: Put)
    requires EntryFits(l, head, e)
    ensures p.Put? ==> |p.bytes| <= left
  {
    ConcatSize(e.options, l.option);
    var need := ToInt(|e.options| * l.option);
    if left < head + INT_SIZE || left - (head + INT_SIZE) < need then NoRoom
    else if need < 0 then Overrun
    else Put(e.head + EncodeInt(|e.options|) + Concat(e.options)[..need])
  }

  /** What one would expect: the encoding is written if and only if it fits. */
  function Ideal(code: Bytes, left: int): Put {
    if |code| <= left then Put(code) else NoRoom
  }

  lemma PutEntryFits(l: Layout, head: nat, e: Entry, left: int)
    requires EntryFits(l, head, e) && |Concat(e.options)| < 0x8000_0000
    ensures PutEntry(l, head, e, left) == Ideal(EncodeEntry(e), left)
  {
    ConcatSize(e.options, l.option);
    Regrouped(e.head, EncodeInt(|e.options|), Concat(e.options));
    assert Concat(e.options)[..|Concat(e.options)|] == Concat(e.options);
  }

  /** That is so for every length if and only if the options do not wrap around, or no length lets the entry through. */
  lemma PutEntryExact(l: Layout, head: nat, e: Entry)
    requires EntryFits(l, head, e)
    ensures (forall left | IsInt(left) :: PutEntry(l, head, e, left) == Ideal(EncodeEntry(e), left)) <==>
            || |Concat(e.options)| < 0x8000_0000
            || !IsInt(head + INT_SIZE) || head + INT_SIZE + ToInt(|Concat(e.options)|) >= 0x8000_0000
  {
    ConcatSize(e.options, l.option);
    if |Concat(e.options)| < 0x8000_0000 {
      forall left | IsInt(left)
        ensures PutEntry(l, head, e, left) == Ideal(EncodeEntry(e), left)
      {
        PutEntryFits(l, head, e, left);
      }
    } else {
      assert |EncodeEntry(e)| >= 0x8000_0000;
      if head + INT_SIZE + ToInt(|Concat(e.options)|) < 0x8000_0000 && head + INT_SIZE < 0x8000_0000 {
        assert PutEntry(l, head, e, 0x7FFF_FFFF) != Ideal(EncodeEntry(e), 0x7FFF_FFFF);
      }
    }
  }

  method PackEntry(l: Layout, head: nat, e: Entry, buffer: array<Byte>, at: nat, left: nat)
    returns (status: Status, used: nat)
    requires EntryFits(l, head, e) && at + left <= buffer.Length
    modifies buffer
    ensures var p := PutEntry(l, head, e, left);
            && status == StatusOfPut(p) && (p.Put? ==> used == |p.bytes|)
            && Written(p, old(buffer[..]), buffer[..], at, left)
  {
    hide Wrote, OnlyWithin, ToInt;
    ConcatSize(e.options, l.option);
    used := 0;
    ghost var s0, first := buffer[..], e.head + EncodeInt(|e.options|);
    NothingWritten(s0, at, left);
    if left < head + INT_SIZE {
      return Rejected, used;
    }
    Copy(buffer, at, e.head + EncodeInt(|e.options|));
    used := head + INT_SIZE;
    ghost var s1 := buffer[..];
    NothingWritten(s1, at + used, left - used);
    var need := ToInt(|e.options| * l.option);
    if left - used < need {
      WroteWithin(s0, s1, s1, at, first, at + left);
      return Rejected, used;
    }
    if need < 0 {
      WroteWithin(s0, s1, s1, at, first, at + left);
      return OutOfBounds, used;
    }
    Copy(buffer, at + used, Concat(e.options)[..need]);
    WroteBoth(s0, s1, buffer[..], at, first, Concat(e.options)[..need]);
    used := used + need;
    status := Done;
  }

  function PutEntries(l: Layout, head: nat, es: seq<Entry>, left: int): (p: Put)
    requires EntriesFit(l, head, es) && left >= 0
    ensures p.Put? ==> |p.bytes| <= left
  {
    if es == [] then Put([])
    else
      var p := PutEntry(l, head, es[0], left);
      if p.Put? then Behind(p.bytes, PutEntries(l, head, es[1..], left - |p.bytes|)) else p
  }

  predicate SmallEntries(es: seq<Entry>) {
    forall k :: 0 <= k < |es| && es[k].Entry? ==> |Concat(es[k].options)| < 0x8000_0000
  }

  /** As long as the options of no entry wrap around, all entries are written if and only if they fit. */
  lemma {:induction false} PutEntriesFit(l: Layout, head: nat, es: seq<Entry>, left: int)
    requires EntriesFit(l, head, es) && SmallEntries(es) && left >= 0
    ensures PutEntries(l, head, es, left) == Ideal(EncodeEntries(es), left)
  {
    hide EncodeEntry, PutEntry, Concat;
    if es != [] {
      PutEntryFits(l, head, es[0], left);
      if |EncodeEntry(es[0])| <= left {
        PutEntriesFit(l, head, es[1..], left - |EncodeEntry(es[0])|);
      }
    }
  }

  lemma BehindBehind(a: Bytes, b: Bytes, p: Put)
    ensures Behind(a, Behind(b, p)) == Behind(a + b, p)
  {
    if p.Put? {
      assert a + (b + p.bytes) == a + b + p.bytes;
    }
  }

  /** The loop over the first num entries of a table. */
  method PackEntries(l: Layout, head: nat, table: array<Entry>, num: int, buffer: array<Byte>, at: nat, left: nat)
    returns (status: Status, used: nat)
    requires num <= table.Length && EntriesFit(l, head, table[..Positive(num)]) && at + left <= buffer.Length
    modifies buffer
    ensures var p := PutEntries(l, head, table[..Positive(num)], left);
            && status == StatusOfPut(p) && (p.Put? ==> used == |p.bytes|)
            && Written(p, old(buffer[..]), buffer[..], at, left)
  {
    hide EncodeEntry, PutEntry, EntryFits, Wrote, OnlyWithin;
    ghost var es, done: Bytes, s0 := table[..Positive(num)], [], buffer[..];
    ghost var goal := PutEntries(l, head, es, left);
    used := 0;
    var i := 0;
    NothingWritten(s0, at, left);
    assert es[0..] == es && Behind([], goal) == goal;
    while i < num
      invariant 0 <= i <= Positive(num) && es == table[..Positive(num)]
      invariant used == |done| <= left && Wrote(s0, buffer[..], at, done)
      invariant goal == Behind(done, PutEntries(l, head, es[i..], left - used))
    {
      var more;
      assert EntryFits(l, head, es[i]) && es[i..][0] == es[i] && es[i..][1..] == es[i + 1..];
      ghost var s1, p := buffer[..], PutEntry(l, head, es[i], left - used);
      status, more := PackEntry(l, head, table[i], buffer, at + used, left - used);
      WrittenBehind(s0, s1, buffer[..], at, done, p, left);
      if status != Done {
        return;
      }
      BehindBehind(done, p.bytes, PutEntries(l, head, es[i + 1..], left - used - more));
      done := done + p.bytes;
      used := used + more;
      i := i + 1;
    }
    assert es[i..] == [] && done + [] == done;
    status := Done;
  }

  lemma {:induction false} ConcatMore(blocks: seq<Bytes>, i: nat)
    requires i < |blocks|
    ensures Concat(blocks[..i + 1]) == Concat(blocks[..i]) + blocks[i]
  {
    if i == 0 {
      assert blocks[..1] == [blocks[0]] && blocks[..0] == [];
    } else {
      ConcatMore(blocks[1..], i - 1);
      assert blocks[..i + 1][1..] == blocks[1..][..i] && blocks[..i][1..] == blocks[1..][..i - 1];
    }
  }

  /** The first blocks are no longer than all. */
  lemma {:induction false} ConcatPrefix(blocks: seq<Bytes>, i: nat)
    requires i <= |blocks|
    ensures |Concat(blocks[..i])| <= |Concat(blocks)|
    decreases |blocks| - i
  {
    if i < |blocks| {
      ConcatMore(blocks, i);
      ConcatPrefix(blocks, i + 1);
    } else {
      assert blocks[..i] == blocks;
    }
  }

  method PackFeatures(l: Layout, table: array<Bytes>, num: int, buffer: array<Byte>, at: nat, left: nat)
    returns (status: Status, used: nat)
    requires num <= table.Length && AllOfSize(table[..Positive(num)], l.feature) && at + left <= buffer.Length
    modifies buffer
    ensures var p := Ideal(Concat(table[..Positive(num)]), left);
            && status == StatusOfPut(p) && (p.Put? ==> used == |p.bytes|)
            && Written(p, old(buffer[..]), buffer[..], at, left)
  {
    hide Concat, Wrote, OnlyWithin;
    ghost var fs, s0 := table[..Positive(num)], buffer[..];
    NoBlocks();
    NothingWritten(s0, at, left);
    used := 0;
    var i := 0;
    assert fs[..0] == [];
    while i < num
      invariant 0 <= i <= Positive(num) && fs == table[..Positive(num)]
      invariant used == |Concat(fs[..i])| <= left && Wrote(s0, buffer[..], at, Concat(fs[..i]))
    {
      ConcatMore(fs, i);
      assert |fs[i]| == l.feature;
      ghost var s1 := buffer[..];
      if left - used < l.feature {
        ConcatPrefix(fs, i + 1);
        NothingWritten(s1, at + used, left - used);
        WroteWithin(s0, s1, s1, at, Concat(fs[..i]), at + left);
        return Rejected, used;
      }
      Copy(buffer, at + used, table[i]);
      WroteBoth(s0, s1, buffer[..], at, Concat(fs[..i]), fs[i]);
      used := used + l.feature;
      i := i + 1;
    }
    assert fs[..|fs|] == fs;
    status := Done;
  }

  lemma NoBlocks()
    ensures Concat([]) == []
  {
  }

  function PutTail(l: Layout, a: Advance, left: int): (p: Put)
    requires AdvanceFits(l, a) && left >= 0
    ensures p.Put? ==> |p.bytes| <= left
  {
    var p := PutEntries(l, l.task, a.tasks, left);
    if p.Put? then Behind(p.bytes, Ideal(Concat(a.features), left - |p.bytes|)) else p
  }

  function PutTables(l: Layout, a: Advance, left: int): (p: Put)
    requires AdvanceFits(l, a) && left >= 0
    ensures p.Put? ==> |p.bytes| <= left
  {
    var p := PutEntries(l, INT_SIZE, a.operations, left);
    if p.Put? then Behind(p.bytes, PutTail(l, a, left - |p.bytes|)) else p
  }

  /** What MY_PACK_ADVANCE_INFO writes. */
  function PutAdvance(l: Layout, a: Advance, len: int): (p: Put)
    requires AdvanceFits(l, a)
    ensures p.Put? ==> |p.bytes| <= len
  {
    if len < 3 * INT_SIZE then NoRoom else Behind(EncodeCounts(a), PutTables(l, a, len - 3 * INT_SIZE))
  }

  predicate SmallAdvance(a: Advance) { SmallEntries(a.operations) && SmallEntries(a.tasks) }

  /** As long as the options of no entry wrap around, an advance record is written if and only if it fits. */
  lemma PutAdvanceFits(l: Layout, a: Advance, len: int)
    requires AdvanceFits(l, a) && SmallAdvance(a)
    ensures PutAdvance(l, a, len) == Ideal(EncodeAdvance(a), len)
  {
    hide EncodeEntries, PutEntries, Concat, EncodeCounts, EntryFits, SmallEntries, AllOfSize;
    if len >= 3 * INT_SIZE {
      var left, ops, tasks := len - 3 * INT_SIZE, EncodeEntries(a.operations), EncodeEntries(a.tasks);
      PutEntriesFit(l, INT_SIZE, a.operations, left);
      if |ops| <= left {
        PutEntriesFit(l, l.task, a.tasks, left - |ops|);
      }
    }
  }

  /** The tasks and then the features. */
  method PackTail(l: Layout, info: AdvanceInfo, buffer: array<Byte>, at: nat, left: nat) returns (status: Status, used: nat)
    requires info.Valid() && AdvanceFits(l, info.Value()) && at + left <= buffer.Length
    modifies buffer
    ensures var p := PutTail(l, info.Value(), left);
            && status == StatusOfPut(p) && (p.Put? ==> used == |p.bytes|)
            && Written(p, old(buffer[..]), buffer[..], at, left)
  {
    hide PutEntries, Concat, EntryFits, Wrote, OnlyWithin, AllOfSize;
    ghost var a, s0 := info.Value(), buffer[..];
    ghost var p := PutEntries(l, l.task, a.tasks, left);
    status, used := PackEntries(l, l.task, info.tasks, info.taskNum, buffer, at, left);
    if status == Done {
      var v;
      ghost var s1 := buffer[..];
      status, v := PackFeatures(l, info.features, info.featureNum, buffer, at + used, left - used);
      WrittenBehind(s0, s1, buffer[..], at, p.bytes, Ideal(Concat(a.features), left - used), left);
      used := used + v;
    }
  }

  /** The operations and then the rest. */
  method PackTables(l: Layout, info: AdvanceInfo, buffer: array<Byte>, at: nat, left: nat) returns (status: Status, used: nat)
    requires info.Valid() && AdvanceFits(l, info.Value()) && at + left <= buffer.Length
    modifies buffer
    ensures var p := PutTables(l, info.Value(), left);
            && status == StatusOfPut(p) && (p.Put? ==> used == |p.bytes|)
            && Written(p, old(buffer[..]), buffer[..], at, left)
  {
    hide PutEntries, Concat, EntryFits, PutTail, Wrote, OnlyWithin, AllOfSize;
    ghost var a, s0 := info.Value(), buffer[..];
    ghost var p := PutEntries(l, INT_SIZE, a.operations, left);
    status, used := PackEntries(l, INT_SIZE, info.operations, info.operationNum, buffer, at, left);
    if status == Done {
      var v;
      ghost var s1 := buffer[..];
      status, v := PackTail(l, info, buffer, at + used, left - used);
      WrittenBehind(s0, s1, buffer[..], at, p.bytes, PutTail(l, a, left - used), left);
      used := used + v;
    }
  }

  /** MY_PACK_ADVANCE_INFO: nothing outside of what it reports is touched when it succeeds. */
  method PackAdvance(l: Layout, info: AdvanceInfo, buffer: array<Byte>, at: nat, len: int)
    returns (status: Status, used: nat)
    requires info.Valid() && AdvanceFits(l, info.Value()) && at <= buffer.Length && at + len <= buffer.Length
    requires info.operationNum >= 0 && info.taskNum >= 0 && info.featureNum >= 0
    modifies buffer
    ensures var p := PutAdvance(l, info.Value(), len);
            && status == StatusOfPut(p) && (p.Put? ==> used == |p.bytes|)
            && Written(p, old(buffer[..]), buffer[..], at, len)
  {
    hide PutTables, EntryFits, AllOfSize, Wrote, OnlyWithin;
    ghost var a, s0 := info.Value(), buffer[..];
    NothingWritten(s0, at, len);
    used := 0;
    if len < 3 * INT_SIZE {
      return Rejected, 0;
    }
    var counts := EncodeInt(info.operationNum) + (EncodeInt(info.taskNum) + EncodeInt(info.featureNum));
    CountsAre(a, counts);
    Copy(buffer, at, counts);
    ghost var s1 := buffer[..];
    var v;
    status, v := PackTables(l, info, buffer, at + 3 * INT_SIZE, len - 3 * INT_SIZE);
    WrittenBehind(s0, s1, buffer[..], at, counts, PutTables(l, a, len - 3 * INT_SIZE), len);
    used := 3 * INT_SIZE + v;
  }

  lemma CountsAre(a: Advance, counts: Bytes)
    requires counts == EncodeInt(|a.operations|) + (EncodeInt(|a.tasks|) + EncodeInt(|a.features|))
    ensures EncodeCounts(a) == counts
  {
  }

  /** MY_PACK_BASIC_INFO: the type is written before the length is looked at. */
  method PackBasic(l: Layout, b: Basic, buffer: array<Byte>, at: nat, len: int) returns (ok: bool, used: nat)
    requires IsInt(b.objectType) && (b.objectType in l.records ==> BasicFits(l, b))
    requires at + INT_SIZE <= buffer.Length && at + len <= buffer.Length
    modifies buffer
    ensures ok == (b.objectType in l.records && |EncodeBasic(b)| <= len)
    ensures if ok then used == |EncodeBasic(b)| && Wrote(old(buffer[..]), buffer[..], at, EncodeBasic(b))
            else Wrote(old(buffer[..]), buffer[..], at, EncodeInt(b.objectType))
  {
    hide Wrote;
    ghost var s0 := buffer[..];
    Copy(buffer, at, EncodeInt(b.objectType));
    used := INT_SIZE;
    ghost var s1 := buffer[..];
    if b.objectType !in l.records || len - used < l.records[b.objectType] {
      return false, used;
    }
    Copy(buffer, at + used, b.record);
    WroteBoth(s0, s1, buffer[..], at, EncodeInt(b.objectType), b.record);
    used := used + l.records[b.objectType];
    ok := true;
  }

  ghost function ObjectOf(basic: Option<Basic>, advance: AdvanceInfo?): Object
    requires advance != null ==> advance.Valid()
    reads advance, if advance == null then {} else {advance.operations, advance.tasks, advance.features}
  {
    Object(basic, if advance == null then None else Some(advance.Value()))
  }

  /** What MY_PACK_EVMS_OBJECT writes: behind a basic record the length it was given is forgotten. */
  function PutObject(l: Layout, o: Object, len: int): Put
    requires ObjectFits(l, o)
  {
    if o.basic.None? then if o.advance.None? then Put([]) else PutAdvance(l, o.advance.value, len)
    else
      var b := EncodeBasic(o.basic.value);
      if |b| > len then NoRoom
      else if o.advance.None? then Put(b)
      else Behind(b, PutAdvance(l, o.advance.value, NET_BUFFER_LEN - |b|))
  }

  predicate SmallObject(o: Object) { o.advance.Some? ==> SmallAdvance(o.advance.value) }

  /**
   * Packing succeeds exactly when the encoding fits, if the given length is that of a network buffer, or if the object
   * does not have both parts; as long as the options of no entry wrap around.
   */
  lemma PacksIfFits(l: Layout, o: Object, len: nat)
    requires ObjectFits(l, o) && SmallObject(o) && (len == 65535 || o.basic.None? || o.advance.None?)
    ensures PutObject(l, o, len) == Ideal(EncodeObject(o), len)
  {
    hide PutAdvance, EncodeAdvance, EncodeBasic, AdvanceFits, SmallAdvance;
    var b := if o.basic.Some? then EncodeBasic(o.basic.value) else [];
    if o.advance.Some? {
      PutAdvanceFits(l, o.advance.value, len - |b|);
      assert [] + EncodeAdvance(o.advance.value) == EncodeAdvance(o.advance.value);
    }
    assert b + [] == b;
  }

  /** Otherwise it differs for the objects whose size is between the two lengths. */
  lemma PacksUnlessBetween(l: Layout, o: Object, len: nat)
    requires ObjectFits(l, o) && SmallObject(o) && o.basic.Some? && o.advance.Some? && |EncodeBasic(o.basic.value)| <= len
    ensures PutObject(l, o, len) == Ideal(EncodeObject(o), 65535)
    ensures PutObject(l, o, len) == Ideal(EncodeObject(o), len) <==>
            !(len < |EncodeObject(o)| <= 65535 || 65535 < |EncodeObject(o)| <= len)
  {
    hide PutAdvance, EncodeAdvance, EncodeBasic, AdvanceFits, SmallAdvance;
    PutAdvanceFits(l, o.advance.value, 65535 - |EncodeBasic(o.basic.value)|);
  }

  /** MY_PACK_EVMS_OBJECT: it writes the bytes of the object and nothing else, or nothing behind its buffer when it fails. */
  method PackObject(l: Layout, basic: Option<Basic>, advance: AdvanceInfo?, buffer: array<Byte>, len: nat)
    returns (status: Status, total: nat)
    requires advance != null ==> advance.Valid() && advance.operationNum >= 0
    requires advance != null ==> advance.taskNum >= 0 && advance.featureNum >= 0
    requires ObjectFits(l, ObjectOf(basic, advance)) && NET_BUFFER_LEN <= buffer.Length && len <= buffer.Length
    modifies buffer
    ensures var p := PutObject(l, ObjectOf(basic, advance), len);
            && status == StatusOfPut(p) && total == (if p.Put? then |p.bytes| else len)
            && Written(p, old(buffer[..]), buffer[..], 0, if len > NET_BUFFER_LEN then len else NET_BUFFER_LEN)
  {
    hide EncodeBasic, PutAdvance, AdvanceFits, Wrote, OnlyWithin;
    ghost var o, s0, first: Bytes := ObjectOf(basic, advance), buffer[..], [];
    ghost var most := if len > NET_BUFFER_LEN then len else NET_BUFFER_LEN;
    NothingWritten(s0, 0, most);
    var used, left := 0, len;
    if basic.Some? {
      var ok, u := PackBasic(l, basic.value, buffer, 0, len);
      if !ok {
        NothingWritten(buffer[..], INT_SIZE, most - INT_SIZE);
        WroteWithin(s0, buffer[..], buffer[..], 0, EncodeInt(basic.value.objectType), most);
        return Rejected, len;
      }
      used, first := u, EncodeBasic(basic.value);
      left := NET_BUFFER_LEN - used;
    }
    if advance == null {
      return Done, used;
    }
    ghost var s1 := buffer[..];
    var u;
    status, u := PackAdvance(l, advance, buffer, used, left);
    PackedBehind(s0, s1, buffer[..], first, PutAdvance(l, o.advance.value, left), left, most);
    total := if status == Done then used + u else len;
  }

  lemma PackedBehind(s0: Bytes, s1: Bytes, s2: Bytes, first: Bytes, p: Put, left: int, most: nat)
    requires Wrote(s0, s1, 0, first) && Written(p, s1, s2, |first|, left) && |first| + left <= most
    requires |first| <= most
    ensures Written(Behind(first, p), s0, s2, 0, most)
    ensures first == [] ==> Behind(first, p) == p
  {
    if p.Put? {
      WroteBoth(s0, s1, s2, 0, first, p.bytes);
      assert [] + p.bytes == p.bytes;
    } else {
      WroteWithin(s0, s1, s2, 0, first, most);
    }
  }

  // ----- unpacking

  function StatusOf<T>(g: Got<T>): Status {
    match g
    case Got(_, _) => Done
    case Refused => Rejected
    case Fault => OutOfBounds
    case NoMemory => Aborted
  }

  /** What reading comes to in all, given what was read first. */
  function After<T>(done: seq<T>, used: nat, rest: Got<seq<T>>): Got<seq<T>> {
    if rest.Got? then Got(done + rest.value, used + rest.used) else rest
  }

  lemma AfterNothing<T>(rest: Got<seq<T>>)
    ensures After([], 0, rest) == rest
  {
    if rest.Got? {
      assert [] + rest.value == rest.value;
    }
  }

  lemma AfterOne<T>(done: seq<T>, used: nat, x: T, n: nat, rest: Got<seq<T>>)
    ensures After(done, used, After([x], n, rest)) == After(done + [x], used + n, rest)
  {
    if rest.Got? {
      assert done + ([x] + rest.value) == done + [x] + rest.value;
    }
  }

  method UnpackEntry(l: Layout, head: nat, memory: Bytes, at: nat, left: int)
    returns (status: Status, e: Entry, used: nat)
    requires at <= |memory| && left <= |memory| - at
    ensures var g := DecodeEntry(l, head, memory[at..], left);
            status == StatusOf(g) && (g.Got? ==> e == g.value && used == g.used)
  {
    hide DecodeInt, Blocks, ToInt, MallocSize;
    e, used := Entry([], []), 0;
    var s := memory[at..];
    if |s| < head + INT_SIZE {
      return OutOfBounds, e, used;
    }
    var options := DecodeInt(s[head..]);
    var need := ToInt(EntrySize(l, head, options));
    if left < need {
      return Rejected, e, used;
    }
    if !l.memory(MallocSize(l, head, options)) {
      return Aborted, e, used;
    }
    if MallocSize(l, head, options) < head + INT_SIZE || need < 0 {
      return OutOfBounds, e, used;
    }
    if options < 0 || need != EntrySize(l, head, options) {
      return Done, Miscounted(s[..need], options), need;
    }
    return Done, Entry(s[..head], Blocks(s[head + INT_SIZE..], options, l.option)), need;
  }

  /** One entry is read and the loop goes on behind it. */
  lemma EntryTaken(l: Layout, head: nat, memory: Bytes, at: nat, left: int, i: nat, num: int, room: nat)
    requires at <= |memory| && left <= |memory| - at && i < num
    ensures var g := DecodeEntry(l, head, memory[at..], left);
            if g.Got?
            then && at + g.used <= |memory| && left - g.used <= |memory| - at - g.used
                 && DecodeEntries(l, head, memory[at..], left, i, num, room) ==
                    (if i >= room then Fault
                     else After([g.value], g.used,
                                DecodeEntries(l, head, memory[at + g.used..], left - g.used, i + 1, num, room)))
            else DecodeEntries(l, head, memory[at..], left, i, num, room) == Failed(g)
  {
    hide DecodeEntry;
    var g := DecodeEntry(l, head, memory[at..], left);
    if g.Got? {
      assert memory[at..][g.used..] == memory[at + g.used..];
    }
  }

  lemma NoEntryTaken(l: Layout, head: nat, s: Bytes, left: int, i: nat, num: int, room: nat)
    requires left <= |s| && i >= num
    ensures DecodeEntries(l, head, s, left, i, num, room) == Got([], 0)
  {
  }

  /** The loop over the entries announced by a count; memory is what can be read from the current position on. */
  method UnpackEntries(l: Layout, head: nat, memory: Bytes, at0: nat, left0: int, num: int, table: array<Entry>)
    returns (status: Status, at: nat, left: int)
    requires at0 <= |memory| && left0 <= |memory| - at0
    modifies table
    ensures var g := DecodeEntries(l, head, memory[at0..], left0, 0, num, table.Length);
            && status == StatusOf(g)
            && (g.Got? ==> && at == at0 + g.used <= |memory| && left == left0 - g.used <= |memory| - at
                           && Positive(num) <= table.Length && table[..Positive(num)] == g.value)
  {
    hide DecodeEntries, DecodeEntry;
    at, left := at0, left0;
    ghost var goal := DecodeEntries(l, head, memory[at0..], left0, 0, num, table.Length);
    AfterNothing(goal);
    var i := 0;
    assert table[..0] == [];
    while i < num
      invariant 0 <= i <= Positive(num) && i <= table.Length && at0 <= at <= |memory| && left <= |memory| - at
      invariant left == left0 - (at - at0)
      invariant goal == After(table[..i], at - at0, DecodeEntries(l, head, memory[at..], left, i, num, table.Length))
    {
      var e, used;
      EntryTaken(l, head, memory, at, left, i, num, table.Length);
      status, e, used := UnpackEntry(l, head, memory, at, left);
      if status != Done {
        return;
      }
      if i >= table.Length {
        return OutOfBounds, at, left;
      }
      ghost var done := table[..i];
      table[i] := e;
      assert table[..i + 1] == done + [e];
      AfterOne(done, at - at0, e, used, DecodeEntries(l, head, memory[at + used..], left - used, i + 1, num, table.Length));
      at, left := at + used, left - used;
      i := i + 1;
    }
    NoEntryTaken(l, head, memory[at..], left, i, num, table.Length);
    assert table[..i] + [] == table[..i];
    status := Done;
  }

  lemma FeatureTaken(l: Layout, memory: Bytes, at: nat, left: int, i: nat, num: int, room: nat)
    requires at <= |memory| && left <= |memory| - at && i < num && i < room && left >= l.feature
    ensures at + l.feature <= |memory|
    ensures DecodeFeatures(l, memory[at..], left, i, num, room) ==
            After([memory[at..at + l.feature]], l.feature,
                  DecodeFeatures(l, memory[at + l.feature..], left - l.feature, i + 1, num, room))
  {
    assert memory[at..][l.feature..] == memory[at + l.feature..] && memory[at..][..l.feature] == memory[at..at + l.feature];
  }

  lemma FeatureNotTaken(l: Layout, s: Bytes, left: int, i: nat, num: int, room: nat)
    requires left <= |s|
    ensures DecodeFeatures(l, s, left, i, num, room) ==
            if i >= num then Got([], 0) else if left < l.feature then Refused else if i >= room then Fault
            else DecodeFeatures(l, s, left, i, num, room)
  {
  }

  method UnpackFeatures(l: Layout, memory: Bytes, at0: nat, left0: int, num: int, table: array<Bytes>)
    returns (status: Status, at: nat, left: int)
    requires at0 <= |memory| && left0 <= |memory| - at0
    modifies table
    ensures var g := DecodeFeatures(l, memory[at0..], left0, 0, num, table.Length);
            && status == StatusOf(g)
            && (g.Got? ==> && at == at0 + g.used <= |memory| && left == left0 - g.used
                           && Positive(num) <= table.Length && table[..Positive(num)] == g.value)
  {
    hide DecodeFeatures;
    at, left := at0, left0;
    ghost var goal := DecodeFeatures(l, memory[at0..], left0, 0, num, table.Length);
    AfterNothing(goal);
    var i := 0;
    assert table[..0] == [];
    while i < num
      invariant 0 <= i <= Positive(num) && i <= table.Length && at0 <= at <= |memory| && left <= |memory| - at
      invariant left == left0 - (at - at0)
      invariant goal == After(table[..i], at - at0, DecodeFeatures(l, memory[at..], left, i, num, table.Length))
    {
      FeatureNotTaken(l, memory[at..], left, i, num, table.Length);
      if left < l.feature {
        return Rejected, at, left;
      }
      if i >= table.Length {
        return OutOfBounds, at, left;
      }
      FeatureTaken(l, memory, at, left, i, num, table.Length);
      ghost var done := table[..i];
      table[i] := memory[at..at + l.feature];
      assert table[..i + 1] == done + [table[i]];
      AfterOne(done, at - at0, table[i], l.feature,
               DecodeFeatures(l, memory[at + l.feature..], left - l.feature, i + 1, num, table.Length));
      at, left := at + l.feature, left - l.feature;
      i := i + 1;
    }
    FeatureNotTaken(l, memory[at..], left, i, num, table.Length);
    assert table[..i] + [] == table[..i];
    status := Done;
  }

  /** The tasks and then the features. */
  method UnpackTail(l: Layout, s: Bytes, len: int, at0: nat, left0: int, ghost os: seq<Entry>, tasks: int, features: int,
                    taskTable: array<Entry>, featureTable: array<Bytes>)
    returns (status: Status, left: int)
    requires len <= |s| && at0 <= |s| && left0 == len - at0
    requires taskTable.Length == MAX_TASK_NUM && featureTable.Length == MAX_FEATURE_NUM
    modifies taskTable, featureTable
    ensures var g := DecodeTasks(l, s, len, at0, os, tasks, features);
            && status == StatusOf(g)
            && (g.Got? ==> && left == len - g.used && tasks <= MAX_TASK_NUM && features <= MAX_FEATURE_NUM
                           && g.value == Advance(os, taskTable[..Positive(tasks)], featureTable[..Positive(features)]))
  {
    hide DecodeEntries, DecodeFeatures;
    var at;
    status, at, left := UnpackEntries(l, l.task, s, at0, left0, tasks, taskTable);
    if status == Done {
      status, at, left := UnpackFeatures(l, s, at, left, features, featureTable);
    }
  }

  /** MY_UNPACK_ADVANCE_INFO; on success left is what it leaves in the length that it was given. */
  method UnpackAdvance(l: Layout, memory: Bytes, at0: nat, len: int) returns (status: Status, info: AdvanceInfo, left: int)
    requires at0 <= |memory| && len <= |memory| - at0
    ensures fresh(info) && info.Valid()
    ensures var g := DecodeAdvance(l, memory[at0..], len);
            status == StatusOf(g) && (g.Got? ==> info.Value() == g.value && left == len - g.used)
  {
    hide DecodeEntries, DecodeTasks, DecodeInt;
    info := new AdvanceInfo();
    left := len;
    var s := memory[at0..];
    if len <= 0 {
      return Rejected, info, left;
    }
    if |s| < 3 * INT_SIZE {
      return OutOfBounds, info, left;
    }
    var ops, tasks, features := DecodeInt(s), DecodeInt(s[INT_SIZE..]), DecodeInt(s[2 * INT_SIZE..]);
    var at;
    status, at, left := UnpackEntries(l, INT_SIZE, s, 3 * INT_SIZE, len - 3 * INT_SIZE, ops, info.operations);
    if status == Done {
      ghost var os := info.operations[..Positive(ops)];
      status, left := UnpackTail(l, s, len, at, left, os, tasks, features, info.tasks, info.features);
      if status == Done {
        info.operationNum, info.taskNum, info.featureNum := ops, tasks, features;
      }
    }
  }

  method UnpackBasic(l: Layout, memory: Bytes, len: int) returns (status: Status, b: Basic, used: nat)
    requires len <= |memory|
    ensures var g := DecodeBasic(l, memory, len);
            status == StatusOf(g) && (g.Got? ==> b == g.value && used == g.used)
  {
    b, used := Basic(0, []), 0;
    if len < INT_SIZE {
      return Rejected, b, used;
    }
    var t := DecodeInt(memory);
    if t !in l.records {
      return Rejected, b, used;
    }
    if len - INT_SIZE < l.records[t] {
      return Rejected, b, used;
    }
    return Done, Basic(t, memory[INT_SIZE..INT_SIZE + l.records[t]]), INT_SIZE + l.records[t];
  }

  /** MY_UNPACK_EVMS_OBJECT */
  method UnpackObject(l: Layout, memory: Bytes, len: int) returns (status: Status, basic: Basic, advance: AdvanceInfo?)
    requires len <= |memory|
    ensures advance != null ==> fresh(advance) && advance.Valid()
    ensures var g := DecodeObject(l, memory, len);
            status == StatusOf(g) && (g.Got? ==> ObjectOf(Some(basic), advance) == g.value)
  {
    hide DecodeBasic, DecodeAdvance;
    advance := null;
    var used;
    status, basic, used := UnpackBasic(l, memory, len);
    if status != Done {
      return;
    }
    if len - used > 0 {
      var info, left;
      status, info, left := UnpackAdvance(l, memory, used, len - used);
      if status == Done {
        advance := info;
      }
    }
  }
}
