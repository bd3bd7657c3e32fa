/** The wire format of objects: what is written, what is read back, and that the one undoes the other. */
module Codec {

  type Byte = b: int | 0 <= b < 256
  type Bytes = seq<Byte>

  const INT_SIZE: nat := 4
  const MAX_OPERATION_NUM: nat := 32
  const MAX_TASK_NUM: nat := 32
  const MAX_FEATURE_NUM: nat := 5

  /**
   * The sizes that the structures have where the program is built, that of the basic record of each object type, whether
   * sizes of memory have 64 bits or 32, and for which sizes memory can be had.
   */
  datatype Layout = Layout(option: nat, task: nat, feature: nat, records: map<int, nat>, wide: bool, memory: nat -> bool)

  // ----- integers

  predicate IsInt(n: int) { -0x8000_0000 <= n < 0x8000_0000 }

  /** What is left of a number in a variable of type int. */
  function ToInt(x: int): (n: int)
    ensures IsInt(n) && (IsInt(x) <==> n == x)
  {
    var u := x % 0x1_0000_0000;
    if u < 0x8000_0000 then u else u - 0x1_0000_0000
  }

  function EncodeInt(n: int): (s: Bytes)
    ensures |s| == INT_SIZE
  {
    var u := n % 0x1_0000_0000;
    [u % 256, u / 256 % 256, u / 0x1_0000 % 256, u / 0x100_0000 % 256]
  }

  function LittleEndian(a: int, b: int, c: int, d: int): int { a + 256 * b + 0x1_0000 * c + 0x100_0000 * d }

  function DecodeInt(s: Bytes): (n: int)
    requires |s| >= INT_SIZE
    ensures IsInt(n)
  {
    var u := LittleEndian(s[0], s[1], s[2], s[3]);
    if u < 0x8000_0000 then u else u - 0x1_0000_0000
  }

  lemma IntRoundTrip(n: int, rest: Bytes)
    requires IsInt(n)
    ensures DecodeInt(EncodeInt(n) + rest) == n
  {
    var s := EncodeInt(n) + rest;
    assert s[0] == EncodeInt(n)[0] && s[1] == EncodeInt(n)[1] && s[2] == EncodeInt(n)[2] && s[3] == EncodeInt(n)[3];
    hide LittleEndian;
    Reassembled(n % 0x1_0000_0000);
  }

  lemma Reassembled(u: nat)
    requires u < 0x1_0000_0000
    ensures LittleEndian(u % 256, u / 256 % 256, u / 0x1_0000 % 256, u / 0x100_0000 % 256) == u
  {
    DividedTwice(u, 256);
    DividedTwice(u, 0x1_0000);
    assert u / 0x100_0000 < 256;
  }

  lemma DividedTwice(u: nat, m: nat)
    requires m == 256 || m == 0x1_0000
    ensures u / (m * 256) == u / m / 256
  {
    var q, r := u / m, u % m;
    Quotient(u, m * 256, q / 256, q % 256 * m + r);
  }

  lemma IntCanonical(s: Bytes)
    requires |s| >= INT_SIZE
    ensures EncodeInt(DecodeInt(s)) == s[..INT_SIZE]
  {
    var u := LittleEndian(s[0], s[1], s[2], s[3]);
    assert DecodeInt(s) % 0x1_0000_0000 == u;
    Digits(s[0], s[1], s[2], s[3]);
  }

  lemma Digits(a: Byte, b: Byte, c: Byte, d: Byte)
    ensures var u := LittleEndian(a, b, c, d);
            u % 256 == a && u / 256 % 256 == b && u / 0x1_0000 % 256 == c && u / 0x100_0000 % 256 == d
  {
    var u := LittleEndian(a, b, c, d);
    Quotient(u, 256, b + 256 * c + 0x1_0000 * d, a);
    Quotient(u, 0x1_0000, c + 256 * d, a + 256 * b);
    Quotient(u, 0x100_0000, d, a + 256 * b + 0x1_0000 * c);
    Quotient(b + 256 * c + 0x1_0000 * d, 256, c + 256 * d, b);
    Quotient(c + 256 * d, 256, d, c);
  }

  lemma Quotient(u: int, m: nat, q: int, r: nat)
    requires r < m && u == q * m + r
    ensures u / m == q && u % m == r
  {
    assert u == (u / m) * m + u % m;
    var x := u / m - q;
    assert x * m == r - u % m;
    Multiple(x, m);
  }

  lemma Multiple(x: int, m: nat)
    ensures x >= 1 ==> x * m >= m
    ensures x <= -1 ==> x * m + m <= 0
  {
  }

  // ----- blocks of equal size

  lemma Regrouped(a: Bytes, b: Bytes, c: Bytes)
    ensures (a + b) + c == a + (b + c)
  {
  }

  lemma Front(a: Bytes, b: Bytes)
    ensures (a + b)[..|a|] == a && (a + b)[|a|..] == b
  {
  }

  lemma Pieces(s: Bytes, t: nat, u: nat, v: nat)
    requires t + u + v <= |s|
    ensures s[t + u..] == s[t..][u..] && s[..t + u + v] == s[..t] + (s[t..][..u] + s[t + u..][..v])
  {
  }

  predicate AllOfSize(blocks: seq<Bytes>, size: nat) { forall k :: 0 <= k < |blocks| ==> |blocks[k]| == size }

  function Concat(blocks: seq<Bytes>): Bytes {
    if blocks == [] then [] else blocks[0] + Concat(blocks[1..])
  }

  function Blocks(s: Bytes, n: nat, size: nat): (blocks: seq<Bytes>)
    requires n * size <= |s|
    ensures |blocks| == n && AllOfSize(blocks, size)
    decreases n
  {
    if n == 0 then []
    else
      Times(n, size);
      [s[..size]] + Blocks(s[size..], n - 1, size)
  }

  lemma Times(n: nat, size: nat)
    requires n > 0
    ensures n * size == size + (n - 1) * size && (n - 1) * size >= 0
  {
  }

  lemma {:induction false} ConcatSize(blocks: seq<Bytes>, size: nat)
    requires AllOfSize(blocks, size)
    ensures |Concat(blocks)| == |blocks| * size
  {
    if blocks != [] {
      ConcatSize(blocks[1..], size);
      Times(|blocks|, size);
    }
  }

  lemma {:induction false} BlocksRoundTrip(blocks: seq<Bytes>, size: nat, rest: Bytes)
    requires AllOfSize(blocks, size)
    ensures |Concat(blocks)| == |blocks| * size && Blocks(Concat(blocks) + rest, |blocks|, size) == blocks
  {
    ConcatSize(blocks, size);
    if blocks != [] {
      Times(|blocks|, size);
      ConcatSize(blocks[1..], size);
      assert (Concat(blocks) + rest)[..size] == blocks[0];
      assert (Concat(blocks) + rest)[size..] == Concat(blocks[1..]) + rest;
      BlocksRoundTrip(blocks[1..], size, rest);
    }
  }

  lemma {:induction false} BlocksCanonical(s: Bytes, n: nat, size: nat)
    requires n * size <= |s|
    ensures Concat(Blocks(s, n, size)) == s[..n * size]
    decreases n
  {
    if n > 0 {
      Times(n, size);
      BlocksCanonical(s[size..], n - 1, size);
      assert s[..n * size] == s[..size] + s[size..][..(n - 1) * size];
    }
  }

  // ----- operations and tasks: a head, the number of options, and the options

  /** An entry; or one that was taken over with a number of options that does not go with the bytes that were copied. */
  datatype Entry = Entry(head: Bytes, options: seq<Bytes>) | Miscounted(copied: Bytes, count: int)

  predicate EntryFits(l: Layout, head: nat, e: Entry) {
    e.Entry? && |e.head| == head && AllOfSize(e.options, l.option) && IsInt(|e.options|)
  }

  /** A miscounted entry is not the outcome of an encoding. */
  function EncodeEntry(e: Entry): Bytes {
    if e.Entry? then e.head + (EncodeInt(|e.options|) + Concat(e.options)) else []
  }

  /**
   * What reading comes to: a value and the number of bytes it took, a refusal, a read or write out of bounds, or the end
   * of the program because memory cannot be had.
   */
  datatype Got<T> = Got(value: T, used: nat) | Refused | Fault | NoMemory

  function Failed<A, B>(g: Got<A>): Got<B>
    requires !g.Got?
  {
    if g.Refused? then Refused else if g.Fault? then Fault else NoMemory
  }

  /** The size of an entry with n options, when nothing wraps around. */
  function EntrySize(l: Layout, head: nat, n: int): int { head + INT_SIZE + n * l.option }

  /** The size that malloc is asked for. */
  function MallocSize(l: Layout, head: nat, n: int): nat {
    EntrySize(l, head, n) % (if l.wide then 0x1_0000_0000_0000_0000 else 0x1_0000_0000)
  }

  /**
   * The entry at the start of s, of which left bytes may be read; its number of options is read before any check, the
   * size that it stands for is a 32-bit number, and the number is stored behind the head before the bytes are copied.
   */
  function DecodeEntry(l: Layout, head: nat, s: Bytes, left: int): (g: Got<Entry>)
    requires left <= |s|
    ensures g.Got? ==> g.used <= left
  {
    if |s| < head + INT_SIZE then Fault
    else
      var n := DecodeInt(s[head..]);
      var need := ToInt(EntrySize(l, head, n));
      if left < need then Refused
      else if !l.memory(MallocSize(l, head, n)) then NoMemory
      else if MallocSize(l, head, n) < head + INT_SIZE || need < 0 then Fault
      else if n < 0 || need != EntrySize(l, head, n) then Got(Miscounted(s[..need], n), need)
      else Got(Entry(s[..head], Blocks(s[head + INT_SIZE..], n, l.option)), need)
  }

  /** The number of options in front of s goes with a size that a variable of type int can hold. */
  predicate Counted(l: Layout, head: nat, s: Bytes) {
    && |s| >= head + INT_SIZE
    && var n := DecodeInt(s[head..]); n >= 0 && EntrySize(l, head, n) < 0x8000_0000
  }

  lemma EntryRoundTrip(l: Layout, head: nat, e: Entry, rest: Bytes, left: int)
    requires EntryFits(l, head, e) && IsInt(left) && |EncodeEntry(e)| <= left <= |EncodeEntry(e) + rest|
    ensures DecodeEntry(l, head, EncodeEntry(e) + rest, left) ==
            if l.memory(|EncodeEntry(e)|) then Got(e, |EncodeEntry(e)|) else NoMemory
  {
    hide ToInt, MallocSize, EncodeInt, DecodeInt, Blocks, Concat;
    var s := EncodeEntry(e) + rest;
    var behind := Concat(e.options) + rest;
    ConcatSize(e.options, l.option);
    assert s[head..] == EncodeInt(|e.options|) + behind;
    IntRoundTrip(|e.options|, behind);
    assert s[..head] == e.head && s[head + INT_SIZE..] == behind;
    BlocksRoundTrip(e.options, l.option, rest);
    SmallSize(l, head, |e.options|);
  }

  lemma SmallSize(l: Layout, head: nat, n: nat)
    requires EntrySize(l, head, n) < 0x8000_0000
    ensures MallocSize(l, head, n) == EntrySize(l, head, n) == ToInt(EntrySize(l, head, n))
    ensures EntrySize(l, head, n) >= head + INT_SIZE
  {
  }

  /** What was read as an entry encodes to the bytes it was read from, exactly when its count is no trap. */
  lemma EntryCanonical(l: Layout, head: nat, s: Bytes, left: int)
    requires left <= |s| && DecodeEntry(l, head, s, left).Got?
    ensures var g := DecodeEntry(l, head, s, left);
            && (g.value.Entry? <==> Counted(l, head, s)) && g.used <= |s|
            && (Counted(l, head, s) ==> EncodeEntry(g.value) == s[..g.used] && EntryFits(l, head, g.value) &&
                                        g.used == EntrySize(l, head, DecodeInt(s[head..])))
  {
    hide DecodeInt, EncodeInt, Blocks, Concat, ToInt, MallocSize;
    var n := DecodeInt(s[head..]);
    IntCanonical(s[head..]);
    if n >= 0 && ToInt(EntrySize(l, head, n)) == EntrySize(l, head, n) {
      BlocksCanonical(s[head + INT_SIZE..], n, l.option);
      Pieces(s, head, INT_SIZE, n * l.option);
    }
  }

  /** The smallest number of options whose size wraps around. */
  function WrappingCount(size: nat): nat
    requires size > 0
  {
    (0x1_0000_0000 + size - 1) / size
  }

  lemma Divided(x: nat, m: nat)
    requires m > 0
    ensures x - m < x / m * m <= x
  {
  }

  lemma Product(n: int, k: int, m: nat)
    requires n >= k
    ensures n * m >= k * m
  {
    assert (n - k) * m >= 0;
  }

  lemma WrappedSize(l: Layout, head: nat)
    requires l.option >= 3 && head + INT_SIZE + l.option < 0x8000_0000
    ensures var size := EntrySize(l, head, WrappingCount(l.option));
            && size >= 0x1_0000_0000 && ToInt(size) == size - 0x1_0000_0000
            && head + INT_SIZE <= ToInt(size) < head + INT_SIZE + l.option
    ensures IsInt(WrappingCount(l.option))
  {
    var n := WrappingCount(l.option);
    Divided(0x1_0000_0000 + l.option - 1, l.option);
    assert 0x1_0000_0000 <= n * l.option < 0x1_0000_0000 + l.option;
    if n >= 0x8000_0000 {
      Product(n, 0x8000_0000, l.option);
    }
  }

  /**
   * A count that makes the size wrap around gets through the check of the length: an entry with that many options is
   * taken over from fewer bytes than an entry with a single one has. With options of 524 bytes it is 8196503.
   */
  lemma WrappedCountAccepted(l: Layout, head: nat, s: Bytes, left: int)
    requires l.option >= 3 && head + INT_SIZE + l.option <= left <= |s| && IsInt(left)
    requires DecodeInt(s[head..]) == WrappingCount(l.option)
    requires l.memory(MallocSize(l, head, WrappingCount(l.option)))
    ensures var g := DecodeEntry(l, head, s, left);
            g.Got? && g.value == Miscounted(s[..g.used], WrappingCount(l.option)) && g.used < EntrySize(l, head, 1)
    ensures WrappingCount(524) == 8196503
  {
    if head + INT_SIZE + l.option < 0x8000_0000 {
      WrappedSize(l, head);
    }
  }

  /** So does a count below 0: with options of an even size the least int wraps around to an entry without options. */
  lemma NegativeCountAccepted(l: Layout, head: nat, s: Bytes, left: int)
    requires l.option % 2 == 0 && head + INT_SIZE <= left <= |s| && IsInt(left)
    requires DecodeInt(s[head..]) == -0x8000_0000 && MallocSize(l, head, -0x8000_0000) >= head + INT_SIZE
    requires l.memory(MallocSize(l, head, -0x8000_0000))
    ensures DecodeEntry(l, head, s, left) == Got(Miscounted(s[..head + INT_SIZE], -0x8000_0000), head + INT_SIZE)
  {
    var k := l.option / 2;
    assert EntrySize(l, head, -0x8000_0000) == (-k) * 0x1_0000_0000 + (head + INT_SIZE);
    Quotient(EntrySize(l, head, -0x8000_0000), 0x1_0000_0000, -k, head + INT_SIZE);
  }

  predicate EntriesFit(l: Layout, head: nat, es: seq<Entry>) { forall k :: 0 <= k < |es| ==> EntryFits(l, head, es[k]) }

  predicate AllWhole(es: seq<Entry>) { forall k :: 0 <= k < |es| ==> es[k].Entry? }

  /** There is memory for every entry. */
  predicate Allocated(l: Layout, es: seq<Entry>) { forall k :: 0 <= k < |es| ==> l.memory(|EncodeEntry(es[k])|) }

  function EncodeEntries(es: seq<Entry>): Bytes {
    if es == [] then [] else EncodeEntry(es[0]) + EncodeEntries(es[1..])
  }

  /** The loop over n entries, of which those from number k on are left; the table has room for a certain number of them. */
  function DecodeEntries(l: Layout, head: nat, s: Bytes, left: int, k: nat, n: int, room: nat): (g: Got<seq<Entry>>)
    requires left <= |s|
    ensures g.Got? ==> g.used <= |s|
    decreases n - k
  {
    if k >= n then Got([], 0)
    else
      var g := DecodeEntry(l, head, s, left);
      if !g.Got? then Failed(g)
      else if k >= room then Fault
      else
        var more := DecodeEntries(l, head, s[g.used..], left - g.used, k + 1, n, room);
        if more.Got? then Got([g.value] + more.value, g.used + more.used) else more
  }

  lemma {:induction false} EntriesRoundTrip(l: Layout, head: nat, es: seq<Entry>, rest: Bytes, left: int, k: nat, room: nat)
    requires EntriesFit(l, head, es) && k + |es| <= room && IsInt(left)
    requires |EncodeEntries(es)| <= left <= |EncodeEntries(es) + rest|
    ensures DecodeEntries(l, head, EncodeEntries(es) + rest, left, k, k + |es|, room) ==
            if Allocated(l, es) then Got(es, |EncodeEntries(es)|) else NoMemory
    decreases |es|
  {
    hide EncodeEntry, DecodeEntry;
    if es != [] {
      var more := EncodeEntries(es[1..]) + rest;
      var used := |EncodeEntry(es[0])|;
      assert EncodeEntries(es) + rest == EncodeEntry(es[0]) + more;
      EntryRoundTrip(l, head, es[0], more, left);
      assert (EncodeEntry(es[0]) + more)[used..] == more;
      EntriesRoundTrip(l, head, es[1..], rest, left - used, k + 1, room);
      assert [es[0]] + es[1..] == es && |EncodeEntries(es)| == used + |EncodeEntries(es[1..])|;
      assert Allocated(l, es) <==> l.memory(used) && Allocated(l, es[1..]);
    }
  }

  /** Every count in front of the bytes of n entries, of which those from number k on are left, goes with an int size. */
  predicate AllCounted(l: Layout, head: nat, s: Bytes, k: nat, n: int)
    decreases n - k
  {
    k < n ==>
      && Counted(l, head, s)
      && (FirstSize(l, head, s) <= |s| ==> AllCounted(l, head, s[FirstSize(l, head, s)..], k + 1, n))
  }

  function FirstSize(l: Layout, head: nat, s: Bytes): nat
    requires Counted(l, head, s)
  {
    EntrySize(l, head, DecodeInt(s[head..]))
  }

  /** Where n such entries end. */
  function EndOfEntries(l: Layout, head: nat, s: Bytes, k: nat, n: int): (end: nat)
    requires AllCounted(l, head, s, k, n)
    ensures end <= |s|
    decreases n - k
  {
    if k >= n || FirstSize(l, head, s) > |s| then 0
    else FirstSize(l, head, s) + EndOfEntries(l, head, s[FirstSize(l, head, s)..], k + 1, n)
  }

  /** Entries that were read are the encoding of what they were read as exactly when all the counts are in order. */
  lemma {:induction false} EntriesCanonical(l: Layout, head: nat, s: Bytes, left: int, k: nat, n: int, room: nat)
    requires left <= |s| && DecodeEntries(l, head, s, left, k, n, room).Got? && k <= room
    ensures var g := DecodeEntries(l, head, s, left, k, n, room);
            && |g.value| == (if k < n then n - k else 0) && k + |g.value| <= room
            && (AllWhole(g.value) <==> AllCounted(l, head, s, k, n))
            && (AllCounted(l, head, s, k, n) ==> EncodeEntries(g.value) == s[..g.used] && EntriesFit(l, head, g.value) &&
                                                 g.used == EndOfEntries(l, head, s, k, n))
    decreases n - k
  {
    hide EncodeEntry, DecodeEntry, Counted, EntryFits;
    if k < n {
      EntryCanonical(l, head, s, left);
      var e, used := DecodeEntry(l, head, s, left).value, DecodeEntry(l, head, s, left).used;
      EntriesCanonical(l, head, s[used..], left - used, k + 1, n, room);
      var more := DecodeEntries(l, head, s[used..], left - used, k + 1, n, room);
      assert s[..used + more.used] == s[..used] + s[used..][..more.used];
      WholeCons(e, more.value);
      if Counted(l, head, s) && AllWhole(more.value) {
        FitCons(l, head, e, more.value);
      }
    }
  }

  lemma WholeCons(e: Entry, es: seq<Entry>)
    ensures AllWhole([e] + es) <==> e.Entry? && AllWhole(es)
  {
    assert ([e] + es)[0] == e && forall k :: 0 <= k < |es| ==> ([e] + es)[k + 1] == es[k];
  }

  lemma FitCons(l: Layout, head: nat, e: Entry, es: seq<Entry>)
    requires EntryFits(l, head, e) && EntriesFit(l, head, es)
    ensures EntriesFit(l, head, [e] + es) && EncodeEntries([e] + es) == EncodeEntry(e) + EncodeEntries(es)
  {
    hide EncodeEntry, EntryFits;
    assert ([e] + es)[1..] == es;
  }

  // ----- operations, tasks and features together

  datatype Advance = Advance(operations: seq<Entry>, tasks: seq<Entry>, features: seq<Bytes>)

  predicate AdvanceFits(l: Layout, a: Advance) {
    && EntriesFit(l, INT_SIZE, a.operations) && |a.operations| <= 32
    && EntriesFit(l, l.task, a.tasks) && |a.tasks| <= 32
    && AllOfSize(a.features, l.feature) && |a.features| <= 5
  }

  function EncodeCounts(a: Advance): (s: Bytes)
    ensures |s| == 3 * INT_SIZE
  {
    EncodeInt(|a.operations|) + (EncodeInt(|a.tasks|) + EncodeInt(|a.features|))
  }

  function EncodeAdvance(a: Advance): Bytes {
    EncodeCounts(a) + (EncodeEntries(a.operations) + (EncodeEntries(a.tasks) + Concat(a.features)))
  }

  function DecodeFeatures(l: Layout, s: Bytes, left: int, k: nat, n: int, room: nat): (g: Got<seq<Bytes>>)
    requires left <= |s|
    ensures g.Got? ==> g.used <= |s|
    decreases n - k
  {
    if k >= n then Got([], 0)
    else if left < l.feature then Refused
    else if k >= room then Fault
    else
      var more := DecodeFeatures(l, s[l.feature..], left - l.feature, k + 1, n, room);
      if more.Got? then Got([s[..l.feature]] + more.value, l.feature + more.used) else more
  }

  /** The three counts are read before the length is looked at. */
  function DecodeAdvance(l: Layout, s: Bytes, left: int): (g: Got<Advance>)
    requires left <= |s|
    ensures g.Got? ==> g.used <= |s|
  {
    if left <= 0 then Refused
    else if |s| < 3 * INT_SIZE then Fault
    else DecodeOperations(l, s, left, DecodeInt(s), DecodeInt(s[INT_SIZE..]), DecodeInt(s[2 * INT_SIZE..]))
  }

  function DecodeOperations(l: Layout, s: Bytes, left: int, ops: int, tasks: int, features: int): (g: Got<Advance>)
    requires left <= |s| && |s| >= 3 * INT_SIZE
    ensures g.Got? ==> g.used <= |s|
  {
    var os := DecodeEntries(l, INT_SIZE, s[3 * INT_SIZE..], left - 3 * INT_SIZE, 0, ops, MAX_OPERATION_NUM);
    if os.Got? then DecodeTasks(l, s, left, 3 * INT_SIZE + os.used, os.value, tasks, features) else Failed(os)
  }

  function DecodeTasks(l: Layout, s: Bytes, left: int, at: nat, os: seq<Entry>, tasks: int, features: int): (g: Got<Advance>)
    requires left <= |s| && at <= |s|
    ensures g.Got? ==> g.used <= |s|
  {
    var ts := DecodeEntries(l, l.task, s[at..], left - at, 0, tasks, MAX_TASK_NUM);
    if !ts.Got? then Failed(ts)
    else
      var fs := DecodeFeatures(l, s[at + ts.used..], left - at - ts.used, 0, features, MAX_FEATURE_NUM);
      if fs.Got? then Got(Advance(os, ts.value, fs.value), at + ts.used + fs.used) else Failed(fs)
  }

  lemma {:induction false} FeaturesRoundTrip(l: Layout, fs: seq<Bytes>, rest: Bytes, left: int, k: nat, room: nat)
    requires AllOfSize(fs, l.feature) && k + |fs| <= room && |Concat(fs)| <= left <= |Concat(fs) + rest|
    ensures DecodeFeatures(l, Concat(fs) + rest, left, k, k + |fs|, room) == Got(fs, |Concat(fs)|)
    decreases |fs|
  {
    if fs != [] {
      FirstFeature(fs, rest, l.feature);
      hide Concat;
      FeaturesRoundTrip(l, fs[1..], rest, left - l.feature, k + 1, room);
      assert [fs[0]] + fs[1..] == fs;
    }
  }

  lemma FirstFeature(fs: seq<Bytes>, rest: Bytes, size: nat)
    requires fs != [] && AllOfSize(fs, size)
    ensures var s := Concat(fs) + rest;
            && size <= |s| && s[..size] == fs[0] && s[size..] == Concat(fs[1..]) + rest
            && |Concat(fs)| == size + |Concat(fs[1..])|
  {
    Regrouped(fs[0], Concat(fs[1..]), rest);
    Front(fs[0], Concat(fs[1..]) + rest);
  }

  lemma {:induction false} FeaturesCanonical(l: Layout, s: Bytes, left: int, k: nat, n: int, room: nat)
    requires left <= |s| && DecodeFeatures(l, s, left, k, n, room).Got? && k <= room
    ensures var g := DecodeFeatures(l, s, left, k, n, room);
            && Concat(g.value) == s[..g.used] && AllOfSize(g.value, l.feature)
            && |g.value| == (if k < n then n - k else 0) && k + |g.value| <= room
    decreases n - k
  {
    if k < n {
      FeaturesCanonical(l, s[l.feature..], left - l.feature, k + 1, n, room);
      var more := DecodeFeatures(l, s[l.feature..], left - l.feature, k + 1, n, room).used;
      assert s[..l.feature + more] == s[..l.feature] + s[l.feature..][..more];
    }
  }

  lemma CountsRoundTrip(l: Layout, a: Advance, rest: Bytes)
    requires AdvanceFits(l, a)
    ensures var s := EncodeCounts(a) + rest;
            && DecodeInt(s) == |a.operations| && DecodeInt(s[INT_SIZE..]) == |a.tasks|
            && DecodeInt(s[2 * INT_SIZE..]) == |a.features| && s[3 * INT_SIZE..] == rest
  {
    var s := EncodeCounts(a) + rest;
    var tasks, features := EncodeInt(|a.tasks|), EncodeInt(|a.features|);
    assert s == EncodeInt(|a.operations|) + (tasks + features + rest);
    IntRoundTrip(|a.operations|, tasks + features + rest);
    assert s[INT_SIZE..] == tasks + (features + rest);
    IntRoundTrip(|a.tasks|, features + rest);
    assert s[2 * INT_SIZE..] == features + rest;
    IntRoundTrip(|a.features|, rest);
  }

  /**
   * The round trip: what was encoded is read back as it was, by exactly as many bytes as were written, whatever follows
   * them in memory.
   */
  lemma AdvanceRoundTrip(l: Layout, a: Advance, rest: Bytes, left: int)
    requires AdvanceFits(l, a) && |EncodeAdvance(a)| <= left <= |EncodeAdvance(a) + rest| && IsInt(left)
    ensures DecodeAdvance(l, EncodeAdvance(a) + rest, left) ==
            if Allocated(l, a.operations) && Allocated(l, a.tasks) then Got(a, |EncodeAdvance(a)|) else NoMemory
  {
    hide EncodeCounts, EncodeEntries, DecodeEntries, DecodeTasks, Concat, DecodeInt, EntriesFit, Allocated, AllOfSize;
    var s := EncodeAdvance(a) + rest;
    var features := Concat(a.features) + rest;
    var tasks := EncodeEntries(a.tasks) + features;
    var ops := EncodeEntries(a.operations) + tasks;
    assert s == EncodeCounts(a) + ops;
    CountsRoundTrip(l, a, ops);
    EntriesRoundTrip(l, INT_SIZE, a.operations, tasks, left - 3 * INT_SIZE, 0, MAX_OPERATION_NUM);
    var at := 3 * INT_SIZE + |EncodeEntries(a.operations)|;
    assert s[at..] == tasks;
    TailRoundTrip(l, a, s, at, rest, left);
  }

  /** The same for what is behind the operations. */
  lemma TailRoundTrip(l: Layout, a: Advance, s: Bytes, at: nat, rest: Bytes, left: int)
    requires AdvanceFits(l, a) && IsInt(left) && at <= |s| && left <= |s|
    requires s[at..] == EncodeEntries(a.tasks) + (Concat(a.features) + rest)
    requires at + |EncodeEntries(a.tasks)| + |Concat(a.features)| <= left
    ensures DecodeTasks(l, s, left, at, a.operations, |a.tasks|, |a.features|) ==
            if Allocated(l, a.tasks) then Got(a, at + |EncodeEntries(a.tasks)| + |Concat(a.features)|) else NoMemory
  {
    hide EncodeEntries, DecodeEntries, DecodeFeatures, Concat, EntriesFit, Allocated, AllOfSize;
    var features := Concat(a.features) + rest;
    EntriesRoundTrip(l, l.task, a.tasks, features, left - at, 0, MAX_TASK_NUM);
    var at' := at + |EncodeEntries(a.tasks)|;
    assert s[at'..] == s[at..][|EncodeEntries(a.tasks)|..] == features;
    FeaturesRoundTrip(l, a.features, rest, left - at', 0, MAX_FEATURE_NUM);
  }

  /** The counts in the bytes of an advance record are not below 0 and go with sizes that fit in an int. */
  predicate CountsInOrder(l: Layout, s: Bytes)
    requires |s| >= 3 * INT_SIZE
  {
    var ops, tasks, features := DecodeInt(s), DecodeInt(s[INT_SIZE..]), DecodeInt(s[2 * INT_SIZE..]);
    && ops >= 0 && tasks >= 0 && features >= 0
    && AllCounted(l, INT_SIZE, s[3 * INT_SIZE..], 0, ops)
    && var at := 3 * INT_SIZE + EndOfEntries(l, INT_SIZE, s[3 * INT_SIZE..], 0, ops);
       AllCounted(l, l.task, s[at..], 0, tasks)
  }

  lemma CountsCanonical(s: Bytes, ops: nat, tasks: nat, features: nat)
    requires |s| >= 3 * INT_SIZE
    requires EncodeInt(ops) + (EncodeInt(tasks) + EncodeInt(features)) == s[..3 * INT_SIZE]
    requires IsInt(ops) && IsInt(tasks) && IsInt(features)
    ensures DecodeInt(s) == ops && DecodeInt(s[INT_SIZE..]) == tasks && DecodeInt(s[2 * INT_SIZE..]) == features
  {
    hide EncodeInt, DecodeInt;
    var a, b, c := EncodeInt(ops), EncodeInt(tasks), EncodeInt(features);
    var rest := s[3 * INT_SIZE..];
    assert s == s[..3 * INT_SIZE] + rest;
    assert s == a + (b + c + rest);
    IntRoundTrip(ops, b + c + rest);
    assert s[INT_SIZE..] == b + (c + rest);
    IntRoundTrip(tasks, c + rest);
    assert s[2 * INT_SIZE..] == c + rest;
    IntRoundTrip(features, rest);
  }

  /**
   * The other way round: bytes that were read without fault are the encoding of what was read, if and only if the counts
   * in them are in order. WrappedCountAccepted and NegativeCountAccepted give counts that are not.
   */
  lemma AdvanceCanonical(l: Layout, s: Bytes, left: int)
    requires left <= |s| && DecodeAdvance(l, s, left).Got?
    ensures |s| >= 3 * INT_SIZE
    ensures var g := DecodeAdvance(l, s, left);
            AdvanceFits(l, g.value) && EncodeAdvance(g.value) == s[..g.used] <==> CountsInOrder(l, s)
  {
    hide EncodeInt, EncodeEntries, DecodeEntries, DecodeFeatures, Concat, DecodeInt, AllCounted, EndOfEntries, EntryFits;
    hide AllOfSize;
    var g := DecodeAdvance(l, s, left);
    var a := g.value;
    var ops, tasks, features := DecodeInt(s), DecodeInt(s[INT_SIZE..]), DecodeInt(s[2 * INT_SIZE..]);
    EntriesCanonical(l, INT_SIZE, s[3 * INT_SIZE..], left - 3 * INT_SIZE, 0, ops, MAX_OPERATION_NUM);
    var u := DecodeEntries(l, INT_SIZE, s[3 * INT_SIZE..], left - 3 * INT_SIZE, 0, ops, MAX_OPERATION_NUM).used;
    var at := 3 * INT_SIZE + u;
    EntriesCanonical(l, l.task, s[at..], left - at, 0, tasks, MAX_TASK_NUM);
    var v := DecodeEntries(l, l.task, s[at..], left - at, 0, tasks, MAX_TASK_NUM).used;
    FeaturesCanonical(l, s[at + v..], left - at - v, 0, features, MAX_FEATURE_NUM);
    var w := DecodeFeatures(l, s[at + v..], left - at - v, 0, features, MAX_FEATURE_NUM).used;
    if CountsInOrder(l, s) {
      PartsCanonical(l, s, a, u, v, w);
    }
    if AdvanceFits(l, a) && EncodeAdvance(a) == s[..g.used] {
      FittingIsWhole(l, a);
      assert s[..g.used][..3 * INT_SIZE] == s[..3 * INT_SIZE];
      CountsCanonical(s, |a.operations|, |a.tasks|, |a.features|);
    }
  }

  lemma FittingIsWhole(l: Layout, a: Advance)
    requires AdvanceFits(l, a)
    ensures AllWhole(a.operations) && AllWhole(a.tasks)
  {
  }

  /** The parts of an advance record, put together again. */
  lemma PartsCanonical(l: Layout, s: Bytes, a: Advance, u: nat, v: nat, w: nat)
    requires 3 * INT_SIZE + u + v + w <= |s|
    requires |a.operations| == DecodeInt(s) && |a.tasks| == DecodeInt(s[INT_SIZE..])
    requires |a.features| == DecodeInt(s[2 * INT_SIZE..])
    requires EncodeEntries(a.operations) == s[3 * INT_SIZE..][..u]
    requires EncodeEntries(a.tasks) == s[3 * INT_SIZE + u..][..v] && Concat(a.features) == s[3 * INT_SIZE + u + v..][..w]
    ensures EncodeAdvance(a) == s[..3 * INT_SIZE + u + v + w]
  {
    hide EncodeInt, EncodeEntries, Concat, DecodeInt;
    var at := 3 * INT_SIZE + u;
    IntCanonical(s);
    IntCanonical(s[INT_SIZE..]);
    IntCanonical(s[2 * INT_SIZE..]);
    assert EncodeCounts(a) == s[..3 * INT_SIZE];
    Pieces(s, 3 * INT_SIZE + u, v, w);
    assert s[..3 * INT_SIZE + u] == s[..3 * INT_SIZE] + s[3 * INT_SIZE..][..u];
    assert s[at..][v..] == s[at + v..];
    Regrouped(s[..3 * INT_SIZE], s[3 * INT_SIZE..][..u], s[at..][..v] + s[at + v..][..w]);
  }

  // ----- objects

  datatype Option<+T> = None | Some(value: T)

  /** The type of an object and the record of that type, as it goes over the wire. */
  datatype Basic = Basic(objectType: int, record: Bytes)

  datatype Object = Object(basic: Option<Basic>, advance: Option<Advance>)

  predicate BasicFits(l: Layout, b: Basic) {
    IsInt(b.objectType) && b.objectType in l.records && |b.record| == l.records[b.objectType]
  }

  predicate ObjectFits(l: Layout, o: Object) {
    (o.basic.Some? ==> BasicFits(l, o.basic.value)) && (o.advance.Some? ==> AdvanceFits(l, o.advance.value))
  }

  function EncodeBasic(b: Basic): Bytes { EncodeInt(b.objectType) + b.record }

  function EncodeObject(o: Object): Bytes {
    (if o.basic.Some? then EncodeBasic(o.basic.value) else []) +
    (if o.advance.Some? then EncodeAdvance(o.advance.value) else [])
  }

  function DecodeBasic(l: Layout, s: Bytes, left: int): (g: Got<Basic>)
    requires left <= |s|
    ensures g.Got? ==> g.used <= left
  {
    if left < INT_SIZE then Refused
    else
      var t := DecodeInt(s);
      if t !in l.records || left - INT_SIZE < l.records[t] then Refused
      else Got(Basic(t, s[INT_SIZE..INT_SIZE + l.records[t]]), INT_SIZE + l.records[t])
  }

  /** A basic record is expected always, the rest only if bytes are left. */
  function DecodeObject(l: Layout, s: Bytes, left: int): Got<Object>
    requires left <= |s|
  {
    var b := DecodeBasic(l, s, left);
    if !b.Got? then Failed(b)
    else if left - b.used <= 0 then Got(Object(Some(b.value), None), b.used)
    else
      var a := DecodeAdvance(l, s[b.used..], left - b.used);
      if a.Got? then Got(Object(Some(b.value), Some(a.value)), b.used + a.used) else Failed(a)
  }

  lemma BasicRoundTrip(l: Layout, b: Basic, rest: Bytes, left: int)
    requires BasicFits(l, b) && |EncodeBasic(b)| <= left <= |EncodeBasic(b) + rest|
    ensures DecodeBasic(l, EncodeBasic(b) + rest, left) == Got(b, |EncodeBasic(b)|)
  {
    assert EncodeBasic(b) + rest == EncodeInt(b.objectType) + (b.record + rest);
    IntRoundTrip(b.objectType, b.record + rest);
  }

  predicate ObjectAllocated(l: Layout, o: Object) {
    o.advance.Some? ==> Allocated(l, o.advance.value.operations) && Allocated(l, o.advance.value.tasks)
  }

  /**
   * An object survives packing and unpacking, with no byte left over, if and only if it has a basic record and there is
   * memory for its entries.
   */
  lemma ObjectRoundTrip(l: Layout, o: Object)
    requires ObjectFits(l, o) && IsInt(|EncodeObject(o)|)
    ensures var s := EncodeObject(o);
            DecodeObject(l, s, |s|) == Got(o, |s|) <==> o.basic.Some? && ObjectAllocated(l, o)
  {
    hide EncodeBasic, EncodeAdvance, DecodeBasic, DecodeAdvance, Allocated;
    if o.basic.Some? {
      var b := EncodeBasic(o.basic.value);
      var rest := if o.advance.Some? then EncodeAdvance(o.advance.value) else [];
      BasicRoundTrip(l, o.basic.value, rest, |b + rest|);
      assert (b + rest)[|b|..] == rest;
      if o.advance.Some? {
        AdvanceIsLong(o.advance.value);
        assert rest + [] == rest;
        AdvanceRoundTrip(l, o.advance.value, [], |rest|);
      }
    }
  }

  lemma AdvanceIsLong(a: Advance)
    ensures |EncodeAdvance(a)| >= 3 * INT_SIZE
  {
  }

  // ----- what is refused

  /** An entry with a count in order is refused if it is longer than what is left, and taken over whole otherwise. */
  lemma EntryVerdict(l: Layout, head: nat, s: Bytes, left: int)
    requires left <= |s| && Counted(l, head, s)
    ensures var g, size := DecodeEntry(l, head, s, left), head + 4 + DecodeInt(s[head..]) * l.option;
            if left < size then g.Refused?
            else if !l.memory(size) then g.NoMemory?
            else g.Got? && g.used == size
  {
    hide DecodeInt, Blocks, ToInt, MallocSize;
    SmallSize(l, head, DecodeInt(s[head..]));
  }

  /** The head of an entry, and the three counts in front of all entries, are read without a look at the length. */
  lemma HeadUnchecked(l: Layout, head: nat, s: Bytes, left: int)
    requires left <= |s|
    ensures |s| < head + 4 ==> DecodeEntry(l, head, s, left) == Fault
    ensures 0 < left && |s| < 12 ==> DecodeAdvance(l, s, left) == Fault
    ensures 0 < left && |s| >= 12 && DecodeInt(s) == DecodeInt(s[4..]) == DecodeInt(s[8..]) == 0 ==>
              DecodeAdvance(l, s, left) == Got(Advance([], [], []), 12)
    ensures left <= 0 ==> DecodeAdvance(l, s, left) == Refused
  {
    hide DecodeInt;
  }

  predicate Starts(s: Bytes, left: int, p: Bytes) { |p| <= left <= |s| && s[..|p|] == p }

  /** The leading record is refused if and only if what is left does not start with the encoding of any record. */
  lemma BasicVerdict(l: Layout, s: Bytes, left: int)
    requires left <= |s|
    ensures var g := DecodeBasic(l, s, left);
            && (g.Got? ==> BasicFits(l, g.value) && Starts(s, left, EncodeBasic(g.value)))
            && (!g.Got? ==> g.Refused? && forall b :: BasicFits(l, b) ==> !Starts(s, left, EncodeBasic(b)))
  {
    hide DecodeInt, EncodeInt;
    var g := DecodeBasic(l, s, left);
    if g.Got? {
      IntCanonical(s);
      assert EncodeBasic(g.value) == s[..g.used];
    } else {
      forall b | BasicFits(l, b)
        ensures !Starts(s, left, EncodeBasic(b))
      {
        if Starts(s, left, EncodeBasic(b)) {
          var n := |EncodeBasic(b)|;
          assert s == EncodeBasic(b) + s[n..];
          BasicRoundTrip(l, b, s[n..], left);
          assert false;
        }
      }
    }
  }

  // ----- where everything stands

  predicate Holds(s: Bytes, at: nat, p: Bytes) { at + |p| <= |s| && s[at..at + |p|] == p }

  /** The signed number of 32 bits at a position, its least significant byte first. */
  function Number(s: Bytes, at: nat): int
    requires at + 4 <= |s|
  {
    var a: int, b: int, c: int, d: int := s[at], s[at + 1], s[at + 2], s[at + 3];
    var u := a + 256 * b + 65536 * c + 16777216 * d;
    if u < 0x8000_0000 then u else u - 0x1_0000_0000
  }

  predicate HoldsNumber(s: Bytes, at: nat, n: int) { at + 4 <= |s| && Number(s, at) == n }

  lemma NumberHeld(s: Bytes, at: nat, n: int)
    requires IsInt(n) && Holds(s, at, EncodeInt(n))
    ensures HoldsNumber(s, at, n)
  {
    hide EncodeInt;
    IntRoundTrip(n, []);
    var p := EncodeInt(n);
    assert p + [] == p;
    assert p[0] == s[at..at + 4][0] && p[1] == s[at..at + 4][1] && p[2] == s[at..at + 4][2] && p[3] == s[at..at + 4][3];
  }

  lemma HoldsApart(s: Bytes, at: nat, p: Bytes, q: Bytes)
    requires Holds(s, at, p + q)
    ensures Holds(s, at, p) && Holds(s, at + |p|, q)
  {
    assert s[at..at + |p + q|][..|p|] == p && s[at..at + |p + q|][|p|..] == q;
  }

  lemma {:induction false} BlockHeld(s: Bytes, at: nat, blocks: seq<Bytes>, size: nat, j: nat)
    requires Holds(s, at, Concat(blocks)) && AllOfSize(blocks, size) && j < |blocks|
    ensures j * size >= 0 && Holds(s, at + j * size, blocks[j])
    decreases j
  {
    hide Holds;
    HoldsApart(s, at, blocks[0], Concat(blocks[1..]));
    if j > 0 {
      Times(j, size);
      BlockHeld(s, at + size, blocks[1..], size, j - 1);
    }
  }

  /** All blocks stand one behind the other. */
  predicate BlocksHeld(s: Bytes, at: nat, blocks: seq<Bytes>, size: nat) {
    forall j :: 0 <= j < |blocks| ==> j * size >= 0 && Holds(s, at + j * size, blocks[j])
  }

  lemma AllBlocksHeld(s: Bytes, at: nat, blocks: seq<Bytes>, size: nat)
    requires Holds(s, at, Concat(blocks)) && AllOfSize(blocks, size)
    ensures BlocksHeld(s, at, blocks, size)
  {
    hide Holds;
    forall j | 0 <= j < |blocks|
      ensures j * size >= 0 && Holds(s, at + j * size, blocks[j])
    {
      BlockHeld(s, at, blocks, size, j);
    }
  }

  /** Behind the head of an entry stands the number of its options, and behind that the options. */
  predicate EntryHeld(l: Layout, head: nat, s: Bytes, at: nat, e: Entry) {
    && e.Entry? && Holds(s, at, e.head) && HoldsNumber(s, at + head, |e.options|)
    && BlocksHeld(s, at + head + 4, e.options, l.option)
  }

  lemma EncodedEntryHeld(l: Layout, head: nat, s: Bytes, at: nat, e: Entry)
    requires EntryFits(l, head, e) && Holds(s, at, EncodeEntry(e))
    ensures EntryHeld(l, head, s, at, e)
  {
    hide Holds, EncodeInt, HoldsNumber, BlocksHeld;
    HoldsApart(s, at, e.head, EncodeInt(|e.options|) + Concat(e.options));
    HoldsApart(s, at + head, EncodeInt(|e.options|), Concat(e.options));
    NumberHeld(s, at + head, |e.options|);
    AllBlocksHeld(s, at + head + 4, e.options, l.option);
  }

  /** The bytes of the first k entries. */
  function SizeOf(l: Layout, head: nat, es: seq<Entry>, k: nat): nat
    requires k <= |es| && AllWhole(es)
  {
    if k == 0 then 0
    else
      NotNegative(|es[k - 1].options|, l.option);
      SizeOf(l, head, es, k - 1) + head + 4 + |es[k - 1].options| * l.option
  }

  lemma NotNegative(a: nat, b: nat)
    ensures a * b >= 0
  {
  }

  lemma {:induction false} EntriesHeldUpTo(l: Layout, head: nat, s: Bytes, at: nat, es: seq<Entry>, k: nat)
    requires EntriesFit(l, head, es) && Holds(s, at, EncodeEntries(es)) && k <= |es| && AllWhole(es)
    ensures Holds(s, at + SizeOf(l, head, es, k), EncodeEntries(es[k..]))
    decreases k
  {
    hide Holds, EncodeEntry;
    if k == 0 {
      assert es[0..] == es;
    } else {
      EntriesHeldUpTo(l, head, s, at, es, k - 1);
      var rest := es[k - 1..];
      assert rest[0] == es[k - 1] && rest[1..] == es[k..];
      HoldsApart(s, at + SizeOf(l, head, es, k - 1), EncodeEntry(rest[0]), EncodeEntries(rest[1..]));
      EntryBytes(l, head, es[k - 1]);
    }
  }

  lemma EntryBytes(l: Layout, head: nat, e: Entry)
    requires EntryFits(l, head, e)
    ensures |EncodeEntry(e)| == head + 4 + |e.options| * l.option
  {
    ConcatSize(e.options, l.option);
  }

  /** Every entry stands behind those in front of it. */
  predicate EntriesHeld(l: Layout, head: nat, s: Bytes, at: nat, es: seq<Entry>)
    requires AllWhole(es)
  {
    forall k :: 0 <= k < |es| ==> EntryHeld(l, head, s, at + SizeOf(l, head, es, k), es[k])
  }

  lemma EncodedEntriesHeld(l: Layout, head: nat, s: Bytes, at: nat, es: seq<Entry>)
    requires EntriesFit(l, head, es) && Holds(s, at, EncodeEntries(es)) && AllWhole(es)
    ensures EntriesHeld(l, head, s, at, es) && |EncodeEntries(es)| == SizeOf(l, head, es, |es|)
  {
    hide Holds, EncodeEntry, EntryHeld, EntryFits;
    forall k | 0 <= k < |es|
      ensures EntryHeld(l, head, s, at + SizeOf(l, head, es, k), es[k])
    {
      EntriesHeldUpTo(l, head, s, at, es, k);
      var p := at + SizeOf(l, head, es, k);
      assert es[k..][0] == es[k];
      HoldsApart(s, p, EncodeEntry(es[k]), EncodeEntries(es[k..][1..]));
      EncodedEntryHeld(l, head, s, p, es[k]);
    }
    EntriesSize(l, head, es, 0);
    assert es[0..] == es;
  }

  lemma {:induction false} EntriesSize(l: Layout, head: nat, es: seq<Entry>, k: nat)
    requires EntriesFit(l, head, es) && AllWhole(es) && k <= |es|
    ensures SizeOf(l, head, es, k) + |EncodeEntries(es[k..])| == SizeOf(l, head, es, |es|)
    decreases |es| - k
  {
    hide EncodeEntry, EntryFits;
    if k < |es| {
      EntryBytes(l, head, es[k]);
      assert es[k..][0] == es[k] && es[k..][1..] == es[k + 1..];
      EntriesSize(l, head, es, k + 1);
    }
  }

  /** Three counts, then all operations, then all tasks, then all features. */
  predicate AdvanceHeld(l: Layout, s: Bytes, at: nat, a: Advance)
    requires AllWhole(a.operations) && AllWhole(a.tasks)
  {
    && HoldsNumber(s, at, |a.operations|) && HoldsNumber(s, at + 4, |a.tasks|) && HoldsNumber(s, at + 8, |a.features|)
    && var tasks := at + 12 + SizeOf(l, 4, a.operations, |a.operations|);
       var features := tasks + SizeOf(l, l.task, a.tasks, |a.tasks|);
       && EntriesHeld(l, 4, s, at + 12, a.operations) && EntriesHeld(l, l.task, s, tasks, a.tasks)
       && BlocksHeld(s, features, a.features, l.feature)
  }

  lemma CountsHeld(s: Bytes, at: nat, a: Advance)
    requires Holds(s, at, EncodeCounts(a)) && IsInt(|a.operations|) && IsInt(|a.tasks|) && IsInt(|a.features|)
    ensures HoldsNumber(s, at, |a.operations|) && HoldsNumber(s, at + 4, |a.tasks|) && HoldsNumber(s, at + 8, |a.features|)
  {
    hide Holds, EncodeInt, HoldsNumber;
    var n, m, k := EncodeInt(|a.operations|), EncodeInt(|a.tasks|), EncodeInt(|a.features|);
    HoldsApart(s, at, n, m + k);
    HoldsApart(s, at + 4, m, k);
    NumberHeld(s, at, |a.operations|);
    NumberHeld(s, at + 4, |a.tasks|);
    NumberHeld(s, at + 8, |a.features|);
  }

  lemma EncodedAdvanceHeld(l: Layout, s: Bytes, at: nat, a: Advance)
    requires AdvanceFits(l, a) && Holds(s, at, EncodeAdvance(a))
    ensures AllWhole(a.operations) && AllWhole(a.tasks) && AdvanceHeld(l, s, at, a)
  {
    hide Holds, EncodeCounts, HoldsNumber, BlocksHeld, EntriesHeld, SizeOf, EncodeEntries, Concat, EntriesFit, AllWhole,
         AllOfSize;
    FittingIsWhole(l, a);
    var os, ts, fs := EncodeEntries(a.operations), EncodeEntries(a.tasks), Concat(a.features);
    HoldsApart(s, at, EncodeCounts(a), os + (ts + fs));
    HoldsApart(s, at + 12, os, ts + fs);
    HoldsApart(s, at + 12 + |os|, ts, fs);
    CountsHeld(s, at, a);
    EncodedEntriesHeld(l, 4, s, at + 12, a.operations);
    EncodedEntriesHeld(l, l.task, s, at + 12 + |os|, a.tasks);
    AllBlocksHeld(s, at + 12 + |os| + |ts|, a.features, l.feature);
  }

  /**
   * The wire format: the type of the object, the record of that type, and then counts, operations, tasks and features. All
   * numbers have four bytes, the least significant one first.
   */
  lemma ObjectOnTheWire(l: Layout, o: Object)
    requires ObjectFits(l, o)
    ensures var s := EncodeObject(o);
            var at := if o.basic.Some? then 4 + |o.basic.value.record| else 0;
            && (o.basic.Some? ==> HoldsNumber(s, 0, o.basic.value.objectType) && Holds(s, 4, o.basic.value.record))
            && (o.advance.Some? ==>
                  var a := o.advance.value;
                  AllWhole(a.operations) && AllWhole(a.tasks) && AdvanceHeld(l, s, at, a))
  {
    hide EncodeInt, EncodeAdvance, AdvanceHeld, HoldsNumber, AdvanceFits;
    var s := EncodeObject(o);
    var p := if o.basic.Some? then EncodeBasic(o.basic.value) else [];
    var q := if o.advance.Some? then EncodeAdvance(o.advance.value) else [];
    assert Holds(s, 0, p + q);
    HoldsApart(s, 0, p, q);
    if o.basic.Some? {
      HoldsApart(s, 0, EncodeInt(o.basic.value.objectType), o.basic.value.record);
      NumberHeld(s, 0, o.basic.value.objectType);
    }
    if o.advance.Some? {
      EncodedAdvanceHeld(l, s, |p|, o.advance.value);
    }
  }
}
