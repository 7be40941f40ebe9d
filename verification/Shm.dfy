/**
 The shared-memory provider backend of the test suite: a first-fit allocator of single bytes, the packing
 of a 64-bit address into two 32-bit ids, and the client that unpacks it.
 */
module Shm {
  datatype Option<T> = None | Some(value: T)

  // ---------------------------------------------------------------- addresses

  const TWO32: nat := 0x1_0000_0000
  const TWO64: nat := 0x1_0000_0000_0000_0000

  datatype ChunkDescriptor = ChunkDescriptor(segment: nat, chunk: nat, len: nat)

  /** `data & 0xFFFFFFFF` and `(data >> 32) & 0xFFFFFFFF`, in arithmetic. */
  function Describe(data: nat): (d: ChunkDescriptor)
    requires data < TWO64
    ensures d.segment < TWO32 && d.chunk < TWO32
  {
    ChunkDescriptor(data / TWO32 % TWO32, data % TWO32, 1)
  }

  /** The address computed by `free`, and by `map(chunk)` on the result of `attach(segment)`: the two
      halves do not overlap, so `|` is a sum. */
  function Address(segment: nat, chunk: nat): (data: nat)
    requires segment < TWO32 && chunk < TWO32
    ensures data < TWO64
  {
    chunk + segment * TWO32
  }

  /** For every 64-bit address the client's mapping of the provider's descriptor is that address, and every
      descriptor of one byte describes the address it maps to. */
  lemma MapInvertsDescribe(data: nat, segment: nat, chunk: nat)
    requires data < TWO64 && segment < TWO32 && chunk < TWO32
    ensures Address(Describe(data).segment, Describe(data).chunk) == data
    ensures Describe(Address(segment, chunk)) == ChunkDescriptor(segment, chunk, 1)
  {
    assert Address(segment, chunk) / TWO32 == segment && Address(segment, chunk) % TWO32 == chunk;
  }

  /** The same on the machine words, with the operators of the source. */
  lemma MapInvertsDescribeBits(data: bv64)
    ensures var chunk := (data & 0xFFFFFFFF) as bv32;
            var segment := ((data >> 32) & 0xFFFFFFFF) as bv32;
            (chunk as bv64) | (((segment as bv64) << 32) & 0xFFFFFFFF00000000) == data
  {
  }

  // The operators of the source, bit by bit on naturals. A 64-bit left shift drops what leaves the word.

  function And(x: nat, y: nat): nat {
    if x == 0 || y == 0 then 0 else 2 * And(x / 2, y / 2) + if x % 2 == 1 && y % 2 == 1 then 1 else 0
  }

  function Or(x: nat, y: nat): nat {
    if x == 0 && y == 0 then 0 else 2 * Or(x / 2, y / 2) + if x % 2 == 1 || y % 2 == 1 then 1 else 0
  }

  function Shr(x: nat, k: nat): nat { if k == 0 then x else Shr(x / 2, k - 1) }

  function Up(x: nat, k: nat): nat { if k == 0 then x else 2 * Up(x, k - 1) }

  function Shl(x: nat, k: nat): nat { Up(x, k) % TWO64 }

  function Pow2(k: nat): (p: nat)
    ensures p >= 1
  {
    if k == 0 then 1 else 2 * Pow2(k - 1)
  }

  /** The low `k` bits. */
  function Low(x: nat, k: nat): (l: nat)
    ensures l < Pow2(k)
    ensures x == 0 ==> l == 0
  {
    if k == 0 then 0 else x % 2 + 2 * Low(x / 2, k - 1)
  }

  lemma {:induction false} Split(x: nat, k: nat)
    ensures x == Up(Shr(x, k), k) + Low(x, k)
  {
    if k > 0 { Split(x / 2, k - 1); }
  }

  lemma {:induction false} UpIsProduct(x: nat, k: nat)
    ensures Up(x, k) == Pow2(k) * x
  {
    if k > 0 {
      UpIsProduct(x, k - 1);
      Twice(Pow2(k - 1), x);
    }
  }

  lemma Twice(p: nat, x: nat)
    ensures 2 * (p * x) == (2 * p) * x
  {
  }

  /** A mask of `k` ones keeps the low `k` bits. */
  lemma {:induction false} AndMask(x: nat, k: nat)
    ensures And(x, Pow2(k) - 1) == Low(x, k)
  {
    if k > 0 { AndMask(x / 2, k - 1); }
  }

  lemma {:induction false} AndUp(x: nat, y: nat, k: nat)
    ensures And(Up(x, k), Up(y, k)) == Up(And(x, y), k)
  {
    if k > 0 { AndUp(x, y, k - 1); }
  }

  /** Numbers without common bits: one below `Pow2(k)` and a multiple of it. */
  lemma {:induction false} OrDisjoint(low: nat, high: nat, k: nat)
    requires low < Pow2(k)
    ensures Or(low, Up(high, k)) == low + Up(high, k)
  {
    if k == 0 { OrZero(high); } else { OrDisjoint(low / 2, high, k - 1); }
  }

  lemma {:induction false} OrZero(y: nat)
    ensures Or(0, y) == y
  {
    if y > 0 { OrZero(y / 2); }
  }

  lemma Pow2Of32()
    ensures Pow2(32) == TWO32
  {
    assert Pow2(8) == 0x100;
    assert Pow2(16) == 0x1_0000;
    assert Pow2(24) == 0x100_0000;
  }

  lemma HalfWord(x: nat, k: nat)
    requires Pow2(k) == TWO32
    ensures Up(x, k) == TWO32 * x && Shr(x, k) == x / TWO32 && Low(x, k) == x % TWO32
  {
    UpIsProduct(x, k);
    UpIsProduct(Shr(x, k), k);
    Split(x, k);
  }

  lemma DescribeAt(data: nat, k: nat, ones: nat)
    requires data < TWO64 && Pow2(k) == TWO32 && ones == TWO32 - 1
    ensures Describe(data) == ChunkDescriptor(And(Shr(data, k), ones), And(data, ones), 1)
  {
    HalfWord(data, k);
    HalfWord(Shr(data, k), k);
    AndMask(Shr(data, k), k);
    AndMask(data, k);
  }

  /** The descriptor is what the source computes with `&` and `>>`. */
  lemma DescribeBits(data: nat)
    requires data < TWO64
    ensures Describe(data) == ChunkDescriptor(And(Shr(data, 32), 0xFFFFFFFF), And(data, 0xFFFFFFFF), 1)
  {
    Pow2Of32();
    DescribeAt(data, 32, 0xFFFFFFFF);
  }

  /** Two `k`-bit halves joined with a mask of ones in the upper one. */
  lemma JoinHalves(segment: nat, chunk: nat, k: nat)
    requires segment < Pow2(k) && chunk < Pow2(k)
    ensures Or(chunk, And(Up(segment, k), Up(Pow2(k) - 1, k))) == chunk + Up(segment, k)
  {
    AndUp(segment, Pow2(k) - 1, k);
    AndMask(segment, k);
    LowOfSmall(segment, k);
    OrDisjoint(chunk, segment, k);
  }

  lemma {:induction false} LowOfSmall(x: nat, k: nat)
    requires x < Pow2(k)
    ensures Low(x, k) == x
  {
    if k > 0 { LowOfSmall(x / 2, k - 1); }
  }

  lemma AddressAt(segment: nat, chunk: nat, k: nat, mask: nat)
    requires segment < TWO32 && chunk < TWO32 && Pow2(k) == TWO32 && mask == TWO32 * (TWO32 - 1)
    ensures Address(segment, chunk) == Or(chunk, And(Shl(segment, k), mask))
  {
    HalfWord(segment, k);
    HalfWord(Pow2(k) - 1, k);
    JoinHalves(segment, chunk, k);
  }

  /** The address is what the source computes with `|`, `<<` and `&`. */
  lemma AddressBits(segment: nat, chunk: nat)
    requires segment < TWO32 && chunk < TWO32
    ensures Address(segment, chunk) == Or(chunk, And(Shl(segment, 32), 0xFFFFFFFF00000000))
  {
    Pow2Of32();
    AddressAt(segment, chunk, 32, 0xFFFFFFFF00000000);
  }

  /** `(int64_t)data - (int64_t)bytes`, modulo 2^64. */
  function Int64Diff(data: nat, bytes: nat): int {
    var d := (data - bytes) % TWO64;
    if d < TWO64 / 2 then d else d - TWO64
  }

  function AsInt64(x: nat): int
    requires x < TWO64
  {
    if x < TWO64 / 2 then x else x - TWO64
  }

  /** The wrapping difference is the signed difference of the two casts exactly when that one is an
      `int64_t`; otherwise the subtraction of the source overflows. */
  lemma Int64DiffExactly(data: nat, bytes: nat)
    requires data < TWO64 && bytes < TWO64
    ensures var d := AsInt64(data) - AsInt64(bytes);
            Int64Diff(data, bytes) == d <==> -(TWO64 / 2) <= d < TWO64 / 2
  {
    var d := AsInt64(data) - AsInt64(bytes);
    assert (data - bytes) % TWO64 == d % TWO64;
  }

  // ---------------------------------------------------------------- the allocator as a state machine

  datatype Pool = Pool(busy: seq<bool>, available: int)

  function FirstFree(busy: seq<bool>): (i: nat)
    ensures i <= |busy|
    ensures i < |busy| ==> !busy[i]
    ensures forall j | 0 <= j < i :: busy[j]
  {
    if busy == [] || !busy[0] then 0 else 1 + FirstFree(busy[1..])
  }

  function AllocStep(p: Pool): (Pool, Option<nat>) {
    var i := FirstFree(p.busy);
    if i < |p.busy| then (Pool(p.busy[i := true], p.available - 1), Some(i)) else (p, None)
  }

  function FreeStep(p: Pool, i: nat): Pool
    requires i < |p.busy|
  {
    Pool(p.busy[i := false], p.available + 1)
  }

  datatype Layout = Layout(size: nat, alignmentPow: nat)

  /** What `alloc` asserts of its layout. */
  predicate Admissible(l: Layout) { l.size == 1 && l.alignmentPow == 0 }

  /** `layout_for` leaves exactly the layouts `alloc` accepts, and nulls the others. */
  function LayoutFor(l: Layout): (r: Option<Layout>)
    ensures r == if Admissible(l) then Some(l) else None
  {
    if l.size != 1 || l.alignmentPow != 0 then None else Some(l)
  }

  /** A client asks for memory of some layout, or gives a byte back. */
  datatype Op = Request(layout: Layout) | Release(i: nat)

  function RequestStep(p: Pool, l: Layout): (Pool, Option<nat>) {
    if LayoutFor(l).Some? then AllocStep(p) else (p, None)
  }

  /** One operation, on the provider's state and on the client's own account of the bytes it holds. */
  function Step(p: Pool, live: set<nat>, op: Op): (r: (Pool, set<nat>))
    requires op.Release? ==> op.i < |p.busy|
    ensures |r.0.busy| == |p.busy|
  {
    match op
    case Request(l) =>
      var (p', got) := RequestStep(p, l);
      (p', if got.Some? then live + {got.value} else live)
    case Release(i) => (FreeStep(p, i), live - {i})
  }

  /** Every byte given back lies in the block, as `free` asserts. */
  predicate InRange(ops: seq<Op>, n: nat) {
    forall k | 0 <= k < |ops| && ops[k].Release? :: ops[k].i < n
  }

  function Run(p: Pool, live: set<nat>, ops: seq<Op>): (r: (Pool, set<nat>))
    requires InRange(ops, |p.busy|)
    ensures |r.0.busy| == |p.busy|
    decreases |ops|
  {
    if ops == [] then (p, live)
    else
      var (p', live') := Step(p, live, ops[0]);
      Run(p', live', ops[1..])
  }

  // ---------------------------------------------------------------- what keeps provider and client in step

  /** The flags are the client's account. */
  ghost predicate FlagsMatch(p: Pool, live: set<nat>) {
    forall i :: i in live <==> 0 <= i < |p.busy| && p.busy[i]
  }

  /** Flags, counter and account are in step. */
  ghost predicate Agrees(p: Pool, live: set<nat>) {
    FlagsMatch(p, live) && p.available + |live| == |p.busy|
  }

  predicate BadRelease(live: set<nat>, op: Op) { op.Release? && op.i !in live }

  /** Every byte given back is one the client holds at that moment. */
  ghost predicate Lawful(p: Pool, live: set<nat>, ops: seq<Op>)
    requires InRange(ops, |p.busy|)
    decreases |ops|
  {
    ops != [] ==>
      && !BadRelease(live, ops[0])
      && Lawful(Step(p, live, ops[0]).0, Step(p, live, ops[0]).1, ops[1..])
  }

  function BadReleases(p: Pool, live: set<nat>, ops: seq<Op>): (n: nat)
    requires InRange(ops, |p.busy|)
    ensures n == 0 <==> Lawful(p, live, ops)
    decreases |ops|
  {
    if ops == [] then 0
    else
      var (p', live') := Step(p, live, ops[0]);
      (if BadRelease(live, ops[0]) then 1 else 0) + BadReleases(p', live', ops[1..])
  }

  lemma StepDrift(p: Pool, live: set<nat>, op: Op)
    requires FlagsMatch(p, live) && (op.Release? ==> op.i < |p.busy|)
    ensures var (p', live') := Step(p, live, op);
            && FlagsMatch(p', live')
            && p'.available + |live'| == p.available + |live| + if BadRelease(live, op) then 1 else 0
  {
    match op
    case Request(l) => RequestDrift(p, live, l);
    case Release(i) => if i !in live { assert live - {i} == live; }
  }

  lemma RequestDrift(p: Pool, live: set<nat>, l: Layout)
    requires FlagsMatch(p, live)
    ensures var (p', live') := Step(p, live, Request(l));
            FlagsMatch(p', live') && p'.available + |live'| == p.available + |live|
  {
    var i := FirstFree(p.busy);
    if i < |p.busy| { assert i !in live && |live + {i}| == |live| + 1; }
  }

  /** The flags follow the account whatever the client does; the counter drifts by one with every byte given
      back that was not held. */
  lemma {:induction false} Drift(p: Pool, live: set<nat>, ops: seq<Op>)
    requires FlagsMatch(p, live) && InRange(ops, |p.busy|)
    ensures var (p', live') := Run(p, live, ops);
            && FlagsMatch(p', live')
            && p'.available + |live'| == p.available + |live| + BadReleases(p, live, ops)
    decreases |ops|
  {
    if ops != [] {
      StepDrift(p, live, ops[0]);
      var (p', live') := Step(p, live, ops[0]);
      Drift(p', live', ops[1..]);
    }
  }

  /** Over every run: provider and client end in step if and only if the client gives back only what it
      holds. */
  lemma RunInStep(p: Pool, live: set<nat>, ops: seq<Op>)
    requires Agrees(p, live) && InRange(ops, |p.busy|)
    ensures Agrees(Run(p, live, ops).0, Run(p, live, ops).1) <==> Lawful(p, live, ops)
  {
    Drift(p, live, ops);
  }

  lemma {:induction false} BadReleasesSplit(p: Pool, live: set<nat>, ops: seq<Op>, k: nat)
    requires k <= |ops| && InRange(ops, |p.busy|)
    ensures BadReleases(p, live, ops[..k]) <= BadReleases(p, live, ops)
    decreases |ops|
  {
    if k > 0 {
      var (p', live') := Step(p, live, ops[0]);
      assert ops[..k][1..] == ops[1..][..k - 1];
      BadReleasesSplit(p', live', ops[1..], k - 1);
    }
  }

  /** And then they have been in step all along: no later operation repairs a bad one. */
  lemma InStepThroughout(p: Pool, live: set<nat>, ops: seq<Op>, k: nat)
    requires Agrees(p, live) && InRange(ops, |p.busy|) && k <= |ops|
    requires Agrees(Run(p, live, ops).0, Run(p, live, ops).1)
    ensures Agrees(Run(p, live, ops[..k]).0, Run(p, live, ops[..k]).1)
  {
    RunInStep(p, live, ops);
    BadReleasesSplit(p, live, ops, k);
    RunInStep(p, live, ops[..k]);
  }

  /** What a client relies on at every point of a run: free bytes and live bytes add up, a byte handed out is
      not live and is the lowest such byte, allocation fails only for a wrong layout or when nothing is
      available, and a byte given back was marked as handed out. */
  ghost predicate AlwaysSafe(p: Pool, live: set<nat>, ops: seq<Op>)
    requires InRange(ops, |p.busy|)
    decreases |ops|
  {
    && p.available + |live| == |p.busy|
    && (ops != [] ==>
        && SafeStep(p, live, ops[0])
        && AlwaysSafe(Step(p, live, ops[0]).0, Step(p, live, ops[0]).1, ops[1..]))
  }

  ghost predicate SafeStep(p: Pool, live: set<nat>, op: Op)
    requires op.Release? ==> op.i < |p.busy|
  {
    match op
    case Request(l) =>
      var (p', r) := RequestStep(p, l);
      && (r == None <==> p.available == 0 || l != Layout(1, 0))
      && (r == None ==> p' == p)
      && (r.Some? ==> r.value < |p.busy| && r.value !in live && forall j | 0 <= j < r.value :: j in live)
    case Release(i) => p.busy[i]
  }

  function Range(n: nat): (s: set<nat>)
    ensures forall i :: i in s <==> 0 <= i < n
    ensures |s| == n
  {
    if n == 0 then {} else Range(n - 1) + {n - 1}
  }

  lemma SubsetSize(a: set<nat>, b: set<nat>)
    requires a <= b
    ensures |a| <= |b| && (|a| == |b| <==> a == b)
  {
    assert |b| == |a| + |b - a| by { assert b == a + (b - a); }
    if |a| == |b| { assert b - a == {}; }
  }

  /** Nothing is available exactly when every flag is set. */
  lemma FullIffNoneAvailable(p: Pool, live: set<nat>)
    requires Agrees(p, live)
    ensures 0 <= p.available <= |p.busy|
    ensures p.available == 0 <==> FirstFree(p.busy) == |p.busy|
  {
    SubsetSize(live, Range(|p.busy|));
    var i := FirstFree(p.busy);
    if i < |p.busy| { assert i in Range(|p.busy|) && i !in live; }
    if i == |p.busy| { assert live == Range(|p.busy|); }
  }

  /** A request is granted exactly if a byte is available and the layout is that of one unaligned byte. */
  lemma RequestGranted(p: Pool, live: set<nat>, l: Layout)
    requires Agrees(p, live)
    ensures RequestStep(p, l).1.Some? <==> p.available != 0 && l == Layout(1, 0)
  {
    FullIffNoneAvailable(p, live);
  }

  /** From any state in step (in particular from cleared flags), every lawful run is safe throughout. */
  lemma {:induction false} RunSafe(p: Pool, live: set<nat>, ops: seq<Op>)
    requires Agrees(p, live) && InRange(ops, |p.busy|) && Lawful(p, live, ops)
    ensures AlwaysSafe(p, live, ops)
    decreases |ops|
  {
    if ops != [] {
      FullIffNoneAvailable(p, live);
      StepDrift(p, live, ops[0]);
      RunSafe(Step(p, live, ops[0]).0, Step(p, live, ops[0]).1, ops[1..]);
    }
  }

  lemma Cleared(n: nat)
    ensures Agrees(Pool(seq(n, _ => false), n), {})
  {
  }

  /** The bytes handed out for the requests of a run, in order. */
  function Handed(p: Pool, live: set<nat>, ops: seq<Op>): seq<Option<nat>>
    requires InRange(ops, |p.busy|)
    decreases |ops|
  {
    if ops == [] then []
    else
      var (p', live') := Step(p, live, ops[0]);
      (if ops[0].Request? then [RequestStep(p, ops[0].layout).1] else []) + Handed(p', live', ops[1..])
  }

  /** Runs go operation by operation, and every request is answered in the state it meets. */
  lemma {:induction false} RunSnoc(p: Pool, live: set<nat>, ops: seq<Op>, op: Op)
    requires InRange(ops + [op], |p.busy|)
    ensures InRange(ops, |p.busy|) && (op.Release? ==> op.i < |p.busy|)
    ensures var (p', live') := Run(p, live, ops);
            && Run(p, live, ops + [op]) == Step(p', live', op)
            && Handed(p, live, ops + [op]) ==
               Handed(p, live, ops) + if op.Request? then [RequestStep(p', op.layout).1] else []
    decreases |ops|
  {
    assert (ops + [op])[|ops|] == op;
    assert forall k | 0 <= k < |ops| :: (ops + [op])[k] == ops[k];
    if ops == [] {
      assert ops + [op] == [op] && [op][1..] == [];
      assert Run(p, live, [op]) == Run(Step(p, live, op).0, Step(p, live, op).1, []);
    } else {
      assert (ops + [op])[1..] == ops[1..] + [op];
      var (p1, live1) := Step(p, live, ops[0]);
      RunSnoc(p1, live1, ops[1..], op);
    }
  }

  // ---------------------------------------------------------------- the backend as it runs

  class Backend {
    /** Address of `bytes[0]`. */
    const bytes: nat
    const busyFlags: array<bool>
    var bytesAvailable: int

    /** The block lies in the address space, and its size fits the loop counter. */
    ghost predicate Placed() {
      busyFlags.Length < 0x8000_0000 && bytes + busyFlags.Length <= TWO64
    }

    /** The flags are taken to be cleared; `new bool[size]` leaves them indeterminate in C++. */
    constructor (bytes: nat, size: nat)
      requires size < 0x8000_0000 && bytes + size <= TWO64
      ensures Placed() && State() == Pool(seq(size, _ => false), size) && this.bytes == bytes
      ensures fresh(busyFlags)
    {
      this.bytes := bytes;
      busyFlags := new bool[size](_ => false);
      bytesAvailable := size;
      new;
      assert busyFlags[..] == seq(size, _ => false);
    }

    function State(): Pool
      reads this, busyFlags
    {
      Pool(busyFlags[..], bytesAvailable)
    }

    /** `alloc`; the requirement on the layout is what the source asserts. */
    method Alloc(layout: Layout) returns (r: Option<ChunkDescriptor>)
      requires Placed() && Admissible(layout)
      modifies this, busyFlags
      ensures var (p', i) := AllocStep(old(State()));
              State() == p' && r == if i.Some? then Some(Describe(bytes + i.value)) else None
    {
      var i := 0;
      while i < busyFlags.Length
        invariant 0 <= i <= busyFlags.Length
        invariant forall j | 0 <= j < i :: busyFlags[j]
        invariant State() == old(State())
      {
        if !busyFlags[i] {
          busyFlags[i] := true;
          bytesAvailable := bytesAvailable - 1;
          return Some(Describe(bytes + i));
        }
        i := i + 1;
      }
      r := None;
    }

    /** `free`; the requirement is what the source asserts. */
    method Free(chunk: ChunkDescriptor)
      requires chunk.len == 1 && chunk.segment < TWO32 && chunk.chunk < TWO32
      requires 0 <= Int64Diff(Address(chunk.segment, chunk.chunk), bytes) < busyFlags.Length
      modifies this, busyFlags
      ensures State() == FreeStep(old(State()), Int64Diff(Address(chunk.segment, chunk.chunk), bytes))
    {
      var data := Address(chunk.segment, chunk.chunk);
      var index := Int64Diff(data, bytes);
      busyFlags[index] := false;
      bytesAvailable := bytesAvailable + 1;
    }

    /** What `alloc` handed out for byte `i`, `free` takes for byte `i`, and the client maps to it. */
    lemma DescriptorOf(i: nat)
      requires Placed() && i < busyFlags.Length
      ensures var d := Describe(bytes + i);
              Address(d.segment, d.chunk) == bytes + i && Int64Diff(Address(d.segment, d.chunk), bytes) == i
    {
      MapInvertsDescribe(bytes + i, 0, 0);
    }
  }

  /** Provider and client name the same byte of the block: the address the client maps the descriptor to is
      that of byte `i`. */
  predicate SameByte(bytes: nat, size: nat, d: Option<ChunkDescriptor>, i: Option<nat>) {
    if i.None? then d.None?
    else
      && i.value < size && d.Some? && d.value.segment < TWO32 && d.value.chunk < TWO32
      && Address(d.value.segment, d.value.chunk) == bytes + i.value
  }

  predicate SameBytes(bytes: nat, size: nat, ds: seq<Option<ChunkDescriptor>>, xs: seq<Option<nat>>) {
    |ds| == |xs| && forall k | 0 <= k < |ds| :: SameByte(bytes, size, ds[k], xs[k])
  }

  /** One operation of a client. */
  method Perform(b: Backend, op: Op, ghost live: set<nat>) returns (d: Option<ChunkDescriptor>)
    requires b.Placed() && (op.Release? ==> op.i < b.busyFlags.Length)
    modifies b, b.busyFlags
    ensures b.State() == Step(old(b.State()), live, op).0
    ensures op.Request? ==> SameByte(b.bytes, b.busyFlags.Length, d, RequestStep(old(b.State()), op.layout).1)
  {
    d := None;
    match op {
      case Request(layout) =>
        ghost var i := RequestStep(b.State(), layout).1;
        if i.Some? { b.DescriptorOf(i.value); }
        var l := LayoutFor(layout);
        if l.Some? { d := b.Alloc(l.value); }
      case Release(i) =>
        b.DescriptorOf(i);
        b.Free(Describe(b.bytes + i));
    }
  }

  /** A client's run against the backend. It goes through the states of `Run`, whoever holds what; every
      descriptor given out names the byte `Run` hands out; and if provider and client start in step they
      end in step if and only if the client gives back only what it holds. */
  method RunClient(b: Backend, ops: seq<Op>, ghost live: set<nat>) returns (given: seq<Option<ChunkDescriptor>>)
    requires b.Placed() && InRange(ops, b.busyFlags.Length)
    modifies b, b.busyFlags
    ensures b.State() == Run(old(b.State()), live, ops).0
    ensures SameBytes(b.bytes, b.busyFlags.Length, given, Handed(old(b.State()), live, ops))
    ensures Agrees(old(b.State()), live) ==>
            (Agrees(b.State(), Run(old(b.State()), live, ops).1) <==> Lawful(old(b.State()), live, ops))
  {
    ghost var p0, live', handed := b.State(), live, [];
    given := [];
    var k := 0;
    while k < |ops|
      invariant 0 <= k <= |ops| && InRange(ops[k..], b.busyFlags.Length)
      invariant Run(b.State(), live', ops[k..]) == Run(p0, live, ops)
      invariant handed + Handed(b.State(), live', ops[k..]) == Handed(p0, live, ops)
      invariant SameBytes(b.bytes, b.busyFlags.Length, given, handed)
    {
      assert ops[k..][1..] == ops[k + 1..];
      ghost var p := b.State();
      var d := Perform(b, ops[k], live');
      live' := Step(p, live', ops[k]).1;
      if ops[k].Request? {
        given, handed := given + [d], handed + [RequestStep(p, ops[k].layout).1];
      }
      k := k + 1;
    }
    if Agrees(p0, live) { RunInStep(p0, live, ops); }
  }

  /** The same from a new backend with cleared flags, where nothing is held; a lawful run is then safe
      throughout. */
  method RunFresh(bytes: nat, size: nat, ops: seq<Op>) returns (b: Backend, given: seq<Option<ChunkDescriptor>>)
    requires size < 0x8000_0000 && bytes + size <= TWO64 && InRange(ops, size)
    ensures var start := Pool(seq(size, _ => false), size);
            && b.State() == Run(start, {}, ops).0 && SameBytes(bytes, size, given, Handed(start, {}, ops))
            && (Agrees(b.State(), Run(start, {}, ops).1) <==> Lawful(start, {}, ops))
            && (Lawful(start, {}, ops) ==> AlwaysSafe(start, {}, ops))
  {
    b := new Backend(bytes, size);
    Cleared(size);
    ghost var start := b.State();
    if Lawful(start, {}, ops) { RunSafe(start, {}, ops); }
    given := RunClient(b, ops, {});
  }
}
