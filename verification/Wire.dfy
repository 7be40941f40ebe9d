/**
 The foreign half of the codec: result codes, the primitive readers and writers of the zenoh-c
 serializer, and the bytes the repository's binary format test pins down (little-endian, two's
 complement, one-byte small lengths). Lengths are unsigned LEB128 (section 7.6 of DWARF Version 5),
 bounded by a 64-bit `size_t`.
 */
module Wire {

  /** Codes of `ZResult` the C++ layer distinguishes; any other C code is `Z_OTHER`. */
  datatype ZResult = Z_OK | Z_EDESERIALIZE | Z_OTHER(code: nat)

  /** At most one call of the foreign library fails although it should not. A run stops at its first
      failing call, so this covers every failing run: `FaultAt(mark, code)` makes the call whose buffer
      has length `mark` return `code`. (For a reader this is the number of bytes left, for a writer the
      number of bytes already written; every successful primitive changes it.) */
  datatype Fault = NoFault | FaultAt(mark: nat, code: Failure)

  type Failure = code: ZResult | code != Z_OK witness Z_EDESERIALIZE

  /** The library as one run of an overload meets it. `clears` says that a string overload goes on after a
      failing call, as it does when it does not throw, and so assigns the empty string to its target. */
  datatype Lib = Lib(fault: Fault, clears: bool)
  {
    function CodeAt(n: nat): ZResult {
      if fault.FaultAt? && n == fault.mark then fault.code else Z_OK
    }
  }

  const Reliable := Lib(NoFault, false)

  type byte = x: int | 0 <= x < 256

  const SIZE_LIMIT: nat := 0x1_0000_0000_0000_0000

  // ---------------------------------------------------------------- fixed-width integers

  datatype Width = W8 | W16 | W32 | W64
  {
    function Bytes(): (n: nat)
      ensures n >= 1
    {
      match this case W8 => 1 case W16 => 2 case W32 => 4 case W64 => 8
    }

    /** Number of values of this width; always even. */
    function Span(): (n: nat)
      ensures n == Pow256(Bytes())
      ensures n % 2 == 0
    {
      assert Pow256(1) == 256 * Pow256(0);
      assert Pow256(2) == 256 * Pow256(1);
      assert Pow256(3) == 256 * Pow256(2);
      assert Pow256(4) == 256 * Pow256(3);
      assert Pow256(8) == 256 * Pow256(7);
      Pow256(Bytes())
    }
  }

  function Pow256(w: nat): (p: nat)
    ensures p >= 1
  {
    if w == 0 then 1 else 256 * Pow256(w - 1)
  }

  function LeBytes(n: nat, w: nat): (bs: seq<byte>)
    ensures |bs| == w
  {
    if w == 0 then [] else [n % 256] + LeBytes(n / 256, w - 1)
  }

  function LeValue(bs: seq<byte>): (n: nat)
    ensures n < Pow256(|bs|)
  {
    if bs == [] then 0 else bs[0] + 256 * LeValue(bs[1..])
  }

  lemma {:induction false} LeRoundTrip(n: nat, w: nat)
    requires n < Pow256(w)
    ensures LeValue(LeBytes(n, w)) == n
  {
    if w > 0 {
      LeRoundTrip(n / 256, w - 1);
      assert LeBytes(n, w)[1..] == LeBytes(n / 256, w - 1);
    }
  }

  // ---------------------------------------------------------------- unsigned LEB128

  datatype Read<T> = Got(v: T, rest: seq<byte>) | Bad(code: ZResult)

  function Pow128(k: nat): (p: nat)
    ensures p >= 1
  {
    if k == 0 then 1 else 128 * Pow128(k - 1)
  }

  function LebBytes(n: nat): (bs: seq<byte>)
    ensures |bs| >= 1
  {
    if n < 128 then [n] else [n % 128 + 128] + LebBytes(n / 128)
  }

  /** Reads at most `budget` groups of seven bits. */
  function LebRead(bs: seq<byte>, budget: nat): (r: Read<nat>)
    ensures r.Bad? ==> r.code == Z_EDESERIALIZE
  {
    if bs == [] || budget == 0 then Bad(Z_EDESERIALIZE)
    else if bs[0] < 128 then Got(bs[0], bs[1..])
    else
      match LebRead(bs[1..], budget - 1)
      case Bad(code) => Bad(code)
      case Got(n, rest) => Got(bs[0] - 128 + 128 * n, rest)
  }

  lemma {:induction false} LebRoundTrip(n: nat, budget: nat, rest: seq<byte>)
    requires 1 <= budget && n < Pow128(budget)
    ensures LebRead(LebBytes(n) + rest, budget) == Got(n, rest)
  {
    var bs := LebBytes(n) + rest;
    if n < 128 {
      assert bs[1..] == rest;
    } else {
      assert Pow128(1) == 128 * Pow128(0);
      LebRoundTrip(n / 128, budget - 1, rest);
      assert bs[1..] == LebBytes(n / 128) + rest;
    }
  }

  lemma {:induction false} LebExtension(bs: seq<byte>, budget: nat, tail: seq<byte>)
    requires LebRead(bs, budget).Got?
    ensures LebRead(bs + tail, budget) == Got(LebRead(bs, budget).v, LebRead(bs, budget).rest + tail)
  {
    assert (bs + tail)[1..] == bs[1..] + tail;
    if bs[0] >= 128 {
      LebExtension(bs[1..], budget - 1, tail);
    }
  }

  lemma {:induction false} LebRetraction(bs: seq<byte>, budget: nat, m: nat)
    requires LebRead(bs, budget).Got? && m <= |LebRead(bs, budget).rest|
    ensures m <= |bs|
    ensures var r := LebRead(bs, budget);
            LebRead(bs[..|bs| - m], budget) == Got(r.v, r.rest[..|r.rest| - m])
  {
    LebSuffix(bs, budget);
    var cut := bs[..|bs| - m];
    assert cut[0] == bs[0] && cut[1..] == bs[1..][..|bs[1..]| - m];
    if bs[0] >= 128 {
      LebRetraction(bs[1..], budget - 1, m);
    }
  }

  lemma {:induction false} LebSuffix(bs: seq<byte>, budget: nat)
    requires LebRead(bs, budget).Got?
    ensures var rest := LebRead(bs, budget).rest;
            |rest| < |bs| && rest == bs[|bs| - |rest|..]
  {
    if bs[0] >= 128 {
      LebSuffix(bs[1..], budget - 1);
    }
  }

  /** Ten groups hold any 64-bit length. */
  const LEB_GROUPS: nat := 10

  lemma LebGroupsSuffice()
    ensures SIZE_LIMIT <= Pow128(LEB_GROUPS)
  {
    assert Pow128(2) == 0x4000;
    assert Pow128(4) == 128 * (128 * Pow128(2));
    assert Pow128(6) == 128 * (128 * Pow128(4));
    assert Pow128(8) == 128 * (128 * Pow128(6));
    assert Pow128(10) == 128 * (128 * Pow128(8));
  }

  /** `ze_deserializer_deserialize_sequence_length`, without faults. */
  function LenRead(bs: seq<byte>): (r: Read<nat>)
    ensures r.Bad? ==> r.code == Z_EDESERIALIZE
    ensures r.Got? ==> r.v < SIZE_LIMIT
  {
    match LebRead(bs, LEB_GROUPS)
    case Bad(code) => Bad(code)
    case Got(n, rest) => if n < SIZE_LIMIT then Got(n, rest) else Bad(Z_EDESERIALIZE)
  }

  // ---------------------------------------------------------------- primitives

  /** The scalar and string overloads. Floats are raw 32/64-bit patterns. */
  datatype Prim = Unsigned(w: Width) | Signed(w: Width) | Float32 | Float64 | Boolean | Text

  datatype PVal = Num(n: int) | Flag(b: bool) | Chars(s: seq<byte>)

  predicate PrimFits(p: Prim, v: PVal) {
    match p
    case Unsigned(w) => v.Num? && 0 <= v.n < w.Span()
    case Signed(w) => v.Num? && -(w.Span() / 2) <= v.n < w.Span() / 2
    case Float32 => v.Num? && 0 <= v.n < Pow256(4)
    case Float64 => v.Num? && 0 <= v.n < Pow256(8)
    case Boolean => v.Flag?
    case Text => v.Chars? && |v.s| < SIZE_LIMIT
  }

  function PrimDefault(p: Prim): (v: PVal)
    ensures PrimFits(p, v)
  {
    match p
    case Boolean => Flag(false)
    case Text => Chars([])
    case _ => Num(0)
  }

  function TwosComplement(n: int, w: Width): (u: nat)
    requires -(w.Span() / 2) <= n < w.Span() / 2
    ensures u < w.Span()
  {
    if n < 0 then n + w.Span() else n
  }

  function FromTwosComplement(u: nat, w: Width): (n: int)
    requires u < w.Span()
    ensures -(w.Span() / 2) <= n < w.Span() / 2
  {
    if u < w.Span() / 2 then u else u - w.Span()
  }

  function PrimBytes(p: Prim, v: PVal): (bs: seq<byte>)
    requires PrimFits(p, v)
    ensures |bs| >= 1
  {
    match p
    case Unsigned(w) => LeBytes(v.n, w.Bytes())
    case Signed(w) => LeBytes(TwosComplement(v.n, w), w.Bytes())
    case Float32 => LeBytes(v.n, 4)
    case Float64 => LeBytes(v.n, 8)
    case Boolean => [if v.b then 1 else 0]
    case Text => LebBytes(|v.s|) + v.s
  }

  function FixedRead(w: nat, bs: seq<byte>): (r: Read<nat>)
    ensures r.Bad? ==> r.code == Z_EDESERIALIZE
    ensures r.Got? ==> r.v < Pow256(w)
  {
    if |bs| < w then Bad(Z_EDESERIALIZE) else Got(LeValue(bs[..w]), bs[w..])
  }

  function PrimRead(p: Prim, bs: seq<byte>): (r: Read<PVal>)
    ensures r.Bad? ==> r.code == Z_EDESERIALIZE
    ensures r.Got? ==> PrimFits(p, r.v)
  {
    match p
    case Unsigned(w) =>
      (match FixedRead(w.Bytes(), bs) case Bad(c) => Bad(c) case Got(u, rest) => Got(Num(u), rest))
    case Signed(w) =>
      (match FixedRead(w.Bytes(), bs)
       case Bad(c) => Bad(c) case Got(u, rest) => Got(Num(FromTwosComplement(u, w)), rest))
    case Float32 => (match FixedRead(4, bs) case Bad(c) => Bad(c) case Got(u, rest) => Got(Num(u), rest))
    case Float64 => (match FixedRead(8, bs) case Bad(c) => Bad(c) case Got(u, rest) => Got(Num(u), rest))
    case Boolean =>
      if bs == [] || bs[0] > 1 then Bad(Z_EDESERIALIZE) else Got(Flag(bs[0] == 1), bs[1..])
    case Text =>
      match LenRead(bs)
      case Bad(c) => Bad(c)
      case Got(n, rest) =>
        if |rest| < n then Bad(Z_EDESERIALIZE) else Got(Chars(rest[..n]), rest[n..])
  }

  lemma LeStep(n: nat, w: nat, b: byte, m: nat)
    requires w > 0 && n == b + 256 * m
    ensures LeBytes(n, w) == [b] + LeBytes(m, w - 1)
  {
    assert n % 256 == b && n / 256 == m;
  }

  lemma Spans()
    ensures Pow256(2) == W16.Span() == 0x1_0000 && Pow256(4) == W32.Span() == 0x1_0000_0000
  {
    assert Pow256(2) == 0x1_0000;
    assert Pow256(4) == 256 * (256 * Pow256(2));
  }

  lemma LeTwo(n: nat, b0: byte, b1: byte)
    requires n == b0 + 256 * b1
    ensures LeBytes(n, 2) == [b0, b1]
  {
    LeStep(n, 2, b0, b1);
    LeStep(b1, 1, b1, 0);
  }

  lemma LeFour(n: nat, b0: byte, b1: byte, b2: byte, b3: byte)
    requires n == b0 + 256 * (b1 + 256 * (b2 + 256 * b3))
    ensures LeBytes(n, 4) == [b0, b1, b2, b3]
  {
    LeStep(n, 4, b0, b1 + 256 * (b2 + 256 * b3));
    LeStep(b1 + 256 * (b2 + 256 * b3), 3, b1, b2 + 256 * b3);
    LeTwo(b2 + 256 * b3, b2, b3);
  }

  /** The bytes the repository's binary format test expects for primitives of four bytes. */
  lemma PinnedWords()
    ensures PinnedAs(Signed(W32), Num(1234566), [134, 214, 18, 0])
    ensures PinnedAs(Signed(W32), Num(-49245), [163, 63, 255, 255])
    ensures PinnedAs(Float32, Num(0x449A4000), [0, 64, 154, 68])
  {
    Spans();
    LeFour(1234566, 134, 214, 18, 0);
    LeFour(4294918051, 163, 63, 255, 255);
    LeFour(0x449A4000, 0, 64, 154, 68);
  }

  /** And for the shorter ones. */
  lemma PinnedBytes()
    ensures PinnedAs(Unsigned(W16), Num(500), [244, 1])
    ensures PinnedAs(Signed(W16), Num(10), [10, 0])
    ensures PinnedAs(Signed(W16), Num(-10000), [240, 216])
    ensures PinnedAs(Text, Chars([116, 101, 115, 116]), [4, 116, 101, 115, 116])
    ensures PinnedAs(Text, Chars([115, 49]), [2, 115, 49])
    ensures PinnedAs(Text, Chars([115, 50]), [2, 115, 50])
  {
    Spans();
    LeTwo(500, 244, 1);
    LeTwo(10, 10, 0);
    LeTwo(55536, 240, 216);
  }

  predicate PinnedAs(p: Prim, v: PVal, bs: seq<byte>) {
    PrimFits(p, v) && PrimBytes(p, v) == bs
  }

  // ---------------------------------------------------------------- their laws

  lemma FixedRoundTrip(n: nat, w: nat, rest: seq<byte>)
    requires n < Pow256(w)
    ensures FixedRead(w, LeBytes(n, w) + rest) == Got(n, rest)
  {
    LeRoundTrip(n, w);
    var bs := LeBytes(n, w) + rest;
    assert bs[..w] == LeBytes(n, w) && bs[w..] == rest;
  }

  lemma LenRoundTrip(n: nat, rest: seq<byte>)
    requires n < SIZE_LIMIT
    ensures LenRead(LebBytes(n) + rest) == Got(n, rest)
  {
    LebGroupsSuffice();
    LebRoundTrip(n, LEB_GROUPS, rest);
  }

  lemma PrimRoundTrip(p: Prim, v: PVal, rest: seq<byte>)
    requires PrimFits(p, v)
    ensures PrimRead(p, PrimBytes(p, v) + rest) == Got(v, rest)
  {
    match p
    case Unsigned(w) => FixedRoundTrip(v.n, w.Bytes(), rest);
    case Signed(w) => FixedRoundTrip(TwosComplement(v.n, w), w.Bytes(), rest);
    case Float32 => FixedRoundTrip(v.n, 4, rest);
    case Float64 => FixedRoundTrip(v.n, 8, rest);
    case Boolean =>
    case Text =>
      LenRoundTrip(|v.s|, v.s + rest);
      assert LebBytes(|v.s|) + v.s + rest == LebBytes(|v.s|) + (v.s + rest);
      assert (v.s + rest)[..|v.s|] == v.s && (v.s + rest)[|v.s|..] == rest;
  }

  lemma LenExtension(bs: seq<byte>, tail: seq<byte>)
    requires LenRead(bs).Got?
    ensures LenRead(bs + tail) == Got(LenRead(bs).v, LenRead(bs).rest + tail)
  {
    LebExtension(bs, LEB_GROUPS, tail);
  }

  lemma FixedExtension(w: nat, bs: seq<byte>, tail: seq<byte>)
    requires w <= |bs|
    ensures FixedRead(w, bs + tail) == Got(LeValue(bs[..w]), bs[w..] + tail)
  {
    assert (bs + tail)[..w] == bs[..w] && (bs + tail)[w..] == bs[w..] + tail;
  }

  /** A successful primitive read does not look past the bytes it consumes. */
  lemma PrimExtension(p: Prim, bs: seq<byte>, tail: seq<byte>)
    requires PrimRead(p, bs).Got?
    ensures PrimRead(p, bs + tail) == Got(PrimRead(p, bs).v, PrimRead(p, bs).rest + tail)
  {
    match p
    case Unsigned(w) => FixedExtension(w.Bytes(), bs, tail);
    case Signed(w) => FixedExtension(w.Bytes(), bs, tail);
    case Float32 => FixedExtension(4, bs, tail);
    case Float64 => FixedExtension(8, bs, tail);
    case Boolean => assert (bs + tail)[1..] == bs[1..] + tail;
    case Text =>
      LenExtension(bs, tail);
      var n, rest := LenRead(bs).v, LenRead(bs).rest;
      assert (rest + tail)[..n] == rest[..n] && (rest + tail)[n..] == rest[n..] + tail;
  }

  /** What is left after a primitive read is a proper suffix: every primitive consumes a byte. */
  lemma PrimSuffix(p: Prim, bs: seq<byte>)
    requires PrimRead(p, bs).Got?
    ensures var rest := PrimRead(p, bs).rest;
            |rest| < |bs| && rest == bs[|bs| - |rest|..]
  {
    if p.Text? {
      LebSuffix(bs, LEB_GROUPS);
    }
  }

  /** The converse of extension: a successful primitive read does not need the bytes it leaves. */
  lemma PrimRetraction(p: Prim, bs: seq<byte>, m: nat)
    requires PrimRead(p, bs).Got? && m <= |PrimRead(p, bs).rest|
    ensures m <= |bs|
    ensures var r := PrimRead(p, bs);
            PrimRead(p, bs[..|bs| - m]) == Got(r.v, r.rest[..|r.rest| - m])
  {
    match p
    case Unsigned(w) => FixedRetraction(w.Bytes(), bs, m);
    case Signed(w) => FixedRetraction(w.Bytes(), bs, m);
    case Float32 => FixedRetraction(4, bs, m);
    case Float64 => FixedRetraction(8, bs, m);
    case Boolean => assert bs[..|bs| - m][1..] == bs[1..][..|bs| - 1 - m];
    case Text =>
      LebRetraction(bs, LEB_GROUPS, m);
      CutTail(LenRead(bs).rest, LenRead(bs).v, m);
  }

  lemma CutTail(bs: seq<byte>, n: nat, m: nat)
    requires n + m <= |bs|
    ensures bs[..|bs| - m][..n] == bs[..n] && bs[..|bs| - m][n..] == bs[n..][..|bs| - n - m]
  {
  }

  lemma FixedRetraction(w: nat, bs: seq<byte>, m: nat)
    requires w + m <= |bs|
    ensures FixedRead(w, bs[..|bs| - m]) == Got(LeValue(bs[..w]), bs[w..][..|bs| - w - m])
  {
    var cut := bs[..|bs| - m];
    assert cut[..w] == bs[..w] && cut[w..] == bs[w..][..|bs| - w - m];
  }

  // ---------------------------------------------------------------- reading and writing again

  /** `enc` is the shortest way to write what was read between `bs` and `rest`, and the only one of its length. */
  ghost predicate Shortest(bs: seq<byte>, rest: seq<byte>, enc: seq<byte>) {
    |enc| + |rest| <= |bs| && (|enc| + |rest| == |bs| ==> bs == enc + rest)
  }

  lemma ShortestThen(bs: seq<byte>, mid: seq<byte>, rest: seq<byte>, enc1: seq<byte>, enc2: seq<byte>)
    requires Shortest(bs, mid, enc1) && Shortest(mid, rest, enc2)
    ensures Shortest(bs, rest, enc1 + enc2)
  {
    assert enc1 + (enc2 + rest) == enc1 + enc2 + rest;
  }

  lemma {:induction false} LebShortest(bs: seq<byte>, budget: nat)
    requires LebRead(bs, budget).Got?
    ensures Shortest(bs, LebRead(bs, budget).rest, LebBytes(LebRead(bs, budget).v))
  {
    var n, rest := LebRead(bs, budget).v, LebRead(bs, budget).rest;
    if bs[0] < 128 {
      assert bs == [bs[0]] + bs[1..];
    } else {
      LebSuffix(bs[1..], budget - 1);
      LebShortest(bs[1..], budget - 1);
      var m := LebRead(bs[1..], budget - 1).v;
      if n >= 128 {
        assert n % 128 == bs[0] - 128 && n / 128 == m;
        assert Shortest(bs, bs[1..], [bs[0]]) by { assert bs == [bs[0]] + bs[1..]; }
        ShortestThen(bs, bs[1..], rest, [bs[0]], LebBytes(m));
      }
    }
  }

  lemma {:induction false} LeUnique(bs: seq<byte>)
    ensures LeBytes(LeValue(bs), |bs|) == bs
  {
    if bs != [] {
      LeUnique(bs[1..]);
      LeStep(LeValue(bs), |bs|, bs[0], LeValue(bs[1..]));
    }
  }

  lemma FixedUnique(w: nat, bs: seq<byte>)
    requires w <= |bs|
    ensures bs == LeBytes(LeValue(bs[..w]), w) + bs[w..]
  {
    LeUnique(bs[..w]);
  }

  /** What a primitive read accepts is the encoding of its value, up to a length spelled longer than needed;
      for everything but strings it is the encoding itself. */
  lemma PrimUnique(p: Prim, bs: seq<byte>)
    requires PrimRead(p, bs).Got?
    ensures var r := PrimRead(p, bs);
            && Shortest(bs, r.rest, PrimBytes(p, r.v))
            && (!p.Text? ==> bs == PrimBytes(p, r.v) + r.rest)
  {
    match p
    case Unsigned(w) => FixedUnique(w.Bytes(), bs);
    case Signed(w) => FixedUnique(w.Bytes(), bs);
    case Float32 => FixedUnique(4, bs);
    case Float64 => FixedUnique(8, bs);
    case Boolean => assert bs == [bs[0]] + bs[1..];
    case Text =>
      var n, rest := LenRead(bs).v, LenRead(bs).rest;
      LebShortest(bs, LEB_GROUPS);
      assert rest == rest[..n] + rest[n..];
      ShortestThen(bs, rest, rest[n..], LebBytes(n), rest[..n]);
  }

  // ---------------------------------------------------------------- sizes

  lemma Powers()
    ensures Pow256(1) == 0x100 && Pow256(2) == 0x1_0000 && Pow256(4) == 0x1_0000_0000
    ensures Pow256(8) == 0x1_0000_0000_0000_0000
  {
    assert Pow256(2) == 0x1_0000;
    assert Pow256(4) == 256 * (256 * Pow256(2));
    assert Pow256(6) == 256 * (256 * Pow256(4));
    assert Pow256(8) == 256 * (256 * Pow256(6));
  }

  /** The range of each integer type, and the bytes its values take. */
  lemma IntegerRanges(n: int)
    ensures PrimFits(Unsigned(W8), Num(n)) <==> 0 <= n < 0x100
    ensures PrimFits(Unsigned(W16), Num(n)) <==> 0 <= n < 0x1_0000
    ensures PrimFits(Unsigned(W32), Num(n)) <==> 0 <= n < 0x1_0000_0000
    ensures PrimFits(Unsigned(W64), Num(n)) <==> 0 <= n < 0x1_0000_0000_0000_0000
    ensures PrimFits(Signed(W8), Num(n)) <==> -0x80 <= n < 0x80
    ensures PrimFits(Signed(W16), Num(n)) <==> -0x8000 <= n < 0x8000
    ensures PrimFits(Signed(W32), Num(n)) <==> -0x8000_0000 <= n < 0x8000_0000
    ensures PrimFits(Signed(W64), Num(n)) <==> -0x8000_0000_0000_0000 <= n < 0x8000_0000_0000_0000
  {
    Powers();
  }

  lemma ScalarSizes(p: Prim, v: PVal)
    requires PrimFits(p, v)
    ensures p == Boolean || p == Unsigned(W8) || p == Signed(W8) ==> |PrimBytes(p, v)| == 1
    ensures p == Unsigned(W16) || p == Signed(W16) ==> |PrimBytes(p, v)| == 2
    ensures p == Unsigned(W32) || p == Signed(W32) || p == Float32 ==> |PrimBytes(p, v)| == 4
    ensures p == Unsigned(W64) || p == Signed(W64) || p == Float64 ==> |PrimBytes(p, v)| == 8
  {
  }

  /** The examples of unsigned LEB128 in section 7.6 of DWARF Version 5. */
  lemma LebExamples()
    ensures LebBytes(2) == [2] && LebBytes(127) == [127] && LebBytes(128) == [0x80, 1]
    ensures LebBytes(129) == [0x81, 1] && LebBytes(130) == [0x82, 1] && LebBytes(12857) == [0xB9, 0x64]
  {
    assert LebBytes(1) == [1] && LebBytes(100) == [100];
    assert LebBytes(12857) == [12857 % 128 + 128] + LebBytes(12857 / 128);
  }
}
