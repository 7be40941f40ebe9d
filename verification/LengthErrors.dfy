/**
 When reading a payload can end in `std::length_error`: exactly when some vector of the type can be reached
 with a length prefix of the payload's choosing.
 */
module LengthErrors {
  import opened Wire
  import opened Codec
  import opened CodecRoundTrip
  import opened CodecFaults

  /** Some payload makes the run for `ty` size a vector. */
  predicate SizesVector(ty: Ty)
    decreases Size(ty)
  {
    match ty
    case Scalar(_) => false
    case Vector(_, _) => true
    case Tuple(ts) => SizesVectorRow(ts)
    case Pair(x, y) => SizesVector(x) || SizesVector(y)
    case Array(e, n) => n > 0 && SizesVector(e)
    case Deque(e) => SizesVector(e)
    case SetOf(e) => SizesVector(e)
    case MapOf(k, w) => SizesVector(k) || SizesVector(w)
  }

  predicate SizesVectorRow(ts: seq<Ty>)
    decreases SizeRow(ts)
  {
    ts != [] && (SizesVector(ts[0]) || SizesVectorRow(ts[1..]))
  }

  /** When a vector that holds `vs` can be given the length `len`: if there is room, or if the sum of sizes
      wraps around to something small. */
  lemma ReservesExactly(e: Ty, max: MaxSize, vs: seq<Val>, len: SizeT)
    requires |vs| <= max
    ensures Reserves(Vector(e, max), List(vs), len) <==>
            |vs| + len <= max || SIZE_LIMIT <= |vs| + len <= SIZE_LIMIT + max
  {
  }

  // ---------------------------------------------------------------- without such a vector

  lemma {:induction false} NeverTooLong(lib: Lib, ty: Ty, v0: Val, bs: seq<byte>)
    requires HasType(ty, v0) && !SizesVector(ty)
    ensures StopOf(Decode(lib, ty, v0, bs)) != TooLong
    decreases Size(ty), 1, 1
  {
    match ty
    case Scalar(_) =>
    case Tuple(ts) => NeverTooLongRow(lib, ts, v0.vs, bs);
    case Pair(x, y) =>
      NeverTooLong(lib, x, v0.fst, bs);
      var d := Decode(lib, x, v0.fst, bs);
      if d.Done? { NeverTooLong(lib, y, v0.snd, d.rest); }
    case Array(e, n) =>
      var l := LibLenRead(lib, bs);
      if l.Got? && l.v == n && n > 0 { NeverTooLongCells(lib, e, v0.vs, 0, l.rest); }
    case Deque(_) => NeverTooLongContainer(lib, ty, v0, bs);
    case SetOf(_) => NeverTooLongContainer(lib, ty, v0, bs);
    case MapOf(_, _) => NeverTooLongContainer(lib, ty, v0, bs);
  }

  lemma NeverTooLongContainer(lib: Lib, c: Ty, v0: Val, bs: seq<byte>)
    requires (c.Deque? || c.SetOf? || c.MapOf?) && HasType(c, v0) && !SizesVector(c.Elem())
    ensures StopOf(Decode(lib, c, v0, bs)) != TooLong
    decreases Size(c), 1, 0
  {
    var l := LibLenRead(lib, bs);
    if l.Got? { NeverTooLongMany(lib, c, l.v, v0, l.rest); }
  }

  lemma {:induction false} NeverTooLongRow(lib: Lib, ts: seq<Ty>, vs: seq<Val>, bs: seq<byte>)
    requires HasTypes(ts, vs) && !SizesVectorRow(ts)
    ensures StopOf(DecodeRow(lib, ts, vs, bs)) != TooLong
    decreases SizeRow(ts), 1, 0
  {
    if ts != [] {
      NeverTooLong(lib, ts[0], vs[0], bs);
      var d := Decode(lib, ts[0], vs[0], bs);
      if d.Done? { NeverTooLongRow(lib, ts[1..], vs[1..], d.rest); }
    }
  }

  lemma {:induction false} NeverTooLongMany(lib: Lib, c: Ty, n: nat, acc: Val, bs: seq<byte>)
    requires c.Container?() && !c.Array? && HasType(c, acc) && !c.Vector? && !SizesVector(c.Elem())
    ensures StopOf(DecodeMany(lib, c, n, acc, bs)) != TooLong
    decreases Size(c), 0, n
  {
    if n != 0 {
      var e := c.Elem();
      NeverTooLong(lib, e, Default(e), bs);
      var d := Decode(lib, e, Default(e), bs);
      if d.Done? { NeverTooLongMany(lib, c, n - 1, Inserted(c, acc, d.v), d.rest); }
    }
  }

  lemma {:induction false} NeverTooLongCells(lib: Lib, e: Ty, vs: seq<Val>, i: nat, bs: seq<byte>)
    requires i <= |vs| && (forall j | 0 <= j < |vs| :: HasType(e, vs[j])) && !SizesVector(e)
    ensures StopOf(DecodeCells(lib, e, vs, i, bs)) != TooLong
    decreases Size(e), 2, |vs| - i
  {
    if i != |vs| {
      NeverTooLong(lib, e, vs[i], bs);
      var d := Decode(lib, e, vs[i], bs);
      if d.Done? { NeverTooLongCells(lib, e, vs[i := d.v], i + 1, d.rest); }
    }
  }

  // ---------------------------------------------------------------- with one

  /** The least length no vector can have. */
  const TOO_LONG: nat := SIZE_LIMIT / 2

  /** Some object of the type. */
  function Sample(ty: Ty): (o: Obj)
    ensures Fits(ty, o)
    decreases Size(ty)
  {
    match ty
    case Scalar(p) => OAtom(PrimDefault(p))
    case Tuple(ts) => OTuple(SampleRow(ts))
    case Pair(x, y) => OPair(Sample(x), Sample(y))
    case Array(e, n) => var o := Sample(e); OCont(Sequence, seq(n, _ => o))
    case _ => OCont(KindOf(ty), [])
  }

  function SampleRow(ts: seq<Ty>): (os: seq<Obj>)
    ensures FitsRow(ts, os)
    decreases SizeRow(ts)
  {
    if ts == [] then [] else [Sample(ts[0])] + SampleRow(ts[1..])
  }

  /** A payload that steers the run into the first vector and announces a length it cannot have. */
  function OversizedPayload(ty: Ty): seq<byte>
    requires SizesVector(ty)
    decreases Size(ty)
  {
    match ty
    case Tuple(ts) => OversizedRow(ts)
    case Pair(x, y) =>
      if SizesVector(x) then OversizedPayload(x) else Encode(x, Sample(x)) + OversizedPayload(y)
    case Vector(_, _) => LebBytes(TOO_LONG)
    case Array(e, n) => LebBytes(n) + OversizedPayload(e)
    case Deque(e) => LebBytes(1) + OversizedPayload(e)
    case SetOf(e) => LebBytes(1) + OversizedPayload(e)
    case MapOf(k, w) => LebBytes(1) + OversizedPayload(Pair(k, w))
  }

  function OversizedRow(ts: seq<Ty>): seq<byte>
    requires SizesVectorRow(ts)
    decreases SizeRow(ts)
  {
    if SizesVector(ts[0]) then OversizedPayload(ts[0])
    else Encode(ts[0], Sample(ts[0])) + OversizedRow(ts[1..])
  }

  lemma {:induction false} OversizedThrows(ty: Ty)
    requires SizesVector(ty)
    ensures StopOf(Decode(Reliable, ty, Default(ty), OversizedPayload(ty))) == TooLong
    decreases Size(ty), 1
  {
    match ty
    case Tuple(ts) => OversizedRowThrows(ts);
    case Pair(x, y) =>
      if SizesVector(x) {
        OversizedThrows(x);
      } else {
        RoundTrip(x, Sample(x), OversizedPayload(y));
        OversizedThrows(y);
      }
    case Vector(_, _) =>
      LenRoundTrip(TOO_LONG, []);
      assert LebBytes(TOO_LONG) + [] == LebBytes(TOO_LONG);
    case Array(e, n) =>
      LenRoundTrip(n, OversizedPayload(e));
      OversizedThrows(e);
      assert Default(ty).vs[0] == Default(e);
    case Deque(e) => OversizedElement(ty);
    case SetOf(e) => OversizedElement(ty);
    case MapOf(k, w) => OversizedElement(ty);
  }

  lemma OversizedElement(ty: Ty)
    requires (ty.Deque? || ty.SetOf? || ty.MapOf?) && SizesVector(ty.Elem())
    ensures StopOf(Decode(Reliable, ty, Default(ty), OversizedPayload(ty))) == TooLong
    decreases Size(ty), 0
  {
    LenRoundTrip(1, OversizedPayload(ty.Elem()));
    OversizedThrows(ty.Elem());
  }

  lemma {:induction false} OversizedRowThrows(ts: seq<Ty>)
    requires SizesVectorRow(ts)
    ensures StopOf(DecodeRow(Reliable, ts, DefaultRow(ts), OversizedRow(ts))) == TooLong
    decreases SizeRow(ts), 1
  {
    assert DefaultRow(ts)[1..] == DefaultRow(ts[1..]);
    if SizesVector(ts[0]) {
      OversizedThrows(ts[0]);
    } else {
      RoundTrip(ts[0], Sample(ts[0]), OversizedRow(ts[1..]));
      OversizedRowThrows(ts[1..]);
    }
  }

  /** No payload ends in `std::length_error`, in either mode and whatever the library does, if and only if
      the type sizes no vector. */
  lemma LengthErrorExactly(ty: Ty)
    ensures (forall lib, bs :: StopOf(Decode(lib, ty, Default(ty), bs)) != TooLong) <==> !SizesVector(ty)
  {
    if SizesVector(ty) {
      OversizedThrows(ty);
    } else {
      forall lib, bs ensures StopOf(Decode(lib, ty, Default(ty), bs)) != TooLong {
        NeverTooLong(lib, ty, Default(ty), bs);
      }
    }
  }
}
