/**
 The decoder never looks past what it consumes, so encodings are prefix-free: a truncated payload is
 rejected, and bytes that follow a value do not disturb it.
 */
module CodecPrefix {
  import opened Wire
  import opened Codec
  import opened CodecRoundTrip

  /** Appending bytes to the input of a successful decode changes nothing but what is left over. */
  lemma {:induction false} Extension(ty: Ty, v0: Val, bs: seq<byte>, tail: seq<byte>)
    requires HasType(ty, v0)
    requires Decode(Reliable, ty, v0, bs).Done?
    ensures var r := Decode(Reliable, ty, v0, bs);
            Decode(Reliable, ty, v0, bs + tail) == Done(r.v, r.rest + tail)
    decreases Size(ty), 1, 0
  {
    match ty
    case Scalar(p) =>
      PrimExtension(p, bs, tail);
    case Tuple(ts) =>
      ExtensionRow(ts, v0.vs, bs, tail);
    case Pair(x, y) =>
      Extension(x, v0.fst, bs, tail);
      Extension(y, v0.snd, Decode(Reliable, x, v0.fst, bs).rest, tail);
    case Array(e, n) =>
      LenExtension(bs, tail);
      ExtensionCells(e, v0.vs, 0, LenRead(bs).rest, tail);
    case _ =>
      LenExtension(bs, tail);
      ExtensionMany(ty, LenRead(bs).v, v0, LenRead(bs).rest, tail);
  }

  lemma {:induction false} ExtensionRow(ts: seq<Ty>, vs: seq<Val>, bs: seq<byte>, tail: seq<byte>)
    requires HasTypes(ts, vs)
    requires DecodeRow(Reliable, ts, vs, bs).Done?
    ensures var r := DecodeRow(Reliable, ts, vs, bs);
            DecodeRow(Reliable, ts, vs, bs + tail) == Done(r.v, r.rest + tail)
    decreases SizeRow(ts), 1, 0
  {
    if ts != [] {
      Extension(ts[0], vs[0], bs, tail);
      ExtensionRow(ts[1..], vs[1..], Decode(Reliable, ts[0], vs[0], bs).rest, tail);
    }
  }

  lemma {:induction false} ExtensionMany(c: Ty, n: nat, acc: Val, bs: seq<byte>, tail: seq<byte>)
    requires c.Container?() && !c.Array? && HasType(c, acc)
    requires DecodeMany(Reliable, c, n, acc, bs).Done?
    ensures var r := DecodeMany(Reliable, c, n, acc, bs);
            DecodeMany(Reliable, c, n, acc, bs + tail) == Done(r.v, r.rest + tail)
    decreases Size(c), 0, n
  {
    if n != 0 {
      var e := c.Elem();
      Extension(e, Default(e), bs, tail);
      var r := Decode(Reliable, e, Default(e), bs);
      ExtensionMany(c, n - 1, Insert(acc, r.v), r.rest, tail);
    }
  }

  lemma {:induction false} ExtensionCells(e: Ty, vs: seq<Val>, i: nat, bs: seq<byte>, tail: seq<byte>)
    requires i <= |vs|
    requires forall j | 0 <= j < |vs| :: HasType(e, vs[j])
    requires DecodeCells(Reliable, e, vs, i, bs).Done?
    ensures var r := DecodeCells(Reliable, e, vs, i, bs);
            DecodeCells(Reliable, e, vs, i, bs + tail) == Done(r.v, r.rest + tail)
    decreases Size(e), 2, |vs| - i
  {
    if i != |vs| {
      Extension(e, vs[i], bs, tail);
      var r := Decode(Reliable, e, vs[i], bs);
      ExtensionCells(e, vs[i := r.v], i + 1, r.rest, tail);
    }
  }

  // ---------------------------------------------------------------- the converse

  /** `s` without its last `m` elements. */
  function Cut(s: seq<byte>, m: nat): (t: seq<byte>)
    requires m <= |s|
    ensures |t| == |s| - m
  {
    s[..|s| - m]
  }

  /** `cut` is the successful outcome `r` with `m` bytes fewer left over. */
  ghost predicate Retracted<T>(r: Outcome<T>, cut: Outcome<T>, m: nat)
    requires r.Done? && m <= |r.rest|
  {
    cut == Done(r.v, Cut(r.rest, m))
  }

  /** A successful decode does not need the bytes it leaves over: it succeeds without any `m` of them. */
  lemma {:induction false} Retraction(lib: Lib, ty: Ty, v0: Val, bs: seq<byte>, m: nat)
    requires lib.fault.NoFault? && HasType(ty, v0)
    requires Decode(lib, ty, v0, bs).Done? && m <= |Decode(lib, ty, v0, bs).rest|
    ensures m <= |bs|
    ensures Retracted(Decode(lib, ty, v0, bs), Decode(lib, ty, v0, Cut(bs, m)), m)
    decreases Size(ty), 1, 0
  {
    match ty
    case Scalar(p) =>
      PrimRetraction(p, bs, m);
    case Tuple(ts) =>
      RetractionRow(lib, ts, v0.vs, bs, m);
    case Pair(x, y) =>
      var mid := Decode(lib, x, v0.fst, bs);
      Retraction(lib, y, v0.snd, mid.rest, m);
      Retraction(lib, x, v0.fst, bs, m);
    case Array(e, n) =>
      RetractionCells(lib, e, v0.vs, 0, LenRead(bs).rest, m);
      RetractionLength(lib, bs, m);
    case _ =>
      RetractionMany(lib, ty, LenRead(bs).v, v0, LenRead(bs).rest, m);
      RetractionLength(lib, bs, m);
  }

  lemma RetractionLength(lib: Lib, bs: seq<byte>, m: nat)
    requires lib.fault.NoFault? && LibLenRead(lib, bs).Got? && m <= |LibLenRead(lib, bs).rest|
    ensures m <= |bs|
    ensures LibLenRead(lib, Cut(bs, m)) == Got(LibLenRead(lib, bs).v, Cut(LibLenRead(lib, bs).rest, m))
  {
    LebRetraction(bs, LEB_GROUPS, m);
  }

  lemma {:induction false} RetractionRow(lib: Lib, ts: seq<Ty>, vs: seq<Val>, bs: seq<byte>, m: nat)
    requires lib.fault.NoFault? && HasTypes(ts, vs)
    requires DecodeRow(lib, ts, vs, bs).Done? && m <= |DecodeRow(lib, ts, vs, bs).rest|
    ensures m <= |bs|
    ensures Retracted(DecodeRow(lib, ts, vs, bs), DecodeRow(lib, ts, vs, Cut(bs, m)), m)
    decreases SizeRow(ts), 1, 0
  {
    if ts != [] {
      var d := Decode(lib, ts[0], vs[0], bs);
      RetractionRow(lib, ts[1..], vs[1..], d.rest, m);
      Retraction(lib, ts[0], vs[0], bs, m);
    }
  }

  lemma {:induction false} RetractionMany(lib: Lib, c: Ty, n: nat, acc: Val, bs: seq<byte>, m: nat)
    requires lib.fault.NoFault? && c.Container?() && !c.Array? && HasType(c, acc)
    requires DecodeMany(lib, c, n, acc, bs).Done? && m <= |DecodeMany(lib, c, n, acc, bs).rest|
    ensures m <= |bs|
    ensures Retracted(DecodeMany(lib, c, n, acc, bs), DecodeMany(lib, c, n, acc, Cut(bs, m)), m)
    decreases Size(c), 0, n
  {
    if n != 0 {
      var e := c.Elem();
      var d := Decode(lib, e, Default(e), bs);
      RetractionMany(lib, c, n - 1, Insert(acc, d.v), d.rest, m);
      Retraction(lib, e, Default(e), bs, m);
    }
  }

  lemma {:induction false} RetractionCells(lib: Lib, e: Ty, vs: seq<Val>, i: nat, bs: seq<byte>, m: nat)
    requires lib.fault.NoFault? && i <= |vs| && forall j | 0 <= j < |vs| :: HasType(e, vs[j])
    requires DecodeCells(lib, e, vs, i, bs).Done? && m <= |DecodeCells(lib, e, vs, i, bs).rest|
    ensures m <= |bs|
    ensures Retracted(DecodeCells(lib, e, vs, i, bs), DecodeCells(lib, e, vs, i, Cut(bs, m)), m)
    decreases Size(e), 2, |vs| - i
  {
    if i != |vs| {
      var d := Decode(lib, e, vs[i], bs);
      RetractionCells(lib, e, vs[i := d.v], i + 1, d.rest, m);
      Retraction(lib, e, vs[i], bs, m);
    }
  }

  // ---------------------------------------------------------------- prefix-freedom

  /** A strict part `p` of an encoding is rejected: extending it by the missing bytes `q` would leave them
      unread. */
  lemma PartRejected(ty: Ty, o: Obj, p: seq<byte>, q: seq<byte>)
    requires Fits(ty, o) && p + q == Encode(ty, o) && q != []
    ensures Decode(Reliable, ty, Default(ty), p).Fail?
  {
    assert Encode(ty, o) + [] == Encode(ty, o);
    RoundTrip(ty, o, []);
    assert forall rest: seq<byte> :: |rest + q| > 0;
    if Decode(Reliable, ty, Default(ty), p).Done? {
      Extension(ty, Default(ty), p, q);
    }
  }

  /** Every proper prefix of an encoding is rejected at its own type. */
  lemma ProperPrefixRejected(ty: Ty, o: Obj, cut: nat)
    requires Fits(ty, o) && cut < |Encode(ty, o)|
    ensures Decode(Reliable, ty, Default(ty), Encode(ty, o)[..cut]).Fail?
  {
    var bs := Encode(ty, o);
    PartRejected(ty, o, bs[..cut], bs[cut..]);
  }

  /** Two payloads that start with encodings at one type and have a common continuation agree on the
      value and on where it ends. In particular the encoding of a value determines it. */
  lemma EncodingDeterminesValue(ty: Ty, o1: Obj, o2: Obj, r1: seq<byte>, r2: seq<byte>)
    requires Fits(ty, o1) && Fits(ty, o2)
    requires Encode(ty, o1) + r1 == Encode(ty, o2) + r2
    ensures Meaning(o1) == Meaning(o2) && r1 == r2 && Encode(ty, o1) == Encode(ty, o2)
  {
    RoundTrip(ty, o1, r1);
    RoundTrip(ty, o2, r2);
    var bs := Encode(ty, o1) + r1;
    assert Encode(ty, o1) == bs[..|bs| - |r1|] && Encode(ty, o2) == bs[..|bs| - |r2|];
  }
}
