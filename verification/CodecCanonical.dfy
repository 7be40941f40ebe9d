/**
 The decoder accepts nothing but encodings: whatever it reads is the value of some object, in the object's own
 bytes, except that a length may be spelled with more groups than it needs.
 */
module CodecCanonical {
  import opened Wire
  import opened Codec
  import opened CodecRoundTrip
  import opened CodecInPlace

  ghost predicate AllFit(e: Ty, os: seq<Obj>) { forall i | 0 <= i < |os| :: Fits(e, os[i]) }

  /** Every accepted payload begins with an encoding of what is read from it, or with a longer spelling of that
      encoding. */
  lemma {:induction false} Accepted(ty: Ty, bs: seq<byte>) returns (o: Obj)
    requires Decode(Reliable, ty, Default(ty), bs).Done?
    ensures Fits(ty, o) && Meaning(o) == Decode(Reliable, ty, Default(ty), bs).v
    ensures Shortest(bs, Decode(Reliable, ty, Default(ty), bs).rest, Encode(ty, o))
    decreases Size(ty), 1, 1
  {
    match ty
    case Scalar(p) =>
      PrimUnique(p, bs);
      o := OAtom(PrimRead(p, bs).v);
    case Tuple(ts) =>
      var os := AcceptedRow(ts, bs);
      o := OTuple(os);
    case Pair(x, y) =>
      var d := Decode(Reliable, x, Default(x), bs);
      var e := Decode(Reliable, y, Default(y), d.rest);
      var a := Accepted(x, bs);
      var b := Accepted(y, d.rest);
      o := OPair(a, b);
      ShortestThen(bs, d.rest, e.rest, Encode(x, a), Encode(y, b));
    case Array(e, n) =>
      o := AcceptedArray(ty, bs);
    case _ =>
      o := AcceptedContainer(ty, bs);
  }

  lemma {:induction false} AcceptedArray(ty: Ty, bs: seq<byte>) returns (o: Obj)
    requires ty.Array? && Decode(Reliable, ty, Default(ty), bs).Done?
    ensures Fits(ty, o) && Meaning(o) == Decode(Reliable, ty, Default(ty), bs).v
    ensures Shortest(bs, Decode(Reliable, ty, Default(ty), bs).rest, Encode(ty, o))
    decreases Size(ty), 1, 0
  {
    var l, vs := LenRead(bs), Default(ty).vs;
    var r := DecodeCells(Reliable, ty.e, vs, 0, l.rest);
    assert Decode(Reliable, ty, Default(ty), bs) == Done(List(r.v), r.rest);
    var os := AcceptedCells(ty.e, vs, 0, l.rest);
    assert vs[..0] + MeaningAll(os) == MeaningAll(os);
    o := OCont(Sequence, os);
    LebShortest(bs, LEB_GROUPS);
    ShortestThen(bs, l.rest, r.rest, LebBytes(ty.n), EncodeItems(ty.e, os));
  }

  lemma {:induction false} AcceptedContainer(c: Ty, bs: seq<byte>) returns (o: Obj)
    requires c.Container?() && !c.Array? && Decode(Reliable, c, Default(c), bs).Done?
    ensures Fits(c, o) && Meaning(o) == Decode(Reliable, c, Default(c), bs).v
    ensures Shortest(bs, Decode(Reliable, c, Default(c), bs).rest, Encode(c, o))
    decreases Size(c), 1, 0
  {
    var l := LenRead(bs);
    var os := AcceptedMany(c, l.v, Default(c), l.rest);
    o := OCont(KindOf(c), os);
    CollectMeaning(c, o);
    LebShortest(bs, LEB_GROUPS);
    ShortestThen(bs, l.rest, DecodeMany(Reliable, c, l.v, Default(c), l.rest).rest, LebBytes(l.v), EncodeItems(c.Elem(), os));
  }

  lemma {:induction false} AcceptedRow(ts: seq<Ty>, bs: seq<byte>) returns (os: seq<Obj>)
    requires DecodeRow(Reliable, ts, DefaultRow(ts), bs).Done?
    ensures FitsRow(ts, os) && MeaningAll(os) == DecodeRow(Reliable, ts, DefaultRow(ts), bs).v
    ensures Shortest(bs, DecodeRow(Reliable, ts, DefaultRow(ts), bs).rest, EncodeRow(ts, os))
    decreases SizeRow(ts), 1, 0
  {
    if ts == [] {
      os := [];
      assert [] + bs == bs;
    } else {
      assert DefaultRow(ts)[1..] == DefaultRow(ts[1..]);
      var d := Decode(Reliable, ts[0], Default(ts[0]), bs);
      var o := Accepted(ts[0], bs);
      var more := AcceptedRow(ts[1..], d.rest);
      os := [o] + more;
      assert os[1..] == more;
      ShortestThen(bs, d.rest, DecodeRow(Reliable, ts[1..], DefaultRow(ts[1..]), d.rest).rest,
                   Encode(ts[0], o), EncodeRow(ts[1..], more));
    }
  }

  lemma {:induction false} AcceptedMany(c: Ty, n: nat, acc: Val, bs: seq<byte>) returns (os: seq<Obj>)
    requires c.Container?() && !c.Array? && HasType(c, acc) && DecodeMany(Reliable, c, n, acc, bs).Done?
    ensures |os| == n && AllFit(c.Elem(), os)
    ensures DecodeMany(Reliable, c, n, acc, bs).v == InsertAll(acc, MeaningAll(os))
    ensures Shortest(bs, DecodeMany(Reliable, c, n, acc, bs).rest, EncodeItems(c.Elem(), os))
    decreases Size(c), 0, n
  {
    if n == 0 {
      os := [];
      assert [] + bs == bs;
    } else {
      var e := c.Elem();
      ManyTurn(c, n, acc, bs);
      var d := Decode(Reliable, e, Default(e), bs);
      var o := Accepted(e, bs);
      var acc' := Insert(acc, d.v);
      var more := AcceptedMany(c, n - 1, acc', d.rest);
      os := [o] + more;
      OneMore(e, bs, d.rest, DecodeMany(Reliable, c, n - 1, acc', d.rest).rest, o, more);
      InsertAllCons(acc, d.v, MeaningAll(more));
    }
  }

  lemma ManyTurn(c: Ty, n: nat, acc: Val, bs: seq<byte>)
    requires c.Container?() && !c.Array? && HasType(c, acc) && n > 0 && DecodeMany(Reliable, c, n, acc, bs).Done?
    ensures var d := Decode(Reliable, c.Elem(), Default(c.Elem()), bs);
            && d.Done? && HasType(c, Insert(acc, d.v))
            && DecodeMany(Reliable, c, n, acc, bs) == DecodeMany(Reliable, c, n - 1, Insert(acc, d.v), d.rest)
  {
  }

  lemma InsertAllCons(acc: Val, x: Val, xs: seq<Val>)
    ensures InsertAll(acc, [x] + xs) == InsertAll(Insert(acc, x), xs)
  {
    assert ([x] + xs)[1..] == xs;
  }

  /** One more element in front. */
  lemma OneMore(e: Ty, bs: seq<byte>, mid: seq<byte>, rest: seq<byte>, o: Obj, more: seq<Obj>)
    requires Fits(e, o) && AllFit(e, more)
    requires Shortest(bs, mid, Encode(e, o)) && Shortest(mid, rest, EncodeItems(e, more))
    ensures AllFit(e, [o] + more) && Shortest(bs, rest, EncodeItems(e, [o] + more))
    ensures MeaningAll([o] + more) == [Meaning(o)] + MeaningAll(more)
  {
    assert ([o] + more)[1..] == more;
    ShortestThen(bs, mid, rest, Encode(e, o), EncodeItems(e, more));
  }

  lemma {:induction false} AcceptedCells(e: Ty, vs: seq<Val>, i: nat, bs: seq<byte>) returns (os: seq<Obj>)
    requires i <= |vs| && Typed(e, vs) && forall j | i <= j < |vs| :: vs[j] == Default(e)
    requires DecodeCells(Reliable, e, vs, i, bs).Done?
    ensures |os| == |vs| - i && AllFit(e, os)
    ensures DecodeCells(Reliable, e, vs, i, bs).v == vs[..i] + MeaningAll(os)
    ensures Shortest(bs, DecodeCells(Reliable, e, vs, i, bs).rest, EncodeItems(e, os))
    decreases Size(e), 2, |vs| - i
  {
    if i == |vs| {
      os := [];
      assert [] + bs == bs && vs[..i] + [] == vs;
    } else {
      CellTurn(e, vs, i, bs);
      var d := Decode(Reliable, e, Default(e), bs);
      var o := Accepted(e, bs);
      var vs' := vs[i := d.v];
      var more := AcceptedCells(e, vs', i + 1, d.rest);
      os := [o] + more;
      OneMore(e, bs, d.rest, DecodeCells(Reliable, e, vs', i + 1, d.rest).rest, o, more);
      NextCell(vs, i, d.v, MeaningAll(more));
    }
  }

  lemma CellTurn(e: Ty, vs: seq<Val>, i: nat, bs: seq<byte>)
    requires i < |vs| && Typed(e, vs) && vs[i] == Default(e)
    requires DecodeCells(Reliable, e, vs, i, bs).Done?
    ensures var d := Decode(Reliable, e, Default(e), bs);
            && d.Done? && Typed(e, vs[i := d.v])
            && DecodeCells(Reliable, e, vs, i, bs) == DecodeCells(Reliable, e, vs[i := d.v], i + 1, d.rest)
  {
  }
}
