/**
 Decoding what the encoder wrote gives back the value, for every type and every iteration order, and
 leaves the cursor exactly behind it.
 */
module CodecRoundTrip {
  import opened Wire
  import opened Codec

  /** A container after inserting decoded elements one by one. */
  function InsertAll(acc: Val, vs: seq<Val>): Val
    decreases vs
  {
    if vs == [] then acc else InsertAll(Insert(acc, vs[0]), vs[1..])
  }

  lemma {:induction false} InsertAllList(us: seq<Val>, vs: seq<Val>)
    ensures InsertAll(List(us), vs) == List(us + vs)
    decreases vs
  {
    if vs == [] {
      assert us + vs == us;
    } else {
      InsertAllList(us + [vs[0]], vs[1..]);
      assert us + [vs[0]] + vs[1..] == us + vs;
    }
  }

  lemma {:induction false} InsertAllBag(s: set<Val>, vs: seq<Val>)
    ensures InsertAll(Bag(s), vs) == Bag(s + set v | v in vs)
    decreases vs
  {
    if vs == [] {
      assert s + (set v | v in vs) == s;
    } else {
      InsertAllBag(s + {vs[0]}, vs[1..]);
      assert s + {vs[0]} + (set v | v in vs[1..]) == s + set v | v in vs;
    }
  }

  /** Insertion keeps the entry already there, so earlier entries win over later ones. */
  lemma {:induction false} InsertAllDict(m: map<Val, Val>, vs: seq<Val>)
    ensures InsertAll(Dict(m), vs) == Dict(FirstWins(vs) + m)
    decreases vs
  {
    if vs == [] {
      assert FirstWins(vs) + m == m;
    } else {
      var m' := Insert(Dict(m), vs[0]).m;
      InsertAllDict(m', vs[1..]);
      assert FirstWins(vs[1..]) + m' == FirstWins(vs) + m;
    }
  }

  /** Filling an empty container with the elements of an iteration order gives the value denoted. */
  lemma CollectMeaning(ty: Ty, o: Obj)
    requires ty.Container?() && o.OCont? && o.kind == KindOf(ty)
    ensures Meaning(o) ==
            InsertAll(match o.kind case Sequence => List([]) case Set => Bag({}) case Map => Dict(map[]),
                      MeaningAll(o.items))
  {
    var vs := MeaningAll(o.items);
    match o.kind
    case Sequence => InsertAllList([], vs); assert [] + vs == vs;
    case Set => InsertAllBag({}, vs); assert {} + (set v | v in vs) == set v | v in vs;
    case Map => InsertAllDict(map[], vs); assert FirstWins(vs) + map[] == FirstWins(vs);
  }

  /** `n` more elements do not exceed the maximal size of a vector. */
  predicate HasRoom(c: Ty, acc: Val, n: nat) {
    c.Vector? && acc.List? ==> |acc.vs| + n <= c.max
  }

  /** The codec law. `rest` is whatever follows in the payload. */
  lemma {:induction false} RoundTrip(ty: Ty, o: Obj, rest: seq<byte>)
    requires Fits(ty, o)
    ensures Decode(Reliable, ty, Default(ty), Encode(ty, o) + rest) == Done(Meaning(o), rest)
    decreases Size(ty), 1, 1
  {
    var bs := Encode(ty, o) + rest;
    match ty
    case Scalar(p) =>
      PrimRoundTrip(p, o.a, rest);
    case Tuple(ts) =>
      RoundTripRow(ts, o.items, rest);
    case Pair(x, y) =>
      assert bs == Encode(x, o.fst) + (Encode(y, o.snd) + rest);
      RoundTrip(x, o.fst, Encode(y, o.snd) + rest);
      RoundTrip(y, o.snd, rest);
    case Array(e, n) =>
      RoundTripLength(ty, o, rest);
      RoundTripCells(e, Default(ty).vs, 0, o.items, rest);
      assert Default(ty).vs[..0] + MeaningAll(o.items) == MeaningAll(o.items);
    case _ =>
      RoundTripContainer(ty, o, rest);
  }

  lemma {:induction false} RoundTripContainer(ty: Ty, o: Obj, rest: seq<byte>)
    requires ty.Container?() && !ty.Array? && Fits(ty, o)
    ensures Decode(Reliable, ty, Default(ty), Encode(ty, o) + rest) == Done(Meaning(o), rest)
    decreases Size(ty), 1, 0
  {
    RoundTripLength(ty, o, rest);
    assert Reserves(ty, Default(ty), |o.items|);
    RoundTripMany(ty, o.items, Default(ty), rest);
    CollectMeaning(ty, o);
  }

  /** The length prefix of a container is read back, in front of its elements. */
  lemma RoundTripLength(ty: Ty, o: Obj, rest: seq<byte>)
    requires ty.Container?() && Fits(ty, o)
    ensures LenRead(Encode(ty, o) + rest) == Got(|o.items|, EncodeItems(ty.Elem(), o.items) + rest)
  {
    var body := EncodeItems(ty.Elem(), o.items) + rest;
    assert Encode(ty, o) + rest == LebBytes(|o.items|) + body;
    LenRoundTrip(|o.items|, body);
  }

  lemma {:induction false} RoundTripRow(ts: seq<Ty>, os: seq<Obj>, rest: seq<byte>)
    requires FitsRow(ts, os)
    ensures DecodeRow(Reliable, ts, DefaultRow(ts), EncodeRow(ts, os) + rest) == Done(MeaningAll(os), rest)
    decreases SizeRow(ts), 1, 0
  {
    if ts == [] {
      assert EncodeRow(ts, os) + rest == rest;
    } else {
      var tail := EncodeRow(ts[1..], os[1..]) + rest;
      assert EncodeRow(ts, os) + rest == Encode(ts[0], os[0]) + tail;
      RoundTrip(ts[0], os[0], tail);
      RoundTripRow(ts[1..], os[1..], rest);
      assert DefaultRow(ts)[1..] == DefaultRow(ts[1..]);
    }
  }

  lemma {:induction false} RoundTripMany(c: Ty, os: seq<Obj>, acc: Val, rest: seq<byte>)
    requires c.Container?() && !c.Array? && HasType(c, acc) && HasRoom(c, acc, |os|)
    requires forall i | 0 <= i < |os| :: Fits(c.Elem(), os[i])
    ensures DecodeMany(Reliable, c, |os|, acc, EncodeItems(c.Elem(), os) + rest)
         == Done(InsertAll(acc, MeaningAll(os)), rest)
    decreases Size(c), 0, |os|
  {
    if os == [] {
      assert EncodeItems(c.Elem(), os) + rest == rest;
    } else {
      var x := Meaning(os[0]);
      FirstItem(c.Elem(), os, rest);
      InsertInRoom(c, acc, x, |os|);
      RoundTripMany(c, os[1..], Insert(acc, x), rest);
      assert MeaningAll(os)[0] == x && MeaningAll(os)[1..] == MeaningAll(os[1..]);
    }
  }

  lemma InsertInRoom(c: Ty, acc: Val, x: Val, n: nat)
    requires c.Container?() && !c.Array? && HasType(c, acc) && HasType(c.Elem(), x) && n > 0 && HasRoom(c, acc, n)
    ensures !Full(c, acc) && HasType(c, Insert(acc, x)) && HasRoom(c, Insert(acc, x), n - 1)
  {
  }

  /** The first of the encoded elements is read back, in front of the others. */
  lemma {:induction false} FirstItem(e: Ty, os: seq<Obj>, rest: seq<byte>)
    requires os != [] && forall i | 0 <= i < |os| :: Fits(e, os[i])
    ensures Decode(Reliable, e, Default(e), EncodeItems(e, os) + rest) ==
            Done(Meaning(os[0]), EncodeItems(e, os[1..]) + rest)
    decreases Size(e), 1, 2
  {
    var tail := EncodeItems(e, os[1..]) + rest;
    assert EncodeItems(e, os) + rest == Encode(e, os[0]) + tail;
    RoundTrip(e, os[0], tail);
  }

  lemma NextCell(vs: seq<Val>, i: nat, v: Val, ws: seq<Val>)
    requires i < |vs|
    ensures vs[i := v][..i + 1] + ws == vs[..i] + ([v] + ws)
  {
  }

  lemma {:induction false} RoundTripCells(e: Ty, vs: seq<Val>, i: nat, os: seq<Obj>, rest: seq<byte>)
    requires |vs| == i + |os|
    requires forall j | 0 <= j < |vs| :: HasType(e, vs[j])
    requires forall j | i <= j < |vs| :: vs[j] == Default(e)
    requires forall j | 0 <= j < |os| :: Fits(e, os[j])
    ensures DecodeCells(Reliable, e, vs, i, EncodeItems(e, os) + rest) == Done(vs[..i] + MeaningAll(os), rest)
    decreases Size(e), 2, |os|
  {
    if os == [] {
      assert EncodeItems(e, os) + rest == rest;
      assert vs[..i] + MeaningAll(os) == vs;
    } else {
      var v := Meaning(os[0]);
      FirstItem(e, os, rest);
      RoundTripCells(e, vs[i := v], i + 1, os[1..], rest);
      NextCell(vs, i, v, MeaningAll(os[1..]));
    }
  }

  // ---------------------------------------------------------------- the pinned format

  lemma EncodeThree(a: Ty, b: Ty, c: Ty, x: Obj, y: Obj, z: Obj)
    requires Fits(a, x) && Fits(b, y) && Fits(c, z)
    ensures Fits(Tuple([a, b, c]), OTuple([x, y, z]))
    ensures Encode(Tuple([a, b, c]), OTuple([x, y, z])) == Encode(a, x) + (Encode(b, y) + Encode(c, z))
  {
    EncodeCons(c, [], z, []);
    EncodeCons(b, [c], y, [z]);
    EncodeCons(a, [b, c], x, [y, z]);
    assert [c] + [] == [c] && [z] + [] == [z] && [b] + [c] == [b, c] && [y] + [z] == [y, z];
    assert [a] + [b, c] == [a, b, c] && [x] + [y, z] == [x, y, z];
    assert Encode(c, z) + [] == Encode(c, z);
  }

  lemma EncodeCons(a: Ty, ts: seq<Ty>, x: Obj, os: seq<Obj>)
    requires Fits(a, x) && FitsRow(ts, os)
    ensures FitsRow([a] + ts, [x] + os)
    ensures EncodeRow([a] + ts, [x] + os) == Encode(a, x) + EncodeRow(ts, os)
  {
    assert ([a] + ts)[1..] == ts && ([x] + os)[1..] == os;
  }

  lemma EncodeTwoItems(e: Ty, max: MaxSize, x: Obj, y: Obj)
    requires Fits(e, x) && Fits(e, y) && max >= 2
    ensures Fits(Vector(e, max), OCont(Sequence, [x, y]))
    ensures Encode(Vector(e, max), OCont(Sequence, [x, y])) == [2] + (Encode(e, x) + Encode(e, y))
  {
    assert [x, y][1..] == [y] && [y][1..] == [];
    assert EncodeItems(e, [y]) == Encode(e, y) + [] == Encode(e, y);
    assert EncodeItems(e, [x, y]) == Encode(e, x) + EncodeItems(e, [y]);
    assert LebBytes(2) == [2];
  }

  /** The bytes the repository's binary format test expects for a tuple of a `uint16_t`, a `float` and a
      string: components in order, nothing between them. 1234.0f has the pattern 0x449A4000. */
  lemma PinnedTuple()
    ensures var ty := Tuple([Scalar(Unsigned(W16)), Scalar(Float32), Scalar(Text)]);
            var o := OTuple([OAtom(Num(500)), OAtom(Num(0x449A4000)), OAtom(Chars([116, 101, 115, 116]))]);
            Fits(ty, o) && Encode(ty, o) == [244, 1, 0, 64, 154, 68, 4, 116, 101, 115, 116]
  {
    PinnedWords();
    PinnedBytes();
    AtomBytes(Unsigned(W16), Num(500), [244, 1]);
    AtomBytes(Float32, Num(0x449A4000), [0, 64, 154, 68]);
    AtomBytes(Text, Chars([116, 101, 115, 116]), [4, 116, 101, 115, 116]);
    EncodeThree(Scalar(Unsigned(W16)), Scalar(Float32), Scalar(Text),
                OAtom(Num(500)), OAtom(Num(0x449A4000)), OAtom(Chars([116, 101, 115, 116])));
    PinnedTupleConcat();
  }

  lemma PinnedTupleConcat()
    ensures [244, 1] + ([0, 64, 154, 68] + [4, 116, 101, 115, 116]) == [244, 1, 0, 64, 154, 68, 4, 116, 101, 115, 116]
  {
  }

  lemma AtomBytes(p: Prim, v: PVal, bs: seq<byte>)
    requires PinnedAs(p, v, bs)
    ensures Fits(Scalar(p), OAtom(v)) && Encode(Scalar(p), OAtom(v)) == bs
  {
  }

  /** And for a vector of pairs: the length, then every pair, first component first. */
  lemma PinnedVector(max: MaxSize)
    requires max >= 2
    ensures var ty := Vector(Pair(Scalar(Text), Scalar(Signed(W16))), max);
            var o := OCont(Sequence, [OPair(OAtom(Chars([115, 49])), OAtom(Num(10))),
                                      OPair(OAtom(Chars([115, 50])), OAtom(Num(-10000)))]);
            Fits(ty, o) && Encode(ty, o) == [2, 2, 115, 49, 10, 0, 2, 115, 50, 240, 216]
  {
    PinnedBytes();
    PairBytes(Text, Signed(W16), Chars([115, 49]), Num(10), [2, 115, 49], [10, 0]);
    PairBytes(Text, Signed(W16), Chars([115, 50]), Num(-10000), [2, 115, 50], [240, 216]);
    EncodeTwoItems(Pair(Scalar(Text), Scalar(Signed(W16))), max,
                   OPair(OAtom(Chars([115, 49])), OAtom(Num(10))), OPair(OAtom(Chars([115, 50])), OAtom(Num(-10000))));
    PinnedConcat();
  }

  lemma PinnedConcat()
    ensures [2] + ([2, 115, 49] + [10, 0] + ([2, 115, 50] + [240, 216])) == [2, 2, 115, 49, 10, 0, 2, 115, 50, 240, 216]
  {
  }

  lemma PairBytes(p: Prim, q: Prim, u: PVal, v: PVal, bs: seq<byte>, cs: seq<byte>)
    requires PinnedAs(p, u, bs) && PinnedAs(q, v, cs)
    ensures Fits(Pair(Scalar(p), Scalar(q)), OPair(OAtom(u), OAtom(v)))
    ensures Encode(Pair(Scalar(p), Scalar(q)), OPair(OAtom(u), OAtom(v))) == bs + cs
  {
  }
}
