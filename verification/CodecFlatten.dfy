/**
 Tuples and pairs add no bytes: only the flattened list of leaf types matters, for writing and for
 reading. So one tuple and any nesting of tuples and pairs are interchangeable, on either side; module
 `SuccessiveCalls` adds rows of calls.
 */
module CodecFlatten {
  import opened Wire
  import opened Codec
  import opened CodecRoundTrip

  function Leaves(ty: Ty): seq<Ty>
    decreases Size(ty)
  {
    match ty
    case Tuple(ts) => LeavesRow(ts)
    case Pair(x, y) => Leaves(x) + Leaves(y)
    case _ => [ty]
  }

  function LeavesRow(ts: seq<Ty>): seq<Ty>
    decreases SizeRow(ts)
  {
    if ts == [] then [] else Leaves(ts[0]) + LeavesRow(ts[1..])
  }

  function ObjLeaves(o: Obj): seq<Obj> {
    match o
    case OTuple(items) => ObjLeavesAll(items)
    case OPair(x, y) => ObjLeaves(x) + ObjLeaves(y)
    case _ => [o]
  }

  function ObjLeavesAll(os: seq<Obj>): seq<Obj> {
    if os == [] then [] else ObjLeaves(os[0]) + ObjLeavesAll(os[1..])
  }

  function ValLeaves(v: Val): seq<Val> {
    match v
    case Row(vs) => ValLeavesAll(vs)
    case Two(x, y) => ValLeaves(x) + ValLeaves(y)
    case _ => [v]
  }

  function ValLeavesAll(vs: seq<Val>): seq<Val> {
    if vs == [] then [] else ValLeaves(vs[0]) + ValLeavesAll(vs[1..])
  }

  /** Neither a tuple nor a pair is a leaf. */
  lemma {:induction false} LeavesAreFlat(ty: Ty)
    ensures forall t | t in Leaves(ty) :: !t.Tuple? && !t.Pair?
    decreases Size(ty)
  {
    match ty
    case Tuple(ts) => LeavesAreFlatRow(ts);
    case Pair(x, y) => LeavesAreFlat(x); LeavesAreFlat(y);
    case _ =>
  }

  lemma {:induction false} LeavesAreFlatRow(ts: seq<Ty>)
    ensures forall t | t in LeavesRow(ts) :: !t.Tuple? && !t.Pair?
    decreases SizeRow(ts)
  {
    if ts != [] {
      LeavesAreFlat(ts[0]);
      LeavesAreFlatRow(ts[1..]);
    }
  }

  /** Types that differ only in their grouping have the same leaves: a pair is a tuple of two, and a tuple in
      front of others is its components in front of them. */
  lemma Regrouped(x: Ty, y: Ty, ts: seq<Ty>, us: seq<Ty>)
    ensures Leaves(Pair(x, y)) == LeavesRow([x, y]) == Leaves(Tuple([x, y]))
    ensures LeavesRow([Tuple(ts)] + us) == LeavesRow(ts + us) == LeavesRow(ts) + LeavesRow(us)
  {
    assert [x, y][1..] == [y] && [y][1..] == [] && Leaves(y) + [] == Leaves(y);
    assert LeavesRow([y]) == Leaves(y) + LeavesRow([]);
    assert ([Tuple(ts)] + us)[1..] == us;
    LeavesAppend(ts, us);
  }

  lemma {:induction false} LeavesAppend(ts: seq<Ty>, us: seq<Ty>)
    ensures LeavesRow(ts + us) == LeavesRow(ts) + LeavesRow(us)
    decreases |ts|
  {
    if ts == [] {
      assert ts + us == us;
    } else {
      assert (ts + us)[1..] == ts[1..] + us && (ts + us)[0] == ts[0];
      LeavesAppend(ts[1..], us);
      Assoc(Leaves(ts[0]), LeavesRow(ts[1..]), LeavesRow(us));
    }
  }

  lemma Assoc<T>(a: seq<T>, b: seq<T>, c: seq<T>)
    ensures a + (b + c) == a + b + c
  {
  }

  // ---------------------------------------------------------------- writing

  lemma {:induction false} EncodeAppend(ts: seq<Ty>, us: seq<Ty>, os: seq<Obj>, ps: seq<Obj>)
    requires FitsRow(ts, os) && FitsRow(us, ps)
    ensures FitsRow(ts + us, os + ps)
    ensures EncodeRow(ts + us, os + ps) == EncodeRow(ts, os) + EncodeRow(us, ps)
    decreases |ts|
  {
    if ts == [] {
      assert ts + us == us && os + ps == ps;
    } else {
      EncodeAppend(ts[1..], us, os[1..], ps);
      assert (ts + us)[1..] == ts[1..] + us && (os + ps)[1..] == os[1..] + ps;
      Assoc(Encode(ts[0], os[0]), EncodeRow(ts[1..], os[1..]), EncodeRow(us, ps));
    }
  }

  /** An object writes exactly the bytes of its leaves, one after the other. */
  lemma {:induction false} EncodeFlat(ty: Ty, o: Obj)
    requires Fits(ty, o)
    ensures FitsRow(Leaves(ty), ObjLeaves(o))
    ensures Encode(ty, o) == EncodeRow(Leaves(ty), ObjLeaves(o))
    decreases Size(ty)
  {
    match ty
    case Tuple(ts) => EncodeFlatRow(ts, o.items);
    case Pair(x, y) =>
      EncodeFlat(x, o.fst);
      EncodeFlat(y, o.snd);
      EncodeAppend(Leaves(x), Leaves(y), ObjLeaves(o.fst), ObjLeaves(o.snd));
    case _ =>
      assert EncodeRow([ty], [o]) == Encode(ty, o) + EncodeRow([], []);
  }

  lemma {:induction false} EncodeFlatRow(ts: seq<Ty>, os: seq<Obj>)
    requires FitsRow(ts, os)
    ensures FitsRow(LeavesRow(ts), ObjLeavesAll(os))
    ensures EncodeRow(ts, os) == EncodeRow(LeavesRow(ts), ObjLeavesAll(os))
    decreases SizeRow(ts)
  {
    if ts != [] {
      EncodeFlat(ts[0], os[0]);
      EncodeFlatRow(ts[1..], os[1..]);
      EncodeAppend(Leaves(ts[0]), LeavesRow(ts[1..]), ObjLeaves(os[0]), ObjLeavesAll(os[1..]));
    }
  }

  // ---------------------------------------------------------------- reading

  function Join(vs: seq<Val>, r: Outcome<seq<Val>>): Outcome<seq<Val>> {
    match r
    case Fail(why, ws) => Fail(why, vs + ws)
    case Done(ws, rest) => Done(vs + ws, rest)
  }

  /** Continue with the row `us` into `ws` after a first row ended in `first`. */
  function Continue(lib: Lib, us: seq<Ty>, ws: seq<Val>, first: Outcome<seq<Val>>): Outcome<seq<Val>>
    requires HasTypes(us, ws)
  {
    match first
    case Fail(why, vs) => Fail(why, vs + ws)
    case Done(vs, rest) => Join(vs, DecodeRow(lib, us, ws, rest))
  }

  /** Reading a concatenated row is reading the first part and then the second. */
  lemma {:induction false} DecodeAppend(lib: Lib, ts: seq<Ty>, us: seq<Ty>, vs: seq<Val>, ws: seq<Val>, bs: seq<byte>)
    requires HasTypes(ts, vs) && HasTypes(us, ws)
    ensures HasTypes(ts + us, vs + ws)
    ensures DecodeRow(lib, ts + us, vs + ws, bs) == Continue(lib, us, ws, DecodeRow(lib, ts, vs, bs))
    decreases |ts|
  {
    if ts == [] {
      assert ts + us == us && vs + ws == ws;
      var q := DecodeRow(lib, us, ws, bs);
      assert [] + q.v == q.v;
    } else {
      assert (ts + us)[1..] == ts[1..] + us && (vs + ws)[1..] == vs[1..] + ws;
      var d := Decode(lib, ts[0], vs[0], bs);
      DecodeAppend(lib, ts[1..], us, vs[1..], ws, if d.Done? then d.rest else bs);
      if d.Done? {
        var first := DecodeRow(lib, ts[1..], vs[1..], d.rest);
        JoinContinue(lib, us, ws, [d.v], first);
      } else {
        Assoc([d.v], vs[1..], ws);
      }
    }
  }

  lemma JoinContinue(lib: Lib, us: seq<Ty>, ws: seq<Val>, vs: seq<Val>, first: Outcome<seq<Val>>)
    requires HasTypes(us, ws)
    ensures Join(vs, Continue(lib, us, ws, first)) == Continue(lib, us, ws, Join(vs, first))
  {
    match first
    case Fail(_, xs) => Assoc(vs, xs, ws);
    case Done(xs, rest) => Assoc(vs, xs, DecodeRow(lib, us, ws, rest).v);
  }

  function LeafOutcome(r: Outcome<Val>): Outcome<seq<Val>> {
    match r
    case Fail(why, v) => Fail(why, ValLeaves(v))
    case Done(v, rest) => Done(ValLeaves(v), rest)
  }

  function LeafOutcomeRow(r: Outcome<seq<Val>>): Outcome<seq<Val>> {
    match r
    case Fail(why, vs) => Fail(why, ValLeavesAll(vs))
    case Done(vs, rest) => Done(ValLeavesAll(vs), rest)
  }

  /** Reading an object is reading its leaves one by one: same success, same failing step, same cursor,
      same contents in every leaf, also after a failure half way. */
  lemma {:induction false} DecodeFlat(lib: Lib, ty: Ty, v0: Val, bs: seq<byte>)
    requires HasType(ty, v0)
    ensures HasTypes(Leaves(ty), ValLeaves(v0))
    ensures DecodeRow(lib, Leaves(ty), ValLeaves(v0), bs) == LeafOutcome(Decode(lib, ty, v0, bs))
    decreases Size(ty), 1
  {
    match ty
    case Tuple(ts) => DecodeFlatRow(lib, ts, v0.vs, bs);
    case Pair(x, y) =>
      DecodeFlat(lib, x, v0.fst, bs);
      var d := Decode(lib, x, v0.fst, bs);
      DecodeFlat(lib, y, v0.snd, if d.Done? then d.rest else bs);
      DecodeAppend(lib, Leaves(x), Leaves(y), ValLeaves(v0.fst), ValLeaves(v0.snd), bs);
    case _ =>
      DecodeSingle(lib, ty, v0, bs);
      var d := Decode(lib, ty, v0, bs);
      assert !d.v.Row? && !d.v.Two?;
  }

  lemma DecodeSingle(lib: Lib, ty: Ty, v0: Val, bs: seq<byte>)
    requires HasType(ty, v0)
    ensures HasTypes([ty], [v0])
    ensures DecodeRow(lib, [ty], [v0], bs) ==
            (match Decode(lib, ty, v0, bs) case Fail(why, v) => Fail(why, [v]) case Done(v, rest) => Done([v], rest))
  {
    assert [v0][1..] == [] && [ty][1..] == [];
    var v := Decode(lib, ty, v0, bs).v;
    assert [v] + [] == [v];
  }

  lemma {:induction false} DecodeFlatRow(lib: Lib, ts: seq<Ty>, vs: seq<Val>, bs: seq<byte>)
    requires HasTypes(ts, vs)
    ensures HasTypes(LeavesRow(ts), ValLeavesAll(vs))
    ensures DecodeRow(lib, LeavesRow(ts), ValLeavesAll(vs), bs) == LeafOutcomeRow(DecodeRow(lib, ts, vs, bs))
    decreases SizeRow(ts), 1
  {
    if ts != [] {
      DecodeFlat(lib, ts[0], vs[0], bs);
      var d := Decode(lib, ts[0], vs[0], bs);
      DecodeFlatRow(lib, ts[1..], vs[1..], if d.Done? then d.rest else bs);
      DecodeAppend(lib, Leaves(ts[0]), LeavesRow(ts[1..]), ValLeaves(vs[0]), ValLeavesAll(vs[1..]), bs);
      LeavesCons(d.v, if d.Done? then DecodeRow(lib, ts[1..], vs[1..], d.rest).v else vs[1..]);
    }
  }

  lemma LeavesCons(v: Val, vs: seq<Val>)
    ensures ValLeavesAll([v] + vs) == ValLeaves(v) + ValLeavesAll(vs)
  {
    assert ([v] + vs)[1..] == vs;
  }

  lemma {:induction false} DefaultLeaves(ty: Ty)
    ensures ValLeaves(Default(ty)) == DefaultRow(Leaves(ty))
    decreases Size(ty)
  {
    match ty
    case Tuple(ts) => DefaultLeavesRow(ts);
    case Pair(x, y) =>
      DefaultLeaves(x); DefaultLeaves(y);
      DefaultAppend(Leaves(x), Leaves(y));
    case _ => assert DefaultRow([ty]) == [Default(ty)] + DefaultRow([]);
  }

  lemma {:induction false} DefaultLeavesRow(ts: seq<Ty>)
    ensures ValLeavesAll(DefaultRow(ts)) == DefaultRow(LeavesRow(ts))
    decreases SizeRow(ts)
  {
    if ts != [] {
      DefaultLeaves(ts[0]);
      DefaultLeavesRow(ts[1..]);
      assert DefaultRow(ts)[1..] == DefaultRow(ts[1..]);
      DefaultAppend(Leaves(ts[0]), LeavesRow(ts[1..]));
    }
  }

  lemma {:induction false} DefaultAppend(ts: seq<Ty>, us: seq<Ty>)
    ensures DefaultRow(ts + us) == DefaultRow(ts) + DefaultRow(us)
    decreases |ts|
  {
    if ts == [] {
      assert ts + us == us;
    } else {
      DefaultAppend(ts[1..], us);
      assert (ts + us)[1..] == ts[1..] + us && (ts + us)[0] == ts[0];
      Assoc([Default(ts[0])], DefaultRow(ts[1..]), DefaultRow(us));
    }
  }

  /** Whatever way the values were written (tuple, nesting) and whatever way they are read, as
      long as the leaf types agree the reader recovers the writer's leaf values, in order, and stops
      where they end. */
  lemma AnyNesting(written: Ty, read: Ty, o: Obj, rest: seq<byte>)
    requires Leaves(written) == Leaves(read) && Fits(written, o)
    ensures var r := Decode(Reliable, read, Default(read), Encode(written, o) + rest);
            r.Done? && r.rest == rest && ValLeaves(r.v) == ValLeaves(Meaning(o))
  {
    RoundTrip(written, o, rest);
    DecodeFlat(Reliable, written, Default(written), Encode(written, o) + rest);
    DecodeFlat(Reliable, read, Default(read), Encode(written, o) + rest);
    DefaultLeaves(written);
    DefaultLeaves(read);
  }
}
