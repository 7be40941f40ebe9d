/**
 One sequence encoding read into different containers, and what a failing loop leaves behind.
 */
module CodecContainers {
  import opened Wire
  import opened Codec
  import opened CodecRoundTrip

  lemma {:induction false} InsertAllSnoc(acc: Val, vs: seq<Val>, x: Val)
    ensures InsertAll(acc, vs + [x]) == Insert(InsertAll(acc, vs), x)
    decreases vs
  {
    if vs == [] {
      assert InsertAll(acc, [x]) == InsertAll(Insert(acc, x), []);
      assert [] + [x] == [x];
    } else {
      InsertAllSnoc(Insert(acc, vs[0]), vs[1..], x);
      assert (vs + [x])[1..] == vs[1..] + [x];
    }
  }

  function Regathered(acc: Val, d: Outcome<Val>): Outcome<Val>
    requires d.v.List?
  {
    match d
    case Done(v, rest) => Done(InsertAll(acc, v.vs), rest)
    case Fail(why, v) => Fail(why, InsertAll(acc, v.vs))
  }

  /** Reading a sequence into any container with the same element type behaves as reading it into a
      deque and inserting the deque's elements in order; also when reading stops half way. */
  lemma {:induction false} ManyAsDeque(lib: Lib, c: Ty, n: nat, us: seq<Val>, acc: Val, bs: seq<byte>)
    requires c.Container?() && !c.Array? && HasType(c, acc)
    requires forall i | 0 <= i < |us| :: HasType(c.Elem(), us[i])
    requires HasType(c, InsertAll(acc, us)) && HasRoom(c, InsertAll(acc, us), n)
    ensures DecodeMany(lib, c, n, InsertAll(acc, us), bs) ==
            Regathered(acc, DecodeMany(lib, Deque(c.Elem()), n, List(us), bs))
    decreases n
  {
    if n != 0 {
      var e := c.Elem();
      match Decode(lib, e, Default(e), bs)
      case Fail(_, _) =>
      case Done(x, rest) =>
        InsertAllSnoc(acc, us, x);
        ManyAsDeque(lib, c, n - 1, us + [x], acc, rest);
    }
  }

  /** Why an element loop that holds `held` stops with `rest` unread: the next element fails, or it arrives
      at a vector that cannot grow any more. */
  ghost predicate StopsAt(lib: Lib, c: Ty, held: Val, rest: seq<byte>, why: Stop)
    requires c.Container?()
  {
    var d := Decode(lib, c.Elem(), Default(c.Elem()), rest);
    if d.Fail? then d.why == why else Full(c, held) && why == TooLong
  }

  /** A failing sequence loop leaves exactly the elements decoded before the failing one: reading just
      that many succeeds, and the next element is the one that stops the loop for the reported reason. */
  lemma {:induction false} FailureKeepsPrefix(lib: Lib, c: Ty, n: nat, acc: Val, bs: seq<byte>)
      returns (done: nat, rest: seq<byte>)
    requires c.Container?() && !c.Array? && HasType(c, acc)
    requires DecodeMany(lib, c, n, acc, bs).Fail?
    ensures done < n
    ensures DecodeMany(lib, c, done, acc, bs) == Done(DecodeMany(lib, c, n, acc, bs).v, rest)
    ensures StopsAt(lib, c, DecodeMany(lib, c, n, acc, bs).v, rest, DecodeMany(lib, c, n, acc, bs).why)
    decreases n
  {
    var d := Decode(lib, c.Elem(), Default(c.Elem()), bs);
    if d.Fail? || Full(c, acc) {
      done, rest := 0, bs;
    } else {
      var acc' := Insert(acc, d.v);
      assert DecodeMany(lib, c, n, acc, bs) == DecodeMany(lib, c, n - 1, acc', d.rest);
      var k;
      k, rest := FailureKeepsPrefix(lib, c, n - 1, acc', d.rest);
      done := k + 1;
      assert DecodeMany(lib, c, done, acc, bs) == DecodeMany(lib, c, k, acc', d.rest);
    }
  }

  /** Same success with the same elements, same stop. */
  ghost predicate FilledAlike(d: Outcome<Val>, r: Outcome<seq<Val>>)
    requires d.v.List?
  {
    if d.Done? then r == Done(d.v.vs, d.rest) else r.Fail? && r.why == d.why
  }

  /** Array cells starting out fresh fill up like a deque. */
  lemma {:induction false} CellsAsDeque(lib: Lib, e: Ty, vs: seq<Val>, i: nat, bs: seq<byte>)
    requires i <= |vs|
    requires forall j | 0 <= j < |vs| :: HasType(e, vs[j])
    requires forall j | i <= j < |vs| :: vs[j] == Default(e)
    ensures FilledAlike(DecodeMany(lib, Deque(e), |vs| - i, List(vs[..i]), bs), DecodeCells(lib, e, vs, i, bs))
    decreases |vs| - i
  {
    if i == |vs| {
      assert vs[..i] == vs;
    } else {
      match Decode(lib, e, Default(e), bs)
      case Fail(_, _) =>
      case Done(x, rest) =>
        assert vs[i := x][..i + 1] == vs[..i] + [x];
        CellsAsDeque(lib, e, vs[i := x], i + 1, rest);
    }
  }

  function Gathered(kind: Kind, vs: seq<Val>): Val {
    match kind
    case Sequence => List(vs)
    case Set => Bag(set x | x in vs)
    case Map => Dict(FirstWins(vs))
  }

  /** The deque reading `d`, with its elements gathered as a set or as a first-wins map instead. */
  function Gather(kind: Kind, d: Outcome<Val>): Outcome<Val>
    requires d.v.List?
  {
    match d
    case Done(v, rest) => Done(Gathered(kind, v.vs), rest)
    case Fail(why, v) => Fail(why, Gathered(kind, v.vs))
  }

  lemma InsertAllGathers(c: Ty, us: seq<Val>)
    requires c.Container?() && !c.Array?
    ensures InsertAll(Default(c), us) == Gathered(KindOf(c), us)
  {
    match KindOf(c)
    case Sequence => InsertAllList([], us); assert [] + us == us;
    case Set => InsertAllBag({}, us); assert {} + (set x | x in us) == set x | x in us;
    case Map => InsertAllDict(map[], us); assert FirstWins(us) + map[] == FirstWins(us);
  }

  /** The payload begins with a length the vector cannot have. */
  predicate Oversized(lib: Lib, c: Ty, bs: seq<byte>) {
    c.Vector? && LibLenRead(lib, bs).Got? && LibLenRead(lib, bs).v > c.max
  }

  /** One payload read at the same element type: a vector holds the deque's list, a set its elements, a map
      the first entry of every key. They fail together, for the same reason, holding what the deque would
      have held. Only an oversized vector throws instead. */
  lemma CrossContainer(lib: Lib, c: Ty, bs: seq<byte>)
    requires c.Container?() && !c.Array?
    ensures Decode(lib, c, Default(c), bs) ==
            if Oversized(lib, c, bs) then Fail(TooLong, Default(c))
            else Gather(KindOf(c), Decode(lib, Deque(c.Elem()), List([]), bs))
  {
    match LibLenRead(lib, bs)
    case Bad(_) =>
      InsertAllGathers(c, []);
    case Got(len, rest) =>
      if !Oversized(lib, c, bs) { ManyGathers(lib, c, len, rest); }
  }

  lemma ManyGathers(lib: Lib, c: Ty, len: nat, bs: seq<byte>)
    requires c.Container?() && !c.Array? && HasRoom(c, Default(c), len)
    ensures DecodeMany(lib, c, len, Default(c), bs) == Gather(KindOf(c), DecodeMany(lib, Deque(c.Elem()), len, List([]), bs))
  {
    ManyAsDeque(lib, c, len, [], Default(c), bs);
    InsertAllGathers(c, DecodeMany(lib, Deque(c.Elem()), len, List([]), bs).v.vs);
  }

  /** As `array<T, n>` the payload is accepted if and only if it is accepted as a deque of length `n`, and
      then gives the same list. A wrong length is `Z_EDESERIALIZE`; every other failure is the deque's. */
  lemma CrossArray(lib: Lib, e: Ty, n: SizeT, bs: seq<byte>)
    ensures var d := Decode(lib, Deque(e), List([]), bs);
            var a := Decode(lib, Array(e, n), Default(Array(e, n)), bs);
            && (a.Done? <==> d.Done? && |d.v.vs| == n)
            && (a.Done? ==> a == d)
            && (a.Fail? ==> a.why == if WrongLength(lib, n, bs) then Coded(Z_EDESERIALIZE) else StopOf(d))
  {
    match LibLenRead(lib, bs)
    case Bad(_) =>
    case Got(len, rest) =>
      if len == n {
        var cells := Default(Array(e, n)).vs;
        CellsAsDeque(lib, e, cells, 0, rest);
        assert cells[..0] == [];
      }
      if DecodeMany(lib, Deque(e), len, List([]), rest).Done? { ManyLength(lib, Deque(e), len, List([]), rest); }
  }

  predicate WrongLength(lib: Lib, n: nat, bs: seq<byte>) {
    LibLenRead(lib, bs).Got? && LibLenRead(lib, bs).v != n
  }
}
