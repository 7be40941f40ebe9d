/**
 What an object holds after a run that failed half way: everything up to the failing part as if the run had
 succeeded, the failing part as its own run leaves it, and everything behind it untouched.
 */
module CodecPartial {
  import opened Wire
  import opened Codec
  import opened CodecRoundTrip
  import opened CodecInPlace
  import opened CodecContainers

  // ---------------------------------------------------------------- tuples

  /** Part `k` is the one that fails: reading the parts before it succeeds, leaving `rest`. */
  ghost predicate RowFailsAt(lib: Lib, ts: seq<Ty>, vs: seq<Val>, bs: seq<byte>, r: Outcome<seq<Val>>, k: nat, rest: seq<byte>)
    requires HasTypes(ts, vs) && |r.v| == |ts| && r.Fail?
  {
    && k < |ts|
    && HasTypes(ts[..k], vs[..k]) && DecodeRow(lib, ts[..k], vs[..k], bs) == Done(r.v[..k], rest)
    && HasType(ts[k], vs[k]) && Decode(lib, ts[k], vs[k], rest) == Fail(r.why, r.v[k])
    && r.v[k + 1..] == vs[k + 1..]
  }

  lemma {:induction false} RowFailure(lib: Lib, ts: seq<Ty>, vs: seq<Val>, bs: seq<byte>) returns (k: nat, rest: seq<byte>)
    requires HasTypes(ts, vs) && DecodeRow(lib, ts, vs, bs).Fail?
    ensures |DecodeRow(lib, ts, vs, bs).v| == |ts|
    ensures RowFailsAt(lib, ts, vs, bs, DecodeRow(lib, ts, vs, bs), k, rest)
    decreases |ts|
  {
    var d, r := Decode(lib, ts[0], vs[0], bs), DecodeRow(lib, ts, vs, bs);
    if d.Fail? {
      k, rest := 0, bs;
      assert r.v[..0] == [] && ts[..0] == [] && vs[..0] == [];
    } else {
      k, rest := RowFailure(lib, ts[1..], vs[1..], d.rest);
      RowFailsLater(lib, ts, vs, bs, k, rest);
      k := k + 1;
    }
  }

  lemma RowFailsLater(lib: Lib, ts: seq<Ty>, vs: seq<Val>, bs: seq<byte>, k: nat, rest: seq<byte>)
    requires ts != [] && HasTypes(ts, vs) && DecodeRow(lib, ts, vs, bs).Fail? && Decode(lib, ts[0], vs[0], bs).Done?
    requires var r := DecodeRow(lib, ts[1..], vs[1..], Decode(lib, ts[0], vs[0], bs).rest);
             r.Fail? && |r.v| == |ts| - 1
             && RowFailsAt(lib, ts[1..], vs[1..], Decode(lib, ts[0], vs[0], bs).rest, r, k, rest)
    ensures |DecodeRow(lib, ts, vs, bs).v| == |ts|
    ensures RowFailsAt(lib, ts, vs, bs, DecodeRow(lib, ts, vs, bs), k + 1, rest)
  {
    var d, r := Decode(lib, ts[0], vs[0], bs), DecodeRow(lib, ts, vs, bs);
    assert ts[..k + 1][1..] == ts[1..][..k] && vs[..k + 1][1..] == vs[1..][..k];
    assert r.v[..k + 1] == [d.v] + r.v[1..][..k];
    assert r.v[1..] == DecodeRow(lib, ts[1..], vs[1..], d.rest).v;
    assert r.v[k + 2..] == r.v[1..][k + 1..] && vs[k + 2..] == vs[1..][k + 1..];
  }

  // ---------------------------------------------------------------- scalars and strings

  /** A number keeps what it held; a string is emptied if the overload goes on after the failing call. */
  lemma ScalarFailure(lib: Lib, p: Prim, v0: Val, bs: seq<byte>)
    requires HasType(Scalar(p), v0) && Decode(lib, Scalar(p), v0, bs).Fail?
    ensures Decode(lib, Scalar(p), v0, bs).v == if p == Text && lib.clears then Atom(Chars([])) else v0
  {
  }

  // ---------------------------------------------------------------- arrays

  /** Cell `k` is the one that fails: filling just the cells before it succeeds, leaving `rest`. */
  ghost predicate CellsFailAt(lib: Lib, e: Ty, vs: seq<Val>, i: nat, bs: seq<byte>, r: Outcome<seq<Val>>, k: nat, rest: seq<byte>)
    requires Typed(e, vs) && |r.v| == |vs| && r.Fail?
  {
    && i <= k < |vs|
    && DecodeCells(lib, e, vs[..k], i, bs) == Done(r.v[..k], rest)
    && Decode(lib, e, vs[k], rest) == Fail(r.why, r.v[k])
    && r.v[k + 1..] == vs[k + 1..]
  }

  lemma {:induction false} CellsFailure(lib: Lib, e: Ty, vs: seq<Val>, i: nat, bs: seq<byte>) returns (k: nat, rest: seq<byte>)
    requires i <= |vs| && Typed(e, vs) && DecodeCells(lib, e, vs, i, bs).Fail?
    ensures CellsFailAt(lib, e, vs, i, bs, DecodeCells(lib, e, vs, i, bs), k, rest)
    decreases |vs| - i
  {
    var r := Decode(lib, e, vs[i], bs);
    if r.Fail? {
      k, rest := i, bs;
    } else {
      var vs' := vs[i := r.v];
      k, rest := CellsFailure(lib, e, vs', i + 1, r.rest);
      assert vs'[..k] == vs[..k][i := r.v] && vs'[k + 1..] == vs[k + 1..];
    }
  }

  /** Cells filled from a payload hold what was in them merged with the elements a deque would have received. */
  lemma CellsMerged(lib: Lib, e: Ty, vs: seq<Val>, bs: seq<byte>) returns (ws: seq<Val>)
    requires Typed(e, vs) && DecodeCells(lib, e, vs, 0, bs).Done?
    ensures |ws| == |vs| && Typed(e, ws)
    ensures DecodeMany(lib, Deque(e), |vs|, List([]), bs) == Done(List(ws), DecodeCells(lib, e, vs, 0, bs).rest)
    ensures RoomFrom(e, vs, ws, 0) && MergedFrom(e, vs, ws, DecodeCells(lib, e, vs, 0, bs).v, 0)
  {
    var ds := seq(|vs|, _ => Default(e));
    MergeCells(lib, e, ds, vs, 0, bs);
    FreshCells(lib, e, ds, bs);
    ws := DecodeCells(lib, e, ds, 0, bs).v;
  }

  lemma FreshCells(lib: Lib, e: Ty, ds: seq<Val>, bs: seq<byte>)
    requires forall j | 0 <= j < |ds| :: ds[j] == Default(e)
    ensures Typed(e, ds) && FilledAlike(DecodeMany(lib, Deque(e), |ds|, List([]), bs), DecodeCells(lib, e, ds, 0, bs))
  {
    CellsAsDeque(lib, e, ds, 0, bs);
    assert ds[..0] == [];
  }

  /** A failing array read. If the length is right, some cell `k` fails: the cells before it hold what was in
      them merged with the elements `ws` a deque would have received, it is as its own run leaves it, and the
      cells behind it are untouched. A missing or wrong length leaves the whole array untouched. */
  lemma ArrayFailure(lib: Lib, e: Ty, n: SizeT, v0: Val, bs: seq<byte>) returns (k: nat, ws: seq<Val>, rest: seq<byte>)
    requires HasType(Array(e, n), v0) && Decode(lib, Array(e, n), v0, bs).Fail?
    ensures var l, r := LibLenRead(lib, bs), Decode(lib, Array(e, n), v0, bs);
            if l.Got? && l.v == n then
              && r.v.List? && |r.v.vs| == n && k < n && |ws| == k && Typed(e, ws)
              && DecodeMany(lib, Deque(e), k, List([]), l.rest) == Done(List(ws), rest)
              && (forall j | 0 <= j < k :: Room(e, v0.vs[j], ws[j]) && r.v.vs[j] == Merge(e, v0.vs[j], ws[j]))
              && Decode(lib, e, v0.vs[k], rest) == Fail(r.why, r.v.vs[k])
              && r.v.vs[k + 1..] == v0.vs[k + 1..]
            else r == Fail(Coded(if l.Bad? then l.code else Z_EDESERIALIZE), v0)
  {
    k, ws, rest := 0, [], bs;
    var l := LibLenRead(lib, bs);
    if l.Got? && l.v == n {
      var vs, r := v0.vs, DecodeCells(lib, e, v0.vs, 0, l.rest);
      k, rest := CellsFailure(lib, e, vs, 0, l.rest);
      var front := vs[..k];
      ws := CellsMerged(lib, e, front, l.rest);
      forall j | 0 <= j < k ensures Room(e, vs[j], ws[j]) && r.v[j] == Merge(e, vs[j], ws[j]) {
        assert front[j] == vs[j] && r.v[..k][j] == r.v[j];
      }
    }
  }

  // ---------------------------------------------------------------- growing containers

  /** A failing read of a container that grows. Without a usable length nothing has happened; otherwise the
      container has had the elements `ws` inserted that a deque would have received, and the next element
      is the one that stops the loop. */
  lemma ContainerFailure(lib: Lib, c: Ty, v0: Val, bs: seq<byte>) returns (k: nat, ws: seq<Val>, rest: seq<byte>)
    requires c.Container?() && !c.Array? && HasType(c, v0) && Decode(lib, c, v0, bs).Fail?
    ensures var l, r := LibLenRead(lib, bs), Decode(lib, c, v0, bs);
            if l.Bad? then r == Fail(Coded(l.code), v0)
            else if !Reserves(c, v0, l.v) then r == Fail(TooLong, v0)
            else
              && k < l.v && DecodeMany(lib, Deque(c.Elem()), k, List([]), l.rest) == Done(List(ws), rest)
              && r.v == InsertAll(v0, ws) && StopsAt(lib, c, r.v, rest, r.why)
  {
    k, ws, rest := 0, [], bs;
    var l := LibLenRead(lib, bs);
    if l.Got? && Reserves(c, v0, l.v) {
      k, rest := FailureKeepsPrefix(lib, c, l.v, v0, l.rest);
      ws := ManyInserted(lib, c, k, v0, l.rest);
    }
  }

  /** A finished element loop has inserted what a deque would have received. */
  lemma ManyInserted(lib: Lib, c: Ty, n: nat, v0: Val, bs: seq<byte>) returns (ws: seq<Val>)
    requires c.Container?() && !c.Array? && HasType(c, v0) && DecodeMany(lib, c, n, v0, bs).Done?
    ensures var r := DecodeMany(lib, c, n, v0, bs);
            r.v == InsertAll(v0, ws) && DecodeMany(lib, Deque(c.Elem()), n, List([]), bs) == Done(List(ws), r.rest)
  {
    if c.Vector? { ManyLength(lib, c, n, v0, bs); }
    ManyAsDeque(lib, c, n, [], v0, bs);
    ws := DecodeMany(lib, Deque(c.Elem()), n, List([]), bs).v.vs;
  }

  // ---------------------------------------------------------------- fresh arrays

  lemma DequeTurn(lib: Lib, e: Ty, n: nat, us: seq<Val>, bs: seq<byte>)
    requires n > 0 && Typed(e, us) && Decode(lib, e, Default(e), bs).Done?
    ensures var d := Decode(lib, e, Default(e), bs);
            DecodeMany(lib, Deque(e), n, List(us), bs) == DecodeMany(lib, Deque(e), n - 1, List(us + [d.v]), d.rest)
  {
  }

  /** Reading part of a sequence and then stopping is stopping in the whole sequence, with that part. */
  lemma {:induction false} DequeStops(lib: Lib, e: Ty, n: nat, k: nat, us: seq<Val>, bs: seq<byte>)
    requires k < n && Typed(e, us) && DecodeMany(lib, Deque(e), k, List(us), bs).Done?
    requires Decode(lib, e, Default(e), DecodeMany(lib, Deque(e), k, List(us), bs).rest).Fail?
    ensures DecodeMany(lib, Deque(e), n, List(us), bs).Fail?
    ensures DecodeMany(lib, Deque(e), n, List(us), bs).v == DecodeMany(lib, Deque(e), k, List(us), bs).v
    decreases k
  {
    if k > 0 {
      var d := Decode(lib, e, Default(e), bs);
      DequeTurn(lib, e, k, us, bs);
      DequeTurn(lib, e, n, us, bs);
      DequeStops(lib, e, n - 1, k - 1, us + [d.v], d.rest);
    }
  }

  /** A fresh array that fails behind its length begins with exactly what a deque would hold after the same
      failure. */
  lemma ArrayKeepsPrefix(lib: Lib, e: Ty, n: SizeT, bs: seq<byte>)
    requires Decode(lib, Array(e, n), Default(Array(e, n)), bs).Fail? && !WrongLength(lib, n, bs)
    ensures var a, d := Decode(lib, Array(e, n), Default(Array(e, n)), bs), Decode(lib, Deque(e), List([]), bs);
            d.Fail? && d.v.List? && a.v.List? && d.v.vs <= a.v.vs && (LibLenRead(lib, bs).Got? ==> |d.v.vs| < n)
  {
    var v0 := Default(Array(e, n));
    var k, ws, rest := ArrayFailure(lib, e, n, v0, bs);
    var l := LibLenRead(lib, bs);
    if l.Got? {
      assert v0.vs[k] == Default(e);
      DequeStops(lib, e, n, k, [], l.rest);
      var a := Decode(lib, Array(e, n), v0, bs);
      forall j | 0 <= j < k ensures a.v.vs[j] == ws[j] {
        assert v0.vs[j] == Default(e);
        MergeDefault(e, ws[j]);
      }
      assert a.v.vs[..k] == ws;
    }
  }
}
