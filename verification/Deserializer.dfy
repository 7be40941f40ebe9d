/**
 The deserializer as the library runs it: a cursor that moves through the payload, objects filled in
 place by loops, and the two error modes.
 */
module Deserializers {
  import opened Wire
  import opened Codec
  import opened ErrorModes
  import opened CodecRoundTrip
  import opened CodecPrefix
  import opened CodecFaults
  import opened LengthErrors

  /** The library as a run in the mode of `err` meets it: without an exception to leave by, a string overload
      goes on after a failing call. */
  function LibFor(fault: Fault, err: ErrSlot?): Lib { Lib(fault, err != null) }

  /** A container reads its length, then reserves, then reads its elements. */
  lemma LengthFirst(lib: Lib, c: Ty, v0: Val, bs: seq<byte>)
    requires c.Container?() && !c.Array? && HasType(c, v0)
    ensures var l, r := LibLenRead(lib, bs), Decode(lib, c, v0, bs);
            if l.Bad? then r == Fail(Coded(l.code), v0)
            else if !Reserves(c, v0, l.v) then r == Fail(TooLong, v0)
            else r == DecodeMany(lib, c, l.v, v0, l.rest)
  {
  }

  class Deserializer {
    const fault: Fault
    const data: seq<byte>
    var pos: nat
    /** A step of the current `deserialize` call has failed. Every foreign call requires that none has. */
    ghost var stopped: bool

    ghost predicate Valid()
      reads this
    {
      pos <= |data|
    }

    function Rest(): seq<byte>
      requires Valid()
      reads this
    {
      data[pos..]
    }

    constructor (fault: Fault, data: seq<byte>)
      ensures Valid() && !stopped && this.fault == fault && this.data == data && Rest() == data
    {
      this.fault, this.data, this.pos, this.stopped := fault, data, 0, false;
    }

    predicate IsDone()
      requires Valid()
      reads this
    {
      pos == |data|
    }

    // -------------------------------------------------------------- foreign calls

    /** `ze_deserializer_deserialize_<prim>` into an object holding `prior`. A string call writes to a local
        string instead, which a failing call leaves empty. */
    method ReadPrim(p: Prim, prior: PVal) returns (code: ZResult, v: PVal)
      requires Valid() && !stopped
      modifies this
      ensures Valid()
      ensures match LibPrimRead(Lib(fault, false), p, old(Rest()))
              case Bad(c) => code == c != Z_OK && stopped && v == if p.Text? then Chars([]) else prior
              case Got(a, rest) => code == Z_OK && !stopped && v == a && Rest() == rest
    {
      match LibPrimRead(Lib(fault, false), p, data[pos..])
      case Bad(c) =>
        code, v, stopped := c, if p.Text? then Chars([]) else prior, true;
      case Got(a, rest) =>
        PrimSuffix(p, data[pos..]);
        code, v, pos := Z_OK, a, |data| - |rest|;
    }

    /** `ze_deserializer_deserialize_sequence_length`. */
    method ReadLen() returns (code: ZResult, len: nat)
      requires Valid() && !stopped
      modifies this
      ensures Valid()
      ensures match LibLenRead(Lib(fault, false), old(Rest()))
              case Bad(c) => code == c != Z_OK && stopped
              case Got(n, rest) => code == Z_OK && !stopped && len == n && Rest() == rest
    {
      match LibLenRead(Lib(fault, false), data[pos..])
      case Bad(c) =>
        code, len, stopped := c, 0, true;
      case Got(n, rest) =>
        LebSuffix(data[pos..], LEB_GROUPS);
        code, len, pos := Z_OK, n, |data| - |rest|;
    }

    // -------------------------------------------------------------- overloads

    /** State after an overload whose specification is the outcome `r`. */
    ghost predicate Ran<T>(r: Outcome<T>, v: T)
      reads this
    {
      && Valid()
      && v == r.v
      && stopped == r.Fail?
      && (r.Done? ==> Rest() == r.rest)
    }

    /** `__zenoh_deserialize_with_deserializer`, dispatched on the static type. */
    method Into(ty: Ty, v0: Val, err: ErrSlot?) returns (v: Val, exit: Exit)
      requires Valid() && !stopped && HasType(ty, v0)
      modifies this, err
      ensures Ran(Decode(LibFor(fault, err), ty, v0, old(Rest())), v)
      ensures Reports(StopOf(Decode(LibFor(fault, err), ty, v0, old(Rest()))), HasCall(ty), old(ErrCode(err)), exit, err)
      decreases Size(ty), 3, 0
    {
      match ty
      case Scalar(p) =>
        v, exit := IntoScalar(p, v0, err);
      case Tuple(ts) =>
        var vs;
        vs, exit := IntoRow(ts, v0.vs, err);
        v := Row(vs);
      case Pair(x, y) =>
        var a, b;
        a, exit := Into(x, v0.fst, err);
        if exit != Returned(true) { return Two(a, v0.snd), exit; }
        b, exit := Into(y, v0.snd, err);
        v := Two(a, b);
      case Array(e, n) =>
        var vs;
        vs, exit := IntoArray(e, n, v0.vs, err);
        v := List(vs);
      case _ =>
        v, exit := IntoContainer(ty, v0, err);
    }

    /** The arithmetic overloads read straight into `v0`; the string overload assigns what it has read, unless
        the check throws first. */
    method IntoScalar(p: Prim, v0: Val, err: ErrSlot?) returns (v: Val, exit: Exit)
      requires Valid() && !stopped && HasType(Scalar(p), v0)
      modifies this, err
      ensures Ran(Decode(LibFor(fault, err), Scalar(p), v0, old(Rest())), v)
      ensures Reports(StopOf(Decode(LibFor(fault, err), Scalar(p), v0, old(Rest()))), true, Z_OK, exit, err)
      ensures exit != Returned(true) ==> v == if p == Text && err != null then Atom(Chars([])) else v0
    {
      var code, a := ReadPrim(p, v0.a);
      var thrown := ResultCheck(code, err);
      if thrown { return v0, Thrown(code); }
      v := Atom(a);
      exit := Returned(err == null || err.code == Z_OK);
    }

    /** The fold over a parameter pack: stops at the first component that returns false. */
    method IntoRow(ts: seq<Ty>, vs0: seq<Val>, err: ErrSlot?) returns (vs: seq<Val>, exit: Exit)
      requires Valid() && !stopped && HasTypes(ts, vs0)
      modifies this, err
      ensures Ran(DecodeRow(LibFor(fault, err), ts, vs0, old(Rest())), vs)
      ensures Reports(StopOf(DecodeRow(LibFor(fault, err), ts, vs0, old(Rest()))), HasCallRow(ts), old(ErrCode(err)), exit, err)
      decreases SizeRow(ts), 3, 0
    {
      if ts == [] {
        return [], Returned(true);
      }
      var v, ws;
      v, exit := Into(ts[0], vs0[0], err);
      if exit != Returned(true) { return [v] + vs0[1..], exit; }
      ws, exit := IntoRow(ts[1..], vs0[1..], err);
      vs := [v] + ws;
    }

    /** Common head of the sequence overloads: read the length, or leave. */
    method SequenceBegin(err: ErrSlot?) returns (len: nat, exit: Exit)
      requires Valid() && !stopped
      modifies this, err
      ensures Valid()
      ensures match LibLenRead(Lib(fault, false), old(Rest()))
              case Bad(c) => stopped && Reports(Coded(c), true, Z_OK, exit, err)
              case Got(n, rest) => !stopped && len == n && Rest() == rest && Reports(Coded(Z_OK), true, Z_OK, exit, err)
    {
      var code;
      code, len := ReadLen();
      var thrown := ResultCheck(code, err);
      if thrown { return len, Thrown(code); }
      if err != null && err.code != Z_OK { return len, Returned(false); }
      exit := Returned(true);
    }

    /** `vector`, `deque`, `set`, `map`. Only the vector reserves. */
    method IntoContainer(c: Ty, v0: Val, err: ErrSlot?) returns (v: Val, exit: Exit)
      requires Valid() && !stopped && HasType(c, v0) && c.Container?() && !c.Array?
      modifies this, err
      ensures Ran(Decode(LibFor(fault, err), c, v0, old(Rest())), v)
      ensures Reports(StopOf(Decode(LibFor(fault, err), c, v0, old(Rest()))), true, Z_OK, exit, err)
      decreases Size(c), 2, 0
    {
      ghost var goal := Decode(LibFor(fault, err), c, v0, Rest());
      LengthFirst(LibFor(fault, err), c, v0, Rest());
      var len;
      len, exit := SequenceBegin(err);
      if exit != Returned(true) { return v0, exit; }
      if !Reserves(c, v0, len) {
        stopped := true;
        return v0, LengthError;
      }
      v, exit := Fill(c, len, v0, err, goal);
    }

    /** Between two turns of an element loop: `n` elements are still to come, and reading them has the outcome
        `goal`. (Bound as it is, `lib` keeps the loop itself from looking into `DecodeMany`.) */
    ghost predicate Filling(c: Ty, n: nat, v: Val, err: ErrSlot?, goal: Outcome<Val>)
      requires c.Container?() && !c.Array?
      reads this, err
    {
      && Valid() && !stopped && HasType(c, v) && (err != null ==> err.code == Z_OK)
      && forall lib | lib == LibFor(fault, err) :: DecodeMany(lib, c, n, v, Rest()) == goal
    }

    lemma Filled(c: Ty, v: Val, err: ErrSlot?, goal: Outcome<Val>)
      requires c.Container?() && !c.Array? && Filling(c, 0, v, err, goal)
      ensures goal == Done(v, Rest())
    {
      assert DecodeMany(LibFor(fault, err), c, 0, v, Rest()) == goal;
    }

    /** The element loop. */
    method Fill(c: Ty, len: nat, v0: Val, err: ErrSlot?, ghost goal: Outcome<Val>) returns (v: Val, exit: Exit)
      requires c.Container?() && !c.Array? && Filling(c, len, v0, err, goal)
      modifies this, err
      ensures Ran(goal, v) && Reports(StopOf(goal), true, Z_OK, exit, err)
      decreases Size(c), 1, 0
    {
      v := v0;
      var i := 0;
      while i < len
        invariant 0 <= i <= len && Filling(c, len - i, v, err, goal)
      {
        v, exit := FillOne(c, v, err, len - i, goal);
        if exit != Returned(true) { return v, exit; }
        i := i + 1;
      }
      Filled(c, v, err, goal);
      exit := Returned(err == null || err.code == Z_OK);
    }

    /** One turn: decode into a fresh object, then `push_back` or `insert`. */
    method FillOne(c: Ty, v0: Val, err: ErrSlot?, ghost n: nat, ghost goal: Outcome<Val>) returns (v: Val, exit: Exit)
      requires c.Container?() && !c.Array? && n > 0 && Filling(c, n, v0, err, goal)
      modifies this, err
      ensures exit == Returned(true) ==> Filling(c, n - 1, v, err, goal)
      ensures exit != Returned(true) ==> goal.Fail? && Ran(goal, v) && Reports(goal.why, true, Z_OK, exit, err)
      decreases Size(c), 0, 0
    {
      assert DecodeMany(LibFor(fault, err), c, n, v0, Rest()) == goal;
      var x := Default(c.Elem());
      x, exit := Into(c.Elem(), x, err);
      if exit != Returned(true) { return v0, exit; }
      if c.Vector? && |v0.vs| >= c.max {
        stopped := true;
        return v0, LengthError;
      }
      v := Insert(v0, x);
    }

    /** `std::array`: the length must be `N`. */
    method IntoArray(e: Ty, n: SizeT, vs0: seq<Val>, err: ErrSlot?) returns (vs: seq<Val>, exit: Exit)
      requires Valid() && !stopped && |vs0| == n && forall j | 0 <= j < |vs0| :: HasType(e, vs0[j])
      modifies this, err
      ensures Ran(Decode(LibFor(fault, err), Array(e, n), List(vs0), old(Rest())), List(vs))
      ensures Reports(StopOf(Decode(LibFor(fault, err), Array(e, n), List(vs0), old(Rest()))), true, old(ErrCode(err)), exit, err)
      decreases Size(e), 6, 0
    {
      var len;
      len, exit := SequenceBegin(err);
      if exit != Returned(true) { return vs0, exit; }
      if len != n && (err == null || err.code == Z_OK) {
        stopped := true;
        var thrown := ResultCheck(Z_EDESERIALIZE, err);
        if thrown { return vs0, Thrown(Z_EDESERIALIZE); }
        return vs0, Returned(false);
      }
      vs, exit := FillCells(e, vs0, err);
    }

    ghost predicate FillingCells(e: Ty, vs: seq<Val>, i: nat, err: ErrSlot?, goal: Outcome<seq<Val>>)
      reads this, err
    {
      && Valid() && !stopped && i <= |vs| && (forall j | 0 <= j < |vs| :: HasType(e, vs[j]))
      && (err != null ==> err.code == Z_OK)
      && DecodeCells(LibFor(fault, err), e, vs, i, Rest()) == goal
    }

    /** The cell loop: every cell is decoded in place. */
    method FillCells(e: Ty, vs0: seq<Val>, err: ErrSlot?) returns (vs: seq<Val>, exit: Exit)
      requires Valid() && !stopped && forall j | 0 <= j < |vs0| :: HasType(e, vs0[j])
      requires err != null ==> err.code == Z_OK
      modifies this, err
      ensures Ran(DecodeCells(LibFor(fault, err), e, vs0, 0, old(Rest())), vs)
      ensures Reports(StopOf(DecodeCells(LibFor(fault, err), e, vs0, 0, old(Rest()))), true, Z_OK, exit, err)
      decreases Size(e), 5, 0
    {
      ghost var goal := DecodeCells(LibFor(fault, err), e, vs0, 0, Rest());
      vs := vs0;
      var i := 0;
      while i < |vs|
        invariant 0 <= i <= |vs| && FillingCells(e, vs, i, err, goal)
        decreases |vs| - i
      {
        vs, exit := FillCell(e, vs, i, err, goal);
        if exit != Returned(true) { return vs, exit; }
        i := i + 1;
      }
      exit := Returned(err == null || err.code == Z_OK);
    }

    method FillCell(e: Ty, vs0: seq<Val>, i: nat, err: ErrSlot?, ghost goal: Outcome<seq<Val>>)
        returns (vs: seq<Val>, exit: Exit)
      requires i < |vs0| && FillingCells(e, vs0, i, err, goal)
      modifies this, err
      ensures |vs| == |vs0|
      ensures exit == Returned(true) ==> FillingCells(e, vs, i + 1, err, goal)
      ensures exit != Returned(true) ==> goal.Fail? && Ran(goal, vs) && Reports(goal.why, true, Z_OK, exit, err)
      decreases Size(e), 4, 0
    {
      var x;
      x, exit := Into(e, vs0[i], err);
      vs := vs0[i := x];
    }

    /** `Deserializer::deserialize<T>`: a fresh object, whatever became of it, or an exception. It may be called
        whatever became of the calls before it. */
    method Deserialize(ty: Ty, err: ErrSlot?) returns (v: Val, exit: Exit)
      requires Valid()
      modifies this, err
      ensures Ran(Decode(LibFor(fault, err), ty, Default(ty), old(Rest())), v)
      ensures Reports(StopOf(Decode(LibFor(fault, err), ty, Default(ty), old(Rest()))), HasCall(ty), old(ErrCode(err)), exit, err)
    {
      stopped := false;
      v := Default(ty);
      v, exit := Into(ty, v, err);
    }
  }

  // ---------------------------------------------------------------- whole payloads

  /** How `ext::deserialize` ends when `*err` holds `before` (`Z_OK` for a null `err`). */
  function Final(lib: Lib, ty: Ty, bytes: seq<byte>, before: ZResult): Stop {
    match Decode(lib, ty, Default(ty), bytes)
    case Fail(why, _) => why
    case Done(_, rest) =>
      var code := if HasCall(ty) then Z_OK else before;
      Coded(if rest != [] && code == Z_OK then Z_EDESERIALIZE else code)
  }

  /** `ext::deserialize`. With a null `err`, or one that holds `Z_OK`, a payload is accepted if and only if the
      decoder consumes all of it, and bytes behind the value are `Z_EDESERIALIZE`. (Nothing is returned
      after an exception; `v` is then what the object held.) */
  method ExtDeserialize(fault: Fault, ty: Ty, bytes: seq<byte>, err: ErrSlot?) returns (v: Val, exit: Exit)
    modifies err
    ensures v == Decode(LibFor(fault, err), ty, Default(ty), bytes).v
    ensures Reports(Final(LibFor(fault, err), ty, bytes, old(ErrCode(err))), true, Z_OK, exit, err)
    ensures var d := Decode(LibFor(fault, err), ty, Default(ty), bytes);
            old(ErrCode(err)) == Z_OK ==>
              && (exit == Returned(true) <==> d.Done? && d.rest == [])
              && (d.Done? && d.rest != [] ==> Reports(Coded(Z_EDESERIALIZE), true, Z_OK, exit, err))
  {
    ghost var r := Decode(LibFor(fault, err), ty, Default(ty), bytes);
    var d := new Deserializer(fault, bytes);
    v, exit := d.Deserialize(ty, err);
    if !exit.Returned? {
      assert r.Fail?;
      return;
    }
    assert d.IsDone() <==> d.Rest() == [];
    if !d.IsDone() && (err == null || err.code == Z_OK) {
      var t := ResultCheck(Z_EDESERIALIZE, err);
      if t { return v, Thrown(Z_EDESERIALIZE); }
    }
    exit := Returned(err == null || err.code == Z_OK);
  }

  /** The three ways a payload can relate to an encoding: the encoding itself is accepted with its value,
      an encoding followed by more is `Z_EDESERIALIZE`, a truncated one is an error. */
  lemma PayloadOfEncoding(ty: Ty, o: Obj, extra: seq<byte>, cut: nat)
    requires Fits(ty, o)
    ensures Final(Reliable, ty, Encode(ty, o) + extra, Z_OK) == Coded(if extra == [] then Z_OK else Z_EDESERIALIZE)
    ensures Decode(Reliable, ty, Default(ty), Encode(ty, o) + extra).v == Meaning(o)
    ensures cut < |Encode(ty, o)| ==> Final(Reliable, ty, Encode(ty, o)[..cut], Z_OK) != Coded(Z_OK)
  {
    RoundTrip(ty, o, extra);
    if cut < |Encode(ty, o)| { ProperPrefixRejected(ty, o, cut); }
  }

  /** A stale code in `*err` makes the two modes disagree on the empty tuple: the exception mode accepts
      the empty payload, the other one reports the old code. */
  lemma StaleErrOnEmptyTuple(before: ZResult)
    requires before != Z_OK
    ensures Final(Reliable, Tuple([]), [], Z_OK) == Coded(Z_OK) != Final(Reliable, Tuple([]), [], before)
  {
    assert DefaultRow([]) == [];
  }

  /** More generally a type that makes no foreign call leaves a stale code as it is, on every payload, bytes
      left over or not. */
  lemma StaleErrStays(lib: Lib, ty: Ty, bytes: seq<byte>, before: ZResult)
    requires !HasCall(ty) && before != Z_OK
    ensures Final(lib, ty, bytes, before) == Coded(before)
  {
    SilentSucceeds(lib, ty, Default(ty), bytes);
  }

  /** The modes end alike on every payload and with every library (same code, or `std::length_error` in both)
      if and only if `*err` starts out as `Z_OK` or the type makes at least one foreign call. */
  lemma ModesAgree(ty: Ty, before: ZResult)
    ensures (forall fault, bytes :: Final(Lib(fault, true), ty, bytes, before) == Final(Lib(fault, false), ty, bytes, Z_OK))
            <==> before == Z_OK || HasCall(ty)
  {
    if before != Z_OK && !HasCall(ty) {
      SilentSucceeds(Lib(NoFault, true), ty, Default(ty), []);
      SilentSucceeds(Lib(NoFault, false), ty, Default(ty), []);
      assert Final(Lib(NoFault, true), ty, [], before) != Final(Lib(NoFault, false), ty, [], Z_OK);
    } else {
      forall fault, bytes
        ensures Final(Lib(fault, true), ty, bytes, before) == Final(Lib(fault, false), ty, bytes, Z_OK)
      {
        ClearingUnseen(fault, ty, Default(ty), bytes);
      }
    }
  }

  /** A non-null `err` keeps every exception away, on every payload and with every library, if and only if the
      type sizes no vector. */
  lemma ErrKeepsExceptionsAway(ty: Ty, before: ZResult)
    ensures (forall fault, bytes :: Final(Lib(fault, true), ty, bytes, before) != TooLong) <==> !SizesVector(ty)
  {
    if SizesVector(ty) {
      OversizedThrows(ty);
      ClearingUnseen(NoFault, ty, Default(ty), OversizedPayload(ty));
      assert Final(Lib(NoFault, true), ty, OversizedPayload(ty), before) == TooLong;
    } else {
      forall fault, bytes ensures Final(Lib(fault, true), ty, bytes, before) != TooLong {
        NeverTooLong(Lib(fault, true), ty, Default(ty), bytes);
      }
    }
  }

  lemma {:induction false} SilentSucceeds(lib: Lib, ty: Ty, v0: Val, bs: seq<byte>)
    requires HasType(ty, v0) && !HasCall(ty)
    ensures Decode(lib, ty, v0, bs) == Done(v0, bs)
    decreases Size(ty)
  {
    match ty
    case Tuple(ts) => SilentRow(lib, ts, v0.vs, bs);
    case Pair(x, y) => SilentSucceeds(lib, x, v0.fst, bs); SilentSucceeds(lib, y, v0.snd, bs);
    case _ =>
  }

  lemma {:induction false} SilentRow(lib: Lib, ts: seq<Ty>, vs: seq<Val>, bs: seq<byte>)
    requires HasTypes(ts, vs) && !HasCallRow(ts)
    ensures DecodeRow(lib, ts, vs, bs) == Done(vs, bs)
    decreases SizeRow(ts)
  {
    if ts != [] {
      SilentSucceeds(lib, ts[0], vs[0], bs);
      SilentRow(lib, ts[1..], vs[1..], bs);
      assert [vs[0]] + vs[1..] == vs;
    }
  }

  /** A failure of the first foreign call never goes unnoticed. */
  lemma {:induction false} FirstFailureStops(f: Failure, clears: bool, ty: Ty, v0: Val, bs: seq<byte>)
    requires HasType(ty, v0) && HasCall(ty)
    ensures StopOf(Decode(Lib(FaultAt(|bs|, f), clears), ty, v0, bs)) == Coded(f)
    decreases Size(ty)
  {
    match ty
    case Tuple(ts) => FirstFailureStopsRow(f, clears, ts, v0.vs, bs);
    case Pair(x, y) =>
      if HasCall(x) {
        FirstFailureStops(f, clears, x, v0.fst, bs);
      } else {
        SilentSucceeds(Lib(FaultAt(|bs|, f), clears), x, v0.fst, bs);
        FirstFailureStops(f, clears, y, v0.snd, bs);
      }
    case _ =>
  }

  lemma {:induction false} FirstFailureStopsRow(f: Failure, clears: bool, ts: seq<Ty>, vs: seq<Val>, bs: seq<byte>)
    requires HasTypes(ts, vs) && HasCallRow(ts)
    ensures StopOf(DecodeRow(Lib(FaultAt(|bs|, f), clears), ts, vs, bs)) == Coded(f)
    decreases SizeRow(ts)
  {
    if HasCall(ts[0]) {
      FirstFailureStops(f, clears, ts[0], vs[0], bs);
    } else {
      SilentSucceeds(Lib(FaultAt(|bs|, f), clears), ts[0], vs[0], bs);
      FirstFailureStopsRow(f, clears, ts[1..], vs[1..], bs);
    }
  }
}
