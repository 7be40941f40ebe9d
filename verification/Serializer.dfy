/**
 The serializer as the library runs it: primitives appended to a buffer step by step, loops over the
 iteration order of containers, and the two error modes.
 */
module Serializers {
  import opened Wire
  import opened Codec
  import opened ErrorModes

  // ---------------------------------------------------------------- the run, as a function

  /** Buffer after a run that finished, or that stopped with `code`. */
  datatype Written = Wrote(buf: seq<byte>) | Broke(code: ZResult, buf: seq<byte>)

  function Append(lib: Lib, buf: seq<byte>, bs: seq<byte>): (r: Written)
    ensures r.Broke? ==> r.code != Z_OK
  {
    if lib.CodeAt(|buf|) != Z_OK then Broke(lib.CodeAt(|buf|), buf) else Wrote(buf + bs)
  }

  function Write(lib: Lib, ty: Ty, o: Obj, buf: seq<byte>): (r: Written)
    requires Fits(ty, o)
    ensures r.Broke? ==> r.code != Z_OK
    decreases Size(ty), 1, 0
  {
    match ty
    case Scalar(p) => Append(lib, buf, PrimBytes(p, o.a))
    case Tuple(ts) => WriteRow(lib, ts, o.items, buf)
    case Pair(x, y) =>
      var r := Write(lib, x, o.fst, buf);
      if r.Broke? then r else Write(lib, y, o.snd, r.buf)
    case _ =>
      var r := Append(lib, buf, LebBytes(|o.items|));
      if r.Broke? then r else WriteItems(lib, ty.Elem(), o.items, r.buf)
  }

  function WriteRow(lib: Lib, ts: seq<Ty>, os: seq<Obj>, buf: seq<byte>): (r: Written)
    requires FitsRow(ts, os)
    ensures r.Broke? ==> r.code != Z_OK
    decreases SizeRow(ts), 1, 0
  {
    if ts == [] then Wrote(buf)
    else
      var r := Write(lib, ts[0], os[0], buf);
      if r.Broke? then r else WriteRow(lib, ts[1..], os[1..], r.buf)
  }

  function WriteItems(lib: Lib, e: Ty, os: seq<Obj>, buf: seq<byte>): (r: Written)
    requires forall i | 0 <= i < |os| :: Fits(e, os[i])
    ensures r.Broke? ==> r.code != Z_OK
    decreases Size(e), 2, |os|
  {
    if os == [] then Wrote(buf)
    else
      var r := Write(lib, e, os[0], buf);
      if r.Broke? then r else WriteItems(lib, e, os[1..], r.buf)
  }

  // ---------------------------------------------------------------- its meaning

  /** Against the encoding `bs` still to be written: a finished run appended all of it; a broken run
      stopped at the library's fault, strictly before the end, having appended exactly the bytes up to
      there and nothing else. */
  ghost predicate Appended(lib: Lib, r: Written, buf: seq<byte>, bs: seq<byte>) {
    match r
    case Wrote(b) => b == buf + bs
    case Broke(code, b) =>
      && lib.fault.FaultAt? && code == lib.fault.code && |b| == lib.fault.mark
      && |buf| <= |b| < |buf + bs| && b == (buf + bs)[..|b|]
  }

  // ---------------------------------------------------------------- where it breaks

  /** With `n` bytes written already, writing the object makes a foreign call when exactly `m` are: one call
      for each scalar, string and length, in front of its bytes. */
  ghost predicate CallsAt(ty: Ty, o: Obj, n: nat, m: nat)
    requires Fits(ty, o)
    decreases Size(ty), 1, 0
  {
    match ty
    case Scalar(_) => n == m
    case Tuple(ts) => CallsAtRow(ts, o.items, n, m)
    case Pair(x, y) => CallsAt(x, o.fst, n, m) || CallsAt(y, o.snd, n + |Encode(x, o.fst)|, m)
    case _ => n == m || CallsAtItems(ty.Elem(), o.items, n + |LebBytes(|o.items|)|, m)
  }

  ghost predicate CallsAtRow(ts: seq<Ty>, os: seq<Obj>, n: nat, m: nat)
    requires FitsRow(ts, os)
    decreases SizeRow(ts), 1, 0
  {
    ts != [] && (CallsAt(ts[0], os[0], n, m) || CallsAtRow(ts[1..], os[1..], n + |Encode(ts[0], os[0])|, m))
  }

  ghost predicate CallsAtItems(e: Ty, os: seq<Obj>, n: nat, m: nat)
    requires forall i | 0 <= i < |os| :: Fits(e, os[i])
    decreases Size(e), 2, |os|
  {
    os != [] && (CallsAt(e, os[0], n, m) || CallsAtItems(e, os[1..], n + |Encode(e, os[0])|, m))
  }

  /** The run makes the call that fails. */
  ghost predicate Meets(lib: Lib, called: bool) { lib.fault.FaultAt? && called }

  function Mark(lib: Lib): nat { if lib.fault.FaultAt? then lib.fault.mark else 0 }

  /** What a run that is to append `bs` comes to: all of it, or, if it makes the failing call, the code and the
      bytes up to there. */
  ghost predicate Exactly(lib: Lib, called: bool, r: Written, buf: seq<byte>, bs: seq<byte>) {
    if Meets(lib, called) then
      |buf| <= lib.fault.mark < |buf + bs| && r == Broke(lib.fault.code, (buf + bs)[..lib.fault.mark])
    else r == Wrote(buf + bs)
  }

  /** First `bs1`, then, if that is written, `bs2`. */
  lemma ExactlyThen(lib: Lib, c1: bool, c2: bool, buf: seq<byte>, bs1: seq<byte>, bs2: seq<byte>, r1: Written, r2: Written)
    requires Exactly(lib, c1, r1, buf, bs1)
    requires r1.Wrote? ==> Exactly(lib, c2, r2, r1.buf, bs2)
    ensures Exactly(lib, c1 || c2, if r1.Broke? then r1 else r2, buf, bs1 + bs2)
  {
    assert buf + bs1 + bs2 == buf + (bs1 + bs2);
    if r1.Broke? {
      assert (buf + (bs1 + bs2))[..lib.fault.mark] == (buf + bs1)[..lib.fault.mark];
    }
  }

  /** The run in closed form. It breaks exactly if it makes the failing call, and then at that call; every
      other run writes the whole encoding. */
  lemma {:induction false} WriteExact(lib: Lib, ty: Ty, o: Obj, buf: seq<byte>)
    requires Fits(ty, o)
    ensures Exactly(lib, CallsAt(ty, o, |buf|, Mark(lib)), Write(lib, ty, o, buf), buf, Encode(ty, o))
    decreases Size(ty), 1, 1
  {
    match ty
    case Scalar(p) =>
    case Tuple(ts) => WriteRowExact(lib, ts, o.items, buf);
    case Pair(x, y) => WritePairExact(lib, ty, o, buf);
    case _ => WriteSequenceExact(lib, ty, o, buf);
  }

  lemma {:induction false} WritePairExact(lib: Lib, ty: Ty, o: Obj, buf: seq<byte>)
    requires ty.Pair? && Fits(ty, o)
    ensures Exactly(lib, CallsAt(ty, o, |buf|, Mark(lib)), Write(lib, ty, o, buf), buf, Encode(ty, o))
    decreases Size(ty), 1, 0
  {
    var x, y, m := ty.x, ty.y, Mark(lib);
    var c1, c2 := CallsAt(x, o.fst, |buf|, m), CallsAt(y, o.snd, |buf| + |Encode(x, o.fst)|, m);
    WriteExact(lib, x, o.fst, buf);
    var r := Write(lib, x, o.fst, buf);
    if r.Wrote? {
      WriteExact(lib, y, o.snd, r.buf);
      ExactlyThen(lib, c1, c2, buf, Encode(x, o.fst), Encode(y, o.snd), r, Write(lib, y, o.snd, r.buf));
    } else {
      ExactlyThen(lib, c1, c2, buf, Encode(x, o.fst), Encode(y, o.snd), r, r);
    }
  }

  lemma {:induction false} WriteSequenceExact(lib: Lib, c: Ty, o: Obj, buf: seq<byte>)
    requires c.Container?() && Fits(c, o)
    ensures Exactly(lib, CallsAt(c, o, |buf|, Mark(lib)), Write(lib, c, o, buf), buf, Encode(c, o))
    decreases Size(c), 1, 0
  {
    var e, len := c.Elem(), LebBytes(|o.items|);
    var r := Append(lib, buf, len);
    if r.Wrote? { WriteItemsExact(lib, e, o.items, r.buf); }
    ExactlyThen(lib, |buf| == Mark(lib), CallsAtItems(e, o.items, |buf| + |len|, Mark(lib)), buf, len,
                EncodeItems(e, o.items), r, if r.Wrote? then WriteItems(lib, e, o.items, r.buf) else r);
  }

  lemma {:induction false} WriteRowExact(lib: Lib, ts: seq<Ty>, os: seq<Obj>, buf: seq<byte>)
    requires FitsRow(ts, os)
    ensures Exactly(lib, CallsAtRow(ts, os, |buf|, Mark(lib)), WriteRow(lib, ts, os, buf), buf, EncodeRow(ts, os))
    decreases SizeRow(ts), 1, 0
  {
    if ts == [] {
      assert buf + EncodeRow(ts, os) == buf;
    } else {
      WriteExact(lib, ts[0], os[0], buf);
      var r := Write(lib, ts[0], os[0], buf);
      if r.Wrote? { WriteRowExact(lib, ts[1..], os[1..], r.buf); }
      ExactlyThen(lib, CallsAt(ts[0], os[0], |buf|, Mark(lib)),
                  CallsAtRow(ts[1..], os[1..], |buf| + |Encode(ts[0], os[0])|, Mark(lib)), buf, Encode(ts[0], os[0]),
                  EncodeRow(ts[1..], os[1..]), r, if r.Wrote? then WriteRow(lib, ts[1..], os[1..], r.buf) else r);
    }
  }

  lemma {:induction false} WriteItemsExact(lib: Lib, e: Ty, os: seq<Obj>, buf: seq<byte>)
    requires forall i | 0 <= i < |os| :: Fits(e, os[i])
    ensures Exactly(lib, CallsAtItems(e, os, |buf|, Mark(lib)), WriteItems(lib, e, os, buf), buf, EncodeItems(e, os))
    decreases Size(e), 2, |os|
  {
    if os == [] {
      assert buf + EncodeItems(e, os) == buf;
    } else {
      WriteExact(lib, e, os[0], buf);
      var r := Write(lib, e, os[0], buf);
      if r.Wrote? {
        WriteItemsExact(lib, e, os[1..], r.buf);
        ItemsGoOn(lib, e, os, buf);
      } else {
        ItemsStop(lib, e, os, buf);
      }
    }
  }

  lemma ItemsGoOn(lib: Lib, e: Ty, os: seq<Obj>, buf: seq<byte>)
    requires os != [] && (forall i | 0 <= i < |os| :: Fits(e, os[i])) && Write(lib, e, os[0], buf).Wrote?
    requires Exactly(lib, CallsAt(e, os[0], |buf|, Mark(lib)), Write(lib, e, os[0], buf), buf, Encode(e, os[0]))
    requires var buf1 := Write(lib, e, os[0], buf).buf;
             Exactly(lib, CallsAtItems(e, os[1..], |buf1|, Mark(lib)), WriteItems(lib, e, os[1..], buf1), buf1, EncodeItems(e, os[1..]))
    ensures Exactly(lib, CallsAtItems(e, os, |buf|, Mark(lib)), WriteItems(lib, e, os, buf), buf, EncodeItems(e, os))
  {
    var r, more := Write(lib, e, os[0], buf), os[1..];
    ExactlyThen(lib, CallsAt(e, os[0], |buf|, Mark(lib)), CallsAtItems(e, more, |r.buf|, Mark(lib)), buf,
                Encode(e, os[0]), EncodeItems(e, more), r, WriteItems(lib, e, more, r.buf));
  }

  lemma ItemsStop(lib: Lib, e: Ty, os: seq<Obj>, buf: seq<byte>)
    requires os != [] && (forall i | 0 <= i < |os| :: Fits(e, os[i])) && Write(lib, e, os[0], buf).Broke?
    requires Exactly(lib, CallsAt(e, os[0], |buf|, Mark(lib)), Write(lib, e, os[0], buf), buf, Encode(e, os[0]))
    ensures Exactly(lib, CallsAtItems(e, os, |buf|, Mark(lib)), WriteItems(lib, e, os, buf), buf, EncodeItems(e, os))
  {
    var r, more := Write(lib, e, os[0], buf), os[1..];
    ExactlyThen(lib, CallsAt(e, os[0], |buf|, Mark(lib)), CallsAtItems(e, more, |buf| + |Encode(e, os[0])|, Mark(lib)), buf,
                Encode(e, os[0]), EncodeItems(e, more), r, r);
  }

  /** In particular every run writes the encoding, or the part of it before the fault. */
  lemma WriteEncodes(lib: Lib, ty: Ty, o: Obj, buf: seq<byte>)
    requires Fits(ty, o)
    ensures Appended(lib, Write(lib, ty, o, buf), buf, Encode(ty, o))
  {
    WriteExact(lib, ty, o, buf);
  }

  lemma {:induction false} SilentEncodes(ty: Ty, o: Obj)
    requires Fits(ty, o) && !HasCall(ty)
    ensures Encode(ty, o) == []
    decreases Size(ty)
  {
    match ty
    case Tuple(ts) => SilentEncodesRow(ts, o.items);
    case Pair(x, y) => SilentEncodes(x, o.fst); SilentEncodes(y, o.snd);
    case _ =>
  }

  lemma {:induction false} SilentEncodesRow(ts: seq<Ty>, os: seq<Obj>)
    requires FitsRow(ts, os) && !HasCallRow(ts)
    ensures EncodeRow(ts, os) == []
    decreases SizeRow(ts)
  {
    if ts != [] {
      SilentEncodes(ts[0], os[0]);
      SilentEncodesRow(ts[1..], os[1..]);
    }
  }

  /** A type that makes a foreign call makes one before anything is written. */
  lemma {:induction false} CallsFirst(ty: Ty, o: Obj, n: nat)
    requires Fits(ty, o)
    ensures CallsAt(ty, o, n, n) <==> HasCall(ty)
    decreases Size(ty)
  {
    match ty
    case Tuple(ts) => CallsFirstRow(ts, o.items, n);
    case Pair(x, y) =>
      CallsFirst(x, o.fst, n);
      if !HasCall(x) {
        SilentEncodes(x, o.fst);
        CallsFirst(y, o.snd, n);
      }
    case _ =>
  }

  lemma {:induction false} CallsFirstRow(ts: seq<Ty>, os: seq<Obj>, n: nat)
    requires FitsRow(ts, os)
    ensures CallsAtRow(ts, os, n, n) <==> HasCallRow(ts)
    decreases SizeRow(ts)
  {
    if ts != [] {
      CallsFirst(ts[0], os[0], n);
      if !HasCall(ts[0]) {
        SilentEncodes(ts[0], os[0]);
        CallsFirstRow(ts[1..], os[1..], n);
      }
    }
  }

  /** A failure of the first foreign call never goes unnoticed: nothing is written, and the code is reported. */
  lemma FirstFailureStops(f: Failure, clears: bool, ty: Ty, o: Obj, buf: seq<byte>)
    requires Fits(ty, o) && HasCall(ty)
    ensures Write(Lib(FaultAt(|buf|, f), clears), ty, o, buf) == Broke(f, buf)
  {
    CallsFirst(ty, o, |buf|);
    WriteExact(Lib(FaultAt(|buf|, f), clears), ty, o, buf);
    assert (buf + Encode(ty, o))[..|buf|] == buf;
  }

  // ---------------------------------------------------------------- the run, as it happens

  function CodeOfWrite(r: Written): ZResult {
    match r case Wrote(_) => Z_OK case Broke(code, _) => code
  }

  function StopOfWrite(r: Written): Stop { Coded(CodeOfWrite(r)) }

  class Serializer {
    const lib: Lib
    var buf: seq<byte>
    /** A step of the current `serialize` call has failed. Every foreign call requires that none has. */
    ghost var stopped: bool

    constructor (lib: Lib)
      ensures this.lib == lib && buf == [] && !stopped
    {
      this.lib, buf, stopped := lib, [], false;
    }

    /** Any `ze_serializer_serialize_*` call that would append `bs`. */
    method Call(bs: seq<byte>) returns (code: ZResult)
      requires !stopped
      modifies this
      ensures Ran(Append(lib, old(buf), bs)) && code == CodeOfWrite(Append(lib, old(buf), bs))
    {
      code := lib.CodeAt(|buf|);
      if code == Z_OK {
        buf := buf + bs;
      } else {
        stopped := true;
      }
    }

    ghost predicate Ran(r: Written)
      reads this
    {
      buf == r.buf && stopped == r.Broke?
    }

    /** `__zenoh_serialize_with_serializer`, dispatched on the static type. */
    method From(ty: Ty, o: Obj, err: ErrSlot?) returns (exit: Exit)
      requires !stopped && Fits(ty, o)
      modifies this, err
      ensures Ran(Write(lib, ty, o, old(buf)))
      ensures Reports(StopOfWrite(Write(lib, ty, o, old(buf))), HasCall(ty), old(ErrCode(err)), exit, err)
      decreases Size(ty), 3, 0
    {
      match ty
      case Scalar(p) =>
        var code := Call(PrimBytes(p, o.a));
        var thrown := ResultCheck(code, err);
        if thrown { return Thrown(code); }
        exit := Returned(err == null || err.code == Z_OK);
      case Tuple(ts) =>
        exit := FromRow(ts, o.items, err);
      case Pair(x, y) =>
        exit := From(x, o.fst, err);
        if exit == Returned(true) {
          exit := From(y, o.snd, err);
        }
      case _ =>
        exit := FromSequence(ty, o, err);
    }

    /** The fold over a parameter pack. */
    method FromRow(ts: seq<Ty>, os: seq<Obj>, err: ErrSlot?) returns (exit: Exit)
      requires !stopped && FitsRow(ts, os)
      modifies this, err
      ensures Ran(WriteRow(lib, ts, os, old(buf)))
      ensures Reports(StopOfWrite(WriteRow(lib, ts, os, old(buf))), HasCallRow(ts), old(ErrCode(err)), exit, err)
      decreases SizeRow(ts), 3, 0
    {
      if ts == [] { return Returned(true); }
      exit := From(ts[0], os[0], err);
      if exit == Returned(true) {
        exit := FromRow(ts[1..], os[1..], err);
      }
    }

    /** `__serialize_sequence_with_serializer`. */
    method FromSequence(c: Ty, o: Obj, err: ErrSlot?) returns (exit: Exit)
      requires !stopped && c.Container?() && Fits(c, o)
      modifies this, err
      ensures Ran(Write(lib, c, o, old(buf)))
      ensures Reports(StopOfWrite(Write(lib, c, o, old(buf))), true, old(ErrCode(err)), exit, err)
      decreases Size(c), 2, 0
    {
      var code := Call(LebBytes(|o.items|));
      var thrown := ResultCheck(code, err);
      if thrown { return Thrown(code); }
      if err != null && err.code != Z_OK { return Returned(false); }
      ghost var buf0 := buf;
      var i := 0;
      while i < |o.items|
        invariant 0 <= i <= |o.items| && !stopped
        invariant err != null ==> err.code == Z_OK
        invariant WriteItems(lib, c.Elem(), o.items[i..], buf) == WriteItems(lib, c.Elem(), o.items, buf0)
      {
        assert o.items[i..][1..] == o.items[i + 1..];
        exit := From(c.Elem(), o.items[i], err);
        if exit != Returned(true) { return exit; }
        i := i + 1;
      }
      exit := Returned(true);
    }

    /** `Serializer::serialize<T>`. It may be called whatever became of the calls before it; the result of the
        overload is not passed on. */
    method Serialize(ty: Ty, o: Obj, err: ErrSlot?) returns (exit: Exit)
      requires Fits(ty, o)
      modifies this, err
      ensures Ran(Write(lib, ty, o, old(buf)))
      ensures Reports(StopOfWrite(Write(lib, ty, o, old(buf))), HasCall(ty), old(ErrCode(err)), exit, err)
    {
      stopped := false;
      exit := From(ty, o, err);
    }
  }

  /** `ext::serialize`. In the `err` mode the bytes written so far are returned even after a failure. */
  method ExtSerialize(lib: Lib, ty: Ty, o: Obj, err: ErrSlot?) returns (bytes: seq<byte>, exit: Exit)
    requires Fits(ty, o)
    modifies err
    ensures var met := Meets(lib, CallsAt(ty, o, 0, Mark(lib)));
            && (met ==> lib.fault.mark < |Encode(ty, o)|)
            && bytes == (if met then Encode(ty, o)[..lib.fault.mark] else Encode(ty, o))
            && Reports(Coded(if met then lib.fault.code else Z_OK), HasCall(ty), old(ErrCode(err)), exit, err)
    ensures lib.fault.NoFault? ==> bytes == Encode(ty, o)
  {
    WriteExact(lib, ty, o, []);
    assert [] + Encode(ty, o) == Encode(ty, o);
    var s := new Serializer(lib);
    exit := s.Serialize(ty, o, err);
    bytes := s.buf;
  }
}
