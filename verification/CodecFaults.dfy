/**
 A failing library only stops runs, it never bends them. A run that makes the failing call ends there, with
 the library's code, holding what it would hold if the payload ended there; every other run is the run with
 a reliable library.
 */
module CodecFaults {
  import opened Wire
  import opened Codec
  import opened CodecPrefix

  function Calm(lib: Lib): Lib { Lib(NoFault, lib.clears) }

  // ---------------------------------------------------------------- the calls of a run

  /** The run makes a foreign call when exactly `m` bytes are left. */
  ghost predicate Calls(lib: Lib, ty: Ty, v0: Val, bs: seq<byte>, m: nat)
    requires HasType(ty, v0)
    decreases Size(ty), 1, 0
  {
    match ty
    case Scalar(_) => |bs| == m
    case Tuple(ts) => CallsRow(lib, ts, v0.vs, bs, m)
    case Pair(x, y) =>
      || Calls(lib, x, v0.fst, bs, m)
      || (Decode(lib, x, v0.fst, bs).Done? && Calls(lib, y, v0.snd, Decode(lib, x, v0.fst, bs).rest, m))
    case Array(e, n) =>
      || |bs| == m
      || (var l := LibLenRead(lib, bs); l.Got? && l.v == n && CallsCells(lib, e, v0.vs, 0, l.rest, m))
    case _ =>
      || |bs| == m
      || (var l := LibLenRead(lib, bs); l.Got? && Reserves(ty, v0, l.v) && CallsMany(lib, ty, l.v, v0, l.rest, m))
  }

  ghost predicate CallsRow(lib: Lib, ts: seq<Ty>, vs: seq<Val>, bs: seq<byte>, m: nat)
    requires HasTypes(ts, vs)
    decreases SizeRow(ts), 1, 0
  {
    ts != [] &&
      (|| Calls(lib, ts[0], vs[0], bs, m)
       || (var d := Decode(lib, ts[0], vs[0], bs); d.Done? && CallsRow(lib, ts[1..], vs[1..], d.rest, m)))
  }

  ghost predicate CallsMany(lib: Lib, c: Ty, n: nat, acc: Val, bs: seq<byte>, m: nat)
    requires c.Container?() && !c.Array? && HasType(c, acc)
    decreases Size(c), 0, n
  {
    n != 0 &&
      (|| Calls(lib, c.Elem(), Default(c.Elem()), bs, m)
       || (var d := Decode(lib, c.Elem(), Default(c.Elem()), bs);
           d.Done? && !Full(c, acc) && CallsMany(lib, c, n - 1, Inserted(c, acc, d.v), d.rest, m)))
  }

  ghost predicate CallsCells(lib: Lib, e: Ty, vs: seq<Val>, i: nat, bs: seq<byte>, m: nat)
    requires i <= |vs| && forall j | 0 <= j < |vs| :: HasType(e, vs[j])
    decreases Size(e), 2, |vs| - i
  {
    i != |vs| &&
      (|| Calls(lib, e, vs[i], bs, m)
       || (var d := Decode(lib, e, vs[i], bs); d.Done? && CallsCells(lib, e, vs[i := d.v], i + 1, d.rest, m)))
  }

  function Inserted(c: Ty, acc: Val, x: Val): (v: Val)
    requires c.Container?() && !c.Array? && HasType(c, acc) && HasType(c.Elem(), x) && !Full(c, acc)
    ensures HasType(c, v)
  {
    Insert(acc, x)
  }

  // ---------------------------------------------------------------- the theorem

  /** The part of the payload in front of the fault. */
  function Before(lib: Lib, bs: seq<byte>): seq<byte>
    requires lib.fault.FaultAt?
  {
    if lib.fault.mark <= |bs| then Cut(bs, lib.fault.mark) else bs
  }

  /** `d` is the outcome with the reliable library, `cut` the one on the payload that ends at the fault, `r`
      the outcome with the failing library; `called` says that the reliable run makes the failing call. */
  ghost predicate Stopped<T>(lib: Lib, called: bool, d: Outcome<T>, cut: Outcome<T>, r: Outcome<T>)
    requires lib.fault.FaultAt?
  {
    if called then cut.Fail? && r == Fail(Coded(lib.fault.code), cut.v) else r == d
  }

  /** A faulty run is, to the value and the byte, either the reliable run or the reliable run on the payload
      that ends where the library fails, with the library's code; and it is the latter exactly if the
      reliable run makes the failing call. */

  lemma {:induction false} FaultExact(lib: Lib, ty: Ty, v0: Val, bs: seq<byte>)
    requires lib.fault.FaultAt? && HasType(ty, v0)
    ensures Calls(Calm(lib), ty, v0, bs, lib.fault.mark) ==> lib.fault.mark <= |bs|
    ensures Stopped(lib, Calls(Calm(lib), ty, v0, bs, lib.fault.mark), Decode(Calm(lib), ty, v0, bs),
                    Decode(Calm(lib), ty, v0, Before(lib, bs)), Decode(lib, ty, v0, bs))
    decreases Size(ty), 1, 1
  {
    var calm, m := Calm(lib), lib.fault.mark;
    match ty
    case Scalar(_) =>
    case Tuple(ts) => FaultExactRow(lib, ts, v0.vs, bs);
    case Pair(x, y) =>
      FaultExact(lib, x, v0.fst, bs);
      if !Calls(calm, x, v0.fst, bs, m) {
        var d := Decode(calm, x, v0.fst, bs);
        if d.Done? {
          FaultExact(lib, y, v0.snd, d.rest);
          if Calls(calm, y, v0.snd, d.rest, m) { Retraction(calm, x, v0.fst, bs, m); }
        }
      }
    case _ => FaultExactContainer(lib, ty, v0, bs);
  }

  lemma {:induction false} FaultExactContainer(lib: Lib, ty: Ty, v0: Val, bs: seq<byte>)
    requires lib.fault.FaultAt? && HasType(ty, v0) && ty.Container?()
    ensures Calls(Calm(lib), ty, v0, bs, lib.fault.mark) ==> lib.fault.mark <= |bs|
    ensures Stopped(lib, Calls(Calm(lib), ty, v0, bs, lib.fault.mark), Decode(Calm(lib), ty, v0, bs),
                    Decode(Calm(lib), ty, v0, Before(lib, bs)), Decode(lib, ty, v0, bs))
    decreases Size(ty), 1, 0
  {
    var calm, m := Calm(lib), lib.fault.mark;
    var l := LibLenRead(calm, bs);
    if |bs| != m && l.Got? {
      if ty.Array? {
        if l.v == ty.n {
          FaultExactCells(lib, ty.e, v0.vs, 0, l.rest);
          if CallsCells(calm, ty.e, v0.vs, 0, l.rest, m) { RetractionLength(calm, bs, m); }
        }
      } else if Reserves(ty, v0, l.v) {
        FaultExactMany(lib, ty, l.v, v0, l.rest);
        if CallsMany(calm, ty, l.v, v0, l.rest, m) { RetractionLength(calm, bs, m); }
      }
    }
  }

  lemma {:induction false} FaultExactRow(lib: Lib, ts: seq<Ty>, vs: seq<Val>, bs: seq<byte>)
    requires lib.fault.FaultAt? && HasTypes(ts, vs)
    ensures CallsRow(Calm(lib), ts, vs, bs, lib.fault.mark) ==> lib.fault.mark <= |bs|
    ensures Stopped(lib, CallsRow(Calm(lib), ts, vs, bs, lib.fault.mark), DecodeRow(Calm(lib), ts, vs, bs),
                    DecodeRow(Calm(lib), ts, vs, Before(lib, bs)), DecodeRow(lib, ts, vs, bs))
    decreases SizeRow(ts), 1, 0
  {
    var calm, m := Calm(lib), lib.fault.mark;
    if ts != [] {
      FaultExact(lib, ts[0], vs[0], bs);
      if !Calls(calm, ts[0], vs[0], bs, m) {
        var d := Decode(calm, ts[0], vs[0], bs);
        if d.Done? {
          FaultExactRow(lib, ts[1..], vs[1..], d.rest);
          if CallsRow(calm, ts[1..], vs[1..], d.rest, m) { Retraction(calm, ts[0], vs[0], bs, m); }
        }
      }
    }
  }

  lemma {:induction false} FaultExactMany(lib: Lib, c: Ty, n: nat, acc: Val, bs: seq<byte>)
    requires lib.fault.FaultAt? && c.Container?() && !c.Array? && HasType(c, acc)
    ensures CallsMany(Calm(lib), c, n, acc, bs, lib.fault.mark) ==> lib.fault.mark <= |bs|
    ensures Stopped(lib, CallsMany(Calm(lib), c, n, acc, bs, lib.fault.mark), DecodeMany(Calm(lib), c, n, acc, bs),
                    DecodeMany(Calm(lib), c, n, acc, Before(lib, bs)), DecodeMany(lib, c, n, acc, bs))
    decreases Size(c), 0, n
  {
    var calm, m, e := Calm(lib), lib.fault.mark, c.Elem();
    if n != 0 {
      FaultExact(lib, e, Default(e), bs);
      if !Calls(calm, e, Default(e), bs, m) {
        var d := Decode(calm, e, Default(e), bs);
        if d.Done? && !Full(c, acc) {
          FaultExactMany(lib, c, n - 1, Inserted(c, acc, d.v), d.rest);
          if CallsMany(calm, c, n - 1, Inserted(c, acc, d.v), d.rest, m) { Retraction(calm, e, Default(e), bs, m); }
        }
      }
    }
  }

  lemma {:induction false} FaultExactCells(lib: Lib, e: Ty, vs: seq<Val>, i: nat, bs: seq<byte>)
    requires lib.fault.FaultAt? && i <= |vs| && forall j | 0 <= j < |vs| :: HasType(e, vs[j])
    ensures CallsCells(Calm(lib), e, vs, i, bs, lib.fault.mark) ==> lib.fault.mark <= |bs|
    ensures Stopped(lib, CallsCells(Calm(lib), e, vs, i, bs, lib.fault.mark), DecodeCells(Calm(lib), e, vs, i, bs),
                    DecodeCells(Calm(lib), e, vs, i, Before(lib, bs)), DecodeCells(lib, e, vs, i, bs))
    decreases Size(e), 2, |vs| - i
  {
    if i != |vs| {
      var calm, m := Calm(lib), lib.fault.mark;
      FaultExact(lib, e, vs[i], bs);
      var d := Decode(calm, e, vs[i], bs);
      if !Calls(calm, e, vs[i], bs, m) && d.Done? {
        var vs' := vs[i := d.v];
        FaultExactCells(lib, e, vs', i + 1, d.rest);
        if CallsCells(calm, e, vs', i + 1, d.rest, m) { Retraction(calm, e, vs[i], bs, m); }
      }
    }
  }

  /** In particular a success with any library is success with a reliable one, with the same value and cursor,
      and a failure is the reliable failure or carries the library's code. */
  lemma FaultStops(lib: Lib, ty: Ty, v0: Val, bs: seq<byte>)
    requires HasType(ty, v0)
    ensures var r := Decode(lib, ty, v0, bs);
            || r == Decode(Calm(lib), ty, v0, bs)
            || (lib.fault.FaultAt? && r.Fail? && r.why == Coded(lib.fault.code))
  {
    if lib.fault.FaultAt? { FaultExact(lib, ty, v0, bs); }
  }

  // ---------------------------------------------------------------- the two modes

  /** Two runs that may differ only in the contents a failure leaves behind. */
  ghost predicate EndAlike<T>(d: Outcome<T>, r: Outcome<T>) {
    if d.Done? then r == d else r.Fail? && r.why == d.why
  }

  /** Whether a string overload clears its target after a failing call has no influence on success, value,
      cursor, or the reported failure. */
  lemma {:induction false} ClearingUnseen(f: Fault, ty: Ty, v0: Val, bs: seq<byte>)
    requires HasType(ty, v0)
    ensures EndAlike(Decode(Lib(f, false), ty, v0, bs), Decode(Lib(f, true), ty, v0, bs))
    decreases Size(ty), 1, 0
  {
    match ty
    case Scalar(_) =>
    case Tuple(ts) => ClearingUnseenRow(f, ts, v0.vs, bs);
    case Pair(x, y) =>
      ClearingUnseen(f, x, v0.fst, bs);
      var d := Decode(Lib(f, false), x, v0.fst, bs);
      if d.Done? { ClearingUnseen(f, y, v0.snd, d.rest); }
    case Array(e, n) =>
      var l := LibLenRead(Lib(f, false), bs);
      if l.Got? && l.v == n { ClearingUnseenCells(f, e, v0.vs, 0, l.rest); }
    case _ =>
      var l := LibLenRead(Lib(f, false), bs);
      if l.Got? && Reserves(ty, v0, l.v) { ClearingUnseenMany(f, ty, l.v, v0, l.rest); }
  }

  lemma {:induction false} ClearingUnseenRow(f: Fault, ts: seq<Ty>, vs: seq<Val>, bs: seq<byte>)
    requires HasTypes(ts, vs)
    ensures EndAlike(DecodeRow(Lib(f, false), ts, vs, bs), DecodeRow(Lib(f, true), ts, vs, bs))
    decreases SizeRow(ts), 1, 0
  {
    if ts != [] {
      ClearingUnseen(f, ts[0], vs[0], bs);
      var d := Decode(Lib(f, false), ts[0], vs[0], bs);
      if d.Done? { ClearingUnseenRow(f, ts[1..], vs[1..], d.rest); }
    }
  }

  lemma {:induction false} ClearingUnseenMany(f: Fault, c: Ty, n: nat, acc: Val, bs: seq<byte>)
    requires c.Container?() && !c.Array? && HasType(c, acc)
    ensures EndAlike(DecodeMany(Lib(f, false), c, n, acc, bs), DecodeMany(Lib(f, true), c, n, acc, bs))
    decreases Size(c), 0, n
  {
    if n != 0 {
      var e := c.Elem();
      ClearingUnseen(f, e, Default(e), bs);
      var d := Decode(Lib(f, false), e, Default(e), bs);
      if d.Done? && !Full(c, acc) { ClearingUnseenMany(f, c, n - 1, Inserted(c, acc, d.v), d.rest); }
    }
  }

  lemma {:induction false} ClearingUnseenCells(f: Fault, e: Ty, vs: seq<Val>, i: nat, bs: seq<byte>)
    requires i <= |vs| && forall j | 0 <= j < |vs| :: HasType(e, vs[j])
    ensures EndAlike(DecodeCells(Lib(f, false), e, vs, i, bs), DecodeCells(Lib(f, true), e, vs, i, bs))
    decreases Size(e), 2, |vs| - i
  {
    if i != |vs| {
      ClearingUnseen(f, e, vs[i], bs);
      var d := Decode(Lib(f, false), e, vs[i], bs);
      if d.Done? { ClearingUnseenCells(f, e, vs[i := d.v], i + 1, d.rest); }
    }
  }
}
