/**
 The two ways every operation reports a failing step: throw its code when `err` is null, or write it
 to `*err` and return false.
 */
module ErrorModes {
  import opened Wire
  import opened Codec

  class ErrSlot {
    var code: ZResult

    constructor (code: ZResult)
      ensures this.code == code
    {
      this.code := code;
    }
  }

  /** How a `bool`-returning overload is left: by a return, by the exception that carries a code, or by the
      `std::length_error` of a vector. */
  datatype Exit = Returned(ok: bool) | Thrown(code: ZResult) | LengthError

  /** `*err`, or `Z_OK` for a null `err`. */
  function ErrCode(err: ErrSlot?): ZResult
    reads err
  {
    if err == null then Z_OK else err.code
  }

  /** `__ZENOH_RESULT_CHECK`. */
  method ResultCheck(code: ZResult, err: ErrSlot?) returns (thrown: bool)
    modifies err
    ensures thrown <==> err == null && code != Z_OK
    ensures err != null ==> err.code == code
  {
    thrown := false;
    if err == null {
      if code != Z_OK {
        thrown := true;
      }
    } else {
      err.code := code;
    }
  }

  /** Does running the overload for `ty` make a foreign call? Only (nestings of) the empty tuple and pairs
      of it do not. */
  predicate HasCall(ty: Ty)
    decreases Size(ty)
  {
    match ty
    case Tuple(ts) => HasCallRow(ts)
    case Pair(x, y) => HasCall(x) || HasCall(y)
    case _ => true
  }

  predicate HasCallRow(ts: seq<Ty>)
    decreases SizeRow(ts)
  {
    ts != [] && (HasCall(ts[0]) || HasCallRow(ts[1..]))
  }

  /** What both modes must report about a run that ends with `why` (code `Z_OK` for success): the exception
      and the return value in one mode, `*err` and the return value in the other. A run that made no
      foreign call has not written `*err`. A vector that is too long throws in both modes, and nothing has
      been reported in `*err` by then. */
  ghost predicate Reports(why: Stop, called: bool, before: ZResult, exit: Exit, err: ErrSlot?)
    reads err
  {
    if why.TooLong? then
      exit == LengthError && (err != null ==> err.code == Z_OK)
    else if err == null then
      exit == if why.code == Z_OK then Returned(true) else Thrown(why.code)
    else
      && exit == Returned(why.code == Z_OK)
      && err.code == if why.code == Z_OK && !called then before else why.code
  }
}
