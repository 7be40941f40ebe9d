/**
 Several values through one serializer and one deserializer: calls in a row are one tuple, on either side, so
 that any grouping of the values into calls, tuples and pairs can be read back in any other grouping.
 */
module SuccessiveCalls {
  import opened Wire
  import opened Codec
  import CodecFaults
  import opened CodecFlatten
  import opened ErrorModes
  import opened Serializers
  import opened Deserializers

  lemma FitsRest(ts: seq<Ty>, os: seq<Obj>, i: nat)
    requires i < |ts| == |os| && FitsRow(ts[i..], os[i..])
    ensures Fits(ts[i], os[i]) && FitsRow(ts[i + 1..], os[i + 1..])
    ensures ts[i..][1..] == ts[i + 1..] && os[i..][1..] == os[i + 1..]
  {
    assert ts[i..][1..] == ts[i + 1..] && os[i..][1..] == os[i + 1..];
  }

  /** One `serialize` call per value, up to the first that fails: the buffer, and what the caller is told, are
      those of one `serialize` call on the tuple of the values. */
  method SerializeEach(s: Serializer, ts: seq<Ty>, os: seq<Obj>, err: ErrSlot?) returns (exit: Exit)
    requires FitsRow(ts, os)
    modifies s, err
    ensures s.buf == Write(s.lib, Tuple(ts), OTuple(os), old(s.buf)).buf
    ensures Reports(StopOfWrite(Write(s.lib, Tuple(ts), OTuple(os), old(s.buf))), HasCall(Tuple(ts)),
                    old(ErrCode(err)), exit, err)
    ensures Appended(s.lib, Write(s.lib, Tuple(ts), OTuple(os), old(s.buf)), old(s.buf), Encode(Tuple(ts), OTuple(os)))
    ensures exit == Returned(true) <==> Write(s.lib, Tuple(ts), OTuple(os), old(s.buf)).Wrote?
    ensures s.lib.fault.NoFault? ==> exit == Returned(true) && s.buf == old(s.buf) + Encode(Tuple(ts), OTuple(os))
  {
    ghost var goal, before := WriteRow(s.lib, ts, os, s.buf), ErrCode(err);
    WriteEncodes(s.lib, Tuple(ts), OTuple(os), s.buf);
    ghost var called := false;
    exit := Returned(true);
    var i := 0;
    while i < |ts|
      invariant 0 <= i <= |ts| && exit == Returned(true)
      invariant FitsRow(ts[i..], os[i..]) && WriteRow(s.lib, ts[i..], os[i..], s.buf) == goal
      invariant HasCallRow(ts) <==> called || HasCallRow(ts[i..])
      invariant err != null ==> err.code == if called then Z_OK else before
    {
      FitsRest(ts, os, i);
      exit := s.Serialize(ts[i], os[i], err);
      called := called || HasCall(ts[i]);
      if exit != Returned(true) { return; }
      i := i + 1;
    }
  }

  /** `vs` have arrived; reading the types `ts` next leads to `goal`. */
  ghost predicate Reading(d: Deserializer, ts: seq<Ty>, vs: seq<Val>, err: ErrSlot?, goal: Outcome<seq<Val>>)
    reads d
  {
    d.Valid() && Continue(LibFor(d.fault, err), ts, DefaultRow(ts), Done(vs, d.Rest())) == goal
  }

  function Snoc(vs: seq<Val>, r: Outcome<Val>): Outcome<seq<Val>> {
    match r case Fail(why, v) => Fail(why, vs + [v]) case Done(v, rest) => Done(vs + [v], rest)
  }

  /** The next of several calls reads the first of the types still to come. */
  lemma NextCall(lib: Lib, ts: seq<Ty>, vs: seq<Val>, bs: seq<byte>)
    requires ts != []
    ensures Continue(lib, ts, DefaultRow(ts), Done(vs, bs)) ==
            Continue(lib, ts[1..], DefaultRow(ts[1..]), Snoc(vs, Decode(lib, ts[0], Default(ts[0]), bs)))
  {
    var t, us := [ts[0]], ts[1..];
    var first := DecodeRow(lib, t, [Default(ts[0])], bs);
    assert ts == t + us;
    DecodeAppend(lib, t, us, [Default(ts[0])], DefaultRow(us), bs);
    assert DefaultRow(ts) == [Default(ts[0])] + DefaultRow(us);
    JoinContinue(lib, us, DefaultRow(us), vs, first);
    DecodeSingle(lib, ts[0], Default(ts[0]), bs);
  }

  /** What `*err` holds after successful calls, of which `called` says whether one made a foreign call. */
  ghost predicate Told(err: ErrSlot?, called: bool, before: ZResult)
    reads err
  {
    err != null ==> err.code == if called then Z_OK else before
  }

  /** `vs` and the cursor of `d` are what the read `r` of the tuple of `ts` leaves; after a failure `vs` are the
      components it has got to, and the others are fresh. */
  ghost predicate Received(r: Outcome<Val>, ts: seq<Ty>, vs: seq<Val>, d: Deserializer)
    reads d
  {
    && d.Valid() && r.v.Row?
    && if r.Done? then vs == r.v.vs && d.Rest() == r.rest
       else 0 < |vs| <= |ts| && r.v.vs == vs + DefaultRow(ts[|vs|..])
  }

  /** One `deserialize` call per type, up to the first that fails: the values, the cursor, and what the caller
      is told, are those of one `deserialize` call for the tuple of the types. */
  method DeserializeEach(d: Deserializer, ts: seq<Ty>, err: ErrSlot?) returns (vs: seq<Val>, exit: Exit)
    requires d.Valid()
    modifies d, err
    ensures Received(Decode(LibFor(d.fault, err), Tuple(ts), Default(Tuple(ts)), old(d.Rest())), ts, vs, d)
    ensures Reports(StopOf(Decode(LibFor(d.fault, err), Tuple(ts), Default(Tuple(ts)), old(d.Rest()))),
                    HasCall(Tuple(ts)), old(ErrCode(err)), exit, err)
    ensures exit == Returned(true) <==> Decode(LibFor(d.fault, err), Tuple(ts), Default(Tuple(ts)), old(d.Rest())).Done?
  {
    ghost var before := ErrCode(err);
    ghost var goal := DecodeRow(LibFor(d.fault, err), ts, DefaultRow(ts), d.Rest());
    ghost var called := false;
    vs, exit := [], Returned(true);
    assert [] + goal.v == goal.v;
    var i := 0;
    while i < |ts|
      invariant 0 <= i <= |ts| && |vs| == i && exit == Returned(true)
      invariant Reading(d, ts[i..], vs, err, goal)
      invariant (HasCallRow(ts) <==> called || HasCallRow(ts[i..])) && Told(err, called, before)
    {
      vs, exit := DeserializeOne(d, ts[i..], vs, err, goal, called, before);
      called := called || HasCall(ts[i]);
      assert ts[i..][1..] == ts[i + 1..];
      if exit != Returned(true) { return; }
      i := i + 1;
    }
    assert vs + [] == vs;
  }

  /** The next of these calls. */
  method DeserializeOne(d: Deserializer, ts: seq<Ty>, vs0: seq<Val>, err: ErrSlot?,
                        ghost goal: Outcome<seq<Val>>, ghost called: bool, ghost before: ZResult)
      returns (vs: seq<Val>, exit: Exit)
    requires ts != [] && Reading(d, ts, vs0, err, goal) && Told(err, called, before)
    modifies d, err
    ensures |vs| == |vs0| + 1
    ensures exit == Returned(true) ==> Reading(d, ts[1..], vs, err, goal) && Told(err, called || HasCall(ts[0]), before)
    ensures exit != Returned(true) ==> goal.Fail? && d.Valid() && goal.v == vs + DefaultRow(ts[1..]) && Reports(goal.why, true, before, exit, err)
  {
    NextCall(LibFor(d.fault, err), ts, vs0, d.Rest());
    var v;
    v, exit := d.Deserialize(ts[0], err);
    vs := vs0 + [v];
  }

  /** A new serializer for all values, one call each. */
  method WriteAll(ts: seq<Ty>, os: seq<Obj>, err: ErrSlot?) returns (bytes: seq<byte>, written: bool)
    requires FitsRow(ts, os)
    modifies err
    ensures written && bytes == Encode(Tuple(ts), OTuple(os))
  {
    var s := new Serializer(Reliable);
    var exit := SerializeEach(s, ts, os, err);
    written, bytes := exit == Returned(true), s.buf;
    assert [] + Encode(Tuple(ts), OTuple(os)) == Encode(Tuple(ts), OTuple(os));
  }

  /** A new deserializer for all values, one call each. */
  method ReadAll(fault: Fault, bytes: seq<byte>, us: seq<Ty>, err: ErrSlot?)
      returns (vs: seq<Val>, read: bool, done: bool)
    modifies err
    ensures ReadAs(Decode(LibFor(fault, err), Tuple(us), Default(Tuple(us)), bytes), vs, read, done)
  {
    var d := new Deserializer(fault, bytes);
    ghost var r := Decode(LibFor(fault, err), Tuple(us), Default(Tuple(us)), bytes);
    var exit;
    vs, exit := DeserializeEach(d, us, err);
    assert Received(r, us, vs, d) && (exit == Returned(true) <==> r.Done?);
    read, done := exit == Returned(true), d.IsDone();
    assert d.IsDone() <==> d.Rest() == [];
  }

  ghost predicate ReadAs(r: Outcome<Val>, vs: seq<Val>, read: bool, done: bool) {
    read == r.Done? && (r.Done? ==> r.v.Row? && vs == r.v.vs && done == (r.rest == []))
  }

  /** Values written by calls of the types `ts` and read by calls of the types `us`, with tuples and pairs
      anywhere in either: if the leaf types agree, every call succeeds, the reader holds the writer's leaf
      values in order, and nothing is left over. */
  method WriteThenRead(ts: seq<Ty>, os: seq<Obj>, us: seq<Ty>, err: ErrSlot?)
      returns (vs: seq<Val>, written: bool, read: bool, done: bool)
    requires FitsRow(ts, os) && LeavesRow(ts) == LeavesRow(us)
    modifies err
    ensures written && read && done
    ensures ValLeavesAll(vs) == ValLeavesAll(MeaningAll(os))
  {
    var bytes;
    bytes, written := WriteAll(ts, os, err);
    ReadsBack(ts, os, us, bytes, LibFor(NoFault, err));
    vs, read, done := ReadAll(NoFault, bytes, us, err);
  }

  lemma ReadsBack(ts: seq<Ty>, os: seq<Obj>, us: seq<Ty>, bs: seq<byte>, lib: Lib)
    requires FitsRow(ts, os) && LeavesRow(ts) == LeavesRow(us) && lib.fault.NoFault?
    requires bs == Encode(Tuple(ts), OTuple(os))
    ensures var r := Decode(lib, Tuple(us), Default(Tuple(us)), bs);
            r.Done? && r.rest == [] && r.v.Row? && ValLeavesAll(r.v.vs) == ValLeavesAll(MeaningAll(os))
  {
    assert bs == Encode(Tuple(ts), OTuple(os)) + [];
    AnyNesting(Tuple(ts), Tuple(us), OTuple(os), []);
    CodecFaults.ClearingUnseen(NoFault, Tuple(us), Default(Tuple(us)), bs);
    var r := Decode(Reliable, Tuple(us), Default(Tuple(us)), bs);
    assert ValLeaves(r.v) == ValLeavesAll(r.v.vs) && ValLeaves(Meaning(OTuple(os))) == ValLeavesAll(MeaningAll(os));
  }
}
