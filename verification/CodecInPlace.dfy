/**
 Decoding into an object that already holds something: what a fresh object would have received is
 merged into it. Scalars are overwritten, vectors and deques grow at the end, sets grow, and a map
 keeps its old entry for a key it already has. The one thing that can go wrong on the way is a vector
 that has no room for what arrives.
 */
module CodecInPlace {
  import opened Wire
  import opened Codec
  import opened CodecRoundTrip

  /** Every vector of the target can take its part of `incoming` without exceeding its maximal size. */
  ghost predicate Room(ty: Ty, target: Val, incoming: Val)
    requires HasType(ty, target) && HasType(ty, incoming)
    decreases Size(ty)
  {
    match ty
    case Tuple(ts) => RoomRow(ts, target.vs, incoming.vs)
    case Pair(x, y) => Room(x, target.fst, incoming.fst) && Room(y, target.snd, incoming.snd)
    case Array(e, n) => forall i | 0 <= i < n :: Room(e, target.vs[i], incoming.vs[i])
    case Vector(_, max) => |target.vs| + |incoming.vs| <= max
    case _ => true
  }

  ghost predicate RoomRow(ts: seq<Ty>, olds: seq<Val>, news: seq<Val>)
    requires HasTypes(ts, olds) && HasTypes(ts, news)
    decreases SizeRow(ts)
  {
    ts == [] || (Room(ts[0], olds[0], news[0]) && RoomRow(ts[1..], olds[1..], news[1..]))
  }

  function Merge(ty: Ty, target: Val, incoming: Val): (v: Val)
    requires HasType(ty, target) && HasType(ty, incoming)
    ensures Room(ty, target, incoming) ==> HasType(ty, v)
    decreases Size(ty)
  {
    match ty
    case Scalar(_) => incoming
    case Tuple(ts) => Row(MergeRow(ts, target.vs, incoming.vs))
    case Pair(x, y) => Two(Merge(x, target.fst, incoming.fst), Merge(y, target.snd, incoming.snd))
    case Vector(_, _) => List(target.vs + incoming.vs)
    case Deque(_) => List(target.vs + incoming.vs)
    case Array(e, n) =>
      List(seq(n, i requires 0 <= i < n => Merge(e, target.vs[i], incoming.vs[i])))
    case SetOf(_) => Bag(target.s + incoming.s)
    case MapOf(_, _) => Dict(incoming.m + target.m)
  }

  function MergeRow(ts: seq<Ty>, olds: seq<Val>, news: seq<Val>): (vs: seq<Val>)
    requires HasTypes(ts, olds) && HasTypes(ts, news)
    ensures RoomRow(ts, olds, news) ==> HasTypes(ts, vs)
    decreases SizeRow(ts)
  {
    if ts == [] then [] else [Merge(ts[0], olds[0], news[0])] + MergeRow(ts[1..], olds[1..], news[1..])
  }

  /** A fresh object is a neutral target, and always has room. */
  lemma {:induction false} MergeDefault(ty: Ty, v: Val)
    requires HasType(ty, v)
    ensures Merge(ty, Default(ty), v) == v && Room(ty, Default(ty), v)
    decreases Size(ty)
  {
    match ty
    case Scalar(_) =>
    case Tuple(ts) => MergeDefaultRow(ts, v.vs);
    case Pair(x, y) => MergeDefault(x, v.fst); MergeDefault(y, v.snd);
    case Vector(_, _) => assert [] + v.vs == v.vs;
    case Deque(_) => assert [] + v.vs == v.vs;
    case Array(e, n) =>
      forall i | 0 <= i < n ensures Merge(e, Default(e), v.vs[i]) == v.vs[i] && Room(e, Default(e), v.vs[i]) {
        MergeDefault(e, v.vs[i]);
      }
      assert Merge(ty, Default(ty), v).vs == v.vs;
    case SetOf(_) => assert {} + v.s == v.s;
    case MapOf(_, _) => assert v.m + map[] == v.m;
  }

  lemma {:induction false} MergeDefaultRow(ts: seq<Ty>, vs: seq<Val>)
    requires HasTypes(ts, vs)
    ensures MergeRow(ts, DefaultRow(ts), vs) == vs && RoomRow(ts, DefaultRow(ts), vs)
    decreases SizeRow(ts)
  {
    if ts != [] {
      MergeDefault(ts[0], vs[0]);
      MergeDefaultRow(ts[1..], vs[1..]);
      assert DefaultRow(ts)[1..] == DefaultRow(ts[1..]);
    }
  }

  /** How a failure into a fresh object shows in a target with contents: as the same failure, unless one of
      the two runs has met a vector that is too long. */
  predicate SameStop(expected: Stop, why: Stop) {
    why == expected || why == TooLong || expected == TooLong
  }

  /** `r` is what decoding into `target` must give when decoding into a fresh object gives `d`. */
  ghost predicate Matches(ty: Ty, target: Val, d: Outcome<Val>, r: Outcome<Val>)
    requires HasType(ty, target) && HasType(ty, d.v)
  {
    if d.Fail? then r.Fail? && SameStop(d.why, r.why)
    else if Room(ty, target, d.v) then r == Done(Merge(ty, target, d.v), d.rest)
    else r.Fail? && r.why == TooLong
  }

  ghost predicate MatchesRow(ts: seq<Ty>, targets: seq<Val>, d: Outcome<seq<Val>>, r: Outcome<seq<Val>>)
    requires HasTypes(ts, targets) && HasTypes(ts, d.v)
  {
    if d.Fail? then r.Fail? && SameStop(d.why, r.why)
    else if RoomRow(ts, targets, d.v) then r == Done(MergeRow(ts, targets, d.v), d.rest)
    else r.Fail? && r.why == TooLong
  }

  /** For every target: decoding fails if it would fail into a fresh object or some vector of the target has
      no room for the fresh result; otherwise it merges the fresh result into what was there, and leaves
      the cursor where the fresh run leaves it. */
  lemma {:induction false} DecodeMerge(lib: Lib, ty: Ty, v0: Val, bs: seq<byte>)
    requires HasType(ty, v0)
    ensures Matches(ty, v0, Decode(lib, ty, Default(ty), bs), Decode(lib, ty, v0, bs))
    decreases Size(ty), 1, 1
  {
    match ty
    case Scalar(_) =>
    case Tuple(ts) => MergeRowDecode(lib, ts, v0.vs, bs);
    case Pair(x, y) =>
      DecodeMerge(lib, x, v0.fst, bs);
      var d := Decode(lib, x, Default(x), bs);
      if d.Done? { DecodeMerge(lib, y, v0.snd, d.rest); }
    case Array(e, n) =>
      var l := LibLenRead(lib, bs);
      if l.Got? && l.v == n {
        MergeCells(lib, e, Default(ty).vs, v0.vs, 0, l.rest);
        CellsAsArray(ty, v0, DecodeCells(lib, e, Default(ty).vs, 0, l.rest), DecodeCells(lib, e, v0.vs, 0, l.rest));
      }
    case _ =>
      MergeContainer(lib, ty, v0, bs);
  }

  lemma {:induction false} MergeRowDecode(lib: Lib, ts: seq<Ty>, vs: seq<Val>, bs: seq<byte>)
    requires HasTypes(ts, vs)
    ensures MatchesRow(ts, vs, DecodeRow(lib, ts, DefaultRow(ts), bs), DecodeRow(lib, ts, vs, bs))
    decreases SizeRow(ts), 1, 0
  {
    if ts != [] {
      DecodeMerge(lib, ts[0], vs[0], bs);
      assert DefaultRow(ts)[1..] == DefaultRow(ts[1..]);
      var d := Decode(lib, ts[0], Default(ts[0]), bs);
      if d.Done? { MergeRowDecode(lib, ts[1..], vs[1..], d.rest); }
    }
  }

  // ---------------------------------------------------------------- growing containers

  lemma MergeEmpty(c: Ty, v0: Val)
    requires c.Container?() && !c.Array? && HasType(c, v0)
    ensures Merge(c, v0, Default(c)) == v0
  {
    match v0
    case List(vs) => assert vs + [] == vs;
    case Bag(s) => assert s + {} == s;
    case Dict(m) => assert map[] + m == m;
  }

  lemma MergeInsert(c: Ty, v0: Val, acc: Val, x: Val)
    requires c.Container?() && !c.Array? && HasType(c, v0) && HasType(c, acc) && HasType(c.Elem(), x)
    requires !Full(c, acc)
    ensures HasType(c, Insert(acc, x))
    ensures Insert(Merge(c, v0, acc), x) == Merge(c, v0, Insert(acc, x))
  {
    match c
    case Vector(_, _) => assert v0.vs + acc.vs + [x] == v0.vs + (acc.vs + [x]);
    case Deque(_) => assert v0.vs + acc.vs + [x] == v0.vs + (acc.vs + [x]);
    case SetOf(_) => assert v0.s + acc.s + {x} == v0.s + (acc.s + {x});
    case MapOf(_, _) => MergeInsertDict(v0.m, acc.m, x.fst, x.snd);
  }

  lemma MergeInsertDict(target: map<Val, Val>, acc: map<Val, Val>, k: Val, v: Val)
    ensures (if k in acc + target then acc + target else (acc + target)[k := v])
         == (if k in acc then acc else acc[k := v]) + target
  {
  }

  /** Loops that stay within the maximal size run alike. */
  lemma {:induction false} MergeMany(lib: Lib, c: Ty, n: nat, v0: Val, acc: Val, bs: seq<byte>)
    requires c.Container?() && !c.Array? && HasType(c, v0) && HasType(c, acc)
    requires HasRoom(c, Merge(c, v0, acc), n)
    ensures HasType(c, Merge(c, v0, acc))
    ensures var d, r := DecodeMany(lib, c, n, acc, bs), DecodeMany(lib, c, n, Merge(c, v0, acc), bs);
            if d.Done? then Room(c, v0, d.v) && r == Done(Merge(c, v0, d.v), d.rest) else r.Fail? && r.why == d.why
    decreases n
  {
    if n != 0 {
      var d := Decode(lib, c.Elem(), Default(c.Elem()), bs);
      MergeInsert(c, v0, acc, d.v);
      if d.Done? { MergeMany(lib, c, n - 1, v0, Insert(acc, d.v), d.rest); }
    }
  }

  lemma MergeContainer(lib: Lib, c: Ty, v0: Val, bs: seq<byte>)
    requires c.Container?() && !c.Array? && HasType(c, v0)
    ensures Matches(c, v0, Decode(lib, c, Default(c), bs), Decode(lib, c, v0, bs))
  {
    var l := LibLenRead(lib, bs);
    if l.Got? {
      if HasRoom(c, v0, l.v) {
        MergeInRoom(lib, c, l.v, v0, l.rest);
      } else {
        NoRoom(lib, c, v0, l.v, l.rest);
      }
    }
  }

  lemma MergeInRoom(lib: Lib, c: Ty, len: nat, v0: Val, bs: seq<byte>)
    requires c.Container?() && !c.Array? && HasType(c, v0) && HasRoom(c, v0, len)
    ensures Matches(c, v0, DecodeMany(lib, c, len, Default(c), bs), DecodeMany(lib, c, len, v0, bs))
    ensures len < SIZE_LIMIT ==> Reserves(c, v0, len) && Reserves(c, Default(c), len)
  {
    MergeEmpty(c, v0);
    MergeMany(lib, c, len, v0, Default(c), bs);
  }

  /** The element loop behind a length the vector accepts. */
  function Sized(lib: Lib, c: Ty, len: nat, v0: Val, bs: seq<byte>): (r: Outcome<Val>)
    requires c.Vector? && HasType(c, v0)
    ensures HasType(c, r.v)
  {
    if !Reserves(c, v0, len) then Fail(TooLong, v0) else DecodeMany(lib, c, len, v0, bs)
  }

  /** A vector without room for `len` elements throws, or, if the size computation wraps around, meets
      another failure before it has them all. */
  lemma NoRoom(lib: Lib, c: Ty, v0: Val, len: nat, bs: seq<byte>)
    requires c.Vector? && HasType(c, v0) && len < SIZE_LIMIT && !HasRoom(c, v0, len)
    ensures Matches(c, v0, Sized(lib, c, len, Default(c), bs), Sized(lib, c, len, v0, bs))
  {
    SizedLength(lib, c, len, v0, bs);
    SizedLength(lib, c, len, Default(c), bs);
  }

  lemma SizedLength(lib: Lib, c: Ty, len: nat, v0: Val, bs: seq<byte>)
    requires c.Vector? && HasType(c, v0)
    ensures var r := Sized(lib, c, len, v0, bs);
            if r.Done? then |r.v.vs| == |v0.vs| + len else !Reserves(c, v0, len) ==> r == Fail(TooLong, v0)
  {
    if DecodeMany(lib, c, len, v0, bs).Done? { ManyLength(lib, c, len, v0, bs); }
  }

  // ---------------------------------------------------------------- array cells

  ghost predicate Typed(e: Ty, vs: seq<Val>) { forall j | 0 <= j < |vs| :: HasType(e, vs[j]) }

  /** Cells from `i` on. */
  ghost predicate RoomFrom(e: Ty, olds: seq<Val>, news: seq<Val>, i: nat)
    requires |olds| == |news| && Typed(e, olds) && Typed(e, news)
  {
    forall j | i <= j < |olds| :: Room(e, olds[j], news[j])
  }

  ghost predicate MergedFrom(e: Ty, olds: seq<Val>, news: seq<Val>, vs: seq<Val>, i: nat)
    requires |olds| == |news| == |vs| && Typed(e, olds) && Typed(e, news)
  {
    forall j | i <= j < |olds| :: vs[j] == Merge(e, olds[j], news[j])
  }

  ghost predicate MatchesFrom(e: Ty, olds: seq<Val>, i: nat, d: Outcome<seq<Val>>, r: Outcome<seq<Val>>)
    requires |olds| == |d.v| == |r.v| && Typed(e, olds) && Typed(e, d.v)
  {
    if d.Fail? then r.Fail? && SameStop(d.why, r.why)
    else if RoomFrom(e, olds, d.v, i) then r.Done? && r.rest == d.rest && MergedFrom(e, olds, d.v, r.v, i)
    else r.Fail? && r.why == TooLong
  }

  /** `d` and `r` match from `i` on if they match from `i + 1` on and agree with the merge in cell `i`. */
  lemma CellMatches(e: Ty, olds: seq<Val>, i: nat, x: Val, d: Outcome<seq<Val>>, r: Outcome<seq<Val>>)
    requires i < |olds| == |d.v| == |r.v| && Typed(e, olds) && Typed(e, d.v)
    requires HasType(e, x) && Room(e, olds[i], x) && (d.Done? ==> d.v[i] == x)
    requires r.Done? ==> r.v[i] == Merge(e, olds[i], x)
    requires Typed(e, olds[i := Merge(e, olds[i], x)]) && MatchesFrom(e, olds[i := Merge(e, olds[i], x)], i + 1, d, r)
    ensures MatchesFrom(e, olds, i, d, r)
  {
  }

  lemma CellKept(lib: Lib, e: Ty, vs: seq<Val>, i: nat, bs: seq<byte>)
    requires i < |vs| && Typed(e, vs)
    ensures var r := DecodeCells(lib, e, vs, i + 1, bs); r.Done? ==> r.v[i] == vs[i]
  {
    var r := DecodeCells(lib, e, vs, i + 1, bs);
    if r.Done? {
      CellsKeep(lib, e, vs, i + 1, bs);
      assert r.v[i] == r.v[..i + 1][i] == vs[..i + 1][i];
    }
  }

  /** A cell that takes its value, in front of cells that match. */
  lemma RoomyCell(lib: Lib, e: Ty, ds: seq<Val>, vs: seq<Val>, i: nat, bs: seq<byte>, d: Outcome<Val>, r: Outcome<Val>)
    requires i < |ds| == |vs| && Typed(e, ds) && Typed(e, vs)
    requires d == Decode(lib, e, ds[i], bs) && r == Decode(lib, e, vs[i], bs)
    requires d.Done? && r.Done? && Matches(e, vs[i], d, r)
    requires MatchesFrom(e, vs[i := r.v], i + 1, DecodeCells(lib, e, ds[i := d.v], i + 1, d.rest),
                                                 DecodeCells(lib, e, vs[i := r.v], i + 1, d.rest))
    ensures MatchesFrom(e, vs, i, DecodeCells(lib, e, ds, i, bs), DecodeCells(lib, e, vs, i, bs))
  {
    var ds', vs' := ds[i := d.v], vs[i := r.v];
    CellKept(lib, e, ds', i, d.rest);
    CellKept(lib, e, vs', i, d.rest);
    CellMatches(e, vs, i, d.v, DecodeCells(lib, e, ds', i + 1, d.rest), DecodeCells(lib, e, vs', i + 1, d.rest));
  }

  /** A cell that has no room. */
  lemma CrampedCell(lib: Lib, e: Ty, ds: seq<Val>, vs: seq<Val>, i: nat, bs: seq<byte>, d: Outcome<Val>, r: Outcome<Val>)
    requires i < |ds| == |vs| && Typed(e, ds) && Typed(e, vs)
    requires d == Decode(lib, e, ds[i], bs) && r == Decode(lib, e, vs[i], bs)
    requires d.Done? && r.Fail? && Matches(e, vs[i], d, r)
    ensures MatchesFrom(e, vs, i, DecodeCells(lib, e, ds, i, bs), DecodeCells(lib, e, vs, i, bs))
  {
    var ds' := ds[i := d.v];
    CellKept(lib, e, ds', i, d.rest);
  }

  /** `ds` are the cells of the fresh array and `vs` those of the target; both are to be filled from `i` on. */
  lemma {:induction false} MergeCells(lib: Lib, e: Ty, ds: seq<Val>, vs: seq<Val>, i: nat, bs: seq<byte>)
    requires i <= |ds| == |vs| && Typed(e, ds) && Typed(e, vs)
    requires forall j | i <= j < |ds| :: ds[j] == Default(e)
    ensures MatchesFrom(e, vs, i, DecodeCells(lib, e, ds, i, bs), DecodeCells(lib, e, vs, i, bs))
    decreases Size(e), 2, |vs| - i
  {
    if i != |vs| {
      DecodeMerge(lib, e, vs[i], bs);
      var d, r := Decode(lib, e, ds[i], bs), Decode(lib, e, vs[i], bs);
      if d.Done? && r.Done? {
        MergeCells(lib, e, ds[i := d.v], vs[i := r.v], i + 1, d.rest);
        RoomyCell(lib, e, ds, vs, i, bs, d, r);
      } else if d.Done? {
        CrampedCell(lib, e, ds, vs, i, bs, d, r);
      }
    }
  }

  function AsArray(r: Outcome<seq<Val>>): Outcome<Val> {
    match r case Fail(why, vs) => Fail(why, List(vs)) case Done(vs, rest) => Done(List(vs), rest)
  }

  lemma CellsAsArray(ty: Ty, v0: Val, d: Outcome<seq<Val>>, r: Outcome<seq<Val>>)
    requires ty.Array? && HasType(ty, v0) && |d.v| == |r.v| == ty.n && Typed(ty.e, d.v) && Typed(ty.e, v0.vs)
    requires MatchesFrom(ty.e, v0.vs, 0, d, r)
    ensures Matches(ty, v0, AsArray(d), AsArray(r))
  {
    if d.Done? && RoomFrom(ty.e, v0.vs, d.v, 0) {
      assert Merge(ty, v0, List(d.v)).vs == r.v;
    }
  }

  /** The codec law for a target that already holds something: the encoded value is merged into it, unless a
      vector has no room for its part. For a target without contents (`MergeDefault`) there is room, and
      the value itself arrives. */
  lemma RoundTripInPlace(ty: Ty, o: Obj, v0: Val, rest: seq<byte>)
    requires Fits(ty, o) && HasType(ty, v0)
    ensures HasType(ty, Meaning(o))
    ensures var r := Decode(Reliable, ty, v0, Encode(ty, o) + rest);
            if Room(ty, v0, Meaning(o)) then r == Done(Merge(ty, v0, Meaning(o)), rest)
            else r.Fail? && r.why == TooLong
  {
    RoundTrip(ty, o, rest);
    DecodeMerge(Reliable, ty, v0, Encode(ty, o) + rest);
  }
}
