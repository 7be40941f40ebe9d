/**
 The type-directed codec as pure functions: C++ types, objects in memory (with the iteration order
 their containers happen to have), the values they denote, the encoder, and the decoder that fills an
 existing object in place.
 */
module Codec {
  import opened Wire

  // ---------------------------------------------------------------- types

  /** `size_t`, and the `max_size()` of a vector, which is at most `PTRDIFF_MAX`. */
  type SizeT = n: nat | n < SIZE_LIMIT
  type MaxSize = n: nat | n < SIZE_LIMIT / 2

  /** `SetOf` and `MapOf` stand for both the ordered and the unordered container. */
  datatype Ty =
    | Scalar(p: Prim)
    | Tuple(ts: seq<Ty>)
    | Pair(x: Ty, y: Ty)
    | Vector(e: Ty, max: MaxSize)
    | Deque(e: Ty)
    | Array(e: Ty, n: SizeT)
    | SetOf(e: Ty)
    | MapOf(k: Ty, w: Ty)
  {
    predicate Container?() { Vector? || Deque? || Array? || SetOf? || MapOf? }

    /** The element type a sequence loop serializes. */
    function Elem(): (t: Ty)
      requires Container?()
      ensures Size(t) < Size(this)
    {
      if MapOf? then Pair(k, w) else e
    }

    predicate AdmitsLength(len: nat) { (Array? ==> len == n) && (Vector? ==> len <= max) }
  }

  function Size(ty: Ty): (n: nat)
    ensures n >= 1
  {
    match ty
    case Scalar(_) => 1
    case Tuple(ts) => 1 + SizeRow(ts)
    case Pair(x, y) => 1 + Size(x) + Size(y)
    case MapOf(k, w) => 2 + Size(k) + Size(w)
    case Vector(e, _) => 1 + Size(e)
    case Deque(e) => 1 + Size(e)
    case Array(e, _) => 1 + Size(e)
    case SetOf(e) => 1 + Size(e)
  }

  function SizeRow(ts: seq<Ty>): nat {
    if ts == [] then 0 else 1 + Size(ts[0]) + SizeRow(ts[1..])
  }

  // ---------------------------------------------------------------- values

  /** What `operator==` compares. */
  datatype Val =
    | Atom(a: PVal)
    | Row(vs: seq<Val>)
    | Two(fst: Val, snd: Val)
    | List(vs: seq<Val>)
    | Bag(s: set<Val>)
    | Dict(m: map<Val, Val>)

  ghost predicate HasType(ty: Ty, v: Val)
    decreases Size(ty)
  {
    match ty
    case Scalar(p) => v.Atom? && PrimFits(p, v.a)
    case Tuple(ts) => v.Row? && HasTypes(ts, v.vs)
    case Pair(x, y) => v.Two? && HasType(x, v.fst) && HasType(y, v.snd)
    case Vector(e, max) => v.List? && |v.vs| <= max && forall i | 0 <= i < |v.vs| :: HasType(e, v.vs[i])
    case Deque(e) => v.List? && forall i | 0 <= i < |v.vs| :: HasType(e, v.vs[i])
    case Array(e, n) => v.List? && |v.vs| == n && forall i | 0 <= i < n :: HasType(e, v.vs[i])
    case SetOf(e) => v.Bag? && forall x | x in v.s :: HasType(e, x)
    case MapOf(k, w) => v.Dict? && forall x | x in v.m :: HasType(k, x) && HasType(w, v.m[x])
  }

  ghost predicate HasTypes(ts: seq<Ty>, vs: seq<Val>)
    decreases SizeRow(ts)
  {
    |ts| == |vs| && (ts != [] ==> HasType(ts[0], vs[0]) && HasTypes(ts[1..], vs[1..]))
  }

  /** A freshly declared object: empty containers. (Scalars are then indeterminate in C++; lemma
      `CodecInPlace.DecodeMerge` shows that the choice made here is never observed on success.) */
  function Default(ty: Ty): (v: Val)
    ensures HasType(ty, v)
    decreases Size(ty)
  {
    match ty
    case Scalar(p) => Atom(PrimDefault(p))
    case Tuple(ts) => Row(DefaultRow(ts))
    case Pair(x, y) => Two(Default(x), Default(y))
    case Vector(_, _) => List([])
    case Deque(_) => List([])
    case Array(e, n) => var d := Default(e); List(seq(n, _ => d))
    case SetOf(_) => Bag({})
    case MapOf(_, _) => Dict(map[])
  }

  function DefaultRow(ts: seq<Ty>): (vs: seq<Val>)
    ensures HasTypes(ts, vs)
    decreases SizeRow(ts)
  {
    if ts == [] then [] else [Default(ts[0])] + DefaultRow(ts[1..])
  }

  // ---------------------------------------------------------------- objects

  datatype Kind = Sequence | Set | Map

  /** An object as the serializer walks it: `items` is the iteration order of a container. */
  datatype Obj =
    | OAtom(a: PVal)
    | OTuple(items: seq<Obj>)
    | OPair(fst: Obj, snd: Obj)
    | OCont(kind: Kind, items: seq<Obj>)

  function KindOf(ty: Ty): Kind
    requires ty.Container?()
  {
    match ty case SetOf(_) => Set case MapOf(_, _) => Map case _ => Sequence
  }

  ghost predicate Fits(ty: Ty, o: Obj)
    decreases Size(ty)
  {
    match ty
    case Scalar(p) => o.OAtom? && PrimFits(p, o.a)
    case Tuple(ts) => o.OTuple? && FitsRow(ts, o.items)
    case Pair(x, y) => o.OPair? && Fits(x, o.fst) && Fits(y, o.snd)
    case _ =>
      && o.OCont? && o.kind == KindOf(ty)
      && |o.items| < SIZE_LIMIT
      && ty.AdmitsLength(|o.items|)
      && forall i | 0 <= i < |o.items| :: Fits(ty.Elem(), o.items[i])
  }

  ghost predicate FitsRow(ts: seq<Ty>, os: seq<Obj>)
    decreases SizeRow(ts)
  {
    |ts| == |os| && (ts != [] ==> Fits(ts[0], os[0]) && FitsRow(ts[1..], os[1..]))
  }

  /** The value an object denotes, whatever its iteration order. A container iterates over distinct
      elements (keys); nothing below needs that. */
  function Meaning(o: Obj): Val {
    match o
    case OAtom(a) => Atom(a)
    case OTuple(items) => Row(MeaningAll(items))
    case OPair(x, y) => Two(Meaning(x), Meaning(y))
    case OCont(kind, items) =>
      var vs := MeaningAll(items);
      match kind
      case Sequence => List(vs)
      case Set => Bag(set v | v in vs)
      case Map => Dict(FirstWins(vs))
  }

  function MeaningAll(os: seq<Obj>): (vs: seq<Val>)
    ensures |vs| == |os|
    ensures forall i | 0 <= i < |os| :: vs[i] == Meaning(os[i])
  {
    if os == [] then [] else [Meaning(os[0])] + MeaningAll(os[1..])
  }

  /** The map a list of pairs denotes when the first occurrence of a key wins. */
  function FirstWins(vs: seq<Val>): map<Val, Val> {
    if vs == [] then map[]
    else if vs[0].Two? then FirstWins(vs[1..])[vs[0].fst := vs[0].snd]
    else FirstWins(vs[1..])
  }

  // ---------------------------------------------------------------- encoder

  function Encode(ty: Ty, o: Obj): seq<byte>
    requires Fits(ty, o)
    decreases Size(ty), 0
  {
    match ty
    case Scalar(p) => PrimBytes(p, o.a)
    case Tuple(ts) => EncodeRow(ts, o.items)
    case Pair(x, y) => Encode(x, o.fst) + Encode(y, o.snd)
    case _ => LebBytes(|o.items|) + EncodeItems(ty.Elem(), o.items)
  }

  function EncodeRow(ts: seq<Ty>, os: seq<Obj>): seq<byte>
    requires FitsRow(ts, os)
    decreases SizeRow(ts), 0
  {
    if ts == [] then [] else Encode(ts[0], os[0]) + EncodeRow(ts[1..], os[1..])
  }

  function EncodeItems(e: Ty, os: seq<Obj>): seq<byte>
    requires forall i | 0 <= i < |os| :: Fits(e, os[i])
    decreases Size(e), |os|
  {
    if os == [] then [] else Encode(e, os[0]) + EncodeItems(e, os[1..])
  }

  // ---------------------------------------------------------------- decoder

  /** Why a run stops: a step has failed with a code, or a vector threw `std::length_error`. */
  datatype Stop = Coded(code: ZResult) | TooLong

  /** The in-place decoder either leaves `v` in the target and `rest` unread, or stops at the failing step
      and leaves the target as far as it had been filled. */
  datatype Outcome<T> = Done(v: T, rest: seq<byte>) | Fail(why: Stop, v: T)

  /** How the run ends; success is the code `Z_OK`. */
  function StopOf<T>(r: Outcome<T>): Stop {
    match r case Done(_, _) => Coded(Z_OK) case Fail(why, _) => why
  }

  function LibLenRead(lib: Lib, bs: seq<byte>): (r: Read<nat>)
    ensures r.Bad? ==> r.code != Z_OK
    ensures r.Got? ==> r.v < SIZE_LIMIT
  {
    if lib.CodeAt(|bs|) != Z_OK then Bad(lib.CodeAt(|bs|)) else LenRead(bs)
  }

  function LibPrimRead(lib: Lib, p: Prim, bs: seq<byte>): (r: Read<PVal>)
    ensures r.Bad? ==> r.code != Z_OK
    ensures r.Got? ==> PrimFits(p, r.v)
  {
    if lib.CodeAt(|bs|) != Z_OK then Bad(lib.CodeAt(|bs|)) else PrimRead(p, bs)
  }

  /** `push_back` or `insert` of one decoded element. */
  function Insert(acc: Val, x: Val): Val {
    match acc
    case List(vs) => List(vs + [x])
    case Bag(s) => Bag(s + {x})
    case Dict(m) => if x.Two? && x.fst !in m then Dict(m[x.fst := x.snd]) else acc
    case _ => acc
  }

  /** `value.reserve(value.size() + len)` does not throw. The sum is taken in `size_t`. */
  predicate Reserves(c: Ty, acc: Val, len: nat) {
    c.Vector? && acc.List? ==> (|acc.vs| + len) % SIZE_LIMIT <= c.max
  }

  /** `push_back` throws: the vector has its maximal size. */
  predicate Full(c: Ty, acc: Val) {
    c.Vector? && acc.List? && |acc.vs| >= c.max
  }

  /** What a scalar or string holds after its foreign call has failed. */
  function AfterFailure(lib: Lib, p: Prim, v0: Val): Val {
    if p.Text? && lib.clears then Atom(Chars([])) else v0
  }

  function Decode(lib: Lib, ty: Ty, v0: Val, bs: seq<byte>): (r: Outcome<Val>)
    requires HasType(ty, v0)
    ensures HasType(ty, r.v)
    ensures r.Fail? ==> r.why != Coded(Z_OK)
    decreases Size(ty), 1, 0
  {
    match ty
    case Scalar(p) =>
      (match LibPrimRead(lib, p, bs)
       case Bad(code) => Fail(Coded(code), AfterFailure(lib, p, v0))
       case Got(a, rest) => Done(Atom(a), rest))
    case Tuple(ts) =>
      (match DecodeRow(lib, ts, v0.vs, bs)
       case Fail(why, vs) => Fail(why, Row(vs))
       case Done(vs, rest) => Done(Row(vs), rest))
    case Pair(x, y) =>
      (match Decode(lib, x, v0.fst, bs)
       case Fail(why, v) => Fail(why, Two(v, v0.snd))
       case Done(v, rest) =>
         match Decode(lib, y, v0.snd, rest)
         case Fail(why, w) => Fail(why, Two(v, w))
         case Done(w, rest') => Done(Two(v, w), rest'))
    case Array(e, n) =>
      (match LibLenRead(lib, bs)
       case Bad(code) => Fail(Coded(code), v0)
       case Got(len, rest) =>
         if len != n then Fail(Coded(Z_EDESERIALIZE), v0)
         else
           match DecodeCells(lib, e, v0.vs, 0, rest)
           case Fail(why, vs) => Fail(why, List(vs))
           case Done(vs, rest') => Done(List(vs), rest'))
    case _ =>
      match LibLenRead(lib, bs)
      case Bad(code) => Fail(Coded(code), v0)
      case Got(len, rest) =>
        if !Reserves(ty, v0, len) then Fail(TooLong, v0) else DecodeMany(lib, ty, len, v0, rest)
  }

  /** Tuple components in order, each in place. */
  function DecodeRow(lib: Lib, ts: seq<Ty>, vs: seq<Val>, bs: seq<byte>): (r: Outcome<seq<Val>>)
    requires HasTypes(ts, vs)
    ensures HasTypes(ts, r.v)
    ensures r.Fail? ==> r.why != Coded(Z_OK)
    decreases SizeRow(ts), 1, 0
  {
    if ts == [] then Done([], bs)
    else
      match Decode(lib, ts[0], vs[0], bs)
      case Fail(why, v) => Fail(why, [v] + vs[1..])
      case Done(v, rest) =>
        match DecodeRow(lib, ts[1..], vs[1..], rest)
        case Fail(why, ws) => Fail(why, [v] + ws)
        case Done(ws, rest') => Done([v] + ws, rest')
  }

  /** `n` elements, each decoded into a fresh object and inserted. */
  function DecodeMany(lib: Lib, c: Ty, n: nat, acc: Val, bs: seq<byte>): (r: Outcome<Val>)
    requires c.Container?() && !c.Array?
    requires HasType(c, acc)
    ensures HasType(c, r.v)
    ensures r.Fail? ==> r.why != Coded(Z_OK)
    decreases Size(c), 0, n
  {
    if n == 0 then Done(acc, bs)
    else
      match Decode(lib, c.Elem(), Default(c.Elem()), bs)
      case Fail(why, _) => Fail(why, acc)
      case Done(v, rest) =>
        if Full(c, acc) then Fail(TooLong, acc) else DecodeMany(lib, c, n - 1, Insert(acc, v), rest)
  }

  /** Array cells from `i` on, each in place. */
  function DecodeCells(lib: Lib, e: Ty, vs: seq<Val>, i: nat, bs: seq<byte>): (r: Outcome<seq<Val>>)
    requires i <= |vs|
    requires forall j | 0 <= j < |vs| :: HasType(e, vs[j])
    ensures |r.v| == |vs|
    ensures r.Fail? ==> r.why != Coded(Z_OK)
    ensures forall j | 0 <= j < |vs| :: HasType(e, r.v[j])
    decreases Size(e), 2, |vs| - i
  {
    if i == |vs| then Done(vs, bs)
    else
      match Decode(lib, e, vs[i], bs)
      case Fail(why, v) => Fail(why, vs[i := v])
      case Done(v, rest) => DecodeCells(lib, e, vs[i := v], i + 1, rest)
  }

  /** A finished element loop has pushed one element per turn. */
  lemma {:induction false} ManyLength(lib: Lib, c: Ty, n: nat, acc: Val, bs: seq<byte>)
    requires c.Vector? || c.Deque?
    requires HasType(c, acc) && DecodeMany(lib, c, n, acc, bs).Done?
    ensures |DecodeMany(lib, c, n, acc, bs).v.vs| == |acc.vs| + n
    decreases n
  {
    if n != 0 {
      var d := Decode(lib, c.Elem(), Default(c.Elem()), bs);
      ManyLength(lib, c, n - 1, Insert(acc, d.v), d.rest);
    }
  }

  /** A finished cell loop has not touched the cells in front of it. */
  lemma {:induction false} CellsKeep(lib: Lib, e: Ty, vs: seq<Val>, i: nat, bs: seq<byte>)
    requires i <= |vs| && forall j | 0 <= j < |vs| :: HasType(e, vs[j])
    requires DecodeCells(lib, e, vs, i, bs).Done?
    ensures DecodeCells(lib, e, vs, i, bs).v[..i] == vs[..i]
    decreases |vs| - i
  {
    if i != |vs| {
      var d := Decode(lib, e, vs[i], bs);
      CellsKeep(lib, e, vs[i := d.v], i + 1, d.rest);
      var ws := DecodeCells(lib, e, vs, i, bs).v;
      assert ws[..i] == ws[..i + 1][..i] && vs[i := d.v][..i + 1][..i] == vs[..i];
    }
  }
}
