/**
 The ownership discipline of `Owned<T>`: wrappers that hold a C resource or are gravestones, moves,
 copies, hand-overs to and from C structs, and destruction. A resource is a number handed out by the
 C library in ascending order.
 */
module Ownership {

  /** The inside of an owned C struct; `Null` is the gravestone. */
  datatype Handle = Null | Res(id: nat)

  /** Memory for one wrapper: raw storage, or a living object with its field `_0`. */
  datatype Slot = Dead | Alive(h: Handle)

  /** `slots[i]` is the wrapper at address `i`, `outs` are C structs outside any wrapper, `released` is
      the log of releases, and `next` is the next resource the C library will create. */
  datatype World = World(slots: seq<Slot>, outs: seq<Handle>, released: seq<nat>, next: nat)

  datatype Op =
    | CreateInC                       // a C call leaves a new resource in a C struct
    | NullConstruct(i: nat)
    | TakeConstruct(i: nat, c: nat)   // Owned(OwnedType* pv)
    | MoveConstruct(i: nat, j: nat)
    | MoveAssign(i: nat, j: nat)      // i == j is self-move
    | CopyConstruct(i: nat, j: nat)
    | CopyAssign(i: nat, j: nat)
    | FillByC(i: nat)                 // a C call writes a new resource into a null wrapper
    | ReleaseByC(i: nat)              // z_drop, or a C call that consumes the wrapper
    | MoveToC(i: nat)                 // move_to_c_obj
    | Destroy(i: nat)

  predicate Free(w: World, i: nat) { i < |w.slots| && w.slots[i].Dead? }
  predicate Live(w: World, i: nat) { i < |w.slots| && w.slots[i].Alive? }

  /** What C++ demands: construct in raw storage, use and destroy living objects. */
  predicate Enabled(w: World, op: Op) {
    match op
    case CreateInC => true
    case NullConstruct(i) => Free(w, i)
    case TakeConstruct(i, c) => Free(w, i) && c < |w.outs|
    case MoveConstruct(i, j) => Free(w, i) && Live(w, j)
    case MoveAssign(i, j) => Live(w, i) && Live(w, j)
    case CopyConstruct(i, j) => Free(w, i) && Live(w, j)
    case CopyAssign(i, j) => Live(w, i) && Live(w, j)
    case FillByC(i) => Live(w, i) && w.slots[i].h == Null
    case ReleaseByC(i) => Live(w, i)
    case MoveToC(i) => Live(w, i)
    case Destroy(i) => Live(w, i)
  }

  function Log(h: Handle): seq<nat> { if h.Res? then [h.id] else [] }

  /** The clone of a handle: a new resource, or a gravestone for a gravestone. */
  function Clone(h: Handle, next: nat): Handle { if h.Res? then Res(next) else Null }

  function Step(w: World, op: Op): World
    requires Enabled(w, op)
  {
    match op
    case CreateInC => w.(outs := w.outs + [Res(w.next)], next := w.next + 1)
    case NullConstruct(i) => w.(slots := w.slots[i := Alive(Null)])
    case TakeConstruct(i, c) => w.(slots := w.slots[i := Alive(w.outs[c])], outs := w.outs[c := Null])
    case MoveConstruct(i, j) => w.(slots := w.slots[i := w.slots[j]][j := Alive(Null)])
    case MoveAssign(i, j) =>
      if i == j then w
      else w.(slots := w.slots[i := w.slots[j]][j := Alive(Null)], released := w.released + Log(w.slots[i].h))
    case CopyConstruct(i, j) =>
      w.(slots := w.slots[i := Alive(Clone(w.slots[j].h, w.next))], next := w.next + |Log(w.slots[j].h)|)
    case CopyAssign(i, j) =>
      if i == j then w
      else w.(slots := w.slots[i := Alive(Clone(w.slots[j].h, w.next))],
              released := w.released + Log(w.slots[i].h), next := w.next + |Log(w.slots[j].h)|)
    case FillByC(i) => w.(slots := w.slots[i := Alive(Res(w.next))], next := w.next + 1)
    case ReleaseByC(i) => w.(slots := w.slots[i := Alive(Null)], released := w.released + Log(w.slots[i].h))
    case MoveToC(i) => w.(slots := w.slots[i := Alive(Null)], outs := w.outs + [w.slots[i].h])
    case Destroy(i) => w.(slots := w.slots[i := Dead], released := w.released + Log(w.slots[i].h))
  }

  // ---------------------------------------------------------------- conservation

  /** How often resource `r` is in a handle, a slot, the wrappers, the C structs, the release log. */
  function In(h: Handle, r: nat): nat { if h == Res(r) then 1 else 0 }

  function InSlot(s: Slot, r: nat): nat { if s.Alive? then In(s.h, r) else 0 }

  function Held(slots: seq<Slot>, r: nat): nat {
    if slots == [] then 0 else InSlot(slots[0], r) + Held(slots[1..], r)
  }

  function Outside(outs: seq<Handle>, r: nat): nat {
    if outs == [] then 0 else In(outs[0], r) + Outside(outs[1..], r)
  }

  function Released(w: World, r: nat): nat { multiset(w.released)[r] }

  /** Everywhere a resource can be. */
  function Ledger(w: World, r: nat): nat {
    Held(w.slots, r) + Outside(w.outs, r) + Released(w, r)
  }

  /** Every resource ever created is in exactly one place, exactly once. */
  ghost predicate Conserved(w: World) {
    forall r: nat :: Ledger(w, r) == if r < w.next then 1 else 0
  }

  lemma {:induction false} HeldUpdate(slots: seq<Slot>, i: nat, s: Slot, r: nat)
    requires i < |slots|
    ensures Held(slots[i := s], r) == Held(slots, r) - InSlot(slots[i], r) + InSlot(s, r)
    decreases |slots|
  {
    if i == 0 {
      assert slots[i := s][1..] == slots[1..];
    } else {
      HeldUpdate(slots[1..], i - 1, s, r);
      assert slots[i := s][1..] == slots[1..][i - 1 := s];
    }
  }

  lemma {:induction false} OutsideUpdate(outs: seq<Handle>, c: nat, h: Handle, r: nat)
    requires c < |outs|
    ensures Outside(outs[c := h], r) == Outside(outs, r) - In(outs[c], r) + In(h, r)
    decreases |outs|
  {
    if c == 0 {
      assert outs[c := h][1..] == outs[1..];
    } else {
      OutsideUpdate(outs[1..], c - 1, h, r);
      assert outs[c := h][1..] == outs[1..][c - 1 := h];
    }
  }

  lemma {:induction false} OutsideSnoc(outs: seq<Handle>, h: Handle, r: nat)
    ensures Outside(outs + [h], r) == Outside(outs, r) + In(h, r)
    decreases |outs|
  {
    if outs == [] {
      assert (outs + [h])[1..] == [];
    } else {
      assert (outs + [h])[1..] == outs[1..] + [h];
      OutsideSnoc(outs[1..], h, r);
    }
  }

  lemma Moved(slots: seq<Slot>, i: nat, j: nat, r: nat)
    requires i < |slots| && j < |slots| && i != j && slots[j].Alive?
    ensures Held(slots[i := slots[j]][j := Alive(Null)], r) == Held(slots, r) - InSlot(slots[i], r)
  {
    HeldUpdate(slots, i, slots[j], r);
    HeldUpdate(slots[i := slots[j]], j, Alive(Null), r);
  }

  lemma Logged(released: seq<nat>, h: Handle, r: nat)
    ensures multiset(released + Log(h))[r] == multiset(released)[r] + In(h, r)
  {
  }

  /** A step adds to the ledger what the C library created in it, and nothing else; in particular it loses
      nothing. */
  lemma StepLedger(w: World, op: Op, r: nat)
    requires Enabled(w, op)
    ensures var w' := Step(w, op);
            && w.next <= w'.next <= w.next + 1
            && Ledger(w', r) == Ledger(w, r) + if w.next <= r < w'.next then 1 else 0
  {
    match op
    case CreateInC => OutsideSnoc(w.outs, Res(w.next), r);
    case NullConstruct(i) => HeldUpdate(w.slots, i, Alive(Null), r);
    case TakeConstruct(i, c) => HeldUpdate(w.slots, i, Alive(w.outs[c]), r); OutsideUpdate(w.outs, c, Null, r);
    case MoveConstruct(i, j) => Moved(w.slots, i, j, r);
    case MoveAssign(i, j) =>
      if i != j { Moved(w.slots, i, j, r); Logged(w.released, w.slots[i].h, r); }
    case CopyConstruct(i, j) => HeldUpdate(w.slots, i, Alive(Clone(w.slots[j].h, w.next)), r);
    case CopyAssign(i, j) =>
      HeldUpdate(w.slots, i, Alive(Clone(w.slots[j].h, w.next)), r);
      Logged(w.released, w.slots[i].h, r);
    case FillByC(i) => HeldUpdate(w.slots, i, Alive(Res(w.next)), r);
    case ReleaseByC(i) => HeldUpdate(w.slots, i, Alive(Null), r); Logged(w.released, w.slots[i].h, r);
    case MoveToC(i) => HeldUpdate(w.slots, i, Alive(Null), r); OutsideSnoc(w.outs, w.slots[i].h, r);
    case Destroy(i) => HeldUpdate(w.slots, i, Dead, r); Logged(w.released, w.slots[i].h, r);
  }

  lemma StepConserves(w: World, op: Op)
    requires Enabled(w, op)
    ensures Conserved(w) ==> Conserved(Step(w, op))
  {
    forall r: nat { StepLedger(w, op, r); }
  }

  // ---------------------------------------------------------------- who has what

  datatype Place = InWrapper(i: nat) | InStruct(c: nat) | Gone

  ghost predicate At(w: World, r: nat, p: Place) {
    match p
    case InWrapper(i) => i < |w.slots| && w.slots[i] == Alive(Res(r))
    case InStruct(c) => c < |w.outs| && w.outs[c] == Res(r)
    case Gone => Released(w, r) >= 1
  }

  lemma {:induction false} HeldAt(slots: seq<Slot>, i: nat, r: nat)
    requires i < |slots| && slots[i] == Alive(Res(r))
    ensures Held(slots, r) >= 1
    decreases |slots|
  {
    if i > 0 { HeldAt(slots[1..], i - 1, r); }
  }

  lemma {:induction false} OutsideAt(outs: seq<Handle>, c: nat, r: nat)
    requires c < |outs| && outs[c] == Res(r)
    ensures Outside(outs, r) >= 1
    decreases |outs|
  {
    if c > 0 { OutsideAt(outs[1..], c - 1, r); }
  }

  lemma {:induction false} HeldSomewhere(slots: seq<Slot>, r: nat) returns (i: nat)
    requires Held(slots, r) >= 1
    ensures i < |slots| && slots[i] == Alive(Res(r))
    decreases |slots|
  {
    if slots[0] == Alive(Res(r)) {
      i := 0;
    } else {
      i := HeldSomewhere(slots[1..], r);
      i := i + 1;
    }
  }

  lemma {:induction false} OutsideSomewhere(outs: seq<Handle>, r: nat) returns (c: nat)
    requires Outside(outs, r) >= 1
    ensures c < |outs| && outs[c] == Res(r)
    decreases |outs|
  {
    if outs[0] == Res(r) {
      c := 0;
    } else {
      c := OutsideSomewhere(outs[1..], r);
      c := c + 1;
    }
  }

  /** Every resource created so far is somewhere. */
  lemma SomePlace(w: World, r: nat) returns (p: Place)
    requires Conserved(w) && r < w.next
    ensures At(w, r, p)
  {
    assert Ledger(w, r) == 1;
    if Held(w.slots, r) >= 1 {
      var i := HeldSomewhere(w.slots, r);
      p := InWrapper(i);
    } else if Outside(w.outs, r) >= 1 {
      var c := OutsideSomewhere(w.outs, r);
      p := InStruct(c);
    } else {
      p := Gone;
    }
  }

  lemma AtCounts(w: World, r: nat, p: Place)
    requires At(w, r, p)
    ensures match p
            case InWrapper(_) => Held(w.slots, r) >= 1
            case InStruct(_) => Outside(w.outs, r) >= 1
            case Gone => Released(w, r) >= 1
  {
    match p
    case InWrapper(i) => HeldAt(w.slots, i, r);
    case InStruct(c) => OutsideAt(w.outs, c, r);
    case Gone =>
  }

  /** At only one place. */
  lemma OnePlace(w: World, r: nat, p: Place, q: Place)
    requires Conserved(w) && At(w, r, p) && At(w, r, q)
    ensures p == q && r < w.next
  {
    AtCounts(w, r, p);
    AtCounts(w, r, q);
    assert Ledger(w, r) <= 1;
    if p.InWrapper? && q.InWrapper? && p.i != q.i {
      HeldUpdate(w.slots, p.i, Dead, r);
      HeldAt(w.slots[p.i := Dead], q.i, r);
    }
    if p.InStruct? && q.InStruct? && p.c != q.c {
      OutsideUpdate(w.outs, p.c, Null, r);
      OutsideAt(w.outs[p.c := Null], q.c, r);
    }
  }

  /** Wrapper `i` has what it holds released. */
  predicate GivesUp(op: Op, i: nat) {
    || op == ReleaseByC(i) || op == Destroy(i)
    || (op.MoveAssign? && op.i == i != op.j) || (op.CopyAssign? && op.i == i != op.j)
  }

  /** Where the operation takes a resource that is at `p`, with `outs` C structs around. */
  function Destination(op: Op, p: Place, outs: nat): Place {
    match p
    case InWrapper(k) =>
      if GivesUp(op, k) then Gone
      else if op == MoveToC(k) then InStruct(outs)
      else if (op.MoveConstruct? || op.MoveAssign?) && op.j == k then InWrapper(op.i)
      else p
    case InStruct(c) => if op.TakeConstruct? && op.c == c then InWrapper(op.i) else p
    case Gone => Gone
  }

  /** Where a resource created by the operation arrives. */
  function Birthplace(op: Op, outs: nat): Place {
    match op
    case CreateInC => InStruct(outs)
    case FillByC(i) => InWrapper(i)
    case CopyConstruct(i, _) => InWrapper(i)
    case CopyAssign(i, _) => InWrapper(i)
    case _ => Gone
  }

  predicate Constructs(op: Op, i: nat) {
    || op == NullConstruct(i) || (op.TakeConstruct? && op.i == i) || (op.MoveConstruct? && op.i == i)
    || (op.CopyConstruct? && op.i == i)
  }

  /** Every resource goes where the operation takes it. */
  lemma StepTakes(w: World, op: Op, r: nat, p: Place)
    requires Enabled(w, op) && At(w, r, p)
    ensures At(Step(w, op), r, Destination(op, p, |w.outs|))
  {
    var w' := Step(w, op);
    match p
    case InWrapper(k) =>
      if GivesUp(op, k) { assert w'.released == w.released + [r]; }
    case InStruct(c) =>
    case Gone =>
      StepReleases(w, op, r);
  }

  /** What has been released stays so. */
  lemma StepReleases(w: World, op: Op, r: nat)
    requires Enabled(w, op)
    ensures Released(Step(w, op), r) >= Released(w, r)
  {
    if op.MoveAssign? || op.CopyAssign? || op.ReleaseByC? || op.Destroy? {
      Logged(w.released, w.slots[op.i].h, r);
    }
  }

  /** And it is nowhere else. */
  lemma StepPlaces(w: World, op: Op, r: nat, p: Place)
    requires Enabled(w, op) && Conserved(w)
    ensures At(Step(w, op), r, p) <==>
            || (exists q :: At(w, r, q) && p == Destination(op, q, |w.outs|))
            || (r == w.next < Step(w, op).next && p == Birthplace(op, |w.outs|))
  {
    var w' := Step(w, op);
    StepConserves(w, op);
    forall q | At(w, r, q) ensures At(w', r, Destination(op, q, |w.outs|)) { StepTakes(w, op, r, q); }
    if At(w', r, p) {
      if r < w.next {
        var q := SomePlace(w, r);
        OnePlace(w', r, p, Destination(op, q, |w.outs|));
      } else {
        OnePlace(w', r, p, p);
        StepLedger(w, op, r);
        OnePlace(w', r, p, Birthplace(op, |w.outs|));
      }
    }
  }

  /** Which wrappers live, how many C structs there are, and whether a resource has been created; the release
      log only grows at its end. With `StepPlaces` this fixes the world after a step. */
  lemma StepLives(w: World, op: Op, k: nat)
    requires Enabled(w, op)
    ensures var w' := Step(w, op);
            && |w'.slots| == |w.slots|
            && w.released <= w'.released && |w'.released| <= |w.released| + 1
            && (Live(w', k) <==> (Live(w, k) && op != Destroy(k)) || Constructs(op, k))
            && |w'.outs| == |w.outs| + (if op.CreateInC? || op.MoveToC? then 1 else 0)
            && w'.next == w.next + if Creates(w, op) then 1 else 0
  {
  }

  predicate Creates(w: World, op: Op)
    requires Enabled(w, op)
  {
    op.CreateInC? || op.FillByC? || ((op.CopyConstruct? || (op.CopyAssign? && op.i != op.j)) && w.slots[op.j].h.Res?)
  }

  // ---------------------------------------------------------------- whole programs

  /** Every operation of the program is one C++ permits when it is reached. */
  predicate Legal(w: World, ops: seq<Op>)
    decreases |ops|
  {
    ops != [] ==> Enabled(w, ops[0]) && Legal(Step(w, ops[0]), ops[1..])
  }

  function Run(w: World, ops: seq<Op>): World
    requires Legal(w, ops)
    decreases |ops|
  {
    if ops == [] then w else Run(Step(w, ops[0]), ops[1..])
  }

  /** Programs run operation by operation. */
  lemma {:induction false} RunSnoc(w: World, ops: seq<Op>, op: Op)
    ensures Legal(w, ops + [op]) <==> Legal(w, ops) && Enabled(Run(w, ops), op)
    ensures Legal(w, ops + [op]) ==> Run(w, ops + [op]) == Step(Run(w, ops), op)
    decreases |ops|
  {
    if ops == [] {
      assert ops + [op] == [op] && [op][1..] == [];
      if Enabled(w, op) { assert Run(Step(w, op), []) == Step(w, op); }
    } else {
      assert (ops + [op])[1..] == ops[1..] + [op];
      if Enabled(w, ops[0]) { RunSnoc(Step(w, ops[0]), ops[1..], op); }
    }
  }

  /** Over every program, of any length and shape, resources are conserved. */
  lemma {:induction false} RunConserves(w: World, ops: seq<Op>)
    requires Conserved(w) && Legal(w, ops)
    ensures Conserved(Run(w, ops))
    decreases |ops|
  {
    if ops != [] {
      StepConserves(w, ops[0]);
      RunConserves(Step(w, ops[0]), ops[1..]);
    }
  }

  /** At every moment a resource is held by at most one wrapper, and one that is held has neither been
      released nor handed out. */
  lemma HeldOnce(w: World, i: nat, j: nat, r: nat)
    requires Conserved(w) && Live(w, i) && w.slots[i].h == Res(r)
    ensures Live(w, j) && w.slots[j].h == Res(r) ==> i == j
    ensures Released(w, r) == 0 && Outside(w.outs, r) == 0 && r < w.next
  {
    HeldAt(w.slots, i, r);
    assert Ledger(w, r) <= 1;
    if Live(w, j) && w.slots[j].h == Res(r) && i != j {
      HeldUpdate(w.slots, i, Dead, r);
      HeldAt(w.slots[i := Dead], j, r);
    }
  }

  lemma {:induction false} NothingHeld(slots: seq<Slot>, r: nat)
    requires forall i | 0 <= i < |slots| :: slots[i] in {Dead, Alive(Null)}
    ensures Held(slots, r) == 0
    decreases |slots|
  {
    if slots != [] { NothingHeld(slots[1..], r); }
  }

  /** When no wrapper holds anything any more, every resource ever created has been released exactly once
      or is exactly once in a C struct the program handed out, and nothing else was ever released. */
  lemma EndOfProgram(w: World, r: nat)
    requires Conserved(w)
    requires forall i | 0 <= i < |w.slots| :: w.slots[i] in {Dead, Alive(Null)}
    ensures Released(w, r) + Outside(w.outs, r) == if r < w.next then 1 else 0
  {
    NothingHeld(w.slots, r);
    assert Ledger(w, r) == if r < w.next then 1 else 0;
  }

  // ---------------------------------------------------------------- the operations as the code runs them

  /** The memory in which wrappers of one C type live; the address of a wrapper is its index. */
  class Memory {
    const slots: array<Slot>
    var outs: seq<Handle>
    var released: seq<nat>
    var next: nat
    /** Whether the type has `z_take_from_loaned`. */
    const takesFromLoaned: bool

    constructor (n: nat, takesFromLoaned: bool)
      ensures State() == World(seq(n, _ => Dead), [], [], 0)
      ensures fresh(slots) && Conserved(State())
    {
      slots := new Slot[n](_ => Dead);
      outs, released, next := [], [], 0;
      this.takesFromLoaned := takesFromLoaned;
      new;
      assert slots[..] == seq(n, _ => Dead);
      forall r: nat ensures Ledger(State(), r) == 0 { NothingHeld(slots[..], r); }
    }

    function State(): World
      reads this, slots
    {
      World(slots[..], outs, released, next)
    }

    /** `z_drop(z_move(x))`: release what is there and leave a gravestone. */
    method Drop(i: nat)
      requires Live(State(), i)
      modifies this, slots
      ensures State() == Step(old(State()), ReleaseByC(i))
      ensures old(Conserved(State())) ==> Conserved(State())
    {
      StepConserves(State(), ReleaseByC(i));
      if slots[i].h.Res? {
        released := released + [slots[i].h.id];
      }
      slots[i] := Alive(Null);
    }

    /** `z_take`: overwrite `i`, without dropping it, with what `j` holds; `j` becomes a gravestone. */
    method Take(i: nat, j: nat)
      requires i < slots.Length && i != j && Live(State(), j)
      modifies slots
      ensures slots[..] == old(slots[..])[i := old(slots[..])[j]][j := Alive(Null)]
    {
      slots[i] := Alive(slots[j].h);
      slots[j] := Alive(Null);
    }

    method NullConstruct(i: nat)
      requires Free(State(), i)
      modifies slots
      ensures State() == Step(old(State()), Op.NullConstruct(i))
      ensures old(Conserved(State())) ==> Conserved(State())
    {
      StepConserves(State(), Op.NullConstruct(i));
      slots[i] := Alive(Null);
    }

    /** `Owned(OwnedType* pv)` for a non-null `pv`. */
    method TakeConstruct(i: nat, c: nat)
      requires Free(State(), i) && c < |outs|
      modifies this, slots
      ensures State() == Step(old(State()), Op.TakeConstruct(i, c))
      ensures old(Conserved(State())) ==> Conserved(State())
      ensures slots[..] == old(slots[..])[i := Alive(old(outs)[c])] && outs == old(outs)[c := Null]
      ensures released == old(released) && next == old(next)
    {
      StepConserves(State(), Op.TakeConstruct(i, c));
      slots[i] := Alive(outs[c]);
      outs := outs[c := Null];
    }

    /** `Owned(OwnedType* pv)` where `pv` is the inside of another wrapper, as `Subscriber<Handler>` does. */
    method TakeFromWrapper(i: nat, j: nat)
      requires Free(State(), i) && Live(State(), j)
      modifies slots
      ensures State() == Step(old(State()), Op.MoveConstruct(i, j))
      ensures old(Conserved(State())) ==> Conserved(State())
    {
      StepConserves(State(), Op.MoveConstruct(i, j));
      Take(i, j);
    }

    /** `operator=(Owned&&)`. */
    method MoveAssign(i: nat, j: nat)
      requires Live(State(), i) && Live(State(), j)
      modifies this, slots
      ensures State() == Step(old(State()), Op.MoveAssign(i, j))
      ensures old(Conserved(State())) ==> Conserved(State())
      ensures i == j ==> State() == old(State())
      ensures i != j ==> && slots[..] == old(slots[..])[i := old(slots[j])][j := Alive(Null)]
                         && released == old(released) + Log(old(slots[i]).h)
                         && outs == old(outs) && next == old(next)
    {
      StepConserves(State(), Op.MoveAssign(i, j));
      if i != j {
        Drop(i);
        if takesFromLoaned {
          if slots[j].h.Res? {
            Take(i, j);
          } else {
            slots[i] := Alive(Null);
          }
        } else {
          Take(i, j);
        }
      }
    }

    /** `Owned(Owned&&)`: a gravestone first, then move assignment. */
    method MoveConstruct(i: nat, j: nat)
      requires Free(State(), i) && Live(State(), j)
      modifies this, slots
      ensures State() == Step(old(State()), Op.MoveConstruct(i, j))
      ensures old(Conserved(State())) ==> Conserved(State())
    {
      StepConserves(State(), Op.MoveConstruct(i, j));
      NullConstruct(i);
      MoveAssign(i, j);
      assert old(slots[..])[i := Alive(Null)][i := old(slots[j])] == old(slots[..])[i := old(slots[j])];
    }

    /** `z_keyexpr_clone`: a new resource, if there is one to clone. */
    method CloneInto(i: nat, j: nat)
      requires i < slots.Length && Live(State(), j)
      modifies this, slots
      ensures slots[..] == old(slots[..])[i := Alive(Clone(old(slots[j]).h, old(next)))]
      ensures next == old(next) + |Log(old(slots[j]).h)| && outs == old(outs) && released == old(released)
    {
      if slots[j].h.Res? {
        slots[i] := Alive(Res(next));
        next := next + 1;
      } else {
        slots[i] := Alive(Null);
      }
    }

    /** `KeyExpr::operator=(const KeyExpr&)`. */
    method CopyAssign(i: nat, j: nat)
      requires Live(State(), i) && Live(State(), j)
      modifies this, slots
      ensures State() == Step(old(State()), Op.CopyAssign(i, j))
      ensures old(Conserved(State())) ==> Conserved(State())
      ensures i == j ==> State() == old(State())
      ensures i != j ==> && slots[..] == old(slots[..])[i := Alive(if old(slots[j]).h.Res? then Res(old(next)) else Null)]
                         && released == old(released) + Log(old(slots[i]).h) && outs == old(outs)
    {
      StepConserves(State(), Op.CopyAssign(i, j));
      if i != j {
        Drop(i);
        CloneInto(i, j);
        assert old(slots[..])[i := Alive(Null)][i := slots[i]] == old(slots[..])[i := slots[i]];
      }
    }

    /** `KeyExpr(const KeyExpr&)`. */
    method CopyConstruct(i: nat, j: nat)
      requires Free(State(), i) && Live(State(), j)
      modifies this, slots
      ensures State() == Step(old(State()), Op.CopyConstruct(i, j))
      ensures old(Conserved(State())) ==> Conserved(State())
    {
      StepConserves(State(), Op.CopyConstruct(i, j));
      NullConstruct(i);
      CloneInto(i, j);
      assert old(slots[..])[i := Alive(Null)][i := slots[i]] == old(slots[..])[i := slots[i]];
    }

    /** `move_to_c_obj`. */
    method MoveToC(i: nat)
      requires Live(State(), i)
      modifies this, slots
      ensures State() == Step(old(State()), Op.MoveToC(i))
      ensures old(Conserved(State())) ==> Conserved(State())
      ensures slots[..] == old(slots[..])[i := Alive(Null)] && outs == old(outs) + [old(slots[i]).h]
      ensures released == old(released) && next == old(next)
    {
      StepConserves(State(), Op.MoveToC(i));
      outs := outs + [slots[i].h];
      slots[i] := Alive(Null);
    }

    method CreateInC()
      modifies this
      ensures State() == Step(old(State()), Op.CreateInC)
      ensures old(Conserved(State())) ==> Conserved(State())
    {
      StepConserves(State(), Op.CreateInC);
      outs := outs + [Res(next)];
      next := next + 1;
    }

    method FillByC(i: nat)
      requires Live(State(), i) && slots[i].h == Null
      modifies this, slots
      ensures State() == Step(old(State()), Op.FillByC(i))
      ensures old(Conserved(State())) ==> Conserved(State())
    {
      StepConserves(State(), Op.FillByC(i));
      slots[i] := Alive(Res(next));
      next := next + 1;
    }

    method Destroy(i: nat)
      requires Live(State(), i)
      modifies this, slots
      ensures State() == Step(old(State()), Op.Destroy(i))
      ensures old(Conserved(State())) ==> Conserved(State())
    {
      StepConserves(State(), Op.Destroy(i));
      Drop(i);
      slots[i] := Dead;
      assert old(slots[..])[i := Alive(Null)][i := Dead] == old(slots[..])[i := Dead];
    }

    /** Any C++ program over the wrappers, statement by statement. */
    method Execute(ops: seq<Op>)
      requires Legal(State(), ops) && Conserved(State())
      modifies this, slots
      ensures State() == Run(old(State()), ops) && Conserved(State())
    {
      var k := 0;
      while k < |ops|
        invariant 0 <= k <= |ops| && Legal(State(), ops[k..])
        invariant Conserved(State())
        invariant Run(State(), ops[k..]) == Run(old(State()), ops)
      {
        StepConserves(State(), ops[k]);
        assert ops[k..][0] == ops[k] && ops[k..][1..] == ops[k + 1..];
        match ops[k] {
          case CreateInC => CreateInC();
          case NullConstruct(i) => NullConstruct(i);
          case TakeConstruct(i, c) => TakeConstruct(i, c);
          case MoveConstruct(i, j) => MoveConstruct(i, j);
          case MoveAssign(i, j) => MoveAssign(i, j);
          case CopyConstruct(i, j) => CopyConstruct(i, j);
          case CopyAssign(i, j) => CopyAssign(i, j);
          case FillByC(i) => FillByC(i);
          case ReleaseByC(i) => Drop(i);
          case MoveToC(i) => MoveToC(i);
          case Destroy(i) => Destroy(i);
        }
        k := k + 1;
      }
      assert ops[k..] == [];
    }
  }
}
