/**
 Channel-based declarations and queries: who owns the handler on each way out of the call. The outcome
 `res` of the C call is a parameter; the callback half of the channel goes to C on every path and is not
 part of this model.
 */
module Channels {
  import opened Wire
  import opened ErrorModes
  import opened Ownership

  /** Addresses of the objects a call creates: the handler inside `into_cb_handler_pair`, `pair.second`,
      the callback entity, the by-value constructor argument, and the two parts of the result. */
  datatype Frame = Frame(h: nat, second: nat, s: nat, param: nat, base: nat, handler: nat)
  {
    predicate Ready(w: World) {
      && Free(w, h) && Free(w, second) && Free(w, s) && Free(w, param) && Free(w, base) && Free(w, handler)
      && h !in {second, s, param, base, handler} && second !in {s, param, base, handler}
      && s !in {param, base, handler} && param !in {base, handler} && base != handler
    }
  }

  /** The world is as before, except for the given slots, releases and new resources. */
  ghost predicate Became(w: World, w': World, slots: seq<Slot>, releases: seq<nat>, created: nat) {
    w' == w.(slots := slots, released := w.released + releases, next := w.next + created)
  }

  /** `into_cb_handler_pair`: C fills the local handler, which is moved into the pair. */
  method IntoPair(m: Memory, f: Frame)
    requires f.Ready(m.State()) && Conserved(m.State())
    modifies m, m.slots
    ensures Conserved(m.State())
    ensures var w := old(m.State());
            Became(w, m.State(), w.slots[f.second := Alive(Res(w.next))], [], 1)
  {
    ghost var w := m.State();
    m.NullConstruct(f.h);
    m.FillByC(f.h);
    m.MoveConstruct(f.second, f.h);
    m.Destroy(f.h);
    assert m.State().slots == w.slots[f.second := Alive(Res(w.next))];
  }

  /** `return Subscriber<Handler>(std::move(s), std::move(second))`: the handler travels through the
      by-value argument into `_handler`, the entity is taken out of the callback entity. */
  method Assemble(m: Memory, f: Frame)
    requires var w := m.State();
             && Live(w, f.second) && Live(w, f.s) && Free(w, f.param) && Free(w, f.base) && Free(w, f.handler)
             && f.second != f.s && f.param !in {f.base, f.handler} && f.base != f.handler
    modifies m, m.slots
    ensures old(Conserved(m.State())) ==> Conserved(m.State())
    ensures var w := old(m.State());
            Became(w, m.State(),
                   w.slots[f.base := w.slots[f.s]][f.handler := w.slots[f.second]]
                     [f.s := Alive(Null)][f.second := Alive(Null)], [], 0)
  {
    ghost var w := m.State();
    m.MoveConstruct(f.param, f.second);
    m.TakeFromWrapper(f.base, f.s);
    m.MoveConstruct(f.handler, f.param);
    m.Destroy(f.param);
    AssembledSlots(w.slots, f);
  }

  /** The four slot updates of `Assemble` come to two transfers. */
  lemma AssembledSlots(w: seq<Slot>, f: Frame)
    requires f.second < |w| && f.s < |w| && f.param < |w| && f.base < |w| && f.handler < |w|
    requires w[f.param] == Dead && w[f.base] == Dead && w[f.handler] == Dead
    requires w[f.second].Alive? && w[f.s].Alive?
    requires f.second != f.s && f.param !in {f.base, f.handler} && f.base != f.handler
    ensures var w1 := w[f.param := w[f.second]][f.second := Alive(Null)];
            var w2 := w1[f.base := w1[f.s]][f.s := Alive(Null)];
            var w3 := w2[f.handler := w2[f.param]][f.param := Alive(Null)];
            w3[f.param := Dead]
            == w[f.base := w[f.s]][f.handler := w[f.second]][f.s := Alive(Null)][f.second := Alive(Null)]
  {
  }

  /** Once the locals are gone, only the result is left, or nothing. */
  lemma DeclaredSlots(w: seq<Slot>, f: Frame, entity: Slot, channel: Slot)
    requires f.second < |w| && f.s < |w| && f.base < |w| && f.handler < |w|
    requires w[f.second] == Dead && w[f.s] == Dead
    requires f.second != f.s && f.base !in {f.second, f.s} && f.handler !in {f.second, f.s} && f.base != f.handler
    ensures var v := w[f.second := channel][f.s := entity];
            && v[f.s := Dead][f.second := Dead] == w
            && v[f.base := v[f.s]][f.handler := v[f.second]][f.s := Dead][f.second := Dead]
            == w[f.base := entity][f.handler := channel]
  {
  }

  /** The callback entity: a gravestone that the C call fills if it succeeds. */
  method MakeEntity(m: Memory, f: Frame, res: ZResult)
    requires Free(m.State(), f.s) && Conserved(m.State())
    modifies m, m.slots
    ensures Conserved(m.State())
    ensures var w := old(m.State());
            var entity := if res == Z_OK then Res(w.next) else Null;
            Became(w, m.State(), w.slots[f.s := Alive(entity)], [], if res == Z_OK then 1 else 0)
  {
    ghost var w := m.State();
    m.NullConstruct(f.s);
    if res == Z_OK {
      m.FillByC(f.s);
      assert w.slots[f.s := Alive(Null)][f.s := Alive(Res(w.next))] == w.slots[f.s := Alive(Res(w.next))];
    }
  }

  /** The locals at the end of their scope, on a return or when an exception passes. */
  method DestroyLocals(m: Memory, f: Frame)
    requires var w := m.State(); Live(w, f.s) && Live(w, f.second) && f.s != f.second && Conserved(w)
    modifies m, m.slots
    ensures Conserved(m.State())
    ensures var w := old(m.State());
            Became(w, m.State(), w.slots[f.s := Dead][f.second := Dead],
                   Log(w.slots[f.s].h) + Log(w.slots[f.second].h), 0)
  {
    ghost var w := m.State();
    m.Destroy(f.s);
    m.Destroy(f.second);
    assert m.State().released == w.released + (Log(w.slots[f.s].h) + Log(w.slots[f.second].h));
  }

  /** From the result of the C call on: the handler is dropped before a throw, and the result is assembled
      otherwise; the locals go in both cases. */
  method Leave(m: Memory, f: Frame, res: ZResult, err: ErrSlot?) returns (thrown: bool)
    requires var w := m.State();
             && Live(w, f.second) && Live(w, f.s) && Free(w, f.param) && Free(w, f.base) && Free(w, f.handler)
             && f.second != f.s && f.param !in {f.base, f.handler} && f.base != f.handler && Conserved(w)
             && (res != Z_OK ==> w.slots[f.s].h == Null)
    modifies m, m.slots, err
    ensures Conserved(m.State())
    ensures thrown <==> res != Z_OK && err == null
    ensures err != null ==> err.code == res
    ensures var w := old(m.State());
            if thrown then
              Became(w, m.State(), w.slots[f.s := Dead][f.second := Dead], Log(w.slots[f.second].h), 0)
            else
              Became(w, m.State(), w.slots[f.base := w.slots[f.s]][f.handler := w.slots[f.second]]
                                     [f.s := Dead][f.second := Dead], [], 0)
  {
    ghost var w := m.State();
    if res != Z_OK && err == null {
      m.Drop(f.second);
    }
    thrown := ResultCheck(res, err);
    if !thrown {
      Assemble(m, f);
    }
    DestroyLocals(m, f);
    if thrown {
      assert m.State().slots == w.slots[f.s := Dead][f.second := Dead];
    } else {
      assert m.State().slots == w.slots[f.base := w.slots[f.s]][f.handler := w.slots[f.second]]
                                     [f.s := Dead][f.second := Dead];
    }
  }

  /** Channel-based `declare_subscriber` (and `declare_queryable`, which has the same shape). */
  method Declare(m: Memory, f: Frame, res: ZResult, err: ErrSlot?) returns (thrown: bool)
    requires f.Ready(m.State()) && Conserved(m.State())
    modifies m, m.slots, err
    ensures Conserved(m.State())
    ensures thrown <==> res != Z_OK && err == null
    ensures err != null ==> err.code == res
    ensures var w := old(m.State());
            if thrown then
              Became(w, m.State(), w.slots, [w.next], 1)
            else
              var entity := if res == Z_OK then Res(w.next + 1) else Null;
              Became(w, m.State(), w.slots[f.base := Alive(entity)][f.handler := Alive(Res(w.next))], [],
                     if res == Z_OK then 2 else 1)
  {
    ghost var w := m.State();
    IntoPair(m, f);
    MakeEntity(m, f, res);
    DeclaredSlots(w.slots, f, Alive(if res == Z_OK then Res(w.next + 1) else Null), Alive(Res(w.next)));
    thrown := Leave(m, f, res, err);
  }

  /** Channel-based `get`: like a declaration, without an entity; the handler itself is returned. */
  method Get(m: Memory, f: Frame, res: ZResult, err: ErrSlot?) returns (thrown: bool)
    requires f.Ready(m.State()) && Conserved(m.State())
    modifies m, m.slots, err
    ensures Conserved(m.State())
    ensures thrown <==> res != Z_OK && err == null
    ensures err != null ==> err.code == res
    ensures var w := old(m.State());
            if thrown then Became(w, m.State(), w.slots, [w.next], 1)
            else Became(w, m.State(), w.slots[f.handler := Alive(Res(w.next))], [], 1)
  {
    ghost var w := m.State();
    IntoPair(m, f);
    if res != Z_OK && err == null {
      m.Drop(f.second);
    }
    thrown := ResultCheck(res, err);
    if !thrown {
      m.MoveConstruct(f.handler, f.second);
    }
    m.Destroy(f.second);
    if thrown {
      assert m.State().slots == w.slots;
    } else {
      assert m.State().slots == w.slots[f.handler := Alive(Res(w.next))];
    }
  }

  /** `std::move(subscriber).undeclare(err)` on a `Subscriber<Handler>` at `base` and `handler`, followed by
      the destruction of that object. On return the handler lives on at `ret`; on a throw it is released
      with the object. The entity is consumed by C either way. */
  method UndeclareAndDestroy(m: Memory, base: nat, handler: nat, ret: nat, res: ZResult, err: ErrSlot?)
      returns (thrown: bool)
    requires var w := m.State();
             Live(w, base) && Live(w, handler) && Free(w, ret) && base != handler && Conserved(w)
    modifies m, m.slots, err
    ensures Conserved(m.State())
    ensures thrown <==> res != Z_OK && err == null
    ensures err != null ==> err.code == res
    ensures var w := old(m.State());
            if thrown then
              Became(w, m.State(), w.slots[base := Dead][handler := Dead],
                     Log(w.slots[base].h) + Log(w.slots[handler].h), 0)
            else
              Became(w, m.State(), w.slots[base := Dead][handler := Dead][ret := w.slots[handler]],
                     Log(w.slots[base].h), 0)
  {
    ghost var w := m.State();
    m.Drop(base);
    thrown := ResultCheck(res, err);
    if !thrown {
      m.MoveConstruct(ret, handler);
    }
    m.Destroy(handler);
    m.Destroy(base);
    if thrown {
      assert m.State().slots == w.slots[base := Dead][handler := Dead];
      assert m.State().released == w.released + (Log(w.slots[base].h) + Log(w.slots[handler].h));
    } else {
      assert m.State().slots == w.slots[base := Dead][handler := Dead][ret := w.slots[handler]];
    }
  }
}
