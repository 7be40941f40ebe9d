/**
 What a command line means: only the sequence of positionals and, option by option, the sequence of
 its occurrences count.
 */
module CliTheorems {
  import opened CliGrammar

  // ---------------------------------------------------------------- scanning into groups

  /** Cut a command line into groups, without interpreting them. */
  function Scan(spec: Spec, toks: seq<string>): Result<seq<Item>>
    decreases |toks|
  {
    if toks == [] then Ok([])
    else
      match Next(spec, toks)
      case Err(e) => Err(e)
      case Ok((item, n)) =>
        match Scan(spec, toks[n..])
        case Err(e) => Err(e)
        case Ok(items) => Ok([item] + items)
  }

  function Fold(spec: Spec, items: seq<Item>, acc: Acc<string>): Result<Acc<string>>
    decreases |items|
  {
    if items == [] then Ok(acc)
    else
      match Apply(spec, acc, items[0])
      case Err(e) => Err(e)
      case Ok(acc') => Fold(spec, items[1..], acc')
  }

  /** A group is recognised by its own tokens, whatever follows. */
  lemma NextLocal(spec: Spec, toks: seq<string>, rest: seq<string>)
    requires toks != [] && Next(spec, toks).Ok?
    ensures var (item, n) := Next(spec, toks).value;
            Next(spec, toks[..n] + rest) == Ok((item, n)) && (toks[..n] + rest)[n..] == rest
  {
  }

  lemma NextAppend(spec: Spec, toks: seq<string>, rest: seq<string>)
    requires toks != [] && Next(spec, toks).Ok?
    ensures Next(spec, toks + rest) == Next(spec, toks)
    ensures (toks + rest)[Next(spec, toks).value.1..] == toks[Next(spec, toks).value.1..] + rest
  {
  }

  function Concat(items: seq<Item>, r: Result<seq<Item>>): Result<seq<Item>> {
    match r case Err(e) => Err(e) case Ok(more) => Ok(items + more)
  }

  lemma {:induction false} ScanAppend(spec: Spec, pre: seq<string>, post: seq<string>)
    requires Scan(spec, pre).Ok?
    ensures Scan(spec, pre + post) == Concat(Scan(spec, pre).value, Scan(spec, post))
    decreases |pre|
  {
    var s := Scan(spec, post);
    if pre == [] {
      assert pre + post == post;
      if s.Ok? { assert [] + s.value == s.value; }
    } else {
      NextAppend(spec, pre, post);
      var (item, n) := Next(spec, pre).value;
      ScanAppend(spec, pre[n..], post);
      if s.Ok? {
        var items := Scan(spec, pre[n..]).value;
        assert [item] + (items + s.value) == [item] + items + s.value;
      }
    }
  }

  /** A completely scanned prefix is interpreted first, then the rest. */
  lemma {:induction false} ParseAppend(spec: Spec, pre: seq<string>, post: seq<string>, acc: Acc<string>)
    requires Scan(spec, pre).Ok?
    ensures ParseFrom(spec, pre + post, acc) ==
            match Fold(spec, Scan(spec, pre).value, acc)
            case Err(e) => Err(e)
            case Ok(acc') => ParseFrom(spec, post, acc')
    decreases |pre|
  {
    if pre == [] {
      assert pre + post == post;
    } else {
      NextAppend(spec, pre, post);
      var (item, n) := Next(spec, pre).value;
      var items := Scan(spec, pre[n..]).value;
      assert ([item] + items)[1..] == items;
      var a := Apply(spec, acc, item);
      if a.Ok? { ParseAppend(spec, pre[n..], post, a.value); }
    }
  }

  // ---------------------------------------------------------------- reordering

  predicate Independent(x: Item, y: Item) {
    match x
    case Pos(_) => y.Opt?
    case Opt(k, _) => y.Pos? || y.k != k
  }

  lemma ApplyCommutes(spec: Spec, acc: Acc<string>, x: Item, y: Item)
    requires Independent(x, y)
    ensures Fold(spec, [x, y], acc) == Fold(spec, [y, x], acc)
  {
    FoldTwo(spec, acc, x, y);
    FoldTwo(spec, acc, y, x);
    if x.Opt? && y.Opt? && x.k < |acc.named| && y.k < |acc.named| && x.k < |spec.named| && y.k < |spec.named| {
      var vx := Store(spec.named[x.k], acc.named[x.k], x.text);
      var vy := Store(spec.named[y.k], acc.named[y.k], y.text);
      assert acc.named[x.k := vx][y.k := vy] == acc.named[y.k := vy][x.k := vx];
    }
  }

  lemma FoldTwo(spec: Spec, acc: Acc<string>, x: Item, y: Item)
    ensures Fold(spec, [x, y], acc) ==
            match Apply(spec, acc, x) case Err(e) => Err(e) case Ok(acc') => Apply(spec, acc', y)
  {
    assert [x, y][1..] == [y] && [y][1..] == [];
    var a := Apply(spec, acc, x);
    if a.Ok? {
      var b := Apply(spec, a.value, y);
      if b.Ok? { assert Fold(spec, [], b.value) == Ok(b.value); }
      assert Fold(spec, [y], a.value) == b;
    }
  }

  /** The tokens `g` are one complete group. */
  predicate OneGroup(spec: Spec, g: seq<string>) {
    g != [] && Next(spec, g).Ok? && Next(spec, g).value.1 == |g|
  }

  /** Swapping two neighbouring groups that are not both positionals and not the same option changes
      nothing: neither the result, nor the error. Any reordering that keeps the order of positionals and
      of each option's occurrences is a chain of such swaps. */
  lemma SwapGroups(spec: Spec, pre: seq<string>, g: seq<string>, h: seq<string>, post: seq<string>)
    requires Scan(spec, pre).Ok? && OneGroup(spec, g) && OneGroup(spec, h)
    requires Independent(Next(spec, g).value.0, Next(spec, h).value.0)
    ensures Parse(spec, pre + g + h + post) == Parse(spec, pre + h + g + post)
  {
    var acc := Initial(spec);
    ParseAppend(spec, pre, g + h + post, acc);
    ParseAppend(spec, pre, h + g + post, acc);
    Associate(pre, g, h, post);
    Associate(pre, h, g, post);
    var f := Fold(spec, Scan(spec, pre).value, acc);
    if f.Ok? { SwapFront(spec, f.value, g, h, post); }
  }

  lemma Associate<T>(a: seq<T>, b: seq<T>, c: seq<T>, d: seq<T>)
    ensures a + b + c + d == a + (b + c + d)
  {
  }

  lemma SwapFront(spec: Spec, acc: Acc<string>, g: seq<string>, h: seq<string>, post: seq<string>)
    requires OneGroup(spec, g) && OneGroup(spec, h)
    requires Independent(Next(spec, g).value.0, Next(spec, h).value.0)
    ensures ParseFrom(spec, g + h + post, acc) == ParseFrom(spec, h + g + post, acc)
  {
    ScanTwo(spec, g, h);
    ScanTwo(spec, h, g);
    ParseAppend(spec, g + h, post, acc);
    ParseAppend(spec, h + g, post, acc);
    ApplyCommutes(spec, acc, Next(spec, g).value.0, Next(spec, h).value.0);
  }

  lemma ScanTwo(spec: Spec, g: seq<string>, h: seq<string>)
    requires OneGroup(spec, g) && OneGroup(spec, h)
    ensures Scan(spec, g + h) == Ok([Next(spec, g).value.0, Next(spec, h).value.0])
  {
    var x, y := Next(spec, g).value.0, Next(spec, h).value.0;
    assert g[|g|..] == [] && h[|h|..] == [];
    assert [x] + [] == [x] && [y] + [] == [y] && [x] + [y] == [x, y];
    assert Scan(spec, g) == Ok([x]);
    assert Scan(spec, h) == Ok([y]);
    ScanAppend(spec, g, h);
  }

  // ---------------------------------------------------------------- the closed form

  function Positionals(items: seq<Item>): seq<string> {
    if items == [] then []
    else (if items[0].Pos? then [items[0].text] else []) + Positionals(items[1..])
  }

  /** The values option `k` was given, in order. */
  function Occurrences(k: nat, items: seq<Item>): seq<string> {
    if items == [] then []
    else (if items[0].Opt? && items[0].k == k then [items[0].text] else []) + Occurrences(k, items[1..])
  }

  lemma {:induction false} PositionalsAppend(xs: seq<Item>, ys: seq<Item>)
    ensures Positionals(xs + ys) == Positionals(xs) + Positionals(ys)
    decreases |xs|
  {
    if xs == [] {
      assert xs + ys == ys;
    } else {
      assert (xs + ys)[1..] == xs[1..] + ys && (xs + ys)[0] == xs[0];
      PositionalsAppend(xs[1..], ys);
      var head := if xs[0].Pos? then [xs[0].text] else [];
      assert head + (Positionals(xs[1..]) + Positionals(ys)) == head + Positionals(xs[1..]) + Positionals(ys);
    }
  }

  lemma {:induction false} OccurrencesAppend(k: nat, xs: seq<Item>, ys: seq<Item>)
    ensures Occurrences(k, xs + ys) == Occurrences(k, xs) + Occurrences(k, ys)
    decreases |xs|
  {
    if xs == [] {
      assert xs + ys == ys;
    } else {
      assert (xs + ys)[1..] == xs[1..] + ys && (xs + ys)[0] == xs[0];
      OccurrencesAppend(k, xs[1..], ys);
      var head := if xs[0].Opt? && xs[0].k == k then [xs[0].text] else [];
      assert head + (Occurrences(k, xs[1..]) + Occurrences(k, ys)) == head + Occurrences(k, xs[1..]) + Occurrences(k, ys);
    }
  }

  /** A flag is set if it occurs, a value is its last occurrence or its default, values are all of them. */
  function OutOf(d: Named, occ: seq<string>): NamedOut<string> {
    match d
    case NamedFlag(_) => FlagOut(occ != [])
    case NamedValue(_, v) => ValueOut(if occ == [] then v else occ[|occ| - 1])
    case NamedValues(_) => ValuesOut(occ)
  }

  function Outs(spec: Spec, items: seq<Item>): (outs: seq<NamedOut<string>>)
    ensures |outs| == |spec.named|
    ensures forall k: nat | k < |outs| :: outs[k] == OutOf(spec.named[k], Occurrences(k, items))
  {
    seq(|spec.named|, k requires 0 <= k < |spec.named| => OutOf(spec.named[k], Occurrences(k, items)))
  }

  function Min(a: nat, b: nat): nat { if a < b then a else b }

  /** Required slots take the first positionals, optional slots the following ones; the rest of the
      optional slots keep their defaults. */
  function AccOf(spec: Spec, items: seq<Item>): Acc<string>
    requires |Positionals(items)| <= |spec.required| + |spec.optional|
  {
    var ps := Positionals(items);
    var r := Min(|ps|, |spec.required|);
    Acc(ps[..r], ps[r..] + spec.optional[|ps| - r..], |ps| - r, Outs(spec, items))
  }

  lemma AccOfNothing(spec: Spec)
    ensures AccOf(spec, []) == Initial(spec)
  {
    assert AccOf(spec, []).named == Initial(spec).named;
  }

  lemma ApplySnoc(spec: Spec, items: seq<Item>, item: Item)
    requires |Positionals(items)| <= |spec.required| + |spec.optional|
    ensures if |Positionals(items + [item])| <= |spec.required| + |spec.optional|
            then Apply(spec, AccOf(spec, items), item) == Ok(AccOf(spec, items + [item]))
            else item.Pos? && Apply(spec, AccOf(spec, items), item) == Err(UnexpectedPositional(item.text))
  {
    var acc := AccOf(spec, items);
    PositionalsAppend(items, [item]);
    assert [item][1..] == [];
    match item
    case Pos(a) =>
      assert Positionals([item]) == [a];
      forall k: nat ensures Occurrences(k, items + [item]) == Occurrences(k, items) {
        OccurrencesAppend(k, items, [item]);
        assert Occurrences(k, [item]) == [];
      }
      if |Positionals(items + [item])| <= |spec.required| + |spec.optional| {
        assert AccOf(spec, items + [item]).named == acc.named;
        PositionalSlot(spec, Positionals(items), a);
      }
    case Opt(k, v) =>
      assert Positionals([item]) == [];
      assert Positionals(items + [item]) == Positionals(items);
      forall j: nat | j != k ensures Occurrences(j, items + [item]) == Occurrences(j, items) {
        OccurrencesAppend(j, items, [item]);
        assert Occurrences(j, [item]) == [];
      }
      OccurrencesAppend(k, items, [item]);
      assert Occurrences(k, [item]) == [v];
      if k < |spec.named| { StoreExtends(spec.named[k], Occurrences(k, items), v); }
      assert Apply(spec, acc, item).value.named == Outs(spec, items + [item]);
  }

  lemma StoreExtends(d: Named, occ: seq<string>, v: string)
    ensures OutOf(d, occ + [v]) == Store(d, OutOf(d, occ), v)
  {
  }

  lemma PositionalSlot(spec: Spec, ps: seq<string>, a: string)
    requires |ps| < |spec.required| + |spec.optional|
    ensures var r, r' := Min(|ps|, |spec.required|), Min(|ps| + 1, |spec.required|);
            var opt := ps[r..] + spec.optional[|ps| - r..];
            if |ps| < |spec.required| then
              (ps + [a])[..r'] == ps[..r] + [a] && (ps + [a])[r'..] + spec.optional[|ps| + 1 - r'..] == opt
            else
              (ps + [a])[..r'] == ps[..r] && (ps + [a])[r'..] + spec.optional[|ps| + 1 - r'..] == opt[|ps| - r := a]
  {
    var r := Min(|ps|, |spec.required|);
    if |ps| < |spec.required| {
      assert ps[..r] == ps && (ps + [a])[..r + 1] == ps + [a] && ps[r..] == (ps + [a])[r + 1..] == [];
    } else {
      assert (ps + [a])[r..] == ps[r..] + [a] && (ps + [a])[..r] == ps[..r];
      FillSlot(ps[r..], spec.optional, a);
    }
  }

  lemma FillSlot(front: seq<string>, slots: seq<string>, a: string)
    requires |front| < |slots|
    ensures front + [a] + slots[|front| + 1..] == (front + slots[|front|..])[|front| := a]
  {
  }

  lemma {:induction false} FoldAccOf(spec: Spec, done: seq<Item>, items: seq<Item>)
    requires |Positionals(done)| <= |spec.required| + |spec.optional|
    ensures var cap := |spec.required| + |spec.optional|;
            var ps := Positionals(done + items);
            Fold(spec, items, AccOf(spec, done)) ==
              if |ps| <= cap then Ok(AccOf(spec, done + items)) else Err(UnexpectedPositional(ps[cap]))
    decreases |items|
  {
    if items == [] {
      assert done + items == done;
    } else {
      ApplySnoc(spec, done, items[0]);
      assert done + [items[0]] + items[1..] == done + items;
      PositionalsAppend(done + [items[0]], items[1..]);
      PositionalsAppend(done, [items[0]]);
      if |Positionals(done + [items[0]])| <= |spec.required| + |spec.optional| {
        FoldAccOf(spec, done + [items[0]], items[1..]);
      } else {
        assert [items[0]][1..] == [];
      }
    }
  }

  /** The outcome of interpreting scanned groups, given only what they say about the positionals and
      about each option. */
  function Outcome(spec: Spec, items: seq<Item>): Result<Parsed<string>> {
    var ps, r, cap := Positionals(items), |spec.required|, |spec.required| + |spec.optional|;
    if |ps| > cap then Err(UnexpectedPositional(ps[cap]))
    else if |ps| < r then Err(MissingRequired(spec.required[|ps|]))
    else
      Ok(Parsed(ps[..r], ps[r..] + spec.optional[|ps| - r..], Outs(spec, items)))
  }

  /** Main theorem: the parser accepts or rejects a scannable command line by its positionals alone, and
      its result is the closed form. */
  lemma ClosedForm(spec: Spec, toks: seq<string>)
    requires Scan(spec, toks).Ok?
    ensures Parse(spec, toks) == Outcome(spec, Scan(spec, toks).value)
  {
    var items := Scan(spec, toks).value;
    var f := Fold(spec, items, Initial(spec));
    assert Parse(spec, toks) == if f.Ok? then Finish(spec, f.value) else Err(f.error) by {
      assert toks + [] == toks;
      ParseAppend(spec, toks, [], Initial(spec));
    }
    AccOfNothing(spec);
    assert [] + items == items;
    FoldAccOf(spec, [], items);
    if f.Ok? { FinishAccOf(spec, items); }
  }

  lemma FinishAccOf(spec: Spec, items: seq<Item>)
    requires |Positionals(items)| <= |spec.required| + |spec.optional|
    ensures Finish(spec, AccOf(spec, items)) == Outcome(spec, items)
  {
  }

  /** A command line that does not scan is rejected. */
  lemma {:induction false} UnscannableRejected(spec: Spec, toks: seq<string>, acc: Acc<string>)
    requires Scan(spec, toks).Err?
    ensures ParseFrom(spec, toks, acc).Err?
    decreases |toks|
  {
    var nx := Next(spec, toks);
    if nx.Ok? {
      var (item, n) := nx.value;
      var a := Apply(spec, acc, item);
      if a.Ok? { UnscannableRejected(spec, toks[n..], a.value); }
    }
  }

  /** A command line that does not scan gets stuck behind some scannable part. */
  lemma {:induction false} StuckSomewhere(spec: Spec, toks: seq<string>) returns (n: nat)
    requires Scan(spec, toks).Err?
    ensures n < |toks| && Scan(spec, toks[..n]).Ok? && Next(spec, toks[n..]) == Err(Scan(spec, toks).error)
    decreases |toks|
  {
    var nx := Next(spec, toks);
    if nx.Err? {
      n := 0;
      assert toks[..0] == [] && toks[0..] == toks;
    } else {
      var m := nx.value.1;
      n := StuckSomewhere(spec, toks[m..]);
      ScanFurther(spec, toks, n);
      assert toks[m..][n..] == toks[m + n..];
      n := m + n;
    }
  }

  /** A group in front of a scannable part. */
  lemma ScanFurther(spec: Spec, toks: seq<string>, n: nat)
    requires toks != [] && Next(spec, toks).Ok? && n <= |toks| - Next(spec, toks).value.1
    requires Scan(spec, toks[Next(spec, toks).value.1..][..n]).Ok?
    ensures Scan(spec, toks[..Next(spec, toks).value.1 + n]).Ok?
  {
    var m := Next(spec, toks).value.1;
    var back := toks[m..][..n];
    assert toks[..m] + back == toks[..m + n];
    NextLocal(spec, toks, back);
  }

  /** And then that is its error, unless there are too many positionals already. With `ClosedForm` this gives
      the outcome of every command line. */
  lemma StuckOutcome(spec: Spec, toks: seq<string>, n: nat)
    requires n < |toks| && Scan(spec, toks[..n]).Ok? && Next(spec, toks[n..]).Err?
    ensures var ps, cap := Positionals(Scan(spec, toks[..n]).value), |spec.required| + |spec.optional|;
            Parse(spec, toks) == Err(if |ps| > cap then UnexpectedPositional(ps[cap]) else Next(spec, toks[n..]).error)
  {
    var items := Scan(spec, toks[..n]).value;
    assert toks[..n] + toks[n..] == toks;
    ParseAppend(spec, toks[..n], toks[n..], Initial(spec));
    AccOfNothing(spec);
    assert [] + items == items;
    FoldAccOf(spec, [], items);
  }

  /** What a rejected command line that scans is rejected for. */
  lemma RejectedFor(spec: Spec, toks: seq<string>, e: Error)
    requires Scan(spec, toks).Ok? && Parse(spec, toks) == Err(e)
    ensures var n, r, cap := |Positionals(Scan(spec, toks).value)|, |spec.required|, |spec.required| + |spec.optional|;
            || (n > cap && e == UnexpectedPositional(Positionals(Scan(spec, toks).value)[cap]))
            || (n < r && e == MissingRequired(spec.required[n]))
  {
    ClosedForm(spec, toks);
  }

  /** The required slots hold the first positionals, the optional slots the following ones and then their
      defaults. */
  predicate SlotsHold(spec: Spec, ps: seq<string>, p: Parsed<string>) {
    && |p.required| == |spec.required| && |p.optional| == |spec.optional|
    && |spec.required| <= |ps| <= |spec.required| + |spec.optional|
    && (forall i | 0 <= i < |spec.required| :: p.required[i] == ps[i])
    && forall i | 0 <= i < |spec.optional| ::
         p.optional[i] == if |spec.required| + i < |ps| then ps[|spec.required| + i] else spec.optional[i]
  }

  predicate OptionsHold(spec: Spec, items: seq<Item>, p: Parsed<string>) {
    |p.named| == |spec.named|
    && forall k: nat | k < |spec.named| :: SlotMeans(spec.named[k], Occurrences(k, items), p.named[k])
  }

  /** What an accepted command line means, slot by slot. */
  lemma ParsedMeans(spec: Spec, toks: seq<string>, p: Parsed<string>)
    requires Parse(spec, toks) == Ok(p)
    ensures Scan(spec, toks).Ok?
    ensures SlotsHold(spec, Positionals(Scan(spec, toks).value), p)
    ensures OptionsHold(spec, Scan(spec, toks).value, p)
  {
    AcceptedExactly(spec, toks);
    ClosedForm(spec, toks);
    OutcomeSlots(spec, Scan(spec, toks).value, p);
    OutcomeOptions(spec, Scan(spec, toks).value, p);
  }

  lemma OutcomeSlots(spec: Spec, items: seq<Item>, p: Parsed<string>)
    requires Outcome(spec, items) == Ok(p)
    ensures SlotsHold(spec, Positionals(items), p)
  {
    var ps, r := Positionals(items), |spec.required|;
    SlotTexts(ps[r..], spec.optional);
  }

  lemma SlotTexts(front: seq<string>, slots: seq<string>)
    requires |front| <= |slots|
    ensures var all := front + slots[|front|..];
            |all| == |slots| && forall i | 0 <= i < |slots| :: all[i] == if i < |front| then front[i] else slots[i]
  {
  }

  lemma OutcomeOptions(spec: Spec, items: seq<Item>, p: Parsed<string>)
    requires Outcome(spec, items) == Ok(p)
    ensures OptionsHold(spec, items, p)
  {
    forall k: nat | k < |spec.named| ensures SlotMeans(spec.named[k], Occurrences(k, items), p.named[k]) {
      assert p.named[k] == OutOf(spec.named[k], Occurrences(k, items));
    }
  }

  /** A flag is set if and only if it occurs, a value is the one given last, or the default, and values are all
      that were given. */
  predicate SlotMeans(d: Named, given: seq<string>, out: NamedOut<string>) {
    match d
    case NamedFlag(_) => out == FlagOut(given != [])
    case NamedValue(_, v) => out.ValueOut? && if given == [] then out.text == v else given == given[..|given| - 1] + [out.text]
    case NamedValues(_) => out == ValuesOut(given)
  }

  /** Exactly the command lines that scan, with at least as many positionals as there are required slots and
      at most as many as there are slots, are accepted. */
  lemma AcceptedExactly(spec: Spec, toks: seq<string>)
    ensures Parse(spec, toks).Ok? <==>
            && Scan(spec, toks).Ok?
            && |spec.required| <= |Positionals(Scan(spec, toks).value)| <= |spec.required| + |spec.optional|
  {
    if Scan(spec, toks).Ok? {
      ClosedForm(spec, toks);
    } else {
      UnscannableRejected(spec, toks, Initial(spec));
    }
  }

  /** Two group lists that say the same about the positionals and about every option. */
  predicate SameContent(spec: Spec, xs: seq<Item>, ys: seq<Item>) {
    && Positionals(xs) == Positionals(ys)
    && forall k: nat | k < |spec.named| :: Occurrences(k, xs) == Occurrences(k, ys)
  }

  lemma OutcomeDepends(spec: Spec, xs: seq<Item>, ys: seq<Item>)
    requires SameContent(spec, xs, ys)
    ensures Outcome(spec, xs) == Outcome(spec, ys)
  {
    assert Outs(spec, xs) == Outs(spec, ys);
  }

  /** The outcome, result or error, depends only on the positionals and on each option's own
      occurrences. */
  lemma OrderIndependence(spec: Spec, s: seq<string>, t: seq<string>)
    requires Scan(spec, s).Ok? && Scan(spec, t).Ok?
    requires SameContent(spec, Scan(spec, s).value, Scan(spec, t).value)
    ensures Parse(spec, s) == Parse(spec, t)
  {
    ClosedForm(spec, s);
    ClosedForm(spec, t);
    OutcomeDepends(spec, Scan(spec, s).value, Scan(spec, t).value);
  }

  // ---------------------------------------------------------------- options-first normal form

  /** A group with the tokens it was read from. */
  datatype Group = Group(item: Item, toks: seq<string>)

  function Cut(spec: Spec, toks: seq<string>): seq<Group>
    requires Scan(spec, toks).Ok?
    decreases |toks|
  {
    if toks == [] then []
    else
      var (item, n) := Next(spec, toks).value;
      [Group(item, toks[..n])] + Cut(spec, toks[n..])
  }

  function Tokens(gs: seq<Group>): seq<string> {
    if gs == [] then [] else gs[0].toks + Tokens(gs[1..])
  }

  function Items(gs: seq<Group>): seq<Item> {
    if gs == [] then [] else [gs[0].item] + Items(gs[1..])
  }

  predicate IsGroup(spec: Spec, g: Group) {
    OneGroup(spec, g.toks) && Next(spec, g.toks).value.0 == g.item
  }

  predicate AllGroups(spec: Spec, gs: seq<Group>) {
    forall i | 0 <= i < |gs| :: IsGroup(spec, gs[i])
  }

  /** The groups partition the tokens: every token belongs to exactly one group, in order, and each group
      stands on its own. */
  lemma {:induction false} CutPartitions(spec: Spec, toks: seq<string>)
    requires Scan(spec, toks).Ok?
    ensures var gs := Cut(spec, toks);
            && Tokens(gs) == toks && Items(gs) == Scan(spec, toks).value
            && AllGroups(spec, gs)
    decreases |toks|
  {
    if toks != [] {
      var (item, n) := Next(spec, toks).value;
      var gs := Cut(spec, toks[n..]);
      CutPartitions(spec, toks[n..]);
      FirstGroup(spec, toks);
      assert ([Group(item, toks[..n])] + gs)[1..] == gs;
      assert toks[..n] + toks[n..] == toks;
    }
  }

  lemma FirstGroup(spec: Spec, toks: seq<string>)
    requires toks != [] && Next(spec, toks).Ok?
    ensures var (item, n) := Next(spec, toks).value; IsGroup(spec, Group(item, toks[..n]))
  {
    NextLocal(spec, toks, []);
    var n := Next(spec, toks).value.1;
    assert toks[..n] + [] == toks[..n];
  }

  /** Groups put side by side scan to their items. */
  lemma {:induction false} ScanTokens(spec: Spec, gs: seq<Group>)
    requires AllGroups(spec, gs)
    ensures Scan(spec, Tokens(gs)) == Ok(Items(gs))
    decreases |gs|
  {
    if gs != [] {
      ScanTokens(spec, gs[1..]);
      ScanGroup(spec, gs[0]);
      ScanAppend(spec, gs[0].toks, Tokens(gs[1..]));
    }
  }

  lemma ScanGroup(spec: Spec, g: Group)
    requires IsGroup(spec, g)
    ensures Scan(spec, g.toks) == Ok([g.item])
  {
    assert g.toks[|g.toks|..] == [];
    assert [g.item] + [] == [g.item];
  }

  /** The option groups (`opts`), or the positionals. */
  function Pick(gs: seq<Group>, opts: bool): seq<Group> {
    if gs == [] then []
    else (if gs[0].item.Opt? == opts then [gs[0]] else []) + Pick(gs[1..], opts)
  }

  lemma {:induction false} PickGroups(spec: Spec, gs: seq<Group>, opts: bool)
    requires AllGroups(spec, gs)
    ensures AllGroups(spec, Pick(gs, opts))
    decreases |gs|
  {
    if gs != [] { PickGroups(spec, gs[1..], opts); }
  }

  lemma PickStep(gs: seq<Group>)
    requires gs != []
    ensures var os, ps := Pick(gs[1..], true), Pick(gs[1..], false);
            if gs[0].item.Opt? then Pick(gs, true) == [gs[0]] + os && Pick(gs, false) == ps
            else Pick(gs, true) == os && Pick(gs, false) == [gs[0]] + ps
  {
  }

  lemma TokensCons(g: Group, gs: seq<Group>)
    ensures Tokens([g] + gs) == g.toks + Tokens(gs) && Items([g] + gs) == [g.item] + Items(gs)
  {
    assert ([g] + gs)[1..] == gs;
  }

  lemma {:induction false} PickPermutes(gs: seq<Group>)
    ensures multiset(Tokens(gs)) == multiset(Tokens(Pick(gs, true))) + multiset(Tokens(Pick(gs, false)))
    decreases |gs|
  {
    if gs != [] {
      PickPermutes(gs[1..]);
      var os, ps := Pick(gs[1..], true), Pick(gs[1..], false);
      PickStep(gs);
      TokensCons(gs[0], if gs[0].item.Opt? then os else ps);
      GroupGoes(gs[0].toks, Tokens(gs[1..]), Tokens(os), Tokens(ps));
    }
  }

  /** A group in front goes to either part. */
  lemma GroupGoes<T>(g: seq<T>, rest: seq<T>, os: seq<T>, ps: seq<T>)
    requires multiset(rest) == multiset(os) + multiset(ps)
    ensures multiset(g + rest) == multiset(g + os) + multiset(ps) == multiset(os) + multiset(g + ps)
  {
  }

  /** Picking options and positionals apart keeps what the groups say. */
  lemma {:induction false} PickedContent(gs: seq<Group>, k: nat)
    ensures Positionals(Items(Pick(gs, true))) == [] && Occurrences(k, Items(Pick(gs, false))) == []
    ensures Positionals(Items(Pick(gs, false))) == Positionals(Items(gs))
    ensures Occurrences(k, Items(Pick(gs, true))) == Occurrences(k, Items(gs))
    decreases |gs|
  {
    if gs != [] {
      PickedContent(gs[1..], k);
      var os, ps := Pick(gs[1..], true), Pick(gs[1..], false);
      PickStep(gs);
      TokensCons(gs[0], if gs[0].item.Opt? then os else ps);
      ContentCons(gs[0].item, Items(if gs[0].item.Opt? then os else ps), k);
      ContentCons(gs[0].item, Items(gs[1..]), k);
    }
  }

  lemma ContentCons(x: Item, items: seq<Item>, k: nat)
    ensures Positionals([x] + items) == (if x.Pos? then [x.text] else []) + Positionals(items)
    ensures Occurrences(k, [x] + items) == (if x.Opt? && x.k == k then [x.text] else []) + Occurrences(k, items)
  {
    assert ([x] + items)[1..] == items;
  }

  /** The tokens of a command line, all option groups first. */
  function OptionsThenPositionals(spec: Spec, toks: seq<string>): seq<string>
    requires Scan(spec, toks).Ok?
  {
    Tokens(Pick(Cut(spec, toks), true)) + Tokens(Pick(Cut(spec, toks), false))
  }

  /** Every scannable command line can be rewritten with all options first, without adding or losing a
      token and without changing the outcome. */
  lemma OptionsFirst(spec: Spec, toks: seq<string>)
    requires Scan(spec, toks).Ok?
    ensures multiset(OptionsThenPositionals(spec, toks)) == multiset(toks)
    ensures Parse(spec, OptionsThenPositionals(spec, toks)) == Parse(spec, toks)
  {
    var gs := Cut(spec, toks);
    CutPartitions(spec, toks);
    PickPermutes(gs);
    OptionsFirstScan(spec, gs);
    OptionsFirstContent(spec, gs);
    OrderIndependence(spec, OptionsThenPositionals(spec, toks), toks);
  }

  lemma OptionsFirstScan(spec: Spec, gs: seq<Group>)
    requires AllGroups(spec, gs)
    ensures Scan(spec, Tokens(Pick(gs, true)) + Tokens(Pick(gs, false)))
         == Ok(Items(Pick(gs, true)) + Items(Pick(gs, false)))
  {
    PickGroups(spec, gs, true);
    PickGroups(spec, gs, false);
    ScanTokens(spec, Pick(gs, true));
    ScanTokens(spec, Pick(gs, false));
    ScanAppend(spec, Tokens(Pick(gs, true)), Tokens(Pick(gs, false)));
  }

  lemma OptionsFirstContent(spec: Spec, gs: seq<Group>)
    ensures SameContent(spec, Items(Pick(gs, true)) + Items(Pick(gs, false)), Items(gs))
  {
    var os, ps := Items(Pick(gs, true)), Items(Pick(gs, false));
    PositionalsAppend(os, ps);
    PickedContent(gs, 0);
    assert [] + Positionals(ps) == Positionals(ps);
    forall k: nat | k < |spec.named| ensures Occurrences(k, os + ps) == Occurrences(k, Items(gs)) {
      OccurrencesAppend(k, os, ps);
      PickedContent(gs, k);
      assert Occurrences(k, os) + [] == Occurrences(k, os);
    }
  }
}
