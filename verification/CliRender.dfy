/**
 Writing a result back as a command line, and the two spellings of an option with a value.
 */
module CliRender {
  import opened CliGrammar
  import opened CliTheorems
  import opened CliTokens

  /** A spelling that finds option `k` again. */
  predicate Usable(spec: Spec, k: nat, s: Spelling) {
    s.Valid() && Resolve(spec.named, s.Name()) == Some(k)
  }

  predicate KindMatches(d: Named, out: NamedOut<string>) {
    match d
    case NamedFlag(_) => out.FlagOut?
    case NamedValue(_, _) => out.ValueOut?
    case NamedValues(_) => out.ValuesOut?
  }

  predicate Renderable(spec: Spec, k: nat, s: Spelling, out: NamedOut<string>) {
    k < |spec.named| && Usable(spec, k, s) && KindMatches(spec.named[k], out)
  }

  predicate AllRenderable(spec: Spec, ss: seq<Spelling>, outs: seq<NamedOut<string>>) {
    |ss| == |outs| && forall k | 0 <= k < |ss| :: Renderable(spec, k, ss[k], outs[k])
  }

  /** The values to give an option so that it ends up as `out`. */
  function ValuesFor(out: NamedOut<string>): seq<string> {
    match out
    case FlagOut(b) => if b then [""] else []
    case ValueOut(v) => [v]
    case ValuesOut(vs) => vs
  }

  /** The groups that give option `k`, written `s`, the values for `out`: two-token form. */
  function OptionGroups(k: nat, s: Spelling, out: NamedOut<string>): seq<Group> {
    var values := ValuesFor(out);
    seq(|values|, i requires 0 <= i < |values| =>
          Group(Opt(k, values[i]), if out.FlagOut? then [s.Text()] else [s.Text(), values[i]]))
  }

  function OptionParts(ss: seq<Spelling>, outs: seq<NamedOut<string>>): (parts: seq<seq<Group>>)
    requires |ss| == |outs|
    ensures |parts| == |outs| && forall k: nat | k < |outs| :: parts[k] == OptionGroups(k, ss[k], outs[k])
  {
    seq(|ss|, k requires 0 <= k < |ss| => OptionGroups(k, ss[k], outs[k]))
  }

  function Flat(parts: seq<seq<Group>>): seq<Group> {
    if parts == [] then [] else Flat(parts[..|parts| - 1]) + parts[|parts| - 1]
  }

  function PositionalGroups(ps: seq<string>): seq<Group> {
    seq(|ps|, i requires 0 <= i < |ps| => Group(Pos(ps[i]), [ps[i]]))
  }

  function RenderGroups(ss: seq<Spelling>, p: Parsed<string>): seq<Group>
    requires |ss| == |p.named|
  {
    Flat(OptionParts(ss, p.named)) + PositionalGroups(p.required + p.optional)
  }

  /** The command line: all options, then all positionals. */
  function Render(ss: seq<Spelling>, p: Parsed<string>): seq<string>
    requires |ss| == |p.named|
  {
    Tokens(RenderGroups(ss, p))
  }

  /** A result some command line can mean: right shape, and no positional that looks like an option. Every
      option may be written either way. */
  predicate WellFormed(spec: Spec, ss: seq<Spelling>, p: Parsed<string>) {
    && |p.required| == |spec.required| && |p.optional| == |spec.optional|
    && (forall i | 0 <= i < |p.required| :: Ordinary(p.required[i]))
    && (forall i | 0 <= i < |p.optional| :: Ordinary(p.optional[i]))
    && |ss| == |p.named| == |spec.named|
    && AllRenderable(spec, ss, p.named)
  }

  // ---------------------------------------------------------------- round trip

  lemma AllGroupsAppend(spec: Spec, gs: seq<Group>, hs: seq<Group>)
    requires AllGroups(spec, gs) && AllGroups(spec, hs)
    ensures AllGroups(spec, gs + hs)
  {
  }

  lemma OptionGroupsScan(spec: Spec, k: nat, s: Spelling, out: NamedOut<string>)
    requires Renderable(spec, k, s, out)
    ensures AllGroups(spec, OptionGroups(k, s, out))
  {
    forall i | 0 <= i < |OptionGroups(k, s, out)| ensures IsGroup(spec, OptionGroups(k, s, out)[i]) {
      var g := OptionGroups(k, s, out)[i];
      assert g.toks == [s.Text()] + g.toks[1..];
      SpelledReads(spec, s, g.toks[1..]);
      assert Next(spec, g.toks) == Ok((g.item, |g.toks|));
    }
  }

  lemma {:induction false} FlatScan(spec: Spec, parts: seq<seq<Group>>)
    requires forall k: nat | k < |parts| :: AllGroups(spec, parts[k])
    ensures AllGroups(spec, Flat(parts))
    decreases |parts|
  {
    if parts != [] {
      var front := parts[..|parts| - 1];
      assert forall k: nat | k < |front| :: front[k] == parts[k];
      FlatScan(spec, front);
      AllGroupsAppend(spec, Flat(front), parts[|parts| - 1]);
    }
  }

  lemma PositionalGroupsScan(spec: Spec, ps: seq<string>)
    requires forall i | 0 <= i < |ps| :: Ordinary(ps[i])
    ensures AllGroups(spec, PositionalGroups(ps))
  {
    forall i | 0 <= i < |ps| ensures IsGroup(spec, PositionalGroups(ps)[i]) {
      OrdinaryExactly(spec, ps[i], []);
      assert [ps[i]] + [] == [ps[i]];
    }
  }

  lemma {:induction false} ItemsAppend(gs: seq<Group>, hs: seq<Group>)
    ensures Items(gs + hs) == Items(gs) + Items(hs)
    decreases |gs|
  {
    if gs == [] {
      assert gs + hs == hs;
    } else {
      assert (gs + hs)[1..] == gs[1..] + hs;
      ItemsAppend(gs[1..], hs);
    }
  }

  lemma ContentAppend(gs: seq<Group>, hs: seq<Group>, j: nat)
    ensures Positionals(Items(gs + hs)) == Positionals(Items(gs)) + Positionals(Items(hs))
    ensures Occurrences(j, Items(gs + hs)) == Occurrences(j, Items(gs)) + Occurrences(j, Items(hs))
  {
    ItemsAppend(gs, hs);
    PositionalsAppend(Items(gs), Items(hs));
    OccurrencesAppend(j, Items(gs), Items(hs));
  }

  /** Groups that all belong to option `k` say nothing but its values. */
  lemma {:induction false} OneOptionContent(gs: seq<Group>, k: nat, values: seq<string>, j: nat)
    requires |gs| == |values| && forall i | 0 <= i < |gs| :: gs[i].item == Opt(k, values[i])
    ensures Positionals(Items(gs)) == []
    ensures Occurrences(j, Items(gs)) == if j == k then values else []
    decreases |gs|
  {
    if gs != [] {
      OneOptionContent(gs[1..], k, values[1..], j);
      ContentCons(gs[0].item, Items(gs[1..]), j);
    }
  }

  lemma OptionContent(k: nat, s: Spelling, out: NamedOut<string>, j: nat)
    ensures Positionals(Items(OptionGroups(k, s, out))) == []
    ensures Occurrences(j, Items(OptionGroups(k, s, out))) == if j == k then ValuesFor(out) else []
  {
    OneOptionContent(OptionGroups(k, s, out), k, ValuesFor(out), j);
  }

  /** No positional, and nothing for option `j` unless it is `k`. */
  predicate Concerns(gs: seq<Group>, k: nat, j: nat) {
    Positionals(Items(gs)) == [] && (j != k ==> Occurrences(j, Items(gs)) == [])
  }

  /** Parts for one option each, laid end to end. */
  lemma {:induction false} FlatContent(parts: seq<seq<Group>>, j: nat)
    requires forall k: nat | k < |parts| :: Concerns(parts[k], k, j)
    ensures Positionals(Items(Flat(parts))) == []
    ensures Occurrences(j, Items(Flat(parts))) == if j < |parts| then Occurrences(j, Items(parts[j])) else []
    decreases |parts|
  {
    if parts != [] {
      var front, last := parts[..|parts| - 1], parts[|parts| - 1];
      assert forall k: nat | k < |front| :: front[k] == parts[k];
      FlatContent(front, j);
      ContentAppend(Flat(front), last, j);
    }
  }

  lemma {:induction false} PositionalContent(gs: seq<Group>, ps: seq<string>, j: nat)
    requires |gs| == |ps| && forall i | 0 <= i < |gs| :: gs[i].item == Pos(ps[i])
    ensures Positionals(Items(gs)) == ps && Occurrences(j, Items(gs)) == []
    decreases |gs|
  {
    if gs != [] {
      PositionalContent(gs[1..], ps[1..], j);
      ContentCons(gs[0].item, Items(gs[1..]), j);
    }
  }

  /** The rendered command line scans to its groups. */
  lemma RenderScans(spec: Spec, ss: seq<Spelling>, p: Parsed<string>)
    requires WellFormed(spec, ss, p)
    ensures Scan(spec, Render(ss, p)) == Ok(Items(RenderGroups(ss, p)))
  {
    var parts, ps := OptionParts(ss, p.named), p.required + p.optional;
    forall k: nat | k < |parts| ensures AllGroups(spec, parts[k]) {
      assert Renderable(spec, k, ss[k], p.named[k]);
      OptionGroupsScan(spec, k, ss[k], p.named[k]);
    }
    FlatScan(spec, parts);
    PositionalGroupsScan(spec, ps);
    AllGroupsAppend(spec, Flat(parts), PositionalGroups(ps));
    ScanTokens(spec, RenderGroups(ss, p));
  }

  /** And they say exactly what the result says. */
  lemma RenderContent(ss: seq<Spelling>, p: Parsed<string>, j: nat)
    requires |ss| == |p.named|
    ensures Positionals(Items(RenderGroups(ss, p))) == p.required + p.optional
    ensures Occurrences(j, Items(RenderGroups(ss, p))) == if j < |ss| then ValuesFor(p.named[j]) else []
  {
    var parts, hs := OptionParts(ss, p.named), PositionalGroups(p.required + p.optional);
    forall k: nat | k < |parts|
      ensures Concerns(parts[k], k, j) && (j == k ==> Occurrences(j, Items(parts[k])) == ValuesFor(p.named[k]))
    {
      OptionContent(k, ss[k], p.named[k], j);
    }
    FlatContent(parts, j);
    PositionalContent(hs, p.required + p.optional, j);
    ContentAppend(Flat(parts), hs, j);
  }

  /** Parsing what was rendered gives the result back. */
  lemma RenderRoundTrip(spec: Spec, ss: seq<Spelling>, p: Parsed<string>)
    requires WellFormed(spec, ss, p)
    ensures Parse(spec, Render(ss, p)) == Ok(p)
  {
    var items := Items(RenderGroups(ss, p));
    RenderScans(spec, ss, p);
    RenderContent(ss, p, 0);
    forall k: nat | k < |spec.named|
      ensures KindMatches(spec.named[k], p.named[k]) && Occurrences(k, items) == ValuesFor(p.named[k])
    {
      RenderContent(ss, p, k);
      assert Renderable(spec, k, ss[k], p.named[k]);
    }
    ClosedForm(spec, Render(ss, p));
    OutcomeIs(spec, items, p);
  }

  /** Options given the values for `p`, and as many positionals as there are slots, mean `p`. */
  lemma OutcomeIs(spec: Spec, items: seq<Item>, p: Parsed<string>)
    requires |p.required| == |spec.required| && |p.optional| == |spec.optional| && |p.named| == |spec.named|
    requires Positionals(items) == p.required + p.optional
    requires forall k: nat | k < |spec.named| ::
               KindMatches(spec.named[k], p.named[k]) && Occurrences(k, items) == ValuesFor(p.named[k])
    ensures Outcome(spec, items) == Ok(p)
  {
    forall k: nat | k < |spec.named| ensures Outs(spec, items)[k] == p.named[k] {
      OutOfValues(spec.named[k], p.named[k]);
    }
    assert Outs(spec, items) == p.named;
    var ps := Positionals(items);
    assert ps[..|spec.required|] == p.required && ps[|spec.required|..] == p.optional;
    assert p.optional + spec.optional[|spec.optional|..] == p.optional;
  }

  lemma OutOfValues(d: Named, out: NamedOut<string>)
    requires KindMatches(d, out)
    ensures OutOf(d, ValuesFor(out)) == out
  {
  }

  // ---------------------------------------------------------------- two spellings

  /** Two lines that go on with the same group and then the same rest mean the same. */
  lemma SameGroup(spec: Spec, pre: seq<string>, one: seq<string>, two: seq<string>)
    requires Scan(spec, pre).Ok? && one != [] && two != []
    requires Next(spec, one).Ok? && Next(spec, two).Ok? && Next(spec, one).value.0 == Next(spec, two).value.0
    requires one[Next(spec, one).value.1..] == two[Next(spec, two).value.1..]
    ensures Parse(spec, pre + one) == Parse(spec, pre + two)
  {
    ParseAppend(spec, pre, one, Initial(spec));
    ParseAppend(spec, pre, two, Initial(spec));
  }

  /** `--name=v` means the same as `v` behind any spelling of the same option, wherever they stand, when the
      option takes a value and `v` is not empty. */
  lemma AttachedSpelling(spec: Spec, k: nat, name: string, s: Spelling, v: string, pre: seq<string>, post: seq<string>)
    requires Usable(spec, k, Long(name)) && Usable(spec, k, s) && !spec.named[k].NamedFlag? && v != ""
    requires Scan(spec, pre).Ok?
    ensures Parse(spec, pre + (["--" + name + "=" + v] + post)) == Parse(spec, pre + ([s.Text()] + ([v] + post)))
  {
    var more := [v] + post;
    var one, two := ["--" + name + "=" + v] + post, [s.Text()] + more;
    AttachedReads(spec, name, v, post);
    SpelledReads(spec, s, more);
    assert one[1..] == post && two[2..] == more[1..] == post;
    SameGroup(spec, pre, one, two);
  }

  /** All spellings of one option are interchangeable, wherever they stand. */
  lemma SpellingsAgree(spec: Spec, k: nat, s: Spelling, t: Spelling, pre: seq<string>, post: seq<string>)
    requires Usable(spec, k, s) && Usable(spec, k, t) && Scan(spec, pre).Ok?
    requires spec.named[k].NamedFlag? || post != []
    ensures Parse(spec, pre + ([s.Text()] + post)) == Parse(spec, pre + ([t.Text()] + post))
  {
    var one, two := [s.Text()] + post, [t.Text()] + post;
    SpelledReads(spec, s, post);
    SpelledReads(spec, t, post);
    assert one[1..] == post == two[1..];
    if post != [] { assert one[2..] == post[1..] == two[2..]; }
    SameGroup(spec, pre, one, two);
  }

  /** Exactly the empty value tells the attached spelling apart: `--name=` takes the next token for its value,
      or is an error at the end of the line. */
  lemma AttachedSpellingExact(spec: Spec, k: nat, name: string, s: Spelling, v: string)
    requires Usable(spec, k, Long(name)) && Usable(spec, k, s) && !spec.named[k].NamedFlag?
    ensures (forall post :: Parse(spec, ["--" + name + "=" + v] + post) == Parse(spec, [s.Text()] + ([v] + post)))
            <==> v != ""
  {
    if v != "" {
      forall post ensures Parse(spec, ["--" + name + "=" + v] + post) == Parse(spec, [s.Text()] + ([v] + post)) {
        AttachedSpelling(spec, k, name, s, v, [], post);
        assert [] + (["--" + name + "=" + v] + post) == ["--" + name + "=" + v] + post;
        assert [] + ([s.Text()] + ([v] + post)) == [s.Text()] + ([v] + post);
      }
    } else {
      EmptyAttached(spec, k, name, s, v);
    }
  }

  lemma EmptyAttached(spec: Spec, k: nat, name: string, s: Spelling, v: string)
    requires Usable(spec, k, Long(name)) && Usable(spec, k, s) && !spec.named[k].NamedFlag? && v == ""
    ensures Parse(spec, ["--" + name + "=" + v] + []) != Parse(spec, [s.Text()] + ([v] + []))
  {
    AttachedReads(spec, name, v, []);
    SpelledReads(spec, s, [v] + []);
    var two := [s.Text()] + ([v] + []);
    assert two[2..] == [];
    var acc := Apply(spec, Initial(spec), Opt(k, v)).value;
    assert Parse(spec, two) == ParseFrom(spec, [], acc) == Finish(spec, acc);
  }

  // ---------------------------------------------------------------- selectors

  /** `parse_selector`: key expression and parameters around the first `?`. */
  function ParseSelector(s: string): (r: (string, string))
    ensures '?' !in r.0
    ensures s == if '?' in s then r.0 + "?" + r.1 else r.0
    ensures '?' !in s ==> r.1 == ""
  {
    var pos := Find(s, '?');
    if pos == |s| then (s, "") else (s[..pos], s[pos + 1..])
  }

  lemma SelectorRoundTrip(key: string, parameters: string)
    requires '?' !in key
    ensures ParseSelector(key + "?" + parameters) == (key, parameters)
  {
    var s := key + "?" + parameters;
    assert s[..|key|] == key && s[|key| + 1..] == parameters;
    FindAt(s, '?', |key|);
  }
}
