/**
 The command-line grammar of `CliArgParser` as pure functions over immutable tokens: one group of
 tokens at a time, applied to an accumulator.
 */
module CliGrammar {

  datatype Option<T> = None | Some(value: T)

  datatype Error =
    | UnexpectedPositional(text: string)
    | UnexpectedOption(head: string)
    | MissingValue(name: string)
    | MissingRequired(name: string)

  datatype Result<T> = Ok(value: T) | Err(error: Error)

  // ---------------------------------------------------------------- declarations

  datatype Named =
    | NamedFlag(opts: seq<string>)
    | NamedValue(opts: seq<string>, value: string)
    | NamedValues(opts: seq<string>)

  /** Names of the required arguments, defaults of the optional ones, declared options. */
  datatype Spec = Spec(required: seq<string>, optional: seq<string>, named: seq<Named>)

  /** The option a name stands for: the last declaration that lists it. */
  function Resolve(named: seq<Named>, name: string): (r: Option<nat>)
    ensures r.Some? ==> r.value < |named|
  {
    if named == [] then None
    else if name in named[|named| - 1].opts then Some(|named| - 1)
    else Resolve(named[..|named| - 1], name)
  }

  /** A name resolves to `k` exactly if `k` lists it and no later declaration does. */
  lemma {:induction false} ResolveIsLast(named: seq<Named>, name: string, k: nat)
    ensures Resolve(named, name) == Some(k)
            <==> k < |named| && name in named[k].opts && forall i | k < i < |named| :: name !in named[i].opts
    decreases |named|
  {
    if named != [] && name !in named[|named| - 1].opts {
      ResolveIsLast(named[..|named| - 1], name, k);
    }
  }

  // ---------------------------------------------------------------- tokens

  predicate IsNamed(a: string) {
    (|a| == 2 && a[0] == '-') || (|a| > 2 && a[0] == '-' && a[1] == '-')
  }

  /** Position of the first `c`, or the length if there is none. */
  function Find(s: string, c: char): (n: nat)
    ensures n <= |s|
    ensures n < |s| ==> s[n] == c
    ensures forall i | 0 <= i < n :: s[i] != c
  {
    if s == "" || s[0] == c then 0 else 1 + Find(s[1..], c)
  }

  /** The part before the first `=`, and the part behind it (empty if there is none). */
  function Head(a: string): string { a[..Find(a, '=')] }

  function Attached(a: string): string {
    var pos := Find(a, '=');
    if pos < |a| then a[pos + 1..] else ""
  }

  /** The name behind one dash or two. `-=...` leaves the head `-` and the empty name. */
  function NameOf(head: string): string
    requires |head| >= 1
  {
    if |head| >= 2 && head[1] == '-' then head[2..] else head[1..]
  }

  /** One group of tokens: a positional, or an option with its value (empty for a flag). */
  datatype Item = Pos(text: string) | Opt(k: nat, text: string)

  /** The first group, and how many tokens it takes. */
  function Next(spec: Spec, toks: seq<string>): (r: Result<(Item, nat)>)
    requires toks != []
    ensures r.Ok? ==> 1 <= r.value.1 <= 2 && r.value.1 <= |toks|
    ensures r.Ok? && r.value.0.Opt? ==> r.value.0.k < |spec.named|
  {
    var a := toks[0];
    if !IsNamed(a) then Ok((Pos(a), 1))
    else
      match Resolve(spec.named, NameOf(Head(a)))
      case None => Err(UnexpectedOption(Head(a)))
      case Some(k) =>
        if spec.named[k].NamedFlag? then Ok((Opt(k, ""), 1))
        else if Attached(a) != "" then Ok((Opt(k, Attached(a)), 1))
        else if |toks| == 1 then Err(MissingValue(NameOf(Head(a))))
        else Ok((Opt(k, toks[1]), 2))
  }

  // ---------------------------------------------------------------- accumulating

  /** `S` is `string` here, and a view into `argv` in the implementation. */
  datatype NamedOut<S> = FlagOut(value: bool) | ValueOut(text: S) | ValuesOut(texts: seq<S>)

  datatype Acc<S> = Acc(required: seq<S>, optional: seq<S>, parsed: nat, named: seq<NamedOut<S>>)

  /** What `Result` holds. */
  datatype Parsed<S> = Parsed(required: seq<S>, optional: seq<S>, named: seq<NamedOut<S>>)

  function InitialOut(d: Named): NamedOut<string> {
    match d
    case NamedFlag(_) => FlagOut(false)
    case NamedValue(_, v) => ValueOut(v)
    case NamedValues(_) => ValuesOut([])
  }

  function Initial(spec: Spec): Acc<string> {
    Acc([], spec.optional, 0, seq(|spec.named|, i requires 0 <= i < |spec.named| => InitialOut(spec.named[i])))
  }

  function Store(d: Named, out: NamedOut<string>, v: string): NamedOut<string> {
    match d
    case NamedFlag(_) => FlagOut(true)
    case NamedValue(_, _) => ValueOut(v)
    case NamedValues(_) => if out.ValuesOut? then ValuesOut(out.texts + [v]) else out
  }

  function Apply(spec: Spec, acc: Acc<string>, item: Item): Result<Acc<string>> {
    match item
    case Pos(a) =>
      if |acc.required| < |spec.required| then Ok(acc.(required := acc.required + [a]))
      else if acc.parsed < |acc.optional| then
        Ok(acc.(optional := acc.optional[acc.parsed := a], parsed := acc.parsed + 1))
      else Err(UnexpectedPositional(a))
    case Opt(k, v) =>
      if k < |spec.named| && k < |acc.named| then
        Ok(acc.(named := acc.named[k := Store(spec.named[k], acc.named[k], v)]))
      else Ok(acc)
  }

  function Finish(spec: Spec, acc: Acc<string>): Result<Parsed<string>> {
    if |acc.required| < |spec.required| then Err(MissingRequired(spec.required[|acc.required|]))
    else Ok(Parsed(acc.required, acc.optional, acc.named))
  }

  /** The loop of `parse_args`, group by group. */
  function ParseFrom(spec: Spec, toks: seq<string>, acc: Acc<string>): Result<Parsed<string>>
    decreases |toks|
  {
    if toks == [] then Finish(spec, acc)
    else
      match Next(spec, toks)
      case Err(e) => Err(e)
      case Ok((item, n)) =>
        match Apply(spec, acc, item)
        case Err(e) => Err(e)
        case Ok(acc') => ParseFrom(spec, toks[n..], acc')
  }

  function Parse(spec: Spec, toks: seq<string>): Result<Parsed<string>> {
    ParseFrom(spec, toks, Initial(spec))
  }
}
