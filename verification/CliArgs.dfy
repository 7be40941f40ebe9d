/**
 `CliArgParser` as it runs: one loop over `argv` that writes into the argument buffers and hands out
 views into them. `argv` is the table of buffers; the buffers are distinct.
 */
module CliArgs {
  import opened CliGrammar

  const NUL: char := '\0'

  predicate CString(s: string) { NUL !in s }

  function Buffer(tok: string): seq<char> { tok + [NUL] }

  /** `strlen(buf + off)`. */
  function StrLen(buf: seq<char>, off: nat): nat
    decreases |buf| - off
  {
    if off >= |buf| || buf[off] == NUL then 0 else 1 + StrLen(buf, off + 1)
  }

  /** The text of the C string at `buf + off`. */
  function CText(buf: seq<char>, off: nat): string {
    if off + StrLen(buf, off) <= |buf| then buf[off..off + StrLen(buf, off)] else ""
  }

  /** A C string that starts behind `pre` and runs up to the next NUL. */
  lemma {:induction false} CTextIs(pre: seq<char>, s: string, post: seq<char>)
    requires CString(s)
    ensures StrLen(pre + s + [NUL] + post, |pre|) == |s|
    ensures CText(pre + s + [NUL] + post, |pre|) == s
    decreases |s|
  {
    var buf := pre + s + [NUL] + post;
    if s != "" {
      assert pre + [s[0]] + s[1..] == pre + s;
      CTextIs(pre + [s[0]], s[1..], post);
    }
    assert buf[|pre|..|pre| + |s|] == s;
  }

  /** A `std::string_view`: a declared default, or a stretch of an argument buffer. */
  datatype View = Literal(s: string) | Arg(i: nat, off: nat, len: nat)

  function Text(mem: seq<seq<char>>, v: View): string {
    match v
    case Literal(s) => s
    case Arg(i, off, len) => if i < |mem| && off + len <= |mem[i]| then mem[i][off..off + len] else ""
  }

  function Texts(mem: seq<seq<char>>, vs: seq<View>): (ts: seq<string>)
    ensures |ts| == |vs| && forall i | 0 <= i < |vs| :: ts[i] == Text(mem, vs[i])
  {
    seq(|vs|, i requires 0 <= i < |vs| => Text(mem, vs[i]))
  }

  function OutText(mem: seq<seq<char>>, out: NamedOut<View>): NamedOut<string> {
    match out
    case FlagOut(b) => FlagOut(b)
    case ValueOut(v) => ValueOut(Text(mem, v))
    case ValuesOut(vs) => ValuesOut(Texts(mem, vs))
  }

  function OutTexts(mem: seq<seq<char>>, outs: seq<NamedOut<View>>): (ts: seq<NamedOut<string>>)
    ensures |ts| == |outs| && forall i | 0 <= i < |outs| :: ts[i] == OutText(mem, outs[i])
  {
    seq(|outs|, i requires 0 <= i < |outs| => OutText(mem, outs[i]))
  }

  function AccText(mem: seq<seq<char>>, acc: Acc<View>): Acc<string> {
    Acc(Texts(mem, acc.required), Texts(mem, acc.optional), acc.parsed, OutTexts(mem, acc.named))
  }

  function ParsedText(mem: seq<seq<char>>, p: Parsed<View>): Parsed<string> {
    Parsed(Texts(mem, p.required), Texts(mem, p.optional), OutTexts(mem, p.named))
  }

  // ---------------------------------------------------------------- views stay valid

  /** The view does not reach into buffers from `cur` on. */
  predicate Before(v: View, cur: nat) { v.Arg? ==> v.i < cur }

  predicate OutBefore(out: NamedOut<View>, cur: nat) {
    match out
    case FlagOut(_) => true
    case ValueOut(v) => Before(v, cur)
    case ValuesOut(vs) => forall i | 0 <= i < |vs| :: Before(vs[i], cur)
  }

  predicate AccBefore(acc: Acc<View>, cur: nat) {
    && (forall i | 0 <= i < |acc.required| :: Before(acc.required[i], cur))
    && (forall i | 0 <= i < |acc.optional| :: Before(acc.optional[i], cur))
    && forall i | 0 <= i < |acc.named| :: OutBefore(acc.named[i], cur)
  }

  /** Writing into the buffer at `cur` is invisible through everything recorded so far. */
  lemma WriteInvisible(mem: seq<seq<char>>, cur: nat, buf: seq<char>, acc: Acc<View>)
    requires cur < |mem| && AccBefore(acc, cur)
    ensures AccText(mem[cur := buf], acc) == AccText(mem, acc)
  {
    var mem' := mem[cur := buf];
    assert Texts(mem', acc.required) == Texts(mem, acc.required);
    assert Texts(mem', acc.optional) == Texts(mem, acc.optional);
    forall i | 0 <= i < |acc.named| ensures OutText(mem', acc.named[i]) == OutText(mem, acc.named[i]) {
      if acc.named[i].ValuesOut? {
        assert Texts(mem', acc.named[i].texts) == Texts(mem, acc.named[i].texts);
      }
    }
    assert OutTexts(mem', acc.named) == OutTexts(mem, acc.named);
  }

  predicate KindOk(d: Named, out: NamedOut<View>) {
    match d
    case NamedFlag(_) => out.FlagOut?
    case NamedValue(_, _) => out.ValueOut?
    case NamedValues(_) => out.ValuesOut?
  }

  predicate KindsOk(named: seq<Named>, outs: seq<NamedOut<View>>) {
    |outs| == |named| && forall i | 0 <= i < |named| :: KindOk(named[i], outs[i])
  }

  // ---------------------------------------------------------------- splitting in place

  /** The buffer after the first `=`, if any, has been overwritten. */
  function Split(tok: string): seq<char> {
    var pos := Find(tok, '=');
    if pos < |tok| then Buffer(tok)[pos := NUL] else Buffer(tok)
  }

  lemma BufferText(tok: string)
    requires CString(tok)
    ensures StrLen(Buffer(tok), 0) == |tok| && CText(Buffer(tok), 0) == tok
  {
    CTextIs([], tok, []);
    assert [] + tok + [NUL] + [] == Buffer(tok);
  }

  /** After the write, a C string that starts before the `=` ends there. */
  lemma SplitRead(tok: string, off: nat)
    requires CString(tok) && off <= Find(tok, '=')
    ensures CText(Split(tok), off) == Head(tok)[off..]
  {
    var pos := Find(tok, '=');
    assert tok[off..pos] == Head(tok)[off..];
    if pos < |tok| {
      CTextIs(tok[..off], tok[off..pos], Buffer(tok)[pos + 1..]);
      assert Split(tok) == tok[..off] + tok[off..pos] + [NUL] + Buffer(tok)[pos + 1..];
    } else {
      CTextIs(tok[..off], tok[off..pos], []);
      assert Split(tok) == tok[..off] + tok[off..pos] + [NUL] + [];
    }
  }

  /** The C string behind the overwritten `=` is the attached value. */
  lemma SplitAttached(tok: string)
    requires CString(tok) && Find(tok, '=') < |tok|
    ensures StrLen(Split(tok), Find(tok, '=') + 1) == |Attached(tok)|
    ensures CText(Split(tok), Find(tok, '=') + 1) == Attached(tok)
  {
    var pos := Find(tok, '=');
    var front, back := tok[..pos], tok[pos + 1..];
    assert tok == front + ['='] + back;
    Overwritten(front, back);
    CTextIs(front + [NUL], back, []);
  }

  lemma Overwritten(front: seq<char>, back: seq<char>)
    ensures (front + ['='] + back + [NUL])[|front| := NUL] == front + [NUL] + back + [NUL] + []
  {
  }

  /** The C string behind the dashes is the option name. The byte at index 1 is a dash, or a character of the
      name, or (for `-=...`) the NUL just written. */
  lemma SplitName(tok: string)
    requires CString(tok) && IsNamed(tok)
    ensures CText(Split(tok), if Split(tok)[1] == '-' then 2 else 1) == NameOf(Head(tok))
  {
    SplitRead(tok, 1);
    if Split(tok)[1] == '-' {
      SplitRead(tok, 2);
    }
  }

  function Size(v: View): nat {
    match v case Literal(s) => |s| case Arg(_, _, len) => len
  }

  /** Assign to a value, or `push_back` to values. */
  function StoreView(out: NamedOut<View>, v: View): NamedOut<View> {
    match out
    case FlagOut(_) => out
    case ValueOut(_) => ValueOut(v)
    case ValuesOut(vs) => ValuesOut(vs + [v])
  }

  lemma StoreViewText(mem: seq<seq<char>>, d: Named, out: NamedOut<View>, v: View)
    requires KindOk(d, out) && !d.NamedFlag?
    ensures OutText(mem, StoreView(out, v)) == Store(d, OutText(mem, out), Text(mem, v))
    ensures KindOk(d, StoreView(out, v))
  {
    if out.ValuesOut? {
      assert Texts(mem, out.texts + [v]) == Texts(mem, out.texts) + [Text(mem, v)];
    }
  }

  /** The table maps exactly the declared names, each to the option it stands for. */
  ghost predicate IndexOk(named: seq<Named>, index: map<string, nat>) {
    && (forall name :: name in index <==> Resolve(named, name).Some?)
    && forall name | name in index :: Resolve(named, name) == Some(index[name])
  }

  lemma TurnErr(spec: Spec, toks: seq<string>, cur: nat, acc: Acc<string>, e: Error)
    requires cur < |toks|
    requires var nx := Next(spec, toks[cur..]);
             nx == Err(e) || (nx.Ok? && Apply(spec, acc, nx.value.0) == Err(e))
    ensures ParseFrom(spec, toks[cur..], acc) == Err(e)
  {
  }

  lemma TurnOk(spec: Spec, toks: seq<string>, cur: nat, acc: Acc<string>, cur': nat, acc': Acc<string>)
    requires cur < cur' <= |toks|
    requires var nx := Next(spec, toks[cur..]);
             nx.Ok? && nx.value.1 == cur' - cur && Apply(spec, acc, nx.value.0) == Ok(acc')
    ensures ParseFrom(spec, toks[cur..], acc) == ParseFrom(spec, toks[cur'..], acc')
  {
    assert toks[cur..][cur' - cur..] == toks[cur'..];
  }

  /** The group that starts with an option whose name is known. */
  lemma NextOption(spec: Spec, toks: seq<string>, cur: nat, k: nat)
    requires cur < |toks| && IsNamed(toks[cur]) && Resolve(spec.named, NameOf(Head(toks[cur]))) == Some(k)
    ensures Next(spec, toks[cur..]) ==
            if spec.named[k].NamedFlag? then Ok((Opt(k, ""), 1))
            else if Attached(toks[cur]) != "" then Ok((Opt(k, Attached(toks[cur])), 1))
            else if cur + 1 >= |toks| then Err(MissingValue(NameOf(Head(toks[cur]))))
            else Ok((Opt(k, toks[cur + 1]), 2))
  {
    assert toks[cur..][0] == toks[cur];
  }

  /** Replacing one option's slot is what the grammar does with the slot's text. */
  lemma StoredAcc(spec: Spec, mem: seq<seq<char>>, acc: Acc<View>, k: nat, out: NamedOut<View>, text: string, next: nat)
    requires k < |spec.named| && KindsOk(spec.named, acc.named) && KindOk(spec.named[k], out)
    requires OutText(mem, out) == Store(spec.named[k], OutText(mem, acc.named[k]), text)
    ensures var acc' := acc.(named := acc.named[k := out]);
            && Apply(spec, AccText(mem, acc), Opt(k, text)) == Ok(AccText(mem, acc'))
            && KindsOk(spec.named, acc'.named)
            && (AccBefore(acc, next) && OutBefore(out, next) ==> AccBefore(acc', next))
  {
    assert OutTexts(mem, acc.named[k := out]) == OutTexts(mem, acc.named)[k := OutText(mem, out)];
  }

  // ---------------------------------------------------------------- the parser object

  class CliArgParser {
    const argv: array<seq<char>>
    const spec: Spec

    constructor (argv: array<seq<char>>, spec: Spec)
      ensures this.argv == argv && this.spec == spec
    {
      this.argv, this.spec := argv, spec;
    }

    /** From `cur` on, `argv` is as the program received it; before, at most the first `=` of a token has
        been overwritten. */
    ghost predicate Holds(toks: seq<string>, cur: nat)
      reads this, argv
    {
      && argv.Length == |toks|
      && (forall i | 0 <= i < |toks| :: CString(toks[i]))
      && (forall i | cur <= i < |toks| :: argv[i] == Buffer(toks[i]))
      && forall i | 0 <= i < |toks| :: argv[i] == Buffer(toks[i]) || argv[i] == Split(toks[i])
    }

    /** The alias table: later declarations override earlier ones. */
    method BuildIndex() returns (index: map<string, nat>)
      ensures IndexOk(spec.named, index)
    {
      index := map[];
      for i := 0 to |spec.named|
        invariant IndexOk(spec.named[..i], index)
      {
        index := AddAliases(index, spec.named[i].opts, i);
        assert spec.named[..i + 1][..i] == spec.named[..i];
      }
      assert spec.named[..|spec.named|] == spec.named;
    }

    method AddAliases(before: map<string, nat>, opts: seq<string>, i: nat) returns (index: map<string, nat>)
      ensures forall name :: name in index <==> name in before || name in opts
      ensures forall name | name in index :: index[name] == if name in opts then i else before[name]
    {
      index := before;
      for j := 0 to |opts|
        invariant forall name :: name in index <==> name in before || name in opts[..j]
        invariant forall name | name in index :: index[name] == if name in opts[..j] then i else before[name]
      {
        index := index[opts[j] := i];
        assert opts[..j + 1] == opts[..j] + [opts[j]];
      }
      assert opts[..|opts|] == opts;
    }

    /** Slots before the first token: defaults, unset flags, empty lists. */
    method InitialAcc(ghost mem: seq<seq<char>>) returns (acc: Acc<View>)
      ensures AccText(mem, acc) == Initial(spec)
      ensures AccBefore(acc, 0) && KindsOk(spec.named, acc.named)
    {
      var outs: seq<NamedOut<View>> := [];
      for i := 0 to |spec.named|
        invariant |outs| == i
        invariant forall j | 0 <= j < i :: KindOk(spec.named[j], outs[j]) && OutBefore(outs[j], 0)
        invariant forall j | 0 <= j < i :: OutText(mem, outs[j]) == InitialOut(spec.named[j])
      {
        var out := match spec.named[i]
          case NamedFlag(_) => FlagOut(false)
          case NamedValue(_, v) => ValueOut(Literal(v))
          case NamedValues(_) => ValuesOut([]);
        assert Texts(mem, []) == [];
        outs := outs + [out];
      }
      var optional := seq(|spec.optional|, i requires 0 <= i < |spec.optional| => Literal(spec.optional[i]));
      acc := Acc([], optional, 0, outs);
      assert Texts(mem, []) == [];
      assert Texts(mem, optional) == spec.optional;
      assert OutTexts(mem, outs) == Initial(spec).named;
    }

    predicate IsNamedAt(cur: nat)
      reads this, argv
    {
      cur < argv.Length && IsNamed(CText(argv[cur], 0))
    }

    /** Option branch of the loop, up to the choice of the value: splits the token in place and looks the
        name up. */
    method SplitOption(cur: nat, index: map<string, nat>, ghost toks: seq<string>)
        returns (k: Option<nat>, head: string, name: string, val: View)
      requires cur < argv.Length && Holds(toks, cur) && IsNamed(toks[cur])
      modifies argv
      ensures argv[..] == old(argv[..])[cur := Split(toks[cur])]
      ensures head == Head(toks[cur]) && name == NameOf(Head(toks[cur]))
      ensures k == if name in index then Some(index[name]) else None
      ensures Text(argv[..], val) == Attached(toks[cur]) && |Attached(toks[cur])| == Size(val) && Before(val, cur + 1)
    {
      BufferText(toks[cur]);
      SplitRead(toks[cur], 0);
      SplitName(toks[cur]);
      var a := CText(argv[cur], 0);
      assert a == toks[cur];
      val := Literal("");
      var pos := Find(a, '=');
      if pos < |a| {
        SplitAttached(toks[cur]);
        argv[cur] := argv[cur][pos := NUL];
        val := Arg(cur, pos + 1, StrLen(argv[cur], pos + 1));
      }
      head := CText(argv[cur], 0);
      name := CText(argv[cur], if argv[cur][1] == '-' then 2 else 1);
      k := if name in index then Some(index[name]) else None;
    }

    lemma TokenAt(cur: nat, toks: seq<string>)
      requires cur < argv.Length && Holds(toks, cur)
      ensures CText(argv[cur], 0) == toks[cur]
      ensures !IsNamed(toks[cur]) ==> Next(spec, toks[cur..]) == Ok((Pos(toks[cur]), 1))
    {
      BufferText(toks[cur]);
    }

    /** Positional branch of the loop: the next required slot, else the next optional one. */
    method TakePositional(cur: nat, acc: Acc<View>, ghost toks: seq<string>) returns (r: Result<Acc<View>>)
      requires cur < argv.Length && Holds(toks, cur) && AccBefore(acc, cur)
      ensures match r
              case Ok(acc') =>
                && Apply(spec, AccText(argv[..], acc), Pos(toks[cur])) == Ok(AccText(argv[..], acc'))
                && AccBefore(acc', cur + 1) && acc'.named == acc.named
              case Err(e) => Apply(spec, AccText(argv[..], acc), Pos(toks[cur])) == Err(e)
    {
      BufferText(toks[cur]);
      ghost var mem := argv[..];
      var a := Arg(cur, 0, StrLen(argv[cur], 0));
      assert Text(mem, a) == toks[cur];
      if |acc.required| < |spec.required| {
        var required := acc.required + [a];
        assert Texts(mem, required) == Texts(mem, acc.required) + [toks[cur]];
        r := Ok(acc.(required := required));
      } else if acc.parsed < |acc.optional| {
        var optional := acc.optional[acc.parsed := a];
        assert Texts(mem, optional) == Texts(mem, acc.optional)[acc.parsed := toks[cur]];
        r := Ok(acc.(optional := optional, parsed := acc.parsed + 1));
      } else {
        r := Err(UnexpectedPositional(CText(argv[cur], 0)));
      }
    }

    /** The value of a value option: the attached one, or the next token. */
    method ChooseValue(cur: nat, attached: View, ghost toks: seq<string>) returns (val: View, next: nat)
      requires cur < argv.Length && Holds(toks, cur + 1)
      requires Size(attached) != 0 || cur + 1 < argv.Length
      requires Before(attached, cur + 1)
      ensures next == (if Size(attached) == 0 then cur + 2 else cur + 1) && Before(val, next)
      ensures Text(argv[..], val) == if Size(attached) == 0 then toks[cur + 1] else Text(argv[..], attached)
    {
      val, next := attached, cur + 1;
      if Size(val) == 0 {
        BufferText(toks[next]);
        val := Arg(next, 0, StrLen(argv[next], 0));
        next := next + 1;
      }
    }

    /** Option branch of the loop, behind the lookup: the flag is set, or the value is stored. */
    method StoreOption(cur: nat, acc: Acc<View>, k: nat, name: string, attached: View, ghost toks: seq<string>)
        returns (r: Result<(Acc<View>, nat)>)
      requires cur < argv.Length && Holds(toks, cur + 1) && IsNamed(toks[cur])
      requires AccBefore(acc, cur) && KindsOk(spec.named, acc.named)
      requires name == NameOf(Head(toks[cur])) && Resolve(spec.named, name) == Some(k)
      requires Text(argv[..], attached) == Attached(toks[cur]) && |Attached(toks[cur])| == Size(attached)
      requires Before(attached, cur + 1)
      ensures match Next(spec, toks[cur..])
              case Err(e) => r == Err(e)
              case Ok((item, n)) => r.Ok? && r.value.1 == cur + n && Stored(acc, item, r.value.0, cur + n)
    {
      NextOption(spec, toks, cur, k);
      if spec.named[k].NamedFlag? {
        var acc' := StoreFlag(acc, k, cur + 1);
        r := Ok((acc', cur + 1));
      } else if cur + 1 >= argv.Length && Size(attached) == 0 {
        r := Err(MissingValue(name));
      } else {
        var val, next := ChooseValue(cur, attached, toks);
        var acc' := StoreValue(acc, k, val, next);
        r := Ok((acc', next));
      }
    }

    /** The slots' texts changed as the grammar demands for `item`; views stay behind `next`. */
    ghost predicate Stored(acc: Acc<View>, item: Item, acc': Acc<View>, next: nat)
      reads argv
    {
      && Apply(spec, AccText(argv[..], acc), item) == Ok(AccText(argv[..], acc'))
      && AccBefore(acc', next) && KindsOk(spec.named, acc'.named)
    }

    method StoreFlag(acc: Acc<View>, k: nat, next: nat) returns (acc': Acc<View>)
      requires AccBefore(acc, next) && KindsOk(spec.named, acc.named) && k < |spec.named|
      requires spec.named[k].NamedFlag?
      ensures Stored(acc, Opt(k, ""), acc', next)
    {
      StoredAcc(spec, argv[..], acc, k, FlagOut(true), "", next);
      acc' := acc.(named := acc.named[k := FlagOut(true)]);
    }

    method StoreValue(acc: Acc<View>, k: nat, val: View, next: nat) returns (acc': Acc<View>)
      requires AccBefore(acc, next) && Before(val, next) && KindsOk(spec.named, acc.named) && k < |spec.named|
      requires !spec.named[k].NamedFlag?
      ensures Stored(acc, Opt(k, Text(argv[..], val)), acc', next)
    {
      var out := StoreView(acc.named[k], val);
      StoreViewText(argv[..], spec.named[k], acc.named[k], val);
      StoredAcc(spec, argv[..], acc, k, out, Text(argv[..], val), next);
      acc' := acc.(named := acc.named[k := out]);
    }

    /** Option branch of the loop: one or two tokens, the first one split in place. */
    method TakeOption(cur: nat, acc: Acc<View>, index: map<string, nat>, ghost toks: seq<string>)
        returns (r: Result<(Acc<View>, nat)>)
      requires cur < argv.Length && Holds(toks, cur) && IsNamed(toks[cur])
      requires AccBefore(acc, cur) && KindsOk(spec.named, acc.named)
      requires IndexOk(spec.named, index)
      modifies argv
      ensures Holds(toks, cur + 1)
      ensures match Next(spec, toks[cur..])
              case Err(e) => r == Err(e)
              case Ok((item, n)) =>
                && r.Ok? && r.value.1 == cur + n
                && Apply(spec, old(AccText(argv[..], acc)), item) == Ok(AccText(argv[..], r.value.0))
                && AccBefore(r.value.0, cur + n) && KindsOk(spec.named, r.value.0.named)
    {
      var k, head, name, val := SplitOption(cur, index, toks);
      WriteInvisible(old(argv[..]), cur, Split(toks[cur]), acc);
      assert AccText(argv[..], acc) == old(AccText(argv[..], acc));
      if k == None {
        return Err(UnexpectedOption(head));
      }
      r := StoreOption(cur, acc, k.value, name, val, toks);
    }

    /** One turn of the loop: from the text of the slots before it to the text of the slots after it, the
        rest of the parse is unchanged. */
    method TakeGroup(cur: nat, acc: Acc<View>, index: map<string, nat>, ghost toks: seq<string>)
        returns (r: Result<(Acc<View>, nat)>)
      requires cur < argv.Length && Holds(toks, cur)
      requires AccBefore(acc, cur) && KindsOk(spec.named, acc.named) && IndexOk(spec.named, index)
      modifies argv
      ensures Holds(toks, cur + 1)
      ensures r.Err? ==> ParseFrom(spec, toks[cur..], old(AccText(argv[..], acc))) == Err(r.error)
      ensures r.Ok? ==> var (acc', cur') := r.value;
                        && cur < cur' <= |toks|
                        && AccBefore(acc', cur') && KindsOk(spec.named, acc'.named)
                        && ParseFrom(spec, toks[cur..], old(AccText(argv[..], acc)))
                        == ParseFrom(spec, toks[cur'..], AccText(argv[..], acc'))
    {
      ghost var before := AccText(argv[..], acc);
      TokenAt(cur, toks);
      if !IsNamedAt(cur) {
        var p := TakePositional(cur, acc, toks);
        r := match p case Ok(acc') => Ok((acc', cur + 1)) case Err(e) => Err(e);
      } else {
        r := TakeOption(cur, acc, index, toks);
      }
      if r.Ok? {
        TurnOk(spec, toks, cur, before, r.value.1, AccText(argv[..], r.value.0));
      } else {
        TurnErr(spec, toks, cur, before, r.error);
      }
    }

    /** `parse_args` with `current_arg == first`. The result's views, read in the final memory, are the
        texts the grammar gives for the original tokens. */
    method ParseArgs(first: nat, ghost toks: seq<string>) returns (r: Result<Parsed<View>>, index: map<string, nat>)
      requires first <= |toks| && Holds(toks, 0)
      modifies argv
      ensures Holds(toks, |toks|)
      ensures match r
              case Ok(p) => Parse(spec, toks[first..]) == Ok(ParsedText(argv[..], p)) && KindsOk(spec.named, p.named)
              case Err(e) => Parse(spec, toks[first..]) == Err(e)
      ensures IndexOk(spec.named, index)
    {
      index := BuildIndex();
      var acc := InitialAcc(argv[..]);
      var cur := first;
      while cur < argv.Length
        invariant first <= cur <= argv.Length && Holds(toks, cur)
        invariant AccBefore(acc, cur) && KindsOk(spec.named, acc.named)
        invariant ParseFrom(spec, toks[cur..], AccText(argv[..], acc)) == Parse(spec, toks[first..])
        decreases argv.Length - cur
      {
        var t := TakeGroup(cur, acc, index, toks);
        if t.Err? { return Err(t.error), index; }
        acc, cur := t.value.0, t.value.1;
      }
      assert toks[cur..] == [];
      if |acc.required| < |spec.required| {
        return Err(MissingRequired(spec.required[|acc.required|])), index;
      }
      r := Ok(Parsed(acc.required, acc.optional, acc.named));
    }

    /** `run`: help instead of a result when there are no arguments at all but some are required. */
    method Run(ghost toks: seq<string>) returns (r: Option<Result<Parsed<View>>>, index: map<string, nat>)
      requires |toks| >= 1 && Holds(toks, 0)
      modifies argv
      ensures r == None <==> |toks| == 1 && spec.required != []
      ensures r.Some? ==> match r.value
                          case Ok(p) => Parse(spec, toks[1..]) == Ok(ParsedText(argv[..], p))
                          case Err(e) => Parse(spec, toks[1..]) == Err(e)
      ensures r.Some? ==> IndexOk(spec.named, index)
    {
      if argv.Length == 1 && |spec.required| > 0 {
        return None, map[];
      }
      var p;
      p, index := ParseArgs(1, toks);
      r := Some(p);
    }
  }
}
