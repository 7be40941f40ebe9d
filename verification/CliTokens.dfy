/**
 Which tokens are options, and what each of them says, shape by shape.
 */
module CliTokens {
  import opened CliGrammar

  /** How an option is written on the command line: `-c` or `--name`. */
  datatype Spelling = Short(c: char) | Long(name: string)
  {
    function Name(): string {
      match this case Short(c) => [c] case Long(name) => name
    }

    function Text(): string {
      match this case Short(c) => ['-', c] case Long(name) => "--" + name
    }

    predicate Valid() {
      match this case Short(c) => c != '-' && c != '=' case Long(name) => '=' !in name
    }
  }

  /** No option: it does not start with a dash, or is a single dash, or is a dash with more than one character
      behind it that do not start with a dash, such as `-abc` or `-k=v`. */
  predicate Ordinary(a: string) {
    a == "" || a[0] != '-' || a == "-" || (|a| > 2 && a[1] != '-')
  }

  // ---------------------------------------------------------------- reading

  lemma {:induction false} FindNone(s: string, c: char)
    requires c !in s
    ensures Find(s, c) == |s|
  {
  }

  lemma FindAt(s: string, c: char, n: nat)
    requires n < |s| && s[n] == c && c !in s[..n]
    ensures Find(s, c) == n
  {
    assert forall i | 0 <= i < n :: s[i] == s[..n][i];
  }

  lemma SpelledToken(s: Spelling)
    requires s.Valid()
    ensures var a := s.Text(); IsNamed(a) && Head(a) == a && Attached(a) == "" && NameOf(a) == s.Name()
  {
    FindNone(s.Text(), '=');
  }

  lemma AttachedToken(name: string, v: string)
    requires '=' !in name
    ensures var a := "--" + name + "=" + v;
            IsNamed(a) && Head(a) == "--" + name && Attached(a) == v && NameOf(Head(a)) == name
  {
    var a, h := "--" + name + "=" + v, "--" + name;
    assert a[..|h|] == h && a[|h|] == '=' && a[|h| + 1..] == v;
    FindAt(a, '=', |h|);
  }

  /** Exactly the ordinary tokens are positionals. */
  lemma OrdinaryExactly(spec: Spec, a: string, rest: seq<string>)
    ensures Next(spec, [a] + rest) == Ok((Pos(a), 1)) <==> Ordinary(a)
    ensures Next(spec, [a] + rest).Ok? ==> (Next(spec, [a] + rest).value.0.Pos? <==> Ordinary(a))
  {
  }

  /** `-c` and `--name`, with `rest` behind it: an unknown name is an error, a flag stands alone, any other
      option takes the next token, whatever that is. */
  lemma SpelledReads(spec: Spec, s: Spelling, rest: seq<string>)
    requires s.Valid()
    ensures var r, k := Next(spec, [s.Text()] + rest), Resolve(spec.named, s.Name());
            if k.None? then r == Err(UnexpectedOption(s.Text()))
            else if spec.named[k.value].NamedFlag? then r == Ok((Opt(k.value, ""), 1))
            else if rest == [] then r == Err(MissingValue(s.Name()))
            else r == Ok((Opt(k.value, rest[0]), 2))
  {
    SpelledToken(s);
  }

  /** `--name=v`: a flag ignores `v`, any other option takes it unless it is empty. */
  lemma AttachedReads(spec: Spec, name: string, v: string, rest: seq<string>)
    requires '=' !in name
    ensures var r, k := Next(spec, ["--" + name + "=" + v] + rest), Resolve(spec.named, name);
            if k.None? then r == Err(UnexpectedOption("--" + name))
            else if spec.named[k.value].NamedFlag? then r == Ok((Opt(k.value, ""), 1))
            else if v != "" then r == Ok((Opt(k.value, v), 1))
            else if rest == [] then r == Err(MissingValue(name))
            else r == Ok((Opt(k.value, rest[0]), 2))
  {
    AttachedToken(name, v);
  }

  /** `-=`: the option with the empty name, without a value. */
  lemma DashEqualsReads(spec: Spec, rest: seq<string>)
    ensures var r, k := Next(spec, ["-="] + rest), Resolve(spec.named, "");
            if k.None? then r == Err(UnexpectedOption("-"))
            else if spec.named[k.value].NamedFlag? then r == Ok((Opt(k.value, ""), 1))
            else if rest == [] then r == Err(MissingValue(""))
            else r == Ok((Opt(k.value, rest[0]), 2))
  {
    FindAt("-=", '=', 1);
    assert Head("-=") == "-" && Attached("-=") == "" && NameOf("-") == "";
  }

  /** There are no other tokens. */
  lemma EveryToken(a: string) returns (s: Spelling, v: string)
    ensures || Ordinary(a) || a == "-="
            || (s.Valid() && a == s.Text())
            || (s.Valid() && s.Long? && a == "--" + s.name + "=" + v)
  {
    s, v := Short('-'), "";
    if !Ordinary(a) && a != "-=" {
      if a[1] != '-' {
        s := Short(a[1]);
      } else {
        var pos := Find(a, '=');
        s := Long(a[2..pos]);
        if pos < |a| {
          v := a[pos + 1..];
          assert a == a[..pos] + "=" + v && a[..pos] == "--" + s.name;
        }
      }
    }
  }
}
