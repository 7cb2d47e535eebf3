/** The command-line parser of src/terminal.cpp and src/terminal.hpp: the
    arguments after the program name are read left to right; an argument
    that is one of an option's flags records a value under the option's
    name (the next argument for an option that takes one, the flag itself
    otherwise), and any other argument is positional. */
module Terminal {
  import W = Wrappers

  /** `terminal::option`: its name, the flags that select it, a description
      for the help text, and whether it takes an argument. */
  datatype Option = Option(name: string, flags: seq<string>, description: string, variadic: bool)

  /** `terminal::parser`: the positional arguments in order, and the values
      recorded under each option name in order. */
  datatype Parser = Parser(positional: seq<string>, parsed: map<string, seq<string>>)

  /** The flags of one option, each selecting it. */
  function FlagsOf(o: Option): map<string, Option>
  {
    map f | f in o.flags :: o
  }

  /** The flag table `parse` builds: every option's flags in turn, a later
      option taking over a flag an earlier one also has. */
  function FlagMap(options: seq<Option>): map<string, Option>
  {
    if options == [] then map[] else FlagMap(options[..|options| - 1]) + FlagsOf(options[|options| - 1])
  }

  /** Only flags some option lists select anything, and every listed flag does. */
  lemma {:induction false} FlagMapHas(options: seq<Option>, f: string)
    ensures f in FlagMap(options) <==> exists i :: 0 <= i < |options| && f in options[i].flags
  {
    if options != [] {
      var n := |options|;
      FlagMapHas(options[..n - 1], f);
      if exists i :: 0 <= i < n && f in options[i].flags {
        var i :| 0 <= i < n && f in options[i].flags;
        if i < n - 1 { assert f in options[..n - 1][i].flags; }
      }
    }
  }

  /** A flag selects the last option, in the given order, that lists it. */
  lemma {:induction false} FlagMapLast(options: seq<Option>, f: string, i: nat)
    requires i < |options| && f in options[i].flags
    requires forall j :: i < j < |options| ==> f !in options[j].flags
    ensures f in FlagMap(options) && FlagMap(options)[f] == options[i]
  {
    var n := |options|;
    if i < n - 1 {
      var init := options[..n - 1];
      FlagMapLast(init, f, i);
    }
  }

  /** The option-map loop of `parse`. */
  method BuildFlagMap(options: seq<Option>) returns (m: map<string, Option>)
    ensures m == FlagMap(options)
  {
    m := map[];
    var i := 0;
    while i < |options|
      invariant 0 <= i <= |options|
      invariant m == FlagMap(options[..i])
    {
      var current := options[i];
      ghost var base := m;
      var k := 0;
      while k < |current.flags|
        invariant 0 <= k <= |current.flags|
        invariant m == base + FlagsUpTo(current, k)
      {
        FlagsUpToStep(base, current, k);
        m := m[current.flags[k] := current];
        k := k + 1;
      }
      FlagMapStep(options, i);
      i := i + 1;
    }
    assert options[..i] == options;
  }

  /** The first `k` flags of an option, each selecting it. */
  function FlagsUpTo(o: Option, k: nat): map<string, Option>
    requires k <= |o.flags|
  {
    map f | f in o.flags[..k] :: o
  }

  /** Setting one more flag extends the table by that flag. */
  lemma FlagsUpToStep(base: map<string, Option>, o: Option, k: nat)
    requires k < |o.flags|
    ensures base + FlagsUpTo(o, k + 1) == (base + FlagsUpTo(o, k))[o.flags[k] := o]
  {
    assert o.flags[..k + 1] == o.flags[..k] + [o.flags[k]];
  }

  /** Setting all of an option's flags adds the option's whole flag map. */
  lemma FlagMapStep(options: seq<Option>, i: nat)
    requires i < |options|
    ensures FlagMap(options[..i]) + FlagsUpTo(options[i], |options[i].flags|) == FlagMap(options[..i + 1])
  {
    assert options[i].flags[..|options[i].flags|] == options[i].flags;
    assert options[..i + 1][..i] == options[..i];
  }

  /** How one step of the argument loop read the command line: a positional
      argument, or a flag with the value it records (`consumed` when the
      value is the argument after the flag). */
  datatype Token =
    | Positional(text: string)
    | Value(name: string, flag: string, value: string, consumed: bool)

  /** The arguments each token took from the command line. */
  function Texts(tokens: seq<Token>): seq<string>
  {
    if tokens == [] then []
    else
      var t := tokens[0];
      (match t
       case Positional(text) => [text]
       case Value(_, flag, value, consumed) => if consumed then [flag, value] else [flag]) + Texts(tokens[1..])
  }

  /** The arguments read left to right; an option that takes a value and is
      the last argument is an error. */
  function Tokens(m: map<string, Option>, args: seq<string>): W.Result<seq<Token>>
    decreases |args|
  {
    if args == [] then W.Success([])
    else if args[0] !in m then Prepend([Positional(args[0])], Tokens(m, args[1..]))
    else
      var target := m[args[0]];
      if !target.variadic then Prepend([Value(target.name, args[0], args[0], false)], Tokens(m, args[1..]))
      else if |args| < 2 then W.Failure("missing argument value for option")
      else Prepend([Value(target.name, args[0], args[1], true)], Tokens(m, args[2..]))
  }

  /** Tokens read before the rest of the arguments. */
  function Prepend(done: seq<Token>, rest: W.Result<seq<Token>>): (r: W.Result<seq<Token>>)
    ensures r.Failure? <==> rest.Failure?
  {
    if rest.Failure? then rest else W.Success(done + rest.value)
  }

  /** Each argument after the program name is taken by exactly one token,
      in order. */
  lemma {:induction false} TokensCover(m: map<string, Option>, args: seq<string>)
    requires Tokens(m, args).Success?
    ensures Texts(Tokens(m, args).value) == args
    decreases |args|
  {
    if args != [] {
      var ts := Tokens(m, args).value;
      if args[0] !in m || !m[args[0]].variadic {
        TokensCover(m, args[1..]);
        assert ts[1..] == Tokens(m, args[1..]).value;
      } else {
        TokensCover(m, args[2..]);
        assert ts[1..] == Tokens(m, args[2..]).value;
      }
    }
  }

  /** The only error is a flag of an option that takes a value standing as the
      last argument. */
  lemma {:induction false} TokensFailure(m: map<string, Option>, args: seq<string>)
    requires Tokens(m, args).Failure?
    ensures |args| >= 1 && args[|args| - 1] in m && m[args[|args| - 1]].variadic
    decreases |args|
  {
    if args[0] !in m || !m[args[0]].variadic {
      TokensFailure(m, args[1..]);
    } else if |args| >= 2 {
      TokensFailure(m, args[2..]);
    }
  }

  /** The positional arguments among the tokens, in order. */
  function Positionals(tokens: seq<Token>): seq<string>
  {
    if tokens == [] then []
    else
      var t := tokens[|tokens| - 1];
      Positionals(tokens[..|tokens| - 1]) + (if t.Positional? then [t.text] else [])
  }

  /** The values recorded under each option name, in order. */
  function Values(tokens: seq<Token>): map<string, seq<string>>
  {
    if tokens == [] then map[]
    else
      var t := tokens[|tokens| - 1];
      var m := Values(tokens[..|tokens| - 1]);
      if t.Positional? then m else m[t.name := Bag(m, t.name) + [t.value]]
  }

  /** `m_parsed[name]`: the values of a name, empty when it has none yet. */
  function Bag(parsed: map<string, seq<string>>, name: string): seq<string>
  {
    if name in parsed then parsed[name] else []
  }

  /** The values of a name are the values of its tokens, in order: repeated
      options accumulate. */
  lemma {:induction false} ValuesOf(tokens: seq<Token>, name: string)
    ensures Bag(Values(tokens), name) == NamedValues(tokens, name)
  {
    if tokens != [] {
      ValuesOf(tokens[..|tokens| - 1], name);
    }
  }

  /** The values of the tokens recorded under `name`, in order. */
  function NamedValues(tokens: seq<Token>, name: string): seq<string>
  {
    if tokens == [] then []
    else
      var t := tokens[|tokens| - 1];
      NamedValues(tokens[..|tokens| - 1], name) + (if t.Value? && t.name == name then [t.value] else [])
  }

  /** The parser the tokens build. */
  function Collect(r: W.Result<seq<Token>>): W.Result<Parser>
  {
    if r.Failure? then W.Failure(r.error) else W.Success(Parser(Positionals(r.value), Values(r.value)))
  }

  /** The arguments from position `i` on. */
  function Rest(argv: seq<string>, i: nat): seq<string>
  {
    if i < |argv| then argv[i..] else []
  }

  /** `terminal::parse(options, argc, argv)`: builds the flag table of the
      options, then reads `argv[1..]` left to right with it. */
  method Parse(options: seq<Option>, argv: seq<string>) returns (r: W.Result<Parser>)
    ensures r == Collect(Tokens(FlagMap(options), Rest(argv, 1)))
  {
    var m := BuildFlagMap(options);
    r := Scan(m, argv);
  }

  /** The argument loop of `parse`, with the flag table `m`. */
  method Scan(m: map<string, Option>, argv: seq<string>) returns (r: W.Result<Parser>)
    ensures r == Collect(Tokens(m, Rest(argv, 1)))
  {
    var positional: seq<string> := [];
    var parsed: map<string, seq<string>> := map[];
    ghost var done: seq<Token> := [];
    var i := 1;
    PrependNothing(Tokens(m, Rest(argv, 1)));
    while i < |argv|
      invariant i >= 1
      invariant Tokens(m, Rest(argv, 1)) == Prepend(done, Tokens(m, Rest(argv, i)))
      invariant positional == Positionals(done) && parsed == Values(done)
      decreases |argv| - i
    {
      var arg := argv[i];
      if arg !in m {
        PositionalStep(m, argv, i, done);
        positional := positional + [arg];
        done := done + [Positional(arg)];
        i := i + 1;
      } else {
        var target := m[arg];
        if target.variadic && i + 1 >= |argv| {
          MissingValue(m, argv, i, done);
          return W.Failure("missing argument value for option");
        }
        var j := if target.variadic then i + 1 else i;
        ValueStep(m, argv, i, j, done);
        parsed := parsed[target.name := Bag(parsed, target.name) + [argv[j]]];
        done := done + [Value(target.name, arg, argv[j], target.variadic)];
        i := j + 1;
      }
    }
    assert Tokens(m, Rest(argv, i)) == W.Success([]);
    assert done + [] == done;
    r := W.Success(Parser(positional, parsed));
  }

  /** A positional argument at `i` is one more positional and no value. */
  lemma PositionalStep(m: map<string, Option>, argv: seq<string>, i: nat, done: seq<Token>)
    requires 1 <= i < |argv| && argv[i] !in m
    requires Tokens(m, Rest(argv, 1)) == Prepend(done, Tokens(m, Rest(argv, i)))
    ensures Tokens(m, Rest(argv, 1)) == Prepend(done + [Positional(argv[i])], Tokens(m, Rest(argv, i + 1)))
    ensures Positionals(done + [Positional(argv[i])]) == Positionals(done) + [argv[i]]
    ensures Values(done + [Positional(argv[i])]) == Values(done)
  {
    TokensAt(m, argv, i);
    Advance(done, Positional(argv[i]), Tokens(m, Rest(argv, i + 1)));
  }

  /** A flag at `i` with its value at `j` (the flag itself, or the argument
      after it for an option that takes a value) appends the value to the
      option's name. */
  lemma ValueStep(m: map<string, Option>, argv: seq<string>, i: nat, j: nat, done: seq<Token>)
    requires 1 <= i <= j < |argv| && argv[i] in m
    requires j == if m[argv[i]].variadic then i + 1 else i
    requires Tokens(m, Rest(argv, 1)) == Prepend(done, Tokens(m, Rest(argv, i)))
    ensures var t := Value(m[argv[i]].name, argv[i], argv[j], m[argv[i]].variadic);
            Tokens(m, Rest(argv, 1)) == Prepend(done + [t], Tokens(m, Rest(argv, j + 1))) &&
            Positionals(done + [t]) == Positionals(done) &&
            Values(done + [t]) == Values(done)[t.name := Bag(Values(done), t.name) + [argv[j]]]
  {
    TokensAt(m, argv, i);
    var t := Value(m[argv[i]].name, argv[i], argv[j], m[argv[i]].variadic);
    Advance(done, t, Tokens(m, Rest(argv, j + 1)));
  }

  /** A flag that takes a value, standing last, makes the parse fail. */
  lemma MissingValue(m: map<string, Option>, argv: seq<string>, i: nat, done: seq<Token>)
    requires 1 <= i && i + 1 == |argv| && argv[i] in m && m[argv[i]].variadic
    requires Tokens(m, Rest(argv, 1)) == Prepend(done, Tokens(m, Rest(argv, i)))
    ensures Collect(Tokens(m, Rest(argv, 1))) == W.Failure("missing argument value for option")
  {
    TokensAt(m, argv, i);
  }

  /** How the scan goes on at argument `i`: a token for it (and its value),
      or the error when a flag that takes a value is the last argument. */
  lemma TokensAt(m: map<string, Option>, argv: seq<string>, i: nat)
    requires 1 <= i < |argv|
    ensures argv[i] !in m ==>
              Tokens(m, Rest(argv, i)) == Prepend([Positional(argv[i])], Tokens(m, Rest(argv, i + 1)))
    ensures argv[i] in m && !m[argv[i]].variadic ==>
              Tokens(m, Rest(argv, i)) ==
              Prepend([Value(m[argv[i]].name, argv[i], argv[i], false)], Tokens(m, Rest(argv, i + 1)))
    ensures argv[i] in m && m[argv[i]].variadic && i + 1 < |argv| ==>
              Tokens(m, Rest(argv, i)) ==
              Prepend([Value(m[argv[i]].name, argv[i], argv[i + 1], true)], Tokens(m, Rest(argv, i + 2)))
    ensures argv[i] in m && m[argv[i]].variadic && i + 1 == |argv| ==>
              Tokens(m, Rest(argv, i)) == W.Failure("missing argument value for option")
  {
    assert Rest(argv, i)[1..] == Rest(argv, i + 1);
    if i + 1 < |argv| {
      assert Rest(argv, i)[2..] == Rest(argv, i + 2);
    }
  }

  /** Moving one token from the rest of the scan to the tokens read extends
      the positionals or the values by that token. */
  lemma Advance(done: seq<Token>, t: Token, rest: W.Result<seq<Token>>)
    ensures Prepend(done, Prepend([t], rest)) == Prepend(done + [t], rest)
    ensures Positionals(done + [t]) == Positionals(done) + (if t.Positional? then [t.text] else [])
    ensures t.Positional? ==> Values(done + [t]) == Values(done)
    ensures t.Value? ==> Values(done + [t]) == Values(done)[t.name := Bag(Values(done), t.name) + [t.value]]
  {
    PrependStep(done, [t], rest);
    assert (done + [t])[..|done|] == done;
  }

  /** Prepending no tokens changes nothing. */
  lemma PrependNothing(rest: W.Result<seq<Token>>)
    ensures Prepend([], rest) == rest
  {
    if rest.Success? {
      assert [] + rest.value == rest.value;
    }
  }

  /** Prepending in two steps is prepending the concatenation. */
  lemma PrependStep(done: seq<Token>, more: seq<Token>, rest: W.Result<seq<Token>>)
    ensures Prepend(done, Prepend(more, rest)) == Prepend(done + more, rest)
  {
    if rest.Success? {
      assert done + (more + rest.value) == (done + more) + rest.value;
    }
  }

  /** `has(name)`: the name has at least one value. */
  function Has(p: Parser, name: string): (r: bool)
    ensures r <==> name in p.parsed && p.parsed[name] != []
  {
    name in p.parsed && |p.parsed[name]| > 0
  }

  /** `all(name)`: the values of a name, empty when it has none. */
  function All(p: Parser, name: string): (r: seq<string>)
    ensures r == Bag(p.parsed, name)
    ensures r == [] <==> !Has(p, name)
  {
    if Has(p, name) then p.parsed[name] else []
  }

  /** `get<T>(name, fallback)`: the first value of a name converted to `T`;
      the fallback when the name has no value or the conversion fails.
      `convert` stands for `utils::convert<T>`, `None` for a failed conversion. */
  function Get<T>(p: Parser, name: string, fallback: T, convert: string -> W.Option<T>): (r: T)
    ensures Has(p, name) && convert(p.parsed[name][0]).Some? ==> r == convert(p.parsed[name][0]).value
    ensures !Has(p, name) || convert(p.parsed[name][0]).None? ==> r == fallback
  {
    if name in p.parsed && |p.parsed[name]| > 0 && convert(p.parsed[name][0]).Some? then convert(p.parsed[name][0]).value
    else fallback
  }

  /** `get<T>(offset, fallback)`: the positional argument at `offset`
      converted to `T`; the fallback when there is none or the conversion fails. */
  function GetAt<T>(p: Parser, offset: nat, fallback: T, convert: string -> W.Option<T>): (r: T)
    ensures offset < |p.positional| && convert(p.positional[offset]).Some? ==> r == convert(p.positional[offset]).value
    ensures offset >= |p.positional| || convert(p.positional[offset]).None? ==> r == fallback
  {
    if offset < |p.positional| && convert(p.positional[offset]).Some? then convert(p.positional[offset]).value
    else fallback
  }

  /** After a successful parse, a name has values exactly when one of its
      flags was given, and `all(name)` lists the recorded values in the
      order they were given. */
  lemma ParsedValues(options: seq<Option>, argv: seq<string>, name: string)
    requires Collect(Tokens(FlagMap(options), Rest(argv, 1))).Success?
    ensures var tokens := Tokens(FlagMap(options), Rest(argv, 1)).value;
            var p := Collect(Tokens(FlagMap(options), Rest(argv, 1))).value;
            All(p, name) == NamedValues(tokens, name) && Texts(tokens) == Rest(argv, 1)
  {
    var tokens := Tokens(FlagMap(options), Rest(argv, 1)).value;
    ValuesOf(tokens, name);
    TokensCover(FlagMap(options), Rest(argv, 1));
  }
}
