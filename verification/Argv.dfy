/**
 * The command-line parser: options with a fixed number of values, the "--key=value" form for
 * one-value options, and "--" before operands. Strings are C strings; null pointers are outside it.
 */
module Argv {
  import opened Common

  const MAX_OPTIONS: nat := 32
  const MAX_OPTION_ARGS: nat := 10
  const MAX_POSITIONALS: nat := 8
  const KEY_BUFFER: nat := 256

  datatype Spec = Spec(name: string, id: int, numArgs: int, required: bool, allowRepeat: bool, lastWins: bool)

  datatype Code =
    | NoError
    | InvalidInput
    | UnknownOption
    | NotEnoughOptionArgs
    | TooManyOptions
    | TooManyPositionals
    | TooManyOptionArgs
    | EqualsFormNotAllowed
    | DuplicateOption
    | RequiredOptionMissing

  datatype Error = Error(code: Code, argIndex: int, argValue: Option<string>, optionId: int, optionName: Option<string>)

  const CLEAR := Error(NoError, -1, None, 0, None)

  /** An option as found: its spelling, then its values. */
  datatype Opt = Opt(spec: Spec, args: seq<string>)

  /** The result structure; where each item came from is kept beside it. */
  datatype Parsed = Parsed(
    options: seq<Opt>,
    sources: seq<int>,
    positionals: seq<string>,
    positionalIndices: seq<int>,
    error: Error)

  const EMPTY := Parsed([], [], [], [], CLEAR)

  datatype Outcome = Outcome(ok: bool, parsed: Parsed)

  function Failed(p: Parsed, code: Code, at: int, arg: Option<string>, spec: Option<Spec>): (r: Outcome) {
    Outcome(false, p.(error := Error(code, at, arg, if spec.Some? then spec.value.id else 0,
                                     if spec.Some? then Some(spec.value.name) else None)))
  }

  /** The same apart from source indices. */
  predicate Same(p: Parsed, q: Parsed) {
    p.options == q.options && p.positionals == q.positionals && p.error.code == q.error.code
  }

  // ---- lookups ----

  /** The first entry with this name. */
  function FindSpec(table: seq<Spec>, name: string): (r: Option<Spec>) {
    if table == [] then None else if table[0].name == name then Some(table[0]) else FindSpec(table[1..], name)
  }

  lemma {:induction false} FoundSpec(table: seq<Spec>, name: string)
    ensures var r := FindSpec(table, name);
            if r.Some? then r.value in table && r.value.name == name else forall s :: s in table ==> s.name != name
  {
    if table != [] {
      FoundSpec(table[1..], name);
    }
  }

  method FindSpecExact(name: string, table: seq<Spec>) returns (r: Option<Spec>)
    ensures r == FindSpec(table, name)
    ensures r.None? <==> forall i :: 0 <= i < |table| ==> table[i].name != name
    ensures r.Some? ==> exists i :: 0 <= i < |table| && r == Some(table[i]) && table[i].name == name
                                    && forall j :: 0 <= j < i ==> table[j].name != name
  {
    var i := 0;
    assert table[0..] == table;
    while i < |table|
      invariant i <= |table| && FindSpec(table[i..], name) == FindSpec(table, name)
      invariant forall j :: 0 <= j < i ==> table[j].name != name
    {
      if table[i].name == name {
        return Some(table[i]);
      }
      assert table[i..][1..] == table[i + 1..];
      i := i + 1;
    }
    return None;
  }

  /** The first option with this id, or the number of options. */
  function IndexById(options: seq<Opt>, id: int): (i: nat)
    ensures i <= |options|
  {
    if options == [] || options[0].spec.id == id then 0 else 1 + IndexById(options[1..], id)
  }

  lemma {:induction false} FoundIndex(options: seq<Opt>, id: int)
    ensures var i := IndexById(options, id);
            && (i < |options| ==> options[i].spec.id == id)
            && (forall j :: 0 <= j < i ==> options[j].spec.id != id)
  {
    if options != [] && options[0].spec.id != id {
      FoundIndex(options[1..], id);
      assert forall j :: 1 <= j < |options| ==> options[j] == options[1..][j - 1];
    }
  }

  method FindOptionIndexById(options: seq<Opt>, id: int) returns (i: nat)
    ensures i == IndexById(options, id)
  {
    i := 0;
    assert options[0..] == options;
    while i < |options|
      invariant i <= |options| && i + IndexById(options[i..], id) == IndexById(options, id)
    {
      if options[i].spec.id == id {
        return;
      }
      assert options[i..][1..] == options[i + 1..];
      i := i + 1;
    }
  }

  /** Where the first '=' is, or the length. */
  function EqualsAt(arg: string): (i: nat)
    ensures i <= |arg|
  {
    if arg == "" || arg[0] == '=' then 0 else 1 + EqualsAt(arg[1..])
  }

  // ---- storing ----

  function StoreOption(p: Parsed, s: Spec, spelling: string, at: int, values: seq<string>): (r: Outcome) {
    var existing := IndexById(p.options, s.id);
    if 1 + |values| > MAX_OPTION_ARGS then Failed(p, TooManyOptionArgs, at, Some(spelling), Some(s))
    else if existing < |p.options| && !s.allowRepeat then
      if s.lastWins then
        Outcome(true, p.(options := p.options[existing := Opt(s, [spelling] + values)],
                         sources := if existing < |p.sources| then p.sources[existing := at] else p.sources))
      else Failed(p, DuplicateOption, at, Some(spelling), Some(s))
    else if |p.options| >= MAX_OPTIONS then Failed(p, TooManyOptions, at, Some(spelling), Some(s))
    else Outcome(true, p.(options := p.options + [Opt(s, [spelling] + values)], sources := p.sources + [at]))
  }

  function AppendPositional(p: Parsed, value: string, at: int): (r: Outcome) {
    if |p.positionals| >= MAX_POSITIONALS then Failed(p, TooManyPositionals, at, Some(value), None)
    else Outcome(true, p.(positionals := p.positionals + [value], positionalIndices := p.positionalIndices + [at]))
  }

  /** The "--key=value" form; none when the argument is to be tried as it stands. */
  function LongWithEquals(strict: bool, table: seq<Spec>, arg: string, at: int, p: Parsed): (r: Option<Outcome>) {
    var e := EqualsAt(arg);
    if e == |arg| then None
    else
      var s := if e == 0 || e >= KEY_BUFFER then None else FindSpec(table, arg[..e]);
      if s.None? then if strict then Some(Failed(p, UnknownOption, at, Some(arg), None)) else None
      else if s.value.numArgs != 1 then Some(Failed(p, EqualsFormNotAllowed, at, Some(arg), s))
      else Some(StoreOption(p, s.value, s.value.name, at, [arg[e + 1..]]))
  }

  method ParseLongWithEquals(strict: bool, table: seq<Spec>, arg: string, at: int, p: Parsed)
    returns (r: Option<Outcome>)
    ensures r == LongWithEquals(strict, table, arg, at, p)
  {
    var e := EqualsAt(arg);
    if e == |arg| {
      return None;
    }
    var s: Option<Spec> := None;
    if !(e == 0 || e >= KEY_BUFFER) {
      s := FindSpecExact(arg[..e], table);
    }
    if s.None? {
      return if strict then Some(Failed(p, UnknownOption, at, Some(arg), None)) else None;
    }
    if s.value.numArgs != 1 {
      return Some(Failed(p, EqualsFormNotAllowed, at, Some(arg), s));
    }
    return Some(StoreOption(p, s.value, s.value.name, at, [arg[e + 1..]]));
  }

  // ---- the loop ----

  predicate DashDash(arg: string) {
    |arg| >= 2 && arg[0] == '-' && arg[1] == '-'
  }

  /** One turn of the loop: an error, or how many arguments were used and the new state. */
  datatype Step = Stop(parsed: Parsed) | Go(used: nat, positionalOnly: bool, parsed: Parsed)

  function Of(o: Outcome, used: nat, only: bool): (r: Step) {
    if o.ok then Go(used, only, o.parsed) else Stop(o.parsed)
  }

  function OneStep(strict: bool, table: seq<Spec>, rest: seq<string>, at: int, only: bool, p: Parsed): (r: Step)
    requires rest != []
    ensures r.Go? ==> 0 < r.used <= |rest|
  {
    var arg := rest[0];
    if !only && arg == "--" then Go(1, true, p)
    else
      var long := if !only && DashDash(arg) then LongWithEquals(strict, table, arg, at, p) else None;
      if long.Some? then Of(long.value, 1, only)
      else if !only && arg != "" && arg[0] == '-' then
        var s := FindSpec(table, arg);
        if s.None? then
          if strict then Stop(Failed(p, UnknownOption, at, Some(arg), None).parsed)
          else Of(AppendPositional(p, arg, at), 1, only)
        else if s.value.numArgs < 0 then Stop(Failed(p, InvalidInput, at, Some(arg), s).parsed)
        else if s.value.numArgs > |rest| - 1 then Stop(Failed(p, NotEnoughOptionArgs, at, Some(arg), s).parsed)
        else
          var n := s.value.numArgs;
          Of(StoreOption(p, s.value, arg, at, rest[1..1 + n]), 1 + n, only)
      else Of(AppendPositional(p, arg, at), 1, only)
  }

  datatype End = End(ok: bool, positionalOnly: bool, parsed: Parsed)

  /** The loop from a given state on. */
  function Run(strict: bool, table: seq<Spec>, rest: seq<string>, at: int, only: bool, p: Parsed): (r: End)
    decreases |rest|
  {
    if rest == [] then End(true, only, p)
    else
      var s := OneStep(strict, table, rest, at, only, p);
      if s.Stop? then End(false, only, s.parsed)
      else Run(strict, table, rest[s.used..], at + s.used, s.positionalOnly, s.parsed)
  }

  /** The first required option that is missing. */
  function Missing(table: seq<Spec>, options: seq<Opt>): (r: Option<Spec>)
    ensures r.None? <==> forall s :: s in table && s.required ==> IndexById(options, s.id) < |options|
  {
    if table == [] then None
    else if table[0].required && IndexById(options, table[0].id) == |options| then Some(table[0])
    else Missing(table[1..], options)
  }

  method EnforceRequired(table: seq<Spec>, p: Parsed) returns (o: Outcome)
    ensures o == Checked(table, p)
  {
    var i := 0;
    assert table[0..] == table;
    while i < |table|
      invariant i <= |table| && Missing(table[i..], p.options) == Missing(table, p.options)
    {
      if table[i].required {
        var found := FindOptionIndexById(p.options, table[i].id);
        if found == |p.options| {
          return Failed(p, RequiredOptionMissing, -1, Some(table[i].name), Some(table[i]));
        }
      }
      assert table[i..][1..] == table[i + 1..];
      i := i + 1;
    }
    return Outcome(true, p);
  }

  function Checked(table: seq<Spec>, p: Parsed): (r: Outcome) {
    var m := Missing(table, p.options);
    if m.Some? then Failed(p, RequiredOptionMissing, -1, Some(m.value.name), m) else Outcome(true, p)
  }

  /** What parsing the arguments after the program name gives. */
  function ParseAll(strict: bool, table: seq<Spec>, args: seq<string>): (r: Outcome) {
    var e := Run(strict, table, args, 1, false, EMPTY);
    if e.ok then Checked(table, e.parsed) else Outcome(false, e.parsed)
  }

  /** The body of the loop. */
  method Turn(strict: bool, table: seq<Spec>, argv: seq<string>, i: nat, only: bool, p: Parsed) returns (s: Step)
    requires i < |argv|
    ensures s == OneStep(strict, table, argv[i..], i, only, p)
  {
    var arg := argv[i];
    if !only && arg == "--" {
      return Go(1, true, p);
    }
    if !only && DashDash(arg) {
      var r := ParseLongWithEquals(strict, table, arg, i, p);
      if r.Some? {
        return Of(r.value, 1, only);
      }
    }
    if !only && arg != "" && arg[0] == '-' {
      var opt := FindSpecExact(arg, table);
      if opt.Some? {
        var n := opt.value.numArgs;
        if n < 0 {
          return Stop(Failed(p, InvalidInput, i, Some(arg), opt).parsed);
        }
        if n > |argv| - i - 1 {
          return Stop(Failed(p, NotEnoughOptionArgs, i, Some(arg), opt).parsed);
        }
        assert argv[i..][1..1 + n] == argv[i + 1..i + 1 + n];
        return Of(StoreOption(p, opt.value, arg, i, argv[i + 1..i + 1 + n]), 1 + n, only);
      }
      if strict {
        return Stop(Failed(p, UnknownOption, i, Some(arg), None).parsed);
      }
    }
    return Of(AppendPositional(p, arg, i), 1, only);
  }

  /** The parser; `argv` includes the program name. */
  method Parse(strict: bool, table: seq<Spec>, argv: seq<string>) returns (o: Outcome)
    ensures o == ParseAll(strict, table, if argv == [] then [] else argv[1..])
  {
    hide OneStep;
    var i, only, p := 1, false, EMPTY;
    ghost var args := if argv == [] then [] else argv[1..];
    while i < |argv|
      invariant 1 <= i && (argv != [] ==> i <= |argv|)
      invariant Run(strict, table, args, 1, false, EMPTY) ==
                  Run(strict, table, if argv == [] then [] else argv[i..], i, only, p)
    {
      var s := Turn(strict, table, argv, i, only, p);
      if s.Stop? {
        return Outcome(false, s.parsed);
      }
      assert argv[i..][s.used..] == argv[i + s.used..];
      i, only, p := i + s.used, s.positionalOnly, s.parsed;
    }
    o := EnforceRequired(table, p);
  }

  // ---- tables ----

  /** Ids differ, and names start with a dash and hold no '='. */
  ghost predicate Regular(table: seq<Spec>) {
    && (forall i, j :: 0 <= i < j < |table| ==> table[i].id != table[j].id)
    && (forall s :: s in table ==> s.name != "" && s.name[0] == '-' && '=' !in s.name)
  }

  lemma SameIdSameSpec(table: seq<Spec>, s: Spec, t: Spec)
    requires Regular(table) && s in table && t in table && s.id == t.id
    ensures s == t
  {
  }

  /** How many values one turn copies into the parser's fixed buffer before their number is checked. */
  function Copied(strict: bool, table: seq<Spec>, rest: seq<string>, at: int, only: bool, p: Parsed): (n: nat)
    requires rest != []
  {
    var arg := rest[0];
    var tried := !only && arg != "--" && (DashDash(arg) ==> LongWithEquals(strict, table, arg, at, p).None?);
    var s := FindSpec(table, arg);
    if tried && arg != "" && arg[0] == '-' && s.Some? && 0 <= s.value.numArgs <= |rest| - 1 then s.value.numArgs else 0
  }

  /** Entries found under their own name take no more values than that buffer holds; "--" is never looked up there. */
  ghost predicate ValuesFit(table: seq<Spec>) {
    forall s :: s in table && FindSpec(table, s.name) == Some(s) && s.name != "--" ==> s.numArgs <= MAX_OPTION_ARGS
  }

  /** No turn overruns the buffer if the entries fit; if one does not, its name and enough values overrun it. */
  lemma BufferHoldsExactly(table: seq<Spec>, strict: bool)
    requires Regular(table)
    ensures ValuesFit(table) <==>
            forall rest: seq<string>, at: int, only: bool, p: Parsed ::
              rest != [] ==> Copied(strict, table, rest, at, only, p) <= MAX_OPTION_ARGS
  {
    if ValuesFit(table) {
      forall rest: seq<string>, at: int, only: bool, p: Parsed | rest != []
        ensures Copied(strict, table, rest, at, only, p) <= MAX_OPTION_ARGS
      {
        FoundSpec(table, rest[0]);
      }
    } else {
      var s :| s in table && FindSpec(table, s.name) == Some(s) && s.name != "--" && s.numArgs > MAX_OPTION_ARGS;
      EqualsSplit(s.name, "");
      assert s.name + "" == s.name;
      var rest := [s.name] + seq(s.numArgs, i => "");
      assert Copied(strict, table, rest, 1, false, EMPTY) == s.numArgs;
    }
  }

  // ---- the equals form ----

  /** More arguments behind do not change a turn, except that they can supply missing values. */
  lemma StepLocal(strict: bool, table: seq<Spec>, rest: seq<string>, more: seq<string>, at: int, only: bool, p: Parsed)
    requires rest != []
    ensures var s := OneStep(strict, table, rest, at, only, p);
            s.Go? || s.parsed.error.code != NotEnoughOptionArgs ==>
              OneStep(strict, table, rest + more, at, only, p) == s
  {
    var s := FindSpec(table, rest[0]);
    if s.Some? && 0 <= s.value.numArgs <= |rest| - 1 {
      assert (rest + more)[1..1 + s.value.numArgs] == rest[1..1 + s.value.numArgs];
    }
  }

  /** A run over a prefix that uses it up continues behind it; one that fails otherwise fails the same way. */
  lemma {:induction false} RunConcat(strict: bool, table: seq<Spec>, rest: seq<string>, more: seq<string>, at: int,
                                     only: bool, p: Parsed)
    ensures var e := Run(strict, table, rest, at, only, p);
            && (e.ok ==> Run(strict, table, rest + more, at, only, p)
                         == Run(strict, table, more, at + |rest|, e.positionalOnly, e.parsed))
            && (!e.ok && e.parsed.error.code != NotEnoughOptionArgs ==>
              Run(strict, table, rest + more, at, only, p) == e)
    decreases |rest|
  {
    hide OneStep;
    if rest == [] {
      assert rest + more == more;
    } else {
      StepLocal(strict, table, rest, more, at, only, p);
      var s := OneStep(strict, table, rest, at, only, p);
      if s.Go? {
        assert (rest + more)[s.used..] == rest[s.used..] + more;
        RunConcat(strict, table, rest[s.used..], more, at + s.used, s.positionalOnly, s.parsed);
      }
    }
  }

  lemma StoreIgnoresIndices(p: Parsed, q: Parsed, s: Spec, spelling: string, at: int, at': int, values: seq<string>)
    requires Same(p, q)
    ensures var a, b := StoreOption(p, s, spelling, at, values), StoreOption(q, s, spelling, at', values);
            a.ok == b.ok && Same(a.parsed, b.parsed)
  {
  }

  lemma LongIgnoresIndices(strict: bool, table: seq<Spec>, arg: string, at: int, at': int, p: Parsed, q: Parsed)
    requires Same(p, q)
    ensures var a, b := LongWithEquals(strict, table, arg, at, p), LongWithEquals(strict, table, arg, at', q);
            a.Some? == b.Some? && (a.Some? ==> a.value.ok == b.value.ok && Same(a.value.parsed, b.value.parsed))
  {
    hide StoreOption, FindSpec, EqualsAt;
    var e := EqualsAt(arg);
    if e < |arg| && FindSpec(table, arg[..e]).Some? {
      var s := FindSpec(table, arg[..e]).value;
      StoreIgnoresIndices(p, q, s, s.name, at, at', [arg[e + 1..]]);
    }
  }

  lemma AppendIgnoresIndices(p: Parsed, q: Parsed, value: string, at: int, at': int)
    requires Same(p, q)
    ensures var a, b := AppendPositional(p, value, at), AppendPositional(q, value, at');
            a.ok == b.ok && Same(a.parsed, b.parsed)
  {
  }

  lemma StepIgnoresIndices(strict: bool, table: seq<Spec>, rest: seq<string>, at: int, at': int, only: bool,
                           p: Parsed, q: Parsed)
    requires rest != [] && Same(p, q)
    ensures var s, t := OneStep(strict, table, rest, at, only, p), OneStep(strict, table, rest, at', only, q);
            && s.Go? == t.Go? && Same(s.parsed, t.parsed)
            && (s.Go? ==> s.used == t.used && s.positionalOnly == t.positionalOnly)
  {
    hide StoreOption, FindSpec, EqualsAt, LongWithEquals, AppendPositional, DashDash;
    var arg := rest[0];
    LongIgnoresIndices(strict, table, arg, at, at', p, q);
    AppendIgnoresIndices(p, q, arg, at, at');
    var s := FindSpec(table, arg);
    if s.Some? && 0 <= s.value.numArgs <= |rest| - 1 {
      StoreIgnoresIndices(p, q, s.value, arg, at, at', rest[1..1 + s.value.numArgs]);
    }
  }

  /** Source indices do not influence anything else. */
  lemma {:induction false} RunIgnoresIndices(strict: bool, table: seq<Spec>, rest: seq<string>, at: int, at': int,
                                             only: bool, p: Parsed, q: Parsed)
    requires Same(p, q)
    ensures var e, f := Run(strict, table, rest, at, only, p), Run(strict, table, rest, at', only, q);
            e.ok == f.ok && e.positionalOnly == f.positionalOnly && Same(e.parsed, f.parsed)
    decreases |rest|
  {
    hide OneStep;
    if rest != [] {
      StepIgnoresIndices(strict, table, rest, at, at', only, p, q);
      var s, t := OneStep(strict, table, rest, at, only, p), OneStep(strict, table, rest, at', only, q);
      if s.Go? {
        RunIgnoresIndices(strict, table, rest[s.used..], at + s.used, at' + s.used, s.positionalOnly, s.parsed,
                          t.parsed);
      }
    }
  }

  predicate TakesEquals(table: seq<Spec>, name: string) {
    && DashDash(name) && name != "--" && '=' !in name && |name| < KEY_BUFFER
    && FindSpec(table, name).Some? && FindSpec(table, name).value.numArgs == 1
  }

  lemma {:induction false} EqualsSplit(name: string, rest: string)
    requires '=' !in name && (rest == "" || rest[0] == '=')
    ensures EqualsAt(name + rest) == |name|
  {
    if name == "" {
      assert name + rest == rest;
    } else {
      assert name[0] in name;
      assert (name + rest)[1..] == name[1..] + rest;
      EqualsSplit(name[1..], rest);
    }
  }

  /** Both spellings of a one-value option do the same in one turn. */
  lemma EqualsStep(strict: bool, table: seq<Spec>, name: string, value: string, post: seq<string>, at: int, p: Parsed)
    requires TakesEquals(table, name)
    ensures var one := OneStep(strict, table, [name + "=" + value] + post, at, false, p);
            var two := OneStep(strict, table, [name, value] + post, at, false, p);
            if one.Stop? then two == one else one.used == 1 && two == one.(used := 2)
  {
    var arg := name + "=" + value;
    FoundSpec(table, name);
    EqualsSplit(name, "=" + value);
    EqualsSplit(name, "");
    assert name + ("=" + value) == arg && name + "" == name;
    assert arg[..|name|] == name && arg[|name| + 1..] == value;
    assert ([name, value] + post)[1..2] == [value];
  }

  lemma EqualsRun(strict: bool, table: seq<Spec>, name: string, value: string, post: seq<string>, at: int, p: Parsed)
    requires TakesEquals(table, name)
    ensures var e := Run(strict, table, [name + "=" + value] + post, at, false, p);
            var f := Run(strict, table, [name, value] + post, at, false, p);
            e.ok == f.ok && Same(e.parsed, f.parsed)
  {
    hide OneStep;
    EqualsStep(strict, table, name, value, post, at, p);
    var one, two := [name + "=" + value] + post, [name, value] + post;
    var s := OneStep(strict, table, one, at, false, p);
    if s.Go? {
      assert one[1..] == post && two[2..] == post;
      RunIgnoresIndices(strict, table, post, at + 1, at + 2, s.positionalOnly, s.parsed, s.parsed);
    }
  }

  /**
   * Writing "--k=v" as the two arguments "--k" "v" changes nothing but source indices, wherever the
   * argument is read as an option: the arguments before it are used up by themselves, without "--".
   * If those arguments fail for a reason of their own, both spellings fail alike.
   */
  lemma EqualsForm(strict: bool, table: seq<Spec>, pre: seq<string>, name: string, value: string, post: seq<string>)
    requires TakesEquals(table, name)
    requires var e := Run(strict, table, pre, 1, false, EMPTY);
             if e.ok then !e.positionalOnly else e.parsed.error.code != NotEnoughOptionArgs
    ensures var a := ParseAll(strict, table, pre + [name + "=" + value] + post);
            var b := ParseAll(strict, table, pre + [name, value] + post);
            a.ok == b.ok && Same(a.parsed, b.parsed)
  {
    hide OneStep, Run;
    var one, two := [name + "=" + value] + post, [name, value] + post;
    assert pre + [name + "=" + value] + post == pre + one;
    assert pre + [name, value] + post == pre + two;
    RunConcat(strict, table, pre, one, 1, false, EMPTY);
    RunConcat(strict, table, pre, two, 1, false, EMPTY);
    EqualsRun(strict, table, name, value, post, 1 + |pre|, Run(strict, table, pre, 1, false, EMPTY).parsed);
  }

  /** After "--" every argument is an operand, as far as there is room. */
  lemma {:induction false} OperandsOnly(strict: bool, table: seq<Spec>, operands: seq<string>, at: int, p: Parsed)
    requires |p.positionals| <= MAX_POSITIONALS
    ensures var e := Run(strict, table, operands, at, true, p);
            && e.ok == (|p.positionals| + |operands| <= MAX_POSITIONALS)
            && e.parsed.options == p.options && (!e.ok ==> e.parsed.error.code == TooManyPositionals)
            && e.parsed.positionals == if e.ok then p.positionals + operands
                                       else p.positionals + operands[..MAX_POSITIONALS - |p.positionals|]
    decreases |operands|
  {
    if operands != [] {
      OperandStep(strict, table, operands, at, p);
      hide OneStep;
      var q := AppendPositional(p, operands[0], at).parsed;
      if |p.positionals| < MAX_POSITIONALS {
        OperandsOnly(strict, table, operands[1..], at + 1, q);
        OperandsMove(p.positionals, operands, MAX_POSITIONALS - |p.positionals|);
      }
    }
  }

  lemma OperandStep(strict: bool, table: seq<Spec>, operands: seq<string>, at: int, p: Parsed)
    requires operands != []
    ensures OneStep(strict, table, operands, at, true, p) == Of(AppendPositional(p, operands[0], at), 1, true)
  {
  }

  lemma OperandsMove(done: seq<string>, operands: seq<string>, room: nat)
    requires operands != [] && room > 0
    ensures done + [operands[0]] + operands[1..] == done + operands
    ensures room <= |operands| ==> done + [operands[0]] + operands[1..][..room - 1] == done + operands[..room]
  {
    assert operands == [operands[0]] + operands[1..];
  }

  lemma {:induction false} RoomKept(strict: bool, table: seq<Spec>, rest: seq<string>, at: int, only: bool, p: Parsed)
    requires |p.positionals| <= MAX_POSITIONALS
    ensures |Run(strict, table, rest, at, only, p).parsed.positionals| <= MAX_POSITIONALS
    decreases |rest|
  {
    hide OneStep;
    if rest != [] {
      StepKeepsRoom(strict, table, rest, at, only, p);
      var s := OneStep(strict, table, rest, at, only, p);
      if s.Go? {
        RoomKept(strict, table, rest[s.used..], at + s.used, s.positionalOnly, s.parsed);
      }
    }
  }

  lemma StepKeepsRoom(strict: bool, table: seq<Spec>, rest: seq<string>, at: int, only: bool, p: Parsed)
    requires rest != [] && |p.positionals| <= MAX_POSITIONALS
    ensures |OneStep(strict, table, rest, at, only, p).parsed.positionals| <= MAX_POSITIONALS
  {
  }

  /** Both results are the same apart from source indices. */
  predicate Alike(a: Outcome, b: Outcome) {
    a.ok == b.ok && Same(a.parsed, b.parsed)
  }

  /** Behind "--" the two spellings are operands and differ exactly while there is room for one more. */
  lemma EqualsAfterDashDash(strict: bool, table: seq<Spec>, pre: seq<string>, name: string, value: string,
                            post: seq<string>)
    requires var e := Run(strict, table, pre, 1, false, EMPTY); e.ok && e.positionalOnly
    ensures Alike(ParseAll(strict, table, pre + [name + "=" + value] + post),
                  ParseAll(strict, table, pre + [name, value] + post))
            <==> |Run(strict, table, pre, 1, false, EMPTY).parsed.positionals| == MAX_POSITIONALS
  {
    hide OneStep, Run, Missing;
    var one, two := [name + "=" + value] + post, [name, value] + post;
    assert pre + [name + "=" + value] + post == pre + one && pre + [name, value] + post == pre + two;
    var p := Run(strict, table, pre, 1, false, EMPTY).parsed;
    RoomKept(strict, table, pre, 1, false, EMPTY);
    RunConcat(strict, table, pre, one, 1, false, EMPTY);
    RunConcat(strict, table, pre, two, 1, false, EMPTY);
    OperandsOnly(strict, table, one, 1 + |pre|, p);
    OperandsOnly(strict, table, two, 1 + |pre|, p);
    var n := |p.positionals|;
    var a, b := ParseAll(strict, table, pre + one).parsed.positionals,
      ParseAll(strict, table, pre + two).parsed.positionals;
    if n < MAX_POSITIONALS {
      assert a[n] == name + "=" + value && b[n] == name;
      assert |a[n]| > |b[n]|;
    }
  }

  /** An option that no later one replaces: it may be repeated, or a repeat is an error. */
  predicate Stays(s: Spec) {
    s.allowRepeat || !s.lastWins
  }

  /** None of the arguments is this name, alone or with a value. */
  predicate Unspelled(name: string, args: seq<string>) {
    forall i :: 0 <= i < |args| ==> args[i] != name && !(name + "=" <= args[i])
  }

  /** The entry of the option at `i` cannot be stored again from these arguments, or not in its place. */
  predicate Safe(table: seq<Spec>, p: Parsed, i: nat, args: seq<string>) {
    i < |p.options| && p.options[i].spec in table
      && (Stays(p.options[i].spec) || Unspelled(p.options[i].spec.name, args))
  }

  /** Such an option keeps its place and values, whatever follows. */
  lemma {:induction false} StoredStays(strict: bool, table: seq<Spec>, rest: seq<string>, at: int, only: bool,
                                       p: Parsed, i: nat)
    requires Regular(table) && Safe(table, p, i, rest)
    ensures var q := Run(strict, table, rest, at, only, p).parsed;
            i < |q.options| && q.options[i] == p.options[i]
    decreases |rest|
  {
    hide OneStep, Regular;
    if rest != [] {
      StepStays(strict, table, rest, at, only, p, i);
      var s := OneStep(strict, table, rest, at, only, p);
      if s.Go? {
        StoredStays(strict, table, rest[s.used..], at + s.used, s.positionalOnly, s.parsed, i);
      }
    }
  }

  lemma StepStays(strict: bool, table: seq<Spec>, rest: seq<string>, at: int, only: bool, p: Parsed, i: nat)
    requires rest != [] && Regular(table) && Safe(table, p, i, rest)
    ensures var q := OneStep(strict, table, rest, at, only, p).parsed;
            i < |q.options| && q.options[i] == p.options[i]
  {
    hide StoreOption, Regular, LongWithEquals, Stays;
    var arg := rest[0];
    FoundSpec(table, arg);
    LongStays(strict, table, rest, at, p, i);
    var s := FindSpec(table, arg);
    if s.Some? && 0 <= s.value.numArgs <= |rest| - 1 {
      StoreStays(table, p, s.value, arg, at, rest[1..1 + s.value.numArgs], i);
    }
  }

  lemma LongStays(strict: bool, table: seq<Spec>, rest: seq<string>, at: int, p: Parsed, i: nat)
    requires rest != [] && Regular(table) && Safe(table, p, i, rest)
    ensures var r := LongWithEquals(strict, table, rest[0], at, p);
            r.Some? ==> i < |r.value.parsed.options| && r.value.parsed.options[i] == p.options[i]
  {
    hide StoreOption, Regular, Stays;
    var arg := rest[0];
    var e := EqualsAt(arg);
    FoundSpec(table, arg[..e]);
    var s := FindSpec(table, arg[..e]);
    if s.Some? && e < |arg| {
      EqualsFound(arg);
      StoreStays(table, p, s.value, s.value.name, at, [arg[e + 1..]], i);
    }
  }

  lemma {:induction false} EqualsFound(arg: string)
    requires EqualsAt(arg) < |arg|
    ensures arg[..EqualsAt(arg)] + "=" <= arg
  {
    if arg[0] != '=' {
      EqualsFound(arg[1..]);
    }
  }

  lemma StoreStays(table: seq<Spec>, p: Parsed, s: Spec, spelling: string, at: int, values: seq<string>, i: nat)
    requires Regular(table) && s in table && i < |p.options| && p.options[i].spec in table
    requires Stays(p.options[i].spec) || p.options[i].spec.name != s.name
    ensures var q := StoreOption(p, s, spelling, at, values).parsed;
            i < |q.options| && q.options[i] == p.options[i]
  {
    FoundIndex(p.options, s.id);
    if p.options[i].spec.id == s.id {
      SameIdSameSpec(table, p.options[i].spec, s);
    }
  }

  /** The option can be stored: at the end, or in the place of the one it repeats. */
  predicate Storable(p: Parsed, s: Spec) {
    && 1 + s.numArgs <= MAX_OPTION_ARGS
    && if Replaces(p, s) then s.lastWins else |p.options| < MAX_OPTIONS
  }

  /** An option of this id is there, and may not be repeated. */
  predicate Replaces(p: Parsed, s: Spec) {
    IndexById(p.options, s.id) < |p.options| && !s.allowRepeat
  }

  /** The state with the option stored. */
  function Stored(p: Parsed, s: Spec, at: int, values: seq<string>): (q: Parsed) {
    StoreOption(p, s, s.name, at, values).parsed
  }

  /** The position it is stored at. */
  function PlaceFor(p: Parsed, s: Spec): (i: nat) {
    if Replaces(p, s) then IndexById(p.options, s.id) else |p.options|
  }

  /** The error of storing an option that cannot be stored. */
  function Refusal(p: Parsed, s: Spec, at: int): (q: Parsed)
    ensures q.options == p.options && q.positionals == p.positionals && q.error.code != NotEnoughOptionArgs
  {
    var code := if 1 + s.numArgs > MAX_OPTION_ARGS then TooManyOptionArgs
                else if Replaces(p, s) then DuplicateOption
                else TooManyOptions;
    Failed(p, code, at, Some(s.name), Some(s)).parsed
  }

  lemma StoresIfStorable(p: Parsed, s: Spec, at: int, values: seq<string>)
    requires |values| == s.numArgs
    ensures StoreOption(p, s, s.name, at, values) ==
            if Storable(p, s) then Outcome(true, Stored(p, s, at, values)) else Outcome(false, Refusal(p, s, at))
    ensures Storable(p, s) ==>
              var i, q := PlaceFor(p, s), Stored(p, s, at, values);
              i < |q.options| && q.options[i] == Opt(s, [s.name] + values)
  {
  }

  /** What is left to parse when an option that lacks values comes before the spelling in question. */
  function Starved(s: Spec, given: seq<string>, next: seq<string>): (r: seq<string>) {
    [s.name] + given + next
  }

  /** What is left of these arguments once the option has its values. */
  function Behind(s: Spec, given: nat, args: seq<string>): (r: seq<string>) {
    if given <= s.numArgs <= given + |args| then args[s.numArgs - given..] else []
  }

  /** The two spellings, one of them a value of this option, make no difference. */
  predicate NoMatter(p: Parsed, s: Spec, given: nat, more: nat) {
    if s.numArgs <= given + 1 + more then !Storable(p, s) else s.numArgs > given + 2 + more
  }

  /** The option is spelled again behind its values and then replaced. */
  predicate Respelled(s: Spec, given: nat, name: string, value: string, post: seq<string>) {
    !Stays(s) && !Unspelled(s.name, Behind(s, given, [name, value] + post))
  }

  /**
   * Where an option before the argument still lacks values, the argument is one of them and the two spellings give
   * different values. The results then differ exactly when the option can be stored with what follows, and when only
   * the extra argument makes the number of values suffice. An option that is replaced by a repeat behind it is the
   * one exception: what follows can wipe the difference out.
   */
  lemma EqualsSwallowed(strict: bool, table: seq<Spec>, pre: seq<string>, s: Spec, given: seq<string>,
                        name: string, value: string, post: seq<string>)
    requires Regular(table) && FindSpec(table, s.name) == Some(s) && s.name != "--" && |given| < s.numArgs
    requires var e := Run(strict, table, pre, 1, false, EMPTY); e.ok && !e.positionalOnly
    ensures var p := Run(strict, table, pre, 1, false, EMPTY).parsed;
            var alike := Alike(ParseAll(strict, table, pre + Starved(s, given, [name + "=" + value] + post)),
                               ParseAll(strict, table, pre + Starved(s, given, [name, value] + post)));
            && (NoMatter(p, s, |given|, |post|) ==> alike)
            && (!Respelled(s, |given|, name, value, post) ==> (alike <==> NoMatter(p, s, |given|, |post|)))
  {
    hide OneStep, Run, Missing, Regular, Starved, Unspelled, Behind, Storable, Refusal, PlaceFor;
    var p := Run(strict, table, pre, 1, false, EMPTY).parsed;
    var one, two := Starved(s, given, [name + "=" + value] + post), Starved(s, given, [name, value] + post);
    RunConcat(strict, table, pre, one, 1, false, EMPTY);
    RunConcat(strict, table, pre, two, 1, false, EMPTY);
    BehindBoth(s, |given|, name, value, post);
    StarvedRun(strict, table, s, given, name + "=" + value, post, 1 + |pre|, p);
    StarvedRun(strict, table, s, given, name, [value] + post, 1 + |pre|, p);
    assert [name, value] + post == [name] + ([value] + post);
    assert |name + "=" + value| > |name|;
  }

  /** Behind the values the longer spelling leaves one argument more, and the same ones after it. */
  lemma BehindBoth(s: Spec, given: nat, name: string, value: string, post: seq<string>)
    requires given < s.numArgs
    ensures Behind(s, given, [name, value] + post) == Behind(s, given, [name] + ([value] + post))
    ensures Unspelled(s.name, Behind(s, given, [name, value] + post)) && s.numArgs <= given + 1 + |post| ==>
              Unspelled(s.name, Behind(s, given, [name + "=" + value] + post))
  {
    assert [name, value] + post == [name] + ([value] + post);
    var n := s.numArgs - given;
    if n <= 1 + |post| {
      var one, two := [name + "=" + value] + post, [name, value] + post;
      assert forall i :: 0 <= i < |one[n..]| ==> one[n..][i] == two[n..][i + 1];
    }
  }

  /** A run that begins with such an option: an error that tells nothing of the argument, or the option with it. */
  lemma StarvedRun(strict: bool, table: seq<Spec>, s: Spec, given: seq<string>, arg: string, post: seq<string>,
                   at: int, p: Parsed)
    requires Regular(table) && FindSpec(table, s.name) == Some(s) && s.name != "--" && |given| < s.numArgs
    ensures var e := Run(strict, table, Starved(s, given, [arg] + post), at, false, p);
            if s.numArgs > |given| + 1 + |post| then
              && !e.ok && e.parsed.options == p.options && e.parsed.positionals == p.positionals
              && e.parsed.error.code == NotEnoughOptionArgs
            else if !Storable(p, s) then
              !e.ok && e.parsed == Refusal(p, s, at)
            else
              var i := PlaceFor(p, s);
              && (s.numArgs == |given| + 1 + |post| ==> e.ok)
              && (Stays(s) || Unspelled(s.name, Behind(s, |given|, [arg] + post)) ==>
                    && i < |e.parsed.options| && |e.parsed.options[i].args| == 1 + s.numArgs
                    && e.parsed.options[i].args[1 + |given|] == arg)
  {
    hide Regular, OneStep;
    var rest := Starved(s, given, [arg] + post);
    StarvedStep(strict, table, s, rest, at, p);
    if s.numArgs <= |given| + 1 + |post| {
      var values := rest[1..1 + s.numArgs];
      assert values[|given|] == arg;
      StoresIfStorable(p, s, at, values);
      var left := rest[1 + s.numArgs..];
      assert left == Behind(s, |given|, [arg] + post);
      hide StoreOption, Storable, PlaceFor, Behind, Stays, Unspelled;
      if Storable(p, s) && (Stays(s) || Unspelled(s.name, left)) {
        StoredStays(strict, table, left, at + 1 + s.numArgs, false, Stored(p, s, at, values), PlaceFor(p, s));
      }
    }
  }

  lemma StarvedStep(strict: bool, table: seq<Spec>, s: Spec, rest: seq<string>, at: int, p: Parsed)
    requires Regular(table) && FindSpec(table, s.name) == Some(s) && s.name != "--" && 0 <= s.numArgs
    requires rest != [] && rest[0] == s.name
    ensures s in table
    ensures OneStep(strict, table, rest, at, false, p) ==
            if s.numArgs > |rest| - 1 then Stop(Failed(p, NotEnoughOptionArgs, at, Some(s.name), Some(s)).parsed)
            else Of(StoreOption(p, s, s.name, at, rest[1..1 + s.numArgs]), 1 + s.numArgs, false)
  {
    hide StoreOption;
    FoundSpec(table, s.name);
    DashLed(table, s);
    EqualsSplit(s.name, "");
    assert s.name + "" == s.name;
  }

  lemma DashLed(table: seq<Spec>, s: Spec)
    requires Regular(table) && s in table
    ensures s.name != "" && s.name[0] == '-' && '=' !in s.name
  {
  }

  // ---- the equals form at any position ----

  /**
   * How an argument is read behind others: not at all because they fail, as an option, as an operand with so many
   * before it, or as a value of an option `s` met in state `p` that has so many of its values already.
   */
  datatype Position = Unread | AsOption | AsOperand(before: nat) | AsValue(p: Parsed, s: Spec, given: nat)

  function PositionBehind(strict: bool, table: seq<Spec>, rest: seq<string>, at: int, only: bool, p: Parsed)
    : (r: Position)
    decreases |rest|
  {
    if rest == [] then if only then AsOperand(|p.positionals|) else AsOption
    else
      var t := OneStep(strict, table, rest, at, only, p);
      if t.Go? then PositionBehind(strict, table, rest[t.used..], at + t.used, t.positionalOnly, t.parsed)
      else if t.parsed.error.code == NotEnoughOptionArgs && FindSpec(table, rest[0]).Some? then
        AsValue(p, FindSpec(table, rest[0]).value, |rest| - 1)
      else Unread
  }

  /** A turn that goes on does so without what is behind it. */
  lemma StepAlone(strict: bool, table: seq<Spec>, rest: seq<string>, at: int, only: bool, p: Parsed)
    requires rest != []
    ensures var t := OneStep(strict, table, rest, at, only, p);
            t.Go? ==> OneStep(strict, table, rest[..t.used], at, only, p) == t
  {
    var t := OneStep(strict, table, rest, at, only, p);
    var s := FindSpec(table, rest[0]);
    if t.Go? && s.Some? && 0 <= s.value.numArgs && t.used == 1 + s.value.numArgs {
      assert rest[..t.used][1..1 + s.value.numArgs] == rest[1..1 + s.value.numArgs];
    }
  }

  lemma StarvingStep(strict: bool, table: seq<Spec>, rest: seq<string>, at: int, only: bool, p: Parsed)
    requires rest != []
    ensures var t, s := OneStep(strict, table, rest, at, only, p), FindSpec(table, rest[0]);
            t.Stop? && t.parsed.error.code == NotEnoughOptionArgs ==>
              !only && rest[0] != "--" && s.Some? && s.value.name == rest[0] && |rest| - 1 < s.value.numArgs
  {
    FoundSpec(table, rest[0]);
  }

  /** The run up to such an option goes through, and the position is told from the run as a whole. */
  lemma {:induction false} PositionFromRun(strict: bool, table: seq<Spec>, rest: seq<string>, at: int, only: bool,
                                           p: Parsed)
    ensures var e := Run(strict, table, rest, at, only, p);
            var r := PositionBehind(strict, table, rest, at, only, p);
            && (r.Unread? <==> !e.ok && e.parsed.error.code != NotEnoughOptionArgs)
            && (r.AsOption? <==> e.ok && !e.positionalOnly)
            && (r.AsOperand? <==> e.ok && e.positionalOnly)
            && (r.AsOperand? ==> r.before == |e.parsed.positionals|)
            && (r.AsValue? ==> SplitsAt(strict, table, rest, at, only, p, r))
    decreases |rest|
  {
    hide OneStep;
    if rest != [] {
      var t := OneStep(strict, table, rest, at, only, p);
      StarvingStep(strict, table, rest, at, only, p);
      if t.Go? {
        var more := rest[t.used..];
        PositionFromRun(strict, table, more, at + t.used, t.positionalOnly, t.parsed);
        var r := PositionBehind(strict, table, rest, at, only, p);
        if r.AsValue? {
          StepAlone(strict, table, rest, at, only, p);
          SplitsLater(strict, table, rest, at, only, p, r);
        }
      }
    }
  }

  /** The arguments are some that are used up in state `r.p`, the name of option `r.s`, and `r.given` of its values. */
  predicate SplitsAt(strict: bool, table: seq<Spec>, rest: seq<string>, at: int, only: bool, p: Parsed, r: Position)
    requires r.AsValue?
  {
    && r.given < |rest| && r.given < r.s.numArgs
    && var k := |rest| - r.given - 1;
    && var e := Run(strict, table, rest[..k], at, only, p);
    && e.ok && !e.positionalOnly && e.parsed == r.p
    && rest[k] == r.s.name != "--" && FindSpec(table, r.s.name) == Some(r.s)
  }

  lemma SplitsLater(strict: bool, table: seq<Spec>, rest: seq<string>, at: int, only: bool, p: Parsed, r: Position)
    requires rest != [] && r.AsValue?
    requires var t := OneStep(strict, table, rest, at, only, p);
             && t.Go? && OneStep(strict, table, rest[..t.used], at, only, p) == t
             && SplitsAt(strict, table, rest[t.used..], at + t.used, t.positionalOnly, t.parsed, r)
    ensures SplitsAt(strict, table, rest, at, only, p, r)
  {
    hide OneStep;
    var t := OneStep(strict, table, rest, at, only, p);
    var more := rest[t.used..];
    var k := |more| - r.given - 1;
    assert rest[..t.used + k] == rest[..t.used] + more[..k];
    assert rest[..t.used][t.used..] == [];
    assert Run(strict, table, rest[..t.used], at, only, p) == End(true, t.positionalOnly, t.parsed);
    RunConcat(strict, table, rest[..t.used], more[..k], at, only, p);
  }

  /** At this position the spelling makes no difference. */
  predicate Indifferent(r: Position, post: seq<string>) {
    match r
    case Unread => true
    case AsOption => true
    case AsOperand(before) => before == MAX_POSITIONALS
    case AsValue(p, s, given) => NoMatter(p, s, given, |post|)
  }

  /**
   * The two spellings of an option, at any place among any arguments, before any others: they give the same result
   * exactly where the position is indifferent. The one exception is an argument taken as a value by a
   * last-wins option that is spelled again behind; there indifference still suffices.
   */
  lemma EqualsAnywhere(strict: bool, table: seq<Spec>, pre: seq<string>, name: string, value: string, post: seq<string>)
    requires Regular(table) && TakesEquals(table, name)
    ensures var r := PositionBehind(strict, table, pre, 1, false, EMPTY);
            var alike := Alike(ParseAll(strict, table, pre + [name + "=" + value] + post),
                               ParseAll(strict, table, pre + [name, value] + post));
            && (Indifferent(r, post) ==> alike)
            && (!(r.AsValue? && Respelled(r.s, r.given, name, value, post)) ==> (alike <==> Indifferent(r, post)))
  {
    hide OneStep, Run, Regular, TakesEquals, NoMatter, Respelled, ParseAll;
    PositionFromRun(strict, table, pre, 1, false, EMPTY);
    var r := PositionBehind(strict, table, pre, 1, false, EMPTY);
    match r
    case AsOperand(_) => EqualsAfterDashDash(strict, table, pre, name, value, post);
    case AsValue(p, s, n) =>
      var k := |pre| - n - 1;
      var given := pre[k + 1..];
      EqualsSwallowed(strict, table, pre[..k], s, given, name, value, post);
      StarvedParts(pre, k, s, [name + "=" + value] + post);
      StarvedParts(pre, k, s, [name, value] + post);
      assert pre + [name + "=" + value] + post == pre + ([name + "=" + value] + post);
      assert pre + [name, value] + post == pre + ([name, value] + post);
    case _ => EqualsForm(strict, table, pre, name, value, post);
  }

  lemma StarvedParts(pre: seq<string>, k: nat, s: Spec, next: seq<string>)
    requires k < |pre| && pre[k] == s.name
    ensures pre[..k] + Starved(s, pre[k + 1..], next) == pre + next
  {
    assert pre == pre[..k] + [pre[k]] + pre[k + 1..];
  }

  /** A repeat behind can wipe the difference out: both spellings leave the same options. */
  lemma RespelledCanAgree()
    ensures var table := [A, K, B];
            var one := ParseAll(true, table, ["--a", "--k=--b", "--b", "--a", "x"]);
            var two := ParseAll(true, table, ["--a", "--k", "--b", "--b", "--a", "x"]);
            TakesEquals(table, "--k") && one.ok && two.ok && Alike(one, two)
            && Respelled(A, 0, "--k", "--b", ["--b", "--a", "x"]) && !NoMatter(EMPTY, A, 0, 3)
  {
    hide Run, Regular, FindSpec, Stored, Storable;
    var table := [A, K, B];
    FindsThree();
    var one := StoredFirst("--k=--b");
    var two := StoredFirst("--k");
    OptionTurn(table, A, ["--k=--b"], ["--b", "--a", "x"], 1, EMPTY);
    assert ["--a"] + ["--k=--b"] + ["--b", "--a", "x"] == ["--a", "--k=--b", "--b", "--a", "x"];
    FlagAndRepeat(one, 3, "--k=--b");
    OptionTurn(table, A, ["--k"], ["--b", "--b", "--a", "x"], 1, EMPTY);
    assert ["--a"] + ["--k"] + ["--b", "--b", "--a", "x"] == ["--a", "--k", "--b", "--b", "--a", "x"];
    FlagStored(two, 3, "--k");
    OptionTurn(table, B, [], ["--b", "--a", "x"], 3, two);
    assert ["--b"] + [] + ["--b", "--a", "x"] == ["--b", "--b", "--a", "x"];
    FlagAndRepeat(Stored(two, B, 3, []), 4, "--k");
    assert Behind(A, 0, ["--k", "--b"] + ["--b", "--a", "x"]) == ["--b", "--b", "--a", "x"];
    assert ["--b", "--b", "--a", "x"][2] == A.name;
  }

  const A := Spec("--a", 1, 1, false, false, true)
  const K := Spec("--k", 2, 1, false, false, true)
  const B := Spec("--b", 3, 0, false, false, true)

  /** The options so far are "--a" with this value and perhaps the flag, and nothing else was met. */
  predicate Holds(p: Parsed, v: string) {
    && (p.options == [Opt(A, ["--a", v])] || p.options == [Opt(A, ["--a", v]), Opt(B, ["--b"])])
    && p.positionals == [] && p.error == CLEAR
  }

  lemma StoredFirst(v: string) returns (p: Parsed)
    ensures p == Stored(EMPTY, A, 1, [v]) && Holds(p, v) && Storable(EMPTY, A)
  {
    p := Stored(EMPTY, A, 1, [v]);
    assert ["--a"] + [v] == ["--a", v];
  }

  lemma FlagStored(p: Parsed, at: int, v: string)
    requires Holds(p, v)
    ensures Storable(p, B) && Holds(Stored(p, B, at, []), v) && |Stored(p, B, at, []).options| == 2
  {
    var a, b := Opt(A, ["--a", v]), Opt(B, ["--b"]);
    assert [a, b][1..] == [b] && [a][1..] == [];
    assert IndexById([b], 3) == 0 && IndexById(p.options, 3) == 1;
    assert [a, b][1 := b] == [a, b];
    assert ["--b"] + [] == ["--b"];
  }

  lemma RepeatStored(p: Parsed, at: int, v: string)
    requires Holds(p, v) && |p.options| == 2
    ensures Storable(p, A) && Stored(p, A, at, ["x"]).options == [Opt(A, ["--a", "x"]), Opt(B, ["--b"])]
    ensures Stored(p, A, at, ["x"]).positionals == [] && Stored(p, A, at, ["x"]).error == CLEAR
  {
    assert IndexById(p.options, 1) == 0;
    assert ["--a"] + ["x"] == ["--a", "x"];
  }

  lemma FlagAndRepeat(p: Parsed, at: int, v: string)
    requires Holds(p, v)
    ensures var e := Run(true, [A, K, B], ["--b", "--a", "x"], at, false, p);
            e.ok && e.parsed.options == [Opt(A, ["--a", "x"]), Opt(B, ["--b"])] && e.parsed.positionals == []
            && e.parsed.error == CLEAR
  {
    hide OneStep, Regular, FindSpec, Stored, Storable, Holds;
    FindsThree();
    FlagStored(p, at, v);
    OptionTurn([A, K, B], B, [], ["--a", "x"], at, p);
    assert ["--b"] + [] + ["--a", "x"] == ["--b", "--a", "x"];
    var q := Stored(p, B, at, []);
    RepeatStored(q, at + 1, v);
    OptionTurn([A, K, B], A, ["x"], [], at + 1, q);
    assert ["--a"] + ["x"] + [] == ["--a", "x"];
  }

  lemma FindsThree()
    ensures var table := [A, K, B];
            && Regular(table) && FindSpec(table, "--a") == Some(A) && FindSpec(table, "--k") == Some(K)
            && FindSpec(table, "--b") == Some(B)
            && TakesEquals(table, "--k")
            && (forall options: seq<Opt> :: Missing(table, options) == None)
  {
    var table := [A, K, B];
    assert table[1..] == [K, B] && [K, B][1..] == [B] && [B][1..] == [];
    assert FindSpec([B], "--b") == Some(B) && FindSpec([K, B], "--b") == Some(B);
    forall options: seq<Opt> ensures Missing(table, options) == None {
      assert Missing([B], options) == None && Missing([K, B], options) == None;
    }
  }

  /** A turn for an option with its values. */
  lemma OptionTurn(table: seq<Spec>, s: Spec, values: seq<string>, rest: seq<string>, at: int, p: Parsed)
    requires Regular(table) && FindSpec(table, s.name) == Some(s) && s.name != "--" && |values| == s.numArgs
               && Storable(p, s)
    ensures Run(true, table, [s.name] + values + rest, at, false, p)
            == Run(true, table, rest, at + 1 + s.numArgs, false, Stored(p, s, at, values))
  {
    hide OneStep, Regular;
    var all := [s.name] + values + rest;
    StarvedStep(true, table, s, all, at, p);
    assert all[1..1 + s.numArgs] == values && all[1 + s.numArgs..] == rest;
    StoresIfStorable(p, s, at, values);
  }

  /** An argument that an option before it takes as a value is not read as an option, and splitting it matters. */
  lemma SwallowedEqualsDiffers()
    ensures var table := [Spec("--a", 1, 1, false, false, true), Spec("--k", 2, 1, false, false, true)];
            && TakesEquals(table, "--k")
            && ParseAll(true, table, ["--a", "--k=v"]).parsed.positionals == []
            && ParseAll(true, table, ["--a", "--k", "v"]).parsed.positionals == ["v"]
  {
    var a, k := Spec("--a", 1, 1, false, false, true), Spec("--k", 2, 1, false, false, true);
    var table := [a, k];
    assert FindSpec(table, "--a") == Some(a);
    assert table[1..] == [k] && FindSpec([k], "--k") == Some(k);
    EqualsSplit("--a", "");
    assert "--a" + "" == "--a";
    var one, two := ["--a", "--k=v"], ["--a", "--k", "v"];
    assert one[1..2] == ["--k=v"] && one[2..] == [];
    assert two[1..2] == ["--k"] && two[2..] == ["v"];
    var p := StoreOption(EMPTY, a, "--a", 1, ["--k"]).parsed;
    assert Run(true, table, two, 1, false, EMPTY) == Run(true, table, ["v"], 3, false, p);
    assert ["v"][1..] == [];
  }

  // ---- what one more argument does ----

  /** These arguments run through, and without "--". */
  predicate Passes(strict: bool, table: seq<Spec>, pre: seq<string>) {
    var e := Run(strict, table, pre, 1, false, EMPTY);
    e.ok && !e.positionalOnly
  }

  /** What has been found in them. */
  function Found(strict: bool, table: seq<Spec>, pre: seq<string>): (p: Parsed) {
    Run(strict, table, pre, 1, false, EMPTY).parsed
  }

  /** Every item has its source index, no error is set, and there is no operand too many. */
  predicate Tidy(p: Parsed) {
    |p.sources| == |p.options| && |p.positionalIndices| == |p.positionals| <= MAX_POSITIONALS
  }

  lemma {:induction false} RunIsTidy(strict: bool, table: seq<Spec>, rest: seq<string>, at: int, only: bool, p: Parsed)
    requires Tidy(p) && p.error == CLEAR
    ensures var e := Run(strict, table, rest, at, only, p);
            Tidy(e.parsed) && (e.ok ==> e.parsed.error == CLEAR)
    decreases |rest|
  {
    hide OneStep;
    if rest != [] {
      StepIsTidy(strict, table, rest, at, only, p);
      var s := OneStep(strict, table, rest, at, only, p);
      if s.Go? {
        RunIsTidy(strict, table, rest[s.used..], at + s.used, s.positionalOnly, s.parsed);
      }
    }
  }

  lemma StepIsTidy(strict: bool, table: seq<Spec>, rest: seq<string>, at: int, only: bool, p: Parsed)
    requires rest != [] && Tidy(p) && p.error == CLEAR
    ensures var t := OneStep(strict, table, rest, at, only, p);
            Tidy(t.parsed) && (t.Go? ==> t.parsed.error == CLEAR)
  {
    hide FindSpec, EqualsAt, IndexById;
  }

  /** The parse ends here with this error, and options and operands are those found before. */
  predicate FailsWith(e: End, p: Parsed, error: Error) {
    !e.ok && e.parsed == p.(error := error)
  }

  /** An argument taken as an operand: the next one while there is room for eight. */
  predicate NextOperand(strict: bool, table: seq<Spec>, p: Parsed, arg: string, at: int, post: seq<string>, e: End) {
    if |p.positionals| == 8 then FailsWith(e, p, Error(TooManyPositionals, at, Some(arg), 0, None))
    else e == Run(strict, table, post, at + 1, false,
                  p.(positionals := p.positionals + [arg], positionalIndices := p.positionalIndices + [at]))
  }

  /** No entry has the argument for a name, alone or, with two dashes, in front of '='; "-k=v" is never taken apart. */
  predicate Unoffered(table: seq<Spec>, arg: string) {
    forall s :: s in table ==> s.name != arg && !(arg[..if |arg| < 2 then 0 else 2] == "--" && s.name + "=" <= arg)
  }

  lemma RunBehind(strict: bool, table: seq<Spec>, pre: seq<string>, next: seq<string>)
    requires Passes(strict, table, pre)
    ensures Run(strict, table, pre + next, 1, false, EMPTY)
            == Run(strict, table, next, 1 + |pre|, false, Found(strict, table, pre))
    ensures Tidy(Found(strict, table, pre)) && Found(strict, table, pre).error == CLEAR
  {
    hide OneStep;
    RunConcat(strict, table, pre, next, 1, false, EMPTY);
    RunIsTidy(strict, table, pre, 1, false, EMPTY);
  }

  /** A failing run is a failing parse with the same error. */
  lemma FailureIsFinal(strict: bool, table: seq<Spec>, args: seq<string>)
    ensures var e := Run(strict, table, args, 1, false, EMPTY);
            !e.ok ==> ParseAll(strict, table, args) == Outcome(false, e.parsed)
  {
  }

  /** An argument with a dash that no entry has: an error in a strict parse, an operand in another. */
  lemma UnknownArgument(strict: bool, table: seq<Spec>, pre: seq<string>, arg: string, post: seq<string>)
    requires Passes(strict, table, pre) && arg != "" && arg[0] == '-' && arg != "--" && Unoffered(table, arg)
    ensures var p, at := Found(strict, table, pre), 1 + |pre|;
            if strict then
              ParseAll(strict, table, pre + [arg] + post)
              == Outcome(false, p.(error := Error(UnknownOption, at, Some(arg), 0, None)))
            else
              NextOperand(strict, table, p, arg, at, post, Run(strict, table, pre + [arg] + post, 1, false, EMPTY))
  {
    hide Passes, Found;
    RunBehind(strict, table, pre, [arg] + post);
    assert pre + [arg] + post == pre + ([arg] + post);
    UnknownStep(strict, table, arg, post, 1 + |pre|, Found(strict, table, pre));
    FailureIsFinal(strict, table, pre + [arg] + post);
  }

  lemma UnknownStep(strict: bool, table: seq<Spec>, arg: string, post: seq<string>, at: int, p: Parsed)
    requires arg != "" && arg[0] == '-' && arg != "--" && Unoffered(table, arg) && |p.positionals| <= 8
    ensures var e := Run(strict, table, [arg] + post, at, false, p);
            if strict then FailsWith(e, p, Error(UnknownOption, at, Some(arg), 0, None))
            else NextOperand(strict, table, p, arg, at, post, e)
  {
    FoundSpec(table, arg);
    FoundSpec(table, arg[..EqualsAt(arg)]);
    if EqualsAt(arg) < |arg| {
      EqualsFound(arg);
    }
    assert ([arg] + post)[1..] == post;
  }

  /** A name of 256 characters or more in front of '=' is not looked up, even if an entry has it. */
  lemma LongKeyIsUnknown(strict: bool, table: seq<Spec>, pre: seq<string>, name: string, value: string,
                         post: seq<string>)
    requires Passes(strict, table, pre) && DashDash(name) && '=' !in name && |name| >= 256
    requires forall s :: s in table ==> s.name != name + "=" + value
    ensures var p, at, arg := Found(strict, table, pre), 1 + |pre|, name + "=" + value;
            if strict then
              ParseAll(strict, table, pre + [arg] + post)
              == Outcome(false, p.(error := Error(UnknownOption, at, Some(arg), 0, None)))
            else
              NextOperand(strict, table, p, arg, at, post, Run(strict, table, pre + [arg] + post, 1, false, EMPTY))
  {
    var arg := name + "=" + value;
    EqualsSplit(name, "=" + value);
    assert name + ("=" + value) == arg;
    FoundSpec(table, arg);
    assert pre + [arg] + post == pre + ([arg] + post);
    assert ([arg] + post)[1..] == post;
    RunBehind(strict, table, pre, [arg] + post);
    FailureIsFinal(strict, table, pre + [arg] + post);
  }

  /** An argument without a dash is an operand, strict or not. */
  lemma OperandArgument(strict: bool, table: seq<Spec>, pre: seq<string>, arg: string, post: seq<string>)
    requires Passes(strict, table, pre) && (arg == "" || arg[0] != '-')
    ensures NextOperand(strict, table, Found(strict, table, pre), arg, 1 + |pre|, post,
                        Run(strict, table, pre + [arg] + post, 1, false, EMPTY))
  {
    hide Passes, Found;
    assert pre + [arg] + post == pre + ([arg] + post);
    RunBehind(strict, table, pre, [arg] + post);
    OperandTurn(strict, table, arg, post, 1 + |pre|, Found(strict, table, pre));
  }

  lemma OperandTurn(strict: bool, table: seq<Spec>, arg: string, post: seq<string>, at: int, p: Parsed)
    requires (arg == "" || arg[0] != '-') && |p.positionals| <= 8
    ensures NextOperand(strict, table, p, arg, at, post, Run(strict, table, [arg] + post, at, false, p))
  {
    assert ([arg] + post)[1..] == post;
  }

  predicate HasId(options: seq<Opt>, id: int) {
    exists i :: 0 <= i < |options| && options[i].spec.id == id
  }

  /** What becomes of an option with its values: an error, or it replaces the first of its id, or is the last. */
  ghost predicate NextOption(strict: bool, table: seq<Spec>, p: Parsed, s: Spec, values: seq<string>, at: int,
                             post: seq<string>, next: int, e: End)
  {
    var o := Opt(s, [s.name] + values);
    if 1 + |values| > 10 then FailsWith(e, p, Error(TooManyOptionArgs, at, Some(s.name), s.id, Some(s.name)))
    else if HasId(p.options, s.id) && !s.allowRepeat then
      if s.lastWins then
        exists i :: 0 <= i < |p.options| == |p.sources| && p.options[i].spec.id == s.id
          && (forall j :: 0 <= j < i ==> p.options[j].spec.id != s.id)
          && e == Run(strict, table, post, next, false, p.(options := p.options[i := o], sources := p.sources[i := at]))
      else FailsWith(e, p, Error(DuplicateOption, at, Some(s.name), s.id, Some(s.name)))
    else if |p.options| >= 32 then FailsWith(e, p, Error(TooManyOptions, at, Some(s.name), s.id, Some(s.name)))
    else
      e == Run(strict, table, post, next, false, p.(options := p.options + [o], sources := p.sources + [at]))
  }

  /** The name of an entry: an error if the number of values is negative or not there, else the option. */
  lemma NamedArgument(strict: bool, table: seq<Spec>, pre: seq<string>, s: Spec, post: seq<string>)
    requires Passes(strict, table, pre) && FindSpec(table, s.name) == Some(s)
    requires s.name != "" && s.name[0] == '-' && '=' !in s.name && s.name != "--"
    ensures var p, at := Found(strict, table, pre), 1 + |pre|;
            var e := Run(strict, table, pre + [s.name] + post, 1, false, EMPTY);
            if s.numArgs < 0 then FailsWith(e, p, Error(InvalidInput, at, Some(s.name), s.id, Some(s.name)))
            else if s.numArgs > |post| then
              FailsWith(e, p, Error(NotEnoughOptionArgs, at, Some(s.name), s.id, Some(s.name)))
            else
              NextOption(strict, table, p, s, post[..s.numArgs], at, post[s.numArgs..], at + 1 + s.numArgs, e)
  {
    hide Passes, Found, OneStep, StoreOption, NextOption, Run;
    assert pre + [s.name] + post == pre + ([s.name] + post);
    RunBehind(strict, table, pre, [s.name] + post);
    NamedRun(strict, table, s, post, 1 + |pre|, Found(strict, table, pre));
  }

  lemma NamedRun(strict: bool, table: seq<Spec>, s: Spec, post: seq<string>, at: int, p: Parsed)
    requires FindSpec(table, s.name) == Some(s) && Tidy(p)
    requires s.name != "" && s.name[0] == '-' && '=' !in s.name && s.name != "--"
    ensures var e := Run(strict, table, [s.name] + post, at, false, p);
            if s.numArgs < 0 then FailsWith(e, p, Error(InvalidInput, at, Some(s.name), s.id, Some(s.name)))
            else if s.numArgs > |post| then
              FailsWith(e, p, Error(NotEnoughOptionArgs, at, Some(s.name), s.id, Some(s.name)))
            else
              NextOption(strict, table, p, s, post[..s.numArgs], at, post[s.numArgs..], at + 1 + s.numArgs, e)
  {
    hide OneStep, StoreOption, NextOption, FindSpec;
    var all, n := [s.name] + post, s.numArgs;
    NamedStep(strict, table, s, post, at, p);
    if 0 <= n <= |post| {
      assert all[1 + n..] == post[n..];
      StoreThenRun(strict, table, p, s, post[..n], at, post[n..], at + 1 + n);
    }
  }

  lemma NamedStep(strict: bool, table: seq<Spec>, s: Spec, post: seq<string>, at: int, p: Parsed)
    requires FindSpec(table, s.name) == Some(s) && s.name != "" && s.name[0] == '-' && '=' !in s.name && s.name != "--"
    ensures OneStep(strict, table, [s.name] + post, at, false, p) ==
            if s.numArgs < 0 then Stop(p.(error := Error(InvalidInput, at, Some(s.name), s.id, Some(s.name))))
            else if s.numArgs > |post| then
              Stop(p.(error := Error(NotEnoughOptionArgs, at, Some(s.name), s.id, Some(s.name))))
            else Of(StoreOption(p, s, s.name, at, post[..s.numArgs]), 1 + s.numArgs, false)
  {
    hide StoreOption;
    EqualsSplit(s.name, "");
    assert s.name + "" == s.name;
    if 0 <= s.numArgs <= |post| {
      assert ([s.name] + post)[1..1 + s.numArgs] == post[..s.numArgs];
    }
  }

  /** Storing and going on, or ending with the error. */
  lemma StoreThenRun(strict: bool, table: seq<Spec>, p: Parsed, s: Spec, values: seq<string>, at: int,
                     post: seq<string>, next: int)
    requires Tidy(p)
    ensures var o := StoreOption(p, s, s.name, at, values);
            NextOption(strict, table, p, s, values, at, post, next,
                       if o.ok then Run(strict, table, post, next, false, o.parsed) else End(false, false, o.parsed))
  {
    FoundIndex(p.options, s.id);
    var i := IndexById(p.options, s.id);
    assert i < |p.options| <==> HasId(p.options, s.id) by {
      if i < |p.options| {
        assert p.options[i].spec.id == s.id;
      }
    }
  }

  /** A name with '=' behind it: an error unless the entry takes exactly one value, else that option with the value. */
  lemma EqualsArgument(strict: bool, table: seq<Spec>, pre: seq<string>, name: string, value: string, post: seq<string>)
    requires Passes(strict, table, pre) && DashDash(name) && '=' !in name && |name| < 256 && FindSpec(table, name).Some?
    ensures var p, at, s := Found(strict, table, pre), 1 + |pre|, FindSpec(table, name).value;
            var arg := name + "=" + value;
            var e := Run(strict, table, pre + [arg] + post, 1, false, EMPTY);
            if s.numArgs != 1 then FailsWith(e, p, Error(EqualsFormNotAllowed, at, Some(arg), s.id, Some(s.name)))
            else NextOption(strict, table, p, s, [value], at, post, at + 1, e)
  {
    hide Passes, Found;
    var arg, s := name + "=" + value, FindSpec(table, name).value;
    var p, at := Found(strict, table, pre), 1 + |pre|;
    EqualsSplit(name, "=" + value);
    assert name + ("=" + value) == arg && arg[..|name|] == name && arg[|name| + 1..] == value;
    FoundSpec(table, name);
    assert arg != "--";
    assert pre + [arg] + post == pre + ([arg] + post) && ([arg] + post)[1..] == post;
    RunBehind(strict, table, pre, [arg] + post);
    hide StoreOption;
    StoreThenRun(strict, table, p, s, [value], at, post, at + 1);
  }

  /** "--" and what is behind it: operands, whatever they look like. */
  lemma DashDashArgument(strict: bool, table: seq<Spec>, pre: seq<string>, operands: seq<string>)
    requires Passes(strict, table, pre)
    ensures var p, e := Found(strict, table, pre), Run(strict, table, pre + ["--"] + operands, 1, false, EMPTY);
            && e.parsed.options == p.options && e.parsed.sources == p.sources
            && (e.ok <==> |p.positionals| + |operands| <= 8)
            && (e.ok ==> e.parsed.positionals == p.positionals + operands && e.parsed.error == CLEAR)
            && (!e.ok ==> e.parsed.error.code == TooManyPositionals)
  {
    hide Passes, Found, OneStep;
    var p, at := Found(strict, table, pre), 1 + |pre|;
    RunBehind(strict, table, pre, ["--"] + operands);
    assert pre + ["--"] + operands == pre + (["--"] + operands) && (["--"] + operands)[1..] == operands;
    DashDashStep(strict, table, operands, at, p);
    OperandsOnly(strict, table, operands, at + 1, p);
    OperandsKeepSources(strict, table, operands, at + 1, p);
    RunIsTidy(strict, table, operands, at + 1, true, p);
  }

  lemma {:induction false} OperandsKeepSources(strict: bool, table: seq<Spec>, operands: seq<string>, at: int,
                                               p: Parsed)
    ensures Run(strict, table, operands, at, true, p).parsed.sources == p.sources
    decreases |operands|
  {
    if operands != [] {
      OperandStep(strict, table, operands, at, p);
      hide OneStep;
      OperandsKeepSources(strict, table, operands[1..], at + 1, AppendPositional(p, operands[0], at).parsed);
    }
  }

  /** The option is required and not there. */
  predicate Lacks(s: Spec, options: seq<Opt>) {
    s.required && !HasId(options, s.id)
  }

  /** A parse whose arguments run through succeeds unless a required option is missing; the first is named. */
  lemma RequiredArguments(strict: bool, table: seq<Spec>, args: seq<string>)
    requires Run(strict, table, args, 1, false, EMPTY).ok
    ensures var p, o := Run(strict, table, args, 1, false, EMPTY).parsed, ParseAll(strict, table, args);
            && (o.ok <==> forall i :: 0 <= i < |table| ==> !Lacks(table[i], p.options))
            && (o.ok ==> o.parsed == p)
            && (forall i :: 0 <= i < |table| && Lacks(table[i], p.options)
                            && (forall j :: 0 <= j < i ==> !Lacks(table[j], p.options)) ==>
                  var s := table[i];
                  o.parsed == p.(error := Error(RequiredOptionMissing, -1, Some(s.name), s.id, Some(s.name))))
  {
    hide Run;
    var p := Run(strict, table, args, 1, false, EMPTY).parsed;
    FirstLacking(table, p.options);
  }

  lemma {:induction false} FirstLacking(table: seq<Spec>, options: seq<Opt>)
    ensures Missing(table, options).None? <==> forall i :: 0 <= i < |table| ==> !Lacks(table[i], options)
    ensures forall i :: 0 <= i < |table| && Lacks(table[i], options)
                        && (forall j :: 0 <= j < i ==> !Lacks(table[j], options)) ==>
              Missing(table, options) == Some(table[i])
  {
    if table != [] {
      FirstLacking(table[1..], options);
      FoundIndex(options, table[0].id);
      var k := IndexById(options, table[0].id);
      assert k < |options| <==> HasId(options, table[0].id) by {
        if k < |options| {
          assert options[k].spec.id == table[0].id;
        }
      }
      forall i | 0 <= i < |table| && Lacks(table[i], options) && (forall j :: 0 <= j < i ==> !Lacks(table[j], options))
        ensures Missing(table, options) == Some(table[i])
      {
        if i > 0 {
          assert !Lacks(table[0], options) && table[i] == table[1..][i - 1];
          assert forall j :: 0 <= j < i - 1 ==> table[1..][j] == table[j + 1];
        }
      }
      assert forall i :: 1 <= i < |table| ==> table[i] == table[1..][i - 1];
    }
  }

  // ---- the normal form ----

  /** The option is one the table offers, with its values. */
  ghost predicate OptOk(table: seq<Spec>, o: Opt) {
    && o.spec in table && FindSpec(table, o.spec.name) == Some(o.spec)
    && 0 <= o.spec.numArgs && |o.args| == 1 + o.spec.numArgs <= MAX_OPTION_ARGS && o.args[0] == o.spec.name
  }

  ghost predicate NoRepeats(options: seq<Opt>) {
    forall i, j :: 0 <= i < j < |options| && options[i].spec.id == options[j].spec.id ==> options[j].spec.allowRepeat
  }

  ghost predicate OptionsOk(table: seq<Spec>, options: seq<Opt>) {
    |options| <= MAX_OPTIONS && (forall o :: o in options ==> OptOk(table, o)) && NoRepeats(options)
  }

  /** Storing keeps the options as the table describes them. */
  lemma StoreKeeps(table: seq<Spec>, p: Parsed, s: Spec, at: int, values: seq<string>)
    requires Regular(table) && OptionsOk(table, p.options)
    requires FindSpec(table, s.name) == Some(s) && 0 <= s.numArgs == |values|
    ensures OptionsOk(table, StoreOption(p, s, s.name, at, values).parsed.options)
  {
    FoundSpec(table, s.name);
    FoundIndex(p.options, s.id);
    var i := IndexById(p.options, s.id);
    var o := Opt(s, [s.name] + values);
    var q := StoreOption(p, s, s.name, at, values);
    if q.ok {
      assert OptOk(table, o);
      if i < |p.options| {
        assert p.options[i] in p.options;
        SameIdSameSpec(table, p.options[i].spec, s);
      }
      assert forall x :: x in q.parsed.options ==> x in p.options || x == o;
    }
  }

  lemma LongKeeps(strict: bool, table: seq<Spec>, arg: string, at: int, p: Parsed)
    requires Regular(table) && OptionsOk(table, p.options)
    ensures var r := LongWithEquals(strict, table, arg, at, p);
            r.Some? ==> OptionsOk(table, r.value.parsed.options) && r.value.parsed.positionals == p.positionals
  {
    hide StoreOption, OptionsOk, Regular;
    var e := EqualsAt(arg);
    if e < |arg| {
      FoundSpec(table, arg[..e]);
      var s := FindSpec(table, arg[..e]);
      if s.Some? && s.value.numArgs == 1 {
        StoreKeeps(table, p, s.value, at, [arg[e + 1..]]);
        StorePositionals(p, s.value, s.value.name, at, [arg[e + 1..]]);
      }
    }
  }

  lemma StepKeeps(strict: bool, table: seq<Spec>, rest: seq<string>, at: int, only: bool, p: Parsed)
    requires rest != [] && Regular(table) && OptionsOk(table, p.options) && |p.positionals| <= MAX_POSITIONALS
    ensures var q := OneStep(strict, table, rest, at, only, p).parsed;
            OptionsOk(table, q.options) && |q.positionals| <= MAX_POSITIONALS
  {
    hide StoreOption, OptionsOk, Regular, LongWithEquals;
    var arg := rest[0];
    LongKeeps(strict, table, arg, at, p);
    FoundSpec(table, arg);
    var s := FindSpec(table, arg);
    if s.Some? && 0 <= s.value.numArgs <= |rest| - 1 {
      StoreKeeps(table, p, s.value, at, rest[1..1 + s.value.numArgs]);
      StorePositionals(p, s.value, arg, at, rest[1..1 + s.value.numArgs]);
    }
  }

  lemma StorePositionals(p: Parsed, s: Spec, spelling: string, at: int, values: seq<string>)
    ensures StoreOption(p, s, spelling, at, values).parsed.positionals == p.positionals
  {
  }

  lemma {:induction false} RunKeeps(strict: bool, table: seq<Spec>, rest: seq<string>, at: int, only: bool, p: Parsed)
    requires Regular(table) && OptionsOk(table, p.options) && |p.positionals| <= MAX_POSITIONALS
    ensures var q := Run(strict, table, rest, at, only, p).parsed;
            OptionsOk(table, q.options) && |q.positionals| <= MAX_POSITIONALS
    decreases |rest|
  {
    hide OneStep, OptionsOk, Regular;
    if rest != [] {
      StepKeeps(strict, table, rest, at, only, p);
      var s := OneStep(strict, table, rest, at, only, p);
      if s.Go? {
        RunKeeps(strict, table, rest[s.used..], at + s.used, s.positionalOnly, s.parsed);
      }
    }
  }

  function RenderedOptions(options: seq<Opt>): (r: seq<string>) {
    if options == [] then [] else options[0].args + RenderedOptions(options[1..])
  }

  /** Names and values option by option, then "--", then the operands. */
  function Rendered(p: Parsed): (r: seq<string>) {
    RenderedOptions(p.options) + (["--"] + p.positionals)
  }

  /** One rendered option is stored as it was. */
  lemma OptionReparses(strict: bool, table: seq<Spec>, done: seq<Opt>, o: Opt, tail: seq<string>, at: int, p: Parsed)
    requires Regular(table) && OptionsOk(table, done + [o]) && p.options == done && o.spec.name != "--"
    ensures o.args + tail != []
    ensures var s := OneStep(strict, table, o.args + tail, at, false, p);
            && s.Go? && s.used == |o.args| && !s.positionalOnly
            && s.parsed.options == done + [o] && s.parsed.positionals == p.positionals
  {
    assert (done + [o])[|done|] == o && o in done + [o];
    var name, n := o.spec.name, o.spec.numArgs;
    EqualsSplit(name, "");
    assert name + "" == name;
    assert (o.args + tail)[1..1 + n] == o.args[1..];
    assert o.args == [name] + o.args[1..];
    FoundIndex(done, o.spec.id);
    var i := IndexById(done, o.spec.id);
    if i < |done| {
      assert (done + [o])[i] == done[i];
    }
  }

  lemma {:induction false} OptionsReparse(strict: bool, table: seq<Spec>, done: seq<Opt>, todo: seq<Opt>,
                                          tail: seq<string>,
                                          at: int, p: Parsed)
    returns (at': int, q: Parsed)
    requires Regular(table) && OptionsOk(table, done + todo) && p.options == done && NoDashDash(todo)
    ensures q.options == done + todo && q.positionals == p.positionals
    ensures Run(strict, table, RenderedOptions(todo) + tail, at, false, p) == Run(strict, table, tail, at', false, q)
    decreases |todo|
  {
    hide OneStep;
    if todo == [] {
      assert RenderedOptions(todo) + tail == tail;
      assert done + todo == done;
      return at, p;
    }
    var o, rest := todo[0], RenderedOptions(todo[1..]) + tail;
    assert RenderedOptions(todo) + tail == o.args + rest;
    assert done + todo == (done + [o]) + todo[1..];
    OptionsPrefix(table, done + [o], todo[1..]);
    OptionReparses(strict, table, done, o, rest, at, p);
    var s := OneStep(strict, table, o.args + rest, at, false, p);
    assert (o.args + rest)[s.used..] == rest;
    at', q := OptionsReparse(strict, table, done + [o], todo[1..], tail, at + s.used, s.parsed);
  }

  lemma OptionsPrefix(table: seq<Spec>, a: seq<Opt>, b: seq<Opt>)
    requires OptionsOk(table, a + b)
    ensures OptionsOk(table, a)
  {
    assert a == (a + b)[..|a|];
    assert forall i :: 0 <= i < |a| ==> a[i] == (a + b)[i];
  }

  /** No option is named "--". */
  predicate NoDashDash(options: seq<Opt>) {
    forall i :: 0 <= i < |options| ==> options[i].spec.name != "--"
  }

  /** A parse gives these options and operands. */
  predicate Gives(o: Outcome, options: seq<Opt>, positionals: seq<string>) {
    o.ok && o.parsed.options == options && o.parsed.positionals == positionals
  }

  /**
   * What a successful parse found, written out as names and values, "--" and operands, parses again to the same
   * options and operands, strict or not, exactly when none of the options is named "--".
   */
  lemma NormalForm(strict: bool, strict': bool, table: seq<Spec>, args: seq<string>)
    requires Regular(table) && ParseAll(strict, table, args).ok
    ensures var p := ParseAll(strict, table, args).parsed;
            Gives(ParseAll(strict', table, Rendered(p)), p.options, p.positionals) <==> NoDashDash(p.options)
  {
    hide OneStep, OptionsOk, Regular;
    assert OptionsOk(table, EMPTY.options) by { EmptyOk(table); }
    RunKeeps(strict, table, args, 1, false, EMPTY);
    var p := ParseAll(strict, table, args).parsed;
    if NoDashDash(p.options) {
      RendersBack(strict', table, p);
    } else {
      StopsAtDashDash(strict', table, p);
    }
  }

  lemma RendersBack(strict: bool, table: seq<Spec>, p: Parsed)
    requires Regular(table) && OptionsOk(table, p.options) && |p.positionals| <= MAX_POSITIONALS
               && NoDashDash(p.options)
    requires Missing(table, p.options).None?
    ensures Gives(ParseAll(strict, table, Rendered(p)), p.options, p.positionals)
  {
    hide OneStep, OptionsOk, Regular;
    var tail := ["--"] + p.positionals;
    assert EMPTY.options + p.options == p.options;
    var at, q := OptionsReparse(strict, table, EMPTY.options, p.options, tail, 1, EMPTY);
    DashDashStep(strict, table, p.positionals, at, q);
    assert tail[1..] == p.positionals;
    OperandsOnly(strict, table, p.positionals, at + 1, q);
    assert q.positionals + p.positionals == p.positionals;
  }

  /** The first option named "--" ends the options: neither it nor any behind it is found again. */
  lemma StopsAtDashDash(strict: bool, table: seq<Spec>, p: Parsed)
    requires Regular(table) && OptionsOk(table, p.options) && !NoDashDash(p.options)
    ensures |ParseAll(strict, table, Rendered(p)).parsed.options| < |p.options|
  {
    hide OneStep, Regular, OptionsOk, Missing, Run, RenderedOptions, Rendered, NoDashDash;
    var k := FirstDashDash(p.options);
    var tail := RenderedOptions(p.options[k..]) + (["--"] + p.positionals);
    var at, q := FrontReparses(strict, table, p, k);
    StartsDashDash(table, p.options, k, ["--"] + p.positionals);
    DashDashRun(strict, table, tail, at, q);
  }

  /** The options in front are found again. */
  lemma FrontReparses(strict: bool, table: seq<Spec>, p: Parsed, k: nat) returns (at: int, q: Parsed)
    requires Regular(table) && OptionsOk(table, p.options) && k < |p.options| && NoDashDash(p.options[..k])
    ensures q.options == p.options[..k] && q.positionals == []
    ensures Run(strict, table, Rendered(p), 1, false, EMPTY)
            == Run(strict, table, RenderedOptions(p.options[k..]) + (["--"] + p.positionals), at, false, q)
  {
    hide OneStep, Regular, Run, NoDashDash, RenderedOptions;
    var front, back := p.options[..k], p.options[k..];
    assert p.options == front + back && EMPTY.options + front == front;
    OptionsPrefix(table, front, back);
    RenderedConcat(front, back);
    var tail := RenderedOptions(back) + (["--"] + p.positionals);
    assert Rendered(p) == RenderedOptions(front) + tail;
    at, q := OptionsReparse(strict, table, EMPTY.options, front, tail, 1, EMPTY);
  }

  /** "--" ends the options for good. */
  lemma DashDashRun(strict: bool, table: seq<Spec>, rest: seq<string>, at: int, q: Parsed)
    requires rest != [] && rest == ["--"] + rest[1..] && |q.positionals| <= MAX_POSITIONALS
    ensures Run(strict, table, rest, at, false, q).parsed.options == q.options
  {
    hide OneStep;
    DashDashStep(strict, table, rest[1..], at, q);
    OperandsOnly(strict, table, rest[1..], at + 1, q);
  }

  lemma StartsDashDash(table: seq<Spec>, options: seq<Opt>, k: nat, tail: seq<string>)
    requires OptionsOk(table, options) && k < |options| && options[k].spec.name == "--"
    ensures var all := RenderedOptions(options[k..]) + tail; all != [] && all == ["--"] + all[1..]
  {
    var all := RenderedOptions(options[k..]) + tail;
    assert options[k] in options && OptOk(table, options[k]);
    assert RenderedOptions(options[k..]) == options[k].args + RenderedOptions(options[k..][1..]);
    assert all[0] == "--";
  }

  function FirstDashDash(options: seq<Opt>): (k: nat)
    requires !NoDashDash(options)
    ensures k < |options| && options[k].spec.name == "--" && NoDashDash(options[..k])
  {
    if options[0].spec.name == "--" then 0
    else
      assert options == [options[0]] + options[1..];
      1 + FirstDashDash(options[1..])
  }

  lemma {:induction false} RenderedConcat(a: seq<Opt>, b: seq<Opt>)
    ensures RenderedOptions(a + b) == RenderedOptions(a) + RenderedOptions(b)
  {
    if a == [] {
      assert a + b == b;
    } else {
      assert (a + b)[1..] == a[1..] + b;
      RenderedConcat(a[1..], b);
    }
  }

  /** "--" itself can only be stored from "--=v", which takes exactly one value. */
  lemma {:induction false} DashDashNeverStored(strict: bool, table: seq<Spec>, rest: seq<string>, at: int, only: bool,
                                               p: Parsed)
    requires FindSpec(table, "--").Some? ==> FindSpec(table, "--").value.numArgs != 1
    requires NoDashDash(p.options)
    ensures NoDashDash(Run(strict, table, rest, at, only, p).parsed.options)
    decreases |rest|
  {
    hide OneStep;
    if rest != [] {
      StepStoresNoDashDash(strict, table, rest, at, only, p);
      var s := OneStep(strict, table, rest, at, only, p);
      if s.Go? {
        DashDashNeverStored(strict, table, rest[s.used..], at + s.used, s.positionalOnly, s.parsed);
      }
    }
  }

  lemma StepStoresNoDashDash(strict: bool, table: seq<Spec>, rest: seq<string>, at: int, only: bool, p: Parsed)
    requires FindSpec(table, "--").Some? ==> FindSpec(table, "--").value.numArgs != 1
    requires rest != [] && NoDashDash(p.options)
    ensures NoDashDash(OneStep(strict, table, rest, at, only, p).parsed.options)
  {
    hide StoreOption, NoDashDash;
    var arg := rest[0];
    var s, key := FindSpec(table, arg), FindSpec(table, arg[..EqualsAt(arg)]);
    FoundSpec(table, arg);
    FoundSpec(table, arg[..EqualsAt(arg)]);
    if key.Some? && EqualsAt(arg) < |arg| && key.value.numArgs == 1 {
      StoreStoresNoDashDash(p, key.value, key.value.name, at, [arg[EqualsAt(arg) + 1..]]);
    }
    if s.Some? && 0 <= s.value.numArgs <= |rest| - 1 && arg != "--" {
      StoreStoresNoDashDash(p, s.value, arg, at, rest[1..1 + s.value.numArgs]);
    }
  }

  lemma StoreStoresNoDashDash(p: Parsed, s: Spec, spelling: string, at: int, values: seq<string>)
    requires NoDashDash(p.options) && s.name != "--"
    ensures NoDashDash(StoreOption(p, s, spelling, at, values).parsed.options)
  {
  }

  /** So a table that offers no "--" with exactly one value has a normal form for everything it parses. */
  lemma NormalFormOfTable(strict: bool, strict': bool, table: seq<Spec>, args: seq<string>)
    requires Regular(table) && ParseAll(strict, table, args).ok
    requires FindSpec(table, "--").Some? ==> FindSpec(table, "--").value.numArgs != 1
    ensures var p := ParseAll(strict, table, args).parsed;
            Gives(ParseAll(strict', table, Rendered(p)), p.options, p.positionals)
  {
    hide Regular, Rendered;
    NormalForm(strict, strict', table, args);
    DashDashNeverStored(strict, table, args, 1, false, EMPTY);
  }

  lemma EmptyOk(table: seq<Spec>)
    ensures OptionsOk(table, [])
  {
  }

  lemma DashDashStep(strict: bool, table: seq<Spec>, operands: seq<string>, at: int, q: Parsed)
    ensures OneStep(strict, table, ["--"] + operands, at, false, q) == Go(1, true, q)
  {
  }

  /** A table that offers "--" with one value, and arguments whose normal form does not parse back. */
  lemma DashDashNameFails()
    ensures var s := Spec("--", 1, 1, false, false, false);
            var first := ParseAll(true, [s], ["--=v"]);
            first.ok && ParseAll(true, [s], Rendered(first.parsed)).parsed.options != first.parsed.options
  {
    var s := Spec("--", 1, 1, false, false, false);
    EqualsSplit("--", "=v");
    assert "--" + "=v" == "--=v" && "--=v"[..2] == "--" && "--=v"[3..] == "v";
    assert FindSpec([s], "--") == Some(s);
    var first := ParseAll(true, [s], ["--=v"]);
    var o := Opt(s, ["--", "v"]);
    assert ["--"] + ["v"] == o.args;
    var step := OneStep(true, [s], ["--=v"], 1, false, EMPTY);
    assert step.Go? && step.parsed.options == [o];
    assert ["--=v"][1..] == [];
    assert first.parsed.options == [o] && first.parsed.positionals == [];
    var r := Rendered(first.parsed);
    assert [o][1..] == [] && RenderedOptions([o]) == o.args + [];
    assert r == ["--", "v", "--"];
    assert r[1..] == ["v", "--"];
    OperandsOnly(true, [s], ["v", "--"], 2, EMPTY);
  }
}
