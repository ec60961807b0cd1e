/** The command grammar (`parsing::message_parser_builder` and
    `parsing::message_parser`): a builder that declares commands with ordered
    positional parameters, and a parser that splits a line on whitespace and
    matches it against the declared commands.

    Handlers are not modelled. Where the source calls the chosen handler with
    the argument list, parsing here yields `Invoke(name, args)`. */
module Grammar {
  import opened Outcomes
  import opened Text

  /** A declared command: its parameter names in declaration order, and whether
      `end` has bound a handler to it. */
  datatype Command = Command(params: seq<string>, bound: bool)

  /** The builder's state: the commands declared so far and the one whose
      definition is still open (`current_command`). */
  datatype Builder = Builder(commands: map<string, Command>, open: Option<string>)
  {
    predicate Valid()
    {
      open.Some? ==> open.value in commands
    }
  }

  /** A built parser: the table from command name to command. */
  datatype Parser = Parser(commands: map<string, Command>)

  function EmptyBuilder(): (b: Builder)
    ensures b.Valid() && b.open.None? && b.commands == map[]
  {
    Builder(map[], None)
  }

  /** `command(name)`: opens the definition of a fresh command that has no
      parameters and no handler yet. The source asserts that no definition is
      open and that the name is new. */
  function BeginCommand(b: Builder, name: string): (b': Builder)
    requires b.Valid() && b.open.None?
    requires name !in b.commands
    ensures b'.Valid() && b'.open == Some(name)
    ensures b'.commands.Keys == b.commands.Keys + {name}
    ensures b'.commands[name] == Command([], false)
    ensures forall n :: n in b.commands ==> b'.commands[n] == b.commands[n]
  {
    Builder(b.commands[name := Command([], false)], Some(name))
  }

  /** `parameter(name)`: appends a parameter to the open definition. */
  function AddParameter(b: Builder, name: string): (b': Builder)
    requires b.Valid() && b.open.Some?
    ensures b'.Valid() && b'.open == b.open
    ensures b'.commands.Keys == b.commands.Keys
    ensures b'.commands[b.open.value].params == b.commands[b.open.value].params + [name]
    ensures b'.commands[b.open.value].bound == b.commands[b.open.value].bound
    ensures forall n :: n in b.commands && n != b.open.value ==> b'.commands[n] == b.commands[n]
  {
    var c := b.commands[b.open.value];
    Builder(b.commands[b.open.value := c.(params := c.params + [name])], b.open)
  }

  /** `end(handler)`: binds the handler and closes the open definition. */
  function EndCommand(b: Builder): (b': Builder)
    requires b.Valid() && b.open.Some?
    ensures b'.Valid() && b'.open.None?
    ensures b'.commands.Keys == b.commands.Keys
    ensures b'.commands[b.open.value] == b.commands[b.open.value].(bound := true)
    ensures forall n :: n in b.commands && n != b.open.value ==> b'.commands[n] == b.commands[n]
  {
    var c := b.commands[b.open.value];
    Builder(b.commands[b.open.value := c.(bound := true)], None)
  }

  /** `build()`: hands the table over to a parser. The source does not check
      that the last definition was closed. */
  function Build(b: Builder): Parser
  {
    Parser(b.commands)
  }

  // ---------------------------------------------------------------------------
  // A grammar as a list of declarations

  /** One `command(name).parameter(p1)...parameter(pk).end(handler)` chain. */
  datatype Declaration = Declaration(name: string, params: seq<string>)

  predicate DistinctNames(ds: seq<Declaration>)
  {
    forall i, j :: 0 <= i < j < |ds| ==> ds[i].name != ds[j].name
  }

  function DeclaredNames(ds: seq<Declaration>): set<string>
  {
    set i | 0 <= i < |ds| :: ds[i].name
  }

  /** The `parameter` calls of one declaration, in order. */
  function AddParameters(b: Builder, ps: seq<string>): (b': Builder)
    requires b.Valid() && b.open.Some?
    ensures b'.Valid() && b'.open == b.open
    ensures b'.commands.Keys == b.commands.Keys
    ensures b'.commands[b.open.value] == b.commands[b.open.value].(params := b.commands[b.open.value].params + ps)
    ensures forall n :: n in b.commands && n != b.open.value ==> b'.commands[n] == b.commands[n]
    decreases |ps|
  {
    if |ps| == 0 then
      assert b.commands[b.open.value].params + ps == b.commands[b.open.value].params;
      b
    else
      var b1 := AddParameter(b, ps[0]);
      assert b.commands[b.open.value].params + [ps[0]] + ps[1..] == b.commands[b.open.value].params + ps;
      AddParameters(b1, ps[1..])
  }

  /** One complete declaration: the command maps to its parameters in order,
      with a bound handler, and nothing else in the table changes. */
  function DeclareOne(b: Builder, d: Declaration): (b': Builder)
    requires b.Valid() && b.open.None?
    requires d.name !in b.commands
    ensures b'.Valid() && b'.open.None?
    ensures b'.commands == b.commands[d.name := Command(d.params, true)]
  {
    var b1 := BeginCommand(b, d.name);
    var b2 := AddParameters(b1, d.params);
    var b3 := EndCommand(b2);
    assert b3.commands.Keys == b.commands.Keys + {d.name};
    assert b3.commands[d.name] == Command(d.params, true);
    b3
  }

  lemma DeclaredNamesCons(ds: seq<Declaration>)
    requires |ds| > 0
    ensures DeclaredNames(ds) == {ds[0].name} + DeclaredNames(ds[1..])
  {
    forall n | n in DeclaredNames(ds) ensures n in {ds[0].name} + DeclaredNames(ds[1..]) {
      var i :| 0 <= i < |ds| && ds[i].name == n;
      if i > 0 {
        assert ds[1..][i - 1].name == n;
      }
    }
    forall n | n in DeclaredNames(ds[1..]) ensures n in DeclaredNames(ds) {
      var i :| 0 <= i < |ds[1..]| && ds[1..][i].name == n;
      assert ds[i + 1].name == n;
    }
  }

  /** The rest of the declarations stay distinct and fresh once the first is made. */
  lemma DeclareRest(b: Builder, ds: seq<Declaration>)
    requires |ds| > 0 && DistinctNames(ds)
    requires forall i :: 0 <= i < |ds| ==> ds[i].name !in b.commands
    ensures DistinctNames(ds[1..])
    ensures forall i :: 0 <= i < |ds[1..]| ==> ds[1..][i].name !in b.commands[ds[0].name := Command(ds[0].params, true)]
  {
    forall i | 0 <= i < |ds[1..]|
      ensures ds[1..][i].name !in b.commands[ds[0].name := Command(ds[0].params, true)]
    {
      assert ds[1..][i] == ds[i + 1];
    }
  }

  /** Runs the builder over a list of declarations with distinct, fresh names:
      the table gains exactly the declared names, and no definition is left
      open. */
  function DeclareAll(b: Builder, ds: seq<Declaration>): (b': Builder)
    requires b.Valid() && b.open.None?
    requires DistinctNames(ds)
    requires forall i :: 0 <= i < |ds| ==> ds[i].name !in b.commands
    ensures b'.Valid() && b'.open.None?
    ensures b'.commands.Keys == b.commands.Keys + DeclaredNames(ds)
    decreases |ds|
  {
    if |ds| == 0 then
      assert DeclaredNames(ds) == {};
      b
    else
      var d := ds[0];
      var b1 := DeclareOne(b, d);
      DeclareRest(b, ds);
      DeclaredNamesCons(ds);
      assert b1.commands.Keys == b.commands.Keys + {d.name};
      DeclareAll(b1, ds[1..])
  }

  /** After the declarations, every declared command maps to its parameters in
      declaration order with a bound handler, and nothing declared earlier
      changes. */
  lemma {:induction false} DeclareAllCommands(b: Builder, ds: seq<Declaration>)
    requires b.Valid() && b.open.None?
    requires DistinctNames(ds)
    requires forall i :: 0 <= i < |ds| ==> ds[i].name !in b.commands
    ensures forall i :: 0 <= i < |ds| ==> DeclareAll(b, ds).commands[ds[i].name] == Command(ds[i].params, true)
    ensures forall n :: n in b.commands ==> DeclareAll(b, ds).commands[n] == b.commands[n]
    decreases |ds|
  {
    if |ds| > 0 {
      var d := ds[0];
      var b1 := DeclareOne(b, d);
      DeclareRest(b, ds);
      assert DeclareAll(b, ds) == DeclareAll(b1, ds[1..]);
      DeclareAllCommands(b1, ds[1..]);
      forall i | 1 <= i < |ds|
        ensures DeclareAll(b, ds).commands[ds[i].name] == Command(ds[i].params, true)
      {
        assert ds[i] == ds[1..][i - 1];
      }
    }
  }

  // ---------------------------------------------------------------------------
  // Parsing

  predicate Distinct(xs: seq<string>)
  {
    forall i, j :: 0 <= i < j < |xs| ==> xs[i] != xs[j]
  }

  /** Whether `visit` lists every key of the table exactly once: the shape of
      an iteration over the `unordered_map`, whose order is unspecified. */
  predicate IsEnumeration(visit: seq<string>, keys: set<string>)
  {
    Distinct(visit) && (forall k :: k in visit ==> k in keys) && (forall k :: k in keys ==> k in visit)
  }

  lemma {:induction false} EnumerationSize(visit: seq<string>, keys: set<string>)
    requires IsEnumeration(visit, keys)
    ensures |visit| == |keys|
    decreases |visit|
  {
    if |visit| > 0 {
      var rest := keys - {visit[0]};
      forall k ensures k in visit[1..] <==> k in rest {
        if k in visit[1..] {
          var i :| 0 <= i < |visit[1..]| && visit[1..][i] == k;
          assert visit[i + 1] == k;
        }
        if k in rest {
          var i :| 0 <= i < |visit| && visit[i] == k;
          assert i > 0 && visit[1..][i - 1] == k;
        }
      }
      EnumerationSize(visit[1..], rest);
    }
  }

  /** `get_map_keys`: the table's keys in the order the map is visited, which
      the model receives as `visit`. Each name appears exactly once. */
  function GetMapKeys(m: map<string, Command>, visit: seq<string>): (keys: seq<string>)
    requires IsEnumeration(visit, m.Keys)
    ensures |keys| == |m|
    ensures Distinct(keys)
    ensures forall k :: k in keys <==> k in m
  {
    EnumerationSize(visit, m.Keys);
    visit
  }

  /** `concat_strings_formatted`: each string followed by a comma after an
      opening bracket, then the last character overwritten with `]`. */
  function ConcatStringsFormatted(strings: seq<string>): (r: string)
    ensures |strings| > 0 ==> r == "[" + Join(strings, ",") + "]"
    ensures |strings| == 0 ==> r == "]"
  {
    var res := "[" + Terminated(strings, ",");
    if |strings| > 0 then
      TerminatedIsJoin(strings, ",");
      assert res == "[" + Join(strings, ",") + ",";
      res[..|res| - 1] + "]"
    else
      res[..|res| - 1] + "]"
  }

  /** The three ways `parse` throws `parsing_exception`. */
  datatype ParseError =
    | ExpectedCommand(names: seq<string>)
    | ExpectedParameter(name: string)
    | ExtraneousParameter(token: string)

  /** `parsing_exception::what()`. */
  function Message(e: ParseError): string
  {
    match e
    case ExpectedCommand(names) => "expected command: " + ConcatStringsFormatted(names)
    case ExpectedParameter(name) => "expected parameter: " + name
    case ExtraneousParameter(token) => "extraneous parameter: '" + token + "'"
  }

  /** How `parse` ends: the handler it calls and the arguments it passes, the
      error it throws, or the `std::bad_function_call` of a command whose
      definition was never closed. */
  datatype ParseOutcome =
    | Invoke(command: string, args: seq<string>)
    | Rejected(error: ParseError)
    | HandlerMissing(command: string)

  /** One extraction per parameter. Fails with the first parameter no token is
      left for; otherwise yields the tokens read and the unread input. */
  function ReadArgs(params: seq<string>, s: string): Result<(seq<string>, string), string>
    decreases |params|
  {
    if |params| == 0 then Success(([], s))
    else
      var e := Extract(s);
      if e.None? then Failure(params[0])
      else
        var r := ReadArgs(params[1..], e.value.1);
        if r.Failure? then r
        else Success(([e.value.0] + r.value.0, r.value.1))
  }

  /** With fewer tokens than parameters, reading fails naming the first
      parameter beyond the tokens present. */
  lemma {:induction false} ReadArgsShort(params: seq<string>, s: string)
    requires |Tokens(s)| < |params|
    ensures ReadArgs(params, s) == Failure(params[|Tokens(s)|])
    decreases |params|
  {
    TokensStep(s);
    var e := Extract(s);
    if e.Some? {
      ReadArgsShort(params[1..], e.value.1);
    }
  }

  /** With enough tokens, reading returns the first ones in order and leaves
      exactly the others unread. */
  lemma {:induction false} ReadArgsEnough(params: seq<string>, s: string)
    requires |Tokens(s)| >= |params|
    ensures ReadArgs(params, s).Success?
    ensures ReadArgs(params, s).value.0 == Tokens(s)[..|params|]
    ensures Tokens(ReadArgs(params, s).value.1) == Tokens(s)[|params|..]
    decreases |params|
  {
    if |params| > 0 {
      TokensStep(s);
      var e := Extract(s);
      assert e.Some?;
      var w := e.value.0;
      var rest := e.value.1;
      assert Tokens(s) == [w] + Tokens(rest);
      ReadArgsEnough(params[1..], rest);
      var r := ReadArgs(params[1..], rest);
      assert ReadArgs(params, s) == Success(([w] + r.value.0, r.value.1));
      SliceCons(w, Tokens(rest), |params| - 1);
    }
  }

  /** `message_parser::parse`: the first token picks the command, one
      extraction per parameter follows, and one more extraction must fail. */
  function Parse(p: Parser, visit: seq<string>, line: string): ParseOutcome
    requires IsEnumeration(visit, p.commands.Keys)
  {
    var names := GetMapKeys(p.commands, visit);
    var first := Extract(line);
    if first.None? || first.value.0 !in p.commands then Rejected(ExpectedCommand(names))
    else
      var name := first.value.0;
      var cmd := p.commands[name];
      var read := ReadArgs(cmd.params, first.value.1);
      if read.Failure? then Rejected(ExpectedParameter(read.error))
      else
        var extra := Extract(read.value.1);
        if extra.Some? then Rejected(ExtraneousParameter(extra.value.0))
        else if cmd.bound then Invoke(name, read.value.0)
        else HandlerMissing(name)
  }

  /** Parsing once the first token has been extracted and names a command. */
  lemma ParseAfterCommand(p: Parser, visit: seq<string>, line: string, name: string, rest: string)
    requires IsEnumeration(visit, p.commands.Keys)
    requires Extract(line) == Some((name, rest)) && name in p.commands
    ensures Parse(p, visit, line) ==
      var read := ReadArgs(p.commands[name].params, rest);
      if read.Failure? then Rejected(ExpectedParameter(read.error))
      else if Extract(read.value.1).Some? then Rejected(ExtraneousParameter(Extract(read.value.1).value.0))
      else if p.commands[name].bound then Invoke(name, read.value.0)
      else HandlerMissing(name)
  {
  }

  lemma ParseTooFew(p: Parser, visit: seq<string>, line: string, name: string, rest: string)
    requires IsEnumeration(visit, p.commands.Keys)
    requires Extract(line) == Some((name, rest)) && name in p.commands
    requires |Tokens(rest)| < |p.commands[name].params|
    ensures Parse(p, visit, line) == Rejected(ExpectedParameter(p.commands[name].params[|Tokens(rest)|]))
  {
    ReadArgsShort(p.commands[name].params, rest);
    ParseAfterCommand(p, visit, line, name, rest);
  }

  lemma ParseTooMany(p: Parser, visit: seq<string>, line: string, name: string, rest: string)
    requires IsEnumeration(visit, p.commands.Keys)
    requires Extract(line) == Some((name, rest)) && name in p.commands
    requires |Tokens(rest)| > |p.commands[name].params|
    ensures Parse(p, visit, line) == Rejected(ExtraneousParameter(Tokens(rest)[|p.commands[name].params|]))
  {
    var ps := p.commands[name].params;
    var read := ReadArgs(ps, rest);
    assert read.Success? && Tokens(read.value.1) == Tokens(rest)[|ps|..] by {
      ReadArgsEnough(ps, rest);
    }
    var extra := Extract(read.value.1);
    assert extra.Some? && extra.value.0 == Tokens(rest)[|ps|] by {
      TokensStep(read.value.1);
      assert Tokens(read.value.1)[0] == Tokens(rest)[|ps|];
    }
    ParseAfterCommand(p, visit, line, name, rest);
  }

  lemma ParseExact(p: Parser, visit: seq<string>, line: string, name: string, rest: string)
    requires IsEnumeration(visit, p.commands.Keys)
    requires Extract(line) == Some((name, rest)) && name in p.commands
    requires |Tokens(rest)| == |p.commands[name].params|
    ensures p.commands[name].bound ==> Parse(p, visit, line) == Invoke(name, Tokens(rest))
    ensures !p.commands[name].bound ==> Parse(p, visit, line) == HandlerMissing(name)
  {
    var ps := p.commands[name].params;
    var read := ReadArgs(ps, rest);
    assert read.Success? && read.value.0 == Tokens(rest) && Tokens(read.value.1) == [] by {
      ReadArgsEnough(ps, rest);
      assert Tokens(rest)[..|ps|] == Tokens(rest);
    }
    assert Extract(read.value.1).None? by {
      TokensStep(read.value.1);
    }
    ParseAfterCommand(p, visit, line, name, rest);
  }

  /** What parsing does, in terms of the tokens `ts` of the line: the first
      token must name a command, or it fails listing every command name; then
      exactly one token per parameter must follow, or it fails naming the first
      parameter left without a token, or quoting the first token too many.
      Otherwise the handler gets the remaining tokens unchanged. */
  lemma ParseTokens(p: Parser, visit: seq<string>, line: string)
    requires IsEnumeration(visit, p.commands.Keys)
    ensures var ts := Tokens(line); var r := Parse(p, visit, line);
      if |ts| == 0 || ts[0] !in p.commands then
        r == Rejected(ExpectedCommand(visit))
      else
        var ps := p.commands[ts[0]].params;
        if |ts| - 1 < |ps| then r == Rejected(ExpectedParameter(ps[|ts| - 1]))
        else if |ts| - 1 > |ps| then r == Rejected(ExtraneousParameter(ts[|ps| + 1]))
        else if p.commands[ts[0]].bound then r == Invoke(ts[0], ts[1..])
        else r == HandlerMissing(ts[0])
  {
    TokensStep(line);
    var first := Extract(line);
    if first.Some? && first.value.0 in p.commands {
      var name, rest := first.value.0, first.value.1;
      var ts := Tokens(line);
      assert ts[0] == name && ts[1..] == Tokens(rest);
      var ps := p.commands[name].params;
      if |Tokens(rest)| < |ps| {
        ParseTooFew(p, visit, line, name, rest);
      } else if |Tokens(rest)| > |ps| {
        ParseTooMany(p, visit, line, name, rest);
        assert ts[|ps| + 1] == Tokens(rest)[|ps|];
      } else {
        ParseExact(p, visit, line, name, rest);
      }
    }
  }

  /** The cases of `ParseTokens` one at a time. */
  lemma ParseRejectsCommand(p: Parser, visit: seq<string>, line: string)
    requires IsEnumeration(visit, p.commands.Keys)
    requires |Tokens(line)| == 0 || Tokens(line)[0] !in p.commands
    ensures Parse(p, visit, line) == Rejected(ExpectedCommand(visit))
  {
    ParseTokens(p, visit, line);
  }

  lemma ParseMissesParameter(p: Parser, visit: seq<string>, line: string)
    requires IsEnumeration(visit, p.commands.Keys)
    requires |Tokens(line)| > 0 && Tokens(line)[0] in p.commands
    requires |Tokens(line)| - 1 < |p.commands[Tokens(line)[0]].params|
    ensures Parse(p, visit, line)
      == Rejected(ExpectedParameter(p.commands[Tokens(line)[0]].params[|Tokens(line)| - 1]))
  {
    ParseTokens(p, visit, line);
  }

  lemma ParseFindsExtra(p: Parser, visit: seq<string>, line: string)
    requires IsEnumeration(visit, p.commands.Keys)
    requires |Tokens(line)| > 0 && Tokens(line)[0] in p.commands
    requires |Tokens(line)| - 1 > |p.commands[Tokens(line)[0]].params|
    ensures Parse(p, visit, line)
      == Rejected(ExtraneousParameter(Tokens(line)[|p.commands[Tokens(line)[0]].params| + 1]))
  {
    ParseTokens(p, visit, line);
  }

  /** Parsing calls a handler exactly when the line is a declared, closed
      command followed by one token per parameter, and passes those tokens. */
  lemma ParseInvokes(p: Parser, visit: seq<string>, line: string)
    requires IsEnumeration(visit, p.commands.Keys)
    ensures Parse(p, visit, line).Invoke? <==>
      var ts := Tokens(line);
      |ts| > 0 && ts[0] in p.commands && p.commands[ts[0]].bound
      && |ts| == 1 + |p.commands[ts[0]].params|
    ensures Parse(p, visit, line).Invoke? ==>
      Tokens(line) == [Parse(p, visit, line).command] + Parse(p, visit, line).args
  {
    ParseTokens(p, visit, line);
  }

  /** The "expected command" error lists every command name exactly once. */
  lemma ExpectedCommandListsNames(p: Parser, visit: seq<string>, line: string)
    requires IsEnumeration(visit, p.commands.Keys)
    requires Parse(p, visit, line).Rejected? && Parse(p, visit, line).error.ExpectedCommand?
    ensures var names := Parse(p, visit, line).error.names;
      |names| == |p.commands| && Distinct(names) && (forall k :: k in names <==> k in p.commands)
  {
    var names := GetMapKeys(p.commands, visit);
    assert Parse(p, visit, line).error.names == names;
  }

  /** Its message shows the names between brackets, separated by commas. */
  lemma ExpectedCommandMessage(p: Parser, visit: seq<string>, line: string)
    requires IsEnumeration(visit, p.commands.Keys) && |p.commands| > 0
    requires Parse(p, visit, line).Rejected? && Parse(p, visit, line).error.ExpectedCommand?
    ensures Message(Parse(p, visit, line).error) == "expected command: [" + Join(visit, ",") + "]"
  {
    assert Parse(p, visit, line).error.names == visit;
    EnumerationSize(visit, p.commands.Keys);
  }
}
