/** The shop client of the demo: the grammar it declares for lines typed by
    the user, and the request each command turns into. The user name comes
    from the environment in the source; here it is a parameter. */
module Client {
  import opened Outcomes
  import opened Text
  import opened Grammar
  import Server

  const ClientCommands: map<string, Command> := map[
    "list" := Command([], true),
    "bal" := Command([], true),
    "buy" := Command(["ITEM", "COUNT"], true)]

  /** The parser the client runs on every input line. */
  const ClientParser: Parser := Parser(ClientCommands)

  /** The builder calls the client makes, in source order, produce exactly
      that parser. */
  function BuildClientParser(): (p: Parser)
    ensures p == ClientParser
  {
    var b1 := DeclareOne(EmptyBuilder(), Declaration("list", []));
    var b2 := DeclareOne(b1, Declaration("bal", []));
    var b3 := DeclareOne(b2, Declaration("buy", ["ITEM", "COUNT"]));
    Build(b3)
  }

  /** What the client does with one input line: send a request (and then wait
      for the reply), print a parsing error without sending anything, or stop
      on an exception that is not a parsing error. */
  datatype Action = Transmit(request: string) | Report(text: string) | Abort

  /** One line of input. */
  function ClientStep(user: string, visit: seq<string>, line: string): Action
    requires IsEnumeration(visit, ClientCommands.Keys)
  {
    Respond(user, Parse(ClientParser, visit, line))
  }

  /** The handler call, or the `catch` that prints a parsing error. */
  function Respond(user: string, o: ParseOutcome): Action
  {
    match o
    case Rejected(e) => Report(Message(e))
    case HandlerMissing(_) => Abort
    case Invoke(name, args) =>
      if name == "list" then Transmit("list")
      else if name == "bal" then Transmit("bal " + user)
      else if name == "buy" && |args| == 2 then Transmit("buy " + user + " " + args[0] + " " + args[1])
      else Abort
  }

  lemma ClientCommandsLookup(n: string)
    requires n in ClientCommands
    ensures n == "list" ==> |ClientCommands[n].params| == 0
    ensures n == "bal" ==> |ClientCommands[n].params| == 0
    ensures n != "list" && n != "bal" ==> n == "buy" && |ClientCommands[n].params| == 2
  {
  }

  /** The lines the client grammar accepts: `list`, `bal`, and `buy` with two
      words. */
  predicate Accepted(ts: seq<string>)
  {
    (|ts| == 1 && ts[0] == "list") || (|ts| == 1 && ts[0] == "bal") || (|ts| == 3 && ts[0] == "buy")
  }

  lemma ClientParseAccepted(visit: seq<string>, line: string)
    requires IsEnumeration(visit, ClientCommands.Keys)
    requires Accepted(Tokens(line))
    ensures Parse(ClientParser, visit, line) == Invoke(Tokens(line)[0], Tokens(line)[1..])
  {
    ParseTokens(ClientParser, visit, line);
  }

  lemma ClientParseOther(visit: seq<string>, line: string)
    requires IsEnumeration(visit, ClientCommands.Keys)
    requires !Accepted(Tokens(line))
    ensures Parse(ClientParser, visit, line).Rejected?
  {
    var ts := Tokens(line);
    var p := ClientParser;
    ParseTokens(p, visit, line);
    if |ts| > 0 && ts[0] in p.commands {
      ClientCommandsLookup(ts[0]);
    }
  }

  /** The request each accepted line becomes: `list` as is, and `bal` and
      `buy` with the user's name inserted after the command. */
  lemma ClientTransmits(user: string, visit: seq<string>, line: string)
    requires IsEnumeration(visit, ClientCommands.Keys)
    requires Accepted(Tokens(line))
    ensures var ts := Tokens(line);
      ClientStep(user, visit, line) ==
        if ts[0] == "list" then Transmit("list")
        else if ts[0] == "bal" then Transmit("bal " + user)
        else Transmit("buy " + user + " " + ts[1] + " " + ts[2])
  {
    ClientParseAccepted(visit, line);
  }

  /** A line the grammar does not accept sends nothing: the client prints the
      parsing error and does not wait for a reply. */
  lemma ClientReportsErrors(user: string, visit: seq<string>, line: string)
    requires IsEnumeration(visit, ClientCommands.Keys)
    requires !Accepted(Tokens(line))
    ensures Parse(ClientParser, visit, line).Rejected?
    ensures ClientStep(user, visit, line)
      == Report(Message(Parse(ClientParser, visit, line).error))
  {
    ClientParseOther(visit, line);
  }

  /** The client's `bal` takes no parameter: a word after it is refused and
      quoted, where the server's `bal` would take it as the user name. */
  lemma ClientBalRefusesName(user: string, visit: seq<string>, word: string)
    requires IsEnumeration(visit, ClientCommands.Keys)
    requires IsWord(word)
    ensures ClientStep(user, visit, "bal " + word) == Report("extraneous parameter: '" + word + "'")
  {
    var line := "bal " + word;
    BalRequestTokens(word);
    ParseFindsExtra(ClientParser, visit, line);
  }

  // ---------------------------------------------------------------------------
  // Client requests against the server's grammar

  lemma BalRequestTokens(user: string)
    requires IsWord(user)
    ensures Tokens("bal " + user) == ["bal", user]
  {
    assert "bal " + user == "bal" + [' '] + user;
    TokensOfPair("bal", ' ', user);
  }

  lemma BuyRequestShape(user: string, item: string, count: string)
    ensures "buy " + user + " " + item + " " + count == "buy" + [' '] + (user + [' '] + (item + [' '] + count))
  {
  }

  lemma ThreeWordTokens(a: string, b: string, c: string)
    requires IsWord(a) && IsWord(b) && IsWord(c)
    ensures Tokens(a + [' '] + (b + [' '] + c)) == [a, b, c]
  {
    TokensOfPair(b, ' ', c);
    TokensAfterWord(a, ' ', b + [' '] + c);
  }

  lemma BuyRequestTokens(user: string, item: string, count: string)
    requires IsWord(user) && IsWord(item) && IsWord(count)
    ensures Tokens("buy " + user + " " + item + " " + count) == ["buy", user, item, count]
  {
    var mid := user + [' '] + (item + [' '] + count);
    ThreeWordTokens(user, item, count);
    assert IsWord("buy");
    TokensAfterWord("buy", ' ', mid);
    BuyRequestShape(user, item, count);
  }

  lemma ListRequestParses(serverVisit: seq<string>)
    requires IsEnumeration(serverVisit, Server.ServerCommands.Keys)
    ensures Parse(Server.ServerParser, serverVisit, "list") == Invoke("list", [])
  {
    TokensOfWord("list");
    Server.ServerParseList(serverVisit, "list");
  }

  lemma BalRequestParses(user: string, serverVisit: seq<string>)
    requires IsWord(user)
    requires IsEnumeration(serverVisit, Server.ServerCommands.Keys)
    ensures Parse(Server.ServerParser, serverVisit, "bal " + user) == Invoke("bal", [user])
  {
    BalRequestTokens(user);
    Server.ServerParseBal(serverVisit, "bal " + user);
  }

  lemma BuyRequestParses(user: string, item: string, count: string, serverVisit: seq<string>)
    requires IsWord(user) && IsWord(item) && IsWord(count)
    requires IsEnumeration(serverVisit, Server.ServerCommands.Keys)
    ensures Parse(Server.ServerParser, serverVisit, "buy " + user + " " + item + " " + count)
      == Invoke("buy", [user, item, count])
  {
    var req := "buy " + user + " " + item + " " + count;
    BuyRequestTokens(user, item, count);
    Server.ServerParseBuy(serverVisit, req);
    assert Tokens(req)[1..] == [user, item, count];
  }

  /** Every request the client sends is accepted by the server's grammar and
      reaches the matching handler: `list` with no argument, and `bal` and
      `buy` with the user's name first, followed for `buy` by the words typed
      after the command. This needs a user name without whitespace. */
  lemma ClientRequestsParse(user: string, clientVisit: seq<string>, serverVisit: seq<string>, line: string)
    requires IsWord(user)
    requires IsEnumeration(clientVisit, ClientCommands.Keys)
    requires IsEnumeration(serverVisit, Server.ServerCommands.Keys)
    requires ClientStep(user, clientVisit, line).Transmit?
    ensures Accepted(Tokens(line))
    ensures var ts := Tokens(line);
      var req := ClientStep(user, clientVisit, line).request;
      Parse(Server.ServerParser, serverVisit, req) ==
        if ts[0] == "list" then Invoke("list", [])
        else if ts[0] == "bal" then Invoke("bal", [user])
        else Invoke("buy", [user, ts[1], ts[2]])
  {
    var ts := Tokens(line);
    if !Accepted(ts) {
      ClientReportsErrors(user, clientVisit, line);
    } else {
      ClientTransmits(user, clientVisit, line);
      if ts[0] == "list" {
        ListRequestParses(serverVisit);
      } else if ts[0] == "bal" {
        BalRequestParses(user, serverVisit);
      } else {
        assert AllWords(ts);
        BuyRequestParses(user, ts[1], ts[2], serverVisit);
      }
    }
  }
}
