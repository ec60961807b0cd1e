/** Worked examples of the shop grammar and the shop rules, each proved from
    the general lemmas: the server's parses of typical lines, and purchases at
    the edges of the balance and of 64-bit arithmetic. */
module Scenarios {
  import opened Outcomes
  import opened Text
  import opened Grammar
  import opened Server

  /** The order in which the examples assume the command table is visited. */
  const Visit: seq<string> := ["list", "bal", "buy"]

  lemma VisitEnumerates()
    ensures IsEnumeration(Visit, ServerCommands.Keys)
  {
    assert forall k :: k in ServerCommands.Keys ==> k in Visit;
  }

  lemma ParseListLine()
    ensures IsEnumeration(Visit, ServerCommands.Keys)
    ensures Parse(ServerParser, Visit, "list") == Invoke("list", [])
  {
    VisitEnumerates();
    TokensOfWord("list");
    ServerParseList(Visit, "list");
  }

  /** `bal` without a name names the missing parameter. */
  lemma ParseBalWithoutUser()
    ensures IsEnumeration(Visit, ServerCommands.Keys)
    ensures Parse(ServerParser, Visit, "bal") == Rejected(ExpectedParameter("USER"))
  {
    VisitEnumerates();
    TokensOfWord("bal");
    ServerRejectsMissingUser(Visit, "bal");
  }

  /** An unknown command lists every command name. */
  lemma ParseUnknownCommand()
    ensures IsEnumeration(Visit, ServerCommands.Keys)
    ensures Parse(ServerParser, Visit, "quit") == Rejected(ExpectedCommand(["list", "bal", "buy"]))
  {
    VisitEnumerates();
    TokensOfWord("quit");
    assert "quit" !in ServerCommands;
    ServerRejectsCommand(Visit, "quit");
  }

  /** The texts the server sends back for the two rejections above. */
  lemma MissingUserText()
    ensures Message(ExpectedParameter("USER")) == "expected parameter: USER"
  {
  }

  lemma UnknownCommandText()
    ensures Message(ExpectedCommand(["list", "bal", "buy"])) == "expected command: [list,bal,buy]"
  {
    assert Join(["list", "bal", "buy"], ",") == "list,bal,buy";
  }

  // ---------------------------------------------------------------------------
  // Purchases

  const Armory: Shop := Shop([Item("sword", 5), Item("gem", 0x8000_0000_0000_0000)], [User("alice", 10)])

  lemma StoullTwo()
    ensures Stoull("2") == Success(2)
    ensures Stoull("3") == Success(3)
  {
    assert Decimal(2) == "2" && Decimal(3) == "3";
    assert Decimal(2) + "" == "2" && Decimal(3) + "" == "3";
    StoullDecimal(2, "");
    StoullDecimal(3, "");
  }

  /** A cost equal to the balance is accepted and leaves nothing. */
  lemma BuyDrainsBalance()
    ensures Buy(Armory, "alice", "sword", "2")
      == (Bought(2, "sword", 10, 0), Armory.(users := [User("alice", 0)]))
  {
    StoullTwo();
    assert GetUser(Armory, "alice") == Some(0);
    assert GetItem(Armory, "sword") == Some(0);
    assert !MulOverflows(5, 2);
    assert Armory.users[0 := Armory.users[0].(balance := 0)] == [User("alice", 0)];
  }

  /** One more is refused for balance, and the shop stays as it was. */
  lemma BuyBeyondBalance()
    ensures Buy(Armory, "alice", "sword", "3") == (Refused(InsufficientBalance), Armory)
  {
    StoullTwo();
    assert GetUser(Armory, "alice") == Some(0);
    assert GetItem(Armory, "sword") == Some(0);
  }

  /** 2^63 times 2 does not fit in 64 bits. */
  lemma BuyOverflows()
    ensures Buy(Armory, "alice", "gem", "2") == (Refused(WouldOverflow), Armory)
    ensures BuyReply(Refused(WouldOverflow)) == "would overflow"
  {
    StoullTwo();
    assert GetUser(Armory, "alice") == Some(0);
    assert ItemNames(Armory.items) == ["sword", "gem"];
    assert GetItem(Armory, "gem") == Some(1);
  }

  lemma BalOfStranger()
    ensures BalReply(Armory, "bob") == "user bob does not exist"
  {
    assert UserNames(Armory.users) == ["alice"];
    assert GetUser(Armory, "bob") == None;
  }
}
