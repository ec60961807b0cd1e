/** The shop server of the demo: its records, the first-match lookups, and
    the replies of the `list`, `bal` and `buy` handlers, wired to the command
    grammar the server declares.

    The shop is a value here. The source keeps it behind a mutex and mutates
    the buyer's record in place; the model returns the updated shop instead. */
module Server {
  import opened Outcomes
  import opened Text
  import opened Grammar

  datatype Item = Item(name: string, price: u64)

  datatype User = User(name: string, balance: u64)

  /** The listing and the balances, in file order. */
  datatype Shop = Shop(items: seq<Item>, users: seq<User>)

  /** The names of a list of records, in the same order. */
  function Names<T>(records: seq<T>, name: T -> string): (ns: seq<string>)
    ensures |ns| == |records| && forall i :: 0 <= i < |records| ==> ns[i] == name(records[i])
  {
    seq(|records|, i requires 0 <= i < |records| => name(records[i]))
  }

  function ItemNames(items: seq<Item>): seq<string>
  {
    Names(items, (it: Item) => it.name)
  }

  function UserNames(users: seq<User>): seq<string>
  {
    Names(users, (u: User) => u.name)
  }

  // ---------------------------------------------------------------------------
  // Lookup

  /** `std::find_if` by exact name: the position of the first equal name, or
      None when no name is equal. */
  function FirstIndex(names: seq<string>, name: string): (r: Option<nat>)
    ensures r.None? <==> name !in names
    ensures r.Some? ==> r.value < |names| && names[r.value] == name && name !in names[..r.value]
    decreases |names|
  {
    if |names| == 0 then None
    else if names[0] == name then
      assert names[..0] == [];
      Some(0)
    else
      match FirstIndex(names[1..], name)
      case None => None
      case Some(i) =>
        assert names[..i + 1] == [names[0]] + names[1..][..i];
        Some(i + 1)
  }

  /** `shop::get_user`. */
  function GetUser(shop: Shop, name: string): (r: Option<nat>)
    ensures r.Some? ==> r.value < |shop.users|
  {
    FirstIndex(UserNames(shop.users), name)
  }

  /** `shop::get_item`. */
  function GetItem(shop: Shop, name: string): (r: Option<nat>)
    ensures r.Some? ==> r.value < |shop.items|
  {
    FirstIndex(ItemNames(shop.items), name)
  }

  /** Lookups find the first record with exactly the given name, and nothing
      when there is none. */
  lemma LookupFindsFirst(shop: Shop, name: string)
    ensures GetUser(shop, name).None? <==> forall i :: 0 <= i < |shop.users| ==> shop.users[i].name != name
    ensures GetUser(shop, name).Some? ==> var u := GetUser(shop, name).value;
      shop.users[u].name == name && forall i :: 0 <= i < u ==> shop.users[i].name != name
    ensures GetItem(shop, name).None? <==> forall i :: 0 <= i < |shop.items| ==> shop.items[i].name != name
    ensures GetItem(shop, name).Some? ==> var k := GetItem(shop, name).value;
      shop.items[k].name == name && forall i :: 0 <= i < k ==> shop.items[i].name != name
  {
    var us := UserNames(shop.users);
    var ns := ItemNames(shop.items);
    if GetUser(shop, name).None? {
      forall i | 0 <= i < |shop.users| ensures shop.users[i].name != name {
        assert us[i] == shop.users[i].name;
      }
    } else {
      var u := GetUser(shop, name).value;
      forall i | 0 <= i < u ensures shop.users[i].name != name {
        assert us[..u][i] == shop.users[i].name;
      }
    }
    if GetItem(shop, name).None? {
      forall i | 0 <= i < |shop.items| ensures shop.items[i].name != name {
        assert ns[i] == shop.items[i].name;
      }
    } else {
      var k := GetItem(shop, name).value;
      forall i | 0 <= i < k ensures shop.items[i].name != name {
        assert ns[..k][i] == shop.items[i].name;
      }
    }
  }

  // ---------------------------------------------------------------------------
  // Balances

  function TotalBalance(users: seq<User>): nat
  {
    if |users| == 0 then 0 else users[0].balance + TotalBalance(users[1..])
  }

  /** Changing one balance changes the total by the same amount. */
  lemma {:induction false} TotalBalanceUpdate(users: seq<User>, i: nat, b: u64)
    requires i < |users|
    ensures TotalBalance(users[i := users[i].(balance := b)]) + users[i].balance == TotalBalance(users) + b
    decreases i
  {
    var t := users[i := users[i].(balance := b)];
    if i > 0 {
      assert t[1..] == users[1..][i - 1 := users[i].(balance := b)];
      TotalBalanceUpdate(users[1..], i - 1, b);
    } else {
      assert t[1..] == users[1..];
    }
  }

  // ---------------------------------------------------------------------------
  // list

  /** One line of the listing: the name, a space and the price in decimal. */
  function ItemLine(it: Item): string
  {
    it.name + " " + Decimal(it.price)
  }

  function ItemLines(items: seq<Item>): (ls: seq<string>)
    ensures |ls| == |items| && forall i :: 0 <= i < |items| ==> ls[i] == ItemLine(items[i])
  {
    seq(|items|, i requires 0 <= i < |items| => ItemLine(items[i]))
  }

  /** The `list` reply: every line followed by a newline, then the last
      character removed. The source removes it with `pop_back`, which is
      undefined on the empty string, so the listing must not be empty. The
      result is the lines joined by newlines, with none at the end. */
  function ListReply(items: seq<Item>): (r: string)
    requires |items| > 0
    ensures r == Join(ItemLines(items), "\n")
  {
    var str := Terminated(ItemLines(items), "\n");
    TerminatedIsJoin(ItemLines(items), "\n");
    str[..|str| - 1]
  }

  /** The words of a listing in reading order: each name, then its price. */
  function ListWords(items: seq<Item>): seq<string>
  {
    if |items| == 0 then [] else [items[0].name, Decimal(items[0].price)] + ListWords(items[1..])
  }

  predicate NamesAreWords(items: seq<Item>)
  {
    forall i :: 0 <= i < |items| ==> IsWord(items[i].name)
  }

  lemma ListReplyStep(items: seq<Item>)
    requires |items| > 1 && IsWord(items[0].name)
    ensures Tokens(ListReply(items))
      == [items[0].name, Decimal(items[0].price)] + Tokens(ListReply(items[1..]))
  {
    var it := items[0];
    var d := Decimal(it.price);
    DecimalIsWord(it.price);
    var rest := ListReply(items[1..]);
    assert ListReply(items) == it.name + [' '] + (d + ['\n'] + rest) by {
      assert ItemLines(items)[1..] == ItemLines(items[1..]);
    }
    TokensAfterWord(it.name, ' ', d + ['\n'] + rest);
    TokensAfterWord(d, '\n', rest);
  }

  lemma ListReplyOne(items: seq<Item>)
    requires |items| == 1 && IsWord(items[0].name)
    ensures Tokens(ListReply(items)) == [items[0].name, Decimal(items[0].price)]
  {
    DecimalIsWord(items[0].price);
    assert ListReply(items) == items[0].name + [' '] + Decimal(items[0].price);
    TokensOfPair(items[0].name, ' ', Decimal(items[0].price));
  }

  /** When names hold no whitespace, tokenising the listing gives back each
      name followed by its price, in shop order. */
  lemma {:induction false} ListReplyTokens(items: seq<Item>)
    requires |items| > 0 && NamesAreWords(items)
    ensures Tokens(ListReply(items)) == ListWords(items)
    decreases |items|
  {
    if |items| == 1 {
      ListReplyOne(items);
    } else {
      ListReplyStep(items);
      assert NamesAreWords(items[1..]) by {
        assert forall i :: 0 <= i < |items| - 1 ==> items[1..][i] == items[i + 1];
      }
      ListReplyTokens(items[1..]);
    }
  }

  // ---------------------------------------------------------------------------
  // bal

  /** The `bal` reply: the user's name and balance, or a notice without
      quotes around the name. */
  function BalReply(shop: Shop, name: string): string
  {
    match GetUser(shop, name)
    case Some(u) => shop.users[u].name + " " + Decimal(shop.users[u].balance)
    case None => "user " + name + " does not exist"
  }

  /** For a known user whose name holds no whitespace, the reply tokenises to
      the name and a numeral that `std::stoull` reads back as the balance of
      the first user of that name. */
  lemma BalReplyReadsBack(shop: Shop, name: string)
    requires IsWord(name) && GetUser(shop, name).Some?
    ensures var ts := Tokens(BalReply(shop, name));
      |ts| == 2 && ts[0] == name
      && Stoull(ts[1]) == Success(shop.users[GetUser(shop, name).value].balance)
  {
    var u := GetUser(shop, name).value;
    var b := shop.users[u].balance;
    var d := Decimal(b);
    assert Tokens(BalReply(shop, name)) == [name, d] by {
      assert BalReply(shop, name) == name + [' '] + d by {
        LookupFindsFirst(shop, name);
      }
      DecimalIsWord(b);
      TokensOfPair(name, ' ', d);
    }
    assert Stoull(d) == Success(b) by {
      StoullDecimal(b, "");
      assert d + "" == d;
    }
  }

  // ---------------------------------------------------------------------------
  // buy

  /** The five ways `buy` declines, in the order it checks them. */
  datatype Rejection =
    | UnknownUser(user: string)
    | UnknownItem(item: string)
    | InvalidCount(count: string)
    | WouldOverflow
    | InsufficientBalance

  datatype BuyOutcome =
    | Refused(why: Rejection)
    | Bought(count: u64, item: string, cost: u64, balance: u64)

  /** `__builtin_mul_overflow` on two `uint64_t`: whether the exact product
      does not fit in 64 bits. */
  predicate MulOverflows(a: u64, b: u64)
  {
    a * b >= U64Limit
  }

  /** A product that does not overflow is a `uint64_t` value. */
  lemma ProductFits(a: u64, b: u64)
    requires !MulOverflows(a, b)
    ensures 0 <= a * b < U64Limit
  {
  }

  /** The `buy USER ITEM COUNT` handler. */
  function Buy(shop: Shop, user: string, item: string, count: string): (r: (BuyOutcome, Shop))
    ensures r.0.Refused? ==> r.1 == shop
    ensures r.0.Bought? ==> r.1.items == shop.items && |r.1.users| == |shop.users|
  {
    match GetUser(shop, user)
    case None => (Refused(UnknownUser(user)), shop)
    case Some(u) =>
      match GetItem(shop, item)
      case None => (Refused(UnknownItem(item)), shop)
      case Some(k) =>
        match Stoull(count)
        case Failure(_) => (Refused(InvalidCount(count)), shop)
        case Success(c) =>
          var price := shop.items[k].price;
          if MulOverflows(price, c) then (Refused(WouldOverflow), shop)
          else
            ProductFits(price, c);
            var cost: u64 := price * c;
            var bal := shop.users[u].balance;
            if cost > bal then (Refused(InsufficientBalance), shop)
            else
              var users := shop.users[u := shop.users[u].(balance := bal - cost)];
              (Bought(c, shop.items[k].name, cost, bal - cost), shop.(users := users))
  }

  /** The checks run in a fixed order, and each refusal happens exactly when
      every earlier check passed and its own fails: unknown user, unknown
      item, a count `std::stoull` rejects, a product beyond 64 bits, then a
      cost above the balance (a cost equal to the balance is accepted). */
  lemma BuyChecksInOrder(shop: Shop, user: string, item: string, count: string)
    ensures var r := Buy(shop, user, item, count).0;
      (r == Refused(UnknownUser(user)) <==> user !in UserNames(shop.users))
      && (r == Refused(UnknownItem(item)) <==>
            user in UserNames(shop.users) && item !in ItemNames(shop.items))
      && (r == Refused(InvalidCount(count)) <==>
            user in UserNames(shop.users) && item in ItemNames(shop.items) && Stoull(count).Failure?)
  {
  }

  /** The arithmetic checks, once the user, the item and the count are known:
      the purchase overflows exactly when price times count reaches 2^64, is
      refused for balance exactly when the cost exceeds the balance, and
      otherwise succeeds. */
  lemma BuyArithmetic(shop: Shop, user: string, item: string, count: string)
    requires GetUser(shop, user).Some? && GetItem(shop, item).Some? && Stoull(count).Success?
    ensures var r := Buy(shop, user, item, count).0;
      var price := shop.items[GetItem(shop, item).value].price;
      var c := Stoull(count).value;
      var bal := shop.users[GetUser(shop, user).value].balance;
      (r == Refused(WouldOverflow) <==> price * c >= U64Limit)
      && (r == Refused(InsufficientBalance) <==> price * c < U64Limit && price * c > bal)
      && (r.Bought? <==> price * c <= bal)
  {
  }

  /** A purchase charges exactly price times count to the first user of that
      name, reports the item's name, the count, the cost and the new balance,
      and changes no other record. */
  lemma BuyCharges(shop: Shop, user: string, item: string, count: string)
    requires Buy(shop, user, item, count).0.Bought?
    ensures var (r, shop') := Buy(shop, user, item, count);
      var u := GetUser(shop, user).value;
      var k := GetItem(shop, item).value;
      r.count == Stoull(count).value && r.item == item
      && r.cost == shop.items[k].price * r.count
      && r.balance == shop.users[u].balance - r.cost
      && shop'.users[u] == User(shop.users[u].name, r.balance)
      && (forall i :: 0 <= i < |shop.users| && i != u ==> shop'.users[i] == shop.users[i])
      && shop'.items == shop.items
  {
    LookupFindsFirst(shop, item);
  }

  /** Money leaves the shop's users only by purchases: a purchase lowers the
      sum of all balances by its cost. */
  lemma BuyConservesMoney(shop: Shop, user: string, item: string, count: string)
    ensures var (r, shop') := Buy(shop, user, item, count);
      r.Bought? ==> TotalBalance(shop'.users) + r.cost == TotalBalance(shop.users)
  {
    var (r, shop') := Buy(shop, user, item, count);
    if r.Bought? {
      var u := GetUser(shop, user).value;
      TotalBalanceUpdate(shop.users, u, r.balance);
    }
  }

  /** The text the handler sends. */
  function BuyReply(o: BuyOutcome): string
  {
    match o
    case Refused(why) => RefusalText(why)
    case Bought(c, name, cost, bal) => Decimal(c) + Receipt(name, cost, bal)
  }

  function RefusalText(why: Rejection): string
  {
    match why
    case UnknownUser(n) => "user '" + n + "' does not exist"
    case UnknownItem(n) => "item '" + n + "' does not exist"
    case InvalidCount(t) => "invalid cound '" + t + "'"
    case WouldOverflow => "would overflow"
    case InsufficientBalance => "insufficient balance"
  }

  /** What follows the count in the reply to a purchase. */
  function Receipt(item: string, cost: u64, bal: u64): string
  {
    "x " + item + " ordered\n"
    + "deducted " + Decimal(cost) + " from you balance (current balance: " + Decimal(bal) + ")"
  }

  /** `std::stoull` fails on text that starts with a letter. */
  lemma StoullOfLetter(s: string)
    requires |s| > 0 && 'a' <= s[0] <= 'z'
    ensures Stoull(s) == Failure(InvalidArgument)
  {
    assert SkipSpace(s) == s;
    assert !(s[0] == '+' || s[0] == '-');
    assert DigitRun(s) == 0;
  }

  lemma RefusalStartsWithLetter(why: Rejection)
    ensures |RefusalText(why)| > 0 && 'a' <= RefusalText(why)[0] <= 'z'
  {
  }

  /** A purchase reply starts with the count, which `std::stoull` reads back;
      every refusal starts with a letter, on which it fails. */
  lemma BuyReplyLeadsWithCount(o: BuyOutcome)
    ensures o.Bought? ==> Stoull(BuyReply(o)) == Success(o.count)
    ensures o.Refused? ==> Stoull(BuyReply(o)) == Failure(InvalidArgument)
  {
    if o.Bought? {
      var rest := Receipt(o.item, o.cost, o.balance);
      assert rest[0] == 'x';
      StoullDecimal(o.count, rest);
    } else {
      RefusalStartsWithLetter(o.why);
      StoullOfLetter(RefusalText(o.why));
    }
  }

  // ---------------------------------------------------------------------------
  // The server's grammar and dispatch

  const ServerCommands: map<string, Command> := map[
    "list" := Command([], true),
    "bal" := Command(["USER"], true),
    "buy" := Command(["USER", "ITEM", "COUNT"], true)]

  /** The parser the server runs on every message. */
  const ServerParser: Parser := Parser(ServerCommands)

  /** The builder calls the server makes for each connection, in source order,
      produce exactly that parser. */
  function BuildServerParser(): (p: Parser)
    ensures p == ServerParser
  {
    var b1 := DeclareOne(EmptyBuilder(), Declaration("list", []));
    var b2 := DeclareOne(b1, Declaration("bal", ["USER"]));
    var b3 := DeclareOne(b2, Declaration("buy", ["USER", "ITEM", "COUNT"]));
    Build(b3)
  }

  /** What answering one message does: the reply sent and the shop after. */
  datatype Step = Step(reply: string, shop: Shop)

  /** One turn of the server's message loop: parse, run the handler, or send
      the parsing error back. None when the turn has no defined outcome: `list`
      on an empty listing, or an exception other than a parsing error. */
  function Serve(shop: Shop, visit: seq<string>, msg: string): Option<Step>
    requires IsEnumeration(visit, ServerCommands.Keys)
  {
    Dispatch(shop, Parse(ServerParser, visit, msg))
  }

  /** The handler call, or the `catch` that sends a parsing error back. */
  function Dispatch(shop: Shop, o: ParseOutcome): Option<Step>
  {
    match o
    case Rejected(e) => Some(Step(Message(e), shop))
    case HandlerMissing(_) => None
    case Invoke(name, args) =>
      if name == "list" && |args| == 0 then
        if |shop.items| == 0 then None else Some(Step(ListReply(shop.items), shop))
      else if name == "bal" && |args| == 1 then
        Some(Step(BalReply(shop, args[0]), shop))
      else if name == "buy" && |args| == 3 then
        var (o, shop') := Buy(shop, args[0], args[1], args[2]);
        Some(Step(BuyReply(o), shop'))
      else None
  }

  lemma ServerCommandsLookup(n: string)
    requires n in ServerCommands
    ensures n == "list" ==> |ServerCommands[n].params| == 0
    ensures n == "bal" ==> |ServerCommands[n].params| == 1
    ensures n != "list" && n != "bal" ==> n == "buy" && |ServerCommands[n].params| == 3
  {
  }

  lemma ServerParseList(visit: seq<string>, msg: string)
    requires IsEnumeration(visit, ServerCommands.Keys)
    requires Tokens(msg) == ["list"]
    ensures Parse(ServerParser, visit, msg) == Invoke("list", [])
  {
    ParseTokens(ServerParser, visit, msg);
  }

  lemma ServerParseBal(visit: seq<string>, msg: string)
    requires IsEnumeration(visit, ServerCommands.Keys)
    requires |Tokens(msg)| == 2 && Tokens(msg)[0] == "bal"
    ensures Parse(ServerParser, visit, msg) == Invoke("bal", Tokens(msg)[1..])
  {
    ParseTokens(ServerParser, visit, msg);
  }

  lemma ServerParseBuy(visit: seq<string>, msg: string)
    requires IsEnumeration(visit, ServerCommands.Keys)
    requires |Tokens(msg)| == 4 && Tokens(msg)[0] == "buy"
    ensures Parse(ServerParser, visit, msg) == Invoke("buy", Tokens(msg)[1..])
  {
    ParseTokens(ServerParser, visit, msg);
  }

  lemma ServerParseOther(visit: seq<string>, msg: string)
    requires IsEnumeration(visit, ServerCommands.Keys)
    requires var ts := Tokens(msg);
      !(ts == ["list"] || (|ts| == 2 && ts[0] == "bal") || (|ts| == 4 && ts[0] == "buy"))
    ensures Parse(ServerParser, visit, msg).Rejected?
  {
    var ts := Tokens(msg);
    var p := ServerParser;
    ParseTokens(p, visit, msg);
    if |ts| > 0 && ts[0] in p.commands {
      var ps := p.commands[ts[0]].params;
      ServerCommandsLookup(ts[0]);
      assert |ts| == 1 && ts[0] == "list" ==> ts == ["list"];
    }
  }

  /** The rejections the server sends back: an empty or unknown command lists
      the commands in visiting order, a missing parameter is named by its
      declared name, and the first word past the declared parameters is quoted. */
  lemma ServerRejectsCommand(visit: seq<string>, msg: string)
    requires IsEnumeration(visit, ServerCommands.Keys)
    requires |Tokens(msg)| == 0 || Tokens(msg)[0] !in ServerCommands
    ensures Parse(ServerParser, visit, msg) == Rejected(ExpectedCommand(visit))
  {
    ParseRejectsCommand(ServerParser, visit, msg);
  }

  lemma ServerRejectsMissingUser(visit: seq<string>, msg: string)
    requires IsEnumeration(visit, ServerCommands.Keys)
    requires |Tokens(msg)| == 1 && (Tokens(msg)[0] == "bal" || Tokens(msg)[0] == "buy")
    ensures Parse(ServerParser, visit, msg) == Rejected(ExpectedParameter("USER"))
  {
    ParseMissesParameter(ServerParser, visit, msg);
  }

  lemma ServerRejectsListArgument(visit: seq<string>, msg: string)
    requires IsEnumeration(visit, ServerCommands.Keys)
    requires |Tokens(msg)| > 1 && Tokens(msg)[0] == "list"
    ensures Parse(ServerParser, visit, msg) == Rejected(ExtraneousParameter(Tokens(msg)[1]))
  {
    ParseFindsExtra(ServerParser, visit, msg);
  }

  /** The server's grammar accepts exactly `list`, `bal` with one word and
      `buy` with three, and passes the words after the command as they are;
      every other line is rejected with a parsing error. */
  lemma ServerParse(visit: seq<string>, msg: string)
    requires IsEnumeration(visit, ServerCommands.Keys)
    ensures var ts := Tokens(msg); var r := Parse(ServerParser, visit, msg);
      (r.Invoke? <==> ts == ["list"] || (|ts| == 2 && ts[0] == "bal") || (|ts| == 4 && ts[0] == "buy"))
      && (r.Invoke? ==> r.command == ts[0] && r.args == ts[1..])
      && (!r.Invoke? ==> r.Rejected?)
  {
    var ts := Tokens(msg);
    if ts == ["list"] {
      ServerParseList(visit, msg);
    } else if |ts| == 2 && ts[0] == "bal" {
      ServerParseBal(visit, msg);
    } else if |ts| == 4 && ts[0] == "buy" {
      ServerParseBuy(visit, msg);
    } else {
      ServerParseOther(visit, msg);
    }
  }

  lemma DispatchChangesShop(shop: Shop, o: ParseOutcome)
    requires Dispatch(shop, o).Some? && Dispatch(shop, o).value.shop != shop
    ensures o.Invoke? && o.command == "buy" && |o.args| == 3
    ensures Buy(shop, o.args[0], o.args[1], o.args[2]).0.Bought?
  {
  }

  /** Every message gets a reply, except `list` when the listing is empty. */
  lemma ServeAlwaysReplies(shop: Shop, visit: seq<string>, msg: string)
    requires IsEnumeration(visit, ServerCommands.Keys)
    ensures Serve(shop, visit, msg).None? <==> Tokens(msg) == ["list"] && |shop.items| == 0
  {
    var ts := Tokens(msg);
    var o := Parse(ServerParser, visit, msg);
    ServerParse(visit, msg);
    assert o.Invoke? && o.command == "list" ==> o.args == [] by {
      if o.Invoke? && o.command == "list" {
        assert ts == ["list"];
      }
    }
  }

  /** Only a successful `buy` changes the shop; everything else, including
      every malformed message, leaves it as it was. */
  lemma ServeChangesShopOnlyByBuying(shop: Shop, visit: seq<string>, msg: string)
    requires IsEnumeration(visit, ServerCommands.Keys)
    requires Serve(shop, visit, msg).Some? && Serve(shop, visit, msg).value.shop != shop
    ensures var ts := Tokens(msg);
      |ts| == 4 && ts[0] == "buy" && Buy(shop, ts[1], ts[2], ts[3]).0.Bought?
  {
    var ts := Tokens(msg);
    var o := Parse(ServerParser, visit, msg);
    DispatchChangesShop(shop, o);
    ServerParse(visit, msg);
    assert o.args[0] == ts[1] && o.args[1] == ts[2] && o.args[2] == ts[3];
  }
}
