# snl: a Dafny model of the framing, the command grammar and the shop

`snl` is a small C++ networking library with a demo shop. This project models
three of its parts as pure Dafny functions and proves what they promise.

1. **Framing.** A message travels as the raw bytes of the host's `int`
   holding the payload length, followed by the payload. `detail::recv` reads
   the header in one call. It then reads the payload in chunks of at most
   1024 bytes. `connection::send` writes the header in one call, then loops
   until the payload is out. `connection::try_recv` polls first.
   - Width and byte order of the header `int` are a parameter (`Wire.Format`).
     The header value is read in two's complement.
   - The socket is abstract. What the peer delivers is a `Wire.Stream`:
     - its bytes and a read position;
     - for every offset, a cap on what one `recv` starting there may return,
       so reads can return fewer bytes than asked for;
     - whether the stream ends in a shutdown (reads return 0) or a fault
       (reads return -1).
   - What the local socket accepts is a `Wire.Sink`: one event per `::send`
     call, either "accepts at most k bytes" or "fails". Once the events are
     used up, every call accepts everything.
2. **The command grammar.** `message_parser_builder` declares commands and
   their positional parameters. `message_parser::parse` splits a line at
   whitespace the way `std::istream >> std::string` does. It then calls the
   command's handler with exactly one word per parameter, or throws one of
   three `parsing_exception`s. The model's `Parse` returns the handler call
   (command and arguments), the error, or `HandlerMissing`. `HandlerMissing`
   stands for a command whose definition `end` never closed.
3. **The shop.** `server.cpp` answers `list`, `bal USER` and
   `buy USER ITEM COUNT` against a listing and a balance sheet. `client.cpp`
   turns the user's lines `list`, `bal` and `buy ITEM COUNT` into those
   requests. The shop is a value; a purchase returns the updated shop.

The standard-library behaviour the shop relies on is modelled in `Text`:
- `std::isspace` in the "C" locale;
- token extraction;
- decimal printing;
- `std::stoull` in base 10, with leading whitespace, an optional sign, the
  longest digit run, `std::out_of_range` past 2^64, and a minus sign that
  negates modulo 2^64.

Files:
- `outcomes.dfy`: `Option` and `Result`.
- `wire.dfy`: framing, receive, send.
- `text.dfy`: tokens, numerals, `stoull`.
- `grammar.dfy`: builder and parser.
- `server.dfy`, `client.dfy`: the demo programs.
- `scenarios.dfy`: worked examples.

`std::unordered_map` iteration order is unspecified. `Parse` therefore takes
`visit`, any duplicate-free listing of the command names, and the "expected
command" message lists the names in that order.

## Model

| member | source | states |
|---|---|---|
| Wire.EncodeHeader | src/snl.hpp:125-126 | the header for a length below 2^(8·width−1) has exactly the width of the header `int`, and reading it back as a two's-complement `int` gives the length |
| Wire.DecodeHeader | src/snl.hpp:72-73 | the `int` read from a header lies in the signed range of its width, so it may be negative |
| Wire.DecodeEncodeLE | src/snl.hpp:73 | little-endian decoding undoes little-endian encoding for every value that fits the width |
| Wire.EncodeDecodeLE | src/snl.hpp:126 | little-endian encoding of a decoded header gives back the same bytes |
| Wire.DecodeEncodeBE | src/snl.hpp:73 | big-endian decoding undoes big-endian encoding for every value that fits the width |
| Wire.EncodeDecodeBE | src/snl.hpp:126 | big-endian encoding of a decoded header gives back the same bytes |
| Wire.EncodeUnsigned | src/snl.hpp:73-126 | the header bytes of a value that fits the width decode to that value in either byte order |
| Wire.HeaderOfDecoded | src/snl.hpp:72-79 | every header that decodes to a non-negative length is the header `send` writes for that length, so no other byte pattern announces that length |
| Wire.EncodeFrame | src/snl.hpp:122-136 | a frame is the header announcing the payload's length followed by the payload itself |
| Wire.Available | src/snl.hpp:82 | a `recv` can return bytes exactly while unread bytes remain, and never more than remain |
| Wire.Read | src/snl.hpp:82 | one `::recv` call on the stream; what it returns is stated by `Wire.ReadSpec` |
| Wire.ReadSpec | src/snl.hpp:82-86 | one `recv` returns 0 exactly after a shutdown with nothing left and −1 exactly after a fault with nothing left; otherwise it returns between 1 and the requested count, taken from the front of the unread bytes with nothing lost or repeated |
| Wire.ReadPayload | src/snl.hpp:81-89 | the payload loop of `detail::recv`, each read asking for min(1024, remaining) bytes; its outcomes are stated by `Wire.ReadPayloadComplete`, `Wire.ReadPayloadShort` and `Wire.PayloadFaultIsConnectionFault` |
| Wire.PayloadFaultIsConnectionFault | src/snl.hpp:83-86 | the payload loop fails only with `connection_closed_exception` or `unknown_connection_exception`, never with a length error |
| Wire.ReadPayloadStep | src/snl.hpp:81-88 | while bytes remain, one turn of the payload loop returns between 1 and `remaining` bytes, and the loop then continues from the shorter stream with the smaller count |
| Wire.ReadPayloadComplete | src/snl.hpp:81-90 | when the stream holds at least `remaining` bytes, the payload loop appends exactly the next `remaining` bytes and consumes nothing more, however the reads are split |
| Wire.ReadPayloadShort | src/snl.hpp:81-86 | when the stream holds fewer bytes than remain, the loop fails: closed after a shutdown, unknown after a fault |
| Wire.NextThenNext | src/snl.hpp:87-88 | reading k bytes and then n−k more reads the same bytes as reading n at once, and leaves the stream at the same place |
| Wire.Receive | src/snl.hpp:69-91 | `detail::recv`: header read, length check, payload loop; its outcomes are stated by `Wire.ReceiveHeaderOutcome`, `Wire.ReceiveComplete`, `Wire.ReceiveShort` and `Wire.ReceiveFaultCaught` |
| Wire.ReceiveHeaderOutcome | src/snl.hpp:73-79 | the four ways a receive ends before any payload is read: a 0-byte header read is a closed connection; a −1 read or a short header is an unknown error, never both; a negative length is a length error |
| Wire.ReceiveAfterHeader | src/snl.hpp:73-81 | with the whole header in and a non-negative length, the receive is the payload loop for that length on the stream after the header |
| Wire.ReceiveComplete | src/snl.hpp:69-91 | with the whole header in and enough bytes behind it, the receive returns exactly the announced number of bytes after the header and consumes header plus payload |
| Wire.ReadPayloadFromStart | src/snl.hpp:78-90 | the loop started with nothing read returns exactly the next `n` bytes |
| Wire.ReceiveShort | src/snl.hpp:81-86 | with the whole header in but too few bytes behind it, the receive fails as the stream ends: closed or unknown |
| Wire.ReceiveFaultCaught | src/snl.hpp:69-91 | a failed receive is a `connection_exception`, which the server worker and the client connector catch, exactly unless the whole header arrived and announced a negative length; that `std::length_error` escapes the catch |
| Wire.FrameParts | src/snl.hpp:69-91 | a stream that begins with a frame holds the frame's header and then its payload |
| Wire.ReceiveFrame | src/snl.hpp:69-91 | receiving a stream that begins with a frame returns that frame's payload and consumes exactly the frame |
| Wire.ReceiveMessage | src/snl.hpp:69-91 | the loop as written, with every read asking for min(1024, remaining) bytes and bytes read plus remaining equal to the declared length, ends exactly as the recursive `Receive` does |
| Wire.TryReceive | src/snl.hpp:105-121 | a failed poll is an unknown error; a poll with nothing ready returns nothing and consumes nothing; a ready descriptor performs exactly one receive and passes its message or its fault through |
| Wire.Write | src/snl.hpp:130-131 | one `::send` returns −1 exactly when the socket refuses, otherwise at most the requested count; past the known events it takes everything (a refusal stands for a −1 return; SIGPIPE is left out) |
| Wire.WritePayload | src/snl.hpp:129-135 | the send loop succeeds exactly when the calls get the whole unsent tail out before any of them returns −1, and then wrote exactly that tail; otherwise the first −1 throws an unknown error after a proper prefix of it was written |
| Wire.Send | src/snl.hpp:122-136 | a send succeeds exactly when the first call takes the whole header and the later calls get the payload out before any returns −1; a successful send wrote exactly the frame; a failed one wrote a proper prefix of the frame and is an unknown error |
| Wire.SendThenReceive | src/snl.hpp:69-136 | round trip: receiving what a successful send wrote returns the same payload and consumes exactly what was written |
| Wire.ReceiveWritten | src/snl.hpp:69-91 | receiving a stream that begins with the encoding of a payload returns that payload and consumes exactly its encoding |
| Text.SkipSpace | src/snl.hpp:395 | what extraction skips leaves input that is empty or starts with a non-space |
| Text.SkipSpaceSplits | src/snl.hpp:395 | extraction skips only whitespace and keeps the rest of the input unchanged |
| Text.WordLength | src/snl.hpp:395 | a token runs to the first whitespace or the end of the input |
| Text.Extract | src/snl.hpp:395 | a successful extraction yields a non-empty word without whitespace and strictly shortens the input |
| Text.ExtractSplits | src/snl.hpp:395 | extraction fails exactly on blank input; otherwise the input is a blank prefix, a maximal word, and a rest that is empty or starts with whitespace |
| Text.Tokens | src/snl.hpp:395-406 | every token a sequence of extractions yields is a word |
| Text.TokensOfJoin | src/snl.hpp:395-406 | tokenising words joined by one whitespace character gives back the same words |
| Text.TokensOfWord | src/snl.hpp:395 | a single word tokenises to itself |
| Text.TokensAfterWord | src/snl.hpp:395-406 | a word followed by whitespace is the first token, and the rest tokenises on its own |
| Text.TokensOfPair | src/snl.hpp:395-406 | two words separated by whitespace tokenise to exactly those two words |
| Text.TerminatedIsJoin | src/server.cpp:75-79 | strings each followed by a separator are the joined strings plus one trailing separator, which is why removing the last character leaves the join |
| Text.Decimal | src/server.cpp:76 | a printed number is a non-empty run of decimal digits |
| Text.DecimalValue | src/server.cpp:76 | the digits a number prints as denote that number |
| Text.DigitRun | src/server.cpp:113 | `stoull` reads the longest run of digits at the front and stops at the first non-digit |
| Text.Stoull | src/server.cpp:113 | `std::stoull` in base 10; `Text.StoullDecimal` states that it reads back printed numbers and `Server.StoullOfLetter` that it rejects text starting with a letter |
| Text.StoullDecimal | src/server.cpp:113 | `std::stoull` reads back what decimal printing writes, also when text that does not start with a digit follows |
| Text.DecimalIsWord | src/server.cpp:88 | a printed number contains no whitespace, so it survives tokenising whole |
| Grammar.EmptyBuilder | src/snl.hpp:421 | a new builder has no commands and no open definition |
| Grammar.BeginCommand | src/snl.hpp:428-435 | `command` needs no open definition and a fresh name; it adds that name with no parameters, opens it, and changes no other command |
| Grammar.AddParameter | src/snl.hpp:443-448 | `parameter` needs an open definition; it appends the name to that command's parameters and changes nothing else |
| Grammar.EndCommand | src/snl.hpp:436-442 | `end` needs an open definition; it binds that command's handler, closes the definition, and changes nothing else |
| Grammar.Build | src/snl.hpp:449 | `build` hands the table over unchanged; `Server.BuildServerParser` and `Client.BuildClientParser` state the tables it yields |
| Grammar.AddParameters | src/snl.hpp:443-448 | a chain of `parameter` calls appends the names in call order and touches no other command |
| Grammar.DeclareOne | src/snl.hpp:428-448 | one `command`…`parameter`…`end` chain adds exactly that command, with its parameters in order and a bound handler |
| Grammar.DeclareAll | src/snl.hpp:428-449 | declaring commands with distinct fresh names leaves every definition closed and the table holding exactly the old and the new names |
| Grammar.DeclareAllCommands | src/snl.hpp:428-449 | after the declarations every declared command maps to its parameters in declaration order with a bound handler, and earlier commands are unchanged |
| Grammar.EnumerationSize | src/snl.hpp:366-375 | a listing of a map's keys without duplicates has one entry per key |
| Grammar.GetMapKeys | src/snl.hpp:366-375 | the key list holds every key of the map exactly once and nothing else |
| Grammar.ConcatStringsFormatted | src/snl.hpp:376-384 | a non-empty list is shown as "[" then the strings joined by commas then "]"; an empty list is shown as "]" |
| Grammar.Message | src/snl.hpp:396-407 | the text of each `parsing_exception`; `Grammar.ExpectedCommandMessage` states the command list's format |
| Grammar.ReadArgs | src/snl.hpp:400-405 | one extraction per parameter; its outcomes are stated by `Grammar.ReadArgsShort` and `Grammar.ReadArgsEnough` |
| Grammar.Parse | src/snl.hpp:390-410 | `message_parser::parse`; its complete outcome in terms of the line's tokens is stated by `Grammar.ParseTokens` and `Grammar.ParseInvokes` |
| Grammar.ReadArgsShort | src/snl.hpp:400-403 | with fewer tokens than parameters, argument reading fails naming the first parameter without a token |
| Grammar.ReadArgsEnough | src/snl.hpp:400-405 | with enough tokens, argument reading takes the first tokens in order and leaves the rest unread |
| Grammar.ParseAfterCommand | src/snl.hpp:398-409 | once the first token names a command, parsing is the argument reading for that command's parameters followed by the extraneous check |
| Grammar.ParseTooFew | src/snl.hpp:400-403 | too few words after the command is rejected naming the first unmet parameter |
| Grammar.ParseTooMany | src/snl.hpp:406-408 | too many words after the command is rejected quoting the first word past the parameters |
| Grammar.ParseExact | src/snl.hpp:400-409 | exactly one word per parameter calls the command's handler with those words in order, or finds no handler when the definition was never closed |
| Grammar.ParseTokens | src/snl.hpp:390-410 | the full outcome of parsing in terms of the line's tokens: an unknown or missing command, a missing parameter, an extraneous word, or the handler call with the remaining words unchanged |
| Grammar.ParseRejectsCommand | src/snl.hpp:395-397 | an empty line or an unknown first word is rejected with every command name in visiting order |
| Grammar.ParseMissesParameter | src/snl.hpp:400-403 | a known command with too few words is rejected naming the first missing parameter |
| Grammar.ParseFindsExtra | src/snl.hpp:406-408 | a known command with too many words is rejected quoting the first word too many |
| Grammar.ParseInvokes | src/snl.hpp:390-410 | a handler is called exactly when the line is a closed command followed by one word per parameter, and the call receives the line's words after the command; on every failure no handler runs |
| Grammar.ExpectedCommandListsNames | src/snl.hpp:394-396 | the "expected command" error lists every command name exactly once and nothing else |
| Grammar.ExpectedCommandMessage | src/snl.hpp:376-396 | for a non-empty table the "expected command" message is the names between brackets, separated by commas |
| Server.FirstIndex | src/server.cpp:43-58 | `find_if` by name finds nothing exactly when no name is equal, and otherwise the first equal name |
| Server.GetUser | src/server.cpp:43-50 | a found user is a record of the shop |
| Server.GetItem | src/server.cpp:51-58 | a found item is a record of the shop |
| Server.LookupFindsFirst | src/server.cpp:43-58 | `get_user` and `get_item` return the first record with exactly the given name, and nothing when no record has it |
| Server.ItemLine | src/server.cpp:76 | one listing line: name, a space, the price in decimal; `Server.ListReplyTokens` states what it tokenises to |
| Server.ListReply | src/server.cpp:72-81 | the `list` reply is the item lines joined by newlines with no newline at the end |
| Server.ListReplyTokens | src/server.cpp:72-81 | when names hold no whitespace, tokenising the listing gives each name followed by its price, in shop order |
| Server.BalReply | src/server.cpp:84-91 | the `bal` reply; `Server.BalReplyReadsBack` states it for known users and `Scenarios.BalOfStranger` shows the unquoted notice |
| Server.BalReplyReadsBack | src/server.cpp:84-89 | the `bal` reply for a known user tokenises to the name and a numeral that `stoull` reads back as that user's balance |
| Server.Buy | src/server.cpp:97-132 | a refused purchase leaves the shop unchanged; a completed one keeps every item and the number of users |
| Server.BuyChecksInOrder | src/server.cpp:99-117 | the unknown-user, unknown-item and invalid-count refusals happen exactly when every earlier check passed and their own fails |
| Server.BuyArithmetic | src/server.cpp:118-127 | with user, item and count known, "would overflow" happens exactly when price times count reaches 2^64, "insufficient balance" exactly when the cost fits but exceeds the balance, and the purchase succeeds exactly when the cost is at most the balance |
| Server.BuyCharges | src/server.cpp:127-131 | a purchase charges price times count to the first user of that name, reports count, item, cost and new balance, and changes no other user and no item |
| Server.BuyConservesMoney | src/server.cpp:127 | a purchase lowers the sum of all balances by exactly its cost |
| Server.BuyReply | src/server.cpp:99-131 | the text the `buy` handler sends; `Server.BuyReplyLeadsWithCount` states how it starts |
| Server.RefusalText | src/server.cpp:99-126 | the five refusal texts, typo included; `Server.RefusalStartsWithLetter` states that each starts with a letter |
| Server.Receipt | src/server.cpp:128-130 | the purchase receipt after the count; `Server.BuyReplyLeadsWithCount` states that the count in front reads back |
| Server.TotalBalanceUpdate | src/server.cpp:127 | changing one balance changes the total by the same amount |
| Server.BuyReplyLeadsWithCount | src/server.cpp:101-131 | a purchase reply starts with the count, which `stoull` reads back; every refusal starts with a letter, on which `stoull` fails |
| Server.RefusalStartsWithLetter | src/server.cpp:101-124 | every refusal text starts with a lower-case letter |
| Server.StoullOfLetter | src/server.cpp:113-115 | `stoull` rejects text that starts with a letter as an invalid argument |
| Server.BuildServerParser | src/server.cpp:70-133 | the server's builder calls produce the table `list` with no parameters, `bal USER`, and `buy USER ITEM COUNT`, all bound |
| Server.ServerCommandsLookup | src/server.cpp:70-96 | the server's commands and their parameter counts: `list` 0, `bal` 1, `buy` 3 |
| Server.ServerParseList | src/server.cpp:71-72 | the line `list` reaches the `list` handler with no arguments |
| Server.ServerParseBal | src/server.cpp:82-84 | `bal` with one word reaches the `bal` handler with that word |
| Server.ServerParseBuy | src/server.cpp:93-97 | `buy` with three words reaches the `buy` handler with those words in order |
| Server.ServerParseOther | src/server.cpp:134-139 | every other line is rejected with a parsing error |
| Server.ServerRejectsCommand | src/server.cpp:134-139 | an empty or unknown command is answered with the command names in visiting order |
| Server.ServerRejectsMissingUser | src/server.cpp:82-96 | `bal` or `buy` alone is rejected naming the missing `USER` |
| Server.ServerRejectsListArgument | src/server.cpp:71-72 | a word after `list` is rejected and quoted |
| Server.ServerParse | src/server.cpp:70-139 | the server's grammar accepts exactly `list`, `bal` with one word and `buy` with three, passes the words as they are, and rejects every other line |
| Server.Dispatch | src/server.cpp:70-133 | the handler call for a parse outcome, or the parsing error sent back; `Server.DispatchChangesShop` states that only a completed purchase changes the shop |
| Server.Serve | src/server.cpp:134-139 | one turn of the message loop; `Server.ServeAlwaysReplies` and `Server.ServeChangesShopOnlyByBuying` state its behaviour |
| Server.DispatchChangesShop | src/server.cpp:72-132 | of all handler outcomes, only a completed purchase changes the shop |
| Server.ServeAlwaysReplies | src/server.cpp:134-139 | every message gets a reply, except `list` on an empty listing |
| Server.ServeChangesShopOnlyByBuying | src/server.cpp:134-139 | only a well-formed `buy` that completes changes the shop; every malformed message leaves it unchanged |
| Client.BuildClientParser | src/client.cpp:15-24 | the client's builder calls produce the table `list`, `bal`, and `buy ITEM COUNT`, all bound |
| Client.ClientCommandsLookup | src/client.cpp:15-24 | the client's commands and their parameter counts: `list` 0, `bal` 0, `buy` 2 |
| Client.ClientParseAccepted | src/client.cpp:15-27 | `list`, `bal` and `buy` with two words reach their handlers with the words after the command |
| Client.ClientParseOther | src/client.cpp:27-30 | every other client line is rejected with a parsing error |
| Client.Respond | src/client.cpp:16-23 | the client handlers and the `catch` that prints a parsing error; `Client.ClientTransmits` and `Client.ClientReportsErrors` state them |
| Client.ClientStep | src/client.cpp:25-31 | one input line of the client; `Client.ClientTransmits`, `Client.ClientReportsErrors` and `Client.ClientRequestsParse` state its behaviour |
| Client.ClientTransmits | src/client.cpp:16-23 | `list` sends "list", `bal` sends "bal " and the user name, and `buy ITEM COUNT` sends "buy", the user, the item and the count separated by spaces |
| Client.ClientReportsErrors | src/client.cpp:25-31 | a line the client grammar rejects sends nothing: the parsing error text is printed and no reply is awaited |
| Client.ClientBalRefusesName | src/client.cpp:18-19 | the client's `bal` takes no name: `bal x` is refused as an extraneous parameter quoting `x` |
| Client.BalRequestTokens | src/client.cpp:19 | the `bal` request tokenises to `bal` and the user name |
| Client.BuyRequestTokens | src/client.cpp:23 | the `buy` request tokenises to `buy`, the user, the item and the count |
| Client.ListRequestParses | src/client.cpp:17 | the server parses the `list` request into its `list` handler with no arguments |
| Client.BalRequestParses | src/client.cpp:19 | the server parses the `bal` request into its `bal` handler with the user name |
| Client.BuyRequestParses | src/client.cpp:23 | the server parses the `buy` request into its `buy` handler with user, item and count |
| Client.ClientRequestsParse | src/client.cpp:16-23 | every request the client sends for a whitespace-free user name reaches the matching server handler: `list` with no arguments, `bal` with the user, `buy` with the user and the two words typed |
| Scenarios.ParseListLine | src/server.cpp:71-72 | example: the server parses `list` into the `list` handler |
| Scenarios.ParseBalWithoutUser | src/server.cpp:82-83 | example: `bal` alone is rejected for the missing `USER` |
| Scenarios.ParseUnknownCommand | src/snl.hpp:395-397 | example: `quit` is rejected, listing `list`, `bal` and `buy` |
| Scenarios.UnknownCommandText | src/snl.hpp:376-396 | example: that rejection reads "expected command: [list,bal,buy]" |
| Scenarios.MissingUserText | src/snl.hpp:402 | example: the missing-user rejection reads "expected parameter: USER" |
| Scenarios.StoullTwo | src/server.cpp:113 | example: `stoull` reads "2" as 2 and "3" as 3 |
| Scenarios.BuyDrainsBalance | src/server.cpp:123-127 | example: a cost equal to the balance is accepted and leaves a balance of 0 |
| Scenarios.BuyBeyondBalance | src/server.cpp:123-126 | example: one more unit is refused for balance and the shop stays unchanged |
| Scenarios.BuyOverflows | src/server.cpp:118-122 | example: 2^63 times 2 is refused as "would overflow" |
| Scenarios.BalOfStranger | src/server.cpp:89-91 | example: the `bal` reply for an unknown name has no quotes around the name |

## Left out

- Socket set-up and the `serve`/`connect` loops (src/snl.hpp:186-295) are not modelled. They are operating-system I/O; only the abstract read and write streams remain.
- Threads and `sync::safe`/`sync::lock` (src/snl.hpp:229-253, 297-334) are not modelled. Their point is concurrency; the shop is a plain value and every message is handled alone.
- `connection_iterator` (src/snl.hpp:138-175) is not modelled. It only repeats `recv`; `Server.Serve` is one turn of that loop.
- Loading the shop from `shop.listing` and `shop.bal` (src/server.cpp:25-39) is not modelled. It is file I/O; the shop is an input.
- The client's `getenv("USER")`, its `stdin` loop and its coloured printing (src/client.cpp:10-12, 25-33) are not modelled. The user name is a parameter, and `Client.ClientStep` handles one line.
- The handlers' side effects are not modelled. They are the `conn.send` calls; `parse` returns the command and its arguments, and the server's and client's dispatch functions return the reply or the request.
- `std::unordered_map` iteration order is not modelled. `visit` is any listing of the keys.
- SIGPIPE is not modelled. Both `::send` calls pass flags 0 (src/snl.hpp:126, 130) and neither program ignores the signal, so writing to a peer that has gone away ends the whole process by default instead of returning −1. The model treats every failed write as a −1 return (`Refuses`), that is, as if the signal were ignored.
- `std::bad_alloc` from `string.resize(remaining)` (src/snl.hpp:79) is not modelled. Whether a large non-negative length can be allocated depends on the host's memory; the model always allocates it.
- Bytes versus characters: payloads are byte sequences and lines are character sequences. The model does not convert between the two.
- The byte value of `std::string` characters above 127 is not modelled. `IsSpace` is the "C" locale's set.
- Wire.ReceiveFrame: requires the header to arrive in one read. The source treats a header split across reads as an unknown error, and `Wire.ReceiveHeaderOutcome` states that case.
- Wire.SendThenReceive: requires the header to arrive in one read, for the same reason.
- Wire.Send: requires the payload length to be below 2^(8·width−1). The source converts `size()` to `int`, which truncates longer payloads.
- Server.ListReply: requires a non-empty listing. The source's `pop_back` on the empty string is undefined behaviour, and `Server.Serve` returns no step for it.
- Server.Serve: returns no step when a handler is missing. The source calls an empty `std::function`, which throws `std::bad_function_call` and is not caught there; neither demo grammar leaves a definition open.
