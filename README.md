# flohabot quotes, modelled in Dafny

Flohabot is a Discord and Twitch chat bot. Its quote feature keeps a `quotes` table in SQLite,
and several front ends reach that table:

- the Discord `/quote` slash command, in both the current handler and the older command object;
- the Twitch `!quote` chat command, reached through the bot's message router;
- the HTTP route `GET /quote`;
- a client that fetches quotes from another bot's quote API.

This project models that core and proves properties of it.

| module | file | models |
|---|---|---|
| `Wrappers` | `wrappers.dfy` | `Option` |
| `Js` | `js.dfy` | the JavaScript built-ins the handlers depend on, as functions on `string`: truthiness, `parseInt` (with and without radix 10), `trim`, `split`/`join` on one character, ASCII `toLowerCase`, `includes`, and the decimal text of an integer |
| `Quotes` | `quotes.dfy` | `src/quotes/quotes.ts`: the table as a sequence of rows in rowid order, each store operation as a pure function on that table, and the class `QuoteStore` holding the shared table that the four writing operations change in place |
| `DiscordQuoteHandler` | `discord_handler.dfy` | `discordQuoteHandler.ts`: the embed builders, the subcommands as a function from table and subcommand to new table and the replies sent, and the class `SearchPager` for the arrow-reaction paging of a multi-quote search |
| `DiscordQuoteCommand` | `discord_command.dfy` | the older `quote.ts` command, with its relation to the handler |
| `TwitchQuote` | `twitch_quote.dfy` | `handleTwitchQuote.ts`: the words after `!quote` decide one branch, which yields the new table and at most one chat reply |
| `TwitchBot` | `twitch_bot.dfy` | the `onMessage` route of `twitchBot.ts`: trim, split at spaces, `!quote` or a lookup in the `commands` table |
| `QuotesApi` | `quotes_api.dfy` | the `GET /quote` route of `quotesApi.ts`, as the list of calls it makes on the response |
| `RemoteQuote` | `remote_quote.dfy` | `getRemoteQuote.ts`, where the HTTP round trip is a function parameter |

The outside world enters as explicit parameters. `Env.pick` is the choice `ORDER BY random()`
makes, and `Env.today` holds the calendar fields of `Date.now()`. `Env.writeThrows` says
whether the writing statement throws. `isMod` is the moderator check of each front end, and
`fetch` is the remote HTTP call.

The model follows the code where the code departs from its apparent intent. Each such quirk
is modelled as written and exhibited by a lemma:

- `DeleteEndsWithSuccess`: a failed Discord delete is still followed by the success embed.
- `EditNeverEdits`: Twitch `edit` parses its id from the word `edit` itself.
- `AliasNeverAliases`: Twitch `alias` refuses every numeric id.
- `UnknownSubcommand`: the legacy command attempts a `Pong!` reply after the secret message. That call fails on a deferred interaction.
- `SearchMissesCapitals`: search lower-cases only the term, not the stored text.
- `QuotesApi.Route`: the API sends a body after the 404.

## Model

| member | source | states |
|---|---|---|
| Quotes.DateString | src/quotes/quotes.ts:12-15 | the date text is `day/month/year` with the zero-based month: it splits at `/` into exactly the decimal texts of the three calendar fields |
| Quotes.DateStringFields | src/quotes/quotes.ts:12-15 | each of the three parts of the date text parses back with `parseInt` to its calendar field |
| Quotes.NewId | src/quotes/quotes.ts:22-36 | the rowid given to an inserted row is not held by any row, and is positive in a well-formed table |
| Quotes.Add | src/quotes/quotes.ts:22-36 | an insert that throws leaves the table alone and yields `undefined`; otherwise the row is appended under the new rowid with the column default as alias, the result is the new quote without alias, and it is `undefined` only when the rowid is 0 (the falsy check); a well-formed table stays well-formed and then `undefined` means exactly that the insert threw |
| Quotes.AddThenGet | src/quotes/quotes.ts:22-36 | after an add, `getQuoteById` of the new id gives back the text, the date and the column-default alias |
| Quotes.AddZeroRowid | src/quotes/quotes.ts:22-36 | for any table, an insert that does not throw yields `undefined` exactly when the largest id is -1 (the new rowid is 0, which the check at line 30 takes as falsy); the row is still appended; a well-formed table never has largest id -1 |
| Quotes.AddZeroRowidWitness | src/quotes/quotes.ts:30 | a table whose only row has id -1 reaches the falsy check: the row is inserted and `undefined` is returned |
| Quotes.Delete | src/quotes/quotes.ts:43-51 | the result is true exactly when the statement does not throw, even if no row was removed; afterwards no row has the id, every other row is kept, no row is added, and the ids stay ascending |
| Quotes.WithoutAscending | src/quotes/quotes.ts:43-51 | removing the rows of one id keeps the ids positive and strictly ascending |
| Quotes.DeleteThenGet | src/quotes/quotes.ts:43-51 | after a delete that did not throw, `getQuoteById` of that id gives `undefined` |
| Quotes.DeleteIdempotent | src/quotes/quotes.ts:43-51 | deleting an id twice leaves the same table and result as deleting it once |
| Quotes.WithoutAbsent | src/quotes/quotes.ts:43-51 | a delete of an id that no row has keeps every row |
| Quotes.Edit | src/quotes/quotes.ts:58-69 | only the text of the rows with that id changes (ids, dates, aliases and other rows stay); the result is that row re-read; when the statement throws, the table is unchanged and the result is `undefined` |
| Quotes.EditThenGet | src/quotes/quotes.ts:58-69 | editing an existing quote yields the quote as before with only its text replaced |
| Quotes.EditReturnsNewText | src/quotes/quotes.ts:58-69 | in any table, editing an id that some row has yields a quote with that id and the new text |
| Quotes.EditAbsent | src/quotes/quotes.ts:58-69 | editing an id no row has changes nothing and yields `undefined` |
| Quotes.ReturnedAlias | src/quotes/quotes.ts:94-95 | the alias filter `a \|\| a !== 'NONE' ? a : undefined` passes every alias through unchanged |
| Quotes.FindById | src/quotes/quotes.ts:82-101 | the row found has the id, and none is found exactly when no row has it |
| Quotes.QuoteById | src/quotes/quotes.ts:82-101 | `undefined` exactly when the key is NaN or no row has the id; otherwise a stored row with that id |
| Quotes.UniqueIdFound | src/quotes/quotes.ts:82-101 | in a well-formed table, looking up the id of a row finds that very row |
| Quotes.FindByAlias | src/quotes/quotes.ts:103-121 | the row found is the first one in scan order that carries the alias; none is found exactly when no row carries it |
| Quotes.QuoteByAlias | src/quotes/quotes.ts:103-121 | `undefined` exactly when no row carries the alias; otherwise a stored row carrying it |
| Quotes.RandomQuote | src/quotes/quotes.ts:123-138 | `undefined` exactly on an empty table; otherwise some stored quote |
| Quotes.Matching | src/quotes/quotes.ts:140-161 | keeps exactly the rows whose text contains the term |
| Quotes.SearchQuote | src/quotes/quotes.ts:140-161 | the quotes returned are the matching rows in scan order, and an array result always holds two or more quotes |
| Quotes.SearchExact | src/quotes/quotes.ts:140-161 | a quote is in the search result exactly when some stored row whose text contains the lower-cased term gives it |
| Quotes.SearchCardinality | src/quotes/quotes.ts:140-161 | no match gives `undefined`, exactly one match gives a bare quote, and two or more give an array |
| Quotes.SearchMissesCapitals | src/quotes/quotes.ts:144 | only the term is lower-cased, so a stored text without lower-case letters is never found by a term that holds a letter |
| Quotes.SetAlias | src/quotes/quotes.ts:163-174 | only the alias of the row with the id changes, and the result is `getQuoteByAlias` on the new table |
| Quotes.SetAliasThenGet | src/quotes/quotes.ts:163-174 | when no other row carries the alias, the result is the aliased quote, which is the same as `getQuoteById` afterwards |
| Quotes.AliasOnlyOnTarget | src/quotes/quotes.ts:163-174 | after an alias update that no other row shared, only the target row carries the alias and the table stays well-formed |
| Quotes.SetAliasCollision | src/quotes/quotes.ts:163-174 | for any table, when row `j` carries the alias and no row before it carries the alias or has the target id, the answer is row `j`, not the row just updated |
| Quotes.SetAliasAbsent | src/quotes/quotes.ts:163-174 | aliasing an id that is NaN or absent changes nothing and answers with whichever row already has the alias |
| Quotes.LatestQuote | src/quotes/quotes.ts:176-192 | `undefined` exactly on an empty table; otherwise a stored quote whose id is the largest |
| Quotes.LatestAfterAdd | src/quotes/quotes.ts:176-192 | right after an add to a well-formed table, the latest quote is the one just added |
| Quotes.QuoteStore.constructor | src/quotes/quotes.ts:3 | the shared table is whatever well-formed table (positive ids, ascending in rowid order) the database file already holds when the module opens it |
| Quotes.QuoteStore.AddQuote | src/quotes/quotes.ts:22-36 | the shared table becomes what `Add` gives and stays well-formed; a returned quote has a fresh positive id, and `undefined` means exactly that the insert threw |
| Quotes.QuoteStore.DeleteQuote | src/quotes/quotes.ts:43-51 | the shared table becomes what `Delete` gives and stays well-formed; the result is true exactly when nothing threw, and then the id is gone |
| Quotes.QuoteStore.EditQuote | src/quotes/quotes.ts:58-69 | the shared table becomes what `Edit` gives and stays well-formed; a returned quote has the id and the new text |
| Quotes.QuoteStore.AliasQuote | src/quotes/quotes.ts:163-174 | the shared table becomes what `SetAlias` gives and stays well-formed; a returned quote carries the alias |
| DiscordQuoteHandler.OrElse | src/discord/commands/handlers/discordQuoteHandler.ts:26-64 | `option \|\| fallback`: the option when it is a non-empty string, the fallback otherwise |
| DiscordQuoteHandler.QuoteEmbed | src/discord/commands/handlers/discordQuoteHandler.ts:26-64 | the title and description overrides win over `Quote #<id>` and the text; there is a footer exactly when one is given or the alias is real (not empty, `NONE` or `unknown`), and a given footer wins over `Also known as`; the given fields replace the `Quoted on` field |
| DiscordQuoteHandler.DefaultQuoteEmbed | src/discord/commands/handlers/discordQuoteHandler.ts:26-64 | without options the embed shows `Quote #<id>`, the text, the date field, and the alias footer exactly for a real alias |
| DiscordQuoteHandler.QuoteNotFoundEmbed | src/discord/commands/handlers/discordQuoteHandler.ts:84-107 | the search string wins over the alias, which wins over the id; with none of them there is no description |
| DiscordQuoteHandler.GetEmbed | src/discord/commands/handlers/discordQuoteHandler.ts:137-176 | with no options a random quote is shown, or the error embed on an empty table; a missing id ends with "not found" for the id; otherwise a given alias decides, and an id alone shows its quote |
| DiscordQuoteHandler.SearchEmbed | src/discord/commands/handlers/discordQuoteHandler.ts:240-326 | no match shows "Quote not found", with the search text in the description when it is not empty; one match shows that quote's default embed; several matches show the first one titled `Quote #<id> - 1/<count>` with its text and date field |
| DiscordQuoteHandler.SearchReply | src/discord/commands/handlers/discordQuoteHandler.ts:240-326 | search leaves the table unchanged and sends exactly the one search embed, whether or not the user is a moderator |
| DiscordQuoteHandler.Handle | src/discord/commands/handlers/discordQuoteHandler.ts:109-335 | every subcommand sends at least one reply; only add, and edit or delete by a moderator, can change the table |
| DiscordQuoteHandler.ModeratorsOnly | src/discord/commands/handlers/discordQuoteHandler.ts:177-218 | without the moderator role, edit and delete answer "Access Denied" and change nothing |
| DiscordQuoteHandler.DeleteEndsWithSuccess | src/discord/commands/handlers/discordQuoteHandler.ts:219-238 | a moderator's delete always ends with the success embed; the error embed comes before it exactly when the statement throws; otherwise the id is gone |
| DiscordQuoteHandler.GetBothPrefersAlias | src/discord/commands/handlers/discordQuoteHandler.ts:151-175 | with both an id and an alias, a missing id gives "not found" for the id; otherwise the alias's quote, or "not found" for the alias, is shown |
| DiscordQuoteHandler.GetReply | src/discord/commands/handlers/discordQuoteHandler.ts:137-176 | `get` leaves the table unchanged and shows exactly the one embed `GetEmbed` describes, whether or not the user is a moderator |
| DiscordQuoteHandler.OtherReply | src/discord/commands/handlers/discordQuoteHandler.ts:327-333 | an unknown subcommand leaves the table unchanged and sends only the secret message |
| DiscordQuoteHandler.AddReply | src/discord/commands/handlers/discordQuoteHandler.ts:115-136 | the role plays no part; a failed insert shows only the error embed and keeps the table; otherwise the reply is titled `Added quote #<id>` with a fresh id under which `getQuoteById` now returns the text, today's date string and the column default for `alias`, and its description is the text |
| DiscordQuoteHandler.EditReply | src/discord/commands/handlers/discordQuoteHandler.ts:177-206 | a moderator's edit leaves the table `editQuote` leaves; the only reply is the error embed exactly when `editQuote` gives `undefined`, which happens exactly when the update throws or no row has the id; otherwise one embed titled `Edited quote #<id>` carries the new text |
| DiscordQuoteHandler.PageTitleWords | src/discord/commands/handlers/discordQuoteHandler.ts:253 | the page title splits at spaces into `Quote`, `#<id>`, `-` and `<position>/<count>` |
| DiscordQuoteHandler.PositionParses | src/discord/commands/handlers/discordQuoteHandler.ts:296 | `<position>/<count>` reads back with `parseInt(_, 10)` as the position |
| DiscordQuoteHandler.PageTitleNumber | src/discord/commands/handlers/discordQuoteHandler.ts:296 | the last word of a page title reads back as the one-based page number |
| DiscordQuoteHandler.NextIndex | src/discord/commands/handlers/discordQuoteHandler.ts:290-318 | one arrow never leaves the valid pages; the right arrow never moves back and moves forward by one exactly when the index is before the last page; the left arrow never moves forward and moves back by one exactly when the index is after the first page |
| DiscordQuoteHandler.IndexAfterInRange | src/discord/commands/handlers/discordQuoteHandler.ts:259-318 | whatever arrows are pressed, starting from 0, the index stays a valid page |
| DiscordQuoteHandler.RightArrowsReach | src/discord/commands/handlers/discordQuoteHandler.ts:290-303 | `k` right arrows from the first page reach page `k`, or stop on the last |
| DiscordQuoteHandler.SearchPager.constructor | src/discord/commands/handlers/discordQuoteHandler.ts:249-259 | paging starts at index 0 over a result of at least two quotes |
| DiscordQuoteHandler.SearchPager.Collect | src/discord/commands/handlers/discordQuoteHandler.ts:290-318 | the index moves as `NextIndex` says; a page is shown exactly when it moved, and it is the page at the new index; the reaction is removed for every right arrow but for a left arrow only when the index moved |
| DiscordQuoteCommand.LegacyNotFoundEmbed | src/discord/commands/quote.ts:294-308 | the alias's description wins over the id's; with neither there is no description |
| DiscordQuoteCommand.NotFoundBuildersAgree | src/discord/commands/quote.ts:294-308 | the legacy "not found" embed equals the handler's when no search string is given |
| DiscordQuoteCommand.LegacyGetEmbed | src/discord/commands/quote.ts:117-160 | the same decisions as the handler's `get`, using the legacy "not found" embed |
| DiscordQuoteCommand.Execute | src/discord/commands/quote.ts:92-231 | every subcommand sends at least one reply; only add, and edit or delete by a moderator, can change the table |
| DiscordQuoteCommand.ExecuteAgrees | src/discord/commands/quote.ts:92-223 | on add, get, edit and delete the legacy command leaves the same table and sends the same replies as the handler |
| DiscordQuoteCommand.UnknownSubcommand | src/discord/commands/quote.ts:224-231 | any other subcommand, `search` included, changes nothing and sends the secret message and then attempts a `Pong!` reply, where the handler sends only the message |
| TwitchQuote.Arg | src/twitch/handleTwitchQuote.ts:64 | `args[i]` is a word exactly when `i` is in range, and `undefined` past the end |
| TwitchQuote.QuoteReply | src/twitch/handleTwitchQuote.ts:131-140 | the reply starts with `#<id>: <text> <date>` and ends with a space; it is exactly that header and the space when the alias is `NONE`, and otherwise `. Also known as <alias>` follows the header |
| TwitchQuote.IdList | src/twitch/handleTwitchQuote.ts:44-47 | the id list is empty exactly when there are no quotes, starts with `'<id>` of the first quote, and is just that entry for one quote |
| TwitchQuote.IdListSplit | src/twitch/handleTwitchQuote.ts:44-47 | the id list of a multi-quote search splits at its commas into one `'<id>` entry per quote, in order |
| TwitchQuote.NoArgsRandom | src/twitch/handleTwitchQuote.ts:23-29 | with no words, the table stays, and the reply is the error text on an empty table and otherwise a stored quote |
| TwitchQuote.SearchAnswers | src/twitch/handleTwitchQuote.ts:30-52 | search never changes the table; without a term it asks for a search string; with one it answers with "could not find", with the single quote, or with the ids of all matches, by the number of matches |
| TwitchQuote.AddJoinsArgs | src/twitch/handleTwitchQuote.ts:53-58 | the role plays no part; add stores the remaining words joined by single spaces under a fresh id that the reply names; when the insert throws, the table stays and the reply is the error text |
| TwitchQuote.Handle | src/twitch/handleTwitchQuote.ts:15-129 | every branch replies, except an alias by a moderator, which is the only branch that can stay silent |
| TwitchQuote.WritesNeedMod | src/twitch/handleTwitchQuote.ts:59-108 | without the moderator role, delete, edit and alias only answer that the permission is missing |
| TwitchQuote.DeleteById | src/twitch/handleTwitchQuote.ts:59-72 | a moderator's delete whose second word parses to NaN or 0 changes nothing and asks for a proper id; with any other number it removes that quote, keeps every other row and reports the id, or answers with the error text when the statement throws |
| TwitchQuote.EditIdIsNaN | src/twitch/handleTwitchQuote.ts:79 | the id `edit` parses is `parseInt("edit")`, which is NaN |
| TwitchQuote.EditNeverEdits | src/twitch/handleTwitchQuote.ts:73-87 | a moderator's edit always answers "Please provide a proper quoteId" and never changes the table |
| TwitchQuote.AliasNeverAliases | src/twitch/handleTwitchQuote.ts:88-108 | alias never changes the table; a numeric id is refused with the format message; the reply is empty exactly when the id is NaN and some quote already carries the alias |
| TwitchQuote.OnlyAddAndDeleteWrite | src/twitch/handleTwitchQuote.ts:21-128 | every branch other than add and delete leaves the table unchanged |
| TwitchQuote.DefaultRoute | src/twitch/handleTwitchQuote.ts:110-127 | a first word that is not a subcommand is looked up |
| TwitchQuote.LookupById | src/twitch/handleTwitchQuote.ts:111-119 | a word from which `parseInt` reads a number looks up that id, with "could not be found" when it is absent |
| TwitchQuote.DefaultById | src/twitch/handleTwitchQuote.ts:110-127 | the decimal text of an id looks up that id |
| TwitchQuote.DefaultDigitsThenText | src/twitch/handleTwitchQuote.ts:111-119 | a word made of digits followed by text (such as `12abc`) looks up the id of the digits, not an alias |
| TwitchQuote.DefaultByAlias | src/twitch/handleTwitchQuote.ts:120-126 | a word that starts with no digit, sign or space is looked up as an alias |
| TwitchBot.FindEnabled | src/twitch/twitchBot.ts:94-98 | the row found is the first enabled row of that name in scan order, and none is found exactly when no such row exists |
| TwitchBot.Route | src/twitch/twitchBot.ts:78-103 | a first word without `!` is ignored; the quote handler is called exactly for `!quote`, with the remaining words; for any other `!<name>` the answer is the response of the row `FindEnabled` finds for the name, exactly when that row exists and its response is non-empty, and otherwise the message is ignored |
| TwitchBot.OnMessage | src/twitch/twitchBot.ts:78-91 | the words handed to the quote handler, joined again behind `!quote` by single spaces, give back the trimmed message |
| TwitchBot.Dispatch | src/twitch/twitchBot.ts:74-104 | a message that does not reach the quote handler leaves the table unchanged |
| TwitchBot.CommandLineWords | src/twitch/twitchBot.ts:78 | trim and split turn `<!command> <word> <text>` into the command, the word and the words of the text |
| TwitchBot.QuoteMessage | src/twitch/twitchBot.ts:78-91 | a message whose words are `!quote` followed by `args` hands `args` to the quote handler |
| TwitchBot.QuoteLineWords | src/twitch/twitchBot.ts:78-91 | `!quote <word> <text>` hands the word and the words of the text to the quote handler |
| TwitchBot.RouteQuote | src/twitch/twitchBot.ts:89-91 | `!quote` routes every remaining word to the quote handler |
| TwitchBot.QuoteAddStoresText | src/twitch/twitchBot.ts:74-91 | a chat message `!quote add <text>` stores the text exactly, inner spaces included, under a fresh id that the reply names |
| TwitchBot.CustomCommand | src/twitch/twitchBot.ts:78-101 | `!<name>`, alone or followed by further words, for a name other than `quote`, answers with the response of the first enabled row of that name, or stays silent when there is none or it is empty |
| TwitchBot.PlainChatIgnored | src/twitch/twitchBot.ts:78-83 | a message that does not start with `!` after trimming is ignored |
| QuotesApi.FoundBody | src/api/quotesApi.ts:19-20 | a search result gives no body exactly when nothing matched |
| QuotesApi.QuoteBody | src/api/quotesApi.ts:14-18 | a lookup gives no body exactly when nothing was found, and otherwise that one quote |
| QuotesApi.Lookup | src/api/quotesApi.ts:12-23 | `quoteNumber` (read with `parseInt(_, 10)`), then `alias`, then `search` decide by precedence, and an empty value counts as absent; with none of them the body is the random quote `getRandomQuote` gives, missing exactly on an empty table |
| QuotesApi.Route | src/api/quotesApi.ts:24-27 | the route sends status 404 first exactly when the lookup found nothing, and it always ends by sending the lookup's result |
| QuotesApi.QuoteNumberRoundTrip | src/api/quotesApi.ts:14-16 | a `quoteNumber` that is the decimal text of an id answers with that quote, or with 404 when no row has it, whatever the other parameters say |
| QuotesApi.QuoteNumberNaN | src/api/quotesApi.ts:14-16 | a `quoteNumber` without digits matches nothing: 404 |
| QuotesApi.EmptyParameterSkipped | src/api/quotesApi.ts:14-18 | an empty `quoteNumber` is skipped in favour of the alias |
| RemoteQuote.RequestUrl | src/quotes/getRemoteQuote.ts:20-38 | no words requests the bare URL; a numeric first word requests `?quoteNumber=<id>`; otherwise all words joined by spaces are sent as `?alias=` |
| RemoteQuote.ToQuote | src/quotes/getRemoteQuote.ts:50-56 | the remote record maps to a quote with its id, text, `quotedOn` as the date, and its alias |
| RemoteQuote.GetRemoteQuote | src/quotes/getRemoteQuote.ts:20-57 | `undefined` exactly when the request fails, the status is not ok, or the body is not JSON; otherwise the mapped record |
| RemoteQuote.QuoteNumberRoundTrip | src/quotes/getRemoteQuote.ts:31-38 | the query value of a quote-number request reads back as the id asked for |
| RemoteQuote.AliasCarriesAllWords | src/quotes/getRemoteQuote.ts:31-36 | an alias request carries every word, and splitting its value at spaces gives the words back |
| Js.Trim | src/twitch/twitchBot.ts:78 | the input is the trimmed text with a run of whitespace before it and another after it; the trimmed text neither starts nor ends with whitespace, and is empty exactly when the input is all whitespace |
| Js.Split | src/twitch/twitchBot.ts:78 | a split yields at least one part, and no part holds the separator |
| Js.Join | src/twitch/handleTwitchQuote.ts:54 | a join starts with its first part, followed by the separator when there are two or more parts |
| Js.Lower | src/quotes/quotes.ts:144 | the lower-cased text has the same length, and each character is the lower-case form of the one at that position |
| Js.IntToString | src/twitch/handleTwitchQuote.ts:57 | the decimal text of an integer is non-empty, has only digits and `-`, starts with a digit or `-`, and holds no `/` or space |
| Js.ParseInt | src/twitch/handleTwitchQuote.ts:64 | `parseInt` yields a number only from a text that holds a decimal digit |
| Js.TrimIdentity | src/twitch/twitchBot.ts:78 | `trim` leaves a string unchanged exactly when it neither starts nor ends with whitespace |
| Js.JoinSplit | src/twitch/twitchBot.ts:78 | joining the parts of a split with the same separator gives back the original string |
| Js.SplitJoin | src/twitch/handleTwitchQuote.ts:54 | splitting a join of separator-free parts gives back the parts |
| Js.SplitAfterPart | src/twitch/twitchBot.ts:78 | splitting `a`, a separator and `b`, where `a` holds no separator, gives `a` and then the parts of `b` |
| Js.Includes | src/quotes/quotes.ts:140-161 | `includes` holds exactly when the needle occurs at some position |
| Js.LowerHasNoCapitals | src/quotes/quotes.ts:144 | a lower-cased string holds no ASCII capital, and each of its ASCII letters is lower case |
| Js.ParseIntToString | src/api/quotesApi.ts:15 | the decimal text of an integer reads back as that integer, with or without radix 10 |
| Js.ParseIntDigitPrefix | src/twitch/handleTwitchQuote.ts:111 | `parseInt` reads the leading run of decimal digits and ignores what follows |
| Js.ParseIntNoDigits | src/twitch/handleTwitchQuote.ts:111 | a string whose first non-blank character is no digit or sign reads as NaN |
| Js.NatToStringValue | src/twitch/handleTwitchQuote.ts:57 | the decimal text of a natural number has that number as its digit value |

## Left out

- Reads that throw are not modelled; every read here succeeds. `getRandomQuote` and `getLatestQuote` catch a failing read and return `undefined`. `getQuoteById`, `getQuoteByAlias`, `searchQuote` and `aliasQuote` log it and throw it again. Where a caller catches the rethrow, the model does not have that path either:
  - `editQuote` re-reads the row inside its own `try` (src/quotes/quotes.ts:59-68), so a failing read-back turns into `undefined` after the update has run. `Quotes.Edit` yields `undefined` only when the update throws, and then leaves the table unchanged.
  - The Twitch search branch (src/twitch/handleTwitchQuote.ts:48-51) catches a failing `searchQuote` and replies with the error text.
  - The Twitch alias branch (src/twitch/handleTwitchQuote.ts:99-106) catches a failing `aliasQuote` and replies with the error text.
  - Everywhere else a failing read ends the handler: the Discord `get` and `search` subcommands, the Twitch lookup by id or alias, and the API route.
- Write failures are modelled for `addQuote`, `deleteQuote` and `editQuote`, which catch them.
- `toLowerCase` is modelled for ASCII letters only. Unicode case mapping is not modelled.
- `Date.now()` is replaced by the calendar fields it yields, `Today`. The time zone is not modelled.
- `ORDER BY random()` is replaced by the parameter `pick`.
- Discord (discord.js) is abstracted. Embeds are records and replies are a list. Reaction collectors become the `SearchPager` class, with one `Collect` call per collected arrow of the searching user. `isChatInputCommand`, `deferReply`, `allowedMentions` and `content` are not modelled. The moderator role lookup becomes `isMod`.
- Twitch is abstracted. The mod list (`getMods`) becomes `isMod`, and `reply` becomes the returned string.
- Express is abstracted. The route is the list of response calls it makes. The second call after a 404 would fail at run time because the headers are already sent; only the order of the calls is modelled. Query values that are arrays or objects are not modelled; each parameter is an optional string.
- `fetch` and `json()` are a function parameter of `GetRemoteQuote`. URL encoding of the query value is not modelled, and neither is the URL of the remote service beyond its literal.
- The schema script dbSetup.sql is not part of this model. The column default of `alias` is a parameter of the table, `aliasDefault`.
- SQLite's rowid rule is modelled only as "largest id plus one", which is its rule for a rowid table without AUTOINCREMENT while the largest rowid is below its maximum. The schema (dbSetup.sql) is not part of this model, so whether the table uses AUTOINCREMENT is not checked. The behaviour at the largest 64-bit rowid is left out.
- JavaScript numbers are modelled as unbounded integers. Precision loss beyond 2^53 is not modelled, and neither is the `-0` that `parseInt("-0")` yields, which behaves like 0 in every use here.
- Bot startup, OAuth token refresh, chat connection and database opening are outside the core.
- The legacy `quote.ts` ends every command with `interaction.reply('Pong!')`. Only the path that reaches it without an earlier `return`, the default branch, is modelled; that a second reply on an answered interaction fails is not modelled.
- TwitchQuote.NoArgsRandom: states that the reply on a non-empty table is a stored quote's reply, but does not prove that this reply differs from the error text.
