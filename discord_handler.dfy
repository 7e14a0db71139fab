/** The `/quote` slash command of src/discord/commands/handlers/discordQuoteHandler.ts: the
    embed builders, the subcommand decisions, and the paging through a multi-quote search
    result. An embed is a plain record; the reply the handler edits into the deferred
    interaction is the list of replies it sends, the last one being what stays visible. */
module DiscordQuoteHandler {
  import opened Wrappers
  import opened Js
  import Quotes

  datatype Field = Field(name: string, value: string, inline: bool)

  /** The parts of an `EmbedBuilder` the handler sets. */
  datatype Embed = Embed(
    color: string,
    title: string,
    description: Option<string>,
    author: Option<string>,
    footer: Option<string>,
    fields: seq<Field>)

  /** The optional overrides of `buildQuoteEmbed`; an absent options object is `NoOptions`. */
  datatype EmbedOptions = EmbedOptions(
    color: Option<string>,
    author: Option<string>,
    title: Option<string>,
    description: Option<string>,
    fields: Option<seq<Field>>,
    footer: Option<string>)

  const NoOptions := EmbedOptions(None, None, None, None, None, None)

  function Titled(title: string): EmbedOptions {
    NoOptions.(title := Some(title))
  }

  /** `option || fallback` for an optional string. */
  function OrElse(option: Option<string>, fallback: string): (s: string)
    ensures Truthy(option) ==> s == option.value
    ensures !Truthy(option) ==> s == fallback
  {
    if Truthy(option) then option.value else fallback
  }

  /** An alias worth showing: truthy and neither of the sentinels `'NONE'` and `'unknown'`. */
  predicate IsRealAlias(alias: Option<string>) {
    Truthy(alias) && alias.value != "NONE" && alias.value != "unknown"
  }

  /** An id option counts when it is given and non-zero (`if (id)`). */
  predicate TruthyId(id: Option<int>) {
    id.Some? && id.value != 0
  }

  /** `buildQuoteEmbed(quote, options)`. */
  function QuoteEmbed(q: Quotes.Quote, options: EmbedOptions): (e: Embed)
    ensures e.title == OrElse(options.title, "Quote #" + IntToString(q.id))
    ensures e.description == Some(OrElse(options.description, q.quote))
    ensures e.footer.Some? <==> Truthy(options.footer) || IsRealAlias(q.alias)
    ensures Truthy(options.footer) ==> e.footer == options.footer
    ensures !Truthy(options.footer) && IsRealAlias(q.alias) ==> e.footer == Some("Also known as: " + q.alias.value)
    ensures e.fields == if options.fields.Some? then options.fields.value else [Field("Quoted on", q.date, true)]
  {
    var base := Embed(
      OrElse(options.color, "#a91438"),
      OrElse(options.title, "Quote #" + IntToString(q.id)),
      Some(OrElse(options.description, q.quote)),
      Some(if options.author.Some? then options.author.value else "Flohabot - Quotes"),
      None,
      []);
    var withFooter :=
      if Truthy(options.footer) || IsRealAlias(q.alias) then
        base.(footer := Some(if Truthy(options.footer) then options.footer.value else "Also known as: " + q.alias.value))
      else base;
    withFooter.(fields := if options.fields.Some? then options.fields.value else [Field("Quoted on", q.date, true)])
  }

  /** The default embed of a quote: `Quote #<id>`, the text, one inline `Quoted on` field with
      the date, and the `Also known as` footer exactly when the alias is a real one. */
  lemma DefaultQuoteEmbed(q: Quotes.Quote)
    ensures var e := QuoteEmbed(q, NoOptions);
      && e.title == "Quote #" + IntToString(q.id)
      && e.description == Some(q.quote)
      && e.fields == [Field("Quoted on", q.date, true)]
      && (e.footer.Some? <==> IsRealAlias(q.alias))
      && (IsRealAlias(q.alias) ==> e.footer == Some("Also known as: " + q.alias.value))
  {
  }

  const ErrorEmbed := Embed("#ff0000", "Something went wrong",
    Some("Please try again. If it still doesn't work #blameFloha"), None, None, [])

  const PermissionDeniedEmbed := Embed("#ff0000", "Access Denied",
    Some("You have insufficient permissions to perform this action"), None, None, [])

  function DeletedEmbed(id: int): Embed {
    Embed("#00ff00", "Deleted Quote",
      Some("Successfully deleted quote #" + IntToString(id) + ". It will be missed"), None, None, [])
  }

  /** `buildQuoteNotFoundEmbed({id, alias, searchString})`: each given option overwrites the
      description set by the one before, so the search string wins over the alias, which wins
      over the id; with none of them there is no description. */
  function QuoteNotFoundEmbed(id: Option<int>, alias: Option<string>, searchString: Option<string>): (e: Embed)
    ensures e.title == "Quote not found" && e.color == "#ffff00" && e.footer.None? && e.fields == []
    ensures e.description.None? <==> !TruthyId(id) && !Truthy(alias) && !Truthy(searchString)
    ensures Truthy(searchString) ==>
      e.description == Some("Could not found any quote that includes '" + searchString.value + "'")
    ensures !Truthy(searchString) && Truthy(alias) ==>
      e.description == Some("Quote with alias " + alias.value + " does not exist")
    ensures !Truthy(searchString) && !Truthy(alias) && TruthyId(id) ==>
      e.description == Some("Quote with id #" + IntToString(id.value) + " does not exist")
  {
    var e0 := Embed("#ffff00", "Quote not found", None, None, None, []);
    var e1 := if TruthyId(id) then e0.(description := Some("Quote with id #" + IntToString(id.value) + " does not exist")) else e0;
    var e2 := if Truthy(alias) then e1.(description := Some("Quote with alias " + alias.value + " does not exist")) else e1;
    if Truthy(searchString) then e2.(description := Some("Could not found any quote that includes '" + searchString.value + "'")) else e2
  }

  // ---------------------------------------------------------------------------
  // Subcommands

  datatype Subcommand =
    | Add(quote: string)
    | Get(id: Option<int>, alias: Option<string>)
    | Edit(editId: int, quote: string)
    | Delete(deleteId: int)
    | Search(text: string)
    | Other(name: string)

  datatype Reply = Show(embed: Embed) | Text(text: string)

  const SECRET_MESSAGE := "You have found the super secret message. Congratulations. This really shouldn't happen"

  /** The embed `get` shows. With neither option a random quote (the error embed on an empty
      table); otherwise the id is looked up first, and a missing id ends with "not found" for
      the id; then a given alias is looked up and its result replaces the id's. */
  function GetEmbed(t: Quotes.Table, id: Option<int>, alias: Option<string>, pick: nat): (e: Embed)
    ensures !TruthyId(id) && !Truthy(alias) ==>
      e == match Quotes.RandomQuote(t, pick)
           case None => ErrorEmbed
           case Some(q) => QuoteEmbed(q, NoOptions)
    ensures TruthyId(id) && Quotes.QuoteById(t, Int(id.value)).None? ==> e == QuoteNotFoundEmbed(id, None, None)
    ensures (TruthyId(id) ==> Quotes.QuoteById(t, Int(id.value)).Some?) && Truthy(alias) ==>
      e == match Quotes.QuoteByAlias(t, alias.value)
           case None => QuoteNotFoundEmbed(None, alias, None)
           case Some(q) => QuoteEmbed(q, NoOptions)
    ensures TruthyId(id) && !Truthy(alias) && Quotes.QuoteById(t, Int(id.value)).Some? ==>
      e == QuoteEmbed(Quotes.QuoteById(t, Int(id.value)).value, NoOptions)
  {
    if !TruthyId(id) && !Truthy(alias) then
      match Quotes.RandomQuote(t, pick)
      case None => ErrorEmbed
      case Some(q) => QuoteEmbed(q, NoOptions)
    else if TruthyId(id) && Quotes.QuoteById(t, Int(id.value)).None? then
      QuoteNotFoundEmbed(id, None, None)
    else if Truthy(alias) then
      match Quotes.QuoteByAlias(t, alias.value)
      case None => QuoteNotFoundEmbed(None, alias, None)
      case Some(q) => QuoteEmbed(q, NoOptions)
    else
      QuoteEmbed(Quotes.QuoteById(t, Int(id.value)).value, NoOptions)
  }

  /** The embed `search` shows first: "not found" naming the search string, the single quote,
      or page 1 of the results. An empty search string matches every quote, and on an empty
      table it leaves the "not found" embed without a description. */
  function SearchEmbed(t: Quotes.Table, text: string): (e: Embed)
    ensures var found := Quotes.FoundQuotes(Quotes.SearchQuote(t, text));
      && (found == [] ==> e.title == "Quote not found")
      && (found == [] ==>
            e.description == if text == "" then None
                             else Some("Could not found any quote that includes '" + text + "'"))
      && (|found| == 1 ==> e == QuoteEmbed(found[0], NoOptions))
      && (|found| >= 2 ==>
            && e.title == "Quote #" + IntToString(found[0].id) + " - 1/" + IntToString(|found|)
            && e.description == Some(found[0].quote)
            && e.fields == [Field("Quoted on", found[0].date, true)])
  {
    match Quotes.SearchQuote(t, text)
    case NoMatch => QuoteNotFoundEmbed(None, None, Some(text))
    case Single(q) => QuoteEmbed(q, NoOptions)
    case Multiple(qs) =>
      FirstPageTitle(qs);
      PageEmbed(qs, 0)
  }

  /** The title of the first page reads `Quote #<id> - 1/<count>`. */
  lemma FirstPageTitle(qs: seq<Quotes.Quote>)
    requires qs != []
    ensures PageTitle(qs, 0) == "Quote #" + IntToString(qs[0].id) + " - 1/" + IntToString(|qs|)
  {
    assert IntToString(0 + 1) == "1";
  }

  /** `discordQuoteHandler`: the table afterwards and the replies, in the order they are sent. */
  function Handle(t: Quotes.Table, cmd: Subcommand, isMod: bool, env: Quotes.Env): (res: (Quotes.Table, seq<Reply>))
    ensures |res.1| >= 1
    ensures !cmd.Add? && !(cmd.Edit? && isMod) && !(cmd.Delete? && isMod) ==> res.0 == t
  {
    match cmd
    case Add(text) =>
      var (t', q) := Quotes.Add(t, text, env.today, env.writeThrows);
      if q.None? then (t', [Show(ErrorEmbed)])
      else (t', [Show(QuoteEmbed(q.value, Titled("Added quote #" + IntToString(q.value.id))))])
    case Get(id, alias) =>
      (t, [Show(GetEmbed(t, id, alias, env.pick))])
    case Edit(id, text) =>
      if !isMod then (t, [Show(PermissionDeniedEmbed)])
      else
        var (t', q) := Quotes.Edit(t, id, text, env.writeThrows);
        if q.None? then (t', [Show(ErrorEmbed)])
        else (t', [Show(QuoteEmbed(q.value, Titled("Edited quote #" + IntToString(q.value.id))))])
    case Delete(id) =>
      if !isMod then (t, [Show(PermissionDeniedEmbed)])
      else
        var (t', ok) := Quotes.Delete(t, id, env.writeThrows);
        (t', (if ok then [] else [Show(ErrorEmbed)]) + [Show(DeletedEmbed(id))])
    case Search(text) =>
      (t, [Show(SearchEmbed(t, text))])
    case Other(_) =>
      (t, [Text(SECRET_MESSAGE)])
  }

  /** `search` changes nothing and sends the one embed `SearchEmbed` describes, for moderators
      and everyone else alike. */
  lemma SearchReply(t: Quotes.Table, text: string, isMod: bool, env: Quotes.Env)
    ensures Handle(t, Search(text), isMod, env) == (t, [Show(SearchEmbed(t, text))])
    ensures Handle(t, Search(text), isMod, env) == Handle(t, Search(text), !isMod, env)
  {
  }

  /** `get` changes nothing and shows the one embed `GetEmbed` describes, whatever the role. */
  lemma GetReply(t: Quotes.Table, id: Option<int>, alias: Option<string>, isMod: bool, env: Quotes.Env)
    ensures Handle(t, Get(id, alias), isMod, env) == (t, [Show(GetEmbed(t, id, alias, env.pick))])
    ensures Handle(t, Get(id, alias), isMod, env) == Handle(t, Get(id, alias), !isMod, env)
  {
  }

  /** Any other subcommand changes nothing and sends only the secret message. */
  lemma OtherReply(t: Quotes.Table, name: string, isMod: bool, env: Quotes.Env)
    ensures Handle(t, Other(name), isMod, env) == (t, [Text(SECRET_MESSAGE)])
  {
  }

  /** Without the moderator role, `edit` and `delete` answer "Access Denied" and leave the table
      alone. */
  lemma ModeratorsOnly(t: Quotes.Table, cmd: Subcommand, env: Quotes.Env)
    requires cmd.Edit? || cmd.Delete?
    ensures Handle(t, cmd, false, env) == (t, [Show(PermissionDeniedEmbed)])
  {
  }

  /** `delete` by a moderator always ends with the success embed: when `deleteQuote` fails, the
      error embed is sent first and then overwritten, since no `return` follows it. */
  lemma DeleteEndsWithSuccess(t: Quotes.Table, id: int, env: Quotes.Env)
    ensures var replies := Handle(t, Delete(id), true, env).1;
      && replies[|replies| - 1] == Show(DeletedEmbed(id))
      && (env.writeThrows <==> replies == [Show(ErrorEmbed), Show(DeletedEmbed(id))])
      && (!env.writeThrows ==> !Quotes.HasId(Handle(t, Delete(id), true, env).0.rows, id))
  {
  }

  /** `get` with both an id and an alias shows the alias's quote whenever the id exists: the id
      only decides whether "not found" for the id ends the command. */
  lemma GetBothPrefersAlias(t: Quotes.Table, id: int, alias: string, pick: nat)
    requires id != 0 && alias != ""
    ensures var e := GetEmbed(t, Some(id), Some(alias), pick);
      && (Quotes.QuoteById(t, Int(id)).None? ==> e.description == Some("Quote with id #" + IntToString(id) + " does not exist"))
      && (Quotes.QuoteById(t, Int(id)).Some? && Quotes.QuoteByAlias(t, alias).Some? ==>
            e == QuoteEmbed(Quotes.QuoteByAlias(t, alias).value, NoOptions))
      && (Quotes.QuoteById(t, Int(id)).Some? && Quotes.QuoteByAlias(t, alias).None? ==>
            e.description == Some("Quote with alias " + alias + " does not exist"))
  {
  }

  /** Adding shows the new quote titled `Added quote #<id>` with a fresh id, or the error embed
      when the insert fails; the role plays no part. */
  lemma AddReply(t: Quotes.Table, text: string, isMod: bool, env: Quotes.Env)
    requires Quotes.WellFormed(t)
    ensures Handle(t, Add(text), isMod, env) == Handle(t, Add(text), !isMod, env)
    ensures var (t', replies) := Handle(t, Add(text), isMod, env);
      if env.writeThrows then t' == t && replies == [Show(ErrorEmbed)]
      else exists id :: !Quotes.HasId(t.rows, id) &&
             Quotes.QuoteById(t', Int(id)) == Some(Quotes.Quote(id, text, Quotes.DateString(env.today), t.aliasDefault)) &&
             replies[0].embed.title == "Added quote #" + IntToString(id) &&
             replies[0].embed.description == Some(text)
  {
    Quotes.AddThenGet(t, text, env.today);
  }

  /** A moderator's `edit` applies `editQuote`: the table becomes what it leaves; when it gives
      `undefined` only the error embed is shown, and otherwise the re-read quote is shown titled
      `Edited quote #<id>`, carrying the new text, exactly when the id was stored. */
  lemma EditReply(t: Quotes.Table, id: int, text: string, env: Quotes.Env)
    ensures var (t', replies) := Handle(t, Edit(id, text), true, env);
      && t' == Quotes.Edit(t, id, text, env.writeThrows).0
      && (Quotes.Edit(t, id, text, env.writeThrows).1.None? <==> replies == [Show(ErrorEmbed)])
      && (Quotes.Edit(t, id, text, env.writeThrows).1.None? <==> env.writeThrows || !Quotes.HasId(t.rows, id))
      && (!env.writeThrows && Quotes.HasId(t.rows, id) ==>
            && |replies| == 1
            && replies[0].embed.title == "Edited quote #" + IntToString(id)
            && replies[0].embed.description == Some(text))
  {
    if !env.writeThrows {
      if Quotes.HasId(t.rows, id) {
        Quotes.EditReturnsNewText(t, id, text);
      } else {
        Quotes.EditAbsent(t, id, text);
      }
    }
  }

  // ---------------------------------------------------------------------------
  // Paging through a multi-quote search result

  /** `Quote #<id> - <position>/<count>` for the page at `index`. */
  function PageTitle(qs: seq<Quotes.Quote>, index: nat): string
    requires index < |qs|
  {
    "Quote #" + IntToString(qs[index].id) + " - " + IntToString(index + 1) + "/" + IntToString(|qs|)
  }

  function PageEmbed(qs: seq<Quotes.Quote>, index: nat): Embed
    requires index < |qs|
  {
    QuoteEmbed(qs[index], Titled(PageTitle(qs, index)))
  }

  /** The page title splits at its spaces into four words. */
  lemma PageTitleWords(qs: seq<Quotes.Quote>, index: nat)
    requires index < |qs|
    ensures Split(PageTitle(qs, index), ' ') ==
      ["Quote", "#" + IntToString(qs[index].id), "-", IntToString(index + 1) + "/" + IntToString(|qs|)]
  {
    var id := IntToString(qs[index].id);
    var page := IntToString(index + 1) + "/" + IntToString(|qs|);
    var words := ["Quote", "#" + id, "-", page];
    assert Join(words[1..][1..], ' ') == "-" + " " + page by {
      assert words[1..][1..][1..] == [page];
    }
    assert Join(words, ' ') == PageTitle(qs, index);
    assert ' ' !in "#" + id;
    assert ' ' !in page;
    SplitJoin(words, ' ');
  }

  /** `<position>/<count>` parses back, in base ten, to the position. */
  lemma PositionParses(position: nat, count: nat)
    requires position >= 1
    ensures ParseInt(IntToString(position) + "/" + IntToString(count), Ten) == Int(position)
  {
    var rest := "/" + IntToString(count);
    assert IntToString(position) + "/" + IntToString(count) == NatToString(position) + rest;
    ParseIntDigitPrefix(NatToString(position), rest, Ten);
    NatToStringValue(position);
  }

  /** The last space-separated word of a page title reads as the one-based page number. */
  lemma PageTitleNumber(qs: seq<Quotes.Quote>, index: nat)
    requires index < |qs|
    ensures var words := Split(PageTitle(qs, index), ' ');
      && |words| == 4
      && ParseInt(words[3], Ten) == Int(index + 1)
  {
    PageTitleWords(qs, index);
    PositionParses(index + 1, |qs|);
  }

  datatype Arrow = LeftArrow | RightArrow

  /** The index after one arrow: right moves on unless on the last page, left moves back unless
      on the first. */
  function NextIndex(index: int, count: int, arrow: Arrow): (i: int)
    ensures 0 <= index < count ==> 0 <= i < count
    ensures arrow == RightArrow ==> i >= index && (i == index + 1 <==> index < count - 1)
    ensures arrow == LeftArrow ==> i <= index && (i == index - 1 <==> index > 0)
    ensures i == index || i == index + 1 || i == index - 1
  {
    match arrow
    case RightArrow => if index < count - 1 then index + 1 else index
    case LeftArrow => if index > 0 then index - 1 else index
  }

  /** The index after a series of arrows, starting from 0. */
  function IndexAfter(count: int, arrows: seq<Arrow>): int
  {
    if arrows == [] then 0
    else NextIndex(IndexAfter(count, arrows[..|arrows| - 1]), count, arrows[|arrows| - 1])
  }

  /** Whatever arrows are pressed, the index stays a valid page. */
  lemma {:induction false} IndexAfterInRange(count: int, arrows: seq<Arrow>)
    requires count >= 1
    ensures 0 <= IndexAfter(count, arrows) < count
  {
    if arrows != [] {
      IndexAfterInRange(count, arrows[..|arrows| - 1]);
    }
  }

  /** Pressing right `k` times from the first page reaches page `k`, or stops on the last. */
  lemma {:induction false} RightArrowsReach(count: int, k: nat)
    requires count >= 1
    ensures IndexAfter(count, seq(k, _ => RightArrow)) == if k < count then k else count - 1
  {
    if k > 0 {
      var arrows := seq(k, _ => RightArrow);
      assert arrows[..k - 1] == seq(k - 1, _ => RightArrow);
      RightArrowsReach(count, k - 1);
    }
  }

  /** The reaction collectors of one multi-quote search reply. */
  class SearchPager {
    const results: seq<Quotes.Quote>
    var index: int

    ghost predicate Valid()
      reads this
    {
      |results| >= 2 && 0 <= index < |results|
    }

    /** Set up after page 1 was shown: `searchIndex` starts at 0. */
    constructor (results: seq<Quotes.Quote>)
      requires |results| >= 2
      ensures Valid() && this.results == results && index == 0
    {
      this.results := results;
      index := 0;
    }

    /** One collected arrow reaction of the user who searched: the new page when the index
        moved, and whether the user's reaction is removed (always for right, only on a move for
        left). */
    method Collect(arrow: Arrow) returns (shown: Option<Embed>, reactionRemoved: bool)
      requires Valid()
      modifies this
      ensures Valid()
      ensures index == NextIndex(old(index), |results|, arrow)
      ensures shown.Some? <==> index != old(index)
      ensures shown.Some? ==> shown.value == PageEmbed(results, index)
      ensures reactionRemoved <==> arrow == RightArrow || index != old(index)
    {
      match arrow
      case RightArrow =>
        if index < |results| - 1 {
          index := index + 1;
          shown := Some(PageEmbed(results, index));
        } else {
          shown := None;
        }
        reactionRemoved := true;
      case LeftArrow =>
        if index > 0 {
          index := index - 1;
          shown := Some(PageEmbed(results, index));
          reactionRemoved := true;
        } else {
          shown := None;
          reactionRemoved := false;
        }
    }
  }
}
