/** The older `/quote` command object of src/discord/commands/quote.ts. It keeps its own copies
    of the embed builders: `buildQuoteEmbed`, the error and the permission embeds are the same
    as the handler's, and its "not found" builder takes an id and an alias but no search string.
    It registers no `search` subcommand, so a search lands in its default branch like any other
    unknown name. */
module DiscordQuoteCommand {
  import opened Wrappers
  import opened Js
  import Quotes
  import opened DiscordQuoteHandler

  /** `buildQuoteNotFoundEmbed(id, alias)`: the alias's description overwrites the id's. */
  function LegacyNotFoundEmbed(id: Option<int>, alias: Option<string>): (e: Embed)
    ensures e.title == "Quote not found" && e.color == "#ffff00"
    ensures e.description.None? <==> !TruthyId(id) && !Truthy(alias)
    ensures Truthy(alias) ==> e.description == Some("Quote with alias " + alias.value + " does not exist")
    ensures !Truthy(alias) && TruthyId(id) ==>
      e.description == Some("Quote with id #" + IntToString(id.value) + " does not exist")
  {
    var e0 := Embed("#ffff00", "Quote not found", None, None, None, []);
    var e1 := if TruthyId(id) then e0.(description := Some("Quote with id #" + IntToString(id.value) + " does not exist")) else e0;
    if Truthy(alias) then e1.(description := Some("Quote with alias " + alias.value + " does not exist")) else e1
  }

  /** The two "not found" builders agree whenever no search string is given. */
  lemma NotFoundBuildersAgree(id: Option<int>, alias: Option<string>)
    ensures LegacyNotFoundEmbed(id, alias) == QuoteNotFoundEmbed(id, alias, None)
  {
  }

  /** The `get` branch of the legacy command, with its own "not found" builder. */
  function LegacyGetEmbed(t: Quotes.Table, id: Option<int>, alias: Option<string>, pick: nat): (e: Embed)
    ensures !TruthyId(id) && !Truthy(alias) ==>
      e == match Quotes.RandomQuote(t, pick)
           case None => ErrorEmbed
           case Some(q) => QuoteEmbed(q, NoOptions)
    ensures TruthyId(id) && Quotes.QuoteById(t, Int(id.value)).None? ==> e == LegacyNotFoundEmbed(id, None)
    ensures (TruthyId(id) ==> Quotes.QuoteById(t, Int(id.value)).Some?) && Truthy(alias) ==>
      e == match Quotes.QuoteByAlias(t, alias.value)
           case None => LegacyNotFoundEmbed(None, alias)
           case Some(q) => QuoteEmbed(q, NoOptions)
    ensures TruthyId(id) && !Truthy(alias) && Quotes.QuoteById(t, Int(id.value)).Some? ==>
      e == QuoteEmbed(Quotes.QuoteById(t, Int(id.value)).value, NoOptions)
  {
    if !TruthyId(id) && !Truthy(alias) then
      match Quotes.RandomQuote(t, pick)
      case None => ErrorEmbed
      case Some(q) => QuoteEmbed(q, NoOptions)
    else if TruthyId(id) && Quotes.QuoteById(t, Int(id.value)).None? then
      LegacyNotFoundEmbed(id, None)
    else if Truthy(alias) then
      match Quotes.QuoteByAlias(t, alias.value)
      case None => LegacyNotFoundEmbed(None, alias)
      case Some(q) => QuoteEmbed(q, NoOptions)
    else
      QuoteEmbed(Quotes.QuoteById(t, Int(id.value)).value, NoOptions)
  }

  /** `execute`: the table afterwards and the replies in the order they are sent. An unknown
      subcommand gets the secret message and then falls out of the `switch` into the trailing
      `reply('Pong!')`. */
  function Execute(t: Quotes.Table, cmd: Subcommand, isMod: bool, env: Quotes.Env): (res: (Quotes.Table, seq<Reply>))
    ensures |res.1| >= 1
    ensures !cmd.Add? && !(cmd.Edit? && isMod) && !(cmd.Delete? && isMod) ==> res.0 == t
  {
    match cmd
    case Add(text) =>
      var (t', q) := Quotes.Add(t, text, env.today, env.writeThrows);
      if q.None? then (t', [Show(ErrorEmbed)])
      else (t', [Show(QuoteEmbed(q.value, Titled("Added quote #" + IntToString(q.value.id))))])
    case Get(id, alias) =>
      (t, [Show(LegacyGetEmbed(t, id, alias, env.pick))])
    case Edit(id, text) =>
      if !isMod then (t, [Show(PermissionDeniedEmbed)])
      else
        var (t', q) := Quotes.Edit(t, id, text, env.writeThrows);
        if q.None? then (t', [Show(ErrorEmbed)])
        else (t', [Show(QuoteEmbed(q.value, Titled("Edited quote #" + IntToString(q.value.id))))])
    case Delete(id) =>
      if !isMod then (t, [Show(PermissionDeniedEmbed)])
      else
        var (t', ok) := Quotes.Delete(t, id, env.writeThrows);
        (t', (if ok then [] else [Show(ErrorEmbed)]) + [Show(DeletedEmbed(id))])
    case Search(_) =>
      (t, [Text(SECRET_MESSAGE), Text("Pong!")])
    case Other(_) =>
      (t, [Text(SECRET_MESSAGE), Text("Pong!")])
  }

  /** On every subcommand both versions register, the legacy command and the handler leave the
      same table and send the same replies. */
  lemma ExecuteAgrees(t: Quotes.Table, cmd: Subcommand, isMod: bool, env: Quotes.Env)
    requires !cmd.Search? && !cmd.Other?
    ensures Execute(t, cmd, isMod, env) == Handle(t, cmd, isMod, env)
  {
    if cmd.Get? {
      NotFoundBuildersAgree(cmd.id, None);
      NotFoundBuildersAgree(None, cmd.alias);
    }
  }

  /** Any other subcommand, `search` included, changes nothing and sends the secret message
      followed by `Pong!`, where the handler sends only the message. */
  lemma UnknownSubcommand(t: Quotes.Table, cmd: Subcommand, isMod: bool, env: Quotes.Env)
    requires cmd.Search? || cmd.Other?
    ensures Execute(t, cmd, isMod, env) == (t, [Text(SECRET_MESSAGE), Text("Pong!")])
    ensures cmd.Other? ==> Handle(t, cmd, isMod, env) == (t, [Text(SECRET_MESSAGE)])
  {
  }
}
