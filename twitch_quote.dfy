/** The `!quote` chat command of src/twitch/handleTwitchQuote.ts. The handler gets the words
    after `!quote` and answers with at most one chat reply; here it returns the table afterwards
    and that reply, if any. Whether the sender is a moderator of the channel is a parameter. */
module TwitchQuote {
  import opened Wrappers
  import opened Js
  import Quotes

  /** `replyWithError`'s text; its two concatenated halves meet without a space. */
  const ERROR_REPLY := "An error occured. Please try again. If it still doesn't work, something isprobably on fire. #blameFloha"

  const PERMISSION_REPLY := "You do not have the permissions to perform this action"

  const PROPER_ID_REPLY := "Please provide a proper quoteId"

  const ALIAS_FORMAT_REPLY :=
    "Please provide the neccessary information to properly alias a quote. Format: !quote alias `alias` `quoteId`"

  /** `args[i]`, which is `undefined` past the end. */
  function Arg(args: seq<string>, i: nat): (a: Option<string>)
    ensures a.Some? <==> i < |args|
    ensures a.Some? ==> a.value == args[i]
  {
    if i < |args| then Some(args[i]) else None
  }

  /** `${alias}` of a quote's alias, SQL NULL reading as `null`. */
  function AliasText(alias: Option<string>): string {
    if alias.Some? then alias.value else "null"
  }

  /** `replyWithQuote`: `#<id>: <text> <date>`, then `. Also known as <alias>` unless the alias
      is exactly `'NONE'`, then a trailing space. */
  function QuoteReply(q: Quotes.Quote): (s: string)
    ensures var head := "#" + IntToString(q.id) + ": " + q.quote + " " + q.date;
      && head <= s && s[|s| - 1] == ' '
      && (q.alias == Some("NONE") <==> s == head + " ")
      && (q.alias != Some("NONE") ==> s[|head|..] == ". Also known as " + AliasText(q.alias) + " ")
  {
    "#" + IntToString(q.id) + ": " + q.quote + " " + q.date +
    (if q.alias == Some("NONE") then "" else ". Also known as " + AliasText(q.alias)) + " "
  }

  /** `quotes.map(q => "'" + q.id).join(', ')`. */
  function IdList(qs: seq<Quotes.Quote>): (s: string)
    ensures s == "" <==> qs == []
    ensures qs != [] ==> "'" + IntToString(qs[0].id) <= s
    ensures |qs| == 1 ==> s == "'" + IntToString(qs[0].id)
  {
    if qs == [] then ""
    else if |qs| == 1 then "'" + IntToString(qs[0].id)
    else "'" + IntToString(qs[0].id) + ", " + IdList(qs[1..])
  }

  /** No words after `!quote`: a random quote. */
  function RandomReply(t: Quotes.Table, pick: nat): Option<string>
  {
    match Quotes.RandomQuote(t, pick)
    case None => Some(ERROR_REPLY)
    case Some(q) => Some(QuoteReply(q))
  }

  /** `search`: only the word after the subcommand is the term. */
  function SearchReply(t: Quotes.Table, term: Option<string>): Option<string>
  {
    if !Truthy(term) then Some("Please provide a search string")
    else
      match Quotes.SearchQuote(t, term.value)
      case NoMatch => Some("Could not find a quote that includes " + term.value)
      case Single(q) => Some(QuoteReply(q))
      case Multiple(qs) => Some("Found multiple quotes, try one of these: " + IdList(qs))
  }

  /** `add`: the rest of the words, joined by single spaces, becomes the quote. */
  function AddCommand(t: Quotes.Table, rest: seq<string>, env: Quotes.Env): (Quotes.Table, Option<string>)
  {
    var (t', q) := Quotes.Add(t, Join(rest, ' '), env.today, env.writeThrows);
    if q.None? then (t', Some(ERROR_REPLY))
    else (t', Some("Succesfully added quote #" + IntToString(q.value.id)))
  }

  /** `delete` by a moderator: a NaN or zero id is refused. */
  function DeleteCommand(t: Quotes.Table, quoteId: Num, env: Quotes.Env): (Quotes.Table, Option<string>)
  {
    if quoteId.NaN? || quoteId.value == 0 then (t, Some(PROPER_ID_REPLY))
    else
      var (t', ok) := Quotes.Delete(t, quoteId.value, env.writeThrows);
      if ok then (t', Some("Succesfully deleted quote #" + IntToString(quoteId.value)))
      else (t', Some(ERROR_REPLY))
  }

  /** `edit` by a moderator, given the parsed id and the words after the subcommand. */
  function EditCommand(t: Quotes.Table, quoteId: Num, rest: seq<string>, env: Quotes.Env): (Quotes.Table, Option<string>)
  {
    if quoteId.NaN? then (t, Some(PROPER_ID_REPLY))
    else
      var (t', q) := Quotes.Edit(t, quoteId.value, Join(rest, ' '), env.writeThrows);
      if q.None? then (t', Some(ERROR_REPLY))
      else (t', Some("Succesfully edited quote #" + IntToString(q.value.id)))
  }

  /** `alias` by a moderator: the guard `!alias || !isNaN(quoteId)` refuses every id that is a
      number, so only a NaN id reaches `aliasQuote`. */
  function AliasCommand(t: Quotes.Table, alias: Option<string>, quoteId: Num): (Quotes.Table, Option<string>)
  {
    if !Truthy(alias) || quoteId.Int? then (t, Some(ALIAS_FORMAT_REPLY))
    else
      var (t', q) := Quotes.SetAlias(t, alias.value, quoteId);
      if q.None? then (t', Some("Could not find quote #" + NumToString(quoteId)))
      else (t', None)
  }

  /** Any other word: an id when `parseInt` reads a number from it, otherwise an alias. */
  function LookupReply(t: Quotes.Table, word: string): Option<string>
  {
    var quoteId := ParseInt(word, Auto);
    if quoteId.Int? then
      match Quotes.QuoteById(t, quoteId)
      case None => Some("Quote with id " + IntToString(quoteId.value) + " could not be found")
      case Some(q) => Some(QuoteReply(q))
    else
      match Quotes.QuoteByAlias(t, word)
      case None => Some("Quote with alias " + word + " could not be found")
      case Some(q) => Some(QuoteReply(q))
  }

  /** The entry for one quote in the id list: `'<id>`, after a space for all but the first. */
  function IdEntry(qs: seq<Quotes.Quote>, i: nat): string
    requires i < |qs|
  {
    (if i == 0 then "" else " ") + "'" + IntToString(qs[i].id)
  }

  /** An entry after the first holds no comma. */
  lemma HeadNoComma(q: Quotes.Quote)
    ensures ',' !in "'" + IntToString(q.id)
  {
    var w := IntToString(q.id);
    forall k | 0 <= k < |"'" + w| ensures ("'" + w)[k] != ',' {
      if k > 0 { assert ("'" + w)[k] == w[k - 1]; }
    }
  }

  /** The list of two or more quotes is the first entry, a comma, then a space and the rest. */
  lemma IdListCons(qs: seq<Quotes.Quote>)
    requires |qs| >= 2
    ensures IdList(qs) == ("'" + IntToString(qs[0].id)) + [','] + (" " + IdList(qs[1..]))
  {
    assert ", " == [','] + " ";
  }

  /** Splitting the id list at its commas gives one entry per quote, in order. */
  lemma {:induction false} IdListSplit(qs: seq<Quotes.Quote>)
    requires qs != []
    ensures var parts := Split(IdList(qs), ',');
      |parts| == |qs| && forall i :: 0 <= i < |qs| ==> parts[i] == IdEntry(qs, i)
  {
    var head := "'" + IntToString(qs[0].id);
    HeadNoComma(qs[0]);
    if |qs| == 1 {
      SplitNoSeparator(head, ',');
    } else {
      var tail := qs[1..];
      IdListSplit(tail);
      var p := Split(IdList(tail), ',');
      IdListCons(qs);
      SplitAfterPart(head, " " + IdList(tail), ',');
      SplitCons(' ', IdList(tail), ',');
      var parts := Split(IdList(qs), ',');
      assert parts == [head] + ([" " + p[0]] + p[1..]);
      assert IdEntry(qs, 0) == head;
      EntriesShift(qs, p, parts);
    }
  }

  /** The entries of the rest of the list, with a space put before the first, are the entries
      of the whole list after its first. */
  lemma EntriesShift(qs: seq<Quotes.Quote>, p: seq<string>, parts: seq<string>)
    requires |qs| >= 2
    requires |p| == |qs| - 1 && forall j :: 0 <= j < |p| ==> p[j] == IdEntry(qs[1..], j)
    requires parts == [IdEntry(qs, 0)] + ([" " + p[0]] + p[1..])
    ensures |parts| == |qs| && forall i :: 0 <= i < |qs| ==> parts[i] == IdEntry(qs, i)
  {
    forall i | 0 <= i < |qs| ensures parts[i] == IdEntry(qs, i) {
      if i == 1 {
        assert p[0] == IdEntry(qs[1..], 0);
      } else if i >= 2 {
        assert parts[i] == p[i - 1] == IdEntry(qs[1..], i - 1);
      }
    }
  }

  /** `handleTwitchQuote(args, ...)`: the table afterwards and the reply, if one is sent. */
  function Handle(t: Quotes.Table, args: seq<string>, isMod: bool, env: Quotes.Env): (res: (Quotes.Table, Option<string>))
    ensures res.1.None? ==> args != [] && args[0] == "alias" && isMod
  {
    if args == [] then (t, RandomReply(t, env.pick))
    else if args[0] == "search" then (t, SearchReply(t, Arg(args, 1)))
    else if args[0] == "add" then AddCommand(t, args[1..], env)
    else if args[0] in {"delete", "edit", "alias"} && !isMod then (t, Some(PERMISSION_REPLY))
    else if args[0] == "delete" then DeleteCommand(t, ParseArg(Arg(args, 1), Auto), env)
    // the id is read from `args[0]`, the word "edit" itself
    else if args[0] == "edit" then EditCommand(t, ParseInt(args[0], Auto), args[1..], env)
    else if args[0] == "alias" then AliasCommand(t, Arg(args, 1), ParseArg(Arg(args, 2), Auto))
    else (t, LookupReply(t, args[0]))
  }

  /** Only `add` and `delete` can change the table. */
  lemma OnlyAddAndDeleteWrite(t: Quotes.Table, args: seq<string>, isMod: bool, env: Quotes.Env)
    requires args == [] || (args[0] != "add" && args[0] != "delete")
    ensures Handle(t, args, isMod, env).0 == t
  {
    if args != [] && args[0] == "edit" && isMod {
      EditIdIsNaN();
    }
    if args != [] && args[0] == "alias" && isMod {
      var quoteId := ParseArg(Arg(args, 2), Auto);
      if Truthy(Arg(args, 1)) && quoteId.NaN? {
        Quotes.SetAliasAbsent(t, args[1], quoteId);
      }
    }
  }

  /** The word "edit" holds no digit. */
  lemma EditIdIsNaN()
    ensures ParseInt("edit", Auto) == NaN
  {
    assert !IsWhiteSpace('e');
    assert TrimStart("edit") == "edit";
  }

  /** Without the moderator role, `delete`, `edit` and `alias` only answer that permission is
      missing. */
  lemma WritesNeedMod(t: Quotes.Table, args: seq<string>, env: Quotes.Env)
    requires args != [] && (args[0] == "delete" || args[0] == "edit" || args[0] == "alias")
    ensures Handle(t, args, false, env) == (t, Some(PERMISSION_REPLY))
  {
  }

  /** `edit` never edits: it parses the quote id from the subcommand word, which is NaN, so a
      moderator always gets the "proper quoteId" answer. */
  lemma EditNeverEdits(t: Quotes.Table, args: seq<string>, env: Quotes.Env)
    requires args != [] && args[0] == "edit"
    ensures Handle(t, args, true, env) == (t, Some(PROPER_ID_REPLY))
  {
    EditIdIsNaN();
  }

  /** `alias` never aliases: the guard refuses every numeric id, and with a NaN id the UPDATE
      matches no row. The answer is silence exactly when some quote already carries the alias. */
  lemma AliasNeverAliases(t: Quotes.Table, args: seq<string>, env: Quotes.Env)
    requires args != [] && args[0] == "alias"
    ensures var (t', reply) := Handle(t, args, true, env);
      && t' == t
      && (reply.None? <==> Truthy(Arg(args, 1)) && ParseArg(Arg(args, 2), Auto).NaN? &&
                             Quotes.QuoteByAlias(t, args[1]).Some?)
      && (ParseArg(Arg(args, 2), Auto).Int? ==> reply == Some(ALIAS_FORMAT_REPLY))
  {
    var alias := Arg(args, 1);
    var quoteId := ParseArg(Arg(args, 2), Auto);
    assert Handle(t, args, true, env) == AliasCommand(t, alias, quoteId);
    if Truthy(alias) && quoteId.NaN? {
      Quotes.SetAliasAbsent(t, alias.value, quoteId);
    }
  }

  /** `delete` by a moderator with a non-zero numeric id removes that quote (unless the
      statement throws) and reports the id. */
  lemma DeleteById(t: Quotes.Table, args: seq<string>, env: Quotes.Env)
    requires args != [] && args[0] == "delete"
    ensures var quoteId := ParseArg(Arg(args, 1), Auto);
      var (t', reply) := Handle(t, args, true, env);
      && (quoteId.NaN? || quoteId.value == 0 ==> t' == t && reply == Some(PROPER_ID_REPLY))
      && (quoteId.Int? && quoteId.value != 0 && env.writeThrows ==> t' == t && reply == Some(ERROR_REPLY))
      && (quoteId.Int? && quoteId.value != 0 && !env.writeThrows ==>
            && !Quotes.HasId(t'.rows, quoteId.value)
            && (forall x :: x in t.rows && x.id != quoteId.value ==> x in t'.rows)
            && reply == Some("Succesfully deleted quote #" + IntToString(quoteId.value)))
  {
  }

  /** `add` stores the remaining words joined by single spaces, under a fresh id that the reply
      names; when the insert throws, the table stays and the error text is the answer. */
  lemma AddJoinsArgs(t: Quotes.Table, args: seq<string>, isMod: bool, env: Quotes.Env)
    requires args != [] && args[0] == "add" && Quotes.WellFormed(t)
    ensures Handle(t, args, isMod, env) == Handle(t, args, !isMod, env)
    ensures env.writeThrows ==> Handle(t, args, isMod, env) == (t, Some(ERROR_REPLY))
    ensures var (t', reply) := Handle(t, args, isMod, env);
      !env.writeThrows ==>
        exists id :: !Quotes.HasId(t.rows, id) &&
          reply == Some("Succesfully added quote #" + IntToString(id)) &&
          Quotes.QuoteById(t', Int(id)) ==
            Some(Quotes.Quote(id, Join(args[1..], ' '), Quotes.DateString(env.today), t.aliasDefault))
  {
    Quotes.AddThenGet(t, Join(args[1..], ' '), env.today);
  }

  /** With no words after `!quote` the answer is a stored quote, or the error text exactly when
      there is none. */
  lemma NoArgsRandom(t: Quotes.Table, isMod: bool, env: Quotes.Env)
    ensures var (t', reply) := Handle(t, [], isMod, env);
      && t' == t
      && (t.rows == [] ==> reply == Some(ERROR_REPLY))
      && (t.rows != [] ==> exists r :: r in t.rows && reply == Some(QuoteReply(Quotes.ToQuote(r))))
  {
  }

  /** A word that is the decimal text of an id looks that id up. */
  lemma DefaultById(t: Quotes.Table, args: seq<string>, id: int, isMod: bool, env: Quotes.Env)
    requires args != [] && args[0] == IntToString(id)
    ensures Handle(t, args, isMod, env) ==
      match Quotes.QuoteById(t, Int(id))
      case None => (t, Some("Quote with id " + IntToString(id) + " could not be found"))
      case Some(q) => (t, Some(QuoteReply(q)))
  {
    var w := IntToString(id);
    assert w != "search" && w != "add" && w != "delete" && w != "edit" && w != "alias" by {
      assert w[0] == '-' || IsDecimalDigit(w[0]);
    }
    ParseIntToString(id, Auto);
  }

  /** A first word that is no subcommand is looked up, as an id or an alias. */
  lemma DefaultRoute(t: Quotes.Table, args: seq<string>, isMod: bool, env: Quotes.Env)
    requires args != [] && args[0] !in {"search", "add", "delete", "edit", "alias"}
    ensures Handle(t, args, isMod, env) == (t, LookupReply(t, args[0]))
  {
  }

  /** `parseInt` reads a leading run of digits and ignores the rest, so `!quote 12abc` shows
      quote 12 rather than the quote aliased `12abc`. */
  lemma DefaultDigitsThenText(t: Quotes.Table, args: seq<string>, n: nat, rest: string, isMod: bool, env: Quotes.Env)
    requires args != [] && args[0] == NatToString(n) + rest
    requires rest == [] || (!IsDecimalDigit(rest[0]) && rest[0] != 'x' && rest[0] != 'X')
    ensures Handle(t, args, isMod, env) ==
      match Quotes.QuoteById(t, Int(n))
      case None => (t, Some("Quote with id " + IntToString(n) + " could not be found"))
      case Some(q) => (t, Some(QuoteReply(q)))
  {
    assert args[0] !in {"search", "add", "delete", "edit", "alias"} by {
      assert args[0][0] == NatToString(n)[0];
    }
    DefaultRoute(t, args, isMod, env);
    ParseIntDigitPrefix(NatToString(n), rest, Auto);
    NatToStringValue(n);
    LookupById(t, args[0], n);
  }

  /** A word from which `parseInt` reads a number looks up that id. */
  lemma LookupById(t: Quotes.Table, word: string, id: int)
    requires ParseInt(word, Auto) == Int(id)
    ensures LookupReply(t, word) ==
      match Quotes.QuoteById(t, Int(id))
      case None => Some("Quote with id " + IntToString(id) + " could not be found")
      case Some(q) => Some(QuoteReply(q))
  {
  }

  /** A word that does not start with a digit, a sign or whitespace, and is no subcommand, is
      looked up as an alias. */
  lemma DefaultByAlias(t: Quotes.Table, args: seq<string>, isMod: bool, env: Quotes.Env)
    requires args != [] && args[0] != "" && !IsDecimalDigit(args[0][0]) && !IsWhiteSpace(args[0][0])
    requires args[0][0] != '-' && args[0][0] != '+'
    requires args[0] !in {"search", "add", "delete", "edit", "alias"}
    ensures Handle(t, args, isMod, env) ==
      match Quotes.QuoteByAlias(t, args[0])
      case None => (t, Some("Quote with alias " + args[0] + " could not be found"))
      case Some(q) => (t, Some(QuoteReply(q)))
  {
    assert TrimStart(args[0]) == args[0];
    ParseIntNoDigits(args[0], Auto);
  }

  /** `search` asks for a term when none follows; with a term it answers from `searchQuote`: the
      single match in full, or the ids of all matches, or that nothing matched. */
  lemma SearchAnswers(t: Quotes.Table, args: seq<string>, isMod: bool, env: Quotes.Env)
    requires args != [] && args[0] == "search"
    ensures Handle(t, args, isMod, env).0 == t
    ensures !Truthy(Arg(args, 1)) ==> Handle(t, args, isMod, env).1 == Some("Please provide a search string")
    ensures var reply := Handle(t, args, isMod, env).1;
      Truthy(Arg(args, 1)) ==>
      var found := Quotes.FoundQuotes(Quotes.SearchQuote(t, args[1]));
        && (|found| == 0 ==> reply == Some("Could not find a quote that includes " + args[1]))
        && (|found| == 1 ==> reply == Some(QuoteReply(found[0])))
        && (|found| >= 2 ==> reply == Some("Found multiple quotes, try one of these: " + IdList(found)))
  {
  }
}
