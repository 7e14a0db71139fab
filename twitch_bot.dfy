/** The chat-message route of src/twitch/twitchBot.ts (`bot.onMessage`): the first
    space-separated word of the trimmed message names a command when it starts with `!`;
    `!quote` hands the remaining words to the quote handler, any other name is looked up in the
    `commands` table. */
module TwitchBot {
  import opened Wrappers
  import opened Js
  import Quotes
  import TwitchQuote

  /** A row of the `commands` table. */
  datatype CommandRow = CommandRow(name: string, response: Option<string>, enabled: int)

  /** What a chat message leads to. */
  datatype Action =
    | Ignore
    | QuoteCommand(args: seq<string>)
    | Respond(text: string)

  predicate StartsWithBang(word: string) {
    word != [] && word[0] == '!'
  }

  /** `SELECT response FROM commands WHERE name = ? AND enabled = 1`: the first such row in scan
      order. */
  function FindEnabled(commands: seq<CommandRow>, name: string): (r: Option<CommandRow>)
    ensures r.None? <==> forall c :: c in commands ==> c.name != name || c.enabled != 1
    ensures r.Some? ==> r.value in commands && r.value.name == name && r.value.enabled == 1
    ensures r.Some? ==> exists i :: 0 <= i < |commands| && commands[i] == r.value &&
                          forall j :: 0 <= j < i ==> commands[j].name != name || commands[j].enabled != 1
  {
    if commands == [] then None
    else if commands[0].name == name && commands[0].enabled == 1 then Some(commands[0])
    else
      var r := FindEnabled(commands[1..], name);
      assert r.Some? ==> exists i :: 0 <= i < |commands| && commands[i] == r.value &&
                          forall j :: 0 <= j < i ==> commands[j].name != name || commands[j].enabled != 1 by {
        if r.Some? {
          var i :| 0 <= i < |commands[1..]| && commands[1..][i] == r.value &&
                   forall j :: 0 <= j < i ==> commands[1..][j].name != name || commands[1..][j].enabled != 1;
          assert commands[i + 1] == r.value;
          forall j | 0 <= j < i + 1 ensures commands[j].name != name || commands[j].enabled != 1 {
            if j > 0 { assert commands[j] == commands[1..][j - 1]; }
          }
        }
      }
      r
  }

  /** The decision on the words of a message: the first is the command, the rest its
      arguments. */
  function Route(words: seq<string>, commands: seq<CommandRow>): (a: Action)
    requires words != []
    ensures !StartsWithBang(words[0]) ==> a == Ignore
    ensures a.QuoteCommand? <==> words[0] == "!quote"
    ensures a.QuoteCommand? ==> a.args == words[1..]
    ensures a.Respond? ==> exists c :: c in commands && c.name == words[0][1..] && c.enabled == 1 &&
                                       c.response == Some(a.text) && a.text != ""
    ensures StartsWithBang(words[0]) && words[0] != "!quote" ==>
      var found := FindEnabled(commands, words[0][1..]);
      && (a.Respond? <==> found.Some? && Truthy(found.value.response))
      && (a.Respond? ==> found.value.response == Some(a.text))
  {
    var command := words[0];
    if !StartsWithBang(command) then Ignore
    else
      var name := command[1..];
      assert command == "!quote" <==> name == "quote" by {
        assert command == [command[0]] + name;
      }
      if name == "quote" then QuoteCommand(words[1..])
      else
        match FindEnabled(commands, name)
        case None => Ignore
        case Some(row) => if Truthy(row.response) then Respond(row.response.value) else Ignore
  }

  /** The handler of `bot.onMessage` up to the point where it replies or calls
      `handleTwitchQuote`: the trimmed text split at single spaces. */
  function OnMessage(text: string, commands: seq<CommandRow>): (a: Action)
    ensures a.QuoteCommand? ==> Join(["!quote"] + a.args, ' ') == Trim(text)
  {
    JoinSplit(Trim(text), ' ');
    Route(Split(Trim(text), ' '), commands)
  }

  /** A whole message: the table afterwards and the chat reply, if any. */
  function Dispatch(t: Quotes.Table, text: string, commands: seq<CommandRow>, isMod: bool, env: Quotes.Env): (res: (Quotes.Table, Option<string>))
    ensures !OnMessage(text, commands).QuoteCommand? ==> res.0 == t
  {
    match OnMessage(text, commands)
    case Ignore => (t, None)
    case Respond(reply) => (t, Some(reply))
    case QuoteCommand(args) => TwitchQuote.Handle(t, args, isMod, env)
  }

  /** A line `<command> <word> <text>` whose command starts with `!` is left alone by trimming
      and splits into the command, the word and the words of the text. */
  lemma CommandLineWords(command: string, word: string, body: string)
    requires command != [] && command[0] == '!' && ' ' !in command && ' ' !in word
    requires body != [] && !IsWhiteSpace(body[|body| - 1])
    ensures var line := command + [' '] + (word + [' '] + body);
      Split(Trim(line), ' ') == [command] + ([word] + Split(body, ' '))
  {
    var line := command + [' '] + (word + [' '] + body);
    assert line[|line| - 1] == body[|body| - 1];
    LineTrimmed(line);
    LineWords(command, word, body);
  }

  /** A line that starts with `!` and does not end in whitespace is left alone by trimming. */
  lemma LineTrimmed(line: string)
    requires line != [] && line[0] == '!' && !IsWhiteSpace(line[|line| - 1])
    ensures Trim(line) == line
  {
    TrimIdentity(line);
  }

  /** Splitting `<command> <word> <text>` at spaces, when neither the command nor the word holds
      a space. */
  lemma LineWords(command: string, word: string, body: string)
    requires ' ' !in command && ' ' !in word
    ensures Split(command + [' '] + (word + [' '] + body), ' ') == [command] + ([word] + Split(body, ' '))
  {
    SplitAfterPart(command, word + [' '] + body, ' ');
    SplitAfterPart(word, body, ' ');
  }

  /** A message whose words are `!quote` and then `args` hands `args` to the quote handler. */
  lemma QuoteMessage(text: string, args: seq<string>, commands: seq<CommandRow>)
    requires Split(Trim(text), ' ') == ["!quote"] + args
    ensures OnMessage(text, commands) == QuoteCommand(args)
  {
    RouteQuote(args, commands);
  }

  /** `!quote <word> <text>` hands `<word>` and the words of `<text>` to the quote handler. */
  lemma QuoteLineWords(command: string, word: string, body: string, commands: seq<CommandRow>)
    requires command == "!quote" && ' ' !in word
    requires body != [] && !IsWhiteSpace(body[|body| - 1])
    ensures OnMessage(command + [' '] + (word + [' '] + body), commands) == QuoteCommand([word] + Split(body, ' '))
  {
    CommandLineWords(command, word, body);
    QuoteMessage(command + [' '] + (word + [' '] + body), [word] + Split(body, ' '), commands);
  }

  /** `!quote` routes every remaining word to the quote handler. */
  lemma RouteQuote(args: seq<string>, commands: seq<CommandRow>)
    ensures Route(["!quote"] + args, commands) == QuoteCommand(args)
  {
    DropFirst("!quote", args);
  }

  /** Taking a one-element prefix off again. */
  lemma DropFirst(first: string, rest: seq<string>)
    ensures ([first] + rest)[0] == first && ([first] + rest)[1..] == rest
  {
  }

  /** `!quote add <text>` stores `<text>` exactly, inner and leading spaces included, when it does
      not end with whitespace. */
  lemma QuoteAddStoresText(t: Quotes.Table, body: string, commands: seq<CommandRow>, isMod: bool, env: Quotes.Env)
    requires body != [] && !IsWhiteSpace(body[|body| - 1])
    requires !env.writeThrows && Quotes.WellFormed(t)
    ensures var (t', reply) := Dispatch(t, "!quote" + [' '] + ("add" + [' '] + body), commands, isMod, env);
      exists id :: !Quotes.HasId(t.rows, id) &&
        reply == Some("Succesfully added quote #" + IntToString(id)) &&
        Quotes.QuoteById(t', Int(id)) == Some(Quotes.Quote(id, body, Quotes.DateString(env.today), t.aliasDefault))
  {
    var text := "!quote" + [' '] + ("add" + [' '] + body);
    var args := ["add"] + Split(body, ' ');
    QuoteLineWords("!quote", "add", body, commands);
    DispatchQuote(t, text, commands, isMod, env);
    JoinSplit(body, ' ');
    assert args[1..] == Split(body, ' ');
    assert Join(args[1..], ' ') == body;
    TwitchQuote.AddJoinsArgs(t, args, isMod, env);
  }

  /** A message routed to the quote handler has the handler's effect. */
  lemma DispatchQuote(t: Quotes.Table, text: string, commands: seq<CommandRow>, isMod: bool, env: Quotes.Env)
    ensures var a := OnMessage(text, commands);
      a.QuoteCommand? ==> Dispatch(t, text, commands, isMod, env) == TwitchQuote.Handle(t, a.args, isMod, env)
  {
  }

  /** `!<name>`, alone or followed by further words, for any name other than `quote`, answers
      with the response of the first enabled row of that name when that response is non-empty,
      and otherwise stays silent; the further words play no part. */
  lemma CustomCommand(name: string, rest: string, commands: seq<CommandRow>)
    requires name != "quote" && name != [] && ' ' !in name && !IsWhiteSpace(name[|name| - 1])
    requires rest == [] || rest[0] == ' '
    ensures OnMessage("!" + name + rest, commands) ==
      match FindEnabled(commands, name)
      case None => Ignore
      case Some(row) => if Truthy(row.response) then Respond(row.response.value) else Ignore
  {
    var command := "!" + name;
    assert command[|command| - 1] == name[|name| - 1];
    CommandFirstWord(command, rest);
    assert command[1..] == name;
  }

  /** A line that starts with `<command>`, followed by nothing or by a space, has `<command>` as
      its first word. */
  lemma FirstWord(command: string, line: string)
    requires ' ' !in command
    requires |line| >= |command| && line[..|command|] == command
    requires |line| == |command| || line[|command|] == ' '
    ensures Split(line, ' ')[0] == command
  {
    if |line| == |command| {
      assert line == command;
      SplitNoSeparator(command, ' ');
    } else {
      var tail := line[|command| + 1..];
      assert line == line[..|command|] + line[|command|..];
      assert line[|command|..] == [' '] + tail;
      assert line == command + [' '] + tail;
      SplitAfterPart(command, tail, ' ');
    }
  }

  /** Trimming and splitting `<command><rest>`, where `rest` is empty or starts with a space,
      yields `<command>` as the first word. */
  lemma CommandFirstWord(command: string, rest: string)
    requires command != [] && command[0] == '!' && ' ' !in command
    requires !IsWhiteSpace(command[|command| - 1])
    requires rest == [] || rest[0] == ' '
    ensures Split(Trim(command + rest), ' ')[0] == command
  {
    var text := command + rest;
    TrimNoLeadingSpace(text);
    TrimEndKeepsCommand(command, rest);
    FirstWord(command, TrimEnd(text));
  }

  /** Trimming the end of `<command><rest>` keeps `<command>`, followed by nothing or by the
      space that starts `rest`. */
  lemma TrimEndKeepsCommand(command: string, rest: string)
    requires command != [] && !IsWhiteSpace(command[|command| - 1])
    requires rest == [] || rest[0] == ' '
    ensures var u := TrimEnd(command + rest);
      |u| >= |command| && u[..|command|] == command && (|u| == |command| || u[|command|] == ' ')
  {
    var text := command + rest;
    TrimEndKeeps(text, |command|);
    assert text[..|command|] == command;
    if |rest| > 0 {
      assert text[|command|] == rest[0];
    }
  }

  /** A string that does not start with whitespace is trimmed at its end only. */
  lemma TrimNoLeadingSpace(s: string)
    requires s != [] && !IsWhiteSpace(s[0])
    ensures Trim(s) == TrimEnd(s)
  {
    assert TrimStart(s) == s;
    assert s[0..] == s;
  }

  /** Trimming the end of `s` keeps its first `n` characters when the last of them is not
      whitespace. */
  lemma TrimEndKeeps(s: string, n: nat)
    requires 0 < n <= |s| && !IsWhiteSpace(s[n - 1])
    ensures var u := TrimEnd(s); |u| >= n && u[..n] == s[..n] && (|u| > n ==> u[n] == s[n])
  {
  }

  /** A message that does not start with `!` after trimming is ignored. */
  lemma PlainChatIgnored(text: string, commands: seq<CommandRow>)
    requires Trim(text) == [] || Trim(text)[0] != '!'
    ensures OnMessage(text, commands) == Ignore
  {
    var words := Split(Trim(text), ' ');
    JoinSplit(Trim(text), ' ');
    if words[0] != [] {
      assert Trim(text)[0] == words[0][0] by {
        assert Join(words, ' ') == Trim(text);
        assert |words| == 1 ==> Join(words, ' ') == words[0];
        assert |words| > 1 ==> Join(words, ' ') == words[0] + [' '] + Join(words[1..], ' ');
      }
    }
  }
}
