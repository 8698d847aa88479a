/**
 * The wire form of a message after the grammar of section 2.3.1 of RFC 1459,
 * and the proof that `parsemsg` of bot/utils.py reads every well-formed line
 * back into the prefix, command and parameters it was built from.
 */
module IrcFormat {
  import opened PyStr
  import opened IrcMessage

  /** A middle parameter of the RFC 1459 grammar: no whitespace and no leading ':'. */
  predicate IsMiddle(p: string) {
    IsToken(p) && p[0] != ':'
  }

  /** `[":" prefix SPACE] command {SPACE middle} [SPACE ":" trailing]`, as in section 2.3.1 of RFC 1459. */
  function Format(prefix: string, command: string, middle: seq<string>, trailing: Option<string>): string
  {
    (if prefix == [] then "" else ":" + prefix + " ")
    + (JoinWith([command] + middle, " ") + TrailingText(trailing))
  }

  /** No space is followed by ':' in a space-joined list of middle parameters. */
  lemma {:induction false} JoinedMiddlesNoSpaceColon(tokens: seq<string>)
    requires forall k :: 0 <= k < |tokens| ==> IsMiddle(tokens[k])
    ensures !Contains(JoinWith(tokens, " "), " :")
  {
    var s := JoinWith(tokens, " ");
    if |tokens| > 1 {
      var t := tokens[0];
      var rest := JoinWith(tokens[1..], " ");
      JoinedMiddlesNoSpaceColon(tokens[1..]);
      ContainsPair(rest, ' ', ':');
      assert s == t + " " + rest;
      assert rest[0] == tokens[1][0] by {
        if |tokens| > 2 {
          assert rest == tokens[1] + " " + JoinWith(tokens[2..], " ");
        }
      }
      forall i | 0 <= i < |s| - 1 ensures !(s[i] == ' ' && s[i + 1] == ':') {
        if i > |t| {
          assert s[i] == rest[i - |t| - 1] && s[i + 1] == rest[i - |t|];
        }
      }
    } else if |tokens| == 1 {
      assert forall i :: 0 <= i < |s| ==> s[i] != ' ';
    }
    ContainsPair(s, ' ', ':');
  }

  /** The prefix part of `Format` is split off again. */
  lemma SplitPrefixFormat(prefix: string, rest: string)
    requires ' ' !in prefix
    requires rest != [] && rest[0] != ':'
    ensures var line := (if prefix == [] then "" else ":" + prefix + " ") + rest;
      line != [] && SplitPrefix(line) == Ok((prefix, rest))
  {
    if prefix != [] {
      var line := ":" + prefix + " " + rest;
      assert line[1..] == prefix + " " + rest;
      ContainsChar(prefix, ' ');
      FindAfter(prefix, " ", rest);
      assert SplitOnce(line[1..], " ") == [prefix, rest];
    } else {
      assert "" + rest == rest;
    }
  }

  /** A space-joined list of middle parameters is split back into the same list. */
  lemma ParamsOfMiddles(tokens: seq<string>, s: string)
    requires forall k :: 0 <= k < |tokens| ==> IsMiddle(tokens[k])
    requires s == JoinWith(tokens, " ") + TrailingText(None)
    ensures Params(s) == tokens + TrailingArgs(None)
  {
    assert s == JoinWith(tokens, " ");
    assert tokens + [] == tokens;
    JoinedMiddlesNoSpaceColon(tokens);
    SplitWhitespaceJoin(tokens);
  }

  /** Middle parameters followed by a trailing one are split back into the same list. */
  lemma ParamsOfMiddlesAndTrailing(tokens: seq<string>, t: string, s: string)
    requires forall k :: 0 <= k < |tokens| ==> IsMiddle(tokens[k])
    requires s == JoinWith(tokens, " ") + TrailingText(Some(t))
    ensures Params(s) == tokens + TrailingArgs(Some(t))
  {
    var joined := JoinWith(tokens, " ");
    JoinedMiddlesNoSpaceColon(tokens);
    SplitWhitespaceJoin(tokens);
    SplitOnceAfter(joined, " :", t, s);
  }

  function TrailingText(trailing: Option<string>): string {
    match trailing case Some(t) => " :" + t case None => ""
  }

  function TrailingArgs(trailing: Option<string>): seq<string> {
    match trailing case Some(t) => [t] case None => []
  }

  /** The parameter part of `Format` is split back into the same list. */
  lemma ParamsFormat(tokens: seq<string>, trailing: Option<string>)
    requires forall k :: 0 <= k < |tokens| ==> IsMiddle(tokens[k])
    ensures Params(JoinWith(tokens, " ") + TrailingText(trailing)) == tokens + TrailingArgs(trailing)
  {
    var s := JoinWith(tokens, " ") + TrailingText(trailing);
    if trailing.Some? {
      ParamsOfMiddlesAndTrailing(tokens, trailing.value, s);
    } else {
      ParamsOfMiddles(tokens, s);
    }
  }

  /**
   * Parsing inverts `Format` for every well-formed message: the prefix, the
   * command and the parameters come back, the trailing one with its spaces.
   */
  lemma ParseFormat(prefix: string, command: string, middle: seq<string>, trailing: Option<string>)
    requires ' ' !in prefix
    requires IsMiddle(command)
    requires forall k :: 0 <= k < |middle| ==> IsMiddle(middle[k])
    ensures var line := Format(prefix, command, middle, trailing);
      ParseFields(line) == Ok(Message(prefix, command, middle + TrailingArgs(trailing), line, None))
  {
    var tokens := [command] + middle;
    var rest := JoinWith(tokens, " ") + TrailingText(trailing);
    FormatStartsWithCommand(command, middle, trailing);
    SplitPrefixFormat(prefix, rest);
    ParamsFormat(tokens, trailing);
    ParseFieldsOfParts(Format(prefix, command, middle, trailing), prefix, rest, command, middle, TrailingArgs(trailing));
  }

  /** The text after the prefix starts with the command, so not with ':'. */
  lemma FormatStartsWithCommand(command: string, middle: seq<string>, trailing: Option<string>)
    requires IsMiddle(command)
    ensures var rest := JoinWith([command] + middle, " ") + TrailingText(trailing);
      rest != [] && rest[0] == command[0] && rest[0] != ':'
  {
    var tokens := [command] + middle;
    assert tokens[0] == command;
    assert JoinWith(tokens, " ")[0] == command[0];
  }

  /** A line whose prefix and parameter list are known parses to those fields. */
  lemma ParseFieldsOfParts(line: string, prefix: string, rest: string, command: string, middle: seq<string>, extra: seq<string>)
    requires line != [] && SplitPrefix(line) == Ok((prefix, rest))
    requires Params(rest) == ([command] + middle) + extra
    ensures ParseFields(line) == Ok(Message(prefix, command, middle + extra, line, None))
  {
    var args := middle + extra;
    assert ([command] + middle) + extra == [command] + args;
    assert ([command] + args)[0] == command && ([command] + args)[1..] == args;
  }

  /** A well-formed line whose command is not PRIVMSG parses to its fields and is not enriched. */
  lemma ParseMsgFormat(prefix: string, command: string, middle: seq<string>, trailing: Option<string>)
    requires ' ' !in prefix
    requires IsMiddle(command) && command != PRIVMSG
    requires forall k :: 0 <= k < |middle| ==> IsMiddle(middle[k])
    ensures var line := Format(prefix, command, middle, trailing);
      ParseMsg(line) == Ok(Line(Message(prefix, command, middle + TrailingArgs(trailing), line, None)))
  {
    ParseFormat(prefix, command, middle, trailing);
  }

  /** Fields that describe a PRIVMSG whose text is `cmd`, one space and `terms` hold that `cmd` and `terms`. */
  lemma DescribedCommandText(m: Message, p: Privmsg, cmd: string, terms: string)
    requires DescribesPrivmsg(m, p)
    requires m.args[1] == cmd + " " + terms
    requires ' ' !in cmd
    requires terms == [] || (!IsSpace(terms[0]) && !IsSpace(terms[|terms| - 1]))
    ensures p.cmd == cmd && p.terms == terms
  {
    TextBeforeSeparator(cmd, ' ', terms, p.cmd);
    assert m.args[1][|cmd| + 1..] == terms;
    StripUnchanged(terms);
  }

  /** Annotating a PRIVMSG with at least two arguments, the second `cmd`, one space and `terms`, yields that `cmd` and `terms`; later arguments are ignored. */
  lemma AnnotateCommandText(m: Message, cmd: string, terms: string)
    requires m.command == PRIVMSG && |m.args| >= 2 && m.args[1] == cmd + " " + terms
    requires ' ' !in cmd
    requires terms == [] || (!IsSpace(terms[0]) && !IsSpace(terms[|terms| - 1]))
    ensures Annotate(m).Ok? && Annotate(m).value.privmsg.Some?
    ensures var p := Annotate(m).value.privmsg.value;
      p.chan == m.args[0] && p.cmd == cmd && p.terms == terms && IsTextBefore(p.nick, m.prefix, '!')
  {
    DescribedCommandText(m, Annotate(m).value.privmsg.value, cmd, terms);
  }

  /**
   * A PRIVMSG to `chan` whose text is `cmd`, one space and `terms` parses and is
   * enriched with the sender's nick, `chan`, `cmd` and `terms`; the runs of
   * spaces inside `terms` are kept as they are.
   */
  lemma ParsePrivmsgFormat(prefix: string, chan: string, cmd: string, terms: string)
    requires ' ' !in prefix
    requires IsMiddle(chan)
    requires ' ' !in cmd
    requires terms == [] || (!IsSpace(terms[0]) && !IsSpace(terms[|terms| - 1]))
    ensures var text := cmd + " " + terms;
      var line := Format(prefix, PRIVMSG, [chan], Some(text));
      var r := ParseMsg(line);
      && r.Ok? && r.value.Line?
      && r.value.msg.(privmsg := None) == Message(prefix, PRIVMSG, [chan, text], line, None)
      && r.value.msg.privmsg.Some?
      && var p := r.value.msg.privmsg.value;
         && IsTextBefore(p.nick, prefix, '!')
         && p.chan == chan && p.cmd == cmd && p.terms == terms
  {
    var text := cmd + " " + terms;
    var line := Format(prefix, PRIVMSG, [chan], Some(text));
    var m := Message(prefix, PRIVMSG, [chan, text], line, None);
    PrivmsgFields(prefix, chan, text);
    AnnotateCommandText(m, cmd, terms);
  }

  /** The fields of a formatted PRIVMSG line, before annotation. */
  lemma PrivmsgFields(prefix: string, chan: string, text: string)
    requires ' ' !in prefix
    requires IsMiddle(chan)
    ensures var line := Format(prefix, PRIVMSG, [chan], Some(text));
      line != [] && ParseFields(line) == Ok(Message(prefix, PRIVMSG, [chan, text], line, None))
  {
    assert IsMiddle(PRIVMSG);
    ParseFormat(prefix, PRIVMSG, [chan], Some(text));
    assert [chan] + TrailingArgs(Some(text)) == [chan, text];
  }
}
