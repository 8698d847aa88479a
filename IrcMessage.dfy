/**
 * `parsemsg` and `annotatemsg` of bot/utils.py: one IRC line, CR LF already
 * removed, broken into prefix, command and parameters after the message
 * grammar of section 2.3.1 of RFC 1459, then enriched when it is a PRIVMSG.
 * Python's dict becomes the record `Message`; the exceptions the code lets
 * escape become `Err` results.
 */
module IrcMessage {
  import opened PyStr

  datatype Option<T> = None | Some(value: T)

  /** The four keys `annotatemsg` adds to a PRIVMSG. */
  datatype Privmsg = Privmsg(nick: string, chan: string, cmd: string, terms: string)

  /**
   * The dict `parsemsg` builds: 'prefix', 'command', 'args' and 'raw', plus the
   * keys of `Privmsg` once `annotatemsg` has enriched a PRIVMSG.
   */
  datatype Message = Message(prefix: string, command: string, args: seq<string>, raw: string, privmsg: Option<Privmsg>)

  /** `parsemsg` gives `{}` for an empty line and a message otherwise. */
  datatype Parsed = EmptyLine | Line(msg: Message)

  /** The exceptions that escape `parsemsg`. */
  datatype ParseError =
    | PrefixWithoutSpace   // ValueError: a ':' line with no space cannot be unpacked into prefix and rest
    | NoCommand            // IndexError: `pop(0)` on an empty parameter list
    | PrivmsgTooFewArgs    // IndexError: a PRIVMSG without both `args[0]` and `args[1]`

  datatype Result<T> = Ok(value: T) | Err(error: ParseError)

  const PRIVMSG := "PRIVMSG"

  /**
   * A line that starts with ':' carries a prefix up to its first space; the
   * text after that space is parsed on. Any other line has the empty prefix.
   */
  function SplitPrefix(line: string): (r: Result<(string, string)>)
    requires line != []
    ensures line[0] != ':' ==> r == Ok(("", line))
    ensures line[0] == ':' ==> (r.Ok? <==> ' ' in line[1..])
    ensures line[0] == ':' && r.Ok? ==> ' ' !in r.value.0 && line == ":" + r.value.0 + " " + r.value.1
    ensures r.Err? ==> r.error == PrefixWithoutSpace
  {
    if line[0] == ':' then
      var parts := SplitOnce(line[1..], " ");
      ContainsChar(line[1..], ' ');
      if |parts| == 2 then
        ContainsChar(parts[0], ' ');
        Ok((parts[0], parts[1]))
      else Err(PrefixWithoutSpace)
    else Ok(("", line))
  }

  /**
   * The parameter list of the text after the prefix: its whitespace-separated
   * tokens, and, when it holds " :", the tokens before the first " :" followed
   * by everything after it, spaces and all.
   */
  function Params(s: string): seq<string>
  {
    if Find(s, " :") != -1 then
      var parts := SplitOnce(s, " :");
      SplitWhitespace(parts[0]) + [parts[1]]
    else
      SplitWhitespace(s)
  }

  /** What `Params` splits off: the whitespace tokens before the first " :", then the rest verbatim. */
  lemma ParamsSound(s: string)
    ensures !Contains(s, " :") ==> Params(s) == SplitWhitespace(s)
    ensures Contains(s, " :") ==>
      && |Params(s)| >= 1
      && var trailing := Params(s)[|Params(s)| - 1];
         && |trailing| + 2 <= |s|
         && var head := s[..|s| - |trailing| - 2];
            && s == head + " :" + trailing
            && !Contains(head, " :")
            && Params(s)[..|Params(s)| - 1] == SplitWhitespace(head)
  {
  }

  /** The parameter list is empty exactly when the text has no " :" and is blank. */
  lemma ParamsEmpty(s: string)
    ensures Params(s) == [] <==> !Contains(s, " :") && AllSpace(s)
  {
    SplitWhitespaceEmpty(s);
  }

  /** `parsemsg` for a non-empty line, before `annotatemsg`. */
  function ParseFields(line: string): (r: Result<Message>)
    requires line != []
    ensures r.Ok? ==> r.value.raw == line && r.value.privmsg == None
    ensures r.Ok? && line[0] != ':' ==> r.value.prefix == "" && [r.value.command] + r.value.args == Params(line)
    ensures r.Ok? && line[0] == ':' ==>
      && var n := |r.value.prefix|;
         && n + 2 <= |line|
         && line[..n + 2] == ":" + r.value.prefix + " "
         && ' ' !in r.value.prefix
         && [r.value.command] + r.value.args == Params(line[n + 2..])
    ensures r == Err(PrefixWithoutSpace) <==> line[0] == ':' && ' ' !in line[1..]
    ensures r == Err(NoCommand) <==>
      SplitPrefix(line).Ok? && !Contains(SplitPrefix(line).value.1, " :") && AllSpace(SplitPrefix(line).value.1)
    ensures r.Err? ==> r.error == PrefixWithoutSpace || r.error == NoCommand
  {
    match SplitPrefix(line)
    case Err(e) => Err(e)
    case Ok((prefix, rest)) =>
      var params := Params(rest);
      ParamsEmpty(rest);
      if params == [] then Err(NoCommand)
      else
        assert line[0] == ':' ==> line[|prefix| + 2..] == rest && line[..|prefix| + 2] == ":" + prefix + " ";
        assert [params[0]] + params[1..] == params;
        Ok(Message(prefix, params[0], params[1..], line, None))
  }

  /** What the four PRIVMSG keys hold, stated from the message's own fields. */
  ghost predicate DescribesPrivmsg(m: Message, p: Privmsg) {
    && |m.args| >= 2
    && IsTextBefore(p.nick, m.prefix, '!')
    && p.chan == m.args[0]
    && IsTextBefore(p.cmd, m.args[1], ' ')
    && p.terms == if |p.cmd| < |m.args[1]| then Strip(m.args[1][|p.cmd| + 1..]) else ""
  }

  /**
   * `annotatemsg`: a PRIVMSG gains `nick`, `chan`, `cmd` and `terms`; every
   * other command comes back as it was.
   */
  function Annotate(m: Message): (r: Result<Message>)
    ensures m.command != PRIVMSG ==> r == Ok(m)
    ensures m.command == PRIVMSG ==> (r.Ok? <==> |m.args| >= 2)
    ensures r.Err? ==> r.error == PrivmsgTooFewArgs
    ensures r.Ok? ==> r.value.(privmsg := m.privmsg) == m
    ensures r.Ok? && m.command == PRIVMSG ==>
      r.value.privmsg.Some? && DescribesPrivmsg(m, r.value.privmsg.value)
  {
    if m.command == PRIVMSG then
      if |m.args| < 2 then Err(PrivmsgTooFewArgs)
      else
        var nick := SplitOn(m.prefix, "!")[0];
        var parts := SplitOn(m.args[1], " ");
        SplitOnHead(m.prefix, '!');
        SplitOnHead(m.args[1], ' ');
        SplitOnTail(m.args[1], ' ');
        assert ' ' in m.args[1] <==> |parts[0]| < |m.args[1]|;
        Ok(m.(privmsg := Some(Privmsg(nick, m.args[0], parts[0], Strip(JoinWith(parts[1..], " "))))))
    else
      Ok(m)
  }

  /** `parsemsg`: the empty line, or the parsed and annotated message. */
  function ParseMsg(line: string): (r: Result<Parsed>)
    ensures r == Ok(EmptyLine) <==> line == []
    ensures r.Ok? && r.value.Line? ==>
      && r.value.msg.raw == line
      && ParseFields(line).Ok?
      && Annotate(ParseFields(line).value) == Ok(r.value.msg)
    ensures r.Err? ==>
      && line != []
      && (|| ParseFields(line) == Err(r.error)
          || (ParseFields(line).Ok? && Annotate(ParseFields(line).value) == Err(r.error)))
  {
    if line == [] then Ok(EmptyLine)
    else
      match ParseFields(line)
      case Err(e) => Err(e)
      case Ok(m) =>
        match Annotate(m)
        case Err(e) => Err(e)
        case Ok(a) => Ok(Line(a))
  }
}
