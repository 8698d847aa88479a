# IRC wire layer of hashbang/bot, in Dafny

This project models the three helpers in `bot/utils.py` that turn the bytes
an IRC server sends into messages:

- `parsemsg` breaks one line into `prefix`, `command`, `args` and `raw`,
  following the message grammar of section 2.3.1 of RFC 1459. A trailing
  parameter after `" :"` keeps its spaces.
- `annotatemsg` adds `nick`, `chan`, `cmd` and `terms` to a `PRIVMSG`.
  Every other command is left as it is.
- `messageIterator` appends each chunk read from the socket to a buffer and
  splits the buffer on CR LF. It parses every complete line and hands it on
  in order, and keeps the incomplete tail for the next read. An empty read
  ends the loop.

The modules are:

- `PyStr` (PyStr.dfy): the Python `str` operations these helpers call, on
  `string`: `find`, `split(sep)`, `split(sep, 1)`, `split()`,
  `strip()` and `join`. `Contains(s, p)` is shorthand for
  `s.find(p) != -1`.
- `IrcMessage` (IrcMessage.dfy): `parsemsg` and `annotatemsg` as pure
  functions.
  - The Python dict becomes the record `Message`.
  - The `{}` returned for an empty line becomes `EmptyLine`.
  - The three exceptions the code lets escape become `Err` results.
- `IrcFormat` (IrcFormat.dfy): the wire form `Format` of a message. It holds
  the proofs that `parsemsg` reads every well-formed line back into the
  fields it was built from, and that a `PRIVMSG` is enriched with the
  expected `nick`, `chan`, `cmd` and `terms`.
- `MessageStream` (MessageStream.dfy): the read loop.
  - `Frame` is one framing step, and `FrameAll` is framing over a sequence
    of chunks.
  - `ParseEach` is the inner `for` loop as a function.
  - `MessageIterator` is the loop itself, a method over the sequence of
    values `recv` returned, with `ParseLines` as its inner loop. Both are
    proved against those functions.

A few consequences of the code as written, which the model keeps:

- A `PRIVMSG` with fewer than two arguments raises `IndexError` in
  `annotatemsg` (bot/utils.py:44-45). This is `Err(PrivmsgTooFewArgs)`.
- `terms` keeps the runs of spaces inside the text. `split(' ')` followed by
  `' '.join` gives back the text after the first space unchanged
  (bot/utils.py:45-51).
- `command` can be empty. For the line `" :"`, the trailing parameter `""`
  is the only parameter and is popped as the command (bot/utils.py:17-23).
- A malformed line does not yield a partial message, and is not skipped.
  - A `:` line without a space fails to unpack (`ValueError`): this is
    `PrefixWithoutSpace`.
  - A blank remainder makes `pop(0)` fail (`IndexError`): this is
    `NoCommand`.
  - The exception leaves the generator, so no later line is parsed. This is
    `StreamEnd.Raised`.

## Model

| member | source | states |
|---|---|---|
| PyStr.Find | bot/utils.py:17 | `s.find(p)` is -1 or an index where `p` occurs, and `p` occurs at no earlier index (nowhere at all when the result is -1) |
| PyStr.FindAfter | bot/utils.py:17-18 | in `a + p + t`, where `a` holds no `p` and `p` cannot overlap itself, the first occurrence of `p` is right after `a` |
| PyStr.SplitOn | bot/utils.py:43-45 | `s.split(sep)`; its contract is stated by `SplitOnJoin`, `SplitOnAfter`, `SplitOnHead` and `SplitOnTail`: at least one piece, and the pieces are the text between the occurrences of `sep`, scanning left to right |
| PyStr.JoinWith | bot/utils.py:51 | `sep.join(parts)`; stated by `SplitOnJoin` (it undoes `split`) and `SplitOnTail` (rejoining the tail gives back the text after the first separator) |
| PyStr.SplitOnce | bot/utils.py:16 | `s.split(sep, 1)` has one piece exactly when `sep` is absent, and that piece is `s`; otherwise it has two, `s` is first piece + `sep` + second, and the first holds no `sep` |
| PyStr.SplitOnceAfter | bot/utils.py:18 | splitting `a + sep + t` once, with no `sep` in `a`, gives exactly `[a, t]` |
| PyStr.SplitOnJoin | bot/utils.py:113 | joining the pieces of `s.split(sep)` with `sep` gives back `s`, and no piece contains `sep` |
| PyStr.SplitOnAfter | bot/utils.py:113 | splitting `a + sep + t`, with no `sep` in `a`, gives `a` followed by the pieces of `t` |
| PyStr.SplitOnHead | bot/utils.py:43 | `s.split(c)[0]` is the text of `s` before its first `c`, or all of `s` |
| PyStr.SplitOnTail | bot/utils.py:45-51 | `c.join(s.split(c)[1:])` is `""` when `c` is absent and otherwise exactly the text after the first `c`, with inner runs of `c` kept |
| PyStr.SplitWhitespace | bot/utils.py:19-22 | every token of `s.split()` is non-empty and holds no whitespace |
| PyStr.SplitWhitespaceSkipsSpace | bot/utils.py:19-22 | leading whitespace of any length is skipped by `s.split()`: it separates and yields nothing |
| PyStr.SplitWhitespaceTakesToken | bot/utils.py:19-22 | a whole run of non-whitespace followed by whitespace or the end is one piece of `s.split()`, followed by the pieces of the rest; with `SplitWhitespaceSkipsSpace` this fixes `s.split()` on every input |
| PyStr.SplitWhitespaceEmpty | bot/utils.py:22-23 | `s.split()` is empty exactly when `s` is all whitespace |
| PyStr.SplitWhitespaceKeepsText | bot/utils.py:19-22 | the tokens of `s.split()`, concatenated, are the non-whitespace characters of `s` in order |
| PyStr.SplitWhitespaceJoin | bot/utils.py:19-22 | tokens joined with single spaces split back into the same tokens |
| PyStr.StripLeft | bot/utils.py:51 | the first half of `strip()`: the result is a suffix of `s`, what is cut off is whitespace, and it does not start with whitespace |
| PyStr.StripRight | bot/utils.py:51 | the second half of `strip()`: the result is a prefix of `s`, what is cut off is whitespace, and it does not end with whitespace |
| PyStr.Strip | bot/utils.py:51 | `s.strip()` is a slice of `s` with only whitespace on both sides of it, and does not start or end with whitespace |
| PyStr.StripUnchanged | bot/utils.py:51 | a string that is empty or starts and ends with non-whitespace is its own strip |
| IrcMessage.SplitPrefix | bot/utils.py:14-16 | a line not starting with `:` has the empty prefix and is parsed whole. A `:` line has a prefix exactly when a space follows: the prefix has no space and the line is `":" + prefix + " " + rest`. Otherwise the error is `PrefixWithoutSpace` |
| IrcMessage.Params | bot/utils.py:17-22 | the parameter list of the text after the prefix; its contract is stated by `ParamsSound` and `ParamsEmpty` |
| IrcMessage.ParamsSound | bot/utils.py:17-22 | without `" :"` the parameters are the whitespace tokens. With one, the last parameter is the text after the first `" :"` verbatim, the text before it holds no `" :"`, and the others are that text's whitespace tokens |
| IrcMessage.ParamsEmpty | bot/utils.py:17-23 | the parameter list is empty exactly when the text has no `" :"` and is all whitespace |
| IrcMessage.ParseFields | bot/utils.py:10-30 | the result keeps the line as `raw` and has no PRIVMSG fields. The command followed by the args is the parameter list of the text after the prefix, and the prefix is as `SplitPrefix` states. `PrefixWithoutSpace` happens exactly for a `:` line with no space, and `NoCommand` exactly for a blank remainder |
| IrcMessage.Annotate | bot/utils.py:34-54 | a non-PRIVMSG comes back unchanged. A PRIVMSG fails (`PrivmsgTooFewArgs`) exactly when it has fewer than two args. Otherwise only the four keys are added: `nick` is the prefix before its first `!`, `chan` is `args[0]`, `cmd` is `args[1]` before its first space, and `terms` is the stripped text after that space (or `""`) |
| IrcMessage.ParseMsg | bot/utils.py:3-32 | the empty line, and only it, gives `EmptyLine`. Any other line gives the annotated fields of `ParseFields`, or the error of `ParseFields` or of `Annotate` |
| IrcFormat.JoinedMiddlesNoSpaceColon | bot/utils.py:17 | middle parameters joined with spaces never contain `" :"` |
| IrcFormat.SplitPrefixFormat | bot/utils.py:15-16 | a formatted line gives back its prefix and the text after it |
| IrcFormat.ParamsOfMiddles | bot/utils.py:21-22 | middle parameters joined with spaces, with no trailing parameter, are split back into the same list |
| IrcFormat.ParamsOfMiddlesAndTrailing | bot/utils.py:17-20 | middle parameters, `" :"` and a trailing text split back into the middles followed by the trailing text, spaces and all |
| IrcFormat.ParamsFormat | bot/utils.py:17-22 | the parameter part of a formatted line, with or without a trailing parameter, splits back into its parameters |
| IrcFormat.FormatStartsWithCommand | bot/utils.py:15 | the text after the prefix starts with the command's first character, which is not `:` |
| IrcFormat.ParseFieldsOfParts | bot/utils.py:23-30 | a line whose prefix and parameter list are known parses to that prefix, the first parameter as the command and the rest as args |
| IrcFormat.ParseFormat | bot/utils.py:3-30 | every well-formed line parses back to its prefix, command and parameters, the trailing one verbatim |
| IrcFormat.ParseMsgFormat | bot/utils.py:3-54 | a well-formed line whose command is not PRIVMSG parses to its fields and is not enriched |
| IrcFormat.DescribedCommandText | bot/utils.py:45-51 | for PRIVMSG text `cmd + " " + terms`, with no space in `cmd` and `terms` free of outer whitespace, the derived `cmd` and `terms` are exactly those |
| IrcFormat.AnnotateCommandText | bot/utils.py:41-51 | annotating a PRIVMSG with at least two arguments, the second being `cmd`, one space and stripped `terms`, succeeds, with `chan` the first argument, that `cmd` and `terms`, and `nick` the prefix before its first `!` |
| IrcFormat.PrivmsgFields | bot/utils.py:10-30 | a formatted PRIVMSG line parses to the channel and the whole text as its two args |
| IrcFormat.ParsePrivmsgFormat | bot/utils.py:3-54 | a formatted PRIVMSG parses and is enriched with the sender's nick, the channel, `cmd` and `terms`, with the runs of spaces inside `terms` kept |
| MessageStream.JoinIsTerminated | bot/utils.py:113-114 | joining pieces with CR LF is every piece but the last followed by CR LF, then the last |
| MessageStream.SplitAfterTerminated | bot/utils.py:113 | splitting text that starts with complete lines gives those lines first, then the pieces of the rest |
| MessageStream.Frame | bot/utils.py:113-114 | one framing step; stated by `FrameSound` (nothing lost or invented, no CR LF left in a line or the buffer), `FrameAfter` and `FrameUnterminated` |
| MessageStream.FrameSound | bot/utils.py:112-114 | the lines emitted, each followed by CR LF, then the new buffer, are exactly the old buffer plus the chunk; neither a line nor the buffer holds CR LF |
| MessageStream.FrameAfter | bot/utils.py:112-114 | text that starts with complete lines frames to those lines, then the lines and buffer of the rest |
| MessageStream.FrameUnterminated | bot/utils.py:113-114 | text without CR LF emits no line and stays whole in the buffer |
| MessageStream.ConcatSnoc | bot/utils.py:112 | the text received is the text of the earlier chunks followed by the last one |
| MessageStream.FrameAll | bot/utils.py:107-114 | the framing loop over all chunks; stated by `ChunkingIrrelevant`, `FramingRoundTrip` and `FrameAllExtends` |
| MessageStream.ChunkingIrrelevant | bot/utils.py:107-114 | feeding the chunks one at a time emits the same lines and leaves the same buffer as framing all the received text at once, so a CR LF split between two reads is still found |
| MessageStream.SameTextSameFrames | bot/utils.py:107-114 | two ways of cutting the same text into chunks emit the same lines and buffer |
| MessageStream.FramingRoundTrip | bot/utils.py:107-114 | lines sent with their CR LF, however cut into chunks, come out as the same lines in order with an empty buffer |
| MessageStream.FrameAllExtends | bot/utils.py:107-117 | later reads only add lines after the ones already emitted |
| MessageStream.Delivered | bot/utils.py:108-110 | the chunks the loop consumes are the reads before the first empty one: all non-empty, and an empty read follows them unless the reads run out |
| MessageStream.DeliveredPrefix | bot/utils.py:108-110 | when the first `i` reads bring text and the next is empty or missing, exactly those `i` are consumed |
| MessageStream.DeliveredIncludes | bot/utils.py:108-110 | reads that all bring text up to read `i` are all consumed |
| MessageStream.ParseEach | bot/utils.py:116-117 | `parsemsg` on each line in order up to the first that raises; stated by `ParseEachSound`, `ParseEachAppend` and `ParseEachStep` |
| MessageStream.ParseEachSound | bot/utils.py:116-117 | the messages are those of the first lines, one per line, in order. Without an error every line has one. An error is that of the line right after the last message |
| MessageStream.ParseEachAppend | bot/utils.py:116-117 | parsing more lines extends the messages, unless a line has already raised |
| MessageStream.ParseEachStep | bot/utils.py:116-117 | parsing one more line adds its message, or its error ends the parse |
| MessageStream.RaisedFirst | bot/utils.py:116-117 | once the first lines have raised, the lines after them change nothing |
| MessageStream.RaisedEndsStream | bot/utils.py:116-117 | once a line framed from the first reads raises, nothing the later reads bring is parsed |
| MessageStream.Stopped | bot/utils.py:108-110 | at an empty read, or when the reads run out, the loop has the messages of every line framed so far, and the buffer left |
| MessageStream.ParseLines | bot/utils.py:116-117 | the inner loop gives the messages, in order, of the lines before the first one that raises, and that line's error |
| MessageStream.MessageIterator | bot/utils.py:101-121 | the messages are those of the lines framed from the reads before the first empty one, in order, up to the first line that raises. Without an error the buffer is the unterminated tail, and the end is `Closed` at an empty read or `Waiting` when the reads ran out |

## Left out

- `RecordedSock` (bot/utils.py:64-83) is socket delegation and file output.
- `connect` (bot/utils.py:85-99) is socket creation and connection.
- `log` (bot/utils.py:56-62) is console printing.
- main.py is not part of this model.
- `socket.recv(1024)` becomes the sequence `received` of the values it returned, already decoded.
  - The UTF-8 `decode` is not modelled, so neither is the `UnicodeDecodeError` it raises on a multi-byte character split between two reads.
  - The 1024-byte read size is not modelled either.
- MessageIterator: the generator's laziness is not modelled. It collects the messages the consumer would be handed, instead of yielding them one at a time. A consumer that stops early, or that raises into the generator, is not modelled.
- MessageIterator: the sequence of reads is finite. `Waiting` stands for the point where the real loop would block in `recv`.
- MessageIterator: the `KeyboardInterrupt` handler (bot/utils.py:119-121) is asynchronous signal handling, and is not modelled.
- MessageIterator: the `buffer` is not stated after a line has raised, because the generator is gone by then.
- ParseFormat: the round trip is proved for lines built by `Format`, with middle parameters free of whitespace and not starting with `:`. Lines with other spacing are covered by `ParseFields` and `ParamsSound`, not by a round trip.
