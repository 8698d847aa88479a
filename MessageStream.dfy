/**
 * The read loop of `messageIterator` in bot/utils.py: received text is
 * appended to a buffer, the buffer is split on CR LF, every complete line is
 * parsed and handed on in order, and the incomplete tail stays in the buffer.
 * A socket read becomes one element of a sequence of already-decoded chunks;
 * the empty chunk is the empty read with which the peer closes the connection.
 */
module MessageStream {
  import opened PyStr
  import opened IrcMessage

  const CRLF := "\r\n"

  /** Every line followed by CR LF: the text the lines were framed from. */
  function Terminated(lines: seq<string>): string
  {
    if lines == [] then "" else lines[0] + CRLF + Terminated(lines[1..])
  }

  /** Joining with CR LF is terminating all parts but the last. */
  lemma {:induction false} JoinIsTerminated(parts: seq<string>)
    requires parts != []
    ensures JoinWith(parts, CRLF) == Terminated(parts[..|parts| - 1]) + parts[|parts| - 1]
  {
    if |parts| > 1 {
      JoinIsTerminated(parts[1..]);
      assert parts[1..][..|parts| - 2] == parts[..|parts| - 1][1..];
    } else {
      assert parts[..0] == [];
    }
  }

  /** Splitting text that starts with terminated lines gives those lines back first. */
  lemma {:induction false} SplitAfterTerminated(lines: seq<string>, t: string)
    requires forall k :: 0 <= k < |lines| ==> !Contains(lines[k], CRLF)
    ensures SplitOn(Terminated(lines) + t, CRLF) == lines + SplitOn(t, CRLF)
  {
    if lines != [] {
      var l := lines[0];
      var rest := Terminated(lines[1..]) + t;
      calc {
        SplitOn(Terminated(lines) + t, CRLF);
        { TerminatedCons(lines, t); }
        SplitOn(l + CRLF + rest, CRLF);
        { SplitOnAfter(l, CRLF, rest); }
        [l] + SplitOn(rest, CRLF);
        { SplitAfterTerminated(lines[1..], t); }
        [l] + (lines[1..] + SplitOn(t, CRLF));
        { assert lines == [l] + lines[1..]; }
        lines + SplitOn(t, CRLF);
      }
    } else {
      assert Terminated(lines) + t == t;
    }
  }

  lemma TerminatedCons(lines: seq<string>, t: string)
    requires lines != []
    ensures Terminated(lines) + t == lines[0] + CRLF + (Terminated(lines[1..]) + t)
  {
  }

  /**
   * The framing done on each turn of the loop (bot/utils.py:112-114), once
   * the chunk has been appended to the buffer: split the buffer on CR LF and
   * keep the last piece as the new buffer.
   */
  function Frame(text: string): (seq<string>, string)
  {
    var parts := SplitOn(text, CRLF);
    (parts[..|parts| - 1], parts[|parts| - 1])
  }

  /**
   * Framing loses nothing and invents nothing: the lines emitted, each with
   * its terminator, followed by the new buffer, are the text framed; neither
   * a line nor the new buffer holds CR LF.
   */
  lemma FrameSound(text: string)
    ensures Terminated(Frame(text).0) + Frame(text).1 == text
    ensures forall k :: 0 <= k < |Frame(text).0| ==> !Contains(Frame(text).0[k], CRLF)
    ensures !Contains(Frame(text).1, CRLF)
  {
    SplitOnJoin(text, CRLF);
    JoinIsTerminated(SplitOn(text, CRLF));
  }

  /** Text that starts with complete lines frames to those lines, then what the rest frames to. */
  lemma {:induction false} FrameAfter(lines: seq<string>, t: string)
    requires forall k :: 0 <= k < |lines| ==> !Contains(lines[k], CRLF)
    ensures Frame(Terminated(lines) + t) == (lines + Frame(t).0, Frame(t).1)
  {
    var parts := SplitOn(t, CRLF);
    SplitAfterTerminated(lines, t);
    FrameOfSplit(Terminated(lines) + t, lines, parts);
    FrameOfSplit(t, [], parts);
    assert [] + parts[..|parts| - 1] == parts[..|parts| - 1];
  }

  /** Framing text whose pieces are known. */
  lemma FrameOfSplit(text: string, lines: seq<string>, parts: seq<string>)
    requires parts != [] && SplitOn(text, CRLF) == lines + parts
    ensures Frame(text) == (lines + parts[..|parts| - 1], parts[|parts| - 1])
  {
    SplitLast(lines, parts);
  }

  lemma SplitLast<T>(a: seq<T>, b: seq<T>)
    requires b != []
    ensures (a + b)[..|a + b| - 1] == a + b[..|b| - 1]
    ensures (a + b)[|a + b| - 1] == b[|b| - 1]
  {
  }

  /** Text holding no CR LF frames to no line, and stays in the buffer whole. */
  lemma FrameUnterminated(t: string)
    requires !Contains(t, CRLF)
    ensures Frame(t) == ([], t)
  {
  }

  /** The loop of `messageIterator` over the given chunks: every line emitted, and the buffer left. */
  function FrameAll(chunks: seq<string>): (seq<string>, string)
  {
    if chunks == [] then ([], "")
    else
      var (lines, buffer) := FrameAll(chunks[..|chunks| - 1]);
      var (more, rest) := Frame(buffer + chunks[|chunks| - 1]);
      (lines + more, rest)
  }

  lemma {:induction false} ConcatSnoc(chunks: seq<string>)
    requires chunks != []
    ensures Concat(chunks) == Concat(chunks[..|chunks| - 1]) + chunks[|chunks| - 1]
  {
    if |chunks| > 1 {
      ConcatSnoc(chunks[1..]);
      assert chunks[1..][..|chunks| - 2] == chunks[..|chunks| - 1][1..];
    } else {
      assert chunks[..0] == [];
    }
  }

  /**
   * Feeding the chunks one at a time frames exactly what the whole received
   * text frames: where the reads happen to break the stream, a CR LF split
   * between two of them included, makes no difference.
   */
  lemma {:induction false} ChunkingIrrelevant(chunks: seq<string>)
    ensures FrameAll(chunks) == Frame(Concat(chunks))
  {
    if chunks != [] {
      var init, c := chunks[..|chunks| - 1], chunks[|chunks| - 1];
      var lines, buffer := FrameAll(init).0, FrameAll(init).1;
      assert FrameAll(chunks) == (lines + Frame(buffer + c).0, Frame(buffer + c).1);
      ChunkingIrrelevant(init);
      FrameSound(Concat(init));
      ConcatSnoc(chunks);
      assert Concat(chunks) == Terminated(lines) + (buffer + c);
      FrameAfter(lines, buffer + c);
    } else {
      FrameUnterminated("");
    }
  }

  /** Two ways of cutting the same received text into chunks emit the same lines and leave the same buffer. */
  lemma SameTextSameFrames(chunks: seq<string>, others: seq<string>)
    requires Concat(chunks) == Concat(others)
    ensures FrameAll(chunks) == FrameAll(others)
  {
    ChunkingIrrelevant(chunks);
    ChunkingIrrelevant(others);
  }

  /** Lines sent with their terminators, however cut into chunks, come out as the same lines with an empty buffer. */
  lemma FramingRoundTrip(lines: seq<string>, chunks: seq<string>)
    requires forall k :: 0 <= k < |lines| ==> !Contains(lines[k], CRLF)
    requires Concat(chunks) == Terminated(lines)
    ensures FrameAll(chunks) == (lines, "")
  {
    ChunkingIrrelevant(chunks);
    FrameAfter(lines, "");
    assert Terminated(lines) + "" == Terminated(lines);
    FrameUnterminated("");
    assert lines + [] == lines;
  }

  /** Later chunks only add lines after those already emitted. */
  lemma {:induction false} FrameAllExtends(chunks: seq<string>, more: seq<string>)
    ensures FrameAll(chunks).0 <= FrameAll(chunks + more).0
    decreases |more|
  {
    if more != [] {
      var all, init := chunks + more, more[..|more| - 1];
      FrameAllExtends(chunks, init);
      assert all[..|all| - 1] == chunks + init;
      var (lines, buffer) := FrameAll(chunks + init);
      assert FrameAll(all).0 == lines + Frame(buffer + all[|all| - 1]).0;
    } else {
      assert chunks + more == chunks;
    }
  }

  /** The chunks the loop consumes: those before the first empty read. */
  function Delivered(received: seq<string>): (d: seq<string>)
    ensures |d| <= |received| && d == received[..|d|]
    ensures forall k :: 0 <= k < |d| ==> d[k] != []
    ensures |d| < |received| ==> received[|d|] == []
  {
    if received == [] || received[0] == [] then [] else [received[0]] + Delivered(received[1..])
  }

  /** When the first `i` reads bring text and the next one is empty or missing, those `i` are delivered. */
  lemma DeliveredPrefix(received: seq<string>, i: nat)
    requires i <= |received| && forall k :: 0 <= k < i ==> received[k] != []
    requires i < |received| ==> received[i] == []
    ensures Delivered(received) == received[..i]
  {
  }

  /**
   * `parsemsg` applied to the lines in order, as the generator yields them:
   * the messages of the lines before the first one that raises, and that
   * line's error if there is one.
   */
  function ParseEach(lines: seq<string>): (seq<Parsed>, Option<ParseError>)
  {
    if lines == [] then ([], None)
    else
      match ParseMsg(lines[0])
      case Err(e) => ([], Some(e))
      case Ok(p) =>
        var (msgs, err) := ParseEach(lines[1..]);
        ([p] + msgs, err)
  }

  /**
   * The messages are those of the first lines, one for each, in order; without
   * an error every line has one, and an error is that of the line right after
   * the last message.
   */
  lemma {:induction false} ParseEachSound(lines: seq<string>)
    ensures var (msgs, err) := ParseEach(lines);
      && |msgs| <= |lines|
      && (err.None? ==> |msgs| == |lines|)
      && (forall k :: 0 <= k < |msgs| ==> ParseMsg(lines[k]) == Ok(msgs[k]))
      && (err.Some? ==> |msgs| < |lines| && ParseMsg(lines[|msgs|]) == Err(err.value))
  {
    if lines != [] {
      match ParseMsg(lines[0]) {
        case Err(e) =>
          assert ParseEach(lines) == ([], Some(e));
        case Ok(p) =>
          var rest := lines[1..];
          ParseEachSound(rest);
          var (msgs, err) := ParseEach(rest);
          assert ParseEach(lines) == ([p] + msgs, err);
          forall k | 1 <= k < |msgs| + 1
            ensures ParseMsg(lines[k]) == Ok(([p] + msgs)[k])
          {
            assert lines[k] == rest[k - 1];
          }
          if err.Some? {
            assert lines[|msgs| + 1] == rest[|msgs|];
          }
      }
    }
  }

  /** Parsing more lines extends the messages unless a line has already raised. */
  lemma {:induction false} ParseEachAppend(a: seq<string>, b: seq<string>)
    ensures ParseEach(a + b) ==
      if ParseEach(a).1.Some? then ParseEach(a) else (ParseEach(a).0 + ParseEach(b).0, ParseEach(b).1)
  {
    if a != [] {
      assert (a + b)[0] == a[0] && (a + b)[1..] == a[1..] + b;
      ParseEachAppend(a[1..], b);
      if ParseMsg(a[0]).Ok? {
        var p := ParseMsg(a[0]).value;
        assert [p] + (ParseEach(a[1..]).0 + ParseEach(b).0) == [p] + ParseEach(a[1..]).0 + ParseEach(b).0;
      }
    } else {
      assert a + b == b;
      assert [] + ParseEach(b).0 == ParseEach(b).0;
    }
  }

  /** Parsing one more line: its message is added, or its error ends the parse. */
  lemma ParseEachStep(done: seq<string>, line: string, out: seq<Parsed>)
    requires ParseEach(done) == (out, None)
    ensures ParseMsg(line).Ok? ==> ParseEach(done + [line]) == (out + [ParseMsg(line).value], None)
    ensures ParseMsg(line).Err? ==> ParseEach(done + [line]) == (out, Some(ParseMsg(line).error))
  {
    ParseEachAppend(done, [line]);
    ParseEachOne(line);
    assert out + [] == out;
  }

  lemma ParseEachOne(line: string)
    ensures ParseEach([line]) ==
      if ParseMsg(line).Ok? then ([ParseMsg(line).value], None) else ([], Some(ParseMsg(line).error))
  {
    assert [line][0] == line && [line][1..] == [];
    if ParseMsg(line).Ok? {
      assert [ParseMsg(line).value] + [] == [ParseMsg(line).value];
    }
  }

  /** How the loop ends: the peer closed, the reads given ran out, or `parsemsg` raised. */
  datatype StreamEnd = Closed | Waiting | Raised(error: ParseError)

  /**
   * `messageIterator` (bot/utils.py:101-121) over the successive results of
   * `recv`. The messages are those of the lines framed from the chunks before
   * the first empty read, in order, up to the first line that raises; the
   * buffer holds the unterminated tail.
   */
  method MessageIterator(received: seq<string>) returns (out: seq<Parsed>, end: StreamEnd, buffer: string)
    ensures var (lines, rest) := FrameAll(Delivered(received));
      var (msgs, err) := ParseEach(lines);
      && out == msgs
      && (err.Some? ==> end == Raised(err.value))
      && (err.None? ==> buffer == rest && end == if |Delivered(received)| < |received| then Closed else Waiting)
  {
    buffer := "";
    out := [];
    ghost var lines: seq<string> := [];
    var i := 0;
    while i < |received|
      invariant 0 <= i <= |received|
      invariant forall k :: 0 <= k < i ==> received[k] != []
      invariant FrameAll(received[..i]) == (lines, buffer)
      invariant ParseEach(lines) == (out, None)
    {
      var data := received[i];
      if data == [] {
        end := Closed;
        Stopped(received, i, lines, buffer, out, end);
        return;
      }
      var (complete, rest) := Frame(buffer + data);
      FrameAllSnoc(received, i);
      var msgs, err := ParseLines(complete);
      ParseEachAppend(lines, complete);
      out := out + msgs;
      if err.Some? {
        RaisedEndsStream(received, i, out, err.value);
        end := Raised(err.value);
        return;
      }
      lines := lines + complete;
      buffer := rest;
      assert forall k :: 0 <= k < i + 1 ==> received[k] != [];
      i := i + 1;
    }
    end := Waiting;
    Stopped(received, i, lines, buffer, out, end);
  }

  /** Where the loop stops without an error: at the first empty read, or after the last one. */
  lemma Stopped(received: seq<string>, i: nat, lines: seq<string>, buffer: string, out: seq<Parsed>, end: StreamEnd)
    requires i <= |received| && forall k :: 0 <= k < i ==> received[k] != []
    requires i < |received| ==> received[i] == []
    requires end == if i < |received| then Closed else Waiting
    requires FrameAll(received[..i]) == (lines, buffer) && ParseEach(lines) == (out, None)
    ensures var (lines', rest) := FrameAll(Delivered(received));
      && ParseEach(lines') == (out, None)
      && buffer == rest && end == if |Delivered(received)| < |received| then Closed else Waiting
  {
    DeliveredPrefix(received, i);
  }

  /**
   * The `for line in lines` loop of `messageIterator` (bot/utils.py:116-117):
   * `parsemsg` on each framed line in order, stopping at the first one that raises.
   */
  method ParseLines(complete: seq<string>) returns (msgs: seq<Parsed>, err: Option<ParseError>)
    ensures (msgs, err) == ParseEach(complete)
  {
    msgs, err := [], None;
    var j := 0;
    while j < |complete|
      invariant 0 <= j <= |complete|
      invariant ParseEach(complete[..j]) == (msgs, None)
    {
      var r := ParseMsg(complete[j]);
      ParseEachStep(complete[..j], complete[j], msgs);
      assert complete[..j] + [complete[j]] == complete[..j + 1];
      if r.Err? {
        err := Some(r.error);
        RaisedFirst(complete, j + 1);
        return;
      }
      msgs := msgs + [r.value];
      j := j + 1;
    }
    assert complete[..j] == complete;
  }

  /** Once the first `n` lines have raised, the lines after them change nothing. */
  lemma RaisedFirst(lines: seq<string>, n: nat)
    requires n <= |lines| && ParseEach(lines[..n]).1.Some?
    ensures ParseEach(lines) == ParseEach(lines[..n])
  {
    ParseEachAppend(lines[..n], lines[n..]);
    assert lines[..n] + lines[n..] == lines;
  }

  /** One more read: its chunk is framed after the buffer left by the earlier ones. */
  lemma FrameAllSnoc(received: seq<string>, i: nat)
    requires i < |received|
    ensures var (lines, buffer) := FrameAll(received[..i]);
      FrameAll(received[..i + 1]) == (lines + Frame(buffer + received[i]).0, Frame(buffer + received[i]).1)
  {
    assert received[..i + 1][..i] == received[..i];
  }

  /** Once a line framed from the first `i + 1` chunks raises, nothing the later chunks bring is parsed. */
  lemma RaisedEndsStream(received: seq<string>, i: nat, out: seq<Parsed>, e: ParseError)
    requires i < |received| && forall k :: 0 <= k <= i ==> received[k] != []
    requires ParseEach(FrameAll(received[..i + 1]).0) == (out, Some(e))
    ensures ParseEach(FrameAll(Delivered(received)).0) == (out, Some(e))
  {
    var d := Delivered(received);
    var pre := received[..i + 1];
    DeliveredIncludes(received, i);
    PrefixRest(pre, d);
    FrameAllExtends(pre, d[|pre|..]);
    var framed, all := FrameAll(pre).0, FrameAll(d).0;
    PrefixRest(framed, all);
    ParseEachAppend(framed, all[|framed|..]);
  }

  /** The chunks that brought text up to read `i` are all delivered. */
  lemma DeliveredIncludes(received: seq<string>, i: nat)
    requires i < |received| && forall k :: 0 <= k <= i ==> received[k] != []
    ensures received[..i + 1] <= Delivered(received)
  {
    var d := Delivered(received);
    assert |d| > i;
    assert d[..i + 1] == received[..i + 1];
  }

  lemma PrefixRest<T>(a: seq<T>, b: seq<T>)
    requires a <= b
    ensures b == a + b[|a|..]
  {
    assert b[..|a|] == a;
  }
}
