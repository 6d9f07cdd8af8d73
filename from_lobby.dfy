/** The lobby-to-WebSocket translator (`read_from_lobby`): it reads the lobby's
    character stream a line at a time, stops cleanly on an empty read, and
    otherwise drops the line's last character and sends the rest to the
    client as one Text message. */
module FromLobby {
  import opened Wire

  datatype LineRead = Line(text: string) | LineFailed

  /** Length of the line at the head of `s`: up to and including the first
      newline, or all of `s` when it holds none. */
  function LineLength(s: string): (n: nat)
    ensures n <= |s|
    ensures forall i :: 0 <= i < n - 1 ==> s[i] != '\n'
    ensures n == |s| || (0 < n && s[n - 1] == '\n')
  {
    if s == [] then 0
    else if s[0] == '\n' then 1
    else 1 + LineLength(s[1..])
  }

  /** One `read_line` call on the unread characters `rest` of the lobby
      stream: the characters up to and including the first newline; at a
      clean end of stream, whatever remains (possibly nothing) when no newline
      is left; a failure when the stream breaks before a newline arrives. */
  function ReadLine(rest: string, end: StreamEnd): LineRead
  {
    var line := rest[..LineLength(rest)];
    if end == Failed && !Terminated(line) then LineFailed else Line(line)
  }

  /** Whether a line read ends with its newline. */
  predicate Terminated(line: string)
  {
    0 < |line| && line[|line| - 1] == '\n'
  }

  /** `read_line` fails exactly when the stream breaks with no newline left;
      a successful read is a prefix of the unread characters that ends at the
      first newline, holding it, or takes all of them when no newline is left. */
  lemma ReadLineStopsAtNewline(rest: string, end: StreamEnd)
    ensures ReadLine(rest, end).LineFailed? <==> '\n' !in rest && end == Failed
    ensures var r := ReadLine(rest, end);
      r.Line? ==> r.text <= rest
    ensures var r := ReadLine(rest, end);
      r.Line? && '\n' in rest ==> Terminated(r.text) && '\n' !in r.text[..|r.text| - 1]
    ensures var r := ReadLine(rest, end);
      r.Line? && '\n' !in rest ==> r.text == rest
  {
    var n := LineLength(rest);
    var line := rest[..n];
    assert forall i :: 0 <= i < |line| - 1 ==> line[i] != '\n';
    if '\n' in rest {
      var k :| 0 <= k < |rest| && rest[k] == '\n';
      assert n == |rest| ==> n - 1 <= k;
      assert Terminated(line);
    } else {
      assert n == |rest|;
    }
  }

  /** The translator as a function of the lobby stream, with a client sink
      that accepts every send: the messages it sends, and how it stops. */
  function Relay(data: string, end: StreamEnd): Run<seq<Message>>
    decreases |data|
  {
    match ReadLine(data, end)
    case LineFailed => Run([], Err(ReadError))
    case Line(line) =>
      if line == [] then Run([], Ok)
      else
        var rest := Relay(data[|line|..], end);
        Run([Text(line[..|line| - 1])] + rest.output, rest.outcome)
  }

  /** The same run when the sink's send call numbered `k` fails: the loop is
      deterministic, so it sends the first `k` messages and stops there with
      a send error, or ends as before when it makes fewer than `k + 1` calls. */
  function CutBySendFailure(run: Run<seq<Message>>, failSend: FailAt): Run<seq<Message>>
  {
    if failSend.Some? && failSend.value < |run.output| then Run(run.output[..failSend.value], Err(WriteError))
    else run
  }

  /** One round of the loop: a non-empty read is sent without its last
      character, and the loop carries on after it. */
  lemma RelayStep(data: string, end: StreamEnd, line: string)
    requires ReadLine(data, end) == Line(line) && line != []
    ensures |line| <= |data|
    ensures var rest := Relay(data[|line|..], end);
      Relay(data, end) == Run([Text(line[..|line| - 1])] + rest.output, rest.outcome)
  {
  }

  /** With nothing left to read, the loop stops without sending: cleanly at
      the end of stream, with a read error when the stream broke. */
  lemma RelayAtEnd(end: StreamEnd)
    ensures Relay([], end) == Run([], if end == Failed then Err(ReadError) else Ok)
  {
  }

  /** `read_from_lobby` as a loop that reads one line per round from the
      buffered lobby stream (`unread` is what the buffer has not yet handed
      out) and appends one Text message per non-empty read to the client
      sink's buffer. The sink's next send call is the one numbered `|sent|`. */
  method ReadFromLobby(data: string, end: StreamEnd, failSend: FailAt) returns (sent: seq<Message>, r: Outcome)
    ensures Run(sent, r) == CutBySendFailure(Relay(data, end), failSend)
  {
    sent := [];
    var unread := data;
    EmptyPrefix(Relay(data, end).output);
    while true
      invariant Relay(data, end) == Run(sent + Relay(unread, end).output, Relay(unread, end).outcome)
      invariant failSend.Some? ==> |sent| <= failSend.value
      decreases |unread|
    {
      var read := ReadLine(unread, end);
      if read.LineFailed? {
        EmptySuffix(sent);
        return sent, Err(ReadError);
      }
      var msg := read.text;
      if msg == [] {
        break;
      }
      RelayStep(unread, end, msg);
      msg := msg[..|msg| - 1];
      ghost var rest := Relay(unread[|read.text|..], end);
      Regroup(sent, Text(msg), rest.output);
      if failSend == Some(|sent|) {
        return sent, Err(WriteError);
      }
      sent := sent + [Text(msg)];
      unread := unread[|read.text|..];
    }
    EmptySuffix(sent);
    r := Ok;
  }

  /** Nothing placed before a sequence leaves it unchanged. */
  lemma EmptyPrefix<T>(s: seq<T>)
    ensures [] + s == s
  {
  }

  /** Nothing placed after a sequence leaves it unchanged. */
  lemma EmptySuffix<T>(s: seq<T>)
    ensures s + [] == s
  {
  }

  /** Appending one more item keeps the order; the items before it are a prefix. */
  lemma Regroup<T>(done: seq<T>, x: T, rest: seq<T>)
    ensures done + ([x] + rest) == (done + [x]) + rest
    ensures (done + ([x] + rest))[..|done|] == done
  {
    assert (done + ([x] + rest))[..|done|] == done;
  }

  /** A line ended by a newline is read whole, newline included. */
  lemma ReadsTerminatedLine(l: string, after: string, end: StreamEnd)
    requires '\n' !in l
    ensures ReadLine(l + "\n" + after, end) == Line(l + "\n")
  {
    var data := l + "\n" + after;
    var n := LineLength(data);
    assert forall i :: 0 <= i < |l| ==> data[i] == l[i];
    assert data[|l|] == '\n';
    assert n == |l| + 1;
    assert data[..n] == l + "\n";
  }

  /** How the framed lines split at the first one. */
  lemma LinesHead(lines: seq<string>, tail: string)
    requires lines != []
    ensures Lines(lines) + tail == lines[0] + "\n" + (Lines(lines[1..]) + tail)
    ensures (lines[0] + "\n" + (Lines(lines[1..]) + tail))[|lines[0]| + 1..] == Lines(lines[1..]) + tail
    ensures (lines[0] + "\n")[..|lines[0]|] == lines[0]
    ensures forall i :: 0 <= i < |lines| - 1 ==> lines[1..][i] == lines[i + 1]
  {
    var l := lines[0];
    var after := Lines(lines[1..]) + tail;
    assert (l + "\n" + after)[|l| + 1..] == after;
    assert (l + "\n")[..|l|] == l;
  }

  /** The messages for some lines start with the message for the first line. */
  lemma TextMessagesHead(lines: seq<string>, out: seq<Message>)
    requires lines != []
    ensures [Text(lines[0])] + (TextMessages(lines[1..]) + out) == TextMessages(lines) + out
  {
    assert TextMessages(lines) == [Text(lines[0])] + TextMessages(lines[1..]);
  }

  /** Each newline-terminated line is sent as exactly one Text message holding
      the line without its newline, in order, an empty line included, and the
      loop goes on with whatever follows the lines. */
  lemma {:induction false} RelaysEachLine(lines: seq<string>, tail: string, end: StreamEnd)
    requires forall i :: 0 <= i < |lines| ==> '\n' !in lines[i]
    ensures var rest := Relay(tail, end);
      Relay(Lines(lines) + tail, end) == Run(TextMessages(lines) + rest.output, rest.outcome)
  {
    var rest := Relay(tail, end);
    if lines == [] {
      EmptyPrefix(tail);
      EmptyPrefix(rest.output);
    } else {
      var l := lines[0];
      var after := Lines(lines[1..]) + tail;
      LinesHead(lines, tail);
      ReadsTerminatedLine(l, after, end);
      RelayStep(l + "\n" + after, end, l + "\n");
      RelaysEachLine(lines[1..], tail, end);
      TextMessagesHead(lines, rest.output);
    }
  }

  /** A bare newline is not an empty read: it is sent as an empty Text
      message and the loop goes on with what follows. */
  lemma BareNewlineSendsEmptyText(after: string, end: StreamEnd)
    ensures var rest := Relay(after, end);
      Relay("\n" + after, end) == Run([Text("")] + rest.output, rest.outcome)
  {
    ReadsTerminatedLine("", after, end);
    LinesHead([""], after);
    RelayStep("\n" + after, end, "\n");
  }

  /** The first `k` messages for some lines, whatever follows them, are the
      messages for the first `k` lines. */
  lemma TextMessagesPrefix(lines: seq<string>, out: seq<Message>, k: nat)
    requires k <= |lines|
    ensures (TextMessages(lines) + out)[..k] == TextMessages(lines[..k])
  {
    var sent := (TextMessages(lines) + out)[..k];
    var expected := TextMessages(lines[..k]);
    forall i | 0 <= i < k
      ensures sent[i] == expected[i]
    {
      assert sent[i] == TextMessages(lines)[i];
    }
    assert sent == expected;
  }

  /** When the send call numbered `k` fails inside a run of terminated lines,
      exactly the first `k` lines have been sent and the loop stops with a
      send error. */
  lemma SendFailureStopsRelay(lines: seq<string>, tail: string, end: StreamEnd, k: nat)
    requires forall i :: 0 <= i < |lines| ==> '\n' !in lines[i]
    requires k < |lines|
    ensures CutBySendFailure(Relay(Lines(lines) + tail, end), Some(k)) == Run(TextMessages(lines[..k]), Err(WriteError))
  {
    RelaysEachLine(lines, tail, end);
    TextMessagesPrefix(lines, Relay(tail, end).output, k);
  }

  /** Dropping every element leaves nothing. */
  lemma DropAll(s: string)
    ensures s[|s|..] == []
  {
  }

  /** A final chunk without a newline is not dropped at a clean end of stream:
      `pop` removes its last character whatever it is and the rest is sent,
      and the next, empty, read stops the loop with Ok. When the stream breaks
      instead, the chunk is lost with a read error. */
  lemma RelaysUnterminatedChunk(chunk: string)
    requires chunk != [] && '\n' !in chunk
    ensures Relay(chunk, Eof) == Run([Text(chunk[..|chunk| - 1])], Ok)
    ensures Relay(chunk, Failed) == Run([], Err(ReadError))
  {
    ReadLineStopsAtNewline(chunk, Eof);
    ReadLineStopsAtNewline(chunk, Failed);
    RelayStep(chunk, Eof, chunk);
    DropAll(chunk);
    RelayAtEnd(Eof);
    EmptySuffix([Text(chunk[..|chunk| - 1])]);
  }

  /** Unless a send fails, the loop ends with Ok at a clean end of stream and
      with a read error when the stream breaks. */
  lemma {:induction false} RelayOutcome(data: string, end: StreamEnd)
    ensures Relay(data, end).outcome == if end == Failed then Err(ReadError) else Ok
    decreases |data|
  {
    match ReadLine(data, end)
    case LineFailed =>
      ReadLineStopsAtNewline(data, end);
    case Line(line) =>
      if line != [] {
        RelayStep(data, end, line);
        RelayOutcome(data[|line|..], end);
      } else {
        ReadLineStopsAtNewline(data, end);
      }
  }
}
