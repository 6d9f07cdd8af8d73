/** `handle_connection`: the two translators run side by side on the split
    client and lobby connections, and the connection's result is the result
    of whichever translator finishes first; the other one is abandoned. */
module Bridge {
  import opened Wire
  import opened FromWebSocket
  import opened FromLobby

  /** The translator that finishes first. */
  datatype Side = WebSocket | Lobby

  /** The result of the connection when `first` finishes first, given each
      translator's input and its sink's failure schedule. */
  function SessionOutcome(first: Side, reader: seq<Incoming>, failWrite: FailAt,
                          data: string, end: StreamEnd, failSend: FailAt): Outcome
  {
    match first
    case WebSocket => Forward(reader, failWrite).outcome
    case Lobby => CutBySendFailure(Relay(data, end), failSend).outcome
  }

  /** `handle_connection` with the race decided by `first`: only the winning
      translator's result is reported. */
  method HandleConnection(first: Side, reader: seq<Incoming>, failWrite: FailAt,
                          data: string, end: StreamEnd, failSend: FailAt) returns (r: Outcome)
    ensures r == SessionOutcome(first, reader, failWrite, data, end, failSend)
  {
    if first == WebSocket {
      var written, outcome := ReadFromWebSocket(reader, failWrite);
      r := outcome;
    } else {
      var sent, outcome := ReadFromLobby(data, end, failSend);
      r := outcome;
    }
  }

  /** The client-to-lobby translator fails: the client's stream breaks before
      any Close, or a lobby write fails before every forwarded text is written. */
  predicate WebSocketSideFails(reader: seq<Incoming>, failWrite: FailAt)
  {
    EndsInReadError(reader) || (failWrite.Some? && failWrite.value < |Forwarded(reader)|)
  }

  /** The lobby-to-client translator fails: the lobby stream breaks, or a send
      fails before every line is sent. */
  predicate LobbySideFails(data: string, end: StreamEnd, failSend: FailAt)
  {
    end == Failed || (failSend.Some? && failSend.value < |Relay(data, end).output|)
  }

  /** The connection reports an error exactly when the translator that
      finishes first fails; otherwise it ends cleanly. */
  lemma SessionFailsExactlyWhenWinnerFails(first: Side, reader: seq<Incoming>, failWrite: FailAt,
                                           data: string, end: StreamEnd, failSend: FailAt)
    ensures SessionOutcome(first, reader, failWrite, data, end, failSend).Err?
        <==> (if first == WebSocket then WebSocketSideFails(reader, failWrite)
              else LobbySideFails(data, end, failSend))
  {
    ForwardWritesFramedTexts(reader, failWrite);
    RelayOutcome(data, end);
  }

  /** The Incoming stream a client produces by sending the given messages. */
  function Deliver(ms: seq<Message>): (items: seq<Incoming>)
    ensures |items| == |ms|
    ensures forall i :: 0 <= i < |ms| ==> items[i] == Received(ms[i])
  {
    if ms == [] then [] else [Received(ms[0])] + Deliver(ms[1..])
  }

  /** Client texts without newlines survive the trip to the lobby and back:
      if the lobby echoed every line it received and then closed cleanly, the
      client would get back exactly the Text messages it sent before its
      Close, in order. */
  lemma RoundTrip(reader: seq<Incoming>)
    requires forall i :: 0 <= i < |Forwarded(reader)| ==> '\n' !in Forwarded(reader)[i]
    ensures Relay(Forward(reader, None).output, Eof) == Run(TextMessages(Forwarded(reader)), Ok)
  {
    var texts := Forwarded(reader);
    ForwardWritesFramedTexts(reader, None);
    EmptySuffix(Lines(texts));
    RelaysEachLine(texts, "", Eof);
    RelayAtEnd(Eof);
    EmptySuffix(TextMessages(texts));
  }

  /** The single-message case: one Text `t` without a newline comes back as `Text(t)`. */
  lemma RoundTripOne(t: string)
    requires '\n' !in t
    ensures Relay(Forward([Received(Text(t))], None).output, Eof) == Run([Text(t)], Ok)
  {
    var reader := [Received(Text(t))];
    assert reader[1..] == [];
    assert !Stops(reader[0]);
    assert StopIndex(reader[1..]) == 0;
    assert StopIndex(reader) == 1;
    assert reader[..1] == reader;
    assert TextsOf(reader) == [t] + TextsOf(reader[1..]);
    assert Forwarded(reader) == [t];
    RoundTrip(reader);
    assert TextMessages([t]) == [Text(t)];
  }

  /** Delivering Text messages for some lines starts with the first line's message. */
  lemma DeliverHead(lines: seq<string>)
    requires lines != []
    ensures Deliver(TextMessages(lines))[0] == Received(Text(lines[0]))
    ensures Deliver(TextMessages(lines))[1..] == Deliver(TextMessages(lines[1..]))
  {
    assert TextMessages(lines)[1..] == TextMessages(lines[1..]);
  }


  /** Lines the client forwards are written back to the lobby unchanged: the
      Text messages a client sends for newline-free lines make the
      client-to-lobby translator write exactly those lines, framed. */
  lemma {:induction false} ForwardsDeliveredLines(lines: seq<string>)
    ensures Forward(Deliver(TextMessages(lines)), None) == Run(Lines(lines), Ok)
  {
    if lines != [] {
      DeliverHead(lines);
      ForwardsDeliveredLines(lines[1..]);
    }
  }

  /** The opposite round trip: newline-terminated lobby lines sent to the
      client and echoed back by it reach the lobby as the same bytes. */
  lemma LinesRoundTrip(lines: seq<string>)
    requires forall i :: 0 <= i < |lines| ==> '\n' !in lines[i]
    ensures Forward(Deliver(Relay(Lines(lines), Eof).output), None) == Run(Lines(lines), Ok)
  {
    EmptySuffix(Lines(lines));
    RelaysEachLine(lines, "", Eof);
    RelayAtEnd(Eof);
    EmptySuffix(TextMessages(lines));
    ForwardsDeliveredLines(lines);
  }
}
