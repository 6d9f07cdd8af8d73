/** The WebSocket-to-lobby translator (`read_from_websocket`): every Text
    message goes to the lobby as its text plus a newline, Close or the end of
    the message stream stops it cleanly, every other kind is skipped, and a
    read or write error aborts it. */
module FromWebSocket {
  import opened Wire

  /** The items that end the loop: a Close message, or a read error. */
  predicate Stops(item: Incoming)
  {
    item.ReadFailed? || item.msg.Close?
  }

  /** The translator as a function of its input stream and the lobby writer's
      failure schedule: what it writes, and how it stops. */
  function Forward(reader: seq<Incoming>, failWrite: FailAt): Run<string>
    decreases |reader|
  {
    if reader == [] then Run("", Ok)
    else match reader[0]
      case ReadFailed => Run("", Err(ReadError))
      case Received(m) =>
        if m.Text? then
          if failWrite == Some(0) then Run("", Err(WriteError))
          else
            var rest := Forward(reader[1..], Spent(failWrite));
            Run(m.text + "\n" + rest.output, rest.outcome)
        else if m.Close? then Run("", Ok)
        else Forward(reader[1..], failWrite)
  }

  /** `read_from_websocket` as a loop over the incoming stream that appends
      each framed text to the lobby writer's buffer. */
  method ReadFromWebSocket(reader: seq<Incoming>, failWrite: FailAt) returns (written: string, r: Outcome)
    ensures Run(written, r) == Forward(reader, failWrite)
  {
    written := "";
    var pending := failWrite;
    var i := 0;
    assert reader[i..] == reader;
    assert written + Forward(reader, failWrite).output == Forward(reader, failWrite).output;
    while i < |reader|
      invariant 0 <= i <= |reader|
      invariant Forward(reader, failWrite)
             == Run(written + Forward(reader[i..], pending).output, Forward(reader[i..], pending).outcome)
    {
      assert reader[i..][1..] == reader[i + 1..];
      match reader[i]
      case ReadFailed =>
        assert written + "" == written;
        return written, Err(ReadError);
      case Received(msg) =>
        if msg.Text? {
          var msgText := msg.text;
          msgText := msgText + "\n";
          if pending == Some(0) {
            assert written + "" == written;
            return written, Err(WriteError);
          }
          ghost var rest := Forward(reader[i + 1..], Spent(pending));
          assert written + (msg.text + "\n" + rest.output) == (written + msgText) + rest.output;
          written := written + msgText;
          pending := Spent(pending);
        } else if msg.Close? {
          assert written + "" == written;
          return written, Ok;
        }
      i := i + 1;
    }
    assert written + "" == written;
    r := Ok;
  }

  /** Index of the first Close or read error, or the stream's length when there is none. */
  function StopIndex(reader: seq<Incoming>): (n: nat)
    ensures n <= |reader|
    ensures forall i :: 0 <= i < n ==> !Stops(reader[i])
    ensures n < |reader| ==> Stops(reader[n])
  {
    if reader == [] || Stops(reader[0]) then 0 else 1 + StopIndex(reader[1..])
  }

  /** The payloads of the Text messages among the given items, in order. */
  function TextsOf(items: seq<Incoming>): seq<string>
  {
    if items == [] then []
    else (if items[0].Received? && items[0].msg.Text? then [items[0].msg.text] else []) + TextsOf(items[1..])
  }

  /** The Text payloads that arrive before the loop's stopping item. */
  function Forwarded(reader: seq<Incoming>): seq<string>
  {
    TextsOf(reader[..StopIndex(reader)])
  }

  /** Whether the loop is stopped by a read error rather than by Close or end of stream. */
  predicate EndsInReadError(reader: seq<Incoming>)
  {
    StopIndex(reader) < |reader| && reader[StopIndex(reader)].ReadFailed?
  }

  /** The translator writes exactly the framed payloads of the Text messages
      before the first Close or read error, in order; a failing write call
      stops it after the payloads written before that call. It returns Ok
      exactly when it stops at Close or at the end of the stream. */
  lemma {:induction false} ForwardWritesFramedTexts(reader: seq<Incoming>, failWrite: FailAt)
    ensures var texts := Forwarded(reader);
      if failWrite.Some? && failWrite.value < |texts| then
        Forward(reader, failWrite) == Run(Lines(texts[..failWrite.value]), Err(WriteError))
      else
        Forward(reader, failWrite) == Run(Lines(texts), if EndsInReadError(reader) then Err(ReadError) else Ok)
  {
    if reader != [] && !Stops(reader[0]) {
      var tail := reader[1..];
      ForwardWritesFramedTexts(tail, failWrite);
      var n := StopIndex(reader);
      assert n == 1 + StopIndex(tail);
      assert reader[..n][1..] == tail[..n - 1];
      assert reader[..n][0] == reader[0];
      assert EndsInReadError(reader) == EndsInReadError(tail);
      var m := reader[0].msg;
      if m.Text? {
        assert Forwarded(reader) == [m.text] + Forwarded(tail);
        if failWrite != Some(0) {
          ForwardWritesFramedTexts(tail, Spent(failWrite));
          if failWrite.Some? && failWrite.value < |Forwarded(reader)| {
            var k := failWrite.value;
            assert Forwarded(reader)[..k] == [m.text] + Forwarded(tail)[..k - 1];
          }
        } else {
          assert Forwarded(reader)[..0] == [];
        }
      } else {
        assert Forwarded(reader) == Forwarded(tail);
      }
    } else {
      assert reader[..StopIndex(reader)] == [];
    }
  }

  /** Nothing after the first Close is read or written. */
  lemma {:induction false} NothingAfterClose(before: seq<Incoming>, frame: Option<CloseFrame>, after: seq<Incoming>, failWrite: FailAt)
    ensures Forward(before + [Received(Close(frame))] + after, failWrite)
         == Forward(before + [Received(Close(frame))], failWrite)
  {
    var close := Received(Close(frame));
    if before == [] {
      assert (before + [close] + after)[0] == close;
      assert (before + [close])[0] == close;
    } else {
      assert (before + [close] + after)[0] == before[0];
      assert (before + [close])[0] == before[0];
      assert (before + [close] + after)[1..] == before[1..] + [close] + after;
      assert (before + [close])[1..] == before[1..] + [close];
      if before[0].Received? && before[0].msg.Text? && failWrite != Some(0) {
        NothingAfterClose(before[1..], frame, after, Spent(failWrite));
      } else if before[0].Received? && !before[0].msg.Text? && !before[0].msg.Close? {
        NothingAfterClose(before[1..], frame, after, failWrite);
      }
    }
  }

  /** A Binary, Ping, Pong or raw Frame message writes nothing and does not
      stop the loop: the run is the same as if it had never arrived. */
  lemma {:induction false} OtherKindsIgnored(before: seq<Incoming>, m: Message, after: seq<Incoming>, failWrite: FailAt)
    requires !m.Text? && !m.Close?
    ensures Forward(before + [Received(m)] + after, failWrite) == Forward(before + after, failWrite)
  {
    var skipped := Received(m);
    if before == [] {
      assert (before + [skipped] + after)[0] == skipped;
      assert (before + [skipped] + after)[1..] == after;
      assert before + after == after;
    } else {
      assert (before + [skipped] + after)[0] == before[0];
      assert (before + after)[0] == before[0];
      assert (before + [skipped] + after)[1..] == before[1..] + [skipped] + after;
      assert (before + after)[1..] == before[1..] + after;
      if before[0].Received? && before[0].msg.Text? && failWrite != Some(0) {
        OtherKindsIgnored(before[1..], m, after, Spent(failWrite));
      } else if before[0].Received? && !before[0].msg.Text? && !before[0].msg.Close? {
        OtherKindsIgnored(before[1..], m, after, failWrite);
      }
    }
  }
}
