/** The values that cross the bridge: WebSocket messages as the client
    library hands them over already decoded, the results of the two
    translator loops, and the newline framing of the lobby's line protocol. */
module Wire {

  datatype Option<T> = None | Some(value: T)

  type Bytes = seq<bv8>

  /** Status code and reason carried by a Close message (section 5.5.1 of RFC 6455). */
  datatype CloseFrame = CloseFrame(code: bv16, reason: string)

  /** One decoded WebSocket message: the data kinds of section 5.6 of RFC 6455,
      the control kinds Ping, Pong and Close, and a raw frame. */
  datatype Message =
    | Text(text: string)
    | Binary(data: Bytes)
    | Ping(data: Bytes)
    | Pong(data: Bytes)
    | Close(frame: Option<CloseFrame>)
    | Frame(raw: Bytes)

  /** One item pulled from the client's message stream: a message, or the
      read error (transport or protocol decode failure) the stream yields instead. */
  datatype Incoming = Received(msg: Message) | ReadFailed

  /** How the backend byte stream ends once its available characters are consumed:
      a clean end of stream, or a read error (transport failure or invalid UTF-8). */
  datatype StreamEnd = Eof | Failed

  datatype Error = ReadError | WriteError

  /** The `WsResult<()>` a translator returns. */
  datatype Outcome = Ok | Err(error: Error)

  /** What a translator produced on its sink, and how it stopped. */
  datatype Run<T> = Run(output: T, outcome: Outcome)

  /** A sink's failure schedule: `Some(k)` means the write call numbered `k`
      (counting from 0) fails and every earlier one succeeds; `None` means no
      write call fails. `Spent` is the schedule that remains after one call succeeded. */
  type FailAt = Option<nat>

  function Spent(f: FailAt): FailAt
    requires f != Some(0)
  {
    match f
    case None => None
    case Some(k) => Some(k - 1)
  }

  /** The lobby wire format: every unit followed by one newline. */
  function Lines(units: seq<string>): string
  {
    if units == [] then "" else units[0] + "\n" + Lines(units[1..])
  }

  /** Text messages carrying the given payloads, in order. */
  function TextMessages(payloads: seq<string>): (ms: seq<Message>)
    ensures |ms| == |payloads|
    ensures forall i :: 0 <= i < |ms| ==> ms[i] == Text(payloads[i])
  {
    if payloads == [] then [] else [Text(payloads[0])] + TextMessages(payloads[1..])
  }
}
