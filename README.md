# Lobby bridge: the two translators

The bridge accepts a WebSocket client, opens a TCP connection to the lobby
server, and passes traffic between the two until one direction stops. This
project models the two translators that do that work in `src/main.rs`, and
the way `handle_connection` combines them.

- **Client to lobby (`read_from_websocket`)**:
  - It pulls decoded WebSocket messages from the client.
  - It writes each Text message to the lobby as the text followed by one newline.
  - It skips Binary, Ping, Pong and raw Frame messages.
  - It stops with `Ok` at the first Close or at the end of the client's stream.
  - It stops with an error when a read or a write fails.
- **Lobby to client (`read_from_lobby`)**:
  - It reads the lobby's character stream one line at a time.
  - It stops with `Ok` when a read returns nothing.
  - Otherwise it removes the last character of what it read and sends the rest to the client as one Text message.
  - It stops with an error when a read or a send fails.
- **`handle_connection`**: it runs both translators and reports the result of whichever one finishes first.

The environment is represented by parameters:

- **The client's message stream** is a `seq<Incoming>`.
  - Each item is a received message or a read error.
  - The end of the sequence is the end of the stream.
- **The lobby's stream** is its characters plus a `StreamEnd`.
  - `Eof` is a clean end of stream.
  - `Failed` means the stream breaks after those characters. A transport error and invalid UTF-8 both count as `Failed`.
- **A failing sink** is described by `FailAt`.
  - `Some(k)` means that write or send call number `k` (counting from 0) is the first one to fail.
  - `None` means that no call fails.

Each translator is a method with a loop. The method appends to an output buffer and returns that buffer with its outcome. It is proved equal to a pure function:

- `FromWebSocket.Forward` for the client-to-lobby direction;
- `FromLobby.Relay` and `FromLobby.CutBySendFailure` for the lobby-to-client direction.

The properties below are then proved about those functions.

**A final line without a newline is not dropped.**

- One might expect a final line without a newline to be dropped, and the comment at `src/main.rs:109` speaks only of trimming the newline.
- The code's `pop` removes the last character whatever it is. At a clean end of stream, a final chunk `"abc"` is therefore sent as `Text("ab")`, and the next, empty, read ends the loop with `Ok`.
- The model follows the code (`FromLobby.RelaysUnterminatedChunk`).

## Model

| member | source | states |
|---|---|---|
| FromWebSocket.ReadFromWebSocket | src/main.rs:71-93 | The loop writes exactly what `Forward` describes for its input stream and the writer's failure schedule, and returns the same outcome. |
| FromWebSocket.ForwardWritesFramedTexts | src/main.rs:76-92 | What is written is the Text payloads that come before the first Close or read error, each followed by one newline, in order. It ends with a read error exactly when a read error comes first, and with `Ok` otherwise. If write call `k` fails before that, exactly the first `k` framed payloads are written and the result is a write error. |
| FromWebSocket.NothingAfterClose | src/main.rs:85-86 | Nothing after the first Close affects what is written or the result. |
| FromWebSocket.OtherKindsIgnored | src/main.rs:87-89 | A Binary, Ping, Pong or raw Frame message writes nothing and does not stop the loop. The run is the same as without it. |
| FromLobby.ReadLineStopsAtNewline | src/main.rs:104 | `read_line` fails exactly when the stream breaks with no newline left. A successful read is a prefix of the unread characters. It ends at the first newline (included) when there is one, and otherwise takes everything that is left. |
| FromLobby.ReadsTerminatedLine | src/main.rs:104 | A line ended by a newline is read whole, with the newline, whatever follows it. |
| FromLobby.RelayAtEnd | src/main.rs:104-108 | With nothing left to read, nothing is sent. The loop ends with `Ok` at a clean end of stream and with a read error when the stream breaks. |
| FromLobby.ReadFromLobby | src/main.rs:96-117 | The loop sends exactly the messages `Relay` describes, cut at the first failing send, and returns the matching outcome. When send call `k` fails, the first `k` messages have been sent and the result is a send error. |
| FromLobby.RelaysEachLine | src/main.rs:103-113 | Each newline-terminated line is sent as exactly one Text message holding the line without its newline, in order. The loop then continues with what follows the lines. |
| FromLobby.BareNewlineSendsEmptyText | src/main.rs:106-113 | A line made of only a newline is sent as an empty Text message and does not stop the loop. |
| FromLobby.SendFailureStopsRelay | src/main.rs:113 | If send call `k` fails within a run of terminated lines, exactly the first `k` lines have been sent and the result is a send error. |
| FromLobby.RelaysUnterminatedChunk | src/main.rs:104-110 | At a clean end of stream, a final chunk without a newline is sent with its last character removed, and the loop ends with `Ok`. When the stream breaks instead, the chunk is not sent and the result is a read error. |
| FromLobby.RelayOutcome | src/main.rs:104-116 | With no failing send, the loop ends with `Ok` exactly at a clean end of stream and with a read error exactly when the stream breaks. |
| Bridge.HandleConnection | src/main.rs:57-68 | The connection's result is the result of the translator that finishes first. |
| Bridge.SessionFailsExactlyWhenWinnerFails | src/main.rs:62-67 | The connection reports an error exactly when the translator that finishes first fails. The client side fails on a read error before any Close, or a failing write before every forwarded text is written. The lobby side fails when its stream breaks, or on a failing send before every line is sent. |
| Bridge.RoundTrip | src/main.rs:76-113 | Suppose the lobby echoes every line. The client then gets back exactly the newline-free Text messages it sent before its Close, in order, and the echo ends with `Ok`. |
| Bridge.RoundTripOne | src/main.rs:76-113 | A single Text `t` without a newline, written to the lobby and read back, is sent as exactly one `Text(t)`. |
| Bridge.ForwardsDeliveredLines | src/main.rs:79-84 | Text messages carrying the given lines make the client-to-lobby translator write exactly those lines, each followed by a newline, and end with `Ok`. |
| Bridge.LinesRoundTrip | src/main.rs:76-113 | Suppose the client echoes every message. Newline-terminated lobby lines sent to the client then reach the lobby as the same characters. |

## Left out

- `main` and `accept_connection` (`src/main.rs:15-54`) are left out: TCP listening, the WebSocket handshake and the lobby connection are network set-up.
- `Bridge.HandleConnection` does not model the `select!` scheduling or the cancellation of the losing translator. The winning side is a parameter, and the output the losing side has produced is not modelled.
- Logging (`debug!` and `info!`) is left out because it has no effect on the data.
- `BufReader` chunking and UTF-8 decoding are not modelled. The lobby stream is a whole sequence of characters, and a read error or invalid UTF-8 is an opaque failure after the characters that could be read.
- WebSocket frame parsing is done by the WebSocket library and is not modelled. Messages arrive already decoded as `Text`, `Binary`, `Ping`, `Pong`, `Close` or `Frame`.
- `src/config.rs` (the environment-variable settings) is not part of this model. Its `get_env` reads `LOBBY_PORT` whatever key it is asked for (`src/config.rs:25`).
- `FromWebSocket.ReadFromWebSocket`: a failing `write_all` is modelled as writing nothing of that message. A partial write before the failure is not modelled.
- Byte-level encoding is not modelled: texts are character sequences, and what the lobby receives is compared as characters.
