# SSH client core: packet framing and connection state machine

This project models the two components of a minimal Rust SSH client skeleton.

- **Packet** (`ssh_packet.dfy`, from `src/ssh/ssh_packet.rs`). `SshPacket::new` builds a packet whose
  `packet_length` is four zero bytes and whose `padding_length` is 8. It keeps the payload string as
  given and fills the padding with 8 random bytes. `into_bytes` lays the fields out in the order of
  the Binary Packet Protocol (section 6 of RFC 4253): packet_length ‖ padding_length ‖ payload ‖
  random padding. The payload goes in as its UTF-8 bytes (`Utf8.Encode`, in `utf8.dfy`). A packet is
  a datatype value, because nothing changes its fields after `new`. `generate_random_padding` is
  an array loop, proved to put the generator's i-th draw at position i. `into_bytes` is a method
  that appends field after field, proved to return the spec function `SshPacket.Frame`. The partner of `Frame` is the reference decoder
  `Parse`, which splits a frame at offsets 4, 5 and 5 + L. The two are proved inverse in both
  directions.
- **Connection** (`ssh_connection.dfy`, from `src/ssh/ssh_connection.rs`). `SshConnection` is a
  class. It holds the endpoint fields (`hostname`, `tcpPort`, `user`) and `stream: Option<TcpStream>`.
  `None` means Disconnected and `Some` means Connected. `connect`, `write` and `disconnect` are
  methods that update `stream` in place. Each one is proved against a pure step function on the
  value `Session`. Lemmas about the step functions, and about `Run` (any sequence of calls), state
  the guards, the "nothing else changes" facts and what reaches the stream.

External effects are parameters:
- Opening a TCP stream succeeds exactly when the oracle `reachable` accepts the address.
- A stream is the address it was opened to plus the log of bytes handed to `write` on it.
- `rand::thread_rng` is `draw: nat -> byte`, where `draw(i)` is the i-th byte it yields.
- Console messages (`println!`) become outcome tags: `ConnectOutcome`, `WriteOutcome` and
  `DisconnectOutcome`.

## Model

| member | source | states |
|---|---|---|
| `Packet.SshPacket.New` | src/ssh/ssh_packet.rs:17-30 | `packet_length` is four zero bytes, not derived from payload or padding. `padding_length` is 8 for every payload. The payload is stored unchanged. The padding has exactly `padding_length` bytes, and position i holds the generator's i-th draw. |
| `Packet.SshPacket.GenerateRandomPadding` | src/ssh/ssh_packet.rs:46-55 | The buffer has exactly `padding_length` bytes, and every position is overwritten by the generator's draw for it. |
| `Packet.SshPacket.IntoBytes` | src/ssh/ssh_packet.rs:32-44 | The output is the packet's frame, packet_length ‖ padding_length ‖ payload bytes ‖ padding, so its length is 4 + 1 + \|payload bytes\| + \|padding\|. The packet is a value and is left as it was. |
| `Packet.FrameLayout` | src/ssh/ssh_packet.rs:35-38 | Bytes [0,4) are `packet_length`. Byte 4 is `padding_length`. Bytes [5, 5+L) are the payload's UTF-8 bytes. The tail is the random padding. |
| `Packet.Parse` | src/ssh/ssh_packet.rs:35-38 | Reference decoder for the layout. Whatever it accepts has exactly `padding_length` padding bytes. |
| `Packet.ParseFrame` | src/ssh/ssh_packet.rs:35-38 | Splitting a well-formed packet's frame at offsets 4, 5 and 5+L recovers every field (round trip). |
| `Packet.ParseSound` | src/ssh/ssh_packet.rs:35-38 | Every frame the decoder accepts is exactly the frame of the packet it returns (converse round trip). |
| `Packet.FrameInjective` | src/ssh/ssh_packet.rs:35-38 | Two well-formed packets have the same frame if and only if they are equal. |
| `Packet.CommandFrameLength` | src/ssh/ssh_packet.rs:17-38 | A packet from `new` serialises to 13 + \|payload bytes\| bytes. |
| `Packet.CommandFrameAlignment` | src/ssh/ssh_packet.rs:18 | Observation, not a promise: such a frame is a multiple of 8 long iff \|payload bytes\| ≡ 3 (mod 8). |
| `Utf8.EncodeChar` | src/ssh/ssh_packet.rs:37 | Each character takes 1 to 4 bytes, and only ASCII takes one. Every byte after the first is a continuation byte. |
| `Utf8.DecodeEncode` | src/ssh/ssh_packet.rs:37 | `as_bytes` loses nothing: decoding a string's bytes gives the string back. |
| `Utf8.EncodeDecode` | src/ssh/ssh_packet.rs:37 | The decoder accepts only bytes that are the encoding of the string it returns. |
| `Connection.Address` | src/ssh/ssh_connection.rs:31 | The target is `hostname`, then `:`, then `tcp_port`, with nothing else. |
| `Connection.SshConnection.constructor` | src/ssh/ssh_connection.rs:18-25 | `new` stores its three arguments verbatim and starts Disconnected. |
| `Connection.SshConnection.Default` | src/ssh/ssh_connection.rs:69-77 | `Default` gives hostname `127.0.0.1`, port `22`, user `user`, and starts Disconnected. |
| `Connection.SshConnection.Connect` | src/ssh/ssh_connection.rs:27-41 | While Connected, it reports AlreadyConnected and changes nothing. While Disconnected, it opens `hostname:tcp_port`. It becomes Connected, with a fresh stream to that address, iff the open succeeds, and otherwise stays Disconnected. The endpoint is unchanged. |
| `Connection.SshConnection.Write` | src/ssh/ssh_connection.rs:43-53 | While Disconnected, it reports NotConnected and changes nothing. While Connected, the stream's log grows by exactly `SshPacket::new(command).into_bytes()` and the stream stays the same one. |
| `Connection.SshConnection.Disconnect` | src/ssh/ssh_connection.rs:55-66 | Always ends Disconnected. It reports AlreadyDisconnected iff it was already Disconnected. The endpoint is unchanged. |
| `Connection.ConnectWhileConnected` | src/ssh/ssh_connection.rs:28-29 | `connect` on a Connected session is the identity. |
| `Connection.ConnectWhileDisconnected` | src/ssh/ssh_connection.rs:30-38 | From Disconnected, the result is Connected iff `hostname ++ ":" ++ tcp_port` is reachable. The new stream goes to that address with an empty log. The endpoint is unchanged. |
| `Connection.ConnectRetry` | src/ssh/ssh_connection.rs:30-38 | A failed `connect` leaves the session as it was, so a later `connect` to a reachable address succeeds. |
| `Connection.WriteWhileDisconnected` | src/ssh/ssh_connection.rs:44-51 | `write` on a Disconnected session changes nothing and opens or writes no stream. |
| `Connection.WriteWhileConnected` | src/ssh/ssh_connection.rs:45-47 | `write` on a Connected session keeps the log's old bytes as a prefix. It appends 13 + \|command bytes\| bytes, which decode to a packet whose payload is the command. |
| `Connection.StepWhileConnected` | src/ssh/ssh_connection.rs:27-53 | On a Connected session, `connect` and `write` keep the same stream. The log grows by exactly the bytes the call writes. |
| `Connection.DisconnectEndsDisconnected` | src/ssh/ssh_connection.rs:55-66 | `disconnect` always ends Disconnected with the endpoint unchanged. On a Disconnected session it is the identity. |
| `Connection.DisconnectIdempotent` | src/ssh/ssh_connection.rs:55-66 | Disconnecting twice equals disconnecting once. |
| `Connection.RunKeepsEndpoint` | src/ssh/ssh_connection.rs:27-66 | No sequence of `connect`, `write` and `disconnect` calls changes `hostname`, `tcp_port` or `user`. |
| `Connection.RunWithoutConnect` | src/ssh/ssh_connection.rs:27-66 | Without a `connect` call, a Disconnected connection stays exactly as it is, whatever else is called. No stream is opened or written. |
| `Connection.RunWhileConnected` | src/ssh/ssh_connection.rs:27-53 | While no `disconnect` intervenes, a Connected session keeps its stream. The stream receives exactly the frames of the `write` calls, in call order. Runs with more than one connected `write` happen only if the caller catches the `todo!()` panic (`catch_unwind`). |

## Left out

- Real TCP I/O (`TcpStream::connect`, `stream.write`) is replaced by the oracle `reachable` and a per-stream log. The code discards the whole `io::Result` of `stream.write` (src/ssh/ssh_connection.rs:47): a short count and an `Err` that sends nothing are both ignored. The log therefore holds the bytes handed to `write`, not the bytes that reached the peer, and no partial write, failure or retry is modelled.
- `Connection.SshConnection.Write`: the `todo!()` after the stream write panics. The model stops at handing over the bytes and reports `Unfinished`, keeping the state the panic leaves behind (stream kept, frame handed over). `Run` and the lemmas about it continue from that state, as if the caller had caught the panic with `catch_unwind`; without that, no call follows a connected `write`.
- Randomness (`rand::thread_rng`) is the parameter `draw`. Only the count of padding bytes and where each draw lands are stated. Nothing is said about their distribution.
- `println!` messages are reduced to outcome tags. Their text is not modelled.
- The unused `payload.len() as u8` in `new` (src/ssh/ssh_packet.rs:20) has no effect on any output and is left out.
- `into_bytes` returns `&final_packet[..]`, a slice borrowed from a local `Vec` (src/ssh/ssh_packet.rs:41-43), which Rust's borrow checker rejects (error E0515). `Packet.SshPacket.IntoBytes` returns the byte sequence as a value: it models what the code evidently intends, not code that compiles as written.
- The MAC field is commented out in the source (src/ssh/ssh_packet.rs:39) and is not produced.
- `hostname`, `tcp_port` and `user` are public fields in Rust, so outside code could assign them. The model covers only this module's operations, and none of them assigns these fields.
- src/errors.rs is not part of this model. It only holds a message and formats it with a fixed prefix.
- Not in the code, so not modelled: a computed `packet_length`, a random padding length, 8-byte alignment, the 16 and 35000 byte bounds, `read`, typed error results, and a `disconnect` that consumes the connection.
