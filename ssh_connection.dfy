/** The client connection: endpoint metadata that never changes and an optional
    TCP stream whose presence is the connection state (Connected when present,
    Disconnected when absent). The network is abstracted: opening a stream is decided
    by an oracle `reachable` on the target address, and a stream records the address it
    was opened to and every byte written to it. Console messages become outcome tags. */
module Connection {
  import opened Bytes
  import opened Wrappers
  import Packet
  import Utf8

  /** An open TCP stream: the address it was opened to and the bytes written to it. */
  datatype TcpStream = TcpStream(peer: string, sent: seq<byte>)

  /** The whole state of a connection, as a value. */
  datatype Session = Session(hostname: string, tcpPort: string, user: string, stream: Option<TcpStream>)
  {
    predicate IsConnected() { stream.Some? }

    /** The endpoint metadata, which no operation changes. */
    function Endpoint(): (string, string, string) { (hostname, tcpPort, user) }
  }

  /** What `connect`, `write` and `disconnect` report on the console. */
  datatype ConnectOutcome = AlreadyConnected | Opened | ConnectFailed
  /** `Unfinished`: the frame was handed to the stream and `todo!()` follows. */
  datatype WriteOutcome = Unfinished | NotConnected
  datatype DisconnectOutcome = Closed | AlreadyDisconnected

  /** The session `Default::default()` builds. */
  const DEFAULT_SESSION := Session("127.0.0.1", "22", "user", None)

  /** The address `connect` opens: `format!("{0}:{1}", hostname, tcp_port)`. */
  function Address(hostname: string, tcpPort: string): (a: string)
    ensures |a| == |hostname| + 1 + |tcpPort|
    ensures a[..|hostname|] == hostname && a[|hostname|] == ':' && a[|hostname| + 1..] == tcpPort
  {
    hostname + ":" + tcpPort
  }

  function ConnectStep(s: Session, reachable: string -> bool): Session {
    match s.stream
    case Some(_) => s
    case None =>
      var host := Address(s.hostname, s.tcpPort);
      if reachable(host) then s.(stream := Some(TcpStream(host, []))) else s
  }

  function WriteStep(s: Session, command: string, draw: nat -> byte): Session {
    match s.stream
    case Some(t) => s.(stream := Some(t.(sent := t.sent + Packet.CommandFrame(command, draw))))
    case None => s
  }

  function DisconnectStep(s: Session): Session {
    match s.stream
    case Some(_) => s.(stream := None)
    case None => s
  }

  /** A call a client makes, with the oracle or random draws it sees. */
  datatype Call =
    | Connect(reachable: string -> bool)
    | Write(command: string, draw: nat -> byte)
    | Disconnect

  function Step(s: Session, c: Call): Session {
    match c
    case Connect(reachable) => ConnectStep(s, reachable)
    case Write(command, draw) => WriteStep(s, command, draw)
    case Disconnect => DisconnectStep(s)
  }

  /** The session after making `calls` in order. */
  function Run(s: Session, calls: seq<Call>): Session
    decreases |calls|
  {
    if calls == [] then s else Run(Step(s, calls[0]), calls[1..])
  }

  class SshConnection {
    var hostname: string
    var tcpPort: string
    var user: string
    var stream: Option<TcpStream>

    ghost function State(): Session
      reads this
    {
      Session(hostname, tcpPort, user, stream)
    }

    /** `SshConnection::new`: the three arguments verbatim, the rest from `Default`. */
    constructor (hostname: string, tcpPort: string, user: string)
      ensures State() == Session(hostname, tcpPort, user, None)
    {
      this.hostname := hostname;
      this.tcpPort := tcpPort;
      this.user := user;
      this.stream := DEFAULT_SESSION.stream;
    }

    /** `Default::default`: local host, port 22, user "user", disconnected. */
    constructor Default()
      ensures State() == Session("127.0.0.1", "22", "user", None)
    {
      hostname := DEFAULT_SESSION.hostname;
      tcpPort := DEFAULT_SESSION.tcpPort;
      user := DEFAULT_SESSION.user;
      stream := DEFAULT_SESSION.stream;
    }

    /** `connect`: nothing if already connected; otherwise opens `hostname:tcp_port`
        and keeps the stream only if that succeeded. */
    method Connect(reachable: string -> bool) returns (outcome: ConnectOutcome)
      modifies this
      ensures State() == ConnectStep(old(State()), reachable)
      ensures outcome == AlreadyConnected <==> old(stream).Some?
      ensures outcome == Opened <==> old(stream).None? && reachable(Address(hostname, tcpPort))
      ensures outcome == Opened ==> stream == Some(TcpStream(Address(hostname, tcpPort), []))
      ensures outcome != Opened ==> stream == old(stream)
    {
      match stream
      case Some(_) =>
        outcome := AlreadyConnected;
      case None =>
        var host := Address(hostname, tcpPort);
        if reachable(host) {
          stream := Some(TcpStream(host, []));
          outcome := Opened;
        } else {
          outcome := ConnectFailed;
        }
    }

    /** `write`: nothing if disconnected; otherwise builds the packet for `command`
        and hands its bytes to the stream (after which the source reaches `todo!()`). */
    method Write(command: string, draw: nat -> byte) returns (outcome: WriteOutcome)
      modifies this
      ensures State() == WriteStep(old(State()), command, draw)
      ensures outcome == NotConnected <==> old(stream).None?
      ensures old(stream).None? ==> stream == old(stream)
      ensures old(stream).Some? ==>
        && stream.Some?
        && stream.value.peer == old(stream).value.peer
        && stream.value.sent == old(stream).value.sent + Packet.CommandFrame(command, draw)
    {
      match stream
      case Some(t) =>
        var sshPacket := Packet.SshPacket.New(command, draw);
        var bytes := sshPacket.IntoBytes();
        assert sshPacket.randomPadding == Packet.RandomBytes(draw, Packet.PADDING_LENGTH as nat);
        stream := Some(t.(sent := t.sent + bytes));
        outcome := Unfinished;
      case None =>
        outcome := NotConnected;
    }

    /** `disconnect`: drops the stream if there is one. */
    method Disconnect() returns (outcome: DisconnectOutcome)
      modifies this
      ensures State() == DisconnectStep(old(State()))
      ensures stream.None?
      ensures outcome == AlreadyDisconnected <==> old(stream).None?
      ensures hostname == old(hostname) && tcpPort == old(tcpPort) && user == old(user)
    {
      match stream
      case Some(_) =>
        stream := None;
        outcome := Closed;
      case None =>
        outcome := AlreadyDisconnected;
    }
  }

  /** `connect` while connected changes nothing. */
  lemma ConnectWhileConnected(s: Session, reachable: string -> bool)
    requires s.IsConnected()
    ensures ConnectStep(s, reachable) == s
  {
  }

  /** `connect` while disconnected ends connected exactly when the address
      `hostname:tcp_port` is reachable, with a fresh stream to that address;
      otherwise it stays disconnected. */
  lemma ConnectWhileDisconnected(s: Session, reachable: string -> bool)
    requires !s.IsConnected()
    ensures var t := ConnectStep(s, reachable);
      && (t.IsConnected() <==> reachable(s.hostname + ":" + s.tcpPort))
      && (t.IsConnected() ==> t.stream.value == TcpStream(s.hostname + ":" + s.tcpPort, []))
      && t.Endpoint() == s.Endpoint()
  {
  }

  /** A failed attempt leaves the connection usable: a later attempt against a
      reachable address succeeds. */
  lemma ConnectRetry(s: Session, down: string -> bool, up: string -> bool)
    requires !s.IsConnected()
    requires !down(Address(s.hostname, s.tcpPort)) && up(Address(s.hostname, s.tcpPort))
    ensures ConnectStep(s, down) == s
    ensures ConnectStep(ConnectStep(s, down), up).IsConnected()
  {
  }

  /** `write` while disconnected changes nothing and touches no stream. */
  lemma WriteWhileDisconnected(s: Session, command: string, draw: nat -> byte)
    requires !s.IsConnected()
    ensures WriteStep(s, command, draw) == s
  {
  }

  /** `write` while connected appends exactly one command frame to the stream:
      13 bytes more than the command's UTF-8 bytes, whose payload region decodes
      back to the command. */
  lemma WriteWhileConnected(s: Session, command: string, draw: nat -> byte)
    requires s.IsConnected()
    ensures var t := WriteStep(s, command, draw);
      && t.IsConnected()
      && t.Endpoint() == s.Endpoint()
      && t.stream.value.peer == s.stream.value.peer
      && |t.stream.value.sent| == |s.stream.value.sent| + 13 + |Utf8.Encode(command)|
      && t.stream.value.sent[..|s.stream.value.sent|] == s.stream.value.sent
      && Packet.Parse(t.stream.value.sent[|s.stream.value.sent|..]).Some?
      && Packet.Parse(t.stream.value.sent[|s.stream.value.sent|..]).value.payload == command
  {
    var p := Packet.SshPacket(Packet.ZERO_LENGTH, Packet.PADDING_LENGTH, command,
                              Packet.RandomBytes(draw, Packet.PADDING_LENGTH as nat));
    var sent := WriteStep(s, command, draw).stream.value.sent;
    assert sent[|s.stream.value.sent|..] == p.Frame();
    Packet.ParseFrame(p);
  }

  /** `disconnect` ends disconnected with the endpoint unchanged. */
  lemma DisconnectEndsDisconnected(s: Session)
    ensures !DisconnectStep(s).IsConnected()
    ensures DisconnectStep(s).Endpoint() == s.Endpoint()
    ensures !s.IsConnected() ==> DisconnectStep(s) == s
  {
  }

  /** Disconnecting twice is the same as disconnecting once. */
  lemma DisconnectIdempotent(s: Session)
    ensures DisconnectStep(DisconnectStep(s)) == DisconnectStep(s)
  {
  }

  /** No sequence of calls changes hostname, port or user. */
  lemma {:induction false} RunKeepsEndpoint(s: Session, calls: seq<Call>)
    ensures Run(s, calls).Endpoint() == s.Endpoint()
    decreases |calls|
  {
    if calls != [] {
      RunKeepsEndpoint(Step(s, calls[0]), calls[1..]);
    }
  }

  /** Without a `connect` call, a disconnected connection stays disconnected
      whatever else is called: no stream is ever opened or written. */
  lemma {:induction false} RunWithoutConnect(s: Session, calls: seq<Call>)
    requires !s.IsConnected()
    requires forall i :: 0 <= i < |calls| ==> !calls[i].Connect?
    ensures Run(s, calls) == s
    decreases |calls|
  {
    if calls != [] {
      RunWithoutConnect(Step(s, calls[0]), calls[1..]);
    }
  }

  /** The bytes one call writes to an open stream. */
  function Written(c: Call): seq<byte> {
    match c
    case Write(command, draw) => Packet.CommandFrame(command, draw)
    case _ => []
  }

  /** The bytes the `write` calls among `calls` produce, in order. */
  function WrittenFrames(calls: seq<Call>): seq<byte>
    decreases |calls|
  {
    if calls == [] then [] else Written(calls[0]) + WrittenFrames(calls[1..])
  }

  lemma StepWhileConnected(s: Session, c: Call)
    requires s.IsConnected() && !c.Disconnect?
    ensures Step(s, c).IsConnected()
    ensures Step(s, c).stream.value.peer == s.stream.value.peer
    ensures Step(s, c).stream.value.sent == s.stream.value.sent + Written(c)
  {
  }

  /** Associativity on plain byte sequences; stated apart so that the proof below does
      not reason about it over unfolded command frames, which is far more costly. */
  lemma ConcatAssoc(a: seq<byte>, b: seq<byte>, c: seq<byte>)
    ensures a + b + c == a + (b + c)
  {
  }

  /** While no `disconnect` intervenes, a connected session keeps its stream, and that
      stream receives exactly the frames of the `write` calls, in call order. */
  lemma {:induction false} RunWhileConnected(s: Session, calls: seq<Call>)
    requires s.IsConnected()
    requires forall i :: 0 <= i < |calls| ==> !calls[i].Disconnect?
    ensures Run(s, calls).IsConnected()
    ensures Run(s, calls).stream.value.peer == s.stream.value.peer
    ensures Run(s, calls).stream.value.sent == s.stream.value.sent + WrittenFrames(calls)
    decreases |calls|
  {
    if calls != [] {
      var c, rest := calls[0], calls[1..];
      var t := Step(s, c);
      StepWhileConnected(s, c);
      assert forall i :: 0 <= i < |rest| ==> rest[i] == calls[i + 1];
      RunWhileConnected(t, rest);
      var before, frames := s.stream.value.sent, WrittenFrames(rest);
      assert WrittenFrames(calls) == Written(c) + frames;
      ConcatAssoc(before, Written(c), frames);
    }
  }
}
