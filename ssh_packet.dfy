/** One outbound SSH packet and its serialisation in the field order of the
    Binary Packet Protocol (section 6 of RFC 4253):
    packet_length (4 bytes) ‖ padding_length (1 byte) ‖ payload ‖ random padding.
    The MAC field is not produced. */
module Packet {
  import opened Bytes
  import opened Wrappers
  import Utf8

  /** Rust's `[u8; 4]`. */
  type Word = s: seq<byte> | |s| == 4 witness [0, 0, 0, 0]

  /** The padding length every packet is built with. */
  const PADDING_LENGTH: byte := 8

  /** The `packet_length` field every packet is built with: four zero bytes,
      whatever the payload and padding. */
  const ZERO_LENGTH: Word := [0, 0, 0, 0]

  /** The first `n` bytes a random generator yields when its i-th draw is `draw(i)`. */
  function RandomBytes(draw: nat -> byte, n: nat): seq<byte> {
    seq(n, i requires 0 <= i => draw(i))
  }

  datatype SshPacket = SshPacket(
    packetLength: Word,
    paddingLength: byte,
    payload: string,
    randomPadding: seq<byte>)
  {
    /** The padding vector holds exactly `padding_length` bytes. */
    predicate WellFormed() {
      |randomPadding| == paddingLength as int
    }

    /** The bytes of the frame, field after field. */
    function Frame(): seq<byte> {
      packetLength + [paddingLength] + Utf8.Encode(payload) + randomPadding
    }

    /** `SshPacket::new`: packet length left at zero, padding length 8, the payload
        kept as given and eight bytes from the random generator `draw`. */
    static method New(payload: string, draw: nat -> byte) returns (p: SshPacket)
      ensures p.packetLength == ZERO_LENGTH
      ensures p.paddingLength == PADDING_LENGTH
      ensures p.payload == payload
      ensures p.WellFormed()
      ensures forall i :: 0 <= i < |p.randomPadding| ==> p.randomPadding[i] == draw(i)
    {
      var paddingLength := PADDING_LENGTH;
      var randomPadding := GenerateRandomPadding(paddingLength, draw);
      var packetLength := ZERO_LENGTH;
      p := SshPacket(packetLength, paddingLength, payload, randomPadding);
    }

    /** `generate_random_padding`: a zeroed buffer of `padding_length` bytes,
        then each position overwritten by the next draw of the generator. */
    static method GenerateRandomPadding(paddingLength: byte, draw: nat -> byte) returns (padding: seq<byte>)
      ensures |padding| == paddingLength as int
      ensures forall i :: 0 <= i < |padding| ==> padding[i] == draw(i)
    {
      var a := new byte[paddingLength as int](_ => 0);
      for i := 0 to a.Length
        invariant forall j :: 0 <= j < i ==> a[j] == draw(j)
      {
        a[i] := draw(i);
      }
      padding := a[..];
    }

    /** `into_bytes`: appends the fields to an empty buffer in frame order.
        The packet is a value, so its fields are the same afterwards. */
    method IntoBytes() returns (bytes: seq<byte>)
      ensures bytes == Frame()
      ensures |bytes| == 5 + |Utf8.Encode(payload)| + |randomPadding|
    {
      var finalPacket: seq<byte> := [];
      finalPacket := finalPacket + packetLength;
      finalPacket := finalPacket + [paddingLength];
      finalPacket := finalPacket + Utf8.Encode(payload);
      finalPacket := finalPacket + randomPadding;
      bytes := finalPacket;
    }
  }

  /** The frame `SshPacket::new(payload).into_bytes()` yields when the random
      generator draws `draw(0), draw(1), ...`. */
  function CommandFrame(payload: string, draw: nat -> byte): seq<byte> {
    SshPacket(ZERO_LENGTH, PADDING_LENGTH, payload, RandomBytes(draw, PADDING_LENGTH as nat)).Frame()
  }

  /** Reference decoder for a frame: the padding length at offset 4 fixes where
      the payload ends; the payload must be well-formed UTF-8. */
  function Parse(frame: seq<byte>): (r: Option<SshPacket>)
    ensures r.Some? ==> r.value.WellFormed()
  {
    if |frame| < 5 || |frame| < 5 + frame[4] as int then None
    else
      var end := |frame| - frame[4] as int;
      match Utf8.Decode(frame[5..end])
      case None => None
      case Some(payload) => Some(SshPacket(frame[..4], frame[4], payload, frame[end..]))
  }

  /** The frame layout: the four length bytes at [0, 4), the padding length at 4,
      the payload's bytes at [5, 5 + L) and the padding after them. */
  lemma FrameLayout(p: SshPacket)
    ensures var f, e := p.Frame(), Utf8.Encode(p.payload);
      && |f| == 5 + |e| + |p.randomPadding|
      && f[..4] == p.packetLength
      && f[4] == p.paddingLength
      && f[5..5 + |e|] == e
      && f[5 + |e|..] == p.randomPadding
  {
  }

  /** Splitting a well-formed packet's frame at offsets 4, 5 and 5 + L gives the packet back. */
  lemma {:induction false} ParseFrame(p: SshPacket)
    requires p.WellFormed()
    ensures Parse(p.Frame()) == Some(p)
  {
    var f, e := p.Frame(), Utf8.Encode(p.payload);
    FrameLayout(p);
    assert |f| - f[4] as int == 5 + |e|;
    Utf8.DecodeEncode(p.payload);
  }

  /** Every frame the decoder accepts is the frame of the packet it returns. */
  lemma ParseSound(frame: seq<byte>)
    requires Parse(frame).Some?
    ensures Parse(frame).value.Frame() == frame
  {
    var end := |frame| - frame[4] as int;
    Utf8.EncodeDecode(frame[5..end]);
    assert frame == frame[..4] + [frame[4]] + frame[5..end] + frame[end..];
  }

  /** Frames are determined by their packets and vice versa. */
  lemma FrameInjective(p: SshPacket, q: SshPacket)
    requires p.WellFormed() && q.WellFormed()
    ensures p.Frame() == q.Frame() <==> p == q
  {
    if p.Frame() == q.Frame() {
      ParseFrame(p);
      ParseFrame(q);
    }
  }

  /** A command's frame is 13 bytes longer than the command's UTF-8 bytes:
      4 + 1 + L + 8. */
  lemma CommandFrameLength(payload: string, draw: nat -> byte)
    ensures |CommandFrame(payload, draw)| == 13 + |Utf8.Encode(payload)|
  {
  }

  /** Observation only: with the padding fixed at 8 bytes, a command's frame is a
      multiple of 8 bytes long exactly when its payload is 3 bytes past one. */
  lemma CommandFrameAlignment(payload: string, draw: nat -> byte)
    ensures |CommandFrame(payload, draw)| % 8 == 0 <==> |Utf8.Encode(payload)| % 8 == 3
  {
    CommandFrameLength(payload, draw);
  }
}
