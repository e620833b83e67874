/** UTF-8 encoding of text, as Rust's `str::as_bytes` exposes it for a `String`.
    A Dafny `char` is a Unicode scalar value, which is exactly what a Rust `String`
    holds, so every string has an encoding. `Decode` is the reference inverse used
    to state round trips; it accepts only shortest-form encodings of scalar values. */
module Utf8 {
  import opened Bytes
  import opened Wrappers

  /** The continuation byte carrying the low six bits of `n`. */
  function Cont(n: int): byte
    requires 0 <= n
  {
    (0x80 + n % 64) as byte
  }

  predicate IsCont(b: byte) {
    0x80 <= b < 0xC0
  }

  /** The one to four bytes encoding a single scalar value. */
  function EncodeChar(c: char): (r: seq<byte>)
    ensures 1 <= |r| <= 4
    ensures (|r| == 1) == (c as int < 0x80)
    ensures forall i :: 1 <= i < |r| ==> IsCont(r[i])
  {
    var n := c as int;
    if n < 0x80 then [n as byte]
    else if n < 0x800 then [(0xC0 + n / 64) as byte, Cont(n)]
    else if n < 0x10000 then [(0xE0 + n / 4096) as byte, Cont(n / 64), Cont(n)]
    else [(0xF0 + n / 262144) as byte, Cont(n / 4096), Cont(n / 64), Cont(n)]
  }

  /** The bytes of a string, character by character. */
  function Encode(s: string): seq<byte> {
    if s == [] then [] else EncodeChar(s[0]) + Encode(s[1..])
  }

  predicate IsScalar(n: int) {
    0 <= n < 0xD800 || 0xE000 <= n < 0x11_0000
  }

  /** The scalar value at the start of `b` and the number of bytes it occupies,
      or `None` if `b` does not start with a shortest-form encoding. */
  function DecodeChar(b: seq<byte>): (r: Option<(char, nat)>)
    ensures r.Some? ==> 1 <= r.value.1 <= |b|
  {
    if |b| == 0 then None
    else if b[0] < 0x80 then Some((b[0] as int as char, 1))
    else if 0xC0 <= b[0] < 0xE0 then
      if |b| < 2 || !IsCont(b[1]) then None
      else
        var n := (b[0] as int - 0xC0) * 64 + (b[1] as int - 0x80);
        if 0x80 <= n then Some((n as char, 2)) else None
    else if 0xE0 <= b[0] < 0xF0 then
      if |b| < 3 || !IsCont(b[1]) || !IsCont(b[2]) then None
      else
        var n := ((b[0] as int - 0xE0) * 64 + (b[1] as int - 0x80)) * 64 + (b[2] as int - 0x80);
        if 0x800 <= n && IsScalar(n) then Some((n as char, 3)) else None
    else if 0xF0 <= b[0] < 0xF8 then
      if |b| < 4 || !IsCont(b[1]) || !IsCont(b[2]) || !IsCont(b[3]) then None
      else
        var n := (((b[0] as int - 0xF0) * 64 + (b[1] as int - 0x80)) * 64 + (b[2] as int - 0x80)) * 64
                 + (b[3] as int - 0x80);
        if 0x1_0000 <= n < 0x11_0000 then Some((n as char, 4)) else None
    else None
  }

  /** The string whose encoding is `b`, or `None` if `b` is not well-formed UTF-8. */
  function Decode(b: seq<byte>): (r: Option<string>)
    decreases |b|
  {
    if b == [] then Some([])
    else match DecodeChar(b)
      case None => None
      case Some((c, k)) =>
        match Decode(b[k..])
        case None => None
        case Some(s) => Some([c] + s)
  }

  /** Splits `n` into its six-bit groups, lowest last. */
  lemma SixBitGroups(n: nat)
    ensures n == (n / 64) * 64 + n % 64
    ensures n / 64 == (n / 4096) * 64 + (n / 64) % 64
    ensures n / 4096 == (n / 262144) * 64 + (n / 4096) % 64
  {
    assert n / 4096 == (n / 64) / 64;
    assert n / 262144 == (n / 4096) / 64;
  }

  lemma DecodeEncodeChar(c: char, rest: seq<byte>)
    ensures DecodeChar(EncodeChar(c) + rest) == Some((c, |EncodeChar(c)|))
  {
    var n := c as int;
    var e := EncodeChar(c);
    var b := e + rest;
    SixBitGroups(n);
    if n < 0x80 {
      assert b[0] as int == n;
    } else if n < 0x800 {
      assert b[0] as int - 0xC0 == n / 64 && b[1] as int - 0x80 == n % 64;
      assert 0xC0 <= b[0] < 0xE0 && IsCont(b[1]);
    } else if n < 0x10000 {
      assert b[0] as int - 0xE0 == n / 4096;
      assert b[1] as int - 0x80 == (n / 64) % 64 && b[2] as int - 0x80 == n % 64;
      assert 0xE0 <= b[0] < 0xF0 && IsCont(b[1]) && IsCont(b[2]);
    } else {
      assert b[0] as int - 0xF0 == n / 262144;
      assert b[1] as int - 0x80 == (n / 4096) % 64;
      assert b[2] as int - 0x80 == (n / 64) % 64 && b[3] as int - 0x80 == n % 64;
      assert 0xF0 <= b[0] < 0xF8 && IsCont(b[1]) && IsCont(b[2]) && IsCont(b[3]);
    }
  }

  /** Decoding undoes encoding: the bytes `as_bytes` yields determine the text. */
  lemma {:induction false} DecodeEncode(s: string)
    ensures Decode(Encode(s)) == Some(s)
  {
    if s != [] {
      var e := EncodeChar(s[0]);
      DecodeEncodeChar(s[0], Encode(s[1..]));
      assert (e + Encode(s[1..]))[|e|..] == Encode(s[1..]);
      DecodeEncode(s[1..]);
      assert [s[0]] + s[1..] == s;
    }
  }

  lemma SplitSixBits(h: nat, l: nat)
    requires l < 64
    ensures (h * 64 + l) / 64 == h && (h * 64 + l) % 64 == l
  {
  }

  lemma EncodeDecodeChar2(b: seq<byte>)
    requires DecodeChar(b).Some? && DecodeChar(b).value.1 == 2
    ensures EncodeChar(DecodeChar(b).value.0) == b[..2]
  {
    assert 0xC0 <= b[0] < 0xE0;
    SplitSixBits(b[0] as int - 0xC0, b[1] as int - 0x80);
  }

  lemma EncodeDecodeChar3(b: seq<byte>)
    requires DecodeChar(b).Some? && DecodeChar(b).value.1 == 3
    ensures EncodeChar(DecodeChar(b).value.0) == b[..3]
  {
    assert 0xE0 <= b[0] < 0xF0;
    var n := DecodeChar(b).value.0 as int;
    var hi := (b[0] as int - 0xE0) * 64 + (b[1] as int - 0x80);
    assert n == hi * 64 + (b[2] as int - 0x80);
    SplitSixBits(hi, b[2] as int - 0x80);
    SplitSixBits(b[0] as int - 0xE0, b[1] as int - 0x80);
    assert n / 4096 == (n / 64) / 64;
  }

  lemma EncodeDecodeChar4(b: seq<byte>)
    requires DecodeChar(b).Some? && DecodeChar(b).value.1 == 4
    ensures EncodeChar(DecodeChar(b).value.0) == b[..4]
  {
    assert 0xF0 <= b[0] < 0xF8;
    var n := DecodeChar(b).value.0 as int;
    var top := (b[0] as int - 0xF0) * 64 + (b[1] as int - 0x80);
    var hi := top * 64 + (b[2] as int - 0x80);
    assert n == hi * 64 + (b[3] as int - 0x80);
    SplitSixBits(hi, b[3] as int - 0x80);
    SplitSixBits(top, b[2] as int - 0x80);
    SplitSixBits(b[0] as int - 0xF0, b[1] as int - 0x80);
    assert n / 4096 == (n / 64) / 64;
    assert n / 262144 == (n / 4096) / 64;
  }

  lemma EncodeDecodeChar(b: seq<byte>)
    requires DecodeChar(b).Some?
    ensures EncodeChar(DecodeChar(b).value.0) == b[..DecodeChar(b).value.1]
  {
    var k := DecodeChar(b).value.1;
    if k == 2 {
      EncodeDecodeChar2(b);
    } else if k == 3 {
      EncodeDecodeChar3(b);
    } else if k == 4 {
      EncodeDecodeChar4(b);
    }
  }

  /** One step of a successful decode: the first scalar value, then the rest. */
  lemma DecodeCons(b: seq<byte>)
    requires b != [] && Decode(b).Some?
    ensures DecodeChar(b).Some?
    ensures Decode(b[DecodeChar(b).value.1..]).Some?
    ensures Decode(b).value == [DecodeChar(b).value.0] + Decode(b[DecodeChar(b).value.1..]).value
  {
  }

  /** Reassembles an encoding from its first character's bytes and the rest. */
  lemma EncodeCons(b: seq<byte>, c: char, k: nat, t: string)
    requires k <= |b|
    requires EncodeChar(c) == b[..k] && Encode(t) == b[k..]
    ensures Encode([c] + t) == b
  {
    assert ([c] + t)[1..] == t;
    assert b[..k] + b[k..] == b;
  }

  /** Encoding undoes decoding: `Decode` accepts only bytes that some string encodes to. */
  lemma {:induction false} EncodeDecode(b: seq<byte>)
    requires Decode(b).Some?
    ensures Encode(Decode(b).value) == b
    decreases |b|
  {
    if b != [] {
      DecodeCons(b);
      var c, k := DecodeChar(b).value.0, DecodeChar(b).value.1;
      EncodeDecode(b[k..]);
      EncodeDecodeChar(b);
      EncodeCons(b, c, k, Decode(b[k..]).value);
    }
  }
}
