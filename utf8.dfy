/**
 * UTF-8 as defined by RFC 3629: the text decoding that `str::from_utf8`
 * performs before the request line is tokenised.  Decoding is strict: a
 * byte string that is not a concatenation of the well-formed sequences of
 * section 4 of RFC 3629 (no overlong forms, no surrogates, nothing above
 * U+10FFFF, no truncated sequence) has no decoding at all.
 */
module Utf8 {
  import opened Wrappers

  newtype byte = x: int | 0 <= x < 0x100

  predicate InRange(b: byte, lo: int, hi: int) {
    lo <= b as int <= hi
  }

  /** A continuation byte 10xxxxxx. */
  predicate IsContinuation(b: byte) {
    InRange(b, 0x80, 0xBF)
  }

  /** The six payload bits of a continuation byte. */
  function Payload(b: byte): (p: int)
    requires IsContinuation(b)
    ensures 0 <= p < 64
  {
    b as int - 0x80
  }

  /**
   * Decodes the one character that starts `b`, giving the character and
   * how many bytes it occupies; None when `b` does not start with a
   * well-formed sequence.
   */
  function DecodeChar(b: seq<byte>): (r: Option<(char, nat)>)
    requires b != []
    ensures r.Some? ==> 1 <= r.value.1 <= 4 && r.value.1 <= |b|
    ensures r.Some? ==> (r.value.1 == 1 <==> b[0] < 0x80)
    ensures r.Some? && r.value.1 == 1 ==> r.value.0 as int == b[0] as int
    ensures r.Some? && r.value.1 > 1 ==>
              r.value.0 as int >= 0x80 && forall k :: 0 <= k < r.value.1 ==> b[k] >= 0x80
  {
    var b0 := b[0] as int;
    if b0 < 0x80 then
      Some((b0 as char, 1))
    else if 0xC2 <= b0 <= 0xDF then
      if |b| >= 2 && IsContinuation(b[1]) then
        Some((((b0 - 0xC0) * 64 + Payload(b[1])) as char, 2))
      else None
    else if 0xE0 <= b0 <= 0xEF then
      var lo := if b0 == 0xE0 then 0xA0 else 0x80;
      var hi := if b0 == 0xED then 0x9F else 0xBF;
      if |b| >= 3 && InRange(b[1], lo, hi) && IsContinuation(b[2]) then
        Some((((b0 - 0xE0) * 4096 + Payload(b[1]) * 64 + Payload(b[2])) as char, 3))
      else None
    else if 0xF0 <= b0 <= 0xF4 then
      var lo := if b0 == 0xF0 then 0x90 else 0x80;
      var hi := if b0 == 0xF4 then 0x8F else 0xBF;
      if |b| >= 4 && InRange(b[1], lo, hi) && IsContinuation(b[2]) && IsContinuation(b[3]) then
        Some((((b0 - 0xF0) * 262144 + Payload(b[1]) * 4096 + Payload(b[2]) * 64 + Payload(b[3])) as char, 4))
      else None
    else
      None
  }

  /** The whole decoding: Some(text) exactly when `b` is valid UTF-8. */
  function Decode(b: seq<byte>): (r: Option<string>)
    ensures r.Some? ==> |r.value| <= |b|
    ensures r.Some? && b != [] ==> DecodeChar(b).Some?
    decreases |b|
  {
    if b == [] then Some([])
    else
      match DecodeChar(b)
      case None => None
      case Some((c, n)) =>
        match Decode(b[n..])
        case None => None
        case Some(s) => Some([c] + s)
  }

  /** The shortest UTF-8 form of one character. */
  function EncodeChar(c: char): (r: seq<byte>)
    ensures 1 <= |r| <= 4
    ensures |r| == 1 <==> c as int < 0x80
  {
    var n := c as int;
    if n < 0x80 then
      [n as byte]
    else if n < 0x800 then
      [(0xC0 + n / 64) as byte, (0x80 + n % 64) as byte]
    else if n < 0x10000 then
      var low := n % 4096;
      [(0xE0 + n / 4096) as byte, (0x80 + low / 64) as byte, (0x80 + low % 64) as byte]
    else
      var low := n % 262144;
      var low' := low % 4096;
      [(0xF0 + n / 262144) as byte, (0x80 + low / 4096) as byte,
       (0x80 + low' / 64) as byte, (0x80 + low' % 64) as byte]
  }

  function Encode(s: string): (r: seq<byte>)
    ensures |s| <= |r| <= 4 * |s|
  {
    if s == [] then [] else EncodeChar(s[0]) + Encode(s[1..])
  }

  /** The character decoded from a prefix does not depend on what follows it. */
  lemma DecodeCharPrefix(b: seq<byte>, t: seq<byte>)
    requires b != [] && DecodeChar(b).Some?
    ensures var n := DecodeChar(b).value.1;
            DecodeChar(b[..n] + t) == DecodeChar(b)
  {
    var n := DecodeChar(b).value.1;
    var b' := b[..n] + t;
    assert b'[0] == b[0];
    assert n >= 2 ==> b'[1] == b[1];
    assert n >= 3 ==> b'[2] == b[2];
    assert n >= 4 ==> b'[3] == b[3];
  }

  lemma DecodeCharEncodeChar(c: char, rest: seq<byte>)
    ensures DecodeChar(EncodeChar(c) + rest) == Some((c, |EncodeChar(c)|))
  {
    var n := c as int;
    var e := EncodeChar(c);
    assert (e + rest)[..|e|] == e;
    if n < 0x80 {
    } else if n < 0x800 {
      DecodeTwo(c, e + rest);
    } else if n < 0x10000 {
      DecodeThree(c, e + rest);
    } else {
      DecodeFour(c, e + rest);
    }
  }

  lemma DecodeTwo(c: char, b: seq<byte>)
    requires 0x80 <= c as int < 0x800
    requires |b| >= 2 && b[..2] == EncodeChar(c)
    ensures DecodeChar(b) == Some((c, 2))
  {
    var n := c as int;
    assert b[0] as int == 0xC0 + n / 64 && b[1] as int == 0x80 + n % 64;
  }

  lemma DecodeThree(c: char, b: seq<byte>)
    requires 0x800 <= c as int < 0x10000
    requires |b| >= 3 && b[..3] == EncodeChar(c)
    ensures DecodeChar(b) == Some((c, 3))
  {
    var n := c as int;
    var p, low := n / 4096, n % 4096;
    var q, r := low / 64, low % 64;
    assert n == p * 4096 + low;
    assert low == q * 64 + r;
    assert b[0] as int == 0xE0 + p && b[1] as int == 0x80 + q && b[2] as int == 0x80 + r;
    assert p == 0 ==> q >= 0x20;
    assert p == 13 ==> q <= 0x1F;
  }

  lemma DecodeFour(c: char, b: seq<byte>)
    requires 0x10000 <= c as int
    requires |b| >= 4 && b[..4] == EncodeChar(c)
    ensures DecodeChar(b) == Some((c, 4))
  {
    var n := c as int;
    var p, low := n / 262144, n % 262144;
    var q, low' := low / 4096, low % 4096;
    var r, t := low' / 64, low' % 64;
    assert n == p * 262144 + low;
    assert low == q * 4096 + low';
    assert low' == r * 64 + t;
    assert b[0] as int == 0xF0 + p && b[1] as int == 0x80 + q;
    assert b[2] as int == 0x80 + r && b[3] as int == 0x80 + t;
    assert p == 0 ==> q >= 0x10;
    assert p == 4 ==> q <= 0x0F;
  }

  lemma EncodeCharDecodeChar(b: seq<byte>)
    requires b != [] && DecodeChar(b).Some?
    ensures var (c, n) := DecodeChar(b).value; EncodeChar(c) == b[..n]
  {
    var n := DecodeChar(b).value.1;
    if n == 2 {
      EncodeTwo(b);
    } else if n == 3 {
      EncodeThree(b);
    } else if n == 4 {
      EncodeFour(b);
    }
  }

  lemma EncodeTwo(b: seq<byte>)
    requires b != [] && DecodeChar(b).Some? && DecodeChar(b).value.1 == 2
    ensures EncodeChar(DecodeChar(b).value.0) == b[..2]
  {
    var v := DecodeChar(b).value.0 as int;
    assert v / 64 == b[0] as int - 0xC0 && v % 64 == Payload(b[1]);
  }

  lemma EncodeThree(b: seq<byte>)
    requires b != [] && DecodeChar(b).Some? && DecodeChar(b).value.1 == 3
    ensures EncodeChar(DecodeChar(b).value.0) == b[..3]
  {
    var v := DecodeChar(b).value.0 as int;
    var low := Payload(b[1]) * 64 + Payload(b[2]);
    assert v / 4096 == b[0] as int - 0xE0 && v % 4096 == low;
    assert low / 64 == Payload(b[1]) && low % 64 == Payload(b[2]);
  }

  lemma EncodeFour(b: seq<byte>)
    requires b != [] && DecodeChar(b).Some? && DecodeChar(b).value.1 == 4
    ensures EncodeChar(DecodeChar(b).value.0) == b[..4]
  {
    var v := DecodeChar(b).value.0 as int;
    var low' := Payload(b[2]) * 64 + Payload(b[3]);
    var low := Payload(b[1]) * 4096 + low';
    assert v / 262144 == b[0] as int - 0xF0 && v % 262144 == low;
    assert low / 4096 == Payload(b[1]) && low % 4096 == low';
    assert low' / 64 == Payload(b[2]) && low' % 64 == Payload(b[3]);
  }

  /** Round trip: every text decodes back from its encoding. */
  lemma {:induction false} DecodeEncode(s: string)
    ensures Decode(Encode(s)) == Some(s)
  {
    if s != [] {
      var e := EncodeChar(s[0]);
      DecodeCharEncodeChar(s[0], Encode(s[1..]));
      assert (e + Encode(s[1..]))[|e|..] == Encode(s[1..]);
      DecodeEncode(s[1..]);
      assert [s[0]] + s[1..] == s;
    }
  }

  /** A valid non-empty byte string is one decoded character followed by a valid rest. */
  lemma DecodeStep(b: seq<byte>)
    requires b != [] && Decode(b).Some?
    ensures DecodeChar(b).Some?
    ensures Decode(b[DecodeChar(b).value.1..]).Some?
    ensures Decode(b).value == [DecodeChar(b).value.0] + Decode(b[DecodeChar(b).value.1..]).value
  {
  }

  /** Encoding a text that starts with `c` starts with the encoding of `c`. */
  lemma EncodeCons(c: char, t: string)
    ensures Encode([c] + t) == EncodeChar(c) + Encode(t)
  {
    assert ([c] + t)[0] == c && ([c] + t)[1..] == t;
  }

  /** Round trip the other way: a valid byte string is the encoding of its decoding. */
  lemma {:induction false} EncodeDecode(b: seq<byte>)
    requires Decode(b).Some?
    ensures Encode(Decode(b).value) == b
    decreases |b|
  {
    if b != [] {
      DecodeStep(b);
      var (c, n) := DecodeChar(b).value;
      EncodeCharDecodeChar(b);
      EncodeDecode(b[n..]);
      EncodeCons(c, Decode(b[n..]).value);
      assert b == b[..n] + b[n..];
    }
  }

  lemma {:induction false} EncodeAppend(s: string, t: string)
    ensures Encode(s + t) == Encode(s) + Encode(t)
  {
    if s != [] {
      assert (s + t)[0] == s[0] && (s + t)[1..] == s[1..] + t;
      EncodeAppend(s[1..], t);
      calc {
        Encode(s + t);
        EncodeChar(s[0]) + Encode(s[1..] + t);
        EncodeChar(s[0]) + (Encode(s[1..]) + Encode(t));
        (EncodeChar(s[0]) + Encode(s[1..])) + Encode(t);
      }
    } else {
      assert s + t == t;
    }
  }

  /** Concatenating two valid byte strings concatenates their texts. */
  lemma DecodeAppend(a: seq<byte>, b: seq<byte>)
    requires Decode(a).Some? && Decode(b).Some?
    ensures Decode(a + b) == Some(Decode(a).value + Decode(b).value)
  {
    var s, t := Decode(a).value, Decode(b).value;
    EncodeDecode(a);
    EncodeDecode(b);
    EncodeAppend(s, t);
    DecodeEncode(s + t);
  }

  /** `n` zero bytes, the initial contents of the server's read buffer. */
  function Zeros(n: nat): (z: seq<byte>)
    ensures |z| == n && forall i :: 0 <= i < n ==> z[i] == 0
  {
    seq(n, _ => 0)
  }

  /** `n` NUL characters, what zero bytes decode to. */
  function Nuls(n: nat): (s: string)
    ensures |s| == n && forall i :: 0 <= i < n ==> s[i] == '\0'
  {
    seq(n, _ => '\0')
  }

  lemma {:induction false} EncodeNuls(n: nat)
    ensures Encode(Nuls(n)) == Zeros(n)
  {
    if n > 0 {
      EncodeNuls(n - 1);
      assert Nuls(n)[1..] == Nuls(n - 1);
      assert [0 as byte] + Zeros(n - 1) == Zeros(n);
    }
  }

  /** Zero padding after a valid byte string decodes to NUL characters after its text. */
  lemma DecodeZeros(a: seq<byte>, n: nat)
    requires Decode(a).Some?
    ensures Decode(a + Zeros(n)) == Some(Decode(a).value + Nuls(n))
  {
    EncodeNuls(n);
    DecodeEncode(Nuls(n));
    DecodeAppend(a, Zeros(n));
  }

  /**
   * Zero bytes cannot complete a truncated sequence, so a byte string that
   * is valid once padded with zeros was valid already.
   */
  lemma {:induction false} ValidBeforeZeros(a: seq<byte>, n: nat)
    ensures Decode(a + Zeros(n)).Some? ==> Decode(a).Some?
    decreases |a|
  {
    if a != [] && Decode(a + Zeros(n)).Some? {
      var b := a + Zeros(n);
      var (c, k) := DecodeChar(b).value;
      assert b[0] == a[0];
      assert forall j :: |a| <= j < |b| ==> b[j] == 0;
      assert k <= |a|;
      assert b[..k] == a[..k] && a == b[..k] + a[k..];
      DecodeCharPrefix(b, a[k..]);
      assert b[k..] == a[k..] + Zeros(n);
      ValidBeforeZeros(a[k..], n);
    }
  }
}
