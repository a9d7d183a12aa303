/**
  Strict UTF-8, as the table in section 4 of RFC 3629 defines it: the decoder
  that `bytes.decode('utf8')` applies to the bytes of one escape run, and the
  encoder that it inverts.
*/
module Utf8 {
  import opened Wrappers

  type Byte = b: int | 0 <= b < 0x100

  /** A continuation byte, 10xxxxxx. */
  predicate IsTail(b: Byte) {
    0x80 <= b <= 0xBF
  }

  /** The values a `char` holds: the Unicode scalar values. */
  predicate IsScalar(cp: int) {
    0 <= cp < 0xD800 || 0xE000 <= cp < 0x11_0000
  }

  /** The one to four bytes that encode a scalar value. */
  function EncodeChar(c: char): (r: seq<Byte>)
    ensures 1 <= |r| <= 4
  {
    var cp := c as int;
    if cp < 0x80 then [cp]
    else if cp < 0x800 then [0xC0 + cp / 0x40, 0x80 + cp % 0x40]
    else if cp < 0x1_0000 then [0xE0 + cp / 0x1000, 0x80 + cp / 0x40 % 0x40, 0x80 + cp % 0x40]
    else [0xF0 + cp / 0x4_0000, 0x80 + cp / 0x1000 % 0x40, 0x80 + cp / 0x40 % 0x40, 0x80 + cp % 0x40]
  }

  /** The UTF-8 encoding of a text. */
  function Encode(cs: string): seq<Byte> {
    if cs == [] then [] else EncodeChar(cs[0]) + Encode(cs[1..])
  }

  /**
    The length of the well-formed sequence at the start of `bs`, or 0 when `bs`
    does not start with one (an unexpected continuation byte, C0, C1, F5..FF,
    a missing or out-of-range continuation byte, an overlong form, a surrogate,
    or a value above U+10FFFF).
  */
  function SequenceLength(bs: seq<Byte>): (n: nat)
    ensures n <= 4 && n <= |bs|
  {
    if |bs| == 0 then 0
    else
      var b0 := bs[0];
      if b0 <= 0x7F then 1
      else if 0xC2 <= b0 <= 0xDF then
        if |bs| >= 2 && IsTail(bs[1]) then 2 else 0
      else if 0xE0 <= b0 <= 0xEF then
        var lo := if b0 == 0xE0 then 0xA0 else 0x80;
        var hi := if b0 == 0xED then 0x9F else 0xBF;
        if |bs| >= 3 && lo <= bs[1] <= hi && IsTail(bs[2]) then 3 else 0
      else if 0xF0 <= b0 <= 0xF4 then
        var lo := if b0 == 0xF0 then 0x90 else 0x80;
        var hi := if b0 == 0xF4 then 0x8F else 0xBF;
        if |bs| >= 4 && lo <= bs[1] <= hi && IsTail(bs[2]) && IsTail(bs[3]) then 4 else 0
      else 0
  }

  lemma DivMod64(x: int, q: int, r: int)
    requires 0 <= r < 0x40 && x == q * 0x40 + r
    ensures x / 0x40 == q && x % 0x40 == r
  {
  }

  lemma DivMod4096(x: int, q: int, r: int)
    requires 0 <= r < 0x1000 && x == q * 0x1000 + r
    ensures x / 0x1000 == q && x % 0x1000 == r
  {
  }

  lemma DivMod262144(x: int, q: int, r: int)
    requires 0 <= r < 0x4_0000 && x == q * 0x4_0000 + r
    ensures x / 0x4_0000 == q && x % 0x4_0000 == r
  {
  }

  /** The value of a two-byte sequence, and the bytes that encode it. */
  function Value2(b0: Byte, b1: Byte): (cp: int)
    requires 0xC2 <= b0 <= 0xDF && IsTail(b1)
    ensures 0x80 <= cp < 0x800
    ensures cp / 0x40 == b0 - 0xC0 && cp % 0x40 == b1 - 0x80
  {
    var cp := (b0 as int - 0xC0) * 0x40 + (b1 as int - 0x80);
    DivMod64(cp, b0 as int - 0xC0, b1 as int - 0x80);
    cp
  }

  /** The value of a three-byte sequence, and the bytes that encode it. */
  function Value3(b0: Byte, b1: Byte, b2: Byte): (cp: int)
    requires 0xE0 <= b0 <= 0xEF && IsTail(b1) && IsTail(b2)
    requires b0 == 0xE0 ==> 0xA0 <= b1
    requires b0 == 0xED ==> b1 <= 0x9F
    ensures 0x800 <= cp < 0x1_0000 && IsScalar(cp)
    ensures cp / 0x1000 == b0 - 0xE0 && cp / 0x40 % 0x40 == b1 - 0x80 && cp % 0x40 == b2 - 0x80
  {
    var hi, mid, lo := b0 as int - 0xE0, b1 as int - 0x80, b2 as int - 0x80;
    var cp := hi * 0x1000 + mid * 0x40 + lo;
    DivMod4096(cp, hi, mid * 0x40 + lo);
    DivMod64(cp, hi * 0x40 + mid, lo);
    DivMod64(hi * 0x40 + mid, hi, mid);
    cp
  }

  /** The value of a four-byte sequence, and the bytes that encode it. */
  function Value4(b0: Byte, b1: Byte, b2: Byte, b3: Byte): (cp: int)
    requires 0xF0 <= b0 <= 0xF4 && IsTail(b1) && IsTail(b2) && IsTail(b3)
    requires b0 == 0xF0 ==> 0x90 <= b1
    requires b0 == 0xF4 ==> b1 <= 0x8F
    ensures 0x1_0000 <= cp < 0x11_0000
    ensures cp / 0x4_0000 == b0 - 0xF0 && cp / 0x1000 % 0x40 == b1 - 0x80
    ensures cp / 0x40 % 0x40 == b2 - 0x80 && cp % 0x40 == b3 - 0x80
  {
    var top, hi, mid, lo := b0 as int - 0xF0, b1 as int - 0x80, b2 as int - 0x80, b3 as int - 0x80;
    var cp := top * 0x4_0000 + hi * 0x1000 + mid * 0x40 + lo;
    DivMod262144(cp, top, hi * 0x1000 + mid * 0x40 + lo);
    DivMod4096(cp, top * 0x40 + hi, mid * 0x40 + lo);
    DivMod64(top * 0x40 + hi, top, hi);
    DivMod64(cp, (top * 0x40 + hi) * 0x40 + mid, lo);
    DivMod64((top * 0x40 + hi) * 0x40 + mid, top * 0x40 + hi, mid);
    cp
  }

  /** The scalar value of the well-formed sequence at the start of `bs`; encoding it gives that sequence back. */
  function FirstChar(bs: seq<Byte>): (c: char)
    requires SequenceLength(bs) > 0
    ensures EncodeChar(c) == bs[..SequenceLength(bs)]
  {
    var n := SequenceLength(bs);
    if n == 1 then bs[0] as char
    else if n == 2 then Value2(bs[0], bs[1]) as char
    else if n == 3 then Value3(bs[0], bs[1], bs[2]) as char
    else Value4(bs[0], bs[1], bs[2], bs[3]) as char
  }

  /** Strict decoding: `None` exactly where Python's strict decoder raises. */
  function Decode(bs: seq<Byte>): Option<string>
    decreases |bs|
  {
    if bs == [] then Some([])
    else
      var n := SequenceLength(bs);
      if n == 0 then None
      else
        match Decode(bs[n..])
        case None => None
        case Some(rest) => Some([FirstChar(bs)] + rest)
  }

  /** Only the first bytes decide the sequence at the start. */
  lemma SequenceLengthPrefix(bs: seq<Byte>, rest: seq<Byte>)
    requires 0 < SequenceLength(bs) == |bs|
    ensures SequenceLength(bs + rest) == |bs|
    ensures FirstChar(bs + rest) == FirstChar(bs)
  {
    assert forall i :: 0 <= i < |bs| ==> (bs + rest)[i] == bs[i];
  }

  lemma EncodeTwo(c: char)
    requires 0x80 <= c as int < 0x800
    ensures SequenceLength(EncodeChar(c)) == |EncodeChar(c)| && FirstChar(EncodeChar(c)) == c
  {
    var cp, e := c as int, EncodeChar(c);
    assert e == [0xC0 + cp / 0x40, 0x80 + cp % 0x40];
    assert SequenceLength(e) == 2;
    assert Value2(e[0], e[1]) == cp;
  }

  lemma EncodeThree(c: char)
    requires 0x800 <= c as int < 0x1_0000
    ensures SequenceLength(EncodeChar(c)) == |EncodeChar(c)| && FirstChar(EncodeChar(c)) == c
  {
    var cp, e := c as int, EncodeChar(c);
    var hi, mid, lo := cp / 0x1000, cp / 0x40 % 0x40, cp % 0x40;
    DivMod64(cp, cp / 0x40, lo);
    DivMod64(cp / 0x40, hi, mid);
    assert e == [0xE0 + hi, 0x80 + mid, 0x80 + lo];
    assert cp == hi * 0x1000 + mid * 0x40 + lo;
    assert SequenceLength(e) == 3;
    assert Value3(e[0], e[1], e[2]) == cp;
  }

  lemma EncodeFour(c: char)
    requires 0x1_0000 <= c as int
    ensures SequenceLength(EncodeChar(c)) == |EncodeChar(c)| && FirstChar(EncodeChar(c)) == c
  {
    var cp, e := c as int, EncodeChar(c);
    var top, hi, mid, lo := cp / 0x4_0000, cp / 0x1000 % 0x40, cp / 0x40 % 0x40, cp % 0x40;
    DivMod64(cp, cp / 0x40, lo);
    DivMod64(cp / 0x40, cp / 0x1000, mid);
    DivMod64(cp / 0x1000, top, hi);
    assert e == [0xF0 + top, 0x80 + hi, 0x80 + mid, 0x80 + lo];
    assert cp == top * 0x4_0000 + hi * 0x1000 + mid * 0x40 + lo;
    assert SequenceLength(e) == 4;
    assert Value4(e[0], e[1], e[2], e[3]) == cp;
  }

  /** The encoding of one scalar value is a single well-formed sequence that decodes to it. */
  lemma EncodeCharWellFormed(c: char)
    ensures SequenceLength(EncodeChar(c)) == |EncodeChar(c)|
    ensures FirstChar(EncodeChar(c)) == c
  {
    if c as int < 0x80 {
    } else if c as int < 0x800 {
      EncodeTwo(c);
    } else if c as int < 0x1_0000 {
      EncodeThree(c);
    } else {
      EncodeFour(c);
    }
  }

  /** The encoding of one scalar value is recognised whatever follows it. */
  lemma EncodeCharRecognised(c: char, rest: seq<Byte>)
    ensures SequenceLength(EncodeChar(c) + rest) == |EncodeChar(c)|
    ensures FirstChar(EncodeChar(c) + rest) == c
  {
    EncodeCharWellFormed(c);
    SequenceLengthPrefix(EncodeChar(c), rest);
  }

  /** Decoding undoes encoding. */
  lemma {:induction false} DecodeEncode(cs: string)
    ensures Decode(Encode(cs)) == Some(cs)
  {
    if cs != [] {
      var e, tail := EncodeChar(cs[0]), Encode(cs[1..]);
      assert Encode(cs) == e + tail;
      EncodeCharRecognised(cs[0], tail);
      assert (e + tail)[|e|..] == tail;
      DecodeEncode(cs[1..]);
      assert cs == [cs[0]] + cs[1..];
    }
  }

  lemma EncodeCons(c: char, rest: string)
    ensures Encode([c] + rest) == EncodeChar(c) + Encode(rest)
  {
    assert ([c] + rest)[0] == c && ([c] + rest)[1..] == rest;
  }

  /** A successful decoding is the first character followed by the decoding of the bytes after it. */
  lemma DecodeStep(bs: seq<Byte>)
    requires bs != [] && Decode(bs).Some?
    ensures 0 < SequenceLength(bs) && Decode(bs[SequenceLength(bs)..]).Some?
    ensures Decode(bs).value == [FirstChar(bs)] + Decode(bs[SequenceLength(bs)..]).value
  {
  }

  /** A sequence is its first `n` elements followed by the rest. */
  lemma Reassemble(bs: seq<Byte>, n: nat, head: seq<Byte>, tail: seq<Byte>)
    requires n <= |bs| && head == bs[..n] && tail == bs[n..]
    ensures head + tail == bs
  {
  }

  /** Whatever decodes, re-encodes to the same bytes. */
  lemma {:induction false} EncodeDecode(bs: seq<Byte>, cs: string)
    requires Decode(bs) == Some(cs)
    ensures Encode(cs) == bs
    decreases |bs|
  {
    if bs != [] {
      DecodeStep(bs);
      var n := SequenceLength(bs);
      var c, rest := FirstChar(bs), Decode(bs[n..]).value;
      EncodeDecode(bs[n..], rest);
      EncodeCons(c, rest);
      Reassemble(bs, n, EncodeChar(c), Encode(rest));
    }
  }

  /** The encoding of a text takes one to four bytes per character. */
  lemma {:induction false} EncodeLength(cs: string)
    ensures |cs| <= |Encode(cs)| <= 4 * |cs|
  {
    if cs != [] {
      EncodeLength(cs[1..]);
    }
  }

  /** A decoded text has at most one character per byte and at least one per four bytes. */
  lemma DecodeLength(bs: seq<Byte>, cs: string)
    requires Decode(bs) == Some(cs)
    ensures |cs| <= |bs| <= 4 * |cs|
  {
    EncodeDecode(bs, cs);
    EncodeLength(cs);
  }

  /** Decoding is exactly the inverse of encoding: the bytes decode to `cs` if and only if they are the encoding of `cs`. */
  lemma DecodeInverse(bs: seq<Byte>, cs: string)
    ensures Decode(bs) == Some(cs) <==> Encode(cs) == bs
  {
    if Decode(bs) == Some(cs) {
      EncodeDecode(bs, cs);
    }
    if Encode(cs) == bs {
      DecodeEncode(cs);
    }
  }
}
