/**
  The repair pass that runs over the raw text of a message archive before it
  is parsed: every maximal run of `\u00HH` escapes is taken as the bytes of a
  UTF-8 sequence and replaced by their decoding, or by nothing when they are
  not valid UTF-8.
*/
module Escapes {
  import opened Wrappers
  import Utf8

  predicate IsHexDigit(c: char) {
    '0' <= c <= '9' || 'a' <= c <= 'f' || 'A' <= c <= 'F'
  }

  function HexValue(c: char): (v: nat)
    requires IsHexDigit(c)
    ensures v < 16
  {
    if c <= '9' then c as int - '0' as int
    else if c <= 'F' then c as int - 'A' as int + 10
    else c as int - 'a' as int + 10
  }

  /** The digit for a value below 16, its letter upper-case when `upper` holds; reading it back gives the value. */
  function HexDigit(v: nat, upper: bool): (c: char)
    requires v < 16
    ensures IsHexDigit(c) && HexValue(c) == v && c != '\\'
  {
    if v < 10 then ('0' as int + v) as char
    else if upper then ('A' as int + v - 10) as char
    else ('a' as int + v - 10) as char
  }

  /**
    One repetition of the case-insensitive pattern `\\u00[\da-f]{2}` at the
    start of `s`: a backslash, `u` or `U`, two zeros, two hex digits.
  */
  predicate StartsWithToken(s: string) {
    |s| >= 6 && s[0] == '\\' && (s[1] == 'u' || s[1] == 'U') && s[2] == '0' && s[3] == '0'
    && IsHexDigit(s[4]) && IsHexDigit(s[5])
  }

  /** No escape token starts anywhere in `s`. */
  predicate Plain(s: string) {
    forall i :: 0 <= i < |s| ==> !StartsWithToken(s[i..])
  }

  /** The number of tokens in the greedy match at the start of `s`. */
  function RunLength(s: string): (n: nat)
    ensures 6 * n <= |s|
    decreases |s|
  {
    if StartsWithToken(s) then 1 + RunLength(s[6..]) else 0
  }

  /** `s` starts with the four characters `\u00`. */
  predicate StartsWithPrefix(s: string) {
    |s| >= 4 && s[0] == '\\' && s[1] == 'u' && s[2] == '0' && s[3] == '0'
  }

  /** `str.replace(r'\u00', '')`: removes every occurrence of the lower-case prefix, scanning left to right. */
  function StripPrefixes(s: string): (r: string)
    ensures |r| <= |s|
    decreases |s|
  {
    if StartsWithPrefix(s) then StripPrefixes(s[4..])
    else if s == [] then []
    else [s[0]] + StripPrefixes(s[1..])
  }

  /** The bytes of a string of hex-digit pairs; `None` at the first pair that is not two hex digits. */
  function HexPairs(h: string): (r: Option<seq<Utf8.Byte>>)
    requires |h| % 2 == 0
    ensures r.Some? <==> forall i :: 0 <= i < |h| ==> IsHexDigit(h[i])
    ensures r.Some? ==> 2 * |r.value| == |h|
    ensures r.Some? ==> forall i :: 0 <= i < |r.value| ==> r.value[i] == HexValue(h[2 * i]) * 16 + HexValue(h[2 * i + 1])
  {
    if h == [] then Some([])
    else if IsHexDigit(h[0]) && IsHexDigit(h[1]) then
      match HexPairs(h[2..])
      case None => None
      case Some(rest) => Some([HexValue(h[0]) * 16 + HexValue(h[1])] + rest)
    else None
  }

  /** `codecs.decode(h, "hex")`: `None` where it raises, on odd length or a non-hex character. */
  function Unhexlify(h: string): (r: Option<seq<Utf8.Byte>>)
    ensures r.Some? <==> |h| % 2 == 0 && forall i :: 0 <= i < |h| ==> IsHexDigit(h[i])
    ensures r.Some? ==> 2 * |r.value| == |h|
    ensures r.Some? ==> forall i :: 0 <= i < |r.value| ==> r.value[i] == HexValue(h[2 * i]) * 16 + HexValue(h[2 * i + 1])
  {
    if |h| % 2 == 1 then None else HexPairs(h)
  }

  /** `bytes.decode('utf8')` inside the `try`: a failed decoding becomes the empty text. */
  function DecodeOrEmpty(bytes: seq<Utf8.Byte>): (text: string)
    ensures |text| <= |bytes|
  {
    match Utf8.Decode(bytes)
    case Some(text) => Utf8.DecodeLength(bytes, text); text
    case None => []
  }

  /**
    The replacement for one matched run. The hex conversion sits outside the
    `try`, so a run that still holds a `\U00` after the lower-case prefixes are
    stripped raises, which is `None` here.
  */
  function DecodeRun(run: string): (r: Option<string>)
    ensures r.Some? ==> 2 * |r.value| <= |run|
  {
    match Unhexlify(StripPrefixes(run))
    case None => None
    case Some(bytes) => Some(DecodeOrEmpty(bytes))
  }

  function Prepend(t: string, o: Option<string>): Option<string> {
    match o
    case None => None
    case Some(u) => Some(t + u)
  }

  /**
    `re.sub(r'(?i)(?:\\u00[\da-f]{2})+', decode_unicode_escapes, raw)`: scan
    left to right; where a token starts, replace the whole run; elsewhere keep
    the character. `None` when a replacement raises.
  */
  function Repair(s: string): (r: Option<string>)
    ensures r.Some? ==> |r.value| <= |s|
    decreases |s|
  {
    if s == [] then Some([])
    else
      var n := RunLength(s);
      if n == 0 then Prepend([s[0]], Repair(s[1..]))
      else
        match DecodeRun(s[..6 * n])
        case None => None
        case Some(t) => Prepend(t, Repair(s[6 * n..]))
  }

  // ---------------------------------------------------------------------------
  // Escaped text, as the archive writes it

  /**
    How one token is written, as far as the case-insensitive pattern lets it
    vary: `\U00` or `\u00`, and the case of each of its two hex digits.
  */
  datatype Spelling = Spelling(upperU: bool, upperHigh: bool, upperLow: bool)

  /** The all-lower-case spelling, `\u00` followed by lower-case digits. */
  const Lower := Spelling(false, false, false)

  /** Some token of a run is written `\U00`. */
  predicate AnyUpperU(sp: seq<Spelling>) {
    sp != [] && (sp[0].upperU || AnyUpperU(sp[1..]))
  }

  lemma {:induction false} NoUpperU(sp: seq<Spelling>)
    requires forall i :: 0 <= i < |sp| ==> !sp[i].upperU
    ensures !AnyUpperU(sp)
  {
    if sp != [] {
      NoUpperU(sp[1..]);
    }
  }

  /** The two hex digits of the token for byte `b`. */
  function Digits(b: Utf8.Byte, sp: Spelling): (d: string)
    ensures |d| == 2 && IsHexDigit(d[0]) && IsHexDigit(d[1]) && HexValue(d[0]) * 16 + HexValue(d[1]) == b
  {
    [HexDigit(b / 16, sp.upperHigh), HexDigit(b % 16, sp.upperLow)]
  }

  /** One escape token for byte `b`, written as `sp` says. */
  function Token(b: Utf8.Byte, sp: Spelling): (t: string)
    ensures StartsWithToken(t) && |t| == 6
  {
    ['\\', if sp.upperU then 'U' else 'u', '0', '0'] + Digits(b, sp)
  }

  /** A run of tokens, one per byte, token `i` written as `sp[i]` says. */
  function EscapeRun(bs: seq<Utf8.Byte>, sp: seq<Spelling>): (e: string)
    requires |sp| == |bs|
    ensures |e| == 6 * |bs|
    ensures bs != [] ==> e[0] == '\\'
  {
    if bs == [] then [] else Token(bs[0], sp[0]) + EscapeRun(bs[1..], sp[1..])
  }

  /** The all-lower-case run the export writes for a byte string. */
  function Escape(bs: seq<Utf8.Byte>): string {
    EscapeRun(bs, seq(|bs|, _ => Lower))
  }

  /** What `replace` leaves of an escape run: the hex pairs of the `\u00` tokens, the `\U00` tokens whole. */
  function Stripped(bs: seq<Utf8.Byte>, sp: seq<Spelling>): (h: string)
    requires |sp| == |bs|
    ensures |h| % 2 == 0
  {
    if bs == [] then []
    else (if sp[0].upperU then Token(bs[0], sp[0]) else Digits(bs[0], sp[0]))
         + Stripped(bs[1..], sp[1..])
  }

  /** A character that does not start the prefix is kept. */
  lemma StripKeeps(s: string)
    requires s != [] && !StartsWithPrefix(s)
    ensures StripPrefixes(s) == [s[0]] + StripPrefixes(s[1..])
  {
  }

  /** Text with no backslash passes through the prefix stripping unchanged. */
  lemma {:induction false} StripPlain(t: string, rest: string)
    requires forall i :: 0 <= i < |t| ==> t[i] != '\\'
    ensures StripPrefixes(t + rest) == t + StripPrefixes(rest)
  {
    if t == [] {
      assert t + rest == rest;
    } else {
      var s := t + rest;
      StripKeeps(s);
      assert s[1..] == t[1..] + rest;
      StripPlain(t[1..], rest);
      assert [t[0]] + (t[1..] + StripPrefixes(rest)) == t + StripPrefixes(rest);
    }
  }

  lemma StripUpperToken(b: Utf8.Byte, sp: Spelling, rest: string)
    requires sp.upperU
    ensures StripPrefixes(Token(b, sp) + rest) == Token(b, sp) + StripPrefixes(rest)
  {
    var t := Token(b, sp);
    var s := t + rest;
    StripKeeps(s);
    assert s[1..] == t[1..] + rest;
    StripPlain(t[1..], rest);
    assert [t[0]] + t[1..] == t;
  }

  lemma StripLowerToken(b: Utf8.Byte, sp: Spelling, rest: string)
    requires !sp.upperU
    ensures StripPrefixes(Token(b, sp) + rest) == Digits(b, sp) + StripPrefixes(rest)
  {
    var s := Token(b, sp) + rest;
    var d := Digits(b, sp);
    assert StartsWithPrefix(s);
    var h := s[4..];
    assert StripPrefixes(s) == StripPrefixes(h);
    assert h == d + rest;
    assert h[0] == d[0] && h[1..] == [d[1]] + rest && h[1..][0] == d[1] && h[1..][1..] == rest;
    StripKeeps(h);
    StripKeeps(h[1..]);
    assert [d[0]] + ([d[1]] + StripPrefixes(rest)) == d + StripPrefixes(rest);
  }

  lemma StripToken(b: Utf8.Byte, sp: Spelling, rest: string)
    ensures StripPrefixes(Token(b, sp) + rest)
         == (if sp.upperU then Token(b, sp) else Digits(b, sp)) + StripPrefixes(rest)
  {
    if sp.upperU {
      StripUpperToken(b, sp, rest);
    } else {
      StripLowerToken(b, sp, rest);
    }
  }

  lemma {:induction false} StripEscapeRun(bs: seq<Utf8.Byte>, sp: seq<Spelling>)
    requires |sp| == |bs|
    ensures StripPrefixes(EscapeRun(bs, sp)) == Stripped(bs, sp)
  {
    if bs != [] {
      StripToken(bs[0], sp[0], EscapeRun(bs[1..], sp[1..]));
      StripEscapeRun(bs[1..], sp[1..]);
    }
  }

  lemma {:induction false} HexPairsStripped(bs: seq<Utf8.Byte>, sp: seq<Spelling>)
    requires |sp| == |bs|
    ensures HexPairs(Stripped(bs, sp)) == if AnyUpperU(sp) then None else Some(bs)
  {
    if bs != [] {
      var h := Stripped(bs, sp);
      HexPairsStripped(bs[1..], sp[1..]);
      if sp[0].upperU {
        assert h[0] == '\\';
      } else {
        assert h[2..] == Stripped(bs[1..], sp[1..]);
        assert HexValue(h[0]) * 16 + HexValue(h[1]) == bs[0];
        assert bs == [bs[0]] + bs[1..];
      }
    }
  }

  /**
    A matched run is replaced by the UTF-8 decoding of its bytes, or by the
    empty text when they are not valid UTF-8; a run holding an upper-case
    `\U00` token makes the replacement raise.
  */
  lemma DecodeEscapeRun(bs: seq<Utf8.Byte>, sp: seq<Spelling>)
    requires |sp| == |bs|
    ensures DecodeRun(EscapeRun(bs, sp)) == if AnyUpperU(sp) then None else Some(DecodeOrEmpty(bs))
  {
    StripEscapeRun(bs, sp);
    HexPairsStripped(bs, sp);
  }

  // ---------------------------------------------------------------------------
  // What the repair pass does to a whole text

  /** Text without escapes passes through unchanged. */
  lemma {:induction false} RepairPlain(s: string)
    requires Plain(s)
    ensures Repair(s) == Some(s)
    decreases |s|
  {
    if s != [] {
      assert !StartsWithToken(s[0..]);
      assert s[0..] == s;
      assert Plain(s[1..]) by {
        forall i | 0 <= i < |s[1..]| ensures !StartsWithToken(s[1..][i..]) {
          assert s[1..][i..] == s[i + 1..];
        }
      }
      RepairPlain(s[1..]);
      assert s == [s[0]] + s[1..];
    }
  }

  /** A run of escapes followed by text that does not start with one is matched exactly. */
  lemma {:induction false} RunLengthEscapeRun(bs: seq<Utf8.Byte>, sp: seq<Spelling>, rest: string)
    requires |sp| == |bs| && !StartsWithToken(rest)
    ensures RunLength(EscapeRun(bs, sp) + rest) == |bs|
  {
    if bs != [] {
      var t, e := Token(bs[0], sp[0]), EscapeRun(bs[1..], sp[1..]);
      assert EscapeRun(bs, sp) + rest == t + (e + rest);
      assert (t + (e + rest))[6..] == e + rest;
      assert StartsWithToken(t + (e + rest)) by {
        assert (t + (e + rest))[..6] == t;
      }
      RunLengthEscapeRun(bs[1..], sp[1..], rest);
    }
  }

  /** No token can begin before a run and reach into it: a run starts with a backslash and a token has one only at its start. */
  lemma NoTokenReachesRun(p: string, e: string, r: string)
    requires p != [] && Plain(p) && e != [] && e[0] == '\\'
    ensures !StartsWithToken(p + e + r)
  {
    var s := p + e + r;
    if |p| >= 6 {
      assert !StartsWithToken(p[0..]);
      assert s[..6] == p[..6];
    } else {
      assert s[|p|] == '\\';
    }
  }

  lemma PrependAssoc(a: string, b: string, o: Option<string>)
    ensures Prepend(a, Prepend(b, o)) == Prepend(a + b, o)
  {
    if o.Some? {
      assert a + (b + o.value) == (a + b) + o.value;
    }
  }

  /** A text that starts with a run. */
  lemma RepairRunFirst(bs: seq<Utf8.Byte>, sp: seq<Spelling>, r: string)
    requires |sp| == |bs| && bs != [] && !StartsWithToken(r)
    ensures Repair(EscapeRun(bs, sp) + r)
         == if AnyUpperU(sp) then None else Prepend(DecodeOrEmpty(bs), Repair(r))
  {
    var e := EscapeRun(bs, sp);
    var s := e + r;
    RunLengthEscapeRun(bs, sp, r);
    assert s[..6 * |bs|] == e && s[6 * |bs|..] == r;
    DecodeEscapeRun(bs, sp);
  }

  /** Where no token starts, the first character is kept. */
  lemma RepairKeepsFirst(s: string)
    requires s != [] && !StartsWithToken(s)
    ensures Repair(s) == Prepend([s[0]], Repair(s[1..]))
  {
  }

  lemma PlainTail(p: string)
    requires p != [] && Plain(p)
    ensures Plain(p[1..])
  {
    forall i | 0 <= i < |p[1..]| ensures !StartsWithToken(p[1..][i..]) {
      assert p[1..][i..] == p[i + 1..];
    }
  }

  lemma ConsSplit(p: string, d: string)
    requires p != []
    ensures [p[0]] + (p[1..] + d) == p + d
  {
    assert p == [p[0]] + p[1..];
  }

  /** The first character of plain text before a run is kept. */
  lemma RepairConsPlain(p: string, e: string, r: string)
    requires p != [] && Plain(p) && e != [] && e[0] == '\\'
    ensures Repair(p + e + r) == Prepend([p[0]], Repair(p[1..] + e + r))
  {
    var s := p + e + r;
    NoTokenReachesRun(p, e, r);
    RepairKeepsFirst(s);
    assert s[1..] == p[1..] + e + r;
  }

  /**
    Text before a run is kept, the run is replaced by the decoding of its bytes
    (empty when they are not valid UTF-8, a failure when a token is written
    `\U00`), and the repair goes on after the run.
  */
  lemma {:induction false} RepairStep(p: string, bs: seq<Utf8.Byte>, sp: seq<Spelling>, r: string)
    requires Plain(p) && |sp| == |bs| && bs != [] && !StartsWithToken(r)
    ensures Repair(p + EscapeRun(bs, sp) + r)
         == if AnyUpperU(sp) then None else Prepend(p + DecodeOrEmpty(bs), Repair(r))
    decreases |p|
  {
    var e := EscapeRun(bs, sp);
    if p == [] {
      assert p + e + r == e + r;
      assert p + DecodeOrEmpty(bs) == DecodeOrEmpty(bs);
      RepairRunFirst(bs, sp, r);
    } else {
      PlainTail(p);
      RepairStep(p[1..], bs, sp, r);
      RepairConsPlain(p, e, r);
      if !AnyUpperU(sp) {
        var d := DecodeOrEmpty(bs);
        PrependAssoc([p[0]], p[1..] + d, Repair(r));
        ConsSplit(p, d);
      }
    }
  }

  lemma PlainPrefix(p: string, q: string)
    requires Plain(p + q)
    ensures Plain(p)
  {
    forall i | 0 <= i < |p| ensures !StartsWithToken(p[i..]) {
      assert !StartsWithToken((p + q)[i..]);
      if |p[i..]| >= 6 {
        assert (p + q)[i..][..6] == p[i..][..6];
      }
    }
  }

  lemma PlainSuffix(p: string, q: string)
    requires Plain(p + q)
    ensures Plain(q) && !StartsWithToken(q)
  {
    forall i | 0 <= i < |q| ensures !StartsWithToken(q[i..]) {
      assert q[i..] == (p + q)[|p| + i..];
    }
    if q != [] {
      assert q[0..] == q;
    }
  }

  /**
    One run in otherwise plain text: the text around it is unchanged and the
    run becomes the decoding of its bytes, or nothing when they are not valid
    UTF-8; an upper-case `\U00` token anywhere in the run makes the pass fail.
  */
  lemma RepairSplice(p: string, bs: seq<Utf8.Byte>, sp: seq<Spelling>, q: string)
    requires Plain(p + q) && |sp| == |bs|
    ensures Repair(p + EscapeRun(bs, sp) + q)
         == if AnyUpperU(sp) then None else Some(p + DecodeOrEmpty(bs) + q)
  {
    if bs == [] {
      RepairSpliceEmpty(p, sp, q);
    } else {
      PlainPrefix(p, q);
      PlainSuffix(p, q);
      RepairStep(p, bs, sp, q);
      RepairPlain(q);
    }
  }

  lemma RepairSpliceEmpty(p: string, sp: seq<Spelling>, q: string)
    requires Plain(p + q) && sp == []
    ensures Repair(p + EscapeRun([], sp) + q) == Some(p + DecodeOrEmpty([]) + q)
  {
    assert p + EscapeRun([], sp) + q == p + q;
    assert Utf8.Decode([]) == Some([]);
    assert p + DecodeOrEmpty([]) + q == p + q;
    RepairPlain(p + q);
  }

  /** A text written out as escaped UTF-8 bytes between plain text is repaired back to itself. */
  lemma RepairRoundTrip(p: string, cs: string, q: string)
    requires Plain(p + q)
    ensures Repair(p + Escape(Utf8.Encode(cs)) + q) == Some(p + cs + q)
  {
    var bs := Utf8.Encode(cs);
    var lower := seq(|bs|, _ => Lower);
    NoUpperU(lower);
    RepairSplice(p, bs, lower, q);
    Utf8.DecodeEncode(cs);
  }

  // ---------------------------------------------------------------------------
  // A whole text as alternating plain stretches and escape runs

  /** A stretch of a raw text: plain characters, or one maximal escape run given by its bytes and the spelling of each token. */
  datatype Piece = Text(text: string) | Escaped(bytes: seq<Utf8.Byte>, spelling: seq<Spelling>)

  /** The raw text the pieces spell. */
  function Render(pieces: seq<Piece>): string {
    if pieces == [] then []
    else
      (match pieces[0]
       case Text(t) => t
       case Escaped(bs, sp) => if |sp| == |bs| then EscapeRun(bs, sp) else [])
      + Render(pieces[1..])
  }

  /**
    The pieces cut a text at its maximal runs: plain stretches are non-empty
    and hold no token, runs are non-empty, and the kinds alternate (two runs
    side by side would be one run, two plain stretches one stretch).
  */
  predicate WellCut(pieces: seq<Piece>) {
    (forall i :: 0 <= i < |pieces| ==>
       match pieces[i]
       case Text(t) => t != [] && Plain(t)
       case Escaped(bs, sp) => bs != [] && |sp| == |bs|)
    && (forall i :: 0 <= i < |pieces| - 1 ==> pieces[i].Text? != pieces[i + 1].Text?)
  }

  /** Some run holds an upper-case `\U00` token. */
  predicate HasUpper(pieces: seq<Piece>) {
    exists i :: 0 <= i < |pieces| && pieces[i].Escaped? && AnyUpperU(pieces[i].spelling)
  }

  /** Plain stretches as they are, each run as the decoding of its bytes or nothing. */
  function Repaired(pieces: seq<Piece>): string {
    if pieces == [] then []
    else
      (match pieces[0]
       case Text(t) => t
       case Escaped(bs, _) => DecodeOrEmpty(bs))
      + Repaired(pieces[1..])
  }

  lemma WellCutTail(pieces: seq<Piece>, k: nat)
    requires WellCut(pieces) && k <= |pieces|
    ensures WellCut(pieces[k..])
  {
    var r := pieces[k..];
    assert forall i :: 0 <= i < |r| ==> r[i] == pieces[k + i];
  }

  lemma HasUpperCons(pieces: seq<Piece>)
    requires pieces != []
    ensures HasUpper(pieces)
        <==> (pieces[0].Escaped? && AnyUpperU(pieces[0].spelling)) || HasUpper(pieces[1..])
  {
    if HasUpper(pieces[1..]) {
      var i :| 0 <= i < |pieces[1..]| && pieces[1..][i].Escaped? && AnyUpperU(pieces[1..][i].spelling);
      assert pieces[i + 1] == pieces[1..][i];
    }
    if HasUpper(pieces) {
      var i :| 0 <= i < |pieces| && pieces[i].Escaped? && AnyUpperU(pieces[i].spelling);
      if i > 0 {
        assert pieces[1..][i - 1] == pieces[i];
      }
    }
  }

  /** The text of well-cut pieces that start with a plain stretch or are empty does not start with a token. */
  lemma RenderNoLeadingToken(pieces: seq<Piece>)
    requires WellCut(pieces) && (pieces == [] || pieces[0].Text?)
    ensures !StartsWithToken(Render(pieces))
  {
    if pieces != [] {
      var t := pieces[0].text;
      assert t != [] && Plain(t);
      if |pieces| == 1 {
        assert Render(pieces) == t + [];
        assert t[0..] == t;
      } else {
        var next := pieces[1];
        assert next.Escaped? && next.bytes != [] && |next.spelling| == |next.bytes|;
        var e := EscapeRun(next.bytes, next.spelling);
        assert Render(pieces[1..]) == e + Render(pieces[2..]);
        NoTokenReachesRun(t, e, Render(pieces[2..]));
        assert Render(pieces) == t + e + Render(pieces[2..]);
      }
    }
  }

  /** A result that starts with a run, shared by both shapes of the inductive step. */
  lemma RepairPiecesRun(p: string, bs: seq<Utf8.Byte>, sp: seq<Spelling>, rest: seq<Piece>)
    requires Plain(p) && bs != [] && |sp| == |bs| && WellCut(rest) && (rest == [] || rest[0].Text?)
    requires Repair(Render(rest)) == if HasUpper(rest) then None else Some(Repaired(rest))
    ensures Repair(p + EscapeRun(bs, sp) + Render(rest))
         == if AnyUpperU(sp) || HasUpper(rest) then None
            else Some(p + DecodeOrEmpty(bs) + Repaired(rest))
  {
    RenderNoLeadingToken(rest);
    RepairStep(p, bs, sp, Render(rest));
  }

  /** The repair property of a list of pieces, as the induction below carries it. */
  predicate RepairsAsCut(pieces: seq<Piece>) {
    Repair(Render(pieces)) == if HasUpper(pieces) then None else Some(Repaired(pieces))
  }

  lemma RepairPiecesLastText(pieces: seq<Piece>)
    requires WellCut(pieces) && |pieces| == 1 && pieces[0].Text?
    ensures RepairsAsCut(pieces)
  {
    var t := pieces[0].text;
    assert pieces[0] == Text(t) && pieces[1..] == [];
    assert Render(pieces) == t + Render([]);
    assert Repaired(pieces) == t + Repaired([]);
    assert t + [] == t;
    HasUpperCons(pieces);
    RepairPlain(t);
  }

  lemma UnfoldTextRun(pieces: seq<Piece>)
    requires |pieces| >= 2 && pieces[0].Text? && pieces[1].Escaped?
    requires |pieces[1].spelling| == |pieces[1].bytes|
    ensures Render(pieces)
         == pieces[0].text + EscapeRun(pieces[1].bytes, pieces[1].spelling) + Render(pieces[2..])
    ensures Repaired(pieces) == pieces[0].text + DecodeOrEmpty(pieces[1].bytes) + Repaired(pieces[2..])
  {
    assert pieces[1..][1..] == pieces[2..];
  }

  lemma RepairPiecesTextRun(pieces: seq<Piece>)
    requires WellCut(pieces) && |pieces| >= 2 && pieces[0].Text?
    requires RepairsAsCut(pieces[2..])
    ensures RepairsAsCut(pieces)
  {
    var t, bs, sp, rest := pieces[0].text, pieces[1].bytes, pieces[1].spelling, pieces[2..];
    assert pieces[1].Escaped? && bs != [] && |sp| == |bs| && Plain(t);
    WellCutTail(pieces, 2);
    assert rest != [] ==> rest[0] == pieces[2];
    UnfoldTextRun(pieces);
    RenderNoLeadingToken(rest);
    RepairStep(t, bs, sp, Render(rest));
    CombineOutcomes(t + DecodeOrEmpty(bs), Repair(Render(rest)), AnyUpperU(sp), HasUpper(rest), Repaired(rest));
    HasUpperCons(pieces);
    HasUpperCons(pieces[1..]);
    assert pieces[1..][1..] == rest;
  }

  lemma UnfoldRunFirst(pieces: seq<Piece>)
    requires |pieces| >= 1 && pieces[0].Escaped? && |pieces[0].spelling| == |pieces[0].bytes|
    ensures Render(pieces) == EscapeRun(pieces[0].bytes, pieces[0].spelling) + Render(pieces[1..])
    ensures Repaired(pieces) == DecodeOrEmpty(pieces[0].bytes) + Repaired(pieces[1..])
  {
  }

  /** How a run's outcome and the outcome of the rest of the text combine. */
  lemma CombineOutcomes(d: string, rest: Option<string>, sp: bool, restUpper: bool, restText: string)
    requires rest == if restUpper then None else Some(restText)
    ensures (if sp then None else Prepend(d, rest))
         == if sp || restUpper then None else Some(d + restText)
  {
  }

  lemma RepairPiecesRunFirst(pieces: seq<Piece>)
    requires WellCut(pieces) && |pieces| >= 1 && pieces[0].Escaped?
    requires RepairsAsCut(pieces[1..])
    ensures RepairsAsCut(pieces)
  {
    var bs, sp, rest := pieces[0].bytes, pieces[0].spelling, pieces[1..];
    assert bs != [] && |sp| == |bs|;
    WellCutTail(pieces, 1);
    assert rest != [] ==> rest[0] == pieces[1];
    UnfoldRunFirst(pieces);
    RenderNoLeadingToken(rest);
    RepairRunFirst(bs, sp, Render(rest));
    CombineOutcomes(DecodeOrEmpty(bs), Repair(Render(rest)), AnyUpperU(sp), HasUpper(rest), Repaired(rest));
    HasUpperCons(pieces);
  }

  /**
    The repair pass over a whole text: each plain stretch is kept as it is and
    each maximal run is replaced by the UTF-8 decoding of its bytes, or by
    nothing when they are not valid UTF-8; the pass fails when any run holds
    an upper-case `\U00` token.
  */
  lemma {:induction false} RepairPieces(pieces: seq<Piece>)
    requires WellCut(pieces)
    ensures Repair(Render(pieces)) == if HasUpper(pieces) then None else Some(Repaired(pieces))
    decreases |pieces|
  {
    if pieces == [] {
    } else if pieces[0].Text? && |pieces| == 1 {
      RepairPiecesLastText(pieces);
    } else if pieces[0].Text? {
      WellCutTail(pieces, 2);
      RepairPieces(pieces[2..]);
      RepairPiecesTextRun(pieces);
    } else {
      WellCutTail(pieces, 1);
      RepairPieces(pieces[1..]);
      RepairPiecesRunFirst(pieces);
    }
  }
}
