/** Base 64 encoding as defined in section 4 of RFC 4648: the 64-character
    alphabet, 24-bit quanta split into four 6-bit groups, and `=` padding for a
    final quantum of one or two bytes. The decoder is canonical in the sense of
    section 3.5 of RFC 4648: it refuses characters outside the alphabet,
    misplaced padding and non-zero pad bits, so decoding is exactly the inverse
    of encoding. */
module Base64 {
  import opened MailTypes

  /** The value of one encoding character. */
  type Sextet = x: int | 0 <= x < 64

  predicate IsAlphabetChar(c: char) {
    ('A' <= c <= 'Z') || ('a' <= c <= 'z') || ('0' <= c <= '9') || c == '+' || c == '/'
  }

  function CharValue(c: char): (v: Sextet)
    requires IsAlphabetChar(c)
  {
    if 'A' <= c <= 'Z' then c as int - 'A' as int
    else if 'a' <= c <= 'z' then c as int - 'a' as int + 26
    else if '0' <= c <= '9' then c as int - '0' as int + 52
    else if c == '+' then 62
    else 63
  }

  /** The character table of section 4 of RFC 4648. */
  function SextetChar(v: Sextet): (c: char)
    ensures IsAlphabetChar(c) && CharValue(c) == v
  {
    if v < 26 then ('A' as int + v) as char
    else if v < 52 then ('a' as int + (v - 26)) as char
    else if v < 62 then ('0' as int + (v - 52)) as char
    else if v == 62 then '+'
    else '/'
  }

  lemma CharValueInverse(c: char)
    requires IsAlphabetChar(c)
    ensures SextetChar(CharValue(c)) == c
  {
  }

  /** A full 24-bit quantum: four characters. */
  function EncodeQuantum(b0: Byte, b1: Byte, b2: Byte): (s: string) {
    [SextetChar(b0 / 4), SextetChar(b0 % 4 * 16 + b1 / 16), SextetChar(b1 % 16 * 4 + b2 / 64), SextetChar(b2 % 64)]
  }

  /** A final quantum of two bytes: three characters and one `=`. */
  function EncodeFinal2(b0: Byte, b1: Byte): (s: string) {
    [SextetChar(b0 / 4), SextetChar(b0 % 4 * 16 + b1 / 16), SextetChar(b1 % 16 * 4), '=']
  }

  /** A final quantum of one byte: two characters and `==`. */
  function EncodeFinal1(b0: Byte): (s: string) {
    [SextetChar(b0 / 4), SextetChar(b0 % 4 * 16), '=', '=']
  }

  /** `base64_encode`: every three bytes become four characters; only the last
      two characters can be padding. */
  function Encode(b: seq<Byte>): (s: string)
    ensures |s| == 4 * ((|b| + 2) / 3)
    ensures forall i :: 0 <= i < |s| ==> IsAlphabetChar(s[i]) || s[i] == '='
    ensures forall i :: 0 <= i < |s| - 2 ==> IsAlphabetChar(s[i])
    decreases |b|
  {
    if |b| == 0 then ""
    else if |b| == 1 then EncodeFinal1(b[0])
    else if |b| == 2 then EncodeFinal2(b[0], b[1])
    else EncodeQuantum(b[0], b[1], b[2]) + Encode(b[3..])
  }

  /** Four alphabet characters back to three bytes. */
  function DecodeQuantum(q: string): (r: Option<seq<Byte>>)
    requires |q| == 4
    ensures r.Some? ==> |r.value| == 3
  {
    if IsAlphabetChar(q[0]) && IsAlphabetChar(q[1]) && IsAlphabetChar(q[2]) && IsAlphabetChar(q[3]) then
      var v0, v1, v2, v3 := CharValue(q[0]), CharValue(q[1]), CharValue(q[2]), CharValue(q[3]);
      Some([v0 * 4 + v1 / 16, v1 % 16 * 16 + v2 / 4, v2 % 4 * 64 + v3])
    else
      None
  }

  /** The last four characters: a full quantum, or one padded with `=` or `==`
      whose unused bits are zero. */
  function DecodeFinal(q: string): (r: Option<seq<Byte>>)
    requires |q| == 4
    ensures r.Some? ==> 1 <= |r.value| <= 3
  {
    if q[2] == '=' && q[3] == '=' then
      if IsAlphabetChar(q[0]) && IsAlphabetChar(q[1]) && CharValue(q[1]) % 16 == 0 then
        Some([CharValue(q[0]) * 4 + CharValue(q[1]) / 16])
      else
        None
    else if q[3] == '=' then
      if IsAlphabetChar(q[0]) && IsAlphabetChar(q[1]) && IsAlphabetChar(q[2]) && CharValue(q[2]) % 4 == 0 then
        var v0, v1, v2 := CharValue(q[0]), CharValue(q[1]), CharValue(q[2]);
        Some([v0 * 4 + v1 / 16, v1 % 16 * 16 + v2 / 4])
      else
        None
    else
      DecodeQuantum(q)
  }

  /** Decoding of a base 64 string; None for anything `Encode` cannot produce. */
  function Decode(s: string): (r: Option<seq<Byte>>)
    ensures r.Some? ==> |s| == 4 * ((|r.value| + 2) / 3)
    decreases |s|
  {
    if |s| == 0 then Some([])
    else if |s| < 4 then None
    else if |s| == 4 then DecodeFinal(s)
    else
      match DecodeQuantum(s[..4])
      case None => None
      case Some(g) =>
        match Decode(s[4..])
        case None => None
        case Some(rest) => Some(g + rest)
  }

  lemma QuantumRoundTrip(b0: Byte, b1: Byte, b2: Byte)
    ensures DecodeQuantum(EncodeQuantum(b0, b1, b2)) == Some([b0, b1, b2])
    ensures DecodeFinal(EncodeQuantum(b0, b1, b2)) == Some([b0, b1, b2])
  {
    var q := EncodeQuantum(b0, b1, b2);
    assert CharValue(q[0]) == b0 / 4 && CharValue(q[1]) == b0 % 4 * 16 + b1 / 16;
    assert CharValue(q[2]) == b1 % 16 * 4 + b2 / 64 && CharValue(q[3]) == b2 % 64;
  }

  lemma Final1RoundTrip(b0: Byte)
    ensures DecodeFinal(EncodeFinal1(b0)) == Some([b0])
  {
    var q := EncodeFinal1(b0);
    assert CharValue(q[0]) == b0 / 4 && CharValue(q[1]) == b0 % 4 * 16;
  }

  lemma Final2RoundTrip(b0: Byte, b1: Byte)
    ensures DecodeFinal(EncodeFinal2(b0, b1)) == Some([b0, b1])
  {
    var q := EncodeFinal2(b0, b1);
    assert CharValue(q[0]) == b0 / 4 && CharValue(q[1]) == b0 % 4 * 16 + b1 / 16;
    assert CharValue(q[2]) == b1 % 16 * 4;
  }

  /** Decoding what was encoded gives the bytes back. */
  lemma {:induction false} DecodeEncode(b: seq<Byte>)
    ensures Decode(Encode(b)) == Some(b)
  {
    if |b| == 0 {
    } else if |b| == 1 {
      Final1RoundTrip(b[0]);
      assert [b[0]] == b;
    } else if |b| == 2 {
      Final2RoundTrip(b[0], b[1]);
      assert [b[0], b[1]] == b;
    } else if |b| == 3 {
      QuantumRoundTrip(b[0], b[1], b[2]);
      assert Encode(b) == EncodeQuantum(b[0], b[1], b[2]) + Encode(b[3..]);
      assert b[3..] == [];
      assert Encode(b) == EncodeQuantum(b[0], b[1], b[2]);
      assert [b[0], b[1], b[2]] == b;
    } else {
      var q := EncodeQuantum(b[0], b[1], b[2]);
      var s := Encode(b);
      assert s == q + Encode(b[3..]);
      assert s[..4] == q && s[4..] == Encode(b[3..]);
      QuantumRoundTrip(b[0], b[1], b[2]);
      DecodeEncode(b[3..]);
      assert [b[0], b[1], b[2]] + b[3..] == b;
    }
  }

  lemma QuantumInverse(q: string)
    requires |q| == 4 && DecodeQuantum(q).Some?
    ensures var g := DecodeQuantum(q).value; EncodeQuantum(g[0], g[1], g[2]) == q
  {
    var g := DecodeQuantum(q).value;
    var e := EncodeQuantum(g[0], g[1], g[2]);
    CharValueInverse(q[0]);
    CharValueInverse(q[1]);
    CharValueInverse(q[2]);
    CharValueInverse(q[3]);
    assert g[0] / 4 == CharValue(q[0]);
    assert g[0] % 4 * 16 + g[1] / 16 == CharValue(q[1]);
    assert g[1] % 16 * 4 + g[2] / 64 == CharValue(q[2]);
    assert g[2] % 64 == CharValue(q[3]);
    assert e[0] == q[0] && e[1] == q[1] && e[2] == q[2] && e[3] == q[3];
  }

  lemma FinalInverse(q: string)
    requires |q| == 4 && DecodeFinal(q).Some?
    ensures Encode(DecodeFinal(q).value) == q
  {
    var g := DecodeFinal(q).value;
    if q[2] == '=' && q[3] == '=' {
      CharValueInverse(q[0]);
      CharValueInverse(q[1]);
      var e := EncodeFinal1(g[0]);
      assert g[0] / 4 == CharValue(q[0]) && g[0] % 4 * 16 == CharValue(q[1]);
      assert e[0] == q[0] && e[1] == q[1];
    } else if q[3] == '=' {
      CharValueInverse(q[0]);
      CharValueInverse(q[1]);
      CharValueInverse(q[2]);
      var e := EncodeFinal2(g[0], g[1]);
      assert g[0] / 4 == CharValue(q[0]);
      assert g[0] % 4 * 16 + g[1] / 16 == CharValue(q[1]);
      assert g[1] % 16 * 4 == CharValue(q[2]);
      assert e[0] == q[0] && e[1] == q[1] && e[2] == q[2];
    } else {
      QuantumInverse(q);
      assert Encode(g) == EncodeQuantum(g[0], g[1], g[2]) + Encode(g[3..]);
    }
  }

  /** Whatever decodes is the encoding of what it decodes to: the decoder
      accepts only canonical encodings. */
  lemma {:induction false} EncodeDecode(s: string)
    requires Decode(s).Some?
    ensures Encode(Decode(s).value) == s
    decreases |s|
  {
    if |s| == 4 {
      FinalInverse(s);
    } else if |s| > 4 {
      var g := DecodeQuantum(s[..4]).value;
      var rest := Decode(s[4..]).value;
      EncodeDecode(s[4..]);
      QuantumInverse(s[..4]);
      var b := g + rest;
      assert |rest| > 0;
      assert b[3..] == rest;
      assert Encode(b) == EncodeQuantum(b[0], b[1], b[2]) + Encode(b[3..]);
      assert s == s[..4] + s[4..];
    }
  }

  /** Encoding and decoding are inverse to each other, in both directions. */
  lemma DecodeIffEncode(s: string, b: seq<Byte>)
    ensures Decode(s) == Some(b) <==> Encode(b) == s
  {
    if Decode(s) == Some(b) {
      EncodeDecode(s);
    }
    if Encode(b) == s {
      DecodeEncode(b);
    }
  }
}
