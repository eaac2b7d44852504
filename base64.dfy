/**
 * The base64 encoding of section 4 of RFC 4648, as `base64.b64encode` in
 * `to_data_url` applies it: every three bytes become four characters of
 * the 64-character alphabet, and a final group of one or two bytes is
 * padded with `=` to four characters.
 */
module Base64 {
  import opened Wrappers

  type byte = x: int | 0 <= x < 256
  type sextet = x: int | 0 <= x < 64

  /** The alphabet of Table 1 in section 4 of RFC 4648, in value order. */
  const Alphabet: string := UpperRun + LowerRun + DecimalRun + "+/"

  /** The character that encodes the 6-bit value `v`. */
  function Digit(v: sextet): (c: char)
    ensures IsDigit(c)
  {
    if v < 26 then ('A' as int + v) as char
    else if v < 52 then ('a' as int + (v - 26)) as char
    else if v < 62 then ('0' as int + (v - 52)) as char
    else if v == 62 then '+'
    else '/'
  }

  /** `c` is one of the 64 characters of the alphabet. */
  predicate IsDigit(c: char) {
    'A' <= c <= 'Z' || 'a' <= c <= 'z' || '0' <= c <= '9' || c == '+' || c == '/'
  }

  /** The 6-bit value of an alphabet character; None for any other character. */
  function DigitValue(c: char): (r: Option<sextet>)
    ensures r.Some? <==> IsDigit(c)
    ensures r.Some? ==> Digit(r.value) == c
  {
    if 'A' <= c <= 'Z' then Some(c as int - 'A' as int)
    else if 'a' <= c <= 'z' then Some(c as int - 'a' as int + 26)
    else if '0' <= c <= '9' then Some(c as int - '0' as int + 52)
    else if c == '+' then Some(62)
    else if c == '/' then Some(63)
    else None
  }

  lemma DigitValueOfDigit(v: sextet)
    ensures DigitValue(Digit(v)) == Some(v)
  {
  }

  /** The three runs of consecutive character codes that make up all of the alphabet but `+` and `/`. */
  const UpperRun: string := "ABCDEFGHIJKLMNOPQRSTUVWXYZ"
  const LowerRun: string := "abcdefghijklmnopqrstuvwxyz"
  const DecimalRun: string := "0123456789"

  /** `Digit` is the table of the standard: value `v` maps to `Alphabet[v]`. */
  lemma DigitIsAlphabet()
    ensures |Alphabet| == 64
    ensures forall v: sextet :: Digit(v) == Alphabet[v]
  {
    UpperRunCodes();
    LowerRunCodes();
    DecimalRunCodes();
    forall v: sextet
      ensures Digit(v) == Alphabet[v]
    {
      if v < 26 {
        assert Alphabet[v] == UpperRun[v];
      } else if v < 52 {
        assert Alphabet[v] == LowerRun[v - 26];
      } else if v < 62 {
        assert Alphabet[v] == DecimalRun[v - 52];
      }
    }
  }

  lemma UpperRunCodes()
    ensures forall i | 0 <= i < 26 :: UpperRun[i] == ('A' as int + i) as char
  {
    assert UpperRun == seq(26, (i: int) requires 0 <= i < 26 => ('A' as int + i) as char);
  }

  lemma LowerRunCodes()
    ensures forall i | 0 <= i < 26 :: LowerRun[i] == ('a' as int + i) as char
  {
    assert LowerRun == seq(26, (i: int) requires 0 <= i < 26 => ('a' as int + i) as char);
  }

  lemma DecimalRunCodes()
    ensures forall i | 0 <= i < 10 :: DecimalRun[i] == ('0' as int + i) as char
  {
    assert DecimalRun == seq(10, (i: int) requires 0 <= i < 10 => ('0' as int + i) as char);
  }

  /** Four characters for a full group of three bytes (24 bits, most significant first). */
  function EncodeGroup(b0: byte, b1: byte, b2: byte): string {
    [Digit(b0 / 4), Digit((b0 % 4) * 16 + b1 / 16), Digit((b1 % 16) * 4 + b2 / 64), Digit(b2 % 64)]
  }

  /** How many `=` end the encoding of `n` bytes: none, or two or one for a final group of one or two bytes. */
  function Padding(n: nat): (p: nat)
    ensures p <= 2
    ensures p == 0 <==> n % 3 == 0
  {
    (3 - n % 3) % 3
  }

  /** `base64.b64encode`: the encoded bytes as text. */
  function Encode(b: seq<byte>): (r: string)
    ensures |r| == 4 * ((|b| + 2) / 3)
    decreases |b|
  {
    if |b| == 0 then ""
    else if |b| == 1 then [Digit(b[0] / 4), Digit((b[0] % 4) * 16), '=', '=']
    else if |b| == 2 then [Digit(b[0] / 4), Digit((b[0] % 4) * 16 + b[1] / 16), Digit((b[1] % 16) * 4), '=']
    else EncodeGroup(b[0], b[1], b[2]) + Encode(b[3..])
  }

  /** The test vectors of section 10 of RFC 4648, for "", "f", "fo", "foo" and "foob": the bits go out most significant first. */
  lemma {:induction false} EncodeKnownAnswersShort()
    ensures Encode([]) == ""
    ensures Encode([102]) == "Zg=="
    ensures Encode([102, 111]) == "Zm8="
    ensures Encode([102, 111, 111]) == "Zm9v"
    ensures Encode([102, 111, 111, 98]) == "Zm9vYg=="
  {
    assert [102, 111, 111][3..] == [];
    assert [102, 111, 111, 98][3..] == [98];
  }

  /** The test vectors of section 10 of RFC 4648 for "fooba" and "foobar". */
  lemma {:induction false} EncodeKnownAnswersLong()
    ensures Encode([102, 111, 111, 98, 97]) == "Zm9vYmE="
    ensures Encode([102, 111, 111, 98, 97, 114]) == "Zm9vYmFy"
  {
    assert [102, 111, 111, 98, 97][3..] == [98, 97];
    assert [102, 111, 111, 98, 97, 114][3..] == [98, 97, 114];
    assert [98, 97, 114][3..] == [];
  }

  /**
   * The encoding uses only the alphabet and `=`, and `=` exactly in its
   * last `Padding(|b|)` positions: none, one or two.
   */
  lemma {:induction false} EncodeAlphabet(b: seq<byte>)
    ensures forall i | 0 <= i < |Encode(b)| :: IsDigit(Encode(b)[i]) || Encode(b)[i] == '='
    ensures forall i | 0 <= i < |Encode(b)| :: Encode(b)[i] == '=' <==> i >= |Encode(b)| - Padding(|b|)
    decreases |b|
  {
    if |b| >= 3 {
      var t := b[3..];
      EncodeAlphabet(t);
      var g, e := EncodeGroup(b[0], b[1], b[2]), Encode(t);
      assert Encode(b) == g + e;
      assert Padding(|b|) == Padding(|t|);
      forall i | 0 <= i < |g + e|
        ensures IsDigit((g + e)[i]) || (g + e)[i] == '='
        ensures (g + e)[i] == '=' <==> i >= |g + e| - Padding(|b|)
      {
        if i >= 4 {
          assert (g + e)[i] == e[i - 4];
        }
      }
    }
  }

  /** The three bytes of a group of four alphabet values. */
  function DecodeGroup(v0: sextet, v1: sextet, v2: sextet, v3: sextet): seq<byte> {
    [v0 * 4 + v1 / 16, (v1 % 16) * 16 + v2 / 4, (v2 % 4) * 64 + v3]
  }

  /**
   * Strict decoding of a base64 text: whole groups of four, `=` only as the
   * padding of the final group, and the unused low bits of a padded group
   * zero (the canonical encoding of section 3.5 of RFC 4648).
   */
  function Decode(s: string): (r: Option<seq<byte>>)
    decreases |s|
  {
    if |s| == 0 then Some([])
    else if |s| < 4 then None
    else
      var d0, d1, d2, d3 := DigitValue(s[0]), DigitValue(s[1]), DigitValue(s[2]), DigitValue(s[3]);
      if d0.None? || d1.None? then None
      else if |s| == 4 && s[2] == '=' && s[3] == '=' then
        if d1.value % 16 == 0 then Some([d0.value * 4 + d1.value / 16]) else None
      else if d2.None? then None
      else if |s| == 4 && s[3] == '=' then
        if d2.value % 4 == 0 then Some([d0.value * 4 + d1.value / 16, (d1.value % 16) * 16 + d2.value / 4])
        else None
      else if d3.None? then None
      else
        match Decode(s[4..])
        case None => None
        case Some(rest) => Some(DecodeGroup(d0.value, d1.value, d2.value, d3.value) + rest)
  }

  /** Decoding the encoding of any bytes gives those bytes back. */
  lemma {:induction false} DecodeEncode(b: seq<byte>)
    ensures Decode(Encode(b)) == Some(b)
    decreases |b|
  {
    if |b| == 1 {
      assert b == [b[0]];
      DecodeEncodeOne(b[0]);
    } else if |b| == 2 {
      assert b == [b[0], b[1]];
      DecodeEncodeTwo(b[0], b[1]);
    } else if |b| >= 3 {
      var t := b[3..];
      assert b == [b[0], b[1], b[2]] + t;
      DecodeEncode(t);
      DecodeEncodeGroup(b[0], b[1], b[2], t);
    }
  }

  lemma DecodeEncodeGroup(b0: byte, b1: byte, b2: byte, t: seq<byte>)
    requires Decode(Encode(t)) == Some(t)
    ensures Decode(Encode([b0, b1, b2] + t)) == Some([b0, b1, b2] + t)
  {
    var b := [b0, b1, b2] + t;
    assert b[3..] == t;
    var e := Encode(t);
    assert Encode(b) == EncodeGroup(b0, b1, b2) + e;
    DecodeFullGroup(b0, b1, b2, e);
    GroupRoundTrip(b0, b1, b2);
  }

  lemma DecodeEncodeOne(b0: byte)
    ensures Decode(Encode([b0])) == Some([b0])
  {
    var v0, v1 := b0 / 4, (b0 % 4) * 16;
    DigitValueOfDigit(v0);
    DigitValueOfDigit(v1);
    assert Encode([b0]) == [Digit(v0), Digit(v1), '=', '='];
  }

  lemma DecodeEncodeTwo(b0: byte, b1: byte)
    ensures Decode(Encode([b0, b1])) == Some([b0, b1])
  {
    var v0, v1, v2 := b0 / 4, (b0 % 4) * 16 + b1 / 16, (b1 % 16) * 4;
    DigitValueOfDigit(v0);
    DigitValueOfDigit(v1);
    DigitValueOfDigit(v2);
    PairRoundTrip(b0, b1);
    var r := Encode([b0, b1]);
    assert r == [Digit(v0), Digit(v1), Digit(v2), '='];
    assert Decode(r) == Some([v0 * 4 + v1 / 16, (v1 % 16) * 16 + v2 / 4]);
  }

  /** A full group in front of an encoded tail decodes to its three bytes in front of the tail's. */
  lemma DecodeFullGroup(b0: byte, b1: byte, b2: byte, t: string)
    requires Decode(t).Some?
    ensures Decode(EncodeGroup(b0, b1, b2) + t) ==
      Some(DecodeGroup(b0 / 4, (b0 % 4) * 16 + b1 / 16, (b1 % 16) * 4 + b2 / 64, b2 % 64) + Decode(t).value)
  {
    var v0, v1, v2, v3 := b0 / 4, (b0 % 4) * 16 + b1 / 16, (b1 % 16) * 4 + b2 / 64, b2 % 64;
    DigitValueOfDigit(v0);
    DigitValueOfDigit(v1);
    DigitValueOfDigit(v2);
    DigitValueOfDigit(v3);
    var r := EncodeGroup(b0, b1, b2) + t;
    assert r[0] == Digit(v0) && r[1] == Digit(v1) && r[2] == Digit(v2) && r[3] == Digit(v3);
    assert r[4..] == t;
  }

  /**
   * Conversely, whatever the strict decoder accepts is the encoding of what
   * it yields: encoding and decoding are inverse bijections between byte
   * strings and canonical base64 texts.
   */
  lemma {:induction false} EncodeDecode(s: string)
    requires Decode(s).Some?
    ensures Encode(Decode(s).value) == s
    decreases |s|
  {
    if |s| > 0 {
      var v0, v1 := DigitValue(s[0]).value, DigitValue(s[1]).value;
      if |s| == 4 && s[2] == '=' && s[3] == '=' {
        EncodeDecodeOne(s, v0, v1);
      } else {
        var v2 := DigitValue(s[2]).value;
        if |s| == 4 && s[3] == '=' {
          EncodeDecodeTwo(s, v0, v1, v2);
        } else {
          var v3 := DigitValue(s[3]).value;
          EncodeDecode(s[4..]);
          DecodeFront(s, v0, v1, v2, v3);
          EncodeDecodeGroup(s, v0, v1, v2, v3, Decode(s[4..]).value);
        }
      }
    }
  }

  lemma EncodeDecodeOne(s: string, v0: sextet, v1: sextet)
    requires |s| == 4 && s[2] == '=' && s[3] == '='
    requires DigitValue(s[0]) == Some(v0) && DigitValue(s[1]) == Some(v1) && v1 % 16 == 0
    ensures Decode(s) == Some([v0 * 4 + v1 / 16])
    ensures Encode([v0 * 4 + v1 / 16]) == s
  {
    var b0: byte := v0 * 4 + v1 / 16;
    assert b0 / 4 == v0 && (b0 % 4) * 16 == v1;
    assert Encode([b0]) == [Digit(v0), Digit(v1), '=', '='];
  }

  lemma EncodeDecodeTwo(s: string, v0: sextet, v1: sextet, v2: sextet)
    requires |s| == 4 && s[2] != '=' && s[3] == '='
    requires DigitValue(s[0]) == Some(v0) && DigitValue(s[1]) == Some(v1) && DigitValue(s[2]) == Some(v2)
    requires v2 % 4 == 0
    ensures Decode(s) == Some([v0 * 4 + v1 / 16, (v1 % 16) * 16 + v2 / 4])
    ensures Encode([v0 * 4 + v1 / 16, (v1 % 16) * 16 + v2 / 4]) == s
  {
    EncodePair(v0, v1, v2);
    assert s == [s[0], s[1], s[2], s[3]];
  }

  lemma EncodePair(v0: sextet, v1: sextet, v2: sextet)
    requires v2 % 4 == 0
    ensures Encode([v0 * 4 + v1 / 16, (v1 % 16) * 16 + v2 / 4]) == [Digit(v0), Digit(v1), Digit(v2), '=']
  {
    var b0: byte, b1: byte := v0 * 4 + v1 / 16, (v1 % 16) * 16 + v2 / 4;
    PairBits(v0, v1, v2);
    assert Encode([b0, b1]) == [Digit(b0 / 4), Digit((b0 % 4) * 16 + b1 / 16), Digit((b1 % 16) * 4), '='];
  }

  lemma PairBits(v0: sextet, v1: sextet, v2: sextet)
    requires v2 % 4 == 0
    ensures
      var b0, b1 := v0 * 4 + v1 / 16, (v1 % 16) * 16 + v2 / 4;
      b0 / 4 == v0 && (b0 % 4) * 16 + b1 / 16 == v1 && (b1 % 16) * 4 == v2
  {
  }

  lemma EncodeDecodeGroup(s: string, v0: sextet, v1: sextet, v2: sextet, v3: sextet, t: seq<byte>)
    requires |s| >= 4 && Encode(t) == s[4..]
    requires DigitValue(s[0]) == Some(v0) && DigitValue(s[1]) == Some(v1)
    requires DigitValue(s[2]) == Some(v2) && DigitValue(s[3]) == Some(v3)
    ensures Encode(DecodeGroup(v0, v1, v2, v3) + t) == s
  {
    var g := DecodeGroup(v0, v1, v2, v3);
    GroupBits(v0, v1, v2, v3);
    EncodeFront(g, t);
    assert s == [s[0], s[1], s[2], s[3]] + s[4..];
  }

  lemma DecodeFront(s: string, v0: sextet, v1: sextet, v2: sextet, v3: sextet)
    requires |s| >= 4 && Decode(s[4..]).Some?
    requires !(|s| == 4 && s[2] == '=' && s[3] == '=') && !(|s| == 4 && s[3] == '=')
    requires DigitValue(s[0]) == Some(v0) && DigitValue(s[1]) == Some(v1)
    requires DigitValue(s[2]) == Some(v2) && DigitValue(s[3]) == Some(v3)
    ensures Decode(s) == Some(DecodeGroup(v0, v1, v2, v3) + Decode(s[4..]).value)
  {
  }

  /** Re-encoding a decoded group gives back its four alphabet characters. */
  lemma GroupBits(v0: sextet, v1: sextet, v2: sextet, v3: sextet)
    ensures
      var g := DecodeGroup(v0, v1, v2, v3);
      EncodeGroup(g[0], g[1], g[2]) == [Digit(v0), Digit(v1), Digit(v2), Digit(v3)]
  {
    var g := DecodeGroup(v0, v1, v2, v3);
    var b0, b1, b2 := g[0], g[1], g[2];
    assert b0 / 4 == v0 && (b0 % 4) * 16 + b1 / 16 == v1 && (b1 % 16) * 4 + b2 / 64 == v2 && b2 % 64 == v3;
  }

  lemma EncodeFront(g: seq<byte>, t: seq<byte>)
    requires |g| == 3
    ensures Encode(g + t) == EncodeGroup(g[0], g[1], g[2]) + Encode(t)
  {
    assert (g + t)[3..] == t;
    assert (g + t)[0] == g[0] && (g + t)[1] == g[1] && (g + t)[2] == g[2];
  }

  lemma PairRoundTrip(b0: byte, b1: byte)
    ensures ((b0 % 4) * 16 + b1 / 16) / 16 == b0 % 4
    ensures ((b0 % 4) * 16 + b1 / 16) % 16 == b1 / 16
    ensures ((b1 % 16) * 4) / 4 == b1 % 16 && ((b1 % 16) * 4) % 4 == 0
  {
  }

  lemma GroupRoundTrip(b0: byte, b1: byte, b2: byte)
    ensures DecodeGroup(b0 / 4, (b0 % 4) * 16 + b1 / 16, (b1 % 16) * 4 + b2 / 64, b2 % 64) == [b0, b1, b2]
  {
  }
}
