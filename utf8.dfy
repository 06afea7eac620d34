/**
 * UTF-8 over Unicode scalar values: the encoder that stands in for the byte
 * collaborator's `utf8Bytes`, the strict decoder of one scalar value that
 * follows the table of well-formed byte sequences of the Unicode Standard
 * (Table 3-7), and the replacing decoder of the WHATWG Encoding Standard that
 * Node's `Buffer#toString("utf8")` implements.
 */
module Utf8 {
  import opened JsValues

  type byte = b: int | 0 <= b < 0x100

  const Replacement: char := '�'

  /** The number of bytes UTF-8 spends on `c`. */
  function Width(c: char): nat
  {
    var n := c as int;
    if n < 0x80 then 1 else if n < 0x800 then 2 else if n < 0x1_0000 then 3 else 4
  }

  function EncodeScalar(c: char): (bs: seq<byte>)
    ensures |bs| == Width(c)
  {
    var n := c as int;
    if n < 0x80 then [n]
    else if n < 0x800 then [0xC0 + n / 0x40, 0x80 + n % 0x40]
    else if n < 0x1_0000 then [0xE0 + n / 0x1000, 0x80 + n / 0x40 % 0x40, 0x80 + n % 0x40]
    else [0xF0 + n / 0x4_0000, 0x80 + n / 0x1000 % 0x40, 0x80 + n / 0x40 % 0x40, 0x80 + n % 0x40]
  }

  /** The UTF-8 bytes of a string, scalar value by scalar value. */
  function Encode(s: string): seq<byte>
  {
    if s == [] then [] else EncodeScalar(s[0]) + Encode(s[1..])
  }

  /** The length of the sequence a lead byte starts; 0 for a byte that cannot
      start a well-formed sequence (80..C1 and F5..FF). */
  function SequenceLength(lead: byte): nat
  {
    if lead < 0x80 then 1
    else if lead < 0xC2 then 0
    else if lead < 0xE0 then 2
    else if lead < 0xF0 then 3
    else if lead < 0xF5 then 4
    else 0
  }

  /** The range allowed for the byte after `lead` (narrower than 80..BF after
      E0, ED, F0 and F4, which excludes overlong forms, surrogates and values
      beyond 10FFFF). */
  function SecondLow(lead: byte): byte
  {
    if lead == 0xE0 then 0xA0 else if lead == 0xF0 then 0x90 else 0x80
  }

  function SecondHigh(lead: byte): byte
  {
    if lead == 0xED then 0x9F else if lead == 0xF4 then 0x8F else 0xBF
  }

  predicate IsContinuation(b: byte)
  {
    0x80 <= b <= 0xBF
  }

  /** How long the prefix of `bs` is that is consistent with a well-formed
      sequence started by its lead byte: the lead, then each following byte as
      long as it lies in its allowed range, at most `SequenceLength` bytes. */
  function ConformingLength(bs: seq<byte>): (k: nat)
    requires |bs| > 0 && SequenceLength(bs[0]) > 0
    ensures 1 <= k <= SequenceLength(bs[0]) && k <= |bs|
  {
    var n := SequenceLength(bs[0]);
    if n == 1 || |bs| < 2 || !(SecondLow(bs[0]) <= bs[1] <= SecondHigh(bs[0])) then 1
    else if n == 2 || |bs| < 3 || !IsContinuation(bs[2]) then 2
    else if n == 3 || |bs| < 4 || !IsContinuation(bs[3]) then 3
    else 4
  }

  /** The scalar value that `n` conforming bytes spell. */
  function CodePoint(bs: seq<byte>, n: nat): int
    requires 1 <= n <= 4 && n <= |bs|
  {
    var b0: int := bs[0];
    if n == 1 then b0
    else
      var b1: int := bs[1];
      if n == 2 then (b0 - 0xC0) * 0x40 + (b1 - 0x80)
      else
        var b2: int := bs[2];
        if n == 3 then (b0 - 0xE0) * 0x1000 + (b1 - 0x80) * 0x40 + (b2 - 0x80)
        else
          var b3: int := bs[3];
          (b0 - 0xF0) * 0x4_0000 + (b1 - 0x80) * 0x1000 + (b2 - 0x80) * 0x40 + (b3 - 0x80)
  }

  /** Strict decoding of the first scalar value of `bs`: the scalar value and
      the number of bytes it takes, or None when `bs` does not start with a
      well-formed sequence. */
  function DecodeScalar(bs: seq<byte>): (r: Option<(char, nat)>)
    ensures r.Some? ==> 1 <= r.value.1 <= |bs| && r.value.1 == Width(r.value.0)
    ensures r.Some? ==> r.value.1 == SequenceLength(bs[0])
  {
    if |bs| == 0 then None
    else
      var n := SequenceLength(bs[0]);
      if n == 0 || ConformingLength(bs) < n then None
      else
        var cp := CodePoint(bs, n);
        assert 0 <= cp < 0xD800 || 0xE000 <= cp < 0x11_0000;
        Some((cp as char, n))
  }

  /** The strict decoder looks no further than the sequence length its lead
      byte announces. */
  lemma DecodeScalarPrefix(bs: seq<byte>, m: nat)
    requires 0 < m <= |bs| && SequenceLength(bs[0]) <= m
    ensures DecodeScalar(bs[..m]) == DecodeScalar(bs)
  {
    var p := bs[..m];
    assert p[0] == bs[0];
    if SequenceLength(bs[0]) > 0 {
      assert forall j :: 0 <= j < SequenceLength(bs[0]) ==> p[j] == bs[j];
      assert ConformingLength(p) == ConformingLength(bs);
    }
  }

  /** Strict decoding of a whole byte sequence: None unless it is well-formed
      UTF-8. */
  function Decode(bs: seq<byte>): Option<string>
    decreases |bs|
  {
    if bs == [] then Some([])
    else match DecodeScalar(bs)
      case None => None
      case Some((c, k)) =>
        match Decode(bs[k..])
        case None => None
        case Some(rest) => Some([c] + rest)
  }

  /** One step of the replacing decoder: a well-formed sequence gives its
      scalar value; otherwise its maximal subpart (an invalid lead alone, or a
      lead with the continuation bytes that still fit) gives U+FFFD. */
  function DecodeStepLenient(bs: seq<byte>): (r: (char, nat))
    requires |bs| > 0
    ensures 1 <= r.1 <= |bs|
  {
    match DecodeScalar(bs)
    case Some(p) => p
    case None => (Replacement, if SequenceLength(bs[0]) == 0 then 1 else ConformingLength(bs))
  }

  /** The replacing decoder: never fails. */
  function DecodeLenient(bs: seq<byte>): string
    decreases |bs|
  {
    if bs == [] then []
    else
      var (c, k) := DecodeStepLenient(bs);
      [c] + DecodeLenient(bs[k..])
  }

  // ---------------------------------------------------------------------------
  // Lemmas

  /** Every scalar value's encoding is read back by the strict decoder,
      whatever follows it. */
  lemma DecodeEncodeScalar(c: char, rest: seq<byte>)
    ensures DecodeScalar(EncodeScalar(c) + rest) == Some((c, Width(c)))
  {
    var n := c as int;
    if n < 0x80 {
      assert (EncodeScalar(c) + rest)[0] == n;
    } else if n < 0x800 {
      DecodeEncodeTwo(c, rest);
    } else if n < 0x1_0000 {
      DecodeEncodeThree(c, rest);
    } else {
      DecodeEncodeFour(c, rest);
    }
  }

  lemma DecodeEncodeTwo(c: char, rest: seq<byte>)
    requires 0x80 <= c as int < 0x800
    ensures DecodeScalar(EncodeScalar(c) + rest) == Some((c, 2))
  {
    var n := c as int;
    var bs := EncodeScalar(c) + rest;
    assert bs[0] == 0xC0 + n / 0x40 && bs[1] == 0x80 + n % 0x40;
    assert SequenceLength(bs[0]) == 2 && ConformingLength(bs) == 2;
    assert CodePoint(bs, 2) == n;
  }

  lemma DecodeEncodeThree(c: char, rest: seq<byte>)
    requires 0x800 <= c as int < 0x1_0000
    ensures DecodeScalar(EncodeScalar(c) + rest) == Some((c, 3))
  {
    var n := c as int;
    var bs := EncodeScalar(c) + rest;
    var hi, mid, lo := n / 0x1000, n / 0x40 % 0x40, n % 0x40;
    SplitThree(n);
    assert bs[0] == 0xE0 + hi && bs[1] == 0x80 + mid && bs[2] == 0x80 + lo;
    assert SequenceLength(bs[0]) == 3;
    assert SecondLow(bs[0]) <= bs[1] <= SecondHigh(bs[0]);
    assert ConformingLength(bs) == 3;
    assert CodePoint(bs, 3) == hi * 0x1000 + mid * 0x40 + lo == n;
  }

  lemma DecodeEncodeFour(c: char, rest: seq<byte>)
    requires 0x1_0000 <= c as int
    ensures DecodeScalar(EncodeScalar(c) + rest) == Some((c, 4))
  {
    var n := c as int;
    var bs := EncodeScalar(c) + rest;
    var top, hi, mid, lo := n / 0x4_0000, n / 0x1000 % 0x40, n / 0x40 % 0x40, n % 0x40;
    SplitFour(n);
    assert bs[0] == 0xF0 + top && bs[1] == 0x80 + hi && bs[2] == 0x80 + mid && bs[3] == 0x80 + lo;
    assert SequenceLength(bs[0]) == 4;
    assert SecondLow(bs[0]) <= bs[1] <= SecondHigh(bs[0]);
    assert ConformingLength(bs) == 4;
    assert CodePoint(bs, 4) == top * 0x4_0000 + hi * 0x1000 + mid * 0x40 + lo == n;
  }

  /** The three-byte split of a value, with the ranges of its second byte
      after the leads E0 and ED. */
  lemma SplitThree(n: int)
    requires 0x800 <= n < 0x1_0000 && !(0xD800 <= n < 0xE000)
    ensures n / 0x1000 * 0x1000 + n / 0x40 % 0x40 * 0x40 + n % 0x40 == n
    ensures n / 0x1000 == 0 ==> n / 0x40 % 0x40 >= 0x20
    ensures n / 0x1000 == 0xD ==> n / 0x40 % 0x40 < 0x20
  {
    var q := n / 0x40;
    assert n == q * 0x40 + n % 0x40;
    assert q == q / 0x40 * 0x40 + q % 0x40;
    DivDiv(n, 0x40, 0x40);
  }

  /** The four-byte split of a value, with the ranges of its second byte
      after the leads F0 and F4. */
  lemma SplitFour(n: int)
    requires 0x1_0000 <= n < 0x11_0000
    ensures n / 0x4_0000 * 0x4_0000 + n / 0x1000 % 0x40 * 0x1000 + n / 0x40 % 0x40 * 0x40 + n % 0x40 == n
    ensures n / 0x4_0000 == 0 ==> n / 0x1000 % 0x40 >= 0x10
    ensures n / 0x4_0000 == 4 ==> n / 0x1000 % 0x40 < 0x10
  {
    var q := n / 0x40;
    var p := n / 0x1000;
    assert n == q * 0x40 + n % 0x40;
    assert q == q / 0x40 * 0x40 + q % 0x40;
    DivDiv(n, 0x40, 0x40);
    assert p == p / 0x40 * 0x40 + p % 0x40;
    DivDiv(n, 0x1000, 0x40);
  }

  /** Conversely, whatever the strict decoder reads is the encoding of what
      it returns: a well-formed sequence has exactly one reading. */
  lemma EncodeDecodeScalar(bs: seq<byte>)
    requires DecodeScalar(bs).Some?
    ensures var (c, k) := DecodeScalar(bs).value; bs[..k] == EncodeScalar(c)
  {
    var (c, k) := DecodeScalar(bs).value;
    if k == 2 {
      ReencodeTwo(bs[0], bs[1], c as int);
    } else if k == 3 {
      ReencodeThree(bs[0], bs[1], bs[2], c as int);
    } else if k == 4 {
      ReencodeFour(bs[0], bs[1], bs[2], bs[3], c as int);
    }
  }

  lemma ReencodeTwo(b0: int, b1: int, n: int)
    requires 0 <= b0 - 0xC0 < 0x20 && 0 <= b1 - 0x80 < 0x40
    requires n == (b0 - 0xC0) * 0x40 + (b1 - 0x80)
    ensures 0xC0 + n / 0x40 == b0 && 0x80 + n % 0x40 == b1
  {
  }

  lemma ReencodeThree(b0: int, b1: int, b2: int, n: int)
    requires 0 <= b0 - 0xE0 < 0x10 && 0 <= b1 - 0x80 < 0x40 && 0 <= b2 - 0x80 < 0x40
    requires n == (b0 - 0xE0) * 0x1000 + (b1 - 0x80) * 0x40 + (b2 - 0x80)
    ensures 0xE0 + n / 0x1000 == b0 && 0x80 + n / 0x40 % 0x40 == b1 && 0x80 + n % 0x40 == b2
  {
    var m := (b0 - 0xE0) * 0x40 + (b1 - 0x80);
    assert n == m * 0x40 + (b2 - 0x80);
    assert n / 0x40 == m && n % 0x40 == b2 - 0x80;
    assert m / 0x40 == b0 - 0xE0 && m % 0x40 == b1 - 0x80;
    DivDiv(n, 0x40, 0x40);
  }

  lemma ReencodeFour(b0: int, b1: int, b2: int, b3: int, n: int)
    requires 0 <= b0 - 0xF0 < 0x08 && 0 <= b1 - 0x80 < 0x40 && 0 <= b2 - 0x80 < 0x40 && 0 <= b3 - 0x80 < 0x40
    requires n == (b0 - 0xF0) * 0x4_0000 + (b1 - 0x80) * 0x1000 + (b2 - 0x80) * 0x40 + (b3 - 0x80)
    ensures 0xF0 + n / 0x4_0000 == b0 && 0x80 + n / 0x1000 % 0x40 == b1
    ensures 0x80 + n / 0x40 % 0x40 == b2 && 0x80 + n % 0x40 == b3
  {
    var m := (b0 - 0xF0) * 0x40 + (b1 - 0x80);
    var l := m * 0x40 + (b2 - 0x80);
    assert n == l * 0x40 + (b3 - 0x80);
    assert n / 0x40 == l && n % 0x40 == b3 - 0x80;
    assert l / 0x40 == m && l % 0x40 == b2 - 0x80;
    assert m / 0x40 == b0 - 0xF0 && m % 0x40 == b1 - 0x80;
    DivDiv(n, 0x40, 0x40);
    DivDiv(n, 0x1000, 0x40);
  }

  lemma DivDiv(n: int, a: int, b: int)
    requires 0 <= n && ((a == 0x40 && b == 0x40) || (a == 0x1000 && b == 0x40))
    ensures n / a / b == n / (a * b)
  {
    var q := n / a / b;
    var r := n / a % b;
    assert n / a == q * b + r;
    if a == 0x40 {
      assert n == q * 0x1000 + (r * 0x40 + n % 0x40);
    } else {
      assert n == q * 0x4_0000 + (r * 0x1000 + n % 0x1000);
    }
  }

  /** The strict decoder inverts the encoder. */
  lemma {:induction false} DecodeEncode(s: string)
    ensures Decode(Encode(s)) == Some(s)
  {
    if s != [] {
      DecodeEncodeScalar(s[0], Encode(s[1..]));
      assert (EncodeScalar(s[0]) + Encode(s[1..]))[Width(s[0])..] == Encode(s[1..]);
      DecodeEncode(s[1..]);
      assert [s[0]] + s[1..] == s;
    }
  }

  /** The well-formed byte sequences are exactly the encodings: what the strict
      decoder accepts re-encodes to the same bytes. */
  lemma {:induction false} EncodeDecode(bs: seq<byte>, s: string)
    requires Decode(bs) == Some(s)
    ensures Encode(s) == bs
    decreases |bs|
  {
    if bs != [] {
      var (c, k) := DecodeScalar(bs).value;
      var rest := Decode(bs[k..]).value;
      assert s == [c] + rest;
      EncodeDecode(bs[k..], rest);
      EncodeDecodeScalar(bs);
      EncodeCons(c, rest, bs, k);
    }
  }

  /** Encoding a string whose first scalar value encodes to the first `k`
      bytes and whose remainder encodes to the rest gives all the bytes. */
  lemma EncodeCons(c: char, rest: string, bs: seq<byte>, k: nat)
    requires k <= |bs| && EncodeScalar(c) == bs[..k] && Encode(rest) == bs[k..]
    ensures Encode([c] + rest) == bs
  {
    var s := [c] + rest;
    assert s[0] == c && s[1..] == rest;
    assert bs == bs[..k] + bs[k..];
  }

  /** On well-formed input the replacing decoder agrees with the strict one. */
  lemma {:induction false} LenientAgreesWithStrict(bs: seq<byte>, s: string)
    requires Decode(bs) == Some(s)
    ensures DecodeLenient(bs) == s
    decreases |bs|
  {
    if bs != [] {
      var (c, k) := DecodeScalar(bs).value;
      var rest :| Decode(bs[k..]) == Some(rest) && s == [c] + rest;
      LenientAgreesWithStrict(bs[k..], rest);
    }
  }

  /** Hence the replacing decoder also inverts the encoder. */
  lemma DecodeLenientEncode(s: string)
    ensures DecodeLenient(Encode(s)) == s
  {
    DecodeEncode(s);
    LenientAgreesWithStrict(Encode(s), s);
  }

  /** An invalid byte costs one U+FFFD and does not swallow what follows it. */
  lemma LenientReplacesInvalidLead(b: byte, s: string)
    requires SequenceLength(b) == 0
    ensures DecodeLenient([b] + Encode(s)) == [Replacement] + s
  {
    assert ([b] + Encode(s))[1..] == Encode(s);
    DecodeLenientEncode(s);
  }
}
