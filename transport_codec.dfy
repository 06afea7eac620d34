/**
 * The transport codec between text and the "byte string" the base64
 * collaborator accepts (one character per byte, each below 256).
 *
 * `utf8ToBinary` writes the UTF-8 bytes of a text one character per byte.
 * `binaryToUtf8` reads them back: with Node's `Buffer` it reinterprets the
 * characters as latin1 bytes and decodes them as UTF-8, replacing malformed
 * sequences by U+FFFD; without it, it percent-escapes every UTF-16 code unit
 * and hands the result to `decodeURIComponent`, and if that throws it returns
 * its input unchanged.
 */
module TransportCodec {
  import opened JsValues
  import opened Utf8

  /** A string whose every character is below 256. */
  predicate IsByteString(s: string)
  {
    forall i :: 0 <= i < |s| ==> s[i] as int < 0x100
  }

  /** One character per byte, as `String.fromCharCode` writes them. */
  function ByteString(bs: seq<byte>): (s: string)
    ensures |s| == |bs| && forall i :: 0 <= i < |bs| ==> s[i] as int == bs[i]
  {
    seq(|bs|, i requires 0 <= i < |bs| => bs[i] as char)
  }

  /** What `utf8ToBinary` computes. */
  function ToBinary(str: string): string
  {
    ByteString(Encode(str))
  }

  /** `utf8ToBinary`: the loop that appends one character per UTF-8 byte.
      (The source's `str || ""` only matters for non-string inputs, which a
      typed model does not have.) */
  method Utf8ToBinary(str: string) returns (out: string)
    ensures out == ToBinary(str)
    ensures |out| == |Encode(str)| && IsByteString(out)
  {
    var bytes := Encode(str);
    out := "";
    var i := 0;
    while i < |bytes|
      invariant 0 <= i <= |bytes|
      invariant |out| == i
      invariant forall j :: 0 <= j < i ==> out[j] as int == bytes[j]
    {
      out := out + [(bytes[i] % 0x100) as char];
      i := i + 1;
    }
  }

  // ---------------------------------------------------------------------------
  // The Buffer path

  /** `Buffer.from(bin, "binary")`: the low byte of every UTF-16 code unit. */
  function Latin1Bytes(bin: string): seq<byte>
  {
    if bin == [] then []
    else
      var us := Utf16Units(bin[0]);
      seq(|us|, i requires 0 <= i < |us| => us[i] % 0x100) + Latin1Bytes(bin[1..])
  }

  // ---------------------------------------------------------------------------
  // The percent-escape path

  function HexDigit(d: nat): char
    requires d < 16
  {
    "0123456789abcdef"[d]
  }

  /** `Number.prototype.toString(16)`. */
  function LowerHex(u: nat): string
  {
    if u < 16 then [HexDigit(u)] else LowerHex(u / 16) + [HexDigit(u % 16)]
  }

  /** `padStart(2, "0")`. */
  function PadStart2(h: string): string
  {
    if |h| >= 2 then h else seq(2 - |h|, _ => '0') + h
  }

  function EscapeUnit(u: nat): string
  {
    "%" + PadStart2(LowerHex(u))
  }

  function EscapeUnits(us: seq<nat>): string
  {
    if us == [] then [] else EscapeUnit(us[0]) + EscapeUnits(us[1..])
  }

  /** `bin.split("").map(ch => "%" + ...).join("")`. */
  function PercentEscape(bin: string): string
  {
    if bin == [] then [] else EscapeUnits(Utf16Units(bin[0])) + PercentEscape(bin[1..])
  }

  predicate IsHexDigit(c: char)
  {
    '0' <= c <= '9' || 'a' <= c <= 'f' || 'A' <= c <= 'F'
  }

  function HexDigitValue(c: char): (d: nat)
    requires IsHexDigit(c)
    ensures d < 16
  {
    if '0' <= c <= '9' then c as int - '0' as int
    else if 'a' <= c <= 'f' then c as int - 'a' as int + 10
    else c as int - 'A' as int + 10
  }

  /** Two hexadecimal digits at the start of `s`, read as one octet. */
  function ParseHexOctet(s: string): Option<byte>
  {
    if |s| < 2 || !IsHexDigit(s[0]) || !IsHexDigit(s[1]) then None
    else Some(HexDigitValue(s[0]) * 16 + HexDigitValue(s[1]))
  }

  /** The number of leading 1 bits of an octet. */
  function LeadingOnes(b: byte): nat
  {
    if b < 0x80 then 0
    else if b < 0xC0 then 1
    else if b < 0xE0 then 2
    else if b < 0xF0 then 3
    else if b < 0xF8 then 4
    else if b < 0xFC then 5
    else if b < 0xFE then 6
    else if b < 0xFF then 7
    else 8
  }

  /** `n` escapes `%hh` at the start of `s`, read as octets. */
  function EscapedOctets(s: string, n: nat): (r: Option<seq<byte>>)
    ensures r.Some? ==> |r.value| == n && 3 * n <= |s|
    decreases n
  {
    if n == 0 then Some([])
    else if |s| < 3 || s[0] != '%' then None
    else match ParseHexOctet(s[1..3])
      case None => None
      case Some(b) =>
        match EscapedOctets(s[3..], n - 1)
        case None => None
        case Some(rest) => Some([b] + rest)
  }

  function Prepend(c: char, r: Option<string>): Option<string>
  {
    match r
    case None => None
    case Some(s) => Some([c] + s)
  }

  /** `decodeURIComponent`, the Decode operation of ECMA-262 with an empty
      reserved set; None is the URIError it throws. A `%` must be followed by
      two hexadecimal digits; an octet below 80 is one character; otherwise its
      leading 1 bits give the length (2 to 4) of a run of escapes that must
      spell a well-formed UTF-8 sequence. */
  function DecodeUriComponent(s: string): Option<string>
    decreases |s|
  {
    if s == [] then Some([])
    else if s[0] != '%' then Prepend(s[0], DecodeUriComponent(s[1..]))
    else match ParseHexOctet(s[1..])
      case None => None
      case Some(b) =>
        var n := LeadingOnes(b);
        if n == 0 then Prepend(b as char, DecodeUriComponent(s[3..]))
        else if n == 1 || n > 4 then None
        else match EscapedOctets(s, n)
          case None => None
          case Some(octets) =>
            match DecodeScalar(octets)
            case None => None
            case Some((c, k)) =>
              if k == n then Prepend(c, DecodeUriComponent(s[3 * n..])) else None
  }

  /** `binaryToUtf8`; `hasBuffer` is the host's `typeof Buffer === "function"
      && Buffer.from`. It never fails. On a byte string holding well-formed
      UTF-8 both paths give the decoded text; on malformed UTF-8 the path
      without `Buffer` gives the input back unchanged. */
  function BinaryToUtf8(hasBuffer: bool, bin: string): (text: string)
    ensures IsByteString(bin) && Decode(Latin1Bytes(bin)).Some? ==> text == Decode(Latin1Bytes(bin)).value
    ensures IsByteString(bin) && Decode(Latin1Bytes(bin)).None? && !hasBuffer ==> text == bin
  {
    PercentPathIsStrict(bin);
    if hasBuffer then
      DecodeLenientOfStrict(Latin1Bytes(bin));
      DecodeLenient(Latin1Bytes(bin))
    else match DecodeUriComponent(PercentEscape(bin))
      case Some(text) => text
      case None => bin
  }

  /** Without `Buffer`, a byte string goes through strict UTF-8 decoding. */
  lemma PercentPathIsStrict(bin: string)
    ensures IsByteString(bin) ==> DecodeUriComponent(PercentEscape(bin)) == Decode(Latin1Bytes(bin))
  {
    if IsByteString(bin) {
      ByteStringOfLatin1(bin);
      PercentEscapeByteString(Latin1Bytes(bin));
      DecodeUriEscapedBytes(Latin1Bytes(bin));
    }
  }

  lemma DecodeLenientOfStrict(bs: seq<byte>)
    ensures Decode(bs).Some? ==> DecodeLenient(bs) == Decode(bs).value
  {
    if Decode(bs).Some? {
      LenientAgreesWithStrict(bs, Decode(bs).value);
    }
  }

  // ---------------------------------------------------------------------------
  // Lemmas

  /** The three-character escape of one octet. */
  function EscapeByte(b: byte): string
  {
    ['%', HexDigit(b / 16), HexDigit(b % 16)]
  }

  function EscapeBytes(bs: seq<byte>): string
  {
    if bs == [] then [] else EscapeByte(bs[0]) + EscapeBytes(bs[1..])
  }

  /** A unit below 256 is escaped as `%` and exactly two lower-case
      hexadecimal digits; a larger one takes more than three characters. */
  lemma EscapeUnitShape(u: nat)
    ensures u < 0x100 ==> EscapeUnit(u) == EscapeByte(u)
    ensures u >= 0x100 ==> |EscapeUnit(u)| > 3
  {
    if u < 16 {
      assert LowerHex(u) == [HexDigit(u)];
      assert u / 16 == 0;
    } else if u < 0x100 {
      assert LowerHex(u / 16) == [HexDigit(u / 16)];
    } else {
      LowerHexLength(u);
    }
  }

  lemma {:induction false} LowerHexLength(u: nat)
    ensures u >= 0x100 ==> |LowerHex(u)| >= 3
    ensures |LowerHex(u)| >= 1
  {
    if u >= 16 {
      LowerHexLength(u / 16);
    }
  }

  lemma {:induction false} EscapeBytesAppend(a: seq<byte>, b: seq<byte>)
    ensures EscapeBytes(a + b) == EscapeBytes(a) + EscapeBytes(b)
  {
    if a == [] {
      assert a + b == b;
    } else {
      assert (a + b)[0] == a[0] && (a + b)[1..] == a[1..] + b;
      EscapeBytesAppend(a[1..], b);
    }
  }

  /** On a byte string the escape is the three-character escape of every
      byte. */
  lemma {:induction false} PercentEscapeByteString(bs: seq<byte>)
    ensures PercentEscape(ByteString(bs)) == EscapeBytes(bs)
  {
    if bs != [] {
      var bin := ByteString(bs);
      assert Utf16Units(bin[0]) == [bs[0]];
      EscapeUnitShape(bs[0]);
      assert EscapeUnits([bs[0]]) == EscapeByte(bs[0]);
      assert bin[1..] == ByteString(bs[1..]);
      PercentEscapeByteString(bs[1..]);
    }
  }

  /** On a byte string `Buffer.from(bin, "binary")` gives back the bytes. */
  lemma {:induction false} Latin1ByteString(bs: seq<byte>)
    ensures Latin1Bytes(ByteString(bs)) == bs
  {
    if bs != [] {
      var bin := ByteString(bs);
      assert Utf16Units(bin[0]) == [bs[0]];
      assert bin[1..] == ByteString(bs[1..]);
      Latin1ByteString(bs[1..]);
      assert bs == [bs[0]] + bs[1..];
    }
  }

  lemma HexDigitRoundTrip(d: nat)
    requires d < 16
    ensures IsHexDigit(HexDigit(d)) && HexDigitValue(HexDigit(d)) == d
  {
  }

  lemma ParseEscapeByte(b: byte, t: string)
    ensures ParseHexOctet((EscapeByte(b) + t)[1..]) == Some(b)
    ensures ParseHexOctet((EscapeByte(b) + t)[1..3]) == Some(b)
  {
    HexDigitRoundTrip(b / 16);
    HexDigitRoundTrip(b % 16);
  }

  /** A run of escapes reads back as its octets. */
  lemma {:induction false} EscapedOctetsOf(bs: seq<byte>, t: string)
    ensures EscapedOctets(EscapeBytes(bs) + t, |bs|) == Some(bs)
  {
    if bs != [] {
      var rest := EscapeBytes(bs[1..]) + t;
      assert EscapeBytes(bs) == EscapeByte(bs[0]) + EscapeBytes(bs[1..]);
      assert EscapeBytes(bs) + t == EscapeByte(bs[0]) + rest;
      EscapedOctetsOf(bs[1..], t);
      EscapedOctetsCons(bs[0], rest, |bs| - 1, bs[1..]);
      assert [bs[0]] + bs[1..] == bs;
    }
  }

  lemma EscapedOctetsCons(b: byte, u: string, n: nat, rest: seq<byte>)
    requires EscapedOctets(u, n) == Some(rest)
    ensures EscapedOctets(EscapeByte(b) + u, n + 1) == Some([b] + rest)
  {
    ParseEscapeByte(b, u);
    assert (EscapeByte(b) + u)[3..] == u;
  }

  /** The lead byte's leading 1 bits count the bytes of a multi-byte
      encoding. */
  lemma LeadingOnesOfLead(c: char)
    ensures LeadingOnes(EncodeScalar(c)[0]) == if Width(c) == 1 then 0 else Width(c)
  {
  }

  /** `decodeURIComponent` reads the escaped UTF-8 of one scalar value back,
      whatever follows it. */
  lemma DecodeUriScalar(c: char, t: string)
    ensures DecodeUriComponent(EscapeBytes(EncodeScalar(c)) + t) == Prepend(c, DecodeUriComponent(t))
  {
    var bs := EncodeScalar(c);
    var s := EscapeBytes(bs) + t;
    EscapeBytesAppend([bs[0]], bs[1..]);
    assert [bs[0]] + bs[1..] == bs;
    assert EscapeBytes([bs[0]]) == EscapeByte(bs[0]);
    assert s == EscapeByte(bs[0]) + (EscapeBytes(bs[1..]) + t);
    ParseEscapeByte(bs[0], EscapeBytes(bs[1..]) + t);
    LeadingOnesOfLead(c);
    if Width(c) == 1 {
      assert s[3..] == t;
    } else {
      DecodeUriMultiByte(c, s, t);
    }
  }

  lemma DecodeUriMultiByte(c: char, s: string, t: string)
    requires Width(c) > 1 && s == EscapeBytes(EncodeScalar(c)) + t
    requires s[0] == '%' && ParseHexOctet(s[1..]) == Some(EncodeScalar(c)[0])
    requires LeadingOnes(EncodeScalar(c)[0]) == Width(c)
    ensures DecodeUriComponent(s) == Prepend(c, DecodeUriComponent(t))
  {
    var bs := EncodeScalar(c);
    var n := |bs|;
    EscapedOctetsOf(bs, t);
    assert EscapedOctets(s, n) == Some(bs);
    DecodeEncodeScalar(c, []);
    assert bs + [] == bs;
    assert DecodeScalar(bs) == Some((c, n));
    EscapeBytesLength(bs);
    assert s[3 * n..] == t;
  }

  lemma {:induction false} EscapeBytesLength(bs: seq<byte>)
    ensures |EscapeBytes(bs)| == 3 * |bs|
  {
    if bs != [] {
      EscapeBytesLength(bs[1..]);
    }
  }

  /** `decodeURIComponent` inverts the escaped UTF-8 encoding. */
  lemma {:induction false} DecodeUriEscapedEncode(text: string)
    ensures DecodeUriComponent(EscapeBytes(Encode(text))) == Some(text)
  {
    if text != [] {
      EscapeBytesAppend(EncodeScalar(text[0]), Encode(text[1..]));
      DecodeUriScalar(text[0], EscapeBytes(Encode(text[1..])));
      DecodeUriEscapedEncode(text[1..]);
      assert [text[0]] + text[1..] == text;
    } else {
      assert EscapeBytes([]) == [];
    }
  }

  /** For a byte below 80 or a lead byte the strict decoder accepts, the
      leading 1 bits `decodeURIComponent` counts give the same length; a byte
      `decodeURIComponent` rejects outright starts no well-formed sequence. */
  lemma LeadingOnesAgree(b: byte)
    ensures SequenceLength(b) != 0 ==> LeadingOnes(b) == if b < 0x80 then 0 else SequenceLength(b)
    ensures LeadingOnes(b) == 1 || LeadingOnes(b) > 4 ==> SequenceLength(b) == 0
  {
  }

  /** `decodeURIComponent` at an escaped lead byte announcing two to four
      bytes: it collects that many escaped octets and decodes them as one
      UTF-8 sequence of exactly that length. */
  lemma DecodeUriLead(s: string, b: byte, octets: seq<byte>)
    requires |s| >= 3 && s[0] == '%' && ParseHexOctet(s[1..]) == Some(b)
    requires 2 <= LeadingOnes(b) <= 4 && EscapedOctets(s, LeadingOnes(b)) == Some(octets)
    ensures var n := LeadingOnes(b);
            var d := DecodeScalar(octets);
            DecodeUriComponent(s)
            == if d.Some? && d.value.1 == n then Prepend(d.value.0, DecodeUriComponent(s[3 * n..])) else None
  {
  }

  /** The escapes of a non-empty byte sequence start with `%` and the two
      digits of its first byte. */
  lemma EscapedHead(bs: seq<byte>)
    requires bs != []
    ensures var s := EscapeBytes(bs);
            |s| >= 3 && s[0] == '%' && ParseHexOctet(s[1..]) == Some(bs[0])
  {
    var rest := EscapeBytes(bs[1..]);
    assert EscapeBytes(bs) == EscapeByte(bs[0]) + rest;
    ParseEscapeByte(bs[0], rest);
  }

  /** The escapes of `n` or more bytes hold `n` escaped octets, after which
      come the escapes of the rest. */
  lemma EscapedPrefix(bs: seq<byte>, n: nat)
    requires n <= |bs|
    ensures var s := EscapeBytes(bs);
            EscapedOctets(s, n) == Some(bs[..n]) && s[3 * n..] == EscapeBytes(bs[n..])
  {
    var octets, later := bs[..n], bs[n..];
    var head, tail := EscapeBytes(octets), EscapeBytes(later);
    assert EscapeBytes(bs) == head + tail by {
      EscapeBytesAppend(octets, later);
      assert octets + later == bs;
    }
    assert (head + tail)[3 * n..] == tail by {
      EscapeBytesLength(octets);
    }
    assert EscapedOctets(head + tail, n) == Some(octets) by {
      assert |octets| == n;
      EscapedOctetsOf(octets, tail);
    }
  }


  /** The multi-byte case of `DecodeUriEscapedStep`: a lead byte announcing
      `n` bytes, with `n` bytes present, collects exactly those `n` bytes. */
  lemma DecodeUriEscapedMulti(bs: seq<byte>, n: nat)
    requires 2 <= n <= 4 && n <= |bs| && n == LeadingOnes(bs[0])
    ensures DecodeScalar(bs).None? ==> DecodeUriComponent(EscapeBytes(bs)) == None
    ensures DecodeScalar(bs).Some? ==>
              && DecodeScalar(bs).value.1 == n
              && DecodeUriComponent(EscapeBytes(bs))
                 == Prepend(DecodeScalar(bs).value.0, DecodeUriComponent(EscapeBytes(bs[n..])))
  {
    EscapedHead(bs);
    EscapedPrefix(bs, n);
    assert DecodeScalar(bs[..n]) == DecodeScalar(bs) by {
      if SequenceLength(bs[0]) == 0 {
        assert bs[..n][0] == bs[0];
      } else {
        DecodeScalarPrefix(bs, n);
      }
    }
    LeadingOnesAgree(bs[0]);
    DecodeUriLead(EscapeBytes(bs), bs[0], bs[..n]);
  }



  /** `decodeURIComponent` of the escapes of any byte sequence is strict UTF-8
      decoding of it: the decoded text for well-formed UTF-8, a URIError
      otherwise. */
  lemma {:induction false} DecodeUriEscapedBytes(bs: seq<byte>)
    ensures DecodeUriComponent(EscapeBytes(bs)) == Decode(bs)
    decreases |bs|
  {
    if bs == [] {
      assert EscapeBytes(bs) == [];
    } else {
      DecodeUriEscapedStep(bs);
      if DecodeScalar(bs).Some? {
        DecodeUriEscapedBytes(bs[DecodeScalar(bs).value.1..]);
      }
    }
  }

  /** One step of `DecodeUriEscapedBytes`: decoding the escapes of a
      non-empty byte sequence decodes its first scalar value the way UTF-8
      does, then goes on with the escapes of the bytes after it. */
  lemma DecodeUriEscapedStep(bs: seq<byte>)
    requires bs != []
    ensures DecodeScalar(bs).None? ==> DecodeUriComponent(EscapeBytes(bs)) == None
    ensures DecodeScalar(bs).Some? ==>
              var k := DecodeScalar(bs).value.1;
              && 1 <= k <= |bs|
              && DecodeUriComponent(EscapeBytes(bs))
                 == Prepend(DecodeScalar(bs).value.0, DecodeUriComponent(EscapeBytes(bs[k..])))
  {
    var s := EscapeBytes(bs);
    var b := bs[0];
    var rest := EscapeBytes(bs[1..]);
    assert s == EscapeByte(b) + rest;
    ParseEscapeByte(b, rest);
    LeadingOnesAgree(b);
    var n := LeadingOnes(b);
    if n == 0 {
      assert s[3..] == rest;
      assert DecodeScalar(bs) == Some((b as char, 1));
    } else if n == 1 || n > 4 {
      assert DecodeScalar(bs) == None;
    } else if |bs| < n {
      EscapeBytesLength(bs);
      assert EscapedOctets(s, n) == None;
      assert DecodeScalar(bs) == None;
    } else {
      DecodeUriEscapedMulti(bs, n);
    }
  }


  /** A byte string is the one-character-per-byte form of its latin1 bytes. */
  lemma ByteStringOfLatin1(bin: string)
    requires IsByteString(bin)
    ensures ByteString(Latin1Bytes(bin)) == bin
  {
    var bs: seq<byte> := seq(|bin|, i requires 0 <= i < |bin| => bin[i] as int);
    assert ByteString(bs) == bin;
    Latin1ByteString(bs);
  }

  /** The codec's round trip: `binaryToUtf8(utf8ToBinary(s)) == s`, on both
      of its decode paths. */
  lemma BinaryToUtf8RoundTrip(hasBuffer: bool, text: string)
    ensures BinaryToUtf8(hasBuffer, ToBinary(text)) == text
  {
    if hasBuffer {
      Latin1ByteString(Encode(text));
      DecodeLenientEncode(text);
    } else {
      PercentEscapeByteString(Encode(text));
      DecodeUriEscapedEncode(text);
    }
  }

  /** When both decode paths are unusable the input comes back unchanged: a
      lone byte FF is no UTF-8, so without `Buffer` the escape `%ff` makes
      `decodeURIComponent` throw; with `Buffer` it becomes U+FFFD. */
  lemma MalformedInput()
    ensures BinaryToUtf8(false, [0xFF as char]) == [0xFF as char]
    ensures BinaryToUtf8(true, [0xFF as char]) == [Replacement]
  {
    var bin := [0xFF as char];
    assert Utf16Units(bin[0]) == [0xFF];
    EscapeUnitShape(0xFF);
    assert HexDigit(15) == 'f';
    assert EscapeUnits([0xFF]) == EscapeUnit(0xFF) + EscapeUnits([]);
    assert PercentEscape(bin) == EscapeUnits([0xFF]) + PercentEscape([]);
    assert PercentEscape(bin) == "%ff";
    assert ParseHexOctet("%ff"[1..]) == Some(0xFF);
    assert DecodeUriComponent("%ff") == None;
    var bytes := Latin1Bytes(bin);
    assert bytes == [0xFF] + Latin1Bytes([]);
    assert bytes == [0xFF] && SequenceLength(bytes[0]) == 0;
    assert DecodeScalar(bytes) == None;
    assert DecodeStepLenient(bytes) == (Replacement, 1);
    assert DecodeLenient(bytes) == [Replacement] + DecodeLenient(bytes[1..]);
    assert bytes[1..] == [];
  }
}
