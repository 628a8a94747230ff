/** Base64 transport decoding as the browser's `atob` performs it (the
    "forgiving-base64 decode" of the WHATWG Infra standard), and the
    standard padded encoder it inverts. */
module Base64 {
  import opened Wrappers

  type uint8 = x: int | 0 <= x < 256

  /** Why `atob` throws `InvalidCharacterError`. */
  datatype Base64Error =
    | LengthRemainderOne   // after whitespace and padding removal, length % 4 == 1
    | NotInAlphabet        // a code point outside A-Z a-z 0-9 + / remains

  // ----- the alphabet -----

  predicate IsAsciiWhitespace(c: char) {
    c == '\t' || c == '\n' || c == '\U{000C}' || c == '\r' || c == ' '
  }

  predicate IsBase64Char(c: char) {
    ('A' <= c <= 'Z') || ('a' <= c <= 'z') || ('0' <= c <= '9') || c == '+' || c == '/'
  }

  /** The 6-bit value a base64 character stands for. */
  function SixBits(c: char): (v: nat)
    requires IsBase64Char(c)
    ensures v < 64
  {
    if 'A' <= c <= 'Z' then c as int - 'A' as int
    else if 'a' <= c <= 'z' then 26 + (c as int - 'a' as int)
    else if '0' <= c <= '9' then 52 + (c as int - '0' as int)
    else if c == '+' then 62
    else 63
  }

  /** The base64 character for a 6-bit value. */
  function Digit(v: nat): char
    requires v < 64
  {
    if v < 26 then ('A' as int + v) as char
    else if v < 52 then ('a' as int + (v - 26)) as char
    else if v < 62 then ('0' as int + (v - 52)) as char
    else if v == 62 then '+'
    else '/'
  }

  /** `Digit` and `SixBits` are inverse: every 6-bit value has a digit of
      the alphabet that reads back as that value. */
  lemma DigitInverse(v: nat)
    requires v < 64
    ensures IsBase64Char(Digit(v)) && SixBits(Digit(v)) == v
  {
  }

  /** Distinct characters of the alphabet stand for distinct values. */
  lemma SixBitsInjective(c: char, d: char)
    requires IsBase64Char(c) && IsBase64Char(d) && SixBits(c) == SixBits(d)
    ensures c == d
  {
  }

  // ----- forgiving-base64 decode -----

  predicate AllBase64(s: string) {
    forall i :: 0 <= i < |s| ==> IsBase64Char(s[i])
  }

  /** Step 1: remove all ASCII whitespace. */
  function StripWhitespace(s: string): (r: string)
    ensures |r| <= |s|
    ensures forall i :: 0 <= i < |r| ==> !IsAsciiWhitespace(r[i])
  {
    if s == [] then []
    else if IsAsciiWhitespace(s[0]) then StripWhitespace(s[1..])
    else [s[0]] + StripWhitespace(s[1..])
  }

  /** Removing whitespace works character by character: it distributes over
      concatenation, drops a whitespace character and keeps any other, so
      the result is the non-whitespace characters of `s` in their order. */
  lemma {:induction false} StripWhitespaceAppend(a: string, b: string)
    ensures StripWhitespace(a + b) == StripWhitespace(a) + StripWhitespace(b)
    ensures |a| == 1 && IsAsciiWhitespace(a[0]) ==> StripWhitespace(a) == []
    ensures |a| == 1 && !IsAsciiWhitespace(a[0]) ==> StripWhitespace(a) == a
    decreases |a|
  {
    if a == [] {
      assert a + b == b;
    } else {
      assert (a + b)[1..] == a[1..] + b;
      StripWhitespaceAppend(a[1..], b);
      if |a| == 1 {
        assert a[1..] == [];
      }
    }
  }

  /** Step 2: when the length is a multiple of 4, drop one or two trailing
      `=`. A third `=` is left in place, and step 4 then rejects it. */
  function StripPadding(s: string): (r: string)
    ensures |s| - 2 <= |r| <= |s| && r == s[..|r|]
    ensures forall k :: |r| <= k < |s| ==> s[k] == '='
    ensures |r| < |s| ==> |s| % 4 == 0
    ensures |s| % 4 == 0 && |s| >= 1 && s[|s| - 1] == '=' ==> |r| < |s|
    ensures |s| % 4 == 0 && |s| >= 2 && s[|s| - 2] == '=' && s[|s| - 1] == '=' ==> |r| == |s| - 2
  {
    if |s| % 4 == 0 && |s| >= 2 && s[|s| - 2] == '=' && s[|s| - 1] == '=' then s[..|s| - 2]
    else if |s| % 4 == 0 && |s| >= 1 && s[|s| - 1] == '=' then s[..|s| - 1]
    else s
  }

  /** Steps 5-8: read the characters as 6-bit groups into a 24-bit
      buffer; every four characters give three bytes, a final pair gives one
      byte (its last 4 bits discarded), a final triple gives two bytes (its
      last 2 bits discarded). */
  function DecodeGroups(d: string): seq<uint8>
    requires AllBase64(d) && |d| % 4 != 1
  {
    if |d| == 0 then []
    else if |d| == 2 then
      [FirstByte(SixBits(d[0]), SixBits(d[1]))]
    else if |d| == 3 then
      [FirstByte(SixBits(d[0]), SixBits(d[1])), SecondByte(SixBits(d[1]), SixBits(d[2]))]
    else
      [FirstByte(SixBits(d[0]), SixBits(d[1])), SecondByte(SixBits(d[1]), SixBits(d[2])),
       ThirdByte(SixBits(d[2]), SixBits(d[3]))]
        + DecodeGroups(d[4..])
  }

  /** The bytes of a 24-bit group `a b c d` of 6-bit values: the first byte
      is `a` and the top 2 bits of `b`, the second the low 4 bits of `b` and
      the top 4 of `c`, the third the low 2 bits of `c` and `d`. */
  function FirstByte(a: nat, b: nat): uint8
    requires a < 64 && b < 64
  {
    a * 4 + b / 16
  }

  function SecondByte(b: nat, c: nat): uint8
    requires b < 64 && c < 64
  {
    (b % 16) * 16 + c / 4
  }

  function ThirdByte(c: nat, d: nat): uint8
    requires c < 64 && d < 64
  {
    (c % 4) * 64 + d
  }

  /** `atob`, with its result as bytes: each code unit of the binary string
      it returns is one byte. */
  function Decode(s: string): (r: Result<seq<uint8>, Base64Error>)
    ensures r.Failure? <==>
      |StripPadding(StripWhitespace(s))| % 4 == 1 || !AllBase64(StripPadding(StripWhitespace(s)))
    ensures r.Failure? && |StripPadding(StripWhitespace(s))| % 4 == 1 ==> r.error == LengthRemainderOne
    ensures r.Failure? && |StripPadding(StripWhitespace(s))| % 4 != 1 ==> r.error == NotInAlphabet
  {
    var d := StripPadding(StripWhitespace(s));
    if |d| % 4 == 1 then Failure(LengthRemainderOne)
    else if !AllBase64(d) then Failure(NotInAlphabet)
    else Success(DecodeGroups(d))
  }

  /** The binary string `atob` returns: one character per byte. */
  function Latin1(bytes: seq<uint8>): (s: string)
    ensures |s| == |bytes| && forall i :: 0 <= i < |s| ==> s[i] as int == bytes[i]
  {
    seq(|bytes|, i requires 0 <= i < |bytes| => bytes[i] as char)
  }

  function Atob(s: string): Result<string, Base64Error> {
    match Decode(s)
    case Success(bytes) => Success(Latin1(bytes))
    case Failure(e) => Failure(e)
  }

  // ----- the padded encoder (`btoa` on a binary string) -----

  /** The base64 digits of `bytes`, without padding: each three bytes
      give four digits, a final byte two and a final pair three, the unused
      low bits zero. */
  function EncodeBody(bytes: seq<uint8>): string {
    if |bytes| == 0 then []
    else if |bytes| == 1 then
      [Digit(bytes[0] / 4), Digit((bytes[0] % 4) * 16)]
    else if |bytes| == 2 then
      [Digit(bytes[0] / 4), Digit((bytes[0] % 4) * 16 + bytes[1] / 16), Digit((bytes[1] % 16) * 4)]
    else
      [Digit(bytes[0] / 4), Digit((bytes[0] % 4) * 16 + bytes[1] / 16),
       Digit((bytes[1] % 16) * 4 + bytes[2] / 64), Digit(bytes[2] % 64)]
        + EncodeBody(bytes[3..])
  }

  function Padding(bytes: seq<uint8>): string {
    if |bytes| % 3 == 1 then "==" else if |bytes| % 3 == 2 then "=" else ""
  }

  function Encode(bytes: seq<uint8>): string {
    EncodeBody(bytes) + Padding(bytes)
  }

  // ----- round trip -----

  lemma GroupBytes(b0: uint8, b1: uint8, b2: uint8)
    ensures FirstByte(b0 / 4, (b0 % 4) * 16 + b1 / 16) == b0
    ensures SecondByte((b0 % 4) * 16 + b1 / 16, (b1 % 16) * 4 + b2 / 64) == b1
    ensures ThirdByte((b1 % 16) * 4 + b2 / 64, b2 % 64) == b2
  {
  }

  /** The number of digits for `n` bytes: four per three bytes, two for a
      final byte, three for a final pair. */
  function DigitCount(n: nat): nat {
    if n == 0 then 0 else if n == 1 then 2 else if n == 2 then 3 else 4 + DigitCount(n - 3)
  }

  lemma {:induction false} DigitCountMod(n: nat)
    ensures DigitCount(n) % 4 == (if n % 3 == 0 then 0 else n % 3 + 1)
    ensures DigitCount(n) >= n
    decreases n
  {
    if n >= 3 {
      DigitCountMod(n - 3);
      assert n % 3 == (n - 3) % 3;
    }
  }

  lemma {:induction false} EncodeBodyLength(bytes: seq<uint8>)
    ensures |EncodeBody(bytes)| == DigitCount(|bytes|)
    decreases |bytes|
  {
    if |bytes| >= 3 {
      EncodeBodyLength(bytes[3..]);
    }
  }

  /** Padding brings every encoding to a multiple of four characters. */
  lemma EncodeLength(bytes: seq<uint8>)
    ensures |Encode(bytes)| % 4 == 0
    ensures |EncodeBody(bytes)| % 4 == (if |bytes| % 3 == 0 then 0 else |bytes| % 3 + 1)
  {
    EncodeBodyLength(bytes);
    DigitCountMod(|bytes|);
    var body, pad := EncodeBody(bytes), Padding(bytes);
    assert |Encode(bytes)| == |body| + |pad|;
    assert |pad| == (if |bytes| % 3 == 0 then 0 else 3 - |bytes| % 3);
    FillsGroup(|body|, |pad|);
  }

  lemma FillsGroup(x: nat, p: nat)
    requires (x % 4 == 0 && p == 0) || x % 4 + p == 4
    ensures (x + p) % 4 == 0
  {
    assert x == 4 * (x / 4) + x % 4;
  }

  /** The encoder only writes digits of the alphabet. */
  lemma {:induction false} EncodeBodyAllBase64(bytes: seq<uint8>)
    ensures AllBase64(EncodeBody(bytes))
    decreases |bytes|
  {
    if |bytes| == 0 {
    } else if |bytes| == 1 {
      DigitInverse(bytes[0] / 4);
      DigitInverse((bytes[0] % 4) * 16);
    } else if |bytes| == 2 {
      DigitInverse(bytes[0] / 4);
      DigitInverse((bytes[0] % 4) * 16 + bytes[1] / 16);
      DigitInverse((bytes[1] % 16) * 4);
    } else {
      DigitInverse(bytes[0] / 4);
      DigitInverse((bytes[0] % 4) * 16 + bytes[1] / 16);
      DigitInverse((bytes[1] % 16) * 4 + bytes[2] / 64);
      DigitInverse(bytes[2] % 64);
      EncodeBodyAllBase64(bytes[3..]);
      var q := [Digit(bytes[0] / 4), Digit((bytes[0] % 4) * 16 + bytes[1] / 16),
                Digit((bytes[1] % 16) * 4 + bytes[2] / 64), Digit(bytes[2] % 64)];
      assert EncodeBody(bytes) == q + EncodeBody(bytes[3..]);
      assert AllBase64(q);
    }
  }

  lemma DecodeDigits2(b0: uint8)
    ensures var e := [Digit(b0 / 4), Digit((b0 % 4) * 16)];
      AllBase64(e) && DecodeGroups(e) == [b0]
  {
    var e := [Digit(b0 / 4), Digit((b0 % 4) * 16)];
    DigitInverse(b0 / 4);
    DigitInverse((b0 % 4) * 16);
    assert SixBits(e[0]) == b0 / 4 && SixBits(e[1]) == (b0 % 4) * 16;
    GroupBytes(b0, 0, 0);
  }

  lemma DecodeDigits3(b0: uint8, b1: uint8)
    ensures var e := [Digit(b0 / 4), Digit((b0 % 4) * 16 + b1 / 16), Digit((b1 % 16) * 4)];
      AllBase64(e) && DecodeGroups(e) == [b0, b1]
  {
    var e := [Digit(b0 / 4), Digit((b0 % 4) * 16 + b1 / 16), Digit((b1 % 16) * 4)];
    DigitInverse(b0 / 4);
    DigitInverse((b0 % 4) * 16 + b1 / 16);
    DigitInverse((b1 % 16) * 4);
    assert SixBits(e[0]) == b0 / 4 && SixBits(e[1]) == (b0 % 4) * 16 + b1 / 16;
    assert SixBits(e[2]) == (b1 % 16) * 4;
    GroupBytes(b0, b1, 0);
  }

  lemma DecodeDigits4(b0: uint8, b1: uint8, b2: uint8, rest: string)
    requires AllBase64(rest) && |rest| % 4 != 1
    ensures var e := [Digit(b0 / 4), Digit((b0 % 4) * 16 + b1 / 16),
                      Digit((b1 % 16) * 4 + b2 / 64), Digit(b2 % 64)] + rest;
      AllBase64(e) && |e| % 4 != 1 && DecodeGroups(e) == [b0, b1, b2] + DecodeGroups(rest)
  {
    var q := [Digit(b0 / 4), Digit((b0 % 4) * 16 + b1 / 16), Digit((b1 % 16) * 4 + b2 / 64), Digit(b2 % 64)];
    var e := q + rest;
    DigitInverse(b0 / 4);
    DigitInverse((b0 % 4) * 16 + b1 / 16);
    DigitInverse((b1 % 16) * 4 + b2 / 64);
    DigitInverse(b2 % 64);
    assert e[..4] == q && e[4..] == rest;
    assert SixBits(e[0]) == b0 / 4 && SixBits(e[1]) == (b0 % 4) * 16 + b1 / 16;
    assert SixBits(e[2]) == (b1 % 16) * 4 + b2 / 64 && SixBits(e[3]) == b2 % 64;
    GroupBytes(b0, b1, b2);
  }

  /** The round trip of the unpadded digits for a final byte or pair. */
  lemma DecodeEncodeShort(bytes: seq<uint8>)
    requires 1 <= |bytes| <= 2
    ensures AllBase64(EncodeBody(bytes)) && |EncodeBody(bytes)| % 4 != 1
    ensures DecodeGroups(EncodeBody(bytes)) == bytes
  {
    EncodeBodyAllBase64(bytes);
    EncodeLength(bytes);
    if |bytes| == 1 {
      var b0 := bytes[0];
      assert EncodeBody(bytes) == [Digit(b0 / 4), Digit((b0 % 4) * 16)];
      DecodeDigits2(b0);
      assert bytes == [b0];
    } else {
      var b0, b1 := bytes[0], bytes[1];
      assert EncodeBody(bytes) == [Digit(b0 / 4), Digit((b0 % 4) * 16 + b1 / 16), Digit((b1 % 16) * 4)];
      DecodeDigits3(b0, b1);
      assert bytes == [b0, b1];
    }
  }

  /** One full group: the round trip of the rest extends to the bytes. */
  lemma DecodeEncodeStep(bytes: seq<uint8>)
    requires |bytes| >= 3
    requires AllBase64(EncodeBody(bytes[3..])) && |EncodeBody(bytes[3..])| % 4 != 1
    requires DecodeGroups(EncodeBody(bytes[3..])) == bytes[3..]
    ensures AllBase64(EncodeBody(bytes)) && |EncodeBody(bytes)| % 4 != 1
    ensures DecodeGroups(EncodeBody(bytes)) == bytes
  {
    var b0, b1, b2 := bytes[0], bytes[1], bytes[2];
    var rest := EncodeBody(bytes[3..]);
    assert EncodeBody(bytes) == [Digit(b0 / 4), Digit((b0 % 4) * 16 + b1 / 16),
                                 Digit((b1 % 16) * 4 + b2 / 64), Digit(b2 % 64)] + rest;
    DecodeDigits4(b0, b1, b2, rest);
    assert bytes == [b0, b1, b2] + bytes[3..];
  }

  /** Decoding the unpadded digits gives the bytes back. */
  lemma {:induction false} DecodeEncodeBody(bytes: seq<uint8>)
    ensures AllBase64(EncodeBody(bytes)) && |EncodeBody(bytes)| % 4 != 1
    ensures DecodeGroups(EncodeBody(bytes)) == bytes
    decreases |bytes|
  {
    if |bytes| == 0 {
    } else if |bytes| <= 2 {
      DecodeEncodeShort(bytes);
    } else {
      DecodeEncodeBody(bytes[3..]);
      DecodeEncodeStep(bytes);
    }
  }

  lemma StripWhitespaceOfBase64(s: string)
    requires forall i :: 0 <= i < |s| ==> !IsAsciiWhitespace(s[i])
    ensures StripWhitespace(s) == s
  {
    if s != [] {
      StripWhitespaceOfBase64(s[1..]);
    }
  }

  /** Padding removal recovers exactly the digits. */
  lemma StripPaddingOfEncode(bytes: seq<uint8>)
    ensures StripPadding(Encode(bytes)) == EncodeBody(bytes)
  {
    var body := EncodeBody(bytes);
    var e := Encode(bytes);
    EncodeLength(bytes);
    EncodeBodyAllBase64(bytes);
    if |bytes| % 3 == 0 {
      assert e == body;
      if |body| >= 1 {
        assert IsBase64Char(body[|body| - 1]);
      }
    } else if |bytes| % 3 == 2 {
      assert e[..|e| - 1] == body;
      assert IsBase64Char(body[|body| - 1]);
    } else {
      assert e[..|e| - 2] == body;
    }
  }

  /** `atob` inverts the padded encoder: the transport encoding of any byte
      sequence decodes back to that sequence. */
  lemma DecodeEncode(bytes: seq<uint8>)
    ensures Decode(Encode(bytes)) == Success(bytes)
  {
    var e := Encode(bytes);
    var body := EncodeBody(bytes);
    EncodeBodyAllBase64(bytes);
    assert forall i :: 0 <= i < |e| ==> !IsAsciiWhitespace(e[i]) by {
      forall i | 0 <= i < |e|
        ensures !IsAsciiWhitespace(e[i])
      {
        if i < |body| {
          assert e[i] == body[i] && IsBase64Char(body[i]);
        } else {
          assert e[i] == Padding(bytes)[i - |body|];
        }
      }
    }
    StripWhitespaceOfBase64(e);
    StripPaddingOfEncode(bytes);
    EncodeLength(bytes);
    DecodeEncodeBody(bytes);
  }

  /** Padded, unpadded and whitespace-broken transport text all decode. */
  lemma DecodePadded()
    ensures Decode("QQ==") == Success([65])
  {
    assert StripWhitespace("QQ==") == "QQ==";
    assert StripPadding("QQ==") == "QQ";
    assert SixBits('Q') == 16;
  }

  lemma DecodeWithWhitespace()
    ensures Decode(" Q Q ") == Success([65])
  {
    assert StripWhitespace(" Q Q ") == "QQ";
    assert SixBits('Q') == 16;
  }

  lemma DecodeFullGroup()
    ensures Decode("QUJD") == Success([65, 66, 67])
  {
    assert StripWhitespace("QUJD") == "QUJD";
    assert StripPadding("QUJD") == "QUJD";
    assert SixBits('Q') == 16 && SixBits('U') == 20 && SixBits('J') == 9 && SixBits('D') == 3;
    var d := "QUJD";
    assert d[4..] == [];
    assert d == ['Q', 'U', 'J', 'D'];
    assert AllBase64(d);
    assert DecodeGroups(d) == [FirstByte(16, 20), SecondByte(20, 9), ThirdByte(9, 3)] + DecodeGroups([]);
    assert FirstByte(16, 20) == 65;
    assert SecondByte(20, 9) == 66;
    assert ThirdByte(9, 3) == 67;
    assert DecodeGroups(d) == [65, 66, 67];
    assert Decode(d) == Success(DecodeGroups(d));
  }

  /** A stripped length leaving remainder 1, and an `=` that is not trailing
      padding, are both rejected. */
  lemma DecodeExamplesInvalid()
    ensures Decode("Q") == Failure(LengthRemainderOne)
    ensures Decode("QQ=") == Failure(NotInAlphabet)
    ensures Decode("Q===") == Failure(NotInAlphabet)
  {
    assert StripWhitespace("Q") == "Q";
    assert StripWhitespace("QQ=") == "QQ=";
    assert StripPadding("QQ=") == "QQ=";
    assert !IsBase64Char("QQ="[2]);
    assert StripWhitespace("Q===") == "Q===";
    assert StripPadding("Q===") == "Q=";
    assert !IsBase64Char("Q="[1]);
  }
}
