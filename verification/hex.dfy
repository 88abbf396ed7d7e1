/** Base 16 encoding of octet strings, as in section 8 of RFC 4648, written with
    the lower-case alphabet that Go's encoding/hex produces. The decoder accepts
    both letter cases, as Go's decoder does. */
module Hex {
  import opened Wrappers

  /** An octet. */
  type Byte = b: int | 0 <= b < 256

  /** The digit that encodes the nibble `n` in the lower-case alphabet
      "0123456789abcdef". */
  function Digit(n: int): char
    requires 0 <= n < 16
  {
    if n < 10 then ('0' as int + n) as char else ('a' as int + n - 10) as char
  }

  /** The octet whose high nibble is `hi` and low nibble is `lo`. */
  function Octet(hi: int, lo: int): (b: Byte)
    requires 0 <= hi < 16 && 0 <= lo < 16
    ensures b / 16 == hi && b % 16 == lo
  {
    NibbleSplit(hi, lo);
    hi * 16 + lo
  }

  /** True for the characters the encoder writes. */
  predicate IsLowerDigit(c: char) {
    '0' <= c <= '9' || 'a' <= c <= 'f'
  }

  /** True when every character of `s` is a lower-case hex digit. */
  predicate IsLowerHex(s: string) {
    forall k :: 0 <= k < |s| ==> IsLowerDigit(s[k])
  }

  /** True for the characters the decoder accepts: digits and letters a-f
      in either case. */
  predicate IsHexDigit(c: char) {
    IsLowerDigit(c) || 'A' <= c <= 'F'
  }

  /** True when every character of `s` is a hex digit of either case. */
  predicate IsHex(s: string) {
    forall k :: 0 <= k < |s| ==> IsHexDigit(s[k])
  }

  /** The nibble a hex digit stands for; `None` for any other character.
      An upper-case letter has the value of its lower-case counterpart. */
  function DigitValue(c: char): (v: Option<int>)
    ensures v.Some? <==> IsHexDigit(c)
    ensures v.Some? ==> 0 <= v.value < 16
    ensures IsLowerDigit(c) ==> v.Some? && Digit(v.value) == c
    ensures 'A' <= c <= 'F' ==> v.Some? && Digit(v.value) == (c as int - 'A' as int + 'a' as int) as char
  {
    if '0' <= c <= '9' then Some(c as int - '0' as int)
    else if 'a' <= c <= 'f' then Some(c as int - 'a' as int + 10)
    else if 'A' <= c <= 'F' then Some(c as int - 'A' as int + 10)
    else None
  }

  /** Every digit the encoder writes decodes back to its nibble. */
  lemma DigitRoundTrip(n: int)
    requires 0 <= n < 16
    ensures DigitValue(Digit(n)) == Some(n)
    ensures IsLowerDigit(Digit(n))
  {
  }

  /** Encodes each octet as two digits, high nibble first. */
  function Encode(bs: seq<Byte>): (s: string)
    ensures |s| == 2 * |bs|
    ensures forall i :: 0 <= i < |bs| ==> s[2 * i] == Digit(bs[i] / 16) && s[2 * i + 1] == Digit(bs[i] % 16)
    ensures IsLowerHex(s)
    decreases |bs|
  {
    if bs == [] then []
    else
      var rest := Encode(bs[1..]);
      var s := [Digit(bs[0] / 16), Digit(bs[0] % 16)] + rest;
      assert forall i :: 1 <= i < |bs| ==> bs[i] == bs[1..][i - 1];
      assert forall k :: 2 <= k < |s| ==> s[k] == rest[k - 2];
      DigitRoundTrip(bs[0] / 16);
      DigitRoundTrip(bs[0] % 16);
      s
  }

  /** Only all-zero octets encode to a string of '0' digits. */
  lemma EncodeZeroDigits(bs: seq<Byte>)
    requires forall k :: 0 <= k < |Encode(bs)| ==> Encode(bs)[k] == '0'
    ensures forall i :: 0 <= i < |bs| ==> bs[i] == 0
  {
    var s := Encode(bs);
    forall i | 0 <= i < |bs|
      ensures bs[i] == 0
    {
      assert s[2 * i] == '0' && s[2 * i + 1] == '0';
      DigitRoundTrip(bs[i] / 16);
      DigitRoundTrip(bs[i] % 16);
      DigitRoundTrip(0);
    }
  }

  /** A string of two or more characters is hex when its first two
      characters are digits and the rest is hex. */
  lemma IsHexFront(s: string)
    requires |s| >= 2
    ensures IsHex(s) <==> IsHexDigit(s[0]) && IsHexDigit(s[1]) && IsHex(s[2..])
  {
    if IsHexDigit(s[0]) && IsHexDigit(s[1]) && IsHex(s[2..]) {
      forall k | 2 <= k < |s| ensures IsHexDigit(s[k]) {
        assert s[k] == s[2..][k - 2];
      }
    }
  }

  /** The octet that digits 2i and 2i+1 of `s` stand for. */
  function OctetAt(s: string, i: int): Byte
    requires 0 <= i && 2 * i + 1 < |s|
    requires IsHexDigit(s[2 * i]) && IsHexDigit(s[2 * i + 1])
  {
    Octet(DigitValue(s[2 * i]).value, DigitValue(s[2 * i + 1]).value)
  }

  /** True when `s` is hex spelling `bs`, two digits per octet, high nibble first. */
  predicate DecodesTo(s: string, bs: seq<Byte>) {
    |s| == 2 * |bs| && IsHex(s) && forall i :: 0 <= i < |bs| ==> bs[i] == OctetAt(s, i)
  }

  /** Octet i of `s` is octet i - 1 of `s` without its first two digits. */
  lemma OctetAtShift(s: string, i: int)
    requires 1 <= i && 2 * i + 1 < |s| && IsHex(s)
    ensures IsHex(s[2..])
    ensures OctetAt(s, i) == OctetAt(s[2..], i - 1)
  {
    IsHexFront(s);
    assert s[2 * i] == s[2..][2 * (i - 1)];
    assert s[2 * i + 1] == s[2..][2 * (i - 1) + 1];
  }

  /** Two leading digits in front of a spelling spell one more octet in front. */
  lemma DecodesToCons(s: string, rest: seq<Byte>)
    requires |s| >= 2 && IsHexDigit(s[0]) && IsHexDigit(s[1])
    requires DecodesTo(s[2..], rest)
    ensures DecodesTo(s, [OctetAt(s, 0)] + rest)
  {
    IsHexFront(s);
    var r := [OctetAt(s, 0)] + rest;
    forall i | 1 <= i < |r|
      ensures r[i] == OctetAt(s, i)
    {
      OctetAtShift(s, i);
    }
  }

  /** Decodes pairs of hex digits into octets, digits 2i and 2i+1 giving
      octet i; `None` exactly when the length is odd or a character is not a
      hex digit. */
  function Decode(s: string): (r: Option<seq<Byte>>)
    ensures r.Some? <==> |s| % 2 == 0 && IsHex(s)
    ensures r.Some? ==> DecodesTo(s, r.value)
    decreases |s|
  {
    if |s| == 0 then Some([])
    else if |s| == 1 then None
    else
      var hi := DigitValue(s[0]);
      var lo := DigitValue(s[1]);
      var rest := Decode(s[2..]);
      IsHexFront(s);
      if hi.None? || lo.None? || rest.None? then None
      else
        DecodesToCons(s, rest.value);
        Some([OctetAt(s, 0)] + rest.value)
  }

  /** Decoding undoes encoding. */
  lemma {:induction false} DecodeEncode(bs: seq<Byte>)
    ensures Decode(Encode(bs)) == Some(bs)
    decreases |bs|
  {
    if bs != [] {
      var s := Encode(bs);
      DecodeEncode(bs[1..]);
      DigitRoundTrip(bs[0] / 16);
      DigitRoundTrip(bs[0] % 16);
      OctetOfNibbles(bs[0]);
      assert s[2..] == Encode(bs[1..]);
      assert [bs[0]] + bs[1..] == bs;
    }
  }

  /** Distinct octet strings have distinct encodings. */
  lemma EncodeInjective(a: seq<Byte>, b: seq<Byte>)
    ensures Encode(a) == Encode(b) <==> a == b
  {
    DecodeEncode(a);
    DecodeEncode(b);
  }

  /** An octet built from two nibbles splits back into them. */
  lemma NibbleSplit(hi: int, lo: int)
    requires 0 <= hi < 16 && 0 <= lo < 16
    ensures 0 <= hi * 16 + lo < 256
    ensures (hi * 16 + lo) / 16 == hi && (hi * 16 + lo) % 16 == lo
  {
  }

  /** An octet is rebuilt from its two nibbles. */
  lemma OctetOfNibbles(b: Byte)
    ensures Octet(b / 16, b % 16) == b
  {
  }

  /** Encoding an octet in front of others writes its two digits in front. */
  lemma EncodeCons(b: Byte, bs: seq<Byte>)
    ensures Encode([b] + bs) == [Digit(b / 16), Digit(b % 16)] + Encode(bs)
  {
    assert ([b] + bs)[1..] == bs;
  }

  /** Decoding a string that starts with two lower-case digits. */
  lemma DecodeFront(s: string)
    requires |s| >= 2 && IsLowerDigit(s[0]) && IsLowerDigit(s[1])
    requires Decode(s[2..]).Some?
    ensures Decode(s).Some?
    ensures Decode(s).value == [Octet(DigitValue(s[0]).value, DigitValue(s[1]).value)] + Decode(s[2..]).value
  {
  }

  /** The rest of a lower-case hex string is lower-case hex too. */
  lemma LowerHexRest(s: string)
    requires |s| >= 2 && IsLowerHex(s)
    ensures IsLowerHex(s[2..])
  {
    var rest := s[2..];
    forall k | 0 <= k < |rest| ensures IsLowerDigit(rest[k]) {
      assert rest[k] == s[k + 2];
    }
  }

  /** Encoding undoes decoding on the strings the encoder can produce:
      lower-case hex of even length. */
  lemma {:induction false} EncodeDecode(s: string)
    requires IsLowerHex(s)
    requires |s| % 2 == 0
    ensures Decode(s).Some?
    ensures Encode(Decode(s).value) == s
    decreases |s|
  {
    if |s| >= 2 {
      var rest := s[2..];
      assert IsLowerDigit(s[0]) && IsLowerDigit(s[1]);
      LowerHexRest(s);
      EncodeDecode(rest);
      DecodeFront(s);
      var b := Octet(DigitValue(s[0]).value, DigitValue(s[1]).value);
      EncodeCons(b, Decode(rest).value);
      assert s == [s[0], s[1]] + rest;
    }
  }
}
