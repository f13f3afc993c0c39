/** Hexadecimal text: the digest text `hexdigest()` produces and the
    `int(hash_string, 16)` parse the reduction function applies to it. */
module Hex {
  import opened Wrappers

  type Byte = b: int | 0 <= b < 256

  const LowerHexDigits: string := "0123456789abcdef"

  predicate IsHexDigit(c: char)
  {
    ('0' <= c <= '9') || ('a' <= c <= 'f') || ('A' <= c <= 'F')
  }

  /** The value of one hexadecimal digit; both letter cases are accepted. */
  function DigitValue(c: char): (d: nat)
    requires IsHexDigit(c)
    ensures d < 16
  {
    if '0' <= c <= '9' then c as int - '0' as int
    else if 'a' <= c <= 'f' then c as int - 'a' as int + 10
    else c as int - 'A' as int + 10
  }

  /** Big-endian value of a string of hex digits (the last digit is the
      least significant). */
  function HexValue(s: string): nat
    requires forall i :: 0 <= i < |s| ==> IsHexDigit(s[i])
  {
    if |s| == 0 then 0 else HexValue(s[..|s| - 1]) * 16 + DigitValue(s[|s| - 1])
  }

  /** `int(s, 16)`: the value of a non-empty string of hex digits, or
      `None` where Python raises `ValueError`. */
  function ParseHex(s: string): (r: Option<nat>)
    ensures r.Some? <==> |s| > 0 && forall i :: 0 <= i < |s| ==> IsHexDigit(s[i])
  {
    if |s| > 0 && forall i :: 0 <= i < |s| ==> IsHexDigit(s[i]) then Some(HexValue(s)) else None
  }

  /** Big-endian value of a byte string. */
  function BytesValue(b: seq<Byte>): nat
  {
    if |b| == 0 then 0 else BytesValue(b[..|b| - 1]) * 256 + b[|b| - 1]
  }

  /** `hexdigest()`: two lower-case hex digits per byte, high nibble first. */
  function HexEncode(b: seq<Byte>): (s: string)
    ensures |s| == 2 * |b|
    ensures forall i :: 0 <= i < |s| ==> s[i] in LowerHexDigits
  {
    if |b| == 0 then []
    else
      var x := b[|b| - 1];
      HexEncode(b[..|b| - 1]) + [LowerHexDigits[x / 16], LowerHexDigits[x % 16]]
  }

  lemma LowerHexDigitValue(d: nat)
    requires d < 16
    ensures IsHexDigit(LowerHexDigits[d]) && DigitValue(LowerHexDigits[d]) == d
  {
  }

  /** Every character of an encoding is a hex digit. */
  lemma EncodeIsHex(b: seq<Byte>)
    ensures forall i :: 0 <= i < |HexEncode(b)| ==> IsHexDigit(HexEncode(b)[i])
  {
    var s := HexEncode(b);
    forall i | 0 <= i < |s|
      ensures IsHexDigit(s[i])
    {
      var j :| 0 <= j < 16 && s[i] == LowerHexDigits[j];
      LowerHexDigitValue(j);
    }
  }

  /** Appending a digit shifts the value up one hex place. */
  lemma HexValueSnoc(e: string, c: char)
    requires forall i :: 0 <= i < |e| ==> IsHexDigit(e[i])
    requires IsHexDigit(c)
    ensures forall i :: 0 <= i < |e + [c]| ==> IsHexDigit((e + [c])[i])
    ensures HexValue(e + [c]) == HexValue(e) * 16 + DigitValue(c)
  {
    assert (e + [c])[..|e|] == e;
  }

  /** Parsing the encoding of a byte string gives back its value. */
  lemma {:induction false} HexValueOfEncode(b: seq<Byte>)
    ensures forall i :: 0 <= i < |HexEncode(b)| ==> IsHexDigit(HexEncode(b)[i])
    ensures HexValue(HexEncode(b)) == BytesValue(b)
  {
    EncodeIsHex(b);
    if |b| > 0 {
      var p := b[..|b| - 1];
      var x := b[|b| - 1];
      var e := HexEncode(p);
      var hi, lo := LowerHexDigits[x / 16], LowerHexDigits[x % 16];
      HexValueOfEncode(p);
      LowerHexDigitValue(x / 16);
      LowerHexDigitValue(x % 16);
      assert HexEncode(b) == (e + [hi]) + [lo];
      HexValueSnoc(e, hi);
      HexValueSnoc(e + [hi], lo);
    }
  }

  /** Round trip: `int(hexdigest, 16)` recovers the digest's value. */
  lemma ParseHexEncode(b: seq<Byte>)
    requires |b| > 0
    ensures ParseHex(HexEncode(b)) == Some(BytesValue(b))
  {
    HexValueOfEncode(b);
  }
}
