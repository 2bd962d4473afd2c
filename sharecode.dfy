/** The share-code encoder of the group service: three random bytes written
    as hexadecimal (`Buffer.toString('hex')`, lower case, high nibble first)
    and then upper-cased, giving six characters. */
module ShareCode {
  import opened Common

  type Byte = x: int | 0 <= x < 256

  /** One result of `crypto.randomBytes(3)`. */
  type Draw = s: seq<Byte> | |s| == 3 witness [0, 0, 0]

  const LowerDigits := "0123456789abcdef"
  const UpperDigits := "0123456789ABCDEF"

  /** `Buffer.toString('hex')`. */
  function HexLower(bs: seq<Byte>): (r: string)
    ensures |r| == 2 * |bs|
  {
    if bs == [] then []
    else [LowerDigits[bs[0] / 16], LowerDigits[bs[0] % 16]] + HexLower(bs[1..])
  }

  /** Byte `i` is written at positions `2 * i` and `2 * i + 1`, high nibble
      first. */
  lemma {:induction false} HexLowerAt(bs: seq<Byte>, i: nat)
    requires i < |bs|
    ensures HexLower(bs)[2 * i] == LowerDigits[bs[i] / 16]
    ensures HexLower(bs)[2 * i + 1] == LowerDigits[bs[i] % 16]
  {
    if i > 0 {
      HexLowerAt(bs[1..], i - 1);
      assert HexLower(bs)[2..] == HexLower(bs[1..]);
    }
  }

  /** `String.prototype.toUpperCase` on the ASCII letters, the only letters
      a hex string holds. */
  function UpperChar(c: char): char
  {
    if 'a' <= c <= 'z' then (c as int - 32) as char else c
  }

  function ToUpper(s: string): (r: string)
    ensures |r| == |s|
  {
    if s == [] then [] else [UpperChar(s[0])] + ToUpper(s[1..])
  }

  /** Upper-casing works character by character. */
  lemma {:induction false} ToUpperAt(s: string, i: nat)
    requires i < |s|
    ensures ToUpper(s)[i] == UpperChar(s[i])
  {
    if i > 0 {
      ToUpperAt(s[1..], i - 1);
    }
  }

  /** Hexadecimal in lower case, then upper-cased. */
  function HexUpper(bs: seq<Byte>): (r: string)
    ensures |r| == 2 * |bs|
  {
    ToUpper(HexLower(bs))
  }

  predicate IsUpperHex(c: char)
  {
    '0' <= c <= '9' || 'A' <= c <= 'F'
  }

  /** A well-formed share code: six upper-case hexadecimal characters. */
  predicate IsShareCode(s: string)
  {
    |s| == 6 && forall i :: 0 <= i < |s| ==> IsUpperHex(s[i])
  }

  lemma UpperDigit(n: nat)
    requires n < 16
    ensures UpperChar(LowerDigits[n]) == UpperDigits[n] && IsUpperHex(UpperDigits[n])
  {
  }

  /** Each byte becomes its two upper-case digits, high nibble first. */
  lemma HexUpperAt(bs: seq<Byte>, i: nat)
    requires i < |bs|
    ensures |HexUpper(bs)| == 2 * |bs|
    ensures HexUpper(bs)[2 * i] == UpperDigits[bs[i] / 16]
    ensures HexUpper(bs)[2 * i + 1] == UpperDigits[bs[i] % 16]
  {
    HexLowerAt(bs, i);
    ToUpperAt(HexLower(bs), 2 * i);
    ToUpperAt(HexLower(bs), 2 * i + 1);
    UpperDigit(bs[i] / 16);
    UpperDigit(bs[i] % 16);
  }

  /** Three bytes give a well-formed code. */
  lemma HexUpperWellFormed(bs: seq<Byte>)
    requires |bs| == 3
    ensures IsShareCode(HexUpper(bs))
  {
    var c := HexUpper(bs);
    forall k | 0 <= k < 6 ensures IsUpperHex(c[k]) {
      HexUpperAt(bs, k / 2);
      UpperDigit(bs[k / 2] / 16);
      UpperDigit(bs[k / 2] % 16);
    }
  }

  /** `crypto.randomBytes(3).toString('hex').toUpperCase()` for the draw
      `d`: always a well-formed share code. */
  function CodeOf(d: Draw): (code: string)
    ensures IsShareCode(code)
  {
    HexUpperWellFormed(d);
    HexUpper(d)
  }

  /** The value of an upper-case hexadecimal digit. */
  function DigitValue(c: char): (v: nat)
    ensures v < 16
    ensures IsUpperHex(c) ==> UpperDigits[v] == c
  {
    if '0' <= c <= '9' then c as int - '0' as int
    else if 'A' <= c <= 'F' then c as int - 'A' as int + 10
    else 0
  }

  /** Reads a code back into bytes, two digits per byte. */
  function Decode(s: string): (r: seq<Byte>)
    ensures |r| == |s| / 2
  {
    seq(|s| / 2, i requires 0 <= i < |s| / 2 => 16 * DigitValue(s[2 * i]) + DigitValue(s[2 * i + 1]))
  }

  lemma DigitValueOfDigit(n: nat)
    requires n < 16
    ensures DigitValue(UpperDigits[n]) == n
  {
  }

  /** Decoding a code gives back the bytes it was made from. */
  lemma CodeRoundTrip(d: Draw)
    ensures Decode(CodeOf(d)) == d
  {
    var back := Decode(CodeOf(d));
    forall i | 0 <= i < |d| ensures back[i] == d[i] {
      HexUpperAt(d, i);
      DigitValueOfDigit(d[i] / 16);
      DigitValueOfDigit(d[i] % 16);
    }
  }

  /** Hence distinct draws give distinct codes. */
  lemma CodeOfInjective(x: Draw, y: Draw)
    requires CodeOf(x) == CodeOf(y)
    ensures x == y
  {
    CodeRoundTrip(x);
    CodeRoundTrip(y);
  }
}
