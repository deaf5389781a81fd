/** `generateNonce`: sixteen random bytes rendered as lower-case hexadecimal, each
    byte by `byte.toString(16).padStart(2, '0')` and the pieces joined with no
    separator. The random bytes are the input. */
module Nonce {
  import opened Wrappers

  /** An element of a `Uint8Array`. */
  type Byte = x: int | 0 <= x < 256

  /** The size of the `Uint8Array` the nonce is drawn into. */
  const NonceBytes: nat := 16

  predicate IsHexDigit(c: char)
  {
    '0' <= c <= '9' || 'a' <= c <= 'f'
  }

  /** The digit `Number.prototype.toString(16)` writes for a value below 16. */
  function HexDigit(d: int): (c: char)
    requires 0 <= d < 16
    ensures IsHexDigit(c)
  {
    if d < 10 then ('0' as int + d) as char else ('a' as int + d - 10) as char
  }

  /** `n.toString(16)`: the shortest lower-case hexadecimal rendering, "0" for 0. */
  function ToHexString(n: nat): (s: string)
    ensures |s| >= 1
    ensures forall i :: 0 <= i < |s| ==> IsHexDigit(s[i])
    ensures |s| > 1 ==> s[0] != '0'
  {
    if n < 16 then [HexDigit(n)] else ToHexString(n / 16) + [HexDigit(n % 16)]
  }

  /** The number a string of lower-case hexadecimal digits denotes, most
      significant digit first. */
  function HexNumeralValue(s: string): int
    requires forall i :: 0 <= i < |s| ==> IsHexDigit(s[i])
  {
    if s == [] then 0
    else HexNumeralValue(s[..|s| - 1]) * 16 + HexValue(s[|s| - 1]).value
  }

  /** Reading the rendering back gives the number: `toString(16)` is faithful. */
  lemma {:induction false} HexRoundTrip(n: nat)
    ensures HexNumeralValue(ToHexString(n)) == n
  {
    var s := ToHexString(n);
    if n < 16 {
      HexValueOfDigit(n);
      assert s[..0] == [];
    } else {
      HexRoundTrip(n / 16);
      HexValueOfDigit(n % 16);
      assert s[..|s| - 1] == ToHexString(n / 16);
    }
  }

  /** `s.padStart(width, fill)`: `s`, preceded by
      copies of `fill` up to `width` characters. */
  function PadStart(s: string, width: nat, fill: char): (r: string)
    ensures |r| == if |s| >= width then |s| else width
    ensures |s| >= width ==> r == s
    ensures |s| < width ==> r[width - |s|..] == s
    ensures |s| < width ==> forall i :: 0 <= i < width - |s| ==> r[i] == fill
  {
    if |s| >= width then s else seq(width - |s|, _ => fill) + s
  }

  /** `byte.toString(16).padStart(2, '0')`: the high nibble's digit then the low
      nibble's, so a byte below 16 gets a leading '0'. */
  function ByteToHex(b: Byte): (hex: string)
    ensures hex == [HexDigit(b / 16), HexDigit(b % 16)]
    ensures b < 16 ==> hex[0] == '0'
  {
    assert b >= 16 ==> ToHexString(b / 16) == [HexDigit(b / 16)];
    PadStart(ToHexString(b), 2, '0')
  }

  /** `Array.from(bytes, ByteToHex).join('')`. */
  function EncodeHex(bytes: seq<Byte>): (s: string)
    ensures |s| == 2 * |bytes|
    ensures forall i :: 0 <= i < |s| ==> IsHexDigit(s[i])
  {
    if bytes == [] then ""
    else ByteToHex(bytes[0]) + EncodeHex(bytes[1..])
  }

  /** `generateNonce()`, given the bytes `crypto.getRandomValues` filled in. */
  function GenerateNonce(random: seq<Byte>): (nonce: string)
    requires |random| == NonceBytes
    ensures |nonce| == 32
    ensures forall i :: 0 <= i < |nonce| ==> IsHexDigit(nonce[i])
  {
    EncodeHex(random)
  }

  /** Encoding distributes over concatenation. */
  lemma {:induction false} EncodeHexAppend(a: seq<Byte>, b: seq<Byte>)
    ensures EncodeHex(a + b) == EncodeHex(a) + EncodeHex(b)
  {
    if a == [] {
      assert a + b == b;
    } else {
      assert (a + b)[1..] == a[1..] + b;
      EncodeHexAppend(a[1..], b);
    }
  }

  /** Byte `i` occupies characters `2i` and `2i + 1`, high nibble first. */
  lemma {:induction false} EncodeHexAt(bytes: seq<Byte>, i: int)
    requires 0 <= i < |bytes|
    ensures EncodeHex(bytes)[2 * i] == HexDigit(bytes[i] / 16)
    ensures EncodeHex(bytes)[2 * i + 1] == HexDigit(bytes[i] % 16)
  {
    assert EncodeHex(bytes) == ByteToHex(bytes[0]) + EncodeHex(bytes[1..]);
    if i > 0 {
      EncodeHexAt(bytes[1..], i - 1);
    }
  }

  /** The value of a lower-case hexadecimal digit. */
  function HexValue(c: char): (v: Option<int>)
    ensures v.Some? <==> IsHexDigit(c)
    ensures v.Some? ==> 0 <= v.value < 16 && HexDigit(v.value) == c
  {
    if '0' <= c <= '9' then Some(c as int - '0' as int)
    else if 'a' <= c <= 'f' then Some(c as int - 'a' as int + 10)
    else None
  }

  lemma HexValueOfDigit(d: int)
    requires 0 <= d < 16
    ensures HexValue(HexDigit(d)) == Some(d)
  {
  }

  /** Reading the text back two characters at a time; None for an odd length or a
      character that is not a lower-case hexadecimal digit. */
  function DecodeHex(s: string): Option<seq<Byte>>
    decreases |s|
  {
    if s == [] then Some([])
    else if |s| == 1 then None
    else
      match (HexValue(s[0]), HexValue(s[1]), DecodeHex(s[2..]))
      case (Some(hi), Some(lo), Some(rest)) => Some([hi * 16 + lo] + rest)
      case _ => None
  }

  /** Decoding recovers the bytes. */
  lemma {:induction false} DecodeEncode(bytes: seq<Byte>)
    ensures DecodeHex(EncodeHex(bytes)) == Some(bytes)
  {
    if bytes != [] {
      var b := bytes[0];
      HexValueOfDigit(b / 16);
      HexValueOfDigit(b % 16);
      var s := EncodeHex(bytes);
      assert s == ByteToHex(b) + EncodeHex(bytes[1..]);
      assert s[0] == HexDigit(b / 16) && s[1] == HexDigit(b % 16);
      assert s[2..] == EncodeHex(bytes[1..]);
      DecodeEncode(bytes[1..]);
      assert (b / 16) * 16 + b % 16 == b;
      assert bytes == [b] + bytes[1..];
    }
  }

  /** And conversely: a text that decodes is exactly the encoding of what it
      decodes to. */
  lemma {:induction false} EncodeDecode(s: string, bytes: seq<Byte>)
    requires DecodeHex(s) == Some(bytes)
    ensures EncodeHex(bytes) == s
    decreases |s|
  {
    if s != [] {
      var hi := HexValue(s[0]).value;
      var lo := HexValue(s[1]).value;
      var rest := DecodeHex(s[2..]).value;
      assert bytes == [hi * 16 + lo] + rest;
      EncodeDecode(s[2..], rest);
      assert ByteToHex(hi * 16 + lo) == [s[0], s[1]];
      assert bytes[1..] == rest;
      assert s == [s[0], s[1]] + s[2..];
    }
  }

  /** Distinct byte strings give distinct nonces. */
  lemma EncodeHexInjective(a: seq<Byte>, b: seq<Byte>)
    requires EncodeHex(a) == EncodeHex(b)
    ensures a == b
  {
    DecodeEncode(a);
    DecodeEncode(b);
  }
}
