/**
 * The textual boundary of the codec: `binascii.b2a_hex`, which spells each
 * byte as two lower-case hexadecimal digits, and `binascii.a2b_hex`, which
 * accepts either case and rejects odd-length text and non-hex characters.
 */
module Hex {
  import opened Wrappers
  import opened Bytes
  import opened Geometries

  /** The lower-case digit for a nibble. */
  function DigitChar(n: int): (c: char)
    requires 0 <= n < 16
    ensures '0' <= c <= '9' || 'a' <= c <= 'f'
    ensures NibbleValue(c) == n
  {
    if n < 10 then ('0' as int + n) as char else ('a' as int + n - 10) as char
  }

  /** The value of a hexadecimal digit of either case, or -1 for any other character. */
  function NibbleValue(c: char): (n: int)
    ensures -1 <= n < 16
    ensures n >= 0 <==> ('0' <= c <= '9' || 'a' <= c <= 'f' || 'A' <= c <= 'F')
    ensures 'A' <= c <= 'F' ==> n == c as int - 'A' as int + 10
  {
    if '0' <= c <= '9' then c as int - '0' as int
    else if 'a' <= c <= 'f' then c as int - 'a' as int + 10
    else if 'A' <= c <= 'F' then c as int - 'A' as int + 10
    else -1
  }

  predicate IsHexDigit(c: char) { NibbleValue(c) >= 0 }

  /** `binascii.b2a_hex(b)`: two lower-case digits per byte, high nibble first. */
  function HexEncode(b: seq<byte>): (s: string)
    ensures |s| == 2 * |b|
    ensures forall i :: 0 <= i < |s| ==> '0' <= s[i] <= '9' || 'a' <= s[i] <= 'f'
  {
    if b == [] then ""
    else [DigitChar(b[0] / 16), DigitChar(b[0] % 16)] + HexEncode(b[1..])
  }

  /** `binascii.a2b_hex(s)`: the inverse of `HexEncode`, failing on malformed text. */
  function HexDecode(s: string): (r: Result<seq<byte>, Error>)
    ensures r.Success? <==> |s| % 2 == 0 && forall i :: 0 <= i < |s| ==> IsHexDigit(s[i])
    ensures r.Success? ==> 2 * |r.value| == |s|
    ensures r.Failure? ==> r.error == InvalidHex
  {
    if |s| % 2 != 0 || (|s| > 0 && !(IsHexDigit(s[0]) && IsHexDigit(s[1]))) then Failure(InvalidHex)
    else if s == [] then Success([])
    else
      var b: byte := NibbleValue(s[0]) * 16 + NibbleValue(s[1]);
      var rest := HexDecode(s[2..]);
      assert forall i :: 2 <= i < |s| ==> s[i] == s[2..][i - 2];
      if rest.Failure? then rest else Success([b] + rest.value)
  }

  /** Two digits followed by well-formed text decode to their byte followed by the rest. */
  lemma {:induction false} HexDecodeCons(s: string, b: byte, rest: seq<byte>)
    requires |s| >= 2 && IsHexDigit(s[0]) && IsHexDigit(s[1])
    requires NibbleValue(s[0]) * 16 + NibbleValue(s[1]) == b
    requires HexDecode(s[2..]) == Success(rest)
    ensures HexDecode(s) == Success([b] + rest)
  {
  }

  /** Decoding what `b2a_hex` produced gives back the bytes. */
  lemma {:induction false} HexRoundTrip(b: seq<byte>)
    ensures HexDecode(HexEncode(b)) == Success(b)
  {
    if b != [] {
      var s := HexEncode(b);
      assert s[2..] == HexEncode(b[1..]);
      HexRoundTrip(b[1..]);
      HexDecodeCons(s, b[0], b[1..]);
      assert [b[0]] + b[1..] == b;
    }
  }

  /** The text with every upper-case hex digit replaced by its lower-case form, as `b2a_hex` writes it. */
  function LowerHex(s: string): (t: string)
    ensures |t| == |s|
    ensures forall i | 0 <= i < |s| :: NibbleValue(t[i]) == NibbleValue(s[i])
    ensures forall i | 0 <= i < |s| :: 'A' <= s[i] <= 'F' ==> 'a' <= t[i] <= 'f'
  {
    seq(|s|, i requires 0 <= i < |s| =>
      if 'A' <= s[i] <= 'F' then (s[i] as int - 'A' as int + 'a' as int) as char else s[i])
  }

  /** Lower-casing keeps which characters are hex digits, so it keeps whether the text decodes. */
  lemma LowerHexDecodes(s: string)
    ensures HexDecode(LowerHex(s)).Success? == HexDecode(s).Success?
  {
    var t := LowerHex(s);
    assert forall i | 0 <= i < |s| :: IsHexDigit(t[i]) == IsHexDigit(s[i]);
  }

  /** Lower-casing works digit by digit: the first two digits keep their values, and the rest is lower-cased alike. */
  lemma LowerHexTail(s: string)
    requires |s| >= 2
    ensures LowerHex(s[2..]) == LowerHex(s)[2..]
    ensures NibbleValue(LowerHex(s)[0]) == NibbleValue(s[0]) && NibbleValue(LowerHex(s)[1]) == NibbleValue(s[1])
  {
  }

  /**
   * `a2b_hex` ignores the case of the digits: the upper-case text PostGIS
   * returns decodes to the same bytes as its lower-case form.
   */
  lemma {:induction false} HexDecodeIgnoresCase(s: string)
    ensures HexDecode(LowerHex(s)) == HexDecode(s)
    decreases |s|
  {
    var t := LowerHex(s);
    LowerHexDecodes(s);
    if HexDecode(s).Success? && s != [] {
      LowerHexDecodes(s[2..]);
      LowerHexTail(s);
      var rest := HexDecode(s[2..]).value;
      HexDecodeIgnoresCase(s[2..]);
      var b: byte := NibbleValue(s[0]) * 16 + NibbleValue(s[1]);
      HexDecodeCons(s, b, rest);
      HexDecodeCons(t, b, rest);
    } else if s == [] {
      assert t == [];
    }
  }

  /** `b2a_hex` works byte by byte, so it spells a concatenation as the concatenation of the spellings. */
  lemma {:induction false} HexEncodeConcat(a: seq<byte>, b: seq<byte>)
    ensures HexEncode(a + b) == HexEncode(a) + HexEncode(b)
  {
    if a == [] {
      assert a + b == b;
    } else {
      assert (a + b)[0] == a[0] && (a + b)[1..] == a[1..] + b;
      HexEncodeConcat(a[1..], b);
    }
  }
}
