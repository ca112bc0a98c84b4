/**
 * `rawurldecode`, the percent-decoding both the play route and the asset
 * route apply to their path parameter (section 2.1 of RFC 3986): every `%`
 * followed by two hexadecimal digits becomes the byte they spell, a `%` not
 * so followed stays literal, and `+` has no special meaning.
 *
 * `rawurlencode` is modelled as its partner, so that the decoder can be
 * checked against an encoder.
 */
module PercentCoding {
  import opened Text

  predicate IsHexDigit(c: char) {
    '0' <= c <= '9' || 'a' <= c <= 'f' || 'A' <= c <= 'F'
  }

  function HexValue(c: char): (v: nat)
    requires IsHexDigit(c)
    ensures v < 16
  {
    if '0' <= c <= '9' then c as int - '0' as int
    else if 'a' <= c <= 'f' then c as int - 'a' as int + 10
    else c as int - 'A' as int + 10
  }

  /** The upper-case hexadecimal digit `rawurlencode` writes for `v`. */
  function HexDigit(v: nat): (c: char)
    requires v < 16
    ensures IsHexDigit(c) && HexValue(c) == v
  {
    if v < 10 then ('0' as int + v) as char else ('A' as int + v - 10) as char
  }

  /** A valid escape `%XX` starts at offset `i`. */
  predicate EscapeAt(s: String, i: nat) {
    i + 3 <= |s| && s[i] == '%' && IsHexDigit(s[i + 1]) && IsHexDigit(s[i + 2])
  }

  function PercentDecode(s: String): (r: String)
    ensures |r| <= |s|
    ensures IsBytes(s) ==> IsBytes(r)
    decreases |s|
  {
    if |s| == 0 then []
    else if EscapeAt(s, 0) then
      [(HexValue(s[1]) * 16 + HexValue(s[2])) as char] + PercentDecode(s[3..])
    else
      [s[0]] + PercentDecode(s[1..])
  }

  /** The unreserved set of section 2.3 of RFC 3986, which `rawurlencode` leaves alone. */
  predicate IsUnreserved(c: char) {
    'a' <= c <= 'z' || 'A' <= c <= 'Z' || '0' <= c <= '9' || c == '-' || c == '.' || c == '_' || c == '~'
  }

  function EncodeByte(c: char): (r: String)
    requires c as int < 256
  {
    if IsUnreserved(c) then [c] else ['%', HexDigit(c as int / 16), HexDigit(c as int % 16)]
  }

  /** `rawurlencode`: every byte outside the unreserved set becomes `%XX`. */
  function PercentEncode(s: String): (r: String)
    requires IsBytes(s)
    ensures forall i :: 0 <= i < |r| ==> IsUnreserved(r[i]) || r[i] == '%' || IsHexDigit(r[i])
  {
    if |s| == 0 then [] else EncodeByte(s[0]) + PercentEncode(s[1..])
  }

  /** A string without `%` decodes to itself; in particular `+` is never turned into a space. */
  lemma {:induction false} DecodeWithoutPercent(s: String)
    requires forall i :: 0 <= i < |s| ==> s[i] != '%'
    ensures PercentDecode(s) == s
  {
    if |s| > 0 {
      DecodeWithoutPercent(s[1..]);
    }
  }

  /** Decoding undoes `rawurlencode` on every byte string. */
  lemma {:induction false} DecodeEncode(s: String)
    requires IsBytes(s)
    ensures PercentDecode(PercentEncode(s)) == s
  {
    if |s| > 0 {
      var c := s[0];
      var rest := PercentEncode(s[1..]);
      DecodeEncode(s[1..]);
      var e := EncodeByte(c) + rest;
      assert PercentEncode(s) == e;
      if IsUnreserved(c) {
        assert !EscapeAt(e, 0);
        assert e[1..] == rest;
      } else {
        assert EscapeAt(e, 0);
        assert e[3..] == rest;
        assert (HexValue(e[1]) * 16 + HexValue(e[2])) as char == c;
      }
    }
  }

  /** A string in which no `%` starts a valid escape decodes to itself: malformed escapes stay literal. */
  lemma {:induction false} DecodeWithoutEscapes(s: String)
    requires forall i :: 0 <= i < |s| ==> !EscapeAt(s, i)
    ensures PercentDecode(s) == s
    decreases |s|
  {
    if |s| > 0 {
      forall i | 0 <= i < |s| - 1
        ensures !EscapeAt(s[1..], i)
      {
        assert !EscapeAt(s, i + 1);
      }
      DecodeWithoutEscapes(s[1..]);
      assert s == [s[0]] + s[1..];
    }
  }

  /** A hexadecimal digit for `v`, in upper or lower case. */
  function HexDigitIn(v: nat, upper: bool): (c: char)
    requires v < 16
    ensures IsHexDigit(c) && HexValue(c) == v
    ensures v >= 10 ==> (if upper then 'A' <= c <= 'F' else 'a' <= c <= 'f')
  {
    if v < 10 || upper then HexDigit(v) else ('a' as int + v - 10) as char
  }

  /** Every byte written as `%hh`, with hexadecimal digits in the chosen case. */
  function EscapeAll(s: String, upper: bool): (r: String)
    requires IsBytes(s)
    ensures |r| == 3 * |s|
  {
    if |s| == 0 then []
    else ['%', HexDigitIn(s[0] as int / 16, upper), HexDigitIn(s[0] as int % 16, upper)] + EscapeAll(s[1..], upper)
  }

  /** Decoding accepts escapes in either case: it undoes `EscapeAll` whichever case the digits are in. */
  lemma {:induction false} DecodeEscapeAll(s: String, upper: bool)
    requires IsBytes(s)
    ensures PercentDecode(EscapeAll(s, upper)) == s
  {
    if |s| > 0 {
      var c := s[0];
      var rest := EscapeAll(s[1..], upper);
      DecodeEscapeAll(s[1..], upper);
      assert EscapeAll(s, upper) == ['%', HexDigitIn(c as int / 16, upper), HexDigitIn(c as int % 16, upper)] + rest;
      DecodeEscapedByte(c, upper, rest);
    }
  }

  /** A leading `%hh` with digits in either case decodes to its byte. */
  lemma DecodeEscapedByte(c: char, upper: bool, rest: String)
    requires c as int < 256
    ensures PercentDecode(['%', HexDigitIn(c as int / 16, upper), HexDigitIn(c as int % 16, upper)] + rest)
      == [c] + PercentDecode(rest)
  {
    var e := ['%', HexDigitIn(c as int / 16, upper), HexDigitIn(c as int % 16, upper)] + rest;
    assert EscapeAt(e, 0);
    assert e[3..] == rest;
    assert (HexValue(e[1]) * 16 + HexValue(e[2])) as char == c;
  }

  /** Lower-case escapes of dots decode to dots. */
  lemma LowerCaseDotsDecode()
    ensures PercentDecode("%2e%2e") == ".."
  {
    DecodeEscapeAll("..", false);
    assert EscapeAll("..", false) == "%2e%2e";
  }
}
