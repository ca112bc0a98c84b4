/**
 * Game metadata as `loadMeta` sees it after `json_decode($raw, true)`, and the
 * PHP casts `buildItem` applies to its fields.
 *
 * JSON objects and lists both decode to PHP arrays; an array is kept as its
 * entries in order, a list's keys written as their decimal index. Floats are
 * not part of the model.
 */
module Meta {
  import opened Prelude
  import opened Text

  datatype MetaValue =
    | Null
    | Bool(b: bool)
    | Int(i: int)
    | Str(s: String)
    | Arr(entries: seq<(String, MetaValue)>)

  /** A metadata file: unusable (not a file, unreadable, read failed) or the decoded JSON (`Null` for invalid JSON). */
  datatype MetaSource = Unavailable | Decoded(value: MetaValue)

  type PhpArray = seq<(String, MetaValue)>

  /** `loadMeta`: the decoded array, or the empty array whenever the file is unusable or not a JSON array/object. */
  function LoadMeta(src: MetaSource): (r: PhpArray)
    ensures src.Unavailable? ==> r == []
    ensures src.Decoded? && !src.value.Arr? ==> r == []
    ensures src.Decoded? && src.value.Arr? ==> r == src.value.entries
  {
    match src
    case Decoded(Arr(entries)) => entries
    case _ => []
  }

  /**
   * `$meta[key] ?? null` and `isset($meta[key])`: the value stored under `key`,
   * with a stored `null` counting as absent.
   */
  function Lookup(meta: PhpArray, key: String): (r: Option<MetaValue>)
    ensures r.Some? ==> r.value != Null && exists i :: 0 <= i < |meta| && meta[i] == (key, r.value)
    ensures r.None? ==> (forall i :: 0 <= i < |meta| ==> meta[i].0 != key) || (key, Null) in meta
  {
    if |meta| == 0 then None
    else if meta[0].0 == key then
      if meta[0].1 == Null then None else Some(meta[0].1)
    else
      var r := Lookup(meta[1..], key);
      assert r.None? && (key, Null) in meta[1..] ==> (key, Null) in meta;
      r
  }

  /** `array_values`. */
  function Values(meta: PhpArray): (r: seq<MetaValue>)
    ensures |r| == |meta|
    ensures forall i :: 0 <= i < |meta| ==> r[i] == meta[i].1
  {
    seq(|meta|, i requires 0 <= i < |meta| => meta[i].1)
  }

  predicate IsDigit(c: char) {
    '0' <= c <= '9'
  }

  /** The bytes PHP skips in front of a numeric string. */
  const NumericWhitespace: set<char> := {' ', '\t', '\n', '\r', '\U{000B}', '\U{000C}'}

  /** The length of the run of decimal digits at the front of `s`. */
  function DigitRun(s: String): (n: nat)
    ensures n <= |s|
    ensures forall i :: 0 <= i < n ==> IsDigit(s[i])
    ensures n < |s| ==> !IsDigit(s[n])
  {
    if |s| > 0 && IsDigit(s[0]) then 1 + DigitRun(s[1..]) else 0
  }

  /** The value of a string of decimal digits, most significant first. */
  function DigitsValue(d: String): nat
    requires forall i :: 0 <= i < |d| ==> IsDigit(d[i])
  {
    if |d| == 0 then 0
    else
      assert IsDigit(d[|d| - 1]);
      10 * DigitsValue(d[..|d| - 1]) + (d[|d| - 1] as int - '0' as int)
  }

  /** The value of the leading digits of `s`. */
  function LeadingValue(s: String): nat {
    DigitsValue(s[..DigitRun(s)])
  }

  /**
   * `(int)` on a string: leading whitespace, an optional sign and the leading
   * digits; a string without leading digits is 0.
   */
  function StringToInt(s: String): int {
    if |s| > 0 && s[0] in NumericWhitespace then StringToInt(s[1..])
    else if |s| > 0 && s[0] == '-' then -(LeadingValue(s[1..]) as int)
    else if |s| > 0 && s[0] == '+' then LeadingValue(s[1..])
    else LeadingValue(s)
  }

  /** The cast reads the sign and the digits that follow the leading whitespace. */
  lemma {:induction false} StringToIntAfterWhitespace(s: String)
    ensures var t := TrimLeft(s, NumericWhitespace);
      StringToInt(s) == if |t| > 0 && t[0] == '-' then -(LeadingValue(t[1..]) as int)
                        else if |t| > 0 && t[0] == '+' then LeadingValue(t[1..])
                        else LeadingValue(t)
  {
    if |s| > 0 && s[0] in NumericWhitespace {
      assert TrimLeft(s, NumericWhitespace) == TrimLeft(s[1..], NumericWhitespace);
      assert StringToInt(s) == StringToInt(s[1..]);
      StringToIntAfterWhitespace(s[1..]);
    } else {
      assert TrimLeft(s, NumericWhitespace) == s;
    }
  }

  /** A string with no digit after its whitespace and sign casts to 0. */
  lemma StringToIntWithoutDigits(s: String)
    ensures var t := TrimLeft(s, NumericWhitespace);
      var u := if |t| > 0 && (t[0] == '-' || t[0] == '+') then t[1..] else t;
      DigitRun(u) == 0 ==> StringToInt(s) == 0
  {
    StringToIntAfterWhitespace(s);
    var t := TrimLeft(s, NumericWhitespace);
    var u := if |t| > 0 && (t[0] == '-' || t[0] == '+') then t[1..] else t;
    if DigitRun(u) == 0 {
      assert u[..0] == [];
      assert LeadingValue(u) == 0;
    }
  }

  /** Text after the leading digits is ignored. */
  lemma TrailingTextIgnored()
    ensures StringToInt("7abc") == 7
  {
    assert DigitRun("7abc") == 1 by {
      assert "7abc"[1..] == "abc";
      assert "abc"[1..] == "bc";
    }
    assert "7abc"[..1] == "7";
    assert "7"[..0] == "";
  }

  /** A string that starts with no digit is 0. */
  lemma NoLeadingDigits()
    ensures StringToInt("abc") == 0
  {
    assert DigitRun("abc") == 0;
    assert "abc"[..0] == "";
  }

  /** Leading whitespace is skipped and a minus sign negates the digits after it. */
  lemma SignAfterWhitespace()
    ensures StringToInt(" -12px") == -12
  {
    assert " -12px"[1..] == "-12px";
    assert "-12px"[1..] == "12px";
    assert DigitRun("12px") == 2 by {
      assert "12px"[1..] == "2px";
      assert "2px"[1..] == "px";
    }
    assert "12px"[..2] == "12";
    assert "12"[..1] == "1";
    assert "1"[..0] == "";
    assert LeadingValue("12px") == 12;
  }

  /** `(int)` on a decoded value. */
  function IntCast(v: MetaValue): (r: int)
    ensures v.Int? ==> r == v.i
    ensures v.Null? || v == Bool(false) || v == Arr([]) ==> r == 0
    ensures v == Bool(true) || (v.Arr? && |v.entries| > 0) ==> r == 1
  {
    match v
    case Null => 0
    case Bool(b) => if b then 1 else 0
    case Int(i) => i
    case Str(s) => StringToInt(s)
    case Arr(entries) => if |entries| == 0 then 0 else 1
  }

  function DigitChar(d: nat): (c: char)
    requires d < 10
    ensures IsDigit(c) && c as int - '0' as int == d
  {
    ('0' as int + d) as char
  }

  /** The decimal spelling of a natural number, without leading zeros. */
  function NatToString(n: nat): (r: String)
    ensures |r| > 0 && forall i :: 0 <= i < |r| ==> IsDigit(r[i])
    ensures |r| > 1 ==> r[0] != '0'
  {
    if n < 10 then [DigitChar(n)] else NatToString(n / 10) + [DigitChar(n % 10)]
  }

  /** PHP's decimal spelling of an integer. */
  function IntToString(i: int): (r: String)
    ensures |r| > 0
    ensures i < 0 <==> r[0] == '-'
  {
    if i < 0 then "-" + NatToString(-i) else NatToString(i)
  }

  /** `(string)` on a decoded value. */
  function StrCast(v: MetaValue): (r: String)
    ensures v.Str? ==> r == v.s
    ensures v.Null? || v == Bool(false) ==> r == ""
    ensures v == Bool(true) ==> r == "1"
    ensures v.Arr? ==> r == "Array"
  {
    match v
    case Null => ""
    case Bool(b) => if b then "1" else ""
    case Int(i) => IntToString(i)
    case Str(s) => s
    case Arr(_) => "Array"
  }

  /** Reading back a decimal spelling gives the number. */
  lemma {:induction false} DigitsOfNat(n: nat)
    ensures DigitsValue(NatToString(n)) == n
  {
    if n >= 10 {
      DigitsOfNat(n / 10);
      var s := NatToString(n);
      assert s[..|s| - 1] == NatToString(n / 10);
    }
  }

  lemma LeadingValueOfNat(n: nat)
    ensures LeadingValue(NatToString(n)) == n
  {
    var s := NatToString(n);
    AllDigitsRun(s);
    assert s[..|s|] == s;
    DigitsOfNat(n);
  }

  lemma {:induction false} AllDigitsRun(s: String)
    requires forall i :: 0 <= i < |s| ==> IsDigit(s[i])
    ensures DigitRun(s) == |s|
  {
    if |s| > 0 {
      AllDigitsRun(s[1..]);
    }
  }

  /** The two casts are inverse on integers: `(int)(string)$i === $i`. */
  lemma IntStringRoundTrip(i: int)
    ensures IntCast(Str(StrCast(Int(i)))) == i
  {
    var s := IntToString(i);
    assert s[0] !in NumericWhitespace;
    if i < 0 {
      assert s[1..] == NatToString(-i);
      LeadingValueOfNat(-i);
    } else {
      LeadingValueOfNat(i);
    }
  }
}
