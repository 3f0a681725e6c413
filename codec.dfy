/**
 * The value codec. Feature values are dynamically typed in the service; here they
 * are a tagged union. `Encode` writes the JSON-like text that is stored in the
 * cache and `Decode` reads it back. Floats are kept uninterpreted as a decimal
 * mantissa and exponent, written `<mantissa>e<exponent>`; their numerics are not
 * modelled. The round trip `Decode(Encode(v)) == Some(v)` is proved below.
 */
module Codec {
  import opened Wrappers
  import opened Text

  datatype Value =
    | Null
    | Bool(b: bool)
    | Int(i: int)
    | Float(mantissa: int, exponent: int)
    | Str(s: string)
    | List(items: seq<Value>)

  predicate IsDigit(c: char)
  {
    '0' <= c <= '9'
  }

  predicate AllDigits(s: string)
  {
    forall i :: 0 <= i < |s| ==> IsDigit(s[i])
  }

  // ---------------------------------------------------------------- integers

  function DigitChar(d: nat): (c: char)
    requires d < 10
    ensures IsDigit(c) && c as int - '0' as int == d
  {
    ('0' as int + d) as char
  }

  /** Decimal digits of `n`, most significant first, without leading zeros. */
  function NatText(n: nat): (r: string)
    ensures |r| > 0 && AllDigits(r)
  {
    if n < 10 then [DigitChar(n)] else NatText(n / 10) + [DigitChar(n % 10)]
  }

  function IntText(i: int): string
  {
    if i < 0 then "-" + NatText(-i) else NatText(i)
  }

  /** The number a string of decimal digits denotes. */
  function DigitsValue(ds: string): nat
    requires AllDigits(ds)
  {
    if ds == [] then 0
    else DigitsValue(ds[..|ds| - 1]) * 10 + (ds[|ds| - 1] as int - '0' as int)
  }

  /** Length of the run of digits at the start of `s`. */
  function LeadingDigits(s: string): (r: nat)
    ensures r <= |s| && AllDigits(s[..r])
    ensures r < |s| ==> !IsDigit(s[r])
  {
    if s == [] || !IsDigit(s[0]) then 0
    else
      var r := 1 + LeadingDigits(s[1..]);
      assert s[..r] == [s[0]] + s[1..][..r - 1];
      r
  }

  /** Reads at least one digit. */
  function ParseUnsigned(s: string): (r: Option<(nat, string)>)
    ensures r.Some? ==> |r.value.1| < |s|
  {
    var n := LeadingDigits(s);
    if n == 0 then None else Some((DigitsValue(s[..n]), s[n..]))
  }

  /** Reads an optional minus sign and at least one digit. */
  function ParseInt(s: string): (r: Option<(int, string)>)
    ensures r.Some? ==> |r.value.1| < |s|
  {
    if |s| > 0 && s[0] == '-' then
      match ParseUnsigned(s[1..])
      case None => None
      case Some((n, rest)) =>
        var m: int := n;
        Some((-m, rest))
    else
      match ParseUnsigned(s)
      case None => None
      case Some((n, rest)) => Some((n, rest))
  }

  /** An integer, or a float when the integer is followed by `e` and an exponent. */
  function ParseNumber(s: string): (r: Option<(Value, string)>)
    ensures r.Some? ==> |r.value.1| < |s|
  {
    match ParseInt(s)
    case None => None
    case Some((m, rest)) =>
      if |rest| > 0 && rest[0] == 'e' then
        match ParseInt(rest[1..])
        case None => None
        case Some((e, rest')) => Some((Float(m, e), rest'))
      else Some((Int(m), rest))
  }

  lemma {:induction false} NatTextValue(n: nat)
    ensures DigitsValue(NatText(n)) == n
  {
    if n >= 10 {
      var t := NatText(n);
      assert t[..|t| - 1] == NatText(n / 10);
      NatTextValue(n / 10);
    }
  }

  lemma LeadingDigitsOf(ds: string, rest: string)
    requires AllDigits(ds)
    requires rest == [] || !IsDigit(rest[0])
    ensures LeadingDigits(ds + rest) == |ds|
  {
    assert forall k :: 0 <= k < |ds| ==> (ds + rest)[k] == ds[k];
    if rest != [] {
      assert (ds + rest)[|ds|] == rest[0];
    }
  }

  lemma ParseNatText(n: nat, rest: string)
    requires rest == [] || !IsDigit(rest[0])
    ensures ParseUnsigned(NatText(n) + rest) == Some((n, rest))
  {
    var t := NatText(n);
    NatTextValue(n);
    LeadingDigitsOf(t, rest);
    assert (t + rest)[..|t|] == t;
    assert (t + rest)[|t|..] == rest;
  }

  /** Reading back the text of an integer gives the integer, whatever non-digit follows. */
  lemma ParseIntText(i: int, rest: string)
    requires rest == [] || !IsDigit(rest[0])
    ensures ParseInt(IntText(i) + rest) == Some((i, rest))
  {
    if i < 0 {
      var t := NatText(-i);
      ParseNatText(-i, rest);
      var s := "-" + t + rest;
      assert IntText(i) + rest == s;
      assert s[0] == '-' && s[1..] == t + rest;
    } else {
      var t := NatText(i);
      ParseNatText(i, rest);
      assert IntText(i) + rest == t + rest;
      assert (t + rest)[0] == t[0];
    }
  }

  // ---------------------------------------------------------------- strings

  function EscapeChar(c: char): string
  {
    if c == '"' || c == '\\' then ['\\', c] else [c]
  }

  /** String body with `"` and `\` preceded by a backslash. */
  function Escape(s: string): string
  {
    if s == [] then [] else EscapeChar(s[0]) + Escape(s[1..])
  }

  /** Reads an escaped string body up to and including the closing quote. */
  function ParseStringBody(s: string): (r: Option<(string, string)>)
    ensures r.Some? ==> |r.value.1| < |s|
  {
    if s == [] then None
    else if s[0] == '"' then Some(([], s[1..]))
    else if s[0] == '\\' then
      if |s| < 2 then None
      else match ParseStringBody(s[2..])
        case None => None
        case Some((body, rest)) => Some(([s[1]] + body, rest))
    else match ParseStringBody(s[1..])
      case None => None
      case Some((body, rest)) => Some(([s[0]] + body, rest))
  }

  lemma {:induction false} ParseEscaped(t: string, rest: string)
    ensures ParseStringBody(Escape(t) + "\"" + rest) == Some((t, rest))
  {
    if t == [] {
      assert Escape(t) + "\"" + rest == "\"" + rest;
    } else {
      var tail := Escape(t[1..]) + "\"" + rest;
      assert Escape(t) + "\"" + rest == EscapeChar(t[0]) + tail;
      ParseEscaped(t[1..], rest);
      assert [t[0]] + t[1..] == t;
      if t[0] == '"' || t[0] == '\\' {
        assert (EscapeChar(t[0]) + tail)[2..] == tail;
      } else {
        assert (EscapeChar(t[0]) + tail)[1..] == tail;
      }
    }
  }

  // ---------------------------------------------------------------- values

  /** The text stored in the cache for a value; never empty. */
  function Encode(v: Value): (r: string)
    ensures |r| > 0 && r[0] != ']'
    decreases v
  {
    match v
    case Null => "null"
    case Bool(b) => if b then "true" else "false"
    case Int(i) => IntText(i)
    case Float(m, e) => IntText(m) + "e" + IntText(e)
    case Str(t) => "\"" + Escape(t) + "\""
    case List(items) => "[" + EncodeItems(items) + "]"
  }

  /** List elements separated by `", "`. */
  function EncodeItems(items: seq<Value>): (r: string)
    ensures |items| > 0 ==> |r| > 0 && r[0] != ']'
    decreases items
  {
    if |items| == 0 then ""
    else if |items| == 1 then Encode(items[0])
    else Encode(items[0]) + ", " + EncodeItems(items[1..])
  }

  function ParseValue(s: string): (r: Option<(Value, string)>)
    ensures r.Some? ==> |r.value.1| < |s|
    decreases |s|, 2
  {
    if |s| == 0 then None
    else if s[0] == '"' then ParseStr(s)
    else if s[0] == '[' then ParseList(s)
    else if s[0] == '-' || IsDigit(s[0]) then ParseNumber(s)
    else ParseLiteral(s)
  }

  /** `null`, `true` or `false`. */
  function ParseLiteral(s: string): (r: Option<(Value, string)>)
    ensures r.Some? ==> |r.value.1| < |s|
  {
    if HasPrefix("null", s) then Some((Null, s[4..]))
    else if HasPrefix("true", s) then Some((Bool(true), s[4..]))
    else if HasPrefix("false", s) then Some((Bool(false), s[5..]))
    else None
  }

  function ParseStr(s: string): (r: Option<(Value, string)>)
    requires |s| > 0
    ensures r.Some? ==> |r.value.1| < |s|
  {
    match ParseStringBody(s[1..])
    case None => None
    case Some((t, rest)) => Some((Str(t), rest))
  }

  function ParseList(s: string): (r: Option<(Value, string)>)
    requires |s| > 0
    ensures r.Some? ==> |r.value.1| < |s|
    decreases |s|, 1
  {
    if |s| >= 2 && s[1] == ']' then Some((List([]), s[2..]))
    else
      match ParseItems(s[1..])
      case None => None
      case Some((items, rest)) => Some((List(items), rest))
  }

  /** Reads `v, v, ..., v]` (at least one element) including the closing bracket. */
  function ParseItems(s: string): (r: Option<(seq<Value>, string)>)
    ensures r.Some? ==> |r.value.1| < |s|
    decreases |s|, 3
  {
    match ParseValue(s)
    case None => None
    case Some((v, rest)) =>
      if |rest| >= 2 && rest[0] == ',' && rest[1] == ' ' then
        match ParseItems(rest[2..])
        case None => None
        case Some((vs, rest')) => Some(([v] + vs, rest'))
      else if |rest| >= 1 && rest[0] == ']' then Some(([v], rest[1..]))
      else None
  }

  /** Decoding fails unless the whole text is exactly one value. */
  function Decode(text: string): (r: Option<Value>)
    ensures text == [] ==> r == None
    ensures r.Some? ==> ParseValue(text) == Some((r.value, []))
  {
    match ParseValue(text)
    case Some((v, rest)) => if rest == [] then Some(v) else None
    case None => None
  }

  /** What may follow a value inside a list or at the end of the text. */
  predicate Delimiter(rest: string)
  {
    rest == [] || rest[0] == ',' || rest[0] == ']'
  }

  lemma ParseLiteralValue(v: Value, rest: string)
    requires v.Null? || v.Bool?
    ensures ParseValue(Encode(v) + rest) == Some((v, rest))
  {
    var t := Encode(v);
    var s := t + rest;
    assert s[..|t|] == t && s[|t|..] == rest;
    assert s[0] == t[0];
  }

  lemma ParseNumberStart(s: string, i: int, tail: string)
    requires s == IntText(i) + tail
    ensures ParseValue(s) == ParseNumber(s)
  {
    if i >= 0 {
      assert s[0] == NatText(i)[0];
    }
  }

  lemma ParseIntValue(i: int, rest: string)
    requires Delimiter(rest)
    ensures ParseValue(Encode(Int(i)) + rest) == Some((Int(i), rest))
  {
    ParseIntText(i, rest);
    ParseNumberStart(Encode(Int(i)) + rest, i, rest);
  }

  lemma ParseExponent(m: int, e: int, rest: string)
    requires Delimiter(rest)
    ensures ParseNumber(IntText(m) + ("e" + (IntText(e) + rest))) == Some((Float(m, e), rest))
  {
    var exp := IntText(e) + rest;
    ParseIntText(m, "e" + exp);
    assert ("e" + exp)[0] == 'e' && ("e" + exp)[1..] == exp;
    ParseIntText(e, rest);
  }

  lemma ParseFloatValue(m: int, e: int, rest: string)
    requires Delimiter(rest)
    ensures ParseValue(Encode(Float(m, e)) + rest) == Some((Float(m, e), rest))
  {
    var a, b := IntText(m), IntText(e);
    var s := a + ("e" + (b + rest));
    assert Encode(Float(m, e)) == a + "e" + b;
    assert a + "e" + b + rest == s;
    ParseExponent(m, e, rest);
    ParseNumberStart(s, m, "e" + (IntText(e) + rest));
  }

  lemma ParseStrValue(t: string, rest: string)
    ensures ParseValue(Encode(Str(t)) + rest) == Some((Str(t), rest))
  {
    var s := Encode(Str(t)) + rest;
    ParseEscaped(t, rest);
    assert s[0] == '"';
    assert s[1..] == Escape(t) + "\"" + rest;
  }

  lemma ParseListValue(items: seq<Value>, rest: string)
    requires |items| > 0
    requires ParseItems(EncodeItems(items) + "]" + rest) == Some((items, rest))
    ensures ParseValue(Encode(List(items)) + rest) == Some((List(items), rest))
  {
    var body := EncodeItems(items) + "]" + rest;
    var s := "[" + body;
    assert Encode(List(items)) + rest == s;
    assert s[0] == '[' && s[1..] == body;
    assert s[1] == body[0] == EncodeItems(items)[0];
  }

  lemma {:induction false} ParseEncoded(v: Value, rest: string)
    requires Delimiter(rest)
    ensures ParseValue(Encode(v) + rest) == Some((v, rest))
    decreases v, 1
  {
    match v
    case Null => ParseLiteralValue(v, rest);
    case Bool(_) => ParseLiteralValue(v, rest);
    case Int(i) => ParseIntValue(i, rest);
    case Float(m, e) => ParseFloatValue(m, e, rest);
    case Str(t) => ParseStrValue(t, rest);
    case List(items) =>
      if |items| == 0 {
        assert Encode(v) == "[]";
        var s := Encode(v) + rest;
        assert s[0] == '[' && s[1] == ']' && s[2..] == rest;
      } else {
        ParseEncodedItems(items, rest);
        ParseListValue(items, rest);
      }
  }

  lemma ParseLastItem(s: string, v: Value, rest: string)
    requires ParseValue(s) == Some((v, "]" + rest))
    ensures ParseItems(s) == Some(([v], rest))
  {
    assert ("]" + rest)[0] == ']' && ("]" + rest)[1..] == rest;
  }

  lemma ParseNextItem(s: string, v: Value, tail: string, vs: seq<Value>, rest: string)
    requires ParseValue(s) == Some((v, ", " + tail))
    requires ParseItems(tail) == Some((vs, rest))
    ensures ParseItems(s) == Some(([v] + vs, rest))
  {
    assert (", " + tail)[..2] == ", " && (", " + tail)[2..] == tail;
  }

  /** The text of a list of two or more items, cut after the first item. */
  lemma EncodeItemsFirst(items: seq<Value>, rest: string)
    requires |items| > 1
    ensures EncodeItems(items) + "]" + rest == Encode(items[0]) + (", " + (EncodeItems(items[1..]) + "]" + rest))
  {
    var head, more := Encode(items[0]), EncodeItems(items[1..]);
    assert EncodeItems(items) == head + ", " + more;
    Regroup(head, ", ", more, "]", rest);
  }

  lemma Regroup(a: string, b: string, c: string, d: string, e: string)
    ensures a + b + c + d + e == a + (b + (c + d + e))
  {
  }

  lemma {:induction false} ParseEncodedItems(items: seq<Value>, rest: string)
    requires |items| > 0
    ensures ParseItems(EncodeItems(items) + "]" + rest) == Some((items, rest))
    decreases items, 0
  {
    if |items| == 1 {
      ParseEncoded(items[0], "]" + rest);
      assert EncodeItems(items) + "]" + rest == Encode(items[0]) + ("]" + rest);
      ParseLastItem(Encode(items[0]) + ("]" + rest), items[0], rest);
      assert [items[0]] == items;
    } else {
      var tail := EncodeItems(items[1..]) + "]" + rest;
      ParseEncoded(items[0], ", " + tail);
      ParseEncodedItems(items[1..], rest);
      EncodeItemsFirst(items, rest);
      ParseNextItem(Encode(items[0]) + (", " + tail), items[0], tail, items[1..], rest);
      assert [items[0]] + items[1..] == items;
    }
  }

  /** The codec round trip: decoding the stored text gives back the value. */
  lemma RoundTrip(v: Value)
    ensures Decode(Encode(v)) == Some(v)
  {
    ParseEncoded(v, []);
    assert Encode(v) + [] == Encode(v);
  }

  /** Distinct values are stored as distinct texts. */
  lemma EncodeInjective(v: Value, w: Value)
    requires Encode(v) == Encode(w)
    ensures v == w
  {
    RoundTrip(v);
    RoundTrip(w);
  }
}
