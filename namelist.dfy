/**
 * Parsing of the `feature_names` query parameter of single-entity retrieval:
 * the text is split at every comma (`str.split(",")`, so empty pieces are kept)
 * and each piece has surrounding whitespace removed (`str.strip()`).
 */
module NameList {
  import opened Text

  /** The characters `str.isspace()` accepts. */
  predicate IsSpace(c: char)
  {
    || c == ' ' || '\t' <= c <= '\r' || '\U{1C}' <= c <= '\U{1F}'
    || c == '\U{85}' || c == '\U{A0}' || c == '\U{1680}' || '\U{2000}' <= c <= '\U{200A}'
    || c == '\U{2028}' || c == '\U{2029}' || c == '\U{202F}' || c == '\U{205F}' || c == '\U{3000}'
  }

  /** Neither the first nor the last character is whitespace. */
  predicate Trimmed(s: string)
  {
    s == [] || (!IsSpace(s[0]) && !IsSpace(s[|s| - 1]))
  }

  /** Leading whitespace removed: `r` is a suffix of `s` and only whitespace was dropped. */
  function TrimLeft(s: string): (r: string)
    ensures |r| <= |s| && r == s[|s| - |r|..]
    ensures forall k :: 0 <= k < |s| - |r| ==> IsSpace(s[k])
    ensures r == [] || !IsSpace(r[0])
  {
    if s != [] && IsSpace(s[0]) then
      var r := TrimLeft(s[1..]);
      assert s[1..][|s| - 1 - |r|..] == s[|s| - |r|..];
      r
    else s
  }

  /** Trailing whitespace removed: `r` is a prefix of `s` and only whitespace was dropped. */
  function TrimRight(s: string): (r: string)
    ensures |r| <= |s| && r == s[..|r|]
    ensures forall k :: |r| <= k < |s| ==> IsSpace(s[k])
    ensures r == [] || !IsSpace(r[|r| - 1])
  {
    if s != [] && IsSpace(s[|s| - 1]) then TrimRight(s[..|s| - 1]) else s
  }

  /** `str.strip()`: whitespace removed from both ends. */
  function Strip(s: string): (r: string)
    ensures Trimmed(r) && |r| <= |s|
  {
    TrimRight(TrimLeft(s))
  }

  predicate AllSpace(s: string)
  {
    forall k :: 0 <= k < |s| ==> IsSpace(s[k])
  }

  lemma TrimLeftShape(s: string)
    ensures var lead := s[..|s| - |TrimLeft(s)|];
      AllSpace(lead) && s == lead + TrimLeft(s)
  {
    var r := TrimLeft(s);
    var n := |s| - |r|;
    assert r == s[n..];
    assert forall k :: 0 <= k < n ==> IsSpace(s[..n][k]);
    assert s == s[..n] + s[n..];
  }

  lemma TrimRightShape(s: string)
    ensures var trail := s[|TrimRight(s)|..];
      AllSpace(trail) && s == TrimRight(s) + trail
  {
    var r := TrimRight(s);
    assert r == s[..|r|];
    assert forall k :: 0 <= k < |s| - |r| ==> IsSpace(s[|r|..][k]);
    assert s == s[..|r|] + s[|r|..];
  }

  /** The whitespace `Strip` removes from the front. */
  function LeadingSpace(s: string): string
  {
    s[..|s| - |TrimLeft(s)|]
  }

  /** The whitespace `Strip` removes from the back. */
  function TrailingSpace(s: string): string
  {
    TrimLeft(s)[|Strip(s)|..]
  }

  /** The input of `Strip` is whitespace, then the result, then whitespace. */
  lemma StripShape(s: string)
    ensures AllSpace(LeadingSpace(s)) && AllSpace(TrailingSpace(s))
    ensures s == LeadingSpace(s) + (Strip(s) + TrailingSpace(s))
  {
    TrimLeftShape(s);
    TrimRightShape(TrimLeft(s));
  }

  lemma StripTrimmed(s: string)
    requires Trimmed(s)
    ensures Strip(s) == s
  {
  }

  /** `str.split(",")`: the pieces between commas, empty ones included. */
  function Split(s: string): (pieces: seq<string>)
    ensures |pieces| > 0
    ensures forall i :: 0 <= i < |pieces| ==> ',' !in pieces[i]
    decreases |s|
  {
    var i := IndexOf(s, ',');
    if i == |s| then [s] else [s[..i]] + Split(s[i + 1..])
  }

  /** `",".join(pieces)`. */
  function Join(pieces: seq<string>): string
    requires |pieces| > 0
  {
    if |pieces| == 1 then pieces[0] else pieces[0] + "," + Join(pieces[1..])
  }

  lemma SplitStep(s: string)
    requires ',' in s
    ensures Split(s) == [s[..IndexOf(s, ',')]] + Split(s[IndexOf(s, ',') + 1..])
  {
  }

  lemma JoinStep(pieces: seq<string>)
    requires |pieces| > 1
    ensures Join(pieces) == pieces[0] + "," + Join(pieces[1..])
  {
  }

  lemma {:induction false} JoinSplit(s: string)
    ensures Join(Split(s)) == s
    decreases |s|
  {
    var i := IndexOf(s, ',');
    if i < |s| {
      var tail := s[i + 1..];
      SplitStep(s);
      JoinSplit(tail);
      var pieces := Split(s);
      assert pieces[0] == s[..i] && pieces[1..] == Split(tail);
      JoinStep(pieces);
      assert s == s[..i] + "," + tail;
    } else {
      assert Split(s) == [s];
    }
  }

  /** Splitting `p + "," + rest` for a comma-free `p` cuts off `p` first. */
  lemma SplitFirst(p: string, rest: string)
    requires ',' !in p
    ensures Split(p + "," + rest) == [p] + Split(rest)
  {
    var s := p + "," + rest;
    IndexOfPrefixed(p, "," + rest, ',');
    assert s == p + ("," + rest);
    assert IndexOf("," + rest, ',') == 0;
    assert s[..|p|] == p;
    assert s[|p| + 1..] == rest;
  }

  lemma {:induction false} SplitJoin(pieces: seq<string>)
    requires |pieces| > 0
    requires forall i :: 0 <= i < |pieces| ==> ',' !in pieces[i]
    ensures Split(Join(pieces)) == pieces
  {
    if |pieces| > 1 {
      SplitJoin(pieces[1..]);
      SplitFirst(pieces[0], Join(pieces[1..]));
      assert [pieces[0]] + pieces[1..] == pieces;
    } else {
      assert IndexOf(pieces[0], ',') == |pieces[0]|;
    }
  }

  /** `[f.strip() for f in feature_names.split(",")]`. */
  function ParseNames(csv: string): (names: seq<string>)
    ensures |names| == |Split(csv)|
    ensures forall i :: 0 <= i < |names| ==> Trimmed(names[i]) && ',' !in names[i]
  {
    var pieces := Split(csv);
    seq(|pieces|, i requires 0 <= i < |pieces| => Strip(pieces[i]))
  }

  /** A list of comma-free, trimmed names survives joining and parsing again. */
  lemma ParseJoined(names: seq<string>)
    requires |names| > 0
    requires forall i :: 0 <= i < |names| ==> Trimmed(names[i]) && ',' !in names[i]
    ensures ParseNames(Join(names)) == names
  {
    SplitJoin(names);
  }
}
