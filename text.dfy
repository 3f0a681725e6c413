/** Small facts about strings shared by the key scheme and the name-list parser. */
module Text {

  /** True when `p` is a prefix of `s` (the `startswith` test). */
  predicate HasPrefix(p: string, s: string)
  {
    |p| <= |s| && s[..|p|] == p
  }

  /** Position of the first occurrence of `c` in `s`, or `|s|` when there is none. */
  function IndexOf(s: string, c: char): (r: nat)
    ensures r <= |s|
    ensures c !in s[..r]
    ensures r < |s| <==> c in s
    ensures r < |s| ==> s[r] == c
  {
    if |s| == 0 then 0
    else if s[0] == c then 0
    else
      var r := 1 + IndexOf(s[1..], c);
      assert s[..r] == [s[0]] + s[1..][..r - 1];
      r
  }

  lemma IndexOfPrefixed(p: string, s: string, c: char)
    requires c !in p
    ensures IndexOf(p + s, c) == |p| + IndexOf(s, c)
  {
    var q := IndexOf(s, c);
    assert (p + s)[..|p| + q] == p + s[..q];
    if q < |s| {
      assert (p + s)[|p| + q] == s[q];
    }
  }
}
