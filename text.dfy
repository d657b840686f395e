/** String helpers shared by the models and the views: case folding, the
    case-insensitive substring test behind Django's `icontains` lookup, and
    the "text after the last separator" split used by `Conspect.__str__`. */
module Text {

  /** Lower-cases one ASCII letter; every other character is left alone. */
  function LowerChar(c: char): char
  {
    if 'A' <= c <= 'Z' then (c as int - 'A' as int + 'a' as int) as char else c
  }

  /** `str.lower()`, restricted to ASCII letters. */
  function Lower(s: string): (r: string)
    ensures |r| == |s|
    ensures forall i :: 0 <= i < |s| ==> r[i] == LowerChar(s[i])
  {
    if s == [] then [] else [LowerChar(s[0])] + Lower(s[1..])
  }

  lemma LowerIdempotent(s: string)
    ensures Lower(Lower(s)) == Lower(s)
  {
    assert forall i :: 0 <= i < |s| ==> LowerChar(LowerChar(s[i])) == LowerChar(s[i]);
  }

  /** `q` occurs in `s` starting at index `i`. */
  ghost predicate OccursAt(s: string, q: string, i: int)
  {
    0 <= i && i + |q| <= |s| && s[i..i + |q|] == q
  }

  /** The reference meaning of "q is a substring of s". */
  ghost predicate IsSubstring(q: string, s: string)
  {
    exists i :: OccursAt(s, q, i)
  }

  /** Substring search by trying every start position from the left. */
  function Contains(s: string, q: string): (b: bool)
    ensures b <==> IsSubstring(q, s)
    decreases |s|
  {
    if q <= s then
      assert OccursAt(s, q, 0);
      true
    else if s == [] then
      false
    else
      var rest := s[1..];
      var b := Contains(rest, q);
      if b then
        assert IsSubstring(q, s) by {
          var i :| OccursAt(rest, q, i);
          assert rest[i..i + |q|] == s[i + 1..i + 1 + |q|];
          assert OccursAt(s, q, i + 1);
        }
        b
      else
        assert !IsSubstring(q, s) by {
          forall i ensures !OccursAt(s, q, i) {
            if 0 < i && i + |q| <= |s| {
              assert rest[i - 1..i - 1 + |q|] == s[i..i + |q|];
              assert !OccursAt(rest, q, i - 1);
            }
          }
        }
        b
  }

  /** Django's `field__icontains=q`: both sides lower-cased, then substring
      containment. */
  function IContains(s: string, q: string): (r: bool)
    ensures r <==> IsSubstring(Lower(q), Lower(s))
  {
    Contains(Lower(s), Lower(q))
  }

  /** Case on either side does not matter to `icontains`. */
  lemma IContainsIgnoresCase(s: string, q: string)
    ensures IContains(Lower(s), q) == IContains(s, q) == IContains(s, Lower(q))
  {
    LowerIdempotent(s);
    LowerIdempotent(q);
  }

  /** The empty query is contained in every string, so an absent search
      term matches everything. */
  lemma IContainsEmpty(s: string)
    ensures IContains(s, "")
  {
    assert OccursAt(Lower(s), Lower(""), 0);
  }

  /** `s.split(sep)[-1]`: the text after the last `sep`, or all of `s` when
      `sep` does not occur. It is the longest suffix of `s` free of `sep`. */
  function AfterLast(s: string, sep: char): (r: string)
    ensures |r| <= |s| && r == s[|s| - |r|..]
    ensures sep !in r
    ensures |r| < |s| ==> s[|s| - |r| - 1] == sep
  {
    if s == [] then []
    else if s[|s| - 1] == sep then []
    else AfterLast(s[..|s| - 1], sep) + [s[|s| - 1]]
  }

  /** Splitting at the last separator and gluing the pieces back together
      gives the original string. */
  lemma AfterLastSplits(s: string, sep: char)
    requires sep in s
    ensures var r := AfterLast(s, sep);
            |r| < |s| && s == s[..|s| - |r| - 1] + [sep] + r
  {
  }
}
