/**
  The Python string built-ins that the story-text helpers are written with:
  `str.replace`, deleting the characters of a set (a regular-expression
  character class substituted by "", or a filtering comprehension),
  `str.rstrip`, `str.rfind` and substring search (`in`).
*/
module PyStrings {

  /** `s.startswith(p)` */
  predicate StartsWith(s: string, p: string) {
    |p| <= |s| && s[..|p|] == p
  }

  /** `p in s`: `p` occurs somewhere in `s` as a contiguous substring. */
  predicate Contains(s: string, p: string)
    decreases |s|
  {
    StartsWith(s, p) || (|s| > 0 && Contains(s[1..], p))
  }

  /**
    `s.replace(pat, rep)`: scans left to right and replaces every
    non-overlapping occurrence of `pat`; scanning resumes after the
    replaced occurrence.
  */
  function Replace(s: string, pat: string, rep: string): (r: string)
    requires |pat| > 0
    ensures !Contains(s, pat) ==> r == s
    ensures |rep| <= |pat| ==> |r| <= |s|
    ensures |rep| < |pat| && Contains(s, pat) ==> |r| < |s|
    decreases |s|
  {
    if |s| == 0 then
      s
    else if StartsWith(s, pat) then
      rep + Replace(s[|pat|..], pat, rep)
    else
      [s[0]] + Replace(s[1..], pat, rep)
  }

  /** Replacing one character by one character is a pointwise character map. */
  lemma {:induction false} ReplaceCharPointwise(s: string, c: char, d: char)
    ensures |Replace(s, [c], [d])| == |s|
    ensures forall i :: 0 <= i < |s| ==> Replace(s, [c], [d])[i] == (if s[i] == c then d else s[i])
    decreases |s|
  {
    if |s| > 0 {
      ReplaceCharPointwise(s[1..], c, d);
      var tail := Replace(s[1..], [c], [d]);
      if s[0] == c {
        assert StartsWith(s, [c]);
        assert Replace(s, [c], [d]) == [d] + tail;
      } else {
        assert !StartsWith(s, [c]);
        assert Replace(s, [c], [d]) == [s[0]] + tail;
      }
    }
  }

  /** Replacing a character by text that does not contain it leaves no occurrence of it. */
  lemma {:induction false} ReplaceRemovesChar(s: string, c: char, rep: string)
    requires c !in rep
    ensures c !in Replace(s, [c], rep)
    decreases |s|
  {
    if |s| > 0 {
      ReplaceRemovesChar(s[1..], c, rep);
      if s[0] == c {
        assert StartsWith(s, [c]);
      } else {
        assert !StartsWith(s, [c]);
      }
    }
  }

  /**
    The text with every character of `drop` deleted and everything else
    kept in order (`re.sub("[...]", "", s)`, or
    `"".join(c for c in s if c not in drop)`).
  */
  function Keep(s: string, drop: set<char>): (r: string)
    ensures forall i :: 0 <= i < |r| ==> r[i] !in drop
    ensures (forall i :: 0 <= i < |s| ==> s[i] !in drop) ==> r == s
    decreases |s|
  {
    if |s| == 0 then
      s
    else
      (if s[0] in drop then [] else [s[0]]) + Keep(s[1..], drop)
  }

  /** Each character outside `drop` survives as often as it occurs; those in `drop` do not survive. */
  lemma {:induction false} KeepCounts(s: string, drop: set<char>)
    ensures forall c :: multiset(Keep(s, drop))[c] == if c in drop then 0 else multiset(s)[c]
    decreases |s|
  {
    if |s| > 0 {
      KeepCounts(s[1..], drop);
      var head: string := if s[0] in drop then [] else [s[0]];
      assert s == [s[0]] + s[1..];
      assert multiset(s) == multiset([s[0]]) + multiset(s[1..]);
      assert multiset(Keep(s, drop)) == multiset(head) + multiset(Keep(s[1..], drop));
    }
  }

  /** Deleting characters commutes with concatenation, so the survivors keep their order. */
  lemma {:induction false} KeepConcat(a: string, b: string, drop: set<char>)
    ensures Keep(a + b, drop) == Keep(a, drop) + Keep(b, drop)
    decreases |a|
  {
    if |a| > 0 {
      KeepConcat(a[1..], b, drop);
      assert (a + b)[1..] == a[1..] + b;
    } else {
      assert a + b == b;
    }
  }

  /**
    The whitespace that `rstrip` removes, restricted to ASCII: space, tab,
    line feed, carriage return, vertical tab and form feed.
  */
  predicate IsSpace(c: char) {
    c == ' ' || c == '\t' || c == '\n' || c == '\r' || c == '\U{000B}' || c == '\U{000C}'
  }

  /** `s.rstrip()`: the longest prefix of `s` that does not end in whitespace. */
  function RStrip(s: string): (r: string)
    ensures |r| <= |s| && r == s[..|r|]
    ensures r == [] || !IsSpace(r[|r| - 1])
    ensures forall j :: |r| <= j < |s| ==> IsSpace(s[j])
    decreases |s|
  {
    if |s| > 0 && IsSpace(s[|s| - 1]) then RStrip(s[..|s| - 1]) else s
  }

  /** `s.rfind(c)`: the index of the last `c` in `s`, or -1 when there is none. */
  function RFind(s: string, c: char): (r: int)
    ensures -1 <= r < |s|
    ensures r >= 0 ==> s[r] == c
    ensures forall j :: r < j < |s| ==> s[j] != c
    decreases |s|
  {
    if |s| == 0 then -1
    else if s[|s| - 1] == c then |s| - 1
    else RFind(s[..|s| - 1], c)
  }
}
