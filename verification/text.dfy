/** The string operations the recommender applies to the user's query and to
    the table's text columns: Python's `str.lower`, `str.strip` and a plain
    substring test, restricted to ASCII (see README, "Left out"). */
module Text {

  /** Python's `str.isspace` on the ASCII range: tab, line feed, vertical tab,
      form feed, carriage return (9-13), the four information separators
      (28-31) and space (32). */
  predicate IsSpace(c: char) {
    var n := c as int;
    (9 <= n <= 13) || (28 <= n <= 32)
  }

  predicate AllSpace(s: string) {
    forall i :: 0 <= i < |s| ==> IsSpace(s[i])
  }

  predicate IsUpper(c: char) {
    'A' <= c <= 'Z'
  }

  /** ASCII lower-casing of one character: 'A'..'Z' become the same letter
      of 'a'..'z', and nothing else changes. */
  function LowerChar(c: char): (d: char)
    ensures IsUpper(c) ==> 'a' <= d <= 'z' && d as int - 'a' as int == c as int - 'A' as int
    ensures !IsUpper(d)
    ensures IsSpace(d) <==> IsSpace(c)
    ensures !IsUpper(c) ==> d == c
  {
    if IsUpper(c) then (c as int - 'A' as int + 'a' as int) as char else c
  }

  function Lower(s: string): (r: string)
    ensures |r| == |s|
    ensures forall i :: 0 <= i < |s| ==> r[i] == LowerChar(s[i])
  {
    seq(|s|, i requires 0 <= i < |s| => LowerChar(s[i]))
  }

  /** Python's `s.lstrip()`: drops the leading whitespace, and only that. */
  function StripStart(s: string): (r: string)
    ensures |r| <= |s| && r == s[|s| - |r|..]
    ensures AllSpace(s[..|s| - |r|])
    ensures r == [] || !IsSpace(r[0])
    decreases |s|
  {
    if |s| > 0 && IsSpace(s[0]) then
      var r := StripStart(s[1..]);
      assert r == s[|s| - |r|..];
      var dropped := s[..|s| - |r|];
      assert AllSpace(dropped) by {
        forall i | 0 <= i < |dropped| ensures IsSpace(dropped[i]) {
          if i > 0 {
            assert dropped[i] == s[1..][..|s| - 1 - |r|][i - 1];
          }
        }
      }
      r
    else
      s
  }

  /** Python's `s.rstrip()`: drops the trailing whitespace, and only that. */
  function StripEnd(s: string): (r: string)
    ensures |r| <= |s| && r == s[..|r|]
    ensures AllSpace(s[|r|..])
    ensures r == [] || !IsSpace(r[|r| - 1])
    decreases |s|
  {
    if |s| > 0 && IsSpace(s[|s| - 1]) then
      var r := StripEnd(s[..|s| - 1]);
      assert r == s[..|r|];
      var dropped := s[|r|..];
      assert AllSpace(dropped) by {
        forall i | 0 <= i < |dropped| ensures IsSpace(dropped[i]) {
          if |r| + i < |s| - 1 {
            assert dropped[i] == s[..|s| - 1][|r|..][i];
          }
        }
      }
      r
    else
      s
  }

  /** Neither starts nor ends with whitespace. */
  predicate Unpadded(s: string) {
    s == [] || (!IsSpace(s[0]) && !IsSpace(s[|s| - 1]))
  }

  /** Python's `s.strip()`: a contiguous piece of the input, starting where
      the leading whitespace ends, that neither starts nor ends with
      whitespace. */
  function Strip(s: string): (r: string)
    ensures |r| <= |s|
    ensures Unpadded(r)
    ensures OccursAt(s, r, |s| - |StripStart(s)|)
  {
    var t := StripStart(s);
    var r := StripEnd(t);
    assert r != [] ==> r[0] == t[0];
    PrefixOfSuffixOccurs(s, t, r);
    r
  }

  /** A prefix of a suffix of `s` occurs in `s` where the suffix starts. */
  lemma PrefixOfSuffixOccurs(s: string, t: string, r: string)
    requires |t| <= |s| && t == s[|s| - |t|..]
    requires |r| <= |t| && r == t[..|r|]
    ensures OccursAt(s, r, |s| - |t|)
  {
    assert s[|s| - |t|..][..|r|] == s[|s| - |t|..|s| - |t| + |r|];
  }

  /** Stripping changes nothing exactly when there is nothing to strip. */
  lemma StripUnpadded(s: string)
    ensures Strip(s) == s <==> Unpadded(s)
  {
  }

  /** The query normalisation of the recommender: `s.strip().lower()`. The
      result is no longer than the input, unpadded, and has no capitals. */
  function Normalize(s: string): (r: string)
    ensures |r| <= |s|
    ensures Unpadded(r)
    ensures forall i :: 0 <= i < |r| ==> !IsUpper(r[i])
  {
    var t := Strip(s);
    LowerKeepsUnpadded(t);
    Lower(t)
  }

  /** Lower-casing an unpadded string keeps it unpadded and leaves no capital. */
  lemma LowerKeepsUnpadded(t: string)
    requires Unpadded(t)
    ensures Unpadded(Lower(t))
    ensures forall i :: 0 <= i < |t| ==> !IsUpper(Lower(t)[i])
  {
  }

  /** `sub` occurs in `s` starting at position `i`. */
  predicate OccursAt(s: string, sub: string, i: int) {
    0 <= i && i + |sub| <= |s| && s[i..i + |sub|] == sub
  }

  /** Plain substring test (`sub in s`); the empty string occurs everywhere. */
  function Contains(s: string, sub: string): (b: bool)
    ensures b <==> exists i :: OccursAt(s, sub, i)
    decreases |s|
  {
    if |sub| > |s| then
      false
    else if s[..|sub|] == sub then
      assert OccursAt(s, sub, 0);
      true
    else
      OccursShift(s, sub);
      Contains(s[1..], sub)
  }

  /** An occurrence in a non-empty `s` that is not at position 0 is an
      occurrence in `s[1..]`, one position earlier. */
  lemma {:induction false} OccursShift(s: string, sub: string)
    requires |s| > 0 && !OccursAt(s, sub, 0)
    ensures (exists i :: OccursAt(s, sub, i)) <==> (exists i :: OccursAt(s[1..], sub, i))
  {
    forall i | OccursAt(s, sub, i)
      ensures OccursAt(s[1..], sub, i - 1)
    {
      assert s[1..][i - 1..i - 1 + |sub|] == s[i..i + |sub|];
    }
    forall i | OccursAt(s[1..], sub, i)
      ensures OccursAt(s, sub, i + 1)
    {
      assert s[1..][i..i + |sub|] == s[i + 1..i + 1 + |sub|];
    }
  }

  /** Lower-casing never touches a character's whitespace status, so it
      commutes with stripping; hence normalising is lower-casing first and
      stripping second. */
  lemma {:induction false} LowerStripStart(s: string)
    ensures Lower(StripStart(s)) == StripStart(Lower(s))
    decreases |s|
  {
    if |s| > 0 && IsSpace(s[0]) {
      assert Lower(s)[1..] == Lower(s[1..]);
      LowerStripStart(s[1..]);
    }
  }

  lemma LowerStripEnd(s: string)
    ensures Lower(StripEnd(s)) == StripEnd(Lower(s))
    decreases |s|
  {
  }

  lemma {:induction false} LowerStrip(s: string)
    ensures Normalize(s) == Strip(Lower(s))
  {
    LowerStripStart(s);
    LowerStripEnd(StripStart(s));
  }

  /** Two inputs that differ only in letter case normalise alike. */
  lemma {:induction false} NormalizeIgnoresCase(s: string, t: string)
    requires Lower(s) == Lower(t)
    ensures Normalize(s) == Normalize(t)
  {
    LowerStrip(s);
    LowerStrip(t);
  }

  /** Leading whitespace is skipped whatever follows it. */
  lemma {:induction false} StripStartSkipsSpace(w: string, x: string)
    requires AllSpace(w)
    ensures StripStart(w + x) == StripStart(x)
    decreases |w|
  {
    if |w| > 0 {
      assert (w + x)[0] == w[0];
      assert (w + x)[1..] == w[1..] + x;
      StripStartSkipsSpace(w[1..], x);
    } else {
      assert w + x == x;
    }
  }

  /** Trailing whitespace is skipped whatever precedes it. */
  lemma {:induction false} StripEndSkipsSpace(x: string, w: string)
    requires AllSpace(w)
    ensures StripEnd(x + w) == StripEnd(x)
    decreases |w|
  {
    if |w| > 0 {
      assert (x + w)[|x + w| - 1] == w[|w| - 1];
      assert (x + w)[..|x + w| - 1] == x + w[..|w| - 1];
      StripEndSkipsSpace(x, w[..|w| - 1]);
    } else {
      assert x + w == x;
    }
  }

  /** Stripping the start of `x + w` either consumes the whole of `x` (when it
      is blank) or stops inside `x`, leaving `w` untouched. */
  lemma {:induction false} StripStartAppend(x: string, w: string)
    ensures StripStart(x + w) == if AllSpace(x) then StripStart(w) else StripStart(x) + w
    decreases |x|
  {
    if |x| > 0 {
      assert (x + w)[0] == x[0];
      if IsSpace(x[0]) {
        assert (x + w)[1..] == x[1..] + w;
        assert AllSpace(x) <==> AllSpace(x[1..]);
        StripStartAppend(x[1..], w);
      }
    } else {
      assert x + w == w;
    }
  }

  /** Surrounding whitespace does not change the stripped string. */
  lemma {:induction false} StripIgnoresPadding(w1: string, s: string, w2: string)
    requires AllSpace(w1) && AllSpace(w2)
    ensures Strip(w1 + s + w2) == Strip(s)
  {
    assert w1 + s + w2 == w1 + (s + w2);
    StripStartSkipsSpace(w1, s + w2);
    StripStartAppend(s, w2);
    if AllSpace(s) {
      StripStartSkipsSpace(w2, []);
      assert w2 + [] == w2;
      StripStartSkipsSpace(s, []);
      assert s + [] == s;
    } else {
      StripEndSkipsSpace(StripStart(s), w2);
    }
  }

  /** The query normalisation is insensitive to letter case and to
      surrounding whitespace: an input that equals `w1 + s + w2` up to case,
      with blank `w1` and `w2`, normalises as `s` does. */
  lemma {:induction false} NormalizeIgnoresCaseAndPadding(s: string, t: string, w1: string, w2: string)
    requires AllSpace(w1) && AllSpace(w2)
    requires Lower(t) == Lower(w1 + s + w2)
    ensures Normalize(t) == Normalize(s)
  {
    NormalizeIgnoresCase(t, w1 + s + w2);
    StripIgnoresPadding(w1, s, w2);
  }

  /** A blank input (empty or all whitespace) normalises to the empty string. */
  lemma NormalizeBlank(s: string)
    requires AllSpace(s)
    ensures Normalize(s) == []
  {
  }

  /** Lower-casing keeps occurrences. */
  lemma LowerKeepsOccurrence(s: string, sub: string, i: int)
    requires OccursAt(s, sub, i)
    ensures OccursAt(Lower(s), Lower(sub), i)
  {
  }

  /** A string always contains its own normalisation, once lower-cased. */
  lemma {:induction false} ContainsOwnNormalization(s: string)
    ensures Contains(Lower(s), Normalize(s))
  {
    LowerKeepsOccurrence(s, Strip(s), |s| - |StripStart(s)|);
  }
}
