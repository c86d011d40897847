/**
  Python's `str.replace(old, new)` and `old in s`, on strings as sequences of
  characters. `ReplaceAll` scans left to right and replaces every
  non-overlapping occurrence, as Python does when no count is given.
  Every pattern the program uses is non-empty, so the empty pattern (for which
  Python inserts the replacement between all characters) is not modelled.
 */
module StrReplace {

  /** `pat` occurs in `s` at index `i`. */
  predicate OccursAt(s: string, pat: string, i: int) {
    0 <= i && i + |pat| <= |s| && s[i..i + |pat|] == pat
  }

  /** Python's `pat in s` for strings. */
  predicate Contains(s: string, pat: string) {
    exists i :: 0 <= i <= |s| && OccursAt(s, pat, i)
  }

  /** Python's `s.replace(pat, rep)`. */
  function ReplaceAll(s: string, pat: string, rep: string): (r: string)
    requires pat != []
    ensures |rep| >= |pat| ==> |r| >= |s|
    ensures |rep| <= |pat| ==> |r| <= |s|
    decreases |s|
  {
    if |s| < |pat| then s
    else if s[..|pat|] == pat then rep + ReplaceAll(s[|pat|..], pat, rep)
    else [s[0]] + ReplaceAll(s[1..], pat, rep)
  }

  /** Replaces every `c` in `s` by `rep`, one character at a time: the
      reference definition of a one-character replacement. */
  function ExpandChar(s: string, c: char, rep: string): (r: string)
    ensures c !in rep ==> c !in r
    ensures c !in s ==> r == s
    ensures |rep| == 1 ==> |r| == |s|
  {
    if s == [] then []
    else (if s[0] == c then rep else [s[0]]) + ExpandChar(s[1..], c, rep)
  }

  lemma {:induction false} ExpandCharAt(s: string, c: char, d: char, i: nat)
    requires i < |s|
    ensures |ExpandChar(s, c, [d])| == |s|
    ensures ExpandChar(s, c, [d])[i] == if s[i] == c then d else s[i]
    decreases i
  {
    if i > 0 {
      ExpandCharAt(s[1..], c, d, i - 1);
    }
  }

  /** Shifting an occurrence by one character of the scanned string. */
  lemma OccursAtTail(s: string, pat: string, j: int)
    requires |s| > 0 && j >= 0
    ensures OccursAt(s[1..], pat, j) <==> OccursAt(s, pat, j + 1)
  {
    if 0 <= j && j + |pat| <= |s| - 1 {
      assert s[1..][j..j + |pat|] == s[j + 1..j + 1 + |pat|];
    }
  }

  lemma NoMatchInTail(s: string, pat: string, i: nat)
    requires 0 < i <= |s|
    requires NoMatchBefore(s, pat, i)
    ensures !OccursAt(s, pat, 0)
    ensures NoMatchBefore(s[1..], pat, i - 1)
  {
    forall j | 0 <= j < i - 1
      ensures !OccursAt(s[1..], pat, j)
    {
      assert !OccursAt(s, pat, j + 1);
      OccursAtTail(s, pat, j);
    }
  }

  /** `pat` does not occur in `s` before index `i`. */
  predicate NoMatchBefore(s: string, pat: string, i: int) {
    forall j :: 0 <= j < i ==> !OccursAt(s, pat, j)
  }

  lemma ReplaceUnmatchedHead(s: string, pat: string, rep: string)
    requires pat != [] && |s| > 0 && !OccursAt(s, pat, 0)
    ensures ReplaceAll(s, pat, rep) == [s[0]] + ReplaceAll(s[1..], pat, rep)
  {
    if |s| < |pat| {
      assert ReplaceAll(s[1..], pat, rep) == s[1..];
      assert s == [s[0]] + s[1..];
    }
  }

  /** When `pat` does not occur before index `i`, replacing leaves `s[..i]` as it is. */
  lemma {:induction false} ReplaceKeepsUnmatchedPrefix(s: string, pat: string, rep: string, i: nat)
    requires pat != [] && i <= |s|
    requires NoMatchBefore(s, pat, i)
    ensures ReplaceAll(s, pat, rep) == s[..i] + ReplaceAll(s[i..], pat, rep)
    decreases i
  {
    if i > 0 {
      ReplaceUnmatchedHead(s, pat, rep);
      NoMatchInTail(s, pat, i);
      ReplaceKeepsUnmatchedPrefix(s[1..], pat, rep, i - 1);
      assert s[1..][i - 1..] == s[i..];
      assert s[..i] == [s[0]] + s[1..][..i - 1];
    }
  }

  /** Replacing a pattern that does not occur changes nothing. */
  lemma ReplaceWithoutMatch(s: string, pat: string, rep: string)
    requires pat != [] && !Contains(s, pat)
    ensures ReplaceAll(s, pat, rep) == s
  {
    ReplaceKeepsUnmatchedPrefix(s, pat, rep, |s|);
    assert s[..|s|] == s;
  }

  /** A replacement of a different length changes the length of every string
      in which the pattern occurs. */
  lemma {:induction false} ReplaceChangesLength(s: string, pat: string, rep: string, i: int)
    requires pat != [] && OccursAt(s, pat, i)
    ensures |rep| < |pat| ==> |ReplaceAll(s, pat, rep)| < |s|
    ensures |rep| > |pat| ==> |ReplaceAll(s, pat, rep)| > |s|
    decreases i
  {
    if s[..|pat|] != pat {
      assert i != 0;
      OccursAtTail(s, pat, i - 1);
      ReplaceChangesLength(s[1..], pat, rep, i - 1);
    }
  }

  /** The same, for a pattern known only to occur somewhere. */
  lemma ContainsChangesLength(s: string, pat: string, rep: string)
    requires pat != [] && Contains(s, pat)
    ensures |rep| < |pat| ==> |ReplaceAll(s, pat, rep)| < |s|
    ensures |rep| > |pat| ==> |ReplaceAll(s, pat, rep)| > |s|
  {
    var i :| 0 <= i <= |s| && OccursAt(s, pat, i);
    ReplaceChangesLength(s, pat, rep, i);
  }

  /** A string in which `pat` occurs, with `pat` replaced by a string that
      contains `pat`, still contains `pat`. */
  lemma {:induction false} ReplaceKeepsPattern(s: string, pat: string, rep: string, i: int, k: int)
    requires pat != [] && OccursAt(s, pat, i) && OccursAt(rep, pat, k)
    ensures Contains(ReplaceAll(s, pat, rep), pat)
    decreases i
  {
    var r := ReplaceAll(s, pat, rep);
    if s[..|pat|] == pat {
      assert r == rep + ReplaceAll(s[|pat|..], pat, rep);
      assert r[k..k + |pat|] == rep[k..k + |pat|];
      assert OccursAt(r, pat, k);
    } else {
      assert i != 0;
      OccursAtTail(s, pat, i - 1);
      ReplaceKeepsPattern(s[1..], pat, rep, i - 1, k);
      var x := ReplaceAll(s[1..], pat, rep);
      var j :| 0 <= j <= |x| && OccursAt(x, pat, j);
      assert r == [s[0]] + x;
      OccursAtTail(r, pat, j);
      assert r[1..] == x;
      assert OccursAt(r, pat, j + 1);
    }
  }

  /** A one-character pattern is replaced exactly as `ExpandChar` does it. */
  lemma {:induction false} ReplaceCharIsExpand(s: string, c: char, rep: string)
    ensures ReplaceAll(s, [c], rep) == ExpandChar(s, c, rep)
    decreases |s|
  {
    if s != [] {
      ReplaceCharIsExpand(s[1..], c, rep);
      assert s[..1] == [s[0]];
    }
  }

  /** Once every occurrence of `pat` has been marked with a leading `m` (a
      character that `pat` does not contain), the result never starts with `pat`.
      The search runs over the indexes `i` before which `pat` does not occur. */
  lemma {:induction false} MarkedHasNoLeadingPattern(t: string, pat: string, m: char, i: nat)
    requires pat != [] && m !in pat
    requires i <= |pat|
    requires forall j :: 0 <= j < i ==> !OccursAt(t, pat, j)
    ensures !OccursAt(ReplaceAll(t, pat, [m] + pat), pat, 0)
    decreases |pat| - i
  {
    var mp := [m] + pat;
    var u := ReplaceAll(t, pat, mp);
    if i + |pat| > |t| {
      forall j | 0 <= j < |t|
        ensures !OccursAt(t, pat, j)
      {
        if j >= i {
          assert j + |pat| > |t|;
        }
      }
      ReplaceKeepsUnmatchedPrefix(t, pat, mp, |t|);
      assert t[..|t|] == t;
      assert u == t;
      if i == 0 {
        assert |t| < |pat|;
      } else {
        assert !OccursAt(t, pat, 0);
      }
    } else if i == |pat| {
      ReplaceKeepsUnmatchedPrefix(t, pat, mp, i);
      assert !OccursAt(t, pat, 0);
      assert u[..|pat|] == t[..|pat|];
    } else if OccursAt(t, pat, i) {
      ReplaceKeepsUnmatchedPrefix(t, pat, mp, i);
      var rest := t[i..];
      assert rest[..|pat|] == pat;
      assert ReplaceAll(rest, pat, mp) == mp + ReplaceAll(rest[|pat|..], pat, mp);
      assert u[i] == m;
      assert pat[i] != m;
    } else {
      MarkedHasNoLeadingPattern(t, pat, m, i + 1);
    }
  }

  /** Marking every occurrence of `pat` with a leading `m` and then replacing
      every marked occurrence by `pat` again restores the original string. */
  lemma {:induction false} UnmarkAfterMark(s: string, pat: string, m: char)
    requires pat != [] && m !in pat
    ensures ReplaceAll(ReplaceAll(s, pat, [m] + pat), [m] + pat, pat) == s
    decreases |s|
  {
    var mp := [m] + pat;
    if |s| < |pat| {
    } else if s[..|pat|] == pat {
      var rest := s[|pat|..];
      UnmarkAfterMark(rest, pat, m);
      var x := ReplaceAll(rest, pat, mp);
      assert ReplaceAll(s, pat, mp) == mp + x;
      assert (mp + x)[..|mp|] == mp;
      assert (mp + x)[|mp|..] == x;
      assert s == pat + rest;
    } else {
      UnmarkAfterMark(s[1..], pat, m);
      var x := ReplaceAll(s[1..], pat, mp);
      var y := [s[0]] + x;
      assert ReplaceAll(s, pat, mp) == y;
      MarkedHasNoLeadingPattern(s[1..], pat, m, 0);
      if |y| >= |mp| {
        assert y[1..|mp|] == x[..|pat|];
      }
      assert y[1..] == x;
      assert s == [s[0]] + s[1..];
    }
  }
}
