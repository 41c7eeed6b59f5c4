/**
 * Character-level predicates of the calculator. The two regular-expression
 * searches of main.py become explicit scans: `\d+\.` (a digit directly
 * followed by a point) and the literal pattern `[ERROR] -`.
 */
module Text {

  predicate IsDigit(c: char) {
    '0' <= c <= '9'
  }

  /** The value carried by one of the ten digit keys. */
  type DigitValue = d: int | 0 <= d <= 9

  /** The character Python's f-string writes for a digit key's int value. */
  function DigitChar(d: DigitValue): (c: char)
    ensures IsDigit(c)
    ensures c as int - '0' as int == d
  {
    ('0' as int + d) as char
  }

  predicate AllDigits(s: string) {
    forall i :: 0 <= i < |s| ==> IsDigit(s[i])
  }

  /** Each character is one a keypad key can type. */
  predicate KeypadChars(s: string) {
    forall i :: 0 <= i < |s| ==> IsDigit(s[i]) || s[i] == '.'
  }

  /** Position `i` holds a point with a digit just before it. */
  predicate DigitDotAt(s: string, i: int) {
    0 < i < |s| && s[i] == '.' && IsDigit(s[i - 1])
  }

  /** Left-to-right scan standing in for `re.search(r"\d+\.", s)`. */
  predicate HasDigitThenDot(s: string)
    ensures HasDigitThenDot(s) ==> |s| >= 2 && '.' in s[1..]
    ensures AllDigits(s) ==> !HasDigitThenDot(s)
  {
    |s| >= 2 && ((IsDigit(s[0]) && s[1] == '.') || HasDigitThenDot(s[1..]))
  }

  lemma {:induction false} HasDigitThenDotSpec(s: string)
    ensures HasDigitThenDot(s) <==> exists i :: DigitDotAt(s, i)
  {
    if |s| >= 2 {
      HasDigitThenDotSpec(s[1..]);
      if IsDigit(s[0]) && s[1] == '.' {
        assert DigitDotAt(s, 1);
      } else if HasDigitThenDot(s[1..]) {
        var j :| DigitDotAt(s[1..], j);
        assert DigitDotAt(s, j + 1);
      } else {
        forall i | 1 < i && DigitDotAt(s, i) ensures DigitDotAt(s[1..], i - 1) {
        }
      }
    }
  }

  /** `pat` occurs in `s` starting at index `i`. */
  predicate OccursAt(s: string, pat: string, i: int) {
    0 <= i && i + |pat| <= |s| && s[i..i + |pat|] == pat
  }

  /** Left-to-right scan standing in for a regex search of a literal pattern. */
  predicate Contains(s: string, pat: string)
    ensures Contains(s, pat) ==> |pat| <= |s|
    ensures |pat| <= |s| && s[..|pat|] == pat ==> Contains(s, pat)
    decreases |s|
  {
    |pat| <= |s| && (s[..|pat|] == pat || Contains(s[1..], pat))
  }

  lemma {:induction false} ContainsSpec(s: string, pat: string)
    ensures Contains(s, pat) <==> exists i :: OccursAt(s, pat, i)
    decreases |s|
  {
    if |pat| <= |s| {
      if s[..|pat|] == pat {
        assert OccursAt(s, pat, 0);
      } else {
        ContainsSpec(s[1..], pat);
        if Contains(s[1..], pat) {
          var j :| OccursAt(s[1..], pat, j);
          assert s[1..][j..j + |pat|] == s[j + 1..j + 1 + |pat|];
          assert OccursAt(s, pat, j + 1);
        } else {
          forall i | 0 < i && OccursAt(s, pat, i) ensures OccursAt(s[1..], pat, i - 1) {
            var tail, here := s[1..][i - 1..i - 1 + |pat|], s[i..i + |pat|];
            forall k | 0 <= k < |pat| ensures tail[k] == here[k] {
              assert s[1..][i - 1 + k] == s[i + k];
            }
            assert tail == here;
          }
        }
      }
    }
  }

  /** An occurrence of `pat` inside a piece of `s` is an occurrence in `s`. */
  lemma ContainsInfix(pre: string, pat: string, post: string)
    ensures Contains(pre + pat + post, pat)
  {
    var s := pre + pat + post;
    assert s[|pre|..|pre| + |pat|] == pat;
    assert OccursAt(s, pat, |pre|);
    ContainsSpec(s, pat);
  }
}
