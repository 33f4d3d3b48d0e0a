/** Substring search and removal on strings, as Python's `in` and `str.replace` use them. */
module Text {

  /** Python's `w in text`: `w` occurs somewhere in `text` (the empty string occurs everywhere). */
  predicate Contains(text: string, w: string)
    decreases |text|
  {
    w <= text || (text != [] && Contains(text[1..], w))
  }

  /** Independent reading of `Contains`: some suffix of `text` starts with `w`. */
  lemma {:induction false} ContainsIff(text: string, w: string)
    ensures Contains(text, w) <==> exists k :: 0 <= k <= |text| && w <= text[k..]
    decreases |text|
  {
    assert text[0..] == text;
    if text != [] {
      ContainsIff(text[1..], w);
      if Contains(text[1..], w) {
        var k :| 0 <= k <= |text[1..]| && w <= text[1..][k..];
        assert text[1..][k..] == text[k + 1..];
      }
      if k :| 0 <= k <= |text| && w <= text[k..] {
        if k > 0 {
          assert text[k..] == text[1..][k - 1..];
        }
      }
    }
  }

  /** A string in which `w` occurs, extended on either side, still contains `w`. */
  lemma {:induction false} ContainsInContext(a: string, w: string, b: string)
    ensures Contains(a + w + b, w)
    decreases |a|
  {
    if a == [] {
      assert a + w + b == w + b;
    } else {
      assert (a + w + b)[1..] == a[1..] + w + b;
      ContainsInContext(a[1..], w, b);
    }
  }

  /** Python's `s.replace(pat, "")` for a non-empty `pat`: scan left to right and drop every
      non-overlapping occurrence of `pat`. */
  function RemoveAll(s: string, pat: string): (r: string)
    requires pat != []
    ensures |r| <= |s|
    decreases |s|
  {
    if s == [] then []
    else if pat <= s then RemoveAll(s[|pat|..], pat)
    else [s[0]] + RemoveAll(s[1..], pat)
  }

  /** Removal leaves a string unchanged exactly when the pattern does not occur in it. */
  lemma {:induction false} RemoveAllUnchangedIff(s: string, pat: string)
    requires pat != []
    ensures RemoveAll(s, pat) == s <==> !Contains(s, pat)
    decreases |s|
  {
    if s != [] {
      if pat <= s {
        assert |RemoveAll(s[|pat|..], pat)| < |s|;
      } else {
        RemoveAllUnchangedIff(s[1..], pat);
        assert ([s[0]] + RemoveAll(s[1..], pat) == s) <==> (RemoveAll(s[1..], pat) == s[1..]) by {
          if [s[0]] + RemoveAll(s[1..], pat) == s {
            assert RemoveAll(s[1..], pat) == ([s[0]] + RemoveAll(s[1..], pat))[1..];
          }
        }
      }
    }
  }
}
