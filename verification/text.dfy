/**
 * The pieces of Python's string behaviour the model relies on: what
 * `str.strip()` removes and how it removes it.
 */
module Text {

  /** Python's `str.isspace()` on a single character: the ASCII controls
      TAB..CR and FS..US, the space, and the Unicode space separators and
      line/paragraph separators. */
  predicate IsSpace(c: char)
  {
    || ('\t' <= c <= '\r')
    || ('\U{1C}' <= c <= '\U{1F}')
    || c == ' '
    || c == '\U{85}'
    || c == '\U{A0}'
    || c == '\U{1680}'
    || ('\U{2000}' <= c <= '\U{200A}')
    || c == '\U{2028}'
    || c == '\U{2029}'
    || c == '\U{202F}'
    || c == '\U{205F}'
    || c == '\U{3000}'
  }

  predicate AllSpace(s: string)
  {
    forall i | 0 <= i < |s| :: IsSpace(s[i])
  }

  /** Neither the first nor the last character is whitespace. */
  predicate NoOuterSpace(s: string)
  {
    |s| == 0 || (!IsSpace(s[0]) && !IsSpace(s[|s| - 1]))
  }

  /** `t` is what remains of `s` after removing a whitespace-only prefix of
      length `i` and a whitespace-only suffix. */
  predicate TrimmedAt(s: string, t: string, i: nat)
  {
    && i + |t| <= |s|
    && s[i..i + |t|] == t
    && AllSpace(s[..i])
    && AllSpace(s[i + |t|..])
  }

  /** The number of whitespace characters at the start of `s`. */
  function LeadingSpace(s: string): (n: nat)
    ensures n <= |s|
    ensures AllSpace(s[..n])
    ensures n == |s| || !IsSpace(s[n])
  {
    if |s| == 0 || !IsSpace(s[0]) then 0
    else
      var k := LeadingSpace(s[1..]);
      assert s[1..][..k] == s[1..k + 1];
      k + 1
  }

  /** The number of whitespace characters at the end of `s`. */
  function TrailingSpace(s: string): (n: nat)
    ensures n <= |s|
    ensures AllSpace(s[|s| - n..])
    ensures n == |s| || !IsSpace(s[|s| - n - 1])
  {
    if |s| == 0 || !IsSpace(s[|s| - 1]) then 0
    else
      var k := TrailingSpace(s[..|s| - 1]);
      assert s[..|s| - 1][|s| - 1 - k..] == s[|s| - 1 - k..|s| - 1];
      k + 1
  }

  /** Python's `s.strip()`: removes leading and trailing whitespace. */
  function Strip(s: string): (r: string)
    ensures NoOuterSpace(r)
    ensures TrimmedAt(s, r, LeadingSpace(s))
  {
    var i := LeadingSpace(s);
    var j := TrailingSpace(s[i..]);
    assert s[i..][|s| - i - j..] == s[|s| - j..];
    assert j < |s| - i ==> s[i..][|s| - i - j - 1] == s[|s| - j - 1];
    TrimmedEnds(s, i, j);
    s[i..|s| - j]
  }

  /** Cutting `i` leading and `j` trailing whitespace characters, where the
      characters just inside the cuts are not whitespace, trims `s`. */
  lemma TrimmedEnds(s: string, i: nat, j: nat)
    requires i + j <= |s|
    requires AllSpace(s[..i]) && (i == |s| || !IsSpace(s[i]))
    requires AllSpace(s[|s| - j..]) && (i + j == |s| || !IsSpace(s[|s| - j - 1]))
    ensures NoOuterSpace(s[i..|s| - j])
    ensures TrimmedAt(s, s[i..|s| - j], i)
  {
  }

  /** Stripping is determined by its two properties: a string is the strip
      of `s` if and only if it has no outer whitespace and `s` is that
      string with whitespace only around it. */
  lemma StripCharacterization(s: string, t: string)
    ensures t == Strip(s) <==> (NoOuterSpace(t) && exists i: nat :: TrimmedAt(s, t, i))
  {
    if NoOuterSpace(t) && exists i: nat :: TrimmedAt(s, t, i) {
      var i: nat :| TrimmedAt(s, t, i);
      TrimmedUnique(s, t, i, Strip(s), LeadingSpace(s));
    }
  }

  /** Two ways of trimming `s` that both leave no outer whitespace agree. */
  lemma TrimmedUnique(s: string, t: string, i: nat, u: string, k: nat)
    requires TrimmedAt(s, t, i) && NoOuterSpace(t)
    requires TrimmedAt(s, u, k) && NoOuterSpace(u)
    ensures t == u
  {
    if |t| == 0 || |u| == 0 {
      if |t| == 0 && |u| > 0 {
        SpaceInside(s, t, i, k);
      } else if |u| == 0 && |t| > 0 {
        SpaceInside(s, u, k, i);
      }
    }
  }

  /** If trimming `s` can leave nothing, every character of `s` is whitespace. */
  lemma SpaceInside(s: string, t: string, i: nat, k: nat)
    requires TrimmedAt(s, t, i) && |t| == 0
    requires k < |s|
    ensures IsSpace(s[k])
  {
    if k < i {
      assert s[..i][k] == s[k];
    } else {
      assert s[i..][k - i] == s[k];
    }
  }

  /** Stripping twice is stripping once. */
  lemma StripIdempotent(s: string)
    ensures Strip(Strip(s)) == Strip(s)
  {
  }

  /** Whitespace added at either end is stripped away again. */
  lemma StripAbsorbsSpace(a: string, t: string, b: string)
    requires AllSpace(a) && AllSpace(b)
    ensures Strip(a + t + b) == Strip(t)
  {
    var r := Strip(t);
    TrimmedWiden(a, t, b, r, LeadingSpace(t));
    StripCharacterization(a + t + b, r);
  }

  /** A trim of `t` is also a trim of `t` with whitespace around it. */
  lemma TrimmedWiden(a: string, t: string, b: string, r: string, i: nat)
    requires AllSpace(a) && AllSpace(b)
    requires TrimmedAt(t, r, i)
    ensures TrimmedAt(a + t + b, r, |a| + i)
  {
    var s := a + t + b;
    var j := i + |r|;
    assert s[..|a| + i] == a + t[..i];
    assert s[|a| + i..|a| + j] == t[i..j];
    assert s[|a| + j..] == t[j..] + b;
    assert AllSpace(a + t[..i]);
    assert AllSpace(t[j..] + b);
  }

  /** A string without outer whitespace is its own strip. */
  lemma StripOfTrimmed(t: string)
    requires NoOuterSpace(t)
    ensures Strip(t) == t
  {
  }
}
