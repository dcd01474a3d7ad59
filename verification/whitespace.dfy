/**
 * Whitespace trimming of one input line (`str.strip()` with no argument).
 * The whitespace set is fixed to the six characters Python 2's byte strings
 * treat as space in the C locale.
 */
module Whitespace {

  predicate IsSpace(c: char) {
    c == ' ' || c == '\t' || c == '\n' || c == '\U{B}' || c == '\U{C}' || c == '\r'
  }

  predicate AllSpace(s: string) {
    forall i :: 0 <= i < |s| ==> IsSpace(s[i])
  }

  /** A trimmed line: empty, or neither starting nor ending with whitespace. */
  predicate Trimmed(t: string) {
    t == [] || (!IsSpace(t[0]) && !IsSpace(t[|t| - 1]))
  }

  /** The end of the whitespace run that starts at index `k`. */
  function SkipSpace(s: string, k: nat): (e: nat)
    requires k <= |s|
    ensures k <= e <= |s|
    ensures forall j :: k <= j < e ==> IsSpace(s[j])
    ensures e == |s| || !IsSpace(s[e])
    decreases |s| - k
  {
    if k == |s| || !IsSpace(s[k]) then k else SkipSpace(s, k + 1)
  }

  /** The start of the whitespace run that ends just before index `e`. */
  function SkipSpaceBack(s: string, e: nat): (b: nat)
    requires e <= |s|
    ensures b <= e
    ensures forall j :: b <= j < e ==> IsSpace(s[j])
    ensures b == 0 || !IsSpace(s[b - 1])
  {
    if e == 0 || !IsSpace(s[e - 1]) then e else SkipSpaceBack(s, e - 1)
  }

  /**
   * `s` with its leading and trailing whitespace removed. The result is
   * trimmed, and it is empty exactly when `s` is all whitespace;
   * StripSlice shows it is the slice of `s` between two whitespace runs.
   */
  function Strip(s: string): (t: string)
    ensures Trimmed(t)
    ensures t == [] <==> AllSpace(s)
  {
    var i := SkipSpace(s, 0);
    if i == |s| then []
    else
      var e := SkipSpaceBack(s, |s|);
      assert i < e;
      s[i..e]
  }

  /** Strip(s) is a slice of `s` with only whitespace before and after it. */
  lemma StripSlice(s: string) returns (i: nat)
    ensures i + |Strip(s)| <= |s|
    ensures s[i..i + |Strip(s)|] == Strip(s)
    ensures AllSpace(s[..i]) && AllSpace(s[i + |Strip(s)|..])
  {
    i := SkipSpace(s, 0);
    if i < |s| {
      var e := SkipSpaceBack(s, |s|);
      assert Strip(s) == s[i..e];
      assert forall j :: 0 <= j < |s| - e ==> s[e..][j] == s[e + j];
    }
  }

  /**
   * Strip is determined by its contract: a line that is whitespace, then a
   * trimmed core, then whitespace strips to that core.
   */
  lemma StripUnique(a: string, t: string, b: string)
    requires AllSpace(a) && AllSpace(b) && Trimmed(t)
    ensures Strip(a + t + b) == t
  {
    var s := a + t + b;
    if t == [] {
      assert AllSpace(s) by {
        forall k | 0 <= k < |s| ensures IsSpace(s[k]) {
          if k < |a| { assert s[k] == a[k]; } else { assert s[k] == b[k - |a|]; }
        }
      }
    } else {
      assert s[|a|] == t[0];
      assert SkipSpace(s, 0) == |a|;
      assert s[|a| + |t| - 1] == t[|t| - 1];
      assert SkipSpaceBack(s, |s|) == |a| + |t|;
      assert s[|a|..|a| + |t|] == t;
    }
  }

  /** Stripping a stripped line changes nothing. */
  lemma StripIdempotent(s: string)
    ensures Strip(Strip(s)) == Strip(s)
  {
    StripUnique([], Strip(s), []);
    assert [] + Strip(s) + [] == Strip(s);
  }
}
