/** String helpers the server relies on: Python's `str.strip()` and
    plain substring search, stated over `seq<char>`. */
module Text {
  import opened Results

  /** The characters for which Python's `str.isspace()` holds, i.e. the ones
      `str.strip()` removes when called without an argument. */
  predicate IsSpace(c: char) {
    || ('\t' <= c <= '\r')
    || ('\U{1C}' <= c <= '\U{1F}')
    || c == ' '
    || c == '\U{85}'
    || c == '\U{A0}'
    || c == '\U{1680}'
    || ('\U{2000}' <= c <= '\U{200A}')
    || c == '\U{2028}'
    || c == '\U{2029}'
    || c == '\U{202F}'
    || c == '\U{205F}'
    || c == '\U{3000}'
  }

  predicate AllSpace(s: string) {
    forall k :: 0 <= k < |s| ==> IsSpace(s[k])
  }

  /** Neither the first nor the last character is whitespace. */
  predicate NoEdgeSpace(s: string) {
    |s| == 0 || (!IsSpace(s[0]) && !IsSpace(s[|s| - 1]))
  }

  /** `r` sits at offset `i` of `s`, and everything around it is whitespace. */
  predicate StrippedAt(s: string, r: string, i: nat) {
    && i + |r| <= |s|
    && s[i..i + |r|] == r
    && AllSpace(s[..i])
    && AllSpace(s[i + |r|..])
  }

  /** Length of the longest all-whitespace prefix of `s`. */
  function LeadingSpace(s: string): (n: nat)
    ensures n <= |s|
    ensures forall k :: 0 <= k < n ==> IsSpace(s[k])
    ensures n < |s| ==> !IsSpace(s[n])
  {
    if |s| > 0 && IsSpace(s[0]) then 1 + LeadingSpace(s[1..]) else 0
  }

  /** Length of the longest all-whitespace suffix of `s`. */
  function TrailingSpace(s: string): (n: nat)
    ensures n <= |s|
    ensures forall k :: |s| - n <= k < |s| ==> IsSpace(s[k])
    ensures n < |s| ==> !IsSpace(s[|s| - 1 - n])
  {
    if |s| > 0 && IsSpace(s[|s| - 1]) then 1 + TrailingSpace(s[..|s| - 1]) else 0
  }

  /** Python's `s.strip()`: drop whitespace from both ends. */
  function Strip(s: string): (r: string)
    ensures NoEdgeSpace(r)
    ensures exists i :: StrippedAt(s, r, i)
  {
    var i := LeadingSpace(s);
    var j := |s| - TrailingSpace(s[i..]);
    assert StrippedAt(s, s[i..j], i);
    s[i..j]
  }

  /** The two clauses of `Strip`'s contract pin its result down: any slice
      of `s` surrounded by whitespace and without edge whitespace is it. */
  lemma StripUnique(s: string, r: string, i: nat)
    requires StrippedAt(s, r, i) && NoEdgeSpace(r)
    ensures Strip(s) == r
  {
    if |r| == 0 {
      assert AllSpace(s) by {
        forall k | 0 <= k < |s| ensures IsSpace(s[k]) {
          if k < i { assert s[..i][k] == s[k]; }
          else { assert s[i..][k - i] == s[k]; }
        }
      }
      var t := Strip(s);
      var j: nat :| StrippedAt(s, t, j);
    } else {
      assert s[i] == r[0];
      assert forall k :: 0 <= k < i ==> s[..i][k] == s[k];
      assert LeadingSpace(s) == i;
      var u := s[i..];
      var m := |s| - i - |r|;
      assert forall k :: |u| - m <= k < |u| ==> u[k] == s[i + |r|..][k - |r|];
      assert u[|u| - 1 - m] == r[|r| - 1];
      assert TrailingSpace(u) == m;
    }
  }

  lemma StripIdempotent(s: string)
    ensures Strip(Strip(s)) == Strip(s)
  {
    var r := Strip(s);
    assert StrippedAt(r, r, 0);
    StripUnique(r, r, 0);
  }

  /** `pat` occurs in `text` starting at position `k`. */
  predicate OccursAt(pat: string, text: string, k: nat) {
    k + |pat| <= |text| && text[k..k + |pat|] == pat
  }

  ghost predicate Contains(text: string, pat: string) {
    exists k: nat :: OccursAt(pat, text, k)
  }

  /** The first position at or after `from` where `pat` occurs, if any. */
  function IndexOfFrom(pat: string, text: string, from: nat): (r: Option<nat>)
    decreases |text| - from
    ensures r.Some? ==> from <= r.value && OccursAt(pat, text, r.value)
    ensures r.Some? ==> forall k :: from <= k < r.value ==> !OccursAt(pat, text, k)
    ensures r.None? <==> forall k: nat :: from <= k ==> !OccursAt(pat, text, k)
  {
    if from + |pat| > |text| then None
    else if text[from..from + |pat|] == pat then
      assert OccursAt(pat, text, from);
      Some(from)
    else IndexOfFrom(pat, text, from + 1)
  }

  /** Occurrences that end inside `text` are unaffected by appending to it. */
  lemma OccursAtExtended(pat: string, text: string, suffix: string, k: nat)
    requires k + |pat| <= |text|
    ensures OccursAt(pat, text + suffix, k) <==> OccursAt(pat, text, k)
  {
    assert (text + suffix)[k..k + |pat|] == text[k..k + |pat|];
  }

  /** A pattern absent from `s` is absent from every slice of `s`. */
  lemma SliceAvoids(pat: string, s: string, r: string, i: nat)
    requires i + |r| <= |s| && s[i..i + |r|] == r
    requires !Contains(s, pat)
    ensures !Contains(r, pat)
  {
    forall k: nat | OccursAt(pat, r, k) ensures false {
      forall m | 0 <= m < |pat| ensures s[i + k + m] == pat[m] {
        assert r[k..k + |pat|][m] == r[k + m] == s[i..i + |r|][k + m];
      }
      assert s[i + k..i + k + |pat|] == pat;
      assert OccursAt(pat, s, i + k);
    }
  }
}
