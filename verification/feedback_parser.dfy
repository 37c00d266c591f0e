/** The output parser applied to the language model's reply
    (`FeedbackOutputParser.parse`, api/api/helpers.py): it keeps the body of
    the first `<feedback>...</feedback>` element, stripped of surrounding
    whitespace, and raises when there is none.

    The regular expression `<feedback>([\s\S]*?)</feedback>` is modelled
    directly: `re.search` takes the leftmost opening tag that is followed by
    a closing tag, and the lazy group stops at the first closing tag. */
module FeedbackParser {
  import opened Results
  import opened Text

  const Open: string := "<feedback>"
  const Close: string := "</feedback>"

  /** `OutputParserException`, carrying the text that was received. */
  datatype ParseError = MissingFeedbackTag(received: string)

  /** An opening tag at `i` and a closing tag at `j` after it: one way the
      pattern can match `text`. */
  ghost predicate MatchAt(text: string, i: nat, j: nat) {
    && OccursAt(Open, text, i)
    && i + |Open| <= j
    && OccursAt(Close, text, j)
  }

  ghost predicate HasMatch(text: string) {
    exists i: nat, j: nat :: MatchAt(text, i, j)
  }

  /** The match `re.search` reports: leftmost start, then shortest body. */
  ghost predicate SearchMatch(text: string, i: nat, j: nat) {
    && MatchAt(text, i, j)
    && (forall i': nat, j': nat :: i' < i ==> !MatchAt(text, i', j'))
    && (forall j': nat :: i + |Open| <= j' < j ==> !OccursAt(Close, text, j'))
  }

  /** Positions of the opening and closing tag of the reported match:
      the first opening tag, then the first closing tag after it. */
  function Search(text: string): (r: Option<(nat, nat)>)
    ensures r.None? <==> !HasMatch(text)
    ensures r.Some? ==> SearchMatch(text, r.value.0, r.value.1)
  {
    match IndexOfFrom(Open, text, 0)
    case None => None
    case Some(i) =>
      match IndexOfFrom(Close, text, i + |Open|)
      case None =>
        assert forall i': nat, j': nat :: MatchAt(text, i', j') ==> i <= i' && !OccursAt(Close, text, j');
        None
      case Some(j) =>
        assert MatchAt(text, i, j);
        Some((i, j))
  }

  /** There is at most one reported match. */
  lemma SearchMatchUnique(text: string, i: nat, j: nat, i': nat, j': nat)
    requires SearchMatch(text, i, j) && SearchMatch(text, i', j')
    ensures i == i' && j == j'
  {
  }

  /** `FeedbackOutputParser.parse`. */
  function Parse(text: string): (r: Result<string, ParseError>)
    ensures r.Failure? <==> !HasMatch(text)
    ensures r.Failure? ==> r.error == MissingFeedbackTag(text)
    ensures r.Success? ==>
      exists i: nat, j: nat :: SearchMatch(text, i, j) && r.value == Strip(text[i + |Open|..j])
    ensures r.Success? ==> NoEdgeSpace(r.value)
    ensures r.Success? ==> !Contains(r.value, Close)
  {
    match Search(text)
    case None => Failure(MissingFeedbackTag(text))
    case Some((i, j)) =>
      FeedbackAvoidsClose(text, i, j);
      Success(Strip(text[i + |Open|..j]))
  }

  /** Stripping keeps the result inside the body, so it holds no closing tag either. */
  lemma FeedbackAvoidsClose(text: string, i: nat, j: nat)
    requires SearchMatch(text, i, j)
    ensures !Contains(Strip(text[i + |Open|..j]), Close)
  {
    var body := text[i + |Open|..j];
    BodyAvoidsClose(text, i, j);
    var k: nat :| StrippedAt(body, Strip(body), k);
    SliceAvoids(Close, body, Strip(body), k);
  }

  /** The lazy group never spans a closing tag. */
  lemma BodyAvoidsClose(text: string, i: nat, j: nat)
    requires SearchMatch(text, i, j)
    ensures !Contains(text[i + |Open|..j], Close)
  {
    var body := text[i + |Open|..j];
    forall k: nat | OccursAt(Close, body, k) ensures false {
      forall m | 0 <= m < |Close| ensures text[i + |Open| + k + m] == Close[m] {
        assert body[k..k + |Close|][m] == body[k + m];
      }
      assert text[i + |Open| + k..i + |Open| + k + |Close|] == Close;
      assert OccursAt(Close, text, i + |Open| + k);
    }
  }

  /** Parsing is determined by the reported match. */
  lemma ParseAtMatch(text: string, i: nat, j: nat)
    requires SearchMatch(text, i, j)
    ensures Parse(text) == Success(Strip(text[i + |Open|..j]))
  {
    assert MatchAt(text, i, j);
    var r := Search(text);
    SearchMatchUnique(text, i, j, r.value.0, r.value.1);
  }

  /** No closing tag starts inside the wrapped text or overlaps the final one. */
  lemma WrappedCloseFirst(s: string, text: string, k: nat)
    requires !Contains(s, Close)
    requires text == Open + s + Close
    requires |Open| <= k < |Open| + |s|
    ensures !OccursAt(Close, text, k)
  {
    var j := |Open| + |s|;
    if k + |Close| <= j {
      var p := k - |Open|;
      var window := text[k..k + |Close|];
      assert window == s[p..p + |Close|] by {
        forall m | 0 <= m < |Close| ensures window[m] == s[p..p + |Close|][m] {
          assert window[m] == text[k + m] == (Open + s)[k + m];
        }
      }
      assert !OccursAt(Close, s, p);
    } else {
      var d := j - k;
      assert text[j] == '<';
      assert Close[d] != '<';
    }
  }

  /** Wrapping a text that holds no closing tag in the two tags and parsing
      gives back the text, stripped. */
  lemma WrapThenParse(s: string)
    requires !Contains(s, Close)
    ensures Parse(Open + s + Close) == Success(Strip(s))
  {
    var text := Open + s + Close;
    var j := |Open| + |s|;
    assert text[..|Open|] == Open;
    assert OccursAt(Open, text, 0);
    assert text[j..] == Close;
    assert OccursAt(Close, text, j);
    forall k: nat | |Open| <= k < j ensures !OccursAt(Close, text, k) {
      WrappedCloseFirst(s, text, k);
    }
    assert SearchMatch(text, 0, j);
    assert text[|Open|..j] == s;
    ParseAtMatch(text, 0, j);
  }

  /** A match of `text` is still the reported match once anything is appended. */
  lemma SearchMatchExtended(text: string, suffix: string, i: nat, j: nat)
    requires SearchMatch(text, i, j)
    ensures SearchMatch(text + suffix, i, j)
  {
    var ext := text + suffix;
    OccursAtExtended(Open, text, suffix, i);
    OccursAtExtended(Close, text, suffix, j);
    forall i': nat, j': nat | i' < i ensures !MatchAt(ext, i', j') {
      OccursAtExtended(Open, text, suffix, i');
      assert !MatchAt(text, i', j);
    }
    forall j': nat | i + |Open| <= j' < j ensures !OccursAt(Close, ext, j') {
      OccursAtExtended(Close, text, suffix, j');
    }
  }

  /** A reply that already parses keeps parsing to the same feedback,
      whatever is appended to it. */
  lemma ParseIgnoresSuffix(text: string, suffix: string)
    requires Parse(text).Success?
    ensures Parse(text + suffix) == Parse(text)
  {
    var i: nat, j: nat :| SearchMatch(text, i, j) && Parse(text).value == Strip(text[i + |Open|..j]);
    SearchMatchExtended(text, suffix, i, j);
    assert (text + suffix)[i + |Open|..j] == text[i + |Open|..j];
    ParseAtMatch(text + suffix, i, j);
  }
}
