/** The option-toggling rule of the quiz page (`handleOptionClick`,
    src/App.tsx): clicking a selected option deselects it, clicking any
    other option appends it to the ordered list of selected answers. */
module Selection {

  predicate NoDuplicates(s: seq<string>) {
    forall i, j :: 0 <= i < j < |s| ==> s[i] != s[j]
  }

  /** `selectedAnswers.filter((a) => a !== answer)`. */
  function Remove(s: seq<string>, x: string): (r: seq<string>)
    ensures multiset(r) == multiset(s)[x := 0]
    ensures forall y :: y in r <==> y in s && y != x
    ensures x !in s ==> r == s
    ensures NoDuplicates(s) ==> NoDuplicates(r)
  {
    if |s| == 0 then []
    else
      assert s == [s[0]] + s[1..];
      if s[0] == x then Remove(s[1..], x)
      else
        var rest := Remove(s[1..], x);
        assert forall k :: 1 <= k < |s| ==> s[k] == s[1..][k - 1];
        assert NoDuplicates(s) ==> s[0] !in s[1..];
        [s[0]] + rest
  }

  /** `handleOptionClick(x)` applied to the current selection. */
  function Toggle(s: seq<string>, x: string): (r: seq<string>)
    ensures x in r <==> x !in s
    ensures forall y :: y != x ==> (y in r <==> y in s)
    ensures x in s ==> r == Remove(s, x)
    ensures x in s ==> multiset(r) == multiset(s)[x := 0]
    ensures x !in s ==> r == s + [x]
    ensures NoDuplicates(s) ==> NoDuplicates(r)
  {
    if x in s then Remove(s, x) else s + [x]
  }

  /** Toggling an unselected option twice restores the selection exactly. */
  lemma ToggleTwiceAbsent(s: seq<string>, x: string)
    requires x !in s
    ensures Toggle(Toggle(s, x), x) == s
  {
    var t := s + [x];
    assert Remove(t, x) == s by {
      RemoveAppend(s, [x], x);
    }
  }

  /** On a single option, removal keeps it unless it is the one removed. */
  lemma RemoveSingleton(y: string, x: string)
    ensures Remove([y], x) == if y == x then [] else [y]
  {
  }

  /** Removal distributes over concatenation; with `RemoveSingleton` this pins
      `Remove` down to the order-keeping filter. */
  lemma {:induction false} RemoveAppend(s: seq<string>, t: seq<string>, x: string)
    ensures Remove(s + t, x) == Remove(s, x) + Remove(t, x)
  {
    if |s| == 0 {
      assert s + t == t;
    } else {
      assert (s + t)[1..] == s[1..] + t;
      RemoveAppend(s[1..], t, x);
    }
  }

  /** From a duplicate-free selection, toggling any option twice restores
      the selected options; their order is kept only when the option was
      not selected before (see `ToggleTwiceReorders`). */
  lemma ToggleTwiceSameOptions(s: seq<string>, x: string)
    requires NoDuplicates(s)
    ensures multiset(Toggle(Toggle(s, x), x)) == multiset(s)
  {
    if x in s {
      var t := Toggle(s, x);
      assert multiset(t + [x]) == multiset(t) + multiset{x};
      assert multiset(s)[x] == 1 by {
        var i :| 0 <= i < |s| && s[i] == x;
        SingleOccurrence(s, i);
      }
    } else {
      ToggleTwiceAbsent(s, x);
    }
  }

  lemma {:induction false} SingleOccurrence(s: seq<string>, i: nat)
    requires NoDuplicates(s) && i < |s|
    ensures multiset(s)[s[i]] == 1
  {
    assert s == s[..i] + [s[i]] + s[i + 1..];
    assert s[i] !in s[..i] by {
      forall k | 0 <= k < i ensures s[..i][k] != s[i] { assert s[..i][k] == s[k]; }
    }
    var tail := s[i + 1..];
    assert s[i] !in tail by {
      forall k | 0 <= k < |tail| ensures tail[k] != s[i] { assert tail[k] == s[i + 1 + k]; }
    }
  }

  /** Deselecting and reselecting an option moves it to the end. */
  lemma ToggleTwiceReorders()
    ensures Toggle(Toggle(["a", "b"], "a"), "a") == ["b", "a"]
  {
    assert "a" != "b";
    assert Remove(["b"], "a") == ["b"];
  }

  /** The selection after clicking the options `xs` in order. */
  function ToggleAll(s: seq<string>, xs: seq<string>): seq<string>
    decreases |xs|
  {
    if |xs| == 0 then s else ToggleAll(Toggle(s, xs[0]), xs[1..])
  }

  /** After any sequence of clicks an option is selected exactly when it was
      selected at first or clicked an odd number of times, but not both. */
  lemma {:induction false} ToggleAllParity(s: seq<string>, xs: seq<string>, y: string)
    ensures y in ToggleAll(s, xs) <==> ((y in s) != (multiset(xs)[y] % 2 == 1))
    decreases |xs|
  {
    if |xs| > 0 {
      var t := Toggle(s, xs[0]);
      ToggleMembership(s, xs[0], y);
      ToggleAllParity(t, xs[1..], y);
      ClickCount(xs, y);
      ParityStep(multiset(xs[1..])[y], xs[0] == y);
    }
  }

  lemma ParityStep(n: nat, b: bool)
    ensures ((if b then 1 else 0) + n) % 2 == 1 <==> (b != (n % 2 == 1))
  {
  }

  lemma ToggleMembership(s: seq<string>, x: string, y: string)
    ensures y in Toggle(s, x) <==> (y in s) != (y == x)
  {
  }

  lemma ClickCount(xs: seq<string>, y: string)
    requires |xs| > 0
    ensures multiset(xs)[y] == (if xs[0] == y then 1 else 0) + multiset(xs[1..])[y]
  {
    assert xs == [xs[0]] + xs[1..];
  }

  /** No sequence of clicks introduces a duplicate. */
  lemma {:induction false} ToggleAllNoDuplicates(s: seq<string>, xs: seq<string>)
    requires NoDuplicates(s)
    ensures NoDuplicates(ToggleAll(s, xs))
    decreases |xs|
  {
    if |xs| > 0 {
      ToggleAllNoDuplicates(Toggle(s, xs[0]), xs[1..]);
    }
  }

  /** Starting with nothing selected: selected means clicked an odd number of times. */
  lemma ClicksFromEmpty(xs: seq<string>, y: string)
    ensures y in ToggleAll([], xs) <==> multiset(xs)[y] % 2 == 1
    ensures NoDuplicates(ToggleAll([], xs))
  {
    ToggleAllParity([], xs, y);
    ToggleAllNoDuplicates([], xs);
  }
}
