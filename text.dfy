/** Case-insensitive substring matching as the book searches use it:
    both the stored field and the query are lower-cased, then the
    lower-cased field must contain the lower-cased query. Lower-casing is
    ASCII only (culture rules and database collation are not modelled). */
module Text {

  predicate IsUpper(c: char) {
    'A' <= c <= 'Z'
  }

  /** ASCII lower-casing of one character; every other character is kept. */
  function LowerChar(c: char): (r: char)
    ensures !IsUpper(r)
    ensures IsUpper(c) ==> r as int == c as int + 32
    ensures !IsUpper(c) ==> r == c
  {
    if IsUpper(c) then (c as int + 32) as char else c
  }

  /** `s` lower-cased character by character (string.ToLower). */
  function ToLower(s: string): (r: string)
    ensures |r| == |s|
    ensures forall i :: 0 <= i < |s| ==> r[i] == LowerChar(s[i])
    ensures forall i :: 0 <= i < |r| ==> !IsUpper(r[i])
  {
    if s == [] then [] else [LowerChar(s[0])] + ToLower(s[1..])
  }

  /** `s` contains `q` as a contiguous run (string.Contains): `q` is a prefix
      of `s` or of one of its suffixes. */
  predicate Contains(s: string, q: string)
    ensures Contains(s, q) ==> |q| <= |s|
    ensures q == [] ==> Contains(s, q)
    decreases |s|
  {
    q <= s || (s != [] && Contains(s[1..], q))
  }

  /** Independent reference definition: `q` occurs in `s` at position `i`. */
  predicate OccursAt(s: string, q: string, i: int) {
    0 <= i && i + |q| <= |s| && s[i..i + |q|] == q
  }

  /** The field matches the query when its lower-cased form contains the
      lower-cased query. */
  predicate ContainsIgnoreCase(field: string, query: string) {
    Contains(ToLower(field), ToLower(query))
  }

  /** A match found by the recursive definition occurs at some position. */
  lemma {:induction false} ContainsHasPosition(s: string, q: string)
    requires Contains(s, q)
    ensures exists i :: OccursAt(s, q, i)
    decreases |s|
  {
    if q <= s {
      assert OccursAt(s, q, 0);
    } else {
      ContainsHasPosition(s[1..], q);
      var i :| OccursAt(s[1..], q, i);
      assert s[1..][i..i + |q|] == s[i + 1..i + 1 + |q|];
      assert OccursAt(s, q, i + 1);
    }
  }

  /** An occurrence at any position is found by the recursive definition. */
  lemma {:induction false} PositionContains(s: string, q: string, i: int)
    requires OccursAt(s, q, i)
    ensures Contains(s, q)
    decreases i
  {
    if i == 0 {
      assert s[..|q|] == q;
    } else {
      assert s[1..][i - 1..i - 1 + |q|] == s[i..i + |q|];
      PositionContains(s[1..], q, i - 1);
    }
  }

  /** The recursive definition of Contains agrees with "occurs at some position". */
  lemma ContainsIffOccurs(s: string, q: string)
    ensures Contains(s, q) <==> exists i :: OccursAt(s, q, i)
  {
    if Contains(s, q) {
      ContainsHasPosition(s, q);
    }
    if exists i :: OccursAt(s, q, i) {
      var i :| OccursAt(s, q, i);
      PositionContains(s, q, i);
    }
  }

  /** The empty query is contained in every string. */
  lemma ContainsEmpty(s: string)
    ensures Contains(s, [])
  {
  }

  /** A string is contained in any string that embeds it. */
  lemma {:induction false} ContainsInfix(pre: string, q: string, post: string)
    ensures Contains(pre + q + post, q)
    decreases |pre|
  {
    if pre == [] {
      assert pre + q + post == q + post;
      assert q <= q + post;
    } else {
      ContainsInfix(pre[1..], q, post);
      assert (pre + q + post)[1..] == pre[1..] + q + post;
    }
  }

  /** Lower-casing distributes over concatenation. */
  lemma ToLowerAppend(a: string, b: string)
    ensures ToLower(a + b) == ToLower(a) + ToLower(b)
  {
  }

  /** A field embedding a word matches every query equal to that word up to case. */
  lemma InfixMatchesIgnoringCase(pre: string, word: string, post: string, query: string)
    requires ToLower(query) == ToLower(word)
    ensures ContainsIgnoreCase(pre + word + post, query)
  {
    ToLowerAppend(pre + word, post);
    ToLowerAppend(pre, word);
    ContainsInfix(ToLower(pre), ToLower(word), ToLower(post));
  }

  /** Lower-casing twice is lower-casing once. */
  lemma ToLowerIdempotent(s: string)
    ensures ToLower(ToLower(s)) == ToLower(s)
  {
  }

  /** Only the lower-cased query matters: a query and its lower-cased form
      select the same fields. */
  lemma QueryCaseIrrelevant(field: string, query: string)
    ensures ContainsIgnoreCase(field, ToLower(query)) == ContainsIgnoreCase(field, query)
  {
    ToLowerIdempotent(query);
  }

  /** Every field matches the empty query. */
  lemma EmptyQueryMatches(field: string)
    ensures ContainsIgnoreCase(field, "")
  {
    ContainsEmpty(ToLower(field));
  }

  /** The upper-case query "SHINING" matches the title "The Shining". */
  lemma ShiningMatchesUpperCaseQuery()
    ensures ContainsIgnoreCase("The Shining", "SHINING")
  {
    assert ToLower("SHINING") == ToLower("Shining") by {
      var upper, mixed := ToLower("SHINING"), ToLower("Shining");
      assert upper[0] == mixed[0] && upper[1] == mixed[1] && upper[2] == mixed[2];
      assert upper[3] == mixed[3] && upper[4] == mixed[4] && upper[5] == mixed[5];
      assert upper[6] == mixed[6];
    }
    assert "The Shining" == "The " + "Shining" + [];
    InfixMatchesIgnoringCase("The ", "Shining", [], "SHINING");
  }

  /** The lower-case query "king" matches the author name "Stephen King". */
  lemma KingMatchesAuthorName()
    ensures ContainsIgnoreCase("Stephen King", "king")
  {
    assert ToLower("king") == ToLower("King") by {
      var lower, mixed := ToLower("king"), ToLower("King");
      assert lower[0] == mixed[0];
    }
    assert "Stephen King" == "Stephen " + "King" + [];
    InfixMatchesIgnoringCase("Stephen ", "King", [], "king");
  }
}
