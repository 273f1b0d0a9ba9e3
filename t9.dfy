/**
 * The T9 query engine: walk the trie in lock-step with a digit string,
 * branching on every letter of each digit's key, and collect the complete
 * words reached when the digits run out.
 */
module T9 {
  import opened Wrappers
  import opened Keypad
  import opened Arena

  /** One query answer: the word's score and the word. */
  datatype T9Result = T9Result(score: int, word: string)

  /**
   * Append to `acc` the words reachable from node `n` by typing `digits`.
   * With no digits left, node `n` itself is the answer when it carries a
   * positive score; otherwise every letter of the first digit's key is tried.
   */
  function T9Words(t: seq<Node>, n: nat, digits: string, acc: seq<T9Result>): (r: seq<T9Result>)
    requires WellFormed(t) && n < |t|
    ensures acc <= r
    decreases |digits|, 1, 0
  {
    if |digits| == 0 then
      if t[n].end > 0 then acc + [T9Result(t[n].end, Spell(t, n))] else acc
    else
      Branches(t, n, KeyGroup(digits[0]), digits[1..], acc)
  }

  /** The loop over the letters of one key: descend into each letter that has a child, in key order. */
  function Branches(t: seq<Node>, n: nat, letters: seq<char>, rest: string, acc: seq<T9Result>): (r: seq<T9Result>)
    requires WellFormed(t) && n < |t|
    ensures acc <= r
    decreases |rest| + 1, 0, |letters|
  {
    if letters == [] then acc
    else
      var acc' :=
        if letters[0] in t[n].children then
          assert ChildLinked(t, n, letters[0]);
          T9Words(t, t[n].children[letters[0]], rest, acc)
        else acc;
      Branches(t, n, letters[1..], rest, acc')
  }

  /** A query from the root with an empty accumulator. */
  function Query(t: seq<Node>, digits: string): (r: seq<T9Result>)
    requires WellFormed(t)
    ensures forall res :: res in r ==> |res.word| == |digits| && res.score > 0
  {
    T9WordsSound(t, 0, digits, []);
    T9Words(t, 0, digits, [])
  }

  /**
   * `res` is a genuine answer below node `n` for `digits`: its word is `n`'s
   * word followed by letters typed by `digits`, and it carries the positive
   * score stored where those letters lead.
   */
  predicate FoundBelow(t: seq<Node>, n: nat, digits: string, res: T9Result)
    requires WellFormed(t) && n < |t|
  {
    var pre := Spell(t, n);
    && |pre| <= |res.word|
    && res.word[..|pre|] == pre
    && KeyMatches(res.word[|pre|..], digits)
    && res.score > 0
    && ScoreFrom(t, n, res.word[|pre|..]) == res.score
  }

  /** An answer found below a child is an answer below its parent, one digit earlier. */
  lemma FoundStep(t: seq<Node>, n: nat, c: char, d: char, rest: string, res: T9Result)
    requires WellFormed(t) && n < |t| && c in t[n].children && c in KeyGroup(d)
    requires t[n].children[c] < |t| && FoundBelow(t, t[n].children[c], rest, res)
    ensures FoundBelow(t, n, [d] + rest, res)
  {
    var k := t[n].children[c];
    SpellChild(t, n, c);
    var pre := Spell(t, n);
    var u := res.word[|pre| + 1..];
    assert res.word[..|pre| + 1] == pre + [c];
    assert res.word[..|pre|] == (pre + [c])[..|pre|];
    assert res.word[|pre|..] == [c] + u;
    assert ([c] + u)[1..] == u;
    var digits := [d] + rest;
    assert KeyMatches([c] + u, digits) by {
      forall i | 0 <= i < |u| + 1 ensures ([c] + u)[i] in KeyGroup(digits[i]) {
        if i > 0 { assert ([c] + u)[i] == u[i - 1] && digits[i] == rest[i - 1]; }
      }
    }
  }

  /** Soundness: everything T9Words appends is a genuine answer. */
  lemma {:induction false} T9WordsSound(t: seq<Node>, n: nat, digits: string, acc: seq<T9Result>)
    requires WellFormed(t) && n < |t|
    ensures forall k :: |acc| <= k < |T9Words(t, n, digits, acc)| ==> FoundBelow(t, n, digits, T9Words(t, n, digits, acc)[k])
    decreases |digits|, 1, 0
  {
    if |digits| != 0 {
      BranchesSound(t, n, KeyGroup(digits[0]), digits[0], digits[1..], acc);
      assert [digits[0]] + digits[1..] == digits;
    } else if t[n].end > 0 {
      var res := T9Result(t[n].end, Spell(t, n));
      assert res.word[|Spell(t, n)|..] == [];
    }
  }

  /** Soundness of the loop over the letters of the key for digit `d`. */
  lemma {:induction false} BranchesSound(t: seq<Node>, n: nat, letters: seq<char>, d: char, rest: string, acc: seq<T9Result>)
    requires WellFormed(t) && n < |t|
    requires forall i :: 0 <= i < |letters| ==> letters[i] in KeyGroup(d)
    ensures forall k :: |acc| <= k < |Branches(t, n, letters, rest, acc)| ==>
      FoundBelow(t, n, [d] + rest, Branches(t, n, letters, rest, acc)[k])
    decreases |rest| + 1, 0, |letters|
  {
    if letters != [] {
      var c := letters[0];
      var acc' := if c in t[n].children then T9Words(t, t[n].children[c], rest, acc) else acc;
      if c in t[n].children {
        SpellChild(t, n, c);
        var child := t[n].children[c];
        T9WordsSound(t, child, rest, acc);
        forall k | |acc| <= k < |acc'| ensures FoundBelow(t, n, [d] + rest, acc'[k]) {
          FoundStep(t, n, c, d, rest, acc'[k]);
        }
      }
      BranchesSound(t, n, letters[1..], d, rest, acc');
    }
  }

  /** Completeness: every stored word below `n` that `digits` types is appended, with its score. */
  lemma {:induction false} T9WordsComplete(t: seq<Node>, n: nat, digits: string, acc: seq<T9Result>, u: string)
    requires WellFormed(t) && n < |t|
    requires KeyMatches(u, digits) && ScoreFrom(t, n, u) > 0
    ensures T9Result(ScoreFrom(t, n, u), Spell(t, n) + u) in T9Words(t, n, digits, acc)[|acc|..]
    decreases |digits|, 1, 0
  {
    if |digits| == 0 {
      assert u == [] && Spell(t, n) + u == Spell(t, n);
      assert T9Words(t, n, digits, acc)[|acc|..] == [T9Result(t[n].end, Spell(t, n))];
    } else {
      assert KeyMatches(u[1..], digits[1..]) by {
        forall i | 0 <= i < |u| - 1 ensures u[1..][i] in KeyGroup(digits[1..][i]) {
          assert u[1..][i] == u[i + 1];
        }
      }
      BranchesComplete(t, n, KeyGroup(digits[0]), digits[1..], acc, u);
    }
  }

  /** A word with a positive score below `n` starts with one of `n`'s children and continues below it. */
  lemma ScoreFromChild(t: seq<Node>, n: nat, u: string)
    requires WellFormed(t) && n < |t| && u != [] && ScoreFrom(t, n, u) > 0
    ensures u[0] in t[n].children && t[n].children[u[0]] < |t|
    ensures ScoreFrom(t, n, u) == ScoreFrom(t, t[n].children[u[0]], u[1..])
    ensures Spell(t, t[n].children[u[0]]) + u[1..] == Spell(t, n) + u
  {
    SpellChild(t, n, u[0]);
    assert [u[0]] + u[1..] == u;
  }

  /** Completeness of the loop over a key's letters, for a word whose first letter is among them. */
  lemma {:induction false} BranchesComplete(t: seq<Node>, n: nat, letters: seq<char>, rest: string, acc: seq<T9Result>, u: string)
    requires WellFormed(t) && n < |t|
    requires |u| == |rest| + 1 && u[0] in letters && KeyMatches(u[1..], rest) && ScoreFrom(t, n, u) > 0
    ensures T9Result(ScoreFrom(t, n, u), Spell(t, n) + u) in Branches(t, n, letters, rest, acc)[|acc|..]
    decreases |rest| + 1, 0, |letters|
  {
    var c := letters[0];
    var acc' := if c in t[n].children then T9Words(t, t[n].children[c], rest, acc) else acc;
    var r := Branches(t, n, letters[1..], rest, acc');
    assert Branches(t, n, letters, rest, acc) == r;
    assert acc <= acc' <= r;
    if c == u[0] {
      ScoreFromChild(t, n, u);
      T9WordsComplete(t, t[n].children[c], rest, acc, u[1..]);
      assert acc'[|acc|..] <= r[|acc|..];
    } else {
      BranchesComplete(t, n, letters[1..], rest, acc', u);
      assert r[|acc'|..] == r[|acc|..][|acc'| - |acc|..];
    }
  }

  /** No two answers from position `m` on share a word. */
  predicate DistinctFrom(r: seq<T9Result>, m: nat)
  {
    forall i, j :: m <= i < j < |r| ==> r[i].word != r[j].word
  }

  /** Every answer the letter loop appends continues `n`'s word with one of the letters tried. */
  lemma {:induction false} BranchesLetters(t: seq<Node>, n: nat, letters: seq<char>, rest: string, acc: seq<T9Result>)
    requires WellFormed(t) && n < |t|
    ensures forall k :: |acc| <= k < |Branches(t, n, letters, rest, acc)| ==>
      |Spell(t, n)| < |Branches(t, n, letters, rest, acc)[k].word| &&
      Branches(t, n, letters, rest, acc)[k].word[|Spell(t, n)|] in letters
    decreases |letters|
  {
    if letters != [] {
      var c := letters[0];
      var acc' := if c in t[n].children then T9Words(t, t[n].children[c], rest, acc) else acc;
      if c in t[n].children {
        SpellChild(t, n, c);
        ChildAnswersStartWith(t, n, c, rest, acc);
      }
      BranchesLetters(t, n, letters[1..], rest, acc');
    }
  }

  /** T9Words never appends the same word twice. */
  lemma {:induction false} T9WordsDistinct(t: seq<Node>, n: nat, digits: string, acc: seq<T9Result>)
    requires WellFormed(t) && n < |t|
    ensures DistinctFrom(T9Words(t, n, digits, acc), |acc|)
    decreases |digits|, 1, 0
  {
    if |digits| != 0 {
      BranchesDistinct(t, n, KeyGroup(digits[0]), digits[1..], acc);
    }
  }

  /** The answers found below the child for `c` all continue `n`'s word with `c`. */
  lemma ChildAnswersStartWith(t: seq<Node>, n: nat, c: char, rest: string, acc: seq<T9Result>)
    requires WellFormed(t) && n < |t| && c in t[n].children && t[n].children[c] < |t|
    ensures forall k :: |acc| <= k < |T9Words(t, t[n].children[c], rest, acc)| ==>
      |Spell(t, n)| < |T9Words(t, t[n].children[c], rest, acc)[k].word| &&
      T9Words(t, t[n].children[c], rest, acc)[k].word[|Spell(t, n)|] == c
  {
    var pre := Spell(t, n);
    var r := T9Words(t, t[n].children[c], rest, acc);
    SpellChild(t, n, c);
    T9WordsSound(t, t[n].children[c], rest, acc);
    forall k | |acc| <= k < |r| ensures |pre| < |r[k].word| && r[k].word[|pre|] == c {
      assert r[k].word[..|pre| + 1] == pre + [c];
    }
  }

  /**
   * Two runs of distinct answers stay distinct together when every answer of
   * the first has letter `c` at position `p` and no answer of the second does.
   */
  lemma DistinctJoin(r: seq<T9Result>, a: seq<T9Result>, m: nat, p: nat, c: char, later: seq<char>)
    requires a <= r && m <= |a| && DistinctFrom(a, m) && DistinctFrom(r, |a|) && c !in later
    requires forall k :: m <= k < |a| ==> p < |a[k].word| && a[k].word[p] == c
    requires forall k :: |a| <= k < |r| ==> p < |r[k].word| && r[k].word[p] in later
    ensures DistinctFrom(r, m)
  {
    forall i, j | m <= i < j < |r| ensures r[i].word != r[j].word {
      if i < |a| {
        assert r[i] == a[i];
        if j < |a| { assert r[j] == a[j]; }
      }
    }
  }

  /** The letter loop over distinct letters never appends the same word twice. */
  lemma {:induction false} BranchesDistinct(t: seq<Node>, n: nat, letters: seq<char>, rest: string, acc: seq<T9Result>)
    requires WellFormed(t) && n < |t|
    requires forall i, j :: 0 <= i < j < |letters| ==> letters[i] != letters[j]
    ensures DistinctFrom(Branches(t, n, letters, rest, acc), |acc|)
    decreases |rest| + 1, 0, |letters|
  {
    if letters != [] {
      var c := letters[0];
      var acc' := if c in t[n].children then T9Words(t, t[n].children[c], rest, acc) else acc;
      var r := Branches(t, n, letters[1..], rest, acc');
      assert r == Branches(t, n, letters, rest, acc);
      if c in t[n].children {
        SpellChild(t, n, c);
        T9WordsDistinct(t, t[n].children[c], rest, acc);
        ChildAnswersStartWith(t, n, c, rest, acc);
      }
      BranchesDistinct(t, n, letters[1..], rest, acc');
      BranchesLetters(t, n, letters[1..], rest, acc');
      assert c !in letters[1..] by {
        forall j | 0 <= j < |letters| - 1 ensures letters[1..][j] != c { assert letters[1..][j] == letters[j + 1]; }
      }
      DistinctJoin(r, acc', |acc|, |Spell(t, n)|, c, letters[1..]);
    }
  }

  /**
   * Every answer to a query is a stored word typed by the digits, with the
   * positive score the trie stores for it.
   */
  lemma QuerySound(t: seq<Node>, digits: string, k: nat)
    requires WellFormed(t) && k < |Query(t, digits)|
    ensures KeyMatches(Query(t, digits)[k].word, digits)
    ensures ScoreOf(t, Query(t, digits)[k].word) == Query(t, digits)[k].score > 0
  {
    T9WordsSound(t, 0, digits, []);
    var res := Query(t, digits)[k];
    assert res.word[..0] == [] && res.word[0..] == res.word;
  }

  /** Every stored word with a positive score that the digits type is among the answers. */
  lemma QueryComplete(t: seq<Node>, digits: string, w: string)
    requires WellFormed(t) && KeyMatches(w, digits) && ScoreOf(t, w) > 0
    ensures T9Result(ScoreOf(t, w), w) in Query(t, digits)
  {
    T9WordsComplete(t, 0, digits, [], w);
    assert Spell(t, 0) + w == w;
    assert T9Words(t, 0, digits, [])[0..] == T9Words(t, 0, digits, []);
  }

  /** A query never answers the same word twice. */
  lemma QueryDistinct(t: seq<Node>, digits: string)
    requires WellFormed(t)
    ensures forall i, j :: 0 <= i < j < |Query(t, digits)| ==> Query(t, digits)[i].word != Query(t, digits)[j].word
  {
    T9WordsDistinct(t, 0, digits, []);
  }

  /** A stored word is found by querying the digits that type it. */
  lemma WordFoundByItsDigits(t: seq<Node>, w: string)
    requires WellFormed(t) && DigitsFor(w).Some? && ScoreOf(t, w) > 0
    ensures T9Result(ScoreOf(t, w), w) in Query(t, DigitsFor(w).value)
  {
    QueryComplete(t, DigitsFor(w).value, w);
  }

  /** A digit with no letters ('0', '1' or any non-digit) anywhere in the query rules out every answer. */
  lemma UnmappedDigitFindsNothing(t: seq<Node>, digits: string, i: nat)
    requires WellFormed(t) && i < |digits| && !('2' <= digits[i] <= '9')
    ensures Query(t, digits) == []
  {
    if Query(t, digits) != [] {
      QuerySound(t, digits, 0);
    }
  }

  /** The empty query answers the root alone, and only when the root carries a positive score. */
  lemma EmptyQuery(t: seq<Node>)
    requires WellFormed(t)
    ensures Query(t, []) == if t[0].end > 0 then [T9Result(t[0].end, [])] else []
  {
  }
}
