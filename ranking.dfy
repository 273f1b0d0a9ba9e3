/**
 * Ranking of query answers by descending score, as the result list is sorted
 * before it is returned. Ties are left in no particular order.
 */
module Ranking {
  import opened Keypad
  import opened Arena
  import opened T9
  import opened WordIndex

  /** The sort order on answers: `a` goes before `b` when its score is higher. */
  predicate Less(a: T9Result, b: T9Result)
  {
    a.score > b.score
  }

  /**
   * `Less` is a strict weak order, as sorting needs: irreflexive, transitive,
   * and two answers are unordered exactly when their scores tie.
   */
  lemma LessIsStrictWeakOrder(a: T9Result, b: T9Result, c: T9Result)
    ensures !Less(a, a)
    ensures Less(a, b) && Less(b, c) ==> Less(a, c)
    ensures !Less(a, b) && !Less(b, a) <==> a.score == b.score
  {
  }

  /** No answer is ordered before an answer that precedes it: scores never increase. */
  predicate Ranked(r: seq<T9Result>)
  {
    forall i, j :: 0 <= i < j < |r| ==> !Less(r[j], r[i])
  }

  /** A ranked list stays ranked with an answer in front that none of it ranks above. */
  lemma RankedCons(a: T9Result, s: seq<T9Result>)
    requires Ranked(s) && forall y :: y in s ==> !Less(y, a)
    ensures Ranked([a] + s)
  {
    forall i, j | 0 <= i < j < |s| + 1 ensures !Less(([a] + s)[j], ([a] + s)[i]) {
      assert ([a] + s)[j] == s[j - 1];
      if i > 0 { assert ([a] + s)[i] == s[i - 1]; }
    }
  }

  /** Put `x` into the ranked list `r` in front of the first answer it does not rank below. */
  function InsertRanked(x: T9Result, r: seq<T9Result>): (r': seq<T9Result>)
    requires Ranked(r)
    ensures Ranked(r')
    ensures multiset(r') == multiset(r) + multiset{x}
  {
    if r == [] || !Less(r[0], x) then
      RankedCons(x, r);
      [x] + r
    else
      var tail := InsertRanked(x, r[1..]);
      assert r == [r[0]] + r[1..];
      assert Ranked(r[1..]) by {
        forall i, j | 0 <= i < j < |r| - 1 ensures !Less(r[1..][j], r[1..][i]) {
          assert r[1..][j] == r[j + 1] && r[1..][i] == r[i + 1];
        }
      }
      forall y | y in tail ensures !Less(y, r[0]) {
        assert y in multiset(tail);
        if y != x {
          assert y in multiset(r[1..]);
          var k :| 0 <= k < |r| - 1 && r[1..][k] == y;
          assert r[k + 1] == y;
        }
      }
      RankedCons(r[0], tail);
      [r[0]] + tail
  }

  /** The answers in descending score order; the same answers, each as often as before. */
  function Rank(rs: seq<T9Result>): (r: seq<T9Result>)
    ensures Ranked(r)
    ensures multiset(r) == multiset(rs)
  {
    if rs == [] then []
    else
      assert rs == [rs[0]] + rs[1..];
      InsertRanked(rs[0], Rank(rs[1..]))
  }

  /** A query's answers, ranked: the list handed back for a digit string. */
  function RankedQuery(t: seq<Node>, digits: string): (r: seq<T9Result>)
    requires WellFormed(t)
    ensures Ranked(r) && multiset(r) == multiset(Query(t, digits))
  {
    Rank(Query(t, digits))
  }

  /**
   * The ranked answers are in descending score order, each is a stored word
   * typed by the digits with its stored positive score, and every such word
   * is among them.
   */
  lemma RankedQueryCorrect(t: seq<Node>, digits: string, w: string)
    requires WellFormed(t)
    ensures Ranked(RankedQuery(t, digits))
    ensures forall res :: res in RankedQuery(t, digits) ==>
      KeyMatches(res.word, digits) && ScoreOf(t, res.word) == res.score > 0
    ensures KeyMatches(w, digits) && ScoreOf(t, w) > 0 ==> T9Result(ScoreOf(t, w), w) in RankedQuery(t, digits)
  {
    var q := Query(t, digits);
    var r := RankedQuery(t, digits);
    forall res | res in r ensures KeyMatches(res.word, digits) && ScoreOf(t, res.word) == res.score > 0 {
      assert res in multiset(r);
      var k :| 0 <= k < |q| && q[k] == res;
      QuerySound(t, digits, k);
    }
    if KeyMatches(w, digits) && ScoreOf(t, w) > 0 {
      QueryComplete(t, digits, w);
      assert T9Result(ScoreOf(t, w), w) in multiset(q);
    }
  }

  /** In a list holding only `a` and `b`, a third position repeats the word of one of them. */
  lemma ThirdRepeats(q: seq<T9Result>, a: T9Result, b: T9Result, i: nat, j: nat, x: nat)
    requires forall k :: 0 <= k < |q| ==> q[k] == a || q[k] == b
    requires i < |q| && j < |q| && x < |q| && q[i] == a && q[j] == b
    ensures q[x].word == q[i].word || q[x].word == q[j].word
  {
  }

  /** A query that exactly two stored words answer returns the pair, whatever else the index holds. */
  lemma QueryOfPair(t: seq<Node>, digits: string, a: T9Result, b: T9Result)
    requires WellFormed(t) && a.word != b.word
    requires KeyMatches(a.word, digits) && KeyMatches(b.word, digits)
    requires ScoreOf(t, a.word) == a.score > 0 && ScoreOf(t, b.word) == b.score > 0
    requires forall w :: ScoreOf(t, w) > 0 && KeyMatches(w, digits) ==> w == a.word || w == b.word
    ensures Query(t, digits) == [a, b] || Query(t, digits) == [b, a]
  {
    QueryComplete(t, digits, a.word);
    QueryComplete(t, digits, b.word);
    var q := Query(t, digits);
    forall k | 0 <= k < |q| ensures q[k] == a || q[k] == b {
      QuerySound(t, digits, k);
    }
    QueryDistinct(t, digits);
    var i :| 0 <= i < |q| && q[i] == a;
    var j :| 0 <= j < |q| && q[j] == b;
    if |q| > 2 {
      // a third position holds a or b again, repeating a word
      var x := if i != 0 && j != 0 then 0 else if i != 1 && j != 1 then 1 else 2;
      ThirdRepeats(q, a, b, i, j, x);
      assert false;
    }
  }

  /** Ranking two answers with different scores puts the higher score first. */
  lemma RankPair(a: T9Result, b: T9Result)
    requires Less(a, b)
    ensures Rank([a, b]) == [a, b] && Rank([b, a]) == [a, b]
  {
  }

  /** When exactly two stored words are typed by the digits, the ranked answer lists the better one first. */
  lemma RankedQueryOfPair(t: seq<Node>, digits: string, a: T9Result, b: T9Result)
    requires WellFormed(t) && a.word != b.word && Less(a, b)
    requires KeyMatches(a.word, digits) && KeyMatches(b.word, digits)
    requires ScoreOf(t, a.word) == a.score > 0 && ScoreOf(t, b.word) == b.score > 0
    requires forall w :: ScoreOf(t, w) > 0 && KeyMatches(w, digits) ==> w == a.word || w == b.word
    ensures RankedQuery(t, digits) == [a, b]
  {
    QueryOfPair(t, digits, a, b);
    RankPair(a, b);
  }

  /**
   * Two words typed by the same digits are both answered, best score first:
   * with "an" (score 4) and "bo" (score 9) in the index, "26" answers "bo"
   * and then "an", and nothing else.
   */
  method AmbiguousPair() returns (r: seq<T9Result>)
    ensures r == [T9Result(9, "bo"), T9Result(4, "an")]
  {
    var trie := new Trie();
    ghost var t0 := trie.nodes;
    trie.Insert("an", 4);
    ghost var t1 := trie.nodes;
    trie.Insert("bo", 9);
    ghost var t2 := trie.nodes;
    var an, bo := T9Result(4, "an"), T9Result(9, "bo");
    assert an.word != bo.word;
    assert ScoreOf(t1, "an") == 4;
    assert ScoreOf(t2, "an") == 4 && ScoreOf(t2, "bo") == 9;
    assert forall w :: ScoreOf(t2, w) > 0 ==> w == "an" || w == "bo";
    assert KeyMatches("an", "26") by {
      assert 'a' in KeyGroup('2') && 'n' in KeyGroup('6');
    }
    assert KeyMatches("bo", "26") by {
      assert 'b' in KeyGroup('2') && 'o' in KeyGroup('6');
    }
    RankedQueryOfPair(t2, "26", bo, an);
    r := RankedQuery(trie.nodes, "26");
  }
}
