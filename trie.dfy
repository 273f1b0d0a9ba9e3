/**
 * The word index: a trie held in an arena of nodes, built once by inserting
 * (word, score) entries, then queried for membership and for the word a
 * node stands for.
 */
module WordIndex {
  import opened Wrappers
  import opened Arena
  import opened Reversal

  /** One dictionary entry: the word and its already-parsed score. */
  datatype Entry = Entry(word: string, score: int)

  /** The score the last entry for `w` carries, or `absent` when no entry names `w`: the last occurrence wins. */
  function LastScore(entries: seq<Entry>, w: string, absent: int): int
  {
    if entries == [] then absent
    else if entries[|entries| - 1].word == w then entries[|entries| - 1].score
    else LastScore(entries[..|entries| - 1], w, absent)
  }

  /** The entry at `j` decides `w`'s score when no later entry names `w`. */
  lemma {:induction false} LastOccurrenceWins(entries: seq<Entry>, j: nat, w: string, absent: int)
    requires j < |entries| && entries[j].word == w
    requires forall k :: j < k < |entries| ==> entries[k].word != w
    ensures LastScore(entries, w, absent) == entries[j].score
    decreases |entries|
  {
    if j < |entries| - 1 {
      LastOccurrenceWins(entries[..|entries| - 1], j, w, absent);
    }
  }

  /** A word no entry names keeps its previous score. */
  lemma {:induction false} UnnamedKeepsScore(entries: seq<Entry>, w: string, absent: int)
    requires forall k :: 0 <= k < |entries| ==> entries[k].word != w
    ensures LastScore(entries, w, absent) == absent
    decreases |entries|
  {
    if entries != [] {
      UnnamedKeepsScore(entries[..|entries| - 1], w, absent);
    }
  }

  /** Arenas that agree on the shape (children, parents, characters) of all nodes walk every word alike. */
  lemma SameShapeSameWalks(t: seq<Node>, t': seq<Node>, w: string)
    requires WellFormed(t) && WellFormed(t') && |t| == |t'|
    requires forall i :: 0 <= i < |t| ==> t'[i].parent == t[i].parent && t'[i].value == t[i].value
    ensures WalkFrom(t', 0, w) == WalkFrom(t, 0, w)
  {
    match WalkFrom(t, 0, w)
    case Some(k) =>
      PathIsWord(t, k, w);
      SpellAgrees(t, t', |t|, k);
      PathIsWord(t', k, w);
    case None =>
      if WalkFrom(t', 0, w).Some? {
        var k := WalkFrom(t', 0, w).value;
        PathIsWord(t', k, w);
        SpellAgrees(t, t', |t|, k);
        PathIsWord(t, k, w);
      }
  }

  /** A word that led somewhere in `t` leads to the same node in an arena that only added nodes after it. */
  lemma PathKept(t: seq<Node>, t': seq<Node>, w: string)
    requires WellFormed(t) && WellFormed(t') && |t| <= |t'|
    requires forall i :: 0 <= i < |t| ==> t'[i].parent == t[i].parent && t'[i].value == t[i].value
    requires WalkFrom(t, 0, w).Some?
    ensures WalkFrom(t', 0, w) == WalkFrom(t, 0, w)
  {
    var k := WalkFrom(t, 0, w).value;
    PathIsWord(t, k, w);
    SpellAgrees(t, t', |t|, k);
    PathIsWord(t', k, w);
  }

  /**
   * Hanging a new node under `n` for character `c`, as insertion does when
   * the child is missing, keeps the arena a well-formed tree and leaves every
   * existing node's word alone; the new node spells `n`'s word plus `c`.
   */
  lemma Adopt(t: seq<Node>, t': seq<Node>, n: nat, c: char)
    requires WellFormed(t) && n < |t| && c !in t[n].children
    requires t' == t[n := t[n].(children := t[n].children[c := |t|])] + [Node(0, map[], Some(n), c)]
    ensures WellFormed(t')
    ensures forall i :: 0 <= i < |t| ==> Spell(t', i) == Spell(t, i)
    ensures Spell(t', |t|) == Spell(t, n) + [c]
  {
    forall k | 0 <= k < |t'| ensures ParentLinked(t', k) {
      if k < |t| {
        assert ParentLinked(t, k);
        if k != 0 {
          var p := t[k].parent.value;
          assert t[k].value in t[p].children;
          if p == n {
            assert t[k].value != c;
          }
        }
      }
    }
    forall i, d | 0 <= i < |t'| && d in t'[i].children ensures ChildLinked(t', i, d) {
      if i != n || d != c {
        assert d in t[i].children;
        assert ChildLinked(t, i, d);
      }
    }
    forall i | 0 <= i < |t| ensures Spell(t', i) == Spell(t, i) {
      SpellAgrees(t, t', |t|, i);
    }
    assert ParentLinked(t', |t|);
  }

  /** Storing a score changes no link, so the arena stays a well-formed tree with the same words. */
  lemma SetScore(t: seq<Node>, n: nat, score: int)
    requires WellFormed(t) && n < |t|
    ensures WellFormed(t[n := t[n].(end := score)])
  {
    var f := t[n := t[n].(end := score)];
    forall k | 0 <= k < |f| ensures ParentLinked(f, k) { assert ParentLinked(t, k); }
    forall i, d | 0 <= i < |f| && d in f[i].children ensures ChildLinked(f, i, d) {
      assert ChildLinked(t, i, d);
    }
  }

  /**
   * The scores after an insertion: the arena `t'` grew from `t` by adding
   * nodes (with score 0), and `f` is `t'` with `score` stored at the node
   * spelling `word`. Only `word`'s score changes.
   */
  lemma InsertScores(t: seq<Node>, t': seq<Node>, f: seq<Node>, n: nat, word: string, score: int, w: string)
    requires WellFormed(t) && WellFormed(t') && |t| <= |t'| && n < |t'|
    requires forall i :: 0 <= i < |t| ==> t'[i].parent == t[i].parent && t'[i].value == t[i].value && t'[i].end == t[i].end
    requires forall i :: |t| <= i < |t'| ==> t'[i].end == 0
    requires Spell(t', n) == word
    requires f == t'[n := t'[n].(end := score)] && WellFormed(f)
    ensures ScoreOf(f, w) == if w == word then score else ScoreOf(t, w)
  {
    SameShapeSameWalks(t', f, w);
    PathIsWord(t', n, word);
    match WalkFrom(t', 0, w)
    case Some(k) =>
      PathIsWord(t', k, w);
      if k < |t| {
        SpellAgrees(t, t', |t|, k);
        PathIsWord(t, k, w);
      } else if WalkFrom(t, 0, w).Some? {
        PathKept(t, t', w);
      }
    case None =>
      if WalkFrom(t, 0, w).Some? {
        PathKept(t, t', w);
      }
  }

  class Trie {
    /** The arena; index 0 is the root. */
    var nodes: seq<Node>

    ghost predicate Valid()
      reads this
    {
      WellFormed(nodes)
    }

    /** An index holding only the root node. */
    constructor ()
      ensures Valid() && nodes == [Fresh]
      ensures forall w :: ScoreOf(nodes, w) == 0
    {
      nodes := [Fresh];
      new;
      forall w ensures ScoreOf(nodes, w) == 0 { FreshHoldsNothing(w); }
    }

    /**
     * Insert `word` with `score`: walk the existing children, hang a new node
     * for each missing character, and store the score at the last node,
     * overwriting any earlier score.
     */
    method Insert(word: string, score: int)
      requires Valid()
      modifies this
      ensures Valid() && |old(nodes)| <= |nodes|
      ensures forall u :: WalkFrom(old(nodes), 0, u).Some? ==> WalkFrom(nodes, 0, u) == WalkFrom(old(nodes), 0, u)
      ensures forall i :: |old(nodes)| <= i < |nodes| ==> Spell(nodes, i) <= word
      ensures WalkFrom(nodes, 0, word).Some?
      ensures forall w :: ScoreOf(nodes, w) == if w == word then score else ScoreOf(old(nodes), w)
    {
      var cur: nat := 0;
      for i := 0 to |word|
        invariant WellFormed(nodes) && cur < |nodes| && |old(nodes)| <= |nodes|
        invariant Spell(nodes, cur) == word[..i]
        invariant forall k :: 0 <= k < |old(nodes)| ==>
          nodes[k].parent == old(nodes)[k].parent && nodes[k].value == old(nodes)[k].value && nodes[k].end == old(nodes)[k].end
        invariant forall k :: |old(nodes)| <= k < |nodes| ==> nodes[k].end == 0 && Spell(nodes, k) <= word
      {
        var c := word[i];
        assert word[..i + 1] == word[..i] + [c];
        if c in nodes[cur].children {
          SpellChild(nodes, cur, c);
          cur := nodes[cur].children[c];
        } else {
          ghost var before := nodes;
          var child := |nodes|;
          nodes := nodes[cur := nodes[cur].(children := nodes[cur].children[c := child])] + [Node(0, map[], Some(cur), c)];
          Adopt(before, nodes, cur, c);
          cur := child;
        }
      }
      ghost var grown := nodes;
      forall u | WalkFrom(old(nodes), 0, u).Some? ensures WalkFrom(grown, 0, u) == WalkFrom(old(nodes), 0, u) {
        PathKept(old(nodes), grown, u);
      }
      SetScore(nodes, cur, score);
      nodes := nodes[cur := nodes[cur].(end := score)];
      forall w ensures ScoreOf(nodes, w) == if w == word then score else ScoreOf(old(nodes), w) {
        InsertScores(old(nodes), grown, nodes, cur, word, score, w);
      }
      forall u ensures WalkFrom(nodes, 0, u) == WalkFrom(grown, 0, u) {
        SameShapeSameWalks(grown, nodes, u);
      }
      forall i | |old(nodes)| <= i < |nodes| ensures Spell(nodes, i) == Spell(grown, i) {
        SpellAgrees(grown, nodes, |nodes|, i);
      }
      PathIsWord(grown, cur, word);
    }

    /** Build the index from a sequence of entries, inserting each in turn. */
    method Load(entries: seq<Entry>)
      requires Valid()
      modifies this
      ensures Valid()
      ensures forall w :: ScoreOf(nodes, w) == LastScore(entries, w, ScoreOf(old(nodes), w))
    {
      for i := 0 to |entries|
        invariant Valid()
        invariant forall w :: ScoreOf(nodes, w) == LastScore(entries[..i], w, ScoreOf(old(nodes), w))
      {
        Insert(entries[i].word, entries[i].score);
        assert entries[..i + 1][..i] == entries[..i];
      }
      assert entries[..|entries|] == entries;
    }

    /**
     * Membership: walk the characters of `s`, failing as soon as one has no
     * child; at the end, the node must carry a positive score.
     */
    method Contains(s: string) returns (b: bool)
      requires Valid()
      ensures b <==> ScoreOf(nodes, s) > 0
      ensures b ==> WalkFrom(nodes, 0, s).Some? && Spell(nodes, WalkFrom(nodes, 0, s).value) == s
    {
      var cur: nat := 0;
      var i := 0;
      while i < |s|
        invariant i <= |s| && cur < |nodes|
        invariant WalkFrom(nodes, cur, s[i..]) == WalkFrom(nodes, 0, s)
      {
        if s[i] !in nodes[cur].children {
          return false;
        }
        assert ChildLinked(nodes, cur, s[i]);
        assert s[i..][1..] == s[i + 1..];
        cur := nodes[cur].children[s[i]];
        i := i + 1;
      }
      b := nodes[cur].end > 0;
      if b {
        WalkSpells(nodes, 0, s);
      }
    }

    /**
     * The word a node stands for: collect the characters on the way up the
     * parent links to the root, then reverse them.
     */
    method WordForLeaf(leaf: nat) returns (w: string)
      requires Valid() && leaf < |nodes|
      ensures w == Spell(nodes, leaf)
      ensures WalkFrom(nodes, 0, w) == Some(leaf)
    {
      var buffer: string := [];
      var cur: nat := leaf;
      while nodes[cur].parent.Some?
        invariant cur < |nodes|
        invariant Spell(nodes, cur) + Reversed(buffer) == Spell(nodes, leaf)
        decreases cur
      {
        assert ParentLinked(nodes, cur);
        ReversedSnoc(buffer, nodes[cur].value);
        buffer := buffer + [nodes[cur].value];
        cur := nodes[cur].parent.value;
      }
      assert ParentLinked(nodes, cur);
      w := Reverse(buffer);
      SpellWalks(nodes, leaf);
    }
  }

  /**
   * Inserting a word with a positive score into a fresh index makes it a
   * member, while none of its proper prefixes is one.
   */
  method InsertThenContains(word: string, score: int, k: nat) returns (whole: bool, prefix: bool)
    requires k < |word|
    ensures whole <==> score > 0
    ensures !prefix
  {
    var trie := new Trie();
    trie.Insert(word, score);
    whole := trie.Contains(word);
    prefix := trie.Contains(word[..k]);
  }
}
