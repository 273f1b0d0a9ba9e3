/**
 * The trie as an arena of nodes addressed by index. Index 0 is the root;
 * `children` maps a character to the index of the child node, `parent` is the
 * non-owning back-reference (None only at the root) and `value` the character
 * the node stands for. `end` is the word's score; `end > 0` marks a complete word.
 */
module Arena {
  import opened Wrappers

  datatype Node = Node(end: int, children: map<char, nat>, parent: Option<nat>, value: char)

  /** A freshly made node: no score, no children, no parent, character 0. */
  const Fresh: Node := Node(0, map[], None, 0 as char)

  /** The child reached from `i` by `c` exists, lies later in the arena and points back. */
  predicate ChildLinked(t: seq<Node>, i: nat, c: char)
    requires i < |t| && c in t[i].children
  {
    var k := t[i].children[c];
    i < k < |t| && t[k].parent == Some(i) && t[k].value == c
  }

  /** Node `k`'s parent lies earlier and lists `k` under `k`'s character; only the root has none. */
  predicate ParentLinked(t: seq<Node>, k: nat)
    requires k < |t|
  {
    if k == 0 then t[0].parent == None
    else
      t[k].parent.Some? && t[k].parent.value < k
      && t[k].value in t[t[k].parent.value].children
      && t[t[k].parent.value].children[t[k].value] == k
  }

  /** The arena is a tree rooted at 0 whose child and parent links agree. */
  predicate WellFormed(t: seq<Node>)
  {
    && |t| > 0
    && (forall k :: 0 <= k < |t| ==> ParentLinked(t, k))
    && (forall i, c :: 0 <= i < |t| && c in t[i].children ==> ChildLinked(t, i, c))
  }

  /** The node reached from `n` by following the characters of `u`, if every step exists. */
  function WalkFrom(t: seq<Node>, n: nat, u: string): (r: Option<nat>)
    requires WellFormed(t) && n < |t|
    ensures r.Some? ==> r.value < |t|
    ensures r.Some? ==> n <= r.value
    decreases |u|
  {
    if u == [] then Some(n)
    else if u[0] in t[n].children then
      assert ChildLinked(t, n, u[0]);
      WalkFrom(t, t[n].children[u[0]], u[1..])
    else None
  }

  /** The word spelled by the parent chain from the root down to `n`. */
  function Spell(t: seq<Node>, n: nat): (w: string)
    requires WellFormed(t) && n < |t|
    ensures n == 0 ==> w == []
    ensures |w| <= n
    decreases n
  {
    assert ParentLinked(t, n);
    match t[n].parent
    case None => []
    case Some(p) => Spell(t, p) + [t[n].value]
  }

  /** The score stored for `w` when walking from `n`: the node's `end`, or 0 when the path is missing. */
  function ScoreFrom(t: seq<Node>, n: nat, u: string): int
    requires WellFormed(t) && n < |t|
  {
    match WalkFrom(t, n, u)
    case Some(m) => t[m].end
    case None => 0
  }

  /** The score of word `w` in the trie; the abstract dictionary the trie stands for. */
  function ScoreOf(t: seq<Node>, w: string): int
    requires WellFormed(t)
  {
    ScoreFrom(t, 0, w)
  }

  /** One step down: the child's word is its parent's word plus the edge character. */
  lemma SpellChild(t: seq<Node>, n: nat, c: char)
    requires WellFormed(t) && n < |t| && c in t[n].children
    ensures t[n].children[c] < |t|
    ensures Spell(t, t[n].children[c]) == Spell(t, n) + [c]
  {
    assert ChildLinked(t, n, c);
  }

  /** Walking `u` from `n` lands on the node whose word is `n`'s word followed by `u`. */
  lemma {:induction false} WalkSpells(t: seq<Node>, n: nat, u: string)
    requires WellFormed(t) && n < |t|
    requires WalkFrom(t, n, u).Some?
    ensures Spell(t, WalkFrom(t, n, u).value) == Spell(t, n) + u
    decreases |u|
  {
    if u != [] {
      var k := t[n].children[u[0]];
      SpellChild(t, n, u[0]);
      WalkSpells(t, k, u[1..]);
      assert [u[0]] + u[1..] == u;
    }
  }

  /** Walking `u + v` is walking `u` and then `v` from where `u` ended. */
  lemma {:induction false} WalkConcat(t: seq<Node>, n: nat, u: string, v: string)
    requires WellFormed(t) && n < |t|
    ensures WalkFrom(t, n, u + v) ==
      match WalkFrom(t, n, u)
      case Some(m) => WalkFrom(t, m, v)
      case None => None
    decreases |u|
  {
    if u != [] {
      assert (u + v)[0] == u[0] && (u + v)[1..] == u[1..] + v;
      if u[0] in t[n].children {
        assert ChildLinked(t, n, u[0]);
        WalkConcat(t, t[n].children[u[0]], u[1..], v);
      }
    } else {
      assert u + v == v;
    }
  }

  /** Every node is reached from the root by walking its own word. */
  lemma {:induction false} SpellWalks(t: seq<Node>, n: nat)
    requires WellFormed(t) && n < |t|
    ensures WalkFrom(t, 0, Spell(t, n)) == Some(n)
    decreases n
  {
    assert ParentLinked(t, n);
    if n != 0 {
      var p := t[n].parent.value;
      var c := t[n].value;
      SpellWalks(t, p);
      WalkConcat(t, 0, Spell(t, p), [c]);
      assert WalkFrom(t, p, [c]) == WalkFrom(t, n, []);
    }
  }

  /** Nodes and words are in one-to-one correspondence: `w` leads to `n` exactly when `n` spells `w`. */
  lemma PathIsWord(t: seq<Node>, n: nat, w: string)
    requires WellFormed(t) && n < |t|
    ensures WalkFrom(t, 0, w) == Some(n) <==> Spell(t, n) == w
  {
    SpellWalks(t, n);
    if WalkFrom(t, 0, w) == Some(n) {
      WalkSpells(t, 0, w);
    }
  }

  /** Two distinct nodes never spell the same word. */
  lemma SpellInjective(t: seq<Node>, a: nat, b: nat)
    requires WellFormed(t) && a < |t| && b < |t|
    requires Spell(t, a) == Spell(t, b)
    ensures a == b
  {
    SpellWalks(t, a);
    SpellWalks(t, b);
  }

  /** The fresh trie holds no word: every score is 0. */
  lemma FreshHoldsNothing(w: string)
    ensures WellFormed([Fresh]) && ScoreOf([Fresh], w) == 0
  {
    assert ParentLinked([Fresh], 0);
  }

  /**
   * Two arenas that agree on the parent links and characters of the first `m`
   * nodes spell the same word at each of them.
   */
  lemma {:induction false} SpellAgrees(t: seq<Node>, t': seq<Node>, m: nat, n: nat)
    requires WellFormed(t) && WellFormed(t') && m <= |t| && m <= |t'| && n < m
    requires forall i :: 0 <= i < m ==> t'[i].parent == t[i].parent && t'[i].value == t[i].value
    ensures Spell(t', n) == Spell(t, n)
    decreases n
  {
    assert ParentLinked(t, n);
    if n != 0 {
      SpellAgrees(t, t', m, t[n].parent.value);
    }
  }
}
