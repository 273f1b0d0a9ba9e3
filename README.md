# T9 word index — a verified Dafny model

This project models the word index of a small T9 ("predictive text") server
written in Go (`server.go`). A dictionary of (word, score) entries is loaded
into a trie. A digit string typed on a telephone keypad is then answered with
every dictionary word whose letters lie, one by one, on the keys of those
digits, ranked by descending score.

The model has seven modules:

- `Wrappers` (`wrappers.dfy`): the `Option` type, standing for a nil pointer or a missing map entry.
- `Keypad` (`keypad.dfy`): the digit-to-letters table (`t9Mappings`, the letter assignment of ITU-T
  Recommendation E.161), its inverse `KeyOf`, and `KeyMatches`, which says when a word can be typed by a digit string.
- `Arena` (`arena.dfy`): the trie nodes (`TrieNode`) held in a sequence and addressed by index.
  Index 0 is the root. Child pointers become indices in a `map<char, nat>`. The `parent` back-reference
  is an `Option<nat>` and `value` is the node's character. `WellFormed` is the tree invariant:
  children lie later in the arena and point back to their parent, and only the root has no parent.
  `WalkFrom` follows characters down the tree and `Spell` follows parents up. `ScoreOf` is the
  dictionary the trie stands for: the `end` of the node a word leads to, or 0 when the path is missing.
- `Reversal` (`reversal.dfy`): `Reverse`, the in-place two-index swap, proved against `Reversed`.
- `WordIndex` (`trie.dfy`): the class `Trie`, whose `nodes` field is the arena the Go code mutates.
  It has insertion, building from entries, membership, and word reconstruction from a node.
- `T9` (`t9.dfy`): the recursive lock-step search `T9Words`. Its inner loop over a key's letters
  is the mutually recursive `Branches`. The module proves soundness and completeness.
- `Ranking` (`ranking.dfy`): the `Less` order and the ranking of answers by descending score.

The search is modelled as functions over the arena value (`seq<Node>`) of a fully built trie.
Building is modelled as imperative methods on the `Trie` object.

## Model

| member | source | states |
|---|---|---|
| Keypad.KeyGroup | server.go:68-77 | Keys '2'..'9' carry 3 letters ('7' and '9' carry 4), all lower-case and distinct; any other character (including '0' and '1') finds no entry and yields no letters |
| Keypad.KeyOf | server.go:68-77 | The key carrying a letter exists exactly for 'a'..'z' and is one of '2'..'9' |
| Keypad.KeyOfGroup | server.go:68-77 | A letter is in a key's group exactly when that key is the letter's key: the groups partition the alphabet |
| Keypad.DigitsFor | server.go:68-77 | A word has a digit sequence exactly when all its characters are letters, and the word can be typed by that sequence |
| Keypad.KeyMatchesUnique | server.go:68-77 | A word is typed by exactly one digit sequence, the one DigitsFor gives |
| Arena.WalkFrom | server.go:41-47 | Following characters from a node lands, if every child exists, on a node of the arena at or after the start |
| Arena.Spell | server.go:87-98 | The word spelled by the parent chain is empty at the root and no longer than the node's index |
| Arena.WalkSpells | server.go:111-120 | Walking a string from a node lands on the node whose word is that node's word followed by the string |
| Arena.SpellWalks | server.go:87-98 | Every node is reached from the root by walking its own word, so the parent walk ends at the root |
| Arena.PathIsWord | server.go:87-120 | A word leads from the root to a node exactly when that node's parent chain spells the word |
| Arena.SpellInjective | server.go:111-120 | Two distinct nodes never spell the same word: one node per distinct word |
| Arena.FreshHoldsNothing | server.go:31-38 | A trie holding only a new node is well formed and gives every word score 0 |
| Reversal.Reversed | server.go:79-85 | Reversal keeps the length |
| Reversal.ReversedAt | server.go:79-85 | The character at position i of the reversal is the one at position len-1-i |
| Reversal.ReversedTwice | server.go:79-85 | Reversing twice gives back the input |
| Reversal.Reverse | server.go:79-85 | The two-index in-place swap loop yields exactly the reversal of its input |
| WordIndex.LastOccurrenceWins | server.go:108-123 | The entry for a word that no later entry names decides that word's score |
| WordIndex.UnnamedKeepsScore | server.go:108-123 | A word that no entry names keeps the score it had before the build |
| WordIndex.SameShapeSameWalks | server.go:122 | Changing only scores leaves every word leading to the same node |
| WordIndex.PathKept | server.go:111-120 | Adding nodes after the existing ones keeps every existing path leading to the same node |
| WordIndex.Adopt | server.go:115-119 | Hanging a new child (parent = current node, value = the character, listed under that character) keeps the tree well formed, keeps every old node's word, and the new node spells the current word plus the character |
| WordIndex.SetScore | server.go:122 | Storing a score keeps the tree well formed |
| WordIndex.InsertScores | server.go:108-122 | After the walk and the score store, the inserted word has the new score and every other word keeps its old score |
| WordIndex.Trie.constructor | server.go:31-38 | The new index is the root alone and holds no word |
| WordIndex.Trie.Insert | server.go:108-122 | Old paths still lead to their old nodes; new nodes lie only along the inserted word; the word's path exists; the word's score becomes the new score (last occurrence wins) and no other word's score changes |
| WordIndex.Trie.Load | server.go:108-123 | After the build every word's score is that of its last entry, or its previous score when no entry names it |
| WordIndex.Trie.Contains | server.go:40-49 | Returns true exactly when the word's whole path exists and ends at a node with a positive score; on true, that node spells the word |
| WordIndex.Trie.WordForLeaf | server.go:87-98 | Returns exactly the word of the node's parent chain, and walking that word from the root leads back to the node |
| WordIndex.InsertThenContains | server.go:40-49 | In a new index, after inserting a word, the word is contained exactly when its score is positive, and a proper prefix of it is never contained |
| T9.T9Words | server.go:51-65 | Only appends: the accumulator is a prefix of the result |
| T9.Branches | server.go:59-63 | The loop over a key's letters only appends to the accumulator |
| T9.T9WordsSound | server.go:51-65 | Every appended answer is the node's word followed by letters on the digits' keys, with the positive score stored where those letters lead |
| T9.BranchesSound | server.go:58-63 | Every answer appended by the letter loop for a digit starts with a letter of that digit's key |
| T9.T9WordsComplete | server.go:51-65 | Every word below the node that the digits type and that has a positive score is appended after the accumulator, with its score and full spelling |
| T9.BranchesComplete | server.go:58-63 | The letter loop appends, after the accumulator, every such word whose first letter is among the letters tried |
| T9.T9WordsDistinct | server.go:51-65 | The answers T9Words appends have pairwise different words |
| T9.BranchesDistinct | server.go:58-63 | Over a key's distinct letters, the letter loop appends pairwise different words, because answers from different branches differ in the letter after the node's word |
| T9.BranchesLetters | server.go:58-63 | Each answer the letter loop appends continues the node's word with one of the letters tried |
| T9.QueryDistinct | server.go:51-65 | A query never answers the same word twice |
| T9.Query | server.go:158 | The search from the root with an empty accumulator; every answer has one letter per digit and a positive score (full soundness in QuerySound, completeness in QueryComplete) |
| T9.QuerySound | server.go:51-65 | Every answer from the root has as many letters as there are digits, each on its digit's key, and carries the word's stored positive score |
| T9.QueryComplete | server.go:51-65 | Every stored word with a positive score that the digits type is among the answers, with its score |
| T9.WordFoundByItsDigits | server.go:51-77 | A stored word with a positive score is found by querying the digits of its own letters |
| T9.UnmappedDigitFindsNothing | server.go:59 | A digit outside '2'..'9' anywhere in the query yields no answers at all |
| T9.EmptyQuery | server.go:52-56 | The empty query answers the root alone, with the empty word, and only when the root's score is positive |
| Ranking.Less | server.go:137-139 | The sort order: an answer goes first when its score is higher (its properties in LessIsStrictWeakOrder) |
| Ranking.LessIsStrictWeakOrder | server.go:137-139 | Less is irreflexive and transitive, and two answers are unordered exactly when their scores tie |
| Ranking.InsertRanked | server.go:137-159 | Inserting into a ranked list keeps it ranked and adds exactly that answer |
| Ranking.Rank | server.go:137-139 | The answers come out with scores that never increase, as a permutation of the input |
| Ranking.RankPair | server.go:137-139 | Two answers with different scores are ranked higher score first, whatever their input order |
| Ranking.QueryOfPair | server.go:51-65 | When exactly two of the stored words are typed by the digits (other stored words may be typed by other digits), the query answers exactly those two, once each |
| Ranking.RankedQueryOfPair | server.go:158-159 | When exactly two of the stored words are typed by the digits (other stored words may be typed by other digits), the sorted answer is those two, higher score first |
| Ranking.AmbiguousPair | server.go:51-65 | With "an" (score 4) and "bo" (score 9) inserted into a new index, the ranked answer to "26" is exactly bo (9) then an (4) |
| Ranking.RankedQuery | server.go:158-159 | The sorted answers are ranked by descending score and are exactly the query's answers, each as often (soundness and completeness in RankedQueryCorrect) |
| Ranking.RankedQueryCorrect | server.go:158-159 | The sorted answers to a digit string are ranked, are all stored words typed by the digits with their scores, and include every such word |

## Left out

- Reading the dictionary file (`os.Open`, `bufio.Scanner`, `log.Fatal`, `fmt.Printf`, server.go:101-107, 125) is not modelled. The build is `Trie.Load` over a sequence of already-parsed entries.
- Splitting a line into fields and parsing the score (`strings.Fields`, `strconv.Atoi`, server.go:110, 122) are library calls and are not modelled. In the Go code a non-numeric score silently becomes 0, because the error is ignored, so that word is never contained. A line with fewer than three fields makes the program panic. Entries here carry the score as an `int`. The code's `int` type is kept, so zero and negative scores are both possible, and both mean "not a word".
- The HTTP layer (`main`, `index`, `combinations`, server.go:141-163) is not modelled, and neither is the formatting of response lines. The only thing kept from `combinations` is that the answers are sorted by `Less`; that is `RankedQuery`.
- The internals of `sort.Sort` are not modelled. `Rank` is an insertion sort. Only its descending order and the permutation are claimed, and no order among equal scores is promised.
- Go ranges over a string as UTF-8 runes but indexes `digits` by byte (server.go:58, 61). Words and digit strings are both `seq<char>` here, so multi-byte characters in a digit string are not modelled.
- Pointers are arena indices. The global `wordTrie` is a `Trie` object or an arena value passed explicitly. The query functions read a fully built, unchanging trie, so concurrent readers need no modelling.
- Trie.Contains: the Go function walks from whatever node it is given. The model always starts at the root, the only starting point the index has.
- Scores are unbounded integers; the 64-bit range of Go's `int` is not modelled.
- A score is any `int`. The Go code stores 0 for a score it cannot parse and does not skip malformed lines. A word is present only when its score is positive.
