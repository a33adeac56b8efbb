# Spelling corrector: frequency trie and suggestion engine

A Dafny model of the core of a small Rust spelling corrector (a CS 240
assignment with a GTK front end). The core has two parts.

- **The frequency trie** (`src/spell_corrector/trie.rs`). Every node has 26
  child slots, one per letter a..z, and a frequency. `add` lowercases a
  word, walks its path, creates the missing nodes and bumps the last node's
  frequency. It keeps a node counter (root included) and a counter of
  distinct words. `find` walks the path and reports the last node only when
  its frequency is at least 1. The trie also has:
  - a depth-first listing (`to_string_helper` / `to_string`);
  - a recursive structural `compare`, used by `==` after the two counters;
  - a small `hash_code`.
- **The suggestion engine** (`src/spell_corrector.rs`).
  `suggest_similar_word` returns the lowercased input if it is stored.
  Failing that, it returns the best stored word among the input's single
  edits: deletions, transpositions, substitutions and insertions. Failing
  that, it returns the best among the single edits of those edits. "Best"
  means the highest frequency, with ties going to the alphabetically
  smaller word. Otherwise it returns an error text carrying the input as
  given. `use_dictionary` resets the trie and adds every token.

How the model is laid out:

- `letters.dfy`: the alphabet and the slot index of a letter (`to_digit(36) - 10`),
  ASCII lowercasing, and the string order Rust uses for `String` comparison.
- `trie_node.dfy`: the node as a datatype. It has the functional path
  building behind `add`, lookup, the frequency of a word, what `find`
  returns, the number of nodes a path is missing, and the size and word
  count of a tree. The lemmas state what one `add` does to each of these.
- `trie_walks.dfy`: `compare` and the listing as recursive functions over
  slots, with the properties proved about them. It also defines a
  comparison of all 26 slots that notices one-sided slots, and a listing
  of all 26 slots.
- `dictionary.dfy`: the `Trie` object as a class with `root`, `numNodes`
  and `numWords`. The object invariant is that the counters equal the size
  and the word count of the tree. The file has the methods `Add`, `Find`,
  `ToStringHelper`, `ToString` and `HashCode`, equality as written
  (`Equals`) and as evidently intended (`SameAs`), and the hash examples.
- `candidates.dfy`: the four edit generators as loops that add to a set.
  Each is proved equal to a set comprehension. Lemmas cover the shape of
  each edit, their inverses, lengths and letters.
- `corrector.dfy`: building a dictionary from tokens, and the selection
  order with its properties. `Suggestion` is the result the source
  promises. The `SpellCorrector` class has `UseDictionary`, the match
  filter, the running-best loop and `Suggest`, which is proved to return
  that `Suggestion`.
- `trie_examples.dfy` and `corrector_examples.dfy` restate most of the unit
  tests of the two source files on the model. The dictionary files those tests read
  stand in as token sequences.

Kept as the code has them, though they look unintended:

- `to_string_helper`, `compare` and `hash_code` scan slots 0..24 only, so
  the letter z's slot is never visited.
- `alternate_char` substitutes the letters a..y only (`'a'..'z'`), so it
  never writes a z. `insert_char` inserts all 26 letters.
- `transpose_char` exchanges any two positions holding different
  characters. Its second index runs from 1, not from the first index. By
  symmetry this still reaches every pair.

## Model

| member | source | states |
|---|---|---|
| Letters.Index | src/spell_corrector/trie.rs:60 | a character's slot is below 26 |
| Letters.Letter | src/spell_corrector/trie.rs:60 | the letter of slot k is a lowercase letter whose slot is k: Letter is the inverse of Index |
| Letters.Lower | src/spell_corrector/trie.rs:55 | lowercasing keeps the length and lowers each character on its own |
| Letters.LowerOfValid | src/spell_corrector.rs:25 | a lowercase word is its own lowercase |
| Letters.LowerIdempotent | src/spell_corrector.rs:25-27 | lowering twice (`use_dictionary`, then `add`) is lowering once |
| Letters.LexIrreflexive | src/spell_corrector.rs:64-68 | no string is below itself in Rust's string order |
| Letters.LexAsymmetric | src/spell_corrector.rs:64-68 | if a is below b, b is not below a |
| Letters.LexTransitive | src/spell_corrector.rs:64-68 | the string order is transitive |
| Letters.LexTotal | src/spell_corrector.rs:64-68 | of two different strings one is below the other |
| Letters.LexPrefix | src/spell_corrector/trie.rs:410 | a proper prefix comes first ("car" before "cares") |
| Letters.LexBranch | src/spell_corrector/trie.rs:410 | at the first differing letter, the smaller letter decides |
| TrieNode.NewNodeFacts | src/spell_corrector/trie.rs:9-11 | a fresh node is one node, stores no word, and has no path below it |
| TrieNode.EmptyRootFacts | src/spell_corrector/trie.rs:51-53 | the new trie's root is well formed, is one node, and `find` reports nothing in it |
| TrieNode.FindNode | src/spell_corrector/trie.rs:81-102 | `find` reports a node exactly when the word's frequency is at least 1, and that node is the one at the end of the word's path |
| TrieNode.PutCreated | src/spell_corrector/trie.rs:59-66 | `add` creates exactly as many nodes as the word's path was missing |
| TrieNode.PutSize | src/spell_corrector/trie.rs:59-66 | the tree grows by exactly the nodes created |
| TrieNode.PutNewWord | src/spell_corrector/trie.rs:67-70 | `add` counts a new word exactly when the word's frequency was 0 |
| TrieNode.PutTerminals | src/spell_corrector/trie.rs:67-74 | the number of stored words grows by one exactly for a new word |
| TrieNode.PutFreq | src/spell_corrector/trie.rs:67-74 | `add` raises the added word's frequency by one and leaves every other word's frequency alone |
| TrieNode.MissingZeroIffPath | src/spell_corrector/trie.rs:61-62 | no node is missing on a word's path exactly when the path exists |
| TrieNode.LookupSplit | src/spell_corrector/trie.rs:59-66 | the path of p + s is the path of s below the end of p |
| TrieNode.PutPath | src/spell_corrector/trie.rs:59-66 | after `add`, every prefix of the word has a path |
| TrieNode.PutOtherSlot | src/spell_corrector/trie.rs:59-66 | `add` leaves the paths under the other first letters unchanged |
| TrieNode.PutFreshEnd | src/spell_corrector/trie.rs:63-71 | when the path was missing a node, the word ends at a fresh node of frequency 1 |
| TrieNode.PutCommutes | src/spell_corrector/trie.rs:54-79 | two adds of any lowercase words, the empty word included, give the same tree in either order |
| TrieNode.InsertCommutes | src/spell_corrector/trie.rs:389-392 | two adds give the same tree in either order ("equal tries of different construction history") |
| TrieWalks.CompareReflexive | src/spell_corrector/trie.rs:268 | every tree compares equal to itself |
| TrieWalks.CompareSymmetric | src/spell_corrector/trie.rs:274 | the comparison is symmetric |
| TrieWalks.CompareFromAt | src/spell_corrector/trie.rs:156-166 | a successful scan has compared every later slot occupied on both sides |
| TrieWalks.CompareSeesSharedFreqs | src/spell_corrector/trie.rs:151-168 | after a successful comparison, every z-free word whose path exists on both sides has the same frequency on both sides |
| TrieWalks.CompareSeesSharedFreq | src/spell_corrector/trie.rs:151-168 | a word whose path exists on both sides and has no z gets the same frequency on both sides of a successful comparison |
| TrieWalks.CompareFromNoSharedSlot | src/spell_corrector/trie.rs:156-166 | when no slot is occupied on both sides, the scan succeeds whatever the slots hold |
| TrieWalks.CompareIgnoresOneSidedSlots | src/spell_corrector/trie.rs:156-166 | the trees holding only "a" and only "b" differ and have the same counts, yet compare equal |
| TrieWalks.SameTreeIsEquality | src/spell_corrector/trie.rs:151-168 | the 26-slot comparison that treats one-sided slots as differences holds exactly when the trees are equal |
| TrieWalks.DepthFirstSound | src/spell_corrector/trie.rs:110-129 | every line the walk prints is the holder plus a stored word whose letters lie within the scanned slots |
| TrieWalks.DepthFirstComplete | src/spell_corrector/trie.rs:110-129 | every stored word whose letters lie within the scanned slots is printed |
| TrieWalks.DepthFirstSorted | src/spell_corrector/trie.rs:110-129 | the walk prints its lines in strictly increasing order, so each at most once |
| TrieWalks.SortedUnique | src/spell_corrector/trie.rs:429-431 | two strictly increasing lists with the same members are the same list |
| TrieWalks.ListingContents | src/spell_corrector/trie.rs:110-139 | the listing holds exactly the stored non-empty words that contain no z |
| TrieWalks.FullListingContents | src/spell_corrector/trie.rs:110-139 | the 26-slot listing holds exactly the stored non-empty words |
| TrieWalks.ListingDropsZ | src/spell_corrector/trie.rs:111 | the tree holding only "z" stores it, yet lists nothing; the 26-slot listing is ["z"] |
| Dictionary.Trie.constructor | src/spell_corrector/trie.rs:51-53 | a new trie is the bare root with node count 1 and word count 0 |
| Dictionary.Trie.Add | src/spell_corrector/trie.rs:54-79 | the invariant holds; the new tree is the old one with the lowercased word added; the node counter grows by the missing path nodes and the word counter grows by one for a new word; only the added word's frequency grows, by one |
| Dictionary.Trie.Find | src/spell_corrector/trie.rs:81-102 | the cursor loop returns what `FindNode` specifies for the lowercased word |
| Dictionary.Trie.WordCount | src/spell_corrector/trie.rs:104-106 | the word counter is the number of stored words |
| Dictionary.Trie.NodeCount | src/spell_corrector/trie.rs:107-109 | the node counter is the number of nodes, root included |
| Dictionary.Trie.ToStringHelper | src/spell_corrector/trie.rs:110-129 | the holder comes back unchanged and the output grows by each listed word followed by a newline |
| Dictionary.Trie.ToString | src/spell_corrector/trie.rs:131-139 | the text is the listing joined by newlines |
| Dictionary.RenderJoin | src/spell_corrector/trie.rs:136 | popping the last newline of the printed listing leaves the joined listing |
| Dictionary.Trie.HashCode | src/spell_corrector/trie.rs:141-150 | the summing loop returns the 32-bit sum of the occupied root slots 0..24, or-ed with the and of the two counters |
| Dictionary.OccupiedSum | src/spell_corrector/trie.rs:143-147 | the slot sum over the first i slots is at most 24 i, so it always fits in 32 bits |
| Dictionary.Trie.Equals | src/spell_corrector/trie.rs:173-182 | `==` as written is false when a counter differs or the comparison fails; when it holds, both counters agree and every z-free word stored along paths present in both tries has the same frequency in both; and it holds for any two tries with equal counters and equal trees |
| Dictionary.Trie.SameAs | src/spell_corrector/trie.rs:173-182 | the corrected equality holds exactly when the two trees are equal |
| Dictionary.EqualsSymmetric | src/spell_corrector/trie.rs:274 | `==` gives the same answer in both directions |
| Dictionary.EqualsIgnoresOneSidedSlots | src/spell_corrector/trie.rs:173-182 | the tries holding only "a" and only "b" are `==` as written, but not the same |
| Dictionary.SingletonHash | src/spell_corrector/trie.rs:141-150 | a trie holding one word w has w's length plus one nodes, one word, and slot sum equal to w's first slot (0 for z) |
| Dictionary.OneWordHashes | src/spell_corrector/trie.rs:385-387 | the tries holding only "dat" and only "far" hash to 3 and 5 |
| Dictionary.EqualsButHashesDiffer | src/spell_corrector/trie.rs:141-150 | the tries holding only "a" and only "b" are `==` as written yet hash to 0 and 1 |
| Dictionary.OrderIgnored | src/spell_corrector/trie.rs:389-392 | adding two words in either order gives equal tries with equal hashes |
| Dictionary.SameAsHashesAlike | src/spell_corrector/trie.rs:374-375 | tries equal under the corrected equality hash alike |
| Candidates.DeleteChar | src/spell_corrector.rs:122-130 | the loop adds to the set exactly the words with one position removed |
| Candidates.TransposeChar | src/spell_corrector.rs:132-149 | the nested loop adds exactly the words with two positions holding different characters exchanged |
| Candidates.TransposedAll | src/spell_corrector.rs:133-135 | the loop's index pairs (first from 0, second from 1) reach every unordered pair of positions |
| Candidates.AlternateChar | src/spell_corrector.rs:151-161 | the loop adds exactly the words with one position replaced by a letter a..y |
| Candidates.InsertChar | src/spell_corrector.rs:163-174 | the loop adds exactly the words with one letter a..z inserted in one of the gaps |
| Candidates.GenEditDist1 | src/spell_corrector.rs:176-196 | the distance-1 pool is the union of the four kinds of edit of the word |
| Candidates.GenEditDist2 | src/spell_corrector.rs:198-220 | the distance-2 pool is the union of the single edits of every member of the pool, whatever order the set is scanned in |
| Candidates.Edits2Add | src/spell_corrector.rs:200-205 | one more pool member adds exactly its own single edits |
| Candidates.DeletionShape | src/spell_corrector.rs:122-130 | a deletion is one shorter and brings in no character |
| Candidates.TranspositionShape | src/spell_corrector.rs:132-149 | a transposition keeps the length and the characters and always differs from the word |
| Candidates.SubstitutionShape | src/spell_corrector.rs:151-161 | a substitution keeps the length, changes at most one position, and never writes a z |
| Candidates.InsertionShape | src/spell_corrector.rs:163-174 | an insertion is one longer |
| Candidates.InsertionUndoneByDeletion | src/spell_corrector.rs:163-174 | deleting an inserted letter gives the word back |
| Candidates.DeletionUndoneByInsertion | src/spell_corrector.rs:122-130 | re-inserting a deleted letter of a lowercase word gives it back |
| Candidates.TranspositionInvolution | src/spell_corrector.rs:132-149 | exchanging the same positions again gives the word back |
| Candidates.Edits1Valid | src/spell_corrector.rs:176-196 | single edits of a lowercase word are lowercase words, which `find` accepts |
| Candidates.Edits2Valid | src/spell_corrector.rs:198-220 | single edits of lowercase words are lowercase words |
| Candidates.Edits1Length | src/spell_corrector.rs:176-196 | one edit changes the length by at most one |
| Candidates.Edits2Length | src/spell_corrector.rs:198-220 | two edits change the length by at most two |
| Candidates.TranspositionLetters | src/spell_corrector.rs:132-149 | a transposition contains exactly the letters of the word |
| Candidates.SubstitutionNewLetter | src/spell_corrector.rs:151-161 | a substitution contains at most one letter the word lacks |
| Candidates.InsertionNewLetter | src/spell_corrector.rs:163-174 | an insertion contains at most one letter the word lacks |
| Candidates.Edits1NewLetters | src/spell_corrector.rs:176-196 | one edit brings in at most one new letter |
| Candidates.Edits2NewLetters | src/spell_corrector.rs:198-220 | two edits bring in at most two new letters |
| Candidates.LengthApart | src/spell_corrector.rs:176-220 | a word whose length is off by more than one (two) is not among the single (double) edits |
| Candidates.LettersApart | src/spell_corrector.rs:176-220 | a word with two new letters is not a single edit, and one with three is not a double edit |
| Corrector.LoweredConcat | src/spell_corrector.rs:25-26 | lowering the tokens keeps their order: lowering a concatenation concatenates the lowered parts |
| Corrector.LoweredTwice | src/spell_corrector.rs:25-27 | lowering the lowered tokens again, as `add` does, changes nothing |
| Corrector.Build | src/spell_corrector.rs:22-29 | loading tokens keeps the tree well formed and the root's own frequency |
| Corrector.BuildStep | src/spell_corrector.rs:22-29 | loop helper for UseDictionary, not a property of its own: Build unfolded once, so loading one more token is one more add of its lowercase |
| Corrector.BuildFreq | src/spell_corrector.rs:18-31 | after loading, every non-empty word's frequency grows by its number of occurrences among the lowercased tokens |
| Corrector.BuildKeepsRoot | src/spell_corrector.rs:18-31 | the empty word never gets a frequency, whatever is loaded |
| Corrector.OutranksIrreflexive | src/spell_corrector.rs:63-68 | no word beats itself |
| Corrector.OutranksTransitive | src/spell_corrector.rs:63-68 | beating is transitive |
| Corrector.OutranksTotal | src/spell_corrector.rs:63-68 | of two different words exactly one beats the other |
| Corrector.BestIsMaximal | src/spell_corrector.rs:55-71 | the best match has the highest frequency, and among words of that frequency it is the smallest |
| Corrector.BestUnique | src/spell_corrector.rs:55-71 | there is at most one best match, so the scan order of the set does not matter |
| Corrector.BestExists | src/spell_corrector.rs:55-71 | every non-empty set of matches has a best member |
| Corrector.Challenge | src/spell_corrector.rs:63-68 | after one more candidate the running best is the candidate if it beats the best so far, else the best so far |
| Corrector.NotFoundInjective | src/spell_corrector.rs:119 | different inputs give different error texts, so the error carries the input exactly as given |
| Corrector.SuggestionDeterministic | src/spell_corrector.rs:33-120 | one input has exactly one result |
| Corrector.SuggestionExists | src/spell_corrector.rs:33-120 | every input has a result |
| Corrector.SuggestionFound | src/spell_corrector.rs:33-120 | an Ok result is a stored word within two edits of the lowercased input; a word two edits away is returned only when none one edit away is stored |
| Corrector.SuggestionFails | src/spell_corrector.rs:33-120 | the result is the error exactly when neither the word nor anything within two edits is stored, and then carries the input |
| Corrector.SpellCorrector.constructor | src/spell_corrector.rs:15-17 | a new corrector has an empty dictionary |
| Corrector.SpellCorrector.UseDictionary | src/spell_corrector.rs:18-31 | a fresh trie holding the lowercased tokens added in order |
| Corrector.SpellCorrector.FilterMatches | src/spell_corrector.rs:47-52 | the matches are exactly the pool members `find` reports |
| Corrector.SpellCorrector.SelectBest | src/spell_corrector.rs:55-71 | the running pair ends empty exactly when nothing was found, and otherwise holds the best of the found words with its frequency |
| Corrector.SpellCorrector.Suggest | src/spell_corrector.rs:33-120 | the method returns the `Suggestion` for its input |
| CorrectorExamples.OneWordFreq | src/spell_corrector.rs:238-249 | a one-word dictionary stores that word with frequency 1 and nothing else |
| CorrectorExamples.OneWordMatches | src/spell_corrector.rs:47-52 | in a one-word dictionary, a pool's matches are that word if the pool holds it, else none |
| CorrectorExamples.OneWordSuggestion | src/spell_corrector.rs:33-120 | against one stored word, the suggestion is that word exactly when it is within two edits of the lowercased input, and the error text otherwise |
| CorrectorExamples.OneWordFinds | src/spell_corrector.rs:33-120 | a stored word within two edits is suggested |
| CorrectorExamples.OneWordFails | src/spell_corrector.rs:116-119 | a stored word further away gives the error |
| CorrectorExamples.ValidWordCases | src/spell_corrector.rs:256-270 | "yea" and "YEA" both get "yea" |
| CorrectorExamples.FoundByInsertion | src/spell_corrector.rs:273-287 | any guess one insertion short of "yea" gets "yea" |
| CorrectorExamples.InsertionCases | src/spell_corrector.rs:273-287 | "ye", "ea" and "ya" get "yea" |
| CorrectorExamples.FoundByDeletion | src/spell_corrector.rs:290-308 | any guess one deletion away from "yea" gets "yea" |
| CorrectorExamples.DeletionCases | src/spell_corrector.rs:290-308 | "yaea", "ybea", "ryea" and "ygea" get "yea" |
| CorrectorExamples.FoundByTwoInsertions | src/spell_corrector.rs:341-355 | a one-letter guess two insertions short of "yea" is not one edit away, yet gets "yea" |
| CorrectorExamples.TwoInsertionCases | src/spell_corrector.rs:341-355 | "e", "a" and "y" get "yea", from the second stage |
| CorrectorExamples.FoundByEdit | src/spell_corrector.rs:311-338 | any guess that one deletion, exchange, substitution or insertion turns into the stored word gets that word |
| CorrectorExamples.AlterationCases | src/spell_corrector.rs:311-325 | "flobt" and "bloat" get "float", and "reah" gets "yeah", each against the one-word dictionary of its answer |
| CorrectorExamples.TranspositionCases | src/spell_corrector.rs:328-338 | "yaeh" gets "yeah" and "flaot" gets "float", each against the one-word dictionary of its answer |
| CorrectorExamples.FoundByTwoEdits | src/spell_corrector.rs:80-119 | a guess with a single edit that is itself one edit from the stored word gets that word |
| CorrectorExamples.FoundByEdits | src/spell_corrector.rs:358-606 | any guess that two edits, one after the other, turn into the stored word gets that word |
| CorrectorExamples.InsertionDeletionCases | src/spell_corrector.rs:358-372 | "yez", "efa" and "rya", an insertion and a deletion away from "yea", give "yea" |
| CorrectorExamples.InsertionAlterationCases | src/spell_corrector.rs:375-389 | "er", "qa" and "yf", an insertion and a substitution away from "yea", give "yea" |
| CorrectorExamples.InsertionTranspositionCases | src/spell_corrector.rs:392-402 | "ae" and "ey", an insertion and a transposition away from "yea", give "yea" |
| CorrectorExamples.DeletionInsertionCases | src/spell_corrector.rs:405-419 | "yar", "fya" and "yad", a deletion and an insertion away from "yea", give "yea" |
| CorrectorExamples.DeletionDeletionCases | src/spell_corrector.rs:422-440 | "yeakg", "jkyea", "vyfea" and "cyean", two deletions away from "yea", give "yea" |
| CorrectorExamples.DeletionAlterationCases | src/spell_corrector.rs:443-457 | "ydef", "vyga" and "ymca", a deletion and a substitution away from "yea", give "yea" |
| CorrectorExamples.DeletionTranspositionCases | src/spell_corrector.rs:460-474 | "yade", "epya" and "yame", a deletion and a transposition away from "yea", give "yea" |
| CorrectorExamples.AlterationInsertionCases | src/spell_corrector.rs:477-491 | "fe", "va" and "yy", a substitution and an insertion away from "yea", give "yea" |
| CorrectorExamples.AlterationDeletionCases | src/spell_corrector.rs:494-508 | "feia", "yqex" and "yqax", a substitution and a deletion away from "yea", give "yea" |
| CorrectorExamples.AlterationAlterationCases | src/spell_corrector.rs:511-525 | "vda", "xel" and "yhb", two substitutions away from "yea", give "yea" |
| CorrectorExamples.AlterationTranspositionCases | src/spell_corrector.rs:528-542 | "yac", "gya" and "eja", a substitution and a transposition away from "yea", give "yea" |
| CorrectorExamples.TranspositionInsertionCases | src/spell_corrector.rs:545-559 | "ay", "ae" and "ey", a transposition and an insertion away from "yea", give "yea" |
| CorrectorExamples.TranspositionDeletionCases | src/spell_corrector.rs:562-576 | "ycae", "eyae" and "eyma", a transposition and a deletion away from "yea", give "yea" |
| CorrectorExamples.TranspositionAlterationCases | src/spell_corrector.rs:579-593 | "yac", "bya" and "yle", a transposition and a substitution away from "yea", give "yea" |
| CorrectorExamples.TranspositionTranspositionCases | src/spell_corrector.rs:596-606 | "eay" and "aye", two transpositions away from "yea", give "yea" |
| CorrectorExamples.EmptyGuessFails | src/spell_corrector.rs:609-613 | the empty guess gets the error |
| CorrectorExamples.DissimilarGuessFails | src/spell_corrector.rs:615-617 | "lol" gets the error |
| CorrectorExamples.LongGuessFails | src/spell_corrector.rs:619-621 | the 26-letter guess gets the error |
| CorrectorExamples.TokensFreq | src/spell_corrector.rs:18-31 | lowercase tokens are stored with their number of occurrences |
| CorrectorExamples.NoEmptyToken | src/spell_corrector.rs:24-27 | non-empty tokens never count for the empty word |
| CorrectorExamples.LoweredIdentity | src/spell_corrector.rs:25 | lowercase tokens are passed to `add` unchanged |
| CorrectorExamples.HigherFrequencyWins | src/spell_corrector.rs:635-636 | with "yeah" stored twice and "yea" once, "yeaz" gets "yeah" |
| CorrectorExamples.FrequencyRule | src/spell_corrector.rs:635-636 | any tree with those frequencies gives "yeah" for "yeaz" |
| CorrectorExamples.TieMatches | src/spell_corrector.rs:47-52 | with "yes" and "yea" stored, the matches of "ye" at distance one are exactly those two |
| CorrectorExamples.TieGoesToSmaller | src/spell_corrector.rs:63-68 | with "yes" and "yea" stored once each, "ye" gets the alphabetically first, "yea" |
| CorrectorExamples.TieRule | src/spell_corrector.rs:63-68 | any tree with those frequencies gives "yea" for "ye" |
| TrieExamples.CountStep | src/spell_corrector/trie.rs:54-79 | one add grows the tree by the missing path nodes, and the word count by one for a new word |
| TrieExamples.FirstTwoAdds | src/spell_corrector/trie.rs:215-224 | the first word's whole path is missing in the new trie; a one-letter extension then misses one node |
| TrieExamples.ThirdAdd | src/spell_corrector/trie.rs:227-237 | a word with a new first letter misses its whole path |
| TrieExamples.PrefixAfterTwo | src/spell_corrector/trie.rs:240-251 | a proper prefix of the stored words has a path but no frequency |
| TrieExamples.PrefixAfterThree | src/spell_corrector/trie.rs:240-251 | adding under another first letter keeps that path, so adding the prefix creates nothing |
| TrieExamples.PrefixTwice | src/spell_corrector/trie.rs:320-334 | the first add of the prefix creates nothing and gives it frequency 1, so the second add finds its path |
| TrieExamples.CountsFirstTwo | src/spell_corrector/trie.rs:203-224 | node and word counts 1/0, 6/1 and 7/2 |
| TrieExamples.CountsThird | src/spell_corrector/trie.rs:227-237 | adding a word under a new letter gives 13/3 |
| TrieExamples.CountsPrefix | src/spell_corrector/trie.rs:240-251 | adding the prefix gives 13/4, and adding it again leaves 13/4 |
| TrieExamples.CountsAfterAdds | src/spell_corrector/trie.rs:320-334 | adding "cares", "caress", "baboon", "car" and "car" gives the counts 1/0, 6/1, 7/2, 13/3, 13/4 and 13/4 |
| TrieExamples.FreqStep | src/spell_corrector/trie.rs:67-74 | one add raises only the added word's frequency, by one |
| TrieExamples.FreqsAfterAdds | src/spell_corrector/trie.rs:337-346 | after those adds, each word's frequency is the number of times it was added |
| TrieExamples.FindsAfterAdds | src/spell_corrector/trie.rs:337-353 | `find` reports nothing for "vnjklnasldkgnmb", "caresses", "c", "ca" and "care", reports each stored word, and reports "car" with frequency 2 |
| TrieExamples.ListingMembers | src/spell_corrector/trie.rs:405-433 | the listing after those adds holds exactly the four distinct words |
| TrieExamples.ListingInOrder | src/spell_corrector/trie.rs:405-433 | four increasing stored words make up the listing, in that order |
| TrieExamples.ListingAfterAdds | src/spell_corrector/trie.rs:429-431 | the listing is "baboon", "car", "cares", "caress", each once, and `to_string` gives them joined by newlines |
| TrieExamples.ListingText | src/spell_corrector/trie.rs:410 | those four words joined by newlines are the expected text |
| TrieExamples.JoinFour | src/spell_corrector/trie.rs:131-139 | four words joined are the words with a newline between each two |
| TrieExamples.AddedAgainDiffers | src/spell_corrector/trie.rs:276-278 | a word added once more makes the comparison fail |
| TrieExamples.EqualsAfterAdds | src/spell_corrector/trie.rs:254-279 | a trie with "car" is not `==` to one without it; two tries built by the same adds are `==`; and the trie with "car" twice is not `==` to the one with it once, though all counters agree |

## Left out

- Corrector.SpellCorrector.UseDictionary: takes the dictionary as a sequence of tokens. Reading the file, `lines()`, `split(' ')`, `trim_end()` and the panic when the file is missing are not modelled. A file's tokens are the argument.
- Dictionary.Trie.Add: the counters and frequencies are unbounded naturals. The `u32` overflow of `num_nodes`, `num_words` and `freq` is not modelled, since it needs over four billion adds.
- Dictionary.Trie.Add, Dictionary.Trie.Find and Corrector.SpellCorrector.Suggest require the lowercased word to consist of the letters a..z, and the model does not represent the panics on other characters (`to_digit(36).unwrap()`, or the subtraction of 10 for a digit). `add` computes the index of every character before it tests the slot, so it panics on any other character. `find` computes an index only when its walk reaches that character: it panics when the path reaches the non-letter and returns None when the path breaks earlier, and the model's requires excludes both cases. `suggest_similar_word` panics on any input with a non-letter: `find` on the input itself either panics or returns None, and then `find` panics on the transposition that moves the non-letter to the front.
- Dictionary.Trie.Add: rebuilds the path as a new tree value instead of moving a mutable cursor down boxed nodes. The resulting tree is the same, but the aliasing of `&mut` references is not modelled.
- Dictionary.Trie.HashCode: the counters enter the hash reduced modulo 2^32, which matches what `as i32` does to a `u32` bit pattern. The slot sum is at most 300, so it never wraps.
- Letters.Lower: lowers only ASCII A..Z. Rust's Unicode `to_lowercase` on other characters is not modelled. Most of them lower to characters outside a..z, on which the trie panics. The exception is U+212A KELVIN SIGN: it lowers to ASCII 'k', so `add`, `find` and `suggest_similar_word` accept it, while the model's `ValidWord(Lower(word))` excludes it.
- `add` compares a character count `i` with the byte length `len() - 1`. The two agree on the ASCII words the model accepts, and any other word panics first.
- `HashSet` iteration order: GenEditDist2 takes pool members in an arbitrary order (`:|`), and SelectBest takes matches in whatever order its sequence has. Corrector.BestUnique shows the result does not depend on that order. Duplicate `Box<String>` entries and hashing of set members are not modelled.
- `Node::get_value`, `get_freq` and `get_children`, and the `Default`, `Clone` and `Debug` impls, are plain field access or copying. Values are immutable in the model, so nothing is left to copy.
- `src/main.rs` (the GTK window) is not part of this model.
- The tests that read files are restated on token sequences: word.txt as ["yea"], and for the frequency and tie rules, small dictionaries with the frequencies those tests rely on. test_large_trie and test_big_file depend on files whose contents are not available and are not restated. Neither are the "yes" and "yeahj" cases of test_choose_closest_word, for the same reason. test_alteration and test_transposition also read words.txt; their guesses are restated against the one-word dictionary of each expected answer, so competition from the file's other words is not modelled.
- test_more_equals and the cases of test_more_hash_code after the two-word tries are not restated. The properties they exercise are covered generally by CompareSeesSharedFreq, OrderIgnored and HashCode's contract.

## Findings

| source | as written | input that shows it | evidently intended | confidence | as-written member | corrected member |
|---|---|---|---|---|---|---|
| src/spell_corrector/trie.rs:156-166 | `compare` recurses only into slots occupied on both sides, so `==` never notices a slot occupied on one side only | the tries holding only "a" and only "b": both counters are 2 and 1, and `==` holds | a slot occupied on one side only makes the tries unequal | not executed | Dictionary.EqualsIgnoresOneSidedSlots | Dictionary.Trie.SameAs |
| src/spell_corrector/trie.rs:111 | `to_string_helper` scans slots `0..25`, skipping z, so no word on a path through z is listed | the trie holding only "z" prints the empty string | every stored word is listed (slots `0..26`) | not executed | TrieWalks.ListingDropsZ | TrieWalks.FullListingContents |
| src/spell_corrector/trie.rs:141-150 | two tries that `==` accepts can hash differently, because `==` ignores one-sided slots and the hash sums the occupied root slots | the tries holding only "a" and only "b" are `==` and hash to 0 and 1 | equal tries hash alike | not executed | Dictionary.EqualsButHashesDiffer | Dictionary.SameAsHashesAlike |
