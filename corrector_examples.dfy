/**
 * The suggestion tests of src/spell_corrector.rs on dictionaries given as
 * token sequences: a one-word dictionary ("yea", the content word.txt
 * stands for) and two small ones that exercise the frequency rule and the
 * alphabetical tie-break.
 */
module CorrectorExamples {
  import opened Wrappers
  import opened Letters
  import opened TrieNode
  import opened Candidates
  import opened Corrector

  /** A dictionary built from the single token `word`. */
  function OneWord(word: string): Node
    requires ValidWord(word)
  {
    LowerOfValid(word);
    Build(EmptyRoot(), [word])
  }

  /** In a one-word dictionary the word has frequency 1 and every other string 0. */
  lemma OneWordFreq(word: string, v: string)
    requires ValidWord(word) && word != []
    ensures FreqAt(OneWord(word), v) == (if v == word then 1 else 0)
  {
    LowerOfValid(word);
    NewNodeFacts('\0', v);
    BuildFreq(EmptyRoot(), [word], v);
    assert Lowered([word]) == [word];
  }

  lemma OneWordMatches(word: string, pool: set<string>)
    requires ValidWord(word) && word != []
    ensures Matches(OneWord(word), pool) == if word in pool then {word} else {}
  {
    forall v ensures FreqAt(OneWord(word), v) == (if v == word then 1 else 0) {
      OneWordFreq(word, v);
    }
  }

  /**
   * Against a one-word dictionary the suggestion is that word exactly when
   * it is the lowercased input or within two edits of it, and the error
   * message otherwise.
   */
  lemma OneWordSuggestion(word: string, input: string, r: Result<string, string>)
    requires ValidWord(word) && word != []
    ensures Suggestion(OneWord(word), input, r) <==>
      r == (if word == Lower(input) || word in Edits1(Lower(input)) || word in Edits2(Edits1(Lower(input)))
            then Ok(word) else Err(NotFound(input)))
  {
    var lw := Lower(input);
    OneWordFreq(word, lw);
    OneWordMatches(word, Edits1(lw));
    OneWordMatches(word, Edits2(Edits1(lw)));
  }

  lemma OneWordFinds(word: string, input: string, r: Result<string, string>)
    requires ValidWord(word) && word != []
    requires word == Lower(input) || word in Edits1(Lower(input)) || word in Edits2(Edits1(Lower(input)))
    ensures Suggestion(OneWord(word), input, r) <==> r == Ok(word)
  {
    OneWordSuggestion(word, input, r);
  }

  lemma OneWordFails(word: string, input: string, r: Result<string, string>)
    requires ValidWord(word) && word != []
    requires word != Lower(input) && word !in Edits1(Lower(input)) && word !in Edits2(Edits1(Lower(input)))
    ensures Suggestion(OneWord(word), input, r) <==> r == Err(NotFound(input))
  {
    OneWordSuggestion(word, input, r);
  }

  /** "yea", its lowercase and its uppercase are all found as "yea" (test_valid_word). */
  lemma ValidWordCases(g: string, r: Result<string, string>)
    requires g == "yea" || g == "YEA"
    ensures Suggestion(OneWord("yea"), g, r) <==> r == Ok("yea")
  {
    assert Lower(g) == "yea";
    OneWordFinds("yea", g, r);
  }

  /** A guess that one insertion turns into "yea" gets "yea". */
  lemma FoundByInsertion(g: string, i: nat, k: nat, r: Result<string, string>)
    requires ValidWord(g) && i <= |g| && k < Alphabet && InsertAt(g, i, Letter(k)) == "yea"
    ensures Suggestion(OneWord("yea"), g, r) <==> r == Ok("yea")
  {
    LowerOfValid(g);
    assert InsertAt(g, i, Letter(k)) in Insertions(g);
    OneWordFinds("yea", g, r);
  }

  /** A guess that one deletion turns into "yea" gets "yea". */
  lemma FoundByDeletion(g: string, i: nat, r: Result<string, string>)
    requires ValidWord(g) && i < |g| && Delete(g, i) == "yea"
    ensures Suggestion(OneWord("yea"), g, r) <==> r == Ok("yea")
  {
    LowerOfValid(g);
    assert Delete(g, i) in Deletions(g);
    OneWordFinds("yea", g, r);
  }

  /** A one-letter guess that two insertions turn into "yea" gets "yea", though only from the second stage. */
  lemma FoundByTwoInsertions(g: string, i: nat, k: nat, j: nat, l: nat, r: Result<string, string>)
    requires ValidWord(g) && |g| == 1 && i <= 1 && j <= 2 && k < Alphabet && l < Alphabet
    requires InsertAt(InsertAt(g, i, Letter(k)), j, Letter(l)) == "yea"
    ensures "yea" !in Edits1(g)
    ensures Suggestion(OneWord("yea"), g, r) <==> r == Ok("yea")
  {
    LowerOfValid(g);
    LengthApart(g, "yea");
    var mid := InsertAt(g, i, Letter(k));
    assert mid in Insertions(g);
    assert InsertAt(mid, j, Letter(l)) in Insertions(mid);
    assert mid in Edits1(g) && "yea" in Edits1(mid);
    OneWordFinds("yea", g, r);
  }

  /** One insertion away (test_insertion). */
  lemma InsertionCases(g: string, r: Result<string, string>)
    requires g == "ye" || g == "ea" || g == "ya"
    ensures Suggestion(OneWord("yea"), g, r) <==> r == Ok("yea")
  {
    if g == "ye" {
      FoundByInsertion(g, 2, 0, r);
    } else if g == "ea" {
      FoundByInsertion(g, 0, 24, r);
    } else {
      FoundByInsertion(g, 1, 4, r);
    }
  }

  /** One deletion away (test_deletion). */
  lemma DeletionCases(g: string, r: Result<string, string>)
    requires g == "yaea" || g == "ybea" || g == "ryea" || g == "ygea"
    ensures Suggestion(OneWord("yea"), g, r) <==> r == Ok("yea")
  {
    if g == "ryea" {
      FoundByDeletion(g, 0, r);
    } else {
      FoundByDeletion(g, 1, r);
    }
  }

  /** Two insertions away: found only in the second stage (test_insertion_insertion). */
  lemma TwoInsertionCases(g: string, r: Result<string, string>)
    requires g == "e" || g == "a" || g == "y"
    ensures "yea" !in Edits1(g)
    ensures Suggestion(OneWord("yea"), g, r) <==> r == Ok("yea")
  {
    if g == "e" {
      FoundByTwoInsertions(g, 0, 24, 2, 0, r);
    } else if g == "a" {
      FoundByTwoInsertions(g, 0, 24, 1, 4, r);
    } else {
      FoundByTwoInsertions(g, 1, 4, 2, 0, r);
    }
  }

  /** One single edit, as the generators make them: a deletion, an exchange, a substitution or an insertion. */
  datatype Edit = Deletion(i: nat) | Transposition(i: nat, j: nat) | Substitution(i: nat, k: nat) | Insertion(i: nat, k: nat)

  /** The edit is one the generators make on w. */
  predicate Applies(w: string, e: Edit) {
    match e
    case Deletion(i) => i < |w|
    case Transposition(i, j) => i < |w| && j < |w| && w[i] != w[j]
    case Substitution(i, k) => i < |w| && k < SubstitutionLetters
    case Insertion(i, k) => i <= |w| && k < Alphabet
  }

  /** The word the edit makes from w. */
  function Apply(w: string, e: Edit): string
    requires Applies(w, e)
  {
    match e
    case Deletion(i) => Delete(w, i)
    case Transposition(i, j) => Swap(w, i, j)
    case Substitution(i, k) => Substitute(w, i, k)
    case Insertion(i, k) => InsertAt(w, i, Letter(k))
  }

  /** Every edit the generators make on w lands in the distance-one pool of w. */
  lemma ApplyIn(w: string, e: Edit)
    requires Applies(w, e)
    ensures Apply(w, e) in Edits1(w)
  {
    match e
    case Deletion(i) => assert Delete(w, i) in Deletions(w);
    case Transposition(i, j) => assert Swap(w, i, j) in Transpositions(w);
    case Substitution(i, k) => assert Substitute(w, i, k) in Substitutions(w);
    case Insertion(i, k) => assert InsertAt(w, i, Letter(k)) in Insertions(w);
  }

  /** A guess that one edit turns into the stored word gets it. */
  lemma FoundByEdit(word: string, g: string, e: Edit, r: Result<string, string>)
    requires ValidWord(word) && word != [] && ValidWord(g)
    requires Applies(g, e) && Apply(g, e) == word
    ensures Suggestion(OneWord(word), g, r) <==> r == Ok(word)
  {
    LowerOfValid(g);
    ApplyIn(g, e);
    OneWordFinds(word, g, r);
  }

  /** A guess with a single edit `mid` that is itself one edit from the stored word gets that word. */
  lemma FoundByTwoEdits(word: string, g: string, mid: string, r: Result<string, string>)
    requires ValidWord(word) && word != [] && ValidWord(g)
    requires mid in Edits1(g) && word in Edits1(mid)
    ensures Suggestion(OneWord(word), g, r) <==> r == Ok(word)
  {
    LowerOfValid(g);
    assert word in Edits2(Edits1(g));
    OneWordFinds(word, g, r);
  }

  /** A guess that two edits, one after the other, turn into the stored word gets it. */
  lemma FoundByEdits(word: string, g: string, e: Edit, f: Edit, r: Result<string, string>)
    requires ValidWord(word) && word != [] && ValidWord(g)
    requires Applies(g, e) && Applies(Apply(g, e), f) && Apply(Apply(g, e), f) == word
    ensures Suggestion(OneWord(word), g, r) <==> r == Ok(word)
  {
    ApplyIn(g, e);
    ApplyIn(Apply(g, e), f);
    FoundByTwoEdits(word, g, Apply(g, e), r);
  }

  /**
   * One substitution away (test_alteration). The test reads words.txt;
   * each guess is restated against the one-word dictionary of its answer.
   */
  lemma AlterationCases(word: string, g: string, r: Result<string, string>)
    requires (word == "float" && (g == "flobt" || g == "bloat")) || (word == "yeah" && g == "reah")
    ensures Suggestion(OneWord(word), g, r) <==> r == Ok(word)
  {
    if g == "flobt" {
      FoundByEdit(word, g, Substitution(3, 0), r);
    } else if g == "bloat" {
      FoundByEdit(word, g, Substitution(0, 5), r);
    } else {
      FoundByEdit(word, g, Substitution(0, 24), r);
    }
  }

  /**
   * One transposition away (test_transposition), restated against the
   * one-word dictionary of each answer as for test_alteration.
   */
  lemma TranspositionCases(word: string, g: string, r: Result<string, string>)
    requires (word == "yeah" && g == "yaeh") || (word == "float" && g == "flaot")
    ensures Suggestion(OneWord(word), g, r) <==> r == Ok(word)
  {
    if g == "yaeh" {
      FoundByEdit(word, g, Transposition(1, 2), r);
    } else {
      FoundByEdit(word, g, Transposition(2, 3), r);
    }
  }

  /** "yez", "efa" and "rya" are an insertion and a deletion away from "yea" (test_insertion_deletion). */
  lemma InsertionDeletionCases(word: string, g: string, r: Result<string, string>)
    requires word == "yea" && (g == "yez" || g == "efa" || g == "rya")
    ensures Suggestion(OneWord(word), g, r) <==> r == Ok(word)
  {
    if g == "yez" {
      FoundByEdits(word, g, Deletion(2), Insertion(2, 0), r);
    } else if g == "efa" {
      FoundByEdits(word, g, Deletion(1), Insertion(0, 24), r);
    } else {
      FoundByEdits(word, g, Deletion(0), Insertion(1, 4), r);
    }
  }

  /** "er", "qa" and "yf" are an insertion and a substitution away from "yea" (test_insertion_alteration). */
  lemma InsertionAlterationCases(word: string, g: string, r: Result<string, string>)
    requires word == "yea" && (g == "er" || g == "qa" || g == "yf")
    ensures Suggestion(OneWord(word), g, r) <==> r == Ok(word)
  {
    if g == "er" {
      FoundByEdits(word, g, Substitution(1, 0), Insertion(0, 24), r);
    } else if g == "qa" {
      FoundByEdits(word, g, Substitution(0, 4), Insertion(0, 24), r);
    } else {
      FoundByEdits(word, g, Substitution(1, 0), Insertion(1, 4), r);
    }
  }

  /** "ae" and "ey" are an insertion and a transposition away from "yea" (test_insertion_transposition). */
  lemma InsertionTranspositionCases(word: string, g: string, r: Result<string, string>)
    requires word == "yea" && (g == "ae" || g == "ey")
    ensures Suggestion(OneWord(word), g, r) <==> r == Ok(word)
  {
    if g == "ae" {
      FoundByEdits(word, g, Transposition(0, 1), Insertion(0, 24), r);
    } else {
      FoundByEdits(word, g, Transposition(0, 1), Insertion(2, 0), r);
    }
  }

  /** "yar", "fya" and "yad" are a deletion and an insertion away from "yea" (test_deletion_insertion). */
  lemma DeletionInsertionCases(word: string, g: string, r: Result<string, string>)
    requires word == "yea" && (g == "yar" || g == "fya" || g == "yad")
    ensures Suggestion(OneWord(word), g, r) <==> r == Ok(word)
  {
    if g == "yar" {
      FoundByEdits(word, g, Deletion(2), Insertion(1, 4), r);
    } else if g == "fya" {
      FoundByEdits(word, g, Deletion(0), Insertion(1, 4), r);
    } else {
      FoundByEdits(word, g, Deletion(2), Insertion(1, 4), r);
    }
  }

  /** "yeakg", "jkyea", "vyfea" and "cyean" are two deletions away from "yea" (test_deletion_deletion). */
  lemma DeletionDeletionCases(word: string, g: string, r: Result<string, string>)
    requires word == "yea" && (g == "yeakg" || g == "jkyea" || g == "vyfea" || g == "cyean")
    ensures Suggestion(OneWord(word), g, r) <==> r == Ok(word)
  {
    if g == "yeakg" {
      FoundByEdits(word, g, Deletion(3), Deletion(3), r);
    } else if g == "jkyea" {
      FoundByEdits(word, g, Deletion(0), Deletion(0), r);
    } else if g == "vyfea" {
      FoundByEdits(word, g, Deletion(0), Deletion(1), r);
    } else {
      FoundByEdits(word, g, Deletion(0), Deletion(3), r);
    }
  }

  /** "ydef", "vyga" and "ymca" are a deletion and a substitution away from "yea" (test_deletion_alteration). */
  lemma DeletionAlterationCases(word: string, g: string, r: Result<string, string>)
    requires word == "yea" && (g == "ydef" || g == "vyga" || g == "ymca")
    ensures Suggestion(OneWord(word), g, r) <==> r == Ok(word)
  {
    if g == "ydef" {
      FoundByEdits(word, g, Deletion(1), Substitution(2, 0), r);
    } else if g == "vyga" {
      FoundByEdits(word, g, Deletion(0), Substitution(1, 4), r);
    } else {
      FoundByEdits(word, g, Deletion(1), Substitution(1, 4), r);
    }
  }

  /** "yade", "epya" and "yame" are a deletion and a transposition away from "yea" (test_deletion_transposition). */
  lemma DeletionTranspositionCases(word: string, g: string, r: Result<string, string>)
    requires word == "yea" && (g == "yade" || g == "epya" || g == "yame")
    ensures Suggestion(OneWord(word), g, r) <==> r == Ok(word)
  {
    if g == "yade" {
      FoundByEdits(word, g, Deletion(2), Transposition(1, 2), r);
    } else if g == "epya" {
      FoundByEdits(word, g, Deletion(1), Transposition(0, 1), r);
    } else {
      FoundByEdits(word, g, Deletion(2), Transposition(1, 2), r);
    }
  }

  /** "fe", "va" and "yy" are a substitution and an insertion away from "yea" (test_alteration_insertion). */
  lemma AlterationInsertionCases(word: string, g: string, r: Result<string, string>)
    requires word == "yea" && (g == "fe" || g == "va" || g == "yy")
    ensures Suggestion(OneWord(word), g, r) <==> r == Ok(word)
  {
    if g == "fe" {
      FoundByEdits(word, g, Substitution(0, 24), Insertion(2, 0), r);
    } else if g == "va" {
      FoundByEdits(word, g, Substitution(0, 4), Insertion(0, 24), r);
    } else {
      FoundByEdits(word, g, Substitution(1, 0), Insertion(1, 4), r);
    }
  }

  /** "feia", "yqex" and "yqax" are a substitution and a deletion away from "yea" (test_alteration_deletion). */
  lemma AlterationDeletionCases(word: string, g: string, r: Result<string, string>)
    requires word == "yea" && (g == "feia" || g == "yqex" || g == "yqax")
    ensures Suggestion(OneWord(word), g, r) <==> r == Ok(word)
  {
    if g == "feia" {
      FoundByEdits(word, g, Deletion(2), Substitution(0, 24), r);
    } else if g == "yqex" {
      FoundByEdits(word, g, Deletion(1), Substitution(2, 0), r);
    } else {
      FoundByEdits(word, g, Deletion(3), Substitution(1, 4), r);
    }
  }

  /** "vda", "xel" and "yhb" are two substitutions away from "yea" (test_alteration_alteration). */
  lemma AlterationAlterationCases(word: string, g: string, r: Result<string, string>)
    requires word == "yea" && (g == "vda" || g == "xel" || g == "yhb")
    ensures Suggestion(OneWord(word), g, r) <==> r == Ok(word)
  {
    if g == "vda" {
      FoundByEdits(word, g, Substitution(0, 24), Substitution(1, 4), r);
    } else if g == "xel" {
      FoundByEdits(word, g, Substitution(0, 24), Substitution(2, 0), r);
    } else {
      FoundByEdits(word, g, Substitution(1, 4), Substitution(2, 0), r);
    }
  }

  /** "yac", "gya" and "eja" are a substitution and a transposition away from "yea" (test_alteration_transposition). */
  lemma AlterationTranspositionCases(word: string, g: string, r: Result<string, string>)
    requires word == "yea" && (g == "yac" || g == "gya" || g == "eja")
    ensures Suggestion(OneWord(word), g, r) <==> r == Ok(word)
  {
    if g == "yac" {
      FoundByEdits(word, g, Transposition(1, 2), Substitution(1, 4), r);
    } else if g == "gya" {
      FoundByEdits(word, g, Transposition(0, 1), Substitution(1, 4), r);
    } else {
      FoundByEdits(word, g, Transposition(0, 1), Substitution(0, 24), r);
    }
  }

  /** "ay", "ae" and "ey" are a transposition and an insertion away from "yea" (test_transposition_insertion). */
  lemma TranspositionInsertionCases(word: string, g: string, r: Result<string, string>)
    requires word == "yea" && (g == "ay" || g == "ae" || g == "ey")
    ensures Suggestion(OneWord(word), g, r) <==> r == Ok(word)
  {
    if g == "ay" {
      FoundByEdits(word, g, Transposition(0, 1), Insertion(1, 4), r);
    } else if g == "ae" {
      FoundByEdits(word, g, Transposition(0, 1), Insertion(0, 24), r);
    } else {
      FoundByEdits(word, g, Transposition(0, 1), Insertion(2, 0), r);
    }
  }

  /** "ycae", "eyae" and "eyma" are a transposition and a deletion away from "yea" (test_transposition_deletion). */
  lemma TranspositionDeletionCases(word: string, g: string, r: Result<string, string>)
    requires word == "yea" && (g == "ycae" || g == "eyae" || g == "eyma")
    ensures Suggestion(OneWord(word), g, r) <==> r == Ok(word)
  {
    if g == "ycae" {
      FoundByEdits(word, g, Deletion(1), Transposition(1, 2), r);
    } else if g == "eyae" {
      FoundByEdits(word, g, Deletion(0), Transposition(1, 2), r);
    } else {
      FoundByEdits(word, g, Deletion(2), Transposition(0, 1), r);
    }
  }

  /** "yac", "bya" and "yle" are a transposition and a substitution away from "yea" (test_transposition_alteration). */
  lemma TranspositionAlterationCases(word: string, g: string, r: Result<string, string>)
    requires word == "yea" && (g == "yac" || g == "bya" || g == "yle")
    ensures Suggestion(OneWord(word), g, r) <==> r == Ok(word)
  {
    if g == "yac" {
      FoundByEdits(word, g, Transposition(1, 2), Substitution(1, 4), r);
    } else if g == "bya" {
      FoundByEdits(word, g, Transposition(0, 1), Substitution(1, 4), r);
    } else {
      FoundByEdits(word, g, Transposition(1, 2), Substitution(2, 0), r);
    }
  }

  /** "eay" and "aye" are two transpositions away from "yea" (test_transposition_transposition). */
  lemma TranspositionTranspositionCases(word: string, g: string, r: Result<string, string>)
    requires word == "yea" && (g == "eay" || g == "aye")
    ensures Suggestion(OneWord(word), g, r) <==> r == Ok(word)
  {
    if g == "eay" {
      FoundByEdits(word, g, Transposition(0, 1), Transposition(0, 2), r);
    } else {
      FoundByEdits(word, g, Transposition(0, 1), Transposition(1, 2), r);
    }
  }

  /** The empty guess is nothing like "yea" (test_no_similar_words). */
  lemma EmptyGuessFails(g: string, r: Result<string, string>)
    requires g == ""
    ensures Suggestion(OneWord("yea"), g, r) <==> r == Err("Unable to find word \"\"")
  {
    assert Lower(g) == g;
    LengthApart(g, "yea");
    OneWordFails("yea", g, r);
    assert NotFound(g) == "Unable to find word \"\"";
  }

  /** "lol" lacks three letters of "yea", more than two edits can bring in (test_no_similar_words). */
  lemma DissimilarGuessFails(g: string, r: Result<string, string>)
    requires g == "lol"
    ensures Suggestion(OneWord("yea"), g, r) <==> r == Err(NotFound(g))
  {
    LowerOfValid(g);
    LettersApart(g, "yea", 'y', 'e', 'a');
    OneWordFails("yea", g, r);
  }

  /** A 26-letter guess is too long to be two edits from "yea" (test_no_similar_words). */
  lemma LongGuessFails(g: string, r: Result<string, string>)
    requires g == "abcdefghijklmnopqrstuvqxyz"
    ensures Suggestion(OneWord("yea"), g, r) <==> r == Err(NotFound(g))
  {
    assert |Lower(g)| == 26;
    LengthApart(Lower(g), "yea");
    OneWordFails("yea", g, r);
  }

  /** A dictionary of lowercase non-empty tokens stores each with its number of occurrences. */
  lemma TokensFreq(tokens: seq<string>, v: string)
    requires forall i :: 0 <= i < |tokens| ==> ValidWord(tokens[i]) && tokens[i] != []
    ensures Loadable(tokens)
    ensures FreqAt(Build(EmptyRoot(), tokens), v) == multiset(tokens)[v]
  {
    forall i | 0 <= i < |tokens| ensures ValidWord(Lower(tokens[i])) {
      LowerOfValid(tokens[i]);
    }
    LoweredIdentity(tokens);
    EmptyRootFacts(v);
    BuildFreq(EmptyRoot(), tokens, v);
    if v == [] {
      NoEmptyToken(tokens);
    }
  }

  lemma NoEmptyToken(tokens: seq<string>)
    requires forall i :: 0 <= i < |tokens| ==> tokens[i] != []
    ensures multiset(tokens)[[]] == 0
  {
    assert [] !in tokens;
  }

  lemma LoweredIdentity(tokens: seq<string>)
    requires forall i :: 0 <= i < |tokens| ==> ValidWord(tokens[i])
    ensures Lowered(tokens) == tokens
  {
    forall i | 0 <= i < |tokens| ensures Lower(tokens[i]) == tokens[i] {
      LowerOfValid(tokens[i]);
    }
  }

  /** "yeaz" is one edit from both "yea" and "yeah"; with "yeah" stored twice, it wins (test_choose_closest_word). */
  lemma HigherFrequencyWins(tokens: seq<string>, r: Result<string, string>)
    requires tokens == ["yea", "yeah", "yeah"]
    ensures Loadable(tokens)
    ensures Suggestion(Build(EmptyRoot(), tokens), "yeaz", r) <==> r == Ok("yeah")
  {
    TokensFreq(tokens, "");
    var d := Build(EmptyRoot(), tokens);
    assert multiset(tokens) == multiset{"yea", "yeah", "yeah"};
    forall v ensures FreqAt(d, v) == if v == "yeah" then 2 else if v == "yea" then 1 else 0 {
      TokensFreq(tokens, v);
    }
    FrequencyRule(d, "yeaz", r);
  }

  /** Any tree storing "yeah" twice, "yea" once and nothing else suggests "yeah" for "yeaz". */
  lemma FrequencyRule(d: Node, g: string, r: Result<string, string>)
    requires g == "yeaz"
    requires forall v :: FreqAt(d, v) == if v == "yeah" then 2 else if v == "yea" then 1 else 0
    ensures Suggestion(d, g, r) <==> r == Ok("yeah")
  {
    LowerOfValid(g);
    assert Delete(g, 3) == "yea";
    assert Substitute(g, 3, 7) == "yeah";
    var m := Matches(d, Edits1(g));
    assert m == {"yea", "yeah"};
    assert IsBest(d, m, "yeah");
    if Suggestion(d, g, r) {
      BestUnique(d, m, r.value, "yeah");
    }
  }

  /** "ye" is one insertion from "yea" and from "yes", both stored once; the alphabetically first wins. */
  lemma TieGoesToSmaller(tokens: seq<string>, r: Result<string, string>)
    requires tokens == ["yes", "yea"]
    ensures Loadable(tokens)
    ensures Suggestion(Build(EmptyRoot(), tokens), "ye", r) <==> r == Ok("yea")
  {
    TokensFreq(tokens, "");
    var d := Build(EmptyRoot(), tokens);
    assert multiset(tokens) == multiset{"yes", "yea"};
    forall v ensures FreqAt(d, v) == if v == "yes" || v == "yea" then 1 else 0 {
      TokensFreq(tokens, v);
    }
    TieRule(d, "ye", r);
  }

  /** Both stored words are one insertion away from "ye", and nothing else stored is. */
  lemma TieMatches(d: Node, g: string)
    requires g == "ye"
    requires forall v :: FreqAt(d, v) == if v == "yes" || v == "yea" then 1 else 0
    ensures Matches(d, Edits1(g)) == {"yea", "yes"}
  {
    assert InsertAt(g, 2, Letter(0)) == "yea";
    assert InsertAt(g, 2, Letter(18)) == "yes";
  }

  /** Any tree storing "yes" and "yea" once each and nothing else suggests "yea" for "ye". */
  lemma TieRule(d: Node, g: string, r: Result<string, string>)
    requires g == "ye"
    requires forall v :: FreqAt(d, v) == if v == "yes" || v == "yea" then 1 else 0
    ensures Suggestion(d, g, r) <==> r == Ok("yea")
  {
    LowerOfValid(g);
    var m := Matches(d, Edits1(g));
    TieMatches(d, g);
    LexBranch(g, 'a', "", 's', "");
    assert g + ['a'] + "" == "yea" && g + ['s'] + "" == "yes";
    assert IsBest(d, m, "yea");
    if Suggestion(d, g, r) {
      BestUnique(d, m, r.value, "yea");
    }
  }
}
