/**
 * `SpellCorrector` of src/spell_corrector.rs: loading a dictionary into the
 * trie, and `suggest_similar_word`, which tries the exact word, then the
 * best dictionary word among its single edits, then the best among the
 * single edits of those.
 */
module Corrector {
  import opened Wrappers
  import opened Letters
  import opened TrieNode
  import opened Candidates
  import opened Dictionary

  // ---------------------------------------------------------------------
  // Loading

  /** Tokens the trie can store once lowercased (any other character panics in `add`). */
  predicate Loadable(tokens: seq<string>) {
    forall i :: 0 <= i < |tokens| ==> ValidWord(Lower(tokens[i]))
  }

  /** The tokens lowercased, as `use_dictionary` passes them to `add`. */
  function Lowered(tokens: seq<string>): (r: seq<string>)
    ensures |r| == |tokens| && forall i :: 0 <= i < |tokens| ==> r[i] == Lower(tokens[i])
  {
    seq(|tokens|, i requires 0 <= i < |tokens| => Lower(tokens[i]))
  }

  /** Lowering keeps the tokens in order: the lowered concatenation is the concatenation of the lowered parts. */
  lemma LoweredConcat(a: seq<string>, b: seq<string>)
    ensures Lowered(a + b) == Lowered(a) + Lowered(b)
  {
    assert forall i :: 0 <= i < |a + b| ==> (a + b)[i] == if i < |a| then a[i] else b[i - |a|];
  }

  /** Lowering the lowered tokens again, as `add` does after `use_dictionary`, changes nothing. */
  lemma LoweredTwice(tokens: seq<string>)
    ensures Lowered(Lowered(tokens)) == Lowered(tokens)
  {
    forall i | 0 <= i < |tokens|
      ensures Lower(Lowered(tokens)[i]) == Lowered(tokens)[i]
    {
      LowerIdempotent(tokens[i]);
    }
  }

  /** The tree after adding the lowercased tokens one after the other. */
  function Build(n: Node, tokens: seq<string>): (d: Node)
    requires WellFormed(n) && Loadable(tokens)
    ensures WellFormed(d) && d.data == n.data && d.freq == n.freq
  {
    if tokens == [] then n
    else Insert(Build(n, tokens[..|tokens| - 1]), Lower(tokens[|tokens| - 1])).node
  }

  /** Loading one more token is one more `add`. */
  lemma BuildStep(tokens: seq<string>, i: nat)
    requires Loadable(tokens) && i < |tokens|
    ensures Loadable(tokens[..i]) && Loadable(tokens[..i + 1])
    ensures Build(EmptyRoot(), tokens[..i + 1]) == Insert(Build(EmptyRoot(), tokens[..i]), Lower(tokens[i])).node
  {
    EmptyRootFacts("");
    assert tokens[..i + 1][..i] == tokens[..i];
  }

  /** Every non-empty word's frequency grows by its number of occurrences among the lowercased tokens. */
  lemma {:induction false} BuildFreq(n: Node, tokens: seq<string>, v: string)
    requires WellFormed(n) && Loadable(tokens)
    ensures FreqAt(Build(n, tokens), v) == FreqAt(n, v) + (if v == [] then 0 else multiset(Lowered(tokens))[v])
    decreases |tokens|
  {
    if tokens != [] {
      var init, last := tokens[..|tokens| - 1], tokens[|tokens| - 1];
      BuildFreq(n, init, v);
      assert Lowered(tokens) == Lowered(init) + [Lower(last)];
      if Lower(last) != [] {
        PutFreq(Build(n, init), Lower(last), v);
      }
    }
  }

  /** The empty word never acquires a frequency: the root's stays 0. */
  lemma BuildKeepsRoot(tokens: seq<string>)
    requires Loadable(tokens)
    ensures FreqAt(Build(EmptyRoot(), tokens), "") == 0
  {
    EmptyRootFacts("");
  }

  // ---------------------------------------------------------------------
  // Choosing among the matches

  /** The members of a pool that `find` reports: frequency at least 1. */
  function Matches(d: Node, pool: set<string>): set<string> {
    set w | w in pool && FreqAt(d, w) >= 1
  }

  /** w beats v: a higher frequency, or the same frequency and lexicographically smaller. */
  predicate Outranks(d: Node, w: string, v: string) {
    FreqAt(d, v) < FreqAt(d, w) || (FreqAt(d, v) == FreqAt(d, w) && LexLess(w, v))
  }

  /** w belongs to the set and beats every other member. */
  predicate IsBest(d: Node, m: set<string>, w: string) {
    w in m && forall v :: v in m && v != w ==> Outranks(d, w, v)
  }

  lemma OutranksIrreflexive(d: Node, w: string)
    ensures !Outranks(d, w, w)
  {
    LexIrreflexive(w);
  }

  lemma OutranksTransitive(d: Node, a: string, b: string, c: string)
    requires Outranks(d, a, b) && Outranks(d, b, c)
    ensures Outranks(d, a, c)
  {
    if FreqAt(d, a) == FreqAt(d, b) == FreqAt(d, c) {
      LexTransitive(a, b, c);
    }
  }

  /** Of two different words exactly one beats the other. */
  lemma OutranksTotal(d: Node, a: string, b: string)
    requires a != b
    ensures Outranks(d, a, b) != Outranks(d, b, a)
  {
    LexTotal(a, b);
    if LexLess(a, b) {
      LexAsymmetric(a, b);
    } else {
      LexAsymmetric(b, a);
    }
  }

  /** The best word has the highest frequency, and among words of that frequency it is the smallest. */
  lemma BestIsMaximal(d: Node, m: set<string>, w: string, v: string)
    requires IsBest(d, m, w) && v in m
    ensures FreqAt(d, v) <= FreqAt(d, w)
    ensures FreqAt(d, v) == FreqAt(d, w) ==> v == w || LexLess(w, v)
  {
  }

  /** At most one member is best, so the choice does not depend on the order the set is scanned. */
  lemma BestUnique(d: Node, m: set<string>, a: string, b: string)
    requires IsBest(d, m, a) && IsBest(d, m, b)
    ensures a == b
  {
    if a != b {
      OutranksTotal(d, a, b);
    }
  }

  /** Every non-empty set has a best member. */
  lemma {:induction false} BestExists(d: Node, m: set<string>) returns (w: string)
    requires m != {}
    ensures IsBest(d, m, w)
    decreases |m|
  {
    var x :| x in m;
    if m == {x} {
      return x;
    }
    var b := BestExists(d, m - {x});
    assert m == (m - {x}) + {x};
    w := Challenge(d, m - {x}, b, x);
  }

  /** The running best after one more candidate x: x if it beats the best so far, else the best so far. */
  lemma Challenge(d: Node, m: set<string>, a: string, x: string) returns (w: string)
    requires IsBest(d, m, a)
    ensures IsBest(d, m + {x}, w)
    ensures w == (if Outranks(d, x, a) then x else a)
  {
    if Outranks(d, x, a) {
      forall v | v in m + {x} && v != x ensures Outranks(d, x, v) {
        if v != a {
          OutranksTransitive(d, x, a, v);
        }
      }
      w := x;
    } else {
      if x != a {
        OutranksTotal(d, x, a);
      }
      w := a;
    }
  }

  /** Rust's `>` on `Option<String>`: None is below every Some, and Some values compare as strings. */
  predicate OptionGreater(a: Option<string>, b: Option<string>) {
    match (a, b)
    case (Some(x), Some(y)) => LexLess(y, x)
    case (Some(_), None) => true
    case (None, _) => false
  }

  /** The `(Option<String>, u32)` running pair: nothing yet with frequency 0, or a found word with its frequency. */
  predicate Running(d: Node, output: (Option<string>, nat)) {
    match output.0
    case None => output.1 == 0
    case Some(w) => output.1 == FreqAt(d, w) && output.1 >= 1
  }

  /** The words a scan of `matches` from the running pair `start` chooses among. */
  function Contenders(d: Node, start: (Option<string>, nat), matches: seq<string>): set<string> {
    (set w | w in matches && FreqAt(d, w) >= 1) + (if start.0.Some? then {start.0.value} else {})
  }

  // ---------------------------------------------------------------------
  // What `suggest_similar_word` returns

  /** The error text, carrying the input as given (not lowercased). */
  function NotFound(input: string): (msg: string)
    ensures |msg| == |"Unable to find word \""| + |input| + 1
    ensures msg[..|"Unable to find word \""|] == "Unable to find word \""
    ensures msg[|"Unable to find word \""|..|msg| - 1] == input
    ensures msg[|msg| - 1] == '"'
  {
    "Unable to find word \"" + input + "\""
  }

  /** Different inputs give different error texts, so the error carries the input exactly as given. */
  lemma NotFoundInjective(a: string, b: string)
    requires NotFound(a) == NotFound(b)
    ensures a == b
  {
  }

  /**
   * The result the source promises for an input against the tree d: the
   * lowercased input if it is stored; else the best match at distance
   * one; else the best match at distance two; else the error message.
   */
  predicate Suggestion(d: Node, input: string, r: Result<string, string>) {
    var lw := Lower(input);
    if FreqAt(d, lw) >= 1 then r == Ok(lw)
    else if Matches(d, Edits1(lw)) != {} then r.Ok? && IsBest(d, Matches(d, Edits1(lw)), r.value)
    else if Matches(d, Edits2(Edits1(lw))) != {} then r.Ok? && IsBest(d, Matches(d, Edits2(Edits1(lw))), r.value)
    else r == Err(NotFound(input))
  }

  /** One input has one suggestion: however the candidate sets are iterated, the result is the same. */
  lemma SuggestionDeterministic(d: Node, input: string, r1: Result<string, string>, r2: Result<string, string>)
    requires Suggestion(d, input, r1) && Suggestion(d, input, r2)
    ensures r1 == r2
  {
    var lw := Lower(input);
    if FreqAt(d, lw) == 0 {
      if Matches(d, Edits1(lw)) != {} {
        BestUnique(d, Matches(d, Edits1(lw)), r1.value, r2.value);
      } else if Matches(d, Edits2(Edits1(lw))) != {} {
        BestUnique(d, Matches(d, Edits2(Edits1(lw))), r1.value, r2.value);
      }
    }
  }

  /** Every input has a suggestion. */
  lemma SuggestionExists(d: Node, input: string) returns (r: Result<string, string>)
    ensures Suggestion(d, input, r)
  {
    var lw := Lower(input);
    if FreqAt(d, lw) >= 1 {
      r := Ok(lw);
    } else if Matches(d, Edits1(lw)) != {} {
      var w := BestExists(d, Matches(d, Edits1(lw)));
      r := Ok(w);
    } else if Matches(d, Edits2(Edits1(lw))) != {} {
      var w := BestExists(d, Matches(d, Edits2(Edits1(lw))));
      r := Ok(w);
    } else {
      r := Err(NotFound(input));
    }
  }

  /**
   * An Ok result is a stored word within two edits of the lowercased input,
   * and a word at distance two is returned only when nothing at distance
   * one is stored.
   */
  lemma SuggestionFound(d: Node, input: string, r: Result<string, string>)
    requires Suggestion(d, input, r) && r.Ok?
    ensures FreqAt(d, r.value) >= 1
    ensures r.value == Lower(input) || r.value in Edits1(Lower(input)) || r.value in Edits2(Edits1(Lower(input)))
    ensures r.value != Lower(input) && r.value !in Edits1(Lower(input)) ==> Matches(d, Edits1(Lower(input))) == {}
  {
    var lw := Lower(input);
    if FreqAt(d, lw) == 0 && Matches(d, Edits1(lw)) != {} {
      assert r.value in Matches(d, Edits1(lw));
    }
  }

  /** The result is an error exactly when no word within two edits is stored. */
  lemma SuggestionFails(d: Node, input: string, r: Result<string, string>)
    requires Suggestion(d, input, r)
    ensures r.Err? <==> FreqAt(d, Lower(input)) == 0 && Matches(d, Edits1(Lower(input))) == {}
                        && Matches(d, Edits2(Edits1(Lower(input)))) == {}
    ensures r.Err? ==> r.error == NotFound(input)
  {
  }

  // ---------------------------------------------------------------------
  // The corrector object

  class SpellCorrector {
    var dictionary: Trie

    ghost predicate Valid()
      reads this, dictionary
    {
      dictionary.Valid()
    }

    /** `SpellCorrector::new`: an empty dictionary. */
    constructor ()
      ensures Valid() && fresh(dictionary) && dictionary.root == EmptyRoot()
    {
      dictionary := new Trie();
    }

    /** `use_dictionary` on the tokens of the file: a fresh trie, then `add` of each lowercased token in order. */
    method UseDictionary(tokens: seq<string>)
      requires Loadable(tokens)
      modifies this
      ensures Valid() && fresh(dictionary)
      ensures dictionary.root == Build(EmptyRoot(), tokens)
    {
      dictionary := new Trie();
      for i := 0 to |tokens|
        invariant fresh(dictionary) && dictionary.Valid()
        invariant dictionary.root == Build(EmptyRoot(), tokens[..i])
      {
        BuildStep(tokens, i);
        var lowerWord := Lower(tokens[i]);
        LowerIdempotent(tokens[i]);
        dictionary.Add(lowerWord);
      }
      assert tokens[..|tokens|] == tokens;
    }

    /** The loop that fills `matches`: every member of the pool `find` reports, in the set's iteration order. */
    method FilterMatches(pool: set<string>) returns (matches: seq<string>)
      requires Valid() && forall w :: w in pool ==> ValidWord(w)
      ensures forall i :: 0 <= i < |matches| ==> ValidWord(matches[i])
      ensures forall w :: w in matches <==> w in Matches(dictionary.root, pool)
    {
      matches := [];
      var rest := pool;
      while rest != {}
        invariant rest <= pool
        invariant forall i :: 0 <= i < |matches| ==> ValidWord(matches[i])
        invariant forall w :: w in matches <==> w in pool - rest && FreqAt(dictionary.root, w) >= 1
        decreases |rest|
      {
        var word :| word in rest;
        LowerOfValid(word);
        var found := dictionary.Find(word);
        if found.Some? {
          matches := matches + [word];
        }
        rest := rest - {word};
      }
    }

    /**
     * The running-best loop: look each match up again, skip it if absent,
     * take it on a higher frequency, or on an equal one when the pair held
     * so far is greater (`output.0 > pair.0`).
     */
    method SelectBest(matches: seq<string>, start: (Option<string>, nat)) returns (output: (Option<string>, nat))
      requires Valid() && forall i :: 0 <= i < |matches| ==> ValidWord(matches[i])
      requires Running(dictionary.root, start)
      ensures Running(dictionary.root, output)
      ensures output.0.None? <==> Contenders(dictionary.root, start, matches) == {}
      ensures output.0.Some? ==> IsBest(dictionary.root, Contenders(dictionary.root, start, matches), output.0.value)
    {
      var d := dictionary.root;
      output := start;
      for i := 0 to |matches|
        invariant Running(d, output)
        invariant output.0.None? <==> Contenders(d, start, matches[..i]) == {}
        invariant output.0.Some? ==> IsBest(d, Contenders(d, start, matches[..i]), output.0.value)
      {
        var matchedWord := matches[i];
        assert Contenders(d, start, matches[..i + 1])
            == Contenders(d, start, matches[..i]) + (if FreqAt(d, matchedWord) >= 1 then {matchedWord} else {});
        LowerOfValid(matchedWord);
        var found := dictionary.Find(matchedWord);
        if found.None? {
          continue;
        }
        var pair := (Some(matchedWord), found.value.freq);
        if output.0.Some? {
          var _ := Challenge(d, Contenders(d, start, matches[..i]), output.0.value, matchedWord);
        }
        if output.1 < pair.1 {
          output := pair;
        } else if output.1 == pair.1 {
          if OptionGreater(output.0, pair.0) {
            output := pair;
          }
        }
      }
      assert matches[..|matches|] == matches;
    }

    /**
     * `suggest_similar_word`. The second scan continues from the running
     * pair the first one left, which is still (None, 0) when it is reached.
     */
    method Suggest(input: string) returns (r: Result<string, string>)
      requires Valid() && ValidWord(Lower(input))
      ensures Suggestion(dictionary.root, input, r)
    {
      var d := dictionary.root;
      var lowerWord := Lower(input);
      LowerIdempotent(input);
      var exact := dictionary.Find(lowerWord);
      if exact.Some? {
        return Ok(lowerWord);
      }

      var editDist1 := GenEditDist1({}, lowerWord);
      Edits1Valid(lowerWord);
      var matches := FilterMatches(editDist1);
      var output := SelectBest(matches, (None, 0));
      assert Contenders(d, (None, 0), matches) == Matches(d, editDist1);
      if output.0.Some? {
        return Ok(output.0.value);
      }

      var editDist2 := GenEditDist2({}, editDist1);
      Edits2Valid(editDist1);
      var matches2 := FilterMatches(editDist2);
      output := SelectBest(matches2, output);
      assert Contenders(d, (None, 0), matches2) == Matches(d, editDist2);
      if output.0.Some? {
        return Ok(output.0.value);
      }
      return Err("Unable to find word \"" + input + "\"");
    }
  }
}
