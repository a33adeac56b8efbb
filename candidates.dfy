/**
 * The candidate generators of src/spell_corrector.rs. Each generator adds
 * to the set it is given (`&mut HashSet`) every single-edit variant of a
 * word; the sets below state which variants those are, and the methods
 * are the source's nested loops, proved to add exactly them.
 */
module Candidates {
  import opened Letters

  /** `for c in 'a'..'z'` in `alternate_char` stops before z: 25 letters; `insert_char` uses `'a'..='z'`, all 26. */
  const SubstitutionLetters: nat := 25

  /** The word with position i removed (`drain(i..i+1)`). */
  function Delete(w: string, i: nat): string
    requires i < |w|
  {
    w[..i] + w[i + 1..]
  }

  /** The word with the characters at positions i and j exchanged. */
  function Swap(w: string, i: nat, j: nat): string
    requires i < |w| && j < |w|
  {
    w[i := w[j]][j := w[i]]
  }

  /** The word with c inserted before position i (`insert(i, c)`). */
  function InsertAt(w: string, i: nat, c: char): string
    requires i <= |w|
  {
    w[..i] + [c] + w[i..]
  }

  /** The word with position i replaced by the letter of slot k. */
  function Substitute(w: string, i: nat, k: nat): string
    requires i < |w| && k < Alphabet
  {
    w[i := Letter(k)]
  }

  function Deletions(w: string): set<string> {
    set i | 0 <= i < |w| :: Delete(w, i)
  }

  /** Every exchange of two positions holding different characters, adjacent or not. */
  function Transpositions(w: string): set<string> {
    set i, j | 0 <= i < |w| && 0 <= j < |w| && w[i] != w[j] :: Swap(w, i, j)
  }

  /** Every position replaced by every letter a..y (z is never substituted). */
  function Substitutions(w: string): set<string> {
    set i, k | 0 <= i < |w| && 0 <= k < SubstitutionLetters :: Substitute(w, i, k)
  }

  /** Every letter a..z inserted in every one of the |w| + 1 gaps. */
  function Insertions(w: string): set<string> {
    set i, k | 0 <= i <= |w| && 0 <= k < Alphabet :: InsertAt(w, i, Letter(k))
  }

  /** The edit-distance-1 pool of `gen_edit_dist1`. */
  function Edits1(w: string): set<string> {
    Deletions(w) + Transpositions(w) + Substitutions(w) + Insertions(w)
  }

  /** The edit-distance-2 pool of `gen_edit_dist2`: the single edits of every member of a pool. */
  function Edits2(pool: set<string>): set<string> {
    set s, x | s in pool && x in Edits1(s) :: x
  }

  // ---------------------------------------------------------------------
  // The generators

  /** `delete_char`. */
  method DeleteChar(words: set<string>, word: string) returns (r: set<string>)
    ensures r == words + Deletions(word)
  {
    r := words;
    for i := 0 to |word|
      invariant r == words + set p | 0 <= p < i :: Delete(word, p)
    {
      var newWord := word[..i] + word[i + 1..];
      r := r + {newWord};
      assert newWord == Delete(word, i);
      assert (set p | 0 <= p < i + 1 :: Delete(word, p)) == (set p | 0 <= p < i :: Delete(word, p)) + {newWord};
    }
  }

  /** The pairs `transpose_char` has visited before row i: the first position below i, the second from 1 on. */
  ghost function TransposedBefore(w: string, i: nat): set<string> {
    set p, q | 0 <= p < i && p < |w| && 1 <= q < |w| && w[p] != w[q] :: Swap(w, p, q)
  }

  /**
   * `transpose_char`: for i in 0..n and j in 1..n, skip equal characters,
   * otherwise put w[j] at i and w[i] at j. The second position never
   * starts at 0, yet every pair is reached since an exchange is symmetric.
   */
  method TransposeChar(words: set<string>, word: string) returns (r: set<string>)
    ensures r == words + Transpositions(word)
  {
    r := words;
    var n := |word|;
    for i := 0 to n
      invariant r == words + TransposedBefore(word, i)
    {
      var char1 := word[i];
      for j := 1 to n
        invariant r == words + TransposedBefore(word, i) + set q | 1 <= q < j && word[q] != char1 :: Swap(word, i, q)
      {
        var char2 := word[j];
        if char1 == char2 {
          continue;
        }
        var newWord := word[i := char2][j := char1];
        r := r + {newWord};
      }
      assert TransposedBefore(word, i + 1)
          == TransposedBefore(word, i) + set q | 1 <= q < n && word[q] != char1 :: Swap(word, i, q);
    }
    TransposedAll(word);
  }

  lemma SwapSymmetric(w: string, i: nat, j: nat)
    requires i < |w| && j < |w|
    ensures Swap(w, i, j) == Swap(w, j, i)
  {
  }

  /** The loop's pairs give every transposition. */
  lemma TransposedAll(w: string)
    ensures TransposedBefore(w, |w|) == Transpositions(w)
  {
    forall x | x in Transpositions(w) ensures x in TransposedBefore(w, |w|) {
      var i, j :| 0 <= i < |w| && 0 <= j < |w| && w[i] != w[j] && x == Swap(w, i, j);
      if j == 0 {
        SwapSymmetric(w, i, j);
        assert x == Swap(w, j, i);
      }
    }
  }

  /** `alternate_char`. */
  method AlternateChar(words: set<string>, word: string) returns (r: set<string>)
    ensures r == words + Substitutions(word)
  {
    r := words;
    for i := 0 to |word|
      invariant r == words + set p, k | 0 <= p < i && 0 <= k < SubstitutionLetters :: Substitute(word, p, k)
    {
      for c := 0 to SubstitutionLetters
        invariant r == words + (set p, k | 0 <= p < i && 0 <= k < SubstitutionLetters :: Substitute(word, p, k))
                             + (set k | 0 <= k < c :: Substitute(word, i, k))
      {
        var newWord := word[i := Letter(c)];
        r := r + {newWord};
        assert newWord == Substitute(word, i, c);
        assert (set k | 0 <= k < c + 1 :: Substitute(word, i, k)) == (set k | 0 <= k < c :: Substitute(word, i, k)) + {newWord};
      }
      assert (set p, k | 0 <= p < i + 1 && 0 <= k < SubstitutionLetters :: Substitute(word, p, k))
          == (set p, k | 0 <= p < i && 0 <= k < SubstitutionLetters :: Substitute(word, p, k))
           + (set k | 0 <= k < SubstitutionLetters :: Substitute(word, i, k));
    }
  }

  /** `insert_char`. */
  method InsertChar(words: set<string>, word: string) returns (r: set<string>)
    ensures r == words + Insertions(word)
  {
    r := words;
    for i := 0 to |word| + 1
      invariant r == words + set p, k | 0 <= p < i && 0 <= k < Alphabet :: InsertAt(word, p, Letter(k))
    {
      for c := 0 to Alphabet
        invariant r == words + (set p, k | 0 <= p < i && 0 <= k < Alphabet :: InsertAt(word, p, Letter(k)))
                             + (set k | 0 <= k < c :: InsertAt(word, i, Letter(k)))
      {
        var newWord := word[..i] + [Letter(c)] + word[i..];
        r := r + {newWord};
        assert (set k | 0 <= k < c + 1 :: InsertAt(word, i, Letter(k))) == (set k | 0 <= k < c :: InsertAt(word, i, Letter(k))) + {newWord};
      }
      assert (set p, k | 0 <= p < i + 1 && 0 <= k < Alphabet :: InsertAt(word, p, Letter(k)))
          == (set p, k | 0 <= p < i && 0 <= k < Alphabet :: InsertAt(word, p, Letter(k)))
           + (set k | 0 <= k < Alphabet :: InsertAt(word, i, Letter(k)));
    }
  }

  /** `gen_edit_dist1`: the four generators on the word, added to the given set. */
  method GenEditDist1(editDist1: set<string>, word: string) returns (r: set<string>)
    ensures r == editDist1 + Edits1(word)
  {
    r := DeleteChar(editDist1, word);
    r := TransposeChar(r, word);
    r := AlternateChar(r, word);
    r := InsertChar(r, word);
  }

  /** `gen_edit_dist2`: the four generators on every member of the pool, in whatever order the set yields them. */
  method GenEditDist2(editDist2: set<string>, words: set<string>) returns (r: set<string>)
    ensures r == editDist2 + Edits2(words)
  {
    r := editDist2;
    var rest := words;
    while rest != {}
      invariant rest <= words
      invariant r == editDist2 + Edits2(words - rest)
      decreases |rest|
    {
      var word :| word in rest;
      ghost var before := r;
      r := DeleteChar(r, word);
      r := TransposeChar(r, word);
      r := AlternateChar(r, word);
      r := InsertChar(r, word);
      assert r == before + Edits1(word);
      Edits2Step(editDist2, words, rest, word);
      rest := rest - {word};
    }
  }

  lemma Edits2Step(acc: set<string>, words: set<string>, rest: set<string>, w: string)
    requires w in rest && rest <= words
    ensures acc + Edits2(words - rest) + Edits1(w) == acc + Edits2(words - (rest - {w}))
  {
    Edits2Add(words - rest, w);
    assert (words - rest) + {w} == words - (rest - {w});
  }

  lemma Edits2Add(pool: set<string>, w: string)
    ensures Edits2(pool + {w}) == Edits2(pool) + Edits1(w)
  {
    forall x | x in Edits1(w) ensures x in Edits2(pool + {w}) {
      assert w in pool + {w};
    }
  }

  // ---------------------------------------------------------------------
  // Shapes of the variants

  /** A deletion is one shorter and introduces no letter. */
  lemma DeletionShape(w: string, x: string)
    requires x in Deletions(w)
    ensures |x| == |w| - 1
    ensures forall c :: c in x ==> c in w
  {
    var i :| 0 <= i < |w| && x == Delete(w, i);
    forall c | c in x ensures c in w {
      var p :| 0 <= p < |x| && x[p] == c;
      if p < i {
        assert x[p] == w[p];
      } else {
        assert x[p] == w[p + 1];
      }
    }
  }

  /** A transposition keeps the length and the multiset of characters, and always differs from the word. */
  lemma TranspositionShape(w: string, x: string)
    requires x in Transpositions(w)
    ensures |x| == |w| && multiset(x) == multiset(w) && x != w
  {
    var i, j :| 0 <= i < |w| && 0 <= j < |w| && w[i] != w[j] && x == Swap(w, i, j);
    var y := w[i := w[j]];
    assert x[i] == w[j];
    assert y[j] == w[j];
    calc {
      multiset(x);
      multiset(y[j := w[i]]);
      multiset(y) - multiset{w[j]} + multiset{w[i]};
      multiset(w) - multiset{w[i]} + multiset{w[j]} - multiset{w[j]} + multiset{w[i]};
      multiset(w);
    }
  }

  /** A substitution keeps the length, changes at most one position, and never writes a z. */
  lemma SubstitutionShape(w: string, x: string)
    requires x in Substitutions(w)
    ensures |x| == |w|
    ensures forall i, j :: 0 <= i < j < |w| && x[i] != w[i] ==> x[j] == w[j]
    ensures forall i :: 0 <= i < |w| && x[i] == 'z' ==> w[i] == 'z'
  {
    var p, k :| 0 <= p < |w| && 0 <= k < SubstitutionLetters && x == Substitute(w, p, k);
    assert Index('z') == 25;
  }

  /** An insertion is one longer. */
  lemma InsertionShape(w: string, x: string)
    requires x in Insertions(w)
    ensures |x| == |w| + 1
  {
  }

  /** Deleting the inserted letter gives the word back. */
  lemma InsertionUndoneByDeletion(w: string, x: string)
    requires x in Insertions(w)
    ensures w in Deletions(x)
  {
    var i, k :| 0 <= i <= |w| && 0 <= k < Alphabet && x == InsertAt(w, i, Letter(k));
    assert Delete(x, i) == w;
  }

  /** Re-inserting a deleted letter gives the word back. */
  lemma DeletionUndoneByInsertion(w: string, x: string)
    requires ValidWord(w) && x in Deletions(w)
    ensures w in Insertions(x)
  {
    var i :| 0 <= i < |w| && x == Delete(w, i);
    LetterOfIndex(w[i]);
    assert InsertAt(x, i, Letter(Index(w[i]))) == w;
  }

  /** Exchanging the same two positions again gives the word back. */
  lemma TranspositionInvolution(w: string, x: string)
    requires x in Transpositions(w)
    ensures w in Transpositions(x)
  {
    var i, j :| 0 <= i < |w| && 0 <= j < |w| && w[i] != w[j] && x == Swap(w, i, j);
    assert Swap(x, i, j) == w;
  }

  /** Single edits of a lowercase word are lowercase words. */
  lemma Edits1Valid(w: string)
    requires ValidWord(w)
    ensures forall x :: x in Edits1(w) ==> ValidWord(x)
  {
    forall x | x in Edits1(w) ensures ValidWord(x) {
      if x in Deletions(w) {
        DeletionShape(w, x);
        assert forall p :: 0 <= p < |x| ==> x[p] in w;
      } else if x in Transpositions(w) {
        var i, j :| 0 <= i < |w| && 0 <= j < |w| && w[i] != w[j] && x == Swap(w, i, j);
        assert forall p :: 0 <= p < |x| ==> x[p] == w[i] || x[p] == w[j] || x[p] == w[p];
      } else if x in Substitutions(w) {
        var i, k :| 0 <= i < |w| && 0 <= k < SubstitutionLetters && x == Substitute(w, i, k);
        assert forall p :: 0 <= p < |x| ==> x[p] == Letter(k) || x[p] == w[p];
      } else {
        var i, k :| 0 <= i <= |w| && 0 <= k < Alphabet && x == InsertAt(w, i, Letter(k));
        forall p | 0 <= p < |x| ensures IsLetter(x[p]) {
          if p < i {
            assert x[p] == w[p];
          } else if p > i {
            assert x[p] == w[p - 1];
          }
        }
      }
    }
  }

  lemma Edits2Valid(pool: set<string>)
    requires forall s :: s in pool ==> ValidWord(s)
    ensures forall x :: x in Edits2(pool) ==> ValidWord(x)
  {
    forall x | x in Edits2(pool) ensures ValidWord(x) {
      var s :| s in pool && x in Edits1(s);
      Edits1Valid(s);
    }
  }

  /** A single edit changes the length by at most one. */
  lemma Edits1Length(w: string, x: string)
    requires x in Edits1(w)
    ensures |w| - 1 <= |x| <= |w| + 1
  {
    if x in Deletions(w) {
      DeletionShape(w, x);
    } else if x in Transpositions(w) {
      TranspositionShape(w, x);
    }
  }

  /** Two edits change the length by at most two. */
  lemma Edits2Length(w: string, x: string)
    requires x in Edits2(Edits1(w))
    ensures |w| - 2 <= |x| <= |w| + 2
  {
    var s :| s in Edits1(w) && x in Edits1(s);
    Edits1Length(w, s);
    Edits1Length(s, x);
  }

  /** A single edit brings in at most one letter the word did not contain. */
  lemma Edits1NewLetters(w: string, x: string)
    requires x in Edits1(w)
    ensures forall a, b :: a in x && a !in w && b in x && b !in w ==> a == b
  {
    var c: char;
    if x in Deletions(w) {
      DeletionShape(w, x);
    } else if x in Transpositions(w) {
      TranspositionLetters(w, x);
    } else if x in Substitutions(w) {
      c := SubstitutionNewLetter(w, x);
    } else {
      c := InsertionNewLetter(w, x);
    }
  }

  /** A transposition contains exactly the letters of the word. */
  lemma TranspositionLetters(w: string, x: string)
    requires x in Transpositions(w)
    ensures forall a :: a in x <==> a in w
  {
    TranspositionShape(w, x);
    assert forall a :: a in x <==> a in multiset(x);
    assert forall a :: a in w <==> a in multiset(w);
  }

  /** A substitution contains at most one letter the word lacks: the letter written. */
  lemma SubstitutionNewLetter(w: string, x: string) returns (c: char)
    requires x in Substitutions(w)
    ensures forall a :: a in x && a != c ==> a in w
  {
    var i, k :| 0 <= i < |w| && 0 <= k < SubstitutionLetters && x == Substitute(w, i, k);
    c := Letter(k);
    forall a | a in x && a != c ensures a in w {
      var p :| 0 <= p < |x| && x[p] == a;
      assert x[p] == w[p];
    }
  }

  /** An insertion contains at most one letter the word lacks: the letter inserted. */
  lemma InsertionNewLetter(w: string, x: string) returns (c: char)
    requires x in Insertions(w)
    ensures forall a :: a in x && a != c ==> a in w
  {
    var i, k :| 0 <= i <= |w| && 0 <= k < Alphabet && x == InsertAt(w, i, Letter(k));
    c := Letter(k);
    forall a | a in x && a != c ensures a in w {
      var p :| 0 <= p < |x| && x[p] == a;
      if p < i {
        assert x[p] == w[p];
      } else {
        assert x[p] == w[p - 1];
      }
    }
  }

  /** Two edits bring in at most two new letters: no three distinct letters absent from the word. */
  lemma Edits2NewLetters(w: string, x: string, a: char, b: char, c: char)
    requires x in Edits2(Edits1(w))
    requires a in x && b in x && c in x && a !in w && b !in w && c !in w
    ensures a == b || b == c || a == c
  {
    var s :| s in Edits1(w) && x in Edits1(s);
    Edits1NewLetters(w, s);
    Edits1NewLetters(s, x);
  }

  /** A word whose length differs too much is out of reach: by more than one for one edit, more than two for two. */
  lemma LengthApart(w: string, x: string)
    ensures |x| > |w| + 1 || |x| + 1 < |w| ==> x !in Edits1(w)
    ensures |x| > |w| + 2 || |x| + 2 < |w| ==> x !in Edits2(Edits1(w))
  {
    if x in Edits1(w) {
      Edits1Length(w, x);
    }
    if x in Edits2(Edits1(w)) {
      Edits2Length(w, x);
    }
  }

  /** A word with two distinct letters the input lacks is not one edit away; with three, not two edits away. */
  lemma LettersApart(w: string, x: string, a: char, b: char, c: char)
    requires a in x && b in x && a !in w && b !in w && a != b
    ensures x !in Edits1(w)
    ensures c in x && c !in w && c != a && c != b ==> x !in Edits2(Edits1(w))
  {
    if x in Edits1(w) {
      Edits1NewLetters(w, x);
    }
    if x in Edits2(Edits1(w)) && c in x && c !in w && c != a && c != b {
      Edits2NewLetters(w, x, a, b, c);
    }
  }
}
