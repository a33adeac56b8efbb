/**
 * Characters and strings as the trie and the candidate generator see them:
 * the 26 lowercase ASCII letters, the ASCII part of `to_lowercase`, and the
 * byte-wise ordering Rust's `String` comparison uses.
 */
module Letters {

  /** The number of child slots of a trie node, one per letter a..z. */
  const Alphabet: nat := 26

  predicate IsLetter(c: char) {
    'a' <= c <= 'z'
  }

  /** A word every character of which the trie can index. */
  predicate ValidWord(w: string) {
    forall i :: 0 <= i < |w| ==> IsLetter(w[i])
  }

  /** Slot of a letter: `letter.to_digit(36).unwrap() - 10`. */
  function Index(c: char): (k: nat)
    requires IsLetter(c)
    ensures k < Alphabet
  {
    c as int - 'a' as int
  }

  /** The letter of slot `k`. */
  function Letter(k: nat): (c: char)
    requires k < Alphabet
    ensures IsLetter(c)
    ensures Index(c) == k
  {
    ('a' as int + k) as char
  }

  lemma LetterOfIndex(c: char)
    requires IsLetter(c)
    ensures Letter(Index(c)) == c
  {
  }

  /** `to_lowercase` restricted to ASCII: A..Z become a..z, all else is kept. */
  function LowerChar(c: char): char {
    if 'A' <= c <= 'Z' then (c as int + 32) as char else c
  }

  function Lower(s: string): (r: string)
    ensures |r| == |s|
    ensures forall i :: 0 <= i < |s| ==> r[i] == LowerChar(s[i])
  {
    if s == [] then [] else [LowerChar(s[0])] + Lower(s[1..])
  }

  /** Lowercasing a lowercase word changes nothing, so it is idempotent on valid words. */
  lemma LowerOfValid(w: string)
    requires ValidWord(w)
    ensures Lower(w) == w
  {
  }

  lemma {:induction false} LowerIdempotent(s: string)
    ensures Lower(Lower(s)) == Lower(s)
  {
    if s != [] {
      LowerIdempotent(s[1..]);
    }
  }

  /**
   * Strict lexicographic order, as `<` on `String`: a proper prefix is smaller,
   * otherwise the first differing character decides.
   */
  predicate LexLess(a: string, b: string) {
    |b| > 0 && (|a| == 0 || a[0] < b[0] || (a[0] == b[0] && LexLess(a[1..], b[1..])))
  }

  lemma {:induction false} LexIrreflexive(a: string)
    ensures !LexLess(a, a)
  {
    if |a| > 0 {
      LexIrreflexive(a[1..]);
    }
  }

  lemma {:induction false} LexAsymmetric(a: string, b: string)
    requires LexLess(a, b)
    ensures !LexLess(b, a)
  {
    if |a| > 0 && a[0] == b[0] {
      LexAsymmetric(a[1..], b[1..]);
    }
  }

  lemma {:induction false} LexTransitive(a: string, b: string, c: string)
    requires LexLess(a, b) && LexLess(b, c)
    ensures LexLess(a, c)
  {
    if |a| > 0 && a[0] == b[0] && b[0] == c[0] {
      LexTransitive(a[1..], b[1..], c[1..]);
    }
  }

  lemma {:induction false} LexTotal(a: string, b: string)
    requires a != b
    ensures LexLess(a, b) || LexLess(b, a)
  {
    if |a| > 0 && |b| > 0 && a[0] == b[0] {
      LexTotal(a[1..], b[1..]);
    }
  }

  /** A word sorts before every proper extension of it. */
  lemma {:induction false} LexPrefix(p: string, s: string)
    requires s != []
    ensures LexLess(p, p + s)
  {
    if p != [] {
      assert (p + s)[1..] == p[1..] + s;
      LexPrefix(p[1..], s);
    }
  }

  /** Two words that share a prefix and then differ are ordered by that character. */
  lemma {:induction false} LexBranch(p: string, c: char, s: string, d: char, t: string)
    requires c < d
    ensures LexLess(p + [c] + s, p + [d] + t)
  {
    if p != [] {
      assert (p + [c] + s)[1..] == p[1..] + [c] + s;
      assert (p + [d] + t)[1..] == p[1..] + [d] + t;
      LexBranch(p[1..], c, s, d, t);
    }
  }
}
