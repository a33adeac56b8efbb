/**
 * The unit tests of src/spell_corrector/trie.rs, restated on the `Trie`
 * object: the counters after each `add`, what `find` reports for stored
 * words and their prefixes, and the listing `to_string` produces.
 */
module TrieExamples {
  import opened Wrappers
  import opened Letters
  import opened TrieNode
  import opened TrieWalks
  import opened Dictionary

  /** The node and word counts after one more add, from what the add finds on its way. */
  lemma CountStep(r: Node, w: string)
    requires WellFormed(r) && ValidWord(w) && w != []
    ensures Size(Insert(r, w).node) == Size(r) + Missing(r, w)
    ensures Terminals(Insert(r, w).node) == Terminals(r) + (if FreqAt(r, w) == 0 then 1 else 0)
  {
    PutCreated(r, w);
    PutSize(r, w);
    PutNewWord(r, w);
    PutTerminals(r, w);
  }

  /** The shape of the words the counting tests add: b extends a by one letter, c starts elsewhere, d is a proper prefix of a. */
  predicate CountingWords(a: string, b: string, c: string, d: string) {
    ValidWord(a) && ValidWord(b) && ValidWord(c) && ValidWord(d) &&
    |a| == 5 && |b| == 6 && b[..5] == a && |c| == 6 && c[0] != a[0] && |d| == 3 && a[..3] == d
  }

  /** Adding a to the empty root creates its whole path; b then needs one more node, its last. */
  lemma FirstTwoAdds(a: string, b: string, r0: Node, r1: Node)
    requires ValidWord(a) && ValidWord(b) && |a| == 5 && |b| == 6 && b[..5] == a
    requires r0 == EmptyRoot() && r1 == Insert(r0, a).node
    ensures Missing(r0, a) == 5 && FreqAt(r0, a) == 0
    ensures Missing(r1, b) == 1 && FreqAt(r1, b) == 0
  {
    EmptyRootFacts(a);
    NewNodeFacts('\0', a);
    NewNodeFacts('\0', b);
    PutFreshEnd(r0, a);
    PutFreq(r0, a, b);
    assert b == a + b[5..];
    LookupSplit(r1, a, b[5..]);
  }

  /** A word starting with a new letter finds nothing of its path. */
  lemma ThirdAdd(a: string, b: string, c: string, r0: Node, r1: Node, r2: Node)
    requires ValidWord(a) && ValidWord(b) && ValidWord(c) && a != [] && b != [] && c != []
    requires c[0] != a[0] && c[0] != b[0]
    requires r0 == EmptyRoot() && r1 == Insert(r0, a).node && r2 == Insert(r1, b).node
    ensures Missing(r2, c) == |c| && FreqAt(r2, c) == 0
  {
    EmptyRootFacts(a);
    NewNodeFacts('\0', c);
    PutOtherSlot(r1, b, c);
    PutOtherSlot(r0, a, c);
  }

  /** A proper prefix d of the first two words has a path after them, but no frequency. */
  lemma PrefixAfterTwo(a: string, b: string, d: string, r0: Node, r1: Node, r2: Node)
    requires ValidWord(a) && ValidWord(b) && |a| == 5 && |b| == 6 && |d| == 3 && b[..5] == a && a[..3] == d
    requires r0 == EmptyRoot() && r1 == Insert(r0, a).node && r2 == Insert(r1, b).node
    ensures Lookup(r2, d).Some? && FreqAt(r2, d) == 0
  {
    EmptyRootFacts(d);
    PutFreq(r0, a, d);
    PutFreq(r1, b, d);
    PutPath(r1, b, 3);
    assert b[..3] == d;
  }

  /** Adding a word with another first letter keeps d's path, so adding d creates nothing. */
  lemma PrefixAfterThree(c: string, d: string, r2: Node, r3: Node)
    requires WellFormed(r2) && ValidWord(c) && ValidWord(d) && c != [] && d != [] && c[0] != d[0]
    requires Lookup(r2, d).Some? && FreqAt(r2, d) == 0 && r3 == Insert(r2, c).node
    ensures Missing(r3, d) == 0 && FreqAt(r3, d) == 0
  {
    PutOtherSlot(r2, c, d);
    MissingZeroIffPath(r2, d);
  }

  /** The first add of the prefix d creates nothing and gives it frequency 1, so the second add finds its path. */
  lemma PrefixTwice(d: string, r3: Node, r4: Node)
    requires WellFormed(r3) && ValidWord(d) && d != [] && Missing(r3, d) == 0 && FreqAt(r3, d) == 0
    requires r4 == Insert(r3, d).node
    ensures Missing(r4, d) == 0 && FreqAt(r4, d) == 1
  {
    PutFreq(r3, d, d);
    PutPath(r3, d, |d|);
    assert d[..|d|] == d;
    MissingZeroIffPath(r4, d);
  }

  /** The counts after the first two adds, for any words of the counting tests' shape. */
  lemma CountsFirstTwo(a: string, b: string, r0: Node, r1: Node, r2: Node)
    requires ValidWord(a) && ValidWord(b) && |a| == 5 && |b| == 6 && b[..5] == a
    requires r0 == EmptyRoot() && r1 == Insert(r0, a).node && r2 == Insert(r1, b).node
    ensures Size(r0) == 1 && Terminals(r0) == 0
    ensures Size(r1) == 6 && Terminals(r1) == 1
    ensures Size(r2) == 7 && Terminals(r2) == 2
  {
    EmptyRootFacts(a);
    FirstTwoAdds(a, b, r0, r1);
    CountStep(r0, a);
    CountStep(r1, b);
  }

  /** The third add creates a path of its own. */
  lemma CountsThird(a: string, b: string, c: string, r0: Node, r1: Node, r2: Node, r3: Node)
    requires ValidWord(a) && ValidWord(b) && ValidWord(c) && |a| == 5 && |b| == 6 && b[..5] == a && |c| == 6 && c[0] != a[0]
    requires r0 == EmptyRoot() && r1 == Insert(r0, a).node && r2 == Insert(r1, b).node && r3 == Insert(r2, c).node
    requires Size(r2) == 7 && Terminals(r2) == 2
    ensures Size(r3) == 13 && Terminals(r3) == 3
  {
    EmptyRootFacts(a);
    assert b[0] == a[0];
    ThirdAdd(a, b, c, r0, r1, r2);
    CountStep(r2, c);
  }

  /** Adding the prefix creates nothing but counts a word; adding it again changes neither count. */
  lemma CountsPrefix(a: string, b: string, c: string, d: string, r0: Node, r1: Node, r2: Node, r3: Node, r4: Node, r5: Node)
    requires CountingWords(a, b, c, d)
    requires r0 == EmptyRoot() && r1 == Insert(r0, a).node && r2 == Insert(r1, b).node
    requires r3 == Insert(r2, c).node && r4 == Insert(r3, d).node && r5 == Insert(r4, d).node
    requires Size(r3) == 13 && Terminals(r3) == 3
    ensures Size(r4) == 13 && Terminals(r4) == 4
    ensures Size(r5) == 13 && Terminals(r5) == 4
  {
    EmptyRootFacts(a);
    PrefixAfterTwo(a, b, d, r0, r1, r2);
    PrefixAfterThree(c, d, r2, r3);
    PrefixTwice(d, r3, r4);
    CountStep(r3, d);
    CountStep(r4, d);
  }

  /**
   * Adding "cares", "caress", "baboon", "car" and "car" again: the node
   * count goes 1, 6, 7, 13, 13, 13 and the word count 0, 1, 2, 3, 4, 4
   * (test_single_word, test_two_words, test_new_path, test_prefix,
   * test_duplicate_nodes). The trie's counters are these sizes (`Trie.Valid`).
   */
  lemma CountsAfterAdds(a: string, b: string, c: string, d: string, r0: Node, r1: Node, r2: Node, r3: Node, r4: Node, r5: Node)
    requires a == "cares" && b == "caress" && c == "baboon" && d == "car"
    requires r0 == EmptyRoot() && r1 == Insert(r0, a).node && r2 == Insert(r1, b).node
    requires r3 == Insert(r2, c).node && r4 == Insert(r3, d).node && r5 == Insert(r4, d).node
    ensures Size(r0) == 1 && Terminals(r0) == 0
    ensures Size(r1) == 6 && Terminals(r1) == 1
    ensures Size(r2) == 7 && Terminals(r2) == 2
    ensures Size(r3) == 13 && Terminals(r3) == 3
    ensures Size(r4) == 13 && Terminals(r4) == 4
    ensures Size(r5) == 13 && Terminals(r5) == 4
  {
    assert CountingWords(a, b, c, d);
    CountsFirstTwo(a, b, r0, r1, r2);
    CountsThird(a, b, c, r0, r1, r2, r3);
    CountsPrefix(a, b, c, d, r0, r1, r2, r3, r4, r5);
  }

  // ---------------------------------------------------------------------
  // Frequencies, find and the listing after the five adds

  /** One more add raises the added word's frequency by one and leaves every other word's alone. */
  lemma FreqStep(r: Node, w: string, v: string)
    requires WellFormed(r) && ValidWord(w) && w != []
    ensures FreqAt(Insert(r, w).node, v) == FreqAt(r, v) + (if v == w then 1 else 0)
  {
    PutFreq(r, w, v);
  }

  /** After adding a, b, c, d and d again, each word's frequency is the number of times it was added. */
  lemma FreqsAfterAdds(a: string, b: string, c: string, d: string, r0: Node, r1: Node, r2: Node, r3: Node, r4: Node, r5: Node, v: string)
    requires ValidWord(a) && ValidWord(b) && ValidWord(c) && ValidWord(d)
    requires a != [] && b != [] && c != [] && d != []
    requires r0 == EmptyRoot() && r1 == Insert(r0, a).node && r2 == Insert(r1, b).node
    requires r3 == Insert(r2, c).node && r4 == Insert(r3, d).node && r5 == Insert(r4, d).node
    ensures FreqAt(r5, v) == (if v == a then 1 else 0) + (if v == b then 1 else 0) + (if v == c then 1 else 0) + (if v == d then 2 else 0)
  {
    EmptyRootFacts(v);
    FreqStep(r0, a, v);
    FreqStep(r1, b, v);
    FreqStep(r2, c, v);
    FreqStep(r3, d, v);
    FreqStep(r4, d, v);
  }

  /**
   * test_find: after the five adds `find` reports nothing for a nonsense
   * word, for a word extending a stored one, and for the prefixes "c", "ca"
   * and "care"; the stored words themselves are found, "car" with
   * frequency 2. `Trie.Find` returns exactly `FindNode` of the root.
   */
  lemma FindsAfterAdds(a: string, b: string, c: string, d: string, r0: Node, r1: Node, r2: Node, r3: Node, r4: Node, r5: Node)
    requires a == "cares" && b == "caress" && c == "baboon" && d == "car"
    requires r0 == EmptyRoot() && r1 == Insert(r0, a).node && r2 == Insert(r1, b).node
    requires r3 == Insert(r2, c).node && r4 == Insert(r3, d).node && r5 == Insert(r4, d).node
    ensures FindNode(r5, "vnjklnasldkgnmb") == None && FindNode(r5, "caresses") == None
    ensures FindNode(r5, "c") == None && FindNode(r5, "ca") == None && FindNode(r5, "care") == None
    ensures FindNode(r5, a).Some? && FindNode(r5, b).Some? && FindNode(r5, c).Some?
    ensures FindNode(r5, d).Some? && FindNode(r5, d).value.freq == 2
  {
    assert CountingWords(a, b, c, d);
    FreqsAfterAdds(a, b, c, d, r0, r1, r2, r3, r4, r5, "vnjklnasldkgnmb");
    FreqsAfterAdds(a, b, c, d, r0, r1, r2, r3, r4, r5, "caresses");
    FreqsAfterAdds(a, b, c, d, r0, r1, r2, r3, r4, r5, "c");
    FreqsAfterAdds(a, b, c, d, r0, r1, r2, r3, r4, r5, "ca");
    FreqsAfterAdds(a, b, c, d, r0, r1, r2, r3, r4, r5, "care");
    FreqsAfterAdds(a, b, c, d, r0, r1, r2, r3, r4, r5, a);
    FreqsAfterAdds(a, b, c, d, r0, r1, r2, r3, r4, r5, b);
    FreqsAfterAdds(a, b, c, d, r0, r1, r2, r3, r4, r5, c);
    FreqsAfterAdds(a, b, c, d, r0, r1, r2, r3, r4, r5, d);
  }

  /** The listing after the five adds holds exactly the four distinct words (none contains z). */
  lemma ListingMembers(a: string, b: string, c: string, d: string, r0: Node, r1: Node, r2: Node, r3: Node, r4: Node, r5: Node, v: string)
    requires CountingWords(a, b, c, d) && 'z' !in a && 'z' !in b && 'z' !in c && 'z' !in d
    requires r0 == EmptyRoot() && r1 == Insert(r0, a).node && r2 == Insert(r1, b).node
    requires r3 == Insert(r2, c).node && r4 == Insert(r3, d).node && r5 == Insert(r4, d).node
    ensures v in Listing(r5) <==> v == a || v == b || v == c || v == d
  {
    ListingContents(r5, v);
    FreqsAfterAdds(a, b, c, d, r0, r1, r2, r3, r4, r5, v);
  }

  /** Four distinct words in increasing order make up the whole listing, in that order. */
  lemma ListingInOrder(a: string, b: string, c: string, d: string, r0: Node, r1: Node, r2: Node, r3: Node, r4: Node, r5: Node)
    requires CountingWords(a, b, c, d) && 'z' !in a && 'z' !in b && 'z' !in c && 'z' !in d
    requires LexLess(c, d) && LexLess(d, a) && LexLess(a, b)
    requires r0 == EmptyRoot() && r1 == Insert(r0, a).node && r2 == Insert(r1, b).node
    requires r3 == Insert(r2, c).node && r4 == Insert(r3, d).node && r5 == Insert(r4, d).node
    ensures Listing(r5) == [c, d, a, b]
  {
    var expected := [c, d, a, b];
    forall v ensures v in Listing(r5) <==> v in expected {
      ListingMembers(a, b, c, d, r0, r1, r2, r3, r4, r5, v);
    }
    DepthFirstSorted(r5, "", ScannedSlots);
    LexTransitive(c, d, a);
    LexTransitive(d, a, b);
    LexTransitive(c, a, b);
    SortedUnique(Listing(r5), expected);
  }

  /**
   * test_to_string: after the five adds the listing is "baboon", "car",
   * "cares", "caress" in that order, each once although "car" was added
   * twice, so `Trie.ToString` returns "baboon\ncar\ncares\ncaress".
   */
  lemma ListingAfterAdds(a: string, b: string, c: string, d: string, r0: Node, r1: Node, r2: Node, r3: Node, r4: Node, r5: Node)
    requires a == "cares" && b == "caress" && c == "baboon" && d == "car"
    requires r0 == EmptyRoot() && r1 == Insert(r0, a).node && r2 == Insert(r1, b).node
    requires r3 == Insert(r2, c).node && r4 == Insert(r3, d).node && r5 == Insert(r4, d).node
    ensures Listing(r5) == [c, d, a, b]
    ensures Join(Listing(r5)) == "baboon\ncar\ncares\ncaress"
  {
    assert CountingWords(a, b, c, d);
    assert a == d + "es" && b == a + "s";
    LexPrefix(d, "es");
    LexPrefix(a, "s");
    ListingInOrder(a, b, c, d, r0, r1, r2, r3, r4, r5);
    ListingText(a, b, c, d);
  }

  /** The four words joined by newlines. */
  lemma ListingText(a: string, b: string, c: string, d: string)
    requires a == "cares" && b == "caress" && c == "baboon" && d == "car"
    ensures Join([c, d, a, b]) == "baboon\ncar\ncares\ncaress"
  {
    JoinFour(c, d, a, b);
  }

  lemma JoinFour(w: string, x: string, y: string, z: string)
    ensures Join([w, x, y, z]) == w + "\n" + x + "\n" + y + "\n" + z
  {
    assert [w, x, y, z][1..] == [x, y, z] && [x, y, z][1..] == [y, z] && [y, z][1..] == [z];
    assert Join([y, z]) == y + "\n" + z;
    assert Join([x, y, z]) == x + "\n" + (y + "\n" + z);
  }

  // ---------------------------------------------------------------------
  // Equality

  /** A word present once compares unequal to the tree where it is added once more. */
  lemma AddedAgainDiffers(d: string, r3: Node, r4: Node, r5: Node)
    requires WellFormed(r3) && ValidWord(d) && d != [] && 'z' !in d && Missing(r3, d) == 0 && FreqAt(r3, d) == 0
    requires r4 == Insert(r3, d).node && r5 == Insert(r4, d).node
    ensures !Compare(r4, r5) && !Compare(r5, r4)
  {
    PrefixTwice(d, r3, r4);
    MissingZeroIffPath(r4, d);
    PutPath(r4, d, |d|);
    assert d[..|d|] == d;
    PutFreq(r4, d, d);
    CompareSymmetric(r4, r5);
    if Compare(r4, r5) {
      CompareSeesSharedFreq(r4, r5, d);
    }
  }

  /**
   * test_equals: a trie holding "car" once more than another is not `==` to
   * it (the word counts differ); two tries built by the same adds are `==`;
   * and the trie with "car" added twice is not `==` to the one with it added
   * once, though both counts agree, because the comparison meets the two
   * frequencies of "car".
   */
  lemma EqualsAfterAdds(a: string, b: string, c: string, d: string, r0: Node, r1: Node, r2: Node, r3: Node, r4: Node, r5: Node,
                        without: Trie, once: Trie, again: Trie, twice: Trie)
    requires a == "cares" && b == "caress" && c == "baboon" && d == "car"
    requires r0 == EmptyRoot() && r1 == Insert(r0, a).node && r2 == Insert(r1, b).node
    requires r3 == Insert(r2, c).node && r4 == Insert(r3, d).node && r5 == Insert(r4, d).node
    requires without.Valid() && once.Valid() && again.Valid() && twice.Valid()
    requires without.root == r3 && once.root == r4 && again.root == r4 && twice.root == r5
    ensures !once.Equals(without) && !without.Equals(once)
    ensures once.Equals(again) && again.Equals(once)
    ensures once.numNodes == twice.numNodes && once.numWords == twice.numWords
    ensures !once.Equals(twice) && !twice.Equals(once)
  {
    CountsAfterAdds(a, b, c, d, r0, r1, r2, r3, r4, r5);
    CompareReflexive(r4);
    assert CountingWords(a, b, c, d);
    EmptyRootFacts(a);
    PrefixAfterTwo(a, b, d, r0, r1, r2);
    PrefixAfterThree(c, d, r2, r3);
    AddedAgainDiffers(d, r3, r4, r5);
  }
}
