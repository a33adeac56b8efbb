/**
 * The recursive traversals of src/spell_corrector/trie.rs: the structural
 * comparison behind `==` (`Trie::compare`) and the depth-first listing
 * behind `to_string` (`Trie::to_string_helper`). Both scan the slots
 * `0..25`, which leaves out slot 25 (the letter z).
 */
module TrieWalks {
  import opened Wrappers
  import opened Letters
  import opened TrieNode

  /** The slots `for i in 0..25` visits: 0 to 24. */
  const ScannedSlots: nat := 25

  // ---------------------------------------------------------------------
  // Comparison, as written

  /**
   * `Trie::compare`: equal frequencies here, and equal subtrees in every
   * slot among 0..24 that is occupied on both sides. A slot occupied on one
   * side only is not a difference.
   */
  function Compare(a: Node, b: Node): bool
    requires WellFormed(a) && WellFormed(b)
    decreases a, Alphabet + 1
  {
    if a.freq != b.freq then false else CompareFrom(a, b, 0)
  }

  function CompareFrom(a: Node, b: Node, i: nat): bool
    requires WellFormed(a) && WellFormed(b)
    decreases a, Alphabet - i
  {
    if i >= ScannedSlots then true
    else if a.children[i].Some? && b.children[i].Some? then
      if a.freq != b.freq then false
      else if !Compare(a.children[i].value, b.children[i].value) then false
      else CompareFrom(a, b, i + 1)
    else CompareFrom(a, b, i + 1)
  }

  lemma {:induction false} CompareReflexive(a: Node)
    requires WellFormed(a)
    ensures Compare(a, a)
    decreases a, Alphabet + 1
  {
    CompareFromReflexive(a, 0);
  }

  lemma {:induction false} CompareFromReflexive(a: Node, i: nat)
    requires WellFormed(a)
    ensures CompareFrom(a, a, i)
    decreases a, Alphabet - i
  {
    if i < ScannedSlots {
      if a.children[i].Some? {
        CompareReflexive(a.children[i].value);
      }
      CompareFromReflexive(a, i + 1);
    }
  }

  lemma {:induction false} CompareSymmetric(a: Node, b: Node)
    requires WellFormed(a) && WellFormed(b)
    ensures Compare(a, b) == Compare(b, a)
    decreases a, Alphabet + 1
  {
    if a.freq == b.freq {
      CompareFromSymmetric(a, b, 0);
    }
  }

  lemma {:induction false} CompareFromSymmetric(a: Node, b: Node, i: nat)
    requires WellFormed(a) && WellFormed(b)
    ensures CompareFrom(a, b, i) == CompareFrom(b, a, i)
    decreases a, Alphabet - i
  {
    if i < ScannedSlots {
      if a.children[i].Some? && b.children[i].Some? {
        CompareSymmetric(a.children[i].value, b.children[i].value);
      }
      CompareFromSymmetric(a, b, i + 1);
    }
  }

  /** A successful scan from slot i has compared the subtrees of every later slot among 0..24 occupied on both sides. */
  lemma {:induction false} CompareFromAt(a: Node, b: Node, i: nat, j: nat)
    requires WellFormed(a) && WellFormed(b) && CompareFrom(a, b, i)
    requires i <= j < ScannedSlots && a.children[j].Some? && b.children[j].Some?
    ensures Compare(a.children[j].value, b.children[j].value)
    decreases j - i
  {
    if i < j {
      CompareFromAt(a, b, i + 1, j);
    }
  }

  /**
   * What the comparison does detect: a word whose path exists on both sides
   * and avoids the letter z must have the same frequency on both sides
   * ("car" added twice against once).
   */
  lemma {:induction false} CompareSeesSharedFreq(a: Node, b: Node, v: string)
    requires WellFormed(a) && WellFormed(b) && Compare(a, b)
    requires ValidWord(v) && 'z' !in v
    requires Lookup(a, v).Some? && Lookup(b, v).Some?
    ensures FreqAt(a, v) == FreqAt(b, v)
    decreases v
  {
    if v != [] {
      var k := Index(v[0]);
      assert v[0] != 'z';
      CompareFromAt(a, b, 0, k);
      assert 'z' !in v[1..] by {
        forall i | 0 <= i < |v[1..]| ensures v[1..][i] != 'z' {
          assert v[1..][i] == v[i + 1];
        }
      }
      CompareSeesSharedFreq(a.children[k].value, b.children[k].value, v[1..]);
    }
  }

  /** A successful comparison gives every word whose path exists on both sides and has no z the same frequency on both sides. */
  lemma CompareSeesSharedFreqs(a: Node, b: Node)
    requires WellFormed(a) && WellFormed(b)
    ensures Compare(a, b) ==> forall v :: ValidWord(v) && 'z' !in v && Lookup(a, v).Some? && Lookup(b, v).Some? ==> FreqAt(a, v) == FreqAt(b, v)
  {
    if Compare(a, b) {
      forall v | ValidWord(v) && 'z' !in v && Lookup(a, v).Some? && Lookup(b, v).Some?
        ensures FreqAt(a, v) == FreqAt(b, v)
      {
        CompareSeesSharedFreq(a, b, v);
      }
    }
  }

  /** When no slot among i..24 is occupied on both sides, the scan from i succeeds on whatever the slots hold. */
  lemma {:induction false} CompareFromNoSharedSlot(a: Node, b: Node, i: nat)
    requires WellFormed(a) && WellFormed(b)
    requires forall j :: i <= j < ScannedSlots ==> a.children[j].None? || b.children[j].None?
    ensures CompareFrom(a, b, i)
    decreases ScannedSlots - i
  {
    if i < ScannedSlots {
      CompareFromNoSharedSlot(a, b, i + 1);
    }
  }

  // ---------------------------------------------------------------------
  // Comparison, as evidently intended

  /** Equal frequencies and, in all 26 slots, the same occupancy and equal subtrees. */
  function SameTree(a: Node, b: Node): bool
    requires WellFormed(a) && WellFormed(b)
    decreases a, Alphabet + 1
  {
    a.freq == b.freq && SameFrom(a, b, 0)
  }

  function SameFrom(a: Node, b: Node, i: nat): bool
    requires WellFormed(a) && WellFormed(b)
    decreases a, Alphabet - i
  {
    if i >= Alphabet then true
    else if a.children[i].Some? != b.children[i].Some? then false
    else if a.children[i].Some? then
      SameTree(a.children[i].value, b.children[i].value) && SameFrom(a, b, i + 1)
    else SameFrom(a, b, i + 1)
  }

  /** The corrected comparison holds exactly of equal trees (the roots' own letters aside, which both sides share). */
  lemma {:induction false} SameTreeIsEquality(a: Node, b: Node)
    requires WellFormed(a) && WellFormed(b) && a.data == b.data
    ensures SameTree(a, b) <==> a == b
    decreases a, Alphabet + 1
  {
    if a == b {
      SameFromReflexive(a, 0);
    }
    if SameTree(a, b) {
      forall j | 0 <= j < Alphabet ensures a.children[j] == b.children[j] {
        SameFromAt(a, b, 0, j);
        if a.children[j].Some? {
          SameTreeIsEquality(a.children[j].value, b.children[j].value);
        }
      }
      assert a.children == b.children;
    }
  }

  lemma {:induction false} SameFromReflexive(a: Node, i: nat)
    requires WellFormed(a)
    ensures SameFrom(a, a, i)
    decreases a, Alphabet - i
  {
    if i < Alphabet {
      if a.children[i].Some? {
        SameTreeIsEquality(a.children[i].value, a.children[i].value);
      }
      SameFromReflexive(a, i + 1);
    }
  }

  lemma {:induction false} SameFromAt(a: Node, b: Node, i: nat, j: nat)
    requires WellFormed(a) && WellFormed(b) && SameFrom(a, b, i)
    requires i <= j < Alphabet
    ensures a.children[j].Some? == b.children[j].Some?
    ensures a.children[j].Some? ==> SameTree(a.children[j].value, b.children[j].value)
    decreases j - i
  {
    if i < j {
      SameFromAt(a, b, i + 1, j);
    }
  }

  // ---------------------------------------------------------------------
  // Depth-first listing

  /**
   * `Trie::to_string_helper` over the first `width` slots: for each occupied
   * slot in letter order, extend the holder by the child's letter, emit the
   * holder when the child stores a word, then list the child's subtree.
   * The source scans 25 slots; 26 would list every stored word.
   */
  function DepthFirst(n: Node, holder: string, width: nat): seq<string>
    requires WellFormed(n) && width <= Alphabet
    decreases n, Alphabet + 1
  {
    DepthFirstFrom(n, holder, width, 0)
  }

  function DepthFirstFrom(n: Node, holder: string, width: nat, i: nat): seq<string>
    requires WellFormed(n) && width <= Alphabet
    decreases n, Alphabet - i
  {
    if i >= width then []
    else match n.children[i]
      case None => DepthFirstFrom(n, holder, width, i + 1)
      case Some(c) =>
        var h := holder + [c.data];
        (if c.freq > 0 then [h] else []) + DepthFirst(c, h, width) + DepthFirstFrom(n, holder, width, i + 1)
  }

  /** The listing `to_string` produces: slots 0..24 only. */
  function Listing(n: Node): seq<string>
    requires WellFormed(n)
  {
    DepthFirst(n, "", ScannedSlots)
  }

  /** The listing over all 26 slots. */
  function FullListing(n: Node): seq<string>
    requires WellFormed(n)
  {
    DepthFirst(n, "", Alphabet)
  }

  /** Every letter of v has a slot among the first `width`. */
  predicate WithinWidth(v: string, width: nat) {
    ValidWord(v) && forall i :: 0 <= i < |v| ==> Index(v[i]) < width
  }

  predicate Sorted(s: seq<string>) {
    forall i, j :: 0 <= i < j < |s| ==> LexLess(s[i], s[j])
  }

  /** Each listed string is the holder followed by a non-empty stored word within the width. */
  lemma {:induction false} DepthFirstSound(n: Node, holder: string, width: nat, x: string)
    requires WellFormed(n) && width <= Alphabet
    requires x in DepthFirst(n, holder, width)
    ensures |x| > |holder| && x[..|holder|] == holder
    ensures WithinWidth(x[|holder|..], width) && FreqAt(n, x[|holder|..]) > 0
    decreases n, Alphabet + 1
  {
    DepthFirstFromSound(n, holder, width, 0, x);
  }

  lemma {:induction false} DepthFirstFromSound(n: Node, holder: string, width: nat, i: nat, x: string)
    requires WellFormed(n) && width <= Alphabet
    requires x in DepthFirstFrom(n, holder, width, i)
    ensures |x| > |holder| && x[..|holder|] == holder
    ensures WithinWidth(x[|holder|..], width) && FreqAt(n, x[|holder|..]) > 0
    ensures i <= Index(x[|holder|])
    decreases n, Alphabet - i
  {
    if i < width {
      match n.children[i]
      case None =>
        DepthFirstFromSound(n, holder, width, i + 1, x);
      case Some(c) =>
        var h := holder + [c.data];
        var own := if c.freq > 0 then [h] else [];
        var rest := DepthFirstFrom(n, holder, width, i + 1);
        assert DepthFirstFrom(n, holder, width, i) == own + DepthFirst(c, h, width) + rest;
        if x in own {
          assert x == h && x[|holder|..] == [Letter(i)];
          assert [Letter(i)][1..] == [];
          assert Lookup(n, [Letter(i)]) == Lookup(c, []);
        } else if x in DepthFirst(c, h, width) {
          DepthFirstSound(c, h, width, x);
          var v := x[|h|..];
          assert x[|holder|..] == [Letter(i)] + v;
          assert ([Letter(i)] + v)[1..] == v;
        } else {
          DepthFirstFromSound(n, holder, width, i + 1, x);
        }
    }
  }

  /** Every non-empty stored word within the width is listed, after the holder. */
  lemma {:induction false} DepthFirstComplete(n: Node, holder: string, width: nat, v: string)
    requires WellFormed(n) && width <= Alphabet
    requires v != [] && WithinWidth(v, width) && FreqAt(n, v) > 0
    ensures holder + v in DepthFirst(n, holder, width)
    decreases n, Alphabet + 1
  {
    DepthFirstFromComplete(n, holder, width, 0, v);
  }

  lemma {:induction false} DepthFirstFromComplete(n: Node, holder: string, width: nat, i: nat, v: string)
    requires WellFormed(n) && width <= Alphabet
    requires v != [] && WithinWidth(v, width) && FreqAt(n, v) > 0
    requires i <= Index(v[0])
    ensures holder + v in DepthFirstFrom(n, holder, width, i)
    decreases n, Alphabet - i
  {
    var k := Index(v[0]);
    assert k < width;
    assert n.children[k].Some?;
    match n.children[i]
    case None =>
      DepthFirstFromComplete(n, holder, width, i + 1, v);
    case Some(c) =>
      var h := holder + [c.data];
      var own := if c.freq > 0 then [h] else [];
      var rest := DepthFirstFrom(n, holder, width, i + 1);
      assert DepthFirstFrom(n, holder, width, i) == own + DepthFirst(c, h, width) + rest;
      if i < k {
        DepthFirstFromComplete(n, holder, width, i + 1, v);
      } else {
        LetterOfIndex(v[0]);
        assert c.data == v[0];
        if |v| == 1 {
          assert holder + v == h;
          assert v[1..] == [];
          assert FreqAt(n, v) == FreqAt(c, []);
        } else {
          var v' := v[1..];
          assert WithinWidth(v', width) by {
            forall j | 0 <= j < |v'| ensures IsLetter(v'[j]) && Index(v'[j]) < width {
              assert v'[j] == v[j + 1];
            }
          }
          DepthFirstComplete(c, h, width, v');
          assert holder + v == h + v' by {
            assert v == [v[0]] + v';
          }
        }
      }
  }

  lemma SortedConcat(a: seq<string>, b: seq<string>)
    requires Sorted(a) && Sorted(b)
    requires forall x, y :: x in a && y in b ==> LexLess(x, y)
    ensures Sorted(a + b)
  {
    forall i, j | 0 <= i < j < |a + b| ensures LexLess((a + b)[i], (a + b)[j]) {
      if j < |a| {
      } else if i >= |a| {
        assert (a + b)[i] == b[i - |a|] && (a + b)[j] == b[j - |a|];
      } else {
        assert (a + b)[i] in a && (a + b)[j] in b;
      }
    }
  }

  /** The listing comes out in strictly increasing lexicographic order, so no word appears twice. */
  lemma {:induction false} DepthFirstSorted(n: Node, holder: string, width: nat)
    requires WellFormed(n) && width <= Alphabet
    ensures Sorted(DepthFirst(n, holder, width))
    decreases n, Alphabet + 1
  {
    DepthFirstFromSorted(n, holder, width, 0);
  }

  /** Every word listed below a node extends that node's holder, so sorts after it. */
  lemma BelowHolder(c: Node, h: string, width: nat, y: string)
    requires WellFormed(c) && width <= Alphabet && y in DepthFirst(c, h, width)
    ensures LexLess(h, y) && |y| > |h| && y[..|h|] == h
  {
    DepthFirstSound(c, h, width, y);
    assert y == h + y[|h|..];
    LexPrefix(h, y[|h|..]);
  }

  /** A word through slot i sorts before every word through a later slot. */
  lemma SlotBeforeRest(n: Node, holder: string, width: nat, i: nat, x: string, z: string)
    requires WellFormed(n) && width <= Alphabet && i < width && n.children[i].Some?
    requires var h := holder + [n.children[i].value.data]; |x| >= |h| && x[..|h|] == h
    requires z in DepthFirstFrom(n, holder, width, i + 1)
    ensures LexLess(x, z)
  {
    var h := holder + [n.children[i].value.data];
    DepthFirstFromSound(n, holder, width, i + 1, z);
    var d := z[|holder|];
    assert Letter(i) < d by {
      LetterOfIndex(d);
    }
    assert x == holder + [Letter(i)] + x[|h|..];
    assert z == holder + [d] + z[|holder| + 1..];
    LexBranch(holder, Letter(i), x[|h|..], d, z[|holder| + 1..]);
  }

  lemma {:induction false} DepthFirstFromSorted(n: Node, holder: string, width: nat, i: nat)
    requires WellFormed(n) && width <= Alphabet
    ensures Sorted(DepthFirstFrom(n, holder, width, i))
    decreases n, Alphabet - i
  {
    if i < width {
      DepthFirstFromSorted(n, holder, width, i + 1);
      match n.children[i]
      case None =>
      case Some(c) =>
        var h := holder + [c.data];
        var own := if c.freq > 0 then [h] else [];
        var sub := DepthFirst(c, h, width);
        var rest := DepthFirstFrom(n, holder, width, i + 1);
        DepthFirstSorted(c, h, width);
        forall y | y in sub ensures LexLess(h, y) && |y| > |h| && y[..|h|] == h {
          BelowHolder(c, h, width, y);
        }
        SortedConcat(own, sub);
        forall x, z | x in own + sub && z in rest ensures LexLess(x, z) {
          SlotBeforeRest(n, holder, width, i, x, z);
        }
        SortedConcat(own + sub, rest);
    }
  }

  /** In a strictly sorted sequence the head occurs only at the front. */
  lemma SortedTail(s: seq<string>, x: string)
    requires Sorted(s) && |s| > 0
    ensures x in s[1..] <==> x in s && x != s[0]
  {
    LexIrreflexive(s[0]);
    if x in s && x != s[0] {
      assert x in s[1..] by {
        var k :| 0 <= k < |s| && s[k] == x;
        assert s[1..][k - 1] == x;
      }
    }
  }

  /** Names the head's membership, so SortedUnique can take it as a fact for either sequence without a case split. */
  lemma HeadIn(s: seq<string>)
    ensures s == [] || s[0] in s
  {
  }

  /** Two strictly sorted sequences with the same members are the same sequence. */
  lemma {:induction false} SortedUnique(a: seq<string>, b: seq<string>)
    requires Sorted(a) && Sorted(b)
    requires forall x :: x in a <==> x in b
    ensures a == b
    decreases |a|
  {
    HeadIn(a);
    HeadIn(b);
    if a != [] && b != [] {
      assert a[0] == b[0] by {
        if a[0] != b[0] {
          assert b[0] in b && a[0] in a;
          var i :| 0 <= i < |a| && a[i] == b[0];
          var j :| 0 <= j < |b| && b[j] == a[0];
          assert LexLess(b[0], b[j]);
          LexAsymmetric(a[0], a[i]);
        }
      }
      forall x ensures x in a[1..] <==> x in b[1..] {
        SortedTail(a, x);
        SortedTail(b, x);
      }
      SortedUnique(a[1..], b[1..]);
      assert a == [a[0]] + a[1..] && b == [b[0]] + b[1..];
    }
  }

  // ---------------------------------------------------------------------
  // What the listings hold

  /** The listing as written holds exactly the stored words that avoid the letter z. */
  lemma ListingContents(n: Node, v: string)
    requires WellFormed(n)
    ensures v in Listing(n) <==> v != [] && ValidWord(v) && 'z' !in v && FreqAt(n, v) > 0
  {
    if v in Listing(n) {
      DepthFirstSound(n, "", ScannedSlots, v);
      assert v[0..] == v;
      forall i | 0 <= i < |v| ensures v[i] != 'z' {
        assert Index(v[i]) < ScannedSlots;
      }
    }
    if v != [] && ValidWord(v) && 'z' !in v && FreqAt(n, v) > 0 {
      forall i | 0 <= i < |v| ensures Index(v[i]) < ScannedSlots {
        assert v[i] != 'z';
      }
      DepthFirstComplete(n, "", ScannedSlots, v);
      assert "" + v == v;
    }
  }

  /** The 26-slot listing holds exactly the stored words. */
  lemma FullListingContents(n: Node, v: string)
    requires WellFormed(n)
    ensures v in FullListing(n) <==> v != [] && ValidWord(v) && FreqAt(n, v) > 0
  {
    if v in FullListing(n) {
      DepthFirstSound(n, "", Alphabet, v);
      assert v[0..] == v;
    }
    if v != [] && ValidWord(v) && FreqAt(n, v) > 0 {
      DepthFirstComplete(n, "", Alphabet, v);
      assert "" + v == v;
    }
  }

  // ---------------------------------------------------------------------
  // The two scans that stop at slot 24, on concrete trees

  /** The tree holding the single word w. */
  function Singleton(w: string): (n: Node)
    requires ValidWord(w)
    ensures WellFormed(n)
  {
    Insert(EmptyRoot(), w).node
  }

  /** The tree holding only "z" stores it, yet its listing as written is empty; the full listing is ["z"]. */
  lemma ListingDropsZ()
    ensures FreqAt(Singleton("z"), "z") == 1
    ensures Listing(Singleton("z")) == []
    ensures FullListing(Singleton("z")) == ["z"]
  {
    var n := Singleton("z");
    EmptyRootFacts("z");
    forall v ensures FreqAt(n, v) == (if v == "z" then 1 else 0) {
      PutFreq(EmptyRoot(), "z", v);
      NewNodeFacts('\0', v);
    }
    var l := Listing(n);
    if l != [] {
      ListingContents(n, l[0]);
      assert false;
    }
    var f := FullListing(n);
    FullListingContents(n, "z");
    DepthFirstSorted(n, "", Alphabet);
    forall i | 0 <= i < |f| ensures f[i] == "z" {
      FullListingContents(n, f[i]);
    }
    if |f| > 1 {
      assert LexLess(f[0], f[1]);
      LexIrreflexive(f[0]);
    }
  }

  /**
   * The trees holding only "a" and only "b" differ, have the same size and
   * word count, and yet compare equal: neither slot is occupied on both sides.
   */
  lemma CompareIgnoresOneSidedSlots()
    ensures Compare(Singleton("a"), Singleton("b"))
    ensures Singleton("a") != Singleton("b")
    ensures Size(Singleton("a")) == Size(Singleton("b")) == 2
    ensures Terminals(Singleton("a")) == Terminals(Singleton("b")) == 1
  {
    var a, b := Singleton("a"), Singleton("b");
    EmptyRootFacts("");
    PutSize(EmptyRoot(), "a");
    PutSize(EmptyRoot(), "b");
    PutCreated(EmptyRoot(), "a");
    PutCreated(EmptyRoot(), "b");
    PutTerminals(EmptyRoot(), "a");
    PutTerminals(EmptyRoot(), "b");
    PutNewWord(EmptyRoot(), "a");
    PutNewWord(EmptyRoot(), "b");
    NewNodeFacts('\0', "a");
    NewNodeFacts('\0', "b");
    assert forall j :: 1 <= j < Alphabet ==> a.children[j].None?;
    assert forall j :: 0 <= j < Alphabet && j != 1 ==> b.children[j].None?;
    CompareFromNoSharedSlot(a, b, 0);
    assert a.children[0].Some? && b.children[0].None?;
  }
}
