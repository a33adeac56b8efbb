/**
 * The `Trie` object of src/spell_corrector/trie.rs: a root node and the two
 * counters `add` keeps up to date. `Valid` is the object invariant: the node
 * counter is the size of the tree (root included) and the word counter is
 * the number of nodes with a non-zero frequency.
 */
module Dictionary {
  import opened Wrappers
  import opened Letters
  import opened TrieNode
  import opened TrieWalks

  class Trie {
    var root: Node
    var numNodes: nat
    var numWords: nat

    ghost predicate Valid()
      reads this
    {
      WellFormed(root) && root.data == '\0' && root.freq == 0 &&
      numNodes == Size(root) && numWords == Terminals(root)
    }

    /** `Trie::new`: the bare root, node count 1, word count 0. */
    constructor ()
      ensures Valid() && root == EmptyRoot()
      ensures numNodes == 1 && numWords == 0
    {
      EmptyRootFacts("");
      root := EmptyRoot();
      numNodes := 1;
      numWords := 0;
    }

    /**
     * `Trie::add`: lowercase the word, walk its path creating missing nodes
     * (one count each), and bump the last node's frequency, counting a new
     * word when that frequency was 0. The empty word changes nothing.
     */
    method Add(word: string)
      requires Valid() && ValidWord(Lower(word))
      modifies this
      ensures Valid()
      ensures root == Insert(old(root), Lower(word)).node
      ensures numNodes == old(numNodes) + Missing(old(root), Lower(word))
      ensures numWords == old(numWords) + (if Lower(word) != [] && FreqAt(old(root), Lower(word)) == 0 then 1 else 0)
      ensures forall v :: FreqAt(root, v) == FreqAt(old(root), v) + (if v == Lower(word) && v != [] then 1 else 0)
    {
      var lowerWord := Lower(word);
      var added := Insert(root, lowerWord);
      if lowerWord != [] {
        PutCreated(root, lowerWord);
        PutSize(root, lowerWord);
        PutNewWord(root, lowerWord);
        PutTerminals(root, lowerWord);
        forall v ensures FreqAt(added.node, v) == FreqAt(root, v) + (if v == lowerWord then 1 else 0) {
          PutFreq(root, lowerWord, v);
        }
      }
      root := added.node;
      numNodes := numNodes + added.created;
      if added.newWord {
        numWords := numWords + 1;
      }
    }

    /**
     * `Trie::find`: walk the lowercased word's path with a cursor; a missing
     * slot gives None, and so does a path ending at a node of frequency 0.
     */
    method Find(word: string) returns (r: Option<Node>)
      requires Valid() && ValidWord(Lower(word))
      ensures r == FindNode(root, Lower(word))
    {
      var lowerWord := Lower(word);
      var curr := root;
      for i := 0 to |lowerWord|
        invariant WellFormed(curr)
        invariant Lookup(root, lowerWord) == Lookup(curr, lowerWord[i..])
      {
        assert lowerWord[i..][0] == lowerWord[i] && lowerWord[i..][1..] == lowerWord[i + 1..];
        match curr.children[Index(lowerWord[i])]
        case Some(next) =>
          curr := next;
        case None =>
          return None;
      }
      assert lowerWord[|lowerWord|..] == [];
      if curr.freq >= 1 {
        return Some(curr);
      }
      return None;
    }

    /** `get_word_count`: the number of distinct words stored. */
    function WordCount(): (count: nat)
      reads this
      requires Valid()
      ensures count == Terminals(root)
    {
      numWords
    }

    /** `get_node_count`: the number of nodes in the tree, root included. */
    function NodeCount(): (count: nat)
      reads this
      requires Valid()
      ensures count == Size(root)
    {
      numNodes
    }

    /**
     * `Trie::to_string_helper`: scan slots 0..24 of the node; for an occupied
     * one push the child's letter onto the holder, append the holder and a
     * newline when the child stores a word, recurse, and pop the letter.
     */
    static method ToStringHelper(node: Node, holder: string, out: string) returns (holder': string, out': string)
      requires WellFormed(node)
      ensures holder' == holder
      ensures out' == out + Render(DepthFirst(node, holder, ScannedSlots))
      decreases node
    {
      holder', out' := holder, out;
      for i := 0 to ScannedSlots
        invariant holder' == holder
        invariant out + Render(DepthFirst(node, holder, ScannedSlots))
               == out' + Render(DepthFirstFrom(node, holder, ScannedSlots, i))
      {
        if node.children[i].Some? {
          var next := node.children[i].value;
          ghost var h, own, rest := holder + [next.data], (if next.freq > 0 then holder + [next.data] + "\n" else ""),
            Render(DepthFirstFrom(node, holder, ScannedSlots, i + 1));
          RenderSlot(node, holder, i);
          ghost var before := out';
          holder' := holder' + [next.data];
          if next.freq > 0 {
            out' := out' + (holder' + "\n");
          }
          assert out' == before + own;
          holder', out' := ToStringHelper(next, holder', out');
          ConcatShift(before, own, Render(DepthFirst(next, h, ScannedSlots)), rest);
          holder' := holder'[..|holder'| - 1];
          assert holder' == holder;
        } else {
          assert DepthFirstFrom(node, holder, ScannedSlots, i) == DepthFirstFrom(node, holder, ScannedSlots, i + 1);
        }
      }
    }

    /** `Trie::to_string`: the listing joined by newlines (the helper's trailing newline popped). */
    method ToString() returns (s: string)
      requires Valid()
      ensures s == Join(Listing(root))
    {
      var holder, out := ToStringHelper(root, "", "");
      RenderJoin(Listing(root));
      if |out| > 0 {
        out := out[..|out| - 1];
      }
      s := out;
    }

    /**
     * `Trie::hash_code`: the sum of the indices of the occupied root slots
     * among 0..24, or-ed with the bitwise and of the two counters, all as
     * 32-bit values (`&` binds tighter than `|`).
     */
    method HashCode() returns (h: bv32)
      requires Valid()
      ensures h == HashOf(root, numNodes, numWords)
    {
      var sum: nat := 0;
      for i := 0 to ScannedSlots
        invariant sum == OccupiedSum(root, i)
      {
        if root.children[i].Some? {
          sum := sum + i;
        }
      }
      h := Bits32(sum) | (Bits32(numNodes) & Bits32(numWords));
    }

    /** `PartialEq::eq` as written: counters first, then the slot 0..24, both-sides-occupied comparison. */
    function Equals(other: Trie): (r: bool)
      reads this, other
      requires Valid() && other.Valid()
      ensures !r ==> numWords != other.numWords || numNodes != other.numNodes || !Compare(root, other.root)
      ensures !Compare(root, other.root) ==> !r
      ensures r ==> numWords == other.numWords && numNodes == other.numNodes
      ensures r ==> forall v :: ValidWord(v) && 'z' !in v && Lookup(root, v).Some? && Lookup(other.root, v).Some?
                      ==> FreqAt(root, v) == FreqAt(other.root, v)
      ensures numWords == other.numWords && numNodes == other.numNodes && root == other.root ==> r
    {
      CompareReflexive(root);
      CompareSeesSharedFreqs(root, other.root);
      if numWords != other.numWords then false
      else if numNodes != other.numNodes then false
      else Compare(root, other.root)
    }

    /** Equality as evidently intended: the counters and a comparison of all 26 slots that treats one-sided slots as differences. */
    function SameAs(other: Trie): (r: bool)
      reads this, other
      requires Valid() && other.Valid()
      ensures r <==> root == other.root
    {
      SameTreeIsEquality(root, other.root);
      numWords == other.numWords && numNodes == other.numNodes && SameTree(root, other.root)
    }
  }

  /** `==` is symmetric, as test_equals checks. */
  lemma EqualsSymmetric(a: Trie, b: Trie)
    requires a.Valid() && b.Valid()
    ensures a.Equals(b) == b.Equals(a)
  {
    CompareSymmetric(a.root, b.root);
  }

  /** The tries holding only "a" and only "b" are `==` as written, though their trees differ. */
  lemma EqualsIgnoresOneSidedSlots(x: string, y: string, a: Trie, b: Trie)
    requires x == "a" && y == "b"
    requires a.Valid() && b.Valid() && a.root == Singleton(x) && b.root == Singleton(y)
    ensures a.Equals(b) && !a.SameAs(b)
  {
    CompareIgnoresOneSidedSlots();
  }

  // ---------------------------------------------------------------------
  // Text of the listing

  /** Each word followed by a newline, as the helper appends them. */
  function Render(words: seq<string>): string {
    if words == [] then "" else words[0] + "\n" + Render(words[1..])
  }

  /** The words separated by newlines. */
  function Join(words: seq<string>): string {
    if words == [] then ""
    else if |words| == 1 then words[0]
    else words[0] + "\n" + Join(words[1..])
  }

  lemma {:induction false} RenderConcat(a: seq<string>, b: seq<string>)
    ensures Render(a + b) == Render(a) + Render(b)
  {
    if a != [] {
      assert (a + b)[1..] == a[1..] + b;
      RenderConcat(a[1..], b);
    } else {
      assert a + b == b;
    }
  }

  /** Regrouping a four-part string concatenation, a step the listing proofs use. */
  lemma ConcatShift(a: string, b: string, c: string, d: string)
    ensures a + b + c + d == a + (b + c + d)
  {
  }

  /** The text of one occupied slot: the holder line if the child stores a word, then the child's own listing. */
  lemma RenderSlot(node: Node, holder: string, i: nat)
    requires WellFormed(node) && i < ScannedSlots && node.children[i].Some?
    ensures var c := node.children[i].value; var h := holder + [c.data];
      Render(DepthFirstFrom(node, holder, ScannedSlots, i))
        == (if c.freq > 0 then h + "\n" else "") + Render(DepthFirst(c, h, ScannedSlots))
           + Render(DepthFirstFrom(node, holder, ScannedSlots, i + 1))
  {
    var c := node.children[i].value;
    var h := holder + [c.data];
    var own := if c.freq > 0 then [h] else [];
    RenderConcat(own + DepthFirst(c, h, ScannedSlots), DepthFirstFrom(node, holder, ScannedSlots, i + 1));
    RenderConcat(own, DepthFirst(c, h, ScannedSlots));
  }

  /** Popping the last character of the rendered listing leaves the joined listing. */
  lemma {:induction false} RenderJoin(words: seq<string>)
    ensures words != [] ==> Render(words) == Join(words) + "\n"
    ensures words == [] ==> Render(words) == Join(words) == ""
  {
    if |words| > 1 {
      RenderJoin(words[1..]);
    }
  }

  // ---------------------------------------------------------------------
  // Hash

  /** A count as a 32-bit value (`as i32` on a `u32`; the sum of at most 300 always fits). */
  function Bits32(x: nat): bv32 {
    if x < 0x1_0000_0000 then x as bv32 else (x % 0x1_0000_0000) as bv32
  }

  /** Sum of the indices of the occupied root slots below i. */
  function OccupiedSum(n: Node, i: nat): (sum: nat)
    requires WellFormed(n) && i <= ScannedSlots
    ensures sum <= 24 * i
  {
    if i == 0 then 0
    else OccupiedSum(n, i - 1) + (if n.children[i - 1].Some? then i - 1 else 0)
  }

  function HashOf(n: Node, nodes: nat, words: nat): bv32
    requires WellFormed(n)
  {
    Bits32(OccupiedSum(n, ScannedSlots)) | (Bits32(nodes) & Bits32(words))
  }

  /** The sum over a root with a single occupied slot k is k, once the scan has passed k. */
  lemma {:induction false} OccupiedSumOne(n: Node, k: nat, i: nat)
    requires WellFormed(n) && k < Alphabet && i <= ScannedSlots
    requires n.children[k].Some? && forall j :: 0 <= j < Alphabet && j != k ==> n.children[j].None?
    ensures OccupiedSum(n, i) == if k < i then k else 0
  {
    if i > 0 {
      OccupiedSumOne(n, k, i - 1);
    }
  }

  /**
   * What the hash of a trie holding one word w is made of: the index of w's
   * first letter (0 for z, whose slot the scan skips), its node count |w| + 1
   * and its word count 1.
   */
  lemma SingletonHash(w: string)
    requires ValidWord(w) && w != []
    ensures var n := Singleton(w);
      Size(n) == |w| + 1 && Terminals(n) == 1 &&
      OccupiedSum(n, ScannedSlots) == if Index(w[0]) < ScannedSlots then Index(w[0]) else 0
  {
    var n := Singleton(w);
    EmptyRootFacts(w);
    NewNodeFacts('\0', w);
    PutCreated(EmptyRoot(), w);
    PutSize(EmptyRoot(), w);
    PutNewWord(EmptyRoot(), w);
    PutTerminals(EmptyRoot(), w);
    OccupiedSumOne(n, Index(w[0]), ScannedSlots);
  }

  /** test_more_hash_code's first case: the tries holding only "dat" and only "far" hash to 3 and 5. */
  lemma OneWordHashes(dat: string, far: string)
    requires dat == "dat" && far == "far"
    ensures HashOf(Singleton(dat), Size(Singleton(dat)), Terminals(Singleton(dat))) == 3
    ensures HashOf(Singleton(far), Size(Singleton(far)), Terminals(Singleton(far))) == 5
  {
    SingletonHash(dat);
    SingletonHash(far);
  }

  /**
   * The tries holding only "a" and only "b", which `==` accepts, hash to 0
   * and 1: tries equal as written need not hash alike.
   */
  lemma EqualsButHashesDiffer(x: string, y: string, a: Trie, b: Trie)
    requires x == "a" && y == "b"
    requires a.Valid() && b.Valid() && a.root == Singleton(x) && b.root == Singleton(y)
    ensures a.Equals(b)
    ensures HashOf(a.root, a.numNodes, a.numWords) == 0 && HashOf(b.root, b.numNodes, b.numWords) == 1
  {
    EqualsIgnoresOneSidedSlots(x, y, a, b);
    TwoSingletonHashes(x, y);
  }

  lemma TwoSingletonHashes(x: string, y: string)
    requires x == "a" && y == "b"
    ensures Size(Singleton(x)) == Size(Singleton(y)) == 2 && Terminals(Singleton(x)) == Terminals(Singleton(y)) == 1
    ensures HashOf(Singleton(x), 2, 1) == 0 && HashOf(Singleton(y), 2, 1) == 1
  {
    SingletonHash(x);
    SingletonHash(y);
  }

  /** test_more_hash_code: the same two words added in either order give the same tree, so the tries are equal and hash alike. */
  lemma OrderIgnored(x: string, y: string, a: Trie, b: Trie)
    requires ValidWord(x) && ValidWord(y)
    requires a.Valid() && b.Valid()
    requires a.root == Insert(Insert(EmptyRoot(), x).node, y).node && b.root == Insert(Insert(EmptyRoot(), y).node, x).node
    ensures a.SameAs(b) && a.Equals(b)
    ensures HashOf(a.root, a.numNodes, a.numWords) == HashOf(b.root, b.numNodes, b.numWords)
  {
    EmptyRootFacts("");
    InsertCommutes(EmptyRoot(), x, y);
    CompareReflexive(a.root);
  }

  /** Tries with the same tree, the equality as evidently intended, hash alike. */
  lemma SameAsHashesAlike(a: Trie, b: Trie)
    requires a.Valid() && b.Valid() && a.SameAs(b)
    ensures HashOf(a.root, a.numNodes, a.numWords) == HashOf(b.root, b.numNodes, b.numWords)
  {
  }
}
