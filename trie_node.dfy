/**
 * The frequency trie of src/spell_corrector/trie.rs, on values: a node, the
 * walk that adds a word (creating missing nodes and bumping the terminal
 * frequency), the walk that looks a word up, and the two counts the trie
 * object keeps in step with the tree.
 */
module TrieNode {
  import opened Wrappers
  import opened Letters

  /** A trie node: the letter it was created for, how many times the word ending here was added, one slot per letter. */
  datatype Node = Node(data: char, freq: nat, children: seq<Option<Node>>)

  /** What one insertion produces: the rebuilt subtree, how many nodes it created, whether the word's frequency was 0. */
  datatype Inserted = Inserted(node: Node, created: nat, newWord: bool)

  /** `Node::new(letter)`: frequency 0 and 26 empty slots. */
  function NewNode(c: char): (n: Node)
    ensures n.data == c && n.freq == 0 && |n.children| == Alphabet
    ensures forall k :: 0 <= k < Alphabet ==> n.children[k] == None
  {
    Node(c, 0, seq(Alphabet, _ => None))
  }

  /** The sentinel root of a new trie (`Node::default()`: character '\0', frequency 0). */
  function EmptyRoot(): Node {
    NewNode('\0')
  }

  /** Every node has 26 slots, and the child in slot k was created for letter k. */
  predicate WellFormed(n: Node) {
    |n.children| == Alphabet &&
    forall k :: 0 <= k < Alphabet && n.children[k].Some? ==>
      n.children[k].value.data == Letter(k) && WellFormed(n.children[k].value)
  }

  /** The child in slot k, or the node `add` would create there. */
  function Child(n: Node, k: nat): (c: Node)
    requires WellFormed(n) && k < Alphabet
    ensures WellFormed(c) && c.data == Letter(k)
    ensures n.children[k].Some? ==> c == n.children[k].value
    ensures n.children[k].None? ==> c == NewNode(Letter(k))
  {
    match n.children[k]
    case Some(c) => c
    case None => NewNode(Letter(k))
  }

  /**
   * The loop of `Trie::add` from node n on, for a non-empty rest of the word:
   * follow or create the slot of each letter, counting created nodes, and
   * at the last letter increment the frequency (`Node::increment_freq`),
   * reporting whether it was 0 before.
   */
  function Put(n: Node, w: string): (r: Inserted)
    requires WellFormed(n) && ValidWord(w)
    ensures WellFormed(r.node) && r.node.data == n.data
    decreases w
  {
    if w == [] then
      Inserted(n.(freq := n.freq + 1), 0, n.freq == 0)
    else
      var k := Index(w[0]);
      var sub := Put(Child(n, k), w[1..]);
      Inserted(n.(children := n.children[k := Some(sub.node)]),
               sub.created + (if n.children[k].None? then 1 else 0),
               sub.newWord)
  }

  /** `Trie::add` on the root: the empty word runs no loop iteration and changes nothing. */
  function Insert(n: Node, w: string): (r: Inserted)
    requires WellFormed(n) && ValidWord(w)
    ensures WellFormed(r.node) && r.node.data == n.data && r.node.freq == n.freq
  {
    if w == [] then Inserted(n, 0, false) else Put(n, w)
  }

  /**
   * The node at the end of w's path, if the path exists. A character outside
   * a..z has no slot; the methods never ask, as the source panics there.
   */
  function Lookup(n: Node, w: string): Option<Node> {
    if w == [] then Some(n)
    else if !IsLetter(w[0]) || Index(w[0]) >= |n.children| then None
    else match n.children[Index(w[0])]
      case None => None
      case Some(c) => Lookup(c, w[1..])
  }

  /** The frequency stored for w; 0 when the path breaks or ends at a mere prefix. */
  function FreqAt(n: Node, w: string): nat {
    match Lookup(n, w)
    case Some(m) => m.freq
    case None => 0
  }

  /** What `Trie::find` returns: the terminal node, only when its frequency is at least 1. */
  function FindNode(n: Node, w: string): (r: Option<Node>)
    ensures r.Some? <==> FreqAt(n, w) >= 1
    ensures r.Some? ==> Lookup(n, w) == r && r.value.freq == FreqAt(n, w)
  {
    match Lookup(n, w)
    case Some(m) => if m.freq >= 1 then Some(m) else None
    case None => None
  }

  /** How many nodes of w's path are absent below n. */
  function Missing(n: Node, w: string): nat {
    if w == [] then 0
    else if !IsLetter(w[0]) || Index(w[0]) >= |n.children| then |w|
    else match n.children[Index(w[0])]
      case None => |w|
      case Some(c) => Missing(c, w[1..])
  }

  /** Number of nodes in the tree, n included. */
  function Size(n: Node): nat
    decreases n, |n.children| + 1
  {
    1 + SizeFrom(n, 0)
  }

  function SizeFrom(n: Node, k: nat): nat
    decreases n, |n.children| - k
  {
    if k >= |n.children| then 0 else OptSize(n.children[k]) + SizeFrom(n, k + 1)
  }

  function OptSize(o: Option<Node>): nat {
    match o
    case None => 0
    case Some(c) => Size(c)
  }

  /** Number of nodes in the tree whose frequency is non-zero: the stored words. */
  function Terminals(n: Node): nat
    decreases n, |n.children| + 1
  {
    (if n.freq > 0 then 1 else 0) + TerminalsFrom(n, 0)
  }

  function TerminalsFrom(n: Node, k: nat): nat
    decreases n, |n.children| - k
  {
    if k >= |n.children| then 0 else OptTerminals(n.children[k]) + TerminalsFrom(n, k + 1)
  }

  function OptTerminals(o: Option<Node>): nat {
    match o
    case None => 0
    case Some(c) => Terminals(c)
  }

  // ---------------------------------------------------------------------
  // Sums over the child slots

  lemma {:induction false} SizeFromSame(a: Node, b: Node, k: nat)
    requires |a.children| == |b.children|
    requires forall i :: k <= i < |a.children| ==> a.children[i] == b.children[i]
    ensures SizeFrom(a, k) == SizeFrom(b, k)
    decreases |a.children| - k
  {
    if k < |a.children| {
      SizeFromSame(a, b, k + 1);
    }
  }

  lemma {:induction false} TerminalsFromSame(a: Node, b: Node, k: nat)
    requires |a.children| == |b.children|
    requires forall i :: k <= i < |a.children| ==> a.children[i] == b.children[i]
    ensures TerminalsFrom(a, k) == TerminalsFrom(b, k)
    decreases |a.children| - k
  {
    if k < |a.children| {
      TerminalsFromSame(a, b, k + 1);
    }
  }

  /** Replacing slot j changes the sum from k <= j by exactly the difference of the two slots. */
  lemma {:induction false} SizeFromUpdate(n: Node, j: nat, x: Option<Node>, k: nat)
    requires j < |n.children| && k <= j
    ensures SizeFrom(n.(children := n.children[j := x]), k) + OptSize(n.children[j])
         == SizeFrom(n, k) + OptSize(x)
    decreases |n.children| - k
  {
    var m := n.(children := n.children[j := x]);
    if k < j {
      SizeFromUpdate(n, j, x, k + 1);
    } else {
      SizeFromSame(m, n, k + 1);
    }
  }

  lemma {:induction false} TerminalsFromUpdate(n: Node, j: nat, x: Option<Node>, k: nat)
    requires j < |n.children| && k <= j
    ensures TerminalsFrom(n.(children := n.children[j := x]), k) + OptTerminals(n.children[j])
         == TerminalsFrom(n, k) + OptTerminals(x)
    decreases |n.children| - k
  {
    var m := n.(children := n.children[j := x]);
    if k < j {
      TerminalsFromUpdate(n, j, x, k + 1);
    } else {
      TerminalsFromSame(m, n, k + 1);
    }
  }

  lemma {:induction false} EmptySlotsFrom(n: Node, k: nat)
    requires forall i :: 0 <= i < |n.children| ==> n.children[i] == None
    ensures SizeFrom(n, k) == 0 && TerminalsFrom(n, k) == 0
    decreases |n.children| - k
  {
    if k < |n.children| {
      EmptySlotsFrom(n, k + 1);
    }
  }

  // ---------------------------------------------------------------------
  // A fresh node and a fresh trie

  /** A new node is one node, stores no word, and no word below it is found. */
  lemma NewNodeFacts(c: char, w: string)
    ensures Size(NewNode(c)) == 1 && Terminals(NewNode(c)) == 0
    ensures FreqAt(NewNode(c), w) == 0 && Missing(NewNode(c), w) == |w|
    ensures w != [] ==> Lookup(NewNode(c), w) == None
  {
    EmptySlotsFrom(NewNode(c), 0);
  }

  /** `Trie::new`: one node (the root), no words, and `find` answers None for every word. */
  lemma EmptyRootFacts(w: string)
    ensures WellFormed(EmptyRoot()) && EmptyRoot().freq == 0
    ensures Size(EmptyRoot()) == 1 && Terminals(EmptyRoot()) == 0
    ensures FindNode(EmptyRoot(), w) == None
  {
    NewNodeFacts('\0', w);
  }

  // ---------------------------------------------------------------------
  // What one insertion does

  /** The walk creates exactly the nodes missing from w's path. */
  lemma {:induction false} PutCreated(n: Node, w: string)
    requires WellFormed(n) && ValidWord(w)
    ensures Put(n, w).created == Missing(n, w)
    decreases w
  {
    if w != [] {
      var k := Index(w[0]);
      PutCreated(Child(n, k), w[1..]);
      if n.children[k].None? {
        NewNodeFacts(Letter(k), w[1..]);
      }
    }
  }

  /** The tree grows by exactly the number of nodes the walk reports created. */
  lemma {:induction false} PutSize(n: Node, w: string)
    requires WellFormed(n) && ValidWord(w)
    ensures Size(Put(n, w).node) == Size(n) + Put(n, w).created
    decreases w
  {
    if w == [] {
      SizeFromSame(Put(n, w).node, n, 0);
    } else {
      var k := Index(w[0]);
      var c := Child(n, k);
      PutSize(c, w[1..]);
      SizeFromUpdate(n, k, Some(Put(c, w[1..]).node), 0);
      if n.children[k].None? {
        NewNodeFacts(Letter(k), w[1..]);
      }
    }
  }

  /** The walk reports a new word exactly when w's stored frequency was 0. */
  lemma {:induction false} PutNewWord(n: Node, w: string)
    requires WellFormed(n) && ValidWord(w)
    ensures Put(n, w).newWord <==> FreqAt(n, w) == 0
    decreases w
  {
    if w != [] {
      var k := Index(w[0]);
      PutNewWord(Child(n, k), w[1..]);
      if n.children[k].None? {
        NewNodeFacts(Letter(k), w[1..]);
      }
    }
  }

  /** The number of stored words grows by one exactly when the walk reports a new word. */
  lemma {:induction false} PutTerminals(n: Node, w: string)
    requires WellFormed(n) && ValidWord(w)
    ensures Terminals(Put(n, w).node) == Terminals(n) + (if Put(n, w).newWord then 1 else 0)
    decreases w
  {
    if w == [] {
      TerminalsFromSame(Put(n, w).node, n, 0);
    } else {
      var k := Index(w[0]);
      var c := Child(n, k);
      PutTerminals(c, w[1..]);
      TerminalsFromUpdate(n, k, Some(Put(c, w[1..]).node), 0);
      if n.children[k].None? {
        NewNodeFacts(Letter(k), w[1..]);
      }
    }
  }

  /** The walk adds one to w's frequency and leaves every other word's frequency alone. */
  lemma {:induction false} PutFreq(n: Node, w: string, v: string)
    requires WellFormed(n) && ValidWord(w)
    ensures FreqAt(Put(n, w).node, v) == FreqAt(n, v) + (if v == w then 1 else 0)
    decreases w
  {
    if w != [] && v != [] && IsLetter(v[0]) {
      var k := Index(w[0]);
      var c := Child(n, k);
      if v[0] != w[0] {
        LetterOfIndex(v[0]);
        LetterOfIndex(w[0]);
        assert Index(v[0]) != k;
      } else {
        PutFreq(c, w[1..], v[1..]);
        assert v == w <==> v[1..] == w[1..] by {
          assert v == [v[0]] + v[1..] && w == [w[0]] + w[1..];
        }
        if n.children[k].None? {
          NewNodeFacts(Letter(k), v[1..]);
        }
      }
    }
  }

  /** Adding no nodes is the same as the whole path already existing (prefixes such as "car" of "cares"). */
  lemma {:induction false} MissingZeroIffPath(n: Node, w: string)
    ensures Missing(n, w) == 0 <==> Lookup(n, w).Some?
  {
    if w != [] && IsLetter(w[0]) && Index(w[0]) < |n.children| && n.children[Index(w[0])].Some? {
      MissingZeroIffPath(n.children[Index(w[0])].value, w[1..]);
    }
  }

  // ---------------------------------------------------------------------
  // Paths after an insertion

  /** A walk along p + s is a walk along p, then along s from where p ends. */
  lemma {:induction false} LookupSplit(n: Node, p: string, s: string)
    requires Lookup(n, p).Some?
    ensures Lookup(n, p + s) == Lookup(Lookup(n, p).value, s)
    ensures Missing(n, p + s) == Missing(Lookup(n, p).value, s)
    decreases p
  {
    if p == [] {
      assert p + s == s;
    } else {
      assert (p + s)[0] == p[0] && (p + s)[1..] == p[1..] + s;
      LookupSplit(n.children[Index(p[0])].value, p[1..], s);
    }
  }

  /** After adding w, every prefix of w has a path. */
  lemma {:induction false} PutPath(n: Node, w: string, i: nat)
    requires WellFormed(n) && ValidWord(w) && i <= |w|
    ensures Lookup(Put(n, w).node, w[..i]).Some?
    decreases w
  {
    if i > 0 {
      var k := Index(w[0]);
      assert w[..i][0] == w[0] && w[..i][1..] == w[1..][..i - 1];
      PutPath(Child(n, k), w[1..], i - 1);
    }
  }

  /** Adding w leaves the walk of a word starting with another letter as it was. */
  lemma PutOtherSlot(n: Node, w: string, v: string)
    requires WellFormed(n) && ValidWord(w) && w != [] && v != [] && v[0] != w[0]
    ensures Lookup(Put(n, w).node, v) == Lookup(n, v)
    ensures Missing(Put(n, w).node, v) == Missing(n, v)
  {
    if IsLetter(v[0]) {
      LetterOfIndex(v[0]);
      LetterOfIndex(w[0]);
    }
  }

  /** When w's last node is missing, adding w ends the path at a new node with frequency 1 and no children. */
  lemma {:induction false} PutFreshEnd(n: Node, w: string)
    requires WellFormed(n) && ValidWord(w) && w != [] && Missing(n, w) >= 1
    ensures Lookup(Put(n, w).node, w) == Some(NewNode(w[|w| - 1]).(freq := 1))
    decreases w
  {
    var k := Index(w[0]);
    LetterOfIndex(w[0]);
    if |w| > 1 {
      if n.children[k].None? {
        NewNodeFacts(Letter(k), w[1..]);
      }
      PutFreshEnd(Child(n, k), w[1..]);
    }
  }

  // ---------------------------------------------------------------------
  // Insertions commute

  lemma {:induction false} PutCommutes(n: Node, a: string, b: string)
    requires WellFormed(n) && ValidWord(a) && ValidWord(b)
    ensures Put(Put(n, a).node, b).node == Put(Put(n, b).node, a).node
    decreases a
  {
    if a == [] && b != [] {
      var k := Index(b[0]);
      assert Child(Put(n, a).node, k) == Child(n, k);
    } else if a != [] && b == [] {
      var k := Index(a[0]);
      assert Child(Put(n, b).node, k) == Child(n, k);
    } else if a != [] && b != [] {
      var ka, kb := Index(a[0]), Index(b[0]);
      var na, nb := Put(n, a).node, Put(n, b).node;
      if ka != kb {
        assert Child(na, kb) == Child(n, kb);
        assert Child(nb, ka) == Child(n, ka);
        var sa, sb := Some(Put(Child(n, ka), a[1..]).node), Some(Put(Child(n, kb), b[1..]).node);
        assert n.children[ka := sa][kb := sb] == n.children[kb := sb][ka := sa];
      } else {
        PutCommutes(Child(n, ka), a[1..], b[1..]);
      }
    }
  }

  /** The order in which two words are added does not matter. */
  lemma InsertCommutes(n: Node, a: string, b: string)
    requires WellFormed(n) && ValidWord(a) && ValidWord(b)
    ensures Insert(Insert(n, a).node, b).node == Insert(Insert(n, b).node, a).node
  {
    if a != [] && b != [] {
      PutCommutes(n, a, b);
    }
  }
}
