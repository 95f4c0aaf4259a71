/**
 * The nodes and trees of the Huffman coder (classes HuffNode, HuffTree and
 * FrequencyComparator of HuffmanEncoder.java), and the shape a tree built from
 * character counts has.
 */
module HuffTrees {

  /**
   * A node of a coding tree. A leaf carries a character and its count; an
   * internal node carries a weight and exactly two children. A null child of
   * the Java node is the absence of children here.
   */
  datatype HuffNode =
    | Leaf(sym: char, weight: int)
    | Internal(weight: int, left: HuffNode, right: HuffNode)
  {
    /**
     * The node's character; an internal node answers with the sentinel '\0'.
     * When every leaf holds an alphabet character, the sentinel is a sound
     * leaf test.
     */
    function Element(): (e: char)
      ensures Leaf? ==> e == sym
      ensures ValidLeaves(this) ==> (e == '\0' <==> Internal?)
    {
      if Leaf? then sym else '\0'
    }
  }

  /** A tree is its root node; its element and weight are the root's. */
  datatype HuffTree = HuffTree(root: HuffNode) {
    function Element(): (e: char)
      ensures ValidLeaves(root) ==> (e == '\0' <==> root.Internal?)
    {
      root.Element()
    }

    /** A tree weighs what its root weighs: in a tree whose weights add up, its two subtrees together. */
    function Weight(): (w: int)
      ensures root.Leaf? ==> w == root.weight
      ensures root.Internal? && WeightsAdd(root) ==> w == root.left.weight + root.right.weight
    {
      root.weight
    }
  }

  /** The alphabet that receives codes: the characters 32 up to 127. */
  predicate InAlphabet(c: char) {
    32 <= c as int < 128
  }

  /** The weight-only ordering of the priority queue: negative, zero or positive. */
  function Compare(x: HuffTree, y: HuffTree): (r: int)
    ensures r == -1 || r == 0 || r == 1
    ensures r < 0 <==> x.Weight() < y.Weight()
    ensures r > 0 <==> y.Weight() < x.Weight()
  {
    if x.Weight() < y.Weight() then -1
    else if x.Weight() > y.Weight() then 1
    else 0
  }

  /** Every leaf holds a character of the alphabet (so never the sentinel). */
  predicate ValidLeaves(n: HuffNode) {
    match n
    case Leaf(s, _) => InAlphabet(s)
    case Internal(_, l, r) => ValidLeaves(l) && ValidLeaves(r)
  }

  /** Every internal node weighs as much as its two children together. */
  predicate WeightsAdd(n: HuffNode) {
    match n
    case Leaf(_, _) => true
    case Internal(w, l, r) => w == l.weight + r.weight && WeightsAdd(l) && WeightsAdd(r)
  }

  /** Every internal node's left child weighs no more than its right child. */
  predicate LighterLeft(n: HuffNode) {
    match n
    case Leaf(_, _) => true
    case Internal(_, l, r) => l.weight <= r.weight && LighterLeft(l) && LighterLeft(r)
  }

  /** The characters at the leaves. */
  function Symbols(n: HuffNode): set<char> {
    match n
    case Leaf(s, _) => {s}
    case Internal(_, l, r) => Symbols(l) + Symbols(r)
  }

  /** No character sits at two leaves. */
  predicate DistinctSymbols(n: HuffNode) {
    match n
    case Leaf(_, _) => true
    case Internal(_, l, r) => Symbols(l) !! Symbols(r) && DistinctSymbols(l) && DistinctSymbols(r)
  }

  predicate WellFormed(n: HuffNode) {
    ValidLeaves(n) && WeightsAdd(n) && DistinctSymbols(n)
  }

  /** The leaves, with their multiplicity. */
  function LeavesOf(n: HuffNode): multiset<HuffNode> {
    match n
    case Leaf(_, _) => multiset{n}
    case Internal(_, l, r) => LeavesOf(l) + LeavesOf(r)
  }

  /** All nodes of the tree rooted at n, n included. */
  function Nodes(n: HuffNode): set<HuffNode> {
    match n
    case Leaf(_, _) => {n}
    case Internal(_, l, r) => {n} + Nodes(l) + Nodes(r)
  }

  /** Testing the element against '\0' tells leaves from internal nodes anywhere in the tree. */
  lemma {:induction false} ElementTestSound(root: HuffNode, n: HuffNode)
    requires ValidLeaves(root) && n in Nodes(root)
    ensures n.Element() != '\0' <==> n.Leaf?
  {
    if n == root {
    } else {
      if n in Nodes(root.left) {
        ElementTestSound(root.left, n);
      } else {
        ElementTestSound(root.right, n);
      }
    }
  }

  /** Every leaf in the leaf multiset is a leaf, and its character is a symbol of the tree. */
  lemma {:induction false} LeavesAreLeaves(n: HuffNode)
    ensures forall x :: x in LeavesOf(n) ==> x.Leaf? && x.Element() in Symbols(n)
    ensures forall c :: c in Symbols(n) ==> exists x :: x in LeavesOf(n) && x.Element() == c
  {
    match n
    case Leaf(_, _) =>
      assert n in LeavesOf(n);
    case Internal(_, l, r) =>
      LeavesAreLeaves(l);
      LeavesAreLeaves(r);
  }

  /** A multiset of leaves in which each character occurs once. */
  predicate UniqueSymbols(m: multiset<HuffNode>) {
    forall x, y :: x in m && y in m && x.Element() == y.Element() ==> x == y && m[x] == 1
  }

  /** Leaves with pairwise different characters make a tree whose subtrees share no character. */
  lemma {:induction false} UniqueLeavesDistinct(n: HuffNode)
    requires forall x :: x in LeavesOf(n) ==> x.Leaf?
    requires UniqueSymbols(LeavesOf(n))
    ensures DistinctSymbols(n)
  {
    match n
    case Leaf(_, _) =>
    case Internal(_, l, r) =>
      var m := LeavesOf(n);
      assert UniqueSymbols(LeavesOf(l)) by {
        forall x, y | x in LeavesOf(l) && y in LeavesOf(l) && x.Element() == y.Element()
          ensures x == y && LeavesOf(l)[x] == 1
        {
          assert m[x] == LeavesOf(l)[x] + LeavesOf(r)[x];
        }
      }
      assert UniqueSymbols(LeavesOf(r)) by {
        forall x, y | x in LeavesOf(r) && y in LeavesOf(r) && x.Element() == y.Element()
          ensures x == y && LeavesOf(r)[x] == 1
        {
          assert m[x] == LeavesOf(l)[x] + LeavesOf(r)[x];
        }
      }
      UniqueLeavesDistinct(l);
      UniqueLeavesDistinct(r);
      LeavesAreLeaves(l);
      LeavesAreLeaves(r);
      forall c | c in Symbols(l)
        ensures c !in Symbols(r)
      {
        var x :| x in LeavesOf(l) && x.Element() == c;
        assert m[x] == LeavesOf(l)[x] + LeavesOf(r)[x];
        assert x !in LeavesOf(r);
      }
  }
}
