/**
 * Building the coding tree from a 128-slot frequency table: one leaf per
 * alphabet character with a nonzero count goes into a weight-ordered queue,
 * then the two lightest trees are merged until one tree remains
 * (HuffmanEncoder.buildTree). The queue is a sequence with extract-min; the
 * order among trees of equal weight is left open, as the comparator does.
 */
module TreeBuilding {
  import opened Options
  import opened HuffTrees

  /** The queue after the seeding loop has visited the characters 32 up to i - 1. */
  function Seeds(freq: seq<int>, i: int): (q: seq<HuffTree>)
    requires |freq| == 128 && 32 <= i <= 128
    ensures forall k :: 0 <= k < |q| ==> q[k].root.Leaf? && 32 <= q[k].root.sym as int < i
    ensures forall a, b :: 0 <= a < b < |q| ==> q[a].root.sym < q[b].root.sym
    decreases i
  {
    if i == 32 then []
    else
      Seeds(freq, i - 1)
      + (if freq[i - 1] != 0 then [HuffTree(Leaf((i - 1) as char, freq[i - 1]))] else [])
  }

  /** How many characters in 32 up to i - 1 have a nonzero count. */
  function NonZeroCount(freq: seq<int>, i: int): nat
    requires |freq| == 128 && 32 <= i <= 128
    decreases i
  {
    if i == 32 then 0 else NonZeroCount(freq, i - 1) + (if freq[i - 1] != 0 then 1 else 0)
  }

  /** The sum of the counts of the characters 32 up to i - 1. */
  function RangeTotal(freq: seq<int>, i: int): int
    requires |freq| == 128 && 32 <= i <= 128
    decreases i
  {
    if i == 32 then 0 else RangeTotal(freq, i - 1) + freq[i - 1]
  }

  /** The characters in 32 up to i - 1 with a nonzero count. */
  function Present(freq: seq<int>, i: int): (chars: set<char>)
    requires |freq| == 128 && 32 <= i <= 128
    ensures forall c :: c in chars <==> 32 <= c as int < i && freq[c as int] != 0
    decreases i
  {
    if i == 32 then {}
    else Present(freq, i - 1) + (if freq[i - 1] != 0 then {(i - 1) as char} else {})
  }

  function SumWeights(q: seq<HuffTree>): int {
    if q == [] then 0 else q[0].Weight() + SumWeights(q[1..])
  }

  function ForestLeaves(q: seq<HuffTree>): multiset<HuffNode> {
    if q == [] then multiset{} else LeavesOf(q[0].root) + ForestLeaves(q[1..])
  }

  /**
   * The shape of a tree merged from the seeds of freq: an internal root over one
   * leaf per present character, weights adding up, lighter child left. Which
   * merges made it (the greedy ones) is recorded by the trace Merge returns.
   */
  predicate IsMergeTreeFor(root: HuffNode, freq: seq<int>)
    requires |freq| == 128
  {
    && root.Internal?
    && WellFormed(root)
    && LighterLeft(root)
    && Symbols(root) == Present(freq, 128)
    && (forall x :: x in LeavesOf(root) ==> x.Leaf? && InAlphabet(x.sym) && x.weight == freq[x.sym as int])
    && root.weight == RangeTotal(freq, 128)
  }

  /** The seeded queue holds one tree per present character, and their weights add up to the counts. */
  lemma {:induction false} SeedsTotals(freq: seq<int>, i: int)
    requires |freq| == 128 && 32 <= i <= 128
    ensures |Seeds(freq, i)| == NonZeroCount(freq, i)
    ensures SumWeights(Seeds(freq, i)) == RangeTotal(freq, i)
    decreases i
  {
    if i > 32 {
      SeedsTotals(freq, i - 1);
      var extra := if freq[i - 1] != 0 then [HuffTree(Leaf((i - 1) as char, freq[i - 1]))] else [];
      AppendForest(Seeds(freq, i - 1), extra);
      if extra != [] {
        Singleton(extra[0]);
      }
    }
  }

  /** Seeding slot i - 1 adds its leaf to the queue's leaves exactly when its count is nonzero. */
  lemma SeedStep(freq: seq<int>, i: int)
    requires |freq| == 128 && 32 < i <= 128
    ensures ForestLeaves(Seeds(freq, i)) == ForestLeaves(Seeds(freq, i - 1)) +
      (if freq[i - 1] != 0 then multiset{Leaf((i - 1) as char, freq[i - 1])} else multiset{})
  {
    var q := Seeds(freq, i - 1);
    if freq[i - 1] != 0 {
      var t := HuffTree(Leaf((i - 1) as char, freq[i - 1]));
      AppendForest(q, [t]);
      Singleton(t);
    } else {
      assert Seeds(freq, i) == q;
    }
  }

  /** The leaves of the seeded queue: one per present character, weighted by its count. */
  lemma {:induction false} SeedsLeaves(freq: seq<int>, i: int)
    requires |freq| == 128 && 32 <= i <= 128
    ensures forall x :: x in ForestLeaves(Seeds(freq, i)) <==>
      x.Leaf? && InAlphabet(x.sym) && x.sym as int < i && freq[x.sym as int] != 0 && x.weight == freq[x.sym as int]
    decreases i
  {
    if i > 32 {
      SeedsLeaves(freq, i - 1);
      SeedStep(freq, i);
    }
  }

  /** Adding a leaf whose character is new keeps the characters unique. */
  lemma AddUnique(m: multiset<HuffNode>, x: HuffNode)
    requires UniqueSymbols(m)
    requires forall y :: y in m ==> y.Element() != x.Element()
    ensures UniqueSymbols(m + multiset{x})
  {
  }

  /** No character is seeded twice. */
  lemma {:induction false} SeedsUnique(freq: seq<int>, i: int)
    requires |freq| == 128 && 32 <= i <= 128
    ensures UniqueSymbols(ForestLeaves(Seeds(freq, i)))
    decreases i
  {
    if i > 32 {
      SeedsUnique(freq, i - 1);
      SeedsLeaves(freq, i - 1);
      SeedStep(freq, i);
      if freq[i - 1] != 0 {
        var x := Leaf((i - 1) as char, freq[i - 1]);
        AddUnique(ForestLeaves(Seeds(freq, i - 1)), x);
      }
    }
  }

  /** Every seeded tree is a single leaf holding an alphabet character. */
  lemma {:induction false} SeedsShaped(freq: seq<int>, i: int)
    requires |freq| == 128 && 32 <= i <= 128
    ensures forall t :: t in Seeds(freq, i) ==> t.root.Leaf? && InAlphabet(t.root.sym)
    ensures AllShaped(Seeds(freq, i))
    decreases i
  {
    if i > 32 {
      SeedsShaped(freq, i - 1);
    }
  }

  /** The number of present characters is the size of the set of present characters. */
  lemma {:induction false} PresentCount(freq: seq<int>, i: int)
    requires |freq| == 128 && 32 <= i <= 128
    ensures |Present(freq, i)| == NonZeroCount(freq, i)
    decreases i
  {
    if i > 32 {
      PresentCount(freq, i - 1);
      assert ((i - 1) as char) !in Present(freq, i - 1);
    }
  }

  lemma {:induction false} AppendForest(a: seq<HuffTree>, b: seq<HuffTree>)
    ensures SumWeights(a + b) == SumWeights(a) + SumWeights(b)
    ensures ForestLeaves(a + b) == ForestLeaves(a) + ForestLeaves(b)
  {
    if a == [] {
      assert a + b == b;
    } else {
      assert (a + b)[0] == a[0];
      assert (a + b)[1..] == a[1..] + b;
      AppendForest(a[1..], b);
    }
  }

  /** The queue with its i-th tree taken out. */
  function Without(q: seq<HuffTree>, i: int): seq<HuffTree>
    requires 0 <= i < |q|
  {
    q[..i] + q[i + 1..]
  }

  /** Taking the i-th tree out of a queue removes exactly its weight and its leaves. */
  lemma TakeOut(q: seq<HuffTree>, i: int)
    requires 0 <= i < |q|
    ensures SumWeights(q) == q[i].Weight() + SumWeights(Without(q, i))
    ensures ForestLeaves(q) == LeavesOf(q[i].root) + ForestLeaves(Without(q, i))
    ensures |Without(q, i)| == |q| - 1
    ensures forall t :: t in Without(q, i) ==> t in q
  {
    var front, back, m := q[..i], q[i + 1..], q[i];
    var mid := [m] + back;
    assert q == front + mid;
    AppendForest(front, mid);
    AppendForest([m], back);
    AppendForest(front, back);
    Singleton(m);
    assert SumWeights(q) == SumWeights(front) + SumWeights(mid);
    assert SumWeights(mid) == m.Weight() + SumWeights(back);
    assert ForestLeaves(q) == ForestLeaves(front) + ForestLeaves(mid);
    assert ForestLeaves(mid) == LeavesOf(m.root) + ForestLeaves(back);
  }

  /** No tree in q weighs less than q[i]. */
  predicate Lightest(q: seq<HuffTree>, i: int)
    requires 0 <= i < |q|
  {
    forall j :: 0 <= j < |q| ==> Compare(q[i], q[j]) <= 0
  }

  /** A non-empty queue has a tree that no other tree in it outweighs. */
  lemma {:induction false} MinimumExists(q: seq<HuffTree>)
    requires |q| > 0
    ensures exists i :: 0 <= i < |q| && Lightest(q, i)
  {
    if |q| == 1 {
      assert Lightest(q, 0);
    } else {
      var tail := q[1..];
      MinimumExists(tail);
      var k :| 0 <= k < |tail| && Lightest(tail, k);
      var m := if q[0].Weight() <= tail[k].Weight() then 0 else k + 1;
      forall j | 0 <= j < |q| ensures Compare(q[m], q[j]) <= 0 {
        if j > 0 {
          assert q[j] == tail[j - 1];
        }
      }
      assert Lightest(q, m);
    }
  }

  /**
   * PriorityQueue.remove under the weight comparator: takes out a tree that no
   * tree in the queue outweighs; which one of several equally light trees is
   * not fixed.
   */
  method RemoveMin(q: seq<HuffTree>) returns (m: HuffTree, rest: seq<HuffTree>, ghost at: int)
    requires |q| > 0
    ensures forall t :: t in q ==> Compare(m, t) <= 0
    ensures 0 <= at < |q| && q[at] == m && rest == Without(q, at)
  {
    MinimumExists(q);
    var i :| 0 <= i < |q| && Lightest(q, i);
    m, rest, at := q[i], q[..i] + q[i + 1..], i;
  }

  /** The shape every queued tree keeps: valid leaves, summed weights, lighter left children. */
  predicate AllShaped(q: seq<HuffTree>) {
    forall t :: t in q ==> ValidLeaves(t.root) && WeightsAdd(t.root) && LighterLeft(t.root)
  }

  /**
   * One round of the merge loop on q: take out the i-th tree, then the j-th
   * of what is left, and queue a node over the two, the first on the left.
   */
  function Round(q: seq<HuffTree>, i: int, j: int): seq<HuffTree>
    requires 0 <= i < |q| && 0 <= j < |q| - 1
  {
    var rest := Without(q, i);
    Without(rest, j) + [HuffTree(Internal(q[i].Weight() + rest[j].Weight(), q[i].root, rest[j].root))]
  }

  /** Round (i, j) takes a lightest tree of q, then a lightest tree of the rest. */
  predicate GreedyRound(q: seq<HuffTree>, i: int, j: int) {
    && 0 <= i < |q| && 0 <= j < |q| - 1
    && (forall t :: t in q ==> Compare(q[i], t) <= 0)
    && (forall t :: t in Without(q, i) ==> Compare(Without(q, i)[j], t) <= 0)
  }

  /** Doing the rounds in order, each a greedy one, turns queue q into queue last. */
  predicate GreedyTrace(q: seq<HuffTree>, rounds: seq<(int, int)>, last: seq<HuffTree>)
    decreases |rounds|
  {
    if rounds == [] then last == q
    else
      && GreedyRound(q, rounds[0].0, rounds[0].1)
      && GreedyTrace(Round(q, rounds[0].0, rounds[0].1), rounds[1..], last)
  }

  /** A greedy trace extended by one more greedy round. */
  lemma {:induction false} GreedyTraceSnoc(q: seq<HuffTree>, rounds: seq<(int, int)>, last: seq<HuffTree>, i: int, j: int)
    requires GreedyTrace(q, rounds, last) && GreedyRound(last, i, j)
    ensures GreedyTrace(q, rounds + [(i, j)], Round(last, i, j))
    decreases |rounds|
  {
    if rounds == [] {
      assert rounds + [(i, j)] == [(i, j)];
      assert [(i, j)][1..] == [];
    } else {
      var r := rounds[0];
      assert (rounds + [(i, j)])[0] == r;
      assert (rounds + [(i, j)])[1..] == rounds[1..] + [(i, j)];
      GreedyTraceSnoc(Round(q, r.0, r.1), rounds[1..], last, i, j);
    }
  }

  /** Every round of a trace shortens the queue by one. */
  lemma {:induction false} GreedyTraceLength(q: seq<HuffTree>, rounds: seq<(int, int)>, last: seq<HuffTree>)
    requires GreedyTrace(q, rounds, last)
    ensures |last| == |q| - |rounds|
    decreases |rounds|
  {
    if rounds != [] {
      var r := rounds[0];
      MergeStep(q, r.0, r.1);
      GreedyTraceLength(Round(q, r.0, r.1), rounds[1..], last);
    }
  }

  /** One round keeps the queue's leaves and total weight, shortens it by one, and ends it with an internal node. */
  lemma MergeStep(q: seq<HuffTree>, i: int, j: int)
    requires 0 <= i < |q| && 0 <= j < |q| - 1
    ensures ForestLeaves(Round(q, i, j)) == ForestLeaves(q)
    ensures SumWeights(Round(q, i, j)) == SumWeights(q)
    ensures |Round(q, i, j)| == |q| - 1
    ensures Round(q, i, j)[|q| - 2].root.Internal?
  {
    var rest := Without(q, i);
    var rest2 := Without(rest, j);
    var tmp3 := HuffTree(Internal(q[i].Weight() + rest[j].Weight(), q[i].root, rest[j].root));
    assert Round(q, i, j) == rest2 + [tmp3];
    TakeOut(q, i);
    TakeOut(rest, j);
    AppendForest(rest2, [tmp3]);
    Singleton(tmp3);
    assert LeavesOf(tmp3.root) == LeavesOf(q[i].root) + LeavesOf(rest[j].root);
  }

  /** A greedy round keeps every queued tree shaped: the first tree taken is the lighter and goes left. */
  lemma MergeStepShape(q: seq<HuffTree>, i: int, j: int)
    requires AllShaped(q) && GreedyRound(q, i, j)
    ensures AllShaped(Round(q, i, j))
  {
    var rest := Without(q, i);
    var rest2 := Without(rest, j);
    var tmp3 := HuffTree(Internal(q[i].Weight() + rest[j].Weight(), q[i].root, rest[j].root));
    assert Round(q, i, j) == rest2 + [tmp3];
    TakeOut(q, i);
    TakeOut(rest, j);
    assert rest[j] in q;
    assert LighterLeft(tmp3.root);
    forall t | t in rest2 + [tmp3]
      ensures ValidLeaves(t.root) && WeightsAdd(t.root) && LighterLeft(t.root)
    {
      if t != tmp3 {
        assert t in rest;
      }
    }
  }

  /** One pass of the merge loop's body: take the two lightest trees out and append their parent. */
  method MergeRound(q: seq<HuffTree>) returns (next: seq<HuffTree>, parent: HuffTree, ghost i: int, ghost j: int)
    requires |q| > 1
    ensures GreedyRound(q, i, j) && next == Round(q, i, j)
    ensures |next| == |q| - 1 && next[|q| - 2] == parent
  {
    var tmp1, rest1, at1 := RemoveMin(q);
    var tmp2, rest2, at2 := RemoveMin(rest1);
    parent := HuffTree(Internal(tmp1.Weight() + tmp2.Weight(), tmp1.root, tmp2.root));
    TwoRemovals(q, at1, rest1, at2, rest2);
    next, i, j := rest2 + [parent], at1, at2;
  }

  /** Two extract-mins in a row make a greedy round, and what they leave plus the new node is that round's queue. */
  lemma TwoRemovals(q: seq<HuffTree>, i: int, rest1: seq<HuffTree>, j: int, rest2: seq<HuffTree>)
    requires 0 <= i < |q| && rest1 == Without(q, i) && 0 <= j < |rest1| && rest2 == Without(rest1, j)
    requires forall t :: t in q ==> Compare(q[i], t) <= 0
    requires forall t :: t in rest1 ==> Compare(rest1[j], t) <= 0
    ensures GreedyRound(q, i, j)
    ensures rest2 + [HuffTree(Internal(q[i].Weight() + rest1[j].Weight(), q[i].root, rest1[j].root))] == Round(q, i, j)
  {
  }

  /** A greedy round keeps every invariant of the merge loop and extends its trace. */
  lemma RoundKeeps(queue: seq<HuffTree>, rounds: seq<(int, int)>, q: seq<HuffTree>, i: int, j: int)
    requires AllShaped(q) && GreedyTrace(queue, rounds, q) && GreedyRound(q, i, j)
    requires ForestLeaves(q) == ForestLeaves(queue) && SumWeights(q) == SumWeights(queue)
    ensures AllShaped(Round(q, i, j))
    ensures ForestLeaves(Round(q, i, j)) == ForestLeaves(queue)
    ensures SumWeights(Round(q, i, j)) == SumWeights(queue)
    ensures GreedyTrace(queue, rounds + [(i, j)], Round(q, i, j))
    ensures |Round(q, i, j)| == |q| - 1 && Round(q, i, j)[|q| - 2].root.Internal?
  {
    MergeStep(q, i, j);
    MergeStepShape(q, i, j);
    GreedyTraceSnoc(queue, rounds, q, i, j);
  }

  /**
   * The merge loop of buildTree: while two or more trees are queued, remove the
   * two lightest and queue a new internal node over them, the first removed on
   * the left. Answers the last tree made, or None when the loop never ran; the
   * ghost rounds record which trees each round took.
   */
  method Merge(queue: seq<HuffTree>) returns (tree: Option<HuffTree>, ghost rounds: seq<(int, int)>)
    requires AllShaped(queue)
    ensures tree.None? <==> |queue| < 2
    ensures tree.Some? ==>
      && tree.value.root.Internal?
      && AllShaped([tree.value])
      && LeavesOf(tree.value.root) == ForestLeaves(queue)
      && tree.value.Weight() == SumWeights(queue)
      && GreedyTrace(queue, rounds, [tree.value])
      && |rounds| == |queue| - 1
  {
    var q := queue;
    tree, rounds := None, [];
    while |q| > 1
      invariant AllShaped(q)
      invariant ForestLeaves(q) == ForestLeaves(queue)
      invariant SumWeights(q) == SumWeights(queue)
      invariant GreedyTrace(queue, rounds, q)
      invariant tree.None? ==> q == queue
      invariant tree.Some? ==> |queue| >= 2 && |q| >= 1 && q[|q| - 1] == tree.value && tree.value.root.Internal?
      decreases |q|
    {
      var next, tmp3, i, j := MergeRound(q);
      RoundKeeps(queue, rounds, q, i, j);
      q := next;
      tree, rounds := Some(tmp3), rounds + [(i, j)];
    }
    if tree.Some? {
      assert q == [tree.value];
      Singleton(tree.value);
      GreedyTraceLength(queue, rounds, q);
    }
  }

  lemma Singleton(t: HuffTree)
    ensures SumWeights([t]) == t.Weight()
    ensures ForestLeaves([t]) == LeavesOf(t.root)
  {
    assert [t][1..] == [];
  }

  /** The tree merged from the seeded queue has every property buildTree promises. */
  lemma MergedSeedsAreMergeTree(freq: seq<int>, root: HuffNode)
    requires |freq| == 128
    requires root.Internal? && AllShaped([HuffTree(root)])
    requires LeavesOf(root) == ForestLeaves(Seeds(freq, 128))
    requires root.weight == SumWeights(Seeds(freq, 128))
    ensures IsMergeTreeFor(root, freq)
  {
    assert HuffTree(root) in [HuffTree(root)];
    SeedsTotals(freq, 128);
    SeedsLeaves(freq, 128);
    SeedsUnique(freq, 128);
    LeavesAreLeaves(root);
    UniqueLeavesDistinct(root);
    SeedTreeSymbols(freq, root);
  }

  lemma SeedTreeSymbols(freq: seq<int>, root: HuffNode)
    requires |freq| == 128
    requires forall x :: x in LeavesOf(root) <==>
      x.Leaf? && InAlphabet(x.sym) && freq[x.sym as int] != 0 && x.weight == freq[x.sym as int]
    ensures Symbols(root) == Present(freq, 128)
  {
    LeavesAreLeaves(root);
    forall c | c in Present(freq, 128) ensures c in Symbols(root) {
      assert Leaf(c, freq[c as int]) in LeavesOf(root);
    }
  }
}
