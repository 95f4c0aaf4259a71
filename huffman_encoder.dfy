/**
 * The HuffmanEncoder object: a 128-slot frequency table and a 128-slot code
 * table, both updated in place and never reset, and the five stages that use
 * them (counting, tree building, code derivation, encoding, decoding). The
 * input text is given as a string rather than read from a file.
 */
module Encoder {
  import opened Options
  import opened HuffTrees
  import opened TreeBuilding
  import opened CodeBook
  import opened Coding
  import opened Reports
  import opened EndToEnd

  class HuffmanEncoder {
    const frequencies: array<int>
    const codes: array<Option<string>>

    ghost predicate Valid()
      reads frequencies
    {
      && frequencies.Length == 128
      && codes.Length == 128
      && forall c :: 0 <= c < 128 ==> frequencies[c] >= 0
    }

    /** Both tables start empty: every count zero, every code null. */
    constructor ()
      ensures Valid() && fresh(frequencies) && fresh(codes)
      ensures forall c :: 0 <= c < 128 ==> frequencies[c] == 0 && codes[c] == None
    {
      frequencies := new int[128](_ => 0);
      codes := new Option<string>[128](_ => None);
    }

    /**
     * getFrequencies: each character read adds one to its slot, on top of
     * whatever earlier calls counted; then the report lists every alphabet
     * character with a nonzero count.
     */
    method GetFrequencies(input: string) returns (report: string)
      requires Valid() && InTable(input)
      modifies frequencies
      ensures Valid()
      ensures forall c :: 0 <= c < 128 ==> frequencies[c] == old(frequencies[c]) + multiset(input)[c as char]
      ensures report == FreqReport(frequencies[..], 128)
    {
      var k := 0;
      while k < |input|
        invariant 0 <= k <= |input| && Valid()
        invariant forall c :: 0 <= c < 128 ==> frequencies[c] == old(frequencies[c]) + multiset(input[..k])[c as char]
      {
        var c := input[k] as int;
        var i := frequencies[c];
        i := i + 1;
        frequencies[c] := i;
        assert input[..k + 1] == input[..k] + [input[k]];
        assert (c as char) == input[k];
        k := k + 1;
      }
      assert input[..k] == input;
      report := FrequencyReport();
    }

    /** The report loop of getFrequencies: one "c n" line per alphabet slot with a nonzero count. */
    method FrequencyReport() returns (report: string)
      requires Valid()
      ensures report == FreqReport(frequencies[..], 128)
    {
      ghost var counted := frequencies[..];
      report := [];
      var i := 32;
      while i < 128
        invariant 32 <= i <= 128
        invariant report == FreqReport(counted, i)
      {
        if frequencies[i] != 0 {
          var c := i as char;
          report := report + FreqLine(c, frequencies[i]);
        }
        i := i + 1;
      }
    }

    /** The seeding loop of buildTree: one leaf per alphabet character with a nonzero count. */
    method Seed() returns (queue: seq<HuffTree>)
      requires Valid()
      ensures queue == Seeds(frequencies[..], 128)
      ensures AllShaped(queue)
    {
      queue := [];
      var i := 32;
      while i < 128
        invariant 32 <= i <= 128
        invariant queue == Seeds(frequencies[..], i)
      {
        if frequencies[i] != 0 {
          var c := i as char;
          queue := queue + [HuffTree(Leaf(c, frequencies[i]))];
        }
        i := i + 1;
      }
      SeedsShaped(frequencies[..], 128);
    }

    /**
     * buildTree: count the input, seed the queue, merge. No tree (null) when
     * fewer than two alphabet characters have a nonzero count.
     */
    method BuildTree(input: string) returns (tree: Option<HuffTree>, ghost rounds: seq<(int, int)>)
      requires Valid() && InTable(input)
      modifies frequencies
      ensures Valid()
      ensures forall c :: 0 <= c < 128 ==> frequencies[c] == old(frequencies[c]) + multiset(input)[c as char]
      ensures tree.None? <==> |Present(frequencies[..], 128)| < 2
      ensures tree.Some? ==> IsMergeTreeFor(tree.value.root, frequencies[..])
      ensures tree.Some? ==> GreedyTrace(Seeds(frequencies[..], 128), rounds, [tree.value])
    {
      var freqTable := GetFrequencies(input);
      var queue := Seed();
      tree, rounds := Merge(queue);
      SeedsTotals(frequencies[..], 128);
      PresentCount(frequencies[..], 128);
      if tree.Some? {
        MergedSeedsAreMergeTree(frequencies[..], tree.value.root);
      }
    }

    /**
     * traverse: below the internal node h, write code + "0" into the slot of a
     * leaf left child and code + "1" into that of a leaf right child, then recur
     * into internal children with the extended code.
     */
    method Traverse(h: HuffNode, code: string)
      requires Valid() && h.Internal? && ValidLeaves(h)
      modifies codes
      ensures Valid()
      ensures Indexable(Writes(h, code))
      ensures codes[..] == ApplyWrites(old(codes[..]), Writes(h, code))
      decreases h
    {
      var l, r := h.left, h.right;
      WritesIndexable(h, code);
      ghost var first := if l.Element() != '\0' then [(l.Element(), code + ['0'])] else [];
      ghost var second := if r.Element() != '\0' then [(r.Element(), code + ['1'])] else [];
      ghost var third := if l.Element() == '\0' then Writes(l, code + ['0']) else [];
      ghost var fourth := if r.Element() == '\0' then Writes(r, code + ['1']) else [];
      assert Writes(h, code) == first + second + third + fourth;
      if l.Internal? {
        WritesIndexable(l, code + ['0']);
      }
      if r.Internal? {
        WritesIndexable(r, code + ['1']);
      }
      ghost var t0 := codes[..];
      if l.Element() != '\0' {
        var c := l.Element();
        var i := c as int;
        codes[i] := Some(code + "0");
      }
      ghost var t1 := codes[..];
      assert t1 == ApplyWrites(t0, first);
      if r.Element() != '\0' {
        var c := r.Element();
        var i := c as int;
        codes[i] := Some(code + "1");
      }
      ghost var t2 := codes[..];
      assert t2 == ApplyWrites(t1, second);
      if l.Element() == '\0' {
        Traverse(l, code + "0");
      }
      ghost var t3 := codes[..];
      assert t3 == ApplyWrites(t2, third);
      if r.Element() == '\0' {
        Traverse(r, code + "1");
      }
      assert codes[..] == ApplyWrites(t3, fourth);
      ApplyWritesAppend(t0, first, second);
      ApplyWritesAppend(t0, first + second, third);
      ApplyWritesAppend(t0, first + second + third, fourth);
    }

    /**
     * traverseHuffmanTree: fill the code table from the root with the empty
     * prefix. For a tree with distinct symbols, each symbol's slot then holds
     * its root-to-leaf path and every other slot is as it was. The report lists
     * every alphabet slot that holds a code.
     */
    method TraverseHuffmanTree(huffTree: HuffTree) returns (report: string)
      requires Valid() && huffTree.root.Internal? && ValidLeaves(huffTree.root)
      modifies codes
      ensures Valid()
      ensures Indexable(Writes(huffTree.root, []))
      ensures codes[..] == ApplyWrites(old(codes[..]), Writes(huffTree.root, []))
      ensures DistinctSymbols(huffTree.root) ==> forall c :: 0 <= c < 128 ==>
        codes[c] == if c as char in Symbols(huffTree.root) then Some(CodeMap(huffTree.root)[c as char]) else old(codes[c])
      ensures report == CodeReport(codes[..], 128)
    {
      Traverse(huffTree.root, "");
      if DistinctSymbols(huffTree.root) {
        forall c | 0 <= c < 128
          ensures codes[c] == if c as char in Symbols(huffTree.root) then Some(CodeMap(huffTree.root)[c as char]) else old(codes[c])
        {
          TraverseFillsCodes(old(codes[..]), huffTree.root, [], c);
          if c as char in Symbols(huffTree.root) {
            assert [] + CodeMap(huffTree.root)[c as char] == CodeMap(huffTree.root)[c as char];
          }
        }
      }
      report := CodeTableReport();
    }

    /** The report loop of traverseHuffmanTree: one "c code" line per alphabet slot holding a code. */
    method CodeTableReport() returns (report: string)
      requires Valid()
      ensures report == CodeReport(codes[..], 128)
    {
      ghost var filled := codes[..];
      report := [];
      var i := 32;
      while i < 128
        invariant 32 <= i <= 128
        invariant report == CodeReport(filled, i)
      {
        if codes[i].Some? {
          var c := i as char;
          report := report + CodeLine(c, codes[i].value);
        }
        i := i + 1;
      }
    }

    /**
     * encodeFile: fill the code table from the tree, then append the slot of
     * each input character in order (a null slot appends the text "null").
     */
    method EncodeFile(input: string, huffTree: HuffTree) returns (bitStream: string)
      requires Valid() && InTable(input)
      requires huffTree.root.Internal? && ValidLeaves(huffTree.root)
      modifies codes
      ensures Valid()
      ensures Indexable(Writes(huffTree.root, []))
      ensures codes[..] == ApplyWrites(old(codes[..]), Writes(huffTree.root, []))
      ensures bitStream == EncodeWith(codes[..], input)
    {
      var codeTable := TraverseHuffmanTree(huffTree);
      bitStream := EncodeText(input);
    }

    /** The append loop of encodeFile: the slot text of each input character, in order. */
    method EncodeText(input: string) returns (bitStream: string)
      requires Valid() && InTable(input)
      ensures bitStream == EncodeWith(codes[..], input)
    {
      ghost var filled := codes[..];
      bitStream := [];
      var k := 0;
      while k < |input|
        invariant 0 <= k <= |input|
        invariant bitStream == EncodeWith(filled, input[..k])
      {
        var c := input[k] as int;
        var code := codes[c];
        EncodeWithSnoc(filled, input[..k], input[k]);
        assert input[..k + 1] == input[..k] + [input[k]];
        bitStream := bitStream + CodeText(code);
        k := k + 1;
      }
      assert input[..k] == input;
    }

    /**
     * decodeFile: walk from the root, left on '0' and right on '1'; on reaching
     * a node whose element is not '\0', emit it and go back to the root.
     */
    method DecodeFile(code: string, huffTree: HuffTree) returns (text: string)
      requires huffTree.root.Internal? && ValidLeaves(huffTree.root)
      ensures text == DecodeFrom(huffTree.root, huffTree.root, code)
    {
      var root := huffTree.root;
      var h := root;
      text := [];
      var i := 0;
      while i < |code|
        invariant 0 <= i <= |code|
        invariant h.Internal? && ValidLeaves(h)
        invariant text + DecodeFrom(root, h, code[i..]) == DecodeFrom(root, root, code)
      {
        var c := code[i];
        ghost var from := h;
        DecodeStep(root, h, c, code[i + 1..]);
        assert code[i..] == [c] + code[i + 1..];
        if c == '0' {
          h := h.left;
        }
        if c == '1' {
          h := h.right;
        }
        assert h == Step(from, c);
        if h.Element() != '\0' {
          text := text + [h.Element()];
          h := root;
        }
        i := i + 1;
      }
      assert code[i..] == [];
      assert text + [] == text;
    }
  }

  /** Counting s on top of an all-zero table gives the counts of s. */
  lemma CountedFromZero(before: seq<int>, after: seq<int>, s: string)
    requires InTable(s) && |before| == 128 && |after| == 128
    requires forall c :: 0 <= c < 128 ==> before[c] == 0
    requires forall c :: 0 <= c < 128 ==> after[c] == before[c] + multiset(s)[c as char]
    ensures after == Counts(s)
  {
  }

  /**
   * The stages chained on a fresh encoder: count s and build the tree, then
   * encode s and decode the bits with that tree. There is no tree when s has
   * fewer than two distinct alphabet characters; otherwise the decoded text is
   * s without its control characters.
   */
  method FreshRoundTrip(s: string) returns (text: Option<string>)
    requires InTable(s)
    ensures text.None? <==> |Present(Counts(s), 128)| < 2
    ensures text.Some? ==> text.value == AlphabetOnly(s)
  {
    var encoder := new HuffmanEncoder();
    assert encoder.codes[..] == NoCodes();
    ghost var before := encoder.frequencies[..];
    var tree;
    ghost var rounds;
    tree, rounds := encoder.BuildTree(s);
    CountedFromZero(before, encoder.frequencies[..], s);
    if tree.None? {
      return None;
    }
    EncodeDecodeText(s, tree.value.root);
    var bits := encoder.EncodeFile(s, tree.value);
    var decoded := encoder.DecodeFile(bits, tree.value);
    text := Some(decoded);
  }
}
