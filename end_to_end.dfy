/**
 * What the encoder promises once its stages are chained on a fresh object:
 * the counts are the character counts of the text, the tree is a merge tree
 * for them, and decoding the encoded text gives back every character of it
 * that lies in the 32..127 alphabet, in order.
 */
module EndToEnd {
  import opened Options
  import opened HuffTrees
  import opened TreeBuilding
  import opened CodeBook
  import opened Coding

  /** The frequency table a fresh encoder holds after counting s. */
  function Counts(s: string): (freq: seq<int>)
    requires InTable(s)
    ensures |freq| == 128
    ensures forall c :: 0 <= c < 128 ==> freq[c] == multiset(s)[c as char]
  {
    seq(128, c requires 0 <= c < 128 => multiset(s)[c as char])
  }

  /** The code table a fresh encoder starts with. */
  function NoCodes(): (table: seq<Option<string>>)
    ensures |table| == 128 && forall c :: 0 <= c < 128 ==> table[c] == None
  {
    seq(128, _ => None)
  }

  /** The characters of s inside the 32..127 alphabet, in order. */
  function AlphabetOnly(s: string): (r: string)
    ensures forall k :: 0 <= k < |r| ==> InAlphabet(r[k])
    ensures |r| <= |s|
  {
    if s == [] then []
    else (if InAlphabet(s[0]) then [s[0]] else []) + AlphabetOnly(s[1..])
  }

  /** Text made only of alphabet characters is left whole. */
  lemma {:induction false} AlphabetOnlyKeepsAlphabet(s: string)
    requires forall k :: 0 <= k < |s| ==> InAlphabet(s[k])
    ensures AlphabetOnly(s) == s
  {
    if s != [] {
      AlphabetOnlyKeepsAlphabet(s[1..]);
    }
  }

  /** Keeping the characters of a set that agrees with the alphabet on s is AlphabetOnly. */
  lemma {:induction false} KeepAlphabet(s: string, keep: set<char>)
    requires forall k :: 0 <= k < |s| ==> (s[k] in keep <==> InAlphabet(s[k]))
    ensures Keep(s, keep) == AlphabetOnly(s)
  {
    if s != [] {
      KeepAlphabet(s[1..], keep);
    }
  }

  /** The symbols of a merge tree for the counts of s are the alphabet characters of s. */
  lemma TreeSymbolsOfText(s: string, root: HuffNode)
    requires InTable(s) && IsMergeTreeFor(root, Counts(s))
    ensures forall k :: 0 <= k < |s| ==> (s[k] in Symbols(root) <==> InAlphabet(s[k]))
    ensures forall x :: x in Symbols(root) ==> InAlphabet(x) && x in multiset(s)
  {
    forall x | x in Symbols(root) ensures InAlphabet(x) && x in multiset(s) {
      assert x in Present(Counts(s), 128);
      assert (x as int) as char == x;
    }
    forall k | 0 <= k < |s|
      ensures s[k] in Symbols(root) <==> InAlphabet(s[k])
    {
      assert s[k] in multiset(s);
      assert (s[k] as int) as char == s[k];
    }
  }

  /**
   * The table traverse writes into a fresh code table holds each symbol's
   * root-to-leaf path and null for every other character.
   */
  lemma FreshTableCodes(root: HuffNode)
    requires root.Internal? && ValidLeaves(root) && DistinctSymbols(root)
    ensures Indexable(Writes(root, []))
    ensures forall c :: 0 <= c < 128 ==>
      ApplyWrites(NoCodes(), Writes(root, []))[c] ==
        (if c as char in Symbols(root) then Some(CodeMap(root)[c as char]) else None)
  {
    WritesIndexable(root, []);
    forall c | 0 <= c < 128
      ensures ApplyWrites(NoCodes(), Writes(root, []))[c] ==
        if c as char in Symbols(root) then Some(CodeMap(root)[c as char]) else None
    {
      TraverseFillsCodes(NoCodes(), root, [], c);
      if c as char in Symbols(root) {
        assert [] + CodeMap(root)[c as char] == CodeMap(root)[c as char];
      }
    }
  }

  /**
   * The round trip of a fresh encoder: build a tree for s, encode s with the
   * codes traverse writes, decode the bits with the same tree, and get back the
   * alphabet characters of s (control characters have no code, are encoded as
   * "null", and vanish).
   */
  lemma EncodeDecodeText(s: string, root: HuffNode)
    requires InTable(s) && IsMergeTreeFor(root, Counts(s))
    ensures Indexable(Writes(root, []))
    ensures DecodeFrom(root, root, EncodeWith(ApplyWrites(NoCodes(), Writes(root, [])), s)) == AlphabetOnly(s)
  {
    FreshTableCodes(root);
    DecodeEncodeWith(root, ApplyWrites(NoCodes(), Writes(root, [])), s);
    TreeSymbolsOfText(s, root);
    KeepAlphabet(s, Symbols(root));
  }

  /** Text made only of printable ASCII characters comes back whole. */
  lemma PrintableRoundTrip(s: string, root: HuffNode)
    requires InTable(s) && forall k :: 0 <= k < |s| ==> InAlphabet(s[k])
    requires IsMergeTreeFor(root, Counts(s))
    ensures Indexable(Writes(root, []))
    ensures DecodeFrom(root, root, EncodeWith(ApplyWrites(NoCodes(), Writes(root, [])), s)) == s
  {
    EncodeDecodeText(s, root);
    AlphabetOnlyKeepsAlphabet(s);
  }

  /**
   * For text made only of alphabet characters, what encodeFile writes with a
   * fresh encoder's table is the concatenation of the tree paths, and it
   * spends fewer bits per character than the tree has symbols.
   */
  lemma FreshEncodeIsEncode(s: string, root: HuffNode)
    requires InTable(s) && forall k :: 0 <= k < |s| ==> InAlphabet(s[k])
    requires IsMergeTreeFor(root, Counts(s))
    ensures Indexable(Writes(root, []))
    ensures forall k :: 0 <= k < |s| ==> s[k] in Symbols(root)
    ensures EncodeWith(ApplyWrites(NoCodes(), Writes(root, [])), s) == Encode(root, s)
    ensures |EncodeWith(ApplyWrites(NoCodes(), Writes(root, [])), s)| <= |s| * (|Symbols(root)| - 1)
  {
    FreshTableCodes(root);
    TreeSymbolsOfText(s, root);
    EncodeWithIsEncode(root, ApplyWrites(NoCodes(), Writes(root, [])), s);
    EncodeLength(root, s, |Symbols(root)| - 1);
  }

  /** Encoding with a tree spends fewer bits per character than the tree has symbols. */
  lemma {:induction false} EncodeLength(root: HuffNode, s: string, m: int)
    requires DistinctSymbols(root) && m == |Symbols(root)| - 1
    requires forall k :: 0 <= k < |s| ==> s[k] in Symbols(root)
    ensures |Encode(root, s)| <= |s| * m
  {
    if s != [] {
      var head, tail := CodeMap(root)[s[0]], Encode(root, s[1..]);
      EncodeLength(root, s[1..], m);
      CodeLengthBound(root, s[0]);
      assert |Encode(root, s)| == |head| + |tail|;
      MulStep(|s|, m, |head|, |tail|);
    }
  }

  lemma MulStep(n: int, m: int, a: int, b: int)
    requires a <= m && b <= (n - 1) * m
    ensures a + b <= n * m
  {
    assert (n - 1) * m + m == n * m;
  }

  /**
   * When every character of s lies in a set of alphabet characters, the tree
   * built from the counts of s has every character of s as a symbol and no
   * symbol outside the set.
   */
  lemma SymbolsWithin(s: string, root: HuffNode, chars: set<char>)
    requires InTable(s) && IsMergeTreeFor(root, Counts(s))
    requires Within(s, chars)
    ensures Symbols(root) <= chars
    ensures forall k :: 0 <= k < |s| ==> s[k] in Symbols(root)
  {
    forall x | x in Symbols(root) ensures x in chars {
      assert x in Present(Counts(s), 128);
      assert (x as int) as char == x;
      assert x in multiset(s);
      var k :| 0 <= k < |s| && s[k] == x;
    }
    TreeSymbolsOfText(s, root);
  }

  lemma {:induction false} SubsetSize(a: set<char>, b: set<char>)
    requires a <= b
    ensures |a| <= |b|
    decreases |a|
  {
    if a != {} {
      var x :| x in a;
      SubsetSize(a - {x}, b - {x});
    }
  }

  /** Every character of s is in chars, and chars holds only alphabet characters. */
  predicate Within(s: string, chars: set<char>) {
    && (forall k :: 0 <= k < |s| ==> s[k] in chars)
    && (forall x :: x in chars ==> InAlphabet(x))
  }

  lemma AbracadabraLetters()
    ensures |{'a', 'b', 'c', 'd', 'r'}| == 5
    ensures Within("abracadabra", {'a', 'b', 'c', 'd', 'r'})
  {
    var c2 := {'a', 'b'};
    var c4 := c2 + {'c', 'd'};
    assert |c4| == 4 by {
      assert c2 !! {'c', 'd'};
    }
    assert 'r' !in c4;
    assert c4 + {'r'} == {'a', 'b', 'c', 'd', 'r'};
  }

  /**
   * "abracadabra" (11 characters, 88 bits as 8-bit ASCII) encodes to at most
   * 44 bits with any merge tree built from its counts.
   */
  lemma AbracadabraCompresses(root: HuffNode)
    requires InTable("abracadabra") && IsMergeTreeFor(root, Counts("abracadabra"))
    ensures Indexable(Writes(root, []))
    ensures |EncodeWith(ApplyWrites(NoCodes(), Writes(root, [])), "abracadabra")| <= 44
  {
    var s, chars := "abracadabra", {'a', 'b', 'c', 'd', 'r'};
    AbracadabraLetters();
    SymbolsWithin(s, root, chars);
    SubsetSize(Symbols(root), chars);
    FreshTableCodes(root);
    EncodeWithIsEncode(root, ApplyWrites(NoCodes(), Writes(root, [])), s);
    EncodeLength(root, s, |Symbols(root)| - 1);
  }
}
