/**
 * Encoding text with the codes table (HuffmanEncoder.encodeFile) and decoding
 * a text of '0' and '1' by walking the tree (HuffmanEncoder.decodeFile), with
 * the round trip between them.
 */
module Coding {
  import opened Options
  import opened HuffTrees
  import opened CodeBook

  /** Every character of s indexes the 128-slot tables. */
  predicate InTable(s: string) {
    forall k :: 0 <= k < |s| ==> s[k] as int < 128
  }

  /** What appending a table slot to a StringBuilder adds: the code, or the text "null". */
  function CodeText(code: Option<string>): (t: string)
    ensures code.Some? ==> t == code.value
    ensures code.None? ==> |t| == 4 && !IsBits(t)
  {
    match code
    case Some(bits) => bits
    case None => assert "null"[0] !in "01"; "null"
  }

  /** Every character of s has a slot holding a bit string. */
  predicate AllCoded(table: seq<Option<string>>, s: string)
    requires |table| == 128 && InTable(s)
  {
    forall k :: 0 <= k < |s| ==> table[s[k] as int].Some? && IsBits(table[s[k] as int].value)
  }

  /** The texts of the slots of the characters of s, one after another. */
  function EncodeWith(table: seq<Option<string>>, s: string): (bits: string)
    requires |table| == 128 && InTable(s)
    ensures AllCoded(table, s) ==> IsBits(bits)
  {
    if s == [] then [] else CodeText(table[s[0] as int]) + EncodeWith(table, s[1..])
  }

  /** Encoding one more character appends its slot's text. */
  lemma {:induction false} EncodeWithSnoc(table: seq<Option<string>>, s: string, c: char)
    requires |table| == 128 && InTable(s) && c as int < 128
    ensures InTable(s + [c])
    ensures EncodeWith(table, s + [c]) == EncodeWith(table, s) + CodeText(table[c as int])
  {
    if s == [] {
      assert [] + [c] == [c];
      assert [c][1..] == [];
    } else {
      var t := s + [c];
      assert t[0] == s[0] && t[1..] == s[1..] + [c];
      EncodeWithSnoc(table, s[1..], c);
      var head := CodeText(table[s[0] as int]);
      assert EncodeWith(table, t) == head + EncodeWith(table, s[1..] + [c]);
      AppendAssoc(head, EncodeWith(table, s[1..]), CodeText(table[c as int]));
    }
  }

  /** The paths of the characters of s in the tree n, one after another. */
  function Encode(n: HuffNode, s: string): (bits: string)
    requires forall k :: 0 <= k < |s| ==> s[k] in Symbols(n)
    ensures IsBits(bits)
  {
    if s == [] then [] else CodeMap(n)[s[0]] + Encode(n, s[1..])
  }

  /**
   * A table whose slot of every symbol of root holds that symbol's path encodes
   * text made of symbols exactly as the tree does.
   */
  lemma {:induction false} EncodeWithIsEncode(root: HuffNode, table: seq<Option<string>>, s: string)
    requires |table| == 128 && InTable(s)
    requires forall k :: 0 <= k < |s| ==> s[k] in Symbols(root)
    requires forall c :: 0 <= c < 128 && c as char in Symbols(root) ==> table[c] == Some(CodeMap(root)[c as char])
    ensures EncodeWith(table, s) == Encode(root, s)
  {
    if s != [] {
      assert (s[0] as int) as char == s[0];
      EncodeWithIsEncode(root, table, s[1..]);
    }
  }

  /** One step of the decoder's cursor: '0' goes left, '1' goes right, anything else stays. */
  function Step(h: HuffNode, c: char): (next: HuffNode)
    requires h.Internal?
    ensures next == h <==> c != '0' && c != '1'
    ensures ValidLeaves(h) ==> ValidLeaves(next)
  {
    if c == '0' then assert h.left < h; h.left
    else if c == '1' then assert h.right < h; h.right
    else h
  }

  /**
   * The text decodeFile emits for bits when its cursor stands at h: after each
   * step, a node whose element is not '\0' is emitted and the cursor returns to
   * the root.
   */
  function DecodeFrom(root: HuffNode, h: HuffNode, bits: string): (text: string)
    requires root.Internal? && ValidLeaves(root)
    requires h.Internal? && ValidLeaves(h)
    ensures |text| <= |bits|
    ensures forall c :: c in text ==> InAlphabet(c)
    decreases |bits|
  {
    if bits == [] then []
    else
      var next := Step(h, bits[0]);
      if next.Element() != '\0' then [next.Element()] + DecodeFrom(root, root, bits[1..])
      else DecodeFrom(root, next, bits[1..])
  }

  /** One step of the decoder, read as a leaf test rather than an element test. */
  lemma DecodeStep(root: HuffNode, h: HuffNode, b: char, rest: string)
    requires root.Internal? && ValidLeaves(root)
    requires h.Internal? && ValidLeaves(h)
    ensures ValidLeaves(Step(h, b))
    ensures DecodeFrom(root, h, [b] + rest) ==
      if Step(h, b).Leaf? then [Step(h, b).sym] + DecodeFrom(root, root, rest)
      else DecodeFrom(root, Step(h, b), rest)
  {
    var next := Step(h, b);
    assert next.Element() == '\0' <==> next.Internal?;
    assert ([b] + rest)[1..] == rest;
  }

  /** The edge digit toward the leaf of c below h, and the child it leads to. */
  lemma ChildToward(h: HuffNode, c: char) returns (b: char, child: HuffNode)
    requires h.Internal? && DistinctSymbols(h) && c in Symbols(h)
    ensures child == Step(h, b) && child in {h.left, h.right}
    ensures DistinctSymbols(child) && c in Symbols(child)
    ensures ValidLeaves(h) ==> ValidLeaves(child)
    ensures CodeMap(h)[c] == [b] + CodeMap(child)[c]
  {
    CodeMapSplit(h, c);
    if c in Symbols(h.left) {
      b, child := '0', h.left;
    } else {
      b, child := '1', h.right;
    }
  }

  lemma ConsAppend(b: char, p: string, rest: string)
    ensures ([b] + p) + rest == [b] + (p + rest)
  {
  }

  lemma AppendAssoc(a: string, b: string, c: string)
    ensures (a + b) + c == a + (b + c)
  {
  }

  /** Reading a symbol's path from an internal node emits that symbol and returns to the root. */
  lemma {:induction false} DecodeSymbol(root: HuffNode, h: HuffNode, c: char, rest: string)
    requires root.Internal? && ValidLeaves(root)
    requires h.Internal? && ValidLeaves(h) && DistinctSymbols(h) && c in Symbols(h)
    ensures DecodeFrom(root, h, CodeMap(h)[c] + rest) == [c] + DecodeFrom(root, root, rest)
    decreases h
  {
    var b, child := ChildToward(h, c);
    var path := CodeMap(child)[c];
    ConsAppend(b, path, rest);
    DecodeStep(root, h, b, path + rest);
    if child.Internal? {
      DecodeSymbol(root, child, c, rest);
    } else {
      assert path == [];
      assert path + rest == rest;
    }
  }

  /** Decoding the encoding of s, followed by more bits, gives s and then what those bits decode to. */
  lemma {:induction false} DecodeEncode(root: HuffNode, s: string, rest: string)
    requires root.Internal? && ValidLeaves(root) && DistinctSymbols(root)
    requires forall k :: 0 <= k < |s| ==> s[k] in Symbols(root)
    ensures DecodeFrom(root, root, Encode(root, s) + rest) == s + DecodeFrom(root, root, rest)
  {
    if s == [] {
      assert Encode(root, s) + rest == rest;
      assert s + DecodeFrom(root, root, rest) == DecodeFrom(root, root, rest);
    } else {
      var code, tail := CodeMap(root)[s[0]], Encode(root, s[1..]);
      AppendAssoc(code, tail, rest);
      DecodeSymbol(root, root, s[0], tail + rest);
      DecodeEncode(root, s[1..], rest);
      assert s == [s[0]] + s[1..];
      AppendAssoc([s[0]], s[1..], DecodeFrom(root, root, rest));
    }
  }

  /** The round trip: decoding the encoding of s gives back s. */
  lemma RoundTrip(root: HuffNode, s: string)
    requires root.Internal? && ValidLeaves(root) && DistinctSymbols(root)
    requires forall k :: 0 <= k < |s| ==> s[k] in Symbols(root)
    ensures DecodeFrom(root, root, Encode(root, s)) == s
  {
    DecodeEncode(root, s, []);
    assert Encode(root, s) + [] == Encode(root, s);
    assert s + [] == s;
  }

  /** Bits that stop inside a path, short of its leaf, emit nothing. */
  lemma {:induction false} TrailingBitsEmitNothing(root: HuffNode, h: HuffNode, c: char, p: string)
    requires root.Internal? && ValidLeaves(root)
    requires h.Internal? && ValidLeaves(h) && DistinctSymbols(h) && c in Symbols(h)
    requires IsPrefix(p, CodeMap(h)[c]) && |p| < |CodeMap(h)[c]|
    ensures DecodeFrom(root, h, p) == []
    decreases h
  {
    if p != [] {
      var b, child := ChildToward(h, c);
      var path := CodeMap(child)[c];
      var tail := p[1..];
      PrefixTail(b, path, p);
      DecodeStep(root, h, b, tail);
      TrailingBitsEmitNothing(root, child, c, tail);
    }
  }

  lemma PrefixTail(b: char, path: string, p: string)
    requires p != [] && IsPrefix(p, [b] + path)
    ensures p == [b] + p[1..] && IsPrefix(p[1..], path)
  {
    assert p[0] == ([b] + path)[0];
    assert path[..|p| - 1] == ([b] + path)[1..|p|];
  }

  /** With the cursor at an internal node, a character other than '0' and '1' changes nothing. */
  lemma NonBitIgnored(root: HuffNode, h: HuffNode, c: char, rest: string)
    requires root.Internal? && ValidLeaves(root)
    requires h.Internal? && ValidLeaves(h)
    requires c != '0' && c != '1'
    ensures DecodeFrom(root, h, [c] + rest) == DecodeFrom(root, h, rest)
  {
    assert ([c] + rest)[1..] == rest;
  }

  /** The characters of s that lie in the set keep, in order. */
  function Keep(s: string, keep: set<char>): (r: string)
    ensures forall k :: 0 <= k < |r| ==> r[k] in keep
    ensures |r| <= |s|
  {
    if s == [] then []
    else (if s[0] in keep then [s[0]] else []) + Keep(s[1..], keep)
  }

  /** The text "null" that stands for a missing code decodes to nothing from the root. */
  lemma NullSkipped(root: HuffNode, rest: string)
    requires root.Internal? && ValidLeaves(root)
    ensures DecodeFrom(root, root, "null" + rest) == DecodeFrom(root, root, rest)
  {
    var r3, r2, r1 := ['l'] + rest, ['l', 'l'] + rest, ['u', 'l', 'l'] + rest;
    assert "null" + rest == ['n'] + r1;
    assert r1 == ['u'] + r2;
    assert r2 == ['l'] + r3;
    NonBitIgnored(root, root, 'n', r1);
    NonBitIgnored(root, root, 'u', r2);
    NonBitIgnored(root, root, 'l', r3);
    NonBitIgnored(root, root, 'l', rest);
  }

  /**
   * A table that holds the path of every symbol of root and nothing for other
   * characters encodes s to a text that decodes to the characters of s that are
   * symbols: a character without a code becomes "null", which the decoder skips.
   */
  lemma {:induction false} DecodeEncodeWith(root: HuffNode, table: seq<Option<string>>, s: string)
    requires root.Internal? && ValidLeaves(root) && DistinctSymbols(root)
    requires |table| == 128 && InTable(s)
    requires forall c :: 0 <= c < 128 ==>
      table[c] == if c as char in Symbols(root) then Some(CodeMap(root)[c as char]) else None
    ensures DecodeFrom(root, root, EncodeWith(table, s)) == Keep(s, Symbols(root))
  {
    if s != [] {
      var c, tail := s[0], EncodeWith(table, s[1..]);
      DecodeEncodeWith(root, table, s[1..]);
      assert EncodeWith(table, s) == CodeText(table[c as int]) + tail;
      assert (c as int) as char == c;
      if c in Symbols(root) {
        assert table[c as int] == Some(CodeMap(root)[c]);
        DecodeSymbol(root, root, c, tail);
      } else {
        assert table[c as int] == None;
        NullSkipped(root, tail);
      }
    }
  }
}
