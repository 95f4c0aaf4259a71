/**
 * The code table derived from a tree (HuffmanEncoder.traverse): the path from
 * the root to each leaf, '0' for a left edge and '1' for a right edge; and the
 * order in which traverse writes those paths into the 128-slot codes array.
 */
module CodeBook {
  import opened Options
  import opened HuffTrees

  /** A text made of the digits '0' and '1' only. */
  predicate IsBits(s: string) {
    forall k :: 0 <= k < |s| ==> s[k] == '0' || s[k] == '1'
  }

  /** p is a prefix of s. */
  predicate IsPrefix(p: string, s: string) {
    |p| <= |s| && s[..|p|] == p
  }

  /** Each code of m with the digit b put in front. */
  function Prefixed(b: char, m: map<char, string>): (r: map<char, string>)
    ensures r.Keys == m.Keys
    ensures forall c :: c in m ==> r[c] == [b] + m[c]
    ensures (b == '0' || b == '1') && (forall c :: c in m ==> IsBits(m[c])) ==>
      forall c :: c in r ==> IsBits(r[c])
  {
    map c | c in m :: [b] + m[c]
  }

  /** The root-to-leaf path of every leaf symbol of n. */
  function CodeMap(n: HuffNode): (codes: map<char, string>)
    ensures codes.Keys == Symbols(n)
    ensures forall c :: c in codes ==> IsBits(codes[c])
  {
    match n
    case Leaf(s, _) => map[s := []]
    case Internal(_, l, r) => Prefixed('0', CodeMap(l)) + Prefixed('1', CodeMap(r))
  }

  /** Below an internal node with distinct symbols, a code is the edge digit followed by the child's code. */
  lemma CodeMapSplit(n: HuffNode, c: char)
    requires n.Internal? && DistinctSymbols(n) && c in Symbols(n)
    ensures c in Symbols(n.left) ==> CodeMap(n)[c] == ['0'] + CodeMap(n.left)[c]
    ensures c in Symbols(n.right) ==> CodeMap(n)[c] == ['1'] + CodeMap(n.right)[c]
  {
  }

  /** Below an internal root every code is non-empty. */
  lemma CodesNonEmpty(n: HuffNode, c: char)
    requires n.Internal? && c in Symbols(n)
    ensures |CodeMap(n)[c]| > 0
  {
  }

  /** Dropping a common first digit keeps the prefix relation. */
  lemma PrefixCons(x: char, p: string, s: string)
    requires IsPrefix([x] + p, [x] + s)
    ensures IsPrefix(p, s)
  {
    assert s[..|p|] == ([x] + s)[1..|p| + 1];
  }

  /** No code is a prefix of the code of another symbol. */
  lemma {:induction false} PrefixFree(n: HuffNode, a: char, b: char)
    requires DistinctSymbols(n) && a in Symbols(n) && b in Symbols(n) && a != b
    ensures !IsPrefix(CodeMap(n)[a], CodeMap(n)[b])
  {
    match n
    case Internal(_, l, r) =>
      CodeMapSplit(n, a);
      CodeMapSplit(n, b);
      var ca, cb := CodeMap(n)[a], CodeMap(n)[b];
      if a in Symbols(l) && b in Symbols(l) {
        PrefixFree(l, a, b);
        if IsPrefix(ca, cb) {
          PrefixCons('0', CodeMap(l)[a], CodeMap(l)[b]);
        }
      } else if a in Symbols(r) && b in Symbols(r) {
        PrefixFree(r, a, b);
        if IsPrefix(ca, cb) {
          PrefixCons('1', CodeMap(r)[a], CodeMap(r)[b]);
        }
      } else {
        assert ca[0] != cb[0];
      }
  }

  /** A code is no longer than the number of other symbols in the tree. */
  lemma {:induction false} CodeLengthBound(n: HuffNode, c: char)
    requires DistinctSymbols(n) && c in Symbols(n)
    ensures |CodeMap(n)[c]| < |Symbols(n)|
  {
    match n
    case Leaf(_, _) =>
    case Internal(_, l, r) =>
      CodeMapSplit(n, c);
      assert |Symbols(n)| == |Symbols(l)| + |Symbols(r)|;
      assert |Symbols(l)| >= 1 by { LeafSymbol(l); }
      assert |Symbols(r)| >= 1 by { LeafSymbol(r); }
      if c in Symbols(l) {
        CodeLengthBound(l, c);
      } else {
        CodeLengthBound(r, c);
      }
  }

  /** Every tree has at least one symbol. */
  lemma {:induction false} LeafSymbol(n: HuffNode)
    ensures Symbols(n) != {}
  {
    match n
    case Leaf(_, _) =>
    case Internal(_, l, _) => LeafSymbol(l);
  }

  /**
   * The writes traverse(h, code) makes into the codes array, in order: the left
   * child's code if it is a leaf, then the right child's, then everything the
   * recursion into an internal left child writes, then into the right one.
   */
  function Writes(h: HuffNode, code: string): (ws: seq<(char, string)>)
    requires h.Internal? && ValidLeaves(h)
    ensures |ws| == |LeavesOf(h)|
    decreases h
  {
    var l, r := h.left, h.right;
    (if l.Element() != '\0' then [(l.Element(), code + ['0'])] else [])
    + (if r.Element() != '\0' then [(r.Element(), code + ['1'])] else [])
    + (if l.Element() == '\0' then Writes(l, code + ['0']) else [])
    + (if r.Element() == '\0' then Writes(r, code + ['1']) else [])
  }

  /** Each written character indexes the table. */
  predicate Indexable(ws: seq<(char, string)>) {
    forall k :: 0 <= k < |ws| ==> ws[k].0 as int < 128
  }

  /** The 128-slot codes table after the writes ws, one after another. */
  function ApplyWrites(table: seq<Option<string>>, ws: seq<(char, string)>): (r: seq<Option<string>>)
    requires |table| == 128 && Indexable(ws)
    ensures |r| == 128
    ensures forall c :: 0 <= c < 128 && table[c].Some? ==> r[c].Some?
    decreases |ws|
  {
    if ws == [] then table
    else ApplyWrites(table[ws[0].0 as int := Some(ws[0].1)], ws[1..])
  }

  lemma {:induction false} ApplyWritesAppend(table: seq<Option<string>>, a: seq<(char, string)>, b: seq<(char, string)>)
    requires |table| == 128 && Indexable(a) && Indexable(b)
    ensures Indexable(a + b)
    ensures ApplyWrites(table, a + b) == ApplyWrites(ApplyWrites(table, a), b)
    decreases |a|
  {
    if a != [] {
      assert (a + b)[0] == a[0];
      assert (a + b)[1..] == a[1..] + b;
      ApplyWritesAppend(table[a[0].0 as int := Some(a[0].1)], a[1..], b);
    } else {
      assert a + b == b;
    }
  }

  /** Where all writes to slot c agree on v, the slot ends as Some(v) if written and unchanged otherwise. */
  lemma {:induction false} ApplyWritesAt(table: seq<Option<string>>, ws: seq<(char, string)>, c: char, v: string)
    requires |table| == 128 && Indexable(ws) && c as int < 128
    requires forall w :: w in ws && w.0 == c ==> w.1 == v
    ensures ApplyWrites(table, ws)[c as int] ==
      if exists w :: w in ws && w.0 == c then Some(v) else table[c as int]
    decreases |ws|
  {
    if ws != [] {
      var t := table[ws[0].0 as int := Some(ws[0].1)];
      ApplyWritesAt(t, ws[1..], c, v);
      assert forall w :: w in ws[1..] ==> w in ws;
      if ws[0].0 == c {
        assert ws[0] in ws;
      } else {
        assert (ws[0].0 as int) != c as int;
        assert forall w :: w in ws && w.0 == c ==> w in ws[1..];
      }
    }
  }

  /** A write of traverse(h, code) comes from one of the four steps of its body. */
  lemma WritesMember(h: HuffNode, code: string, w: (char, string))
    requires h.Internal? && ValidLeaves(h) && w in Writes(h, code)
    ensures || (h.left.Leaf? && w == (h.left.sym, code + ['0']))
            || (h.right.Leaf? && w == (h.right.sym, code + ['1']))
            || (h.left.Internal? && w in Writes(h.left, code + ['0']))
            || (h.right.Internal? && w in Writes(h.right, code + ['1']))
  {
  }

  /** Every write traverse makes puts the prefix followed by a symbol's path into that symbol's slot. */
  lemma {:induction false} WriteIsCode(h: HuffNode, code: string, w: (char, string))
    requires h.Internal? && ValidLeaves(h) && DistinctSymbols(h) && w in Writes(h, code)
    ensures w.0 in Symbols(h) && w.1 == code + CodeMap(h)[w.0]
    decreases h
  {
    var l, r := h.left, h.right;
    WritesMember(h, code, w);
    if l.Leaf? && w == (l.sym, code + ['0']) {
      CodeMapSplit(h, l.sym);
    } else if r.Leaf? && w == (r.sym, code + ['1']) {
      CodeMapSplit(h, r.sym);
    } else if l.Internal? && w in Writes(l, code + ['0']) {
      WriteIsCode(l, code + ['0'], w);
      CodeMapSplit(h, w.0);
      Reassociate(code, '0', CodeMap(l)[w.0]);
    } else {
      WriteIsCode(r, code + ['1'], w);
      CodeMapSplit(h, w.0);
      Reassociate(code, '1', CodeMap(r)[w.0]);
    }
  }

  lemma Reassociate(code: string, b: char, p: string)
    ensures code + [b] + p == code + ([b] + p)
  {
  }

  /** traverse writes the slot of every symbol of the tree. */
  lemma {:induction false} WritesCover(h: HuffNode, code: string)
    requires h.Internal? && ValidLeaves(h)
    ensures forall c :: c in Symbols(h) ==> exists w :: w in Writes(h, code) && w.0 == c
    decreases h
  {
    var l, r := h.left, h.right;
    forall c | c in Symbols(h)
      ensures exists w :: w in Writes(h, code) && w.0 == c
    {
      if c in Symbols(l) {
        if l.Leaf? {
          assert (c, code + ['0']) in Writes(h, code);
        } else {
          WritesCover(l, code + ['0']);
          var w :| w in Writes(l, code + ['0']) && w.0 == c;
          assert w in Writes(h, code);
        }
      } else {
        assert c in Symbols(r);
        if r.Leaf? {
          assert (c, code + ['1']) in Writes(h, code);
        } else {
          WritesCover(r, code + ['1']);
          var w :| w in Writes(r, code + ['1']) && w.0 == c;
          assert w in Writes(h, code);
        }
      }
    }
  }

  /** Each written character is a symbol of the tree, so below 128. */
  lemma {:induction false} WritesIndexable(h: HuffNode, code: string)
    requires h.Internal? && ValidLeaves(h)
    ensures Indexable(Writes(h, code))
    ensures forall w :: w in Writes(h, code) ==> w.0 in Symbols(h)
    decreases h
  {
    if h.left.Internal? {
      WritesIndexable(h.left, code + ['0']);
    }
    if h.right.Internal? {
      WritesIndexable(h.right, code + ['1']);
    }
  }

  /**
   * After traverse over a tree with distinct symbols, slot c holds the prefix
   * followed by c's path when c is a leaf symbol, and is untouched otherwise.
   */
  lemma TraverseFillsCodes(table: seq<Option<string>>, h: HuffNode, code: string, c: int)
    requires |table| == 128 && 0 <= c < 128
    requires h.Internal? && ValidLeaves(h) && DistinctSymbols(h)
    ensures Indexable(Writes(h, code))
    ensures ApplyWrites(table, Writes(h, code))[c] ==
      if c as char in Symbols(h) then Some(code + CodeMap(h)[c as char]) else table[c]
  {
    var ws := Writes(h, code);
    var ch := c as char;
    WritesIndexable(h, code);
    forall w | w in ws ensures w.0 in Symbols(h) && w.1 == code + CodeMap(h)[w.0] {
      WriteIsCode(h, code, w);
    }
    WritesCover(h, code);
    if ch in Symbols(h) {
      ApplyWritesAt(table, ws, ch, code + CodeMap(h)[ch]);
    } else {
      ApplyWritesAt(table, ws, ch, []);
    }
  }
}
