/**
 * The two text tables the encoder returns: getFrequencies lists "c n" for every
 * alphabet character c counted n times, traverseHuffmanTree lists "c code" for
 * every alphabet slot of the code table that holds a code. Each line ends in a
 * newline; numbers are written in decimal as Java's string append writes an int.
 */
module Reports {
  import opened Options
  import opened HuffTrees
  import opened TreeBuilding
  import opened CodeBook
  import opened EndToEnd

  predicate IsDigits(s: string) {
    forall k :: 0 <= k < |s| ==> '0' <= s[k] <= '9'
  }

  function Digit(d: int): (c: char)
    requires 0 <= d < 10
  {
    ('0' as int + d) as char
  }

  /** The decimal digits of n, most significant first. */
  function Digits(n: nat): (r: string)
    ensures |r| >= 1 && IsDigits(r)
    ensures r[0] == '0' ==> n == 0
    decreases n
  {
    if n < 10 then [Digit(n)] else Digits(n / 10) + [Digit(n % 10)]
  }

  /** An int as text: a minus sign for a negative value, then its digits. */
  function Decimal(n: int): (r: string)
    ensures |r| >= 1
    ensures r[0] == '-' <==> n < 0
    ensures '\n' !in r
  {
    if n < 0 then ['-'] + Digits(-n) else Digits(n)
  }

  /** The value of a string of decimal digits. */
  function DigitsValue(s: string): (n: nat)
    requires IsDigits(s)
    decreases |s|
  {
    if s == [] then 0 else DigitsValue(s[..|s| - 1]) * 10 + (s[|s| - 1] as int - '0' as int)
  }

  /** Text an int can be written as: digits, optionally after a minus sign. */
  predicate IsDecimal(s: string) {
    |s| >= 1 && (IsDigits(s) || (s[0] == '-' && IsDigits(s[1..])))
  }

  function ParseDecimal(s: string): int
    requires IsDecimal(s)
  {
    if IsDigits(s) then DigitsValue(s) else -(DigitsValue(s[1..]) as int)
  }

  lemma {:induction false} DigitsRoundTrip(n: nat)
    ensures DigitsValue(Digits(n)) == n
    decreases n
  {
    if n >= 10 {
      var r := Digits(n);
      DigitsRoundTrip(n / 10);
      assert r[..|r| - 1] == Digits(n / 10);
    }
  }

  /** Reading back the decimal text of a count gives the count. */
  lemma DecimalRoundTrip(n: int)
    ensures IsDecimal(Decimal(n))
    ensures ParseDecimal(Decimal(n)) == n
  {
    if n < 0 {
      DigitsRoundTrip(-n);
      assert (['-'] + Digits(-n))[1..] == Digits(-n);
    } else {
      DigitsRoundTrip(n);
    }
  }

  /** A "c n" line: it reads back as the character, a space, the count and a newline. */
  function FreqLine(c: char, n: int): (line: string)
    ensures |line| >= 4 && line[0] == c && line[1] == ' ' && line[|line| - 1] == '\n'
    ensures IsDecimal(line[2..|line| - 1]) && ParseDecimal(line[2..|line| - 1]) == n
    ensures c != '\n' ==> NewlineCount(line) == 1
  {
    var d := Decimal(n);
    DecimalRoundTrip(n);
    var line := [c, ' '] + d + ['\n'];
    assert line[2..|line| - 1] == d;
    assert multiset(line) == multiset([c, ' ']) + multiset(d) + multiset(['\n']);
    line
  }

  /** The report getFrequencies returns, over slots 32 up to i - 1. */
  function FreqReport(freq: seq<int>, i: int): (r: string)
    requires |freq| == 128 && 32 <= i <= 128
    ensures NewlineCount(r) == NonZeroCount(freq, i)
    decreases i
  {
    if i == 32 then []
    else
      var prev := FreqReport(freq, i - 1);
      var line := if freq[i - 1] != 0 then FreqLine((i - 1) as char, freq[i - 1]) else [];
      assert multiset(prev + line) == multiset(prev) + multiset(line);
      prev + line
  }

  /** One line per tree of the queue, naming its element and weight, in queue order. */
  function QueueLines(q: seq<HuffTree>): (r: string)
    ensures |r| >= 4 * |q|
  {
    if q == [] then [] else QueueLines(q[..|q| - 1]) + FreqLine(q[|q| - 1].Element(), q[|q| - 1].Weight())
  }

  /**
   * The frequency report and the seeded priority queue describe the same
   * characters and counts in the same order: one line per seeded leaf.
   */
  lemma {:induction false} FreqReportListsSeeds(freq: seq<int>, i: int)
    requires |freq| == 128 && 32 <= i <= 128
    ensures FreqReport(freq, i) == QueueLines(Seeds(freq, i))
    decreases i
  {
    if i > 32 {
      FreqReportListsSeeds(freq, i - 1);
      var q := Seeds(freq, i - 1);
      if freq[i - 1] != 0 {
        var t := HuffTree(Leaf((i - 1) as char, freq[i - 1]));
        var line := FreqLine((i - 1) as char, freq[i - 1]);
        assert Seeds(freq, i) == q + [t];
        assert (q + [t])[..|q|] == q;
        assert QueueLines(q + [t]) == QueueLines(q) + line;
        assert FreqReport(freq, i) == FreqReport(freq, i - 1) + line;
      } else {
        assert Seeds(freq, i) == q + [] == q;
        assert FreqReport(freq, i) == FreqReport(freq, i - 1) + [];
      }
    }
  }

  /** The frequency report is empty exactly when no alphabet character was counted. */
  lemma FreqReportEmpty(freq: seq<int>)
    requires |freq| == 128
    ensures FreqReport(freq, 128) == [] <==> NonZeroCount(freq, 128) == 0
  {
    FreqReportListsSeeds(freq, 128);
    SeedsTotals(freq, 128);
  }

  /** A "c code" line. For a bit-string code it holds exactly one newline: the one that ends it. */
  function CodeLine(c: char, code: string): (line: string)
    ensures |line| >= 3 && line[0] == c && line[1] == ' ' && line[|line| - 1] == '\n'
    ensures c != '\n' && IsBits(code) ==> NewlineCount(line) == 1
  {
    var line := [c, ' '] + code + ['\n'];
    assert IsBits(code) ==> '\n' !in code;
    assert multiset(line) == multiset([c, ' ']) + multiset(code) + multiset(['\n']);
    line
  }

  /** The report traverseHuffmanTree returns, over slots 32 up to i - 1 of the code table. */
  function CodeReport(table: seq<Option<string>>, i: int): (r: string)
    requires |table| == 128 && 32 <= i <= 128
    ensures r == [] <==> Filled(table, i) == {}
    decreases i
  {
    if i == 32 then []
    else CodeReport(table, i - 1) + (if table[i - 1].Some? then CodeLine((i - 1) as char, table[i - 1].value) else [])
  }

  /** The alphabet characters below i whose slot holds a code. */
  function Filled(table: seq<Option<string>>, i: int): (chars: set<char>)
    requires |table| == 128 && 32 <= i <= 128
    ensures forall c :: c in chars <==> 32 <= c as int < i && table[c as int].Some?
    decreases i
  {
    if i == 32 then {}
    else Filled(table, i - 1) + (if table[i - 1].Some? then {(i - 1) as char} else {})
  }

  function NewlineCount(s: string): nat {
    multiset(s)['\n']
  }

  /**
   * When every code in the table is a bit string, the code report has one line
   * per filled alphabet slot.
   */
  lemma {:induction false} CodeReportLines(table: seq<Option<string>>, i: int)
    requires |table| == 128 && 32 <= i <= 128
    requires forall c :: 32 <= c < i && table[c].Some? ==> IsBits(table[c].value)
    ensures NewlineCount(CodeReport(table, i)) == |Filled(table, i)|
    decreases i
  {
    if i > 32 {
      CodeReportLines(table, i - 1);
      var c := (i - 1) as char;
      assert c !in Filled(table, i - 1);
      if table[i - 1].Some? {
        var line := CodeLine(c, table[i - 1].value);
        assert multiset(CodeReport(table, i - 1) + line) == multiset(CodeReport(table, i - 1)) + multiset(line);
      } else {
        assert CodeReport(table, i) == CodeReport(table, i - 1) + [];
      }
    }
  }

  /** Filling a fresh code table from a tree of alphabet symbols fills exactly the slots of its symbols. */
  lemma FilledSymbols(root: HuffNode)
    requires root.Internal? && ValidLeaves(root) && DistinctSymbols(root)
    requires forall c :: c in Symbols(root) ==> InAlphabet(c)
    ensures Indexable(Writes(root, []))
    ensures Filled(ApplyWrites(NoCodes(), Writes(root, [])), 128) == Symbols(root)
    ensures forall c :: 32 <= c < 128 && ApplyWrites(NoCodes(), Writes(root, []))[c].Some? ==>
      IsBits(ApplyWrites(NoCodes(), Writes(root, []))[c].value)
  {
    FreshTableCodes(root);
    var table := ApplyWrites(NoCodes(), Writes(root, []));
    forall c: char ensures c in Filled(table, 128) <==> c in Symbols(root) {
      assert (c as int) as char == c;
    }
  }

  /**
   * Filling a fresh code table from a merge tree fills exactly the slots of
   * its symbols, so the code report has one line per symbol.
   */
  lemma CodeReportOfTree(root: HuffNode, freq: seq<int>)
    requires |freq| == 128 && IsMergeTreeFor(root, freq)
    ensures Indexable(Writes(root, []))
    ensures Filled(ApplyWrites(NoCodes(), Writes(root, [])), 128) == Symbols(root)
    ensures NewlineCount(CodeReport(ApplyWrites(NoCodes(), Writes(root, [])), 128)) == |Symbols(root)|
  {
    forall c | c in Symbols(root) ensures InAlphabet(c) {
      assert c in Present(freq, 128);
    }
    FilledSymbols(root);
    CodeReportLines(ApplyWrites(NoCodes(), Writes(root, [])), 128);
  }
}
