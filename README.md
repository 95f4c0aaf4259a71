# Huffman encoder in Dafny

This project models `HuffmanEncoder.java`, a Huffman coder for 7-bit text, and proves what its pipeline does.

The pipeline has five stages:

1. **Counting.** `getFrequencies` adds the characters of the input to a 128-slot `frequencies` table. The table is a field that is never reset.
2. **Tree building.** `buildTree` seeds a priority queue with one leaf for each character 32..127 that has a nonzero count. It then merges the two lightest trees until one is left. The result is null when fewer than two such characters exist.
3. **Code derivation.** `traverse` / `traverseHuffmanTree` write each leaf's root-to-leaf path into a 128-slot `codes` table, with '0' for left and '1' for right.
4. **Encoding.** `encodeFile` concatenates the codes of the input characters.
5. **Decoding.** `decodeFile` walks the tree bit by bit and emits a character at each leaf.

Modules:

- `Options` holds the `Option` type used for null.
- `HuffTrees` holds the HuffNode/HuffTree values, the `FrequencyComparator`, and the shape predicates.
- `TreeBuilding` holds seeding, extract-min and the merge loop.
- `CodeBook` holds the code paths and the sequence of writes `traverse` performs.
- `Coding` holds encoding, decoding and their round trip.
- `Encoder` holds the class `HuffmanEncoder`, with both tables as arrays that its methods update in place.
- `EndToEnd` chains the stages on a fresh encoder.
- `Reports` holds the two text tables the Java methods return.

Java behaviour the model keeps:

- **Missing codes.** A character without a code (a null slot) is appended as the text `"null"`, as `StringBuilder.append(null)` does. The decoder ignores letters other than '0' and '1', so such characters vanish in the round trip. `EndToEnd.EncodeDecodeText` covers a fresh encoder, a text whose characters are all below 128, and a tree built from that text's counts. Such a tree exists only when the text has at least two distinct characters in 32..127. For that case it proves that decoding the encoding gives back exactly the text's characters in 32..127, in order.
- **Ties.** The priority queue is a sequence whose extract-min may return any lightest tree, so no tie order is fixed.
- **Write order.** `traverse`'s writes are kept in Java's order. Their effect on the table is then proved.

## Model

| member | source | states |
|---|---|---|
| HuffTrees.Compare | HuffmanEncoder.java:235-244 | result is -1, 0 or 1; negative exactly when x is lighter, positive exactly when y is lighter (weights only) |
| HuffTrees.HuffNode.Element | HuffmanEncoder.java:177-205 | a leaf answers its character; when every leaf holds an alphabet character, the answer is '\0' exactly for internal nodes, so the '\0' test is a sound leaf test |
| HuffTrees.HuffTree.Element | HuffmanEncoder.java:210-224 | a tree answers its root's element: '\0' exactly when the root is internal (for alphabet leaves) |
| HuffTrees.HuffTree.Weight | HuffmanEncoder.java:226-228 | a tree weighs its root's weight; in a tree whose weights add up, that is its two subtrees together |
| HuffTrees.ElementTestSound | HuffmanEncoder.java:152-170 | for every node of such a tree, element != '\0' iff the node is a leaf, so the '\0' test is a sound leaf test |
| HuffTrees.LeavesAreLeaves | HuffmanEncoder.java:177-205 | every member of a tree's leaf multiset is a leaf carrying one of the tree's symbols, and every symbol has a leaf |
| HuffTrees.UniqueLeavesDistinct | HuffmanEncoder.java:66-71 | if no two leaves share a character, no character sits in both subtrees of any node |
| TreeBuilding.Seeds | HuffmanEncoder.java:66-71 | every queued tree is a single leaf for a character in 32..i-1, and the leaves are queued in strictly increasing character order |
| TreeBuilding.Present | HuffmanEncoder.java:66-71 | c is present iff 32 <= c < i and its count is nonzero |
| TreeBuilding.SeedsTotals | HuffmanEncoder.java:66-71 | the seeded queue has one tree per present character; its weights add up to the in-range counts |
| TreeBuilding.SeedsLeaves | HuffmanEncoder.java:66-71 | the seeded leaves are exactly Leaf(c, freq[c]) for present c |
| TreeBuilding.SeedStep | HuffmanEncoder.java:67-70 | seeding slot i - 1 adds its leaf exactly when its count is nonzero |
| TreeBuilding.SeedsUnique | HuffmanEncoder.java:66-71 | no character is seeded twice |
| TreeBuilding.SeedsShaped | HuffmanEncoder.java:69 | every seeded tree is a single leaf holding an alphabet character |
| TreeBuilding.PresentCount | HuffmanEncoder.java:66-71 | the number of seeded trees is the number of distinct present characters |
| TreeBuilding.TakeOut | HuffmanEncoder.java:76-77 | removing one tree from the queue removes exactly its weight and its leaves |
| TreeBuilding.AppendForest | HuffmanEncoder.java:79 | adding a tree to the queue adds its weight and its leaves |
| TreeBuilding.MinimumExists | HuffmanEncoder.java:76 | a non-empty queue has a tree no heavier than any other |
| TreeBuilding.RemoveMin | HuffmanEncoder.java:76-77 | the removed tree compares <= 0 against every queued tree; the rest is the queue without that one occurrence |
| TreeBuilding.MergeStep | HuffmanEncoder.java:75-80 | one merge round keeps the queue's leaves and total weight and shortens the queue by one |
| TreeBuilding.MergeStepShape | HuffmanEncoder.java:78 | one merge round keeps every queued tree well shaped, the first-removed (lighter) tree going left |
| TreeBuilding.TwoRemovals | HuffmanEncoder.java:76-79 | two extract-mins in a row make a greedy round: the first is lightest in the queue, the second lightest in the rest; what is left plus their parent is that round's queue |
| TreeBuilding.MergeRound | HuffmanEncoder.java:76-79 | one pass of the loop body performs a greedy round and appends the parent of the two removed trees |
| TreeBuilding.RoundKeeps | HuffmanEncoder.java:75-80 | a greedy round keeps the loop's invariants (shapes, leaves, total weight) and extends the trace of greedy rounds by one |
| TreeBuilding.GreedyTraceSnoc | HuffmanEncoder.java:75-80 | a trace of greedy rounds followed by one more greedy round is a trace to that round's queue |
| TreeBuilding.GreedyTraceLength | HuffmanEncoder.java:75-80 | each round of a greedy trace shortens the queue by one |
| TreeBuilding.Merge | HuffmanEncoder.java:73-82 | null exactly when fewer than two trees are queued; otherwise an internal root holding all queued leaves and the total weight, reached from the queue by one greedy round fewer than there are queued trees, each merging a lightest tree with a lightest of the rest |
| TreeBuilding.MergedSeedsAreMergeTree | HuffmanEncoder.java:60-83 | merging the seeds yields a tree for the counts: well formed, lighter left, symbols = present characters, leaf weights = counts, root weight = in-range total |
| TreeBuilding.SeedTreeSymbols | HuffmanEncoder.java:66-71 | a tree with exactly the seeded leaves has exactly the present characters as symbols |
| CodeBook.CodeMap | HuffmanEncoder.java:148-171 | every symbol of the tree, and nothing else, has a path, and every path is a string of '0'/'1' |
| CodeBook.CodeMapSplit | HuffmanEncoder.java:152-170 | a symbol's path is '0' then its path in the left subtree, or '1' then its path in the right subtree |
| CodeBook.CodesNonEmpty | HuffmanEncoder.java:152-162 | below an internal root every code is non-empty |
| CodeBook.PrefixFree | HuffmanEncoder.java:148-171 | for distinct symbols, neither code is a prefix of the other |
| CodeBook.CodeLengthBound | HuffmanEncoder.java:148-171 | a code is shorter than the number of symbols |
| CodeBook.Writes | HuffmanEncoder.java:148-171 | traverse makes exactly one write per leaf below the node |
| CodeBook.ApplyWrites | HuffmanEncoder.java:155-161 | the table keeps its 128 slots, and a slot holding a code still holds one after the writes |
| CodeBook.WritesMember | HuffmanEncoder.java:152-170 | every write traverse makes is code+"0" to a leaf left child, code+"1" to a leaf right child, or a write of a recursive call |
| CodeBook.WriteIsCode | HuffmanEncoder.java:148-171 | every write puts code + (the symbol's path) into a symbol's slot |
| CodeBook.WritesCover | HuffmanEncoder.java:148-171 | every symbol receives a write |
| CodeBook.WritesIndexable | HuffmanEncoder.java:154-160 | every written slot is a symbol of the tree and lies inside the 128-slot table |
| CodeBook.ApplyWritesAt | HuffmanEncoder.java:155 | after a run of writes, a slot holds the value written to it if any write targets it, else its old value |
| CodeBook.ApplyWritesAppend | HuffmanEncoder.java:164-170 | doing two runs of writes in turn is doing their concatenation |
| CodeBook.TraverseFillsCodes | HuffmanEncoder.java:148-171 | for distinct symbols, traverse leaves slot c = code + path(c) when c is a symbol, untouched otherwise |
| Coding.CodeText | HuffmanEncoder.java:97-98 | a present code is appended as it is; a null slot appends four letters that are not a bit string |
| Coding.EncodeWith | HuffmanEncoder.java:95-99 | when every input character's slot holds a bit string, the output is a bit string |
| Coding.EncodeWithIsEncode | HuffmanEncoder.java:95-99 | when each symbol's slot holds its path, encoding a text of symbols with the table gives the concatenation of their paths |
| Coding.EncodeWithSnoc | HuffmanEncoder.java:95-99 | encoding one more character appends exactly that character's code text |
| Coding.Encode | HuffmanEncoder.java:95-99 | the concatenation of the tree paths of a text's characters is a bit string (Coding.EncodeWithIsEncode equates it with the table encoding) |
| Coding.Step | HuffmanEncoder.java:115-118 | the cursor moves exactly on '0' or '1', and stays in a tree whose leaves hold alphabet characters |
| Coding.DecodeFrom | HuffmanEncoder.java:113-124 | at most one character is emitted per input character, and every emitted character is in 32..127 |
| Coding.DecodeStep | HuffmanEncoder.java:113-124 | one decoding step: a child that is a leaf emits its symbol and resets to the root, else the cursor moves |
| Coding.NonBitIgnored | HuffmanEncoder.java:115-118 | a character other than '0'/'1' neither moves the cursor nor emits |
| Coding.ChildToward | HuffmanEncoder.java:115-118 | the first bit of a symbol's path moves the cursor into the subtree holding that symbol |
| Coding.DecodeSymbol | HuffmanEncoder.java:113-124 | reading a symbol's path from a node emits exactly that symbol and returns to the root |
| Coding.DecodeEncode | HuffmanEncoder.java:109-127 | decoding encode(s) followed by more bits emits s and then what the more bits decode to |
| Coding.RoundTrip | HuffmanEncoder.java:85-127 | decode(encode(s)) == s for every text of the tree's symbols |
| Coding.TrailingBitsEmitNothing | HuffmanEncoder.java:113-126 | a proper prefix of a code emits nothing |
| Coding.NullSkipped | HuffmanEncoder.java:97-98 | the text "null" appended for a missing code decodes to nothing |
| Coding.DecodeEncodeWith | HuffmanEncoder.java:85-127 | with a table holding each symbol's path and null elsewhere, decoding the encoding gives the characters of s that are symbols, in order |
| Encoder.HuffmanEncoder.constructor | HuffmanEncoder.java:25-26 | both tables have 128 slots, counts all zero, codes all null |
| Encoder.HuffmanEncoder.GetFrequencies | HuffmanEncoder.java:28-57 | every slot grows by the number of occurrences of its character (unread slots unchanged, nothing reset); the report is the frequency table text |
| Encoder.HuffmanEncoder.FrequencyReport | HuffmanEncoder.java:49-54 | the report is the frequency table text of the current counts |
| Encoder.HuffmanEncoder.Seed | HuffmanEncoder.java:66-71 | the queue holds one leaf per alphabet character with nonzero count, in character order, each a single alphabet leaf |
| Encoder.HuffmanEncoder.BuildTree | HuffmanEncoder.java:60-83 | counts grow as in GetFrequencies; null iff fewer than two distinct alphabet characters have a count; else a tree for the counts, reached from the seeded queue by greedy rounds that each merge the two lightest trees |
| Encoder.HuffmanEncoder.Traverse | HuffmanEncoder.java:148-171 | the code table afterwards is the old one with traverse's writes applied in Java's order |
| Encoder.HuffmanEncoder.TraverseHuffmanTree | HuffmanEncoder.java:129-146 | same from the root with the empty prefix; for distinct symbols each symbol's slot holds its path and other slots keep their value; the report is the code table text |
| Encoder.HuffmanEncoder.CodeTableReport | HuffmanEncoder.java:138-143 | the report is the code table text of the current table |
| Encoder.HuffmanEncoder.EncodeFile | HuffmanEncoder.java:85-107 | the code table is filled first, then the output is the in-order concatenation of the input characters' slots ("null" for a missing code) |
| Encoder.HuffmanEncoder.EncodeText | HuffmanEncoder.java:94-99 | the output is the slot texts of the input characters, in order |
| Encoder.HuffmanEncoder.DecodeFile | HuffmanEncoder.java:109-127 | the output is what walking the tree over the bits emits |
| Encoder.FreshRoundTrip | HuffmanEncoder.java:60-127 | on a fresh encoder there is no tree exactly when s has fewer than two distinct characters in 32..127; otherwise encoding then decoding s gives its characters in 32..127, in order |
| EndToEnd.TreeSymbolsOfText | HuffmanEncoder.java:37-42 | a tree built from the counts of s has as symbols exactly the characters of s in 32..127 |
| EndToEnd.FreshTableCodes | HuffmanEncoder.java:26 | filling a fresh code table gives each symbol its path and every other slot null |
| EndToEnd.EncodeDecodeText | HuffmanEncoder.java:85-127 | for a fresh encoder, decoding the encoding of s gives exactly the characters of s in 32..127, in order |
| EndToEnd.PrintableRoundTrip | HuffmanEncoder.java:85-127 | a text of printable ASCII characters comes back whole |
| EndToEnd.FreshEncodeIsEncode | HuffmanEncoder.java:85-107 | for a text of alphabet characters, what encodeFile writes on a fresh encoder is the concatenation of the tree paths, at most (length of s) * (number of symbols - 1) bits |
| EndToEnd.EncodeLength | HuffmanEncoder.java:95-99 | the path concatenation takes at most (length of s) * (number of symbols - 1) bits (EndToEnd.FreshEncodeIsEncode carries this to encodeFile's output) |
| EndToEnd.SymbolsWithin | HuffmanEncoder.java:66-71 | the tree's symbols lie within any alphabet set covering s, and every character of s is a symbol |
| EndToEnd.AbracadabraCompresses | HuffmanEncoder.java:95-99 | what encodeFile writes for "abracadabra" (88 bits as ASCII) on a fresh encoder is at most 44 bits, under any tree built from its counts |
| Reports.Decimal | HuffmanEncoder.java:52 | an int's text is non-empty, starts with '-' exactly for a negative value, and holds no newline |
| Reports.Digits | HuffmanEncoder.java:52 | a count's decimal text is non-empty, all digits, without leading zero |
| Reports.DigitsRoundTrip | HuffmanEncoder.java:52 | reading back the digits of n gives n |
| Reports.DecimalRoundTrip | HuffmanEncoder.java:52 | reading back the decimal text of any int gives it back |
| Reports.FreqLine | HuffmanEncoder.java:52 | a line is the character, a space, a text that reads back as the count, and one closing newline |
| Reports.FreqReport | HuffmanEncoder.java:49-54 | the report holds one line per alphabet character with a nonzero count |
| Reports.FreqReportListsSeeds | HuffmanEncoder.java:49-54 | the frequency report has one "c n" line per seeded leaf, in queue order |
| Reports.FreqReportEmpty | HuffmanEncoder.java:49-56 | the frequency report is empty iff no character in 32..127 was counted |
| Reports.Filled | HuffmanEncoder.java:138-139 | c is listed iff 32 <= c < i and its slot holds a code |
| Reports.CodeLine | HuffmanEncoder.java:141 | a line is the character, a space, the code and a closing newline; for a bit-string code it holds exactly one newline |
| Reports.CodeReport | HuffmanEncoder.java:138-143 | the report is empty exactly when no alphabet slot holds a code |
| Reports.CodeReportLines | HuffmanEncoder.java:138-145 | the code report has one line per filled alphabet slot |
| Reports.FilledSymbols | HuffmanEncoder.java:138-143 | after filling a fresh table, the filled alphabet slots are exactly the tree's symbols |
| Reports.CodeReportOfTree | HuffmanEncoder.java:129-146 | for a fresh table and a tree built from counts, the code report has one line per symbol |

## Left out

- File reading is not modelled. The file is the input string, `FileReader`/`BufferedReader` are gone, and a swallowed `IOException` cannot happen (HuffmanEncoder.java:32-46, 90-103).
- The priority queue is not `java.util.PriorityQueue`. It is a sequence with a nondeterministic extract-min, so the library's tie order among equal weights is not fixed.
- The `HuffmanCoding` interface is not part of this model; its declaration is not available.
- Characters of 128 or above would overflow Java's 128-slot arrays and throw. Counting and encoding require every input character to be below 128 instead of modelling the exception.
- Characters are Dafny characters (Unicode scalar values). This agrees with Java's 16-bit `char` on the 0..127 range the model admits.
- Encoder.HuffmanEncoder.GetFrequencies: counts are unbounded integers, so the 32-bit wrap-around of a Java `int` after 2^31 - 1 occurrences is not modelled.
- TreeBuilding.Merge: weights are unbounded integers. Java's sum `tmp1.weight() + tmp2.weight()` (HuffmanEncoder.java:78) wraps past 2^31 - 1, and the comparator (HuffmanEncoder.java:237-241) would then order the wrapped negative weight first. That needs more than 2^31 - 1 counted characters in total and is not modelled.
- Encoder.HuffmanEncoder.BuildTree: the same 32-bit wrap of merged weights is not modelled. The tree is proved to come from greedy merging, but the optimality of the code (least total encoded length) is not proved.
- Encoder.HuffmanEncoder.DecodeFile: requires an internal root whose leaves hold alphabet characters, as `buildTree` produces. A hand-built tree with a leaf root makes Java throw a NullPointerException at the first bit; that path is not modelled.
- Encoder.HuffmanEncoder.Traverse: requires an internal node, for the same reason (Java dereferences both children).
- Encoder.HuffmanEncoder.EncodeFile: requires an internal root, for the same reason.
- Encoder.HuffmanEncoder.TraverseHuffmanTree: requires an internal root, for the same reason.
- Java trees may have internal nodes that carry a character, or leaves carrying '\0'. The datatype has neither: an internal node's element is always '\0', and valid leaves hold 32..127.
