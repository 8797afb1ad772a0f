# Block pipeline and cipher toolkit, modelled in Dafny

This project models the sequential core of two small programs and proves
properties of the model.

- **The toy JPEG block pipeline** (Java, `newInfTec_3_1`). A `Block` is an 8x8
  matrix of samples with a quality parameter `q`. It is level-shifted,
  quantized with the matrix `1 + (i + j + 1) q`, restored and clamped, and its
  compressed size is estimated in two ways: by run length along the zig-zag
  scan that `SerpentIterator` produces, and by the code lengths of a Huffman
  coder built from the block's histogram.
- **The cipher toolkit** (Python, `ciphers2_2`). It provides:
  - the ECB, CBC, PCBC and CFB modes of operation over any block function;
  - the element-wise xor that chains blocks;
  - the splitting of work into per-thread segments and the reassembly of their results;
  - the zero padding of `blockify`;
  - the RC5-style two-word cipher of `rc6.py` and the 32-bit rotations of `util.py`.

Modules follow the source files:

| module | file | source |
|---|---|---|
| `Wrappers` | `wrappers.dfy` | `Option` and `Result`, for the error paths |
| `Serpent` | `serpent.dfy` | `SerpentIterator.java` |
| `HuffmanTree` | `huffman_tree.dfy` | `HuffmanTree.java`, `HuffmanNode.java`, `HuffmanLeaf.java` |
| `Huffman` | `huffman.dfy` | `Huffman.java` |
| `Blocks` | `blocks.dfy` | `Block.java` |
| `Util` | `util.dfy` | `util.py` |
| `Rc6` | `rc6.dfy` | `rc6.py` |
| `Ciphers` | `ciphers.dfy` | `_ciphers.py` |

Modelling choices:

- **Samples are exact reals**, where the Java code uses `float`. Java's conversions to `int` are written out:
  - `Math.round` is `floor(x + 1/2)`;
  - `intValue` truncates toward zero;
  - both saturate at the ends of the `int` range.
- **A Java object that is mutated in place becomes an immutable value.** Each operation returns the new value:
  - a `Block` is a record of samples and `q`;
  - the iterator is a `Cursor` record of its seven fields;
  - the Huffman coder is a `Coder` record of its tree, its table and its cache of answers.
- **A numpy `uint32` word is an integer in [0, 2^32).**
  - Addition and subtraction wrap modulo 2^32.
  - xor, shifts and rotations act on the word's list of 32 bits.
- **The threads of `_ciphers.py` only compute a parallel map.** Each routine's piece of the result is computed, the order in which the pieces reach the shared list is an arbitrary permutation, and the lemmas show that `cleanup_result` gives the sequential result whatever that order was.
- **A Python exception is a `Failure`.** Where the source fails (a key length that is not a multiple of 4, a key of fewer than four words, a symbol the Huffman coder does not know), the model returns a `Failure`. The exceptions are the failures listed under "Left out", which are preconditions instead.

## Model

| member | source | states |
|---|---|---|
| `Blocks.NewBlockAsWritten` | newInfTec_3_1/src/main/java/com/github/modelflat/nit3/jpeg/Block.java:29-35 | the constructor as written accepts an array exactly when it has 8 rows and its first row has 8 cells; the block then holds that array and `q` |
| `Blocks.RaggedArrayAccepted` | newInfTec_3_1/src/main/java/com/github/modelflat/nit3/jpeg/Block.java:29-35 | an array whose rows 1..7 are empty passes that check, yet is not an 8x8 grid |
| `Blocks.NewBlock` | newInfTec_3_1/src/main/java/com/github/modelflat/nit3/jpeg/Block.java:29-35 | the corrected constructor accepts an array exactly when every one of its 8 rows has 8 cells, and then yields a valid block |
| `Blocks.Copy` | newInfTec_3_1/src/main/java/com/github/modelflat/nit3/jpeg/Block.java:37-43 | a copy has the same samples and the same `q` |
| `Blocks.SetQ` | newInfTec_3_1/src/main/java/com/github/modelflat/nit3/jpeg/Block.java:293-297 | after `setQ(q)` the samples are unchanged and every matrix cell is `1 + (i + j + 1) q` for the new `q` |
| `Blocks.QuantizationMatrixPositive` | newInfTec_3_1/src/main/java/com/github/modelflat/nit3/jpeg/Block.java:260-270 | for `q >= 0` every divisor is at least 1, and `q = 0` gives all ones; a cell is 0 only for `q = -1` at (0, 0) |
| `Blocks.RoundIsOdd` | newInfTec_3_1/src/main/java/com/github/modelflat/nit3/jpeg/Block.java:272-277 | `round(-x) = -round(x)` |
| `Blocks.RoundIsNearest` | newInfTec_3_1/src/main/java/com/github/modelflat/nit3/jpeg/Block.java:272-277 | inside the `int` range, `round` moves a value by at most 1/2 |
| `Blocks.RoundHalvesAwayFromZero` | newInfTec_3_1/src/main/java/com/github/modelflat/nit3/jpeg/Block.java:272-277 | `n + 1/2` rounds to `n + 1` and `-(n + 1/2)` to `-(n + 1)` |
| `Blocks.RoundSaturates` | newInfTec_3_1/src/main/java/com/github/modelflat/nit3/jpeg/Block.java:272-277 | outside the `int` range, `round` gives the largest `int` or its negation |
| `Blocks.IntValue` | newInfTec_3_1/src/main/java/com/github/modelflat/nit3/jpeg/Block.java:123-126 | truncation lies between 0 and the value and, inside the `int` range, less than 1 away from it |
| `Blocks.Diff` | newInfTec_3_1/src/main/java/com/github/modelflat/nit3/jpeg/Block.java:45-53 | `diff` is a new valid block with `q = 0` holding the cell-wise differences |
| `Blocks.Sum` | newInfTec_3_1/src/main/java/com/github/modelflat/nit3/jpeg/Block.java:55-63 | `sum` is a new valid block with `q = 0` holding the cell-wise sums |
| `Blocks.SumUndoesDiff` | newInfTec_3_1/src/main/java/com/github/modelflat/nit3/jpeg/Block.java:45-63 | in exact arithmetic `sum(diff(a, b), b)` has the samples of `a` |
| `Blocks.DiffAntisymmetric` | newInfTec_3_1/src/main/java/com/github/modelflat/nit3/jpeg/Block.java:45-63 | `diff(a, b) = -diff(b, a)` cell-wise, and `sum` commutes |
| `Blocks.Normalize` | newInfTec_3_1/src/main/java/com/github/modelflat/nit3/jpeg/Block.java:65-72 | `normalize` takes exactly 128 from every sample and keeps `q` |
| `Blocks.RestoreCellRange` | newInfTec_3_1/src/main/java/com/github/modelflat/nit3/jpeg/Block.java:74-88 | a restored sample always rounds into [0, 255]; a sample whose shifted value rounds inside keeps it unrounded, the others become exactly 0 or 255 |
| `Blocks.Restore` | newInfTec_3_1/src/main/java/com/github/modelflat/nit3/jpeg/Block.java:74-88 | `restore` shifts and clamps every sample and keeps `q` |
| `Blocks.RestoreUndoesNormalize` | newInfTec_3_1/src/main/java/com/github/modelflat/nit3/jpeg/Block.java:65-88 | `restore(normalize(b)) = b` exactly when every sample of `b` rounds into [0, 255]; every restored block has that property |
| `Blocks.Quantize` | newInfTec_3_1/src/main/java/com/github/modelflat/nit3/jpeg/Block.java:112-119 | each sample becomes `round(sample / Q[i][j])`, with Java's result for a division by zero |
| `Blocks.Dequantize` | newInfTec_3_1/src/main/java/com/github/modelflat/nit3/jpeg/Block.java:135-142 | each sample is multiplied by `Q[i][j]` |
| `Blocks.QuantizationError` | newInfTec_3_1/src/main/java/com/github/modelflat/nit3/jpeg/Block.java:112-142 | for `q >= 0`, dequantizing a quantized block moves each sample by at most `Q[i][j] / 2` |
| `Blocks.ComputeRleSize` | newInfTec_3_1/src/main/java/com/github/modelflat/nit3/jpeg/Block.java:121-133 | the run-length size is `2 + 2 x` (changes of truncated value along the zig-zag scan); it lies in [2, 128] and is 2 for a constant block |
| `Blocks.RunLengthSize` | newInfTec_3_1/src/main/java/com/github/modelflat/nit3/jpeg/Block.java:124-132 | the counting loop gives `2 + 2 x` (changes of truncated value) for any non-empty scan |
| `Blocks.RoundedSamples` | newInfTec_3_1/src/main/java/com/github/modelflat/nit3/jpeg/Block.java:184-186 | the 64 symbols, row by row, are the rounded samples |
| `Blocks.Histogram` | newInfTec_3_1/src/main/java/com/github/modelflat/nit3/jpeg/Block.java:183-189 | the frequency table has the distinct symbols as keys, each mapped to its number of occurrences |
| `Blocks.HistogramTotal` | newInfTec_3_1/src/main/java/com/github/modelflat/nit3/jpeg/Block.java:183-189 | the frequencies add up to the number of symbols |
| `Blocks.EncodeHuffman` | newInfTec_3_1/src/main/java/com/github/modelflat/nit3/jpeg/Block.java:182-191 | `encodeHuffman` builds a valid coder for the table of distinct rounded samples and their counts, which add up to 64; its tree is one the constructor builds from that table by lightest-pair merges |
| `Blocks.BytesFor` | newInfTec_3_1/src/main/java/com/github/modelflat/nit3/jpeg/Block.java:200-203 | the byte count is the number of bits divided by 8, rounded up |
| `Blocks.ComputeHuffmanSize` | newInfTec_3_1/src/main/java/com/github/modelflat/nit3/jpeg/Block.java:193-204 | the size is computed exactly when the coder knows every rounded sample; it is then the sum of the samples' leaf depths, rounded up to whole bytes, and the coder's tree and table are unchanged |
| `Blocks.SizeSum` | newInfTec_3_1/src/main/java/com/github/modelflat/nit3/jpeg/Block.java:194-199 | the query loop fails exactly when some symbol is unknown; otherwise it gives the sum of the symbols' leaf depths |
| `Blocks.QueryLength` | newInfTec_3_1/src/main/java/com/github/modelflat/nit3/jpeg/huffman/Huffman.java:28-39 | a query succeeds exactly for a known symbol with non-zero frequency and answers a depth of that symbol's leaf |
| `Blocks.OwnCoderKnowsAll` | newInfTec_3_1/src/main/java/com/github/modelflat/nit3/jpeg/Block.java:182-204 | a block's own coder knows every one of its samples, so its Huffman size never fails |
| `Serpent.DiagonalsCoverGrid` | newInfTec_3_1/src/main/java/com/github/modelflat/nit3/jpeg/SerpentIterator.java:41-52 | the fifteen anti-diagonals hold 64 cells |
| `Serpent.ScanIndexRange` | newInfTec_3_1/src/main/java/com/github/modelflat/nit3/jpeg/SerpentIterator.java:27-52 | a cell's scan position lies within the positions of its diagonal, and in [0, 64) |
| `Serpent.ScanIndexInjective` | newInfTec_3_1/src/main/java/com/github/modelflat/nit3/jpeg/SerpentIterator.java:27-52 | two cells with the same scan position are the same cell |
| `Serpent.ActiveHasNext` | newInfTec_3_1/src/main/java/com/github/modelflat/nit3/jpeg/SerpentIterator.java:22-24 | a cursor that points at a cell still has a next element |
| `Serpent.FreshIsActive` | newInfTec_3_1/src/main/java/com/github/modelflat/nit3/jpeg/SerpentIterator.java:7-19 | a freshly constructed iterator points at its first cell |
| `Serpent.Probe` | newInfTec_3_1/src/main/java/com/github/modelflat/nit3/jpeg/SerpentIterator.java:29 | the cell read by `next()` is inside the grid, and its scan position is `linearCoord - 1` |
| `Serpent.Advance` | newInfTec_3_1/src/main/java/com/github/modelflat/nit3/jpeg/SerpentIterator.java:27-52 | one step of `next()` leads to a reachable state and adds one to `linearCoord` |
| `Serpent.DiagonalEndExhausts` | newInfTec_3_1/src/main/java/com/github/modelflat/nit3/jpeg/SerpentIterator.java:41-52 | leaving the last diagonal exhausts the iterator (`linearCoord` 65) |
| `Serpent.DiagonalEndMovesOn` | newInfTec_3_1/src/main/java/com/github/modelflat/nit3/jpeg/SerpentIterator.java:41-52 | leaving any other diagonal points at the first cell of the next one |
| `Serpent.Next` | newInfTec_3_1/src/main/java/com/github/modelflat/nit3/jpeg/SerpentIterator.java:22-39 | `next()` returns a sample exactly when `hasNext()` holds; that sample is the one at the probed cell, and an exhausted iterator returns null and keeps its state |
| `Serpent.Walk` | newInfTec_3_1/src/main/java/com/github/modelflat/nit3/jpeg/SerpentIterator.java:27-52 | the cells still to be visited number `65 - linearCoord` and follow consecutive scan positions |
| `Serpent.WalkIsScanOrder` | newInfTec_3_1/src/main/java/com/github/modelflat/nit3/jpeg/SerpentIterator.java:8-52 | a fresh iterator visits 64 cells, the k-th one at scan position k |
| `Serpent.ScanOrderIsPermutation` | newInfTec_3_1/src/main/java/com/github/modelflat/nit3/jpeg/SerpentIterator.java:27-52 | the 64 visited cells are pairwise distinct and cover the whole grid |
| `Serpent.ScanSteps` | newInfTec_3_1/src/main/java/com/github/modelflat/nit3/jpeg/SerpentIterator.java:33-52 | consecutive cells lie on the same diagonal or the next one, which is entered at its first position |
| `Serpent.StepWithinDiagonal` | newInfTec_3_1/src/main/java/com/github/modelflat/nit3/jpeg/SerpentIterator.java:29-36 | within a diagonal the scan moves up and right on ascending diagonals and down and left on the others |
| `Serpent.Traverse` | newInfTec_3_1/src/main/java/com/github/modelflat/nit3/jpeg/SerpentIterator.java:17-57 | a for-each loop over a new iterator reads 64 samples in scan order, and `next()` then returns null |
| `Serpent.Drain` | newInfTec_3_1/src/main/java/com/github/modelflat/nit3/jpeg/SerpentIterator.java:22-52 | draining an iterator from its first cell yields the 64 samples in scan order, then null |
| `Serpent.ScanMatchesT81` | newInfTec_3_1/src/main/java/com/github/modelflat/nit3/jpeg/SerpentIterator.java:27-52 | the scan position of every cell is its entry in the zig-zag table of Figure A.6 of ITU-T T.81 |
| `HuffmanTree.MakeNode` | newInfTec_3_1/src/main/java/com/github/modelflat/nit3/jpeg/huffman/HuffmanNode.java:7-19 | a node keeps the children it was given, its leaves are theirs, and its weight is their sum |
| `HuffmanTree.WeightIsLeafTotal` | newInfTec_3_1/src/main/java/com/github/modelflat/nit3/jpeg/huffman/HuffmanNode.java:7-11 | a tree weighs the total weight of its leaves |
| `HuffmanTree.NodeOutweighsChildren` | newInfTec_3_1/src/main/java/com/github/modelflat/nit3/jpeg/huffman/HuffmanNode.java:7-11 | with non-negative leaf weights, a node weighs at least as much as each child |
| `HuffmanTree.NonNegativeWeight` | newInfTec_3_1/src/main/java/com/github/modelflat/nit3/jpeg/huffman/HuffmanNode.java:7-11 | with non-negative leaf weights, every tree has a non-negative weight |
| `HuffmanTree.JavaIntSub` | newInfTec_3_1/src/main/java/com/github/modelflat/nit3/jpeg/huffman/HuffmanTree.java:10-12 | Java's `int` subtraction is the difference modulo 2^32, and the difference itself when that fits |
| `HuffmanTree.CompareToIsWeightOrder` | newInfTec_3_1/src/main/java/com/github/modelflat/nit3/jpeg/huffman/HuffmanTree.java:10-12 | for non-negative 32-bit weights, `compareTo` has the sign of the weight difference, so equal weights compare as 0 |
| `HuffmanTree.CompareToAntisymmetric` | newInfTec_3_1/src/main/java/com/github/modelflat/nit3/jpeg/huffman/HuffmanTree.java:10-12 | for non-negative 32-bit weights, `compareTo` is antisymmetric |
| `HuffmanTree.CompareToOverflows` | newInfTec_3_1/src/main/java/com/github/modelflat/nit3/jpeg/huffman/HuffmanTree.java:10-12 | when the difference overflows, the order turns round |
| `HuffmanTree.CompareToDisagreesWithWeight` | newInfTec_3_1/src/main/java/com/github/modelflat/nit3/jpeg/huffman/HuffmanTree.java:10-12 | for weights more than 2^31 - 1 apart the wrapping order and the weight order disagree: a lighter tree can compare above a heavier one |
| `Huffman.KraftEquality` | newInfTec_3_1/src/main/java/com/github/modelflat/nit3/jpeg/huffman/Huffman.java:20-25 | every node has two children, so the code lengths of a whole tree satisfy `sum 2^-len = 1` |
| `Huffman.UniqueDepth` | newInfTec_3_1/src/main/java/com/github/modelflat/nit3/jpeg/huffman/Huffman.java:41-55 | a symbol that labels one leaf has a single depth |
| `Huffman.DoGetSizeFor` | newInfTec_3_1/src/main/java/com/github/modelflat/nit3/jpeg/huffman/Huffman.java:41-55 | `doGetSizeFor(s, t, c)` is `c` plus the depth of `s`'s leaf when `s` labels a leaf of `t`, and `c - 1` otherwise |
| `Huffman.LightestTree` | newInfTec_3_1/src/main/java/com/github/modelflat/nit3/jpeg/huffman/Huffman.java:21 | `poll()` picks a tree no heavier than any other; for non-negative 32-bit weights that tree is also least under `compareTo` |
| `Huffman.NewCoder` | newInfTec_3_1/src/main/java/com/github/modelflat/nit3/jpeg/huffman/Huffman.java:13-26 | the constructor leaves no tree exactly for an empty table; otherwise the tree has one leaf per key with the key's frequency, and the root weighs the sum of all frequencies; that tree is the result of a chain of merges of two lightest trees, starting from one leaf per key |
| `Huffman.MakeLeaves` | newInfTec_3_1/src/main/java/com/github/modelflat/nit3/jpeg/huffman/Huffman.java:16-18 | the first loop makes exactly one leaf per key, zero frequencies included |
| `Huffman.MergeAll` | newInfTec_3_1/src/main/java/com/github/modelflat/nit3/jpeg/huffman/Huffman.java:20-25 | the second loop is a chain of merges of two lightest trees; it keeps the forest's symbols and weights and stops with one tree, or none for an empty forest |
| `Huffman.MergeLightest` | newInfTec_3_1/src/main/java/com/github/modelflat/nit3/jpeg/huffman/Huffman.java:21-23 | one round takes out a lightest tree, then a lightest tree of the rest, and adds their node with the first on the left; symbols and total weight are kept |
| `Huffman.MergeKeepsTotals` | newInfTec_3_1/src/main/java/com/github/modelflat/nit3/jpeg/huffman/Huffman.java:21-23 | replacing two trees by their node keeps the multiset of symbols and the total weight |
| `Huffman.GetSizeFor` | newInfTec_3_1/src/main/java/com/github/modelflat/nit3/jpeg/huffman/Huffman.java:28-39 | a query fails exactly for a symbol outside the table or with frequency 0; otherwise it answers the depth of the symbol's leaf, caches it, and keeps the tree and the table |
| `Huffman.SizeIsLeafDepth` | newInfTec_3_1/src/main/java/com/github/modelflat/nit3/jpeg/huffman/Huffman.java:28-39 | the answer does not depend on the cache: two coders with the same tree and table answer alike |
| `Huffman.RepeatedQueryIsStable` | newInfTec_3_1/src/main/java/com/github/modelflat/nit3/jpeg/huffman/Huffman.java:33-38 | a repeated query returns the same value from the cache |
| `Huffman.LengthsArePositive` | newInfTec_3_1/src/main/java/com/github/modelflat/nit3/jpeg/huffman/Huffman.java:20-25 | with two or more keys every code length is at least 1 |
| `Huffman.SingleKeyHasLengthZero` | newInfTec_3_1/src/main/java/com/github/modelflat/nit3/jpeg/huffman/Huffman.java:36-43 | a one-key table has code length 0 |
| `Util.AddSubCancel` | ciphers2_2/main/ciphers/rc6.py:32-47 | subtracting modulo 2^32 undoes adding, and the other way round |
| `Util.WordBitsRoundTrip` | ciphers2_2/main/util.py:7-14 | a word and its list of 32 bits convert into each other |
| `Util.RotlBit` | ciphers2_2/main/util.py:7-9 | `rotl32(x, y)` rotates left by `y mod 32`: bit i is bit `i - s` of `x`, counted round the word |
| `Util.RotrBit` | ciphers2_2/main/util.py:12-14 | `rotr32(x, y)` rotates right by `y mod 32`: bit i is bit `i + s` of `x`, counted round the word |
| `Util.RotationsAreInverse` | ciphers2_2/main/util.py:7-14 | `rotr32(rotl32(x, y), y) = x` and `rotl32(rotr32(x, y), y) = x` |
| `Util.ZeroAmount` | ciphers2_2/main/util.py:7-14 | a rotation amount that is a multiple of 32 leaves the word alone |
| `Util.XorCancel` | ciphers2_2/main/ciphers/rc6.py:32-47 | xor-ing a word with the same mask twice gives it back |
| `Util.DemoValues` | ciphers2_2/main/util.py:17-19 | `rotl32(0x80000000, 1) = 1` and `rotr32(0x80000000, 1) = 0x40000000` |
| `Rc6.WordBytesRoundTrip` | ciphers2_2/main/ciphers/rc6.py:14 | four little-endian bytes and a word convert into each other |
| `Rc6.KeyWordsOf` | ciphers2_2/main/ciphers/rc6.py:14 | unpacking the key succeeds exactly when its length is a multiple of 4, giving one word per four bytes |
| `Rc6.InitialTable` | ciphers2_2/main/ciphers/rc6.py:15-18 | before mixing `S[0] = P` and `S[k] = S[k-1] + Q` modulo 2^32 |
| `Rc6.MixStep` | ciphers2_2/main/ciphers/rc6.py:22-26 | one mixing pass rewrites `S[i]` and `L[j]` only, and moves `i` modulo `t` and `j` modulo `c` |
| `Rc6.ExpandKey` | ciphers2_2/main/ciphers/rc6.py:6-27 | key expansion succeeds exactly for a key of at least 16 bytes whose length is a multiple of 4, and then yields `t = 42` words |
| `Rc6.MixReadsFirstKeyWords` | ciphers2_2/main/ciphers/rc6.py:20-26 | the mixing loop reads only the first `c = 4` key words |
| `Rc6.ExpandKeyReadsSixteenBytes` | ciphers2_2/main/ciphers/rc6.py:6-27 | two keys that agree on their first 16 bytes expand to the same table |
| `Rc6.RoundsAreInverse` | ciphers2_2/main/ciphers/rc6.py:30-47 | each decryption round undoes the matching encryption round, and the other way round |
| `Rc6.DecryptUndoesEncrypt` | ciphers2_2/main/ciphers/rc6.py:30-47 | `decrypt(encrypt(b, S), S) = b` and `encrypt(decrypt(b, S), S) = b` for every block and every table of at least 40 words |
| `Rc6.EncryptReadsFortyWords` | ciphers2_2/main/ciphers/rc6.py:30-37 | the rounds read only the table words they are keyed with, so encryption reads only `S[0..39]` |
| `Ciphers.Xor` | ciphers2_2/main/ciphers/_ciphers.py:13-15 | the xor of two blocks of equal length has that length |
| `Ciphers.XorSelfInverse` | ciphers2_2/main/ciphers/_ciphers.py:13-15 | `xor(xor(a, b), b) = a` |
| `Ciphers.XorSymmetric` | ciphers2_2/main/ciphers/_ciphers.py:13-15 | `xor(a, b) = xor(b, a)` |
| `Ciphers.Segmentize` | ciphers2_2/main/ciphers/_ciphers.py:18-24 | the segments partition `[0, size)` in tag order; below `n^2` items (or `seg_size` per thread) there is one segment, otherwise `n` non-empty ranges of `size / n` items, the last running on to `size` |
| `Ciphers.EvenSegmentsPartition` | ciphers2_2/main/ciphers/_ciphers.py:22-24 | with at least `n^2` items, the even split is a partition into non-empty ranges |
| `Ciphers.SortByTag` | ciphers2_2/main/ciphers/_ciphers.py:36-41 | sorting by tag gives a sorted permutation of the pieces |
| `Ciphers.InsertKeepsSorted` | ciphers2_2/main/ciphers/_ciphers.py:36-41 | inserting a piece keeps a sorted list sorted |
| `Ciphers.SortedIsUnique` | ciphers2_2/main/ciphers/_ciphers.py:36-41 | with distinct tags there is one sorted order of a given multiset of pieces |
| `Ciphers.CleanupAnyOrder` | ciphers2_2/main/ciphers/_ciphers.py:36-41 | whatever order the pieces arrived in, `cleanup_result` concatenates their contents in tag order |
| `Ciphers.ParallelIsSequential` | ciphers2_2/main/ciphers/_ciphers.py:18-41 | the pieces of a partition, arriving in any order, reassemble to the sequential result |
| `Ciphers.Collected` | ciphers2_2/main/ciphers/_ciphers.py:27-33 | the shared list holds the piece of every routine that returned, and nothing when every routine raised |
| `Ciphers.EcbParallel` | ciphers2_2/main/ciphers/_ciphers.py:52-68 | the `_ECB` threads, finishing in any order, give `out[i] = block_fn(data[i], key)` for every block |
| `Ciphers.EcbRoundTrip` | ciphers2_2/main/ciphers/_ciphers.py:52-76 | ECB decryption undoes ECB encryption whenever `D(E(x)) = x` |
| `Ciphers.CbcEncrypt` | ciphers2_2/main/ciphers/_ciphers.py:79-84 | `c_0 = E(IV xor p_0)` and `c_i = E(c_{i-1} xor p_i)` |
| `Ciphers.CbcRoutine` | ciphers2_2/main/ciphers/_ciphers.py:93-103 | a `_CBC_decrypt` routine raises exactly when it is the first one and there is no data |
| `Ciphers.CbcParallel` | ciphers2_2/main/ciphers/_ciphers.py:87-107 | the `_CBC_decrypt` threads, finishing in any order, give `p_i = D(c_i) xor c_{i-1}` with `c_{-1} = IV`; with no data the result is empty |
| `Ciphers.CbcRoundTrip` | ciphers2_2/main/ciphers/_ciphers.py:79-107 | CBC decryption undoes CBC encryption whenever `D(E(x)) = x` |
| `Ciphers.PcbcRoundTrip` | ciphers2_2/main/ciphers/_ciphers.py:110-127 | PCBC decryption, chaining `prev = p_i xor c_i`, undoes PCBC encryption whenever `D(E(x)) = x` |
| `Ciphers.CfbEncrypt` | ciphers2_2/main/ciphers/_ciphers.py:130-135 | `c_0 = E(IV) xor p_0` and `c_i = E(c_{i-1}) xor p_i` |
| `Ciphers.CfbRoutine` | ciphers2_2/main/ciphers/_ciphers.py:144-154 | a `_CFB_decrypt` routine raises exactly when it is the first one and there is no data |
| `Ciphers.CfbParallel` | ciphers2_2/main/ciphers/_ciphers.py:138-158 | the `_CFB_decrypt` threads, finishing in any order, compute the sequential CFB decryption |
| `Ciphers.CfbRoundTrip` | ciphers2_2/main/ciphers/_ciphers.py:130-158 | CFB decryption, which uses only `E`, undoes CFB encryption for any length-keeping block function |
| `Ciphers.Pad` | ciphers2_2/main/ciphers/_ciphers.py:214-216 | the padded data is the data followed by fewer than `size` zero bytes, up to a multiple of `size` |
| `Ciphers.Blockify` | ciphers2_2/main/ciphers/_ciphers.py:210-230 | `blockify` yields `ceil(len / size)` blocks, as many as the padded data has chunks |
| `Ciphers.Unpack` | ciphers2_2/main/ciphers/_ciphers.py:220-226 | block `i` is chunk `i` of the padded data, unpacked |
| `Ciphers.BlockifyParallel` | ciphers2_2/main/ciphers/_ciphers.py:210-230 | the `blockify` threads, finishing in any order, unpack every chunk in order |
| `Ciphers.Rc6Inverts` | ciphers2_2/main/ciphers/rc6.py:30-47 | with a table of at least 40 words, `rc6.decrypt` undoes `rc6.encrypt` on every two-word block |
| `Ciphers.Rc6ModesRoundTrip` | ciphers2_2/main/ciphers/_ciphers.py:52-167 | ECB, CBC, PCBC and CFB all round-trip with rc6 under a table from `expand_key` |

## Left out

- The discrete cosine transforms (`fdct`, `idct` and the factors `c(u, v)`) work in floating point with cosines and square roots and are not modelled. `compress` and `decompress` are left out with them, since each calls a transform.
- IEEE `float` rounding in Block: samples are exact reals.
- `saveImage`, `print`, `printMatrix` and `Huffman.printSizes` write images or text.
- `Main.java`, `Settings.java` and `GnuplotInterface.java` (command line, files, gnuplot) are not part of this model.
- Array aliasing: the Java constructor keeps the caller's array, and `iterator()` returns the iterator itself. Values here are immutable, so neither sharing can be expressed.
- The tie-break among equal weights in `PriorityQueue`, and the `HashMap` iteration order: the model merges any two lightest trees and makes the leaves in any order.
- HuffmanTree.MakeNode: node weights are unbounded integers; Java's `int` overflow of a node's weight is not modelled. The wrap-around of `compareTo` is modelled in `HuffmanTree.CompareTo`, but the merge order does not follow it (next line).
- Huffman.LightestTree: picks a tree of least exact weight, whereas `poll()` orders by the wrapping `compareTo`. The two agree for non-negative 32-bit weights, which is what a frequency table holds, and which the method proves. For weights more than 2^31 - 1 apart they differ. For example, with {A: -2^31, B: 1, C: 2} Java merges B and C first, but the model merges A first (see `HuffmanTree.CompareToDisagreesWithWeight`). Such a comparator is not a total order, so the queue's choice then depends on its heap layout.
- Blocks.QuantizationMatrix: the cells are unbounded integers; Java's `int` overflow of `1 + (i + j + 1) q` for huge `q` is not modelled.
- Threads, locks and `execute`: each routine runs to completion and the pieces arrive in any order.
- `generate_key` and `generate_IV` draw from `os.urandom`; keys and IVs are parameters.
- `deblockify`, the `_raw`, `raw_encrypt` and `raw_decrypt` dispatch, and the file streams are I/O glue and are not modelled.
- `ciphers/__init__.py` and `main.py` are not part of this model.
- numpy dtype promotion: words are integers in [0, 2^32) with explicit wrap-around, as `uint32` arithmetic gives.
- Ciphers.Xor: `element_wise_xor` asserts that the lengths are equal; here that is a precondition.
- Ciphers.Segmentize: a thread count of 0 makes Python divide by zero; here a thread count of at least 1 is a precondition.
- Ciphers.Blockify: an empty block format makes Python fail on `% 0`; here a block size of at least 1 is a precondition.
- Ciphers.Rc6Encrypt, Ciphers.Rc6Decrypt: Python raises on a block of fewer than two words or a table shorter than 40 words; the model returns such a block unchanged. A longer block is cut to its two encrypted words, as in Python. The round trips are stated only for two-word blocks and tables from `expand_key`.
- Rc6.WordOf, Rc6.BytesOf: `struct` format `"I"` without a prefix uses the host's native byte order; the model takes it to be little-endian.
- Rc6.Encrypt and Rc6.Decrypt require a table of at least 40 words, where Python would raise an `IndexError`.
- `expand_key` also accepts a `str` key, which it encodes first; the model takes bytes.

## Findings

| source | as written | input that shows it | evidently intended | confidence | as-written member | corrected member |
|---|---|---|---|---|---|---|
| newInfTec_3_1/src/main/java/com/github/modelflat/nit3/jpeg/Block.java:30 | the constructor checks the length of row 0 only | eight rows where rows 1..7 are empty: accepted, and later cell accesses go out of bounds | every one of the eight rows has eight cells | not executed | `Blocks.RaggedArrayAccepted` | `Blocks.NewBlock` |
