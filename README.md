# Static Huffman coder for ASCII files — a verified model

The system compresses an ASCII file in four steps:

1. It splits the file into `n` contiguous chunks and counts the characters of each chunk into a 128-entry table. Then it sums the tables.
2. It builds a Huffman tree from the counts with the two-queue merge and extracts a `(length, code)` table by a depth-first walk.
3. It packs every chunk's codes, most significant bit first, into bytes with an 8-bit accumulator.
4. It writes a container: the chunk count, the 128 counts, then per chunk its size, a padding byte and its bytes.

The decoder in `test/decode_test.cpp` reads the container, rebuilds the tree and walks the bits of each chunk.

The model follows the same structure, one module per part:

| file | module | models |
|---|---|---|
| `chunking.dfy` | `Chunking` | the reader split: `filesize / n` bytes per chunk, the last also gets `filesize % n` |
| `counting.dfy` | `Counting` | the per-chunk counting loops (`count_chars`, `freqTask::svc`, `count_characters`) over arrays, and the join |
| `huffman_tree.dfy` | `Huffman` | the tree as a datatype; leaf creation, `min_node`, the merge loop with its queue invariants |
| `huffman_node.dfy` | `HuffmanNodes` | the heap node class with its set-once setters, and the linking done in the merge loops |
| `codes.dfy` | `Codes` | the code of a symbol as its leaf path; prefix-freeness; the code table |
| `huffman_tree_class.dfy` | `HuffmanTrees` | the `HuffmanTree` class: both constructors, in-place `extract_codes_rec` |
| `encoder.dfy` | `Encoder` | `encode_chunk`: the accumulator loop, the code-splitting, the left-aligned flush, the padding |
| `container.dfy` | `FileFormat` | the byte layout of the compressed file, its writer and its parser, and their round trip |
| `decoder.dfy` | `Decoder` | the bit-walking decoder as written, a corrected decoder, and their round-trip lemmas |
| `pipeline.dfy` | `Pipeline` | the driver: split, count, build, encode, write; the end-to-end theorems |
| `wrappers.dfy` | `Wrappers` | `Option` |
| `bits.dfy` | `Bits` | bit strings, shifts, `|`, the 8-bit truncation and their lemmas |

## Modelling choices

- **Bits and bytes.**
  - A byte is a value in 0..255 and a bit string is a `seq<bool>`, most significant bit first.
  - The `char` accumulator is kept modulo 256: the source writes `(buffer << k) | x` into a `char`, which keeps the low 8 bits of the `int` result.
  - `>>` is repeated halving, `<<` is multiplication by a power of two, and `|` is defined on naturals.
  - Sign extension of a negative `char` only changes bits at position 8 and above, so it does not matter.
- **The packing invariant.**
  - After a code is split, the code is not masked, so bits already consumed sit above the pending ones.
  - The model keeps exactly that: the pending bits are only the low `buf_len` bits of the accumulator.
  - `Encoder.Pending` is the bit string the output bytes, the accumulator and the unconsumed code bits stand for, and every branch of the loop preserves it.
- **The tree** is an immutable datatype `Leaf(ch, f) | Node(f, left, right)`, and the queues are sequences.
  - `std::sort` is not stable. Any ascending permutation of the leaves can come out, so the constructors take that order as the parameter `sortedLeaves`, constrained by `HuffmanTrees.SortedPermutationOf`.
  - The decoder gets the same order as the encoder.
- **Duplicate symbols.** The last write in the depth-first extraction wins, so `Codes.PathTo` prefers the right subtree. For trees built from a count table every symbol has one leaf anyway.
- **Integer layout.**
  - `int`s are written in little-endian two's complement; the source writes them in native byte order.
  - The padding byte is a signed `char`.
- **Decoder stop.** The decoder's `return 0` from `main` is the `stop` result of `Decoder.DecodeChunk`, after which `Decoder.DecodeFile` returns.

## Model

| member | source | states |
|---|---|---|
| Chunking.SplitChunks | src/par_hc.cpp:194-203 | exactly `n` chunks; chunk `i` is `ChunkOf(file, n, i)`, `filesize / n` bytes with the remainder on the last; their concatenation is the file |
| Chunking.ReadChunk | src/par_hc.cpp:196-203 | one read: chunk `i` is the slice from the end of chunk `i - 1`, `filesize / n` bytes plus `filesize % n` for the last, and the next offset stays within the file |
| Chunking.ChunkOf | src/ff_hc.cpp:73-84 | chunk `i` has `filesize / n` bytes, plus `filesize % n` for the last |
| Chunking.LengthsSum | src/par_hc.cpp:169-203 | the chunk sizes add up to the file size |
| Chunking.LengthsPrefix | src/ff_hc.cpp:74-84 | chunk `k` starts at `k * (filesize / n)`; after the last chunk the whole file is read |
| Chunking.ChunkOfSlice | src/par_hc.cpp:196-203 | every chunk is a slice of the file inside its bounds |
| Chunking.ConcatCons | src/ff_hc.cpp:75-84 | the chunks laid end to end, read from the front |
| Counting.CountChars | src/par_hc.cpp:178-187 | after the loop every entry `c` of the table grew by the number of occurrences of `c` in the chunk |
| Counting.CountCharacters | src/utils/utils.cpp:6-23 | the result has 128 entries and entry `c` is the number of occurrences of `c` in the input |
| Counting.CountsSumToSize | src/utils/utils.cpp:17-20 | for input in 0..127 the counts sum to the input size |
| Counting.JoinCounts | src/par_hc.cpp:219-227 | a 128-entry table whose entry `i` is the sum of entry `i` over the partial tables |
| Counting.PartitionAndSum | src/ff_hc.cpp:246-251 | summing the chunk tables column by column gives the occurrences in the concatenated chunks |
| Counting.JoinedCountsOfChunks | src/par_hc.cpp:219-227 | the joined table of the chunks of a file is the count table of the file |
| Counting.OccurrencesAppend | src/ff_hc.cpp:113-115 | counting is additive over concatenation |
| Counting.OccurrencesBound | src/utils/utils.cpp:17-20 | no count exceeds the input size |
| Counting.OccursPositive | src/utils/utils.cpp:19 | every byte of the input has a nonzero count |
| Huffman.MakeLeaves | src/classes/huffman_tree.cpp:167-172 | the leaves are `NonzeroLeaves(counts, limit)` |
| Huffman.NonzeroLeavesExact | src/huffman_tree/huffman_tree.cpp:77-83 | a leaf exists exactly for each index below the limit with a nonzero count, carries that count, and the leaves are in increasing symbol order |
| Huffman.LeavesOf | src/classes/huffman_tree.hpp:22-41 | a tree has at least one leaf and its leaves are leaves |
| Huffman.MinNode | src/classes/huffman_tree.cpp:190-216 | pops the front of one queue and leaves the other unchanged; the popped frequency is at most both fronts; on a tie the merged-node queue is popped |
| Huffman.MinNodeIsMinimum | src/seq_hc.cpp:18-41 | with both queues ascending, the popped node is no heavier than any queued node |
| Huffman.MergeStep | src/seq_hc.cpp:47-61 | one iteration removes two nodes and adds one |
| Huffman.CreateHuffmanTree | src/classes/huffman_tree.cpp:219-239 | the loop's result is `HuffmanOf(leafQueue)`, the merge function of the sorted leaves |
| Huffman.MergeStepKeeps | src/huffman_tree/huffman_tree.cpp:126-139 | a merge keeps the leaves and the total frequency of the two queues |
| Huffman.MergeKeeps | src/seq_hc.cpp:47-67 | the root holds exactly the queued leaves and weighs their total frequency |
| Huffman.MergeWellFormed | src/classes/huffman_tree.hpp:27-31 | every internal node's frequency is the sum of its children's |
| Huffman.MergeIsNode | src/classes/huffman_tree.cpp:234-239 | with two or more queued nodes the root is an internal node |
| Huffman.MergeStepOrder | src/seq_hc.cpp:47-61 | the merge keeps both queues ascending and pushes no lighter node than the last one pushed |
| Huffman.PushedAscending | src/seq_hc.cpp:54-60 | the frequencies pushed onto the merged-node queue are nondecreasing |
| Huffman.HuffmanPushesAscending | src/seq_hc.cpp:47-61 | from sorted leaves, the `|leaves| - 1` pushed frequencies are nondecreasing |
| Huffman.PushedLength | src/seq_hc.cpp:47-61 | the loop runs `|lq| + |cq| - 1` times |
| Huffman.HuffmanOfKeeps | src/huffman_tree/huffman_tree.cpp:126-146 | the tree of the sorted leaves holds exactly those leaves, weighs their total, has `leaves - 1` internal nodes, is well formed, and is a node for two or more leaves |
| Huffman.LeavesInternal | src/classes/huffman_tree.cpp:219-232 | a full binary tree has one more leaf than internal nodes |
| Huffman.QueueWeightPermutation | src/classes/huffman_tree.cpp:174-176 | the total frequency does not depend on the order the sort leaves the leaves in |
| HuffmanNodes.HuffmanNode.constructor | src/huffman_tree/huffman_node_class.cpp:3-6 | the node holds its symbol and frequency and has no pointers |
| HuffmanNodes.HuffmanNode.SetLeftChild | src/huffman_tree/huffman_node_class.cpp:14-24 | succeeds and stores the child iff the left child was null; changes nothing else |
| HuffmanNodes.HuffmanNode.SetRightChild | src/huffman_tree/huffman_node_class.cpp:25-35 | succeeds and stores the child iff the right child was null; changes nothing else |
| HuffmanNodes.HuffmanNode.SetParent | src/huffman_tree/huffman_node_class.cpp:36-46 | succeeds and stores the parent iff it was null; changes nothing else |
| HuffmanNodes.Combine | src/classes/huffman_tree.cpp:224-227 | a fresh internal node with the summed frequency, `min` on the left and `second_min` on the right |
| HuffmanNodes.CombineWithParent | src/seq_hc.cpp:54-58 | as above; `min` gets the new node as parent only if it had none, the second `setParent` fails, `second_min` gets no parent |
| Codes.PathTo | src/classes/huffman_tree.cpp:140-155 | a symbol's code is no longer than the tree is high, and at least one bit below an internal root |
| Codes.PathReachesLeaf | src/classes/huffman_tree.cpp:143-152 | following a symbol's code from the root ends at a leaf carrying that symbol |
| Codes.PrefixFree | src/classes/huffman_tree.cpp:140-155 | no symbol's code is a prefix of another symbol's code |
| Codes.CodeTable | src/classes/huffman_tree.hpp:77-84 | the table has one entry per symbol; each code is below `2^length`, each length at most the height; symbols without a leaf keep `(0, 0)` |
| Codes.EntryBits | src/huffman_tree/huffman_tree.cpp:60-74 | a table entry written out in its length is the symbol's leaf path |
| Codes.LeafHasSymbol | src/classes/huffman_tree.cpp:143-145 | every leaf's symbol is a symbol of the tree |
| HuffmanTrees.HuffmanTree.constructor | src/classes/huffman_tree.cpp:165-244 | the root is the merge of the sorted leaves and is an internal node; the 256-entry code table is `CodeTable(root, 256)` |
| HuffmanTrees.HuffmanTree.Ascii | src/huffman_tree/huffman_tree.cpp:76-151 | the same over the first 128 counts with a 128-entry table |
| HuffmanTrees.HuffmanTree.ExtractAll | src/classes/huffman_tree.cpp:242-243 | the two calls on the root's children fill the table with every symbol's (path length, path value) |
| HuffmanTrees.HuffmanTree.ExtractCodesRec | src/classes/huffman_tree.cpp:140-155 | every symbol of the subtree gets `(length + depth, code * 2^depth + path)`; other entries are unchanged |
| HuffmanTrees.TreeSymbolsBelow | src/classes/huffman_tree.hpp:67 | the tree of a count table only has symbols that index the table |
| HuffmanTrees.RootWeight | src/huffman_tree/huffman_tree.cpp:141-146 | the root's frequency is the sum of the counts |
| HuffmanTrees.NonzeroLeavesWeight | src/classes/huffman_tree.cpp:167-172 | the leaves weigh the sum of the counts |
| Encoder.EntryCode | src/par_hc.cpp:56-58 | an entry's bits have its length and read back as its code; length 0 gives no bits |
| Encoder.FlushStep | src/par_hc.cpp:63-69 | flushing the full accumulator keeps the pending bits |
| Encoder.FitStep | src/par_hc.cpp:72-78 | the fit branch keeps the pending bits, also with an unmasked code after a split |
| Encoder.SplitStep | src/par_hc.cpp:81-87 | the split branch fills the accumulator with the code's high bits and keeps the pending bits |
| Encoder.LeftAlign | src/par_hc.cpp:91-93 | the last byte holds the pending bits followed by zeros |
| Encoder.PackCode | src/par_hc.cpp:61-88 | `buf_len` stays in 0..8 and the pending bits grow by exactly the entry's bits |
| Encoder.EncodeChunk | src/par_hc.cpp:38-100 | the bytes read MSB first are the chunk's codes in input order and then zeros; there are `ceil(bits / 8)` of them; the padding is 8 for no bits, else in 0..7, and 0 exactly when the bit count is a multiple of 8 |
| Encoder.EncodeWithTree | src/ff_hc.cpp:324-362 | with a tree at most 31 levels deep, the table is usable and its codes are the leaf paths of the symbols |
| Encoder.PathsAppend | src/ff_hc.cpp:324-327 | appending a symbol appends its code |
| FileFormat.Int32RoundTrip | src/par_hc.cpp:273-278 | an `int` written as four bytes reads back as itself |
| FileFormat.Int32BytesRoundTrip | test/decode_test.cpp:19-25 | four bytes read as an `int` and written back are the same bytes |
| FileFormat.HeaderBytes | src/ff_hc.cpp:296-299 | the header is four bytes for the chunk count and four per count |
| FileFormat.ChunkBytes | src/ff_hc.cpp:376-380 | a chunk is four size bytes, a padding byte and its data |
| FileFormat.ParseChunksRoundTrip | src/par_hc.cpp:281-297 | the chunks written one after the other parse back in order |
| FileFormat.ParseSerialize | test/decode_test.cpp:19-44 | the decoder's reads recover exactly the chunk count, counts and chunk records the writer wrote |
| Decoder.DecodeFile | test/decode_test.cpp:19-74 | the decoder rebuilds the tree from the header's counts and its output is `DecodeChunks`: the chunk walks, up to the first that stops |
| Decoder.DecodeChunk | test/decode_test.cpp:30-72 | a chunk's byte loop gives exactly `Walk` over its bits, MSB first, with `real_size = chunk_size * 8 - padding` |
| Decoder.DecodeByte | test/decode_test.cpp:52-71 | the bit loop over one byte, `buf_shift` from 7 to 0, continues `Walk` at the counter |
| Decoder.DecodeBit | test/decode_test.cpp:55-69 | one bit: the leaf check, then the `counter == real_size` return, then the move by `(buf >> buf_shift) & 1`, is one step of `Walk` |
| Decoder.WalkDescend | test/decode_test.cpp:63-68 | following a symbol's code steps from an internal node to its leaf |
| Decoder.WalkCodes | test/decode_test.cpp:55-62 | the walk over the codes of `xs` emits all of `xs` if bits follow, else all but the last |
| Decoder.UnpaddedChunkLosesLast | test/decode_test.cpp:52-71 | a chunk with padding 0 decodes without its last symbol and decoding goes on |
| Decoder.PaddedChunkEndsDecoding | test/decode_test.cpp:60-62 | a chunk with padding 1..7 decodes in full and then decoding ends |
| Decoder.UnpaddedChunkExample | test/decode_test.cpp:52-71 | eight alternating 1-bit codes in one byte decode to seven symbols (eight with the fix) |
| Decoder.PaddedChunksExample | test/decode_test.cpp:60-62 | two chunks "ab" decode to "ab" (to "abab" with the fix) |
| Decoder.FixedRoundTrip | test/decode_test.cpp:52-71 | the corrected walk over the codes of `xs` gives `xs` |
| Decoder.FixedChunkRoundTrip | src/par_hc.cpp:91-97 | a chunk as the encoder leaves it decodes, over its useful bits, to its symbols |
| Pipeline.CountChunks | src/par_hc.cpp:172-227 | per-chunk tables joined give the count table of the concatenated chunks |
| Pipeline.EncodeRecord | src/par_hc.cpp:265-266 | `encode_chunk` with a code table whose bits for the chunk are its tree paths gives a record holding those paths then zeros, with its padding, at most 4 bytes per symbol |
| Pipeline.EncodeChunks | src/par_hc.cpp:264-267 | each chunk's record holds its codes then zeros with the matching padding, and at most 4 bytes per symbol |
| Pipeline.WriteContainer | src/par_hc.cpp:273-297 | the bytes written are `Serialize` of the counts and the records in chunk order |
| Pipeline.FileSymbolsInTree | src/classes/huffman_tree.cpp:167-172 | every byte of the file has a leaf in the tree built from the file's counts |
| Pipeline.PathsBound | src/par_hc.cpp:55-89 | with codes of at most 31 bits, a chunk gives at most 31 bits per symbol |
| Pipeline.FixedDecodes | test/decode_test.cpp:30-74 | the corrected decoder recovers the concatenation of the encoded chunks |
| Pipeline.AsWrittenDecodes | test/decode_test.cpp:30-74 | the decoder as written recovers `AsWrittenOutput` of the chunks |
| Pipeline.AsWrittenChunk | test/decode_test.cpp:52-71 | on one encoded chunk the decoder as written adds nothing for an empty chunk, drops the last symbol and goes on when the codes fill whole bytes, and otherwise gives every symbol and stops |
| Pipeline.CompressFile | src/par_hc.cpp:160-297 | the output parses; it carries the file's count table and one record per chunk; the corrected decoder recovers the file; the decoder as written recovers `AsWrittenOutput` |

## Left out

- File streams, `getopt`, `std::filesystem`, the logger and the timers are I/O and are not modelled. The file is a sequence of byte values and the compressed file a sequence of bytes.
- Threads, `std::async`, the FastFlow farm and the mutex/condition-variable write gate are not modelled. Each chunk has its own table and result, so their outcome is the sequential one; the model keeps the written order, chunk index order.
- Huffman optimality (minimal weighted code length) is not stated; the source does not claim it.
- The parent pointer is modelled only in `HuffmanNodes`. The tree values have no parent, as nothing reads it.
- The getters are plain field reads and are not separate members.
- The tree is built from values, not from linked heap nodes. `HuffmanNodes` models the linking one merge at a time; aliasing between nodes of the datatype tree is not modelled.
- The `unsigned char` symbol of a leaf truncates indices of 256 and above. `HuffmanTrees.HuffmanTree.constructor` requires at most 256 counts instead.
- HuffmanTrees.HuffmanTree.constructor: requires at least two nonzero counts. With fewer the source dereferences a null child or reads an empty queue.
- HuffmanTrees.HuffmanTree.ExtractCodesRec: the code is an unbounded natural; the source's 32-bit `int` code overflows beyond depth 31. The encoder requires entries of at most 31 bits instead.
- Encoder.EncodeChunk: requires every symbol to index the table with a code below `2^length` and a length of at most 31. Signed `char` bytes of 128 and above index the table with a negative value in the source, which is undefined.
- Counting.CountChars: requires every byte to index the table. Bytes of 128 and above are out of bounds in the source.
- Pipeline.CompressFile: requires `4 * filesize <= 2^31 - 1` and a tree at most 31 levels deep. The factor 4 is the model's own bound, not the source's: the model does not bound the encoded size below 31 bits per symbol (`Pipeline.PathsBound`), so it needs the margin to keep every chunk's encoded size within a 32-bit `int`. The source's `int filesize` and counts overflow only past `2^31 - 1` bytes, so files of `2^29` to `2^31 - 1` bytes, which the source encodes, are outside the model.
- Decoder.DecodeChunk: `Decoder.RealSize` (`chunk_size * 8 - padding`) and the bit counter are unbounded integers, while the source's `real_size` and `counter` are 32-bit `int`s that overflow for a chunk of more than `2^28` bytes. The model does not capture that overflow, so `Decoder.Walk`, `Decoder.DecodeChunk`, `Pipeline.AsWrittenDecodes` and `Pipeline.FixedDecodes` describe the decoder over exact arithmetic for such chunks.
- FileFormat.Parse returns no result for a truncated file or a negative size. The source reads past the end of the stream without checking.
- The byte order of the written `int`s is fixed as little endian. The source writes native order.

## Findings

| source | as written | input that shows it | evidently intended | confidence | as-written member | corrected member |
|---|---|---|---|---|---|---|
| test/decode_test.cpp:52-71 | the leaf check runs before each bit but never after the last one, so when a chunk's codes fill its bytes exactly (padding 0) the last symbol is never emitted | the chunk "abababab" with `a` = 0 and `b` = 1: one byte `0x55`, padding 0, decodes to "abababa" | every symbol of the chunk is emitted | not executed | Decoder.UnpaddedChunkExample | Decoder.FixedChunkRoundTrip |
| test/decode_test.cpp:60-62 | `return 0` on `counter == real_size` leaves `main`, so decoding ends with the first chunk whose codes end inside its last byte | two chunks "ab", each one byte `0x40` with padding 6, decode to "ab" | the chunk loop goes on with the next chunk | not executed | Decoder.PaddedChunksExample | Pipeline.FixedDecodes |
