# Huffman compression engine, modelled in Dafny

The model covers the core of a small command-line Huffman compressor. The compressor works in four steps:

1. It counts the bytes of its input.
2. It builds a Huffman tree. A priority queue ordered by `Compare` holds the nodes, and the two best nodes are merged until one is left.
3. It derives a code map in which each leaf gets its root-to-leaf path, '0' for a left step and '1' for a right step. It concatenates the codes of the input bytes into a bit stream.
4. It packs that stream into bytes, most significant bit first, after the 4-byte tag "HUFF".

On the way back:

- the unpacking loop recovers at most a given number of bits from those bytes;
- `decodeHuffmanCode` walks the tree bit by bit;
- a separate loop rebuilds a frequency table from dictionary pairs.

Modules, one file each:

- `Bytes` (`bytes.dfy`): the `byte` and `uint32` ranges, `Option`, and bit strings.
- `Frequencies` (`frequencies.dfy`): `calculateFrequencies` and the pair loop of `getDictionaryFrequencies`, both as loops. `Total` sums a table.
- `Tree` (`tree.dfy`):
  - `Node`, `Compare`, and `huffmanTree` as an imperative loop over a queue held in a sequence.
  - The queue's top is any node that `Compare` ranks first.
  - The loop invariant is that the queue keeps its bag of leaves and its total frequency.
  - A ghost trace of the queues records that each iteration merges the two tops, with the first popped on the left.
- `CodeTable` (`code_table.dfy`): `printHuffmanTree` as a function that threads the map it fills. Its codes are paths to leaves and are prefix-free.
- `Decoder` (`decoder.dfy`):
  - `decodeHuffmanCode` as a loop, proved equal to the recursive `Resume`/`Decode`.
  - `Resume` and `Decode` are the references for the round-trip lemmas.
- `BitFraming` (`bit_framing.dfy`): the packing and unpacking loops.
  - The packing loop is proved equal to the chunkwise `Pack`, and the unpacking loop to `Unpacked`.
  - Lemmas prove MSB-first order, zero padding, exact lengths and the pack/unpack round trip.
- `Compressor` (`compressor.dfy`): the encode steps of the compress mode of `main`, with the end-to-end round trips.

Modelling choices:

- A C++ null tree is `None`.
- The crash that `decodeHuffmanCode` hits after dereferencing a missing child is the explicit result `NullChild`. That child is missing after any valid bit when the root is a lone leaf.
- The reader's bit count is a `uint32` parameter.

## Model

| member | source | states |
|---|---|---|
| BitFraming.Pow2 | src/utilities.cpp:100 | 2^n is positive; it bounds the value of an n-bit buffer |
| BitFraming.Val | src/utilities.cpp:98-101 | the value a bit string spells MSB first (what the shifted buffer holds) is below 2^length |
| BitFraming.BitAt | src/utilities.cpp:141 | `(byte & (1 << i)) != 0` as a digit: it is 0 or 1 |
| BitFraming.Magic | src/utilities.cpp:80 | the tag "HUFF" as the bytes 72, 85, 70, 70; `WriteCompressed` states that the file starts with it |
| BitFraming.ShiftLeft | src/utilities.cpp:111 | `buffer << n` on the buffer's value, as n doublings; `PaddedByte`, `ValPadded` and `FlushLast` state what it yields |
| BitFraming.BitValue | src/utilities.cpp:100 | `bit - '0'` for a bit character, 1 for '1' and 0 for '0'; `ShiftIn` and `Val` are stated through it |
| BitFraming.Pack | src/utilities.cpp:96-113 | the packed bytes of a stream: eight bits per byte, MSB first, with the last group zero-padded; there are ceil(n/8) of them |
| BitFraming.WriteCompressed | src/utilities.cpp:95-113 | the packing loop writes the "HUFF" tag followed by exactly `Pack(bitstream)`: it shifts each bit in, flushes every eighth, and shifts a final partial byte up to the boundary |
| BitFraming.ShiftIn | src/utilities.cpp:100 | shifting the buffer left by one and or-ing in `bit - '0'` appends the bit to the value the buffer holds |
| BitFraming.FlushGroup | src/utilities.cpp:102-107 | when eight bits have been shifted in, the buffer is a byte, and putting it extends the file by the next byte of the packing |
| BitFraming.FlushLast | src/utilities.cpp:109-112 | a partial last group, shifted up by 8 - bitCount, is a byte and is the last byte of the packing |
| BitFraming.PaddedByte | src/utilities.cpp:111 | `buffer <<= (8 - bitCount)` yields the value of the group padded with zero bits |
| BitFraming.ValPadded | src/utilities.cpp:111 | appending n zero bits is a left shift by n |
| BitFraming.FullGroup | src/utilities.cpp:98-107 | each completed group of eight bits contributes one more packed byte |
| BitFraming.LastGroup | src/utilities.cpp:109-112 | a final group of fewer than eight bits contributes one padded byte |
| BitFraming.PackConcat | src/utilities.cpp:96-113 | packing splits at any whole-byte boundary of the stream |
| BitFraming.ValBits | src/utilities.cpp:100 | bit k of a bit string, from the left, is bit length-1-k of its value |
| BitFraming.PackMsbFirst | src/utilities.cpp:100-111 | MSB first: stream bit 8q+r is bit 7-r of byte q |
| BitFraming.PackPadding | src/utilities.cpp:109-112 | the bit positions of the last byte past the end of the stream are 0 |
| BitFraming.BitChar | src/utilities.cpp:141 | the character pushed for a bit value, '1' for 1 and '0' otherwise; `ExpandAt` and `UnpackedFacts` state which bit each character carries |
| BitFraming.ByteBits | src/utilities.cpp:137-141 | the eight characters the inner loop pushes for one byte, from bit 7 down to bit 0; `ExpandAt` states their positions |
| BitFraming.Unpacked | src/utilities.cpp:131-149 | what the unpacking loop leaves in `bitStream`: the first min(bitCount, 8k) bits of the expansion; `ReadCompressed` is proved equal to it and `UnpackedFacts` and `UnpackPack` state its properties |
| BitFraming.Expand | src/utilities.cpp:135-147 | every byte expands to eight bits |
| BitFraming.ExpandAt | src/utilities.cpp:137-141 | bit 8q+r of the expansion is bit 7-r of byte q, as the loop from i = 7 down to 0 pushes them |
| BitFraming.ReadCompressed | src/utilities.cpp:131-149 | the unpacking loop yields exactly the first min(bitCount, 8k) bits of the MSB-first expansion of the k bytes, including when the count runs out mid-byte |
| BitFraming.PushBit | src/utilities.cpp:139-141 | pushing bit i of the current byte extends the prefix of the expansion by one bit |
| BitFraming.UnpackedFacts | src/utilities.cpp:135-147 | unpacking yields min(count, 8k) bits, each '0' or '1', with bit i equal to bit 7 - i mod 8 of byte i / 8 |
| BitFraming.UnpackPack | src/utilities.cpp:131-149 | unpacking the packing of a bit stream with its length as the count gives the stream back, with no padding bit leaking out |
| BitFraming.PackedBit | src/utilities.cpp:100 | each stream bit survives packing then expanding |
| Frequencies.Get | src/utilities.cpp:50 | `frequencies[ch]` read through `operator[]`: the stored count, or 0 for a missing key; `TotalUpdate` and `TotalBelowUpdate` are stated through it |
| Frequencies.TotalUpdate | src/utilities.cpp:50 | setting one count changes the table's total by new minus old |
| Frequencies.TotalBelowUpdate | src/utilities.cpp:50 | the same for the partial sums over keys below k |
| Frequencies.TotalBelowEmpty | src/utilities.cpp:47 | the empty table sums to 0 |
| Frequencies.CalculateFrequencies | src/utilities.cpp:45-53 | the keys are exactly the bytes of the text, each count is the byte's number of occurrences, and the counts sum to the text's length |
| Frequencies.CharOf | src/utilities.cpp:73 | `static_cast<unsigned char>(charac)`: the value modulo 256; `DictionaryFrequencies` states the keys through it |
| Frequencies.DictionaryFrequencies | src/utilities.cpp:71-75 | the keys are the characters (`charac` mod 256) that some pair names, and each holds the frequency of the last pair naming it, since later pairs overwrite |
| Tree.CompareIsReversedKeyOrder | src/huffman.cpp:25-32 | `Compare(a, b)` holds exactly when (frequency, character) of a is greater than that of b; it is asymmetric; neither holds exactly when the keys are equal |
| Tree.CompareIsTransitive | src/huffman.cpp:25-32 | `Compare` and its complement are transitive, so it is a strict weak order |
| Tree.TopIndex | src/huffman.cpp:51-53 | `heap.top()` is a queued node that no other node outranks: smallest frequency, then smallest character |
| Tree.LeafBagShape | src/huffman.cpp:56-58 | a tree has at least one leaf; its bag holds leaves with its characters; it is a leaf iff it has one leaf; it has one internal node fewer than leaves |
| Tree.EntriesFacts | src/huffman.cpp:44-47 | the initial queue has one leaf per table entry, holding that entry, in ascending key order; its total frequency is the table's total and its bag of leaves is itself |
| Tree.EntriesBelowCount | src/huffman.cpp:44-47 | one leaf per key, counted over the keys below k |
| Tree.EntriesBelowMembers | src/huffman.cpp:44-47 | the leaves below k are exactly the entries below k |
| Tree.EntriesBelowSorted | src/huffman.cpp:44 | a `std::map` is visited in ascending key order |
| Tree.EntriesBelowTotal | src/huffman.cpp:44-47 | the frequencies of the leaves below k sum to the table's partial total |
| Tree.EntriesBelowLeaves | src/huffman.cpp:44-47 | the bag of leaves below k is the multiset of those leaves |
| Tree.HeapLeavesConcat | src/huffman.cpp:42-60 | the leaves of a queue split over concatenation |
| Tree.HeapFreqConcat | src/huffman.cpp:42-60 | the total frequency of a queue splits over concatenation |
| Tree.HeapRemoveLeaves | src/huffman.cpp:52-54 | popping a node takes exactly its leaves out of the queue |
| Tree.HeapRemoveFreq | src/huffman.cpp:52-54 | popping a node takes exactly its frequency out of the queue |
| Tree.SplitLeaves | src/huffman.cpp:52-54 | removing one node from the middle of a queue removes its leaves |
| Tree.RemoveAtMembers | src/huffman.cpp:52-54 | a pop leaves one node fewer, all from the queue |
| Tree.MergeWellFormed | src/huffman.cpp:56-58 | merging the top with another queued node gives a node whose frequency is the sum of its children and whose left child (popped first) comes no later than its right |
| Tree.MergeTopTwo | src/huffman.cpp:51-60 | one iteration is a `HuffmanStep`: the result is the queue without a top and without a top of the rest, plus their merge with the first popped as the left child; the queue shrinks by one, stays well formed, and keeps its leaves and its total frequency |
| Tree.MergeAt | src/huffman.cpp:51-59 | the queue after popping the top `heap[i]`, then the top `rest[j]` of what is left, and pushing `Internal(left.freq + right.freq, left, right)`; it states no lemma of its own, and `MergeTopTwo` and `ThreeLeafMerges` use it |
| Tree.HuffmanStep | src/huffman.cpp:51-59 | some choice of the two tops turns `heap` into `next` by `MergeAt`; it states no lemma of its own, and `MergeTopTwo` ensures it |
| Tree.HuffmanRun | src/huffman.cpp:40-63 | a run of `huffmanTree`: from the table's leaves in key order, by `HuffmanStep`s, to the queue holding just the root (or nothing); it states no lemma of its own, and `BuildHuffmanTree` ensures it |
| Tree.StepsSnoc | src/huffman.cpp:49-60 | one more iteration extends a run of steps by one queue |
| Tree.ThreeLeafMerges | src/huffman.cpp:51-59 | the steps fix which nodes merge: from leaves a:1, b:1, c:10, any two steps merge a and b first, with a on the left by the character tie-break, and then merge that pair with c |
| Tree.FirstOfThree | src/huffman.cpp:51-59 | from a queue of three nodes ranked a, then b, then c, the only step pops a, then b, and leaves c with `Internal(a.freq + b.freq, a, b)` |
| Tree.SecondOfTwo | src/huffman.cpp:51-59 | from a queue of two nodes of which y ranks first, the only step leaves `Internal(y.freq + x.freq, y, x)` |
| Tree.TopOfThree | src/huffman.cpp:51 | when a outranks b and c, `heap.top()` of the queue a, b, c can only be a |
| Tree.TopOfTwo | src/huffman.cpp:53 | when y outranks x, the top of the queue y, x can only be y |
| Tree.InitialHeap | src/huffman.cpp:44-47 | the pushes produce the initial queue of leaves |
| Tree.SoleNode | src/huffman.cpp:63 | the last queued node has exactly the table's entries as leaves and its keys as characters; it carries the total; it has n - 1 internal nodes and is a leaf iff n = 1 |
| Tree.BuildHuffmanTree | src/huffman.cpp:40-64 | the ghost `trace` of queues is a `HuffmanRun` of the table ending in the root, so every iteration merged the two tops; no tree iff the table is empty; a lone entry gives its leaf unmerged; otherwise the tree is well formed, its leaves are exactly the entries, its root carries the total, and it has n - 1 internal nodes |
| Tree.Node | headers/huffman.h:9-17 | the node structure: a leaf holds its character and frequency, an internal node its frequency and two children; `LeafBagShape` and `WellFormed` state the shapes `huffmanTree` builds |
| Tree.Character | src/huffman.cpp:56 | the `character` field: a leaf's byte, and '\0' for a merged node; `Compare` breaks frequency ties with it, as `CompareIsReversedKeyOrder` states |
| Tree.IsTop | src/huffman.cpp:51-53 | what `heap.top()` may return: a queued node that no queued node outranks under `Compare`; `TopIndex`, `TopOfThree` and `TopOfTwo` are stated through it |
| Tree.RemoveAt | src/huffman.cpp:52-54 | `heap.pop()` of one node: the queue without position i; `HeapRemoveLeaves`, `HeapRemoveFreq` and `RemoveAtMembers` state what a pop removes |
| Tree.Entries | src/huffman.cpp:44-47 | the leaves pushed for the table, one per entry in ascending key order; `InitialHeap` is proved equal to it and `EntriesFacts` states its properties |
| Tree.Compare | src/huffman.cpp:25-32 | `Compare::operator()`: higher frequency, or equal frequency and higher character, ranks lower; its order properties are stated by `CompareIsReversedKeyOrder` and `CompareIsTransitive` |
| CodeTable.CodesFrom | src/huffman.cpp:72-84 | `printHuffmanTree` itself: the map after the traversal from a node with an incoming code; its properties are stated by `CodesFromFacts` |
| CodeTable.CodesFromFacts | src/huffman.cpp:72-84 | the traversal adds one entry per leaf character and leaves other entries alone; each new entry is the incoming code followed by a path to a leaf with that character |
| CodeTable.Codes | src/huffman.cpp:72-84 | a null root gives no codes; otherwise there is one code per leaf character and it is the root-to-leaf path ('0' left, '1' right); a lone leaf gets the empty code |
| CodeTable.WalkUsesBits | src/huffman.cpp:82-83 | a path that stays in the tree consists of '0' and '1' |
| CodeTable.PathsToLeavesArePrefixFree | src/huffman.cpp:77-83 | of two root-to-leaf paths, one can be a prefix of the other only if they are equal and reach the same leaf |
| CodeTable.CodesArePrefixFree | src/huffman.cpp:77-83 | no code in the map is a prefix of another character's code |
| CodeTable.CodesAreBitStrings | src/huffman.cpp:82-83 | every code is a bit string, non-empty below an internal root |
| Decoder.Resume | src/huffman.cpp:119-142 | what the decoding loop computes from a current node, the remaining bits and the text so far; its properties are stated by `ResumeCode`, `ResumeUnfinished` and `ResumeInvalidBit` |
| Decoder.Decode | src/huffman.cpp:111-143 | `decodeHuffmanCode` as a function: "" for a null root, otherwise `Resume` from the root; its properties are stated by `DecodeHuffmanCode`, `DecodeNullRoot`, `DecodeInvalidBit`, `DecodeLoneLeaf` and `DecodeEncoded` |
| Decoder.DecodeHuffmanCode | src/huffman.cpp:111-143 | the decoding loop returns exactly `Decode(root, bits)`: "" for a null root, "" at an invalid bit, `NullChild` on a step from a leaf, otherwise the characters of the leaves reached, resetting to the root after each |
| Decoder.ResumeCode | src/huffman.cpp:119-139 | from an internal node, a path to a leaf holding c emits c and returns the walk to the root |
| Decoder.ResumeUnfinished | src/huffman.cpp:119-142 | bits that stop at an internal node emit nothing and are dropped at the end |
| Decoder.ResumeInvalidBit | src/huffman.cpp:129-133 | an invalid bit anywhere ahead makes the result "" |
| Decoder.DecodeNullRoot | src/huffman.cpp:113-114 | a null root decodes every stream to "" |
| Decoder.DecodeInvalidBit | src/huffman.cpp:129-133 | with an internal root, any bit other than '0' or '1' anywhere gives "" |
| Decoder.DecodeLoneLeaf | src/huffman.cpp:121-135 | with a lone-leaf root, the empty stream and an invalid first bit give "", and a valid first bit reaches the missing child |
| Compressor.Lookup | src/main.cpp:102 | `characters_codes[ch]`: the entry, or "" for a byte without one; `Compress` proves every byte of the buffer has an entry |
| Compressor.Encoded | src/main.cpp:99-103 | the encoded text: the codes of the buffer's bytes concatenated in order; `EncodeText` is proved equal to it, and `EncodedLength`, `DecodeEncoded` and `PackedRoundTrip` state its properties |
| Compressor.EncodeText | src/main.cpp:99-103 | the encode loop produces the in-order concatenation of the codes of the buffer's bytes, with "" for a byte without an entry |
| Compressor.EncodedLength | src/main.cpp:100-103 | the encoded length is the sum of the code lengths of the input bytes |
| Compressor.CodeLengthSumSnoc | src/main.cpp:102 | one more byte adds its code length |
| Compressor.EncodedIsBits | src/main.cpp:102 | codes made of '0' and '1' concatenate to a bit stream |
| Compressor.LoneLeafEncodesEmpty | src/huffman.cpp:77-79 | a buffer of one distinct byte encodes to the empty stream |
| Compressor.ResumeEncoded | src/huffman.cpp:119-142 | decoding the codes of s emits s and leaves the walk at the root for the bits after it |
| Compressor.DecodeEncoded | src/huffman.cpp:111-143 | with at least two leaves, decoding the concatenated codes of s gives s back |
| Compressor.DecodeDropsUnfinished | src/huffman.cpp:119-142 | bits left over after the last complete code that stay inside the tree are dropped |
| Compressor.Compress | src/main.cpp:93-103 | the frequency table holds each byte's number of occurrences, and the tree is a `HuffmanRun` of that table; no tree iff the buffer is empty; the tree's characters are the buffer's bytes and its root frequency is the buffer's length; every byte has a code, so the "" default is never used; the encoding is a bit stream; it is empty for a single distinct byte; with two or more distinct bytes it decodes to the buffer |
| Compressor.PackedRoundTrip | src/main.cpp:93-104 | encoding, packing, unpacking with the stream's length as the count, then decoding with the same tree gives the buffer back when that tree has at least two leaves |

## Left out

- File and stream I/O are not modelled: `readFile`, `writeFile`, and the stream handling in `getDictionaryFrequencies`, `WriteCompressedFile` and `readCompressed`. Each loop works on sequences. The dictionary loop takes the (character, frequency) pairs already parsed. The unpacking loop takes the bytes after the header.
- The 4-byte header is not modelled as a file format:
  - the writer's output starts with the bytes of "HUFF";
  - the reader takes the bit count as a `uint32` parameter, not by reinterpreting the first four bytes of the file;
  - the resulting mismatch and the endianness are out of scope.
- `WriteCompressed`: the source computes `bit - '0'` for any character. The model requires the stream to consist of '0' and '1', which is all the encoder produces.
- `WriteCompressed`: the buffer is a plain `char` in the source, whose signedness the implementation decides. It is modelled as the unsigned value of the byte written, which is the same on the byte level either way.
- The input buffer is a `std::string` of `char`. Its bytes are modelled as values 0..255, as the `unsigned char` loops read them.
- Frequencies are unbounded integers, so the `int` overflow of summed frequencies is not modelled. They are `int`, not `nat`, because dictionary pairs may carry any `int`.
- The inner layout of `std::priority_queue` is not modelled. The queue is a sequence, and `TopIndex` returns one node that no other outranks. The contracts hold for whichever such node is chosen. Ties between nodes of equal frequency and character are left to the library in the source.
- The crash of `decodeHuffmanCode` on a missing child is the result `NullChild`. The process ending is not modelled.
- Memory management does not appear: the model has no pointers and does not free nodes.
- Optimality of the Huffman tree is not claimed by the source and is not proved.
- `printHuffmanTreeDebug` and `printHelp` only print. Argument parsing in `main` and the console setup are not modelled either.
- The `operator[]` insertions of empty entries into `characters_codes` are not modelled as map updates. `Compress` proves that every byte already has an entry, so none happens.
- The decompress mode of `main` is not modelled as a method. Its steps are the dictionary loop, `BuildHuffmanTree`, `ReadCompressed` and `DecodeHuffmanCode`. `PackedRoundTrip` composes packing, unpacking and decoding, and it assumes the decompress side uses the same tree as the compress side.
- Rebuilding the compress-side tree from the dictionary is not modelled. The dictionary file's format is I/O, and ties between equal (frequency, character) keys are left to `std::priority_queue`. So the model does not prove that `huffmanTree` on the dictionary's table gives the tree that compression used.
- `PackedRoundTrip` takes the count as an unbounded number. `ReadCompressed` limits it to `uint32`, which agrees for streams shorter than 2^32 bits.
