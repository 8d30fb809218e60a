# Huffman tree container, modelled in Dafny

`Main.cpp` is an unfinished Huffman compressor. Its encoder counts the bytes of the input
and builds a Huffman tree by repeatedly merging the two lowest-scored nodes of a min-priority
queue. It then writes a container to a bit stream: a 32-bit header holding the tree's length
in bits, followed by the tree in pre-order. An internal node is a 1 bit followed by its
children. A leaf is a 0 bit followed by the eight bits of its byte. The decoder reads the
header and then rebuilds the tree. The payload is never encoded, since the code table is
declared but never filled.

The model has four modules, one per layer of the program:

- `Bits` (`bits.dfy`): the bit conventions both streams share.
  - A byte stream seen as bits, most significant bit first (`BytesToBits`).
  - The `(x << 1) | bit` update that both streams apply (`ShiftIn`).
  - The bits `obstream::write(p, s)` emits (`WriteBits`).
  - The buffer `ibstream::read(p, size)` leaves behind (`ReadInto`).
- `BitStreams` (`bitstreams.dfy`): `obstream` as the class `BitWriter` and `ibstream` as the
  class `BitReader`.
  - Each class has the source's fields: `buf`, `shift` and `cursor`, plus the underlying
    byte stream.
  - The ghost field `Written` records the bits written. The ghost field `Consumed` counts
    the bits read, and the ghost function `Rest()` gives the bits not yet read.
  - Each method is proved against those ghost fields.
- `HuffmanTree` (`tree.dfy`): `huffman::Node` as a datatype. It is a leaf with a byte, or an
  internal node with both children. That is the full-tree shape the destructor relies on.
  - `EncodeBits`, `DecodeBits` and `Length` are the functions behind `Node::encode`,
    `Node::decode` and `Node::length`.
  - `EncodeNode` and `DecodeNode` are the recursive methods that run them on the streams.
- `Huffman` (`huffman.dfy`): `huffman::encode` and `huffman::decode`.
  - The frequency-counting loop.
  - The loop that loads one leaf per table entry.
  - The merge loop over the queue, which is a sequence of nodes; `top()` is a search for a
    lowest score.
  - The container's header and its round trip.
  - The stream as the encoder leaves it, which is the finding below.

Symbols are the bytes of the input, seen as unsigned values of `char` (`newtype byte`). The
streams carry `bv8` bytes.

The container's layout, as the code writes it:

- The header is written with `out.write((char *)&length, 31)`. That emits the four memory
  bytes of the `int` in memory order, each most significant bit first. On the little-endian
  target of this program (it includes `crtdbg.h`), that is the least significant byte
  first, not a big-endian 32-bit field.
- The header has one field, the tree's length. No payload follows the tree, the writer is
  never flushed, and the header is never patched after the fact.
- An input with a single distinct byte gives a tree that is a bare leaf, of length 9.

## Model

| member | source | states |
|---|---|---|
| Bits.BytesToBits | Main.cpp:17-26 | a byte stream read bit by bit yields eight bits per byte |
| Bits.WriteBits | Main.cpp:61-64 | `write(p, s)` emits exactly `s + 1` bits, and none when `s < 0` |
| Bits.WriteBitsWhole | Main.cpp:61-64 | writing with highest index `8k - 1` emits bytes `p[0..k)` in memory order, each most significant bit first |
| Bits.ShiftInEight | Main.cpp:28-35 | shifting eight bits into a byte overwrites it completely, whatever it held, and the byte's bits read back in order |
| Bits.ReadIntoSnoc | Main.cpp:30-34 | read bit `s` is shifted into byte `p[s >> 3]` from the low end, and no other byte changes |
| Bits.ReadIntoBytes | Main.cpp:28-35 | reading `8k` bits that are the bytes `q` sets `p[0..k)` to `q`, whatever it held, and leaves the rest of `p` alone |
| Bits.ReadInvertsWrite | Main.cpp:28-35 | `read(p, 8k)` undoes `write(q, 8k - 1)`: `p` starts with the first `k` bytes of `q` |
| BitStreams.BitWriter.constructor | Main.cpp:48-50 | a new writer has sent nothing and written nothing |
| BitStreams.BitWriter.PutBit | Main.cpp:52-59 | one bit is appended to what was written; on the eighth pending bit, exactly the byte packing the pending bits is sent |
| BitStreams.BitWriter.Write | Main.cpp:61-64 | what was written grows by `WriteBits(p, s)` |
| BitStreams.WriterCounts | Main.cpp:52-59 | after `k` bits, `k / 8` bytes have been sent, holding the first bits in order; `k % 8` bits are pending; `cursor` is `k` modulo 2^32 |
| BitStreams.CompleteByteStep | Main.cpp:54-58 | the eighth bit completes `buf` as the byte of the pending bits, most significant first, and resets the writer |
| BitStreams.BitWriter.Flush | Main.cpp:45-72 | the flush `obstream` lacks: pads with zero bits to a whole byte; afterwards the bytes sent are exactly the bits written |
| BitStreams.BitReader.constructor | Main.cpp:12-15 | a new reader has the whole stream still to read |
| BitStreams.LastBitStep | Main.cpp:19-24 | after the last bit of a byte, `shift` returns to 7 and the next byte, if any, is loaded |
| BitStreams.BitReader.GetBit | Main.cpp:17-26 | returns the next bit of the stream, most significant bit of each byte first, and consumes it |
| BitStreams.BitReader.Read | Main.cpp:28-35 | consumes the next `size` bits and leaves `p` as `ReadInto` of its old contents and those bits |
| HuffmanTree.LeafCount | Main.cpp:83-88 | a tree has at least one leaf, and exactly one only when it is a bare leaf |
| HuffmanTree.Length | Main.cpp:117-120 | `length()` is `10k - 1` for a tree of `k` leaves |
| HuffmanTree.EncodedLength | Main.cpp:103-120 | `length()` is the number of bits `encode` writes |
| HuffmanTree.CodeBits | Main.cpp:111 | `write(&code, 7)` emits the leaf's byte, most significant bit first, and packs back to it |
| HuffmanTree.DecodeBits | Main.cpp:90-98 | `decode` consumes at least one bit, and what it leaves is the tail of its input |
| HuffmanTree.DecodeInternal | Main.cpp:92-96 | a decoded internal node has score 0 and is a 1 bit, its decoded left subtree, then its decoded right subtree |
| HuffmanTree.DecodeLeaf | Main.cpp:97 | a decoded leaf is a 0 bit and the eight bits of its byte |
| HuffmanTree.ShapeLeafCount | Main.cpp:90-112 | the tree `decode` rebuilds, with every score 0, has as many leaves as the tree that was encoded |
| HuffmanTree.DecodeEncode | Main.cpp:90-112 | decoding what `encode` wrote gives back the tree's shape and leaf bytes, and consumes exactly those bits, whatever follows |
| HuffmanTree.EncodeDecode | Main.cpp:90-112 | whatever `decode` accepts is an encoded tree followed by the remaining bits |
| HuffmanTree.EncodingPrefixFree | Main.cpp:90-98 | an encoded tree cut short anywhere does not decode |
| HuffmanTree.EncodeNode | Main.cpp:103-112 | `Node::encode` writes exactly `EncodeBits(n)` to the writer |
| HuffmanTree.DecodeNode | Main.cpp:90-98 | `Node::decode` builds the tree `DecodeBits` finds and consumes exactly its bits |
| Huffman.CountFrequencies | Main.cpp:133-134 | the counting loop builds `Frequencies(input)` |
| Huffman.FrequenciesCount | Main.cpp:133-134 | the table has an entry exactly for each byte of the input, holding its number of occurrences |
| Huffman.CountPositive | Main.cpp:134 | every entry's count is positive: a byte has a positive count exactly when it occurs |
| Huffman.TotalFrequencies | Main.cpp:133-134 | the counts add up to the input length |
| Huffman.MinIndex | Main.cpp:137-144 | `queue.top()` under the comparator `l->score > r->score` is a node of lowest score |
| Huffman.LoadStep | Main.cpp:139 | pushing the leaf of a new entry adds its (byte, count) pair to the queue's leaves and its count to the queue's score |
| Huffman.LoadLeaves | Main.cpp:139 | the queue holds one leaf per table entry, with the entry's byte and count |
| Huffman.MergeKeepsLeaves | Main.cpp:144-148 | popping two trees and pushing their merge keeps the leaves of the queue |
| Huffman.MergeKeepsScore | Main.cpp:144-148 | popping two trees and pushing their merge keeps the total score of the queue |
| Huffman.MergeKeepsWellScored | Main.cpp:144-148 | the merged node scores the sum of its children, and every tree in the queue stays so |
| Huffman.MergeLowest | Main.cpp:144-148 | an iteration shrinks the queue by one: it pops a lowest-scored tree `queue[i]`, then a lowest-scored tree among the rest, pushes their merge with the first as `left`, and keeps every other tree in order; the merge scores their sum and the forest keeps its leaves and total score |
| Huffman.MergeAll | Main.cpp:142-152 | the loop ends with one tree holding every leaf of the queue and scoring its total |
| Huffman.BuildTree | Main.cpp:137-152 | the tree's leaves are exactly the table's entries; every internal node scores the sum of its children; the root scores the table's total |
| Huffman.IntBytes | Main.cpp:155-156 | the header is the four memory bytes of `length` |
| Huffman.BytesUInt | Main.cpp:173-174 | four bytes read as an `unsigned int` lie in `[0, 2^32)` |
| Huffman.UIntRoundTrip | Main.cpp:155-174 | the `unsigned int` read back from the bytes of an `int` is its value modulo 2^32 |
| Huffman.HeaderBytes | Main.cpp:173-174 | reading 32 bits into the uninitialised `length` sets all four bytes, whatever they held |
| Huffman.ContainerRoundTrip | Main.cpp:155-178 | decoding the container gives back the length `encode` wrote and the tree's shape and leaf bytes |
| Huffman.Encode | Main.cpp:130-168 | writes the header and then the tree. The tree's leaves are the input's distinct bytes with their counts, and its root scores the input length. Its length is `10k - 1` for `k` distinct bytes, and it is a bare leaf exactly when `k = 1`. Returns 0 |
| Huffman.Decode | Main.cpp:170-183 | reads the header as an `unsigned int`, then the tree, exactly as `DecodeContainer` describes, and leaves the reader just past the tree, having consumed 32 + `Length(root)` bits; returns 0 |
| Huffman.ContainerLength | Main.cpp:155-160 | the container is `32 + 10k - 1` bits, an odd number |
| Huffman.PendingTail | Main.cpp:155-160 | a container written from the start always leaves 1 to 7 bits pending in the writer |
| Huffman.UnsentTail | Main.cpp:155-167 | the bytes sent stop inside the tree: they end before the tree does |
| Huffman.EncodeToBytes | Main.cpp:130-168 | `encode` on a fresh stream, as written: the bytes sent are the container minus its last 1 to 7 bits, so they end before the tree does |
| Huffman.PaddedContainer | Main.cpp:170-178 | a container padded with zero bits decodes to the length and the tree's shape |
| Huffman.EncodeToBytesFlushed | Main.cpp:130-168 | `encode` followed by a flush: the bytes sent decode to the length and the tree's shape, a tree with one leaf per distinct input byte |

## Left out

- `main` is not modelled. It holds the hard-coded file path, the debug-heap flags and
  `getchar`. The `std::cout` traces of both lengths are left out too (I/O).
- The input `std::istream` is the sequence of bytes `in.get` yields.
- The output `std::ostream` of `huffman::decode` is never used, so it is left out.
- Allocation and deletion of nodes are not modelled; a datatype value owns its children. The
  destructor's assumption is kept as the datatype's shape: every node has no children or two.
  The `_reserved` padding is left out.
- The order among equal scores is not modelled. It comes from `std::unordered_map` iteration
  and `std::priority_queue` internals. `LoadLeaves` may take the entries in any order.
  `MinIndex` picks the first lowest-scored node. Every tree property is proved from
  `MinIndex`'s contract alone, so it holds for any choice among equal scores.
- Reading past the end of the input is excluded by preconditions. The source's
  `in.read(&buf, 1)` then leaves `buf` unchanged and decoding goes on with stale bits.
  - `BitStreams.BitReader.GetBit` requires a bit to remain.
  - `BitStreams.BitReader.Read` requires `size` bits to remain.
  - `Huffman.Decode` requires the stream to hold a whole container.
- `Huffman.Encode` requires a non-empty input. On an empty input the source calls
  `queue.top()` on an empty queue, which is undefined.
- `BitStreams.BitReader.Read` and `BitStreams.BitWriter.Write` require the buffer to hold the
  bits. Beyond it, the source reads or writes outside `p`.
- Scores are unbounded integers, both the counts and the sums the merge forms. The source
  keeps them in `int`: a byte occurring more than 2^31 - 1 times overflows `++frequences[c]`
  (Main.cpp:134), and any input of 2^31 bytes or more overflows
  `left->score + right->score` (Main.cpp:148) at the last merge. `Huffman.Encode`'s
  `root.score == |input|` holds only below that size.
- The header layout is fixed to the little-endian target. A big-endian host would send the
  bytes of `length` in the other order.
- Shifts of `char` values are modelled as 8-bit shifts that drop the high bit. That includes
  `*c << 1` on a negative `char` in `ibstream::read`.
- `ibstream::cursor` is never updated by the source. It is kept and always 0.
- The `codes` table (Main.cpp:163) is declared and never used.

## Findings

| source | as written | input that shows it | evidently intended | confidence | as-written member | corrected member |
|---|---|---|---|---|---|---|
| Main.cpp:45-72 | `obstream` has no flush. The container is `32 + 10k - 1` bits, always odd, so its last 1 to 7 bits stay in `buf` and never reach the file. | Input `"a"`: 41 bits, of which 5 bytes are sent. The leaf's last code bit is lost, and the decoder rereads the stale last byte and decodes `0x60` for `0x61`. | The trailing partial byte is padded with zero bits and written. | not executed | Huffman.EncodeToBytes | Huffman.EncodeToBytesFlushed |
