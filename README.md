# Verified model of the information-theory compressors

This project models, in Dafny, the compression core of a Rust repository that holds three crates:

- **burrows-wheeler**:
  - the block-sorting transform (`bwt.rs`);
  - move-to-front coding over a linked list (`mtf.rs`) and over a balanced order-statistics tree (`mtftree.rs`);
  - a Huffman coder with a bit-packed header (`huffman/header.rs`, `huffman/encode.rs`, `huffman/encode/iterator.rs`, `huffman/iterator.rs`, `huffman/decode.rs`, `huffman/decode/iterator.rs`).
- **huffman**: an older Huffman coder whose iterators carry `Result` items (`encode/mod.rs`, `encode/iterator.rs`, `decode/iterator.rs`).
- **jpg-improver**:
  - run-length coding (`rle.rs`);
  - an adaptive arithmetic coder: `arithmetic/mod.rs`, `encode.rs`, `decode.rs` and `frequencies.rs`;
  - the pipeline that chains the stages (`lib.rs`).

Every operation is specified by pure functions. The code that updates state step by step is written as Dafny methods and classes and proved against those functions. Examples are the move-to-front loops, the tree arena, the bit iterators, the header writer and reader, the encoder's bit writer and the adaptive frequency table.

A Rust panic (an index out of range, an integer underflow, `unwrap` on `None`) is modelled as a failure value: `None` or `Err`.

The main results are:

- Move-to-front decoding inverts encoding over the full byte alphabet, in both directions.
- The tree implementation, with its removal corrected, returns exactly the list ranks.
- The block transform's last column is a permutation of its input. Following the transformation vector from the row of the unrotated block spells the input.
- The Huffman codes are prefix-free, and the header decodes to the tree's leaves whatever the map order. Payloads decode back to their input.
- Run-length decoding inverts encoding when no run exceeds 255 bytes. The corrected encoder round-trips every input.
- The arithmetic decoder returns exactly the encoder's input for every byte sequence.
- The stages of `lib.rs` compose into a round trip.

Files and modules:

| file | module | models |
|---|---|---|
| common.dfy | Common | Option/Result, bit and byte conversions, packing of bits into bytes |
| sorting.dfy | Sorting | the library's stable `sort_by` as an insertion sort |
| move_to_front.dfy | MoveToFront | the move-to-front transform as functions on an alphabet |
| mtf.dfy | Mtf | `mtf.rs` |
| bwt.dfy | Bwt | `bwt.rs` |
| mtf_vectors.dfy | MoveToFrontVectors | the move-to-front tests of `bwt.rs` and `mtf.rs` |
| tree_arena.dfy … tree_step.dfy | TreeArena, TreeWalk, TreeRank, TreeCut, TreeRemove, TreeFront, TreeStep | `mtftree.rs` nodes as an arena of indices, and the proofs about its walks |
| mtf_tree.dfy | MoveToFrontTree | the `MoveToFrontTree` object |
| tree_stale.dfy | TreeStale | the removal as written on the leftmost three leaves of a tree, next to the corrected removal |
| mtf_tree_vectors.dfy, mtf_tree_tests.dfy | MoveToFrontTreeVectors, MoveToFrontTreeTests | the removal counterexamples and the tests of `mtftree.rs` |
| huffman_tree.dfy | HuffmanTree | `count_frequency`, `build_codes`, `update_codes` (both crates) |
| bit_stream.dfy | BitStream | `huffman/iterator.rs` |
| header.dfy, header_vectors.dfy | HuffmanHeader, HeaderVectors | `huffman/header.rs` and its tests |
| huffman_codec.dfy, codec_vectors.dfy | HuffmanCodec, CodecVectors | `huffman/encode.rs`, `encode/iterator.rs`, `decode.rs`, `decode/iterator.rs` |
| legacy_huffman.dfy, legacy_vectors.dfy | LegacyHuffman, LegacyVectors | the `huffman` crate's encoder and decoder iterators |
| rle.dfy | Rle | `rle.rs` |
| arith_constants.dfy, arith_math.dfy, arith_bits.dfy | ArithConstants, ArithMath, ArithBits | `arithmetic/mod.rs` constants, arithmetic facts, `BitWriter` |
| frequencies.dfy | ArithFrequencies | `arithmetic/frequencies.rs` |
| arith_encode.dfy, arith_decode.dfy, arith_roundtrip.dfy | ArithEncode, ArithDecode, ArithRoundTrip | `arithmetic/encode.rs`, `arithmetic/decode.rs`, and the proof that decoding inverts encoding |
| pipeline.dfy | Pipeline | `lib.rs` |

## Model

| member | source | states |
|---|---|---|
| MoveToFront.Encode | burrows-wheeler/src/mtf.rs:3-22 | the ranks have the input's length, and each is below the alphabet size |
| MoveToFront.EncodeDefinedIff | burrows-wheeler/src/mtf.rs:7-14 | encoding succeeds exactly when every input byte is in the alphabet; otherwise the search walks off the list |
| MoveToFront.DecodeEncode | burrows-wheeler/src/mtf.rs:24-42 | decoding the ranks of an input gives the input back, for any alphabet |
| MoveToFront.EncodeDecode | burrows-wheeler/src/mtf.rs:3-22 | for an alphabet without repeats, encoding what decoding gives returns the ranks |
| MoveToFront.PromoteMembers | burrows-wheeler/src/mtf.rs:17-18 | removing a byte and pushing it to the front permutes the alphabet |
| MoveToFront.PromoteIndex | burrows-wheeler/src/mtf.rs:17-18 | after a promotion, the moved byte has index 0, bytes that were before it move back by one, and the others keep their index |
| MoveToFront.RepeatHasRankZero | burrows-wheeler/src/mtf.rs:7-19 | a byte equal to its predecessor always gets rank 0 |
| MoveToFront.EncodeAt | burrows-wheeler/src/mtf.rs:7-19 | the k-th rank is the byte's index in the alphabet left by the first k bytes |
| MoveToFront.AfterFront | burrows-wheeler/src/mtf.rs:17-18 | after a nonempty input, the front of the alphabet is its last byte |
| MoveToFront.EncodeTotal | burrows-wheeler/src/mtf.rs:4 | over an alphabet holding every byte, encoding never fails |
| MoveToFront.DecodeFullTotal | burrows-wheeler/src/mtf.rs:25-35 | over a 256-byte alphabet, every rank addresses a byte, so decoding never fails |
| Mtf.Locate | burrows-wheeler/src/mtf.rs:8-14 | the loop returns the first position of the byte in the list |
| Mtf.Apply | burrows-wheeler/src/mtf.rs:3-22 | the loop over the linked list produces the move-to-front ranks over bytes 0..=255 |
| Mtf.Reverse | burrows-wheeler/src/mtf.rs:24-42 | the loop produces the move-to-front decoding over bytes 0..=255 |
| Mtf.ReverseApply | burrows-wheeler/src/mtf.rs:57-61 | `reverse(apply(s)) == s` for every byte string |
| Mtf.ApplyReverse | burrows-wheeler/src/mtf.rs:24-42 | `apply(reverse(r)) == r` for every rank string |
| MoveToFrontVectors.FullVector | burrows-wheeler/src/mtf.rs:48-55 | "aaaabbbbeeeeeddddda" gets the ranks the test expects |
| MoveToFrontVectors.ShortVector | burrows-wheeler/src/bwt.rs:95-102 | the same ranks over the 255-byte alphabet of `bwt.rs` |
| MoveToFrontVectors.VectorOver | burrows-wheeler/src/bwt.rs:95-102 | those ranks hold for any alphabet of 102 to 256 bytes that lists the bytes in ascending order |
| Bwt.CompareRotations | burrows-wheeler/src/bwt.rs:9-22 | the comparator's loop decides the lexicographic order of two cyclic rotations |
| Bwt.SortedRotationsOrdered | burrows-wheeler/src/bwt.rs:7-23 | the stable sort of row indices lists rotations in nondecreasing order, with ties kept in index order |
| Bwt.SortedRotationsUnique | burrows-wheeler/src/bwt.rs:7-23 | any permutation of the rows ordered that way is the sorted order |
| Bwt.Origins | burrows-wheeler/src/bwt.rs:24-27 | `origins[i]` is the sorted position of rotation `i` |
| Bwt.SortCyclicShifts | burrows-wheeler/src/bwt.rs:7-39 | returns the last column of the sorted rotations and the transformation vector |
| Bwt.TransformationNext | burrows-wheeler/src/bwt.rs:29-31 | `transformation[k]` is the sorted row of the rotation that starts one byte after row k's |
| Bwt.LastColumnPermutes | burrows-wheeler/src/bwt.rs:33-36 | the last column is a permutation of the input |
| Bwt.TransformationPermutes | burrows-wheeler/src/bwt.rs:29-31 | the transformation vector is a permutation of the row indices |
| Bwt.LastOfNextIsFirst | burrows-wheeler/src/bwt.rs:29-36 | the last byte of row `transformation[k]` is the first byte of row k |
| Bwt.WalkSpellsInput | burrows-wheeler/src/bwt.rs:56-59 | following the transformation vector from the row of the unrotated block reads the input back in order; this is the inverse that `reverse` leaves unwritten |
| Bwt.Apply | burrows-wheeler/src/bwt.rs:1-5 | the corrected `apply`, over the full alphabet 0..=255: move-to-front over the last column, plus the transformation vector |
| Bwt.ApplyAsWritten | burrows-wheeler/src/bwt.rs:1-5 | `apply` as written, over bytes 0..255: it fails exactly when the block holds byte 255, and otherwise gives move-to-front over that alphabet of the last column, plus the transformation vector |
| Bwt.DrDobbs | burrows-wheeler/src/bwt.rs:86-93 | "DRDOBBS" gives last column "OBRSDDB" and transformation [1, 6, 4, 5, 0, 2, 3] |
| Bwt.MoveToFrontShort | burrows-wheeler/src/bwt.rs:41-54 | `move_to_front` as written, over bytes 0..255: it succeeds exactly when the list encoding over that alphabet is defined, and then agrees with it |
| Bwt.ReverseMoveToFrontShort | burrows-wheeler/src/bwt.rs:61-76 | `reverse_move_to_front` as written, likewise for decoding |
| Bwt.Reverse | burrows-wheeler/src/bwt.rs:56-59 | `reverse` always fails, because `reverse_sort_cyclic_shifts` is `todo!()` |
| Bwt.ShortAlphabetRejects255 | burrows-wheeler/src/bwt.rs:43 | byte 255 cannot be encoded or decoded over the 255-byte alphabet, but can be over the full one |
| TreeWalk.CountIndex | burrows-wheeler/src/mtftree.rs:89-112 | the walk to the root succeeds only on arena nodes |
| TreeRank.CountIndexRank | burrows-wheeler/src/mtftree.rs:89-112 | in a well-formed tree, `count_index` of a leaf is that byte's index in the left-to-right leaf order |
| TreeCut.CutLetters | burrows-wheeler/src/mtftree.rs:122-171 | removing a leaf (corrected) drops exactly that byte from the leaf order |
| TreeRemove.RemovedCut | burrows-wheeler/src/mtftree.rs:122-171 | the corrected removal leaves a well-formed tree whose shape is the input's with the leaf cut out, and whose root has no parent |
| TreeFront.FrontLetters | burrows-wheeler/src/mtftree.rs:173-225 | inserting at the front puts the byte first in the leaf order |
| TreeFront.InsertedFront | burrows-wheeler/src/mtftree.rs:173-225 | `insert_front` succeeds on a well-formed tree, and the result holds the tree with the new leaf leftmost |
| TreeStep.StepMoves | burrows-wheeler/src/mtftree.rs:227-241 | one corrected `move_to_front` returns the byte's list index and leaves a well-formed tree |
| TreeStep.MovedAllEncode | burrows-wheeler/src/mtftree.rs:227-241 | moving a sequence of bytes through the corrected tree gives exactly the list move-to-front ranks |
| MoveToFrontTree.Tree.Construct | burrows-wheeler/src/mtftree.rs:38-81 | builds a balanced tree over the bytes, left half first, with parents and subtree sizes set, and maps each byte to its leaf |
| MoveToFrontTree.Tree.constructor | burrows-wheeler/src/mtftree.rs:83-87 | a fresh tree is well-formed and its leaf order is 0..255 |
| MoveToFrontTree.Tree.RecursiveDecrement | burrows-wheeler/src/mtftree.rs:114-120 | decrements the subtree size of the node and of every ancestor |
| MoveToFrontTree.Tree.RemoveNode | burrows-wheeler/src/mtftree.rs:122-171 | the removal as written: it splices the sibling into the grandparent but leaves the sibling's parent link stale |
| MoveToFrontTree.Tree.RemoveNodeFixed | burrows-wheeler/src/mtftree.rs:122-171 | the corrected removal: it also re-links the sibling, and makes the sibling the root when the parent is the root |
| MoveToFrontTree.Tree.InsertFront | burrows-wheeler/src/mtftree.rs:173-225 | walks the left spine, raising sizes, and splits the leftmost leaf into the new byte and the old leaf |
| MoveToFrontTree.Tree.MoveToFront | burrows-wheeler/src/mtftree.rs:227-241 | `move_to_front` as written, with the original removal |
| MoveToFrontTree.Tree.MoveToFrontFixed | burrows-wheeler/src/mtftree.rs:227-241 | returns the byte's index in the list of leaves and moves the byte to the front of that list, keeping the tree well-formed |
| MoveToFrontTreeTests.CountIndexTest | burrows-wheeler/src/mtftree.rs:248-254 | in a fresh tree, the leaf of each byte below 255 counts to that byte |
| MoveToFrontTreeTests.InsertFrontTest | burrows-wheeler/src/mtftree.rs:256-266 | moving 100,100,100,101,101,100,100 with the corrected removal gives the ranks the test expects |
| MoveToFrontTreeTests.InsertFrontTestOne | burrows-wheeler/src/mtftree.rs:268-278 | moving 1,1,1,2,2,1,1 with the corrected removal gives the ranks the test expects |
| MoveToFrontTreeTests.InsertFrontTestOneAsWritten | burrows-wheeler/src/mtftree.rs:268-274 | with the removal as written, the first three calls return 1, 0, 0 as the test expects, and the fourth counts 3 where the test expects 2 |
| TreeStale.StaleStep | burrows-wheeler/src/mtftree.rs:122-171 | moving the middle of the leftmost three leaves: the written removal leaves the arena of the corrected one, except that the sibling's parent still names the detached node |
| TreeStale.StaleTrace | burrows-wheeler/src/mtftree.rs:227-241 | on those leaves, the written `move_to_front` returns 1, then 0, and then counts 3 for the last of the three, where the corrected move returns 2 |
| TreeStale.LeftTriple | burrows-wheeler/src/mtftree.rs:38-87 | a tree built by halving 2^k - 1 bytes, k from 2 to 8, starts with a leaf and a pair of leaves |
| MoveToFrontTreeVectors.StaleParent | burrows-wheeler/src/mtftree.rs:144-169 | on a three-leaf tree, the rank after one move comes out as 3 where the list says 2 |
| MoveToFrontTreeVectors.StaleParentFixed | burrows-wheeler/src/mtftree.rs:227-241 | with the corrected removal, the same moves give the list ranks |
| MoveToFrontTreeVectors.RootChild | burrows-wheeler/src/mtftree.rs:144-169 | removing a child of the root detaches nothing, so the leaf order then holds the moved byte twice |
| MoveToFrontTreeVectors.RootChildFixed | burrows-wheeler/src/mtftree.rs:122-171 | the corrected removal moves the root's child and keeps the tree well-formed |
| HuffmanTree.CountFrequency | burrows-wheeler/src/huffman/encode.rs:31-37 | maps each byte of the input to its number of occurrences, and holds no other keys |
| HuffmanTree.UpdateCodes | burrows-wheeler/src/huffman/encode.rs:65-75 | inserts each leaf's path code (left is 0, right is 1) into the map |
| HuffmanTree.PopIndex | burrows-wheeler/src/huffman/encode.rs:51-53 | the queue's pop takes an entry of least weight, the earliest inserted among ties |
| HuffmanTree.BuildCodes | burrows-wheeler/src/huffman/encode.rs:39-63 | an empty frequency map gives no codes; otherwise the codes are those of the tree built by merging the two lightest entries until one is left |
| HuffmanTree.TreeCodes | burrows-wheeler/src/huffman/encode.rs:65-75 | the code map's keys are the tree's letters, each leaf's code is its path, and the codes are prefix-free |
| HuffmanTree.HuffmanCodes | huffman/src/encode/mod.rs:39-63 | built codes cover exactly the frequency keys and are prefix-free |
| HuffmanTree.SingleLetter | huffman/src/encode/mod.rs:51-61 | with one distinct byte, its code is empty |
| HuffmanTree.BuildCodesVector | burrows-wheeler/src/huffman/encode.rs:160-178 | frequencies a:1 b:2 c:3 d:4 give the codes a=110 b=111 c=10 d=0, in every key order, with ties going to the earliest inserted |
| HuffmanTree.CountFrequencyVector | burrows-wheeler/src/huffman/encode.rs:144-158 | the count of "abbcccdddd" is a:1 b:2 c:3 d:4 |
| Sorting.SortStrictlySorted | burrows-wheeler/src/huffman/header.rs:35-54 | sorting distinct entries by a strict order gives a strictly sorted list |
| Sorting.StrictlySortedUnique | burrows-wheeler/src/huffman/header.rs:35-54 | two strictly sorted lists with the same elements are equal, so the header does not depend on map order |
| HuffmanHeader.SortedTable | burrows-wheeler/src/huffman/header.rs:35-54 | sorting a tree's code table by code gives the leaves left to right |
| HuffmanHeader.CurrentLenAsWritten | burrows-wheeler/src/huffman/header.rs:65-70 | `current_len` as written fails exactly on the empty code |
| HuffmanHeader.CurrentLenAdvance | burrows-wheeler/src/huffman/header.rs:65-70 | for a code with a zero, `current_len` is the length of the prefix the next code shares plus one |
| HuffmanHeader.BitSize | burrows-wheeler/src/huffman/header.rs:29-33 | the bit size is the sum of frequency times code length, and fails on a missing key or an overflow |
| HuffmanHeader.AddByte | burrows-wheeler/src/huffman/header.rs:76-80 | appends the byte's bits, most significant first |
| HuffmanHeader.AddBytes | burrows-wheeler/src/huffman/header.rs:82-86 | appends the bytes' bits in order |
| HuffmanHeader.AddTable | burrows-wheeler/src/huffman/header.rs:56-71 | the entry loop writes each code's zeros, a one and the letter; it fails when a code is empty |
| HuffmanHeader.Encode | burrows-wheeler/src/huffman/header.rs:21-74 | the header is the initial index, the bit size and the sorted code table; it fails exactly on a missing key, an overflow or an empty code |
| HuffmanHeader.ReadUint | burrows-wheeler/src/huffman/header.rs:89-97 | reads a big-endian integer of the given width, or fails when the bits run out |
| HuffmanHeader.Decode | burrows-wheeler/src/huffman/header.rs:88-139 | the reader consumes exactly what the header grammar reads and leaves the rest of the stream |
| HuffmanHeader.ReadHeaderBits | burrows-wheeler/src/huffman/header.rs:88-139 | decoding an encoded header of chained codes gives back the header and the remaining bits |
| HuffmanHeader.TreeChained | burrows-wheeler/src/huffman/header.rs:56-71 | a tree's leaf codes, left to right, are each the next code after its predecessor |
| HuffmanHeader.HeaderOfTree | burrows-wheeler/src/huffman/header.rs:21-139 | for any tree, decoding the encoded header gives the leaves left to right whatever the map order; inserting them rebuilds the code map |
| HuffmanHeader.HeaderRoundTrip | burrows-wheeler/src/huffman/header.rs:247-298 | encoding then decoding the header of a tree with two or more leaves returns it |
| HuffmanHeader.SingleByteUnderflow | burrows-wheeler/src/huffman/header.rs:70 | with one distinct byte, the code is empty and `current_len` underflows |
| HeaderVectors.EncodeTest | burrows-wheeler/src/huffman/header.rs:174-205 | the header of the test's code table is the expected bit string |
| HeaderVectors.DecodeTest | burrows-wheeler/src/huffman/header.rs:206-246 | the test's bytes decode to the expected header |
| HeaderVectors.DecodeEncodedTest | burrows-wheeler/src/huffman/header.rs:247-298 | the test's header survives encoding then decoding |
| BitStream.ByteIterator.Next | burrows-wheeler/src/huffman/iterator.rs:16-32 | packs up to eight pending bits into a byte, least significant first, zero-padding the last |
| BitStream.ByteIterator.Collect | burrows-wheeler/src/huffman/iterator.rs:8-32 | the bytes produced are the packing of all the input bits |
| BitStream.BitIterator.constructor | burrows-wheeler/src/huffman/iterator.rs:42-51 | a fresh iterator sees the bits of all its input bytes |
| BitStream.BitIterator.SetBitSize | burrows-wheeler/src/huffman/iterator.rs:53-55 | resetting the budget caps the remaining bits at the new size |
| BitStream.BitIterator.NextAsWritten | burrows-wheeler/src/huffman/iterator.rs:58-93 | `next` as written, with the stale prefetched byte |
| BitStream.BitIterator.Next | burrows-wheeler/src/huffman/iterator.rs:58-93 | yields the next visible bit while the budget lasts, and returns None exactly when nothing remains |
| BitStream.ReplayAfterReset | burrows-wheeler/src/huffman/iterator.rs:76-81 | after a budget reset, the written iterator yields byte 1 again where the stream holds byte 2 |
| HuffmanCodec.EncodingIterator.Next | burrows-wheeler/src/huffman/encode.rs:99-111 | yields the code of the next byte, and fails on a byte without a code |
| HuffmanCodec.EncodedIterator | burrows-wheeler/src/huffman/encode/iterator.rs:5-59 | yields the packed payload bits, or fails when a byte has no code |
| HuffmanCodec.Iter | burrows-wheeler/src/huffman/encode.rs:77-92 | the output is the packed header followed by the payload bits |
| HuffmanCodec.EncodeInput | burrows-wheeler/src/huffman/encode.rs:9-17 | `encode` writes only a header for empty input and fails on one distinct byte; on two or more it writes the tree's header and payload, with the payload's length as the bit size, and fails only when that length overflows |
| HuffmanCodec.PayloadWeight | burrows-wheeler/src/huffman/header.rs:29-33 | the header's bit size is exactly the payload's length |
| HuffmanCodec.DecodeStep | burrows-wheeler/src/huffman/decode.rs:44-61 | reads the shortest prefix of the bits that is a code, or fails when no prefix matches |
| HuffmanCodec.DecodePayload | burrows-wheeler/src/huffman/decode.rs:41-62 | a prefix-free table decodes the concatenated codes of an input back to the input |
| HuffmanCodec.TreeDecodes | burrows-wheeler/src/huffman/decode.rs:15-24 | the table rebuilt from a tree's leaves decodes every code of the tree |
| HuffmanCodec.DecoderIterator.Next | burrows-wheeler/src/huffman/decode.rs:41-62 | one step of the decoder iterator is one `DecodeStep` on the remaining bits |
| HuffmanCodec.DecoderIterator.Collect | burrows-wheeler/src/huffman/decode.rs:41-62 | the collected decoder output decodes all the remaining bits |
| HuffmanCodec.Decode | burrows-wheeler/src/huffman/decode.rs:8-28 | `decode` fails exactly when the header cannot be read; otherwise the decoder sees the payload limited to the bit size |
| HuffmanCodec.StreamDecoderIterator.Next | burrows-wheeler/src/huffman/decode/iterator.rs:80-102 | the streaming decoder's step is the same `DecodeStep` |
| HuffmanCodec.EmptyHeaderUnreadable | burrows-wheeler/src/huffman/encode.rs:9-17 | the output for empty input cannot be decoded, because its header has no code table |
| HuffmanCodec.RoundTrip | burrows-wheeler/src/huffman/decode.rs:69-78 | encoding fails on one distinct byte; for nonempty input under 2^30 bytes with two or more distinct bytes, decoding the encoding gives the input and the initial index |
| CodecVectors.EncodeVector | burrows-wheeler/src/huffman/encode.rs:180-200 | the encoding of the test input ends with the expected payload bytes |
| LegacyHuffman.Sizes | huffman/src/encode/mod.rs:89-98 | the byte count covers the bit size; the last byte holds 1 to 8 bits |
| LegacyHuffman.CodeDescriptors | huffman/src/encode/mod.rs:82-88 | one descriptor per code, in map order |
| LegacyHuffman.DescriptorsDecode | huffman/src/decode/iterator.rs:72-94 | for prefix-free nonempty codes, the descriptor table decodes every code |
| LegacyHuffman.EncodingIterator.Next | huffman/src/encode/iterator.rs:49-62 | passes an error through, and fails on a byte without a code |
| LegacyHuffman.ByteIterator.Next | huffman/src/encode/iterator.rs:25-42 | packs the bits of the successful chunks, least significant first |
| LegacyHuffman.EncodedIterator | huffman/src/encode/iterator.rs:6-11 | `encoded_iterator` as written: it never yields an error, and packs only the codes it found |
| LegacyHuffman.LetterDropped | huffman/src/encode/iterator.rs:20 | a byte without a code silently disappears from the output |
| LegacyHuffman.EncodedIteratorChecked | huffman/src/encode/iterator.rs:6-42 | the corrected iterator succeeds exactly when every byte has a code, and reports the first error otherwise |
| LegacyHuffman.UnpackPacked | huffman/src/decode/iterator.rs:14-44 | unpacking the packed payload with its last byte size gives back the payload bits |
| LegacyHuffman.BitIterator.Next | huffman/src/decode/iterator.rs:14-44 | yields the next payload bit, stops at the last byte's size, and passes input errors through |
| LegacyHuffman.DecoderIterator.Next | huffman/src/decode/iterator.rs:72-94 | on error-free input, one step is one `DecodeStep`; otherwise the error is the unmatched code or one from the input |
| LegacyHuffman.DecoderIterator.Collect | huffman/src/decode/iterator.rs:72-94 | on error-free input, collecting decodes all the payload bits |
| LegacyHuffman.Transmit | huffman/src/encode/mod.rs:78-120 | the sizes are those of the payload; prefix-free nonempty codes decode back to the input |
| LegacyHuffman.RoundTrip | huffman/src/encode/mod.rs:9-23 | inputs under 2^32 bytes with other than one distinct byte round-trip; one distinct byte decodes to nothing |
| LegacyHuffman.SingleLetterLost | huffman/src/encode/mod.rs:51-61 | "aaa" decodes to the empty string |
| LegacyHuffman.BuildCodesFixed | huffman/src/encode/mod.rs:39-63 | the corrected codes are prefix-free and nonempty, and a lone byte gets the code 0 |
| LegacyHuffman.RoundTripFixed | huffman/src/encode/mod.rs:9-23 | with the corrected codes, every input under 2^32 bytes round-trips |
| LegacyVectors.EncodeTest | huffman/src/encode/mod.rs:189-207 | the test's payload packs to the expected bytes |
| Rle.RunCodeShort | jpg-improver/src/rle.rs:3-34 | a run of at most 255 bytes is written as the byte alone, or as the byte twice and the count |
| Rle.ContinuationPairs | jpg-improver/src/rle.rs:20-24 | after the first byte, a run's code alternates the byte and a count of at least 2 |
| Rle.EncodeNoRepeats | jpg-improver/src/rle.rs:3-34 | input with no two equal neighbours passes through unchanged |
| Rle.Apply | jpg-improver/src/rle.rs:3-34 | the loop writes each maximal run's code, flushing a count of 255 on the spot |
| Rle.Reverse | jpg-improver/src/rle.rs:36-59 | the loop decodes exactly when the run-based decoding is defined, and then agrees with it |
| Rle.RoundTrip | jpg-improver/src/rle.rs:77-96 | `reverse(apply(s)) == s` whenever no run exceeds 255 bytes |
| Rle.LongRunCounterexample | jpg-improver/src/rle.rs:20-24 | for any b other than 2, 256 copies of b encode to [b, b, 255, b, 2], which decodes to 256 copies of b followed by a 2 |
| Rle.FixedEncodeAgrees | jpg-improver/src/rle.rs:3-34 | the corrected encoder writes the same bytes as the original for runs of at most 255 |
| Rle.ApplyFixed | jpg-improver/src/rle.rs:3-34 | the corrected loop, which forgets the previous byte after a full count, writes the corrected encoding |
| Rle.RoundTripFixed | jpg-improver/src/rle.rs:36-59 | the original decoder inverts the corrected encoder on every input |
| ArithConstants.ConstantValues | jpg-improver/src/arithmetic/mod.rs:5-13 | the derived constants: maximum 65535, quarter 16384, half 32768, three quarters 49152, frequency limit 16383, EOF symbol 257 |
| ArithBits.BitWriter.constructor | jpg-improver/src/arithmetic/encode.rs:12-17 | a new writer holds one zero byte and no bits |
| ArithBits.BitWriter.Write | jpg-improver/src/arithmetic/encode.rs:19-27 | writing appends one bit, most significant first, opening a new byte after eight |
| ArithBits.HoldsPadding | jpg-improver/src/arithmetic/encode.rs:6-27 | the writer's bytes are the bits written, zero-padded to a byte boundary |
| ArithFrequencies.Frequencies.constructor | jpg-improver/src/arithmetic/frequencies.rs:11-22 | the initial table: char i has index i+1, every symbol has frequency 1, and the totals count down |
| ArithFrequencies.Frequencies.Total | jpg-improver/src/arithmetic/frequencies.rs:24-26 | the total is the sum of all symbol frequencies, between 1 and the frequency limit |
| ArithFrequencies.Frequencies.Low | jpg-improver/src/arithmetic/frequencies.rs:28-30 | `low(s)` is the sum of the frequencies of the symbols after s |
| ArithFrequencies.Frequencies.High | jpg-improver/src/arithmetic/frequencies.rs:32-34 | `high(s)` is `low(s)` plus s's frequency, so the slice is nonempty |
| ArithFrequencies.Frequencies.Halve | jpg-improver/src/arithmetic/frequencies.rs:38-45 | at the limit, frequencies are halved rounding up, and the totals are recomputed |
| ArithFrequencies.Frequencies.RunStart | jpg-improver/src/arithmetic/frequencies.rs:48-51 | finds the first index of the block of equal frequencies that ends at s |
| ArithFrequencies.Frequencies.Swap | jpg-improver/src/arithmetic/frequencies.rs:53-62 | swaps two symbols in both the char-to-index and index-to-char maps |
| ArithFrequencies.Frequencies.Bump | jpg-improver/src/arithmetic/frequencies.rs:64-70 | raises one frequency and every total above it by one |
| ArithFrequencies.Frequencies.Update | jpg-improver/src/arithmetic/frequencies.rs:36-71 | `update` keeps the table valid: the maps stay inverse, frequencies stay positive and sorted, and the totals stay correct |
| ArithFrequencies.UpdatedCounts | jpg-improver/src/arithmetic/frequencies.rs:36-71 | after an update, each char's count is its old count (halved at the limit) plus one for the char coded |
| ArithFrequencies.InitialValid | jpg-improver/src/arithmetic/frequencies.rs:11-22 | the initial table is valid and counts each char once |
| ArithEncode.Follow | jpg-improver/src/arithmetic/encode.rs:30-36 | writes the bit, then the pending count of its opposite |
| ArithEncode.EncodeFollowingBit | jpg-improver/src/arithmetic/encode.rs:30-36 | the loop appends exactly the follow bits and leaves no pending bits |
| ArithEncode.Narrowed | jpg-improver/src/arithmetic/encode.rs:46-51 | the narrowed interval is nonempty and lies inside the current one |
| ArithEncode.Renorm | jpg-improver/src/arithmetic/encode.rs:53-69 | the loop ends with the interval straddling the middle and wider than a quarter, having only appended output |
| ArithEncode.EncodeChar | jpg-improver/src/arithmetic/encode.rs:38-70 | `encode_char` narrows to the symbol's slice and renormalizes, writing what the coder's step emits |
| ArithEncode.EncodeByte | jpg-improver/src/arithmetic/encode.rs:79-90 | one iteration of the main loop advances the table and the coder by one input byte |
| ArithEncode.Encode | jpg-improver/src/arithmetic/encode.rs:72-108 | the output bytes are the coder's bits padded with zeros to a byte boundary |
| ArithEncode.EncodedIs | jpg-improver/src/arithmetic/encode.rs:92-106 | the output ends with the EOF symbol's bits and one more follow run chosen by the low end |
| ArithDecode.Slide | jpg-improver/src/arithmetic/decode.rs:11-16 | shifts in the next input bit, or a zero after the end |
| ArithDecode.Prime | jpg-improver/src/arithmetic/decode.rs:72-74 | the code value starts as the first 16 bits of input, zero-padded |
| ArithDecode.CumBelow | jpg-improver/src/arithmetic/decode.rs:33-35 | the scaled cumulative count is below the total |
| ArithDecode.CumSlice | jpg-improver/src/arithmetic/decode.rs:33-41 | the count falls in a symbol's slice exactly when the code value falls in that symbol's narrowed interval |
| ArithDecode.GetSymbolIndex | jpg-improver/src/arithmetic/decode.rs:18-24 | the search returns the first symbol whose low bound is at most the count |
| ArithDecode.SymbolSlice | jpg-improver/src/arithmetic/decode.rs:18-24 | that symbol is s exactly when the count lies in s's slice |
| ArithDecode.NextSymbolIndex | jpg-improver/src/arithmetic/decode.rs:26-62 | one call decodes one symbol and renormalizes, as the decoder's step does |
| ArithDecode.DecodeRenormLoop | jpg-improver/src/arithmetic/decode.rs:43-59 | the decoder's loop mirrors the encoder's, shifting in input bits |
| ArithDecode.DecodeOne | jpg-improver/src/arithmetic/decode.rs:76-90 | decodes one symbol; a char is pushed and the table updated, and EOF leaves the table unchanged |
| ArithDecode.DecodeLoop | jpg-improver/src/arithmetic/decode.rs:76-91 | the main loop returns the bytes decoded up to EOF |
| ArithDecode.Decode | jpg-improver/src/arithmetic/decode.rs:64-93 | `decode` is priming followed by the main loop over the input bits |
| ArithRoundTrip.DecodeStepAgrees | jpg-improver/src/arithmetic/decode.rs:26-62 | while the decoder's window lies in the encoder's interval, the decoder picks the symbol the encoder coded and stays in step |
| ArithRoundTrip.FinalBitsInside | jpg-improver/src/arithmetic/encode.rs:100-106 | the final bits place the decoder's window inside the final interval |
| ArithRoundTrip.DecodesEncoded | jpg-improver/src/arithmetic/mod.rs:37-53 | decoding the encoder's bits, with any zero padding, gives the input back |
| ArithRoundTrip.DecodesBytes | jpg-improver/src/arithmetic/mod.rs:15-25 | decoding the encoder's output bytes gives the input back |
| ArithRoundTrip.RoundTrip | jpg-improver/src/arithmetic/mod.rs:37-53 | `decode(encode(s)) == s` for every byte string |
| Pipeline.Framed | jpg-improver/src/lib.rs:8-11 | the four big-endian index bytes come first, then the transformed block |
| Pipeline.FramedSplits | jpg-improver/src/lib.rs:21-24 | `decode` splits the frame back into the index and the block |
| Pipeline.UnrankedRanks | jpg-improver/src/lib.rs:12 | the move-to-front stage is undone by `mtf::reverse` |
| Pipeline.Encode | jpg-improver/src/lib.rs:7-15 | the output is the arithmetic coding of run-length over move-to-front over the framed block |
| Pipeline.Decode | jpg-improver/src/lib.rs:17-25 | `decode` undoes the stages in reverse order |
| Pipeline.DecodedStaged | jpg-improver/src/lib.rs:17-25 | decoding the encoder's output gives the input when the block transform inverts itself and no run exceeds 255 bytes |
| Pipeline.RoundTrip | jpg-improver/src/lib.rs:41-60 | under those conditions `decode(encode(s)) == s` |
| Pipeline.RunsRoundTrip | jpg-improver/src/lib.rs:31-39 | run-length coding, then the arithmetic coder and back, returns the input when no run exceeds 255 bytes |

## Left out

- The JSON header of the `huffman` crate (`serde_json` in `huffman/src/encode/mod.rs:106`) and the code that reads it back (`huffman/src/decode/mod.rs`). The descriptors and sizes are handed to the decoder as values. The context file `huffman/src/common.rs` also lacks the `byte_size` field that `decode/mod.rs` uses.
- File I/O, the binaries and the `println!` calls in `mtftree.rs:233` and `:238`. None of them affects the results.
- `reverse_sort_cyclic_shifts` (`bwt.rs:78-80`) is `todo!()`, so `bwt::reverse` always fails (Bwt.Reverse). Bwt.WalkSpellsInput proves the inverse that the function would compute.
- `lib.rs` calls `bwt::apply` and `bwt::reverse` with signatures that `bwt.rs` does not have: a block and a `u32` index. `arithmetic/mod.rs:15-25` likewise calls `Encoder::new` and `Decoder::new`, which `encode.rs` and `decode.rs` do not define. The pipeline therefore takes the block transform as a pair of function parameters, and the arithmetic stage uses the `encode` and `decode` functions of `encode.rs` and `decode.rs`.
- HashMap iteration order is not modelled as a fixed order. HuffmanTree.KeyOrder returns some order of the keys, and every result holds for any order that yields each key once.
- The tie order of `priority_queue` is fixed as "the earliest inserted among equal weights". The crate does not document its tie rule. The coverage and prefix-freedom of the codes do not depend on it.
- HuffmanTree.BuildCodesVector depends on that tie rule. In the test, c and the merged a+b both weigh 3. Under the rule above c is popped first. Were a+b popped first, the codes would be c=11, a=100, b=101.
- MoveToFrontTree.Tree.RecursiveDecrement, MoveToFrontTree.Tree.RemoveNode, MoveToFrontTree.Tree.InsertFront and MoveToFrontTree.Tree.MoveToFront take a ghost fuel bound and require that the walk succeeds within it, because the arena walks of the written code need not terminate on a corrupted tree.
- ArithDecode.Decode takes a fuel bound on the number of decoded symbols. `None` means the bound was reached; the round trip holds for any bound above the input length.
- MoveToFrontTreeTests.InsertFrontTestOne: proved for MoveToFrontTree.Tree.MoveToFrontFixed, the corrected removal. With the removal as written the test fails. MoveToFrontTreeTests.InsertFrontTestOneAsWritten states the first four calls: ranks 1, 0, 0, then 3 where the test expects 2.
- MoveToFrontTreeTests.InsertFrontTest: proved for the corrected removal only. The trace with the removal as written is not stated. Worked by hand, the written code fails this test too. At the sixth call, `insert_front` follows the stale parent link of leaf 101 into a detached node. The seventh call then returns 1 where the test expects 0.
- Bwt.Apply: uses the alphabet 0..=255 of `mtf.rs:4`. `bwt.rs:43` writes `0..255`, and Bwt.ApplyAsWritten models that alphabet.
- ArithEncode.Coder: the pending count `bits_to_follow` is an `i32` (`encode.rs:43`, `:77`), modelled as an unbounded natural. The `i32` width is not modelled. It would overflow once more than 2^31 - 1 middle-half steps come in a row.
- HuffmanCodec.EncodeInput: for empty input the output is a header without a code table, which `decode` cannot read (HuffmanCodec.EmptyHeaderUnreadable), so the round trip excludes empty input.
- HuffmanCodec.RoundTrip: with a single distinct byte, `Header::encode` underflows at `header.rs:70` (HuffmanHeader.SingleByteUnderflow). The model reports an error there, and no corrected `burrows-wheeler` header format is proposed.
- HuffmanCodec.RoundTrip is proved for inputs below 2^30 bytes, so that the header's 64-bit bit size and the usize bit budget cannot overflow.
- HuffmanHeader.ReadUint and HuffmanHeader.ReadZerosFrom read bits with BitStream.BitIterator.Next, the `next` with the prefetched byte taken. The `next` as written differs from it only once the budget is down to 8 bits, and the header is read with a budget of `usize::MAX`. HuffmanCodec.DecoderIterator.Next reads the payload with the `next` as written.
- `usize` is taken as 64 bits wide. Arithmetic-coder values stay far below that bound, so it is not modelled there.
- Context-only files (`burrows-wheeler/src/decode.rs`, `huffman/src/byte_processor.rs`, `compress-utils`) are not part of this model.

## Findings

| source | as written | input that shows it | evidently intended | confidence | as-written member | corrected member |
|---|---|---|---|---|---|---|
| burrows-wheeler/src/bwt.rs:43 | the alphabet is `0..255`, which leaves out byte 255 | the block [255]: the search for 255 runs off the list | the alphabet `0..=255`, as `mtf.rs:4` uses | high, not executed | Bwt.ApplyAsWritten | Bwt.Apply |
| burrows-wheeler/src/mtftree.rs:144-169 | `remove_node` splices the sibling into the grandparent but leaves the sibling's `parent` pointing at the removed node | tree over bytes 0,1,2: move 1, then move 2 | the sibling's parent re-linked to the grandparent, so ranks equal list move-to-front | high, not executed | MoveToFrontTreeVectors.StaleParent | MoveToFrontTreeVectors.StaleParentFixed |
| burrows-wheeler/src/mtftree.rs:268-278 | `insert_front_test_1` fails: after the first three calls, byte 2's leaf names the detached parent of byte 1's old leaf | a fresh tree: move 1, 1, 1, then 2 | the fourth call returns 2, the list rank | high, not executed | MoveToFrontTreeTests.InsertFrontTestOneAsWritten | MoveToFrontTreeTests.InsertFrontTestOne |
| burrows-wheeler/src/mtftree.rs:144-169 | when the removed leaf's parent is the root, nothing is removed | the tree ((0, 1), 2): move 2, a child of the root | the sibling becomes the new root | high, not executed | MoveToFrontTreeVectors.RootChild | MoveToFrontTreeVectors.RootChildFixed |
| jpg-improver/src/rle.rs:20-24 | after a flushed count of 255, the run goes on with count 1, so the copies that follow are written as a `[b, n]` pair with no literal b in front | 256 copies of b, b ≠ 2 | the run restarted after a full count, so decoding returns the input | high, not executed | Rle.LongRunCounterexample | Rle.RoundTripFixed |
| burrows-wheeler/src/huffman/iterator.rs:76-81 | the prefetched `next` byte is not cleared when it becomes `current` while `bit_size <= 8` | bytes [0, 1, 2], budget 16, then a reset | the prefetched byte consumed once | medium, not executed | BitStream.ReplayAfterReset | BitStream.BitIterator.Next |
| huffman/src/encode/iterator.rs:20 | `flatten` on a `Result<BitVec>` drops an `Err` chunk | input "ab" with a code only for a | the error passed on to the output | high, not executed | LegacyHuffman.LetterDropped | LegacyHuffman.EncodedIteratorChecked |
| huffman/src/encode/mod.rs:51-61 | a lone letter gets the empty code, so the payload is empty | "aaa" | a one-bit code for a lone letter | high, not executed | LegacyHuffman.SingleLetterLost | LegacyHuffman.RoundTripFixed |
