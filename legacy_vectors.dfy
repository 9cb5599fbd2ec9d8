/**
 * The `encode_test` of `huffman/src/encode/mod.rs` as a proved fact: the
 * codes a = 110, b = 111, c = 10, d = 0 and the input "abbcccddddddddd".
 * The test checks only how the output ends; the JSON header before it is
 * not modelled, and the payload is exactly the 24 bits the test lists.
 */
module LegacyVectors {
  import opened Common
  import opened LegacyHuffman
  import opened CodecVectors

  /** `encoded_iterator` on the test input packs the test's 24 payload bits into three bytes. */
  method EncodeTest() returns (bytes: seq<Result<byte>>)
    ensures AllOk(bytes) && |bytes| == 3
    ensures BytesBitsLsb(Values(bytes)) == VectorPayloadBits()
  {
    bytes := EncodedIterator(Wrap(VectorInput()), VectorCodes());
    VectorPayload();
    PackLsbBits(VectorPayloadBits());
    assert VectorPayloadBits() + Zeros(0) == VectorPayloadBits();
  }
}
