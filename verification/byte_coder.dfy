/**
  ByteCoder (v1): a byte blob as an 8-byte big-endian length followed by the
  bytes themselves, unpadded.
 */
module ByteCoder {
  import opened Errors
  import opened Words

  /** The `encodedLength` the constructor reports: one word. */
  const ENCODED_LENGTH: nat := WORD_SIZE

  /**
    The element conversion of `new Uint8Array(value)` for integer elements:
    the value modulo 256, so that -1 becomes 255 and 256 becomes 0.
   */
  function ToByte(x: int): (r: uint8)
    ensures 0 <= x < 256 ==> r as int == x
    ensures (r as int - x) % 256 == 0
  {
    (x % 256) as uint8
  }

  function ToBytes(value: seq<int>): (r: seq<uint8>)
    ensures |r| == |value| && forall i :: 0 <= i < |value| ==> r[i] == ToByte(value[i])
  {
    seq(|value|, i requires 0 <= i < |value| => ToByte(value[i]))
  }

  function AsInts(bytes: seq<uint8>): (r: seq<int>)
    ensures |r| == |bytes| && forall i :: 0 <= i < |bytes| ==> r[i] == bytes[i] as int
  {
    seq(|bytes|, i requires 0 <= i < |bytes| => bytes[i] as int)
  }

  /**
    ByteCoder.encode: the length of `value` as a word, then each element as
    one byte.  Fails only when the length does not fit in 64 bits.
   */
  function Encode(value: seq<int>): (r: Result<seq<uint8>>)
    ensures r.Ok? <==> |value| < U64_BOUND
    ensures r.Ok? ==> |r.value| == WORD_SIZE + |value|
    ensures r.Ok? ==> WordAt(r.value, 0) == |value|
    ensures r.Ok? ==> forall i :: 0 <= i < |value| ==> r.value[WORD_SIZE + i] == ToByte(value[i])
    ensures r.Err? ==> r.error.kind == EncodeError
  {
    var lengthBytes :- U64Encode(|value|);
    assert (lengthBytes + ToBytes(value))[..WORD_SIZE] == lengthBytes;
    Ok(lengthBytes + ToBytes(value))
  }

  /**
    ByteCoder.decode: the bytes announced by the word at `offset`, and the
    offset just past them.
   */
  function Decode(data: seq<uint8>, offset: nat): (r: Result<(seq<uint8>, nat)>)
    ensures |data| < WORD_SIZE ==> r == Err(Error(DecodeError, InvalidByteDataSize))
    ensures WORD_SIZE <= |data| < offset + WORD_SIZE ==> r == Err(Error(DecodeError, InvalidU64DataSize))
    ensures offset + WORD_SIZE <= |data| ==>
      (r == Err(Error(DecodeError, InvalidBytesByteDataSize)) <==> offset + WORD_SIZE + WordAt(data, offset) > |data|)
    ensures r.Ok? <==> offset + WORD_SIZE <= |data| && offset + WORD_SIZE + WordAt(data, offset) <= |data|
    ensures r.Ok? ==>
      var length := WordAt(data, offset);
      r.value == (data[offset + WORD_SIZE..offset + WORD_SIZE + length], offset + WORD_SIZE + length)
    ensures r.Err? ==> r.error.kind == DecodeError
  {
    if |data| < WORD_SIZE then Err(Error(DecodeError, InvalidByteDataSize))
    else
      var offsetAndLength := offset + WORD_SIZE;
      var lengthBytes := Slice(data, offset, offsetAndLength);
      ReadCountAt(data, offset);
      var word :- U64Decode(lengthBytes, 0);
      var length := word.0;
      var dataBytes := Slice(data, offsetAndLength, offsetAndLength + length);
      if |dataBytes| != length then Err(Error(DecodeError, InvalidBytesByteDataSize))
      else Ok((dataBytes, offsetAndLength + length))
  }

  /**
    Decoding an encoding, wherever it sits in a buffer, gives back each
    element modulo 256 and the offset just past the encoding.
   */
  lemma RoundTripWraps(value: seq<int>, pre: seq<uint8>, post: seq<uint8>)
    requires |value| < U64_BOUND
    ensures Encode(value).Ok?
    ensures Decode(pre + Encode(value).value + post, |pre|)
         == Ok((ToBytes(value), |pre| + WORD_SIZE + |value|))
  {
    var word := U64Encode(|value|).value;
    var bytes := ToBytes(value);
    var enc := Encode(value).value;
    assert enc == word + bytes;
    U64RoundTrip(|value|, pre, bytes + post);
    Reassociate(pre, word, bytes, post);
    SliceAfter(pre + word, bytes, post);
  }

  /**
    `encodedLength` is the size of the shortest encoding, that of the empty
    blob; every encoding is at least that long, and the decoder's size guard
    refuses exactly the buffers shorter than it.
   */
  lemma EncodedLengthBound(value: seq<int>, data: seq<uint8>, offset: nat)
    requires |value| < U64_BOUND
    ensures Encode(value).Ok? && |Encode(value).value| >= ENCODED_LENGTH
    ensures |value| == 0 ==> |Encode(value).value| == ENCODED_LENGTH
    ensures |data| < ENCODED_LENGTH ==> Decode(data, offset) == Err(Error(DecodeError, InvalidByteDataSize))
  {
  }

  /** The round trip for byte values: `decode(encode(v), 0) == (v, 8 + |v|)`, and likewise inside a larger buffer. */
  lemma RoundTrip(v: seq<uint8>, pre: seq<uint8>, post: seq<uint8>)
    requires |v| < U64_BOUND
    ensures Encode(AsInts(v)).Ok?
    ensures Decode(pre + Encode(AsInts(v)).value + post, |pre|) == Ok((v, |pre| + WORD_SIZE + |v|))
  {
    RoundTripWraps(AsInts(v), pre, post);
    BytesOfInts(v);
  }

  /** Byte values pass through the conversion unchanged. */
  lemma BytesOfInts(v: seq<uint8>)
    ensures ToBytes(AsInts(v)) == v
  {
    assert forall i :: 0 <= i < |v| ==> ToBytes(AsInts(v))[i] == v[i];
  }

  /** A decoded blob re-encodes to exactly the bytes it was read from. */
  lemma DecodeEncode(data: seq<uint8>, offset: nat)
    requires Decode(data, offset).Ok?
    ensures Encode(AsInts(Decode(data, offset).value.0)).Ok?
    ensures Encode(AsInts(Decode(data, offset).value.0)).value == data[offset..Decode(data, offset).value.1]
  {
    EncodeSlice(data, offset, WordAt(data, offset));
  }

  /** The count word at `offset` followed by the bytes it announces is the encoding of those bytes. */
  lemma EncodeSlice(data: seq<uint8>, offset: nat, length: nat)
    requires offset + WORD_SIZE + length <= |data|
    requires FromBigEndian(data[offset..offset + WORD_SIZE]) == length
    ensures Encode(AsInts(data[offset + WORD_SIZE..offset + WORD_SIZE + length]))
         == Ok(data[offset..offset + WORD_SIZE + length])
  {
    var start := offset + WORD_SIZE;
    var word := data[offset..start];
    var bytes := data[start..start + length];
    ToFromBigEndian(word);
    EncodeBytes(bytes, word);
    assert data[offset..start + length] == word + bytes;
  }

  /** Byte values are written unchanged after their count word. */
  lemma EncodeBytes(bytes: seq<uint8>, word: seq<uint8>)
    requires U64Encode(|bytes|) == Ok(word)
    ensures Encode(AsInts(bytes)) == Ok(word + bytes)
  {
    BytesOfInts(bytes);
  }
}
