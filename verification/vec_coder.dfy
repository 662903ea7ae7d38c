/**
  VecCoder (v1): a vector as an 8-byte big-endian element count followed by
  the fixed-width encodings of its elements, decoded by splitting the payload
  into element-width pieces.

  Two decoders are given.  `DecodeAsWritten` keeps the library's size guard,
  which compares the buffer with `encodedLength` (element width plus one
  word) and so rejects the one-word encoding of an empty vector; `Decode`
  guards with one word instead, and is the decoder the round trip holds for.
  `maxBytes` is the library's `MAX_BYTES` ceiling, left as a parameter.
 */
module VecCoder {
  import opened Errors
  import opened Words
  import opened Codecs

  /** The `encodedLength` the constructor reports: element width plus one word. */
  function EncodedLength<T>(item: Codec<T>): (r: nat)
    ensures r >= WORD_SIZE
    ensures r > WORD_SIZE <==> item.width > 0
  {
    item.width + WORD_SIZE
  }

  /** `encodedLength` is the size of the encoding of a one-element vector. */
  lemma SingletonLength<T(!new)>(item: Codec<T>, x: T)
    requires FixedWidth(item)
    requires item.encode(x).Ok?
    ensures Encode(item, [x]).Ok?
    ensures |Encode(item, [x]).value| == EncodedLength(item)
  {
    EncodeLength(item, [x]);
  }

  /**
    VecCoder.encode: every element is encoded first (the first failure is the
    result), then the count word is put in front of their concatenation.
   */
  function Encode<T>(item: Codec<T>, value: seq<T>): (r: Result<seq<uint8>>)
    ensures r.Ok? <==> |value| < U64_BOUND && forall i :: 0 <= i < |value| ==> item.encode(value[i]).Ok?
    ensures r.Ok? ==> |r.value| >= WORD_SIZE && WordAt(r.value, 0) == |value|
    ensures r.Ok? ==> r.value[WORD_SIZE..] == Concat(EncodeEach(item, value).value)
    ensures r.Err? ==>
      (exists i :: 0 <= i < |value| && item.encode(value[i]) == Err(r.error)) ||
      (|value| >= U64_BOUND && r.error.kind == EncodeError)
  {
    var bytes :- EncodeEach(item, value);
    var lengthBytes :- U64Encode(|value|);
    assert (lengthBytes + Concat(bytes))[..WORD_SIZE] == lengthBytes;
    Ok(lengthBytes + Concat(bytes))
  }

  /** With a fixed-width element coder the encoding is one word plus `|value| * width` bytes. */
  lemma EncodeLength<T(!new)>(item: Codec<T>, value: seq<T>)
    requires FixedWidth(item)
    requires Encode(item, value).Ok?
    ensures |Encode(item, value).value| == WORD_SIZE + |value| * item.width
  {
    var r := Encode(item, value).value;
    ConcatUniform(EncodeEach(item, value).value, item.width);
    assert r == r[..WORD_SIZE] + r[WORD_SIZE..];
  }

  /** The `w` bytes of element `i` of the payload after the count word at `offset`. */
  function Piece(data: seq<uint8>, offset: nat, w: nat, i: nat): seq<uint8> {
    Slice(data, offset + WORD_SIZE + i * w, offset + WORD_SIZE + i * w + w)
  }

  /**
    Everything after the size guard: read the count at `offset`, take
    `count * width` bytes after it, and decode each width-sized piece from
    offset 0.
   */
  function DecodePayload<T>(item: Codec<T>, data: seq<uint8>, offset: nat): (r: Result<(seq<T>, nat)>)
    requires item.width > 0
    ensures offset + WORD_SIZE > |data| ==> r == Err(Error(DecodeError, InvalidU64DataSize))
    ensures offset + WORD_SIZE <= |data| && offset + WORD_SIZE + WordAt(data, offset) * item.width > |data| ==>
      r == Err(Error(DecodeError, InvalidVecByteDataSize))
    ensures r.Ok? ==>
      && offset + WORD_SIZE <= |data|
      && offset + WORD_SIZE + WordAt(data, offset) * item.width <= |data|
      && r.value.1 == offset + WORD_SIZE + WordAt(data, offset) * item.width
      && |r.value.0| == WordAt(data, offset)
  {
    var offsetAndLength := offset + WORD_SIZE;
    var lengthBytes := Slice(data, offset, offsetAndLength);
    ReadCountAt(data, offset);
    var word :- U64Decode(lengthBytes, 0);
    var length := word.0;
    var dataLength := length * item.width;
    var dataBytes := Slice(data, offsetAndLength, offsetAndLength + dataLength);
    if |dataBytes| != dataLength then Err(Error(DecodeError, InvalidVecByteDataSize))
    else
      ChunkLength(dataBytes, item.width, length);
      var items :- DecodeEach(item, Chunk(dataBytes, item.width));
      Ok((items, offsetAndLength + dataLength))
  }

  /** The `count * width` bytes after the count word at `offset`, cut into element-width pieces. */
  function Pieces<T>(item: Codec<T>, data: seq<uint8>, offset: nat): seq<seq<uint8>>
    requires item.width > 0
    requires offset + WORD_SIZE <= |data|
    requires offset + WORD_SIZE + WordAt(data, offset) * item.width <= |data|
  {
    var base := offset + WORD_SIZE;
    Chunk(data[base..base + WordAt(data, offset) * item.width], item.width)
  }

  /**
    Once the count word is read and its payload fits, there is one piece per
    element; decoding succeeds exactly when every piece decodes from offset
    0, and element `i` of the result is the value decoded from piece `i`.
   */
  lemma DecodePayloadElements<T>(item: Codec<T>, data: seq<uint8>, offset: nat)
    requires item.width > 0
    requires offset + WORD_SIZE <= |data|
    requires offset + WORD_SIZE + WordAt(data, offset) * item.width <= |data|
    ensures |Pieces(item, data, offset)| == WordAt(data, offset)
    ensures DecodePayload(item, data, offset).Ok? <==>
      forall i :: 0 <= i < |Pieces(item, data, offset)| ==> item.decode(Pieces(item, data, offset)[i], 0).Ok?
    ensures DecodePayload(item, data, offset).Ok? ==>
      forall i :: 0 <= i < |Pieces(item, data, offset)| ==>
        DecodePayload(item, data, offset).value.0[i] == item.decode(Pieces(item, data, offset)[i], 0).value.0
  {
    var base := offset + WORD_SIZE;
    ChunkLength(data[base..base + WordAt(data, offset) * item.width], item.width, WordAt(data, offset));
    DecodePayloadIsEach(item, data, offset);
    DecodedPieces(item, Pieces(item, data, offset), DecodePayload(item, data, offset));
  }

  /** A result that stands or falls with decoding each of `pieces`, element by element. */
  lemma DecodedPieces<T>(item: Codec<T>, pieces: seq<seq<uint8>>, r: Result<(seq<T>, nat)>)
    requires r.Ok? <==> DecodeEach(item, pieces).Ok?
    requires r.Ok? ==> r.value.0 == DecodeEach(item, pieces).value
    ensures r.Ok? <==> forall i :: 0 <= i < |pieces| ==> item.decode(pieces[i], 0).Ok?
    ensures r.Ok? ==> |r.value.0| == |pieces| && forall i :: 0 <= i < |pieces| ==> r.value.0[i] == item.decode(pieces[i], 0).value.0
  {
  }

  /** Once the count word is read and its payload fits, the elements are those decoded from the pieces. */
  lemma DecodePayloadIsEach<T>(item: Codec<T>, data: seq<uint8>, offset: nat)
    requires item.width > 0
    requires offset + WORD_SIZE <= |data|
    requires offset + WORD_SIZE + WordAt(data, offset) * item.width <= |data|
    ensures var each := DecodeEach(item, Pieces(item, data, offset));
      && (DecodePayload(item, data, offset).Ok? <==> each.Ok?)
      && (each.Ok? ==> DecodePayload(item, data, offset).value.0 == each.value)
  {
    var count := WordAt(data, offset);
    var w := item.width;
    var base := offset + WORD_SIZE;
    var dataLength := count * w;
    ReadCountAt(data, offset);
    var word := U64Decode(Slice(data, offset, base), 0);
    assert word.Ok? && word.value.0 == count;
    var dataBytes := Slice(data, base, base + dataLength);
    assert dataBytes == data[base..base + dataLength];
    assert |dataBytes| == dataLength;
    ChunkLength(dataBytes, w, count);
    var each := DecodeEach(item, Chunk(dataBytes, w));
    assert DecodePayload(item, data, offset) ==
      if each.Ok? then Ok((each.value, base + dataLength)) else Err(each.error);
  }

  /** Piece `i` is bytes `offset + 8 + i * width` to `offset + 8 + (i + 1) * width` of the buffer. */
  lemma PiecesOfPayload<T>(item: Codec<T>, data: seq<uint8>, offset: nat)
    requires item.width > 0
    requires offset + WORD_SIZE <= |data|
    requires offset + WORD_SIZE + WordAt(data, offset) * item.width <= |data|
    ensures |Pieces(item, data, offset)| == WordAt(data, offset)
    ensures forall i :: 0 <= i < WordAt(data, offset) ==> Pieces(item, data, offset)[i] == Piece(data, offset, item.width, i)
  {
    var count := WordAt(data, offset);
    var w := item.width;
    var start := offset + WORD_SIZE;
    var payload := data[start..start + count * w];
    ChunkLength(payload, w, count);
    forall i | 0 <= i < count
      ensures Chunk(payload, w)[i] == Piece(data, offset, w, i)
    {
      PieceOfPayload(data, start, count, w, i);
    }
  }

  lemma PieceOfPayload(data: seq<uint8>, start: nat, count: nat, w: nat, i: nat)
    requires w > 0 && start + count * w <= |data| && i < count
    ensures |Chunk(data[start..start + count * w], w)| == count
    ensures Chunk(data[start..start + count * w], w)[i] == Slice(data, start + i * w, start + i * w + w)
  {
    ChunkPiece(data[start..start + count * w], w, count, i);
    SliceOfSlice(data, start, count * w, i * w, (i + 1) * w, w);
  }

  /** Bytes `a` to `b` of the `len` bytes from `start` are bytes `start + a` to `start + a + w` of the buffer, for `b == a + w`. */
  lemma SliceOfSlice(data: seq<uint8>, start: nat, len: nat, a: nat, b: nat, w: nat)
    requires b == a + w && b <= len && start + len <= |data|
    ensures data[start..start + len][a..b] == Slice(data, start + a, start + a + w)
  {
    var inner := data[start..start + len];
    var x := inner[a..b];
    var y := data[start + a..start + a + w];
    forall k | 0 <= k < |x|
      ensures x[k] == y[k]
    {
      assert x[k] == inner[a + k] == data[start + a + k];
    }
  }

  /**
    VecCoder.decode as the library writes it: the whole buffer must hold at
    least `encodedLength` bytes and at most `maxBytes`; the guard looks at
    the whole buffer, not at what follows `offset`.
   */
  function DecodeAsWritten<T>(item: Codec<T>, data: seq<uint8>, offset: nat, maxBytes: nat): (r: Result<(seq<T>, nat)>)
    requires item.width > 0
    ensures |data| < EncodedLength(item) || |data| > maxBytes ==> r == Err(Error(DecodeError, InvalidVecDataSize))
    ensures EncodedLength(item) <= |data| <= maxBytes ==> r == DecodePayload(item, data, offset)
  {
    if |data| < EncodedLength(item) || |data| > maxBytes then Err(Error(DecodeError, InvalidVecDataSize))
    else DecodePayload(item, data, offset)
  }

  /** VecCoder.decode with the size guard lowered to the one word every encoding holds. */
  function Decode<T>(item: Codec<T>, data: seq<uint8>, offset: nat, maxBytes: nat): (r: Result<(seq<T>, nat)>)
    requires item.width > 0
    ensures |data| < WORD_SIZE || |data| > maxBytes ==> r == Err(Error(DecodeError, InvalidVecDataSize))
    ensures WORD_SIZE <= |data| <= maxBytes ==> r == DecodePayload(item, data, offset)
  {
    if |data| < WORD_SIZE || |data| > maxBytes then Err(Error(DecodeError, InvalidVecDataSize))
    else DecodePayload(item, data, offset)
  }

  /** The two decoders differ only on buffers shorter than `encodedLength`. */
  lemma DecodersAgree<T>(item: Codec<T>, data: seq<uint8>, offset: nat, maxBytes: nat)
    requires item.width > 0 && |data| >= EncodedLength(item)
    ensures DecodeAsWritten(item, data, offset, maxBytes) == Decode(item, data, offset, maxBytes)
  {
  }

  /** The payload of an encoding, wherever it sits in a buffer, decodes to the original elements. */
  lemma PayloadRoundTrip<T(!new)>(item: Codec<T>, value: seq<T>, pre: seq<uint8>, post: seq<uint8>)
    requires WellBehaved(item)
    requires Encode(item, value).Ok?
    ensures DecodePayload(item, pre + Encode(item, value).value + post, |pre|)
         == Ok((value, |pre| + WORD_SIZE + |value| * item.width))
  {
    var w := item.width;
    var parts := EncodeEach(item, value).value;
    var body := Concat(parts);
    var word := U64Encode(|value|).value;
    var enc := Encode(item, value).value;
    assert enc == word + body;
    ConcatUniform(parts, w);
    U64RoundTrip(|value|, pre, body + post);
    Reassociate(pre, word, body, post);
    var buffer := pre + enc + post;
    SliceAfter(pre + word, body, post);
    assert WordAt(buffer, |pre|) == |value|;
    ChunkConcat(parts, w);
    assert Pieces(item, buffer, |pre|) == parts;
    DecodeEachEncodings(item, value);
    DecodePayloadOf(item, buffer, |pre|, value);
  }

  /** When the pieces decode to `xs`, the payload decodes to `xs` and ends after `count * width` bytes. */
  lemma DecodePayloadOf<T>(item: Codec<T>, data: seq<uint8>, offset: nat, xs: seq<T>)
    requires item.width > 0
    requires offset + WORD_SIZE <= |data|
    requires offset + WORD_SIZE + WordAt(data, offset) * item.width <= |data|
    requires DecodeEach(item, Pieces(item, data, offset)) == Ok(xs)
    ensures DecodePayload(item, data, offset) == Ok((xs, offset + WORD_SIZE + WordAt(data, offset) * item.width))
  {
    DecodePayloadIsEach(item, data, offset);
  }

  /** Round trip: `decode(encode(xs), 0)` gives back `xs` and the offset past the encoding, inside any buffer within the ceiling. */
  lemma RoundTrip<T(!new)>(item: Codec<T>, value: seq<T>, pre: seq<uint8>, post: seq<uint8>, maxBytes: nat)
    requires WellBehaved(item)
    requires Encode(item, value).Ok?
    requires |pre| + |Encode(item, value).value| + |post| <= maxBytes
    ensures Decode(item, pre + Encode(item, value).value + post, |pre|, maxBytes)
         == Ok((value, |pre| + WORD_SIZE + |value| * item.width))
  {
    PayloadRoundTrip(item, value, pre, post);
  }

  /** The library's decoder round-trips every non-empty vector. */
  lemma RoundTripAsWritten<T(!new)>(item: Codec<T>, value: seq<T>, pre: seq<uint8>, post: seq<uint8>, maxBytes: nat)
    requires WellBehaved(item)
    requires Encode(item, value).Ok? && |value| > 0
    requires |pre| + |Encode(item, value).value| + |post| <= maxBytes
    ensures DecodeAsWritten(item, pre + Encode(item, value).value + post, |pre|, maxBytes)
         == Ok((value, |pre| + WORD_SIZE + |value| * item.width))
  {
    EncodeLength(item, value);
    MulSucc(|value| - 1, item.width);
    PayloadRoundTrip(item, value, pre, post);
  }

  /**
    The library's decoder rejects the encoding of an empty vector on its own:
    the encoding is one zero word, which is shorter than `encodedLength`.
   */
  lemma EmptyVecRejected<T>(item: Codec<T>, maxBytes: nat)
    requires item.width > 0 && maxBytes >= WORD_SIZE
    ensures Encode(item, []) == Ok([0, 0, 0, 0, 0, 0, 0, 0])
    ensures DecodeAsWritten(item, [0, 0, 0, 0, 0, 0, 0, 0], 0, maxBytes) == Err(Error(DecodeError, InvalidVecDataSize))
    ensures Decode(item, [0, 0, 0, 0, 0, 0, 0, 0], 0, maxBytes) == Ok(([], WORD_SIZE))
  {
    assert Concat([]) == [];
    assert EncodeEach(item, []) == Ok([]);
    assert ToBigEndian(0, 8) == [0, 0, 0, 0, 0, 0, 0, 0];
    assert U64Encode(0) == Ok(ToBigEndian(0, 8));
    var empty: seq<seq<uint8>> := [];
    assert Encode(item, []) == Ok(ToBigEndian(0, 8) + Concat(empty));
    assert ToBigEndian(0, 8) + Concat(empty) == [0, 0, 0, 0, 0, 0, 0, 0];
    var zero: seq<uint8> := [0, 0, 0, 0, 0, 0, 0, 0];
    assert zero[0..8] == zero;
    assert Slice(zero, 8, 8) == [];
    assert Chunk([], item.width) == [];
  }
}
