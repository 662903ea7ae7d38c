/**
  The coder interface (`encodedLength`, `encode`, `decode`) as a record of
  functions, the laws a fixed-width coder obeys, and the byte helpers the
  dynamic coders build on (`concatBytes`, `chunkByLength`).
 */
module Codecs {
  import opened Errors
  import opened Words

  /**
    A coder for values of type `T`: its reported `encodedLength`, its encoder,
    and its decoder, which takes a buffer and an offset and returns the value
    and the offset of the next unread byte.
   */
  datatype Codec<!T> = Codec(
    width: nat,
    encode: T -> Result<seq<uint8>>,
    decode: (seq<uint8>, nat) -> Result<(T, nat)>)

  /** Every encoding the coder produces is exactly `width` bytes long. */
  ghost predicate FixedWidth<T(!new)>(c: Codec<T>) {
    forall x | c.encode(x).Ok? :: |c.encode(x).value| == c.width
  }

  /**
    Decoding an encoding, wherever it sits in a buffer, gives back the value
    and the offset just past the encoding.
   */
  ghost predicate RoundTrips<T(!new)>(c: Codec<T>) {
    forall x, pre: seq<uint8>, post: seq<uint8> | c.encode(x).Ok? ::
      c.decode(pre + c.encode(x).value + post, |pre|) == Ok((x, |pre| + |c.encode(x).value|))
  }

  /** The coders a Vec may hold: fixed width, positive width, lossless. */
  ghost predicate WellBehaved<T(!new)>(c: Codec<T>) {
    c.width > 0 && FixedWidth(c) && RoundTrips(c)
  }

  /** `concatBytes`: the parts joined in order. */
  function Concat(parts: seq<seq<uint8>>): seq<uint8>
  {
    if |parts| == 0 then [] else parts[0] + Concat(parts[1..])
  }

  /** The concatenation is as long as all the parts together. */
  lemma {:induction false} ConcatLength(parts: seq<seq<uint8>>)
    ensures |Concat(parts)| == TotalLength(parts)
  {
    if |parts| > 0 {
      ConcatLength(parts[1..]);
      TotalLengthFirst(parts);
    }
  }

  /** The sum of the lengths of the parts. */
  function TotalLength(parts: seq<seq<uint8>>): nat
  {
    if |parts| == 0 then 0 else TotalLength(parts[..|parts| - 1]) + |parts[|parts| - 1]|
  }

  /** The sum can also be taken from the first part. */
  lemma {:induction false} TotalLengthFirst(parts: seq<seq<uint8>>)
    requires |parts| > 0
    ensures TotalLength(parts) == |parts[0]| + TotalLength(parts[1..])
    decreases |parts|
  {
    if |parts| > 1 {
      var init := parts[..|parts| - 1];
      TotalLengthFirst(init);
      assert init[1..] == parts[1..][..|parts[1..]| - 1];
      assert init[0] == parts[0];
    } else {
      assert parts[..0] == [];
    }
  }

  /** The concatenation is empty exactly when every part is. */
  lemma {:induction false} ConcatEmpty(parts: seq<seq<uint8>>)
    ensures |Concat(parts)| == 0 <==> forall i :: 0 <= i < |parts| ==> |parts[i]| == 0
  {
    if |parts| > 0 {
      ConcatEmpty(parts[1..]);
      assert forall i :: 0 < i < |parts| ==> parts[i] == parts[1..][i - 1];
    }
  }

  /** Appending a part appends its bytes: the parts are joined left to right. */
  lemma {:induction false} ConcatAppend(parts: seq<seq<uint8>>, p: seq<uint8>)
    ensures Concat(parts + [p]) == Concat(parts) + p
  {
    if |parts| == 0 {
      assert Concat([p]) == p + Concat([]);
    } else {
      assert (parts + [p])[1..] == parts[1..] + [p];
      ConcatAppend(parts[1..], p);
    }
  }

  /** (a + 1) * w == w + a * w, the step the length proofs need. */
  lemma MulSucc(a: nat, w: nat)
    ensures (a + 1) * w == w + a * w
  {
  }

  lemma ZeroProduct(a: nat, w: nat)
    requires w > 0 && a * w == 0
    ensures a == 0
  {
  }

  /** Parts of equal width `w` concatenate to `|parts| * w` bytes. */
  lemma {:induction false} ConcatUniform(parts: seq<seq<uint8>>, w: nat)
    requires forall i :: 0 <= i < |parts| ==> |parts[i]| == w
    ensures |Concat(parts)| == |parts| * w
  {
    if |parts| > 0 {
      ConcatUniform(parts[1..], w);
      MulSucc(|parts| - 1, w);
    }
  }

  /**
    `chunkByLength`: consecutive pieces of `w` bytes, the last one shorter
    when `w` does not divide the length.  The helper's behaviour for
    `w == 0` is not part of this model, so a positive width is required.
   */
  function Chunk(data: seq<uint8>, w: nat): (r: seq<seq<uint8>>)
    requires w > 0
    ensures Concat(r) == data
    ensures forall i :: 0 <= i < |r| ==> 0 < |r[i]| <= w
    ensures forall i :: 0 <= i < |r| - 1 ==> |r[i]| == w
    decreases |data|
  {
    if |data| == 0 then []
    else if |data| <= w then
      assert Concat([data]) == data + Concat([]);
      [data]
    else
      var rest := Chunk(data[w..], w);
      assert ([data[..w]] + rest)[1..] == rest;
      assert data == data[..w] + data[w..];
      [data[..w]] + rest
  }

  /** Splitting the concatenation of equal-width parts recovers the parts. */
  lemma {:induction false} ChunkConcat(parts: seq<seq<uint8>>, w: nat)
    requires w > 0
    requires forall i :: 0 <= i < |parts| ==> |parts[i]| == w
    ensures Chunk(Concat(parts), w) == parts
    decreases |parts|
  {
    if |parts| > 0 {
      var c := Concat(parts);
      ConcatUniform(parts[1..], w);
      assert c[..w] == parts[0];
      assert c[w..] == Concat(parts[1..]);
      ChunkConcat(parts[1..], w);
      if |c| <= w {
        ZeroProduct(|parts[1..]|, w);
        assert Concat(parts[1..]) == [];
        assert c == parts[0];
      } else {
        assert parts == [parts[0]] + parts[1..];
      }
    }
  }

  /** A buffer of `n * w` bytes splits into exactly `n` pieces: piece `i` is bytes `i * w` to `(i + 1) * w`. */
  lemma {:induction false} ChunkCount(data: seq<uint8>, w: nat, n: nat)
    requires w > 0 && |data| == n * w
    ensures |Chunk(data, w)| == n
    ensures forall i :: 0 <= i < n ==> Chunk(data, w)[i] == Slice(data, i * w, (i + 1) * w)
  {
    ChunkLength(data, w, n);
    forall i | 0 <= i < n
      ensures Chunk(data, w)[i] == Slice(data, i * w, (i + 1) * w)
    {
      ChunkPiece(data, w, n, i);
      PieceBound(i, n, w);
    }
  }

  lemma {:induction false} ChunkLength(data: seq<uint8>, w: nat, n: nat)
    requires w > 0 && |data| == n * w
    ensures |Chunk(data, w)| == n
    decreases n
  {
    if n == 1 {
      assert Chunk(data, w) == [data];
    } else if n > 1 {
      RestLength(data, w, n);
      ChunkLength(data[w..], w, n - 1);
    }
  }

  lemma {:induction false} ChunkPiece(data: seq<uint8>, w: nat, n: nat, i: nat)
    requires w > 0 && |data| == n * w && i < n
    ensures |Chunk(data, w)| == n
    ensures 0 <= i * w && i * w + w == (i + 1) * w <= |data|
    ensures Chunk(data, w)[i] == data[i * w..(i + 1) * w]
    decreases i
  {
    ChunkLength(data, w, n);
    MulSucc(i, w);
    PieceBound(i, n, w);
    if i == 0 {
      if n == 1 {
        assert Chunk(data, w) == [data];
      }
    } else {
      RestLength(data, w, n);
      ChunkPiece(data[w..], w, n - 1, i - 1);
      PieceBound(i, n, w);
      ShiftedPiece(data, w, i);
    }
  }

  lemma RestLength(data: seq<uint8>, w: nat, n: nat)
    requires 0 < n && |data| == n * w
    ensures |data[w..]| == (n - 1) * w && w <= |data|
  {
    MulSucc(n - 1, w);
  }

  lemma PieceBound(i: nat, n: nat, w: nat)
    requires i < n
    ensures (i + 1) * w <= n * w
  {
  }

  /** Piece `i - 1` of the bytes after the first `w` is piece `i` of the whole. */
  lemma ShiftedPiece(data: seq<uint8>, w: nat, i: nat)
    requires 0 < i && (i + 1) * w <= |data|
    ensures data[w..][(i - 1) * w..i * w] == data[i * w..(i + 1) * w]
  {
    MulSucc(i - 1, w);
    MulSucc(i, w);
  }

  /** `value.map(v => coder.encode(v))`: the first failure, or every encoding in order. */
  function EncodeEach<T>(c: Codec<T>, xs: seq<T>): (r: Result<seq<seq<uint8>>>)
    ensures r.Ok? <==> forall i :: 0 <= i < |xs| ==> c.encode(xs[i]).Ok?
    ensures r.Ok? ==> |r.value| == |xs| && forall i :: 0 <= i < |xs| ==> r.value[i] == c.encode(xs[i]).value
  {
    var rs := seq(|xs|, i requires 0 <= i < |xs| => c.encode(xs[i]));
    assert forall i :: 0 <= i < |xs| ==> rs[i] == c.encode(xs[i]);
    Collect(rs)
  }

  /** `chunks.map(chunk => coder.decode(chunk, 0)[0])`: the first failure, or every value in order. */
  function DecodeEach<T>(c: Codec<T>, chunks: seq<seq<uint8>>): (r: Result<seq<T>>)
    ensures r.Ok? <==> forall i :: 0 <= i < |chunks| ==> c.decode(chunks[i], 0).Ok?
    ensures r.Ok? ==> |r.value| == |chunks|
    ensures r.Ok? ==> forall i :: 0 <= i < |chunks| ==> r.value[i] == c.decode(chunks[i], 0).value.0
  {
    var rs := seq(|chunks|, i requires 0 <= i < |chunks| => c.decode(chunks[i], 0));
    assert forall i :: 0 <= i < |chunks| ==> rs[i] == c.decode(chunks[i], 0);
    match Collect(rs)
    case Err(e) => Err(e)
    case Ok(pairs) => Ok(seq(|pairs|, i requires 0 <= i < |pairs| => pairs[i].0))
  }

  /** Decoding each encoding of a lossless coder gives back the values. */
  lemma DecodeEachEncodings<T(!new)>(c: Codec<T>, xs: seq<T>)
    requires RoundTrips(c)
    requires EncodeEach(c, xs).Ok?
    ensures DecodeEach(c, EncodeEach(c, xs).value) == Ok(xs)
  {
    var encs := EncodeEach(c, xs).value;
    forall i | 0 <= i < |xs|
      ensures c.decode(encs[i], 0) == Ok((xs[i], |encs[i]|))
    {
      assert [] + c.encode(xs[i]).value + [] == encs[i];
    }
    var r := DecodeEach(c, encs);
    assert r.Ok?;
    assert r.value == xs;
  }
}
