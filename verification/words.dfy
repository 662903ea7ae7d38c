/**
  Bytes, the 8-byte word, and the big-endian 64-bit integer coder that every
  length prefix and case index uses.
 */
module Words {
  import opened Errors

  newtype uint8 = x: int | 0 <= x < 256

  /** The alignment unit and the width of every count prefix. */
  const WORD_SIZE: nat := 8

  /** One more than the largest 64-bit unsigned value. */
  const U64_BOUND: nat := 0x1_0000_0000_0000_0000

  function Pow256(k: nat): (r: nat)
    ensures r >= 1
  {
    if k == 0 then 1 else 256 * Pow256(k - 1)
  }

  /** The `k` low-order base-256 digits of `n`, most significant first. */
  function ToBigEndian(n: nat, k: nat): (r: seq<uint8>)
    ensures |r| == k
  {
    if k == 0 then [] else ToBigEndian(n / 256, k - 1) + [(n % 256) as uint8]
  }

  /** The number whose big-endian digits are `s`. */
  function FromBigEndian(s: seq<uint8>): (r: nat)
    ensures r < Pow256(|s|)
  {
    if |s| == 0 then 0 else FromBigEndian(s[..|s| - 1]) * 256 + s[|s| - 1] as nat
  }

  /** Reading back the digits of a number that fits recovers the number. */
  lemma {:induction false} FromToBigEndian(n: nat, k: nat)
    requires n < Pow256(k)
    ensures FromBigEndian(ToBigEndian(n, k)) == n
  {
    if k > 0 {
      var s := ToBigEndian(n, k);
      var q, r := n / 256, n % 256;
      assert n == q * 256 + r;
      assert q < Pow256(k - 1) by {
        assert Pow256(k) == 256 * Pow256(k - 1);
        DivBound(n, Pow256(k - 1));
      }
      assert s == ToBigEndian(q, k - 1) + [r as uint8];
      assert s[..k - 1] == ToBigEndian(q, k - 1);
      FromToBigEndian(q, k - 1);
      assert FromBigEndian(s) == FromBigEndian(s[..k - 1]) * 256 + r;
    }
  }

  lemma DivBound(n: nat, p: nat)
    requires n < 256 * p
    ensures n / 256 < p
  {
  }

  /** Writing back the value of a digit string recovers the digits. */
  lemma {:induction false} ToFromBigEndian(s: seq<uint8>)
    ensures ToBigEndian(FromBigEndian(s), |s|) == s
  {
    if |s| > 0 {
      var prefix := s[..|s| - 1];
      var n := FromBigEndian(s);
      assert n / 256 == FromBigEndian(prefix) && n % 256 == s[|s| - 1] as nat;
      ToFromBigEndian(prefix);
      assert s == prefix + [s[|s| - 1]];
    }
  }

  /** The value of an 8-byte word, digit by digit. */
  lemma WordValue(s: seq<uint8>)
    requires |s| == WORD_SIZE
    ensures FromBigEndian(s) ==
      ((((((s[0] as nat * 256 + s[1] as nat) * 256 + s[2] as nat) * 256 + s[3] as nat) * 256
        + s[4] as nat) * 256 + s[5] as nat) * 256 + s[6] as nat) * 256 + s[7] as nat
  {
    assert s[..7][..6] == s[..6];
    assert s[..6][..5] == s[..5];
    assert s[..5][..4] == s[..4];
    assert s[..4][..3] == s[..3];
    assert s[..3][..2] == s[..2];
    assert s[..2][..1] == s[..1];
    assert s[..1][..0] == [];
  }

  /** JavaScript's `slice(from, to)`: both ends clamped to the buffer. */
  function Slice(data: seq<uint8>, from: nat, to: nat): (r: seq<uint8>)
    ensures from <= to <= |data| ==> r == data[from..to]
    ensures to <= from || |data| <= from ==> r == []
    ensures |r| == if from <= to && from <= |data| then (if to <= |data| then to else |data|) - from else 0
  {
    var hi := if to <= |data| then to else |data|;
    if from <= hi then data[from..hi] else []
  }

  /** U64Coder.encode: the 8-byte big-endian form of `n`. */
  function U64Encode(n: nat): (r: Result<seq<uint8>>)
    ensures r.Ok? <==> n < U64_BOUND
    ensures r.Ok? ==> |r.value| == WORD_SIZE && FromBigEndian(r.value) == n
    ensures r.Err? ==> r.error.kind == EncodeError
  {
    if n < U64_BOUND then
      FromToBigEndian(n, WORD_SIZE);
      Ok(ToBigEndian(n, WORD_SIZE))
    else Err(Error(EncodeError, InvalidU64))
  }

  /** U64Coder.decode: the word at `offset` and the offset after it. */
  function U64Decode(data: seq<uint8>, offset: nat): (r: Result<(nat, nat)>)
    ensures r.Ok? <==> offset + WORD_SIZE <= |data|
    ensures r.Ok? ==> r.value.0 < U64_BOUND && r.value.1 == offset + WORD_SIZE
    ensures r.Ok? ==> r.value.0 == FromBigEndian(data[offset..offset + WORD_SIZE])
    ensures r.Err? ==> r.error == Error(DecodeError, InvalidU64DataSize)
  {
    if offset + WORD_SIZE <= |data| then
      Ok((FromBigEndian(data[offset..offset + WORD_SIZE]), offset + WORD_SIZE))
    else Err(Error(DecodeError, InvalidU64DataSize))
  }

  /** The number held by the 8 bytes at `offset`. */
  function WordAt(data: seq<uint8>, offset: nat): (r: nat)
    requires offset + WORD_SIZE <= |data|
    ensures r < U64_BOUND
  {
    FromBigEndian(data[offset..offset + WORD_SIZE])
  }

  /** A word decodes, wherever it sits in a buffer, to the number it encodes. */
  lemma U64RoundTrip(n: nat, pre: seq<uint8>, post: seq<uint8>)
    requires n < U64_BOUND
    ensures U64Encode(n).Ok?
    ensures U64Decode(pre + U64Encode(n).value + post, |pre|) == Ok((n, |pre| + WORD_SIZE))
  {
    var w := U64Encode(n).value;
    assert (pre + w + post)[|pre|..|pre| + WORD_SIZE] == w;
  }

  /**
    The count prefix as ByteCoder and VecCoder read it: slice the word out,
    then decode the slice from offset 0.  It fails exactly when fewer than
    8 bytes follow `offset`.
   */
  lemma ReadCountAt(data: seq<uint8>, offset: nat)
    ensures U64Decode(Slice(data, offset, offset + WORD_SIZE), 0).Ok? <==> offset + WORD_SIZE <= |data|
    ensures offset + WORD_SIZE <= |data| ==>
      U64Decode(Slice(data, offset, offset + WORD_SIZE), 0).value.0 == U64Decode(data, offset).value.0
  {
    if offset + WORD_SIZE <= |data| {
      var word := Slice(data, offset, offset + WORD_SIZE);
      assert word[0..WORD_SIZE] == word;
    }
  }

  /** Regrouping a buffer around an encoding. */
  lemma Reassociate(pre: seq<uint8>, word: seq<uint8>, bytes: seq<uint8>, post: seq<uint8>)
    ensures pre + (word + bytes) + post == pre + word + (bytes + post) == (pre + word) + bytes + post
  {
  }

  /** The bytes that follow a prefix can be sliced back out. */
  lemma SliceAfter(head: seq<uint8>, bytes: seq<uint8>, post: seq<uint8>)
    ensures (head + bytes + post)[|head|..|head| + |bytes|] == bytes
  {
  }
}
