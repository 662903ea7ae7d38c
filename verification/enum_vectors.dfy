/**
  The test vectors of EnumCoder.test.ts, stated about the model: an enum
  `TestEnum` with case `a` (a boolean) and case `b` (a u64).

  The boolean coder here is the one-byte layout that the 9-byte vector
  implies (BooleanCoder.ts is not part of this model): 1 for true, 0 for
  false; its refusal of any other byte is a choice of this fixture.  The u64
  case is the 8-byte big-endian word.
 */
module EnumVectors {
  import opened AbiTypes
  import opened Errors
  import opened Words
  import opened Codecs
  import opened EnumCoder

  /** The payload values of the two cases. */
  datatype Scalar = BoolValue(b: bool) | U64Value(n: nat)

  const U64_MAX: nat := U64_BOUND - 1

  function BoolEncode(x: Scalar): (r: Result<seq<uint8>>)
    ensures r.Ok? <==> x.BoolValue?
    ensures r.Ok? ==> r.value == [if x.b then 1 else 0]
  {
    match x
    case BoolValue(b) => Ok([if b then 1 else 0])
    case U64Value(_) => Err(Error(EncodeError, LeafRejected))
  }

  function BoolDecode(data: seq<uint8>, offset: nat): (r: Result<(Scalar, nat)>)
    ensures r.Ok? <==> offset < |data| && data[offset] <= 1
    ensures r.Ok? ==> r.value == (BoolValue(data[offset] == 1), offset + 1)
  {
    if offset < |data| && data[offset] == 0 then Ok((BoolValue(false), offset + 1))
    else if offset < |data| && data[offset] == 1 then Ok((BoolValue(true), offset + 1))
    else Err(Error(DecodeError, LeafRejected))
  }

  function U64CaseEncode(x: Scalar): (r: Result<seq<uint8>>)
    ensures r.Ok? <==> x.U64Value? && x.n < U64_BOUND
  {
    match x
    case U64Value(n) => U64Encode(n)
    case BoolValue(_) => Err(Error(EncodeError, LeafRejected))
  }

  function U64CaseDecode(data: seq<uint8>, offset: nat): (r: Result<(Scalar, nat)>)
    ensures r.Ok? <==> offset + WORD_SIZE <= |data|
    ensures r.Ok? ==> r.value == (U64Value(WordAt(data, offset)), offset + WORD_SIZE)
  {
    var (n, next) :- U64Decode(data, offset);
    Ok((U64Value(n), next))
  }

  const BOOL_CODER: Codec<Scalar> := Codec(1, BoolEncode, BoolDecode)
  const U64_CODER: Codec<Scalar> := Codec(WORD_SIZE, U64CaseEncode, U64CaseDecode)

  /** `new EnumCoder('TestEnum', { a: new BooleanCoder(), b: new U64Coder() })` */
  const TEST_ENUM: seq<Case<Scalar>> := [Case("a", BOOL_CODER), Case("b", U64_CODER)]

  /** Both case coders are fixed-width and lossless. */
  lemma CaseCodersWellBehaved()
    ensures WellBehaved(BOOL_CODER) && WellBehaved(U64_CODER)
  {
    forall x: Scalar, pre: seq<uint8>, post: seq<uint8> | BoolEncode(x).Ok?
      ensures BoolDecode(pre + BoolEncode(x).value + post, |pre|) == Ok((x, |pre| + 1))
    {
      assert (pre + BoolEncode(x).value + post)[|pre|] == BoolEncode(x).value[0];
    }
    forall x: Scalar, pre: seq<uint8>, post: seq<uint8> | U64CaseEncode(x).Ok?
      ensures U64CaseDecode(pre + U64CaseEncode(x).value + post, |pre|) == Ok((x, |pre| + WORD_SIZE))
    {
      U64RoundTrip(x.n, pre, post);
    }
  }

  /** Both cases of the test enum are lossless. */
  lemma TestEnumCasesRoundTrip()
    ensures CasesRoundTrip(TEST_ENUM)
  {
    CaseCodersWellBehaved();
    assert TEST_ENUM[0].coder == BOOL_CODER && TEST_ENUM[1].coder == U64_CODER;
  }

  /** Encoding `{ a: true }` gives eight zero bytes and then 1. */
  lemma EncodeCaseA()
    ensures Encode(TEST_ENUM, [("a", BoolValue(true))]) == Ok([0, 0, 0, 0, 0, 0, 0, 0, 1])
  {
    var z: seq<uint8> := [0, 0, 0, 0, 0, 0, 0, 0];
    WordValue(z);
    EncodesTo(0, z);
    assert CaseNames(TEST_ENUM) == ["a", "b"];
    assert IndexOf(["a", "b"], "a") == 0;
    assert TEST_ENUM[0].coder.encode(BoolValue(true)) == Ok([1]);
    assert z + [1] == [0, 0, 0, 0, 0, 0, 0, 0, 1];
  }

  /** A word whose value is `n` is the encoding of `n`. */
  lemma EncodesTo(n: nat, s: seq<uint8>)
    requires |s| == WORD_SIZE && FromBigEndian(s) == n
    ensures U64Encode(n) == Ok(s)
  {
    ToFromBigEndian(s);
  }

  /** Decoding those 9 bytes gives `{ a: true }` and next offset 9. */
  lemma DecodeCaseA()
    ensures Decode(TEST_ENUM, [0, 0, 0, 0, 0, 0, 0, 0, 1], 0) == Ok((("a", BoolValue(true)), 9))
  {
    var data: seq<uint8> := [0, 0, 0, 0, 0, 0, 0, 0, 1];
    assert data[0..8] == [0, 0, 0, 0, 0, 0, 0, 0];
    WordValue([0, 0, 0, 0, 0, 0, 0, 0]);
  }

  /** Encoding `{ b: U64_MAX }` gives the word 1 and then eight bytes of 255. */
  lemma EncodeCaseB()
    ensures Encode(TEST_ENUM, [("b", U64Value(U64_MAX))])
         == Ok([0, 0, 0, 0, 0, 0, 0, 1, 255, 255, 255, 255, 255, 255, 255, 255])
  {
    var w: seq<uint8> := [0, 0, 0, 0, 0, 0, 0, 1];
    var m: seq<uint8> := [255, 255, 255, 255, 255, 255, 255, 255];
    WordValue(w);
    EncodesTo(1, w);
    WordValue(m);
    EncodesTo(U64_MAX, m);
    assert CaseNames(TEST_ENUM) == ["a", "b"];
    assert IndexOf(["a", "b"], "b") == 1;
    assert TEST_ENUM[1].coder.encode(U64Value(U64_MAX)) == Ok(m);
    assert w + m == [0, 0, 0, 0, 0, 0, 0, 1, 255, 255, 255, 255, 255, 255, 255, 255];
  }

  /** Decoding those 16 bytes gives `{ b: U64_MAX }` and next offset 16. */
  lemma DecodeCaseB()
    ensures Decode(TEST_ENUM, [0, 0, 0, 0, 0, 0, 0, 1, 255, 255, 255, 255, 255, 255, 255, 255], 0)
         == Ok((("b", U64Value(U64_MAX)), 16))
  {
    var data: seq<uint8> := [0, 0, 0, 0, 0, 0, 0, 1, 255, 255, 255, 255, 255, 255, 255, 255];
    assert data[0..8] == [0, 0, 0, 0, 0, 0, 0, 1];
    assert data[8..16] == [255, 255, 255, 255, 255, 255, 255, 255];
    WordValue([0, 0, 0, 0, 0, 0, 0, 1]);
    WordValue([255, 255, 255, 255, 255, 255, 255, 255]);
  }

  /** Encoding `{}` fails: a field for the case must be provided. */
  lemma EncodeNoCase()
    ensures Encode(TEST_ENUM, []) == Err(Error(DecodeError, CaseFieldRequired))
  {
  }

  /** Decoding the index 0x0001020304050607 fails, naming the index and the cases `a,b`. */
  lemma DecodeInvalidIndex()
    ensures Decode(TEST_ENUM, [0, 1, 2, 3, 4, 5, 6, 7], 0)
         == Err(Error(DecodeError, InvalidCaseIndex(283686952306183, ["a", "b"])))
  {
    var data: seq<uint8> := [0, 1, 2, 3, 4, 5, 6, 7];
    assert data[0..8] == data;
    WordValue(data);
    assert CaseNames(TEST_ENUM) == ["a", "b"];
  }

  /** Decoding an empty buffer fails: invalid enum data size. */
  lemma DecodeEmpty()
    ensures Decode(TEST_ENUM, [], 0) == Err(Error(DecodeError, InvalidEnumDataSize))
  {
  }

  /** Every value of either case round-trips, wherever its encoding sits in a buffer. */
  lemma TestEnumRoundTrip(key: string, v: Scalar, pre: seq<uint8>, post: seq<uint8>)
    requires Encode(TEST_ENUM, [(key, v)]).Ok?
    ensures Decode(TEST_ENUM, pre + Encode(TEST_ENUM, [(key, v)]).value + post, |pre|)
         == Ok(((key, v), |pre| + |Encode(TEST_ENUM, [(key, v)]).value|))
  {
    TestEnumCasesRoundTrip();
    RoundTrip(TEST_ENUM, key, v, pre, post);
  }

  /** The length of an encoding depends on the active case: 9 bytes for `a`, 16 for `b`. */
  lemma TestEnumLengths(key: string, v: Scalar)
    requires Encode(TEST_ENUM, [(key, v)]).Ok?
    ensures key in {"a", "b"}
    ensures |Encode(TEST_ENUM, [(key, v)]).value| == if key == "a" then 9 else 16
  {
    assert CaseNames(TEST_ENUM) == ["a", "b"];
  }
}
