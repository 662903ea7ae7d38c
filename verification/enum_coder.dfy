/**
  EnumCoder (v1): a tagged union written as the 8-byte big-endian index of
  the active case followed by that case's own encoding, so the total length
  depends on which case is active.

  EnumCoder.ts is not part of this model; the layout is the one its test
  vectors pin down (EnumCoder.test.ts).  Of the error cases the vectors fix
  only the missing key, an out-of-range index and the empty buffer; the
  others here are this model's choices.  A value
  to encode is the list of `[key, value]` fields of the object passed in,
  in key order; a decoded value is the single field that was set.
 */
module EnumCoder {
  import opened AbiTypes
  import opened Errors
  import opened Words
  import opened Codecs

  /** A case: its name and the coder of its payload.  Its position is its index. */
  datatype Case<!V> = Case(name: string, coder: Codec<V>)

  /** The case names in declaration order. */
  function CaseNames<V>(cases: seq<Case<V>>): (r: seq<string>)
    ensures |r| == |cases| && forall i :: 0 <= i < |cases| ==> r[i] == cases[i].name
  {
    seq(|cases|, i requires 0 <= i < |cases| => cases[i].name)
  }

  /**
    EnumCoder.encode: exactly one field must be set, naming a case; the
    result is that case's index as a word followed by its payload.
   */
  function Encode<V>(cases: seq<Case<V>>, fields: seq<(string, V)>): (r: Result<seq<uint8>>)
    ensures |fields| == 0 ==> r == Err(Error(DecodeError, CaseFieldRequired))
    ensures |fields| > 1 ==> r == Err(Error(DecodeError, OnlyOneField))
    ensures |fields| == 1 && fields[0].0 !in CaseNames(cases) ==> r == Err(Error(DecodeError, InvalidCase(fields[0].0)))
    ensures r.Ok? <==>
      && |fields| == 1
      && IndexOf(CaseNames(cases), fields[0].0) < |cases|
      && IndexOf(CaseNames(cases), fields[0].0) < U64_BOUND
      && cases[IndexOf(CaseNames(cases), fields[0].0)].coder.encode(fields[0].1).Ok?
    ensures r.Ok? ==>
      var i := IndexOf(CaseNames(cases), fields[0].0);
      && |r.value| == WORD_SIZE + |cases[i].coder.encode(fields[0].1).value|
      && WordAt(r.value, 0) == i
      && cases[i].name == fields[0].0
      && r.value[WORD_SIZE..] == cases[i].coder.encode(fields[0].1).value
  {
    if |fields| == 0 then Err(Error(DecodeError, CaseFieldRequired))
    else if |fields| > 1 then Err(Error(DecodeError, OnlyOneField))
    else
      var key := fields[0].0;
      var caseIndex := IndexOf(CaseNames(cases), key);
      if caseIndex == |cases| then Err(Error(DecodeError, InvalidCase(key)))
      else
        var indexBytes :- U64Encode(caseIndex);
        var payload :- cases[caseIndex].coder.encode(fields[0].1);
        assert (indexBytes + payload)[..WORD_SIZE] == indexBytes;
        assert (indexBytes + payload)[WORD_SIZE..] == payload;
        Ok(indexBytes + payload)
  }

  /**
    EnumCoder.decode: read the case index at `offset`, then decode that
    case's payload from the same buffer just after the index word.
   */
  function Decode<V>(cases: seq<Case<V>>, data: seq<uint8>, offset: nat): (r: Result<((string, V), nat)>)
    ensures |data| < WORD_SIZE ==> r == Err(Error(DecodeError, InvalidEnumDataSize))
    ensures WORD_SIZE <= |data| < offset + WORD_SIZE ==> r == Err(Error(DecodeError, InvalidU64DataSize))
    ensures WORD_SIZE <= |data| && offset + WORD_SIZE <= |data| && WordAt(data, offset) >= |cases| ==>
      r == Err(Error(DecodeError, InvalidCaseIndex(WordAt(data, offset), CaseNames(cases))))
    ensures r.Ok? ==>
      && offset + WORD_SIZE <= |data|
      && WordAt(data, offset) < |cases|
      && var c := cases[WordAt(data, offset)];
         r.value.0.0 == c.name && c.coder.decode(data, offset + WORD_SIZE) == Ok((r.value.0.1, r.value.1))
    ensures WORD_SIZE <= |data| && offset + WORD_SIZE <= |data| && WordAt(data, offset) < |cases| ==>
      (r.Ok? <==> cases[WordAt(data, offset)].coder.decode(data, offset + WORD_SIZE).Ok?)
  {
    if |data| < WORD_SIZE then Err(Error(DecodeError, InvalidEnumDataSize))
    else
      var word :- U64Decode(data, offset);
      var caseIndex := word.0;
      if caseIndex >= |cases| then Err(Error(DecodeError, InvalidCaseIndex(caseIndex, CaseNames(cases))))
      else
        var decoded :- cases[caseIndex].coder.decode(data, word.1);
        Ok(((cases[caseIndex].name, decoded.0), decoded.1))
  }

  /** Every case coder is lossless. */
  ghost predicate CasesRoundTrip<V(!new)>(cases: seq<Case<V>>) {
    forall i :: 0 <= i < |cases| ==> RoundTrips(cases[i].coder)
  }

  /**
    Round trip: encoding the case `key` and decoding the result, wherever it
    sits in a buffer, gives back the same case key, the same payload, and the
    offset just past the encoding.
   */
  lemma RoundTrip<V(!new)>(cases: seq<Case<V>>, key: string, v: V, pre: seq<uint8>, post: seq<uint8>)
    requires CasesRoundTrip(cases)
    requires Encode(cases, [(key, v)]).Ok?
    ensures Decode(cases, pre + Encode(cases, [(key, v)]).value + post, |pre|)
         == Ok(((key, v), |pre| + |Encode(cases, [(key, v)]).value|))
  {
    var enc := Encode(cases, [(key, v)]).value;
    var i := IndexOf(CaseNames(cases), key);
    var payload := cases[i].coder.encode(v).value;
    var word := U64Encode(i).value;
    assert enc == word + payload by {
      assert enc[..WORD_SIZE] == word by {
        ToFromBigEndian(enc[..WORD_SIZE]);
      }
      assert enc == enc[..WORD_SIZE] + enc[WORD_SIZE..];
    }
    var buffer := pre + enc + post;
    U64RoundTrip(i, pre, payload + post);
    assert buffer == pre + word + (payload + post);
    assert buffer == (pre + word) + payload + post;
    assert cases[i].coder.decode(buffer, |pre| + WORD_SIZE) == Ok((v, |pre| + WORD_SIZE + |payload|));
  }

  /** The discriminant law: the index word of an encoding is the position of its case. */
  lemma Discriminant<V>(cases: seq<Case<V>>, key: string, v: V)
    requires Encode(cases, [(key, v)]).Ok?
    ensures var i := WordAt(Encode(cases, [(key, v)]).value, 0);
      i < |cases| && cases[i].name == key && forall j :: 0 <= j < i ==> cases[j].name != key
  {
  }
}
