/**
  The error kinds the codec raises, and a failure-compatible `Result`.

  Every error carries its kind (the library's `ErrorCode`) and a reason that
  says which check raised it, in place of the human-readable message.
 */
module Errors {
  import opened AbiTypes

  datatype ErrorKind =
    | EncodeError
    | DecodeError
    | InvalidComponent
    | InvalidData
    | CoderNotFound
    | ElementNotFound

  datatype Reason =
    // the 8-byte big-endian word (U64Coder)
    | InvalidU64                    // value does not fit in 64 bits
    | InvalidU64DataSize            // fewer than 8 bytes to read
    // ByteCoder
    | InvalidByteDataSize           // buffer shorter than one word
    | InvalidBytesByteDataSize      // declared length exceeds the bytes present
    // VecCoder
    | InvalidVecDataSize            // buffer below the minimum size or above the ceiling
    | InvalidVecByteDataSize        // declared count times width exceeds the bytes present
    // EnumCoder
    | CaseFieldRequired             // no case key in the value to encode
    | OnlyOneField                  // more than one case key
    | InvalidCase(key: string)      // a key that names no case
    | InvalidCaseIndex(index: nat, validCases: seq<string>)
    | InvalidEnumDataSize           // buffer shorter than the case-index word
    // coder factory
    | MissingArrayComponent
    | MissingVecTypeArgument
    | NoElementNamed(wanted: string)
    | StringSliceUnsupported
    | NoCoderFor(t: ResolvedType)
    // a leaf coder rejecting a value or a byte pattern
    | LeafRejected

  datatype Error = Error(kind: ErrorKind, reason: Reason)

  datatype Result<+T> = Ok(value: T) | Err(error: Error) {
    predicate IsFailure() {
      Err?
    }

    function PropagateFailure<U>(): Result<U>
      requires Err?
    {
      Err(error)
    }

    function Extract(): T
      requires Ok?
    {
      value
    }
  }

  /** The first failure among `rs`, or all their values in order. */
  function Collect<T>(rs: seq<Result<T>>): (r: Result<seq<T>>)
    ensures r.Ok? <==> forall i :: 0 <= i < |rs| ==> rs[i].Ok?
    ensures r.Ok? ==> |r.value| == |rs| && forall i :: 0 <= i < |rs| ==> r.value[i] == rs[i].value
    ensures r.Err? ==> exists i :: 0 <= i < |rs| && rs[i] == Err(r.error) && forall j :: 0 <= j < i ==> rs[j].Ok?
  {
    if |rs| == 0 then Ok([])
    else if rs[0].Err? then Err(rs[0].error)
    else
      match Collect(rs[1..])
      case Err(e) =>
        assert exists i :: 0 <= i < |rs| && rs[i] == Err(e) && forall j :: 0 <= j < i ==> rs[j].Ok? by {
          var i :| 0 <= i < |rs[1..]| && rs[1..][i] == Err(e) && forall j :: 0 <= j < i ==> rs[1..][j].Ok?;
          assert rs[i + 1] == Err(e);
          assert forall j :: 0 <= j < i + 1 ==> rs[j].Ok? by {
            forall j | 0 <= j < i + 1 ensures rs[j].Ok? {
              if j > 0 { assert rs[j] == rs[1..][j - 1]; }
            }
          }
        }
        Err(e)
      case Ok(vs) => Ok([rs[0].value] + vs)
  }
}
