/**
  Resolved ABI types, as the v1 coder factory sees them.

  The library resolves a type descriptor into a `ResolvedAbiType` whose `type`
  field is a string that the factory matches against exact names and against
  regular expressions (`str[N]`, `[T; N]`, `struct Name`, `enum Name`,
  `(T, U, ...)`).  Here the string is replaced by a closed datatype that keeps
  exactly what those patterns extract, so that a name which matches a pattern
  is written with that pattern's constructor.
 */
module AbiTypes {

  /** The `type` string of a resolved type, by the pattern it matches. */
  datatype TypeName =
    | Plain(text: string)      // a name that matches none of the patterns: "u8", "bool", "str", ...
    | StrArray(length: nat)    // str[N]
    | ArrayOf(length: nat)     // [T; N]
    | StructOf(name: string)   // struct Name
    | EnumOf(name: string)     // enum Name
    | TupleOf                  // (T, U, ...)

  /**
    One occurrence of a type: the field or case name it appears under, its
    type name, its ordered components (struct fields, enum cases, array
    element, tuple slots, the fields of a Vec), and the original generic
    type arguments, already resolved.
   */
  datatype ResolvedType = ResolvedType(
    name: string,
    typeName: TypeName,
    components: seq<ResolvedType>,
    typeArguments: seq<ResolvedType>)

  // The type names the factory compares for equality.
  const U8: TypeName := Plain("u8")
  const U16: TypeName := Plain("u16")
  const U32: TypeName := Plain("u32")
  const U64: TypeName := Plain("u64")
  const RAW_PTR: TypeName := Plain("raw untyped ptr")
  const RAW_SLICE: TypeName := Plain("raw untyped slice")
  const BOOL: TypeName := Plain("bool")
  const B256: TypeName := Plain("b256")
  const B512: TypeName := StructOf("B512")
  const BYTES: TypeName := StructOf("Bytes")
  const STD_STRING: TypeName := StructOf("String")
  const STR_SLICE: TypeName := Plain("str")
  const VEC: TypeName := StructOf("Vec")
  const OPTION: TypeName := EnumOf("Option")

  /** The names of the switch that precedes every pattern match. */
  predicate IsScalarName(n: TypeName) {
    n in {U8, U16, U32, U64, RAW_PTR, RAW_SLICE, BOOL, B256, B512, BYTES, STD_STRING}
  }

  /** The names of a component list, in order. */
  function Names(cs: seq<ResolvedType>): (r: seq<string>)
    ensures |r| == |cs|
    ensures forall i :: 0 <= i < |cs| ==> r[i] == cs[i].name
  {
    seq(|cs|, i requires 0 <= i < |cs| => cs[i].name)
  }

  /** The first position of `key` in `names`, or `|names|` when it is absent (`indexOf`, `find`). */
  function IndexOf(names: seq<string>, key: string): (r: nat)
    ensures r <= |names|
    ensures r < |names| ==> names[r] == key
    ensures forall j :: 0 <= j < r ==> names[j] != key
  {
    if |names| == 0 then 0
    else if names[0] == key then 0
    else 1 + IndexOf(names[1..], key)
  }
}
