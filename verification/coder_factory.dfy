/**
  The v1 coder factory: a first-match dispatch from a resolved type to a
  tree of coders.

  The leaf coders the factory builds are tags here: their layouts belong to
  files that are not part of this model.  What the tree records is which
  coder each node is, the parameters the factory gives it (a width name, a
  length, a struct or enum name) and, for every child, the name it is built
  for and the option record the factory passes when it builds it.
 */
module CoderFactory {
  import opened AbiTypes
  import opened Errors

  /**
    An `EncodingOptions` record.  An absent flag is `false`;
    `encodingV0` stands for `encoding: ENCODING_V0`.
   */
  datatype Options = Options(isSmallBytes: bool, isRightPadded: bool, encodingV0: bool)

  const NO_OPTIONS: Options := Options(false, false, false)

  // The records the factory passes to the children it builds.
  const ARRAY_ELEMENT_OPTIONS: Options := Options(true, false, false)
  const VEC_ITEM_OPTIONS: Options := Options(true, false, true)
  const STRUCT_FIELD_OPTIONS: Options := Options(false, true, false)
  const ENUM_CASE_OPTIONS: Options := NO_OPTIONS
  const TUPLE_SLOT_OPTIONS: Options := Options(false, true, true)

  /** The component holding a Vec's item type. */
  const VEC_BUFFER: string := "buf"

  datatype Coder =
    | NumberCoder(baseType: TypeName)
    | U64Coder
    | RawSliceCoder
    | BooleanCoder
    | B256Coder
    | B512Coder
    | BytesCoder
    | StdStringCoder
    | StringCoder(length: nat)
    | ArrayCoder(element: Child, length: nat)
    | VecCoder(item: Child)
    | StructCoder(name: string, fields: seq<Child>)
    | OptionCoder(name: string, cases: seq<Child>)
    | EnumCoder(name: string, cases: seq<Child>)
    | TupleCoder(slots: seq<Child>)

  /** A child coder, the name of the component it was built for, and the options it was built with. */
  datatype Child = Child(name: string, options: Options, coder: Coder)

  /** The children built for `cs` with `options`, in component order. */
  function Label(cs: seq<ResolvedType>, options: Options, coders: seq<Coder>): (r: seq<Child>)
    requires |coders| == |cs|
    ensures |r| == |cs|
    ensures forall i :: 0 <= i < |cs| ==> r[i] == Child(cs[i].name, options, coders[i])
  {
    seq(|cs|, i requires 0 <= i < |cs| => Child(cs[i].name, options, coders[i]))
  }

  /** The rules of getCoder, in the order it tries them. */
  datatype Rule =
    | ScalarRule       // the switch on exact names
    | StringRule       // str[N]
    | ArrayRule        // [T; N]
    | VecRule          // struct Vec
    | StructRule       // any other struct
    | EnumRule         // enum, Option included
    | TupleRule        // (T, U, ...)
    | StringSliceRule  // str
    | NoRule           // anything else

  /**
    The first rule that matches `n`.  The rules do not overlap once the
    exact names are taken out of the struct pattern, so each one is
    characterized on its own.
   */
  function RuleFor(n: TypeName): (r: Rule)
    ensures r == ScalarRule <==> IsScalarName(n)
    ensures r == StringRule <==> n.StrArray?
    ensures r == ArrayRule <==> n.ArrayOf?
    ensures r == VecRule <==> n == VEC
    ensures r == StructRule <==> n.StructOf? && !IsScalarName(n) && n != VEC
    ensures r == EnumRule <==> n.EnumOf?
    ensures r == TupleRule <==> n.TupleOf?
    ensures r == StringSliceRule <==> n == STR_SLICE
    ensures r == NoRule <==> n.Plain? && !IsScalarName(n) && n != STR_SLICE
  {
    if IsScalarName(n) then ScalarRule
    else if n.StrArray? then StringRule
    else if n.ArrayOf? then ArrayRule
    else if n == VEC then VecRule
    else if n.StructOf? then StructRule
    else if n.EnumOf? then EnumRule
    else if n.TupleOf? then TupleRule
    else if n == STR_SLICE then StringSliceRule
    else NoRule
  }

  /** The coder the switch on exact names returns. */
  function ScalarCoder(n: TypeName): (r: Coder)
    requires IsScalarName(n)
    ensures r.NumberCoder? <==> n in {U8, U16, U32}
    ensures r.NumberCoder? ==> r.baseType == n
    ensures r == U64Coder <==> n in {U64, RAW_PTR}
    ensures !r.StructCoder?
  {
    if n == U8 || n == U16 || n == U32 then NumberCoder(n)
    else if n == U64 || n == RAW_PTR then U64Coder
    else if n == RAW_SLICE then RawSliceCoder
    else if n == BOOL then BooleanCoder
    else if n == B256 then B256Coder
    else if n == B512 then B512Coder
    else if n == BYTES then BytesCoder
    else StdStringCoder
  }

  /**
    getCoder.  The incoming `options` are never read: every child is built
    by this same function, with the option record its parent chooses.
   */
  function GetCoder(t: ResolvedType, options: Options): (r: Result<Coder>)
    decreases t, 1
    ensures r.Err? ==> r.error.kind in {InvalidComponent, ElementNotFound, InvalidData, CoderNotFound}
    ensures r.Err? && r.error.kind == CoderNotFound ==>
      && r.error.reason.NoCoderFor?
      && r.error.reason.t.typeName.Plain?
      && !IsScalarName(r.error.reason.t.typeName)
      && r.error.reason.t.typeName != STR_SLICE
    ensures r.Err? && r.error.kind == InvalidData ==> r.error.reason == StringSliceUnsupported
  {
    var n := t.typeName;
    var cs := t.components;
    match RuleFor(n)
    case ScalarRule => Ok(ScalarCoder(n))
    case StringRule => Ok(StringCoder(n.length))
    case ArrayRule =>
      if |cs| == 0 then Err(Error(InvalidComponent, MissingArrayComponent))
      else
        var element :- GetCoder(cs[0], ARRAY_ELEMENT_OPTIONS);
        Ok(ArrayCoder(Child(cs[0].name, ARRAY_ELEMENT_OPTIONS, element), n.length))
    case VecRule =>
      var b := IndexOf(Names(cs), VEC_BUFFER);
      if b == |cs| then Err(Error(ElementNotFound, NoElementNamed(VEC_BUFFER)))
      else if |cs[b].typeArguments| == 0 then Err(Error(InvalidComponent, MissingVecTypeArgument))
      else
        var arg := cs[b].typeArguments[0];
        var item :- GetCoder(arg, VEC_ITEM_OPTIONS);
        Ok(VecCoder(Child(arg.name, VEC_ITEM_OPTIONS, item)))
    case StructRule =>
      var fields :- Components(t, STRUCT_FIELD_OPTIONS);
      Ok(StructCoder(n.name, fields))
    case EnumRule =>
      var cases :- Components(t, ENUM_CASE_OPTIONS);
      if n == OPTION then Ok(OptionCoder(n.name, cases)) else Ok(EnumCoder(n.name, cases))
    case TupleRule =>
      var slots :- Components(t, TUPLE_SLOT_OPTIONS);
      Ok(TupleCoder(slots))
    case StringSliceRule => Err(Error(InvalidData, StringSliceUnsupported))
    case NoRule => Err(Error(CoderNotFound, NoCoderFor(t)))
  }

  /**
    `getCoders`: one child per component of `t`, in order, each built with
    `o` under the component's name; the first component that fails decides
    the error.
   */
  function Components(t: ResolvedType, o: Options): (r: Result<seq<Child>>)
    decreases t, 0
    ensures r.Ok? <==> forall i :: 0 <= i < |t.components| ==> GetCoder(t.components[i], o).Ok?
    ensures r.Ok? ==>
      && |r.value| == |t.components|
      && forall i :: 0 <= i < |t.components| ==>
           r.value[i] == Child(t.components[i].name, o, GetCoder(t.components[i], o).value)
    ensures r.Err? ==>
      exists i :: 0 <= i < |t.components| && GetCoder(t.components[i], o) == Err(r.error)
        && forall j :: 0 <= j < i ==> GetCoder(t.components[j], o).Ok?
  {
    var cs := t.components;
    var rs := seq(|cs|, i requires 0 <= i < |cs| => GetCoder(cs[i], o));
    assert forall i :: 0 <= i < |cs| ==> rs[i] == GetCoder(cs[i], o);
    var coders :- Collect(rs);
    Ok(Label(cs, o, coders))
  }

  /**
    The coder tree `c` mirrors the type `t`: the relation between a type
    and its coder, stated node by node and without an order of checks.
    A scalar name has its own leaf; `str[N]` a string coder of length N;
    an array an element coder for its first component; a Vec an item coder
    for the type argument of its `buf` component; a struct, enum or tuple
    one child per component, in order, each carrying the component's name
    and the option record of its kind.
   */
  ghost predicate Mirrors(t: ResolvedType, c: Coder)
    decreases t
  {
    var n := t.typeName;
    var cs := t.components;
    match c
    case NumberCoder(base) => n == base && base in {U8, U16, U32}
    case U64Coder => n in {U64, RAW_PTR}
    case RawSliceCoder => n == RAW_SLICE
    case BooleanCoder => n == BOOL
    case B256Coder => n == B256
    case B512Coder => n == B512
    case BytesCoder => n == BYTES
    case StdStringCoder => n == STD_STRING
    case StringCoder(length) => n == StrArray(length)
    case ArrayCoder(element, length) =>
      && n == ArrayOf(length)
      && |cs| > 0
      && element.name == cs[0].name
      && element.options == ARRAY_ELEMENT_OPTIONS
      && Mirrors(cs[0], element.coder)
    case VecCoder(item) =>
      && n == VEC
      && (exists b :: 0 <= b < |cs| && cs[b].name == VEC_BUFFER)
      && var b := IndexOf(Names(cs), VEC_BUFFER);
         && b < |cs|
         && |cs[b].typeArguments| > 0
         && item.name == cs[b].typeArguments[0].name
         && item.options == VEC_ITEM_OPTIONS
         && Mirrors(cs[b].typeArguments[0], item.coder)
    case StructCoder(name, fields) =>
      && n == StructOf(name)
      && !IsScalarName(n) && n != VEC
      && |fields| == |cs|
      && forall i :: 0 <= i < |cs| ==>
           fields[i].name == cs[i].name && fields[i].options == STRUCT_FIELD_OPTIONS && Mirrors(cs[i], fields[i].coder)
    case OptionCoder(name, cases) =>
      && n == EnumOf(name)
      && n == OPTION
      && |cases| == |cs|
      && forall i :: 0 <= i < |cs| ==>
           cases[i].name == cs[i].name && cases[i].options == ENUM_CASE_OPTIONS && Mirrors(cs[i], cases[i].coder)
    case EnumCoder(name, cases) =>
      && n == EnumOf(name)
      && n != OPTION
      && |cases| == |cs|
      && forall i :: 0 <= i < |cs| ==>
           cases[i].name == cs[i].name && cases[i].options == ENUM_CASE_OPTIONS && Mirrors(cs[i], cases[i].coder)
    case TupleCoder(slots) =>
      && n == TupleOf
      && |slots| == |cs|
      && forall i :: 0 <= i < |cs| ==>
           slots[i].name == cs[i].name && slots[i].options == TUPLE_SLOT_OPTIONS && Mirrors(cs[i], slots[i].coder)
  }

  /** Every coder the factory builds mirrors its type. */
  lemma {:induction false} GetCoderMirrors(t: ResolvedType, options: Options)
    requires GetCoder(t, options).Ok?
    ensures Mirrors(t, GetCoder(t, options).value)
    decreases t, 2
  {
    match RuleFor(t.typeName)
    case ScalarRule => ScalarMirrors(t, options);
    case ArrayRule => ArrayMirrors(t, options);
    case VecRule => VecMirrors(t, options);
    case StructRule => StructMirrors(t, options);
    case EnumRule => EnumMirrors(t, options);
    case TupleRule => TupleMirrors(t, options);
    case _ =>
  }

  lemma ScalarMirrors(t: ResolvedType, options: Options)
    requires IsScalarName(t.typeName)
    ensures GetCoder(t, options) == Ok(ScalarCoder(t.typeName))
    ensures Mirrors(t, ScalarCoder(t.typeName))
  {
  }

  lemma {:induction false} ArrayMirrors(t: ResolvedType, options: Options)
    requires t.typeName.ArrayOf? && GetCoder(t, options).Ok?
    ensures Mirrors(t, GetCoder(t, options).value)
    decreases t, 1
  {
    GetCoderMirrors(t.components[0], ARRAY_ELEMENT_OPTIONS);
  }

  lemma {:induction false} VecMirrors(t: ResolvedType, options: Options)
    requires t.typeName == VEC && GetCoder(t, options).Ok?
    ensures Mirrors(t, GetCoder(t, options).value)
    decreases t, 1
  {
    var cs := t.components;
    var b := IndexOf(Names(cs), VEC_BUFFER);
    assert cs[b].name == VEC_BUFFER;
    GetCoderMirrors(cs[b].typeArguments[0], VEC_ITEM_OPTIONS);
  }

  lemma {:induction false} StructMirrors(t: ResolvedType, options: Options)
    requires RuleFor(t.typeName) == StructRule && GetCoder(t, options).Ok?
    ensures Mirrors(t, GetCoder(t, options).value)
    decreases t, 1
  {
    assert GetCoder(t, options).value.fields == Components(t, STRUCT_FIELD_OPTIONS).value;
    ComponentsMirror(t, STRUCT_FIELD_OPTIONS);
  }

  lemma {:induction false} EnumMirrors(t: ResolvedType, options: Options)
    requires RuleFor(t.typeName) == EnumRule && GetCoder(t, options).Ok?
    ensures Mirrors(t, GetCoder(t, options).value)
    decreases t, 1
  {
    assert GetCoder(t, options).value.cases == Components(t, ENUM_CASE_OPTIONS).value;
    ComponentsMirror(t, ENUM_CASE_OPTIONS);
  }

  lemma {:induction false} TupleMirrors(t: ResolvedType, options: Options)
    requires RuleFor(t.typeName) == TupleRule && GetCoder(t, options).Ok?
    ensures Mirrors(t, GetCoder(t, options).value)
    decreases t, 1
  {
    assert GetCoder(t, options).value.slots == Components(t, TUPLE_SLOT_OPTIONS).value;
    ComponentsMirror(t, TUPLE_SLOT_OPTIONS);
  }

  /** The children `getCoders` builds mirror their components. */
  lemma {:induction false} ComponentsMirror(t: ResolvedType, o: Options)
    requires Components(t, o).Ok?
    ensures forall i :: 0 <= i < |t.components| ==> Mirrors(t.components[i], Components(t, o).value[i].coder)
    decreases t, 0
  {
    forall i | 0 <= i < |t.components|
      ensures Mirrors(t.components[i], Components(t, o).value[i].coder)
    {
      GetCoderMirrors(t.components[i], o);
    }
  }

  /** Conversely, a coder tree that mirrors a type is exactly the one the factory builds for it. */
  lemma {:induction false} MirrorsGetCoder(t: ResolvedType, c: Coder, options: Options)
    requires Mirrors(t, c)
    ensures GetCoder(t, options) == Ok(c)
    decreases t, 2
  {
    match c
    case ArrayCoder(_, _) => MirrorsArray(t, c, options);
    case VecCoder(_) => MirrorsVec(t, c, options);
    case StructCoder(_, _) => MirrorsComposite(t, c, options);
    case OptionCoder(_, _) => MirrorsComposite(t, c, options);
    case EnumCoder(_, _) => MirrorsComposite(t, c, options);
    case TupleCoder(_) => MirrorsComposite(t, c, options);
    case _ => LeafGetCoder(t, c, options);
  }

  lemma LeafGetCoder(t: ResolvedType, c: Coder, options: Options)
    requires Mirrors(t, c)
    requires !(c.ArrayCoder? || c.VecCoder? || c.StructCoder? || c.OptionCoder? || c.EnumCoder? || c.TupleCoder?)
    ensures GetCoder(t, options) == Ok(c)
  {
    if !c.StringCoder? {
      assert IsScalarName(t.typeName);
    }
  }

  lemma {:induction false} MirrorsArray(t: ResolvedType, c: Coder, options: Options)
    requires c.ArrayCoder? && Mirrors(t, c)
    ensures GetCoder(t, options) == Ok(c)
    decreases t, 1
  {
    assert RuleFor(t.typeName) == ArrayRule;
    MirrorsGetCoder(t.components[0], c.element.coder, ARRAY_ELEMENT_OPTIONS);
  }

  lemma {:induction false} MirrorsVec(t: ResolvedType, c: Coder, options: Options)
    requires c.VecCoder? && Mirrors(t, c)
    ensures GetCoder(t, options) == Ok(c)
    decreases t, 1
  {
    assert RuleFor(t.typeName) == VecRule;
    var b := IndexOf(Names(t.components), VEC_BUFFER);
    MirrorsGetCoder(t.components[b].typeArguments[0], c.item.coder, VEC_ITEM_OPTIONS);
  }

  lemma {:induction false} MirrorsComposite(t: ResolvedType, c: Coder, options: Options)
    requires (c.StructCoder? || c.OptionCoder? || c.EnumCoder? || c.TupleCoder?) && Mirrors(t, c)
    ensures GetCoder(t, options) == Ok(c)
    decreases t, 1
  {
    match c
    case StructCoder(_, children) => MirroredComponents(t, children, STRUCT_FIELD_OPTIONS);
    case OptionCoder(_, children) => MirroredComponents(t, children, ENUM_CASE_OPTIONS);
    case EnumCoder(_, children) => MirroredComponents(t, children, ENUM_CASE_OPTIONS);
    case TupleCoder(children) => MirroredComponents(t, children, TUPLE_SLOT_OPTIONS);
  }

  /** Children that mirror the components, in order and with `o`, are what `getCoders` builds. */
  lemma {:induction false} MirroredComponents(t: ResolvedType, children: seq<Child>, o: Options)
    requires |children| == |t.components|
    requires forall i :: 0 <= i < |children| ==>
      children[i].name == t.components[i].name && children[i].options == o && Mirrors(t.components[i], children[i].coder)
    ensures Components(t, o) == Ok(children)
    decreases t, 0
  {
    var cs := t.components;
    forall i | 0 <= i < |cs|
      ensures GetCoder(cs[i], o) == Ok(children[i].coder)
    {
      MirrorsGetCoder(cs[i], children[i].coder, o);
    }
    var r := Components(t, o);
    assert r.Ok?;
    assert forall i :: 0 <= i < |cs| ==> r.value[i] == children[i];
    assert r.value == children;
  }

  /** The factory succeeds on `t` exactly when some coder tree mirrors `t`, and that tree is unique. */
  lemma GetCoderCharacterized(t: ResolvedType, c: Coder, options: Options)
    ensures GetCoder(t, options) == Ok(c) <==> Mirrors(t, c)
  {
    if GetCoder(t, options) == Ok(c) {
      GetCoderMirrors(t, options);
    }
    if Mirrors(t, c) {
      MirrorsGetCoder(t, c, options);
    }
  }

  /** The result does not depend on the incoming options. */
  lemma OptionsIgnored(t: ResolvedType, o1: Options, o2: Options)
    ensures GetCoder(t, o1) == GetCoder(t, o2)
  {
  }

  /**
    The scalar names are matched before any pattern: `u8`, `u16` and `u32`
    give a number coder of that width, `u64` and `raw untyped ptr` the same
    u64 coder, and `B512`, `Bytes` and `String`, although written like
    structs, give their own leaf whatever their components.
   */
  lemma ScalarsFirst(t: ResolvedType, options: Options)
    requires IsScalarName(t.typeName)
    ensures GetCoder(t, options).Ok?
    ensures t.typeName in {U8, U16, U32} <==> GetCoder(t, options) == Ok(NumberCoder(t.typeName))
    ensures t.typeName in {U64, RAW_PTR} <==> GetCoder(t, options) == Ok(U64Coder)
    ensures !GetCoder(t, options).value.StructCoder?
    ensures forall cs, ta :: GetCoder(t.(components := cs, typeArguments := ta), options) == GetCoder(t, options)
  {
  }

  /** `str[N]` gives a string coder of length exactly N, before the array, Vec and struct rules. */
  lemma StringArray(t: ResolvedType, options: Options)
    requires t.typeName.StrArray?
    ensures GetCoder(t, options) == Ok(StringCoder(t.typeName.length))
  {
  }

  /**
    An array needs a first component: without one the factory fails with
    INVALID_COMPONENT; with one it wraps that component's coder, built with
    `isSmallBytes`, in an array coder of the array's length.
   */
  lemma Array(t: ResolvedType, options: Options)
    requires t.typeName.ArrayOf?
    ensures |t.components| == 0 ==> GetCoder(t, options) == Err(Error(InvalidComponent, MissingArrayComponent))
    ensures |t.components| > 0 ==>
      match GetCoder(t.components[0], ARRAY_ELEMENT_OPTIONS)
      case Ok(e) =>
        GetCoder(t, options) == Ok(ArrayCoder(Child(t.components[0].name, ARRAY_ELEMENT_OPTIONS, e), t.typeName.length))
      case Err(err) => GetCoder(t, options) == Err(err)
    ensures ARRAY_ELEMENT_OPTIONS.isSmallBytes && !ARRAY_ELEMENT_OPTIONS.encodingV0
  {
  }

  /**
    A Vec looks up its first `buf` component: without one the lookup fails;
    without a type argument there the factory fails with INVALID_COMPONENT;
    otherwise it wraps the coder of that type argument, built with
    `isSmallBytes` and the legacy encoding, in a Vec coder.
   */
  lemma Vec(t: ResolvedType, options: Options)
    requires t.typeName == VEC
    ensures (forall i :: 0 <= i < |t.components| ==> t.components[i].name != VEC_BUFFER) ==>
      GetCoder(t, options) == Err(Error(ElementNotFound, NoElementNamed(VEC_BUFFER)))
    ensures forall b :: (0 <= b < |t.components| && t.components[b].name == VEC_BUFFER
                        && forall j :: 0 <= j < b ==> t.components[j].name != VEC_BUFFER) ==>
      var buf := t.components[b];
      && (|buf.typeArguments| == 0 ==> GetCoder(t, options) == Err(Error(InvalidComponent, MissingVecTypeArgument)))
      && (|buf.typeArguments| > 0 ==>
           match GetCoder(buf.typeArguments[0], VEC_ITEM_OPTIONS)
           case Ok(item) => GetCoder(t, options) == Ok(VecCoder(Child(buf.typeArguments[0].name, VEC_ITEM_OPTIONS, item)))
           case Err(err) => GetCoder(t, options) == Err(err))
    ensures VEC_ITEM_OPTIONS.isSmallBytes && VEC_ITEM_OPTIONS.encodingV0
  {
    var cs := t.components;
    var b := IndexOf(Names(cs), VEC_BUFFER);
    if b < |cs| {
      forall b' | 0 <= b' < |cs| && cs[b'].name == VEC_BUFFER && (forall j :: 0 <= j < b' ==> cs[j].name != VEC_BUFFER)
        ensures b' == b
      {
        assert Names(cs)[b'] == VEC_BUFFER;
        assert forall j :: 0 <= j < b' ==> Names(cs)[j] != VEC_BUFFER;
      }
    } else {
      assert forall i :: 0 <= i < |cs| ==> Names(cs)[i] != VEC_BUFFER;
    }
  }

  /** Struct fields are built by `getCoders` with `isRightPadded`, one per component, in order. */
  lemma StructFields(t: ResolvedType, options: Options)
    requires t.typeName.StructOf? && !IsScalarName(t.typeName) && t.typeName != VEC
    ensures GetCoder(t, options).Ok? <==> Components(t, STRUCT_FIELD_OPTIONS).Ok?
    ensures GetCoder(t, options).Ok? ==>
      GetCoder(t, options).value == StructCoder(t.typeName.name, Components(t, STRUCT_FIELD_OPTIONS).value)
    ensures GetCoder(t, options).Err? ==> GetCoder(t, options).error == Components(t, STRUCT_FIELD_OPTIONS).error
    ensures STRUCT_FIELD_OPTIONS.isRightPadded && !STRUCT_FIELD_OPTIONS.encodingV0
  {
  }

  /** Enum cases are built by `getCoders` with no options, one per component, in order. */
  lemma EnumCases(t: ResolvedType, options: Options)
    requires t.typeName.EnumOf?
    ensures GetCoder(t, options).Ok? <==> Components(t, ENUM_CASE_OPTIONS).Ok?
    ensures GetCoder(t, options).Ok? ==> ChildrenOf(GetCoder(t, options).value) == Components(t, ENUM_CASE_OPTIONS).value
    ensures GetCoder(t, options).Err? ==> GetCoder(t, options).error == Components(t, ENUM_CASE_OPTIONS).error
    ensures ENUM_CASE_OPTIONS == NO_OPTIONS
  {
  }

  /** Tuple slots are built with `isRightPadded` and the legacy encoding, one per component, in order. */
  lemma TupleSlots(t: ResolvedType, options: Options)
    requires t.typeName.TupleOf?
    ensures GetCoder(t, options).Ok? <==> Components(t, TUPLE_SLOT_OPTIONS).Ok?
    ensures GetCoder(t, options).Ok? ==> GetCoder(t, options).value == TupleCoder(Components(t, TUPLE_SLOT_OPTIONS).value)
    ensures GetCoder(t, options).Err? ==> GetCoder(t, options).error == Components(t, TUPLE_SLOT_OPTIONS).error
    ensures TUPLE_SLOT_OPTIONS.isRightPadded && TUPLE_SLOT_OPTIONS.encodingV0
  {
  }

  /** The children of a composite coder node. */
  function ChildrenOf(c: Coder): (r: seq<Child>)
    ensures c.StructCoder? ==> r == c.fields
    ensures c.OptionCoder? || c.EnumCoder? ==> r == c.cases
    ensures c.TupleCoder? ==> r == c.slots
  {
    match c
    case StructCoder(_, fields) => fields
    case OptionCoder(_, cases) => cases
    case EnumCoder(_, cases) => cases
    case TupleCoder(slots) => slots
    case _ => []
  }

  /**
    An enum whose type is exactly `Option` gives an Option coder, every
    other enum an enum coder; both over the same case coders.
   */
  lemma OptionOrEnum(t: ResolvedType, name: string, options: Options)
    requires t.typeName.EnumOf? && GetCoder(t, options).Ok?
    ensures GetCoder(t, options).value.OptionCoder? <==> t.typeName == OPTION
    ensures GetCoder(t, options).value.EnumCoder? <==> t.typeName != OPTION
    ensures GetCoder(t.(typeName := EnumOf(name)), options).Ok?
    ensures ChildrenOf(GetCoder(t.(typeName := EnumOf(name)), options).value) == ChildrenOf(GetCoder(t, options).value)
  {
  }

  /** A string slice always fails with INVALID_DATA, whatever its components. */
  lemma StringSliceRejected(t: ResolvedType, options: Options)
    requires t.typeName == STR_SLICE
    ensures GetCoder(t, options) == Err(Error(InvalidData, StringSliceUnsupported))
  {
  }

  /** A plain name that is neither a scalar nor `str` fails with CODER_NOT_FOUND, naming the type. */
  lemma NotFound(t: ResolvedType, options: Options)
    requires t.typeName.Plain? && !IsScalarName(t.typeName) && t.typeName != STR_SLICE
    ensures GetCoder(t, options) == Err(Error(CoderNotFound, NoCoderFor(t)))
  {
  }
}
