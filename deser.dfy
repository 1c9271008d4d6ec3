/**
  The decoder: a recursive dispatch on the target type over a node of the
  value tree, under the options of one call. `Deser` is the specification,
  one function over all target types; the methods `Decode`, `DecodeVector`
  and `DecodeRecord` follow the source's loops and are proved to compute it.
*/
module Decoder {
  import opened Wrappers
  import opened Names
  import opened JsonTree
  import opened Types

  // ---------------------------------------------------------------------------
  // Options

  /** `option`: the bits of the options mask. */
  const NoOption: bv32 := 0
  const CheckRange: bv32 := 1
  const StrictReal: bv32 := 2

  /** `context`: the options of one decode call, threaded unchanged through every step. */
  datatype Context = Context(options: bv32)

  /** `context::has_option`: the option's bit is set in the mask. */
  predicate HasOption(ctx: Context, opt: bv32) {
    ctx.options & opt != 0
  }

  /** The context a caller builds from the two flags; each flag is read back independently. */
  function WithOptions(checkRange: bool, strictReal: bool): (ctx: Context)
    ensures HasOption(ctx, CheckRange) == checkRange
    ensures HasOption(ctx, StrictReal) == strictReal
  {
    Context((if checkRange then CheckRange else NoOption) | (if strictReal then StrictReal else NoOption))
  }

  // ---------------------------------------------------------------------------
  // Integer narrowing

  /** Reduction modulo 2^W, stated per width so that every modulus is a constant. */
  lemma ModulusFacts(w: Width, x: int)
    ensures (x % Modulus(w)) % Modulus(w) == x % Modulus(w)
    ensures (x % Modulus(w) - Modulus(w)) % Modulus(w) == x % Modulus(w)
    ensures 0 <= x < Modulus(w) ==> x % Modulus(w) == x
    ensures -(Modulus(w) as int) <= x < 0 ==> x % Modulus(w) == x + Modulus(w)
  {
    match w
    case W8 =>
    case W16 =>
    case W32 =>
    case W64 =>
  }

  /** `static_cast` of an integer to a W-bit unsigned type: reduction modulo 2^W. */
  function WrapUnsigned(w: Width, x: int): (r: int)
    ensures InRange(false, w, r)
    ensures r % Modulus(w) == x % Modulus(w)
    ensures InRange(false, w, x) ==> r == x
  {
    ModulusFacts(w, x);
    x % Modulus(w)
  }

  /** `static_cast` of an integer to a W-bit signed type: the two's-complement value with the same low W bits. */
  function WrapSigned(w: Width, x: int): (r: int)
    ensures InRange(true, w, r)
    ensures r % Modulus(w) == x % Modulus(w)
    ensures InRange(true, w, x) ==> r == x
  {
    ModulusFacts(w, x);
    var m := x % Modulus(w);
    if m <= MaxOf(true, w) then m else m - Modulus(w)
  }

  /**
    `detail::get_integer<T>`. A signed target accepts either integer subtype
    and reads its payload as a 64-bit two's-complement number; an unsigned
    target accepts only an unsigned node. With `check_range` a value outside
    the target's range is refused; without it the value is narrowed.
  */
  function GetInteger(signed: bool, w: Width, node: Option<Json>, ctx: Context): (r: Option<Value>)
    ensures r.Some? ==> r.value.VInt? && InRange(signed, w, r.value.n)
    ensures signed ==>
      (r.Some? <==> IsInt(node) && (HasOption(ctx, CheckRange) ==> InRange(true, w, GetSint(node.value))))
    ensures !signed ==>
      (r.Some? <==> IsUint(node) && (HasOption(ctx, CheckRange) ==> node.value.u <= MaxOf(false, w)))
    ensures r.Some? && signed ==> r.value.n % Modulus(w) == GetSint(node.value) % Modulus(w)
    ensures r.Some? && !signed ==> r.value.n % Modulus(w) == node.value.u % Modulus(w)
    ensures r.Some? && HasOption(ctx, CheckRange) ==>
      r.value.n == if signed then GetSint(node.value) else node.value.u
  {
    if signed then
      if !IsInt(node) then None
      else
        var sint := GetSint(node.value);
        if HasOption(ctx, CheckRange) && (sint > MaxOf(true, w) || sint < MinOf(true, w)) then None
        else Some(VInt(WrapSigned(w, sint)))
    else
      if !IsUint(node) then None
      else
        var uint := node.value.u;
        if HasOption(ctx, CheckRange) && uint > MaxOf(false, w) then None
        else Some(VInt(WrapUnsigned(w, uint)))
  }

  // ---------------------------------------------------------------------------
  // Leaf decoders

  /** `deserialize(bool)`: only a boolean node decodes, to its own value. */
  function DeserBool(node: Option<Json>): (r: Option<Value>)
    ensures r.Some? <==> IsBool(node)
    ensures r.Some? ==> r.value == VBool(node.value.b)
  {
    if !IsBool(node) then None else Some(VBool(node.value.b))
  }

  /** `deserialize(std::string)` and `deserialize(std::string_view)`: only a string node decodes, to the same bytes. */
  function DeserStr(node: Option<Json>): (r: Option<Value>)
    ensures r.Some? <==> IsStr(node)
    ensures r.Some? ==> r.value == VStr(node.value.s)
  {
    if !IsStr(node) then None else Some(VStr(node.value.s))
  }

  /**
    `deserialize(double)`: a real node always decodes; otherwise `strict_real`
    refuses everything; otherwise an unsigned node is converted before a
    signed one is tried, and any other node is refused.
  */
  function DeserReal(node: Option<Json>, ctx: Context): (r: Option<Value>)
    ensures IsReal(node) ==> r == Some(VReal(node.value.d))
    ensures !IsReal(node) && HasOption(ctx, StrictReal) ==> r.None?
    ensures !IsReal(node) && !HasOption(ctx, StrictReal) ==> (r.Some? <==> IsInt(node))
  {
    if IsReal(node) then Some(VReal(node.value.d))
    else if HasOption(ctx, StrictReal) then None
    else if IsUint(node) then Some(VReal(OfInteger(node.value.u)))
    else if IsInt(node) then Some(VReal(OfInteger(GetSint(node.value))))
    else None
  }

  /**
    Because the unsigned reading comes first, a lenient real decode of any
    integer node converts the number's own value, even above 2^63 - 1.
  */
  lemma RealFromIntegerKeepsValue(n: Json, ctx: Context)
    requires n.UInt? || n.SInt?
    requires !HasOption(ctx, StrictReal)
    ensures DeserReal(Some(n), ctx) == Some(VReal(OfInteger(IntValue(n))))
  {
  }

  // ---------------------------------------------------------------------------
  // The dispatch

  /**
    `deserialize(std::type_identity<T>, value, ctx)` for every target type.
    An optional target never fails: a null node gives an empty optional and
    so does an inner failure (the inner `std::nullopt` converts to an engaged
    outer optional holding nothing). A vector needs every element to decode.
    A record looks each field up by its declared name and needs every field
    to decode.
  */
  function Deser(ty: Ty, node: Option<Json>, ctx: Context): (r: Option<Value>)
    ensures r.Some? ==> HasType(r.value, ty)
    decreases ty
  {
    match ty
    case TBool => DeserBool(node)
    case TInt(signed, w) => GetInteger(signed, w, node, ctx)
    case TReal => DeserReal(node, ctx)
    case TStr(_) => DeserStr(node)
    case TOpt(t) =>
      if IsNull(node) then Some(VOpt(None)) else Some(VOpt(Deser(t, node, ctx)))
    case TVec(t) =>
      if !IsArr(node) then None
      else
        var items := node.value.items;
        if forall i :: 0 <= i < |items| ==> Deser(t, Some(items[i]), ctx).Some? then
          Some(VList(seq(|items|, i requires 0 <= i < |items| => Deser(t, Some(items[i]), ctx).value)))
        else None
    case TRec(_, fs) =>
      if !IsObj(node) then None
      else
        var members := node.value.members;
        if forall i :: 0 <= i < |fs| ==> Deser(fs[i].ty, ObjGet(members, fs[i].name), ctx).Some? then
          Some(VRec(seq(|fs|, i requires 0 <= i < |fs| => Deser(fs[i].ty, ObjGet(members, fs[i].name), ctx).value)))
        else None
  }

  // ---------------------------------------------------------------------------
  // Properties of the dispatch

  /**
    An optional target never fails: null gives an empty optional, and so
    does any node, missing or present, that the inner type refuses.
  */
  lemma OptionalNeverFails(t: Ty, node: Option<Json>, ctx: Context)
    ensures Deser(TOpt(t), node, ctx).Some?
    ensures Deser(TOpt(t), node, ctx).value.o.Some? <==> !IsNull(node) && Deser(t, node, ctx).Some?
    ensures Deser(TOpt(t), node, ctx).value.o.Some? ==> Deser(TOpt(t), node, ctx).value.o == Deser(t, node, ctx)
  {
  }

  /** A missing key (the NULL node) decodes only into an optional. */
  lemma MissingDecodesOnlyAsOptional(ty: Ty, ctx: Context)
    ensures Deser(ty, None, ctx).Some? <==> ty.TOpt?
  {
  }

  /**
    A vector decodes from an array exactly when every element decodes; it
    then has the array's length and element i is element i decoded. A
    single element that fails discards the whole vector.
  */
  lemma VectorDecode(t: Ty, items: seq<Json>, ctx: Context)
    ensures Deser(TVec(t), Some(Arr(items)), ctx).Some? <==>
      forall i :: 0 <= i < |items| ==> Deser(t, Some(items[i]), ctx).Some?
    ensures Deser(TVec(t), Some(Arr(items)), ctx).Some? ==>
      var vec := Deser(TVec(t), Some(Arr(items)), ctx).value.items;
      |vec| == |items| && forall i :: 0 <= i < |items| ==> Some(vec[i]) == Deser(t, Some(items[i]), ctx)
    ensures items == [] ==> Deser(TVec(t), Some(Arr(items)), ctx) == Some(VList([]))
  {
  }

  /**
    A record decodes from an object exactly when every field decodes from
    the member named by its declared name (or from the NULL node when there
    is none); field i is then that decoding.
  */
  lemma RecordDecode(p: Rename, fs: seq<Field>, members: seq<(string, Json)>, ctx: Context)
    ensures Deser(TRec(p, fs), Some(Obj(members)), ctx).Some? <==>
      forall i :: 0 <= i < |fs| ==> Deser(fs[i].ty, ObjGet(members, fs[i].name), ctx).Some?
    ensures Deser(TRec(p, fs), Some(Obj(members)), ctx).Some? ==>
      var values := Deser(TRec(p, fs), Some(Obj(members)), ctx).value.values;
      |values| == |fs| && forall i :: 0 <= i < |fs| ==> Some(values[i]) == Deser(fs[i].ty, ObjGet(members, fs[i].name), ctx)
  {
  }

  /** When every field decodes from the member named by its declared name, the record holds exactly those values. */
  lemma RecordDecodesTo(p: Rename, fs: seq<Field>, members: seq<(string, Json)>, ctx: Context, values: seq<Value>)
    requires |values| == |fs|
    requires forall i :: 0 <= i < |fs| ==> Deser(fs[i].ty, ObjGet(members, fs[i].name), ctx) == Some(values[i])
    ensures Deser(TRec(p, fs), Some(Obj(members)), ctx) == Some(VRec(values))
  {
    assert values == seq(|fs|, i requires 0 <= i < |fs| => Deser(fs[i].ty, ObjGet(members, fs[i].name), ctx).value);
  }

  /** A vector target refuses every node but an array, a record target every node but an object. */
  lemma ContainersNeedTheirKind(ty: Ty, node: Option<Json>, ctx: Context)
    requires ty.TVec? || ty.TRec?
    ensures ty.TVec? && !IsArr(node) ==> Deser(ty, node, ctx).None?
    ensures ty.TRec? && !IsObj(node) ==> Deser(ty, node, ctx).None?
  {
  }

  /** Every literal in the target's range decodes to itself, whatever the options. */
  lemma InRangeLiteralDecodes(signed: bool, w: Width, n: int, ctx: Context)
    requires InRange(signed, w, n)
    ensures Deser(TInt(signed, w), Some(IntegerLiteral(n)), ctx) == Some(VInt(n))
  {
    var node := IntegerLiteral(n);
    assert IntValue(node) == n;
  }

  /** A 64-bit unsigned target never refuses an unsigned node: every payload is in range. */
  lemma Uint64TakesEveryUnsigned(node: Option<Json>, ctx: Context)
    requires IsUint(node)
    ensures GetInteger(false, W64, node, ctx) == Some(VInt(node.value.u))
  {
  }

  /**
    Because the payload is read as two's complement before the range check,
    `check_range` lets an unsigned node at or above 2^63 into a signed target
    whenever the wrapped value fits: 2^63 decodes into `int64_t` as -2^63, and
    2^64 - 1 into `int8_t` as -1.
  */
  lemma CheckRangeSeesWrappedPayload()
    ensures GetInteger(true, W64, Some(UInt(TwoTo63)), WithOptions(true, false)) == Some(VInt(-TwoTo63))
    ensures GetInteger(true, W8, Some(UInt(TwoTo64 - 1)), WithOptions(true, false)) == Some(VInt(-1))
  {
  }

  // ---------------------------------------------------------------------------
  // The decoding loops

  /** The dispatch as the source runs it: leaves by their decoders, vectors and records by their loops. */
  method Decode(ty: Ty, node: Option<Json>, ctx: Context) returns (r: Option<Value>)
    ensures r == Deser(ty, node, ctx)
    decreases ty, 1
  {
    match ty {
      case TOpt(t) =>
        if IsNull(node) {
          r := Some(VOpt(None));
        } else {
          var inner := Decode(t, node, ctx);
          r := Some(VOpt(inner));
        }
      case TVec(_) =>
        r := DecodeVector(ty, node, ctx);
      case TRec(_, _) =>
        r := DecodeRecord(ty, node, ctx);
      case _ =>
        r := Deser(ty, node, ctx);
    }
  }

  /**
    `deserialize(std::vector<T>)`: walks the array with an iterator, appends
    each decoded element, and gives up on the first element that fails.
  */
  method DecodeVector(ty: Ty, node: Option<Json>, ctx: Context) returns (r: Option<Value>)
    requires ty.TVec?
    ensures r == Deser(ty, node, ctx)
    decreases ty, 0
  {
    if !IsArr(node) {
      return None;
    }
    var items := node.value.items;
    var vec: seq<Value> := [];
    var i := 0;
    while i < |items|
      invariant 0 <= i <= |items|
      invariant |vec| == i
      invariant forall k :: 0 <= k < i ==> Deser(ty.elem, Some(items[k]), ctx) == Some(vec[k])
    {
      var deserialized := Decode(ty.elem, Some(items[i]), ctx);
      if deserialized.None? {
        return None;
      }
      vec := vec + [deserialized.value];
      i := i + 1;
    }
    assert forall k :: 0 <= k < |items| ==> Deser(ty.elem, Some(items[k]), ctx).Some?;
    assert vec == seq(|items|, k requires 0 <= k < |items| => Deser(ty.elem, Some(items[k]), ctx).value);
    return Some(VList(vec));
  }

  /**
    `deserialize` for an aggregate: visits the fields in declaration order,
    looks each up by its declared name, and after the first failure clears
    `ok` and skips the remaining fields. `values` holds the fields assigned
    so far; the record is returned only when `ok` survives.
  */
  method DecodeRecord(ty: Ty, node: Option<Json>, ctx: Context) returns (r: Option<Value>)
    requires ty.TRec?
    ensures r == Deser(ty, node, ctx)
    decreases ty, 0
  {
    if !IsObj(node) {
      return None;
    }
    var members := node.value.members;
    var fs := ty.fields;
    var values: seq<Value> := [];
    var ok := true;
    for i := 0 to |fs|
      invariant ok ==> |values| == i
      invariant ok ==> forall k :: 0 <= k < i ==> Deser(fs[k].ty, ObjGet(members, fs[k].name), ctx) == Some(values[k])
      invariant !ok ==> exists k :: 0 <= k < i && Deser(fs[k].ty, ObjGet(members, fs[k].name), ctx).None?
    {
      if !ok {
        continue;
      }
      var inner := ObjGet(members, fs[i].name);
      var xd := Decode(fs[i].ty, inner, ctx);
      if xd.Some? {
        values := values + [xd.value];
      } else {
        ok := false;
      }
    }
    if ok {
      assert forall k :: 0 <= k < |fs| ==> Deser(fs[k].ty, ObjGet(members, fs[k].name), ctx).Some?;
      assert values == seq(|fs|, k requires 0 <= k < |fs| => Deser(fs[k].ty, ObjGet(members, fs[k].name), ctx).value);
      return Some(VRec(values));
    }
    return None;
  }
}
