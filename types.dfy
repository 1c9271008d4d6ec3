/**
  The target types the codec dispatches on and the typed values it produces
  and consumes. A record type carries its casing policy and its fields in
  declaration order, standing in for what field introspection yields.
*/
module Types {
  import opened Wrappers
  import opened Names
  import opened JsonTree

  /** The bit width of a fixed-width integer type. */
  datatype Width = W8 | W16 | W32 | W64

  /** 2^W. */
  function Modulus(w: Width): (m: nat)
    ensures m > 0
  {
    match w
    case W8 => 0x100
    case W16 => 0x1_0000
    case W32 => 0x1_0000_0000
    case W64 => 0x1_0000_0000_0000_0000
  }

  /** `std::numeric_limits<T>::max()`; every width fits the 64-bit payload of its subtype. */
  function MaxOf(signed: bool, w: Width): (r: int)
    ensures 0 < r < (if signed then TwoTo63 else TwoTo64)
    ensures r + 1 == (if signed then Modulus(w) / 2 else Modulus(w))
  {
    if signed then Modulus(w) / 2 - 1 else Modulus(w) - 1
  }

  /** `std::numeric_limits<T>::min()`. */
  function MinOf(signed: bool, w: Width): (r: int)
    ensures (if signed then -TwoTo63 else 0) <= r <= 0
    ensures signed ==> r == -(MaxOf(true, w) + 1)
  {
    if signed then -(Modulus(w) / 2) else 0
  }

  predicate InRange(signed: bool, w: Width, n: int) {
    MinOf(signed, w) <= n <= MaxOf(signed, w)
  }

  /** One field of a record: its declared name and its type. */
  datatype Field = Field(name: string, ty: Ty)

  /**
    The target types: bool, `(u)intW_t`, double, `std::string` (`view` is
    `std::string_view`, decoded and encoded alike), `std::optional<T>`,
    `std::vector<T>` and aggregate records.
  */
  datatype Ty =
    | TBool
    | TInt(signed: bool, width: Width)
    | TReal
    | TStr(view: bool)
    | TOpt(inner: Ty)
    | TVec(elem: Ty)
    | TRec(policy: Rename, fields: seq<Field>)

  /** A typed value; a record value lists its field values in declaration order. */
  datatype Value =
    | VBool(b: bool)
    | VInt(n: int)
    | VReal(d: Double)
    | VStr(s: string)
    | VOpt(o: Option<Value>)
    | VList(items: seq<Value>)
    | VRec(values: seq<Value>)

  /** `v` is a value of the C++ type `ty`: integers lie in the type's range, records have every field. */
  predicate HasType(v: Value, ty: Ty)
    decreases ty
  {
    match ty
    case TBool => v.VBool?
    case TInt(signed, w) => v.VInt? && InRange(signed, w, v.n)
    case TReal => v.VReal?
    case TStr(_) => v.VStr?
    case TOpt(t) => v.VOpt? && (v.o.Some? ==> HasType(v.o.value, t))
    case TVec(t) => v.VList? && forall i :: 0 <= i < |v.items| ==> HasType(v.items[i], t)
    case TRec(_, fs) =>
      v.VRec? && |v.values| == |fs| && forall i :: 0 <= i < |fs| ==> HasType(v.values[i], fs[i].ty)
  }
}
