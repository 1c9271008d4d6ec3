/**
  The value tree the codec reads and builds, in the terms the yyjson library
  offers it: node kinds, the two 64-bit integer subtypes, and keyed lookup in
  an object. A node the decoder is handed is an `Option<Json>`: `None` is the
  NULL pointer `yyjson_obj_getn` returns for a missing key.
*/
module JsonTree {
  import opened Wrappers

  const TwoTo63: int := 0x8000_0000_0000_0000
  const TwoTo64: int := 0x1_0000_0000_0000_0000

  type U64 = x: int | 0 <= x < 0x1_0000_0000_0000_0000
  type I64 = x: int | -0x8000_0000_0000_0000 <= x < 0x8000_0000_0000_0000

  /**
    A double, kept opaque: `Bits` is a real the reader parsed or a caller
    stored, `OfInteger(n)` is the conversion `static_cast<double>(n)`.
    Rounding of large integers is not modelled.
  */
  datatype Double = Bits(bits: bv64) | OfInteger(n: int)

  /**
    A node of the tree. Integers carry yyjson's subtype: `UInt` is
    YYJSON_SUBTYPE_UINT, `SInt` is YYJSON_SUBTYPE_SINT. Object members keep
    their order and may repeat a key.
  */
  datatype Json =
    | Null
    | JBool(b: bool)
    | UInt(u: U64)
    | SInt(i: I64)
    | JReal(d: Double)
    | JStr(s: string)
    | Arr(items: seq<Json>)
    | Obj(members: seq<(string, Json)>)

  // yyjson's kind tests; each is false on the NULL pointer.

  predicate IsNull(n: Option<Json>) { n.Some? && n.value.Null? }
  predicate IsBool(n: Option<Json>) { n.Some? && n.value.JBool? }
  predicate IsUint(n: Option<Json>) { n.Some? && n.value.UInt? }
  /** `yyjson_is_int` holds for both integer subtypes. */
  predicate IsInt(n: Option<Json>) { n.Some? && (n.value.UInt? || n.value.SInt?) }
  predicate IsReal(n: Option<Json>) { n.Some? && n.value.JReal? }
  predicate IsStr(n: Option<Json>) { n.Some? && n.value.JStr? }
  predicate IsArr(n: Option<Json>) { n.Some? && n.value.Arr? }
  predicate IsObj(n: Option<Json>) { n.Some? && n.value.Obj? }

  /**
    yyjson's kinds are exclusive, except that an unsigned node is also an
    integer; the NULL pointer is of no kind.
  */
  lemma KindsExclusive(n: Option<Json>)
    ensures IsUint(n) ==> IsInt(n)
    ensures n.None? ==> !(IsNull(n) || IsBool(n) || IsInt(n) || IsReal(n) || IsStr(n) || IsArr(n) || IsObj(n))
    ensures IsNull(n) ==> !(IsBool(n) || IsInt(n) || IsReal(n) || IsStr(n) || IsArr(n) || IsObj(n))
    ensures IsInt(n) ==> !(IsBool(n) || IsReal(n) || IsStr(n) || IsArr(n) || IsObj(n))
    ensures IsArr(n) ==> !(IsBool(n) || IsReal(n) || IsStr(n) || IsObj(n))
    ensures IsBool(n) ==> !(IsReal(n) || IsStr(n) || IsObj(n))
    ensures IsReal(n) ==> !(IsStr(n) || IsObj(n))
    ensures IsStr(n) ==> !IsObj(n)
  {
  }

  /** The mathematical value of an integer node. */
  function IntValue(n: Json): int
    requires n.UInt? || n.SInt?
  {
    if n.UInt? then n.u else n.i
  }

  /**
    `yyjson_get_sint`: the 64-bit payload of an integer node read as two's
    complement, so an unsigned node at or above 2^63 reads as negative.
  */
  function GetSint(n: Json): (r: I64)
    requires n.UInt? || n.SInt?
    ensures (r - IntValue(n)) % TwoTo64 == 0
    ensures n.SInt? || n.u < TwoTo63 ==> r == IntValue(n)
  {
    if n.SInt? then n.i
    else if n.u < TwoTo63 then n.u
    else n.u - TwoTo64
  }

  /**
    How the reader classifies an integer literal (no fraction, no exponent):
    a non-negative one that fits 64 bits is unsigned, a negative one that fits
    is signed, and any other is read as a real.
  */
  function IntegerLiteral(lit: int): (n: Json)
    ensures n.UInt? <==> 0 <= lit < TwoTo64
    ensures n.SInt? <==> -TwoTo63 <= lit < 0
    ensures n.UInt? || n.SInt? ==> IntValue(n) == lit
    ensures !(n.UInt? || n.SInt?) ==> n == JReal(OfInteger(lit))
  {
    if 0 <= lit < TwoTo64 then UInt(lit)
    else if -TwoTo63 <= lit < 0 then SInt(lit)
    else JReal(OfInteger(lit))
  }

  /** The index of the first member whose key is `key`, or `|members|` when there is none. */
  function FindKey(members: seq<(string, Json)>, key: string): (k: nat)
    ensures k <= |members|
    ensures forall j :: 0 <= j < k ==> members[j].0 != key
    ensures k < |members| ==> members[k].0 == key
  {
    if members == [] then 0
    else if members[0].0 == key then 0
    else 1 + FindKey(members[1..], key)
  }

  /** `yyjson_obj_getn`: the value of the first member with that key, or the NULL pointer. */
  function ObjGet(members: seq<(string, Json)>, key: string): (r: Option<Json>)
    ensures r.None? <==> forall j :: 0 <= j < |members| ==> members[j].0 != key
    ensures r.Some? ==> (key, r.value) in members
  {
    var k := FindKey(members, key);
    if k < |members| then Some(members[k].1) else None
  }

  predicate DistinctKeys(members: seq<(string, Json)>) {
    forall i, j :: 0 <= i < j < |members| ==> members[i].0 != members[j].0
  }

  /** With distinct keys, a lookup finds exactly the member that has the key. */
  lemma ObjGetMember(members: seq<(string, Json)>, key: string, v: Json)
    requires DistinctKeys(members)
    ensures ObjGet(members, key) == Some(v) <==> (key, v) in members
  {
    if (key, v) in members {
      var j :| 0 <= j < |members| && members[j] == (key, v);
      var k := FindKey(members, key);
      assert k == j;
    }
  }

  /**
    Lookup ignores the order of the members: two member lists with distinct
    keys that are permutations of each other answer every lookup alike.
  */
  lemma ObjGetPermutation(m1: seq<(string, Json)>, m2: seq<(string, Json)>, key: string)
    requires DistinctKeys(m1) && DistinctKeys(m2)
    requires multiset(m1) == multiset(m2)
    ensures ObjGet(m1, key) == ObjGet(m2, key)
  {
    var r1, r2 := ObjGet(m1, key), ObjGet(m2, key);
    if r1.Some? {
      assert (key, r1.value) in multiset(m2);
      ObjGetMember(m2, key, r1.value);
    } else if r2.Some? {
      assert (key, r2.value) in multiset(m1);
      ObjGetMember(m1, key, r2.value);
    }
  }
}
