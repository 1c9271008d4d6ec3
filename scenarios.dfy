/**
  The scenarios of tests/deser.cpp, tests/ser.cpp and examples/rename.cpp,
  stated as lemmas over the model: integer limits per width, the leaves, the
  `Plain`, `Nested`, `MaybeNested` and vector records both ways, and the
  renaming example. Where a test uses particular numbers and strings the
  lemma takes them as parameters.
  Literals reach the decoder as the reader classifies them (`IntegerLiteral`).
*/
module Scenarios {
  import opened Wrappers
  import opened Names
  import opened JsonTree
  import opened Types
  import opened Decoder
  import opened Encoder

  // ---------------------------------------------------------------------------
  // Integers

  /** The signed checks of tests/deser.cpp for every width: 0, 1, -1 and both limits decode to themselves under any options. */
  lemma SignedLimits(w: Width, ctx: Context)
    ensures Deser(TInt(true, w), Some(IntegerLiteral(0)), ctx) == Some(VInt(0))
    ensures Deser(TInt(true, w), Some(IntegerLiteral(1)), ctx) == Some(VInt(1))
    ensures Deser(TInt(true, w), Some(IntegerLiteral(-1)), ctx) == Some(VInt(-1))
    ensures Deser(TInt(true, w), Some(IntegerLiteral(MaxOf(true, w))), ctx) == Some(VInt(MaxOf(true, w)))
    ensures Deser(TInt(true, w), Some(IntegerLiteral(MinOf(true, w))), ctx) == Some(VInt(MinOf(true, w)))
  {
    InRangeLiteralDecodes(true, w, 0, ctx);
    InRangeLiteralDecodes(true, w, 1, ctx);
    InRangeLiteralDecodes(true, w, -1, ctx);
    InRangeLiteralDecodes(true, w, MaxOf(true, w), ctx);
    InRangeLiteralDecodes(true, w, MinOf(true, w), ctx);
  }

  /**
    With `check_range` one below a signed minimum fails, and so does one
    above the maximum except at 64 bits, where the literal 2^63 reads as
    -2^63; the test there uses 2^64, a literal the reader makes a real.
  */
  lemma SignedOverflow(w: Width, ctx: Context)
    ensures HasOption(ctx, CheckRange) ==> Deser(TInt(true, w), Some(IntegerLiteral(MinOf(true, w) - 1)), ctx).None?
    ensures HasOption(ctx, CheckRange) && w != W64 ==>
      Deser(TInt(true, w), Some(IntegerLiteral(MaxOf(true, w) + 1)), ctx).None?
    ensures Deser(TInt(true, W64), Some(IntegerLiteral(TwoTo64)), ctx).None?
  {
  }

  /**
    The unsigned checks of tests/deser.cpp: 0, 1 and the maximum decode to
    themselves, -1 fails whatever the options, and with `check_range` one
    above the maximum fails (at 64 bits that literal is a real).
  */
  lemma UnsignedLimits(w: Width, ctx: Context)
    ensures Deser(TInt(false, w), Some(IntegerLiteral(0)), ctx) == Some(VInt(0))
    ensures Deser(TInt(false, w), Some(IntegerLiteral(1)), ctx) == Some(VInt(1))
    ensures Deser(TInt(false, w), Some(IntegerLiteral(-1)), ctx).None?
    ensures Deser(TInt(false, w), Some(IntegerLiteral(MaxOf(false, w))), ctx) == Some(VInt(MaxOf(false, w)))
    ensures HasOption(ctx, CheckRange) ==> Deser(TInt(false, w), Some(IntegerLiteral(MaxOf(false, w) + 1)), ctx).None?
  {
  }

  /** Without `check_range` an out-of-range literal is narrowed: 256 into `uint8_t` is 0, 128 into `int8_t` is -128. */
  lemma NarrowingWithoutCheck(ctx: Context)
    requires !HasOption(ctx, CheckRange)
    ensures Deser(TInt(false, W8), Some(IntegerLiteral(256)), ctx) == Some(VInt(0))
    ensures Deser(TInt(true, W8), Some(IntegerLiteral(128)), ctx) == Some(VInt(-128))
  {
  }

  // ---------------------------------------------------------------------------
  // Leaves

  /** tests/deser.cpp on bool, double and string: only the node of the target's own kind decodes, integers into a double only when lenient. */
  lemma LeafScenarios(ctx: Context, d: bv64)
    ensures Deser(TBool, Some(JBool(true)), ctx) == Some(VBool(true))
    ensures Deser(TBool, Some(JBool(false)), ctx) == Some(VBool(false))
    ensures Deser(TBool, Some(IntegerLiteral(1)), ctx).None?
    ensures Deser(TReal, Some(JReal(Bits(d))), ctx) == Some(VReal(Bits(d)))
    ensures Deser(TReal, Some(IntegerLiteral(42)), WithOptions(false, false)) == Some(VReal(OfInteger(42)))
    ensures Deser(TReal, Some(IntegerLiteral(42)), WithOptions(false, true)).None?
    ensures Deser(TReal, Some(JBool(false)), ctx).None?
    ensures Deser(TStr(false), Some(JStr("hello")), ctx) == Some(VStr("hello"))
    ensures Deser(TStr(true), Some(IntegerLiteral(1)), ctx).None?
    ensures Deser(TStr(false), Some(JBool(false)), ctx).None?
  {
  }

  // ---------------------------------------------------------------------------
  // Records

  /** A three-field record holds the values its fields decode to. */
  lemma ThreeFields(p: Rename, f0: Field, f1: Field, f2: Field, members: seq<(string, Json)>, ctx: Context,
                    v0: Value, v1: Value, v2: Value)
    requires Deser(f0.ty, ObjGet(members, f0.name), ctx) == Some(v0)
    requires Deser(f1.ty, ObjGet(members, f1.name), ctx) == Some(v1)
    requires Deser(f2.ty, ObjGet(members, f2.name), ctx) == Some(v2)
    ensures Deser(TRec(p, [f0, f1, f2]), Some(Obj(members)), ctx) == Some(VRec([v0, v1, v2]))
  {
    RecordDecodesTo(p, [f0, f1, f2], members, ctx, [v0, v1, v2]);
  }

  /** A four-field record holds the values its fields decode to. */
  lemma FourFields(p: Rename, f0: Field, f1: Field, f2: Field, f3: Field, members: seq<(string, Json)>, ctx: Context,
                   v0: Value, v1: Value, v2: Value, v3: Value)
    requires Deser(f0.ty, ObjGet(members, f0.name), ctx) == Some(v0)
    requires Deser(f1.ty, ObjGet(members, f1.name), ctx) == Some(v1)
    requires Deser(f2.ty, ObjGet(members, f2.name), ctx) == Some(v2)
    requires Deser(f3.ty, ObjGet(members, f3.name), ctx) == Some(v3)
    ensures Deser(TRec(p, [f0, f1, f2, f3]), Some(Obj(members)), ctx) == Some(VRec([v0, v1, v2, v3]))
  {
    RecordDecodesTo(p, [f0, f1, f2, f3], members, ctx, [v0, v1, v2, v3]);
  }

  /** A record fails as soon as one of its fields fails to decode from its member. */
  lemma FieldFails(p: Rename, fs: seq<Field>, k: nat, members: seq<(string, Json)>, ctx: Context)
    requires k < |fs| && Deser(fs[k].ty, ObjGet(members, fs[k].name), ctx).None?
    ensures Deser(TRec(p, fs), Some(Obj(members)), ctx).None?
  {
    RecordDecode(p, fs, members, ctx);
  }

  /** `struct Plain { int i; std::string name; bool f; }`. */
  const PlainTy: Ty := TRec(DefaultRename(), [Field("i", TInt(true, W32)), Field("name", TStr(false)), Field("f", TBool)])

  /** `{"i":n,"f":b,"name":s}`: the members in another order than `Plain` declares its fields. */
  function PlainMembers(n: int, b: bool, s: string): seq<(string, Json)> {
    [("i", IntegerLiteral(n)), ("f", JBool(b)), ("name", JStr(s))]
  }

  /** `PlainMembers` answers each of `Plain`'s declared names with its member, and has no `p`. */
  lemma PlainLookups(n: int, b: bool, s: string)
    ensures ObjGet(PlainMembers(n, b, s), "i") == Some(IntegerLiteral(n))
    ensures ObjGet(PlainMembers(n, b, s), "name") == Some(JStr(s))
    ensures ObjGet(PlainMembers(n, b, s), "f") == Some(JBool(b))
    ensures ObjGet(PlainMembers(n, b, s), "p").None?
  {
    var m := PlainMembers(n, b, s);
    assert m[0].0 != "name" by { assert |m[0].0| != |"name"|; }
    assert m[1].0 != "name" by { assert |m[1].0| != |"name"|; }
    assert m[0].0 != "f" by { assert m[0].0[0] != "f"[0]; }
    assert m[0].0 != "p" by { assert m[0].0[0] != "p"[0]; }
    assert m[1].0 != "p" by { assert m[1].0[0] != "p"[0]; }
    assert m[2].0 != "p" by { assert |m[2].0| != |"p"|; }
  }

  /** tests/deser.cpp:98: `{"i":n,"f":b,"name":s}` decodes to `Plain{n, s, b}`, whatever the member order. */
  lemma PlainDecodes(n: int, b: bool, s: string, ctx: Context)
    requires InRange(true, W32, n)
    ensures Deser(PlainTy, Some(Obj(PlainMembers(n, b, s))), ctx) == Some(VRec([VInt(n), VStr(s), VBool(b)]))
  {
    PlainLookups(n, b, s);
    InRangeLiteralDecodes(true, W32, n, ctx);
    ThreeFields(PlainTy.policy, PlainTy.fields[0], PlainTy.fields[1], PlainTy.fields[2], PlainMembers(n, b, s), ctx,
                VInt(n), VStr(s), VBool(b));
  }

  /** `PlainMembers` with `i` set to `false`. */
  function BadPlainMembers(b: bool, s: string): seq<(string, Json)> {
    [("i", JBool(false)), ("f", JBool(b)), ("name", JStr(s))]
  }

  /** `BadPlainMembers` has `i` set to a boolean, and without its first member it has no `i` at all. */
  lemma BadPlainLookups(b: bool, s: string)
    ensures ObjGet(BadPlainMembers(b, s), "i") == Some(JBool(false))
    ensures ObjGet(BadPlainMembers(b, s)[1..], "i").None?
  {
    var missing := BadPlainMembers(b, s)[1..];
    assert missing[0].0 != "i" by { assert missing[0].0[0] != "i"[0]; }
    assert missing[1].0 != "i" by { assert |missing[1].0| != |"i"|; }
  }

  /** tests/deser.cpp:96-100: a number, `{}`, a mistyped `i` and a missing `i` all make `Plain` fail. */
  lemma PlainFails(b: bool, s: string, ctx: Context)
    ensures Deser(PlainTy, Some(IntegerLiteral(1)), ctx).None?
    ensures Deser(PlainTy, Some(Obj([])), ctx).None?
    ensures Deser(PlainTy, Some(Obj(BadPlainMembers(b, s))), ctx).None?
    ensures Deser(PlainTy, Some(Obj(BadPlainMembers(b, s)[1..])), ctx).None?
  {
    var p, fs := PlainTy.policy, PlainTy.fields;
    ContainersNeedTheirKind(PlainTy, Some(IntegerLiteral(1)), ctx);
    BadPlainLookups(b, s);
    FieldFails(p, fs, 0, [], ctx);
    FieldFails(p, fs, 0, BadPlainMembers(b, s), ctx);
    FieldFails(p, fs, 0, BadPlainMembers(b, s)[1..], ctx);
  }

  /** `struct MaybeNested { int i; std::string name; bool f; std::optional<Plain> p; }`. */
  const MaybeNestedTy: Ty :=
    TRec(DefaultRename(), [Field("i", TInt(true, W32)), Field("name", TStr(false)), Field("f", TBool), Field("p", TOpt(PlainTy))])

  /** tests/deser.cpp:145-146: without `p`, `MaybeNested` decodes with an empty `p`. */
  lemma MaybeNestedWithoutP(n: int, b: bool, s: string, ctx: Context)
    requires InRange(true, W32, n)
    ensures Deser(MaybeNestedTy, Some(Obj(PlainMembers(n, b, s))), ctx)
      == Some(VRec([VInt(n), VStr(s), VBool(b), VOpt(None)]))
  {
    var fs := MaybeNestedTy.fields;
    PlainLookups(n, b, s);
    InRangeLiteralDecodes(true, W32, n, ctx);
    OptionalNeverFails(PlainTy, None, ctx);
    FourFields(MaybeNestedTy.policy, fs[0], fs[1], fs[2], fs[3], PlainMembers(n, b, s), ctx,
               VInt(n), VStr(s), VBool(b), VOpt(None));
  }

  /** `PlainMembers` followed by a member `p` holding the object `inner`. */
  function WithP(n: int, b: bool, s: string, inner: seq<(string, Json)>): seq<(string, Json)> {
    PlainMembers(n, b, s) + [("p", Obj(inner))]
  }

  /** `WithP` answers each of the declared names `i`, `name`, `f` and `p` with its member. */
  lemma WithPLookups(n: int, b: bool, s: string, inner: seq<(string, Json)>)
    ensures ObjGet(WithP(n, b, s, inner), "i") == Some(IntegerLiteral(n))
    ensures ObjGet(WithP(n, b, s, inner), "name") == Some(JStr(s))
    ensures ObjGet(WithP(n, b, s, inner), "f") == Some(JBool(b))
    ensures ObjGet(WithP(n, b, s, inner), "p") == Some(Obj(inner))
  {
    var m := WithP(n, b, s, inner);
    assert m[0].0 != "name" by { assert |m[0].0| != |"name"|; }
    assert m[1].0 != "name" by { assert |m[1].0| != |"name"|; }
    assert m[0].0 != "f" by { assert m[0].0[0] != "f"[0]; }
    assert m[0].0 != "p" by { assert m[0].0[0] != "p"[0]; }
    assert m[1].0 != "p" by { assert m[1].0[0] != "p"[0]; }
    assert m[2].0 != "p" by { assert |m[2].0| != |"p"|; }
    assert FindKey(m[3..], "p") == 0;
    assert m[2..][1..] == m[3..];
    assert m[1..][1..] == m[2..];
    assert FindKey(m, "p") == 3;
  }

  /** Any `p` that does not decode as `Plain` leaves the optional empty, and the rest of the record still decodes. */
  lemma MaybeNestedFailedP(n: int, b: bool, s: string, inner: seq<(string, Json)>, ctx: Context)
    requires InRange(true, W32, n)
    requires Deser(PlainTy, Some(Obj(inner)), ctx).None?
    ensures Deser(MaybeNestedTy, Some(Obj(WithP(n, b, s, inner))), ctx)
      == Some(VRec([VInt(n), VStr(s), VBool(b), VOpt(None)]))
  {
    var fs := MaybeNestedTy.fields;
    WithPLookups(n, b, s, inner);
    InRangeLiteralDecodes(true, W32, n, ctx);
    OptionalNeverFails(PlainTy, Some(Obj(inner)), ctx);
    FourFields(MaybeNestedTy.policy, fs[0], fs[1], fs[2], fs[3], WithP(n, b, s, inner), ctx,
               VInt(n), VStr(s), VBool(b), VOpt(None));
  }

  /** tests/deser.cpp:151-153: a `p` whose own `i` is mistyped leaves `p` empty instead of failing. */
  lemma MaybeNestedAbsorbsInnerFailure(n: int, b: bool, s: string, c: bool, t: string, ctx: Context)
    requires InRange(true, W32, n)
    ensures Deser(MaybeNestedTy, Some(Obj(WithP(n, b, s, BadPlainMembers(c, t)))), ctx)
      == Some(VRec([VInt(n), VStr(s), VBool(b), VOpt(None)]))
  {
    PlainFails(c, t, ctx);
    MaybeNestedFailedP(n, b, s, BadPlainMembers(c, t), ctx);
  }


  /** tests/deser.cpp:172-175: `[]` is an empty vector of `Plain`; one bad element fails the whole vector. */
  lemma PlainVector(n: int, b: bool, s: string, c: bool, t: string, ctx: Context)
    ensures Deser(TVec(PlainTy), Some(Arr([])), ctx) == Some(VList([]))
    ensures Deser(TVec(PlainTy), Some(Arr([Obj(PlainMembers(n, b, s)), Obj(BadPlainMembers(c, t))])), ctx).None?
  {
    PlainFails(c, t, ctx);
    var items := [Obj(PlainMembers(n, b, s)), Obj(BadPlainMembers(c, t))];
    assert Deser(PlainTy, Some(items[1]), ctx).None?;
  }

  /** `struct Nested { int i; std::string name; bool f; Plain p; }`. */
  const NestedTy: Ty :=
    TRec(DefaultRename(), [Field("i", TInt(true, W32)), Field("name", TStr(false)), Field("f", TBool), Field("p", PlainTy)])

  /** tests/deser.cpp:117-119: `{"i":n,"f":b,"name":s,"p":{...}}` decodes to `Nested{n, s, b, Plain{m, t, c}}`. */
  lemma NestedDecodes(n: int, b: bool, s: string, m: int, c: bool, t: string, ctx: Context)
    requires InRange(true, W32, n) && InRange(true, W32, m)
    ensures Deser(NestedTy, Some(Obj(WithP(n, b, s, PlainMembers(m, c, t)))), ctx)
      == Some(VRec([VInt(n), VStr(s), VBool(b), VRec([VInt(m), VStr(t), VBool(c)])]))
  {
    PlainDecodes(m, c, t, ctx);
    NestedGoodP(n, b, s, PlainMembers(m, c, t), VRec([VInt(m), VStr(t), VBool(c)]), ctx);
  }

  /** Any `p` that decodes as `Plain` becomes the nested record, next to the other fields. */
  lemma NestedGoodP(n: int, b: bool, s: string, inner: seq<(string, Json)>, v: Value, ctx: Context)
    requires InRange(true, W32, n)
    requires Deser(PlainTy, Some(Obj(inner)), ctx) == Some(v)
    ensures Deser(NestedTy, Some(Obj(WithP(n, b, s, inner))), ctx) == Some(VRec([VInt(n), VStr(s), VBool(b), v]))
  {
    var fs := NestedTy.fields;
    WithPLookups(n, b, s, inner);
    InRangeLiteralDecodes(true, W32, n, ctx);
    FourFields(NestedTy.policy, fs[0], fs[1], fs[2], fs[3], WithP(n, b, s, inner), ctx,
               VInt(n), VStr(s), VBool(b), v);
  }


  /**
    tests/deser.cpp:115-122: a number, `{}`, a missing `p` (a plain record
    field is required), a mistyped `i` and a missing `i` all make `Nested` fail.
  */
  lemma NestedFails(n: int, b: bool, s: string, ctx: Context)
    ensures Deser(NestedTy, Some(IntegerLiteral(1)), ctx).None?
    ensures Deser(NestedTy, Some(Obj([])), ctx).None?
    ensures Deser(NestedTy, Some(Obj(PlainMembers(n, b, s))), ctx).None?
    ensures Deser(NestedTy, Some(Obj(BadPlainMembers(b, s))), ctx).None?
    ensures Deser(NestedTy, Some(Obj(BadPlainMembers(b, s)[1..])), ctx).None?
  {
    var p, fs := NestedTy.policy, NestedTy.fields;
    ContainersNeedTheirKind(NestedTy, Some(IntegerLiteral(1)), ctx);
    FieldFails(p, fs, 0, [], ctx);
    PlainLookups(n, b, s);
    FieldFails(p, fs, 3, PlainMembers(n, b, s), ctx);
    BadPlainLookups(b, s);
    FieldFails(p, fs, 0, BadPlainMembers(b, s), ctx);
    FieldFails(p, fs, 0, BadPlainMembers(b, s)[1..], ctx);
  }

  /** tests/deser.cpp:123-125: unlike an optional, a plain nested record whose own `i` is mistyped fails the whole record. */
  lemma NestedInnerFailureFails(n: int, b: bool, s: string, c: bool, t: string, ctx: Context)
    ensures Deser(NestedTy, Some(Obj(WithP(n, b, s, BadPlainMembers(c, t)))), ctx).None?
  {
    WithPLookups(n, b, s, BadPlainMembers(c, t));
    PlainFails(c, t, ctx);
    FieldFails(NestedTy.policy, NestedTy.fields, 3, WithP(n, b, s, BadPlainMembers(c, t)), ctx);
  }

  /** tests/deser.cpp:142-144: a `p` that decodes is kept in the optional. */
  lemma MaybeNestedWithP(n: int, b: bool, s: string, m: int, c: bool, t: string, ctx: Context)
    requires InRange(true, W32, n) && InRange(true, W32, m)
    ensures Deser(MaybeNestedTy, Some(Obj(WithP(n, b, s, PlainMembers(m, c, t)))), ctx)
      == Some(VRec([VInt(n), VStr(s), VBool(b), VOpt(Some(VRec([VInt(m), VStr(t), VBool(c)])))]))
  {
    PlainDecodes(m, c, t, ctx);
    MaybeNestedGoodP(n, b, s, PlainMembers(m, c, t), VRec([VInt(m), VStr(t), VBool(c)]), ctx);
  }

  /** Any `p` that decodes as `Plain` is kept in the optional, next to the other fields. */
  lemma MaybeNestedGoodP(n: int, b: bool, s: string, inner: seq<(string, Json)>, v: Value, ctx: Context)
    requires InRange(true, W32, n)
    requires Deser(PlainTy, Some(Obj(inner)), ctx) == Some(v)
    ensures Deser(MaybeNestedTy, Some(Obj(WithP(n, b, s, inner))), ctx)
      == Some(VRec([VInt(n), VStr(s), VBool(b), VOpt(Some(v))]))
  {
    var fs := MaybeNestedTy.fields;
    WithPLookups(n, b, s, inner);
    InRangeLiteralDecodes(true, W32, n, ctx);
    OptionalNeverFails(PlainTy, Some(Obj(inner)), ctx);
    FourFields(MaybeNestedTy.policy, fs[0], fs[1], fs[2], fs[3], WithP(n, b, s, inner), ctx,
               VInt(n), VStr(s), VBool(b), VOpt(Some(v)));
  }


  /**
    tests/deser.cpp:140-141, 147-150: a number, `{}`, a mistyped `i`, and a
    missing `i` next to a good `p` make `MaybeNested` fail: only `p` is optional.
  */
  lemma MaybeNestedFails(b: bool, s: string, m: int, c: bool, t: string, ctx: Context)
    ensures Deser(MaybeNestedTy, Some(IntegerLiteral(1)), ctx).None?
    ensures Deser(MaybeNestedTy, Some(Obj([])), ctx).None?
    ensures Deser(MaybeNestedTy, Some(Obj(BadPlainMembers(b, s))), ctx).None?
    ensures Deser(MaybeNestedTy, Some(Obj(BadPlainMembers(b, s)[1..] + [("p", Obj(PlainMembers(m, c, t)))])), ctx).None?
  {
    var p, fs := MaybeNestedTy.policy, MaybeNestedTy.fields;
    ContainersNeedTheirKind(MaybeNestedTy, Some(IntegerLiteral(1)), ctx);
    FieldFails(p, fs, 0, [], ctx);
    BadPlainLookups(b, s);
    FieldFails(p, fs, 0, BadPlainMembers(b, s), ctx);
    var missing := BadPlainMembers(b, s)[1..] + [("p", Obj(PlainMembers(m, c, t)))];
    assert ObjGet(missing, "i").None? by {
      assert missing[0].0 != "i" by { assert missing[0].0[0] != "i"[0]; }
      assert missing[1].0 != "i" by { assert |missing[1].0| != |"i"|; }
      assert missing[2].0 != "i" by { assert missing[2].0[0] != "i"[0]; }
    }
    FieldFails(p, fs, 0, missing, ctx);
  }

  /** A one-element vector holds what its element decodes to. */
  lemma OneItem(t: Ty, x0: Json, ctx: Context, v0: Value)
    requires Deser(t, Some(x0), ctx) == Some(v0)
    ensures Deser(TVec(t), Some(Arr([x0])), ctx) == Some(VList([v0]))
  {
    VectorDecode(t, [x0], ctx);
    var vec := Deser(TVec(t), Some(Arr([x0])), ctx).value.items;
    assert vec == [v0] by {
      assert Some(vec[0]) == Deser(t, Some([x0][0]), ctx);
    }
  }

  /** A two-element vector holds what its elements decode to. */
  lemma TwoItems(t: Ty, x0: Json, x1: Json, ctx: Context, v0: Value, v1: Value)
    requires Deser(t, Some(x0), ctx) == Some(v0) && Deser(t, Some(x1), ctx) == Some(v1)
    ensures Deser(TVec(t), Some(Arr([x0, x1])), ctx) == Some(VList([v0, v1]))
  {
    var items := [x0, x1];
    VectorDecode(t, items, ctx);
    var vec := Deser(TVec(t), Some(Arr(items)), ctx).value.items;
    assert vec == [v0, v1] by {
      assert Some(vec[0]) == Deser(t, Some(items[0]), ctx);
      assert Some(vec[1]) == Deser(t, Some(items[1]), ctx);
    }
  }

  /** tests/deser.cpp:164-171: arrays of good `Plain` objects decode element by element. */
  lemma PlainVectorDecodes(n: int, b: bool, s: string, m: int, c: bool, t: string, ctx: Context)
    requires InRange(true, W32, n) && InRange(true, W32, m)
    ensures Deser(TVec(PlainTy), Some(Arr([Obj(PlainMembers(n, b, s))])), ctx)
      == Some(VList([VRec([VInt(n), VStr(s), VBool(b)])]))
    ensures Deser(TVec(PlainTy), Some(Arr([Obj(PlainMembers(n, b, s)), Obj(PlainMembers(m, c, t))])), ctx)
      == Some(VList([VRec([VInt(n), VStr(s), VBool(b)]), VRec([VInt(m), VStr(t), VBool(c)])]))
  {
    PlainDecodes(n, b, s, ctx);
    PlainDecodes(m, c, t, ctx);
    OneItem(PlainTy, Obj(PlainMembers(n, b, s)), ctx, VRec([VInt(n), VStr(s), VBool(b)]));
    TwoItems(PlainTy, Obj(PlainMembers(n, b, s)), Obj(PlainMembers(m, c, t)), ctx,
             VRec([VInt(n), VStr(s), VBool(b)]), VRec([VInt(m), VStr(t), VBool(c)]));
  }

  /** tests/deser.cpp:157-163: a vector of `Plain` refuses a number and any object, good or bad. */
  lemma PlainVectorNeedsArray(n: int, b: bool, s: string, members: seq<(string, Json)>, ctx: Context)
    ensures Deser(TVec(PlainTy), Some(IntegerLiteral(n)), ctx).None?
    ensures Deser(TVec(PlainTy), Some(Obj(members)), ctx).None?
  {
    ContainersNeedTheirKind(TVec(PlainTy), Some(IntegerLiteral(n)), ctx);
  }

  // ---------------------------------------------------------------------------
  // Encoding

  /**
    tests/ser.cpp:11-43: an integer in its type's range is written as
    itself, as a signed node for a signed type and an unsigned node
    otherwise; the literal that text reads back as decodes to it again.
  */
  lemma IntegerEncoding(signed: bool, w: Width, n: int, ctx: Context)
    requires InRange(signed, w, n)
    ensures var j := Encode(TInt(signed, w), VInt(n));
      (j.SInt? <==> signed) && (j.UInt? <==> !signed) && IntValue(j) == n
      && Deser(TInt(signed, w), Some(IntegerLiteral(IntValue(j))), ctx) == Some(VInt(n))
  {
    InRangeLiteralDecodes(signed, w, n, ctx);
  }

  /** tests/ser.cpp:45-65: booleans, doubles and strings (owned or views) become the node of their own kind. */
  lemma LeafEncodings(b: bool, d: Double, s: string, view: bool)
    ensures Encode(TBool, VBool(b)) == JBool(b)
    ensures Encode(TReal, VReal(d)) == JReal(d)
    ensures Encode(TStr(view), VStr(s)) == JStr(s)
  {
  }

  /** A three-field record that keeps its declared names is written as those names and its fields' trees, in declaration order. */
  lemma EncodeThree(f0: Field, f1: Field, f2: Field, v0: Value, v1: Value, v2: Value)
    requires HasType(v0, f0.ty) && HasType(v1, f1.ty) && HasType(v2, f2.ty)
    ensures HasType(VRec([v0, v1, v2]), TRec(DefaultRename(), [f0, f1, f2]))
    ensures Encode(TRec(DefaultRename(), [f0, f1, f2]), VRec([v0, v1, v2]))
      == Obj([(f0.name, Encode(f0.ty, v0)), (f1.name, Encode(f1.ty, v1)), (f2.name, Encode(f2.ty, v2))])
  {
    var fs, vs := [f0, f1, f2], [v0, v1, v2];
    assert HasType(VRec(vs), TRec(AsDeclared, fs));
    var m := Encode(TRec(AsDeclared, fs), VRec(vs)).members;
    assert m == [m[0], m[1], m[2]];
  }

  /** A four-field record that keeps its declared names is written as those names and its fields' trees, in declaration order. */
  lemma EncodeFour(f0: Field, f1: Field, f2: Field, f3: Field, v0: Value, v1: Value, v2: Value, v3: Value)
    requires HasType(v0, f0.ty) && HasType(v1, f1.ty) && HasType(v2, f2.ty) && HasType(v3, f3.ty)
    ensures HasType(VRec([v0, v1, v2, v3]), TRec(DefaultRename(), [f0, f1, f2, f3]))
    ensures Encode(TRec(DefaultRename(), [f0, f1, f2, f3]), VRec([v0, v1, v2, v3]))
      == Obj([(f0.name, Encode(f0.ty, v0)), (f1.name, Encode(f1.ty, v1)),
              (f2.name, Encode(f2.ty, v2)), (f3.name, Encode(f3.ty, v3))])
  {
    var fs, vs := [f0, f1, f2, f3], [v0, v1, v2, v3];
    assert HasType(VRec(vs), TRec(AsDeclared, fs));
    var m := Encode(TRec(AsDeclared, fs), VRec(vs)).members;
    assert m == [m[0], m[1], m[2], m[3]];
  }

  /** `{"i":n,"name":s,"f":b}`: the tree of `Plain{n, s, b}`, its members in declaration order. */
  function PlainObj(n: int, s: string, b: bool): Json
    requires InRange(true, W32, n)
  {
    Obj([("i", SInt(n)), ("name", JStr(s)), ("f", JBool(b))])
  }

  /** tests/ser.cpp:75-77: `Plain{n, s, b}` is written `{"i":n,"name":s,"f":b}`. */
  lemma PlainEncoding(n: int, s: string, b: bool)
    requires InRange(true, W32, n)
    ensures HasType(VRec([VInt(n), VStr(s), VBool(b)]), PlainTy)
    ensures Encode(PlainTy, VRec([VInt(n), VStr(s), VBool(b)])) == PlainObj(n, s, b)
  {
    var fs := PlainTy.fields;
    EncodeThree(fs[0], fs[1], fs[2], VInt(n), VStr(s), VBool(b));
  }

  /** tests/ser.cpp:88-92: `Nested` writes its `Plain` as a nested object under `p`. */
  lemma NestedEncoding(n: int, s: string, b: bool, m: int, t: string, c: bool)
    requires InRange(true, W32, n) && InRange(true, W32, m)
    ensures HasType(VRec([VInt(n), VStr(s), VBool(b), VRec([VInt(m), VStr(t), VBool(c)])]), NestedTy)
    ensures Encode(NestedTy, VRec([VInt(n), VStr(s), VBool(b), VRec([VInt(m), VStr(t), VBool(c)])]))
      == Obj([("i", SInt(n)), ("name", JStr(s)), ("f", JBool(b)), ("p", PlainObj(m, t, c))])
  {
    var fs := NestedTy.fields;
    PlainEncoding(m, t, c);
    EncodeFour(fs[0], fs[1], fs[2], fs[3], VInt(n), VStr(s), VBool(b), VRec([VInt(m), VStr(t), VBool(c)]));
  }

  /** tests/ser.cpp:103-106: a present optional is written as its value, with no wrapper. */
  lemma MaybeNestedEncodesPlain(n: int, s: string, b: bool, m: int, t: string, c: bool)
    requires InRange(true, W32, n) && InRange(true, W32, m)
    ensures HasType(VRec([VInt(n), VStr(s), VBool(b), VOpt(Some(VRec([VInt(m), VStr(t), VBool(c)])))]), MaybeNestedTy)
    ensures Encode(MaybeNestedTy, VRec([VInt(n), VStr(s), VBool(b), VOpt(Some(VRec([VInt(m), VStr(t), VBool(c)])))]))
      == Obj([("i", SInt(n)), ("name", JStr(s)), ("f", JBool(b)), ("p", PlainObj(m, t, c))])
  {
    var fs := MaybeNestedTy.fields;
    PlainEncoding(m, t, c);
    EncodeFour(fs[0], fs[1], fs[2], fs[3],
               VInt(n), VStr(s), VBool(b), VOpt(Some(VRec([VInt(m), VStr(t), VBool(c)]))));
  }

  /** tests/ser.cpp:107-108: an empty optional field is written as null under its declared key. */
  lemma MaybeNestedEncodesNull(n: int, s: string, b: bool)
    requires InRange(true, W32, n)
    ensures HasType(VRec([VInt(n), VStr(s), VBool(b), VOpt(None)]), MaybeNestedTy)
    ensures Encode(MaybeNestedTy, VRec([VInt(n), VStr(s), VBool(b), VOpt(None)]))
      == Obj([("i", SInt(n)), ("name", JStr(s)), ("f", JBool(b)), ("p", Null)])
  {
    var fs := MaybeNestedTy.fields;
    EncodeFour(fs[0], fs[1], fs[2], fs[3], VInt(n), VStr(s), VBool(b), VOpt(None));
  }

  /** tests/ser.cpp:111-120: a vector of `Plain` is written as an array of their objects, `[]` when empty. */
  lemma PlainVectorEncoding(n: int, s: string, b: bool, m: int, t: string, c: bool)
    requires InRange(true, W32, n) && InRange(true, W32, m)
    ensures Encode(TVec(PlainTy), VList([])) == Arr([])
    ensures HasType(VList([VRec([VInt(n), VStr(s), VBool(b)])]), TVec(PlainTy))
    ensures Encode(TVec(PlainTy), VList([VRec([VInt(n), VStr(s), VBool(b)])])) == Arr([PlainObj(n, s, b)])
    ensures HasType(VList([VRec([VInt(n), VStr(s), VBool(b)]), VRec([VInt(m), VStr(t), VBool(c)])]), TVec(PlainTy))
    ensures Encode(TVec(PlainTy), VList([VRec([VInt(n), VStr(s), VBool(b)]), VRec([VInt(m), VStr(t), VBool(c)])]))
      == Arr([PlainObj(n, s, b), PlainObj(m, t, c)])
  {
    PlainEncoding(n, s, b);
    PlainEncoding(m, t, c);
    var one := VList([VRec([VInt(n), VStr(s), VBool(b)])]);
    assert HasType(one, TVec(PlainTy));
    assert Encode(TVec(PlainTy), one).items == [PlainObj(n, s, b)];
    var two := VList([VRec([VInt(n), VStr(s), VBool(b)]), VRec([VInt(m), VStr(t), VBool(c)])]);
    assert HasType(two, TVec(PlainTy));
    assert Encode(TVec(PlainTy), two).items == [PlainObj(n, s, b), PlainObj(m, t, c)];
  }

  /** examples/rename.cpp: `struct Foo { int yourInt; }` with the snake policy. */
  const FooTy: Ty := TRec(SnakeCase, [Field("yourInt", TInt(true, W32))])

  /** examples/rename.cpp: `struct Bar { int my_int; Foo foo; }` with the camel policy. */
  const BarTy: Ty := TRec(CamelCase, [Field("my_int", TInt(true, W32)), Field("foo", FooTy)])

  /** A record holding an `int` and a one-`int` record, under policies `p` and `q`, written with the keys each policy gives. */
  lemma NestedRecordEncoding(p: Rename, a: string, b: string, q: Rename, c: string)
    ensures var ty := TRec(p, [Field(a, TInt(true, W32)), Field(b, TRec(q, [Field(c, TInt(true, W32))]))]);
      var v := VRec([VInt(1), VRec([VInt(2)])]);
      HasType(v, ty)
      && Encode(ty, v) == Obj([(NameOfField(p, a), SInt(1)), (NameOfField(p, b), Obj([(NameOfField(q, c), SInt(2))]))])
  {
    var inner, innerV := TRec(q, [Field(c, TInt(true, W32))]), VRec([VInt(2)]);
    assert HasType(innerV, inner);
    assert Encode(inner, innerV).members[0] == (NameOfField(q, c), SInt(2));
    assert Encode(inner, innerV) == Obj([(NameOfField(q, c), SInt(2))]);
    var ty := TRec(p, [Field(a, TInt(true, W32)), Field(b, inner)]);
    var v := VRec([VInt(1), innerV]);
    assert HasType(v, ty);
    var m := Encode(ty, v).members;
    assert ty.fields[0].ty == TInt(true, W32) && v.values[0] == VInt(1);
    assert Encode(TInt(true, W32), VInt(1)) == SInt(1);
    assert m[0].0 == NameOfField(p, a);
    assert m[0].1 == SInt(1);
    assert m[1] == (NameOfField(p, b), Encode(inner, innerV));
  }

  /** Each record uses its own policy: `Bar{1, Foo{2}}` is written `{"myInt":1,"foo":{"your_int":2}}`. */
  lemma NestedPoliciesEncoding()
    ensures HasType(VRec([VInt(1), VRec([VInt(2)])]), BarTy)
    ensures Encode(BarTy, VRec([VInt(1), VRec([VInt(2)])]))
      == Obj([("myInt", SInt(1)), ("foo", Obj([("your_int", SInt(2))]))])
  {
    NestedRecordEncoding(CamelCase, "my_int", "foo", SnakeCase, "yourInt");
    CamelExamples();
    SnakeExamples();
    CamelUnchanged("foo");
  }

  /**
    Reading that text back as a `Bar`, as examples/rename.cpp does, fails:
    the parser reads 1 and 2 as integer literals, and the decoder looks for
    `my_int` and `yourInt`.
  */
  lemma NestedPoliciesDoNotDecode(ctx: Context)
    ensures Deser(BarTy, Some(Obj([("myInt", IntegerLiteral(1)), ("foo", Obj([("your_int", IntegerLiteral(2))]))])), ctx).None?
  {
    var members := [("myInt", IntegerLiteral(1)), ("foo", Obj([("your_int", IntegerLiteral(2))]))];
    assert ObjGet(members, "my_int").None? by {
      assert members[0].0 != "my_int" by { assert members[0].0[2] != "my_int"[2]; }
      assert members[1].0 != "my_int" by { assert |members[1].0| != |"my_int"|; }
    }
    assert Deser(BarTy.fields[0].ty, ObjGet(members, "my_int"), ctx).None?;
  }
}
