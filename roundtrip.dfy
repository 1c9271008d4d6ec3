/**
  How the decoder and the encoder fit together. A value whose record types
  all keep their declared names, and which has no optional directly inside an
  optional, comes back unchanged from decoding its encoding, under any
  options. The two restrictions are needed: a renamed key is not found by the
  decoder, which looks fields up by their declared names, and an engaged
  optional holding an empty optional encodes to null, which decodes to an
  empty optional.
*/
module RoundTrip {
  import opened Wrappers
  import opened Names
  import opened JsonTree
  import opened Types
  import opened Decoder
  import opened Encoder

  /** No two fields of a record share a declared name (C++ member names are distinct). */
  predicate DistinctNames(fs: seq<Field>) {
    forall i, j :: 0 <= i < j < |fs| ==> fs[i].name != fs[j].name
  }

  /** Every record keeps its declared names and no optional sits directly inside an optional. */
  predicate RoundTrippable(ty: Ty)
    decreases ty
  {
    match ty
    case TOpt(t) => !t.TOpt? && RoundTrippable(t)
    case TVec(t) => RoundTrippable(t)
    case TRec(p, fs) =>
      p == AsDeclared && DistinctNames(fs) && forall i :: 0 <= i < |fs| ==> RoundTrippable(fs[i].ty)
    case _ => true
  }

  /** Decoding the tree of a round-trippable value gives the value back, whatever the options. */
  lemma {:induction false} RoundTrip(ty: Ty, v: Value, ctx: Context)
    requires RoundTrippable(ty) && HasType(v, ty)
    ensures Deser(ty, Some(Encode(ty, v)), ctx) == Some(v)
    decreases ty
  {
    match ty
    case TOpt(t) =>
      if v.o.Some? {
        RoundTrip(t, v.o.value, ctx);
      }
    case TVec(t) =>
      var items := Encode(ty, v).items;
      forall i | 0 <= i < |items|
        ensures Deser(t, Some(items[i]), ctx) == Some(v.items[i])
      {
        RoundTrip(t, v.items[i], ctx);
      }
      assert v.items == seq(|items|, i requires 0 <= i < |items| => Deser(t, Some(items[i]), ctx).value);
    case TRec(p, fs) =>
      var members := Encode(ty, v).members;
      assert DistinctKeys(members);
      forall i | 0 <= i < |fs|
        ensures Deser(fs[i].ty, ObjGet(members, fs[i].name), ctx) == Some(v.values[i])
      {
        assert members[i] == (fs[i].name, Encode(fs[i].ty, v.values[i]));
        ObjGetMember(members, fs[i].name, Encode(fs[i].ty, v.values[i]));
        RoundTrip(fs[i].ty, v.values[i], ctx);
      }
      assert v.values == seq(|fs|, i requires 0 <= i < |fs| => Deser(fs[i].ty, ObjGet(members, fs[i].name), ctx).value);
    case _ =>
  }

  /** Together with `SerNeverFails`: what a builder that never runs out produces decodes back to the value. */
  lemma SerThenDeser(ty: Ty, v: Value, ctx: Context)
    requires RoundTrippable(ty) && HasType(v, ty)
    ensures Ser(ty, v, []).0.Some? && Deser(ty, Ser(ty, v, []).0, ctx) == Some(v)
  {
    SerNeverFails(ty, v);
    RoundTrip(ty, v, ctx);
  }

  // ---------------------------------------------------------------------------
  // Where the round trip does not hold

  /** An engaged optional holding an empty optional encodes to null and comes back as an empty optional. */
  lemma NestedOptionalCollapses(ctx: Context)
    ensures var ty := TOpt(TOpt(TBool));
      var v := VOpt(Some(VOpt(None)));
      HasType(v, ty) && Encode(ty, v) == Null && Deser(ty, Some(Encode(ty, v)), ctx) == Some(VOpt(None))
      && Some(VOpt(None)) != Some(v)
  {
  }

  /** The fields of the structs of tests/rename.cpp: `int my_int; int mySecondInt;`. */
  const RenameFields: seq<Field> := [Field("my_int", TInt(true, W32)), Field("mySecondInt", TInt(true, W32))]

  /** Under any policy, a record of these fields encodes to the two keys `name_of_field` gives, in order. */
  lemma RenameRecordEncoding(p: Rename, x: int, y: int)
    requires InRange(true, W32, x) && InRange(true, W32, y)
    ensures HasType(VRec([VInt(x), VInt(y)]), TRec(p, RenameFields))
    ensures Encode(TRec(p, RenameFields), VRec([VInt(x), VInt(y)]))
      == Obj([(NameOfField(p, "my_int"), SInt(x)), (NameOfField(p, "mySecondInt"), SInt(y))])
  {
    TwoIntRecordEncoding(p, "my_int", "mySecondInt", x, y);
  }

  /** A record of two `int` fields named `a` and `b` is written with their keys under `p`, in that order. */
  lemma TwoIntRecordEncoding(p: Rename, a: string, b: string, x: int, y: int)
    requires InRange(true, W32, x) && InRange(true, W32, y)
    ensures HasType(VRec([VInt(x), VInt(y)]), TRec(p, [Field(a, TInt(true, W32)), Field(b, TInt(true, W32))]))
    ensures Encode(TRec(p, [Field(a, TInt(true, W32)), Field(b, TInt(true, W32))]), VRec([VInt(x), VInt(y)]))
      == Obj([(NameOfField(p, a), SInt(x)), (NameOfField(p, b), SInt(y))])
  {
    var ty := TRec(p, [Field(a, TInt(true, W32)), Field(b, TInt(true, W32))]);
    assert HasType(VRec([VInt(x), VInt(y)]), ty);
    EncodeRecord(p, ty.fields, VRec([VInt(x), VInt(y)]));
    var m := Encode(ty, VRec([VInt(x), VInt(y)])).members;
    assert m[0] == (NameOfField(p, a), SInt(x));
    assert m[1] == (NameOfField(p, b), SInt(y));
  }

  /** The camel record of tests/rename.cpp is written with the keys `myInt` and `mySecondInt`. */
  lemma CamelRecordEncoding(x: int, y: int)
    requires InRange(true, W32, x) && InRange(true, W32, y)
    ensures Encode(TRec(CamelCase, RenameFields), VRec([VInt(x), VInt(y)]))
      == Obj([("myInt", SInt(x)), ("mySecondInt", SInt(y))])
  {
    RenameRecordEncoding(CamelCase, x, y);
    CamelExamples();
  }

  /**
    Decoding a record's own tree fails as soon as one non-optional field's
    declared name differs from every key its policy writes: the decoder
    looks that field up by its declared name and gets the NULL node.
  */
  lemma RenamedFieldIsLost(p: Rename, fs: seq<Field>, v: Value, i: nat, ctx: Context)
    requires HasType(v, TRec(p, fs))
    requires i < |fs| && !fs[i].ty.TOpt?
    requires forall j :: 0 <= j < |fs| ==> NameOfField(p, fs[j].name) != fs[i].name
    ensures Deser(TRec(p, fs), Some(Encode(TRec(p, fs), v)), ctx).None?
  {
    var members := Encode(TRec(p, fs), v).members;
    EncodeRecord(p, fs, v);
    assert forall j :: 0 <= j < |members| ==> members[j].0 == DeclaredKeys(p, fs)[j];
    assert ObjGet(members, fs[i].name).None?;
    MissingDecodesOnlyAsOptional(fs[i].ty, ctx);
  }

  /**
    Under the camel policy no key contains '_', so a non-optional field whose
    declared name contains '_' is never found in the record's own tree.
  */
  lemma CamelLosesUnderscoredField(fs: seq<Field>, v: Value, i: nat, ctx: Context)
    requires HasType(v, TRec(CamelCase, fs))
    requires i < |fs| && !fs[i].ty.TOpt? && '_' in fs[i].name
    ensures Deser(TRec(CamelCase, fs), Some(Encode(TRec(CamelCase, fs), v)), ctx).None?
  {
    RenamedFieldIsLost(CamelCase, fs, v, i, ctx);
  }

  /**
    Under the snake policy no key contains an upper-case letter, so a
    non-optional field whose declared name contains one is never found in
    the record's own tree.
  */
  lemma SnakeLosesCapitalisedField(fs: seq<Field>, v: Value, i: nat, k: nat, ctx: Context)
    requires HasType(v, TRec(SnakeCase, fs))
    requires i < |fs| && !fs[i].ty.TOpt? && k < |fs[i].name| && IsUpper(fs[i].name[k])
    ensures Deser(TRec(SnakeCase, fs), Some(Encode(TRec(SnakeCase, fs), v)), ctx).None?
  {
    forall j | 0 <= j < |fs|
      ensures NameOfField(SnakeCase, fs[j].name) != fs[i].name
    {
      var key := NameOfField(SnakeCase, fs[j].name);
      if k < |key| {
        assert !IsUpper(key[k]);
      }
    }
    RenamedFieldIsLost(SnakeCase, fs, v, i, ctx);
  }

  /**
    Decoding that encoding fails: the decoder looks for `my_int`, which the
    camel policy writes as `myInt`, where tests/rename.cpp expects `{1, 2}`.
  */
  lemma CamelRecordDoesNotRoundTrip(x: int, y: int, ctx: Context)
    requires InRange(true, W32, x) && InRange(true, W32, y)
    ensures HasType(VRec([VInt(x), VInt(y)]), TRec(CamelCase, RenameFields))
    ensures Deser(TRec(CamelCase, RenameFields), Some(Encode(TRec(CamelCase, RenameFields), VRec([VInt(x), VInt(y)]))), ctx).None?
  {
    assert HasType(VRec([VInt(x), VInt(y)]), TRec(CamelCase, RenameFields));
    assert RenameFields[0].name[2] == '_';
    CamelLosesUnderscoredField(RenameFields, VRec([VInt(x), VInt(y)]), 0, ctx);
  }

  /**
    The text written with the declared names, `{"my_int": x, "mySecondInt": y}`,
    is what decodes into the record, under any policy.
  */
  lemma DeclaredNamesDecode(p: Rename, x: int, y: int, ctx: Context)
    requires InRange(true, W32, x) && InRange(true, W32, y)
    ensures Deser(TRec(p, RenameFields), Some(Obj([("my_int", IntegerLiteral(x)), ("mySecondInt", IntegerLiteral(y))])), ctx)
      == Some(VRec([VInt(x), VInt(y)]))
  {
    var declared := [("my_int", IntegerLiteral(x)), ("mySecondInt", IntegerLiteral(y))];
    assert ObjGet(declared, "my_int") == Some(IntegerLiteral(x));
    assert ObjGet(declared, "mySecondInt") == Some(IntegerLiteral(y)) by {
      assert declared[0].0 != "mySecondInt" by { assert |declared[0].0| != |"mySecondInt"|; }
      assert FindKey(declared, "mySecondInt") == 1;
    }
    InRangeLiteralDecodes(true, W32, x, ctx);
    InRangeLiteralDecodes(true, W32, y, ctx);
    var fs, values := RenameFields, [VInt(x), VInt(y)];
    forall i | 0 <= i < |fs|
      ensures Deser(fs[i].ty, ObjGet(declared, fs[i].name), ctx) == Some(values[i])
    {
    }
    RecordDecodesTo(p, fs, declared, ctx, values);
  }

  /** The snake record of tests/rename.cpp writes `mySecondInt` under the key `my_second_int`. */
  lemma SnakeRecordEncoding(x: int, y: int)
    requires InRange(true, W32, x) && InRange(true, W32, y)
    ensures Encode(TRec(SnakeCase, RenameFields), VRec([VInt(x), VInt(y)]))
      == Obj([("my_int", SInt(x)), ("my_second_int", SInt(y))])
  {
    RenameRecordEncoding(SnakeCase, x, y);
    SnakeExamples();
  }

  /** Decoding that encoding fails: the decoder looks for `mySecondInt`, which the snake policy writes as `my_second_int`. */
  lemma SnakeRecordDoesNotRoundTrip(x: int, y: int, ctx: Context)
    requires InRange(true, W32, x) && InRange(true, W32, y)
    ensures HasType(VRec([VInt(x), VInt(y)]), TRec(SnakeCase, RenameFields))
    ensures Deser(TRec(SnakeCase, RenameFields), Some(Encode(TRec(SnakeCase, RenameFields), VRec([VInt(x), VInt(y)]))), ctx).None?
  {
    assert HasType(VRec([VInt(x), VInt(y)]), TRec(SnakeCase, RenameFields));
    assert IsUpper(RenameFields[1].name[2]);
    SnakeLosesCapitalisedField(RenameFields, VRec([VInt(x), VInt(y)]), 1, 2, ctx);
  }

  // ---------------------------------------------------------------------------
  // Record decoding

  /** The order of an object's members does not matter to a record decode, when keys are distinct. */
  lemma RecordIgnoresMemberOrder(ty: Ty, m1: seq<(string, Json)>, m2: seq<(string, Json)>, ctx: Context)
    requires ty.TRec?
    requires DistinctKeys(m1) && DistinctKeys(m2) && multiset(m1) == multiset(m2)
    ensures Deser(ty, Some(Obj(m1)), ctx) == Deser(ty, Some(Obj(m2)), ctx)
  {
    var fs := ty.fields;
    forall i | 0 <= i < |fs|
      ensures Deser(fs[i].ty, ObjGet(m1, fs[i].name), ctx) == Deser(fs[i].ty, ObjGet(m2, fs[i].name), ctx)
    {
      ObjGetPermutation(m1, m2, fs[i].name);
    }
    var all1 := forall i :: 0 <= i < |fs| ==> Deser(fs[i].ty, ObjGet(m1, fs[i].name), ctx).Some?;
    var all2 := forall i :: 0 <= i < |fs| ==> Deser(fs[i].ty, ObjGet(m2, fs[i].name), ctx).Some?;
    assert all1 == all2;
    if all1 {
      assert seq(|fs|, i requires 0 <= i < |fs| => Deser(fs[i].ty, ObjGet(m1, fs[i].name), ctx).value)
        == seq(|fs|, i requires 0 <= i < |fs| => Deser(fs[i].ty, ObjGet(m2, fs[i].name), ctx).value);
    }
  }
}
