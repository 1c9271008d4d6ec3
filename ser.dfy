/**
  The encoder: the reverse dispatch from a typed value to a tree the builder
  allocates. Every node allocation may fail; `Ser` is the specification with
  the allocator given as an oracle, and the methods `Serialize`,
  `SerializeVector` and `SerializeRecord` follow the source's loops and are
  proved to compute it. `Encode` is the tree built when no allocation fails.
*/
module Encoder {
  import opened Wrappers
  import opened Names
  import opened JsonTree
  import opened Types

  /**
    The builder's allocator as an oracle: the k-th allocation of a call
    succeeds unless the k-th entry is false; past the end every allocation
    succeeds, so `[]` is a builder that never runs out.
  */
  type Oracle = seq<bool>

  /**
    One allocation: whether it succeeded, and what is left of the oracle.
    It uses up exactly one outcome, and a builder that never runs out
    always succeeds.
  */
  function Allocate(o: Oracle): (r: (bool, Oracle))
    ensures o == [] ==> r == (true, [])
    ensures o != [] ==> o == [r.0] + r.1
  {
    if o == [] then (true, []) else (o[0], o[1..])
  }

  /** A node built by one allocation (`yyjson_mut_bool`, `_uint`, `_sint`, `_real`, `_strn`, `_null`), or NULL. */
  function Leaf(j: Json, o: Oracle): (r: (Option<Json>, Oracle))
    ensures r.0.Some? <==> Allocate(o).0
    ensures r.0.Some? ==> r.0.value == j
    ensures r.1 == Allocate(o).1
  {
    var (ok, rest) := Allocate(o);
    (if ok then Some(j) else None, rest)
  }

  /**
    `serialize(value, doc)` for every type. A vector allocates its array and
    fails as a whole when an element fails; a record allocates its object
    and then adds, field by field, the key `name_of_field` of its own policy
    and the field's value, silently leaving out a field whose key or value
    cannot be built. An empty optional is a null node, and only an optional
    can become one. What is left of the oracle is never longer than what
    it was given; that it is a tail of it is `SerUsesFront`.
  */
  function Ser(ty: Ty, v: Value, o: Oracle): (r: (Option<Json>, Oracle))
    requires HasType(v, ty)
    ensures |r.1| <= |o|
    ensures r.0.Some? && r.0.value.Null? ==> ty.TOpt?
    decreases ty, 1
  {
    match ty
    case TBool => Leaf(JBool(v.b), o)
    case TInt(signed, w) => if signed then Leaf(SInt(v.n), o) else Leaf(UInt(v.n), o)
    case TReal => Leaf(JReal(v.d), o)
    case TStr(_) => Leaf(JStr(v.s), o)
    case TOpt(t) => if v.o.None? then Leaf(Null, o) else Ser(t, v.o.value, o)
    case TVec(t) =>
      var (ok, rest) := Allocate(o);
      if !ok then (None, rest) else SerItems(ty, v.items, 0, [], rest)
    case TRec(_, _) =>
      var (ok, rest) := Allocate(o);
      if !ok then (None, rest) else SerFields(ty, v.values, 0, [], rest)
  }

  /**
    The vector loop from element `i` on, with `acc` already appended: when
    it succeeds the array starts with `acc`.
  */
  function SerItems(ty: Ty, items: seq<Value>, i: nat, acc: seq<Json>, o: Oracle): (r: (Option<Json>, Oracle))
    requires ty.TVec? && i <= |items|
    requires forall k :: 0 <= k < |items| ==> HasType(items[k], ty.elem)
    ensures |r.1| <= |o|
    ensures r.0.Some? ==> r.0.value.Arr? && |acc| <= |r.0.value.items| && r.0.value.items[..|acc|] == acc
    decreases ty, 0, |items| - i
  {
    if i == |items| then (Some(Arr(acc)), o)
    else
      var (s, rest) := Ser(ty.elem, items[i], o);
      if s.None? then (None, rest) else SerItems(ty, items, i + 1, acc + [s.value], rest)
  }

  /**
    The record loop from field `i` on, with the members `acc` already
    added: it always yields an object that starts with `acc` and has at
    most one more member per remaining field.
  */
  function SerFields(ty: Ty, values: seq<Value>, i: nat, acc: seq<(string, Json)>, o: Oracle): (r: (Option<Json>, Oracle))
    requires ty.TRec? && |values| == |ty.fields| && i <= |values|
    requires forall k :: 0 <= k < |values| ==> HasType(values[k], ty.fields[k].ty)
    ensures |r.1| <= |o|
    ensures r.0.Some? && r.0.value.Obj?
    ensures |acc| <= |r.0.value.members| <= |acc| + |values| - i && r.0.value.members[..|acc|] == acc
    decreases ty, 0, |values| - i
  {
    if i == |values| then (Some(Obj(acc)), o)
    else
      var key := NameOfField(ty.policy, ty.fields[i].name);
      var (keyOk, rest) := Allocate(o);
      if !keyOk then SerFields(ty, values, i + 1, acc, rest)
      else
        var (s, rest') := Ser(ty.fields[i].ty, values[i], rest);
        if s.None? then SerFields(ty, values, i + 1, acc, rest')
        else SerFields(ty, values, i + 1, acc + [(key, s.value)], rest')
  }

  /**
    The tree of a value when no allocation fails. Only an empty optional
    becomes a null node, so only an optional type can encode to null.
  */
  function Encode(ty: Ty, v: Value): (j: Json)
    requires HasType(v, ty)
    ensures j.Null? ==> ty.TOpt?
    decreases ty
  {
    match ty
    case TBool => JBool(v.b)
    case TInt(signed, w) => if signed then SInt(v.n) else UInt(v.n)
    case TReal => JReal(v.d)
    case TStr(_) => JStr(v.s)
    case TOpt(t) => if v.o.None? then Null else Encode(t, v.o.value)
    case TVec(t) => Arr(seq(|v.items|, i requires 0 <= i < |v.items| => Encode(t, v.items[i])))
    case TRec(p, fs) =>
      Obj(seq(|fs|, i requires 0 <= i < |fs| => (NameOfField(p, fs[i].name), Encode(fs[i].ty, v.values[i]))))
  }

  // ---------------------------------------------------------------------------
  // The encoding loops

  /** The dispatch as the source runs it: leaves and optionals directly, vectors and records by their loops. */
  method Serialize(ty: Ty, v: Value, o: Oracle) returns (r: Option<Json>, rest: Oracle)
    requires HasType(v, ty)
    ensures (r, rest) == Ser(ty, v, o)
    decreases ty, 1
  {
    match ty {
      case TOpt(t) =>
        if v.o.None? {
          r, rest := Leaf(Null, o).0, Leaf(Null, o).1;
        } else {
          r, rest := Serialize(t, v.o.value, o);
        }
      case TVec(_) =>
        r, rest := SerializeVector(ty, v, o);
      case TRec(_, _) =>
        r, rest := SerializeRecord(ty, v, o);
      case _ =>
        r, rest := Ser(ty, v, o).0, Ser(ty, v, o).1;
    }
  }

  /**
    `serialize(std::vector<T>)`: allocates the array, then appends each
    element's node in order; the first element that cannot be built makes
    the whole result NULL. Appending a non-NULL node cannot fail.
  */
  method SerializeVector(ty: Ty, v: Value, o: Oracle) returns (r: Option<Json>, rest: Oracle)
    requires ty.TVec? && HasType(v, ty)
    ensures (r, rest) == Ser(ty, v, o)
    decreases ty, 0
  {
    var created := Allocate(o);
    rest := created.1;
    if !created.0 {
      return None, rest;
    }
    var arr: seq<Json> := [];
    ghost var whole := SerItems(ty, v.items, 0, [], rest);
    for i := 0 to |v.items|
      invariant SerItems(ty, v.items, i, arr, rest) == whole
    {
      var s;
      s, rest := Serialize(ty.elem, v.items[i], rest);
      if s.None? {
        return None, rest;
      }
      arr := arr + [s.value];
    }
    return Some(Arr(arr)), rest;
  }

  /**
    `serialize` for an aggregate: allocates the object, then for each field
    in declaration order builds the key and the value and adds the pair; a
    field whose key or value cannot be built is skipped.
  */
  method SerializeRecord(ty: Ty, v: Value, o: Oracle) returns (r: Option<Json>, rest: Oracle)
    requires ty.TRec? && HasType(v, ty)
    ensures (r, rest) == Ser(ty, v, o)
    decreases ty, 0
  {
    var created := Allocate(o);
    rest := created.1;
    if !created.0 {
      return None, rest;
    }
    var members: seq<(string, Json)> := [];
    ghost var whole := SerFields(ty, v.values, 0, [], rest);
    for i := 0 to |v.values|
      invariant SerFields(ty, v.values, i, members, rest) == whole
    {
      var key := NameOfField(ty.policy, ty.fields[i].name);
      var kv := Allocate(rest);
      rest := kv.1;
      if !kv.0 {
        continue;
      }
      var s;
      s, rest := Serialize(ty.fields[i].ty, v.values[i], rest);
      if s.None? {
        continue;
      }
      members := members + [(key, s.value)];
    }
    return Some(Obj(members)), rest;
  }

  // ---------------------------------------------------------------------------
  // Properties of the encoder

  /** The keys of an object's members, in order. */
  function Keys(members: seq<(string, Json)>): (ks: seq<string>)
    ensures |ks| == |members|
    ensures forall k :: 0 <= k < |members| ==> ks[k] == members[k].0
  {
    seq(|members|, k requires 0 <= k < |members| => members[k].0)
  }

  /** The keys `name_of_field` gives a record type's fields, in declaration order. */
  function DeclaredKeys(policy: Rename, fs: seq<Field>): (ks: seq<string>)
    ensures |ks| == |fs|
    ensures forall k :: 0 <= k < |fs| ==> ks[k] == NameOfField(policy, fs[k].name)
  {
    seq(|fs|, k requires 0 <= k < |fs| => NameOfField(policy, fs[k].name))
  }

  lemma KeysTail(members: seq<(string, Json)>)
    requires members != []
    ensures Keys(members)[1..] == Keys(members[1..])
  {
  }

  /** `a` is `b` with some elements left out, the rest in their order. */
  predicate IsSubsequence(a: seq<string>, b: seq<string>)
    decreases |b|
  {
    if a == [] then true
    else if b == [] then false
    else (a[0] == b[0] && IsSubsequence(a[1..], b[1..])) || IsSubsequence(a, b[1..])
  }

  /**
    A record's tree is an object whose keys are its fields' `name_of_field`
    keys under its own policy, in declaration order, each with the tree of
    that field's value.
  */
  lemma EncodeRecord(p: Rename, fs: seq<Field>, v: Value)
    requires HasType(v, TRec(p, fs))
    ensures Encode(TRec(p, fs), v).Obj?
    ensures Keys(Encode(TRec(p, fs), v).members) == DeclaredKeys(p, fs)
    ensures forall i :: 0 <= i < |fs| ==> Encode(TRec(p, fs), v).members[i].1 == Encode(fs[i].ty, v.values[i])
  {
  }

  /** With a builder that never runs out, encoding succeeds, builds `Encode`'s tree and consumes nothing. */
  lemma {:induction false} SerNeverFails(ty: Ty, v: Value)
    requires HasType(v, ty)
    ensures Ser(ty, v, []) == (Some(Encode(ty, v)), [])
    decreases ty, 1
  {
    match ty
    case TOpt(t) =>
      if v.o.Some? {
        SerNeverFails(t, v.o.value);
      }
    case TVec(t) =>
      SerItemsNeverFail(ty, v.items, 0, []);
      assert VList(v.items[0..]) == v;
      assert [] + Encode(ty, v).items == Encode(ty, v).items;
    case TRec(p, fs) =>
      SerFieldsNeverFail(ty, v.values, 0, []);
      var all := Encode(ty, v).members;
      assert [] + all[0..] == all;
    case _ =>
  }

  lemma {:induction false} SerItemsNeverFail(ty: Ty, items: seq<Value>, i: nat, acc: seq<Json>)
    requires ty.TVec? && i <= |items|
    requires forall k :: 0 <= k < |items| ==> HasType(items[k], ty.elem)
    ensures SerItems(ty, items, i, acc, []) == (Some(Arr(acc + Encode(ty, VList(items[i..])).items)), [])
    decreases ty, 0, |items| - i
  {
    var tail := items[i..];
    assert HasType(VList(tail), ty);
    if i == |items| {
      assert Encode(ty, VList(tail)).items == [];
      assert acc + [] == acc;
    } else {
      var e := Encode(ty.elem, items[i]);
      var more := Encode(ty, VList(items[i + 1..])).items;
      SerNeverFails(ty.elem, items[i]);
      assert SerItems(ty, items, i, acc, []) == SerItems(ty, items, i + 1, acc + [e], []);
      SerItemsNeverFail(ty, items, i + 1, acc + [e]);
      assert Encode(ty, VList(tail)).items == [e] + more;
      assert acc + [e] + more == acc + ([e] + more);
    }
  }

  lemma {:induction false} SerFieldsNeverFail(ty: Ty, values: seq<Value>, i: nat, acc: seq<(string, Json)>)
    requires ty.TRec? && |values| == |ty.fields| && i <= |values|
    requires forall k :: 0 <= k < |values| ==> HasType(values[k], ty.fields[k].ty)
    ensures SerFields(ty, values, i, acc, []) ==
      (Some(Obj(acc + Encode(ty, VRec(values)).members[i..])), [])
    decreases ty, 0, |values| - i
  {
    var all := Encode(ty, VRec(values)).members;
    if i == |values| {
      assert acc + all[i..] == acc;
    } else {
      SerNeverFails(ty.fields[i].ty, values[i]);
      SerFieldsNeverFail(ty, values, i + 1, acc + [all[i]]);
      assert all[i] == (NameOfField(ty.policy, ty.fields[i].name), Encode(ty.fields[i].ty, values[i]));
      assert all[i..] == [all[i]] + all[i + 1..];
      assert acc + [all[i]] + all[i + 1..] == acc + all[i..];
    }
  }

  /** A vector encodes to an array with one node per element, or fails as a whole: never a partial array. */
  lemma SerVectorAllOrNothing(ty: Ty, v: Value, o: Oracle)
    requires ty.TVec? && HasType(v, ty)
    ensures Ser(ty, v, o).0.Some? ==> Ser(ty, v, o).0.value.Arr? && |Ser(ty, v, o).0.value.items| == |v.items|
  {
    if Allocate(o).0 {
      SerItemsLength(ty, v.items, 0, [], Allocate(o).1);
    }
  }

  lemma {:induction false} SerItemsLength(ty: Ty, items: seq<Value>, i: nat, acc: seq<Json>, o: Oracle)
    requires ty.TVec? && i <= |items|
    requires forall k :: 0 <= k < |items| ==> HasType(items[k], ty.elem)
    ensures var r := SerItems(ty, items, i, acc, o).0;
      r.Some? ==> r.value.Arr? && |r.value.items| == |acc| + |items| - i
    decreases |items| - i
  {
    if i < |items| {
      var (s, rest) := Ser(ty.elem, items[i], o);
      if s.Some? {
        SerItemsLength(ty, items, i + 1, acc + [s.value], rest);
      }
    }
  }

  /**
    A record fails only when its own object cannot be allocated; a field
    whose key or value cannot be built is left out, so the keys present are
    the record's `name_of_field` keys with some left out, in declaration order.
  */
  lemma SerRecordKeepsGoing(ty: Ty, v: Value, o: Oracle)
    requires ty.TRec? && HasType(v, ty)
    ensures Ser(ty, v, o).0.Some? <==> Allocate(o).0
    ensures Ser(ty, v, o).0.Some? ==>
      Ser(ty, v, o).0.value.Obj?
      && IsSubsequence(Keys(Ser(ty, v, o).0.value.members), DeclaredKeys(ty.policy, ty.fields))
  {
    if Allocate(o).0 {
      SerFieldsKeys(ty, v.values, 0, [], Allocate(o).1);
      var members := Ser(ty, v, o).0.value.members;
      assert members[0..] == members;
      assert DeclaredKeys(ty.policy, ty.fields)[0..] == DeclaredKeys(ty.policy, ty.fields);
    }
  }

  lemma {:induction false} SerFieldsKeys(ty: Ty, values: seq<Value>, i: nat, acc: seq<(string, Json)>, o: Oracle)
    requires ty.TRec? && |values| == |ty.fields| && i <= |values|
    requires forall k :: 0 <= k < |values| ==> HasType(values[k], ty.fields[k].ty)
    ensures var members := SerFields(ty, values, i, acc, o).0.value.members;
      IsSubsequence(Keys(members[|acc|..]), DeclaredKeys(ty.policy, ty.fields)[i..])
    decreases |values| - i
  {
    var declared := DeclaredKeys(ty.policy, ty.fields);
    if i == |values| {
      assert SerFields(ty, values, i, acc, o).0.value.members[|acc|..] == [];
    } else {
      assert declared[i..][1..] == declared[i + 1..];
      var key := NameOfField(ty.policy, ty.fields[i].name);
      var (keyOk, rest) := Allocate(o);
      if !keyOk {
        SerFieldsKeys(ty, values, i + 1, acc, rest);
      } else {
        var (s, rest') := Ser(ty.fields[i].ty, values[i], rest);
        if s.None? {
          SerFieldsKeys(ty, values, i + 1, acc, rest');
        } else {
          var acc' := acc + [(key, s.value)];
          assert SerFields(ty, values, i, acc, o) == SerFields(ty, values, i + 1, acc', rest');
          SerFieldsKeys(ty, values, i + 1, acc', rest');
          var members := SerFields(ty, values, i + 1, acc', rest').0.value.members;
          assert members[..|acc'|] == acc';
          var tail := members[|acc|..];
          assert tail[0] == (key, s.value);
          assert tail[1..] == members[|acc'|..];
          KeysTail(tail);
          var ks, ds := Keys(tail), declared[i..];
          assert ks[0] == ds[0];
          assert IsSubsequence(ks[1..], ds[1..]);
        }
      }
    }
  }

  /**
    One step of the record loop: field `i` adds the member (its key, its
    tree) right after `acc` when both its key and its value are built, and
    adds nothing otherwise, the loop going on with what is left of the oracle.
  */
  lemma SerFieldsStep(ty: Ty, values: seq<Value>, i: nat, acc: seq<(string, Json)>, o: Oracle)
    requires ty.TRec? && |values| == |ty.fields| && i < |values|
    requires forall k :: 0 <= k < |values| ==> HasType(values[k], ty.fields[k].ty)
    ensures var key := NameOfField(ty.policy, ty.fields[i].name);
      var built := Ser(ty.fields[i].ty, values[i], Allocate(o).1);
      var members := SerFields(ty, values, i, acc, o).0.value.members;
      if Allocate(o).0 && built.0.Some? then
        |acc| < |members| && members[|acc|] == (key, built.0.value)
        && SerFields(ty, values, i, acc, o) == SerFields(ty, values, i + 1, acc + [(key, built.0.value)], built.1)
      else
        SerFields(ty, values, i, acc, o) == SerFields(ty, values, i + 1, acc, if Allocate(o).0 then built.1 else Allocate(o).1)
  {
    var key := NameOfField(ty.policy, ty.fields[i].name);
    var built := Ser(ty.fields[i].ty, values[i], Allocate(o).1);
    if Allocate(o).0 && built.0.Some? {
      var acc' := acc + [(key, built.0.value)];
      var members := SerFields(ty, values, i + 1, acc', built.1).0.value.members;
      assert members[..|acc'|] == acc';
      assert members[|acc|] == acc'[|acc|];
    }
  }

  /**
    A record whose only field cannot be built still encodes, to an empty
    object: with the key allocation failing, or with the value's allocation
    failing after the key was built. A builder that never runs out keeps it.
  */
  lemma RecordDropsFailedField()
    ensures var ty := TRec(DefaultRename(), [Field("a", TBool)]);
      var v := VRec([VBool(true)]);
      HasType(v, ty)
      && Ser(ty, v, [true, false]).0 == Some(Obj([]))
      && Ser(ty, v, [true, true, false]).0 == Some(Obj([]))
      && Ser(ty, v, []).0 == Some(Obj([("a", JBool(true))]))
  {
    var ty := TRec(DefaultRename(), [Field("a", TBool)]);
    var v := VRec([VBool(true)]);
    assert HasType(v, ty);
    assert NameOfField(AsDeclared, "a") == "a";
    SerFieldsStep(ty, v.values, 0, [], [false]);
    SerFieldsStep(ty, v.values, 0, [], [true, false]);
    SerFieldsStep(ty, v.values, 0, [], []);
  }

  /** `rest` is what is left of `o` after some outcomes were taken from its front. */
  predicate IsTailOf(rest: Oracle, o: Oracle)
  {
    |rest| <= |o| && rest == o[|o| - |rest|..]
  }

  lemma TailOfTail(c: Oracle, b: Oracle, a: Oracle)
    requires IsTailOf(c, b) && IsTailOf(b, a)
    ensures IsTailOf(c, a)
  {
    assert b[|b| - |c|..] == a[|a| - |b|..][|b| - |c|..];
  }

  /**
    Encoding takes allocator outcomes from the front only: what is left is
    always a tail of the oracle it was given.
  */
  lemma {:induction false} SerUsesFront(ty: Ty, v: Value, o: Oracle)
    requires HasType(v, ty)
    ensures IsTailOf(Ser(ty, v, o).1, o)
    decreases ty, 1
  {
    var (ok, rest) := Allocate(o);
    assert IsTailOf(rest, o);
    match ty
    case TOpt(t) =>
      if v.o.Some? {
        SerUsesFront(t, v.o.value, o);
      }
    case TVec(t) =>
      if ok {
        SerItemsUseFront(ty, v.items, 0, [], rest);
        TailOfTail(Ser(ty, v, o).1, rest, o);
      }
    case TRec(_, _) =>
      if ok {
        SerFieldsUseFront(ty, v.values, 0, [], rest);
        TailOfTail(Ser(ty, v, o).1, rest, o);
      }
    case _ =>
  }

  lemma {:induction false} SerItemsUseFront(ty: Ty, items: seq<Value>, i: nat, acc: seq<Json>, o: Oracle)
    requires ty.TVec? && i <= |items|
    requires forall k :: 0 <= k < |items| ==> HasType(items[k], ty.elem)
    ensures IsTailOf(SerItems(ty, items, i, acc, o).1, o)
    decreases ty, 0, |items| - i
  {
    if i < |items| {
      var (s, rest) := Ser(ty.elem, items[i], o);
      SerUsesFront(ty.elem, items[i], o);
      if s.Some? {
        SerItemsUseFront(ty, items, i + 1, acc + [s.value], rest);
        TailOfTail(SerItems(ty, items, i, acc, o).1, rest, o);
      }
    }
  }

  lemma {:induction false} SerFieldsUseFront(ty: Ty, values: seq<Value>, i: nat, acc: seq<(string, Json)>, o: Oracle)
    requires ty.TRec? && |values| == |ty.fields| && i <= |values|
    requires forall k :: 0 <= k < |values| ==> HasType(values[k], ty.fields[k].ty)
    ensures IsTailOf(SerFields(ty, values, i, acc, o).1, o)
    decreases ty, 0, |values| - i, 1
  {
    if i < |values| {
      var acc', next := SerFieldsNextUsesFront(ty, values, i, acc, o);
      var r := SerFields(ty, values, i + 1, acc', next);
      SerFieldsUseFront(ty, values, i + 1, acc', next);
      TailOfTail(r.1, next, o);
    }
  }

  /** One step of the record loop takes its outcomes from the front. */
  lemma {:induction false} SerFieldsNextUsesFront(ty: Ty, values: seq<Value>, i: nat, acc: seq<(string, Json)>, o: Oracle)
    returns (acc': seq<(string, Json)>, next: Oracle)
    requires ty.TRec? && |values| == |ty.fields| && i < |values|
    requires forall k :: 0 <= k < |values| ==> HasType(values[k], ty.fields[k].ty)
    ensures IsTailOf(next, o)
    ensures SerFields(ty, values, i, acc, o) == SerFields(ty, values, i + 1, acc', next)
    decreases ty, 0, |values| - i, 0
  {
    var key := NameOfField(ty.policy, ty.fields[i].name);
    var (keyOk, rest) := Allocate(o);
    assert IsTailOf(rest, o);
    if !keyOk {
      acc', next := acc, rest;
    } else {
      var built := Ser(ty.fields[i].ty, values[i], rest);
      SerUsesFront(ty.fields[i].ty, values[i], rest);
      TailOfTail(built.1, rest, o);
      acc', next := if built.0.Some? then acc + [(key, built.0.value)] else acc, built.1;
    }
  }
}
