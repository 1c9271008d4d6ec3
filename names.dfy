/**
  The field-name transformer: the casing policy a record type binds, the ASCII
  case helpers, and the camel and snake rewrites with the length counts that
  size their output buffers.

  Each rewrite is specified by a function that follows the source loop's
  state machine (`CamelFrom`, `SnakeFrom`); the loops themselves are the
  methods `CamelCountLen`, `CamelConvert`, `SnakeCountLen`, `SnakeConvert`,
  proved to compute those functions. The lemmas state what the rewrites
  mean in terms of independent definitions (`WithoutUnderscores`, `Lowered`,
  `UpperRuns`).
*/
module Names {

  /** `rename`: the casing policy of one record type. `AsDeclared` is `rename::none`. */
  datatype Rename = AsDeclared | CamelCase | SnakeCase

  /** `rename_fields<T>` for a type that does not specialise it: every field keeps its declared name as its key. */
  function DefaultRename(): (r: Rename)
    ensures r == AsDeclared
    ensures forall declared :: NameOfField(r, declared) == declared
  {
    AsDeclared
  }

  // ---------------------------------------------------------------------------
  // ASCII case helpers

  predicate IsUpper(c: char) { 'A' <= c <= 'Z' }

  predicate IsLower(c: char) { 'a' <= c <= 'z' }

  /** Upper-cases an ASCII lower-case letter; every other character is returned as is. */
  function ToUpper(c: char): (r: char)
    ensures IsLower(c) ==> IsUpper(r) && r as int + 32 == c as int
    ensures !IsLower(c) ==> r == c
  {
    if IsLower(c) then (c as int - ('a' as int - 'A' as int)) as char else c
  }

  /** Lower-cases an ASCII upper-case letter; every other character is returned as is. */
  function ToLower(c: char): (r: char)
    ensures IsUpper(c) ==> IsLower(r) && r as int == c as int + 32
    ensures !IsUpper(c) ==> r == c
  {
    if IsUpper(c) then (c as int + ('a' as int - 'A' as int)) as char else c
  }

  /** The two case maps agree on which letter a character stands for. */
  lemma CaseMapsAgree(c: char)
    ensures ToLower(ToUpper(c)) == ToLower(c)
    ensures ToUpper(ToLower(c)) == ToUpper(c)
    ensures ToUpper(c) == '_' <==> c == '_'
    ensures ToLower(c) == '_' <==> c == '_'
    ensures !IsUpper(ToLower(c))
  {
  }

  // ---------------------------------------------------------------------------
  // Reference definitions used to state what the rewrites do

  /** `s` with every '_' deleted. */
  function WithoutUnderscores(s: string): (r: string)
    ensures '_' !in r
    ensures |r| <= |s|
  {
    if s == [] then []
    else (if s[0] == '_' then [] else [s[0]]) + WithoutUnderscores(s[1..])
  }

  /** `s` with every character passed through `ToLower`. */
  function Lowered(s: string): (r: string)
    ensures |r| == |s|
    ensures forall k :: 0 <= k < |s| ==> r[k] == ToLower(s[k])
  {
    if s == [] then [] else [ToLower(s[0])] + Lowered(s[1..])
  }

  predicate HasNoUpper(s: string) {
    forall k :: 0 <= k < |s| ==> !IsUpper(s[k])
  }

  /**
    The number of maximal runs of upper-case ASCII letters in `s`, counted by
    the positions that start a run (an upper-case letter that is first or
    follows a non-upper-case character), from the right end.
  */
  function UpperRuns(s: string): (n: nat)
    ensures n <= |s|
  {
    if s == [] then 0
    else
      var last := |s| - 1;
      UpperRuns(s[..last]) + (if IsUpper(s[last]) && (last == 0 || !IsUpper(s[last - 1])) then 1 else 0)
  }

  /** The characters of `s` before its first NUL: what a `string_view` built from `.data()` sees. */
  function UpToNul(s: string): (r: string)
    ensures |r| <= |s| && r == s[..|r|]
    ensures '\0' !in r
    ensures |r| < |s| ==> s[|r|] == '\0'
  {
    if s == [] || s[0] == '\0' then [] else [s[0]] + UpToNul(s[1..])
  }

  lemma {:induction false} WithoutUnderscoresAppend(a: string, b: string)
    ensures WithoutUnderscores(a + b) == WithoutUnderscores(a) + WithoutUnderscores(b)
  {
    if a == [] {
      assert a + b == b;
    } else {
      assert (a + b)[1..] == a[1..] + b;
      WithoutUnderscoresAppend(a[1..], b);
    }
  }

  lemma {:induction false} LoweredAppend(a: string, b: string)
    ensures Lowered(a + b) == Lowered(a) + Lowered(b)
  {
  }

  lemma {:induction false} WithoutUnderscoresNone(s: string)
    requires '_' !in s
    ensures WithoutUnderscores(s) == s
  {
    if s != [] {
      assert s == [s[0]] + s[1..];
      WithoutUnderscoresNone(s[1..]);
    }
  }

  lemma {:induction false} UpToNulPrefix(s: string, t: string)
    requires '\0' !in s
    requires t != [] ==> t[0] == '\0'
    ensures UpToNul(s + t) == s
  {
    if s == [] {
      assert s + t == t;
    } else {
      assert (s + t)[1..] == s[1..] + t;
      UpToNulPrefix(s[1..], t);
    }
  }

  // ---------------------------------------------------------------------------
  // camel_case

  /**
    The output of `camel::convert`'s loop over `s` when `was_underscore`
    starts as `pending`: an '_' is dropped and sets the flag; any other
    character is copied, upper-cased when the flag is set, and clears it.
  */
  function CamelFrom(s: string, pending: bool): string
  {
    if s == [] then []
    else if s[0] == '_' then CamelFrom(s[1..], true)
    else [if pending then ToUpper(s[0]) else s[0]] + CamelFrom(s[1..], false)
  }

  /**
    The camel-case key of a declared name: the loop starts with
    `was_underscore == false`. It has no '_' and one character per
    non-'_' character of the name.
  */
  function CamelName(s: string): (r: string)
    ensures '_' !in r
    ensures |r| == |WithoutUnderscores(s)|
  {
    CamelLength(s, false);
    CamelLetters(s, false);
    CamelFrom(s, false)
  }

  /** `was_underscore` after the loop has consumed `s` from state `pending`. */
  function PendingAfter(s: string, pending: bool): bool
  {
    if s == [] then pending else s[|s| - 1] == '_'
  }

  /** The loop over `a + b` is the loop over `a` followed by the loop over `b` from the state `a` left. */
  lemma {:induction false} CamelAppend(a: string, b: string, pending: bool)
    ensures CamelFrom(a + b, pending) == CamelFrom(a, pending) + CamelFrom(b, PendingAfter(a, pending))
  {
    if a == [] {
      assert a + b == b;
    } else {
      assert (a + b)[1..] == a[1..] + b;
      CamelAppend(a[1..], b, a[0] == '_');
      if |a| > 1 {
        assert a[1..][|a[1..]| - 1] == a[|a| - 1];
      }
    }
  }

  /** `camel::count_len` is exact: the camel key has one character per non-'_' character. */
  lemma {:induction false} CamelLength(s: string, pending: bool)
    ensures |CamelFrom(s, pending)| == |WithoutUnderscores(s)|
  {
    if s != [] {
      CamelLength(s[1..], s[0] == '_');
    }
  }

  /** A camel key contains no '_', and differs from `s` minus its underscores only in letter case. */
  lemma {:induction false} CamelLetters(s: string, pending: bool)
    ensures '_' !in CamelFrom(s, pending)
    ensures Lowered(CamelFrom(s, pending)) == Lowered(WithoutUnderscores(s))
  {
    if s != [] {
      CamelLetters(s[1..], s[0] == '_');
      CaseMapsAgree(s[0]);
      if s[0] != '_' {
        var c := if pending then ToUpper(s[0]) else s[0];
        LoweredAppend([c], CamelFrom(s[1..], false));
        LoweredAppend([s[0]], WithoutUnderscores(s[1..]));
      }
    }
  }

  /** A declared name without '_' is its own camel key. */
  lemma {:induction false} CamelUnchanged(s: string)
    requires '_' !in s
    ensures CamelName(s) == s
  {
    if s != [] {
      assert s == [s[0]] + s[1..];
      CamelUnchanged(s[1..]);
    }
  }

  /** The first character after a run of underscores is upper-cased and the underscores vanish. */
  lemma CamelAfterUnderscore(a: string, c: char, b: string)
    requires c != '_'
    ensures CamelName(a + ['_', c] + b) == CamelName(a) + [ToUpper(c)] + CamelName(b)
  {
    assert a + ['_', c] + b == a + (['_'] + ([c] + b));
    CamelAppend(a, ['_'] + ([c] + b), false);
    assert CamelFrom(['_'] + ([c] + b), PendingAfter(a, false)) == CamelFrom([c] + b, true) by {
      assert (['_'] + ([c] + b))[1..] == [c] + b;
    }
    assert ([c] + b)[1..] == b;
  }

  /** A non-'_' character that does not follow an '_' is copied unchanged. */
  lemma CamelKeeps(a: string, c: char, b: string)
    requires c != '_'
    requires a == [] || a[|a| - 1] != '_'
    ensures CamelName(a + [c] + b) == CamelName(a) + [c] + CamelName(b)
  {
    assert a + [c] + b == a + ([c] + b);
    CamelAppend(a, [c] + b, false);
    assert ([c] + b)[1..] == b;
  }

  /** `camel::count_len`: the loop that counts the non-'_' characters. */
  method CamelCountLen(s: string) returns (count: nat)
    ensures count == |WithoutUnderscores(s)|
    ensures count == |CamelName(s)|
  {
    count := 0;
    for i := 0 to |s|
      invariant count == |WithoutUnderscores(s[..i])|
    {
      assert s[..i + 1] == s[..i] + [s[i]];
      WithoutUnderscoresAppend(s[..i], [s[i]]);
      if s[i] != '_' {
        count := count + 1;
      }
    }
    assert s[..|s|] == s;
    CamelLength(s, false);
  }

  /** One step of the camel loop: the key of `s[..i + 1]` extends the key of `s[..i]` and stays within the whole key. */
  lemma CamelStep(s: string, i: nat)
    requires i < |s|
    ensures CamelName(s[..i + 1]) == CamelName(s[..i]) + CamelFrom([s[i]], PendingAfter(s[..i], false))
    ensures PendingAfter(s[..i + 1], false) == (s[i] == '_')
    ensures |CamelName(s[..i + 1])| <= |CamelName(s)|
  {
    assert s[..i + 1] == s[..i] + [s[i]];
    CamelAppend(s[..i], [s[i]], false);
    assert s == s[..i + 1] + s[i + 1..];
    CamelAppend(s[..i + 1], s[i + 1..], false);
  }

  /**
    `camel::convert<L>`: fills a zero-initialised `std::array<char, L + 1>`
    through an advancing output index. The caller sizes the array with
    `camel::count_len`, so `L` is at least the key's length.
  */
  method CamelConvert(L: nat, s: string) returns (res: array<char>)
    requires |WithoutUnderscores(s)| <= L
    ensures fresh(res) && res.Length == L + 1
    ensures |CamelName(s)| <= L && res[..|CamelName(s)|] == CamelName(s)
    ensures forall k :: |CamelName(s)| <= k < res.Length ==> res[k] == '\0'
  {
    res := new char[L + 1](_ => '\0');
    var out := 0;
    var wasUnderscore := false;
    CamelLength(s, false);
    for i := 0 to |s|
      invariant out == |CamelName(s[..i])| <= |CamelName(s)|
      invariant res[..out] == CamelName(s[..i])
      invariant forall k :: out <= k < res.Length ==> res[k] == '\0'
      invariant wasUnderscore == PendingAfter(s[..i], false)
    {
      var c := s[i];
      CamelStep(s, i);
      if c == '_' {
        wasUnderscore := true;
        continue;
      }
      if wasUnderscore {
        c := ToUpper(c);
        wasUnderscore := false;
      }
      res[out] := c;
      out := out + 1;
    }
    assert s[..|s|] == s;
  }

  // ---------------------------------------------------------------------------
  // snake_case

  /**
    The output of `snake::convert`'s loop over `s` when `was_upper` starts as
    `wasUpper`: an upper-case letter is lower-cased and, when it starts a run,
    preceded by '_'; any other character is copied and clears the flag.
  */
  function SnakeFrom(s: string, wasUpper: bool): string
  {
    if s == [] then []
    else if IsUpper(s[0]) then
      (if wasUpper then [] else ['_']) + [ToLower(s[0])] + SnakeFrom(s[1..], true)
    else [s[0]] + SnakeFrom(s[1..], false)
  }

  /**
    The snake-case key of a declared name: the loop starts with
    `was_upper == false`. It has no upper-case letter.
  */
  function SnakeName(s: string): (r: string)
    ensures HasNoUpper(r)
  {
    SnakeNoUpper(s, false);
    SnakeFrom(s, false)
  }

  /** `was_upper` after the loop has consumed `s` from state `wasUpper`. */
  function UpperAfter(s: string, wasUpper: bool): bool
  {
    if s == [] then wasUpper else IsUpper(s[|s| - 1])
  }

  lemma {:induction false} SnakeAppend(a: string, b: string, wasUpper: bool)
    ensures SnakeFrom(a + b, wasUpper) == SnakeFrom(a, wasUpper) + SnakeFrom(b, UpperAfter(a, wasUpper))
  {
    if a == [] {
      assert a + b == b;
    } else {
      assert (a + b)[1..] == a[1..] + b;
      SnakeAppend(a[1..], b, IsUpper(a[0]));
      if |a| > 1 {
        assert a[1..][|a[1..]| - 1] == a[|a| - 1];
      }
    }
  }

  /** `snake::count_len` is exact: the snake key is one '_' longer than `s` per run of upper-case letters. */
  lemma {:induction false} SnakeLength(s: string)
    ensures |SnakeName(s)| == |s| + UpperRuns(s)
  {
    if s != [] {
      var last := |s| - 1;
      assert s == s[..last] + [s[last]];
      SnakeAppend(s[..last], [s[last]], false);
      SnakeLength(s[..last]);
      if last > 0 {
        assert s[..last][last - 1] == s[last - 1];
      }
    }
  }

  /** A snake key has no upper-case letter. */
  lemma {:induction false} SnakeNoUpper(s: string, wasUpper: bool)
    ensures HasNoUpper(SnakeFrom(s, wasUpper))
  {
    if s != [] {
      SnakeNoUpper(s[1..], IsUpper(s[0]));
      CaseMapsAgree(s[0]);
    }
  }

  /** The snake rewrite only inserts underscores and lower-cases. */
  lemma {:induction false} SnakeOnlyInserts(s: string, wasUpper: bool)
    ensures WithoutUnderscores(SnakeFrom(s, wasUpper)) == WithoutUnderscores(Lowered(s))
  {
    if s != [] {
      SnakeOnlyInserts(s[1..], IsUpper(s[0]));
      var head := if IsUpper(s[0]) then (if wasUpper then [] else ['_']) + [ToLower(s[0])] else [s[0]];
      assert SnakeFrom(s, wasUpper) == head + SnakeFrom(s[1..], IsUpper(s[0]));
      WithoutUnderscoresAppend(head, SnakeFrom(s[1..], IsUpper(s[0])));
      assert Lowered(s) == [ToLower(s[0])] + Lowered(s[1..]);
      WithoutUnderscoresAppend([ToLower(s[0])], Lowered(s[1..]));
      if IsUpper(s[0]) && !wasUpper {
        WithoutUnderscoresAppend(['_'], [ToLower(s[0])]);
      }
    }
  }

  /** A declared name without upper-case letters is its own snake key. */
  lemma {:induction false} SnakeUnchanged(s: string, wasUpper: bool)
    requires HasNoUpper(s)
    ensures SnakeFrom(s, wasUpper) == s
  {
    if s != [] {
      assert s == [s[0]] + s[1..];
      SnakeUnchanged(s[1..], false);
    }
  }

  /** The first letter of an upper-case run gets one '_' in front of it and is lower-cased. */
  lemma SnakeRunStart(a: string, c: char, b: string)
    requires IsUpper(c)
    requires a == [] || !IsUpper(a[|a| - 1])
    ensures SnakeName(a + [c] + b) == SnakeName(a) + ['_', ToLower(c)] + SnakeFrom(b, true)
  {
    assert a + [c] + b == a + ([c] + b);
    SnakeAppend(a, [c] + b, false);
    assert ([c] + b)[1..] == b;
  }

  /** A later letter of an upper-case run is only lower-cased. */
  lemma SnakeRunInside(a: string, c: char, b: string)
    requires IsUpper(c)
    requires a != [] && IsUpper(a[|a| - 1])
    ensures SnakeName(a + [c] + b) == SnakeName(a) + [ToLower(c)] + SnakeFrom(b, true)
  {
    assert a + [c] + b == a + ([c] + b);
    SnakeAppend(a, [c] + b, false);
    assert ([c] + b)[1..] == b;
  }

  /** Every character that is not an upper-case letter is copied unchanged. */
  lemma SnakeKeeps(a: string, c: char, b: string)
    requires !IsUpper(c)
    ensures SnakeName(a + [c] + b) == SnakeName(a) + [c] + SnakeName(b)
  {
    assert a + [c] + b == a + ([c] + b);
    SnakeAppend(a, [c] + b, false);
    assert ([c] + b)[1..] == b;
  }

  /** `snake::count_len`: the loop that counts one extra character at the start of each upper-case run. */
  method SnakeCountLen(s: string) returns (count: nat)
    ensures count == |s| + UpperRuns(s)
    ensures count == |SnakeName(s)|
  {
    count := 0;
    var wasUpper := false;
    for i := 0 to |s|
      invariant count == i + UpperRuns(s[..i])
      invariant wasUpper == UpperAfter(s[..i], false)
    {
      assert s[..i + 1][..i] == s[..i];
      if i > 0 {
        assert s[..i][i - 1] == s[i - 1];
      }
      if IsUpper(s[i]) {
        if !wasUpper {
          wasUpper := true;
          count := count + 1;
        }
      } else {
        wasUpper := false;
      }
      count := count + 1;
    }
    assert s[..|s|] == s;
    SnakeLength(s);
  }

  /** One step of the snake loop: the key of `s[..i + 1]` extends the key of `s[..i]` and stays within the whole key. */
  lemma SnakeStep(s: string, i: nat)
    requires i < |s|
    ensures SnakeName(s[..i + 1]) == SnakeName(s[..i]) + SnakeFrom([s[i]], UpperAfter(s[..i], false))
    ensures UpperAfter(s[..i + 1], false) == IsUpper(s[i])
    ensures |SnakeName(s[..i + 1])| <= |SnakeName(s)|
  {
    assert s[..i + 1] == s[..i] + [s[i]];
    SnakeAppend(s[..i], [s[i]], false);
    assert s == s[..i + 1] + s[i + 1..];
    SnakeAppend(s[..i + 1], s[i + 1..], false);
  }

  /**
    `snake::convert<L>`: fills a zero-initialised `std::array<char, L + 1>`
    through an advancing output index. The caller sizes the array with
    `snake::count_len`, so `L` is at least the key's length.
  */
  method SnakeConvert(L: nat, s: string) returns (res: array<char>)
    requires |s| + UpperRuns(s) <= L
    ensures fresh(res) && res.Length == L + 1
    ensures |SnakeName(s)| <= L && res[..|SnakeName(s)|] == SnakeName(s)
    ensures forall k :: |SnakeName(s)| <= k < res.Length ==> res[k] == '\0'
  {
    res := new char[L + 1](_ => '\0');
    var out := 0;
    var wasUpper := false;
    SnakeLength(s);
    for i := 0 to |s|
      invariant out == |SnakeName(s[..i])| <= |SnakeName(s)|
      invariant res[..out] == SnakeName(s[..i])
      invariant forall k :: out <= k < res.Length ==> res[k] == '\0'
      invariant wasUpper == UpperAfter(s[..i], false)
    {
      var c := s[i];
      SnakeStep(s, i);
      if IsUpper(c) {
        if !wasUpper {
          wasUpper := true;
          res[out] := '_';
          out := out + 1;
        }
        c := ToLower(c);
      } else {
        wasUpper := false;
      }
      res[out] := c;
      out := out + 1;
    }
    assert s[..|s|] == s;
  }

  // ---------------------------------------------------------------------------
  // name_of_field

  /**
    `name_of_field<I, T>`: the interchange key of a field declared as
    `declared` in a record type whose policy is `policy`. The camel and snake
    keys are the converted arrays read up to their terminating NUL.
  */
  function NameOfField(policy: Rename, declared: string): (r: string)
    ensures policy == AsDeclared ==> r == declared
    ensures policy == CamelCase ==>
      '_' !in r && |r| == |WithoutUnderscores(declared)|
      && Lowered(r) == Lowered(WithoutUnderscores(declared))
    ensures policy == SnakeCase ==>
      HasNoUpper(r) && |r| == |declared| + UpperRuns(declared)
      && WithoutUnderscores(r) == WithoutUnderscores(Lowered(declared))
  {
    match policy
    case AsDeclared => declared
    case CamelCase =>
      CamelLength(declared, false);
      CamelLetters(declared, false);
      CamelName(declared)
    case SnakeCase =>
      SnakeLength(declared);
      SnakeNoUpper(declared, false);
      SnakeOnlyInserts(declared, false);
      SnakeName(declared)
  }

  /** A zero-filled array holding `key` in front reads back, up to its first NUL, as `key`. */
  lemma KeyUpToNul(a: seq<char>, key: string)
    requires '\0' !in key && |key| <= |a| && a[..|key|] == key
    requires forall k :: |key| <= k < |a| ==> a[k] == '\0'
    ensures UpToNul(a) == key
  {
    assert a == key + a[|key|..];
    UpToNulPrefix(key, a[|key|..]);
  }

  /** The keys the converted arrays yield through `.data()` are exactly the rewrites, for NUL-free names. */
  method StoredNameOfField(policy: Rename, declared: string) returns (key: string)
    requires '\0' !in declared
    ensures key == NameOfField(policy, declared)
  {
    match policy {
      case AsDeclared =>
        key := declared;
      case CamelCase =>
        var len := CamelCountLen(declared);
        var res := CamelConvert(len, declared);
        CamelNoNul(declared, false);
        KeyUpToNul(res[..], CamelName(declared));
        key := UpToNul(res[..]);
      case SnakeCase =>
        var len := SnakeCountLen(declared);
        var res := SnakeConvert(len, declared);
        SnakeNoNul(declared, false);
        KeyUpToNul(res[..], SnakeName(declared));
        key := UpToNul(res[..]);
    }
  }

  lemma {:induction false} CamelNoNul(s: string, pending: bool)
    requires '\0' !in s
    ensures '\0' !in CamelFrom(s, pending)
  {
    if s != [] {
      CamelNoNul(s[1..], s[0] == '_');
    }
  }

  lemma {:induction false} SnakeNoNul(s: string, wasUpper: bool)
    requires '\0' !in s
    ensures '\0' !in SnakeFrom(s, wasUpper)
  {
    if s != [] {
      SnakeNoNul(s[1..], IsUpper(s[0]));
    }
  }

  /** The keys tests/rename.cpp expects for the camel policy. */
  lemma CamelExamples()
    ensures NameOfField(CamelCase, "my_int") == "myInt"
    ensures NameOfField(CamelCase, "mySecondInt") == "mySecondInt"
  {
    CamelExampleMyInt();
    CamelExampleMySecondInt();
    assert NameOfField(CamelCase, "my_int") == CamelName("my_int");
  }

  lemma CamelExampleMySecondInt()
    ensures CamelName("mySecondInt") == "mySecondInt"
  {
    CamelUnchanged("mySecondInt");
  }

  lemma CamelExampleMyInt()
    ensures CamelName("my_int") == "myInt"
  {
    CamelOneUnderscore("my", 'i', "nt");
    assert "my_int" == "my" + ['_', 'i'] + "nt";
    assert "my" + [ToUpper('i')] + "nt" == "myInt";
  }

  /** One '_' between two stretches without any disappears and upper-cases the character after it. */
  lemma CamelOneUnderscore(a: string, c: char, b: string)
    requires '_' !in a && c != '_' && '_' !in b
    ensures CamelName(a + ['_', c] + b) == a + [ToUpper(c)] + b
  {
    CamelAfterUnderscore(a, c, b);
    CamelUnchanged(a);
    CamelUnchanged(b);
  }

  /** The snake key tests/rename.cpp expects for `my_int`: no upper-case letter, so unchanged. */
  lemma SnakeExampleMyInt()
    ensures SnakeName("my_int") == "my_int"
  {
    assert HasNoUpper("my_int") by {
      forall k | 0 <= k < 6 ensures !IsUpper("my_int"[k]) {
      }
    }
    SnakeUnchanged("my_int", false);
  }

  /** One upper-case letter between two stretches without any becomes '_' and its lower-case form. */
  lemma SnakeOneCapital(a: string, c: char, b: string)
    requires HasNoUpper(a) && IsUpper(c) && HasNoUpper(b)
    ensures SnakeName(a + [c] + b) == a + ['_', ToLower(c)] + b
  {
    SnakeRunStart(a, c, b);
    SnakeUnchanged(a, false);
    SnakeUnchanged(b, true);
  }

  lemma SnakeExampleMySecond()
    ensures SnakeName("mySecond") == "my_second"
  {
    var a, b := "my", "econd";
    assert HasNoUpper(a) by { assert !IsUpper(a[0]) && !IsUpper(a[1]); }
    assert HasNoUpper(b) by { assert !IsUpper(b[0]) && !IsUpper(b[1]) && !IsUpper(b[2]) && !IsUpper(b[3]) && !IsUpper(b[4]); }
    SnakeOneCapital(a, 'S', b);
    assert "mySecond" == a + ['S'] + b;
    assert a + ['_', ToLower('S')] + b == "my_second";
  }

  /** The snake key tests/rename.cpp expects for `mySecondInt`. */
  lemma SnakeExampleMySecondInt()
    ensures SnakeName("mySecondInt") == "my_second_int"
  {
    var prefix, key := "mySecond", "my_second";
    calc {
      SnakeName("mySecondInt");
      { assert "mySecondInt" == prefix + "Int"; }
      SnakeName(prefix + "Int");
      { SnakeExampleMySecond(); SnakeOfIntKey(prefix, key); }
      key + "_int";
      "my_second_int";
    }
  }

  /** The snake key examples/rename.cpp shows for `yourInt`. */
  lemma SnakeExampleYourInt()
    ensures SnakeName("yourInt") == "your_int"
  {
    var a, b := "your", "nt";
    assert HasNoUpper(a) by { assert !IsUpper(a[0]) && !IsUpper(a[1]) && !IsUpper(a[2]) && !IsUpper(a[3]); }
    assert HasNoUpper(b) by { assert !IsUpper(b[0]) && !IsUpper(b[1]); }
    SnakeOneCapital(a, 'I', b);
    assert "yourInt" == a + ['I'] + b;
    assert a + ['_', ToLower('I')] + b == "your_int";
  }

  /** The snake keys tests/rename.cpp and examples/rename.cpp expect. */
  lemma SnakeExamples()
    ensures NameOfField(SnakeCase, "my_int") == "my_int"
    ensures NameOfField(SnakeCase, "mySecondInt") == "my_second_int"
    ensures NameOfField(SnakeCase, "yourInt") == "your_int"
  {
    SnakeExampleMyInt();
    SnakeExampleMySecondInt();
    SnakeExampleYourInt();
  }

  /** A name ending in a lower-case letter followed by `Int` gets `_int` at its end. */
  lemma SnakeOfInt(prefix: string)
    requires prefix != [] && !IsUpper(prefix[|prefix| - 1])
    ensures SnakeName(prefix + "Int") == SnakeName(prefix) + "_int"
  {
    assert prefix + "Int" == prefix + ['I'] + "nt";
    SnakeRunStart(prefix, 'I', "nt");
    SnakeUnchanged("nt", true);
  }

  /** `SnakeOfInt` with the prefix's key already known. */
  lemma SnakeOfIntKey(prefix: string, key: string)
    requires prefix != [] && !IsUpper(prefix[|prefix| - 1]) && SnakeName(prefix) == key
    ensures SnakeName(prefix + "Int") == key + "_int"
  {
    SnakeOfInt(prefix);
  }
}
