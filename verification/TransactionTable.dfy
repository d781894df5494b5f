/**
 When the generated program compiles: a Yul compiler rejects two functions of one name. The exact
 condition on the field names, and the table the repository ships.
 */
module TransactionTable {
  import opened Text
  import opened Yul
  import opened TransactionUtils
  import opened GeneratedCode

  // ----- the functions of a program by field -----

  /** Number of functions for a word of the head. */
  function FunctionCount(s: Slot): nat {
    if s.FixedSlot? then 1 else 2
  }

  /** What stands behind `get` in the name of function `t` of a word of the head. */
  function Stem(s: Slot, t: nat): string
    requires t < FunctionCount(s)
  {
    Capitalize(s.name) + if s.FixedSlot? then "" else if t == 0 then "Ptr" else "BytesLength"
  }

  lemma SlotFunctionNames(s: Slot, offset: nat, t: nat)
    requires t < FunctionCount(s)
    ensures |SlotFunctions(s, offset)| == FunctionCount(s) && SlotFunctions(s, offset)[t].name == "get" + Stem(s, t)
  {
    var c := Capitalize(s.name);
    assert c + "" == c;
    assert ("get" + c) + "Ptr" == "get" + (c + "Ptr") && ("get" + c) + "BytesLength" == "get" + (c + "BytesLength");
  }

  /** Where the functions of word `k` begin. */
  function Position(slots: seq<Slot>, k: nat): nat
    requires k <= |slots|
  {
    if k == 0 then 0 else Position(slots, k - 1) + FunctionCount(slots[k - 1])
  }

  lemma {:induction false} PositionsAscend(slots: seq<Slot>, k: nat, l: nat)
    requires k < l <= |slots|
    ensures Position(slots, k) + FunctionCount(slots[k]) <= Position(slots, l)
  {
    if k + 1 < l {
      PositionsAscend(slots, k, l - 1);
    }
  }

  lemma SlotFunctionsCount(s: Slot, offset: nat)
    ensures |SlotFunctions(s, offset)| == FunctionCount(s)
  {
  }

  lemma LengthsAdd(before: Program, here: Program, after: Program)
    requires after == before + here
    ensures |after| == |before| + |here|
  {
  }

  lemma {:induction false} AccessorsLength(slots: seq<Slot>, n: nat, p: Program)
    requires n <= |slots| && p == Accessors(slots[..n])
    ensures |p| == Position(slots, n)
  {
    if n > 0 {
      var before, here := Accessors(slots[..n - 1]), SlotFunctions(slots[n - 1], 32 * (n - 1));
      AccessorsLength(slots, n - 1, before);
      AccessorsStep(slots, n - 1, before, here, p);
      SlotFunctionsCount(slots[n - 1], 32 * (n - 1));
      LengthsAdd(before, here, p);
    }
  }

  lemma AccessorAt(slots: seq<Slot>, k: nat, t: nat)
    requires k < |slots| && t < FunctionCount(slots[k])
    ensures var i := Position(slots, k) + t;
      i < |Accessors(slots)| && Accessors(slots)[i].name == "get" + Stem(slots[k], t)
  {
    var before, here, upto := Accessors(slots[..k]), SlotFunctions(slots[k], 32 * k), Accessors(slots[..k + 1]);
    SlotFunctionNames(slots[k], 32 * k, t);
    AccessorsLength(slots, k, before);
    AccessorsStep(slots, k, before, here, upto);
    AccessorsPrefix(slots, k + 1);
    PrefixIndex(upto, Accessors(slots), before, here, t);
  }

  lemma PrefixIndex(upto: Program, all: Program, before: Program, here: Program, t: nat)
    requires upto == before + here && upto <= all && t < |here|
    ensures |before| + t < |all| && all[|before| + t] == here[t]
  {
    assert all[|before| + t] == upto[|before| + t];
  }

  /** Every function before the last two belongs to a word of the head. */
  lemma {:induction false} AccessorOwner(slots: seq<Slot>, n: nat, i: nat) returns (k: nat, t: nat)
    requires n <= |slots| && i < Position(slots, n)
    ensures k < n && t < FunctionCount(slots[k]) && i == Position(slots, k) + t
  {
    if i < Position(slots, n - 1) {
      k, t := AccessorOwner(slots, n - 1, i);
    } else {
      k, t := n - 1, i - Position(slots, n - 1);
    }
  }

  // ----- distinct names -----

  /** No two stems agree, and none is that of the length function. */
  ghost predicate StemsDiffer(slots: seq<Slot>) {
    && (forall k: nat, t: nat, l: nat, u: nat ::
          (k < |slots| && l < |slots| && t < FunctionCount(slots[k]) && u < FunctionCount(slots[l]) && (k != l || t != u)) ==>
            Stem(slots[k], t) != Stem(slots[l], u))
    && (forall k: nat, t: nat :: k < |slots| && t < FunctionCount(slots[k]) ==> Stem(slots[k], t) != "DataLength")
  }

  lemma PrefixCancels(a: string, b: string)
    ensures "get" + a == "get" + b <==> a == b
  {
    assert ("get" + a)[3..] == a && ("get" + b)[3..] == b;
  }

  lemma TwoBehind(a: Program, v: Function, d: Function, p: Program)
    requires p == a + [v, d]
    ensures |p| == |a| + 2 && p[..|p| - 2] == a && p[|p| - 2] == v && p[|p| - 1] == d
  {
  }

  lemma AllLength(slots: seq<Slot>, a: Program)
    requires a == Accessors(slots)
    ensures |a| == Position(slots, |slots|)
  {
    assert slots[..|slots|] == slots;
    AccessorsLength(slots, |slots|, a);
  }

  lemma LastNames(v: Function, d: Function, checks: seq<Stmt>, n: nat, dynamics: seq<(string, DynamicType)>)
    requires v == Validator(checks, n, dynamics) && d == DataLength(n, dynamics)
    ensures v.name == "validateAbiEncoding" && d.name == "get" + "DataLength"
  {
    assert "getDataLength" == "get" + "DataLength";
  }

  lemma GeneratedParts(slots: seq<Slot>, p: Program, a: Program) returns (v: Function, d: Function)
    requires p == Generated(slots) && a == Accessors(slots)
    ensures p == a + [v, d] && v.name == "validateAbiEncoding" && d.name == "get" + "DataLength"
  {
    v, d := Validator(FixedChecks(slots), 32 * |slots|, Dynamics(slots)), DataLength(32 * |slots|, Dynamics(slots));
    LastNames(v, d, FixedChecks(slots), 32 * |slots|, Dynamics(slots));
  }

  lemma LastTwo(slots: seq<Slot>, p: Program)
    requires p == Generated(slots)
    ensures |p| == Position(slots, |slots|) + 2 && p[..|p| - 2] == Accessors(slots)
    ensures p[|p| - 2].name == "validateAbiEncoding" && p[|p| - 1].name == "get" + "DataLength"
  {
    var a := Accessors(slots);
    var v, d := GeneratedParts(slots, p, a);
    TwoBehind(a, v, d, p);
    AllLength(slots, a);
  }

  lemma FunctionAt(slots: seq<Slot>, p: Program, k: nat, t: nat)
    requires p == Generated(slots) && k < |slots| && t < FunctionCount(slots[k])
    ensures var i := Position(slots, k) + t;
      i < |p| - 2 && p[i].name == "get" + Stem(slots[k], t)
  {
    LastTwo(slots, p);
    AccessorAt(slots, k, t);
    assert p[..|p| - 2][Position(slots, k) + t] == Accessors(slots)[Position(slots, k) + t];
  }

  lemma NotTheValidator(stem: string)
    ensures "get" + stem != "validateAbiEncoding" && "get" + "DataLength" != "validateAbiEncoding"
  {
    assert ("get" + stem)[0] == 'g' && ("get" + "DataLength")[0] == 'g' && "validateAbiEncoding"[0] == 'v';
  }

  lemma CompilesGivesStems(slots: seq<Slot>)
    requires Compiles(slots)
    ensures StemsDiffer(slots)
  {
    var p := Generated(slots);
    LastTwo(slots, p);
    forall k: nat, t: nat, l: nat, u: nat |
      k < |slots| && l < |slots| && t < FunctionCount(slots[k]) && u < FunctionCount(slots[l]) && (k != l || t != u)
      ensures Stem(slots[k], t) != Stem(slots[l], u)
    {
      FunctionAt(slots, p, k, t);
      FunctionAt(slots, p, l, u);
      if k < l { PositionsAscend(slots, k, l); }
      if l < k { PositionsAscend(slots, l, k); }
    }
    forall k: nat, t: nat | k < |slots| && t < FunctionCount(slots[k]) ensures Stem(slots[k], t) != "DataLength" {
      FunctionAt(slots, p, k, t);
    }
  }

  lemma NameOfOwner(slots: seq<Slot>, p: Program, i: nat) returns (k: nat, t: nat)
    requires p == Generated(slots) && i < |p| - 2
    ensures k < |slots| && t < FunctionCount(slots[k]) && i == Position(slots, k) + t && p[i].name == "get" + Stem(slots[k], t)
  {
    LastTwo(slots, p);
    k, t := AccessorOwner(slots, |slots|, i);
    FunctionAt(slots, p, k, t);
  }

  lemma OwnersDiffer(slots: seq<Slot>, p: Program, i: nat, j: nat)
    requires StemsDiffer(slots) && p == Generated(slots) && i < j < |p| - 2
    ensures p[i].name != p[j].name
  {
    var k, t := NameOfOwner(slots, p, i);
    var l, u := NameOfOwner(slots, p, j);
    PrefixCancels(Stem(slots[k], t), Stem(slots[l], u));
  }

  lemma LastDiffer(slots: seq<Slot>, p: Program, i: nat)
    requires StemsDiffer(slots) && p == Generated(slots) && i < |p| - 2
    ensures p[i].name != "validateAbiEncoding" && p[i].name != "get" + "DataLength"
  {
    var k, t := NameOfOwner(slots, p, i);
    NotTheValidator(Stem(slots[k], t));
    PrefixCancels(Stem(slots[k], t), "DataLength");
  }

  lemma StemsGiveCompiles(slots: seq<Slot>)
    requires StemsDiffer(slots)
    ensures Compiles(slots)
  {
    var p := Generated(slots);
    LastTwo(slots, p);
    forall i, j | 0 <= i < j < |p| ensures p[i].name != p[j].name {
      NamesDiffer(slots, p, i, j);
    }
  }

  lemma NamesDiffer(slots: seq<Slot>, p: Program, i: nat, j: nat)
    requires StemsDiffer(slots) && p == Generated(slots) && i < j < |p|
    ensures p[i].name != p[j].name
  {
    LastTwo(slots, p);
    if j < |p| - 2 {
      OwnersDiffer(slots, p, i, j);
    } else if i < |p| - 2 {
      LastDiffer(slots, p, i);
    } else {
      NotTheValidator("");
    }
  }

  // ----- the condition on the field names -----

  /** The name of a fixed field does not look like an accessor of a dynamic one, or like the length function. */
  ghost predicate FixedNameClear(slots: seq<Slot>, k: nat)
    requires k < |slots|
  {
    slots[k].FixedSlot? ==>
      && Capitalize(slots[k].name) != "DataLength"
      && forall l :: 0 <= l < |slots| && slots[l].DynamicSlot? ==>
           Capitalize(slots[k].name) != Capitalize(slots[l].name) + "Ptr" && Capitalize(slots[k].name) != Capitalize(slots[l].name) + "BytesLength"
  }

  /** Names of fields of one kind differ also when capitalised, and fixed names are clear of accessors. */
  ghost predicate NamesClear(slots: seq<Slot>) {
    && (forall k, l :: 0 <= k < l < |slots| && (slots[k].FixedSlot? <==> slots[l].FixedSlot?) ==>
          Capitalize(slots[k].name) != Capitalize(slots[l].name))
    && (forall k :: 0 <= k < |slots| ==> FixedNameClear(slots, k))
  }

  lemma SuffixesDiffer(a: string, b: string)
    ensures a + "Ptr" != b + "BytesLength"
    ensures a + "Ptr" != "DataLength" && a + "BytesLength" != "DataLength"
    ensures a + "Ptr" == b + "Ptr" ==> a == b
    ensures a + "BytesLength" == b + "BytesLength" ==> a == b
  {
    var p, q, d := a + "Ptr", b + "BytesLength", "DataLength";
    assert p[|p| - 1] == 'r' && q[|q| - 1] == 'h' && d[|d| - 1] == 'h';
    assert |a + "BytesLength"| >= 11 && |d| == 10;
    assert p[..|a|] == a && (b + "Ptr")[..|b|] == b && q[..|b|] == b && (a + "BytesLength")[..|a|] == a;
  }

  lemma StemCases(s: Slot)
    ensures s.FixedSlot? ==> Stem(s, 0) == Capitalize(s.name)
    ensures s.DynamicSlot? ==> Stem(s, 0) == Capitalize(s.name) + "Ptr" && Stem(s, 1) == Capitalize(s.name) + "BytesLength"
  {
    assert Capitalize(s.name) + "" == Capitalize(s.name);
  }

  lemma ClearStems(slots: seq<Slot>, k: nat, t: nat, l: nat, u: nat)
    requires NamesClear(slots) && k < |slots| && l < |slots|
    requires t < FunctionCount(slots[k]) && u < FunctionCount(slots[l]) && (k != l || t != u)
    ensures Stem(slots[k], t) != Stem(slots[l], u)
  {
    var a, b := slots[k], slots[l];
    StemCases(a);
    StemCases(b);
    SuffixesDiffer(Capitalize(a.name), Capitalize(b.name));
    SuffixesDiffer(Capitalize(b.name), Capitalize(a.name));
    assert FixedNameClear(slots, k) && FixedNameClear(slots, l);
  }

  lemma ClearGivesStems(slots: seq<Slot>)
    requires NamesClear(slots)
    ensures StemsDiffer(slots)
  {
    forall k: nat, t: nat, l: nat, u: nat |
      k < |slots| && l < |slots| && t < FunctionCount(slots[k]) && u < FunctionCount(slots[l]) && (k != l || t != u)
      ensures Stem(slots[k], t) != Stem(slots[l], u)
    {
      ClearStems(slots, k, t, l, u);
    }
    forall k: nat, t: nat | k < |slots| && t < FunctionCount(slots[k]) ensures Stem(slots[k], t) != "DataLength" {
      StemCases(slots[k]);
      SuffixesDiffer(Capitalize(slots[k].name), "");
      assert FixedNameClear(slots, k);
    }
  }

  lemma StemsGiveClear(slots: seq<Slot>)
    requires StemsDiffer(slots)
    ensures NamesClear(slots)
  {
    forall k, l | 0 <= k < l < |slots| && (slots[k].FixedSlot? <==> slots[l].FixedSlot?)
      ensures Capitalize(slots[k].name) != Capitalize(slots[l].name)
    {
      StemCases(slots[k]);
      StemCases(slots[l]);
      assert Stem(slots[k], 0) != Stem(slots[l], 0);
    }
    forall k | 0 <= k < |slots| ensures FixedNameClear(slots, k) {
      FixedStemsClear(slots, k);
    }
  }

  lemma FixedStemsClear(slots: seq<Slot>, k: nat)
    requires StemsDiffer(slots) && k < |slots|
    ensures FixedNameClear(slots, k)
  {
    StemCases(slots[k]);
    if slots[k].FixedSlot? {
      assert Stem(slots[k], 0) != "DataLength";
      forall l | 0 <= l < |slots| && slots[l].DynamicSlot?
        ensures Capitalize(slots[k].name) != Capitalize(slots[l].name) + "Ptr"
        ensures Capitalize(slots[k].name) != Capitalize(slots[l].name) + "BytesLength"
      {
        StemCases(slots[l]);
        assert Stem(slots[k], 0) != Stem(slots[l], 0) && Stem(slots[k], 0) != Stem(slots[l], 1);
      }
    }
  }

  /** For every table: the generated program compiles if and only if the field names are clear. */
  lemma CompilesIff(slots: seq<Slot>)
    ensures Compiles(slots) <==> NamesClear(slots)
  {
    if Compiles(slots) {
      CompilesGivesStems(slots);
      StemsGiveClear(slots);
    }
    if NamesClear(slots) {
      ClearGivesStems(slots);
      StemsGiveCompiles(slots);
    }
  }

  // ----- the table of the repository -----

  /** The fields in front of the reserved words. */
  const LEADING_FIELDS: seq<Field> := [
    Field("txType", Fixed(Uint256)), Field("from", Fixed(Address)), Field("to", Fixed(Address)),
    Field("gasLimit", Fixed(Uint32)), Field("gasPerPubdataByteLimit", Fixed(Uint32)),
    Field("maxFeePerGas", Fixed(Uint256)), Field("maxPriorityFeePerGas", Fixed(Uint256)), Field("paymaster", Fixed(Address))]

  const RESERVED: Field := Field("reserved", FixedList([Uint256, Uint256, Uint256, Uint256, Uint256, Uint256]))

  const DYNAMIC_FIELDS: seq<Field> := [
    Field("data", Dynamic(Bytes)), Field("signature", Dynamic(Bytes)), Field("factoryDeps", Dynamic(Bytes32Array)),
    Field("paymasterInput", Dynamic(Bytes)), Field("reservedDynamic", Dynamic(Bytes))]

  const TRANSACTION_FIELDS: seq<Field> := LEADING_FIELDS + [RESERVED] + DYNAMIC_FIELDS

  const LEADING_SLOTS: seq<Slot> := [
    FixedSlot("txType", Uint256), FixedSlot("from", Address), FixedSlot("to", Address),
    FixedSlot("gasLimit", Uint32), FixedSlot("gasPerPubdataByteLimit", Uint32),
    FixedSlot("maxFeePerGas", Uint256), FixedSlot("maxPriorityFeePerGas", Uint256), FixedSlot("paymaster", Address)]

  const DYNAMIC_SLOTS: seq<Slot> := [
    DynamicSlot("data", Bytes), DynamicSlot("signature", Bytes), DynamicSlot("factoryDeps", Bytes32Array),
    DynamicSlot("paymasterInput", Bytes), DynamicSlot("reservedDynamic", Bytes)]

  lemma FlattenSnoc(a: seq<Field>, f: Field)
    ensures Flatten(a + [f]) == Flatten(a) + FieldSlots(f)
  {
    assert (a + [f])[..|a|] == a;
  }

  ghost predicate TakesOneWord(fields: seq<Field>, slots: seq<Slot>, i: nat)
    requires i < |fields| == |slots|
  {
    FieldSlots(fields[i]) == [slots[i]]
  }

  lemma OneFurther<T>(a: seq<T>, s: seq<T>, n: nat)
    requires 0 < n <= |s|
    ensures a + s[..n] == (a + s[..n - 1]) + [s[n - 1]]
  {
    assert s[..n] == s[..n - 1] + [s[n - 1]];
  }

  lemma SinglesStep(t: seq<Field>, f: Field, slots: seq<Slot>, s: Slot)
    requires Flatten(t) == slots && FieldSlots(f) == [s]
    ensures Flatten(t + [f]) == slots + [s]
  {
    FlattenSnoc(t, f);
  }

  lemma {:induction false} FlattenSinglesUpto(before: seq<Field>, fields: seq<Field>, slots: seq<Slot>, head: seq<Slot>, n: nat,
                                              t: seq<Field>, r: seq<Slot>)
    requires n <= |fields| == |slots| && head == Flatten(before) && t == before + fields[..n] && r == head + slots[..n]
    requires forall i :: 0 <= i < |fields| ==> TakesOneWord(fields, slots, i)
    ensures Flatten(t) == r
  {
    if n == 0 {
      assert t == before && r == head;
    } else {
      var t', r' := before + fields[..n - 1], head + slots[..n - 1];
      FlattenSinglesUpto(before, fields, slots, head, n - 1, t', r');
      assert TakesOneWord(fields, slots, n - 1);
      SinglesStep(t', fields[n - 1], r', slots[n - 1]);
      OneFurther(before, fields, n);
      OneFurther(head, slots, n);
    }
  }

  /** Further fields of one word each. */
  lemma FlattenSingles(before: seq<Field>, fields: seq<Field>, slots: seq<Slot>, head: seq<Slot>)
    requires |fields| == |slots| && (forall i :: 0 <= i < |fields| ==> TakesOneWord(fields, slots, i)) && head == Flatten(before)
    ensures Flatten(before + fields) == head + slots
  {
    assert fields[..|fields|] == fields && slots[..|slots|] == slots;
    FlattenSinglesUpto(before, fields, slots, head, |fields|, before + fields, head + slots);
  }

  function ReservedSlots(): seq<Slot> {
    ListSlots("reserved", RESERVED.typ.list)
  }

  lemma LeadingSlots()
    ensures Flatten(LEADING_FIELDS) == LEADING_SLOTS
  {
    FlattenSingles([], LEADING_FIELDS, LEADING_SLOTS, []);
    assert [] + LEADING_FIELDS == LEADING_FIELDS && [] + LEADING_SLOTS == LEADING_SLOTS;
  }

  lemma TableSlots()
    ensures Flatten(TRANSACTION_FIELDS) == LEADING_SLOTS + ReservedSlots() + DYNAMIC_SLOTS
  {
    LeadingSlots();
    FlattenSnoc(LEADING_FIELDS, RESERVED);
    var head := LEADING_SLOTS + ReservedSlots();
    FlattenSingles(LEADING_FIELDS + [RESERVED], DYNAMIC_FIELDS, DYNAMIC_SLOTS, head);
  }

  lemma {:induction false} ListSlotAt(name: string, list: seq<FixedType>, i: nat)
    requires i < |list|
    ensures |ListSlots(name, list)| == |list| && ListSlots(name, list)[i] == FixedSlot(name + Decimal(i), list[i])
  {
    var n := |list| - 1;
    if n > 0 {
      ListSlotAt(name, list[..n], if i < n then i else 0);
    }
  }

  // ----- names told apart by length and last character -----

  function Last(s: string): char
    requires s != ""
  {
    s[|s| - 1]
  }

  lemma ToldApart(a: string, b: string)
    requires |a| >= 2 && |b| >= 2 && (|a| != |b| || Last(a) != Last(b))
    ensures Capitalize(a) != Capitalize(b)
  {
    assert |Capitalize(a)| == |a| && |Capitalize(b)| == |b|;
    assert Last(Capitalize(a)) == Last(a) && Last(Capitalize(b)) == Last(b);
  }

  /** The name ends neither in `h` nor in `tr`, so it is clear of every accessor. */
  predicate EndsClear(name: string) {
    |name| >= 3 && Last(name) != 'h' && (Last(name) == 'r' ==> name[|name| - 2] != 't')
  }

  lemma EndsClearIsClear(slots: seq<Slot>, k: nat)
    requires k < |slots| && (EndsClear(slots[k].name) || slots[k].name == "to")
    ensures FixedNameClear(slots, k)
  {
    var name, c := slots[k].name, Capitalize(slots[k].name);
    assert |c| == |name| && Last(c) == Last(name) && (|name| >= 3 ==> c[|c| - 2] == name[|name| - 2]);
    forall l | 0 <= l < |slots| ensures c != Capitalize(slots[l].name) + "Ptr" && c != Capitalize(slots[l].name) + "BytesLength" {
      EndingsOf(Capitalize(slots[l].name));
    }
    assert Last("DataLength") == 'h';
  }

  lemma EndingsOf(a: string)
    ensures var p, q := a + "Ptr", a + "BytesLength";
      |p| >= 3 && Last(p) == 'r' && p[|p| - 2] == 't' && Last(q) == 'h'
  {
  }

  /** Length of the names in the order of the head, and their last characters where lengths agree. */
  const LEADING_LENGTHS := [6, 4, 2, 8, 22, 12, 20, 9]

  const DYNAMIC_LENGTHS := [4, 9, 11, 14, 15]

  lemma LeadingNames(k: nat)
    requires k < 8
    ensures |LEADING_SLOTS| == 8 && LEADING_SLOTS[k].FixedSlot? && |LEADING_SLOTS[k].name| == LEADING_LENGTHS[k]
    ensures (EndsClear(LEADING_SLOTS[k].name) || LEADING_SLOTS[k].name == "to") && (k == 7 ==> Last(LEADING_SLOTS[k].name) == 'r')
  {
    assert Last("txType") == 'e' && Last("from") == 'm' && Last("gasLimit") == 't';
    assert Last("gasPerPubdataByteLimit") == 't' && Last("maxFeePerGas") == 's' && Last("maxPriorityFeePerGas") == 's';
    assert Last("paymaster") == 'r' && "paymaster"[7] == 'e';
  }

  lemma ReservedNames(i: nat)
    requires i < 6
    ensures |ReservedSlots()| == 6 && ReservedSlots()[i].FixedSlot?
    ensures |ReservedSlots()[i].name| == 9 && Last(ReservedSlots()[i].name) == DigitChar(i) && EndsClear(ReservedSlots()[i].name)
  {
    ListSlotAt("reserved", RESERVED.typ.list, i);
  }

  lemma DynamicNames(i: nat)
    requires i < 5
    ensures |DYNAMIC_SLOTS| == 5 && DYNAMIC_SLOTS[i].DynamicSlot? && |DYNAMIC_SLOTS[i].name| == DYNAMIC_LENGTHS[i]
  {
  }

  lemma TableSlotNames(slots: seq<Slot>, k: nat)
    requires slots == LEADING_SLOTS + ReservedSlots() + DYNAMIC_SLOTS && k < 19
    ensures |slots| == 19 && (slots[k].FixedSlot? <==> k < 14) && |slots[k].name| >= 2
    ensures k < 8 ==> |slots[k].name| == LEADING_LENGTHS[k]
    ensures 8 <= k < 14 ==> |slots[k].name| == 9 && Last(slots[k].name) == DigitChar(k - 8)
    ensures k >= 14 ==> |slots[k].name| == DYNAMIC_LENGTHS[k - 14]
    ensures k == 7 ==> Last(slots[k].name) == 'r'
    ensures k < 14 ==> EndsClear(slots[k].name) || slots[k].name == "to"
  {
    LeadingNames(if k < 8 then k else 0);
    ReservedNames(if 8 <= k < 14 then k - 8 else 0);
    DynamicNames(if k >= 14 then k - 14 else 0);
  }

  lemma TableNamesDiffer(slots: seq<Slot>, k: nat, l: nat)
    requires slots == LEADING_SLOTS + ReservedSlots() + DYNAMIC_SLOTS && k < l < 19 && (k < 14 <==> l < 14)
    ensures |slots| == 19 && Capitalize(slots[k].name) != Capitalize(slots[l].name)
  {
    TableSlotNames(slots, k);
    TableSlotNames(slots, l);
    ToldApart(slots[k].name, slots[l].name);
  }

  /** The program generated from the repository's table compiles. */
  lemma TransactionFieldsCompile()
    ensures Compiles(Flatten(TRANSACTION_FIELDS))
  {
    var slots := LEADING_SLOTS + ReservedSlots() + DYNAMIC_SLOTS;
    TableSlots();
    TableSlotNames(slots, 0);
    forall k, l | 0 <= k < l < |slots| && (slots[k].FixedSlot? <==> slots[l].FixedSlot?)
      ensures Capitalize(slots[k].name) != Capitalize(slots[l].name)
    {
      TableSlotNames(slots, k);
      TableSlotNames(slots, l);
      TableNamesDiffer(slots, k, l);
    }
    forall k | 0 <= k < |slots| ensures FixedNameClear(slots, k) {
      TableSlotNames(slots, k);
      if k < 14 {
        EndsClearIsClear(slots, k);
      }
    }
    CompilesIff(slots);
  }

  // ----- the names the bootloader calls -----

  const LEADING_STEMS := ["TxType", "From", "To", "GasLimit", "GasPerPubdataByteLimit", "MaxFeePerGas", "MaxPriorityFeePerGas", "Paymaster"]

  const RESERVED_STEMS := ["Reserved0", "Reserved1", "Reserved2", "Reserved3", "Reserved4", "Reserved5"]

  const DYNAMIC_STEMS := ["Data", "Signature", "FactoryDeps", "PaymasterInput", "ReservedDynamic"]

  lemma CapitalizedIs(s: string, c: char, rest: string, whole: string)
    requires s == [c] + rest && whole == [Upper(c)] + rest
    ensures Capitalize(s) == whole
  {
  }

  lemma LeadingStems(k: nat)
    requires k < 8
    ensures |LEADING_SLOTS| == 8 && Capitalize(LEADING_SLOTS[k].name) == LEADING_STEMS[k]
  {
    var name, stem := LEADING_SLOTS[k].name, LEADING_STEMS[k];
    assert name[1..] == stem[1..] && name == [name[0]] + name[1..] && stem == [stem[0]] + stem[1..];
    CapitalizedIs(name, name[0], name[1..], stem);
  }

  lemma ReservedStems(i: nat)
    requires i < 6
    ensures |ReservedSlots()| == 6 && Capitalize(ReservedSlots()[i].name) == RESERVED_STEMS[i]
  {
    ListSlotAt("reserved", RESERVED.typ.list, i);
    var d := Decimal(i);
    assert d == [DigitChar(i)];
    assert "reserved" + d == ['r'] + ("eserved" + d) && "Reserved" + d == ['R'] + ("eserved" + d);
    CapitalizedIs("reserved" + d, 'r', "eserved" + d, "Reserved" + d);
    assert RESERVED_STEMS[i] == "Reserved" + [DigitChar(i)];
  }

  lemma DynamicStems(i: nat)
    requires i < 5
    ensures |DYNAMIC_SLOTS| == 5 && Capitalize(DYNAMIC_SLOTS[i].name) == DYNAMIC_STEMS[i]
  {
    var name, stem := DYNAMIC_SLOTS[i].name, DYNAMIC_STEMS[i];
    assert name[1..] == stem[1..] && name == [name[0]] + name[1..] && stem == [stem[0]] + stem[1..];
    CapitalizedIs(name, name[0], name[1..], stem);
  }

  lemma {:induction false} FixedPosition(slots: seq<Slot>, k: nat)
    requires k <= |slots| && forall i :: 0 <= i < k ==> slots[i].FixedSlot?
    ensures Position(slots, k) == k
  {
    if k > 0 {
      FixedPosition(slots, k - 1);
    }
  }

  lemma {:induction false} DynamicPosition(slots: seq<Slot>, n: nat, k: nat)
    requires n <= k <= |slots| && (forall i :: 0 <= i < n ==> slots[i].FixedSlot?) && forall i :: n <= i < k ==> slots[i].DynamicSlot?
    ensures Position(slots, k) == n + 2 * (k - n)
  {
    if k == n {
      FixedPosition(slots, n);
    } else {
      DynamicPosition(slots, n, k - 1);
    }
  }

  /** Fourteen fixed words, then five dynamic ones. */
  ghost predicate TableKinds(slots: seq<Slot>) {
    |slots| == 19 && forall k :: 0 <= k < 19 ==> (slots[k].FixedSlot? <==> k < 14)
  }

  lemma TableHasKinds(slots: seq<Slot>)
    requires slots == LEADING_SLOTS + ReservedSlots() + DYNAMIC_SLOTS
    ensures TableKinds(slots)
  {
    TableSlotNames(slots, 0);
    forall k | 0 <= k < 19 ensures slots[k].FixedSlot? <==> k < 14 {
      TableSlotNames(slots, k);
    }
  }

  lemma AccessorNamed(slots: seq<Slot>, p: Program, k: nat, t: nat, i: nat, stem: string)
    requires p == Generated(slots) && k < |slots| && t < FunctionCount(slots[k])
    requires i == Position(slots, k) + t && Stem(slots[k], t) == stem
    ensures i < |p| && p[i].name == "get" + stem
  {
    FunctionAt(slots, p, k, t);
  }

  lemma FixedAccessor(slots: seq<Slot>, p: Program, k: nat, stem: string)
    requires TableKinds(slots) && p == Generated(slots) && k < 14 && Capitalize(slots[k].name) == stem
    ensures k < |p| && p[k].name == "get" + stem
  {
    FixedPosition(slots, k);
    StemCases(slots[k]);
    AccessorNamed(slots, p, k, 0, k, stem);
  }

  lemma DynamicAccessors(slots: seq<Slot>, p: Program, k: nat, i: nat, stem: string)
    requires TableKinds(slots) && p == Generated(slots) && 14 <= k < 19 && i == 14 + 2 * (k - 14) && Capitalize(slots[k].name) == stem
    ensures i + 1 < |p| && p[i].name == "get" + (stem + "Ptr") && p[i + 1].name == "get" + (stem + "BytesLength")
  {
    DynamicPosition(slots, 14, k);
    StemCases(slots[k]);
    AccessorNamed(slots, p, k, 0, i, stem + "Ptr");
    AccessorNamed(slots, p, k, 1, i + 1, stem + "BytesLength");
  }

  lemma TableEnd(slots: seq<Slot>, p: Program)
    requires TableKinds(slots) && p == Generated(slots)
    ensures |p| == 26 && p[24].name == "validateAbiEncoding" && p[25].name == "get" + "DataLength"
  {
    LastTwo(slots, p);
    DynamicPosition(slots, 14, 19);
  }

  ghost predicate FixedNamed(p: Program, stems: seq<string>)
    requires |p| == 26 && |stems| == 19
  {
    forall k :: 0 <= k < 14 ==> p[k].name == "get" + stems[k]
  }

  ghost predicate DynamicNamed(p: Program, stems: seq<string>)
    requires |p| == 26 && |stems| == 19
  {
    forall k :: 14 <= k < 19 ==>
      p[2 * k - 14].name == "get" + (stems[k] + "Ptr") && p[2 * k - 13].name == "get" + (stems[k] + "BytesLength")
  }

  /** One getter per fixed field, two accessors per dynamic field, then the validator and the length function. */
  ghost predicate NamedAfter(p: Program, stems: seq<string>) {
    && |p| == 26 && |stems| == 19 && FixedNamed(p, stems) && DynamicNamed(p, stems)
    && p[24].name == "validateAbiEncoding" && p[25].name == "get" + "DataLength"
  }

  lemma FixedNamedAfter(slots: seq<Slot>, p: Program, stems: seq<string>)
    requires TableKinds(slots) && p == Generated(slots) && |p| == 26
    requires |stems| == 19 && forall k :: 0 <= k < 19 ==> Capitalize(slots[k].name) == stems[k]
    ensures FixedNamed(p, stems)
  {
    forall k | 0 <= k < 14 ensures p[k].name == "get" + stems[k] {
      FixedAccessor(slots, p, k, stems[k]);
    }
  }

  lemma DynamicNamedAfter(slots: seq<Slot>, p: Program, stems: seq<string>)
    requires TableKinds(slots) && p == Generated(slots) && |p| == 26
    requires |stems| == 19 && forall k :: 0 <= k < 19 ==> Capitalize(slots[k].name) == stems[k]
    ensures DynamicNamed(p, stems)
  {
    forall k | 14 <= k < 19
      ensures p[2 * k - 14].name == "get" + (stems[k] + "Ptr") && p[2 * k - 13].name == "get" + (stems[k] + "BytesLength")
    {
      DynamicAccessors(slots, p, k, 2 * k - 14, stems[k]);
    }
  }

  lemma AccessorsNamedAfter(slots: seq<Slot>, p: Program, stems: seq<string>)
    requires TableKinds(slots) && p == Generated(slots)
    requires |stems| == 19 && forall k :: 0 <= k < 19 ==> Capitalize(slots[k].name) == stems[k]
    ensures NamedAfter(p, stems)
  {
    TableEnd(slots, p);
    FixedNamedAfter(slots, p, stems);
    DynamicNamedAfter(slots, p, stems);
  }

  const STEMS: seq<string> := LEADING_STEMS + RESERVED_STEMS + DYNAMIC_STEMS

  lemma ThreePartsAt<T>(a: seq<T>, b: seq<T>, c: seq<T>, all: seq<T>, k: nat)
    requires all == a + b + c && k < |all|
    ensures all[k] == if k < |a| then a[k] else if k < |a| + |b| then b[k - |a|] else c[k - |a| - |b|]
  {
  }

  lemma TableStems(slots: seq<Slot>, k: nat)
    requires slots == LEADING_SLOTS + ReservedSlots() + DYNAMIC_SLOTS && k < 19
    ensures |slots| == 19 && |STEMS| == 19 && Capitalize(slots[k].name) == STEMS[k]
  {
    LeadingStems(if k < 8 then k else 0);
    ReservedStems(if 8 <= k < 14 then k - 8 else 0);
    DynamicStems(if k >= 14 then k - 14 else 0);
    ThreePartsAt(LEADING_SLOTS, ReservedSlots(), DYNAMIC_SLOTS, slots, k);
    ThreePartsAt(LEADING_STEMS, RESERVED_STEMS, DYNAMIC_STEMS, STEMS, k);
  }

  /** The functions generated from the repository's table, by name and in order. */
  lemma TransactionAccessors()
    ensures NamedAfter(Generated(Flatten(TRANSACTION_FIELDS)), STEMS)
  {
    var slots := LEADING_SLOTS + ReservedSlots() + DYNAMIC_SLOTS;
    TableSlots();
    TableHasKinds(slots);
    forall k | 0 <= k < 19 ensures |STEMS| == 19 && Capitalize(slots[k].name) == STEMS[k] {
      TableStems(slots, k);
    }
    TableStems(slots, 0);
    AccessorsNamedAfter(slots, Generated(slots), STEMS);
  }
}
