/**
 The generator of the bootloader's transaction utilities: from a table of fields it emits getters,
 pointer getters, length getters, a validator of the encoding and a length function.
 */
module TransactionUtils {
  import opened Wrappers
  import opened Text
  import opened Yul

  datatype FixedType = Address | Uint256 | Uint128 | Uint32

  datatype DynamicType = Bytes | Bytes32Array

  datatype FieldType = Fixed(fixed: FixedType) | FixedList(list: seq<FixedType>) | Dynamic(dynamic: DynamicType)

  datatype Field = Field(name: string, typ: FieldType)

  /** One word of the head of the encoding. */
  datatype Slot = FixedSlot(name: string, fixed: FixedType) | DynamicSlot(name: string, dynamic: DynamicType)

  const EXPECTED := "expectedDynamicLenPtr"

  // ----- names -----

  function Upper(c: char): char {
    if 'a' <= c <= 'z' then (c as int - 'a' as int + 'A' as int) as char else c
  }

  function Capitalize(s: string): string {
    if s == "" then s else [Upper(s[0])] + s[1..]
  }

  function GetterName(name: string): string { "get" + Capitalize(name) }

  function PtrGetterName(name: string): string { "get" + Capitalize(name) + "Ptr" }

  function BytesLengthGetterName(name: string): string { "get" + Capitalize(name) + "BytesLength" }

  function FixedValidator(t: FixedType): string {
    match t
    case Address => "validateAddress"
    case Uint256 => "validateUint256"
    case Uint128 => "validateUint128"
    case Uint32 => "validateUint32"
  }

  function DynamicValidator(t: DynamicType): string {
    match t
    case Bytes => "validateBytes"
    case Bytes32Array => "validateBytes32Array"
  }

  /** Error strings must fit a word. */
  function EncodingError(name: string): Result<string> {
    var message := "Encoding " + name;
    if |message| > 32 then Err("Assertion str too long: " + message) else Ok(message)
  }

  // ----- emitters -----

  function MemPosFromOffset(offset: nat): Expr {
    if offset == 0 then Var(OFFSET) else Add(Var(OFFSET), Lit(offset))
  }

  function Getter(name: string, offset: nat): Function {
    Function(GetterName(name), [Set("ret", MLoad(MemPosFromOffset(offset)))])
  }

  function PtrGetter(name: string, offset: nat): Function {
    Function(PtrGetterName(name), [
      Set("ret", MLoad(MemPosFromOffset(offset))),
      Set("ret", Add(Var(OFFSET), Var("ret")))])
  }

  function BytesLengthGetter(name: string, t: DynamicType): Function {
    Function(BytesLengthGetterName(name), [
      Let("ptr", Call(PtrGetterName(name), Var(OFFSET))),
      Set("ret", match t
                 case Bytes => Call("lengthToWords", MLoad(Var("ptr")))
                 case Bytes32Array => Mul(MLoad(Var("ptr")), Lit(32)))])
  }

  function LengthAdders(dynamics: seq<(string, DynamicType)>): seq<Stmt> {
    if dynamics == [] then []
    else
      var n := |dynamics| - 1;
      LengthAdders(dynamics[..n]) + [Set("ret", Add(Var("ret"), Call(BytesLengthGetterName(dynamics[n].0), Var(OFFSET))))]
  }

  function DataLength(baseLength: nat, dynamics: seq<(string, DynamicType)>): Function {
    Function("getDataLength", [Set("ret", Lit(baseLength + |dynamics| * 32))] + LengthAdders(dynamics))
  }

  function ValidateFixedSizeField(name: string, t: FixedType): Result<seq<Stmt>> {
    if t == Uint256 then Ok([])
    else match EncodingError(name)
      case Err(e) => Err(e)
      case Ok(message) => Ok(FixedCheck(name, t, message))
  }

  function FixedCheck(name: string, t: FixedType, message: string): seq<Stmt> {
    [Let(name + "Value", Call(GetterName(name), Var(OFFSET))),
     IfError(IsZero(Call(FixedValidator(t), Var(name + "Value"))), message)]
  }

  function DynamicCheck(name: string, t: DynamicType): seq<Stmt> {
    [Let(name + "LengthPos", Call(PtrGetterName(name), Var(OFFSET))),
     IfError(IsZero(Eq(Var(name + "LengthPos"), Var(EXPECTED))), "Encoding " + name),
     Set(EXPECTED, Call(DynamicValidator(t), Var(name + "LengthPos")))]
  }

  function DynamicChecks(dynamics: seq<(string, DynamicType)>): seq<Stmt> {
    if dynamics == [] then []
    else
      var n := |dynamics| - 1;
      DynamicChecks(dynamics[..n]) + DynamicCheck(dynamics[n].0, dynamics[n].1)
  }

  function ValidateTxStructure(fixedChecks: seq<Stmt>, fixedLenPart: nat, dynamics: seq<(string, DynamicType)>): Result<Function>
  {
    if exists i :: 0 <= i < |dynamics| && EncodingError(dynamics[i].0).Err? then Err("Assertion str too long")
    else Ok(Validator(fixedChecks, fixedLenPart, dynamics))
  }

  function Validator(fixedChecks: seq<Stmt>, fixedLenPart: nat, dynamics: seq<(string, DynamicType)>): Function {
    Function("validateAbiEncoding",
      fixedChecks + [Let(EXPECTED, Add(Var(OFFSET), Lit(fixedLenPart)))] + DynamicChecks(dynamics))
  }

  // ----- what is generated, word by word of the head -----

  /** The head of the encoding: list fields take one word per element. */
  function Flatten(table: seq<Field>): seq<Slot> {
    if table == [] then [] else Flatten(table[..|table| - 1]) + FieldSlots(table[|table| - 1])
  }

  /** What one field adds to the head. */
  function FieldSlots(f: Field): seq<Slot> {
    match f.typ
    case Fixed(t) => [FixedSlot(f.name, t)]
    case FixedList(list) => ListSlots(f.name, list)
    case Dynamic(t) => [DynamicSlot(f.name, t)]
  }

  function ListSlots(name: string, list: seq<FixedType>): seq<Slot> {
    if list == [] then []
    else
      var n := |list| - 1;
      ListSlots(name, list[..n]) + [FixedSlot(name + Decimal(n), list[n])]
  }

  function SlotFunctions(s: Slot, offset: nat): seq<Function> {
    match s
    case FixedSlot(name, _) => [Getter(name, offset)]
    case DynamicSlot(name, t) => [PtrGetter(name, offset), BytesLengthGetter(name, t)]
  }

  function Accessors(slots: seq<Slot>): Program {
    if slots == [] then []
    else
      var n := |slots| - 1;
      Accessors(slots[..n]) + SlotFunctions(slots[n], 32 * n)
  }

  function SlotCheck(s: Slot): seq<Stmt> {
    if s.FixedSlot? && s.fixed != Uint256 then FixedCheck(s.name, s.fixed, "Encoding " + s.name) else []
  }

  function FixedChecks(slots: seq<Slot>): seq<Stmt> {
    if slots == [] then []
    else FixedChecks(slots[..|slots| - 1]) + SlotCheck(slots[|slots| - 1])
  }

  function Dynamics(slots: seq<Slot>): seq<(string, DynamicType)> {
    if slots == [] then []
    else
      var s := slots[|slots| - 1];
      Dynamics(slots[..|slots| - 1]) + if s.DynamicSlot? then [(s.name, s.dynamic)] else []
  }

  function Generated(slots: seq<Slot>): Program {
    Accessors(slots) +
      [Validator(FixedChecks(slots), 32 * |slots|, Dynamics(slots)), DataLength(32 * |slots|, Dynamics(slots))]
  }

  /** A field that gets an error string has a name of at most 23 characters. */
  predicate NameFits(s: Slot) {
    s == FixedSlot(s.name, Uint256) || |s.name| <= 23
  }

  predicate NamesFit(slots: seq<Slot>) {
    forall k :: 0 <= k < |slots| ==> NameFits(slots[k])
  }

  // ----- the generator -----

  /** The variables the generator's loop updates. */
  datatype Emission = Emission(
    result: Program, checks: seq<Stmt>, innerOffsetBytes: nat, dynamicFields: seq<(string, DynamicType)>)

  ghost predicate Emits(e: Emission, slots: seq<Slot>) {
    && e.result == Accessors(slots) && e.checks == FixedChecks(slots)
    && e.innerOffsetBytes == 32 * |slots| && e.dynamicFields == Dynamics(slots)
    && forall k :: 0 <= k < |slots| && slots[k].FixedSlot? ==> NameFits(slots[k])
  }

  function EmitFixed(e: Emission, name: string, t: FixedType): Result<Emission> {
    match ValidateFixedSizeField(name, t)
    case Err(error) => Err(error)
    case Ok(check) =>
      Ok(Emission(e.result + [Getter(name, e.innerOffsetBytes)], e.checks + check, e.innerOffsetBytes + 32, e.dynamicFields))
  }

  function EmitDynamic(e: Emission, name: string, t: DynamicType): Emission {
    Emission(e.result + [PtrGetter(name, e.innerOffsetBytes), BytesLengthGetter(name, t)],
             e.checks, e.innerOffsetBytes + 32, e.dynamicFields + [(name, t)])
  }

  /** Extending the table by one word of head. */
  lemma Snoc(slots: seq<Slot>, s: Slot)
    ensures Accessors(slots + [s]) == Accessors(slots) + SlotFunctions(s, 32 * |slots|)
    ensures FixedChecks(slots + [s]) == FixedChecks(slots) + SlotCheck(s)
    ensures Dynamics(slots + [s]) == Dynamics(slots) + if s.DynamicSlot? then [(s.name, s.dynamic)] else []
  {
    assert (slots + [s])[..|slots|] == slots;
  }

  lemma EmitFixedStep(e: Emission, slots: seq<Slot>, name: string, t: FixedType)
    requires Emits(e, slots)
    ensures EmitFixed(e, name, t).Ok? <==> NameFits(FixedSlot(name, t))
    ensures EmitFixed(e, name, t).Ok? ==> Emits(EmitFixed(e, name, t).value, slots + [FixedSlot(name, t)])
  {
    Snoc(slots, FixedSlot(name, t));
  }

  lemma EmitDynamicStep(e: Emission, slots: seq<Slot>, name: string, t: DynamicType)
    requires Emits(e, slots)
    ensures Emits(EmitDynamic(e, name, t), slots + [DynamicSlot(name, t)])
  {
    Snoc(slots, DynamicSlot(name, t));
  }

  /** One more element of a list of fixed-size fields. */
  lemma EmitListStep(e: Emission, slots: seq<Slot>, name: string, list: seq<FixedType>, i: nat)
    requires i < |list| && Emits(e, slots + ListSlots(name, list[..i]))
    ensures var next, s := EmitFixed(e, name + Decimal(i), list[i]), FixedSlot(name + Decimal(i), list[i]);
      && (next.Ok? <==> NameFits(s))
      && (next.Ok? ==> Emits(next.value, slots + ListSlots(name, list[..i + 1])))
    ensures ListSlots(name, list[..i + 1]) == ListSlots(name, list[..i]) + [FixedSlot(name + Decimal(i), list[i])]
  {
    assert list[..i + 1][..i] == list[..i];
    var s, now := FixedSlot(name + Decimal(i), list[i]), ListSlots(name, list[..i]);
    EmitFixedStep(e, slots + now, name + Decimal(i), list[i]);
    assert (slots + now) + [s] == slots + (now + [s]);
  }

  lemma MisfitInList(name: string, list: seq<FixedType>, i: nat)
    requires i < |list| && !NameFits(FixedSlot(name + Decimal(i), list[i]))
    ensures !NamesFit(ListSlots(name, list))
  {
    assert list[..i + 1][..i] == list[..i];
    ListSlotsPrefix(name, list, i + 1);
    assert ListSlots(name, list)[|ListSlots(name, list[..i])|] == FixedSlot(name + Decimal(i), list[i]);
  }

  lemma NamesFitSnoc(slots: seq<Slot>, s: Slot)
    requires NamesFit(slots) && NameFits(s)
    ensures NamesFit(slots + [s])
  {
  }

  method EmitList(e0: Emission, name: string, list: seq<FixedType>, ghost slots: seq<Slot>) returns (r: Result<Emission>)
    requires Emits(e0, slots)
    ensures r.Ok? <==> NamesFit(ListSlots(name, list))
    ensures r.Ok? ==> Emits(r.value, slots + ListSlots(name, list))
  {
    var e := e0;
    ghost var now: seq<Slot> := [];
    assert slots + now == slots;
    for i := 0 to |list|
      invariant now == ListSlots(name, list[..i]) && Emits(e, slots + now) && NamesFit(now)
    {
      EmitListStep(e, slots, name, list, i);
      var next := EmitFixed(e, name + Decimal(i), list[i]);
      if next.Err? {
        MisfitInList(name, list, i);
        return Err(next.error);
      }
      NamesFitSnoc(now, FixedSlot(name + Decimal(i), list[i]));
      now := ListSlots(name, list[..i + 1]);
      e := next.value;
    }
    assert list[..|list|] == list;
    r := Ok(e);
  }

  /** One field of the table. */
  method EmitField(e: Emission, f: Field, ghost slots: seq<Slot>) returns (r: Result<Emission>)
    requires Emits(e, slots)
    ensures r.Ok? ==> Emits(r.value, slots + FieldSlots(f))
    ensures r.Err? ==> !NamesFit(FieldSlots(f))
  {
    match f.typ
    case FixedList(list) =>
      r := EmitList(e, f.name, list, slots);
    case Fixed(t) =>
      EmitFixedStep(e, slots, f.name, t);
      r := EmitFixed(e, f.name, t);
      assert FieldSlots(f)[0] == FixedSlot(f.name, t);
    case Dynamic(t) =>
      EmitDynamicStep(e, slots, f.name, t);
      r := Ok(EmitDynamic(e, f.name, t));
  }

  method GetTransactionUtils(table: seq<Field>) returns (r: Result<Program>)
    ensures r.Ok? <==> NamesFit(Flatten(table))
    ensures r.Ok? ==> r.value == Generated(Flatten(table))
  {
    var e := Emission([], [], 0, []);
    assert table[..|table|] == table;
    for i := 0 to |table|
      invariant Emits(e, Flatten(table[..i]))
    {
      FlattenStep(table, i);
      var next := EmitField(e, table[i], Flatten(table[..i]));
      if next.Err? {
        MisfitInTable(table, i);
        return Err(next.error);
      }
      e := next.value;
    }
    r := EmitEnd(e, Flatten(table));
  }

  /** The validator and the length function behind the accessors. */
  method EmitEnd(e: Emission, ghost slots: seq<Slot>) returns (r: Result<Program>)
    requires Emits(e, slots)
    ensures r.Ok? <==> NamesFit(slots)
    ensures r.Ok? ==> r.value == Generated(slots)
  {
    var validator := ValidateTxStructure(e.checks, e.innerOffsetBytes, e.dynamicFields);
    StructureFits(e, slots);
    if validator.Err? {
      return Err(validator.error);
    }
    var result := e.result + [validator.value];
    result := result + [DataLength(e.innerOffsetBytes, e.dynamicFields)];
    assert result == Generated(slots);
    r := Ok(result);
  }

  lemma {:induction false} DynamicsMembers(slots: seq<Slot>)
    ensures forall d :: d in Dynamics(slots) ==> DynamicSlot(d.0, d.1) in slots
    ensures forall s :: s in slots && s.DynamicSlot? ==> (s.name, s.dynamic) in Dynamics(slots)
  {
    if slots != [] {
      var n := |slots| - 1;
      DynamicsMembers(slots[..n]);
      assert slots == slots[..n] + [slots[n]];
    }
  }

  lemma StructureFits(e: Emission, slots: seq<Slot>)
    requires Emits(e, slots)
    ensures ValidateTxStructure(e.checks, e.innerOffsetBytes, e.dynamicFields).Ok? <==> NamesFit(slots)
  {
    DynamicsMembers(slots);
    var d := Dynamics(slots);
    if NamesFit(slots) {
      forall i | 0 <= i < |d| ensures EncodingError(d[i].0).Ok? {
        assert d[i] in d;
        assert NameFits(DynamicSlot(d[i].0, d[i].1));
      }
    } else {
      var k :| 0 <= k < |slots| && !NameFits(slots[k]);
      assert slots[k] in slots;
      assert (slots[k].name, slots[k].dynamic) in d;
      var i :| 0 <= i < |d| && d[i] == (slots[k].name, slots[k].dynamic);
      assert EncodingError(d[i].0).Err?;
    }
  }

  lemma {:induction false} FlattenPrefix(table: seq<Field>, i: nat)
    requires i <= |table|
    ensures Flatten(table[..i]) <= Flatten(table)
    decreases |table| - i
  {
    if i < |table| {
      FlattenPrefix(table, i + 1);
      assert table[..i + 1][..i] == table[..i];
    } else {
      assert table[..i] == table;
    }
  }

  lemma FlattenStep(table: seq<Field>, i: nat)
    requires i < |table|
    ensures Flatten(table[..i + 1]) == Flatten(table[..i]) + FieldSlots(table[i])
  {
    assert table[..i + 1][..i] == table[..i];
  }

  lemma MisfitInPart(before: seq<Slot>, here: seq<Slot>, all: seq<Slot>)
    requires before + here <= all && !NamesFit(here)
    ensures !NamesFit(all)
  {
    var k :| 0 <= k < |here| && !NameFits(here[k]);
    assert all[|before| + k] == (before + here)[|before| + k] == here[k];
  }

  lemma MisfitInTable(table: seq<Field>, i: nat)
    requires i < |table| && !NamesFit(FieldSlots(table[i]))
    ensures !NamesFit(Flatten(table))
  {
    FlattenStep(table, i);
    FlattenPrefix(table, i + 1);
    MisfitInPart(Flatten(table[..i]), FieldSlots(table[i]), Flatten(table));
  }

  lemma {:induction false} ListSlotsPrefix(name: string, list: seq<FixedType>, j: nat)
    requires j <= |list|
    ensures ListSlots(name, list[..j]) <= ListSlots(name, list)
    decreases |list| - j
  {
    if j < |list| {
      ListSlotsPrefix(name, list, j + 1);
      assert list[..j + 1][..j] == list[..j];
    } else {
      assert list[..j] == list;
    }
  }
}
