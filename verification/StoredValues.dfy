/**
 Values as the Solidity documentation ("Layout of State Variables in Storage") lays them out, byte
 by byte, and what the storage reader makes of them: a whole variable, and the part a path names.
 */
module StoredValues {
  import opened Wrappers
  import opened Text
  import opened AccessPath
  import opened Words
  import opened Primitives
  import opened StorageReader

  // ----- the layout -----

  /** The value `v` of type `t` lies at that slot and byte shift. A mapping has no value of its own. */
  ghost predicate Holds(chain: Chain, slot: nat, shift: nat, t: Type, v: Value)
    requires WellFormed(t)
    decreases t, 0
  {
    match t
    case Primitive(kind, bytes) => v.Leaf? && StoredScalar(chain, slot, shift, kind, bytes, v.scalar)
    case Unreadable(_) => v == Undefined
    case Mapping(_, _) => v == Undefined
    case Struct(_, members) =>
      && v.StructValue? && |v.fields| == |members|
      && forall i :: 0 <= i < |members| ==> HoldsMember(chain, slot, members[i], v.fields[i])
    case StaticArray(_, length, base) => v.ArrayValue? && |v.elements| == length && HoldsElements(chain, slot, base, v.elements)
    case DynamicArray(base) =>
      && v.ArrayValue? && HoldsNumber(chain.storage(slot), 0, 32, |v.elements|)
      && HoldsElements(chain, chain.arrayBase(slot), base, v.elements)
  }

  /** A member lies at its slot, counted from that of the struct, and at its own offset. */
  ghost predicate HoldsMember(chain: Chain, slot: nat, m: Member, field: (string, Value))
    requires WellFormed(m.typ)
    decreases m, 1
  {
    field.0 == m.name && Holds(chain, slot + m.slot, m.offset, m.typ, field.1)
  }

  /** Elements narrower than a slot share slots, as many as fit, from the right; others take whole slots. */
  ghost predicate HoldsElements(chain: Chain, start: nat, base: Type, elements: seq<Value>)
    requires WellFormed(base)
    decreases base, 1
  {
    var bytes := NumberOfBytes(base);
    forall i :: 0 <= i < |elements| ==>
      if bytes < 32 then Holds(chain, start + i / (32 / bytes), i % (32 / bytes) * bytes, base, elements[i])
      else Holds(chain, start + bytes / 32 * i, 0, base, elements[i])
  }

  // ----- reading a whole variable -----

  /** What the reader shows of a value: all of it, but data that fills whole slots loses the last one. */
  function Seen(v: Value): Value {
    match v
    case Leaf(scalar) => Leaf(SeenScalar(scalar))
    case Undefined => Undefined
    case StructValue(fields) => StructValue(seq(|fields|, i requires 0 <= i < |fields| => (fields[i].0, Seen(fields[i].1))))
    case ArrayValue(elements) => ArrayValue(seq(|elements|, i requires 0 <= i < |elements| => Seen(elements[i])))
  }

  lemma ElementPlace(start: nat, bytes: nat, i: nat)
    requires SizeOk(bytes)
    ensures bytes < 32 ==> ElementAt(start, bytes, i) == (start + i / (32 / bytes), i % (32 / bytes) * bytes)
    ensures bytes >= 32 ==> ElementAt(start, bytes, i) == (start + bytes / 32 * i, 0)
  {
  }

  lemma {:induction false} ReadsElements(chain: Chain, start: nat, base: Type, elements: seq<Value>)
    requires WellFormed(base) && HoldsElements(chain, start, base, elements)
    ensures DecodeElements(chain, start, |elements|, base) == seq(|elements|, i requires 0 <= i < |elements| => Seen(elements[i]))
    decreases base, 2
  {
    var bytes, r := NumberOfBytes(base), DecodeElements(chain, start, |elements|, base);
    forall i | 0 <= i < |elements| ensures r[i] == Seen(elements[i]) {
      ElementPlace(start, bytes, i);
      var at := ElementAt(start, bytes, i);
      ReadsStored(chain, at.0, at.1, base, elements[i]);
    }
  }

  lemma {:induction false} ReadsMembers(chain: Chain, slot: nat, t: Type, fields: seq<(string, Value)>)
    requires t.Struct? && WellFormed(t) && Holds(chain, slot, 0, t, StructValue(fields))
    ensures DecodeMembers(chain, slot, t.members) == seq(|fields|, i requires 0 <= i < |fields| => (fields[i].0, Seen(fields[i].1)))
    decreases t, 0
  {
    var r := DecodeMembers(chain, slot, t.members);
    forall i | 0 <= i < |fields| ensures r[i] == (fields[i].0, Seen(fields[i].1)) {
      var m := t.members[i];
      assert HoldsMember(chain, slot, m, fields[i]);
      ReadsStored(chain, slot + m.slot, m.offset, m.typ, fields[i].1);
    }
  }

  lemma HeldLength(chain: Chain, slot: nat, n: nat)
    requires HoldsNumber(chain.storage(slot), 0, 32, n)
    ensures BigEndian(chain.storage(slot)) == n
  {
    HeldNumber(chain, slot, 0, 32, n);
    assert ReadBytes(chain, slot, 0, 32) == chain.storage(slot);
  }

  /** For every type and place: the reader shows the value that lies there. */
  lemma {:induction false} ReadsStored(chain: Chain, slot: nat, shift: nat, t: Type, v: Value)
    requires WellFormed(t) && Holds(chain, slot, shift, t, v)
    ensures Decode(chain, slot, shift, t) == Seen(v)
    decreases t, 1
  {
    match t
    case Primitive(kind, bytes) => ReadsScalar(chain, slot, shift, kind, bytes, v.scalar);
    case Unreadable(_) =>
    case Mapping(_, _) =>
    case Struct(_, _) => ReadsMembers(chain, slot, t, v.fields);
    case StaticArray(_, _, base) => ReadsElements(chain, slot, base, v.elements);
    case DynamicArray(base) =>
      HeldLength(chain, slot, |v.elements|);
      ReadsElements(chain, chain.arrayBase(slot), base, v.elements);
  }

  /** No byte string or text in the value fills whole slots. */
  ghost predicate NoWholeSlots(v: Value) {
    match v
    case Leaf(scalar) => (scalar.Data? || scalar.Characters?) ==> scalar.data == [] || |scalar.data| % 32 != 0
    case Undefined => true
    case StructValue(fields) => forall i :: 0 <= i < |fields| ==> NoWholeSlots(fields[i].1)
    case ArrayValue(elements) => forall i :: 0 <= i < |elements| ==> NoWholeSlots(elements[i])
  }

  lemma {:induction false} SeenIff(v: Value)
    ensures Seen(v) == v <==> NoWholeSlots(v)
  {
    match v
    case Leaf(scalar) => SeenUnlessWholeSlots(scalar);
    case Undefined =>
    case StructValue(fields) =>
      forall i | 0 <= i < |fields| ensures Seen(v).fields[i] == fields[i] <==> NoWholeSlots(fields[i].1) {
        SeenIff(fields[i].1);
      }
      assert Seen(v) == v <==> forall i :: 0 <= i < |fields| ==> Seen(v).fields[i] == fields[i];
    case ArrayValue(elements) =>
      forall i | 0 <= i < |elements| ensures Seen(v).elements[i] == elements[i] <==> NoWholeSlots(elements[i]) {
        SeenIff(elements[i]);
      }
      assert Seen(v) == v <==> forall i :: 0 <= i < |elements| ==> Seen(v).elements[i] == elements[i];
  }

  /** Exactly the values without data that fills whole slots are read back as they are stored. */
  lemma ReadsBackIff(chain: Chain, slot: nat, shift: nat, t: Type, v: Value)
    requires WellFormed(t) && Holds(chain, slot, shift, t, v)
    ensures Decode(chain, slot, shift, t) == v <==> NoWholeSlots(v)
  {
    ReadsStored(chain, slot, shift, t, v);
    SeenIff(v);
  }

  // ----- reading a part -----

  /** Behind `path`, from that place on, lies the value `v`. Paths behind an elementary value are ignored. */
  ghost predicate HoldsAlong(chain: Chain, slot: nat, shift: nat, t: Type, path: seq<string>, v: Value)
    requires WellFormed(t)
    decreases path, 0
  {
    if path == [] then Holds(chain, slot, shift, t, v)
    else
      var key, rest := path[0], path[1..];
      match t
      case Primitive(_, _) => HoldsAlong(chain, slot, shift, t, rest, v)
      case Unreadable(_) => HoldsAlong(chain, slot, shift, t, rest, v)
      case Mapping(keyType, value) => HoldsAlong(chain, chain.entrySlot(key, keyType, slot), 0, value, rest, v)
      case Struct(_, members) =>
        exists i :: 0 <= i < |members| && members[i].name == key &&
          HoldsAlong(chain, slot + members[i].slot, members[i].offset, members[i].typ, rest, v)
      case StaticArray(_, _, base) => ToIndex(chain, key).Some? && HoldsBehind(chain, slot, base, ToIndex(chain, key).value, rest, v)
      case DynamicArray(base) =>
        ToIndex(chain, key).Some? && HoldsBehind(chain, chain.arrayBase(slot), base, ToIndex(chain, key).value, rest, v)
  }

  /** Behind element `i` of an array that starts at `start`. */
  ghost predicate HoldsBehind(chain: Chain, start: nat, base: Type, i: nat, rest: seq<string>, v: Value)
    requires WellFormed(base)
    decreases rest, 1
  {
    var bytes := NumberOfBytes(base);
    if bytes < 32 then HoldsAlong(chain, start + i / (32 / bytes), i % (32 / bytes) * bytes, base, rest, v)
    else HoldsAlong(chain, start + bytes / 32 * i, 0, base, rest, v)
  }

  /** The numeral of a number names that index. */
  lemma IndexOfNumeral(chain: Chain, n: nat)
    ensures ToIndex(chain, Decimal(n)) == Some(n)
  {
    DecimalRoundTrip(n);
  }

  lemma LocateStep(chain: Chain, l: Location, path: seq<string>, next: Location)
    requires WellFormed(l.typ) && path != [] && Into(chain, l, path[0]) == Ok(next)
    ensures WellFormed(next.typ) && Locate(chain, l, path) == Locate(chain, next, path[1..])
  {
  }

  lemma IntoMember(chain: Chain, l: Location, i: nat)
    requires WellFormed(l.typ) && l.typ.Struct? && i < |l.typ.members|
    ensures var m := l.typ.members[i];
      Into(chain, l, m.name) == Ok(Location(l.slot + m.slot, m.offset, m.typ))
  {
    var members := l.typ.members;
    var k := FindMember(members, members[i].name);
    assert k == i;
  }

  /** Entering key `key` of a mapping leads to the slot of that entry, at shift 0. */
  lemma IntoEntry(chain: Chain, slot: nat, shift: nat, keyType: string, value: Type, key: string)
    requires WellFormed(Mapping(keyType, value))
    ensures Into(chain, Location(slot, shift, Mapping(keyType, value)), key) == Ok(Location(chain.entrySlot(key, keyType, slot), 0, value))
  {
  }

  /** For every type, place and path: reading the part shows the value that lies behind the path. */
  lemma {:induction false} ReadsAlong(chain: Chain, l: Location, path: seq<string>, v: Value)
    requires WellFormed(l.typ) && HoldsAlong(chain, l.slot, l.shift, l.typ, path, v)
    ensures DecodeAt(chain, Locate(chain, l, path)) == Ok(Seen(v))
    decreases path, 0
  {
    if path == [] {
      ReadsStored(chain, l.slot, l.shift, l.typ, v);
    } else {
      match l.typ
      case Primitive(_, _) => ReadsAlong(chain, l, path[1..], v);
      case Unreadable(_) => ReadsAlong(chain, l, path[1..], v);
      case Mapping(keyType, value) =>
        var entry := Location(chain.entrySlot(path[0], keyType, l.slot), 0, value);
        IntoEntry(chain, l.slot, l.shift, keyType, value, path[0]);
        LocateStep(chain, l, path, entry);
        ReadsAlong(chain, entry, path[1..], v);
      case Struct(_, members) =>
        var i :| 0 <= i < |members| && members[i].name == path[0] &&
          HoldsAlong(chain, l.slot + members[i].slot, members[i].offset, members[i].typ, path[1..], v);
        var member := Location(l.slot + members[i].slot, members[i].offset, members[i].typ);
        IntoMember(chain, l, i);
        LocateStep(chain, l, path, member);
        ReadsAlong(chain, member, path[1..], v);
      case StaticArray(_, _, base) =>
        ReadsBehind(chain, l.slot, base, path[0], ToIndex(chain, path[0]).value, path[1..], v);
        LocateStep(chain, l, path, IntoElement(chain, l.slot, base, path[0]).value);
      case DynamicArray(base) =>
        ReadsBehind(chain, chain.arrayBase(l.slot), base, path[0], ToIndex(chain, path[0]).value, path[1..], v);
        LocateStep(chain, l, path, IntoElement(chain, chain.arrayBase(l.slot), base, path[0]).value);
    }
  }

  lemma {:induction false} ReadsBehind(chain: Chain, start: nat, base: Type, key: string, i: nat, rest: seq<string>, v: Value)
    requires WellFormed(base) && ToIndex(chain, key) == Some(i) && HoldsBehind(chain, start, base, i, rest, v)
    ensures IntoElement(chain, start, base, key).Ok? && IntoElement(chain, start, base, key).value.typ == base
    ensures DecodeAt(chain, Locate(chain, IntoElement(chain, start, base, key).value, rest)) == Ok(Seen(v))
    decreases rest, 1
  {
    ElementPlace(start, NumberOfBytes(base), i);
    ReadsAlong(chain, IntoElement(chain, start, base, key).value, rest, v);
  }

  /**
   End to end: the printed path of a variable shows the value that lies behind it, through structs,
   arrays and mappings, and shows all of it exactly when no data in it fills whole slots.
   */
  lemma PrintedPathReadsStored(chain: Chain, vars: seq<Variable>, v: Variable, path: seq<Accessor>, w: Value)
    requires (forall u :: u in vars ==> WellFormed(u.typ)) && LastVariable(vars, v.name) == Some(v)
    requires '.' !in v.name && '[' !in v.name && PlainPath(path)
    requires HoldsAlong(chain, v.slot, v.offset, v.typ, Names(path), w)
    ensures Denotation(chain, vars, PrintPath(v.name, path)) == Ok(Seen(w))
    ensures Denotation(chain, vars, PrintPath(v.name, path)) == Ok(w) <==> NoWholeSlots(w)
  {
    PathRoundTrip(v.name, path);
    FirstOfPrinted(v.name, path);
    ReverseReverse(Names(path));
    ReadsAlong(chain, Location(v.slot, v.offset, v.typ), Names(path), w);
    SeenIff(w);
  }
}
