/**
 The storage-layout reader: decoding a whole Solidity variable from raw slots, and decoding only
 the part an access path names. Both are tied to one layout, that of the Solidity documentation
 ("Layout of State Variables in Storage"): array elements narrower than a slot share slots and
 never cross one, wider elements take whole slots, dynamic arrays live at the hash of their slot.
 */
module StorageReader {
  import opened Wrappers
  import opened Arithmetic
  import opened Text
  import opened AccessPath
  import opened Words
  import opened Primitives

  const BAD_STRUCT_FIELD := "Invalid field name of struct"
  const BAD_INDEX := "Invalid index"

  /** The type table, unfolded into a tree. The reader knows nothing of contract and function types. */
  datatype Type =
    | Primitive(kind: Kind, bytes: nat)
    | Unreadable(bytes: nat)
    | Struct(bytes: nat, members: seq<Member>)
    | StaticArray(bytes: nat, length: nat, base: Type)
    | DynamicArray(base: Type)
    | Mapping(keyType: string, value: Type)

  datatype Member = Member(name: string, slot: nat, offset: nat, typ: Type)

  datatype Value =
    | Leaf(scalar: Scalar)
    | Undefined
    | StructValue(fields: seq<(string, Value)>)
    | ArrayValue(elements: seq<Value>)

  datatype Location = Location(slot: nat, shift: nat, typ: Type)

  function NumberOfBytes(t: Type): nat {
    match t
    case Primitive(_, bytes) => bytes
    case Unreadable(bytes) => bytes
    case Struct(bytes, _) => bytes
    case StaticArray(bytes, _, _) => bytes
    case DynamicArray(_) => 32
    case Mapping(_, _) => 32
  }

  /** Sizes the compiler emits: narrow types fit a slot, all others fill whole slots. */
  predicate SizeOk(bytes: nat) {
    1 <= bytes < 32 || (bytes >= 32 && bytes % 32 == 0)
  }

  ghost predicate DistinctLabels(members: seq<Member>) {
    forall i, j :: 0 <= i < j < |members| ==> members[i].name != members[j].name
  }

  ghost predicate WellFormed(t: Type) {
    && SizeOk(NumberOfBytes(t))
    && match t
       case Primitive(kind, bytes) => KindOk(kind, bytes)
       case Unreadable(_) => true
       case Struct(_, members) =>
         && DistinctLabels(members)
         && forall i :: 0 <= i < |members| ==> WellFormed(members[i].typ)
       case StaticArray(_, _, base) => WellFormed(base)
       case DynamicArray(base) => WellFormed(base)
       case Mapping(_, value) => WellFormed(value)
  }

  // ----- the layout -----

  /** Slot and byte shift of element `i` of an array starting at `start`. */
  function ElementAt(start: nat, bytes: nat, i: nat): (nat, nat)
    requires SizeOk(bytes)
  {
    if bytes < 32 then
      (start + i / (32 / bytes), bytes * (i % (32 / bytes)))
    else
      (start + i * (bytes / 32), 0)
  }

  function ArrayStart(chain: Chain, slot: nat, t: Type): nat {
    if t.DynamicArray? then chain.arrayBase(slot) else slot
  }

  function ArrayLength(chain: Chain, slot: nat, t: Type): nat
    requires t.StaticArray? || t.DynamicArray?
  {
    if t.DynamicArray? then BigEndian(chain.storage(slot)) else t.length
  }

  function SetField(fields: seq<(string, Value)>, name: string, v: Value): seq<(string, Value)> {
    if fields == [] then [(name, v)]
    else if fields[0].0 == name then [(name, v)] + fields[1..]
    else [fields[0]] + SetField(fields[1..], name, v)
  }

  lemma {:induction false} SetFieldAppends(fields: seq<(string, Value)>, name: string, v: Value)
    requires forall i :: 0 <= i < |fields| ==> fields[i].0 != name
    ensures SetField(fields, name, v) == fields + [(name, v)]
  {
    if fields != [] {
      SetFieldAppends(fields[1..], name, v);
    }
  }

  /** The value of a variable, element by element, at the places the layout assigns. */
  function Decode(chain: Chain, slot: nat, shift: nat, t: Type): Value
    requires WellFormed(t)
    decreases t, 1
  {
    match t
    case Primitive(kind, bytes) => Leaf(PrimitiveAt(chain, slot, shift, kind, bytes))
    case Unreadable(_) => Undefined
    case Mapping(_, _) => Undefined
    case Struct(_, members) => StructValue(DecodeMembers(chain, slot, members))
    case StaticArray(_, length, base) => ArrayValue(DecodeElements(chain, slot, length, base))
    case DynamicArray(base) => ArrayValue(DecodeElements(chain, chain.arrayBase(slot), BigEndian(chain.storage(slot)), base))
  }

  function DecodeElements(chain: Chain, start: nat, n: nat, base: Type): (r: seq<Value>)
    requires WellFormed(base)
    ensures |r| == n
    ensures forall i :: 0 <= i < n ==>
      var (s, sh) := ElementAt(start, NumberOfBytes(base), i);
      r[i] == Decode(chain, s, sh, base)
    decreases base, 2
  {
    seq(n, i requires 0 <= i < n =>
      var (s, sh) := ElementAt(start, NumberOfBytes(base), i);
      Decode(chain, s, sh, base))
  }

  function DecodeMembers(chain: Chain, slot: nat, members: seq<Member>): (r: seq<(string, Value)>)
    requires DistinctLabels(members)
    requires forall i :: 0 <= i < |members| ==> WellFormed(members[i].typ)
    ensures |r| == |members|
    ensures forall i :: 0 <= i < |members| ==>
      r[i] == (members[i].name, Decode(chain, slot + members[i].slot, members[i].offset, members[i].typ))
    decreases members, 0
  {
    seq(|members|, i requires 0 <= i < |members| =>
      (members[i].name, Decode(chain, slot + members[i].slot, members[i].offset, members[i].typ)))
  }

  // ----- reading a whole variable -----

  /** Quotient and remainder, one further. */
  lemma NextIndex(i: nat, q: nat, d: nat, r: nat)
    requires q >= 1 && i > 0 && d == (i - 1) / q && r == (i - 1) % q
    ensures if r + 1 == q then i / q == d + 1 && i % q == 0 else i / q == d && i % q == r + 1
  {
    assert i == q * d + (r + 1);
    if r + 1 == q {
      assert q * (d + 1) == q * d + q;
      DivModUnique(i, q, d + 1, 0);
    } else {
      DivModUnique(i, q, d, r + 1);
    }
  }

  /**
   The incremental walk over packed elements: advancing by the element size, and to the next slot
   when the element would not fit, reaches exactly the place the layout assigns to index `i`.
   */
  lemma PackedStep(start: nat, bytes: nat, i: nat)
    requires 1 <= bytes < 32 && i > 0
    ensures var (slot, shift) := ElementAt(start, bytes, i - 1);
      ElementAt(start, bytes, i) ==
      if shift + bytes + bytes > 32 then (slot + 1, 0) else (slot, shift + bytes)
  {
    var q := 32 / bytes;
    PackedStepAt(start, bytes, i, q, (i - 1) / q, (i - 1) % q);
  }

  lemma PackedStepAt(start: nat, bytes: nat, i: nat, q: nat, d: nat, r: nat)
    requires 1 <= bytes < 32 && i > 0 && q == 32 / bytes && d == (i - 1) / q && r == (i - 1) % q
    ensures (start + i / q, bytes * (i % q)) ==
      if bytes * r + bytes + bytes > 32 then (start + d + 1, 0) else (start + d, bytes * r + bytes)
  {
    AtLeastOne(bytes, q);
    PlaceStep(start, bytes, i, q, d, r);
    FullAfter(bytes, q, r, bytes * r, bytes * (r + 1));
  }

  lemma AtLeastOne(bytes: nat, q: nat)
    requires 1 <= bytes < 32 && q == 32 / bytes
    ensures q >= 1
  {
    assert 32 == bytes * q + 32 % bytes;
  }

  lemma PlaceStep(start: nat, bytes: nat, i: nat, q: nat, d: nat, r: nat)
    requires q >= 1 && i > 0 && d == (i - 1) / q && r == (i - 1) % q
    ensures (start + i / q, bytes * (i % q)) == if r + 1 == q then (start + d + 1, 0) else (start + d, bytes * (r + 1))
  {
    NextIndex(i, q, d, r);
  }

  /** The slot is full after element `r` of it exactly when no further element fits. */
  lemma FullAfter(bytes: nat, q: nat, r: nat, shift: nat, shift': nat)
    requires 1 <= bytes < 32 && q == 32 / bytes && r < q && shift == bytes * r && shift' == bytes * (r + 1)
    ensures shift' == shift + bytes
    ensures shift + bytes + bytes > 32 <==> r + 1 == q
  {
    assert bytes * (r + 2) == bytes * r + bytes + bytes;
    PackedFits(bytes, q, r + 2);
  }

  /** `k` elements fit a slot exactly when `k` is at most `32 / bytes`. */
  lemma PackedFits(bytes: nat, q: nat, k: nat)
    requires 1 <= bytes < 32 && q == 32 / bytes
    ensures bytes * k <= 32 <==> k <= q
  {
    assert 32 == bytes * q + 32 % bytes;
    if k <= q {
      assert bytes * k <= bytes * q by { assert bytes * (q - k) >= 0; assert bytes * (q - k) == bytes * q - bytes * k; }
    } else {
      assert bytes * (k - q) >= bytes;
      assert bytes * (k - q) == bytes * k - bytes * q;
    }
  }

  /** No packed element crosses a slot, and two indices never share bytes. */
  lemma PackedDisjoint(start: nat, bytes: nat, i: nat, j: nat)
    requires 1 <= bytes < 32 && i < j
    ensures var (si, hi) := ElementAt(start, bytes, i); hi + bytes <= 32
    ensures var (si, hi) := ElementAt(start, bytes, i); var (sj, hj) := ElementAt(start, bytes, j);
      si < sj || (si == sj && hi + bytes <= hj)
    decreases j - i
  {
    var q := 32 / bytes;
    assert bytes * (i % q) + bytes == bytes * (i % q + 1);
    PackedFits(bytes, q, i % q + 1);
    PackedStep(start, bytes, j);
    if i + 1 < j {
      PackedDisjoint(start, bytes, i, j - 1);
    }
  }

  /** The bytes of the element at `a` all lie before those of the element at `b`. */
  ghost predicate Before(bytes: nat, a: (nat, nat), b: (nat, nat)) {
    if bytes < 32 then a.0 < b.0 || (a.0 == b.0 && a.1 + bytes <= b.1) else a.0 + bytes / 32 <= b.0
  }

  lemma ElementsInOrder(start: nat, bytes: nat, i: nat, j: nat)
    requires SizeOk(bytes) && i < j
    ensures Before(bytes, ElementAt(start, bytes, i), ElementAt(start, bytes, j))
  {
    if bytes < 32 {
      PackedDisjoint(start, bytes, i, j);
    } else {
      var k := bytes / 32;
      MulMonotone(k, i + 1, j);
      assert (i + 1) * k == i * k + k;
    }
  }

  method ReadVariable(chain: Chain, slot: nat, shift: nat, t: Type) returns (v: Value)
    requires WellFormed(t)
    ensures v == Decode(chain, slot, shift, t)
    decreases t, 1
  {
    match t
    case StaticArray(_, _, _) => v := ReadArray(chain, slot, t);
    case DynamicArray(_) => v := ReadArray(chain, slot, t);
    case Struct(_, _) => v := ReadStruct(chain, slot, t);
    case Primitive(kind, bytes) =>
      var scalar := ReadPrimitive(chain, slot, shift, kind, bytes);
      v := Leaf(scalar);
    case Unreadable(_) => v := Undefined;
    case Mapping(_, _) => v := Undefined;
  }

  method ReadStruct(chain: Chain, slot: nat, t: Type) returns (v: Value)
    requires t.Struct? && WellFormed(t)
    ensures forall shift: nat :: v == Decode(chain, slot, shift, t)
    decreases t, 0
  {
    var data: seq<(string, Value)> := [];
    ghost var want := DecodeMembers(chain, slot, t.members);
    for i := 0 to |t.members|
      invariant data == want[..i]
    {
      var m := t.members[i];
      var value := ReadVariable(chain, slot + m.slot, m.offset, m.typ);
      SetFieldAppends(data, m.name, value);
      data := SetField(data, m.name, value);
    }
    v := StructValue(data);
  }

  method ReadArray(chain: Chain, slot: nat, t: Type) returns (v: Value)
    requires (t.StaticArray? || t.DynamicArray?) && WellFormed(t)
    ensures forall shift: nat :: v == Decode(chain, slot, shift, t)
    decreases t, 0
  {
    var length, cursor;
    if t.DynamicArray? {
      length := ReadNumber(chain, slot, 0, false, 32);
      assert length == BigEndian(chain.storage(slot)) by { assert ReadBytes(chain, slot, 0, 32) == chain.storage(slot); }
      cursor := chain.arrayBase(slot);
    } else {
      length := t.length;
      cursor := slot;
    }
    var data;
    if NumberOfBytes(t.base) < 32 {
      data := ReadPacked(chain, cursor, length, t.base);
    } else {
      data := ReadWide(chain, cursor, length, t.base);
    }
    v := ArrayValue(data);
  }

  method ReadPacked(chain: Chain, start: nat, length: nat, base: Type) returns (data: seq<Value>)
    requires WellFormed(base) && NumberOfBytes(base) < 32
    ensures data == DecodeElements(chain, start, length, base)
    decreases base, 2
  {
    var baseBytes: int := NumberOfBytes(base);
    var shift, cursor := -baseBytes, start;
    data := [];
    for i := 0 to length
      invariant Walked(start, baseBytes, i, cursor, shift)
      invariant data == DecodeElements(chain, start, i, base)
    {
      ghost var was := (cursor, shift);
      shift := shift + baseBytes;
      if shift + baseBytes > 32 {
        shift := 0;
        cursor := cursor + 1;
      }
      WalkOn(start, baseBytes, i, was.0, was.1, cursor, shift);
      var e := ReadVariable(chain, cursor, shift, base);
      NextElement(chain, start, i, base, cursor, shift);
      data := data + [e];
    }
  }

  /** The walk in front of element `i`: still at the place of the element before it. */
  ghost predicate Walked(start: nat, bytes: nat, i: nat, cursor: nat, shift: int)
    requires 1 <= bytes < 32
  {
    if i == 0 then cursor == start && shift + bytes == 0 else (cursor, shift) == ElementAt(start, bytes, i - 1)
  }

  lemma WalkOn(start: nat, bytes: nat, i: nat, cursor: nat, shift: int, cursor': nat, shift': int)
    requires 1 <= bytes < 32 && Walked(start, bytes, i, cursor, shift)
    requires if shift + bytes + bytes > 32 then cursor' == cursor + 1 && shift' == 0 else cursor' == cursor && shift' == shift + bytes
    ensures (cursor', shift') == ElementAt(start, bytes, i) && Walked(start, bytes, i + 1, cursor', shift')
  {
    if i > 0 {
      PackedStep(start, bytes, i);
    }
  }

  lemma NextElement(chain: Chain, start: nat, i: nat, base: Type, slot: nat, shift: nat)
    requires WellFormed(base) && (slot, shift) == ElementAt(start, NumberOfBytes(base), i)
    ensures DecodeElements(chain, start, i + 1, base) == DecodeElements(chain, start, i, base) + [Decode(chain, slot, shift, base)]
  {
  }

  method ReadWide(chain: Chain, start: nat, length: nat, base: Type) returns (data: seq<Value>)
    requires WellFormed(base) && NumberOfBytes(base) >= 32
    ensures data == DecodeElements(chain, start, length, base)
    decreases base, 2
  {
    var baseBytes, cursor := NumberOfBytes(base), start;
    data := [];
    for i := 0 to length
      invariant (cursor, 0) == ElementAt(start, baseBytes, i)
      invariant data == DecodeElements(chain, start, i, base)
    {
      var e := ReadVariable(chain, cursor, 0, base);
      data := data + [e];
      cursor := cursor + baseBytes / 32;
      assert (i + 1) * (baseBytes / 32) == i * (baseBytes / 32) + baseBytes / 32;
    }
  }

  // ----- navigating an access path -----

  /** `+text`; the empty text denotes zero, as in JavaScript. */
  function ToIndex(chain: Chain, text: string): Option<nat> {
    if AllDigits(text) then Some(DecimalValue(text)) else chain.number(text)
  }

  /** Index of the first member of that name, or the number of members: `members.find(label === name)`. */
  function FindMember(members: seq<Member>, name: string): (i: nat)
    ensures i <= |members|
    ensures i < |members| ==> members[i].name == name
    ensures forall k :: 0 <= k < i ==> members[k].name != name
  {
    if members == [] || members[0].name == name then 0 else 1 + FindMember(members[1..], name)
  }

  function MemberLocation(slot: nat, m: Member): Location {
    Location(slot + m.slot, m.offset, m.typ)
  }

  /** One step of navigation, by the layout alone. */
  function Into(chain: Chain, l: Location, key: string): (r: Result<Location>)
    requires WellFormed(l.typ)
    ensures r.Ok? ==> WellFormed(r.value.typ)
  {
    match l.typ
    case Primitive(_, _) => Ok(l)
    case Unreadable(_) => Ok(l)
    case Mapping(keyType, value) => Ok(Location(chain.entrySlot(key, keyType, l.slot), 0, value))
    case Struct(_, members) =>
      var i := FindMember(members, key);
      if i == |members| then Err(BAD_STRUCT_FIELD) else Ok(MemberLocation(l.slot, members[i]))
    case StaticArray(_, _, base) => IntoElement(chain, l.slot, base, key)
    case DynamicArray(base) => IntoElement(chain, chain.arrayBase(l.slot), base, key)
  }

  function IntoElement(chain: Chain, start: nat, base: Type, key: string): Result<Location>
    requires WellFormed(base)
  {
    var index := ToIndex(chain, key);
    if index.None? then Err(BAD_INDEX)
    else
      var (slot, shift) := ElementAt(start, NumberOfBytes(base), index.value);
      Ok(Location(slot, shift, base))
  }

  /** Where in storage a path leads; nothing is left to enter behind a primitive. */
  function Locate(chain: Chain, l: Location, path: seq<string>): (r: Result<Location>)
    requires WellFormed(l.typ)
    ensures r.Ok? ==> WellFormed(r.value.typ)
    decreases path
  {
    if path == [] then Ok(l)
    else match Into(chain, l, path[0])
      case Ok(next) => Locate(chain, next, path[1..])
      case Err(e) => Err(e)
  }

  lemma {:induction false} LocatePrimitive(chain: Chain, l: Location, path: seq<string>)
    requires (l.typ.Primitive? || l.typ.Unreadable?) && WellFormed(l.typ)
    ensures Locate(chain, l, path) == Ok(l)
  {
    if path != [] {
      LocatePrimitive(chain, l, path[1..]);
    }
  }

  function DecodeAt(chain: Chain, l: Result<Location>): Result<Value>
    requires l.Ok? ==> WellFormed(l.value.typ)
  {
    match l
    case Ok(loc) => Ok(Decode(chain, loc.slot, loc.shift, loc.typ))
    case Err(e) => Err(e)
  }

  lemma {:induction false} ReversePop<T>(params: seq<T>)
    requires params != []
    ensures Reverse(params) == [params[|params| - 1]] + Reverse(params[..|params| - 1])
  {
    var r := [params[|params| - 1]] + Reverse(params[..|params| - 1]);
    assert forall i :: 0 <= i < |params| ==> Reverse(params)[i] == r[i];
  }

  method ReadPartOfVariable(chain: Chain, slot: nat, shift: nat, t: Type, params: seq<string>)
    returns (r: Result<Value>)
    requires WellFormed(t)
    ensures r == DecodeAt(chain, Locate(chain, Location(slot, shift, t), Reverse(params)))
    decreases params, 1
  {
    if |params| == 0 {
      var v := ReadVariable(chain, slot, shift, t);
      return Ok(v);
    }
    ReversePop(params);
    match t
    case StaticArray(_, _, _) => r := ReadPartOfArray(chain, slot, t, params);
    case DynamicArray(_) => r := ReadPartOfArray(chain, slot, t, params);
    case Struct(_, _) => r := ReadPartOfStruct(chain, slot, t, params);
    case Mapping(_, _) => r := ReadPartOfMap(chain, slot, t, params);
    case Primitive(kind, bytes) =>
      LocatePrimitive(chain, Location(slot, shift, t), Reverse(params));
      var scalar := ReadPrimitive(chain, slot, shift, kind, bytes);
      r := Ok(Leaf(scalar));
    case Unreadable(_) =>
      LocatePrimitive(chain, Location(slot, shift, t), Reverse(params));
      r := Ok(Undefined);
  }

  lemma LocateFirst(chain: Chain, l: Location, key: string, rest: seq<string>)
    requires WellFormed(l.typ)
    ensures Into(chain, l, key).Err? ==> Locate(chain, l, [key] + rest) == Err(Into(chain, l, key).error)
    ensures Into(chain, l, key).Ok? ==> Locate(chain, l, [key] + rest) == Locate(chain, Into(chain, l, key).value, rest)
  {
    assert ([key] + rest)[1..] == rest;
  }

  method ReadPartOfStruct(chain: Chain, slot: nat, t: Type, params: seq<string>) returns (r: Result<Value>)
    requires t.Struct? && WellFormed(t) && params != []
    ensures forall shift: nat :: r == DecodeAt(chain, Locate(chain, Location(slot, shift, t), Reverse(params)))
    decreases params, 0
  {
    var last, rest := params[|params| - 1], params[..|params| - 1];
    ReversePop(params);
    forall shift: nat { LocateFirst(chain, Location(slot, shift, t), last, Reverse(rest)); }
    var i := FindMember(t.members, last);
    if i == |t.members| {
      return Err(BAD_STRUCT_FIELD);
    }
    var member := t.members[i];
    r := ReadPartOfVariable(chain, slot + member.slot, member.offset, member.typ, rest);
  }

  method ReadPartOfMap(chain: Chain, slot: nat, t: Type, params: seq<string>) returns (r: Result<Value>)
    requires t.Mapping? && WellFormed(t) && params != []
    ensures forall shift: nat :: r == DecodeAt(chain, Locate(chain, Location(slot, shift, t), Reverse(params)))
    decreases params, 0
  {
    var key, rest := params[|params| - 1], params[..|params| - 1];
    ReversePop(params);
    forall shift: nat { LocateFirst(chain, Location(slot, shift, t), key, Reverse(rest)); }
    r := ReadPartOfVariable(chain, chain.entrySlot(key, t.keyType, slot), 0, t.value, rest);
  }

  lemma LocateElement(chain: Chain, slot: nat, shift: nat, t: Type, key: string, rest: seq<string>)
    requires (t.StaticArray? || t.DynamicArray?) && WellFormed(t)
    ensures WellFormed(t.base)
    ensures ToIndex(chain, key).None? ==> Locate(chain, Location(slot, shift, t), [key] + rest) == Err(BAD_INDEX)
    ensures ToIndex(chain, key).Some? ==>
      var at := ElementAt(ArrayStart(chain, slot, t), NumberOfBytes(t.base), ToIndex(chain, key).value);
      Locate(chain, Location(slot, shift, t), [key] + rest) == Locate(chain, Location(at.0, at.1, t.base), rest)
  {
    LocateFirst(chain, Location(slot, shift, t), key, rest);
  }

  /** What the parameters denote: the last one is the index, the others lead on from the element. */
  lemma LocatePart(chain: Chain, slot: nat, shift: nat, t: Type, params: seq<string>, index: Option<nat>, rest: seq<string>)
    requires (t.StaticArray? || t.DynamicArray?) && WellFormed(t) && params != [] && rest == params[..|params| - 1]
    requires index == ToIndex(chain, params[|params| - 1])
    ensures WellFormed(t.base)
    ensures index.None? ==> Locate(chain, Location(slot, shift, t), Reverse(params)) == Err(BAD_INDEX)
    ensures index.Some? ==>
      var at := ElementAt(ArrayStart(chain, slot, t), NumberOfBytes(t.base), index.value);
      Locate(chain, Location(slot, shift, t), Reverse(params)) == Locate(chain, Location(at.0, at.1, t.base), Reverse(rest))
  {
    ReversePop(params);
    LocateElement(chain, slot, shift, t, params[|params| - 1], Reverse(rest));
  }

  method ReadPartOfArray(chain: Chain, slot: nat, t: Type, params: seq<string>) returns (r: Result<Value>)
    requires (t.StaticArray? || t.DynamicArray?) && WellFormed(t) && params != []
    ensures forall shift: nat :: r == DecodeAt(chain, Locate(chain, Location(slot, shift, t), Reverse(params)))
    decreases params, 0
  {
    var last, rest := params[|params| - 1], params[..|params| - 1];
    var index := ToIndex(chain, last);
    forall shift: nat { LocatePart(chain, slot, shift, t, params, index, rest); }
    if index.None? {
      return Err(BAD_INDEX);
    }
    var start := if t.DynamicArray? then chain.arrayBase(slot) else slot;
    assert start == ArrayStart(chain, slot, t) && WellFormed(t.base);
    var baseBytes := NumberOfBytes(t.base);
    var elementSlot, elementShift;
    if baseBytes < 32 {
      var inOne := 32 / baseBytes;
      elementSlot, elementShift := start + index.value / inOne, baseBytes * (index.value % inOne);
    } else {
      elementSlot, elementShift := start + index.value * baseBytes / 32, 0;
    }
    ElementByIndex(start, baseBytes, index.value);
    r := ReadPartOfVariable(chain, elementSlot, elementShift, t.base, rest);
  }

  lemma ElementByIndex(start: nat, bytes: nat, index: nat)
    requires SizeOk(bytes)
    ensures bytes < 32 ==> ElementAt(start, bytes, index) == (start + index / (32 / bytes), bytes * (index % (32 / bytes)))
    ensures bytes >= 32 ==> ElementAt(start, bytes, index) == (start + index * bytes / 32, 0)
  {
    if bytes >= 32 {
      WideIndex(index, bytes);
    }
  }

  lemma WideIndex(index: nat, bytes: nat)
    requires bytes % 32 == 0
    ensures index * bytes / 32 == index * (bytes / 32)
  {
    var k := bytes / 32;
    assert index * bytes == 32 * (index * k) by {
      assert bytes == 32 * k;
    }
  }

  // ----- the part is the projection of the whole -----

  datatype Projection = Found(value: Value) | NoSuchMember | NotAnIndex | OutOfRange | NoWholeRead

  /** Index of the first field of that name, or the number of fields. */
  function Lookup(fields: seq<(string, Value)>, name: string): (i: nat)
    ensures i <= |fields|
    ensures i < |fields| ==> fields[i].0 == name
    ensures forall k :: 0 <= k < i ==> fields[k].0 != name
  {
    if fields == [] || fields[0].0 == name then 0 else 1 + Lookup(fields[1..], name)
  }

  /** One step into an already decoded value. */
  function Enter(chain: Chain, v: Value, key: string): Projection {
    match v
    case Leaf(_) => Found(v)
    case Undefined => NoWholeRead
    case StructValue(fields) =>
      var i := Lookup(fields, key);
      if i == |fields| then NoSuchMember else Found(fields[i].1)
    case ArrayValue(elements) =>
      var index := ToIndex(chain, key);
      if index.None? then NotAnIndex
      else if index.value >= |elements| then OutOfRange
      else Found(elements[index.value])
  }

  /** Following a path inside an already decoded value. */
  function Project(chain: Chain, v: Value, path: seq<string>): Projection {
    if path == [] then Found(v)
    else match Enter(chain, v, path[0])
      case Found(w) => Project(chain, w, path[1..])
      case failure => failure
  }

  /** What reading a part has to return, given how the path fares inside the whole value. */
  ghost predicate Agrees(part: Result<Value>, p: Projection) {
    match p
    case Found(v) => part == Ok(v)
    case NoSuchMember => part == Err(BAD_STRUCT_FIELD)
    case NotAnIndex => part == Err(BAD_INDEX)
    case OutOfRange => true
    case NoWholeRead => true
  }

  /** A name has the same index among the members and among their values. */
  lemma LookupMember(members: seq<Member>, fields: seq<(string, Value)>, name: string)
    requires |fields| == |members| && forall k :: 0 <= k < |fields| ==> fields[k].0 == members[k].name
    ensures Lookup(fields, name) == FindMember(members, name)
  {
  }

  lemma MemberStep(chain: Chain, l: Location, key: string)
    requires WellFormed(l.typ) && l.typ.Struct?
    ensures Agrees(DecodeAt(chain, Into(chain, l, key)), Enter(chain, Decode(chain, l.slot, l.shift, l.typ), key))
  {
    var members, fields := l.typ.members, DecodeMembers(chain, l.slot, l.typ.members);
    LookupMember(members, fields, key);
    MemberFields(chain, l.slot, members, fields, FindMember(members, key));
  }

  lemma MemberFields(chain: Chain, slot: nat, members: seq<Member>, fields: seq<(string, Value)>, i: nat)
    requires DistinctLabels(members) && (forall k :: 0 <= k < |members| ==> WellFormed(members[k].typ))
    requires fields == DecodeMembers(chain, slot, members)
    ensures |fields| == |members|
    ensures i < |members| ==> DecodeAt(chain, Ok(MemberLocation(slot, members[i]))) == Ok(fields[i].1)
  {
  }

  /** One step into storage and one step into the decoded value lead to the same place. */
  lemma StepsAgree(chain: Chain, l: Location, key: string)
    requires WellFormed(l.typ)
    ensures Agrees(DecodeAt(chain, Into(chain, l, key)), Enter(chain, Decode(chain, l.slot, l.shift, l.typ), key))
  {
    if l.typ.Struct? {
      MemberStep(chain, l, key);
    }
  }

  /**
   One index, of an array of any kind: reading the part never fails. It is the element of the whole
   array if and only if the index is below the length; at or past the length it decodes the place
   behind all elements that the index formula names.
   */
  lemma ReadIndex(chain: Chain, l: Location, key: string)
    requires WellFormed(l.typ) && (l.typ.StaticArray? || l.typ.DynamicArray?) && ToIndex(chain, key).Some?
    ensures WellFormed(l.typ.base)
    ensures var start, bytes, index := ArrayStart(chain, l.slot, l.typ), NumberOfBytes(l.typ.base), ToIndex(chain, key).value;
      var at, entered := ElementAt(start, bytes, index), Enter(chain, Decode(chain, l.slot, l.shift, l.typ), key);
      && DecodeAt(chain, Into(chain, l, key)) == Ok(Decode(chain, at.0, at.1, l.typ.base))
      && (entered == Found(Decode(chain, at.0, at.1, l.typ.base)) <==> index < ArrayLength(chain, l.slot, l.typ))
      && (index >= ArrayLength(chain, l.slot, l.typ) ==>
            && entered == OutOfRange
            && forall i :: 0 <= i < ArrayLength(chain, l.slot, l.typ) ==> Before(bytes, ElementAt(start, bytes, i), at))
  {
    var start, bytes, index := ArrayStart(chain, l.slot, l.typ), NumberOfBytes(l.typ.base), ToIndex(chain, key).value;
    forall i | 0 <= i < index ensures Before(bytes, ElementAt(start, bytes, i), ElementAt(start, bytes, index)) {
      ElementsInOrder(start, bytes, i, index);
    }
  }

  /**
   Reading a part and projecting the whole agree: along every path that stays inside the decoded
   value the reader finds exactly the projected value, and it fails on every path that names a
   missing member or a non-numeric index before leaving that value.
   */
  lemma {:induction false} PartIsProjection(chain: Chain, l: Location, path: seq<string>)
    requires WellFormed(l.typ)
    ensures Agrees(DecodeAt(chain, Locate(chain, l, path)), Project(chain, Decode(chain, l.slot, l.shift, l.typ), path))
    decreases path
  {
    if path != [] {
      StepsAgree(chain, l, path[0]);
      var next := Into(chain, l, path[0]);
      if next.Ok? {
        PartIsProjection(chain, next.value, path[1..]);
      }
    }
  }

  /**
   Navigation composes. Behind a mapping, where no whole read exists, `PartIsProjection` therefore
   still applies from the mapping's entry on.
   */
  lemma {:induction false} LocateComposes(chain: Chain, l: Location, p: seq<string>, q: seq<string>)
    requires WellFormed(l.typ)
    ensures Locate(chain, l, p + q) ==
      match Locate(chain, l, p)
      case Ok(m) => Locate(chain, m, q)
      case Err(e) => Err(e)
    decreases p
  {
    if p == [] {
      assert p + q == q;
    } else {
      assert (p + q)[0] == p[0] && (p + q)[1..] == p[1..] + q;
      var next := Into(chain, l, p[0]);
      if next.Ok? {
        LocateComposes(chain, next.value, p[1..], q);
      }
    }
  }

  /**
   Where projecting the whole leaves an array, the reader goes on: up to the step `n` it has found
   an array, the index is at or past that array's length, and the reader enters the place that
   `ReadIndex` describes.
   */
  lemma {:induction false} OverrunOnPath(chain: Chain, l: Location, path: seq<string>) returns (n: nat, a: Location)
    requires WellFormed(l.typ) && Project(chain, Decode(chain, l.slot, l.shift, l.typ), path) == OutOfRange
    ensures n < |path| && Locate(chain, l, path[..n]) == Ok(a) && WellFormed(a.typ) && (a.typ.StaticArray? || a.typ.DynamicArray?)
    ensures ToIndex(chain, path[n]).Some? && ToIndex(chain, path[n]).value >= ArrayLength(chain, a.slot, a.typ)
    ensures Into(chain, a, path[n]).Ok? && Locate(chain, l, path[..n + 1]) == Into(chain, a, path[n])
    decreases path
  {
    StepsAgree(chain, l, path[0]);
    var entered := Enter(chain, Decode(chain, l.slot, l.shift, l.typ), path[0]);
    if entered == OutOfRange {
      n, a := 0, l;
      assert path[..1] == [path[0]] + [];
      LocateFirst(chain, l, path[0], []);
    } else {
      var next := Into(chain, l, path[0]).value;
      var m;
      m, a := OverrunOnPath(chain, next, path[1..]);
      n := m + 1;
      LocateFirst(chain, l, path[0], path[1..][..m]);
      LocateFirst(chain, l, path[0], path[1..][..m + 1]);
      assert path[..n] == [path[0]] + path[1..][..m];
      assert path[..n + 1] == [path[0]] + path[1..][..m + 1];
    }
  }

  /**
   The range condition cannot be dropped: an index at or past the length is not checked, and the
   reader returns whatever the next slots hold.
   */
  lemma OverrunReadsNeighbour(chain: Chain, slot: nat)
    ensures var t := StaticArray(64, 2, Primitive(Unsigned, 32));
      && Project(chain, Decode(chain, slot, 0, t), ["2"]) == OutOfRange
      && DecodeAt(chain, Locate(chain, Location(slot, 0, t), ["2"])) == Ok(Leaf(Number(BigEndian(chain.storage(slot + 2)))))
  {
    assert "2"[..0] == [];
    assert DecimalValue("2") == 2;
    var p := Primitive(Unsigned, 32);
    assert ReadBytes(chain, slot + 2, 0, 32) == chain.storage(slot + 2);
    assert ElementAt(slot, 32, 2) == (slot + 2, 0);
    assert ["2"][1..] == [];
    assert Locate(chain, Location(slot + 2, 0, p), []) == Ok(Location(slot + 2, 0, p));
  }

  // ----- the command -----

  datatype Variable = Variable(name: string, slot: nat, offset: nat, typ: Type)

  predicate IsLast(vars: seq<Variable>, k: nat, name: string, v: Variable) {
    k < |vars| && vars[k] == v && v.name == name && forall j :: k < j < |vars| ==> vars[j].name != name
  }

  /** The last variable of that name, as the `forEach` over the layout leaves it. */
  function LastVariable(vars: seq<Variable>, name: string): (r: Option<Variable>)
    ensures r.Some? ==> exists k: nat :: IsLast(vars, k, name, r.value)
    ensures r.None? ==> forall i :: 0 <= i < |vars| ==> vars[i].name != name
  {
    if vars == [] then None
    else
      var n := |vars| - 1;
      if vars[n].name == name then
        assert IsLast(vars, n, name, vars[n]);
        Some(vars[n])
      else
        var r := LastVariable(vars[..n], name);
        assert forall k: nat :: r.Some? && IsLast(vars[..n], k, name, r.value) ==> IsLast(vars, k, name, r.value);
        r
  }

  /** What a full name denotes: nothing for a malformed name or an unknown variable. */
  ghost function Denotation(chain: Chain, vars: seq<Variable>, fullName: string): (r: Result<Value>)
    requires forall v :: v in vars ==> WellFormed(v.typ)
  {
    var params := ParsedName(fullName);
    var v := LastVariable(vars, fullName[..FirstDelimiter(fullName)]);
    if params.None? || v.None? then Err(BAD_NAME)
    else DecodeAt(chain, Locate(chain, Location(v.value.slot, v.value.offset, v.value.typ), Reverse(params.value)))
  }

  method GetValue(chain: Chain, vars: seq<Variable>, fullName: string) returns (r: Result<Value>)
    requires forall v :: v in vars ==> WellFormed(v.typ)
    ensures r.Ok? <==> Denotation(chain, vars, fullName).Ok?
    ensures r.Ok? ==> r == Denotation(chain, vars, fullName)
  {
    var variableName := GetVariableName(fullName);
    var params := ParseName(fullName);
    if params.Err? {
      return Err(params.error);
    }
    var variable: Option<Variable> := None;
    for i := 0 to |vars|
      invariant variable == LastVariable(vars[..i], variableName)
    {
      assert vars[..i + 1][..i] == vars[..i];
      if vars[i].name == variableName {
        variable := Some(vars[i]);
      }
    }
    assert vars[..|vars|] == vars;
    if variable.None? {
      return Err(BAD_NAME);
    }
    var v := variable.value;
    r := ReadPartOfVariable(chain, v.slot, v.offset, v.typ, params.value);
  }

  /** From the printed path to the projected value, through parser, lookup and navigation. */
  lemma PrintedPathReadsProjection(chain: Chain, vars: seq<Variable>, v: Variable, path: seq<Accessor>)
    requires forall u :: u in vars ==> WellFormed(u.typ)
    requires LastVariable(vars, v.name) == Some(v)
    requires '.' !in v.name && '[' !in v.name && PlainPath(path)
    requires Project(chain, Decode(chain, v.slot, v.offset, v.typ), Names(path)).Found?
    ensures Denotation(chain, vars, PrintPath(v.name, path)) ==
      Ok(Project(chain, Decode(chain, v.slot, v.offset, v.typ), Names(path)).value)
  {
    PathRoundTrip(v.name, path);
    FirstOfPrinted(v.name, path);
    ReverseReverse(Names(path));
    PartIsProjection(chain, Location(v.slot, v.offset, v.typ), Names(path));
  }
}
