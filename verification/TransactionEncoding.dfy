/**
 The ABI encoding of a transaction and the generated utilities: the validator accepts exactly the
 encodings, the getters read the fields back, and the length function gives the encoded length.
 */
module TransactionEncoding {
  import opened Words
  import opened Yul
  import opened AbiBytes
  import opened TransactionUtils
  import opened GeneratedCode

  datatype SlotValue = WordValue(word: Word) | DynamicValue(payload: Payload)

  predicate Fits(v: SlotValue, s: Slot) {
    match s
    case FixedSlot(_, t) => v.WordValue? && v.word < Bound(t)
    case DynamicSlot(_, t) => v.DynamicValue? && (v.payload.BytesPayload? <==> t == Bytes)
  }

  ghost predicate Typed(vs: seq<SlotValue>, slots: seq<Slot>) {
    |vs| == |slots| && forall k :: 0 <= k < |vs| ==> Fits(vs[k], slots[k])
  }

  // ----- the encoding, in words -----

  function TailOf(v: SlotValue): seq<nat> {
    if v.WordValue? then [] else Tail(v.payload)
  }

  function Concat(parts: seq<seq<nat>>): seq<nat> {
    if parts == [] then [] else Concat(parts[..|parts| - 1]) + parts[|parts| - 1]
  }

  function TailList(vs: seq<SlotValue>): (parts: seq<seq<nat>>)
    ensures |parts| == |vs| && forall k :: 0 <= k < |vs| ==> parts[k] == TailOf(vs[k])
  {
    seq(|vs|, k requires 0 <= k < |vs| => TailOf(vs[k]))
  }

  /** The tails of all dynamic fields, in field order. */
  function Tails(vs: seq<SlotValue>): seq<nat> {
    Concat(TailList(vs))
  }

  /**
   Word `k` of the head: the value itself, or the byte offset of its tail from the start of the
   encoding. The remainder only matters beyond the address space.
   */
  function Head(vs: seq<SlotValue>, k: nat): nat
    requires k < |vs|
  {
    if vs[k].WordValue? then vs[k].word else Wrap(32 * (|vs| + |Tails(vs[..k])|))
  }

  function Encode(vs: seq<SlotValue>): (ws: seq<nat>)
    ensures |ws| == |vs| + |Tails(vs)|
  {
    Heads(vs) + Tails(vs)
  }

  function Heads(vs: seq<SlotValue>): (ws: seq<nat>)
    ensures |ws| == |vs| && forall k :: 0 <= k < |vs| ==> ws[k] == Head(vs, k)
  {
    seq(|vs|, k requires 0 <= k < |vs| => Head(vs, k))
  }

  /** Memory at `off` holds the encoding of `vs`, and its tail does not run past the last address. */
  ghost predicate Encoded(vs: seq<SlotValue>, m: Memory, off: Word) {
    && Holds(m, off, Encode(vs))
    && WordAt(off, |vs|) + 32 * |Tails(vs)| < MODULUS
  }

  /** The value that memory at `off` denotes. */
  function Decode(slots: seq<Slot>, m: Memory, off: Word): (vs: seq<SlotValue>)
    ensures |vs| == |slots|
  {
    seq(|slots|, k requires 0 <= k < |slots| => DecodeSlot(slots, m, off, k))
  }

  function DecodeSlot(slots: seq<Slot>, m: Memory, off: Word, k: nat): SlotValue
    requires k < |slots|
  {
    if slots[k].FixedSlot? then WordValue(m(WordAt(off, k)))
    else DynamicValue(PayloadAt(slots[k].dynamic == Bytes, m, PtrAt(m, off, k)))
  }

  // ----- addresses -----

  lemma {:induction false} ConcatPrefix(parts: seq<seq<nat>>, n: nat)
    requires n <= |parts|
    ensures Concat(parts[..n]) <= Concat(parts)
    decreases |parts| - n
  {
    if n < |parts| {
      ConcatPrefix(parts, n + 1);
      assert parts[..n + 1][..n] == parts[..n];
    } else {
      assert parts[..n] == parts;
    }
  }

  /** Part `k` sits in the concatenation right after the parts before it. */
  lemma ConcatPart(parts: seq<seq<nat>>, k: nat)
    requires k < |parts|
    ensures var i := |Concat(parts[..k])|;
      && i + |parts[k]| <= |Concat(parts)|
      && forall j :: 0 <= j < |parts[k]| ==> Concat(parts)[i + j] == parts[k][j]
  {
    assert parts[..k + 1][..k] == parts[..k];
    ConcatPrefix(parts, k + 1);
    var all, upto := Concat(parts), Concat(parts[..k + 1]);
    assert upto == Concat(parts[..k]) + parts[k];
    assert upto == all[..|upto|];
  }

  lemma TailsSnoc(vs: seq<SlotValue>, n: nat)
    requires 1 <= n <= |vs|
    ensures Tails(vs[..n]) == Tails(vs[..n - 1]) + TailOf(vs[n - 1])
  {
    assert TailList(vs[..n])[..n - 1] == TailList(vs[..n - 1]);
  }

  /** A pointer word leads `i` words past the head exactly when it is that byte offset. */
  lemma PointerWord(off: Word, w: Word, n: nat, i: nat)
    requires WordAt(off, n) + 32 * i < MODULUS
    ensures AddMod(off, w) == WordAt(off, n) + 32 * i <==> w == Wrap(32 * (n + i))
  {
    var x := 32 * (n + i);
    TailStart(off, n, i);
    AddModIsWrap(off, w);
    if w == Wrap(x) {
      AddWrapped(off, x);
    } else if Wrap(off + w) == Wrap(off + x) {
      WrapCancel(off, w, x);
    }
  }

  lemma TailStart(off: Word, n: nat, i: nat)
    requires WordAt(off, n) + 32 * i < MODULUS
    ensures WordAt(off, n) + 32 * i == Wrap(off + 32 * (n + i))
  {
    WrapAdd(off + 32 * n, 32 * i);
    assert off + 32 * n + 32 * i == off + 32 * (n + i);
  }

  /** Two ways to name the address of a word of the tail. */
  lemma TailAddress(off: Word, n: nat, start: nat, i: nat, j: nat, q: nat)
    requires start == WordAt(off, n) + 32 * i && q == i + j
    ensures WordAt(start, j) == WordAt(off, n + q)
  {
    WrapAdd(off + 32 * n, 32 * i + 32 * j);
    assert start + 32 * j == WordAt(off, n) + (32 * i + 32 * j);
    assert off + 32 * n + (32 * i + 32 * j) == off + 32 * (n + q);
  }

  // ----- every encoding is accepted and read back -----

  ghost predicate HeadsHeld(vs: seq<SlotValue>, m: Memory, off: Word) {
    forall k :: 0 <= k < |vs| ==> m(WordAt(off, k)) == Head(vs, k)
  }

  ghost predicate TailsHeld(n: nat, tails: seq<nat>, m: Memory, off: Word) {
    forall q :: 0 <= q < |tails| ==> m(WordAt(off, n + q)) == tails[q]
  }

  lemma HoldsConcat(m: Memory, off: Word, a: seq<nat>, b: seq<nat>)
    ensures Holds(m, off, a + b) <==> Holds(m, off, a) && TailsHeld(|a|, b, m, off)
  {
    var n, ws := |a|, a + b;
    if Holds(m, off, ws) {
      forall k | 0 <= k < n ensures m(WordAt(off, k)) == a[k] {
        assert ws[k] == a[k];
      }
      forall q | 0 <= q < |b| ensures m(WordAt(off, n + q)) == b[q] {
        assert ws[n + q] == b[q];
      }
    }
    if Holds(m, off, a) && TailsHeld(n, b, m, off) {
      forall j | 0 <= j < |ws| ensures m(WordAt(off, j)) == ws[j] {
        if j >= n {
          assert m(WordAt(off, n + (j - n))) == b[j - n];
        }
      }
    }
  }

  /** Holding an encoding is holding its head and, right behind it, its tails. */
  lemma HoldsParts(vs: seq<SlotValue>, m: Memory, off: Word)
    ensures Holds(m, off, Encode(vs)) <==> HeadsHeld(vs, m, off) && TailsHeld(|vs|, Tails(vs), m, off)
  {
    HoldsConcat(m, off, Heads(vs), Tails(vs));
  }

  lemma TailPosition(vs: seq<SlotValue>, k: nat)
    requires k < |vs|
    ensures var i, t := |Tails(vs[..k])|, TailOf(vs[k]);
      i + |t| <= |Tails(vs)| && Tails(vs)[i..i + |t|] == t
  {
    assert TailList(vs)[..k] == TailList(vs[..k]);
    ConcatPart(TailList(vs), k);
  }

  /** Where the tail of field `k` starts, and that it fits. */
  lemma TailFits(vs: seq<SlotValue>, off: Word, k: nat)
    requires WordAt(off, |vs|) + 32 * |Tails(vs)| < MODULUS && k < |vs|
    ensures WordAt(off, |vs|) + 32 * |Tails(vs[..k])| < MODULUS
    ensures WordAt(off, |vs|) + 32 * |Tails(vs[..k])| + 32 * |TailOf(vs[k])| < MODULUS
  {
    TailPosition(vs, k);
  }

  /** A slice of what lies behind the head is held at the slice's own address. */
  lemma SliceHeld(m: Memory, off: Word, n: nat, all: seq<nat>, i: nat, t: seq<nat>)
    requires TailsHeld(n, all, m, off)
    requires i + |t| <= |all| && all[i..i + |t|] == t
    ensures Holds(m, WordAt(off, n) + 32 * i, t)
  {
    var start := WordAt(off, n) + 32 * i;
    forall j | 0 <= j < |t| ensures m(WordAt(start, j)) == t[j] {
      TailAddress(off, n, start, i, j, i + j);
      assert m(WordAt(off, n + (i + j))) == all[i + j] == all[i..i + |t|][j];
    }
  }

  /** Address of the tail of field `k`, when the tails start at `start`. */
  function FieldStart(vs: seq<SlotValue>, start: nat, k: nat): nat
    requires k <= |vs|
  {
    start + 32 * |Tails(vs[..k])|
  }

  lemma FieldStartStep(vs: seq<SlotValue>, start: nat, k: nat)
    requires k < |vs|
    ensures FieldStart(vs, start, k + 1) == FieldStart(vs, start, k) + 32 * |TailOf(vs[k])|
  {
    TailsSnoc(vs, k + 1);
  }

  lemma {:induction false} FieldStartBound(vs: seq<SlotValue>, start: nat, k: nat)
    requires k <= |vs|
    ensures FieldStart(vs, start, k) <= FieldStart(vs, start, |vs|)
    ensures FieldStart(vs, start, 0) == start
    ensures FieldStart(vs, start, |vs|) == start + 32 * |Tails(vs)|
    decreases |vs| - k
  {
    assert TailList(vs[..0]) == [] && vs[..|vs|] == vs;
    if k < |vs| {
      FieldStartBound(vs, start, k + 1);
      FieldStartStep(vs, start, k);
    }
  }

  lemma TailHeld(vs: seq<SlotValue>, m: Memory, off: Word, k: nat, at: nat)
    requires TailsHeld(|vs|, Tails(vs), m, off) && k < |vs| && at == FieldStart(vs, WordAt(off, |vs|), k)
    ensures Holds(m, at, TailOf(vs[k]))
  {
    TailPosition(vs, k);
    SliceHeld(m, off, |vs|, Tails(vs), |Tails(vs[..k])|, TailOf(vs[k]));
  }

  lemma PointerLeadsToTail(vs: seq<SlotValue>, m: Memory, off: Word, k: nat, at: nat)
    requires k < |vs| && vs[k].DynamicValue? && m(WordAt(off, k)) == Head(vs, k)
    requires WordAt(off, |vs|) + 32 * |Tails(vs)| < MODULUS && at == FieldStart(vs, WordAt(off, |vs|), k)
    ensures at + 32 * |TailOf(vs[k])| < MODULUS
    ensures PtrAt(m, off, k) == at
  {
    TailFits(vs, off, k);
    HeadLeads(vs, off, k, at);
  }

  lemma DynamicHead(vs: seq<SlotValue>, k: nat, i: nat)
    requires k < |vs| && vs[k].DynamicValue? && i == |Tails(vs[..k])|
    ensures Head(vs, k) == Wrap(32 * (|vs| + i))
  {
  }

  lemma HeadLeads(vs: seq<SlotValue>, off: Word, k: nat, at: nat)
    requires k < |vs| && vs[k].DynamicValue? && at == FieldStart(vs, WordAt(off, |vs|), k) && at < MODULUS
    ensures Head(vs, k) < MODULUS && AddMod(off, Head(vs, k)) == at
  {
    var i := |Tails(vs[..k])|;
    DynamicHead(vs, k, i);
    PointerForth(off, Head(vs, k), |vs|, i, at);
  }

  lemma PointerForth(off: Word, w: Word, n: nat, i: nat, at: nat)
    requires at == WordAt(off, n) + 32 * i < MODULUS && w == Wrap(32 * (n + i))
    ensures AddMod(off, w) == at
  {
    PointerWord(off, w, n, i);
  }

  /** Dynamic field `k` is encoded at address `at`. */
  lemma EncodedPlace(vs: seq<SlotValue>, m: Memory, off: Word, k: nat, at: nat)
    requires k < |vs| && vs[k].DynamicValue? && at == FieldStart(vs, WordAt(off, |vs|), k)
    requires m(WordAt(off, k)) == Head(vs, k) && TailsHeld(|vs|, Tails(vs), m, off)
    requires WordAt(off, |vs|) + 32 * |Tails(vs)| < MODULUS
    ensures at + 32 * |TailOf(vs[k])| < MODULUS && PtrAt(m, off, k) == at && Holds(m, at, TailOf(vs[k]))
  {
    PointerLeadsToTail(vs, m, off, k, at);
    TailHeld(vs, m, off, k, at);
  }

  lemma AcceptedAt(v: SlotValue, m: Memory, at: Word, validate: (bool, Word) -> Outcome<Word>)
    requires v.DynamicValue? && Holds(m, at, TailOf(v)) && at + 32 * |TailOf(v)| < MODULUS
    requires forall b, p :: validate(b, p) == Validate(b, m, p)
    ensures validate(v.payload.BytesPayload?, at) == Done(at + 32 * |TailOf(v)|)
  {
    DynamicComplete(v.payload, m, at);
  }

  /** Start addresses of all fields' tails, and the end of the last one. */
  function Starts(vs: seq<SlotValue>, start: nat): (pos: seq<nat>)
    ensures |pos| == |vs| + 1 && forall k :: 0 <= k <= |vs| ==> pos[k] == FieldStart(vs, start, k)
  {
    seq(|vs| + 1, k requires 0 <= k <= |vs| => FieldStart(vs, start, k))
  }

  lemma StartsArePositions(slots: seq<Slot>, vs: seq<SlotValue>, start: Word)
    requires SameShape(vs, slots)
    ensures Positions(slots, Starts(vs, start), start)
    ensures Starts(vs, start)[|vs|] == start + 32 * |Tails(vs)|
  {
    FieldStartBound(vs, start, 0);
    forall k | 0 <= k < |slots| && slots[k].FixedSlot? ensures Starts(vs, start)[k + 1] == Starts(vs, start)[k] {
      FieldStartStep(vs, start, k);
    }
  }

  lemma EncodedLink(slots: seq<Slot>, vs: seq<SlotValue>, m: Memory, off: Word, ptr: nat -> Word,
                    validate: (bool, Word) -> Outcome<Word>, k: nat)
    requires k < |vs| == |slots| && Fits(vs[k], slots[k])
    requires ptr(k) == PtrAt(m, off, k) && forall b, p :: validate(b, p) == Validate(b, m, p)
    requires m(WordAt(off, k)) == Head(vs, k) && TailsHeld(|vs|, Tails(vs), m, off)
    requires WordAt(off, |vs|) + 32 * |Tails(vs)| < MODULUS
    ensures LinkedAt(slots, ptr, validate, Starts(vs, WordAt(off, |vs|)), k)
  {
    FieldStartStep(vs, WordAt(off, |vs|), k);
    if vs[k].DynamicValue? {
      var at := FieldStart(vs, WordAt(off, |vs|), k);
      EncodedPlace(vs, m, off, k, at);
      AcceptedAt(vs[k], m, at, validate);
    }
  }

  /** Which values are dynamic follows the fields. */
  ghost predicate SameShape(vs: seq<SlotValue>, slots: seq<Slot>) {
    |vs| == |slots| && forall k :: 0 <= k < |vs| ==> (slots[k].FixedSlot? <==> vs[k].WordValue?)
  }

  lemma EncodedLinks(slots: seq<Slot>, vs: seq<SlotValue>, m: Memory, off: Word, ptr: nat -> Word,
                     validate: (bool, Word) -> Outcome<Word>)
    requires Typed(vs, slots) && HeadsHeld(vs, m, off) && TailsHeld(|vs|, Tails(vs), m, off)
    requires WordAt(off, |vs|) + 32 * |Tails(vs)| < MODULUS
    requires forall k: nat :: ptr(k) == PtrAt(m, off, k)
    requires forall b, p :: validate(b, p) == Validate(b, m, p)
    ensures forall k :: 0 <= k < |slots| ==> LinkedAt(slots, ptr, validate, Starts(vs, WordAt(off, |vs|)), k)
  {
    forall k | 0 <= k < |vs| ensures LinkedAt(slots, ptr, validate, Starts(vs, WordAt(off, |vs|)), k) {
      EncodedLink(slots, vs, m, off, ptr, validate, k);
    }
  }

  lemma TypedShape(vs: seq<SlotValue>, slots: seq<Slot>)
    requires Typed(vs, slots)
    ensures SameShape(vs, slots)
  {
    forall k | 0 <= k < |vs| ensures slots[k].FixedSlot? <==> vs[k].WordValue? {
      assert Fits(vs[k], slots[k]);
    }
  }

  lemma EncodedPositions(slots: seq<Slot>, vs: seq<SlotValue>, m: Memory, off: Word, ptr: nat -> Word,
                         validate: (bool, Word) -> Outcome<Word>, start: Word, end: nat) returns (pos: seq<nat>)
    requires Typed(vs, slots) && Encoded(vs, m, off) && start == WordAt(off, |vs|) && end == start + 32 * |Tails(vs)|
    requires forall k: nat :: ptr(k) == PtrAt(m, off, k)
    requires forall b, p :: validate(b, p) == Validate(b, m, p)
    ensures Positions(slots, pos, start) && pos[|slots|] == end
    ensures forall k :: 0 <= k < |slots| ==> LinkedAt(slots, ptr, validate, pos, k)
  {
    pos := Starts(vs, start);
    HoldsParts(vs, m, off);
    EncodedLinks(slots, vs, m, off, ptr, validate);
    TypedShape(vs, slots);
    StartsArePositions(slots, vs, start);
  }

  lemma EncodedWalk(slots: seq<Slot>, vs: seq<SlotValue>, m: Memory, off: Word, ptr: nat -> Word,
                    validate: (bool, Word) -> Outcome<Word>, start: Word, end: nat)
    requires Typed(vs, slots) && Encoded(vs, m, off) && start == WordAt(off, |vs|) && end == start + 32 * |Tails(vs)|
    requires forall k: nat :: ptr(k) == PtrAt(m, off, k)
    requires forall b, p :: validate(b, p) == Validate(b, m, p)
    ensures end < MODULUS && Walk(slots, ptr, validate, start, |slots|) == Done(end)
  {
    var pos := EncodedPositions(slots, vs, m, off, ptr, validate, start, end);
    WalkForward(slots, ptr, validate, start, pos, |slots|);
  }

  /** On an encoding the walk over the dynamic fields ends at the end of the encoding. */
  lemma EncodedEnd(slots: seq<Slot>, vs: seq<SlotValue>, m: Memory, off: Word, end: nat)
    requires Typed(vs, slots) && Encoded(vs, m, off) && end == WordAt(off, |vs|) + 32 * |Tails(vs)|
    ensures end < MODULUS && DynamicEnd(slots, m, off, |slots|) == Done(end)
  {
    var ptr := (k: nat) => PtrAt(m, off, k);
    var validate := (b: bool, p: Word) => Validate(b, m, p);
    EncodedWalk(slots, vs, m, off, ptr, validate, WordAt(off, |slots|), end);
    DynamicEndIsWalk(slots, m, off, ptr, validate, |slots|);
  }

  lemma EncodedDecodesSlot(slots: seq<Slot>, vs: seq<SlotValue>, m: Memory, off: Word, k: nat)
    requires k < |vs| == |slots| && Fits(vs[k], slots[k])
    requires m(WordAt(off, k)) == Head(vs, k) && TailsHeld(|vs|, Tails(vs), m, off)
    requires WordAt(off, |vs|) + 32 * |Tails(vs)| < MODULUS
    ensures DecodeSlot(slots, m, off, k) == vs[k]
  {
    if vs[k].DynamicValue? {
      var at := FieldStart(vs, WordAt(off, |vs|), k);
      EncodedPlace(vs, m, off, k, at);
      DynamicComplete(vs[k].payload, m, at);
    }
  }

  lemma EncodedDecodes(slots: seq<Slot>, vs: seq<SlotValue>, m: Memory, off: Word)
    requires Typed(vs, slots) && Encoded(vs, m, off)
    ensures Decode(slots, m, off) == vs
  {
    HoldsParts(vs, m, off);
    forall k | 0 <= k < |vs| ensures DecodeSlot(slots, m, off, k) == vs[k] {
      EncodedDecodesSlot(slots, vs, m, off, k);
    }
  }

  // ----- whatever is accepted is an encoding -----

  /** An accepted field ends where its decoded value's encoding ends. */
  lemma AcceptedSize(slots: seq<Slot>, vs: seq<SlotValue>, m: Memory, off: Word, k: nat, at: Word)
    requires vs == Decode(slots, m, off) && k < |slots| && slots[k].DynamicSlot? && PtrAt(m, off, k) == at
    requires Validate(slots[k].dynamic == Bytes, m, at).Done?
    ensures Validate(slots[k].dynamic == Bytes, m, at).value == at + 32 * |TailOf(vs[k])|
    ensures Holds(m, at, TailOf(vs[k]))
  {
    assert vs[k] == DecodeSlot(slots, m, off, k);
    DynamicSound(slots[k].dynamic == Bytes, m, at);
  }

  lemma AcceptedLinks(slots: seq<Slot>, vs: seq<SlotValue>, m: Memory, off: Word, ptr: nat -> Word,
                      validate: (bool, Word) -> Outcome<Word>)
    requires vs == Decode(slots, m, off) && DynamicEnd(slots, m, off, |slots|).Done?
    requires forall k: nat :: ptr(k) == PtrAt(m, off, k)
    requires forall b, p :: validate(b, p) == Validate(b, m, p)
    ensures DynamicEnd(slots, m, off, |slots|).value == WordAt(off, |vs|) + 32 * |Tails(vs)|
    ensures forall k :: 0 <= k < |slots| ==> LinkedAt(slots, ptr, validate, Starts(vs, WordAt(off, |vs|)), k)
  {
    var start := WordAt(off, |vs|);
    var pos := Starts(vs, start);
    forall k | 0 <= k < |vs| ensures slots[k].FixedSlot? <==> vs[k].WordValue? {
      assert vs[k] == DecodeSlot(slots, m, off, k);
    }
    StartsArePositions(slots, vs, start);
    forall k | 0 <= k < |slots| && slots[k].DynamicSlot? && ptr(k) == pos[k] && validate(slots[k].dynamic == Bytes, ptr(k)).Done?
      ensures validate(slots[k].dynamic == Bytes, ptr(k)).value == pos[k + 1]
    {
      AcceptedSize(slots, vs, m, off, k, ptr(k));
      FieldStartStep(vs, start, k);
    }
    DynamicEndIsWalk(slots, m, off, ptr, validate, |slots|);
    WalkBackward(slots, ptr, validate, start, pos, |slots|);
  }

  lemma PointerBack(off: Word, w: Word, n: nat, i: nat, at: nat)
    requires at == WordAt(off, n) + 32 * i < MODULUS && AddMod(off, w) == at
    ensures w == Wrap(32 * (n + i))
  {
    PointerWord(off, w, n, i);
  }

  lemma AcceptedHead(vs: seq<SlotValue>, m: Memory, off: Word, k: nat)
    requires k < |vs| && vs[k].DynamicValue?
    requires FieldStart(vs, WordAt(off, |vs|), k) < MODULUS
    requires PtrAt(m, off, k) == FieldStart(vs, WordAt(off, |vs|), k)
    ensures m(WordAt(off, k)) == Head(vs, k)
  {
    PointerBack(off, m(WordAt(off, k)), |vs|, |Tails(vs[..k])|, PtrAt(m, off, k));
  }

  lemma TailsHeldExtend(n: nat, a: seq<nat>, b: seq<nat>, m: Memory, off: Word, start: nat)
    requires TailsHeld(n, a, m, off) && start == WordAt(off, n) + 32 * |a| && Holds(m, start, b)
    ensures TailsHeld(n, a + b, m, off)
  {
    var ws := a + b;
    forall q | 0 <= q < |ws| ensures m(WordAt(off, n + q)) == ws[q] {
      if q >= |a| {
        TailAddress(off, n, start, |a|, q - |a|, q);
        assert m(WordAt(start, q - |a|)) == b[q - |a|];
      }
    }
  }

  lemma {:induction false} AcceptedTails(vs: seq<SlotValue>, m: Memory, off: Word, n: nat)
    requires n <= |vs|
    requires forall k :: 0 <= k < n && vs[k].DynamicValue? ==> Holds(m, FieldStart(vs, WordAt(off, |vs|), k), TailOf(vs[k]))
    ensures TailsHeld(|vs|, Tails(vs[..n]), m, off)
  {
    if n == 0 {
      assert TailList(vs[..0]) == [];
    } else {
      AcceptedTails(vs, m, off, n - 1);
      TailsSnoc(vs, n);
      TailsHeldExtend(|vs|, Tails(vs[..n - 1]), TailOf(vs[n - 1]), m, off, FieldStart(vs, WordAt(off, |vs|), n - 1));
    }
  }

  lemma AcceptedFields(slots: seq<Slot>, vs: seq<SlotValue>, m: Memory, off: Word)
    requires vs == Decode(slots, m, off) && DynamicEnd(slots, m, off, |slots|).Done?
    ensures DynamicEnd(slots, m, off, |slots|).value == WordAt(off, |vs|) + 32 * |Tails(vs)|
    ensures forall k :: 0 <= k < |vs| && vs[k].DynamicValue? ==> Holds(m, FieldStart(vs, WordAt(off, |vs|), k), TailOf(vs[k]))
    ensures HeadsHeld(vs, m, off)
  {
    var ptr := (k: nat) => PtrAt(m, off, k);
    var validate := (b: bool, p: Word) => Validate(b, m, p);
    var start := WordAt(off, |vs|);
    AcceptedLinks(slots, vs, m, off, ptr, validate);
    forall k | 0 <= k < |vs|
      ensures vs[k].DynamicValue? ==> Holds(m, FieldStart(vs, start, k), TailOf(vs[k]))
      ensures m(WordAt(off, k)) == Head(vs, k)
    {
      assert vs[k] == DecodeSlot(slots, m, off, k);
      assert LinkedAt(slots, ptr, validate, Starts(vs, start), k);
      if vs[k].DynamicValue? {
        AcceptedSize(slots, vs, m, off, k, ptr(k));
        AcceptedHead(vs, m, off, k);
      }
    }
  }

  lemma AcceptedEncoded(slots: seq<Slot>, vs: seq<SlotValue>, m: Memory, off: Word)
    requires vs == Decode(slots, m, off) && DynamicEnd(slots, m, off, |slots|).Done?
    ensures Encoded(vs, m, off)
  {
    AcceptedFields(slots, vs, m, off);
    AcceptedTails(vs, m, off, |vs|);
    assert vs[..|vs|] == vs;
    HoldsParts(vs, m, off);
  }

  lemma DecodedTyped(slots: seq<Slot>, m: Memory, off: Word)
    ensures FixedInRange(slots, m, off, |slots|) <==> Typed(Decode(slots, m, off), slots)
  {
    var vs := Decode(slots, m, off);
    forall k | 0 <= k < |slots|
      ensures Fits(vs[k], slots[k]) <==> (slots[k].FixedSlot? ==> m(WordAt(off, k)) < Bound(slots[k].fixed))
    {
      assert vs[k] == DecodeSlot(slots, m, off, k);
    }
  }

  /** All checks pass exactly when the decoded value is well typed and memory is its encoding. */
  lemma ChecksPassIffEncoded(slots: seq<Slot>, m: Memory, off: Word)
    ensures FixedInRange(slots, m, off, |slots|) && DynamicEnd(slots, m, off, |slots|).Done? <==>
      Typed(Decode(slots, m, off), slots) && Encoded(Decode(slots, m, off), m, off)
  {
    var vs := Decode(slots, m, off);
    DecodedTyped(slots, m, off);
    if DynamicEnd(slots, m, off, |slots|).Done? {
      AcceptedEncoded(slots, vs, m, off);
    }
    if Typed(vs, slots) && Encoded(vs, m, off) {
      EncodedEnd(slots, vs, m, off, WordAt(off, |vs|) + 32 * |Tails(vs)|);
    }
  }

  // ----- the encoded length -----

  lemma EncodedContent(t: DynamicType, v: Payload, m: Memory, ptr: Word)
    requires Holds(m, ptr, Tail(v)) && ptr + 32 * |Tail(v)| < MODULUS && (v.BytesPayload? <==> t == Bytes)
    ensures ContentLength(t, m, ptr) == 32 * (|Tail(v)| - 1)
  {
    match v
    case BytesPayload(b) => BytesReadBack(b, m, ptr);
    case WordsPayload(ws) => LoadHeld(m, ptr, |ws|, ws);
  }

  /** Content bytes of the dynamic values among the first `n`. */
  function ContentBytes(vs: seq<SlotValue>, n: nat): nat
    requires n <= |vs|
  {
    if n == 0 then 0
    else ContentBytes(vs, n - 1) + if vs[n - 1].DynamicValue? then 32 * (|TailOf(vs[n - 1])| - 1) else 0
  }

  /** Contents plus one length word per dynamic field are the tails. */
  lemma {:induction false} ContentPlusLengths(slots: seq<Slot>, vs: seq<SlotValue>, n: nat)
    requires SameShape(vs, slots) && n <= |vs|
    ensures ContentBytes(vs, n) + 32 * |Dynamics(slots[..n])| == 32 * |Tails(vs[..n])|
  {
    if n == 0 {
      assert TailList(vs[..0]) == [];
    } else {
      ContentPlusLengths(slots, vs, n - 1);
      TailsSnoc(vs, n);
      PrefixSnoc(slots, n);
    }
  }

  lemma SumStep(a: nat, base: nat, x: Word)
    ensures AddMod(Wrap(base + a), x) == Wrap(base + (a + x))
  {
    AddModIsWrap(Wrap(base + a), x);
    WrapAdd(base + a, x);
    assert base + a + x == base + (a + x);
  }

  lemma ContentStep(slots: seq<Slot>, vs: seq<SlotValue>, m: Memory, off: Word, n: nat, start: Word, sum: Word, len: Word)
    requires SameShape(vs, slots) && n < |vs| && sum == ContentSum(slots, m, off, n, start)
    requires slots[n].DynamicSlot? ==> len == ContentLength(slots[n].dynamic, m, PtrAt(m, off, n)) == 32 * (|TailOf(vs[n])| - 1)
    ensures ContentSum(slots, m, off, n + 1, start) == if slots[n].DynamicSlot? then AddMod(sum, len) else sum
    ensures ContentBytes(vs, n + 1) == ContentBytes(vs, n) + if slots[n].DynamicSlot? then len else 0
  {
  }

  lemma EncodedContentAt(slots: seq<Slot>, vs: seq<SlotValue>, m: Memory, off: Word, k: nat)
    requires Typed(vs, slots) && Encoded(vs, m, off) && k < |vs| && slots[k].DynamicSlot?
    ensures ContentLength(slots[k].dynamic, m, PtrAt(m, off, k)) == 32 * (|TailOf(vs[k])| - 1)
  {
    HoldsParts(vs, m, off);
    assert Fits(vs[k], slots[k]);
    var at := FieldStart(vs, WordAt(off, |vs|), k);
    EncodedPlace(vs, m, off, k, at);
    EncodedContent(slots[k].dynamic, vs[k].payload, m, at);
  }

  /** What field `k` adds to the data length. */
  function LengthAt(slots: seq<Slot>, m: Memory, off: Word, k: nat): Word {
    if k < |slots| && slots[k].DynamicSlot? then ContentLength(slots[k].dynamic, m, PtrAt(m, off, k)) else 0
  }

  lemma LengthStep(slots: seq<Slot>, vs: seq<SlotValue>, m: Memory, off: Word, k: nat, start: Word)
    requires Typed(vs, slots) && Encoded(vs, m, off) && k < |vs|
    ensures ContentSum(slots, m, off, k + 1, start) == AddMod(ContentSum(slots, m, off, k, start), LengthAt(slots, m, off, k))
    ensures ContentBytes(vs, k + 1) == ContentBytes(vs, k) + LengthAt(slots, m, off, k)
  {
    TypedShape(vs, slots);
    if slots[k].DynamicSlot? {
      EncodedContentAt(slots, vs, m, off, k);
    }
    ContentStep(slots, vs, m, off, k, start, ContentSum(slots, m, off, k, start), LengthAt(slots, m, off, k));
  }

  lemma NextSum(sum: Word, sum': Word, bytes: nat, bytes': nat, len: Word, base: nat)
    requires sum == Wrap(base + bytes) && sum' == AddMod(sum, len) && bytes' == bytes + len
    ensures sum' == Wrap(base + bytes')
  {
    SumStep(bytes, base, len);
  }

  lemma {:induction false} EncodedSum(slots: seq<Slot>, vs: seq<SlotValue>, m: Memory, off: Word, n: nat, base: nat, sum: Word, bytes: nat)
    requires Typed(vs, slots) && Encoded(vs, m, off) && n <= |vs|
    requires sum == ContentSum(slots, m, off, n, Wrap(base)) && bytes == ContentBytes(vs, n)
    ensures sum == Wrap(base + bytes)
  {
    if n > 0 {
      var sum', bytes' := ContentSum(slots, m, off, n - 1, Wrap(base)), ContentBytes(vs, n - 1);
      EncodedSum(slots, vs, m, off, n - 1, base, sum', bytes');
      LengthStep(slots, vs, m, off, n - 1, Wrap(base));
      NextSum(sum', sum, bytes', bytes, LengthAt(slots, m, off, n - 1), base);
    }
  }

  // ----- the theorems -----

  /**
   The generated validator accepts a memory exactly when it is the encoding of a well-typed value
   there; in every other case it reverts.
   */
  lemma ValidatorAcceptsExactlyEncodings(slots: seq<Slot>, m: Memory, depth: nat, off: Word)
    requires Compiles(slots) && depth >= 2
    ensures Run(Generated(slots), m, depth, "validateAbiEncoding", off) == Done(0) <==>
      exists vs :: Typed(vs, slots) && Encoded(vs, m, off)
    ensures Run(Generated(slots), m, depth, "validateAbiEncoding", off) != Done(0) ==>
      Run(Generated(slots), m, depth, "validateAbiEncoding", off).Reverted?
  {
    GeneratedIsLinked(slots);
    FindLast(slots);
    ValidatorOutcome(Generated(slots), slots, m, depth, off);
    ChecksPassIffEncoded(slots, m, off);
    forall vs | Typed(vs, slots) && Encoded(vs, m, off) ensures Decode(slots, m, off) == vs {
      EncodedDecodes(slots, vs, m, off);
    }
  }

  /** On an encoding every fixed getter returns its field. */
  lemma GettersReadFields(slots: seq<Slot>, vs: seq<SlotValue>, m: Memory, depth: nat, off: Word, k: nat)
    requires Compiles(slots) && Typed(vs, slots) && Encoded(vs, m, off) && k < |vs| && slots[k].FixedSlot?
    ensures vs[k].WordValue? && Run(Generated(slots), m, depth, GetterName(slots[k].name), off) == Done(vs[k].word)
  {
    GeneratedIsLinked(slots);
    GetterReturns(Generated(slots), slots, k, m, depth, off);
    HoldsParts(vs, m, off);
    assert Fits(vs[k], slots[k]) && m(WordAt(off, k)) == Head(vs, k);
  }

  lemma EncodedRegion(vs: seq<SlotValue>, m: Memory, off: Word, k: nat, at: nat)
    requires k < |vs| && vs[k].DynamicValue? && at == FieldStart(vs, WordAt(off, |vs|), k)
    requires m(WordAt(off, k)) == Head(vs, k) && TailsHeld(|vs|, Tails(vs), m, off)
    requires WordAt(off, |vs|) + 32 * |Tails(vs)| < MODULUS
    ensures at < MODULUS && PtrAt(m, off, k) == at && Holds(m, at, Tail(vs[k].payload))
    ensures PayloadAt(vs[k].payload.BytesPayload?, m, at) == vs[k].payload
  {
    EncodedPlace(vs, m, off, k, at);
    DynamicComplete(vs[k].payload, m, at);
  }

  /** On an encoding every pointer getter leads to the words of its field, and nowhere else. */
  lemma PtrGettersFindFields(slots: seq<Slot>, vs: seq<SlotValue>, m: Memory, depth: nat, off: Word, k: nat, at: nat)
    requires Compiles(slots) && Typed(vs, slots) && Encoded(vs, m, off) && k < |vs| && slots[k].DynamicSlot?
    requires at == FieldStart(vs, WordAt(off, |vs|), k)
    ensures vs[k].DynamicValue? && at < MODULUS
    ensures Run(Generated(slots), m, depth, PtrGetterName(slots[k].name), off) == Done(at)
    ensures Holds(m, at, Tail(vs[k].payload)) && PayloadAt(vs[k].payload.BytesPayload?, m, at) == vs[k].payload
  {
    assert Fits(vs[k], slots[k]);
    HoldsParts(vs, m, off);
    EncodedRegion(vs, m, off, k, at);
    GeneratedIsLinked(slots);
    PtrGetterReturns(Generated(slots), slots, k, m, depth, off);
  }

  /** On an encoding every length getter returns the padded length of its field's content. */
  lemma LengthGettersMeasureFields(slots: seq<Slot>, vs: seq<SlotValue>, m: Memory, depth: nat, off: Word, k: nat)
    requires Compiles(slots) && Typed(vs, slots) && Encoded(vs, m, off) && k < |vs| && slots[k].DynamicSlot? && depth >= 1
    ensures Run(Generated(slots), m, depth, BytesLengthGetterName(slots[k].name), off) == Done(32 * (|TailOf(vs[k])| - 1))
  {
    GeneratedIsLinked(slots);
    LengthGetterReturns(Generated(slots), slots, k, m, depth, off);
    EncodedContentAt(slots, vs, m, off, k);
  }

  lemma WholeSum(slots: seq<Slot>, vs: seq<SlotValue>, base: nat, total: nat, bytes: nat)
    requires Typed(vs, slots) && bytes == ContentBytes(vs, |vs|)
    requires base == 32 * |slots| + |Dynamics(slots)| * 32 && total == 32 * |Encode(vs)|
    ensures total == base + bytes
  {
    TypedShape(vs, slots);
    ContentPlusLengths(slots, vs, |slots|);
    assert slots[..|slots|] == slots && vs[..|vs|] == vs;
  }

  /** On an encoding `getDataLength` is the number of encoded bytes. */
  lemma DataLengthIsEncodedLength(slots: seq<Slot>, vs: seq<SlotValue>, m: Memory, depth: nat, off: Word, total: nat)
    requires Compiles(slots) && Typed(vs, slots) && Encoded(vs, m, off) && depth >= 2 && total == 32 * |Encode(vs)|
    ensures Run(Generated(slots), m, depth, "getDataLength", off) == Done(total % MODULUS)
  {
    var base := 32 * |slots| + |Dynamics(slots)| * 32;
    var bytes, sum := ContentBytes(vs, |vs|), ContentSum(slots, m, off, |slots|, Wrap(base));
    EncodedSum(slots, vs, m, off, |slots|, base, sum, bytes);
    WholeSum(slots, vs, base, total, bytes);
    SumIsTotal(sum, base, bytes, total);
    GeneratedDataLength(slots, m, depth, off, base, sum, total);
  }

  lemma SumIsTotal(sum: Word, base: nat, bytes: nat, total: nat)
    requires sum == Wrap(base + bytes) && total == base + bytes
    ensures sum == Wrap(total)
  {
  }

  lemma GeneratedDataLength(slots: seq<Slot>, m: Memory, depth: nat, off: Word, base: nat, sum: Word, total: nat)
    requires Compiles(slots) && depth >= 2 && base == 32 * |slots| + |Dynamics(slots)| * 32
    requires sum == ContentSum(slots, m, off, |slots|, Wrap(base)) && sum == Wrap(total)
    ensures Run(Generated(slots), m, depth, "getDataLength", off) == Done(total % MODULUS)
  {
    WrapIsMod(total);
    GeneratedIsLinked(slots);
    FindLast(slots);
    DataLengthReturns(Generated(slots), slots, m, depth, off, base);
  }

  /** What the validator accepts is the encoding of the value it decodes to. */
  lemma AcceptedIsEncoding(slots: seq<Slot>, m: Memory, depth: nat, off: Word)
    requires Compiles(slots) && depth >= 2
    requires Run(Generated(slots), m, depth, "validateAbiEncoding", off) == Done(0)
    ensures Typed(Decode(slots, m, off), slots) && Encoded(Decode(slots, m, off), m, off)
  {
    GeneratedIsLinked(slots);
    FindLast(slots);
    ValidatorOutcome(Generated(slots), slots, m, depth, off);
    ChecksPassIffEncoded(slots, m, off);
  }

  lemma EncodedPointers(slots: seq<Slot>, vs: seq<SlotValue>, m: Memory, off: Word, k: nat)
    requires Typed(vs, slots) && Encoded(vs, m, off) && k < |vs|
    ensures slots[k].DynamicSlot? ==> PtrAt(m, off, k) == FieldStart(vs, WordAt(off, |vs|), k)
    ensures FieldStart(vs, WordAt(off, |vs|), k + 1) == FieldStart(vs, WordAt(off, |vs|), k) + 32 * |TailOf(vs[k])|
  {
    FieldStartStep(vs, WordAt(off, |vs|), k);
    HoldsParts(vs, m, off);
    assert Fits(vs[k], slots[k]);
    if slots[k].DynamicSlot? {
      PointerLeadsToTail(vs, m, off, k, FieldStart(vs, WordAt(off, |vs|), k));
    }
  }

  lemma EndOfWords(off: Word, n: nat, t: nat, len: Word)
    requires WordAt(off, n) + 32 * t < MODULUS && len == Wrap(32 * (n + t))
    ensures WordAt(off, n) + 32 * t == AddMod(off, len)
  {
    TailStart(off, n, t);
    AddWrapped(off, 32 * (n + t));
  }

  /** The end of the last region, counted from the offset. */
  lemma EncodedEndAddress(vs: seq<SlotValue>, off: Word, len: Word)
    requires WordAt(off, |vs|) + 32 * |Tails(vs)| < MODULUS && len == Wrap(32 * |Encode(vs)|)
    ensures FieldStart(vs, WordAt(off, |vs|), |vs|) == AddMod(off, len)
  {
    FieldStartBound(vs, WordAt(off, |vs|), 0);
    EndOfWords(off, |vs|, |Tails(vs)|, len);
  }

  /**
   In an accepted memory the dynamic regions start right after the head and follow each other in
   field order without gap or overlap.
   */
  lemma AcceptedRegionsAreContiguous(slots: seq<Slot>, m: Memory, depth: nat, off: Word, vs: seq<SlotValue>, start: Word)
    requires Compiles(slots) && depth >= 2
    requires Run(Generated(slots), m, depth, "validateAbiEncoding", off) == Done(0)
    requires vs == Decode(slots, m, off) && start == WordAt(off, |slots|)
    ensures FieldStart(vs, start, 0) == start
    ensures forall k :: 0 <= k < |slots| && slots[k].DynamicSlot? ==> PtrAt(m, off, k) == FieldStart(vs, start, k)
    ensures forall k :: 0 <= k < |slots| ==> FieldStart(vs, start, k + 1) == FieldStart(vs, start, k) + 32 * |TailOf(vs[k])|
  {
    AcceptedIsEncoding(slots, m, depth, off);
    forall k | 0 <= k < |slots|
      ensures slots[k].DynamicSlot? ==> PtrAt(m, off, k) == FieldStart(vs, start, k)
      ensures FieldStart(vs, start, k + 1) == FieldStart(vs, start, k) + 32 * |TailOf(vs[k])|
    {
      EncodedPointers(slots, vs, m, off, k);
    }
    FieldStartBound(vs, start, 0);
  }

  /** In an accepted memory the last region ends at `innerTxDataOffset + getDataLength`. */
  lemma AcceptedEndsAtDataLength(slots: seq<Slot>, m: Memory, depth: nat, off: Word, vs: seq<SlotValue>, len: Word)
    requires Compiles(slots) && depth >= 2
    requires Run(Generated(slots), m, depth, "validateAbiEncoding", off) == Done(0)
    requires vs == Decode(slots, m, off)
    requires Run(Generated(slots), m, depth, "getDataLength", off) == Done(len)
    ensures FieldStart(vs, WordAt(off, |vs|), |vs|) == (off + len) % MODULUS
  {
    AcceptedIsEncoding(slots, m, depth, off);
    var total := 32 * |Encode(vs)|;
    DataLengthIsEncodedLength(slots, vs, m, depth, off, total);
    WrapIsMod(total);
    EncodedEndAddress(vs, off, len);
    AddModIsMod(off, len);
  }
}
