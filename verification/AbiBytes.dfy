/**
 What the bootloader's validators of dynamic fields accept: exactly the words of the ABI encoding
 of some value, ending where the validator says they end.
 */
module AbiBytes {
  import opened Words
  import opened Yul

  datatype Payload = BytesPayload(bytes: seq<Byte>) | WordsPayload(words: seq<Word>)

  /** Length word and content of a dynamic value. */
  function Tail(v: Payload): (ws: seq<nat>)
    ensures |ws| >= 1
  {
    match v
    case BytesPayload(b) => [|b|] + Pack(b)
    case WordsPayload(ws) => [|ws|] + ws
  }

  /** Address of the word `j` words after `at`. */
  function WordAt(at: nat, j: nat): Word {
    Wrap(at + 32 * j)
  }

  /** The words from address `at` on are `ws`. */
  ghost predicate Holds(m: Memory, at: nat, ws: seq<nat>) {
    forall j :: 0 <= j < |ws| ==> m(WordAt(at, j)) == ws[j]
  }

  function Validate(isBytes: bool, m: Memory, ptr: Word): Outcome<Word> {
    if isBytes then ValidateBytes(m, ptr) else ValidateBytes32Array(m, ptr)
  }

  /** `n` words of memory. */
  function Load(m: Memory, at: nat, n: nat): (ws: seq<Word>)
    ensures |ws| == n && forall j :: 0 <= j < n ==> ws[j] == m(WordAt(at, j))
  {
    seq<Word>(n, j requires 0 <= j < n => m(WordAt(at, j)))
  }

  /** The value that the words at `ptr` denote. */
  function PayloadAt(isBytes: bool, m: Memory, ptr: Word): Payload {
    var n := m(ptr);
    if isBytes then BytesPayload(Unpack(Load(m, ptr + 32, WordCount(n)), n)) else WordsPayload(Load(m, ptr + 32, n))
  }

  // ----- checked arithmetic -----

  lemma SafeAddExact(x: Word, y: Word, message: string)
    ensures SafeAdd(x, y, message) == if x + y < MODULUS then Done(x + y) else Reverted(message)
  {
  }

  lemma SafeMulExact(x: Word, message: string)
    ensures SafeMul(x, 32, message) == if 32 * x < MODULUS then Done(32 * x) else Reverted(message)
  {
  }

  /** Rounding up is exact except for the 31 largest lengths, where it wraps around to zero. */
  lemma RoundedExact(len: Word)
    ensures LengthRoundedByWords(len) == Done(if len + 31 < MODULUS then 32 * WordCount(len) else 0)
  {
    SafeMulExact(AddMod(len, 31) / 32, "xv");
  }

  // ----- bytes32[] -----

  lemma WordsAccepted(m: Memory, ptr: Word)
    ensures ValidateBytes32Array(m, ptr).Done? <==> ptr + 32 + 32 * m(ptr) < MODULUS
    ensures ValidateBytes32Array(m, ptr).Done? ==> ValidateBytes32Array(m, ptr).value == ptr + 32 + 32 * m(ptr)
  {
    var n := m(ptr);
    SafeMulExact(n, "lop");
    if 32 * n < MODULUS {
      SafeAddExact(32, 32 * n, "asa");
      if 32 + 32 * n < MODULUS {
        SafeAddExact(ptr, 32 + 32 * n, "sp");
      }
    }
  }

  // ----- bytes -----

  lemma DivisibleBy32(w: nat, z: nat)
    requires z >= 1 && w % Pow256(z) == 0
    ensures w % 32 == 0
  {
    assert Pow256(z) == 256 * Pow256(z - 1);
    DivisibleStep(w, Pow256(z - 1));
    assert w == 32 * (8 * (w / 256));
  }

  lemma NotDivisible(w: nat, z: nat)
    requires z >= 1 && w % 32 != 0
    ensures w % Pow256(z) != 0
  {
    if w % Pow256(z) == 0 {
      DivisibleBy32(w, z);
    }
  }

  /** Whether the word before `end` ends in `z` zero bytes. */
  predicate PaddedAt(m: Memory, end: nat, z: nat)
    requires 32 <= end < MODULUS
  {
    m(end - 32) % Pow256(z) == 0
  }

  lemma AlignedAccepted(m: Memory, ptr: Word)
    requires m(ptr) % 32 == 0
    ensures var end := ptr + 32 + m(ptr);
      && (end < MODULUS ==> ValidateBytes(m, ptr) == Done(end))
      && (end >= MODULUS ==> ValidateBytes(m, ptr).Reverted?)
  {
    var n := m(ptr);
    SafeAddExact(n, 32, "pol");
    if n + 32 < MODULUS {
      SafeAddExact(ptr, n + 32, "aop");
    }
  }

  lemma PaddedAccepted(m: Memory, ptr: Word, full: Word, z: nat)
    requires z < 32
    ensures var end := ptr + 32 + full;
      && (end < MODULUS && PaddedAt(m, end, z) ==> ValidatePadded(m, ptr, full, z) == Done(end))
      && (end >= MODULUS || !PaddedAt(m, end, z) ==> ValidatePadded(m, ptr, full, z).Reverted?)
  {
    SafeAddExact(32, full, "dza");
    if 32 + full < MODULUS {
      SafeAddExact(ptr, 32 + full, "dzp");
    }
  }

  lemma UnalignedAccepted(m: Memory, ptr: Word)
    requires m(ptr) % 32 != 0 && m(ptr) + 31 < MODULUS
    ensures var end := ptr + 32 + 32 * WordCount(m(ptr));
      && (end < MODULUS && PaddedAt(m, end, 32 - m(ptr) % 32) ==> ValidateBytes(m, ptr) == Done(end))
      && (end >= MODULUS || !PaddedAt(m, end, 32 - m(ptr) % 32) ==> ValidateBytes(m, ptr).Reverted?)
  {
    var n := m(ptr);
    RoundedExact(n);
    PaddedAccepted(m, ptr, 32 * WordCount(n), 32 - n % 32);
  }

  /** The 31 lengths whose rounding wraps: the length word itself fails the padding check. */
  lemma WrappedRejected(m: Memory, ptr: Word)
    requires m(ptr) + 31 >= MODULUS
    ensures ValidateBytes(m, ptr).Reverted?
  {
    var n := m(ptr);
    assert n % 32 != 0;
    RoundedExact(n);
    PaddedAccepted(m, ptr, 0, 32 - n % 32);
    NotDivisible(n, 32 - n % 32);
    assert ptr + 32 < MODULUS ==> !PaddedAt(m, ptr + 32, 32 - n % 32);
  }

  /**
   `validateBytes` accepts exactly when length word and content fit the address space and the
   padding is zero, and then returns the end of the content.
   */
  lemma BytesAccepted(m: Memory, ptr: Word)
    ensures var n := m(ptr); var end := ptr + 32 + 32 * WordCount(n);
      ValidateBytes(m, ptr).Done? <==> end < MODULUS && PaddedAt(m, end, PadLength(n))
    ensures ValidateBytes(m, ptr).Done? ==> ValidateBytes(m, ptr).value == ptr + 32 + 32 * WordCount(m(ptr))
  {
    var n := m(ptr);
    WordCountBounds(n);
    if n % 32 == 0 {
      AlignedAccepted(m, ptr);
    } else if n + 31 < MODULUS {
      UnalignedAccepted(m, ptr);
    } else {
      WrappedRejected(m, ptr);
    }
  }

  lemma WordCountBounds(n: nat)
    ensures n % 32 == 0 ==> 32 * WordCount(n) == n && PadLength(n) == 0 && Pow256(PadLength(n)) == 1
    ensures n % 32 != 0 ==> PadLength(n) == 32 - n % 32
    ensures n <= 32 * WordCount(n) == n + PadLength(n)
    ensures n + 31 >= MODULUS ==> 32 * WordCount(n) + 32 > MODULUS
  {
  }

  // ----- dynamic fields -----

  lemma HoldsLoad(m: Memory, ptr: Word, n: nat)
    ensures Holds(m, ptr, [m(ptr)] + Load(m, ptr + 32, n))
  {
    var ws := [m(ptr)] + Load(m, ptr + 32, n);
    forall j | 0 <= j < |ws| ensures m(WordAt(ptr, j)) == ws[j] {
      if j > 0 {
        assert WordAt(ptr, j) == WordAt(ptr + 32, j - 1);
      }
    }
  }

  /** Words with zero padding are the tail of the byte string they hold. */
  lemma LoadedTail(n: nat, ws: seq<Word>)
    requires |ws| == WordCount(n) && (n > 0 ==> ws[|ws| - 1] % Pow256(PadLength(n)) == 0)
    ensures Tail(BytesPayload(Unpack(ws, n))) == [n] + ws
  {
    if n > 0 {
      PackUnpack(ws, n);
    }
  }

  lemma AcceptedEnd(m: Memory, ptr: Word, k: nat, z: nat)
    requires ValidateBytes(m, ptr).Done? && k == WordCount(m(ptr)) && z == PadLength(m(ptr))
    ensures ptr + 32 + 32 * k < MODULUS && PaddedAt(m, ptr + 32 + 32 * k, z)
    ensures ValidateBytes(m, ptr).value == ptr + 32 + 32 * k
  {
    BytesAccepted(m, ptr);
  }

  lemma LastPadded(m: Memory, ptr: Word, k: nat, z: nat, ws: seq<Word>)
    requires k > 0 && ptr + 32 + 32 * k < MODULUS && PaddedAt(m, ptr + 32 + 32 * k, z) && ws == Load(m, ptr + 32, k)
    ensures ws[k - 1] % Pow256(z) == 0
  {
    LastLoaded(m, ptr, k);
  }

  lemma BytesSound(m: Memory, ptr: Word)
    requires ValidateBytes(m, ptr).Done?
    ensures Holds(m, ptr, Tail(PayloadAt(true, m, ptr)))
    ensures ValidateBytes(m, ptr).value == ptr + 32 * |Tail(PayloadAt(true, m, ptr))|
  {
    var k, z := WordCount(m(ptr)), PadLength(m(ptr));
    AcceptedEnd(m, ptr, k, z);
    var ws := Load(m, ptr + 32, k);
    if m(ptr) > 0 {
      LastPadded(m, ptr, k, z, ws);
    }
    LoadedTail(m(ptr), ws);
    HoldsLoad(m, ptr, k);
  }

  lemma WordsSound(m: Memory, ptr: Word)
    requires ValidateBytes32Array(m, ptr).Done?
    ensures Holds(m, ptr, Tail(PayloadAt(false, m, ptr)))
    ensures ValidateBytes32Array(m, ptr).value == ptr + 32 * |Tail(PayloadAt(false, m, ptr))|
  {
    WordsAccepted(m, ptr);
    HoldsLoad(m, ptr, m(ptr));
  }

  /** What a validator accepts is the encoding of a value, and it ends where the validator says. */
  lemma DynamicSound(isBytes: bool, m: Memory, ptr: Word)
    requires Validate(isBytes, m, ptr).Done?
    ensures var v := PayloadAt(isBytes, m, ptr);
      && Holds(m, ptr, Tail(v))
      && Validate(isBytes, m, ptr).value == ptr + 32 * |Tail(v)|
  {
    if isBytes {
      BytesSound(m, ptr);
    } else {
      WordsSound(m, ptr);
    }
  }

  lemma LastLoaded(m: Memory, ptr: Word, n: nat)
    requires n > 0 && ptr + 32 + 32 * n < MODULUS
    ensures Load(m, ptr + 32, n)[n - 1] == m(ptr + 32 * n)
  {
    assert WordAt(ptr + 32, n - 1) == ptr + 32 * n;
  }

  lemma LoadHeld(m: Memory, ptr: Word, first: nat, ws: seq<Word>)
    requires Holds(m, ptr, [first] + ws)
    ensures m(ptr) == first && Load(m, ptr + 32, |ws|) == ws
  {
    var all: seq<nat> := [first] + ws;
    assert m(WordAt(ptr, 0)) == all[0];
    forall j | 0 <= j < |ws| ensures Load(m, ptr + 32, |ws|)[j] == ws[j] {
      assert all[j + 1] == ws[j];
      assert WordAt(ptr, j + 1) == WordAt(ptr + 32, j);
    }
  }

  lemma LastHeld(m: Memory, ptr: Word, first: nat, ws: seq<nat>)
    requires Holds(m, ptr, [first] + ws) && ws != [] && ptr + 32 + 32 * |ws| < MODULUS
    ensures m(ptr + 32 * |ws|) == ws[|ws| - 1]
  {
    assert ([first] + ws)[|ws|] == ws[|ws| - 1];
    assert WordAt(ptr, |ws|) == ptr + 32 * |ws|;
  }

  lemma HeldPadding(b: seq<Byte>, m: Memory, ptr: Word)
    requires Holds(m, ptr, [|b|] + Pack(b)) && ptr + 32 + 32 * |Pack(b)| < MODULUS
    ensures PaddedAt(m, ptr + 32 + 32 * |Pack(b)|, PadLength(|b|))
  {
    if b == [] {
      WordCountBounds(0);
    } else {
      PackPadding(b);
      LastHeld(m, ptr, |b|, Pack(b));
    }
  }

  lemma AcceptedAt(m: Memory, ptr: Word, n: nat, end: nat)
    requires m(ptr) == n && end == ptr + 32 + 32 * WordCount(n) && end < MODULUS && PaddedAt(m, end, PadLength(n))
    ensures ValidateBytes(m, ptr) == Done(end)
  {
    BytesAccepted(m, ptr);
  }

  lemma BytesComplete(b: seq<Byte>, m: Memory, ptr: Word, end: nat)
    requires Holds(m, ptr, [|b|] + Pack(b)) && end == ptr + 32 + 32 * |Pack(b)| && end < MODULUS
    ensures ValidateBytes(m, ptr) == Done(end)
  {
    HeldPadding(b, m, ptr);
    LoadHeld(m, ptr, |b|, Pack(b));
    AcceptedAt(m, ptr, |b|, end);
  }

  lemma BytesReadBack(b: seq<Byte>, m: Memory, ptr: Word)
    requires Holds(m, ptr, [|b|] + Pack(b))
    ensures m(ptr) == |b| && WordCount(|b|) == |Pack(b)|
    ensures PayloadAt(true, m, ptr) == BytesPayload(b)
  {
    LoadHeld(m, ptr, |b|, Pack(b));
    UnpackPack(b);
  }

  /** The encoding of every value that fits the address space is accepted and read back. */
  lemma DynamicComplete(v: Payload, m: Memory, ptr: Word)
    requires Holds(m, ptr, Tail(v)) && ptr + 32 * |Tail(v)| < MODULUS
    ensures Validate(v.BytesPayload?, m, ptr) == Done(ptr + 32 * |Tail(v)|)
    ensures PayloadAt(v.BytesPayload?, m, ptr) == v
  {
    match v
    case BytesPayload(b) =>
      BytesReadBack(b, m, ptr);
      BytesComplete(b, m, ptr, ptr + 32 + 32 * |Pack(b)|);
    case WordsPayload(ws) =>
      LoadHeld(m, ptr, |ws|, ws);
      WordsAccepted(m, ptr);
  }
}
