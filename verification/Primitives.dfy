/**
 Elementary values in a contract's storage: the bytes of a slot that hold them, and how the reader
 turns those bytes into a value. The Solidity documentation ("Layout of State Variables in Storage")
 stores a value right-aligned at its byte shift, most significant byte first.
 */
module Primitives {
  import opened Wrappers
  import opened Arithmetic
  import opened Words
  import opened DynamicBytes

  /** The types the reader takes for elementary. */
  datatype Kind = Signed | Unsigned | Boolean | Address | FixedBytes | Enumeration | ByteString | Utf8String

  /** A value; `Data` and `Characters` have a length of their own, `Hex` has that of its type. */
  datatype Scalar = Number(n: int) | Truth(b: bool) | Hex(bytes: seq<Byte>) | Data(data: seq<Byte>) | Characters(data: seq<Byte>)

  /**
   The contract's storage with what stays abstract about it: Keccak (as slot functions of a
   dynamic array and of a mapping entry), what `substr` makes of a place that runs over the end of a
   slot, which no layout has, and JavaScript's conversion of a text that is no plain decimal, such
   as `0x10`, to an index.
   */
  datatype Chain = Chain(
    storage: nat -> Slot,
    arrayBase: nat -> nat,
    entrySlot: (string, string, nat) -> nat,
    torn: (Slot, nat, nat) -> seq<Byte>,
    number: string -> Option<nat>)

  /** Sizes the compiler gives to elementary types. */
  predicate KindOk(kind: Kind, bytes: nat) {
    match kind
    case Boolean => bytes == 1
    case Address => bytes == 20
    case ByteString => bytes == 32
    case Utf8String => bytes == 32
    case _ => 1 <= bytes <= 32
  }

  // ----- the reader -----

  /** `bytes` bytes of a slot, `shift` bytes from its right end. */
  function ReadBytes(chain: Chain, slot: nat, shift: nat, bytes: nat): seq<Byte> {
    var data := chain.storage(slot);
    if shift + bytes <= 32 then data[32 - bytes - shift..32 - shift] else chain.torn(data, shift, bytes)
  }

  /** A number of that many bytes, in two's complement if it is signed. */
  function ReadNumber(chain: Chain, slot: nat, shift: nat, signed: bool, bytes: nat): int {
    var n := BigEndian(ReadBytes(chain, slot, shift, bytes));
    if signed && 2 * n >= Pow256(bytes) then n - Pow256(bytes) else n
  }

  function PrimitiveAt(chain: Chain, slot: nat, shift: nat, kind: Kind, bytes: nat): Scalar {
    match kind
    case Signed => Number(ReadNumber(chain, slot, shift, true, bytes))
    case Unsigned => Number(ReadNumber(chain, slot, shift, false, bytes))
    case Boolean => Truth(ReadNumber(chain, slot, shift, false, 1) != 0)
    case Address => Hex(ReadBytes(chain, slot, shift, 20))
    case ByteString => Data(Returned(chain.storage, slot, chain.arrayBase(slot)))
    case FixedBytes => Hex(ReadBytes(chain, slot, shift, bytes))
    case Utf8String => Characters(Returned(chain.storage, slot, chain.arrayBase(slot)))
    case Enumeration => Number(ReadNumber(chain, slot, shift, false, bytes))
  }

  method ReadPrimitive(chain: Chain, slot: nat, shift: nat, kind: Kind, bytes: nat) returns (v: Scalar)
    ensures v == PrimitiveAt(chain, slot, shift, kind, bytes)
    ensures forall w :: KindOk(kind, bytes) && StoredScalar(chain, slot, shift, kind, bytes, w) ==> v == SeenScalar(w)
  {
    forall w | KindOk(kind, bytes) && StoredScalar(chain, slot, shift, kind, bytes, w)
      ensures PrimitiveAt(chain, slot, shift, kind, bytes) == SeenScalar(w)
    {
      ReadsScalar(chain, slot, shift, kind, bytes, w);
    }
    match kind
    case Signed => v := Number(ReadNumber(chain, slot, shift, true, bytes));
    case Unsigned => v := Number(ReadNumber(chain, slot, shift, false, bytes));
    case Boolean => v := Truth(ReadNumber(chain, slot, shift, false, 1) != 0);
    case Address => v := Hex(ReadBytes(chain, slot, shift, 20));
    case ByteString =>
      var data := ReadDynamicBytes(chain.storage, slot, chain.arrayBase(slot));
      v := Data(data);
    case FixedBytes => v := Hex(ReadBytes(chain, slot, shift, bytes));
    case Utf8String =>
      var data := ReadDynamicBytes(chain.storage, slot, chain.arrayBase(slot));
      v := Characters(data);
    case Enumeration => v := Number(ReadNumber(chain, slot, shift, false, bytes));
  }

  // ----- the layout -----

  /** Digit `k` of `n` to the base 256, counted from the right. */
  function Digit(n: nat, k: nat): nat {
    n / Pow256(k) % 256
  }

  /** The bytes of `word` from `shift` on, counted from the right, are the digits of `n`. */
  ghost predicate HoldsNumber(word: Slot, shift: nat, bytes: nat, n: nat) {
    shift + bytes <= 32 && n < Pow256(bytes) && forall k: nat :: k < bytes ==> word[31 - shift - k] == Digit(n, k)
  }

  /** The bytes of `word` that end `shift` bytes before its end are `s`. */
  ghost predicate HoldsBytes(word: Slot, shift: nat, s: seq<Byte>) {
    shift + |s| <= 32 && forall k :: 0 <= k < |s| ==> word[32 - shift - |s| + k] == s[k]
  }

  /** The value `v` of that type lies at that place. */
  ghost predicate StoredScalar(chain: Chain, slot: nat, shift: nat, kind: Kind, bytes: nat, v: Scalar) {
    var word := chain.storage(slot);
    match kind
    case Signed =>
      && v.Number? && 2 * v.n + Pow256(bytes) >= 0 && 2 * v.n < Pow256(bytes)
      && HoldsNumber(word, shift, bytes, if v.n < 0 then v.n + Pow256(bytes) else v.n)
    case Unsigned => v.Number? && v.n >= 0 && HoldsNumber(word, shift, bytes, v.n)
    case Enumeration => v.Number? && v.n >= 0 && HoldsNumber(word, shift, bytes, v.n)
    case Boolean => v.Truth? && shift < 32 && word[31 - shift] == if v.b then 1 else 0
    case Address => v.Hex? && |v.bytes| == 20 && HoldsBytes(word, shift, v.bytes)
    case FixedBytes => v.Hex? && |v.bytes| == bytes && HoldsBytes(word, shift, v.bytes)
    case ByteString => v.Data? && Stored(chain.storage, slot, chain.arrayBase(slot), v.data)
    case Utf8String => v.Characters? && Stored(chain.storage, slot, chain.arrayBase(slot), v.data)
  }

  // ----- reading what is stored -----

  /** Data that fills whole slots loses its last one. */
  function Shortened(data: seq<Byte>): seq<Byte> {
    if |data| % 32 == 0 && |data| >= 32 then data[..|data| - 32] else data
  }

  /** What the reader shows of a stored value. */
  function SeenScalar(v: Scalar): Scalar {
    match v
    case Data(data) => Data(Shortened(data))
    case Characters(data) => Characters(Shortened(data))
    case _ => v
  }

  lemma DivDiv(n: nat, p: nat)
    requires p >= 1
    ensures n / 256 / p == n / (256 * p)
  {
    var q, r := n / 256 / p, n / 256 % p;
    assert n / 256 == p * q + r;
    assert n == 256 * (p * q + r) + n % 256;
    assert 256 * (p * q) == (256 * p) * q;
    DivModUnique(n, 256 * p, q, 256 * r + n % 256);
  }

  lemma DigitOfQuotient(n: nat, k: nat)
    ensures Digit(n / 256, k) == Digit(n, k + 1)
  {
    DivDiv(n, Pow256(k));
  }

  /** Bytes that are the digits of a number denote it. */
  lemma {:induction false} DigitsDenote(s: seq<Byte>, n: nat)
    requires n < Pow256(|s|) && forall k: nat :: k < |s| ==> s[|s| - 1 - k] == Digit(n, k)
    ensures BigEndian(s) == n
  {
    if s != [] {
      var m := |s| - 1;
      assert s[m - 0] == Digit(n, 0);
      forall k: nat | k < m ensures s[..m][m - 1 - k] == Digit(n / 256, k) {
        DigitOfQuotient(n, k);
        assert s[m - (k + 1)] == Digit(n, k + 1);
      }
      DigitsDenote(s[..m], n / 256);
    }
  }

  lemma HeldNumber(chain: Chain, slot: nat, shift: nat, bytes: nat, n: nat)
    requires HoldsNumber(chain.storage(slot), shift, bytes, n)
    ensures BigEndian(ReadBytes(chain, slot, shift, bytes)) == n
  {
    var s := ReadBytes(chain, slot, shift, bytes);
    forall k: nat | k < |s| ensures s[|s| - 1 - k] == Digit(n, k) {
      assert chain.storage(slot)[31 - shift - k] == Digit(n, k);
    }
    DigitsDenote(s, n);
  }

  lemma HeldBytes(chain: Chain, slot: nat, shift: nat, s: seq<Byte>)
    requires HoldsBytes(chain.storage(slot), shift, s)
    ensures ReadBytes(chain, slot, shift, |s|) == s
  {
  }

  lemma HeldTruth(chain: Chain, slot: nat, shift: nat, b: bool)
    requires shift < 32 && chain.storage(slot)[31 - shift] == if b then 1 else 0
    ensures BigEndian(ReadBytes(chain, slot, shift, 1)) == if b then 1 else 0
  {
    var s := ReadBytes(chain, slot, shift, 1);
    assert s == [chain.storage(slot)[31 - shift]] && s[..0] == [];
  }

  lemma HeldData(chain: Chain, slot: nat, data: seq<Byte>)
    requires Stored(chain.storage, slot, chain.arrayBase(slot), data)
    ensures Returned(chain.storage, slot, chain.arrayBase(slot)) == Shortened(data)
  {
    ReadsBackUnlessWholeSlots(chain.storage, slot, chain.arrayBase(slot), data);
  }

  /** The reader shows the stored value, whatever its type and place. */
  lemma ReadsScalar(chain: Chain, slot: nat, shift: nat, kind: Kind, bytes: nat, v: Scalar)
    requires KindOk(kind, bytes) && StoredScalar(chain, slot, shift, kind, bytes, v)
    ensures PrimitiveAt(chain, slot, shift, kind, bytes) == SeenScalar(v)
  {
    match kind
    case Signed => HeldNumber(chain, slot, shift, bytes, if v.n < 0 then v.n + Pow256(bytes) else v.n);
    case Unsigned => HeldNumber(chain, slot, shift, bytes, v.n);
    case Enumeration => HeldNumber(chain, slot, shift, bytes, v.n);
    case Boolean => HeldTruth(chain, slot, shift, v.b);
    case Address => HeldBytes(chain, slot, shift, v.bytes);
    case FixedBytes => HeldBytes(chain, slot, shift, v.bytes);
    case ByteString => HeldData(chain, slot, v.data);
    case Utf8String => HeldData(chain, slot, v.data);
  }

  /** The value itself is shown unless it is data that fills whole slots. */
  lemma SeenUnlessWholeSlots(v: Scalar)
    ensures SeenScalar(v) == v <==> !(v.Data? || v.Characters?) || v.data == [] || |v.data| % 32 != 0
  {
    if v.Data? || v.Characters? {
      if v.data != [] && |v.data| % 32 == 0 {
        assert |Shortened(v.data)| == |v.data| - 32;
      }
    }
  }
}
