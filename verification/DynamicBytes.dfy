/**
 Reading a `bytes` value from storage. The Solidity documentation stores up to 31 bytes in the
 slot itself with twice the length in its last byte, and longer data at the hash of the slot with
 twice the length plus one in the slot.
 */
module DynamicBytes {

  import opened Words

  type Slot = s: seq<Byte> | |s| == 32 witness seq(32, i => 0)

  /** `data` laid out in `storage` at `slot`, long data from `base` on. */
  ghost predicate Stored(storage: nat -> Slot, slot: nat, base: nat, data: seq<Byte>) {
    if |data| < 32 then
      && storage(slot)[..|data|] == data
      && storage(slot)[31] == 2 * |data|
    else
      && BigEndian(storage(slot)) == 2 * |data| + 1
      && forall k :: 0 <= k < WordCount(|data|) ==> Chunk(storage, base, data, k)
  }

  /** Slot `k` starts with the bytes `32 * k` and following of `data`. */
  ghost predicate Chunk(storage: nat -> Slot, base: nat, data: seq<Byte>, k: nat)
    requires k < WordCount(|data|)
  {
    var rest := data[32 * k..];
    if |rest| < 32 then storage(base + k)[..|rest|] == rest else storage(base + k) == rest[..32]
  }

  /** `substr` from the start, which stops at the end of the text. */
  function Take(s: seq<Byte>, n: nat): seq<Byte> {
    if n <= |s| then s[..n] else s
  }

  lemma BigEndianParity(s: seq<Byte>)
    requires s != []
    ensures BigEndian(s) % 2 == s[|s| - 1] % 2
  {
  }

  /** The first `n` slots from `base` on, one after the other. */
  function Concat(storage: nat -> Slot, base: nat, n: nat): seq<Byte> {
    if n == 0 then [] else Concat(storage, base, n - 1) + storage(base + n - 1)
  }

  /** What the reader computes: all slots but the last in full, the last cut to `length % 32`. */
  function Returned(storage: nat -> Slot, slot: nat, base: nat): seq<Byte> {
    var word := storage(slot);
    if word[31] % 2 == 0 then Take(word, word[31] / 2)
    else ReturnedLong(storage, base, (BigEndian(word) - 1) / 2)
  }

  function ReturnedLong(storage: nat -> Slot, base: nat, length: nat): seq<Byte> {
    var n := WordCount(length);
    if n == 0 then [] else Concat(storage, base, n - 1) + storage(base + n - 1)[..length % 32]
  }

  method ReadDynamicBytes(storage: nat -> Slot, slot: nat, base: nat) returns (r: seq<Byte>)
    ensures r == Returned(storage, slot, base)
  {
    var word := storage(slot);
    BigEndianParity(word);
    if word[31] % 2 == 0 {
      return Take(word, word[31] / 2);
    }
    r := ReadLong(storage, base, (BigEndian(word) - 1) / 2);
  }

  /** The loops over the slots from `base` on. */
  method ReadLong(storage: nat -> Slot, base: nat, length: nat) returns (r: seq<Byte>)
    ensures r == ReturnedLong(storage, base, length)
  {
    var slots: seq<Slot> := [];
    var slotShift := 0;
    while slotShift * 32 < length
      invariant |slots| == slotShift <= WordCount(length)
      invariant forall k :: 0 <= k < slotShift ==> slots[k] == storage(base + k)
    {
      slots := slots + [storage(base + slotShift)];
      slotShift := slotShift + 1;
    }
    var lastLength := length % 32;
    r := [];
    for i := 0 to |slots|
      invariant i < |slots| || i == 0 ==> r == Concat(storage, base, i)
      invariant i == |slots| > 0 ==> r == Concat(storage, base, i - 1) + storage(base + i - 1)[..lastLength]
    {
      if i == |slots| - 1 {
        r := r + slots[i][..lastLength];
      } else {
        r := r + slots[i];
      }
    }
  }

  lemma {:induction false} ConcatIsPrefix(storage: nat -> Slot, base: nat, data: seq<Byte>, n: nat)
    requires 32 * n <= |data|
    requires forall k :: 0 <= k < WordCount(|data|) ==> Chunk(storage, base, data, k)
    ensures Concat(storage, base, n) == data[..32 * n]
  {
    if n > 0 {
      ConcatIsPrefix(storage, base, data, n - 1);
      assert Chunk(storage, base, data, n - 1);
      assert data[..32 * n] == data[..32 * (n - 1)] + data[32 * (n - 1)..][..32];
    }
  }

  lemma ShortReads(storage: nat -> Slot, slot: nat, base: nat, data: seq<Byte>)
    requires Stored(storage, slot, base, data) && |data| < 32
    ensures Returned(storage, slot, base) == data
  {
  }

  lemma LongReturned(storage: nat -> Slot, slot: nat, base: nat, data: seq<Byte>, n: nat)
    requires Stored(storage, slot, base, data) && |data| >= 32 && n == WordCount(|data|) - 1
    ensures Returned(storage, slot, base) == Concat(storage, base, n) + storage(base + n)[..|data| % 32]
  {
    BigEndianParity(storage(slot));
  }

  /**
   The reader returns the stored data exactly when it is empty or its length is no multiple of 32.
   Otherwise the last slot is cut to nothing and the final 32 bytes are lost.
   */
  lemma ReadsBackUnlessWholeSlots(storage: nat -> Slot, slot: nat, base: nat, data: seq<Byte>)
    requires Stored(storage, slot, base, data)
    ensures Returned(storage, slot, base) == data <==> data == [] || |data| % 32 != 0
    ensures data != [] && |data| % 32 == 0 ==> Returned(storage, slot, base) == data[..|data| - 32]
  {
    if |data| < 32 {
      ShortReads(storage, slot, base, data);
    } else {
      var n := WordCount(|data|) - 1;
      LongReturned(storage, slot, base, data, n);
      LongReads(storage, base, data, n);
    }
  }

  /** The slots of a long value before the last, and the last one cut to `length % 32`. */
  lemma LongReads(storage: nat -> Slot, base: nat, data: seq<Byte>, n: nat)
    requires |data| >= 32 && n == WordCount(|data|) - 1
    requires forall k :: 0 <= k < WordCount(|data|) ==> Chunk(storage, base, data, k)
    ensures var r := Concat(storage, base, n) + storage(base + n)[..|data| % 32];
      && (|data| % 32 != 0 ==> r == data)
      && (|data| % 32 == 0 ==> r == data[..|data| - 32])
  {
    ConcatIsPrefix(storage, base, data, n);
    assert Chunk(storage, base, data, n);
    assert data == data[..32 * n] + data[32 * n..];
  }
}
