/**
 256-bit words, their big-endian bytes, and how a byte string is packed into words.
 */
module Words {
  import opened Arithmetic

  type Byte = b: int | 0 <= b < 256

  const MODULUS: nat := 0x1_0000000000000000_0000000000000000_0000000000000000_0000000000000000

  type Word = w: int | 0 <= w < MODULUS

  /** The number a big-endian byte sequence denotes. */
  function BigEndian(s: seq<Byte>): nat {
    if s == [] then 0 else 256 * BigEndian(s[..|s| - 1]) + s[|s| - 1]
  }

  /** The low `n` bytes of `w`, most significant first. */
  function ToBytes(w: nat, n: nat): (s: seq<Byte>)
    ensures |s| == n
  {
    if n == 0 then [] else ToBytes(w / 256, n - 1) + [w % 256]
  }

  function Pow256(n: nat): (p: nat)
    ensures p >= 1
  {
    if n == 0 then 1 else 256 * Pow256(n - 1)
  }

  lemma Pow256Adds(m: nat, n: nat)
    ensures Pow256(m + n) == Pow256(m) * Pow256(n)
  {
    if m > 0 {
      Pow256Adds(m - 1, n);
      assert Pow256(m + n) == 256 * (Pow256(m - 1) * Pow256(n)) == (256 * Pow256(m - 1)) * Pow256(n);
    }
  }

  lemma ModulusIsPow256()
    ensures Pow256(32) == MODULUS
  {
    assert Pow256(4) == 0x1_00000000;
    Pow256Adds(4, 4);
    Pow256Adds(8, 8);
    Pow256Adds(16, 16);
  }

  lemma {:induction false} BigEndianBound(s: seq<Byte>)
    ensures BigEndian(s) < Pow256(|s|)
  {
    if s != [] {
      BigEndianBound(s[..|s| - 1]);
    }
  }

  lemma {:induction false} ToBytesOfBigEndian(s: seq<Byte>)
    ensures ToBytes(BigEndian(s), |s|) == s
  {
    if s != [] {
      var n := |s| - 1;
      ToBytesOfBigEndian(s[..n]);
      assert BigEndian(s) / 256 == BigEndian(s[..n]) && BigEndian(s) % 256 == s[n];
      assert s == s[..n] + [s[n]];
    }
  }

  lemma {:induction false} BigEndianOfToBytes(w: nat, n: nat)
    requires w < Pow256(n)
    ensures BigEndian(ToBytes(w, n)) == w
  {
    if n > 0 {
      BigEndianOfToBytes(w / 256, n - 1);
      var s := ToBytes(w, n);
      assert s[..n - 1] == ToBytes(w / 256, n - 1);
    }
  }

  /** `s` as a 32-byte word. */
  function WordOf(s: seq<Byte>): Word
    requires |s| == 32
  {
    ModulusIsPow256();
    BigEndianBound(s);
    BigEndian(s)
  }

  function Zeros(n: nat): (z: seq<Byte>)
    ensures |z| == n && forall i :: 0 <= i < n ==> z[i] == 0
  {
    seq(n, i => 0)
  }

  /** A word is divisible by `256^z` exactly when its last `z` bytes are zero. */
  lemma {:induction false} LowBytesZero(w: nat, n: nat, z: nat)
    requires z <= n
    ensures w % Pow256(z) == 0 <==> ToBytes(w, n)[n - z..] == Zeros(z)
  {
    if z == 0 {
      assert ToBytes(w, n)[n..] == [];
    } else {
      LowBytesZero(w / 256, n - 1, z - 1);
      var s, t := ToBytes(w, n), ToBytes(w / 256, n - 1);
      assert s[n - z..] == t[n - z..] + [w % 256];
      assert Zeros(z) == Zeros(z - 1) + [0];
      assert s[n - z..] == Zeros(z) <==> t[n - z..] == Zeros(z - 1) && w % 256 == 0 by {
        if s[n - z..] == Zeros(z) {
          assert t[n - z..] == s[n - z..][..z - 1] == Zeros(z)[..z - 1] == Zeros(z - 1);
          assert s[n - z..][z - 1] == w % 256;
        }
      }
      DivisibleStep(w, Pow256(z - 1));
    }
  }

  lemma DivisibleStep(w: nat, p: nat)
    requires p >= 1
    ensures w % (256 * p) == 0 <==> w % 256 == 0 && (w / 256) % p == 0
  {
    var q, r := (w / 256) / p, (w / 256) % p;
    assert w / 256 == p * q + r;
    assert w == 256 * (p * q + r) + w % 256;
    assert 256 * (p * q) == (256 * p) * q;
    DivModUnique(w, 256 * p, q, 256 * r + w % 256);
  }

  // ----- byte strings as words -----

  /** Number of words that hold `n` bytes. */
  function WordCount(n: nat): nat {
    (n + 31) / 32
  }

  /** `s` filled up with zeros to whole words, as the ABI encodes `bytes`. */
  function Pack(s: seq<Byte>): (ws: seq<Word>)
    ensures |ws| == WordCount(|s|)
  {
    if s == [] then []
    else if |s| <= 32 then [WordOf(s + Zeros(32 - |s|))]
    else [WordOf(s[..32])] + Pack(s[32..])
  }

  /** The first `n` bytes held in `ws`. */
  function Unpack(ws: seq<Word>, n: nat): (s: seq<Byte>)
    requires |ws| == WordCount(n)
    ensures |s| == n
  {
    if n == 0 then []
    else if n <= 32 then ToBytes(ws[0], 32)[..n]
    else ToBytes(ws[0], 32) + Unpack(ws[1..], n - 32)
  }

  lemma {:induction false} UnpackPack(s: seq<Byte>)
    ensures Unpack(Pack(s), |s|) == s
  {
    if s == [] {
    } else if |s| <= 32 {
      ToBytesOfBigEndian(s + Zeros(32 - |s|));
    } else {
      ToBytesOfBigEndian(s[..32]);
      UnpackPack(s[32..]);
      assert Pack(s)[1..] == Pack(s[32..]);
      assert s == s[..32] + s[32..];
    }
  }

  /** A word is the packing of its first `n` bytes exactly when the other bytes are zero. */
  lemma PackOne(w: Word, n: nat)
    requires 1 <= n <= 32 && w % Pow256(32 - n) == 0
    ensures WordOf(ToBytes(w, 32)[..n] + Zeros(32 - n)) == w
  {
    var b := ToBytes(w, 32);
    LowBytesZero(w, 32, 32 - n);
    assert b == b[..n] + b[n..];
    ModulusIsPow256();
    BigEndianOfToBytes(w, 32);
  }

  lemma PaddingOne(s: seq<Byte>)
    requires 1 <= |s| <= 32
    ensures WordOf(s + Zeros(32 - |s|)) % Pow256(32 - |s|) == 0
  {
    var b := s + Zeros(32 - |s|);
    ToBytesOfBigEndian(b);
    assert b[|s|..] == Zeros(32 - |s|);
    LowBytesZero(WordOf(b), 32, 32 - |s|);
  }

  /** Number of zero bytes that fill a string of length `n` up to whole words. */
  function PadLength(n: nat): (z: nat)
    ensures z < 32
  {
    (32 - n % 32) % 32
  }

  lemma PadLengthStep(n: nat)
    ensures n > 32 ==> PadLength(n - 32) == PadLength(n)
    ensures 1 <= n <= 32 ==> PadLength(n) == 32 - n
  {
    if n > 32 {
      assert (n - 32) % 32 == n % 32;
    } else if n == 32 {
      assert n % 32 == 0;
    } else {
      assert n % 32 == n;
    }
  }

  lemma PackCons(w: Word, rest: seq<Byte>)
    requires rest != []
    ensures Pack(ToBytes(w, 32) + rest) == [w] + Pack(rest)
  {
    ModulusIsPow256();
    BigEndianOfToBytes(w, 32);
    var s := ToBytes(w, 32) + rest;
    assert s[..32] == ToBytes(w, 32) && s[32..] == rest;
  }

  lemma WordCountStep(n: nat)
    requires n > 32
    ensures WordCount(n - 32) == WordCount(n) - 1
  {
  }

  lemma PackUnpackCons(w: Word, rest: seq<Word>, n: nat)
    requires n > 32 && |rest| == WordCount(n - 32) && Pack(Unpack(rest, n - 32)) == rest
    ensures WordCount(n) == 1 + |rest| && Pack(Unpack([w] + rest, n)) == [w] + rest
  {
    WordCountStep(n);
    assert ([w] + rest)[1..] == rest;
    PackCons(w, Unpack(rest, n - 32));
  }

  /** Words whose padding is zero are the packing of the bytes they hold. */
  lemma {:induction false} PackUnpack(ws: seq<Word>, n: nat)
    requires n > 0 && |ws| == WordCount(n)
    requires ws[|ws| - 1] % Pow256(PadLength(n)) == 0
    ensures Pack(Unpack(ws, n)) == ws
  {
    PadLengthStep(n);
    if n <= 32 {
      PackOne(ws[0], n);
    } else {
      WordCountStep(n);
      var w, rest := ws[0], ws[1..];
      assert ws == [w] + rest && rest[|rest| - 1] == ws[|ws| - 1];
      PackUnpack(rest, n - 32);
      PackUnpackCons(w, rest, n);
    }
  }

  /** The padding of a packed string is zero. */
  lemma {:induction false} PackPadding(s: seq<Byte>)
    requires s != []
    ensures var ws := Pack(s); ws[|ws| - 1] % Pow256(PadLength(|s|)) == 0
  {
    PadLengthStep(|s|);
    if |s| <= 32 {
      PaddingOne(s);
    } else {
      PackPadding(s[32..]);
    }
  }

  // ----- modular addition -----

  lemma ModCancel(a: nat, x: nat, y: nat)
    requires x < MODULUS && (a + x) % MODULUS == (a + y) % MODULUS
    ensures x == y % MODULUS
  {
  }
}
