/**
 Constants of the generated verifier: a list of 64-bit limbs, least significant first, becomes a
 hexadecimal literal in the contract.
 */
module LimbHex {
  import opened Wrappers
  import opened Arithmetic

  const LIMB := 0x1_0000_0000_0000_0000
  const LIMB_DIGITS := 16

  predicate IsHex(c: char) {
    '0' <= c <= '9' || 'a' <= c <= 'f'
  }

  function HexDigit(d: nat): (c: char)
    requires d < 16
    ensures IsHex(c) && HexValue(c) == d
  {
    if d < 10 then ('0' as int + d) as char else ('a' as int + (d - 10)) as char
  }

  function HexValue(c: char): (d: nat)
    requires IsHex(c)
    ensures d < 16
  {
    if c <= '9' then c as int - '0' as int else c as int - 'a' as int + 10
  }

  predicate AllHex(s: string) {
    forall i :: 0 <= i < |s| ==> IsHex(s[i])
  }

  /** The number that a literal's digits denote; no digits denote nothing. */
  function Denotes(s: string): Option<nat> {
    if s == "" || !AllHex(s) then None else Some(ValueOf(s))
  }

  function ValueOf(s: string): nat
    requires AllHex(s)
  {
    if s == "" then 0 else 16 * ValueOf(s[..|s| - 1]) + HexValue(s[|s| - 1])
  }

  /** `width` hexadecimal digits of `n`, padded with zeros. */
  function Padded(n: nat, width: nat): (s: string)
    ensures |s| == width && AllHex(s)
  {
    if width == 0 then "" else Padded(n / 16, width - 1) + [HexDigit(n % 16)]
  }

  function Power(b: nat, e: nat): nat {
    if e == 0 then 1 else b * Power(b, e - 1)
  }

  lemma {:induction false} PaddedValue(n: nat, width: nat)
    requires n < Power(16, width)
    ensures ValueOf(Padded(n, width)) == n
  {
    if width > 0 {
      PaddedValue(n / 16, width - 1);
      var s := Padded(n, width);
      assert s[..width - 1] == Padded(n / 16, width - 1);
    }
  }

  /** Appending digits shifts what stands before them. */
  lemma {:induction false} ValueConcat(a: string, b: string)
    requires AllHex(a) && AllHex(b)
    ensures AllHex(a + b) && ValueOf(a + b) == ValueOf(a) * Power(16, |b|) + ValueOf(b)
  {
    if b == "" {
      assert a + b == a;
    } else {
      var init, c := b[..|b| - 1], b[|b| - 1];
      ValueConcat(a, init);
      assert (a + b)[..|a + b| - 1] == a + init;
      assert (a + b)[|a + b| - 1] == c;
      Shift(ValueOf(a), Power(16, |init|));
    }
  }

  lemma Shift(v: nat, p: nat)
    ensures 16 * (v * p) == v * (16 * p)
  {
  }

  /** Two digits make a byte and so on: sixteen digits hold a limb. */
  lemma LimbWidth()
    ensures Power(16, LIMB_DIGITS) == LIMB
  {
    assert Power(16, 4) == 0x1_0000;
    assert Power(16, 8) == 0x1_0000_0000;
    assert Power(16, 12) == 0x1_0000_0000_0000;
  }

  // ----- limbs -----

  ghost predicate Limbs(numbers: seq<nat>) {
    forall i :: 0 <= i < |numbers| ==> numbers[i] < LIMB
  }

  /** The sum of `numbers[i] * 2^(64 i)`. */
  function LimbSum(numbers: seq<nat>): nat {
    if numbers == [] then 0
    else LimbSum(numbers[..|numbers| - 1]) + numbers[|numbers| - 1] * Power(LIMB, |numbers| - 1)
  }

  /** Sixteen digits per limb, the last limb in front. */
  function ConvertListToHexadecimal(numbers: seq<nat>): (s: string)
    ensures |s| == LIMB_DIGITS * |numbers| && AllHex(s)
  {
    if numbers == [] then ""
    else Padded(numbers[|numbers| - 1], LIMB_DIGITS) + ConvertListToHexadecimal(numbers[..|numbers| - 1])
  }

  lemma {:induction false} PowerAdd(b: nat, m: nat, n: nat)
    ensures Power(b, m + n) == Power(b, m) * Power(b, n)
  {
    if m > 0 {
      PowerAdd(b, m - 1, n);
      Associative(b, Power(b, m - 1), Power(b, n));
    }
  }

  lemma Associative(a: nat, b: nat, c: nat)
    ensures a * (b * c) == (a * b) * c
  {
  }

  lemma {:induction false} LimbPower(k: nat)
    ensures Power(16, LIMB_DIGITS * k) == Power(LIMB, k)
  {
    LimbWidth();
    if k > 0 {
      LimbPower(k - 1);
      PowerAdd(16, LIMB_DIGITS, LIMB_DIGITS * (k - 1));
      assert LIMB_DIGITS * k == LIMB_DIGITS + LIMB_DIGITS * (k - 1);
    }
  }

  /** The text denotes the sum of the limbs. */
  lemma {:induction false} ConvertedValue(numbers: seq<nat>)
    requires Limbs(numbers)
    ensures ValueOf(ConvertListToHexadecimal(numbers)) == LimbSum(numbers)
  {
    if numbers != [] {
      var init, top := numbers[..|numbers| - 1], numbers[|numbers| - 1];
      ConvertedValue(init);
      LimbWidth();
      PaddedValue(top, LIMB_DIGITS);
      ValueConcat(Padded(top, LIMB_DIGITS), ConvertListToHexadecimal(init));
      LimbPower(|init|);
    }
  }

  // ----- the literal -----

  function TrimZeros(s: string): (r: string)
    ensures AllHex(s) ==> AllHex(r)
    ensures r != "" ==> r[0] != '0'
  {
    if s != "" && s[0] == '0' then TrimZeros(s[1..]) else s
  }

  /** The digits of the constant: leading zeros trimmed, one put back in front of a short literal. */
  function FormatConst(hex: string): string {
    var trimmed := TrimZeros(hex);
    if |trimmed| < 64 && trimmed != "" then "0" + trimmed else trimmed
  }

  lemma {:induction false} ZeroInFront(s: string)
    requires AllHex(s)
    ensures AllHex("0" + s) && ValueOf("0" + s) == ValueOf(s)
  {
    ValueConcat("0", s);
    assert ValueOf("0") == 16 * ValueOf("") + HexValue('0') by { assert "0"[..0] == ""; }
    assert 0 * Power(16, |s|) == 0;
  }

  lemma {:induction false} TrimKeepsValue(s: string)
    requires AllHex(s)
    ensures ValueOf(TrimZeros(s)) == ValueOf(s)
  {
    if s != "" && s[0] == '0' {
      TrimKeepsValue(s[1..]);
      assert s == "0" + s[1..];
      ZeroInFront(s[1..]);
    }
  }

  lemma {:induction false} PowerPositive(e: nat)
    ensures Power(16, e) > 0
  {
    if e > 0 { PowerPositive(e - 1); }
  }

  /** Digits with a non-zero one in front denote a positive number. */
  lemma LeadingDigitPositive(s: string)
    requires AllHex(s) && s != "" && s[0] != '0'
    ensures ValueOf(s) > 0
  {
    assert s == [s[0]] + s[1..];
    ValueConcat([s[0]], s[1..]);
    assert [s[0]][..0] == "";
    assert ValueOf([s[0]]) == HexValue(s[0]) >= 1;
    PowerPositive(|s| - 1);
    MulAtLeast(Power(16, |s| - 1), ValueOf([s[0]]));
  }

  /** The literal denotes the number exactly when the number is not zero; zero prints no digits. */
  lemma FormatDenotesIff(hex: string)
    requires AllHex(hex)
    ensures Denotes(FormatConst(hex)) == Some(ValueOf(hex)) <==> ValueOf(hex) != 0
    ensures ValueOf(hex) == 0 ==> FormatConst(hex) == ""
  {
    var t := TrimZeros(hex);
    TrimKeepsValue(hex);
    if t != "" {
      LeadingDigitPositive(t);
      ZeroInFront(t);
    }
  }

  /** The constant written for a list of limbs denotes their sum, unless all limbs are zero. */
  lemma ConstantOfLimbs(numbers: seq<nat>)
    requires Limbs(numbers)
    ensures Denotes(FormatConst(ConvertListToHexadecimal(numbers))) == Some(LimbSum(numbers)) <==> LimbSum(numbers) != 0
  {
    ConvertedValue(numbers);
    FormatDenotesIff(ConvertListToHexadecimal(numbers));
  }

  // ----- equal texts, equal limbs -----

  /** The conversion loses nothing: lists with the same text are equal. */
  lemma {:induction false} ConversionInjective(a: seq<nat>, b: seq<nat>)
    requires Limbs(a) && Limbs(b) && ConvertListToHexadecimal(a) == ConvertListToHexadecimal(b)
    ensures a == b
  {
    if a != [] {
      var x, y := ConvertListToHexadecimal(a), ConvertListToHexadecimal(b);
      assert |a| == |b|;
      var m := |a| - 1;
      assert x[..16] == Padded(a[m], LIMB_DIGITS) && y[..16] == Padded(b[m], LIMB_DIGITS);
      assert x[16..] == ConvertListToHexadecimal(a[..m]) && y[16..] == ConvertListToHexadecimal(b[..m]);
      LimbWidth();
      PaddedValue(a[m], LIMB_DIGITS);
      PaddedValue(b[m], LIMB_DIGITS);
      ConversionInjective(a[..m], b[..m]);
      assert a == a[..m] + [a[m]] && b == b[..m] + [b[m]];
    }
  }
}
