/** Hex strings and byte buffers as big-endian numbers. */
module HexSpec {
  import opened Bits

  datatype HexStringError = InvalidCharacter | BufferTooSmall

  predicate IsHex(c: char) { '0' <= c <= '9' || 'a' <= c <= 'f' || 'A' <= c <= 'F' }

  predicate AllHex(s: string) { forall i | 0 <= i < |s| :: IsHex(s[i]) }

  /** What every HexString holds: hex digits, two to a byte. */
  predicate ValidHex(s: string) { |s| % 2 == 0 && AllHex(s) }

  function DigitValue(c: char): (d: nat)
    ensures IsHex(c) ==> d < 16
  {
    if '0' <= c <= '9' then (c - '0') as nat
    else if 'a' <= c <= 'f' then (c - 'a') as nat + 10
    else if 'A' <= c <= 'F' then (c - 'A') as nat + 10
    else 0
  }

  function LowerDigit(d: nat): (c: char)
    requires d < 16
    ensures IsHex(c) && !('A' <= c <= 'F') && DigitValue(c) == d
  {
    if d < 10 then '0' + d as char else 'a' + (d - 10) as char
  }

  function Lower(c: char): char {
    if 'A' <= c <= 'Z' then c - 'A' + 'a' else c
  }

  function Lowercase(s: string): (t: string)
    ensures |t| == |s| && forall i | 0 <= i < |s| :: t[i] == Lower(s[i])
  {
    seq(|s|, i requires 0 <= i < |s| => Lower(s[i]))
  }

  /** The big-endian number a buffer holds. */
  function BeValue(b: seq<byte>): nat {
    if b == [] then 0 else 0x100 * BeValue(b[..|b| - 1]) + b[|b| - 1]
  }

  function Pow256(n: nat): (p: nat)
    ensures p >= 1
  {
    if n == 0 then 1 else 0x100 * Pow256(n - 1)
  }

  /** The big-endian encoding in n bytes, as `to_be_bytes`. */
  function BeBytes(v: nat, n: nat): (b: seq<byte>)
    ensures |b| == n
  {
    if n == 0 then [] else BeBytes(v / 0x100, n - 1) + [v % 0x100]
  }

  /** The number a string of hex digits denotes. */
  function HexValue(s: string): nat {
    if s == "" then 0 else 16 * HexValue(s[..|s| - 1]) + DigitValue(s[|s| - 1])
  }

  /** Two lower-case digits a byte, as the format `{:02x}`. */
  function ByteDigits(b: byte): string { [LowerDigit(b / 16), LowerDigit(b % 16)] }

  function Digits(b: seq<byte>): (s: string)
    ensures |s| == 2 * |b|
    ensures ValidHex(s)
  {
    if b == [] then "" else Digits(b[..|b| - 1]) + ByteDigits(b[|b| - 1])
  }

  function PairByte(hi: char, lo: char): byte
    requires IsHex(hi) && IsHex(lo)
  {
    16 * DigitValue(hi) + DigitValue(lo)
  }

  function PairValue(s: string, q: nat): byte
    requires ValidHex(s) && 2 * q + 1 < |s|
  {
    PairByte(s[2 * q], s[2 * q + 1])
  }

  /** The bytes spelled by the digit pairs. */
  function BytesOf(s: string): (b: seq<byte>)
    requires ValidHex(s)
    ensures |b| == |s| / 2
    ensures forall q | 0 <= q < |b| :: b[q] == PairValue(s, q)
  {
    seq(|s| / 2, q requires 0 <= q < |s| / 2 => PairValue(s, q))
  }

  // ----- the digits

  const LOWER_DIGITS := "0123456789abcdef"
  const UPPER_DIGITS := "0123456789ABCDEF"

  /** The digits accepted are these twenty-two, in either case. */
  lemma HexDigits(c: char)
    ensures IsHex(c) <==> c in "0123456789abcdefABCDEF"
  {
    assert "0123456789abcdefABCDEF" == LOWER_DIGITS + UPPER_DIGITS[10..];
    if IsHex(c) {
      var d := DigitValue(c);
      assert c == LOWER_DIGITS[d] || c == UPPER_DIGITS[d];
    }
  }

  /** Digit d of either case has value d. */
  lemma DigitTable(d: nat)
    requires d < 16
    ensures DigitValue(LOWER_DIGITS[d]) == d
    ensures DigitValue(UPPER_DIGITS[d]) == d
  {
  }

  /** It is printed in lower case, and either case is lowered to that. */
  lemma PrintedDigit(d: nat)
    requires d < 16
    ensures LowerDigit(d) == LOWER_DIGITS[d]
    ensures Lower(LOWER_DIGITS[d]) == LOWER_DIGITS[d]
    ensures Lower(UPPER_DIGITS[d]) == LOWER_DIGITS[d]
  {
  }

  // ----- values

  lemma {:induction false} BeBound(b: seq<byte>)
    ensures BeValue(b) < Pow256(|b|)
  {
    if b != [] { BeBound(b[..|b| - 1]); }
  }

  lemma {:induction false} BeBytesValue(v: nat, n: nat)
    requires v < Pow256(n)
    ensures BeValue(BeBytes(v, n)) == v
  {
    if n > 0 { BeBytesValue(v / 0x100, n - 1); }
  }

  lemma BeValueBytes(b: seq<byte>)
    ensures BeBytes(BeValue(b), |b|) == b
  {
    BeBound(b);
    BeBytesValue(BeValue(b), |b|);
    BeInjective(BeBytes(BeValue(b), |b|), b);
  }

  lemma {:induction false} BeAtLeast(b: seq<byte>)
    requires b != [] && b[0] != 0
    ensures BeValue(b) >= Pow256(|b| - 1)
  {
    if |b| > 1 {
      BeAtLeast(b[..|b| - 1]);
    }
  }

  lemma {:induction false} Pow256Mono(a: nat, b: nat)
    requires a <= b
    ensures Pow256(a) <= Pow256(b)
  {
    if a < b { Pow256Mono(a, b - 1); }
  }

  lemma {:induction false} BeLeadingZeros(z: seq<byte>, b: seq<byte>)
    requires forall k | 0 <= k < |z| :: z[k] == 0
    ensures BeValue(z + b) == BeValue(b)
  {
    if b != [] {
      assert (z + b)[..|z + b| - 1] == z + b[..|b| - 1];
      BeLeadingZeros(z, b[..|b| - 1]);
    } else if z != [] {
      assert z + b == z;
      BeLeadingZeros(z[..|z| - 1], []);
      assert z[..|z| - 1] + [] == z[..|z| - 1];
    }
  }

  lemma BeTwo(b: seq<byte>)
    requires |b| == 2
    ensures BeValue(b) == 0x100 * (b[0] as int) + (b[1] as int)
  {
    assert b[..1] == [b[0]] && b[..1][..0] == [];
    assert BeValue([b[0]]) == b[0];
  }

  lemma BeThree(b: seq<byte>)
    requires |b| == 3
    ensures BeValue(b) == 0x1_0000 * (b[0] as int) + 0x100 * (b[1] as int) + (b[2] as int)
  {
    BeTwo(b[..2]);
  }

  lemma BeFour(b: seq<byte>)
    requires |b| == 4
    ensures BeValue(b) == 0x100_0000 * (b[0] as int) + 0x1_0000 * (b[1] as int) + 0x100 * (b[2] as int) + (b[3] as int)
  {
    BeThree(b[..3]);
  }

  /** Buffers of the same length holding the same number are the same buffer. */
  lemma {:induction false} BeInjective(a: seq<byte>, b: seq<byte>)
    requires |a| == |b| && BeValue(a) == BeValue(b)
    ensures a == b
  {
    if a != [] {
      BeInjective(a[..|a| - 1], b[..|b| - 1]);
      assert a == a[..|a| - 1] + [a[|a| - 1]] && b == b[..|b| - 1] + [b[|b| - 1]];
    }
  }

  /** The index of the first significant byte. */
  function FirstNonZero(b: seq<byte>, i: nat): (k: nat)
    requires i <= |b|
    ensures i <= k <= |b|
    ensures forall t | i <= t < k :: b[t] == 0
    ensures k < |b| ==> b[k] != 0
    decreases |b| - i
  {
    if i == |b| || b[i] != 0 then i else FirstNonZero(b, i + 1)
  }

  /** The significant bytes fit in n bytes exactly when the number is below 256^n. */
  lemma FitsIsNumeric(b: seq<byte>, n: nat)
    ensures BeValue(b) < Pow256(n) <==> |b| - FirstNonZero(b, 0) <= n
  {
    var k := FirstNonZero(b, 0);
    assert b == b[..k] + b[k..];
    BeLeadingZeros(b[..k], b[k..]);
    if |b| - k <= n {
      BeBound(b[k..]);
      Pow256Mono(|b| - k, n);
    } else {
      BeAtLeast(b[k..]);
      Pow256Mono(n, |b| - k - 1);
    }
  }

  lemma {:induction false} DigitsValue(b: seq<byte>)
    ensures HexValue(Digits(b)) == BeValue(b)
  {
    if b != [] {
      var init, last := b[..|b| - 1], b[|b| - 1];
      DigitsValue(init);
      var s := Digits(b);
      assert s[..|s| - 1] == Digits(init) + [LowerDigit(last / 16)];
      assert s[..|s| - 1][..|s| - 2] == Digits(init);
    }
  }

  /** The last pair of digits spells the last byte. */
  lemma BytesSnoc(t: string, hi: char, lo: char)
    requires ValidHex(t) && IsHex(hi) && IsHex(lo)
    ensures ValidHex(t + [hi, lo])
    ensures BytesOf(t + [hi, lo]) == BytesOf(t) + [PairByte(hi, lo)]
  {
    var s := t + [hi, lo];
    forall q | 0 <= q < |t| / 2 ensures BytesOf(s)[q] == BytesOf(t)[q] {
      assert PairValue(s, q) == PairValue(t, q);
    }
    var last := |t| / 2;
    assert 2 * last == |t|;
    assert BytesOf(s)[last] == PairValue(s, last);
  }

  lemma HexValueSnoc(t: string, hi: char, lo: char)
    ensures HexValue(t + [hi, lo]) == 0x100 * HexValue(t) + 16 * DigitValue(hi) + DigitValue(lo)
  {
    var s := t + [hi, lo];
    assert s[..|s| - 1] == t + [hi];
    assert (t + [hi])[..|t|] == t;
  }

  lemma {:induction false} HexValueIsBeValue(s: string)
    requires ValidHex(s)
    ensures HexValue(s) == BeValue(BytesOf(s))
  {
    if s != "" {
      var t, hi, lo := s[..|s| - 2], s[|s| - 2], s[|s| - 1];
      assert s == t + [hi, lo];
      HexValueSnoc(t, hi, lo);
      HexValueIsBeValue(t);
      BytesSnoc(t, hi, lo);
      BeSnoc(BytesOf(t), PairByte(hi, lo));
    }
  }

  lemma BeSnoc(b: seq<byte>, x: byte)
    ensures BeValue(b + [x]) == 0x100 * BeValue(b) + x
  {
    assert (b + [x])[..|b|] == b;
  }

  /** Printing bytes and reading the digits back is the identity. */
  lemma {:induction false} BytesOfDigits(b: seq<byte>)
    ensures BytesOf(Digits(b)) == b
  {
    if b != [] {
      var init, last := b[..|b| - 1], b[|b| - 1];
      BytesOfDigits(init);
      BytesSnoc(Digits(init), LowerDigit(last / 16), LowerDigit(last % 16));
    }
  }

  /** Reading digits and printing the bytes gives the string in lower case. */
  lemma {:induction false} DigitsOfBytes(s: string)
    requires ValidHex(s)
    ensures Digits(BytesOf(s)) == Lowercase(s)
  {
    if s != "" {
      var t, hi, lo := s[..|s| - 2], s[|s| - 2], s[|s| - 1];
      assert s == t + [hi, lo];
      DigitsOfBytes(t);
      BytesSnoc(t, hi, lo);
      DigitsAppend(BytesOf(t), PairByte(hi, lo));
      BytePair(hi, lo);
      LowercaseSnoc(t, hi, lo);
    }
  }

  lemma LowercaseSnoc(t: string, hi: char, lo: char)
    ensures Lowercase(t + [hi, lo]) == Lowercase(t) + [Lower(hi), Lower(lo)]
  {
  }

  lemma BytePair(hi: char, lo: char)
    requires IsHex(hi) && IsHex(lo)
    ensures ByteDigits(PairByte(hi, lo)) == [Lower(hi), Lower(lo)]
  {
    NibbleDigits(DigitValue(hi), DigitValue(lo));
    LowerIsLowerDigit(hi);
    LowerIsLowerDigit(lo);
  }

  lemma NibbleDigits(hi: nat, lo: nat)
    requires hi < 16 && lo < 16
    ensures ByteDigits(16 * hi + lo) == [LowerDigit(hi), LowerDigit(lo)]
  {
    assert (16 * hi + lo) / 16 == hi && (16 * hi + lo) % 16 == lo;
  }

  lemma LowerIsLowerDigit(c: char)
    requires IsHex(c)
    ensures LowerDigit(DigitValue(c)) == Lower(c)
  {
  }

  lemma DigitsAppend(a: seq<byte>, x: byte)
    ensures Digits(a + [x]) == Digits(a) + ByteDigits(x)
  {
    assert (a + [x])[..|a|] == a;
  }
}
