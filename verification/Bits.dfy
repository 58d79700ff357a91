/** Machine words as bounded integers, with the bitwise operators the bridge uses
    and the few laws its loops need. Bit 0 is the least significant bit. */
module Bits {

  type byte = x: int | 0 <= x < 0x100
  type u16 = x: int | 0 <= x < 0x1_0000

  /** A zeroed buffer, as `vec![0x00; n]`. */
  function Zeros(n: nat): (z: seq<byte>)
    ensures |z| == n
    ensures forall k | 0 <= k < n :: z[k] == 0
  {
    seq(n, _ => 0)
  }

  function Num(b: bool): nat { if b then 1 else 0 }

  function Pow2(n: nat): (p: nat)
    ensures p >= 1
  {
    if n == 0 then 1 else 2 * Pow2(n - 1)
  }

  predicate Bit(w: nat, j: nat) {
    if j == 0 then w % 2 == 1 else Bit(w / 2, j - 1)
  }

  function And(a: nat, b: nat): (r: nat)
    ensures r <= a && r <= b
  {
    if a == 0 || b == 0 then 0 else 2 * And(a / 2, b / 2) + (if a % 2 == 1 && b % 2 == 1 then 1 else 0)
  }

  function Or(a: nat, b: nat): nat {
    if a == 0 then b else if b == 0 then a
    else 2 * Or(a / 2, b / 2) + (if a % 2 == 1 || b % 2 == 1 then 1 else 0)
  }

  function Shl(a: nat, k: nat): nat {
    if k == 0 then a else 2 * Shl(a, k - 1)
  }

  function Shr(a: nat, k: nat): nat {
    if k == 0 then a else Shr(a / 2, k - 1)
  }

  /** The complement of a 16-bit word. */
  function Not16(a: u16): u16 { 0xffff - a }

  function Popcount(w: nat): nat {
    if w == 0 then 0 else w % 2 + Popcount(w / 2)
  }

  // ----- the operators, bit by bit

  lemma ZeroBit(j: nat)
    ensures !Bit(0, j)
  {
    if j > 0 { ZeroBit(j - 1); }
  }

  lemma AndHalf(a: nat, b: nat)
    ensures And(a, b) / 2 == And(a / 2, b / 2)
    ensures And(a, b) % 2 == 1 <==> a % 2 == 1 && b % 2 == 1
  {
  }

  lemma {:induction false} AndBit(a: nat, b: nat, j: nat)
    ensures Bit(And(a, b), j) == (Bit(a, j) && Bit(b, j))
  {
    AndHalf(a, b);
    if j > 0 { AndBit(a / 2, b / 2, j - 1); }
  }

  lemma OrHalf(a: nat, b: nat)
    ensures Or(a, b) / 2 == Or(a / 2, b / 2)
    ensures Or(a, b) % 2 == 1 <==> a % 2 == 1 || b % 2 == 1
  {
  }

  lemma {:induction false} OrBit(a: nat, b: nat, j: nat)
    ensures Bit(Or(a, b), j) == (Bit(a, j) || Bit(b, j))
  {
    OrHalf(a, b);
    if j > 0 { OrBit(a / 2, b / 2, j - 1); }
  }

  lemma {:induction false} ShrBit(a: nat, k: nat, j: nat)
    ensures Bit(Shr(a, k), j) == Bit(a, j + k)
  {
    if k > 0 { ShrBit(a / 2, k - 1, j); }
  }

  /** A word with one bit set: 1 << j. */
  lemma {:induction false} OneBit(j: nat, t: nat)
    ensures Shl(1, j) == Pow2(j)
    ensures Bit(Shl(1, j), t) == (t == j)
  {
    if j == 0 {
      if t > 0 { ZeroBit(t - 1); }
    } else {
      OneBit(j - 1, if t == 0 then 0 else t - 1);
    }
  }

  lemma {:induction false} Pow2Mono(a: nat, b: nat)
    requires a <= b
    ensures Pow2(a) <= Pow2(b)
  {
    if a < b { Pow2Mono(a, b - 1); }
  }

  /** Words of n bits with the same bits are the same word. */
  lemma {:induction false} SameBits(a: nat, b: nat, n: nat)
    requires a < Pow2(n) && b < Pow2(n)
    requires forall j: nat | j < n :: Bit(a, j) == Bit(b, j)
    ensures a == b
  {
    if n > 0 {
      assert Bit(a, 0) == Bit(b, 0);
      forall j: nat | j < n - 1 ensures Bit(a / 2, j) == Bit(b / 2, j) {
        assert Bit(a, j + 1) == Bit(b, j + 1);
      }
      SameBits(a / 2, b / 2, n - 1);
    }
  }

  lemma {:induction false} OrBound(a: nat, b: nat, n: nat)
    requires a < Pow2(n) && b < Pow2(n)
    ensures Or(a, b) < Pow2(n)
  {
    if a != 0 && b != 0 { OrBound(a / 2, b / 2, n - 1); }
  }

  /** Oring in a bit above all the bits of a word adds it. */
  lemma {:induction false} OrHighBit(a: nat, n: nat, b: bool)
    requires a < Pow2(n)
    ensures Or(a, Shl(Num(b), n)) == a + (if b then Pow2(n) else 0)
    ensures Or(a, Shl(Num(b), n)) < Pow2(n + 1)
  {
    if b { OneBit(n, 0); } else { ShlZero(n); }
    if n > 0 { OrHighBit(a / 2, n - 1, b); }
  }

  lemma ShlZero(n: nat)
    ensures Shl(0, n) == 0
  {
  }

  /** Testing one bit with a mask, as `w & (1 << j) != 0`. */
  lemma {:induction false} TestBit(w: nat, j: nat)
    ensures (And(w, Shl(1, j)) != 0) == Bit(w, j)
    ensures Shr(And(w, Shl(1, j)), j) == Num(Bit(w, j))
  {
    OneBit(j, 0);
    if j == 0 {
      if w != 0 { assert And(w / 2, 0) == 0; }
    } else if w == 0 {
      ZeroBit(j);
      ShrZero(j);
    } else {
      TestBit(w / 2, j - 1);
      assert And(w, Shl(1, j)) == 2 * And(w / 2, Shl(1, j - 1));
    }
  }

  lemma ShrZero(n: nat)
    ensures Shr(0, n) == 0
  {
  }

  /** The low bit, as `w & 1`. */
  lemma LowBit(w: nat)
    ensures And(w, 1) == w % 2 == Num(Bit(w, 0))
  {
    if w != 0 { assert And(w / 2, 0) == 0; }
  }

  lemma OneBitFits(j: nat)
    requires j < 16
    ensures Shl(1, j) < 0x1_0000
  {
    OneBit(j, 0);
    Pow2Mono(j + 1, 16);
    Sixteen();
  }

  /** Setting and clearing one bit of a 16-bit row. */
  lemma SetRowBit(w: u16, j: nat, t: nat)
    requires j < 16
    ensures Or(w, Shl(1, j)) < 0x1_0000
    ensures Bit(Or(w, Shl(1, j)), t) == (Bit(w, t) || t == j)
  {
    OrBit(w, Shl(1, j), t);
    OneBit(j, t);
    OneBitFits(j);
    assert Pow2(16) == 0x1_0000 by { Sixteen(); }
    OrBound(w, Shl(1, j), 16);
  }

  lemma Sixteen()
    ensures Pow2(4) == 0x10 && Pow2(8) == 0x100 && Pow2(16) == 0x1_0000
  {
    assert Pow2(4) == 16;
    assert Pow2(8) == 256;
    assert Pow2(12) == 4096;
  }

  lemma ComplementHalves(m: nat, n: nat, w: nat)
    requires w > 0 && m + n == Pow2(w) - 1
    ensures m / 2 + n / 2 == Pow2(w - 1) - 1 && m % 2 + n % 2 == 1
  {
  }

  lemma {:induction false} ComplementBit(a: nat, n: nat, t: nat)
    requires a < Pow2(n) && t < n
    ensures Bit(Pow2(n) - 1 - a, t) == !Bit(a, t)
  {
    ComplementHalves(a, Pow2(n) - 1 - a, n);
    if t > 0 {
      ComplementBit(a / 2, n - 1, t - 1);
    }
  }

  lemma ClearRowBit(w: u16, j: nat, t: nat)
    requires j < 16 && t < 16
    ensures Shl(1, j) < 0x1_0000
    ensures Bit(And(w, Not16(Shl(1, j))), t) == (Bit(w, t) && t != j)
  {
    OneBitFits(j);
    Sixteen();
    OneBit(j, t);
    AndBit(w, Not16(Shl(1, j)), t);
    ComplementBit(Shl(1, j), 16, t);
  }

  lemma OnesHalf(n: nat)
    requires n > 0
    ensures (Pow2(n) - 1) / 2 == Pow2(n - 1) - 1 && (Pow2(n) - 1) % 2 == 1
  {
  }

  lemma AndOnesBelow(a: nat, n: nat)
    ensures And(a, Pow2(n) - 1) < Pow2(n)
  {
  }

  lemma SplitStep(a: nat, m: nat, hi: nat)
    requires m % 2 == 1 && a / 2 == hi + And(a / 2, m / 2)
    ensures a == 2 * hi + And(a, m)
  {
    AndStep(a, m);
  }

  /** A word is its high part, shifted back, plus its low n bits. */
  lemma {:induction false} SplitAt(a: nat, n: nat)
    ensures a == Shl(Shr(a, n), n) + And(a, Pow2(n) - 1)
  {
    if n > 0 {
      SplitAt(a / 2, n - 1);
      OnesHalf(n);
      SplitStep(a, Pow2(n) - 1, Shl(Shr(a / 2, n - 1), n - 1));
    }
  }

  lemma {:induction false} ShlTimes(a: nat, n: nat)
    ensures Shl(a, n) == a * Pow2(n)
  {
    if n > 0 {
      ShlTimes(a, n - 1);
      assert a * Pow2(n) == 2 * (a * Pow2(n - 1));
    }
  }

  lemma DivModUnique(a: int, m: int, q: int, r: int)
    requires m > 0 && a == q * m + r && 0 <= r < m
    ensures a % m == r && a / m == q
  {
    var d := a / m - q;
    assert m * d == r - a % m by {
      assert a == m * (a / m) + a % m;
      assert m * d == m * (a / m) - m * q;
    }
    MulAtLeast(m, d);
  }

  lemma MulAtLeast(m: int, d: int)
    requires m > 0
    ensures d >= 1 ==> m * d >= m
    ensures d <= -1 ==> m * d <= -m
  {
    if d >= 1 {
      assert m * d == m + m * (d - 1);
    } else if d <= -1 {
      assert m * d == -m + m * (d + 1);
    }
  }

  /** Masking with n ones is the remainder modulo 2^n, and shifting right by n the quotient. */
  lemma AndOnes(a: nat, n: nat)
    ensures And(a, Pow2(n) - 1) == a % Pow2(n)
    ensures Shr(a, n) == a / Pow2(n)
  {
    SplitAt(a, n);
    AndOnesBelow(a, n);
    ShlTimes(Shr(a, n), n);
    DivModUnique(a, Pow2(n), Shr(a, n), And(a, Pow2(n) - 1));
  }

  /** Two masks that share out the bits of a word share out its value. */
  lemma {:induction false} AndComplement(a: nat, m: nat, n: nat, w: nat)
    requires a < Pow2(w) && m + n == Pow2(w) - 1
    ensures And(a, m) + And(a, n) == a
  {
    if w > 0 {
      ComplementHalves(m, n, w);
      AndComplement(a / 2, m / 2, n / 2, w - 1);
      AndStep(a, m);
      AndStep(a, n);
    }
  }

  lemma AndStep(a: nat, b: nat)
    ensures And(a, b) == 2 * And(a / 2, b / 2) + (if a % 2 == 1 && b % 2 == 1 then 1 else 0)
  {
  }

  lemma LowNibble(a: nat)
    ensures And(a, 0x0f) == a % 16
    ensures Shr(a, 4) == a / 16
  {
    AndOnes(a, 4);
    assert Pow2(4) == 16;
  }

  lemma HighNibble(op: byte)
    ensures And(op, 0xf0) == op - op % 16
  {
    LowNibble(op);
    assert Pow2(8) == 0x100 by { Sixteen(); }
    AndComplement(op, 0x0f, 0xf0, 8);
  }

  lemma RowOfCode(op: byte)
    requires op >= 0x80
    ensures Shr(op - 0x80, 4) == (op - 0x80) / 16
    ensures Shr(op - op % 16 - 0x80, 4) == (op - 0x80) / 16
  {
    LowNibble(op - 0x80);
    WholeRows(op, (op - 0x80) / 16);
    LowNibble(op - op % 16 - 0x80);
  }

  lemma WholeRows(op: byte, q: nat)
    requires op >= 0x80 && q == (op - 0x80) / 16
    ensures op - op % 16 - 0x80 == 16 * q
  {
  }

  /** How an operation code is split into a row and a bit: `(op - 0x80) >> 4`, `op & 0x0f`, `op & 0xf0`. */
  lemma SplitCode(op: byte)
    ensures And(op, 0x0f) == op % 16
    ensures And(op, 0xf0) == op - op % 16
    ensures op >= 0x80 ==> Shr(op - 0x80, 4) == (op - 0x80) / 16
    ensures op >= 0x80 ==> Shr(And(op, 0xf0) - 0x80, 4) == (op - 0x80) / 16
  {
    LowNibble(op);
    HighNibble(op);
    if op >= 0x80 { RowOfCode(op); }
  }

  // ----- bit matrices: |rows| words, read across at bit position j

  /** The word whose bit i is bit j of rows[i]. */
  function Column(rows: seq<nat>, j: nat): (c: nat)
    ensures c < Pow2(|rows|)
  {
    if rows == [] then 0 else Num(Bit(rows[0], j)) + 2 * Column(rows[1..], j)
  }

  function Transpose(rows: seq<nat>, n: nat): (cols: seq<nat>)
    ensures |cols| == n
    ensures forall j | 0 <= j < n :: cols[j] == Column(rows, j)
  {
    seq(n, j requires 0 <= j < n => Column(rows, j))
  }

  lemma {:induction false} ColumnBit(rows: seq<nat>, j: nat, i: nat)
    requires i < |rows|
    ensures Bit(Column(rows, j), i) == Bit(rows[i], j)
  {
    assert Column(rows, j) / 2 == Column(rows[1..], j);
    if i > 0 {
      ColumnBit(rows[1..], j, i - 1);
    }
  }

  lemma {:induction false} ColumnSnoc(rows: seq<nat>, r: nat, j: nat)
    ensures Column(rows + [r], j) == Column(rows, j) + (if Bit(r, j) then Pow2(|rows|) else 0)
  {
    if rows == [] {
      assert [r][1..] == [];
    } else {
      assert (rows + [r])[1..] == rows[1..] + [r];
      ColumnSnoc(rows[1..], r, j);
    }
  }

  /** Transposing twice gives the matrix back, whatever its shape. */
  lemma TransposeInvolution(rows: seq<nat>, n: nat)
    requires forall i | 0 <= i < |rows| :: rows[i] < Pow2(n)
    ensures Transpose(Transpose(rows, n), |rows|) == rows
  {
    var cols := Transpose(rows, n);
    forall i | 0 <= i < |rows| ensures Column(cols, i) == rows[i] {
      forall j: nat | j < n ensures Bit(Column(cols, i), j) == Bit(rows[i], j) {
        ColumnBit(cols, i, j);
        ColumnBit(rows, j, i);
      }
      SameBits(Column(cols, i), rows[i], n);
    }
  }

  function SumPop(ws: seq<nat>): nat {
    if ws == [] then 0 else Popcount(ws[0]) + SumPop(ws[1..])
  }

  lemma {:induction false} SumPopSnoc(ws: seq<nat>, w: nat)
    ensures SumPop(ws + [w]) == SumPop(ws) + Popcount(w)
  {
    if ws == [] {
      assert [w][1..] == [];
    } else {
      assert (ws + [w])[1..] == ws[1..] + [w];
      SumPopSnoc(ws[1..], w);
    }
  }

  function SumOdd(ws: seq<nat>): nat {
    if ws == [] then 0 else ws[0] % 2 + SumOdd(ws[1..])
  }

  function Halve(ws: seq<nat>): (hs: seq<nat>)
    ensures |hs| == |ws|
    ensures forall j | 0 <= j < |ws| :: hs[j] == ws[j] / 2
  {
    seq(|ws|, j requires 0 <= j < |ws| => ws[j] / 2)
  }

  lemma {:induction false} SumPopHalve(ws: seq<nat>)
    ensures SumPop(ws) == SumOdd(ws) + SumPop(Halve(ws))
  {
    if ws != [] {
      assert Halve(ws)[1..] == Halve(ws[1..]);
      SumPopHalve(ws[1..]);
    }
  }

  lemma {:induction false} PopcountOfRow(w: nat, cols: seq<nat>)
    requires w < Pow2(|cols|)
    requires forall j | 0 <= j < |cols| :: Bit(w, j) == (cols[j] % 2 == 1)
    ensures Popcount(w) == SumOdd(cols)
  {
    if cols != [] {
      assert Bit(w, 0) == (cols[0] % 2 == 1);
      forall j | 0 <= j < |cols| - 1 ensures Bit(w / 2, j) == (cols[1..][j] % 2 == 1) {
        assert Bit(w, j + 1) == (cols[j + 1] % 2 == 1);
      }
      PopcountOfRow(w / 2, cols[1..]);
      assert Popcount(w) == w % 2 + Popcount(w / 2);
    }
  }

  /** A matrix and its transpose have the same number of set bits, whatever their shape. */
  lemma {:induction false} TransposeKeepsPopcount(rows: seq<nat>, cols: seq<nat>)
    requires forall i | 0 <= i < |rows| :: rows[i] < Pow2(|cols|)
    requires forall j | 0 <= j < |cols| :: cols[j] < Pow2(|rows|)
    requires forall i: nat, j: nat | i < |rows| && j < |cols| :: Bit(rows[i], j) == Bit(cols[j], i)
    ensures SumPop(rows) == SumPop(cols)
  {
    if rows == [] {
      AllZero(cols);
    } else {
      forall j | 0 <= j < |cols| ensures Bit(rows[0], j) == (cols[j] % 2 == 1) {
        assert Bit(rows[0], j) == Bit(cols[j], 0);
      }
      PopcountOfRow(rows[0], cols);
      SumPopHalve(cols);
      forall i: nat, j: nat | i < |rows| - 1 && j < |cols|
        ensures Bit(rows[1..][i], j) == Bit(Halve(cols)[j], i)
      {
        assert Bit(rows[i + 1], j) == Bit(cols[j], i + 1);
      }
      TransposeKeepsPopcount(rows[1..], Halve(cols));
    }
  }

  lemma {:induction false} AllZero(ws: seq<nat>)
    requires forall j | 0 <= j < |ws| :: ws[j] == 0
    ensures SumPop(ws) == 0
  {
    if ws != [] { AllZero(ws[1..]); }
  }
}
