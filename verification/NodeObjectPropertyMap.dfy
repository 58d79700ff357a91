/** The property map object: eight 16-bit rows updated in place and a cached count.
    Every method is proved against the set-level meaning in PropertyMapSpec. */
module PropertyMapObject {
  import opened Bits
  import opened Outcomes
  import opened PropertyMapSpec

  class NodeObjectPropertyMap {
    const operations: array<u16>
    var operationsCount: nat

    ghost function Codes(): set<int>
      reads operations
      requires operations.Length == 8
    {
      CodeSet(operations[..])
    }

    ghost function Value(): MapValue
      reads this, operations
      requires operations.Length == 8
    {
      MapValue(Codes(), operationsCount)
    }

    ghost predicate Valid()
      reads this, operations
    {
      operations.Length == 8 && ValidValue(Value())
    }

    constructor ()
      ensures Valid() && fresh(operations)
      ensures Value() == NewMap()
      ensures operations[..] == [0, 0, 0, 0, 0, 0, 0, 0]
    {
      operations := new u16[8](_ => 0);
      operationsCount := 0;
      new;
      assert operations[..] == [0, 0, 0, 0, 0, 0, 0, 0];
      NoCodes(operations[..]);
    }

    /** The bit test of is_operation_enabled, after its range check. */
    method IsOperationEnabled(op: byte) returns (r: Outcome<bool, MiddlewareError>)
      requires Valid()
      ensures r == if op < 0x80 then Err(InvalidValue) else Ok(op in Codes())
    {
      if op < 0x80 { return Err(InvalidValue); }
      SplitCode(op);
      TestBit(operations[(op - 0x80) / 16], op % 16);
      r := Ok(And(operations[Shr(op - 0x80, 4)], Shl(1, And(op, 0x0f))) != 0);
    }

    method EnableOperation(op: byte) returns (r: Outcome<bool, MiddlewareError>)
      requires Valid()
      modifies this, operations
      ensures Valid()
      ensures (Value(), r) == Enable(old(Value()), op)
    {
      var enabled := IsOperationEnabled(op);
      if !enabled.Ok? || enabled.value {
        return if enabled.Ok? then Ok(false) else enabled;
      }
      SetBit(op);
      operationsCount := operationsCount + 1;
      EnableKeepsValid(old(Value()), op);
      r := Ok(true);
    }

    /** The update of the row of an operation. */
    method SetBit(op: byte)
      requires operations.Length == 8 && op >= 0x80
      modifies operations
      ensures Codes() == old(Codes()) + {op}
    {
      SetInRow(operations[..], op);
      var row := Shr(op - 0x80, 4);
      operations[row] := Or(operations[row], Shl(1, And(op, 0x0f)));
      assert operations[..] == old(operations[..])[row := operations[row]];
    }

    method DisableOperation(op: byte) returns (r: Outcome<bool, MiddlewareError>)
      requires Valid()
      modifies this, operations
      ensures Valid()
      ensures (Value(), r) == Disable(old(Value()), op)
    {
      var enabled := IsOperationEnabled(op);
      if !enabled.Ok? || !enabled.value {
        return enabled;
      }
      ClearInRow(operations[..], op);
      var row := Shr(op - 0x80, 4);
      operations[row] := And(operations[row], Not16(Shl(1, And(op, 0x0f))));
      assert operations[..] == old(operations[..])[row := operations[row]];
      // The count cannot underflow: it is at least the number of codes, and op is one of them.
      operationsCount := operationsCount - 1;
      r := Ok(true);
    }

    method DisableAll() returns (r: Outcome<bool, MiddlewareError>)
      requires Valid()
      modifies this, operations
      ensures Valid()
      ensures (Value(), r) == PropertyMapSpec.DisableAll(old(Value()))
    {
      if operationsCount > 0 {
        forall i | 0 <= i < 8 { operations[i] := 0; }
        operationsCount := 0;
        assert operations[..] == [0, 0, 0, 0, 0, 0, 0, 0];
        NoCodes(operations[..]);
        r := Ok(true);
      } else {
        r := Ok(false);
      }
    }

    method CopyFrom(other: NodeObjectPropertyMap)
      requires Valid() && other.Valid()
      modifies this, operations
      ensures Valid()
      ensures Value() == old(other.Value())
      ensures operations[..] == old(other.operations[..])
    {
      forall i | 0 <= i < 8 { operations[i] := other.operations[i]; }
      operationsCount := other.operationsCount;
      assert operations[..] == old(other.operations[..]);
    }

    /** Ascending, without repetition, exactly the enabled operations. */
    method AsOperationsList() returns (ops: seq<byte>)
      requires Valid()
      ensures ops == Ascending(Codes(), 128)
      ensures |ops| == |Codes()| && (forall c :: c in ops <==> c in Codes())
      ensures forall a, b | 0 <= a < b < |ops| :: ops[a] < ops[b]
    {
      ops := [];
      for i := 0x80 to 0x100
        invariant ops == Ascending(Codes(), i - 0x80)
      {
        var enabled := IsOperationEnabled(i);
        if enabled.value {
          ops := ops + [i];
        }
      }
      AscendingAll(Codes());
    }

    /** The wire form: a list below 16 operations, a transposed bitmap from 16 on. */
    method Decode() returns (wire: seq<byte>)
      requires Valid()
      ensures wire == Encode(Value())
    {
      if operationsCount < 16 {
        wire := DecodeList();
      } else {
        wire := DecodeBitmap();
      }
    }

    method DecodeList() returns (wire: seq<byte>)
      requires Valid() && operationsCount < 16
      ensures wire == Encode(Value())
    {
      wire := Zeros(operationsCount + 1);
      wire := wire[0 := operationsCount];
      var pos := 1;
      ListStart(operations[..], operationsCount);
      for i := 0 to 8
        invariant ListSoFar(operations[..], operationsCount, wire, pos, 16 * i)
      {
        wire, pos := ListRow(wire, pos, i);
      }
      ListEnd(operations[..], operationsCount, wire, pos);
    }

    /** The inner list loop: writes the codes of row i from pos on. */
    method ListRow(wire: seq<byte>, pos: nat, i: nat) returns (w: seq<byte>, p: nat)
      requires operations.Length == 8 && i < 8
      requires ListSoFar(operations[..], operationsCount, wire, pos, 16 * i)
      ensures ListSoFar(operations[..], operationsCount, w, p, 16 * i + 16)
    {
      w, p := wire, pos;
      for j := 0 to 16
        invariant ListSoFar(operations[..], operationsCount, w, p, 16 * i + j)
      {
        ListStep(operations[..], operationsCount, w, p, i, j);
        if And(operations[i], Shl(0x0001, j)) != 0 {
          w := w[p := Or(Shl(i, 4), j) + 0x80];
          p := p + 1;
        }
      }
    }

    method DecodeBitmap() returns (wire: seq<byte>)
      requires Valid() && operationsCount >= 16
      ensures wire == Encode(Value())
    {
      AscendingAll(Codes());
      wire := Zeros(17);
      wire := wire[0 := operationsCount % 0x100];
      for i := 0 to 8
        invariant wire == [operationsCount] + Columns(operations[..], i, 0)
      {
        var bits := operations[i];
        for j := 0 to 16
          invariant wire == [operationsCount] + Columns(operations[..], i, j)
          invariant bits == Shr(operations[i], j)
        {
          OrInBit(operations[..], i, j);
          wire := wire[j + 1 := Or(wire[j + 1], Shl(And(bits, 0x0001), i))];
          bits := Shr(bits, 1);
        }
        assert Columns(operations[..], i, 16) == Columns(operations[..], i + 1, 0);
      }
      ColumnsAreBitmap(operations[..]);
    }

    /** Builds a map from either wire form, or refuses the wire. */
    static method FromBytes(wire: seq<byte>) returns (r: Outcome<NodeObjectPropertyMap, MiddlewareError>)
      ensures !r.Panic? && (r.Ok? <==> Accepts(wire))
      ensures r.Ok? ==> fresh(r.value) && fresh(r.value.operations) && r.value.Valid()
      ensures r.Ok? ==> r.value.Value() == MapValue(WireCodes(wire), wire[0])
    {
      if |wire| == 0 || (wire[0] < 16 && wire[0] + 1 != |wire|) || (wire[0] >= 16 && |wire| != 17) {
        return Err(InvalidValue);
      }
      var npm := new NodeObjectPropertyMap();
      if wire[0] < 16 {
        var ok := npm.ReadList(wire);
        if !ok { return Err(InvalidValue); }
      } else {
        var ok := npm.ReadBitmap(wire);
        if !ok { return Err(InvalidValue); }
      }
      if wire[0] == npm.operationsCount {
        ParsedIsValid(wire);
        return Ok(npm);
      } else {
        return Err(InvalidValue);
      }
    }

    /** The list branch of from_bytes: every entry counts, repeated or not. */
    method ReadList(wire: seq<byte>) returns (ok: bool)
      requires operations.Length == 8 && Value() == NewMap()
      requires |wire| > 0 && wire[0] < 16 && |wire| == wire[0] + 1
      modifies this, operations
      ensures ok <==> ListForm(wire)
      ensures ok ==> Codes() == WireCodes(wire) && operationsCount == wire[0]
    {
      for n := 1 to |wire|
        invariant forall k | 1 <= k < n :: wire[k] >= 0x80
        invariant operationsCount == n - 1
        invariant Codes() == set k | 1 <= k < n :: wire[k] as int
      {
        var op := wire[n];
        if op < 0x80 {
          return false;
        }
        SplitCode(op);
        SetInRow(operations[..], op);
        WireCodesSoFar(wire, n);
        var row := Shr(And(op, 0xf0) - 0x80, 4);
        ghost var before := operations[..];
        operations[row] := Or(operations[row], Shl(1, And(op, 0x0f)));
        assert operations[..] == before[row := operations[row]];
        operationsCount := operationsCount + 1;
      }
      ok := true;
    }

    /** The bitmap branch of from_bytes: rows are read by shifting in one column bit at a time. */
    method ReadBitmap(wire: seq<byte>) returns (ok: bool)
      requires operations.Length == 8 && operations[..] == [0, 0, 0, 0, 0, 0, 0, 0]
      requires |wire| == 17 && wire[0] >= 16
      modifies this, operations
      ensures ok <==> BitmapForm(wire)
      ensures ok ==> Codes() == WireCodes(wire) && operationsCount == wire[0]
    {
      Sixteen();
      ghost var cols: seq<byte> := wire[1..];
      ghost var rows := RowsOf(cols);
      var count := 0;
      for i := 0 to 8
        invariant forall t | 0 <= t < i :: operations[t] == rows[t]
        invariant forall t | i <= t < 8 :: operations[t] == 0
        invariant count == SumPop(rows[..i])
      {
        ReadRow(wire, i);
        count := count + Popcount(operations[i]);
        SumPopPrefix(rows, i);
      }
      assert operations[..] == rows && rows[..8] == rows;
      RowsOfBitmap(wire);
      if count != wire[0] {
        return false;
      }
      operationsCount := count;
      ok := true;
    }

    /** The inner loop: row i takes bit i of every byte, from the last byte to the first. */
    method ReadRow(wire: seq<byte>, i: nat)
      requires operations.Length == 8 && i < 8 && operations[i] == 0
      requires |wire| == 17
      modifies operations
      ensures operations[i] == Column(wire[1..], i)
      ensures forall t | 0 <= t < 8 && t != i :: operations[t] == old(operations[t])
    {
      var mask := Shl(0x01, i);
      ghost var cols: seq<byte> := wire[1..];
      assert cols[16..] == [];
      for j := 16 downto 0
        invariant forall t | 0 <= t < 8 && t != i :: operations[t] == old(operations[t])
        invariant operations[i] == Column(cols[j..], i)
      {
        ReadBit(wire, i, j, operations[i]);
        operations[i] := Or(Shl(operations[i], 1) % 0x1_0000, Shr(And(wire[j + 1], mask), i));
      }
      assert cols[0..] == cols;
    }
  }

  // ----- lemmas for the loops

  lemma EnableKeepsValid(v: MapValue, op: byte)
    requires ValidValue(v)
    ensures ValidValue(Enable(v, op).0)
  {
  }

  /** One step of from_bytes' transposition: bit i of byte j is shifted into row i. */
  lemma ReadBit(wire: seq<byte>, i: nat, j: nat, row: nat)
    requires |wire| == 17 && i < 8 && j < 16 && row == Column(wire[1..][j + 1..], i)
    ensures Or(Shl(row, 1) % 0x1_0000, Shr(And(wire[j + 1], Shl(0x01, i)), i)) == Column(wire[1..][j..], i) < 0x1_0000
  {
    var cols: seq<byte> := wire[1..];
    TestBit(wire[j + 1], i);
    assert cols[j..][1..] == cols[j + 1..] && cols[j..][0] == wire[j + 1];
    Sixteen();
    Pow2Mono(16 - (j + 1), 15);
    ShiftIn(row, Bit(wire[j + 1], i));
  }

  lemma NoCodes(rows: seq<u16>)
    requires rows == [0, 0, 0, 0, 0, 0, 0, 0]
    ensures CodeSet(rows) == {}
  {
    forall c: int | 0 <= c < 16 ensures !Bit(0, c) { ZeroBit(c); }
  }

  lemma {:induction false} AscendingPrefix(codes: set<int>, k: nat)
    requires k <= 128
    ensures |Ascending(codes, k)| <= |Ascending(codes, 128)|
    decreases 128 - k
  {
    if k < 128 { AscendingPrefix(codes, k + 1); }
  }

  lemma WireCodesSoFar(wire: seq<byte>, n: nat)
    requires 1 <= n < |wire|
    ensures (set k | 1 <= k < n + 1 :: wire[k] as int) == (set k | 1 <= k < n :: wire[k] as int) + {wire[n] as int}
  {
  }

  /** Setting and clearing the bit of an operation, at the row and position the code computes. */
  lemma SetInRow(rows: seq<u16>, op: byte)
    requires |rows| == 8 && op >= 0x80
    ensures Shl(1, And(op, 0x0f)) < 0x1_0000
    ensures var row := Shr(op - 0x80, 4);
      && row < 8
      && Or(rows[row], Shl(1, And(op, 0x0f))) < 0x1_0000
      && CodeSet(rows[row := Or(rows[row], Shl(1, And(op, 0x0f)))]) == CodeSet(rows) + {op}
  {
    SplitCode(op);
    CodeSetUpdate(rows, op);
  }

  lemma ClearInRow(rows: seq<u16>, op: byte)
    requires |rows| == 8 && op >= 0x80
    ensures Shl(1, And(op, 0x0f)) < 0x1_0000
    ensures var row := Shr(op - 0x80, 4);
      && row < 8
      && CodeSet(rows[row := And(rows[row], Not16(Shl(1, And(op, 0x0f))))]) == CodeSet(rows) - {op}
  {
    SplitCode(op);
    CodeSetUpdate(rows, op);
  }

  /** The bit test and the code byte of decode's list loop. */
  lemma TestCode(rows: seq<u16>, i: nat, j: nat)
    requires |rows| == 8 && i < 8 && j < 16
    ensures (And(rows[i], Shl(1, j)) != 0) == (0x80 + 16 * i + j in CodeSet(rows))
    ensures Or(Shl(i, 4), j) + 0x80 == 0x80 + 16 * i + j
  {
    TestBit(rows[i], j);
    CodeOfBit(rows, i, j);
    CodeByte(i, j);
  }

  /** The list wire when the first k codes have been looked at: the count, those enabled, zeros. */
  ghost predicate ListSoFar(rows: seq<u16>, count: nat, wire: seq<byte>, pos: nat, k: nat) {
    && |rows| == 8 && k <= 128 && count < 16
    && |Ascending(CodeSet(rows), k)| <= |CodeSet(rows)| <= count
    && pos == 1 + |Ascending(CodeSet(rows), k)|
    && wire == [count] + Ascending(CodeSet(rows), k) + Zeros(count + 1 - pos)
  }

  lemma ListStart(rows: seq<u16>, count: nat)
    requires |rows| == 8 && |CodeSet(rows)| <= count < 16
    ensures ListSoFar(rows, count, Zeros(count + 1)[0 := count], 1, 0)
  {
    assert Zeros(count + 1)[0 := count] == [count] + [] + Zeros(count);
  }

  lemma ListStep(rows: seq<u16>, count: nat, wire: seq<byte>, pos: nat, i: nat, j: nat)
    requires i < 8 && j < 16 && ListSoFar(rows, count, wire, pos, 16 * i + j)
    ensures if And(rows[i], Shl(1, j)) != 0 then
        && pos < |wire| && Or(Shl(i, 4), j) + 0x80 < 0x100
        && ListSoFar(rows, count, wire[pos := Or(Shl(i, 4), j) + 0x80], pos + 1, 16 * i + j + 1)
      else
        ListSoFar(rows, count, wire, pos, 16 * i + j + 1)
  {
    TestCode(rows, i, j);
    if And(rows[i], Shl(1, j)) != 0 {
      ListHit(rows, count, wire, pos, 16 * i + j);
    }
  }

  /** The next code is enabled and goes to the next free place. */
  lemma ListHit(rows: seq<u16>, count: nat, wire: seq<byte>, pos: nat, k: nat)
    requires k < 128 && ListSoFar(rows, count, wire, pos, k) && 0x80 + k in CodeSet(rows)
    ensures pos < |wire| && ListSoFar(rows, count, wire[pos := 0x80 + k], pos + 1, k + 1)
  {
    var codes := CodeSet(rows);
    AscendingAll(codes);
    AscendingPrefix(codes, k + 1);
    assert Ascending(codes, k + 1) == Ascending(codes, k) + [0x80 + k];
    AppendCode(count, Ascending(codes, k), 0x80 + k);
  }

  lemma ListEnd(rows: seq<u16>, count: nat, wire: seq<byte>, pos: nat)
    requires ListSoFar(rows, count, wire, pos, 128)
    requires ValidValue(MapValue(CodeSet(rows), count))
    ensures wire == Encode(MapValue(CodeSet(rows), count))
  {
    AscendingAll(CodeSet(rows));
  }

  lemma AppendCode(count: byte, listed: seq<byte>, code: byte)
    requires |listed| < count
    ensures ([count] + listed + Zeros(count - |listed|))[|listed| + 1 := code]
         == [count] + (listed + [code]) + Zeros(count - |listed| - 1)
  {
  }

  /** Byte j of the bitmap once the rows below i are written into it. */
  ghost function ColumnByte(rows: seq<u16>, i: nat, j: nat): (c: byte)
    requires |rows| == 8 && i <= 8
    ensures c == Column(rows[..i], j) < Pow2(i)
  {
    Sixteen();
    Pow2Mono(i, 8);
    Column(rows[..i], j)
  }

  /** The bitmap bytes once rows ..i are written and row i is written up to bit j. */
  ghost function Columns(rows: seq<u16>, i: nat, j: nat): (cols: seq<byte>)
    requires |rows| == 8 && i <= 8 && (i == 8 ==> j == 0)
    ensures |cols| == 16
    ensures forall t | 0 <= t < 16 :: cols[t] == ColumnByte(rows, if t < j then i + 1 else i, t)
  {
    seq<byte>(16, t requires 0 <= t < 16 => ColumnByte(rows, if t < j then i + 1 else i, t))
  }

  /** One step of decode's transposition: or bit j of row i into byte j at position i. */
  lemma OrInBit(rows: seq<u16>, i: nat, j: nat)
    requires |rows| == 8 && i < 8 && j < 16
    ensures var cols := Columns(rows, i, j);
      var ored := Or(cols[j], Shl(And(Shr(rows[i], j), 0x0001), i));
      ored < 0x100 && Columns(rows, i, j + 1) == cols[j := ored]
    ensures Shr(Shr(rows[i], j), 1) == Shr(rows[i], j + 1)
  {
    OrInByte(rows, i, j);
    assert Columns(rows, i, j)[j] == ColumnByte(rows, i, j);
    ShrNext(rows[i], j);
  }

  lemma OrInByte(rows: seq<u16>, i: nat, j: nat)
    requires |rows| == 8 && i < 8 && j < 16
    ensures Or(ColumnByte(rows, i, j), Shl(And(Shr(rows[i], j), 0x0001), i)) == ColumnByte(rows, i + 1, j)
  {
    LowBit(Shr(rows[i], j));
    ShrBit(rows[i], j, 0);
    assert rows[..i + 1] == rows[..i] + [rows[i]];
    ColumnSnoc(rows[..i], rows[i], j);
    OrHighBit(ColumnByte(rows, i, j), i, Bit(rows[i], j));
  }

  lemma ColumnsAreBitmap(rows: seq<u16>)
    requires |rows| == 8
    ensures Columns(rows, 8, 0) == Bitmap(CodeSet(rows))
  {
    assert rows[..8] == rows == rows[0..];
    forall t | 0 <= t < 16 ensures Columns(rows, 8, 0)[t] == Bitmap(CodeSet(rows))[t] {
      ColumnIsBitmapByte(rows, t, 0);
    }
  }

  /** `((i << 4) | j) as u8 + 0x80` is the code of row i, bit j. */
  lemma CodeByte(i: nat, j: nat)
    requires i < 8 && j < 16
    ensures Or(Shl(i, 4), j) + 0x80 == 0x80 + 16 * i + j
  {
    assert Pow2(4) == 16;
    ShlTimes(i, 4);
    OrAboveLow(i, j, 4);
  }

  lemma {:induction false} OrAboveLow(a: nat, b: nat, n: nat)
    requires b < Pow2(n)
    ensures Or(Shl(a, n), b) == Shl(a, n) + b
  {
    if n > 0 {
      OrAboveLow(a, b / 2, n - 1);
    }
  }

  lemma ShrNext(a: nat, k: nat)
    ensures Shr(Shr(a, k), 1) == Shr(a, k + 1)
  {
    if k > 0 { ShrNext(a / 2, k - 1); }
  }

  /** `(w << 1) | bit` for a word with its top bit clear. */
  lemma ShiftIn(w: u16, b: bool)
    requires w < 0x8000
    ensures Or(Shl(w, 1) % 0x1_0000, Num(b)) == 2 * w + Num(b)
  {
    assert Shl(w, 1) == 2 * w;
    if w != 0 && b {
      assert Or(w, 0) == w;
    }
  }
}
