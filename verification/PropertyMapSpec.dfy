/** The EPC property map of src/middleware/api.rs seen as a set of operation codes
    0x80..0xff together with the count the code keeps beside it. */
module PropertyMapSpec {
  import opened Bits
  import opened Outcomes

  datatype MiddlewareError = InvalidValue

  datatype MapValue = MapValue(codes: set<int>, count: int)

  /** What holds of every map the code can build. The count may exceed the number of
      codes, because a wire list that repeats a code counts it again; it never exceeds
      it by more than 14, because such a list has at most 15 entries. */
  predicate ValidValue(v: MapValue) {
    && (forall c | c in v.codes :: 0x80 <= c <= 0xff)
    && |v.codes| <= v.count <= |v.codes| + 14
  }

  function NewMap(): MapValue { MapValue({}, 0) }

  function Enable(v: MapValue, op: byte): (MapValue, Outcome<bool, MiddlewareError>) {
    if op < 0x80 then (v, Err(InvalidValue))
    else if op in v.codes then (v, Ok(false))
    else (MapValue(v.codes + {op}, v.count + 1), Ok(true))
  }

  function Disable(v: MapValue, op: byte): (MapValue, Outcome<bool, MiddlewareError>) {
    if op < 0x80 then (v, Err(InvalidValue))
    else if op !in v.codes then (v, Ok(false))
    else (MapValue(v.codes - {op}, v.count - 1), Ok(true))
  }

  function DisableAll(v: MapValue): (MapValue, Outcome<bool, MiddlewareError>) {
    if v.count > 0 then (NewMap(), Ok(true)) else (v, Ok(false))
  }

  // ----- the wire forms

  /** The codes among the first k possible ones, in ascending order. */
  function Ascending(codes: set<int>, k: nat): seq<byte>
    requires k <= 128
  {
    if k == 0 then []
    else Ascending(codes, k - 1) + (if 0x80 + k - 1 in codes then [0x80 + k - 1] else [])
  }

  /** Bits i.. of column j of the bitmap: bit i stands for code 0x80 + 16 * i + j. */
  function BitmapByte(codes: set<int>, j: nat, i: nat): (b: nat)
    requires i <= 8
    ensures b < Pow2(8 - i)
    decreases 8 - i
  {
    if i == 8 then 0 else Num(0x80 + 16 * i + j in codes) + 2 * BitmapByte(codes, j, i + 1)
  }

  function Bitmap(codes: set<int>): (w: seq<byte>)
    ensures |w| == 16
    ensures forall j | 0 <= j < 16 :: w[j] == BitmapByte(codes, j, 0)
  {
    Sixteen();
    seq(16, j requires 0 <= j < 16 => BitmapByte(codes, j, 0))
  }

  function Encode(v: MapValue): seq<byte>
    requires ValidValue(v)
  {
    AscendingAll(v.codes);
    if v.count < 16 then
      [v.count] + Ascending(v.codes, 128) + Zeros(v.count - |v.codes|)
    else
      [v.count] + Bitmap(v.codes)
  }

  predicate ListForm(w: seq<byte>) {
    |w| > 0 && w[0] < 16 && |w| == w[0] + 1 && forall k | 1 <= k < |w| :: w[k] >= 0x80
  }

  /** A 17-byte bitmap whose declared count is the number of bits set in its 16 data bytes. */
  predicate BitmapForm(w: seq<byte>) {
    |w| == 17 && w[0] >= 16 && SumPop(w[1..]) == w[0]
  }

  predicate Accepts(w: seq<byte>) { ListForm(w) || BitmapForm(w) }

  function WireCodes(w: seq<byte>): set<int>
    requires |w| > 0 && (w[0] < 16 || |w| == 17)
  {
    if w[0] < 16 then set k | 1 <= k < |w| :: w[k] as int
    else set c | 0x80 <= c <= 0xff && Bit(w[c % 16 + 1], (c - 0x80) / 16)
  }

  function Parse(w: seq<byte>): Outcome<MapValue, MiddlewareError> {
    if Accepts(w) then Ok(MapValue(WireCodes(w), w[0])) else Err(InvalidValue)
  }

  predicate Distinct<T(==)>(s: seq<T>) {
    forall i, j | 0 <= i < j < |s| :: s[i] != s[j]
  }

  // ----- the ascending list

  lemma {:induction false} AscendingMembers(codes: set<int>, k: nat)
    requires k <= 128
    ensures forall c :: c in Ascending(codes, k) <==> c in codes && 0x80 <= c < 0x80 + k
  {
    if k > 0 { AscendingMembers(codes, k - 1); }
  }

  lemma {:induction false} AscendingSorted(codes: set<int>, k: nat)
    requires k <= 128
    ensures forall a, b | 0 <= a < b < |Ascending(codes, k)| :: Ascending(codes, k)[a] < Ascending(codes, k)[b]
  {
    if k > 0 {
      AscendingSorted(codes, k - 1);
      AscendingMembers(codes, k - 1);
      var prev := Ascending(codes, k - 1);
      forall a | 0 <= a < |prev| ensures prev[a] < 0x80 + k - 1 {
        assert prev[a] in prev;
      }
    }
  }

  lemma {:induction false} AscendingSize(codes: set<int>, k: nat)
    requires k <= 128
    ensures |Ascending(codes, k)| == |set c | c in codes && 0x80 <= c < 0x80 + k| <= k
  {
    var below := set c | c in codes && 0x80 <= c < 0x80 + k;
    if k == 0 {
      assert below == {};
    } else {
      AscendingSize(codes, k - 1);
      var fewer := set c | c in codes && 0x80 <= c < 0x80 + k - 1;
      var last := 0x80 + k - 1;
      assert below == if last in codes then fewer + {last} else fewer;
    }
  }

  /** The listed view: strictly ascending, exactly the codes, one entry per code. */
  lemma AscendingAll(codes: set<int>)
    requires forall c | c in codes :: 0x80 <= c <= 0xff
    ensures forall c :: c in Ascending(codes, 128) <==> c in codes
    ensures forall a, b | 0 <= a < b < |Ascending(codes, 128)| :: Ascending(codes, 128)[a] < Ascending(codes, 128)[b]
    ensures |Ascending(codes, 128)| == |codes| <= 128
  {
    AscendingMembers(codes, 128);
    AscendingSorted(codes, 128);
    AscendingSize(codes, 128);
    assert (set c | c in codes && 0x80 <= c < 0x80 + 128) == codes;
  }

  // ----- rows of bits

  /** The codes whose bits are set: row i, bit j is code 0x80 + 16 * i + j. */
  function CodeSet(rows: seq<u16>): (codes: set<int>)
    requires |rows| == 8
  {
    set c | 0x80 <= c <= 0xff && Bit(rows[(c - 0x80) / 16], c % 16)
  }

  lemma CodeOfBit(rows: seq<u16>, i: nat, j: nat)
    requires |rows| == 8 && i < 8 && j < 16
    ensures (0x80 + 16 * i + j in CodeSet(rows)) == Bit(rows[i], j)
  {
    var c := 0x80 + 16 * i + j;
    assert (c - 0x80) / 16 == i && c % 16 == j;
  }

  /** Maps with the same codes have the same eight rows. */
  lemma RowsDetermined(a: seq<u16>, b: seq<u16>)
    requires |a| == |b| == 8 && CodeSet(a) == CodeSet(b)
    ensures a == b
  {
    Sixteen();
    forall i | 0 <= i < 8 ensures a[i] == b[i] {
      forall j: nat | j < 16 ensures Bit(a[i], j) == Bit(b[i], j) {
        CodeOfBit(a, i, j);
        CodeOfBit(b, i, j);
      }
      SameBits(a[i], b[i], 16);
    }
  }

  function PopLow(w: nat, j: nat): nat {
    if j == 0 then 0 else PopLow(w, j - 1) + Num(Bit(w, j - 1))
  }

  lemma {:induction false} PopLowHalf(w: nat, j: nat)
    requires j > 0
    ensures PopLow(w, j) == w % 2 + PopLow(w / 2, j - 1)
  {
    if j > 1 { PopLowHalf(w, j - 1); }
  }

  lemma {:induction false} PopLowAll(w: nat, n: nat)
    requires w < Pow2(n)
    ensures PopLow(w, n) == Popcount(w)
  {
    if n > 0 {
      PopLowHalf(w, n);
      PopLowAll(w / 2, n - 1);
    }
  }

  /** One more bit of a row is one more code, if it is set. */
  lemma AscendingStep(rows: seq<u16>, i: nat, j: nat)
    requires |rows| == 8 && i < 8 && j < 16
    ensures |Ascending(CodeSet(rows), 16 * i + j + 1)| == |Ascending(CodeSet(rows), 16 * i + j)| + Num(Bit(rows[i], j))
  {
    CodeOfBit(rows, i, j);
    var k := 16 * i + j + 1;
    assert 0x80 + k - 1 == 0x80 + 16 * i + j;
  }

  lemma {:induction false} RowCounts(rows: seq<u16>, i: nat, j: nat)
    requires |rows| == 8 && i < 8 && j <= 16
    ensures |Ascending(CodeSet(rows), 16 * i + j)| == |Ascending(CodeSet(rows), 16 * i)| + PopLow(rows[i], j)
  {
    if j > 0 {
      RowCounts(rows, i, j - 1);
      AscendingStep(rows, i, j - 1);
    }
  }

  /** The codes of a whole row are its set bits. */
  lemma WholeRowCounts(rows: seq<u16>, i: nat, next: nat)
    requires |rows| == 8 && i < 8 && next == 16 * i + 16
    ensures |Ascending(CodeSet(rows), next)| == |Ascending(CodeSet(rows), 16 * i)| + Popcount(rows[i])
  {
    RowCounts(rows, i, 16);
    Sixteen();
    PopLowAll(rows[i], 16);
  }

  lemma SumPopPrefix(rows: seq<u16>, i: nat)
    requires i < |rows|
    ensures SumPop(rows[..i + 1]) == SumPop(rows[..i]) + Popcount(rows[i])
  {
    assert rows[..i + 1] == rows[..i] + [rows[i]];
    SumPopSnoc(rows[..i], rows[i]);
  }

  lemma {:induction false} AscendingCountsRows(rows: seq<u16>, i: nat)
    requires |rows| == 8 && i <= 8
    ensures |Ascending(CodeSet(rows), 16 * i)| == SumPop(rows[..i])
  {
    if i > 0 {
      AscendingCountsRows(rows, i - 1);
      WholeRowCounts(rows, i - 1, 16 * i);
      SumPopPrefix(rows, i - 1);
    }
  }

  /** The number of enabled operations is the number of set bits. */
  lemma CodeSetSize(rows: seq<u16>)
    requires |rows| == 8
    ensures |CodeSet(rows)| == SumPop(rows)
  {
    AscendingAll(CodeSet(rows));
    AscendingCountsRows(rows, 8);
    assert rows[..8] == rows;
  }

  lemma CodeAfterSet(rows: seq<u16>, op: byte, c: int)
    requires |rows| == 8 && op >= 0x80 && 0x80 <= c <= 0xff
    ensures var (r, one) := ((op - 0x80) / 16, Shl(1, op % 16));
      && Or(rows[r], one) < 0x1_0000
      && (c in CodeSet(rows[r := Or(rows[r], one)]) <==> c in CodeSet(rows) || c == op)
  {
    var r := (op - 0x80) / 16;
    SetRowBit(rows[r], op % 16, c % 16);
    SameCode(c, op);
  }

  lemma CodeAfterClear(rows: seq<u16>, op: byte, c: int)
    requires |rows| == 8 && op >= 0x80 && 0x80 <= c <= 0xff
    ensures var (r, one) := ((op - 0x80) / 16, Shl(1, op % 16));
      && one < 0x1_0000
      && (c in CodeSet(rows[r := And(rows[r], Not16(one))]) <==> c in CodeSet(rows) && c != op)
  {
    var r := (op - 0x80) / 16;
    ClearRowBit(rows[r], op % 16, c % 16);
    SameCode(c, op);
  }

  /** A code is its row and its bit. */
  lemma SameCode(c: int, op: int)
    requires 0x80 <= c <= 0xff && 0x80 <= op <= 0xff
    ensures c == op <==> (c - 0x80) / 16 == (op - 0x80) / 16 && c % 16 == op % 16
  {
  }

  lemma CodeSetAfterSet(rows: seq<u16>, op: byte)
    requires |rows| == 8 && op >= 0x80
    ensures var (r, one) := ((op - 0x80) / 16, Shl(1, op % 16));
      Or(rows[r], one) < 0x1_0000 && CodeSet(rows[r := Or(rows[r], one)]) == CodeSet(rows) + {op}
  {
    var r := (op - 0x80) / 16;
    SetRowBit(rows[r], op % 16, 0);
    var after := CodeSet(rows[r := Or(rows[r], Shl(1, op % 16))]);
    forall c: int | 0x80 <= c <= 0xff ensures c in after <==> c in CodeSet(rows) || c == op {
      CodeAfterSet(rows, op, c);
    }
  }

  lemma CodeSetAfterClear(rows: seq<u16>, op: byte)
    requires |rows| == 8 && op >= 0x80
    ensures var (r, one) := ((op - 0x80) / 16, Shl(1, op % 16));
      one < 0x1_0000 && CodeSet(rows[r := And(rows[r], Not16(one))]) == CodeSet(rows) - {op}
  {
    var r := (op - 0x80) / 16;
    ClearRowBit(rows[r], op % 16, 0);
    var after := CodeSet(rows[r := And(rows[r], Not16(Shl(1, op % 16)))]);
    forall c: int | 0x80 <= c <= 0xff ensures c in after <==> c in CodeSet(rows) && c != op {
      CodeAfterClear(rows, op, c);
    }
  }

  /** Setting one bit of one row adds one code, clearing it removes one. */
  lemma CodeSetUpdate(rows: seq<u16>, op: byte)
    requires |rows| == 8 && op >= 0x80
    ensures Shl(1, op % 16) < 0x1_0000
    ensures var r := (op - 0x80) / 16;
      && Or(rows[r], Shl(1, op % 16)) < 0x1_0000
      && CodeSet(rows[r := Or(rows[r], Shl(1, op % 16))]) == CodeSet(rows) + {op}
      && CodeSet(rows[r := And(rows[r], Not16(Shl(1, op % 16)))]) == CodeSet(rows) - {op}
  {
    CodeSetAfterSet(rows, op);
    CodeSetAfterClear(rows, op);
  }

  // ----- the bitmap

  lemma BitmapHalf(codes: set<int>, j: nat, i: nat)
    requires i < 8
    ensures BitmapByte(codes, j, i) / 2 == BitmapByte(codes, j, i + 1)
    ensures BitmapByte(codes, j, i) % 2 == Num(0x80 + 16 * i + j in codes)
  {
  }

  lemma {:induction false} BitmapBit(codes: set<int>, j: nat, i: nat, t: nat)
    requires i + t < 8
    ensures Bit(BitmapByte(codes, j, i), t) == (0x80 + 16 * (i + t) + j in codes)
    decreases t
  {
    BitmapHalf(codes, j, i);
    if t > 0 {
      BitmapBit(codes, j, i + 1, t - 1);
      assert i + 1 + (t - 1) == i + t;
    }
  }

  /** Reading a column of the rows gives the bitmap byte of their codes. */
  lemma {:induction false} ColumnIsBitmapByte(rows: seq<u16>, j: nat, i: nat)
    requires |rows| == 8 && j < 16 && i <= 8
    ensures Column(rows[i..], j) == BitmapByte(CodeSet(rows), j, i)
    decreases 8 - i
  {
    if i < 8 {
      assert rows[i..][1..] == rows[i + 1..];
      ColumnIsBitmapByte(rows, j, i + 1);
      CodeOfBit(rows, i, j);
    }
  }

  /** The rows read out of 16 bitmap bytes. */
  function RowsOf(cols: seq<byte>): (rows: seq<u16>)
    requires |cols| == 16
    ensures |rows| == 8
    ensures forall i | 0 <= i < 8 :: rows[i] == Column(cols, i)
  {
    Sixteen();
    seq(8, i requires 0 <= i < 8 => Column(cols, i))
  }

  /** The row popcounts, the column popcounts and the number of codes agree. */
  lemma RowsOfBitmap(w: seq<byte>)
    requires |w| == 17 && w[0] >= 16
    ensures CodeSet(RowsOf(w[1..])) == WireCodes(w)
    ensures SumPop(RowsOf(w[1..])) == SumPop(w[1..]) == |WireCodes(w)|
  {
    var cols := w[1..];
    var rows := RowsOf(cols);
    Sixteen();
    forall i: nat, j: nat | i < 8 && j < 16 ensures Bit(rows[i], j) == Bit(cols[j], i) {
      ColumnBit(cols, i, j);
    }
    forall c: int | 0x80 <= c <= 0xff
      ensures c in CodeSet(rows) <==> c in WireCodes(w)
    {
      assert cols[c % 16] == w[c % 16 + 1];
    }
    TransposeKeepsPopcount(rows, cols);
    CodeSetSize(rows);
  }

  lemma ReadBackBit(codes: set<int>, count: byte, i: nat, j: nat)
    requires count >= 16 && i < 8 && j < 16
    ensures (0x80 + 16 * i + j in WireCodes([count] + Bitmap(codes))) == (0x80 + 16 * i + j in codes)
  {
    var w := [count] + Bitmap(codes);
    WireCodeOfBit(w, j, i);
    assert w[j + 1] == BitmapByte(codes, j, 0);
    BitmapBit(codes, j, 0, i);
  }

  /** Writing a set as a bitmap and reading it back is the identity, and its bits count the set. */
  lemma BitmapReadBack(codes: set<int>, count: byte)
    requires count >= 16
    requires forall c | c in codes :: 0x80 <= c <= 0xff
    ensures WireCodes([count] + Bitmap(codes)) == codes
    ensures SumPop(Bitmap(codes)) == |codes|
  {
    var w := [count] + Bitmap(codes);
    assert w[1..] == Bitmap(codes);
    forall c ensures c in WireCodes(w) <==> c in codes {
      if 0x80 <= c <= 0xff { ReadBackCode(codes, count, c); }
    }
    RowsOfBitmap(w);
  }

  lemma ReadBackCode(codes: set<int>, count: byte, c: int)
    requires count >= 16 && 0x80 <= c <= 0xff
    ensures c in WireCodes([count] + Bitmap(codes)) <==> c in codes
  {
    CodeParts(c);
    ReadBackBit(codes, count, (c - 0x80) / 16, c % 16);
  }

  lemma CodeParts(c: int)
    requires 0x80 <= c <= 0xff
    ensures c == 0x80 + 16 * ((c - 0x80) / 16) + c % 16
  {
  }

  /** Bitmap bytes are determined by the codes they spell. */
  lemma BitmapCanonical(w: seq<byte>)
    requires |w| == 17 && w[0] >= 16
    ensures Bitmap(WireCodes(w)) == w[1..]
  {
    forall j | 0 <= j < 16 ensures Bitmap(WireCodes(w))[j] == w[1..][j] {
      BitmapByteCanonical(w, j);
    }
  }

  lemma BitmapByteCanonical(w: seq<byte>, j: nat)
    requires |w| == 17 && w[0] >= 16 && j < 16
    ensures BitmapByte(WireCodes(w), j, 0) == w[j + 1]
  {
    Sixteen();
    forall i: nat | i < 8 ensures Bit(BitmapByte(WireCodes(w), j, 0), i) == Bit(w[j + 1], i) {
      BitmapByteBit(w, j, i);
    }
    SameBits(BitmapByte(WireCodes(w), j, 0), w[j + 1], 8);
  }

  lemma BitmapByteBit(w: seq<byte>, j: nat, i: nat)
    requires |w| == 17 && w[0] >= 16 && j < 16 && i < 8
    ensures Bit(BitmapByte(WireCodes(w), j, 0), i) == Bit(w[j + 1], i)
  {
    BitmapBit(WireCodes(w), j, 0, i);
    WireCodeOfBit(w, j, i);
  }

  lemma WireCodeOfBit(w: seq<byte>, j: nat, i: nat)
    requires |w| == 17 && w[0] >= 16 && j < 16 && i < 8
    ensures (0x80 + 16 * i + j in WireCodes(w)) == Bit(w[j + 1], i)
  {
    var c := 0x80 + 16 * i + j;
    assert (c - 0x80) / 16 == i && c % 16 == j;
  }

  // ----- the wire theorems

  /** A map survives the wire exactly when its count is the number of its codes; otherwise
      its own wire form is refused. */
  lemma WireRoundTrip(v: MapValue)
    requires ValidValue(v)
    ensures |Encode(v)| <= 17
    ensures Parse(Encode(v)) == if v.count == |v.codes| then Ok(v) else Err(InvalidValue)
  {
    if v.count >= 16 {
      BitmapRoundTrip(v);
    } else {
      ListRoundTrip(v);
    }
  }

  lemma BitmapRoundTrip(v: MapValue)
    requires ValidValue(v) && v.count >= 16
    ensures |Encode(v)| == 17
    ensures Parse(Encode(v)) == if v.count == |v.codes| then Ok(v) else Err(InvalidValue)
  {
    AscendingAll(v.codes);
    BitmapReadBack(v.codes, v.count);
    EncodeFromSixteen(v);
    assert Encode(v)[1..] == Bitmap(v.codes);
  }

  lemma ListRoundTrip(v: MapValue)
    requires ValidValue(v) && v.count < 16
    ensures |Encode(v)| == v.count + 1
    ensures Parse(Encode(v)) == if v.count == |v.codes| then Ok(v) else Err(InvalidValue)
  {
    AscendingAll(v.codes);
    if v.count == |v.codes| {
      ExactListRead(v);
    } else {
      assert Encode(v)[|v.codes| + 1] == 0;
    }
  }

  lemma ExactListRead(v: MapValue)
    requires ValidValue(v) && v.count == |v.codes| < 16
    ensures ListForm(Encode(v)) && WireCodes(Encode(v)) == v.codes
  {
    EncodeExactList(v);
    AscendingAll(v.codes);
    var w, asc := Encode(v), Ascending(v.codes, 128);
    forall k | 1 <= k < |w| ensures w[k] == asc[k - 1] && w[k] as int in v.codes {
      assert asc[k - 1] in asc;
    }
    forall c | c in v.codes ensures c in WireCodes(w) {
      var k :| 0 <= k < |asc| && asc[k] == c;
      assert w[k + 1] == c;
    }
  }

  /** Every accepted wire denotes a valid map. */
  lemma ParsedIsValid(w: seq<byte>)
    requires Accepts(w)
    ensures ValidValue(MapValue(WireCodes(w), w[0]))
    ensures w[0] == |WireCodes(w)| <==> (w[0] < 16 ==> Distinct(w[1..]))
  {
    if w[0] < 16 {
      ListCodes(w);
      ElementsCount(w[1..]);
      assert w[0] == 0 ==> w == [0];
    } else {
      RowsOfBitmap(w);
    }
  }

  function Elements(s: seq<byte>): set<int> { set k | 0 <= k < |s| :: s[k] as int }

  lemma ElementsSnoc(s: seq<byte>, x: byte)
    ensures Elements(s + [x]) == Elements(s) + {x as int}
  {
    var t := s + [x];
    forall c ensures c in Elements(t) <==> c in Elements(s) || c == x {
      if c in Elements(s) {
        var k :| 0 <= k < |s| && s[k] == c;
        assert t[k] == c;
      }
      assert t[|s|] == x;
    }
  }

  lemma DistinctSnoc(s: seq<byte>, x: byte)
    ensures Distinct(s + [x]) <==> Distinct(s) && x !in s
  {
    var t := s + [x];
    assert t[..|s|] == s;
    if Distinct(t) {
      forall i, j | 0 <= i < j < |s| ensures s[i] != s[j] { assert t[i] != t[j]; }
      forall i | 0 <= i < |s| ensures s[i] != x { assert t[i] != t[|s|]; }
    }
  }

  lemma InElements(s: seq<byte>, x: byte)
    ensures x as int in Elements(s) <==> x in s
  {
  }

  /** A list has as many elements as entries exactly when no entry repeats. */
  lemma {:induction false} ElementsCount(s: seq<byte>)
    ensures |Elements(s)| <= |s|
    ensures |Elements(s)| == |s| <==> Distinct(s)
  {
    if s != [] {
      var init, last := s[..|s| - 1], s[|s| - 1];
      assert s == init + [last];
      ElementsCount(init);
      ElementsSnoc(init, last);
      DistinctSnoc(init, last);
      InElements(init, last);
    }
  }

  lemma ListCodes(w: seq<byte>)
    requires ListForm(w)
    ensures WireCodes(w) == Elements(w[1..])
    ensures w != [0] ==> |WireCodes(w)| >= 1
  {
    forall c ensures c in WireCodes(w) <==> c in Elements(w[1..]) {
      if c in WireCodes(w) {
        var k :| 1 <= k < |w| && w[k] == c;
        assert w[1..][k - 1] == c;
      }
    }
    if |w| > 1 { assert w[1] as int in WireCodes(w); }
  }

  /** An accepted bitmap is written back byte for byte. */
  lemma BitmapWireIsCanonical(w: seq<byte>)
    requires BitmapForm(w)
    ensures ValidValue(MapValue(WireCodes(w), w[0]))
    ensures Encode(MapValue(WireCodes(w), w[0])) == w
  {
    ParsedIsValid(w);
    BitmapCanonical(w);
    EncodeFromSixteen(MapValue(WireCodes(w), w[0]));
    assert w == [w[0]] + w[1..];
  }

  lemma EncodeFromSixteen(v: MapValue)
    requires ValidValue(v) && v.count >= 16
    ensures Encode(v) == [v.count] + Bitmap(v.codes)
  {
  }

  /** An accepted list is written back as its ascending permutation exactly when it repeats no
      code; otherwise what is written back is a wire the parser refuses. */
  lemma ListWireIsSorted(w: seq<byte>)
    requires ListForm(w)
    ensures ValidValue(MapValue(WireCodes(w), w[0]))
    ensures var back := Encode(MapValue(WireCodes(w), w[0]));
      && (multiset(back) == multiset(w) <==> Distinct(w[1..]))
      && (Accepts(back) <==> Distinct(w[1..]))
      && (Distinct(w[1..]) ==> forall a, b | 1 <= a < b < |back| :: back[a] < back[b])
  {
    ParsedIsValid(w);
    var v := MapValue(WireCodes(w), w[0]);
    WireRoundTrip(v);
    AscendingAll(v.codes);
    if Distinct(w[1..]) {
      DistinctListBack(w);
    } else {
      RepeatedListBack(w);
    }
  }

  /** The list form of an exact count below 16 has no padding. */
  lemma EncodeExactList(v: MapValue)
    requires ValidValue(v) && v.count == |v.codes| < 16
    ensures Encode(v) == [v.count] + Ascending(v.codes, 128)
    ensures forall a, b | 1 <= a < b < |Encode(v)| :: Encode(v)[a] < Encode(v)[b]
  {
    AscendingAll(v.codes);
    var asc := Ascending(v.codes, 128);
    assert Encode(v) == [v.count] + asc;
    forall a, b | 1 <= a < b < |Encode(v)| ensures Encode(v)[a] < Encode(v)[b] {
      assert Encode(v)[a] == asc[a - 1] && Encode(v)[b] == asc[b - 1];
    }
  }

  lemma DistinctListBack(w: seq<byte>)
    requires ListForm(w) && Distinct(w[1..])
    requires ValidValue(MapValue(WireCodes(w), w[0])) && |WireCodes(w)| == w[0]
    ensures var back := Encode(MapValue(WireCodes(w), w[0]));
      && multiset(back) == multiset(w)
      && forall a, b | 1 <= a < b < |back| :: back[a] < back[b]
  {
    EncodeExactList(MapValue(WireCodes(w), w[0]));
    AscendingPermutes(w);
    assert w == [w[0]] + w[1..];
  }

  lemma AscendingPermutes(w: seq<byte>)
    requires ListForm(w) && Distinct(w[1..])
    ensures multiset(Ascending(WireCodes(w), 128)) == multiset(w[1..])
  {
    var asc := Ascending(WireCodes(w), 128);
    ListCodes(w);
    AscendingMembers(WireCodes(w), 128);
    AscendingSorted(WireCodes(w), 128);
    forall x: byte ensures x in asc <==> x in w[1..] {
      InElements(w[1..], x);
      if x in w[1..] {
        var k :| 0 <= k < |w| - 1 && w[1..][k] == x;
        assert w[k + 1] == x;
      }
    }
    SameElementsSameMultiset(asc, w[1..]);
  }

  lemma RepeatedListBack(w: seq<byte>)
    requires ListForm(w)
    requires ValidValue(MapValue(WireCodes(w), w[0])) && |WireCodes(w)| < w[0]
    ensures multiset(Encode(MapValue(WireCodes(w), w[0]))) != multiset(w)
  {
    var back := Encode(MapValue(WireCodes(w), w[0]));
    AscendingAll(WireCodes(w));
    assert back[|WireCodes(w)| + 1] == 0;
    assert 0 in multiset(back);
    assert forall k | 0 <= k < |w| :: w[k] != 0;
    assert 0 !in multiset(w);
  }

  lemma {:induction false} DistinctMultiplicity(s: seq<byte>, x: byte)
    requires Distinct(s)
    ensures multiset(s)[x] == if x in s then 1 else 0
  {
    if s != [] {
      var init, last := s[..|s| - 1], s[|s| - 1];
      assert s == init + [last];
      DistinctMultiplicity(init, x);
    }
  }

  lemma SameElementsSameMultiset(a: seq<byte>, b: seq<byte>)
    requires Distinct(a) && Distinct(b)
    requires forall x :: x in a <==> x in b
    ensures multiset(a) == multiset(b)
  {
    forall x: byte ensures multiset(a)[x] == multiset(b)[x] {
      DistinctMultiplicity(a, x);
      DistinctMultiplicity(b, x);
    }
  }
}
