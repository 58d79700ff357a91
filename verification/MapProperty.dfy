/** The property maps of EPC 0x9d, 0x9e and 0x9f as properties. */
module MapProperty {
  import opened Bits
  import opened Outcomes
  import opened PropertyMapSpec
  import opened PropertyCell

  type PropertyMap = v: MapValue | ValidValue(v) witness NewMap()

  /** The encoder hands over the wire form itself, without room for the two header bytes. */
  function EncodeMap(v: PropertyMap): Outcome<seq<byte>, EpcError> { Ok(Encode(v)) }

  function DecodeMap(epc: byte, b: seq<byte>): Outcome<PropertyMap, EpcError> {
    if |b| < 2 then Panic
    else if Accepts(b[2..]) then
      ParsedIsValid(b[2..]);
      Ok(MapValue(WireCodes(b[2..]), b[2..][0]))
    else Err(EpcError.InvalidValue(epc))
  }

  function ValidateMap(epc: byte, b: seq<byte>): Outcome<bool, EpcError> {
    if |b| > 2 && ((b[1] < 16 && b[1] + 2 == |b|) || |b| == 17) then Ok(true) else Err(EpcError.InvalidValue(epc))
  }

  function MapCodec(epc: byte): Codec<PropertyMap> {
    Codec((v: PropertyMap) => EncodeMap(v), b => DecodeMap(epc, b), (current, b) => ValidateMap(epc, b))
  }

  /** Of the payloads, exactly those of 1 to 15 bytes pass the validator. */
  lemma VerdictOnFrame(epc: byte, payload: seq<byte>)
    ensures ValidateMap(epc, Frame(epc, payload))
         == if 1 <= |payload| <= 15 then Ok(true) else Err(EpcError.InvalidValue(epc))
  {
  }

  lemma EncodedLength(v: PropertyMap)
    ensures |Encode(v)| == if v.count < 16 then v.count + 1 else 17
    ensures Encode(v)[0] == v.count
  {
    AscendingAll(v.codes);
  }

  /** What is left of a bitmap without its count and first byte reads as a list of 14 codes: of
      the codes ending in 1 the map has 91, a1 and b1 only, so that byte 1 is 14, and it has f2
      to ff, so that bytes 2 to 15 are at least 80. */
  predicate ReadsAsList(codes: set<int>) {
    && codes * {0x81, 0x91, 0xa1, 0xb1, 0xc1, 0xd1, 0xe1, 0xf1} == {0x91, 0xa1, 0xb1}
    && forall c | 0xf2 <= c <= 0xff :: c in codes
  }

  /** Those 14 codes: bytes 2 to 15 of the bitmap. */
  function LaterBytes(codes: set<int>): set<int> { set j | 2 <= j < 16 :: BitmapByte(codes, j, 0) as int }

  /** What a map is read as after from_canonical, which accepts exactly the maps with a count of
      at least two: its wire form has lost its first two bytes. A list of one repeated code, or
      of none, with count 2 leaves the wire form of the empty map; a bitmap may leave a list of
      14 codes; everything else is an error. */
  lemma MapReadExactly(cell: Cell, v: PropertyMap, now: int)
    requires now != 0
    ensures var (after, r) := FromCanonical(MapCodec(cell.epc), cell, v, now);
      var read := ToCanonical(MapCodec(cell.epc), after);
      && (if v.count >= 2 then r == Ok(()) else r == Err(EpcError.InvalidValue(cell.epc)) && after == cell)
      && (r.Ok? ==>
        if v.count == 2 && |v.codes| < 2 then read.Ok? && read.value == NewMap()
        else if v.count >= 16 && ReadsAsList(v.codes) then
          read.Ok? && read.value == MapValue(LaterBytes(v.codes), 14)
        else read == Err(EpcError.InvalidValue(cell.epc)))
  {
    EncodedLength(v);
    WrittenValue(MapCodec(cell.epc), cell, v, now);
    if v.count >= 1 {
      var payload := Encode(v)[2..];
      VerdictOnFrame(cell.epc, payload);
      if 2 <= v.count {
        ShortWire(cell.epc, payload);
        if v.count < 16 { ListWithoutHeader(v); } else { BitmapWithoutHeader(v); }
      }
    }
  }

  /** No accepted map is read back as itself. */
  lemma MapNeverReadBack(cell: Cell, v: PropertyMap, now: int)
    requires now != 0
    ensures var (after, r) := FromCanonical(MapCodec(cell.epc), cell, v, now);
      && (r.Ok? <==> v.count >= 2)
      && (r.Ok? ==> ToCanonical(MapCodec(cell.epc), after) != Ok(v))
  {
    MapReadExactly(cell, v, now);
  }

  /** Payloads of 1 to 15 bytes can only be lists. */
  lemma ShortWire(epc: byte, payload: seq<byte>)
    requires 1 <= |payload| <= 15
    ensures var read := DecodeMap(epc, Frame(epc, payload));
      if ListForm(payload) then read.Ok? && read.value == MapValue(WireCodes(payload), payload[0])
      else read == Err(EpcError.InvalidValue(epc))
  {
    assert Frame(epc, payload)[2..] == payload;
  }

  lemma ListWithoutHeader(v: PropertyMap)
    requires 2 <= v.count < 16
    ensures |Encode(v)| == v.count + 1
    ensures var payload := Encode(v)[2..];
      && (ListForm(payload) <==> v.count == 2 && |v.codes| < 2)
      && (ListForm(payload) ==> MapValue(WireCodes(payload), payload[0]) == NewMap())
  {
    EncodedLength(v);
    ListBytes(v);
    var payload := Encode(v)[2..];
    assert payload[0] == Encode(v)[2];
    if ListForm(payload) {
      assert payload == [0];
    }
  }

  /** The second byte after the count is a code if there are two, and padding otherwise. */
  lemma ListBytes(v: PropertyMap)
    requires 2 <= v.count < 16
    ensures |Encode(v)| == v.count + 1
    ensures if |v.codes| >= 2 then Encode(v)[2] >= 0x80 else Encode(v)[2] == 0
  {
    EncodedLength(v);
    AscendingAll(v.codes);
    var asc := Ascending(v.codes, 128);
    if |v.codes| >= 2 { assert Encode(v)[2] == asc[1] && asc[1] in asc; }
  }

  lemma BitmapWithoutHeader(v: PropertyMap)
    requires v.count >= 16
    ensures |Encode(v)| == 17
    ensures var payload := Encode(v)[2..];
      && (ListForm(payload) <==> ReadsAsList(v.codes))
      && (ListForm(payload) ==> MapValue(WireCodes(payload), payload[0]) == MapValue(LaterBytes(v.codes), 14))
  {
    EncodeFromSixteen(v);
    var payload := Encode(v)[2..];
    BitmapTail(v.codes, payload);
    SecondByte(v.codes);
    LastRow(v.codes);
    assert ListForm(payload) <==> BitmapByte(v.codes, 1, 0) == 14 && TopBits(v.codes);
  }

  /** Bytes 2 to 15 of the bitmap are at least 80. */
  predicate TopBits(codes: set<int>) { forall j: nat | 2 <= j < 16 :: BitmapByte(codes, j, 0) >= 0x80 }

  /** The bitmap without its first byte, as a list. */
  lemma BitmapTail(codes: set<int>, payload: seq<byte>)
    requires payload == Bitmap(codes)[1..]
    ensures |payload| == 15 && payload[0] == BitmapByte(codes, 1, 0)
    ensures (forall k | 1 <= k < 15 :: payload[k] >= 0x80) <==> TopBits(codes)
    ensures payload[0] < 16 ==> WireCodes(payload) == LaterBytes(codes)
  {
    assert forall k: nat | k < 15 :: payload[k] == BitmapByte(codes, k + 1, 0);
    if forall k | 1 <= k < 15 :: payload[k] >= 0x80 {
      forall j: nat | 2 <= j < 16 ensures BitmapByte(codes, j, 0) >= 0x80 {
        assert payload[j - 1] >= 0x80;
      }
    }
    forall c | c in LaterBytes(codes) ensures exists k :: 1 <= k < 15 && payload[k] == c {
      var j :| 2 <= j < 16 && BitmapByte(codes, j, 0) == c;
      assert payload[j - 1] == c;
    }
  }

  lemma BitsOfFourteen(i: nat)
    requires i < 8
    ensures Bit(14, i) <==> 1 <= i <= 3
  {
    assert i >= 1 ==> Bit(14, i) == Bit(7, i - 1);
    assert i >= 2 ==> Bit(7, i - 1) == Bit(3, i - 2);
    assert i >= 3 ==> Bit(3, i - 2) == Bit(1, i - 3);
    if i >= 4 { ZeroBit(i - 4); }
  }

  /** Of the codes ending in 1, there are 91, a1 and b1. */
  predicate OneToThree(codes: set<int>) {
    forall i: nat | i < 8 :: 0x81 + 16 * i in codes <==> 1 <= i <= 3
  }

  /** Byte 1 of the bitmap is 14 exactly for codes 91, a1 and b1. */
  lemma SecondByte(codes: set<int>)
    ensures BitmapByte(codes, 1, 0) == 14 <==>
      codes * {0x81, 0x91, 0xa1, 0xb1, 0xc1, 0xd1, 0xe1, 0xf1} == {0x91, 0xa1, 0xb1}
  {
    EndingInOne(codes);
    if OneToThree(codes) { OneToThreeIsFourteen(codes); }
    if BitmapByte(codes, 1, 0) == 14 { FourteenIsOneToThree(codes); }
  }

  lemma FourteenIsOneToThree(codes: set<int>)
    requires BitmapByte(codes, 1, 0) == 14
    ensures OneToThree(codes)
  {
    forall i: nat | i < 8 ensures 0x81 + 16 * i in codes <==> 1 <= i <= 3 {
      BitmapBit(codes, 1, 0, i);
      BitsOfFourteen(i);
    }
  }

  lemma OneToThreeIsFourteen(codes: set<int>)
    requires OneToThree(codes)
    ensures BitmapByte(codes, 1, 0) == 14
  {
    Sixteen();
    forall i: nat | i < 8 ensures Bit(BitmapByte(codes, 1, 0), i) == Bit(14, i) {
      BitmapBit(codes, 1, 0, i);
      BitsOfFourteen(i);
      assert 0x81 + 16 * i in codes <==> 1 <= i <= 3;
    }
    SameBits(BitmapByte(codes, 1, 0), 14, 8);
  }

  lemma EndingInOne(codes: set<int>)
    ensures codes * {0x81, 0x91, 0xa1, 0xb1, 0xc1, 0xd1, 0xe1, 0xf1} == {0x91, 0xa1, 0xb1} <==> OneToThree(codes)
  {
    var eight := {0x81, 0x91, 0xa1, 0xb1, 0xc1, 0xd1, 0xe1, 0xf1};
    forall c: int ensures c in eight <==> 0x81 <= c <= 0xf1 && c % 16 == 1 { }
    if codes * eight == {0x91, 0xa1, 0xb1} {
      forall i: nat | i < 8 ensures 0x81 + 16 * i in codes <==> 1 <= i <= 3 {
        assert 0x81 + 16 * i in codes * eight <==> 0x81 + 16 * i in {0x91, 0xa1, 0xb1};
      }
    }
    if OneToThree(codes) {
      forall c ensures c in codes * eight <==> c in {0x91, 0xa1, 0xb1} {
        if c in eight { assert c == 0x81 + 16 * ((c - 0x81) / 16); }
      }
    }
  }

  lemma TopBit(b: byte)
    ensures b >= 0x80 <==> Bit(b, 7)
  {
    ShrBit(b, 7, 0);
    AndOnes(b, 7);
    Sixteen();
    HalfRange(b, Pow2(7));
  }

  lemma HalfRange(b: byte, p: nat)
    requires p == 0x80
    ensures b / p % 2 == 1 <==> b >= 0x80
  {
  }

  /** Those bytes are at least 80 exactly when the map has f2 to ff. */
  lemma LastRow(codes: set<int>)
    ensures TopBits(codes) <==> forall c | 0xf2 <= c <= 0xff :: c in codes
  {
    forall j: nat | 2 <= j < 16 ensures BitmapByte(codes, j, 0) >= 0x80 <==> 0xf0 + j in codes {
      TopBitOfByte(codes, j);
    }
    if TopBits(codes) {
      forall c | 0xf2 <= c <= 0xff ensures c in codes {
        assert BitmapByte(codes, c - 0xf0, 0) >= 0x80;
      }
    }
  }

  lemma TopBitOfByte(codes: set<int>, j: nat)
    ensures BitmapByte(codes, j, 0) >= 0x80 <==> 0xf0 + j in codes
  {
    BitmapBit(codes, j, 0, 7);
    Sixteen();
    TopBit(BitmapByte(codes, j, 0));
  }

  /** A received wire form is stored exactly when the count is at most 14, and is then read as
      the map it was made from exactly when that map's count is the number of its codes. */
  lemma MapReceiveExactly(cell: Cell, v: PropertyMap, now: int)
    requires now != 0
    ensures var (after, r) := Set(MapCodec(cell.epc), cell, Encode(v), now);
      && (if v.count <= 14 then r == Ok(()) else r == Err(EpcError.InvalidValue(cell.epc)) && after == cell)
      && (r.Ok? ==> (ToCanonical(MapCodec(cell.epc), after) == Ok(v) <==> v.count == |v.codes|))
  {
    EncodedLength(v);
    VerdictOnFrame(cell.epc, Encode(v));
    WireRoundTrip(v);
    assert Frame(cell.epc, Encode(v))[2..] == Encode(v);
  }

  lemma TwoCodesWire()
    ensures ValidValue(MapValue({0x80, 0x81}, 2)) && Encode(MapValue({0x80, 0x81}, 2)) == [2, 0x80, 0x81]
  {
    var v := MapValue({0x80, 0x81}, 2);
    assert |v.codes| == 2;
    EncodeExactList(v);
    AscendingAll(v.codes);
    var asc := Ascending(v.codes, 128);
    assert asc[0] in asc && asc[1] in asc && asc[0] < asc[1];
  }

  /** The map of 80 and 81 is accepted, and then cannot be read: only code 81 is left of it. */
  lemma LostHeaderWitness(cell: Cell, now: int)
    requires now != 0
    ensures ValidValue(MapValue({0x80, 0x81}, 2))
    ensures var (after, r) := FromCanonical(MapCodec(cell.epc), cell, MapValue({0x80, 0x81}, 2), now);
      r == Ok(()) && ToCanonical(MapCodec(cell.epc), after) == Err(EpcError.InvalidValue(cell.epc))
  {
    TwoCodesWire();
    var v: PropertyMap := MapValue({0x80, 0x81}, 2);
    WrittenValue(MapCodec(cell.epc), cell, v, now);
    assert EncodeMap(v).value[2..] == [0x81];
    OneCodePayload(cell.epc, 0x81);
  }

  lemma OneCodePayload(epc: byte, code: byte)
    requires code >= 0x80
    ensures ValidateMap(epc, Frame(epc, [code])) == Ok(true)
    ensures DecodeMap(epc, Frame(epc, [code])) == Err(EpcError.InvalidValue(epc))
  {
    assert Frame(epc, [code])[2..] == [code];
  }

  /** The codes 80, 81, ... up to n of them. */
  function FirstCodes(n: nat): (codes: set<int>)
    requires n <= 128
    ensures |codes| == n && forall c :: c in codes <==> 0x80 <= c < 0x80 + n
  {
    if n == 0 then {} else FirstCodes(n - 1) + {0x80 + n - 1}
  }

  /** The wire form of the map of 80 to 8e, fifteen codes, is refused. */
  lemma FifteenCodesWitness(cell: Cell, now: int)
    requires now != 0
    ensures var v := MapValue(FirstCodes(15), 15);
      && ValidValue(v)
      && Set(MapCodec(cell.epc), cell, Encode(v), now) == (cell, Err(EpcError.InvalidValue(cell.epc)))
  {
    var v: PropertyMap := MapValue(FirstCodes(15), 15);
    EncodedLength(v);
    VerdictOnFrame(cell.epc, Encode(v));
  }

  /** The map of 80 alone with count 2, as parsed from 02 80 80, is accepted and read as empty. */
  lemma RepeatedCodeReadsEmpty(cell: Cell, now: int)
    requires now != 0
    ensures var v := MapValue({0x80}, 2);
      && Parse([2, 0x80, 0x80]) == Ok(v) && ValidValue(v)
      && var (after, r) := FromCanonical(MapCodec(cell.epc), cell, v, now);
         var read := ToCanonical(MapCodec(cell.epc), after);
         r == Ok(()) && read.Ok? && read.value == NewMap()
  {
    var w: seq<byte> := [2, 0x80, 0x80];
    assert w[1] == 0x80;
    assert WireCodes(w) == {0x80};
    MapReadExactly(cell, MapValue({0x80}, 2), now);
  }

  predicate IsCode(c: int) { 0x80 <= c <= 0xff }

  lemma {:induction false} RangeSize(lo: int, hi: int)
    requires 0x80 <= lo <= hi <= 0x100
    ensures |set c | lo <= c < hi && IsCode(c)| == hi - lo
    decreases hi - lo
  {
    var range := set c | lo <= c < hi && IsCode(c);
    if lo == hi {
      assert range == {};
    } else {
      RangeSize(lo, hi - 1);
      assert range == (set c | lo <= c < hi - 1 && IsCode(c)) + {hi - 1};
    }
  }

  /** The codes 91, a1, b1 and f2 to ff. */
  function ListLike(): set<int> { {0x91, 0xa1, 0xb1} + set c | 0xf2 <= c < 0x100 && IsCode(c) }

  lemma ListLikeIsValid()
    ensures |ListLike()| == 17 && ValidValue(MapValue(ListLike(), 17))
  {
    RangeSize(0xf2, 0x100);
    var last := set c | 0xf2 <= c < 0x100 && IsCode(c);
    assert last !! {0x91, 0xa1, 0xb1};
    assert |{0x91, 0xa1, 0xb1}| == 3;
  }

  lemma ListLikeReads()
    ensures ReadsAsList(ListLike())
  {
    var eight := {0x81, 0x91, 0xa1, 0xb1, 0xc1, 0xd1, 0xe1, 0xf1};
    forall c ensures c in ListLike() * eight <==> c in {0x91, 0xa1, 0xb1} { }
  }

  lemma ListLikeBytes()
    ensures LaterBytes(ListLike()) == {0x80}
  {
    var codes := ListLike();
    forall j: nat | 2 <= j < 16 ensures BitmapByte(codes, j, 0) == 0x80 {
      forall i: nat | i < 8 ensures 0x80 + 16 * i + j in codes <==> i == 7 { }
      OnlyTopBit(codes, j);
    }
    assert BitmapByte(codes, 2, 0) in LaterBytes(codes);
  }

  /** The map of 91, a1, b1 and f2 to ff, with an exact count, is accepted and read as the map of
      80 alone with count 14. */
  lemma ReadAsAnotherMap(cell: Cell, now: int)
    requires now != 0
    ensures |ListLike()| == 17 && ValidValue(MapValue(ListLike(), 17))
    ensures var (after, r) := FromCanonical(MapCodec(cell.epc), cell, MapValue(ListLike(), 17), now);
      var read := ToCanonical(MapCodec(cell.epc), after);
      r == Ok(()) && read.Ok? && read.value == MapValue({0x80}, 14)
  {
    ListLikeIsValid();
    ListLikeReads();
    ListLikeBytes();
    MapReadExactly(cell, MapValue(ListLike(), 17), now);
  }

  lemma OnlyTopBit(codes: set<int>, j: nat)
    requires forall i: nat | i < 8 :: 0x80 + 16 * i + j in codes <==> i == 7
    ensures BitmapByte(codes, j, 0) == 0x80
  {
    Sixteen();
    assert Pow2(7) == 0x80;
    forall i: nat | i < 8 ensures Bit(BitmapByte(codes, j, 0), i) == Bit(0x80, i) {
      BitmapBit(codes, j, 0, i);
      OneBit(7, i);
      assert 0x80 + 16 * i + j in codes <==> i == 7;
    }
    SameBits(BitmapByte(codes, j, 0), 0x80, 8);
  }
}
