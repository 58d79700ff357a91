/** Properties carried as hex strings, and the manufacturer fault record built from two of them. */
module HexProperties {
  import opened Bits
  import opened Outcomes
  import opened HexSpec
  import opened HexStrings
  import opened PropertyCell

  type HexValidator = (Outcome<HexString, EpcError>, seq<byte>) -> Outcome<bool, EpcError>

  function EncodeHex(epc: byte, h: HexString): Outcome<seq<byte>, EpcError> {
    match SliceDecode(h, |h| / 2)
    case Ok(b) => Ok([0, 0] + b)
    case Err(_) => Err(InvalidValue(epc))
    case Panic => Panic
  }

  function DecodeHex(b: seq<byte>): Outcome<HexString, EpcError> {
    if |b| < 2 then Panic
    else
      var r := FromBytesOf(b[2..], |b| - 2);
      if r.Ok? then Ok(r.value) else Panic
  }

  function HexCodec(epc: byte, validator: HexValidator): Codec<HexString> {
    Codec((h: HexString) => EncodeHex(epc, h), b => DecodeHex(b), validator)
  }

  function ValidateLength(epc: byte, b: seq<byte>, len: nat): Outcome<bool, EpcError> {
    if |b| == len + 2 then Ok(true) else Err(InvalidValue(epc))
  }

  lemma EncodeHexIsBytes(epc: byte, h: HexString)
    ensures EncodeHex(epc, h) == Ok([0, 0] + BytesOf(h))
  {
    ExactSlice(h);
  }

  lemma DecodeHexFrame(epc: byte, payload: seq<byte>)
    ensures DecodeHex(Frame(epc, payload)) == Ok(Digits(payload))
  {
    WholeBuffer(payload);
  }

  /** A hex string that is stored is read back in lower case, whatever the validator. */
  lemma HexWriteThenRead(cell: Cell, validator: HexValidator, h: HexString, now: int)
    requires now != 0
    ensures var codec := HexCodec(cell.epc, validator);
      var (after, r) := FromCanonical(codec, cell, h, now);
      if r.Ok? then ToCanonical(codec, after) == Ok(Lowercase(h)) && Get(after) == Ok(BytesOf(h)) else after == cell
  {
    EncodeHexIsBytes(cell.epc, h);
    DecodeHexFrame(cell.epc, BytesOf(h));
    DigitsOfBytes(h);
    assert ([0, 0] + BytesOf(h))[2..] == BytesOf(h);
    WrittenValue(HexCodec(cell.epc, validator), cell, h, now);
  }

  /** Any payload a validator lets through is read as its own digits. */
  lemma HexReceive(cell: Cell, validator: HexValidator, payload: seq<byte>, now: int)
    requires now != 0
    ensures var codec := HexCodec(cell.epc, validator);
      var (after, r) := Set(codec, cell, payload, now);
      r.Ok? ==> ToCanonical(codec, after) == Ok(Digits(payload))
  {
    DecodeHexFrame(cell.epc, payload);
  }

  /** Manufacturer and business facility codes: exactly the three-byte values can be stored. */
  lemma CodeOfThreeBytes(cell: Cell, h: HexString, now: int)
    ensures FromCanonical(HexCodec(cell.epc, (current, b) => ValidateLength(cell.epc, b, 3)), cell, h, now).1
         == if |h| == 6 then Ok(()) else Err(InvalidValue(cell.epc))
  {
    EncodeHexIsBytes(cell.epc, h);
  }

  // ----- the manufacturer's fault record

  datatype FaultCode = FaultCode(manufacturer: HexString, fault: HexString)

  function LowerCode(r: FaultCode): FaultCode { FaultCode(Lowered(r.manufacturer), Lowered(r.fault)) }

  function Lowered(h: HexString): (l: HexString)
    ensures l == Lowercase(h)
  {
    DigitsOfBytes(h);
    Lowercase(h)
  }

  /** The encoder right-aligns the manufacturer code in all of the tail buf[2..], then writes
      the fault code over buf[5..]. */
  function EncodeFault(epc: byte, r: FaultCode): Outcome<seq<byte>, EpcError> {
    var n := |r.manufacturer| / 2 + |r.fault| / 2;
    var first := RightAlign(BytesOf(r.manufacturer), n);
    if n < 3 then Panic
    else
      match SliceDecode(r.fault, n - 3)
      case Ok(b) => Ok([0, 0] + first[..3] + b)
      case Err(_) => Err(InvalidValue(epc))
      case Panic => Panic
  }

  method EncodeFaultCode(epc: byte, r: FaultCode) returns (internal: Outcome<seq<byte>, EpcError>)
    ensures internal == EncodeFault(epc, r)
  {
    var bufLen := |r.manufacturer| / 2 + |r.fault| / 2 + 2;
    var buf := new byte[bufLen](_ => 0);
    ghost var zeros := buf[..];
    var w := DecodeIntoSlice(r.manufacturer, buf, 2, bufLen);
    ghost var first := RightAlign(BytesOf(r.manufacturer), bufLen - 2);
    TailWritten(zeros, buf[..], 2, first);
    if bufLen < 5 {
      return Panic;
    }
    HeaderAndThree(zeros, buf[..], first);
    ghost var before := buf[..];
    w := DecodeIntoSlice(r.fault, buf, 5, bufLen);
    if !w.Ok? {
      return if w.Err? then Err(InvalidValue(epc)) else Panic;
    }
    TailWritten(before, buf[..], 5, SliceDecode(r.fault, bufLen - 5).value);
    internal := Ok(buf[..]);
  }

  /** A slice up to the end of the buffer leaves nothing behind it. */
  lemma TailWritten(before: seq<byte>, after: seq<byte>, from: nat, b: seq<byte>)
    requires from <= |before| && after == before[..from] + b + before[|before|..]
    ensures after == before[..from] + b
  {
  }

  lemma HeaderAndThree(zeros: seq<byte>, b: seq<byte>, tail: seq<byte>)
    requires |zeros| >= 2 && zeros[0] == zeros[1] == 0
    requires |tail| >= 3 && b == zeros[..2] + tail
    ensures b[..5] == [0, 0] + tail[..3]
  {
  }

  function DecodeFault(epc: byte, b: seq<byte>): Outcome<FaultCode, EpcError> {
    if |b| < 5 then Panic
    else
      var manufacturer := FromBytesOf(b[2..5], 3);
      var fault := FromBytesOf(b[5..], |b| - 5);
      if manufacturer.Ok? && fault.Ok? then Ok(FaultCode(manufacturer.value, fault.value)) else Err(InvalidValue(epc))
  }

  function ValidateFault(epc: byte, b: seq<byte>): Outcome<bool, EpcError> {
    if |b| >= 5 then Ok(true) else Err(InvalidValue(epc))
  }

  function FaultCodec(epc: byte): Codec<FaultCode> {
    Codec(r => EncodeFault(epc, r), b => DecodeFault(epc, b), (current, b) => ValidateFault(epc, b))
  }

  lemma DecodeFaultParts(epc: byte, b: seq<byte>)
    requires |b| >= 5
    ensures DecodeFault(epc, b) == Ok(FaultCode(Digits(b[2..5]), Digits(b[5..])))
  {
    WholeBuffer(b[2..5]);
    WholeBuffer(b[5..]);
  }

  lemma ZeroTail(m: seq<byte>, n: nat)
    requires |m| == 3
    ensures RightAlign(m, 3 + n)[..3] == m <==> n == 0 || m == [0, 0, 0]
  {
    var r := RightAlign(m, 3 + n);
    assert r == Zeros(n) + m;
    if n > 0 && r[..3] == m {
      assert r[0] == m[0] == 0;
      assert m[1] == r[1] == (if n == 1 then m[0] else 0);
      assert m[2] == r[2] == (if n == 1 then m[1] else if n == 2 then m[0] else 0);
    }
  }

  lemma FaultReadBack(epc: byte, b: seq<byte>)
    requires |b| >= 5
    ensures DecodeFault(epc, Frame(epc, b[2..])) == Ok(FaultCode(Digits(b[2..5]), Digits(b[5..])))
  {
    var f := Frame(epc, b[2..]);
    DecodeFaultParts(epc, f);
    SameSlices(f, b);
  }

  lemma SameSlices(a: seq<byte>, b: seq<byte>)
    requires |a| == |b| >= 5 && a[2..] == b[2..]
    ensures a[2..5] == b[2..5] && a[5..] == b[5..]
  {
    assert a[2..5] == a[2..][..3] && a[5..] == a[2..][3..];
    assert b[2..5] == b[2..][..3] && b[5..] == b[2..][3..];
  }

  lemma ThreeByteRecord(epc: byte, r: FaultCode)
    requires |r.manufacturer| == 6
    ensures EncodeFault(epc, r)
         == Ok([0, 0] + RightAlign(BytesOf(r.manufacturer), 3 + |r.fault| / 2)[..3] + BytesOf(r.fault))
  {
    ExactSlice(r.fault);
  }

  lemma SameDigits(a: seq<byte>, h: HexString)
    ensures Digits(a) == Lowercase(h) <==> a == BytesOf(h)
  {
    DigitsOfBytes(h);
    BytesOfDigits(a);
    BytesOfDigits(BytesOf(h));
  }

  /** A stored record is read back as the digits of bytes 2..5 and of the rest. */
  lemma FaultStored(cell: Cell, r: FaultCode, now: int)
    requires now != 0
    ensures var codec := FaultCodec(cell.epc);
      var (after, done) := FromCanonical(codec, cell, r, now);
      && (done.Ok? <==> EncodeFault(cell.epc, r).Ok?)
      && (done.Ok? ==> var b := EncodeFault(cell.epc, r).value;
            |b| >= 5 && ToCanonical(codec, after) == Ok(FaultCode(Digits(b[2..5]), Digits(b[5..]))))
  {
    WrittenValue(FaultCodec(cell.epc), cell, r, now);
    var internal := EncodeFault(cell.epc, r);
    if internal.Ok? {
      assert |internal.value| >= 5;
      FaultReadBack(cell.epc, internal.value);
    }
  }

  /** Every payload of at least three bytes is stored, and read as the digits of the first three
      and of the rest. */
  lemma FaultReceive(cell: Cell, payload: seq<byte>, now: int)
    requires now != 0
    ensures var (after, r) := Set(FaultCodec(cell.epc), cell, payload, now);
      if |payload| >= 3 then
        && r == Ok(())
        && ToCanonical(FaultCodec(cell.epc), after) == Ok(FaultCode(Digits(payload[..3]), Digits(payload[3..])))
      else r == Err(InvalidValue(cell.epc)) && after == cell
  {
    var f := Frame(cell.epc, payload);
    if |payload| >= 3 {
      DecodeFaultParts(cell.epc, f);
      assert f[2..5] == payload[..3] && f[5..] == payload[3..];
    }
  }

  /** How writing a record ends. Fewer than three bytes in all are out of range; a manufacturer
      code of at least three bytes is always stored, moved to the right by the length of the
      fault code and cut to three bytes, before the fault code; with a shorter one the fault code
      is written into too short a slice, and an error or panic of that is passed on. */
  lemma FaultWriteExactly(cell: Cell, r: FaultCode, now: int)
    requires now != 0
    ensures var (after, done) := FromCanonical(FaultCodec(cell.epc), cell, r, now);
      var (m, f) := (BytesOf(r.manufacturer), BytesOf(r.fault));
      if |m| + |f| < 3 then done == Panic
      else if |m| >= 3 then done == Ok(()) && Get(after) == Ok((Zeros(|f|) + m)[..3] + (Zeros(|m| - 3) + f))
      else match SliceDecode(r.fault, |m| + |f| - 3)
        case Ok(b) => done == Ok(()) && Get(after) == Ok((Zeros(|f|) + m)[..3] + b)
        case Err(_) => done == Err(InvalidValue(cell.epc)) && after == cell
        case Panic => done == Panic && after == cell
  {
    var (m, f) := (BytesOf(r.manufacturer), BytesOf(r.fault));
    var internal := EncodeFault(cell.epc, r);
    if |m| + |f| >= 3 {
      assert RightAlign(m, |m| + |f|) == Zeros(|f|) + m;
      if |m| >= 3 { LongSlice(r.fault, |m| + |f| - 3); }
      if internal.Ok? { BehindTwo(internal.value, (Zeros(|f|) + m)[..3], SliceDecode(r.fault, |m| + |f| - 3).value); }
    }
  }

  lemma LongSlice(s: HexString, n: nat)
    requires |s| <= 2 * n
    ensures SliceDecode(s, n) == Ok(Zeros(n - |s| / 2) + BytesOf(s))
  {
  }

  lemma BehindTwo(internal: seq<byte>, a: seq<byte>, b: seq<byte>)
    requires internal == [0, 0] + a + b
    ensures internal[2..] == a + b
  {
  }

  lemma ThreeByteRoundTrip(epc: byte, r: FaultCode)
    requires |r.manufacturer| == 6
    ensures EncodeFault(epc, r).Ok? && |EncodeFault(epc, r).value| >= 5
    ensures var b := EncodeFault(epc, r).value;
      FaultCode(Digits(b[2..5]), Digits(b[5..])) == LowerCode(r)
      <==> r.fault == "" || AllZeroDigits(r.manufacturer)
  {
    var m, f := BytesOf(r.manufacturer), BytesOf(r.fault);
    ThreeByteRecord(epc, r);
    var b := EncodeFault(epc, r).value;
    assert b[2..5] == RightAlign(m, 3 + |f|)[..3] && b[5..] == f;
    SameDigits(b[2..5], r.manufacturer);
    SameDigits(b[5..], r.fault);
    ZeroTail(m, |f|);
    ZeroBytes(r.manufacturer);
  }

  /** A record is stored and read back (in lower case) exactly when its manufacturer code has
      three bytes and either the fault code is empty or the manufacturer code is zero. */
  lemma FaultRoundTripExactly(cell: Cell, r: FaultCode, now: int)
    requires now != 0
    ensures var codec := FaultCodec(cell.epc);
      var (after, done) := FromCanonical(codec, cell, r, now);
      done.Ok? && ToCanonical(codec, after) == Ok(LowerCode(r))
      <==> |r.manufacturer| == 6 && (r.fault == "" || AllZeroDigits(r.manufacturer))
  {
    FaultStored(cell, r, now);
    if |r.manufacturer| == 6 {
      ThreeByteRoundTrip(cell.epc, r);
    }
  }

  lemma ZeroBytes(h: HexString)
    requires |h| == 6
    ensures BytesOf(h) == [0, 0, 0] <==> AllZeroDigits(h)
  {
    ZeroPrefix(h, 3);
    assert h[..6] == h;
    var b := BytesOf(h);
    if FirstNonZero(b, 0) == 3 {
      assert b == [0, 0, 0];
    }
  }

  /** Record (000001, 2a) is stored but read back as (000000, 2a). */
  lemma FaultWitness(cell: Cell, now: int)
    requires now != 0
    ensures ValidHex("000001") && ValidHex("000000") && ValidHex("2a")
    ensures var (after, done) := FromCanonical(FaultCodec(cell.epc), cell, FaultCode("000001", "2a"), now);
      done == Ok(()) && ToCanonical(FaultCodec(cell.epc), after) == Ok(FaultCode("000000", "2a"))
  {
    EncodedWitness(cell.epc);
    ReadWitness(cell.epc);
    WrittenValue(FaultCodec(cell.epc), cell, FaultCode("000001", "2a"), now);
    assert EncodeFault(cell.epc, FaultCode("000001", "2a")).value[2..] == [0, 0, 0, 0x2a];
  }

  lemma ReadWitness(epc: byte)
    ensures ValidHex("000000") && ValidHex("2a")
    ensures DecodeFault(epc, Frame(epc, [0, 0, 0, 0x2a])) == Ok(FaultCode("000000", "2a"))
    ensures ValidateFault(epc, Frame(epc, [0, 0, 0, 0x2a])) == Ok(true)
  {
    var f := Frame(epc, [0, 0, 0, 0x2a]);
    DecodeFaultParts(epc, f);
    assert f[2..5] == [0, 0, 0] && f[5..] == [0x2a];
    PrintWitness();
  }

  lemma EncodedWitness(epc: byte)
    ensures ValidHex("000001") && ValidHex("2a")
    ensures EncodeFault(epc, FaultCode("000001", "2a")) == Ok([0, 0, 0, 0, 0, 0x2a])
  {
    assert ValidHex("000001") && ValidHex("2a");
    SpellWitness();
    ThreeByteRecord(epc, FaultCode("000001", "2a"));
    assert |"2a"| / 2 == 1;
    assert RightAlign([0, 0, 1], 3 + 1)[..3] == [0, 0, 0];
    assert [0, 0] + [0, 0, 0] + [0x2a] == [0, 0, 0, 0, 0, 0x2a];
  }

  lemma PrintWitness()
    ensures Digits([0, 0, 0]) == "000000" && Digits([0x2a]) == "2a"
  {
    assert ByteDigits(0) == "00" && ByteDigits(0x2a) == "2a";
    DigitsAppend([], 0);
    DigitsAppend([0], 0);
    DigitsAppend([0, 0], 0);
    DigitsAppend([], 0x2a);
    assert [] + [0] == [0] && [0] + [0] == [0, 0] && [0, 0] + [0] == [0, 0, 0] && [] + [0x2a] == [0x2a];
  }

  lemma SpellWitness()
    ensures ValidHex("000001") && ValidHex("2a")
    ensures BytesOf("000001") == [0, 0, 1] && BytesOf("2a") == [0x2a]
  {
    assert ValidHex("000001") && ValidHex("2a");
    var m, f := "000001", "2a";
    assert PairValue(m, 0) == 0 && PairValue(m, 1) == 0 && PairValue(m, 2) == 1;
    assert PairValue(f, 0) == 0x2a;
  }
}
