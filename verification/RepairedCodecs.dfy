/** Three encoders or decoders with their evident slip corrected: the law each then satisfies
    on all inputs, carried over to the property cell. */
module RepairedCodecs {
  import opened Bits
  import opened Outcomes
  import opened HexSpec
  import opened HexStrings
  import opened PropertyCell
  import opened PropertyMapSpec
  import EojList
  import MapProperty
  import HexProperties

  // ----- object lists, read with the size of an entry as stride

  function EojCodec(): Codec<seq<EojList.EOJ>> {
    Codec(xs => EojList.Encode(xs),
          b => if |b| < 2 then Panic else Ok(EojList.ReadEojs(b[2..], 3)),
          (current, b) => EojList.Validate(b))
  }

  /** Lists of any length are stored and read back whole. */
  lemma EojRoundTrip(cell: Cell, xs: seq<EojList.EOJ>, now: int)
    requires now != 0
    ensures var (after, r) := FromCanonical(EojCodec(), cell, xs, now);
      r == Ok(()) && ToCanonical(EojCodec(), after) == Ok(xs)
  {
    EojList.StrideThreeInverts(xs);
    EojList.VerdictOnFrame(cell.epc, EojList.Flatten(xs));
    assert EojCodec().encode(xs).value[2..] == EojList.Flatten(xs);
    WrittenValue(EojCodec(), cell, xs, now);
  }

  // ----- property maps, with room for the header and the lengths of the wire forms

  function ValidateMap(epc: byte, b: seq<byte>): Outcome<bool, EpcError> {
    if |b| > 2 && ((b[2] < 16 && |b| == b[2] + 3) || (b[2] >= 16 && |b| == 19)) then Ok(true)
    else Err(EpcError.InvalidValue(epc))
  }

  function MapCodec(epc: byte): Codec<MapProperty.PropertyMap> {
    Codec((v: MapProperty.PropertyMap) => Ok([0, 0] + Encode(v)),
          b => MapProperty.DecodeMap(epc, b),
          (current, b) => ValidateMap(epc, b))
  }

  /** Every map is stored, and read back exactly when its count is the number of its codes. */
  lemma MapRoundTripExactly(cell: Cell, v: MapProperty.PropertyMap, now: int)
    requires now != 0
    ensures var (after, r) := FromCanonical(MapCodec(cell.epc), cell, v, now);
      r == Ok(()) && (ToCanonical(MapCodec(cell.epc), after) == Ok(v) <==> v.count == |v.codes|)
  {
    MapProperty.EncodedLength(v);
    WireRoundTrip(v);
    assert ([0, 0] + Encode(v))[2..] == Encode(v);
    WrittenValue(MapCodec(cell.epc), cell, v, now);
  }

  /** A received payload is stored exactly when its length is that of its declared count, and is
      read as a map exactly when it is the wire form of one. */
  lemma MapReceive(cell: Cell, payload: seq<byte>, now: int)
    requires now != 0
    ensures var (after, r) := Set(MapCodec(cell.epc), cell, payload, now);
      var read := ToCanonical(MapCodec(cell.epc), after);
      if payload != [] && |payload| == (if payload[0] < 16 then payload[0] + 1 else 17) then
        && r == Ok(())
        && (if Accepts(payload) then read.Ok? && read.value == MapValue(WireCodes(payload), payload[0])
            else read == Err(EpcError.InvalidValue(cell.epc)))
      else r == Err(EpcError.InvalidValue(cell.epc)) && after == cell
  {
    assert Frame(cell.epc, payload)[2..] == payload;
  }

  // ----- writing a hex string into a slice, with the scan looking at digit i + 1

  /** The number of digits in the zero pairs in front. */
  function LeadingZeros(s: HexString): (k: nat)
    ensures k <= |s| && k % 2 == 0
  {
    2 * FirstNonZero(BytesOf(s), 0)
  }

  /** The scan for leading zero pairs: the position of the first pair that is not 00. */
  method SkipPadding(s: HexString) returns (padEnd: nat)
    ensures padEnd == LeadingZeros(s)
  {
    padEnd := |s|;
    var i := 0;
    ghost var q := 0;
    while i < |s|
      invariant i == 2 * q <= |s| && padEnd == |s|
      invariant FirstNonZero(BytesOf(s), 0) == FirstNonZero(BytesOf(s), q)
      decreases |s| - i
    {
      PairIsByte(s, q);
      if s[i] != '0' || s[i + 1] != '0' {
        padEnd := i;
        break;
      }
      i := i + 2;
      q := q + 1;
    }
  }

  lemma PairIsByte(s: HexString, q: nat)
    requires 2 * q < |s|
    ensures BytesOf(s)[q] == 0 <==> s[2 * q] == '0' && s[2 * q + 1] == '0'
  {
    assert BytesOf(s)[q] == PairValue(s, q);
    ZeroPair(s[2 * q], s[2 * q + 1]);
  }

  /** Where the digits to be written start, or that they do not fit. */
  function StartOf(s: HexString, n: nat): (r: Outcome<nat, HexStringError>)
    ensures !r.Panic? && (r.Err? ==> r.error == BufferTooSmall)
    ensures r.Ok? ==> r.value <= |s| && r.value % 2 == 0
  {
    if |s| <= 2 * n then Ok(0)
    else if 2 * n < |s| - LeadingZeros(s) then Err(BufferTooSmall)
    else Ok(LeadingZeros(s))
  }

  /** What a slice of n bytes holds when the digits from start on are written into it. */
  function SliceFrom(s: HexString, n: nat, start: Outcome<nat, HexStringError>): Outcome<seq<byte>, HexStringError>
    requires start.Ok? ==> start.value <= |s| && start.value % 2 == 0
  {
    if start.Ok? then Ok(RightAlign(BytesOf(s[start.value..]), n)) else Err(BufferTooSmall)
  }

  lemma StartIsDocumented(s: HexString, n: nat)
    ensures SliceFrom(s, n, StartOf(s, n)) == Documented(s, n)
  {
    if |s| <= 2 * n {
      assert s[0..] == s;
    } else {
      ZeroPrefix(s, LeadingZeros(s) / 2);
      if StartOf(s, n).Ok? { StopBeyond(s, n, LeadingZeros(s)); }
    }
  }

  /** With that scan the slice is filled, or the call refused, as documented, for every value
      and every length of the slice. */
  method DecodeIntoSlice(s: HexString, buf: array<byte>, from: nat, to: nat) returns (r: Outcome<(), HexStringError>)
    requires from <= to <= buf.Length
    modifies buf
    ensures Filled(old(buf[..]), buf[..], from, to, Documented(s, to - from), r)
  {
    var start := DocumentedStart(s, to - from);
    r := FillSlice(s, start, buf, from, to, Documented(s, to - from));
  }

  method FillSlice(s: HexString, start: Outcome<nat, HexStringError>, buf: array<byte>, from: nat, to: nat,
                   ghost filling: Outcome<seq<byte>, HexStringError>)
    returns (r: Outcome<(), HexStringError>)
    requires from <= to <= buf.Length
    requires start.Ok? ==> start.value <= |s| && start.value % 2 == 0
    requires filling == SliceFrom(s, to - from, start)
    modifies buf
    ensures Filled(old(buf[..]), buf[..], from, to, filling, r)
  {
    if !start.Ok? {
      return Err(BufferTooSmall);
    }
    WriteTail(s, start.value, buf, from, to);
    r := Ok(());
  }

  method DocumentedStart(s: HexString, n: nat) returns (r: Outcome<nat, HexStringError>)
    ensures r.Ok? ==> r.value <= |s| && r.value % 2 == 0
    ensures Documented(s, n) == SliceFrom(s, n, r)
  {
    StartIsDocumented(s, n);
    r := FindStart(s, n);
  }

  method FindStart(s: HexString, n: nat) returns (r: Outcome<nat, HexStringError>)
    ensures r == StartOf(s, n)
  {
    var start := 0;
    if n * 2 < |s| {
      var padEnd := SkipPadding(s);
      if n * 2 < |s| - padEnd {
        return Err(BufferTooSmall);
      }
      start := padEnd;
    }
    r := Ok(start);
  }

  // ----- fault records, with the manufacturer code in bytes 2..5

  function EncodeFault(epc: byte, r: HexProperties.FaultCode): Outcome<seq<byte>, EpcError> {
    var n := |r.manufacturer| / 2 + |r.fault| / 2;
    if n < 3 then Panic
    else
      match SliceDecode(r.manufacturer, 3)
      case Err(_) => Err(EpcError.InvalidValue(epc))
      case Panic => Panic
      case Ok(m) =>
        match SliceDecode(r.fault, n - 3)
        case Err(_) => Err(EpcError.InvalidValue(epc))
        case Panic => Panic
        case Ok(f) => Ok([0, 0] + m + f)
  }

  /** The two right-aligned writes, into bytes 2..5 and from byte 5 on: neither touches the
      other's bytes or the header. */
  method EncodeFaultCode(epc: byte, r: HexProperties.FaultCode) returns (internal: Outcome<seq<byte>, EpcError>)
    ensures internal == EncodeFault(epc, r)
  {
    var bufLen := |r.manufacturer| / 2 + |r.fault| / 2 + 2;
    if bufLen < 5 {
      return Panic;
    }
    var buf := new byte[bufLen](_ => 0);
    var w := WriteManufacturer(r.manufacturer, buf);
    if !w.Ok? {
      return if w.Err? then Err(EpcError.InvalidValue(epc)) else Panic;
    }
    ghost var before := buf[..];
    w := HexStrings.DecodeIntoSlice(r.fault, buf, 5, bufLen);
    if !w.Ok? {
      return if w.Err? then Err(EpcError.InvalidValue(epc)) else Panic;
    }
    HexProperties.TailWritten(before, buf[..], 5, SliceDecode(r.fault, bufLen - 5).value);
    internal := Ok(buf[..]);
  }

  /** The first write, into bytes 2..5 of a zeroed buffer. */
  method WriteManufacturer(m: HexString, buf: array<byte>) returns (w: Outcome<(), HexStringError>)
    requires buf.Length >= 5 && buf[0] == buf[1] == 0
    modifies buf
    ensures var d := SliceDecode(m, 3);
      if d.Ok? then w == Ok(()) && buf[..5] == [0, 0] + d.value
      else w == if d.Err? then Err(d.error) else Panic
  {
    ghost var zeros := buf[..];
    w := HexStrings.DecodeIntoSlice(m, buf, 2, 5);
    if w.Ok? {
      SliceDecodeLength(m, 3);
      HeaderAndCode(zeros, buf[..], SliceDecode(m, 3).value);
    }
  }

  lemma HeaderAndCode(zeros: seq<byte>, b: seq<byte>, m: seq<byte>)
    requires |zeros| >= 5 && zeros[0] == zeros[1] == 0
    requires |m| == 3 && b == zeros[..2] + m + zeros[5..]
    ensures b[..5] == [0, 0] + m
  {
  }

  lemma SliceDecodeLength(s: HexString, n: nat)
    ensures SliceDecode(s, n).Ok? ==> |SliceDecode(s, n).value| == n
  {
  }

  function FaultCodec(epc: byte): Codec<HexProperties.FaultCode> {
    Codec(r => EncodeFault(epc, r),
          b => HexProperties.DecodeFault(epc, b),
          (current, b) => HexProperties.ValidateFault(epc, b))
  }

  /** How writing a record ends: out of range below three bytes in all, else as the two codes fit
      their slices. */
  lemma FaultWriteExactly(cell: Cell, r: HexProperties.FaultCode, now: int)
    requires now != 0
    ensures var (after, done) := FromCanonical(FaultCodec(cell.epc), cell, r, now);
      var n := |r.manufacturer| / 2 + |r.fault| / 2;
      if n < 3 then done == Panic
      else
        var (m, f) := (SliceDecode(r.manufacturer, 3), SliceDecode(r.fault, n - 3));
        if m.Ok? && f.Ok? then done == Ok(()) && Get(after) == Ok(m.value + f.value)
        else done == (if m.Panic? || (m.Ok? && f.Panic?) then Panic else Err(EpcError.InvalidValue(cell.epc)))
  {
    var internal := EncodeFault(cell.epc, r);
    if internal.Ok? {
      var n := |r.manufacturer| / 2 + |r.fault| / 2;
      SliceDecodeLength(r.manufacturer, 3);
      HexProperties.BehindTwo(internal.value, SliceDecode(r.manufacturer, 3).value, SliceDecode(r.fault, n - 3).value);
    }
  }

  lemma FaultStored(cell: Cell, r: HexProperties.FaultCode, now: int)
    requires now != 0
    ensures var (after, done) := FromCanonical(FaultCodec(cell.epc), cell, r, now);
      && (done.Ok? <==> EncodeFault(cell.epc, r).Ok?)
      && (done.Ok? ==> var b := EncodeFault(cell.epc, r).value;
            |b| >= 5 && ToCanonical(FaultCodec(cell.epc), after)
                        == Ok(HexProperties.FaultCode(Digits(b[2..5]), Digits(b[5..]))))
  {
    WrittenValue(FaultCodec(cell.epc), cell, r, now);
    var internal := EncodeFault(cell.epc, r);
    if internal.Ok? {
      SliceDecodeLength(r.manufacturer, 3);
      HexProperties.FaultReadBack(cell.epc, internal.value);
    }
  }

  /** A record is stored and read back in lower case exactly when its manufacturer code has
      three bytes; the fault code may have any length. */
  lemma FaultRoundTripExactly(cell: Cell, r: HexProperties.FaultCode, now: int)
    requires now != 0
    ensures var (after, done) := FromCanonical(FaultCodec(cell.epc), cell, r, now);
      done.Ok? && ToCanonical(FaultCodec(cell.epc), after) == Ok(HexProperties.LowerCode(r))
      <==> |r.manufacturer| == 6
  {
    FaultStored(cell, r, now);
    if |r.manufacturer| == 6 {
      ExactSlice(r.manufacturer);
      ExactSlice(r.fault);
      var m, f := BytesOf(r.manufacturer), BytesOf(r.fault);
      var b := [0, 0] + m + f;
      assert EncodeFault(cell.epc, r) == Ok(b);
      assert b[2..5] == m && b[5..] == f;
      DigitsOfBytes(r.manufacturer);
      DigitsOfBytes(r.fault);
    }
  }
}
