/** Durations: a unit byte and a four-byte amount. A time delta is a whole number of nanoseconds. */
module DurationProperty {
  import opened Bits
  import opened Outcomes
  import opened HexSpec
  import opened PropertyCell
  import IntegerProperty

  const U32_MAX := 0xffff_ffff
  const NANOS := 1_000_000_000

  /** Division truncating towards zero, as Rust's. */
  function TruncDiv(a: int, b: int): int
    requires b > 0
  {
    if a >= 0 then a / b else -(-a / b)
  }

  function NumSeconds(d: int): int { TruncDiv(d, NANOS) }
  function NumMinutes(d: int): int { TruncDiv(NumSeconds(d), 60) }
  function NumHours(d: int): int { TruncDiv(NumSeconds(d), 3600) }
  function NumDays(d: int): int { TruncDiv(NumSeconds(d), 86400) }

  function UnitSeconds(unit: byte): nat
    requires 0x41 <= unit <= 0x44
  {
    if unit == 0x41 then 1 else if unit == 0x42 then 60 else if unit == 0x43 then 3600 else 86400
  }

  /** The unit the encoder chooses: the finest whose amount fits in 32 bits. */
  function ChosenUnit(d: int): Option<(byte, int)> {
    if NumSeconds(d) <= U32_MAX then Some((0x41, NumSeconds(d)))
    else if NumMinutes(d) <= U32_MAX then Some((0x42, NumMinutes(d)))
    else if NumHours(d) <= U32_MAX then Some((0x43, NumHours(d)))
    else if NumDays(d) <= U32_MAX then Some((0x44, NumDays(d)))
    else None
  }

  /** As written, each branch slices bytes 3..8 of a buffer of seven. */
  function Encode(epc: byte, d: int): Outcome<seq<byte>, EpcError> {
    if ChosenUnit(d).Some? then Panic else Err(InvalidValue(epc))
  }

  function Decode(b: seq<byte>): Outcome<int, EpcError> {
    if |b| != 7 || !(0x41 <= b[2] <= 0x44) then Panic
    else Ok(BeValue(b[3..]) * UnitSeconds(b[2]) * NANOS)
  }

  function Validate(epc: byte, b: seq<byte>): Outcome<bool, EpcError> {
    if |b| == 7 && 0x41 <= b[2] <= 0x44 then Ok(true) else Err(InvalidValue(epc))
  }

  function DurationCodec(epc: byte): Codec<int> {
    Codec(d => Encode(epc, d), b => Decode(b), (current, b) => Validate(epc, b))
  }

  lemma TruncOrder(s: int)
    ensures s <= U32_MAX ==> TruncDiv(s, 60) <= U32_MAX
    ensures TruncDiv(s, 60) <= U32_MAX ==> TruncDiv(s, 3600) <= U32_MAX
    ensures TruncDiv(s, 3600) <= U32_MAX ==> TruncDiv(s, 86400) <= U32_MAX
  {
  }

  lemma DaysFit(d: int)
    ensures NumDays(d) <= U32_MAX <==> d < 0x1_0000_0000 * 86_400_000_000_000
  {
  }

  /** No duration can be written: the encoder panics when some unit fits, that is, below 2^32
      days, and otherwise reports an overflow. */
  lemma DurationNeverWritten(cell: Cell, d: int, now: int)
    ensures FromCanonical(DurationCodec(cell.epc), cell, d, now)
         == (cell, if d < 0x1_0000_0000 * 86_400_000_000_000 then Panic else Err(InvalidValue(cell.epc)))
  {
    DaysFit(d);
    ChosenWhenDaysFit(d);
  }

  /** One second panics; 2^32 days are refused. */
  lemma DurationWitness(cell: Cell, now: int)
    ensures FromCanonical(DurationCodec(cell.epc), cell, 1_000_000_000, now) == (cell, Panic)
    ensures FromCanonical(DurationCodec(cell.epc), cell, 0x1_0000_0000 * 86_400_000_000_000, now)
         == (cell, Err(InvalidValue(cell.epc)))
  {
    DurationNeverWritten(cell, 1_000_000_000, now);
    DurationNeverWritten(cell, 0x1_0000_0000 * 86_400_000_000_000, now);
  }

  /** A second, a minute, an hour and a day in nanoseconds. */
  lemma UnitNanos(unit: byte)
    requires 0x41 <= unit <= 0x44
    ensures UnitSeconds(unit) * NANOS
         == if unit == 0x41 then 1_000_000_000
            else if unit == 0x42 then 60_000_000_000
            else if unit == 0x43 then 3_600_000_000_000
            else 86_400_000_000_000
  {
  }

  /** A received duration is stored exactly when it has five bytes and a known unit, and is
      read as its amount of that unit. */
  lemma DurationReceive(cell: Cell, payload: seq<byte>, now: int)
    requires now != 0
    ensures var (after, r) := Set(DurationCodec(cell.epc), cell, payload, now);
      && (if |payload| == 5 && 0x41 <= payload[0] <= 0x44 then r == Ok(())
          else r == Err(InvalidValue(cell.epc)) && after == cell)
      && (r.Ok? ==>
            var nanos := if payload[0] == 0x41 then 1_000_000_000
                         else if payload[0] == 0x42 then 60_000_000_000
                         else if payload[0] == 0x43 then 3_600_000_000_000
                         else 86_400_000_000_000;
            ToCanonical(DurationCodec(cell.epc), after) == Ok(BeValue(payload[1..]) * nanos))
  {
    if payload != [] {
      if 0x41 <= payload[0] <= 0x44 {
        UnitNanos(payload[0]);
        assert BeValue(payload[1..]) * UnitSeconds(payload[0]) * NANOS
            == BeValue(payload[1..]) * (UnitSeconds(payload[0]) * NANOS);
      }
      assert Frame(cell.epc, payload)[3..] == payload[1..];
    }
  }

  // ----- the encoder with a four-byte amount

  /** Bytes 3..7 hold the amount, cast to 32 bits. */
  function EncodeRepaired(epc: byte, d: int): Outcome<seq<byte>, EpcError> {
    match ChosenUnit(d)
    case Some((unit, amount)) => Ok([0, 0, unit] + BeBytes(amount % 0x1_0000_0000, 4))
    case None => Err(InvalidValue(epc))
  }

  function RepairedCodec(epc: byte): Codec<int> {
    Codec(d => EncodeRepaired(epc, d), b => Decode(b), (current, b) => Validate(epc, b))
  }

  /** The chosen amount times its unit, when no cast intervenes. */
  lemma RepairedDecodes(epc: byte, d: int, h0: byte, h1: byte)
    requires ChosenUnit(d).Some?
    ensures var (unit, amount) := ChosenUnit(d).value;
      Decode([h0, h1] + EncodeRepaired(epc, d).value[2..]) == Ok(amount % 0x1_0000_0000 * UnitSeconds(unit) * NANOS)
  {
    var (unit, amount) := ChosenUnit(d).value;
    var bytes := BeBytes(amount % 0x1_0000_0000, 4);
    IntegerProperty.Powers();
    BeBytesValue(amount % 0x1_0000_0000, 4);
    var b := [h0, h1] + EncodeRepaired(epc, d).value[2..];
    assert b == [h0, h1, unit] + bytes;
    assert b[3..] == bytes;
  }

  lemma TruncOfNonNegative(d: int)
    requires d >= 0
    ensures NumSeconds(d) * NANOS <= d < (NumSeconds(d) + 1) * NANOS
    ensures NumMinutes(d) * 60 <= NumSeconds(d) < (NumMinutes(d) + 1) * 60
    ensures NumHours(d) * 3600 <= NumSeconds(d) < (NumHours(d) + 1) * 3600
    ensures NumDays(d) * 86400 <= NumSeconds(d) < (NumDays(d) + 1) * 86400
  {
  }

  /** back is d rounded down by less than one unit. */
  predicate RoundsDown(d: int, back: int, unit: byte)
    requires 0x41 <= unit <= 0x44
  {
    back <= d < back + UnitSeconds(unit) * NANOS
  }

  lemma ChosenWhenDaysFit(d: int)
    ensures ChosenUnit(d).Some? <==> NumDays(d) <= U32_MAX
  {
    TruncOrder(NumSeconds(d));
  }

  /** What a written duration is read back as. */
  lemma RepairedReadBack(cell: Cell, d: int, now: int)
    requires now != 0
    ensures var codec := RepairedCodec(cell.epc);
      var (after, r) := FromCanonical(codec, cell, d, now);
      && r == (if ChosenUnit(d).Some? then Ok(()) else Err(InvalidValue(cell.epc)))
      && (r.Ok? ==> ToCanonical(codec, after) == Ok(BackFrom(ChosenUnit(d).value)))
  {
    WrittenValue(RepairedCodec(cell.epc), cell, d, now);
    if ChosenUnit(d).Some? {
      var payload := EncodeRepaired(cell.epc, d).value[2..];
      var f := Frame(cell.epc, payload);
      RepairedDecodes(cell.epc, d, f[0], f[1]);
      assert f == [f[0], f[1]] + payload;
    }
  }

  /** The duration four bytes of amount and a unit spell. */
  function BackFrom(chosen: (byte, int)): int
    requires 0x41 <= chosen.0 <= 0x44
  {
    chosen.1 % 0x1_0000_0000 * UnitSeconds(chosen.0) * NANOS
  }

  lemma BackRoundsDown(d: int)
    requires ChosenUnit(d).Some?
    ensures RoundsDown(d, BackFrom(ChosenUnit(d).value), ChosenUnit(d).value.0) <==> d >= 0
  {
    if d >= 0 {
      TruncOfNonNegative(d);
    }
  }

  /** Repaired, a duration is written exactly when its days fit in 32 bits, and is read back
      rounded down by less than the chosen unit exactly when it is not negative. */
  lemma RepairedRoundsDownExactly(cell: Cell, d: int, now: int)
    requires now != 0
    ensures var codec := RepairedCodec(cell.epc);
      var (after, r) := FromCanonical(codec, cell, d, now);
      && r == (if d < 0x1_0000_0000 * 86_400_000_000_000 then Ok(()) else Err(InvalidValue(cell.epc)))
      && (r.Ok? ==> ChosenUnit(d).Some? && ToCanonical(codec, after).Ok?)
      && (r.Ok? ==> (RoundsDown(d, ToCanonical(codec, after).value, ChosenUnit(d).value.0) <==> d >= 0))
  {
    DaysFit(d);
    ChosenWhenDaysFit(d);
    RepairedReadBack(cell, d, now);
    if ChosenUnit(d).Some? { BackRoundsDown(d); }
  }

  /** A negative duration is cast to the seconds it lasts, rounded towards zero, modulo 2^32. */
  lemma RepairedNegative(cell: Cell, d: int, now: int)
    requires now != 0 && d < 0
    ensures var (after, r) := FromCanonical(RepairedCodec(cell.epc), cell, d, now);
      && r == Ok(())
      && ToCanonical(RepairedCodec(cell.epc), after)
         == Ok((-(-d / 1_000_000_000)) % 0x1_0000_0000 * 1_000_000_000)
  {
    RepairedReadBack(cell, d, now);
    assert ChosenUnit(d) == Some((0x41, -(-d / 1_000_000_000)));
  }

  /** Every finer unit than the chosen one overflows. */
  lemma ChosenIsFinest(d: int)
    ensures match ChosenUnit(d)
      case Some((unit, amount)) =>
        && amount == TruncDiv(NumSeconds(d), UnitSeconds(unit)) <= U32_MAX
        && forall finer: byte | 0x41 <= finer < unit :: TruncDiv(NumSeconds(d), UnitSeconds(finer)) > U32_MAX
      case None => forall unit: byte | 0x41 <= unit <= 0x44 :: TruncDiv(NumSeconds(d), UnitSeconds(unit)) > U32_MAX
  {
    assert TruncDiv(NumSeconds(d), 1) == NumSeconds(d);
  }

  /** What a valid wire says is a fixed point: encoding it again, perhaps in a finer unit,
      decodes to the same duration. */
  lemma RepairedFixedPoint(epc: byte, unit: byte, amount: nat, h0: byte, h1: byte)
    requires 0x41 <= unit <= 0x44 && amount <= U32_MAX
    ensures var d := amount * UnitSeconds(unit) * NANOS;
      && EncodeRepaired(epc, d).Ok?
      && Decode([h0, h1] + EncodeRepaired(epc, d).value[2..]) == Ok(d)
  {
    var d := amount * UnitSeconds(unit) * NANOS;
    var s := amount * UnitSeconds(unit);
    assert NumSeconds(d) == s;
    assert ChosenUnit(d).Some?;
    RepairedDecodes(epc, d, h0, h1);
    ExactAmount(unit, amount);
  }

  /** The amount chosen for a whole number of units is exact. */
  lemma ExactAmount(unit: byte, amount: nat)
    requires 0x41 <= unit <= 0x44 && amount <= U32_MAX
    ensures var d := amount * UnitSeconds(unit) * NANOS;
      && ChosenUnit(d).Some?
      && 0 <= ChosenUnit(d).value.1 <= U32_MAX
      && ChosenUnit(d).value.1 * UnitSeconds(ChosenUnit(d).value.0) == amount * UnitSeconds(unit)
  {
    var s := amount * UnitSeconds(unit);
    assert NumSeconds(s * NANOS) == s;
    match unit
    case 0x41 => assert s == amount;
    case 0x42 => assert s / 60 == amount;
    case 0x43 => assert s / 3600 == amount && s / 60 == amount * 60;
    case 0x44 => assert s / 86400 == amount && s / 3600 == amount * 24 && s / 60 == amount * 1440;
    case _ => assert false;
  }
}
