/** Decimals packed into an unsigned integer of 1, 2 or 4 bytes, over the reals extended with
    the two infinities. Rounding of the floating-point type itself is not modelled. */
module PackedDecimal {
  import opened Bits
  import opened Outcomes
  import opened HexSpec
  import opened PropertyCell
  import IntegerProperty

  datatype Extended = NegInf | Fin(r: real) | PosInf | NaN

  /** size bytes, a maximum value, and a number of decimal places. */
  datatype Format = Format(size: nat, maxValue: real, precision: nat)

  function Pow10(n: nat): (p: nat)
    ensures p >= 1
  {
    if n == 0 then 1 else 10 * Pow10(n - 1)
  }

  /** How many steps of 10^-precision make one. */
  function Scale(f: Format): (s: real)
    ensures s >= 1.0
  {
    Pow10(f.precision) as real
  }

  function Ceil(x: real): int { -((-x).Floor) }

  /** The largest packed integer of the format. */
  function MaxSteps(f: Format): int { Ceil(f.maxValue * Scale(f)) }

  /** Rounding half away from zero. */
  function Round(x: real): int {
    if x >= 0.0 then (x + 0.5).Floor else -((-x + 0.5).Floor)
  }

  /** A value in whole steps. */
  function Steps(f: Format, r: real): int { Round(Scaled(f, r)) }

  function Scaled(f: Format, r: real): real { r * Scale(f) }

  /** The constructor's check: the two largest integers of the size stay free. */
  predicate Constructible(f: Format) {
    f.size in {1, 2, 4} && MaxSteps(f) <= Pow256(f.size) - 3
  }

  function Underflow(n: nat): (b: seq<byte>)
    requires n >= 1
    ensures |b| == n
  {
    seq(n - 1, _ => 0xff) + [0xfe]
  }

  function Overflow(n: nat): (b: seq<byte>)
    ensures |b| == n
  {
    seq(n, _ => 0xff)
  }

  function Encode(f: Format, epc: byte, c: Extended): Outcome<seq<byte>, EpcError>
    requires Constructible(f)
  {
    match c
    case NaN => Err(InvalidValue(epc))
    case NegInf => Ok([0xff, 0xff] + Underflow(f.size))
    case PosInf => Ok([0xff, 0xff] + Overflow(f.size))
    case Fin(r) => EncodeSteps(f, Steps(f, r))
  }

  function EncodeSteps(f: Format, val: int): Outcome<seq<byte>, EpcError>
    requires Constructible(f)
  {
    if val == 0 || 0 <= val <= MaxSteps(f) then Ok([0, 0] + BeBytes(val, f.size))
    else if val < 0 then Ok([0xff, 0xff] + Underflow(f.size))
    else Ok([0xff, 0xff] + Overflow(f.size))
  }

  function Decode(f: Format, b: seq<byte>): Outcome<Extended, EpcError>
    requires Constructible(f)
  {
    if |b| < 2 then Panic
    else if b[2..] == Underflow(f.size) then Ok(NegInf)
    else if b[2..] == Overflow(f.size) then Ok(PosInf)
    else if f.size == 1 then if |b| < 3 then Panic else Ok(Fin(b[2] as real / Scale(f)))
    else if |b| != f.size + 2 then Panic
    else Ok(Fin(BeValue(b[2..]) as real / Scale(f)))
  }

  /** `actual_max_value as u32`, a saturating cast. */
  function MaxAsU32(f: Format): nat {
    if MaxSteps(f) < 0 then 0 else if MaxSteps(f) > 0xffff_ffff then 0xffff_ffff else MaxSteps(f)
  }

  function Validate(f: Format, epc: byte, b: seq<byte>): Outcome<bool, EpcError>
    requires Constructible(f)
  {
    if |b| != f.size + 2 then Err(InvalidValue(epc))
    else if BeValue(b[2..]) <= MaxAsU32(f) then Ok(true)
    else if b[2..] == Underflow(f.size) || b[2..] == Overflow(f.size) then Ok(true)
    else Err(ValueTooLarge(epc))
  }

  /** The constructor refuses a maximum that is more than 253, 65533 or 4294967293 steps. */
  lemma ConstructibleExactly(f: Format)
    ensures Constructible(f) <==>
      || (f.size == 1 && f.maxValue * Scale(f) <= 253.0)
      || (f.size == 2 && f.maxValue * Scale(f) <= 65533.0)
      || (f.size == 4 && f.maxValue * Scale(f) <= 4294967293.0)
  {
    IntegerProperty.Powers();
    CeilAtMost(f.maxValue * Scale(f), 253);
    CeilAtMost(f.maxValue * Scale(f), 65533);
    CeilAtMost(f.maxValue * Scale(f), 4294967293);
  }

  lemma CeilAtMost(x: real, n: int)
    ensures Ceil(x) <= n <==> x <= n as real
  {
  }

  type Constructed = f: Format | Constructible(f) witness Format(1, 0.0, 0)

  function PackedCodec(f: Constructed, epc: byte): Codec<Extended> {
    Codec(c => Encode(f, epc, c), b => Decode(f, b), (current, b) => Validate(f, epc, b))
  }

  // ----- sentinels

  lemma OneByte(b: seq<byte>)
    requires |b| == 1
    ensures BeValue(b) == b[0]
  {
    assert b[..0] == [];
  }

  lemma {:induction false} OverflowValue(n: nat)
    ensures BeValue(Overflow(n)) == Pow256(n) - 1
  {
    if n > 0 {
      assert Overflow(n)[..n - 1] == Overflow(n - 1);
      OverflowValue(n - 1);
    }
  }

  lemma UnderflowValue(n: nat)
    requires n >= 1
    ensures BeValue(Underflow(n)) == Pow256(n) - 2
  {
    assert Underflow(n)[..n - 1] == Overflow(n - 1);
    OverflowValue(n - 1);
  }

  /** The two sentinels are two numbers above every value of the format. */
  lemma SentinelsAreFree(f: Constructed, b: seq<byte>)
    requires |b| == f.size
    ensures b == Underflow(f.size) <==> BeValue(b) == Pow256(f.size) - 2
    ensures b == Overflow(f.size) <==> BeValue(b) == Pow256(f.size) - 1
    ensures BeValue(b) <= MaxAsU32(f) ==> b != Underflow(f.size) && b != Overflow(f.size)
    ensures MaxAsU32(f) <= Pow256(f.size) - 3
  {
    IntegerProperty.Powers();
    UnderflowValue(f.size);
    OverflowValue(f.size);
    if BeValue(b) == Pow256(f.size) - 2 { BeInjective(b, Underflow(f.size)); }
    if BeValue(b) == Pow256(f.size) - 1 { BeInjective(b, Overflow(f.size)); }
  }

  /** Minus infinity is sent as the largest number of the size but one, plus infinity as the
      largest. */
  lemma SentinelsSent(f: Constructed, epc: byte)
    ensures var (low, high) := (Encode(f, epc, NegInf), Encode(f, epc, PosInf));
      && low.Ok? && |low.value| == f.size + 2 && BeValue(low.value[2..]) == Pow256(f.size) - 2
      && high.Ok? && |high.value| == f.size + 2 && BeValue(high.value[2..]) == Pow256(f.size) - 1
  {
    UnderflowValue(f.size);
    OverflowValue(f.size);
    assert ([0xff, 0xff] + Underflow(f.size))[2..] == Underflow(f.size);
    assert ([0xff, 0xff] + Overflow(f.size))[2..] == Overflow(f.size);
  }

  // ----- what a value becomes

  /** The extended real a number of steps is stored as. */
  function StoredSteps(f: Constructed, val: int): Extended {
    if val == 0 || 0 <= val <= MaxSteps(f) then Fin(val as real / Scale(f)) else if val < 0 then NegInf else PosInf
  }

  /** The extended real a canonical value is stored as. */
  function Quantized(f: Constructed, c: Extended): Extended {
    if c.Fin? then StoredSteps(f, Steps(f, c.r)) else c
  }

  /** A four-byte or smaller value, encoded and framed, is read as itself. */
  lemma DecodeSteps(f: Constructed, h0: byte, h1: byte, val: nat)
    requires val <= MaxAsU32(f)
    ensures Decode(f, [h0, h1] + BeBytes(val, f.size)) == Ok(Fin(val as real / Scale(f)))
    ensures BeValue(BeBytes(val, f.size)) == val
  {
    var p := BeBytes(val, f.size);
    SentinelsAreFree(f, p);
    BeBytesValue(val, f.size);
    assert ([h0, h1] + p)[2..] == p;
    if f.size == 1 { OneByte(p); }
  }

  lemma ReadSentinels(f: Constructed, epc: byte)
    ensures Decode(f, Frame(epc, Underflow(f.size))) == Ok(NegInf)
    ensures Decode(f, Frame(epc, Overflow(f.size))) == Ok(PosInf)
    ensures Validate(f, epc, Frame(epc, Underflow(f.size))) == Ok(true)
    ensures Validate(f, epc, Frame(epc, Overflow(f.size))) == Ok(true)
  {
    SentinelsAreFree(f, Overflow(f.size));
    IntegerProperty.Powers();
    UnderflowValue(f.size);
  }

  /** Any number of steps is encoded to something the validator accepts and the decoder reads
      as what was stored. */
  lemma EncodedStepsRead(f: Constructed, epc: byte, val: int)
    ensures EncodeSteps(f, val).Ok? && |EncodeSteps(f, val).value| == f.size + 2
    ensures var framed := Frame(epc, EncodeSteps(f, val).value[2..]);
      Decode(f, framed) == Ok(StoredSteps(f, val)) && Validate(f, epc, framed) == Ok(true)
  {
    IntegerProperty.Powers();
    ReadSentinels(f, epc);
    if val == 0 || 0 <= val <= MaxSteps(f) {
      var payload := BeBytes(val, f.size);
      assert EncodeSteps(f, val).value[2..] == payload;
      FramedSteps(f, epc, val);
    } else {
      var payload := if val < 0 then Underflow(f.size) else Overflow(f.size);
      assert EncodeSteps(f, val).value[2..] == payload;
    }
  }

  lemma FramedSteps(f: Constructed, epc: byte, val: nat)
    requires val <= MaxAsU32(f)
    ensures Decode(f, Frame(epc, BeBytes(val, f.size))) == Ok(Fin(val as real / Scale(f)))
    ensures Validate(f, epc, Frame(epc, BeBytes(val, f.size))) == Ok(true)
  {
    var payload := BeBytes(val, f.size);
    var framed := Frame(epc, payload);
    assert framed == [framed[0], framed[1]] + payload;
    DecodeSteps(f, framed[0], framed[1], val);
  }

  /** Writing never fails except for NaN, and what is read back is the quantized value. */
  lemma PackedWriteThenRead(f: Constructed, cell: Cell, c: Extended, now: int)
    requires now != 0
    ensures var codec := PackedCodec(f, cell.epc);
      var (after, r) := FromCanonical(codec, cell, c, now);
      && (if c == NaN then r == Err(InvalidValue(cell.epc)) else r == Ok(()))
      && (if r.Ok? then ToCanonical(codec, after) == Ok(Quantized(f, c)) else after == cell)
  {
    WrittenValue(PackedCodec(f, cell.epc), cell, c, now);
    match c
    case NaN =>
    case NegInf =>
      ReadSentinels(f, cell.epc);
      assert Encode(f, cell.epc, c).value[2..] == Underflow(f.size);
    case PosInf =>
      ReadSentinels(f, cell.epc);
      assert Encode(f, cell.epc, c).value[2..] == Overflow(f.size);
    case Fin(r) =>
      EncodedStepsRead(f, cell.epc, Steps(f, r));
  }

  lemma RoundNear(x: real)
    ensures -0.5 <= Round(x) as real - x <= 0.5
  {
  }

  lemma RoundMonotone(x: real, y: real)
    requires x <= y
    ensures Round(x) <= Round(y)
  {
  }

  lemma DivideBack(v: real, s: real)
    requires s > 0.0
    ensures v / s * s == v
  {
  }

  /** The largest number of steps that is not sent to plus infinity: zero always is kept. */
  function TopSteps(f: Format): nat { if MaxSteps(f) < 0 then 0 else MaxSteps(f) }

  lemma RoundSides(x: real, top: nat)
    ensures Round(x) < 0 <==> x <= -0.5
    ensures Round(x) > top <==> x >= top as real + 0.5
  {
  }

  /** Which numbers of steps are stored finite. */
  lemma StoredSides(f: Constructed, val: int)
    ensures StoredSteps(f, val) == NegInf <==> val < 0
    ensures StoredSteps(f, val) == PosInf <==> val > TopSteps(f)
  {
  }

  /** Exactly what is sent to an infinity: the values at least half a step below zero, and those
      at least half a step above the maximum rounded up to a whole step (above zero, when the
      maximum is negative). */
  lemma InfinitiesExactly(f: Constructed, r: real)
    ensures Quantized(f, Fin(r)) == NegInf <==> r * Scale(f) <= -0.5
    ensures Quantized(f, Fin(r)) == PosInf <==> r * Scale(f) >= TopSteps(f) as real + 0.5
  {
    NegInfExactly(f, r);
    PosInfExactly(f, r);
  }

  lemma NegInfExactly(f: Constructed, r: real)
    ensures Quantized(f, Fin(r)) == NegInf <==> r * Scale(f) <= -0.5
  {
    RoundSides(Scaled(f, r), 0);
    StoredSides(f, Steps(f, r));
  }

  lemma PosInfExactly(f: Constructed, r: real)
    ensures Quantized(f, Fin(r)) == PosInf <==> r * Scale(f) >= TopSteps(f) as real + 0.5
  {
    RoundSides(Scaled(f, r), TopSteps(f));
    StoredSides(f, Steps(f, r));
  }

  lemma Distribute(a: real, b: real, s: real)
    ensures (a - b) * s == a * s - b * s
  {
  }

  /** v steps of 1 / s are as near to r as v is to r * s. */
  lemma ScaledError(v: real, r: real, s: real, x: real)
    requires s > 0.0 && x == r * s && -0.5 <= v - x <= 0.5
    ensures -0.5 <= (v / s - r) * s <= 0.5
  {
    DivideBack(v, s);
    Distribute(v / s, r, s);
  }

  lemma StepsNear(f: Constructed, r: real)
    ensures -0.5 <= (Steps(f, r) as real / Scale(f) - r) * Scale(f) <= 0.5
  {
    RoundNear(Scaled(f, r));
    ScaledError(Steps(f, r) as real, r, Scale(f), Scaled(f, r));
  }

  /** Everything else is stored within half a step. */
  lemma FiniteWithinHalfStep(f: Constructed, r: real)
    requires -0.5 < r * Scale(f) < TopSteps(f) as real + 0.5
    ensures Quantized(f, Fin(r)).Fin? && -0.5 <= (Quantized(f, Fin(r)).r - r) * Scale(f) <= 0.5
  {
    InfinitiesExactly(f, r);
    StepsNear(f, r);
  }

  lemma CeilAbove(x: real)
    ensures x <= Ceil(x) as real < x + 1.0
  {
  }

  /** The declared maximum is at most the top. */
  lemma MaximumBelowTop(f: Constructed)
    ensures f.maxValue * Scale(f) <= TopSteps(f) as real
  {
    CeilAbove(f.maxValue * Scale(f));
  }

  lemma InRangeScaled(f: Constructed, r: real)
    requires 0.0 <= r <= f.maxValue
    ensures 0.0 <= r * Scale(f) <= TopSteps(f) as real
  {
    MaximumBelowTop(f);
    ScaledBetween(r, f.maxValue, Scale(f), TopSteps(f) as real);
  }

  lemma ScaledBetween(r: real, m: real, s: real, top: real)
    requires 0.0 <= r <= m && s > 0.0 && m * s <= top
    ensures 0.0 <= r * s <= top
  {
    ScaleOrder(r, m, s);
  }

  /** Every value from zero to the declared maximum is stored finite, within half of
      10^-precision of itself. */
  lemma InRangeWithinHalfStep(f: Constructed, r: real)
    requires 0.0 <= r <= f.maxValue
    ensures var q := Quantized(f, Fin(r));
      q.Fin? && -0.5 / Scale(f) <= q.r - r <= 0.5 / Scale(f)
  {
    InRangeScaled(f, r);
    FiniteWithinHalfStep(f, r);
    HalfStep(Quantized(f, Fin(r)).r - r, Scale(f));
  }

  lemma HalfStep(d: real, s: real)
    requires s > 0.0 && -0.5 <= d * s <= 0.5
    ensures -0.5 / s <= d <= 0.5 / s
  {
    DivideOrder(-0.5, d * s, s);
    DivideOrder(d * s, 0.5, s);
    assert d * s / s == d;
  }

  /** t steps of 1 / s are more than m, if t is more than m * s. */
  lemma MoreSteps(t: real, s: real, m: real, top: real)
    requires s > 0.0 && m * s <= top < t && 0.0 <= t
    ensures t / s > m && t / s >= 0.0 && t / s * s == t
  {
    DivideBack(t, s);
    DivideOrder(0.0, t, s);
    var r := t / s;
    if r <= m { ScaleOrder(r, m, s); }
  }

  /** No format is free of this slack: above every maximum there is a value that stays finite. */
  lemma SlackAboveMaximum(f: Constructed)
    ensures var r := (TopSteps(f) as real + 0.25) / Scale(f);
      r > f.maxValue && r >= 0.0 && Quantized(f, Fin(r)).Fin?
  {
    var t := TopSteps(f) as real + 0.25;
    MaximumBelowTop(f);
    MoreSteps(t, Scale(f), f.maxValue, TopSteps(f) as real);
    InfinitiesExactly(f, t / Scale(f));
  }

  // ----- what a step is

  /** Without decimal places a step is one: a whole number in range is sent as itself. */
  lemma WholeNumberSent(f: Constructed, epc: byte, v: nat)
    requires f.precision == 0 && v as real <= f.maxValue
    ensures var sent := Encode(f, epc, Fin(v as real));
      sent.Ok? && |sent.value| == f.size + 2 && BeValue(sent.value[2..]) == v
  {
    WholeSteps(f, v);
    assert Encode(f, epc, Fin(v as real)) == EncodeSteps(f, v);
    StepsSent(f, v);
  }

  lemma StepsSent(f: Constructed, v: nat)
    requires v <= MaxAsU32(f)
    ensures EncodeSteps(f, v).Ok? && |EncodeSteps(f, v).value| == f.size + 2
    ensures BeValue(EncodeSteps(f, v).value[2..]) == v
  {
    EncodeWithin(f, v);
    DecodeSteps(f, 0, 0, v);
    assert ([0, 0] + BeBytes(v, f.size))[2..] == BeBytes(v, f.size);
  }

  lemma WholeSteps(f: Constructed, v: nat)
    requires f.precision == 0 && v as real <= f.maxValue
    ensures Steps(f, v as real) == v && v <= MaxAsU32(f)
  {
    assert Scale(f) == 1.0;
    TimesOne(v as real, Scale(f));
    TimesOne(f.maxValue, Scale(f));
    CeilAbove(f.maxValue);
    IntegerProperty.Powers();
  }

  lemma TimesOne(x: real, s: real)
    requires s == 1.0
    ensures x * s == x
  {
  }

  /** And any payload but the sentinels is read as its number. */
  lemma WholeNumberRead(f: Constructed, b: seq<byte>)
    requires f.precision == 0 && |b| == f.size + 2 && BeValue(b[2..]) < Pow256(f.size) - 2
    ensures Decode(f, b) == Ok(Fin(BeValue(b[2..]) as real))
  {
    assert Scale(f) == 1.0;
    SentinelsAreFree(f, b[2..]);
    if f.size == 1 { OneByte(b[2..]); }
    OverOne(BeValue(b[2..]) as real, Scale(f));
  }

  lemma OverOne(v: real, s: real)
    requires s == 1.0
    ensures v / s == v
  {
  }

  function MorePrecise(f: Format): Format { f.(precision := f.precision + 1) }

  function TenTimes(f: Format): Format { f.(maxValue := 10.0 * f.maxValue) }

  function TimesTen(c: Extended): Extended { if c.Fin? then Fin(10.0 * c.r) else c }

  lemma TenfoldScale(f: Format, r: real)
    ensures Scaled(MorePrecise(f), r) == Scaled(TenTimes(f), 10.0 * r)
    ensures MaxSteps(MorePrecise(f)) == MaxSteps(TenTimes(f))
  {
    Reassociate(r, Scale(f));
    Reassociate(f.maxValue, Scale(f));
    assert Scale(MorePrecise(f)) == 10.0 * Scale(f);
    assert Scale(TenTimes(f)) == Scale(f);
  }

  lemma Reassociate(r: real, s: real)
    ensures r * (10.0 * s) == 10.0 * r * s
  {
  }

  lemma TenfoldQuotient(v: real, s: real)
    requires s > 0.0
    ensures 10.0 * (v / (10.0 * s)) == v / s
  {
    DivideBack(v, 10.0 * s);
    var q := v / (10.0 * s);
    Reassociate(q, s);
    QuotientIs(v, s, 10.0 * q);
  }

  lemma QuotientIs(v: real, s: real, q: real)
    requires s > 0.0 && q * s == v
    ensures v / s == q
  {
  }

  /** Each further decimal place makes a step a tenth: with one more, r is sent as 10 * r is
      without it, and a payload is read as a tenth of what it is read as without it. */
  lemma OnePlaceMore(f: Format, epc: byte, c: Extended, b: seq<byte>)
    ensures Constructible(MorePrecise(f)) <==> Constructible(TenTimes(f))
    ensures Constructible(TenTimes(f)) ==>
      && Encode(MorePrecise(f), epc, c) == Encode(TenTimes(f), epc, TimesTen(c))
      && Validate(MorePrecise(f), epc, b) == Validate(TenTimes(f), epc, b)
      && match Decode(MorePrecise(f), b)
         case Ok(read) => Decode(TenTimes(f), b) == Ok(TimesTen(read))
         case other => Decode(TenTimes(f), b) == other
  {
    TenfoldScale(f, if c.Fin? then c.r else 0.0);
    assert Scale(MorePrecise(f)) == 10.0 * Scale(f);
    assert Scale(TenTimes(f)) == Scale(f);
    if |b| >= 3 {
      TenfoldQuotient(b[2] as real, Scale(f));
      TenfoldQuotient(BeValue(b[2..]) as real, Scale(f));
    }
  }

  /** At three decimal places 1.0 is sent as 00 00 03 e8, and 00 00 00 01 is read as 0.001. */
  lemma ThreePlacesWitness(epc: byte)
    ensures Constructible(Format(4, 999999.999, 3))
    ensures var f: Constructed := Format(4, 999999.999, 3);
      && Encode(f, epc, Fin(1.0)) == Ok([0, 0, 0x00, 0x00, 0x03, 0xe8])
      && Decode(f, [0, 0, 0x00, 0x00, 0x00, 0x01]) == Ok(Fin(0.001))
  {
    var f := Format(4, 999999.999, 3);
    ThreePlaces(f);
    assert Scaled(f, 1.0) == 1000.0;
    assert Steps(f, 1.0) == 1000;
    EncodeWithin(f, 1000);
    ThousandInBytes();
    assert [0, 0] + BeBytes(1000, 4) == [0, 0, 0x00, 0x00, 0x03, 0xe8];
    var b: seq<byte> := [0x00, 0x00, 0x00, 0x01];
    BeFour(b);
    OneStepRead(f, [0, 0] + b);
    assert [0, 0] + b == [0, 0, 0x00, 0x00, 0x00, 0x01];
  }

  lemma ThreePlaces(f: Format)
    requires f == Format(4, 999999.999, 3)
    ensures Scale(f) == 1000.0 && MaxSteps(f) == 999_999_999 && Constructible(f)
  {
    IntegerProperty.Powers();
    assert Scale(f) == 1000.0;
    assert f.maxValue * Scale(f) == 999_999_999.0;
  }

  lemma OneStepRead(f: Constructed, b: seq<byte>)
    requires f.size == 4 && Scale(f) == 1000.0 && |b| == 6 && BeValue(b[2..]) == 1
    ensures Decode(f, b) == Ok(Fin(0.001))
  {
    IntegerProperty.Powers();
    SentinelsAreFree(f, b[2..]);
  }

  lemma ThousandInBytes()
    ensures BeBytes(1000, 4) == [0x00, 0x00, 0x03, 0xe8]
  {
    var b: seq<byte> := [0x00, 0x00, 0x03, 0xe8];
    BeFour(b);
    BeValueBytes(b);
  }

  /** Of a percentage, 100.4 is out of range and is read back as 100. */
  lemma SlackWitness()
    ensures Constructible(Format(1, 100.0, 0))
    ensures var f: Constructed := Format(1, 100.0, 0);
      100.4 > f.maxValue && Quantized(f, Fin(100.4)) == Fin(100.0)
  {
    var f := Format(1, 100.0, 0);
    IntegerProperty.Powers();
    assert Scale(f) == 1.0;
    assert MaxSteps(f) == 100;
    assert Scaled(f, 100.4) == 100.4;
    assert Steps(f, 100.4) == 100;
  }

  /** The order of the extended reals. */
  predicate AtMost(a: Extended, b: Extended)
  {
    a != NaN && b != NaN && (a == NegInf || b == PosInf || (a.Fin? && b.Fin? && a.r <= b.r))
  }

  lemma ScaleOrder(x: real, y: real, s: real)
    requires x <= y && s > 0.0
    ensures x * s <= y * s
  {
    assert (y - x) * s >= 0.0;
  }

  lemma DivideOrder(x: real, y: real, s: real)
    requires x <= y && s > 0.0
    ensures x / s <= y / s
  {
  }

  lemma StoredStepsMonotone(f: Constructed, a: int, b: int)
    requires a <= b
    ensures AtMost(StoredSteps(f, a), StoredSteps(f, b))
  {
    DivideOrder(a as real, b as real, Scale(f));
  }

  lemma StepsMonotone(f: Constructed, a: real, b: real)
    requires a <= b
    ensures Steps(f, a) <= Steps(f, b)
  {
    ScaleOrder(a, b, Scale(f));
    assert Scaled(f, a) <= Scaled(f, b);
    RoundMonotone(Scaled(f, a), Scaled(f, b));
  }

  /** Storing and reading back keeps the order. */
  lemma QuantizedMonotone(f: Constructed, a: Extended, b: Extended)
    requires AtMost(a, b)
    ensures AtMost(Quantized(f, a), Quantized(f, b))
  {
    if a.Fin? && b.Fin? {
      StepsMonotone(f, a.r, b.r);
      StoredStepsMonotone(f, Steps(f, a.r), Steps(f, b.r));
    }
  }

  lemma StepsOfStored(f: Constructed, val: nat)
    ensures Steps(f, val as real / Scale(f)) == val
  {
    DivideBack(val as real, Scale(f));
    assert Scaled(f, val as real / Scale(f)) == val as real;
  }

  /** Which payloads of the right size the validator accepts. */
  lemma ValidExactly(f: Constructed, epc: byte, payload: seq<byte>)
    requires |payload| == f.size
    ensures Validate(f, epc, Frame(epc, payload)).Ok?
            <==> BeValue(payload) <= MaxAsU32(f) || BeValue(payload) >= Pow256(f.size) - 2
  {
    SentinelsAreFree(f, payload);
    BeBound(payload);
    assert Frame(epc, payload)[2..] == payload;
  }

  lemma SentinelEncodesBack(f: Constructed, epc: byte, payload: seq<byte>)
    requires payload == Underflow(f.size) || payload == Overflow(f.size)
    ensures EncodesBack(f, epc, payload)
  {
    ReadSentinels(f, epc);
    BehindHeader(payload);
  }

  lemma BehindHeader(payload: seq<byte>)
    ensures ([0xff, 0xff] + payload)[2..] == payload
  {
  }

  lemma ValueEncodesBack(f: Constructed, epc: byte, payload: seq<byte>)
    requires |payload| == f.size && BeValue(payload) <= MaxAsU32(f)
    ensures EncodesBack(f, epc, payload)
  {
    var val := BeValue(payload);
    BeValueBytes(payload);
    FramedSteps(f, epc, val);
    EncodeStored(f, epc, val);
    assert ([0, 0] + payload)[2..] == payload;
  }

  lemma EncodeStored(f: Constructed, epc: byte, val: nat)
    requires val <= MaxAsU32(f)
    ensures Encode(f, epc, Fin(val as real / Scale(f))) == Ok([0, 0] + BeBytes(val, f.size))
  {
    StepsOfStored(f, val);
    EncodeWithin(f, val);
  }

  lemma EncodeWithin(f: Constructed, val: nat)
    requires val <= MaxAsU32(f)
    ensures EncodeSteps(f, val) == Ok([0, 0] + BeBytes(val, f.size))
  {
  }

  /** The codec applied to a validated payload: what is read is encoded as the same payload. */
  lemma DecodeEncode(f: Constructed, epc: byte, payload: seq<byte>)
    requires |payload| == f.size && Validate(f, epc, Frame(epc, payload)).Ok?
    ensures EncodesBack(f, epc, payload)
  {
    ValidExactly(f, epc, payload);
    SentinelsAreFree(f, payload);
    BeBound(payload);
    if BeValue(payload) <= MaxAsU32(f) {
      ValueEncodesBack(f, epc, payload);
    } else {
      SentinelEncodesBack(f, epc, payload);
    }
  }

  predicate EncodesBack(f: Constructed, epc: byte, payload: seq<byte>) {
    var read := Decode(f, Frame(epc, payload));
    read.Ok? && Encode(f, epc, read.value).Ok? && |Encode(f, epc, read.value).value| >= 2
    && Encode(f, epc, read.value).value[2..] == payload
  }

  /** A payload is stored exactly when it has the size and is a value of the format or a
      sentinel; encoding what is then read gives it back byte for byte. */
  lemma PackedReceiveThenSend(f: Constructed, cell: Cell, payload: seq<byte>, now: int)
    requires now != 0
    ensures var codec := PackedCodec(f, cell.epc);
      var (after, r) := Set(codec, cell, payload, now);
      && r == (if |payload| != f.size then Err(InvalidValue(cell.epc))
               else if BeValue(payload) <= MaxAsU32(f) || BeValue(payload) >= Pow256(f.size) - 2 then Ok(())
               else Err(ValueTooLarge(cell.epc)))
      && (!r.Ok? ==> after == cell)
      && (r.Ok? ==> ToCanonical(codec, after) == Decode(f, Frame(cell.epc, payload)))
      && (r.Ok? ==> EncodesBack(f, cell.epc, payload))
  {
    if |payload| == f.size {
      ValidExactly(f, cell.epc, payload);
      if Validate(f, cell.epc, Frame(cell.epc, payload)).Ok? { DecodeEncode(f, cell.epc, payload); }
    }
  }
}
