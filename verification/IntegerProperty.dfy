/** Integer properties: fixed-size big-endian values with two sentinels at the top of the range. */
module IntegerProperty {
  import opened Bits
  import opened Outcomes
  import opened HexSpec
  import opened PropertyCell

  /** The instances of the Integer trait. InstanceCount is a u32 sent in three bytes. */
  datatype Kind = U16 | U32 | UniqueIdentifier | InstanceCount

  function Size(k: Kind): nat {
    match k
    case U16 => 2
    case U32 => 4
    case UniqueIdentifier => 2
    case InstanceCount => 3
  }

  /** The values of the Rust type. */
  predicate InType(k: Kind, c: nat) {
    match k
    case U16 => c < 0x1_0000
    case U32 => c < 0x1_0000_0000
    case UniqueIdentifier => c < 0x1_0000
    case InstanceCount => c < 0x1_0000_0000
  }

  function ToBeBytes(k: Kind, c: nat): seq<byte> {
    match k
    case U16 => BeBytes(c, 2)
    case U32 => BeBytes(c, 4)
    case UniqueIdentifier => BeBytes(c, 2)
    case InstanceCount => if c >= 0x00ff_ffff then [0xff, 0xff, 0xff] else BeBytes(c, 4)[1..]
  }

  predicate IsUnderflow(k: Kind, b: seq<byte>) {
    match k
    case U16 => b == [0xff, 0xfe]
    case U32 => b == [0xff, 0xff, 0xff, 0xfe]
    case UniqueIdentifier => false
    case InstanceCount => b == [0xff, 0xff, 0xfe]
  }

  predicate IsOverflow(k: Kind, b: seq<byte>) {
    match k
    case U16 => b == [0xff, 0xff]
    case U32 => b == [0xff, 0xff, 0xff, 0xff]
    case UniqueIdentifier => false
    case InstanceCount => b == [0xff, 0xff, 0xff]
  }

  function Encode(k: Kind, c: nat): Outcome<seq<byte>, EpcError> { Ok([0, 0] + ToBeBytes(k, c)) }

  /** Converting the slice to a fixed-size array panics on any other length. */
  function Decode(k: Kind, b: seq<byte>): Outcome<nat, EpcError> {
    if |b| != Size(k) + 2 then Panic else Ok(BeValue(b[2..]))
  }

  function Validate(k: Kind, epc: byte, b: seq<byte>): Outcome<bool, EpcError> {
    if |b| != Size(k) + 2 || IsUnderflow(k, b[2..]) || IsOverflow(k, b[2..]) then Err(InvalidValue(epc)) else Ok(true)
  }

  function IntegerCodec(k: Kind, epc: byte): Codec<nat> {
    Codec(c => Encode(k, c), b => Decode(k, b), (current, b) => Validate(k, epc, b))
  }

  /** The first value that cannot be stored: the underflow sentinel, where there is one. */
  function Limit(k: Kind): nat {
    match k
    case U16 => 0xfffe
    case U32 => 0xffff_fffe
    case UniqueIdentifier => 0x1_0000
    case InstanceCount => 0xff_fffe
  }

  lemma Powers()
    ensures Pow256(1) == 0x100 && Pow256(2) == 0x1_0000 && Pow256(3) == 0x100_0000 && Pow256(4) == 0x1_0000_0000
  {
    assert Pow256(1) == 0x100;
    assert Pow256(3) == 0x100 * Pow256(2);
  }

  /** The sentinels are the two numbers from the limit up to the end of the range. */
  lemma SentinelsAreLimit(k: Kind, b: seq<byte>)
    requires |b| == Size(k)
    ensures IsUnderflow(k, b) || IsOverflow(k, b) <==> BeValue(b) >= Limit(k)
  {
    match k
    case U16 => BeTwo(b);
    case U32 => BeFour(b);
    case UniqueIdentifier => BeTwo(b);
    case InstanceCount => BeThree(b);
  }

  lemma EncodedValue(k: Kind, c: nat)
    requires InType(k, c)
    ensures |ToBeBytes(k, c)| == Size(k)
    ensures BeValue(ToBeBytes(k, c)) == if k == InstanceCount && c >= 0xff_ffff then 0xff_ffff else c
  {
    Powers();
    match k
    case U16 => BeBytesValue(c, 2);
    case U32 => BeBytesValue(c, 4);
    case UniqueIdentifier => BeBytesValue(c, 2);
    case InstanceCount =>
      var b := ToBeBytes(k, c);
      BeThree(b);
      if c < 0xff_ffff {
        BeBytesValue(c, 4);
        BeFour(BeBytes(c, 4));
      }
  }

  /** What the validator and the decoder make of a framed payload of the right size. */
  lemma FramedInteger(k: Kind, epc: byte, b: seq<byte>)
    requires |b| == Size(k)
    ensures Validate(k, epc, Frame(epc, b)) == if BeValue(b) < Limit(k) then Ok(true) else Err(InvalidValue(epc))
    ensures Decode(k, Frame(epc, b)) == Ok(BeValue(b))
  {
    SentinelsAreLimit(k, b);
    assert Frame(epc, b)[2..] == b;
  }

  /** A value can be stored exactly when it is below the limit, and is then read back; at or
      above it (including every instance count the encoder saturates) the write is refused. */
  lemma IntegerWriteThenRead(k: Kind, cell: Cell, c: nat, now: int)
    requires InType(k, c) && now != 0
    ensures var (after, r) := FromCanonical(IntegerCodec(k, cell.epc), cell, c, now);
      && r == (if c < Limit(k) then Ok(()) else Err(InvalidValue(cell.epc)))
      && (if r.Ok? then ToCanonical(IntegerCodec(k, cell.epc), after) == Ok(c) else after == cell)
  {
    EncodedValue(k, c);
    FramedInteger(k, cell.epc, ToBeBytes(k, c));
    var codec := IntegerCodec(k, cell.epc);
    assert codec.encode(c).value[2..] == ToBeBytes(k, c);
    WrittenValue(codec, cell, c, now);
  }

  /** A received payload is stored exactly when it has the right size and its number is below
      the limit, and is then read as that number. */
  lemma IntegerReceive(k: Kind, cell: Cell, payload: seq<byte>, now: int)
    requires now != 0
    ensures var (after, r) := Set(IntegerCodec(k, cell.epc), cell, payload, now);
      && r == (if |payload| == Size(k) && BeValue(payload) < Limit(k) then Ok(()) else Err(InvalidValue(cell.epc)))
      && (!r.Ok? ==> after == cell)
      && (r.Ok? ==> ToCanonical(IntegerCodec(k, cell.epc), after) == Ok(BeValue(payload)))
  {
    if |payload| == Size(k) { FramedInteger(k, cell.epc, payload); }
  }

  /** The instance count 0x01ffffff is encoded as ff ff ff and then refused. */
  lemma SaturatedCountWitness(cell: Cell, now: int)
    ensures Encode(InstanceCount, 0x01ff_ffff) == Ok([0, 0, 0xff, 0xff, 0xff])
    ensures FromCanonical(IntegerCodec(InstanceCount, cell.epc), cell, 0x01ff_ffff, now)
         == (cell, Err(InvalidValue(cell.epc)))
  {
    var b: seq<byte> := [0xff, 0xff, 0xff];
    assert [0, 0] + b == [0, 0, 0xff, 0xff, 0xff] && ([0, 0] + b)[2..] == b;
    assert Frame(cell.epc, b)[2..] == b;
  }
}
