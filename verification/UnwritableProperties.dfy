/** Properties whose validators test the header byte or the old value instead of the payload,
    and so let nothing through. */
module UnwritableProperties {
  import opened Bits
  import opened Outcomes
  import opened HexStrings
  import opened HexProperties
  import opened PropertyCell

  // ----- booleans

  function DecodeBoolean(epc: byte, yes: byte, no: byte, b: seq<byte>): Outcome<bool, EpcError> {
    if |b| < 3 then Panic
    else if b[2] == yes then Ok(true)
    else if b[2] == no then Ok(false)
    else Err(InvalidValue(epc))
  }

  /** The validator looks at byte 0, which is the EPC, not at the data byte. */
  function ValidateBoolean(epc: byte, yes: byte, no: byte, b: seq<byte>): Outcome<bool, EpcError> {
    if |b| != 3 then Err(InvalidValue(epc))
    else if b[0] == yes || b[0] == no then Ok(true)
    else Err(InvalidValue(epc))
  }

  function BooleanCodec(epc: byte, yes: byte, no: byte): Codec<bool> {
    Codec(c => Ok([0, 0, if c then yes else no]),
          b => DecodeBoolean(epc, yes, no, b),
          (current, b) => ValidateBoolean(epc, yes, no, b))
  }

  /** A boolean can be written exactly when its EPC code happens to be one of its two data
      values; the payload makes no difference beyond its length. */
  lemma BooleanWritableExactly(cell: Cell, yes: byte, no: byte, c: bool, payload: seq<byte>, now: int)
    ensures var codec := BooleanCodec(cell.epc, yes, no);
      && FromCanonical(codec, cell, c, now).1
         == (if cell.epc == yes || cell.epc == no then Ok(()) else Err(InvalidValue(cell.epc)))
      && Set(codec, cell, payload, now).1
         == (if |payload| == 1 && (cell.epc == yes || cell.epc == no) then Ok(()) else Err(InvalidValue(cell.epc)))
    ensures BlocksEmpty(BooleanCodec(cell.epc, yes, no), cell.epc) <==> cell.epc != yes && cell.epc != no
  {
    var codec := BooleanCodec(cell.epc, yes, no);
    assert codec.encode(c) == Ok([0, 0, if c then yes else no]);
    var framed := Frame(cell.epc, [0]);
    assert codec.validate(Err(NoValue(cell.epc)), framed) == ValidateBoolean(cell.epc, yes, no, framed);
  }

  /** A boolean that can be written is read back, and a received data byte is read as the value
      it stands for, or as an error if it stands for neither. */
  lemma BooleanReadBack(cell: Cell, yes: byte, no: byte, c: bool, data: byte, now: int)
    requires now != 0 && yes != no && (cell.epc == yes || cell.epc == no)
    ensures var codec := BooleanCodec(cell.epc, yes, no);
      && ToCanonical(codec, FromCanonical(codec, cell, c, now).0) == Ok(c)
      && Get(FromCanonical(codec, cell, c, now).0) == Ok([if c then yes else no])
      && ToCanonical(codec, Set(codec, cell, [data], now).0)
         == if data == yes then Ok(true) else if data == no then Ok(false) else Err(InvalidValue(cell.epc))
  {
  }

  /** Operating status (EPC 80), fault status (88) and power saving (8f) are never written, by any
      run of calls. */
  lemma FactoryBooleansNeverWritten(calls: seq<Call<bool>>)
    ensures Run(BooleanCodec(0x80, 0x30, 0x31), 0x80, calls).0 == NewCell(0x80)
    ensures Run(BooleanCodec(0x88, 0x41, 0x42), 0x88, calls).0 == NewCell(0x88)
    ensures Run(BooleanCodec(0x8f, 0x41, 0x42), 0x8f, calls).0 == NewCell(0x8f)
  {
    NeverWritten(BooleanCodec(0x80, 0x30, 0x31), 0x80, calls);
    NeverWritten(BooleanCodec(0x88, 0x41, 0x42), 0x88, calls);
    NeverWritten(BooleanCodec(0x8f, 0x41, 0x42), 0x8f, calls);
  }

  /** The operating status on, data byte 30, is refused in both directions. */
  lemma OperatingStatusWitness(now: int)
    ensures var (codec, cell) := (BooleanCodec(0x80, 0x30, 0x31), NewCell(0x80));
      && FromCanonical(codec, cell, true, now) == (cell, Err(InvalidValue(0x80)))
      && Set(codec, cell, [0x30], now) == (cell, Err(InvalidValue(0x80)))
  {
  }

  // ----- the identification number

  function ValidateIdentification(isProfile: bool, epc: byte, b: seq<byte>): Outcome<bool, EpcError> {
    if |b| != 17 then Err(InvalidValue(epc))
    else if b[0] == 0xfe || (!isProfile && (b[0] == 0x00 || b[0] == 0xff)) then Ok(true)
    else Err(InvalidValue(epc))
  }

  /** What passes depends on the EPC and the length only. */
  lemma IdentificationWritableExactly(isProfile: bool, cell: Cell, payload: seq<byte>, h: HexString, now: int)
    ensures var codec := HexCodec(cell.epc, (current, b) => ValidateIdentification(isProfile, cell.epc, b));
      var known := cell.epc in (if isProfile then {0xfe} else {0x00, 0xfe, 0xff});
      && Set(codec, cell, payload, now).1
         == (if |payload| == 15 && known then Ok(()) else Err(InvalidValue(cell.epc)))
      && FromCanonical(codec, cell, h, now).1
         == (if |h| == 30 && known then Ok(()) else Err(InvalidValue(cell.epc)))
  {
    EncodeHexIsBytes(cell.epc, h);
  }

  /** Neither the profile nor the device variant is ever written. */
  lemma IdentificationNeverWritten(isProfile: bool, calls: seq<Call<HexString>>)
    ensures var epc: byte := 0x83;
      Run(HexCodec(epc, (current, b) => ValidateIdentification(isProfile, epc, b)), epc, calls).0 == NewCell(epc)
  {
    var epc: byte := 0x83;
    NeverWritten(HexCodec(epc, (current, b) => ValidateIdentification(isProfile, epc, b)), epc, calls);
  }

  // ----- the fault content

  /** After the length check the validator asks the property for its canonical value, that is,
      for the value stored before this write. */
  function ValidateFaultContent<T>(epc: byte, current: Outcome<T, EpcError>, b: seq<byte>): Outcome<bool, EpcError> {
    match ValidateLength(epc, b, 2)
    case Err(e) => Err(e)
    case Panic => Panic
    case Ok(_) =>
      match current
      case Ok(_) => Ok(true)
      case Err(e) => Err(e)
      case Panic => Panic
  }

  /** Two bytes are stored exactly when the value they replace can be read; otherwise its own
      error is returned. */
  lemma FaultContentWritableExactly<T>(codec: Codec<T>, cell: Cell, payload: seq<byte>, c: T, now: int)
    requires forall current, b :: codec.validate(current, b) == ValidateFaultContent(cell.epc, current, b)
    ensures Set(codec, cell, payload, now).1 == FaultContentReply(codec, cell, |payload|)
    ensures codec.encode(c).Ok? && |codec.encode(c).value| >= 2 ==>
      FromCanonical(codec, cell, c, now).1 == FaultContentReply(codec, cell, |codec.encode(c).value| - 2)
  {
  }

  function FaultContentReply<T>(codec: Codec<T>, cell: Cell, length: nat): Outcome<(), EpcError> {
    if length != 2 then Err(InvalidValue(cell.epc))
    else match ToCanonical(codec, cell)
      case Ok(_) => Ok(())
      case Err(e) => Err(e)
      case Panic => Panic
  }

  /** Whatever the conversion of fault codes does, the fault content is never written. */
  lemma FaultContentNeverWritten<T>(codec: Codec<T>, epc: byte, calls: seq<Call<T>>)
    requires forall current, b :: codec.validate(current, b) == ValidateFaultContent(epc, current, b)
    ensures Run(codec, epc, calls).0 == NewCell(epc)
  {
    NeverWritten(codec, epc, calls);
  }
}
