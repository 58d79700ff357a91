/** The generic property cell of src/middleware/epc_types.rs: a buffer [epc, pdc, edt...]
    and a timestamp, written through a codec. */
module PropertyCell {
  import opened Bits
  import opened Outcomes

  datatype EpcError =
    | InvalidValue(epc: byte)
    | NoValue(epc: byte)
    | ValueTooLarge(epc: byte)
    | ValidationFailed(epc: byte)

  /** The three functions a property is built from. A validator is handed the property itself
      as well as the buffer; all it can learn from it is what to_canonical answers now. */
  datatype Codec<!T> = Codec(
    encode: T -> Outcome<seq<byte>, EpcError>,
    decode: seq<byte> -> Outcome<T, EpcError>,
    validate: (Outcome<T, EpcError>, seq<byte>) -> Outcome<bool, EpcError>)

  datatype Cell = Cell(epc: byte, value: seq<byte>, updated: int)

  function NewCell(epc: byte): Cell { Cell(epc, [], 0) }

  /** The payload behind its EPC and PDC bytes; the PDC saturates. */
  function Frame(epc: byte, payload: seq<byte>): (f: seq<byte>)
    ensures |f| == |payload| + 2 && f[0] == epc && f[2..] == payload
    ensures f[1] == if |f| - 2 > 0xff then 0xff else |f| - 2
  {
    [epc, if |payload| > 0xff then 0xff else |payload|] + payload
  }

  function ToCanonical<T>(codec: Codec<T>, cell: Cell): Outcome<T, EpcError> {
    if cell.updated == 0 then Err(NoValue(cell.epc)) else codec.decode(cell.value)
  }

  function Get(cell: Cell): Outcome<seq<byte>, EpcError> {
    if cell.updated == 0 then Err(NoValue(cell.epc))
    else if |cell.value| < 2 then Panic
    else Ok(cell.value[2..])
  }

  function Set<T>(codec: Codec<T>, cell: Cell, payload: seq<byte>, now: int): (Cell, Outcome<(), EpcError>) {
    match codec.validate(ToCanonical(codec, cell), Frame(cell.epc, payload))
    case Ok(_) => (Cell(cell.epc, Frame(cell.epc, payload), now), Ok(()))  // an Ok(false) verdict is not looked at
    case Err(e) => (cell, Err(e))
    case Panic => (cell, Panic)
  }

  function FromCanonical<T>(codec: Codec<T>, cell: Cell, c: T, now: int): (Cell, Outcome<(), EpcError>) {
    match codec.encode(c)
    case Err(e) => (cell, Err(e))
    case Panic => (cell, Panic)
    case Ok(internal) =>
      if |internal| < 2 then (cell, Err(InvalidValue(cell.epc)))
      else
        var framed := Frame(cell.epc, internal[2..]);
        match codec.validate(ToCanonical(codec, cell), framed)
        case Ok(true) => (Cell(cell.epc, framed, now), Ok(()))
        case Ok(false) => (cell, Err(ValidationFailed(cell.epc)))
        case Err(e) => (cell, Err(e))
        case Panic => (cell, Panic)
  }

  class StaticNodeProperty<T> {
    const epc: byte
    const codec: Codec<T>
    var lastValue: seq<byte>
    var lastUpdated: int

    ghost function State(): Cell
      reads this
    {
      Cell(epc, lastValue, lastUpdated)
    }

    /** Unwritten, or holding a framed payload. */
    ghost predicate Valid()
      reads this
    {
      if lastValue == [] then lastUpdated == 0
      else |lastValue| >= 2 && lastValue == Frame(epc, lastValue[2..])
    }

    constructor (epc: byte, codec: Codec<T>)
      ensures Valid() && State() == NewCell(epc) && this.codec == codec
    {
      this.epc := epc;
      this.codec := codec;
      lastValue := [];
      lastUpdated := 0;
    }

    method ReadCanonical() returns (r: Outcome<T, EpcError>)
      ensures r == ToCanonical(codec, State())
    {
      if lastUpdated == 0 {
        r := Err(NoValue(epc));
      } else {
        r := codec.decode(lastValue);
      }
    }

    /** Converts, frames in place, validates, and only then stores. */
    method WriteCanonical(canonical: T, now: int) returns (r: Outcome<(), EpcError>)
      requires Valid()
      modifies this
      ensures Valid()
      ensures (State(), r) == FromCanonical(codec, old(State()), canonical, now)
    {
      var encoded := codec.encode(canonical);
      if !encoded.Ok? {
        return if encoded.Err? then Err(encoded.error) else Panic;
      }
      var internal := encoded.value;
      if |internal| < 2 {
        return Err(InvalidValue(epc));
      }
      ghost var payload := internal[2..];
      internal := internal[0 := epc];
      var dataLen := |internal| - 2;
      internal := internal[1 := if dataLen > 0xff then 0xff else dataLen];
      assert internal == Frame(epc, payload);
      var current := ReadCanonical();
      var verdict := codec.validate(current, internal);
      if !verdict.Ok? {
        return if verdict.Err? then Err(verdict.error) else Panic;
      }
      if !verdict.value {
        return Err(ValidationFailed(epc));
      }
      lastValue := internal;
      lastUpdated := now;
      r := Ok(());
    }

    method ReadInternal() returns (r: Outcome<seq<byte>, EpcError>)
      requires Valid()
      ensures r == Get(State()) && !r.Panic?
    {
      if lastUpdated == 0 {
        r := Err(NoValue(epc));
      } else {
        r := Ok(lastValue[2..]);
      }
    }

    /** Copies the payload behind a header, validates, and stores unless the validator errs. */
    method WriteInternal(internal: seq<byte>, now: int) returns (r: Outcome<(), EpcError>)
      requires Valid()
      modifies this
      ensures Valid()
      ensures (State(), r) == Set(codec, old(State()), internal, now)
    {
      var buf := Zeros(|internal| + 2);
      buf := buf[0 := epc];
      var dataLen := |internal|;
      buf := buf[1 := if dataLen > 0xff then 0xff else dataLen];
      buf := buf[..2] + internal;
      assert buf == Frame(epc, internal);
      var current := ReadCanonical();
      var verdict := codec.validate(current, buf);
      if !verdict.Ok? {
        return if verdict.Err? then Err(verdict.error) else Panic;
      }
      lastValue := buf;
      lastUpdated := now;
      r := Ok(());
    }
  }

  // ----- whole runs of writes

  datatype Call<T> = SetCall(payload: seq<byte>, now: int) | CanonicalCall(canonical: T, now: int)

  function Perform<T>(codec: Codec<T>, cell: Cell, call: Call<T>): (Cell, Outcome<(), EpcError>) {
    match call
    case SetCall(payload, now) => Set(codec, cell, payload, now)
    case CanonicalCall(c, now) => FromCanonical(codec, cell, c, now)
  }

  function Run<T>(codec: Codec<T>, epc: byte, calls: seq<Call<T>>): (r: (Cell, seq<Outcome<(), EpcError>>))
    ensures |r.1| == |calls|
  {
    if calls == [] then (NewCell(epc), [])
    else
      var before := Run(codec, epc, calls[..|calls| - 1]);
      var (after, outcome) := Perform(codec, before.0, calls[|calls| - 1]);
      (after, before.1 + [outcome])
  }

  /** The position of the last successful call, or -1. */
  function LastOk(outcomes: seq<Outcome<(), EpcError>>): (k: int)
    ensures -1 <= k < |outcomes|
    ensures k >= 0 ==> outcomes[k].Ok?
    ensures forall i | k < i < |outcomes| :: !outcomes[i].Ok?
  {
    if outcomes == [] then -1
    else if outcomes[|outcomes| - 1].Ok? then |outcomes| - 1
    else LastOk(outcomes[..|outcomes| - 1])
  }

  /** The bytes a successful call stores behind the header. */
  function Stored<T>(codec: Codec<T>, call: Call<T>): seq<byte> {
    match call
    case SetCall(payload, _) => payload
    case CanonicalCall(c, _) =>
      var internal := codec.encode(c);
      if internal.Ok? && |internal.value| >= 2 then internal.value[2..] else []
  }

  /** The verdict the validator gave on call k, in the state that call found. */
  function Verdict<T>(codec: Codec<T>, epc: byte, calls: seq<Call<T>>, k: nat): Outcome<bool, EpcError>
    requires k < |calls|
  {
    codec.validate(ToCanonical(codec, Run(codec, epc, calls[..k]).0), Frame(epc, Stored(codec, calls[k])))
  }

  /** What one call does to the cell, in terms of the payload it offers. */
  lemma PerformStores<T>(codec: Codec<T>, cell: Cell, call: Call<T>)
    ensures var (after, r) := Perform(codec, cell, call);
      var verdict := codec.validate(ToCanonical(codec, cell), Frame(cell.epc, Stored(codec, call)));
      && (!r.Ok? ==> after == cell)
      && (r.Ok? ==> after == Cell(cell.epc, Frame(cell.epc, Stored(codec, call)), call.now) && verdict.Ok?)
      && (r.Ok? && call.CanonicalCall? ==> verdict == Ok(true))
  {
  }

  /** The reply to call k of a run: a canonical value that cannot be encoded, or is encoded in
      less than the two header bytes, is refused before the validator is asked; after that the
      validator's own error or panic is returned, and its answer false is an error for a
      canonical value only. */
  function Expected<T>(codec: Codec<T>, epc: byte, calls: seq<Call<T>>, k: nat): Outcome<(), EpcError>
    requires k < |calls|
  {
    var encoded := if calls[k].CanonicalCall? then codec.encode(calls[k].canonical) else Ok([0, 0]);
    if encoded.Panic? then Panic
    else if encoded.Err? then Err(encoded.error)
    else if |encoded.value| < 2 then Err(InvalidValue(epc))
    else
      var verdict := Verdict(codec, epc, calls, k);
      if verdict.Panic? then Panic
      else if verdict.Err? then Err(verdict.error)
      else if calls[k].CanonicalCall? && !verdict.value then Err(ValidationFailed(epc))
      else Ok(())
  }

  lemma {:induction false} RunReplies<T>(codec: Codec<T>, epc: byte, calls: seq<Call<T>>, k: nat)
    requires k < |calls|
    ensures Run(codec, epc, calls).1[k] == Expected(codec, epc, calls, k)
  {
    var init := calls[..|calls| - 1];
    if k < |calls| - 1 {
      RunReplies(codec, epc, init, k);
      assert init[..k] == calls[..k];
    } else {
      KeepsEpc(codec, epc, init);
    }
  }

  lemma {:induction false} KeepsEpc<T>(codec: Codec<T>, epc: byte, calls: seq<Call<T>>)
    ensures Run(codec, epc, calls).0.epc == epc
  {
    if calls != [] { KeepsEpc(codec, epc, calls[..|calls| - 1]); }
  }

  /** After any run the cell holds exactly the framed payload and the time of the last
      successful call, and nothing if there was none; the validator did not refuse that
      payload, and accepted it if it came from a canonical value. */
  lemma {:induction false} RunHistory<T>(codec: Codec<T>, epc: byte, calls: seq<Call<T>>)
    ensures var (cell, outcomes) := Run(codec, epc, calls);
      var k := LastOk(outcomes);
      if k < 0 then cell == NewCell(epc)
      else
        && cell == Cell(epc, Frame(epc, Stored(codec, calls[k])), calls[k].now)
        && Verdict(codec, epc, calls, k).Ok?
        && (calls[k].CanonicalCall? ==> Verdict(codec, epc, calls, k) == Ok(true))
  {
    if calls != [] {
      var init := calls[..|calls| - 1];
      RunHistory(codec, epc, init);
      var before := Run(codec, epc, init);
      PerformStores(codec, before.0, calls[|calls| - 1]);
      assert Run(codec, epc, calls).1[..|init|] == before.1;
      var k := LastOk(before.1);
      if k >= 0 { assert init[..k] == calls[..k]; }
    }
  }

  /** Reads answer NoValue exactly when no call has succeeded (or the clock read 0 when the
      last one did), and otherwise return its payload. */
  lemma ReadsAfterRun<T>(codec: Codec<T>, epc: byte, calls: seq<Call<T>>)
    ensures var (cell, outcomes) := Run(codec, epc, calls);
      var k := LastOk(outcomes);
      var unread := k < 0 || calls[k].now == 0;
      && Get(cell) == (if unread then Err(NoValue(epc)) else Ok(Stored(codec, calls[k])))
      && (unread ==> ToCanonical(codec, cell) == Err(NoValue(epc)))
      && (!unread ==> ToCanonical(codec, cell) == codec.decode(Frame(epc, Stored(codec, calls[k]))))
  {
    RunHistory(codec, epc, calls);
  }

  /** Whatever the validator does not refuse, the decoder reads or refuses without a panic. */
  ghost predicate SafelyRead<T(!new)>(codec: Codec<T>, epc: byte) {
    forall current: Outcome<T, EpcError>, payload ::
      codec.validate(current, Frame(epc, payload)).Ok? ==> !codec.decode(Frame(epc, payload)).Panic?
  }

  /** With such a codec no read panics, after any run. */
  lemma ReadsNeverPanic<T(!new)>(codec: Codec<T>, epc: byte, calls: seq<Call<T>>)
    requires SafelyRead(codec, epc)
    ensures var cell := Run(codec, epc, calls).0;
      !ToCanonical(codec, cell).Panic? && !Get(cell).Panic?
  {
    RunHistory(codec, epc, calls);
    ReadsAfterRun(codec, epc, calls);
  }

  // ----- lifting a codec law to the cell

  /** Whatever two bytes the header holds, the encoding of c decodes to back. */
  ghost predicate DecodesAs<T(!new)>(codec: Codec<T>, c: T, back: T) {
    && codec.encode(c).Ok? && |codec.encode(c).value| >= 2
    && forall h0: byte, h1: byte :: codec.decode([h0, h1] + codec.encode(c).value[2..]) == Ok(back)
  }

  /** If a codec decodes what it encodes, a successful from_canonical is read back. */
  lemma CodecLifting<T(!new)>(codec: Codec<T>, cell: Cell, c: T, back: T, now: int)
    requires DecodesAs(codec, c, back) && now != 0
    ensures var (after, r) := FromCanonical(codec, cell, c, now);
      if r.Ok? then ToCanonical(codec, after) == Ok(back) else after == cell
  {
    var payload := codec.encode(c).value[2..];
    var f := Frame(cell.epc, payload);
    assert f == [f[0], f[1]] + payload;
  }

  /** What a successful from_canonical leaves behind, whatever the codec. */
  lemma WrittenValue<T>(codec: Codec<T>, cell: Cell, c: T, now: int)
    requires now != 0
    ensures var (after, r) := FromCanonical(codec, cell, c, now);
      if r.Ok? then
        && codec.encode(c).Ok? && |codec.encode(c).value| >= 2
        && codec.validate(ToCanonical(codec, cell), Frame(cell.epc, codec.encode(c).value[2..])) == Ok(true)
        && ToCanonical(codec, after) == codec.decode(Frame(cell.epc, codec.encode(c).value[2..]))
      else after == cell
  {
  }

  // ----- cells that can never be written

  /** The validator lets nothing through while the cell is empty. */
  ghost predicate BlocksEmpty<T>(codec: Codec<T>, epc: byte) {
    forall payload :: !codec.validate(Err(NoValue(epc)), Frame(epc, payload)).Ok?
  }

  /** Such a cell stays empty over every run, and every call fails. */
  lemma {:induction false} NeverWritten<T>(codec: Codec<T>, epc: byte, calls: seq<Call<T>>)
    requires BlocksEmpty(codec, epc)
    ensures Run(codec, epc, calls).0 == NewCell(epc)
    ensures forall i | 0 <= i < |calls| :: !Run(codec, epc, calls).1[i].Ok?
  {
    if calls != [] {
      NeverWritten(codec, epc, calls[..|calls| - 1]);
      PerformStores(codec, NewCell(epc), calls[|calls| - 1]);
    }
  }
}
