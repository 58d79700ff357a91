/** Lists of ECHONET object codes, three bytes each. */
module EojList {
  import opened Bits
  import opened Outcomes
  import opened PropertyCell

  datatype EOJ = EOJ(groupCode: byte, classCode: byte, instanceCode: byte)

  function Part(e: EOJ, r: nat): byte {
    if r == 0 then e.groupCode else if r == 1 then e.classCode else e.instanceCode
  }

  /** The packed structs laid end to end. */
  function Flatten(xs: seq<EOJ>): (p: seq<byte>)
    ensures |p| == 3 * |xs|
    ensures forall k | 0 <= k < |p| :: p[k] == Part(xs[k / 3], k % 3)
  {
    seq(3 * |xs|, k requires 0 <= k < 3 * |xs| => Part(xs[k / 3], k % 3))
  }

  function Encode(xs: seq<EOJ>): Outcome<seq<byte>, EpcError> { Ok([0, 0] + Flatten(xs)) }

  /** Entry i is read from offset i * stride; the code uses stride 1. */
  function ReadEojs(payload: seq<byte>, stride: nat): (xs: seq<EOJ>)
    requires 1 <= stride <= 3
    ensures |xs| == |payload| / 3
  {
    seq(|payload| / 3, i requires 0 <= i < |payload| / 3 =>
      StrideInside(|payload| / 3, stride, i);
      EOJ(payload[i * stride], payload[i * stride + 1], payload[i * stride + 2]))
  }

  lemma StrideInside(n: nat, stride: nat, i: nat)
    requires 1 <= stride <= 3 && i < n
    ensures 0 <= i * stride && i * stride + 2 < 3 * n
  {
    assert i * stride == if stride == 1 then i else if stride == 2 then 2 * i else 3 * i;
  }

  function Decode(b: seq<byte>): Outcome<seq<EOJ>, EpcError> {
    if |b| < 2 then Panic else Ok(ReadEojs(b[2..], 1))
  }

  function Validate(b: seq<byte>): Outcome<bool, EpcError> {
    Ok(|b| >= 2 && (|b| - 2) % 3 == 0 && b[1] % 3 == 0)
  }

  function EojCodec(): Codec<seq<EOJ>> {
    Codec(xs => Encode(xs), b => Decode(b), (current, b) => Validate(b))
  }

  /** The decoding loop as written: the slice for entry i starts at i + 2. */
  method DecodeEojs(internal: seq<byte>) returns (r: Outcome<seq<EOJ>, EpcError>)
    ensures r == Decode(internal)
  {
    if |internal| < 2 {
      return Panic;
    }
    var count := (|internal| - 2) / 3;
    var eojs: seq<EOJ> := [];
    for i := 0 to count
      invariant eojs == ReadEojs(internal[2..], 1)[..i]
    {
      var bytes := internal[i + 2..i + 2 + 3];
      eojs := eojs + [EOJ(bytes[0], bytes[1], bytes[2])];
    }
    assert eojs == ReadEojs(internal[2..], 1);
    r := Ok(eojs);
  }

  /** Read at the entry size, a list comes back whole. */
  lemma StrideThreeInverts(xs: seq<EOJ>)
    ensures ReadEojs(Flatten(xs), 3) == xs
  {
    var p := Flatten(xs);
    forall i | 0 <= i < |xs| ensures ReadEojs(p, 3)[i] == xs[i] {
      PartAt(xs, i, 0, 3 * i);
      PartAt(xs, i, 1, 3 * i + 1);
      PartAt(xs, i, 2, 3 * i + 2);
    }
  }

  lemma PartAt(xs: seq<EOJ>, i: nat, r: nat, k: nat)
    requires i < |xs| && r < 3 && k == 3 * i + r
    ensures Flatten(xs)[k] == Part(xs[i], r)
  {
    assert k / 3 == i && k % 3 == r;
  }

  /** Where stride 1 looks for byte k of the list, and the first such position. */
  function Overlaid(k: nat): nat { k / 3 + k % 3 }

  function Base(k: nat): nat { if k % 2 == 1 then 1 else 2 }

  /** After its first byte the payload only alternates between two values. */
  predicate Alternates(p: seq<byte>) {
    forall k | 3 <= k < |p| :: p[k] == p[Base(k)]
  }

  lemma OverlaidFacts(k: nat)
    requires k >= 3
    ensures 1 <= Overlaid(k) < k && Base(Overlaid(k)) == Base(k)
  {
    assert k == Overlaid(k) + 2 * (k / 3);
  }

  lemma {:induction false} OverlayForces(p: seq<byte>, k: nat)
    requires 1 <= k < |p| && |p| >= 3
    requires forall j | 0 <= j < |p| :: p[j] == p[Overlaid(j)]
    ensures p[k] == p[Base(k)]
  {
    if k >= 3 {
      OverlaidFacts(k);
      OverlayForces(p, Overlaid(k));
    }
  }

  lemma OverlayIsAlternation(p: seq<byte>)
    ensures (forall k | 0 <= k < |p| :: p[k] == p[Overlaid(k)]) <==> Alternates(p)
  {
    if forall k | 0 <= k < |p| :: p[k] == p[Overlaid(k)] {
      forall k | 3 <= k < |p| ensures p[k] == p[Base(k)] {
        OverlayForces(p, k);
      }
    }
    if Alternates(p) {
      forall k | 0 <= k < |p| ensures p[k] == p[Overlaid(k)] {
        if k >= 3 {
          OverlaidFacts(k);
          assert p[k] == p[Base(k)];
        }
      }
    }
  }

  /** Byte k of a list, and what reading with stride 1 takes for it. */
  lemma ReadPart(p: seq<byte>, k: nat)
    requires |p| % 3 == 0 && k < |p|
    ensures Part(ReadEojs(p, 1)[k / 3], k % 3) == p[Overlaid(k)]
  {
    assert ReadEojs(p, 1)[k / 3] == EOJ(p[k / 3], p[k / 3 + 1], p[k / 3 + 2]);
  }

  lemma SameParts(a: EOJ, b: EOJ)
    requires forall r: nat | r < 3 :: Part(a, r) == Part(b, r)
    ensures a == b
  {
    assert Part(a, 0) == Part(b, 0) && Part(a, 1) == Part(b, 1) && Part(a, 2) == Part(b, 2);
  }

  /** Read with stride 1, a list comes back exactly when its bytes alternate; lists of at most
      one entry always do. */
  lemma StrideOneInvertsExactly(xs: seq<EOJ>)
    ensures ReadEojs(Flatten(xs), 1) == xs <==> Alternates(Flatten(xs))
  {
    var p := Flatten(xs);
    var read := ReadEojs(p, 1);
    OverlayIsAlternation(p);
    if read == xs {
      forall k | 0 <= k < |p| ensures p[k] == p[Overlaid(k)] {
        ReadPart(p, k);
      }
    }
    if Alternates(p) {
      forall i | 0 <= i < |xs| ensures read[i] == xs[i] {
        EntryReadBack(xs, i);
      }
    }
  }

  lemma EntryReadBack(xs: seq<EOJ>, i: nat)
    requires i < |xs|
    requires var p := Flatten(xs); forall k | 0 <= k < |p| :: p[k] == p[Overlaid(k)]
    ensures ReadEojs(Flatten(xs), 1)[i] == xs[i]
  {
    var p := Flatten(xs);
    forall r: nat | r < 3 ensures Part(ReadEojs(p, 1)[i], r) == Part(xs[i], r) {
      var k := 3 * i + r;
      assert k / 3 == i && k % 3 == r;
      ReadPart(p, k);
      PartAt(xs, i, r, k);
      assert p[k] == p[Overlaid(k)];
    }
    SameParts(ReadEojs(p, 1)[i], xs[i]);
  }

  /** Writing a list always succeeds, also beyond 85 entries where the PDC saturates, and stores
      its bytes; it is read back exactly when they alternate. */
  lemma EojWriteThenRead(cell: Cell, xs: seq<EOJ>, now: int)
    requires now != 0
    ensures var (after, r) := FromCanonical(EojCodec(), cell, xs, now);
      && r == Ok(()) && Get(after) == Ok(Flatten(xs))
      && (ToCanonical(EojCodec(), after) == Ok(xs) <==> Alternates(Flatten(xs)))
  {
    var codec := EojCodec();
    var p := Flatten(xs);
    assert codec.encode(xs).value[2..] == p;
    VerdictOnFrame(cell.epc, p);
    WrittenValue(codec, cell, xs, now);
    StrideOneInvertsExactly(xs);
  }

  /** On a framed buffer the validator says yes exactly for whole entries. */
  lemma VerdictOnFrame(epc: byte, payload: seq<byte>)
    ensures Validate(Frame(epc, payload)) == Ok(|payload| % 3 == 0)
  {
  }

  /** set stores every payload, also the ones its validator turns down; they are read without
      their last one or two bytes counting towards the number of entries. */
  lemma EojSetStoresAnything(cell: Cell, payload: seq<byte>, now: int)
    requires now != 0
    ensures var (after, r) := Set(EojCodec(), cell, payload, now);
      && r == Ok(()) && Get(after) == Ok(payload)
      && (Validate(after.value) == Ok(true) <==> |payload| % 3 == 0)
      && ToCanonical(EojCodec(), after) == Ok(ReadEojs(payload, 1))
  {
    VerdictOnFrame(cell.epc, payload);
  }

  /** The one-byte payload 01 is stored by set although the validator answers false on it. */
  lemma SetWitness(epc: byte)
    ensures var (after, r) := Set(EojCodec(), NewCell(epc), [1], 1);
      && r == Ok(()) && Get(after) == Ok([1])
      && EojCodec().validate(Err(NoValue(epc)), after.value) == Ok(false)
  {
    assert Frame(epc, [1]) == [epc, 1, 1];
  }

  /** Controllers 1 and 2 are read back as 05ff01 and ff0105. */
  lemma StrideWitness()
    ensures var xs := [EOJ(0x05, 0xff, 0x01), EOJ(0x05, 0xff, 0x02)];
      ReadEojs(Flatten(xs), 1) == [EOJ(0x05, 0xff, 0x01), EOJ(0xff, 0x01, 0x05)]
  {
    var xs := [EOJ(0x05, 0xff, 0x01), EOJ(0x05, 0xff, 0x02)];
    var p := Flatten(xs);
    assert p[0] == 0x05 && p[1] == 0xff && p[2] == 0x01 && p[3] == 0x05;
  }
}
