/** No property built from the codecs of src/middleware/epc_types.rs panics when it is read, after
    any run of writes: every decoder can take what its validator lets through. */
module ReadSafety {
  import opened Bits
  import opened Outcomes
  import opened PropertyCell
  import IntegerProperty
  import HexProperties
  import UnwritableProperties
  import PackedDecimal
  import DurationProperty
  import MapProperty
  import EojList

  lemma EveryCodecIsSafe(epc: byte, k: IntegerProperty.Kind, validator: HexProperties.HexValidator,
                         yes: byte, no: byte, f: PackedDecimal.Constructed)
    ensures SafelyRead(IntegerProperty.IntegerCodec(k, epc), epc)
    ensures SafelyRead(HexProperties.HexCodec(epc, validator), epc)
    ensures SafelyRead(HexProperties.FaultCodec(epc), epc)
    ensures SafelyRead(UnwritableProperties.BooleanCodec(epc, yes, no), epc)
    ensures SafelyRead(PackedDecimal.PackedCodec(f, epc), epc)
    ensures SafelyRead(DurationProperty.DurationCodec(epc), epc)
    ensures SafelyRead(MapProperty.MapCodec(epc), epc)
    ensures SafelyRead(EojList.EojCodec(), epc)
  {
    FixedSizesAreSafe(epc, k, yes, no, f);
    HexStringsAreSafe(epc, validator);
    ListsAreSafe(epc);
  }

  lemma FixedSizesAreSafe(epc: byte, k: IntegerProperty.Kind, yes: byte, no: byte, f: PackedDecimal.Constructed)
    ensures SafelyRead(IntegerProperty.IntegerCodec(k, epc), epc)
    ensures SafelyRead(UnwritableProperties.BooleanCodec(epc, yes, no), epc)
    ensures SafelyRead(PackedDecimal.PackedCodec(f, epc), epc)
    ensures SafelyRead(DurationProperty.DurationCodec(epc), epc)
  {
  }

  lemma HexStringsAreSafe(epc: byte, validator: HexProperties.HexValidator)
    ensures SafelyRead(HexProperties.HexCodec(epc, validator), epc)
    ensures SafelyRead(HexProperties.FaultCodec(epc), epc)
  {
    forall payload ensures !HexProperties.DecodeHex(Frame(epc, payload)).Panic? {
      HexProperties.DecodeHexFrame(epc, payload);
    }
  }

  lemma ListsAreSafe(epc: byte)
    ensures SafelyRead(MapProperty.MapCodec(epc), epc)
    ensures SafelyRead(EojList.EojCodec(), epc)
  {
  }
}
