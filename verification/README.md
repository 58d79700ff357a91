# ECHONET Lite bridge: data codecs, property cells and listener selection

A Dafny model of three layers of the ECHONET Lite v1.14 bridge, with proofs about them.

* **Data structures with wire forms** (`src/middleware/api.rs`): the property map of EPC 0x9d, 0x9e
  and 0x9f (section 6.10.1 of Part 2 of the ECHONET Lite specification), a set of operation codes
  0x80..0xff held as eight 16-bit rows and a cached count; and `HexString`.
* **The property cell and its codecs** (`src/middleware/epc_types.rs`): a buffer `[epc, pdc, edt...]`
  (section 3.2.3 of Part 2) written through an encoder, a decoder and a validator; integers, hex
  strings, fault records, packed decimals, durations, property maps, object lists, and the
  properties whose validators let nothing through.
* **Interface scan and multicast selection** (`src/connectors/echonet.rs`): filtering, grouping by
  interface, choosing listeners, and network masks.

The model does what the code does. A panic (an index or slice out of range, a failed `unwrap`) is the
outcome `Panic`. Where the code does not meet its documentation or evident purpose, the model keeps the
code; a lemma states for all inputs exactly when the purpose is met, and a witness shows a failing input
(where no input succeeds, the lemma says so):

* A wire list that repeats a code is accepted and the repeated code counted again
  (`api.rs:819-825`). Counts may then exceed the number of codes, by at most 14; such a map is the only
  kind that does not survive the wire, and `disable_all` on one may claim a change that did not happen
  (`RunRoundTripsExactly`, `RunRepliesExactly`, `RepeatedCodeWitness`).
* The padding scan of `decode_into_slice` looks at digit `i + i` instead of `i + 1` (`api.rs:547`). For
  slices at least as long as the value it is right; shorter ones may lose a byte, panic, or refuse zero
  (`SliceSoundExactly` and three witnesses).
* `set` stores a buffer whose validator answers `Ok(false)` (`epc_types.rs:263`); `from_canonical` does not
  (`RunHistory`, `EojSetStoresAnything`, `SetWitness`).
* The object list decoder advances one byte an entry instead of three (`epc_types.rs:981`;
  `StrideOneInvertsExactly`, `StrideWitness`).
* The property map encoder leaves no room for the two header bytes (`epc_types.rs:918`), and the validator
  tests matching lengths (`epc_types.rs:925`): no map written from its canonical value is read back. Most
  are read as an error, some silently as another map: those with count 2 and fewer than two codes as the empty
  one, and those whose bitmap without its first byte spells a list of 14 codes as that list
  (`MapReadExactly`, `MapNeverReadBack`, `LostHeaderWitness`, `RepeatedCodeReadsEmpty`, `ReadAsAnotherMap`).
  Maps of 15 or more operations cannot be received (`MapReceiveExactly`, `FifteenCodesWitness`).
* The duration encoder slices past its seven-byte buffer (`epc_types.rs:862-873`): no duration can be written
  (`DurationNeverWritten`, `DurationWitness`).
* The fault record encoder right-aligns the manufacturer code in the whole tail (`epc_types.rs:1247`;
  `HexProperties.FaultRoundTripExactly`, `FaultWitness`).
* Packed decimals outside the declared range need not become an infinity (`epc_types.rs:665`, `684-687`): a
  value is rounded before it is compared, and the maximum is rounded up to a whole step. Values less than half
  a step below zero are stored as zero, values less than half a step above the rounded maximum as that
  maximum; 100.4 % is read back as 100 % (`InfinitiesExactly`, `SlackAboveMaximum`, `SlackWitness`).
* Boolean and identification number validators test the EPC byte, and the fault content validator reads the
  value being replaced (`epc_types.rs:398`, `1211-1213`, `1315`): these properties stay empty for ever
  (`BooleanWritableExactly`, `OperatingStatusWitness`, and three lemmas over every run).
* An instance count of 0xfffffe or more is refused; the test at `epc_types/tests.rs:76` expects a saturated
  one to be stored. The code is followed (`IntegerWriteThenRead`, `SaturatedCountWitness`).

`RepairedCodecs.dfy` and the second half of `DurationProperty.dfy` correct the slip of the hex scan and of
four codecs and prove the law each then satisfies; nothing else depends on them.

Files: `Bits` (words and bit matrices), `Outcomes`, `PropertyMapSpec` (maps as sets),
`NodeObjectPropertyMap` (the object), `PropertyMapRuns` (whole runs), `HexSpec`, `HexString`,
`PropertyCell`, `IntegerProperty`, `HexProperties`, `UnwritableProperties`, `PackedDecimal`,
`DurationProperty`, `MapProperty`, `EojList`, `ReadSafety` (reading never panics), `RepairedCodecs`,
`NetworkAddress`, `InterfaceScan`, `MulticastChoice`.

What the code reads from outside is a parameter: the clock (`now`), the interface list, the index of an
interface name, and the scope class of an address. Timestamps are arbitrary integers; a clock reading of 0
counts as "never written", as in the code.

## Model

| member | source | states |
|---|---|---|
| Bits.TransposeInvolution | src/middleware/api.rs:830-881 | reading rows as columns and columns as rows are inverse, for bit matrices of every shape |
| Bits.TransposeKeepsPopcount | src/middleware/api.rs:829-841 | a matrix and its transpose have the same number of set bits, so the row sum compared with the declared count is the number of bits on the wire |
| PropertyMapSpec.AscendingAll | src/middleware/api.rs:799-807 | the listed view is strictly ascending, holds exactly the enabled codes, one entry a code, and never more than 128 |
| PropertyMapSpec.CodeSetSize | src/middleware/api.rs:709-714 | the number of enabled operations is the number of set bits of the eight rows |
| PropertyMapSpec.CodeSetUpdate | src/middleware/api.rs:728-743 | setting or clearing the bit of an operation adds or removes exactly that operation |
| PropertyMapSpec.RowsDetermined | src/middleware/api.rs:709-714 | maps with the same operations have the same eight rows |
| PropertyMapSpec.RowsOfBitmap | src/middleware/api.rs:827-841 | rows read from a bitmap enable the operations it spells; row popcounts, column popcounts and the number of operations agree |
| PropertyMapSpec.BitmapReadBack | src/middleware/api.rs:874-881 | a set written as a bitmap is read back as itself, and its bits number the set |
| PropertyMapSpec.WireRoundTrip | src/middleware/api.rs:810-885 | across the switch at 16, a map survives decode and from_bytes exactly when its count is the number of its operations, and is otherwise refused; the wire form never exceeds 17 bytes |
| PropertyMapSpec.EncodeExactList | src/middleware/api.rs:856-869 | with an exact count below 16 the wire is the count and the listed view, strictly ascending |
| PropertyMapSpec.ParsedIsValid | src/middleware/api.rs:810-849 | an accepted wire gives a valid map, whose count is exact unless it is a list with a repeated code |
| PropertyMapSpec.BitmapWireIsCanonical | src/middleware/api.rs:827-885 | an accepted bitmap is written back byte for byte |
| PropertyMapSpec.ListWireIsSorted | src/middleware/api.rs:817-869 | an accepted list is written back as its ascending permutation exactly when it repeats no code; otherwise what is written back is refused |
| PropertyMapObject.NodeObjectPropertyMap.constructor | src/middleware/api.rs:717-719 | a new map is empty with count 0 |
| PropertyMapObject.NodeObjectPropertyMap.IsOperationEnabled | src/middleware/api.rs:779-796 | membership for codes from 0x80, an error below |
| PropertyMapObject.NodeObjectPropertyMap.EnableOperation | src/middleware/api.rs:726-734 | adds the code and counts it, true exactly when it was absent; an invalid code changes nothing; the invariant is kept |
| PropertyMapObject.NodeObjectPropertyMap.DisableOperation | src/middleware/api.rs:741-749 | removes the code, true exactly when it was present; the count never underflows |
| PropertyMapObject.NodeObjectPropertyMap.DisableAll | src/middleware/api.rs:755-763 | empties the map, true exactly when the count was positive |
| PropertyMapObject.NodeObjectPropertyMap.CopyFrom | src/middleware/api.rs:766-769 | takes over rows and count of the other map |
| PropertyMapObject.NodeObjectPropertyMap.AsOperationsList | src/middleware/api.rs:799-807 | the ascending list of exactly the enabled operations |
| PropertyMapObject.NodeObjectPropertyMap.Decode | src/middleware/api.rs:855-885 | the loops write the set-level wire form, list below 16 and bitmap from 16, without leaving the buffer |
| PropertyMapObject.NodeObjectPropertyMap.FromBytes | src/middleware/api.rs:810-849 | succeeds exactly on a list of its declared length with all codes from 0x80, or a 17-byte bitmap whose popcount is the declared count; the result enables exactly the codes of the wire |
| PropertyMapRuns.RunRefinesSets | src/middleware/api.rs:726-849 | in any interleaving of the operations over a pool of maps the codes are those of the mathematical sets, and every count lies between the number of codes and 14 more |
| PropertyMapRuns.RunIsExact | src/middleware/api.rs:726-849 | if no parsed list repeats a code, every count is the size of its set, at most 128, and every reply is true exactly when the set changed |
| PropertyMapRuns.RunRoundTripsExactly | src/middleware/api.rs:716-886 | after any run a slot survives the wire exactly when no repeated code has reached it since it last started afresh; otherwise its wire form is refused |
| PropertyMapRuns.FlagsAreInexact | src/middleware/api.rs:716-849 | the slots a repeated code has reached are exactly those whose count is not the number of codes |
| PropertyMapRuns.NoRepeatsNoFlags | src/middleware/api.rs:817-825 | without repeated codes there are none |
| PropertyMapRuns.RunRepliesExactly | src/middleware/api.rs:726-763 | in any run a reply differs from the mathematical one exactly when it answers disable_all on such a slot whose set is empty |
| PropertyMapRuns.RepliesDiffer | src/middleware/api.rs:726-763 | one reply differs from the mathematical one exactly for disable_all of an empty map with a positive count |
| PropertyMapRuns.RepeatedCodeWitness | src/middleware/api.rs:819-825 | the list 80 80 gives count 2 with one code, and leads to a false claim of change |
| PropertyMapRuns.Execute | src/middleware/api.rs:716-886 | objects put through any sequence of calls hold exactly the values and give the replies of the modelled run |
| PropertyMapRuns.DecodeThenParse | src/middleware/api.rs:810-885 | on objects: refused exactly when the count is not the number of operations, otherwise the same eight rows and count |
| HexStrings.New | src/middleware/api.rs:448-464 | accepts exactly the strings over the twenty-two hex digits, adds at most one leading 0, yields even length, keeps the number; otherwise InvalidCharacter |
| HexSpec.HexDigits | src/middleware/api.rs:449-453 | the characters accepted are 0 to 9, a to f and A to F |
| HexSpec.DigitTable | src/middleware/api.rs:557-569 | digit d of either case has value d |
| HexSpec.PrintedDigit | src/middleware/api.rs:499-502 | a digit is printed in lower case, which is what either case is lowered to |
| HexStrings.FromBytes | src/middleware/api.rs:475-506 | the loops compute the specified outcome for every buffer and length |
| HexStrings.FromBytesIsNumeric | src/middleware/api.rs:475-506 | fails exactly when the big-endian number needs more than len bytes, else 2 * len lower-case digits denoting the same number |
| HexStrings.DecodeIntoSlice | src/middleware/api.rs:539-570 | ends as the scan decides; fills the tail of the buffer right-aligned and zero-padded, or writes nothing |
| HexStrings.Decode | src/middleware/api.rs:509-513 | never fails; half as many bytes as digits, holding the same number |
| HexStrings.HexRoundTrips | src/middleware/api.rs:475-513 | bytes printed and decoded are the bytes; a hex string decoded and printed is its lower case |
| HexStrings.DocumentedIsNumeric | src/middleware/api.rs:525-538 | the documented result exists exactly when the number fits, and holds it |
| HexStrings.SliceSoundExactly | src/middleware/api.rs:541-556 | decode_into_slice does what is documented exactly under a condition on the digits and the length of the slice |
| HexStrings.ScanOutcome | src/middleware/api.rs:546-551 | where the scan stops or leaves the string, from the first digits other than 0 at even positions and at positions divisible by four |
| HexStrings.DroppedByteWitness | src/middleware/api.rs:546-551 | 0512 into one byte leaves 12 |
| HexStrings.PanicWitness | src/middleware/api.rs:546-551 | 0004 into one byte panics |
| HexStrings.RefusedZeroWitness | src/middleware/api.rs:545-554 | 00 into an empty slice is refused |
| PropertyCell.StaticNodeProperty.constructor | src/middleware/epc_types.rs:167-198 | a new cell is empty |
| PropertyCell.StaticNodeProperty.WriteCanonical | src/middleware/epc_types.rs:210-231 | stores the framed encoding exactly on Ok(true), otherwise leaves value and time alone |
| PropertyCell.StaticNodeProperty.WriteInternal | src/middleware/epc_types.rs:250-270 | stores the framed payload unless the validator errs, otherwise leaves value and time alone |
| PropertyCell.StaticNodeProperty.ReadCanonical | src/middleware/epc_types.rs:201-207 | NoValue before the first write, else the decoded buffer |
| PropertyCell.StaticNodeProperty.ReadInternal | src/middleware/epc_types.rs:237-245 | NoValue before the first write, else the payload; never out of range |
| PropertyCell.RunHistory | src/middleware/epc_types.rs:210-270 | after any calls the cell holds the framed payload and time of the last successful one, which the validator did not refuse, and accepted if canonical |
| PropertyCell.ReadsAfterRun | src/middleware/epc_types.rs:201-245 | reads answer NoValue exactly when no call succeeded (or its clock read 0), else that call's payload |
| PropertyCell.RunReplies | src/middleware/epc_types.rs:210-270 | every reply of a run: an encoder's error or panic, InvalidValue for less than two bytes, the validator's own error or panic, ValidationFailed exactly when it answers false on a canonical value, else success |
| PropertyCell.ReadsNeverPanic | src/middleware/epc_types.rs:201-245 | if the decoder can take what the validator lets through, no read panics after any run |
| ReadSafety.EveryCodecIsSafe | src/middleware/epc_types.rs:371-992 | this holds of the integer, hex, fault record, boolean, packed decimal, duration, property map and object list codecs |
| PropertyCell.CodecLifting | src/middleware/epc_types.rs:201-231 | a codec that decodes what it encodes, whatever the header, is read back through the cell |
| PropertyCell.NeverWritten | src/middleware/epc_types.rs:210-270 | a validator that lets nothing through while the cell is empty keeps it empty over every run |
| IntegerProperty.IntegerWriteThenRead | src/middleware/epc_types.rs:472-642 | for all four integer kinds a value is stored exactly below the sentinels, and read back; otherwise InvalidValue |
| IntegerProperty.IntegerReceive | src/middleware/epc_types.rs:605-642 | a payload is stored exactly when it has the size and is no sentinel, and is read as its number; otherwise InvalidValue |
| IntegerProperty.SentinelsAreLimit | src/middleware/epc_types.rs:487-582 | the sentinels are exactly the numbers from the limit up |
| IntegerProperty.SaturatedCountWitness | src/middleware/epc_types.rs:553-582 | instance count 0x01ffffff is encoded as ff ff ff and refused |
| HexProperties.HexWriteThenRead | src/middleware/epc_types.rs:407-428 | a stored hex string is read back in lower case, whatever the validator |
| HexProperties.HexReceive | src/middleware/epc_types.rs:425-427 | a stored payload is read as its own digits |
| HexProperties.CodeOfThreeBytes | src/middleware/epc_types.rs:1318-1335 | manufacturer and facility codes accept exactly three-byte values |
| HexProperties.EncodeFaultCode | src/middleware/epc_types.rs:1244-1252 | the two writes into one buffer give the specified outcome, with its panics and errors |
| HexProperties.FaultRoundTripExactly | src/middleware/epc_types.rs:1244-1267 | a record is stored and read back exactly when the manufacturer code has three bytes and the fault code is empty or the manufacturer code zero |
| HexProperties.FaultWitness | src/middleware/epc_types.rs:1244-1260 | record 000001, 2a is stored and read back as 000000, 2a |
| HexProperties.FaultReceive | src/middleware/epc_types.rs:1253-1267 | a payload is stored exactly from three bytes on, and read as the digits of the first three and of the rest |
| HexProperties.FaultWriteExactly | src/middleware/epc_types.rs:1244-1252 | how writing any record ends, and the bytes stored: a panic below three bytes in all, success from a manufacturer code of three bytes on, else as the fault code fits its slice |
| UnwritableProperties.BooleanWritableExactly | src/middleware/epc_types.rs:371-404 | a boolean can be written exactly when its EPC is one of its two data values |
| UnwritableProperties.BooleanReadBack | src/middleware/epc_types.rs:379-392 | such a boolean is read back, and a received byte is read as what it stands for or refused |
| UnwritableProperties.OperatingStatusWitness | src/middleware/epc_types.rs:1036-1045 | operating status on is refused from its canonical value and as data byte 30 |
| UnwritableProperties.FactoryBooleansNeverWritten | src/middleware/epc_types.rs:1036-1372 | operating status, fault status and power saving stay empty over every run |
| UnwritableProperties.IdentificationNeverWritten | src/middleware/epc_types.rs:1202-1218 | the identification number stays empty over every run |
| UnwritableProperties.IdentificationWritableExactly | src/middleware/epc_types.rs:1208-1218 | 15 bytes pass exactly when the EPC is fe, or, for a device, 00 or ff |
| UnwritableProperties.FaultContentWritableExactly | src/middleware/epc_types.rs:1312-1316 | two bytes pass exactly when the value they replace can be read; otherwise its error is returned |
| UnwritableProperties.FaultContentNeverWritten | src/middleware/epc_types.rs:1312-1316 | the fault content stays empty over every run, whatever its conversions do |
| PackedDecimal.PackedWriteThenRead | src/middleware/epc_types.rs:683-763 | every value but NaN is stored and read back as its quantized value; NaN is InvalidValue |
| PackedDecimal.InRangeWithinHalfStep | src/middleware/epc_types.rs:653-732 | every value from zero to the declared maximum is stored finite, within half a step of 10^-precision (WholeNumberSent and OnePlaceMore fix what a step is) |
| PackedDecimal.WholeNumberSent | src/middleware/epc_types.rs:683-695 | without decimal places a whole number in range is sent as itself |
| PackedDecimal.WholeNumberRead | src/middleware/epc_types.rs:708-731 | without decimal places a payload other than a sentinel is read as its number |
| PackedDecimal.OnePlaceMore | src/middleware/epc_types.rs:664-762 | with one more decimal place r is sent as 10 * r is without it, and a payload is read as a tenth; constructor and validator agree |
| PackedDecimal.ThreePlacesWitness | src/middleware/epc_types.rs:1227-1236 | cumulative consumption 1.0 is sent as 00 00 03 e8, and 00 00 00 01 is read as 0.001 |
| PackedDecimal.ConstructibleExactly | src/middleware/epc_types.rs:663-674 | the constructor accepts exactly maxima of at most 253, 65533 or 4294967293 steps |
| PackedDecimal.SentinelsSent | src/middleware/epc_types.rs:696-705 | the infinities are sent as the two largest numbers of the size |
| PackedDecimal.FiniteWithinHalfStep | src/middleware/epc_types.rs:683-732 | every value not sent to an infinity is stored within half a step |
| PackedDecimal.InfinitiesExactly | src/middleware/epc_types.rs:663-706 | a value becomes an infinity exactly from half a step below zero down or half a step above the rounded maximum up, also for a negative maximum |
| PackedDecimal.SlackAboveMaximum | src/middleware/epc_types.rs:665-687 | every format stores some value above its maximum as finite |
| PackedDecimal.SlackWitness | src/middleware/epc_types.rs:1269-1278 | 100.4 % is out of range and read back as 100 % |
| PackedDecimal.QuantizedMonotone | src/middleware/epc_types.rs:683-732 | storing and reading back keeps the order of the extended reals |
| PackedDecimal.SentinelsAreFree | src/middleware/epc_types.rs:663-674 | for every format the constructor lets through no value collides with a sentinel |
| PackedDecimal.PackedReceiveThenSend | src/middleware/epc_types.rs:708-763 | a payload is stored exactly when it has the size and is a value or a sentinel, and encoding what is read gives it back; otherwise InvalidValue for the size, ValueTooLarge for the value |
| DurationProperty.DurationNeverWritten | src/middleware/epc_types.rs:860-879 | writing any duration panics below 2^32 days and is refused from there on |
| DurationProperty.DurationWitness | src/middleware/epc_types.rs:860-879 | one second panics, 2^32 days are refused |
| DurationProperty.DurationReceive | src/middleware/epc_types.rs:880-900 | a payload is stored exactly with five bytes and a known unit, and read as that many seconds, minutes, hours or days; otherwise InvalidValue |
| DurationProperty.ChosenIsFinest | src/middleware/epc_types.rs:863-877 | the chosen unit is the finest whose truncated amount fits; none is chosen exactly when even days overflow |
| DurationProperty.RepairedRoundsDownExactly | src/middleware/epc_types.rs:860-889 | with a four-byte amount: stored exactly when days fit, and read back rounded down by less than a unit exactly when not negative |
| DurationProperty.RepairedNegative | src/middleware/epc_types.rs:860-889 | with a four-byte amount: a negative duration is read back as its seconds, truncated towards zero, modulo 2^32 |
| DurationProperty.RepairedFixedPoint | src/middleware/epc_types.rs:860-889 | with a four-byte amount: every unit and amount decodes, encodes and decodes to the same duration |
| MapProperty.MapReadExactly | src/middleware/epc_types.rs:905-931 | from_canonical accepts exactly counts from two; what is then read is the empty map exactly for count 2 with fewer than two codes, a list of 14 codes exactly when of the codes ending in 1 the map has 91, a1 and b1 and also has all of f2 to ff, and an error otherwise |
| MapProperty.MapNeverReadBack | src/middleware/epc_types.rs:905-931 | no accepted map is ever read back as itself |
| MapProperty.RepeatedCodeReadsEmpty | src/middleware/epc_types.rs:915-923 | the map parsed from 02 80 80 is accepted and read as the empty map |
| MapProperty.ReadAsAnotherMap | src/middleware/epc_types.rs:915-923 | the map of 91, a1, b1 and f2 to ff is accepted and read as that of 80 with count 14 |
| MapProperty.MapReceiveExactly | src/middleware/epc_types.rs:919-930 | a received wire form is stored exactly up to count 14, and then read as the map exactly when its count is exact |
| MapProperty.LostHeaderWitness | src/middleware/epc_types.rs:915-923 | the map of 80 and 81 is accepted and cannot be read |
| MapProperty.FifteenCodesWitness | src/middleware/epc_types.rs:924-929 | the wire form of 80 to 8e is refused |
| EojList.DecodeEojs | src/middleware/epc_types.rs:975-987 | the decoding loop takes entry i from offset i |
| EojList.StrideOneInvertsExactly | src/middleware/epc_types.rs:963-987 | a list is read back exactly when its bytes alternate after the first |
| EojList.EojWriteThenRead | src/middleware/epc_types.rs:953-992 | lists of any length are stored, three bytes an entry, also where the PDC saturates; read back exactly when they alternate |
| EojList.EojSetStoresAnything | src/middleware/epc_types.rs:250-270 | set stores every payload; the validator accepts exactly lengths divisible by three |
| EojList.SetWitness | src/middleware/epc_types.rs:250-270 | payload 01 is stored although the validator answers false |
| EojList.StrideWitness | src/middleware/epc_types.rs:980-981 | two controllers are read back as 05ff01 and ff0105 |
| RepairedCodecs.EojRoundTrip | src/middleware/epc_types.rs:953-992 | read with stride three, lists of any length come back whole |
| RepairedCodecs.MapRoundTripExactly | src/middleware/epc_types.rs:905-931 | with header room and the lengths of the wire forms, every map is stored, and read back exactly when its count is exact |
| RepairedCodecs.MapReceive | src/middleware/epc_types.rs:919-930 | with those lengths: a payload is stored exactly when its length is that of its declared count, and read as a map exactly when it is a wire form |
| RepairedCodecs.DecodeIntoSlice | src/middleware/api.rs:539-570 | with the scan looking at digit i + 1, the loops fill the slice or refuse as documented, for every value and length |
| RepairedCodecs.EncodeFaultCode | src/middleware/epc_types.rs:1244-1252 | with the manufacturer code in bytes 2..5, the two right-aligned writes do not overlap and leave the header alone |
| RepairedCodecs.FaultRoundTripExactly | src/middleware/epc_types.rs:1244-1267 | with the manufacturer code in bytes 2..5, a record is stored and read back in lower case exactly when that code has three bytes |
| RepairedCodecs.FaultWriteExactly | src/middleware/epc_types.rs:1244-1252 | with the manufacturer code in bytes 2..5: how writing any record ends, and the bytes stored |
| NetworkAddress.ToNetwork | src/connectors/echonet.rs:69-93 | within one family every bit is kept exactly where the mask has a one, with the port, flow information and scope of the address; mixed families are refused |
| NetworkAddress.NetworkExactly | src/connectors/echonet.rs:69-93 | an address and a mask of one family have exactly one such network, the one computed |
| NetworkAddress.NetworkRoundsDown | src/connectors/echonet.rs:69-93 | with a mask of p ones the network is the address rounded down to a multiple of 2^(32-p) or 2^(128-p) |
| NetworkAddress.PrefixMaskRoundsDown | src/connectors/echonet.rs:75-87 | a p-bit prefix mask rounds the address down to a multiple of 2^(8k-p), for any k |
| NetworkAddress.SameNetworkIffPrefixAgrees | src/connectors/echonet.rs:75-87 | two addresses have the same network exactly when their top p bits agree |
| NetworkAddress.MaskIdempotent | src/connectors/echonet.rs:75-87 | masking twice is masking once, for any mask |
| InterfaceScan.Scan | src/connectors/echonet.rs:194-279 | the filter and take, push, insert loop yields one group an interface with its sockets in scan order, or stops at the first entry that cannot be resolved, with an error if its name has no index and a panic otherwise; succeeds exactly when there is none |
| InterfaceScan.ResolvableExactly | src/connectors/echonet.rs:211-272 | an entry stops the scan exactly when it has an admissible address and its name has no index, or its netmask is missing or of another family |
| InterfaceScan.GroupsPartition | src/connectors/echonet.rs:211-279 | indexes name one group each, groups are not empty, and each socket stands for exactly one accepted entry of its own interface |
| InterfaceScan.EntryPlaced | src/connectors/echonet.rs:264-278 | every accepted entry is in the group of its index, at the place of its rank |
| InterfaceScan.RankOrdered | src/connectors/echonet.rs:277-278 | ranks within an interface follow the scan order |
| InterfaceScan.FiltersExactly | src/connectors/echonet.rs:211-251 | the filters let through exactly the addresses that are up, running, no loopback (127.0.0.0 to 127.255.255.255, or ::1), no skipped link, and on an interface configured for their family with its port, or port 3610 |
| InterfaceScan.GroupSocketsListen | src/connectors/echonet.rs:253-278 | every socket of a group listens for a scanned address of that interface, its network being the address's bits under the netmask |
| InterfaceScan.GroupNamed | src/connectors/echonet.rs:257-264 | a group bears the name of the first entry that is in it |
| InterfaceScan.AdmissibleIsListenedOn | src/connectors/echonet.rs:211-278 | every such address of an entry that does not stop the scan is listened on in the group of its interface |
| MulticastChoice.SortedIsStable | src/connectors/echonet.rs:308-329 | the sort by preference is an ordered permutation that leaves ties in place |
| MulticastChoice.ChosenIsFirstMinimal | src/connectors/echonet.rs:294-313 | a socket is chosen exactly when an eligible one exists, and is preferred to every other: link-local before private before global before others, with leads of 1000, 1000 and 2000 positions, else the earlier |
| MulticastChoice.PreferredByWeight | src/connectors/echonet.rs:299-308 | this preference, stated by class and position, is the order of the sums the code sorts by |
| MulticastChoice.EligibleByPreference | src/connectors/echonet.rs:299-307 | a capable socket of the family takes part exactly before position 999000, 998000, 997000 or 995000 |
| MulticastChoice.SelectMulticast | src/connectors/echonet.rs:291-334 | both passes over every interface mark exactly the chosen sockets |
| MulticastChoice.SelectionExactly | src/connectors/echonet.rs:292-333 | the second pass is not disturbed by the first; no other socket or field changes |
| MulticastChoice.OneListenerPerFamily | src/connectors/echonet.rs:281-334 | at most one listener of IPv4 and one of IPv6 an interface, a capable one, and one exactly when an eligible one exists |
| MulticastChoice.WeightedIsLexicographicExactly | src/connectors/echonet.rs:299-328 | the first by class and position is chosen exactly when every earlier eligible socket is earlier by less than the lead between the classes |
| MulticastChoice.SomeLexicographicFirst | src/connectors/echonet.rs:299-328 | whenever a socket is eligible one is the first by class and then by position |
| MulticastChoice.ThousandSocketsSuffice | src/connectors/echonet.rs:299-328 | with at most 1000 sockets a socket is chosen exactly when it is the first by class and then by position |
| MulticastChoice.ThousandAndOneWitness | src/connectors/echonet.rs:299-328 | with 1001 it can fail |
| MulticastChoice.Initialise | src/connectors/echonet.rs:194-363 | scan and selection together: one group for each interface of an accepted entry, its sockets in scan order with the listeners selected; succeeds exactly when every entry can be resolved, else ends with the error or panic of the first that cannot |
| MulticastChoice.InitialisedSocketsListen | src/connectors/echonet.rs:194-363 | after initialise every socket listens for an admissible scanned address |
| MulticastChoice.InitialisedIsListenedOn | src/connectors/echonet.rs:194-363 | after initialise every admissible scanned address has a socket listening for it in the group of its interface |
| MulticastChoice.InitialisedListeners | src/connectors/echonet.rs:194-363 | after initialise every interface has at most one listener of each family, and one exactly when a scanned socket is eligible |

## Left out

- Sockets, multicast join and leave, channels, signals, configuration parsing and logging: input and output.
- `src/connectors/wire.rs`: frames are built with raw pointers and their length and output are unfinished.
- Enumerated conversions (fault descriptions, installation locations, remote control, version bytes, time of day, dates): finite tables; the validator of the fault content is modelled, its conversion is a parameter.
- Names, access rules, announcement flags, property factory dispatch and downcasting: they do not affect the cell.
- Error texts: errors are distinguished by kind and EPC code only.
- PackedDecimal.PackedWriteThenRead: arithmetic is over the reals with infinities and NaN; the rounding of `f64` itself is not modelled.
- DurationProperty.RepairedRoundsDownExactly: a duration is an unbounded number of nanoseconds; the range limit of the calendar library is not modelled.
- MulticastChoice.ChosenIsFirstMinimal: the scope class of an address is any function into the four classes the code distinguishes; the address predicates behind it are not modelled.
- MulticastChoice.SelectMulticast: groups and sockets are values in sequences that the methods reassign; the shared borrow of the group vector is not modelled.
- MulticastChoice.SortedIsStable: the library sort is modelled by a stable insertion sort.
- InterfaceScan.Scan: the hash set is a set of groups with lookup and insertion by index; hashing is not modelled, nor interface names containing a zero byte.
- EojList.EojWriteThenRead: the encoder's raw copy of packed structs is modelled by the bytes it copies.
- PropertyCell.RunHistory: the runtime borrow checks of the cell are not modelled; no modelled call holds a borrow across a write.
