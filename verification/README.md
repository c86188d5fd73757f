# rszigbee verification

A Dafny model of the parts of a Zigbee stack whose correctness is not visible in
any single function: codecs that have to undo each other, indexes that have to
agree with a plain scan, and small protocols that have to hold over every run.
`dafny verify dfyconfig.toml` checks the whole project.

Each module follows one source file or component. Objects the source updates in
place are classes whose methods are proved against functions of the old state;
loops keep the source's loops; expressions and matches are functions. The laws
are lemmas about those functions, so each method carries them.

- **ZCL codec**: `Codec`, `ZclTypes`, `ZclFrame`, `ClusterRegistry`, `ZclEncode`,
  `ZclDecode`, `ZclReporting`, with the laws in `ZclValueRoundTrip` and
  `ZclRoundTrip`. The formats are those of the Zigbee Cluster Library, revision 8:
  sections 2.4.1 (frame), 2.5.3 (write attributes), 2.5.7 (configure reporting),
  2.5.11 (report attributes) and 2.6 (data types).
- **Tuya datapoints**: `TuyaWire` (format), `TuyaEngine` (table and behaviours),
  `Schedule` (thermostat schedules as text and bytes).
- **Definition index**: `Matcher`, `DefinitionIndex`.
- **Tables and protocols**: `Correlator`, `Inventory`, `Reachability`.
- **Persistence**: `FileStore` (journaled directory, crashes between system
  calls), `BackupId`, with `IeeeText` and `Text` for the names.
- **Deltas and plans**: `State`, `MqttState`, `ConfigurePlan`.
- **Vocabulary**: `Wrappers`, `Words` (bounded integers and their byte layouts),
  `Utf8`.

## What the code does that its comments do not say

Where the code and its comments differ, the model follows the code, and the exact
condition is proved:

- Cluster-id, attribute-id and time values read back as plain numbers and cannot
  be written under their own types; no value is canonical for them
  (`ZclValueRoundTrip.Canonical`).
- `configure_reporting` treats single-precision floats and times as analog, but the
  value codec cannot write their reportable change, so a record of those types
  always fails (`ZclReporting.SucceedsExactly`). A carbon-dioxide capability
  implies exactly such a record, so its plan step can never be sent
  (`ConfigurePlan.StepIsConfigured`), and its readings, being floats, are not
  understood either (`ConfigurePlan.ConfiguredReportsRead`).
- The comment on `configure_reporting` promises a reportable change for every analog
  attribute. Half and double precision are analog too, but read as unknown types, so
  their change is left out: a device takes two or eight bytes of the next record for
  it (`ZclReporting.WireWidthAgrees`, `ZclReporting.FloatTakesNext`,
  `ZclReporting.DoubleSwallowsNext`).
- The value codec's comment says that a value which does not match its type is
  refused so that a field of the wrong width is never written. Only numbers are
  checked: a boolean under a two-byte unsigned type, say, is accepted and writes one
  byte (`ZclValueRoundTrip.FillsWidthExactly`, `ZclValueRoundTrip.BooleanUnderNumber`).
  What was accepted so never reads back as itself (`ZclValueRoundTrip.WrittenReadsBack`).
- A signed minimum change is capped at 63 bits and then truncated to its field, so
  it reads back only if it fits as a positive number; and a type whose width no
  discriminator carries announces another width than it writes
  (`ZclReporting.RecordParses`, `ZclReporting.ReportingRoundTrip`). So a minimum change
  that a definition states may be configured as another (`ConfigurePlan.StepIsConfigured`).
- A text that does not fit the length field of a datapoint is cut, and with lossy
  repair a cut inside a replacement character goes unnoticed
  (`TuyaWire.RestoredTextReads`, `TuyaWire.ReplacementRestores`).
- Dropping a replaced registration deregisters its successor: the newest waiter
  stays resolvable only until any guard of its key is dropped
  (`Correlator.ResolvableExactly`, `Correlator.StaleGuardEvictsNewer`).
- A device that joins under an address another still holds takes over the reverse
  entry, and the other's departure erases it (`Inventory.ExactThroughout`,
  `Inventory.DepartureErasesAnother`).
- A definition with no models and whose fingerprints name none is accepted and can never be found
  (`DefinitionIndex.IndexedExactly`, `DefinitionIndex.UnindexedIsNeverFound`).
- The cluster-list comparison checks one direction only; a requirement that lists a
  cluster twice also accepts other lists (`Matcher.DuplicateRequirementAcceptsMore`).
  The comparison of endpoint numbers is of the same kind, though its comment promises
  equal sets: a fingerprint that requires endpoint 1 twice also matches a device with
  endpoints 1 and 2 (`Matcher.NumbersAreEqualExactly`).
- With a repeated endpoint number only the first endpoint of that number is looked
  at, so order shows exactly when those that come first differ in more than the order
  of their clusters (`Matcher.ToldApartExactly`, `DefinitionIndex.ResolutionIgnoresOrder`).
- A command reads back under the capability it addressed only if its datapoint number
  leads back to its table entry and the first name listed for the raw value sent still
  means what was asked (`TuyaEngine.ReadsBackExactly`).
- A temperature setpoint is rounded to a whole number before the table scales it, so
  fractions of a degree are lost whatever the divisor (`TuyaEngine.SetpointReadsBack`).
- A backup id whose adapter name has a hyphen is not parsed at all
  (`BackupId.IdRoundTrip`). Ids sort as the saves were made whenever the clock has
  moved within thirteen digits; within one millisecond a counter that grows a digit
  sorts later only if the smaller counter is at most the larger one's leading digits
  (`BackupId.OrderExactly`, `BackupId.CounterOverflowReorders`).
- An address text may start its digits with a plus sign (`IeeeText.ParsedDisplays`).
- Deleting a record does not fsync the directory, so a crash may undo a delete that
  had returned (`FileStore.DeleteUndone`); it is durable exactly when no version from
  before it had the record (`FileStore.DeleteIsDurable`), and along a run once a later
  write in the directory has finished (`FileStore.DeletedForGood`). An upsert that had
  returned always survives (`FileStore.CrashAnywhere`).
- Implied configure steps fall back to endpoint 1 without checking that the device
  has one (`ConfigurePlan.EndpointForHosts`, `ConfigurePlan.FallbackMayBeMissing`).
- A frame dated later than the wall clock makes a device unknown, with nothing
  scheduled, rather than reachable (`Reachability.HeardIsReachable`).

## Model

| member | source | states |
|---|---|---|
| Codec.Reader.Take | crates/rszigbee-spec/src/codec.rs:107-120 | takes exactly `n` bytes and moves past them, or reports the shortfall and does not move |
| Codec.Reader.UintLe | crates/rszigbee-spec/src/zcl/types.rs:352-363 | the byte-at-a-time accumulation is the little-endian number of the bytes, eight at most |
| Codec.Reader.OctStr | crates/rszigbee-spec/src/codec.rs:223-242 | length-prefixed bytes, 255 as "no value", a length beyond the buffer refused |
| Codec.Writer.UintLe | crates/rszigbee-spec/src/zcl/types.rs:365-375 | appends the value truncated to the width, least significant byte first |
| Codec.Writer.OctStr | crates/rszigbee-spec/src/codec.rs:364-381 | appends prefix and bytes, or refuses 255 bytes and more and appends nothing |
| Codec.UintLeReads | crates/rszigbee-spec/src/codec.rs:156-212 | an integer written little-endian anywhere in a buffer reads back and leaves the cursor after it, when it fits its width |
| Codec.OctStrReads | crates/rszigbee-spec/src/codec.rs:223-242 | a written octet string reads back from the middle of any buffer |
| Words.LeRoundTrip | crates/rszigbee-spec/src/zcl/types.rs:352-375 | bytes written and read back are the value modulo 256 to the width |
| Utf8.RoundTrip | crates/rszigbee-spec/src/codec.rs:244-258 | every text decodes from its UTF-8 bytes |
| Utf8.EncodeDecoded | crates/rszigbee-spec/src/codec.rs:244-258 | bytes that decode as text are that text's only encoding |
| ZclTypes.TagRoundTrip | crates/rszigbee-spec/src/zcl/types.rs:65-111 | every one of the 256 discriminators survives decoding to a type and back |
| ZclTypes.TypeRoundTrip | crates/rszigbee-spec/src/zcl/types.rs:65-111 | a type survives encoding as a discriminator if and only if its width is one the wire can carry |
| ZclTypes.DecodeValue | crates/rszigbee-spec/src/zcl/types.rs:215-297 | the cursor-moving decoder is the positional value function used by every law, cursor included |
| ZclTypes.EncodeValue | crates/rszigbee-spec/src/zcl/types.rs:299-350 | the writer gains exactly the value's bytes, or the value is refused |
| ZclTypes.WriteInvalid | crates/rszigbee-spec/src/zcl/types.rs:377-398 | the writer gains the type's "no value" pattern |
| ZclValueRoundTrip.ValueRoundTrip | crates/rszigbee-spec/src/zcl/types.rs:215-427 | for every type, value and tail: decoding the encoding gives the value back and leaves exactly the tail, if and only if the value is canonical for the type |
| ZclValueRoundTrip.SignRoundTrip | crates/rszigbee-spec/src/zcl/types.rs:410-428 | sign extension undoes truncation exactly on the two's-complement range of the width, and the reserved pattern is the lowest number for widths 1, 2 and 4 |
| ZclValueRoundTrip.AllOnesReads | crates/rszigbee-spec/src/zcl/types.rs:377-408 | the unsigned "invalid" bytes are recognised for widths 1 to 4 and no other |
| ZclValueRoundTrip.MostNegativeReads | crates/rszigbee-spec/src/zcl/types.rs:377-417 | the signed "invalid" bytes are recognised for widths 1, 2 and 4 and no other |
| ZclValueRoundTrip.SanitiseKeeps | crates/rszigbee-spec/src/zcl/types.rs:435-437 | a string is untouched exactly when it has no control character, and never has one afterwards |
| ZclValueRoundTrip.DecodedIsCanonical | crates/rszigbee-spec/src/zcl/types.rs:215-297 | whatever decodes under a type is canonical for it, if and only if the type is not a cluster id, attribute id or time |
| ZclValueRoundTrip.WrittenReadsBack | crates/rszigbee-spec/src/zcl/types.rs:215-350 | a value that was accepted and reads back as itself is canonical |
| ZclValueRoundTrip.FillsWidthExactly | crates/rszigbee-spec/src/zcl/types.rs:299-350 | an accepted value fills the width of its type if and only if it is a checked number or is as wide itself |
| ZclValueRoundTrip.BooleanUnderNumber | crates/rszigbee-spec/src/zcl/types.rs:302-305 | a boolean under any unsigned type is accepted and writes a single byte |
| ZclFrame.DecodeHeader | crates/rszigbee-spec/src/zcl/frame.rs:131-158 | the reader-moving header decoder is the positional header function |
| ZclFrame.EncodeHeader | crates/rszigbee-spec/src/zcl/frame.rs:161-180 | the writer gains exactly the header's bytes |
| ZclFrame.FrameRoundTrip | crates/rszigbee-spec/src/zcl/frame.rs:131-222 | a frame decodes from its bytes to itself if and only if its header is one a decoder can produce |
| ZclFrame.BytesRoundTrip | crates/rszigbee-spec/src/zcl/frame.rs:131-222 | every byte string that decodes re-encodes to the same bytes, reserved bits included |
| ZclFrame.FrameControlFields | crates/rszigbee-spec/src/zcl/frame.rs:161-180 | the five fields packed into the control byte come out by their shifts and masks |
| ClusterRegistry.Registry.InsertGlobal | crates/rszigbee-spec/src/zcl/registry.rs:215-222 | for every device and cluster, only lookups of that id by devices without their own definition change |
| ClusterRegistry.Registry.InsertForDevice | crates/rszigbee-spec/src/zcl/registry.rs:224-230 | a custom cluster is seen by its own device and by nobody else |
| ClusterRegistry.Registry.ClearDevice | crates/rszigbee-spec/src/zcl/registry.rs:232-235 | the device gets exactly the global view back and no other lookup changes |
| ZclEncode.Command | crates/rszigbee-core/src/runtime/encode.rs:112-182 | checks, refusals and payload loop give the specified frame for the cluster the registry resolves |
| ZclEncode.AttributeWrite | crates/rszigbee-core/src/runtime/encode.rs:185-224 | likewise for the write-attributes payload, record by record |
| ZclDecode.DecodeAttributes | crates/rszigbee-core/src/runtime/decode.rs:119-163 | the record loop terminates on any input, is the recursive record reading, and on success has consumed everything |
| ZclDecode.DecodeMessage | crates/rszigbee-core/src/runtime/decode.rs:37-112 | dispatch on frame type, command and direction, as a function of the resolved cluster |
| ZclDecode.DecodeParams | crates/rszigbee-core/src/runtime/decode.rs:78-91 | the parameter walk stops, without failing, where the payload runs out |
| ZclRoundTrip.CommandRoundTrip | crates/rszigbee-core/src/runtime/decode.rs:37-112 | every accepted command decodes to its command id and name; its parameters are exactly the declared ones in declaration order, each the first value of its name, if and only if each value is carried losslessly by its declared type |
| ZclRoundTrip.CanonicalIsCarried | crates/rszigbee-core/src/runtime/encode.rs:154-169 | canonical values with only the last type unmodelled are carried |
| ZclRoundTrip.CommandIgnoresOrder | crates/rszigbee-core/src/runtime/encode.rs:139-169 | reordering a request with distinct names gives the same bytes, or a refusal both times |
| ZclRoundTrip.AttributeWriteRoundTrip | crates/rszigbee-core/src/runtime/encode.rs:185-224 | the frame is a write-attributes command, and the record loop reads its payload back as the same list with nothing left over if each value is carried losslessly as its registered type is sent, and, for types a discriminator denotes, only then |
| ZclRoundTrip.CanonicalAttributesEncode | crates/rszigbee-core/src/runtime/encode.rs:196-212 | attributes the registry knows, with canonical values, are never refused |
| ZclRoundTrip.AcceptedTiles | crates/rszigbee-core/src/runtime/decode.rs:119-163 | whatever the bytes, acceptance means the records exactly tile the payload, and the result is what the tiling cuts out |
| ZclRoundTrip.TilesAccepted | crates/rszigbee-core/src/runtime/decode.rs:119-163 | conversely every payload that can be tiled is accepted with those values |
| ZclReporting.ConfigureReporting | crates/rszigbee-core/src/runtime/encode.rs:254-285 | the loop gives the header followed by the records' bytes, or the first refusal |
| ZclReporting.SucceedsExactly | crates/rszigbee-core/src/runtime/encode.rs:254-297 | succeeds if and only if no record is of type single or time |
| ZclReporting.RecordParses | crates/rszigbee-core/src/runtime/encode.rs:264-279 | for every type, floats of all three precisions included: a receiver following section 2.5.7 reads a record as it was asked and leaves what follows, if and only if the discriminator announces the width written and the change fits it |
| ZclReporting.WireWidthAgrees | crates/rszigbee-core/src/runtime/encode.rs:264-297 | for every type a discriminator denotes, the width announced is the one written if and only if the type is not a float of any precision or a time |
| ZclReporting.FloatTakesNext | crates/rszigbee-core/src/runtime/encode.rs:287-297 | a record of half or double precision is sent without its change, which a receiver takes out of whatever follows; with too little following, the command is unreadable |
| ZclReporting.DoubleSwallowsNext | crates/rszigbee-core/src/runtime/encode.rs:287-297 | behind a double-precision record the next one is lost whole as the change, or, with a change of its own, ruins the command |
| ZclReporting.OneRecord | crates/rszigbee-core/src/runtime/encode.rs:254-285 | a command of one record of any type is read as asked if and only if the record is so readable |
| ZclReporting.ReadInStep | crates/rszigbee-core/src/runtime/encode.rs:264-279 | every record of a command is read from its own bytes if and only if every record is so readable |
| ZclReporting.ReportingRoundTrip | crates/rszigbee-core/src/runtime/encode.rs:254-297 | such a receiver recovers all records in order, with a change exactly for integer types, when every record is readable, and, leaving aside signed integers of no bytes, only then |
| TuyaWire.Decode | crates/rszigbee-spec/src/tuya.rs:187-212 | the datapoint loop terminates on any payload and is the recursive reading; fewer than four bytes left are padding |
| TuyaWire.Encode | crates/rszigbee-spec/src/tuya.rs:251-269 | the loop appends every datapoint's bytes in order |
| TuyaWire.PointReads | crates/rszigbee-spec/src/tuya.rs:215-284 | a datapoint that fits its length field reads back from the middle of any buffer |
| TuyaWire.EncodedDecodes | crates/rszigbee-spec/src/tuya.rs:187-284 | decoding an encoding gives the same sequence number and list if and only if every payload is at most 65535 bytes, for every list no text of which the repair restores |
| TuyaWire.RestoredTextReads | crates/rszigbee-spec/src/tuya.rs:215-284 | a text the repair restores comes back although it is cut, if and only if fewer than four bytes are left over of it |
| TuyaWire.ReplacementRestores | crates/rszigbee-spec/src/tuya.rs:233-233 | a text of 65537 bytes ending in a replacement character is such a text |
| TuyaWire.DecodedFits | crates/rszigbee-spec/src/tuya.rs:187-247 | whatever a decoder produced from valid text fits the length field again |
| TuyaWire.DecodeIsStable | crates/rszigbee-spec/src/tuya.rs:187-284 | re-encoding and decoding a decodable payload changes nothing, despite widened bitmaps, unknown types kept raw and dropped padding |
| TuyaEngine.DatapointsToState | crates/rszigbee-core/src/runtime/tuya.rs:38-79 | the delta is the merge, in order, of what each datapoint's first table entry makes of it |
| TuyaEngine.CommandViaBehavior | crates/rszigbee-core/src/runtime/tuya.rs:86-113 | the answer is that of the first behaviour the table names which claims the command |
| TuyaEngine.NumberIsExact | crates/rszigbee-core/src/runtime/tuya.rs:254-260 | a number is accepted exactly when the unbounded product fits 32 bits, and then scales back to itself: saturation never reaches the wire |
| TuyaEngine.ConvertUndoesEncode | crates/rszigbee-core/src/runtime/tuya.rs:121-278 | the converter of the same entry turns an encoded intent back into the intent if and only if the raw value sent still means it |
| TuyaEngine.ReadsBackExactly | crates/rszigbee-core/src/runtime/tuya.rs:38-278 | for every table, a command it accepts is reported as exactly the change asked for if and only if its datapoint number leads back to its entry and its raw value still means the intent; under no behaviours, the shipped ones and any that report only their own capability |
| TuyaEngine.BuiltinsKeepToTheirOwn | crates/rszigbee-core/src/runtime/behaviors.rs:50-85 | the shipped behaviour reports only under the capability it was handed |
| TuyaEngine.UnambiguousReports | crates/rszigbee-core/src/runtime/tuya.rs:189-278 | distinct datapoint numbers and distinct raw values are enough for every command |
| TuyaEngine.CommandReadsBack | crates/rszigbee-core/src/runtime/tuya.rs:189-278 | under any behaviours such a command, through the wire and back, is exactly one change: its capability with the value asked for |
| TuyaEngine.SetpointReadsBack | crates/rszigbee-core/src/runtime/tuya.rs:224-248 | a setpoint reads back as the temperature asked for if and only if that is a whole number in range |
| TuyaEngine.DuplicateNumberMisreads | crates/rszigbee-core/src/runtime/tuya.rs:46-48 | an earlier entry with the same number takes the report of an on/off command under its own name |
| TuyaEngine.DuplicateRawMisreads | crates/rszigbee-core/src/runtime/tuya.rs:146-154 | an earlier name for the same raw value is reported instead of the one asked for |
| TuyaEngine.ScheduleReadsBack | crates/rszigbee-core/src/runtime/behaviors.rs:50-120 | a schedule sent through the shipped behaviour is reported under its own capability as text of the same schedule, if and only if its datapoint number leads back to its entry |
| TuyaEngine.ScheduleCrossesTheWire | crates/rszigbee-spec/src/tuya.rs:187-284 | the wire carries that schedule unchanged if and only if it fits the length field |
| Schedule.DecodeSchedule | crates/rszigbee-core/src/runtime/behaviors.rs:146-174 | one word per transition, or nothing when the length or any time is impossible |
| Schedule.EncodeSchedule | crates/rszigbee-core/src/runtime/behaviors.rs:181-212 | the day byte and four bytes per word, or nothing when any word is refused or there is none |
| Schedule.TransitionParses | crates/rszigbee-core/src/runtime/behaviors.rs:160-212 | a printed transition parses to itself exactly when its temperature is within 5.0 to 35.0 |
| Schedule.BytesRoundTrip | crates/rszigbee-core/src/runtime/behaviors.rs:146-212 | packing the text of a payload gives the payload back if every temperature is in range, and refuses it otherwise |
| Schedule.TextRoundTrip | crates/rszigbee-core/src/runtime/behaviors.rs:146-212 | every accepted text has a canonical text that packs to the same bytes |
| Schedule.EncodesExactly | crates/rszigbee-core/src/runtime/behaviors.rs:181-212 | one word out of range refuses the whole text, and nothing else does |
| Schedule.WordQuadInRange | crates/rszigbee-core/src/runtime/behaviors.rs:186-203 | an accepted word has hour at most 24, minute at most 59 and 50 to 350 tenths |
| Matcher.SetEqualIsPermutation | crates/rszigbee-devices/src/matcher.rs:387-389 | for a duplicate-free requirement, equal length and one-way containment is equality up to order |
| Matcher.DuplicateRequirementAcceptsMore | crates/rszigbee-devices/src/matcher.rs:382-389 | any requirement with a duplicate also accepts a list with something it does not name |
| Matcher.EndpointsMatchExactly | crates/rszigbee-devices/src/matcher.rs:336-379 | the two loops are a one-way comparison of the endpoint numbers and a check of the first endpoint of each required one |
| Matcher.NumbersAreEqualExactly | crates/rszigbee-devices/src/matcher.rs:341-351 | everything a satisfiable fingerprint matches has exactly the endpoint numbers required, if and only if no number is required twice or none is left out |
| Matcher.DistinctNumbersAreAll | crates/rszigbee-devices/src/matcher.rs:341-351 | distinct required numbers are the device's endpoint numbers, each once |
| Matcher.RepeatedNumberMatchesMore | crates/rszigbee-devices/src/matcher.rs:341-351 | a fingerprint that repeats a number and matches a device also matches one with any number it does not require |
| Matcher.ToldApartExactly | crates/rszigbee-devices/src/matcher.rs:283-389 | no fingerprint tells two listings of a device's endpoints apart if and only if there are as many of them and the first endpoint of each number is alike |
| Matcher.ClusterOrderIsIgnored | crates/rszigbee-devices/src/matcher.rs:283-389 | reordering cluster lists leaves a device indistinct from itself |
| Matcher.EndpointOrderIsIgnored | crates/rszigbee-devices/src/matcher.rs:336-379 | so does reordering endpoints, when their numbers are distinct |
| Matcher.RepeatedNumberShowsOrder | crates/rszigbee-devices/src/matcher.rs:353-356 | with a repeated endpoint number the order decides some match if and only if the two endpoints are not alike |
| DefinitionIndex.Index.Insert | crates/rszigbee-devices/src/index.rs:114-171 | refuses exactly the unreachable and the unconstrained; afterwards every bucket is again exactly the positions having its key, newest first, each once |
| DefinitionIndex.PositionsAre | crates/rszigbee-devices/src/index.rs:158-168 | a bucket holds a position if and only if that definition has the key, in strictly descending order |
| DefinitionIndex.Index.Candidates | crates/rszigbee-devices/src/index.rs:242-248 | the candidates are all definitions having the exact key, else the normalised one |
| DefinitionIndex.Index.Resolve | crates/rszigbee-devices/src/index.rs:180-239 | the answer is what the rule picks over the plain list: a sole candidate with models, else the best fingerprint with ties to the newest, else the newest listing, else none |
| DefinitionIndex.ResolutionIsUnique | crates/rszigbee-devices/src/index.rs:180-239 | the rule admits one answer only, so the index and a linear scan cannot differ |
| DefinitionIndex.IndexedExactly | crates/rszigbee-devices/src/index.rs:142-154 | a definition is under some key if and only if it has a model or a fingerprint with one |
| DefinitionIndex.UnindexedIsNeverFound | crates/rszigbee-devices/src/index.rs:116-171 | one that is under no key is never the answer, for any device and catalogue |
| DefinitionIndex.ResolutionIgnoresOrder | crates/rszigbee-devices/src/index.rs:180-239 | two listings of a device's endpoints get the same answer from every catalogue if and only if no fingerprint tells them apart |
| Correlator.Registry.RegisterKey | crates/rszigbee-adapter/src/correlator.rs:55-65 | the register step of the state machine |
| Correlator.Registry.TakeSender | crates/rszigbee-adapter/src/correlator.rs:72-78 | the locked half of a resolve; with nobody registered the value is handed back |
| Correlator.Registry.SendValue | crates/rszigbee-adapter/src/correlator.rs:72-78 | the unlocked half; a receiver that is gone hands the value back |
| Correlator.Registry.Remove | crates/rszigbee-adapter/src/correlator.rs:129-133 | dropping a guard removes its key, whoever is registered under it |
| Correlator.Registry.FinishWait | crates/rszigbee-adapter/src/correlator.rs:121-126 | a wait ends with the value sent to it, or cancelled when its sender is gone |
| Correlator.Reachable | crates/rszigbee-adapter/src/correlator.rs:55-133 | the invariant holds after every interleaving of register, take, send, receive, cancel and drop |
| Correlator.NothingLeaks | crates/rszigbee-adapter/src/correlator.rs:55-92 | every entry belongs to a live guard, the newest registration of its key; with no guards nothing is pending |
| Correlator.NothingMisrouted | crates/rszigbee-adapter/src/correlator.rs:72-78 | a value received was sent by exactly one resolve, under the waiter's own key, with no later registration of that key before it |
| Correlator.ReceivedOnce | crates/rszigbee-adapter/src/correlator.rs:121-126 | a waiter receives at most one value, and keeps it |
| Correlator.OutcomesAreFinal | crates/rszigbee-adapter/src/correlator.rs:72-78 | a resolve is sent once or handed back, for good |
| Correlator.CallsCountResolves | crates/rszigbee-adapter/src/correlator.rs:72-78 | there is one call per resolve, none lost and none invented |
| Correlator.CancelledWasDisplaced | crates/rszigbee-adapter/src/correlator.rs:49-92 | a waiter is cancelled only if, after it registered, its key was registered again or some guard of it was dropped |
| Correlator.ResolvableExactly | crates/rszigbee-adapter/src/correlator.rs:55-133 | a key can be resolved if and only if its last registration is later than every resolve of it and every drop of any of its guards |
| Correlator.StaleGuardEvictsNewer | crates/rszigbee-adapter/src/correlator.rs:129-133 | dropping a replaced registration leaves the newer waiter unreachable |
| Inventory.Inventory.InsertEntry | crates/rszigbee-core/src/runtime/inventory.rs:87-98 | both maps after an insert |
| Inventory.Inventory.SetAddress | crates/rszigbee-core/src/runtime/inventory.rs:104-114 | both maps after an address change, and the previous address only for a real change |
| Inventory.Inventory.RemoveDevice | crates/rszigbee-core/src/runtime/inventory.rs:117-121 | both maps after a departure, and the departed entry |
| Inventory.AlwaysSound | crates/rszigbee-core/src/runtime/inventory.rs:72-121 | after any run, every reverse entry points to a stored device whose current short address is that key, and no device has two |
| Inventory.ExactStep | crates/rszigbee-core/src/runtime/inventory.rs:87-121 | from an exact index, one operation leaves it exact if and only if the address it claims was free of other devices |
| Inventory.ExactRun | crates/rszigbee-core/src/runtime/inventory.rs:87-121 | when every claim was free, the reverse index is exactly the inverse of the table after any run |
| Inventory.ExactThroughout | crates/rszigbee-core/src/runtime/inventory.rs:87-121 | the reverse index is the exact inverse after every prefix of a run if and only if every claim was free when it was made |
| Inventory.DepartureErasesAnother | crates/rszigbee-core/src/runtime/inventory.rs:117-121 | otherwise a departing device can erase the entry of the one that holds the address |
| Reachability.Task.AssessDevice | crates/rszigbee-core/src/runtime/task/availability.rs:50-74 | under any policy, the device gets its verdict and schedule, and a change is announced exactly when the verdict differs |
| Reachability.Task.Touch | crates/rszigbee-core/src/runtime/task/availability.rs:21-29 | a received frame is that device's traffic step and touches no other device |
| Reachability.Task.RecordTx | crates/rszigbee-core/src/runtime/task/availability.rs:31-47 | a transmit result is that device's transmit step and touches no other device |
| Reachability.Task.FinishProbe | crates/rszigbee-core/src/runtime/task/availability.rs:130-143 | a probe outcome is recorded and judged, and no other device is touched |
| Reachability.Task.CheckDue | crates/rszigbee-core/src/runtime/task/availability.rs:89-99 | a due device is probed if a probe was scheduled and reassessed on its silence if not |
| Reachability.Task.RunDue | crates/rszigbee-core/src/runtime/task/availability.rs:77-100 | every device takes its timer step: the ones due at the one reading of the clock are visited, each with its own later readings, and the rest are unchanged |
| Reachability.JudgedExactly | crates/rszigbee-core/src/reachability.rs:220-246 | in every run under the default policy the belief is exactly what the silence says when last judged, a reachable device, and no other, has a reassessment at exactly last-seen plus the limit, and no probe is scheduled |
| Reachability.HeardIsReachable | crates/rszigbee-core/src/reachability.rs:105-112 | hearing a device makes it reachable exactly when the frame is neither older than the limit nor dated in the future |
| Reachability.ChangesChain | crates/rszigbee-core/src/runtime/task/availability.rs:50-74 | under any policy the changes announced in a run chain from unknown to the current belief, none from a state to itself |
| Reachability.CounterIsExact | crates/rszigbee-core/src/reachability.rs:110-132 | under any policy the failure counter is the number of failed timer probes since the last answer or traffic, saturating |
| FileStore.Directory.WriteAtomic | crates/rszigbee-core/src/store/file.rs:332-357 | goes through exactly the five calls of an upsert and leaves the map with that record as the only state a crash can bring back |
| FileStore.Directory.RemoveIfPresent | crates/rszigbee-core/src/store/file.rs:359-371 | the map without the key, whether or not it was there |
| FileStore.Directory.LoadFile | crates/rszigbee-core/src/store/file.rs:156-163 | a record that parses is returned; one that does not is set aside by one rename, and the map is unchanged |
| FileStore.Directory.LoadDir | crates/rszigbee-core/src/store/file.rs:130-165 | goes through the renames of a load, returns every parseable record once and nothing else, ignoring temporary and set-aside files, and leaves no unparseable record file |
| FileStore.Recover | crates/rszigbee-core/src/store/file.rs:130-165 | mounting and loading what a crash left gives exactly the records of one version from before the operation or of the state it was making |
| FileStore.OpHolds | crates/rszigbee-core/src/store/file.rs:332-387 | between any two calls of a write, delete or load every version of the directory is an earlier one or the state being made; a finished upsert leaves just that one |
| FileStore.CrashAnywhere | crates/rszigbee-core/src/store/file.rs:328-387 | wherever a crash strikes, the directory reads as one earlier version or as the state being made, never a mixture; a finished upsert survives |
| FileStore.FoundOnce | crates/rszigbee-core/src/store/file.rs:328-343 | the map that is found is unique |
| FileStore.EveryRunRefines | crates/rszigbee-core/src/store.rs:483-513 | every run of writes, deletes and loads with crashes anywhere, from any disk, is a run of the in-memory map: finished operations are the map operations, a crash keeps one version |
| FileStore.DeleteUndone | crates/rszigbee-core/src/store/file.rs:359-371 | after a delete has returned, a crash can still bring back any version from before it |
| FileStore.GoneExactly | crates/rszigbee-core/src/store/file.rs:359-371 | every crash leaves a key without a record if and only if no version has it |
| FileStore.DeleteIsDurable | crates/rszigbee-core/src/store/file.rs:359-371 | a returned delete is durable if and only if no version from before it had the record |
| FileStore.DeletedForGood | crates/rszigbee-core/src/store/file.rs:346-371 | along a run a delete is durable once a later upsert in the directory has finished, until the key is written again |
| FileStore.WithoutSyncTorn | crates/rszigbee-core/src/store/file.rs:328-343 | without the fsync before the rename a crash can leave junk in place of the record |
| BackupId.ListBackups | crates/rszigbee-core/src/store/file.rs:232-267 | the ids that parse, each once, in descending text order |
| BackupId.IdRoundTrip | crates/rszigbee-core/src/store/file.rs:296-308 | the id of every save parses to its time, adapter and coordinator if and only if the adapter has no hyphen |
| BackupId.OrderExactly | crates/rszigbee-core/src/store/file.rs:418-427 | for any two saves of one process, the later one has the greater id if and only if the padding of clock or counter keeps their order, and the smaller one otherwise; their ids always differ |
| BackupId.LaterIsGreater | crates/rszigbee-core/src/store/file.rs:418-427 | within 13 digits of clock a later save has a greater id whenever the clock has moved, and within one millisecond up to four digits of counter |
| BackupId.ListingIsHistory | crates/rszigbee-core/src/store/file.rs:215-308 | a listing is the history of the saves it recognises, newest first, every field recovered, whatever order the directory gives, if and only if their ids are in order |
| BackupId.CounterOverflowReorders | crates/rszigbee-core/src/store/file.rs:425-426 | within one millisecond a counter of five digits sorts before one of four if and only if its leading four digits are less |
| IeeeText.DisplayParses | crates/rszigbee-spec/src/ids.rs:65-83 | every address parses back from its text, which is 18 characters without a hyphen |
| IeeeText.ParsedDisplays | crates/rszigbee-spec/src/ids.rs:65-83 | what parses is shown as its own lower-case digits if and only if they do not start with a plus sign |
| State.StateChanges.Set | crates/rszigbee-core/src/state.rs:122-130 | replaces in place or appends |
| State.StateChanges.Merge | crates/rszigbee-core/src/state.rs:163-167 | the entries of the other delta set in order |
| State.StateChanges.Prioritise | crates/rszigbee-core/src/state.rs:173-182 | listed entries first or last, each side in its order |
| State.StateSnapshot.Apply | crates/rszigbee-core/src/state.rs:217-226 | the snapshot after the delta and the ids reported as changed |
| State.BuiltInFirstInsertionOrder | crates/rszigbee-core/src/state.rs:122-130 | whatever was set, each id appears once, where it was first inserted |
| State.GetAfterSet | crates/rszigbee-core/src/state.rs:122-143 | a lookup after a set sees the new value under that id and the old one under any other |
| State.MergeThenApply | crates/rszigbee-core/src/state.rs:163-226 | applying a merged delta is applying one delta and then the other |
| State.AppliedIs | crates/rszigbee-core/src/state.rs:217-226 | a delta changes exactly its ids, to its values |
| State.UpdatedIsExact | crates/rszigbee-core/src/state.rs:217-226 | the ids returned are exactly those whose value is now different, each once |
| State.PrioritiseIsStable | crates/rszigbee-core/src/state.rs:173-182 | a stable, idempotent permutation |
| State.PrioritiseKeepsGet | crates/rszigbee-core/src/state.rs:141-182 | no lookup can tell that a delta was reordered |
| MqttState.DeviceState.Apply | crates/rszigbee-mqtt/src/state.rs:45-61 | the fields after rendering the delta into them, published whole |
| MqttState.StateStore.Translate | crates/rszigbee-mqtt/src/state.rs:197-208 | only the device concerned changes, and its whole state is published |
| MqttState.ChangedIdsSuffice | crates/rszigbee-mqtt/src/state.rs:45-61 | feeding only the changed ids gives the same published state |
| MqttState.StoreMirrorsCore | crates/rszigbee-mqtt/src/state.rs:197-208 | after any run of deltas to any devices, each published state is the pointwise rendering of that device's own snapshot |
| ConfigurePlan.CollectSources | crates/rszigbee-core/src/runtime/definitions/sources.rs:66-118 | the sources of each helper, in order |
| ConfigurePlan.Build | crates/rszigbee-core/src/runtime/definitions/configure.rs:54-129 | the loops with their seen set give the flattened explicit bindings followed by a step for each source that asks for something new |
| ConfigurePlan.ExplicitExactly | crates/rszigbee-core/src/runtime/definitions/configure.rs:62-97 | a step is explicit if and only if a binding the device can host states it, with the intervals it states |
| ConfigurePlan.ImpliedExactly | crates/rszigbee-core/src/runtime/definitions/configure.rs:108-127 | a step is implied if and only if some source asks for it and neither a binding nor an earlier source did |
| ConfigurePlan.ImpliedKeys | crates/rszigbee-core/src/runtime/definitions/configure.rs:98-127 | implied keys are pairwise distinct, disjoint from the explicit ones, and with them are all the keys the sources ask for |
| ConfigurePlan.PlanCovers | crates/rszigbee-core/src/runtime/definitions/configure.rs:102-128 | every source the definition implies has a step, at the endpoint chosen for its cluster |
| ConfigurePlan.EndpointForHosts | crates/rszigbee-core/src/runtime/definitions/configure.rs:109-111 | the chosen endpoint hosts the cluster if and only if some endpoint does, and exists if and only if that or endpoint 1 does |
| ConfigurePlan.FallbackMayBeMissing | crates/rszigbee-core/src/runtime/definitions/configure.rs:109-111 | for any cluster there is a device whose chosen endpoint it does not have |
| ConfigurePlan.TypesAgree | crates/rszigbee-core/src/runtime/definitions/configure.rs:84-121 | the wire type of every step is the one the inbound side reads that attribute with |
| ConfigurePlan.SinglesAreCo2 | crates/rszigbee-core/src/runtime/definitions/sources.rs:156-210 | carbon dioxide, and nothing else, implies a single-precision source |
| ConfigurePlan.StepIsConfigured | crates/rszigbee-core/src/runtime/task/provisioning.rs:198-226 | any step, explicit or implied, with the plan's type or else the registry's, can be sent if and only if the type is not single precision or a time; a device following section 2.5.7 then configures what it says if and only if the record is readable, which for the plan's own types is that the minimum change fits |
| ConfigurePlan.ImpliedIsConfigured | crates/rszigbee-core/src/runtime/task/provisioning.rs:198-226 | an implied step is configured as it says whenever it can be sent |
| ConfigurePlan.ConfiguredReportsRead | crates/rszigbee-core/src/runtime/definitions/sources.rs:228-276 | a report of the configured type is understood unless it is a float or an unnamed enumeration value, and "no reading" gives an empty reading |

## Left out

- The Ember adapter, serial port, EZSP session, MQTT broker client, channels and the runtime main loop: plumbing over libraries not modelled here.
- JSON, serde and payload text: a record stands for its serialised form, and anything unparseable is junk.
- Floating-point rounding: `f64` scaling and one-decimal temperatures are exact reals, and NaN and infinities are left out of them; a 32-bit float on the wire is its bit pattern with a NaN test.
- Lossy UTF-8 repair of Tuya text: any function from bytes to text.
- ZclReporting.ReportingRoundTrip: its second half leaves aside lists with a signed integer of no bytes, whose missing change field is read out of the next record; `ZclReporting.ReadInStep` covers them.
- Unicode case folding and trimming of model strings: ASCII letters, and the white space of `Text.IsWhitespace`.
- ZclRoundTrip.AttributeWriteRoundTrip: for a registered type that no discriminator denotes, which values are read back by accident beyond those carried; types read from a discriminator, as those of custom clusters are, are never such.
- TuyaEngine.DatapointsToState: bitmap names with a bit index of 32 or more shift modulo 32, as a build without overflow checks does; a checked build stops instead.
- Reachability.Task.RunDue: takes due devices in any order; a policy sees a device's address, facts and the clocks, and what else the source shows it about the device stays fixed.
- Reachability.JudgedExactly: assumes that both clocks advance together, and that no frame is dated later than it is recorded.
- FileStore: I/O errors, a directory fsync that fails silently, the network file, schema marker, permissions and path filtering are not modelled; directory changes reach the disk in order.
- BackupId.OrderExactly: one process, a clock that does not go back; the counter restarts with the process.
- Correlator: a poisoned lock, and the already-consumed error of a wait, which a caller cannot reach because waiting consumes the guard.
- ConfigurePlan: the binding requests of an executed plan, action names of received commands and custom cluster tables.
- DefinitionIndex.Index.AddPosition: takes the keys as a set, which is what sorting and removing duplicates leaves; the order of keys has no effect on the buckets.
- Commands for brightness in mireds, percent conversions, fingerprint serial settings, read-attribute, probe and over-the-air frames: single branches.
- Logging, metrics and error texts.
