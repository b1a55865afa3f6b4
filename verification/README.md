# Helix RPC in Dafny

A model of the parts of Helix RPC that carry its promises, with proofs. It covers three groups.

* The code the compiler emits for the wire: the Go protobuf codec with its eager and its lazy
  reader, the Go FlatBuffers codec, and the transpilers from protobuf to Thrift Compact emitted
  for Go, Java and Python. The transpilers are judged by an independent reader of the Thrift
  compact protocol (`ThriftCompact.ReadStruct`), the readers by independent record parsers
  (`GoLazy.Parse`, `PythonRecords.Parse`).
* The schema tools: the compatibility report, the `.proto` lexer and parser, and the migration
  from Thrift IDL to `.proto` text.
* The runtime: consistent hashing, least-connections balancing, request batching, the circuit
  breaker, hedged retries, rate limiting and adaptive concurrency in Go, and the gRPC message
  stream of the Rust server.

Objects whose fields the source updates are classes, loops are methods with invariants, and
buffers written in place are arrays. Each such method is proved equal to a function of its inputs
or of the old state, and the promises are proved about that function. Code whose threads share
state by atomic operations is a state machine over those operations; its theorems quantify over
every interleaving.

Integers are unbounded in Dafny, so each wrap-around, truncating conversion and shift of the
source that can matter is written out. `dafny verify dfyconfig.toml` checks the whole project.

## Results that need a condition

Several promises hold only under a condition. The code is kept as it is, and every "if and only
if" below is proved in both directions.

* Go protobuf round trip: holds for a schema if and only if every written field ID is in 0..15.
  The tag is stored as one byte, and from ID 16 on that byte is read as the start of a longer
  varint (`GoProtoLaws.RoundTripExactly`, with a failing struct in `GoProtoLaws.WideTagFails`).
  Any other ID whose tag wraps into one byte, a negative one included, is written under another
  ID.
* Transpiling to Thrift Compact: all three emitters write a field header that does not fit the
  short form as two raw bytes where the protocol has a zigzag varint, so a gap above 15, or an ID
  that does not climb, is misread. The Go emitter, besides, does not remember the ID of a string
  field, so any known field behind a string is misread
  (`JavaTranspilerLaws.PreservesMeaningExactly`, `PythonTranspiler.CommutesExactly`,
  `GoTranspilerLaws.PreservesMeaningExactly`, with failing messages in
  `JavaTranspilerLaws.FieldSixteen`, `PythonTranspiler.StringsAbsent` and
  `GoTranspilerLaws.StringThenInt`). The condition on int32 values is relative to a reader that
  refuses integers outside the range of their type.
* gRPC stream: chunking does not matter if and only if no empty body chunk sits exactly where a
  frame begins (`GrpcFrames.ChunkingExactly`).
* Circuit breaker: with `ForceOpen` anywhere in a run, the breaker behaves like the three-state
  machine if and only if no half-open failure finds it forced open with too few failures counted
  since it was last closed (`CircuitBreaker.FollowsExactly`, with a failing run in
  `CircuitBreaker.ForcedRun`).
* Rate of hedged requests: the token bucket claims the time it refills for only afterwards, so
  overlapping calls can refill for the same time. For every configuration, `n` threads keep to the
  rate in every interleaving if and only if `n` is at most 1, nothing is refilled, or the `n`
  bursts do not exceed the refill of one nanosecond (`HedgeRate.RateKeptExactly`, with a short
  failing interleaving in `HedgeRate.RefilledTwice`).
* Rate of the per-client bucket: calls read the clock before they swap the time last seen, so a
  reading can be overtaken. By a clock that is never set back the condition is the same, although
  this bucket claims the time before it refills (`RateExactly.RateKeptExactly`, with a short
  failing run in `RateExactly.StaleReading`). By a wall clock that may be set back the rate is kept
  if and only if nothing is refilled or the burst is less than one request
  (`RateExactly.SettableExactly`).
* FlatBuffers round trip: up to 2^32 - 4 bytes of table and strings it holds if and only if they
  take up less than 2^31 bytes (`FlatBuffersLaws.RoundTripExactly`).
* Consistent hashing: the answer is the nearest given target if and only if that one is still on
  the ring when the lookup takes its second lock, or no given target is and it is the first in the
  list (`ConsistentHash.AnswerExactly`, with `ConsistentHash.FallbackReached`).
* Overlapping calls of the circuit breaker: without `ForceOpen` no run ever finds the breaker
  unclosed with too few failures counted if and only if at most one thread uses it
  (`BreakerSteps.OneThreadExactly`); a given run does if and only if a call clears failures, or
  opens the breaker, too late (`BreakerSteps.LowExactly`, with a failing run in
  `BreakerSteps.SuccessAcrossTrip`).
* Retry backoff: a policy never panics if and only if every backoff that a retry can wait for is
  positive (`HedgedRetry.PanicsExactly`, with a failing family in
  `HedgedRetry.UnsetMultiplierPanics`).
* Thrift migration: the migrated text parses if and only if every struct is closed and no printed
  name starts with a digit (`ThriftToProtoLaws.MigrationExactly`).

## Where code and comments disagree

* A comment in `runtimes/go/retry.go` says that a half-open breaker lets only one probe through at
  a time. The code admits every call while half-open, and the model does what the code does.
* The compact encoding produced for a long field header is not the one the Thrift compact
  protocol describes, as said above.

## Model

| member | source | states |
|---|---|---|
| Varint.SizeOfVarint | compiler/codegen/go_generator.go:186-196 | the loop that counts septets gives the length of the encoding, zero included |
| Varint.WriteVarint | compiler/codegen/go_generator.go:27-35 | writing in place puts the encoding at the offset and changes no other byte; it panics exactly if the encoding does not fit the buffer |
| Varint.ReadVarint | compiler/codegen/go_generator.go:37-53 | or-ing shifted septets on 64 bits gives the exact value modulo 2^64 for a varint of any length, or end of input |
| Varint.OrShiftedIsSum | compiler/codegen/go_generator.go:37-53 | the bitwise accumulation step equals adding the weighted septet modulo 2^64, also for shifts of 64 and more |
| Varint.DecodeEncoded | compiler/codegen/go_generator.go:27-53 | reading undoes writing for every natural number, wherever in a buffer it stands |
| GoProto.ProtoSize | compiler/codegen/go_generator.go:167-183 | the size computed beforehand is the exact length of the encoding, for every schema and struct |
| GoProto.MarshalTo | compiler/codegen/go_generator.go:200-229 | on every buffer: it panics exactly if anything but the text of the last field written does not fit, and otherwise leaves the encoding at the front, cut where the buffer ends, and returns the length written |
| GoProto.MustFitExactly | compiler/codegen/go_generator.go:200-229 | what must fit falls short of the encoding by the text of the last field written, if that is a string, and by nothing else |
| GoProto.Marshal | compiler/codegen/go_generator.go:160-165 | a fresh buffer of the computed size holds exactly the encoding |
| GoProto.UnmarshalLoop | compiler/codegen/go_generator.go:231-302 | the decoding loop with its error returns and cursor arithmetic computes the decoding function |
| GoProto.CompilesExactly | compiler/codegen/go_generator.go:200-229 | the emitted tag constants fit a byte if and only if the IDs are 0 to 31 modulo 2^29, which the 32-bit shift drops |
| GoProtoLaws.Transfer | compiler/codegen/go_generator.go:200-302 | bytes written under one schema and read under another carry exactly the fields the two share, zero for the others |
| GoProtoLaws.RoundTripValue | compiler/codegen/go_generator.go:160-302 | with IDs up to 15 every struct of int32, int64 and string fields comes back, negative integers included |
| GoProtoLaws.RoundTripExactly | compiler/codegen/go_generator.go:200-302 | a compiling schema, IDs whose tag wraps into a byte included, round trips all its structs if and only if all written IDs are in 0..15 |
| GoProtoLaws.WideTagFails | compiler/codegen/go_generator.go:205-226 | for every written field with another ID there is a struct that does not come back |
| GoLazy.EagerAppliesRecords | compiler/codegen/go_generator.go:231-302 | Unmarshal succeeds exactly on sequences of records that fit the schema, and then applies them in order, later ones winning |
| GoLazy.EndGroupFails | compiler/codegen/go_generator.go:231-302 | whatever the schema, an end-group tag of any number where a record should start fails the message |
| GoLazy.FastScanField | compiler/codegen/go_generator.go:87-138 | the scanning loop, with its skips and errors, computes the scan function |
| GoLazy.LazyIsFirst | compiler/codegen/go_generator.go:87-138 | across any mix of skipped fields the scan finds the first occurrence of its field and nothing if there is none |
| GoLazy.EagerIsLast | compiler/codegen/go_generator.go:231-302 | the eager reader keeps the last occurrence of each field |
| GoLazy.LazyRefinesEager | compiler/codegen/go_generator.go:526-546 | on every input Unmarshal accepts, the getter gives the first and Unmarshal the last occurrence, so they agree on a field that occurs once |
| ThriftCompact.EmitReadsBack | compiler/codegen/go_generator.go:563-647 | emitted headers and values read back as given fields if and only if every header is a short delta from the field before it and every value is in the range of its type |
| ThriftCompact.StaleIsAlignedExactly | compiler/codegen/go_generator.go:619-647 | a writer that forgets the ID of strings stays in step with its reader if and only if, moreover, only the last field is a string |
| ThriftCompact.OneFieldPerItem | compiler/codegen/go_generator.go:563-647 | whatever fields with positive IDs a reader finds in emitted bytes, it finds one for each item written |
| ZigZagBits.Zig64IsZigZag | compiler/codegen/java_generator.go:147-165 | shift and exclusive or on 64 bits give the zigzag encoding of every signed long |
| ZigZagBits.Zig32IsZigZag | compiler/codegen/java_generator.go:147-165 | the form for int32, applied to a long, is the zigzag encoding of every value that fits 32 bits, and otherwise the encoding of no int32 |
| KnownRecords.ReadBackExactly | compiler/codegen/go_generator.go:548-664 | what the Java or the Go emitter writes for known records reads back as their fields if and only if IDs climb by 1 to 15, int32 values fit, and, for Go, only the last record is a string |
| GoTranspiler.TranspileLoop | compiler/codegen/go_generator.go:548-664 | the loop that writes in place finishes exactly if the whole output fits the buffer; then the buffer starts with that output and is unchanged behind it |
| GoTranspilerLaws.WritesKnownItems | compiler/codegen/go_generator.go:548-664 | the output is the items of the records known by their numbers cut to 16 bits, in order, then STOP |
| GoTranspilerLaws.PreservesMeaningExactly | compiler/codegen/go_generator.go:548-664 | on every input Unmarshal accepts, with numbers cut to 16 bits fitting their fields, the output reads as the known records if and only if no number is taken for another field, IDs climb by 1 to 15, int32 values fit, and only the last known record is a string |
| GoTranspilerLaws.StringThenInt | compiler/codegen/go_generator.go:619-647 | the bytes written for an empty string followed by an integer |
| GoTranspilerLaws.StringThenIntReads | compiler/codegen/go_generator.go:619-647 | a Thrift reader sees that integer under ID 3 instead of 2 |
| JavaTranspiler.ReadVarint | compiler/codegen/java_generator.go:35-45 | the loop computes the read with shift distances taken modulo 64 |
| JavaTranspiler.ReadLongIsDecode | compiler/codegen/java_generator.go:35-45 | a varint of at most ten bytes is read as its exact value modulo 2^64 in spite of the shift distance |
| JavaTranspiler.WriteThriftVarint | compiler/codegen/java_generator.go:47-56 | appends exactly the varint encoding |
| JavaTranspiler.TranspileLoop | compiler/codegen/java_generator.go:135-183 | the loop over the input buffer, with its exceptions, writes the output of the transpiling function exactly if that fits the output buffer |
| JavaTranspilerLaws.WritesKnownItems | compiler/codegen/java_generator.go:135-183 | for every well-formed message the output is the items of the known records in order, then STOP, unknown fields leaving no trace |
| JavaTranspilerLaws.PreservesMeaningExactly | compiler/codegen/java_generator.go:135-183 | for every well-formed message the output reads as exactly the known records, with their signed values and bytes, if and only if known IDs climb by 1 to 15 and int32 values fit 32 bits |
| JavaTranspilerLaws.PastEndThrows | compiler/codegen/java_generator.go:135-183 | a string, known or unknown, whose length of up to 2^31 - 1 runs past the end of the buffer makes it throw |
| JavaTranspilerLaws.FieldSixteen | compiler/codegen/java_generator.go:135-183 | the bytes written for a message with the integer 1 in field 16 |
| JavaTranspilerLaws.FieldSixteenReads | compiler/codegen/java_generator.go:58-61 | a Thrift reader finds no struct in those bytes |
| PythonTranspiler.ReadVarint | compiler/codegen/python_generator.go:43-51 | the loop reads the exact unbounded value |
| PythonTranspiler.FromProto | compiler/codegen/python_generator.go:233-287 | for every message: it fails exactly if an independent parser finds no records; otherwise each declared field, and no other, has the content of the last record of its number, or its default |
| PythonTranspiler.DecodesRecords | compiler/codegen/python_generator.go:233-287 | the decoding loop, for every message: accepted exactly if it parses, a field counts as seen exactly if it has a record, and its value is the integer, the nonzero test or the bytes of the last one |
| PythonTranspiler.DecodesSpelled | compiler/codegen/python_generator.go:233-287 | any list of records that fit the schema, in any order, repeated or of unknown numbers, spelled as bytes decodes to the last content of each field |
| PythonRecords.ParsesAsSpelled | compiler/codegen/python_generator.go:233-287 | such records parse back exactly as they were spelled |
| PythonTranspiler.WriteThriftVarint | compiler/codegen/python_generator.go:53-56 | appends exactly the varint encoding |
| PythonTranspiler.Transpile | compiler/codegen/python_generator.go:337-441 | for every message: an error exactly if it does not parse, otherwise the Thrift items its records stand for, in schema order, numbers and bools always and byte strings only if there is a record, then STOP |
| PythonTranspiler.CommutesExactly | compiler/codegen/python_generator.go:337-441 | for every input from_proto accepts, the output reads as exactly its fields if and only if integers are in signed range and no written field follows 15 absent ones |
| PythonTranspiler.ReadsLikeFromProto | compiler/codegen/python_generator.go:233-441 | under that condition every field value of from_proto, which is the one its records give, defaults included, can be read off the Thrift struct |
| PythonTranspiler.StringsAbsent | compiler/codegen/python_generator.go:337-441 | after fifteen absent strings an integer is written so that the output does not read as that field |
| FlatBuffers.ComputeOffsets | compiler/codegen/go_generator.go:304-326 | the running offset gives every field its slot and the table its size |
| FlatBuffers.LayoutSound | compiler/codegen/go_generator.go:304-326 | slots are aligned to their size, inside the table, in order and pairwise disjoint |
| FlatBuffers.StoreLE | compiler/codegen/go_generator.go:328-389 | stores a little-endian number and changes nothing else |
| FlatBuffers.MarshalFlatBuffers | compiler/codegen/go_generator.go:328-389 | writing slots, strings, their offsets and the vtable into a zeroed buffer in place gives exactly the layout described region by region |
| FlatBuffersLaws.Regions | compiler/codegen/go_generator.go:328-389 | root offset, table, strings and vtable stand one behind the other inside the buffer |
| FlatBuffersLaws.UnmarshalFlatBuffers | compiler/codegen/go_generator.go:391-437 | the reader, with all its bounds tests and slot reads, computes the decoding function on every byte string |
| FlatBuffersLaws.DecodeUndoesEncode | compiler/codegen/go_generator.go:328-437 | decoding what was encoded overwrites every field of any receiver with its value |
| FlatBuffersLaws.RoundTrip | compiler/codegen/go_generator.go:328-437 | a struct of int32, int64, bool and string fields comes back whole, empty strings included, as long as the vtable offset is below 2^31 |
| FlatBuffersLaws.RoundTripExactly | compiler/codegen/go_generator.go:328-437 | up to 2^32 - 4 bytes of table and strings, a struct of int32, int64, bool and string fields comes back into a zero struct if and only if they take up less than 2^31 bytes; nothing is claimed above |
| FlatBuffersLaws.OversizeIsRejected | compiler/codegen/go_generator.go:391-405 | from 2^31 up to but not including 2^32 - 4 bytes the offset wraps to a place in front of the buffer and decoding fails |
| FlatBuffersLaws.WrapToStart | compiler/codegen/go_generator.go:391-437 | at 2^32 - 4 bytes the offset wraps to the start of the buffer and decoding returns the receiver untouched, without an error |
| Compat.TypesEqualIsEquality | compiler/compat/checker.go:217-237 | the recursive comparison of types is equality of types, through lists and maps |
| Compat.FieldIndexIsLast | compiler/compat/checker.go:38-45 | a field name is indexed exactly if it is declared, and stands for its last declaration |
| Compat.StructIndexIsLast | compiler/compat/checker.go:18-26 | so is a struct name |
| Compat.CompareStruct | compiler/compat/checker.go:37-85 | the entries for a struct are exactly its breaking and its safe changes, none missing and none extra |
| Compat.DiffStructs | compiler/compat/checker.go:15-93 | the report lists exactly the breaking and the safe changes of all structs, and says breaking if and only if there is one |
| CompatLaws.CleanReportMeansCompatible | compiler/compat/checker.go:28-86 | if nothing breaking exists, every old struct still exists and is compatible |
| CompatLaws.CleanExactly | compiler/compat/checker.go:28-86 | nothing breaking is reported if and only if every old struct is there, every old field is there with its ID and type and not newly required, and every new field is optional |
| CompatLaws.EmptyExactly | compiler/compat/checker.go:28-93 | nothing at all is reported if and only if the two schemas differ in nothing but fields that have become optional |
| CompatLaws.OldBytesNewReader | compiler/compat/checker.go:28-86 | bytes marshalled under the old struct unmarshal under a compatible new one with every old field equal and every added field zero |
| CompatLaws.NewBytesOldReader | compiler/compat/checker.go:28-86 | bytes marshalled under the new struct unmarshal under the old one to its restriction to the old fields |
| CompatLaws.Verdict | compiler/compat/checker.go:15-93 | the report of the diff is breaking if and only if that condition fails, and if it is not, the bytes of either version read as they should under the other |
| ProtoText.Lexer.Next | compiler/parser/proto_parser.go:37-97 | the position-based lexer returns the first token of the remaining text and stands behind it, comments and unclosed strings included |
| ProtoParser.Parser.ReadField | compiler/parser/proto_parser.go:225-296 | one step of the field loop, modifiers and map types included, matches the grammar on the remaining tokens |
| ProtoParser.Parser.ReadMessage | compiler/parser/proto_parser.go:194-301 | the message loop returns the struct and the tokens the grammar gives, or its error |
| ProtoParser.Parse | compiler/parser/proto_parser.go:114-161 | the token-at-a-time parser gives, for every text, what the grammar gives on the whole token list |
| ProtoDeclarations.FileParses | compiler/parser/proto_parser.go:114-301 | any messages with plain, optional, repeated, map and oneof members in any order parse to structs with exactly the declared names, IDs, types and optionality, marked for fallback if and only if there is a map or a oneof |
| ProtoDeclarations.MapParses | compiler/parser/proto_parser.go:503-540 | a map type name is the map of its key and value types, whatever identifiers they are |
| ThriftToProto.Transpile | compiler/compat/thrift_transpiler.go:11-54 | the loop over lines with its flag and builder prints the prelude and one message for each struct |
| ThriftToProto.TypesExactly | compiler/compat/thrift_transpiler.go:55-72 | Thrift type names stand for their types in any case, i16 for 32 bits, and every other name for a string |
| ThriftToProtoLaws.ParseField | compiler/compat/thrift_transpiler.go:42-49 | a printed field parses to the declared name, ID and migrated type, or is an error exactly if its name starts with a digit |
| ThriftToProtoLaws.MigrationExactly | compiler/compat/thrift_transpiler.go:11-54 | for every Thrift file the printed text parses to its structs in order, none marked for fallback, if and only if all structs are closed and no printed name starts with a digit; otherwise parsing fails |
| ThriftToProtoLaws.SchemaRoundTrip | compiler/compat/thrift_transpiler.go:11-73 | every list of structs with identifier names, the six scalar types and IDs from 0 to 2^31 - 1 comes back unchanged through printing, lexing and parsing |
| ThriftToProtoLaws.DigitNameFails | compiler/compat/thrift_transpiler.go:32-37 | a struct named with a leading digit is printed, and the printed file does not parse |
| ConsistentHash.SortRing | runtimes/go/consistent_hash.go:45-48 | the ring becomes a sorted permutation of itself |
| ConsistentHash.Search | runtimes/go/consistent_hash.go:112-117 | binary search finds the first point at or above the hash |
| ConsistentHash.Lookup | runtimes/go/consistent_hash.go:102-139 | on a ring that other calls may have changed, the circular scan returns the owner of the nearest clockwise point among the given targets on the ring, or the first target if none is |
| ConsistentHash.Balancer.constructor | runtimes/go/consistent_hash.go:20-30 | an empty ring, with 50 replicas when none are asked for |
| ConsistentHash.Balancer.Add | runtimes/go/consistent_hash.go:33-49 | afterwards the ring is sorted and holds exactly the virtual nodes of the nodes registered before and now |
| ConsistentHash.Balancer.Remove | runtimes/go/consistent_hash.go:52-70 | afterwards the ring holds exactly the virtual nodes of the remaining nodes |
| ConsistentHash.RingIsExactly | runtimes/go/consistent_hash.go:33-49 | such a ring holds exactly the hashes of the node names followed by a hash sign and the decimal numbers below the replica count, each owned by a node that has it |
| ConsistentHash.RegisteredExactly | runtimes/go/consistent_hash.go:33-70 | after any calls a node is registered if and only if the last one about it added it, or there was none and it was registered before |
| ConsistentHash.Balancer.NextWithKey | runtimes/go/consistent_hash.go:78-139 | whatever was registered or removed before, and whatever other threads add or remove between its two lock sections, the answer is the nearest of the given targets still on the ring, or the first target if none is |
| ConsistentHash.AnswerExactly | runtimes/go/consistent_hash.go:78-139 | the answer is the nearest of the given targets if and only if that one is on the ring, or none of them is and it is the first in the list |
| ConsistentHash.Undisturbed | runtimes/go/consistent_hash.go:78-139 | as long as no other thread removes a given target in between, whatever else it adds or removes, the answer is the nearest of all given targets and the fallback is not used |
| ConsistentHash.FallbackReached | runtimes/go/consistent_hash.go:100-139 | an only target removed between the two lock sections is off the ring and answered all the same |
| ConsistentHash.NearestUnique | runtimes/go/consistent_hash.go:78-139 | without collisions that owner is unique, so the answer is a function of targets and key alone |
| ConsistentHash.DropDisturbsLittle | runtimes/go/consistent_hash.go:78-139 | dropping a target changes the answer only for keys that mapped to it |
| ConsistentHash.AddDisturbsLittle | runtimes/go/consistent_hash.go:78-139 | adding a target moves keys only onto the new target |
| ConsistentHash.LookupAfterDrop | runtimes/go/consistent_hash.go:78-139 | of two lookups of a key, the second without one target, with any calls between them and, inside each, any that remove none of its targets, the answers differ only if the first was the dropped target |
| ConsistentHash.LookupAfterAdd | runtimes/go/consistent_hash.go:78-139 | of two lookups of a key, the second with one target more, with any calls between them and, inside each, any that remove none of its targets, the answers differ only if the second is the added target |
| LeastConn.CountsConserved | runtimes/go/balancer.go:45-114 | under every interleaving of Register, Next and Done each counter equals picks minus releases, and older index snapshots still address the same counters |
| LeastConn.RegisteredExactly | runtimes/go/balancer.go:45-69 | under every interleaving a target is in the newest index if and only if it was added |
| LeastConn.PicksAfterLoad | runtimes/go/balancer.go:74-105 | with no registration under way a thread that loads the index can pick exactly the targets added so far |
| LeastConn.Balancer.Register | runtimes/go/balancer.go:45-69 | afterwards exactly the missing targets have new zero counters and all other counts are unchanged |
| LeastConn.Balancer.Next | runtimes/go/balancer.go:74-105 | picks the first of the least loaded targets behind the last one with a negative count, of all targets if no count is negative, and raises only its count |
| LeastConn.AllCompared | runtimes/go/balancer.go:91-101 | without negative counts the pick is least among all targets given |
| LeastConn.Balancer.DoneWith | runtimes/go/balancer.go:109-114 | lowers the count of a known target only |
| LeastConn.Balanced | runtimes/go/balancer.go:74-105 | without releases the counts over one target list never differ by more than one, however often Next is called |
| LeastConn.DrawMany | runtimes/go/balancer.go:74-105 | repeated calls of Next on an idle balancer are such a sequence of least picks |
| Batching.StepKeeps | runtimes/go/batching.go:38-131 | every event keeps: flushed batches followed by the pending batch are the received requests in order, batch sizes between 1 and the maximum, no send blocked, and a timer armed exactly for a non-empty batch |
| Batching.RunKeeps | runtimes/go/batching.go:81-113 | that holds after every possible run |
| Batching.EveryRequestAnsweredOnce | runtimes/go/batching.go:43-79 | in every run each flushed request has exactly one response: the error of the handler, the result of its own index, or the error that counts do not match, exactly if they do not |
| Batching.ResponseWaits | runtimes/go/batching.go:43-131 | in every run a response waits in the channel of its invoker exactly from the flush until it is taken, and it is the one sent |
| Batching.FlushesExactly | runtimes/go/batching.go:81-113 | in every run an arrival flushes the batch exactly if that makes it full, with the requests in order, and a tick flushes it whatever its size |
| Batching.TimerFlushes | runtimes/go/batching.go:81-113 | in every run an open batch can be flushed by its timer once it has expired and not before |
| Batching.NoTimerWhenEmpty | runtimes/go/batching.go:81-113 | in no run does a timer expire or tick while the batch is empty |
| Batching.PendingUnanswered | runtimes/go/batching.go:43-79 | in every run no pending request has a response yet |
| Batching.Scheduler.FlushBatch | runtimes/go/batching.go:43-79 | the method is the flush step of the runs above: responses, batch, timer and channel state |
| Batching.Scheduler.OnRequest | runtimes/go/batching.go:81-113 | taking a request is the arrival step, including the flush of a full batch |
| Batching.Scheduler.OnTick | runtimes/go/batching.go:81-113 | a tick is the timer step |
| CircuitBreaker.Breaker.AllowCall | runtimes/go/retry.go:66-85 | the method takes the Allow step of the state and returns its verdict, which the next row and VerdictFollows describe |
| CircuitBreaker.VerdictRefines | runtimes/go/retry.go:66-85 | in every run without ForceOpen a call is let through if and only if the reference machine is closed, or probing, or has been open for the timeout |
| CircuitBreaker.Breaker.RecordSuccess | runtimes/go/retry.go:88-100 | the method takes the Success step |
| CircuitBreaker.Breaker.RecordFailure | runtimes/go/retry.go:115-123 | the method takes the Failure step |
| CircuitBreaker.Breaker.ForceOpenAt | runtimes/go/retry.go:102-106 | the method takes the ForceOpen step |
| CircuitBreaker.Breaker.ForceClosed | runtimes/go/retry.go:108-112 | the method takes the ForceClose step |
| CircuitBreaker.RunRefines | runtimes/go/retry.go:66-123 | in every run without ForceOpen the fields follow a three-state reference machine, and the breaker is closed exactly if its count is below the maximum |
| CircuitBreaker.TripsExactly | runtimes/go/retry.go:66-123 | after any run that leaves it closed, trips, recoveries and forced states included, a call opens it exactly if it forces it open or is the failure that completes the configured number in a row |
| CircuitBreaker.DeniesUntilTimeout | runtimes/go/retry.go:66-85 | an open breaker denies every call before the timeout, whatever is recorded meanwhile |
| CircuitBreaker.ProbingExactly | runtimes/go/retry.go:88-123 | half-open, it closes exactly after the configured number of successes and reopens exactly on a failure |
| CircuitBreaker.UnclosedCounts | runtimes/go/retry.go:66-123 | in every run an unclosed breaker counts the streak with which it left the closed state and all failures since, and it left by that streak or by force |
| CircuitBreaker.ReopensExactly | runtimes/go/retry.go:102-123 | in every run a failure reopens a half-open breaker if and only if it is not the case that the breaker left the closed state by force and the failures counted, this one included, stay below the maximum |
| CircuitBreaker.FollowsExactly | runtimes/go/retry.go:66-123 | in every run, forced states anywhere, the breaker shows the state of the reference machine throughout if and only if no half-open failure goes unnoticed in that way |
| CircuitBreaker.VerdictFollows | runtimes/go/retry.go:66-123 | so it is, forced states included, in every run in which the breaker follows the machine |
| CircuitBreaker.ForcedRun | runtimes/go/retry.go:102-123 | a run of ForceOpen, Allow and a failure after which the breaker is half-open where the machine is open |
| CircuitBreaker.AllowBeforeStamp | runtimes/go/retry.go:115-123 | a call between the opening and the store of its time is judged by the time of the opening before, and if let through leaves the breaker half-open, whatever time is stored afterwards |
| BreakerSteps.SequentialRuns | runtimes/go/retry.go:66-123 | with each load, swap, add and store a step of its own, calls made one after the other give exactly the run of the sequential breaker |
| BreakerSteps.LowExactly | runtimes/go/retry.go:66-123 | in every interleaving without ForceOpen the breaker is ever unclosed with too few failures counted if and only if some call clears the failures of a breaker opened meanwhile, or opens it by failures cleared meanwhile |
| BreakerSteps.OneThreadExactly | runtimes/go/retry.go:66-123 | for every configuration: no run of n threads without ForceOpen ever finds the breaker unclosed with too few failures counted if and only if n is at most 1 |
| BreakerSteps.SuccessAcrossTrip | runtimes/go/retry.go:88-123 | a run in which a success overlaps the trip and a later half-open failure goes unnoticed, although nothing was forced |
| HedgedRetry.ExecuteRetriesOnly | runtimes/go/retry.go:261-307 | the loop stops at the first attempt that succeeds, cannot be retried or is cancelled, makes at most MaxAttempts, none if that is 0, records one outcome for each with the breaker if there is one, and panics exactly if a retry is due and the backoff is not positive |
| HedgedRetry.LastAttemptDecides | runtimes/go/retry.go:261-307 | all attempts before the last were retried, and the last decides: its value if it succeeded, its error if it cannot be retried or is the last allowed, else a panic exactly if the backoff is not positive, else a cancellation that did happen |
| HedgedRetry.RecordedIs | runtimes/go/retry.go:261-307 | the breaker is told of each attempt as a success exactly if it was one, at its own time |
| HedgedRetry.BackoffGrowsToCap | runtimes/go/retry.go:285-302 | with a multiplier that never shrinks, the backoff before each retry after the first is the initial one multiplied that often, up to the largest allowed |
| HedgedRetry.EarlierAttemptsFailed | runtimes/go/retry.go:261-307 | every attempt before the last failed in a way that may be retried |
| HedgedRetry.PanicsExactly | runtimes/go/retry.go:261-307 | for every policy: it never panics, whatever the operation does, if and only if every backoff that a retry can wait for is positive |
| HedgedRetry.GrowingPanicsExactly | runtimes/go/retry.go:261-307 | a policy whose multiplier keeps backoffs positive never panics if and only if it makes at most one attempt, or its initial backoff is positive and, beyond two attempts, the largest too |
| HedgedRetry.UnsetMultiplierPanics | runtimes/go/retry.go:285-302 | with three attempts or more and the multiplier left at 0 a policy can panic, however large its other backoffs |
| HedgedRetry.RunKeeps | runtimes/go/retry.go:312-372 | every interleaving of the racers and the caller keeps the counts, and what was sent is what the channel holds plus what the caller received |
| HedgedRetry.RunsBounded | runtimes/go/retry.go:312-372 | in every interleaving each racer runs the operation at most MaxAttempts times, every run has one record or is about to be recorded, and no send ever blocks, also after the caller returned |
| HedgedRetry.RecordsMatchRuns | runtimes/go/retry.go:312-372 | in every interleaving each racer records the outcomes of its own runs once each and in order, but for the one it is about to record |
| HedgedRetry.OutcomesDecide | runtimes/go/retry.go:312-372 | in every interleaving the result of a racer is that of its own recorded runs: all but the last were retried, and the last decides between success, error and cancellation |
| HedgedRetry.SuccessExactly | runtimes/go/retry.go:312-372 | once both racers are launched, the caller returns a success if and only if some recorded run of the operation succeeded, with the value of such a run, and what it returns is what a racer sent |
| HedgedRetry.PrimaryAlone | runtimes/go/retry.go:312-372 | without a hedge the caller returns the result that the runs of the primary decide, or was cancelled first |
| HedgedRetry.HedgedExactly | runtimes/go/retry.go:336-372 | in every interleaving a second racer was launched if and only if the hedge timer fired while the caller was selecting and found a token, and the caller returned without any result if and only if the context ended before one and before a hedge |
| HedgedRetry.CancelEnds | runtimes/go/retry.go:285-297 | in every interleaving a racer that sleeps can be cancelled, and its result goes out at once |
| HedgeBucket.EveryInterleaving | runtimes/go/retry.go:175-205 | under every interleaving of any number of threads tokens stay in range, and what is admitted exceeds burst and refill for the time claimed by no more than the refills not claimed yet or made twice |
| HedgeBucket.AloneIsSequential | runtimes/go/retry.go:175-205 | a call without another thread in between refills for the time since the last refill, up to the capacity, and succeeds if and only if a whole token is there then, taking one |
| HedgeBucket.SequentialBound | runtimes/go/retry.go:175-205 | calls that do not overlap keep to the burst and the refill for the time claimed |
| HedgeRate.RefilledTwice | runtimes/go/retry.go:175-205 | an interleaving of two calls in which both refill for the same second and more is admitted than burst and rate allow |
| HedgeRate.RateKeptExactly | runtimes/go/retry.go:175-205 | for every configuration and number of threads: every interleaving that ends with all calls returned keeps to burst and refill for the time claimed if and only if there is at most one thread, nothing is refilled, or the bursts of all threads together do not exceed the refill of one nanosecond |
| HedgeRate.LargeRefillKeeps | runtimes/go/retry.go:175-205 | if one nanosecond refills the burst of every thread, no interleaving exceeds the rate, because each thread refills at most once for each time claimed |
| HedgeRate.Overrun | runtimes/go/retry.go:175-205 | in every other case with two threads or more there is a run, ending with all calls returned, that exceeds the rate |
| RateLimit.ClientBucket.AllowAt | runtimes/go/ratelimit.go:62-88 | a sequential call takes the bucket to its next state, answers whether it admits and returns the whole tokens left |
| RateLimit.RateLimiter.AllowKey | runtimes/go/ratelimit.go:124-136 | the bucket object of the key takes its step, made full on first use, its whole tokens are returned, and the buckets of all other keys are the same objects in the same state |
| RateLimit.ServeAll | runtimes/go/ratelimit.go:124-136 | with a clock that does not go back, a fresh limiter admits a request if and only if, over every window of calls of its key that ends with it, the admitted requests and this one stay within the burst and the refill of the time between |
| RateLimit.AdmittedExactly | runtimes/go/ratelimit.go:51-136 | that condition, proved of every call of every run over any number of keys |
| RateLimit.ConfiguredExactly | runtimes/go/ratelimit.go:20-136 | the same in terms of the configured rate and burst, where a burst of 0 stands for the whole rate or 1 |
| RateLimit.WindowBound | runtimes/go/ratelimit.go:51-88 | between any two calls of any run the requests of one key that were admitted cost at most the capacity plus the refill for the time between |
| RateLimit.RateBound | runtimes/go/ratelimit.go:99-136 | in requests and seconds: at most the burst plus the whole rate for each second |
| RateLimit.StepInRange | runtimes/go/ratelimit.go:62-88 | every load and compare-and-swap of every thread keeps the tokens between 0 and the capacity |
| RateLimit.ConcurrentBound | runtimes/go/ratelimit.go:62-88 | under every interleaving of any number of threads tokens stay in range and admissions keep to the bound, counting again the time by which stale clock readings set the last one back; readings in order set nothing back |
| RateLimit.AloneIsSequential | runtimes/go/ratelimit.go:62-88 | the atomic steps of a call without another thread in between do to the bucket what the sequential call does and admit exactly if it does |
| RateExactly.RateKeptExactly | runtimes/go/ratelimit.go:62-88 | with reading the clock and swapping the time last seen as separate steps and a clock never set back: for every configuration with a capacity, n threads keep to burst and rate for the time passed in every interleaving if and only if n is at most 1, nothing is refilled, or the bursts of all threads together do not exceed the refill of one nanosecond |
| RateClock.StepUps | runtimes/go/ratelimit.go:62-88 | every step keeps: the times the last reading has moved up, and the stale readings that can make it move up again, are at most one per thread and nanosecond |
| RateClock.LargeRefillKeeps | runtimes/go/ratelimit.go:62-88 | if one nanosecond refills the burst of every thread, no interleaving exceeds the rate |
| RateExactly.Overrun | runtimes/go/ratelimit.go:62-88 | in every other case with two threads or more there is a run, by a clock never set back, that exceeds the rate |
| RateExactly.SettableExactly | runtimes/go/ratelimit.go:62-88 | if the wall clock may be set back, every run keeps to the rate if and only if nothing is refilled or the burst is less than one request |
| RateExactly.StaleReading | runtimes/go/ratelimit.go:62-88 | a run of two threads in which a reading overtaken for a second lets a third request through in that second at one a second |
| AdaptiveLimiter.QueueBelowLimit | runtimes/go/ratelimit.go:379-406 | the estimated queue lies between 0 and the limit |
| AdaptiveLimiter.UpdateKeeps | runtimes/go/ratelimit.go:379-406 | an update keeps the limit within its bounds and at least the smaller of its initial value and 6, and raises a limit of at most 3 |
| AdaptiveLimiter.MovesExactly | runtimes/go/ratelimit.go:379-406 | the limit rises by one exactly if the queue is estimated below 3 and falls by one exactly if it is above 6, as far as the bounds allow, the estimate being the part of the limit by which latency exceeds the lowest |
| AdaptiveLimiter.WhatSamplesSay | runtimes/go/ratelimit.go:379-406 | after any samples the lowest latency is their minimum and the current one their nine-to-one running average |
| AdaptiveLimiter.Limiter.UpdateLimit | runtimes/go/ratelimit.go:379-406 | the method computes that update of all fields |
| AdaptiveLimiter.EveryInterleaving | runtimes/go/ratelimit.go:351-406 | in every interleaving the limit stays in its range and above that floor, and active requests between 0 and the maximum |
| AdaptiveLimiter.EstimateOfRun | runtimes/go/ratelimit.go:351-406 | in every interleaving the limit and both latencies are those of the samples taken in so far, in that order |
| AdaptiveLimiter.AcquiresExactly | runtimes/go/ratelimit.go:361-372 | without a step of another thread in between, a slot is taken if and only if one is free |
| GrpcFrames.BuildFrame | runtimes/rust/src/server.rs:97-106 | flag 0, the payload length modulo 2^32 readable as four big-endian bytes, then the payload; a receiver given this frame alone gets back that payload and a clean end |
| GrpcFrames.GrpcServerStream.ReadExactly | runtimes/rust/src/server.rs:54-65 | pulls chunks until enough bytes are there and splits exactly those off, or reports the short stream |
| GrpcFrames.GrpcServerStream.HasMore | runtimes/rust/src/server.rs:68-80 | looks at the buffer, else pulls one chunk |
| GrpcFrames.GrpcServerStream.RecvNext | runtimes/rust/src/server.rs:85-95 | returns the next payload, the end or the failure that the remaining bytes and chunks give |
| GrpcFrames.ChunkingExactly | runtimes/rust/src/server.rs:54-107 | for all payloads and every split of their frames into chunks, draining gives exactly the payloads and a clean end if and only if no empty chunk sits where a frame begins |
| GrpcFrames.NonemptyChunksDeliver | runtimes/rust/src/server.rs:54-107 | with non-empty chunks every split delivers all payloads in order |
| GrpcFrames.CutExactly | runtimes/rust/src/server.rs:54-107 | a stream cut off inside any frame, however it is split into chunks, fails if and only if no empty chunk sits where a frame begins |
| GrpcFrames.ErrorEndsBody | runtimes/rust/src/server.rs:54-95 | an error of the body gives what an end of the body at that place gives, so between two frames it passes for a clean end |
| GrpcFrames.EmptyChunkEndsStream | runtimes/rust/src/server.rs:68-80 | an empty first chunk ends the stream before its first message |

## Left out

- Transpilers emitted for C++, Rust and Node: near copies of the Java loop.
- Double, list, map, struct and enum fields on the wire: the emitted codecs do not encode them.
- The text templates of the generators, OpenAPI output, scaffolding and the command line: no behaviour beyond text.
- Servers, sniffers, TLS, WebSocket, SSE, HTTP dispatch, shared memory and eBPF: input and output over libraries outside the repository.
- Redis, Memcached, Kafka, Vault, JWT and the resolvers: foreign services.
- The ports of the runtime to Python, Rust, Node and C++: the Go versions are modelled.
- Comparison of enums and services in the compatibility report: the same scheme as for structs.
- Enum and service definitions in the `.proto` parser: such a file is classified as foreign and not parsed further.
- The regular expressions of the Thrift migration: a line is given by what they capture from it; blank and comment lines are other lines.
- The wall clock, random jitter and sleeping: clock readings are inputs and delays only order the steps.
- UTF-8 validity of Python strings: strings are byte strings, and decoding errors are not modelled.
- GoTranspiler.TranspileLoop: the capacity of the input slice is taken to be its length, and the int16 wrap of the header delta is left out, because it needs a negative ID, for which the emitted byte constant does not compile.
- GoTranspilerLaws.PreservesMeaningExactly: leaves out messages in which a number, cut to int16, names a field whose kind does not fit the record, because there the transpiler loses its place in the input.
- GoTranspilerLaws.WritesKnownItems: leaves out the same messages.
- JavaTranspilerLaws.PreservesMeaningExactly: takes buffers below 2^31 bytes, the most a Java buffer can hold, and varints of at most ten bytes, as protobuf defines them.
- ConsistentHash.Balancer.NextWithKey: takes hashes of virtual nodes without collisions, as do Add and Remove.
- RateExactly.RateKeptExactly: takes a capacity that is not negative, as do the other theorems on this bucket.
- RateLimit.AdmittedExactly: takes a clock that does not go back and a capacity that is not negative; the concurrent theorems cover other readings.
- JavaTranspilerLaws.PastEndThrows: leaves out lengths of 2^31 and more, of which the code looks at the low 32 bits only.
- HedgedRetry.BackoffGrowsToCap: takes a multiplier that never shrinks a backoff, as 1 and above do.
- ProtoDeclarations.FileParses: takes type names that are identifiers and no name that is a keyword of the grammar where a type stands.
- RateLimit.RateBound: takes a rate and a burst that are not negative.
- RateLimit.WindowBound: int64 overflow of tokens is not modelled.
- HedgedRetry.RunsBounded: takes MaxAttempts of at least 1, as do the other theorems on hedging.
- AdaptiveLimiter.Limiter.UpdateLimit: works on real numbers instead of floating point.
- FlatBuffersLaws.RoundTripExactly: claims nothing above 2^32 - 4 bytes, where the wrapped offset points into the strings and the result depends on their contents.
- HedgedRetry.SuccessExactly: takes positive backoffs, because a racer that panics ends the program.
