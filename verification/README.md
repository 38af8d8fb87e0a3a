# Verification of the Regatta Go client

This project models the parts of the client whose correctness is hard to see
by reading, and proves what they are for. To verify it:

    dafny verify dfyconfig.toml

## What is modelled

**The wire codec.** `Command`, `Txn`, `RequestOp`, `Compare`, `KeyValue`,
`TxnRequest` and `StatusResponse` with `TableStatus`: the encoding, SizeVT, the
backward writer on a real byte array, and the decoders as loops over that
array. The laws are proved on functions that the methods are shown to
compute. The bytes follow the Protocol Buffers Encoding, sections "Base 128
Varints", "Message Structure" and "Last One Wins". A decoder is a generic
record loop (`Wire.Decode`) with one assignment function per message, so the
merge law, the treatment of unknown fields and the shift of the cursor are
proved once for all messages. On top of it: the round trip of arbitrarily
nested trees, re-encoding, the pool of reused Commands (`Pool`), the decoder
that keeps references into its input (`Unsafe`), and the map field of
StatusResponse in every iteration order (`Status`, `StatusLoops`).

`Dispatch` says by literal field numbers what the decoders do with a tag and
`FieldOrder` in which order the writers emit the fields, so neither rests on
the tables the model is built from.

**Retries.** `Retry` holds errors, policies, call options and the backoff;
`UnaryRetry` the bounded loop of the unary interceptor; `QuorumBackoff` how
often a call sleeps; `StreamRetry` the retrying server stream as a state
machine over every run of calls and every behaviour of the streams below it,
`StreamAttempts` when it receives again and what it answers, and `StreamProxy`
the object that implements it.

**Key ranges, operations, transactions.** `KeyRange` and `Ops`: getPrefix and
the options that set a range. `TxnBuilder`: the builder as a class and as a
state machine. `Requests` and `Responses`: the translation to and from the
wire, chained with the codec into an end-to-end round trip.

## Findings

These are places where the code does less than one may expect; each is stated
by a lemma with a concrete input, and by one that gives the exact condition
under which the expectation holds.

- ResetVT keeps `Table` and `RangeEnd` as empty, non-nil slices, so a reused
  Command may show a range end its input does not have, at the root
  (`Pool.PresenceLeaks`) or in an element of Sequence
  (`Pool.NestedPresenceLeaks`); exact condition: `Pool.PooledIsExactWhen`.
- The comment on isSafeRetryMutableRPC promises write-at-most-once; the
  interceptor nevertheless repeats a write after a DeadlineExceeded or Canceled
  status as long as the call context is live, whatever the policy
  (`UnaryRetry.DeadlineIsRetried`; `UnaryRetry.NonRepeatableSendsOnceWhen`).
- WithPrefix twice on the empty key selects only the keys that start with a
  zero byte (`Ops.PrefixTwiceMisses`; `Ops.PrefixIsExactWhen`).
- The error of decoding a concatenation may differ from that of decoding the
  parts, near the largest int (`RoundTrip.MergeLawErrorsCanDiffer`;
  `RoundTrip.CommandMergeLaw`).
- A map entry may announce a key that runs past the entry
  (`Status.EntryMayOverrun`; `Status.EntriesConfinedWhen`).
- A retried stream is always half-closed once, whether or not the client did so
  (`StreamRetry.ReplayHalfClosesAnyway`; `StreamRetry.FaithfulReplay`). The
  generated stub sends once and half-closes once
  (internal/proto/regatta_grpc.pb.go:71-84), so the calls that make a
  difference cannot come from this client (`StreamRetry.StubReplaysFaithfully`).
- An answer with a header, or with more or less than one case set, does not
  survive the way from server to client (`Responses.HeaderIsLost`;
  `Responses.ResponsesRoundTripWhen`).
- A transaction operation nested in a transaction is accepted by the builder and
  panics in Commit (`TxnBuilder.NestedTxnPanics`; `TxnBuilder.AcceptedRuns`).
- A Command with an empty, non-nil Table does not come back as it was
  (`Canonical.EmptyTableIsLost`; `Canonical.RoundTripIsExactWhen`).

## Conventions

- A pointer, interface or slice that may be nil is an `Option`; a nil and an
  empty `[]byte` are told apart. A nil and an empty list are not.
- `int` is 64 bits wide; no length exceeds `MAX_INT`. Conversions that cut or
  sign-extend are written out (`Common.Int64`, `Common.Int32`,
  `Common.UInt64`, `Varint.Cut`).
- A Go error or panic is a `Result` or an `Option`; error texts are reduced to
  their kind.
- protohelpers.Skip is not part of the repository: every theorem holds for any
  function that meets `Wire.SkipContract` (a success takes at least the tag, is
  an int, may point past the input, and depends on the skipped bytes only).
- Outcomes of invocations, streams, waits and random numbers come from
  environment functions; the theorems quantify over all of them.
- Inductive lemmas make their recursive calls themselves; Dafny's automatic
  induction is switched off (`{:induction false}`).

## Model

| member | source | states |
|---|---|---|
| `Varint.OrTurn` | internal/proto/mvcc_vtproto.pb.go:1373-1383 | one turn of the loop on a 64-bit word: the shift-or is an addition, and it keeps the bits from the next shift on at zero |
| `Varint.OrIsAdd` | internal/proto/mvcc_vtproto.pb.go:1371-1384 | all ten turns on 64-bit words: accumulating the groups with shift-or is adding them, the form the model uses |
| `Varint.OrIsAdd32` | internal/proto/mvcc_vtproto.pb.go:1432-1446 | the same for the 32-bit enum variables, whose later groups are shifted out |
| `Varint.SizeOfVarintIsLength` | internal/proto/mvcc_vtproto.pb.go:982-1004 | SizeOfVarint, computed from the bit length, is the number of bytes EncodeVarint writes, for every uint64 |
| `Varint.ReadInvertsEncode` | internal/proto/mvcc_vtproto.pb.go:1371-1384 | the inline loop reads back every uint64 (cut to the variable's width), consumes exactly SizeOfVarint(v) <= 10 bytes, and ignores what follows |
| `Varint.Int64RoundTrip` | internal/proto/mvcc_vtproto.pb.go:2075-2089 | a negative int64 is written in ten bytes and recovered by the wrapping decode |
| `Varint.Int32RoundTrip` | internal/proto/mvcc_vtproto.pb.go:1432-1446 | a negative enum is sign-extended to ten bytes and recovered by the 32-bit decode |
| `Varint.ReadVarintLocal` | internal/proto/mvcc_vtproto.pb.go:1371-1384 | a successful read depends on the bytes it consumed and nothing else |
| `Varint.ReadVarintLoop` | internal/proto/mvcc_vtproto.pb.go:1371-1384 | the loop on dAtA with its two failure tests, at most ten turns, never reading at or past l, returns what ReadVarint says |
| `Wire.AddInt` | internal/proto/mvcc_vtproto.pb.go:1474-1480 | the `postIndex < 0` test: the wrapping sum of an index and a length is negative exactly on overflow and otherwise the true sum |
| `Wire.ReadLength` | internal/proto/mvcc_vtproto.pb.go:1451-1482 | an accepted length prefix gives bounds that lie strictly after the tag and inside the input |
| `Wire.ReadRecord` | internal/proto/mvcc_vtproto.pb.go:1368-1716 | an accepted record takes at least one byte and stays inside the input; a payload is strictly shorter than its record, so recursion is on a shorter slice |
| `Wire.ReadRecordLocal` | internal/proto/mvcc_vtproto.pb.go:1695-1708 | a record that was read depends on its own bytes only, not on what follows or on the cursor |
| `Wire.ReadRecordShift` | internal/proto/mvcc_vtproto.pb.go:1474-1480 | where a record starts can change its reading only from UnexpectedEOF to InvalidLength, exactly when its declared end passes the largest int |
| `Wire.DecodeAppend` | internal/proto/mvcc_vtproto.pb.go:1365-1716 | for any message: if a decodes, decoding a ++ b is decoding b into the result, at a shifted cursor |
| `Wire.MergeLaw` | internal/proto/mvcc_vtproto.pb.go:1365-1716 | for any generated decoder: a ++ b decodes to the same message or error as a and then b, if and only if the declared end of the failing record does not cross the largest int |
| `Skipping.SpecSkipMeetsContract` | internal/proto/mvcc_vtproto.pb.go:1695-1708 | a skipper written from the Protocol Buffers Encoding, groups included, meets the contract asked of protohelpers.Skip |
| `Decoding.WholeUnknownAppend` | internal/proto/mvcc_vtproto.pb.go:1695-1708 | runs of whole unknown records may be concatenated |
| `Decoding.ReadUnknownIsWhole` | internal/proto/mvcc_vtproto.pb.go:1695-1708 | what is captured as unknown is the record verbatim, and a whole record by itself |
| `Decoding.DecodeUnknown` | internal/proto/mvcc_vtproto.pb.go:1695-1708 | a run of unknown records alone is appended to the unknown bytes, for any message |
| `Decoding.DecodeCollectsUnknown` | internal/proto/mvcc_vtproto.pb.go:1695-1708 | of any accepted input, known and unknown fields mixed, exactly the unknown records are kept, verbatim and in order, for any message |
| `Canonical.UnknownIsKept` | internal/proto/mvcc_vtproto.pb.go:1695-1708 | the same for Command, decoded into any command; which field numbers are unknown, by the numbers themselves, is Dispatch.KeptByCommand |
| `Dispatch.VarintEnds` | internal/proto/mvcc_vtproto.pb.go:1371-1384 | a varint ends at its first byte below 128; the overflow error is for ten bytes of 128 or more, the early-end error for fewer |
| `Dispatch.LengthTests` | internal/proto/mvcc_vtproto.pb.go:1467-1482 | a length that is negative as an int or whose end is no int is an invalid length, one past the input an early end, and every other is accepted with its exact bounds |
| `Dispatch.IllegalTags` | internal/proto/mvcc_vtproto.pb.go:1386-1393 | in every message: wire type 4 is refused first, then a field number that is zero or negative as an int32, with that number and the tag |
| `Dispatch.WrongWireTypes` | internal/proto/mvcc_vtproto.pb.go:1395-1694 | which wire type each field of Command must have, by number, and the error for any other |
| `Dispatch.KeptByCommand` | internal/proto/mvcc_vtproto.pb.go:1695-1708 | one record whose field number is none of 1, 2, 3, 5 to 11 and that the skipper takes whole is appended verbatim to the unknown bytes of any Command, whatever its wire type but 4 |
| `Dispatch.KeptByKeyValue` | internal/proto/mvcc_vtproto.pb.go:3303-3459 | the same for KeyValue: every field number but 1 to 4 |
| `Dispatch.KeptByRange` | internal/proto/mvcc_vtproto.pb.go:1974-2151 | the same for RequestOp_Range: every field number but 1 to 5 |
| `Dispatch.KeptByPut` | internal/proto/mvcc_vtproto.pb.go:2152-2290 | the same for RequestOp_Put: every field number but 1 to 3 |
| `Dispatch.KeptByDeleteRange` | internal/proto/mvcc_vtproto.pb.go:2291-2449 | the same for RequestOp_DeleteRange: every field number but 1, 2, 4 and 5 |
| `Dispatch.KeptByRequestOp` | internal/proto/mvcc_vtproto.pb.go:2450-2623 | the same for RequestOp: every field number but 1 to 3 |
| `Dispatch.KeptByCompare` | internal/proto/mvcc_vtproto.pb.go:3113-3302 | the same for Compare: every field number but 1 to 4 and 64 |
| `Dispatch.KeptByTxn` | internal/proto/mvcc_vtproto.pb.go:1821-1973 | the same for Txn: every field number but 1 to 3 |
| `Dispatch.KeptByTxnRequest` | internal/proto/regatta_vtproto.pb.go:3044-3230 | the same for TxnRequest: every field number but 1 to 4 |
| `Dispatch.KeptByTableStatus` | internal/proto/regatta_vtproto.pb.go:3719-3896 | the same for TableStatus: every field number but 2 to 7 |
| `Dispatch.KeptByStatusResponse` | internal/proto/regatta_vtproto.pb.go:3968-4311 | the same for StatusResponse: every field number but 1 to 5 and 8 |
| `Dispatch.AssignedByCommand` | internal/proto/mvcc_vtproto.pb.go:1401-1694 | no accepted field of Command is dropped: a record that was read and is not unknown changes the message given back, or its assignment is refused |
| `Dispatch.AssignedByKeyValue` | internal/proto/mvcc_vtproto.pb.go:3303-3459 | the same for KeyValue |
| `Dispatch.AssignedByRange` | internal/proto/mvcc_vtproto.pb.go:1974-2151 | the same for RequestOp_Range |
| `Dispatch.AssignedByPut` | internal/proto/mvcc_vtproto.pb.go:2152-2290 | the same for RequestOp_Put |
| `Dispatch.AssignedByDeleteRange` | internal/proto/mvcc_vtproto.pb.go:2291-2449 | the same for RequestOp_DeleteRange |
| `Dispatch.AssignedByRequestOp` | internal/proto/mvcc_vtproto.pb.go:2450-2623 | the same for RequestOp |
| `Dispatch.AssignedByCompare` | internal/proto/mvcc_vtproto.pb.go:3113-3302 | the same for Compare |
| `Dispatch.AssignedByTxn` | internal/proto/mvcc_vtproto.pb.go:1821-1973 | the same for Txn |
| `Dispatch.AssignedByTxnRequest` | internal/proto/regatta_vtproto.pb.go:3044-3230 | the same for TxnRequest |
| `Dispatch.AssignedByTableStatus` | internal/proto/regatta_vtproto.pb.go:3719-3896 | the same for TableStatus |
| `Dispatch.AssignedByStatusResponse` | internal/proto/regatta_vtproto.pb.go:3968-4311 | the same for StatusResponse, its map entries included |
| `Dispatch.NumbersOfCommand` | internal/proto/mvcc_vtproto.pb.go:1614-1694 | whatever the varint, canonical or not: the type is its low 32 bits, the leader index its low 64 bits, a flag is on when any of those is set |
| `Dispatch.NumbersOfRange` | internal/proto/mvcc_vtproto.pb.go:2071-2131 | the same for limit, keys_only and count_only |
| `Dispatch.NumbersOfPut` | internal/proto/mvcc_vtproto.pb.go:2152-2290 | the same for prev_kv of a put |
| `Dispatch.NumbersOfDeleteRange` | internal/proto/mvcc_vtproto.pb.go:2291-2449 | the same for prev_kv and count of a delete |
| `Dispatch.NumbersOfKeyValue` | internal/proto/mvcc_vtproto.pb.go:3303-3459 | the same for the two revisions |
| `Dispatch.NumbersOfCompare` | internal/proto/mvcc_vtproto.pb.go:3113-3302 | the same for the two enums of a comparison |
| `Dispatch.NumbersOfTableStatus` | internal/proto/regatta_vtproto.pb.go:3719-3896 | the same for the five numbers of a TableStatus |
| `Dispatch.PayloadsOfCommand` | internal/proto/mvcc_vtproto.pb.go:1401-1694 | bytes that were written are present, empty or not; kv and txn merge into what is there, batch and sequence elements start fresh, and the error of a nested message is the error of the whole |
| `Dispatch.BytesOfKeyValue` | internal/proto/mvcc_vtproto.pb.go:3303-3459 | key and value of a KeyValue that were written are present, empty or not, and replace what was there |
| `Dispatch.BytesOfRange` | internal/proto/mvcc_vtproto.pb.go:1974-2151 | the same for key and range end of RequestOp_Range |
| `Dispatch.BytesOfPut` | internal/proto/mvcc_vtproto.pb.go:2152-2290 | the same for key and value of RequestOp_Put |
| `Dispatch.BytesOfDeleteRange` | internal/proto/mvcc_vtproto.pb.go:2291-2449 | the same for key and range end of RequestOp_DeleteRange |
| `Dispatch.BytesOfCompare` | internal/proto/mvcc_vtproto.pb.go:3113-3302 | the same for key, value and range end of Compare |
| `Dispatch.BytesOfTableStatus` | internal/proto/regatta_vtproto.pb.go:3719-3896 | the same for the leader of TableStatus |
| `Dispatch.PayloadsOfTxn` | internal/proto/mvcc_vtproto.pb.go:1821-1973 | the same for the three lists of a Txn |
| `Dispatch.PayloadsOfRequestOp` | internal/proto/mvcc_vtproto.pb.go:2450-2623 | the same for the oneof: the same case is merged into, another one replaced |
| `Dispatch.PayloadsOfTxnRequest` | internal/proto/regatta_vtproto.pb.go:3044-3230 | the same for TxnRequest |
| `Dispatch.BytesOfStatusResponse` | internal/proto/regatta_vtproto.pb.go:3968-4311 | the same for the strings, the configuration and the errors of a StatusResponse |
| `Dispatch.EntryOfStatusResponse` | internal/proto/regatta_vtproto.pb.go:4093-4221 | a map entry with its parts in any order and number, unknown records between them: the last key is set to the last value, a missing key being empty and a missing value nil |
| `Dispatch.NilBodyWhen` | internal/proto/mvcc_vtproto.pb.go:2508-2512 | a decode into a nil body panics exactly when its first record can be read, or is a limit, which is assigned while it is read; otherwise it returns the read error |
| `Decoding.StepRepeated` | internal/proto/mvcc_vtproto.pb.go:1638-1674 | a repeated field decodes element by element, in the order written |
| `RoundTrip.DecodeOntoKeyValue` | internal/proto/mvcc_vtproto.pb.go:3303-3459 | decoding a written KeyValue into another one merges field by field |
| `RoundTrip.DecodeOntoRange` | internal/proto/mvcc_vtproto.pb.go:1974-2151 | the same for RequestOp_Range, with negative limits |
| `RoundTrip.DecodeOntoPut` | internal/proto/mvcc_vtproto.pb.go:2152-2290 | the same for RequestOp_Put |
| `RoundTrip.DecodeOntoDeleteRange` | internal/proto/mvcc_vtproto.pb.go:2291-2449 | the same for RequestOp_DeleteRange |
| `RoundTrip.DecodeOntoCompare` | internal/proto/mvcc_vtproto.pb.go:3113-3302 | the same for Compare: enums in 32 bits, the two-byte tag of range_end, Compare_Value replaced |
| `RoundTrip.DecodeOntoRequestOp` | internal/proto/mvcc_vtproto.pb.go:2450-2623 | for every target: a written oneof case is merged into the same case and replaces another one, a nil body is not written, and a written one panics on a target of the same case without a body unless it is empty |
| `RoundTrip.DecodeOntoNil` | internal/proto/mvcc_vtproto.pb.go:2508-2512 | the last case by itself |
| `RoundTrip.DecodeOntoTxn` | internal/proto/mvcc_vtproto.pb.go:1821-1973 | repeated comparisons and operations are appended in order, nil ones as empty messages |
| `RoundTrip.DecodeOntoCommand` | internal/proto/mvcc_vtproto.pb.go:1365-1716 | the merge law on trees: decoding a written Command into any other is MergeCommand, for any nesting of Sequence, Batch and Txn |
| `RoundTrip.MergeIntoFresh` | internal/proto/mvcc_vtproto.pb.go:1476-1482 | into a zero message, merging is the normal form |
| `RoundTrip.RoundTripCommand` | internal/proto/mvcc_vtproto.pb.go:40-141 | UnmarshalVT of MarshalVT into a fresh Command gives the tree back in normal form, for every tree whose unknown bytes are whole records |
| `RoundTrip.PresenceSurvives` | internal/proto/mvcc_vtproto.pb.go:84-90 | at every level of the tree: an empty RangeEnd, a zero LeaderIndex and an empty Compare_Value are still present after the round trip, absent ones absent |
| `RoundTrip.CommandMergeLaw` | internal/proto/mvcc_vtproto.pb.go:1365-1716 | for arbitrary bytes: decoding a ++ b into m gives the same message or error as a and then b, with the exact condition under which the error differs |
| `RoundTrip.ConcatenationMerges` | internal/proto/mvcc_vtproto.pb.go:1476-1482 | two encodings one after the other decode to the merge of the two messages |
| `RoundTrip.MergeLawErrorsCanDiffer` | internal/proto/mvcc_vtproto.pb.go:1474-1482 | the error can differ: a concrete input that is UnexpectedEOF alone and InvalidLength after two more bytes |
| `Growth.ReencodingIsBounded` | internal/proto/mvcc_vtproto.pb.go:982-1049 | re-encoding an accepted input at most doubles its length |
| `Growth.ReadIsNoShorter` | internal/proto/mvcc_vtproto.pb.go:1371-1384 | a varint that was read is at least as long as the one written for its value |
| `Canonical.ReencodingIsStable` | internal/proto/mvcc_vtproto.pb.go:1365-1716 | for every byte string UnmarshalVT accepts (up to half the largest length), decoding the re-encoding gives an equal message (in normal form), unknown records included |
| `Canonical.EncodeNormCommand` | internal/proto/mvcc_vtproto.pb.go:40-141 | normalising a message does not change a byte of its encoding, so re-encoding reaches a fixed point at once |
| `Canonical.RoundTripIsExactWhen` | internal/proto/mvcc_vtproto.pb.go:133-141 | the very same message comes back if and only if it holds no empty plain bytes, nil element, oneof case without body or nil Compare_Value |
| `Canonical.EmptyTableIsLost` | internal/proto/mvcc_vtproto.pb.go:133-139 | a Command with an empty, non-nil Table does not come back as it was |
| `FieldOrder.CommandAscends` | internal/proto/mvcc_vtproto.pb.go:40-141 | the encoding of a Command is its declared fields, readable and in ascending order of their numbers, and then its unknown bytes |
| `FieldOrder.RangeAscends` | internal/proto/mvcc_vtproto.pb.go:280-332 | the same for RequestOp_Range |
| `FieldOrder.PutAscends` | internal/proto/mvcc_vtproto.pb.go:352-389 | the same for RequestOp_Put |
| `FieldOrder.DeleteRangeAscends` | internal/proto/mvcc_vtproto.pb.go:409-456 | the same for RequestOp_DeleteRange |
| `FieldOrder.KeyValueAscends` | internal/proto/mvcc_vtproto.pb.go:909-946 | the same for KeyValue |
| `FieldOrder.TxnAscends` | internal/proto/mvcc_vtproto.pb.go:211-260 | the same for Txn |
| `FieldOrder.TxnRequestAscends` | internal/proto/regatta_vtproto.pb.go:530-586 | the same for TxnRequest |
| `FieldOrder.CompareAscends` | internal/proto/mvcc_vtproto.pb.go:827-875 | the same for Compare, except that its oneof, field 4, stands behind field 64 |
| `Writer.EncodeVarintBefore` | internal/proto/mvcc_vtproto.pb.go:128-132 | writes the varint just before the offset, touches nothing else and returns where it starts |
| `Writer.PutNumber` | internal/proto/mvcc_vtproto.pb.go:312-316 | a non-zero scalar is written before the offset, a zero one not at all |
| `Writer.PutBytes` | internal/proto/mvcc_vtproto.pb.go:133-139 | a non-empty bytes field is written before the offset |
| `Writer.PutElement` | internal/proto/mvcc_vtproto.pb.go:62-73 | the length and tag of a nested message already written before the offset |
| `Marshal.MarshalKeyValue` | internal/proto/mvcc_vtproto.pb.go:909-946 | writes exactly SizeVT bytes at the end of the buffer, leaves every other byte alone and never indexes below 0 |
| `Marshal.MarshalRange` | internal/proto/mvcc_vtproto.pb.go:280-332 | the same for RequestOp_Range |
| `Marshal.MarshalPut` | internal/proto/mvcc_vtproto.pb.go:352-389 | the same for RequestOp_Put |
| `Marshal.MarshalDeleteRange` | internal/proto/mvcc_vtproto.pb.go:409-456 | the same for RequestOp_DeleteRange |
| `Marshal.MarshalRequestOp` | internal/proto/mvcc_vtproto.pb.go:476-498 | the same for RequestOp: the unknown bytes first, then the oneof case |
| `Marshal.MarshalRequest` | internal/proto/mvcc_vtproto.pb.go:500-556 | the three oneof wrappers, a nil body included |
| `Marshal.MarshalCompare` | internal/proto/mvcc_vtproto.pb.go:827-875 | the same for Compare, with the two-byte tag of range_end |
| `Marshal.MarshalTxn` | internal/proto/mvcc_vtproto.pb.go:211-260 | the same for Txn; the last element of a repeated field is written first |
| `Marshal.MarshalCommands` | internal/proto/mvcc_vtproto.pb.go:62-73 | the loop over Sequence from the last element to the first, recursively |
| `Marshal.MarshalCommand` | internal/proto/mvcc_vtproto.pb.go:40-141 | for every tree, on any buffer of length at least SizeVT: exactly SizeVT bytes at its end, the encoding, and nothing else changed |
| `Marshal.MarshalVT` | internal/proto/mvcc_vtproto.pb.go:22-33 | MarshalVT fills its fresh buffer exactly with the encoding |
| `UnmarshalLoops.ReadLengthAt` | internal/proto/mvcc_vtproto.pb.go:1451-1482 | the length prefix with its three tests, on the buffer |
| `UnmarshalLoops.SkipAt` | internal/proto/mvcc_vtproto.pb.go:1695-1708 | the default case: a skipped record that would end outside the slice is refused |
| `UnmarshalLoops.NextRecord` | internal/proto/mvcc_vtproto.pb.go:1368-1400 | the head of every decoding loop: tag, end-group and illegal-tag tests, wire types, the bounds of the value |
| `UnmarshalLoops.UnmarshalKeyValueAt` | internal/proto/mvcc_vtproto.pb.go:3303-3459 | the loop on the slice dAtA[lo..hi] computes the decoder function, never reads outside it and terminates |
| `UnmarshalLoops.UnmarshalRangeAt` | internal/proto/mvcc_vtproto.pb.go:1974-2151 | the same for RequestOp_Range |
| `UnmarshalLoops.UnmarshalPutAt` | internal/proto/mvcc_vtproto.pb.go:2152-2290 | the same for RequestOp_Put |
| `UnmarshalLoops.UnmarshalDeleteRangeAt` | internal/proto/mvcc_vtproto.pb.go:2291-2449 | the same for RequestOp_DeleteRange |
| `UnmarshalLoops.UnmarshalCompareAt` | internal/proto/mvcc_vtproto.pb.go:3113-3302 | the same for Compare |
| `UnmarshalLoops.IntoNilAt` | internal/proto/mvcc_vtproto.pb.go:2508-2512 | UnmarshalVT on a nil body: the panic at the first assignment, or the read error met before it |
| `UnmarshalLoops.UnmarshalRequestOpAt` | internal/proto/mvcc_vtproto.pb.go:2450-2623 | the same for RequestOp, merging into the oneof case already there |
| `UnmarshalLoops.UnmarshalTxnAt` | internal/proto/mvcc_vtproto.pb.go:1821-1973 | the same for Txn |
| `UnmarshalLoops.UnmarshalCommandAt` | internal/proto/mvcc_vtproto.pb.go:1365-1716 | the same for Command, recursion on strictly shorter slices |
| `Messages.DecodeCommandIsDecode` | internal/proto/mvcc_vtproto.pb.go:1365-1716 | the recursive Command decoder is an instance of the generic record loop all laws are proved for |
| `Pool.ResetGivesReset` | internal/proto/mvcc_vtproto.pb.go:954-972 | ResetVT keeps the invariant of the hidden capacity and leaves a message that shows nothing but possibly empty bytes |
| `Pool.ResetKeepsArrays` | internal/proto/mvcc_vtproto.pb.go:954-972 | ResetVT keeps, emptied, each slice that was there, and both backing arrays with every element in its place, the visible ones reset |
| `Pool.AssignedUpTo` | internal/proto/mvcc_vtproto.pb.go:1365-1716 | a decode that fails has assigned exactly the records before the refused one, and its error is that record's |
| `Pool.PartsStay` | internal/proto/mvcc_vtproto.pb.go:1638-1674 | a nested message stays in its place with what was assigned of it, whether its decode failed or not |
| `Pool.UnmarshalResetAgrees` | internal/proto/mvcc_vtproto.pb.go:1663-1673 | decoding into a reset Command gives the error and, up to nil-versus-empty bytes, the message of decoding into a fresh one |
| `Pool.RunKeepsInv` | internal/proto/mvcc_vtproto.pb.go:1532-1542 | over any history of decodes (failed ones included) and resets, every element between len and cap is nil or reset |
| `Pool.PooledDecodesLikeFresh` | internal/proto/mvcc_vtproto.pb.go:973-981 | a Command taken from the pool after any such history decodes like a fresh one |
| `Pool.UnmarshalLeavesOver` | internal/proto/mvcc_vtproto.pb.go:1663-1673 | what a reset Command shows after an accepted input is what a fresh one shows, with the empty slices left over, at every level |
| `Pool.PooledIsExactWhen` | internal/proto/mvcc_vtproto.pb.go:954-981 | after any history, a Command from the pool shows exactly what a fresh one shows if and only if, at every level, the input sets each Table and RangeEnd that ResetVT did not leave nil |
| `Pool.RangeEndPresence` | internal/proto/mvcc_vtproto.pb.go:954-972 | presence of the root's RangeEnd is right after a pooled decode if and only if the input sets it or the reset message had it nil |
| `Pool.PresenceLeaks` | internal/proto/mvcc_vtproto.pb.go:962-970 | as written, a reused Command decoded from an encoding without range end shows an empty, present one, and re-encodes differently |
| `Pool.NestedPresenceLeaks` | internal/proto/mvcc_vtproto.pb.go:962-970 | the same one level down, in a Sequence element taken up again, although the root is clean |
| `Unsafe.SafeAndUnsafeAgree` | internal/proto/mvcc_vtproto.pb.go:3460-3805 | on every input UnmarshalVT and UnmarshalVTUnsafe fail with the same error or succeed with equal contents |
| `Unsafe.DecodeCommandCommutes` | internal/proto/mvcc_vtproto.pb.go:3460-3805 | the agreement at every slice, cursor and partly decoded message |
| `Unsafe.WriteShowsInCommand` | internal/proto/mvcc_vtproto.pb.go:3460-3805 | for every byte and every decoded tree: writing the byte changes what the references show if and only if one of them, at any depth, covers it |
| `Unsafe.LaterWriteShowsWhen` | internal/proto/mvcc_vtproto.pb.go:3513-3514 | after a write to byte i the unsafe result differs from the safe one, which is the view of the buffer as it was decoded, if and only if a reference covers i |
| `Status.RoundTripTableStatus` | internal/proto/regatta_vtproto.pb.go:821-866 | TableStatus round trip, with the three uint64 fields |
| `Status.RoundTripStatus` | internal/proto/regatta_vtproto.pb.go:929-1004 | for every iteration order of Tables the encoding decodes to the same map, nil values as empty TableStatus |
| `Status.ReadItems` | internal/proto/regatta_vtproto.pb.go:4093-4221 | the entry loop over any run of key, value and unknown records gives the last key and the last value, each value decoded on its own |
| `Status.SizeIgnoresOrder` | internal/proto/regatta_vtproto.pb.go:1670-1682 | the sum over the map entries is the same in any two orders |
| `Status.SizeStatusIsLength` | internal/proto/regatta_vtproto.pb.go:1652-1695 | SizeVT added up in one order is the length of the encoding written in another |
| `Status.BoundedIsAccepted` | internal/proto/regatta_vtproto.pb.go:4093-4221 | what a decoder that confines each entry to its own bytes accepts, this one accepts with the same result, although it checks bounds against l |
| `Status.EntryConfinedWhen` | internal/proto/regatta_vtproto.pb.go:4093-4221 | an accepted entry can be read from its own bytes alone if and only if the cursor of the entry loop stops exactly at its end |
| `Status.EntriesConfinedWhen` | internal/proto/regatta_vtproto.pb.go:4093-4221 | on every accepted input, a decoder that confines entries gives the same message if and only if every entry's cursor stops exactly at its end |
| `Status.EntryMayOverrun` | internal/proto/regatta_vtproto.pb.go:4093-4221 | the converse fails: an accepted input whose entry announces a key that runs past the entry |
| `StatusLoops.MarshalTableStatus` | internal/proto/regatta_vtproto.pb.go:821-866 | writes exactly SizeVT bytes before the offset and nothing else |
| `StatusLoops.MarshalTables` | internal/proto/regatta_vtproto.pb.go:960-980 | the loop over the map, in whatever order, writes every entry once |
| `StatusLoops.MarshalStatus` | internal/proto/regatta_vtproto.pb.go:929-1004 | writes exactly SizeVT bytes, whatever orders SizeVT and the writer iterate in |
| `StatusLoops.UnmarshalTableStatusAt` | internal/proto/regatta_vtproto.pb.go:3719-3896 | the loop on the buffer computes the decoder function |
| `StatusLoops.ReadPartAt` | internal/proto/regatta_vtproto.pb.go:4095-4215 | one record of an entry on the buffer: bounds against l |
| `StatusLoops.ReadEntryAt` | internal/proto/regatta_vtproto.pb.go:4093-4221 | the nested entry loop on the buffer: bounds against l, the skip against postIndex, the cursor may overrun |
| `StatusLoops.UnmarshalStatusAt` | internal/proto/regatta_vtproto.pb.go:3968-4311 | the loop on the buffer, filling the map entry by entry |
| `KeyRange.GetPrefix` | op.go:305-318 | the right-to-left loop on a copy of the key; the key is not changed |
| `KeyRange.PrefixSelection` | op.go:305-332 | for every non-empty prefix p and key k: k lies in the range from p to getPrefix(p) if and only if p is a prefix of k |
| `KeyRange.OrdinaryEndIsNoSentinel` | op.go:315-317 | the sentinel is returned exactly for keys of 0xff only; any other end is above the key |
| `KeyRange.PrefixEndIsLeast` | op.go:299-318 | an ordinary end is the least byte string above all keys with the prefix |
| `KeyRange.EmptyPrefix` | op.go:326-329 | the range WithPrefix gives the empty key holds exactly the non-empty keys |
| `Ops.ApplyOptsLoop` | op.go:282-286 | the options change the Op one after the other, in the order given; what they then have changed is Ops.OptionsSet |
| `Ops.OptionsSet` | op.go:293-381 | over any list of options: a flag is on if and only if its option is in the list or it was on before, limit and revision are those of the last WithLimit and WithRev, a range end is set if and only if some range option is given, and no other field changes |
| `Ops.GetAcceptsWhen` | op.go:197-211 | OpGet panics exactly for WithPrefix together with WithFromKey, WithCount or WithPrevKV |
| `Ops.IterateAcceptsWhen` | op.go:213-228 | OpIterate accepts exactly what OpGet accepts |
| `Ops.DeleteAcceptsWhen` | op.go:231-252 | OpDelete panics exactly for the forbidden pair, WithSerializable, WithCountOnly, or a last limit or revision other than 0 |
| `Ops.PutAcceptsWhen` | op.go:255-275 | OpPut panics exactly for an option that sets a range, WithSerializable, WithCountOnly, or a last limit or revision other than 0; what it accepts has the key and value given |
| `Ops.LastRangeOptionDecides` | op.go:323-352 | over any list of options, the last of WithPrefix, WithFromKey and WithRange decides which keys are selected |
| `Ops.PrefixIsExactWhen` | op.go:320-332 | WithPrefix selects exactly the keys with the prefix (all non-empty keys for the empty key) if and only if the key was not an empty one already raised by an earlier option |
| `Ops.PrefixTwiceMisses` | op.go:197-211 | OpGet with WithPrefix twice on the empty key is accepted and misses a key |
| `Ops.ComparedKeysHavePrefix` | op.go:486-490 | Cmp.WithPrefix compares exactly the keys with the prefix, for the empty key all keys |
| `Ops.IsWriteLoop` | op.go:175-190 | the search stops at the first write and answers IsWrite |
| `Ops.WritesIffSomeLeafDoes` | op.go:175-190 | an operation writes if and only if some operation reachable through nested transactions is no Get |
| `TxnBuilder.Builder.If` | txn.go:46-67 | If panics and changes nothing after If, Then or Else; otherwise it appends the comparisons |
| `TxnBuilder.Builder.Then` | txn.go:69-88 | Then panics and changes nothing after Then or Else; otherwise it appends the operations and updates isWrite |
| `TxnBuilder.Builder.Else` | txn.go:90-106 | Else panics and changes nothing after Else; otherwise it appends the operations and updates isWrite |
| `TxnBuilder.Builder.Commit` | txn.go:108-125 | Commit panics and submits nothing when some accumulated operation cannot be in a transaction; otherwise it hands the accumulated lists to the KV and returns its answer |
| `TxnBuilder.AcceptedRuns` | txn.go:46-106 | the runs that end without panic are exactly those whose If/Then/Else calls form a subsequence of If, Then, Else and whose every Commit finds only gets, puts and deletes |
| `TxnBuilder.CommitPanicsWhen` | op.go:137-173 | a Commit panics exactly when toTxnRequest does, for any table |
| `TxnBuilder.NestedTxnPanics` | op.go:170-172 | a nested transaction is taken by Then and makes Commit panic |
| `TxnBuilder.ReachableStates` | txn.go:69-106 | in every reachable state the builder holds exactly what it was given, and isWrite holds if and only if some operation writes, nested ones included |
| `TxnBuilder.CommitSubmitsWhatWasBuilt` | txn.go:108-115 | in every run each Commit submits the comparisons and operations of the calls before it, a repeated one again |
| `Requests.MarshalTxnRequest` | internal/proto/regatta_vtproto.pb.go:530-586 | writes exactly SizeVT bytes before the offset and nothing else |
| `Requests.UnmarshalTxnRequestAt` | internal/proto/regatta_vtproto.pb.go:3044-3230 | the loop on the buffer computes the decoder function |
| `Requests.DecodeOntoTxnRequest` | internal/proto/regatta_vtproto.pb.go:3044-3230 | decoding a written TxnRequest into another one merges field by field |
| `Requests.RoundTripTxnRequest` | internal/proto/regatta_vtproto.pb.go:530-586 | TxnRequest round trip in normal form |
| `Requests.ToRequestOpsLoop` | op.go:137-145 | fills the slice of request operations in order; the first unsupported operation panics |
| `Requests.ConvToOpsLoop` | fake.go:250-257 | fills the slice of operations in order; the first unrecognised request panics |
| `Requests.TranslatedOps` | op.go:153-173 | a list of operations is translatable exactly when it holds gets, puts and deletes, and comes back projected on the fields a transaction carries |
| `Requests.RequestOfGet` | op.go:153-163 | the request of a Get with any accepted options: its last limit, keys_only and count_only exactly when asked for, the key raised only by an earlier rule for the empty key |
| `Requests.RequestOfPut` | op.go:164-166 | the request of a Put: its key, its value, prev_kv exactly when asked for |
| `Requests.RequestOfDelete` | op.go:167-169 | the request of a Delete: prev_kv and count exactly when asked for |
| `Requests.BytesOfRequest` | op.go:153-173 | which field of the encoded request each field of the operation is, by number |
| `Requests.EndToEnd` | op.go:137-151 | toTxnRequest, MarshalVT, UnmarshalVT and convTxnToRequest in a row give the same comparisons and operations in order; refused exactly when some operation cannot be in a transaction |
| `Requests.CarriedMeansTheSame` | fake.go:274-303 | what arrives selects the same keys and is a write just as the original |
| `Requests.RequestOfConverted` | fake.go:274-303 | convToOp recognises exactly the requests with a body; toRequestOp after it is the identity if and only if there are no unknown fields |
| `Responses.ConvResponsesToProto` | fake.go:312-333 | the appending loop, the first answer set deciding |
| `Responses.ConvResponseOps` | kv.go:412-433 | the appending loop, with the getters' defaults |
| `Responses.ResponsesRoundTripWhen` | kv.go:412-433 | the client gets the server's list back unchanged if and only if every element holds exactly one answer, without a header |
| `Responses.WhatArrives` | fake.go:312-333 | of any list the server builds the client gets, in order, the first answer of each element (get, put, delete) without its header, and nothing for an element without one |
| `Responses.WhatWasSent` | kv.go:412-433 | what the client reads off any list of wire answers says what stood there: nil bodies are empty ones, answers without a case are left out |
| `Responses.HeaderIsLost` | fake.go:312-333 | an answer with a header comes back without it |
| `Retry.FilterCallOptions` | interceptor.go:280-289 | an order-preserving partition of the call options |
| `Retry.EffectiveOptionsOf` | kv.go:479-497 | Range is retried as repeatable up to 10 attempts, IterateRange as repeatable up to 5, the writes as nonRepeatable up to 10, all with the quorum backoff of 25 ms and 10% jitter, and the caller's gRPC options pass in order |
| `Retry.RepeatsWhen` | interceptor.go:237-331 | the policies by code and message: DeadlineExceeded and Canceled are repeated under a live context, Unavailable when repeatable, "no address/connection available" without a status or with Unavailable when nonRepeatable, nothing else |
| `Retry.InterruptedWait` | interceptor.go:218-234 | a wait is cut short exactly when the timer is set and the context ends; the error then has code DeadlineExceeded, Canceled or Unknown after the context's own error |
| `UnaryRetry.UnaryCall` | interceptor.go:28-57 | the retry loop returns the error, and makes the waits and invocations, that the function Call gives; FollowedWhen, ErrorOfCall and EventsOfCall say what those are |
| `UnaryRetry.FollowedWhen` | interceptor.go:32-57 | attempt j is followed by another if and only if its error is one the table of codes and messages allows (with the context live where that matters), the bound is not reached and the wait is not cut short |
| `UnaryRetry.ErrorOfCall` | interceptor.go:32-57 | a call returns the outcome of its last attempt, or the status of the context that ended the wait after it |
| `UnaryRetry.EventsOfCall` | interceptor.go:32-40 | the waits and invocations of a call in their order, each wait before its invocation |
| `UnaryRetry.ReadGoesOnWhen` | kv.go:479-481 | a Get goes on after attempt j if and only if its status is Unavailable, or DeadlineExceeded or Canceled under a live context, j + 1 is below ten and the wait is not cut short |
| `UnaryRetry.WriteGoesOnWhen` | kv.go:487-497 | a Put, Delete or Txn goes on only, and always, after "no address/connection available" (no status, or Unavailable) or after DeadlineExceeded or Canceled under a live context, within the same bounds |
| `UnaryRetry.BoundedAndLicensed` | interceptor.go:32-57 | over every sequence of outcomes: between 1 and max invocations (one if max is 0), each later one licensed by a context-coded error under a live context or by isSafeRetry, and where and with what error the call ends |
| `UnaryRetry.GoesOnWhen` | interceptor.go:32-57 | attempt i+1 is made if and only if the bound allows it, every attempt up to i licenses the next and no wait up to it ends the call |
| `UnaryRetry.NonRepeatableSendsOnceWhen` | interceptor.go:313-331 | of a nonRepeatable call every invocation but the last failed with "no address/connection available", if and only if the call never goes on after a context-coded attempt |
| `UnaryRetry.WritesAtMostOnceWhenNoDeadline` | interceptor.go:313-331 | in surroundings without the live-context case a write is repeated only after "no address/connection available" |
| `UnaryRetry.DeadlineIsRetried` | interceptor.go:45-51 | a Put whose first attempt ends in the server's DeadlineExceeded under a live context is sent again |
| `UnaryRetry.ClientCallsAreBounded` | client.go:211-217 | every non-streaming call of the client makes at most ten attempts |
| `QuorumBackoff.OneSleepPerQuorum` | client.go:390-402 | any n/2+1 consecutive attempts after the first contain exactly one sleep, also for n = 0 |
| `QuorumBackoff.SleepsBetween` | client.go:390-402 | the number of sleeps between two attempts, in closed form |
| `QuorumBackoff.SleepsOfCall` | interceptor.go:218-234 | a call of m attempts sleeps exactly (m-1)/(n/2+1) times, each time between wait * (1 - jitter) and wait * (1 + jitter), and in all within that many times those bounds |
| `QuorumBackoff.Jittered` | kv.go:565-569 | a jittered wait is positive and lies between wait * (1 - jitter) and wait * (1 + jitter) |
| `QuorumBackoff.WaitOfClient` | client.go:211-217 | for the client's own options and every call: before attempt a the wait is 0.0225 + 0.005 * rand seconds if a is a positive multiple of n/2+1, and none otherwise |
| `QuorumBackoff.SleepsOfClient` | client.go:211-217 | a non-streaming call of the client that makes k attempts at n endpoints sleeps exactly (k-1)/(n/2+1) times, each time between 0.0225 and 0.0275 seconds |
| `StreamProxy.RetryingStream.SendMsg` | interceptor.go:126-131 | buffers the message and sends it on the current stream |
| `StreamProxy.RetryingStream.CloseSend` | interceptor.go:133-138 | half-closes the current stream |
| `StreamProxy.RetryingStream.ReceiveMsgAndIndicateRetry` | interceptor.go:175-197 | one receive and whether it may be retried, as the function ReceiveOnce gives them; when that is, by codes, is StreamAttempts.AnotherReceiveWhen |
| `StreamProxy.RetryingStream.ReestablishStreamAndResendBuffer` | interceptor.go:199-216 | opens a stream and replays the buffer on it, stopping at the first error |
| `StreamProxy.RetryingStream.RecvMsg` | interceptor.go:148-173 | the receive with its retry loop gives the state and answer of the function RecvMsg, which StreamAttempts characterises |
| `StreamAttempts.AnotherReceiveWhen` | interceptor.go:148-197 | over any behaviour of the surroundings: attempt a of a RecvMsg is followed by another receive if and only if nothing good came before, its error is one the table of codes allows under the context's state at that receive, a + 1 is below max, the wait is not cut short, and the new stream opens and takes every buffered message and the half-close |
| `StreamAttempts.AnswerOfRecv` | interceptor.go:148-173 | what RecvMsg answers at each ending: the last receive (good, hard failure or bound), the status of the context that cut a wait short, or the error of opening or of the first refused input of the replay |
| `StreamAttempts.FirstErrorIs` | interceptor.go:199-216 | the error of a replay is that of the first input the new stream refuses, and there is none if and only if it refuses none |
| `StreamAttempts.IterateRangeGoesOnWhen` | kv.go:483-485 | the same for IterateRange: Unavailable, or DeadlineExceeded or Canceled under a live context, at most five receives |
| `StreamRetry.SingleSourceDelivery` | interceptor.go:148-197 | over every run and every behaviour of the streams, the messages and the end returned come from one underlying stream, in its order, none skipped or repeated |
| `StreamRetry.NoNewStreamAfterGood` | interceptor.go:175-188 | once a receive has returned a message or the end, no new stream is ever opened |
| `StreamRetry.RecvIsBounded` | interceptor.go:154-171 | a RecvMsg performs at most max receives and max-1 re-establishments |
| `StreamRetry.IterateRangeIsBounded` | kv.go:483-485 | for the client's IterateRange: five receives, four re-establishments |
| `StreamRetry.ReplayIsTheBuffer` | interceptor.go:199-216 | in any state, a re-established stream has been sent exactly the buffered messages in order and one half-close |
| `StreamRetry.FaithfulReplay` | interceptor.go:126-138 | for SendMsg*, CloseSend*, RecvMsg*: every stream made current by a retry got the messages in order and one half-close, which is the original's input if and only if the client half-closed once (or no retry took place) |
| `StreamRetry.StubReplaysFaithfully` | internal/proto/regatta_grpc.pb.go:71-84 | the generated stub sends once and half-closes once, so there every replay is the original's input |
| `StreamRetry.ReplayHalfClosesAnyway` | interceptor.go:212-214 | a concrete run in which a client has not half-closed and the stream that replaces the first one is half-closed all the same |

## Left out

- Pool.ResetVT and Pool.UnmarshalPooled: on values that carry their spare capacity, not on shared slices, so aliasing between a pooled Command and slices a caller kept is not captured; how much append over-allocates is left open.
- Pool.AssignedUpTo: a field the loop accumulates in place (an enum, a limit, a revision) holds a partial value when its varint is cut off; the model leaves the former one. ResetVT clears both before the message is used again.
- Unsafe.UnmarshalUnsafe: a function on the buffer, not a second set of loops; references are index pairs. That the safe decoder copies is built in: its messages hold bytes by value.
- UnmarshalLoops.UnmarshalCommandAt: messages are values, so a field assignment is an update of a variable; what the message holds after a failed decode is modelled in Pool only, record by record.
- UnmarshalLoops.UnmarshalRequestOpAt: the panic of a decode into a nil body is the error NilBody, after which the model has no state.
- Marshal.MarshalRequest: a oneof wrapper that is itself a nil pointer of its type is taken for an absent case.
- Status.StatusResponse: Config is kept as the undecoded bytes of its field, because its codec is an external package; None is a nil Config.
- Varint.ReadVarintLoop: the shift-or is written as an addition of integers cut to the width; Varint.OrIsAdd and Varint.OrIsAdd32 show on machine words that the two are the same, and the step from words to integers is the meaning of their addition.
- KeyRange.InRange: how the server reads a range is taken from the documentation of RangeRequest, since the server is not part of the repository.
- Ops.ApplyOptsLoop: options are the ones the package offers, not arbitrary functions a caller may write.
- TxnBuilder.Builder.Commit: the answer of the KV to a request is a parameter; hooks, contexts and the lock are not modelled.
- QuorumBackoff.SleepsOfCall: time is real-valued; the source cuts a jittered wait to whole nanoseconds, which only shortens it, and a wait that is interrupted is not counted.
- StreamRetry.RecvMsg: calls are sequential, as the generated stub makes them; SendMsg running beside RecvMsg is not modelled, nor are Header and Trailer.
- The other messages of the generated files (responses, replication, maintenance): the same encoding scheme, so more members but no harder theorem.
- Compare, Value and toRangeRequest: they copy their arguments into fields.
- The fake server's recorded requests and its cycling through answers: easy members.
- The Iterate closure: after an error it keeps receiving as long as the caller asks for more, so there is no bound to prove.
- Dialling, TLS, credentials, resolvers, compression, endpoints, plugins, loggers, hooks, configuration and JSON: I/O and plumbing.
