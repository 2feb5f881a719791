# Verified model of the cross-chain demo's wire codec, event loops and signer checks

The demo repository drives a cross-chain transfer contract from a command line tool. Three parts of
it have logic of their own, and this project models those three and proves what they promise.

**The protobuf codec of `SampleAuthExtension`** (`cli/types/auth.pb.go`), which follows the Protocol
Buffers encoding (sections "Base 128 Varints", "Message Structure", "Signed Integers" and "Groups").

- `Words.dfy`: bytes, 64-bit words, Go's wrapping `int`, and the bit operations, each defined bit by bit.
- `Varint.dfy`: the size formulas, the writer that fills a window of a byte array, and the three
  forms of the reader loop. The source inlines the reader four times; the two copies that build a
  tag are one method here.
- `WireFormat.dfy`: the recursive grammar of fields as concrete syntax trees, and its unambiguity.
- `FieldSkipper.dfy`: `skipAuth`, with `Run` as the meaning of its depth-counter loop.
- `MessageParser.dfy`: `Unmarshal`, on top of the skipper.
- `FieldPrinter.dfy`: abstract field trees printed with the codec's varints.
- `WireResult.dfy`, `Slices.dfy`: results with errors, and facts about slices.

`Run` and `Parse` take the arithmetic as a parameter: `Wrapping` is the code's, `Unbounded` adds
without overflow and reads lengths as unsigned 64-bit values, `Exact` also keeps the bits of a length
that the code's shift drops. The three are compared on every input. Where the code is laxer than the
encoding, the model follows the code: closing tags need not match, numbers inside groups are not
checked, a top-level number is bits 3 to 34 of the tag, and a tenth varint byte keeps one bit.

**The event iterator and watcher** (`cli/contract/crosssimplemodule/crosssimplemodule.go`), which nine
event types share as copies of one template. `EventLog.dfy` has logs and events, `EventIterator.dfy`
the iterator and `EventWatcher.dfy` the watcher. Unpacking a log is a given function that may fail.
Schedules are explicit: which ready case a `select` takes, what arrives when, and what arrives between
the two selects of one `Next` call. Theorems quantify over all of them.

**Signer conversion and authorization** (`cli/cmd/cross.go`, `src/MyERC20TransferModule.sol`).
`SignerAuthorization.dfy` has the contract's scan, `MessageConversion.dfy` the conversion of a message
and its effect on who is authorized. `Options.dfy` is the optional value.

Four properties that one might expect hold only under a condition, which is proved exact for all inputs:

- reading lengths without loss: the code and arithmetic that keeps every bit disagree exactly on messages
  with a length prefix of ten bytes whose last is above 1 (`ExactAgreesIff`, witness `TenthByteDropped`);
- matching group tags: the code is laxer than the encoding's rule exactly on messages with an unmatched
  group (`LaxIffUnmatched`, witness `UnmatchedGroupAccepted`);
- draining an iterator whose subscription has ended: it holds exactly when the end was nil or already
  received, or no decodable log is at the front (`DrainIff`, witness `ErrorEndRaces`);
- keeping authority through the conversion: it holds exactly when every signer whose truncated auth mode
  authorizes has an id that another signer's mode authorizes (`PreservedIff`, witness `TruncatedModeGrants`).

`dafny verify dfyconfig.toml` checks the whole project.

## Model

| member | source | states |
|---|---|---|
| Varint.SovLeast | cli/types/auth.pb.go:129-131 | n >= 1 bytes suffice for x by the bit-length formula exactly when x < 128^n, so the formula is the least byte count |
| Varint.SovRange | cli/types/auth.pb.go:129-131 | the size of a 64-bit value is between 1 and 10 bytes |
| Varint.SovMonotone | cli/types/auth.pb.go:129-131 | larger values never take fewer bytes |
| Varint.ZigZagValue | cli/types/auth.pb.go:132-134 | the shift-and-xor map sends a signed x to 2x, or to -2x-1 when x is negative |
| Varint.ZigZagInjective | cli/types/auth.pb.go:132-134 | the zigzag map on 64-bit words has a left inverse and stays within 64 bits |
| Varint.ZigZagSurjective | cli/types/auth.pb.go:132-134 | every 64-bit word is the zigzag image of a word, so the map is a bijection |
| Varint.SozLeast | cli/types/auth.pb.go:132-134 | the zigzag size is the least n for which the signed value lies in [-2^(7n-1), 2^(7n-1)) |
| Varint.EncodingIsVarint | cli/types/auth.pb.go:109-119 | the bytes the write loop produces are a complete varint of that value and number exactly what the size formula says |
| Varint.EncodeVarint | cli/types/auth.pb.go:109-119 | the writer fills exactly the window that ends at the offset, returns its start, and leaves every other byte of the buffer unchanged |
| Varint.WriterIsShortest | cli/types/auth.pb.go:109-119 | no byte string that reads as v is shorter than what the writer emits for v |
| Varint.VarintSizeOutcomes | cli/types/auth.pb.go:141-154 | a read succeeds exactly when some prefix is a varint of at most ten bytes; overflow means ten continuation bytes, end of input means fewer bytes that all continue |
| Varint.AccumulateGroup | cli/types/auth.pb.go:148-150 | or-ing in the next shifted group gives the base-128 sum of all groups so far modulo 2^64, the tenth group keeping one bit |
| Varint.ReadUvarint | cli/types/auth.pb.go:141-154 | the tag reader's loop yields the base-128 sum modulo 2^64 of the first varint and the index behind it, or the right error |
| Varint.PassVarint | cli/types/auth.pb.go:208-219 | the loop without a value stops behind the same varint, with the same errors |
| Varint.AccumulateSigned | cli/types/auth.pb.go:231-233 | or-ing and shifting on signed ints keeps the bit pattern of the unsigned sum |
| Varint.ReadLength | cli/types/auth.pb.go:223-237 | the length loop yields the varint's 64 bits read as a signed int |
| Varint.ReadersByBytes | cli/types/auth.pb.go:141-237 | the bytes alone decide what each of the three readers answers: overflow after ten continuation bytes, end of input when it comes sooner, otherwise the one varint there with its end, its unsigned or its signed value |
| Varint.RoundTrip | cli/types/auth.pb.go:109-154 | reading at the place where v was written yields v and consumes exactly its size, for every 64-bit v and any surrounding bytes |
| WireFormat.FieldsAgree | cli/types/auth.pb.go:185-262 | two fields of the grammar that start the same bytes are the same field |
| WireFormat.ParseUnique | cli/types/auth.pb.go:135-184 | a byte string is the spelling of at most one list of fields |
| FieldSkipper.SkipAuth | cli/types/auth.pb.go:185-262 | the skipper with Go's wrapping indices, lengths and depth computes the meaning that the theorems below are about, without reading outside the buffer |
| FieldSkipper.ItemProgress | cli/types/auth.pb.go:189-256 | one turn of the loop moves forward or turns the index negative; overflow never yields a smaller index |
| FieldSkipper.RunField | cli/types/auth.pb.go:185-262 | wherever a grammar field of any nesting stands, and at any depth, the loop passes over exactly its bytes and is back at that depth |
| FieldSkipper.MembersFound | cli/types/auth.pb.go:185-262 | a run that succeeds from inside a group has read a list of grammar fields, a closing tag, and resumed one level up |
| FieldSkipper.RunIffField | cli/types/auth.pb.go:185-262 | in each of the three arithmetics, the loop succeeds in bounds exactly on the fields of the grammar |
| FieldSkipper.SkipIffField | cli/types/auth.pb.go:185-262 | `skipAuth` succeeds with n inside the buffer exactly when the first n bytes are one complete field of the recursive grammar |
| FieldSkipper.RunForward | cli/types/auth.pb.go:254-259 | every success lies strictly beyond the start, so the parser makes progress |
| FieldSkipper.StrayCloseIff | cli/types/auth.pb.go:244-248 | the unexpected-end-of-group error occurs exactly when the first tag is a closing tag |
| FieldSkipper.LengthOverflowRefused | cli/types/auth.pb.go:238-256 | wherever the loop stands, in front of a field or behind any members of an open group, a length that is negative as an int or would carry the index past the largest int is refused as invalid whatever follows |
| FieldSkipper.FixedOverflowRefused | cli/types/auth.pb.go:220-256 | at any such place, so is an eight- or four-byte value that would carry the index past the largest int |
| FieldSkipper.OverflowRefused | cli/types/auth.pb.go:191-230 | at any such place, ten continuation bytes in place of a tag, a varint value or a length are refused as overflow |
| FieldSkipper.InputEnds | cli/types/auth.pb.go:195-261 | at any such place, when the input ends before a tag, inside it or inside the varint behind it, the error is an unexpected end of input |
| FieldSkipper.UnknownWireTypeRefused | cli/types/auth.pb.go:251-252 | at any such place, in every arithmetic, wire types 6 and 7 are refused with their number |
| FieldSkipper.RunWraps | cli/types/auth.pb.go:222-257 | from any index and depth the wrapping loop differs from the loop without overflow only by reporting an invalid length where the other runs out of input or ends beyond 2^63 |
| FieldSkipper.SkipExtensionStable | cli/types/auth.pb.go:185-262 | appending bytes never changes a success, not even one past the end |
| FieldSkipper.OverrunCompletes | cli/types/auth.pb.go:220-259 | a result past the end means that any bytes making up the length complete a field |
| FieldSkipper.SkipTight | cli/types/auth.pb.go:185-262 | a success in bounds depends on exactly the bytes it skips |
| FieldSkipper.SkipTruncated | cli/types/auth.pb.go:185-262 | a field cut off anywhere is an unexpected end of input, or gives its full length beyond the cut |
| FieldSkipper.SkipPrefixFree | cli/types/auth.pb.go:185-262 | no proper prefix of a skipped field is itself skipped in bounds |
| MessageParser.UnmarshalAuth | cli/types/auth.pb.go:135-184 | the parser's loop computes the verdict, and the error, that the theorems below are about, in wrapping arithmetic and without reading outside the buffer |
| MessageParser.ParseField | cli/types/auth.pb.go:139-177 | in front of a valid field the parser goes on behind it, or refuses its number with that number and tag |
| MessageParser.NumberSign | cli/types/auth.pb.go:155-160 | the int32 field number is the low 32 bits of the tag's number, less 2^32 from 2^31 on, so it is positive exactly for 1..2^31-1 |
| MessageParser.ParseIffMessage | cli/types/auth.pb.go:135-184 | from any index the parser accepts exactly the concatenations of grammar fields with positive 32-bit top-level numbers |
| MessageParser.UnmarshalIffMessage | cli/types/auth.pb.go:135-184 | `Unmarshal` accepts exactly those byte strings, in each arithmetic |
| MessageParser.WrapKeepsVerdict | cli/types/auth.pb.go:170-175 | wrap-around never changes the verdict: the wrapping parser accepts exactly what the parser without overflow accepts |
| MessageParser.WrapKeepsOutcome | cli/types/auth.pb.go:170-175 | from any index it changes at most the error, and only from running out of input to an invalid length |
| MessageParser.ConcatenationLaw | cli/types/auth.pb.go:135-184 | if a is accepted then a ++ b is accepted if and only if b is |
| MessageParser.NextTagRefused | cli/types/auth.pb.go:155-162 | behind an accepted message a closing tag is refused as such whatever its number, and any other tag for a number whose low 32 bits are 0, reported as 0, or at least 2^31, reported as negative |
| MessageParser.SkipperErrorComesOut | cli/types/auth.pb.go:139-169 | behind an accepted message, the skipper's error, or the error of an unreadable tag, is the parser's error |
| MessageParser.OverrunRefused | cli/types/auth.pb.go:170-175 | behind an accepted message, a skipper result past the end is an unexpected end of input, or an invalid length exactly when the index overflows |
| MessageParser.TruncatedField | cli/types/auth.pb.go:163-176 | a message cut off inside a field, at any byte, is refused as an unexpected end of input |
| MessageParser.PrefixOfMessage | cli/types/auth.pb.go:135-184 | every prefix of an accepted message is accepted or refused as an unexpected end of input, and nothing else |
| MessageParser.ExactIffNoneOverlong | cli/types/auth.pb.go:223-241 | the code accepts a message whatever its length prefixes; arithmetic that keeps every bit accepts it exactly when no prefix, at any nesting, has ten bytes of which the last is above 1 |
| MessageParser.ExactAgreesIff | cli/types/auth.pb.go:223-241 | on every buffer, the code and exact length arithmetic agree if and only if it is not a message with such an overlong length prefix |
| MessageParser.TenthByteDropped | cli/types/auth.pb.go:223-241 | an eleven-byte buffer whose length prefix spells 2^64 is accepted by the code and refused by exact arithmetic |
| MessageParser.MatchedIff | cli/types/auth.pb.go:242-248 | a message is accepted whatever numbers close its groups, and obeys the encoding's rule exactly when every group of its one parse, at any nesting, is closed with its own number |
| MessageParser.LaxIffUnmatched | cli/types/auth.pb.go:242-248 | on every buffer, the code accepts what the rule for groups refuses exactly on messages with an unmatched group, and never refuses what the rule accepts |
| MessageParser.UnmatchedGroupAccepted | cli/types/auth.pb.go:242-248 | the two-byte witness: a group opened as field 1 and closed as field 2 is accepted although the rule refuses it |
| MessageParser.LoopEndsAtEnd | cli/types/auth.pb.go:180-182 | the index check after the loop can never fire |
| MessageParser.NoUnexpectedEndOfGroup | cli/types/auth.pb.go:157-169 | from any index, the skipper's end-of-group error cannot come out of the parser |
| MessageParser.UnmarshalNeverStrays | cli/types/auth.pb.go:157-169 | `Unmarshal` never returns the end-of-group error, because the first tag was already vetted |
| FieldPrinter.ConcreteValid | cli/types/auth.pb.go:109-119 | a tree printed with the codec's varints is a field of the grammar with exact lengths |
| FieldPrinter.PrintedFieldSkipped | cli/types/auth.pb.go:185-262 | any printed field tree, with any closing numbers, followed by any bytes is skipped in exactly its own length |
| FieldPrinter.PrintedMessageAccepted | cli/types/auth.pb.go:135-184 | a concatenation of printed trees is accepted if and only if the low 32 bits of every top-level number lie in 1..2^31-1 |
| FieldPrinter.SmallNumbersAccepted | cli/types/auth.pb.go:135-184 | with top-level numbers in 1..2^31-1 it is always accepted |
| FieldPrinter.PrintedMessageMatched | cli/types/auth.pb.go:242-248 | a printed message obeys the rule for groups exactly when it is accepted and every group is closed with its own number |
| FieldPrinter.PrintInjective | cli/types/auth.pb.go:109-119 | different lists of trees, closing numbers included, never print the same bytes |
| EventIterator.Iterator.constructor | cli/contract/crosssimplemodule/crosssimplemodule.go:1226-1226 | a new iterator has no event, log, end or failure and is not done |
| EventIterator.Iterator.Next | cli/contract/crosssimplemodule/crosssimplemodule.go:1150-1187 | a call blocks exactly while nothing has failed, ended or arrived, and then changes nothing; true means the front log was taken and unpacked with its raw log; false means the iterator has failed or is done with an empty queue; the whole new state is the step function of the run theorems, for every choice of the selects |
| EventIterator.AnswerMeaning | cli/contract/crosssimplemodule/crosssimplemodule.go:1150-1187 | in every state: blocking exactly then, true exactly for one more delivered event, false only if afterwards the iterator has failed or is done with an empty queue |
| EventIterator.NoEarlyFalse | cli/contract/crosssimplemodule/crosssimplemodule.go:1150-1187 | over every run, no call has returned false as long as the iterator has neither failed nor received the end |
| EventIterator.Iterator.Take | cli/contract/crosssimplemodule/crosssimplemodule.go:1158-1165 | the front log leaves the queue; a call returns true exactly when it unpacks, with its complete event, and otherwise stops the iterator with its error and an event without the raw log |
| EventIterator.RecursesOnce | cli/contract/crosssimplemodule/crosssimplemodule.go:1182-1185 | over any run `Next` is activated once per call, and once more in the one call that receives the end: the recursion happens at most once in an iterator's life and goes one level deep |
| EventIterator.Conservation | cli/contract/crosssimplemodule/crosssimplemodule.go:1150-1187 | over every schedule the returned events are the images, each with its log, of a prefix of the logs sent, in order; returned + queued + (1 if unpacking failed) = sent |
| EventIterator.FailureIsFinal | cli/contract/crosssimplemodule/crosssimplemodule.go:1151-1154 | after a failure every call returns false and only the queue can change |
| EventIterator.DoneIsFinal | cli/contract/crosssimplemodule/crosssimplemodule.go:1155-1170 | `done` is never cleared, and from then on no call blocks |
| EventIterator.Drain | cli/contract/crosssimplemodule/crosssimplemodule.go:1155-1186 | after a nil end and no more sends, whatever the selects pick, calls return true once per queued log up to the first that does not unpack, and false forever after |
| EventIterator.DrainIff | cli/contract/crosssimplemodule/crosssimplemodule.go:1155-1186 | once the subscription has ended, the queue drains whatever the selects pick if and only if the end was nil or already received, or the queue has no decodable log at its front |
| EventIterator.ErrorEndRaces | cli/contract/crosssimplemodule/crosssimplemodule.go:1172-1186 | the witness, one send and one error end from the start: the queued log is delivered, or never delivered, depending on the select |
| EventWatcher.Watcher.Watch | cli/contract/crosssimplemodule/crosssimplemodule.go:1247-1272 | the goroutine with its two nested selects changes its state as the step function of the theorems says and returns what that state says, for every finite stretch of its schedule |
| EventWatcher.Watcher.Offer | cli/contract/crosssimplemodule/crosssimplemodule.go:1259-1265 | the inner select is left only when the sink has taken the event or the goroutine has returned |
| EventWatcher.WatcherSafety | cli/contract/crosssimplemodule/crosssimplemodule.go:1247-1272 | over every interleaving the sink has the in-order images of a prefix of the arrived logs, is behind the consumed ones by at most one and not at all at the loop head, the result is the one of the exit taken, and the subscription is cancelled exactly once on returning |
| EventWatcher.SignalsKept | cli/contract/crosssimplemodule/crosssimplemodule.go:1261-1270 | a quit request and the subscription's first end stay ready over any schedule |
| EventWatcher.ExitsTaken | cli/contract/crosssimplemodule/crosssimplemodule.go:1249-1271 | from either select of every reachable running watcher each way out is taken exactly when its signal has been given: quitting returns nil, the end returns what came first, an undecodable log is consumed and returns its error; each cancels once and leaves the sink alone |
| EventWatcher.CanBeStopped | cli/contract/crosssimplemodule/crosssimplemodule.go:1261-1270 | a running watcher can be stopped at any time, by its user with nil and by the subscription with its error |
| EventWatcher.StoppedIsFinal | cli/contract/crosssimplemodule/crosssimplemodule.go:1247-1272 | after returning, the sink, the result and the cancellation never change |
| EventWatcher.RunDelivers | cli/contract/crosssimplemodule/crosssimplemodule.go:1249-1260 | while no exit is taken and everything unpacks, sink and pending events make up, in order, what they were and the images of the arrivals since |
| EventWatcher.DeliversAll | cli/contract/crosssimplemodule/crosssimplemodule.go:1249-1260 | from any point of the loop, after any schedule that takes no exit and brings any logs that unpack, enough further turns leave the queue empty and the sink with the in-order images of all that was pending or arrived |
| SignerAuthorization.Authorize | src/MyERC20TransferModule.sol:13-45 | the scan with its `continue` and `break` does not revert exactly when some signer has a 20-byte id equal to the address and is local, or an extension whose type URL hashes like "/extension.types.SampleAuthExtension" |
| SignerAuthorization.LocalSignerAuthorizes | src/MyERC20TransferModule.sol:22-27 | one local signer for the address is enough, whatever its option |
| SignerAuthorization.ExpectedExtensionAuthorizes | src/MyERC20TransferModule.sol:28-38 | one extension signer for the address with the expected type URL is enough |
| SignerAuthorization.OthersRefused | src/MyERC20TransferModule.sol:28-44 | if all signers for the address are extensions of another hash or in a third mode, the scan reverts |
| SignerAuthorization.BigEndianJoin | src/MyERC20TransferModule.sol:22-22 | an id is read with its most significant bytes first |
| SignerAuthorization.AuthorizationMonotone | src/MyERC20TransferModule.sol:19-40 | adding signers never takes authority away |
| SignerAuthorization.AuthorizationPermutes | src/MyERC20TransferModule.sol:19-40 | the verdict does not depend on the order of the signers |
| SignerAuthorization.GrantersShareId | src/MyERC20TransferModule.sol:22-22 | two granting signers have the same id exactly when they grant the same address |
| MessageConversion.ToContractMsgInitiateTxData | cli/cmd/cross.go:731-776 | the nested append loops deliver every field: chain id, nonce, heights and timeout as they are, enums by value when they fit, and at every index of both signer levels and of the transactions the same id, mode, type URL, value, channel and call info, with an empty `Any` for nil and empty return value and links |
| MessageConversion.MessageKept | cli/cmd/cross.go:721-776 | the specification function has the same fields |
| MessageConversion.FieldsDetermine | cli/cmd/cross.go:721-776 | those fields determine the data completely |
| MessageConversion.ConversionInjective | cli/cmd/cross.go:721-776 | messages whose enums fit in a byte and that have no nil `Any` stay distinguishable, so lengths, orders and contents are kept |
| MessageConversion.AuthorityAfter | cli/cmd/cross.go:734-742 | after conversion exactly those are authorized who were before, plus the owners of signers whose truncated mode authorizes |
| MessageConversion.PreservedIff | cli/cmd/cross.go:734-742 | authority over every address is preserved if and only if each such signer's id has another signer whose mode fits and authorizes |
| MessageConversion.ConversionPreservesAuthority | cli/cmd/cross.go:731-776 | with modes that fit in 8 bits, the message's signers and each transaction's signers authorize exactly the same addresses as before |
| MessageConversion.TruncatedModeGrants | cli/cmd/cross.go:738-738 | a signer with a mode 256 above the local one authorizes only after the conversion |

## Left out

- The cross-chain commit protocol, coordinator state, signature checks and channels: only their ABI is in the repository.
- `Marshal`, `Size` and the `XXX_` methods: the message has no fields, so they produce nothing.
- The other eight event templates and those of `cli/contract/myerc20/myerc20.go`: copies of the ones modelled.
- `Error` and `Close` of the iterator and the rule-building loops of the filters: a field read, one library call and plain copying.
- Codec error texts: an error is modelled by its kind, with the number and tag where the code prints them.
- Byte slices that are only read (`skipAuth`, `Unmarshal`) are sequences; only the written buffer of `encodeVarintAuth` is an array. Slices shared between a message and its conversion are values, so later writes through one are not seen in the other.
- The bounded capacity of the log channel: a send that would block simply happens later, so every real schedule is still covered.
- The error channel after its first value: `Next` and the watcher receive from it at most once.
- `event.NewSubscription` around the watcher, which turns the user's unsubscribing into the quit signal and reports the result: library code.
- EventWatcher.Watcher.Watch: covers finite stretches of the unbounded loop; a select case that is not ready is passed over instead of waited for.
- Solidity's check that an enum read from call data is in range (the number of variants is not in the repository), and `decodeCallInfo`: the mode is a byte and the from address a parameter.
- SignerAuthorization.Authorize: the final revert is the result false; keccak256 and the numbers of the two modes are given from outside.
- Fields of the Go transaction types that the conversion does not read; the contract's return value and links stay empty as in the code.
- RPC, command line, configuration and file handling: input and output.
