# A verified model of transaction signing in the Hathor hardware wallet app

The app on the device signs transactions that a host computer sends it piece by piece.  The host
first lists the outputs that are change, then sends a header and the serialized transaction in
chunks of at most 255 bytes.  The device hashes every byte, decodes tokens, inputs and outputs from
a 300-byte buffer as they become complete, shows each output that is not change for approval, asks a
final question, and then signs the hash for any path the host names.

This project models that session, the parsers and printers below it, and proves what they promise.

## How it is built

- **Byte level.**  `Positional` (numbers in a base), `Reads`, `Buffers` (the cursor), `Bip32`,
  `ChangeInfo`, `Deserialize`: each C function is a method over arrays, proved equal to a function
  of the bytes; round trips and prefix properties are lemmas about these functions.
- **Base58.**  `Base58` defines encoding and decoding by positional value and proves the in-place
  long multiplication and division of the source against it (draft-msporny-base58-02, sections 3
  and 4).
- **Printing.**  `Format` (integers and amounts), `PathText` (paths, with the client's parser as
  inverse), `Screens` (the three lines shown for an output), `Sorting`.
- **The stream.**  `Decoder` defines decoding of one element, of all bytes at hand, and the grammar
  of complete transactions, and proves that chunking does not matter and that exactly the
  serialized valid transactions are accepted.
- **The session.**  `Session` is a state machine: every host command and every choice of the user
  as a function of the context.  `Confirmation`, `Runs`, `Theorems`, `Stops`, `GoodRuns`, `Answers` and
  `Consent` prove properties of all its runs; `Shortfall`, `Overruns`, `EightOutputs` and `Endings`
  hold concrete ones.
- **The device.**  `Device` is the class with the fields of the global context and its fixed-size
  arrays, updated in place by one method per C function.  Each method is proved to do what
  `Session` says; the entry points lead from a session that some run reaches to another such session,
  so the whole-run theorems hold of the object itself.  `ScreenTexts` says what can be read in its three
  screen buffers.

## What the main results say

**Approval.**  After approval the bytes hashed since the first chunk are exactly one complete valid
transaction, nothing left over, and each of its outputs was shown and approved once, in order, or is
announced as change with every matching entry verified, provided that the host ended its commands at
safe places (`Theorems.ApprovedExactly`, `Theorems.ApprovedOutputs`).  Every signature covers those
bytes (`Theorems.SignatureMeans`).  `ui_confirm_output` skips change outputs before it compares the
display index with the queue (src/ui/display.c:337-340), so when a command ends just before an
announced change output whose predecessor is not change, an output not yet received is counted as
confirmed.  The code is kept as it is.  `Runs.SafeCut` is the condition on the place where a command
ends, and the theorem is an equivalence: the hashed bytes are a transaction if and only if every
command ended at a safe place.  Without change entries every place is safe.
`Shortfall.ApprovedWithOutputMissing` is a concrete run that ends at an unsafe place, and
`Confirmation.AgreementExactly` shows that this condition is exactly what keeps the display index
within the queue at that call.

**Consent.**  A step leads to approval if and only if it is the answer yes to the final question, or a
sign command after it (`Consent.ApprovedBy`).  Over whole runs: before every signature there is a first
chunk, from which on the run has only gone on, through sessions that were never closed, to the final
question; the user has answered it with yes, and only sign commands have followed; and the digest signed is
that of the bytes sent from that first chunk to that question (`Consent.SignatureNeedsConsent`).  After the
end of the session, quitting or a refusal nothing is signed before that has happened anew.

**Answers.**  `Answers.DataAnswers` and `Answers.ChoiceAnswers` determine, in literal status words, the
answer to every data command of every run and to every choice in the queue, by the order of the chunks and
by one-shot decoding of the bytes at hand; `Answers.DataWords` and `Answers.ChoiceWords` say when each word
is sent.  A refusal closes the session: signing and later chunks are refused (`Answers.RefusalHolds`).  The
one exception is a first chunk that ends before the header does.  The code refuses it but stays in the
receiving state (src/handler/sign_tx.c:476-486, with exceptions that leave the context as it is), so a later
chunk may be taken (`Answers.BrokenOffGoesOn`); such a session has no outputs and is never approved.

**The screen.**  Whenever the user is asked about an output of the queue, the texts in the three buffers
alone tell it: the address decodes to the network's version, the hash of that output and the checksum of
that hash; the amount is its value, grouped and with two decimals, behind the symbol of the token whose uid
stands at the output's place in the bytes hashed; and the number is one more than the outputs approved so
far, out of those not announced as change (`ScreenTexts.ScreenTells`, `ScreenTexts.DeviceTells`).  Different
hashes, symbols, values or numbers give different texts.

**Success.**  The other way round, a good run succeeds: for every list of change entries the device
accepts and every valid transaction whose outputs can be shown, cut behind its header at safe places
into pieces that fit the commands, sending the pieces and approving everything ends in approval with
exactly the header and the transaction hashed (`GoodRuns.GoodRunApproves`).

**Where the model stops.**  A session in the flow `Stopped` is one that the model does not follow any
further.  `Stops` says exactly when that happens in a run:

- A data command stops the model if and only if a change check throws, the token array overflows, or
  the first output to be shown has an amount too long for its 30-byte buffer
  (`Stops.DataStopsExactly`).  When decoding throws and when the array overflows are characterised by
  the bytes of the stream (`Decoder.ThrewExactly`, `Decoder.OverrunExactly`).
- A choice stops it if and only if it is an approval and the slot whose turn is next cannot be shown
  (`Stops.ChoiceStopsAnywhere`); within the queue that slot is the next output that is not change
  (`Stops.ChoiceStopsExactly`).
- A sign command stops it if and only if the hash would be used again after it was finalised, or the
  path is empty, or key derivation, hashing or signing fails (`Stops.SignStopsExactly`).
- No other event does (`Stops.OthersNeverStop`).

A handler that fails ends the command loop.  A throwing change check does that (the handler returns -1,
src/handler/sign_tx.c:570), and so does every error exit of the signing function: what a handler sends
is only prepared, the call gives zero (src/io.c:117-120), and the exits compare it with `> 0`
(src/handler/sign_tx.c:228 and 274).  `main` then starts the loop anew with context and token registry
zeroed, and the prepared answer is dropped.  The model calls this stop `Restarted`;
`Device.Device.Restart` goes on from there with a device as it is at power-on, with an empty registry.

`Overruns.TokensLeaveTheirArray`, `Overruns.AmountLeavesItsBuffer`, `Endings.EmptyPathRestarts` and
`Endings.HashUsedTwice` are concrete instances.  Where none of these causes applies, every data command
is answered with exactly one status word (`Stops.AlwaysAnswered`).

**Assumptions.**  The host sends a command only when the previous one has been answered
(doc/COMMANDS.md:87); the user can choose only when asked; data and sign commands have 1 to 255
bytes; the token registry does not change during a session, and its symbols are C strings.  Key
derivation, signing, hashing and the address checksum are uninterpreted functions of `Decoder.Env`.

## Disagreements between code and documentation

- src/types.h:121 says that one call decodes at most seven outputs.  That holds without bytes left over
  from the command before (`EightOutputs.SevenWithoutLeftover`); behind a leftover there can be eight
  (`EightOutputs.EightInOneCommand` is an input, `EightOutputs.EightExactly` the condition), which the
  array of ten still holds (`Runs.EightElements`).
- `sign_tx_with_key` means to answer its errors with a status word, but its error exits end the command
  loop instead (src/handler/sign_tx.c:228 and 274), so the host gets no answer.
- `format_u64` with a length of one writes a one-digit number and a terminator all the same
  (src/common/format.c:58-69).
- `bip32_path_format` checks the length that was written, not the length that was needed
  (src/common/bip32.c:59-61), so a last component that is not hardened may be cut short without an
  error (`PathText.CutShortExactly`).  With the 60 bytes the app uses this does not happen.

## Model

| member | source | states |
|---|---|---|
| `Theorems.ApprovedExactly` | src/handler/sign_tx.c:315-580 | In every session that a run from power-on reaches in the approved state, the hashed bytes are one complete valid transaction, nothing left over, if and only if every command ended at a safe place |
| `Theorems.ApprovedOutputs` | src/ui/display.c:214-357 | Whenever they are, the approved outputs are the transaction's outputs that are not announced as change, each once and in order |
| `Theorems.SignaturesCoverApproval` | src/handler/sign_tx.c:224-281 | In every run each signature is made in the approved state, over the double hash of exactly the bytes approved, for the path in the command |
| `Theorems.SignatureMeans` | src/handler/sign_tx.c:224-281 | With safe places only, every signature of a run covers bytes that serialize a valid transaction, and the user has approved, in order, its outputs that are not change, and has answered the final question with yes |
| `Theorems.GrantedWhenApproved` | src/ui/display.c:165-171 | In every approved session of a run the user has answered the final question with yes |
| `Theorems.OneResponse` | src/handler/sign_tx.c:502-522 | In every run a data command with which the model does not stop gets exactly one status word and nothing else, at once or after at most one choice per queued output and a final one, whatever is chosen; at an unsafe place after at most twelve |
| `Theorems.QuestionsEnd` | src/ui/display.c:276-357 | From every point of a run at which the user is asked, at most one choice per queued output and a final one lead to exactly one status word, unless the model stops |
| `Theorems.QueueAgreement` | src/ui/display.c:212-282 | In every receiving state the queue from the display index on is the list of decoded outputs not confirmed yet, and the counters add up, if and only if the display index is within the queue; it is if every command ended at a safe place; and then the output shown is the next unconfirmed one and not change |
| `Theorems.EveryByteAccounted` | src/handler/sign_tx.c:476-500 | In every session of a run whose first chunk held the whole header, the hashed bytes are the header, the serialization of the decoded elements, and the leftover buffer |
| `Theorems.BufferSuffices` | src/handler/sign_tx.c:494-499 | Before a data command of any run at most 35 bytes are left over, so leftover and chunk are at most 290 bytes and fit the 300 |
| `Theorems.QueueSuffices` | src/handler/sign_tx.c:403-413 | In every run a command that continues a transaction copies all its bytes, queues at most eight outputs, leaves at most 35 bytes over, and is rejected by the decoder only if one-shot decoding rejects the bytes, so the guard of the queue never fires |
| `Theorems.FirstQueueSuffices` | src/handler/sign_tx.c:403-413 | The same for the command that opens a transaction |
| `Theorems.PrintedInOrder` | src/ui/display.c:284-298 | With distinct change entries that all refer to outputs, every run numbers the outputs shown from its queue 1/n, 2/n and so on; and if every command ended at a safe place, n outputs have been approved at the end |
| `Theorems.ShownNumber` | src/ui/display.c:284-298 | The number printed for the output on the screen is one more than the number of outputs approved so far |
| `Theorems.ReachedStep` | src/handler/sign_tx.c:525-580 | Every event that can happen leads from a reached session to a reached session |
| `Theorems.ReachedKeeps` | src/handler/sign_tx.c:525-580 | The invariant holds after every run from power-on |
| `Consent.ApprovedBy` | src/ui/display.c:165-177 | In every run a step that does not stop the model leaves the approved state if and only if it is a sign command in that state or the answer yes to the final question |
| `Consent.ReceivingBy` | src/handler/sign_tx.c:466-475 | In every run a step leaves a transaction being received only if it is the first chunk, where none was being received, or a later chunk, an approval or a premature sign command, where one was |
| `Consent.HoldsStep` | src/handler/sign_tx.c:469-500 | In every run a step that leaves a transaction open has added to the bytes hashed exactly the data it sent, and kept the change entries; a first chunk has replaced both |
| `Consent.ConsentHistory` | src/handler/sign_tx.c:525-580 | In every run that has led to approval there are a first chunk and a final question answered with yes, nothing but going on between them and nothing but sign commands behind, and the session holds what was sent |
| `Consent.SignatureNeedsConsent` | src/handler/sign_tx.c:540-553 | In every run a signature is over the digest of the bytes sent from a first chunk to the final question that the user answered with yes, and no end of the session, quitting or refusal has happened since that first chunk |
| `Answers.DataAnswers` | src/handler/sign_tx.c:466-570 | In every run the order of the chunks and one-shot decoding of the loaded bytes determine the answer to a data command: 0x9000 and waiting, 0xB007, 0xB009, 0xB00B or 0x6A87, a question, or a stop, and the bytes hashed and change entries kept by then |
| `Answers.DataWords` | src/handler/sign_tx.c:466-570 | In every run a data command is answered 0xB007 if and only if it is out of turn or after approval, 0xB009 if and only if its bytes are rejected or its first byte is unknown, 0x6A87 if and only if it breaks off before the end of the header, and 0x9000 if and only if it is loaded and the session goes on |
| `Answers.ChoiceAnswers` | src/ui/display.c:165-177 | In every run a choice in the queue is answered 0x6985 if it is a no, which closes the session; a yes to the final question is answered 0x9000 and approves; any other yes leads to the next output that is not change, the final question, or 0x9000 and waiting |
| `Answers.ChoiceBeyond` | src/ui/display.c:335-348 | Beyond the queue an approval leads to a further question or a stop, or is answered 0xB00B and closes the session |
| `Answers.ChoiceWords` | src/ui/display.c:335-348 | In every run, in the queue or beyond, a choice is answered 0x6985 if and only if it is a no, and 0x9000 if and only if the session then waits for more or is approved |
| `Answers.OtherAnswers` | src/handler/sign_tx.c:533-548 | The end of the session is answered 0x9000 and closes it, quitting closes it without an answer, and a sign command is refused with 0xB007 before approval and with 0x6A87 for a bad path |
| `Answers.RefusalHolds` | src/handler/sign_tx.c:540-570 | In a closed session sign commands and later chunks are refused with 0xB007; in one whose first chunk broke off no output is ever announced, and signing is refused |
| `Answers.BrokenOffGoesOn` | src/handler/sign_tx.c:476-486 | A concrete first chunk that is refused with 0x6A87 and after which a second chunk is answered with 0x9000 |
| `Stops.DataStopsExactly` | src/handler/sign_tx.c:436-522 | In every run a data command stops the model for a reason if and only if one-shot decoding of the bytes it loads throws, overruns the token array, or succeeds with a first output to be shown that is too long |
| `Stops.DisplayStops` | src/ui/display.c:276-333 | Showing the next output of a queue stops the model if and only if the first that is not change is too long |
| `Stops.SkipShows` | src/ui/display.c:249-282 | Skipping within the queue ends at the first queued output that is not change, and at the end of the queue if and only if there is none |
| `Stops.ChoiceStopsExactly` | src/ui/display.c:335-348 | In every run a choice within the queue that does not skip ahead stops the model if and only if it is an approval and the next output to be shown is too long |
| `Stops.ChoiceStopsAnywhere` | src/ui/display.c:249-348 | In every run, within the queue and beyond it, a choice stops the model if and only if it is an approval and the slot whose turn is next is outside the array, names no token received, or is too long; beyond or ahead of the queue some command has ended at an unsafe place |
| `Stops.SignStopsExactly` | src/handler/sign_tx.c:224-281 | In every run a sign command uses the hash a second time if and only if it reaches the hash after it was finalised with a digest that starts with a zero byte; and it ends the command loop if and only if the path is empty or key derivation, hashing or signing fails |
| `Stops.SignSucceedsExactly` | src/handler/sign_tx.c:224-281 | In every run a sign command after approval is answered with the signature over the digest of the bytes hashed if and only if key, digest and signing are in order |
| `Stops.SignAnswered` | src/handler/sign_tx.c:540-553 | A sign command gets one answer if it does not stop the model, and none if it does |
| `Stops.OthersNeverStop` | src/handler/sign_tx.c:533-538 | The end of the session, quitting and the final question never stop the model |
| `Stops.AlwaysAnswered` | src/handler/sign_tx.c:502-522 | In every run a data command gets exactly one status word, without exception, if places are safe, no change check throws, the token array does not overflow and the amounts fit |
| `ScreenTexts.ScreenTells` | src/ui/display.c:276-333 | In every run, whenever an output of the queue is shown, the address text is 34 Base58 characters that decode to version, the hash of the next output to be confirmed and its checksum; the amount text is that output's value behind the symbol of the token whose uid it refers to in the bytes hashed; with proper change entries the number text is one more than the approvals, a slash, and the number of outputs that are not change |
| `ScreenTexts.DeviceTells` | src/ui/display.c:276-357 | The same of the three buffers of the device object between any two events |
| `ScreenTexts.SymbolNamed` | src/ui/display.c:316-328 | In every run the symbol looked up for a decoded output is HTR for token data 0, and otherwise that of the first registry entry with the uid at the output's place behind the header |
| `ScreenTexts.TokensInOrder` | src/handler/sign_tx.c:319-340 | Token i of the token array is the first registry entry with the uid in the i-th 32 bytes of the stream |
| `ScreenTexts.ApprovedSymbols` | src/ui/display.c:316-328 | Once a transaction has been approved, the symbol looked up for token data i is that of its token i - 1 |
| `ScreenTexts.NamesOne` | src/ui/display.c:316-328 | The bytes hashed name one symbol for each token, and the same one as more bytes follow |
| `ScreenTexts.FindsFirst` | src/token/token_parser.c:44-49 | The search gives an index if and only if it is that of the first entry with the uid, and none if and only if there is none |
| `ScreenTexts.AddressEncoded` | src/ui/display.c:300-311 | The text of an address decodes to version, hash and checksum, 25 bytes in this order |
| `ScreenTexts.AddressTells` | src/ui/display.c:300-311 | Texts of addresses with different hashes are different |
| `ScreenTexts.AmountTextReads` | src/common/format.c:147-176 | An amount has a point before its last two digits, a comma exactly before every third digit in front of it, no superfluous zero, and digits that denote the value |
| `ScreenTexts.AmountTells` | src/ui/display.c:313-331 | The amount line tells symbol and value apart, whatever characters the symbol has |
| `ScreenTexts.IndexReads` | src/ui/display.c:284-298 | In front of the slash stands the printed number and behind it the printed total, in decimal |
| `ScreenTexts.CountTells` | src/ui/display.c:284-298 | The number line tells both numbers |
| `Overruns.TokensLeaveTheirArray` | src/handler/sign_tx.c:333-334 | A concrete run of two commands with eleven registered tokens that writes past the token array |
| `Overruns.AmountLeavesItsBuffer` | src/ui/display.c:329-331 | A concrete command with 10^17 units of a token with a five-character symbol that writes past the amount buffer |
| `Endings.EmptyPathRestarts` | src/handler/sign_tx.c:227-229 | After every approval a sign command with an empty path ends the command loop without an answer |
| `Endings.HashUsedTwice` | src/handler/sign_tx.c:241-257 | A concrete run in which a sign command uses the finalised hash again, because the digest starts with a zero byte |
| `Endings.OneOutputApproved` | src/ui/display.c:165-177 | A concrete run with one output that ends in approval with all commands at safe places |
| `GoodRuns.GoodRunApproves` | src/handler/sign_tx.c:466-523 | For every acceptable change list and every valid transaction whose outputs can be shown, cut at safe places into pieces that fit, sending the pieces and approving everything ends in approval with exactly header and transaction hashed |
| `GoodRuns.PieceLands` | src/handler/sign_tx.c:488-522 | Each such piece is accepted, and after the approvals the device waits for the next one or is approved, with all cuts safe |
| `GoodRuns.LandedWhere` | src/ui/display.c:214-231 | On the way the device is approved if and only if nothing of the transaction is outstanding |
| `GoodRuns.YesLands` | src/ui/display.c:335-348 | An approval in a safe session with outputs that can be shown leads to the next question, the next command, or approval |
| `GoodRuns.AnyCutWithoutChange` | src/ui/display.c:249-253 | Without change entries every cut is safe |
| `Shortfall.RunHappens` | src/ui/display.c:335-342 | The concrete run below can happen, event by event |
| `Shortfall.ApprovedWithOutputMissing` | src/ui/display.c:335-342 | A concrete run in which a command ends before an announced change output: it reaches approval although that output was never received, and the hashed bytes are no transaction |
| `Runs.StepKeeps` | src/handler/sign_tx.c:525-580 | Every command and choice keeps the invariant; and unless the model stops, the host is answered exactly when the user is not being asked |
| `Runs.DecodesLikeOneShot` | src/handler/sign_tx.c:315-457 | With room in the queue, decoding the device's buffer element by element gives the elements, leftover, verdict and queue of one-shot decoding of the same bytes |
| `Runs.EightElements` | src/handler/sign_tx.c:403-413 | One chunk behind a leftover completes at most eight elements |
| `EightOutputs.SevenWithoutLeftover` | src/types.h:121 | Without a leftover one chunk completes at most seven |
| `EightOutputs.EightExactly` | src/types.h:121 | Behind a leftover it completes eight if and only if the bytes at hand begin with eight legal elements |
| `EightOutputs.EightInOneCommand` | src/types.h:121 | Concrete bytes with which one command completes eight outputs |
| `Confirmation.SinglePassSuffices` | src/ui/display.c:249-271 | One pass over the sorted change indices skips exactly what skipping for as long as the next output is change would skip, duplicates and wrap-around included |
| `Confirmation.SkipAgrees` | src/ui/display.c:249-271 | Within the queue, skipping keeps queue and counters in agreement and stops at the next output that is not change, or answers for the whole queue |
| `Confirmation.NextAgrees` | src/ui/display.c:264-265 | Moving both indices past an output that is change or was just approved keeps the agreement |
| `Confirmation.ConfirmAgrees` | src/ui/display.c:335-348 | Approving an output keeps the agreement and shows the next one, asks the final question or requests more, unless it skips ahead of the queue |
| `Confirmation.AgreementExactly` | src/ui/display.c:335-342 | Approving an output leaves the display index within the queue if and only if it was not the last of the queue followed by an undecoded change output |
| `Confirmation.ConfirmPast` | src/ui/display.c:335-348 | Once beyond the queue, the indices move on together and every outcome is a rejection, a stop, a further stale output, or the final question with outputs missing |
| `Decoder.ChunkingIrrelevant` | src/handler/sign_tx.c:315-457 | For every split of the stream into non-empty pieces, decoding piece by piece gives the tokens, inputs, outputs, leftover and verdict of decoding the whole |
| `Decoder.SplitOnce` | src/handler/sign_tx.c:488-499 | One split before a non-empty piece makes no difference |
| `Decoder.PeelStable` | src/handler/sign_tx.c:319-417 | A verdict about the first element stays the same however the stream goes on |
| `Decoder.ShortExactly` | src/handler/sign_tx.c:319-385 | More bytes are asked for if and only if fewer than 32 are there for a token, 35 for an input, or fewer than an output with a script of 25 bytes takes |
| `Decoder.PeelsExactly` | src/handler/sign_tx.c:319-417 | An element is taken off the buffer if and only if its serialization is in front and it may stand at this place |
| `Decoder.ReadyExactly` | src/handler/sign_tx.c:436-457 | Decoding asks for more if and only if the stream is a legal sequence of serialized elements followed by an incomplete one, with this progress and leftover |
| `Decoder.AcceptsExactlyTransactions` | src/handler/sign_tx.c:315-421 | Everything announced is decoded with nothing left over if and only if the bytes serialize a valid transaction with the announced counts |
| `Decoder.ChecksEveryEntry` | src/handler/sign_tx.c:389-401 | An output passes the change check if and only if every entry with its index verifies, duplicates included |
| `Decoder.OverrunExactly` | src/handler/sign_tx.c:327-334 | The token array is overrun if and only if more than ten tokens are announced and the first eleven uids are registered |
| `Decoder.OverrunFrom` | src/handler/sign_tx.c:327-334 | The same from any point of the stream, for the tokens and uids still to come |
| `Decoder.ThrewExactly` | src/handler/sign_tx.c:386-401 | Decoding throws if and only if the stream is a legal sequence of elements followed by an output whose change check throws |
| `Decoder.RaisesExactly` | src/handler/sign_tx.c:361-401 | One call throws if and only if in front is the encoding of an output that may stand there and whose change check throws |
| `Decoder.CheckFailsExactly` | src/handler/sign_tx.c:389-401 | A change check throws if and only if the derivation for some entry of the output throws and its earlier entries verify |
| `Deserialize.PrefixParser` | src/transaction/deserialize.c:66-89 | Done or failed on a prefix stays the same on every extension |
| `Deserialize.ParsesExactlyTheFormat` | src/transaction/deserialize.c:20-89 | The parser is done after n bytes with an output if and only if these bytes are its 32- or 36-byte encoding: value below 2^31 in four bytes, or negated in eight, up to 2^63, with a P2PKH script |
| `Deserialize.ParsesLiterally` | src/transaction/deserialize.c:20-89 | In the bytes themselves: when the parser is done (script 76 A9 14, twenty bytes, 88 AC behind the length 00 19), with which value, token data and hash, and when it asks for more |
| `Deserialize.ValidateP2pkhScript` | src/transaction/deserialize.c:20-39 | Which exception is thrown for every length, remainder and script |
| `Deserialize.ParseOutputValue` | src/transaction/deserialize.c:41-64 | The value field is read in the width its first bit announces, and the cursor moves by it |
| `Deserialize.ReadScript` | src/transaction/deserialize.c:79-85 | The script is checked and consumed and its hash taken out, or the specified exception thrown |
| `Deserialize.ParseOutput` | src/transaction/deserialize.c:66-89 | The C parser reports exactly the verdict, fields and size of the specification |
| `ChangeInfo.V1RoundTrip` | src/handler/sign_tx.c:68-91 | A serialized change list is read back entry for entry, leaving the cursor at the header, if and only if it has at most eleven entries with valid paths |
| `ChangeInfo.OldRoundTrip` | src/handler/sign_tx.c:104-136 | The old format reads its one change back under the same condition on the path |
| `ChangeInfo.ReadExactly` | src/handler/sign_tx.c:68-174 | For all bytes: a change list and a rest are read if and only if the bytes are one of the three encodings of that list, with at most eleven valid entries, in front of that rest; everything else throws 0xB009 for an unknown first byte and 0x6A87 otherwise |
| `ChangeInfo.FormatsAgree` | src/handler/sign_tx.c:144-174 | The old and the current encoding of one change decode alike |
| `ChangeInfo.FitsFirstChunk` | tests/app_client/transaction.py:199-217 | Every accepted change list with the five header bytes takes at most 249 bytes |
| `ChangeInfo.ReadV1` | src/handler/sign_tx.c:68-91 | The C reader fills the array with exactly the specified entries, leaves the specified rest, or throws the specified code |
| `ChangeInfo.ScratchBuffer` | src/handler/sign_tx.c:105-128 | The path words are copied behind their count into a zeroed buffer |
| `ChangeInfo.ReadOldProtocol` | src/handler/sign_tx.c:104-136 | The C reader of the old format agrees with the specification in result and exceptions |
| `ChangeInfo.ReadChangeInfo` | src/handler/sign_tx.c:144-174 | The dispatch on the first byte agrees with the specification |
| `Bip32.PathRoundTrip` | src/common/bip32.c:10-44 | A serialized path is read back if and only if it has at most five components, change level at most 1 and index at most 2^20 |
| `Bip32.AcceptedPath` | src/common/bip32.c:10-44 | Every accepted path is valid, and the bytes are its serialization |
| `Bip32.AcceptsExactly` | src/common/bip32.c:10-44 | Bytes are accepted as a path if and only if they hold the announced words, at most five, the fourth at most 1, the fifth at most 1,048,576 |
| `Bip32.PathRead` | src/common/bip32.c:10-44 | The C reader succeeds exactly when the specification does, with that path |
| `PathText.ParsesBack` | tests/app_client/utils.py:9-23 | The client's parser inverts the printed text of every non-empty path |
| `PathText.PathReads` | src/common/bip32.c:46-89 | Components are decimal, with an apostrophe for the top bit, and separated by slashes |
| `PathText.DistinctPathsPrintDifferently` | src/common/bip32.c:46-89 | Distinct paths print differently |
| `PathText.TextLengthAtMost` | src/common/bip32.c:56-86 | n components take at most 12n - 1 characters, five at most 59 |
| `PathText.SixtyBytesSuffice` | src/ui/display.c:28 | Sixty bytes hold the text of every path of one to five components |
| `PathText.CutShortExactly` | src/common/bip32.c:59-65 | The call succeeds with a shortened text if and only if the last component is not hardened and the buffer ends within its digits, behind the first |
| `PathText.Append` | src/common/bip32.c:59-65 | One formatted print with its check, for every buffer length: succeeds if and only if one more character fits, otherwise clears the buffer |
| `PathText.PathFormat` | src/common/bip32.c:46-89 | For every path and buffer length: when the call succeeds, which prefix of the text is in the buffer, and that it is cleared otherwise |
| `Buffers.Buffer.SeekCur` | src/common/buffer.c:27-39 | The guarded sum modulo the range of size_t succeeds if and only if enough bytes are left |
| `Buffers.Buffer.ReadU8` | src/common/buffer.c:54-65 | Reads and consumes one byte, or fails without moving and gives zero |
| `Buffers.Buffer.ReadU16` | src/common/buffer.c:67-79 | The big-endian value of two bytes, consumed, or failure without moving |
| `Buffers.Buffer.ReadU32` | src/common/buffer.c:81-94 | The big-endian value of four bytes, consumed, or failure without moving |
| `Buffers.Buffer.ReadU64` | src/common/buffer.c:96-109 | The big-endian value of eight bytes, consumed, or failure without moving |
| `Buffers.Buffer.ReadBip32Path` | src/common/buffer.c:111-123 | Reads a valid path and consumes exactly its bytes |
| `Buffers.Buffer.Copy` | src/common/buffer.c:140-151 | Copies the rest if and only if there is room, and changes nothing else |
| `Base58.DecodeEncode` | src/common/base58.c:95-147 | Decoding by value inverts encoding by value for all bytes, leading zeros included |
| `Base58.EncodeDecode` | src/common/base58.c:29-93 | Encoding by value inverts decoding by value for all Base58 strings, leading ones included |
| `Base58.RoundTripBytes` | src/common/base58.c:29-147 | Within the encoder's limit the two calls give the input back if and only if its encoding has two characters, that is unless it is empty or one byte below 58; the decoder then rejects |
| `Base58.RoundTripChars` | src/common/base58.c:29-147 | An accepted string is given back if and only if it decodes to at most 120 bytes |
| `Base58.EncodedFitsDecoder` | src/common/base58.h:10-14 | Every encoding of at most 120 bytes is within the decoder's limit of 164 |
| `Base58.EncoderRoom` | src/common/base58.c:114 | 256^n <= 58^(138n/100 + 1) for all n, with floor division |
| `Base58.AddressLength` | src/constants.h:21 | Every 25-byte address of either network has exactly 34 characters |
| `Base58.AlphabetOrder` | src/common/base58.c:22-27 | The characters ascend by code and are exactly the digits and letters without 0, O, I and l |
| `Base58.MultiplyAdd` | src/common/base58.c:117-127 | One pass multiplies the number in the buffer by 256 and adds a byte, although it stops early; digits left of the new stop are zero, and the stop stays at least one for the next pass |
| `Base58.ConvertBytes` | src/common/base58.c:114-128 | After all bytes the digits denote the number of the bytes, and the estimated size was enough |
| `Base58.WriteChars` | src/common/base58.c:139-144 | Ones for the leading zeros, then the digits' characters; the rest of the output is untouched |
| `Base58.Base58Encode` | src/common/base58.c:95-147 | Fails if and only if the input is too long or the output too short, otherwise writes the encoding and its length |
| `Base58.DivideBy256` | src/common/base58.c:65-71 | One pass replaces the base-58 number by its quotient by 256, digits below 58, and gives the remainder |
| `Base58.DivideAway` | src/common/base58.c:62-78 | The leading digit becomes zero in every pass, the index ends at the number of leading zeros, and the bytes emitted denote the original number |
| `Base58.LookUp` | src/common/base58.c:44-56 | Succeeds if and only if all characters are in the alphabet, with their digits |
| `Base58.Base58Decode` | src/common/base58.c:29-93 | Fails if and only if the length or a character is bad or the output too short, otherwise writes the decoded bytes and their number |
| `Format.NumeralCanonical` | src/common/format.c:178-206 | A numeral evaluates back to its number and has no leading zero |
| `Format.DigitCharacters` | src/common/format.c:188-199 | The digit characters are 0 to 9 and a to z in order |
| `Format.NumeralLength` | src/common/format.c:52-85 | The digit count compared with powers of the base |
| `Format.ReverseRange` | src/common/format.c:71-83 | The swapping loop reverses the range and touches nothing else |
| `Format.FormatU64` | src/common/format.c:52-85 | Succeeds if and only if the length allows digits and terminator, one-digit numbers excepted, and writes the canonical numeral |
| `Format.CollectDigits` | src/common/format.c:16-33 | The digits under truncated division, reversed, are the signed numeral for every 64-bit value, the minimum included |
| `Format.FormatI64` | src/common/format.c:8-50 | Succeeds if and only if numeral and terminator fit, and writes exactly them |
| `Format.WriteDigits` | src/common/format.c:188-199 | The digits in any base from 2 to 36, least significant first, under truncated division |
| `Format.Itoa` | src/common/format.c:178-206 | The signed numeral of every 32-bit value in every base from 2 to 36, terminated, nothing else touched |
| `Format.WriteGrouped` | src/common/format.c:154-164 | The digits with a comma every three from the right, the last comma replaced by the terminator |
| `Format.WriteCents` | src/common/format.c:166-175 | Point and exactly two digits |
| `Format.FormatValue` | src/common/format.c:147-176 | The amount text of every 64-bit value at any place of a buffer, nothing else touched |
| `Format.AmountReversible` | src/common/format.c:147-176 | Without separators the amount text evaluates to the value |
| `Format.AmountLength` | src/common/format.c:147-176 | n integer digits give n + (n - 1)/3 + 3 characters |
| `Screens.AmountFitsExactly` | src/ui/display.c:313-331 | Symbol and amount fit the 30-byte buffer for every value the parser produces behind at most three characters, below 10^18 behind four and below 10^17 behind five, and not otherwise |
| `Screens.FillAmount` | src/ui/display.c:313-331 | The amount buffer holds symbol, blank and amount text, terminated |
| `Screens.CountDown` | src/ui/display.c:286-294 | The loop gives the output's number less the entries before it, in one byte |
| `Screens.WriteIndex` | src/ui/display.c:295-298 | Two numbers of one byte around a slash, terminated, in ten bytes |
| `Screens.FillIndex` | src/ui/display.c:284-298 | The index buffer holds the printed number and total |
| `Screens.IndexIsRank` | src/ui/display.c:286-294 | With distinct entries the number printed for an output that is not change is its rank among these |
| `Screens.TotalExactly` | src/ui/display.c:285-289 | The printed total counts the outputs that are not change if and only if the entries are distinct and refer to existing outputs |
| `Screens.FillAddress` | src/ui/display.c:300-311 | The address buffer holds a terminator behind 34 Base58 characters that decode to version, hash and checksum |
| `Sorting.FindSmallest` | src/ui/display.c:237-240 | The inner loop finds the smallest remaining element |
| `Sorting.InplaceSelectionSort` | src/ui/display.c:233-247 | For a length of at least one the array is sorted in place, a permutation of what it was, nothing beyond it touched |
| `Device.Device.constructor` | src/main.c:35-37 | At power-on the device is the idle session, from which all runs start |
| `Device.Device.Bzero` | src/handler/sign_tx.c:287 | The whole context, arrays included, is zero |
| `Device.Device.Abort` | src/ui/display.c:305-308 | The device is the idle session, nothing is hashed or being signed, and the status word asked for has been sent |
| `Device.Device.UiActionTxConfirm` | src/ui/display.c:165-177 | A yes approves, keeps the bytes hashed and sends 0x9000; a no leaves nothing hashed and no transaction, shows the menu and sends 0x6985 |
| `Device.Device.UiDisplayTxConfirm` | src/ui/display.c:190-201 | The final question is asked, or a bad state answered |
| `Device.Device.CheckOutputIndexState` | src/ui/display.c:214-231 | End of the outputs, end of the queue, or neither, as the state machine has it |
| `Device.Device.SortedIndices` | src/ui/display.c:255-259 | The sorted list holds exactly the announced change indices |
| `Device.Device.SkipOnce` | src/ui/display.c:261-270 | The loop in place is the pass of the state machine |
| `Device.Device.SkipChangeOutputs` | src/ui/display.c:249-271 | Sort and single pass on the device skip the whole run of change outputs |
| `Device.Device.FindSymbol` | src/ui/display.c:316-328 | HTR for token data 0, the symbol of token i - 1 for token data i, none beyond the tokens received |
| `Device.Device.FillScreen` | src/ui/display.c:282-332 | The three screen buffers show number, address and amount of the output whose turn it is (what can be read in them is `ScreenTexts.ScreenTells`) |
| `Device.Device.PrepareDisplayOutput` | src/ui/display.c:276-333 | Checks, skips and fills the screen as the state machine says |
| `Device.Device.UiDisplayTxOutputs` | src/ui/display.c:350-357 | Whenever an output is offered for approval, it is the one on the screen |
| `Device.Device.UiConfirmOutput` | src/ui/display.c:335-348 | The answer about an output does what the state machine says |
| `Device.Device.ActionExitToMenu` | src/ui/display.c:42-45 | Quitting leads back to the idle session |
| `Device.Device.FindTokenRegistryIndex` | src/token/token_parser.c:44-49 | The first registry entry with the uid, or -1 |
| `Device.Device.VerifyChanges` | src/handler/sign_tx.c:389-401 | The loop over the change array gives the specified verdict |
| `Device.Device.Shift` | src/handler/sign_tx.c:403-406 | The decoded bytes leave the buffer, the rest moves to its front |
| `Device.Device.DecodeToken` | src/handler/sign_tx.c:319-340 | Decoding a token in place takes it off as specified or throws the specified code |
| `Device.Device.DecodeInput` | src/handler/sign_tx.c:341-360 | Decoding an input in place takes it off as specified or throws the specified code |
| `Device.Device.DecodeOutput` | src/handler/sign_tx.c:361-413 | Decoding an output in place checks it as specified or throws the specified code |
| `Device.Device.TakeOutput` | src/handler/sign_tx.c:386-413 | The output is numbered and queued and its bytes removed, or the queue is full |
| `Device.Device.DecodeElement` | src/handler/sign_tx.c:315-421 | One call of the element decoder is one step of the specification |
| `Device.Device.DecodeElements` | src/handler/sign_tx.c:436-457 | The loop with its exceptions reports what the specification reports |
| `Device.Device.DecodeAndShow` | src/handler/sign_tx.c:502-522 | The outcomes of decoding lead where the state machine says |
| `Device.Device.InitSignTxCtx` | src/handler/sign_tx.c:286-298 | The context of a new session |
| `Device.Device.SighashAllHash` | src/handler/sign_tx.c:208-217 | Exactly the rest of the command goes into the hash |
| `Device.Device.BufferCopy` | src/handler/sign_tx.c:494-499 | The rest of the command joins the leftover if it fits |
| `Device.Device.ReadTxData` | src/handler/sign_tx.c:190-202 | The three counts, zero where the bytes are missing, and when the code throws |
| `Device.Device.ReadHeader` | src/handler/sign_tx.c:479-481 | Hash and header behind the change information |
| `Device.Device.ReadOpening` | src/handler/sign_tx.c:476-481 | Change information, hash and header together, with all exceptions |
| `Device.Device.FirstChunk` | src/handler/sign_tx.c:469-487 | The first chunk does what the state machine says, also when it breaks off |
| `Device.Device.NextChunk` | src/handler/sign_tx.c:488-500 | A later chunk does what the state machine says |
| `Device.Device.ReceiveData` | src/handler/sign_tx.c:466-523 | The choice between the two |
| `Device.Device.SignTxWithKey` | src/handler/sign_tx.c:224-281 | The digest is computed once and kept, and the signature sent; it reports a failure exactly where the state machine ends the command loop |
| `Device.Device.SignStage` | src/handler/sign_tx.c:540-553 | Signing only after approval and with a valid path; a failure ends the command loop |
| `Device.Device.HandlerSignTx` | src/handler/sign_tx.c:525-580 | All three stages on the device do what the state machine says; DONE leaves no transaction and nothing hashed, shows the menu and sends 0x9000 |
| `Device.Device.Command` | src/handler/sign_tx.c:525-580 | A host command is a step of the state machine and leads to a reached session, with the screen showing the output asked about |
| `Device.Device.Validate` | src/ui/display.c:71-85 | A choice of the user is a step of the state machine and leads to a reached session, with the screen showing the output asked about; a no leaves no transaction and sends 0x6985 |
| `Device.Device.Quit` | src/ui/display.c:54 | Quitting is a step of the state machine and leads to a reached session without a transaction; nothing is sent |
| `Device.Device.Restart` | src/main.c:25-37 | After a failed handler the device is as at power-on, with an empty token registry, and has sent nothing |
| `Device.Device.ApprovedOnDevice` | src/handler/sign_tx.c:525-580 | On the object itself: once approved, the bytes in the hash are one valid transaction if and only if all commands ended at safe places |

## Left out

- Key derivation, signatures and hashing: foreign code; uninterpreted functions of the environment, and a signature is represented by its path and digest.
- Screen flows, menus, transport and the readiness of input and output: only the pending flow, the user's choice, the contents of the three screen buffers and the replies are modelled.
- GET_VERSION, GET_ADDRESS, GET_XPUB, the token commands and command dispatch: single-branch wrappers or hash comparisons; the model has the SIGN_TX session only, with no other command in between.
- What happens after memory outside an array is touched, after the command loop starts anew, or after the hash is used again once finalised: the model stops, and `Stops` says when.
- Null pointers: the references of the model are never null.
- `tx_version`, `decoded_output`, `change_output_index` and `change_bip32_path`: fields that nothing reads.
- Partial contents of the change array after failed change information: nothing refers to them, since no outputs are announced then, so the abstract state has no change entries in that case.
- `format_fpu64` and `format_hex`: not used by the session. The former relies on a zeroed destination.
- `buffer_seek_set`, `buffer_seek_end`, `buffer_read_bytes`, `buffer_move` and the little-endian readers: they would only add easy members.
- Format.Itoa: bases outside 2 to 36 are not modelled, because the source then divides by such a base all the same.
- Format.FormatU64: a one-digit number with a length of one needs a second byte behind it, because the source writes the terminator there.
- PathText.Append: with a length of zero there must be a terminator in the memory behind the pointer, because the source measures the text there.
- PathText.PathFormat: the same for a length of zero.
- Device.Device.DecodeAndShow: stops after a throwing change check; how the program goes on is `Device.Device.Restart`, a new object, because the registry of a device is fixed.
- Device.Device.HandlerSignTx: stops in the same way where the source returns -1.
- Device.Device.Command: stops in the same way where the source returns -1.
- Device.Device.SighashAllHash: a failing update of the hash, whose exception goes to the host, is not modelled, because it depends on the foreign hash state.
- PathText.ParsesBack: the parser accepts only plain decimal digits, because blanks, signs and underscores, which Python also takes, are never printed.
- Theorems.OneResponse: says nothing of commands in which the model stops.
- Theorems.QuestionsEnd: says nothing of choices with which the model stops.
