# A verified model of parts of the Go standard library

This project states in Dafny what some of the hardest code of the Go 1.27 standard
library promises, and proves it. `dafny verify dfyconfig.toml` checks everything.

| directory | models | main results |
|---|---|---|
| `model/math/` | `FMA`, `Round`, `RoundToEven`, `trunc` on 64-bit words | one roundTiesToEven rounding for all finite nonzero arguments; bit tricks equal their slow forms |
| `model/io/` | `io.Pipe` as a step machine | bytes arrive in write-lock order, nothing interleaves, every call returns after a close with the error of the first close |
| `model/context/` | the tree of cancelable contexts as a step machine | a cancellation reaches every registered descendant, no deadlock, errors written once, causes traced to their call, one true answer among all stops |
| `model/expvar/` | `expvar.Map` as a step machine | the key list stays sorted and inside the map; exactly when an entry is lost; where each value comes from |
| `model/bufio/` | `Scanner`, `Reader`, `Writer` as classes | results independent of buffer size and chunking; conservation of bytes |
| `model/html/` | `EscapeString`, `UnescapeString` in one buffer | the in-place loop is the out-of-place decoder; every numeric and named reference decodes to its rune; unescaping undoes escaping |
| `model/unicode/` | encoding, decoding and fullness of UTF-8 | inverses; fullness means that no further input matters |
| `model/bytes/` | `Index`, `IndexRune`, `indexFunc` | heuristic searches equal the naive ones |
| `model/fmt/` | `readRune`, `fmtInteger`, the format parser of `doPrintf` | same runes as decoding at once; the digit buffer suffices and denotes the value; every format written from syntax trees is read back |
| `model/iter/` | `iter.Pull` | values are a prefix of what is pushed; a finished coroutine is never resumed |
| `model/wasm/` | the reference table of `wasm_exec.js` | references in hand always load their value; ids are seeded, live or pooled |

## How the source is modelled

- **Words and floats.** Words are naturals below 2^64 with explicit wrap-around. A finite
  binary64 number is an integer in units of 2^-1074, so rounding is stated on exact integers:
  `Float64.RoundsTo` says that the result is nearest among *all* finite numbers, even on ties,
  and an infinity from the overflow threshold on (sections 3.4, 4.3.1 and 5.4.1 of IEEE 754-2019).
- **Concurrent code.** A state holds the shared variables and every call's program counter; a
  run is any interleaving of enabled steps, with any number of calls. One step is one atomic,
  channel, map or lock operation. In `model/context/`, a critical section that calls nothing is one
  step, since no other access to what the mutex guards can fall between its parts; one that
  calls `cancel` keeps its mutex across steps. There, a context's parent is its nearest enclosing
  cancelable context, value wrappers in between do not matter, and `parentCancelCtx` therefore
  always finds the channel it compares with. `attached` says that propagateCancel has
  registered or canceled the context. In `model/context/`, `own`, `starts` and `stops`, and in
  `model/io/`, `order` and `log`, record history that no step depends on.
- **Readers and writers under `bufio`.** A source is the list of pieces it will hand out, with the
  error it ends with, alone or together with the last piece; a sink is the list of replies it will
  give. Statements about all sources and sinks are statements about every chunking.
- **Coroutines.** A push iterator is the values it pushes and how it ends, when left alone and
  after yield has said false.
- **Inputs from outside** are parameters: entity tables, the cutover heuristics and limits of
  internal/bytealg, the chunking of readers, the replies of writers, arguments of Printf.

## Findings

- The documentation of `context.Cause` and `CancelCauseFunc` says that the first cancellation among
  c and its ancestors sets the cause (src/context/context.go:251-255, 284). That is not so while the
  ancestor's cancel is on its way: in `CancelTreeExample.LaterCallMaySetCause` the call on the child
  is made after the parent's done channel was closed, and still sets the child's cause.
  `CancelTreeTheorems.FirstCancellationSetsCause` says exactly when the documented rule holds,
  `CancelTreeTheorems.DecidedInTheGap` that it fails only while an ancestor is inside its cancel, and
  `CancelTreeTheorems.LateCallChangesNothing` that a call made after the ancestor's cancel has
  returned changes nothing.
- `expvar.Map.Set` stores without looking again once it has seen the key present. If a Delete
  comes in between, the key stays in the map and no later call shows or deletes it:
  `VarMapProofs.LostEntry` is such a run, and `VarMapProofs.OrphanIffStoredAbsent` says that a
  store to an absent key is the only way to it. Without a Delete of the key between the lookup and
  the store of a Set nothing is lost (`VarMapProofs.NoRaceNoLoss`).
- `fmt`'s `readRune` reports the width of an unread rune as that of U+FFFD exactly when the rune came
  from one bad byte (`ReadRune.ReadTwice`, `ReadRune.BadByteTwice`), and an UnreadRune before any
  read pushes back U+0000 (`ReadRune.UnreadBeforeRead`).
- `bufio.ScanLines` documents its end-of-line marker as an optional carriage return and a mandatory
  newline, and also drops a carriage return that ends an unterminated last line
  (`Splitting.LoneCarriageReturn`). Its tokens are the documented ones exactly when the input does not
  end in a carriage return (`Splitting.TokensAsDocumented`). A line with its newline may be as long
  as the limit; only an unterminated one has to be shorter (`Splitting.LinesFit`).
- `html.EscapeString` after `html.UnescapeString` is the identity exactly on inert strings
  (`RoundTrip.EscapeUnescape`), as the documentation leaves open.
- The documentation of `io.PipeWriter.Close` promises EOF to later reads, and that of
  `PipeReader.CloseWithError` its error to later writes. Both hold while the caller's own side is
  open (`PipeErrors.OtherSideClosed`); otherwise the call reports ErrClosedPipe (`PipeErrors.OwnSideClosed`,
  `PipeErrors.ReadAfterBothCloses`).
- `html.UnescapeString` counts the number of a reference modulo 2^32, so that `&#4294967361;` is the letter A
  (`References.WideReferenceFails`).
  `References.WideReference` says exactly which numbers past the last code point become U+FFFD, as
  the HTML standard asks for all of them.
- The buffer size computed by `fmtInteger` suffices for every value and all flags exactly when
  verb `O` with `#` comes with base 8 or 10 (`Numerals.BufferSuffices`); its callers use base 8.

## Model

| member | source | states |
|---|---|---|
| `Fma.ShrCompressIsSticky` | src/math/fma.go:39-63 | for every double word and count, the result is the value shifted right with its lowest bit set if anything was shifted out |
| `Fma.ShlPairIsScale` | src/math/fma.go:27-31 | a double-word left shift that loses no bit multiplies by a power of two |
| `Fma.ShrPairIsDivision` | src/math/fma.go:33-37 | the double-word right shift divides by a power of two, for every count |
| `Fma.LzRange` | src/math/fma.go:65-71 | lz counts exactly the zeros in front of a nonzero double word |
| `Fma.SplitCorrect` | src/math/fma.go:73-91 | sign, exponent and 53-bit significand give back the value of every finite nonzero number, subnormal or not |
| `Fma.ProductWeight` | src/math/fma.go:121-135 | the normalised double-word product is exactly the product of the magnitudes |
| `Fma.AddendWeight` | src/math/fma.go:129-129 | the widened addend is exactly the magnitude of z |
| `Fma.TermsCorrect` | src/math/fma.go:115-140 | after the swap the terms are ordered by magnitude and add up to the exact result |
| `Sticky.StickyShiftRounds` | src/math/fma.go:39-42 | a sticky shift rounds to odd: exact, or the odd neighbour |
| `Sticky.StickyShiftComposes` | src/math/fma.go:147-177 | rounding to odd survives any further sticky shift |
| `Sticky.TenExtraBits` | src/math/fma.go:179-179 | with ten extra bits, rounding the odd-rounded value to nearest even rounds the exact quotient |
| `Fma.AddRounds` | src/math/fma.go:152-157 | aligning and adding leaves the exact sum rounded to odd, with its leading bit in place |
| `Fma.SubRounds` | src/math/fma.go:158-167 | aligning and subtracting leaves the exact difference rounded to odd, also after massive cancellation |
| `Fma.PackRounds` | src/math/fma.go:169-181 | overflow test, denormalisation and final rounding turn an odd-rounded sum into the roundTiesToEven number |
| `Fma.FmaRoundsOnce` | src/math/fma.go:93-182 | for all finite nonzero x, y, z the result is the exact x*y+z rounded once, ties to even, with gradual underflow, overflow to infinity and +0 on exact cancellation |
| `Float64.SignificandRounding` | src/math/fma.go:179-181 | a nearest even significand added onto the exponent field is nearest even among all binary64 numbers |
| `Float64.RoundsToUnique` | src/math/fma.go:93-95 | no nonzero exact result has two correct roundings |
| `Rounding.TruncIsWhole` | src/math/floor.go:68-81 | trunc keeps the integer part and sign of every finite number and leaves infinities and NaNs |
| `Rounding.RoundIsSlowRound` | src/math/floor.go:90-119 | on every 64-bit pattern Round equals truncate-and-step with ties away from zero, sign of zero, infinities and NaNs kept |
| `Rounding.RoundToEvenIsSlowRoundToEven` | src/math/floor.go:128-158 | on every 64-bit pattern RoundToEven equals its slow form with ties to even |
| `Rounding.SlowFormsAreNearest` | src/math/floor.go:83-99 | the slow forms give a nearest integer, the larger one or the even one on ties |
| `Rounding.ParityBit` | src/math/floor.go:143-148 | the bit that decides ties is the last bit of the integer part, also when it is the exponent's low bit |
| `PipeProofs.LockKept` | src/io/pipe.go:81-82 | in every step exactly the writers past wrMu.Lock and not past its unlock hold wrMu, so at most one |
| `PipeProofs.PairKept` | src/io/pipe.go:57-61 | every step keeps the pairing: a reader that took a slice and a writer waiting on rdCh come together, one of each |
| `PipeProofs.TurnKept` | src/io/pipe.go:76-96 | every step keeps that a writer takes one turn at the lock and counts bytes only in it |
| `PipeProofs.LogKept` | src/io/pipe.go:85-90 | every step keeps that the bytes delivered are the acknowledged prefixes in lock order |
| `PipeProofs.ReaderKept` | src/io/pipe.go:58-61 | every step keeps that the results of successful reads are exactly the transfers |
| `PipeProofs.ErrorKept` | src/io/pipe.go:107-123 | every step keeps that loaded errors come from the cells and are reported as the close-error rules say |
| `PipeProofs.CellsSetOnce` | src/io/pipe.go:15-33 | an error cell once set never changes, and done is closed only by once.Do |
| `PipeProofs.RunInv` | src/io/pipe.go:50-119 | all of these hold in every state of every interleaving |
| `PipeProofs.BytesInOrder` | src/io/pipe.go:50-96 | the bytes readers got are, in order, the acknowledged prefixes of the writes in wrMu order; turns do not interleave; each n counts exactly its own delivered bytes |
| `PipeProofs.Outcomes` | src/io/pipe.go:67-123 | a Write without error delivered everything; an error means done was closed and is the other side's error, or ErrClosedPipe if its own side was closed |
| `PipeProofs.AckReachesItsWriter` | src/io/pipe.go:57-61 | for a reader about to send on rdCh there is exactly one waiting writer, the one whose slice it copied, and the send can go through |
| `PipeErrors.FirstCloseSetsCell` | src/io/pipe.go:67-74 | an error cell holds what the first Close of its side left: the caller's error, or for nil EOF on the write side and ErrClosedPipe on the read side |
| `PipeErrors.FailureFromClose` | src/io/pipe.go:107-123 | a failed call reports what the first Close of the other side left, or ErrClosedPipe when its own side was closed |
| `PipeErrors.OtherSideClosed` | src/io/pipe.go:129-157 | with its own side open, a failed Read reports the error of the first CloseWithError of the writer, EOF for nil, and a failed Write that of the reader, ErrClosedPipe for nil |
| `PipeErrors.WriterClosed` | src/io/pipe.go:164-168 | when PipeWriter.Close is the only way the pipe was closed, a failed Read reports EOF and a failed Write ErrClosedPipe |
| `PipeErrors.OwnSideClosed` | src/io/pipe.go:107-123 | a call whose own side was closed before it loads that cell reports ErrClosedPipe, whatever the other side left |
| `PipeErrors.ReadAfterBothCloses` | src/io/pipe.go:164-168 | a run in which PipeWriter.Close and then PipeReader.Close return and a later Read reports ErrClosedPipe, not EOF |
| `PipeErrors.LateCallFails` | src/io/pipe.go:51-55 | a call that begins after a close fails without receiving or sending a byte, and without wrMu |
| `PipeErrors.TransferIsFull` | src/io/pipe.go:57-61 | one transfer is the next part of the slice, up to the end of the reader's buffer or of the slice |
| `PipeErrors.WriteMeetsReader` | src/io/pipe.go:85-90 | a Write without error has met a reader, also with nothing to write |
| `PipeProofs.RankDecreases` | src/io/pipe.go:50-105 | every step of a call in flight lowers the total rank |
| `PipeProofs.ClosedPipeMoves` | src/io/pipe.go:50-105 | once done is closed, some unfinished call can always move |
| `PipeProofs.EveryCallReturns` | src/io/pipe.go:50-105 | after a close, without new calls, the steps are bounded and where none is left all calls have returned |
| `CancelTreeProofs.StepKeepsInv` | src/context/context.go:400-580 | every step of every thread keeps the invariant of locks, frames, children and origins, and takes nothing back that was decided |
| `CancelTreeProofs.TickMoves` | src/context/context.go:550-580 | a step leaves alone whatever another activation's mutex guards |
| `CancelTreeProofs.RunInv` | src/context/context.go:383-580 | the invariant holds in every state of every interleaving |
| `CancelTreeTheorems.CancelReachesDescendants` | src/context/context.go:476-505 | once the cancel of n has released n.mu, every registered descendant has err set, done closed and its callback decided, also one that registered meanwhile |
| `CancelTreeTheorems.CancelFuncReturns` | src/context/context.go:550-580 | when a CancelFunc, or the cancel inside a stop that answers true, returns, this holds for its context, even if another call did the work |
| `CancelTreeTheorems.WrittenOnce` | src/context/context.go:559-566 | err, cause, the once decision and completion never change again once set |
| `CancelTreeTheorems.DoneClosedOnce` | src/context/context.go:566-571 | no cancel comes to close a channel that is closed already |
| `CancelTreeTheorems.CauseFromNearestRequest` | src/context/context.go:283-305 | err and cause are those requested for the context or its nearest ancestor canceled by a call of its own, and all contexts between carry the same pair |
| `CancelTreeTheorems.FirstToLockSetsCause` | src/context/context.go:550-566 | exactly the cancellation that first takes the context's mutex sets err and cause for good, a call of its own or one handed down |
| `CancelTreeTheorems.FirstCancellationSetsCause` | src/context/context.go:283-288 | the cancellation that set the cause of n, that of a, came before all other cancellations of n and its ancestors if and only if no strict ancestor of a was canceled by then |
| `CancelTreeTheorems.EarlierAncestorIsBusy` | src/context/context.go:550-580 | an ancestor already canceled at the moment n is canceled by a call of its own is still inside its cancel |
| `CancelTreeTheorems.DecidedInTheGap` | src/context/context.go:283-288 | when the call that set the cause of n canceled its context a, every strict ancestor of a was either not canceled or still inside its cancel, so the documented rule fails only in that gap |
| `CancelTreeTheorems.LateCallChangesNothing` | src/context/context.go:249-255 | once a cancel of an ancestor has completed, no later call changes err or cause of a registered descendant |
| `CancelTreeExample.LaterCallMaySetCause` | src/context/context.go:251-255 | a run in which the call on the child is made after the parent was canceled and its done channel closed, and still sets the child's cause |
| `CancelTreeTheorems.StartedOrStopped` | src/context/context.go:326-361 | a callback is started or stopped at most once, never both, and one of the two once its context is settled |
| `CancelTreeTheorems.StopAnswers` | src/context/context.go:329-346 | after a true answer the callback is stopped for good and never started; after a false one it has been started or stopped, and that is final |
| `CancelTreeCallbacks.AnswerDecided` | src/context/context.go:331-341 | a stop answers true if the callback was neither started nor stopped at its deciding step, and false otherwise |
| `CancelTreeCallbacks.OneTrueAnswer` | src/context/context.go:315-319 | of all stops of one callback in a run, at most one answers true |
| `CancelTreeCallbacks.CallbackRuns` | src/context/context.go:353-361 | once its context is settled, a callback that no stop has stopped was started, exactly once |
| `CancelTreeCallbacks.CauseFromCall` | src/context/context.go:550-566 | err and cause of a canceled context were asked for by one call on it or an ancestor: a CancelFunc, whose missing cause is its err, or a stop that answered true |
| `CancelTreeCallbacks.RegisteredOnReturn` | src/context/context.go:476-505 | every context is registered with its parent or the call that makes it has not come that far |
| `CancelTreeCallbacks.RemovedForGood` | src/context/context.go:400-419 | after removeChild the context is never again on the list of a parent that is not canceled |
| `CancelTreeCallbacks.CancelLeavesParent` | src/context/context.go:550-580 | a cancel asked to remove its context does so in its first step after releasing the mutex, and for good |
| `CancelTreeLocks.LocksGoDown` | src/context/context.go:572-575 | a thread that holds a context's mutex waits only for the mutex of a strict descendant |
| `CancelTreeLocks.NoDeadlock` | src/context/context.go:492-580 | in every reachable state with an unfinished call some thread can move |
| `CancelTreeDrain.RankDecreases` | src/context/context.go:550-580 | every step of every thread lowers a rank of contexts, children and frames |
| `CancelTreeDrain.EveryCallReturns` | src/context/context.go:326-580 | without new calls the remaining steps are bounded on every schedule, and where none is left all calls have returned |
| `VarMapProofs.InsertedKeeps` | src/expvar/expvar.go:177-186 | insertion at the searched place keeps the keys strictly sorted and adds exactly the key |
| `VarMapProofs.RemovedKeeps` | src/expvar/expvar.go:243-251 | deletion keeps the keys strictly sorted and removes exactly the key |
| `VarMapProofs.AppendedThenSorted` | src/expvar/expvar.go:313-316 | appending a new key and sorting inserts exactly that key |
| `VarMapProofs.StepKeepsInv` | src/expvar/expvar.go:177-264 | every step keeps keys inside m, pending insertions unique, disjoint from keys and inside m, and the lock exclusive |
| `VarMapProofs.KeysSorted` | src/expvar/expvar.go:177-317 | in every run keys is strictly sorted outside Publish's critical section, and inside m always |
| `VarMapProofs.DoSeesEntries` | src/expvar/expvar.go:253-264 | while Do runs, keys is sorted and unchanged and every key has an entry |
| `VarMapProofs.OrphanIffStoredAbsent` | src/expvar/expvar.go:194-206 | an entry is outside keys for good exactly when some Set stored a key absent at that moment |
| `VarMapProofs.NoRaceNoLoss` | src/expvar/expvar.go:194-251 | a run in which no Delete of k falls between a Set's lookup of k and its store leaves no entry of k outside keys |
| `VarMapProofs.DoShowsAll` | src/expvar/expvar.go:194-264 | when all calls have returned, Do shows exactly the entries of m if and only if no Set stored an absent key |
| `VarMapProofs.LostEntry` | src/expvar/expvar.go:194-251 | a run of two Sets and a Delete that ends with an entry that keys does not show |
| `VarMapValues.EntryFromCall` | src/expvar/expvar.go:194-224 | every entry was put there by a Set, Publish or Add that asked for exactly this value at this key, and no step since has put another or deleted it |
| `VarMapValues.SetPutsValue` | src/expvar/expvar.go:194-206 | a Set that has returned has put its value at its key in one of its steps |
| `VarMapValues.PublishPutsOrPanics` | src/expvar/expvar.go:309-316 | a Publish that has returned put its value under a name not in use; one that panicked found it in use and changed nothing |
| `VarMapValues.DeleteTakesOut` | src/expvar/expvar.go:243-251 | a Delete that has returned removed the entry after its key, or found no such key |
| `VarMapValues.DoVisitsAll` | src/expvar/expvar.go:256-264 | Do calls f for the keys in order, each with an entry, and ends only past the last |
| `Source.ReadKeepsData` | src/bufio/bufio.go:112-113 | a source hands out its data in order, no more than asked for, and its error only when nothing is left |
| `Splitting.ScanLinesSteady` | src/bufio/scan.go:345-372 | ScanLines commits to a token only when no further input could change it |
| `Splitting.ScanRunesSteady` | src/bufio/scan.go:312-342 | so does ScanRunes |
| `Splitting.RawLinesShape` | src/bufio/scan.go:352-358 | each raw line ends at its only newline, except that the last may have none |
| `Splitting.RawLinesJoin` | src/bufio/scan.go:352-358 | the raw lines make up the input |
| `Splitting.TokensAreLines` | src/bufio/scan.go:345-372 | the tokens of ScanLines are the raw lines, one for one, each without its `\r\n` or newline, and a carriage return that ends an unterminated line goes too |
| `Splitting.TokensAsDocumented` | src/bufio/scan.go:352-358 | they are the lines without the documented marker, a newline and an optional carriage return before it, if and only if the input does not end in a carriage return |
| `Splitting.LoneCarriageReturn` | src/bufio/scan.go:366-369 | an input on which they are not: the only token of a lone carriage return is empty |
| `Splitting.TokensAreRunes` | src/bufio/scan.go:306-342 | the tokens of ScanRunes are the encodings of the decoded runes, one for one |
| `Splitting.LinesFit` | src/bufio/scan.go:196-203 | all tokens fit exactly when each line with its newline is within the limit and an unterminated one below it |
| `Scanner.Scanner.SetErr` | src/bufio/scan.go:256-261 | only the first error, or the first after EOF, is recorded |
| `Scanner.Scanner.Advance` | src/bufio/scan.go:242-254 | moves start by n exactly when that stays within the data, else records the error for a negative or too large count |
| `Scanner.Scanner.TrySplit` | src/bufio/scan.go:149-179 | splits the buffered data and acts on every answer: final token, error, illegal advance, token, no token, too many empty tokens |
| `Scanner.Scanner.MakeRoom` | src/bufio/scan.go:188-214 | shifting or growing keeps the data and makes room, or fails with a full buffer at the limit |
| `Scanner.Scanner.Fill` | src/bufio/scan.go:215-238 | reading neither loses nor adds data and ends with progress or an error |
| `Scanner.Scanner.Scan` | src/bufio/scan.go:139-240 | the next token of the whole remaining input if it fits, false at the end, ErrTooLong if it does not fit the longest buffer |
| `Scanner.AllTokens` | src/bufio/scan.go:139-240 | scanning to the end yields the tokens of the whole data for every chunking and every initial buffer |
| `Scanner.AllLines` | src/bufio/scan.go:139-261 | with ScanLines these are the raw lines without `\r\n`, newline or final carriage return, and the documented lines exactly when the input does not end in a carriage return |
| `Reader.Reader.Fill` | src/bufio/bufio.go:98-127 | the remaining input is unchanged; there is new data or a pending error |
| `Reader.Reader.Peek` | src/bufio/bufio.go:135-170 | the next n bytes of the input, or as many as there are or fit, with the error that says why; nothing is consumed |
| `Reader.Reader.Discard` | src/bufio/bufio.go:172-207 | skips exactly n bytes, or all that remain with the source's error; an error comes exactly when fewer than n were skipped |
| `Reader.Reader.Read` | src/bufio/bufio.go:209-263 | hands out a prefix of the remaining input, from the buffer alone if it holds anything; nothing and no error only if the buffer was empty and the source was asked |
| `Reader.Reader.ReadByte` | src/bufio/bufio.go:265-279 | the next byte of the input, or the source's error exactly at its end |
| `Reader.Reader.UnreadByte` | src/bufio/bufio.go:281-301 | succeeds exactly when a last byte is known, and puts exactly that byte back |
| `Reader.Reader.ReadRune` | src/bufio/bufio.go:303-319 | decodes the remaining input as if it were all there |
| `Reader.Reader.UnreadRune` | src/bufio/bufio.go:321-333 | a success puts back exactly the bytes of the last rune |
| `Reader.Reader.ReadSlice` | src/bufio/bufio.go:338-387 | the input up to the first delimiter, or all of it with its error, or a full buffer without one |
| `Reader.Reader.CollectFragments` | src/bufio/bufio.go:440-469 | full buffers and a fragment that together are that prefix of the input |
| `Reader.Reader.ReadBytes` | src/bufio/bufio.go:471-489 | the shortest prefix that ends in the delimiter, or all the input with its error |
| `Reader.ChunkingDoesNotMatter` | src/bufio/bufio.go:471-489 | the same data through two buffer sizes and two chunkings gives the same result |
| `Writer.Writer.Flush` | src/bufio/bufio.go:634-656 | nothing accepted is lost, also after a short or failed write; without an error all of it is delivered; there is an error exactly when the underlying writer's reply fails or is short, and it says which |
| `Writer.Writer.Write` | src/bufio/bufio.go:672-698 | exactly the first nn bytes are accepted, all unless there is an error, which is the failure, or the short write, in the underlying writer's last reply, when no reply before failed; nothing past a sticky error; a write that fits goes to the buffer alone |
| `Writer.Writer.WriteString` | src/bufio/bufio.go:743-778 | the same for strings |
| `Writer.Writer.WriteByte` | src/bufio/bufio.go:700-711 | the byte is accepted exactly when there is no error, and an error comes only from the underlying writer |
| `Writer.Writer.WriteRune` | src/bufio/bufio.go:713-741 | the encoding of the rune is accepted, all of it unless the underlying writer fails, also in a tiny buffer |
| `Writer.Session` | src/bufio/bufio.go:635-778 | over any sequence of calls, what was delivered followed by the buffer is what was reported accepted, all that was offered unless the underlying writer failed, and the error is that of its last reply |
| `Utf8.DecodeEncoded` | src/unicode/utf8/utf8.go:365-405 | decoding the encoding of a valid rune, whatever follows, gives the rune and its length |
| `Utf8.EncodeDecoded` | src/unicode/utf8/utf8.go:148-211 | a decoding that is no error consumed exactly the encoding of its rune |
| `Utf8.FullRuneMeaning` | src/unicode/utf8/utf8.go:108-127 | FullRune holds exactly when there is input and no continuation of it decodes differently |
| `Utf8.DecodeWidth` | src/unicode/utf8/utf8.go:148-211 | a decoding consumes one to four bytes, all but the first of them continuation bytes, and yields a valid rune |
| `Utf8.EncodeShape` | src/unicode/utf8/utf8.go:365-405 | an encoding is one lead byte that announces its length and continuation bytes |
| `Utf8.EncodingTable` | src/unicode/utf8/utf8.go:365-405 | the length of every encoding and the weight of its bytes are those of the table in section 3 of RFC 3629; what is no rune is encoded as U+FFFD |
| `ReadRune.LeftoverOk` | src/fmt/scan.go:359-363 | what is left after a bad first byte continues something, except possibly its last byte |
| `ReadRune.Reader.ReadByte` | src/fmt/scan.go:313-326 | the next byte of pushed-back bytes and input, in order |
| `ReadRune.Reader.ReadRune` | src/fmt/scan.go:328-367 | the rune that decoding all that lies ahead would give; leftovers go back without reordering |
| `ReadRune.Reader.UnreadRune` | src/fmt/scan.go:369-376 | succeeds exactly when no rune is pushed back, and puts the last rune in front |
| `ReadRune.ReadAll` | src/fmt/scan.go:304-367 | reading any byte stream to its end gives the runes of decoding it at once |
| `ReadRune.ReadTwice` | src/fmt/scan.go:328-376 | reading again after UnreadRune gives the same rune, and the same width unless the rune was one bad byte |
| `ReadRune.BadByteTwice` | src/fmt/scan.go:328-376 | the byte 0xFF reads with width 1 and, pushed back, with width 3 |
| `ReadRune.UnreadBeforeRead` | src/fmt/scan.go:369-388 | an UnreadRune before any read succeeds and puts U+0000 in front of the input |
| `Index.Index` | src/bytes/bytes.go:1288-1373 | the first occurrence, whatever MaxLen, MaxBruteForce and Cutover are |
| `Index.IndexSmall` | src/bytes/bytes.go:1304-1340 | the search with the bytealg.Index fallback finds the first occurrence |
| `Index.IndexLarge` | src/bytes/bytes.go:1341-1373 | the search with the Rabin-Karp fallback finds the first occurrence |
| `Index.FirstInTail` | src/bytes/bytes.go:1332-1337 | with no occurrence before i, searching the tail finds the first occurrence |
| `IndexRune.FirstRuneIsFirst` | src/bytes/bytes.go:126-130 | decoding finds a rune first exactly where its encoding first occurs, in any byte string |
| `IndexRune.NoneInside` | src/bytes/bytes.go:126-130 | no encoding starts inside a decoded rune |
| `IndexRune.IndexFunc` | src/bytes/bytes.go:895-909 | the first decoded position whose rune has the wanted truth value |
| `IndexRune.IndexEncoded` | src/bytes/bytes.go:149-205 | the search by last byte with either fallback finds the first occurrence |
| `IndexRune.IndexRune` | src/bytes/bytes.go:131-207 | equals indexFunc for every byte string and every rune, valid or not |
| `Entities.EntityFits` | src/html/escape.go:53-164 | with a fitting table a reference writes at least one byte and no more than it reads |
| `Entities.LongestPrefix` | src/html/escape.go:146-156 | the longest entity without semicolon that starts the name, within the limit |
| `Unescape.ReadNumber` | src/html/escape.go:76-101 | stops after the digits and a semicolon; the accumulator is the number wrapped to 32 bits |
| `Unescape.ReadName` | src/html/escape.go:123-136 | stops after the longest alphanumeric name and a semicolon |
| `Unescape.UnescapeEntity` | src/html/escape.go:53-164 | writes the decoded reference at dst, advances both cursors, keeps dst at or behind src and the unread input intact |
| `Unescape.UnescapeString` | src/html/escape.go:187-214 | the single-buffer loop equals the out-of-place decoder for every string and every fitting table |
| `References.NumericReference` | src/html/escape.go:67-118 | a reference to n, decimal or hexadecimal, in either case of x and of the letters, decodes to the encoding of n; 0, surrogates and numbers past the last code point to U+FFFD, 0x80 to 0x9F as in Windows-1252, and from 2^32 on n counts modulo 2^32 |
| `References.WideReference` | src/html/escape.go:82-114 | a number past the last code point decodes to U+FFFD if and only if its last 32 bits are 0, a surrogate, U+FFFD or past the last code point |
| `References.WideReferenceFails` | src/html/escape.go:82-114 | an input on which it does not: the reference to 2^32 + 65 decodes to the letter A |
| `References.DocumentedExamples` | src/html/escape.go:188-190 | `&#225;` and `&#xE1;` decode to the two bytes of the letter a with an acute accent |
| `References.NamedReference` | src/html/escape.go:123-145 | a name of the tables decodes to its one or two runes |
| `References.UnknownName` | src/html/escape.go:146-163 | of any other name the longest part of two to six bytes that is a name decodes and reading goes on behind it; without one the text stays |
| `RoundTrip.UnescapeEscape` | src/html/escape.go:174-186 | UnescapeString(EscapeString(s)) == s for every byte string |
| `RoundTrip.EscapeUnescape` | src/html/escape.go:174-186 | the converse holds exactly on the strings without quotes and angle brackets in which every ampersand starts one of the five references |
| `RoundTrip.EscapeUnescapeFails` | src/html/escape.go:174-186 | an input on which the converse fails |
| `RoundTrip.EscapeIsInert` | src/html/escape.go:166-179 | escaped text has no quote or angle bracket, and every ampersand in it starts one of the five references |
| `Numerals.NumeralValue` | src/fmt/format.go:236-272 | the digits of u denote u in each base |
| `Numerals.DigitsDenote` | src/fmt/format.go:197-201 | the digits with their leading zeros, and the sign, denote exactly the 64-bit argument, signed or not |
| `Numerals.BufferSuffices` | src/fmt/format.go:203-213 | the computed buffer size suffices for every value and all flags exactly when base and verb go together |
| `Numerals.TextFits` | src/fmt/format.go:203-316 | the whole text fits the buffer |
| `Integer.PutDigits` | src/fmt/format.go:236-272 | the digits are written right to left and end the buffer |
| `Integer.PutText` | src/fmt/format.go:236-316 | the index stays in the buffer and the buffer ends with sign, prefixes, zeros and digits |
| `Integer.Formatter.FmtInteger` | src/fmt/format.go:196-324 | appends exactly the padded text, or only padding for value 0 with precision 0, and restores the flags |
| `Integer.Formatter.Pad` | src/fmt/format.go:92-108 | appends the text padded on the side the flags ask for |
| `Integer.FieldWidth` | src/fmt/format.go:92-108 | the field is the text, or as wide as asked for |
| `Fields.TextParts` | src/fmt/format.go:196-316 | the text is the sign, the prefix and digits that denote the magnitude; byte for byte which sign and prefix, and how many leading zeros |
| `Fields.NumeralIsPlain` | src/fmt/format.go:236-265 | a numeral consists of digits of its base, in the letter case asked for, and begins with 0 only for 0 |
| `Fields.PaddingShape` | src/fmt/format.go:92-108 | padding is spaces, or zeros with the zero flag, in front, or spaces behind with the minus flag, up to the width in runes |
| `Fields.FieldShape` | src/fmt/format.go:319-324 | the field of an integer is its text and spaces on the side the flags ask for, up to the width |
| `DirectiveProofs.NumeralIsRead` | src/fmt/print.go:349-362 | a number up to a million, printed in decimal, is read back by parsenum |
| `DirectiveProofs.OptionsFine` | src/fmt/print.go:1072-1129 | whatever the index, width and precision say, both stay within 0..10000009 and are 0 when absent |
| `DirectiveProofs.DirectiveShaped` | src/fmt/print.go:1027-1160 | a directive yields complaints and then one event for its whole text, from its percent sign to its verb, with an argument in bounds |
| `DirectiveProofs.EventsCover` | src/fmt/print.go:1012-1161 | the events of a format cover it in order and without gaps |
| `DirectiveProofs.EventsSound` | src/fmt/print.go:1007-1161 | every argument printed exists, with width and precision within 0..10000009 |
| `DirectiveProofs.PlainInOrder` | src/fmt/print.go:1007-1161 | without indices and stars there are no complaints, arguments are printed in order, and one is missing only when all have been printed |
| `DirectiveProofs.PlainPrintsAll` | src/fmt/print.go:1007-1161 | without indices and stars as many arguments are printed as there are directives that want one, or all of them |
| `Syntax.NumberAt` | src/fmt/print.go:349-362 | a numeral up to 10000009 is read as its number wherever it stands, a larger one is not read |
| `Syntax.DirectiveReads` | src/fmt/print.go:1027-1160 | a directive written out from its tree (flags, width, precision, index, verb; numbers, stars and indices for these) means what the tree means, wherever it stands |
| `Syntax.FormatReads` | src/fmt/print.go:1007-1161 | a format written out from literal text and such trees has exactly the events that these mean |
| `Syntax.IndexSelects` | src/fmt/print.go:954-993 | `%[n]d` prints argument n, counted from one, if there is one, and is a bad index otherwise |
| `Syntax.WidthAndPrecision` | src/fmt/print.go:1030-1129 | flags, a number before the dot and one behind it come to exactly these flags, this width and this precision |
| `Syntax.StarsTake` | src/fmt/print.go:1075-1124 | a star takes the next argument; a negative width is its magnitude with the minus flag, a negative precision none |
| `Syntax.IndexSpoilsWidth` | src/fmt/print.go:1093-1096 | an index directly before a number spoils the directive |
| `Syntax.ArgumentsSwapped` | src/fmt/doc.go:247-249 | `%[2]d %[1]d` prints the second argument and then the first |
| `Syntax.IndexedStars` | src/fmt/doc.go:251-257 | `%[3]*.[2]*[1]f` with 2 and 6 for the stars prints the first argument with width 6 and precision 2 |
| `Printf.ParseNum` | src/fmt/print.go:349-362 | exactly the number in the format: the longest run of digits, nothing if there is none or the number gets too large |
| `Printf.IntFromArg` | src/fmt/print.go:921-952 | the value of an integer argument of magnitude up to a million, exactly then, and the next argument number |
| `Printf.ParseArgNumber` | src/fmt/print.go:954-977 | succeeds exactly when the text up to the first closing bracket is a number, and says how far to skip |
| `Printf.Printer.ArgNumber` | src/fmt/print.go:979-993 | a good index in bounds is taken and nothing else; anything else bracketed spoils the directive |
| `Printf.Printer.ParseFlags` | src/fmt/print.go:1030-1070 | exactly the flags in the run of flag characters are set, and the cursor stops after the run |
| `Printf.Printer.ParseWidth` | src/fmt/print.go:1075-1097 | the width that the number or the star means, with its effect on minus and zero, the cursor and the argument number |
| `Printf.Printer.PrecNumber` | src/fmt/print.go:1106-1124 | the precision that the number or the star means, 0 for a missing number |
| `Printf.Printer.Directive` | src/fmt/print.go:1027-1160 | emits exactly the events that the directive means, and moves cursor and argument number accordingly |
| `Printf.Printer.DoPrintf` | src/fmt/print.go:1007-1161 | emits exactly the events that the format means, which cover it, stay in bounds and, without indices and stars, are in order |
| `Pull.Pull.Switch` | src/iter/iter.go:271-305 | runs the coroutine to its next value or its end; its precondition is that it is not finished |
| `Pull.Pull.Next` | src/iter/iter.go:306-330 | the next pushed value, or the end, or the panic of seq; the zero value ever after |
| `Pull.Pull.Stop` | src/iter/iter.go:331-350 | finishes the coroutine, also before its first value, and propagates its panic |
| `Pull.Session` | src/iter/iter.go:261-352 | for any calls the values are a prefix of those pushed, all of them or as many as asked for without a stop, and nothing follows the end |
| `Refs.Table.constructor` | lib/wasm/wasm_exec.js:485-503 | the seeded tables satisfy the invariant |
| `Refs.Table.StoreValue` | lib/wasm/wasm_exec.js:147-195 | the slot loads the value again, -0 as 0; its id has one reference more; no referenced id changes its value |
| `Refs.Table.FinalizeRef` | lib/wasm/wasm_exec.js:312-323 | one reference less; the last one pools the id, never a seeded one; other referenced ids keep their values |
| `Refs.Session` | lib/wasm/wasm_exec.js:134-195 | in any run that finalizes each reference at most once, every reference in hand loads its value and every count is the number in hand |
| `Refs.DropId` | lib/wasm/wasm_exec.js:317-322 | dropping an id leaves the reverse map the inverse of the values on the ids in use |
| `Refs.GivePooled` | lib/wasm/wasm_exec.js:321-321 | the pool lists exactly the ids without references, each once |

## Left out

- FMA's shortcuts for zero, infinite and NaN arguments (src/math/fma.go:98-113), which defer to hardware arithmetic, except that an infinite or NaN z is returned.
- Contexts of other packages, the afterFuncer branch and the fallback goroutine of propagateCancel (src/context/context.go:508-529); real timers: expiry is a cancellation that may come at any time.
- The entity tables themselves: they are a parameter with the length bound and, for the round trip, `amp;`, `lt;` and `gt;`.
- expvar's Init, JSON output and the arithmetic of Int and Float values; values are opaque.
- bufio.Reader.ReadLine, whose carriage-return put-back steps r back without resetting lastByte, and ReadString, Reset, WriteTo and ReadFrom.
- Writer.Writer.WriteString: does not model delegation to an underlying StringWriter.
- Scanner.Scanner.TrySplit: the token is a copy, so that it later shares the buffer with other data is not captured; the same holds for Peek and ReadSlice.
- Scanner.Scanner.Scan: promises tokens for split functions that commit to a token only when no further input could change it, and sources with at most 100 empty reads in a row; with any other split function the tokens do depend on the chunking, and Scanner.Scanner.TrySplit says what each answer does.
- Readers that return impossible counts: sources abide by the io.Reader contract; Scanner tolerates one empty read in a row more than Reader, and the statements that data arrives assume sources that stay within that.
- ReadRune.Reader.ReadRune: a failure other than EOF inside a rune loses the bytes already read, as in the source; the equality with decoding at once is for streams that end in EOF.
- Printf.Printer.Directive: does not record that `#` and `+` become the Go-syntax flags sharpV and plusV for the verbs v and w, only that they are taken away.
- Printing of arguments other than integers, reflection, Formatter and Stringer, `%w` bookkeeping and the EXTRA report after the loop.
- Integer.Formatter.WritePadding: does not model the capacity of the output buffer.
- Re-entrant or concurrent calls of next and stop, and the race detector calls of iter.Pull; Goexit is one of the abnormal endings; Pull2 repeats Pull.
- The bytes of NaN-boxed slots: a slot is a number or a flag with an id; loadSlice and the other imports of wasm_exec.js.
- Other packages of the library: transcendental functions need real analysis; image, embed, flag, errors, maps, cmp, log, bytes.Buffer, bytes.Reader and io.MultiReader would only add easier members.
