# A verified model of the shmring ring buffer

shmring is a single-producer, single-consumer byte ring in shared memory. A Writer and a Reader
share nothing but three 32-bit words (head, tail, closed) and a data region whose size is a power of
two. Each side keeps its own counter, works from a stale copy of the other's, copies payload bytes in
one or two segments, and publishes by storing its counter. Counters wrap at 2^32.

The project proves that this works under every interleaving, says exactly where two promises of the
documentation fail, and shows that the sequential code on real bytes does what the protocol says.

## Layout

| file | content |
|---|---|
| `Counting.dfy` | counting the steps of a kind along a run |
| `Words.dfy` | wrap-around arithmetic, `&` on integers, the capacity check, ring slots, a stream held in a ring |
| `Protocol.dfy` | the step machine: every load, store, byte copy, compare-and-park and wake of both sides is one step; history is recorded beside the machine and never read by it |
| `Invariant.dfy` | the inductive invariant and its preservation by every step |
| `Safety.dfy` | theorems about every state of every run: order, bounds, races, sleeping, closing, the futex compare |
| `EndOfStream.dfy` | the exact meaning of EOF; exactly which Readers a Close wakes; how soon a read comes to EOF |
| `Witnesses.dfy` | concrete runs that reach the two windows |
| `Attempts.dfy` | one attempt to write or read, alone or inside a blocking call, under interference: how much it moves, where it leaves the call, how soon it ends |
| `Calls.dfy` | whole calls: every way in which a read, a write, a Close or a cancellation returns, and bounds on when |
| `Delivery.dfy` | a blocking write against a client reading from any moment on, with waits that are woken, timed or polled: bounds on all schedules and on all fair ones, and the exact outcome |
| `Header.dfy`, `ByteLevel.dfy` | the little-endian header; runs of the protocol on the bytes of a storage |
| `SplitCopy.dfy` | the one- or two-segment copies against modular indexing |
| `Storage.dfy`, `Endpoints.dfy` | the storage, Writer and Reader as classes that change their fields and bytes in place |
| `Condvar.dfy` | the mutex-and-condvar storage against the wait/wake contract, step by step and call by call; its calls return, and nobody deadlocks |
| `OnCondvar.dfy` | the Writer and the Reader over that storage: every run is a run of the protocol, and no side is held up |
| `Polling.dfy` | poll options and backoff |

`dafny verify dfyconfig.toml` checks everything.

## Assumptions

- Aligned 32-bit accesses are atomic and take effect in program order, as `doc.go:27-34` assumes. Payload
  bytes are copied one at a time and the other side may act between any two of them.
- There is one Writer and one Reader. The Reader may attach at any time before it has consumed anything.
- Wait compares and parks in one step; Wake unparks whoever is parked; a wait may also end by timeout,
  spuriously, or (on storages without Wait) by a poll sleep. For the Rust in-process storage this is not
  assumed: `OnCondvar.dfy` runs both sides over its locks and notifications and finds a run of the protocol.
- Storage never fails an access that is in range. Every access in every run is proved to be in range.

## Two promises that the code keeps only on a condition

- **EOF means drained.** TryRead loads tail first and closed second. A write and a Close between the two
  loads give EOF with bytes still in the ring (`Witnesses.EofCanComeEarly`).
  `EndOfStream.EofIsDrainedIff`: EOF means drained if and only if no tail store falls between the two loads
  of that call; so it always does when the closed flag was already up at the tail load.
- **Close wakes a blocked Reader.** A Reader that has loaded closed as 0 and not yet called Wait misses the
  nudge, because the tail word it compares has not changed (`Witnesses.CloseCanBeMissed`).
  `EndOfStream.SleepsAfterCloseIff`: after Close the Reader sleeps if and only if it was at that point when
  the nudge was given and that compare is all it has done since. A Reader asleep at the nudge comes to EOF
  (`SleeperAtCloseComesToEof`), and so does every Reader whose waits end of themselves
  (`ReturnLeadsToEof`, `EofComesFromAnyPosition`).

`Delivery.ReadingToEofDeliversIff` puts both together for a whole transfer, and `Delivery.EveryFairScheduleEnds`
bounds the transfer when both sides only poll.

Code and documentation disagree in one more place: the backoff is `min(minPoll * 2^k, maxPoll)` only while
`maxPoll` is below 2^62 nanoseconds (`Polling.BackoffIsDocumentedIff`).

## Model

| member | source | states |
|---|---|---|
| Words.CapacityCheckIsExact | header.go:51-56 | the check accepts exactly the values 2^k with k at most 31 |
| Words.MaskIsMod | writer.go:83 | masking with 2^k - 1 is the remainder modulo 2^k, for every counter value |
| Words.MaskedWordIsSlot | reader.go:86 | the masked 32-bit counter is the slot of the unwrapped counter, since the capacity divides 2^32 |
| Words.IndexIsSlot | writer.go:83-96 | mask, then split at the end of the ring: byte i lands in the slot of counter + i, also when the counter wraps mid-transfer |
| Words.SlotsDistinct | writer.go:83-96 | stream positions less than one capacity apart never share a slot |
| Words.PutKeepsStored | writer.go:83-96 | copying the next byte into free space leaves every unread byte in place |
| Invariant.StepKeeps | writer.go:55-195 | every step of either side, every call, cancellation and wait return keeps the whole invariant |
| Invariant.RunKeeps | reader.go:54-147 | the invariant holds in every state of every run |
| Invariant.DistancesAreTrue | writer.go:63-72 | each unsigned 32-bit subtraction and comparison the code makes equals the one on unwrapped counters |
| Invariant.WriterKeepsChain | writer.go:55-103 | the Writer's steps keep seenHead <= pubHead <= head <= seenTail <= pubTail <= tail <= seenHead + capacity |
| Invariant.ReaderKeepsChain | reader.go:54-106 | the Reader's steps keep the same chain |
| Invariant.CopyKeepsRing | writer.go:83-96 | a payload byte goes to its slot and disturbs no byte the Reader may still need |
| Invariant.ReaderKeepsRing | reader.go:86-101 | what the Reader copies out is the next part of the stream, and delivered bytes stay its prefix |
| Invariant.WriterKeepsCalls | writer.go:114-150 | the stream is the accepted prefixes of all finished calls in order, then what the current call has copied |
| Safety.FifoInEveryRun | writer.go:55-103 | in every state of every run: delivered is a prefix of published, delivered then ring contents (found with the 32-bit words) is exactly published, and every byte came from the write calls in order |
| Safety.WritesReportTheirPrefix | writer.go:114-150 | a call publishes exactly the prefix it reports: all of it for a blocking write without error, nothing on ErrClosed, however it interleaves |
| Safety.NoAccessOutOfRange | backend/mem.go:37-58 | no run makes an access outside the storage, the Writer's source slice or the Reader's destination slice |
| Safety.CountersStayOrdered | header.go:22-44 | the counter chain and the true distances hold in every state, after any number of wraps |
| Safety.CopiesNeverCollide | reader.go:86-99 | while both sides copy, their remaining byte ranges are disjoint |
| Safety.SleepersHaveAReason | reader.go:117-147 | a parked Reader sees an empty ring and a parked Writer a full one, unless the peer's next step wakes it |
| Safety.NeverBothAsleep | writer.go:114-150 | no reachable state has both sides parked |
| Safety.CloseFreezesTheStream | writer.go:181-195 | once closed is 1 it stays 1 and neither the tail word nor the stream changes |
| Safety.WriterCompareIsExact | writer.go:137 | since its last load of head, the Writer's compare value equals the word if and only if the Reader stored nothing: no ABA |
| Safety.ReaderCompareIsExact | reader.go:135 | the same for the Reader and the tail word |
| EndOfStream.EveryEofHasItsLoad | reader.go:60-79 | every closed load is preceded by the tail load of the same call |
| EndOfStream.EofLosesWhatSlippedBetween | reader.go:60-79 | at EOF, what was not delivered is exactly what was published between that call's two loads, and the stream is final |
| EndOfStream.EofIsDrainedIff | reader.go:60-79 | EOF means drained if and only if no tail store falls between the two loads |
| EndOfStream.EofAfterCloseIsDrained | reader.go:70-79 | a read whose tail load follows Close's flag store returns EOF only when drained |
| EndOfStream.DrainedEofIsFinal | reader.go:60-79 | after such an EOF no byte is ever delivered again and every non-empty read that ends of itself ends with EOF |
| EndOfStream.ShortEofMeansAWriteSlippedIn | reader.go:60-79 | if an EOF left bytes behind, the run contains the tail store between the two loads |
| EndOfStream.CloseWakesUnlessAboutToPark | writer.go:181-195 | Close's nudge wakes a parked Reader, and the Reader is parked later only if it was about to park at the nudge |
| EndOfStream.SleepsAfterCloseIff | reader.go:123-146 | in every run: after the nudge the Reader sleeps if and only if it was about to park at it and its only action since is that compare |
| EndOfStream.NudgeIsMissedForGood | reader.go:131-136 | without returns or cancellation the nudge is missed at any later moment if and only if the Reader was about to park at it |
| EndOfStream.EveryCloseHasItsNudge | writer.go:181-195 | every finished Close has re-stored tail and woken |
| EndOfStream.DrainedReadComesToEof | reader.go:123-146 | on a drained closed ring the read in progress returns EOF with the Reader's third step at the latest, whatever the Writer does, and everything was delivered |
| EndOfStream.ReturnLeadsToEof | reader.go:137-146 | a timed, spurious or polled return on a drained closed ring is followed by that read's EOF within three steps of the Reader; that a return by itself ends no read, on any ring, is `Calls.ReadReturns` |
| EndOfStream.SleeperAtCloseComesToEof | writer.go:189-194 | a Reader parked when Close gives its nudge has received everything, and its read returns EOF within three of its steps |
| EndOfStream.EofComesFromAnyPosition | reader.go:117-147 | once closed, from any position, a Reader that goes on reading returns EOF within 7 actions per unread byte and 7 more |
| Witnesses.EofCanComeEarly | reader.go:63-75 | a run in which a read returns EOF with one published byte undelivered |
| Witnesses.CloseCanBeMissed | writer.go:194 | a run that ends with the Reader parked on a drained, closed ring and no step left to wake it |
| Attempts.TryWriteTakesWhatFits | writer.go:55-103 | under any interference an attempt to write, also as a turn of a blocking call, takes at least what was free at its start and at most what is free at its end, exactly min(len, free) when nothing was read meanwhile; then TryWrite returns that count without error, and a blocking write tries again, or waits if nothing fitted |
| Attempts.TryReadTakesWhatIsThere | reader.go:54-106 | the same for an attempt to read and available bytes; it returns at once with bytes, with EOF on a closed ring, or, not blocking, with nothing on an open one, and a blocking read waits exactly when it found the ring empty and then open |
| Attempts.ReadAttemptEnds | reader.go:54-106 | an attempt to read into len bytes ends within len + 5 steps of the Reader, whatever the Writer does |
| Calls.ReadReturns | reader.go:123-146 | every read of every run returns with 1 to len next bytes, no fewer than its last attempt found, or with an empty buffer, at EOF, not blocking on an empty open ring, or canceled while it waited; nothing else, such as the end of a poll sleep, ends it |
| Calls.EofReturns | reader.go:75-76 | a read, blocking or not, that finds the ring empty and closed returns with that step, with EOF and no further byte |
| Calls.WhatIsThereIsRead | reader.go:117-147 | whenever there is something to read, a read that is not asleep returns within len + 7 actions of the Reader and does not fall asleep before |
| Calls.WriteReturns | writer.go:114-150 | every write of every run that returns reports exactly once, about its own bytes: refused exactly when closed as it began, canceled exactly when its context was done, else complete if blocking; the stream has grown by exactly the prefix it reports |
| Calls.WriteReturnsOrWaits | writer.go:118-137 | a write of n bytes returns, or comes to wait for the Reader, within 7n + 2 of its own steps; TryWrite never waits |
| Calls.RoomIsUsed | writer.go:118-149 | whenever there is room, a write that is not asleep publishes more or returns within n + 6 actions of the Writer and does not fall asleep before |
| Calls.CloseReturns | writer.go:181-195 | the first Close stores the flag, then the unchanged tail, then wakes, and returns with its fourth step, whatever the Reader does |
| Calls.CancelReturns | writer.go:129-131 | a done context ends the call that notices it: a read with nothing, a write with the count it had published |
| Calls.EveryMoveIsOpen | reader.go:117-147 | wherever a run has come, it goes on with any call of an idle side, any next step, cancellation of a wait and return of a wait |
| Delivery.StepDescends | writer.go:118-149 | every step of a transfer lowers one measure, but for the return of a wait, which raises it by at most 14 |
| Delivery.EveryScheduleEnds | reader.go:123-146 | a transfer of n bytes in which r waits returned of themselves has at most 82n + 22 + 15r steps under every scheduler |
| Delivery.EveryStepGetsOn | writer.go:118-149 | every step gets something done, or leaves the turn where it is and brings the side whose turn it is no further off, and nearer if it acts |
| Delivery.EveryFairScheduleEnds | backend/backend.go:87-89 | however often waits time out or polls repeat, a schedule that passes neither side over for b steps is shorter than b(32n + 66) |
| Delivery.EveryScheduleCanBeFinished | writer.go:114-150 | every schedule extends to one in which no step is left, with or without returning waits |
| Delivery.ReadingInFullDeliversTheInput | ringbuffer_test.go:92-124 | blocking write against read-in-full, woken, timed or polled: when nothing is left to do, the output equals the input |
| Delivery.NothingButTheInput | reader.go:54-106 | at every moment of every schedule what has been read is a prefix of the input |
| Delivery.ReadingToEofDeliversIff | README.md:88-105 | write, Close, read to EOF: everything is delivered if and only if no write slipped between a read's two loads; EOF is seen if and only if the Reader does not sleep through Close, so always where waits return, and otherwise if and only if the nudge was not missed |
| Header.DecodeEncode | header.go:99-108 | decoding undoes little-endian encoding of every value that fits |
| Header.EncodeDecode | rust/src/header.rs:104-110 | encoding undoes decoding of every byte string |
| Header.StoreThenLoad | header.go:115-131 | a stored word loads back and every other word is untouched |
| Header.WordStoreFrames | header.go:115-131 | storing head, tail or closed disturbs neither the other two, nor the identity, nor any data byte |
| Header.VerifyAfterInit | header.go:61-91 | a fresh header verifies against exactly its own capacity, for all 64-bit capacities, with zero counters |
| Header.HeaderIsLaidOut | header.go:76-91 | a header is accepted exactly when its first eight bytes are 52 4d 48 53 01 00 00 00 and the next eight are the capacity, little-endian |
| Header.AcceptedIffAsWritten | header.go:61-72 | accepted exactly when the first 16 bytes are those written for that 64-bit capacity; the rest of a fresh header is zero |
| ByteLevel.EffectsCommute | header.go:8-20 | a step's effect on the bytes is its effect on words and data; the identifying bytes and everything past the ring are untouched |
| ByteLevel.ViewByBytes | header.go:8-20 | head, tail and closed are the little-endian words at bytes 16, 24 and 32, and the data starts at byte 64 |
| ByteLevel.BytesFollowTheProtocol | reader.go:28-48 | along every run on real bytes the header keeps verifying, so the Reader may attach at any moment, and the bytes show the protocol's state |
| SplitCopy.SplitWriteIsModular | writer.go:83-96 | the one- or two-segment write equals writing each byte at (true counter + i) mod capacity |
| SplitCopy.SplitReadIsModular | reader.go:86-99 | the same for reads |
| SplitCopy.WriteHolds | writer.go:83-98 | a write into free space leaves the ring holding the longer stream and the header as it was |
| SplitCopy.ReadGives | reader.go:86-101 | a read of available bytes returns the next bytes of the stream |
| Storage.MemStorage.ReadAt | backend/mem.go:37-48 | copies what is there; EOF past the end, an unexpected-EOF error when short; nothing else changes |
| Storage.MemStorage.WriteAt | backend/mem.go:51-58 | writes everything or, out of range, nothing and a short-write error |
| Storage.ReadUint32At | header.go:99-108 | the little-endian word at the offset; out of range, the error of ReadAt |
| Storage.WriteUint32At | header.go:115-131 | stores the word and changes nothing else; a short-write error exactly when out of range; this storage has no waiters to wake |
| Storage.InitHeader | header.go:61-72 | for every 64-bit capacity writes the 64 bytes that name it and nothing else; with a valid capacity that fits, an empty, open ring |
| Storage.VerifyHeader | header.go:76-91 | accepts exactly a storage whose first 16 bytes carry this magic, version and capacity; otherwise a mismatch, or the error of a short read |
| Endpoints.NewWriter | writer.go:30-50 | the three outcomes in order, and a valid producer on an empty ring with ordered poll bounds |
| Endpoints.NewReader | reader.go:28-48 | the four outcomes in order on any storage, with the header test of `Header.HeaderIsLaidOut`; a handle at head 0, and a valid consumer when the storage carries an unread ring |
| Endpoints.Writer.TryWrite | writer.go:55-103 | appends exactly min(len(p), real free) bytes, as a bounded queue that reads the true head would; ErrClosed and no change when closed |
| Endpoints.Writer.CopyIn | writer.go:83-96 | the WriteAt calls perform the modular write at the true tail |
| Endpoints.Writer.WriteContext | writer.go:114-150 | the bytes written, the error, the wait it is left at, what the peer took and the number of sleeps are those of one function of what fits and of what happens at each wait; publishes exactly p[..written]; sleeps by the backoff |
| Endpoints.WriteOutcomeMeans | writer.go:129-144 | that function gives up at the first wait at which the context is done, or ends during a polling sleep, and at no other; it has written all that fits by then, and waits no longer than it takes for all to fit |
| Endpoints.Writer.Close | writer.go:181-195 | raises the flag and re-stores tail, keeps the stream; a second Close leaves every byte alone |
| Endpoints.Reader.TryRead | reader.go:54-106 | delivers exactly min(len(p), real available) next bytes, leaves the rest of p alone, EOF exactly on an empty closed ring |
| Endpoints.Reader.CopyOut | reader.go:86-99 | the ReadAt calls perform the modular read at the true head |
| Endpoints.Reader.ReadContext | reader.go:117-147 | returns all that is there and fits, next bytes of the stream, at the first attempt that finds any; EOF on an empty closed ring; or gives up on an empty open one; sleeps by the backoff |
| Endpoints.ReadEndsMeans | reader.go:128-141 | it gives up at the first wait at which the context is done, or ends during a polling sleep, and no wait before the last brought anything |
| Condvar.ImplementationRefines | rust/src/backend/mem.rs:86-135 | every step of store (lock, write, unlock, notify_all) and wait (lock, compare, park) is a step of the wait/wake contract, for any threads and words; that calls return is `Condvar.CallReturns` |
| Condvar.ContractKeepsWakes | backend/backend.go:73-94 | the contract keeps: a thread parked on a word that moved on is owed a wake |
| Condvar.RunsLoseNoWake | rust/src/backend/mem.rs:116-135 | in every run of the condvar storage a changed word's waiter was turned away or its notify is still to come |
| Condvar.ReturnedStoreWokeEveryone | rust/src/backend/mem.rs:86-98 | a store call that has returned wrote its value, and between that write and its return there was a moment when no thread slept, also for an unchanged value |
| Condvar.SleeperSawTheStore | rust/src/backend/mem.rs:116-135 | whoever sleeps on a word when a store to it has returned parked after that notify, on finding its own value there: every other waiter saw the store on entry or was woken |
| Condvar.CallReturns | rust/src/backend/mem.rs:86-135 | in every run a store returns within four of its own steps, a woken or refused wait within two, and a wait from its start returns or parks within three; no call parks twice |
| Condvar.WaitReturns | rust/src/backend/mem.rs:116-135 | a wait returns only because it found another value, or was parked and timed out, woke spuriously or was notified |
| Condvar.NoDeadlock | rust/src/backend/mem.rs:86-135 | a thread in a call and not parked can step, unless it needs the lock and another thread holds it, which then can step; a parked one may wake |
| Condvar.LockIsGivenUp | rust/src/backend/mem.rs:87-95 | nobody holds the lock for more than two of its own steps |
| OnCondvar.SystemStepFollows | rust/src/backend/mem.rs:86-135 | each lock, write, notify, compare, park and return of the two threads is a given sequence of protocol actions; that they keep coming is `OnCondvar.EveryFourthStepActs` |
| OnCondvar.SystemRunsAreProtocolRuns | rust/src/writer.rs:54-156 | every run of Writer and Reader over the condvar storage is one protocol run, with the same memory and the same bytes in and out after every step |
| OnCondvar.RingWorksOnCondvar | rust/src/reader.rs:51-132 | over that storage: bytes out are a prefix of bytes in, no access out of range, never both asleep, and a side sleeps only on an empty, or full, ring or with its peer's notify to come |
| OnCondvar.NobodyStandsStill | rust/src/writer.rs:54-156 | in every run a side in a call and not asleep has a step, unless its peer holds the lock, and then the peer has one |
| OnCondvar.EveryFourthStepActs | rust/src/backend/mem.rs:86-135 | among any four steps of a side one is an action of the protocol: the storage delays a side, but never holds it |
| OnCondvar.CloseFinishes | rust/src/writer.rs:145-156 | Close is over with the Writer's tenth step, the notify after re-storing tail, when nobody sleeps and the flag is up |
| OnCondvar.CallersAreFree | rust/src/writer.rs:54-156 | an idle side may begin any call, and a call about to wait may be canceled |
| Polling.Options.WithPollInterval | options.go:36-48 | a positive minimum replaces minPoll; maxPoll becomes the larger of minPoll and the positive maximum or what it was; sensible bounds stay sensible |
| Polling.LastMinimumHolds | options.go:36-40 | after any list of options minPoll is the last positive minimum, or 50 microseconds |
| Polling.LastMaximumHolds | options.go:41-46 | after any list maxPoll is the last positive maximum, or 2 milliseconds, or the largest minPoll in effect since if that is above it |
| Polling.ConfiguredIsSensible | options.go:36-48 | after any list of options 0 < minPoll <= maxPoll |
| Polling.Configure | writer.go:40-43 | the constructors' loop applies the options in order to the defaults |
| Polling.BackoffIsDocumentedIff | writer.go:145-147 | the waits are min(minPoll * 2^k, maxPoll) for every k if and only if maxPoll is below 2^62 |

## Left out

- OS shared memory (creation, mapping, removal), the futex system calls, Android and wasm bindings: foreign calls behind the storage contract.
- Backends that fail an in-range access: the error returns after such a failure are not modelled.
- Storage.WriteUint32At: the wake after the store is in `Protocol.dfy` and `OnCondvar.dfy`; the Go in-process storage implements no Wait and no Wake.
- Weak memory orders and torn words: see the assumptions.
- Several Writers or Readers, and a Reader attached after bytes were consumed: outside the documented contract.
- Clocks, deadlines and `waitSlice`: a context's end and a wait's end are arbitrary steps of the protocol, or entries of the turn lists in `Endpoints.dfy`.
- Endpoints.Writer.WriteContext: observed for a finite list of waits, because the loop may block for ever; `StillWaiting` marks a call that has not returned. Waits of any number, woken, timed or polled, are in `Delivery.dfy`.
- Endpoints.Reader.ReadContext: the same.
- The Rust Writer and Reader are not modelled a second time: their steps are those of the Go code. Three differences are outside the model: the `write` of `io::Write` returns with the first bytes that fit, `write_until` reports a timeout without the count of the prefix it published, and `read_until` with an empty buffer waits for its deadline where Go returns at once.
- A mutex poisoned by a panic, and words outside the Rust storage: `OnCondvar.dfy` locks always succeed and the three words are in range.
- `Write`, `Read`, `CloseStorage`, `Reader.Close`, `CreateShm`, `OpenShm`: one-line wrappers.
