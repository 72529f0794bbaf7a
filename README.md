# regbot submission-gating engine, in Dafny

regbot is a bot that registers a hotkey on a Bittensor subnet. It polls the
chain for the latest block and sends a `burned_register` transaction as soon
as a block of its own slot appears. This project models the gating engine of
`register_hotkey` in `src/main.rs` and proves its properties. The engine has
three parts:

- **Scheduler** (`Registration.Scheduler`). A class whose fields are the
  loop's mutable locals, `last_submitted_block` (u32, starts at 0) and
  `loop_count` (u64, starts at 0), plus the configured slot. `Step` is one
  iteration of the loop body, with the same early exits as the source:
  - a failed fetch is skipped;
  - a block at or below `last_submitted_block` is discarded;
  - a block of another slot is recorded and skipped;
  - a block of this slot is recorded, counted and submitted, and the
    submission result is handled.

  `Run` is the loop over a finite sequence of polls.
- **Slot filter** (`SlotFilter`). A block belongs to slot `block_number % 3`.
  The modulus is fixed at 3. The slot is an unvalidated `u32`.
- **Error classifiers** (`ErrorClassifier`). Both use case-sensitive substring
  search on the debug text of an error. The submission-time one has two
  outcomes: Recoverable or Fatal. The finalization-time one has three, tested
  in this order: AlreadyDone, Recoverable, Fatal.

The pure module `Gating` restates one iteration as values:
- `Gate` is the decision;
- `Apply` is the state change;
- `Trace` and `After` fold them over a poll sequence.

The class methods are proved equal to these functions. The loop's properties
are lemmas about the functions.

The network is a parameter:
- a poll is either a failed fetch or a block number;
- the block carries the reply the submission call would give at that block
  (`Accepted`, or `Rejected` with the error's debug text).

The start-up phase is `RegisterHotkey`. It models three foreign calls as
booleans, checked in the source's order: connecting to the endpoint, parsing
the coldkey, parsing the hotkey.

The code as written, which the model follows:
- the slot count is fixed at 3 in the code;
- the slot is never checked against the slot count, so a slot of 3 or more
  never submits (`Gating.HighSlotNeverSubmits`);
- the submission-time classifier has no AlreadyDone outcome, so an
  `AlreadyRegistered` rejection that carries none of the five recoverable
  markers is Fatal at submission
  (`ErrorClassifier.AlreadyRegisteredAtSubmitIsFatal`), and one that carries
  a recoverable marker is Recoverable (`ErrorClassifier.ClassifierExamples`);
- there is only the continuous mode: no outcome ends the loop.

## Model

| member | source | states |
|---|---|---|
| Text.Contains | src/main.rs:158-165 | substring test used by both classifiers; true exactly when the marker occurs at some position of the text |
| Text.ContainsTransitive | src/main.rs:164-165 | a text containing a string contains every substring of that string |
| ErrorClassifier.ClassifySubmit | src/main.rs:158-173 | the submission-time classifier never reports AlreadyDone |
| ErrorClassifier.OutdatedSubsumed | src/main.rs:164-165 | the "Transaction is outdated" test is covered by the "outdated" test |
| ErrorClassifier.SubmitRecoverableIff | src/main.rs:158-173 | submission errors are Recoverable iff the text contains one of TooManyConsumers, InvalidTransaction, Stale, nonce, outdated; Fatal otherwise |
| ErrorClassifier.ClassifyFinal | src/main.rs:201-222 | a finalization error is AlreadyDone iff the text has an already-registered marker, whatever other markers it carries; otherwise it is Recoverable iff the text has one of the five recoverable markers, else Fatal |
| ErrorClassifier.ClassifiersAgree | src/main.rs:201-222 | without an already-registered marker the finalization classifier gives the submission classifier's answer: Recoverable exactly on the five markers, else Fatal |
| ErrorClassifier.ClassifierExamples | src/main.rs:201-222 | "nonce too low" is Recoverable in both classifiers; "AlreadyRegistered: nonce" is AlreadyDone at finalization but Recoverable at submission |
| ErrorClassifier.AlreadyRegisteredAtSubmitIsFatal | src/main.rs:158-173 | an AlreadyRegistered text with no recoverable marker is Fatal at submission but AlreadyDone at finalization |
| ErrorClassifier.CaseSensitive | src/main.rs:158-173 | matching is case-sensitive: "Nonce" is Fatal |
| SlotFilter.BlockSlot | src/main.rs:111 | the block's slot is below 3 and is the remainder of the block number divided by 3 |
| SlotFilter.Eligible | src/main.rs:111-112 | an instance submits on a block iff its slot is below 3 and the block number is 3q + slot for some q |
| SlotFilter.ExactPartition | src/main.rs:111-112 | each block is eligible for exactly one slot among 0, 1, 2 and for no slot of 3 or more |
| SlotFilter.ConsecutiveBlocksRotate | src/main.rs:35-39 | among three consecutive blocks each slot 0..2 gets exactly one |
| SlotFilter.Block100BelongsToSlot1 | src/main.rs:111-112 | block 100 is eligible for slot 1 only |
| Gating.OnReply | src/main.rs:151-176 | an accepted submission starts the monitor; a rejected one starts none and is classified: Recoverable exactly when its text carries one of the five recoverable markers, otherwise Fatal, never AlreadyDone |
| Gating.Gate | src/main.rs:93-124 | the per-poll decision: none without a block; Duplicate iff the block is at or below the record; gated iff above it; submitted iff above it and eligible, with the submission reply handled by OnReply |
| Gating.Apply | src/main.rs:105-124 | the state update: unchanged unless the block was gated; a gated block becomes the record; the count rises by one exactly on a submission |
| Gating.After | src/main.rs:88-124 | the state after a run of polls; neither the record nor the count ever decreases |
| Gating.CountSubmitted | src/main.rs:124 | the number of attempts among decisions is at most their number, and zero exactly when none is a submission |
| Gating.Trace | src/main.rs:88-124 | a run yields one decision per poll, each about the block of its poll |
| Gating.TraceAt | src/main.rs:88-124 | the i-th decision of a run is the single-step gate in the state left by the first i polls |
| Gating.LastIsMaxSeen | src/main.rs:104-123 | `last_submitted_block` never decreases; after a run it is the maximum of its start value and all polled block numbers |
| Gating.LastIndependentOfSlot | src/main.rs:104-123 | the recorded block does not depend on the configured slot |
| Gating.LoopCountIsAttempts | src/main.rs:78-124 | `loop_count` rises by exactly the number of submit decisions of the run |
| Gating.LoopCountBounded | src/main.rs:78-124 | the attempt count never exceeds the recorded block number, so from the initial state the u64 counter stays below 2^32 and never wraps |
| Gating.GatedStrictlyIncrease | src/main.rs:104-123 | gated block numbers lie above the starting record and strictly increase along a run |
| Gating.AtMostOneAttemptPerBlock | src/main.rs:77-123 | two attempts in one run are never on the same block number |
| Gating.SubmittedIff | src/main.rs:105-124 | a poll leads to an attempt iff its block is above the record left by earlier polls and belongs to the instance's slot |
| Gating.BlockZeroDiscarded | src/main.rs:78-107 | block 0 is discarded as a duplicate in every state |
| Gating.HighSlotNeverSubmits | src/main.rs:40-41 | with a slot of 3 or more there is no attempt and the counter stays put |
| Gating.SlotsPartitionAttempts | src/main.rs:35-39 | instances fed the same polls: at a new block exactly the instance whose slot is the block's slot attempts |
| Gating.DeduplicationExample | src/main.rs:104-123 | polls 50, 50, 51 yield gating decisions for 50 and 51 and a duplicate for the second 50 |
| Registration.Scheduler.constructor | src/main.rs:77-79 | a new scheduler starts with last block 0 and count 0 |
| Registration.Scheduler.Step | src/main.rs:88-176 | one loop iteration; the new fields follow the gate; a duplicate leaves both fields unchanged; a new block is recorded; the count rises by one exactly on an attempt |
| Registration.Scheduler.Run | src/main.rs:88-228 | every poll is handled whatever the replies; the result is the trace; last block is at least every polled number and never decreases; count equals start plus attempts |
| Registration.RegisterHotkey | src/main.rs:65-79 | connection, coldkey and hotkey failures end the function, in that order, before any poll; otherwise the run is the trace from the initial state and the count stays at or below the last block |

## Left out

- Network client (connection, block fetch, signing, submission, finalization watch): foreign I/O. A poll result and a submission reply are inputs.
- Block hash and header: a block is only its number.
- Transaction payload, signer and the 256-block mortality period: thin wrappers over foreign libraries.
- The spawned finalization monitor and the 500 ms sleep: timing and concurrency. Only the classifier the monitor applies is modelled; its success branch only logs.
- Logging, `Instant` timing and `get_formatted_date_now`: observability only.
- `get_recycle_cost` and `max_cost`: dead code and an unused option.
- `main` and `parse_config`: command-line parsing.
- Registration.Scheduler.Run: the source loop never ends. A run over a finite sequence of polls models a finite prefix of it.
- Registration.Scheduler.Step: `loop_count` is a `nat`, not a u64. `Gating.LoopCountBounded` proves it stays below 2^32 from the initial state, so the u64 never wraps.
- Gating.Gate: the poll supplies the submission reply together with the block. The reply is used only when the block is submitted on.
