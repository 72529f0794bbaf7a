/**
 The per-block decision of the registration loop, as values.

 One iteration of the loop fetches the latest block and then either discards
 it (fetch failure, or a block number not above `last_submitted_block`),
 records it and skips it (wrong slot), or records it, counts an attempt and
 submits.  `Gate` is that decision, `Apply` the state change it causes, and
 `Trace`/`After` fold both over a finite sequence of polls.  The lemmas below
 are the properties of the loop: monotone deduplication, at most one attempt
 per block, the attempt counter, and the partition of blocks among slots.
 */
module Gating {
  import opened SlotFilter
  import opened ErrorClassifier

  /** What the submission call answers at an eligible block. */
  datatype Reply = Accepted | Rejected(debugText: string)

  /** What one poll of the latest block yields; `reply` is consulted only if the block is submitted on. */
  datatype Poll = FetchFailed | Latest(number: U32, reply: Reply)

  /** What became of a submission: a monitor task is started, or the error is classified and logged. */
  datatype Attempt = Monitoring | SubmitFailed(kind: Kind)

  /** The outcome of one iteration of the loop. */
  datatype Decision =
    | NoBlock
    | Duplicate(number: U32)
    | WrongSlot(number: U32)
    | Submitted(number: U32, attempt: Attempt)
  {
    /** The block passed the duplicate test and was recorded. */
    predicate Gated() {
      WrongSlot? || Submitted?
    }
  }

  /** The loop's mutable locals; `loopCount` is the `u64` attempt counter. */
  datatype State = State(lastSubmittedBlock: U32, loopCount: nat)

  const Initial: State := State(0, 0)

  /**
   The submission result handling: success starts the monitor, an error is
   classified, Recoverable exactly when its text carries a recoverable marker.
   */
  function OnReply(reply: Reply): (a: Attempt)
    ensures a.SubmitFailed? <==> reply.Rejected?
    ensures a.SubmitFailed? ==> a.kind != AlreadyDone
    ensures reply.Rejected? ==> (a.kind == Recoverable <==> ContainsAny(reply.debugText, RecoverableMarkers))
  {
    match reply
    case Accepted => Monitoring
    case Rejected(text) =>
      SubmitRecoverableIff(text);
      SubmitFailed(ClassifySubmit(text))
  }

  /**
   The decision one iteration takes in state `st`: nothing without a block,
   a duplicate at or below the record, otherwise the block is gated, and it is
   submitted on exactly when it is eligible.
   */
  function Gate(st: State, slot: U32, p: Poll): (d: Decision)
    ensures Concerns(d, p)
    ensures d.Duplicate? <==> p.Latest? && p.number <= st.lastSubmittedBlock
    ensures d.Gated() <==> p.Latest? && p.number > st.lastSubmittedBlock
    ensures d.Submitted? <==> p.Latest? && p.number > st.lastSubmittedBlock && Eligible(p.number, slot)
    ensures d.Submitted? ==> d.attempt == OnReply(p.reply)
  {
    match p
    case FetchFailed => NoBlock
    case Latest(n, reply) =>
      if n <= st.lastSubmittedBlock then Duplicate(n)
      else if BlockSlot(n) != slot then WrongSlot(n)
      else Submitted(n, OnReply(reply))
  }

  /**
   The state after decision `d`: unchanged unless the block was gated; a gated
   block becomes the record; the counter rises by one exactly on a submission.
   */
  function Apply(st: State, d: Decision): (next: State)
    ensures !d.Gated() ==> next == st
    ensures d.Gated() ==> next.lastSubmittedBlock == d.number
    ensures next.loopCount == if d.Submitted? then st.loopCount + 1 else st.loopCount
  {
    match d
    case NoBlock => st
    case Duplicate(_) => st
    case WrongSlot(n) => st.(lastSubmittedBlock := n)
    case Submitted(n, _) => State(n, st.loopCount + 1)
  }

  /** A decision concerns the block of its poll. */
  predicate Concerns(d: Decision, p: Poll) {
    if p.FetchFailed? then d == NoBlock else !d.NoBlock? && d.number == p.number
  }

  /**
   The state after handling every poll of `polls` in order, from `st`; neither
   the record nor the counter ever goes down.
   */
  function After(st: State, slot: U32, polls: seq<Poll>): (next: State)
    ensures next.lastSubmittedBlock >= st.lastSubmittedBlock
    ensures next.loopCount >= st.loopCount
    decreases |polls|
  {
    if polls == [] then st
    else
      var mid := After(st, slot, polls[..|polls| - 1]);
      Apply(mid, Gate(mid, slot, polls[|polls| - 1]))
  }

  /** The decisions taken while handling `polls` in order, from `st`: one per poll, about its block. */
  function Trace(st: State, slot: U32, polls: seq<Poll>): (ds: seq<Decision>)
    ensures |ds| == |polls|
    ensures forall i :: 0 <= i < |polls| ==> Concerns(ds[i], polls[i])
    decreases |polls|
  {
    if polls == [] then []
    else
      var init := polls[..|polls| - 1];
      var ds := Trace(st, slot, init);
      var d := Gate(After(st, slot, init), slot, polls[|polls| - 1]);
      assert forall i :: 0 <= i < |init| ==> init[i] == polls[i];
      ds + [d]
  }

  /** Number of submission attempts among `ds`: at most one per decision, and zero exactly when none is a submission. */
  function CountSubmitted(ds: seq<Decision>): (n: nat)
    ensures n <= |ds|
    ensures n == 0 <==> forall i :: 0 <= i < |ds| ==> !ds[i].Submitted?
  {
    if ds == [] then 0
    else CountSubmitted(ds[..|ds| - 1]) + (if ds[|ds| - 1].Submitted? then 1 else 0)
  }

  /** The `i`-th decision of a trace is the gate applied in the state reached after the first `i` polls. */
  lemma {:induction false} TraceAt(st: State, slot: U32, polls: seq<Poll>, i: nat)
    requires i < |polls|
    ensures Trace(st, slot, polls)[i] == Gate(After(st, slot, polls[..i]), slot, polls[i])
    decreases |polls|
  {
    var init := polls[..|polls| - 1];
    if i < |init| {
      TraceAt(st, slot, init, i);
      assert init[..i] == polls[..i];
    } else {
      assert init == polls[..i];
    }
  }

  /**
   Record every new block: `lastSubmittedBlock` never decreases, and after the
   polls it is the largest of its starting value and every block number polled.
   */
  lemma {:induction false} LastIsMaxSeen(st: State, slot: U32, polls: seq<Poll>)
    ensures var last := After(st, slot, polls).lastSubmittedBlock;
      && last >= st.lastSubmittedBlock
      && (forall i :: 0 <= i < |polls| && polls[i].Latest? ==> polls[i].number <= last)
      && (last == st.lastSubmittedBlock
          || exists i :: 0 <= i < |polls| && polls[i].Latest? && polls[i].number == last)
    decreases |polls|
  {
    if polls != [] {
      var init := polls[..|polls| - 1];
      LastIsMaxSeen(st, slot, init);
      var mid := After(st, slot, init);
      var last := After(st, slot, polls).lastSubmittedBlock;
      forall i | 0 <= i < |polls| && polls[i].Latest?
        ensures polls[i].number <= last
      {
        if i < |init| {
          assert init[i] == polls[i];
        }
      }
      if last != st.lastSubmittedBlock && last == mid.lastSubmittedBlock {
        var j :| 0 <= j < |init| && init[j].Latest? && init[j].number == last;
        assert polls[j] == init[j];
      }
    }
  }

  /** The recorded block depends only on the polled block numbers, not on the slot. */
  lemma {:induction false} LastIndependentOfSlot(st: State, slot1: U32, slot2: U32, polls: seq<Poll>)
    ensures After(st, slot1, polls).lastSubmittedBlock == After(st, slot2, polls).lastSubmittedBlock
    decreases |polls|
  {
    if polls != [] {
      var init := polls[..|polls| - 1];
      LastIndependentOfSlot(st, slot1, slot2, init);
    }
  }

  /** Attempt counting: `loopCount` grows by exactly the number of submit decisions. */
  lemma {:induction false} LoopCountIsAttempts(st: State, slot: U32, polls: seq<Poll>)
    ensures After(st, slot, polls).loopCount == st.loopCount + CountSubmitted(Trace(st, slot, polls))
    decreases |polls|
  {
    if polls != [] {
      var init := polls[..|polls| - 1];
      LoopCountIsAttempts(st, slot, init);
      var ds := Trace(st, slot, polls);
      assert ds[..|ds| - 1] == Trace(st, slot, init);
    }
  }

  /**
   Attempts never outnumber the recorded block: each attempt is on a distinct
   block number above 0.  From the initial state the `u64` counter therefore
   stays below 2^32 and its increment cannot overflow.
   */
  lemma {:induction false} LoopCountBounded(st: State, slot: U32, polls: seq<Poll>)
    requires st.loopCount <= st.lastSubmittedBlock
    ensures After(st, slot, polls).loopCount <= After(st, slot, polls).lastSubmittedBlock
    ensures After(st, slot, polls).loopCount < 0x1_0000_0000
    decreases |polls|
  {
    if polls != [] {
      var init := polls[..|polls| - 1];
      LoopCountBounded(st, slot, init);
    }
  }

  /**
   Gated blocks strictly increase along a trace, and all lie above the starting
   `lastSubmittedBlock`; stale and repeated blocks are never gated again.
   */
  lemma {:induction false} GatedStrictlyIncrease(st: State, slot: U32, polls: seq<Poll>)
    ensures var ds := Trace(st, slot, polls);
      && (forall i :: 0 <= i < |ds| && ds[i].Gated() ==>
            st.lastSubmittedBlock < ds[i].number <= After(st, slot, polls).lastSubmittedBlock)
      && (forall i, j :: 0 <= i < j < |ds| && ds[i].Gated() && ds[j].Gated() ==> ds[i].number < ds[j].number)
    decreases |polls|
  {
    if polls != [] {
      var init := polls[..|polls| - 1];
      GatedStrictlyIncrease(st, slot, init);
      var mid := After(st, slot, init);
      LastIsMaxSeen(st, slot, init);
      var ds := Trace(st, slot, polls);
      assert ds[..|ds| - 1] == Trace(st, slot, init);
      forall i | 0 <= i < |ds| && ds[i].Gated()
        ensures st.lastSubmittedBlock < ds[i].number <= After(st, slot, polls).lastSubmittedBlock
      {
        if i < |init| {
          assert ds[i] == Trace(st, slot, init)[i];
        }
      }
      forall i, j | 0 <= i < j < |ds| && ds[i].Gated() && ds[j].Gated()
        ensures ds[i].number < ds[j].number
      {
        assert ds[i] == Trace(st, slot, init)[i];
        if j < |init| {
          assert ds[j] == Trace(st, slot, init)[j];
        }
      }
    }
  }

  /** At most one attempt per block: two attempts in one trace are on different blocks. */
  lemma AtMostOneAttemptPerBlock(st: State, slot: U32, polls: seq<Poll>, i: nat, j: nat)
    requires i < j < |polls|
    requires Trace(st, slot, polls)[i].Submitted? && Trace(st, slot, polls)[j].Submitted?
    ensures Trace(st, slot, polls)[i].number != Trace(st, slot, polls)[j].number
  {
    GatedStrictlyIncrease(st, slot, polls);
  }

  /** An attempt is made exactly on a new block of the instance's own slot. */
  lemma SubmittedIff(st: State, slot: U32, polls: seq<Poll>, i: nat)
    requires i < |polls|
    ensures Trace(st, slot, polls)[i].Submitted? <==>
      polls[i].Latest? && polls[i].number > After(st, slot, polls[..i]).lastSubmittedBlock
      && Eligible(polls[i].number, slot)
  {
    TraceAt(st, slot, polls, i);
  }

  /** Block 0 is never gated: from any state it is discarded as a duplicate. */
  lemma BlockZeroDiscarded(st: State, slot: U32, polls: seq<Poll>, i: nat)
    requires i < |polls| && polls[i].Latest? && polls[i].number == 0
    ensures Trace(st, slot, polls)[i] == Duplicate(0)
  {
    TraceAt(st, slot, polls, i);
  }

  /** An instance configured with slot 3 or more never attempts, and its counter never moves. */
  lemma HighSlotNeverSubmits(st: State, slot: U32, polls: seq<Poll>)
    requires slot >= SlotCount
    ensures forall i :: 0 <= i < |polls| ==> !Trace(st, slot, polls)[i].Submitted?
    ensures After(st, slot, polls).loopCount == st.loopCount
  {
    forall i | 0 <= i < |polls|
      ensures !Trace(st, slot, polls)[i].Submitted?
    {
      SubmittedIff(st, slot, polls, i);
    }
    LoopCountIsAttempts(st, slot, polls);
  }

  /**
   Instances with slots 0, 1 and 2 fed the same polls cover every new block
   exactly once: at a block above the recorded one, an instance attempts if
   and only if its slot is the block's slot.
   */
  lemma SlotsPartitionAttempts(st: State, polls: seq<Poll>, i: nat)
    requires i < |polls| && polls[i].Latest?
    requires polls[i].number > After(st, 0, polls[..i]).lastSubmittedBlock
    ensures forall slot: U32 :: Trace(st, slot, polls)[i].Submitted? <==> slot == BlockSlot(polls[i].number)
  {
    forall slot: U32
      ensures Trace(st, slot, polls)[i].Submitted? <==> slot == BlockSlot(polls[i].number)
    {
      LastIndependentOfSlot(st, 0, slot, polls[..i]);
      SubmittedIff(st, slot, polls, i);
    }
  }

  /** Polling blocks 50, 50, 51 yields exactly two gating decisions, for 50 and for 51. */
  lemma DeduplicationExample(slot: U32, r: Reply)
    ensures var ds := Trace(Initial, slot, [Latest(50, r), Latest(50, r), Latest(51, r)]);
      && ds[0].Gated() && ds[0].number == 50
      && ds[1] == Duplicate(50)
      && ds[2].Gated() && ds[2].number == 51
  {
    var polls := [Latest(50, r), Latest(50, r), Latest(51, r)];
    assert polls[..0] == [];
    assert polls[..1] == [Latest(50, r)];
    assert polls[..2] == [Latest(50, r), Latest(50, r)];
    TraceAt(Initial, slot, polls, 0);
    TraceAt(Initial, slot, polls, 1);
    TraceAt(Initial, slot, polls, 2);
  }
}
