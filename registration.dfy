/**
 The registration loop of `register_hotkey`, in its imperative form.

 `Scheduler` holds the loop's two mutable locals, `lastSubmittedBlock` and
 `loopCount`, together with the configured slot.  `Step` is one iteration of
 the loop body, with the same early exits as the source; `Run` is the loop
 over a finite sequence of polls (the source loops forever, so a run models a
 finite prefix of it).  `RegisterHotkey` adds the start-up phase, whose
 failures are the only ones that end the function.
 */
module Registration {
  import opened SlotFilter
  import opened ErrorClassifier
  import opened Gating

  class Scheduler {
    /** The `--slot` option. */
    const slot: U32
    /** Last block number recorded, submitted on or skipped. */
    var lastSubmittedBlock: U32
    /** Number of submission attempts. */
    var loopCount: nat

    /** The two loop locals as a `Gating.State` value. */
    function Snapshot(): State
      reads this
    {
      State(lastSubmittedBlock, loopCount)
    }

    constructor (slot: U32)
      ensures this.slot == slot
      ensures Snapshot() == Initial
    {
      this.slot := slot;
      lastSubmittedBlock := 0;
      loopCount := 0;
    }

    /** One iteration of the loop: fetch result, duplicate test, slot test, submission. */
    method Step(p: Poll) returns (d: Decision)
      modifies this
      ensures d == Gate(old(Snapshot()), slot, p)
      ensures Snapshot() == Apply(old(Snapshot()), d)
      ensures p.FetchFailed? || p.number <= old(lastSubmittedBlock) ==>
        lastSubmittedBlock == old(lastSubmittedBlock) && loopCount == old(loopCount) && !d.Submitted?
      ensures p.Latest? && p.number > old(lastSubmittedBlock) ==> lastSubmittedBlock == p.number
      ensures loopCount == if d.Submitted? then old(loopCount) + 1 else old(loopCount)
      ensures d.Submitted? <==> p.Latest? && p.number > old(lastSubmittedBlock) && Eligible(p.number, slot)
    {
      match p
      case FetchFailed =>
        d := NoBlock;
      case Latest(blockNumber, reply) =>
        if blockNumber <= lastSubmittedBlock {
          d := Duplicate(blockNumber);
          return;
        }
        var blockSlot := blockNumber % 3;
        if blockSlot != slot {
          lastSubmittedBlock := blockNumber;
          d := WrongSlot(blockNumber);
          return;
        }
        lastSubmittedBlock := blockNumber;
        loopCount := loopCount + 1;
        match reply
        case Accepted =>
          d := Submitted(blockNumber, Monitoring);
        case Rejected(text) =>
          d := Submitted(blockNumber, SubmitFailed(ClassifySubmit(text)));
    }

    /**
     The loop over `polls`.  Every poll is handled, whatever the submission
     replies are: no classification ends the loop.
     */
    method Run(polls: seq<Poll>) returns (ds: seq<Decision>)
      modifies this
      ensures ds == Trace(old(Snapshot()), slot, polls)
      ensures Snapshot() == After(old(Snapshot()), slot, polls)
      ensures |ds| == |polls|
      ensures lastSubmittedBlock >= old(lastSubmittedBlock)
      ensures forall i :: 0 <= i < |polls| && polls[i].Latest? ==> polls[i].number <= lastSubmittedBlock
      ensures loopCount == old(loopCount) + CountSubmitted(ds)
    {
      ghost var start := Snapshot();
      ds := [];
      var i := 0;
      while i < |polls|
        invariant 0 <= i <= |polls|
        invariant ds == Trace(start, slot, polls[..i])
        invariant Snapshot() == After(start, slot, polls[..i])
      {
        var d := Step(polls[i]);
        assert polls[..i + 1][..i] == polls[..i];
        ds := ds + [d];
        i := i + 1;
      }
      assert polls[..i] == polls;
      LastIsMaxSeen(start, slot, polls);
      LoopCountIsAttempts(start, slot, polls);
    }
  }

  /** A start-up failure of `register_hotkey`; each ends the function before any block is handled. */
  datatype StartupError = ConnectionFailed | InvalidColdkey | InvalidHotkey

  /**
   Results of the start-up calls, which are foreign to the model: connecting
   to the endpoint and parsing the two key strings.
   */
  datatype Startup = Startup(connected: bool, coldkeyParses: bool, hotkeyParses: bool)

  /** Outcome of `register_hotkey` over a finite prefix of its loop. */
  datatype Session =
    | Aborted(error: StartupError)
    | Running(decisions: seq<Decision>, state: State)

  /**
   Start-up in the source's order (connect, coldkey, hotkey), then the loop
   from the initial state.  A start-up failure is returned before any poll
   is handled; otherwise the loop handles every poll.
   */
  method RegisterHotkey(env: Startup, slot: U32, polls: seq<Poll>) returns (r: Session)
    ensures !env.connected ==> r == Aborted(ConnectionFailed)
    ensures env.connected && !env.coldkeyParses ==> r == Aborted(InvalidColdkey)
    ensures env.connected && env.coldkeyParses && !env.hotkeyParses ==> r == Aborted(InvalidHotkey)
    ensures r.Running? <==> env.connected && env.coldkeyParses && env.hotkeyParses
    ensures r.Running? ==>
      && r.decisions == Trace(Initial, slot, polls)
      && r.state == After(Initial, slot, polls)
      && |r.decisions| == |polls|
      && r.state.loopCount == CountSubmitted(r.decisions)
      && r.state.loopCount <= r.state.lastSubmittedBlock
  {
    if !env.connected {
      return Aborted(ConnectionFailed);
    }
    if !env.coldkeyParses {
      return Aborted(InvalidColdkey);
    }
    if !env.hotkeyParses {
      return Aborted(InvalidHotkey);
    }
    var scheduler := new Scheduler(slot);
    var ds := scheduler.Run(polls);
    r := Running(ds, scheduler.Snapshot());
    LoopCountBounded(Initial, slot, polls);
  }
}
