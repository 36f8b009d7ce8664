/**
 * The block-by-block event polling loop. A cursor starts at block 1 and runs
 * while it is below `Limit`. For each index the block source is asked for a
 * hash: when one comes back, that block's event log is fetched, its transfers
 * are reported in log order, and only then does the cursor move on by one;
 * when none comes back, the poller waits and asks again for the same index.
 * A hard transport error ends the loop with the cursor where it was.
 *
 * The block source is an oracle: the finite script of answers it gives, one per
 * request, in the order the requests are made.
 */
module Poller {
  import opened Bytes
  import opened Wrappers
  import opened TransferEvents

  const Start: nat := 1
  const Limit: nat := 50

  /** The answer to fetching one block's events. */
  datatype EventsAnswer = Events(log: seq<LogEntry>) | EventsFailed

  /** The answer to asking for the hash of the cursor's block, with the events fetched for it. */
  datatype Answer =
    | NotYet                                        // the block is not produced yet
    | Found(hash: seq<Byte>, events: EventsAnswer)  // the hash, then the answer to fetching its events
    | LookupFailed                                  // the hash request itself failed

  datatype TransportError = HashLookupError | EventFetchError

  datatype Phase = Polling | Done | Failed(error: TransportError)

  /**
   * The poller's state: the cursor, whether the loop is still running, the
   * transfers reported so far, the indices of the blocks delivered so far, and
   * the number of waits taken.
   */
  datatype Poller = Poller(cursor: nat, phase: Phase, reported: seq<TransferEvent>, processed: seq<nat>, waits: nat)

  function Init(): (p: Poller)
    ensures p.cursor == Start && p.phase == Polling && p.reported == [] && p.processed == []
  {
    Poller(Start, if Start < Limit then Polling else Done, [], [], 0)
  }

  /** The answer delivers a block: its hash and its events both came back. */
  predicate Delivers(a: Answer) {
    a.Found? && a.events.Events?
  }

  /** The answer is a hard transport error. */
  predicate IsFailure(a: Answer) {
    a.LookupFailed? || (a.Found? && a.events.EventsFailed?)
  }

  /** One pass through the loop body, followed by the loop's test. */
  function Step(p: Poller, a: Answer): (q: Poller)
    requires p.phase == Polling
    ensures p.reported <= q.reported && p.processed <= q.processed
    ensures q.cursor == p.cursor || q.cursor == p.cursor + 1
    ensures q.cursor == p.cursor + 1 <==> Delivers(a)
    ensures Delivers(a) ==> q.reported == p.reported + Transfers(a.events.log)
    ensures !Delivers(a) ==> q.reported == p.reported && q.processed == p.processed
    ensures a.NotYet? ==> q == p.(waits := p.waits + 1)
    ensures q.phase.Failed? <==> IsFailure(a)
  {
    match a
    case NotYet =>
      p.(waits := p.waits + 1)
    case LookupFailed =>
      p.(phase := Failed(HashLookupError))
    case Found(_, EventsFailed) =>
      p.(phase := Failed(EventFetchError))
    case Found(_, Events(log)) =>
      var next := p.cursor + 1;
      p.(cursor := next,
         reported := p.reported + Transfers(log),
         processed := p.processed + [p.cursor],
         phase := if next < Limit then Polling else Done)
  }

  /**
   * What holds of every state the loop reaches: the cursor stays within
   * [Start, Limit], the delivered indices are exactly Start, Start + 1, ...,
   * cursor - 1 in order, and the loop is done exactly when the cursor reached
   * `Limit`.
   */
  predicate Inv(p: Poller) {
    && Start <= p.cursor <= Limit
    && |p.processed| == p.cursor - Start
    && (forall i :: 0 <= i < |p.processed| ==> p.processed[i] == Start + i)
    && (p.phase == Done <==> p.cursor == Limit)
  }

  lemma InitInv()
    ensures Inv(Init())
  {
  }

  /** Every step keeps the invariant: no index is skipped, none is repeated, and none is taken back. */
  lemma StepKeepsInv(p: Poller, a: Answer)
    requires Inv(p) && p.phase == Polling
    ensures Inv(Step(p, a))
    ensures Step(p, a).cursor >= p.cursor
  {
  }

  /** The number of answers in `script` that deliver a block. */
  function Deliveries(script: seq<Answer>): (n: nat)
    ensures n <= |script|
  {
    if |script| == 0 then 0
    else Deliveries(script[..|script| - 1]) + (if Delivers(script[|script| - 1]) then 1 else 0)
  }

  /** The number of answers in `script` that make the poller wait. */
  function Waits(script: seq<Answer>): (n: nat)
    ensures n <= |script|
  {
    if |script| == 0 then 0
    else Waits(script[..|script| - 1]) + (if script[|script| - 1].NotYet? then 1 else 0)
  }

  /** The transfers of the blocks `script` delivers, block after block, each in log order. */
  function Delivered(script: seq<Answer>): seq<TransferEvent> {
    if |script| == 0 then []
    else
      var last := script[|script| - 1];
      Delivered(script[..|script| - 1]) + (if Delivers(last) then Transfers(last.events.log) else [])
  }

  predicate NoFailure(script: seq<Answer>) {
    forall i :: 0 <= i < |script| ==> !IsFailure(script[i])
  }

  /** Extending a prefix of the script by one answer adds that answer's share to each tally. */
  lemma PrefixTallies(script: seq<Answer>, k: nat)
    requires k < |script|
    ensures var a := script[k];
      && Deliveries(script[..k + 1]) == Deliveries(script[..k]) + (if Delivers(a) then 1 else 0)
      && Waits(script[..k + 1]) == Waits(script[..k]) + (if a.NotYet? then 1 else 0)
      && Delivered(script[..k + 1]) == Delivered(script[..k]) + (if Delivers(a) then Transfers(a.events.log) else [])
      && (NoFailure(script[..k + 1]) <==> NoFailure(script[..k]) && !IsFailure(a))
  {
    assert script[..k + 1][..k] == script[..k];
    assert script[..k + 1][k] == script[k];
  }

  /**
   * Runs the loop against the block source's script of answers, until the loop
   * ends or the script does; returns the final state and how many answers it used.
   */
  method Poll(answers: seq<Answer>) returns (p: Poller, used: nat)
    ensures used <= |answers|
    ensures Inv(p)
    ensures p.phase == Polling ==> used == |answers|
    ensures p.cursor == Start + Deliveries(answers[..used])
    ensures p.reported == Delivered(answers[..used])
    ensures p.waits == Waits(answers[..used])
    ensures p.phase.Failed? ==> 1 <= used && IsFailure(answers[used - 1]) && NoFailure(answers[..used - 1])
    ensures !p.phase.Failed? ==> NoFailure(answers[..used])
    ensures NoFailure(answers) && Deliveries(answers) >= Limit - Start ==> p.phase == Done
  {
    p := Init();
    used := 0;
    while p.phase == Polling && used < |answers|
      invariant used <= |answers|
      invariant Inv(p)
      invariant p.cursor == Start + Deliveries(answers[..used])
      invariant p.reported == Delivered(answers[..used])
      invariant p.waits == Waits(answers[..used])
      invariant p.phase.Failed? ==> 1 <= used && IsFailure(answers[used - 1]) && NoFailure(answers[..used - 1])
      invariant !p.phase.Failed? ==> NoFailure(answers[..used])
    {
      var a := answers[used];
      PrefixTallies(answers, used);
      StepKeepsInv(p, a);
      p := Step(p, a);
      used := used + 1;
    }
    if p.phase.Failed? {
      assert answers[used - 1] == answers[..used][used - 1];
    }
    if used == |answers| {
      assert answers[..used] == answers;
    }
  }
}
