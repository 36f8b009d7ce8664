/**
 * The `Balances`/`Transfer` event the polling example looks for, and the
 * per-block scan that picks those events out of a block's event log.
 */
module TransferEvents {
  import opened Bytes
  import opened Wrappers
  import opened Compact
  import opened Scale

  /** An account id is 32 raw bytes. */
  const AccountIdLen: nat := 32

  datatype TransferEvent = TransferEvent(from: seq<Byte>, to: seq<Byte>, amount: nat)

  /** The field types: two account ids and a u128 amount. */
  predicate WellFormed(e: TransferEvent) {
    |e.from| == AccountIdLen && |e.to| == AccountIdLen && e.amount < U128Limit
  }

  /** The event's fields: from, to, amount, in declared order. */
  function EncodeTransfer(e: TransferEvent): (bs: seq<Byte>)
    requires WellFormed(e)
    ensures |bs| == 2 * AccountIdLen + U128Width
  {
    e.from + e.to + EncodeU128(e.amount)
  }

  function DecodeTransfer(bs: seq<Byte>): (r: Result<(TransferEvent, seq<Byte>), CodecError>)
    ensures r.Success? <==> 2 * AccountIdLen + U128Width <= |bs|
    ensures r.Success? ==> WellFormed(r.value.0)
  {
    var (from, bs1) :- DecodeFixed(bs, AccountIdLen);
    var (to, bs2) :- DecodeFixed(bs1, AccountIdLen);
    var (amount, bs3) :- DecodeU128(bs2);
    Success((TransferEvent(from, to, amount), bs3))
  }

  lemma TransferRoundTrip(e: TransferEvent, rest: seq<Byte>)
    requires WellFormed(e)
    ensures DecodeTransfer(EncodeTransfer(e) + rest) == Success((e, rest))
  {
    var tail := EncodeU128(e.amount) + rest;
    var bs := EncodeTransfer(e) + rest;
    assert bs == e.from + (e.to + tail);
    assert (e.from + (e.to + tail))[..AccountIdLen] == e.from;
    assert (e.from + (e.to + tail))[AccountIdLen..] == e.to + tail;
    assert (e.to + tail)[..AccountIdLen] == e.to && (e.to + tail)[AccountIdLen..] == tail;
    DecodeU128Encode(e.amount, rest);
  }

  lemma TransferOfDecode(bs: seq<Byte>)
    requires DecodeTransfer(bs).Success?
    ensures bs == EncodeTransfer(DecodeTransfer(bs).value.0) + DecodeTransfer(bs).value.1
  {
    var (from, bs1) := DecodeFixed(bs, AccountIdLen).value;
    var (to, bs2) := DecodeFixed(bs1, AccountIdLen).value;
    EncodeU128OfDecode(bs2);
  }

  /** The static tag the example registers for `TransferEvent`. */
  const Pallet: string := "Balances"
  const EventName: string := "Transfer"

  /** An event of a block's log as the lower layer parsed it: its tag and its field bytes. */
  datatype RawEvent = RawEvent(pallet: string, variant: string, fields: seq<Byte>)

  /** An entry of a block's event log: a parsed event, or the lower layer's failure to parse one. */
  type LogEntry = Result<RawEvent, CodecError>

  predicate TagMatches(ev: RawEvent) {
    ev.pallet == Pallet && ev.variant == EventName
  }

  /**
   * Tries to read `ev` as a transfer: a tag mismatch is no match, whatever the
   * payload; on a tag match the fields are decoded, and a failure is an error.
   */
  function AsTransfer(ev: RawEvent): (r: Result<Option<TransferEvent>, CodecError>)
    ensures r == Success(None) <==> !TagMatches(ev)
    ensures r.Failure? <==> TagMatches(ev) && DecodeTransfer(ev.fields).Failure?
    ensures TagMatches(ev) && DecodeTransfer(ev.fields).Success? ==>
      r == Success(Some(DecodeTransfer(ev.fields).value.0))
  {
    if TagMatches(ev) then
      var (t, _) :- DecodeTransfer(ev.fields);
      Success(Some(t))
    else
      Success(None)
  }

  /**
   * The example's probe, `as_event` then `.ok().flatten()`: a decode error on a
   * tag match is dropped like a mismatch.
   */
  function Probe(ev: RawEvent): (r: Option<TransferEvent>)
    ensures r.Some? <==> TagMatches(ev) && DecodeTransfer(ev.fields).Success?
    ensures r.Some? ==> r.value == DecodeTransfer(ev.fields).value.0
    ensures r.None? <==> AsTransfer(ev).Failure? || AsTransfer(ev) == Success(None)
  {
    match AsTransfer(ev).ToOption()
    case Some(Some(t)) => Some(t)
    case _ => None
  }

  /** What one log entry contributes: nothing for a failed entry or a non-transfer. */
  function Reported(entry: LogEntry): seq<TransferEvent> {
    match entry
    case Failure(_) => []
    case Success(ev) =>
      match Probe(ev)
      case Some(t) => [t]
      case None => []
  }

  /** `f` applied to each element of `xs`, the results joined in order. */
  function FlatMap<T, U>(xs: seq<T>, f: T -> seq<U>): seq<U> {
    if |xs| == 0 then [] else FlatMap(xs[..|xs| - 1], f) + f(xs[|xs| - 1])
  }

  lemma {:induction false} FlatMapConcat<T, U>(xs: seq<T>, ys: seq<T>, f: T -> seq<U>)
    ensures FlatMap(xs + ys, f) == FlatMap(xs, f) + FlatMap(ys, f)
    decreases |ys|
  {
    if |ys| > 0 {
      var ys' := ys[..|ys| - 1];
      assert (xs + ys)[..|xs + ys| - 1] == xs + ys';
      FlatMapConcat(xs, ys', f);
    } else {
      assert xs + ys == xs;
    }
  }

  lemma {:induction false} FlatMapMembership<T, U>(xs: seq<T>, f: T -> seq<U>, u: U)
    ensures u in FlatMap(xs, f) <==> exists i :: 0 <= i < |xs| && u in f(xs[i])
    decreases |xs|
  {
    if |xs| > 0 {
      var init := xs[..|xs| - 1];
      FlatMapMembership(init, f, u);
      if u in FlatMap(xs, f) && u !in f(xs[|xs| - 1]) {
        var i :| 0 <= i < |init| && u in f(init[i]);
        assert xs[i] == init[i];
      }
      if exists i :: 0 <= i < |xs| && u in f(xs[i]) {
        var i :| 0 <= i < |xs| && u in f(xs[i]);
        if i < |init| {
          assert init[i] == xs[i];
        }
      }
    }
  }

  /** The transfers of a log, in log order. */
  function Transfers(log: seq<LogEntry>): seq<TransferEvent> {
    FlatMap(log, Reported)
  }

  /**
   * The example's `for ev in events` loop over one block: failed entries are
   * dropped, every remaining entry is probed in turn, and the transfers found
   * are exactly `Transfers(log)`, which the poller's step reports.
   */
  method ScanBlock(log: seq<LogEntry>) returns (reported: seq<TransferEvent>)
    ensures reported == Transfers(log)
    ensures |reported| <= |log|
  {
    reported := [];
    var i := 0;
    while i < |log|
      invariant 0 <= i <= |log|
      invariant reported == Transfers(log[..i])
      invariant |reported| <= i
    {
      assert log[..i + 1][..i] == log[..i];
      if log[i].Success? {
        var probe := Probe(log[i].value);
        if probe.Some? {
          reported := reported + [probe.value];
        }
      }
      i := i + 1;
    }
    assert log[..i] == log;
  }

  /** Scanning two stretches of log one after the other is scanning them joined. */
  lemma TransfersConcat(a: seq<LogEntry>, b: seq<LogEntry>)
    ensures Transfers(a + b) == Transfers(a) + Transfers(b)
  {
    FlatMapConcat(a, b, Reported);
  }

  /** A corrupt entry is skipped and the scan goes on with the entries after it. */
  lemma CorruptEntrySkipped(a: seq<LogEntry>, e: CodecError, b: seq<LogEntry>)
    ensures Transfers(a + [Failure(e)] + b) == Transfers(a) + Transfers(b)
  {
    var bad: seq<LogEntry> := [Failure(e)];
    FlatMapConcat(a + bad, b, Reported);
    assert (a + bad)[..|a + bad| - 1] == a;
    assert Reported(Failure(e)) == [];
    assert Transfers(a + bad) == Transfers(a);
  }

  /** `entry` is a parsed event that probes as `t`. */
  predicate ProbesAs(entry: LogEntry, t: TransferEvent) {
    entry.Success? && Probe(entry.value) == Some(t)
  }

  lemma ReportedIsProbe(entry: LogEntry, t: TransferEvent)
    ensures t in Reported(entry) <==> ProbesAs(entry, t)
  {
  }

  /** A transfer is reported exactly when some parsed entry of the log probes as it. */
  lemma TransfersMembership(log: seq<LogEntry>, t: TransferEvent)
    ensures t in Transfers(log) <==> exists i :: 0 <= i < |log| && ProbesAs(log[i], t)
  {
    FlatMapMembership(log, Reported, t);
    forall i | 0 <= i < |log|
      ensures t in Reported(log[i]) <==> ProbesAs(log[i], t)
    {
      ReportedIsProbe(log[i], t);
    }
  }
}
