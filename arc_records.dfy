/**
 * `readArcRecords`: every record of an ARC file goes to the consumer; a
 * consumer failure is counted and the loop goes on; a failure to advance
 * the iterator is counted and ends the loop.
 */
module ArcRecords {
  import opened RecordLoops

  /** An `ARCRecord`: where it starts in the file, and how many errors its parse recorded. */
  datatype ArcRecord = ArcRecord(offset: nat, errorCount: nat)

  /** An advanced ARC record and how the consumer ended on it. */
  datatype ArcRecordStep = ArcRecordStep(record: ArcRecord, consumer: Outcome)

  /**
   * One ARC record: it goes to the consumer; `RECORDS_READ` rises if the
   * consumer returns, `RECORDS_FAILED` and `errors` if it throws; then
   * `records` rises and the record's own errors are added to `errors`.
   */
  function ArcEffect(s: ArcRecordStep): (p: Pass<ArcRecord>)
    ensures p.delivered == [s.record] && p.records == 1
    ensures p.warcsFailed == 0 && p.recordNextFailed == 0
    ensures p.recordsRead + p.recordsFailed == 1
    ensures p.recordsRead == 1 <==> s.consumer == Returns
    ensures p.errors == p.recordsFailed + s.record.errorCount
  {
    match s.consumer
    case Returns => Pass(0, 0, 1, 0, [s.record], 1, s.record.errorCount)
    case Throws => Pass(0, 0, 0, 1, [s.record], 1, 1 + s.record.errorCount)
  }

  /**
   * The `try` block around the consumer for one advanced ARC record, its
   * catch clause, and the record's own errors: what the record adds to
   * `errors`.
   */
  method HandleRecord(s: ArcRecordStep, context: ImageCounters) returns (errors: nat)
    modifies context
    ensures var e := ArcEffect(s);
      && context.warcsFailed == old(context.warcsFailed)
      && context.recordNextFailed == old(context.recordNextFailed)
      && context.recordsRead == old(context.recordsRead) + e.recordsRead
      && context.recordsFailed == old(context.recordsFailed) + e.recordsFailed
      && errors == e.errors
  {
    errors := 0;
    if s.consumer == Returns {
      context.Increment(RecordsRead);
    } else {
      context.Increment(RecordsFailed);
      errors := errors + 1;
    }
    errors := errors + s.record.errorCount;
  }

  /**
   * `readArcRecords(arcURL, context, consumer)`.  Returns what it hands to
   * the consumer, the `records` and `errors` tallies it logs, and whether
   * it went on to close the reader.
   */
  method ReadArcRecords(container: Container<ArcRecordStep>, context: ImageCounters)
    returns (delivered: seq<ArcRecord>, records: nat, errors: nat, closeAttempted: bool)
    modifies context
    ensures var p := ReadRecords(container, ArcEffect);
      && context.warcsFailed == old(context.warcsFailed) + p.warcsFailed
      && context.recordNextFailed == old(context.recordNextFailed) + p.recordNextFailed
      && context.recordsRead == old(context.recordsRead) + p.recordsRead
      && context.recordsFailed == old(context.recordsFailed) + p.recordsFailed
      && delivered == p.delivered && records == p.records && errors == p.errors
    ensures closeAttempted <==> container.Opened?
  {
    delivered, records, errors, closeAttempted := [], 0, 0, false;
    if container.OpenFails? {
      context.Increment(WarcsFailed);
      return;
    }
    var steps := container.steps;
    ghost var p: Pass<ArcRecord> := Nothing();
    var i := 0;
    while i < |steps|
      invariant 0 <= i <= |steps| && AllAdvanced(steps[..i])
      invariant p == Loop(steps[..i], ArcEffect) && p.warcsFailed == 0
      invariant context.warcsFailed == old(context.warcsFailed)
      invariant context.recordNextFailed == old(context.recordNextFailed) + p.recordNextFailed
      invariant context.recordsRead == old(context.recordsRead) + p.recordsRead
      invariant context.recordsFailed == old(context.recordsFailed) + p.recordsFailed
      invariant delivered == p.delivered && records == p.records && errors == p.errors
    {
      match steps[i]
      case AdvanceFails =>
        context.Increment(RecordNextFailed);
        errors := errors + 1;
        LoopBreak(steps, i, ArcEffect);
        p := p.Then(AdvanceFailure());
        break;
      case Advanced(s) =>
        delivered := delivered + [s.record];
        var added := HandleRecord(s, context);
        records := records + 1;
        errors := errors + added;
        LoopAdvance(steps, i, ArcEffect);
        p := p.Then(ArcEffect(s));
        i := i + 1;
    }
    if i == |steps| {
      assert steps[..i] == steps;
    }
    closeAttempted := true;
  }

  // ---------------------------------------------------------------------
  // What the loop promises
  // ---------------------------------------------------------------------

  /**
   * A whole call: a failed open counts one `WARCS_FAILED` and does nothing
   * else; an opened reader counts one `RECORD_NEXT_FAILED` if `next()`
   * ever fails, and none otherwise.
   */
  lemma ArcFailuresCountedOnce(container: Container<ArcRecordStep>)
    ensures ReadRecords(container, ArcEffect).warcsFailed == if container.OpenFails? then 1 else 0
    ensures container.OpenFails? ==> ReadRecords(container, ArcEffect) == Pass(1, 0, 0, 0, [], 0, 0)
    ensures ReadRecords(container, ArcEffect).recordNextFailed
         == if container.Opened? && AdvanceFailsSomewhere(container.steps) then 1 else 0
  {
    assert RecordEffect(ArcEffect);
    OpenFailureIsolated(container, ArcEffect);
    if container.Opened? {
      AdvanceFailureCountedOnce(container.steps, ArcEffect);
    }
  }

  function RecordsOf(ss: seq<ArcRecordStep>): (rs: seq<ArcRecord>)
    ensures |rs| == |ss|
    ensures forall i :: 0 <= i < |ss| ==> rs[i] == ss[i].record
  {
    if |ss| == 0 then [] else [ss[0].record] + RecordsOf(ss[1..])
  }

  /** How many of the records the consumer returned on. */
  function Returned(ss: seq<ArcRecordStep>): (n: nat)
    ensures n <= |ss|
  {
    if |ss| == 0 then 0 else (if ss[0].consumer == Returns then 1 else 0) + Returned(ss[1..])
  }

  /** The parse errors the records carry, added up. */
  function ErrorSum(ss: seq<ArcRecordStep>): nat
  {
    if |ss| == 0 then 0 else ss[0].record.errorCount + ErrorSum(ss[1..])
  }

  /**
   * The consumer is called once on each record the iterator yields before
   * its first failed advance, in iterator order, and on no other.
   */
  lemma {:induction false} ArcConsumerSeesReachedRecords(steps: seq<Step<ArcRecordStep>>)
    ensures Loop(steps, ArcEffect).delivered == RecordsOf(Reached(steps))
    decreases |steps|
  {
    if |steps| > 0 && steps[0].Advanced? {
      ArcConsumerSeesReachedRecords(steps[1..]);
      assert RecordsOf(Reached(steps)) == [steps[0].record.record] + RecordsOf(Reached(steps[1..]));
    }
  }

  /**
   * Each record reached moves exactly one of `RECORDS_READ` and
   * `RECORDS_FAILED`, and `RECORDS_READ` counts exactly the records the
   * consumer returned on.
   */
  lemma {:induction false} ArcEachRecordCountedOnce(steps: seq<Step<ArcRecordStep>>)
    ensures var p := Loop(steps, ArcEffect);
      && p.recordsRead + p.recordsFailed == p.records == |Reached(steps)|
      && p.recordsRead == Returned(Reached(steps))
    decreases |steps|
  {
    if |steps| > 0 && steps[0].Advanced? {
      ArcEachRecordCountedOnce(steps[1..]);
      assert Reached(steps)[1..] == Reached(steps[1..]);
    }
  }

  /**
   * The `errors` tally is one per consumer failure, one for a failed
   * advance, plus every error the reached records carry.
   */
  lemma {:induction false} ArcErrorsTally(steps: seq<Step<ArcRecordStep>>)
    ensures var p := Loop(steps, ArcEffect);
      p.errors == p.recordsFailed + p.recordNextFailed + ErrorSum(Reached(steps))
    decreases |steps|
  {
    if |steps| > 0 && steps[0].Advanced? {
      ArcErrorsTally(steps[1..]);
      assert Reached(steps)[1..] == Reached(steps[1..]);
    }
  }
}
