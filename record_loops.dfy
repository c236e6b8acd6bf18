/**
 * What `readArcRecords` and `readWarcRecords` share: the job counters, the
 * archive reader seen as a sequence of steps, and the specification of the
 * fault-isolating loop over those steps.
 *
 * The archive reader is given as what it does: either it cannot be opened,
 * or it yields a sequence of steps, each of which is a record it advanced
 * to (together with what then happened to that record) or a failed
 * advance.  The loop is specified by `Loop`, applied to a per-record
 * effect; `ArcRecords` and `WarcRecords` supply the two effects.
 */
module RecordLoops {

  // ---------------------------------------------------------------------
  // Counters
  // ---------------------------------------------------------------------

  /** The counters of `FullImageIndexer.IMAGE_COUNTERS` the loops touch. */
  datatype Counter = WarcsFailed | RecordNextFailed | RecordsRead | RecordsFailed

  /** The job's counters, as the mapper context holds them. */
  class ImageCounters {
    var warcsFailed: nat
    var recordNextFailed: nat
    var recordsRead: nat
    var recordsFailed: nat

    constructor ()
      ensures warcsFailed == 0 && recordNextFailed == 0 && recordsRead == 0 && recordsFailed == 0
    {
      warcsFailed, recordNextFailed, recordsRead, recordsFailed := 0, 0, 0, 0;
    }

    /** `context.getCounter(c).increment(1)`: that counter rises by one, the others stay. */
    method Increment(c: Counter)
      modifies this
      ensures warcsFailed == old(warcsFailed) + (if c == WarcsFailed then 1 else 0)
      ensures recordNextFailed == old(recordNextFailed) + (if c == RecordNextFailed then 1 else 0)
      ensures recordsRead == old(recordsRead) + (if c == RecordsRead then 1 else 0)
      ensures recordsFailed == old(recordsFailed) + (if c == RecordsFailed then 1 else 0)
    {
      match c
      case WarcsFailed => warcsFailed := warcsFailed + 1;
      case RecordNextFailed => recordNextFailed := recordNextFailed + 1;
      case RecordsRead => recordsRead := recordsRead + 1;
      case RecordsFailed => recordsFailed := recordsFailed + 1;
    }
  }

  // ---------------------------------------------------------------------
  // The reader, as a sequence of steps
  // ---------------------------------------------------------------------

  /** One turn of the iterator: `next()` returned a record, or threw a `RuntimeException`. */
  datatype Step<S> = Advanced(record: S) | AdvanceFails

  /** The result of `ARCReaderFactory.get`/`WARCReaderFactory.get`: an exception, or a reader. */
  datatype Container<S> = OpenFails | Opened(steps: seq<Step<S>>)

  /** How `consumer.accept` ended: normally, or with a `RuntimeException`. */
  datatype Outcome = Returns | Throws

  /**
   * What (part of) a call did: how far each counter moved, which records
   * reached the consumer, in order, and the local `records` and `errors`
   * tallies the call logs.
   */
  datatype Pass<R> = Pass(warcsFailed: nat, recordNextFailed: nat, recordsRead: nat, recordsFailed: nat,
                          delivered: seq<R>, records: nat, errors: nat)
  {
    /** This pass followed by `next`. */
    function Then(next: Pass<R>): Pass<R>
    {
      Pass(warcsFailed + next.warcsFailed, recordNextFailed + next.recordNextFailed,
           recordsRead + next.recordsRead, recordsFailed + next.recordsFailed,
           delivered + next.delivered, records + next.records, errors + next.errors)
    }
  }

  function Nothing<R>(): Pass<R>
  {
    Pass(0, 0, 0, 0, [], 0, 0)
  }

  /** A failed `next()`: `RECORD_NEXT_FAILED` and `errors` rise by one. */
  function AdvanceFailure<R>(): Pass<R>
  {
    Pass(0, 1, 0, 0, [], 0, 1)
  }

  /** A failed open: `WARCS_FAILED` rises by one, and nothing else happens. */
  function OpenFailure<R>(): Pass<R>
  {
    Pass(1, 0, 0, 0, [], 0, 0)
  }

  /**
   * The loop over the iterator: each advanced record has its effect, and
   * the first failed advance ends the loop.
   */
  function Loop<S, R>(steps: seq<Step<S>>, effect: S -> Pass<R>): Pass<R>
    decreases |steps|
  {
    if |steps| == 0 then Nothing()
    else match steps[0]
      case AdvanceFails => AdvanceFailure()
      case Advanced(s) => effect(s).Then(Loop(steps[1..], effect))
  }

  /**
   * A whole call: an open failure is counted and ends the call; otherwise
   * the loop runs.
   */
  function ReadRecords<S, R>(container: Container<S>, effect: S -> Pass<R>): Pass<R>
  {
    match container
    case OpenFails => OpenFailure()
    case Opened(steps) => Loop(steps, effect)
  }

  /** The records the iterator yields before its first failed advance. */
  function Reached<S>(steps: seq<Step<S>>): (rs: seq<S>)
    ensures |rs| <= |steps|
    ensures forall i :: 0 <= i < |rs| ==> steps[i] == Advanced(rs[i])
    ensures |rs| < |steps| ==> steps[|rs|] == AdvanceFails
  {
    if |steps| == 0 || steps[0].AdvanceFails? then [] else [steps[0].record] + Reached(steps[1..])
  }

  /** True when the iterator yields a failed advance. */
  ghost predicate AdvanceFailsSomewhere<S>(steps: seq<Step<S>>)
  {
    exists i :: 0 <= i < |steps| && steps[i] == AdvanceFails
  }

  predicate AllAdvanced<S>(steps: seq<Step<S>>)
  {
    forall i :: 0 <= i < |steps| ==> steps[i].Advanced?
  }

  /** An effect that counts no open failure and no advance failure. */
  ghost predicate RecordEffect<S(!new), R>(effect: S -> Pass<R>)
  {
    forall s :: effect(s).warcsFailed == 0 && effect(s).recordNextFailed == 0
  }

  // ---------------------------------------------------------------------
  // Algebra of passes
  // ---------------------------------------------------------------------

  lemma ThenAssociative<R>(a: Pass<R>, b: Pass<R>, c: Pass<R>)
    ensures a.Then(b).Then(c) == a.Then(b.Then(c))
  {
    assert a.delivered + b.delivered + c.delivered == a.delivered + (b.delivered + c.delivered);
  }

  lemma NothingThen<R>(a: Pass<R>)
    ensures Nothing().Then(a) == a
  {
    assert [] + a.delivered == a.delivered;
  }

  lemma ThenNothing<R>(a: Pass<R>)
    ensures a.Then(Nothing()) == a
  {
    assert a.delivered + [] == a.delivered;
  }

  // ---------------------------------------------------------------------
  // The loop, one step at a time
  // ---------------------------------------------------------------------

  /** Steps that follow a run of advanced ones add their effect after it. */
  lemma {:induction false} LoopAppend<S, R>(pre: seq<Step<S>>, post: seq<Step<S>>, effect: S -> Pass<R>)
    requires AllAdvanced(pre)
    ensures Loop(pre + post, effect) == Loop(pre, effect).Then(Loop(post, effect))
    decreases |pre|
  {
    if |pre| == 0 {
      assert pre + post == post;
      NothingThen(Loop(post, effect));
    } else {
      assert (pre + post)[1..] == pre[1..] + post;
      LoopAppend(pre[1..], post, effect);
      ThenAssociative(effect(pre[0].record), Loop(pre[1..], effect), Loop(post, effect));
    }
  }

  /** Handling the advanced record at `i` extends the loop's specification by its effect. */
  lemma LoopAdvance<S, R>(steps: seq<Step<S>>, i: nat, effect: S -> Pass<R>)
    requires i < |steps| && steps[i].Advanced? && AllAdvanced(steps[..i])
    ensures AllAdvanced(steps[..i + 1])
    ensures Loop(steps[..i + 1], effect) == Loop(steps[..i], effect).Then(effect(steps[i].record))
  {
    assert steps[..i + 1] == steps[..i] + [steps[i]];
    LoopAppend(steps[..i], [steps[i]], effect);
    assert [steps[i]][1..] == [];
    ThenNothing(effect(steps[i].record));
  }

  /** An advanced record in front of other steps has its effect first. */
  lemma LoopCons<S, R>(s: S, post: seq<Step<S>>, effect: S -> Pass<R>)
    ensures Loop([Advanced(s)] + post, effect) == effect(s).Then(Loop(post, effect))
  {
    assert ([Advanced(s)] + post)[1..] == post;
  }

  /** A failed advance at `i` ends the loop. */
  lemma LoopBreak<S, R>(steps: seq<Step<S>>, i: nat, effect: S -> Pass<R>)
    requires i < |steps| && steps[i].AdvanceFails? && AllAdvanced(steps[..i])
    ensures Loop(steps, effect) == Loop(steps[..i], effect).Then(AdvanceFailure())
  {
    assert steps == steps[..i] + steps[i..];
    LoopAppend(steps[..i], steps[i..], effect);
  }

  // ---------------------------------------------------------------------
  // Properties of every such loop
  // ---------------------------------------------------------------------

  /**
   * Once `next()` fails the loop is over: whatever the iterator would have
   * yielded afterwards changes nothing, so no later record reaches the
   * consumer.
   */
  lemma IgnoresAfterAdvanceFailure<S, R>(pre: seq<Step<S>>, post: seq<Step<S>>, effect: S -> Pass<R>)
    requires AllAdvanced(pre)
    ensures Loop(pre + [AdvanceFails] + post, effect) == Loop(pre, effect).Then(AdvanceFailure())
  {
    assert pre + [AdvanceFails] + post == pre + ([AdvanceFails] + post);
    LoopAppend(pre, [AdvanceFails] + post, effect);
  }

  /**
   * `RECORD_NEXT_FAILED` rises by one exactly when `next()` fails at some
   * point, and never by more; the loop never touches `WARCS_FAILED`.
   */
  lemma {:induction false} AdvanceFailureCountedOnce<S(!new), R>(steps: seq<Step<S>>, effect: S -> Pass<R>)
    requires RecordEffect(effect)
    ensures Loop(steps, effect).recordNextFailed == if AdvanceFailsSomewhere(steps) then 1 else 0
    ensures Loop(steps, effect).warcsFailed == 0
    decreases |steps|
  {
    if |steps| > 0 {
      match steps[0]
      case AdvanceFails =>
        assert steps[0] == AdvanceFails;
      case Advanced(s) =>
        AdvanceFailureCountedOnce(steps[1..], effect);
        if AdvanceFailsSomewhere(steps[1..]) {
          var i :| 0 <= i < |steps[1..]| && steps[1..][i] == AdvanceFails;
          assert steps[i + 1] == AdvanceFails;
        }
        if AdvanceFailsSomewhere(steps) {
          var i :| 0 <= i < |steps| && steps[i] == AdvanceFails;
          assert steps[1..][i - 1] == AdvanceFails;
        }
    }
  }

  /** When each record counts once in `records`, `records` is the number of records reached. */
  lemma {:induction false} RecordsCounted<S(!new), R>(steps: seq<Step<S>>, effect: S -> Pass<R>)
    requires forall s :: effect(s).records == 1
    ensures Loop(steps, effect).records == |Reached(steps)|
    decreases |steps|
  {
    if |steps| > 0 && steps[0].Advanced? {
      RecordsCounted(steps[1..], effect);
    }
  }

  /**
   * A failed open counts one `WARCS_FAILED` and nothing else, and the
   * consumer is never called; an opened reader never counts one.
   */
  lemma OpenFailureIsolated<S(!new), R>(container: Container<S>, effect: S -> Pass<R>)
    requires RecordEffect(effect)
    ensures ReadRecords(container, effect).warcsFailed == if container.OpenFails? then 1 else 0
    ensures container.OpenFails? ==> ReadRecords(container, effect) == Pass(1, 0, 0, 0, [], 0, 0)
  {
    if container.Opened? {
      AdvanceFailureCountedOnce(container.steps, effect);
    }
  }
}
