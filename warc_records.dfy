/**
 * `readWarcRecords`: every record of a WARC file is wrapped as a response
 * (a `resource` record with a header map synthesised from its WARC
 * header) and goes to the consumer.  Exceptions are told apart by kind: a
 * record that is not a response is skipped without touching a counter,
 * any other failure is counted; a failure to advance the iterator is
 * counted and ends the loop.
 */
module WarcRecords {
  import opened Wrappers
  import opened RecordLoops
  import JavaText

  /** The header fields of a `WARCRecord` the loop reads; `None` is `null`. */
  datatype WarcHeader = WarcHeader(offset: nat, recordType: Option<string>, mimetype: Option<string>, contentLength: int)

  /** The kinds of exception the loop's catch clauses tell apart. */
  datatype Failure = InvalidWarcResponse | OtherIo | OtherException

  /** What the `WARCRecordResponseEncapsulated` constructor did: a wrapper with so many errors, or an exception. */
  datatype Construction = Constructed(errorCount: nat) | ConstructorThrows(failure: Failure)

  /** An advanced WARC record, what wrapping it did, and how the consumer ended on it. */
  datatype WarcRecordStep = WarcRecordStep(header: WarcHeader, construction: Construction, consumer: Outcome)

  /** A `WARCRecordResponseEncapsulated`: the record, the header map it was given if any, its error count. */
  datatype Encapsulated = Encapsulated(header: WarcHeader, headers: Option<map<string, Option<string>>>, errorCount: nat)

  /** The routing `warcRecordType.equalsIgnoreCase("resource")` makes, `null` included. */
  datatype RecordClass = NullType | Resource | Other

  /** `WARCRecordType.resource.toString()`. */
  const ResourceType := "resource"
  /** `WARCConstants.CONTENT_LENGTH`. */
  const ContentLengthKey := "Content-Length"
  /** `WARCConstants.CONTENT_TYPE`. */
  const ContentTypeKey := "Content-Type"
  /**
   * `MIMETYPE_FIELD_KEY` of the archive record.  Its value is defined outside
   * the code modelled here, so it is left open: what is proved about the
   * header map holds for every value it may have.
   */
  const MimetypeFieldKey: string

  function Classify(recordType: Option<string>): (c: RecordClass)
    ensures c == NullType <==> recordType.None?
    ensures c == Resource <==> recordType.Some? && JavaText.ToLower(recordType.value) == ResourceType
  {
    JavaText.EqualsIgnoreCaseIsLowerEqual(if recordType.Some? then recordType.value else "", ResourceType);
    match recordType
    case None => NullType
    case Some(t) => if JavaText.EqualsIgnoreCase(t, ResourceType) then Resource else Other
  }

  lemma LoweredKeys()
    ensures JavaText.ToLower(ContentLengthKey) == "content-length"
    ensures JavaText.ToLower(ContentTypeKey) == "content-type"
  {
  }

  /**
   * The header map built for a `resource` record: the lower-cased keys of
   * the declared length, the declared type and the mimetype field.  The
   * type entries hold the declared mimetype; the length entry holds the
   * declared length as a decimal string, unless the mimetype field's key
   * lower-cases to that same key and overwrites it.  When that key
   * lower-cases to `content-type` the map has two keys, otherwise three.
   */
  function ResourceHeaders(h: WarcHeader): (m: map<string, Option<string>>)
    ensures m.Keys == {"content-length", "content-type", JavaText.ToLower(MimetypeFieldKey)}
    ensures 2 <= |m.Keys| <= 3
    ensures m["content-type"] == h.mimetype && m[JavaText.ToLower(MimetypeFieldKey)] == h.mimetype
    ensures JavaText.ToLower(MimetypeFieldKey) != "content-length" ==>
              m["content-length"].Some? && JavaText.ParseDecimal(m["content-length"].value) == Some(h.contentLength)
  {
    JavaText.DecimalRoundTrip(h.contentLength);
    LoweredKeys();
    var k := JavaText.ToLower(MimetypeFieldKey);
    var m := map[JavaText.ToLower(ContentLengthKey) := Some(JavaText.DecimalString(h.contentLength)),
                 JavaText.ToLower(ContentTypeKey) := h.mimetype,
                 k := h.mimetype];
    assert |{"content-length", "content-type"}| == 2;
    assert m.Keys == {"content-length", "content-type"} + {k};
    m
  }

  /**
   * The catch clauses: a record that is not a response only adds to
   * `errors`; an `IOException` or any other exception also adds to
   * `RECORDS_FAILED`.  Either way `records` rises.
   */
  function Handle(f: Failure): (p: Pass<Encapsulated>)
    ensures p.records == 1 && p.errors == 1 && p.delivered == []
    ensures p.warcsFailed == 0 && p.recordNextFailed == 0 && p.recordsRead == 0
    ensures p.recordsFailed == if f == InvalidWarcResponse then 0 else 1
  {
    match f
    case InvalidWarcResponse => Pass(0, 0, 0, 0, [], 1, 1)
    case OtherIo => Pass(0, 0, 0, 1, [], 1, 1)
    case OtherException => Pass(0, 0, 0, 1, [], 1, 1)
  }

  /** True when a WARC record gets as far as the consumer. */
  predicate ReachesConsumer(s: WarcRecordStep)
  {
    Classify(s.header.recordType) != NullType && s.construction.Constructed?
  }

  /** True when the loop skips a WARC record as not being a response. */
  predicate SkippedAsInvalid(s: WarcRecordStep)
  {
    Classify(s.header.recordType) != NullType && s.construction == ConstructorThrows(InvalidWarcResponse)
  }

  /** The wrapper a successful construction hands to the consumer. */
  function Wrap(s: WarcRecordStep): (e: Encapsulated)
    requires ReachesConsumer(s)
    ensures e.header == s.header && e.errorCount == s.construction.errorCount
    ensures e.headers.Some? <==> Classify(s.header.recordType) == Resource
  {
    Encapsulated(s.header,
                 if Classify(s.header.recordType) == Resource then Some(ResourceHeaders(s.header)) else None,
                 s.construction.errorCount)
  }

  /**
   * One WARC record.  A `null` type makes `equalsIgnoreCase` throw a
   * `NullPointerException`, which the generic clause catches.  Otherwise
   * the record is wrapped, with a header map when it is a resource; a
   * wrapping failure goes through the catch clauses; a wrapped record goes
   * to the consumer and `RECORDS_READ` rises if the consumer returns,
   * while an exception from the consumer is caught by the generic clause.
   * Then `records` rises, and a wrapped record's own errors are added to
   * `errors`.
   */
  function WarcEffect(s: WarcRecordStep): (p: Pass<Encapsulated>)
    ensures p.records == 1
    ensures p.warcsFailed == 0 && p.recordNextFailed == 0
    ensures p.delivered == if ReachesConsumer(s) then [Wrap(s)] else []
    ensures p.recordsRead == 1 <==> ReachesConsumer(s) && s.consumer == Returns
    ensures p.recordsRead + p.recordsFailed == if SkippedAsInvalid(s) then 0 else 1
    ensures p.errors == p.recordsFailed + (if SkippedAsInvalid(s) then 1 else 0)
                        + (if ReachesConsumer(s) then s.construction.errorCount else 0)
  {
    if Classify(s.header.recordType) == NullType then Handle(OtherException)
    else match s.construction
      case ConstructorThrows(f) => Handle(f)
      case Constructed(n) =>
        match s.consumer
        case Returns => Pass(0, 0, 1, 0, [Wrap(s)], 1, n)
        case Throws => Pass(0, 0, 0, 1, [Wrap(s)], 1, 1 + n)
  }

  /**
   * The `try` block for one advanced WARC record and its catch clauses:
   * the wrapper handed to the consumer, if one was built, and what the
   * record adds to `errors`.
   */
  method HandleRecord(s: WarcRecordStep, context: ImageCounters) returns (record: Option<Encapsulated>, errors: nat)
    modifies context
    ensures var e := WarcEffect(s);
      && context.warcsFailed == old(context.warcsFailed)
      && context.recordNextFailed == old(context.recordNextFailed)
      && context.recordsRead == old(context.recordsRead) + e.recordsRead
      && context.recordsFailed == old(context.recordsFailed) + e.recordsFailed
      && (if record.Some? then [record.value] else []) == e.delivered
      && errors == e.errors
  {
    record, errors := None, 0;
    var kind := Classify(s.header.recordType);
    if kind == NullType {
      // the NullPointerException lands in the generic clause
      context.Increment(RecordsFailed);
      errors := errors + 1;
    } else {
      match s.construction
      case ConstructorThrows(f) =>
        if f != InvalidWarcResponse {
          context.Increment(RecordsFailed);
        }
        errors := errors + 1;
      case Constructed(n) =>
        var headers := if kind == Resource then Some(ResourceHeaders(s.header)) else None;
        record := Some(Encapsulated(s.header, headers, n));
        if s.consumer == Returns {
          context.Increment(RecordsRead);
        } else {
          context.Increment(RecordsFailed);
          errors := errors + 1;
        }
    }
    if record.Some? {
      errors := errors + record.value.errorCount;
    }
  }

  /**
   * `readWarcRecords(warcURL, context, consumer)`.  Returns what it hands
   * to the consumer, the `records` and `errors` tallies it logs, and
   * whether it went on to close the reader.
   */
  method ReadWarcRecords(container: Container<WarcRecordStep>, context: ImageCounters)
    returns (delivered: seq<Encapsulated>, records: nat, errors: nat, closeAttempted: bool)
    modifies context
    ensures var p := ReadRecords(container, WarcEffect);
      && context.warcsFailed == old(context.warcsFailed) + p.warcsFailed
      && context.recordNextFailed == old(context.recordNextFailed) + p.recordNextFailed
      && context.recordsRead == old(context.recordsRead) + p.recordsRead
      && context.recordsFailed == old(context.recordsFailed) + p.recordsFailed
      && delivered == p.delivered && records == p.records && errors == p.errors
    ensures closeAttempted <==> container.Opened?
  {
    delivered, records, errors, closeAttempted := [], 0, 0, false;
    if container.OpenFails? {
      context.Increment(WarcsFailed);
      return;
    }
    var steps := container.steps;
    ghost var p: Pass<Encapsulated> := Nothing();
    var i := 0;
    while i < |steps|
      invariant 0 <= i <= |steps| && AllAdvanced(steps[..i])
      invariant p == Loop(steps[..i], WarcEffect) && p.warcsFailed == 0
      invariant context.warcsFailed == old(context.warcsFailed)
      invariant context.recordNextFailed == old(context.recordNextFailed) + p.recordNextFailed
      invariant context.recordsRead == old(context.recordsRead) + p.recordsRead
      invariant context.recordsFailed == old(context.recordsFailed) + p.recordsFailed
      invariant delivered == p.delivered && records == p.records && errors == p.errors
    {
      match steps[i]
      case AdvanceFails =>
        context.Increment(RecordNextFailed);
        errors := errors + 1;
        LoopBreak(steps, i, WarcEffect);
        p := p.Then(AdvanceFailure());
        break;
      case Advanced(s) =>
        ghost var e := WarcEffect(s);
        var wrapped, added := HandleRecord(s, context);
        delivered := delivered + (if wrapped.Some? then [wrapped.value] else []);
        records := records + 1;
        errors := errors + added;
        LoopAdvance(steps, i, WarcEffect);
        p := p.Then(e);
        i := i + 1;
    }
    if i == |steps| {
      assert steps[..i] == steps;
    }
    closeAttempted := true;
  }

  // ---------------------------------------------------------------------
  // What the loop promises
  // ---------------------------------------------------------------------

  /**
   * A whole call: a failed open counts one `WARCS_FAILED` and does nothing
   * else; an opened reader counts one `RECORD_NEXT_FAILED` if `next()`
   * ever fails, and none otherwise.
   */
  lemma WarcFailuresCountedOnce(container: Container<WarcRecordStep>)
    ensures ReadRecords(container, WarcEffect).warcsFailed == if container.OpenFails? then 1 else 0
    ensures container.OpenFails? ==> ReadRecords(container, WarcEffect) == Pass(1, 0, 0, 0, [], 0, 0)
    ensures ReadRecords(container, WarcEffect).recordNextFailed
         == if container.Opened? && AdvanceFailsSomewhere(container.steps) then 1 else 0
  {
    assert RecordEffect(WarcEffect);
    OpenFailureIsolated(container, WarcEffect);
    if container.Opened? {
      AdvanceFailureCountedOnce(container.steps, WarcEffect);
    }
  }

  /** The wrappers of the records that get as far as the consumer, in order. */
  function Wrapped(ss: seq<WarcRecordStep>): (es: seq<Encapsulated>)
    ensures |es| <= |ss|
  {
    if |ss| == 0 then []
    else (if ReachesConsumer(ss[0]) then [Wrap(ss[0])] else []) + Wrapped(ss[1..])
  }

  /** How many records reach the consumer and see it return. */
  function ReadCount(ss: seq<WarcRecordStep>): (n: nat)
    ensures n <= |ss|
  {
    if |ss| == 0 then 0
    else (if ReachesConsumer(ss[0]) && ss[0].consumer == Returns then 1 else 0) + ReadCount(ss[1..])
  }

  /** How many records are skipped as not being responses. */
  function SkippedCount(ss: seq<WarcRecordStep>): (n: nat)
    ensures n <= |ss|
  {
    if |ss| == 0 then 0 else (if SkippedAsInvalid(ss[0]) then 1 else 0) + SkippedCount(ss[1..])
  }

  /** The errors the wrappers carry, added up. */
  function WrappedErrorSum(ss: seq<WarcRecordStep>): nat
  {
    if |ss| == 0 then 0
    else (if ReachesConsumer(ss[0]) then ss[0].construction.errorCount else 0) + WrappedErrorSum(ss[1..])
  }

  /**
   * The consumer is called once on the wrapper of each record that is
   * reached before the first failed advance and survives classification
   * and wrapping, in iterator order, and on nothing else.
   */
  lemma {:induction false} WarcConsumerSeesWrappedRecords(steps: seq<Step<WarcRecordStep>>)
    ensures Loop(steps, WarcEffect).delivered == Wrapped(Reached(steps))
    decreases |steps|
  {
    if |steps| > 0 && steps[0].Advanced? {
      WarcConsumerSeesWrappedRecords(steps[1..]);
      assert Reached(steps)[1..] == Reached(steps[1..]);
    }
  }

  /**
   * Each record reached moves at most one of `RECORDS_READ` and
   * `RECORDS_FAILED`: none when it is skipped as not being a response, one
   * otherwise.  `RECORDS_READ` counts exactly the records on which the
   * consumer returned.
   */
  lemma {:induction false} WarcEachRecordCountedOnce(steps: seq<Step<WarcRecordStep>>)
    ensures var p := Loop(steps, WarcEffect);
      && p.recordsRead + p.recordsFailed + SkippedCount(Reached(steps)) == p.records == |Reached(steps)|
      && p.recordsRead == ReadCount(Reached(steps))
    decreases |steps|
  {
    if |steps| > 0 && steps[0].Advanced? {
      WarcEachRecordCountedOnce(steps[1..]);
      assert Reached(steps)[1..] == Reached(steps[1..]);
    }
  }

  /**
   * The `errors` tally is one per counted record failure, one per record
   * skipped as not being a response, one for a failed advance, plus every
   * error the wrappers carry.
   */
  lemma {:induction false} WarcErrorsTally(steps: seq<Step<WarcRecordStep>>)
    ensures var p := Loop(steps, WarcEffect);
      p.errors == p.recordsFailed + p.recordNextFailed + SkippedCount(Reached(steps)) + WrappedErrorSum(Reached(steps))
    decreases |steps|
  {
    if |steps| > 0 && steps[0].Advanced? {
      WarcErrorsTally(steps[1..]);
      assert Reached(steps)[1..] == Reached(steps[1..]);
    }
  }

  /**
   * A record skipped as not being a response moves no counter and reaches
   * no consumer: the call counts it only in `records` and `errors`.
   */
  lemma InvalidResponseMovesNoCounter(pre: seq<Step<WarcRecordStep>>, s: WarcRecordStep, post: seq<Step<WarcRecordStep>>)
    requires AllAdvanced(pre) && SkippedAsInvalid(s)
    ensures var with := Loop(pre + [Advanced(s)] + post, WarcEffect);
      var without := Loop(pre + post, WarcEffect);
      && with.warcsFailed == without.warcsFailed && with.recordNextFailed == without.recordNextFailed
      && with.recordsRead == without.recordsRead && with.recordsFailed == without.recordsFailed
      && with.delivered == without.delivered
      && with.records == without.records + 1 && with.errors == without.errors + 1
  {
    assert pre + [Advanced(s)] + post == pre + ([Advanced(s)] + post);
    LoopAppend(pre, [Advanced(s)] + post, WarcEffect);
    LoopAppend(pre, post, WarcEffect);
    LoopCons(s, post, WarcEffect);
    var rest := Loop(post, WarcEffect);
    assert WarcEffect(s).Then(rest).delivered == rest.delivered;
  }
}
