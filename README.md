# Image search indexing: record reading, URL tokens and `ImageData`

This project models the core of an image-search indexer for web archives in
Dafny, and proves properties of that model. The indexer is a Hadoop job.
Its mappers walk ARC and WARC files and pull out images. The core is made of:

- the record loops of `ImageSearchIndexingUtil`:
  - `readArcRecords` and `readWarcRecords` open an archive and hand every
    record to a consumer.
  - They isolate faults: a failure to open, to advance the iterator, to
    wrap a record or in the consumer is counted in the job counters
    `WARCS_FAILED`, `RECORD_NEXT_FAILED`, `RECORDS_READ` and
    `RECORDS_FAILED`, or in the local `records`/`errors` tallies.
- `getRecordContentBytes`: skips the HTTP header of an ARC record and reads
  the rest of the record in 16 KiB chunks.
- `parseURL`: reduces a URL to its ASCII alphanumeric runs, separated by
  single spaces.
- the `ImageData` record:
  - It keeps the image bytes as Base64 text and decodes them back on
    demand.
  - It orders itself against a capture time (`compareTo`) and describes
    itself as `"mime": url` (`toString`).

Modules:

| file | module | what it holds |
|---|---|---|
| `wrappers.dfy` | `Wrappers`, `Bytes` | `Option`, and the `byte` type |
| `record_loops.dfy` | `RecordLoops` | the counters as a class; the archive reader as a sequence of steps; `Loop`, the specification both record loops share; its algebra and properties |
| `arc_records.dfy` | `ArcRecords` | the per-record effect of the ARC loop, `ReadArcRecords`, and what it promises |
| `warc_records.dfy` | `WarcRecords` | the routing by record type, the synthesised header map, the catch clauses, `ReadWarcRecords`, and what it promises |
| `java_text.dfy` | `JavaText` | `toLowerCase`, `equalsIgnoreCase`, `String.valueOf(long)` and its parse-back |
| `record_content.dfy` | `RecordContent` | the archive record as a byte stream with a cursor (`skipHttpHeader`, `read`, `close`); `GetRecordContentBytes` |
| `url_tokens.dfy` | `UrlTokens` | the token specification of `parseURL`, the matching loop, and its properties |
| `base64.dfy` | `Base64` | Base64 encoding and strict decoding (section 4 of RFC 4648), and both round trips |
| `image_data.dfy` | `ImageRecords` | `ImageData` as a class; the `LocalDateTime` order; `toString` |

How the model is built:

- **Archive reader.** The archive reader is given as what it does.
  - It can fail to open (`OpenFails`), or it yields a sequence of steps.
  - Each step is a failed `next()` or a record, together with what then
    happened to that record:
    - how the consumer ended;
    - for WARC, what the `WARCRecordResponseEncapsulated` constructor did
      and the header fields the loop reads.
- **Record loops.**
  - Each loop is an imperative method that updates an `ImageCounters`
    object.
  - It is proved equal to the function `Loop` applied to a per-record
    effect (`ArcEffect`, `WarcEffect`).
  - The fault-isolation properties are lemmas about `Loop`.
- **`GetRecordContentBytes`** is proved against only the contract of the
  stream's `read`, so its result holds however the stream splits the body
  into chunks.
- **`ParseUrl`** is the `find()` loop. It is proved equal to `ParsedUrl`,
  the single-space join of the maximal alphanumeric runs.

What the code does at its edges, which the model keeps:

- **No size limit.** `getRecordContentBytes` reads the whole record and
  never truncates. `MAXIMUM_RECORD_SIZE_MB` only sets the initial capacity
  of the output buffer, which grows past it
  (`src/main/java/ImageSearchIndexingUtil.java:87-93`).
- **The header is always skipped.** `getRecordContentBytes` calls
  `skipHttpHeader` on every record it is given (line 84).
- **Invalid WARC responses move no counter.** An
  `InvalidWARCResponseIOException` adds one to the local `errors` tally
  and moves no counter (lines 144-146). `InvalidResponseMovesNoCounter`
  states this.
- **A record stays open on a read error.** An `IOException` from
  `skipHttpHeader` or `read` leaves `getRecordContentBytes` before
  `record.close()` (lines 84-94).
- **A `null` record type is a counted failure.** `equalsIgnoreCase` on it
  throws inside the `try`, and the generic clause counts it in
  `RECORDS_FAILED` (lines 126-131, 151-154).

## Model

| member | source | states |
|---|---|---|
| RecordLoops.ImageCounters.Increment | src/main/java/ImageSearchIndexingUtil.java:40 | `getCounter(c).increment(1)`: the named counter rises by one and the other three stay as they were |
| RecordLoops.LoopAppend | src/main/java/ImageSearchIndexingUtil.java:47-71 | the loop over a run of advanced records followed by more steps is the run's effect followed by the rest's: the loop handles records one at a time, in order |
| RecordLoops.IgnoresAfterAdvanceFailure | src/main/java/ImageSearchIndexingUtil.java:49-57 | once `next()` throws, the loop counts the failure and stops: nothing the iterator would have yielded afterwards reaches the consumer or moves a counter |
| RecordLoops.AdvanceFailureCountedOnce | src/main/java/ImageSearchIndexingUtil.java:51-56 | `RECORD_NEXT_FAILED` rises by one exactly when `next()` fails at some point and never by more; the loop never moves `WARCS_FAILED` |
| RecordLoops.OpenFailureIsolated | src/main/java/ImageSearchIndexingUtil.java:37-43 | a failed open moves `WARCS_FAILED` by one and does nothing else (no consumer call, no other counter, no tally); an opened reader never moves `WARCS_FAILED` |
| RecordLoops.RecordsCounted | src/main/java/ImageSearchIndexingUtil.java:67 | when each handled record adds one to `records`, `records` ends as the number of records reached before the first failed advance |
| ArcRecords.ArcEffect | src/main/java/ImageSearchIndexingUtil.java:58-70 | one ARC record: it goes to the consumer; exactly one of `RECORDS_READ` (consumer returned) and `RECORDS_FAILED` (consumer threw) rises; `records` rises; `errors` gains the consumer failure and the record's own error count |
| ArcRecords.HandleRecord | src/main/java/ImageSearchIndexingUtil.java:58-70 | the try/catch around the consumer moves the counters by `ArcEffect` and returns what the record adds to `errors` |
| ArcRecords.ReadArcRecords | src/main/java/ImageSearchIndexingUtil.java:34-81 | the counters move by, and the consumer receives, what `ReadRecords(container, ArcEffect)` says, and the logged tallies are its `records` and `errors`; the reader is closed exactly when it was opened |
| ArcRecords.ArcFailuresCountedOnce | src/main/java/ImageSearchIndexingUtil.java:37-57 | for a whole ARC call: `WARCS_FAILED` moves by one exactly when the open fails, and then nothing else happens; `RECORD_NEXT_FAILED` moves by one exactly when an opened reader's `next()` fails |
| ArcRecords.ArcConsumerSeesReachedRecords | src/main/java/ImageSearchIndexingUtil.java:47-65 | the consumer receives each record reached before the first failed advance once, in iterator order, and nothing else |
| ArcRecords.ArcEachRecordCountedOnce | src/main/java/ImageSearchIndexingUtil.java:58-67 | `RECORDS_READ + RECORDS_FAILED == records ==` the number of records reached, and `RECORDS_READ` is the number on which the consumer returned |
| ArcRecords.ArcErrorsTally | src/main/java/ImageSearchIndexingUtil.java:52-70 | `errors` is consumer failures plus the failed advance plus the error counts the reached records carry |
| WarcRecords.Classify | src/main/java/ImageSearchIndexingUtil.java:126-131 | the record type routes to the `resource` branch exactly when it lower-cases to `"resource"` (`equalsIgnoreCase`), and a `null` type is told apart |
| JavaText.ToLower | src/main/java/ImageSearchIndexingUtil.java:133-135 | ASCII-only lower-casing of the keys: the length is kept, `A`-`Z` become `a`-`z`, and every other character is unchanged |
| JavaText.EqualsIgnoreCase | src/main/java/ImageSearchIndexingUtil.java:131 | `equalsIgnoreCase` holds only between strings of the same length, and between any string and itself |
| JavaText.EqualsIgnoreCaseIsLowerEqual | src/main/java/ImageSearchIndexingUtil.java:131 | `equalsIgnoreCase` (per-character equality as is, after upper-casing, or after upper- then lower-casing) holds exactly when the lower-cased strings are equal |
| JavaText.DecimalRoundTrip | src/main/java/ImageSearchIndexingUtil.java:133 | `String.valueOf` of the content length parses back to that length, negative lengths included |
| JavaText.DecimalStringInjective | src/main/java/ImageSearchIndexingUtil.java:133 | distinct lengths give distinct decimal strings |
| JavaText.DecimalString | src/main/java/ImageSearchIndexingUtil.java:133 | `String.valueOf` of the content length is non-empty, starts with `-` exactly when the length is negative, and is digits after that |
| WarcRecords.ResourceHeaders | src/main/java/ImageSearchIndexingUtil.java:132-135 | the header map of a `resource` record has exactly the keys `content-length`, `content-type` and the lower-cased mimetype field key (two or three keys); both type entries hold the declared mimetype (`null` included); the length entry parses back to the declared length unless the mimetype field key lower-cases to `content-length` and overwrites it |
| WarcRecords.Handle | src/main/java/ImageSearchIndexingUtil.java:144-155 | the catch clauses: an invalid WARC response adds only to `errors`; an `IOException` or any other exception also adds to `RECORDS_FAILED`; nothing reaches the consumer |
| WarcRecords.Wrap | src/main/java/ImageSearchIndexingUtil.java:131-141 | the wrapper keeps the record and its error count, and carries a header map exactly when the record is a `resource` |
| WarcRecords.WarcEffect | src/main/java/ImageSearchIndexingUtil.java:126-159 | one WARC record: `records` rises; the consumer receives the wrapper exactly when the type is not null and wrapping succeeded; `RECORDS_READ` rises exactly when the consumer then returns; an invalid response moves neither `RECORDS_READ` nor `RECORDS_FAILED` and any other record moves exactly one; the errors tally |
| WarcRecords.HandleRecord | src/main/java/ImageSearchIndexingUtil.java:128-159 | the try block and its catch clauses for one record move the counters by `WarcEffect`, return the wrapper handed to the consumer if any, and what the record adds to `errors` |
| WarcRecords.ReadWarcRecords | src/main/java/ImageSearchIndexingUtil.java:98-170 | the counters move by, and the consumer receives, what `ReadRecords(container, WarcEffect)` says, and the logged tallies are its `records` and `errors`; the reader is closed exactly when it was opened |
| WarcRecords.WarcFailuresCountedOnce | src/main/java/ImageSearchIndexingUtil.java:101-122 | for a whole WARC call: `WARCS_FAILED` moves by one exactly when the open fails, and then nothing else happens; `RECORD_NEXT_FAILED` moves by one exactly when an opened reader's `next()` fails |
| WarcRecords.WarcConsumerSeesWrappedRecords | src/main/java/ImageSearchIndexingUtil.java:111-142 | the consumer receives, once each and in iterator order, the wrappers of the records reached before the first failed advance that survive classification and wrapping, and nothing else |
| WarcRecords.WarcEachRecordCountedOnce | src/main/java/ImageSearchIndexingUtil.java:143-156 | `RECORDS_READ + RECORDS_FAILED +` skipped invalid responses `== records ==` the number of records reached, and `RECORDS_READ` counts the records on which the consumer returned |
| WarcRecords.WarcErrorsTally | src/main/java/ImageSearchIndexingUtil.java:116-159 | `errors` is counted record failures plus skipped invalid responses plus the failed advance plus the error counts the wrappers carry |
| WarcRecords.InvalidResponseMovesNoCounter | src/main/java/ImageSearchIndexingUtil.java:144-146 | inserting a record that is skipped as not being a response changes no counter and no consumer call; it adds exactly one to `records` and one to `errors` |
| RecordContent.ArchiveRecordStream.SkipHttpHeader | src/main/java/ImageSearchIndexingUtil.java:84 | the cursor moves past the HTTP header, or an `IOException` is raised exactly when the stream is broken before the header's end |
| RecordContent.ArchiveRecordStream.Read | src/main/java/ImageSearchIndexingUtil.java:86 | `read(buf, off, len)`: -1 exactly at the end of the body; otherwise between 1 and `len` bytes of the body from the cursor, copied to `buf[off..]`, the rest of `buf` unchanged; an `IOException` at a broken offset |
| RecordContent.CopyInto | src/main/java/ImageSearchIndexingUtil.java:92 | the copy `record.read(buffer, 0, buffer.length)` performs (here and at line 86): the target range of the caller's buffer holds the bytes read and the rest of the buffer is as it was |
| RecordContent.GetRecordContentBytes | src/main/java/ImageSearchIndexingUtil.java:83-96 | the result is the whole record body after the HTTP header, however `read` splits it, with no size limit, and the record is then closed; an `IOException` is raised exactly when the stream is broken past the cursor, and the record is then left open |
| RecordContent.ArchiveRecordStream.Close | src/main/java/ImageSearchIndexingUtil.java:94 | `record.close()` leaves the record closed and changes nothing else |
| UrlTokens.MatchEnd | src/main/java/ImageSearchIndexingUtil.java:186-192 | `find()` of `[0-9A-Za-z]*` at `i` matches the longest run of ASCII letters and digits there |
| UrlTokens.ParseUrl | src/main/java/ImageSearchIndexingUtil.java:189-197 | the loop's result is `ParsedUrl`: the maximal alphanumeric runs of the input, in order, joined by single spaces |
| UrlTokens.TokensKeepEveryAlnum | src/main/java/ImageSearchIndexingUtil.java:189-197 | the tokens, written one after another, are exactly the input's letters and digits in order: none is lost or invented |
| UrlTokens.ParsedUrlSingleSpaced | src/main/java/ImageSearchIndexingUtil.java:193-196 | the result holds only letters, digits and spaces, has no space at either end, and never two spaces in a row |
| UrlTokens.ParsedUrlEmpty | src/main/java/ImageSearchIndexingUtil.java:189-197 | the result is empty exactly when the input has no ASCII letter or digit |
| UrlTokens.TokensOfJoin | src/main/java/ImageSearchIndexingUtil.java:189-197 | tokenizing tokens joined by spaces gives back the same tokens |
| UrlTokens.ParsedUrlIdempotent | src/main/java/ImageSearchIndexingUtil.java:189-197 | `parseURL(parseURL(s)) == parseURL(s)` |
| UrlTokens.Trim | src/main/java/ImageSearchIndexingUtil.java:193-196 | `trim()`: neither end of the result is a character up to U+0020, it is no longer than the input, and it is empty exactly when the input is all such characters |
| UrlTokens.TrimIsSlice | src/main/java/ImageSearchIndexingUtil.java:193-196 | what `trim()` keeps is the slice of the input that starts where the leading characters up to U+0020 end; every character before and after that slice is such a character |
| Base64.EncodedLength | src/main/java/data/ImageData.java:32 | the encoding of `n` bytes has `4 * ceil(n / 3)` characters |
| Base64.Encode | src/main/java/data/ImageData.java:32 | `Base64.encode`: a whole number of four-character groups, at least one for a non-empty payload, with `=` only among the last two characters |
| Base64.Decode | src/main/java/data/ImageData.java:141 | `Base64.decode`: only a text made of whole four-character groups decodes, to three bytes per group except that the last group may carry one or two |
| Base64.DecodeEncode | src/main/java/data/ImageData.java:120-122 | decoding the encoding of any byte string gives the bytes back |
| Base64.EncodeDecode | src/main/java/data/ImageData.java:140-142 | any text that decodes encodes back to itself: decoding is strict and each byte string has one encoding |
| ImageRecords.ImageData.constructor | src/main/java/data/ImageData.java:25-35 | every field is set from its argument, the payload is stored Base64-encoded and `getBytesArray` returns it whole; the content hash is unset and the dimensions zero |
| ImageRecords.ImageData.GetBytesArray | src/main/java/data/ImageData.java:140-142 | the stored text decoded, or `null` when it is not Base64; whatever it returns encodes back to the stored text |
| ImageRecords.ImageData.ToString | src/main/java/data/ImageData.java:38-40 | the description `"mime": url` determines the mimetype and the url when the mimetype holds no quote |
| ImageRecords.Describe | src/main/java/data/ImageData.java:39 | `String.format("\"%s\": %s", ...)`: a quote, the mimetype, a quote, a colon and a space, then the url, at those positions |
| ImageRecords.DescribeInjective | src/main/java/data/ImageData.java:38-40 | two quote-free mimetypes with their urls that describe alike are the same mimetype and url |
| ImageRecords.ImageData.CompareTo | src/main/java/data/ImageData.java:43-45 | negative exactly when this record's capture time is earlier than the argument, zero exactly when they are equal, positive exactly when it is later |
| ImageRecords.CompareTimestampsAntisymmetric | src/main/java/data/ImageData.java:43-45 | swapping the two capture times flips the sign of the comparison |
| ImageRecords.BeforeTransitive | src/main/java/data/ImageData.java:43-45 | the time-line order the comparison follows is transitive |
| ImageRecords.ImageData.SetImageHashKey | src/main/java/data/ImageData.java:52-54 | sets the image hash key; every other field is unchanged |
| ImageRecords.ImageData.SetTimestamp | src/main/java/data/ImageData.java:60-62 | sets the capture time; every other field is unchanged |
| ImageRecords.ImageData.SetUrl | src/main/java/data/ImageData.java:68-70 | sets the url; every other field is unchanged |
| ImageRecords.ImageData.SetSurt | src/main/java/data/ImageData.java:76-78 | sets the SURT; every other field is unchanged |
| ImageRecords.ImageData.SetMimeReported | src/main/java/data/ImageData.java:84-86 | sets the reported mimetype; every other field is unchanged |
| ImageRecords.ImageData.SetMimeDetected | src/main/java/data/ImageData.java:92-94 | sets the detected mimetype; every other field is unchanged |
| ImageRecords.ImageData.SetCollection | src/main/java/data/ImageData.java:100-102 | sets the collection; every other field is unchanged |
| ImageRecords.ImageData.SetContentHash | src/main/java/data/ImageData.java:108-110 | sets the content hash; every other field is unchanged |
| ImageRecords.ImageData.SetBytes | src/main/java/data/ImageData.java:116-118 | stores the text as given, so `getBytesArray` then returns its decoding (or `null`); every other field is unchanged |
| ImageRecords.ImageData.SetBytesFromArray | src/main/java/data/ImageData.java:120-122 | stores the payload Base64-encoded, so `getBytesArray` then returns it whole; every other field is unchanged |
| ImageRecords.ImageData.SetWidth | src/main/java/data/ImageData.java:128-130 | sets the width; every other field is unchanged |
| ImageRecords.ImageData.SetHeight | src/main/java/data/ImageData.java:136-138 | sets the height; every other field is unchanged |
| ImageRecords.SettersAgree | src/main/java/data/ImageData.java:116-122 | `setBytes(text)` on one record and `setBytes(payload)` on another, where `text` decodes to `payload`, leave both holding `text` and both `getBytesArray` returning `payload` |

## Left out

- `md5ofString` (`ImageSearchIndexingUtil.java:30-32`) and `guessEncoding` (lines 172-184) are not modelled. They are thin calls into MD5 hashing and charset detection from libraries outside this model.
- The webarchive-commons readers (`ARCReaderFactory`, `WARCReaderFactory`, their iterators and records) are not modelled. They are given as what they yield: an open failure, or a sequence of advanced records and failed advances. `WARCRecordResponseEncapsulated` is given as its outcome: a wrapper with an error count, or the kind of exception it throws. The consumer is given as whether it returns or throws.
- Exceptions from `hasNext()` are not modelled. Neither are `Error`s and other `Throwable`s that are not `Exception`s. Both escape the loops uncaught.
- The header reads at lines 126-127 stand outside the `try` and are modelled as total. A `null` record type is modelled: it makes `equalsIgnoreCase` throw inside the `try`, and the generic clause catches it.
- Logging (log4j) is left out. The logged `records`/`errors` tallies are returned instead. The Hadoop counters are the fields of `ImageCounters`.
- An `IOException` from `reader.close()` is swallowed by the source. The model only reports that the close was attempted.
- `record.close()` in `getRecordContentBytes` is modelled as always succeeding.
- ArcRecords.ReadArcRecords: does not model the 32-bit wrap-around of the `records`/`errors` tallies, which would need more than 2^31 records in one file.
- WarcRecords.ReadWarcRecords: does not model the 32-bit wrap-around of the `records`/`errors` tallies, for the same reason.
- Base64 is modelled as strict section 4 of RFC 4648: no line breaks and canonical padding bits. Xerces' decoder also strips whitespace before decoding. That is not modelled, so `GetBytesArray` returns `None` for Base64 text containing whitespace, where the source would decode it.
- JavaText.ToLower: lower-cases ASCII letters only. Java's `toLowerCase()` applies the full Unicode mapping (`"É"` becomes `"é"`), can change the length (U+0130 becomes `i` followed by U+0307), and follows the default locale (under `tr`, `I` becomes U+0131). The constant keys at lines 133-134 are ASCII, so for them the two agree; for `MimetypeFieldKey`, which is left open, `ResourceHeaders` holds only for the ASCII lower-casing.
- WarcRecords.Classify: folds case on ASCII letters only, while Java's `equalsIgnoreCase` uses the full Unicode case mapping. The record type comes from the file and need not be ASCII: Java routes `"re\u017Fource"` (with the long s, whose upper case is `S`) to the `resource` branch, and `Classify` returns `Other` for it.
- JavaText.EqualsIgnoreCaseIsLowerEqual: holds for the ASCII-only folding of `JavaText.ToLower` and `JavaText.EqualsIgnoreCase`; for Java's full case mapping it fails, for example on `"\u017F"` against `"s"`, which `equalsIgnoreCase` accepts but whose lower-case forms differ.
- `ImageData.constructor` takes the capture time already parsed. `WARCInformationParser.parseLocalDateTime` is not part of this model, so an unparsable or `null` timestamp is not modelled.
- `Timestamp` is not range-checked. The comparison follows `LocalDateTime.compareTo` field by field.
- WarcRecords.ResourceHeaders: `MIMETYPE_FIELD_KEY` is defined outside the files modelled here, so `MimetypeFieldKey` is left open and the contract holds for every value. The map has two keys when the key lower-cases to `content-type` and three otherwise. The length entry is promised only when the key does not lower-case to `content-length`.
- Getters are not separate members. They return the class's fields, which the model reads directly.
- `null` string and array arguments are not modelled, apart from the `null` record type and mimetype of a WARC header and the unset content hash.
- The chunk size of 16 KiB (`ChunkSize`) only bounds each `read`. `GetRecordContentBytes` is proved for every way the stream splits the body, so the chunking itself carries no property.
