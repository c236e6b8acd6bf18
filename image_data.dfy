/**
 * `ImageData`: the record the indexer builds for each image it finds.  It
 * keeps the image's bytes as Base64 text, reads them back on demand, and
 * orders itself against a capture time.
 */
module ImageRecords {
  import opened Wrappers
  import opened Bytes
  import Base64

  /** Java's `int`. */
  newtype int32 = x: int | -0x8000_0000 <= x < 0x8000_0000

  /** A `LocalDateTime`: a date, then a time of day down to the nanosecond. */
  datatype Timestamp = Timestamp(year: int, month: int, day: int,
                                 hour: int, minute: int, second: int, nano: int)

  /** `Integer.compare`. */
  function Compare(a: int, b: int): (r: int)
    ensures r == -1 || r == 0 || r == 1
    ensures r < 0 <==> a < b
    ensures r == 0 <==> a == b
  {
    if a < b then -1 else if a == b then 0 else 1
  }

  /**
   * `LocalDateTime.compareTo`: the date parts compare by difference
   * (year, then month, then day, as `LocalDate.compareTo0` does), the time
   * parts with `Integer.compare` (as `LocalTime.compareTo` does).
   */
  function CompareTimestamps(a: Timestamp, b: Timestamp): int
  {
    if a.year != b.year then a.year - b.year
    else if a.month != b.month then a.month - b.month
    else if a.day != b.day then a.day - b.day
    else if a.hour != b.hour then Compare(a.hour, b.hour)
    else if a.minute != b.minute then Compare(a.minute, b.minute)
    else if a.second != b.second then Compare(a.second, b.second)
    else Compare(a.nano, b.nano)
  }

  /** `LocalDateTime.isBefore`: `a` is earlier on the time line than `b`. */
  predicate Before(a: Timestamp, b: Timestamp)
  {
    || a.year < b.year
    || (a.year == b.year && a.month < b.month)
    || (a.year == b.year && a.month == b.month && a.day < b.day)
    || (a.year == b.year && a.month == b.month && a.day == b.day && a.hour < b.hour)
    || (a.year == b.year && a.month == b.month && a.day == b.day && a.hour == b.hour && a.minute < b.minute)
    || (a.year == b.year && a.month == b.month && a.day == b.day && a.hour == b.hour && a.minute == b.minute
        && a.second < b.second)
    || (a.year == b.year && a.month == b.month && a.day == b.day && a.hour == b.hour && a.minute == b.minute
        && a.second == b.second && a.nano < b.nano)
  }

  /**
   * The sign of the comparison is the time-line order: negative exactly
   * when `a` is earlier, zero exactly when they are the same instant,
   * positive exactly when `a` is later.
   */
  lemma CompareTimestampsSign(a: Timestamp, b: Timestamp)
    ensures CompareTimestamps(a, b) < 0 <==> Before(a, b)
    ensures CompareTimestamps(a, b) == 0 <==> a == b
    ensures CompareTimestamps(a, b) > 0 <==> Before(b, a)
  {
  }

  /** Swapping the arguments flips the sign, as `Comparable` requires. */
  lemma CompareTimestampsAntisymmetric(a: Timestamp, b: Timestamp)
    ensures CompareTimestamps(a, b) < 0 <==> CompareTimestamps(b, a) > 0
    ensures CompareTimestamps(a, b) == 0 <==> CompareTimestamps(b, a) == 0
  {
    CompareTimestampsSign(a, b);
    CompareTimestampsSign(b, a);
  }

  /** The time-line order is transitive. */
  lemma BeforeTransitive(a: Timestamp, b: Timestamp, c: Timestamp)
    requires Before(a, b) && Before(b, c)
    ensures Before(a, c)
  {
  }

  /** `String.format("\"%s\": %s", mimeReported, url)`. */
  function Describe(mimeReported: string, url: string): (s: string)
    ensures |s| == |mimeReported| + |url| + 4
    ensures s[0] == '"' && s[1..|mimeReported| + 1] == mimeReported
    ensures s[|mimeReported| + 1..|mimeReported| + 4] == "\": " && s[|mimeReported| + 4..] == url
  {
    "\"" + mimeReported + "\": " + url
  }

  /**
   * When the mimetype holds no quote, its description can be read back:
   * the first quote after the opening one ends the mimetype, and the url
   * follows the separator.
   */
  lemma DescribeInjective(m1: string, u1: string, m2: string, u2: string)
    requires '"' !in m1 && '"' !in m2
    requires Describe(m1, u1) == Describe(m2, u2)
    ensures m1 == m2 && u1 == u2
  {
    ClosingQuote(m1, u1);
    ClosingQuote(m2, u2);
  }

  /** The quote that closes the mimetype is the first one after the opening quote. */
  lemma ClosingQuote(m: string, u: string)
    requires '"' !in m
    ensures Describe(m, u)[|m| + 1] == '"'
    ensures forall k :: 1 <= k <= |m| ==> Describe(m, u)[k] != '"'
  {
    forall k | 1 <= k <= |m|
      ensures Describe(m, u)[k] != '"'
    {
      assert Describe(m, u)[k] == m[k - 1];
    }
  }

  class ImageData {
    var imageHashKey: string
    var timestamp: Timestamp
    var url: string
    var surt: string
    var mimeReported: string
    var mimeDetected: string
    var collection: string
    /** `null` until it is set. */
    var contentHash: Option<string>
    /** The image's bytes, as Base64 text. */
    var bytes: string
    var width: int32
    var height: int32

    /**
     * `new ImageData(imageHashKey, timestamp, url, surt, mimeReported,
     * mimeDetected, collection, bytes)`.  The capture time comes already
     * parsed; the payload is stored Base64-encoded, so it reads back whole;
     * the content hash is unset and the dimensions are zero.
     */
    constructor (imageHashKey: string, timestamp: Timestamp, url: string, surt: string,
                 mimeReported: string, mimeDetected: string, collection: string, payload: seq<byte>)
      ensures this.imageHashKey == imageHashKey && this.timestamp == timestamp && this.url == url
      ensures this.surt == surt && this.mimeReported == mimeReported && this.mimeDetected == mimeDetected
      ensures this.collection == collection && contentHash == None && width == 0 && height == 0
      ensures bytes == Base64.Encode(payload)
      ensures GetBytesArray() == Some(payload)
    {
      this.imageHashKey := imageHashKey;
      this.url := url;
      this.surt := surt;
      this.mimeReported := mimeReported;
      this.mimeDetected := mimeDetected;
      this.collection := collection;
      this.bytes := Base64.Encode(payload);
      this.timestamp := timestamp;
      contentHash := None;
      width, height := 0, 0;
      Base64.DecodeEncode(payload);
    }

    /**
     * `getBytesArray()`: the stored text, decoded; `None` (Java's `null`)
     * when it is not Base64.  Whatever it returns encodes back to the
     * stored text.
     */
    function GetBytesArray(): (r: Option<seq<byte>>)
      reads this
      ensures r.Some? ==> Base64.Encode(r.value) == bytes
    {
      var r := Base64.Decode(bytes);
      if r.Some? then Base64.EncodeDecode(bytes, r.value); r else r
    }

    /** `toString()`: the reported mimetype in quotes, then the url. */
    function ToString(): (s: string)
      reads this
      ensures '"' !in mimeReported ==>
                forall m, u :: '"' !in m && Describe(m, u) == s ==> m == mimeReported && u == url
    {
      forall m, u | '"' !in mimeReported && '"' !in m && Describe(m, u) == Describe(mimeReported, url)
        ensures m == mimeReported && u == url
      {
        DescribeInjective(m, u, mimeReported, url);
      }
      Describe(mimeReported, url)
    }

    /** `compareTo(timestamp)`: this record's capture time against another. */
    function CompareTo(other: Timestamp): (r: int)
      reads this
      ensures r < 0 <==> Before(timestamp, other)
      ensures r == 0 <==> timestamp == other
      ensures r > 0 <==> Before(other, timestamp)
    {
      CompareTimestampsSign(timestamp, other);
      CompareTimestamps(timestamp, other)
    }

    method SetImageHashKey(imageHashKey: string)
      modifies this
      ensures this.imageHashKey == imageHashKey
      ensures timestamp == old(timestamp) && url == old(url) && surt == old(surt)
      ensures mimeReported == old(mimeReported) && mimeDetected == old(mimeDetected) && collection == old(collection)
      ensures contentHash == old(contentHash) && bytes == old(bytes) && width == old(width) && height == old(height)
    {
      this.imageHashKey := imageHashKey;
    }

    method SetTimestamp(timestamp: Timestamp)
      modifies this
      ensures this.timestamp == timestamp
      ensures imageHashKey == old(imageHashKey) && url == old(url) && surt == old(surt)
      ensures mimeReported == old(mimeReported) && mimeDetected == old(mimeDetected) && collection == old(collection)
      ensures contentHash == old(contentHash) && bytes == old(bytes) && width == old(width) && height == old(height)
    {
      this.timestamp := timestamp;
    }

    method SetUrl(url: string)
      modifies this
      ensures this.url == url
      ensures imageHashKey == old(imageHashKey) && timestamp == old(timestamp) && surt == old(surt)
      ensures mimeReported == old(mimeReported) && mimeDetected == old(mimeDetected) && collection == old(collection)
      ensures contentHash == old(contentHash) && bytes == old(bytes) && width == old(width) && height == old(height)
    {
      this.url := url;
    }

    method SetSurt(surt: string)
      modifies this
      ensures this.surt == surt
      ensures imageHashKey == old(imageHashKey) && timestamp == old(timestamp) && url == old(url)
      ensures mimeReported == old(mimeReported) && mimeDetected == old(mimeDetected) && collection == old(collection)
      ensures contentHash == old(contentHash) && bytes == old(bytes) && width == old(width) && height == old(height)
    {
      this.surt := surt;
    }

    method SetMimeReported(mimeReported: string)
      modifies this
      ensures this.mimeReported == mimeReported
      ensures imageHashKey == old(imageHashKey) && timestamp == old(timestamp) && url == old(url) && surt == old(surt)
      ensures mimeDetected == old(mimeDetected) && collection == old(collection)
      ensures contentHash == old(contentHash) && bytes == old(bytes) && width == old(width) && height == old(height)
    {
      this.mimeReported := mimeReported;
    }

    method SetMimeDetected(mimeDetected: string)
      modifies this
      ensures this.mimeDetected == mimeDetected
      ensures imageHashKey == old(imageHashKey) && timestamp == old(timestamp) && url == old(url) && surt == old(surt)
      ensures mimeReported == old(mimeReported) && collection == old(collection)
      ensures contentHash == old(contentHash) && bytes == old(bytes) && width == old(width) && height == old(height)
    {
      this.mimeDetected := mimeDetected;
    }

    method SetCollection(collection: string)
      modifies this
      ensures this.collection == collection
      ensures imageHashKey == old(imageHashKey) && timestamp == old(timestamp) && url == old(url) && surt == old(surt)
      ensures mimeReported == old(mimeReported) && mimeDetected == old(mimeDetected)
      ensures contentHash == old(contentHash) && bytes == old(bytes) && width == old(width) && height == old(height)
    {
      this.collection := collection;
    }

    method SetContentHash(contentHash: string)
      modifies this
      ensures this.contentHash == Some(contentHash)
      ensures imageHashKey == old(imageHashKey) && timestamp == old(timestamp) && url == old(url) && surt == old(surt)
      ensures mimeReported == old(mimeReported) && mimeDetected == old(mimeDetected) && collection == old(collection)
      ensures bytes == old(bytes) && width == old(width) && height == old(height)
    {
      this.contentHash := Some(contentHash);
    }

    /** `setBytes(String)`: the text is stored as given, whether or not it is Base64. */
    method SetBytes(text: string)
      modifies this
      ensures bytes == text && GetBytesArray() == Base64.Decode(text)
      ensures imageHashKey == old(imageHashKey) && timestamp == old(timestamp) && url == old(url) && surt == old(surt)
      ensures mimeReported == old(mimeReported) && mimeDetected == old(mimeDetected) && collection == old(collection)
      ensures contentHash == old(contentHash) && width == old(width) && height == old(height)
    {
      bytes := text;
    }

    /** `setBytes(byte[])`: the payload is stored encoded, and reads back whole. */
    method SetBytesFromArray(payload: seq<byte>)
      modifies this
      ensures bytes == Base64.Encode(payload) && GetBytesArray() == Some(payload)
      ensures imageHashKey == old(imageHashKey) && timestamp == old(timestamp) && url == old(url) && surt == old(surt)
      ensures mimeReported == old(mimeReported) && mimeDetected == old(mimeDetected) && collection == old(collection)
      ensures contentHash == old(contentHash) && width == old(width) && height == old(height)
    {
      bytes := Base64.Encode(payload);
      Base64.DecodeEncode(payload);
    }

    method SetWidth(width: int32)
      modifies this
      ensures this.width == width
      ensures imageHashKey == old(imageHashKey) && timestamp == old(timestamp) && url == old(url) && surt == old(surt)
      ensures mimeReported == old(mimeReported) && mimeDetected == old(mimeDetected) && collection == old(collection)
      ensures contentHash == old(contentHash) && bytes == old(bytes) && height == old(height)
    {
      this.width := width;
    }

    method SetHeight(height: int32)
      modifies this
      ensures this.height == height
      ensures imageHashKey == old(imageHashKey) && timestamp == old(timestamp) && url == old(url) && surt == old(surt)
      ensures mimeReported == old(mimeReported) && mimeDetected == old(mimeDetected) && collection == old(collection)
      ensures contentHash == old(contentHash) && bytes == old(bytes) && width == old(width)
    {
      this.height := height;
    }
  }

  /**
   * `setBytes(String)` with a text that decodes to a payload, and
   * `setBytes(byte[])` with that payload, leave the two records holding
   * the same text and reading back the same bytes.
   */
  method SettersAgree(a: ImageData, b: ImageData, text: string, payload: seq<byte>)
    requires Base64.Decode(text) == Some(payload)
    modifies a, b
    ensures a.bytes == b.bytes == text
    ensures a.GetBytesArray() == b.GetBytesArray() == Some(payload)
  {
    a.SetBytes(text);
    b.SetBytesFromArray(payload);
    Base64.EncodeDecode(text, payload);
  }
}
