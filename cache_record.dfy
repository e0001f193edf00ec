/**
 * The on-disk record of one template class:
 *   utf8(fingerprint) ++ [0] ++ utf8(java source, empty for an inner class) ++ [0] ++ bytecode,
 * and what the load side makes of a record: two `read() != 0` scans, then the rest of
 * the file (its length less the chars read and the two delimiters) as the bytecode.
 */
module CacheRecord {
  import opened Options
  import opened Bytes
  import opened Seqs

  /** The bytes of the source field: none when the class has no java source (an inner class). */
  function SourceBytes(javaSource: Option<string>): seq<byte>
  {
    if javaSource.None? then [] else Utf8(javaSource.value)
  }

  /** The record `cacheTemplateClass` writes. */
  function EncodeRecord(hash: string, javaSource: Option<string>, byteCode: seq<byte>): seq<byte>
  {
    Utf8(hash) + [0] + SourceBytes(javaSource) + [0] + byteCode
  }

  predicate HasZeroFrom(data: seq<byte>, from: nat)
  {
    exists k :: from <= k < |data| && data[k] == 0
  }

  /** The position of the first 0 at or after `from`: where a `read() != 0` loop stops. */
  function FindZero(data: seq<byte>, from: nat): (r: nat)
    requires HasZeroFrom(data, from)
    ensures from <= r < |data| && data[r] == 0
    ensures forall k :: from <= k < r ==> data[k] != 0
    decreases |data| - from
  {
    if data[from] == 0 then from else FindZero(data, from + 1)
  }

  /**
   * The two scans of the load side end: a 0 follows the fingerprint and, when the
   * fingerprint matches `curHash`, another 0 follows the source. On any other record a
   * scan never stops at a 0: past the end `read()` returns -1, which the scan appends as
   * U+FFFF until memory runs out, so the load never returns normally.
   */
  predicate WellFramed(data: seq<byte>, curHash: string)
  {
    && HasZeroFrom(data, 0)
    && (Latin1(data[..FindZero(data, 0)]) == curHash ==> HasZeroFrom(data, FindZero(data, 0) + 1))
  }

  /** What a load attempt finds. */
  datatype Lookup =
    | Disabled                                  // caching is switched off
    | Absent                                    // no readable record
    | Stale                                     // the stored fingerprint differs
    | Hit(source: string, byteCode: seq<byte>)  // source field (may be empty) and bytecode

  /** What the load side reads from an existing record, given the current fingerprint. */
  function DecodeRecord(data: seq<byte>, curHash: string): (r: Lookup)
    requires WellFramed(data, curHash)
    ensures r.Stale? || r.Hit?
    ensures r.Hit? ==> |r.source| + |r.byteCode| + 2 <= |data|
  {
    var i := FindZero(data, 0);
    if Latin1(data[..i]) != curHash then
      Stale
    else
      var j := FindZero(data, i + 1);
      Hit(Latin1(data[i + 1..j]), data[j + 1..])
  }

  /** `DecodeRecord` step by step, as the load side reads: the fingerprint field decides
   *  between a stale record and a hit, whose fields are read after it. */
  lemma DecodeFields(data: seq<byte>, curHash: string, i: nat)
    requires WellFramed(data, curHash) && i == FindZero(data, 0)
    ensures Latin1(data[0..i]) != curHash ==> DecodeRecord(data, curHash) == Stale
    ensures Latin1(data[0..i]) == curHash ==>
              && HasZeroFrom(data, i + 1)
              && var j := FindZero(data, i + 1);
                 DecodeRecord(data, curHash) == Hit(Latin1(data[i + 1..j]), data[j + 1..])
  {
    assert data[0..i] == data[..i];
  }

  /** A `read() != 0` scan from `from` stops at `stop` when `stop` holds the first 0. */
  lemma ScanStops(data: seq<byte>, from: nat, stop: nat)
    requires from <= stop < |data| && data[stop] == 0
    requires forall k :: from <= k < stop ==> data[k] != 0
    ensures HasZeroFrom(data, from) && FindZero(data, from) == stop
    decreases stop - from
  {
    if from < stop {
      ScanStops(data, from + 1, stop);
    }
  }

  /** Where the fields of `h ++ [0] ++ s ++ [0] ++ b` lie. */
  lemma Fields(h: seq<byte>, s: seq<byte>, b: seq<byte>)
    ensures var rec := h + [0] + s + [0] + b;
            && |rec| == |h| + 1 + |s| + 1 + |b|
            && rec[..|h|] == h && rec[|h|] == 0
            && rec[|h| + 1..|h| + 1 + |s|] == s && rec[|h| + 1 + |s|] == 0
            && rec[|h| + 1 + |s| + 1..] == b
  {
    var rec := h + [0] + s + [0] + b;
    assert rec[..|h|] == h;
    assert rec[|h| + 1..|h| + 1 + |s|] == s;
    assert rec[|h| + 1 + |s| + 1..] == b;
  }

  /**
   * What the load side makes of a record with NUL-free fingerprint bytes `h` and source
   * bytes `s`: stale unless `h` reads back as the current fingerprint, and otherwise a
   * hit with the source field `s` and exactly the bytecode `b`.
   */
  lemma DecodeLayout(h: seq<byte>, s: seq<byte>, b: seq<byte>, curHash: string)
    requires 0 !in h && 0 !in s
    ensures WellFramed(h + [0] + s + [0] + b, curHash)
    ensures DecodeRecord(h + [0] + s + [0] + b, curHash)
            == if Latin1(h) == curHash then Hit(Latin1(s), b) else Stale
  {
    var rec := h + [0] + s + [0] + b;
    var n := |h| + 1;
    Fields(h, s, b);
    forall k | 0 <= k < |h| ensures rec[k] != 0 {
      assert rec[k] == rec[..|h|][k];
    }
    ScanStops(rec, 0, |h|);
    forall k | n <= k < n + |s| ensures rec[k] != 0 {
      assert rec[k] == rec[n..n + |s|][k - n];
    }
    ScanStops(rec, n, n + |s|);
  }

  /** The bytes of a NUL-free fingerprint and of a NUL-free source contain no 0. */
  lemma NoZeroFields(hash: string, javaSource: Option<string>)
    requires '\0' !in hash
    requires javaSource.Some? ==> '\0' !in javaSource.value
    ensures 0 !in Utf8(hash) && 0 !in SourceBytes(javaSource)
  {
    Utf8HasZero(hash);
    if javaSource.Some? {
      Utf8HasZero(javaSource.value);
    }
  }

  /**
   * Store then load: a record stamped with an ASCII, NUL-free fingerprint and a NUL-free
   * source is well framed, is a hit for that fingerprint, and gives back the bytecode
   * exactly, whatever bytes (0 included) it holds.
   */
  lemma RecordRoundTrip(hash: string, javaSource: Option<string>, byteCode: seq<byte>)
    requires IsAscii(hash) && '\0' !in hash
    requires javaSource.Some? ==> '\0' !in javaSource.value
    ensures WellFramed(EncodeRecord(hash, javaSource, byteCode), hash)
    ensures DecodeRecord(EncodeRecord(hash, javaSource, byteCode), hash)
            == Hit(Latin1(SourceBytes(javaSource)), byteCode)
  {
    NoZeroFields(hash, javaSource);
    Latin1Utf8Ascii(hash);
    DecodeLayout(Utf8(hash), SourceBytes(javaSource), byteCode, hash);
  }

  /** The source field of an ASCII source reads back as that source; an absent one as "". */
  lemma SourceFieldAscii(javaSource: Option<string>)
    requires javaSource.Some? ==> IsAscii(javaSource.value)
    ensures Latin1(SourceBytes(javaSource)) == if javaSource.None? then "" else javaSource.value
  {
    if javaSource.Some? {
      Latin1Utf8Ascii(javaSource.value);
    }
  }

  /**
   * A record stamped with another fingerprint is stale, whatever its source holds:
   * the second scan is never reached.
   */
  lemma StaleRecord(hash: string, curHash: string, javaSource: Option<string>, byteCode: seq<byte>)
    requires IsAscii(hash) && '\0' !in hash
    requires curHash != hash
    ensures WellFramed(EncodeRecord(hash, javaSource, byteCode), curHash)
    ensures DecodeRecord(EncodeRecord(hash, javaSource, byteCode), curHash) == Stale
  {
    var h := Utf8(hash);
    var rec := EncodeRecord(hash, javaSource, byteCode);
    Utf8HasZero(hash);
    Latin1Utf8Ascii(hash);
    Fields(h, SourceBytes(javaSource), byteCode);
    forall k | 0 <= k < |h| ensures rec[k] != 0 {
      assert rec[k] == rec[..|h|][k];
    }
    ScanStops(rec, 0, |h|);
  }

  /**
   * A record cut off anywhere inside its bytecode still loads, as a hit whose bytecode is
   * cut short by the same amount: the load side cannot tell it from a complete record.
   */
  lemma TruncatedRecordLoadsShort(hash: string, javaSource: Option<string>, byteCode: seq<byte>, k: nat)
    requires IsAscii(hash) && '\0' !in hash
    requires javaSource.Some? ==> '\0' !in javaSource.value
    requires k <= |byteCode|
    ensures var rec := EncodeRecord(hash, javaSource, byteCode);
            var cut := rec[..|rec| - (|byteCode| - k)];
            && WellFramed(cut, hash)
            && DecodeRecord(cut, hash) == Hit(Latin1(SourceBytes(javaSource)), byteCode[..k])
  {
    var rec := EncodeRecord(hash, javaSource, byteCode);
    var short := EncodeRecord(hash, javaSource, byteCode[..k]);
    CutTail(Utf8(hash) + [0] + SourceBytes(javaSource) + [0], byteCode, k);
    assert rec[..|rec| - (|byteCode| - k)] == short;
    RecordRoundTrip(hash, javaSource, byteCode[..k]);
  }

  /** Cutting bytes off the end of `head ++ tail` cuts them off `tail`. */
  lemma CutTail(head: seq<byte>, tail: seq<byte>, k: nat)
    requires k <= |tail|
    ensures (head + tail)[..|head + tail| - (|tail| - k)] == head + tail[..k]
  {
  }

  /**
   * A U+0000 in the source ends the source field early: the source `a` ++ U+0000 ++ `b`
   * loads as just `a`, and the bytes of `b`, the 0 and the real bytecode load as bytecode.
   */
  lemma NulInSourceShiftsByteCode(hash: string, a: string, b: string, byteCode: seq<byte>)
    requires IsAscii(hash) && '\0' !in hash && '\0' !in a
    ensures WellFramed(EncodeRecord(hash, Some(a + "\0" + b), byteCode), hash)
    ensures DecodeRecord(EncodeRecord(hash, Some(a + "\0" + b), byteCode), hash)
            == Hit(Latin1(Utf8(a)), Utf8(b) + [0] + byteCode)
  {
    NulRecordBytes(hash, a, b, byteCode);
    Utf8HasZero(hash);
    Utf8HasZero(a);
    Latin1Utf8Ascii(hash);
    DecodeLayout(Utf8(hash), Utf8(a), Utf8(b) + [0] + byteCode, hash);
  }

  /** The record of the source `a` ++ U+0000 ++ `b`, regrouped at the U+0000. */
  lemma NulRecordBytes(hash: string, a: string, b: string, byteCode: seq<byte>)
    ensures EncodeRecord(hash, Some(a + "\0" + b), byteCode)
            == Utf8(hash) + [0] + Utf8(a) + [0] + (Utf8(b) + [0] + byteCode)
  {
    NulSourceBytes(a, b);
    Regroup(Utf8(hash) + [0], Utf8(a), Utf8(b), byteCode);
  }

  /** The encoding of `a` ++ U+0000 ++ `b` splits at the 0 byte. */
  lemma NulSourceBytes(a: string, b: string)
    ensures Utf8(a + "\0" + b) == Utf8(a) + ([0] + Utf8(b))
  {
    Assoc(a, "\0", b);
    Utf8Append(a, "\0" + b);
    Utf8Append("\0", b);
    Utf8Nul();
  }

  lemma Regroup(p: seq<byte>, x: seq<byte>, y: seq<byte>, c: seq<byte>)
    ensures p + (x + ([0] + y)) + [0] + c == p + x + [0] + (y + [0] + c)
  {
    var q := p + x + [0];
    Assoc(p, x, [0] + y);
    Assoc(p + x, [0], y);
    Assoc(q + y, [0], c);
    Assoc(q, y, [0] + c);
    Assoc(y, [0], c);
  }
}
