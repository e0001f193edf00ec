/**
 * `TemplateClassCache`: stores the generated java source and the enhanced bytecode of a
 * template class in `<tmpDir>/<name0>.rythm`, stamped with the template's fingerprint,
 * and restores them when the fingerprint still matches.
 */
module Compiler {
  import opened Options
  import opened Bytes
  import opened Fingerprint
  import opened CacheRecord

  /** `new File(dir, name)`. */
  datatype Path = Path(dir: string, name: string)

  /** The file system the cache works on. A file can be read exactly when it is present. */
  class FileSystem {
    var files: map<Path, seq<byte>>

    constructor (files: map<Path, seq<byte>>)
      ensures this.files == files
    {
      this.files := files;
    }
  }

  /** What the cache takes from the engine: `cacheEnabled()`, `tmpDir`, `RythmEngine.version`
   *  and the class names of `templateClassEnhancers`, in order. */
  datatype EngineConfig = EngineConfig(cacheEnabled: bool, tmpDir: string, version: string,
                                       enhancerNames: seq<string>)

  /** The parts of a template class that the cache reads and writes. */
  class TemplateClass {
    const name0: string                 // name0()
    var templateSource: string          // getTemplateSource(true)
    var javaSource: Option<string>      // null for an inner class
    var enhancedByteCode: seq<byte>
    var javaByteCode: Option<seq<byte>> // what compiled(byte[]) last received

    constructor (name0: string, templateSource: string, javaSource: Option<string>,
                 enhancedByteCode: seq<byte>)
      ensures this.name0 == name0 && this.templateSource == templateSource
      ensures this.javaSource == javaSource && this.enhancedByteCode == enhancedByteCode
      ensures javaByteCode == None
    {
      this.name0 := name0;
      this.templateSource := templateSource;
      this.javaSource := javaSource;
      this.enhancedByteCode := enhancedByteCode;
      javaByteCode := None;
    }
  }

  const RecordSuffix := ".rythm"
  const SourceSuffix := ".java"

  class TemplateClassCache {
    const engine: EngineConfig
    const md5: seq<byte> -> Digest
    const fs: FileSystem

    constructor (engine: EngineConfig, md5: seq<byte> -> Digest, fs: FileSystem)
      ensures this.engine == engine && this.md5 == md5 && this.fs == fs
    {
      this.engine := engine;
      this.md5 := md5;
      this.fs := fs;
    }

    function CacheFileName(tc: TemplateClass, suffix: string): string
    {
      tc.name0 + suffix
    }

    /** The record file of a template class. */
    function CacheFile(tc: TemplateClass): Path
    {
      Path(engine.tmpDir, CacheFileName(tc, RecordSuffix))
    }

    /** The file that holds a copy of the generated java source. */
    function CacheSourceFile(tc: TemplateClass): Path
    {
      Path(engine.tmpDir, CacheFileName(tc, SourceSuffix))
    }

    /** `hash(tc)` for the template source `tc` has now. */
    function CurrentHash(tc: TemplateClass): string
      reads tc
    {
      Fingerprint.FingerprintOf(md5, engine.version, engine.enhancerNames, tc.templateSource)
    }

    /** A load of `tc` ends: its record, if a load reads one, is well framed. */
    predicate LoadEnds(tc: TemplateClass)
      reads fs, tc
    {
      engine.cacheEnabled && CacheFile(tc) in fs.files ==>
        WellFramed(fs.files[CacheFile(tc)], CurrentHash(tc))
    }

    /** What `loadTemplateClass(tc)` finds in the current state. */
    function LookupOf(tc: TemplateClass): CacheRecord.Lookup
      requires LoadEnds(tc)
      reads fs, tc
    {
      if !engine.cacheEnabled then Disabled
      else if CacheFile(tc) !in fs.files then Absent
      else DecodeRecord(fs.files[CacheFile(tc)], CurrentHash(tc))
    }

    /** `deleteCache`: removes the record if there is one; not gated by `cacheEnabled`. */
    method DeleteCache(tc: TemplateClass)
      modifies fs
      ensures fs.files == old(fs.files) - {CacheFile(tc)}
      ensures CacheFile(tc) !in fs.files
    {
      var f := CacheFile(tc);
      if f in fs.files {
        fs.files := fs.files - {f};
      }
    }

    /** `hash`: the enhancer names are joined, the joined input digested, and each digest
     *  byte appended in hex. */
    method Hash(tc: TemplateClass) returns (r: string)
      ensures r == CurrentHash(tc)
    {
      var names := engine.enhancerNames;
      var enhancers := "";
      for k := 0 to |names|
        invariant enhancers == Concat(names[..k])
      {
        ConcatStep(names, k);
        enhancers := enhancers + names[k];
      }
      assert names[..|names|] == names;
      var digest := md5(Utf8(engine.version + enhancers + tc.templateSource));
      var builder := "";
      for k := 0 to |digest|
        invariant builder == HexOf(digest[..k])
      {
        var value := digest[k] as int;
        if value < 0 {
          value := value + 256;
        }
        HexOfStep(digest, k);
        builder := builder + ToHexString(value);
      }
      assert digest[..|digest|] == digest;
      r := builder;
    }

    /**
     * `loadTemplateClass`: on a hit, a non-empty stored source replaces `javaSource` and
     * the bytecode is handed to `compiled`; on any miss `tc` is left as it was. The file
     * system is never changed.
     */
    method LoadTemplateClass(tc: TemplateClass)
      requires LoadEnds(tc)
      modifies tc
      ensures tc.templateSource == old(tc.templateSource)
      ensures tc.enhancedByteCode == old(tc.enhancedByteCode)
      ensures old(LookupOf(tc)).Hit? ==>
                && tc.javaSource == (if old(LookupOf(tc)).source == "" then old(tc.javaSource)
                                     else Some(old(LookupOf(tc)).source))
                && tc.javaByteCode == Some(old(LookupOf(tc)).byteCode)
      ensures !old(LookupOf(tc)).Hit? ==>
                tc.javaSource == old(tc.javaSource) && tc.javaByteCode == old(tc.javaByteCode)
    {
      ghost var found := LookupOf(tc);
      if !engine.cacheEnabled {
        return;
      }
      var f := CacheFile(tc);
      if f !in fs.files {
        return;
      }
      var curHash := Hash(tc);
      var r := ReadRecord(fs.files[f], curHash);
      if r.Hit? {
        if |r.source| != 0 {
          tc.javaSource := Some(r.source);
        }
        tc.javaByteCode := Some(r.byteCode);
      }
    }

    /**
     * The reads of `loadTemplateClass` on the bytes of an existing record: the fingerprint
     * up to the first 0, compared with `curHash`; on a match the source up to the next 0,
     * then as bytecode as many bytes as the file length less the chars read and the two
     * delimiters. (The Java code computes `hash(tc)` after the first scan; both are free of
     * side effects, so the order does not matter.)
     */
    static method ReadRecord(data: seq<byte>, curHash: string) returns (r: CacheRecord.Lookup)
      requires WellFramed(data, curHash)
      ensures r.Stale? || r.Hit?
      ensures r == DecodeRecord(data, curHash)
    {
      // The fingerprint field, compared with the current fingerprint.
      var offset := 0;
      var hash, pos := ReadToZero(data, 0);
      offset := offset + |hash|;
      DecodeFields(data, curHash, pos - 1);
      if curHash != hash {
        return Stale;
      }
      // The source field.
      var source;
      source, pos := ReadToZero(data, pos);
      offset := offset + |source|;
      assert pos == offset + 2;
      // Whatever follows the second delimiter is taken as bytecode.
      var byteCode := data[pos..pos + (|data| - (offset + 2))];
      assert byteCode == data[pos..];
      return Hit(source, byteCode);
    }

    /**
     * One delimiter scan of the load side, starting at stream position `from`: every byte
     * before the next 0 becomes one char, and the scan resumes just past that 0.
     */
    static method ReadToZero(data: seq<byte>, from: nat) returns (text: string, next: nat)
      requires HasZeroFrom(data, from)
      ensures next == FindZero(data, from) + 1
      ensures text == Latin1(data[from..next - 1])
    {
      ghost var stop := FindZero(data, from);
      var pos := from;
      text := "";
      while data[pos] != 0
        invariant from <= pos <= stop
        invariant text == Latin1(data[from..pos])
        decreases stop - pos
      {
        Latin1Snoc(data[from..pos], data[pos]);
        assert data[from..pos + 1] == data[from..pos] + [data[pos]];
        text := text + [data[pos] as int as char];
        pos := pos + 1;
      }
      next := pos + 1;
    }

    /**
     * `cacheTemplateClassSource`: writes the UTF-8 source to the `.java` file. The stream
     * is opened (and the file emptied) before the source is read, so a class without
     * source leaves an empty file and fails with `ok == false`.
     */
    method CacheTemplateClassSource(tc: TemplateClass) returns (ok: bool)
      modifies fs
      ensures !engine.cacheEnabled ==> ok && fs.files == old(fs.files)
      ensures engine.cacheEnabled ==>
                && ok == tc.javaSource.Some?
                && fs.files == old(fs.files)[CacheSourceFile(tc) := SourceBytes(tc.javaSource)]
    {
      if !engine.cacheEnabled {
        return true;
      }
      var f := CacheSourceFile(tc);
      fs.files := fs.files[f := []];
      if tc.javaSource.None? {
        return false;
      }
      fs.files := fs.files[f := Utf8(tc.javaSource.value)];
      ok := true;
    }

    /**
     * `cacheTemplateClass`: (re)writes the record of `tc`: fingerprint, 0, source (none
     * for an inner class), 0, enhanced bytecode. No other file changes.
     */
    method CacheTemplateClass(tc: TemplateClass)
      modifies fs
      ensures !engine.cacheEnabled ==> fs.files == old(fs.files)
      ensures engine.cacheEnabled ==>
                fs.files == old(fs.files)[CacheFile(tc) :=
                  EncodeRecord(CurrentHash(tc), tc.javaSource, tc.enhancedByteCode)]
    {
      if !engine.cacheEnabled {
        return;
      }
      var hash := Hash(tc);
      var f := CacheFile(tc);
      fs.files := fs.files[f := []];
      var os := WriteRecord(hash, tc.javaSource, tc.enhancedByteCode);
      fs.files := fs.files[f := os];
    }

    /** The bytes `cacheTemplateClass` sends to the record file, in the order it writes them. */
    static method WriteRecord(hash: string, javaSource: Option<string>, byteCode: seq<byte>)
      returns (os: seq<byte>)
      ensures os == EncodeRecord(hash, javaSource, byteCode)
    {
      // Fingerprint field.
      os := Utf8(hash);
      // Delimiter, then the source field (empty for an inner class).
      os := os + [0];
      if javaSource.Some? {
        os := os + Utf8(javaSource.value);
      }
      assert os == Utf8(hash) + [0] + SourceBytes(javaSource);
      // Delimiter, then the bytecode.
      os := os + [0];
      os := os + byteCode;
    }

    /** The record and the source copy of a class lie in one directory and differ only in
     *  their suffix. */
    lemma PathsDifferBySuffix(tc: TemplateClass)
      ensures CacheFile(tc).dir == CacheSourceFile(tc).dir == engine.tmpDir
      ensures CacheFile(tc).name == tc.name0 + RecordSuffix
      ensures CacheSourceFile(tc).name == tc.name0 + SourceSuffix
      ensures CacheFile(tc) != CacheSourceFile(tc)
    {
      assert CacheFile(tc).name[|tc.name0| + 1] == 'r';
      assert CacheSourceFile(tc).name[|tc.name0| + 1] == 'j';
    }

    /** Classes with different names have different records, so storing or deleting one
     *  never touches another's. */
    lemma DistinctNamesDistinctFiles(tc1: TemplateClass, tc2: TemplateClass, suffix: string)
      requires tc1.name0 != tc2.name0
      ensures CacheFileName(tc1, suffix) != CacheFileName(tc2, suffix)
    {
      SuffixCancel(tc1.name0, tc2.name0, suffix);
    }
  }

  lemma SuffixCancel(x: string, y: string, suffix: string)
    ensures x + suffix == y + suffix ==> x == y
  {
    if x + suffix == y + suffix {
      assert x == (x + suffix)[..|x|];
      assert y == (y + suffix)[..|y|];
    }
  }

  /** Store then load on a class whose state did not change restores its bytecode exactly
   *  and, for ASCII source, its source. */
  method StoreThenLoad(cache: TemplateClassCache, tc: TemplateClass)
    requires cache.engine.cacheEnabled
    requires tc.javaSource.Some? ==> '\0' !in tc.javaSource.value
    modifies cache.fs, tc
    ensures cache.CacheFile(tc) in cache.fs.files
    ensures tc.javaByteCode == Some(old(tc.enhancedByteCode))
    ensures (old(tc.javaSource).Some? ==> IsAscii(old(tc.javaSource).value)) ==>
              tc.javaSource == old(tc.javaSource)
  {
    cache.CacheTemplateClass(tc);
    var h := cache.CurrentHash(tc);
    FingerprintShape(cache.md5, cache.engine.version, cache.engine.enhancerNames, tc.templateSource);
    RecordRoundTrip(h, tc.javaSource, tc.enhancedByteCode);
    if tc.javaSource.Some? && IsAscii(tc.javaSource.value) {
      SourceFieldAscii(tc.javaSource);
    }
    assert cache.LookupOf(tc) == Hit(Latin1(SourceBytes(tc.javaSource)), tc.enhancedByteCode);
    cache.LoadTemplateClass(tc);
  }

  /** After the template source is edited, a record stored before the edit is stale: the
   *  load leaves the class alone and the record stays in place. */
  method StaleAfterEdit(cache: TemplateClassCache, tc: TemplateClass, edited: string)
    requires cache.engine.cacheEnabled
    requires Fingerprint.FingerprintOf(cache.md5, cache.engine.version, cache.engine.enhancerNames, edited)
             != cache.CurrentHash(tc)
    modifies cache.fs, tc
    ensures tc.templateSource == edited
    ensures tc.javaSource == old(tc.javaSource) && tc.javaByteCode == old(tc.javaByteCode)
    ensures cache.CacheFile(tc) in cache.fs.files
    ensures cache.fs.files[cache.CacheFile(tc)]
            == EncodeRecord(old(cache.CurrentHash(tc)), old(tc.javaSource), old(tc.enhancedByteCode))
  {
    cache.CacheTemplateClass(tc);
    var h := cache.CurrentHash(tc);
    FingerprintShape(cache.md5, cache.engine.version, cache.engine.enhancerNames, tc.templateSource);
    tc.templateSource := edited;
    StaleRecord(h, cache.CurrentHash(tc), tc.javaSource, tc.enhancedByteCode);
    assert cache.LookupOf(tc) == Stale;
    cache.LoadTemplateClass(tc);
  }

  /** After deleteCache a load finds nothing and leaves the class alone. */
  method DeleteThenLoad(cache: TemplateClassCache, tc: TemplateClass)
    modifies cache.fs, tc
    ensures cache.CacheFile(tc) !in cache.fs.files
    ensures tc.javaSource == old(tc.javaSource) && tc.javaByteCode == old(tc.javaByteCode)
  {
    cache.DeleteCache(tc);
    assert cache.LookupOf(tc).Disabled? || cache.LookupOf(tc).Absent?;
    cache.LoadTemplateClass(tc);
  }
}
