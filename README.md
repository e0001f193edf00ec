# Rythm template class cache and `@import` parser, in Dafny

This project models two pieces of the Rythm template engine.

**The compiled-template cache (`TemplateClassCache`).** For each template class the cache
writes one record file, `<name0>.rythm`, in the engine's temporary directory. The record holds:

- the UTF-8 bytes of the template's fingerprint,
- a `0` byte,
- the UTF-8 bytes of the generated java source (nothing for an inner class),
- another `0` byte,
- the enhanced bytecode.

On load the cache reads the fingerprint up to the first `0` and compares it with a freshly
computed one. On a match it reads the source up to the next `0` and takes the rest of the
file as the bytecode: its length less the chars read and the two delimiters. The fingerprint is the MD5 digest of
engine version + enhancer class names + template source. Each digest byte is printed with
`Integer.toHexString`.

**The `@import` directive (`ImportParser.go()`).** Once the directive pattern matches, the
parser consumes the directive. It then splits the import list on runs of commas and
whitespace and hands each token to the code builder. A `static` token only marks the next
token as a static import.

Modules, one per component:

- `Bytes` (bytes.dfy): the byte type and `String.getBytes("utf-8")` as UTF-8 encoding (section 3 of RFC 3629). It also models the load side's `(char) read` as one char per byte.
- `Fingerprint` (fingerprint.dfy): `Integer.toHexString`, the hex text of a digest, and the fingerprint function.
- `CacheRecord` (cache_record.dfy): the record layout as a function. It also gives what the two `read() != 0` scans and the remainder read make of a record, and the round-trip and stale-record lemmas.
- `Compiler` (template_class_cache.dfy): the classes `FileSystem`, `TemplateClass` and `TemplateClassCache`. Their methods are store, source store, load, delete and hash, with loops where the Java code has them. Client methods show store→load, edit→stale and delete→miss.
- `StringSplit` (string_split.dfy): Java's `split("[,\\s]+")`. A leading separator run leaves an empty first token. Trailing empty tokens are dropped. `""` splits to `[""]`.
- `BuildIn` (import_parser.dfy): `CodeBuilder.addImport`, the parser cursor, and `go()` with its `statik` flag loop, proved against the reference function `Imports`.
- `Options` (options.dfy): `Option`, standing for Java's nullable references.

Where the code differs from what such a cache is usually taken to promise, the model follows the code:

- Digest bytes are not zero-padded. Two different 16-byte digests can therefore share a fingerprint (`UnpaddedHexCollides`). A fingerprint is 16 to 32 chars long, not 32.
- `deleteCache` ignores the `cacheEnabled` flag.
- `loadTemplateClass` returns nothing. A hit shows only in the fields of `tc`.
- On a record that lacks a delimiter, a load scan never stops at a 0. At the end of the file `read()` returns -1, and the scan appends `(char) -1`, U+FFFF, for every -1 until the builder exhausts memory, so the load never returns normally. The model therefore requires well-framed records for a load.
- A U+0000 in the source is written as a 0 byte, the record's own delimiter. The source field then ends early, and the rest of the source is read as the start of the bytecode, so the bytecode does not survive the round trip (`NulInSourceShiftsByteCode`). This is why `StoreThenLoad` requires NUL-free source.
- A record cut off inside its bytecode is not detected. Both scans stop, and the load reads the shorter remainder as the bytecode, so it reports a hit with truncated bytecode (`TruncatedRecordLoadsShort`). A cache that never loads a truncated record as complete would need a stored length, which this record format does not have.
- The store side writes the source as UTF-8, but the load side reads it back one byte per char. So a non-ASCII source does not survive the round trip (`Latin1Utf8NonAscii`).

## Model

| member | source | states |
|---|---|---|
| `Bytes.EncodeChar` | src/main/java/com/greenlaw110/rythm/internal/compiler/TemplateClassCache.java:119 | UTF-8 of one char is 1 to 4 bytes. It is one byte, equal to the char's code, exactly for ASCII. It contains a 0 byte exactly when the char is U+0000 |
| `Bytes.Utf8` | src/main/java/com/greenlaw110/rythm/internal/compiler/TemplateClassCache.java:119-124 | `getBytes("utf-8")`: each char encodes to 1 to 4 bytes, so the encoding is at least as long as the text and at most four times as long |
| `Bytes.Latin1` | src/main/java/com/greenlaw110/rythm/internal/compiler/TemplateClassCache.java:56-58 | `(char) read`: one char per byte read, with the byte's value as its code |
| `Bytes.Latin1Snoc` | src/main/java/com/greenlaw110/rythm/internal/compiler/TemplateClassCache.java:57 | reading one more byte appends one more char to the builder |
| `Bytes.Utf8Append` | src/main/java/com/greenlaw110/rythm/internal/compiler/TemplateClassCache.java:162 | encoding a concatenation is the concatenation of the encodings |
| `Bytes.Utf8Nul` | src/main/java/com/greenlaw110/rythm/internal/compiler/TemplateClassCache.java:124 | U+0000 in a source is written as the single byte 0, the record's own delimiter |
| `Bytes.Utf8HasZero` | src/main/java/com/greenlaw110/rythm/internal/compiler/TemplateClassCache.java:119-124 | the encoded text contains a 0 byte if and only if the text contains U+0000 |
| `Bytes.Utf8Ascii` | src/main/java/com/greenlaw110/rythm/internal/compiler/TemplateClassCache.java:119 | ASCII text encodes one byte per char, each byte the char's code |
| `Bytes.Latin1Utf8Ascii` | src/main/java/com/greenlaw110/rythm/internal/compiler/TemplateClassCache.java:69-74 | ASCII text stored as UTF-8 and read back byte by byte is the same text |
| `Bytes.Latin1Utf8NonAscii` | src/main/java/com/greenlaw110/rythm/internal/compiler/TemplateClassCache.java:69-74 | any source holding a non-ASCII char, stored as UTF-8 and read back one char per byte, comes back longer than it was, so it is not restored |
| `Bytes.Utf8Longer` | src/main/java/com/greenlaw110/rythm/internal/compiler/TemplateClassCache.java:124 | text holding a non-ASCII char encodes to more bytes than it has chars |
| `Fingerprint.HexDigit` | src/main/java/com/greenlaw110/rythm/internal/compiler/TemplateClassCache.java:170 | a hex digit value maps to a char of [0-9a-f] |
| `Fingerprint.DigitValue` | src/main/java/com/greenlaw110/rythm/internal/compiler/TemplateClassCache.java:170 | the inverse of the digit map: a [0-9a-f] char maps back to the value printing it |
| `Fingerprint.ToHexString` | src/main/java/com/greenlaw110/rythm/internal/compiler/TemplateClassCache.java:170 | `Integer.toHexString` of 0..255 is [0-9a-f] text: one digit below 16, else two digits with no leading zero |
| `Fingerprint.ToHexStringValue` | src/main/java/com/greenlaw110/rythm/internal/compiler/TemplateClassCache.java:170 | reading the hex digits back gives the byte value, so one byte's text loses nothing |
| `Fingerprint.Unsigned` | src/main/java/com/greenlaw110/rythm/internal/compiler/TemplateClassCache.java:166-169 | a signed digest byte becomes the value in 0..255 equal to it modulo 256 |
| `Fingerprint.HexOf` | src/main/java/com/greenlaw110/rythm/internal/compiler/TemplateClassCache.java:164-171 | the text the builder holds after each digest byte is appended in hex; `HexOfShape` and `HexOfAppend` state its length and how it composes |
| `Fingerprint.HexOfAppend` | src/main/java/com/greenlaw110/rythm/internal/compiler/TemplateClassCache.java:165-171 | the hex text of two byte runs one after the other is the first run's text followed by the second's |
| `Fingerprint.Concat` | src/main/java/com/greenlaw110/rythm/internal/compiler/TemplateClassCache.java:156-159 | the enhancer class names appended in registration order; `ConcatStep` is one more name |
| `Fingerprint.ConcatStep` | src/main/java/com/greenlaw110/rythm/internal/compiler/TemplateClassCache.java:158 | appending one more enhancer name appends exactly that name |
| `Fingerprint.HexOfStep` | src/main/java/com/greenlaw110/rythm/internal/compiler/TemplateClassCache.java:170 | appending one more digest byte appends exactly its `toHexString` text |
| `Fingerprint.FingerprintOf` | src/main/java/com/greenlaw110/rythm/internal/compiler/TemplateClassCache.java:154-176 | `hash(tc)`: the hex text of the digest of the UTF-8 bytes of version + names + template source; `FingerprintShape` and `FingerprintInputs` state what it promises |
| `Fingerprint.HexOfShape` | src/main/java/com/greenlaw110/rythm/internal/compiler/TemplateClassCache.java:164-171 | each digest byte adds one or two hex digits, and nothing but hex digits |
| `Fingerprint.HexTextIsAscii` | src/main/java/com/greenlaw110/rythm/internal/compiler/TemplateClassCache.java:119 | hex text is ASCII and never contains U+0000 |
| `Fingerprint.FingerprintShape` | src/main/java/com/greenlaw110/rythm/internal/compiler/TemplateClassCache.java:154-176 | every fingerprint is 16 to 32 chars of [0-9a-f]. So it is ASCII and never contains the record delimiter |
| `Fingerprint.FingerprintInputs` | src/main/java/com/greenlaw110/rythm/internal/compiler/TemplateClassCache.java:156-162 | the fingerprint depends on version, enhancer names and template source only through their concatenation |
| `Fingerprint.UnpaddedHexCollides` | src/main/java/com/greenlaw110/rythm/internal/compiler/TemplateClassCache.java:164-171 | without zero padding, two different 16-byte digests, one starting 01 23 and the other 12 03 with the same other fourteen bytes, print the same fingerprint |
| `CacheRecord.EncodeRecord` | src/main/java/com/greenlaw110/rythm/internal/compiler/TemplateClassCache.java:114-144 | the bytes `cacheTemplateClass` writes: fingerprint, 0, source (none for an inner class), 0, bytecode; `RecordRoundTrip` and `StaleRecord` say what the load side makes of them |
| `CacheRecord.WellFramed` | src/main/java/com/greenlaw110/rythm/internal/compiler/TemplateClassCache.java:53-72 | the record holds a 0 after the fingerprint and, when the fingerprint matches, another after the source: the records on which every scan the load runs stops at a 0 |
| `CacheRecord.DecodeRecord` | src/main/java/com/greenlaw110/rythm/internal/compiler/TemplateClassCache.java:53-88 | what the load side reads from an existing record: stale or a hit, never disabled or absent, and a hit's source and bytecode fit in the record beside the two delimiters |
| `CacheRecord.FindZero` | src/main/java/com/greenlaw110/rythm/internal/compiler/TemplateClassCache.java:56-59 | a `read() != 0` scan stops at the first 0 at or after its start |
| `CacheRecord.DecodeLayout` | src/main/java/com/greenlaw110/rythm/internal/compiler/TemplateClassCache.java:53-88 | a record with NUL-free fingerprint bytes and NUL-free source bytes can be read to the end. It is stale unless the fingerprint field reads back as the current fingerprint. Otherwise it is a hit with exactly that source field and bytecode |
| `CacheRecord.RecordRoundTrip` | src/main/java/com/greenlaw110/rythm/internal/compiler/TemplateClassCache.java:53-88 | take a record written with an ASCII NUL-free fingerprint and NUL-free source. It is well framed and a hit for that fingerprint. It gives back the source field and exactly the bytecode, even when the bytecode contains 0 bytes |
| `CacheRecord.SourceFieldAscii` | src/main/java/com/greenlaw110/rythm/internal/compiler/TemplateClassCache.java:68-75 | the source field reads back as the stored ASCII source, and as "" for a class without source |
| `CacheRecord.StaleRecord` | src/main/java/com/greenlaw110/rythm/internal/compiler/TemplateClassCache.java:60-64 | a record stamped with a different fingerprint is stale, whatever its source holds |
| `CacheRecord.TruncatedRecordLoadsShort` | src/main/java/com/greenlaw110/rythm/internal/compiler/TemplateClassCache.java:85-88 | a record cut off anywhere inside its bytecode still loads as a hit, with the bytecode cut short by the same number of bytes |
| `CacheRecord.NulInSourceShiftsByteCode` | src/main/java/com/greenlaw110/rythm/internal/compiler/TemplateClassCache.java:66-88 | for every fingerprint and source a ++ U+0000 ++ b with a free of U+0000: the load returns as the source only the bytes of a, read back one char per byte, and as the bytecode the bytes of b, a 0 and the real bytecode |
| `Compiler.TemplateClassCache.CacheFileName` | src/main/java/com/greenlaw110/rythm/internal/compiler/TemplateClassCache.java:178-180 | the class's `name0` followed by the suffix; `DistinctNamesDistinctFiles` states that it tells classes apart |
| `Compiler.TemplateClassCache.CacheFile` | src/main/java/com/greenlaw110/rythm/internal/compiler/TemplateClassCache.java:185-188 | the record file `tmpDir/name0.rythm`; `PathsDifferBySuffix` relates it to the source copy |
| `Compiler.TemplateClassCache.CacheSourceFile` | src/main/java/com/greenlaw110/rythm/internal/compiler/TemplateClassCache.java:190-193 | the source copy `tmpDir/name0.java` |
| `Compiler.TemplateClassCache.CurrentHash` | src/main/java/com/greenlaw110/rythm/internal/compiler/TemplateClassCache.java:60 | the fingerprint of the class as it is now, the one a load compares with |
| `Compiler.TemplateClassCache.LookupOf` | src/main/java/com/greenlaw110/rythm/internal/compiler/TemplateClassCache.java:42-88 | what a load of the class would find now: disabled, no readable record, stale, or a hit with the decoded fields; `LoadTemplateClass` is proved against it |
| `Compiler.TemplateClassCache.DeleteCache` | src/main/java/com/greenlaw110/rythm/internal/compiler/TemplateClassCache.java:27-36 | afterwards no record exists for the class, and every other file is unchanged. An absent record is no error, and the operation runs even with caching disabled |
| `Compiler.TemplateClassCache.Hash` | src/main/java/com/greenlaw110/rythm/internal/compiler/TemplateClassCache.java:154-176 | the two loops, joining the enhancer names and appending digest bytes in hex, compute the fingerprint of version + names + template source |
| `Compiler.TemplateClassCache.ReadToZero` | src/main/java/com/greenlaw110/rythm/internal/compiler/TemplateClassCache.java:56-59 | the scan returns the chars read before the next 0 and the stream position just past that 0 |
| `Compiler.TemplateClassCache.LoadTemplateClass` | src/main/java/com/greenlaw110/rythm/internal/compiler/TemplateClassCache.java:42-94 | when disabled, absent or stale, the class is unchanged. On a hit, a non-empty stored source replaces `javaSource` (an empty one leaves it), and `compiled` receives the rest of the file. The file system is never changed |
| `Compiler.TemplateClassCache.ReadRecord` | src/main/java/com/greenlaw110/rythm/internal/compiler/TemplateClassCache.java:52-88 | the two scans, the fingerprint comparison and the remainder read (file length less the chars read and the two delimiters) give what the record decodes to: stale or a hit, never anything else |
| `Compiler.TemplateClassCache.CacheTemplateClassSource` | src/main/java/com/greenlaw110/rythm/internal/compiler/TemplateClassCache.java:96-108 | when disabled, nothing is written. Otherwise only the `.java` file changes, and it holds the UTF-8 source. A class without source leaves it empty and reports failure, where the Java code throws |
| `Compiler.TemplateClassCache.CacheTemplateClass` | src/main/java/com/greenlaw110/rythm/internal/compiler/TemplateClassCache.java:110-148 | when disabled, nothing is written. Otherwise only the record file changes, and it holds fingerprint, 0, source (none for an inner class), 0, bytecode |
| `Compiler.TemplateClassCache.WriteRecord` | src/main/java/com/greenlaw110/rythm/internal/compiler/TemplateClassCache.java:118-142 | the writes of fingerprint, 0, source (if any), 0 and bytecode, in that order, produce exactly the record `EncodeRecord` describes |
| `Compiler.TemplateClassCache.PathsDifferBySuffix` | src/main/java/com/greenlaw110/rythm/internal/compiler/TemplateClassCache.java:178-193 | the record and the source copy are `tmpDir/name0.rythm` and `tmpDir/name0.java`: same directory, different files |
| `Compiler.TemplateClassCache.DistinctNamesDistinctFiles` | src/main/java/com/greenlaw110/rythm/internal/compiler/TemplateClassCache.java:178-180 | classes with different names get different cache file names |
| `Compiler.SuffixCancel` | src/main/java/com/greenlaw110/rythm/internal/compiler/TemplateClassCache.java:179 | two names with the same suffix appended are equal only if the names are equal |
| `Compiler.StoreThenLoad` | src/main/java/com/greenlaw110/rythm/internal/compiler/TemplateClassCache.java:42-148 | store then load, with caching enabled and NUL-free source, restores the enhanced bytecode exactly, and an ASCII source unchanged |
| `Compiler.StaleAfterEdit` | src/main/java/com/greenlaw110/rythm/internal/compiler/TemplateClassCache.java:60-64 | after the template source changes its fingerprint, a load leaves the class alone and the old record stays in place |
| `Compiler.DeleteThenLoad` | src/main/java/com/greenlaw110/rythm/internal/compiler/TemplateClassCache.java:27-49 | after `deleteCache`, a load finds no record and leaves the class alone |
| `StringSplit.Pieces` | src/main/java/com/greenlaw110/rythm/internal/parser/build_in/ImportParser.java:38 | the pieces between maximal runs of commas and whitespace, empty ones included; there is always at least one, and `PiecesShape` states their shape |
| `StringSplit.Split` | src/main/java/com/greenlaw110/rythm/internal/parser/build_in/ImportParser.java:38 | `split("[,\\s]+")`: the pieces with trailing empty ones dropped, and `[""]` for the empty string; `SplitShape` and `SplitJoinWith` state what it promises |
| `StringSplit.DropSeparators` | src/main/java/com/greenlaw110/rythm/internal/parser/build_in/ImportParser.java:38 | removes exactly the leading run of commas and whitespace |
| `StringSplit.DropTrailingEmpty` | src/main/java/com/greenlaw110/rythm/internal/parser/build_in/ImportParser.java:38 | keeps a prefix of the pieces that ends in a non-empty piece, dropping only empty pieces |
| `StringSplit.PiecesShape` | src/main/java/com/greenlaw110/rythm/internal/parser/build_in/ImportParser.java:38 | no piece contains a separator, and inner pieces are non-empty. The first piece is empty exactly when the text is empty or starts with a separator |
| `StringSplit.SplitShape` | src/main/java/com/greenlaw110/rythm/internal/parser/build_in/ImportParser.java:38 | tokens contain no separator, and none but the first is empty. The first is non-empty when the text starts with a non-separator. There is no token at all exactly when the text is non-empty and made of separators only |
| `StringSplit.PiecesOfRun` | src/main/java/com/greenlaw110/rythm/internal/parser/build_in/ImportParser.java:38 | text made of separators only has just two empty pieces, which are both dropped as trailing |
| `StringSplit.NonEmptyPiece` | src/main/java/com/greenlaw110/rythm/internal/parser/build_in/ImportParser.java:38 | text holding a non-separator has a non-empty piece, which survives the dropping of trailing empty pieces |
| `StringSplit.PiecesPrefix` | src/main/java/com/greenlaw110/rythm/internal/parser/build_in/ImportParser.java:38 | a separator-free word in front of some text joins the first piece of that text |
| `StringSplit.JoinWith` | src/main/java/com/greenlaw110/rythm/internal/parser/build_in/ImportParser.java:38 | tokens joined by separator runs; `SplitJoinWith` shows that `Split` gives the tokens back |
| `StringSplit.DropRun` | src/main/java/com/greenlaw110/rythm/internal/parser/build_in/ImportParser.java:38 | a separator run is consumed up to the first non-separator after it and no further |
| `StringSplit.PiecesJoinWith` | src/main/java/com/greenlaw110/rythm/internal/parser/build_in/ImportParser.java:38 | the pieces of tokens joined by arbitrary separator runs are the tokens, plus one empty piece when a run ends the text |
| `StringSplit.SplitJoinWith` | src/main/java/com/greenlaw110/rythm/internal/parser/build_in/ImportParser.java:38 | splitting well-formed tokens joined by arbitrary runs of commas and whitespace, such as `a.*, b.*`, gives back exactly the tokens. A run in front adds one empty first token, and a run at the end adds nothing |
| `BuildIn.CodeBuilder.AddImport` | src/main/java/com/greenlaw110/rythm/internal/parser/build_in/ImportParser.java:44 | the import is appended to the builder's import list |
| `BuildIn.ImportFor` | src/main/java/com/greenlaw110/rythm/internal/parser/build_in/ImportParser.java:42-44 | the import added for a token: `"static " + tok` when the token before it is `static`, else `tok` |
| `BuildIn.Imports` | src/main/java/com/greenlaw110/rythm/internal/parser/build_in/ImportParser.java:41-47 | the imports the loop adds for a token list; `ImportsInOrder` states which and in what order |
| `BuildIn.ImportsStep` | src/main/java/com/greenlaw110/rythm/internal/parser/build_in/ImportParser.java:41-47 | one more token adds nothing for `static`, and otherwise its import, prefixed when the token before it is `static` |
| `BuildIn.NonStaticIndices` | src/main/java/com/greenlaw110/rythm/internal/parser/build_in/ImportParser.java:41-47 | lists, in ascending order, exactly the positions of the tokens that are not `static` |
| `BuildIn.ImportsInOrder` | src/main/java/com/greenlaw110/rythm/internal/parser/build_in/ImportParser.java:41-47 | there is one import per non-`static` token, in token order. Each is `"static " + tok` exactly when the token before it is `static`, and `tok` otherwise |
| `BuildIn.StaticNeverImported` | src/main/java/com/greenlaw110/rythm/internal/parser/build_in/ImportParser.java:42 | `static` is never an import |
| `BuildIn.TrailingStaticAddsNothing` | src/main/java/com/greenlaw110/rythm/internal/parser/build_in/ImportParser.java:41-47 | a `static` at the end of the list adds nothing |
| `BuildIn.RepeatedStatic` | src/main/java/com/greenlaw110/rythm/internal/parser/build_in/ImportParser.java:42-46 | `static static x` yields the single import `static x` |
| `BuildIn.LeadingSeparatorImportsEmpty` | src/main/java/com/greenlaw110/rythm/internal/parser/build_in/ImportParser.java:38-46 | for any import list that starts with a separator, the first import is the empty string when the list holds a non-separator, and a list made of separators only adds no import |
| `BuildIn.ImportParser.Remain` | src/main/java/com/greenlaw110/rythm/internal/parser/build_in/ImportParser.java:27 | the template text not consumed yet, the text the directive pattern is matched against |
| `BuildIn.ImportParser.Step` | src/main/java/com/greenlaw110/rythm/internal/parser/build_in/ImportParser.java:30 | the cursor advances by exactly the given number of characters |
| `BuildIn.ImportParser.Go` | src/main/java/com/greenlaw110/rythm/internal/parser/build_in/ImportParser.java:26-49 | without a match, nothing is consumed, nothing is imported and no directive is returned. With a match, exactly group 1 is consumed, the imports of group 2's tokens are appended in order, and an empty directive is returned. In the loop the `statik` flag always equals "the previous token was `static`" |

## Left out

- File I/O: streams, buffering, `f.exists()`, `f.canRead()` and `f.delete()`. The file system is a map from paths to bytes. A record can be read exactly when it is in the map, so an unreadable existing file is not modelled.
- I/O failures and their `RuntimeException`s (disk full, permission denied, short reads from `is.read(byteCode)`) are not modelled. The one failure modelled is the `null` source in `cacheTemplateClassSource`: the Java code throws after the file has been emptied, and the model returns `ok == false` with the file emptied.
- `File(dir, name)` path normalisation: a path is the pair (directory, name).
- MD5: the digest is a parameter, any function to 16 bytes. Collisions are therefore not ruled out, and a changed input is proved stale only when its fingerprint differs.
- Java strings holding unpaired UTF-16 surrogates: Dafny chars are Unicode scalar values, so `getBytes("utf-8")` is modelled on scalar values only.
- `(int) f.length()` truncation for files of 2 GiB and more.
- A `null` `enhancedByteCode`, which throws from `os.write` after part of the record is buffered. In the model the bytecode is always present.
- The bodies of `TemplateClass.compiled(byte[])`, `name0()` and `getTemplateSource(true)` lie outside the two files modelled. The model stands in for `compiled` by recording the bytes it receives in `javaByteCode`, and for the other two by fields.
- The bodies of `CodeBuilder.addImport`, `ParserBase.step`, `remain()` and `builder()` lie outside the two files modelled. The model stands in for them by appending to a list, advancing a cursor, taking the suffix of the template text from the cursor, and a fixed builder.
- The regular expression engine: the match of the directive pattern is an input to `Go`, given as no match or as groups 1 and 2.
- Logging and the engine as a global: the engine settings are an `EngineConfig` value given to the cache.
- The commented-out class-version code in load and store; `RawParser.java` and `CodeToken.java`.
- Concurrency and atomic replacement of records: the code has neither.
- Compiler.TemplateClassCache.LoadTemplateClass: requires the record, when one is read, to have a 0 after the fingerprint, and another after the source when the fingerprint matches. On any other record a Java scan never stops at a 0: it appends U+FFFF for every -1 that `read()` returns at the end of the file, until the builder exhausts memory, so the load never returns normally.
- Compiler.StoreThenLoad: promises the source back only for ASCII source. The load side reads UTF-8 bytes as one char per byte.
- BuildIn.ImportParser.Go: requires group 1 to be a prefix of the remaining text, which the anchored `matches()` guarantees.
