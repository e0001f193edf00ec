/**
 * The fingerprint that stamps a cache record: the MD5 digest of
 * engine version + enhancer class names + template source, each digest byte
 * written with `Integer.toHexString`, which does not zero-pad.
 */
module Fingerprint {
  import opened Bytes
  import opened Seqs

  /** An MD5 digest: 16 Java bytes. */
  type Digest = d: seq<int8> | |d| == 16 witness seq(16, _ => 0 as int8)

  /** A char of [0-9a-f]. */
  predicate IsHexDigit(c: char) {
    '0' <= c <= '9' || 'a' <= c <= 'f'
  }

  predicate IsHexText(s: string) {
    forall i :: 0 <= i < |s| ==> IsHexDigit(s[i])
  }

  /** `Character.forDigit(k, 16)`: the lower-case digit for 0 <= k < 16. */
  function HexDigit(k: int): (c: char)
    requires 0 <= k < 16
    ensures IsHexDigit(c)
  {
    if k < 10 then ('0' as int + k) as char else ('a' as int + k - 10) as char
  }

  /** The value of one lower-case hex digit. */
  function DigitValue(c: char): (v: int)
    requires IsHexDigit(c)
    ensures 0 <= v < 16 && HexDigit(v) == c
  {
    if '0' <= c <= '9' then c as int - '0' as int else c as int - 'a' as int + 10
  }

  /** The value of a string of hex digits, most significant digit first. */
  function HexValue(s: string): nat
    requires IsHexText(s)
  {
    if s == [] then 0 else HexValue(s[..|s| - 1]) * 16 + DigitValue(s[|s| - 1])
  }

  /** `Integer.toHexString(v)` for 0 <= v < 256: base 16, lower case, no leading zero. */
  function ToHexString(v: int): (r: string)
    requires 0 <= v < 256
    ensures IsHexText(r)
    ensures |r| == (if v < 16 then 1 else 2)
    ensures |r| == 2 ==> r[0] != '0'
  {
    if v < 16 then [HexDigit(v)] else [HexDigit(v / 16), HexDigit(v % 16)]
  }

  /** Reading the digits back gives the value: `toHexString` loses nothing for one byte. */
  lemma ToHexStringValue(v: int)
    requires 0 <= v < 256
    ensures HexValue(ToHexString(v)) == v
  {
    var r := ToHexString(v);
    if v >= 16 {
      assert r[..1] == [r[0]] && [r[0]][..0] == [];
      assert DigitValue(r[0]) == v / 16 && DigitValue(r[1]) == v % 16;
      assert HexValue(r[..1]) == v / 16;
    } else {
      assert r[..0] == [];
    }
  }

  /** A Java byte read as unsigned: a negative value is moved up by 256. */
  function Unsigned(b: int8): (v: int)
    ensures 0 <= v < 256
    ensures v % 256 == b as int % 256
  {
    if b < 0 then b as int + 256 else b as int
  }

  /** The hex text the builder holds after appending every digest byte. */
  function HexOf(d: seq<int8>): string
  {
    if d == [] then "" else HexOf(d[..|d| - 1]) + ToHexString(Unsigned(d[|d| - 1]))
  }

  /** Concatenation of the enhancer class names, in registration order. */
  function Concat(names: seq<string>): string
  {
    if names == [] then "" else Concat(names[..|names| - 1]) + names[|names| - 1]
  }

  /** Appending one more digest byte appends its hex text. */
  lemma HexOfStep(d: seq<int8>, k: nat)
    requires k < |d|
    ensures HexOf(d[..k + 1]) == HexOf(d[..k]) + ToHexString(Unsigned(d[k]))
  {
    assert d[..k + 1][..k] == d[..k];
  }

  /** Appending one more enhancer name. */
  lemma ConcatStep(names: seq<string>, k: nat)
    requires k < |names|
    ensures Concat(names[..k + 1]) == Concat(names[..k]) + names[k]
  {
    assert names[..k + 1][..k] == names[..k];
  }

  /** The single string that is digested. */
  function FingerprintInput(version: string, enhancerNames: seq<string>, templateSource: string): string
  {
    version + Concat(enhancerNames) + templateSource
  }

  /** `hash(tc)`, with the digest algorithm as a parameter. */
  function FingerprintOf(md5: seq<byte> -> Digest, version: string, enhancerNames: seq<string>,
                       templateSource: string): string
  {
    HexOf(md5(Utf8(FingerprintInput(version, enhancerNames, templateSource))))
  }

  /** Each digest byte contributes one or two hex digits. */
  lemma {:induction false} HexOfShape(d: seq<int8>)
    ensures |d| <= |HexOf(d)| <= 2 * |d|
    ensures IsHexText(HexOf(d))
  {
    if d != [] {
      HexOfShape(d[..|d| - 1]);
    }
  }

  /** Hex text is ASCII and holds no U+0000. */
  lemma HexTextIsAscii(s: string)
    requires IsHexText(s)
    ensures IsAscii(s) && '\0' !in s
  {
    forall i | 0 <= i < |s| ensures s[i] as int < 0x80 && s[i] != '\0' {
      assert IsHexDigit(s[i]);
    }
  }

  /**
   * The fingerprint is 16 to 32 chars of [0-9a-f]; in particular it never holds the
   * record delimiter.
   */
  lemma FingerprintShape(md5: seq<byte> -> Digest, version: string, enhancerNames: seq<string>,
                         templateSource: string)
    ensures var h := FingerprintOf(md5, version, enhancerNames, templateSource);
            16 <= |h| <= 32 && IsHexText(h) && IsAscii(h) && '\0' !in h
  {
    var d := md5(Utf8(FingerprintInput(version, enhancerNames, templateSource)));
    HexOfShape(d);
    HexTextIsAscii(HexOf(d));
  }

  /** The fingerprint depends on its three inputs only through their concatenation. */
  lemma FingerprintInputs(md5: seq<byte> -> Digest, v1: string, n1: seq<string>, s1: string,
                          v2: string, n2: seq<string>, s2: string)
    requires FingerprintInput(v1, n1, s1) == FingerprintInput(v2, n2, s2)
    ensures FingerprintOf(md5, v1, n1, s1) == FingerprintOf(md5, v2, n2, s2)
  {
  }

  /** The hex text of a concatenation is the concatenation of the hex texts. */
  lemma {:induction false} HexOfAppend(a: seq<int8>, b: seq<int8>)
    ensures HexOf(a + b) == HexOf(a) + HexOf(b)
    decreases |b|
  {
    if b == [] {
      assert a + b == a;
    } else {
      var n := |b| - 1;
      assert (a + b)[..|a + b| - 1] == a + b[..n];
      assert (a + b)[|a + b| - 1] == b[n];
      HexOfAppend(a, b[..n]);
      Assoc(HexOf(a), HexOf(b[..n]), ToHexString(Unsigned(b[n])));
    }
  }

  /**
   * Without zero padding two different digests can print the same: the digests that
   * start 01 23 and 12 03 and agree on their other fourteen bytes both print "123" and
   * then the same text.
   */
  lemma UnpaddedHexCollides(rest: seq<int8>)
    requires |rest| == 14
    ensures var d1: seq<int8>, d2: seq<int8> := [0x01, 0x23] + rest, [0x12, 0x03] + rest;
            && |d1| == |d2| == 16 && d1 != d2
            && HexOf(d1) == HexOf(d2) == "123" + HexOf(rest)
  {
    var d1: seq<int8>, d2: seq<int8> := [0x01, 0x23] + rest, [0x12, 0x03] + rest;
    assert d1[0] != d2[0];
    HexOfPairs();
    HexOfAppend([0x01, 0x23], rest);
    HexOfAppend([0x12, 0x03], rest);
  }

  lemma HexOfPairs()
    ensures HexOf([0x01, 0x23]) == HexOf([0x12, 0x03]) == "123"
  {
    assert [0x01, 0x23][..1] == [0x01 as int8];
    assert [0x12, 0x03][..1] == [0x12 as int8];
  }
}
