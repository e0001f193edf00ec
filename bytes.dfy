/**
 * Bytes as the cache sees them: the UTF-8 encoding that `String.getBytes("utf-8")`
 * performs on the store side, and the one-byte-per-char decoding that `(char) read`
 * performs on the load side.
 */
module Bytes {

  /** What `InputStream.read()` returns for a byte that was read (0..255). */
  newtype byte = x: int | 0 <= x < 256

  /** A Java `byte`, as `MessageDigest.digest()` returns them. */
  newtype int8 = x: int | -128 <= x < 128

  predicate IsAscii(s: string) {
    forall i :: 0 <= i < |s| ==> s[i] as int < 0x80
  }

  /** UTF-8 encoding of one Unicode scalar value (section 3 of RFC 3629). */
  function EncodeChar(c: char): (r: seq<byte>)
    ensures 1 <= |r| <= 4
    ensures |r| == 1 <==> c as int < 0x80
    ensures c as int < 0x80 ==> r == [c as int as byte]
    ensures 0 in r <==> c == '\0'
  {
    var n := c as int;
    if n < 0x80 then
      [n as byte]
    else if n < 0x800 then
      [(0xC0 + n / 0x40) as byte, (0x80 + n % 0x40) as byte]
    else if n < 0x1_0000 then
      [(0xE0 + n / 0x1000) as byte, (0x80 + (n / 0x40) % 0x40) as byte, (0x80 + n % 0x40) as byte]
    else
      [(0xF0 + n / 0x4_0000) as byte, (0x80 + (n / 0x1000) % 0x40) as byte,
       (0x80 + (n / 0x40) % 0x40) as byte, (0x80 + n % 0x40) as byte]
  }

  /** `s.getBytes("utf-8")` for a string of scalar values. */
  function Utf8(s: string): (r: seq<byte>)
    ensures |s| <= |r| <= 4 * |s|
  {
    if s == [] then [] else EncodeChar(s[0]) + Utf8(s[1..])
  }

  /** `(char) read` applied to each byte read: byte value b becomes the char U+00bb. */
  function Latin1(bs: seq<byte>): (r: string)
    ensures |r| == |bs|
    ensures forall i :: 0 <= i < |bs| ==> r[i] as int == bs[i] as int
  {
    seq(|bs|, i requires 0 <= i < |bs| => bs[i] as int as char)
  }

  /** Decoding one more byte appends one more char. */
  lemma Latin1Snoc(bs: seq<byte>, b: byte)
    ensures Latin1(bs + [b]) == Latin1(bs) + [b as int as char]
  {
    var l, r := Latin1(bs + [b]), Latin1(bs) + [b as int as char];
    forall i | 0 <= i < |l| ensures l[i] == r[i] {
      if i < |bs| {
        assert (bs + [b])[i] == bs[i];
      }
    }
  }

  lemma {:induction false} Utf8Append(a: string, b: string)
    ensures Utf8(a + b) == Utf8(a) + Utf8(b)
  {
    if a != [] {
      assert (a + b)[1..] == a[1..] + b;
      Utf8Append(a[1..], b);
    } else {
      assert a + b == b;
    }
  }

  /** U+0000 is encoded as the single byte 0. */
  lemma Utf8Nul()
    ensures Utf8("\0") == [0]
  {
    assert "\0"[1..] == [];
  }

  /** The encoding contains a zero byte exactly when the text contains U+0000. */
  lemma {:induction false} Utf8HasZero(s: string)
    ensures 0 in Utf8(s) <==> '\0' in s
  {
    if s != [] {
      Utf8HasZero(s[1..]);
      assert '\0' in s <==> s[0] == '\0' || '\0' in s[1..];
    }
  }

  /** ASCII text encodes one byte per char, each byte the char's code. */
  lemma {:induction false} Utf8Ascii(s: string)
    requires IsAscii(s)
    ensures |Utf8(s)| == |s|
    ensures forall i :: 0 <= i < |s| ==> Utf8(s)[i] as int == s[i] as int
  {
    if s != [] {
      assert IsAscii(s[1..]) by {
        forall i | 0 <= i < |s[1..]| ensures s[1..][i] as int < 0x80 {
          assert s[1..][i] == s[i + 1];
        }
      }
      Utf8Ascii(s[1..]);
    }
  }

  /** Reading back ASCII text byte by byte restores it. */
  lemma Latin1Utf8Ascii(s: string)
    requires IsAscii(s)
    ensures Latin1(Utf8(s)) == s
  {
    Utf8Ascii(s);
    var r := Latin1(Utf8(s));
    assert |r| == |s|;
    forall i | 0 <= i < |s| ensures r[i] == s[i] {
      assert r[i] as int == s[i] as int;
    }
  }

  /** Text holding a char outside ASCII encodes to more bytes than it has chars. */
  lemma {:induction false} Utf8Longer(s: string)
    requires !IsAscii(s)
    ensures |Utf8(s)| > |s|
  {
    if s[0] as int < 0x80 {
      assert !IsAscii(s[1..]) by {
        var k :| 0 <= k < |s| && s[k] as int >= 0x80;
        assert s[1..][k - 1] == s[k];
      }
      Utf8Longer(s[1..]);
    }
  }

  /** Text holding a char outside ASCII does not survive the store/load pair: it comes back
   *  longer than it was. */
  lemma Latin1Utf8NonAscii(s: string)
    requires !IsAscii(s)
    ensures |Latin1(Utf8(s))| > |s|
    ensures Latin1(Utf8(s)) != s
  {
    Utf8Longer(s);
  }
}
