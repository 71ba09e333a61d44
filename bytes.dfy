/**
 * Bytes, little-endian integers and the read primitive of a Python file
 * object. A file is modelled as the sequence of its bytes and an explicit
 * cursor.
 */
module Bytes {

  type byte = b: int | 0 <= b < 256

  function Pow256(n: nat): (p: nat)
    ensures p >= 1
  {
    if n == 0 then 1 else 256 * Pow256(n - 1)
  }

  /** The unsigned value of `bs`, least significant byte first. */
  function LittleEndian(bs: seq<byte>): (n: nat)
    ensures n < Pow256(|bs|)
  {
    if bs == [] then 0 else bs[0] + 256 * LittleEndian(bs[1..])
  }

  /** The `n` bytes of `v` modulo 256^n, least significant byte first. */
  function ToLittleEndian(v: nat, n: nat): (bs: seq<byte>)
    ensures |bs| == n
  {
    if n == 0 then [] else [v % 256] + ToLittleEndian(v / 256, n - 1)
  }

  lemma {:induction false} LittleEndianRoundTrip(bs: seq<byte>)
    ensures ToLittleEndian(LittleEndian(bs), |bs|) == bs
  {
    if bs != [] {
      var v := LittleEndian(bs);
      assert v % 256 == bs[0] && v / 256 == LittleEndian(bs[1..]);
      LittleEndianRoundTrip(bs[1..]);
    }
  }

  lemma {:induction false} ToLittleEndianRoundTrip(v: nat, n: nat)
    requires v < Pow256(n)
    ensures LittleEndian(ToLittleEndian(v, n)) == v
  {
    if n > 0 {
      var bs := ToLittleEndian(v, n);
      assert bs[1..] == ToLittleEndian(v / 256, n - 1);
      ToLittleEndianRoundTrip(v / 256, n - 1);
    }
  }

  /** Half the range of `n` bytes, 128 * 256^(n-1): the bound of the signed values. */
  function Half(n: nat): (h: nat)
    requires 0 < n
    ensures Pow256(n) == 2 * h && h >= 1
  {
    128 * Pow256(n - 1)
  }

  /** Two's-complement reading of an `n`-byte unsigned value. */
  function ToSigned(u: nat, n: nat): (i: int)
    requires 0 < n && u < Pow256(n)
    ensures -(Half(n) as int) <= i < Half(n)
    ensures i >= 0 <==> u < Half(n)
  {
    if u < Half(n) then u else u - Pow256(n)
  }

  /** The unsigned `n`-byte pattern of a signed value in range. */
  function FromSigned(i: int, n: nat): (u: nat)
    requires 0 < n && -(Half(n) as int) <= i < Half(n)
    ensures u < Pow256(n) && ToSigned(u, n) == i
  {
    if i < 0 then i + Pow256(n) else i
  }

  lemma {:induction false} SignedRoundTrip(u: nat, n: nat)
    requires 0 < n && u < Pow256(n)
    ensures FromSigned(ToSigned(u, n), n) == u
  {
  }

  /**
   * Python's `file.read(n)` at cursor `pos`: at most `n` bytes, fewer at the
   * end of the file, none past it; a negative `n` reads to the end.
   */
  function Read(file: seq<byte>, pos: nat, n: int): (r: seq<byte>)
    ensures 0 <= n ==> |r| == (if pos + n <= |file| then n else if pos <= |file| then |file| - pos else 0)
    ensures pos <= |file| ==> pos + |r| <= |file| && r == file[pos..pos + |r|]
    ensures pos > |file| ==> r == []
  {
    if pos >= |file| then []
    else if n < 0 || pos + n > |file| then file[pos..]
    else file[pos..pos + n]
  }

  /** The bytes of an ASCII string literal. */
  function Ascii(s: string): (bs: seq<byte>)
    requires forall i :: 0 <= i < |s| ==> s[i] as int < 128
    ensures |bs| == |s| && forall i :: 0 <= i < |s| ==> bs[i] == s[i] as int
  {
    if s == [] then [] else [s[0] as int] + Ascii(s[1..])
  }

  /** Decodes ASCII bytes into characters. */
  function AsciiText(bs: seq<byte>): (s: string)
    requires forall i :: 0 <= i < |bs| ==> bs[i] < 128
    ensures |s| == |bs| && forall i :: 0 <= i < |bs| ==> s[i] as int == bs[i]
  {
    if bs == [] then [] else [bs[0] as char] + AsciiText(bs[1..])
  }
}
