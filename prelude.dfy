/** Shared vocabulary: bytes, fixed-width integers, ASCII text and substring search. */
module Bytes {

  /** An unsigned 8-bit value (C `uint8_t`, and `char` on this target, where plain `char` is unsigned). */
  type byte = x: int | 0 <= x < 256

  /** An unsigned 16-bit value. */
  type uint16 = x: int | 0 <= x < 0x1_0000

  /** The modulus of `uint32_t` arithmetic. */
  const TWO_32: int := 0x1_0000_0000

  /** A 16-bit value in network byte order. */
  function BigEndian16(v: uint16): (r: seq<byte>)
    ensures |r| == 2
  {
    [v / 256, v % 256]
  }

  /** The big-endian 16-bit value at offset `k`. */
  function U16At(b: seq<byte>, k: nat): (v: uint16)
    requires k + 2 <= |b|
  {
    (b[k] as int) * 256 + b[k + 1]
  }

  /** The big-endian 32-bit value at offset `k`. */
  function U32At(b: seq<byte>, k: nat): int
    requires k + 4 <= |b|
  {
    U16At(b, k) * 0x1_0000 + U16At(b, k + 2)
  }

  /** Reading back a 16-bit value written in network byte order gives the value. */
  lemma BigEndian16RoundTrip(v: uint16, pre: seq<byte>, post: seq<byte>)
    ensures U16At(pre + BigEndian16(v) + post, |pre|) == v
  {
    var m := pre + BigEndian16(v) + post;
    assert m[|pre|] == v / 256 && m[|pre| + 1] == v % 256;
  }

  datatype Option<T> = None | Some(value: T)

  /** The bytes of a text literal: each character reduced to its low 8 bits, as a C compiler stores ASCII. */
  function Ascii(s: string): seq<byte>
  {
    seq(|s|, i requires 0 <= i < |s| => s[i] as int % 256)
  }

  /** At most `n` leading bytes of `b`: what a read into an `n`-byte area returns. */
  function Take(b: seq<byte>, n: nat): (r: seq<byte>)
    ensures |r| <= n && |r| <= |b|
    ensures r == b[..|r|]
    ensures |b| <= n ==> r == b
  {
    if |b| <= n then b else b[..n]
  }

  /** `p` occurs in `s` starting at offset `k`. */
  predicate OccursAt(s: seq<byte>, p: seq<byte>, k: int)
  {
    0 <= k && k + |p| <= |s| && s[k..k + |p|] == p
  }

  /** `std::string::find(p) != npos`: `p` occurs somewhere in `s` (the empty pattern occurs everywhere). */
  predicate Contains(s: seq<byte>, p: seq<byte>)
  {
    exists k :: 0 <= k <= |s| - |p| && OccursAt(s, p, k)
  }

  /** Whether `b` occurs in `s`. */
  predicate Free(s: seq<byte>, b: byte)
  {
    forall k :: 0 <= k < |s| ==> s[k] != b
  }

  /** A text of characters 1 to 255 has no NUL among its bytes. */
  lemma AsciiFree(s: string)
    requires forall k :: 0 <= k < |s| ==> 0 < s[k] as int < 256
    ensures Free(Ascii(s), 0)
  {
  }

  /** A pattern found in a text is still found once the text grows: matching never un-happens. */
  lemma ContainsExtends(s: seq<byte>, t: seq<byte>, p: seq<byte>)
    requires Contains(s, p)
    ensures Contains(s + t, p)
  {
    var k :| 0 <= k <= |s| - |p| && OccursAt(s, p, k);
    assert (s + t)[k..k + |p|] == s[k..k + |p|];
    assert OccursAt(s + t, p, k);
  }

  /** The empty pattern is found in every text, the empty one included. */
  lemma ContainsEmpty(s: seq<byte>)
    ensures Contains(s, [])
  {
    assert OccursAt(s, [], 0);
  }

  /** A text shorter than the pattern cannot contain it. */
  lemma ContainsNeedsLength(s: seq<byte>, p: seq<byte>)
    requires |s| < |p|
    ensures !Contains(s, p)
  {
  }
}
