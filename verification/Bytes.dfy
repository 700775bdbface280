/** Bytes, 32-bit words, C strings and the control characters the kernel and its programs test for. */
module Bytes {

  type Byte = x: int | 0 <= x < 256

  const WORD: nat := 0x1_0000_0000

  /** An unsigned 32-bit value. */
  type Word = x: int | 0 <= x < WORD

  /** The 32-bit value of four bytes, lowest first. */
  function LittleEndian(b0: int, b1: int, b2: int, b3: int): int {
    b0 + b1 * 0x100 + b2 * 0x1_0000 + b3 * 0x100_0000
  }

  /** The bytes of a text. */
  function Ascii(s: string): (r: seq<Byte>)
    requires forall i :: 0 <= i < |s| ==> s[i] as int < 128
    ensures |r| == |s| && forall i :: 0 <= i < |s| ==> r[i] == s[i] as int
  {
    seq(|s|, i requires 0 <= i < |s| => s[i] as int)
  }

  const NUL: Byte := 0
  const BACKSPACE: Byte := 8
  const TAB: Byte := 9
  const NEWLINE: Byte := 10
  const RETURN: Byte := 13
  const ESCAPE: Byte := 27
  const SPACE: Byte := 32

  /** The C string at the front of a buffer: the bytes before the first NUL. */
  function CStr(s: seq<Byte>): (r: seq<Byte>)
    ensures r <= s && NUL !in r
    ensures |r| < |s| ==> s[|r|] == NUL
  {
    if s == [] || s[0] == NUL then [] else [s[0]] + CStr(s[1..])
  }

  /** A NUL-free prefix followed by a NUL is the whole C string. */
  lemma {:induction false} CStrIs(s: seq<Byte>, n: nat)
    requires n < |s| && NUL !in s[..n] && s[n] == NUL
    ensures CStr(s) == s[..n]
  {
    var r := CStr(s);
    assert forall k :: 0 <= k < n ==> s[k] == s[..n][k];
    assert forall k :: 0 <= k < |r| ==> s[k] == r[k];
  }

  /** The byte offset of the first `b`, or the length when there is none. */
  function IndexOf(s: seq<Byte>, b: Byte): (i: nat)
    ensures i <= |s|
    ensures b !in s[..i]
    ensures i < |s| ==> s[i] == b
  {
    if s == [] || s[0] == b then 0 else
      var i := 1 + IndexOf(s[1..], b);
      assert s[..i] == [s[0]] + s[1..][..i - 1];
      i
  }

  /** The first `b` is where the two defining facts say it is. */
  lemma {:induction false} IndexOfIs(s: seq<Byte>, b: Byte, n: nat)
    requires n <= |s| && b !in s[..n] && (n < |s| ==> s[n] == b)
    ensures IndexOf(s, b) == n
  {
    var i := IndexOf(s, b);
    assert forall k :: 0 <= k < n ==> s[k] == s[..n][k];
    assert forall k :: 0 <= k < i ==> s[k] == s[..i][k];
  }

  /** The newline-separated lines of a file; a final newline starts no further line. */
  function Lines(f: seq<Byte>): seq<seq<Byte>>
    decreases |f|
  {
    if f == [] then [] else
      var e := IndexOf(f, NEWLINE);
      [f[..e]] + Lines(if e < |f| then f[e + 1..] else [])
  }
}
