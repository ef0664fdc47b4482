/**
 The byte-level vocabulary shared by every part of the linter: the four
 bytes the rules care about, prefix/suffix tests, and the handful of
 helpers from Go's `bytes` package that the checks and fixes rely on.
 */
module Bytes {

  type byte = bv8

  const CR: byte := 0x0D
  const LF: byte := 0x0A
  const TAB: byte := 0x09
  const SPACE: byte := 0x20

  /** A line-terminator byte. */
  predicate IsEol(b: byte) {
    b == CR || b == LF
  }

  /** An indentation or trailing-whitespace byte (0xA0 is not one). */
  predicate IsBlank(b: byte) {
    b == SPACE || b == TAB
  }

  /** A UTF-8 continuation byte, `10xxxxxx`. */
  predicate IsContinuation(b: byte) {
    b & 0xC0 == 0x80
  }

  predicate HasPrefix<T(==)>(s: seq<T>, p: seq<T>) {
    |p| <= |s| && s[..|p|] == p
  }

  predicate HasSuffix<T(==)>(s: seq<T>, p: seq<T>) {
    |p| <= |s| && s[|s| - |p|..] == p
  }

  /** `n` copies of `b`, like `bytes.Repeat([]byte{b}, n)`. */
  function Repeat(b: byte, n: nat): (r: seq<byte>)
    ensures |r| == n
    ensures forall i :: 0 <= i < n ==> r[i] == b
  {
    if n == 0 then [] else Repeat(b, n - 1) + [b]
  }

  /** `k` copies of the unit `u` laid end to end. */
  function RepeatSeq(u: seq<byte>, k: nat): (r: seq<byte>)
    ensures |r| == k * |u|
  {
    if k == 0 then [] else u + RepeatSeq(u, k - 1)
  }

  /** The number of cr/lf bytes at the end of `s`. */
  function TrailingEolCount(s: seq<byte>): (n: nat)
    ensures n <= |s|
    ensures forall i :: |s| - n <= i < |s| ==> IsEol(s[i])
    ensures n < |s| ==> !IsEol(s[|s| - n - 1])
  {
    if |s| == 0 || !IsEol(s[|s| - 1]) then 0 else TrailingEolCount(s[..|s| - 1]) + 1
  }

  /** `bytes.TrimRight(s, "\r\n")`: `s` without its trailing cr/lf run. */
  function TrimRightEol(s: seq<byte>): (r: seq<byte>)
    ensures HasPrefix(s, r)
    ensures forall i :: |r| <= i < |s| ==> IsEol(s[i])
    ensures |r| == 0 || !IsEol(r[|r| - 1])
  {
    s[..|s| - TrailingEolCount(s)]
  }

  /** The number of space/tab bytes at the end of `s`. */
  function TrailingBlankCount(s: seq<byte>): (n: nat)
    ensures n <= |s|
    ensures forall i :: |s| - n <= i < |s| ==> IsBlank(s[i])
    ensures n < |s| ==> !IsBlank(s[|s| - n - 1])
  {
    if |s| == 0 || !IsBlank(s[|s| - 1]) then 0 else TrailingBlankCount(s[..|s| - 1]) + 1
  }

  /** The number of space/tab bytes at the start of `s`. */
  function LeadingBlankCount(s: seq<byte>): (n: nat)
    ensures n <= |s|
    ensures forall i :: 0 <= i < n ==> IsBlank(s[i])
    ensures n < |s| ==> !IsBlank(s[n])
  {
    if |s| == 0 || !IsBlank(s[0]) then 0 else 1 + LeadingBlankCount(s[1..])
  }

  /** The number of leading bytes of `s` equal to `c`. */
  function LeadingCount(s: seq<byte>, c: byte): (n: nat)
    ensures n <= |s|
    ensures forall i :: 0 <= i < n ==> s[i] == c
    ensures n < |s| ==> s[n] != c
  {
    if |s| == 0 || s[0] != c then 0 else 1 + LeadingCount(s[1..], c)
  }

  /** True when no byte of `s` is a cr or lf. */
  predicate NoEol(s: seq<byte>) {
    forall i :: 0 <= i < |s| ==> !IsEol(s[i])
  }

  /** The index of the first cr or lf of `s`, or `|s|` when there is none. */
  function FirstEol(s: seq<byte>): (j: nat)
    ensures j <= |s|
    ensures NoEol(s[..j])
    ensures j < |s| ==> IsEol(s[j])
  {
    if |s| == 0 then 0
    else if IsEol(s[0]) then 0
    else
      var j := 1 + FirstEol(s[1..]);
      assert s[..j] == [s[0]] + s[1..][..j - 1];
      j
  }

  /** `FirstEol` is the unique index with no cr/lf before it and a cr/lf at it. */
  lemma FirstEolIs(s: seq<byte>, j: nat)
    requires j <= |s| && NoEol(s[..j]) && (j < |s| ==> IsEol(s[j]))
    ensures FirstEol(s) == j
    decreases j
  {
    if j > 0 {
      assert !IsEol(s[..j][0]);
      assert s[1..][..j - 1] == s[..j][1..];
      FirstEolIs(s[1..], j - 1);
    }
  }

  /** Concatenation of a sequence of byte strings, in order. */
  function Flatten(ls: seq<seq<byte>>): (r: seq<byte>)
  {
    if |ls| == 0 then [] else ls[0] + Flatten(ls[1..])
  }

  lemma FlattenAppend(a: seq<seq<byte>>, b: seq<seq<byte>>)
    ensures Flatten(a + b) == Flatten(a) + Flatten(b)
  {
    if |a| > 0 {
      assert (a + b)[0] == a[0];
      assert (a + b)[1..] == a[1..] + b;
      FlattenAppend(a[1..], b);
      calc {
        Flatten(a + b);
        a[0] + Flatten(a[1..] + b);
        a[0] + (Flatten(a[1..]) + Flatten(b));
      }
    } else {
      assert a + b == b;
    }
  }

  lemma SliceOfAppend(a: seq<byte>, b: seq<byte>, n: nat)
    requires n <= |a|
    ensures (a + b)[n..] == a[n..] + b
  {
  }

  /**
   A Go string converted with `[]byte(s)`. Configuration values are
   byte strings in Go; here each character stands for one byte.
   */
  function FromString(s: string): (r: seq<byte>)
    ensures |r| == |s|
  {
    seq(|s|, i requires 0 <= i < |s| => ((s[i] as int) % 256) as bv8)
  }

  /** A character below 256 stands for the byte of the same value. */
  lemma AsciiByte(ch: char, b: byte)
    requires ch as int == b as int
    ensures ((ch as int) % 256) as bv8 == b
  {
    assert (ch as int) % 256 == b as int;
  }
}
