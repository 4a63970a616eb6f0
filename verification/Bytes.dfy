/** Bytes, optional values and first-occurrence searches shared by the models. */
module Bytes {

  datatype Option<+T> = None | Some(value: T)

  datatype Result<+T, +E> = Ok(value: T) | Err(error: E)

  type byte = b: int | 0 <= b < 256

  /** Bytes `a`, `b` stand next to each other at position `i`. */
  predicate PairAt(s: seq<byte>, a: byte, b: byte, i: nat) {
    i + 1 < |s| && s[i] == a && s[i + 1] == b
  }

  /** First position at which the pair `a`, `b` occurs (`windows(2).position`). */
  function FirstPair(s: seq<byte>, a: byte, b: byte): (r: Option<nat>)
    ensures r.Some? ==> PairAt(s, a, b, r.value)
    ensures forall i: nat :: (r.None? || i < r.value) ==> !PairAt(s, a, b, i)
  {
    FirstPairFrom(s, a, b, 0)
  }

  function FirstPairFrom(s: seq<byte>, a: byte, b: byte, from: nat): (r: Option<nat>)
    requires from <= |s|
    ensures r.Some? ==> from <= r.value && PairAt(s, a, b, r.value)
    ensures forall i: nat :: from <= i && (r.None? || i < r.value) ==> !PairAt(s, a, b, i)
    decreases |s| - from
  {
    if PairAt(s, a, b, from) then Some(from)
    else if from < |s| then FirstPairFrom(s, a, b, from + 1)
    else None
  }

  /** `pattern` occurs in `s` at position `i`. */
  predicate OccursAt(s: seq<byte>, pattern: seq<byte>, i: nat) {
    i + |pattern| <= |s| && s[i..i + |pattern|] == pattern
  }

  /** First position at which `pattern` occurs (`windows(n).position`). */
  function FirstOccurrence(s: seq<byte>, pattern: seq<byte>): (r: Option<nat>)
    ensures r.Some? ==> OccursAt(s, pattern, r.value)
    ensures forall i: nat :: (r.None? || i < r.value) ==> !OccursAt(s, pattern, i)
  {
    FirstOccurrenceFrom(s, pattern, 0)
  }

  function FirstOccurrenceFrom(s: seq<byte>, pattern: seq<byte>, from: nat): (r: Option<nat>)
    requires from <= |s|
    ensures r.Some? ==> from <= r.value && OccursAt(s, pattern, r.value)
    ensures forall i: nat :: from <= i && (r.None? || i < r.value) ==> !OccursAt(s, pattern, i)
    decreases |s| - from
  {
    if OccursAt(s, pattern, from) then Some(from)
    else if from < |s| then FirstOccurrenceFrom(s, pattern, from + 1)
    else None
  }

  lemma {:induction false} SliceOfSlice<T>(s: seq<T>, i: nat, j: nat, a: nat, b: nat)
    requires i <= j <= |s| && a <= b <= j - i
    ensures s[i..j][a..b] == s[i + a..i + b]
  {
    assert forall k: nat | k < b - a :: s[i..j][a..b][k] == s[i..j][a + k] == s[i + a + k];
  }

  /** The bytes before the first NUL. */
  function UpToNul(s: seq<byte>): (r: seq<byte>)
    ensures r <= s && 0 !in r && (0 in s ==> |r| < |s| && s[|r|] == 0)
  {
    if s == [] || s[0] == 0 then [] else [s[0]] + UpToNul(s[1..])
  }

  function Zeros(n: nat): (s: seq<byte>)
    ensures |s| == n
  {
    seq(n, _ => 0)
  }

  /** A little-endian 16-bit number. */
  function U16(low: byte, high: byte): nat {
    low as int + 256 * high as int
  }

  /** The 8-bit wrapping sum of the bytes. */
  function Checksum(s: seq<byte>): byte {
    if s == [] then 0 else (Checksum(s[..|s| - 1]) + s[|s| - 1]) % 256
  }
}
