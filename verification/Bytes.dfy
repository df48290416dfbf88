/** Bytes, optional values and the few facts about sequences that several models share. */
module Bytes {

  /** One octet. */
  type byte = x: int | 0 <= x < 256

  datatype Option<+T> = None | Some(value: T)

  const CR: byte := 0x0D
  const LF: byte := 0x0A
  const CRLF: seq<byte> := [CR, LF]

  predicate IsHexDigit(c: byte) {
    0x30 <= c <= 0x39 || 0x41 <= c <= 0x46 || 0x61 <= c <= 0x66
  }

  function HexValue(c: byte): (v: nat)
    requires IsHexDigit(c)
    ensures v < 16
  {
    if c <= 0x39 then c - 0x30 else if c <= 0x46 then c - 0x41 + 10 else c - 0x61 + 10
  }

  /** The upper-case digit. */
  function HexDigit(d: nat): byte
    requires d < 16
  {
    if d < 10 then 0x30 + d else 0x41 + d - 10
  }

  /** `sub` occurs in `s` at index `at`. */
  predicate OccursAt<T(==)>(s: seq<T>, sub: seq<T>, at: nat) {
    at + |sub| <= |s| && s[at..at + |sub|] == sub
  }

  /** A prefix of a prefix is a prefix, and prefixes of one sequence are comparable by length. */
  lemma PrefixByLength<T>(a: seq<T>, b: seq<T>, whole: seq<T>)
    requires a <= whole && b <= whole && |a| <= |b|
    ensures a <= b
  {
    assert a == whole[..|a|];
    assert b == whole[..|b|];
  }

  lemma PrefixTransitive<T>(a: seq<T>, b: seq<T>, c: seq<T>)
    requires a <= b && b <= c
    ensures a <= c
  {
    assert a == b[..|a|];
  }

  lemma Associative<T>(a: seq<T>, b: seq<T>, c: seq<T>)
    ensures (a + b) + c == a + (b + c)
  {
  }
}
