/**
 Fixed-width unsigned integers, little-endian fields and a few sequence facts
 shared by the other modules.
 */
module Bytes {
  type u8 = x: int | 0 <= x < 0x100
  type u16 = x: int | 0 <= x < 0x1_0000
  type u32 = x: int | 0 <= x < 0x1_0000_0000
  type u64 = x: int | 0 <= x < 0x1_0000_0000_0000_0000

  datatype Option<+T> = None | Some(value: T)

  /** The little-endian 16-bit field at offset i. */
  function Word(b: seq<u8>, i: nat): u16
    requires i + 2 <= |b|
  {
    var lo: int, hi: int := b[i], b[i + 1];
    lo + 0x100 * hi
  }

  /** The little-endian 32-bit field at offset i. */
  function DWord(b: seq<u8>, i: nat): u32
    requires i + 4 <= |b|
  {
    var lo: int, hi: int := Word(b, i), Word(b, i + 2);
    lo + 0x1_0000 * hi
  }

  /** The little-endian 64-bit field at offset i. */
  function QWord(b: seq<u8>, i: nat): u64
    requires i + 8 <= |b|
  {
    var lo: int, hi: int := DWord(b, i), DWord(b, i + 4);
    lo + 0x1_0000_0000 * hi
  }

  /** One byte of buf, where the caller has to show that it lies in the window [lo, hi). */
  function Peek(buf: array<u8>, i: nat, ghost lo: nat, ghost hi: nat): u8
    requires lo <= i < hi <= buf.Length
    reads buf
  {
    buf[i]
  }

  /** The little-endian 16-bit field at i, both bytes inside the window [lo, hi). */
  function PeekWord(buf: array<u8>, i: nat, ghost lo: nat, ghost hi: nat): u16
    requires lo <= i && i + 1 < hi <= buf.Length
    reads buf
  {
    var low: int, high: int := Peek(buf, i, lo, hi), Peek(buf, i + 1, lo, hi);
    low + 0x100 * high
  }

  /** The bytes of s stand at offset p of b. */
  predicate StandsAt(b: seq<u8>, p: nat, s: seq<u8>) {
    p + |s| <= |b| && b[p..p + |s|] == s
  }

  lemma StandsSplit(b: seq<u8>, p: nat, s: seq<u8>, t: seq<u8>)
    requires StandsAt(b, p, s + t)
    ensures StandsAt(b, p, s) && StandsAt(b, p + |s|, t)
  {
    var found := b[p..p + |s + t|];
    assert b[p..p + |s|] == found[..|s|] && b[p + |s|..p + |s| + |t|] == found[|s|..];
  }

  /** A sequence whose last part falls into two. */
  lemma Regroup<T>(whole: seq<T>, a: seq<T>, d: seq<T>, b: seq<T>, c: seq<T>)
    requires whole == a + d && d == b + c
    ensures whole == (a + b) + c
  {
  }
}
