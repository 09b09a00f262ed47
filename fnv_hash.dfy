/**
 * 32-bit FNV-1 content hashing (multiply by the prime, then XOR the byte),
 * in the two shapes the source computes it: `ValueObject.GetHashCode` walks
 * the bytes of the UTF-16 text in memory order (little-endian: low byte, then
 * high byte of each code unit) and `ValueKey.SetKey` folds the low and the
 * high byte of each code unit. Both must give the same hash for the same text.
 * A Dafny `char` is a Unicode scalar value, so a `char` is one UTF-16 code
 * unit only in the Basic Multilingual Plane. Above U+FFFF the source holds
 * two surrogate units where this model holds one character, and `High`
 * keeps only bits 8 to 15 of it, so the bytes are not the source's.
 */
module FnvHash {
  import opened ValueTypes

  /** `FNV_OFFSET_BASIS_32`. */
  const OffsetBasis: bv32 := 2166136261
  /** `FNV_PRIME_32`. */
  const Prime: bv32 := 16777619

  /** `v & 0xff` of a code unit. */
  function Low(c: char): bv32 { (c as int % 256) as bv32 }
  /** `(v >> 8) & 0xff` of a code unit. */
  function High(c: char): bv32 { (c as int / 256 % 256) as bv32 }

  /** One FNV-1 round: `(FNV_PRIME_32 * hash) ^ b`, wrapping at 32 bits. */
  function Step(h: bv32, b: bv32): bv32 { (Prime * h) ^ b }

  /** Byte `k` of the text as it lies in memory. */
  function ByteAt(s: string, k: nat): bv32
    requires k < 2 * |s|
  {
    if k % 2 == 0 then Low(s[k / 2]) else High(s[k / 2])
  }

  /** The in-memory bytes of the text, two per code unit. */
  function Bytes(s: string): (b: seq<bv32>)
    ensures |b| == 2 * |s|
  {
    if |s| == 0 then []
    else
      var c := s[|s| - 1];
      Bytes(s[..|s| - 1]) + [Low(c), High(c)]
  }

  /** FNV-1 over a byte sequence, first byte first. */
  function FoldBytes(b: seq<bv32>): bv32
  {
    if |b| == 0 then OffsetBasis else Step(FoldBytes(b[..|b| - 1]), b[|b| - 1])
  }

  /** FNV-1 over the text, two rounds (low byte, then high byte) per code unit. */
  function FoldUnits(s: string): bv32
  {
    if |s| == 0 then OffsetBasis
    else
      var c := s[|s| - 1];
      Step(Step(FoldUnits(s[..|s| - 1]), Low(c)), High(c))
  }

  /** `Bytes` lays the text out in memory order: byte `k` is `ByteAt(s, k)`. */
  lemma {:induction false} BytesAt(s: string, k: nat)
    requires k < 2 * |s|
    ensures Bytes(s)[k] == ByteAt(s, k)
  {
    var p := s[..|s| - 1];
    if k < 2 * |p| {
      BytesAt(p, k);
      assert s[k / 2] == p[k / 2];
    }
  }

  /** Appending a byte adds one round. */
  lemma FoldBytesSnoc(x: seq<bv32>, a: bv32)
    ensures FoldBytes(x + [a]) == Step(FoldBytes(x), a)
  {
    assert (x + [a])[..|x|] == x;
  }

  /** Appending a code unit adds its two rounds. */
  lemma FoldUnitsSnoc(s: string, c: char)
    ensures FoldUnits(s + [c]) == Step(Step(FoldUnits(s), Low(c)), High(c))
  {
    assert (s + [c])[..|s|] == s;
  }

  /** The byte walk and the per-unit fold compute the same hash for every text. */
  lemma {:induction false} BytesAgree(s: string)
    ensures FoldBytes(Bytes(s)) == FoldUnits(s)
  {
    if |s| > 0 {
      var c := s[|s| - 1];
      BytesAgree(s[..|s| - 1]);
      var x := Bytes(s[..|s| - 1]);
      FoldBytesSnoc(x, Low(c));
      FoldBytesSnoc(x + [Low(c)], High(c));
      assert x + [Low(c)] + [High(c)] == x + [Low(c), High(c)];
    }
  }
}
