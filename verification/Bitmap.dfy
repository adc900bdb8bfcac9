/** The bits of the physical memory bitmap: one bit a page, set when the page is used. */
module Bitmap {

  function Mask(bit: nat): bv8
    requires bit < 8
  {
    match bit
    case 0 => 1
    case 1 => 2
    case 2 => 4
    case 3 => 8
    case 4 => 16
    case 5 => 32
    case 6 => 64
    case _ => 128
  }

  predicate BitSet(b: bv8, bit: nat)
    requires bit < 8
  {
    b & Mask(bit) != 0
  }

  lemma SetOneBit(b: bv8, k: nat, j: nat)
    requires k < 8 && j < 8
    ensures BitSet(b | Mask(k), j) <==> j == k || BitSet(b, j)
  {
  }

  lemma ClearOneBit(b: bv8, k: nat, j: nat)
    requires k < 8 && j < 8
    ensures BitSet(b & !Mask(k), j) <==> j != k && BitSet(b, j)
  {
  }

  lemma AllBitsSet(j: nat)
    requires j < 8
    ensures BitSet(0xff, j)
  {
  }

  /** Whether page i is marked used. */
  predicate IsSet(s: seq<bv8>, i: nat)
    requires i < 8 * |s|
  {
    BitSet(s[i / 8], i % 8)
  }

  /** Setting the bit of page i changes that bit only. */
  lemma SetPage(s: seq<bv8>, i: nat, j: nat)
    requires i < 8 * |s| && j < 8 * |s|
    ensures IsSet(s[i / 8 := s[i / 8] | Mask(i % 8)], j) <==> j == i || IsSet(s, j)
  {
    if i / 8 == j / 8 {
      SetOneBit(s[i / 8], i % 8, j % 8);
    }
  }

  /** Clearing the bit of page i changes that bit only. */
  lemma ClearPage(s: seq<bv8>, i: nat, j: nat)
    requires i < 8 * |s| && j < 8 * |s|
    ensures IsSet(s[i / 8 := s[i / 8] & !Mask(i % 8)], j) <==> j != i && IsSet(s, j)
  {
    if i / 8 == j / 8 {
      ClearOneBit(s[i / 8], i % 8, j % 8);
    }
  }

  ghost function ClearPages(s: seq<bv8>): set<nat> {
    set i: nat | i < 8 * |s| && !IsSet(s, i)
  }
}
