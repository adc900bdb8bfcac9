/** Bytes, and the numbers that are stored in them. */
module Words {
  import opened Pages

  type byte = x: int | 0 <= x < 256

  function Power256(n: nat): (r: nat)
    ensures r > 0
  {
    if n == 0 then 1 else 256 * Power256(n - 1)
  }

  /** The n bytes of x, least significant first. */
  function Encode(x: nat, n: nat): (s: seq<byte>)
    ensures |s| == n
  {
    if n == 0 then [] else [x % 256] + Encode(x / 256, n - 1)
  }

  /** The number that the bytes store. */
  function Decode(s: seq<byte>): nat {
    if s == [] then 0 else s[0] + 256 * Decode(s[1..])
  }

  lemma {:induction false} DecodeEncode(x: nat, n: nat)
    requires x < Power256(n)
    ensures Decode(Encode(x, n)) == x
  {
    if n > 0 {
      DecodeEncode(x / 256, n - 1);
      assert Encode(x, n)[1..] == Encode(x / 256, n - 1);
    }
  }

  lemma {:induction false} DecodeZero(s: seq<byte>)
    requires forall i :: 0 <= i < |s| ==> s[i] == 0
    ensures Decode(s) == 0
  {
    if s != [] { DecodeZero(s[1..]); }
  }

  lemma {:induction false} DecodeBound(s: seq<byte>)
    ensures Decode(s) < Power256(|s|)
  {
    if s != [] { DecodeBound(s[1..]); }
  }

  lemma TwoBytes()
    ensures Power256(2) == 0x1_0000
  {
  }

  lemma EightBytes()
    ensures Power256(8) == TWO_64
  {
  }
}
