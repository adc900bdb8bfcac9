/** Physical memory as bytes, and the words in it. */
module Memory {
  import opened Pages
  import opened Words

  lemma LoadBound(m: seq<byte>, a: nat)
    requires a + 8 <= |m|
    ensures Load64(m, a) < TWO_64
  {
    EightBytes();
    DecodeBound(m[a..a + 8]);
  }

  function Load64(m: seq<byte>, a: nat): nat
    requires a + 8 <= |m|
  {
    Decode(m[a..a + 8])
  }

  /** m after the word x was stored at a. */
  ghost predicate Stored64(m: seq<byte>, m': seq<byte>, a: nat, x: nat)
    requires a + 8 <= |m|
  {
    m' == m[..a] + Encode(x, 8) + m[a + 8..]
  }

  lemma LoadStored(m: seq<byte>, m': seq<byte>, a: nat, x: nat, b: nat)
    requires a + 8 <= |m| && b + 8 <= |m| && x < TWO_64 && Stored64(m, m', a, x)
    requires b == a || b + 8 <= a || a + 8 <= b
    ensures |m'| == |m| && Load64(m', b) == if b == a then x else Load64(m, b)
  {
    if b == a {
      EightBytes();
      DecodeEncode(x, 8);
      assert m'[a..a + 8] == Encode(x, 8);
    } else {
      assert m'[b..b + 8] == m[b..b + 8];
    }
  }

  /** pml->entries[index] = value, and any other store of a word. */
  method Store64(mem: array<byte>, a: nat, x: nat)
    requires a + 8 <= mem.Length
    modifies mem
    ensures Stored64(old(mem[..]), mem[..], a, x)
  {
    var i, rest := 0, x;
    ghost var m := mem[..];
    assert m == m[..a] + [] + m[a..];
    while i < 8
      invariant i <= 8 && mem[..] == m[..a] + Encode(x, 8)[..i] + m[a + i..]
      invariant Encode(x, 8)[i..] == Encode(rest, 8 - i)
    {
      ghost var e := Encode(x, 8);
      assert e[i] == rest % 256 && e[i..][1..] == e[i + 1..];
      mem[a + i] := rest % 256;
      rest := rest / 256;
      i := i + 1;
      assert e[..i] == e[..i - 1] + [e[i - 1]];
    }
    assert Encode(x, 8)[..8] == Encode(x, 8);
  }

  method Read64(mem: array<byte>, a: nat) returns (x: nat)
    requires a + 8 <= mem.Length
    ensures x == Load64(mem[..], a)
  {
    x := 0;
    var i := 8;
    ghost var s := mem[a..a + 8];
    while i > 0
      invariant 0 <= i <= 8 && x == Decode(s[i..])
    {
      i := i - 1;
      x := mem[a + i] + 256 * x;
      assert s[i..][1..] == s[i + 1..];
    }
    assert mem[..][a..a + 8] == s && s[0..] == s;
  }

  method Memset(mem: array<byte>, a: nat, v: byte, n: nat)
    requires a + n <= mem.Length
    modifies mem
    ensures forall j :: 0 <= j < mem.Length ==> mem[j] == if a <= j < a + n then v else old(mem[j])
  {
    var i := 0;
    while i < n
      invariant i <= n
      invariant forall j :: 0 <= j < mem.Length ==> mem[j] == if a <= j < a + i then v else old(mem[j])
    {
      mem[a + i] := v;
      i := i + 1;
    }
  }

  /** memcpy from a buffer outside the memory. */
  method Memcpy(mem: array<byte>, a: nat, src: seq<byte>, from: nat, n: nat)
    requires a + n <= mem.Length && from + n <= |src|
    modifies mem
    ensures forall j :: 0 <= j < mem.Length ==> mem[j] == if a <= j < a + n then src[from + (j - a)] else old(mem[j])
  {
    var i := 0;
    while i < n
      invariant i <= n
      invariant forall j :: 0 <= j < mem.Length ==>
                  mem[j] == if a <= j < a + i then src[from + (j - a)] else old(mem[j])
    {
      mem[a + i] := src[from + i];
      i := i + 1;
    }
  }
}
