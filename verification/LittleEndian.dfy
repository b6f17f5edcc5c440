/** Little-endian integers of a fixed number of bytes, as struct.pack writes them and memcpy reads them. */
module LittleEndian {
  import opened Wrappers

  function Pow256(n: nat): (r: nat)
    ensures r > 0
  {
    if n == 0 then 1 else 256 * Pow256(n - 1)
  }

  function LE(v: nat, n: nat): (r: seq<byte>)
    ensures |r| == n
  {
    if n == 0 then [] else [v % 256] + LE(v / 256, n - 1)
  }

  function FromLE(bs: seq<byte>): nat {
    if bs == [] then 0 else bs[0] + 256 * FromLE(bs[1..])
  }

  lemma {:induction false} FromLEOfLE(v: nat, n: nat)
    requires v < Pow256(n)
    ensures FromLE(LE(v, n)) == v
  {
    if n > 0 {
      FromLEOfLE(v / 256, n - 1);
      assert LE(v, n)[1..] == LE(v / 256, n - 1);
    }
  }

  lemma {:induction false} LEOfFromLE(bs: seq<byte>)
    ensures FromLE(bs) < Pow256(|bs|) && LE(FromLE(bs), |bs|) == bs
  {
    if bs != [] {
      LEOfFromLE(bs[1..]);
      assert bs == [bs[0]] + bs[1..];
    }
  }

  lemma Pow256Values()
    ensures Pow256(1) == 256 && Pow256(4) == U32_MODULUS && Pow256(8) == U64_MODULUS
  {
    assert Pow256(2) == 0x1_0000;
    assert Pow256(4) == 0x1_0000 * Pow256(2);
    assert Pow256(6) == 0x1_0000 * Pow256(4);
    assert Pow256(8) == 0x1_0000 * Pow256(6);
  }

  lemma ReadU32(v: nat)
    requires v < U32_MODULUS
    ensures FromLE(LE(v, 4)) == v
  {
    Pow256Values();
    FromLEOfLE(v, 4);
  }
}
