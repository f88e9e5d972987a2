/** FNV-1a on 32-bit words, which assigns keys to shards. */
module FallxHash {
  import opened FallxHeap

  const FnvOffset32: bv32 := 2166136261
  const FnvPrime32: bv32 := 16777619

  function Fnv(key: Key): bv32 {
    if key == [] then FnvOffset32 else Mix(Fnv(key[..|key| - 1]), key[|key| - 1])
  }

  /** Exclusive or, then a product modulo 2^32. */
  function Mix(h: bv32, b: bv8): bv32 {
    (h ^ (b as bv32)) * FnvPrime32
  }

  function Modulo(h: bv32, n: nat): (i: nat)
    requires n > 0
    ensures i < n
  {
    (h as int) % n
  }

  /** The shard of key among n. */
  function Home(key: Key, n: nat): (i: nat)
    requires n > 0
    ensures i < n
  {
    Modulo(Fnv(key), n)
  }

  /** The inline loop of getShard. */
  method ShardIndex(key: Key, n: nat) returns (i: nat)
    requires n > 0
    ensures i == Home(key, n) && i < n
  {
    hide Mix, Modulo;
    var h := FnvOffset32;
    for j := 0 to |key|
      invariant h == Fnv(key[..j])
    {
      assert key[..j + 1][..j] == key[..j];
      h := Mix(h, key[j]);
    }
    assert key[..|key|] == key;
    i := Modulo(h, n);
  }
}
