/** Which of the 32 shards owns a key: 64-bit FNV-1a, masked. */
module Routing {
  import opened Bytes

  type Key = Bytes

  const SHARDS: nat := 32
  const TWO64: nat := 0x1_0000_0000_0000_0000
  const OFFSET64: nat := 14695981039346656037
  const PRIME64: nat := 1099511628211

  /** Bitwise exclusive or of two naturals. */
  function Xor(a: nat, b: nat): nat {
    if a == 0 && b == 0 then 0
    else (if a % 2 == b % 2 then 0 else 1) + 2 * Xor(a / 2, b / 2)
  }

  /** One round: h ^= byte; h *= prime, wrapping at 64 bits. */
  function Round(h: nat, b: byte): nat {
    (Xor(h, b) * PRIME64) % TWO64
  }

  function Fnv(key: Key): nat {
    if key == [] then OFFSET64 else Round(Fnv(key[..|key| - 1]), key[|key| - 1])
  }

  function ShardIndex(key: Key): (i: nat)
    ensures i < SHARDS
  {
    Fnv(key) % SHARDS
  }

  /** shardIndex as the source runs it, one byte at a time over a 64-bit accumulator. */
  method ComputeShardIndex(key: Key) returns (i: nat)
    ensures i == ShardIndex(key)
  {
    var h := OFFSET64;
    var n := 0;
    while n < |key|
      invariant 0 <= n <= |key|
      invariant h == Fnv(key[..n])
    {
      assert key[..n + 1][..n] == key[..n];
      h := Round(h, key[n]);
      n := n + 1;
    }
    assert key[..n] == key;
    i := h % SHARDS;
  }

  // ----- only the low five bits matter -----

  /** The same routing over five-bit numbers, starting at 5 and multiplying by 19. */
  function Fnv5(key: Key): nat {
    if key == [] then 5 else (Xor(Fnv5(key[..|key| - 1]), key[|key| - 1] % 32) * 19) % 32
  }

  /** The low k bits of a. */
  function Low(a: nat, k: nat): nat {
    if k == 0 then 0 else a % 2 + 2 * Low(a / 2, k - 1)
  }

  /** b + 2h is a bit b over a rest h. */
  lemma BitAndRest(bit: nat, rest: nat)
    requires bit < 2
    ensures (bit + 2 * rest) % 2 == bit && (bit + 2 * rest) / 2 == rest
  {
  }

  lemma LowStep(bit: nat, rest: nat, k: nat)
    requires bit < 2 && k > 0
    ensures Low(bit + 2 * rest, k) == bit + 2 * Low(rest, k - 1)
  {
    BitAndRest(bit, rest);
  }

  /** Exclusive or, bit by bit. */
  lemma XorBits(b1: nat, r1: nat, b2: nat, r2: nat)
    requires b1 < 2 && b2 < 2
    ensures Xor(b1 + 2 * r1, b2 + 2 * r2) == (if b1 == b2 then 0 else 1) + 2 * Xor(r1, r2)
  {
    BitAndRest(b1, r1);
    BitAndRest(b2, r2);
    XorStep(b1 + 2 * r1, b2 + 2 * r2);
  }

  lemma {:induction false} LowXor(a: nat, b: nat, k: nat)
    ensures Low(Xor(a, b), k) == Xor(Low(a, k), Low(b, k))
  {
    if k > 0 {
      hide Xor, Low;
      LowXor(a / 2, b / 2, k - 1);
      LowXorStep(a % 2, a / 2, b % 2, b / 2, k);
    }
  }

  lemma LowXorStep(b1: nat, r1: nat, b2: nat, r2: nat, k: nat)
    requires b1 < 2 && b2 < 2 && k > 0
    requires Low(Xor(r1, r2), k - 1) == Xor(Low(r1, k - 1), Low(r2, k - 1))
    ensures Low(Xor(b1 + 2 * r1, b2 + 2 * r2), k) == Xor(Low(b1 + 2 * r1, k), Low(b2 + 2 * r2, k))
  {
    hide Xor, Low;
    XorBits(b1, r1, b2, r2);
    LowStep(if b1 == b2 then 0 else 1, Xor(r1, r2), k);
    LowStep(b1, r1, k);
    LowStep(b2, r2, k);
    XorBits(b1, Low(r1, k - 1), b2, Low(r2, k - 1));
  }

  lemma Mod4(a: nat)
    ensures a % 4 == a % 2 + 2 * (a / 2 % 2)
  {
    var b := a / 2;
    var c := b / 2;
    assert a == 4 * c + (a % 2 + 2 * (b % 2));
  }

  lemma Mod8(a: nat)
    ensures a % 8 == a % 2 + 2 * (a / 2 % 4)
  {
    var b := a / 2;
    var c := b / 4;
    assert a == 8 * c + (a % 2 + 2 * (b % 4));
  }

  lemma Mod16(a: nat)
    ensures a % 16 == a % 2 + 2 * (a / 2 % 8)
  {
    var b := a / 2;
    var c := b / 8;
    assert a == 16 * c + (a % 2 + 2 * (b % 8));
  }

  lemma Mod32(a: nat)
    ensures a % 32 == a % 2 + 2 * (a / 2 % 16)
  {
    var b := a / 2;
    var c := b / 16;
    assert a == 32 * c + (a % 2 + 2 * (b % 16));
  }

  lemma LowIsMod(a: nat)
    ensures Low(a, 5) == a % 32
  {
    var b := a / 2;
    var c := b / 2;
    var d := c / 2;
    Mod32(a);
    Mod16(b);
    Mod8(c);
    Mod4(d);
    assert Low(d / 2, 1) == d / 2 % 2;
    assert Low(d, 2) == d % 4;
    assert Low(c, 3) == c % 8;
    assert Low(b, 4) == b % 16;
  }

  /** The low five bits of an exclusive or are that of the low five bits. */
  lemma XorLow(a: nat, b: nat)
    ensures Xor(a, b) % 32 == Xor(a % 32, b % 32)
  {
    hide Xor, Low;
    LowIsMod(a);
    LowIsMod(b);
    LowIsMod(Xor(a, b));
    LowXor(a, b, 5);
  }

  lemma XorStep(a: nat, b: nat)
    ensures Xor(a, b) == (if a % 2 == b % 2 then 0 else 1) + 2 * Xor(a / 2, b / 2)
  {
  }

  /** 1099511628211 is 19 more than a multiple of 32. */
  lemma PrimeLow(x: nat)
    ensures (x * PRIME64) % 32 == (x % 32 * 19) % 32
  {
    var q, r := x / 32, x % 32;
    DropMultiple(x * 34359738381 + 19 * q, 19 * r);
  }

  lemma DropMultiple(a: int, b: int)
    ensures (32 * a + b) % 32 == b % 32
  {
  }

  lemma WrapKeepsLow(w: nat)
    ensures w % TWO64 % 32 == w % 32
  {
    var d := w / TWO64;
    assert w == 32 * (576460752303423488 * d) + w % TWO64;
  }

  lemma RoundLow(h: nat, b: byte)
    ensures Round(h, b) % 32 == (Xor(h % 32, b % 32) * 19) % 32
  {
    hide Xor;
    XorLow(h, b);
    PrimeLow(Xor(h, b));
    WrapKeepsLow(Xor(h, b) * PRIME64);
  }

  /** The 64-bit hash, masked, is the five-bit recurrence: for every key. */
  lemma {:induction false} RoutingIsFiveBits(key: Key)
    ensures ShardIndex(key) == Fnv5(key)
  {
    if key != [] {
      RoutingIsFiveBits(key[..|key| - 1]);
      RoundLow(Fnv(key[..|key| - 1]), key[|key| - 1]);
    }
  }

  /** Keys whose bytes agree modulo 32 always share a shard. */
  lemma {:induction false} SameLowBitsSameShard(k1: Key, k2: Key)
    requires |k1| == |k2| && forall i :: 0 <= i < |k1| ==> k1[i] % 32 == k2[i] % 32
    ensures ShardIndex(k1) == ShardIndex(k2)
  {
    if k1 != [] {
      var n := |k1| - 1;
      SameLowBitsSameShard(k1[..n], k2[..n]);
      RoundLow(Fnv(k1[..n]), k1[n]);
      RoundLow(Fnv(k2[..n]), k2[n]);
    }
  }
}
