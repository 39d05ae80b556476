/**
  MurmurHash3, the x86 32-bit variant of MurmurHash3.cpp. The key is a byte
  sequence read as little-endian 32-bit blocks (the native order of x86, on
  which the source reads its blocks through a `uint32_t` pointer). Every word
  is a `bv32`, so every multiplication and addition wraps modulo 2^32 exactly
  as `uint32_t` arithmetic does.
*/
module Murmur3 {
  const C1: bv32 := 0xcc9e2d51
  const C2: bv32 := 0x1b873593

  /** Lengths travel in an `int`: the key may hold at most 2^31 - 1 bytes. */
  const MaxLen: nat := 0x8000_0000

  /** A `uint32_t` product: the low 32 bits of a * b. */
  function Mul(a: bv32, b: bv32): bv32
  {
    a * b
  }

  /** `a ^ b`. */
  function Xor(a: bv32, b: bv32): bv32
  {
    a ^ b
  }

  /** A `uint32_t` sum: a + b modulo 2^32. */
  function Add(a: bv32, b: bv32): bv32
  {
    a + b
  }

  /** A length as the `uint32_t` it is converted to: its low 32 bits. */
  function Word(n: nat): bv32
  {
    if n < 0x1_0000_0000 then n as bv32 else (n % 0x1_0000_0000) as bv32
  }

  /** `rotl`: the word x rotated left by r places. */
  function Rotl(x: bv32, r: bv32): bv32
    requires 0 < r < 32
  {
    (x << r) | (x >> (32 - r))
  }

  /** The rotation of a block by 15: its top 17 bits are the low 17 bits of
      x, and its low 15 bits are the top 15 bits of x. */
  lemma Rotl15(x: bv32)
    ensures Rotl(x, 15) >> 15 == x & 0x1_ffff
    ensures Rotl(x, 15) & 0x7fff == x >> 17
  {
  }

  /** The rotation of the hash by 13: its top 19 bits are the low 19 bits of
      x, and its low 13 bits are the top 13 bits of x. */
  lemma Rotl13(x: bv32)
    ensures Rotl(x, 13) >> 13 == x & 0x7_ffff
    ensures Rotl(x, 13) & 0x1fff == x >> 19
  {
  }

  /** Rotating on by the rest of the word gives x back, so neither rotation
      loses a bit. */
  lemma RotlInverse(x: bv32)
    ensures Rotl(Rotl(x, 13), 19) == x
    ensures Rotl(Rotl(x, 15), 17) == x
  {
  }

  // ---------------------------------------------------------------------------
  // Reading the key

  /** Block j of the key: bytes 4j .. 4j+3, the first one lowest. */
  function Block(data: seq<bv8>, j: nat): (w: bv32)
    requires 4 * j + 4 <= |data|
    ensures (w & 0xff) as bv8 == data[4 * j]
    ensures ((w >> 8) & 0xff) as bv8 == data[4 * j + 1]
    ensures ((w >> 16) & 0xff) as bv8 == data[4 * j + 2]
    ensures (w >> 24) as bv8 == data[4 * j + 3]
  {
    (data[4 * j] as bv32)
      | ((data[4 * j + 1] as bv32) << 8)
      | ((data[4 * j + 2] as bv32) << 16)
      | ((data[4 * j + 3] as bv32) << 24)
  }

  /** The index of the first byte after the last whole block. */
  function TailStart(n: nat): (t: nat)
    ensures t <= n && n - t == n % 4 && t % 4 == 0
  {
    n / 4 * 4
  }

  /** The 0 to 3 bytes after the last whole block, combined with the first
      one lowest; the bits above them stay zero. */
  function Tail(data: seq<bv8>): (k: bv32)
    ensures var t := TailStart(|data|);
      && (|data| % 4 >= 1 ==> (k & 0xff) as bv8 == data[t])
      && (|data| % 4 >= 2 ==> ((k >> 8) & 0xff) as bv8 == data[t + 1])
      && (|data| % 4 == 3 ==> ((k >> 16) & 0xff) as bv8 == data[t + 2])
      && (|data| % 4 == 0 ==> k == 0)
      && (|data| % 4 == 1 ==> k >> 8 == 0)
      && (|data| % 4 == 2 ==> k >> 16 == 0)
      && (|data| % 4 == 3 ==> k >> 24 == 0)
  {
    var t := TailStart(|data|);
    if |data| % 4 == 3 then
      ((data[t + 2] as bv32) << 16) ^ ((data[t + 1] as bv32) << 8) ^ (data[t] as bv32)
    else if |data| % 4 == 2 then
      ((data[t + 1] as bv32) << 8) ^ (data[t] as bv32)
    else if |data| % 4 == 1 then
      data[t] as bv32
    else
      0
  }

  // ---------------------------------------------------------------------------
  // Mixing

  /** The scrambling of one block (or of the tail) before it meets the hash. */
  function MixK(k: bv32): bv32
  {
    Mul(Rotl(Mul(k, C1), 15), C2)
  }

  /** One step of the block loop: the scrambled block is folded into the hash. */
  function MixH(h: bv32, k: bv32): bv32
  {
    Add(Mul(Rotl(Xor(h, MixK(k)), 13), 5), 0xe6546b64)
  }

  /** One avalanche step of the finaliser: the top 32 - n bits are folded
      into the bits below them. */
  function XorShift(h: bv32, n: bv32): bv32
    requires 0 < n < 32
  {
    Xor(h, h >> n)
  }

  /** The finaliser `fmix32`. */
  function Fmix(h: bv32): bv32
  {
    XorShift(Mul(XorShift(Mul(XorShift(h, 16), 0x85ebca6b), 13), 0xc2b2ae35), 16)
  }

  // ---------------------------------------------------------------------------
  // The hash

  /** The running hash after the first n blocks, mixed in forward order. */
  function Body(data: seq<bv8>, seed: bv32, n: nat): bv32
    requires 4 * n <= |data|
  {
    if n == 0 then seed else MixH(Body(data, seed, n - 1), Block(data, n - 1))
  }

  /** The tail is folded in (without the rotation and multiplication of a
      block step) only when there is one. */
  function MixTail(h: bv32, data: seq<bv8>): bv32
  {
    if |data| % 4 != 0 then Xor(h, MixK(Tail(data))) else h
  }

  /** MurmurHash3_x86_32 of the key under the seed. */
  function Hash(data: seq<bv8>, seed: bv32): bv32
  {
    Fmix(Xor(MixTail(Body(data, seed, |data| / 4), data), Word(|data|)))
  }

  /** An empty key leaves only the finaliser: the seed 0 hashes it to 0. */
  lemma HashEmpty(seed: bv32)
    ensures Hash([], seed) == Fmix(seed)
    ensures Hash([], 0) == 0
  {
  }

  /** Reference values of MurmurHash3_x86_32: a single whole block. */
  lemma OneBlockVector()
    ensures Hash([0x21, 0x43, 0x65, 0x87], 0) == 0xf55b516b
  {
  }

  /** A key of three bytes is all tail: they are combined low byte first. */
  lemma TailVector()
    ensures Hash([0x21, 0x43, 0x65], 0) == 0x7e4a8634
  {
    var d: seq<bv8> := [0x21, 0x43, 0x65];
    assert TailStart(3) == 0;
    assert Tail(d) == 0x654321;
    assert Body(d, 0, 0) == 0;
    assert MixTail(0, d) == Xor(0, MixK(0x654321));
  }

  /** The word "hello" under the seed 42 that the feature hashing uses: one
      block and a one-byte tail. */
  lemma HelloVector()
    ensures Hash([0x68, 0x65, 0x6c, 0x6c, 0x6f], 42) == 0xe2dbd2e1
  {
    var d: seq<bv8> := [0x68, 0x65, 0x6c, 0x6c, 0x6f];
    assert TailStart(5) == 4;
    assert Tail(d) == 0x6f;
    assert Block(d, 0) == 0x6c6c6568;
    assert Body(d, 42, 1) == MixH(42, 0x6c6c6568);
    assert MixTail(Body(d, 42, 1), d) == Xor(MixH(42, 0x6c6c6568), MixK(0x6f));
  }

  /** The tail of the first len bytes at key, combined byte by byte. */
  method TailWord(key: seq<bv8>, len: int) returns (k1: bv32)
    requires 0 <= len <= |key| && len < MaxLen
    ensures k1 == Tail(key[..len])
  {
    var tail := len / 4 * 4;
    k1 := 0;
    var tailLen := len % 4;
    if tailLen == 3 {
      k1 := k1 ^ ((key[tail + 2] as bv32) << 16);
      k1 := k1 ^ ((key[tail + 1] as bv32) << 8);
      k1 := k1 ^ (key[tail] as bv32);
    } else if tailLen == 2 {
      k1 := k1 ^ ((key[tail + 1] as bv32) << 8);
      k1 := k1 ^ (key[tail] as bv32);
    } else if tailLen == 1 {
      k1 := k1 ^ (key[tail] as bv32);
    }
  }

  /** The block loop of `MurmurHash3`: the blocks of the first len bytes at
      key are mixed into the seed, the loop index running from -nblocks up to
      0 over blocks 0 to nblocks - 1. */
  method MixBlocks(key: seq<bv8>, len: int, seed: bv32) returns (h1: bv32)
    requires 0 <= len <= |key| && len < MaxLen
    ensures h1 == Body(key[..len], seed, len / 4)
  {
    ghost var data := key[..len];
    h1 := seed;
    var nblocks := len / 4;
    var i := -nblocks;
    while i != 0
      invariant -nblocks <= i <= 0
      invariant h1 == Body(data, seed, nblocks + i)
      decreases -i
    {
      assert Block(data, nblocks + i) == Block(key, nblocks + i);
      var k1 := Block(key, nblocks + i);
      k1 := Mul(k1, C1);
      k1 := Rotl(k1, 15);
      k1 := Mul(k1, C2);
      h1 := Xor(h1, k1);
      h1 := Rotl(h1, 13);
      h1 := Add(Mul(h1, 5), 0xe6546b64);
      i := i + 1;
    }
  }

  /** `MurmurHash3(key, len, seed, out)`: hashes the first len bytes of the
      memory at key: the blocks, then the tail, then the finaliser. The hash
      is the result rather than a write through `out`. */
  method MurmurHash3(key: seq<bv8>, len: int, seed: bv32) returns (out: bv32)
    requires 0 <= len <= |key| && len < MaxLen
    ensures out == Hash(key[..len], seed)
  {
    var h1 := MixBlocks(key, len, seed);
    var k1 := TailWord(key, len);
    var tailLen := len % 4;
    if tailLen != 0 {
      k1 := Mul(k1, C1);
      k1 := Rotl(k1, 15);
      k1 := Mul(k1, C2);
      h1 := Xor(h1, k1);
    }
    h1 := Xor(h1, Word(len));
    h1 := XorShift(h1, 16);
    h1 := Mul(h1, 0x85ebca6b);
    h1 := XorShift(h1, 13);
    h1 := Mul(h1, 0xc2b2ae35);
    h1 := XorShift(h1, 16);
    out := h1;
  }
}
