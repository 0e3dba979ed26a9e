/**
 * The generator of libfortuna: a 128-bit counter in sixteen octets, encrypted block by
 * block, and the new key that comes of the entropy pools. The cipher and the hash are any
 * functions; the pools are given by their digests.
 */
module Fortuna {
  import opened Bytes
  import opened Heap

  // ----- the counter -----

  /** The number that octets denote, least significant first. */
  function Value(octets: seq<byte>): nat {
    if octets == [] then 0 else octets[0] + 256 * Value(octets[1..])
  }

  /** The n octets that denote v. */
  function Octets(n: nat, v: nat): (octets: seq<byte>)
    ensures |octets| == n
  {
    if n == 0 then [] else [v % 256] + Octets(n - 1, v / 256)
  }

  lemma {:induction false} ValueBound(octets: seq<byte>)
    ensures Value(octets) < Pow(256, |octets|)
  {
    if octets != [] {
      ValueBound(octets[1..]);
    }
  }

  /** No two blocks denote the same number. */
  lemma {:induction false} OctetsOfValue(octets: seq<byte>)
    ensures Octets(|octets|, Value(octets)) == octets
  {
    if octets != [] {
      OctetsOfValue(octets[1..]);
      assert Value(octets) / 256 == Value(octets[1..]) && Value(octets) % 256 == octets[0];
    }
  }

  lemma {:induction false} ValueOfOctets(n: nat, v: nat)
    requires v < Pow(256, n)
    ensures Value(Octets(n, v)) == v
  {
    if n > 0 {
      ValueOfOctets(n - 1, v / 256);
      assert Octets(n, v)[1..] == Octets(n - 1, v / 256);
    }
  }

  /** One more, octet by octet. */
  function Next(octets: seq<byte>): (next: seq<byte>)
    ensures |next| == |octets|
  {
    if octets == [] then []
    else if octets[0] < 0xFF then [octets[0] + 1] + octets[1..]
    else [0] + Next(octets[1..])
  }

  /** The carry makes it addition, and it wraps to zero. */
  lemma {:induction false} NextValue(octets: seq<byte>)
    ensures Value(Next(octets)) == if Value(octets) + 1 == Pow(256, |octets|) then 0 else Value(octets) + 1
  {
    if octets == [] {
    } else if octets[0] < 0xFF {
      ValueBound(octets[1..]);
      assert Next(octets)[1..] == octets[1..];
    } else {
      NextValue(octets[1..]);
      assert Next(octets)[1..] == Next(octets[1..]);
    }
  }

  /** The carry runs over the octets that are full and stops at the next. */
  lemma {:induction false} NextAt(octets: seq<byte>, i: nat)
    requires i <= |octets| && (i < |octets| ==> octets[i] < 0xFF)
    requires forall j :: 0 <= j < i ==> octets[j] == 0xFF
    ensures forall j :: 0 <= j < |octets| ==>
              Next(octets)[j] == if j < i then 0 else if j == i then octets[j] + 1 else octets[j]
  {
    if i > 0 {
      NextAt(octets[1..], i - 1);
      forall j | 1 <= j < |octets|
        ensures Next(octets)[j] == if j < i then 0 else if j == i then octets[j] + 1 else octets[j]
      {
        assert Next(octets)[j] == Next(octets[1..])[j - 1];
      }
    }
  }

  lemma {:induction false} ZeroValue(octets: seq<byte>)
    ensures Value(octets) == 0 <==> forall i :: 0 <= i < |octets| ==> octets[i] == 0
  {
    if octets != [] {
      ZeroValue(octets[1..]);
      if forall i :: 0 <= i < |octets[1..]| ==> octets[1..][i] == 0 {
        assert forall i :: 1 <= i < |octets| ==> octets[i] == octets[1..][i - 1];
      } else {
        var i :| 0 <= i < |octets[1..]| && octets[1..][i] != 0;
        assert octets[i + 1] != 0;
      }
    }
  }

  /** struct pico_rand_counter_fortuna */
  class Counter {
    const values: array<byte>

    ghost predicate Valid() {
      values.Length == 16
    }

    /** pico_rand_init_counter on a new block */
    constructor ()
      ensures Valid() && fresh(values) && Value(values[..]) == 0
    {
      values := new byte[16];
      new;
      for i := 0 to 16
        invariant forall j :: 0 <= j < i ==> values[j] == 0
        modifies values
      {
        values[i] := 0;
      }
      ZeroValue(values[..]);
    }

    /** pico_rand_increment_counter */
    method Increment()
      requires Valid()
      modifies values
      ensures values[..] == Next(old(values[..]))
    {
      hide Next;
      ghost var before := values[..];
      var i := 0;
      while i < 16
        invariant 0 <= i <= 16
        invariant forall j :: 0 <= j < i ==> before[j] == 0xFF && values[j] == 0
        invariant forall j :: i <= j < 16 ==> values[j] == before[j]
      {
        if values[i] < 0xFF {
          values[i] := values[i] + 1;
          NextAt(before, i);
          return;
        } else {
          values[i] := 0;
        }
        i := i + 1;
      }
      NextAt(before, 16);
    }

    /** pico_rand_counter_is_zero */
    method IsZero() returns (zero: bool)
      requires Valid()
      ensures zero == (Value(values[..]) == 0)
    {
      ZeroValue(values[..]);
      for i := 0 to 16
        invariant forall j :: 0 <= j < i ==> values[j] == 0
      {
        if values[i] != 0 {
          assert values[..][i] != 0;
          return false;
        }
      }
      return true;
    }
  }

  // ----- the generator -----

  const BLOCK_SIZE := 16
  const LIMIT := 0x1_0000_0000_0000_0000_0000_0000_0000_0000   // 2^128
  const MAX_REQUEST := 2 * 1024 * 1024

  type Block = b: seq<byte> | |b| == 16 witness seq(16, _ => 0)

  type Cipher = (seq<byte>, Block) -> Block

  /** The value a 128-bit counter has after n increments. */
  function Wrap(n: nat): (v: nat)
    ensures v < LIMIT
  {
    n % LIMIT
  }

  lemma LimitIs()
    ensures Pow(256, 16) == LIMIT
  {
    assert Pow(256, 4) == 0x1_0000_0000;
    assert Pow(256, 8) == 0x1_0000_0000_0000_0000;
    assert Pow(256, 12) == 0x1_0000_0000_0000_0000_0000_0000;
  }

  lemma NextCount(octets: seq<byte>, total: nat)
    requires |octets| == 16 && Value(octets) == Wrap(total)
    ensures Value(Next(octets)) == Wrap(total + 1) == Wrap(Value(octets) + 1)
  {
    hide Value, Next, Pow;
    LimitIs();
    NextValue(octets);
  }

  /** start, start + 1, ... */
  function Span(start: nat, n: nat): (span: seq<nat>)
    ensures |span| == n
  {
    seq(n, i requires 0 <= i < n => start + i)
  }

  lemma SpanStep(begun: seq<nat>, start: nat, n: nat)
    ensures begun + Span(start, n + 1) == begun + Span(start, n) + [start + n]
  {
  }

  /** How many of n blocks are produced from counter c: none if unseeded, and none after the
      counter has come round to zero. */
  function Generated(c: nat, n: nat): (g: nat)
    requires c < LIMIT
    ensures g <= n && c + g <= LIMIT
  {
    if c == 0 then 0 else if c + n <= LIMIT then n else LIMIT - c
  }

  lemma GeneratedStep(c: nat, k: nat)
    requires c < LIMIT
    ensures var g := Generated(c, k);
      Generated(c, k + 1) == if Wrap(c + g) == 0 then g else g + 1
    ensures var g := Generated(c, k);
      Wrap(c + g) != 0 ==> Wrap(c + g) == c + k && Wrap(Wrap(c + g) + 1) == Wrap(c + g + 1) && g == k
  {
  }

  /** E(key, c), E(key, c + 1), ... for n blocks. */
  function Keystream(encrypt: Cipher, key: seq<byte>, c: nat, n: nat): (stream: seq<byte>)
    ensures |stream| == 16 * n
  {
    if n == 0 then [] else Keystream(encrypt, key, c, n - 1) + encrypt(key, Octets(16, c + n - 1))
  }

  /** Byte k is byte k % 16 of the encryption of counter c + k / 16. */
  lemma {:induction false} KeystreamByte(encrypt: Cipher, key: seq<byte>, c: nat, n: nat, k: nat)
    requires k < 16 * n
    ensures Keystream(encrypt, key, c, n)[k] == encrypt(key, Octets(16, c + k / 16))[k % 16]
  {
    hide Octets;
    if k < 16 * (n - 1) {
      KeystreamByte(encrypt, key, c, n - 1, k);
    } else {
      assert k / 16 == n - 1 && k % 16 == k - 16 * (n - 1);
    }
  }

  /** What n full blocks become: key stream as far as it is produced, and then untouched. */
  function FullBlocks(encrypt: Cipher, key: seq<byte>, c: nat, before: seq<byte>, n: nat): (bytes: seq<byte>)
    requires c < LIMIT && 16 * n <= |before|
    ensures |bytes| == 16 * n
  {
    var g := Generated(c, n);
    Keystream(encrypt, key, c, g) + before[16 * g..16 * n]
  }

  /** What a last block of which p bytes are wanted becomes, after n full ones. */
  function LastBytes(encrypt: Cipher, key: seq<byte>, c: nat, n: nat, p: nat): (bytes: seq<byte>)
    requires c < LIMIT && p < 16
    ensures |bytes| == p
  {
    if Generated(c, n + 1) == n + 1 then encrypt(key, Octets(16, c + n))[..p] else Zeros(p)
  }

  /** From a seeded counter that does not wrap, a request yields the first bytes of the key stream. */
  lemma RequestIsKeystream(encrypt: Cipher, key: seq<byte>, c: nat, before: seq<byte>, count: nat)
    requires 0 < c && c + (count + 15) / 16 <= LIMIT && c < LIMIT && count <= |before|
    ensures FullBlocks(encrypt, key, c, before, count / 16)
              + LastBytes(encrypt, key, c, count / 16, count % 16)
         == Keystream(encrypt, key, c, (count + 15) / 16)[..count]
  {
    var n, p := count / 16, count % 16;
    assert Generated(c, n) == n;
    if p > 0 {
      assert (count + 15) / 16 == n + 1;
    }
  }

  /** From an unseeded generator it yields what was there before, and zeros in the last block. */
  lemma UnseededOutput(encrypt: Cipher, key: seq<byte>, before: seq<byte>, count: nat)
    requires count <= |before|
    ensures FullBlocks(encrypt, key, 0, before, count / 16) + LastBytes(encrypt, key, 0, count / 16, count % 16)
         == before[..count - count % 16] + Zeros(count % 16)
  {
    assert Keystream(encrypt, key, 0, 0) == [];
  }

  lemma FullBlocksStep(encrypt: Cipher, key: seq<byte>, c: nat, before: seq<byte>, n: nat)
    requires c < LIMIT && 16 * (n + 1) <= |before|
    ensures var g := Generated(c, n);
      FullBlocks(encrypt, key, c, before, n + 1)
        == FullBlocks(encrypt, key, c, before, n)
           + if Wrap(c + g) == 0 then before[16 * n..16 * (n + 1)] else encrypt(key, Octets(16, c + g))
  {
    hide Octets;
    GeneratedStep(c, n);
    var g := Generated(c, n);
    assert before[16 * g..16 * n] + before[16 * n..16 * (n + 1)] == before[16 * g..16 * (n + 1)];
  }

  lemma LastBytesStep(encrypt: Cipher, key: seq<byte>, c: nat, n: nat, p: nat)
    requires c < LIMIT && p < 16
    ensures var at := Wrap(c + Generated(c, n));
      LastBytes(encrypt, key, c, n, p) == if at == 0 then Zeros(p) else encrypt(key, Octets(16, at))[..p]
  {
    hide Octets;
    GeneratedStep(c, n);
  }

  // ----- the seed -----

  const POOLS := 32
  const HASH_SIZE := 32

  /** The final hashes of the pools. */
  predicate AreDigests(pools: seq<seq<byte>>) {
    |pools| == POOLS && forall i :: 0 <= i < POOLS ==> |pools[i]| == HASH_SIZE
  }

  /** Whether pool i is used when the lowest octet of the counter is v. */
  predicate Uses(v: nat, i: nat) {
    i % 8 == 0 || BitAt(v, (i - 1) % 8)
  }

  /** The first n pools that are used. */
  function UsedPools(v: nat, n: nat): seq<nat> {
    if n == 0 then [] else UsedPools(v, n - 1) + if Uses(v, n - 1) then [n - 1] else []
  }

  /** How many of the lowest n bits are set. */
  function Ones(v: nat, n: nat): nat {
    if n == 0 then 0 else Ones(v, n - 1) + if BitAt(v, n - 1) then 1 else 0
  }

  /** All the bytes that pico_rand_extract_seed collects from the first n pools. */
  function Collected(pools: seq<seq<byte>>, v: nat, n: nat): seq<byte>
    requires n <= |pools|
  {
    if n == 0 then [] else Collected(pools, v, n - 1) + if Uses(v, n - 1) then pools[n - 1] else []
  }

  /** Those that are left of the seed when its size has been cut to eight bits. */
  function Seed(pools: seq<seq<byte>>, v: nat): seq<byte>
    requires |pools| == POOLS
  {
    var all := Collected(pools, v, POOLS);
    all[..|all| % 256]
  }

  lemma {:induction false} CollectedFrom(pools: seq<seq<byte>>, v: nat, n: nat)
    requires AreDigests(pools) && n <= POOLS
    ensures |Collected(pools, v, n)| == HASH_SIZE * |UsedPools(v, n)|
    ensures forall k :: 0 <= k < |UsedPools(v, n)| ==> 0 <= UsedPools(v, n)[k] < n
    ensures forall k :: 0 <= k < |UsedPools(v, n)| ==>
              Collected(pools, v, n)[HASH_SIZE * k..HASH_SIZE * (k + 1)] == pools[UsedPools(v, n)[k]]
  {
    hide Uses;
    if n > 0 {
      CollectedFrom(pools, v, n - 1);
      var front, more := Collected(pools, v, n - 1), if Uses(v, n - 1) then pools[n - 1] else [];
      var used := UsedPools(v, n - 1);
      forall k | 0 <= k < |UsedPools(v, n)|
        ensures (front + more)[HASH_SIZE * k..HASH_SIZE * (k + 1)] == pools[UsedPools(v, n)[k]]
      {
        if k < |used| {
          assert HASH_SIZE * (k + 1) <= |front|;
          assert (front + more)[HASH_SIZE * k..HASH_SIZE * (k + 1)] == front[HASH_SIZE * k..HASH_SIZE * (k + 1)];
        } else {
          assert (front + more)[HASH_SIZE * k..HASH_SIZE * (k + 1)] == more;
        }
      }
    }
  }

  /** The pools that are used, each once and in order: every eighth, and those after it whose bits
      are set. */
  lemma {:induction false} UsedExactly(v: nat, n: nat)
    ensures forall i :: i in UsedPools(v, n) <==> 0 <= i < n && (i % 8 == 0 || BitAt(v, i % 8 - 1))
    ensures forall j, k :: 0 <= j < k < |UsedPools(v, n)| ==> UsedPools(v, n)[j] < UsedPools(v, n)[k]
  {
    hide BitAt;
    if n > 0 {
      UsedExactly(v, n - 1);
      var front := UsedPools(v, n - 1);
      assert forall k :: 0 <= k < |front| ==> front[k] in front;
    }
  }

  lemma PoolOfEight(v: nat, j: nat, q: nat)
    requires q < 8
    ensures Uses(v, 8 * j + q) <==> q == 0 || BitAt(v, q - 1)
  {
    hide BitAt;
  }

  /** Of eight pools in a row the first is used, and each other if its bit is set. */
  lemma {:induction false} EightPools(v: nat, j: nat, r: nat)
    requires 1 <= r <= 8
    ensures |UsedPools(v, 8 * j + r)| == |UsedPools(v, 8 * j)| + 1 + Ones(v, r - 1)
  {
    hide BitAt, Uses;
    PoolOfEight(v, j, r - 1);
    if r > 1 {
      EightPools(v, j, r - 1);
    } else {
      assert Ones(v, 0) == 0;
    }
  }

  lemma NoPools(v: nat)
    ensures UsedPools(v, 0) == []
  {
  }

  lemma FourParts(s: seq<byte>)
    requires |s| >= 128
    ensures s[..128] == s[0..32] + s[32..64] + s[64..96] + s[96..128]
  {
  }

  /**
   * The size of the seed does not fit the eight bits it is passed in. Nothing of the seed is
   * left when an odd number of the seven lowest bits of the counter is set, and otherwise the
   * digests of the first four pools that are used.
   */
  lemma SeedIs(pools: seq<seq<byte>>, v: nat)
    requires AreDigests(pools)
    ensures var used := UsedPools(v, POOLS);
      && |Collected(pools, v, POOLS)| == 128 * (1 + Ones(v, 7))
      && if Ones(v, 7) % 2 == 1 then Seed(pools, v) == []
         else
           && |used| >= 4 && (forall k :: 0 <= k < 4 ==> 0 <= used[k] < POOLS)
           && Seed(pools, v) == pools[used[0]] + pools[used[1]] + pools[used[2]] + pools[used[3]]
  {
    hide UsedPools, Ones, Collected;
    EightPools(v, 0, 8);
    EightPools(v, 1, 8);
    EightPools(v, 2, 8);
    EightPools(v, 3, 8);
    NoPools(v);
    CollectedFrom(pools, v, POOLS);
    var all, used, ones := Collected(pools, v, POOLS), UsedPools(v, POOLS), Ones(v, 7);
    assert |used| == 4 * (1 + ones);
    if ones % 2 == 0 {
      assert |all| % 256 == 128;
      FourParts(all);
      assert forall k :: 0 <= k < 4 ==> all[HASH_SIZE * k..HASH_SIZE * (k + 1)] == pools[used[k]];
      assert all[HASH_SIZE * 0..HASH_SIZE * (0 + 1)] == all[0..32];
      assert all[HASH_SIZE * 1..HASH_SIZE * (1 + 1)] == all[32..64];
      assert all[HASH_SIZE * 2..HASH_SIZE * (2 + 1)] == all[64..96];
      assert all[HASH_SIZE * 3..HASH_SIZE * (3 + 1)] == all[96..128];
    } else {
      assert |all| % 256 == 0;
    }
  }

  /** memcpy */
  method Put(buffer: array<byte>, at: nat, bytes: seq<byte>)
    requires at + |bytes| <= buffer.Length
    modifies buffer
    ensures buffer[..] == old(buffer[..at]) + bytes + old(buffer[at + |bytes|..])
  {
    forall i | 0 <= i < |bytes| {
      buffer[at + i] := bytes[i];
    }
  }

  class Generator {
    const encrypt: Cipher
    const hash: seq<byte> -> seq<byte>
    const counter: Counter
    const mem: Memory
    var key: seq<byte>
    ghost var total: nat       // how often the counter has been incremented
    ghost var used: seq<nat>   // the values of `total` at which a block was encrypted

    ghost predicate Valid()
      reads this, counter.values
    {
      && counter.Valid()
      && Value(counter.values[..]) == Wrap(total)
      && (forall i :: 0 <= i < |used| ==> used[i] < total)
      && (forall i, j :: 0 <= i < j < |used| ==> used[i] < used[j])
    }

    /** The counter as a number. */
    ghost function Count(): nat
      reads counter.values
    {
      Value(counter.values[..])
    }

    /** pico_rand_init: unseeded. */
    constructor (encrypt: Cipher, hash: seq<byte> -> seq<byte>, key: seq<byte>, mem: Memory)
      ensures Valid() && fresh(counter) && fresh(counter.values)
      ensures Count() == 0 && total == 0 && used == [] && this.key == key && this.mem == mem
      ensures this.encrypt == encrypt && this.hash == hash
    {
      this.encrypt, this.hash, this.key, this.mem, total, used := encrypt, hash, key, mem, 0, [];
      counter := new Counter();
    }

    /** Up to 2^128 increments, no block is ever encrypted twice. */
    lemma NeverRepeats(i: nat, j: nat)
      requires Valid() && total <= LIMIT && i < j < |used|
      ensures Octets(16, used[i]) != Octets(16, used[j])
    {
      LimitIs();
      ValueOfOctets(16, used[i]);
      ValueOfOctets(16, used[j]);
    }

    method Increment()
      requires Valid()
      modifies counter.values, this`total
      ensures Valid() && total == old(total) + 1
      ensures Count() == Wrap(old(Count()) + 1)
    {
      hide Value, Next;
      NextCount(counter.values[..], total);
      counter.Increment();
      total := total + 1;
    }

    /** The test in pico_rand_extract_seed. */
    method IsUsed(i: nat) returns (used: bool)
      requires counter.Valid()
      ensures used == Uses(counter.values[0], i)
    {
      BitTested(counter.values[0], (i - 1) % 8);
      used := i % 8 == 0 || counter.values[0] / Pow(2, (i - 1) % 8) % 2 == 1;
    }

    /** pico_rand_extract_seed, into a buffer that has room for every pool. */
    method ExtractSeed(pools: seq<seq<byte>>, seed: array<byte>) returns (size: nat)
      requires Valid() && AreDigests(pools) && seed.Length == POOLS * HASH_SIZE && seed != counter.values
      modifies seed
      ensures size <= seed.Length && seed[..size] == Collected(pools, counter.values[0], POOLS)
      ensures size == 128 * (1 + Ones(counter.values[0], 7))
    {
      hide Uses, UsedPools;
      ghost var v := counter.values[0];
      var added := 0;
      for i := 0 to POOLS
        invariant 0 <= added <= i && HASH_SIZE * added == |Collected(pools, v, i)|
        invariant seed[..HASH_SIZE * added] == Collected(pools, v, i)
      {
        var used := IsUsed(i);
        if used {
          ghost var before := seed[..HASH_SIZE * added];
          Put(seed, HASH_SIZE * added, pools[i]);
          assert seed[..HASH_SIZE * (added + 1)] == before + pools[i];
          added := added + 1;
        }
      }
      SeedIs(pools, v);
      size := added * HASH_SIZE;
    }

    /** pico_rand_reseed, with an eight-bit size; without memory nothing happens. */
    method Reseed(seed: array<byte>, seedSize: nat) returns (ok: bool)
      requires Valid() && seedSize <= seed.Length && seedSize < 256 && seed != counter.values
      modifies this`key, this`total, counter.values, mem
      ensures Valid() && ok == mem.plan(old(mem.asked)) && mem.asked == old(mem.asked) + 1
      ensures mem.refusals == old(mem.refusals) + if ok then 0 else 1
      ensures key == if ok then hash(old(key) + old(seed[..seedSize])) else old(key)
      ensures total == old(total) + if ok then 1 else 0
      ensures Count() == if ok then Wrap(old(Count()) + 1) else old(Count())
    {
      hide Wrap;
      ok := mem.Grant();
      if ok {
        key := hash(key + seed[..seedSize]);
        Increment();
      }
    }

    lemma SeedBytes(pools: seq<seq<byte>>, v: nat, seed: seq<byte>, size: nat)
      requires AreDigests(pools) && size <= |seed| && seed[..size] == Collected(pools, v, POOLS)
      ensures seed[..size % 256] == Seed(pools, v)
    {
      hide Collected;
      assert seed[..size % 256] == seed[..size][..size % 256];
    }

    /** The part of pico_rand_bytes that makes a new key. */
    method Renew(pools: seq<seq<byte>>) returns (ok: bool)
      requires Valid() && AreDigests(pools)
      modifies this`key, this`total, counter.values, mem
      ensures Valid() && ok == mem.plan(old(mem.asked))
      ensures var a := old(mem.asked);
        var anew := mem.plan(a) && mem.plan(a + 1);
        && key == (if anew then hash(old(key) + Seed(pools, old(counter.values[0]))) else old(key))
        && total == old(total) + (if anew then 1 else 0)
        && Count() == (if anew then Wrap(old(Count()) + 1) else old(Count()))
        && mem.refusals == old(mem.refusals) + if anew then 0 else 1
    {
      hide Value, Wrap, Seed, Ones;
      ghost var v := counter.values[0];
      ok := mem.Grant();
      if ok {
        var seed := new byte[POOLS * HASH_SIZE](_ => 0);
        var size := ExtractSeed(pools, seed);
        SeedBytes(pools, v, seed[..], size);
        var _ := Reseed(seed, size % 256);
      }
    }

    /** pico_rand_generate_block, into the bufferSize bytes at `at`. */
    method GenerateBlock(buffer: array<byte>, at: nat, bufferSize: nat) returns (ok: bool)
      requires Valid() && at + bufferSize <= buffer.Length && buffer != counter.values
      modifies buffer, this`total, this`used, counter.values
      ensures Valid() && ok == (old(Count()) != 0 && bufferSize >= BLOCK_SIZE)
      ensures ok ==>
                && buffer[..] == old(buffer[..at]) + encrypt(key, Octets(16, old(Count()))) + old(buffer[at + 16..])
                && total == old(total) + 1 && used == old(used) + [old(total)]
                && Count() == Wrap(old(Count()) + 1)
      ensures !ok ==>
                buffer[..] == old(buffer[..]) && total == old(total) && used == old(used) && Count() == old(Count())
    {
      var zero := counter.IsZero();
      if zero {
        return false;
      }
      if bufferSize < BLOCK_SIZE {
        return false;
      }
      OctetsOfValue(counter.values[..]);
      Put(buffer, at, encrypt(key, counter.values[..]));
      Increment();
      used := used + [total - 1];
      ok := true;
    }

    /** pico_rand_generate_block for a last block of which only n bytes are wanted. */
    method LastBlock(buffer: array<byte>, at: nat, n: nat) returns (ok: bool)
      requires Valid() && at + n <= buffer.Length && 0 < n < 16 && buffer != counter.values
      modifies buffer, this`total, this`used, counter.values, mem
      ensures Valid() && mem.refusals == old(mem.refusals) + if ok then 0 else 1
      ensures ok ==>
                && buffer[..] == old(buffer[..at])
                     + (if old(Count()) == 0 then Zeros(n) else encrypt(key, Octets(16, old(Count())))[..n])
                     + old(buffer[at + n..])
                && total == old(total) + (if old(Count()) == 0 then 0 else 1)
                && used == old(used) + (if old(Count()) == 0 then [] else [old(total)])
                && Count() == (if old(Count()) == 0 then 0 else Wrap(old(Count()) + 1))
      ensures !ok ==>
                buffer[..] == old(buffer[..]) && total == old(total) && used == old(used) && Count() == old(Count())
    {
      hide Octets;
      var granted := mem.Grant();
      if !granted {
        return false;
      }
      var blockBuffer := new byte[16](_ => 0);
      var generated := GenerateBlock(blockBuffer, 0, 16);
      assert blockBuffer[..n] == if old(Count()) == 0 then Zeros(n) else encrypt(key, Octets(16, old(Count())))[..n];
      Put(buffer, at, blockBuffer[..n]);
      ok := true;
    }

    /** The counters after k blocks have been asked for since counter c and total `start`. */
    ghost predicate Advanced(c: nat, start: nat, begun: seq<nat>, k: nat)
      requires c < LIMIT
      reads this, counter.values
    {
      && total == start + Generated(c, k)
      && Count() == Wrap(c + Generated(c, k))
      && used == begun + Span(start, Generated(c, k))
    }

    /** After k full blocks of a request. */
    ghost predicate Partway(c: nat, start: nat, begun: seq<nat>, before: seq<byte>, now: seq<byte>, k: nat)
      requires c < LIMIT && 16 * k <= |before|
      reads this, counter.values
    {
      && Advanced(c, start, begun, k)
      && now == FullBlocks(encrypt, key, c, before, k) + before[16 * k..]
    }

    /** After a whole request: nothing but the bytes asked for has changed. */
    ghost predicate Served(c: nat, start: nat, begun: seq<nat>, before: seq<byte>, now: seq<byte>, count: nat)
      requires c < LIMIT && count <= |before|
      reads this, counter.values
    {
      && Advanced(c, start, begun, (count + 15) / 16)
      && now == FullBlocks(encrypt, key, c, before, count / 16)
                + (LastBytes(encrypt, key, c, count / 16, count % 16) + before[count..])
    }

    /** A request served from a seeded counter that does not wrap. */
    lemma ServedIsKeystream(c: nat, start: nat, begun: seq<nat>, before: seq<byte>, now: seq<byte>, count: nat)
      requires 0 < c < LIMIT && count <= |before| && c + (count + 15) / 16 <= LIMIT
      requires Served(c, start, begun, before, now, count)
      ensures var n := (count + 15) / 16;
        && now == Keystream(encrypt, key, c, n)[..count] + before[count..]
        && total == start + n && used == begun + Span(start, n) && Count() == Wrap(c + n)
    {
      hide FullBlocks, LastBytes, Keystream, Wrap, Span;
      RequestIsKeystream(encrypt, key, c, before, count);
      var full, last := FullBlocks(encrypt, key, c, before, count / 16),
                        LastBytes(encrypt, key, c, count / 16, count % 16);
      assert full + (last + before[count..]) == full + last + before[count..];
    }

    /** One more full block. Nobody looks at what pico_rand_generate_block returns. */
    method FullBlock(buffer: array<byte>, ghost before: seq<byte>, k: nat,
                     ghost c: nat, ghost start: nat, ghost begun: seq<nat>)
      requires Valid() && c < LIMIT && buffer != counter.values && 16 * (k + 1) <= |before|
      requires Partway(c, start, begun, before, buffer[..], k)
      modifies buffer, this`total, this`used, counter.values
      ensures Valid() && Partway(c, start, begun, before, buffer[..], k + 1)
    {
      hide FullBlocks, Octets, Generated, Keystream, Zeros, Span, Value, Wrap;
      ghost var done := FullBlocks(encrypt, key, c, before, k);
      GeneratedStep(c, k);
      SpanStep(begun, start, Generated(c, k));
      FullBlocksStep(encrypt, key, c, before, k);
      assert buffer[..16 * k] == done && buffer[16 * k + 16..] == before[16 * (k + 1)..];
      assert before[16 * k..] == before[16 * k..16 * (k + 1)] + before[16 * (k + 1)..];
      var ok := GenerateBlock(buffer, 16 * k, BLOCK_SIZE);
    }

    /** The last block, when fewer than 16 bytes are still wanted. */
    method PartBlock(buffer: array<byte>, ghost before: seq<byte>, k: nat, n: nat,
                     ghost c: nat, ghost start: nat, ghost begun: seq<nat>) returns (ok: bool)
      requires Valid() && c < LIMIT && buffer != counter.values && 0 < n < 16 && 16 * k + n <= |before|
      requires Partway(c, start, begun, before, buffer[..], k)
      modifies buffer, this`total, this`used, counter.values, mem
      ensures Valid() && mem.refusals == old(mem.refusals) + if ok then 0 else 1
      ensures ok ==> Served(c, start, begun, before, buffer[..], 16 * k + n)
      ensures !ok ==> Partway(c, start, begun, before, buffer[..], k)
    {
      hide FullBlocks, LastBytes, Octets, Generated, Keystream, Zeros, Span, Value, Wrap;
      ghost var done, last := FullBlocks(encrypt, key, c, before, k), LastBytes(encrypt, key, c, k, n);
      GeneratedStep(c, k);
      SpanStep(begun, start, Generated(c, k));
      LastBytesStep(encrypt, key, c, k, n);
      assert buffer[..16 * k] == done && buffer[16 * k + n..] == before[16 * k + n..];
      ok := LastBlock(buffer, 16 * k, n);
      assert ok ==> buffer[..] == done + last + before[16 * k + n..];
      assert (16 * k + n) / 16 == k && (16 * k + n) % 16 == n && (16 * k + n + 15) / 16 == k + 1;
    }

    lemma NothingYet(before: seq<byte>)
      requires Count() < LIMIT
      ensures Partway(Count(), total, used, before, before, 0)
    {
    }

    /** Full blocks can be the whole of a request. */
    lemma NoPart(c: nat, start: nat, begun: seq<nat>, before: seq<byte>, now: seq<byte>, k: nat)
      requires c < LIMIT && 16 * k <= |before| && Partway(c, start, begun, before, now, k)
      ensures Served(c, start, begun, before, now, 16 * k)
    {
      hide FullBlocks;
      assert LastBytes(encrypt, key, c, k, 0) + before[16 * k..] == before[16 * k..];
    }

    /** The loop of pico_rand_bytes. */
    method Blocks(buffer: array<byte>, count: nat) returns (r: int)
      requires Valid() && 0 < count <= buffer.Length && buffer != counter.values && Count() < LIMIT
      modifies buffer, this`total, this`used, counter.values, mem
      ensures Valid() && (r == 1 || (r == 0 && count % 16 != 0))
      ensures mem.refusals == old(mem.refusals) + if r == 1 then 0 else 1
      ensures r == 1 ==>
                Served(old(Count()), old(total), old(used), old(buffer[..]), buffer[..], count)
      ensures r == 0 ==>
                Partway(old(Count()), old(total), old(used), old(buffer[..]), buffer[..], count / 16)
    {
      hide Partway, Served;
      ghost var c, start, begun, before := Count(), total, used, buffer[..];
      NothingYet(before);
      var blocksDone := 0;
      var remaining: int := count;
      while remaining > 0
        invariant mem.refusals == old(mem.refusals)
        invariant Valid() && 0 <= 16 * blocksDone <= count
        invariant remaining == count - 16 * blocksDone || remaining < 0
        invariant remaining >= 0 ==> Partway(c, start, begun, before, buffer[..], blocksDone)
        invariant remaining < 0 ==> Served(c, start, begun, before, buffer[..], count)
      {
        if remaining / 16 > 0 {
          FullBlock(buffer, before, blocksDone, c, start, begun);
          blocksDone := blocksDone + 1;
        } else {
          var ok := PartBlock(buffer, before, blocksDone, remaining, c, start, begun);
          if !ok {
            return 0;
          }
        }
        remaining := remaining - BLOCK_SIZE;
      }
      r := 1;
      if remaining == 0 {
        NoPart(c, start, begun, before, buffer[..], blocksDone);
      }
    }

    lemma CountBound()
      requires Valid()
      ensures Count() < LIMIT
    {
    }

    /**
     * pico_rand_bytes. Only a request of a bad size or a lack of memory is refused: with no
     * seed, or with a counter that comes round to zero, it still reports success, and so it
     * does when there is no memory to make a new key.
     */
    method RandBytes(buffer: array<byte>, count: int, due: bool, pools: seq<seq<byte>>) returns (r: int)
      requires Valid() && count <= buffer.Length && buffer != counter.values && AreDigests(pools)
      modifies buffer, this`key, this`total, this`used, counter.values, mem
      ensures Valid()
      ensures var good, a := 0 < count < MAX_REQUEST, old(mem.asked);
        var anew := due && mem.plan(a) && mem.plan(a + 1);
        var c := if anew then Wrap(old(Count()) + 1) else old(Count());
        var start := old(total) + if anew then 1 else 0;
        if !good || (due && !mem.plan(a)) then
          r == 0 && buffer[..] == old(buffer[..]) && key == old(key)
          && Count() == old(Count()) && total == old(total) && used == old(used)
        else
          && c < LIMIT && (r == 1 || (r == 0 && count % 16 != 0))
          && key == (if anew then hash(old(key) + Seed(pools, old(counter.values[0]))) else old(key))
          && (r == 1 <==> mem.refusals == old(mem.refusals) + if due && !anew then 1 else 0)
          && (if r == 1
              then Served(c, start, old(used), old(buffer[..]), buffer[..], count)
              else Partway(c, start, old(used), old(buffer[..]), buffer[..], count / 16))
    {
      hide Partway, Served, Wrap, Seed;
      if !(0 < count < MAX_REQUEST) {
        return 0;
      }
      if due {
        var ok := Renew(pools);
        if !ok {
          return 0;
        }
      }
      CountBound();
      r := Blocks(buffer, count);
    }
  }
}
