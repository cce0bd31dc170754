/**
 * The key source the benchmark driver was meant to use (as written, the
 * driver does not draw from it): Robert Jenkins' 32-bit integer hash,
 * stepped from a fixed seed. Every `& 0xffffffff` of `generate_key` in splay.py is
 * the wrap-around of `bv32` arithmetic, so the state is a `bv32`. The stream
 * yields the 28-bit numerator `seed & 0xfffffff`; the division that turns it
 * into a float in [0, 1) is not part of this model.
 */
module KeyHash {

  /** The seed the generator starts from. */
  const InitialSeed: bv32 := 49734321

  /** The division the numerator is meant for: 2 to the 28th. */
  const Denominator: bv32 := 0x1000_0000

  /**
   * Rotate right by `bits`, written as splay.py:67 writes it: the bits
   * shifted out on the right come back in on the left.
   */
  function Ror(x: bv32, bits: bv32): bv32
    requires 0 < bits < 32
  {
    (x >> bits) | (x << (32 - bits))
  }

  /** At the two widths the hash uses, `Ror` is the 32-bit right rotation. */
  lemma RorIsRotation(x: bv32)
    ensures Ror(x, 19) == x.RotateRight(19)
    ensures Ror(x, 16) == x.RotateRight(16)
  {
  }

  /**
   * Mixing line `line` (1 to 6, in the order of splay.py:72-77) of one round of the
   * hash, applied to the state `s`.
   */
  function MixLine(line: nat, s: bv32): bv32
    requires 1 <= line <= 6
  {
    match line
    case 1 => (s + 0x7ed55d16) + (s << 12)
    case 2 => (s ^ 0xc761c23c) ^ Ror(s, 19)
    case 3 => (s + 0x165667b1) + (s << 5)
    case 4 => (s + 0xd3a2646c) ^ (s << 9)
    case 5 => (s + 0xfd7046c5) + (s << 3)
    case 6 => (s ^ 0xb55a4f09) ^ Ror(s, 16)
  }

  /** The state after the first `lines` mixing lines of a round. */
  function Mix(lines: nat, seed: bv32): bv32
    requires lines <= 6
  {
    if lines == 0 then seed else MixLine(lines, Mix(lines - 1, seed))
  }

  /** One round of the hash: all six mixing lines, each wrapping modulo 2 to the 32nd. */
  function HashStep(seed: bv32): bv32
  {
    Mix(6, seed)
  }

  /** The number yielded for a state: its low 28 bits, below the denominator. */
  function Numerator(seed: bv32): (n: bv32)
    ensures n < Denominator
  {
    seed & 0xfff_ffff
  }

  /** The state after `n` rounds: a function of the initial seed and `n` alone. */
  function SeedAfter(n: nat): bv32
  {
    if n == 0 then InitialSeed else HashStep(SeedAfter(n - 1))
  }

  /** The `i`-th number yielded, counting from zero. */
  function Draw(i: nat): (n: bv32)
    ensures n < Denominator
  {
    Numerator(SeedAfter(i + 1))
  }

  /** The first `n` numbers of the stream, in order. */
  function Draws(n: nat): (d: seq<bv32>)
    ensures |d| == n
    ensures forall i :: 0 <= i < n ==> d[i] == Draw(i) && d[i] < Denominator
  {
    if n == 0 then [] else Draws(n - 1) + [Draw(n - 1)]
  }

  /** The first values of the stream, fixed by the initial seed. */
  lemma FirstDraws()
    ensures SeedAfter(1) == 0x36ef_ccbc && Draw(0) == 0x6ef_ccbc
    ensures SeedAfter(2) == 0x8d50_7703 && Draw(1) == 0xd50_7703
    ensures SeedAfter(3) == 0x6cb4_96e7 && Draw(2) == 0xcb4_96e7
  {
    assert SeedAfter(1) == HashStep(InitialSeed) == 0x36ef_ccbc;
    assert SeedAfter(2) == HashStep(0x36ef_ccbc) == 0x8d50_7703;
    assert SeedAfter(3) == HashStep(0x8d50_7703) == 0x6cb4_96e7;
  }

  /**
   * The running generator: its state is the seed, and each call runs one
   * round and yields the numerator of the new state.
   */
  class KeyGenerator {
    var seed: bv32
    /** How many numbers have been yielded so far. */
    ghost var drawn: nat

    ghost predicate Valid()
      reads this
    {
      seed == SeedAfter(drawn)
    }

    constructor ()
      ensures Valid() && drawn == 0 && seed == InitialSeed
    {
      seed := InitialSeed;
      drawn := 0;
    }

    /** The next number of the stream. */
    method Next() returns (n: bv32)
      requires Valid()
      modifies this
      ensures Valid() && drawn == old(drawn) + 1
      ensures n == Draw(old(drawn)) && n < Denominator
    {
      seed := HashStep(seed);
      drawn := drawn + 1;
      n := Numerator(seed);
    }
  }

  /** The first `count` numbers of the stream, computed by running the rounds in a loop. */
  method GenerateKeys(count: nat) returns (keys: seq<bv32>)
    ensures keys == Draws(count)
  {
    var seed := InitialSeed;
    keys := [];
    while |keys| < count
      invariant |keys| <= count
      invariant seed == SeedAfter(|keys|)
      invariant keys == Draws(|keys|)
    {
      seed := HashStep(seed);
      keys := keys + [Numerator(seed)];
    }
  }
}
