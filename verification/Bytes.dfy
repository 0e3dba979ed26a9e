/** Octets, and the few facts about sequences that several modules share. */
module Bytes {

  type byte = b: int | 0 <= b < 256

  const CR: byte := 13
  const LF: byte := 10
  const CRLF: seq<byte> := [CR, LF]
  const WORD := 0x1_0000_0000   // a uint32_t counts modulo this

  function Pow(base: nat, e: nat): (p: nat)
    ensures base > 0 ==> p > 0
  {
    if e == 0 then 1 else base * Pow(base, e - 1)
  }

  /** Bit k of a number, the lowest being bit 0. */
  predicate BitAt(a: nat, k: nat) {
    if k == 0 then a % 2 == 1 else BitAt(a / 2, k - 1)
  }

  lemma HalfOf(a: nat, d: nat)
    requires d == 1 || d == 2 || d == 4 || d == 8 || d == 16 || d == 32 || d == 64
    ensures a / 2 / d == a / (2 * d)
  {
    if d == 1 {
    } else if d == 2 {
    } else if d == 4 {
    } else if d == 8 {
    } else if d == 16 {
    } else if d == 32 {
    }
  }

  lemma PowersOfTwo()
    ensures Pow(2, 0) == 1 && Pow(2, 1) == 2 && Pow(2, 2) == 4 && Pow(2, 3) == 8
    ensures Pow(2, 4) == 16 && Pow(2, 5) == 32 && Pow(2, 6) == 64 && Pow(2, 7) == 128
  {
  }

  /** What a mask of that bit tests in an octet. */
  lemma {:induction false} BitTested(a: nat, k: nat)
    requires k < 8
    ensures BitAt(a, k) <==> a / Pow(2, k) % 2 == 1
  {
    PowersOfTwo();
    if k > 0 {
      HalfOf(a, Pow(2, k - 1));
      BitTested(a / 2, k - 1);
    }
  }

  /** The number with these bits, the lowest first: the sum of the powers of two that are set. */
  function FromBits(bits: seq<bool>): (n: nat)
    ensures n < Pow(2, |bits|)
  {
    if bits == [] then 0 else (if bits[0] then 1 else 0) + 2 * FromBits(bits[1..])
  }

  /** The lowest n bits of a number. */
  function Bits(a: nat, n: nat): (bits: seq<bool>)
    ensures |bits| == n
  {
    seq(n, k requires 0 <= k < n => BitAt(a, k))
  }

  /** A number of n bits is made of them. */
  lemma {:induction false} BitsMakeUp(a: nat, n: nat)
    requires a < Pow(2, n)
    ensures FromBits(Bits(a, n)) == a
  {
    if n > 0 {
      assert forall k: nat :: BitAt(a, k + 1) == BitAt(a / 2, k);
      assert Bits(a, n)[1..] == Bits(a / 2, n - 1);
      BitsMakeUp(a / 2, n - 1);
    }
  }

  function Zeros(n: nat): (zeros: seq<byte>)
    ensures |zeros| == n
  {
    seq(n, _ => 0)
  }

  /** The concatenation of a list of sequences. */
  function Concat<T>(parts: seq<seq<T>>): seq<T> {
    if parts == [] then [] else parts[0] + Concat(parts[1..])
  }

  lemma {:induction false} ConcatSnoc<T>(parts: seq<seq<T>>, last: seq<T>)
    ensures Concat(parts + [last]) == Concat(parts) + last
  {
    if parts == [] {
      assert (parts + [last])[1..] == [];
    } else {
      ConcatSnoc(parts[1..], last);
      assert (parts + [last])[1..] == parts[1..] + [last];
    }
  }

  lemma Regroup<T>(s: seq<T>, a: seq<T>, b: seq<T>, c: seq<T>, d: seq<T>, e: seq<T>, f: seq<T>)
    ensures s + a + b + c + d + e + f == s + (a + b + c + d + e + f)
  {
  }

  lemma Together<T>(s: seq<T>, a: seq<T>, b: seq<T>, c: seq<T>)
    ensures s + a + b == s + (a + b) && s + a + b + c == s + (a + b + c)
  {
  }
}
