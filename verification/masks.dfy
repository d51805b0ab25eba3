/** The exhaustive solver's enumeration: an integer mask read as a sequence of
    directions, bit i set meaning step i goes south. */
module Masks {
  import opened Paths

  /** The number of masks of width n (the source's `pow(2, n)`). */
  function Pow2(n: nat): (r: nat)
    ensures r >= 1
  {
    if n == 0 then 1 else 2 * Pow2(n - 1)
  }

  /** Bit i of m, counting from the least significant. */
  function Bit(m: nat, i: nat): bool {
    if i == 0 then m % 2 == 1 else Bit(m / 2, i - 1)
  }

  function DirOf(bit: bool): Dir {
    if bit then South else East
  }

  /** The n directions a mask stands for. */
  function Decode(m: nat, n: nat): seq<Dir> {
    seq(n, i requires 0 <= i < n => DirOf(Bit(m, i)))
  }

  /** The mask of a direction sequence: bit i set iff step i is south. */
  function Encode(dirs: seq<Dir>): nat {
    if |dirs| == 0 then 0
    else (if dirs[0] == South then 1 else 0) + 2 * Encode(dirs[1..])
  }

  lemma {:induction false} MulAtLeast(d: nat, k: nat)
    requires k >= 1
    ensures d * k >= d
  {
    if k > 1 {
      MulAtLeast(d, k - 1);
      assert d * k == d * (k - 1) + d;
    }
  }

  lemma DivUnique(m: int, d: int, a: int, r: int)
    requires d > 0 && 0 <= r < d && m == d * a + r
    ensures m / d == a
  {
    var q := m / d;
    var s := m % d;
    assert m == d * q + s;
    if q > a {
      assert d * (q - a) == r - s;
      MulAtLeast(d, q - a);
    } else if q < a {
      assert d * (a - q) == s - r;
      MulAtLeast(d, a - q);
    }
  }

  lemma DivHalf(m: nat, p: nat)
    requires p > 0
    ensures (m / 2) / p == m / (2 * p)
  {
    var a := (m / 2) / p;
    var b := (m / 2) % p;
    assert m / 2 == p * a + b;
    assert m == (2 * p) * a + (2 * b + m % 2);
    DivUnique(m, 2 * p, a, 2 * b + m % 2);
  }

  /** Bit i is what the source reads as `(m >> i) & 1`. */
  lemma {:induction false} BitIsShift(m: nat, i: nat)
    ensures Bit(m, i) <==> (m / Pow2(i)) % 2 == 1
  {
    if i > 0 {
      BitIsShift(m / 2, i - 1);
      DivHalf(m, Pow2(i - 1));
    }
  }

  /** Decoding yields exactly n directions, direction i south iff
      `(m >> i) & 1` is 1. */
  lemma DecodeBits(m: nat, n: nat, i: nat)
    requires i < n
    ensures |Decode(m, n)| == n
    ensures Decode(m, n)[i] == South <==> (m / Pow2(i)) % 2 == 1
  {
    BitIsShift(m, i);
  }

  lemma {:induction false} BitZero(i: nat)
    ensures !Bit(0, i)
  {
    if i > 0 {
      BitZero(i - 1);
    }
  }

  /** Below position n, no bit of 2^n is set. */
  lemma {:induction false} BitPow2(n: nat, i: nat)
    requires i < n
    ensures !Bit(Pow2(n), i)
  {
    if i > 0 {
      assert Pow2(n) / 2 == Pow2(n - 1);
      BitPow2(n - 1, i - 1);
    }
  }

  /** The extra final mask 2^n decodes to the all-east sequence of mask 0. */
  lemma LastMaskAllEast(n: nat)
    ensures Decode(Pow2(n), n) == Decode(0, n)
    ensures forall i :: 0 <= i < n ==> Decode(Pow2(n), n)[i] == East
  {
    forall i | 0 <= i < n
      ensures Decode(Pow2(n), n)[i] == East && Decode(0, n)[i] == East
    {
      BitPow2(n, i);
      BitZero(i);
    }
  }

  /** A sequence of k directions has a mask below 2^k. */
  lemma {:induction false} EncodeBound(dirs: seq<Dir>)
    ensures Encode(dirs) < Pow2(|dirs|)
  {
    if |dirs| > 0 {
      EncodeBound(dirs[1..]);
    }
  }

  lemma {:induction false} EncodeBits(dirs: seq<Dir>, i: nat)
    ensures Bit(Encode(dirs), i) <==> i < |dirs| && dirs[i] == South
  {
    if |dirs| == 0 {
      BitZero(i);
    } else if i > 0 {
      var x := Encode(dirs[1..]);
      assert Encode(dirs) / 2 == x;
      EncodeBits(dirs[1..], i - 1);
    }
  }

  /** Encoding then decoding at a width n >= |dirs| gives back the sequence,
      padded with east steps. */
  lemma DecodeEncode(dirs: seq<Dir>, n: nat)
    requires |dirs| <= n
    ensures Decode(Encode(dirs), n) == dirs + seq(n - |dirs|, _ => East)
    ensures dirs <= Decode(Encode(dirs), n)
  {
    var padded := dirs + seq(n - |dirs|, _ => East);
    forall i | 0 <= i < n
      ensures Decode(Encode(dirs), n)[i] == padded[i]
    {
      EncodeBits(dirs, i);
    }
  }

  /** Every mask below 2^n is the encoding of its own decoding. */
  lemma {:induction false} EncodeDecode(m: nat, n: nat)
    requires m < Pow2(n)
    ensures Encode(Decode(m, n)) == m
  {
    if n > 0 {
      var dirs := Decode(m, n);
      assert dirs[1..] == Decode(m / 2, n - 1);
      EncodeDecode(m / 2, n - 1);
    }
  }

  lemma {:induction false} Pow2Monotone(a: nat, b: nat)
    requires a <= b
    ensures Pow2(a) <= Pow2(b)
    decreases b
  {
    if a < b {
      Pow2Monotone(a, b - 1);
    }
  }

  /** The source's bit loop: direction i is south iff `(mask >> i) & 1` is 1. */
  method DecodeMask(mask: nat, n: nat) returns (dirs: seq<Dir>)
    ensures dirs == Decode(mask, n)
  {
    dirs := [];
    for i := 0 to n
      invariant |dirs| == i
      invariant forall k :: 0 <= k < i ==> dirs[k] == DirOf(Bit(mask, k))
    {
      BitIsShift(mask, i);
      var bit := (mask / Pow2(i)) % 2;
      dirs := dirs + [if bit == 1 then South else East];
    }
  }
}
