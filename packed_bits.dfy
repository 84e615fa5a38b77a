/**
 Arithmetic on a mask packed one bit per lane into a natural number: bit i of
 the word is lane i, and an n-lane mask is a word below 2^n. This is the
 layout of a mask register; the facts proved here about packing and
 unpacking bits carry the packed layout's round trip through the bit-set form.
 */
module PackedBits {

  function Pow2(n: nat): (r: nat)
    ensures r >= 1
  {
    if n == 0 then 1 else 2 * Pow2(n - 1)
  }

  /** The n-bit word with every bit set. */
  function AllOnes(n: nat): nat
  {
    Pow2(n) - 1
  }

  /** Bit i of w; bit 0 is the least significant. */
  predicate Bit(w: nat, i: nat)
  {
    if i == 0 then w % 2 == 1 else Bit(w / 2, i - 1)
  }

  /** The bits 0 .. n-1 of w, lowest first. */
  function ToBits(w: nat, n: nat): seq<bool>
  {
    seq(n, i requires 0 <= i < n => Bit(w, i))
  }

  /** The word whose bit i is bs[i]. */
  function FromBits(bs: seq<bool>): (w: nat)
    ensures w < Pow2(|bs|)
    ensures forall i | 0 <= i < |bs| :: Bit(w, i) == bs[i]
  {
    if bs == [] then 0
    else
      var low := if bs[0] then 1 else 0;
      var high := FromBits(bs[1..]);
      assert (low + 2 * high) % 2 == low && (low + 2 * high) / 2 == high;
      assert forall i | 1 <= i < |bs| :: bs[1..][i - 1] == bs[i];
      low + 2 * high
  }

  /** The bitwise operators a backend applies to two packed words. */
  datatype BitOp = AndOp | OrOp | XorOp

  function Apply(op: BitOp, p: bool, q: bool): bool
  {
    match op
    case AndOp => p && q
    case OrOp => p || q
    case XorOp => p != q
  }

  /** The n-bit word whose bit i is `op` applied to bit i of a and bit i of b. */
  function Combine(op: BitOp, a: nat, b: nat, n: nat): (w: nat)
    ensures w < Pow2(n)
    ensures forall i | 0 <= i < n :: Bit(w, i) == Apply(op, Bit(a, i), Bit(b, i))
  {
    if n == 0 then 0
    else
      var low := if Apply(op, a % 2 == 1, b % 2 == 1) then 1 else 0;
      var high := Combine(op, a / 2, b / 2, n - 1);
      assert (low + 2 * high) % 2 == low && (low + 2 * high) / 2 == high;
      low + 2 * high
  }

  lemma {:induction false} BitOfZero(i: nat)
    ensures !Bit(0, i)
  {
    if i > 0 {
      BitOfZero(i - 1);
    }
  }

  /** 2^k has exactly bit k set. */
  lemma {:induction false} BitOfPow2(k: nat, i: nat)
    ensures Bit(Pow2(k), i) == (i == k)
  {
    if k == 0 {
      if i > 0 {
        BitOfZero(i - 1);
      }
    } else if i > 0 {
      assert Pow2(k) / 2 == Pow2(k - 1);
      BitOfPow2(k - 1, i - 1);
    } else {
      assert Pow2(k) % 2 == 0;
    }
  }

  /** AllOnes(n) has all of its bits 0 .. n-1 set. */
  lemma {:induction false} BitOfAllOnes(n: nat, i: nat)
    requires i < n
    ensures Bit(AllOnes(n), i)
  {
    var w := AllOnes(n);
    assert w == 2 * AllOnes(n - 1) + 1;
    assert w % 2 == 1 && w / 2 == AllOnes(n - 1);
    if i > 0 {
      BitOfAllOnes(n - 1, i - 1);
    }
  }

  /** The zero word has no bit set, and is below 2^n. */
  lemma BitOfZeroAll(n: nat)
    ensures 0 < Pow2(n)
    ensures forall i: nat :: !Bit(0, i)
  {
    forall i: nat ensures !Bit(0, i) {
      BitOfZero(i);
    }
  }

  /** 2^k has bit k set and every other bit clear. */
  lemma BitOfPow2All(k: nat)
    ensures forall i: nat :: Bit(Pow2(k), i) == (i == k)
  {
    forall i: nat ensures Bit(Pow2(k), i) == (i == k) {
      BitOfPow2(k, i);
    }
  }

  /** AllOnes(n) is an n-bit word with every bit set. */
  lemma BitOfAllOnesAll(n: nat)
    ensures AllOnes(n) < Pow2(n)
    ensures forall i | 0 <= i < n :: Bit(AllOnes(n), i)
  {
    forall i | 0 <= i < n ensures Bit(AllOnes(n), i) {
      BitOfAllOnes(n, i);
    }
  }

  /** Two words below 2^n with the same n low bits are the same word. */
  lemma {:induction false} Extensional(a: nat, b: nat, n: nat)
    requires a < Pow2(n) && b < Pow2(n)
    requires forall i | 0 <= i < n :: Bit(a, i) == Bit(b, i)
    ensures a == b
  {
    if n > 0 {
      forall i | 0 <= i < n - 1
        ensures Bit(a / 2, i) == Bit(b / 2, i)
      {
        assert Bit(a, i + 1) == Bit(b, i + 1);
      }
      Extensional(a / 2, b / 2, n - 1);
      assert Bit(a, 0) == Bit(b, 0);
    }
  }
}
