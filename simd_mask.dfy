/**
 The simd_mask<T, Abi> facade: a fixed-width vector of N boolean lanes that
 owns one backend member `d` and forwards every primitive to the backend
 `impl` of its type. What the facade adds is how it combines the primitives:
 == is the negation of !=, != is xor, compound assignment assigns the binary
 result, type conversion passes through the bit-set form, the masked-load
 constructor starts from a value-initialised member, and the non-const
 subscript hands out a proxy bound to (d, i).

 A mask value is trivially copyable and is wholly determined by its member,
 so the value-returning operators are functions from members to members. The
 class SimdMask is a mask object, whose member the in-place operations change.
 */
module SimdMasks {
  import Impl = MaskImpl

  type MaskType = Impl.MaskType
  type Member = Impl.Member
  type BitSet = Impl.BitSet
  type Flags = Impl.Flags

  // ---------------------------------------------------------------------------
  // Operators on mask values [simd_mask.binary], [simd_mask.comparison]

  /** operator!: lane-wise negation. */
  function Not(t: MaskType, x: Member): (r: Member)
    requires Impl.Valid(t, x)
    ensures Impl.Valid(t, r)
    ensures forall i | 0 <= i < t.size :: Impl.ToBitset(t, r)[i] == !Impl.ToBitset(t, x)[i]
  {
    Impl.Negate(t, x)
  }

  /** operator&&: lane-wise and, evaluated on every lane (no short circuit). */
  function LogicalAnd(t: MaskType, x: Member, y: Member): (r: Member)
    requires Impl.Valid(t, x) && Impl.Valid(t, y)
    ensures Impl.Valid(t, r)
    ensures forall i | 0 <= i < t.size ::
              Impl.ToBitset(t, r)[i] == (Impl.ToBitset(t, x)[i] && Impl.ToBitset(t, y)[i])
  {
    Impl.LogicalAnd(t, x, y)
  }

  /** operator||: lane-wise or, evaluated on every lane (no short circuit). */
  function LogicalOr(t: MaskType, x: Member, y: Member): (r: Member)
    requires Impl.Valid(t, x) && Impl.Valid(t, y)
    ensures Impl.Valid(t, r)
    ensures forall i | 0 <= i < t.size ::
              Impl.ToBitset(t, r)[i] == (Impl.ToBitset(t, x)[i] || Impl.ToBitset(t, y)[i])
  {
    Impl.LogicalOr(t, x, y)
  }

  /** operator&: lane-wise and. */
  function And(t: MaskType, x: Member, y: Member): (r: Member)
    requires Impl.Valid(t, x) && Impl.Valid(t, y)
    ensures Impl.Valid(t, r)
    ensures forall i | 0 <= i < t.size ::
              Impl.ToBitset(t, r)[i] == (Impl.ToBitset(t, x)[i] && Impl.ToBitset(t, y)[i])
  {
    Impl.BitAnd(t, x, y)
  }

  /** operator|: lane-wise or. */
  function Or(t: MaskType, x: Member, y: Member): (r: Member)
    requires Impl.Valid(t, x) && Impl.Valid(t, y)
    ensures Impl.Valid(t, r)
    ensures forall i | 0 <= i < t.size ::
              Impl.ToBitset(t, r)[i] == (Impl.ToBitset(t, x)[i] || Impl.ToBitset(t, y)[i])
  {
    Impl.BitOr(t, x, y)
  }

  /** operator^: lane-wise exclusive or. */
  function Xor(t: MaskType, x: Member, y: Member): (r: Member)
    requires Impl.Valid(t, x) && Impl.Valid(t, y)
    ensures Impl.Valid(t, r)
    ensures forall i | 0 <= i < t.size ::
              Impl.ToBitset(t, r)[i] == (Impl.ToBitset(t, x)[i] != Impl.ToBitset(t, y)[i])
  {
    Impl.BitXor(t, x, y)
  }

  /** operator!=: a mask, not a bool; lane i is set exactly where the operands differ.
      It is the same backend xor as operator^. */
  function NotEqual(t: MaskType, x: Member, y: Member): (r: Member)
    requires Impl.Valid(t, x) && Impl.Valid(t, y)
    ensures Impl.Valid(t, r)
    ensures forall i | 0 <= i < t.size ::
              Impl.ToBitset(t, r)[i] == (Impl.ToBitset(t, x)[i] != Impl.ToBitset(t, y)[i])
  {
    Impl.BitXor(t, x, y)
  }

  /** operator==: the negation of operator!=, so lane i is set exactly where the operands agree. */
  function Equal(t: MaskType, x: Member, y: Member): (r: Member)
    requires Impl.Valid(t, x) && Impl.Valid(t, y)
    ensures Impl.Valid(t, r)
    ensures forall i | 0 <= i < t.size ::
              Impl.ToBitset(t, r)[i] == (Impl.ToBitset(t, x)[i] == Impl.ToBitset(t, y)[i])
  {
    Not(t, NotEqual(t, x, y))
  }

  // ---------------------------------------------------------------------------
  // Laws of the operators

  /** from_bitset(to_bitset(m)) is m itself, in every layout, not merely a mask with the same lanes. */
  lemma FromBitsetToBitset(t: MaskType, x: Member)
    requires Impl.Valid(t, x)
    ensures Impl.FromBitset(t, Impl.ToBitset(t, x)) == x
  {
    Impl.Canonical(t, Impl.FromBitset(t, Impl.ToBitset(t, x)), x);
  }

  /** !!m == m. */
  lemma DoubleNegation(t: MaskType, x: Member)
    requires Impl.Valid(t, x)
    ensures Not(t, Not(t, x)) == x
  {
    Impl.Canonical(t, Not(t, Not(t, x)), x);
  }

  /** x == x is the all-true mask, the broadcast of true. */
  lemma EqualReflexive(t: MaskType, x: Member)
    requires Impl.Valid(t, x)
    ensures Equal(t, x, x) == Impl.Broadcast(t, true)
  {
    Impl.Canonical(t, Equal(t, x, x), Impl.Broadcast(t, true));
  }

  /** x == y is the all-true mask exactly when x and y are the same mask. */
  lemma EqualAllTrue(t: MaskType, x: Member, y: Member)
    requires Impl.Valid(t, x) && Impl.Valid(t, y)
    ensures Equal(t, x, y) == Impl.Broadcast(t, true) <==> x == y
  {
    if Equal(t, x, y) == Impl.Broadcast(t, true) {
      forall i | 0 <= i < t.size
        ensures Impl.ToBitset(t, x)[i] == Impl.ToBitset(t, y)[i]
      {
        assert Impl.ToBitset(t, Equal(t, x, y))[i];
      }
      Impl.Canonical(t, x, y);
    } else if x == y {
      EqualReflexive(t, x);
    }
  }

  /** && and || give the very masks that & and | give. */
  lemma LogicalIsBitwise(t: MaskType, x: Member, y: Member)
    requires Impl.Valid(t, x) && Impl.Valid(t, y)
    ensures LogicalAnd(t, x, y) == And(t, x, y)
    ensures LogicalOr(t, x, y) == Or(t, x, y)
  {
    Impl.Canonical(t, LogicalAnd(t, x, y), And(t, x, y));
    Impl.Canonical(t, LogicalOr(t, x, y), Or(t, x, y));
  }

  /** Storing a mask to memory and loading it back gives the same mask. */
  lemma LoadOfStored(t: MaskType, x: Member, f: Flags)
    requires Impl.Valid(t, x)
    ensures Impl.Load(t, Impl.ToBitset(t, x), f) == x
  {
    Impl.Canonical(t, Impl.Load(t, Impl.ToBitset(t, x), f), x);
  }

  /** Four lanes loaded from {1, 0, 1, 1}: the bit-set is (1, 0, 1, 1), its negation (0, 1, 0, 0),
      and its and with from_bitset(std::bitset<4>("1010")), whose bits 1 and 3 are set, is (0, 0, 0, 1),
      lane 0 first, which to_bitset().to_string() prints as "1000". */
  lemma FourLaneExample(t: MaskType, f: Flags)
    requires t.size == 4
    ensures var m := Impl.Load(t, [true, false, true, true], f);
            && Impl.ToBitset(t, m) == [true, false, true, true]
            && Impl.ToBitset(t, Not(t, m)) == [false, true, false, false]
            && Impl.ToBitset(t, And(t, m, Impl.FromBitset(t, [false, true, false, true])))
               == [false, false, false, true]
  {
  }

  // ---------------------------------------------------------------------------
  // The mask object

  class SimdMask {
    /** The template arguments <T, Abi>, fixed for the object's lifetime. */
    const t: MaskType
    /** The backend member. */
    var d: Member

    ghost predicate Valid()
      reads this
    {
      Impl.Valid(t, d)
    }

    /** size() and size_v: the lane count N, which is the width of the bit-set form.
        In the source size() is static; Valid() is required only so that the bit-set
        can be named in the postcondition, and every constructor establishes it. */
    function Size(): (n: nat)
      reads this
      requires Valid()
      ensures n == |ToBitset()|
    {
      t.size
    }

    /** to_bitset(): bit i is lane i. */
    function ToBitset(): (bs: BitSet)
      reads this
      requires Valid()
      ensures |bs| == t.size
    {
      Impl.ToBitset(t, d)
    }

    /** detail::data: the member itself, for the collaborators allowed to see it. */
    function Data(): (m: Member)
      reads this
      requires Valid()
      ensures Impl.Valid(t, m) && Impl.ToBitset(t, m) == ToBitset()
    {
      d
    }

    /** const operator[]: lane i, as the bit-set form has it. */
    function At(i: nat): (b: bool)
      reads this
      requires Valid() && i < t.size
      ensures b == ToBitset()[i]
    {
      Impl.Get(t, d, i)
    }

    /** The private_init constructor: adopt a member computed by the backend. */
    constructor PrivateInit(t: MaskType, init: Member)
      requires Impl.Valid(t, init)
      ensures this.t == t && d == init && Valid()
    {
      this.t := t;
      d := init;
    }

    /** from_bitset, through the bitset_init constructor: lane i is bs[i]. */
    constructor FromBitset(t: MaskType, bs: BitSet)
      requires |bs| == t.size
      ensures this.t == t && Valid() && ToBitset() == bs
    {
      this.t := t;
      d := Impl.FromBitset(t, bs);
    }

    /** The explicit broadcast constructor: every lane is x. */
    constructor Broadcast(t: MaskType, x: bool)
      ensures this.t == t && Valid()
      ensures forall i | 0 <= i < t.size :: At(i) == x
    {
      this.t := t;
      d := Impl.Broadcast(t, x);
    }

    /** The implicit converting constructor from a fixed_size mask of another element type
        and the same lane count: the source's member, which is its bit-set, goes through
        bitset_init, so lane i of the result is lane i of the source. */
    constructor Convert(t: MaskType, x: SimdMask)
      requires x.Valid()
      requires t.layout == Impl.FixedSize && x.t.layout == Impl.FixedSize && x.t.size == t.size
      ensures this.t == t && Valid()
      ensures forall i | 0 <= i < t.size :: At(i) == x.At(i)
    {
      this.t := t;
      d := Impl.FromBitset(t, x.Data().bits);
    }

    /** The load constructor: lane i is mem[at + i]. */
    constructor Load(t: MaskType, mem: array<bool>, at: nat, f: Flags)
      requires at + t.size <= mem.Length
      ensures this.t == t && Valid() && ToBitset() == mem[at..at + t.size]
    {
      this.t := t;
      d := Impl.Load(t, mem[at..at + t.size], f);
    }

    /** The masked-load constructor: d starts value-initialised (all lanes false) and the
        backend loads the lanes k selects; an unselected lane stays false. */
    constructor MaskedLoad(t: MaskType, mem: array<bool>, at: nat, k: SimdMask, f: Flags)
      requires k.Valid() && k.t == t && at + t.size <= mem.Length
      ensures this.t == t && Valid()
      ensures forall i | 0 <= i < t.size :: At(i) == (k.At(i) && mem[at + i])
    {
      this.t := t;
      d := Impl.ValueInit(t);
      new;
      d := Impl.MaskedLoad(t, d, k.d, mem[at..at + t.size], f);
    }

    /** copy_from [simd_mask.load]: every lane is overwritten, lane i with mem[at + i]. */
    method CopyFrom(mem: array<bool>, at: nat, f: Flags)
      requires at + t.size <= mem.Length
      modifies this
      ensures Valid() && ToBitset() == mem[at..at + t.size]
    {
      d := Impl.Load(t, mem[at..at + t.size], f);
    }

    /** copy_to [simd_mask.store]: mem[at + i] becomes lane i; the mask and the rest of
        the memory are unchanged. */
    method CopyTo(mem: array<bool>, at: nat, f: Flags)
      requires Valid() && at + t.size <= mem.Length
      modifies mem
      ensures mem[at..at + t.size] == ToBitset()
      ensures forall j | 0 <= j < mem.Length && !(at <= j < at + t.size) :: mem[j] == old(mem[j])
    {
      Impl.Store(t, d, mem, at, f);
    }

    /** Non-const operator[]: a proxy bound to this mask's member and lane i. */
    method Index(i: nat) returns (r: Reference)
      requires Valid() && i < t.size
      ensures fresh(r) && r.owner == this && r.index == i && r.Valid()
    {
      r := new Reference(this, i);
    }

    /** operator&=: x becomes x & y; y is unchanged and x is returned. */
    method AndAssign(y: SimdMask) returns (r: SimdMask)
      requires Valid() && y.Valid() && y.t == t
      modifies this
      ensures r == this && Valid()
      ensures d == And(t, old(d), old(y.d))
      ensures forall i | 0 <= i < t.size :: At(i) == (old(At(i)) && old(y.At(i)))
      ensures y != this ==> y.d == old(y.d)
    {
      d := And(t, d, y.d);
      r := this;
    }

    /** operator|=: x becomes x | y; y is unchanged and x is returned. */
    method OrAssign(y: SimdMask) returns (r: SimdMask)
      requires Valid() && y.Valid() && y.t == t
      modifies this
      ensures r == this && Valid()
      ensures d == Or(t, old(d), old(y.d))
      ensures forall i | 0 <= i < t.size :: At(i) == (old(At(i)) || old(y.At(i)))
      ensures y != this ==> y.d == old(y.d)
    {
      d := Or(t, d, y.d);
      r := this;
    }

    /** operator^=: x becomes x ^ y; y is unchanged and x is returned. */
    method XorAssign(y: SimdMask) returns (r: SimdMask)
      requires Valid() && y.Valid() && y.t == t
      modifies this
      ensures r == this && Valid()
      ensures d == Xor(t, old(d), old(y.d))
      ensures forall i | 0 <= i < t.size :: At(i) == (old(At(i)) != old(y.At(i)))
      ensures y != this ==> y.d == old(y.d)
    {
      d := Xor(t, d, y.d);
      r := this;
    }
  }

  /** The proxy handed out by the non-const operator[]: it reads and writes one lane of its
      owner's member through the backend's get and set. */
  class Reference {
    const owner: SimdMask
    const index: nat

    constructor (owner: SimdMask, index: nat)
      ensures this.owner == owner && this.index == index
    {
      this.owner := owner;
      this.index := index;
    }

    ghost predicate Valid()
      reads owner
    {
      owner.Valid() && index < owner.t.size
    }

    /** Conversion to bool: the owner's lane. */
    function Read(): (b: bool)
      reads owner
      requires Valid()
      ensures b == owner.ToBitset()[index]
    {
      Impl.Get(owner.t, owner.d, index)
    }

    /** Assignment: the owner's lane becomes x and every other lane keeps its value. */
    method Write(x: bool)
      requires Valid()
      modifies owner
      ensures Valid()
      ensures owner.ToBitset() == old(owner.ToBitset())[index := x]
    {
      owner.d := Impl.Set(owner.t, owner.d, index, x);
    }
  }

  /** copy_to followed by copy_from into a mask of the same type (possibly the same mask)
      makes that mask's member exactly the member src held before. */
  method StoreThenLoad(src: SimdMask, dst: SimdMask, mem: array<bool>, at: nat, f: Flags)
    requires src.Valid() && dst.t == src.t && at + src.t.size <= mem.Length
    modifies dst, mem
    ensures dst.d == old(src.d)
  {
    ghost var d0 := src.d;
    src.CopyTo(mem, at, f);
    dst.CopyFrom(mem, at, f);
    Impl.Canonical(src.t, dst.d, d0);
  }

  /** The round trip on one mask: m.copy_to(mem) then m.copy_from(mem) leaves m as it was. */
  method StoreThenLoadSelf(m: SimdMask, mem: array<bool>, at: nat, f: Flags)
    requires m.Valid() && at + m.t.size <= mem.Length
    modifies m, mem
    ensures m.d == old(m.d)
  {
    StoreThenLoad(m, m, mem, at, f);
  }
}
