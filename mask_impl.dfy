/**
 The backend that a simd_mask<T, Abi> forwards every primitive to (its
 `mask_impl_type`). The real backends are per-architecture intrinsic code; this
 module stands in for them with three representative member layouts, and
 states every primitive's contract against the canonical bit-set form: bit i
 of ToBitset(t, d) is lane i of the member d. The facade's proofs use these
 contracts and the lemma Canonical, not the bodies.
 */
module MaskImpl {
  import PackedBits

  /** The vectorizable element type T of simd_mask<T, Abi>. */
  datatype ElementType = Int8 | UInt8 | Int16 | UInt16 | Int32 | UInt32 | Int64 | UInt64 | Float | Double

  /** How the member type of a backend lays out its lanes. */
  datatype Layout =
    | FixedSize   // the member is a std::bitset<N>
    | PackedWord  // one bit per lane in a mask register: a word below 2^N
    | FullLane    // one byte per lane, all of its bits set (0xFF) or clear (0x00)

  /** The template arguments <T, Abi>: they fix the element type, the backend and the lane count N. */
  datatype MaskType = MaskType(element: ElementType, layout: Layout, size: nat)

  /** Load/store access modes; they only promise alignment, which the model does not track. */
  datatype Flags = ElementAligned | VectorAligned | Overaligned(alignment: nat)

  /** The member `d` of a mask, in one of the three layouts. */
  datatype Member =
    | BitsetMember(bits: seq<bool>)
    | WordMember(word: nat)
    | LaneMember(lanes: seq<bv8>)

  /** std::bitset<N>: bit i is lane i. */
  type BitSet = seq<bool>

  /** d is a member of the mask type t: the right layout, N lanes, every lane a well-defined boolean. */
  predicate Valid(t: MaskType, d: Member)
  {
    match t.layout
    case FixedSize => d.BitsetMember? && |d.bits| == t.size
    case PackedWord => d.WordMember? && d.word < PackedBits.Pow2(t.size)
    case FullLane =>
      d.LaneMember? && |d.lanes| == t.size &&
      forall i | 0 <= i < t.size :: d.lanes[i] == 0 || d.lanes[i] == 0xFF
  }

  /** impl::to_bitset: the lanes of d, lane 0 first. */
  function ToBitset(t: MaskType, d: Member): (bs: BitSet)
    requires Valid(t, d)
    ensures |bs| == t.size
  {
    match t.layout
    case FixedSize => d.bits
    case PackedWord => PackedBits.ToBits(d.word, t.size)
    case FullLane => seq(t.size, i requires 0 <= i < t.size => d.lanes[i] != 0)
  }

  /** impl::from_bitset: the member whose lanes are the bits of bs. */
  function FromBitset(t: MaskType, bs: BitSet): (d: Member)
    requires |bs| == t.size
    ensures Valid(t, d) && ToBitset(t, d) == bs
  {
    match t.layout
    case FixedSize => BitsetMember(bs)
    case PackedWord => WordMember(PackedBits.FromBits(bs))
    case FullLane => LaneMember(seq(t.size, i requires 0 <= i < t.size => if bs[i] then 0xFF else 0))
  }

  /** A member is determined by its lanes: no two valid members of one type share a bit-set. */
  lemma Canonical(t: MaskType, x: Member, y: Member)
    requires Valid(t, x) && Valid(t, y)
    requires ToBitset(t, x) == ToBitset(t, y)
    ensures x == y
  {
    match t.layout
    case FixedSize =>
    case PackedWord =>
      forall i | 0 <= i < t.size
        ensures PackedBits.Bit(x.word, i) == PackedBits.Bit(y.word, i)
      {
        assert ToBitset(t, x)[i] == ToBitset(t, y)[i];
      }
      PackedBits.Extensional(x.word, y.word, t.size);
    case FullLane =>
      forall i | 0 <= i < t.size
        ensures x.lanes[i] == y.lanes[i]
      {
        assert ToBitset(t, x)[i] == ToBitset(t, y)[i];
      }
  }

  /** The value-initialised member `d{}`: every lane false. */
  function ValueInit(t: MaskType): (d: Member)
    ensures Valid(t, d)
    ensures forall i | 0 <= i < t.size :: !ToBitset(t, d)[i]
  {
    match t.layout
    case FixedSize => BitsetMember(seq(t.size, i => false))
    case PackedWord => PackedBits.BitOfZeroAll(t.size); WordMember(0)
    case FullLane => LaneMember(seq(t.size, i => 0))
  }

  /** impl::broadcast: every lane equal to x. */
  function Broadcast(t: MaskType, x: bool): (d: Member)
    ensures Valid(t, d)
    ensures forall i | 0 <= i < t.size :: ToBitset(t, d)[i] == x
  {
    match t.layout
    case FixedSize => BitsetMember(seq(t.size, i => x))
    case PackedWord =>
      PackedBits.BitOfZeroAll(t.size);
      PackedBits.BitOfAllOnesAll(t.size);
      WordMember(if x then PackedBits.AllOnes(t.size) else 0)
    case FullLane => LaneMember(seq(t.size, i => if x then 0xFF else 0))
  }

  /** impl::load: lane i is mem[i]. A bool array of N lanes holds exactly what a
      bit-set of N bits holds, so each layout reads it as it reads a bit-set. */
  function Load(t: MaskType, mem: seq<bool>, f: Flags): (d: Member)
    requires |mem| == t.size
    ensures Valid(t, d) && ToBitset(t, d) == mem
  {
    FromBitset(t, mem)
  }

  /** impl::get: lane i of d. */
  function Get(t: MaskType, d: Member, i: nat): (b: bool)
    requires Valid(t, d) && i < t.size
    ensures b == ToBitset(t, d)[i]
  {
    match t.layout
    case FixedSize => d.bits[i]
    case PackedWord => PackedBits.Bit(d.word, i)
    case FullLane => d.lanes[i] != 0
  }

  /** impl::set: d with lane i replaced by x and every other lane kept. */
  function Set(t: MaskType, d: Member, i: nat, x: bool): (r: Member)
    requires Valid(t, d) && i < t.size
    ensures Valid(t, r) && ToBitset(t, r) == ToBitset(t, d)[i := x]
  {
    match t.layout
    case FixedSize => BitsetMember(d.bits[i := x])
    case PackedWord =>
      var n := t.size;
      var one := PackedBits.Pow2(i);
      PackedBits.BitOfPow2All(i);
      PackedBits.BitOfAllOnesAll(n);
      var w :=
        if x then PackedBits.Combine(PackedBits.OrOp, d.word, one, n)
        else PackedBits.Combine(PackedBits.AndOp, d.word,
                                PackedBits.Combine(PackedBits.XorOp, one, PackedBits.AllOnes(n), n), n);
      assert ToBitset(t, WordMember(w)) == ToBitset(t, d)[i := x];
      WordMember(w)
    case FullLane => LaneMember(d.lanes[i := if x then 0xFF else 0])
  }

  /** impl::negate: lane-wise not. */
  function Negate(t: MaskType, a: Member): (r: Member)
    requires Valid(t, a)
    ensures Valid(t, r)
    ensures forall i | 0 <= i < t.size :: ToBitset(t, r)[i] == !ToBitset(t, a)[i]
  {
    match t.layout
    case FixedSize => BitsetMember(seq(t.size, i requires 0 <= i < t.size => !a.bits[i]))
    case PackedWord =>
      PackedBits.BitOfAllOnesAll(t.size);
      WordMember(PackedBits.Combine(PackedBits.XorOp, a.word, PackedBits.AllOnes(t.size), t.size))
    case FullLane => LaneMember(seq(t.size, i requires 0 <= i < t.size => !a.lanes[i]))
  }

  /** impl::bit_and: lane-wise and. */
  function BitAnd(t: MaskType, a: Member, b: Member): (r: Member)
    requires Valid(t, a) && Valid(t, b)
    ensures Valid(t, r)
    ensures forall i | 0 <= i < t.size :: ToBitset(t, r)[i] == (ToBitset(t, a)[i] && ToBitset(t, b)[i])
  {
    match t.layout
    case FixedSize => BitsetMember(seq(t.size, i requires 0 <= i < t.size => a.bits[i] && b.bits[i]))
    case PackedWord => WordMember(PackedBits.Combine(PackedBits.AndOp, a.word, b.word, t.size))
    case FullLane => LaneMember(seq(t.size, i requires 0 <= i < t.size => a.lanes[i] & b.lanes[i]))
  }

  /** impl::bit_or: lane-wise or. */
  function BitOr(t: MaskType, a: Member, b: Member): (r: Member)
    requires Valid(t, a) && Valid(t, b)
    ensures Valid(t, r)
    ensures forall i | 0 <= i < t.size :: ToBitset(t, r)[i] == (ToBitset(t, a)[i] || ToBitset(t, b)[i])
  {
    match t.layout
    case FixedSize => BitsetMember(seq(t.size, i requires 0 <= i < t.size => a.bits[i] || b.bits[i]))
    case PackedWord => WordMember(PackedBits.Combine(PackedBits.OrOp, a.word, b.word, t.size))
    case FullLane => LaneMember(seq(t.size, i requires 0 <= i < t.size => a.lanes[i] | b.lanes[i]))
  }

  /** impl::bit_xor: lane-wise exclusive or. */
  function BitXor(t: MaskType, a: Member, b: Member): (r: Member)
    requires Valid(t, a) && Valid(t, b)
    ensures Valid(t, r)
    ensures forall i | 0 <= i < t.size :: ToBitset(t, r)[i] == (ToBitset(t, a)[i] != ToBitset(t, b)[i])
  {
    match t.layout
    case FixedSize => BitsetMember(seq(t.size, i requires 0 <= i < t.size => a.bits[i] != b.bits[i]))
    case PackedWord => WordMember(PackedBits.Combine(PackedBits.XorOp, a.word, b.word, t.size))
    case FullLane => LaneMember(seq(t.size, i requires 0 <= i < t.size => a.lanes[i] ^ b.lanes[i]))
  }

  /** impl::logical_and: lane-wise and of the lanes read as booleans. */
  function LogicalAnd(t: MaskType, a: Member, b: Member): (r: Member)
    requires Valid(t, a) && Valid(t, b)
    ensures Valid(t, r)
    ensures forall i | 0 <= i < t.size :: ToBitset(t, r)[i] == (ToBitset(t, a)[i] && ToBitset(t, b)[i])
  {
    match t.layout
    case FixedSize => BitsetMember(seq(t.size, i requires 0 <= i < t.size => a.bits[i] && b.bits[i]))
    case PackedWord => WordMember(PackedBits.Combine(PackedBits.AndOp, a.word, b.word, t.size))
    case FullLane =>
      LaneMember(seq(t.size, i requires 0 <= i < t.size => if a.lanes[i] != 0 && b.lanes[i] != 0 then 0xFF else 0))
  }

  /** impl::logical_or: lane-wise or of the lanes read as booleans. */
  function LogicalOr(t: MaskType, a: Member, b: Member): (r: Member)
    requires Valid(t, a) && Valid(t, b)
    ensures Valid(t, r)
    ensures forall i | 0 <= i < t.size :: ToBitset(t, r)[i] == (ToBitset(t, a)[i] || ToBitset(t, b)[i])
  {
    match t.layout
    case FixedSize => BitsetMember(seq(t.size, i requires 0 <= i < t.size => a.bits[i] || b.bits[i]))
    case PackedWord => WordMember(PackedBits.Combine(PackedBits.OrOp, a.word, b.word, t.size))
    case FullLane =>
      LaneMember(seq(t.size, i requires 0 <= i < t.size => if a.lanes[i] != 0 || b.lanes[i] != 0 then 0xFF else 0))
  }

  /** impl::masked_load: the lanes selected by k are loaded from mem, the others keep d's value.
      Written as the blend (d & !k) | (load(mem) & k). */
  function MaskedLoad(t: MaskType, d: Member, k: Member, mem: seq<bool>, f: Flags): (r: Member)
    requires Valid(t, d) && Valid(t, k) && |mem| == t.size
    ensures Valid(t, r)
    ensures forall i | 0 <= i < t.size ::
              ToBitset(t, r)[i] == if ToBitset(t, k)[i] then mem[i] else ToBitset(t, d)[i]
  {
    var kept := BitAnd(t, d, Negate(t, k));
    var loaded := BitAnd(t, Load(t, mem, f), k);
    BitOr(t, kept, loaded)
  }

  /** impl::store: writes lane i of d to mem[at + i] and nothing else. */
  method Store(t: MaskType, d: Member, mem: array<bool>, at: nat, f: Flags)
    requires Valid(t, d) && at + t.size <= mem.Length
    modifies mem
    ensures mem[at..at + t.size] == ToBitset(t, d)
    ensures forall j | 0 <= j < mem.Length && !(at <= j < at + t.size) :: mem[j] == old(mem[j])
  {
    var i := 0;
    while i < t.size
      invariant 0 <= i <= t.size
      invariant forall j | 0 <= j < i :: mem[at + j] == ToBitset(t, d)[j]
      invariant forall j | 0 <= j < mem.Length && !(at <= j < at + i) :: mem[j] == old(mem[j])
    {
      mem[at + i] := Get(t, d, i);
      i := i + 1;
    }
  }
}
