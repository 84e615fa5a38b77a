# simd_mask in Dafny

A verified model of `simd_mask<T, Abi>` from the Vc library (`Vc/detail/simd_mask.h`).
It is the boolean mask type of the data-parallel types of ISO/IEC TS 19570:2018
(Parallelism TS v2): a fixed-width vector of N boolean lanes.

The mask owns one backend member `d`. It forwards every primitive to the backend `impl`
of its type: broadcast, load, masked load, store, get/set, negate, the bitwise and
logical operators, and the conversions to and from `std::bitset<N>`. The facade itself
adds only the way it combines those primitives:
- `!=` is the backend xor, and `==` is `!` applied to `!=`.
- A compound assignment assigns the binary result to its left operand.
- Type conversion goes through the bit-set form.
- The masked-load constructor starts from a value-initialised member.
- `copy_from` replaces `d` wholesale.
- The non-const subscript returns a proxy bound to `(d, i)`.

Files:

- `packed_bits.dfy`, module `PackedBits`: a mask packed one bit per lane into a natural
  number below 2^N. It has bit extraction, packing, the bitwise operators on n-bit words
  and their bit-level laws.
- `mask_impl.dfy`, module `MaskImpl`: the backend. The real backends are intrinsic code
  for each architecture. Here three member layouts stand in for them:
  - `FixedSize`: the member is a `std::bitset<N>`.
  - `PackedWord`: one bit per lane in a mask-register word.
  - `FullLane`: one byte per lane, either 0x00 or 0xFF.

  Every primitive's contract is stated against the bit-set form, where bit i is lane i.
  Lemma `Canonical` shows that a valid member is determined by its bit-set.
- `simd_mask.dfy`, module `SimdMasks`: the facade.
  - A mask value is trivially copyable and determined by its member. So the
    value-returning operators are functions from members to members.
  - Class `SimdMask` is a mask object with `const t` (the template arguments: element
    type, layout and N) and `var d`. Its constructors and in-place operations are
    methods.
  - Class `Reference` is the proxy returned by the non-const `operator[]`.
  - `SimdMask.Data` models the const `detail::data` accessor (line 202). The
    converting constructor uses it to reach the source's bit-set.

A memory pointer `const bool *mem` is modelled as an `array<bool>` plus an offset `at`.
The N lanes it addresses are `mem[at .. at + N)`.

`FourLaneExample` reads the bit-set literal `"1010"` in `std::bitset`'s order, where the
rightmost character is bit 0. So bits 1 and 3 are set, and the `&` of the loaded mask
(1,0,1,1) with it is (0,0,0,1), lane 0 first. Written in `std::bitset`'s string order,
as `to_bitset().to_string()` prints it, that result is "1000".

## Model

| member | source | states |
|---|---|---|
| `SimdMasks.SimdMask.Size` | Vc/detail/simd_mask.h:63-75 | size() and size_v are the lane count N, the width of the bit-set form |
| `SimdMasks.SimdMask.ToBitset` | Vc/detail/simd_mask.h:83 | to_bitset() has exactly N bits |
| `SimdMasks.SimdMask.FromBitset` | Vc/detail/simd_mask.h:82 | from_bitset(bs), built through the bitset_init constructor, is a valid mask whose to_bitset() is bs |
| `SimdMasks.SimdMask.PrivateInit` | Vc/detail/simd_mask.h:180-183 | the private_init constructor adopts a backend member unchanged |
| `SimdMasks.SimdMask.Broadcast` | Vc/detail/simd_mask.h:86 | the broadcast constructor: every lane i < N reads x |
| `SimdMasks.SimdMask.Convert` | Vc/detail/simd_mask.h:89-95 | converting a same-size fixed_size mask goes through bitset_init, and lane i of the result is lane i of the source |
| `SimdMasks.SimdMask.Load` | Vc/detail/simd_mask.h:119-123 | the load constructor: the bit-set is mem[at .. at+N) |
| `SimdMasks.SimdMask.MaskedLoad` | Vc/detail/simd_mask.h:124-127 | masked-load constructor: lane i is mem[at+i] where k[i] holds, otherwise false (the value-initialised d{}); nothing earlier is merged in |
| `SimdMasks.SimdMask.CopyFrom` | Vc/detail/simd_mask.h:130-133 | copy_from overwrites every lane: the new bit-set is mem[at .. at+N), whatever d held before |
| `SimdMasks.SimdMask.CopyTo` | Vc/detail/simd_mask.h:136-139 | copy_to writes lane i to mem[at+i], leaves the rest of mem unchanged and does not modify the mask |
| `SimdMasks.SimdMask.Index` | Vc/detail/simd_mask.h:142 | the non-const operator[] returns a proxy bound to this mask and lane i |
| `SimdMasks.SimdMask.Data` | Vc/detail/simd_mask.h:202 | the const detail::data accessor yields a valid member of the mask's type whose bit-set is the mask's to_bitset() |
| `SimdMasks.SimdMask.At` | Vc/detail/simd_mask.h:143 | the const operator[] returns bit i of to_bitset() |
| `SimdMasks.SimdMask.AndAssign` | Vc/detail/simd_mask.h:162 | after x &= y, x holds x & y lane by lane; y is unchanged, x is returned |
| `SimdMasks.SimdMask.OrAssign` | Vc/detail/simd_mask.h:163 | after the or-assignment, x holds the lane-wise or of x and y; y is unchanged, x is returned |
| `SimdMasks.SimdMask.XorAssign` | Vc/detail/simd_mask.h:164 | after x ^= y, x holds x ^ y lane by lane; y is unchanged, x is returned |
| `SimdMasks.Reference.constructor` | Vc/detail/simd_mask.h:142 | the proxy records its owner and its lane index |
| `SimdMasks.Reference.Read` | Vc/detail/simd_mask.h:142 | reading the proxy yields the owner's lane |
| `SimdMasks.Reference.Write` | Vc/detail/simd_mask.h:142 | writing x through the proxy sets the owner's lane to x and keeps every other lane |
| `SimdMasks.Not` | Vc/detail/simd_mask.h:146 | (!m)[i] == !m[i] |
| `SimdMasks.LogicalAnd` | Vc/detail/simd_mask.h:149-152 | (x && y)[i] == (x[i] && y[i]) on every lane |
| `SimdMasks.LogicalOr` | Vc/detail/simd_mask.h:153-156 | the logical or of x and y has lane i set exactly where x[i] or y[i] is set, on every lane |
| `SimdMasks.And` | Vc/detail/simd_mask.h:158 | (x & y)[i] == (x[i] && y[i]) |
| `SimdMasks.Or` | Vc/detail/simd_mask.h:159 | the bitwise or of x and y has lane i set exactly where x[i] or y[i] is set |
| `SimdMasks.Xor` | Vc/detail/simd_mask.h:160 | (x ^ y)[i] == (x[i] != y[i]) |
| `SimdMasks.Equal` | Vc/detail/simd_mask.h:167 | x == y, defined as !(x != y), is the mask with lane i set exactly where x[i] == y[i] |
| `SimdMasks.NotEqual` | Vc/detail/simd_mask.h:168 | x != y, the backend xor, is the mask with lane i set exactly where x[i] != y[i] |
| `SimdMasks.FromBitsetToBitset` | Vc/detail/simd_mask.h:82-83 | from_bitset(to_bitset(m)) is m itself, in every layout |
| `SimdMasks.DoubleNegation` | Vc/detail/simd_mask.h:146 | !!m == m |
| `SimdMasks.EqualReflexive` | Vc/detail/simd_mask.h:167-168 | x == x is the all-true mask |
| `SimdMasks.EqualAllTrue` | Vc/detail/simd_mask.h:167-168 | x == y is all-true if and only if x and y are the same mask |
| `SimdMasks.LogicalIsBitwise` | Vc/detail/simd_mask.h:149-160 | the logical and/or operators give the very masks that the bitwise and/or operators give |
| `SimdMasks.LoadOfStored` | Vc/detail/simd_mask.h:119-139 | loading the N booleans a mask stores gives the mask back |
| `SimdMasks.StoreThenLoad` | Vc/detail/simd_mask.h:130-139 | copy_to followed by copy_from into a mask of the same type, the same mask included, gives it exactly the member the source mask held before |
| `SimdMasks.StoreThenLoadSelf` | Vc/detail/simd_mask.h:130-139 | m.copy_to(mem) followed by m.copy_from(mem) leaves m's member as it was |
| `SimdMasks.FourLaneExample` | Vc/detail/simd_mask.h:146-158 | with N = 4: loading {1,0,1,1} gives bits (1,0,1,1); its negation is (0,1,0,0); its & with from_bitset("1010") is (0,0,0,1) |
| `MaskImpl.ToBitset` | Vc/detail/simd_mask.h:83 | impl::to_bitset yields N bits |
| `MaskImpl.FromBitset` | Vc/detail/simd_mask.h:184-187 | impl::from_bitset gives a valid member whose bit-set is the argument |
| `MaskImpl.Canonical` | Vc/detail/simd_mask.h:193 | two valid members of one type with the same bit-set are equal |
| `MaskImpl.ValueInit` | Vc/detail/simd_mask.h:124 | the value-initialised member d{} is valid with every lane false |
| `MaskImpl.Broadcast` | Vc/detail/simd_mask.h:86 | impl::broadcast(x) has every lane equal to x |
| `MaskImpl.Load` | Vc/detail/simd_mask.h:121 | impl::load gives the member whose bit-set is the N loaded booleans |
| `MaskImpl.Get` | Vc/detail/simd_mask.h:143 | impl::get(d, i) is bit i of the bit-set |
| `MaskImpl.Set` | Vc/detail/simd_mask.h:142 | impl::set(d, i, x) changes lane i to x and no other lane |
| `MaskImpl.Negate` | Vc/detail/simd_mask.h:146 | impl::negate is lane-wise not |
| `MaskImpl.LogicalAnd` | Vc/detail/simd_mask.h:151 | impl::logical_and is lane-wise and |
| `MaskImpl.LogicalOr` | Vc/detail/simd_mask.h:155 | impl::logical_or is lane-wise or |
| `MaskImpl.BitAnd` | Vc/detail/simd_mask.h:158 | impl::bit_and is lane-wise and |
| `MaskImpl.BitOr` | Vc/detail/simd_mask.h:159 | impl::bit_or is lane-wise or |
| `MaskImpl.BitXor` | Vc/detail/simd_mask.h:160 | impl::bit_xor is lane-wise exclusive or |
| `MaskImpl.MaskedLoad` | Vc/detail/simd_mask.h:126 | impl::masked_load loads the lanes k selects and keeps the others of d |
| `MaskImpl.Store` | Vc/detail/simd_mask.h:138 | impl::store writes lane i to mem[at+i] and nothing outside mem[at .. at+N) |

## Left out

- The real backends (the `mask_impl_type` chosen by `detail::traits`) are not in this model. Their SSE, AVX and AVX-512 register layouts are replaced by the three layouts of `MaskImpl`.
- The element type T only names the mask type here. In the real backends it also fixes the width of a full-lane element; `FullLane` always uses one byte per lane.
- `PackedWord` requires the bits at and above N to be clear. A register whose unused high bits are not clear is outside the model.
- The access-mode flags (element_aligned, vector_aligned, overaligned) and `alignas(traits::mask_member_alignment)` are only passed through. They describe alignment, which is an undefined-behaviour precondition and has no observable effect, and the model has no addresses.
- The defaulted default constructor leaves `d` indeterminate. The model has no indeterminate state, so that constructor is left out.
- The defaulted copy and move operations copy `d`. A Dafny value assignment of the member does the same, so they are not written out.
- The `mask_cast_type` constructor (line 78) and the `mask_base` conversions to the raw intrinsic type depend on vendor register types.
- The commented-out explicit-cast constructors (lines 96-115) and the MSVC pragmas and `#ifdef` branches are left out.
- The non-const `detail::data` (line 203) returns a mutable reference to `d`. Writes through it are what the class's own in-place methods do, and its users (the companion `simd` type and the backends) are not part of this model.
- Template, ABI and traits selection, `size_tag`/`type_tag`, the friend declarations and the `enable_if` constraints are compile-time only. Operand types must match, which the model states as `requires` on matching `MaskType`s.
- The conversion of the subscript to `int(i)` is not modelled, because every index used is below N.
- `smart_reference` is modelled only by its read and write. Its lifetime rule (it must not outlive the statement that made it) is not modelled.
- Concurrent access to one mask is not modelled.
