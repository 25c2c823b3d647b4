/** Choosing memory types: the first device-local, host-visible entry of the
    physical device's memory-type table for the readback buffer, and the lowest
    set bit of the driver's `memory_type_bits` mask for the image. */
module MemoryTypes {
  import opened Wrappers

  /** `VkMemoryPropertyFlags` is a 32-bit flag word. */
  type Flags = bv32

  const DEVICE_LOCAL: Flags := 0x1
  const HOST_VISIBLE: Flags := 0x2

  /** One entry of the device's memory-type table. */
  datatype MemoryType = MemoryType(propertyFlags: Flags, heapIndex: bv32)

  /** Set inclusion on flag words, as `Flags::contains` does it. */
  predicate Contains(flags: Flags, other: Flags)
  {
    flags & other == other
  }

  /** The filter the buffer's memory type must pass: its flags contain the union
      of the two flags. */
  predicate HostReadable(t: MemoryType)
  {
    Contains(t.propertyFlags, DEVICE_LOCAL | HOST_VISIBLE)
  }

  /** Containing the union of the two flags is containing each of them. */
  lemma HostReadableIff(t: MemoryType)
    ensures HostReadable(t) <==>
              Contains(t.propertyFlags, DEVICE_LOCAL) && Contains(t.propertyFlags, HOST_VISIBLE)
  {
  }

  /** `position` over `types[start..]`, reported as an index into `types`. */
  function PositionFrom(types: seq<MemoryType>, start: nat): (r: Option<nat>)
    requires start <= |types|
    ensures r.Some? ==> start <= r.value < |types| && HostReadable(types[r.value])
    ensures r.Some? ==> forall j :: start <= j < r.value ==> !HostReadable(types[j])
    ensures r.None? <==> forall j :: start <= j < |types| ==> !HostReadable(types[j])
    decreases |types| - start
  {
    if start == |types| then None
    else if HostReadable(types[start]) then Some(start)
    else PositionFrom(types, start + 1)
  }

  /** The index of the first memory type that is both device-local and host-visible,
      or `None` when there is none (the program then unwraps nothing and aborts). */
  function SelectHostVisibleMemoryType(types: seq<MemoryType>): (r: Option<nat>)
    ensures r.Some? ==> r.value < |types| && HostReadable(types[r.value])
    ensures r.Some? ==> forall j :: 0 <= j < r.value ==> !HostReadable(types[j])
    ensures r.None? <==> forall j :: 0 <= j < |types| ==> !HostReadable(types[j])
  {
    PositionFrom(types, 0)
  }

  /** A `u32` mask, handled as a number below 2^32. Unlike the flag words it is
      arithmetic rather than `bv32`: the lowest-set-bit facts are proved by
      halving and by powers of two, which the solver handles far better than
      symbolic shifts of bit-vectors. */
  type U32 = n: nat | n < 0x1_0000_0000

  function Pow2(k: nat): (r: nat)
    ensures r >= 1
  {
    if k == 0 then 1 else 2 * Pow2(k - 1)
  }

  lemma {:induction false} Pow2Add(a: nat, b: nat)
    ensures Pow2(a + b) == Pow2(a) * Pow2(b)
    decreases a
  {
    if a > 0 {
      Pow2Add(a - 1, b);
    }
  }

  lemma Pow2At32()
    ensures Pow2(32) == 0x1_0000_0000
  {
    assert Pow2(8) == 256;
    Pow2Add(8, 8);
    Pow2Add(16, 16);
  }

  /** Bit `k` of `n` is set. */
  predicate Bit(n: nat, k: nat)
    decreases k
  {
    if k == 0 then n % 2 == 1 else Bit(n / 2, k - 1)
  }

  /** `trailing_zeros`, having already shifted out `k` zero bits: `n` is the original
      mask divided by 2^k, so it fits in the remaining `32 - k` bits. */
  function TrailingZerosFrom(n: nat, k: nat): (r: nat)
    requires k <= 32 && n < Pow2(32 - k)
    ensures k <= r <= 32
    ensures r < 32 ==> Bit(n, r - k)
    ensures forall j :: 0 <= j < r - k ==> !Bit(n, j)
    ensures r == 32 <==> n == 0
    decreases 32 - k
  {
    if k == 32 then 32
    else if n % 2 == 1 then k
    else
      var r := TrailingZerosFrom(n / 2, k + 1);
      assert forall j :: 1 <= j < r - k ==> (Bit(n, j) <==> Bit(n / 2, j - 1));
      r
  }

  /** `u32::trailing_zeros`: the number of zero bits below the lowest set bit,
      and 32 for the empty mask. */
  function TrailingZeros(x: U32): (r: nat)
    ensures r <= 32
    ensures r == 32 <==> x == 0
    ensures r < 32 ==> Bit(x, r)
    ensures forall j :: 0 <= j < r ==> !Bit(x, j)
  {
    Pow2At32();
    TrailingZerosFrom(x, 0)
  }

  /** The image's memory type: the lowest set bit of the mask the driver reports,
      once `assert_ne!` has rejected an empty mask (`None`: the program aborts). */
  function SelectImageMemoryType(memoryTypeBits: U32): (r: Option<nat>)
    ensures r.None? <==> memoryTypeBits == 0
    ensures r.Some? ==> r.value < 32 && Bit(memoryTypeBits, r.value)
    ensures r.Some? ==> forall j :: 0 <= j < r.value ==> !Bit(memoryTypeBits, j)
  {
    if memoryTypeBits == 0 then None else Some(TrailingZeros(memoryTypeBits))
  }

  /** Bit `k` is the lowest set bit of `n` exactly when the low `k + 1` bits of `n`
      read as 2^k (what `n & n.wrapping_neg()` isolates). */
  lemma {:induction false} LowestBitValue(n: nat, k: nat)
    requires Bit(n, k) && forall j :: 0 <= j < k ==> !Bit(n, j)
    ensures n % Pow2(k + 1) == Pow2(k)
    decreases k
  {
    if k > 0 {
      assert !Bit(n, 0);
      forall j | 0 <= j < k - 1 ensures !Bit(n / 2, j) {
        assert !Bit(n, j + 1);
      }
      LowestBitValue(n / 2, k - 1);
      DoubleMod(n, Pow2(k));
    }
  }

  /** For even `n`, halving commutes with reduction modulo an even number. */
  lemma DoubleMod(n: nat, p: nat)
    requires n % 2 == 0 && p >= 1
    ensures n % (2 * p) == 2 * ((n / 2) % p)
  {
    var m := n / 2;
    var q, r := m / p, m % p;
    assert m == q * p + r;
    assert n == q * (2 * p) + 2 * r;
    ModUnique(n, 2 * p, q, 2 * r);
  }

  /** Quotient and remainder are determined by the division identity. */
  lemma ModUnique(n: int, d: int, q: int, r: int)
    requires d > 0 && n == q * d + r && 0 <= r < d
    ensures n % d == r
  {
    var q', r' := n / d, n % d;
    assert n == q' * d + r';
    assert (q - q') * d == q * d - q' * d;
    assert (q - q') * d == r' - r;
    if q > q' {
      MulAtLeast(q - q', d);
    } else if q < q' {
      assert (q' - q) * d == r - r';
      MulAtLeast(q' - q, d);
    }
  }

  lemma MulAtLeast(a: int, d: int)
    requires a >= 1 && d > 0
    ensures a * d >= d
  {
  }

  /** The image's memory type is the position of the mask's lowest set bit in the
      arithmetic sense as well: the mask modulo 2^(k+1) is 2^k. */
  lemma ImageMemoryTypeIsLowestBit(memoryTypeBits: U32)
    requires memoryTypeBits != 0
    ensures var k := SelectImageMemoryType(memoryTypeBits).value;
            memoryTypeBits % Pow2(k + 1) == Pow2(k)
  {
    var k := SelectImageMemoryType(memoryTypeBits).value;
    LowestBitValue(memoryTypeBits, k);
  }
}
