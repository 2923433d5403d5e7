/** The SYCL device's launch-geometry rule and its per-type packet traits.
    `size_t` is 64 bits wide on the targets the library is built for; the
    rule is stated once on unbounded integers (`CeilDiv`) and once in
    64-bit arithmetic as the source writes it. */
module PacketTraitsSycl {
  import opened ScalarTypes
  import opened CeilDivision

  /** 2^64: values of `size_t` are the naturals below this bound. */
  const SizeModulus: nat := 0x1_0000_0000_0000_0000

  /** The fixed work-group size chosen by `parallel_for_setup`. */
  const LocalSize: nat := 256

  /** The work-group count as the source computes it: the sum
      `globalSize + localSize - 1` is taken modulo 2^64 before dividing. */
  function GroupCountAsWritten(n: nat): (groups: nat)
    requires n < SizeModulus
    ensures n + LocalSize - 1 < SizeModulus ==> groups == CeilDiv(n, LocalSize)
    ensures n + LocalSize - 1 >= SizeModulus ==> groups == 0
  {
    ((n + LocalSize - 1) % SizeModulus) / LocalSize
  }

  /** The largest `size_t` wraps the sum round to 254, so the 64-bit
      computation launches no work-group for `2^64 - 1` items. */
  lemma GroupCountAsWrittenMissesLargeExtent()
    ensures var n := SizeModulus - 1;
            GroupCountAsWritten(n) == 0 && GroupCountAsWritten(n) * LocalSize < n
  {
  }

  /** The work-group count computed without the overflowing sum: a quotient
      and a remainder test, both of which stay within `size_t`. */
  function GroupCount(n: nat): (groups: nat)
    requires n < SizeModulus
    ensures groups == CeilDiv(n, LocalSize) && groups < SizeModulus
  {
    n / LocalSize + (if n % LocalSize == 0 then 0 else 1)
  }

  /** For every extent whose sum does not wrap, the source's computation and
      the corrected one agree. */
  lemma GroupCountAgreesWithoutWrap(n: nat)
    requires n + LocalSize - 1 < SizeModulus
    ensures GroupCountAsWritten(n) == GroupCount(n)
  {
  }

  /** `SYCLDevice::parallel_for_setup` as written, in 64-bit arithmetic. */
  method ParallelForSetupAsWritten(n: nat) returns (localSize: nat, nWG: nat, globalSize: nat)
    requires n < SizeModulus
    ensures localSize == LocalSize && globalSize == n
    ensures nWG == GroupCountAsWritten(n)
  {
    localSize := 256;
    globalSize := n;
    nWG := ((globalSize + localSize - 1) % SizeModulus) / localSize;
  }

  /** `SYCLDevice::parallel_for_setup` with the corrected group count: a
      local size of 256, a global size of `n`, and just enough work-groups to
      cover every index. */
  method ParallelForSetup(n: nat) returns (localSize: nat, nWG: nat, globalSize: nat)
    requires n < SizeModulus
    ensures localSize == LocalSize && globalSize == n
    ensures nWG == GroupCount(n) && nWG < SizeModulus
    ensures nWG * localSize >= n
    ensures n > 0 ==> (nWG - 1) * localSize < n
    ensures nWG == 0 <==> n == 0
  {
    localSize := 256;
    globalSize := n;
    nWG := globalSize / localSize + (if globalSize % localSize == 0 then 0 else 1);
    CeilDivCovers(n, LocalSize);
    CeilDivZero(n, LocalSize);
    if n > 0 {
      CeilDivNoSurplus(n, LocalSize);
    }
  }

  /** The group count never decreases as the extent grows. */
  lemma GroupCountMonotone(n1: nat, n2: nat)
    requires n1 <= n2 < SizeModulus
    ensures GroupCount(n1) <= GroupCount(n2)
  {
    CeilDivMonotone(n1, n2, LocalSize);
  }

  /** The native vector types a packet can be: the scalar type itself, or
      `cl_float4`. */
  datatype PacketType = ScalarPacket(elem: ScalarType) | Float4

  /** Number of scalar lanes in a packet type. */
  function Lanes(p: PacketType): nat
  {
    match p
    case ScalarPacket(_) => 1
    case Float4 => 4
  }

  /** The elementwise operations a trait flags as natively available. */
  datatype Capability = Abs | Sqrt | Sin | Cos | Add | Sub | Mul | Div | Mad | Dot | Length | Min | Max

  /** `Packet_traits<T, SYCLDevice>`: the packet type and the enumerators of
      its anonymous enum, each an integer as in the source. */
  datatype PacketTraits = PacketTraits(
    packetType: PacketType, size: int, supported: int,
    hasAbs: int, hasSqrt: int, hasSin: int, hasCos: int,
    hasAdd: int, hasSub: int, hasMul: int, hasDiv: int,
    hasMad: int, hasDot: int, hasLength: int, hasMin: int, hasMax: int)

  /** The `has_*` flag of a capability. */
  function Has(t: PacketTraits, c: Capability): int
  {
    match c
    case Abs => t.hasAbs
    case Sqrt => t.hasSqrt
    case Sin => t.hasSin
    case Cos => t.hasCos
    case Add => t.hasAdd
    case Sub => t.hasSub
    case Mul => t.hasMul
    case Div => t.hasDiv
    case Mad => t.hasMad
    case Dot => t.hasDot
    case Length => t.hasLength
    case Min => t.hasMin
    case Max => t.hasMax
  }

  /** The partial specialisation for any `T` on the SYCL device. */
  function GenericTraits(t: ScalarType): (traits: PacketTraits)
    ensures traits.packetType == ScalarPacket(t) && traits.size == 1 && traits.supported == 1
    ensures forall c: Capability :: Has(traits, c) == 1
  {
    PacketTraits(ScalarPacket(t), 1, 1, 1, 1, 1, 1, 1, 1, 1, 1, 1, 1, 1, 1, 1)
  }

  /** The full specialisation for `float`. */
  function FloatTraits(): (traits: PacketTraits)
    ensures traits.packetType == Float4 && traits.size == 4 && traits.supported == 1
    ensures forall c: Capability :: Has(traits, c) == 1
  {
    PacketTraits(Float4, 4, 1, 1, 1, 1, 1, 1, 1, 1, 1, 1, 1, 1, 1, 1)
  }

  /** The traits the compiler selects for a scalar type: the `float`
      specialisation when it matches, the generic one otherwise. */
  function TraitsFor(t: ScalarType): (traits: PacketTraits)
    ensures traits.size == (if t == Float then 4 else 1)
    ensures traits.packetType == (if t == Float then Float4 else ScalarPacket(t))
    ensures traits.supported == 1
    ensures forall c: Capability :: Has(traits, c) == 1
  {
    if t == Float then FloatTraits() else GenericTraits(t)
  }

  /** Every trait's `Size` is the lane count of its packet type. */
  lemma SizeIsPacketWidth(t: ScalarType)
    ensures TraitsFor(t).size == Lanes(TraitsFor(t).packetType)
  {
  }

  /** The `float` specialisation differs from the generic one for `float`
      only in its packet type and `Size`. */
  lemma FloatDiffersOnlyInPacket()
    ensures TraitsFor(Float) == GenericTraits(Float).(packetType := Float4, size := 4)
    ensures TraitsFor(Float) != GenericTraits(Float)
  {
  }
}
