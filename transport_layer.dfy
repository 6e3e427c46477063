/**
 * The common part of the UDP and TCP layers of a packet description: the
 * optional explicit checksum, the two ports, the per-protocol checksum policy,
 * and the structural equality and hash code over those fields.
 *
 * C# `ushort` is `bv16`. A C# `int` that only takes part in unchecked
 * arithmetic (a hash code) is modelled by its 32-bit two's-complement pattern,
 * `bv32`: unchecked `+`, `<<` and `^` on `int` act on exactly those bits.
 */
module Transport {

  import opened Wrappers

  type UShort = bv16

  /** A hash code: the bit pattern of a C# `int`. */
  type HashValue = bv32

  /** The IPv4 protocol number (an enumeration over a byte). */
  type IpV4Protocol = bv8

  /** A C# `int` read as a number: 32-bit two's complement. */
  newtype Int32 = x: int | -0x8000_0000 <= x < 0x8000_0000

  /**
   * The checksum policy that each concrete transport protocol supplies:
   * where its checksum field sits, whether an all-zero field means "no
   * checksum", and whether to compute the checksum at all. The last one has
   * a default; `calculateChecksumOverride` is `None` for a protocol that keeps it.
   */
  datatype ChecksumPolicy = ChecksumPolicy(
    checksumOffset: Int32,
    isChecksumOptional: bool,
    calculateChecksumOverride: Option<bool>)
  {
    /** Whether the checksum is computed; false leaves the field zero. */
    function CalculateChecksum(): (r: bool)
      ensures !r <==> calculateChecksumOverride == Some(false)
    {
      match calculateChecksumOverride
      case None => true
      case Some(b) => b
    }
  }

  /** A transport layer as the packet description holds it. */
  datatype TransportLayer = TransportLayer(
    checksum: Option<UShort>,
    sourcePort: UShort,
    destinationPort: UShort,
    previousLayerProtocol: IpV4Protocol,
    policy: ChecksumPolicy)
  {
    /**
     * Equality with another transport layer, or with null: the two agree on
     * everything except, possibly, the checksum policy. The protocol number of
     * the previous layer is compared; a null argument is never equal.
     */
    function EqualsTransport(other: Option<TransportLayer>): (r: bool)
      ensures r <==> other.Some? && other.value.(policy := policy) == this
    {
      other.Some? &&
      previousLayerProtocol == other.value.previousLayerProtocol &&
      checksum == other.value.checksum &&
      sourcePort == other.value.sourcePort && destinationPort == other.value.destinationPort
    }

    /**
     * Equality with any layer, or with null. `baseEquals` is the comparison
     * the layer base class makes, which is not part of this model; the
     * derived part holds only when `other` is a transport layer.
     */
    function EqualsLayer(other: Option<Layer>, baseEquals: (Layer, Option<Layer>) -> bool): (r: bool)
      ensures r <==>
        && baseEquals(Transport(this), other)
        && other.Some? && other.value.Transport?
        && other.value.transport.(policy := policy) == this
    {
      baseEquals(Transport(this), other) && EqualsTransport(AsTransport(other))
    }

    /**
     * The hash code: the base class's hash, xor the hash of the nullable
     * checksum, xor the packed ports. Taking the two other hashes back out
     * leaves the source port in the high half and the destination port in
     * the low half.
     */
    function HashCode(baseHash: HashValue, checksumHash: Option<UShort> -> HashValue): (r: HashValue)
      ensures HighHalf(r ^ baseHash ^ checksumHash(checksum)) == sourcePort
      ensures LowHalf(r ^ baseHash ^ checksumHash(checksum)) == destinationPort
    {
      baseHash ^ checksumHash(checksum) ^ PackedPorts(sourcePort, destinationPort)
    }
  }

  /** A layer of a packet: a transport layer, or a layer of another kind whose fields are not part of this model. */
  datatype Layer = Transport(transport: TransportLayer) | NonTransport(kind: nat)

  /** `other as TransportLayer`: the same object if it is a transport layer, null otherwise. */
  function AsTransport(other: Option<Layer>): (r: Option<TransportLayer>)
    ensures r.Some? <==> other.Some? && other.value.Transport?
    ensures r.Some? ==> other == Some(Transport(r.value))
  {
    match other
    case Some(Transport(t)) => Some(t)
    case _ => None
  }

  /** Bits 16 to 31 of a 32-bit value. */
  function HighHalf(x: HashValue): (r: UShort) {
    (x >> 16) as UShort
  }

  /** Bits 0 to 15 of a 32-bit value. */
  function LowHalf(x: HashValue): (r: UShort) {
    (x & 0xFFFF) as UShort
  }

  /**
   * `(SourcePort << 16) + DestinationPort` on `int`: both ports are widened
   * to `int`, and the sum is taken in unchecked arithmetic. The source port
   * lands in the high 16 bits and the destination port in the low 16 bits.
   */
  function PackedPorts(sourcePort: UShort, destinationPort: UShort): (r: HashValue)
    ensures HighHalf(r) == sourcePort && LowHalf(r) == destinationPort
  {
    ((sourcePort as bv32) << 16) + (destinationPort as bv32)
  }
}
