/**
 * What the equality and hash code of a transport layer promise: equality is
 * an equivalence, it tells every compared field apart (an absent checksum
 * from a zero one included), it fails for null and for layers of another
 * kind, the port packing is injective, and equal layers hash alike.
 */
module TransportProperties {

  import opened Wrappers
  import opened Transport

  /** Equality between two non-null transport layers. */
  predicate SameTransport(a: TransportLayer, b: TransportLayer) {
    a.EqualsTransport(Some(b))
  }

  ghost predicate IsEquivalence(eq: (TransportLayer, TransportLayer) -> bool) {
    && (forall a :: eq(a, a))
    && (forall a, b :: eq(a, b) ==> eq(b, a))
    && (forall a, b, c :: eq(a, b) && eq(b, c) ==> eq(a, c))
  }

  /** On non-null layers, `Equals(TransportLayer)` is reflexive, symmetric and transitive. */
  lemma EqualsTransportIsEquivalence()
    ensures IsEquivalence(SameTransport)
  {
  }

  /** Two layers of the same protocol are equal exactly when they are the same value. */
  lemma EqualsTransportIsValueEquality(a: TransportLayer, b: TransportLayer)
    requires a.policy == b.policy
    ensures a.EqualsTransport(Some(b)) <==> a == b
  {
  }

  /** Changing any one of the four compared fields makes the layers unequal, in both directions. */
  lemma ChangingOneFieldBreaksEquality(
    t: TransportLayer, protocol: IpV4Protocol, checksum: Option<UShort>, sourcePort: UShort, destinationPort: UShort)
    ensures protocol != t.previousLayerProtocol ==>
      var u := t.(previousLayerProtocol := protocol);
      !t.EqualsTransport(Some(u)) && !u.EqualsTransport(Some(t))
    ensures checksum != t.checksum ==>
      var u := t.(checksum := checksum);
      !t.EqualsTransport(Some(u)) && !u.EqualsTransport(Some(t))
    ensures sourcePort != t.sourcePort ==>
      var u := t.(sourcePort := sourcePort);
      !t.EqualsTransport(Some(u)) && !u.EqualsTransport(Some(t))
    ensures destinationPort != t.destinationPort ==>
      var u := t.(destinationPort := destinationPort);
      !t.EqualsTransport(Some(u)) && !u.EqualsTransport(Some(t))
  {
  }

  /** An absent checksum never equals a present one, whatever its value. */
  lemma AbsentChecksumIsNotPresent(a: TransportLayer, b: TransportLayer)
    requires a.checksum == None && b.checksum.Some?
    ensures !a.EqualsTransport(Some(b)) && !b.EqualsTransport(Some(a))
  {
  }

  /** An absent checksum is not a zero checksum: the same layer with each is unequal to itself with the other. */
  lemma AbsentChecksumDiffersFromZero(t: TransportLayer)
    ensures !t.(checksum := None).EqualsTransport(Some(t.(checksum := Some(0))))
    ensures !t.(checksum := Some(0)).EqualsTransport(Some(t.(checksum := None)))
  {
  }

  /** `Equals(Layer)` is false for null and for any layer that is not a transport layer. */
  lemma EqualsLayerNeedsTransport(t: TransportLayer, other: Option<Layer>, baseEquals: (Layer, Option<Layer>) -> bool)
    requires other.None? || other.value.NonTransport?
    ensures !t.EqualsLayer(other, baseEquals)
  {
  }

  /** Against a transport layer, `Equals(Layer)` is the base comparison and `Equals(TransportLayer)` together. */
  lemma EqualsLayerOnTransport(t: TransportLayer, u: TransportLayer, baseEquals: (Layer, Option<Layer>) -> bool)
    ensures t.EqualsLayer(Some(Transport(u)), baseEquals) <==>
      baseEquals(Transport(t), Some(Transport(u))) && t.EqualsTransport(Some(u))
  {
  }

  /**
   * The packed ports never carry: the two addends share no bit, so the sum
   * is their bitwise or and does not wrap past 32 bits.
   */
  lemma PackedPortsNoCarry(sourcePort: UShort, destinationPort: UShort)
    ensures PackedPorts(sourcePort, destinationPort) == ((sourcePort as bv32) << 16) | (destinationPort as bv32)
    ensures PackedPorts(sourcePort, destinationPort) >= (sourcePort as bv32) << 16
  {
  }

  /** Distinct port pairs pack to distinct values. */
  lemma PackedPortsInjective(s1: UShort, d1: UShort, s2: UShort, d2: UShort)
    ensures PackedPorts(s1, d1) == PackedPorts(s2, d2) <==> s1 == s2 && d1 == d2
  {
  }

  /** Equal transport layers with the same base hash hash alike. */
  lemma HashAgreesWithEqualsTransport(
    a: TransportLayer, b: TransportLayer, baseHash: HashValue, checksumHash: Option<UShort> -> HashValue)
    requires a.EqualsTransport(Some(b))
    ensures a.HashCode(baseHash, checksumHash) == b.HashCode(baseHash, checksumHash)
  {
  }

  /**
   * Layers equal under `Equals(Layer)` hash alike, provided the base class's
   * hash agrees with the base class's equality.
   */
  lemma HashAgreesWithEqualsLayer(
    a: TransportLayer, b: TransportLayer,
    baseEquals: (Layer, Option<Layer>) -> bool, baseHash: Layer -> HashValue,
    checksumHash: Option<UShort> -> HashValue)
    requires forall x, y :: baseEquals(x, Some(y)) ==> baseHash(x) == baseHash(y)
    requires a.EqualsLayer(Some(Transport(b)), baseEquals)
    ensures a.HashCode(baseHash(Transport(a)), checksumHash) == b.HashCode(baseHash(Transport(b)), checksumHash)
  {
  }

  /**
   * The hash code reads neither the previous-layer protocol nor the checksum
   * policy: layers that differ only there hash alike.
   */
  lemma HashIgnoresProtocolAndPolicy(
    t: TransportLayer, protocol: IpV4Protocol, policy: ChecksumPolicy,
    baseHash: HashValue, checksumHash: Option<UShort> -> HashValue)
    ensures t.(previousLayerProtocol := protocol, policy := policy).HashCode(baseHash, checksumHash) ==
      t.HashCode(baseHash, checksumHash)
  {
  }

  /**
   * With the base and checksum hashes fixed, the hash code determines the
   * ports: two layers with the same checksum and the same hash have the
   * same source port and the same destination port.
   */
  lemma HashDeterminesPorts(
    a: TransportLayer, b: TransportLayer, baseHash: HashValue, checksumHash: Option<UShort> -> HashValue)
    requires a.checksum == b.checksum
    requires a.HashCode(baseHash, checksumHash) == b.HashCode(baseHash, checksumHash)
    ensures a.sourcePort == b.sourcePort && a.destinationPort == b.destinationPort
  {
  }

  /**
   * The hash code does not imply equality: for any base hash and any hash of
   * the checksum, two unequal layers (differing in the previous-layer
   * protocol) have the same hash code.
   */
  lemma HashDoesNotImplyEquality(baseHash: HashValue, checksumHash: Option<UShort> -> HashValue)
    ensures exists a: TransportLayer, b: TransportLayer ::
      !a.EqualsTransport(Some(b)) && a.HashCode(baseHash, checksumHash) == b.HashCode(baseHash, checksumHash)
  {
    var a := TransportLayer(None, 0, 0, 0, ChecksumPolicy(0, false, None));
    var b := a.(previousLayerProtocol := 1);
    HashIgnoresProtocolAndPolicy(a, 1, a.policy, baseHash, checksumHash);
    assert !a.EqualsTransport(Some(b));
  }

  /**
   * Every 32-bit value is the packing of some port pair: unpacking its two
   * halves and packing them again gives it back. With `PackedPortsInjective`,
   * the packing is a bijection between port pairs and 32-bit values.
   */
  lemma PackedPortsSurjective(packed: HashValue)
    ensures exists s: UShort, d: UShort :: PackedPorts(s, d) == packed
  {
    assert PackedPorts(HighHalf(packed), LowHalf(packed)) == packed;
  }

  /** The base class's equality, assumed to be an equivalence on non-null layers. */
  ghost predicate BaseIsEquivalence(baseEquals: (Layer, Option<Layer>) -> bool) {
    && (forall x :: baseEquals(x, Some(x)))
    && (forall x, y :: baseEquals(x, Some(y)) ==> baseEquals(y, Some(x)))
    && (forall x, y, z :: baseEquals(x, Some(y)) && baseEquals(y, Some(z)) ==> baseEquals(x, Some(z)))
  }

  /** `Equals(Layer)` between transport layers is an equivalence when the base class's equality is. */
  lemma EqualsLayerIsEquivalence(baseEquals: (Layer, Option<Layer>) -> bool)
    requires BaseIsEquivalence(baseEquals)
    ensures IsEquivalence((a: TransportLayer, b: TransportLayer) => a.EqualsLayer(Some(Transport(b)), baseEquals))
  {
  }
}
