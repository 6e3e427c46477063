# TransportLayer: the shared base of the UDP and TCP layers

This project models `TransportLayer`, the abstract base class that the UDP and
TCP layers of the PcapDotNet packet-construction library share. A transport
layer holds an optional explicit checksum (`ushort?`), a source port and a
destination port (`ushort`), and a per-protocol policy that each concrete
protocol supplies: the IPv4 protocol number the layer below must carry, the
offset of the checksum field, whether the checksum is optional, and whether
it is computed at all (by default it is). On top of these fields the class
defines structural equality, with another transport layer and with any
layer, and a hash code.

The model is pure, as the class is: the settable auto-properties are fields of
the datatype `Transport.TransportLayer`, and setting one is a record update
(`t.(sourcePort := p)`). The three checksum-policy values sit together in
`Transport.ChecksumPolicy`. The previous-layer protocol number is a byte
(`bv8`). A C# `int` that only takes part in unchecked arithmetic (the hash
code) is modelled by its 32-bit two's-complement pattern (`bv32`): unchecked
`+`, `<<` and `^` on `int` act on exactly those bits. A C# null is `None` of
`Wrappers.Option`.

The layer base class is not part of this model. Its equality and its hash
code enter as parameters: `baseEquals` for `base.Equals(other)`, `baseHash`
for `base.GetHashCode()`, and `checksumHash` for the hash of the nullable
checksum. A layer of any other kind is `Transport.Layer.NonTransport`, whose
fields are not modelled. `Transport.AsTransport` is the `as TransportLayer`
cast.

Modules: `Wrappers` (the optional value), `Transport` (data model, equality,
hash code, port packing) and `TransportProperties` (lemmas about them).

Three points about what the code does:

- The hash code does not read `PreviousLayerProtocol`, though equality
  compares it: lines 69-71 of TransportLayer.cs combine only the base hash,
  the checksum hash and the ports
  (`TransportProperties.HashIgnoresProtocolAndPolicy`). Hashing fewer fields
  than equality compares is still consistent with equality.
- Line 71 packs the two ports into one `int`: the source port goes in the
  high 16 bits and the destination port in the low 16 bits.
- The kind check in `Equals(Layer)` is the `as TransportLayer` cast at line
  64. A null argument or a layer of another kind reaches
  `Equals(TransportLayer)` as null.

## Model

| member | source | states |
|---|---|---|
| `Transport.ChecksumPolicy.CalculateChecksum` | PcapDotNet/src/PcapDotNet.Packets/Transport/TransportLayer.cs:39-42 | The checksum is computed unless the concrete protocol overrides the default with false. |
| `Transport.TransportLayer.EqualsTransport` | PcapDotNet/src/PcapDotNet.Packets/Transport/TransportLayer.cs:54-60 | Equal exactly when the other layer is not null and agrees with this one on every field except, possibly, the checksum policy: protocol, nullable checksum, source port and destination port. |
| `Transport.AsTransport` | PcapDotNet/src/PcapDotNet.Packets/Transport/TransportLayer.cs:64 | The cast yields a layer exactly when the argument is a non-null transport layer, and then it is that same layer. |
| `Transport.TransportLayer.EqualsLayer` | PcapDotNet/src/PcapDotNet.Packets/Transport/TransportLayer.cs:62-65 | Equal exactly when the base comparison holds and the other layer is a transport layer that agrees on all fields except the checksum policy. |
| `Transport.PackedPorts` | PcapDotNet/src/PcapDotNet.Packets/Transport/TransportLayer.cs:71 | The packed value holds the source port in bits 16 to 31 and the destination port in bits 0 to 15. |
| `Transport.TransportLayer.HashCode` | PcapDotNet/src/PcapDotNet.Packets/Transport/TransportLayer.cs:67-72 | Taking the base hash and the checksum hash back out of the hash code leaves the source port in the high half and the destination port in the low half. |
| `TransportProperties.EqualsTransportIsEquivalence` | PcapDotNet/src/PcapDotNet.Packets/Transport/TransportLayer.cs:54-60 | On non-null layers, `Equals(TransportLayer)` is reflexive, symmetric and transitive. |
| `TransportProperties.EqualsTransportIsValueEquality` | PcapDotNet/src/PcapDotNet.Packets/Transport/TransportLayer.cs:54-60 | For two layers of the same protocol policy, `Equals(TransportLayer)` holds exactly when they are the same value. |
| `TransportProperties.ChangingOneFieldBreaksEquality` | PcapDotNet/src/PcapDotNet.Packets/Transport/TransportLayer.cs:57-59 | Changing the protocol, the checksum, the source port or the destination port alone makes the layers unequal, in both directions. |
| `TransportProperties.AbsentChecksumIsNotPresent` | PcapDotNet/src/PcapDotNet.Packets/Transport/TransportLayer.cs:58 | A layer without a checksum never equals one with a checksum, whatever its value, in either direction. |
| `TransportProperties.AbsentChecksumDiffersFromZero` | PcapDotNet/src/PcapDotNet.Packets/Transport/TransportLayer.cs:58 | Setting the checksum of the same layer to absent and to zero gives two layers that are unequal, in either direction. |
| `TransportProperties.EqualsLayerNeedsTransport` | PcapDotNet/src/PcapDotNet.Packets/Transport/TransportLayer.cs:62-65 | `Equals(Layer)` is false for null and for a layer that is not a transport layer, whatever the base comparison says. |
| `TransportProperties.EqualsLayerOnTransport` | PcapDotNet/src/PcapDotNet.Packets/Transport/TransportLayer.cs:62-65 | Against a transport layer, `Equals(Layer)` holds exactly when both the base comparison and `Equals(TransportLayer)` hold. |
| `TransportProperties.EqualsLayerIsEquivalence` | PcapDotNet/src/PcapDotNet.Packets/Transport/TransportLayer.cs:62-65 | Between transport layers, `Equals(Layer)` is reflexive, symmetric and transitive whenever the base comparison is. |
| `TransportProperties.PackedPortsNoCarry` | PcapDotNet/src/PcapDotNet.Packets/Transport/TransportLayer.cs:71 | The shifted source port and the destination port share no bit, so the unchecked sum equals their bitwise or and does not wrap. |
| `TransportProperties.PackedPortsInjective` | PcapDotNet/src/PcapDotNet.Packets/Transport/TransportLayer.cs:71 | Two port pairs pack to the same value exactly when they are the same pair. |
| `TransportProperties.HashAgreesWithEqualsTransport` | PcapDotNet/src/PcapDotNet.Packets/Transport/TransportLayer.cs:54-72 | Layers equal under `Equals(TransportLayer)` with the same base hash have the same hash code. |
| `TransportProperties.HashAgreesWithEqualsLayer` | PcapDotNet/src/PcapDotNet.Packets/Transport/TransportLayer.cs:62-72 | If the base hash agrees with the base comparison, layers equal under `Equals(Layer)` have the same hash code. |
| `TransportProperties.HashIgnoresProtocolAndPolicy` | PcapDotNet/src/PcapDotNet.Packets/Transport/TransportLayer.cs:67-72 | Layers that differ only in the previous-layer protocol or the checksum policy have the same hash code. |
| `TransportProperties.HashDeterminesPorts` | PcapDotNet/src/PcapDotNet.Packets/Transport/TransportLayer.cs:67-72 | With the same base hash and the same checksum, equal hash codes imply equal source ports and equal destination ports. |
| `TransportProperties.HashDoesNotImplyEquality` | PcapDotNet/src/PcapDotNet.Packets/Transport/TransportLayer.cs:54-72 | Whatever the base hash and the checksum hash, there are two unequal layers with the same hash code: equality implies equal hashes, not the converse. |
| `TransportProperties.PackedPortsSurjective` | PcapDotNet/src/PcapDotNet.Packets/Transport/TransportLayer.cs:71 | Every 32-bit value is the packing of some port pair. Together with injectivity, the packing is a bijection between port pairs and 32-bit values. |

## Left out

- The layer base class (`Layer.Equals`, `Layer.GetHashCode`) is not part of this model. Both are parameters of the functions that call them.
- `Nullable<ushort>.GetHashCode` is a library method. It is the parameter `checksumHash`, an arbitrary function of the optional checksum.
- `HashAgreesWithEqualsLayer` assumes in its requires that the base hash agrees with the base comparison. The base class is not modelled, so this cannot be proved here.
- `EqualsLayerIsEquivalence` assumes in its requires that the base comparison is an equivalence, for the same reason.
- `EqualsLayer`: `Equals(TransportLayer)` is virtual (TransportLayer.cs:54), so the call at line 64 dispatches to the concrete class's override, if it has one. The model uses this class's definition, and overrides are not modelled.
- The concrete values of `PreviousLayerProtocol`, `ChecksumOffset`, `IsChecksumOptional` and the `CalculateChecksum` override are abstract in this class. They are fields of the value and are not fixed to UDP or TCP numbers. No operation reads `ChecksumOffset` or `IsChecksumOptional`. `CalculateChecksum` reads the override. `EqualsTransport` compares `PreviousLayerProtocol`, and the hash code does not read it.
- The signed value of the hash code as a C# `int` is not modelled. The hash is its 32-bit pattern, which is what the unchecked operators compute and what comparisons of hash codes depend on.
- The `IIpV4NextTransportLayer` interface is not part of this model.
- The internet checksum, the pseudo-header, the remapping of an optional zero checksum to `0xFFFF`, and writing the layer into a packet buffer are not part of this model. They are implemented elsewhere in the library.
- Mutation of the settable properties in place: a changed property is modelled as a new value with that field replaced. No aliasing between layer objects is modelled.
