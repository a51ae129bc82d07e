/**
 Values of the OpenFlow protocol that the message utilities read and write:
 protocol versions, ports, buffer ids, VLAN ids, matches, actions and the two
 message variants (packet-in and packet-out). Wire layouts are not modelled;
 every value is an immutable Dafny value.
 */
module OFTypes {

  /** An explicit "absent" result, used wherever the Java code would see null. */
  datatype Option<T> = None | Some(value: T)

  newtype uint8 = x: int | 0 <= x < 0x100
  newtype uint16 = x: int | 0 <= x < 0x1_0000
  newtype uint32 = x: int | 0 <= x < 0x1_0000_0000

  /** OpenFlow protocol revisions, in the declaration order of the Java enum. */
  datatype Version = OF10 | OF11 | OF12 | OF13 | OF14 | OF15

  /** Position of a version in the enum declaration (Java's `ordinal()`). */
  function Ordinal(v: Version): (n: nat)
    ensures n < 6
  {
    match v
    case OF10 => 0
    case OF11 => 1
    case OF12 => 2
    case OF13 => 3
    case OF14 => 4
    case OF15 => 5
  }

  /** Java's `Enum.compareTo`: the difference of the two ordinals. */
  function CompareTo(a: Version, b: Version): int
  {
    Ordinal(a) - Ordinal(b)
  }

  /**
   Capability table, written out version by version: does a packet-in of this
   version carry the ingress port in its own in_port field (OpenFlow 1.0 and
   1.1) rather than in its match (OpenFlow 1.2 onwards)?
   */
  predicate PacketInHasInlineInPort(v: Version)
  {
    match v
    case OF10 => true
    case OF11 => true
    case OF12 => false
    case OF13 => false
    case OF14 => false
    case OF15 => false
  }

  /**
   Capability table: does a packet-out of this version carry an in_port field
   (OpenFlow 1.0 to 1.4) rather than a match (OpenFlow 1.5)?
   */
  predicate PacketOutHasInlineInPort(v: Version)
  {
    match v
    case OF10 => true
    case OF11 => true
    case OF12 => true
    case OF13 => true
    case OF14 => true
    case OF15 => false
  }

  /** A switch port number (32 bits from OpenFlow 1.1 on). */
  type Port = uint32

  /** A switch-side buffer handle. */
  type BufferId = uint32

  /** The buffer id meaning "not buffered: the payload travels with the message" (all bits set). */
  const NoBuffer: BufferId := 0xffff_ffff

  /** The output max_len meaning "send the whole packet" (all bits set). */
  const NoTruncation: uint32 := 0xffff_ffff

  /** The raw value of a VLAN_VID match entry: 12-bit VLAN id plus the "present" bit. */
  type VlanVidMatch = uint16

  /** The VLAN_VID value denoting untagged traffic. */
  const Untagged: VlanVidMatch := 0

  /** Transaction id. */
  type Xid = uint32

  /** Identifier of a match field; only IN_PORT and VLAN_VID are told apart. */
  datatype MatchField = InPort | VlanVid | OtherField(oxmType: nat)

  /** The value stored under a match field. */
  datatype FieldValue = PortValue(port: Port) | VlanValue(vid: VlanVidMatch) | OtherValue(bits: nat)

  /** Whether a value has the type its field demands (Java's `MatchField<F>`). */
  predicate FieldHolds(f: MatchField, v: FieldValue)
  {
    match f
    case InPort => v.PortValue?
    case VlanVid => v.VlanValue?
    case OtherField(_) => v.OtherValue?
  }

  /** A match: a finite association from fields to well-typed values. */
  type Match = m: map<MatchField, FieldValue> | forall f :: f in m ==> FieldHolds(f, m[f])
    witness map[]

  /** The value an optional match holds for a field, absent when there is no match or no entry. */
  function FieldOf(mo: Option<Match>, f: MatchField): (r: Option<FieldValue>)
    ensures r.Some? <==> mo.Some? && f in mo.value
    ensures r.Some? ==> FieldHolds(f, r.value) && r.value == mo.value[f]
  {
    match mo
    case None => None
    case Some(m) => if f in m then Some(m[f]) else None
  }

  /** The IN_PORT entry of an optional match (Java `match.get(MatchField.IN_PORT)`). */
  function MatchInPort(mo: Option<Match>): (r: Option<Port>)
    ensures r.Some? <==> FieldOf(mo, InPort).Some?
    ensures r.Some? ==> FieldOf(mo, InPort) == Some(PortValue(r.value))
  {
    match FieldOf(mo, InPort)
    case None => None
    case Some(v) => Some(v.port)
  }

  /** A forwarding action; only Output is built here, the rest are opaque. */
  datatype Action = Output(port: Port, maxLen: uint32) | OtherAction(actionType: uint16)

  /** A packet-in as the switch delivers it. */
  datatype PacketIn = PacketIn(
    xid: Xid,
    version: Version,
    bufferId: BufferId,
    inPort: Option<Port>,
    headerMatch: Option<Match>,
    data: seq<uint8>)

  /** A packet-out, or a packet-out builder (a builder is just the value built so far). */
  datatype PacketOut = PacketOut(
    xid: Xid,
    version: Version,
    bufferId: BufferId,
    inPort: Option<Port>,
    headerMatch: Option<Match>,
    actions: seq<Action>,
    data: Option<seq<uint8>>)

  /** The message variants the utilities handle. */
  datatype Message = PacketInMsg(pi: PacketIn) | PacketOutMsg(po: PacketOut)

  /** The transaction id of a message. */
  function XidOf(m: Message): Xid
  {
    match m
    case PacketInMsg(pi) => pi.xid
    case PacketOutMsg(po) => po.xid
  }

  /** A copy of a message with its transaction id replaced (`createBuilder().setXid(x).build()`). */
  function WithXid(m: Message, x: Xid): (r: Message)
    ensures XidOf(r) == x
    ensures r.PacketInMsg? <==> m.PacketInMsg?
  {
    match m
    case PacketInMsg(pi) => PacketInMsg(pi.(xid := x))
    case PacketOutMsg(po) => PacketOutMsg(po.(xid := x))
  }
}
