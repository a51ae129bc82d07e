/**
 Properties relating the message utilities to each other, to the capability
 tables, and to the discrepancies between the code as written and its
 documented intent.
 */
module OFMessageUtilsProperties {
  import opened OFTypes
  import opened OFMessageUtils

  /*************************************************************************
   * Version dispatch
   *************************************************************************/

  /** The one-sided comparisons of the code select exactly the versions of the capability tables. */
  lemma ThresholdsMatchCapabilities(v: Version)
    ensures CompareTo(v, OF12) < 0 <==> PacketInHasInlineInPort(v)
    ensures CompareTo(v, OF15) < 0 <==> PacketOutHasInlineInPort(v)
  {
  }

  /** Once a version uses the match for the ingress port, every later version does too. */
  lemma MatchBranchIsUpwardClosed(v: Version, w: Version)
    requires CompareTo(v, w) <= 0
    ensures !PacketInHasInlineInPort(v) ==> !PacketInHasInlineInPort(w)
    ensures !PacketOutHasInlineInPort(v) ==> !PacketOutHasInlineInPort(w)
  {
  }

  /*************************************************************************
   * GetInPort and GetVlan
   *************************************************************************/

  /** Below OpenFlow 1.2 the match plays no part: any match gives the in_port field. */
  lemma GetInPortIgnoresMatchBelowOF12(pi: PacketIn, other: Option<Match>)
    requires PacketInHasInlineInPort(pi.version)
    ensures GetInPort(pi.(headerMatch := other)) == pi.inPort
  {
  }

  /** From OpenFlow 1.2 on the in_port field plays no part: only the match's IN_PORT entry counts. */
  lemma GetInPortIgnoresInlineFromOF12(pi: PacketIn, other: Option<Port>)
    requires !PacketInHasInlineInPort(pi.version)
    ensures GetInPort(pi.(inPort := other)) == MatchInPort(pi.headerMatch)
  {
  }

  /**
   A packet-in is well formed when the ingress port is where its version
   keeps it, and only there.
   */
  predicate WellFormedPacketIn(pi: PacketIn)
  {
    if PacketInHasInlineInPort(pi.version) then
      pi.inPort.Some? && pi.headerMatch.None?
    else
      pi.inPort.None? && pi.headerMatch.Some? && InPort in pi.headerMatch.value
  }

  /** The packet-in a switch of version `v` sends for a packet that arrived on `port`. */
  function MakePacketIn(xid: Xid, v: Version, bufferId: BufferId, port: Port, fields: Match,
                        data: seq<uint8>): (pi: PacketIn)
    ensures WellFormedPacketIn(pi)
    ensures pi.version == v && pi.xid == xid && pi.bufferId == bufferId && pi.data == data
  {
    if PacketInHasInlineInPort(v) then
      PacketIn(xid, v, bufferId, Some(port), None, data)
    else
      PacketIn(xid, v, bufferId, None, Some(fields[InPort := PortValue(port)]), data)
  }

  /** For a well-formed packet-in the ingress port is always found. */
  lemma GetInPortOfWellFormed(pi: PacketIn)
    requires WellFormedPacketIn(pi)
    ensures GetInPort(pi).Some?
  {
  }

  /** GetInPort recovers the port a packet-in was made with, in every version. */
  lemma GetInPortRoundTrip(xid: Xid, v: Version, bufferId: BufferId, port: Port, fields: Match,
                           data: seq<uint8>)
    ensures GetInPort(MakePacketIn(xid, v, bufferId, port, fields, data)) == Some(port)
  {
  }

  /** An entry absent from the match of a 1.2+ packet-in stays absent: no port is invented. */
  lemma GetInPortAbsentStaysAbsent(pi: PacketIn)
    requires !PacketInHasInlineInPort(pi.version)
    requires pi.headerMatch.Some? && InPort !in pi.headerMatch.value
    ensures GetInPort(pi) == None
  {
  }

  /** GetVlan yields Untagged exactly when the entry is missing or itself holds Untagged. */
  lemma GetVlanUntaggedIff(pi: PacketIn)
    requires pi.headerMatch.Some?
    ensures GetVlan(pi) == Some(Untagged) <==>
      VlanVid !in pi.headerMatch.value || pi.headerMatch.value[VlanVid] == VlanValue(Untagged)
  {
  }

  /*************************************************************************
   * EqualsIgnoreXid
   *************************************************************************/

  lemma EqualsIgnoreXidReflexive(a: Message)
    ensures EqualsIgnoreXid(a, a)
  {
  }

  lemma EqualsIgnoreXidSymmetric(a: Message, b: Message)
    ensures EqualsIgnoreXid(a, b) <==> EqualsIgnoreXid(b, a)
  {
  }

  lemma EqualsIgnoreXidTransitive(a: Message, b: Message, c: Message)
    requires EqualsIgnoreXid(a, b) && EqualsIgnoreXid(b, c)
    ensures EqualsIgnoreXid(a, c)
  {
  }

  /** Changing either message's transaction id never changes the verdict. */
  lemma EqualsIgnoreXidXidInsensitive(a: Message, b: Message, x: Xid, y: Xid)
    ensures EqualsIgnoreXid(WithXid(a, x), WithXid(b, y)) == EqualsIgnoreXid(a, b)
  {
  }

  /** Messages that differ only in transaction id are equal ignoring it. */
  lemma EqualsIgnoreXidOnXidChange(a: Message, x: Xid)
    ensures EqualsIgnoreXid(a, WithXid(a, x))
  {
  }

  /** With equal transaction ids, the comparison is plain equality, so any other difference is seen. */
  lemma EqualsIgnoreXidSameXid(a: Message, b: Message)
    requires XidOf(a) == XidOf(b)
    ensures EqualsIgnoreXid(a, b) <==> a == b
  {
  }

  /*************************************************************************
   * SetInPort, as written and corrected
   *************************************************************************/

  /** Setting the ingress port twice leaves only the second port. */
  lemma SetInPortLastWriteWins(pob: PacketOut, first: Port, second: Port)
    ensures SetInPort(SetInPort(pob, first), second) == SetInPort(pob, second)
  {
    if !PacketOutHasInlineInPort(pob.version) {
      var m: Match := if pob.headerMatch.Some? then pob.headerMatch.value else map[];
      assert m[InPort := PortValue(first)][InPort := PortValue(second)] == m[InPort := PortValue(second)];
    }
  }

  /** The code as written and the corrected one agree except on a 1.5+ builder that already has a match. */
  lemma SetInPortAsWrittenAgrees(pob: PacketOut, port: Port)
    requires PacketOutHasInlineInPort(pob.version) || pob.headerMatch.None?
    ensures SetInPortAsWritten(pob, port) == SetInPort(pob, port)
  {
  }

  /**
   On a 1.5+ builder that already has a match, the code as written leaves
   whatever ingress port the builder had: the new port never arrives.
   */
  lemma SetInPortAsWrittenKeepsOldPort(pob: PacketOut, port: Port)
    requires !PacketOutHasInlineInPort(pob.version) && pob.headerMatch.Some?
    ensures PacketOutInPort(SetInPortAsWritten(pob, port)) == PacketOutInPort(pob)
  {
  }

  /**
   Counterexample: an OpenFlow 1.5 builder whose match holds only a VLAN
   entry; after setting port 3 as written its ingress port still reads absent.
   */
  lemma SetInPortAsWrittenDropsPort()
    ensures var pob := PacketOut(0, OF15, NoBuffer, None, Some(map[VlanVid := VlanValue(5)]), [], None);
      && PacketOutInPort(SetInPortAsWritten(pob, 3)) == None
      && PacketOutInPort(SetInPort(pob, 3)) == Some(3)
  {
    var pob := PacketOut(0, OF15, NoBuffer, None, Some(map[VlanVid := VlanValue(5)]), [], None);
    SetInPortAsWrittenKeepsOldPort(pob, 3);
  }

  /*************************************************************************
   * WritePacketOutForPacketIn, as written and corrected
   *************************************************************************/

  /** Below OpenFlow 1.5 the code as written already sends what the corrected synthesis sends. */
  lemma WritePacketOutAgreesBelowOF15(sw: Switch, pi: PacketIn, egressPort: Port)
    requires PacketOutHasInlineInPort(sw.factory.version)
    ensures WritePacketOutForPacketIn(sw, pi, egressPort)
      == WritePacketOutForPacketInCorrected(sw, pi, egressPort)
  {
  }

  /**
   For an OpenFlow 1.5 switch the reply as written has no match, so the
   ingress port cannot be read back where version 1.5 keeps it.
   */
  lemma WritePacketOutForOF15LosesPort(sw: Switch, pi: PacketIn, egressPort: Port)
    requires sw.factory.version == OF15
    ensures LastPacketOut(WritePacketOutForPacketIn(sw, pi, egressPort)).Some?
    ensures PacketOutInPort(LastPacketOut(WritePacketOutForPacketIn(sw, pi, egressPort)).value) == None
  {
  }

  /**
   Counterexample: an OpenFlow 1.5 packet-in from port 7, answered on the
   OpenFlow 1.5 switch that sent it; the reply's ingress port reads absent as written
   and reads 7 once corrected.
   */
  lemma WritePacketOutForOF15Example()
    ensures var sw := Switch(Factory(OF15, 1), []);
      var pi := PacketIn(9, OF15, NoBuffer, None, Some(map[InPort := PortValue(7)]), []);
      && GetInPort(pi) == Some(7)
      && PacketOutInPort(WritePacketOutForPacketIn(sw, pi, 2).written[0].po) == None
      && PacketOutInPort(WritePacketOutForPacketInCorrected(sw, pi, 2).written[0].po) == Some(7)
  {
  }

  /** Replies to one packet-in on one egress port differ at most in the xid the factory stamps. */
  lemma RepliesEqualIgnoringXid(sw1: Switch, sw2: Switch, pi: PacketIn, egressPort: Port)
    requires sw1.factory.version == sw2.factory.version
    ensures EqualsIgnoreXid(
      WritePacketOutForPacketIn(sw1, pi, egressPort).written[|sw1.written|],
      WritePacketOutForPacketIn(sw2, pi, egressPort).written[|sw2.written|])
  {
  }

  /** The reply to an unbuffered packet-in carries the payload, and only then. */
  lemma ReplyCarriesPayloadIffUnbuffered(sw: Switch, pi: PacketIn, egressPort: Port)
    ensures var po := LastPacketOut(WritePacketOutForPacketIn(sw, pi, egressPort));
      && po.Some?
      && (po.value.data.Some? <==> pi.bufferId == NoBuffer)
      && (po.value.data.Some? ==> po.value.data.value == pi.data)
  {
  }
}
