/**
 The OpenFlow message utilities: version-dependent access to the ingress port
 and VLAN of a packet-in, placement of the ingress port in a packet-out,
 comparison of messages ignoring the transaction id, and the synthesis of a
 packet-out replying to a packet-in.

 Each version dispatch in the bodies is the source's one-sided comparison
 (`CompareTo(v, threshold) < 0`); each contract is stated against the
 version-by-version capability tables of OFTypes, so the two are checked
 against each other.
 */
module OFMessageUtils {
  import opened OFTypes

  /*************************************************************************
   * Ingress port and VLAN of a packet-in
   *************************************************************************/

  /**
   The ingress port of a packet-in: the in_port field below OpenFlow 1.2, the
   IN_PORT entry of the match from 1.2 on. An absent entry (or a missing
   match) is returned as None, never defaulted.
   */
  function GetInPort(pi: PacketIn): (r: Option<Port>)
    ensures PacketInHasInlineInPort(pi.version) ==> r == pi.inPort
    ensures !PacketInHasInlineInPort(pi.version) ==>
      (r.Some? <==> pi.headerMatch.Some? && InPort in pi.headerMatch.value)
    ensures !PacketInHasInlineInPort(pi.version) && r.Some? ==>
      pi.headerMatch.value[InPort] == PortValue(r.value)
  {
    if CompareTo(pi.version, OF12) < 0 then pi.inPort else MatchInPort(pi.headerMatch)
  }

  /**
   The VLAN a packet-in arrived on: the VLAN_VID entry of its match, or the
   Untagged sentinel when the match has no such entry. None when the
   packet-in has no match at all to look in.
   */
  function GetVlan(pi: PacketIn): (r: Option<VlanVidMatch>)
    ensures r.Some? <==> pi.headerMatch.Some?
    ensures pi.headerMatch.Some? && VlanVid !in pi.headerMatch.value ==> r == Some(Untagged)
    ensures pi.headerMatch.Some? && VlanVid in pi.headerMatch.value ==>
      pi.headerMatch.value[VlanVid] == VlanValue(r.value)
  {
    match pi.headerMatch
    case None => None
    case Some(m) =>
      if FieldOf(pi.headerMatch, VlanVid) == None then Some(Untagged) else Some(m[VlanVid].vid)
  }

  /*************************************************************************
   * Ingress port of a packet-out
   *************************************************************************/

  /**
   Where a packet-out of the given version keeps its ingress port, read back:
   the in_port field up to OpenFlow 1.4, the IN_PORT entry of the match in 1.5.
   */
  function PacketOutInPort(po: PacketOut): Option<Port>
  {
    if PacketOutHasInlineInPort(po.version) then po.inPort else MatchInPort(po.headerMatch)
  }

  /**
   `setInPort` as written: below OpenFlow 1.5 it sets the in_port field; from
   1.5 on, a builder without a match gets a match holding only IN_PORT, but on
   a builder that already has a match the updated match is built and then
   dropped, so the builder comes back unchanged.
   */
  function SetInPortAsWritten(pob: PacketOut, port: Port): (r: PacketOut)
    ensures PacketOutHasInlineInPort(pob.version) ==> r == pob.(inPort := Some(port))
    ensures !PacketOutHasInlineInPort(pob.version) && pob.headerMatch.Some? ==> r == pob
    ensures !PacketOutHasInlineInPort(pob.version) && pob.headerMatch.None? ==>
      r == pob.(headerMatch := Some(map[InPort := PortValue(port)]))
  {
    if CompareTo(pob.version, OF15) < 0 then
      pob.(inPort := Some(port))
    else if pob.headerMatch.Some? then
      var discarded: Match := pob.headerMatch.value[InPort := PortValue(port)];
      pob
    else
      pob.(headerMatch := Some(map[InPort := PortValue(port)]))
  }

  /**
   `setInPort` as its documentation describes it: the derived match is put
   back on the builder. Reading the port back where the version keeps it
   yields the port just set, and nothing else in the builder changes.
   */
  function SetInPort(pob: PacketOut, port: Port): (r: PacketOut)
    ensures PacketOutInPort(r) == Some(port)
    ensures r.xid == pob.xid && r.version == pob.version && r.bufferId == pob.bufferId
    ensures r.actions == pob.actions && r.data == pob.data
    ensures PacketOutHasInlineInPort(pob.version) ==> r.headerMatch == pob.headerMatch
    ensures !PacketOutHasInlineInPort(pob.version) ==> r.inPort == pob.inPort
    ensures forall f :: f != InPort ==> FieldOf(r.headerMatch, f) == FieldOf(pob.headerMatch, f)
  {
    if CompareTo(pob.version, OF15) < 0 then
      pob.(inPort := Some(port))
    else if pob.headerMatch.Some? then
      pob.(headerMatch := Some(pob.headerMatch.value[InPort := PortValue(port)]))
    else
      pob.(headerMatch := Some(map[InPort := PortValue(port)]))
  }

  /*************************************************************************
   * Equality ignoring the transaction id
   *************************************************************************/

  /**
   Reference definition: the two messages are the same variant and agree on
   every field except the transaction id.
   */
  predicate SameExceptXid(a: Message, b: Message)
  {
    match (a, b)
    case (PacketInMsg(x), PacketInMsg(y)) =>
      && x.version == y.version
      && x.bufferId == y.bufferId
      && x.inPort == y.inPort
      && x.headerMatch == y.headerMatch
      && x.data == y.data
    case (PacketOutMsg(x), PacketOutMsg(y)) =>
      && x.version == y.version
      && x.bufferId == y.bufferId
      && x.inPort == y.inPort
      && x.headerMatch == y.headerMatch
      && x.actions == y.actions
      && x.data == y.data
    case _ => false
  }

  /**
   `equalsIgnoreXid`: compare `a` with a copy of `b` stamped with `a`'s
   transaction id. True exactly when every field but the transaction id agrees.
   */
  function EqualsIgnoreXid(a: Message, b: Message): (r: bool)
    ensures r <==> SameExceptXid(a, b)
  {
    a == WithXid(b, XidOf(a))
  }

  /**
   Element-by-element comparison, as `List.equals` and `Arrays.equals` do it
   inside the message library's generated `equals` (library code, not code of
   the utilities themselves).
   */
  method SeqEquals<T(==)>(s: seq<T>, t: seq<T>) returns (eq: bool)
    ensures eq <==> s == t
  {
    if |s| != |t| {
      return false;
    }
    var i := 0;
    while i < |s|
      invariant 0 <= i <= |s|
      invariant forall k :: 0 <= k < i ==> s[k] == t[k]
    {
      if s[i] != t[i] {
        return false;
      }
      i := i + 1;
    }
    assert s == t;
    return true;
  }

  /**
   The deep, field-by-field comparison that the message library's generated
   `equals` performs on `a` and the xid-stamped copy of `b`, with the action
   list and payload compared element by element. It is a second formulation of
   EqualsIgnoreXid, which uses Dafny's structural equality.
   */
  method CompareIgnoringXid(a: Message, b: Message) returns (eq: bool)
    ensures eq == EqualsIgnoreXid(a, b)
  {
    match (a, b)
    case (PacketInMsg(x), PacketInMsg(y)) =>
      if x.version != y.version || x.bufferId != y.bufferId || x.inPort != y.inPort
        || x.headerMatch != y.headerMatch {
        return false;
      }
      eq := SeqEquals(x.data, y.data);
    case (PacketOutMsg(x), PacketOutMsg(y)) =>
      if x.version != y.version || x.bufferId != y.bufferId || x.inPort != y.inPort
        || x.headerMatch != y.headerMatch {
        return false;
      }
      eq := SeqEquals(x.actions, y.actions);
      if !eq {
        return;
      }
      match (x.data, y.data) {
        case (None, None) =>
          eq := true;
        case (Some(dx), Some(dy)) =>
          eq := SeqEquals(dx, dy);
        case _ =>
          eq := false;
      }
    case _ =>
      eq := false;
  }

  /*************************************************************************
   * Packet-out synthesis
   *************************************************************************/

  /** The switch's message factory: the version it speaks and the xid it stamps on what it builds. */
  datatype Factory = Factory(version: Version, xid: Xid)

  /** A switch as far as the utilities see it: its factory and the messages written to it so far. */
  datatype Switch = Switch(factory: Factory, written: seq<Message>)

  /** A fresh packet-out builder from the factory. */
  function BuildPacketOut(f: Factory): (r: PacketOut)
    ensures r.version == f.version && r.xid == f.xid
    ensures r.inPort.None? && r.headerMatch.None? && r.actions == [] && r.data.None?
  {
    PacketOut(f.xid, f.version, NoBuffer, None, None, [], None)
  }

  /** `sw.write(m)`: the message is appended to what the switch has been sent. */
  function Write(sw: Switch, m: Message): (r: Switch)
    ensures r.factory == sw.factory
    ensures |r.written| == |sw.written| + 1
    ensures r.written[..|sw.written|] == sw.written
    ensures r.written[|sw.written|] == m
  {
    sw.(written := sw.written + [m])
  }

  /** The packet-out last written to a switch, if the last message written is one. */
  function LastPacketOut(sw: Switch): Option<PacketOut>
  {
    if |sw.written| > 0 && sw.written[|sw.written| - 1].PacketOutMsg? then
      Some(sw.written[|sw.written| - 1].po)
    else
      None
  }

  /**
   The fields every reply carries whatever the version: the factory's
   version and xid, the packet-in's buffer id, one Output action to the
   egress port with no truncation, and the payload exactly when the packet is
   not buffered.
   */
  predicate ReplyFields(po: PacketOut, f: Factory, pi: PacketIn, egressPort: Port)
  {
    && po.version == f.version
    && po.xid == f.xid
    && po.bufferId == pi.bufferId
    && po.actions == [Output(egressPort, NoTruncation)]
    && (pi.bufferId == NoBuffer ==> po.data == Some(pi.data))
    && (pi.bufferId != NoBuffer ==> po.data.None?)
  }

  /**
   `writePacketOutForPacketIn` as written: one packet-out is built and written.
   The ingress port is copied with the packet-in's version dispatch, duplicated
   inline, and always set in the in_port field, whatever the switch's version.
   */
  function WritePacketOutForPacketIn(sw: Switch, pi: PacketIn, egressPort: Port): (r: Switch)
    ensures r.factory == sw.factory
    ensures |r.written| == |sw.written| + 1
    ensures r.written[..|sw.written|] == sw.written
    ensures r.written[|sw.written|].PacketOutMsg?
    ensures ReplyFields(r.written[|sw.written|].po, sw.factory, pi, egressPort)
    ensures r.written[|sw.written|].po.inPort == GetInPort(pi)
    ensures r.written[|sw.written|].po.headerMatch.None?
  {
    var pob := BuildPacketOut(sw.factory);
    var pob := pob.(bufferId := pi.bufferId);
    var pob := pob.(inPort :=
      if CompareTo(pi.version, OF12) < 0 then pi.inPort else MatchInPort(pi.headerMatch));
    var pob := pob.(actions := [Output(egressPort, 0xffff_ffff)]);
    var pob := if pi.bufferId == NoBuffer then pob.(data := Some(pi.data)) else pob;
    Write(sw, PacketOutMsg(pob))
  }

  /**
   `writePacketOutForPacketIn` with the ingress port placed through
   `SetInPort`, so that it lands where the switch's version keeps it: reading
   the reply's ingress port back gives the packet-in's ingress port.
   */
  function WritePacketOutForPacketInCorrected(sw: Switch, pi: PacketIn, egressPort: Port): (r: Switch)
    ensures r.factory == sw.factory
    ensures |r.written| == |sw.written| + 1
    ensures r.written[..|sw.written|] == sw.written
    ensures r.written[|sw.written|].PacketOutMsg?
    ensures ReplyFields(r.written[|sw.written|].po, sw.factory, pi, egressPort)
    ensures PacketOutInPort(r.written[|sw.written|].po) == GetInPort(pi)
    ensures PacketOutHasInlineInPort(sw.factory.version) ==> r.written[|sw.written|].po.headerMatch.None?
    ensures !PacketOutHasInlineInPort(sw.factory.version) ==> r.written[|sw.written|].po.inPort.None?
    ensures !PacketOutHasInlineInPort(sw.factory.version) ==>
      forall f :: f != InPort ==> FieldOf(r.written[|sw.written|].po.headerMatch, f) == None
    ensures GetInPort(pi).None? ==> r.written[|sw.written|].po.headerMatch.None?
  {
    var pob := BuildPacketOut(sw.factory);
    var pob := pob.(bufferId := pi.bufferId);
    var pob := match GetInPort(pi)
      case Some(port) => SetInPort(pob, port)
      case None => pob;
    var pob := pob.(actions := [Output(egressPort, NoTruncation)]);
    var pob := if pi.bufferId == NoBuffer then pob.(data := Some(pi.data)) else pob;
    Write(sw, PacketOutMsg(pob))
  }
}
