# OpenFlow message utilities, modelled in Dafny

This project models Floodlight's `OFMessageUtils`. The class is a small compatibility layer over the OpenFlow
protocol revisions. It does the following:

- It reads the ingress port of a packet-in. OpenFlow 1.0 and 1.1 keep it in the `in_port` field. From 1.2 on it is
  the `IN_PORT` entry of the packet-in's match.
- It places the ingress port in a packet-out builder. Versions 1.0 to 1.4 use the `in_port` field. Version 1.5
  uses the match.
- It reads the VLAN of a packet-in from the `VLAN_VID` match entry. When the entry is absent it returns the
  `UNTAGGED` sentinel.
- It compares two messages while ignoring the transaction id (xid).
- It builds and writes the packet-out that answers a packet-in on a chosen egress port.

Modules:

- `OFTypes` (`of_types.dfy`) holds the values. This covers the ordered `Version` enum, Java's `compareTo` as the
  ordinal difference, a version-by-version capability table for where each message keeps the ingress port, and
  32/16/8-bit integer newtypes. It also holds the sentinels `NoBuffer` (0xffffffff), `NoTruncation` (0xffffffff)
  and `Untagged` (VLAN_VID value 0). Matches are maps from field to well-typed value. Packet-in, packet-out and
  message are records.
- `OFMessageUtils` (`of_message_utils.dfy`) holds the operations. A packet-out builder is the immutable
  packet-out value built so far. The switch is a value holding its message factory and the list of messages
  written to it. `sw.getOFFactory()` is modelled as supplying a version and the xid it stamps. `sw.write` appends
  to the list.
- `OFMessageUtilsProperties` (`of_message_utils_properties.dfy`) holds the lemmas.

Each version dispatch in a body is the source's one-sided comparison (`compareTo(threshold) < 0`), so any version
after the known ones falls into the match branch. Each contract is stated against the capability table instead.
As a result, every contract also checks the threshold against the protocol's revision history.

A Java `null` from a match lookup becomes `None`, and so does a packet-in that has no match at all. `GetInPort`
returns `None` for a 1.2+ packet-in whose match has no `IN_PORT`; it is never defaulted.

## Model

| member | source | states |
|---|---|---|
| `OFMessageUtils.GetInPort` | src/main/java/net/floodlightcontroller/util/OFMessageUtils.java:47-49 | For OpenFlow 1.0/1.1 the result is the packet-in's in_port field. For every later version the result is present exactly when the match has an IN_PORT entry, and it then equals that entry. |
| `OFMessageUtils.GetVlan` | src/main/java/net/floodlightcontroller/util/OFMessageUtils.java:80-82 | With a match present: `Untagged` when VLAN_VID is absent, otherwise exactly the stored VLAN_VID value. None only when there is no match to read. |
| `OFMessageUtils.SetInPortAsWritten` | src/main/java/net/floodlightcontroller/util/OFMessageUtils.java:60-73 | Below 1.5 only the in_port field is set. From 1.5 on, a builder without a match gets a match whose only entry is IN_PORT ↦ port. A builder that already has a match comes back completely unchanged. |
| `OFMessageUtils.SetInPort` | src/main/java/net/floodlightcontroller/util/OFMessageUtils.java:51-73 | Corrected to follow the doc comment. Reading the port back where the version keeps it gives the port just set. xid, version, buffer id, actions and data are unchanged. The in_port field or the match, whichever the version does not use, is unchanged. Every match entry other than IN_PORT is preserved. |
| `OFMessageUtils.EqualsIgnoreXid` | src/main/java/net/floodlightcontroller/util/OFMessageUtils.java:97-100 | Comparing `a` with `b` restamped with `a`'s xid is true exactly when both are the same variant and agree on every field except the xid (field-by-field reference definition). |
| `OFMessageUtils.SeqEquals` | src/main/java/net/floodlightcontroller/util/OFMessageUtils.java:99 | Models library code reached by the `equals` call at line 99, not code of this class: the element-by-element comparison of action lists and payload bytes is true exactly when the sequences are equal. |
| `OFMessageUtils.CompareIgnoringXid` | src/main/java/net/floodlightcontroller/util/OFMessageUtils.java:84-100 | Models the library's generated `equals` that line 99 calls, not code of this class. The deep comparison goes field by field, with actions and payload compared element by element. It returns exactly `EqualsIgnoreXid(a, b)`. |
| `OFMessageUtils.BuildPacketOut` | src/main/java/net/floodlightcontroller/util/OFMessageUtils.java:115 | A fresh builder has the factory's version and xid, and no ingress port, match, actions or data. |
| `OFMessageUtils.Write` | src/main/java/net/floodlightcontroller/util/OFMessageUtils.java:136 | Writing appends exactly the given message. Earlier messages and the factory are unchanged. |
| `OFMessageUtils.WritePacketOutForPacketIn` | src/main/java/net/floodlightcontroller/util/OFMessageUtils.java:112-137 | Exactly one message is appended and it is a packet-out. It has the switch's version and xid and the packet-in's buffer id. Its in_port field equals `GetInPort(pi)` for every outbound version, and it has no match. On a 1.5 switch the in_port slot is one a 1.5 packet-out does not have (see Left out). Its actions are exactly `[Output(egressPort, 0xffffffff)]`. Its data is the packet-in's payload when the buffer id is NO_BUFFER, and is absent otherwise. |
| `OFMessageUtils.WritePacketOutForPacketInCorrected` | src/main/java/net/floodlightcontroller/util/OFMessageUtils.java:112-137 | Has the same reply fields. Reading the reply's ingress port back where the switch's version keeps it gives `GetInPort(pi)`. The slot the version does not use stays empty: no match below 1.5, no in_port field in 1.5. On a 1.5 switch the match holds IN_PORT and nothing else, and a packet-in without a port gets a reply without a match. |
| `OFMessageUtilsProperties.ThresholdsMatchCapabilities` | src/main/java/net/floodlightcontroller/util/OFMessageUtils.java:38-61 | `compareTo(OF_12) < 0` holds exactly for 1.0 and 1.1. `compareTo(OF_15) < 0` holds exactly for 1.0 to 1.4. |
| `OFMessageUtilsProperties.MatchBranchIsUpwardClosed` | src/main/java/net/floodlightcontroller/util/OFMessageUtils.java:61 | Once a version takes the match branch, every later version does too. |
| `OFMessageUtilsProperties.GetInPortIgnoresMatchBelowOF12` | src/main/java/net/floodlightcontroller/util/OFMessageUtils.java:48 | Below 1.2, replacing the match by any other leaves the result equal to the in_port field. |
| `OFMessageUtilsProperties.GetInPortIgnoresInlineFromOF12` | src/main/java/net/floodlightcontroller/util/OFMessageUtils.java:48 | From 1.2 on, the in_port field has no influence; the result is the match's IN_PORT entry. |
| `OFMessageUtilsProperties.GetInPortOfWellFormed` | src/main/java/net/floodlightcontroller/util/OFMessageUtils.java:38-48 | A packet-in with the port where its version keeps it always yields a port. |
| `OFMessageUtilsProperties.GetInPortRoundTrip` | src/main/java/net/floodlightcontroller/util/OFMessageUtils.java:38-48 | For every version, a packet-in made for a port gives back exactly that port. |
| `OFMessageUtilsProperties.GetInPortAbsentStaysAbsent` | src/main/java/net/floodlightcontroller/util/OFMessageUtils.java:48 | A 1.2+ match without IN_PORT yields None, not a default port. |
| `OFMessageUtilsProperties.GetVlanUntaggedIff` | src/main/java/net/floodlightcontroller/util/OFMessageUtils.java:81 | The result is `Untagged` exactly when VLAN_VID is absent or stores `Untagged` itself. |
| `OFMessageUtilsProperties.EqualsIgnoreXidReflexive` | src/main/java/net/floodlightcontroller/util/OFMessageUtils.java:97-100 | Every message equals itself ignoring xid. |
| `OFMessageUtilsProperties.EqualsIgnoreXidSymmetric` | src/main/java/net/floodlightcontroller/util/OFMessageUtils.java:97-100 | The comparison gives the same answer with its arguments swapped. |
| `OFMessageUtilsProperties.EqualsIgnoreXidTransitive` | src/main/java/net/floodlightcontroller/util/OFMessageUtils.java:97-100 | The comparison is transitive. |
| `OFMessageUtilsProperties.EqualsIgnoreXidXidInsensitive` | src/main/java/net/floodlightcontroller/util/OFMessageUtils.java:97-100 | Restamping either message with any xid never changes the verdict. |
| `OFMessageUtilsProperties.EqualsIgnoreXidOnXidChange` | src/main/java/net/floodlightcontroller/util/OFMessageUtils.java:84-100 | Messages that differ only in xid compare equal. |
| `OFMessageUtilsProperties.EqualsIgnoreXidSameXid` | src/main/java/net/floodlightcontroller/util/OFMessageUtils.java:84-100 | With equal xids the comparison is plain equality, so any difference outside the xid makes it false. |
| `OFMessageUtilsProperties.SetInPortLastWriteWins` | src/main/java/net/floodlightcontroller/util/OFMessageUtils.java:51-73 | After a corrected set of one port and then another, the builder is exactly as if only the second had been set. |
| `OFMessageUtilsProperties.SetInPortAsWrittenAgrees` | src/main/java/net/floodlightcontroller/util/OFMessageUtils.java:60-73 | The code as written equals the corrected one below 1.5, and also on a builder without a match. |
| `OFMessageUtilsProperties.SetInPortAsWrittenKeepsOldPort` | src/main/java/net/floodlightcontroller/util/OFMessageUtils.java:63-66 | On a 1.5+ builder with a match, the readable ingress port after the call is whatever it was before. |
| `OFMessageUtilsProperties.SetInPortAsWrittenDropsPort` | src/main/java/net/floodlightcontroller/util/OFMessageUtils.java:51-66 | Example: for a 1.5 builder whose match holds only VLAN_VID 5, setting port 3 as written leaves no ingress port. The corrected version gives 3. |
| `OFMessageUtilsProperties.WritePacketOutAgreesBelowOF15` | src/main/java/net/floodlightcontroller/util/OFMessageUtils.java:117-121 | For switches below 1.5 the written reply is identical to the corrected one. |
| `OFMessageUtilsProperties.WritePacketOutForOF15LosesPort` | src/main/java/net/floodlightcontroller/util/OFMessageUtils.java:119-121 | For a 1.5 switch the reply as written has no readable ingress port, whatever the packet-in. |
| `OFMessageUtilsProperties.WritePacketOutForOF15Example` | src/main/java/net/floodlightcontroller/util/OFMessageUtils.java:112-137 | Example: a 1.5 packet-in from port 7 answered on the 1.5 switch that sent it. The reply reads no port as written, and port 7 once corrected. |
| `OFMessageUtilsProperties.RepliesEqualIgnoringXid` | src/main/java/net/floodlightcontroller/util/OFMessageUtils.java:112-137 | Replies to the same packet-in and port from switches of the same version are equal ignoring xid. |
| `OFMessageUtilsProperties.ReplyCarriesPayloadIffUnbuffered` | src/main/java/net/floodlightcontroller/util/OFMessageUtils.java:129-133 | The reply carries data exactly when the buffer id is NO_BUFFER, and the data is then the packet-in's payload. |

## Left out

- Wire encoding and decoding, and the field and action classes of the OpenFlow library, are not modelled. Messages, matches and actions are abstract values.
- Only the message fields the utilities touch are modelled. Other packet-in fields (total length, reason, table id, cookie) are left out. The equality results are over the modelled fields.
- What the OpenFlow library does when asked for a property its version lacks is not modelled, and neither is its null checks at `build()`. An absent port or VLAN is carried as `None`. This covers the in_port field of a 1.2+ packet-in, the match of a 1.0 packet-in, and a packet-out whose in_port was set to null.
- The switch connection, its queueing and socket I/O are left out. `sw.write` is only an append to the list of written messages. `sw.getOFFactory()` is only the version and xid it stamps on messages; how the factory generates xids is not modelled.
- `NoBuffer` is compared by value. Java's `==` on `OFBufferId` at line 130 compares references.
- The max_len `0xffffffff` is kept as a 32-bit value. Its truncation to the 16-bit max_len field on the wire (in every OpenFlow version) is not modelled.
- `OFMessageUtils.WritePacketOutForPacketIn`: on a 1.5 switch the model stores the ingress port in an in_port slot that a 1.5 packet-out lacks. How the Java builder reacts to `setInPort` on a 1.5 packet-out is not modelled, including whether anything is written at all.
- `OFMessageUtils.SeqEquals` and `OFMessageUtils.CompareIgnoringXid` model the element-by-element comparison inside the message library's generated `equals`, which line 99 calls; that code is not part of this class.
- Java `equals` for message classes other than packet-in and packet-out is not modelled. Dafny structural equality stands in for `equals`.
- The cost and allocation of `equalsIgnoreXid` are not modelled. The class has no concurrency.

## Findings

| source | as written | input that shows it | evidently intended | confidence | as-written member | corrected member |
|---|---|---|---|---|---|---|
| src/main/java/net/floodlightcontroller/util/OFMessageUtils.java:63-66 | On a 1.5+ builder that already has a match, the match with IN_PORT set is built and then dropped. | A 1.5 builder whose match is {VLAN_VID ↦ 5}, port 3: the match is unchanged and carries no IN_PORT. | Put the derived match back on the builder, as the doc comment at lines 51-55 describes. | high; not executed | `OFMessageUtils.SetInPortAsWritten` (`OFMessageUtilsProperties.SetInPortAsWrittenDropsPort`) | `OFMessageUtils.SetInPort` |
| src/main/java/net/floodlightcontroller/util/OFMessageUtils.java:119-121 | Line 119 calls the builder's in_port setter for every switch version, with no OF_15 dispatch. Per lines 51-55, a 1.5 packet-out keeps the port in its match. | A 1.5 switch answering a 1.5 packet-in whose match holds IN_PORT 7: the port is never placed in the reply's match. | Place the port with the same version dispatch as `setInPort`. | medium (what the message library itself does with in_port on a 1.5 builder is not part of this model); not executed | `OFMessageUtils.WritePacketOutForPacketIn` (`OFMessageUtilsProperties.WritePacketOutForOF15Example`) | `OFMessageUtils.WritePacketOutForPacketInCorrected` |
