# IceDtlsTransportManager: decision logic of the ICE/DTLS transport manager

This project models the decision logic of the jitsi-videobridge transport
manager `IceDtlsTransportManager`. The manager runs ICE connectivity for one
UDP socket, then a DTLS handshake over that socket. It classifies datagrams
so that DTLS traffic can share the port with other traffic.

The model covers five parts:

- **First-byte classification** (`packets.dfy`). A datagram goes to the DTLS
  path when its first byte, read as unsigned (`& 0xFF` on the Java `byte`),
  lies in 20..63. This is the DTLS range of section 7 of RFC 7983, which
  updates section 5.1.2 of RFC 5764. An empty buffer makes the read of byte 0
  throw.
- **Pipeline shape** (`chains.dfy`, and `OnIceConnected` in `manager.dfy`).
  The incoming chain is one demuxer with one DTLS path whose sub-chain is
  `[DtlsReceiver]`. The outgoing chain is a muxer fed by the DTLS sender,
  followed by the socket writer once connected. Pipeline modules are opaque
  structural values.
- **Remote-parameter ingestion** (`remote.dfy`, and
  `StartConnectivityEstablishment`). The remote fingerprint extensions are
  folded into a hash-name → fingerprint map. The remote ufrag and password
  are each set only when non-null.
- **Local description** (`local.dfy`, and `Describe`). One candidate
  extension per local candidate comes first, then rtcp-mux. Last comes
  find-or-create of the fingerprint extension, with setup "ACTPASS".
- **ICE state-change dispatch** (`dispatch.dfy`, and `IceAgentStateChange`).
  Connection setup runs on every notification whose new state is
  established.

Other modules: stand-ins for the ice4j types (`ice.dfy`: transports,
candidates, components, media stream, agent), stand-ins for the Jingle
extensions (`jingle.dfy`), and `Option`/`Result` (`common.dfy`). A Java
`null` is `None`.

Stated as assumptions, because the code is not part of this model:

- ice4j's `IceProcessingState.isEstablished()` holds for Completed and
  Terminated.
- `Transport.toString()` gives the lower-case protocol names ("udp", "tcp",
  "ssltcp", ...).
- `addChildExtension` appends.
- `getFirstChildOfType` returns the first child of that type.
- `getChildExtensionsOfType` filters the children in order.
- The demuxer sends a packet to the first path whose predicate holds and
  drops a packet that matches no path (`SelectPath`).
- A local candidate's parent component is the component that lists it, and
  its agent is the manager's agent. So `DescribeCandidateInto` takes the
  component ID from the component being iterated and the generation from
  the manager's agent.
- `setRemoteFingerprints` replaces the DTLS stack's remote fingerprint map
  with the one given.

Three behaviours of the code are worth stating outright:

- Setup runs on every established notification, not only the first one
  (see Findings).
- The helper-built outgoing chain has no socket writer; only `onIceConnected`
  appends one.
- The remote fingerprints and credentials are stored without any validation.

## Model

| member | source | states |
|---|---|---|
| Packets.MaskLowByte | src/main/java/org/jitsi/videobridge/IceDtlsTransportManager.java:168 | `b & 0xFF` reads a Java byte as unsigned. The result is in 0..255: the byte itself when non-negative, the byte plus 256 when negative. |
| Packets.IsDtlsPacket | src/main/java/org/jitsi/videobridge/IceDtlsTransportManager.java:167-170 | The DTLS predicate, used by the incoming demuxer (lines 202-205). It errors exactly on an empty packet. Otherwise it holds exactly when the first byte, read as a signed Java byte, is in 20..63, so negative bytes fail. `DtlsBySignedValue` and `DtlsByUnsignedValue` restate this as whole-result equations. |
| Packets.DtlsBySignedValue | src/main/java/org/jitsi/videobridge/IceDtlsTransportManager.java:167-170 | Classification fails exactly on an empty buffer. Otherwise it is true exactly when the signed value of byte 0 is in 20..63, so the mask never changes the answer. |
| Packets.DtlsByUnsignedValue | src/main/java/org/jitsi/videobridge/IceDtlsTransportManager.java:202-205 | For every unsigned first-byte value u in 0..255, the packet is DTLS exactly when 20 <= u <= 63, whatever follows. |
| Packets.NegativeFirstByteNotDtls | src/main/java/org/jitsi/videobridge/IceDtlsTransportManager.java:168-169 | A first byte that is negative as a Java byte (128..255 unsigned) never goes to the DTLS path. |
| Packets.DtlsDependsOnFirstByteOnly | src/main/java/org/jitsi/videobridge/IceDtlsTransportManager.java:168 | Two non-empty packets with the same first byte are classified alike. |
| Chains.CreateIncomingModuleChain | src/main/java/org/jitsi/videobridge/IceDtlsTransportManager.java:161-179 | The helper's incoming chain is exactly one demuxer with exactly one path. That path has the sub-chain `[DtlsReceiver]`; its predicate is the DTLS range, the only one the path type has. |
| Chains.CreateOutgoingModuleChain | src/main/java/org/jitsi/videobridge/IceDtlsTransportManager.java:181-190 | The helper's outgoing chain is exactly one muxer whose sole input is the DTLS sender. |
| Chains.ShapesDetermineChains | src/main/java/org/jitsi/videobridge/IceDtlsTransportManager.java:197-222 | Each shape fixes every module. So the chains built in `onIceConnected` and by the helpers have the same structure. |
| Chains.OutgoingExtendsHelper | src/main/java/org/jitsi/videobridge/IceDtlsTransportManager.java:216-244 | A chain has the connected outgoing shape exactly when it is the helper's chain with the socket writer appended: `[Muxer(DtlsSender), SocketWriter]`, in that order. |
| Chains.SelectPath | src/main/java/org/jitsi/videobridge/IceDtlsTransportManager.java:199-212 | The demuxer's choice, first match wins. A chosen sub-chain belongs to a path whose predicate holds while every earlier path's predicate is false. A dropped packet fails every path's predicate. An error comes from a throwing predicate with only false predicates before it. |
| Chains.IncomingRouting | src/main/java/org/jitsi/videobridge/IceDtlsTransportManager.java:161-179 | On the incoming shape, a packet reaches `[DtlsReceiver]` exactly when its unsigned first byte is in 20..63. Any other packet is dropped. An empty packet is an error. |
| Jingle.FingerprintsOf | src/main/java/org/jitsi/videobridge/IceDtlsTransportManager.java:71-73 | The fingerprint extensions among the children are exactly the fingerprint children. |
| Jingle.FingerprintsOfInOrder | src/main/java/org/jitsi/videobridge/IceDtlsTransportManager.java:71-73 | The list is in child order with repeats kept. Filtering concatenated children gives the concatenated results. A fingerprint child gives itself and any other child gives nothing. |
| Jingle.FirstFingerprintIndex | src/main/java/org/jitsi/videobridge/IceDtlsTransportManager.java:143-145 | The result is the position of the first fingerprint child, or none when no child is a fingerprint. |
| RemoteParameters.FingerprintMap | src/main/java/org/jitsi/videobridge/IceDtlsTransportManager.java:76-80 | The map the `put` loop builds, as a fold over the list. Every key is the hash name of some extension in the list, mapped to that extension's fingerprint. `FingerprintMapKeys` and `FingerprintMapLastWins` give the exact keys and which occurrence wins. |
| RemoteParameters.FingerprintMapKeys | src/main/java/org/jitsi/videobridge/IceDtlsTransportManager.java:76-81 | The remote fingerprint map has a key for each hash name in the list and no other key. |
| RemoteParameters.FingerprintMapLastWins | src/main/java/org/jitsi/videobridge/IceDtlsTransportManager.java:76-81 | For a repeated hash name, the fingerprint of its last occurrence is the one in the map. |
| RemoteParameters.CollectRemoteFingerprints | src/main/java/org/jitsi/videobridge/IceDtlsTransportManager.java:76-80 | The `forEach`/`put` loop yields the fold `FingerprintMap`: keys exactly the hash names, each mapped to the fingerprint of its last occurrence. |
| LocalDescription.DescribeCandidate | src/main/java/org/jitsi/videobridge/IceDtlsTransportManager.java:320-359 | `describe(candidate, pe)` as a value. It has no ensures of its own; `DescribeCandidateRules` states what each field of the extension is. |
| LocalDescription.DescribeCandidateRules | src/main/java/org/jitsi/videobridge/IceDtlsTransportManager.java:316-362 | Protocol is "ssltcp" exactly for SSL-enabled TCP (or SSLTCP), else the transport's name. A TCP type appears only with "tcp"/"ssltcp", where it is the candidate's. ip/port come from the transport address. network is 0. rel-addr/rel-port appear exactly when there is a related address. Other fields are copied. |
| LocalDescription.DescribeCandidatesAt | src/main/java/org/jitsi/videobridge/IceDtlsTransportManager.java:135-137 | For one component's candidate list, the `j`-th extension produced describes the `j`-th local candidate. There is one extension per candidate. |
| LocalDescription.CandidateExtensionsSnoc | src/main/java/org/jitsi/videobridge/IceDtlsTransportManager.java:132-139 | Components are described in stream order: describing one more component appends exactly that component's candidate extensions after those of the components before it. |
| LocalDescription.CandidateExtensionsCounts | src/main/java/org/jitsi/videobridge/IceDtlsTransportManager.java:132-139 | Over all components, there is one candidate extension per local candidate. Components with a null list contribute nothing. No RTCP-mux or fingerprint child is produced. |
| LocalDescription.WithLocalFingerprint | src/main/java/org/jitsi/videobridge/IceDtlsTransportManager.java:142-152 | Find-or-create of the fingerprint extension. The local fingerprint, hash and ACTPASS end up among the children. One child is added exactly when there was no fingerprint child. `DescribedChildrenLayout` gives the exact position. |
| LocalDescription.DescribedChildrenLayout | src/main/java/org/jitsi/videobridge/IceDtlsTransportManager.java:130-152 | `describe(pe)` keeps the old children, then appends the candidate extensions and one rtcp-mux. It reuses the first fingerprint child in place, or appends one when there is none. That child is then the first fingerprint child and holds the local fingerprint, hash and "ACTPASS". |
| LocalDescription.DescribedChildrenCounts | src/main/java/org/jitsi/videobridge/IceDtlsTransportManager.java:132-152 | Candidate children grow by the number of local candidates, and rtcp-mux children by exactly one. Fingerprint children stay as they were, or become one when there were none, so a second fingerprint is never added. |
| IceDispatch.SetupCount | src/main/java/org/jitsi/videobridge/IceDtlsTransportManager.java:287-290 | How many times the handler as written starts setup over a run of notifications. It is at most one per notification. `SetupCountZeroIff` and `SetupCountAtLeastTwo` say when it is zero and when it reaches two. |
| IceDispatch.SetupCountZeroIff | src/main/java/org/jitsi/videobridge/IceDtlsTransportManager.java:287-290 | As written, setup never runs exactly when no notification reports an established new state. |
| IceDispatch.SetupCountAtLeastTwo | src/main/java/org/jitsi/videobridge/IceDtlsTransportManager.java:287-290 | As written, two established notifications run setup at least twice: there is no guard against repeats. |
| IceDispatch.CompletedThenTerminatedSetsUpTwice | src/main/java/org/jitsi/videobridge/IceDtlsTransportManager.java:287-290 | The notifications Running→Completed, then Completed→Terminated, run setup twice. |
| IceDispatch.GuardedSetupRunsOnce | src/main/java/org/jitsi/videobridge/IceDtlsTransportManager.java:287-290 | With a guard on earlier establishment, setup runs exactly once if ICE ever becomes established, and never otherwise. |
| TransportManager.IceDtlsTransportManager.constructor | src/main/java/org/jitsi/videobridge/IceDtlsTransportManager.java:55-63 | A new manager has no pipelines, has run no setup, and keeps its DTLS stack and ICE agent. |
| TransportManager.IceDtlsTransportManager.StartConnectivityEstablishment | src/main/java/org/jitsi/videobridge/IceDtlsTransportManager.java:66-99 | The DTLS stack's remote fingerprints become the fold of the fingerprint children. The ufrag and the password are each replaced only when non-null, independently. A null value leaves the old one. |
| TransportManager.IceDtlsTransportManager.DescribeCandidateInto | src/main/java/org/jitsi/videobridge/IceDtlsTransportManager.java:316-362 | Appends exactly the candidate's extension and leaves the credentials alone. |
| TransportManager.IceDtlsTransportManager.Describe | src/main/java/org/jitsi/videobridge/IceDtlsTransportManager.java:128-153 | Sets the local password and ufrag. The children become `DescribedChildren` of the old ones, over the stream's components and the stack's fingerprint and hash. |
| TransportManager.IceDtlsTransportManager.DescribeComponents | src/main/java/org/jitsi/videobridge/IceDtlsTransportManager.java:132-139 | Appends the candidate extensions of every component, in component order. |
| TransportManager.IceDtlsTransportManager.DescribeComponent | src/main/java/org/jitsi/videobridge/IceDtlsTransportManager.java:133-138 | Appends the extensions of a component's candidates in order, or nothing when its list is null. |
| TransportManager.IceDtlsTransportManager.DescribeDtls | src/main/java/org/jitsi/videobridge/IceDtlsTransportManager.java:142-152 | Find-or-create of the fingerprint child, then setting its fingerprint, hash and setup "ACTPASS". |
| TransportManager.IceDtlsTransportManager.OnIceConnected | src/main/java/org/jitsi/videobridge/IceDtlsTransportManager.java:192-244 | Assigns both pipeline fields. The incoming chain has the incoming shape, and the outgoing chain is `[Muxer(DtlsSender), SocketWriter]`. |
| TransportManager.IceDtlsTransportManager.IceAgentStateChange | src/main/java/org/jitsi/videobridge/IceDtlsTransportManager.java:278-291 | Setup runs exactly when the new state is established, on every such notification. The pipelines are untouched otherwise. The invariant is kept: setups equal `SetupCount` of all notifications, and pipelines exist with their shapes once setup ran. |

## Left out

- The socket reader thread and the socket-writer module's I/O (lines 225-258): UDP I/O, unbounded loops and swallowed `IOException`s. The writer appears only as the `SocketWriter` module in the outgoing chain. The reader reuses one 1500-byte receive buffer for every datagram without copying (lines 228, 234), so a slow module could see a later datagram's bytes. The model treats packets as values and does not capture this aliasing.
- If a zero-length datagram arrives, reading byte 0 throws `IndexOutOfBoundsException`, which the reader's `catch (IOException e)` does not catch. The model returns this as an error (`IndexOutOfBounds`). What the pipeline library does with it is not part of this model.
- The DTLS handshake thread, `QueueDatagramTransport` and `dtlsStack.connect(...).get()` (lines 260-274): the handshake, its futures and threads live in libraries that are not part of this model.
- ICE agent creation and negotiation: `createIceAgent`, `iceAgent.startConnectivityEstablishment()`, `isConnected`/`getState` (lines 97, 101-105, 293-314). These belong to the ice4j engine; the agent is given to the manager's constructor. Likewise the manager builds its own `DtlsClientStack` (line 50); the model's constructor takes the stack, with its local fingerprint and hash function, as a parameter, because the stack's key generation is not part of this model.
- `onIceConnected` first fetches the socket of component 0 (line 193). This is socket I/O and is not modelled.
- The internals of `ModuleChain`, `DemuxerModule`, `MuxerModule`, `PacketPath`, `DtlsReceiverModule` and `DtlsSenderModule` are not modelled. They appear as structural values; `SelectPath` is only the first-match reading stated above.
- The source attaches the DTLS sender to the muxer after the muxer is in the chain (lines 218-222). The model builds the muxer with its input and then appends it, which gives the same value. The identity of the receiver and sender objects shared with the handshake transport is not modelled.
- `generateCandidateID` (lines 364-379): it depends on `hashCode()` of foreign objects. It is the parameter `candidateId` of `Describe`.
- LocalDescription.DescribeCandidateRules: the type is copied as a value. The model does not capture `CandidateType.valueOf(...toString())` throwing for an ice4j candidate type that has no Jingle counterpart.
- Attributes of an existing fingerprint extension other than fingerprint, hash and setup are not modelled. Those three are all overwritten.
- The stub methods returning null (`getSrtpControl`, `getStreamConnector`, `getStreamTarget`), `getXmlNamespace`, the candidate list read at lines 91-94 (only logged), and all logging.

## Findings

| source | as written | input that shows it | evidently intended | confidence | as-written member | corrected member |
|---|---|---|---|---|---|---|
| src/main/java/org/jitsi/videobridge/IceDtlsTransportManager.java:287-290 | `onIceConnected` runs on every notification whose new state is established. Reading ice4j's `isEstablished`, that means both Completed and Terminated. | ICE reports Running→Completed, then Completed→Terminated. Setup runs twice: two reader threads on one socket, two DTLS handshakes, and rebuilt pipelines. | Setup runs once, on the first transition into an established state. | medium, not executed; it rests on ice4j's state definitions and transitions, which are not part of this model | IceDispatch.CompletedThenTerminatedSetsUpTwice | IceDispatch.GuardedSetupRunsOnce |
