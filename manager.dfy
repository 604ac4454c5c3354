/**
 * The transport manager (`IceDtlsTransportManager`): it ingests the remote
 * parameters, describes the local ones, and, whenever ICE reports an
 * established state, builds the incoming and outgoing packet pipelines.
 */
module TransportManager {
  import opened Common
  import opened Chains
  import opened Ice
  import opened Jingle
  import opened RemoteParameters
  import opened LocalDescription
  import opened IceDispatch

  /** The DTLS stack, as far as the manager uses it: its local fingerprint and the remote fingerprints it is given. */
  class DtlsStack {
    const localFingerprint: string
    const localFingerprintHashFunction: string
    var remoteFingerprints: map<Attr, Attr>

    constructor (localFingerprint: string, localFingerprintHashFunction: string)
      ensures this.localFingerprint == localFingerprint
      ensures this.localFingerprintHashFunction == localFingerprintHashFunction
      ensures remoteFingerprints == map[]
    {
      this.localFingerprint := localFingerprint;
      this.localFingerprintHashFunction := localFingerprintHashFunction;
      remoteFingerprints := map[];
    }
  }

  class IceDtlsTransportManager {
    const dtlsStack: DtlsStack
    const iceAgent: IceAgent
    var incomingModuleChain: Option<ModuleChain>
    var outgoingModuleChain: Option<ModuleChain>
    /** How many times connection setup (`onIceConnected`) has run. */
    ghost var connectSetups: nat
    /** The state-change notifications received so far. */
    ghost var notifications: seq<IceStateChange>

    /**
     * Setup has run once per established notification; the pipelines exist
     * once it has run, and then have their fixed shapes.
     */
    ghost predicate Valid()
      reads this
    {
      && connectSetups == SetupCount(notifications)
      && (incomingModuleChain.Some? <==> connectSetups > 0)
      && (outgoingModuleChain.Some? <==> connectSetups > 0)
      && (incomingModuleChain.Some? ==> IsIncomingShape(incomingModuleChain.value))
      && (outgoingModuleChain.Some? ==> IsOutgoingShape(outgoingModuleChain.value))
    }

    constructor (dtlsStack: DtlsStack, iceAgent: IceAgent)
      ensures Valid()
      ensures this.dtlsStack == dtlsStack && this.iceAgent == iceAgent
      ensures incomingModuleChain == None && outgoingModuleChain == None
      ensures notifications == []
    {
      this.dtlsStack := dtlsStack;
      this.iceAgent := iceAgent;
      incomingModuleChain := None;
      outgoingModuleChain := None;
      connectSetups := 0;
      notifications := [];
    }

    /**
     * `startConnectivityEstablishment`: the remote fingerprints go to the DTLS
     * stack as a map from hash name to fingerprint; the remote ufrag and
     * password are each set only when the transport carries one.
     */
    method StartConnectivityEstablishment(transport: IceUdpTransportExtension)
      modifies dtlsStack, iceAgent.stream
      ensures dtlsStack.remoteFingerprints == FingerprintMap(FingerprintsOf(transport.children))
      ensures dtlsStack.remoteFingerprints.Keys == HashNames(FingerprintsOf(transport.children))
      ensures iceAgent.stream.remoteUfrag ==
                if transport.ufrag.Some? then transport.ufrag else old(iceAgent.stream.remoteUfrag)
      ensures iceAgent.stream.remotePassword ==
                if transport.password.Some? then transport.password else old(iceAgent.stream.remotePassword)
      ensures iceAgent.stream.components == old(iceAgent.stream.components)
    {
      var dfpes := FingerprintsOf(transport.children);
      var remoteFingerprints := CollectRemoteFingerprints(dfpes);
      dtlsStack.remoteFingerprints := remoteFingerprints;
      if transport.ufrag.Some? {
        iceAgent.stream.remoteUfrag := transport.ufrag;
      }
      if transport.password.Some? {
        iceAgent.stream.remotePassword := transport.password;
      }
    }

    /**
     * `describe(candidate, pe)`: appends the candidate's extension; the
     * candidate belongs to `component`, and `candidateId` stands for
     * `generateCandidateID`.
     */
    method DescribeCandidateInto(candidate: LocalCandidate, component: Component,
                                 pe: IceUdpTransportExtension, candidateId: LocalCandidate -> string)
      modifies pe
      ensures pe.children == old(pe.children) +
                [CandidateChild(DescribeCandidate(candidate, component.componentId, iceAgent.generation, candidateId(candidate)))]
      ensures pe.ufrag == old(pe.ufrag) && pe.password == old(pe.password)
    {
      var candidatePE := DescribeCandidate(candidate, component.componentId, iceAgent.generation, candidateId(candidate));
      pe.children := pe.children + [CandidateChild(candidatePE)];
    }

    /**
     * `describe(pe)`: the local credentials, one candidate extension per
     * local candidate, rtcp-mux, and the local fingerprint (found or created)
     * with setup "ACTPASS".
     */
    method Describe(pe: IceUdpTransportExtension, candidateId: LocalCandidate -> string)
      modifies pe
      ensures pe.password == Some(iceAgent.localPassword) && pe.ufrag == Some(iceAgent.localUfrag)
      ensures pe.children == DescribedChildren(old(pe.children), iceAgent.stream.components, iceAgent.generation,
                                               candidateId, dtlsStack.localFingerprint,
                                               dtlsStack.localFingerprintHashFunction)
    {
      pe.password := Some(iceAgent.localPassword);
      pe.ufrag := Some(iceAgent.localUfrag);
      DescribeComponents(pe, candidateId);
      pe.children := pe.children + [RtcpMuxChild];
      DescribeDtls(pe);
    }

    /** The outer loop of `describe(pe)`: the candidates of every component, in component order. */
    method DescribeComponents(pe: IceUdpTransportExtension, candidateId: LocalCandidate -> string)
      modifies pe
      ensures pe.children == old(pe.children) + CandidateExtensions(iceAgent.stream.components, iceAgent.generation, candidateId)
      ensures pe.ufrag == old(pe.ufrag) && pe.password == old(pe.password)
    {
      var comps := iceAgent.stream.components;
      var generation := iceAgent.generation;
      var i := 0;
      while i < |comps|
        invariant 0 <= i <= |comps|
        invariant pe.ufrag == old(pe.ufrag) && pe.password == old(pe.password)
        invariant pe.children == old(pe.children) + CandidateExtensions(comps[..i], generation, candidateId)
      {
        ghost var done := CandidateExtensions(comps[..i], generation, candidateId);
        ghost var next := ComponentExtensions(comps[i], generation, candidateId);
        CandidateExtensionsSnoc(comps, i, generation, candidateId);
        DescribeComponent(comps[i], pe, candidateId);
        assert pe.children == old(pe.children) + (done + next);
        i := i + 1;
      }
      assert comps[..i] == comps;
    }

    /** The inner loop of `describe(pe)`: the candidates of one component, when its list is not null. */
    method DescribeComponent(component: Component, pe: IceUdpTransportExtension, candidateId: LocalCandidate -> string)
      modifies pe
      ensures pe.children == old(pe.children) + ComponentExtensions(component, iceAgent.generation, candidateId)
      ensures pe.ufrag == old(pe.ufrag) && pe.password == old(pe.password)
    {
      if component.localCandidates.Some? {
        var localCandidates := component.localCandidates.value;
        var j := 0;
        while j < |localCandidates|
          invariant 0 <= j <= |localCandidates|
          invariant pe.ufrag == old(pe.ufrag) && pe.password == old(pe.password)
          invariant pe.children == old(pe.children)
                      + DescribeCandidates(localCandidates[..j], component.componentId, iceAgent.generation, candidateId)
        {
          assert localCandidates[..j + 1][..j] == localCandidates[..j];
          DescribeCandidateInto(localCandidates[j], component, pe, candidateId);
          j := j + 1;
        }
        assert localCandidates[..j] == localCandidates;
      }
    }

    /** The "describe dtls" part of `describe(pe)`: find or create the fingerprint extension, then set it. */
    method DescribeDtls(pe: IceUdpTransportExtension)
      modifies pe
      ensures pe.children == WithLocalFingerprint(old(pe.children), dtlsStack.localFingerprint,
                                                  dtlsStack.localFingerprintHashFunction)
      ensures pe.ufrag == old(pe.ufrag) && pe.password == old(pe.password)
    {
      var k := FirstFingerprintIndex(pe.children);
      var fingerprintPE: DtlsFingerprintExtension;
      var at: nat;
      if k.None? {
        fingerprintPE := DtlsFingerprintExtension(None, None, None);
        pe.children := pe.children + [FingerprintChild(fingerprintPE)];
        at := |pe.children| - 1;
      } else {
        at := k.value;
        fingerprintPE := pe.children[at].fingerprint;
      }
      fingerprintPE := fingerprintPE.(fingerprint := Some(dtlsStack.localFingerprint));
      fingerprintPE := fingerprintPE.(hash := Some(dtlsStack.localFingerprintHashFunction));
      fingerprintPE := fingerprintPE.(setup := Some(ActPass));
      // The extension object is shared with the child list, so the update shows there.
      pe.children := pe.children[at := FingerprintChild(fingerprintPE)];
    }

    /**
     * The pipeline part of `onIceConnected`: the incoming chain is a demuxer
     * with one DTLS path to the DTLS receiver, the outgoing chain a muxer fed
     * by the DTLS sender followed by the socket writer.
     */
    method OnIceConnected()
      modifies this
      ensures incomingModuleChain.Some? && IsIncomingShape(incomingModuleChain.value)
      ensures outgoingModuleChain.Some? && IsOutgoingShape(outgoingModuleChain.value)
      ensures connectSetups == old(connectSetups) + 1
      ensures notifications == old(notifications)
    {
      var incoming := EmptyChain;
      var dtlsSrtpDemuxer := Demuxer([]);
      var dtlsChain := EmptyChain;
      dtlsChain := AddModule(dtlsChain, DtlsReceiver);
      var dtlsPath := PacketPath(DtlsRecordRange, dtlsChain);
      dtlsSrtpDemuxer := Demuxer(dtlsSrtpDemuxer.paths + [dtlsPath]);
      incoming := AddModule(incoming, dtlsSrtpDemuxer);
      incomingModuleChain := Some(incoming);

      var outgoing := EmptyChain;
      var muxer := Muxer([DtlsSender]);
      outgoing := AddModule(outgoing, muxer);
      outgoing := AddModule(outgoing, SocketWriter);
      outgoingModuleChain := Some(outgoing);

      connectSetups := connectSetups + 1;
    }

    /**
     * `iceAgentStateChange`: every notification whose new state is
     * established runs connection setup, with no guard against repeats; any
     * other notification changes nothing.
     */
    method IceAgentStateChange(ev: IceStateChange)
      requires Valid()
      modifies this
      ensures Valid()
      ensures notifications == old(notifications) + [ev]
      ensures connectSetups == old(connectSetups) + (if IsEstablished(ev.newState) then 1 else 0)
      ensures !IsEstablished(ev.newState) ==>
                incomingModuleChain == old(incomingModuleChain) && outgoingModuleChain == old(outgoingModuleChain)
    {
      if IsEstablished(ev.newState) {
        OnIceConnected();
      }
      notifications := notifications + [ev];
      assert notifications[..|notifications| - 1] == old(notifications);
    }
  }
}
