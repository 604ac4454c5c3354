/**
 * The local description (`describe`): one candidate extension per local
 * candidate, an rtcp-mux extension, and the local DTLS fingerprint with
 * setup "ACTPASS", found or created.
 */
module LocalDescription {
  import opened Common
  import opened Ice
  import opened Jingle

  /** The setup role advertised with the local fingerprint: either side may initiate. */
  const ActPass: string := "ACTPASS"

  /** The transport advertised for a candidate: SSL-enabled TCP is advertised as SSLTCP. */
  function AdvertisedTransport(c: LocalCandidate): Transport
  {
    if c.transport == TCP && c.isSsl then SSLTCP else c.transport
  }

  /** Whether a transport is TCP-like and so carries a TCP type. */
  predicate IsTcpLike(t: Transport)
  {
    t == TCP || t == SSLTCP
  }

  /**
   * `describe(candidate, pe)`: the candidate extension for one local
   * candidate of the component with ID `componentId`; `id` is the value that
   * `generateCandidateID` gives the candidate.
   */
  function DescribeCandidate(c: LocalCandidate, componentId: int, generation: int, id: string): CandidateExtension
  {
    var transport := AdvertisedTransport(c);
    var related := c.relatedAddress;
    CandidateExtension(
      component := componentId,
      foundation := c.foundation,
      generation := generation,
      id := id,
      network := 0,
      priority := c.priority,
      protocol := TransportName(transport),
      tcpType := if IsTcpLike(transport) then c.tcpType else None,
      candidateType := c.candidateType,
      ip := c.transportAddress.hostAddress,
      port := c.transportAddress.port,
      relAddr := if related.Some? then Some(related.value.hostAddress) else None,
      relPort := if related.Some? then Some(related.value.port) else None)
  }

  /**
   * The mapping rules of a candidate extension:
   * - component, foundation, generation, ID, priority and type are copied;
   * - network is always 0;
   * - ip and port always come from the transport address;
   * - rel-addr and rel-port are present exactly when there is a related
   *   address, and then come from it;
   * - the protocol is "ssltcp" exactly when the candidate is SSL-enabled TCP
   *   (or already SSLTCP), otherwise the name of the candidate's transport;
   * - a TCP type is present only with protocol "tcp" or "ssltcp", and with
   *   those protocols it is the candidate's.
   */
  lemma DescribeCandidateRules(c: LocalCandidate, componentId: int, generation: int, id: string)
    ensures var r := DescribeCandidate(c, componentId, generation, id);
      && r.component == componentId && r.generation == generation && r.id == id
      && r.foundation == c.foundation && r.priority == c.priority && r.candidateType == c.candidateType
      && r.network == 0
      && r.ip == c.transportAddress.hostAddress && r.port == c.transportAddress.port
      && (r.relAddr.Some? <==> c.relatedAddress.Some?)
      && (r.relPort.Some? <==> c.relatedAddress.Some?)
      && (c.relatedAddress.Some? ==>
            r.relAddr == Some(c.relatedAddress.value.hostAddress) && r.relPort == Some(c.relatedAddress.value.port))
      && (r.protocol == "ssltcp" <==> c.transport == SSLTCP || (c.transport == TCP && c.isSsl))
      && (r.protocol != "ssltcp" ==> r.protocol == TransportName(c.transport))
      && (r.tcpType.Some? ==> r.protocol == "tcp" || r.protocol == "ssltcp")
      && ((r.protocol == "tcp" || r.protocol == "ssltcp") ==> r.tcpType == c.tcpType)
  {
    var t := AdvertisedTransport(c);
    TransportNameInjective(t, SSLTCP);
    TransportNameInjective(t, TCP);
  }

  /** The candidate extensions for a list of local candidates, in list order. */
  function DescribeCandidates(cands: seq<LocalCandidate>, componentId: int, generation: int,
                              candidateId: LocalCandidate -> string): seq<Extension>
  {
    if |cands| == 0 then []
    else
      var last := cands[|cands| - 1];
      DescribeCandidates(cands[..|cands| - 1], componentId, generation, candidateId)
        + [CandidateChild(DescribeCandidate(last, componentId, generation, candidateId(last)))]
  }

  /** The candidate extensions for one component; none when its list is null. */
  function ComponentExtensions(comp: Component, generation: int, candidateId: LocalCandidate -> string): seq<Extension>
  {
    match comp.localCandidates
    case None => []
    case Some(cands) => DescribeCandidates(cands, comp.componentId, generation, candidateId)
  }

  /** The candidate extensions for all components, in component order. */
  function CandidateExtensions(comps: seq<Component>, generation: int, candidateId: LocalCandidate -> string): seq<Extension>
  {
    if |comps| == 0 then []
    else
      CandidateExtensions(comps[..|comps| - 1], generation, candidateId)
        + ComponentExtensions(comps[|comps| - 1], generation, candidateId)
  }

  /** Describing one more component appends its candidate extensions. */
  lemma CandidateExtensionsSnoc(comps: seq<Component>, i: nat, generation: int, candidateId: LocalCandidate -> string)
    requires i < |comps|
    ensures CandidateExtensions(comps[..i + 1], generation, candidateId)
            == CandidateExtensions(comps[..i], generation, candidateId) + ComponentExtensions(comps[i], generation, candidateId)
  {
    assert comps[..i + 1][..i] == comps[..i];
  }

  /** The number of local candidates over all components whose list is not null. */
  function CandidateCount(comps: seq<Component>): nat
  {
    if |comps| == 0 then 0
    else
      var last := comps[|comps| - 1];
      CandidateCount(comps[..|comps| - 1]) + (if last.localCandidates.Some? then |last.localCandidates.value| else 0)
  }

  /** The fingerprint extension the local side advertises. */
  function LocalFingerprint(fingerprint: string, hash: string): DtlsFingerprintExtension
  {
    DtlsFingerprintExtension(Some(fingerprint), Some(hash), Some(ActPass))
  }

  /** Find-or-create of the fingerprint child, then setting its fingerprint, hash and setup. */
  function WithLocalFingerprint(children: seq<Extension>, fingerprint: string, hash: string): (r: seq<Extension>)
    ensures FingerprintChild(LocalFingerprint(fingerprint, hash)) in r
    ensures |r| == |children| + (if FirstFingerprintIndex(children).None? then 1 else 0)
  {
    var fp := FingerprintChild(LocalFingerprint(fingerprint, hash));
    match FirstFingerprintIndex(children)
    case None => children + [fp]
    case Some(k) =>
      var r := children[k := fp];
      assert r[k] == fp;
      r
  }

  /** The children `describe(pe)` leaves, given the children `pe` had. */
  function DescribedChildren(children: seq<Extension>, comps: seq<Component>, generation: int,
                             candidateId: LocalCandidate -> string, fingerprint: string, hash: string): seq<Extension>
  {
    WithLocalFingerprint(children + CandidateExtensions(comps, generation, candidateId) + [RtcpMuxChild],
                         fingerprint, hash)
  }

  // ---- counting children by kind ----

  /** How many children are candidate extensions, rtcp-mux extensions, fingerprint extensions. */
  function CountCandidates(s: seq<Extension>): nat
  {
    if |s| == 0 then 0 else CountCandidates(s[..|s| - 1]) + (if s[|s| - 1].CandidateChild? then 1 else 0)
  }

  function CountRtcpMux(s: seq<Extension>): nat
  {
    if |s| == 0 then 0 else CountRtcpMux(s[..|s| - 1]) + (if s[|s| - 1].RtcpMuxChild? then 1 else 0)
  }

  function CountFingerprints(s: seq<Extension>): nat
  {
    if |s| == 0 then 0 else CountFingerprints(s[..|s| - 1]) + (if s[|s| - 1].FingerprintChild? then 1 else 0)
  }

  /** The three counts add up over concatenation. */
  lemma {:induction false} CountsAppend(a: seq<Extension>, b: seq<Extension>)
    ensures CountCandidates(a + b) == CountCandidates(a) + CountCandidates(b)
    ensures CountRtcpMux(a + b) == CountRtcpMux(a) + CountRtcpMux(b)
    ensures CountFingerprints(a + b) == CountFingerprints(a) + CountFingerprints(b)
  {
    if |b| > 0 {
      var n := |b| - 1;
      assert (a + b)[..|a + b| - 1] == a + b[..n];
      CountsAppend(a, b[..n]);
    } else {
      assert a + b == a;
    }
  }

  /** Replacing a child by one of the same kind keeps the three counts. */
  lemma {:induction false} CountsUpdate(s: seq<Extension>, k: nat, e: Extension)
    requires k < |s|
    requires s[k].CandidateChild? == e.CandidateChild? && s[k].RtcpMuxChild? == e.RtcpMuxChild?
    requires s[k].FingerprintChild? == e.FingerprintChild?
    ensures CountCandidates(s[k := e]) == CountCandidates(s)
    ensures CountRtcpMux(s[k := e]) == CountRtcpMux(s)
    ensures CountFingerprints(s[k := e]) == CountFingerprints(s)
  {
    var n := |s| - 1;
    if k < n {
      assert s[k := e][..n] == s[..n][k := e];
      CountsUpdate(s[..n], k, e);
    } else {
      assert s[k := e][..n] == s[..n];
    }
  }

  /** Describing candidates yields only candidate extensions, one per candidate. */
  lemma {:induction false} DescribeCandidatesCounts(cands: seq<LocalCandidate>, componentId: int, generation: int,
                                                   candidateId: LocalCandidate -> string)
    ensures |DescribeCandidates(cands, componentId, generation, candidateId)| == |cands|
    ensures CountCandidates(DescribeCandidates(cands, componentId, generation, candidateId)) == |cands|
    ensures CountRtcpMux(DescribeCandidates(cands, componentId, generation, candidateId)) == 0
    ensures CountFingerprints(DescribeCandidates(cands, componentId, generation, candidateId)) == 0
  {
    if |cands| > 0 {
      var n := |cands| - 1;
      var last := cands[n];
      DescribeCandidatesCounts(cands[..n], componentId, generation, candidateId);
      CountsAppend(DescribeCandidates(cands[..n], componentId, generation, candidateId),
                   [CandidateChild(DescribeCandidate(last, componentId, generation, candidateId(last)))]);
    }
  }

  /** The `j`-th extension for a list of candidates describes the `j`-th candidate. */
  lemma {:induction false} DescribeCandidatesAt(cands: seq<LocalCandidate>, componentId: int, generation: int,
                                               candidateId: LocalCandidate -> string, j: nat)
    requires j < |cands|
    ensures |DescribeCandidates(cands, componentId, generation, candidateId)| == |cands|
    ensures DescribeCandidates(cands, componentId, generation, candidateId)[j]
            == CandidateChild(DescribeCandidate(cands[j], componentId, generation, candidateId(cands[j])))
  {
    var n := |cands| - 1;
    DescribeCandidatesCounts(cands, componentId, generation, candidateId);
    DescribeCandidatesCounts(cands[..n], componentId, generation, candidateId);
    if j < n {
      DescribeCandidatesAt(cands[..n], componentId, generation, candidateId, j);
    }
  }

  /**
   * Over all components, there is one candidate extension per local
   * candidate of a component whose list is not null, and nothing else.
   */
  lemma {:induction false} CandidateExtensionsCounts(comps: seq<Component>, generation: int,
                                                    candidateId: LocalCandidate -> string)
    ensures |CandidateExtensions(comps, generation, candidateId)| == CandidateCount(comps)
    ensures CountCandidates(CandidateExtensions(comps, generation, candidateId)) == CandidateCount(comps)
    ensures CountRtcpMux(CandidateExtensions(comps, generation, candidateId)) == 0
    ensures CountFingerprints(CandidateExtensions(comps, generation, candidateId)) == 0
  {
    if |comps| > 0 {
      var n := |comps| - 1;
      var last := comps[n];
      CandidateExtensionsCounts(comps[..n], generation, candidateId);
      match last.localCandidates {
        case None =>
          assert ComponentExtensions(last, generation, candidateId) == [];
        case Some(cands) =>
          DescribeCandidatesCounts(cands, last.componentId, generation, candidateId);
      }
      CountsAppend(CandidateExtensions(comps[..n], generation, candidateId),
                   ComponentExtensions(last, generation, candidateId));
    }
  }

  /**
   * What `describe(pe)` does to the children: the old children stay, the
   * candidate extensions follow in component and candidate order, then one
   * rtcp-mux extension. When there was a fingerprint child, the first one is
   * reused in place; otherwise exactly one is appended at the end. Either way
   * that child is the first fingerprint child afterwards and holds the local
   * fingerprint, hash and setup "ACTPASS".
   */
  lemma DescribedChildrenLayout(children: seq<Extension>, comps: seq<Component>, generation: int,
                                candidateId: LocalCandidate -> string, fingerprint: string, hash: string)
    ensures var r := DescribedChildren(children, comps, generation, candidateId, fingerprint, hash);
            var appended := children + CandidateExtensions(comps, generation, candidateId) + [RtcpMuxChild];
            var fp := FingerprintChild(LocalFingerprint(fingerprint, hash));
            match FirstFingerprintIndex(children)
            case None => r == appended + [fp] && FirstFingerprintIndex(r) == Some(|appended|)
            case Some(k) => r == appended[k := fp] && FirstFingerprintIndex(r) == Some(k)
  {
    var cs := CandidateExtensions(comps, generation, candidateId);
    var all := children + cs + [RtcpMuxChild];
    CandidateExtensionsAreCandidates(comps, generation, candidateId);
    if FirstFingerprintIndex(children).None? {
      FingerprintCreated(children, cs, fingerprint, hash);
    } else {
      assert all[..|children|] == children;
      FirstFingerprintIndexPrefix(all, |children|);
      FingerprintReused(all, fingerprint, hash);
    }
  }

  /** Without a fingerprint child, the new one is appended after everything else. */
  lemma FingerprintCreated(children: seq<Extension>, cs: seq<Extension>, fingerprint: string, hash: string)
    requires forall e :: e in cs ==> e.CandidateChild?
    requires FirstFingerprintIndex(children).None?
    ensures var all := children + cs + [RtcpMuxChild];
            var r := WithLocalFingerprint(all, fingerprint, hash);
            r == all + [FingerprintChild(LocalFingerprint(fingerprint, hash))] && FirstFingerprintIndex(r) == Some(|all|)
  {
    var all := children + cs + [RtcpMuxChild];
    var r := all + [FingerprintChild(LocalFingerprint(fingerprint, hash))];
    forall i | 0 <= i < |all| ensures !all[i].FingerprintChild? {
      if i < |children| {
        assert all[i] == children[i];
      } else if i < |children| + |cs| {
        assert all[i] == cs[i - |children|];
        assert cs[i - |children|] in cs;
      }
    }
    assert forall i :: 0 <= i < |all| ==> r[i] == all[i];
    FirstFingerprintIndexCharacterised(r, |all|);
  }

  /** A fingerprint child at the first fingerprint position is replaced in place and stays first. */
  lemma FingerprintReused(all: seq<Extension>, fingerprint: string, hash: string)
    requires FirstFingerprintIndex(all).Some?
    ensures var k := FirstFingerprintIndex(all).value;
            var r := WithLocalFingerprint(all, fingerprint, hash);
            r == all[k := FingerprintChild(LocalFingerprint(fingerprint, hash))] && FirstFingerprintIndex(r) == Some(k)
  {
    var k := FirstFingerprintIndex(all).value;
    var r := all[k := FingerprintChild(LocalFingerprint(fingerprint, hash))];
    assert forall i :: 0 <= i < k ==> r[i] == all[i];
    FirstFingerprintIndexCharacterised(r, k);
  }

  /** Every candidate extension the description produces is a candidate child. */
  lemma {:induction false} CandidateExtensionsAreCandidates(comps: seq<Component>, generation: int,
                                                           candidateId: LocalCandidate -> string)
    ensures forall e :: e in CandidateExtensions(comps, generation, candidateId) ==> e.CandidateChild?
  {
    if |comps| > 0 {
      var n := |comps| - 1;
      CandidateExtensionsAreCandidates(comps[..n], generation, candidateId);
      match comps[n].localCandidates {
        case None =>
        case Some(cands) =>
          DescribeCandidatesAreCandidates(cands, comps[n].componentId, generation, candidateId);
      }
    }
  }

  lemma {:induction false} DescribeCandidatesAreCandidates(cands: seq<LocalCandidate>, componentId: int, generation: int,
                                                          candidateId: LocalCandidate -> string)
    ensures forall e :: e in DescribeCandidates(cands, componentId, generation, candidateId) ==> e.CandidateChild?
  {
    if |cands| > 0 {
      DescribeCandidatesAreCandidates(cands[..|cands| - 1], componentId, generation, candidateId);
    }
  }

  /** A fingerprint child within the first `n` children is found there. */
  lemma FirstFingerprintIndexPrefix(s: seq<Extension>, n: nat)
    requires n <= |s|
    requires FirstFingerprintIndex(s[..n]).Some?
    ensures FirstFingerprintIndex(s) == FirstFingerprintIndex(s[..n])
  {
    var k := FirstFingerprintIndex(s[..n]).value;
    assert s[k].FingerprintChild?;
    assert forall i :: 0 <= i < k ==> s[i] == s[..n][i];
    FirstFingerprintIndexCharacterised(s, k);
  }

  /** The first fingerprint child is determined by its two defining properties. */
  lemma {:induction false} FirstFingerprintIndexCharacterised(s: seq<Extension>, k: nat)
    requires k < |s| && s[k].FingerprintChild?
    requires forall i :: 0 <= i < k ==> !s[i].FingerprintChild?
    ensures FirstFingerprintIndex(s) == Some(k)
  {
    if k > 0 {
      assert forall i :: 0 <= i < k - 1 ==> s[1..][i] == s[i + 1];
      FirstFingerprintIndexCharacterised(s[1..], k - 1);
    }
  }

  /**
   * Counting what `describe(pe)` adds: one candidate extension per local
   * candidate, exactly one rtcp-mux extension, and a new fingerprint
   * extension only when there was none, so never two.
   */
  lemma DescribedChildrenCounts(children: seq<Extension>, comps: seq<Component>, generation: int,
                                candidateId: LocalCandidate -> string, fingerprint: string, hash: string)
    ensures var r := DescribedChildren(children, comps, generation, candidateId, fingerprint, hash);
            && CountCandidates(r) == CountCandidates(children) + CandidateCount(comps)
            && CountRtcpMux(r) == CountRtcpMux(children) + 1
            && CountFingerprints(r) == if CountFingerprints(children) == 0 then 1 else CountFingerprints(children)
  {
    var cs := CandidateExtensions(comps, generation, candidateId);
    var all := children + cs + [RtcpMuxChild];
    var fp := FingerprintChild(LocalFingerprint(fingerprint, hash));
    CandidateExtensionsCounts(comps, generation, candidateId);
    CountsAppend(children, cs);
    CountsAppend(children + cs, [RtcpMuxChild]);
    assert CountRtcpMux([RtcpMuxChild]) == 1 && CountCandidates([RtcpMuxChild]) == 0;
    assert CountFingerprints([RtcpMuxChild]) == 0;
    NoFingerprintIffCountZero(children);
    match FirstFingerprintIndex(all) {
      case None =>
        NoFingerprintIffCountZero(all);
        CountsAppend(all, [fp]);
        assert CountFingerprints([fp]) == 1 && CountCandidates([fp]) == 0 && CountRtcpMux([fp]) == 0;
      case Some(k) =>
        CountsUpdate(all, k, fp);
        NoFingerprintIffCountZero(all);
        FingerprintsOnlyAmongChildren(children, cs);
    }
  }

  /** The appended candidate extensions and rtcp-mux are not fingerprints, so a fingerprint of the whole is one of the old children. */
  lemma FingerprintsOnlyAmongChildren(children: seq<Extension>, cs: seq<Extension>)
    requires CountFingerprints(cs) == 0
    ensures CountFingerprints(children + cs + [RtcpMuxChild]) == CountFingerprints(children)
  {
    CountsAppend(children, cs);
    CountsAppend(children + cs, [RtcpMuxChild]);
    assert CountFingerprints([RtcpMuxChild]) == 0;
  }

  /** There is no fingerprint child exactly when none is counted. */
  lemma {:induction false} NoFingerprintIffCountZero(s: seq<Extension>)
    ensures FirstFingerprintIndex(s).None? <==> CountFingerprints(s) == 0
  {
    if |s| > 0 {
      var n := |s| - 1;
      NoFingerprintIffCountZero(s[..n]);
      if FirstFingerprintIndex(s[..n]).Some? {
        FirstFingerprintIndexPrefix(s, n);
      } else if s[n].FingerprintChild? {
        assert forall i :: 0 <= i < n ==> s[i] == s[..n][i];
        FirstFingerprintIndexCharacterised(s, n);
      } else {
        assert forall i :: 0 <= i < n ==> s[i] == s[..n][i];
      }
    }
  }
}
