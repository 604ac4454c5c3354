/**
 * Stand-ins for the signalling payload's extensions: the ICE-UDP transport
 * extension and the child extensions it holds (candidates, rtcp-mux, DTLS
 * fingerprints).
 */
module Jingle {
  import opened Common
  import opened Ice

  /** A DTLS fingerprint extension: fingerprint text and hash and setup attributes. */
  datatype DtlsFingerprintExtension = DtlsFingerprintExtension(fingerprint: Attr, hash: Attr, setup: Attr)

  /** A candidate extension; an attribute that was never set is `None`. */
  datatype CandidateExtension = CandidateExtension(
    component: int,
    foundation: string,
    generation: int,
    id: string,
    network: int,
    priority: int,
    protocol: string,
    tcpType: Option<CandidateTcpType>,
    candidateType: CandidateType,
    ip: string,
    port: int,
    relAddr: Attr,
    relPort: Option<int>)

  /** A child extension of the transport extension. */
  datatype Extension =
    | CandidateChild(candidate: CandidateExtension)
    | RtcpMuxChild
    | FingerprintChild(fingerprint: DtlsFingerprintExtension)
    | OtherChild(elementName: string)

  /** The ICE-UDP transport extension: credentials and an ordered list of children. */
  class IceUdpTransportExtension {
    var ufrag: Attr
    var password: Attr
    var children: seq<Extension>

    constructor (ufrag: Attr, password: Attr, children: seq<Extension>)
      ensures this.ufrag == ufrag && this.password == password && this.children == children
    {
      this.ufrag := ufrag;
      this.password := password;
      this.children := children;
    }
  }

  /** `getChildExtensionsOfType(DtlsFingerprintPacketExtension.class)`, in child order. */
  function FingerprintsOf(children: seq<Extension>): (r: seq<DtlsFingerprintExtension>)
    ensures forall f :: f in r <==> FingerprintChild(f) in children
  {
    if |children| == 0 then []
    else
      var rest := FingerprintsOf(children[1..]);
      assert forall e :: e in children <==> e == children[0] || e in children[1..];
      match children[0]
      case FingerprintChild(f) => [f] + rest
      case _ => rest
  }

  /**
   * The filter keeps child order and repeats: a single fingerprint child
   * gives itself, any other child nothing, and concatenated lists give
   * concatenated results.
   */
  lemma {:induction false} FingerprintsOfInOrder(a: seq<Extension>, b: seq<Extension>)
    ensures FingerprintsOf(a + b) == FingerprintsOf(a) + FingerprintsOf(b)
    ensures forall f :: FingerprintsOf([FingerprintChild(f)]) == [f]
    ensures forall e: Extension :: !e.FingerprintChild? ==> FingerprintsOf([e]) == []
  {
    if |a| > 0 {
      assert (a + b)[1..] == a[1..] + b;
      FingerprintsOfInOrder(a[1..], b);
    } else {
      assert a + b == b;
    }
    forall f ensures FingerprintsOf([FingerprintChild(f)]) == [f] {
      assert [FingerprintChild(f)][1..] == [];
    }
    forall e: Extension | !e.FingerprintChild? ensures FingerprintsOf([e]) == [] {
      assert [e][1..] == [];
    }
  }

  /**
   * `getFirstChildOfType(DtlsFingerprintPacketExtension.class)`: the index of
   * the first fingerprint child, `None` when there is none.
   */
  function FirstFingerprintIndex(children: seq<Extension>): (r: Option<nat>)
    ensures r.Some? ==> r.value < |children| && children[r.value].FingerprintChild?
    ensures r.Some? ==> forall i :: 0 <= i < r.value ==> !children[i].FingerprintChild?
    ensures r.None? ==> forall i :: 0 <= i < |children| ==> !children[i].FingerprintChild?
  {
    if |children| == 0 then None
    else if children[0].FingerprintChild? then Some(0)
    else
      match FirstFingerprintIndex(children[1..])
      case None => None
      case Some(k) => Some(k + 1)
  }
}
