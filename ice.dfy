/**
 * Stand-ins for the ice4j types the transport manager reads: transports,
 * addresses, local candidates, components, the media stream whose remote
 * credentials it sets, and the agent's local credentials.
 */
module Ice {
  import opened Common

  /** ice4j's `Transport`. */
  datatype Transport = UDP | TCP | TLS | DTLS | SCTP | SSLTCP

  /** `Transport.toString()`: the transport's protocol name. */
  function TransportName(t: Transport): string
  {
    match t
    case UDP => "udp"
    case TCP => "tcp"
    case TLS => "tls"
    case DTLS => "dtls"
    case SCTP => "sctp"
    case SSLTCP => "ssltcp"
  }

  /** Distinct transports have distinct names, so a name identifies its transport. */
  lemma TransportNameInjective(s: Transport, t: Transport)
    ensures TransportName(s) == TransportName(t) <==> s == t
  {
  }

  /** The TCP candidate type of RFC 6544. */
  datatype CandidateTcpType = Active | Passive | SimultaneousOpen

  /** The kind of a candidate, carried over by name into the candidate extension. */
  datatype CandidateType = Host | ServerReflexive | PeerReflexive | Relayed

  /** An IP address and port. */
  datatype TransportAddress = TransportAddress(hostAddress: string, port: int)

  /** An ice4j `LocalCandidate`, as far as describing it reads it. */
  datatype LocalCandidate = LocalCandidate(
    foundation: string,
    priority: int,
    transport: Transport,
    isSsl: bool,
    tcpType: Option<CandidateTcpType>,
    candidateType: CandidateType,
    transportAddress: TransportAddress,
    relatedAddress: Option<TransportAddress>)

  /** An ice4j `Component`: its ID and its list of local candidates, which may be null. */
  datatype Component = Component(componentId: int, localCandidates: Option<seq<LocalCandidate>>)

  /** The ICE media stream: its remote credentials and its components. */
  class IceMediaStream {
    var remoteUfrag: Attr
    var remotePassword: Attr
    var components: seq<Component>

    constructor (components: seq<Component>)
      ensures remoteUfrag == None && remotePassword == None
      ensures this.components == components
    {
      remoteUfrag := None;
      remotePassword := None;
      this.components := components;
    }
  }

  /** The ICE agent: its local credentials, its generation and its one stream. */
  class IceAgent {
    const localUfrag: string
    const localPassword: string
    const generation: int
    const stream: IceMediaStream

    constructor (localUfrag: string, localPassword: string, generation: int, stream: IceMediaStream)
      ensures this.localUfrag == localUfrag && this.localPassword == localPassword
      ensures this.generation == generation && this.stream == stream
    {
      this.localUfrag := localUfrag;
      this.localPassword := localPassword;
      this.generation := generation;
      this.stream := stream;
    }
  }
}
