/**
 * The packet pipelines the transport manager builds: an incoming chain that
 * demultiplexes datagrams onto a DTLS path, and an outgoing chain that merges
 * the DTLS sender's output and writes it to the socket. The pipeline library's
 * modules are opaque here; only the structure that the manager assembles is
 * modelled.
 */
module Chains {
  import opened Common
  import opened Packets

  /**
   * The predicates a packet path can carry. The manager only ever uses the
   * DTLS one, so this type has one value, and "the path has the DTLS
   * predicate" holds of every path by its type.
   */
  datatype PathPredicate = DtlsRecordRange

  /** A processing module, as structure. */
  datatype Module =
    | Demuxer(paths: seq<PacketPath>)
    | Muxer(inputs: seq<Module>)
    | DtlsReceiver
    | DtlsSender
    | SocketWriter

  /** A demuxer path: the predicate that selects packets and the sub-chain they go to. */
  datatype PacketPath = PacketPath(selector: PathPredicate, path: ModuleChain)

  /** An ordered pipeline of modules. */
  datatype ModuleChain = ModuleChain(modules: seq<Module>)

  /** The empty chain of `new ModuleChain()`. */
  const EmptyChain := ModuleChain([])

  /** `chain.addModule(m)`: the module goes at the end. */
  function AddModule(chain: ModuleChain, m: Module): (r: ModuleChain)
    ensures |r.modules| == |chain.modules| + 1
    ensures r.modules[..|chain.modules|] == chain.modules && r.modules[|chain.modules|] == m
  {
    ModuleChain(chain.modules + [m])
  }

  /**
   * The incoming chain's structure: exactly one module, a demuxer with
   * exactly one path, whose sub-chain is exactly `[DtlsReceiver]`. The
   * path's predicate is the DTLS range by its type, so it needs no conjunct.
   */
  predicate IsIncomingShape(c: ModuleChain)
  {
    && |c.modules| == 1
    && c.modules[0].Demuxer?
    && |c.modules[0].paths| == 1
    && c.modules[0].paths[0].path == ModuleChain([DtlsReceiver])
  }

  /** The outgoing chain as the helper builds it: one muxer whose sole input is the DTLS sender. */
  predicate IsOutgoingHelperShape(c: ModuleChain)
  {
    && |c.modules| == 1
    && c.modules[0].Muxer?
    && c.modules[0].inputs == [DtlsSender]
  }

  /** The outgoing chain once connected: the helper's muxer, then the socket writer. */
  predicate IsOutgoingShape(c: ModuleChain)
  {
    && |c.modules| == 2
    && IsOutgoingHelperShape(ModuleChain(c.modules[..1]))
    && c.modules[1] == SocketWriter
  }

  /** `createIncomingModuleChain`. */
  method CreateIncomingModuleChain() returns (incoming: ModuleChain)
    ensures IsIncomingShape(incoming)
  {
    incoming := EmptyChain;
    var dtlsChain := EmptyChain;
    dtlsChain := AddModule(dtlsChain, DtlsReceiver);
    var dtlsPath := PacketPath(DtlsRecordRange, dtlsChain);
    var dtlsSrtpDemuxer := Demuxer([]);
    dtlsSrtpDemuxer := Demuxer(dtlsSrtpDemuxer.paths + [dtlsPath]);
    incoming := AddModule(incoming, dtlsSrtpDemuxer);
  }

  /** `createOutgoingModuleChain`. */
  method CreateOutgoingModuleChain() returns (outgoing: ModuleChain)
    ensures IsOutgoingHelperShape(outgoing)
  {
    outgoing := EmptyChain;
    var muxer := Muxer([]);
    muxer := Muxer(muxer.inputs + [DtlsSender]);
    outgoing := AddModule(outgoing, muxer);
  }

  /** A chain of either shape is unique: the shapes fix every module. */
  lemma ShapesDetermineChains(a: ModuleChain, b: ModuleChain)
    ensures IsIncomingShape(a) && IsIncomingShape(b) ==> a == b
    ensures IsOutgoingHelperShape(a) && IsOutgoingHelperShape(b) ==> a == b
    ensures IsOutgoingShape(a) && IsOutgoingShape(b) ==> a == b
  {
    if IsIncomingShape(a) && IsIncomingShape(b) {
      assert a.modules[0].paths[0].selector == b.modules[0].paths[0].selector;
      assert a.modules[0].paths == b.modules[0].paths;
      assert a.modules == b.modules;
    }
    if IsOutgoingHelperShape(a) && IsOutgoingHelperShape(b) {
      assert a.modules == b.modules;
    }
    if IsOutgoingShape(a) && IsOutgoingShape(b) {
      assert a.modules[..1] == b.modules[..1];
      assert a.modules == a.modules[..1] + [a.modules[1]];
      assert a.modules == b.modules;
    }
  }

  /** The connected outgoing chain is the helper's chain with the socket writer appended. */
  lemma OutgoingExtendsHelper(h: ModuleChain, c: ModuleChain)
    requires IsOutgoingHelperShape(h)
    ensures IsOutgoingShape(c) <==> c == AddModule(h, SocketWriter)
  {
    if IsOutgoingShape(c) {
      ShapesDetermineChains(ModuleChain(c.modules[..1]), h);
      assert c.modules == c.modules[..1] + [c.modules[1]];
    }
    if c == AddModule(h, SocketWriter) {
      assert c.modules[..1] == h.modules;
    }
  }

  /** Whether one path's predicate selects the packet. */
  function PathMatches(pred: PathPredicate, p: Packet): Result<bool, PacketError>
  {
    match pred
    case DtlsRecordRange => IsDtlsPacket(p)
  }

  /**
   * The demuxer's choice for one packet, first match wins: the sub-chain of
   * the first path whose predicate holds, `None` when none does (the packet
   * is dropped); a predicate that throws stops the search.
   */
  function SelectPath(paths: seq<PacketPath>, p: Packet): (r: Result<Option<ModuleChain>, PacketError>)
    ensures r.Success? && r.value.Some? ==>
              exists i :: 0 <= i < |paths| && paths[i].path == r.value.value
                          && PathMatches(paths[i].selector, p) == Success(true)
                          && forall j :: 0 <= j < i ==> PathMatches(paths[j].selector, p) == Success(false)
    ensures r.Success? && r.value.None? ==>
              forall i :: 0 <= i < |paths| ==> PathMatches(paths[i].selector, p) == Success(false)
    ensures r.Failure? ==>
              exists i :: 0 <= i < |paths| && PathMatches(paths[i].selector, p).Failure?
                          && forall j :: 0 <= j < i ==> PathMatches(paths[j].selector, p) == Success(false)
  {
    if |paths| == 0 then Success(None)
    else
      match PathMatches(paths[0].selector, p)
      case Failure(e) => Failure(e)
      case Success(true) => Success(Some(paths[0].path))
      case Success(false) =>
        var r := SelectPath(paths[1..], p);
        assert forall i :: 1 <= i < |paths| ==> paths[i] == paths[1..][i - 1];
        r
  }

  /**
   * On a chain of the incoming shape, a packet reaches the DTLS receiver
   * exactly when its first byte, read unsigned, lies in 20..63; any other
   * packet is dropped; an empty one makes the predicate throw.
   */
  lemma IncomingRouting(c: ModuleChain, p: Packet)
    requires IsIncomingShape(c)
    ensures SelectPath(c.modules[0].paths, p) ==
              if |p| == 0 then Failure(IndexOutOfBounds)
              else if 20 <= MaskLowByte(p[0]) <= 63 then Success(Some(ModuleChain([DtlsReceiver])))
              else Success(None)
  {
  }
}
