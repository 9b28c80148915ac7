/** Path records on both sides of the connection between application and daemon. */
module PathRecords {
  import opened Options

  type Addr = string
  type Fingerprint = string

  datatype Metadata = Metadata(mtu: nat, interfaces: seq<string>)

  /** The path object of the network library; only this one carries a forwarding path. */
  datatype PanPath = PanPath(
    source: string,
    destination: string,
    metadata: Option<Metadata>,
    fingerprint: Fingerprint,
    forwardingPath: Option<string>,
    expiry: int)

  /** The record that travels between application and daemon. */
  datatype WirePath = WirePath(
    source: string,
    destination: string,
    metadata: Option<Metadata>,
    fingerprint: Fingerprint,
    expiry: int)

  function NewPathFrom(p: PanPath): WirePath {
    WirePath(p.source, p.destination, p.metadata, p.fingerprint, p.expiry)
  }

  function ToPanPath(w: WirePath): PanPath {
    PanPath(w.source, w.destination, w.metadata, w.fingerprint, None, w.expiry)
  }

  function ToWire(ps: seq<PanPath>): seq<WirePath> {
    if ps == [] then [] else [NewPathFrom(ps[0])] + ToWire(ps[1..])
  }

  function FromWire(ws: seq<WirePath>): seq<PanPath> {
    if ws == [] then [] else [ToPanPath(ws[0])] + FromWire(ws[1..])
  }

  predicate SameButForwarding(p: PanPath, q: PanPath) {
    p.(forwardingPath := None) == q.(forwardingPath := None)
  }

  /** The two sets of paths differ in nothing but forwarding paths. */
  predicate SameSetButForwarding(ps: seq<PanPath>, qs: seq<PanPath>) {
    |ps| == |qs| && forall i | 0 <= i < |ps| :: SameButForwarding(ps[i], qs[i])
  }

  /** Travelling in a record costs a path its forwarding path and nothing else, and two paths have the
      same record exactly when they differ in nothing else. */
  lemma RecordLosesForwardingOnly(p: PanPath, q: PanPath)
    ensures ToPanPath(NewPathFrom(p)) == p.(forwardingPath := None)
    ensures NewPathFrom(p) == NewPathFrom(q) <==> SameButForwarding(p, q)
    ensures NewPathFrom(ToPanPath(NewPathFrom(p))) == NewPathFrom(p)
  {
  }

  lemma {:induction false} TravelLosesForwardingOnly(ps: seq<PanPath>)
    ensures SameSetButForwarding(ps, FromWire(ToWire(ps)))
    ensures forall i | 0 <= i < |ps| :: FromWire(ToWire(ps))[i].forwardingPath == None
  {
    if ps != [] {
      TravelLosesForwardingOnly(ps[1..]);
      assert ToWire(ps)[1..] == ToWire(ps[1..]);
    }
  }

  ghost predicate DistinctFingerprints(ps: seq<PanPath>) {
    forall i, j | 0 <= i < j < |ps| :: ps[i].fingerprint != ps[j].fingerprint
  }

  ghost predicate Announces(ps: seq<PanPath>, fp: Fingerprint) {
    exists i :: 0 <= i < |ps| && ps[i].fingerprint == fp
  }
}
