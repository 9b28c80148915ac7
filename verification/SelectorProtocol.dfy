/** The selector split in two: the application's half remembers the path objects and sends records, the
    daemon's half decodes the messages and asks a selector. Calls arrive and return faithfully. */
module SelectorProtocol {
  import opened Options
  import opened PathRecords

  datatype Prefs = Prefs(profile: string)

  /** What the application does with its selector. */
  datatype Op =
    | Initialize(paths: seq<PanPath>)
    | SetPreferences(prefs: Option<Prefs>)
    | GetPath
    | PathDown(fp: Fingerprint, pathInterface: string)
    | Refresh(paths: seq<PanPath>)
    | Close

  /** A connection, by its local and its remote address. */
  datatype Id = Id(local: Addr, remote: Addr)

  // ----- messages -----

  datatype Procedure = ToInitialize | ToSetPreferences | ToGetPath | ToPathDown | ToRefresh | ToClose

  datatype SelectorMsg = SelectorMsg(
    local: Option<Addr>,
    remote: Option<Addr>,
    fingerprint: Option<Fingerprint>,
    pathInterface: Option<string>,
    preferences: Option<Prefs>,
    paths: seq<WirePath>)

  datatype Request =
    | ReqInitialize(prefs: Option<Prefs>, id: Id, paths: seq<PanPath>)
    | ReqSetPreferences(prefs: Option<Prefs>, id: Id)
    | ReqPath(id: Id)
    | ReqPathDown(id: Id, fp: Fingerprint, pathInterface: string)
    | ReqRefresh(id: Id, paths: seq<PanPath>)
    | ReqClose(id: Id)

  /** Missing values are refused, but for a missing local address, which most procedures do not test. */
  datatype Decoded = Forward(request: Request) | Refused | Panicked

  function Decode(procedure: Procedure, msg: SelectorMsg): Decoded {
    if msg.remote.None? then Refused
    else if (procedure.ToInitialize? || procedure.ToSetPreferences?) && msg.local.None? then Refused
    else if procedure.ToPathDown? && (msg.fingerprint.None? || msg.pathInterface.None?) then Refused
    else if msg.local.None? then Panicked
    else
      var id := Id(msg.local.value, msg.remote.value);
      match procedure
      case ToInitialize => Forward(ReqInitialize(msg.preferences, id, FromWire(msg.paths)))
      case ToSetPreferences => Forward(ReqSetPreferences(msg.preferences, id))
      case ToGetPath => Forward(ReqPath(id))
      case ToPathDown => Forward(ReqPathDown(id, msg.fingerprint.value, msg.pathInterface.value))
      case ToRefresh => Forward(ReqRefresh(id, FromWire(msg.paths)))
      case ToClose => Forward(ReqClose(id))
  }

  // ----- the application's half -----

  datatype Client = Client(
    preferences: Option<Prefs>,
    paths: map<Fingerprint, Option<PanPath>>,
    local: Option<Addr>,
    remote: Option<Addr>)

  const NEW_CLIENT := Client(None, map[], None, None)

  /** The table of path objects after an announcement. */
  function Remember(table: map<Fingerprint, Option<PanPath>>, ps: seq<PanPath>): map<Fingerprint, Option<PanPath>> {
    if ps == [] then table
    else Remember(table, ps[..|ps| - 1])[ps[|ps| - 1].fingerprint := Some(ps[|ps| - 1])]
  }

  function Message(c: Client): SelectorMsg {
    SelectorMsg(c.local, c.remote, None, None, None, [])
  }

  /** The client after the operation, and the call it makes. */
  function Send(c: Client, id: Id, op: Op): (Client, Option<(Procedure, SelectorMsg)>) {
    match op
    case Initialize(ps) =>
      var c1 := c.(local := Some(id.local), remote := Some(id.remote), paths := Remember(c.paths, ps));
      (c1, Some((ToInitialize, Message(c1).(preferences := c1.preferences, paths := ToWire(ps)))))
    case SetPreferences(prefs) =>
      var c1 := c.(preferences := prefs);
      if c.local.Some? && c.remote.Some? then (c1, Some((ToSetPreferences, Message(c1).(preferences := prefs))))
      else (c1, None)
    case GetPath => (c, Some((ToGetPath, Message(c))))
    case PathDown(fp, pi) =>
      var c1 := c.(paths := c.paths[fp := None]);
      (c1, Some((ToPathDown, Message(c1).(fingerprint := Some(fp), pathInterface := Some(pi)))))
    case Refresh(ps) =>
      var c1 := c.(paths := Remember(c.paths, ps));
      (c1, Some((ToRefresh, Message(c1).(paths := ToWire(ps)))))
    case Close => (c, Some((ToClose, Message(c))))
  }

  /** The path object the client returns for the fingerprint in the reply to its call. */
  function Receive(c: Client, reply: Option<Fingerprint>): Option<PanPath> {
    match reply
    case None => None
    case Some(fp) => Lookup(c.paths, fp).GetOr(None)
  }

  /** The client object after a series of operations. */
  function After(id: Id, ops: seq<Op>): Client {
    if ops == [] then NEW_CLIENT else Send(After(id, ops[..|ops| - 1]), id, ops[|ops| - 1]).0
  }

  // ----- what the table of path objects means -----

  /** The last path announced under the fingerprint. */
  function LastIn(ps: seq<PanPath>, fp: Fingerprint): Option<PanPath> {
    if ps == [] then None
    else if ps[|ps| - 1].fingerprint == fp then Some(ps[|ps| - 1])
    else LastIn(ps[..|ps| - 1], fp)
  }

  /** The most recently announced path with the fingerprint, unless it was reported down since. */
  function Latest(ops: seq<Op>, fp: Fingerprint): Option<PanPath> {
    if ops == [] then None
    else
      var op, before := ops[|ops| - 1], ops[..|ops| - 1];
      if op.PathDown? && op.fp == fp then None
      else if (op.Initialize? || op.Refresh?) && LastIn(op.paths, fp).Some? then LastIn(op.paths, fp)
      else Latest(before, fp)
  }

  predicate AnnouncesLast(op: Op, p: PanPath) {
    (op.Initialize? || op.Refresh?) && LastIn(op.paths, p.fingerprint) == Some(p)
  }

  /** The operation changes what the client remembers under the fingerprint. */
  predicate Touches(op: Op, fp: Fingerprint) {
    || (op.PathDown? && op.fp == fp)
    || ((op.Initialize? || op.Refresh?) && LastIn(op.paths, fp).Some?)
  }

  /** The i-th operation announced the path, and nothing later changes what is remembered. */
  ghost predicate StandsSince(ops: seq<Op>, i: nat, fp: Fingerprint, p: PanPath) {
    i < |ops| && AnnouncesLast(ops[i], p) && forall j | i < j < |ops| :: !Touches(ops[j], fp)
  }

  lemma StandsSinceBefore(ops: seq<Op>, i: nat, fp: Fingerprint, p: PanPath)
    requires i < |ops| - 1
    ensures StandsSince(ops, i, fp, p) <==> StandsSince(ops[..|ops| - 1], i, fp, p) && !Touches(ops[|ops| - 1], fp)
  {
    var before := ops[..|ops| - 1];
    assert forall j | i < j < |before| :: before[j] == ops[j];
  }

  lemma {:induction false} LatestStands(ops: seq<Op>, fp: Fingerprint, p: PanPath) returns (i: nat)
    requires Latest(ops, fp) == Some(p)
    ensures p.fingerprint == fp && StandsSince(ops, i, fp, p)
  {
    var n := |ops| - 1;
    if Touches(ops[n], fp) {
      LastInIsAnnounced(ops[n].paths, fp);
      i := n;
    } else {
      i := LatestStands(ops[..n], fp, p);
      StandsSinceBefore(ops, i, fp, p);
    }
  }

  lemma {:induction false} StandingIsLatest(ops: seq<Op>, i: nat, fp: Fingerprint, p: PanPath)
    requires p.fingerprint == fp && StandsSince(ops, i, fp, p)
    ensures Latest(ops, fp) == Some(p)
  {
    var n := |ops| - 1;
    if i < n {
      StandsSinceBefore(ops, i, fp, p);
      StandingIsLatest(ops[..n], i, fp, p);
    }
  }

  /** The latest path is the one of an announcement after which the fingerprint was neither announced
      again nor reported down, and it carries that fingerprint. */
  lemma LatestExactly(ops: seq<Op>, fp: Fingerprint, p: PanPath)
    ensures Latest(ops, fp) == Some(p) <==> p.fingerprint == fp && exists i :: StandsSince(ops, i, fp, p)
  {
    if Latest(ops, fp) == Some(p) {
      var i := LatestStands(ops, fp, p);
    }
    if p.fingerprint == fp {
      if i :| StandsSince(ops, i, fp, p) {
        StandingIsLatest(ops, i, fp, p);
      }
    }
  }

  lemma {:induction false} RememberKeepsLast(table: map<Fingerprint, Option<PanPath>>, ps: seq<PanPath>, fp: Fingerprint)
    ensures Lookup(Remember(table, ps), fp) == if LastIn(ps, fp).Some? then Some(LastIn(ps, fp)) else Lookup(table, fp)
  {
    if ps != [] {
      RememberKeepsLast(table, ps[..|ps| - 1], fp);
    }
  }

  /** Whatever the daemon answers, the client returns the most recently announced path object with the
      fingerprint in the answer, or nothing if there is none or it was reported down since. */
  lemma {:induction false} ClientReturnsLatest(id: Id, ops: seq<Op>, reply: Option<Fingerprint>)
    ensures Receive(After(id, ops), reply) == if reply.None? then None else Latest(ops, reply.value)
  {
    if ops != [] && reply.Some? {
      ClientReturnsLatest(id, ops[..|ops| - 1], reply);
      var op := ops[|ops| - 1];
      if op.Initialize? || op.Refresh? {
        RememberKeepsLast(After(id, ops[..|ops| - 1]).paths, op.paths, reply.value);
      }
    }
  }

  lemma {:induction false} LastInIsAnnounced(ps: seq<PanPath>, fp: Fingerprint)
    ensures LastIn(ps, fp).Some? <==> Announces(ps, fp)
    ensures LastIn(ps, fp).Some? ==> LastIn(ps, fp).value in ps && LastIn(ps, fp).value.fingerprint == fp
  {
    if ps != [] {
      var init, last := ps[..|ps| - 1], ps[|ps| - 1];
      LastInIsAnnounced(init, fp);
      if i :| 0 <= i < |init| && init[i].fingerprint == fp {
        assert ps[i].fingerprint == fp;
      }
      if i :| 0 <= i < |ps| && ps[i].fingerprint == fp && i != |ps| - 1 {
        assert init[i].fingerprint == fp;
      }
    }
  }

  // ----- the addresses a client knows -----

  predicate Introduced(ops: seq<Op>) {
    ops != [] && (ops[|ops| - 1].Initialize? || Introduced(ops[..|ops| - 1]))
  }

  lemma {:induction false} AddressesAfter(id: Id, ops: seq<Op>)
    ensures var c := After(id, ops);
            if Introduced(ops) then c.local == Some(id.local) && c.remote == Some(id.remote)
            else c.local == None && c.remote == None
  {
    if ops != [] {
      AddressesAfter(id, ops[..|ops| - 1]);
    }
  }

  /** The preferences the application set last. */
  function LastPreferences(ops: seq<Op>): Option<Prefs> {
    if ops == [] then None
    else if ops[|ops| - 1].SetPreferences? then ops[|ops| - 1].prefs
    else LastPreferences(ops[..|ops| - 1])
  }

  lemma {:induction false} PreferencesAfter(id: Id, ops: seq<Op>)
    ensures After(id, ops).preferences == LastPreferences(ops)
  {
    if ops != [] {
      PreferencesAfter(id, ops[..|ops| - 1]);
    }
  }

  /** The request an operation stands for; Initialize takes along the preferences set before. */
  function RequestFor(id: Id, preferences: Option<Prefs>, op: Op): Request {
    match op
    case Initialize(ps) => ReqInitialize(preferences, id, FromWire(ToWire(ps)))
    case SetPreferences(prefs) => ReqSetPreferences(prefs, id)
    case GetPath => ReqPath(id)
    case PathDown(fp, pi) => ReqPathDown(id, fp, pi)
    case Refresh(ps) => ReqRefresh(id, FromWire(ToWire(ps)))
    case Close => ReqClose(id)
  }

  /** A message is forwarded exactly when it has both addresses and, to report a path down, says which. The
      daemon only fails to notice that the local address is missing. */
  lemma DecodesExactly(procedure: Procedure, msg: SelectorMsg)
    ensures var complete := procedure.ToPathDown? ==> msg.fingerprint.Some? && msg.pathInterface.Some?;
            && (Decode(procedure, msg).Forward? <==> msg.remote.Some? && msg.local.Some? && complete)
            && (Decode(procedure, msg).Panicked? <==>
                  && msg.remote.Some? && msg.local.None? && complete
                  && !procedure.ToInitialize? && !procedure.ToSetPreferences?)
  {
  }

  /** From the first Initialize on, every operation reaches the daemon as it was made, the paths without
      their forwarding paths; Initialize with the preferences set last. */
  lemma RequestsArrive(id: Id, ops: seq<Op>, op: Op)
    requires Introduced(ops) || op.Initialize?
    ensures var call := Send(After(id, ops), id, op).1;
            && call.Some?
            && Decode(call.value.0, call.value.1) == Forward(RequestFor(id, LastPreferences(ops), op))
  {
    PreferencesAfter(id, ops);
    AddressesAfter(id, ops);
  }

  /** Before that, preferences are not sent and every other call is refused. */
  lemma UnintroducedIsRefused(id: Id, ops: seq<Op>, op: Op)
    requires !Introduced(ops) && !op.Initialize?
    ensures var call := Send(After(id, ops), id, op).1;
            if op.SetPreferences? then call.None? else call.Some? && Decode(call.value.0, call.value.1) == Refused
  {
    AddressesAfter(id, ops);
  }
}
