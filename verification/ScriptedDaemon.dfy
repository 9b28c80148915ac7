/** Applications, and a daemon that asks a script: whatever the script returns, an application only gets
    paths of the set it announced last. */
module ScriptedDaemon {
  import opened Options
  import opened PathRecords
  import opened PathTranslation
  import opened SelectorProtocol

  /** `current` is the set each connection announced last. */
  datatype World = World(clients: map<Id, Client>, maps: Maps, current: map<Id, seq<PanPath>>)

  /** An operation, and the table the script returns if it is asked for a path. The table may be one the
      script was given for any address at any time, or one it made up. */
  datatype Event = Event(id: Id, op: Op, answer: Option<Table>)

  function ClientOf(w: World, id: Id): Client {
    Lookup(w.clients, id).GetOr(NEW_CLIENT)
  }

  function CurrentSet(w: World, id: Id): seq<PanPath> {
    Lookup(w.current, id).GetOr([])
  }

  /** The daemon's part: announced sets replace what is known about their address, and the table the
      script returns is looked up. */
  function Serve(m: Maps, request: Request, answer: Option<Table>): (Maps, Option<PanPath>) {
    match request
    case ReqInitialize(_, id, ps) => (Flush(m, id.remote, ps), None)
    case ReqRefresh(id, ps) => (Flush(m, id.remote, ps), None)
    case ReqPath(_) => (m, if answer.Some? then Resolve(m, answer.value) else None)
    case _ => (m, None)
  }

  /** The world after the event, and the path object the application gets. A refused call ends it. */
  function Step(w: World, e: Event): (World, Option<PanPath>) {
    var (c, call) := Send(ClientOf(w, e.id), e.id, e.op);
    var clients := if e.op.Close? then w.clients - {e.id} else w.clients[e.id := c];
    match call
    case None => (w.(clients := clients), None)
    case Some(procedureAndMsg) =>
      match Decode(procedureAndMsg.0, procedureAndMsg.1)
      case Forward(request) =>
        var (maps, p) := Serve(w.maps, request, e.answer);
        var current := if e.op.Initialize? || e.op.Refresh? then w.current[e.id := e.op.paths] else w.current;
        (World(clients, maps, current), Receive(c, if p.Some? then Some(p.value.fingerprint) else None))
      case _ => (w.(clients := w.clients - {e.id}), None)
  }

  function Run(w: World, es: seq<Event>): World
    decreases |es|
  {
    if es == [] then w else Run(Step(w, es[0]).0, es[1..])
  }

  // ----- the invariant -----

  /** Each announced set has distinct fingerprints, and they belong to the connection that announces it. */
  ghost predicate WellAnnounced(owner: Fingerprint -> Id, e: Event) {
    e.op.Initialize? || e.op.Refresh? ==>
      && DistinctFingerprints(e.op.paths)
      && forall p | p in e.op.paths :: owner(p.fingerprint) == e.id
  }

  /** What is listed for an address is in the current set of the owner, who is connected to that address. */
  ghost predicate TablesCurrent(owner: Fingerprint -> Id, w: World) {
    && Consistent(w.maps)
    && forall r, fp, t | Lists(w.maps, r, fp, t) ::
         owner(fp).remote == r && Announces(CurrentSet(w, owner(fp)), fp)
  }

  /** A connection is introduced or remembers nothing; what it remembers is its own and, when the
      fingerprint is in the current set, is the path object of that set. */
  ghost predicate ClientCurrent(owner: Fingerprint -> Id, w: World, id: Id) {
    var c := ClientOf(w, id);
    && (c == NEW_CLIENT.(preferences := c.preferences) || (c.local == Some(id.local) && c.remote == Some(id.remote)))
    && forall fp | fp in c.paths && c.paths[fp].Some? ::
         && owner(fp) == id
         && (Announces(CurrentSet(w, id), fp) ==> c.paths[fp].value in CurrentSet(w, id))
  }

  ghost predicate Good(owner: Fingerprint -> Id, w: World) {
    TablesCurrent(owner, w) && forall id :: ClientCurrent(owner, w, id)
  }

  lemma FlushLists(m: Maps, raddr: Addr, ps: seq<PanPath>, r: Addr, fp: Fingerprint, t: Table)
    requires Lists(Flush(m, raddr, ps), r, fp, t)
    ensures if r == raddr then Announces(ps, fp) else Lists(m, r, fp, t)
  {
    var c := ClearAddr(m, raddr);
    SetPathsFacts(c, raddr, ps);
    if r != raddr {
      assert Lookup(Flush(m, raddr, ps).lpaths, r) == Lookup(c.lpaths, r) == Lookup(m.lpaths, r);
    }
  }

  lemma TravelKeepsFingerprints(ps: seq<PanPath>)
    ensures var qs := FromWire(ToWire(ps));
            && (DistinctFingerprints(ps) ==> DistinctFingerprints(qs))
            && (forall fp :: Announces(qs, fp) ==> Announces(ps, fp))
  {
    TravelLosesForwardingOnly(ps);
    var qs := FromWire(ToWire(ps));
    forall i | 0 <= i < |ps| ensures qs[i].fingerprint == ps[i].fingerprint {
      assert SameButForwarding(ps[i], qs[i]);
    }
    forall fp | Announces(qs, fp) ensures Announces(ps, fp) {
      var i :| 0 <= i < |qs| && qs[i].fingerprint == fp;
      assert ps[i].fingerprint == fp;
    }
  }

  /** The daemon's tables after an announced set. */
  lemma AnnouncementKeepsTables(owner: Fingerprint -> Id, w: World, v: World, id: Id, ps: seq<PanPath>)
    requires TablesCurrent(owner, w)
    requires DistinctFingerprints(ps) && forall p | p in ps :: owner(p.fingerprint) == id
    requires v.maps == Flush(w.maps, id.remote, FromWire(ToWire(ps))) && v.current == w.current[id := ps]
    ensures TablesCurrent(owner, v)
  {
    var qs := FromWire(ToWire(ps));
    TravelKeepsFingerprints(ps);
    FlushConsistentExactly(w.maps, id.remote, qs);
    forall r, fp, t | Lists(v.maps, r, fp, t)
      ensures owner(fp).remote == r && Announces(CurrentSet(v, owner(fp)), fp)
    {
      FlushLists(w.maps, id.remote, qs, r, fp, t);
      if r == id.remote {
        assert Announces(qs, fp);
        var i :| 0 <= i < |ps| && ps[i].fingerprint == fp;
        assert ps[i] in ps;
      } else {
        assert Lists(w.maps, r, fp, t);
        assert CurrentSet(v, owner(fp)) == CurrentSet(w, owner(fp));
      }
    }
  }

  /** The announcing client's memory afterwards. */
  lemma AnnouncementKeepsClient(owner: Fingerprint -> Id, w: World, v: World, id: Id, ps: seq<PanPath>)
    requires ClientCurrent(owner, w, id)
    requires forall p | p in ps :: owner(p.fingerprint) == id
    requires ClientOf(v, id).paths == Remember(ClientOf(w, id).paths, ps) && CurrentSet(v, id) == ps
    requires ClientOf(v, id).local == Some(id.local) && ClientOf(v, id).remote == Some(id.remote)
    ensures ClientCurrent(owner, v, id)
  {
    var before, after := ClientOf(w, id).paths, ClientOf(v, id).paths;
    forall fp | fp in after && after[fp].Some?
      ensures owner(fp) == id && (Announces(ps, fp) ==> after[fp].value in ps)
    {
      RememberKeepsLast(before, ps, fp);
      LastInIsAnnounced(ps, fp);
      assert Lookup(after, fp) == Some(after[fp]);
      if !LastIn(ps, fp).Some? {
        assert Lookup(before, fp) == Some(after[fp]);
      }
    }
  }

  lemma OthersKept(w: World, e: Event, other: Id)
    requires other != e.id
    ensures ClientOf(Step(w, e).0, other) == ClientOf(w, other)
    ensures CurrentSet(Step(w, e).0, other) == CurrentSet(w, other)
  {
  }

  lemma OthersUntouched(owner: Fingerprint -> Id, w: World, e: Event, other: Id)
    requires ClientCurrent(owner, w, other) && other != e.id
    ensures ClientCurrent(owner, Step(w, e).0, other)
  {
    OthersKept(w, e, other);
  }

  lemma StepOfAnnouncement(w: World, e: Event)
    requires e.op.Initialize? || (e.op.Refresh? && ClientOf(w, e.id).local == Some(e.id.local)
                                                && ClientOf(w, e.id).remote == Some(e.id.remote))
    ensures var v := Step(w, e).0;
            && v.maps == Flush(w.maps, e.id.remote, FromWire(ToWire(e.op.paths)))
            && v.current == w.current[e.id := e.op.paths]
            && ClientOf(v, e.id).paths == Remember(ClientOf(w, e.id).paths, e.op.paths)
            && ClientOf(v, e.id).local == Some(e.id.local) && ClientOf(v, e.id).remote == Some(e.id.remote)
  {
  }

  lemma AnnouncementStep(owner: Fingerprint -> Id, w: World, e: Event)
    requires Good(owner, w) && WellAnnounced(owner, e)
    requires e.op.Initialize? || (e.op.Refresh? && ClientOf(w, e.id).remote.Some?)
    ensures TablesCurrent(owner, Step(w, e).0) && ClientCurrent(owner, Step(w, e).0, e.id)
  {
    assert ClientCurrent(owner, w, e.id);
    StepOfAnnouncement(w, e);
    AnnouncementKeepsTables(owner, w, Step(w, e).0, e.id, e.op.paths);
    AnnouncementKeepsClient(owner, w, Step(w, e).0, e.id, e.op.paths);
  }

  lemma OtherStep(owner: Fingerprint -> Id, w: World, e: Event)
    requires Good(owner, w)
    requires !e.op.Initialize? && !(e.op.Refresh? && ClientOf(w, e.id).remote.Some?)
    ensures TablesCurrent(owner, Step(w, e).0) && ClientCurrent(owner, Step(w, e).0, e.id)
  {
    var v := Step(w, e).0;
    assert ClientCurrent(owner, w, e.id);
    assert v.maps == w.maps && v.current == w.current;
    assert forall id :: CurrentSet(v, id) == CurrentSet(w, id);
    var c, d := ClientOf(w, e.id), ClientOf(v, e.id);
    assert || d == NEW_CLIENT
           || (d.local == c.local && d.remote == c.remote
               && (d.paths == c.paths || (e.op.PathDown? && d.paths == c.paths[e.op.fp := None])));
  }

  lemma StepKeepsGood(owner: Fingerprint -> Id, w: World, e: Event)
    requires Good(owner, w) && WellAnnounced(owner, e)
    ensures Good(owner, Step(w, e).0)
  {
    if e.op.Initialize? || (e.op.Refresh? && ClientOf(w, e.id).remote.Some?) {
      AnnouncementStep(owner, w, e);
    } else {
      OtherStep(owner, w, e);
    }
    forall id ensures ClientCurrent(owner, Step(w, e).0, id) {
      if id != e.id {
        OthersUntouched(owner, w, e, id);
      }
    }
  }

  /** What one call of Path may give the application. */
  lemma AnswerIsCurrent(owner: Fingerprint -> Id, w: World, e: Event)
    requires Good(owner, w)
    requires e.op.GetPath? && Step(w, e).1.Some?
    ensures Step(w, e).1.value in CurrentSet(w, e.id)
  {
    assert ClientCurrent(owner, w, e.id);
    var p := Resolve(w.maps, e.answer.value).value;
    assert Listed(w.maps, e.answer.value);
    var r, fp :| Lists(w.maps, r, fp, e.answer.value);
    assert fp == p.fingerprint;
  }

  ghost predicate AnswersCurrent(w: World, es: seq<Event>)
    decreases |es|
  {
    es == [] ||
    (&& (es[0].op.GetPath? && Step(w, es[0]).1.Some? ==> Step(w, es[0]).1.value in CurrentSet(w, es[0].id))
     && AnswersCurrent(Step(w, es[0]).0, es[1..]))
  }

  /** For every script and every run: a path an application gets is one of the set it announced last, so
      no script brings a withdrawn path back. */
  lemma {:induction false} EveryScriptAnswersCurrent(owner: Fingerprint -> Id, w: World, es: seq<Event>)
    requires Good(owner, w)
    requires forall e | e in es :: WellAnnounced(owner, e)
    ensures AnswersCurrent(w, es) && Good(owner, Run(w, es))
    decreases |es|
  {
    if es != [] {
      StepKeepsGood(owner, w, es[0]);
      if es[0].op.GetPath? && Step(w, es[0]).1.Some? {
        AnswerIsCurrent(owner, w, es[0]);
      }
      EveryScriptAnswersCurrent(owner, Step(w, es[0]).0, es[1..]);
    }
  }

  const START := World(map[], NEW, map[])

  lemma StartIsGood(owner: Fingerprint -> Id)
    ensures Good(owner, START)
  {
    NewIsConsistent();
  }

  // ----- a script that answers well is heard -----

  function Remembered(w: World, id: Id, fp: Fingerprint): Option<PanPath> {
    Lookup(ClientOf(w, id).paths, fp).GetOr(None)
  }

  ghost predicate Met(w: World, id: Id) {
    ClientOf(w, id).local == Some(id.local) && ClientOf(w, id).remote == Some(id.remote)
  }

  /** The table stands for a path of the connection, and the connection remembers `p` under its fingerprint. */
  ghost predicate Delivers(w: World, id: Id, fp: Fingerprint, t: Table, p: PanPath) {
    Met(w, id) && Lists(w.maps, id.remote, fp, t) && Remembered(w, id, fp) == Some(p)
  }

  /** The event leaves the set and the memory of the connection alone. */
  predicate Spares(e: Event, id: Id, fp: Fingerprint) {
    && (e.op.Initialize? || e.op.Refresh? ==> e.id.remote != id.remote)
    && (e.id == id ==> !e.op.Close? && !(e.op.PathDown? && e.op.fp == fp))
  }

  lemma MapsAfter(owner: Fingerprint -> Id, w: World, e: Event)
    requires ClientCurrent(owner, w, e.id)
    ensures Step(w, e).0.maps ==
            if e.op.Initialize? || (e.op.Refresh? && ClientOf(w, e.id).remote.Some?)
            then Flush(w.maps, e.id.remote, FromWire(ToWire(e.op.paths))) else w.maps
  {
    if e.op.Initialize? || (e.op.Refresh? && ClientOf(w, e.id).remote.Some?) {
      StepOfAnnouncement(w, e);
    }
  }

  /** What the connection does itself, but announce. */
  lemma OwnStepSpares(w: World, e: Event, fp: Fingerprint)
    requires Met(w, e.id) && Spares(e, e.id, fp)
    ensures Met(Step(w, e).0, e.id) && Remembered(Step(w, e).0, e.id, fp) == Remembered(w, e.id, fp)
  {
    var c, d := ClientOf(w, e.id), ClientOf(Step(w, e).0, e.id);
    assert d.local == c.local && d.remote == c.remote;
    assert d.paths == c.paths || (e.op.PathDown? && d.paths == c.paths[e.op.fp := None]);
  }

  lemma SparedStepDelivers(owner: Fingerprint -> Id, w: World, e: Event, id: Id, fp: Fingerprint, t: Table, p: PanPath)
    requires Good(owner, w) && Delivers(w, id, fp, t, p) && Spares(e, id, fp)
    ensures Delivers(Step(w, e).0, id, fp, t, p)
  {
    assert ClientCurrent(owner, w, e.id);
    MapsAfter(owner, w, e);
    if Step(w, e).0.maps != w.maps {
      OtherFlushKeeps(w.maps, FlushEvent(e.id.remote, FromWire(ToWire(e.op.paths))), id.remote, fp, t);
    }
    if e.id == id {
      OwnStepSpares(w, e, fp);
    } else {
      OthersKept(w, e, id);
    }
  }

  lemma {:induction false} SparedRunDelivers(owner: Fingerprint -> Id, w: World, es: seq<Event>, id: Id, fp: Fingerprint,
                                             t: Table, p: PanPath)
    requires Good(owner, w) && (forall e | e in es :: WellAnnounced(owner, e))
    requires Delivers(w, id, fp, t, p) && forall e | e in es :: Spares(e, id, fp)
    ensures Good(owner, Run(w, es)) && Delivers(Run(w, es), id, fp, t, p)
    decreases |es|
  {
    if es != [] {
      StepKeepsGood(owner, w, es[0]);
      SparedStepDelivers(owner, w, es[0], id, fp, t, p);
      SparedRunDelivers(owner, Step(w, es[0]).0, es[1..], id, fp, t, p);
    }
  }

  /** An announcement hands out a table for each of its paths. */
  lemma AnnouncementDelivers(owner: Fingerprint -> Id, w: World, e: Event, n: nat)
    requires Good(owner, w) && WellAnnounced(owner, e) && e.op.Initialize? && n < |e.op.paths|
    ensures Good(owner, Step(w, e).0)
    ensures Delivers(Step(w, e).0, e.id, e.op.paths[n].fingerprint, w.maps.next + n, e.op.paths[n])
  {
    var ps := e.op.paths;
    var fp, qs := ps[n].fingerprint, FromWire(ToWire(ps));
    StepKeepsGood(owner, w, e);
    StepOfAnnouncement(w, e);
    TravelKeepsFingerprints(ps);
    TravelKeepsFingerprintAt(ps, n);
    FlushHandsOut(w.maps, e.id.remote, qs, n);
    RememberKeepsLast(ClientOf(w, e.id).paths, ps, fp);
    LastInIsAnnounced(ps, fp);
    OnlyOneAnnounced(ps, n);
  }

  lemma OnlyOneAnnounced(ps: seq<PanPath>, n: nat)
    requires DistinctFingerprints(ps) && n < |ps|
    ensures LastIn(ps, ps[n].fingerprint) == Some(ps[n])
  {
    LastInIsAnnounced(ps, ps[n].fingerprint);
    assert Announces(ps, ps[n].fingerprint);
    var k :| 0 <= k < |ps| && ps[k] == LastIn(ps, ps[n].fingerprint).value;
  }

  lemma Delivered(w: World, id: Id, fp: Fingerprint, t: Table, p: PanPath)
    requires Consistent(w.maps) && Delivers(w, id, fp, t, p)
    ensures Step(w, Event(id, GetPath, Some(t))).1 == Some(p)
  {
    assert Listed(w.maps, t);
    GetPathReturns(w, id, t, Resolve(w.maps, t).value);
  }

  /** Once an announcement has handed out a table for a path, a script that answers with it makes the
      connection get its own path object, whatever happens in between, as long as no new set is announced for
      the address, and the connection neither reports the path down nor closes. */
  lemma CurrentPathIsDelivered(owner: Fingerprint -> Id, w: World, es: seq<Event>, id: Id, fp: Fingerprint, t: Table, p: PanPath)
    requires Good(owner, w) && Delivers(w, id, fp, t, p)
    requires forall e | e in es :: WellAnnounced(owner, e) && Spares(e, id, fp)
    ensures Step(Run(w, es), Event(id, GetPath, Some(t))).1 == Some(p)
  {
    SparedRunDelivers(owner, w, es, id, fp, t, p);
    Delivered(Run(w, es), id, fp, t, p);
  }

  // ----- where the assumptions are needed -----

  /** Without assumptions on fingerprints: a script can make a client return a path outside its current
      set exactly when some address lists a fingerprint under which the client remembers such a path. */
  lemma WithdrawnReturnsExactly(w: World, id: Id)
    requires Consistent(w.maps)
    requires ClientOf(w, id).local == Some(id.local) && ClientOf(w, id).remote == Some(id.remote)
    ensures (exists t: Table :: var p := Step(w, Event(id, GetPath, Some(t))).1; p.Some? && p.value !in CurrentSet(w, id)) <==>
            (exists r, fp, t :: Lists(w.maps, r, fp, t) && Remembered(w, id, fp).Some?
                                && Remembered(w, id, fp).value !in CurrentSet(w, id))
  {
    forall t: Table
      ensures Step(w, Event(id, GetPath, Some(t))).1 ==
              if Resolve(w.maps, t).Some? then Remembered(w, id, Resolve(w.maps, t).value.fingerprint) else None
    {
    }
    if r, fp, t :| Lists(w.maps, r, fp, t) && Remembered(w, id, fp).Some? && Remembered(w, id, fp).value !in CurrentSet(w, id) {
      assert Listed(w.maps, t);
      assert Step(w, Event(id, GetPath, Some(t))).1 == Remembered(w, id, fp);
    }
    if t: Table :| var p := Step(w, Event(id, GetPath, Some(t))).1; p.Some? && p.value !in CurrentSet(w, id) {
      assert Listed(w.maps, t);
      var r, fp :| Lists(w.maps, r, fp, t);
      assert Remembered(w, id, fp).Some?;
    }
  }

  // ----- which announcements no script can exploit -----

  /** What the connections may announce. */
  type Policy = (Id, seq<PanPath>) -> bool

  predicate Permitted(may: Policy, e: Event) {
    e.op.Initialize? || e.op.Refresh? ==> may(e.id, e.op.paths)
  }

  /** From the start of the daemon, whatever its script does, an application only gets current paths. */
  ghost predicate Harmless(may: Policy) {
    forall es: seq<Event> | (forall e | e in es :: Permitted(may, e)) :: AnswersCurrent(START, es)
  }

  /** No set has a fingerprint twice, and no two connections share one. */
  ghost predicate Separate(may: Policy) {
    && (forall id, ps | may(id, ps) :: DistinctFingerprints(ps))
    && (forall a, b, ps, qs, fp | MayAnnounce(may, a, ps, fp) && MayAnnounce(may, b, qs, fp) :: a == b)
  }

  ghost predicate MayAnnounce(may: Policy, id: Id, ps: seq<PanPath>, fp: Fingerprint) {
    may(id, ps) && Announces(ps, fp)
  }

  ghost function OwnerUnder(may: Policy, fp: Fingerprint): Id {
    if id, ps :| MayAnnounce(may, id, ps, fp) then id else Id("", "")
  }

  lemma SeparateIsHarmless(may: Policy)
    requires Separate(may)
    ensures Harmless(may)
  {
    var owner := (fp: Fingerprint) => OwnerUnder(may, fp);
    forall es: seq<Event> | forall e | e in es :: Permitted(may, e) ensures AnswersCurrent(START, es) {
      forall e | e in es ensures WellAnnounced(owner, e) {
        if e.op.Initialize? || e.op.Refresh? {
          forall p | p in e.op.paths ensures owner(p.fingerprint) == e.id {
            var i :| 0 <= i < |e.op.paths| && e.op.paths[i] == p;
            assert MayAnnounce(may, e.id, e.op.paths, p.fingerprint);
          }
        }
      }
      StartIsGood(owner);
      EveryScriptAnswersCurrent(owner, START, es);
    }
  }

  lemma {:induction false} LastAnswer(w: World, es: seq<Event>, e: Event)
    requires AnswersCurrent(w, es + [e])
    ensures var v := Run(w, es);
            e.op.GetPath? && Step(v, e).1.Some? ==> Step(v, e).1.value in CurrentSet(v, e.id)
    decreases |es|
  {
    if es == [] {
      assert es + [e] == [e];
    } else {
      assert (es + [e])[1..] == es[1..] + [e];
      LastAnswer(Step(w, es[0]).0, es[1..], e);
    }
  }

  /** A connection that announces a set and then the empty set: it remembers paths, and has none. */
  lemma Withdrawn(id: Id, ps: seq<PanPath>, fp: Fingerprint) returns (es: seq<Event>, later: seq<FlushEvent>)
    requires Announces(ps, fp)
    ensures forall e | e in es :: e.id == id && (e.op == Initialize(ps) || e.op == Refresh([]))
    ensures var w, qs := Run(START, es), FromWire(ToWire(ps));
            && w.maps == PathTranslation.Run(Flush(NEW, id.remote, qs), later)
            && w.maps.next == |ps|
            && CurrentSet(w, id) == []
            && ClientOf(w, id).local == Some(id.local) && ClientOf(w, id).remote == Some(id.remote)
            && Remembered(w, id, fp).Some?
  {
    var e0, e1 := Event(id, Initialize(ps), None), Event(id, Refresh([]), None);
    var w1 := Step(START, e0).0;
    es, later := [e0, e1], [FlushEvent(id.remote, [])];
    StepOfAnnouncement(START, e0);
    StepOfAnnouncement(w1, e1);
    var w := Step(w1, e1).0;
    assert es[1..] == [e1] && Run(w1, [e1]) == w;
    RememberKeepsLast(map[], ps, fp);
    LastInIsAnnounced(ps, fp);
    TravelLosesForwardingOnly(ps);
    assert later[1..] == [];
    assert PathTranslation.Run(w1.maps, later) == Flush(w1.maps, id.remote, []);
    assert FromWire(ToWire([])) == [];
    SetPathsFacts(ClearAddr(NEW, id.remote), id.remote, FromWire(ToWire(ps)));
    SetPathsFacts(ClearAddr(w1.maps, id.remote), id.remote, []);
  }

  lemma {:induction false} RunOneMore(w: World, es: seq<Event>, e: Event)
    ensures Run(w, es + [e]) == Step(Run(w, es), e).0
    decreases |es|
  {
    if es == [] {
      assert (es + [e])[1..] == [];
    } else {
      assert (es + [e])[1..] == es[1..] + [e];
      RunOneMore(Step(w, es[0]).0, es[1..], e);
    }
  }

  lemma GetPathReturns(w: World, id: Id, t: Table, p: PanPath)
    requires ClientOf(w, id).local == Some(id.local) && ClientOf(w, id).remote == Some(id.remote)
    requires Resolve(w.maps, t) == Some(p)
    ensures Step(w, Event(id, GetPath, Some(t))).1 == Remembered(w, id, p.fingerprint)
  {
  }

  lemma HarmfulRun(may: Policy, es: seq<Event>, id: Id, t: Table, p: PanPath)
    requires forall e | e in es :: Permitted(may, e)
    requires var w := Run(START, es);
             && ClientOf(w, id).local == Some(id.local) && ClientOf(w, id).remote == Some(id.remote)
             && Resolve(w.maps, t) == Some(p)
             && Remembered(w, id, p.fingerprint).Some? && CurrentSet(w, id) == []
    ensures !Harmless(may)
  {
    var e := Event(id, GetPath, Some(t));
    GetPathReturns(Run(START, es), id, t, p);
    assert forall x | x in es + [e] :: Permitted(may, x);
    if AnswersCurrent(START, es + [e]) {
      LastAnswer(START, es, e);
    }
  }

  lemma TravelKeepsFingerprintAt(ps: seq<PanPath>, i: nat)
    requires i < |ps|
    ensures |FromWire(ToWire(ps))| == |ps| && FromWire(ToWire(ps))[i].fingerprint == ps[i].fingerprint
  {
    TravelLosesForwardingOnly(ps);
    assert SameButForwarding(ps[i], FromWire(ToWire(ps))[i]);
  }

  lemma RepeatedStands(m: Maps, raddr: Addr, ps: seq<PanPath>, later: seq<FlushEvent>, i: nat, j: nat)
    requires Consistent(m)
    requires i < j < |ps| && ps[i].fingerprint == ps[j].fingerprint
    ensures var p := Resolve(PathTranslation.Run(Flush(m, raddr, FromWire(ToWire(ps))), later), m.next + i);
            p.Some? && p.value.fingerprint == ps[i].fingerprint
  {
    var e := FlushEvent(raddr, FromWire(ToWire(ps)));
    TravelKeepsFingerprintAt(ps, i);
    TravelKeepsFingerprintAt(ps, j);
    DuplicateIsNeverFlushed(m, e, later, i, j);
  }

  /** A set with a fingerprint twice: the table of the earlier path is never flushed. */
  lemma RepeatedFingerprintHarms(may: Policy, id: Id, ps: seq<PanPath>, i: nat, j: nat)
    requires may(id, ps) && may(id, [])
    requires i < j < |ps| && ps[i].fingerprint == ps[j].fingerprint
    ensures !Harmless(may)
  {
    var es, later := Withdrawn(id, ps, ps[i].fingerprint);
    var w := Run(START, es);
    NewIsConsistent();
    RepeatedStands(NEW, id.remote, ps, later, i, j);
    var p := Resolve(w.maps, i).value;
    HarmfulRun(may, es, id, i, p);
  }

  /** The table a set brings for the given fingerprint. */
  lemma AnnouncedTable(m: Maps, raddr: Addr, ps: seq<PanPath>, fp: Fingerprint) returns (t: Table, p: PanPath)
    requires Announces(ps, fp)
    ensures Resolve(Flush(m, raddr, FromWire(ToWire(ps))), t) == Some(p) && p.fingerprint == fp
  {
    var i :| 0 <= i < |ps| && ps[i].fingerprint == fp;
    var qs := FromWire(ToWire(ps));
    TravelKeepsFingerprintAt(ps, i);
    SetPathsResolves(ClearAddr(m, raddr), raddr, qs, i);
    t, p := m.next + i, qs[i];
  }

  /** Two connections that share a fingerprint: the second brings the path of the first back. */
  lemma SharedFingerprintHarms(may: Policy, a: Id, ps: seq<PanPath>, b: Id, qs: seq<PanPath>, fp: Fingerprint)
    requires may(a, ps) && may(a, []) && may(b, qs)
    requires a != b && Announces(ps, fp) && Announces(qs, fp)
    ensures !Harmless(may)
  {
    var es, later := Withdrawn(a, ps, fp);
    var w, e := Run(START, es), Event(b, Initialize(qs), None);
    var t, p := AnnouncedTable(w.maps, b.remote, qs, fp);
    RunOneMore(START, es, e);
    StepOfAnnouncement(w, e);
    OthersKept(w, e, a);
    HarmfulRun(may, es + [e], a, t, p);
  }

  /** No script can make an application get a path outside its current set if and only if the sets the
      connections may announce have no fingerprint twice, and no two connections share one. A connection
      may always announce that it has no paths. */
  lemma HarmlessExactly(may: Policy)
    requires forall id :: may(id, [])
    ensures Harmless(may) <==> Separate(may)
  {
    if Separate(may) {
      SeparateIsHarmless(may);
    } else if id: Id, ps: seq<PanPath> :| may(id, ps) && !DistinctFingerprints(ps) {
      var i, j :| 0 <= i < j < |ps| && ps[i].fingerprint == ps[j].fingerprint;
      RepeatedFingerprintHarms(may, id, ps, i, j);
    } else {
      var a: Id, b: Id, ps: seq<PanPath>, qs: seq<PanPath>, fp: Fingerprint :| MayAnnounce(may, a, ps, fp) && MayAnnounce(may, b, qs, fp) && a != b;
      SharedFingerprintHarms(may, a, ps, b, qs, fp);
    }
  }

  /** One client for each remote. */
  ghost predicate OneClientPerRemote(ids: set<Id>) {
    forall a, b | a in ids && b in ids && a.remote == b.remote :: a == b
  }

  /** The connections announce fingerprints of their remotes, each once. */
  ghost predicate OfRemote(home: Fingerprint -> Addr, ids: set<Id>, id: Id, ps: seq<PanPath>) {
    ps == [] || (id in ids && DistinctFingerprints(ps) && forall p | p in ps :: home(p.fingerprint) == id.remote)
  }

  /** When fingerprints are distinct within a set and belong to one remote, it comes down to one client for
      each remote. */
  lemma HarmlessWithOneClientExactly(home: Fingerprint -> Addr, ids: set<Id>)
    requires forall id | id in ids :: exists fp :: home(fp) == id.remote
    ensures Harmless((id, ps) => OfRemote(home, ids, id, ps)) <==> OneClientPerRemote(ids)
  {
    var may: Policy := (id, ps) => OfRemote(home, ids, id, ps);
    HarmlessExactly(may);
    if OneClientPerRemote(ids) {
      forall a: Id, b: Id, ps: seq<PanPath>, qs: seq<PanPath>, fp: Fingerprint | MayAnnounce(may, a, ps, fp) && MayAnnounce(may, b, qs, fp) ensures a == b {
        var i :| 0 <= i < |ps| && ps[i].fingerprint == fp;
        var j :| 0 <= j < |qs| && qs[j].fingerprint == fp;
        assert ps[i] in ps && qs[j] in qs;
      }
    } else {
      var a, b :| a in ids && b in ids && a.remote == b.remote && a != b;
      var fp :| home(fp) == a.remote;
      var ps := [PanPath("", "", None, fp, None, 0)];
      assert ps[0].fingerprint == fp;
      assert MayAnnounce(may, a, ps, fp) && MayAnnounce(may, b, ps, fp);
    }
  }
}
