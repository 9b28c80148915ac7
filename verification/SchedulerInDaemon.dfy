/** The load-aware scheduler as the daemon's script: which of the tables it returns still stand for a
    path, over every run of both together. */
module SchedulerInDaemon {
  import opened Options
  import opened LuaTables
  import Scheduler = SchedulerModel
  import Invariants = SchedulerInvariants
  import Liveness = SchedulerLiveness
  import Accounting = SchedulerAccounting
  import Translation = PathTranslation
  import Records = PathRecords

  type Addr = string
  type Fingerprint = string

  datatype Daemon = Daemon(script: Scheduler.Tables, maps: Translation.Maps)

  /** Announcements go through the translation; everything else only concerns the script. `sorted` is what
      the script's sort makes of the tables it is given. */
  datatype Event =
    | Announcement(laddr: Addr, raddr: Addr, prefs: Option<Scheduler.Prefs>, paths: seq<Records.PanPath>,
                   sorted: seq<Scheduler.Path>, now: int)
    | Other(event: Scheduler.Event)

  /** The tables made for an announced set, the first of them having the number `first`. */
  function Tables(first: int, ps: seq<Records.PanPath>): seq<Scheduler.Path> {
    seq(|ps|, i requires 0 <= i < |ps| => Scheduler.Path(first + i, ps[i].fingerprint))
  }

  /** Initialize passes preferences to the script; Refresh passes none. */
  function ScriptEvent(e: Event): Scheduler.Event {
    match e
    case Announcement(l, r, prefs, _, sorted, now) =>
      if prefs.Some? then Scheduler.OnInitialize(l, r, prefs, sorted, now) else Scheduler.OnRefresh(l, r, sorted, now)
    case Other(event) => event
  }

  function Step(d: Daemon, e: Event): Daemon {
    Daemon(Scheduler.Step(d.script, ScriptEvent(e)),
           if e.Announcement? then Translation.Flush(d.maps, e.raddr, e.paths) else d.maps)
  }

  function Run(d: Daemon, es: seq<Event>): Daemon
    decreases |es|
  {
    if es == [] then d else Run(Step(d, es[0]), es[1..])
  }

  /** The set announced last for each remote that one was announced for. */
  type Sets = map<Addr, seq<Records.PanPath>>

  function Announced(sets: Sets, e: Event): Sets {
    if e.Announcement? then sets[e.raddr := e.paths] else sets
  }

  function AllAnnounced(sets: Sets, es: seq<Event>): Sets
    decreases |es|
  {
    if es == [] then sets else AllAnnounced(Announced(sets, es[0]), es[1..])
  }

  function LastSet(sets: Sets, raddr: Addr): seq<Records.PanPath> {
    Lookup(sets, raddr).GetOr([])
  }

  /** The events of the daemon, `sets` being those announced last: each set has distinct
      fingerprints of its own remote, each local address serves one remote, and a client reports a path of
      its remote down, after it has announced paths for it. The state only bounds what the script may choose. */
  ghost predicate Possible(remoteOf: Fingerprint -> Addr, home: Addr -> Addr, sets: Sets, d: Daemon, e: Event) {
    match e
    case Announcement(_, raddr, _, paths, sorted, _) =>
      && multiset(sorted) == multiset(Tables(d.maps.next, paths))
      && Records.DistinctFingerprints(paths)
      && forall p | p in paths :: remoteOf(p.fingerprint) == raddr
    case Other(event) =>
      && !event.OnInitialize? && !event.OnRefresh?
      && Scheduler.Legal(d.script, event) && Liveness.SingleHomed(home, event)
      && (event.OnPathDown? ==> event.raddr in sets && remoteOf(event.fp) == event.raddr)
  }

  ghost predicate AllPossible(remoteOf: Fingerprint -> Addr, home: Addr -> Addr, sets: Sets, d: Daemon, es: seq<Event>)
    decreases |es|
  {
    es == [] ||
    (Possible(remoteOf, home, sets, d, es[0]) &&
     AllPossible(remoteOf, home, Announced(sets, es[0]), Step(d, es[0]), es[1..]))
  }

  /** The daemon lists the fingerprint for its remote. */
  predicate StillListed(remoteOf: Fingerprint -> Addr, m: Translation.Maps, fp: Fingerprint) {
    remoteOf(fp) in m.lpaths && fp in m.lpaths[remoteOf(fp)]
  }

  /** The table the script has for the fingerprint is the listed one if there is one, and
      stands for nothing otherwise. */
  ghost predicate TableKnown(remoteOf: Fingerprint -> Addr, m: Translation.Maps, fp: Fingerprint, p: Scheduler.Path) {
    && p.fingerprint == fp && p.table < m.next
    && (if StillListed(remoteOf, m, fp) then Translation.Lists(m, remoteOf(fp), fp, p.table)
        else Translation.Resolve(m, p.table) == None)
  }

  ghost predicate Agree(remoteOf: Fingerprint -> Addr, d: Daemon) {
    && Translation.Consistent(d.maps)
    && forall fp | fp in d.script.fp2path :: TableKnown(remoteOf, d.maps, fp, d.script.fp2path[fp])
  }

  // ----- announcements -----

  lemma StillListedAfter(remoteOf: Fingerprint -> Addr, m: Translation.Maps, raddr: Addr, ps: seq<Records.PanPath>, fp: Fingerprint)
    ensures StillListed(remoteOf, Translation.Flush(m, raddr, ps), fp) <==>
            if remoteOf(fp) == raddr then Records.Announces(ps, fp) else StillListed(remoteOf, m, fp)
  {
    var c := Translation.ClearAddr(m, raddr);
    Translation.SetPathsFacts(c, raddr, ps);
    if remoteOf(fp) != raddr {
      assert Lookup(Translation.Flush(m, raddr, ps).lpaths, remoteOf(fp)) == Lookup(c.lpaths, remoteOf(fp));
    }
  }

  /** A table the script keeps from before the announcement. */
  lemma OldTableKnown(remoteOf: Fingerprint -> Addr, m: Translation.Maps, raddr: Addr, ps: seq<Records.PanPath>,
                      fp: Fingerprint, p: Scheduler.Path)
    requires Translation.Consistent(m) && TableKnown(remoteOf, m, fp, p)
    requires !Records.Announces(ps, fp)
    ensures TableKnown(remoteOf, Translation.Flush(m, raddr, ps), fp, p)
  {
    var e := Translation.FlushEvent(raddr, ps);
    StillListedAfter(remoteOf, m, raddr, ps, fp);
    Translation.SetPathsFacts(Translation.ClearAddr(m, raddr), raddr, ps);
    if StillListed(remoteOf, m, fp) {
      if remoteOf(fp) == raddr {
        Translation.OwnFlushKills(m, e, fp, p.table);
      } else {
        Translation.OtherFlushKeeps(m, e, remoteOf(fp), fp, p.table);
      }
    } else {
      StaysStale(m, e, p.table);
    }
  }

  lemma StaysStale(m: Translation.Maps, e: Translation.FlushEvent, t: int)
    requires t < m.next && Translation.Resolve(m, t) == None
    ensures Translation.Resolve(Translation.Flush(m, e.raddr, e.paths), t) == None
  {
    Translation.StaleStays(m, [e], t);
    assert [e][1..] == [];
    assert Translation.Run(m, [e]) == Translation.Flush(m, e.raddr, e.paths);
  }

  /** A table the announcement has brought. */
  lemma NewTableKnown(remoteOf: Fingerprint -> Addr, m: Translation.Maps, raddr: Addr, ps: seq<Records.PanPath>, p: Scheduler.Path)
    requires Translation.Consistent(m) && Records.DistinctFingerprints(ps)
    requires forall q | q in ps :: remoteOf(q.fingerprint) == raddr
    requires p in Tables(m.next, ps)
    ensures Records.Announces(ps, p.fingerprint)
    ensures TableKnown(remoteOf, Translation.Flush(m, raddr, ps), p.fingerprint, p)
  {
    var i :| 0 <= i < |ps| && Tables(m.next, ps)[i] == p;
    assert ps[i] in ps;
    StillListedAfter(remoteOf, m, raddr, ps, p.fingerprint);
    Translation.FlushHandsOut(m, raddr, ps, i);
    Translation.SetPathsFacts(Translation.ClearAddr(m, raddr), raddr, ps);
  }

  lemma AnnouncementKeepsAgreementAt(remoteOf: Fingerprint -> Addr, d: Daemon, e: Event, fp: Fingerprint, g: Scheduler.Tables)
    requires Agree(remoteOf, d) && e.Announcement?
    requires forall p :: p in e.sorted <==> p in Tables(d.maps.next, e.paths)
    requires Records.DistinctFingerprints(e.paths) && forall p | p in e.paths :: remoteOf(p.fingerprint) == e.raddr
    requires g.fp2path == d.script.fp2path
    requires fp in Scheduler.Announce(g, e.raddr, e.sorted).fp2path
    ensures TableKnown(remoteOf, Translation.Flush(d.maps, e.raddr, e.paths), fp,
                       Scheduler.Announce(g, e.raddr, e.sorted).fp2path[fp])
  {
    var p := Scheduler.Announce(g, e.raddr, e.sorted).fp2path[fp];
    Liveness.AnnounceTables(g, e.raddr, e.sorted, fp);
    var i := Liveness.LastIndex(e.sorted, fp);
    assert Lookup(Scheduler.Announce(g, e.raddr, e.sorted).fp2path, fp) == Some(p);
    if i.Some? {
      NewTableKnown(remoteOf, d.maps, e.raddr, e.paths, e.sorted[i.value]);
    } else {
      assert Lookup(d.script.fp2path, fp) == Some(p);
      UnsortedIsUnannounced(d.maps.next, e.paths, e.sorted, fp);
      OldTableKnown(remoteOf, d.maps, e.raddr, e.paths, fp, p);
    }
  }

  lemma UnsortedIsUnannounced(first: int, ps: seq<Records.PanPath>, sorted: seq<Scheduler.Path>, fp: Fingerprint)
    requires forall p :: p in sorted <==> p in Tables(first, ps)
    requires forall j | 0 <= j < |sorted| :: sorted[j].fingerprint != fp
    ensures !Records.Announces(ps, fp)
  {
    forall i | 0 <= i < |ps| ensures ps[i].fingerprint != fp {
      assert Tables(first, ps)[i] in sorted;
    }
  }

  lemma ScriptAfterAnnouncement(s: Scheduler.Tables, e: Event)
    requires e.Announcement?
    ensures Scheduler.Step(s, ScriptEvent(e)).fp2path ==
            Scheduler.Announce(Scheduler.Greet(s, e.laddr, e.raddr, e.now), e.raddr, e.sorted).fp2path
    ensures Scheduler.Greet(s, e.laddr, e.raddr, e.now).fp2path == s.fp2path
  {
  }

  lemma AnnouncementKeepsAgreement(remoteOf: Fingerprint -> Addr, d: Daemon, e: Event)
    requires Agree(remoteOf, d) && e.Announcement?
    requires multiset(e.sorted) == multiset(Tables(d.maps.next, e.paths))
    requires Records.DistinctFingerprints(e.paths) && forall p | p in e.paths :: remoteOf(p.fingerprint) == e.raddr
    ensures Agree(remoteOf, Step(d, e))
  {
    Translation.FlushConsistentExactly(d.maps, e.raddr, e.paths);
    SameElements(e.sorted, Tables(d.maps.next, e.paths));
    ScriptAfterAnnouncement(d.script, e);
    var t := Step(d, e);
    forall fp | fp in t.script.fp2path ensures TableKnown(remoteOf, t.maps, fp, t.script.fp2path[fp]) {
      AnnouncementKeepsAgreementAt(remoteOf, d, e, fp, Scheduler.Greet(d.script, e.laddr, e.raddr, e.now));
    }
  }

  lemma OtherKeepsPaths(s: Scheduler.Tables, e: Scheduler.Event)
    requires Invariants.Core(s) && !e.OnInitialize? && !e.OnRefresh?
    ensures var t := Scheduler.Step(s, e); t.fp2path == s.fp2path || (e.OnPathDown? && t.fp2path == s.fp2path - {e.fp})
  {
    if e.OnPath? {
      Accounting.MovesExactly(s, e);
    } else if e.OnPathDown? {
      assert Scheduler.PathDown(s, e.raddr, e.fp).0.fp2path == s.fp2path - {e.fp};
    } else {
      match e
      case OnSetPreferences(l, prefs) => Accounting.SetPreferencesKeepsClock(s, prefs, l);
      case OnClose(l) => Accounting.CloseKeepsClock(s, l);
      case _ =>
    }
  }

  // ----- lists -----

  /** Announced remotes have a list, and lists have fingerprints of their own remote only. */
  ghost predicate ListsApart(remoteOf: Fingerprint -> Addr, known: set<Addr>, s: Scheduler.Tables) {
    && known <= s.raddr2fps.Keys
    && forall r, fp | r in s.raddr2fps && fp in s.raddr2fps[r] :: remoteOf(fp) == r
  }

  lemma PossibleIsOrderly(remoteOf: Fingerprint -> Addr, home: Addr -> Addr, sets: Sets, d: Daemon, e: Event)
    requires ListsApart(remoteOf, sets.Keys, d.script) && Possible(remoteOf, home, sets, d, e)
    ensures Liveness.Orderly(home, d.script, ScriptEvent(e))
  {
  }

  lemma InitializeKeepsListsApart(remoteOf: Fingerprint -> Addr, known: set<Addr>, s: Scheduler.Tables,
                                  prefs: Option<Scheduler.Prefs>, laddr: Addr, raddr: Addr, ps: seq<Scheduler.Path>, now: int)
    requires ListsApart(remoteOf, known, s)
    requires forall p | p in ps :: remoteOf(p.fingerprint) == raddr
    ensures ListsApart(remoteOf, known + {raddr}, Scheduler.Initialize(s, prefs, laddr, raddr, ps, now).0)
  {
    Liveness.InitializeLists(s, prefs, laddr, raddr, ps, now);
    var t := Scheduler.Initialize(s, prefs, laddr, raddr, ps, now).0;
    forall r, fp | r in t.raddr2fps && fp in t.raddr2fps[r] ensures remoteOf(fp) == r {
      assert r != raddr ==> fp in s.raddr2fps[r];
    }
  }

  lemma SortedBelong(remoteOf: Fingerprint -> Addr, first: int, ps: seq<Records.PanPath>, sorted: seq<Scheduler.Path>, raddr: Addr)
    requires multiset(sorted) == multiset(Tables(first, ps))
    requires forall p | p in ps :: remoteOf(p.fingerprint) == raddr
    ensures forall p | p in sorted :: remoteOf(p.fingerprint) == raddr
  {
    SameElements(sorted, Tables(first, ps));
    forall p | p in sorted ensures remoteOf(p.fingerprint) == raddr {
      var i :| 0 <= i < |ps| && Tables(first, ps)[i] == p;
      assert ps[i] in ps;
    }
  }

  lemma AnnouncementKeepsListsApart(remoteOf: Fingerprint -> Addr, home: Addr -> Addr, sets: Sets, d: Daemon, e: Event)
    requires ListsApart(remoteOf, sets.Keys, d.script) && Possible(remoteOf, home, sets, d, e) && e.Announcement?
    ensures ListsApart(remoteOf, Announced(sets, e).Keys, Step(d, e).script)
  {
    SortedBelong(remoteOf, d.maps.next, e.paths, e.sorted, e.raddr);
    assert Announced(sets, e).Keys == sets.Keys + {e.raddr};
    InitializeKeepsListsApart(remoteOf, sets.Keys, d.script, e.prefs, e.laddr, e.raddr, e.sorted, e.now);
  }

  lemma OtherKeepsListsApart(remoteOf: Fingerprint -> Addr, known: set<Addr>, s: Scheduler.Tables, e: Scheduler.Event)
    requires Invariants.Core(s) && ListsApart(remoteOf, known, s)
    requires !e.OnInitialize? && !e.OnRefresh? && Scheduler.KnownRemote(s, e)
    ensures ListsApart(remoteOf, known, Scheduler.Step(s, e))
  {
    if e.OnPath? {
      Accounting.MovesExactly(s, e);
    } else if e.OnPathDown? {
      Invariants.PathDownExact(s, e.raddr, e.fp);
      WithoutMembers(s.raddr2fps[e.raddr], e.fp);
    } else {
      OthersKeepLists(s, e);
    }
  }

  lemma OthersKeepLists(s: Scheduler.Tables, e: Scheduler.Event)
    requires !Accounting.Timed(e) && !e.OnPathDown?
    ensures Scheduler.Step(s, e).raddr2fps == s.raddr2fps
  {
    match e
    case OnSetPreferences(l, prefs) => Liveness.SetPreferencesOnlyDrops(s, prefs, l);
    case OnClose(l) => Liveness.CloseOnlyDrops(s, l);
    case OnSentPacket(l, size) => Liveness.SentPacketOnlyDrops(s, l, size);
    case OnUpdatedMetrics(l, rtt) => Liveness.UpdatedMetricsOnlyDrops(s, l, rtt);
    case OnPeriodic =>
  }

  // ----- the daemon's map holds what was announced last -----

  /** What is listed for a remote are the fingerprints of the set announced last for it, and the listed
      tables stand for paths of that set. */
  ghost predicate MapsHold(sets: Sets, m: Translation.Maps) {
    && (forall r, fp :: fp in Lookup(m.lpaths, r).GetOr(map[]) <==> Records.Announces(LastSet(sets, r), fp))
    && (forall r, fp, t | Translation.Lists(m, r, fp, t) ::
          Translation.Resolve(m, t).Some? && Translation.Resolve(m, t).value in LastSet(sets, r))
  }

  lemma FlushedFingerprints(m: Translation.Maps, raddr: Addr, ps: seq<Records.PanPath>, r: Addr, fp: Fingerprint)
    ensures fp in Lookup(Translation.Flush(m, raddr, ps).lpaths, r).GetOr(map[]) <==>
            if r == raddr then Records.Announces(ps, fp) else fp in Lookup(m.lpaths, r).GetOr(map[])
  {
    var c := Translation.ClearAddr(m, raddr);
    Translation.SetPathsFacts(c, raddr, ps);
    if r != raddr {
      assert Lookup(Translation.Flush(m, raddr, ps).lpaths, r) == Lookup(c.lpaths, r);
    }
  }

  lemma FlushedTables(m: Translation.Maps, raddr: Addr, ps: seq<Records.PanPath>, r: Addr, fp: Fingerprint, t: int)
    requires Translation.Consistent(m) && Records.DistinctFingerprints(ps)
    requires Translation.Lists(Translation.Flush(m, raddr, ps), r, fp, t)
    ensures var p := Translation.Resolve(Translation.Flush(m, raddr, ps), t);
            if r == raddr then p.Some? && p.value in ps
            else Translation.Lists(m, r, fp, t) && p == Translation.Resolve(m, t)
  {
    var f := Translation.Flush(m, raddr, ps);
    FlushedFingerprints(m, raddr, ps, r, fp);
    if r == raddr {
      var i :| 0 <= i < |ps| && ps[i].fingerprint == fp;
      Translation.FlushHandsOut(m, raddr, ps, i);
    } else {
      Translation.SetPathsFacts(Translation.ClearAddr(m, raddr), raddr, ps);
      assert Lookup(f.lpaths, r) == Lookup(m.lpaths, r);
      Translation.OtherFlushKeeps(m, Translation.FlushEvent(raddr, ps), r, fp, t);
    }
  }

  lemma FlushHolds(sets: Sets, m: Translation.Maps, raddr: Addr, ps: seq<Records.PanPath>)
    requires Translation.Consistent(m) && MapsHold(sets, m) && Records.DistinctFingerprints(ps)
    ensures MapsHold(sets[raddr := ps], Translation.Flush(m, raddr, ps))
  {
    var f := Translation.Flush(m, raddr, ps);
    forall r, fp ensures fp in Lookup(f.lpaths, r).GetOr(map[]) <==> Records.Announces(LastSet(sets[raddr := ps], r), fp) {
      FlushedFingerprints(m, raddr, ps, r, fp);
    }
    forall r, fp, t | Translation.Lists(f, r, fp, t)
      ensures Translation.Resolve(f, t).Some? && Translation.Resolve(f, t).value in LastSet(sets[raddr := ps], r)
    {
      FlushedTables(m, raddr, ps, r, fp, t);
    }
  }

  // ----- whole runs -----

  /** What holds between the callbacks of the daemon. */
  ghost predicate Settled(remoteOf: Fingerprint -> Addr, home: Addr -> Addr, sets: Sets, d: Daemon) {
    && Agree(remoteOf, d) && ListsApart(remoteOf, sets.Keys, d.script) && MapsHold(sets, d.maps)
    && Invariants.Core(d.script) && Liveness.ListedLive(d.script) && Liveness.AssignedListed(home, d.script)
  }

  lemma StepKeepsSettled(remoteOf: Fingerprint -> Addr, home: Addr -> Addr, sets: Sets, d: Daemon, e: Event)
    requires Settled(remoteOf, home, sets, d) && Possible(remoteOf, home, sets, d, e)
    ensures Settled(remoteOf, home, Announced(sets, e), Step(d, e))
  {
    PossibleIsOrderly(remoteOf, home, sets, d, e);
    Invariants.StepKeepsCore(d.script, ScriptEvent(e));
    Liveness.StepKeepsOrder(home, d.script, ScriptEvent(e));
    if e.Announcement? {
      AnnouncementKeepsAgreement(remoteOf, d, e);
      AnnouncementKeepsListsApart(remoteOf, home, sets, d, e);
      FlushHolds(sets, d.maps, e.raddr, e.paths);
    } else {
      OtherKeepsPaths(d.script, e.event);
      OtherKeepsListsApart(remoteOf, sets.Keys, d.script, e.event);
    }
  }

  lemma {:induction false} RunKeepsSettled(remoteOf: Fingerprint -> Addr, home: Addr -> Addr, sets: Sets, d: Daemon, es: seq<Event>)
    requires Settled(remoteOf, home, sets, d) && AllPossible(remoteOf, home, sets, d, es)
    ensures Settled(remoteOf, home, AllAnnounced(sets, es), Run(d, es))
    decreases |es|
  {
    if es != [] {
      StepKeepsSettled(remoteOf, home, sets, d, es[0]);
      RunKeepsSettled(remoteOf, home, Announced(sets, es[0]), Step(d, es[0]), es[1..]);
    }
  }

  const START := Daemon(Scheduler.EMPTY, Translation.NEW)

  lemma ReachedIsSettled(remoteOf: Fingerprint -> Addr, home: Addr -> Addr, es: seq<Event>)
    requires AllPossible(remoteOf, home, map[], START, es)
    ensures Settled(remoteOf, home, AllAnnounced(map[], es), Run(START, es))
  {
    Liveness.EmptyIsOrderly(home);
    Translation.NewIsConsistent();
    assert Agree(remoteOf, START);
    RunKeepsSettled(remoteOf, home, map[], START, es);
  }

  /** Whatever the daemon goes through from its start on, the two sides are in agreement, every listed path
      is live and every connection is on a path listed for its remote. */
  lemma RunKeepsAgreement(remoteOf: Fingerprint -> Addr, home: Addr -> Addr, es: seq<Event>)
    requires AllPossible(remoteOf, home, map[], START, es)
    ensures var d := Run(START, es);
            && Agree(remoteOf, d) && Invariants.Core(d.script)
            && Liveness.ListedLive(d.script) && Liveness.AssignedListed(home, d.script)
  {
    ReachedIsSettled(remoteOf, home, es);
  }

  /** After any run, a connection with preferences that asks for a path gets one listed for its remote; the
      daemon finds a path object for it exactly when the set announced last for the remote still has the
      fingerprint, and then it is one of that set. The script itself never drops a path that a later
      announcement leaves out, so it may choose one for which the application then gets nothing. */
  lemma AnswerStandsExactlyWhileAnnounced(remoteOf: Fingerprint -> Addr, home: Addr -> Addr, es: seq<Event>,
                                          laddr: Addr, now: int, roll: nat, chosen: Fingerprint)
    requires AllPossible(remoteOf, home, map[], START, es)
    requires var s := Run(START, es).script;
             && Scheduler.Legal(s, Scheduler.OnPath(laddr, home(laddr), now, roll, chosen))
             && Lookup(s.raddr2fps, home(laddr)).GetOr([]) != [] && laddr in s.laddr2prefs
    ensures var d, announced := Run(START, es), LastSet(AllAnnounced(map[], es), home(laddr));
            var reply := Scheduler.PathPass(d.script, laddr, home(laddr), now, chosen).1;
            && reply.Returned? && reply.path.fingerprint in d.script.raddr2fps[home(laddr)]
            && var p := Translation.Resolve(d.maps, reply.path.table);
               && (p.Some? <==> Records.Announces(announced, reply.path.fingerprint))
               && (p.Some? ==> p.value in announced && p.value.fingerprint == reply.path.fingerprint)
  {
    var d := Run(START, es);
    ReachedIsSettled(remoteOf, home, es);
    Liveness.PathAnswers(home, d.script, laddr, now, roll, chosen);
    var path := Scheduler.PathPass(d.script, laddr, home(laddr), now, chosen).1.path;
    assert Lookup(d.script.fp2path, path.fingerprint) == Some(path);
    assert remoteOf(path.fingerprint) == home(laddr);
    TableStandsExactly(remoteOf, AllAnnounced(map[], es), d, path);
  }

  lemma TableStandsExactly(remoteOf: Fingerprint -> Addr, sets: Sets, d: Daemon, path: Scheduler.Path)
    requires Agree(remoteOf, d) && MapsHold(sets, d.maps)
    requires Lookup(d.script.fp2path, path.fingerprint) == Some(path)
    ensures var p, announced := Translation.Resolve(d.maps, path.table), LastSet(sets, remoteOf(path.fingerprint));
            && (p.Some? <==> Records.Announces(announced, path.fingerprint))
            && (p.Some? ==> p.value in announced && p.value.fingerprint == path.fingerprint)
  {
    var fp := path.fingerprint;
    assert TableKnown(remoteOf, d.maps, fp, path);
    assert StillListed(remoteOf, d.maps, fp) <==> Records.Announces(LastSet(sets, remoteOf(fp)), fp);
    if StillListed(remoteOf, d.maps, fp) {
      assert Translation.Lists(d.maps, remoteOf(fp), fp, path.table);
    }
  }
}
