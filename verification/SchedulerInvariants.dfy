/** What every callback keeps: the load of a path is the number of connections on it, and the tables
    agree with one another. */
module SchedulerInvariants {
  import opened Options
  import opened LuaTables
  import opened SchedulerModel

  /** The local addresses an assignment puts on a path. */
  ghost function Users(m: map<Addr, Fingerprint>, fp: Fingerprint): set<Addr> {
    set l | l in m && m[l] == fp
  }

  ghost predicate LoadsExact(s: Tables) {
    forall fp :: Load(s, fp) == |Users(s.laddr2fp, fp)|
  }

  ghost predicate AssignedLive(s: Tables) {
    forall l | l in s.laddr2fp :: s.laddr2fp[l] in s.fp2path
  }

  ghost predicate AssignedTimed(s: Tables) {
    forall l | l in s.laddr2fp :: l in s.laddr2switchtime
  }

  ghost predicate PathsOwnFingerprint(s: Tables) {
    && s.fp2path.Keys <= s.fp2laddrs.Keys
    && forall fp | fp in s.fp2path :: s.fp2path[fp].fingerprint == fp
  }

  ghost predicate ListsDistinct(s: Tables) {
    forall r | r in s.raddr2fps :: NoDuplicates(s.raddr2fps[r])
  }

  ghost predicate StampsBounded(s: Tables) {
    forall fp | fp in s.fp2last :: s.fp2last[fp] <= s.tick
  }

  /** The agreement between the tables that needs no assumption about addresses or fingerprints. */
  ghost predicate Core(s: Tables) {
    && LoadsExact(s)
    && AssignedLive(s)
    && AssignedTimed(s)
    && PathsOwnFingerprint(s)
    && ListsDistinct(s)
    && StampsBounded(s)
  }

  // ----- Path -----

  /** The tables after a move, the old path (if any) being counted and the switch time known. */
  function Moved(s: Tables, laddr: Addr, now: int, p: Path): Tables {
    var fp := p.fingerprint;
    var from := Lookup(s.laddr2fp, laddr);
    var loads := if from.Some? then s.fp2laddrs[from.value := Load(s, from.value) - 1] else s.fp2laddrs;
    s.(fp2last := s.fp2last[fp := s.tick],
       laddr2fp := s.laddr2fp[laddr := fp],
       fp2laddrs := loads[fp := Load(s, fp) + 1],
       fp2bw := if from.Some? && laddr in s.laddr2switchtime
                then s.fp2bw[from.value := Smooth(Lookup(s.fp2bw, from.value).GetOr(0.0), Sample(s, laddr, now))]
                else s.fp2bw,
       laddr2bytes := s.laddr2bytes[laddr := 0],
       laddr2switchtime := s.laddr2switchtime[laddr := now])
  }

  lemma MoveIsMoved(s: Tables, laddr: Addr, now: int, p: Path)
    requires laddr in s.laddr2fp ==> s.laddr2fp[laddr] in s.fp2laddrs && laddr in s.laddr2switchtime
    requires Lookup(s.laddr2fp, laddr) != Some(p.fingerprint)
    ensures Move(s, laddr, now, p) == (Moved(s, laddr, now, p), Returned(p))
  {
  }

  lemma UsersAfterAssignment(m: map<Addr, Fingerprint>, laddr: Addr, fp: Fingerprint, g: Fingerprint)
    requires Lookup(m, laddr) != Some(fp)
    ensures |Users(m[laddr := fp], g)| ==
            |Users(m, g)| + (if g == fp then 1 else 0) - (if Lookup(m, laddr) == Some(g) then 1 else 0)
  {
    if g == fp {
      assert Users(m[laddr := fp], g) == Users(m, g) + {laddr};
    } else {
      assert Users(m[laddr := fp], g) == Users(m, g) - {laddr};
    }
  }

  lemma MovedLoadsExact(s: Tables, laddr: Addr, now: int, p: Path)
    requires LoadsExact(s)
    requires Lookup(s.laddr2fp, laddr) != Some(p.fingerprint)
    ensures LoadsExact(Moved(s, laddr, now, p))
  {
    var t := Moved(s, laddr, now, p);
    forall g ensures Load(t, g) == |Users(t.laddr2fp, g)| {
      assert Load(s, g) == |Users(s.laddr2fp, g)|;
      UsersAfterAssignment(s.laddr2fp, laddr, p.fingerprint, g);
    }
  }

  lemma MoveKeepsCore(s: Tables, laddr: Addr, now: int, p: Path)
    requires Core(s)
    requires p.fingerprint in s.fp2path
    requires Lookup(s.laddr2fp, laddr) != Some(p.fingerprint)
    ensures Move(s, laddr, now, p) == (Moved(s, laddr, now, p), Returned(p))
    ensures Core(Moved(s, laddr, now, p))
  {
    MoveIsMoved(s, laddr, now, p);
    MovedLoadsExact(s, laddr, now, p);
  }

  lemma PathPassKeepsCore(s: Tables, laddr: Addr, raddr: Addr, now: int, chosen: Fingerprint)
    requires Core(s)
    ensures Core(PathPass(s, laddr, raddr, now, chosen).0)
    ensures PathPass(s, laddr, raddr, now, chosen).1.Raised? <==>
            raddr !in s.raddr2fps || (s.raddr2fps[raddr] != [] && laddr !in s.laddr2prefs)
  {
    if raddr in s.raddr2fps && s.raddr2fps[raddr] != [] && laddr in s.laddr2prefs {
      var p := if Consults(s, laddr, raddr, now) then Lookup(s.fp2path, chosen) else Current(s, laddr);
      if p.Some? && Lookup(s.laddr2fp, laddr) != Some(p.value.fingerprint) {
        MoveKeepsCore(s, laddr, now, p.value);
      }
    }
  }

  // ----- Initialize and Refresh -----

  lemma AnnounceOneKeepsCore(s: Tables, raddr: Addr, p: Path, index: nat)
    requires Core(s)
    ensures Core(AnnounceOne(s, raddr, p, index))
  {
    var t := AnnounceOne(s, raddr, p, index);
    forall fp ensures Load(t, fp) == |Users(t.laddr2fp, fp)| {
      assert Users(t.laddr2fp, fp) == Users(s.laddr2fp, fp);
    }
  }

  lemma {:induction false} AnnounceKeepsCore(s: Tables, raddr: Addr, ps: seq<Path>)
    requires Core(s)
    ensures Core(Announce(s, raddr, ps))
  {
    if ps != [] {
      AnnounceKeepsCore(s, raddr, ps[..|ps| - 1]);
      AnnounceOneKeepsCore(Announce(s, raddr, ps[..|ps| - 1]), raddr, ps[|ps| - 1], |ps|);
    }
  }

  lemma SameAssignment(s: Tables, t: Tables)
    requires LoadsExact(s) && t.laddr2fp == s.laddr2fp && t.fp2laddrs == s.fp2laddrs
    ensures LoadsExact(t)
  {
    forall fp ensures Load(t, fp) == |Users(t.laddr2fp, fp)| {
      assert Load(s, fp) == |Users(s.laddr2fp, fp)|;
      assert Users(t.laddr2fp, fp) == Users(s.laddr2fp, fp);
    }
  }

  lemma InitializeKeepsCore(s: Tables, prefs: Option<Prefs>, laddr: Addr, raddr: Addr, ps: seq<Path>, now: int)
    requires Core(s)
    ensures Core(Initialize(s, prefs, laddr, raddr, ps, now).0)
    ensures Initialize(s, prefs, laddr, raddr, ps, now).1.Raised? <==> prefs.None?
  {
    var g := Greet(s, laddr, raddr, now);
    SameAssignment(s, g);
    AnnounceKeepsCore(g, raddr, ps);
    SameAssignment(Announce(g, raddr, ps), Initialize(s, prefs, laddr, raddr, ps, now).0);
  }

  // ----- PathDown -----

  lemma PathDownKeepsCore(s: Tables, raddr: Addr, fp: Fingerprint)
    requires Core(s) && raddr in s.raddr2fps
    ensures Core(PathDown(s, raddr, fp).0)
  {
    var t := PathDown(s, raddr, fp).0;
    RemoveWhileWalkingExact(s.raddr2fps[raddr], fp);
    WithoutMembers(s.raddr2fps[raddr], fp);
    forall g ensures Load(t, g) == |Users(t.laddr2fp, g)| {
      assert Load(s, g) == |Users(s.laddr2fp, g)|;
      assert Users(t.laddr2fp, g) == if g == fp then {} else Users(s.laddr2fp, g);
    }
  }

  lemma ForgetKeepsCore(s: Tables, fp: Fingerprint)
    requires Core(s) && Users(s.laddr2fp, fp) == {}
    ensures Core(Forget(s, fp))
  {
    var t := Forget(s, fp);
    forall g ensures Load(t, g) == |Users(t.laddr2fp, g)| {
      assert Load(s, g) == |Users(s.laddr2fp, g)|;
    }
    forall l | l in t.laddr2fp ensures t.laddr2fp[l] in t.fp2path {
      assert l in Users(s.laddr2fp, s.laddr2fp[l]);
    }
  }

  /** Reporting a path down keeps the tables in agreement exactly when the remote is known or nobody is
      on the path: for an unknown remote the callback raises after setting the load to 0 and before it
      takes the connections off the path. */
  lemma PathDownKeepsCoreExactly(s: Tables, raddr: Addr, fp: Fingerprint)
    requires Core(s)
    ensures Core(PathDown(s, raddr, fp).0) <==> raddr in s.raddr2fps || Users(s.laddr2fp, fp) == {}
    ensures PathDown(s, raddr, fp).1.Raised? <==> raddr !in s.raddr2fps
  {
    if raddr in s.raddr2fps {
      PathDownKeepsCore(s, raddr, fp);
    } else if Users(s.laddr2fp, fp) == {} {
      ForgetKeepsCore(s, fp);
    } else {
      var l :| l in Users(s.laddr2fp, fp);
      assert Forget(s, fp).laddr2fp[l] !in Forget(s, fp).fp2path;
    }
  }

  /** Since no list has duplicates, the walk that removes while it iterates yields exactly the old list
      without the path, in the old order; and the connections on the path are taken off it, no others. */
  lemma PathDownExact(s: Tables, raddr: Addr, fp: Fingerprint)
    requires ListsDistinct(s) && raddr in s.raddr2fps
    ensures PathDown(s, raddr, fp).0.raddr2fps == s.raddr2fps[raddr := Without(s.raddr2fps[raddr], fp)]
    ensures PathDown(s, raddr, fp).0.laddr2fp == s.laddr2fp - Users(s.laddr2fp, fp)
  {
    RemoveWhileWalkingExact(s.raddr2fps[raddr], fp);
  }

  // ----- Close -----

  lemma CloseKeepsCore(s: Tables, laddr: Addr)
    requires Core(s)
    ensures Core(Close(s, laddr).0)
    ensures Close(s, laddr).1.Raised? <==> laddr !in s.laddr2fp
  {
    if laddr in s.laddr2fp {
      var t := Close(s, laddr).0;
      assert laddr in Users(s.laddr2fp, s.laddr2fp[laddr]);
      forall fp ensures Load(t, fp) == |Users(t.laddr2fp, fp)| {
        assert Load(s, fp) == |Users(s.laddr2fp, fp)|;
        assert Users(t.laddr2fp, fp) == Users(s.laddr2fp, fp) - {laddr};
      }
    }
  }

  /** The connection has neither a path nor preferences. */
  predicate Ended(s: Tables, laddr: Addr) {
    laddr !in s.laddr2fp && laddr !in s.laddr2prefs
  }

  /** The event stores preferences for the connection. */
  predicate GivesPreferences(e: Event, laddr: Addr) {
    (e.OnInitialize? || e.OnSetPreferences?) && e.laddr == laddr && e.prefs.Some?
  }

  lemma {:induction false} AnnounceKeepsSessions(s: Tables, raddr: Addr, ps: seq<Path>)
    ensures Announce(s, raddr, ps).laddr2fp == s.laddr2fp && Announce(s, raddr, ps).laddr2prefs == s.laddr2prefs
  {
    if ps != [] {
      AnnounceKeepsSessions(s, raddr, ps[..|ps| - 1]);
    }
  }

  lemma InitializeKeepsEnded(s: Tables, laddr: Addr, e: Event)
    requires Ended(s, laddr) && !GivesPreferences(e, laddr)
    requires e.OnInitialize? || e.OnRefresh?
    ensures Ended(Step(s, e), laddr)
  {
    var prefs := if e.OnInitialize? then e.prefs else None;
    var greeted := Greet(s, e.laddr, e.raddr, e.now);
    AnnounceKeepsSessions(greeted, e.raddr, e.paths);
    assert greeted.laddr2fp == s.laddr2fp;
    assert greeted.laddr2prefs == s.laddr2prefs;
    SetPreferencesKeepsEnded(Announce(greeted, e.raddr, e.paths), laddr, prefs, e.laddr);
  }

  lemma SetPreferencesKeepsEnded(s: Tables, laddr: Addr, prefs: Option<Prefs>, other: Addr)
    requires Ended(s, laddr) && (prefs.None? || other != laddr)
    ensures Ended(SetPreferences(s, prefs, other).0, laddr)
  {
  }

  lemma LeaveKeepsSessions(s: Tables, laddr: Addr, from: Fingerprint, now: int)
    ensures Leave(s, laddr, from, now).0.laddr2fp == s.laddr2fp
    ensures Leave(s, laddr, from, now).0.laddr2prefs == s.laddr2prefs
  {
  }

  lemma MoveKeepsSessions(s: Tables, laddr: Addr, now: int, p: Path)
    ensures Move(s, laddr, now, p).0.laddr2prefs == s.laddr2prefs
    ensures Move(s, laddr, now, p).0.laddr2fp == s.laddr2fp[laddr := p.fingerprint]
  {
    var s1 := s.(fp2last := s.fp2last[p.fingerprint := s.tick], laddr2fp := s.laddr2fp[laddr := p.fingerprint]);
    assert s1.laddr2prefs == s.laddr2prefs;
    if laddr in s.laddr2fp {
      LeaveKeepsSessions(s1, laddr, s.laddr2fp[laddr], now);
    }
    var s2 := if laddr in s.laddr2fp then Leave(s1, laddr, s.laddr2fp[laddr], now).0 else s1;
    assert s2.laddr2fp == s1.laddr2fp && s2.laddr2prefs == s.laddr2prefs;
  }

  lemma EndedGetsNothing(s: Tables, laddr: Addr, raddr: Addr, now: int, chosen: Fingerprint)
    requires Ended(s, laddr)
    ensures PathPass(s, laddr, raddr, now, chosen).0 == s && !PathPass(s, laddr, raddr, now, chosen).1.Returned?
  {
  }

  lemma PathKeepsEnded(s: Tables, laddr: Addr, other: Addr, raddr: Addr, now: int, chosen: Fingerprint)
    requires Ended(s, laddr)
    ensures Ended(PathPass(s, other, raddr, now, chosen).0, laddr)
  {
    if other == laddr {
      EndedGetsNothing(s, laddr, raddr, now, chosen);
    } else {
      var p := if Consults(s, other, raddr, now) then Lookup(s.fp2path, chosen) else Current(s, other);
      if p.Some? {
        MoveKeepsSessions(s, other, now, p.value);
      }
      assert PathPass(s, other, raddr, now, chosen).0 in {s} + if p.Some? then {Move(s, other, now, p.value).0} else {};
    }
  }

  lemma CloseKeepsEnded(s: Tables, laddr: Addr, other: Addr)
    ensures var t := Close(s, other).0; Ended(s, laddr) ==> Ended(t, laddr)
    ensures other in s.laddr2fp ==> Ended(Close(s, other).0, other)
  {
  }

  lemma PathDownKeepsEnded(s: Tables, laddr: Addr, raddr: Addr, fp: Fingerprint)
    requires Ended(s, laddr)
    ensures Ended(PathDown(s, raddr, fp).0, laddr)
  {
    var t := PathDown(s, raddr, fp).0;
    assert t.laddr2prefs == s.laddr2prefs;
    assert t.laddr2fp == s.laddr2fp || t.laddr2fp == Unassign(s.laddr2fp, fp);
  }

  lemma StatisticsKeepEnded(s: Tables, laddr: Addr, e: Event)
    requires Ended(s, laddr) && (e.OnSentPacket? || e.OnUpdatedMetrics? || e.OnPeriodic?)
    ensures Ended(Step(s, e), laddr)
  {
  }

  lemma StepKeepsEnded(s: Tables, laddr: Addr, e: Event)
    requires Ended(s, laddr) && !GivesPreferences(e, laddr)
    ensures Ended(Step(s, e), laddr)
  {
    match e
    case OnInitialize(l, r, prefs, ps, now) => InitializeKeepsEnded(s, laddr, e);
    case OnRefresh(l, r, ps, now) => InitializeKeepsEnded(s, laddr, e);
    case OnSetPreferences(l, prefs) => SetPreferencesKeepsEnded(s, laddr, prefs, l);
    case OnPath(l, r, now, _, chosen) => PathKeepsEnded(s, laddr, l, r, now, chosen);
    case OnPathDown(_, r, fp) => PathDownKeepsEnded(s, laddr, r, fp);
    case OnClose(l) => CloseKeepsEnded(s, laddr, l);
    case _ => StatisticsKeepEnded(s, laddr, e);
  }

  lemma {:induction false} RunKeepsEnded(s: Tables, laddr: Addr, es: seq<Event>)
    requires Ended(s, laddr) && forall e | e in es :: !GivesPreferences(e, laddr)
    ensures Ended(Run(s, es), laddr)
    decreases |es|
  {
    if es != [] {
      StepKeepsEnded(s, laddr, es[0]);
      RunKeepsEnded(Step(s, es[0]), laddr, es[1..]);
    }
  }

  lemma CloseGivesBackPlace(s: Tables, laddr: Addr)
    requires Core(s) && laddr in s.laddr2fp
    ensures forall g :: Load(Close(s, laddr).0, g) == Load(s, g) - if g == s.laddr2fp[laddr] then 1 else 0
  {
    assert laddr in Users(s.laddr2fp, s.laddr2fp[laddr]);
    assert Load(s, s.laddr2fp[laddr]) == |Users(s.laddr2fp, s.laddr2fp[laddr])|;
    var t := Close(s, laddr).0;
    assert t.fp2laddrs == s.fp2laddrs[s.laddr2fp[laddr] := Load(s, s.laddr2fp[laddr]) - 1];
  }

  /** A closed connection has given back its place; and whatever happens then, it gets no path, for any
      remote, until preferences are stored for it again. */
  lemma CloseEndsSession(s: Tables, laddr: Addr, es: seq<Event>, raddr: Addr, now: int, chosen: Fingerprint)
    requires Core(s) && laddr in s.laddr2fp
    requires forall e | e in es :: !GivesPreferences(e, laddr)
    ensures forall g :: Load(Close(s, laddr).0, g) == Load(s, g) - if g == s.laddr2fp[laddr] then 1 else 0
    ensures var t := Run(Close(s, laddr).0, es);
            && laddr !in t.laddr2fp
            && !PathPass(t, laddr, raddr, now, chosen).1.Returned? && PathPass(t, laddr, raddr, now, chosen).0 == t
  {
    CloseGivesBackPlace(s, laddr);
    CloseKeepsEnded(s, laddr, laddr);
    RunKeepsEnded(Close(s, laddr).0, laddr, es);
    EndedGetsNothing(Run(Close(s, laddr).0, es), laddr, raddr, now, chosen);
  }

  // ----- every step, every run -----

  lemma SameTablesKeepCore(s: Tables, t: Tables)
    requires Core(s)
    requires t.raddr2fps == s.raddr2fps && t.fp2path == s.fp2path && t.fp2last == s.fp2last
    requires t.fp2laddrs == s.fp2laddrs && t.laddr2fp == s.laddr2fp
    requires t.laddr2switchtime == s.laddr2switchtime && t.tick >= s.tick
    ensures Core(t)
  {
    SameAssignment(s, t);
  }

  lemma SetPreferencesKeepsCore(s: Tables, prefs: Option<Prefs>, laddr: Addr)
    requires Core(s)
    ensures Core(SetPreferences(s, prefs, laddr).0)
  {
    SameTablesKeepCore(s, SetPreferences(s, prefs, laddr).0);
  }

  lemma StatisticsKeepCore(s: Tables, laddr: Addr, size: nat, rtt: real)
    requires Core(s)
    ensures Core(SentPacket(s, laddr, size))
    ensures Core(UpdatedMetrics(s, laddr, rtt))
  {
    SameTablesKeepCore(s, SentPacket(s, laddr, size));
    SameTablesKeepCore(s, UpdatedMetrics(s, laddr, rtt));
  }

  lemma PeriodicKeepsCore(s: Tables)
    requires Core(s)
    ensures Core(Periodic(s).0)
    ensures Periodic(s).1 == Done
  {
    SameTablesKeepCore(s, Periodic(s).0);
  }

  lemma QuietStepKeepsCore(s: Tables, e: Event)
    requires Core(s)
    requires e.OnSetPreferences? || e.OnSentPacket? || e.OnUpdatedMetrics? || e.OnPeriodic?
    ensures Core(Step(s, e))
  {
    match e
    case OnSetPreferences(l, prefs) => SetPreferencesKeepsCore(s, prefs, l);
    case OnSentPacket(l, size) => StatisticsKeepCore(s, l, size, 0.0);
    case OnUpdatedMetrics(l, rtt) => StatisticsKeepCore(s, l, 0, rtt);
    case OnPeriodic => PeriodicKeepsCore(s);
  }

  lemma StepKeepsCore(s: Tables, e: Event)
    requires Core(s) && KnownRemote(s, e)
    ensures Core(Step(s, e))
  {
    if e.OnInitialize? {
      InitializeKeepsCore(s, e.prefs, e.laddr, e.raddr, e.paths, e.now);
    } else if e.OnRefresh? {
      InitializeKeepsCore(s, None, e.laddr, e.raddr, e.paths, e.now);
    } else if e.OnPath? {
      PathPassKeepsCore(s, e.laddr, e.raddr, e.now, e.chosen);
    } else if e.OnPathDown? {
      PathDownKeepsCoreExactly(s, e.raddr, e.fp);
    } else if e.OnClose? {
      CloseKeepsCore(s, e.laddr);
    } else {
      QuietStepKeepsCore(s, e);
    }
  }

  /** Whatever the interleaving of callbacks, in every state of the run each load is exactly the number
      of connections on the path, so it is never negative, and the time line of the script never stops
      on a missing load entry. */
  lemma {:induction false} RunKeepsCore(s: Tables, es: seq<Event>)
    requires Core(s) && Along(KnownRemote, s, es)
    ensures Core(Run(s, es))
    ensures forall fp :: Load(Run(s, es), fp) == |Users(Run(s, es).laddr2fp, fp)| >= 0
    ensures Periodic(Run(s, es)).1 == Done
    decreases |es|
  {
    if es != [] {
      StepKeepsCore(s, es[0]);
      RunKeepsCore(Step(s, es[0]), es[1..]);
    }
  }

  lemma EmptyIsCore()
    ensures Core(EMPTY)
  {
    forall fp ensures Load(EMPTY, fp) == |Users(EMPTY.laddr2fp, fp)| {
      assert Users(EMPTY.laddr2fp, fp) == {};
    }
  }

  // ----- the loads add up -----

  ghost function TotalLoad(s: Tables, fps: set<Fingerprint>): int
    decreases |fps|
  {
    if fps == {} then 0
    else
      var fp :| fp in fps;
      Load(s, fp) + TotalLoad(s, fps - {fp})
  }

  ghost function UsersOfAny(m: map<Addr, Fingerprint>, fps: set<Fingerprint>): set<Addr> {
    set l | l in m && m[l] in fps
  }

  lemma UsersOfOneMore(m: map<Addr, Fingerprint>, fps: set<Fingerprint>, fp: Fingerprint)
    requires fp in fps
    ensures |UsersOfAny(m, fps)| == |Users(m, fp)| + |UsersOfAny(m, fps - {fp})|
  {
    assert UsersOfAny(m, fps) == Users(m, fp) + UsersOfAny(m, fps - {fp});
    assert Users(m, fp) !! UsersOfAny(m, fps - {fp});
  }

  lemma {:induction false} TotalLoadCounts(s: Tables, fps: set<Fingerprint>)
    requires LoadsExact(s)
    ensures TotalLoad(s, fps) == |UsersOfAny(s.laddr2fp, fps)|
    decreases |fps|
  {
    if fps != {} {
      var fp :| fp in fps && TotalLoad(s, fps) == Load(s, fp) + TotalLoad(s, fps - {fp});
      TotalLoadCounts(s, fps - {fp});
      assert Load(s, fp) == |Users(s.laddr2fp, fp)|;
      UsersOfOneMore(s.laddr2fp, fps, fp);
    } else {
      assert UsersOfAny(s.laddr2fp, fps) == {};
    }
  }

  /** The loads of all paths add up to the number of assigned connections. */
  lemma LoadsSumToAssigned(s: Tables)
    requires Core(s)
    ensures TotalLoad(s, s.fp2laddrs.Keys) == |s.laddr2fp|
  {
    TotalLoadCounts(s, s.fp2laddrs.Keys);
    forall l | l in s.laddr2fp ensures s.laddr2fp[l] in s.fp2laddrs {
      assert s.laddr2fp[l] in s.fp2path;
    }
    assert UsersOfAny(s.laddr2fp, s.fp2laddrs.Keys) == s.laddr2fp.Keys;
    assert |s.laddr2fp| == |s.laddr2fp.Keys|;
  }

  /** What goes wrong otherwise: once the path of a connection is reported down for a remote nobody
      initialised, the next move of that connection leaves the path with load -1. */
  lemma UnknownRemoteDrivesLoadNegative(s: Tables, laddr: Addr, raddr: Addr, now: int, p: Path)
    requires Core(s) && laddr in s.laddr2fp && raddr !in s.raddr2fps
    requires p.fingerprint != s.laddr2fp[laddr]
    ensures Load(Move(PathDown(s, raddr, s.laddr2fp[laddr]).0, laddr, now, p).0, s.laddr2fp[laddr]) == -1
  {
    MoveIsMoved(PathDown(s, raddr, s.laddr2fp[laddr]).0, laddr, now, p);
  }
}
