/** When `Path` answers, what it answers, and when its recovery call repeats forever. */
module SchedulerLiveness {
  import opened Options
  import opened LuaTables
  import opened SchedulerModel
  import opened SchedulerInvariants

  /** Every listed path is live. */
  ghost predicate ListedLive(s: Tables) {
    forall r, fp | r in s.raddr2fps && fp in s.raddr2fps[r] :: fp in s.fp2path
  }

  /** Every connection is on a path listed for its remote; `home` gives the remote a local address serves. */
  ghost predicate AssignedListed(home: Addr -> Addr, s: Tables) {
    forall l | l in s.laddr2fp ::
      home(l) in s.raddr2fps && s.laddr2fp[l] in s.raddr2fps[home(l)]
  }

  /** Each local address serves one remote. */
  predicate SingleHomed(home: Addr -> Addr, e: Event) {
    e.OnPath? ==> e.raddr == home(e.laddr)
  }

  ghost predicate Orderly(home: Addr -> Addr, s: Tables, e: Event) {
    Legal(s, e) && KnownRemote(s, e) && Exclusive(s, e) && SingleHomed(home, e)
  }

  // ----- lists only change as announced or reported -----

  ghost function Fingerprints(ps: seq<Path>): set<Fingerprint> {
    set p | p in ps :: p.fingerprint
  }

  lemma FingerprintsOfOneMore(ps: seq<Path>)
    requires ps != []
    ensures Fingerprints(ps) == Fingerprints(ps[..|ps| - 1]) + {ps[|ps| - 1].fingerprint}
  {
    assert ps == ps[..|ps| - 1] + [ps[|ps| - 1]];
  }

  lemma {:induction false} AnnounceLists(s: Tables, raddr: Addr, ps: seq<Path>)
    requires raddr in s.raddr2fps
    ensures var t := Announce(s, raddr, ps);
            && t.raddr2fps.Keys == s.raddr2fps.Keys
            && (forall r | r in s.raddr2fps && r != raddr :: t.raddr2fps[r] == s.raddr2fps[r])
            && (forall fp :: fp in t.raddr2fps[raddr] <==> fp in s.raddr2fps[raddr] || fp in Fingerprints(ps))
            && t.fp2path.Keys == s.fp2path.Keys + Fingerprints(ps)
            && t.laddr2fp == s.laddr2fp && t.fp2last == s.fp2last
  {
    if ps != [] {
      AnnounceLists(s, raddr, ps[..|ps| - 1]);
      FingerprintsOfOneMore(ps);
      AnnounceOneLists(Announce(s, raddr, ps[..|ps| - 1]), raddr, ps[|ps| - 1], |ps|);
    }
  }

  lemma AnnounceOneLists(s: Tables, raddr: Addr, p: Path, index: nat)
    requires raddr in s.raddr2fps
    ensures var t := AnnounceOne(s, raddr, p, index);
            && t.raddr2fps.Keys == s.raddr2fps.Keys
            && (forall r | r in s.raddr2fps && r != raddr :: t.raddr2fps[r] == s.raddr2fps[r])
            && (forall fp :: fp in t.raddr2fps[raddr] <==> fp in s.raddr2fps[raddr] || fp == p.fingerprint)
            && t.fp2path == s.fp2path[p.fingerprint := p]
            && t.laddr2fp == s.laddr2fp && t.fp2last == s.fp2last
  {
  }

  /** The place of the last path announced under the fingerprint. */
  function LastIndex(ps: seq<Path>, fp: Fingerprint): (r: Option<nat>)
    ensures r.Some? ==> r.value < |ps| && ps[r.value].fingerprint == fp
    ensures r.Some? ==> forall j | r.value < j < |ps| :: ps[j].fingerprint != fp
    ensures r.None? ==> forall j | 0 <= j < |ps| :: ps[j].fingerprint != fp
  {
    if ps == [] then None
    else if ps[|ps| - 1].fingerprint == fp then Some(|ps| - 1)
    else
      var r := LastIndex(ps[..|ps| - 1], fp);
      assert forall j | 0 <= j < |ps| - 1 :: ps[..|ps| - 1][j] == ps[j];
      r
  }

  /** An announcement moves nobody; its last path under a fingerprint is the one the script has from then
      on, and everything known under other fingerprints stays. */
  lemma {:induction false} AnnounceTables(s: Tables, raddr: Addr, ps: seq<Path>, fp: Fingerprint)
    ensures var t, i := Announce(s, raddr, ps), LastIndex(ps, fp);
            && Load(t, fp) == Load(s, fp)
            && Lookup(t.fp2path, fp) == (if i.Some? then Some(ps[i.value]) else Lookup(s.fp2path, fp))
            && Lookup(t.fp2id, fp) == (if i.Some? then Some(i.value + 1) else Lookup(s.fp2id, fp))
  {
    if ps != [] {
      var init, last := ps[..|ps| - 1], ps[|ps| - 1];
      AnnounceTables(s, raddr, init, fp);
      AnnounceOneTables(Announce(s, raddr, init), raddr, last, |ps|, fp);
      LastIndexOfOneMore(ps, fp);
    }
  }

  lemma LastIndexOfOneMore(ps: seq<Path>, fp: Fingerprint)
    requires ps != []
    ensures var i, j := LastIndex(ps, fp), LastIndex(ps[..|ps| - 1], fp);
            if ps[|ps| - 1].fingerprint == fp then i == Some(|ps| - 1)
            else i == j && (i.Some? ==> ps[i.value] == ps[..|ps| - 1][i.value])
  {
  }

  lemma AnnounceOneTables(s: Tables, raddr: Addr, p: Path, index: nat, fp: Fingerprint)
    ensures var t := AnnounceOne(s, raddr, p, index);
            && Load(t, fp) == Load(s, fp)
            && Lookup(t.fp2path, fp) == (if fp == p.fingerprint then Some(p) else Lookup(s.fp2path, fp))
            && Lookup(t.fp2id, fp) == (if fp == p.fingerprint then Some(index) else Lookup(s.fp2id, fp))
  {
  }

  /** Initialize and Refresh alike: afterwards the list of the remote holds exactly what it held before
      and what was announced. A path that is left out of a later announcement stays listed. */
  lemma InitializeLists(s: Tables, prefs: Option<Prefs>, laddr: Addr, raddr: Addr, ps: seq<Path>, now: int)
    ensures var t := Initialize(s, prefs, laddr, raddr, ps, now).0;
            && t.raddr2fps.Keys == s.raddr2fps.Keys + {raddr}
            && (forall r | r in s.raddr2fps && r != raddr :: t.raddr2fps[r] == s.raddr2fps[r])
            && (forall fp :: fp in t.raddr2fps[raddr] <==>
                             fp in Lookup(s.raddr2fps, raddr).GetOr([]) || fp in Fingerprints(ps))
            && t.fp2path.Keys == s.fp2path.Keys + Fingerprints(ps)
            && t.laddr2fp == s.laddr2fp && t.fp2last == s.fp2last
  {
    AnnounceLists(Greet(s, laddr, raddr, now), raddr, ps);
  }

  /** What was listed stays where it is, and new paths are added at the end. */
  lemma {:induction false} AnnounceAppends(s: Tables, raddr: Addr, ps: seq<Path>)
    requires raddr in s.raddr2fps
    ensures var t, n := Announce(s, raddr, ps), |s.raddr2fps[raddr]|;
            raddr in t.raddr2fps && n <= |t.raddr2fps[raddr]| && t.raddr2fps[raddr][..n] == s.raddr2fps[raddr]
  {
    if ps != [] {
      AnnounceAppends(s, raddr, ps[..|ps| - 1]);
    }
  }

  lemma InitializeKeepsOrder(home: Addr -> Addr, s: Tables, prefs: Option<Prefs>, laddr: Addr, raddr: Addr,
                             ps: seq<Path>, now: int)
    requires ListedLive(s) && AssignedListed(home, s)
    ensures ListedLive(Initialize(s, prefs, laddr, raddr, ps, now).0)
    ensures AssignedListed(home, Initialize(s, prefs, laddr, raddr, ps, now).0)
  {
    InitializeLists(s, prefs, laddr, raddr, ps, now);
    var t := Initialize(s, prefs, laddr, raddr, ps, now).0;
    forall r, fp | r in t.raddr2fps && fp in t.raddr2fps[r] ensures fp in t.fp2path {
      if r != raddr {
        assert fp in s.raddr2fps[r];
      } else if raddr in s.raddr2fps && fp in s.raddr2fps[raddr] {
        assert fp in s.fp2path;
      }
    }
    forall l | l in t.laddr2fp ensures home(l) in t.raddr2fps && t.laddr2fp[l] in t.raddr2fps[home(l)] {
      assert s.laddr2fp[l] in s.raddr2fps[home(l)];
    }
  }

  // ----- PathDown -----

  /** After a path is reported down every listed path is live exactly when no other remote lists the
      path: the path is struck from the list of one remote, but forgotten for all. */
  lemma PathDownListedLiveExactly(s: Tables, raddr: Addr, fp: Fingerprint)
    requires Core(s) && ListedLive(s) && raddr in s.raddr2fps
    ensures ListedLive(PathDown(s, raddr, fp).0) <==>
            forall r | r in s.raddr2fps && r != raddr :: fp !in s.raddr2fps[r]
  {
    PathDownExact(s, raddr, fp);
    WithoutMembers(s.raddr2fps[raddr], fp);
    var t := PathDown(s, raddr, fp).0;
    assert t.fp2path == s.fp2path - {fp};
    forall r | r in s.raddr2fps && r != raddr ensures t.raddr2fps[r] == s.raddr2fps[r] {
    }
    if r :| r in s.raddr2fps && r != raddr && fp in s.raddr2fps[r] {
      assert fp in t.raddr2fps[r] && fp !in t.fp2path;
    } else {
      forall r, g | r in t.raddr2fps && g in t.raddr2fps[r] ensures g in t.fp2path {
        assert g in s.raddr2fps[r];
      }
    }
  }

  lemma PathDownKeepsAssignedListed(home: Addr -> Addr, s: Tables, raddr: Addr, fp: Fingerprint)
    requires Core(s) && AssignedListed(home, s) && raddr in s.raddr2fps
    ensures AssignedListed(home, PathDown(s, raddr, fp).0)
  {
    PathDownExact(s, raddr, fp);
    WithoutMembers(s.raddr2fps[raddr], fp);
  }

  // ----- every step, every run -----

  lemma MayChooseListed(s: Tables, laddr: Addr, raddr: Addr, now: int, roll: nat, fp: Fingerprint)
    requires Consults(s, laddr, raddr, now) && MayChoose(s, laddr, raddr, now, roll, fp)
    ensures fp in s.raddr2fps[raddr]
  {
  }

  lemma MoveKeepsOrder(home: Addr -> Addr, s: Tables, laddr: Addr, now: int, p: Path)
    requires Core(s) && ListedLive(s) && AssignedListed(home, s)
    requires p.fingerprint in s.fp2path && Lookup(s.laddr2fp, laddr) != Some(p.fingerprint)
    requires home(laddr) in s.raddr2fps && p.fingerprint in s.raddr2fps[home(laddr)]
    ensures ListedLive(Move(s, laddr, now, p).0) && AssignedListed(home, Move(s, laddr, now, p).0)
  {
    MoveKeepsCore(s, laddr, now, p);
    var t := Moved(s, laddr, now, p);
    assert t.raddr2fps == s.raddr2fps && t.fp2path == s.fp2path;
  }

  lemma PathPassKeepsOrder(home: Addr -> Addr, s: Tables, laddr: Addr, now: int, roll: nat, chosen: Fingerprint)
    requires Core(s) && ListedLive(s) && AssignedListed(home, s)
    requires Legal(s, OnPath(laddr, home(laddr), now, roll, chosen))
    ensures var t := PathPass(s, laddr, home(laddr), now, chosen).0; ListedLive(t) && AssignedListed(home, t)
  {
    if Consults(s, laddr, home(laddr), now) {
      MayChooseListed(s, laddr, home(laddr), now, roll, chosen);
      assert chosen in s.fp2path;
      if Lookup(s.laddr2fp, laddr) != Some(chosen) {
        MoveKeepsOrder(home, s, laddr, now, s.fp2path[chosen]);
      }
    }
  }

  /** The same lists and paths, and the same assignments but perhaps for one connection without one. */
  predicate OnlyDrops(s: Tables, t: Tables, laddr: Addr) {
    && t.raddr2fps == s.raddr2fps && t.fp2path == s.fp2path
    && (t.laddr2fp == s.laddr2fp || t.laddr2fp == s.laddr2fp - {laddr})
  }

  lemma DropKeepsOrder(home: Addr -> Addr, s: Tables, t: Tables, laddr: Addr)
    requires ListedLive(s) && AssignedListed(home, s)
    requires OnlyDrops(s, t, laddr)
    ensures ListedLive(t) && AssignedListed(home, t)
  {
    forall l | l in t.laddr2fp
      ensures home(l) in t.raddr2fps && t.laddr2fp[l] in t.raddr2fps[home(l)]
    {
      assert s.laddr2fp[l] in s.raddr2fps[home(l)];
    }
  }

  lemma SetPreferencesOnlyDrops(s: Tables, prefs: Option<Prefs>, laddr: Addr)
    ensures OnlyDrops(s, SetPreferences(s, prefs, laddr).0, laddr)
  {
  }

  lemma CloseOnlyDrops(s: Tables, laddr: Addr)
    ensures OnlyDrops(s, Close(s, laddr).0, laddr)
  {
    var t := Close(s, laddr).0;
    assert t.raddr2fps == s.raddr2fps;
    assert t.fp2path == s.fp2path;
    assert t.laddr2fp == if laddr in s.laddr2fp then s.laddr2fp - {laddr} else s.laddr2fp;
  }

  lemma SentPacketOnlyDrops(s: Tables, laddr: Addr, size: nat)
    ensures OnlyDrops(s, SentPacket(s, laddr, size), laddr)
  {
    var t := SentPacket(s, laddr, size);
    assert t.raddr2fps == s.raddr2fps;
    assert t.fp2path == s.fp2path;
    assert t.laddr2fp == s.laddr2fp;
  }

  lemma UpdatedMetricsOnlyDrops(s: Tables, laddr: Addr, rtt: real)
    ensures OnlyDrops(s, UpdatedMetrics(s, laddr, rtt), laddr)
  {
    var t := UpdatedMetrics(s, laddr, rtt);
    assert t.raddr2fps == s.raddr2fps;
    assert t.fp2path == s.fp2path;
    assert t.laddr2fp == s.laddr2fp;
  }

  lemma QuietStepKeepsOrder(home: Addr -> Addr, s: Tables, e: Event)
    requires ListedLive(s) && AssignedListed(home, s)
    requires !e.OnInitialize? && !e.OnRefresh? && !e.OnPath? && !e.OnPathDown?
    ensures ListedLive(Step(s, e)) && AssignedListed(home, Step(s, e))
  {
    match e
    case OnSetPreferences(l, prefs) =>
      SetPreferencesOnlyDrops(s, prefs, l);
      DropKeepsOrder(home, s, Step(s, e), l);
    case OnClose(l) =>
      CloseOnlyDrops(s, l);
      DropKeepsOrder(home, s, Step(s, e), l);
    case OnSentPacket(l, size) =>
      SentPacketOnlyDrops(s, l, size);
      DropKeepsOrder(home, s, Step(s, e), l);
    case OnUpdatedMetrics(l, rtt) =>
      UpdatedMetricsOnlyDrops(s, l, rtt);
      DropKeepsOrder(home, s, Step(s, e), l);
    case OnPeriodic =>
      assert Step(s, e).raddr2fps == s.raddr2fps && Step(s, e).laddr2fp == s.laddr2fp;
      DropKeepsOrder(home, s, Step(s, e), "");
  }

  lemma StepKeepsOrder(home: Addr -> Addr, s: Tables, e: Event)
    requires Core(s) && ListedLive(s) && AssignedListed(home, s)
    requires Orderly(home, s, e)
    ensures ListedLive(Step(s, e)) && AssignedListed(home, Step(s, e))
  {
    if e.OnInitialize? {
      InitializeKeepsOrder(home, s, e.prefs, e.laddr, e.raddr, e.paths, e.now);
    } else if e.OnRefresh? {
      InitializeKeepsOrder(home, s, None, e.laddr, e.raddr, e.paths, e.now);
    } else if e.OnPath? {
      PathPassKeepsOrder(home, s, e.laddr, e.now, e.roll, e.chosen);
    } else if e.OnPathDown? {
      PathDownListedLiveExactly(s, e.raddr, e.fp);
      PathDownKeepsAssignedListed(home, s, e.raddr, e.fp);
    } else {
      QuietStepKeepsOrder(home, s, e);
    }
  }

  /** In every run in which paths are reported down for the one remote that lists them and each local
      address serves one remote, every listed path stays live and every connection stays on a path listed
      for its remote. */
  lemma {:induction false} RunKeepsOrder(home: Addr -> Addr, s: Tables, es: seq<Event>)
    requires Core(s) && ListedLive(s) && AssignedListed(home, s)
    requires Along((t, e) => Orderly(home, t, e), s, es)
    ensures Core(Run(s, es)) && ListedLive(Run(s, es)) && AssignedListed(home, Run(s, es))
    decreases |es|
  {
    if es != [] {
      StepKeepsCore(s, es[0]);
      StepKeepsOrder(home, s, es[0]);
      RunKeepsOrder(home, Step(s, es[0]), es[1..]);
    }
  }

  // ----- Path answers -----

  /** For a connection with preferences whose remote has a non-empty list, `Path` does not raise, does not
      call itself again, and returns a live path listed for that remote. */
  lemma PathAnswers(home: Addr -> Addr, s: Tables, laddr: Addr, now: int, roll: nat, chosen: Fingerprint)
    requires Core(s) && ListedLive(s) && AssignedListed(home, s)
    requires Legal(s, OnPath(laddr, home(laddr), now, roll, chosen))
    requires home(laddr) in s.raddr2fps && s.raddr2fps[home(laddr)] != []
    requires laddr in s.laddr2prefs
    ensures var (t, reply) := PathPass(s, laddr, home(laddr), now, chosen);
            && reply.Returned?
            && reply.path.fingerprint in s.raddr2fps[home(laddr)]
            && Lookup(s.fp2path, reply.path.fingerprint) == Some(reply.path)
            && Current(t, laddr) == Some(reply.path)
  {
    var raddr := home(laddr);
    if Consults(s, laddr, raddr, now) {
      MayChooseListed(s, laddr, raddr, now, roll, chosen);
      assert chosen in s.fp2path;
      if Lookup(s.laddr2fp, laddr) != Some(chosen) {
        MoveKeepsCore(s, laddr, now, s.fp2path[chosen]);
      }
    }
  }

  /** What becomes of this when a local address serves several remotes: with every listed path live, `Path`
      still answers, but the path is one listed for the remote exactly when a chooser was due or the path the
      connection has had so far is listed for this remote, too. */
  lemma AnswerListedExactly(s: Tables, laddr: Addr, raddr: Addr, now: int, roll: nat, chosen: Fingerprint)
    requires Core(s) && ListedLive(s)
    requires Legal(s, OnPath(laddr, raddr, now, roll, chosen))
    requires raddr in s.raddr2fps && s.raddr2fps[raddr] != [] && laddr in s.laddr2prefs
    ensures var reply := PathPass(s, laddr, raddr, now, chosen).1;
            && reply.Returned?
            && (reply.path.fingerprint in s.raddr2fps[raddr] <==>
                  Consults(s, laddr, raddr, now) || s.laddr2fp[laddr] in s.raddr2fps[raddr])
  {
    if Consults(s, laddr, raddr, now) {
      MayChooseListed(s, laddr, raddr, now, roll, chosen);
      assert chosen in s.fp2path;
      if Lookup(s.laddr2fp, laddr) != Some(chosen) {
        MoveKeepsCore(s, laddr, now, s.fp2path[chosen]);
      }
    }
  }

  /** Whatever the chooser does, one pass keeps every listed path live and ends without the recovery call. */
  lemma PathPassStaysLive(s: Tables, laddr: Addr, raddr: Addr, now: int, roll: nat, chosen: Fingerprint)
    requires Core(s) && ListedLive(s)
    requires Legal(s, OnPath(laddr, raddr, now, roll, chosen))
    ensures var (t, reply) := PathPass(s, laddr, raddr, now, chosen);
            && Core(t) && ListedLive(t) && !reply.Retry?
            && (reply.Returned? ==> Current(t, laddr) == Some(reply.path))
  {
    PathPassKeepsCore(s, laddr, raddr, now, chosen);
    if Consults(s, laddr, raddr, now) {
      MayChooseListed(s, laddr, raddr, now, roll, chosen);
      assert chosen in s.fp2path;
      if Lookup(s.laddr2fp, laddr) != Some(chosen) {
        MoveKeepsCore(s, laddr, now, s.fp2path[chosen]);
        var t := Moved(s, laddr, now, s.fp2path[chosen]);
        assert t.raddr2fps == s.raddr2fps && t.fp2path == s.fp2path;
      }
    }
  }

  // ----- the recovery call -----

  datatype Attempt = Attempt(now: int, roll: nat, chosen: Fingerprint)

  ghost predicate LegalAttempts(s: Tables, laddr: Addr, raddr: Addr, attempts: seq<Attempt>) {
    forall a | a in attempts :: Legal(s, OnPath(laddr, raddr, a.now, a.roll, a.chosen))
  }

  /** A call of `Path` that goes through its body once for every attempt until one of them ends it. */
  function PathCall(s: Tables, laddr: Addr, raddr: Addr, attempts: seq<Attempt>): (Tables, Reply) {
    if attempts == [] then (s, Retry)
    else
      var (t, reply) := PathPass(s, laddr, raddr, attempts[0].now, attempts[0].chosen);
      if reply.Retry? then PathCall(t, laddr, raddr, attempts[1..]) else (t, reply)
  }

  lemma OnePass(s: Tables, laddr: Addr, raddr: Addr, a: Attempt)
    ensures PathCall(s, laddr, raddr, [a]) == PathPass(s, laddr, raddr, a.now, a.chosen)
    ensures PathPass(s, laddr, raddr, a.now, a.chosen).1.Retry? ==> PathPass(s, laddr, raddr, a.now, a.chosen).0 == s
  {
    assert [a][1..] == [];
  }

  lemma OneMorePass(s: Tables, laddr: Addr, raddr: Addr, a: Attempt, rest: seq<Attempt>)
    requires PathPass(s, laddr, raddr, a.now, a.chosen) == (s, Retry)
    ensures PathCall(s, laddr, raddr, [a] + rest) == PathCall(s, laddr, raddr, rest)
  {
    assert ([a] + rest)[1..] == rest;
  }

  ghost predicate LeastLoaded(s: Tables, raddr: Addr, fp: Fingerprint)
    requires raddr in s.raddr2fps
  {
    fp in s.raddr2fps[raddr] && forall g | g in s.raddr2fps[raddr] :: Load(s, fp) <= Load(s, g)
  }

  lemma FirstByLoadIsLeastLoaded(s: Tables, raddr: Addr, fp: Fingerprint)
    requires raddr in s.raddr2fps
    ensures MaySortFirst(ByLoad(s), s.raddr2fps[raddr], fp) <==> LeastLoaded(s, raddr, fp)
  {
    var less := ByLoad(s);
    assert StrictWeakOn(less, s.raddr2fps[raddr]);
  }

  lemma {:induction false} ListHasLeastLoaded(s: Tables, list: seq<Fingerprint>) returns (fp: Fingerprint)
    requires list != []
    ensures fp in list && forall g | g in list :: Load(s, fp) <= Load(s, g)
  {
    if |list| == 1 {
      fp := list[0];
    } else {
      fp := ListHasLeastLoaded(s, list[1..]);
      fp := if Load(s, list[0]) < Load(s, fp) then list[0] else fp;
      assert forall g :: g in list ==> g == list[0] || g in list[1..];
    }
  }

  ghost predicate RepeatsForever(s: Tables, laddr: Addr, raddr: Addr) {
    forall attempts | LegalAttempts(s, laddr, raddr, attempts) ::
      PathCall(s, laddr, raddr, attempts) == (s, Retry)
  }

  lemma {:induction false} EveryAttemptRetries(s: Tables, laddr: Addr, raddr: Addr, attempts: seq<Attempt>)
    requires Core(s) && raddr in s.raddr2fps && s.raddr2fps[raddr] != []
    requires laddr in s.laddr2prefs && laddr !in s.laddr2fp
    requires LegalAttempts(s, laddr, raddr, attempts)
    requires forall fp | LeastLoaded(s, raddr, fp) :: fp !in s.fp2path
    ensures PathCall(s, laddr, raddr, attempts) == (s, Retry)
  {
    if attempts != [] {
      var a := attempts[0];
      assert Legal(s, OnPath(laddr, raddr, a.now, a.roll, a.chosen));
      FirstByLoadIsLeastLoaded(s, raddr, a.chosen);
      EveryAttemptRetries(s, laddr, raddr, attempts[1..]);
    }
  }

  /** For a connection that has no path yet, the recovery call repeats forever, whatever the sort and the
      clock do, exactly when every least-loaded listed path is dead. */
  lemma RepeatsForeverExactly(s: Tables, laddr: Addr, raddr: Addr)
    requires Core(s) && raddr in s.raddr2fps && s.raddr2fps[raddr] != []
    requires laddr in s.laddr2prefs && laddr !in s.laddr2fp
    ensures RepeatsForever(s, laddr, raddr) <==> forall fp | LeastLoaded(s, raddr, fp) :: fp !in s.fp2path
  {
    if forall fp | LeastLoaded(s, raddr, fp) :: fp !in s.fp2path {
      forall attempts | LegalAttempts(s, laddr, raddr, attempts)
        ensures PathCall(s, laddr, raddr, attempts) == (s, Retry)
      {
        EveryAttemptRetries(s, laddr, raddr, attempts);
      }
    } else {
      var fp :| LeastLoaded(s, raddr, fp) && fp in s.fp2path;
      var attempts := [Attempt(0, 2, fp)];
      FirstByLoadIsLeastLoaded(s, raddr, fp);
      assert LegalAttempts(s, laddr, raddr, attempts);
      MoveKeepsCore(s, laddr, 0, s.fp2path[fp]);
      assert PathCall(s, laddr, raddr, attempts).1.Returned?;
    }
  }

  /** Two remotes that list the same path: when it is reported down for one of them, a connection of the
      other that has no path then loops forever, however the sort orders equal loads, exactly when every
      other path of its remote is in use. When the call is sure to end is another matter; SchedulerRecovery
      says when. */
  lemma SharedPathLoopsExactly(s: Tables, down: Addr, laddr: Addr, raddr: Addr, fp: Fingerprint)
    requires Core(s) && ListedLive(s)
    requires down in s.raddr2fps && raddr in s.raddr2fps && down != raddr && fp in s.raddr2fps[raddr]
    requires laddr in s.laddr2prefs && (laddr !in s.laddr2fp || s.laddr2fp[laddr] == fp)
    ensures RepeatsForever(PathDown(s, down, fp).0, laddr, raddr) <==>
            forall g | g in s.raddr2fps[raddr] && g != fp :: Users(s.laddr2fp, g) != {}
  {
    var t := PathDown(s, down, fp).0;
    PathDownKeepsCore(s, down, fp);
    assert t.raddr2fps[raddr] == s.raddr2fps[raddr] && laddr !in t.laddr2fp && t.laddr2prefs == s.laddr2prefs;
    RepeatsForeverExactly(t, laddr, raddr);
    assert Load(t, fp) == 0 && fp !in t.fp2path;
    forall g ensures Load(t, g) >= 0 {
      assert Load(t, g) == |Users(t.laddr2fp, g)|;
    }
    forall g | g in s.raddr2fps[raddr] && g != fp
      ensures g in t.fp2path
      ensures Users(s.laddr2fp, g) != {} <==> Load(t, g) > 0
      ensures LeastLoaded(t, raddr, g) <==> Load(t, g) <= 0
    {
      assert Load(t, g) == Load(s, g) == |Users(s.laddr2fp, g)|;
      assert g in s.fp2path && g in t.fp2path;
    }
    assert LeastLoaded(t, raddr, fp);
    if g :| g in s.raddr2fps[raddr] && g != fp && Users(s.laddr2fp, g) == {} {
      assert LeastLoaded(t, raddr, g) && g in t.fp2path;
    }
  }

  lemma EmptyIsOrderly(home: Addr -> Addr)
    ensures Core(EMPTY) && ListedLive(EMPTY) && AssignedListed(home, EMPTY)
  {
    EmptyIsCore();
  }

  lemma {:induction false} OrderlyKnowsRemotes(home: Addr -> Addr, s: Tables, es: seq<Event>)
    requires Along((t, e) => Orderly(home, t, e), s, es)
    ensures Along(KnownRemote, s, es)
    decreases |es|
  {
    if es != [] {
      OrderlyKnowsRemotes(home, Step(s, es[0]), es[1..]);
    }
  }

  /** Once an orderly run from the empty tables has listed paths for the remote of a connection and stored
      its preferences, the connection gets one of these paths. */
  lemma ReachedPathAnswers(home: Addr -> Addr, es: seq<Event>, laddr: Addr, now: int, roll: nat, chosen: Fingerprint)
    requires Along((t, e) => Orderly(home, t, e), EMPTY, es)
    requires Legal(Run(EMPTY, es), OnPath(laddr, home(laddr), now, roll, chosen))
    requires Lookup(Run(EMPTY, es).raddr2fps, home(laddr)).GetOr([]) != []
    requires laddr in Run(EMPTY, es).laddr2prefs
    ensures var s := Run(EMPTY, es);
            var (t, reply) := PathPass(s, laddr, home(laddr), now, chosen);
            && reply.Returned?
            && reply.path.fingerprint in s.raddr2fps[home(laddr)]
            && Current(t, laddr) == Some(reply.path)
  {
    EmptyIsOrderly(home);
    RunKeepsOrder(home, EMPTY, es);
    PathAnswers(home, Run(EMPTY, es), laddr, now, roll, chosen);
  }
}
