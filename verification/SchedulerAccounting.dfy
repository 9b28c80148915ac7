/** Switching over whole runs: when a connection moves, and how far apart its moves are. */
module SchedulerAccounting {
  import opened Options
  import opened SchedulerModel
  import opened SchedulerInvariants
  import Liveness = SchedulerLiveness

  // ----- switching -----

  /** The event puts the connection on another path. */
  predicate Moves(s: Tables, e: Event) {
    e.OnPath? && Lookup(Step(s, e).laddr2fp, e.laddr) != Lookup(s.laddr2fp, e.laddr)
  }

  /** The event takes a connection off a path it was still assigned to. */
  predicate Departs(s: Tables, e: Event) {
    Moves(s, e) && e.laddr in s.laddr2fp
  }

  lemma MovesExactly(s: Tables, e: Event)
    requires Core(s) && e.OnPath?
    ensures Moves(s, e) <==>
            && Consults(s, e.laddr, e.raddr, e.now)
            && e.chosen in s.fp2path && Lookup(s.laddr2fp, e.laddr) != Some(e.chosen)
    ensures Step(s, e) == if Moves(s, e) then Moved(s, e.laddr, e.now, s.fp2path[e.chosen]) else s
  {
    if Consults(s, e.laddr, e.raddr, e.now) && e.chosen in s.fp2path && Lookup(s.laddr2fp, e.laddr) != Some(e.chosen) {
      MoveKeepsCore(s, e.laddr, e.now, s.fp2path[e.chosen]);
      assert Step(s, e) == Moved(s, e.laddr, e.now, s.fp2path[e.chosen]);
    } else {
      assert Step(s, e) == s;
    }
  }

  /** A connection leaves a path it is assigned to only when more than a second has passed on its switch
      clock, so the divisor of the sample it then contributes is positive. */
  lemma DepartsAfterHysteresis(s: Tables, e: Event)
    requires Core(s) && Departs(s, e)
    ensures e.laddr in s.laddr2switchtime && e.now - s.laddr2switchtime[e.laddr] > 1000000
    ensures Step(s, e).laddr2switchtime == s.laddr2switchtime[e.laddr := e.now]
    ensures Sample(s, e.laddr, e.now) >= 0.0
  {
    MovesExactly(s, e);
    assert s.laddr2fp[e.laddr] in s.fp2path;
  }

  predicate Timed(e: Event) {
    e.OnInitialize? || e.OnRefresh? || e.OnPath?
  }

  /** No clock reading in the run is earlier than `t`. */
  ghost predicate NotBefore(t: int, es: seq<Event>) {
    forall e | e in es && Timed(e) :: e.now >= t
  }

  lemma {:induction false} AnnounceKeepsClock(s: Tables, raddr: Addr, ps: seq<Path>)
    ensures Announce(s, raddr, ps).laddr2switchtime == s.laddr2switchtime
    ensures Announce(s, raddr, ps).laddr2bytes == s.laddr2bytes
    ensures Announce(s, raddr, ps).fp2bw == s.fp2bw && Announce(s, raddr, ps).fp2rtt == s.fp2rtt
  {
    if ps != [] {
      AnnounceKeepsClock(s, raddr, ps[..|ps| - 1]);
    }
  }

  lemma SwitchClockStep(s: Tables, e: Event, laddr: Addr, t: int)
    requires Core(s) && laddr in s.laddr2switchtime && s.laddr2switchtime[laddr] >= t
    requires Timed(e) ==> e.now >= t
    ensures laddr in Step(s, e).laddr2switchtime && Step(s, e).laddr2switchtime[laddr] >= t
  {
    if e.OnInitialize? || e.OnRefresh? {
      AnnounceKeepsClock(Greet(s, e.laddr, e.raddr, e.now), e.raddr, e.paths);
    } else if e.OnPath? {
      MovesExactly(s, e);
    } else {
      OthersKeepClock(s, e);
    }
  }

  lemma OthersKeepClock(s: Tables, e: Event)
    requires !Timed(e)
    ensures Step(s, e).laddr2switchtime == s.laddr2switchtime
    ensures Step(s, e).fp2bw == if e.OnPathDown? then s.fp2bw - {e.fp} else s.fp2bw
    ensures Step(s, e).laddr2bytes ==
            if e.OnSentPacket? then s.laddr2bytes[e.laddr := Lookup(s.laddr2bytes, e.laddr).GetOr(0) + e.size] else s.laddr2bytes
  {
    match e
    case OnSetPreferences(l, prefs) => SetPreferencesKeepsClock(s, prefs, l);
    case OnPathDown(_, r, fp) => PathDownKeepsClock(s, r, fp);
    case OnClose(l) => CloseKeepsClock(s, l);
    case OnSentPacket(l, size) => SentPacketKeepsClock(s, l, size);
    case OnUpdatedMetrics(l, rtt) => UpdatedMetricsKeepsClock(s, l, rtt);
    case OnPeriodic =>
  }

  lemma SentPacketKeepsClock(s: Tables, laddr: Addr, size: nat)
    ensures var t := SentPacket(s, laddr, size);
            && t.laddr2switchtime == s.laddr2switchtime && t.fp2bw == s.fp2bw
            && t.laddr2bytes == s.laddr2bytes[laddr := Lookup(s.laddr2bytes, laddr).GetOr(0) + size]
  {
  }

  lemma UpdatedMetricsKeepsClock(s: Tables, laddr: Addr, rtt: real)
    ensures var t := UpdatedMetrics(s, laddr, rtt);
            t.laddr2switchtime == s.laddr2switchtime && t.fp2bw == s.fp2bw && t.laddr2bytes == s.laddr2bytes
  {
  }

  lemma SetPreferencesKeepsClock(s: Tables, prefs: Option<Prefs>, laddr: Addr)
    ensures var t := SetPreferences(s, prefs, laddr).0;
            && t.laddr2switchtime == s.laddr2switchtime && t.fp2bw == s.fp2bw && t.laddr2bytes == s.laddr2bytes
            && t.fp2path == s.fp2path && t.fp2rtt == s.fp2rtt && t.fp2last == s.fp2last
  {
  }

  lemma PathDownKeepsClock(s: Tables, raddr: Addr, fp: Fingerprint)
    ensures var t := PathDown(s, raddr, fp).0;
            t.laddr2switchtime == s.laddr2switchtime && t.fp2bw == s.fp2bw - {fp} && t.laddr2bytes == s.laddr2bytes
  {
  }

  lemma CloseKeepsClock(s: Tables, laddr: Addr)
    ensures var t := Close(s, laddr).0;
            && t.laddr2switchtime == s.laddr2switchtime && t.fp2bw == s.fp2bw && t.laddr2bytes == s.laddr2bytes
            && t.fp2path == s.fp2path && t.fp2rtt == s.fp2rtt && t.fp2last == s.fp2last
  {
  }

  lemma {:induction false} SwitchClockRun(s: Tables, es: seq<Event>, laddr: Addr, t: int)
    requires Core(s) && Along(KnownRemote, s, es) && NotBefore(t, es)
    requires laddr in s.laddr2switchtime && s.laddr2switchtime[laddr] >= t
    ensures Core(Run(s, es))
    ensures laddr in Run(s, es).laddr2switchtime && Run(s, es).laddr2switchtime[laddr] >= t
    decreases |es|
  {
    if es != [] {
      StepKeepsCore(s, es[0]);
      SwitchClockStep(s, es[0], laddr, t);
      SwitchClockRun(Step(s, es[0]), es[1..], laddr, t);
    }
  }

  /** The event sets the switch clock of its connection: it initialises or refreshes the connection, or
      puts it on a path, be it the first. */
  predicate SetsClock(s: Tables, e: Event) {
    e.OnInitialize? || e.OnRefresh? || Moves(s, e)
  }

  lemma ClockIsSet(s: Tables, e: Event)
    requires Core(s) && SetsClock(s, e)
    ensures Lookup(Step(s, e).laddr2switchtime, e.laddr) == Some(e.now)
  {
    if e.OnPath? {
      MovesExactly(s, e);
    } else {
      AnnounceKeepsClock(Greet(s, e.laddr, e.raddr, e.now), e.raddr, e.paths);
    }
  }

  /** In a run whose clock does not go back, a connection leaves a path it is still assigned to only more
      than a second after each of its initialisations and switches, whatever happens in between. */
  lemma DeparturesComeLate(s: Tables, first: Event, between: seq<Event>, departure: Event)
    requires Core(s) && Along(KnownRemote, Step(s, first), between)
    requires SetsClock(s, first) && Departs(Run(Step(s, first), between), departure)
    requires departure.laddr == first.laddr
    requires NotBefore(first.now, between)
    ensures departure.now - first.now > 1000000
  {
    StepKeepsCore(s, first);
    ClockIsSet(s, first);
    SwitchClockRun(Step(s, first), between, first.laddr, first.now);
    DepartsAfterHysteresis(Run(Step(s, first), between), departure);
  }

  // ----- measurements do not outlive their path -----

  ghost predicate MeasurementsLive(s: Tables) {
    s.fp2rtt.Keys + s.fp2bw.Keys + s.fp2last.Keys <= s.fp2path.Keys
  }

  lemma AnnouncementKeepsMeasurementsLive(s: Tables, prefs: Option<Prefs>, laddr: Addr, raddr: Addr, ps: seq<Path>, now: int)
    requires MeasurementsLive(s)
    ensures MeasurementsLive(Initialize(s, prefs, laddr, raddr, ps, now).0)
  {
    Liveness.InitializeLists(s, prefs, laddr, raddr, ps, now);
    AnnounceKeepsClock(Greet(s, laddr, raddr, now), raddr, ps);
  }

  lemma PathDownKeepsMeasurementsLive(s: Tables, raddr: Addr, fp: Fingerprint)
    requires MeasurementsLive(s)
    ensures MeasurementsLive(PathDown(s, raddr, fp).0)
  {
    var t := PathDown(s, raddr, fp).0;
    assert t.fp2rtt == s.fp2rtt - {fp} && t.fp2bw == s.fp2bw - {fp} && t.fp2last == s.fp2last - {fp};
    assert t.fp2path == s.fp2path - {fp};
  }

  lemma OthersKeepMeasurementsLive(s: Tables, e: Event)
    requires Core(s) && MeasurementsLive(s)
    requires !Timed(e) && !e.OnPathDown?
    ensures MeasurementsLive(Step(s, e))
  {
    match e
    case OnSetPreferences(l, prefs) => SetPreferencesKeepsClock(s, prefs, l);
    case OnClose(l) => CloseKeepsClock(s, l);
    case OnSentPacket(l, size) =>
    case OnUpdatedMetrics(l, rtt) => assert l in s.laddr2fp ==> s.laddr2fp[l] in s.fp2path;
    case OnPeriodic =>
  }

  lemma StepKeepsMeasurementsLive(s: Tables, e: Event)
    requires Core(s) && MeasurementsLive(s)
    ensures MeasurementsLive(Step(s, e))
  {
    if e.OnPath? {
      MovesExactly(s, e);
    } else if e.OnInitialize? {
      AnnouncementKeepsMeasurementsLive(s, e.prefs, e.laddr, e.raddr, e.paths, e.now);
    } else if e.OnRefresh? {
      AnnouncementKeepsMeasurementsLive(s, None, e.laddr, e.raddr, e.paths, e.now);
    } else if e.OnPathDown? {
      PathDownKeepsMeasurementsLive(s, e.raddr, e.fp);
    } else {
      OthersKeepMeasurementsLive(s, e);
    }
  }

  /** In every state of every run, only live paths have a round-trip time, a bandwidth or a last use: a
      path that comes back starts afresh. */
  lemma {:induction false} RunKeepsMeasurementsLive(s: Tables, es: seq<Event>)
    requires Core(s) && MeasurementsLive(s) && Along(KnownRemote, s, es)
    ensures MeasurementsLive(Run(s, es))
    decreases |es|
  {
    if es != [] {
      StepKeepsCore(s, es[0]);
      StepKeepsMeasurementsLive(s, es[0]);
      RunKeepsMeasurementsLive(Step(s, es[0]), es[1..]);
    }
  }
}
