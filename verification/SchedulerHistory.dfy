/** What the tables hold, told from the events of a run and the answers the connections got: who is on
    which path since when, what was measured, and what the bandwidth estimate of a path is an average of. */
module SchedulerHistory {
  import opened Options
  import opened LuaTables
  import opened SchedulerModel
  import opened SchedulerInvariants
  import Liveness = SchedulerLiveness
  import Accounting = SchedulerAccounting

  /** An event as the outside sees it: `told` is the path that a call of `Path` returned. */
  datatype Seen = Seen(event: Event, told: Option<Fingerprint>)

  function Before<T>(h: seq<T>): seq<T>
    requires h != []
  {
    h[..|h| - 1]
  }

  function Last<T>(h: seq<T>): T
    requires h != []
  {
    h[|h| - 1]
  }

  // ----- histories -----

  /** The path the last answered call of the connection returned, unless the path was reported down or the
      connection closed since. */
  function LastAnswer(h: seq<Seen>, laddr: Addr): Option<Fingerprint> {
    if h == [] then None
    else
      var e, past := Last(h).event, LastAnswer(Before(h), laddr);
      if e.OnPath? && e.laddr == laddr && Last(h).told.Some? then Last(h).told
      else if e.OnPathDown? && past == Some(e.fp) then None
      else if e.OnClose? && e.laddr == laddr then None
      else past
  }

  /** The connection is told another path than it was last. */
  predicate Switches(h: seq<Seen>, i: Seen) {
    i.event.OnPath? && i.told.Some? && i.told != LastAnswer(h, i.event.laddr)
  }

  /** The last event makes this connection switch. */
  predicate Switched(h: seq<Seen>, laddr: Addr) {
    h != [] && Switches(Before(h), Last(h)) && Last(h).event.laddr == laddr
  }

  /** The preferences given last; closing a connection that has a path makes them void. */
  function LastPreferences(h: seq<Seen>, laddr: Addr): Option<Prefs> {
    if h == [] then None
    else
      var e, past := Last(h).event, LastPreferences(Before(h), laddr);
      if (e.OnInitialize? || e.OnSetPreferences?) && e.laddr == laddr && e.prefs.Some? then e.prefs
      else if e.OnClose? && e.laddr == laddr && LastAnswer(Before(h), laddr).Some? then None
      else past
  }

  /** When the connection was last initialised, refreshed or switched. */
  function LastClock(h: seq<Seen>, laddr: Addr): Option<int> {
    if h == [] then None
    else
      var e := Last(h).event;
      if (e.OnInitialize? || e.OnRefresh?) && e.laddr == laddr then Some(e.now)
      else if Switched(h, laddr) then Some(e.now)
      else LastClock(Before(h), laddr)
  }

  function Ticks(h: seq<Seen>): nat {
    if h == [] then 0 else Ticks(Before(h)) + if Last(h).event.OnPeriodic? then 1 else 0
  }

  /** The tick in which a connection last switched to the path, since the path was last reported down. */
  function LastTaken(h: seq<Seen>, fp: Fingerprint): Option<nat> {
    if h == [] then None
    else
      var e := Last(h).event;
      if Switches(Before(h), Last(h)) && Last(h).told == Some(fp) then Some(Ticks(Before(h)))
      else if e.OnPathDown? && e.fp == fp then None
      else LastTaken(Before(h), fp)
  }

  /** The round-trip time last measured by a connection on the path, since it was last reported down. */
  function LastRTT(h: seq<Seen>, fp: Fingerprint): Option<real> {
    if h == [] then None
    else
      var e := Last(h).event;
      if e.OnUpdatedMetrics? && LastAnswer(Before(h), e.laddr) == Some(fp) then Some(e.rtt)
      else if e.OnPathDown? && e.fp == fp then None
      else LastRTT(Before(h), fp)
  }

  /** The table announced last under the fingerprint, since it was last reported down. */
  function LastTable(h: seq<Seen>, fp: Fingerprint): Option<Path> {
    if h == [] then None
    else
      var e := Last(h).event;
      if (e.OnInitialize? || e.OnRefresh?) && Liveness.LastIndex(e.paths, fp).Some? then
        Some(e.paths[Liveness.LastIndex(e.paths, fp).value])
      else if e.OnPathDown? && e.fp == fp then None
      else LastTable(Before(h), fp)
  }

  /** The path was announced for the remote and not reported down for it since. */
  predicate StillListed(h: seq<Seen>, raddr: Addr, fp: Fingerprint) {
    h != [] &&
    var e := Last(h).event;
    if (e.OnInitialize? || e.OnRefresh?) && e.raddr == raddr && Liveness.LastIndex(e.paths, fp).Some? then true
    else if e.OnPathDown? && e.raddr == raddr && e.fp == fp then false
    else StillListed(Before(h), raddr, fp)
  }

  /** The bytes sent since the last switch. */
  function Pending(h: seq<Seen>, laddr: Addr): nat {
    if h == [] then 0
    else
      var e, past := Last(h).event, Pending(Before(h), laddr);
      if e.OnSentPacket? && e.laddr == laddr then past + e.size
      else if Switched(h, laddr) then 0
      else past
  }

  /** The bytes a connection sent while it was on a path, and how long it had been on it. */
  datatype Stay = Stay(bytes: nat, time: int)

  /** The stay that ends when the connection switches at the given time. */
  function EndedStay(h: seq<Seen>, laddr: Addr, now: int): Stay {
    Stay(Pending(h, laddr), now - LastClock(h, laddr).GetOr(now))
  }

  /** The stays on a path that have ended since the path was last reported down, in order. */
  function Stays(h: seq<Seen>, fp: Fingerprint): seq<Stay> {
    if h == [] then []
    else
      var e, past := Last(h).event, Stays(Before(h), fp);
      if Switches(Before(h), Last(h)) && LastAnswer(Before(h), e.laddr) == Some(fp) then
        past + [EndedStay(Before(h), e.laddr, e.now)]
      else if e.OnPathDown? && e.fp == fp then []
      else past
  }

  // ----- the runs behind the histories -----

  /** The tables after the events, from the empty tables on. */
  function After(h: seq<Seen>): Tables {
    if h == [] then EMPTY else Step(After(Before(h)), Last(h).event)
  }

  /** The path a call of `Path` returns. */
  function Told(s: Tables, e: Event): Option<Fingerprint> {
    if e.OnPath? && Act(s, e).1.Returned? then Some(Act(s, e).1.path.fingerprint) else None
  }

  ghost predicate Fits(s: Tables, i: Seen) {
    KnownRemote(s, i.event) && i.told == Told(s, i.event)
  }

  /** The answers are those of the script, and paths are only reported down for remotes that have been
      initialised. */
  ghost predicate Happened(h: seq<Seen>) {
    h == [] || (Happened(Before(h)) && Fits(After(Before(h)), Last(h)))
  }

  /** A run as the outside sees it. */
  function Trace(es: seq<Event>): seq<Seen> {
    if es == [] then [] else Trace(Before(es)) + [Seen(Last(es), Told(After(Trace(Before(es))), Last(es)))]
  }

  lemma {:induction false} RunTail(s: Tables, es: seq<Event>)
    requires es != []
    ensures Run(s, es) == Step(Run(s, Before(es)), Last(es))
    ensures Along(KnownRemote, s, es) <==> Along(KnownRemote, s, Before(es)) && KnownRemote(Run(s, Before(es)), Last(es))
    decreases |es|
  {
    if |es| > 1 {
      RunTail(Step(s, es[0]), es[1..]);
      assert Before(es)[1..] == Before(es[1..]);
    } else {
      assert Before(es) == [] && es[1..] == [];
    }
  }

  lemma {:induction false} TraceEvents(es: seq<Event>)
    ensures |Trace(es)| == |es| && forall i | 0 <= i < |es| :: Trace(es)[i].event == es[i]
  {
    if es != [] {
      TraceEvents(Before(es));
      TraceTail(es);
      var past, h := Trace(Before(es)), Trace(es);
      forall i | 0 <= i < |es| ensures h[i].event == es[i] {
        assert i < |es| - 1 ==> h[i] == past[i] && Before(es)[i] == es[i];
      }
    }
  }

  lemma TraceTail(es: seq<Event>)
    requires es != []
    ensures |Trace(es)| == |Trace(Before(es))| + 1 && Before(Trace(es)) == Trace(Before(es))
    ensures Last(Trace(es)) == Seen(Last(es), Told(After(Trace(Before(es))), Last(es)))
  {
  }

  /** Every run has a history. */
  lemma {:induction false} TraceHappened(es: seq<Event>)
    requires Along(KnownRemote, EMPTY, es)
    ensures After(Trace(es)) == Run(EMPTY, es) && Happened(Trace(es))
    ensures |Trace(es)| == |es| && forall i | 0 <= i < |es| :: Trace(es)[i].event == es[i]
  {
    TraceEvents(es);
    if es != [] {
      RunTail(EMPTY, es);
      TraceTail(es);
      TraceHappened(Before(es));
    }
  }

  lemma {:induction false} AfterIsCore(h: seq<Seen>)
    requires Happened(h)
    ensures Core(After(h))
  {
    if h == [] {
      EmptyIsCore();
    } else {
      AfterIsCore(Before(h));
      StepKeepsCore(After(Before(h)), Last(h).event);
    }
  }

  // ----- what one event does -----

  /** A call of `Path` that returns the path of the connection, or none, changes nothing; one that returns
      another path is a move to it. */
  lemma PathTells(s: Tables, e: Event)
    requires Core(s) && e.OnPath?
    ensures Told(s, e).None? || Told(s, e) == Lookup(s.laddr2fp, e.laddr) ==> Step(s, e) == s
    ensures Told(s, e).Some? && Told(s, e) != Lookup(s.laddr2fp, e.laddr) ==>
              && Told(s, e) == Some(e.chosen) && e.chosen in s.fp2path && Accounting.Moves(s, e)
              && Step(s, e) == Moved(s, e.laddr, e.now, s.fp2path[e.chosen])
  {
    Accounting.MovesExactly(s, e);
    if Accounting.Moves(s, e) {
      MoveKeepsCore(s, e.laddr, e.now, s.fp2path[e.chosen]);
    } else if Consults(s, e.laddr, e.raddr, e.now) {
      assert e.chosen in s.fp2path ==> s.fp2path[e.chosen].fingerprint == e.chosen;
    } else if Current(s, e.laddr).Some? {
      assert s.fp2path[s.laddr2fp[e.laddr]].fingerprint == s.laddr2fp[e.laddr];
    }
  }

  lemma {:induction false} AnnounceKeepsStamps(s: Tables, raddr: Addr, ps: seq<Path>)
    ensures Announce(s, raddr, ps).tick == s.tick && Announce(s, raddr, ps).fp2last == s.fp2last
  {
    if ps != [] {
      AnnounceKeepsStamps(s, raddr, ps[..|ps| - 1]);
    }
  }

  /** What the events but `Path` do to assignments, preferences and measurements. */
  ghost predicate Effects(s: Tables, e: Event, t: Tables) {
    && t.laddr2fp == (if e.OnPathDown? then Unassign(s.laddr2fp, e.fp)
                      else if e.OnClose? then s.laddr2fp - {e.laddr} else s.laddr2fp)
    && t.laddr2prefs == (if (e.OnInitialize? || e.OnSetPreferences?) && e.prefs.Some? then s.laddr2prefs[e.laddr := e.prefs.value]
                         else if e.OnClose? && e.laddr in s.laddr2fp then s.laddr2prefs - {e.laddr} else s.laddr2prefs)
    && t.laddr2switchtime == (if e.OnInitialize? || e.OnRefresh? then s.laddr2switchtime[e.laddr := e.now] else s.laddr2switchtime)
    && t.laddr2bytes == (if e.OnSentPacket? then s.laddr2bytes[e.laddr := Lookup(s.laddr2bytes, e.laddr).GetOr(0) + e.size]
                         else s.laddr2bytes)
    && t.tick == s.tick + (if e.OnPeriodic? then 1 else 0)
    && t.fp2last == (if e.OnPathDown? then s.fp2last - {e.fp} else s.fp2last)
    && t.fp2rtt == (if e.OnPathDown? then s.fp2rtt - {e.fp}
                    else if e.OnUpdatedMetrics? && e.laddr in s.laddr2fp then s.fp2rtt[s.laddr2fp[e.laddr] := e.rtt] else s.fp2rtt)
    && t.fp2bw == (if e.OnPathDown? then s.fp2bw - {e.fp} else s.fp2bw)
  }

  lemma AnnouncementEffects(s: Tables, e: Event)
    requires e.OnInitialize? || e.OnRefresh?
    ensures Effects(s, e, Step(s, e))
  {
    var greeted := Greet(s, e.laddr, e.raddr, e.now);
    var announced := Announce(greeted, e.raddr, e.paths);
    assert greeted.laddr2fp == s.laddr2fp && greeted.laddr2prefs == s.laddr2prefs && greeted.laddr2bytes == s.laddr2bytes;
    assert greeted.tick == s.tick && greeted.fp2last == s.fp2last && greeted.fp2rtt == s.fp2rtt && greeted.fp2bw == s.fp2bw;
    AnnounceKeepsStamps(greeted, e.raddr, e.paths);
    AnnounceKeepsSessions(greeted, e.raddr, e.paths);
    Accounting.AnnounceKeepsClock(greeted, e.raddr, e.paths);
    PreferenceEffects(announced, if e.OnInitialize? then e.prefs else None, e.laddr);
  }

  lemma PreferenceEffects(s: Tables, prefs: Option<Prefs>, laddr: Addr)
    ensures Effects(s, OnSetPreferences(laddr, prefs), SetPreferences(s, prefs, laddr).0)
  {
  }

  lemma PathDownEffects(s: Tables, e: Event)
    requires e.OnPathDown? && KnownRemote(s, e)
    ensures Effects(s, e, Step(s, e))
  {
    var f := Forget(s, e.fp);
    assert f.laddr2fp == s.laddr2fp && f.laddr2prefs == s.laddr2prefs && f.laddr2switchtime == s.laddr2switchtime;
    assert f.laddr2bytes == s.laddr2bytes && f.tick == s.tick && f.fp2last == s.fp2last - {e.fp};
    assert f.fp2rtt == s.fp2rtt - {e.fp} && f.fp2bw == s.fp2bw - {e.fp} && f.raddr2fps == s.raddr2fps;
  }

  lemma CloseEffects(s: Tables, e: Event)
    requires e.OnClose?
    ensures Effects(s, e, Step(s, e))
  {
    assert e.laddr !in s.laddr2fp ==> s.laddr2fp - {e.laddr} == s.laddr2fp;
  }

  lemma SentPacketEffects(s: Tables, laddr: Addr, size: nat)
    ensures Effects(s, OnSentPacket(laddr, size), SentPacket(s, laddr, size))
  {
    var t := SentPacket(s, laddr, size);
    assert t.laddr2fp == s.laddr2fp && t.laddr2prefs == s.laddr2prefs && t.laddr2switchtime == s.laddr2switchtime;
    assert t.tick == s.tick && t.fp2last == s.fp2last && t.fp2rtt == s.fp2rtt && t.fp2bw == s.fp2bw;
  }

  lemma UpdatedMetricsEffects(s: Tables, laddr: Addr, rtt: real)
    ensures Effects(s, OnUpdatedMetrics(laddr, rtt), UpdatedMetrics(s, laddr, rtt))
  {
    if laddr in s.laddr2fp {
      var rtts := s.fp2rtt[s.laddr2fp[laddr] := rtt];
      MeasuredEffects(s, laddr, rtt, s.(fp2rtt := rtts));
    }
  }

  lemma MeasuredEffects(s: Tables, laddr: Addr, rtt: real, t: Tables)
    requires laddr in s.laddr2fp && t == s.(fp2rtt := s.fp2rtt[s.laddr2fp[laddr] := rtt])
    ensures Effects(s, OnUpdatedMetrics(laddr, rtt), t)
  {
    assert t.laddr2fp == s.laddr2fp;
    assert t.laddr2prefs == s.laddr2prefs;
    assert t.laddr2switchtime == s.laddr2switchtime;
    assert t.laddr2bytes == s.laddr2bytes;
    assert t.tick == s.tick;
    assert t.fp2last == s.fp2last;
    assert t.fp2bw == s.fp2bw;
  }

  lemma PeriodicEffects(s: Tables)
    ensures Effects(s, OnPeriodic, Periodic(s).0)
  {
    var t := Periodic(s).0;
    assert t.laddr2fp == s.laddr2fp && t.laddr2prefs == s.laddr2prefs && t.laddr2switchtime == s.laddr2switchtime;
    assert t.laddr2bytes == s.laddr2bytes && t.fp2last == s.fp2last && t.fp2rtt == s.fp2rtt && t.fp2bw == s.fp2bw;
  }

  lemma OtherEffects(s: Tables, e: Event)
    requires !e.OnPath? && KnownRemote(s, e)
    ensures Effects(s, e, Step(s, e))
  {
    match e
    case OnInitialize(_, _, _, _, _) => AnnouncementEffects(s, e);
    case OnRefresh(_, _, _, _) => AnnouncementEffects(s, e);
    case OnSetPreferences(l, prefs) => PreferenceEffects(s, prefs, l);
    case OnPathDown(_, _, _) => PathDownEffects(s, e);
    case OnClose(_) => CloseEffects(s, e);
    case OnSentPacket(l, size) => SentPacketEffects(s, l, size);
    case OnUpdatedMetrics(l, rtt) => UpdatedMetricsEffects(s, l, rtt);
    case OnPeriodic => PeriodicEffects(s);
  }

  // ----- the tables tell the histories -----

  lemma {:induction false} AssignmentIsLastAnswer(h: seq<Seen>, laddr: Addr)
    requires Happened(h)
    ensures Lookup(After(h).laddr2fp, laddr) == LastAnswer(h, laddr)
  {
    if h != [] {
      var s, e := After(Before(h)), Last(h).event;
      AssignmentIsLastAnswer(Before(h), laddr);
      AfterIsCore(Before(h));
      if e.OnPath? {
        PathTells(s, e);
      } else {
        OtherEffects(s, e);
      }
    }
  }

  /** A connection switches exactly when the tables say that it moves. */
  lemma SwitchIsMove(h: seq<Seen>, i: Seen)
    requires Happened(h) && Fits(After(h), i)
    ensures Switches(h, i) <==> Accounting.Moves(After(h), i.event)
    ensures Switches(h, i) ==>
              && i.told == Some(i.event.chosen) && i.event.chosen in After(h).fp2path
              && After(h).fp2path[i.event.chosen].fingerprint == i.event.chosen
              && Step(After(h), i.event) == Moved(After(h), i.event.laddr, i.event.now, After(h).fp2path[i.event.chosen])
    ensures i.event.OnPath? && !Switches(h, i) ==> Step(After(h), i.event) == After(h)
  {
    AfterIsCore(h);
    if i.event.OnPath? {
      AssignmentIsLastAnswer(h, i.event.laddr);
      PathTells(After(h), i.event);
    }
  }

  lemma {:induction false} PreferencesAreLast(h: seq<Seen>, laddr: Addr)
    requires Happened(h)
    ensures Lookup(After(h).laddr2prefs, laddr) == LastPreferences(h, laddr)
  {
    if h != [] {
      var s, e := After(Before(h)), Last(h).event;
      PreferencesAreLast(Before(h), laddr);
      AssignmentIsLastAnswer(Before(h), laddr);
      if e.OnPath? {
        SwitchIsMove(Before(h), Last(h));
      } else {
        OtherEffects(s, e);
      }
    }
  }

  lemma {:induction false} SwitchTimeIsLastClock(h: seq<Seen>, laddr: Addr)
    requires Happened(h)
    ensures Lookup(After(h).laddr2switchtime, laddr) == LastClock(h, laddr)
  {
    if h != [] {
      var s, e := After(Before(h)), Last(h).event;
      SwitchTimeIsLastClock(Before(h), laddr);
      SwitchIsMove(Before(h), Last(h));
      if !e.OnPath? {
        OtherEffects(s, e);
      }
    }
  }

  lemma {:induction false} TickCounts(h: seq<Seen>)
    requires Happened(h)
    ensures After(h).tick == Ticks(h)
  {
    if h != [] {
      TickCounts(Before(h));
      SwitchIsMove(Before(h), Last(h));
      if !Last(h).event.OnPath? {
        OtherEffects(After(Before(h)), Last(h).event);
      }
    }
  }

  lemma {:induction false} StampIsLastTaken(h: seq<Seen>, fp: Fingerprint)
    requires Happened(h)
    ensures Lookup(After(h).fp2last, fp) == LastTaken(h, fp)
  {
    if h != [] {
      StampIsLastTaken(Before(h), fp);
      TickCounts(Before(h));
      SwitchIsMove(Before(h), Last(h));
      if !Last(h).event.OnPath? {
        OtherEffects(After(Before(h)), Last(h).event);
      }
    }
  }

  /** The round-trip time stored for a path is the one measured last by a connection on it. */
  lemma {:induction false} RTTIsLast(h: seq<Seen>, fp: Fingerprint)
    requires Happened(h)
    ensures Lookup(After(h).fp2rtt, fp) == LastRTT(h, fp)
  {
    if h != [] {
      var s, e := After(Before(h)), Last(h).event;
      RTTIsLast(Before(h), fp);
      SwitchIsMove(Before(h), Last(h));
      if !e.OnPath? {
        OtherEffects(s, e);
        if e.OnUpdatedMetrics? {
          AssignmentIsLastAnswer(Before(h), e.laddr);
        }
      }
    }
  }

  lemma {:induction false} BytesArePending(h: seq<Seen>, laddr: Addr)
    requires Happened(h)
    ensures Lookup(After(h).laddr2bytes, laddr).GetOr(0) == Pending(h, laddr)
  {
    if h != [] {
      BytesArePending(Before(h), laddr);
      SwitchIsMove(Before(h), Last(h));
      if !Last(h).event.OnPath? {
        OtherEffects(After(Before(h)), Last(h).event);
      }
    }
  }

  /** The table of a live path is the one announced last. */
  lemma {:induction false} TableIsLast(h: seq<Seen>, fp: Fingerprint)
    requires Happened(h)
    ensures Lookup(After(h).fp2path, fp) == LastTable(h, fp)
  {
    if h != [] {
      TableIsLast(Before(h), fp);
      SwitchIsMove(Before(h), Last(h));
      TableEffect(After(Before(h)), Last(h).event, fp);
    }
  }

  lemma TableEffect(s: Tables, e: Event, fp: Fingerprint)
    requires KnownRemote(s, e) && (e.OnPath? ==> Step(s, e).fp2path == s.fp2path)
    ensures Lookup(Step(s, e).fp2path, fp) ==
            if (e.OnInitialize? || e.OnRefresh?) && Liveness.LastIndex(e.paths, fp).Some? then
              Some(e.paths[Liveness.LastIndex(e.paths, fp).value])
            else if e.OnPathDown? && e.fp == fp then None
            else Lookup(s.fp2path, fp)
  {
    match e
    case OnInitialize(l, r, _, ps, now) => Liveness.AnnounceTables(Greet(s, l, r, now), r, ps, fp);
    case OnRefresh(l, r, ps, now) => Liveness.AnnounceTables(Greet(s, l, r, now), r, ps, fp);
    case OnPathDown(_, r, g) => assert PathDown(s, r, g).0.fp2path == s.fp2path - {g};
    case OnPath(_, _, _, _, _) =>
    case _ => OthersKeepPaths(s, e);
  }

  lemma OthersKeepPaths(s: Tables, e: Event)
    requires e.OnSetPreferences? || e.OnClose? || e.OnSentPacket? || e.OnUpdatedMetrics? || e.OnPeriodic?
    ensures Step(s, e).fp2path == s.fp2path && Step(s, e).raddr2fps == s.raddr2fps
  {
    match e
    case OnSetPreferences(l, prefs) => Liveness.SetPreferencesOnlyDrops(s, prefs, l);
    case OnClose(l) => Liveness.CloseOnlyDrops(s, l);
    case OnSentPacket(l, size) => Liveness.SentPacketOnlyDrops(s, l, size);
    case OnUpdatedMetrics(l, rtt) => Liveness.UpdatedMetricsOnlyDrops(s, l, rtt);
    case OnPeriodic =>
  }

  predicate Lists(s: Tables, raddr: Addr, fp: Fingerprint) {
    raddr in s.raddr2fps && fp in s.raddr2fps[raddr]
  }

  /** The list of a remote holds what was announced for it and not reported down for it since. */
  lemma {:induction false} ListIsStillListed(h: seq<Seen>, raddr: Addr, fp: Fingerprint)
    requires Happened(h)
    ensures Lists(After(h), raddr, fp) <==> StillListed(h, raddr, fp)
  {
    if h != [] {
      ListIsStillListed(Before(h), raddr, fp);
      AfterIsCore(Before(h));
      SwitchIsMove(Before(h), Last(h));
      ListEffect(After(Before(h)), Last(h).event, raddr, fp);
    }
  }

  lemma ListEffect(s: Tables, e: Event, raddr: Addr, fp: Fingerprint)
    requires Core(s) && KnownRemote(s, e) && (e.OnPath? ==> Step(s, e).raddr2fps == s.raddr2fps)
    ensures Lists(Step(s, e), raddr, fp) <==>
            if (e.OnInitialize? || e.OnRefresh?) && e.raddr == raddr && Liveness.LastIndex(e.paths, fp).Some? then true
            else if e.OnPathDown? && e.raddr == raddr && e.fp == fp then false
            else Lists(s, raddr, fp)
  {
    match e
    case OnInitialize(l, r, prefs, ps, now) => AnnouncedList(s, prefs, l, r, ps, now, raddr, fp);
    case OnRefresh(l, r, ps, now) => AnnouncedList(s, None, l, r, ps, now, raddr, fp);
    case OnPathDown(_, r, g) =>
      PathDownExact(s, r, g);
      WithoutMembers(s.raddr2fps[r], g);
    case OnPath(_, _, _, _, _) =>
    case _ => OthersKeepPaths(s, e);
  }

  lemma AnnouncedList(s: Tables, prefs: Option<Prefs>, laddr: Addr, r: Addr, ps: seq<Path>, now: int, raddr: Addr, fp: Fingerprint)
    ensures Lists(Initialize(s, prefs, laddr, r, ps, now).0, raddr, fp) <==>
            Lists(s, raddr, fp) || (raddr == r && Liveness.LastIndex(ps, fp).Some?)
  {
    Liveness.InitializeLists(s, prefs, laddr, r, ps, now);
    var i := Liveness.LastIndex(ps, fp);
    if i.Some? {
      assert ps[i.value] in ps && fp in Liveness.Fingerprints(ps);
    }
  }

  // ----- bytes and estimates -----

  /** All bytes reported for a connection. */
  function Reported(h: seq<Seen>, laddr: Addr): nat {
    if h == [] then 0
    else Reported(Before(h), laddr) + if Last(h).event.OnSentPacket? && Last(h).event.laddr == laddr then Last(h).event.size else 0
  }

  /** The bytes that counted in a sample: pending ones when the connection left a path. */
  function Credited(h: seq<Seen>, laddr: Addr): nat {
    if h == [] then 0
    else
      var e := Last(h).event;
      Credited(Before(h), laddr) +
        if Switched(h, laddr) && LastAnswer(Before(h), laddr).Some? then Pending(Before(h), laddr) else 0
  }

  /** The bytes that counted nowhere: pending ones when a connection without a path got one. */
  function Dropped(h: seq<Seen>, laddr: Addr): nat {
    if h == [] then 0
    else
      var e := Last(h).event;
      Dropped(Before(h), laddr) +
        if Switched(h, laddr) && LastAnswer(Before(h), laddr).None? then Pending(Before(h), laddr) else 0
  }

  /** Every reported byte counted in one sample, was dropped, or is in the counter of the connection. */
  lemma {:induction false} BytesAreConserved(h: seq<Seen>, laddr: Addr)
    requires Happened(h)
    ensures Reported(h, laddr) ==
            Credited(h, laddr) + Dropped(h, laddr) + Lookup(After(h).laddr2bytes, laddr).GetOr(0)
  {
    BytesArePending(h, laddr);
    if h != [] {
      BytesAreConserved(Before(h), laddr);
      BytesArePending(Before(h), laddr);
    }
  }

  /** The moving average of a series of samples. */
  function Average(xs: seq<real>): real {
    if xs == [] then 0.0 else (9.0 * Average(xs[..|xs| - 1]) + xs[|xs| - 1]) / 10.0
  }

  /** Bytes per microsecond, for each stay. */
  function Rates(stays: seq<Stay>): seq<real>
    requires forall i | 0 <= i < |stays| :: stays[i].time > 0
  {
    seq(|stays|, i requires 0 <= i < |stays| => stays[i].bytes as real / stays[i].time as real)
  }

  lemma RatesOfOneMore(stays: seq<Stay>, stay: Stay)
    requires (forall i | 0 <= i < |stays| :: stays[i].time > 0) && stay.time > 0
    ensures forall i | 0 <= i < |stays + [stay]| :: (stays + [stay])[i].time > 0
    ensures Rates(stays + [stay]) == Rates(stays) + [stay.bytes as real / stay.time as real]
  {
  }

  lemma AverageOfOneMore(xs: seq<real>, x: real)
    ensures Average(xs + [x]) == (9.0 * Average(xs) + x) / 10.0
  {
    var ys := xs + [x];
    assert ys[..|ys| - 1] == xs && ys[|ys| - 1] == x;
  }

  /** Every stay lasted longer than a second. */
  ghost predicate Long(stays: seq<Stay>) {
    forall i | 0 <= i < |stays| :: stays[i].time > 1000000
  }

  /** The estimate of a path, if it is one of these stays. */
  ghost predicate EstimatedFrom(s: Tables, fp: Fingerprint, stays: seq<Stay>) {
    && Long(stays)
    && Lookup(s.fp2bw, fp) == if stays == [] then None else Some(Average(Rates(stays)))
  }

  /** One more stay on the path. */
  lemma OneMoreStay(s: Tables, t: Tables, fp: Fingerprint, stays: seq<Stay>, stay: Stay)
    requires EstimatedFrom(s, fp, stays) && stay.time > 1000000
    requires Lookup(t.fp2bw, fp) ==
             Some((9.0 * Lookup(s.fp2bw, fp).GetOr(0.0) + stay.bytes as real / stay.time as real) / 10.0)
    ensures EstimatedFrom(t, fp, stays + [stay])
  {
    RatesOfOneMore(stays, stay);
    AverageOfOneMore(Rates(stays), stay.bytes as real / stay.time as real);
  }

  /** A connection that leaves a path adds one sample to the estimate of that path, with weight 1/10: its
      bytes over the time since its switch clock was set, which is more than a second. */
  lemma DepartureAddsSample(s: Tables, e: Event)
    requires Core(s) && Accounting.Departs(s, e)
    ensures e.laddr in s.laddr2switchtime
    ensures var from, time := s.laddr2fp[e.laddr], e.now - s.laddr2switchtime[e.laddr];
            var bytes := Lookup(s.laddr2bytes, e.laddr).GetOr(0);
            && time > 1000000
            && Step(s, e).fp2bw == s.fp2bw[from := (9.0 * Lookup(s.fp2bw, from).GetOr(0.0) + bytes as real / time as real) / 10.0]
  {
    Accounting.MovesExactly(s, e);
    Accounting.DepartsAfterHysteresis(s, e);
    var bytes := Lookup(s.laddr2bytes, e.laddr).GetOr(0);
    SampleIsQuotient(s, e.laddr, e.now, bytes, e.now - s.laddr2switchtime[e.laddr]);
  }

  lemma SampleIsQuotient(s: Tables, laddr: Addr, now: int, bytes: nat, time: int)
    requires laddr in s.laddr2switchtime && time == now - s.laddr2switchtime[laddr] && time > 0
    requires bytes == Lookup(s.laddr2bytes, laddr).GetOr(0)
    ensures Sample(s, laddr, now) == bytes as real / time as real
  {
  }

  lemma DepartureEstimates(s: Tables, e: Event, fp: Fingerprint, stays: seq<Stay>, stay: Stay)
    requires Core(s) && Accounting.Departs(s, e) && s.laddr2fp[e.laddr] == fp && EstimatedFrom(s, fp, stays)
    requires stay.bytes == Lookup(s.laddr2bytes, e.laddr).GetOr(0)
    requires Some(e.now - stay.time) == Lookup(s.laddr2switchtime, e.laddr)
    ensures EstimatedFrom(Step(s, e), fp, stays + [stay])
  {
    DepartureAddsSample(s, e);
    OneMoreStay(s, Step(s, e), fp, stays, stay);
  }

  lemma OtherMoveEstimates(s: Tables, e: Event, fp: Fingerprint, stays: seq<Stay>)
    requires Core(s) && Accounting.Moves(s, e) && Lookup(s.laddr2fp, e.laddr) != Some(fp) && EstimatedFrom(s, fp, stays)
    ensures EstimatedFrom(Step(s, e), fp, stays)
  {
    if e.laddr in s.laddr2fp {
      DepartureAddsSample(s, e);
    } else {
      Accounting.MovesExactly(s, e);
      assert Step(s, e).fp2bw == s.fp2bw;
    }
  }

  lemma MoveEstimates(s: Tables, e: Event, answer: Option<Fingerprint>, pending: nat, clock: Option<int>,
                      fp: Fingerprint, stays: seq<Stay>)
    requires Core(s) && Accounting.Moves(s, e) && EstimatedFrom(s, fp, stays)
    requires Lookup(s.laddr2fp, e.laddr) == answer && Lookup(s.laddr2switchtime, e.laddr) == clock
    requires Lookup(s.laddr2bytes, e.laddr).GetOr(0) == pending
    ensures EstimatedFrom(Step(s, e), fp,
                          if answer == Some(fp) then stays + [Stay(pending, e.now - clock.GetOr(e.now))] else stays)
  {
    if answer == Some(fp) {
      assert e.laddr in s.laddr2switchtime;
      DepartureEstimates(s, e, fp, stays, Stay(pending, e.now - clock.value));
    } else {
      OtherMoveEstimates(s, e, fp, stays);
    }
  }

  lemma SwitchMoves(h: seq<Seen>, i: Seen)
    requires Happened(h) && Fits(After(h), i) && Switches(h, i)
    ensures Accounting.Moves(After(h), i.event)
  {
    SwitchIsMove(h, i);
  }

  /** The tables keep what the history tells of the stay of a connection. */
  lemma TablesKeepStay(h: seq<Seen>, laddr: Addr)
    requires Happened(h)
    ensures Core(After(h))
    ensures Lookup(After(h).laddr2fp, laddr) == LastAnswer(h, laddr)
    ensures Lookup(After(h).laddr2switchtime, laddr) == LastClock(h, laddr)
    ensures Lookup(After(h).laddr2bytes, laddr).GetOr(0) == Pending(h, laddr)
  {
    AfterIsCore(h);
    AssignmentIsLastAnswer(h, laddr);
    SwitchTimeIsLastClock(h, laddr);
    BytesArePending(h, laddr);
  }

  lemma NoSwitchEstimates(s: Tables, e: Event, fp: Fingerprint, stays: seq<Stay>)
    requires EstimatedFrom(s, fp, stays) && KnownRemote(s, e) && (e.OnPath? ==> Step(s, e) == s)
    ensures EstimatedFrom(Step(s, e), fp, if e.OnPathDown? && e.fp == fp then [] else stays)
  {
    if !e.OnPath? {
      OtherEffects(s, e);
    }
  }

  /** The estimate of a path is the moving average of bytes over time of exactly the stays that ended since
      the path was last reported down, each of which lasted longer than a second. */
  lemma {:induction false} EstimateIsAverage(h: seq<Seen>, fp: Fingerprint)
    requires Happened(h)
    ensures EstimatedFrom(After(h), fp, Stays(h, fp))
  {
    if h != [] {
      EstimateIsAverage(Before(h), fp);
      SwitchIsMove(Before(h), Last(h));
      if Switches(Before(h), Last(h)) {
        var past, e := Before(h), Last(h).event;
        SwitchMoves(past, Last(h));
        TablesKeepStay(past, e.laddr);
        MoveEstimates(After(past), e, LastAnswer(past, e.laddr), Pending(past, e.laddr), LastClock(past, e.laddr), fp, Stays(past, fp));
      } else {
        NoSwitchEstimates(After(Before(h)), Last(h).event, fp, Stays(Before(h), fp));
      }
    }
  }

  // ----- the moving average -----

  /** The average lies between 0 and any bound on the samples. */
  lemma {:induction false} AverageWithin(xs: seq<real>, peak: real)
    requires peak >= 0.0
    requires forall i | 0 <= i < |xs| :: 0.0 <= xs[i] <= peak
    ensures 0.0 <= Average(xs) <= peak
  {
    if xs != [] {
      AverageWithin(xs[..|xs| - 1], peak);
    }
  }

  lemma RatesWithin(stays: seq<Stay>, peak: real)
    requires Long(stays) && forall stay | stay in stays && stay.time > 0 :: stay.bytes as real / stay.time as real <= peak
    ensures forall i | 0 <= i < |Rates(stays)| :: 0.0 <= Rates(stays)[i] <= peak
  {
    forall i | 0 <= i < |stays| ensures 0.0 <= Rates(stays)[i] <= peak {
      assert stays[i] in stays;
      QuotientNotNegative(stays[i].bytes, stays[i].time);
    }
  }

  lemma QuotientNotNegative(bytes: nat, time: int)
    requires time > 0
    ensures bytes as real / time as real >= 0.0
  {
  }

  /** In every reachable state the estimate of a path lies between 0 and the largest sample contributed
      since the path was last reported down. */
  lemma EstimateWithinSamples(h: seq<Seen>, fp: Fingerprint, peak: real)
    requires Happened(h) && fp in After(h).fp2bw
    requires forall stay | stay in Stays(h, fp) && stay.time > 0 :: stay.bytes as real / stay.time as real <= peak
    ensures 0.0 <= After(h).fp2bw[fp] <= peak
  {
    EstimateIsAverage(h, fp);
    var xs := Rates(Stays(h, fp));
    RatesWithin(Stays(h, fp), peak);
    assert |xs| > 0 && 0.0 <= xs[0] <= peak;
    AverageWithin(xs, peak);
  }

  lemma {:induction false} AverageNotNegative(xs: seq<real>)
    requires forall i | 0 <= i < |xs| :: xs[i] >= 0.0
    ensures Average(xs) >= 0.0
  {
    if xs != [] {
      AverageNotNegative(xs[..|xs| - 1]);
    }
  }

  lemma EstimateNotNegative(h: seq<Seen>, fp: Fingerprint)
    requires Happened(h) && fp in After(h).fp2bw
    ensures After(h).fp2bw[fp] >= 0.0
  {
    EstimateIsAverage(h, fp);
    var stays := Stays(h, fp);
    forall i | 0 <= i < |stays| ensures Rates(stays)[i] >= 0.0 {
      QuotientNotNegative(stays[i].bytes, stays[i].time);
    }
    AverageNotNegative(Rates(stays));
  }

  function Power(b: real, k: nat): real {
    if k == 0 then 1.0 else b * Power(b, k - 1)
  }

  /** The distance after k steps that each take away a tenth of it. */
  function Shrunk(distance: real, k: nat): real {
    if k == 0 then distance else 0.9 * Shrunk(distance, k - 1)
  }

  lemma {:induction false} ShrunkByPower(distance: real, k: nat)
    ensures Shrunk(distance, k) == Power(0.9, k) * distance
  {
    if k > 0 {
      ShrunkByPower(distance, k - 1);
      Associates(0.9, Power(0.9, k - 1), distance);
    }
  }

  lemma Associates(a: real, b: real, c: real)
    ensures a * (b * c) == a * b * c
  {
  }

  function Repeated(x: real, k: nat): seq<real> {
    if k == 0 then [] else Repeated(x, k - 1) + [x]
  }

  lemma TenthOff(estimate: real, x: real, distance: real)
    requires estimate - x == distance
    ensures (9.0 * estimate + x) / 10.0 - x == 0.9 * distance
  {
  }

  /** One more equal sample, the ones before being `ys`. */
  lemma OneMoreShrinks(ys: seq<real>, x: real, distance: real)
    requires Average(ys) - x == distance
    ensures Average(ys + [x]) - x == 0.9 * distance
  {
    AverageOfOneMore(ys, x);
    TenthOff(Average(ys), x, distance);
  }

  lemma RepeatedTail(xs: seq<real>, x: real, k: nat)
    requires k > 0
    ensures xs + Repeated(x, k) == xs + Repeated(x, k - 1) + [x]
  {
  }

  lemma {:induction false} AverageShrinks(xs: seq<real>, x: real, k: nat)
    ensures Average(xs + Repeated(x, k)) - x == Shrunk(Average(xs) - x, k)
  {
    if k == 0 {
      assert xs + Repeated(x, k) == xs;
    } else {
      AverageShrinks(xs, x, k - 1);
      RepeatedTail(xs, x, k);
      OneMoreShrinks(xs + Repeated(x, k - 1), x, Shrunk(Average(xs) - x, k - 1));
    }
  }

  /** k equal samples in a row shrink the distance of the estimate to that sample by (9/10)^k. */
  lemma AverageConverges(xs: seq<real>, x: real, k: nat)
    ensures Average(xs + Repeated(x, k)) - x == Power(0.9, k) * (Average(xs) - x)
  {
    AverageShrinks(xs, x, k);
    ShrunkByPower(Average(xs) - x, k);
  }
}
