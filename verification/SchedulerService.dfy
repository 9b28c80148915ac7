/** Which path a connection gets: the one its preferences ask for, as far as the paths are measured. */
module SchedulerService {
  import opened Options
  import opened SchedulerModel
  import opened SchedulerInvariants
  import opened SchedulerLiveness
  import opened SchedulerFairness
  import opened SchedulerHistory

  predicate WantsLatency(profile: Option<string>) {
    profile == Some("LowLatencyInteractive") || profile == Some("LowLatencyNonInteractive")
  }

  predicate WantsNothing(profile: Option<string>) {
    !WantsLatency(profile) && profile != Some("CapacitySeeking") && profile != Some("Scavenger")
  }

  ghost predicate LeastRTT(s: Tables, list: seq<Fingerprint>, fp: Fingerprint)
    requires forall g | g in list :: g in s.fp2rtt
  {
    fp in list && forall g | g in list :: s.fp2rtt[fp] <= s.fp2rtt[g]
  }

  ghost predicate GreatestShare(s: Tables, list: seq<Fingerprint>, fp: Fingerprint) {
    fp in list && forall g | g in list :: NoBetterShare(s, g, fp)
  }

  ghost predicate LongestUnused(s: Tables, list: seq<Fingerprint>, fp: Fingerprint) {
    fp in list && forall g | g in list :: Stamp(s, fp) <= Stamp(s, g)
  }

  /** Shares can be compared: every path of the list has an estimate or is idle, and none is indefinite. */
  ghost predicate Comparable(s: Tables, list: seq<Fingerprint>) {
    && Measurable(s, list)
    && forall g | g in list :: (g in s.fp2bw || s.fp2laddrs[g] == 0) && !Indefinite(s, g)
  }

  /** What the path means to a connection with these preferences. */
  ghost predicate Served(s: Tables, laddr: Addr, raddr: Addr, roll: nat, fp: Fingerprint)
    requires raddr in s.raddr2fps && laddr in s.laddr2prefs
  {
    var list, profile := s.raddr2fps[raddr], s.laddr2prefs[laddr].profile;
    if Current(s, laddr).None? then LeastLoaded(s, raddr, fp)
    else if roll == 1 then LongestUnused(s, list, fp)
    else
      && fp in list
      && (WantsLatency(profile) && (forall g | g in list :: g in s.fp2rtt) ==> LeastRTT(s, list, fp))
      && (profile == Some("CapacitySeeking") && Comparable(s, list) ==> GreatestShare(s, list, fp))
      && (profile == Some("Scavenger") ==> LeastLoaded(s, raddr, fp))
  }

  /** A connection without a path is given a least-loaded one, whatever it prefers and whatever is drawn; on
      a draw of 1 it is given one unused for longest; and any of these may be given. */
  lemma FirstAndExplorationExactly(s: Tables, laddr: Addr, raddr: Addr, now: int, roll: nat, fp: Fingerprint)
    requires Consults(s, laddr, raddr, now)
    ensures Current(s, laddr).None? ==> (MayChoose(s, laddr, raddr, now, roll, fp) <==> LeastLoaded(s, raddr, fp))
    ensures Current(s, laddr).Some? && roll == 1 ==>
              (MayChoose(s, laddr, raddr, now, roll, fp) <==> LongestUnused(s, s.raddr2fps[raddr], fp))
  {
    FirstByLoadIsLeastLoaded(s, raddr, fp);
    FirstByStampIsOldest(s, s.raddr2fps[raddr], fp);
  }

  /** A chooser is due for a connection that has a path, and it does not explore. */
  ghost predicate ByProfile(s: Tables, laddr: Addr, raddr: Addr, now: int, roll: nat) {
    Consults(s, laddr, raddr, now) && Current(s, laddr).Some? && roll != 1
  }

  lemma LatencyExactly(s: Tables, laddr: Addr, raddr: Addr, now: int, roll: nat, fp: Fingerprint)
    requires ByProfile(s, laddr, raddr, now, roll) && WantsLatency(s.laddr2prefs[laddr].profile)
    requires forall g | g in s.raddr2fps[raddr] :: g in s.fp2rtt
    ensures MayChoose(s, laddr, raddr, now, roll, fp) <==> LeastRTT(s, s.raddr2fps[raddr], fp)
  {
    BestRTTIsLeast(s, s.raddr2fps[raddr], fp);
  }

  lemma CapacityExactly(s: Tables, laddr: Addr, raddr: Addr, now: int, roll: nat, fp: Fingerprint)
    requires ByProfile(s, laddr, raddr, now, roll) && s.laddr2prefs[laddr].profile == Some("CapacitySeeking")
    requires Comparable(s, s.raddr2fps[raddr])
    ensures MayChoose(s, laddr, raddr, now, roll, fp) <==> GreatestShare(s, s.raddr2fps[raddr], fp)
  {
    BestShareIsGreatest(s, s.raddr2fps[raddr], fp);
  }

  lemma ScavengerExactly(s: Tables, laddr: Addr, raddr: Addr, now: int, roll: nat, fp: Fingerprint)
    requires ByProfile(s, laddr, raddr, now, roll) && s.laddr2prefs[laddr].profile == Some("Scavenger")
    ensures MayChoose(s, laddr, raddr, now, roll, fp) <==> LeastLoaded(s, raddr, fp)
  {
    FirstByLoadIsLeastLoaded(s, raddr, fp);
  }

  lemma AnyExactly(s: Tables, laddr: Addr, raddr: Addr, now: int, roll: nat, fp: Fingerprint)
    requires ByProfile(s, laddr, raddr, now, roll) && WantsNothing(s.laddr2prefs[laddr].profile)
    ensures MayChoose(s, laddr, raddr, now, roll, fp) <==> fp in s.raddr2fps[raddr]
  {
  }

  /** Otherwise its preferences decide: least round-trip time, greatest bandwidth per connection, least load,
      or any listed path. */
  lemma ProfileExactly(s: Tables, laddr: Addr, raddr: Addr, now: int, roll: nat, fp: Fingerprint)
    requires ByProfile(s, laddr, raddr, now, roll)
    ensures var list, profile := s.raddr2fps[raddr], s.laddr2prefs[laddr].profile;
            && (WantsLatency(profile) && (forall g | g in list :: g in s.fp2rtt) ==>
                  (MayChoose(s, laddr, raddr, now, roll, fp) <==> LeastRTT(s, list, fp)))
            && (profile == Some("CapacitySeeking") && Comparable(s, list) ==>
                  (MayChoose(s, laddr, raddr, now, roll, fp) <==> GreatestShare(s, list, fp)))
            && (profile == Some("Scavenger") ==>
                  (MayChoose(s, laddr, raddr, now, roll, fp) <==> LeastLoaded(s, raddr, fp)))
            && (WantsNothing(profile) ==> (MayChoose(s, laddr, raddr, now, roll, fp) <==> fp in list))
  {
    var list, profile := s.raddr2fps[raddr], s.laddr2prefs[laddr].profile;
    if WantsLatency(profile) && (forall g | g in list :: g in s.fp2rtt) {
      LatencyExactly(s, laddr, raddr, now, roll, fp);
    } else if profile == Some("CapacitySeeking") && Comparable(s, list) {
      CapacityExactly(s, laddr, raddr, now, roll, fp);
    } else if profile == Some("Scavenger") {
      ScavengerExactly(s, laddr, raddr, now, roll, fp);
    } else if WantsNothing(profile) {
      AnyExactly(s, laddr, raddr, now, roll, fp);
    }
  }

  /** Whatever a chooser comes up with serves the connection. */
  lemma ChoiceServes(s: Tables, laddr: Addr, raddr: Addr, now: int, roll: nat, fp: Fingerprint)
    requires Consults(s, laddr, raddr, now) && MayChoose(s, laddr, raddr, now, roll, fp)
    ensures Served(s, laddr, raddr, roll, fp)
  {
    FirstAndExplorationExactly(s, laddr, raddr, now, roll, fp);
    MayChooseListed(s, laddr, raddr, now, roll, fp);
    if Current(s, laddr).Some? && roll != 1 {
      ProfileExactly(s, laddr, raddr, now, roll, fp);
    }
  }

  // ----- over whole runs -----

  /** A chooser is asked exactly when the connection has no path, or more than a second has passed since it
      was last initialised, refreshed or switched: only then does it get whatever other path is chosen. */
  lemma DueExactly(h: seq<Seen>, laddr: Addr, raddr: Addr, now: int, fp: Fingerprint)
    requires Happened(h) && LastPreferences(h, laddr).Some?
    requires raddr in After(h).raddr2fps && After(h).raddr2fps[raddr] != []
    requires LastTable(h, fp).Some? && LastAnswer(h, laddr) != Some(fp)
    ensures Told(After(h), OnPath(laddr, raddr, now, 2, fp)) == Some(fp) <==>
            LastAnswer(h, laddr).None? || (LastClock(h, laddr).Some? && now - LastClock(h, laddr).value > 1000000)
  {
    AfterIsCore(h);
    AssignmentIsLastAnswer(h, laddr);
    PreferencesAreLast(h, laddr);
    SwitchTimeIsLastClock(h, laddr);
    TableIsLast(h, fp);
    DueInTables(After(h), laddr, raddr, now, fp);
  }

  lemma DueInTables(s: Tables, laddr: Addr, raddr: Addr, now: int, fp: Fingerprint)
    requires Core(s) && laddr in s.laddr2prefs && raddr in s.raddr2fps && s.raddr2fps[raddr] != []
    requires fp in s.fp2path && Lookup(s.laddr2fp, laddr) != Some(fp)
    ensures Told(s, OnPath(laddr, raddr, now, 2, fp)) == Some(fp) <==>
            laddr !in s.laddr2fp || (laddr in s.laddr2switchtime && now - s.laddr2switchtime[laddr] > 1000000)
  {
    MoveKeepsCore(s, laddr, now, s.fp2path[fp]);
    assert laddr in s.laddr2fp ==> s.laddr2fp[laddr] in s.fp2path;
    assert s.fp2path[fp].fingerprint == fp;
  }

  /** After any orderly run: once more than a second has passed for a connection that has a path, and unless
      the draw is 1, its next call returns a path that serves the preferences given last, by what was measured
      last. */
  lemma PathServesPreferences(home: Addr -> Addr, es: seq<Event>, laddr: Addr, now: int, roll: nat, chosen: Fingerprint)
    requires Along((t, e) => Orderly(home, t, e), EMPTY, es)
    requires Legal(Run(EMPTY, es), OnPath(laddr, home(laddr), now, roll, chosen)) && roll != 1
    requires LastAnswer(Trace(es), laddr).Some? && LastPreferences(Trace(es), laddr).Some?
    requires LastClock(Trace(es), laddr).Some? && now - LastClock(Trace(es), laddr).value > 1000000
    ensures var h, s, raddr := Trace(es), Run(EMPTY, es), home(laddr);
            var told, profile := Told(s, OnPath(laddr, raddr, now, roll, chosen)), LastPreferences(h, laddr).value.profile;
            && told.Some? && StillListed(h, raddr, told.value)
            && (WantsLatency(profile) && (forall g | StillListed(h, raddr, g) :: LastRTT(h, g).Some?) ==>
                  LastRTT(h, told.value).Some? &&
                  forall g | StillListed(h, raddr, g) :: LastRTT(h, told.value).value <= LastRTT(h, g).value)
            && (profile == Some("CapacitySeeking") && raddr in s.raddr2fps && Comparable(s, s.raddr2fps[raddr]) ==>
                  forall g | StillListed(h, raddr, g) :: NoBetterShare(s, g, told.value))
            && (profile == Some("Scavenger") ==> forall g | StillListed(h, raddr, g) :: Load(s, told.value) <= Load(s, g))
  {
    var h, s, raddr := Trace(es), Run(EMPTY, es), home(laddr);
    ReachedFacts(home, es, laddr);
    var list := s.raddr2fps[raddr];
    ChoiceServes(s, laddr, raddr, now, roll, chosen);
    ConsultedAnswer(s, laddr, raddr, now, roll, chosen);
    forall g ensures StillListed(h, raddr, g) <==> g in list {
      ListIsStillListed(h, raddr, g);
    }
    forall g ensures LastRTT(h, g) == Lookup(s.fp2rtt, g) {
      RTTIsLast(h, g);
    }
  }

  lemma ReachedFacts(home: Addr -> Addr, es: seq<Event>, laddr: Addr)
    requires Along((t, e) => Orderly(home, t, e), EMPTY, es)
    requires LastAnswer(Trace(es), laddr).Some? && LastPreferences(Trace(es), laddr).Some?
    requires LastClock(Trace(es), laddr).Some?
    ensures var h, s, raddr := Trace(es), Run(EMPTY, es), home(laddr);
            && Happened(h) && After(h) == s && Core(s) && ListedLive(s)
            && raddr in s.raddr2fps && s.raddr2fps[raddr] != []
            && Current(s, laddr).Some? && Lookup(s.laddr2prefs, laddr) == LastPreferences(h, laddr)
            && Lookup(s.laddr2switchtime, laddr) == LastClock(h, laddr)
  {
    var h := Trace(es);
    EmptyIsOrderly(home);
    RunKeepsOrder(home, EMPTY, es);
    OrderlyKnowsRemotes(home, EMPTY, es);
    TraceHappened(es);
    AssignmentIsLastAnswer(h, laddr);
    PreferencesAreLast(h, laddr);
    SwitchTimeIsLastClock(h, laddr);
    assert After(h).laddr2fp[laddr] in After(h).raddr2fps[home(laddr)];
  }

  /** The answer to a call that asks a chooser is what the chooser comes up with. */
  lemma ConsultedAnswer(s: Tables, laddr: Addr, raddr: Addr, now: int, roll: nat, chosen: Fingerprint)
    requires Core(s) && ListedLive(s) && Consults(s, laddr, raddr, now) && MayChoose(s, laddr, raddr, now, roll, chosen)
    ensures Told(s, OnPath(laddr, raddr, now, roll, chosen)) == Some(chosen)
  {
    MayChooseListed(s, laddr, raddr, now, roll, chosen);
    assert chosen in s.fp2path && s.fp2path[chosen].fingerprint == chosen;
    if Lookup(s.laddr2fp, laddr) != Some(chosen) {
      MoveKeepsCore(s, laddr, now, s.fp2path[chosen]);
    }
  }
}
