/** When a call of `Path` is bound to end, and when its recovery call may repeat for ever. */
module SchedulerRecovery {
  import opened Options
  import opened SchedulerModel
  import opened SchedulerInvariants
  import opened SchedulerLiveness
  import Fairness = SchedulerFairness
  import Accounting = SchedulerAccounting

  /** A pass that begins at the given time may end in the recovery call. */
  ghost predicate MayRetry(s: Tables, laddr: Addr, raddr: Addr, now: int) {
    exists roll, chosen :: Retries(s, laddr, raddr, Attempt(now, roll, chosen))
  }

  ghost predicate Retries(s: Tables, laddr: Addr, raddr: Addr, a: Attempt) {
    && Legal(s, OnPath(laddr, raddr, a.now, a.roll, a.chosen))
    && PathPass(s, laddr, raddr, a.now, a.chosen).1.Retry?
  }

  /** A call that begins at the given time ends after its first pass, whatever the sort and the draw do. */
  ghost predicate BoundToEnd(s: Tables, laddr: Addr, raddr: Addr, now: int) {
    forall attempts: seq<Attempt> | LegalAttempts(s, laddr, raddr, attempts) && attempts != [] && attempts[0].now == now ::
      !PathCall(s, laddr, raddr, attempts).1.Retry?
  }

  /** A call that begins at the given time may go on calling itself however long the clock runs: `clock`
      gives the readings of its passes, none earlier than the first. */
  ghost predicate MayNeverEnd(s: Tables, laddr: Addr, raddr: Addr, now: int) {
    forall clock: seq<int> | clock != [] && clock[0] == now && (forall i | 0 <= i < |clock| :: clock[i] >= now) ::
      exists attempts: seq<Attempt> :: RepeatsAlong(s, laddr, raddr, clock, attempts)
  }

  ghost predicate RepeatsAlong(s: Tables, laddr: Addr, raddr: Addr, clock: seq<int>, attempts: seq<Attempt>) {
    && |attempts| == |clock| && (forall i | 0 <= i < |clock| :: attempts[i].now == clock[i])
    && LegalAttempts(s, laddr, raddr, attempts)
    && PathCall(s, laddr, raddr, attempts) == (s, Retry)
  }

  /** Once a pass may end in the recovery call, so may every later one. */
  lemma RetriesLater(s: Tables, laddr: Addr, raddr: Addr, a: Attempt, now: int)
    requires Retries(s, laddr, raddr, a) && now >= a.now
    ensures Retries(s, laddr, raddr, a.(now := now))
  {
  }

  lemma {:induction false} RetriesThroughout(s: Tables, laddr: Addr, raddr: Addr, a: Attempt, clock: seq<int>) returns (attempts: seq<Attempt>)
    requires Retries(s, laddr, raddr, a) && forall i | 0 <= i < |clock| :: clock[i] >= a.now
    ensures RepeatsAlong(s, laddr, raddr, clock, attempts)
  {
    if clock == [] {
      attempts := [];
    } else {
      var first := a.(now := clock[0]);
      var rest := RetriesThroughout(s, laddr, raddr, a, clock[1..]);
      RetriesLater(s, laddr, raddr, a, clock[0]);
      OnePass(s, laddr, raddr, first);
      OneMorePass(s, laddr, raddr, first, rest);
      attempts := [first] + rest;
    }
  }

  /** There is nothing between the two: a call ends after its first pass, or it may go on for ever. */
  lemma EndsOrMayNeverEnd(s: Tables, laddr: Addr, raddr: Addr, now: int)
    ensures BoundToEnd(s, laddr, raddr, now) <==> !MayRetry(s, laddr, raddr, now)
    ensures MayNeverEnd(s, laddr, raddr, now) <==> MayRetry(s, laddr, raddr, now)
  {
    if roll, chosen :| Retries(s, laddr, raddr, Attempt(now, roll, chosen)) {
      var a := Attempt(now, roll, chosen);
      OnePass(s, laddr, raddr, a);
      assert LegalAttempts(s, laddr, raddr, [a]) && [a][0].now == now;
      forall clock: seq<int> | clock != [] && clock[0] == now && (forall i | 0 <= i < |clock| :: clock[i] >= now)
        ensures exists attempts: seq<Attempt> :: RepeatsAlong(s, laddr, raddr, clock, attempts)
      {
        var attempts := RetriesThroughout(s, laddr, raddr, a, clock);
      }
    } else {
      forall attempts: seq<Attempt> | LegalAttempts(s, laddr, raddr, attempts) && attempts != [] && attempts[0].now == now
        ensures !PathCall(s, laddr, raddr, attempts).1.Retry?
      {
        var a := attempts[0];
        assert a == Attempt(now, a.roll, a.chosen);
        assert !Retries(s, laddr, raddr, a);
      }
      assert MayNeverEnd(s, laddr, raddr, now) ==> exists attempts: seq<Attempt> :: RepeatsAlong(s, laddr, raddr, [now], attempts);
    }
  }

  /** For any connection: a pass may end in the recovery call exactly when a chooser is due and some draw
      lets it come up with a dead path. */
  lemma MayRetryExactly(s: Tables, laddr: Addr, raddr: Addr, now: int)
    requires Core(s)
    ensures MayRetry(s, laddr, raddr, now) <==>
            && Consults(s, laddr, raddr, now)
            && exists roll, fp :: 1 <= roll <= 100 && MayChoose(s, laddr, raddr, now, roll, fp) && fp !in s.fp2path
  {
    forall roll: nat, fp
      ensures Retries(s, laddr, raddr, Attempt(now, roll, fp)) <==>
              && 1 <= roll <= 100 && Consults(s, laddr, raddr, now)
              && MayChoose(s, laddr, raddr, now, roll, fp) && fp !in s.fp2path
    {
      RetriesExactly(s, laddr, raddr, Attempt(now, roll, fp));
    }
  }

  lemma RetriesExactly(s: Tables, laddr: Addr, raddr: Addr, a: Attempt)
    requires Core(s)
    ensures Retries(s, laddr, raddr, a) <==>
            && 1 <= a.roll <= 100 && Consults(s, laddr, raddr, a.now)
            && MayChoose(s, laddr, raddr, a.now, a.roll, a.chosen) && a.chosen !in s.fp2path
  {
    if laddr in s.laddr2fp {
      assert s.laddr2fp[laddr] in s.fp2path && laddr in s.laddr2switchtime;
    }
    if Consults(s, laddr, raddr, a.now) && a.chosen in s.fp2path && Lookup(s.laddr2fp, laddr) != Some(a.chosen) {
      MoveKeepsCore(s, laddr, a.now, s.fp2path[a.chosen]);
    }
  }

  /** A dead path is among the least-loaded of every list it is on, and among those unused for longest. */
  lemma DeadIsFirst(s: Tables, list: seq<Fingerprint>, fp: Fingerprint)
    requires Core(s) && Accounting.MeasurementsLive(s)
    requires fp in list && fp !in s.fp2path
    ensures MaySortFirst(ByLoad(s), list, fp) && MaySortFirst(ByStamp(s), list, fp)
  {
    assert Users(s.laddr2fp, fp) == {};
    assert Load(s, fp) == |Users(s.laddr2fp, fp)| == 0;
    forall g ensures Load(s, g) >= 0 {
      assert Load(s, g) == |Users(s.laddr2fp, g)|;
    }
    assert fp !in s.fp2last && Stamp(s, fp) == 0;
  }

  /** A call is bound to end exactly when no chooser is due or every listed path is live: a dead path can
      always stand first, in the sort by load and in the sort by last use. */
  lemma EndsExactly(s: Tables, laddr: Addr, raddr: Addr, now: int)
    requires Core(s) && Accounting.MeasurementsLive(s)
    ensures BoundToEnd(s, laddr, raddr, now) <==>
            (Consults(s, laddr, raddr, now) ==> forall fp | fp in s.raddr2fps[raddr] :: fp in s.fp2path)
  {
    EndsOrMayNeverEnd(s, laddr, raddr, now);
    MayRetryExactly(s, laddr, raddr, now);
    if Consults(s, laddr, raddr, now) {
      if fp :| fp in s.raddr2fps[raddr] && fp !in s.fp2path {
        DeadIsFirst(s, s.raddr2fps[raddr], fp);
        assert MayChoose(s, laddr, raddr, now, 1, fp);
      }
      forall roll, fp | MayChoose(s, laddr, raddr, now, roll, fp) ensures fp in s.raddr2fps[raddr] {
        MayChooseListed(s, laddr, raddr, now, roll, fp);
      }
    }
  }

  /** A connection with preferences can be sure of an answer at all times exactly when every path listed for
      the remote is live. */
  lemma AlwaysEndsExactly(s: Tables, laddr: Addr, raddr: Addr)
    requires Core(s) && Accounting.MeasurementsLive(s)
    requires raddr in s.raddr2fps && laddr in s.laddr2prefs
    ensures (forall now :: BoundToEnd(s, laddr, raddr, now)) <==> forall fp | fp in s.raddr2fps[raddr] :: fp in s.fp2path
  {
    forall now ensures BoundToEnd(s, laddr, raddr, now) <==>
                       (Consults(s, laddr, raddr, now) ==> forall fp | fp in s.raddr2fps[raddr] :: fp in s.fp2path)
    {
      EndsExactly(s, laddr, raddr, now);
    }
    if s.raddr2fps[raddr] != [] {
      var due := if laddr in s.laddr2switchtime then s.laddr2switchtime[laddr] + HYSTERESIS + 1 else 0;
      assert laddr in s.laddr2fp ==> laddr in s.laddr2switchtime;
      assert Consults(s, laddr, raddr, due);
    }
  }

  /** After a path is reported down for one remote, the calls for another are bound to end exactly when that
      one does not list the path, too. */
  lemma SharedPathEndsExactly(s: Tables, down: Addr, fp: Fingerprint, laddr: Addr, raddr: Addr)
    requires Core(s) && Accounting.MeasurementsLive(s) && ListedLive(s)
    requires down in s.raddr2fps && raddr in s.raddr2fps && down != raddr && laddr in s.laddr2prefs
    ensures (forall now :: BoundToEnd(PathDown(s, down, fp).0, laddr, raddr, now)) <==> fp !in s.raddr2fps[raddr]
  {
    var t := PathDown(s, down, fp).0;
    PathDownKeepsCore(s, down, fp);
    Accounting.PathDownKeepsMeasurementsLive(s, down, fp);
    assert t.raddr2fps[raddr] == s.raddr2fps[raddr] && t.laddr2prefs == s.laddr2prefs;
    assert t.fp2path == s.fp2path - {fp};
    AlwaysEndsExactly(t, laddr, raddr);
  }

  /** The same in every state that a run from the empty tables reaches. */
  lemma ReachedCallEndsExactly(es: seq<Event>, laddr: Addr, raddr: Addr)
    requires Along(KnownRemote, EMPTY, es)
    requires raddr in Run(EMPTY, es).raddr2fps && laddr in Run(EMPTY, es).laddr2prefs
    ensures var s := Run(EMPTY, es);
            (forall now :: BoundToEnd(s, laddr, raddr, now)) <==> forall fp | fp in s.raddr2fps[raddr] :: fp in s.fp2path
  {
    EmptyIsCore();
    RunKeepsCore(EMPTY, es);
    Accounting.RunKeepsMeasurementsLive(EMPTY, es);
    AlwaysEndsExactly(Run(EMPTY, es), laddr, raddr);
  }
}
