/** How `Path` spreads connections: exploration takes the path unused for longest, a first choice takes
    the least-loaded one, and a capacity seeker the one with the best share. */
module SchedulerFairness {
  import opened Options
  import opened LuaTables
  import opened SchedulerModel
  import opened SchedulerInvariants
  import opened SchedulerLiveness
  import Accounting = SchedulerAccounting
  import History = SchedulerHistory

  // ----- exploration -----

  lemma FirstByStampIsOldest(s: Tables, list: seq<Fingerprint>, fp: Fingerprint)
    ensures MaySortFirst(ByStamp(s), list, fp) <==>
            fp in list && forall g | g in list :: Stamp(s, fp) <= Stamp(s, g)
  {
    assert StrictWeakOn(ByStamp(s), list);
  }

  /** The event is an exploration: the connection is on a live path, its second is over, and the roll is 1. */
  ghost predicate Explores(s: Tables, e: Event, laddr: Addr, raddr: Addr) {
    && e.OnPath? && e.laddr == laddr && e.raddr == raddr && e.roll == 1
    && Legal(s, e)
    && Consults(s, laddr, raddr, e.now) && Current(s, laddr).Some?
  }

  /** The event leaves alone the list of the remote, the stamps of its paths and the assignment of the
      connection; time may pass, and everybody else may be busy with other paths. */
  predicate LeavesAlone(s: Tables, e: Event, laddr: Addr, raddr: Addr) {
    var t := Step(s, e);
    && Lookup(t.raddr2fps, raddr) == Lookup(s.raddr2fps, raddr)
    && Lookup(t.laddr2fp, laddr) == Lookup(s.laddr2fp, laddr)
    && forall g | g in Lookup(s.raddr2fps, raddr).GetOr([]) ::
         Stamp(t, g) == Stamp(s, g) && (g in s.fp2path ==> g in t.fp2path)
  }

  /** A tick has passed since any listed path was last taken up. */
  predicate FreshTick(s: Tables, raddr: Addr) {
    raddr in s.raddr2fps && forall g | g in s.raddr2fps[raddr] :: Stamp(s, g) < s.tick
  }

  /** Explorations of one connection, each in a new tick, among other events that leave alone what
      exploration depends on: such are all calls of `Path` that keep the connection where it is. */
  ghost predicate Campaign(s: Tables, es: seq<Event>, laddr: Addr, raddr: Addr)
    decreases |es|
  {
    es == [] ||
    (&& KnownRemote(s, es[0])
     && (if Explores(s, es[0], laddr, raddr) then FreshTick(s, raddr) else LeavesAlone(s, es[0], laddr, raddr))
     && Campaign(Step(s, es[0]), es[1..], laddr, raddr))
  }

  /** The paths explored, in order. */
  ghost function Visits(s: Tables, es: seq<Event>, laddr: Addr, raddr: Addr): seq<Fingerprint>
    decreases |es|
  {
    if es == [] then []
    else
      (if Explores(s, es[0], laddr, raddr) then [es[0].chosen] else []) + Visits(Step(s, es[0]), es[1..], laddr, raddr)
  }

  /** Between a switch and the end of its second, and whenever the chooser finds the current path again, a
      call of `Path` that is no exploration fits into every campaign. */
  lemma IdleCallFits(s: Tables, e: Event, es: seq<Event>, laddr: Addr, raddr: Addr)
    requires Core(s) && Campaign(s, es, laddr, raddr)
    requires e.OnPath? && e.laddr == laddr && !Explores(s, e, laddr, raddr)
    requires Consults(s, laddr, e.raddr, e.now) ==> Lookup(s.laddr2fp, laddr) == Some(e.chosen)
    ensures Campaign(s, [e] + es, laddr, raddr) && Visits(s, [e] + es, laddr, raddr) == Visits(s, es, laddr, raddr)
  {
    Accounting.MovesExactly(s, e);
    assert Step(s, e) == s && ([e] + es)[1..] == es;
  }

  /** `visited` are paths of the list that were taken up after every other path of the list. */
  ghost predicate TakenLast(s: Tables, raddr: Addr, visited: set<Fingerprint>)
    requires raddr in s.raddr2fps
  {
    && (forall v | v in visited :: v in s.raddr2fps[raddr])
    && forall v, u | v in visited && u in s.raddr2fps[raddr] && u !in visited :: Stamp(s, u) < Stamp(s, v)
  }

  /** The connection is on a listed path, and every path of the list is live. */
  ghost predicate OnListedPath(s: Tables, laddr: Addr, raddr: Addr) {
    && raddr in s.raddr2fps
    && (forall g | g in s.raddr2fps[raddr] :: g in s.fp2path)
    && laddr in s.laddr2fp && s.laddr2fp[laddr] in s.raddr2fps[raddr]
  }

  /** The path of the connection is not among those unused for longest. */
  ghost predicate CanEscape(s: Tables, laddr: Addr, raddr: Addr)
    requires OnListedPath(s, laddr, raddr)
  {
    exists g :: g in s.raddr2fps[raddr] && Stamp(s, g) < Stamp(s, s.laddr2fp[laddr])
  }

  /** Exploration is bound to leave the current path exactly when some listed path was unused for longer. */
  lemma ExplorationEscapesExactly(s: Tables, laddr: Addr, raddr: Addr, now: int)
    requires OnListedPath(s, laddr, raddr)
    requires Consults(s, laddr, raddr, now) && Current(s, laddr).Some?
    ensures CanEscape(s, laddr, raddr) <==>
            forall fp | MayChoose(s, laddr, raddr, now, 1, fp) :: fp != s.laddr2fp[laddr]
  {
    forall fp ensures MayChoose(s, laddr, raddr, now, 1, fp) <==>
                      fp in s.raddr2fps[raddr] && forall g | g in s.raddr2fps[raddr] :: Stamp(s, fp) <= Stamp(s, g)
    {
      FirstByStampIsOldest(s, s.raddr2fps[raddr], fp);
    }
    if !CanEscape(s, laddr, raddr) {
      assert MayChoose(s, laddr, raddr, now, 1, s.laddr2fp[laddr]);
    }
  }

  lemma ExplorationChoosesUnvisited(s: Tables, e: Event, laddr: Addr, raddr: Addr, visited: set<Fingerprint>)
    requires OnListedPath(s, laddr, raddr) && TakenLast(s, raddr, visited)
    requires Explores(s, e, laddr, raddr)
    requires s.laddr2fp[laddr] in visited || CanEscape(s, laddr, raddr)
    requires exists g :: g in s.raddr2fps[raddr] && g !in visited
    ensures e.chosen !in visited && e.chosen in s.raddr2fps[raddr] && e.chosen != s.laddr2fp[laddr]
  {
    FirstByStampIsOldest(s, s.raddr2fps[raddr], e.chosen);
  }

  lemma ExplorationMoves(s: Tables, e: Event, laddr: Addr, raddr: Addr)
    requires Core(s) && OnListedPath(s, laddr, raddr) && Explores(s, e, laddr, raddr)
    requires e.chosen in s.raddr2fps[raddr] && e.chosen != s.laddr2fp[laddr]
    ensures var t := Step(s, e);
            && t.raddr2fps == s.raddr2fps && t.fp2path == s.fp2path
            && t.laddr2fp == s.laddr2fp[laddr := e.chosen] && t.fp2last == s.fp2last[e.chosen := s.tick]
  {
    MoveKeepsCore(s, laddr, e.now, s.fp2path[e.chosen]);
    assert Step(s, e) == Moved(s, laddr, e.now, s.fp2path[e.chosen]);
  }

  lemma ExplorationStep(s: Tables, t: Tables, laddr: Addr, raddr: Addr, visited: set<Fingerprint>, fp: Fingerprint)
    requires OnListedPath(s, laddr, raddr) && TakenLast(s, raddr, visited) && FreshTick(s, raddr)
    requires fp in s.raddr2fps[raddr]
    requires t.raddr2fps == s.raddr2fps && t.fp2path == s.fp2path
    requires t.laddr2fp == s.laddr2fp[laddr := fp] && t.fp2last == s.fp2last[fp := s.tick]
    ensures OnListedPath(t, laddr, raddr) && TakenLast(t, raddr, visited + {fp})
  {
  }

  lemma LeftAlone(s: Tables, e: Event, laddr: Addr, raddr: Addr, visited: set<Fingerprint>)
    requires OnListedPath(s, laddr, raddr) && TakenLast(s, raddr, visited)
    requires LeavesAlone(s, e, laddr, raddr)
    ensures var t := Step(s, e);
            && OnListedPath(t, laddr, raddr) && t.raddr2fps[raddr] == s.raddr2fps[raddr]
            && t.laddr2fp[laddr] == s.laddr2fp[laddr] && TakenLast(t, raddr, visited)
            && (CanEscape(s, laddr, raddr) ==> CanEscape(t, laddr, raddr))
  {
    var t := Step(s, e);
    assert Some(t.raddr2fps[raddr]) == Lookup(t.raddr2fps, raddr);
    assert Lookup(t.laddr2fp, laddr) == Some(s.laddr2fp[laddr]);
  }

  /** One exploration of a series. */
  lemma CampaignExplores(s: Tables, e: Event, laddr: Addr, raddr: Addr, visited: set<Fingerprint>)
    requires Core(s) && OnListedPath(s, laddr, raddr) && TakenLast(s, raddr, visited)
    requires Explores(s, e, laddr, raddr) && FreshTick(s, raddr)
    requires s.laddr2fp[laddr] in visited || CanEscape(s, laddr, raddr)
    requires |visited| < |Elements(s.raddr2fps[raddr])|
    ensures e.chosen !in visited && e.chosen in s.raddr2fps[raddr]
    ensures var t := Step(s, e);
            && t.raddr2fps == s.raddr2fps && OnListedPath(t, laddr, raddr) && t.laddr2fp[laddr] == e.chosen
            && TakenLast(t, raddr, visited + {e.chosen})
  {
    if forall g | g in s.raddr2fps[raddr] :: g in visited {
      SubsetSize(Elements(s.raddr2fps[raddr]), visited);
    }
    ExplorationChoosesUnvisited(s, e, laddr, raddr, visited);
    ExplorationMoves(s, e, laddr, raddr);
    ExplorationStep(s, Step(s, e), laddr, raddr, visited, e.chosen);
  }

  lemma CampaignVisits(s: Tables, es: seq<Event>, laddr: Addr, raddr: Addr, visited: set<Fingerprint>)
    requires Core(s) && OnListedPath(s, laddr, raddr) && TakenLast(s, raddr, visited)
    requires Campaign(s, es, laddr, raddr)
    requires s.laddr2fp[laddr] in visited || CanEscape(s, laddr, raddr)
    requires |visited| + |Visits(s, es, laddr, raddr)| <= |Elements(s.raddr2fps[raddr])|
    ensures NoDuplicates(Visits(s, es, laddr, raddr))
    ensures forall v | v in Visits(s, es, laddr, raddr) :: v in s.raddr2fps[raddr] && v !in visited
    decreases |es|
  {
    if es != [] {
      var e, t := es[0], Step(s, es[0]);
      StepKeepsCore(s, e);
      if Explores(s, e, laddr, raddr) {
        CampaignExplores(s, e, laddr, raddr, visited);
        CampaignVisits(t, es[1..], laddr, raddr, visited + {e.chosen});
      } else {
        LeftAlone(s, e, laddr, raddr, visited);
        CampaignVisits(t, es[1..], laddr, raddr, visited);
      }
    }
  }

  lemma {:induction false} SubsetSize<T>(a: set<T>, b: set<T>)
    requires a <= b
    ensures |a| <= |b|
    ensures |a| == |b| ==> a == b
  {
    assert b == a + (b - a);
  }

  ghost function Elements<T>(s: seq<T>): set<T> {
    set x | x in s
  }

  lemma {:induction false} DistinctSize<T>(s: seq<T>)
    requires NoDuplicates(s)
    ensures |Elements(s)| == |s|
  {
    if s != [] {
      DistinctSize(s[1..]);
      assert s == [s[0]] + s[1..];
      assert Elements(s) == Elements(s[1..]) + {s[0]};
    }
  }

  /** As many explorations of one connection as its remote has paths, each in a new tick, visit every one
      of these paths exactly once, provided the path it starts on is not itself one unused for longest. */
  lemma ExplorationsVisitEveryPath(s: Tables, es: seq<Event>, laddr: Addr, raddr: Addr)
    requires Core(s) && OnListedPath(s, laddr, raddr)
    requires Campaign(s, es, laddr, raddr) && CanEscape(s, laddr, raddr)
    requires |Visits(s, es, laddr, raddr)| == |s.raddr2fps[raddr]|
    ensures multiset(Visits(s, es, laddr, raddr)) == multiset(s.raddr2fps[raddr])
  {
    var list, visits := s.raddr2fps[raddr], Visits(s, es, laddr, raddr);
    DistinctSize(list);
    CampaignVisits(s, es, laddr, raddr, {});
    SamePaths(visits, list);
  }

  lemma SamePaths<T>(s: seq<T>, t: seq<T>)
    requires NoDuplicates(s) && NoDuplicates(t) && |s| == |t|
    requires forall x | x in s :: x in t
    ensures multiset(s) == multiset(t)
  {
    DistinctSize(s);
    DistinctSize(t);
    SubsetSize(Elements(s), Elements(t));
    forall x ensures multiset(s)[x] == multiset(t)[x] {
      DistinctCount(s, x);
      DistinctCount(t, x);
      assert x in Elements(s) <==> x in Elements(t);
    }
  }

  lemma {:induction false} DistinctCount<T>(s: seq<T>, x: T)
    requires NoDuplicates(s)
    ensures multiset(s)[x] == if x in s then 1 else 0
  {
    if s != [] {
      DistinctCount(s[1..], x);
      assert s == [s[0]] + s[1..];
    }
  }

  // ----- exactly when exploration reaches every path -----

  lemma {:induction false} StuckCampaign(s: Tables, e: Event, laddr: Addr, raddr: Addr, n: nat)
    requires Explores(s, e, laddr, raddr) && FreshTick(s, raddr) && Step(s, e) == s
    ensures Campaign(s, seq(n, _ => e), laddr, raddr)
    ensures Visits(s, seq(n, _ => e), laddr, raddr) == seq(n, _ => e.chosen)
  {
    if n > 0 {
      StuckCampaign(s, e, laddr, raddr, n - 1);
      assert seq(n, _ => e)[1..] == seq(n - 1, _ => e);
      assert seq(n, _ => e.chosen) == [e.chosen] + seq(n - 1, _ => e.chosen);
    }
  }

  /** A connection on a path unused for longest may find that path in every exploration, for ever. */
  lemma StuckForRounds(s: Tables, laddr: Addr, raddr: Addr, n: nat) returns (es: seq<Event>)
    requires Core(s) && OnListedPath(s, laddr, raddr) && laddr in s.laddr2prefs
    requires !CanEscape(s, laddr, raddr)
    ensures Campaign(s, es, laddr, raddr) && Visits(s, es, laddr, raddr) == seq(n, _ => s.laddr2fp[laddr])
  {
    var t, fp := Step(s, OnPeriodic), s.laddr2fp[laddr];
    var e := OnPath(laddr, raddr, s.laddr2switchtime[laddr] + HYSTERESIS + 1, 1, fp);
    var rounds := seq(n, _ => e);
    assert t == s.(tick := s.tick + 1);
    FirstByStampIsOldest(t, t.raddr2fps[raddr], fp);
    assert forall g :: Stamp(t, g) == Stamp(s, g);
    assert Explores(t, e, laddr, raddr);
    StuckCampaign(t, e, laddr, raddr, n);
    es := [OnPeriodic] + rounds;
    assert es[1..] == rounds;
  }

  /** As many explorations as there are paths, however they go and whatever goes on among them, visit
      every path exactly once if and only if the path at the start is not one unused for longest. */
  lemma ExplorationsVisitExactly(s: Tables, laddr: Addr, raddr: Addr)
    requires Core(s) && OnListedPath(s, laddr, raddr) && laddr in s.laddr2prefs
    requires |s.raddr2fps[raddr]| >= 2
    ensures CanEscape(s, laddr, raddr) <==>
            forall es | Campaign(s, es, laddr, raddr) && |Visits(s, es, laddr, raddr)| == |s.raddr2fps[raddr]| ::
              multiset(Visits(s, es, laddr, raddr)) == multiset(s.raddr2fps[raddr])
  {
    var list := s.raddr2fps[raddr];
    if CanEscape(s, laddr, raddr) {
      forall es | Campaign(s, es, laddr, raddr) && |Visits(s, es, laddr, raddr)| == |list|
        ensures multiset(Visits(s, es, laddr, raddr)) == multiset(list)
      {
        ExplorationsVisitEveryPath(s, es, laddr, raddr);
      }
    } else {
      var es := StuckForRounds(s, laddr, raddr, |list|);
      var other := if list[0] == s.laddr2fp[laddr] then list[1] else list[0];
      assert multiset(list)[other] > 0;
      assert other !in Visits(s, es, laddr, raddr);
    }
  }

  /** The same in the states that orderly runs reach. */
  lemma ReachedExplorationsVisitExactly(home: Addr -> Addr, es: seq<Event>, laddr: Addr)
    requires Along((t, e) => Orderly(home, t, e), EMPTY, es)
    requires laddr in Run(EMPTY, es).laddr2fp && laddr in Run(EMPTY, es).laddr2prefs
    requires var s := Run(EMPTY, es); home(laddr) in s.raddr2fps && |s.raddr2fps[home(laddr)]| >= 2
    ensures var s, raddr := Run(EMPTY, es), home(laddr);
            && OnListedPath(s, laddr, raddr)
            && (CanEscape(s, laddr, raddr) <==>
                  forall fs | Campaign(s, fs, laddr, raddr) && |Visits(s, fs, laddr, raddr)| == |s.raddr2fps[raddr]| ::
                    multiset(Visits(s, fs, laddr, raddr)) == multiset(s.raddr2fps[raddr]))
  {
    EmptyIsOrderly(home);
    RunKeepsOrder(home, EMPTY, es);
    ExplorationsVisitExactly(Run(EMPTY, es), laddr, home(laddr));
  }

  /** A connection on the one path unused for longest stays on it however often it explores. */
  lemma OldestPathIsNeverLeft(s: Tables, e: Event, laddr: Addr, raddr: Addr)
    requires OnListedPath(s, laddr, raddr) && PathsOwnFingerprint(s)
    requires Explores(s, e, laddr, raddr)
    requires forall g | g in s.raddr2fps[raddr] && g != s.laddr2fp[laddr] :: Stamp(s, s.laddr2fp[laddr]) < Stamp(s, g)
    ensures Step(s, e) == s
  {
    FirstByStampIsOldest(s, s.raddr2fps[raddr], e.chosen);
  }

  // ----- first choices -----

  /** No two listed paths differ in load by more than 1. */
  ghost predicate Balanced(s: Tables, raddr: Addr) {
    && raddr in s.raddr2fps
    && forall g, h | g in s.raddr2fps[raddr] && h in s.raddr2fps[raddr] :: Load(s, g) <= Load(s, h) + 1
  }

  /** The first choice of a connection of this remote. */
  predicate FirstChoice(s: Tables, e: Event, raddr: Addr) {
    e.OnPath? && e.raddr == raddr && e.laddr in s.laddr2prefs && e.laddr !in s.laddr2fp
  }

  /** The event leaves alone the list of the remote, its live paths and their loads. */
  predicate LeavesLoadsAlone(s: Tables, e: Event, raddr: Addr) {
    var t := Step(s, e);
    && raddr in s.raddr2fps && raddr in t.raddr2fps && t.raddr2fps[raddr] == s.raddr2fps[raddr]
    && forall g | g in s.raddr2fps[raddr] :: Load(t, g) == Load(s, g) && (g in s.fp2path ==> g in t.fp2path)
  }

  /** Nobody leaves or moves, and the list stays as it is; connections without a path may choose one. */
  ghost predicate Arrivals(s: Tables, es: seq<Event>, raddr: Addr)
    decreases |es|
  {
    es == [] ||
    (&& Legal(s, es[0]) && KnownRemote(s, es[0])
     && (FirstChoice(s, es[0], raddr) || LeavesLoadsAlone(s, es[0], raddr))
     && Arrivals(Step(s, es[0]), es[1..], raddr))
  }

  function Choices(s: Tables, es: seq<Event>, raddr: Addr): nat
    decreases |es|
  {
    if es == [] then 0
    else (if FirstChoice(s, es[0], raddr) then 1 else 0) + Choices(Step(s, es[0]), es[1..], raddr)
  }

  ghost predicate ListLive(s: Tables, raddr: Addr) {
    raddr in s.raddr2fps && s.raddr2fps[raddr] != [] && forall g | g in s.raddr2fps[raddr] :: g in s.fp2path
  }

  function LoadOver(s: Tables, list: seq<Fingerprint>): int {
    if list == [] then 0 else Load(s, list[0]) + LoadOver(s, list[1..])
  }

  lemma FirstChoiceAdds(s: Tables, e: Event, raddr: Addr)
    requires Core(s) && ListLive(s, raddr) && Legal(s, e) && FirstChoice(s, e, raddr)
    ensures LeastLoaded(s, raddr, e.chosen)
    ensures Step(s, e).raddr2fps == s.raddr2fps && Step(s, e).fp2path == s.fp2path
    ensures forall g :: Load(Step(s, e), g) == Load(s, g) + if g == e.chosen then 1 else 0
  {
    FirstByLoadIsLeastLoaded(s, raddr, e.chosen);
    MoveKeepsCore(s, e.laddr, e.now, s.fp2path[e.chosen]);
    var t := Moved(s, e.laddr, e.now, s.fp2path[e.chosen]);
    assert Step(s, e) == t;
    assert t.raddr2fps == s.raddr2fps && t.fp2path == s.fp2path;
    assert t.fp2laddrs == s.fp2laddrs[e.chosen := Load(s, e.chosen) + 1];
  }

  lemma {:induction false} LoadOverStep(s: Tables, t: Tables, list: seq<Fingerprint>, fp: Fingerprint)
    requires NoDuplicates(list)
    requires forall g | g in list :: Load(t, g) == Load(s, g) + if g == fp then 1 else 0
    ensures LoadOver(t, list) == LoadOver(s, list) + if fp in list then 1 else 0
  {
    if list != [] {
      assert list == [list[0]] + list[1..];
      LoadOverStep(s, t, list[1..], fp);
    }
  }

  lemma {:induction false} LoadOverSame(s: Tables, t: Tables, list: seq<Fingerprint>)
    requires forall g | g in list :: Load(t, g) == Load(s, g)
    ensures LoadOver(t, list) == LoadOver(s, list)
  {
    if list != [] {
      LoadOverSame(s, t, list[1..]);
    }
  }

  lemma {:induction false} ArrivalsKeepBalance(s: Tables, es: seq<Event>, raddr: Addr)
    requires Core(s) && ListLive(s, raddr) && Balanced(s, raddr)
    requires Arrivals(s, es, raddr)
    ensures var t := Run(s, es);
            && Core(t) && Balanced(t, raddr) && t.raddr2fps[raddr] == s.raddr2fps[raddr]
            && LoadOver(t, s.raddr2fps[raddr]) == LoadOver(s, s.raddr2fps[raddr]) + Choices(s, es, raddr)
    decreases |es|
  {
    if es != [] {
      var e, t := es[0], Step(s, es[0]);
      StepKeepsCore(s, e);
      if FirstChoice(s, e, raddr) {
        FirstChoiceAdds(s, e, raddr);
        LoadOverStep(s, t, s.raddr2fps[raddr], e.chosen);
      } else {
        LoadOverSame(s, t, s.raddr2fps[raddr]);
      }
      ArrivalsKeepBalance(t, es[1..], raddr);
    }
  }

  lemma {:induction false} LoadOverBounds(s: Tables, list: seq<Fingerprint>, lo: int, hi: int)
    requires forall g | g in list :: lo <= Load(s, g) <= hi
    ensures lo * |list| <= LoadOver(s, list) <= hi * |list|
    ensures (exists g :: g in list && Load(s, g) < hi) ==> LoadOver(s, list) < hi * |list|
    ensures (exists g :: g in list && Load(s, g) > lo) ==> LoadOver(s, list) > lo * |list|
  {
    if list != [] {
      assert list == [list[0]] + list[1..];
      LoadOverBounds(s, list[1..], lo, hi);
      assert lo * |list| == lo + lo * (|list| - 1) && hi * |list| == hi + hi * (|list| - 1);
    }
  }

  lemma TimesMonotone(x: int, y: int, n: nat)
    requires x <= y
    ensures x * n <= y * n
  {
  }

  lemma QuotientAtLeast(a: int, n: nat, q: int)
    requires n > 0 && a >= q * n
    ensures a / n >= q
  {
    var d := a / n;
    assert a < (d + 1) * n;
    if d < q {
      TimesMonotone(d + 1, q, n);
    }
  }

  lemma QuotientAtMost(a: int, n: nat, q: int)
    requires n > 0 && a < (q + 1) * n
    ensures a / n <= q
  {
    var d := a / n;
    assert a >= d * n;
    if d > q {
      TimesMonotone(q + 1, d, n);
    }
  }

  /** Each of n paths has k/n connections, rounded down or up. */
  ghost predicate SpreadEvenly(s: Tables, list: seq<Fingerprint>, k: nat)
    requires list != []
  {
    forall fp | fp in list :: k / |list| <= Load(s, fp) <= (k + |list| - 1) / |list|
  }

  /** k first choices among n paths that nobody used put on every path k/n connections, rounded down or
      up; whatever else happens in between that moves nobody. */
  lemma ArrivalsSpreadEvenly(s: Tables, es: seq<Event>, raddr: Addr)
    requires Core(s) && ListLive(s, raddr) && Arrivals(s, es, raddr)
    requires forall g | g in s.raddr2fps[raddr] :: Load(s, g) == 0
    ensures SpreadEvenly(Run(s, es), s.raddr2fps[raddr], Choices(s, es, raddr))
  {
    var list, t := s.raddr2fps[raddr], Run(s, es);
    ArrivalsKeepBalance(s, es, raddr);
    UnusedLoads(s, list);
    BalancedLoadsSpread(t, list, Choices(s, es, raddr));
  }

  lemma {:induction false} UnusedLoads(s: Tables, list: seq<Fingerprint>)
    requires forall g | g in list :: Load(s, g) == 0
    ensures LoadOver(s, list) == 0
  {
    if list != [] {
      UnusedLoads(s, list[1..]);
    }
  }

  lemma BalancedLoadsSpread(s: Tables, list: seq<Fingerprint>, k: nat)
    requires list != [] && LoadOver(s, list) == k
    requires forall g, h | g in list && h in list :: Load(s, g) <= Load(s, h) + 1
    ensures SpreadEvenly(s, list, k)
  {
    var low := ListHasLeastLoaded(s, list);
    var lo := Load(s, low);
    LoadOverBounds(s, list, lo, lo + 1);
    forall fp | fp in list ensures k / |list| <= Load(s, fp) <= (k + |list| - 1) / |list| {
      SpreadBetween(k, |list|, lo, Load(s, fp));
    }
  }

  lemma SpreadBetween(k: nat, n: nat, lo: int, load: int)
    requires n > 0 && lo * n <= k < (lo + 1) * n
    requires lo <= load <= lo + 1 && (load > lo ==> k > lo * n)
    ensures k / n <= load <= (k + n - 1) / n
  {
    QuotientAtMost(k, n, lo);
    RoundedUp(k, n, lo);
  }

  lemma RoundedUp(k: nat, n: nat, lo: int)
    requires n > 0 && k >= lo * n
    ensures (k + n - 1) / n >= if k > lo * n then lo + 1 else lo
  {
    assert (lo + 1) * n == lo * n + n;
    QuotientAtLeast(k + n - 1, n, if k > lo * n then lo + 1 else lo);
  }

  // ----- choosing by measurement -----

  /** The comparison by bandwidth share never puts a path before itself exactly when every listed path
      without a measurement is idle: the two sides of the comparison fill in different defaults. */
  lemma ShareComparisonIrreflexiveExactly(s: Tables, list: seq<Fingerprint>)
    requires forall g | g in list :: g in s.fp2laddrs && s.fp2laddrs[g] >= 0
    ensures (forall g | g in list :: !ByShare(s)(g, g)) <==>
            (forall g | g in list :: g in s.fp2bw || s.fp2laddrs[g] == 0)
  {
    forall g | g in list ensures ByShare(s)(g, g) <==> g !in s.fp2bw && s.fp2laddrs[g] != 0 {
      if g !in s.fp2bw && s.fp2laddrs[g] != 0 {
        assert 1000.0 / s.fp2laddrs[g] as real > 0.0 / s.fp2laddrs[g] as real;
      }
    }
  }

  /** The bandwidth a connection would get; a path nobody uses has no limit. */
  function Worth(s: Tables, fp: Fingerprint): Share {
    if Load(s, fp) == 0 then Infinite else Finite(Lookup(s.fp2bw, fp).GetOr(0.0) / Load(s, fp) as real)
  }

  /** Loads and estimates as they are in every reachable state. */
  ghost predicate Measurable(s: Tables, list: seq<Fingerprint>) {
    forall g | g in list :: g in s.fp2laddrs && s.fp2laddrs[g] >= 0 && (g in s.fp2bw ==> s.fp2bw[g] >= 0.0)
  }

  /** Nobody uses the path, and its estimate is 0: its share is not a number. */
  predicate Indefinite(s: Tables, fp: Fingerprint) {
    Load(s, fp) == 0 && Lookup(s.fp2bw, fp) == Some(0.0)
  }

  lemma ShareWithoutEstimate(s: Tables, fp: Fingerprint)
    requires fp in s.fp2laddrs && s.fp2laddrs[fp] > 0 && fp !in s.fp2bw
    ensures ByShare(s)(fp, fp)
  {
    assert 1000.0 / s.fp2laddrs[fp] as real > 0.0 / s.fp2laddrs[fp] as real;
  }

  lemma IndefiniteIsIncomparable(s: Tables, fp: Fingerprint, g: Fingerprint)
    requires fp in s.fp2laddrs && Indefinite(s, fp)
    ensures !ByShare(s)(fp, g) && !ByShare(s)(g, fp)
  {
  }

  lemma ShareIsWorth(s: Tables, a: Fingerprint, b: Fingerprint)
    requires Measurable(s, [a, b])
    requires a in s.fp2bw || s.fp2laddrs[a] == 0
    requires b in s.fp2bw || s.fp2laddrs[b] == 0
    requires !Indefinite(s, a) && !Indefinite(s, b)
    ensures ByShare(s)(a, b) <==> Greater(Worth(s, a), Worth(s, b))
  {
    assert a in [a, b] && b in [a, b];
  }

  /** The comparison is a strict weak order exactly when every listed path without an estimate is idle and,
      if some listed path is indefinite, no listed path is before any other. */
  lemma ShareIsOrderExactly(s: Tables, list: seq<Fingerprint>)
    requires Measurable(s, list)
    ensures StrictWeakOn(ByShare(s), list) <==>
            && (forall g | g in list :: g in s.fp2bw || s.fp2laddrs[g] == 0)
            && ((exists n :: n in list && Indefinite(s, n)) ==>
                  forall a, b | a in list && b in list :: !ByShare(s)(a, b))
  {
    var less := ByShare(s);
    if g :| g in list && g !in s.fp2bw && s.fp2laddrs[g] != 0 {
      ShareWithoutEstimate(s, g);
      assert less(g, g);
    } else if n :| n in list && Indefinite(s, n) {
      forall g ensures !less(n, g) && !less(g, n) {
        IndefiniteIsIncomparable(s, n, g);
      }
      IncomparableElement(less, list, n);
    } else {
      WorthIsOrder(s, list);
    }
  }

  lemma IncomparableElement<T(!new)>(less: (T, T) -> bool, list: seq<T>, n: T)
    requires n in list && forall g :: !less(n, g) && !less(g, n)
    ensures StrictWeakOn(less, list) <==> forall a, b | a in list && b in list :: !less(a, b)
  {
  }

  lemma WorthIsOrder(s: Tables, list: seq<Fingerprint>)
    requires Measurable(s, list)
    requires forall g | g in list :: (g in s.fp2bw || s.fp2laddrs[g] == 0) && !Indefinite(s, g)
    ensures forall a, b | a in list && b in list :: ByShare(s)(a, b) <==> Greater(Worth(s, a), Worth(s, b))
    ensures StrictWeakOn(ByShare(s), list)
  {
    forall a, b | a in list && b in list ensures ByShare(s)(a, b) <==> Greater(Worth(s, a), Worth(s, b)) {
      ShareIsWorth(s, a, b);
    }
  }

  /** A connection on `g` gets no more bandwidth than one on `fp`: nobody uses `fp`, or both are in use and
      the estimate of `g` divided by its connections is no greater. */
  predicate NoBetterShare(s: Tables, g: Fingerprint, fp: Fingerprint) {
    || Load(s, fp) == 0
    || (Load(s, g) != 0
        && Lookup(s.fp2bw, g).GetOr(0.0) / Load(s, g) as real <= Lookup(s.fp2bw, fp).GetOr(0.0) / Load(s, fp) as real)
  }

  lemma NotGreaterExactly(s: Tables, g: Fingerprint, fp: Fingerprint)
    ensures !Greater(Worth(s, g), Worth(s, fp)) <==> NoBetterShare(s, g, fp)
  {
  }

  /** When moreover no listed path is indefinite, the path put first has the greatest share. */
  lemma BestShareIsGreatest(s: Tables, list: seq<Fingerprint>, fp: Fingerprint)
    requires Measurable(s, list)
    requires forall g | g in list :: (g in s.fp2bw || s.fp2laddrs[g] == 0) && !Indefinite(s, g)
    ensures StrictWeakOn(ByShare(s), list)
    ensures MaySortFirst(ByShare(s), list, fp) <==>
            fp in list && forall g | g in list :: NoBetterShare(s, g, fp)
  {
    WorthIsOrder(s, list);
    forall g ensures !Greater(Worth(s, g), Worth(s, fp)) <==> NoBetterShare(s, g, fp) {
      NotGreaterExactly(s, g, fp);
    }
  }

  /** The lists of all remotes are measurable in the states that orderly runs reach. */
  lemma ReachedIsMeasurable(home: Addr -> Addr, es: seq<Event>, raddr: Addr)
    requires Along((t, e) => Orderly(home, t, e), EMPTY, es)
    requires raddr in Run(EMPTY, es).raddr2fps
    ensures Measurable(Run(EMPTY, es), Run(EMPTY, es).raddr2fps[raddr])
  {
    var s := Run(EMPTY, es);
    EmptyIsOrderly(home);
    RunKeepsOrder(home, EMPTY, es);
    OrderlyKnowsRemotes(home, EMPTY, es);
    History.TraceHappened(es);
    forall g | g in s.raddr2fps[raddr]
      ensures g in s.fp2laddrs && s.fp2laddrs[g] >= 0 && (g in s.fp2bw ==> s.fp2bw[g] >= 0.0)
    {
      assert g in s.fp2path && Load(s, g) == |Users(s.laddr2fp, g)|;
      if g in s.fp2bw {
        History.EstimateNotNegative(History.Trace(es), g);
      }
    }
  }

  /** When the round-trip time of every listed path is known, the choice is one of least round-trip time. */
  lemma BestRTTIsLeast(s: Tables, list: seq<Fingerprint>, fp: Fingerprint)
    requires forall g | g in list :: g in s.fp2rtt
    ensures StrictWeakOn(ByRTT(s), list)
    ensures MaySortFirst(ByRTT(s), list, fp) <==> fp in list && forall g | g in list :: s.fp2rtt[fp] <= s.fp2rtt[g]
  {
  }

  /** Paths without a round-trip time: none is put behind a path that was measured at up to 1000, and no
      path with a time that is not negative is put before one of them. */
  lemma UnmeasuredRTTExactly(s: Tables, a: Fingerprint, b: Fingerprint)
    requires a !in s.fp2rtt && b in s.fp2rtt && s.fp2rtt[b] >= 0.0
    ensures ByRTT(s)(a, b) <==> s.fp2rtt[b] > 1000.0
    ensures !ByRTT(s)(b, a) && !ByRTT(s)(a, a)
  {
  }

  /** Paths in use without an estimate: each counts as 1000 in front of another path, and as nothing behind
      one. */
  lemma UnmeasuredShareExactly(s: Tables, a: Fingerprint, b: Fingerprint)
    requires a in s.fp2laddrs && s.fp2laddrs[a] > 0 && a !in s.fp2bw
    requires b in s.fp2laddrs && s.fp2laddrs[b] > 0 && b in s.fp2bw && s.fp2bw[b] > 0.0
    ensures ByShare(s)(a, b) <==> 1000.0 / s.fp2laddrs[a] as real > s.fp2bw[b] / s.fp2laddrs[b] as real
    ensures ByShare(s)(b, a)
  {
    assert s.fp2bw[b] / s.fp2laddrs[b] as real > 0.0;
    assert 0.0 / s.fp2laddrs[a] as real == 0.0;
  }
}
