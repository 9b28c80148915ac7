/** The ranked scheduler on values: each remote has one list, sorted by the number of interfaces, and a
    connection gets its first path, or its last one if it is a scavenger. */
module RankedModel {
  import opened Options
  import opened LuaTables

  type Addr = string
  type Fingerprint = string

  /** A path table; without metadata it has no interfaces to count. */
  datatype Path = Path(fingerprint: Fingerprint, expiry: string, interfaces: Option<nat>)

  datatype Prefs = Prefs(profile: Option<string>)

  datatype Tables = Tables(paths: map<Addr, seq<Path>>, conns: map<Addr, map<Addr, Prefs>>)

  const EMPTY := Tables(map[], map[])

  datatype Reply = Done | Returned(path: Path) | NoValue | Raised

  function Count(p: Path): nat {
    p.interfaces.GetOr(0)
  }

  function ByExpiry(): (Path, Path) -> bool {
    (a: Path, b: Path) => Before(a.expiry, b.expiry)
  }

  function ByCount(): (Path, Path) -> bool {
    (a: Path, b: Path) => Count(a) < Count(b)
  }

  /** Counting interfaces raises for a path without metadata, and a sort of two or more elements counts
      those of each of them. */
  predicate Rankable(ps: seq<Path>) {
    |ps| <= 1 || forall p | p in ps :: p.interfaces.Some?
  }

  /** What the two sorts may make of an announced list. */
  ghost predicate MayRank(ps: seq<Path>, ranked: seq<Path>) {
    && multiset(ranked) == multiset(ps)
    && (Rankable(ps) ==> Ordered(ByCount(), ranked))
  }

  /** `ranked` is the announced list once the sorts are done or one of them has raised. */
  function Announce(s: Tables, raddr: Addr, ps: seq<Path>, ranked: seq<Path>): (Tables, Reply) {
    (s.(paths := s.paths[raddr := ranked]), if Rankable(ps) then Done else Raised)
  }

  function Initialize(s: Tables, prefs: Option<Prefs>, laddr: Addr, raddr: Addr, ps: seq<Path>, ranked: seq<Path>): (Tables, Reply) {
    if prefs.None? then (s, Raised)
    else
      var known := Lookup(s.conns, raddr).GetOr(map[]);
      Announce(s.(conns := s.conns[raddr := known[laddr := prefs.value]]), raddr, ps, ranked)
  }

  function SetPreferences(s: Tables, prefs: Option<Prefs>, laddr: Addr, raddr: Addr): (Tables, Reply) {
    if prefs.None? || raddr !in s.conns then (s, Raised)
    else (s.(conns := s.conns[raddr := s.conns[raddr][laddr := prefs.value]]), Done)
  }

  function PathFor(s: Tables, laddr: Addr, raddr: Addr): Reply {
    if raddr !in s.paths then Raised
    else if s.paths[raddr] == [] then NoValue
    else if raddr !in s.conns || laddr !in s.conns[raddr] then Raised
    else if s.conns[raddr][laddr].profile == Some("Scavenger") then Returned(s.paths[raddr][|s.paths[raddr]| - 1])
    else Returned(s.paths[raddr][0])
  }

  /** The list without the first path that has the fingerprint. */
  function Strike(ps: seq<Path>, fp: Fingerprint): seq<Path> {
    if ps == [] then []
    else if ps[0].fingerprint == fp then ps[1..]
    else [ps[0]] + Strike(ps[1..], fp)
  }

  function PathDown(s: Tables, raddr: Addr, fp: Fingerprint): (Tables, Reply) {
    if raddr !in s.paths then (s, Raised)
    else (s.(paths := s.paths[raddr := Strike(s.paths[raddr], fp)]), Done)
  }

  function Close(s: Tables, laddr: Addr, raddr: Addr): (Tables, Reply) {
    if raddr !in s.conns then (s, Raised)
    else (s.(conns := s.conns[raddr := s.conns[raddr] - {laddr}]), Done)
  }

  // ----- runs -----

  datatype Event =
    | OnInitialize(laddr: Addr, raddr: Addr, prefs: Option<Prefs>, announced: seq<Path>, ranked: seq<Path>)
    | OnRefresh(raddr: Addr, announced: seq<Path>, ranked: seq<Path>)
    | OnSetPreferences(laddr: Addr, raddr: Addr, prefs: Option<Prefs>)
    | OnPathDown(raddr: Addr, fp: Fingerprint)
    | OnClose(laddr: Addr, raddr: Addr)

  function Step(s: Tables, e: Event): Tables {
    match e
    case OnInitialize(l, r, prefs, ps, ranked) => Initialize(s, prefs, l, r, ps, ranked).0
    case OnRefresh(r, ps, ranked) => Announce(s, r, ps, ranked).0
    case OnSetPreferences(l, r, prefs) => SetPreferences(s, prefs, l, r).0
    case OnPathDown(r, fp) => PathDown(s, r, fp).0
    case OnClose(l, r) => Close(s, l, r).0
  }

  function Run(es: seq<Event>): Tables {
    if es == [] then EMPTY else Step(Run(es[..|es| - 1]), es[|es| - 1])
  }

  predicate Announces(e: Event, raddr: Addr) {
    (e.OnInitialize? && e.raddr == raddr && e.prefs.Some?) || (e.OnRefresh? && e.raddr == raddr)
  }

  /** `ranked` is what the two sorts make of every announced set, whatever it holds. */
  ghost predicate Legal(es: seq<Event>) {
    forall e | e in es :: e.OnInitialize? || e.OnRefresh? ==> MayRank(e.announced, e.ranked)
  }

  /** The set announced last for the remote. */
  function LastAnnounced(es: seq<Event>, raddr: Addr): seq<Path> {
    if es == [] then []
    else if Announces(es[|es| - 1], raddr) then es[|es| - 1].announced
    else LastAnnounced(es[..|es| - 1], raddr)
  }

  ghost predicate Distinct(ps: seq<Path>) {
    forall i, j | 0 <= i < j < |ps| :: ps[i].fingerprint != ps[j].fingerprint
  }

  /** The reference: the set announced last for the remote, without what was reported down since. */
  ghost function LiveSet(es: seq<Event>, raddr: Addr): set<Path> {
    if es == [] then {}
    else
      var e, before := es[|es| - 1], LiveSet(es[..|es| - 1], raddr);
      if Announces(e, raddr) then set p | p in e.announced
      else if e.OnPathDown? && e.raddr == raddr then set p | p in before && p.fingerprint != e.fp
      else before
  }

  // ----- preferences -----

  /** A set was announced for the remote. */
  predicate Announced(es: seq<Event>, raddr: Addr) {
    es != [] && (Announces(es[|es| - 1], raddr) || Announced(es[..|es| - 1], raddr))
  }

  /** A connection to the remote was initialised with preferences. */
  predicate Connected(es: seq<Event>, raddr: Addr) {
    es != [] &&
    var e := es[|es| - 1];
    (e.OnInitialize? && e.raddr == raddr && e.prefs.Some?) || Connected(es[..|es| - 1], raddr)
  }

  /** The preferences given last for the connection, since it was last closed. Before the first connection to
      its remote they are not taken. */
  function LastPreferences(es: seq<Event>, laddr: Addr, raddr: Addr): Option<Prefs> {
    if es == [] then None
    else
      var e, before := es[|es| - 1], es[..|es| - 1];
      if e.OnInitialize? && e.laddr == laddr && e.raddr == raddr && e.prefs.Some? then e.prefs
      else if e.OnSetPreferences? && e.laddr == laddr && e.raddr == raddr && e.prefs.Some? && Connected(before, raddr) then e.prefs
      else if e.OnClose? && e.laddr == laddr && e.raddr == raddr then None
      else LastPreferences(before, laddr, raddr)
  }

  function StoredFor(s: Tables, laddr: Addr, raddr: Addr): Option<Prefs> {
    Lookup(Lookup(s.conns, raddr).GetOr(map[]), laddr)
  }

  /** What one event does to the connections. */
  lemma ConnectionsAfter(s: Tables, e: Event, laddr: Addr, raddr: Addr)
    ensures raddr in Step(s, e).conns <==> raddr in s.conns || (e.OnInitialize? && e.raddr == raddr && e.prefs.Some?)
    ensures StoredFor(Step(s, e), laddr, raddr) ==
            if e.OnInitialize? && e.laddr == laddr && e.raddr == raddr && e.prefs.Some? then e.prefs
            else if e.OnSetPreferences? && e.laddr == laddr && e.raddr == raddr && e.prefs.Some? && raddr in s.conns then e.prefs
            else if e.OnClose? && e.laddr == laddr && e.raddr == raddr then None
            else StoredFor(s, laddr, raddr)
  {
  }

  /** The script keeps exactly the preferences given last, and has a list for exactly the announced remotes. */
  lemma {:induction false} StoredIsLast(es: seq<Event>, laddr: Addr, raddr: Addr)
    ensures raddr in Run(es).conns <==> Connected(es, raddr)
    ensures StoredFor(Run(es), laddr, raddr) == LastPreferences(es, laddr, raddr)
    ensures raddr in Run(es).paths <==> Announced(es, raddr)
  {
    if es != [] {
      StoredIsLast(es[..|es| - 1], laddr, raddr);
      ConnectionsAfter(Run(es[..|es| - 1]), es[|es| - 1], laddr, raddr);
    }
  }

  /** An announcement raises exactly when it comes with nil preferences, or when two or more paths have to be
      ranked and one of them has no metadata. */
  lemma AnnouncementRaisesExactly(s: Tables, prefs: Option<Prefs>, laddr: Addr, raddr: Addr, ps: seq<Path>, ranked: seq<Path>)
    ensures Initialize(s, prefs, laddr, raddr, ps, ranked).1 == Raised <==>
            prefs.None? || (|ps| >= 2 && exists p :: p in ps && p.interfaces.None?)
    ensures Announce(s, raddr, ps, ranked).1 == Raised <==> |ps| >= 2 && exists p :: p in ps && p.interfaces.None?
  {
  }

  // ----- what is left of a set -----

  /** How many paths of the list have the fingerprint. */
  function Occurrences(ps: seq<Path>, fp: Fingerprint): nat {
    if ps == [] then 0 else (if ps[0].fingerprint == fp then 1 else 0) + Occurrences(ps[1..], fp)
  }

  /** The reference for any sets: as many as were announced last, less one for each report since. */
  function Copies(es: seq<Event>, raddr: Addr, fp: Fingerprint): nat {
    if es == [] then 0
    else
      var e, before := es[|es| - 1], Copies(es[..|es| - 1], raddr, fp);
      if Announces(e, raddr) then Occurrences(e.announced, fp)
      else if e.OnPathDown? && e.raddr == raddr && e.fp == fp && before > 0 then before - 1
      else before
  }

  // ----- the order and the content of a list -----

  lemma CountSorts(ps: seq<Path>)
    ensures StrictWeakOn(ByCount(), ps)
  {
  }

  lemma ExpirySorts(ps: seq<Path>)
    ensures StrictWeakOn(ByExpiry(), ps)
  {
    forall x, y | x in ps && y in ps && ByExpiry()(x, y) ensures !ByExpiry()(y, x) {
      BeforeAsymmetric(x.expiry, y.expiry);
    }
    forall x, y, z | x in ps && y in ps && z in ps && !ByExpiry()(x, y) && !ByExpiry()(y, z)
      ensures !ByExpiry()(x, z)
    {
      NotBeforeTransitive(x.expiry, y.expiry, z.expiry);
    }
  }

  lemma {:induction false} StrikeMembers(ps: seq<Path>, fp: Fingerprint)
    requires Distinct(ps)
    ensures Distinct(Strike(ps, fp))
    ensures forall p :: p in Strike(ps, fp) <==> p in ps && p.fingerprint != fp
  {
    if ps != [] {
      assert ps == [ps[0]] + ps[1..];
      if ps[0].fingerprint != fp {
        StrikeMembers(ps[1..], fp);
        var rest := Strike(ps[1..], fp);
        forall j | 0 <= j < |rest| ensures ps[0].fingerprint != rest[j].fingerprint {
          assert rest[j] in ps[1..];
        }
      } else {
        assert forall p | p in ps[1..] :: p.fingerprint != fp;
      }
    }
  }

  lemma {:induction false} StrikeIsPart(ps: seq<Path>, fp: Fingerprint)
    ensures multiset(Strike(ps, fp)) <= multiset(ps)
  {
    if ps != [] {
      assert ps == [ps[0]] + ps[1..];
      if ps[0].fingerprint != fp {
        StrikeIsPart(ps[1..], fp);
      }
    }
  }

  lemma {:induction false} StrikeKeepsOrder(ps: seq<Path>, fp: Fingerprint)
    requires Ordered(ByCount(), ps)
    ensures Ordered(ByCount(), Strike(ps, fp))
  {
    if ps != [] && ps[0].fingerprint != fp {
      StrikeKeepsOrder(ps[1..], fp);
      StrikeIsPart(ps[1..], fp);
      var rest := Strike(ps[1..], fp);
      forall j | 0 <= j < |rest| ensures !ByCount()(rest[j], ps[0]) {
        assert rest[j] in multiset(ps[1..]);
      }
    }
  }

  lemma {:induction false} StrikeCounts(ps: seq<Path>, fp: Fingerprint, g: Fingerprint)
    ensures Occurrences(Strike(ps, fp), g) == Occurrences(ps, g) - if g == fp && Occurrences(ps, g) > 0 then 1 else 0
  {
    if ps != [] && ps[0].fingerprint != fp {
      StrikeCounts(ps[1..], fp, g);
      assert Strike(ps, fp)[1..] == Strike(ps[1..], fp);
    }
  }

  /** Removing a path keeps the order, and takes away one path with the fingerprint and nothing else. */
  lemma StrikeFacts(ps: seq<Path>, fp: Fingerprint)
    ensures Ordered(ByCount(), ps) ==> Ordered(ByCount(), Strike(ps, fp))
    ensures multiset(Strike(ps, fp)) <= multiset(ps)
    ensures forall g :: Occurrences(Strike(ps, fp), g) ==
                        Occurrences(ps, g) - if g == fp && Occurrences(ps, g) > 0 then 1 else 0
  {
    if Ordered(ByCount(), ps) {
      StrikeKeepsOrder(ps, fp);
    }
    StrikeIsPart(ps, fp);
    forall g ensures Occurrences(Strike(ps, fp), g) ==
                     Occurrences(ps, g) - if g == fp && Occurrences(ps, g) > 0 then 1 else 0
    {
      StrikeCounts(ps, fp, g);
    }
  }

  lemma {:induction false} NoneIsZero(ps: seq<Path>, fp: Fingerprint)
    ensures Occurrences(ps, fp) == 0 <==> forall p | p in ps :: p.fingerprint != fp
  {
    if ps != [] {
      NoneIsZero(ps[1..], fp);
      assert ps == [ps[0]] + ps[1..];
    }
  }

  lemma {:induction false} OccurrencesJoin(ps: seq<Path>, qs: seq<Path>, fp: Fingerprint)
    ensures Occurrences(ps + qs, fp) == Occurrences(ps, fp) + Occurrences(qs, fp)
  {
    if ps == [] {
      assert ps + qs == qs;
    } else {
      OccurrencesJoin(ps[1..], qs, fp);
      assert (ps + qs)[1..] == ps[1..] + qs;
    }
  }

  lemma OccurrencesWithout(qs: seq<Path>, i: nat, fp: Fingerprint)
    requires i < |qs|
    ensures Occurrences(qs, fp) == Occurrences(qs[..i] + qs[i + 1..], fp) + if qs[i].fingerprint == fp then 1 else 0
  {
    assert qs == qs[..i] + ([qs[i]] + qs[i + 1..]);
    assert ([qs[i]] + qs[i + 1..])[1..] == qs[i + 1..];
    OccurrencesJoin(qs[..i], [qs[i]] + qs[i + 1..], fp);
    OccurrencesJoin(qs[..i], qs[i + 1..], fp);
  }

  lemma MultisetWithout<T>(s: seq<T>, i: nat)
    requires i < |s|
    ensures multiset(s[..i] + s[i + 1..]) == multiset(s) - multiset{s[i]}
  {
    assert s == s[..i] + [s[i]] + s[i + 1..];
  }

  lemma WithoutFirst<T>(s: seq<T>)
    requires s != []
    ensures multiset(s[1..]) == multiset(s) - multiset{s[0]}
  {
    assert s == [s[0]] + s[1..];
  }

  lemma PlaceOf(x: Path, qs: seq<Path>) returns (i: nat)
    requires x in multiset(qs)
    ensures i < |qs| && qs[i] == x
  {
    i :| 0 <= i < |qs| && qs[i] == x;
  }

  lemma {:induction false} OccurrencesPermuted(ps: seq<Path>, qs: seq<Path>, fp: Fingerprint)
    requires multiset(ps) == multiset(qs)
    ensures Occurrences(ps, fp) == Occurrences(qs, fp)
  {
    if ps == [] {
      assert |multiset(qs)| == 0;
    } else {
      assert ps[0] in multiset(ps);
      var i := PlaceOf(ps[0], qs);
      WithoutFirst(ps);
      MultisetWithout(qs, i);
      OccurrencesPermuted(ps[1..], qs[..i] + qs[i + 1..], fp);
      OccurrencesWithout(qs, i, fp);
    }
  }

  lemma {:induction false} StrikeFirst(ps: seq<Path>, fp: Fingerprint, i: nat)
    requires i <= |ps| && forall k | 0 <= k < i :: ps[k].fingerprint != fp
    requires i < |ps| ==> ps[i].fingerprint == fp
    ensures Strike(ps, fp) == if i < |ps| then ps[..i] + ps[i + 1..] else ps
  {
    if i > 0 {
      StrikeFirst(ps[1..], fp, i - 1);
    }
  }

  lemma RankedKeepsDistinct(ps: seq<Path>, ranked: seq<Path>)
    requires MayRank(ps, ranked) && Distinct(ps)
    ensures Distinct(ranked)
    ensures forall p :: p in ranked <==> p in ps
  {
    SameElements(ranked, ps);
    forall i, j | 0 <= i < j < |ranked| ensures ranked[i].fingerprint != ranked[j].fingerprint {
      if ranked[i].fingerprint == ranked[j].fingerprint {
        assert ranked[i] in ps && ranked[j] in ps;
        var k :| 0 <= k < |ps| && ps[k] == ranked[i];
        var n :| 0 <= n < |ps| && ps[n] == ranked[j];
        assert k == n;
        TwiceMeansTwice(ranked, i, j);
        OnceIsOnce(ps, k);
      }
    }
  }

  lemma TwiceMeansTwice<T>(s: seq<T>, i: nat, j: nat)
    requires i < j < |s| && s[i] == s[j]
    ensures multiset(s)[s[i]] >= 2
  {
    assert s == s[..i] + [s[i]] + s[i + 1..j] + [s[j]] + s[j + 1..];
  }

  lemma OnceIsOnce(ps: seq<Path>, k: nat)
    requires k < |ps| && Distinct(ps)
    ensures multiset(ps)[ps[k]] == 1
  {
    assert ps == ps[..k] + [ps[k]] + ps[k + 1..];
    assert ps[k] !in ps[..k] && ps[k] !in ps[k + 1..];
  }

  function ListOf(s: Tables, raddr: Addr): seq<Path> {
    Lookup(s.paths, raddr).GetOr([])
  }

  /** The list consists of paths of the set announced last, with as many for each fingerprint as that set
      has, less one for each report since; and it is sorted by the number of interfaces if that set can be
      ranked. */
  ghost predicate LeftOf(es: seq<Event>, raddr: Addr, list: seq<Path>) {
    && (Rankable(LastAnnounced(es, raddr)) ==> Ordered(ByCount(), list))
    && multiset(list) <= multiset(LastAnnounced(es, raddr))
    && forall fp :: Occurrences(list, fp) == Copies(es, raddr, fp)
  }

  lemma AnnouncedIsLeft(es: seq<Event>, raddr: Addr, ranked: seq<Path>)
    requires es != [] && Announces(es[|es| - 1], raddr) && MayRank(es[|es| - 1].announced, ranked)
    ensures LeftOf(es, raddr, ranked)
  {
    forall fp ensures Occurrences(ranked, fp) == Copies(es, raddr, fp) {
      OccurrencesPermuted(ranked, es[|es| - 1].announced, fp);
    }
  }

  lemma StruckIsLeft(es: seq<Event>, raddr: Addr, list: seq<Path>)
    requires es != [] && LeftOf(es[..|es| - 1], raddr, list)
    requires es[|es| - 1].OnPathDown? && es[|es| - 1].raddr == raddr
    ensures LeftOf(es, raddr, Strike(list, es[|es| - 1].fp))
  {
    StrikeFacts(list, es[|es| - 1].fp);
  }

  lemma OtherIsLeft(es: seq<Event>, raddr: Addr, list: seq<Path>)
    requires es != [] && LeftOf(es[..|es| - 1], raddr, list)
    requires var e := es[|es| - 1];
             !Announces(e, raddr) && !(e.OnPathDown? && e.raddr == raddr)
    ensures LeftOf(es, raddr, list)
  {
  }

  /** What a step makes of the list of a remote. */
  lemma ListAfter(s: Tables, e: Event, raddr: Addr)
    ensures ListOf(Step(s, e), raddr) ==
            if Announces(e, raddr) then e.ranked
            else if e.OnPathDown? && e.raddr == raddr then Strike(ListOf(s, raddr), e.fp)
            else ListOf(s, raddr)
  {
  }

  /** In every run, whatever is announced, every list is what is left of the set announced last. */
  lemma {:induction false} RunKeepsRanking(es: seq<Event>, raddr: Addr)
    requires Legal(es)
    ensures LeftOf(es, raddr, ListOf(Run(es), raddr))
  {
    if es != [] {
      var e, before := es[|es| - 1], es[..|es| - 1];
      RunKeepsRanking(before, raddr);
      ListAfter(Run(before), e, raddr);
      if Announces(e, raddr) {
        AnnouncedIsLeft(es, raddr, e.ranked);
      } else if e.OnPathDown? && e.raddr == raddr {
        StruckIsLeft(es, raddr, ListOf(Run(before), raddr));
      } else {
        OtherIsLeft(es, raddr, ListOf(Run(before), raddr));
      }
    }
  }

  /** If the set announced last has distinct fingerprints, the list holds exactly that set without what was
      reported down since. */
  lemma {:induction false} RunHoldsLiveSet(es: seq<Event>, raddr: Addr)
    requires Legal(es) && Distinct(LastAnnounced(es, raddr))
    ensures Distinct(ListOf(Run(es), raddr))
    ensures forall p :: p in ListOf(Run(es), raddr) <==> p in LiveSet(es, raddr)
  {
    if es != [] {
      var e, before := es[|es| - 1], es[..|es| - 1];
      if Announces(e, raddr) {
        RankedKeepsDistinct(e.announced, e.ranked);
      } else {
        RunHoldsLiveSet(before, raddr);
        if e.OnPathDown? && e.raddr == raddr && raddr in Run(before).paths {
          StrikeMembers(Run(before).paths[raddr], e.fp);
        }
      }
    }
  }

  /** After any run, reporting a path down leaves none with its fingerprint exactly when at most one is
      listed: the walk stops after the first. */
  lemma PathDownLeavesNoneExactly(es: seq<Event>, raddr: Addr, fp: Fingerprint)
    requires Legal(es) && raddr in Run(es).paths
    ensures (forall p | p in PathDown(Run(es), raddr, fp).0.paths[raddr] :: p.fingerprint != fp) <==>
            Copies(es, raddr, fp) <= 1
  {
    RunKeepsRanking(es, raddr);
    var list := Run(es).paths[raddr];
    StrikeFacts(list, fp);
    NoneIsZero(Strike(list, fp), fp);
    assert Occurrences(list, fp) == Copies(es, raddr, fp);
  }

  lemma EndsAreExtreme(list: seq<Path>, q: Path)
    requires Ordered(ByCount(), list) && q in list
    ensures Count(list[0]) <= Count(q) <= Count(list[|list| - 1])
  {
    var i :| 0 <= i < |list| && list[i] == q;
    assert !ByCount()(list[i], list[0]) || i == 0;
    assert !ByCount()(list[|list| - 1], list[i]) || i == |list| - 1;
  }

  /** The path is no worse for the connection than any path of the set: none has fewer interfaces, or more
      if the connection is a scavenger. */
  ghost predicate Best(prefs: Prefs, p: Path, ps: set<Path>) {
    forall q | q in ps ::
      if prefs.profile == Some("Scavenger") then Count(p) >= Count(q) else Count(p) <= Count(q)
  }

  lemma NothingLeftExactly(es: seq<Event>, raddr: Addr)
    requires LeftOf(es, raddr, ListOf(Run(es), raddr))
    ensures ListOf(Run(es), raddr) == [] <==> forall fp :: Copies(es, raddr, fp) == 0
  {
    var list := ListOf(Run(es), raddr);
    if list != [] {
      NoneIsZero(list, list[0].fingerprint);
      assert Copies(es, raddr, list[0].fingerprint) > 0;
    } else {
      forall fp ensures Copies(es, raddr, fp) == 0 {
        assert Occurrences(list, fp) == Copies(es, raddr, fp);
      }
    }
  }

  /** What a connection gets in any reachable state: a listed path of the set announced last, the best of
      the list if that set can be ranked; nothing exactly when nothing is left of the set. */
  lemma PathIsBest(es: seq<Event>, laddr: Addr, raddr: Addr)
    requires Legal(es) && Announced(es, raddr) && LastPreferences(es, laddr, raddr).Some?
    ensures PathFor(Run(es), laddr, raddr) == NoValue <==> forall fp :: Copies(es, raddr, fp) == 0
    ensures var reply := PathFor(Run(es), laddr, raddr);
            reply != NoValue ==>
              && reply.Returned? && reply.path in LastAnnounced(es, raddr)
              && Copies(es, raddr, reply.path.fingerprint) > 0
              && (Rankable(LastAnnounced(es, raddr)) ==>
                    Best(LastPreferences(es, laddr, raddr).value, reply.path, set q | q in ListOf(Run(es), raddr)))
  {
    StoredIsLast(es, laddr, raddr);
    RunKeepsRanking(es, raddr);
    NothingLeftExactly(es, raddr);
    var list, last := Run(es).paths[raddr], LastAnnounced(es, raddr);
    if list != [] {
      var reply := PathFor(Run(es), laddr, raddr);
      assert reply.Returned? && reply.path in list;
      assert reply.path in multiset(list);
      NoneIsZero(list, reply.path.fingerprint);
      if Rankable(last) {
        forall q | q in list ensures Count(list[0]) <= Count(q) <= Count(list[|list| - 1]) {
          EndsAreExtreme(list, q);
        }
      }
    }
  }

  /** With distinct fingerprints it is the best of the live set, and nothing exactly when no path is live. */
  lemma PathIsBestOfLive(es: seq<Event>, laddr: Addr, raddr: Addr)
    requires Legal(es) && Distinct(LastAnnounced(es, raddr))
    requires Announced(es, raddr) && LastPreferences(es, laddr, raddr).Some?
    ensures PathFor(Run(es), laddr, raddr) == NoValue <==> LiveSet(es, raddr) == {}
    ensures var reply := PathFor(Run(es), laddr, raddr);
            reply != NoValue ==>
              && reply.Returned? && reply.path in LiveSet(es, raddr)
              && (Rankable(LastAnnounced(es, raddr)) ==>
                    Best(LastPreferences(es, laddr, raddr).value, reply.path, LiveSet(es, raddr)))
  {
    StoredIsLast(es, laddr, raddr);
    RunHoldsLiveSet(es, raddr);
    PathIsBest(es, laddr, raddr);
    var list := Run(es).paths[raddr];
    assert (set q | q in list) == LiveSet(es, raddr);
    assert list != [] ==> list[0] in LiveSet(es, raddr) && list[|list| - 1] in list;
  }

  /** A call raises exactly when nothing was announced for the remote, or something is left of what was and
      the connection has no preferences. */
  lemma PathRaisesExactly(es: seq<Event>, laddr: Addr, raddr: Addr)
    requires Legal(es)
    ensures PathFor(Run(es), laddr, raddr) == Raised <==>
            !Announced(es, raddr) || (LastPreferences(es, laddr, raddr).None? && exists fp :: Copies(es, raddr, fp) > 0)
  {
    StoredIsLast(es, laddr, raddr);
    RunKeepsRanking(es, raddr);
    NothingLeftExactly(es, raddr);
  }

  // ----- the two passes with a stable sort -----

  /** The paths with the given number of interfaces, in order. */
  function WithCount(ps: seq<Path>, n: nat): seq<Path> {
    if ps == [] then []
    else if Count(ps[0]) == n then [ps[0]] + WithCount(ps[1..], n)
    else WithCount(ps[1..], n)
  }

  /** A stable sort by the number of interfaces leaves the order of paths with the same number alone. */
  ghost predicate StableByCount(a: seq<Path>, b: seq<Path>) {
    Ordered(ByCount(), b) && forall n: nat :: WithCount(b, n) == WithCount(a, n)
  }

  lemma {:induction false} WithCountOrdered(ps: seq<Path>, n: nat)
    requires Ordered(ByExpiry(), ps)
    ensures Ordered(ByExpiry(), WithCount(ps, n))
    ensures forall p | p in WithCount(ps, n) :: p in ps
  {
    if ps != [] {
      assert ps == [ps[0]] + ps[1..];
      WithCountOrdered(ps[1..], n);
      forall j | 0 <= j < |WithCount(ps[1..], n)| ensures !ByExpiry()(WithCount(ps[1..], n)[j], ps[0]) {
        assert WithCount(ps[1..], n)[j] in ps[1..];
      }
    }
  }

  lemma {:induction false} PlacesInWithCount(ps: seq<Path>, i: nat, j: nat) returns (k: nat, l: nat)
    requires i < j < |ps| && Count(ps[i]) == Count(ps[j])
    ensures k < l < |WithCount(ps, Count(ps[i]))|
    ensures WithCount(ps, Count(ps[i]))[k] == ps[i] && WithCount(ps, Count(ps[i]))[l] == ps[j]
  {
    var n := Count(ps[i]);
    if i == 0 {
      l := PlaceInWithCount(ps[1..], j - 1);
      k, l := 0, l + 1;
    } else {
      k, l := PlacesInWithCount(ps[1..], i - 1, j - 1);
      if Count(ps[0]) == n {
        k, l := k + 1, l + 1;
      }
    }
  }

  lemma {:induction false} PlaceInWithCount(ps: seq<Path>, j: nat) returns (l: nat)
    requires j < |ps|
    ensures l < |WithCount(ps, Count(ps[j]))| && WithCount(ps, Count(ps[j]))[l] == ps[j]
  {
    if j == 0 {
      l := 0;
    } else {
      l := PlaceInWithCount(ps[1..], j - 1);
      if Count(ps[0]) == Count(ps[j]) {
        l := l + 1;
      }
    }
  }

  ghost predicate Lexicographic(ranked: seq<Path>) {
    forall i, j | 0 <= i < j < |ranked| ::
      || Count(ranked[i]) < Count(ranked[j])
      || (Count(ranked[i]) == Count(ranked[j]) && !Before(ranked[j].expiry, ranked[i].expiry))
  }

  /** Sorting by expiry and then, stably, by the number of interfaces ranks by the number of interfaces
      first and by expiry among equals. */
  lemma TwoPassesRankLexicographically(byExpiry: seq<Path>, ranked: seq<Path>)
    requires Ordered(ByExpiry(), byExpiry) && StableByCount(byExpiry, ranked)
    ensures Lexicographic(ranked)
  {
    forall i, j | 0 <= i < j < |ranked|
      ensures || Count(ranked[i]) < Count(ranked[j])
              || (Count(ranked[i]) == Count(ranked[j]) && !Before(ranked[j].expiry, ranked[i].expiry))
    {
      assert !ByCount()(ranked[j], ranked[i]);
      if Count(ranked[i]) == Count(ranked[j]) {
        var n := Count(ranked[i]);
        var k, l := PlacesInWithCount(ranked, i, j);
        WithCountOrdered(byExpiry, n);
        assert WithCount(ranked, n) == WithCount(byExpiry, n);
        assert !ByExpiry()(WithCount(byExpiry, n)[l], WithCount(byExpiry, n)[k]);
      }
    }
  }
}
