/** The daemon's translation between path objects and the tables a script sees. A table stands for a path
    until the paths of its address are replaced; a number never used before stands for a new table. */
module PathTranslation {
  import opened Options
  import opened PathRecords

  type Table = int

  datatype Maps = Maps(
    lpaths: map<Addr, map<Fingerprint, Table>>,
    ppaths: map<Table, Option<PanPath>>,
    next: Table)

  const NEW := Maps(map[], map[], 0)

  /** A table the state has never seen stands for no path, like one whose entry was set to nil. */
  function Resolve(m: Maps, t: Table): Option<PanPath> {
    Lookup(m.ppaths, t).GetOr(None)
  }

  /** The tables listed for an address. */
  function TablesOf(m: Maps, raddr: Addr): set<Table> {
    Lookup(m.lpaths, raddr).GetOr(map[]).Values
  }

  /** The entries that make tables stand for nothing. */
  function AllNil(tables: set<Table>): map<Table, Option<PanPath>> {
    map t | t in tables :: None
  }

  /** The tables listed under some of the fingerprints. */
  function TablesUnder(tables: map<Fingerprint, Table>, fps: set<Fingerprint>): set<Table> {
    set fp | fp in tables && fp in fps :: tables[fp]
  }

  lemma TablesUnderAll(tables: map<Fingerprint, Table>)
    ensures TablesUnder(tables, tables.Keys) == tables.Values
  {
    forall t | t in tables.Values ensures t in TablesUnder(tables, tables.Keys) {
      var fp :| fp in tables && tables[fp] == t;
    }
  }

  lemma OneMoreNil(ppaths: map<Table, Option<PanPath>>, tables: map<Fingerprint, Table>, fps: set<Fingerprint>, fp: Fingerprint)
    requires fp in tables
    ensures ppaths + AllNil(TablesUnder(tables, fps + {fp})) == (ppaths + AllNil(TablesUnder(tables, fps)))[tables[fp] := None]
  {
    assert TablesUnder(tables, fps + {fp}) == TablesUnder(tables, fps) + {tables[fp]};
  }

  function ClearAddr(m: Maps, raddr: Addr): Maps {
    m.(ppaths := m.ppaths + AllNil(TablesOf(m, raddr)), lpaths := m.lpaths[raddr := map[]])
  }

  function SetOne(m: Maps, raddr: Addr, p: PanPath): Maps
    requires raddr in m.lpaths
  {
    var tables: map<Fingerprint, Table> := m.lpaths[raddr][p.fingerprint := m.next];
    Maps(m.lpaths[raddr := tables], m.ppaths[m.next := Some(p)], m.next + 1)
  }

  function SetPaths(m: Maps, raddr: Addr, ps: seq<PanPath>): (r: Maps)
    requires raddr in m.lpaths
    ensures raddr in r.lpaths
  {
    if ps == [] then m else SetOne(SetPaths(m, raddr, ps[..|ps| - 1]), raddr, ps[|ps| - 1])
  }

  /** What Initialize and Refresh do with an announced set before the script is called. */
  function Flush(m: Maps, raddr: Addr, ps: seq<PanPath>): Maps {
    SetPaths(ClearAddr(m, raddr), raddr, ps)
  }

  datatype FlushEvent = FlushEvent(raddr: Addr, paths: seq<PanPath>)

  function Run(m: Maps, es: seq<FlushEvent>): Maps
    decreases |es|
  {
    if es == [] then m else Run(Flush(m, es[0].raddr, es[0].paths), es[1..])
  }

  // ----- the two maps agree -----

  predicate Lists(m: Maps, raddr: Addr, fp: Fingerprint, t: Table) {
    raddr in m.lpaths && fp in m.lpaths[raddr] && m.lpaths[raddr][fp] == t
  }

  ghost predicate Listed(m: Maps, t: Table) {
    exists raddr, fp :: Lists(m, raddr, fp, t)
  }

  /** The tables that stand for a path are exactly the listed ones; each is listed once, under the
      fingerprint of its path. */
  ghost predicate Consistent(m: Maps) {
    && (forall t | t in m.ppaths :: t < m.next)
    && (forall t :: Resolve(m, t).Some? <==> Listed(m, t))
    && (forall r, fp, t | Lists(m, r, fp, t) && Resolve(m, t).Some? :: Resolve(m, t).value.fingerprint == fp)
    && (forall r, fp, q, g, t | Lists(m, r, fp, t) && Lists(m, q, g, t) :: r == q && fp == g)
  }

  lemma NewIsConsistent()
    ensures Consistent(NEW)
  {
  }

  lemma ClearAddrLists(m: Maps, raddr: Addr)
    ensures forall t :: t in TablesOf(m, raddr) <==> exists fp :: Lists(m, raddr, fp, t)
    ensures forall t :: Resolve(ClearAddr(m, raddr), t) == if t in TablesOf(m, raddr) then None else Resolve(m, t)
    ensures forall r, fp, t :: Lists(ClearAddr(m, raddr), r, fp, t) <==> r != raddr && Lists(m, r, fp, t)
  {
    forall t | t in TablesOf(m, raddr) ensures exists fp :: Lists(m, raddr, fp, t) {
      var fp :| fp in m.lpaths[raddr] && m.lpaths[raddr][fp] == t;
      assert Lists(m, raddr, fp, t);
    }
  }

  lemma ClearAddrFacts(m: Maps, raddr: Addr)
    requires Consistent(m)
    ensures Consistent(ClearAddr(m, raddr))
    ensures forall r, fp, t :: Lists(ClearAddr(m, raddr), r, fp, t) <==> r != raddr && Lists(m, r, fp, t)
    ensures forall fp, t | Lists(m, raddr, fp, t) :: Resolve(ClearAddr(m, raddr), t) == None
    ensures forall r, fp, t | r != raddr && Lists(m, r, fp, t) :: Resolve(ClearAddr(m, raddr), t) == Resolve(m, t)
  {
    ClearAddrLists(m, raddr);
    ClearAddrConsistent(m, raddr);
  }

  lemma ClearAddrConsistent(m: Maps, raddr: Addr)
    requires Consistent(m)
    ensures Consistent(ClearAddr(m, raddr))
  {
    ClearAddrLists(m, raddr);
    var c := ClearAddr(m, raddr);
    forall t | t in TablesOf(m, raddr) ensures t < m.next {
      assert Listed(m, t);
    }
    forall t ensures Resolve(c, t).Some? <==> Listed(c, t) {
      if Resolve(c, t).Some? {
        var r, fp :| Lists(m, r, fp, t);
        assert Lists(c, r, fp, t);
      }
      if r, fp :| Lists(c, r, fp, t) {
        assert Lists(m, r, fp, t);
        assert Listed(m, t);
      }
    }
  }

  lemma SetOneConsistent(m: Maps, raddr: Addr, p: PanPath)
    requires Consistent(m) && raddr in m.lpaths && p.fingerprint !in m.lpaths[raddr]
    ensures Consistent(SetOne(m, raddr, p))
  {
    var c := SetOne(m, raddr, p);
    assert m.next !in m.ppaths && !Listed(m, m.next);
    forall r, fp, t ensures Lists(c, r, fp, t) <==> Lists(m, r, fp, t) || (r == raddr && fp == p.fingerprint && t == m.next) {
    }
    forall t ensures Resolve(c, t).Some? <==> Listed(c, t) {
      if t == m.next {
        assert Lists(c, raddr, p.fingerprint, t);
      } else {
        assert Resolve(c, t) == Resolve(m, t);
        if r, fp :| Lists(m, r, fp, t) {
          assert Lists(c, r, fp, t);
        }
      }
    }
    forall r, fp, t | Lists(m, r, fp, t) ensures t != m.next {
      assert Listed(m, t);
    }
  }

  lemma {:induction false} SetPathsFacts(m: Maps, raddr: Addr, ps: seq<PanPath>)
    requires raddr in m.lpaths
    ensures var c := SetPaths(m, raddr, ps);
            && c.next == m.next + |ps|
            && (forall i | 0 <= i < |ps| :: Lookup(c.ppaths, m.next + i) == Some(Some(ps[i])))
            && (forall t | t < m.next :: Lookup(c.ppaths, t) == Lookup(m.ppaths, t))
            && (forall r | r != raddr :: Lookup(c.lpaths, r) == Lookup(m.lpaths, r))
            && (forall fp :: fp in c.lpaths[raddr] <==> fp in m.lpaths[raddr] || Announces(ps, fp))
  {
    if ps != [] {
      var init := ps[..|ps| - 1];
      SetPathsFacts(m, raddr, init);
      forall fp ensures Announces(ps, fp) <==> Announces(init, fp) || fp == ps[|ps| - 1].fingerprint {
        if i :| 0 <= i < |init| && init[i].fingerprint == fp {
          assert ps[i].fingerprint == fp;
        }
        if i :| 0 <= i < |ps| && ps[i].fingerprint == fp && i != |ps| - 1 {
          assert init[i].fingerprint == fp;
        }
      }
    }
  }

  lemma {:induction false} SetPathsConsistent(m: Maps, raddr: Addr, ps: seq<PanPath>)
    requires Consistent(m) && raddr in m.lpaths && m.lpaths[raddr] == map[]
    requires DistinctFingerprints(ps)
    ensures Consistent(SetPaths(m, raddr, ps))
    ensures forall i | 0 <= i < |ps| :: Lists(SetPaths(m, raddr, ps), raddr, ps[i].fingerprint, m.next + i)
  {
    if ps != [] {
      var init, last := ps[..|ps| - 1], ps[|ps| - 1];
      SetPathsConsistent(m, raddr, init);
      SetPathsFacts(m, raddr, init);
      assert !Announces(init, last.fingerprint);
      SetOneConsistent(SetPaths(m, raddr, init), raddr, last);
      forall i | 0 <= i < |ps| ensures Lists(SetPaths(m, raddr, ps), raddr, ps[i].fingerprint, m.next + i) {
        if i < |init| {
          assert Lists(SetPaths(m, raddr, init), raddr, init[i].fingerprint, m.next + i);
          assert ps[i].fingerprint != last.fingerprint;
        }
      }
    }
  }

  lemma DuplicateIsInconsistent(c: Maps, raddr: Addr, ps: seq<PanPath>, i: nat, j: nat)
    requires Consistent(c) && raddr in c.lpaths
    requires i < j < |ps| && ps[i].fingerprint == ps[j].fingerprint
    ensures !Consistent(SetPaths(c, raddr, ps))
  {
    SetPathsFacts(c, raddr, ps);
    var f := SetPaths(c, raddr, ps);
    assert Resolve(f, c.next + i) == Some(ps[i]) && Resolve(f, c.next + j) == Some(ps[j]);
    if Consistent(f) {
      assert Listed(f, c.next + i) && Listed(f, c.next + j);
      var r, fp :| Lists(f, r, fp, c.next + i);
      var q, g :| Lists(f, q, g, c.next + j);
      NewTablesListedHere(c, raddr, ps, r, fp, c.next + i);
      NewTablesListedHere(c, raddr, ps, q, g, c.next + j);
    }
  }

  /** Replacing the paths of an address keeps the two maps in agreement exactly when no fingerprint is
      announced twice. */
  lemma FlushConsistentExactly(m: Maps, raddr: Addr, ps: seq<PanPath>)
    requires Consistent(m)
    ensures Consistent(Flush(m, raddr, ps)) <==> DistinctFingerprints(ps)
  {
    ClearAddrConsistent(m, raddr);
    if DistinctFingerprints(ps) {
      SetPathsConsistent(ClearAddr(m, raddr), raddr, ps);
    } else {
      var i, j :| 0 <= i < j < |ps| && ps[i].fingerprint == ps[j].fingerprint;
      DuplicateIsInconsistent(ClearAddr(m, raddr), raddr, ps, i, j);
    }
  }

  lemma NewTablesListedHere(c: Maps, raddr: Addr, ps: seq<PanPath>, r: Addr, fp: Fingerprint, t: Table)
    requires Consistent(c) && raddr in c.lpaths
    requires Lists(SetPaths(c, raddr, ps), r, fp, t) && t >= c.next
    ensures r == raddr
  {
    SetPathsFacts(c, raddr, ps);
    if r != raddr {
      assert Lookup(SetPaths(c, raddr, ps).lpaths, r) == Lookup(c.lpaths, r);
      assert Lists(c, r, fp, t);
      assert Listed(c, t);
    }
  }

  // ----- whole runs -----

  ghost predicate AllDistinct(es: seq<FlushEvent>) {
    forall e | e in es :: DistinctFingerprints(e.paths)
  }

  lemma {:induction false} RunConsistent(m: Maps, es: seq<FlushEvent>)
    requires Consistent(m) && AllDistinct(es)
    ensures Consistent(Run(m, es))
    decreases |es|
  {
    if es != [] {
      FlushConsistentExactly(m, es[0].raddr, es[0].paths);
      RunConsistent(Flush(m, es[0].raddr, es[0].paths), es[1..]);
    }
  }

  /** A table that stands for nothing never stands for a path again. */
  lemma {:induction false} StaleStays(m: Maps, es: seq<FlushEvent>, t: Table)
    requires t < m.next && Resolve(m, t) == None
    ensures t < Run(m, es).next && Resolve(Run(m, es), t) == None
    decreases |es|
  {
    if es != [] {
      var e := es[0];
      SetPathsFacts(ClearAddr(m, e.raddr), e.raddr, e.paths);
      assert Lookup(Flush(m, e.raddr, e.paths).ppaths, t) == Lookup(ClearAddr(m, e.raddr).ppaths, t);
      StaleStays(Flush(m, e.raddr, e.paths), es[1..], t);
    }
  }

  lemma OtherFlushKeeps(m: Maps, e: FlushEvent, raddr: Addr, fp: Fingerprint, t: Table)
    requires Consistent(m) && Lists(m, raddr, fp, t) && e.raddr != raddr
    ensures var f := Flush(m, e.raddr, e.paths); Lists(f, raddr, fp, t) && Resolve(f, t) == Resolve(m, t)
  {
    ClearAddrFacts(m, e.raddr);
    SetPathsFacts(ClearAddr(m, e.raddr), e.raddr, e.paths);
    assert Listed(m, t) && t < m.next;
    assert Lookup(Flush(m, e.raddr, e.paths).lpaths, raddr) == Lookup(m.lpaths, raddr);
  }

  lemma OwnFlushKills(m: Maps, e: FlushEvent, fp: Fingerprint, t: Table)
    requires Consistent(m) && Lists(m, e.raddr, fp, t)
    ensures t < Flush(m, e.raddr, e.paths).next && Resolve(Flush(m, e.raddr, e.paths), t) == None
  {
    ClearAddrFacts(m, e.raddr);
    SetPathsFacts(ClearAddr(m, e.raddr), e.raddr, e.paths);
    assert Listed(m, t) && t < m.next;
    assert Lookup(Flush(m, e.raddr, e.paths).ppaths, t) == Lookup(ClearAddr(m, e.raddr).ppaths, t);
  }

  lemma {:induction false} ListedTableAfterRun(m: Maps, es: seq<FlushEvent>, raddr: Addr, fp: Fingerprint, t: Table)
    requires Consistent(m) && AllDistinct(es) && Lists(m, raddr, fp, t)
    ensures Resolve(Run(m, es), t) == if exists e :: e in es && e.raddr == raddr then None else Resolve(m, t)
    decreases |es|
  {
    if es != [] {
      var e, f := es[0], Flush(m, es[0].raddr, es[0].paths);
      assert forall x :: x in es <==> x == e || x in es[1..];
      FlushConsistentExactly(m, e.raddr, e.paths);
      if e.raddr == raddr {
        OwnFlushKills(m, e, fp, t);
        StaleStays(f, es[1..], t);
      } else {
        OtherFlushKeeps(m, e, raddr, fp, t);
        ListedTableAfterRun(f, es[1..], raddr, fp, t);
      }
    }
  }

  lemma SetPathsResolves(c: Maps, raddr: Addr, ps: seq<PanPath>, n: nat)
    requires raddr in c.lpaths && n < |ps|
    ensures Resolve(SetPaths(c, raddr, ps), c.next + n) == Some(ps[n])
  {
    SetPathsFacts(c, raddr, ps);
    assert Lookup(SetPaths(c, raddr, ps).ppaths, c.next + n) == Some(Some(ps[n]));
  }

  lemma FlushHandsOut(m: Maps, raddr: Addr, ps: seq<PanPath>, n: nat)
    requires Consistent(m) && DistinctFingerprints(ps) && n < |ps|
    ensures Consistent(Flush(m, raddr, ps))
    ensures Lists(Flush(m, raddr, ps), raddr, ps[n].fingerprint, m.next + n)
    ensures Resolve(Flush(m, raddr, ps), m.next + n) == Some(ps[n])
  {
    ClearAddrConsistent(m, raddr);
    SetPathsConsistent(ClearAddr(m, raddr), raddr, ps);
    SetPathsResolves(ClearAddr(m, raddr), raddr, ps, n);
  }

  /** The n-th table handed out for an announced set stands for the n-th announced path as long as the
      paths of that address are not replaced, and for nothing ever after, whatever happens to other
      addresses in between. */
  lemma TableLivesUntilNextFlush(m: Maps, e: FlushEvent, es: seq<FlushEvent>, n: nat)
    requires Consistent(m) && DistinctFingerprints(e.paths) && AllDistinct(es)
    requires n < |e.paths|
    ensures Resolve(Run(Flush(m, e.raddr, e.paths), es), m.next + n) ==
            if exists later :: later in es && later.raddr == e.raddr then None else Some(e.paths[n])
  {
    FlushHandsOut(m, e.raddr, e.paths, n);
    ListedTableAfterRun(Flush(m, e.raddr, e.paths), es, e.raddr, e.paths[n].fingerprint, m.next + n);
  }

  lemma {:induction false} UnlistedLastsForever(m: Maps, es: seq<FlushEvent>, t: Table)
    requires t < m.next && Resolve(m, t).Some? && !Listed(m, t)
    ensures Resolve(Run(m, es), t) == Resolve(m, t)
    decreases |es|
  {
    if es != [] {
      var e := es[0];
      UnlistedSurvivesFlush(m, e, t);
      UnlistedLastsForever(Flush(m, e.raddr, e.paths), es[1..], t);
    }
  }

  lemma {:induction false} NewTablesOnly(m: Maps, raddr: Addr, ps: seq<PanPath>, r: Addr, fp: Fingerprint, t: Table)
    requires raddr in m.lpaths && t < m.next
    requires Lists(SetPaths(m, raddr, ps), r, fp, t)
    ensures Lists(m, r, fp, t)
  {
    if ps != [] {
      SetPathsFacts(m, raddr, ps[..|ps| - 1]);
      NewTablesOnly(m, raddr, ps[..|ps| - 1], r, fp, t);
    }
  }

  lemma UnlistedSurvivesFlush(m: Maps, e: FlushEvent, t: Table)
    requires t < m.next && Resolve(m, t).Some? && !Listed(m, t)
    ensures var f := Flush(m, e.raddr, e.paths); t < f.next && Resolve(f, t) == Resolve(m, t) && !Listed(f, t)
  {
    var c, f := ClearAddr(m, e.raddr), Flush(m, e.raddr, e.paths);
    SetPathsFacts(c, e.raddr, e.paths);
    var gone := Lookup(m.lpaths, e.raddr).GetOr(map[]);
    if t in gone.Values {
      var fp :| fp in gone && gone[fp] == t;
      assert Lists(m, e.raddr, fp, t);
    }
    assert Lookup(f.ppaths, t) == Lookup(c.ppaths, t) == Lookup(m.ppaths, t);
    if r, fp :| Lists(f, r, fp, t) {
      NewTablesOnly(c, e.raddr, e.paths, r, fp, t);
      assert Lists(m, r, fp, t);
    }
  }

  /** If a set announces a fingerprint twice, the table of the earlier occurrence stands for its path for
      ever, however often the paths of the address are replaced. */
  lemma DuplicateIsNeverFlushed(m: Maps, e: FlushEvent, es: seq<FlushEvent>, i: nat, j: nat)
    requires Consistent(m) && i < j < |e.paths| && e.paths[i].fingerprint == e.paths[j].fingerprint
    ensures Resolve(Run(Flush(m, e.raddr, e.paths), es), m.next + i) == Some(e.paths[i])
  {
    var c, f, t := ClearAddr(m, e.raddr), Flush(m, e.raddr, e.paths), m.next + i;
    ClearAddrFacts(m, e.raddr);
    SetPathsFacts(c, e.raddr, e.paths);
    assert Resolve(f, t) == Some(e.paths[i]);
    if r, fp :| Lists(f, r, fp, t) {
      NewTablesListedHere(c, e.raddr, e.paths, r, fp, t);
      SetPathsOwnFingerprint(c, e.raddr, e.paths, fp, i);
      ListedIsLast(c, e.raddr, e.paths, fp, t, j);
    }
    UnlistedLastsForever(f, es, t);
  }

  lemma {:induction false} SetPathsOwnFingerprint(c: Maps, raddr: Addr, ps: seq<PanPath>, fp: Fingerprint, i: nat)
    requires raddr in c.lpaths && c.lpaths[raddr] == map[] && i < |ps|
    requires Lists(SetPaths(c, raddr, ps), raddr, fp, c.next + i)
    ensures ps[i].fingerprint == fp
  {
    var n := |ps| - 1;
    SetPathsFacts(c, raddr, ps[..n]);
    if fp != ps[n].fingerprint {
      if i < n {
        SetPathsOwnFingerprint(c, raddr, ps[..n], fp, i);
      } else {
        ListedBelow(c, raddr, ps[..n], fp);
      }
    } else if i < n {
      assert false;
    }
  }

  lemma {:induction false} ListedBelow(c: Maps, raddr: Addr, ps: seq<PanPath>, fp: Fingerprint)
    requires raddr in c.lpaths && c.lpaths[raddr] == map[]
    requires fp in SetPaths(c, raddr, ps).lpaths[raddr]
    ensures SetPaths(c, raddr, ps).lpaths[raddr][fp] < c.next + |ps|
  {
    if ps != [] {
      SetPathsFacts(c, raddr, ps[..|ps| - 1]);
      if fp != ps[|ps| - 1].fingerprint {
        ListedBelow(c, raddr, ps[..|ps| - 1], fp);
      }
    }
  }

  lemma {:induction false} ListedIsLast(c: Maps, raddr: Addr, ps: seq<PanPath>, fp: Fingerprint, t: Table, j: nat)
    requires raddr in c.lpaths
    requires j < |ps| && c.next <= t && ps[j].fingerprint == fp
    requires Lists(SetPaths(c, raddr, ps), raddr, fp, t)
    ensures t >= c.next + j
  {
    var n := |ps| - 1;
    SetPathsFacts(c, raddr, ps[..n]);
    if fp != ps[n].fingerprint {
      ListedIsLast(c, raddr, ps[..n], fp, t, j);
    }
  }
}
