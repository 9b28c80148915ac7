/** The load-aware path scheduler as a state machine on values: the tables the script keeps, one event
    for each callback, and what each callback does to the tables. Every callback runs under one lock,
    so a run is any sequence of events. What the script leaves to chance (the order `table.sort` gives
    equal elements, `math.random`) and what it reads from outside (the clock, the announced paths)
    is carried by the event. */
module SchedulerModel {
  import opened Options
  import opened LuaTables

  type Addr = string
  type Fingerprint = string

  /** A path table handed to the script; `table` is its identity. */
  datatype Path = Path(table: int, fingerprint: Fingerprint)

  /** The preferences table; `ConnCapacityProfile` may be missing from it. */
  datatype Prefs = Prefs(profile: Option<string>)

  datatype Tables = Tables(
    tick: nat,
    raddr2fps: map<Addr, seq<Fingerprint>>,
    fp2path: map<Fingerprint, Path>,
    fp2last: map<Fingerprint, nat>,
    fp2rtt: map<Fingerprint, real>,
    fp2bw: map<Fingerprint, real>,
    fp2id: map<Fingerprint, nat>,
    fp2laddrs: map<Fingerprint, int>,
    laddr2prefs: map<Addr, Prefs>,
    laddr2fp: map<Addr, Fingerprint>,
    laddr2switchtime: map<Addr, int>,
    laddr2bytes: map<Addr, nat>)

  const EMPTY := Tables(0, map[], map[], map[], map[], map[], map[], map[], map[], map[], map[], map[])

  /** How a callback ends. `Raised` is a Lua error, which the caller gets as an error result while the
      updates made so far stay. `Retry` is the tail call by which `Path` starts over. */
  datatype Reply = Done | Returned(path: Path) | NoValue | Raised | Retry

  const HYSTERESIS := 1000000

  // ----- reading the tables -----

  function Load(s: Tables, fp: Fingerprint): int {
    Lookup(s.fp2laddrs, fp).GetOr(0)
  }

  function Stamp(s: Tables, fp: Fingerprint): nat {
    Lookup(s.fp2last, fp).GetOr(0)
  }

  /** The live path a local address is assigned to. */
  function Current(s: Tables, laddr: Addr): Option<Path> {
    if laddr in s.laddr2fp then Lookup(s.fp2path, s.laddr2fp[laddr]) else None
  }

  // ----- the comparisons given to table.sort -----

  function ByStamp(s: Tables): (Fingerprint, Fingerprint) -> bool {
    (a, b) => Stamp(s, a) < Stamp(s, b)
  }

  function ByLoad(s: Tables): (Fingerprint, Fingerprint) -> bool {
    (a, b) => Load(s, a) < Load(s, b)
  }

  function ByRTT(s: Tables): (Fingerprint, Fingerprint) -> bool {
    (a, b) => Lookup(s.fp2rtt, a).GetOr(1000.0) < Lookup(s.fp2rtt, b).GetOr(0.0)
  }

  /** A quotient of floating-point numbers, the numerator not negative: x/0 is infinite and 0/0 is not
      a number, which compares with nothing. */
  datatype Share = Finite(value: real) | Infinite | NotANumber

  function Quotient(bw: real, load: int): Share {
    if load != 0 then Finite(bw / load as real)
    else if bw > 0.0 then Infinite
    else NotANumber
  }

  predicate Greater(x: Share, y: Share) {
    match (x, y)
    case (Finite(a), Finite(b)) => a > b
    case (Infinite, Finite(_)) => true
    case _ => false
  }

  function ShareOf(s: Tables, fp: Fingerprint, unmeasured: real): Share {
    Quotient(Lookup(s.fp2bw, fp).GetOr(unmeasured), Lookup(s.fp2laddrs, fp).GetOr(1))
  }

  function ByShare(s: Tables): (Fingerprint, Fingerprint) -> bool {
    (a, b) => Greater(ShareOf(s, a, 1000.0), ShareOf(s, b, 0.0))
  }

  /** `fp` may stand first in `list` once `table.sort(list, less)` is done. */
  ghost predicate MaySortFirst(less: (Fingerprint, Fingerprint) -> bool, list: seq<Fingerprint>, fp: Fingerprint) {
    && fp in list
    && (StrictWeakOn(less, list) ==> forall g | g in list :: !less(g, fp))
  }

  // ----- Path -----

  /** Whether this call of `Path` asks one of the choosers for a path at all. */
  predicate Consults(s: Tables, laddr: Addr, raddr: Addr, now: int) {
    && raddr in s.raddr2fps && s.raddr2fps[raddr] != []
    && laddr in s.laddr2prefs
    && (Current(s, laddr).None?
        || (laddr in s.laddr2switchtime && now - s.laddr2switchtime[laddr] > HYSTERESIS))
  }

  /** The fingerprints the chooser may come up with. `roll` is the number drawn from 1 to 100. */
  ghost predicate MayChoose(s: Tables, laddr: Addr, raddr: Addr, now: int, roll: nat, fp: Fingerprint)
    requires Consults(s, laddr, raddr, now)
  {
    var list := s.raddr2fps[raddr];
    var profile := s.laddr2prefs[laddr].profile;
    if Current(s, laddr).None? then MaySortFirst(ByLoad(s), list, fp)
    else if roll == 1 then MaySortFirst(ByStamp(s), list, fp)
    else if profile == Some("LowLatencyInteractive") || profile == Some("LowLatencyNonInteractive") then
      MaySortFirst(ByRTT(s), list, fp)
    else if profile == Some("CapacitySeeking") then MaySortFirst(ByShare(s), list, fp)
    else if profile == Some("Scavenger") then MaySortFirst(ByLoad(s), list, fp)
    else fp in list
  }

  /** The moving average of a path's bandwidth after one more sample. */
  function Smooth(estimate: real, sample: real): real {
    (estimate * 9.0 + sample) / 10.0
  }

  /** Bytes per microsecond. The quotient for no elapsed time at all is not the one Lua gives. */
  function Rate(bytes: nat, elapsed: int): real {
    if elapsed == 0 then 0.0 else bytes as real / elapsed as real
  }

  /** The sample a connection contributes to the path it leaves at time `now`. */
  function Sample(s: Tables, laddr: Addr, now: int): real
    requires laddr in s.laddr2switchtime
  {
    Rate(Lookup(s.laddr2bytes, laddr).GetOr(0), now - s.laddr2switchtime[laddr])
  }

  /** Takes the connection off its old path: the load goes down and the estimate takes in a sample. */
  function Leave(s: Tables, laddr: Addr, from: Fingerprint, now: int): (Tables, Reply) {
    if from !in s.fp2laddrs then (s, Raised)
    else
      var s1 := s.(fp2laddrs := s.fp2laddrs[from := s.fp2laddrs[from] - 1]);
      if laddr !in s.laddr2switchtime then (s1, Raised)
      else (s1.(fp2bw := s.fp2bw[from := Smooth(Lookup(s.fp2bw, from).GetOr(0.0), Sample(s, laddr, now))]), Done)
  }

  /** Puts the connection on the new path: bytes and clock start afresh, and the load goes up. */
  function Join(s: Tables, laddr: Addr, fp: Fingerprint, now: int): Tables {
    s.(laddr2bytes := s.laddr2bytes[laddr := 0],
       laddr2switchtime := s.laddr2switchtime[laddr := now],
       fp2laddrs := s.fp2laddrs[fp := Load(s, fp) + 1])
  }

  /** Puts the connection on a path other than its old one. */
  function Move(s: Tables, laddr: Addr, now: int, p: Path): (Tables, Reply) {
    var fp := p.fingerprint;
    var s1 := s.(fp2last := s.fp2last[fp := s.tick], laddr2fp := s.laddr2fp[laddr := fp]);
    var (s2, left) := if laddr in s.laddr2fp then Leave(s1, laddr, s.laddr2fp[laddr], now) else (s1, Done);
    if left.Raised? then (s2, Raised)
    else (Join(s2, laddr, fp, now), Returned(p))
  }

  /** One pass through the body of `Path`; `chosen` is what the chooser finds when it is asked. */
  function PathPass(s: Tables, laddr: Addr, raddr: Addr, now: int, chosen: Fingerprint): (Tables, Reply) {
    if raddr !in s.raddr2fps then (s, Raised)
    else if s.raddr2fps[raddr] == [] then (s, NoValue)
    else if laddr !in s.laddr2prefs then (s, Raised)
    else if Current(s, laddr).Some? && laddr !in s.laddr2switchtime then (s, Raised)
    else
      var p := if Consults(s, laddr, raddr, now) then Lookup(s.fp2path, chosen) else Current(s, laddr);
      match p
      case None => (s, Retry)
      case Some(path) =>
        if Lookup(s.laddr2fp, laddr) == Some(path.fingerprint) then (s, Returned(path))
        else Move(s, laddr, now, path)
  }

  // ----- the other callbacks -----

  /** One announced path; `index` is its place in the sorted announcement. */
  function AnnounceOne(s: Tables, raddr: Addr, p: Path, index: nat): Tables {
    var list := Lookup(s.raddr2fps, raddr).GetOr([]);
    s.(fp2path := s.fp2path[p.fingerprint := p],
       fp2id := s.fp2id[p.fingerprint := index],
       fp2laddrs := s.fp2laddrs[p.fingerprint := Load(s, p.fingerprint)],
       raddr2fps := s.raddr2fps[raddr := if p.fingerprint in list then list else list + [p.fingerprint]])
  }

  function Announce(s: Tables, raddr: Addr, ps: seq<Path>): Tables {
    if ps == [] then s
    else AnnounceOne(Announce(s, raddr, ps[..|ps| - 1]), raddr, ps[|ps| - 1], |ps|)
  }

  function Greet(s: Tables, laddr: Addr, raddr: Addr, now: int): Tables {
    s.(raddr2fps := s.raddr2fps[raddr := Lookup(s.raddr2fps, raddr).GetOr([])],
       laddr2switchtime := s.laddr2switchtime[laddr := now])
  }

  /** Preferences that are nil are indexed before they are tested for nil. */
  function SetPreferences(s: Tables, prefs: Option<Prefs>, laddr: Addr): (Tables, Reply) {
    match prefs
    case None => (s, Raised)
    case Some(p) => (s.(laddr2prefs := s.laddr2prefs[laddr := p]), Done)
  }

  /** `ps` is the announcement after sorting. */
  function Initialize(s: Tables, prefs: Option<Prefs>, laddr: Addr, raddr: Addr, ps: seq<Path>, now: int): (Tables, Reply) {
    SetPreferences(Announce(Greet(s, laddr, raddr, now), raddr, ps), prefs, laddr)
  }

  /** What is forgotten about a path before its list is looked at. */
  function Forget(s: Tables, fp: Fingerprint): Tables {
    s.(fp2path := s.fp2path - {fp}, fp2rtt := s.fp2rtt - {fp}, fp2last := s.fp2last - {fp},
       fp2bw := s.fp2bw - {fp}, fp2laddrs := s.fp2laddrs[fp := 0])
  }

  /** The assignments to any path but `fp`. */
  function Unassign(m: map<Addr, Fingerprint>, fp: Fingerprint): map<Addr, Fingerprint> {
    map l | l in m && m[l] != fp :: m[l]
  }

  function PathDown(s: Tables, raddr: Addr, fp: Fingerprint): (Tables, Reply) {
    var s1 := Forget(s, fp);
    if raddr !in s1.raddr2fps then (s1, Raised)
    else
      (s1.(raddr2fps := s1.raddr2fps[raddr := RemoveWhileWalking(s1.raddr2fps[raddr], fp, 0)],
           laddr2fp := Unassign(s1.laddr2fp, fp)), Done)
  }

  function Close(s: Tables, laddr: Addr): (Tables, Reply) {
    if laddr !in s.laddr2fp then (s, Raised)
    else
      var fp := s.laddr2fp[laddr];
      (s.(laddr2fp := s.laddr2fp - {laddr},
          fp2laddrs := s.fp2laddrs[fp := Lookup(s.fp2laddrs, fp).GetOr(1) - 1],
          laddr2prefs := s.laddr2prefs - {laddr}), Done)
  }

  function SentPacket(s: Tables, laddr: Addr, size: nat): Tables {
    s.(laddr2bytes := s.laddr2bytes[laddr := Lookup(s.laddr2bytes, laddr).GetOr(0) + size])
  }

  function UpdatedMetrics(s: Tables, laddr: Addr, rtt: real): Tables {
    if laddr !in s.laddr2fp then s else s.(fp2rtt := s.fp2rtt[s.laddr2fp[laddr] := rtt])
  }

  /** Printing a live path that has no load entry raises. */
  function Periodic(s: Tables): (Tables, Reply) {
    (s.(tick := s.tick + 1), if s.fp2path.Keys <= s.fp2laddrs.Keys then Done else Raised)
  }

  // ----- runs -----

  datatype Event =
    | OnInitialize(laddr: Addr, raddr: Addr, prefs: Option<Prefs>, paths: seq<Path>, now: int)
    | OnRefresh(laddr: Addr, raddr: Addr, paths: seq<Path>, now: int)
    | OnSetPreferences(laddr: Addr, prefs: Option<Prefs>)
    | OnPath(laddr: Addr, raddr: Addr, now: int, roll: nat, chosen: Fingerprint)
    | OnPathDown(laddr: Addr, raddr: Addr, fp: Fingerprint)
    | OnClose(laddr: Addr)
    | OnSentPacket(laddr: Addr, size: nat)
    | OnUpdatedMetrics(laddr: Addr, rtt: real)
    | OnPeriodic

  function Act(s: Tables, e: Event): (Tables, Reply) {
    match e
    case OnInitialize(l, r, prefs, ps, now) => Initialize(s, prefs, l, r, ps, now)
    case OnRefresh(l, r, ps, now) => Initialize(s, None, l, r, ps, now)
    case OnSetPreferences(l, prefs) => SetPreferences(s, prefs, l)
    case OnPath(l, r, now, _, chosen) => PathPass(s, l, r, now, chosen)
    case OnPathDown(_, r, fp) => PathDown(s, r, fp)
    case OnClose(l) => Close(s, l)
    case OnSentPacket(l, size) => (SentPacket(s, l, size), Done)
    case OnUpdatedMetrics(l, rtt) => (UpdatedMetrics(s, l, rtt), Done)
    case OnPeriodic => Periodic(s)
  }

  function Step(s: Tables, e: Event): Tables {
    Act(s, e).0
  }

  function Run(s: Tables, es: seq<Event>): Tables
    decreases |es|
  {
    if es == [] then s else Run(Step(s, es[0]), es[1..])
  }

  /** The event is one the script can produce in this state: only the choice made by `Path` is bound. */
  ghost predicate Legal(s: Tables, e: Event) {
    e.OnPath? ==>
      && 1 <= e.roll <= 100
      && (Consults(s, e.laddr, e.raddr, e.now) ==> MayChoose(s, e.laddr, e.raddr, e.now, e.roll, e.chosen))
  }

  /** A path is only reported down for a remote that has been initialised. */
  predicate KnownRemote(s: Tables, e: Event) {
    e.OnPathDown? ==> e.raddr in s.raddr2fps
  }

  /** A path is only reported down when no other remote lists it. */
  predicate Exclusive(s: Tables, e: Event) {
    e.OnPathDown? ==> forall r | r in s.raddr2fps && r != e.raddr :: e.fp !in s.raddr2fps[r]
  }

  /** `ok` holds of every event of the run in the state it meets. */
  ghost predicate Along(ok: (Tables, Event) -> bool, s: Tables, es: seq<Event>)
    decreases |es|
  {
    es == [] || (ok(s, es[0]) && Along(ok, Step(s, es[0]), es[1..]))
  }
}
