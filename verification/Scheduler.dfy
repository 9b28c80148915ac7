/** The scheduler script itself: global tables that every callback updates in place. Each callback is
    proved to do to the tables what the state machine of SchedulerModel says, for any outcome of
    `table.sort` and `math.random`. */
module Scheduler {
  import opened Options
  import opened LuaTables
  import opened SchedulerModel
  import Model = SchedulerModel
  import Invariants = SchedulerInvariants
  import Liveness = SchedulerLiveness
  import Service = SchedulerService

  /** The comparison of announced paths. */
  function ByFingerprint(): (Path, Path) -> bool {
    (a: Path, b: Path) => Before(a.fingerprint, b.fingerprint)
  }

  lemma FingerprintsSort(ps: seq<Path>)
    ensures StrictWeakOn(ByFingerprint(), ps)
  {
    forall x, y | x in ps && y in ps && ByFingerprint()(x, y) ensures !ByFingerprint()(y, x) {
      BeforeAsymmetric(x.fingerprint, y.fingerprint);
    }
    forall x, y, z | x in ps && y in ps && z in ps && !ByFingerprint()(x, y) && !ByFingerprint()(y, z)
      ensures !ByFingerprint()(x, z)
    {
      NotBeforeTransitive(x.fingerprint, y.fingerprint, z.fingerprint);
    }
  }

  class LoadAwareScheduler {
    var tick: nat
    var raddr2fps: map<Addr, seq<Fingerprint>>
    var fp2path: map<Fingerprint, Path>
    var fp2last: map<Fingerprint, nat>
    var fp2rtt: map<Fingerprint, real>
    var fp2bw: map<Fingerprint, real>
    var fp2id: map<Fingerprint, nat>
    var fp2laddrs: map<Fingerprint, int>
    var laddr2prefs: map<Addr, Prefs>
    var laddr2fp: map<Addr, Fingerprint>
    var laddr2switchtime: map<Addr, int>
    var laddr2bytes: map<Addr, nat>

    function Contents(): Tables
      reads this
    {
      Tables(tick, raddr2fps, fp2path, fp2last, fp2rtt, fp2bw, fp2id, fp2laddrs,
             laddr2prefs, laddr2fp, laddr2switchtime, laddr2bytes)
    }

    constructor ()
      ensures Contents() == EMPTY
    {
      tick := 0;
      raddr2fps, fp2path, fp2last, fp2rtt, fp2bw, fp2id, fp2laddrs := map[], map[], map[], map[], map[], map[], map[];
      laddr2prefs, laddr2fp, laddr2switchtime, laddr2bytes := map[], map[], map[], map[];
    }

    // ----- choosers -----

    /** Copies the list of a remote, sorts the copy, and looks up its first fingerprint. The fingerprint is a result too. */
    method FirstAfterSort(raddr: Addr, less: (Fingerprint, Fingerprint) -> bool)
      returns (p: Option<Path>, first: Fingerprint)
      requires raddr in raddr2fps && raddr2fps[raddr] != []
      ensures MaySortFirst(less, raddr2fps[raddr], first) && p == Lookup(fp2path, first)
    {
      var list, fingerprints := raddr2fps[raddr], [];
      for i := 0 to |list|
        invariant fingerprints == list[..i]
      {
        fingerprints := fingerprints + [list[i]];
      }
      assert fingerprints == list;
      var sorted := TableSort(fingerprints, less);
      first := sorted[0];
      p := Lookup(fp2path, sorted[0]);
      forall g | StrictWeakOn(less, list) && g in list ensures !less(g, first) {
        var j :| 0 <= j < |sorted| && sorted[j] == g;
      }
    }

    method NextOldestPath(raddr: Addr) returns (p: Option<Path>, first: Fingerprint)
      requires raddr in raddr2fps && raddr2fps[raddr] != []
      ensures MaySortFirst(ByStamp(Contents()), raddr2fps[raddr], first) && p == Lookup(fp2path, first)
    {
      p, first := FirstAfterSort(raddr, ByStamp(Contents()));
    }

    method NextScavengePath(raddr: Addr) returns (p: Option<Path>, first: Fingerprint)
      requires raddr in raddr2fps && raddr2fps[raddr] != []
      ensures MaySortFirst(ByLoad(Contents()), raddr2fps[raddr], first) && p == Lookup(fp2path, first)
    {
      p, first := FirstAfterSort(raddr, ByLoad(Contents()));
    }

    method NextBestRTTPath(raddr: Addr) returns (p: Option<Path>, first: Fingerprint)
      requires raddr in raddr2fps && raddr2fps[raddr] != []
      ensures MaySortFirst(ByRTT(Contents()), raddr2fps[raddr], first) && p == Lookup(fp2path, first)
    {
      p, first := FirstAfterSort(raddr, ByRTT(Contents()));
    }

    method NextBestBWPath(raddr: Addr) returns (p: Option<Path>, first: Fingerprint)
      requires raddr in raddr2fps && raddr2fps[raddr] != []
      ensures MaySortFirst(ByShare(Contents()), raddr2fps[raddr], first) && p == Lookup(fp2path, first)
    {
      p, first := FirstAfterSort(raddr, ByShare(Contents()));
    }

    method NextRandomPath(raddr: Addr) returns (p: Option<Path>, first: Fingerprint)
      requires raddr in raddr2fps && raddr2fps[raddr] != []
      ensures first in raddr2fps[raddr] && p == Lookup(fp2path, first)
    {
      var k := Random(|raddr2fps[raddr]|);
      first := raddr2fps[raddr][k - 1];
      p := Lookup(fp2path, raddr2fps[raddr][k - 1]);
    }

    // ----- Path -----

    /** Asks the chooser that is due; `roll` is the number drawn from 1 to 100. */
    method Choose(laddr: Addr, raddr: Addr, now: int, roll: nat) returns (p: Option<Path>, chosen: Fingerprint)
      requires Consults(Contents(), laddr, raddr, now)
      ensures MayChoose(Contents(), laddr, raddr, now, roll, chosen)
      ensures Service.Served(Contents(), laddr, raddr, roll, chosen)
      ensures p == Lookup(fp2path, chosen)
    {
      var profile := laddr2prefs[laddr].profile;
      if Current(Contents(), laddr).None? {
        p, chosen := NextScavengePath(raddr);
      } else if roll == 1 {
        p, chosen := NextOldestPath(raddr);
      } else if profile == Some("LowLatencyInteractive") || profile == Some("LowLatencyNonInteractive") {
        p, chosen := NextBestRTTPath(raddr);
      } else if profile == Some("CapacitySeeking") {
        p, chosen := NextBestBWPath(raddr);
      } else if profile == Some("Scavenger") {
        p, chosen := NextScavengePath(raddr);
      } else {
        p, chosen := NextRandomPath(raddr);
      }
      Service.ChoiceServes(Contents(), laddr, raddr, now, roll, chosen);
    }

    method LeaveOldPath(laddr: Addr, from: Fingerprint, now: int) returns (reply: Reply)
      modifies this`fp2laddrs, this`fp2bw
      ensures (Contents(), reply) == Leave(old(Contents()), laddr, from, now)
    {
      if from !in fp2laddrs {
        return Raised;
      }
      fp2laddrs := fp2laddrs[from := fp2laddrs[from] - 1];
      if laddr !in laddr2switchtime {
        return Raised;
      }
      var bytes := Lookup(laddr2bytes, laddr).GetOr(0);
      var sample := Rate(bytes, now - laddr2switchtime[laddr]);
      fp2bw := fp2bw[from := Smooth(Lookup(fp2bw, from).GetOr(0.0), sample)];
      reply := Done;
    }

    method SwitchTo(laddr: Addr, now: int, p: Path) returns (reply: Reply)
      modifies this
      ensures (Contents(), reply) == Move(old(Contents()), laddr, now, p)
    {
      var fp, from := p.fingerprint, Lookup(laddr2fp, laddr);
      fp2last := fp2last[fp := tick];
      laddr2fp := laddr2fp[laddr := fp];
      if from.Some? {
        ghost var leaving := Contents();
        var left := LeaveOldPath(laddr, from.value, now);
        assert (Contents(), left) == Leave(leaving, laddr, from.value, now);
        if left.Raised? {
          return Raised;
        }
      }
      JoinNewPath(laddr, fp, now);
      reply := Returned(p);
    }

    method JoinNewPath(laddr: Addr, fp: Fingerprint, now: int)
      modifies this`laddr2bytes, this`laddr2switchtime, this`fp2laddrs
      ensures Contents() == Join(old(Contents()), laddr, fp, now)
    {
      laddr2bytes := laddr2bytes[laddr := 0];
      laddr2switchtime := laddr2switchtime[laddr := now];
      fp2laddrs := fp2laddrs[fp := Lookup(fp2laddrs, fp).GetOr(0) + 1];
    }

    /** One pass through the body of the Path callback, up to the point where it calls itself again. */
    method PathOnce(laddr: Addr, raddr: Addr, now: int) returns (reply: Reply, ghost roll: nat, ghost chosen: Fingerprint)
      modifies this
      ensures Legal(old(Contents()), OnPath(laddr, raddr, now, roll, chosen))
      ensures (Contents(), reply) == PathPass(old(Contents()), laddr, raddr, now, chosen)
    {
      roll, chosen := 1, "";
      if raddr !in raddr2fps {
        return Raised, roll, chosen;
      }
      if |raddr2fps[raddr]| == 0 {
        return NoValue, roll, chosen;
      }
      var p := Current(Contents(), laddr);
      if laddr !in laddr2prefs || (p.Some? && laddr !in laddr2switchtime) {
        return Raised, roll, chosen;
      }
      if p.None? || now - laddr2switchtime[laddr] > HYSTERESIS {
        var dice := Random(100);
        roll := dice;
        p, chosen := Choose(laddr, raddr, now, dice);
      }
      if p.Some? && Lookup(laddr2fp, laddr) != Some(p.value.fingerprint) {
        reply := SwitchTo(laddr, now, p.value);
      } else if p.Some? {
        reply := Returned(p.value);
      } else {
        reply := Retry;
      }
    }

    /** The Path callback, which may end in calling itself. Every pass through its body reads the clock;
        `readings` are those of as many passes as are waited for. Where every listed path is live the first
        pass is the last. */
    method Path(laddr: Addr, raddr: Addr, readings: seq<int>)
      returns (reply: Reply, ghost attempts: seq<Liveness.Attempt>)
      requires readings != []
      modifies this
      ensures 1 <= |attempts| <= |readings| && forall i | 0 <= i < |attempts| :: attempts[i].now == readings[i]
      ensures Liveness.LegalAttempts(old(Contents()), laddr, raddr, attempts)
      ensures (Contents(), reply) == Liveness.PathCall(old(Contents()), laddr, raddr, attempts)
      ensures reply.Retry? ==> |attempts| == |readings|
      ensures old(Invariants.Core(Contents()) && Liveness.ListedLive(Contents())) ==>
                && Invariants.Core(Contents()) && Liveness.ListedLive(Contents())
                && |attempts| == 1 && !reply.Retry?
                && (reply.Returned? ==> Current(Contents(), laddr) == Some(reply.path))
      decreases |readings|
    {
      ghost var before := Contents();
      ghost var roll: nat, chosen: Fingerprint;
      reply, roll, chosen := PathOnce(laddr, raddr, readings[0]);
      attempts := [Liveness.Attempt(readings[0], roll, chosen)];
      Liveness.OnePass(before, laddr, raddr, attempts[0]);
      if Invariants.Core(before) && Liveness.ListedLive(before) {
        Liveness.PathPassStaysLive(before, laddr, raddr, readings[0], roll, chosen);
      }
      if reply.Retry? && |readings| > 1 {
        ghost var rest;
        reply, rest := Path(laddr, raddr, readings[1..]);
        Liveness.OneMorePass(before, laddr, raddr, attempts[0], rest);
        attempts := attempts + rest;
      }
    }

    // ----- Initialize, Refresh, SetPreferences -----

    method AddPath(raddr: Addr, p: Path, index: nat)
      requires raddr in raddr2fps
      modifies this`fp2path, this`fp2id, this`fp2laddrs, this`raddr2fps
      ensures Contents() == AnnounceOne(old(Contents()), raddr, p, index)
    {
      var fp := p.fingerprint;
      fp2path := fp2path[fp := p];
      fp2id := fp2id[fp := index];
      fp2laddrs := fp2laddrs[fp := Lookup(fp2laddrs, fp).GetOr(0)];
      var known, list := false, raddr2fps[raddr];
      for i := 0 to |list|
        invariant known <==> fp in list[..i]
      {
        if list[i] == fp {
          known := true;
          break;
        }
      }
      if !known {
        raddr2fps := raddr2fps[raddr := list + [fp]];
      } else {
        raddr2fps := raddr2fps[raddr := list];
      }
    }

    /** The announced table is sorted in place; `sorted` is what it holds afterwards. */
    method Initialize(prefs: Option<Prefs>, laddr: Addr, raddr: Addr, ps: seq<Path>, now: int)
      returns (reply: Reply, sorted: seq<Path>)
      modifies this
      ensures multiset(sorted) == multiset(ps) && Ordered(ByFingerprint(), sorted)
      ensures (Contents(), reply) == Model.Initialize(old(Contents()), prefs, laddr, raddr, sorted, now)
    {
      raddr2fps := raddr2fps[raddr := Lookup(raddr2fps, raddr).GetOr([])];
      laddr2switchtime := laddr2switchtime[laddr := now];
      ghost var greeted := Contents();
      FingerprintsSort(ps);
      sorted := TableSort(ps, ByFingerprint());
      for i := 0 to |sorted|
        invariant raddr in raddr2fps
        invariant Contents() == Announce(greeted, raddr, sorted[..i])
      {
        AddPath(raddr, sorted[i], i + 1);
        assert sorted[..i + 1][..i] == sorted[..i];
      }
      assert sorted[..|sorted|] == sorted;
      reply := SetPreferences(prefs, laddr);
    }

    method SetPreferences(prefs: Option<Prefs>, laddr: Addr) returns (reply: Reply)
      modifies this`laddr2prefs
      ensures (Contents(), reply) == Model.SetPreferences(old(Contents()), prefs, laddr)
    {
      if prefs.None? {
        return Raised;
      }
      laddr2prefs := laddr2prefs[laddr := prefs.value];
      reply := Done;
    }

    method Refresh(laddr: Addr, raddr: Addr, ps: seq<Path>, now: int) returns (reply: Reply, sorted: seq<Path>)
      modifies this
      ensures multiset(sorted) == multiset(ps) && Ordered(ByFingerprint(), sorted)
      ensures (Contents(), reply) == Act(old(Contents()), OnRefresh(laddr, raddr, sorted, now))
      ensures reply == Raised
    {
      reply, sorted := Initialize(None, laddr, raddr, ps, now);
    }

    // ----- PathDown, Close -----

    method PathDown(raddr: Addr, fp: Fingerprint) returns (reply: Reply)
      modifies this
      ensures (Contents(), reply) == Model.PathDown(old(Contents()), raddr, fp)
    {
      ForgetPath(fp);
      if raddr !in raddr2fps {
        return Raised;
      }
      StrikeFromList(raddr, fp);
      TakeOff(fp);
      reply := Done;
    }

    method ForgetPath(fp: Fingerprint)
      modifies this`fp2path, this`fp2rtt, this`fp2last, this`fp2bw, this`fp2laddrs
      ensures Contents() == Forget(old(Contents()), fp)
    {
      fp2path := fp2path - {fp};
      fp2rtt := fp2rtt - {fp};
      fp2last := fp2last - {fp};
      fp2bw := fp2bw - {fp};
      fp2laddrs := fp2laddrs[fp := 0];
    }

    /** Walks over the list and removes from it at the same time. */
    method StrikeFromList(raddr: Addr, fp: Fingerprint)
      requires raddr in raddr2fps
      modifies this`raddr2fps
      ensures raddr2fps == old(raddr2fps)[raddr := RemoveWhileWalking(old(raddr2fps)[raddr], fp, 0)]
    {
      var i := 0;
      while i < |raddr2fps[raddr]|
        invariant raddr in raddr2fps
        invariant raddr2fps == old(raddr2fps)[raddr := raddr2fps[raddr]]
        invariant RemoveWhileWalking(raddr2fps[raddr], fp, i) == RemoveWhileWalking(old(raddr2fps)[raddr], fp, 0)
        decreases |raddr2fps[raddr]| - i
      {
        var list := raddr2fps[raddr];
        if list[i] == fp {
          raddr2fps := raddr2fps[raddr := list[..i] + list[i + 1..]];
        }
        i := i + 1;
      }
    }

    method TakeOff(fp: Fingerprint)
      modifies this`laddr2fp
      ensures laddr2fp == Unassign(old(laddr2fp), fp)
    {
      var todo := laddr2fp.Keys;
      while todo != {}
        invariant todo <= old(laddr2fp).Keys
        invariant laddr2fp == map l | l in old(laddr2fp) && (l in todo || old(laddr2fp)[l] != fp) :: old(laddr2fp)[l]
        decreases |todo|
      {
        var l :| l in todo;
        if laddr2fp[l] == fp {
          laddr2fp := laddr2fp - {l};
        }
        todo := todo - {l};
      }
    }

    method Close(laddr: Addr) returns (reply: Reply)
      modifies this
      ensures (Contents(), reply) == Model.Close(old(Contents()), laddr)
    {
      var fp := Lookup(laddr2fp, laddr);
      laddr2fp := laddr2fp - {laddr};
      if fp.None? {
        assert laddr2fp == old(laddr2fp);
        return Raised;
      }
      fp2laddrs := fp2laddrs[fp.value := Lookup(fp2laddrs, fp.value).GetOr(1) - 1];
      laddr2prefs := laddr2prefs - {laddr};
      reply := Done;
    }

    // ----- statistics and the clock -----

    method SentPacket(laddr: Addr, size: nat)
      modifies this`laddr2bytes
      ensures Contents() == Model.SentPacket(old(Contents()), laddr, size)
    {
      laddr2bytes := laddr2bytes[laddr := Lookup(laddr2bytes, laddr).GetOr(0) + size];
    }

    method UpdatedMetrics(laddr: Addr, latestRTT: real)
      modifies this`fp2rtt
      ensures Contents() == Model.UpdatedMetrics(old(Contents()), laddr, latestRTT)
    {
      if laddr in laddr2fp {
        fp2rtt := fp2rtt[laddr2fp[laddr] := latestRTT];
      }
    }

    method Periodic() returns (reply: Reply)
      modifies this`tick
      ensures (Contents(), reply) == Model.Periodic(old(Contents()))
    {
      tick := tick + 1;
      var todo := fp2path.Keys;
      reply := Done;
      while todo != {}
        invariant todo <= fp2path.Keys
        invariant fp2path.Keys - todo <= fp2laddrs.Keys
        decreases |todo|
      {
        var fp :| fp in todo;
        if fp !in fp2laddrs {
          return Raised;
        }
        todo := todo - {fp};
      }
    }
  }
}
