/** The ranked scheduler script: two global tables that the callbacks overwrite, sort and shrink. */
module RankedScheduler {
  import opened Options
  import opened LuaTables
  import opened RankedModel
  import Model = RankedModel

  class Ranker {
    var paths: map<Addr, seq<Path>>
    var conns: map<Addr, map<Addr, Prefs>>

    function Contents(): Tables
      reads this
    {
      Tables(paths, conns)
    }

    constructor ()
      ensures Contents() == EMPTY
    {
      paths, conns := map[], map[];
    }

    /** Sorts the list of a remote by expiry and then by the number of interfaces; `byExpiry` is what the
        first sort makes of it. If a path has no
        metadata the second sort raises, leaving the list in some order. */
    method RankPaths(raddr: Addr) returns (reply: Reply, ghost byExpiry: seq<Path>)
      requires raddr in paths
      modifies this`paths
      ensures raddr in paths && paths == old(paths)[raddr := paths[raddr]]
      ensures MayRank(old(paths)[raddr], paths[raddr])
      ensures Ordered(ByExpiry(), byExpiry) && multiset(byExpiry) == multiset(old(paths)[raddr])
      ensures StableByCount(byExpiry, paths[raddr]) ==> Lexicographic(paths[raddr])
      ensures reply == if Rankable(old(paths)[raddr]) then Done else Raised
    {
      var announced := paths[raddr];
      ExpirySorts(announced);
      var sorted := TableSort(announced, ByExpiry());
      byExpiry := sorted;
      CountSorts(sorted);
      var ranked := TableSort(sorted, ByCount());
      if StableByCount(byExpiry, ranked) {
        TwoPassesRankLexicographically(byExpiry, ranked);
      }
      paths := paths[raddr := ranked];
      var measured := true;
      for i := 0 to |announced|
        invariant measured <==> forall p | p in announced[..i] :: p.interfaces.Some?
      {
        measured := measured && announced[i].interfaces.Some?;
      }
      assert announced[..|announced|] == announced;
      reply := if |announced| <= 1 || measured then Done else Raised;
    }

    method Initialize(prefs: Option<Prefs>, laddr: Addr, raddr: Addr, ps: seq<Path>) returns (reply: Reply)
      modifies this
      ensures prefs.Some? ==> raddr in paths && MayRank(ps, paths[raddr])
      ensures (Contents(), reply) ==
              Model.Initialize(old(Contents()), prefs, laddr, raddr, ps, if raddr in paths then paths[raddr] else [])
    {
      if prefs.None? {
        return Raised;
      }
      paths := paths[raddr := ps];
      var known := Lookup(conns, raddr).GetOr(map[]);
      conns := conns[raddr := known[laddr := prefs.value]];
      ghost var byExpiry;
      reply, byExpiry := RankPaths(raddr);
      assert paths == old(paths)[raddr := paths[raddr]];
    }

    method Refresh(raddr: Addr, ps: seq<Path>) returns (reply: Reply)
      modifies this`paths
      ensures raddr in paths && MayRank(ps, paths[raddr])
      ensures (Contents(), reply) == Announce(old(Contents()), raddr, ps, paths[raddr])
    {
      paths := paths[raddr := ps];
      ghost var byExpiry;
      reply, byExpiry := RankPaths(raddr);
      assert paths == old(paths)[raddr := paths[raddr]];
    }

    method SetPreferences(prefs: Option<Prefs>, laddr: Addr, raddr: Addr) returns (reply: Reply)
      modifies this`conns
      ensures (Contents(), reply) == Model.SetPreferences(old(Contents()), prefs, laddr, raddr)
    {
      if prefs.None? || raddr !in conns {
        return Raised;
      }
      conns := conns[raddr := conns[raddr][laddr := prefs.value]];
      reply := Done;
    }

    method Path(laddr: Addr, raddr: Addr) returns (reply: Reply)
      ensures reply == PathFor(Contents(), laddr, raddr)
    {
      if raddr !in paths {
        return Raised;
      }
      var list := paths[raddr];
      if |list| == 0 {
        return NoValue;
      }
      if raddr !in conns || laddr !in conns[raddr] {
        return Raised;
      }
      reply := Returned(if conns[raddr][laddr].profile == Some("Scavenger") then list[|list| - 1] else list[0]);
    }

    /** Walks over the list up to the first path with the fingerprint and removes that one. */
    method PathDown(raddr: Addr, fp: Fingerprint) returns (reply: Reply)
      modifies this`paths
      ensures (Contents(), reply) == Model.PathDown(old(Contents()), raddr, fp)
    {
      if raddr !in paths {
        return Raised;
      }
      var list := paths[raddr];
      reply := Done;
      for i := 0 to |list|
        invariant paths == old(paths) && reply == Done
        invariant forall k | 0 <= k < i :: list[k].fingerprint != fp
      {
        if list[i].fingerprint == fp {
          StrikeFirst(list, fp, i);
          paths := paths[raddr := list[..i] + list[i + 1..]];
          return;
        }
      }
      StrikeFirst(list, fp, |list|);
      assert paths == paths[raddr := list];
    }

    method Close(laddr: Addr, raddr: Addr) returns (reply: Reply)
      modifies this`conns
      ensures (Contents(), reply) == Model.Close(old(Contents()), laddr, raddr)
    {
      if raddr !in conns {
        return Raised;
      }
      conns := conns[raddr := conns[raddr] - {laddr}];
      reply := Done;
    }
  }
}
