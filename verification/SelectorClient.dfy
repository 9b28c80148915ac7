/** The application's half of the split selector as an object whose methods update its fields. */
module SelectorClient {
  import opened Options
  import opened PathRecords
  import opened SelectorProtocol

  /** The loop that turns path objects into the records of a message. */
  method Records(paths: seq<PanPath>) returns (ps: seq<WirePath>)
    ensures ps == ToWire(paths)
  {
    ps := [];
    for i := 0 to |paths|
      invariant ps + ToWire(paths[i..]) == ToWire(paths)
    {
      assert paths[i..][1..] == paths[i + 1..];
      ps := ps + [NewPathFrom(paths[i])];
    }
  }

  /** The loop by which the daemon turns the records of a message into path objects. */
  method PathObjects(args: seq<WirePath>) returns (paths: seq<PanPath>)
    ensures paths == FromWire(args)
    ensures |paths| == |args| && forall i | 0 <= i < |paths| :: NewPathFrom(paths[i]) == args[i]
  {
    paths := [];
    for i := 0 to |args|
      invariant paths + FromWire(args[i..]) == FromWire(args)
      invariant |paths| == i && forall j | 0 <= j < i :: NewPathFrom(paths[j]) == args[j]
    {
      assert args[i..][1..] == args[i + 1..];
      paths := paths + [ToPanPath(args[i])];
    }
  }

  class SplitClient {
    var connectionPreferences: Option<Prefs>
    var paths: map<Fingerprint, Option<PanPath>>
    var local: Option<Addr>
    var remote: Option<Addr>

    /** The operations made so far, all for one connection. */
    ghost var id: Id
    ghost var history: seq<Op>

    function State(): Client
      reads this
    {
      Client(connectionPreferences, paths, local, remote)
    }

    ghost predicate Valid()
      reads this
    {
      State() == After(id, history)
    }

    constructor (ghost id: Id)
      ensures Valid() && this.id == id && history == []
    {
      connectionPreferences, paths, local, remote := None, map[], None, None;
      this.id, history := id, [];
    }

    method RememberPaths(announced: seq<PanPath>) returns (ps: seq<WirePath>)
      modifies this`paths
      ensures paths == Remember(old(paths), announced) && ps == ToWire(announced)
    {
      for i := 0 to |announced|
        invariant paths == Remember(old(paths), announced[..i])
      {
        assert announced[..i + 1][..i] == announced[..i];
        paths := paths[announced[i].fingerprint := Some(announced[i])];
      }
      assert announced[..|announced|] == announced;
      ps := Records(announced);
    }

    method Initialize(local: Addr, remote: Addr, announced: seq<PanPath>) returns (args: SelectorMsg)
      requires Valid() && id == Id(local, remote)
      modifies this
      ensures Valid() && id == old(id) && history == old(history) + [Op.Initialize(announced)]
      ensures Decode(ToInitialize, args) == Forward(ReqInitialize(connectionPreferences, id, FromWire(ToWire(announced))))
    {
      this.remote := Some(remote);
      this.local := Some(local);
      var ps := RememberPaths(announced);
      args := SelectorMsg(this.local, this.remote, None, None, connectionPreferences, ps);
      history := history + [Op.Initialize(announced)];
      assert history[..|history| - 1] == old(history);
    }

    /** Returns the message to send, if the addresses are known yet. */
    method SetPreferences(prefs: Option<Prefs>) returns (args: Option<SelectorMsg>)
      requires Valid()
      modifies this`connectionPreferences, this`history
      ensures Valid() && history == old(history) + [Op.SetPreferences(prefs)]
      ensures args.Some? <==> Introduced(old(history))
      ensures args.Some? ==> Decode(ToSetPreferences, args.value) == Forward(ReqSetPreferences(prefs, id))
    {
      AddressesAfter(id, history);
      connectionPreferences := prefs;
      if local != None && remote != None {
        args := Some(SelectorMsg(local, remote, None, None, connectionPreferences, []));
      } else {
        args := None;
      }
      history := history + [Op.SetPreferences(prefs)];
      assert history[..|history| - 1] == old(history);
    }

    /** `reply` is the fingerprint in the daemon's answer, if there is one. */
    method Path(reply: Option<Fingerprint>) returns (p: Option<PanPath>)
      requires Valid()
      modifies this`history
      ensures Valid() && history == old(history) + [GetPath]
      ensures p == if reply.None? then None else Latest(history, reply.value)
    {
      p := None;
      if reply.Some? && reply.value in paths {
        p := paths[reply.value];
      }
      history := history + [GetPath];
      assert history[..|history| - 1] == old(history);
      ClientReturnsLatest(id, history, reply);
    }

    method PathDown(fp: Fingerprint, pi: string) returns (args: SelectorMsg)
      requires Valid()
      modifies this`paths, this`history
      ensures Valid() && history == old(history) + [Op.PathDown(fp, pi)]
      ensures Decode(ToPathDown, args) ==
              if Introduced(old(history)) then Forward(ReqPathDown(id, fp, pi)) else Refused
    {
      AddressesAfter(id, history);
      paths := paths[fp := None];
      args := SelectorMsg(local, remote, Some(fp), Some(pi), None, []);
      history := history + [Op.PathDown(fp, pi)];
      assert history[..|history| - 1] == old(history);
    }

    method Refresh(announced: seq<PanPath>) returns (args: SelectorMsg)
      requires Valid()
      modifies this`paths, this`history
      ensures Valid() && history == old(history) + [Op.Refresh(announced)]
      ensures Decode(ToRefresh, args) ==
              if Introduced(old(history)) then Forward(ReqRefresh(id, FromWire(ToWire(announced)))) else Refused
    {
      AddressesAfter(id, history);
      var ps := RememberPaths(announced);
      args := SelectorMsg(local, remote, None, None, None, ps);
      history := history + [Op.Refresh(announced)];
      assert history[..|history| - 1] == old(history);
    }
  }
}
