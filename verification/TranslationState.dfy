/** The translation state inside the daemon's script-driven selector, updated in place under its lock. */
module TranslationState {
  import opened Options
  import opened PathRecords
  import opened PathTranslation
  import Model = PathTranslation

  class State {
    var lpaths: map<Addr, map<Fingerprint, Table>>
    var ppaths: map<Table, Option<PanPath>>
    var next: Table

    function Contents(): Maps
      reads this
    {
      Maps(lpaths, ppaths, next)
    }

    constructor ()
      ensures Contents() == NEW && Consistent(Contents())
    {
      lpaths, ppaths, next := map[], map[], 0;
    }

    /** What the script returned may be any table at all, or no table. */
    method GetPanPath(lpath: Option<Table>) returns (p: Option<PanPath>)
      ensures p == if lpath.None? then None else Resolve(Contents(), lpath.value)
      ensures Consistent(Contents()) && p.Some? ==>
                exists raddr :: Lists(Contents(), raddr, p.value.fingerprint, lpath.value)
    {
      p := None;
      if lpath.Some? && lpath.value in ppaths {
        p := ppaths[lpath.value];
      }
      if Consistent(Contents()) && p.Some? {
        assert Listed(Contents(), lpath.value);
        ghost var raddr, fp :| Lists(Contents(), raddr, fp, lpath.value);
      }
    }

    method ClearAddr(raddr: Addr)
      modifies this`lpaths, this`ppaths
      ensures Contents() == Model.ClearAddr(old(Contents()), raddr)
    {
      var tables := Lookup(lpaths, raddr).GetOr(map[]);
      var todo := tables.Keys;
      ghost var done: set<Fingerprint> := {};
      while todo != {}
        invariant lpaths == old(lpaths) && todo + done == tables.Keys
        invariant ppaths == old(ppaths) + AllNil(TablesUnder(tables, done))
        decreases |todo|
      {
        var fp :| fp in todo;
        OneMoreNil(old(ppaths), tables, done, fp);
        ppaths := ppaths[tables[fp] := None];
        todo, done := todo - {fp}, done + {fp};
      }
      TablesUnderAll(tables);
      lpaths := lpaths[raddr := map[]];
    }

    method SetPaths(raddr: Addr, paths: seq<PanPath>) returns (tables: seq<Table>)
      requires raddr in lpaths
      modifies this
      ensures Contents() == Model.SetPaths(old(Contents()), raddr, paths)
      ensures |tables| == |paths| && forall i | 0 <= i < |tables| :: tables[i] == old(next) + i
    {
      tables := [];
      for i := 0 to |paths|
        invariant raddr in lpaths
        invariant Contents() == Model.SetPaths(old(Contents()), raddr, paths[..i])
        invariant next == old(next) + i
        invariant |tables| == i && forall j | 0 <= j < i :: tables[j] == old(next) + j
      {
        var lpath := next;
        next := next + 1;
        var known: map<Fingerprint, Table> := lpaths[raddr][paths[i].fingerprint := lpath];
        lpaths := lpaths[raddr := known];
        ppaths := ppaths[lpath := Some(paths[i])];
        tables := tables + [lpath];
        assert paths[..i + 1][..i] == paths[..i];
      }
      assert paths[..|paths|] == paths;
    }

    /** What Initialize and Refresh of the selector do before they call the script with `tables`: every
        table stands for the announced path at its place, and no table of this address handed out
        earlier stands for anything. */
    method ReplacePaths(remote: Addr, paths: seq<PanPath>) returns (tables: seq<Table>)
      modifies this
      ensures Contents() == Flush(old(Contents()), remote, paths)
      ensures |tables| == |paths| && forall i | 0 <= i < |paths| :: Resolve(Contents(), tables[i]) == Some(paths[i])
      ensures old(Consistent(Contents())) ==>
                forall fp, t | Lists(old(Contents()), remote, fp, t) :: Resolve(Contents(), t) == None
      ensures old(Consistent(Contents())) ==> (Consistent(Contents()) <==> DistinctFingerprints(paths))
    {
      ghost var before := Contents();
      ClearAddr(remote);
      ghost var cleared := Contents();
      tables := SetPaths(remote, paths);
      forall i | 0 <= i < |paths| ensures Resolve(Contents(), tables[i]) == Some(paths[i]) {
        SetPathsResolves(cleared, remote, paths, i);
      }
      if Consistent(before) {
        FlushConsistentExactly(before, remote, paths);
        forall fp, t | Lists(before, remote, fp, t) ensures Resolve(Contents(), t) == None {
          OwnFlushKills(before, FlushEvent(remote, paths), fp, t);
        }
      }
    }
  }
}
