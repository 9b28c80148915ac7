/** The daemon's registry: one selector for each open session, found by the joined text of the two
    addresses. */
module SelectorRegistry {
  import opened Options
  import opened PathRecords
  import opened SelectorProtocol

  /** Any selector: how it is made for a session and what each operation does to its state. The
      boolean tells whether the operation returned without an error. */
  datatype Machine<!S> = Machine(
    create: Id -> S,
    initialize: (S, Id, seq<PanPath>) -> S,
    setPreferences: (S, Option<Prefs>) -> (S, bool),
    path: S -> (S, Option<PanPath>),
    pathDown: (S, Fingerprint, string) -> S,
    refresh: (S, seq<PanPath>) -> S,
    close: S -> (S, bool))

  datatype Output = Silent | Accepted(ok: bool) | Chose(path: Option<PanPath>) | Fatal

  function Key(id: Id): string {
    id.local + id.remote
  }

  function Selector<S>(m: Machine<S>, registry: map<string, S>, id: Id): S {
    Lookup(registry, Key(id)).GetOr(m.create(id))
  }

  /** One operation on one selector; closing leaves no state behind. */
  function Apply<S>(m: Machine<S>, s: S, id: Id, op: Op): (Option<S>, Output) {
    match op
    case Initialize(ps) => (Some(m.initialize(s, id, ps)), Silent)
    case SetPreferences(prefs) => var (t, ok) := m.setPreferences(s, prefs); (Some(t), Accepted(ok))
    case GetPath => var (t, p) := m.path(s); (Some(t), Chose(p))
    case PathDown(fp, pi) => (Some(m.pathDown(s, fp, pi)), Silent)
    case Refresh(ps) => (Some(m.refresh(s, ps)), Silent)
    case Close => (None, Accepted(m.close(s).1))
  }

  /** The operation a request asks for; the preferences that come with Initialize are not handed on. */
  function OpOf(request: Request): Op {
    match request
    case ReqInitialize(_, _, ps) => Initialize(ps)
    case ReqSetPreferences(prefs, _) => SetPreferences(prefs)
    case ReqPath(_) => GetPath
    case ReqPathDown(_, fp, pi) => PathDown(fp, pi)
    case ReqRefresh(_, ps) => Refresh(ps)
    case ReqClose(_) => Close
  }

  /** The entry a key has afterwards. */
  function Store<K, S>(m: map<K, S>, key: K, s: Option<S>): map<K, S> {
    if s.Some? then m[key := s.value] else m - {key}
  }

  function Handle<S>(m: Machine<S>, registry: map<string, S>, request: Request): (map<string, S>, Output) {
    var (t, output) := Apply(m, Selector(m, registry, request.id), request.id, OpOf(request));
    (Store(registry, Key(request.id), t), output)
  }

  /** What each request does to the selector of its key, and what is answered. */
  lemma HandleExactly<S>(m: Machine<S>, registry: map<string, S>, request: Request)
    ensures var s := if Key(request.id) in registry then registry[Key(request.id)] else m.create(request.id);
            Handle(m, registry, request) ==
            match request
            case ReqInitialize(_, id, ps) => (registry[Key(id) := m.initialize(s, id, ps)], Silent)
            case ReqSetPreferences(prefs, id) =>
              (registry[Key(id) := m.setPreferences(s, prefs).0], Accepted(m.setPreferences(s, prefs).1))
            case ReqPath(id) => (registry[Key(id) := m.path(s).0], Chose(m.path(s).1))
            case ReqPathDown(id, fp, pi) => (registry[Key(id) := m.pathDown(s, fp, pi)], Silent)
            case ReqRefresh(id, ps) => (registry[Key(id) := m.refresh(s, ps)], Silent)
            case ReqClose(id) => (registry - {Key(id)}, Accepted(m.close(s).1))
  {
  }

  // ----- a selector that records what is done with it -----

  /** What is done with a selector, in the selector's own words. */
  datatype Call =
    | Made(id: Id)
    | Initialized(id: Id, paths: seq<PanPath>)
    | Preferred(prefs: Option<Prefs>)
    | Asked
    | ToldDown(fp: Fingerprint, pathInterface: string)
    | Refreshed(paths: seq<PanPath>)

  function Recorder(): Machine<seq<Call>> {
    Machine((id: Id) => [Made(id)],
            (s: seq<Call>, id: Id, ps: seq<PanPath>) => s + [Initialized(id, ps)],
            (s: seq<Call>, prefs: Option<Prefs>) => (s + [Preferred(prefs)], true),
            (s: seq<Call>) => (s + [Asked], None),
            (s: seq<Call>, fp: Fingerprint, pi: string) => s + [ToldDown(fp, pi)],
            (s: seq<Call>, ps: seq<PanPath>) => s + [Refreshed(ps)],
            (s: seq<Call>) => (s, true))
  }

  function CallFor(request: Request): Call
    requires !request.ReqClose?
  {
    match request
    case ReqInitialize(_, id, ps) => Initialized(id, ps)
    case ReqSetPreferences(prefs, _) => Preferred(prefs)
    case ReqPath(_) => Asked
    case ReqPathDown(_, fp, pi) => ToldDown(fp, pi)
    case ReqRefresh(_, ps) => Refreshed(ps)
  }

  /** The requests of a key since it was last closed, told from the requests alone; making the selector for
      the first of them comes before. */
  function Since(requests: seq<Request>, key: string): Option<seq<Call>> {
    if requests == [] then None
    else
      var request, past := requests[|requests| - 1], Since(requests[..|requests| - 1], key);
      if Key(request.id) != key then past
      else if request.ReqClose? then None
      else Some(past.GetOr([Made(request.id)]) + [CallFor(request)])
  }

  lemma {:induction false} HandleAllTail<S>(m: Machine<S>, registry: map<string, S>, requests: seq<Request>)
    requires requests != []
    ensures var n := |requests| - 1;
            HandleAll(m, registry, requests) == Handle(m, HandleAll(m, registry, requests[..n]), requests[n]).0
    decreases |requests|
  {
    var n := |requests| - 1;
    if n > 0 {
      HandleAllTail(m, Handle(m, registry, requests[0]).0, requests[1..]);
      assert requests[..n][1..] == requests[1..][..n - 1];
    } else {
      assert requests[..n] == [] && requests[1..] == [];
    }
  }

  /** After any run, the selector of a key has had done with it exactly what was requested since the key was
      last closed, in order; and there is none if nothing was. */
  lemma {:induction false} SelectorGetsItsRequests(requests: seq<Request>, key: string)
    ensures Lookup(HandleAll(Recorder(), map[], requests), key) == Since(requests, key)
  {
    if requests != [] {
      var before, request := requests[..|requests| - 1], requests[|requests| - 1];
      SelectorGetsItsRequests(before, key);
      HandleAllTail(Recorder(), map[], requests);
      HandleExactly(Recorder(), HandleAll(Recorder(), map[], before), request);
    }
  }

  /** A request leaves the selectors of sessions with another key alone; closing a session closes every
      session with the same key. */
  lemma HandleIsolates<S>(m: Machine<S>, registry: map<string, S>, request: Request, other: Id)
    ensures Key(other) != Key(request.id) ==>
              Lookup(Handle(m, registry, request).0, Key(other)) == Lookup(registry, Key(other))
    ensures Key(other) == Key(request.id) ==>
              (Key(other) in Handle(m, registry, request).0 <==> !request.ReqClose?)
  {
  }

  // ----- how often the factory runs -----

  /** The sessions the factory is asked for in looking up a selector. */
  function Makes<S>(registry: map<string, S>, id: Id): seq<Id> {
    if Key(id) in registry then [] else [id]
  }

  function HandleAll<S>(m: Machine<S>, registry: map<string, S>, requests: seq<Request>): map<string, S>
    decreases |requests|
  {
    if requests == [] then registry else HandleAll(m, Handle(m, registry, requests[0]).0, requests[1..])
  }

  /** The sessions the factory is asked for in a run, in order. */
  function MadeInAll<S>(m: Machine<S>, registry: map<string, S>, requests: seq<Request>): seq<Id>
    decreases |requests|
  {
    if requests == [] then []
    else Makes(registry, requests[0].id) + MadeInAll(m, Handle(m, registry, requests[0]).0, requests[1..])
  }

  function WithKey(ids: seq<Id>, key: string): nat {
    if ids == [] then 0 else (if Key(ids[0]) == key then 1 else 0) + WithKey(ids[1..], key)
  }

  function Closes(requests: seq<Request>, key: string): nat {
    if requests == [] then 0
    else (if requests[0].ReqClose? && Key(requests[0].id) == key then 1 else 0) + Closes(requests[1..], key)
  }

  function Open<S>(registry: map<string, S>, key: string): nat {
    if key in registry then 1 else 0
  }

  /** Over every run, each selector of a key that was there or was made is closed or is still there: so
      between two closings of a key the factory runs at most once for it. */
  lemma {:induction false} FactoryRunsOncePerOpening<S>(m: Machine<S>, registry: map<string, S>, requests: seq<Request>, key: string)
    ensures Open(registry, key) + WithKey(MadeInAll(m, registry, requests), key) ==
            Closes(requests, key) + Open(HandleAll(m, registry, requests), key)
    decreases |requests|
  {
    if requests != [] {
      var id, next := requests[0].id, Handle(m, registry, requests[0]).0;
      FactoryRunsOncePerOpening(m, next, requests[1..], key);
      HandleIsolates(m, registry, requests[0], id);
      assert Key(id) != key ==> Lookup(next, key) == Lookup(registry, key);
      assert Makes(registry, id) + MadeInAll(m, next, requests[1..]) ==
             if Key(id) in registry then MadeInAll(m, next, requests[1..]) else [id] + MadeInAll(m, next, requests[1..]);
    }
  }

  class Registry<S(!new)> {
    const machine: Machine<S>
    var selectors: map<string, S>
    /** The sessions the factory was asked for, in order. */
    ghost var made: seq<Id>

    constructor (machine: Machine<S>)
      ensures this.machine == machine && selectors == map[] && made == []
    {
      this.machine := machine;
      selectors := map[];
      made := [];
    }

    /** Asks the factory for a selector. */
    method Create(id: Id) returns (s: S)
      modifies this`made
      ensures s == machine.create(id) && made == old(made) + [id]
    {
      s := machine.create(id);
      made := made + [id];
    }

    /** Makes the selector of the session if there is none. */
    method GetSelector(id: Id) returns (s: S)
      modifies this`selectors, this`made
      ensures s == Selector(machine, old(selectors), id)
      ensures selectors == old(selectors)[Key(id) := s]
      ensures made == old(made) + Makes(old(selectors), id)
    {
      if Key(id) in selectors {
        s := selectors[Key(id)];
        assert selectors == selectors[Key(id) := s];
      } else {
        s := Create(id);
        selectors := selectors[Key(id) := s];
      }
    }

    /** What is done depends on the kind of the request; a key without a selector gets one first. */
    method Serve(request: Request) returns (output: Output)
      modifies this`selectors, this`made
      ensures (selectors, output) == Handle(machine, old(selectors), request)
      ensures made == old(made) + Makes(old(selectors), request.id)
      ensures var key, was := Key(request.id), old(selectors);
              var s := if key in was then was[key] else machine.create(request.id);
              match request
              case ReqInitialize(_, id, ps) => selectors == was[key := machine.initialize(s, id, ps)] && output == Silent
              case ReqSetPreferences(prefs, _) =>
                && selectors == was[key := machine.setPreferences(s, prefs).0]
                && output == Accepted(machine.setPreferences(s, prefs).1)
              case ReqPath(_) => selectors == was[key := machine.path(s).0] && output == Chose(machine.path(s).1)
              case ReqPathDown(_, fp, pi) => selectors == was[key := machine.pathDown(s, fp, pi)] && output == Silent
              case ReqRefresh(_, ps) => selectors == was[key := machine.refresh(s, ps)] && output == Silent
              case ReqClose(_) => selectors == was - {key} && output == Accepted(machine.close(s).1)
    {
      HandleExactly(machine, selectors, request);
      var key := Key(request.id);
      var s := GetSelector(request.id);
      var (t, o) := Apply(machine, s, request.id, OpOf(request));
      output := o;
      if t.Some? {
        selectors := selectors[key := t.value];
        assert selectors == old(selectors)[key := t.value];
      } else {
        selectors := selectors - {key};
        assert selectors == old(selectors) - {key};
      }
    }
  }
}
