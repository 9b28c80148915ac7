/** Client, daemon and registry together: for any selector that does not look at forwarding paths, the
    split selector answers as the selector itself would, session by session. */
module SplitSelector {
  import opened Options
  import opened PathRecords
  import opened SelectorProtocol
  import opened SelectorRegistry

  // ----- the split selector -----

  datatype System<!S> = System(clients: map<Id, Client>, registry: map<string, S>)

  datatype Event = Event(id: Id, op: Op)

  function ClientOf<S>(sys: System<S>, id: Id): Client {
    Lookup(sys.clients, id).GetOr(NEW_CLIENT)
  }

  /** A refused call ends the application; a closed client is not used again. */
  function SplitStep<S>(m: Machine<S>, sys: System<S>, e: Event): (System<S>, Output) {
    var (c, call) := Send(ClientOf(sys, e.id), e.id, e.op);
    var clients := Store(sys.clients, e.id, if e.op.Close? then None else Some(c));
    match call
    case None => (sys.(clients := clients), Accepted(true))
    case Some(procedureAndMsg) =>
      match Decode(procedureAndMsg.0, procedureAndMsg.1)
      case Forward(request) =>
        var (registry, output) := Handle(m, sys.registry, request);
        (System(clients, registry),
         if output.Chose? then Chose(Receive(c, if output.path.Some? then Some(output.path.value.fingerprint) else None))
         else output)
      case _ => (sys.(clients := sys.clients - {e.id}), Fatal)
  }

  // ----- the reference: one selector of its own for each open session -----

  datatype Direct<!S> = Direct(open: map<Id, S>, history: Histories)

  type Histories = map<Id, seq<Op>>

  function HistoryIn(histories: Histories, id: Id): seq<Op> {
    Lookup(histories, id).GetOr([])
  }

  /** What the applications have done, after one more operation; a closed selector has no history. */
  function Extend(histories: Histories, e: Event): Histories {
    Store(histories, e.id, if e.op.Close? then None else Some(HistoryIn(histories, e.id) + [e.op]))
  }

  function HistoryOf<S>(d: Direct<S>, id: Id): seq<Op> {
    HistoryIn(d.history, id)
  }

  function DirectStep<S>(m: Machine<S>, d: Direct<S>, e: Event): (Direct<S>, Output) {
    var s := Lookup(d.open, e.id).GetOr(m.create(e.id));
    var (t, output) := Apply(m, s, e.id, e.op);
    (Direct(Store(d.open, e.id, t), Extend(d.history, e)), output)
  }

  /** What the split selector answers when the selector itself answers `output`: the path object the
      application announced last under that fingerprint, or nothing if it was reported down since. */
  function Translated(output: Output, history: seq<Op>): Output {
    match output
    case Chose(Some(p)) => Chose(Latest(history, p.fingerprint))
    case _ => output
  }

  // ----- selectors that do not look at forwarding paths -----

  /** `same` relates states from which the selector behaves alike, if forwarding paths make no difference. */
  ghost predicate Blind<S(!new)>(m: Machine<S>, same: (S, S) -> bool) {
    BlindToSets(m, same) && BlindElsewhere(m, same)
  }

  ghost predicate BlindToSets<S(!new)>(m: Machine<S>, same: (S, S) -> bool) {
    && (forall s, t, id, ps, qs {:trigger m.initialize(s, id, ps), m.initialize(t, id, qs)} ::
          same(s, t) && SameSetButForwarding(ps, qs) ==> same(m.initialize(s, id, ps), m.initialize(t, id, qs)))
    && (forall s, t, ps, qs {:trigger m.refresh(s, ps), m.refresh(t, qs)} ::
          same(s, t) && SameSetButForwarding(ps, qs) ==> same(m.refresh(s, ps), m.refresh(t, qs)))
  }

  ghost predicate BlindElsewhere<S(!new)>(m: Machine<S>, same: (S, S) -> bool) {
    && (forall id :: same(m.create(id), m.create(id)))
    && (forall s, t, prefs {:trigger m.setPreferences(s, prefs), m.setPreferences(t, prefs)} :: same(s, t) ==>
          && same(m.setPreferences(s, prefs).0, m.setPreferences(t, prefs).0)
          && m.setPreferences(s, prefs).1 == m.setPreferences(t, prefs).1)
    && (forall s, t {:trigger m.path(s), m.path(t)} :: same(s, t) ==>
          && same(m.path(s).0, m.path(t).0)
          && FingerprintOf(m.path(s).1) == FingerprintOf(m.path(t).1))
    && (forall s, t, fp, pi {:trigger m.pathDown(s, fp, pi), m.pathDown(t, fp, pi)} ::
          same(s, t) ==> same(m.pathDown(s, fp, pi), m.pathDown(t, fp, pi)))
    && (forall s, t {:trigger m.close(s), m.close(t)} :: same(s, t) ==> m.close(s).1 == m.close(t).1)
  }

  function FingerprintOf(p: Option<PanPath>): Option<Fingerprint> {
    if p.Some? then Some(p.value.fingerprint) else None
  }

  // ----- refinement -----

  ghost predicate DistinctKeys(ids: set<Id>) {
    forall a, b | a in ids && b in ids && Key(a) == Key(b) :: a == b
  }

  /** The application initialises a selector before it does anything else with it. */
  predicate Proper(histories: Histories, e: Event) {
    e.op.Initialize? || Introduced(HistoryIn(histories, e.id))
  }

  /** The session is open on both sides or on neither, in states that behave alike, and the client is the
      one its history makes. */
  ghost predicate RelatedAt<S(!new)>(same: (S, S) -> bool, sys: System<S>, d: Direct<S>, id: Id) {
    var s, t := Lookup(d.open, id), Lookup(sys.registry, Key(id));
    && ClientOf(sys, id) == After(id, HistoryOf(d, id))
    && (s.Some? <==> t.Some?)
    && (s.Some? && t.Some? ==> same(s.value, t.value))
  }

  ghost predicate Related<S(!new)>(same: (S, S) -> bool, ids: set<Id>, sys: System<S>, d: Direct<S>) {
    forall id | id in ids :: RelatedAt(same, sys, d, id)
  }

  lemma SendExtendsHistory(id: Id, ops: seq<Op>, op: Op)
    ensures After(id, ops + [op]) == Send(After(id, ops), id, op).0
  {
    assert (ops + [op])[..|ops|] == ops;
  }

  /** The operation as it arrives in the daemon. */
  function Arrived(op: Op): Op {
    match op
    case Initialize(ps) => Initialize(FromWire(ToWire(ps)))
    case Refresh(ps) => Refresh(FromWire(ToWire(ps)))
    case _ => op
  }

  lemma RequestMeansArrived(id: Id, prefs: Option<Prefs>, op: Op)
    ensures var request := RequestFor(id, prefs, op); request.id == id && OpOf(request) == Arrived(op)
  {
  }

  /** What the split step comes to once the call has been decoded. */
  lemma SplitStepHandles<S>(m: Machine<S>, sys: System<S>, d: Direct<S>, e: Event)
    requires ClientOf(sys, e.id) == After(e.id, HistoryOf(d, e.id))
    requires Proper(d.history, e)
    ensures var (t, output) := SplitStep(m, sys, e);
            var history := HistoryOf(d, e.id) + [e.op];
            var (s, o) := Apply(m, Selector(m, sys.registry, e.id), e.id, Arrived(e.op));
            && t.registry == Store(sys.registry, Key(e.id), s)
            && t.clients == Store(sys.clients, e.id, if e.op.Close? then None else Some(After(e.id, history)))
            && output == Translated(o, history)
  {
    var ops := HistoryOf(d, e.id);
    RequestsArrive(e.id, ops, e.op);
    SendExtendsHistory(e.id, ops, e.op);
    RequestMeansArrived(e.id, LastPreferences(ops), e.op);
    var o := Apply(m, Selector(m, sys.registry, e.id), e.id, Arrived(e.op)).1;
    if o.Chose? {
      ClientReturnsLatest(e.id, ops + [e.op], FingerprintOf(o.path));
    }
  }

  predicate SameAnswer(p: Output, q: Output) {
    if p.Chose? then q.Chose? && FingerprintOf(q.path) == FingerprintOf(p.path) else q == p
  }

  lemma ApplyIsBlind<S(!new)>(m: Machine<S>, same: (S, S) -> bool, s: S, t: S, id: Id, op: Op)
    requires Blind(m, same) && same(s, t)
    ensures var (s1, p) := Apply(m, s, id, op);
            var (t1, q) := Apply(m, t, id, Arrived(op));
            && (s1.Some? <==> !op.Close?) && (t1.Some? <==> !op.Close?)
            && (!op.Close? ==> same(s1.value, t1.value))
            && SameAnswer(p, q)
  {
    match op
    case Initialize(ps) =>
      TravelLosesForwardingOnly(ps);
      assert same(m.initialize(s, id, ps), m.initialize(t, id, FromWire(ToWire(ps))));
    case Refresh(ps) =>
      TravelLosesForwardingOnly(ps);
      assert same(m.refresh(s, ps), m.refresh(t, FromWire(ToWire(ps))));
    case _ =>
  }

  lemma StepStores<S(!new)>(m: Machine<S>, same: (S, S) -> bool, sys: System<S>, d: Direct<S>, e: Event)
    requires Proper(d.history, e) && ClientOf(sys, e.id) == After(e.id, HistoryOf(d, e.id))
    requires var s := Apply(m, Lookup(d.open, e.id).GetOr(m.create(e.id)), e.id, e.op).0;
             var t := Apply(m, Selector(m, sys.registry, e.id), e.id, Arrived(e.op)).0;
             && (s.Some? <==> !e.op.Close?) && (t.Some? <==> !e.op.Close?)
             && (!e.op.Close? ==> same(s.value, t.value))
    ensures RelatedAt(same, SplitStep(m, sys, e).0, DirectStep(m, d, e).0, e.id)
  {
    SplitStepHandles(m, sys, d, e);
    var f, t := DirectStep(m, d, e).0, SplitStep(m, sys, e).0;
    var history := HistoryOf(d, e.id) + [e.op];
    assert Lookup(f.open, e.id) == Apply(m, Lookup(d.open, e.id).GetOr(m.create(e.id)), e.id, e.op).0;
    assert Lookup(t.registry, Key(e.id)) == Apply(m, Selector(m, sys.registry, e.id), e.id, Arrived(e.op)).0;
    assert HistoryOf(f, e.id) == if e.op.Close? then [] else history;
    assert ClientOf(t, e.id) == if e.op.Close? then NEW_CLIENT else After(e.id, history);
  }

  lemma StepAnswers<S(!new)>(m: Machine<S>, same: (S, S) -> bool, sys: System<S>, d: Direct<S>, e: Event)
    requires Blind(m, same) && Proper(d.history, e) && RelatedAt(same, sys, d, e.id)
    ensures SplitStep(m, sys, e).1 == Translated(DirectStep(m, d, e).1, HistoryOf(d, e.id) + [e.op])
    ensures RelatedAt(same, SplitStep(m, sys, e).0, DirectStep(m, d, e).0, e.id)
  {
    var s, t := Lookup(d.open, e.id).GetOr(m.create(e.id)), Selector(m, sys.registry, e.id);
    assert same(s, t);
    ApplyIsBlind(m, same, s, t, e.id, e.op);
    StepStores(m, same, sys, d, e);
    SplitStepHandles(m, sys, d, e);
    SameAnswerTranslates(Apply(m, s, e.id, e.op).1, Apply(m, t, e.id, Arrived(e.op)).1, HistoryOf(d, e.id) + [e.op]);
  }

  lemma SameAnswerTranslates(p: Output, q: Output, history: seq<Op>)
    requires SameAnswer(p, q)
    ensures Translated(p, history) == Translated(q, history)
  {
  }

  lemma StepLeavesOthers<S(!new)>(m: Machine<S>, same: (S, S) -> bool, sys: System<S>, d: Direct<S>, e: Event, other: Id)
    requires Proper(d.history, e) && ClientOf(sys, e.id) == After(e.id, HistoryOf(d, e.id))
    requires other != e.id && Key(other) != Key(e.id)
    requires RelatedAt(same, sys, d, other)
    ensures RelatedAt(same, SplitStep(m, sys, e).0, DirectStep(m, d, e).0, other)
  {
    SplitStepHandles(m, sys, d, e);
    var t, f := SplitStep(m, sys, e).0, DirectStep(m, d, e).0;
    assert Lookup(t.registry, Key(other)) == Lookup(sys.registry, Key(other));
    assert Lookup(t.clients, other) == Lookup(sys.clients, other);
    assert Lookup(f.open, other) == Lookup(d.open, other);
    assert Lookup(f.history, other) == Lookup(d.history, other);
  }

  lemma StepRefines<S(!new)>(m: Machine<S>, same: (S, S) -> bool, ids: set<Id>, sys: System<S>, d: Direct<S>, e: Event)
    requires Blind(m, same) && DistinctKeys(ids) && e.id in ids
    requires Related(same, ids, sys, d) && Proper(d.history, e)
    ensures Related(same, ids, SplitStep(m, sys, e).0, DirectStep(m, d, e).0)
    ensures SplitStep(m, sys, e).1 == Translated(DirectStep(m, d, e).1, HistoryOf(d, e.id) + [e.op])
  {
    StepAnswers(m, same, sys, d, e);
    forall id | id in ids ensures RelatedAt(same, SplitStep(m, sys, e).0, DirectStep(m, d, e).0, id) {
      if id != e.id {
        StepLeavesOthers(m, same, sys, d, e, id);
      }
    }
  }

  function SplitRun<S>(m: Machine<S>, sys: System<S>, es: seq<Event>): seq<Output>
    decreases |es|
  {
    if es == [] then []
    else var (t, o) := SplitStep(m, sys, es[0]); [o] + SplitRun(m, t, es[1..])
  }

  /** What the reference answers, put in the application's own path objects. */
  function DirectRun<S>(m: Machine<S>, d: Direct<S>, es: seq<Event>): seq<Output>
    decreases |es|
  {
    if es == [] then []
    else
      var (t, o) := DirectStep(m, d, es[0]);
      [Translated(o, HistoryOf(d, es[0].id) + [es[0].op])] + DirectRun(m, t, es[1..])
  }

  predicate AllProper(histories: Histories, es: seq<Event>)
    decreases |es|
  {
    es == [] || (Proper(histories, es[0]) && AllProper(Extend(histories, es[0]), es[1..]))
  }

  /** For every interleaving of the operations of any number of applications whose sessions have different
      keys, the split selector gives the answers of a selector of its own for each open session, with the
      application's own path objects in place of the daemon's. */
  lemma {:induction false} SplitRefinesDirect<S(!new)>(m: Machine<S>, same: (S, S) -> bool, ids: set<Id>,
                                                       sys: System<S>, d: Direct<S>, es: seq<Event>)
    requires Blind(m, same) && DistinctKeys(ids) && (forall e | e in es :: e.id in ids)
    requires Related(same, ids, sys, d) && AllProper(d.history, es)
    ensures SplitRun(m, sys, es) == DirectRun(m, d, es)
    decreases |es|
  {
    if es != [] {
      StepRefines(m, same, ids, sys, d, es[0]);
      SplitRefinesDirect(m, same, ids, SplitStep(m, sys, es[0]).0, DirectStep(m, d, es[0]).0, es[1..]);
    }
  }

  // ----- what the selectors get -----

  function SplitAfter<S>(m: Machine<S>, sys: System<S>, es: seq<Event>): System<S>
    decreases |es|
  {
    if es == [] then sys else SplitAfter(m, SplitStep(m, sys, es[0]).0, es[1..])
  }

  function DirectAfter<S>(m: Machine<S>, d: Direct<S>, es: seq<Event>): Direct<S>
    decreases |es|
  {
    if es == [] then d else DirectAfter(m, DirectStep(m, d, es[0]).0, es[1..])
  }

  function ExtendAll(histories: Histories, es: seq<Event>): Histories
    decreases |es|
  {
    if es == [] then histories else ExtendAll(Extend(histories, es[0]), es[1..])
  }

  lemma {:induction false} RunStaysRelated<S(!new)>(m: Machine<S>, same: (S, S) -> bool, ids: set<Id>,
                                                    sys: System<S>, d: Direct<S>, es: seq<Event>)
    requires Blind(m, same) && DistinctKeys(ids) && (forall e | e in es :: e.id in ids)
    requires Related(same, ids, sys, d) && AllProper(d.history, es)
    ensures Related(same, ids, SplitAfter(m, sys, es), DirectAfter(m, d, es))
    decreases |es|
  {
    if es != [] {
      StepRefines(m, same, ids, sys, d, es[0]);
      RunStaysRelated(m, same, ids, SplitStep(m, sys, es[0]).0, DirectStep(m, d, es[0]).0, es[1..]);
    }
  }

  /** What an operation but Close means to a selector. */
  function CallOf(id: Id, op: Op): Call {
    match op
    case Initialize(ps) => Initialized(id, ps)
    case SetPreferences(prefs) => Preferred(prefs)
    case GetPath => Asked
    case PathDown(fp, pi) => ToldDown(fp, pi)
    case Refresh(ps) => Refreshed(ps)
    case Close => Made(id)
  }

  /** What is done with a selector of its own: it is made, and gets the operations in order. */
  function Record(id: Id, ops: seq<Op>): seq<Call> {
    if ops == [] then [Made(id)] else Record(id, ops[..|ops| - 1]) + [CallOf(id, ops[|ops| - 1])]
  }

  ghost predicate Recorded(d: Direct<seq<Call>>) {
    forall id :: Lookup(d.open, id) == if id in d.history then Some(Record(id, d.history[id])) else None
  }

  lemma StepIsRecorded(d: Direct<seq<Call>>, e: Event)
    requires Recorded(d)
    ensures Recorded(DirectStep(Recorder(), d, e).0)
  {
    var t, ops := DirectStep(Recorder(), d, e).0, HistoryOf(d, e.id) + [e.op];
    assert ops[..|ops| - 1] == HistoryOf(d, e.id);
    assert Lookup(d.open, e.id) == if e.id in d.history then Some(Record(e.id, d.history[e.id])) else None;
    assert Lookup(d.open, e.id).GetOr([Made(e.id)]) == Record(e.id, HistoryOf(d, e.id));
    forall id ensures Lookup(t.open, id) == if id in t.history then Some(Record(id, t.history[id])) else None {
      if id != e.id {
        assert Lookup(t.open, id) == Lookup(d.open, id) && Lookup(t.history, id) == Lookup(d.history, id);
      }
    }
  }

  /** The reference does with each selector exactly what the application does with it, since it was opened. */
  lemma {:induction false} DirectGetsOperations(d: Direct<seq<Call>>, es: seq<Event>)
    requires Recorded(d)
    ensures Recorded(DirectAfter(Recorder(), d, es))
    ensures DirectAfter(Recorder(), d, es).history == ExtendAll(d.history, es)
    decreases |es|
  {
    if es != [] {
      StepIsRecorded(d, es[0]);
      DirectGetsOperations(DirectStep(Recorder(), d, es[0]).0, es[1..]);
    }
  }

  /** The calls differ in nothing but forwarding paths. */
  predicate SameCall(a: Call, b: Call) {
    match a
    case Initialized(id, ps) => b.Initialized? && b.id == id && SameSetButForwarding(ps, b.paths)
    case Refreshed(ps) => b.Refreshed? && SameSetButForwarding(ps, b.paths)
    case _ => a == b
  }

  predicate SameCalls(s: seq<Call>, t: seq<Call>) {
    |s| == |t| && forall i | 0 <= i < |s| :: SameCall(s[i], t[i])
  }

  lemma OneMoreCall(s: seq<Call>, t: seq<Call>, a: Call, b: Call)
    requires SameCalls(s, t) && SameCall(a, b)
    ensures SameCalls(s + [a], t + [b])
  {
  }

  lemma RecorderIsBlindToSets()
    ensures BlindToSets(Recorder(), SameCalls)
  {
    forall s, t, id, ps, qs | SameCalls(s, t) && SameSetButForwarding(ps, qs)
      ensures SameCalls(s + [Initialized(id, ps)], t + [Initialized(id, qs)])
    {
      OneMoreCall(s, t, Initialized(id, ps), Initialized(id, qs));
    }
    forall s, t, ps, qs | SameCalls(s, t) && SameSetButForwarding(ps, qs)
      ensures SameCalls(s + [Refreshed(ps)], t + [Refreshed(qs)])
    {
      OneMoreCall(s, t, Refreshed(ps), Refreshed(qs));
    }
  }

  lemma RecorderIsBlind()
    ensures Blind(Recorder(), SameCalls)
  {
    RecorderIsBlindToSets();
    forall s, t, a: Call | SameCalls(s, t) && !a.Initialized? && !a.Refreshed? ensures SameCalls(s + [a], t + [a]) {
      OneMoreCall(s, t, a, a);
    }
  }

  /** Through client, server and registry each selector gets exactly the operations of its session since that
      was opened, in order and complete but for forwarding paths. */
  lemma SplitGetsOperations(ids: set<Id>, es: seq<Event>, id: Id)
    requires DistinctKeys(ids) && (forall e | e in es :: e.id in ids) && AllProper(map[], es) && id in ids
    ensures var s := Lookup(SplitAfter(Recorder(), System(map[], map[]), es).registry, Key(id));
            var histories := ExtendAll(map[], es);
            && (s.Some? <==> id in histories)
            && (s.Some? ==> SameCalls(Record(id, histories[id]), s.value))
  {
    var sys: System<seq<Call>>, d: Direct<seq<Call>> := System(map[], map[]), Direct(map[], map[]);
    RecorderIsBlind();
    RunStaysRelated(Recorder(), SameCalls, ids, sys, d, es);
    DirectGetsOperations(d, es);
    assert RelatedAt(SameCalls, SplitAfter(Recorder(), sys, es), DirectAfter(Recorder(), d, es), id);
  }

  // ----- where the hypotheses are needed -----

  /** Preferences set before the first Initialize never reach the selector: the client keeps them for
      Initialize, and the registry does not hand them on. The selector itself would have had them. */
  lemma EarlyPreferencesAreDropped<S(!new)>(m: Machine<S>, id: Id, prefs: Option<Prefs>, ps: seq<PanPath>)
    ensures var es := [Event(id, SetPreferences(prefs)), Event(id, Initialize(ps))];
            var s1 := SplitStep(m, System(map[], map[]), es[0]).0;
            var d1 := DirectStep(m, Direct(map[], map[]), es[0]).0;
            && SplitStep(m, s1, es[1]).0.registry[Key(id)] == m.initialize(m.create(id), id, FromWire(ToWire(ps)))
            && DirectStep(m, d1, es[1]).0.open[id] == m.initialize(m.setPreferences(m.create(id), prefs).0, id, ps)
  {
    var s0: System<S>, d0: Direct<S> := System(map[], map[]), Direct(map[], map[]);
    var e0, e1 := Event(id, SetPreferences(prefs)), Event(id, Initialize(ps));
    var s1 := SplitStep(m, s0, e0).0;
    assert Send(NEW_CLIENT, id, e0.op) == (NEW_CLIENT.(preferences := prefs), None);
    assert s1.registry == map[] && ClientOf(s1, id) == NEW_CLIENT.(preferences := prefs);
    var call := Send(ClientOf(s1, id), id, e1.op).1;
    assert Decode(call.value.0, call.value.1) == Forward(ReqInitialize(prefs, id, FromWire(ToWire(ps))));
  }

  /** Two sessions between addresses as the network library prints them can have the same key, for the
      two texts are joined without a separator: port 80 and ISD 11 read like port 801 and ISD 1. */
  lemma KeysMayCollide()
    ensures var a := Id("1-ff00:0:110,10.0.0.1:80", "11-ff00:0:112,10.0.0.2:443");
            var b := Id("1-ff00:0:110,10.0.0.1:801", "1-ff00:0:112,10.0.0.2:443");
            a != b && Key(a) == Key(b)
  {
    var a := Id("1-ff00:0:110,10.0.0.1:80", "11-ff00:0:112,10.0.0.2:443");
    var b := Id("1-ff00:0:110,10.0.0.1:801", "1-ff00:0:112,10.0.0.2:443");
    assert |a.local| != |b.local|;
  }

  lemma ShiftedCollide(a: Id, b: Id)
    requires Shifted(a, b)
    ensures a != b && Key(a) == Key(b)
  {
    var w :| w != "" && a.local == b.local + w && b.remote == w + a.remote;
    assert b.local + (w + a.remote) == (b.local + w) + a.remote;
    assert |a.local| == |b.local| + |w|;
  }

  lemma CollidingShifted(a: Id, b: Id)
    requires a != b && Key(a) == Key(b) && |b.local| <= |a.local|
    ensures Shifted(a, b)
  {
    var n, key := |b.local|, Key(a);
    var w := a.local[n..];
    assert b.local == key[..n] == a.local[..n] && b.remote == key[n..];
    assert a.local == b.local + w;
    assert b.remote == w + a.remote;
  }

  /** Two different sessions have one key exactly when a piece of text moves from the end of the local
      address of one to the beginning of the remote address of the other. */
  lemma KeysCollideExactly(a: Id, b: Id)
    ensures a != b && Key(a) == Key(b) <==> Shifted(a, b) || Shifted(b, a)
  {
    if a != b && Key(a) == Key(b) {
      if |b.local| <= |a.local| {
        CollidingShifted(a, b);
      } else {
        CollidingShifted(b, a);
      }
    }
    if Shifted(a, b) {
      ShiftedCollide(a, b);
    }
    if Shifted(b, a) {
      ShiftedCollide(b, a);
    }
  }

  ghost predicate Shifted(a: Id, b: Id) {
    exists w :: w != "" && a.local == b.local + w && b.remote == w + a.remote
  }

  /** If the selector is blind to forwarding paths, the run is answered as selectors of its own for each
      session would answer it. */
  ghost predicate RefinedOn<S(!new)>(m: Machine<S>, same: (S, S) -> bool, es: seq<Event>) {
    Blind(m, same) ==> SplitRun(m, System(map[], map[]), es) == DirectRun(m, Direct(map[], map[]), es)
  }

  /** The same, for a proper run of these sessions. */
  ghost predicate Refines<S(!new)>(m: Machine<S>, same: (S, S) -> bool, ids: set<Id>, es: seq<Event>) {
    (forall e | e in es :: e.id in ids) && AllProper(map[], es) ==> RefinedOn(m, same, es)
  }

  ghost predicate AlwaysRefines<S(!new)>(ids: set<Id>) {
    forall m: Machine<S>, same: (S, S) -> bool, es: seq<Event> :: Refines(m, same, ids, es)
  }

  /** A selector that tells its own session by a state it never changes. */
  function Witness<S(==)>(a: Id, s: S, t: S): Machine<S> {
    Machine((id: Id) => if id == a then s else t, (x: S, _: Id, _: seq<PanPath>) => x,
            (x: S, _: Option<Prefs>) => (x, x == s), (x: S) => (x, None),
            (x: S, _: Fingerprint, _: string) => x, (x: S, _: seq<PanPath>) => x, (x: S) => (x, true))
  }

  lemma WitnessIsBlind<S(!new)>(a: Id, s: S, t: S)
    ensures Blind(Witness(a, s, t), (x, y) => x == y)
  {
  }

  /** The last of three answers. */
  lemma ThirdSplitAnswer<S>(m: Machine<S>, sys: System<S>, e0: Event, e1: Event, e2: Event)
    ensures var es, s2 := [e0, e1, e2], SplitStep(m, SplitStep(m, sys, e0).0, e1).0;
            |SplitRun(m, sys, es)| == 3 && SplitRun(m, sys, es)[2] == SplitStep(m, s2, e2).1
  {
    assert [e0, e1, e2][1..] == [e1, e2] && [e1, e2][1..] == [e2] && [e2][1..] == [];
    var s1 := SplitStep(m, sys, e0).0;
    var s2 := SplitStep(m, s1, e1).0;
    assert SplitRun(m, s2, [e2]) == [SplitStep(m, s2, e2).1];
    assert SplitRun(m, s1, [e1, e2]) == [SplitStep(m, s1, e1).1] + SplitRun(m, s2, [e2]);
  }

  lemma ThirdDirectAnswer<S>(m: Machine<S>, d: Direct<S>, e0: Event, e1: Event, e2: Event)
    ensures var es, d2 := [e0, e1, e2], DirectStep(m, DirectStep(m, d, e0).0, e1).0;
            && |DirectRun(m, d, es)| == 3
            && DirectRun(m, d, es)[2] == Translated(DirectStep(m, d2, e2).1, HistoryOf(d2, e2.id) + [e2.op])
    ensures var d1 := DirectStep(m, d, e0).0;
            AllProper(d.history, [e0, e1, e2]) <==> Proper(d.history, e0) && Proper(d1.history, e1) && Proper(DirectStep(m, d1, e1).0.history, e2)
  {
    assert [e0, e1, e2][1..] == [e1, e2] && [e1, e2][1..] == [e2] && [e2][1..] == [];
    var d1 := DirectStep(m, d, e0).0;
    var d2 := DirectStep(m, d1, e1).0;
    assert DirectRun(m, d2, [e2]) == [Translated(DirectStep(m, d2, e2).1, HistoryOf(d2, e2.id) + [e2.op])];
    assert DirectRun(m, d1, [e1, e2]) ==
           [Translated(DirectStep(m, d1, e1).1, HistoryOf(d1, e1.id) + [e1.op])] + DirectRun(m, d2, [e2]);
    assert AllProper(d2.history, [e2]) <==> Proper(d2.history, e2);
    assert AllProper(d1.history, [e1, e2]) <==> Proper(d1.history, e1) && AllProper(d2.history, [e2]);
  }

  /** For two sessions with one key, whatever they are: the second gets the selector of the first. */
  lemma SharedKeyShows<S(!new)>(a: Id, b: Id, s: S, t: S) returns (es: seq<Event>)
    requires a != b && Key(a) == Key(b) && s != t
    ensures forall e | e in es :: e.id == a || e.id == b
    ensures var m := Witness(a, s, t);
            && AllProper(map[], es)
            && SplitRun(m, System(map[], map[]), es) != DirectRun(m, Direct(map[], map[]), es)
  {
    var m := Witness(a, s, t);
    var e0, e1, e2 := Event(a, Initialize([])), Event(b, Initialize([])), Event(b, SetPreferences(None));
    var s0: System<S>, d0: Direct<S> := System(map[], map[]), Direct(map[], map[]);
    var s1, d1 := SplitStep(m, s0, e0).0, DirectStep(m, d0, e0).0;
    var s2, d2 := SplitStep(m, s1, e1).0, DirectStep(m, d1, e1).0;
    es := [e0, e1, e2];
    ThirdSplitAnswer(m, s0, e0, e1, e2);
    ThirdDirectAnswer(m, d0, e0, e1, e2);
    SplitStepHandles(m, s0, d0, e0);
    assert Lookup(s1.registry, Key(a)) == Some(s) && ClientOf(s1, b) == NEW_CLIENT && HistoryOf(d1, b) == [];
    SplitStepHandles(m, s1, d1, e1);
    assert Lookup(s2.registry, Key(b)) == Some(s) && Lookup(d2.open, b) == Some(t);
    assert HistoryOf(d2, b) == [e1.op] && ClientOf(s2, b) == After(b, [e1.op]);
    assert Introduced([e1.op]);
    SplitStepHandles(m, s2, d2, e2);
    assert SplitStep(m, s2, e2).1 == Accepted(true) && DirectStep(m, d2, e2).1 == Accepted(false);
  }

  lemma NotAlwaysRefined<S(!new)>(m: Machine<S>, same: (S, S) -> bool, ids: set<Id>, es: seq<Event>)
    requires Blind(m, same) && (forall e | e in es :: e.id in ids) && AllProper(map[], es)
    requires SplitRun(m, System(map[], map[]), es) != DirectRun(m, Direct(map[], map[]), es)
    ensures !AlwaysRefines<S>(ids)
  {
    assert !Refines(m, same, ids, es);
  }

  lemma SharedKeyBreaks<S(!new)>(ids: set<Id>, a: Id, b: Id, s: S, t: S)
    requires a in ids && b in ids && a != b && Key(a) == Key(b) && s != t
    ensures !AlwaysRefines<S>(ids)
  {
    WitnessIsBlind(a, s, t);
    var es := SharedKeyShows(a, b, s, t);
    NotAlwaysRefined(Witness(a, s, t), (x, y) => x == y, ids, es);
  }

  lemma DistinctKeysRefine<S(!new)>(ids: set<Id>)
    requires DistinctKeys(ids)
    ensures AlwaysRefines<S>(ids)
  {
    var sys: System<S>, d: Direct<S> := System(map[], map[]), Direct(map[], map[]);
    forall m: Machine<S>, same: (S, S) -> bool, es: seq<Event> ensures Refines(m, same, ids, es) {
      if Blind(m, same) && (forall e | e in es :: e.id in ids) && AllProper(d.history, es) {
        SplitRefinesDirect(m, same, ids, sys, d, es);
      }
    }
  }

  /** The split selector refines every selector with more than one state, over every run, if and only if no
      two of the sessions share a key. */
  lemma RefinesExactlyWithDistinctKeys<S(!new)>(ids: set<Id>, s: S, t: S)
    requires s != t
    ensures AlwaysRefines<S>(ids) <==> DistinctKeys(ids)
  {
    if DistinctKeys(ids) {
      DistinctKeysRefine<S>(ids);
    } else {
      var a, b :| a in ids && b in ids && Key(a) == Key(b) && a != b;
      SharedKeyBreaks(ids, a, b, s, t);
    }
  }

  // ----- exactly which runs are refined -----

  /** A selector that refuses all preferences. */
  function Refuser<S>(s: S): Machine<S> {
    Machine((_: Id) => s, (x: S, _: Id, _: seq<PanPath>) => x, (x: S, _: Option<Prefs>) => (x, false),
            (x: S) => (x, None), (x: S, _: Fingerprint, _: string) => x, (x: S, _: seq<PanPath>) => x,
            (x: S) => (x, true))
  }

  lemma RefuserIsBlind<S(!new)>(s: S)
    ensures Blind(Refuser(s), (x, y) => x == y)
  {
  }

  /** Before Initialize the client accepts preferences without a selector, and ends on anything else. */
  lemma ImproperStepShows<S>(s: S, sys: System<S>, d: Direct<S>, e: Event)
    requires ClientOf(sys, e.id) == After(e.id, HistoryOf(d, e.id)) && !Proper(d.history, e)
    ensures SplitStep(Refuser(s), sys, e).1 != Translated(DirectStep(Refuser(s), d, e).1, HistoryOf(d, e.id) + [e.op])
  {
    UnintroducedIsRefused(e.id, HistoryOf(d, e.id), e.op);
  }

  lemma {:induction false} ImproperRunShows<S(!new)>(s: S, ids: set<Id>, sys: System<S>, d: Direct<S>, es: seq<Event>)
    requires DistinctKeys(ids) && (forall e | e in es :: e.id in ids)
    requires Related((x, y) => x == y, ids, sys, d) && !AllProper(d.history, es)
    ensures SplitRun(Refuser(s), sys, es) != DirectRun(Refuser(s), d, es)
    decreases |es|
  {
    var m, e := Refuser(s), es[0];
    var same := (x: S, y: S) => x == y;
    assert RelatedAt(same, sys, d, e.id);
    if Proper(d.history, e) {
      RefuserIsBlind(s);
      StepRefines(m, same, ids, sys, d, e);
      var sys1, d1 := SplitStep(m, sys, e).0, DirectStep(m, d, e).0;
      ImproperRunShows(s, ids, sys1, d1, es[1..]);
      assert SplitRun(m, sys, es)[1..] == SplitRun(m, sys1, es[1..]);
      assert DirectRun(m, d, es)[1..] == DirectRun(m, d1, es[1..]);
    } else {
      ImproperStepShows(s, sys, d, e);
      assert SplitRun(m, sys, es)[0] != DirectRun(m, d, es)[0];
    }
  }

  /** Whatever the selector, as long as it is blind to forwarding paths, this run is answered as selectors of
      their own would. */
  ghost predicate AllRefinedOn<S(!new)>(es: seq<Event>) {
    forall m: Machine<S>, same: (S, S) -> bool :: RefinedOn(m, same, es)
  }

  /** Among sessions with different keys, the split selector refines every blind selector on a run if and
      only if every application initialises its selector before it does anything else with it. */
  lemma RunRefinesExactlyIfProper<S(!new)>(ids: set<Id>, es: seq<Event>, s: S)
    requires DistinctKeys(ids) && forall e | e in es :: e.id in ids
    ensures AllRefinedOn<S>(es) <==> AllProper(map[], es)
  {
    var sys: System<S>, d: Direct<S> := System(map[], map[]), Direct(map[], map[]);
    if AllProper(map[], es) {
      forall m: Machine<S>, same: (S, S) -> bool ensures RefinedOn(m, same, es) {
        if Blind(m, same) {
          SplitRefinesDirect(m, same, ids, sys, d, es);
        }
      }
    } else {
      RefuserIsBlind(s);
      ImproperRunShows(s, ids, sys, d, es);
      assert !RefinedOn(Refuser(s), (x, y) => x == y, es);
    }
  }
}
