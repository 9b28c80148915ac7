/** The helper functions on nested tables, and the call statistics built on them. A table is an object with
    an identity of its own; what it holds, through all the tables in it, is a finite tree. */
module CallStatistics {
  import opened Options

  datatype Value = Leaf(number: int) | Table(entries: map<string, Value>)

  /** The number found by following the keys from a value, if they lead to one. */
  function LeafAt(v: Option<Value>, at: seq<string>): Option<int>
    decreases |at|
  {
    match v
    case None => None
    case Some(Leaf(x)) => if at == [] then Some(x) else None
    case Some(Table(m)) => if at == [] then None else LeafAt(Lookup(m, at[0]), at[1..])
  }

  function Diff(a: Value, b: Option<Value>): Option<Value> {
    match a
    case Leaf(_) => if b == Some(a) then None else Some(a)
    case Table(m) =>
      if b.Some? && b.value.Table? then
        var n := b.value.entries;
        Some(Table(map k | k in m && Diff(m[k], Lookup(n, k)).Some? :: Diff(m[k], Lookup(n, k)).value))
      else Some(a)
  }

  /** The difference holds a number of the first table, at its place, exactly when the second table does
      not hold the same number at the same place; and it holds nothing else. */
  lemma {:induction false} DiffKeepsExactly(a: Value, b: Option<Value>, at: seq<string>)
    ensures LeafAt(Diff(a, b), at) ==
            if LeafAt(b, at) == LeafAt(Some(a), at) then None else LeafAt(Some(a), at)
    decreases |at|
  {
    if a.Table? && b.Some? && b.value.Table? && at != [] && at[0] in a.entries {
      DiffKeepsExactly(a.entries[at[0]], Lookup(b.value.entries, at[0]), at[1..]);
    }
  }

  // ----- tables in memory -----

  /** What a table holds under a key: a number, or a reference to a table. */
  datatype Cell = Num(number: int) | Sub(table: Tab)

  class Tab {
    var entries: map<string, Cell>
    /** The table and all tables in it. */
    ghost var Repr: set<Tab>

    /** No table is inside itself; one table may be found in several places. */
    ghost predicate Valid()
      reads this, Repr
      decreases Repr
    {
      && this in Repr
      && forall k | k in entries && entries[k].Sub? ::
           var t := entries[k].table;
           t in Repr && t.Repr <= Repr && this !in t.Repr && t.Valid()
    }

    /** The tree the table holds. */
    ghost function Content(): Value
      requires Valid()
      reads this, Repr
      decreases Repr
    {
      Table(map k | k in entries ::
        if entries[k].Num? then Leaf(entries[k].number) else entries[k].table.Content())
    }

    constructor ()
      ensures Valid() && Repr == {this} && entries == map[]
    {
      entries, Repr := map[], {this};
    }

    /** What is in a table does not change with the table itself. */
    twostate lemma KeepsInner(j: string)
      requires old(Valid()) && j in old(entries)
      requires forall t | t in old(Repr) && t != this :: unchanged(t)
      ensures Sound(old(entries)[j]) && Footprint(old(entries)[j]) == old(Footprint(entries[j]))
      ensures Held(old(entries)[j]) == old(Held(entries[j]))
    {
    }

    method Put(k: string, v: Cell)
      requires Valid() && Sound(v) && this !in Footprint(v)
      modifies this
      ensures Valid() && Repr == old(Repr) + old(Footprint(v))
      ensures entries == old(entries)[k := v]
      ensures Content() == Table(old(Content()).entries[k := old(Held(v))])
    {
      ghost var held, value := Content().entries, Held(v);
      entries := entries[k := v];
      Repr := Repr + Footprint(v);
      assert Held(v) == value;
      forall j | j in old(entries) ensures Sound(old(entries)[j]) && Held(old(entries)[j]) == held[j] {
        KeepsInner(j);
      }
      assert Content().entries == held[k := value];
    }
  }

  ghost predicate Sound(c: Cell)
    reads if c.Sub? then {c.table} + c.table.Repr else {}
  {
    c.Sub? ==> c.table.Valid()
  }

  ghost function Footprint(c: Cell): set<Tab>
    reads if c.Sub? then {c.table} else {}
  {
    if c.Sub? then c.table.Repr else {}
  }

  /** The value a cell stands for. */
  ghost function Held(c: Cell): Value
    requires Sound(c)
    reads if c.Sub? then {c.table} + c.table.Repr else {}
  {
    if c.Num? then Leaf(c.number) else c.table.Content()
  }

  /** The part of a tree under some of its keys. */
  ghost function Under(v: Value, keys: set<string>): Value
    requires v.Table?
  {
    Table(map k | k in v.entries && k in keys :: v.entries[k])
  }

  lemma UnderOneMore(v: Value, keys: set<string>, k: string)
    requires v.Table?
    ensures Under(v, keys + {k}) ==
            if k in v.entries then Table(Under(v, keys).entries[k := v.entries[k]]) else Under(v, keys)
  {
  }

  lemma UnderAll(v: Value, keys: set<string>)
    requires v.Table? && v.entries.Keys <= keys
    ensures Under(v, keys) == v
  {
  }

  /** What is in a table is sound, smaller, and holds its part of the tree. */
  lemma EntryOf(t: Tab, k: string)
    requires t.Valid() && k in t.entries
    ensures Sound(t.entries[k]) && Footprint(t.entries[k]) < t.Repr
    ensures k in t.Content().entries && Held(t.entries[k]) == t.Content().entries[k]
  {
  }

  lemma EntryIfAny(t: Tab, k: string)
    requires t.Valid()
    ensures SoundIfAny(Lookup(t.entries, k))
    ensures HeldIfAny(Lookup(t.entries, k)) == Lookup(t.Content().entries, k)
  {
    if k in t.entries {
      EntryOf(t, k);
    }
  }

  /** A deep copy holds the same tree, in tables that did not exist before. */
  method Copy(thing: Cell) returns (r: Cell)
    requires Sound(thing)
    ensures Sound(r) && fresh(Footprint(r)) && Held(r) == Held(thing)
    ensures r.Sub? <==> thing.Sub?
    decreases Footprint(thing), 1
  {
    if thing.Num? {
      return thing;
    }
    var table := thing.table;
    var copied := new Tab();
    assert PartlyCopied(table, copied, {});
    var todo, done := table.entries.Keys, {};
    while todo != {}
      invariant todo + done == table.entries.Keys
      invariant PartlyCopied(table, copied, done) && fresh(copied.Repr)
      decreases |todo|
    {
      var k :| k in todo;
      CopyEntry(table, k, copied, done);
      todo, done := todo - {k}, done + {k};
    }
    UnderAll(table.Content(), done);
    r := Sub(copied);
  }

  /** `copied` holds the part of the table under the keys done. */
  ghost predicate PartlyCopied(table: Tab, copied: Tab, done: set<string>)
    reads table, table.Repr, copied, copied.Repr
  {
    && table.Valid() && copied.Valid() && copied.Repr !! table.Repr
    && copied.Content() == Under(table.Content(), done)
  }

  /** One round of the loop. */
  method CopyEntry(table: Tab, k: string, copied: Tab, ghost done: set<string>)
    requires PartlyCopied(table, copied, done) && k in table.entries
    modifies copied
    ensures PartlyCopied(table, copied, done + {k})
    ensures fresh(copied.Repr - old(copied.Repr))
    decreases table.Repr, 0
  {
    EntryOf(table, k);
    ghost var whole := table.Content();
    UnderOneMore(whole, done, k);
    var c := Copy(table.entries[k]);
    assert Held(c) == whole.entries[k] && copied.Content() == Under(whole, done);
    copied.Put(k, c);
    assert copied.Content() == Under(whole, done + {k});
    assert table.Content() == whole;
  }

  ghost predicate SoundIfAny(c: Option<Cell>)
    reads if c.Some? && c.value.Sub? then {c.value.table} + c.value.table.Repr else {}
  {
    c.Some? ==> Sound(c.value)
  }

  ghost function HeldIfAny(c: Option<Cell>): Option<Value>
    requires SoundIfAny(c)
    reads if c.Some? && c.value.Sub? then {c.value.table} + c.value.table.Repr else {}
  {
    if c.Some? then Some(Held(c.value)) else None
  }

  /** The difference, in tables that did not exist before. */
  method ComputeDiff(thing1: Cell, thing2: Option<Cell>) returns (r: Option<Cell>)
    requires Sound(thing1) && SoundIfAny(thing2)
    ensures SoundIfAny(r) && HeldIfAny(r) == Diff(Held(thing1), HeldIfAny(thing2))
    ensures r.Some? ==> fresh(Footprint(r.value))
    decreases Footprint(thing1), 2
  {
    if thing1.Num? {
      LeavesDiffer(thing1, thing2);
      return if Some(thing1) == thing2 then None else Some(thing1);
    }
    if thing2.None? || thing2.value.Num? {
      var c := Copy(thing1);
      return Some(c);
    }
    var thing := DiffTables(thing1.table, thing2.value.table);
    WholeDiff(thing1.table, thing2.value.table, thing);
    r := Some(Sub(thing));
  }

  lemma LeavesDiffer(thing1: Cell, thing2: Option<Cell>)
    requires thing1.Num? && SoundIfAny(thing2)
    ensures Diff(Held(thing1), HeldIfAny(thing2)) == if Some(thing1) == thing2 then None else Some(Held(thing1))
  {
    if thing2.Some? && thing2.value.Sub? {
      assert Held(thing2.value).Table?;
    }
  }

  lemma TablesDiffer(a: Value, b: Value)
    requires a.Table? && b.Table?
    ensures var d := Diff(a, Some(b));
            && d.Some? && d.value.Table? && d.value.entries.Keys <= a.entries.Keys
            && forall k | k in a.entries :: Lookup(d.value.entries, k) == Diff(a.entries[k], Lookup(b.entries, k))
  {
  }

  /** `thing` holds the difference of the two tables under the keys done. */
  ghost predicate PartlyDiffed(m: Tab, n: Tab, thing: Tab, done: set<string>)
    reads m, m.Repr, n, n.Repr, thing, thing.Repr
  {
    && m.Valid() && n.Valid() && thing.Valid() && thing.Repr !! m.Repr && thing.Repr !! n.Repr
    && thing.Content() == Under(DiffOfTables(m.Content(), n.Content()), done)
  }

  function DiffOfTables(a: Value, b: Value): (d: Value)
    requires a.Table? && b.Table?
    ensures d.Table?
  {
    Diff(a, Some(b)).value
  }

  lemma WholeDiff(m: Tab, n: Tab, thing: Tab)
    requires PartlyDiffed(m, n, thing, m.entries.Keys)
    ensures Some(thing.Content()) == Diff(m.Content(), Some(n.Content()))
  {
    TablesDiffer(m.Content(), n.Content());
    assert m.Content().entries.Keys == m.entries.Keys;
    UnderAll(DiffOfTables(m.Content(), n.Content()), m.entries.Keys);
  }

  /** The loop over the entries of the first table. */
  method DiffTables(m: Tab, n: Tab) returns (thing: Tab)
    requires m.Valid() && n.Valid()
    ensures PartlyDiffed(m, n, thing, m.entries.Keys) && fresh(thing.Repr)
    decreases m.Repr, 1
  {
    thing := new Tab();
    assert PartlyDiffed(m, n, thing, {});
    var todo, done := m.entries.Keys, {};
    while todo != {}
      invariant todo + done == m.entries.Keys
      invariant PartlyDiffed(m, n, thing, done) && fresh(thing.Repr)
      decreases |todo|
    {
      var k :| k in todo;
      DiffRound(m, n, k, thing, done);
      todo, done := todo - {k}, done + {k};
    }
  }

  method DiffRound(m: Tab, n: Tab, k: string, thing: Tab, ghost done: set<string>)
    requires PartlyDiffed(m, n, thing, done) && k in m.entries
    modifies thing
    ensures PartlyDiffed(m, n, thing, done + {k})
    ensures fresh(thing.Repr - old(thing.Repr))
    decreases m.Repr, 0, 1
  {
    ghost var a, b := m.Content(), n.Content();
    ghost var whole := DiffOfTables(a, b);
    TablesDiffer(a, b);
    UnderOneMore(whole, done, k);
    DiffEntry(m, n, k, thing);
    assert thing.Content() == Under(whole, done + {k});
    assert m.Content() == a && n.Content() == b;
  }

  /** One round of the loop: a difference that is nil makes no entry. */
  method DiffEntry(m: Tab, n: Tab, k: string, thing: Tab)
    requires m.Valid() && n.Valid() && k in m.entries
    requires thing.Valid() && thing.Repr !! m.Repr && thing.Repr !! n.Repr
    modifies thing
    ensures thing.Valid() && fresh(thing.Repr - old(thing.Repr))
    ensures k in old(m.Content()).entries
    ensures var d := Diff(old(m.Content()).entries[k], Lookup(old(n.Content()).entries, k));
            thing.Content() == if d.Some? then Table(old(thing.Content()).entries[k := d.value]) else old(thing.Content())
    decreases m.Repr, 0, 0
  {
    EntryOf(m, k);
    EntryIfAny(n, k);
    ghost var d := Diff(m.Content().entries[k], Lookup(n.Content().entries, k));
    ghost var part := thing.Content();
    var v := ComputeDiff(m.entries[k], Lookup(n.entries, k));
    assert HeldIfAny(v) == d && thing.Content() == part;
    if v.Some? {
      thing.Put(k, v.value);
    }
  }

  // ----- counting calls -----

  datatype Counters = Counters(cur: map<string, nat>, last: map<string, nat>)

  datatype Event = OnCall(name: string) | OnReport

  function Read(m: map<string, nat>, k: string): nat {
    Lookup(m, k).GetOr(0)
  }

  /** What a report prints: the calls since the report before it, for every name called since. */
  function Report(c: Counters): map<string, int> {
    map k | k in c.cur && Lookup(c.last, k) != Some(c.cur[k]) :: c.cur[k] - Read(c.last, k)
  }

  function Step(c: Counters, e: Event): Counters {
    match e
    case OnCall(name) => c.(cur := c.cur[name := Read(c.cur, name) + 1])
    case OnReport => c.(last := c.cur)
  }

  function Run(es: seq<Event>): Counters {
    if es == [] then Counters(map[], map[]) else Step(Run(es[..|es| - 1]), es[|es| - 1])
  }

  /** The sum of what the reports of a run print for a name. */
  function Reported(es: seq<Event>, k: string): int {
    if es == [] then 0
    else
      var before := es[..|es| - 1];
      Reported(before, k) + if es[|es| - 1].OnReport? then Lookup(Report(Run(before)), k).GetOr(0) else 0
  }

  function Calls(es: seq<Event>, k: string): nat {
    if es == [] then 0 else Calls(es[..|es| - 1], k) + if es[|es| - 1] == OnCall(k) then 1 else 0
  }

  lemma {:induction false} CountersCount(es: seq<Event>, k: string)
    ensures Read(Run(es).cur, k) == Calls(es, k)
    ensures Reported(es, k) == Read(Run(es).last, k)
    ensures k in Run(es).last ==> k in Run(es).cur
  {
    if es != [] {
      CountersCount(es[..|es| - 1], k);
    }
  }

  /** The calls of a name since the last report. */
  function CallsSince(es: seq<Event>, k: string): nat {
    if es == [] || es[|es| - 1].OnReport? then 0
    else CallsSince(es[..|es| - 1], k) + if es[|es| - 1] == OnCall(k) then 1 else 0
  }

  lemma {:induction false} CountersSince(es: seq<Event>, k: string)
    ensures Read(Run(es).cur, k) == Read(Run(es).last, k) + CallsSince(es, k)
    ensures k in Run(es).last ==> k in Run(es).cur
    ensures k in Run(es).cur && k !in Run(es).last ==> CallsSince(es, k) > 0
  {
    if es != [] {
      CountersSince(es[..|es| - 1], k);
    }
  }

  /** A report names exactly what was called since the last one, and how often. */
  lemma ReportExactly(es: seq<Event>, k: string)
    ensures Lookup(Report(Run(es)), k) == if CallsSince(es, k) > 0 then Some(CallsSince(es, k)) else None
  {
    CountersSince(es, k);
  }

  /** The reports of any run add up: up to each report every call is printed once. */
  lemma ReportsTelescope(es: seq<Event>, k: string)
    ensures Reported(es + [OnReport], k) == Calls(es, k)
  {
    CountersCount(es + [OnReport], k);
    CountersCount(es, k);
    assert (es + [OnReport])[..|es|] == es;
  }

  /** A table of numbers that are not negative. */
  predicate Flat(t: Tab)
    reads t
  {
    forall k | k in t.entries :: t.entries[k].Num? && t.entries[k].number >= 0
  }

  function Numbers(t: Tab): map<string, nat>
    requires Flat(t)
    reads t
  {
    map k | k in t.entries :: t.entries[k].number
  }

  /** Tables that hold the same tree hold the same numbers. */
  lemma SameContentSameNumbers(t: Tab, u: Tab)
    requires t.Valid() && u.Valid() && t.Content() == u.Content() && Flat(t)
    ensures Flat(u) && Numbers(u) == Numbers(t)
  {
    assert t.entries.Keys == t.Content().entries.Keys && u.entries.Keys == u.Content().entries.Keys;
    forall k | k in t.entries ensures u.entries[k] == t.entries[k] {
      assert Held(u.entries[k]) == Leaf(t.entries[k].number);
      EntryOf(u, k);
    }
  }

  class CallCounters {
    var cur: Tab
    var last: Tab

    ghost predicate Valid()
      reads this, cur, last, cur.Repr, last.Repr
    {
      && cur.Valid() && last.Valid() && cur.Repr !! last.Repr
      && Flat(cur) && Flat(last)
    }

    ghost function Contents(): Counters
      requires Valid()
      reads this, cur, last, cur.Repr, last.Repr
    {
      Counters(Numbers(cur), Numbers(last))
    }

    constructor ()
      ensures Valid() && fresh(cur) && fresh(last)
      ensures Contents() == Run([])
    {
      cur := new Tab();
      last := new Tab();
    }

    method Count(name: string)
      requires Valid()
      modifies cur
      ensures Valid() && Contents() == Step(old(Contents()), OnCall(name))
    {
      var n := if name in cur.entries then cur.entries[name].number else 0;
      cur.Put(name, Num(n + 1));
    }

    /** The calls since the last report. */
    method Deltas() returns (d: map<string, int>)
      requires Valid()
      ensures d == Report(Contents())
    {
      ghost var report := Report(Contents());
      d := map[];
      var todo := cur.entries.Keys;
      while todo != {}
        invariant todo <= cur.entries.Keys
        invariant d == map k | k in report && k !in todo :: report[k]
        decreases |todo|
      {
        var k :| k in todo;
        var v := cur.entries[k].number;
        var previous := Lookup(last.entries, k);
        assert Lookup(Numbers(last), k) == if previous.Some? then Some(previous.value.number) else None;
        assert k in report <==> previous != Some(Num(v));
        if previous != Some(Num(v)) {
          var delta: int := v - (if previous.Some? then previous.value.number else 0);
          assert report[k] == delta;
          d := d[k := delta];
        }
        todo := todo - {k};
      }
      assert d == report;
    }

    /** The counters are copied for the next report; the table they are counted in stays another one. */
    method DiffCallStats() returns (d: map<string, int>)
      requires Valid()
      modifies this`last
      ensures Valid() && fresh(last) && cur == old(cur)
      ensures d == Report(old(Contents())) && Contents() == Step(old(Contents()), OnReport)
    {
      d := Deltas();
      var copied := Copy(Sub(cur));
      SameContentSameNumbers(cur, copied.table);
      last := copied.table;
    }
  }
}
