/**
 * The `twig_methods` allow-list (lib/twig/module_ex.rb). Calling
 * `twig_methods(:a, :b)` on a host class gives it a drop class,
 * `<Class>::TwigDropClass`, whose instances wrap one host object and answer
 * exactly the listed names, each by calling the host method of the same
 * name. Methods written into the drop class by hand widen that surface.
 * The class synthesis is modelled as a table per host class saying which
 * names the drop answers and how.
 */
module DropMethods {
  import opened Wrappers
  import opened Values

  /** Name of the drop class made for a host class. */
  const DropClassSuffix: string := "::TwigDropClass"

  /** How a drop class answers one name. */
  datatype Impl =
    | Forward                                 // defined by `twig_methods`: call the host's method of that name
    | Extension(body: HostObject -> Value)    // written into the drop class by hand; it sees the wrapped object

  /** Method table of each drop class, by the name of its host class. */
  type Tables = map<string, map<string, Impl>>

  /** A drop: an instance of a drop class wrapping one host object. */
  datatype TwigDrop = TwigDrop(dropClass: string, host: HostObject)

  /** What asking a drop for a name gives. */
  datatype Answer =
    | Answered(value: Value)    // the drop has the method and it returned a value
    | Unanswered              // the drop has no such method; a template renders it as nothing
    | HostError(name: string)   // the drop forwards a name the host object does not define

  /** A table with every allowed name defined to forward, replacing what was there under that name. */
  function WithForwards(table: map<string, Impl>, allowed: seq<string>): (r: map<string, Impl>)
  {
    map n | n in table.Keys + (set k | k in allowed) :: if n in allowed then Forward else table[n]
  }

  /** What `twig_methods` leaves in the table: the allowed names forward, every other entry stays. */
  lemma WithForwardsEntries(table: map<string, Impl>, allowed: seq<string>)
    ensures WithForwards(table, allowed).Keys == table.Keys + (set k | k in allowed)
    ensures forall n | n in allowed :: WithForwards(table, allowed)[n].Forward?
    ensures forall n | n in table && n !in allowed :: WithForwards(table, allowed)[n] == table[n]
  {
  }

  /** The drop class for a host class, if `twig_methods` has run for it. */
  function ToTwig(tables: Tables, obj: HostObject): (r: Option<TwigDrop>)
    ensures r.Some? <==> obj.cls in tables
    ensures r.Some? ==> r.value.host == obj && r.value.dropClass == obj.cls + DropClassSuffix
  {
    if obj.cls in tables then Some(TwigDrop(obj.cls + DropClassSuffix, obj)) else None
  }

  /** Ask the drop of a host object for `name`. */
  function Lookup(tables: Tables, obj: HostObject, name: string): (r: Answer)
    requires obj.cls in tables
  {
    var table := tables[obj.cls];
    if name !in table then Unanswered
    else match table[name]
      case Forward => if name in obj.methods then Answered(obj.methods[name]) else HostError(name)
      case Extension(body) => Answered(body(obj))
  }

  /** Whether the drop responds to `name`. */
  predicate RespondsTo(tables: Tables, obj: HostObject, name: string)
    requires obj.cls in tables
  {
    name in tables[obj.cls]
  }

  /** No name outside the table is ever answered; the allow-list and the drop class's own methods are all it holds. */
  lemma AnsweredOnlyListed(tables: Tables, obj: HostObject, name: string)
    requires obj.cls in tables
    ensures Lookup(tables, obj, name).Unanswered? <==> !RespondsTo(tables, obj, name)
    ensures Lookup(tables, obj, name).Answered? ==> RespondsTo(tables, obj, name)
  {
  }

  /** An allowed name answers with exactly what the host method of that name returns. */
  lemma ForwardIsHostValue(tables: Tables, obj: HostObject, name: string)
    requires obj.cls in tables && name in tables[obj.cls] && tables[obj.cls][name].Forward?
    ensures name in obj.methods ==> Lookup(tables, obj, name) == Answered(obj.methods[name])
    ensures name !in obj.methods ==> Lookup(tables, obj, name) == HostError(name)
  {
  }

  /**
   * Two host objects of one class that agree on every forwarded name look
   * the same through the drop, whatever their other methods return; only a
   * hand-written drop method can look further into the host object.
   */
  lemma Noninterference(tables: Tables, o1: HostObject, o2: HostObject, name: string)
    requires o1.cls == o2.cls && o1.cls in tables
    requires forall n | n in tables[o1.cls] && tables[o1.cls][n].Forward? ::
      (n in o1.methods <==> n in o2.methods) && (n in o1.methods ==> o1.methods[n] == o2.methods[n])
    requires name in tables[o1.cls] ==> tables[o1.cls][name].Forward?
    ensures Lookup(tables, o1, name) == Lookup(tables, o2, name)
  {
  }

  /** Follow a dotted path such as `a.chainedB.allowedB`: each step asks the drop of the value reached so far. */
  function Resolve(tables: Tables, v: Value, path: seq<string>): (r: Answer)
    decreases |path|
  {
    if path == [] then Answered(v)
    else if v.Host? && v.obj.cls in tables then
      match Lookup(tables, v.obj, path[0])
      case Answered(w) => Resolve(tables, w, path[1..])
      case other => other
    else Unanswered
  }

  /**
   * A path is answered only by going through each object's own drop: the
   * first name is one that object's drop answers, and the rest of the path
   * is resolved from that answer.
   */
  lemma ResolveStep(tables: Tables, v: Value, path: seq<string>)
    requires path != [] && Resolve(tables, v, path).Answered?
    ensures v.Host? && v.obj.cls in tables && RespondsTo(tables, v.obj, path[0])
    ensures Lookup(tables, v.obj, path[0]).Answered?
    ensures Resolve(tables, Lookup(tables, v.obj, path[0]).value, path[1..]) == Resolve(tables, v, path)
  {
  }

  /** Resolving `p + q` is resolving `p`, then `q` from where `p` ended. */
  lemma {:induction false} ResolveAppend(tables: Tables, v: Value, p: seq<string>, q: seq<string>)
    ensures Resolve(tables, v, p + q) ==
      if Resolve(tables, v, p).Answered? then Resolve(tables, Resolve(tables, v, p).value, q)
      else if p == [] then Resolve(tables, v, q)
      else Resolve(tables, v, p)
    decreases |p|
  {
    if p == [] {
      assert p + q == q;
    } else {
      assert (p + q)[0] == p[0] && (p + q)[1..] == p[1..] + q;
      if v.Host? && v.obj.cls in tables && Lookup(tables, v.obj, p[0]).Answered? {
        ResolveAppend(tables, Lookup(tables, v.obj, p[0]).value, p[1..], q);
      }
    }
  }

  lemma WithForwardsNone(table: map<string, Impl>, allowed: seq<string>)
    requires allowed == []
    ensures WithForwards(table, allowed) == table
  {
  }

  lemma WithForwardsStep(table: map<string, Impl>, allowed: seq<string>, i: nat)
    requires i < |allowed|
    ensures WithForwards(table, allowed[..i + 1]) == WithForwards(table, allowed[..i])[allowed[i] := Forward]
  {
    assert forall k :: k in allowed[..i + 1] <==> k in allowed[..i] || k == allowed[i];
  }

  lemma Override(t: Tables, k: string, a: map<string, Impl>, b: map<string, Impl>)
    ensures t[k := a][k := b] == t[k := b]
  {
  }

  /** The drop classes made so far, each host class's method table. */
  class DropRegistry {
    var tables: Tables

    constructor()
      ensures tables == map[]
    {
      tables := map[];
    }

    /**
     * `twig_methods(*allowed)` on host class `cls`: open its drop class
     * (create it, or reopen it keeping what it has), then define each
     * allowed name to forward to the host object.
     */
    method TwigMethods(cls: string, allowed: seq<string>)
      modifies this
      ensures var start := if cls in old(tables) then old(tables)[cls] else map[];
        tables == old(tables)[cls := WithForwards(start, allowed)]
    {
      var start := if cls in tables then tables[cls] else map[];
      tables := tables[cls := start];
      WithForwardsNone(start, allowed[..0]);
      var i := 0;
      while i < |allowed|
        invariant 0 <= i <= |allowed|
        invariant tables == old(tables)[cls := WithForwards(start, allowed[..i])]
      {
        WithForwardsStep(start, allowed, i);
        tables := tables[cls := tables[cls][allowed[i] := Forward]];
        Override(old(tables), cls, WithForwards(start, allowed[..i]), WithForwards(start, allowed[..i + 1]));
        i := i + 1;
      }
      assert allowed[..i] == allowed;
    }

    /**
     * A method written by hand into `cls::TwigDropClass`. It joins the drop's
     * surface only when the drop class already exists; otherwise nothing
     * changes and `ok` is false.
     */
    method DefineExtension(cls: string, name: string, body: HostObject -> Value) returns (ok: bool)
      modifies this
      ensures ok <==> cls in old(tables)
      ensures tables == if ok then old(tables)[cls := old(tables)[cls][name := Extension(body)]] else old(tables)
    {
      ok := cls in tables;
      if ok {
        tables := tables[cls := tables[cls][name := Extension(body)]];
      }
    }
  }

  // ---------------------------------------------------------------------
  // The three chained classes of the engine's unit test
  // ---------------------------------------------------------------------

  /** `TestClassC::TwigDropClass#another_allowedC`. */
  function AnotherAllowedC(o: HostObject): Value {
    Str("another_allowedC")
  }

  /** The tables after the test's three `twig_methods` calls and its one hand-written drop method. */
  function TestTables(): Tables {
    map[
      "TestClassA" := map["allowedA" := Forward, "chainedB" := Forward],
      "TestClassB" := map["allowedB" := Forward, "chainedC" := Forward],
      "TestClassC" := map["allowedC" := Forward, "another_allowedC" := Extension(AnotherAllowedC)]]
  }

  function TestC(): HostObject {
    HostObject("TestClassC", 3, map["allowedC" := Str("allowedC")])
  }

  function TestB(): HostObject {
    HostObject("TestClassB", 2, map["allowedB" := Str("allowedB"), "chainedC" := Host(TestC())])
  }

  function TestA(): HostObject {
    HostObject("TestClassA", 1, map[
      "allowedA" := Str("allowedA"), "restrictedA" := Str("restrictedA"), "chainedB" := Host(TestB())])
  }

  lemma ForwardsOfTwo(x: string, y: string)
    ensures WithForwards(map[], [x, y]) == map[x := Forward, y := Forward]
  {
    assert forall k :: k in [x, y] <==> k == x || k == y;
  }

  lemma ForwardsOfOne(x: string)
    ensures WithForwards(map[], [x]) == map[x := Forward]
  {
    assert forall k :: k in [x] <==> k == x;
  }

  /** The registry the test's class definitions build. */
  method BuildTestRegistry() returns (reg: DropRegistry, ok: bool)
    ensures ok && reg.tables == TestTables()
  {
    var a, b, c := "TestClassA", "TestClassB", "TestClassC";
    assert a != b && a != c && b != c by {
      assert a[9] != b[9] && a[9] != c[9] && b[9] != c[9];
    }
    ForwardsOfTwo("allowedA", "chainedB");
    ForwardsOfTwo("allowedB", "chainedC");
    ForwardsOfOne("allowedC");
    reg := new DropRegistry();
    reg.TwigMethods("TestClassA", ["allowedA", "chainedB"]);
    reg.TwigMethods("TestClassB", ["allowedB", "chainedC"]);
    reg.TwigMethods("TestClassC", ["allowedC"]);
    ok := reg.DefineExtension("TestClassC", "another_allowedC", AnotherAllowedC);
  }

  /** `{{ a.allowedA }}` renders `allowedA`. */
  lemma TestAllowedA()
    ensures Resolve(TestTables(), Host(TestA()), ["allowedA"]) == Answered(Str("allowedA"))
  {
  }

  /** `{{ a.chainedB.allowedB }}` renders `allowedB`. */
  lemma TestChainedB()
    ensures Resolve(TestTables(), Host(TestA()), ["chainedB", "allowedB"]) == Answered(Str("allowedB"))
  {
  }

  /** `{{ a.chainedB.chainedC.allowedC }}` renders `allowedC`. */
  lemma TestChainedC()
    ensures Resolve(TestTables(), Host(TestA()), ["chainedB", "chainedC", "allowedC"]) == Answered(Str("allowedC"))
  {
  }

  /** `{{ a.chainedB.chainedC.another_allowedC }}`: the hand-written drop method answers. */
  lemma TestAnotherAllowedC()
    ensures Resolve(TestTables(), Host(TestA()), ["chainedB", "chainedC", "another_allowedC"])
      == Answered(Str("another_allowedC"))
  {
  }

  /** `{{ a.restricted }}` and `{{ a.unknown }}` render nothing, and so does `restrictedA`, which the host does define. */
  lemma TestRestricted()
    ensures Resolve(TestTables(), Host(TestA()), ["restricted"]) == Unanswered
    ensures Resolve(TestTables(), Host(TestA()), ["unknown"]) == Unanswered
    ensures Resolve(TestTables(), Host(TestA()), ["restrictedA"]) == Unanswered
  {
  }

  /** Each drop responds to its allow-list and to its hand-written methods, and to nothing else. */
  lemma TestRespondsTo()
    ensures var t := TestTables();
      && RespondsTo(t, TestA(), "allowedA") && RespondsTo(t, TestA(), "chainedB")
      && RespondsTo(t, TestB(), "allowedB") && RespondsTo(t, TestB(), "chainedC")
      && RespondsTo(t, TestC(), "allowedC") && RespondsTo(t, TestC(), "another_allowedC")
      && !RespondsTo(t, TestA(), "restricted")
  {
  }
}
