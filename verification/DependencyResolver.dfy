/** The pass that finds which fields a unit instantiation needs: dependencies with a set of contexts
    are propagated along the dependency map until nothing changes. */
module DependencyResolver {
  import opened Sequences

  /** The bits of a context mask. */
  datatype Context = Application | Parsing | Serializing | SerializingUpdate

  datatype Dependency = Dependency(id: string, context: set<Context>)

  type DependencyMap = map<string, seq<Dependency>>

  const ALL_CONTEXTS: set<Context> := {Application, Parsing, Serializing, SerializingUpdate}

  function Lookup(m: DependencyMap, id: string): seq<Dependency> {
    if id in m then m[id] else []
  }

  // ---------------------------------------------------------------- the closure that is wanted

  /** One field in one context. */
  datatype Fact = Fact(id: string, context: Context)

  ghost function Facts(deps: seq<Dependency>): set<Fact> {
    set d, c | d in deps && c in d.context :: Fact(d.id, c)
  }

  /** What a field needed in context c makes necessary: everything if the application asks for it,
      else what is needed in the same context. */
  ghost predicate Implies(c: Context, edge: Dependency, f: Fact) {
    f.id == edge.id && f.context in edge.context && (c == Application || c == f.context)
  }

  ghost predicate ClosedUnder(m: DependencyMap, fs: set<Fact>) {
    forall f, edge, g :: f in fs && edge in Lookup(m, f.id) && Implies(f.context, edge, g) ==> g in fs
  }

  /** fs is the least set with the roots that is closed. */
  ghost predicate IsClosure(m: DependencyMap, roots: set<Fact>, fs: set<Fact>) {
    && roots <= fs
    && ClosedUnder(m, fs)
    && forall gs :: ClosedUnder(m, gs) && roots <= gs ==> fs <= gs
  }

  lemma ClosureUnique(m: DependencyMap, roots: set<Fact>, a: set<Fact>, b: set<Fact>)
    requires IsClosure(m, roots, a) && IsClosure(m, roots, b)
    ensures a == b
  {
    assert a <= b && b <= a;
  }

  // ---------------------------------------------------------------- one round

  /** What one dependency contributes through one edge. */
  function Passed(dep: Dependency, edge: Dependency): seq<Dependency> {
    if Application in dep.context then [edge]
    else if dep.context * edge.context != {} then [Dependency(edge.id, dep.context * edge.context)]
    else []
  }

  function PassedEach(dep: Dependency, edges: seq<Dependency>): seq<Dependency> {
    if edges == [] then [] else Passed(dep, edges[0]) + PassedEach(dep, edges[1..])
  }

  function Additions(m: DependencyMap, deps: seq<Dependency>): seq<Dependency> {
    if deps == [] then [] else PassedEach(deps[0], Lookup(m, deps[0].id)) + Additions(m, deps[1..])
  }

  /** Joins a dependency to the first entry with its id, or appends it. */
  function Merge(deps: seq<Dependency>, d: Dependency): seq<Dependency> {
    if deps == [] then [d]
    else if deps[0].id == d.id then [Dependency(d.id, deps[0].context + d.context)] + deps[1..]
    else [deps[0]] + Merge(deps[1..], d)
  }

  lemma PassedFacts(dep: Dependency, edge: Dependency, f: Fact)
    ensures f in Facts(Passed(dep, edge)) <==> exists c :: c in dep.context && Implies(c, edge, f)
  {
    var ps := Passed(dep, edge);
    if c :| c in dep.context && Implies(c, edge, f) {
      if Application in dep.context {
        assert edge in ps;
      } else {
        assert f.context in dep.context * edge.context;
        assert ps[0] in ps && f.context in ps[0].context;
      }
    }
    if f in Facts(ps) {
      if Application in dep.context {
        assert Implies(Application, edge, f);
      } else {
        assert Implies(f.context, edge, f);
      }
    }
  }

  lemma FactsConcat(a: seq<Dependency>, b: seq<Dependency>)
    ensures Facts(a + b) == Facts(a) + Facts(b)
  {
    forall d ensures d in a + b <==> d in a || d in b { }
  }

  lemma {:induction false} PassedEachFacts(dep: Dependency, edges: seq<Dependency>, f: Fact)
    ensures f in Facts(PassedEach(dep, edges))
       <==> exists edge, c :: edge in edges && c in dep.context && Implies(c, edge, f)
  {
    if edges != [] {
      PassedFacts(dep, edges[0], f);
      PassedEachFacts(dep, edges[1..], f);
      FactsConcat(Passed(dep, edges[0]), PassedEach(dep, edges[1..]));
      assert forall e :: e in edges <==> e == edges[0] || e in edges[1..];
    }
  }

  /** A round adds exactly the facts that follow from those at hand in one step. */
  lemma {:induction false} AdditionsFacts(m: DependencyMap, deps: seq<Dependency>, f: Fact)
    ensures f in Facts(Additions(m, deps))
       <==> exists g, edge :: g in Facts(deps) && edge in Lookup(m, g.id) && Implies(g.context, edge, f)
  {
    if deps != [] {
      var dep, rest := deps[0], deps[1..];
      PassedEachFacts(dep, Lookup(m, dep.id), f);
      AdditionsFacts(m, rest, f);
      FactsConcat(PassedEach(dep, Lookup(m, dep.id)), Additions(m, rest));
      assert deps == [dep] + rest;
      FactsConcat([dep], rest);
      assert forall c :: c in dep.context <==> Fact(dep.id, c) in Facts([dep]);
    }
  }

  lemma {:induction false} MergeFacts(deps: seq<Dependency>, d: Dependency)
    ensures Facts(Merge(deps, d)) == Facts(deps) + Facts([d])
  {
    if deps == [] {
      assert [] + [d] == [d];
    } else {
      var h, rest := deps[0], deps[1..];
      assert deps == [h] + rest;
      FactsConcat([h], rest);
      if h.id == d.id {
        var joined := Dependency(d.id, h.context + d.context);
        FactsConcat([joined], rest);
        assert Facts([joined]) == Facts([h]) + Facts([d]);
      } else {
        MergeFacts(rest, d);
        FactsConcat([h], Merge(rest, d));
      }
    }
  }

  // ---------------------------------------------------------------- termination

  ghost function Ids(deps: seq<Dependency>): set<string> {
    set d | d in deps :: d.id
  }

  /** Every id that can turn up: the ones asked for and the ones named by the map. */
  ghost function Universe(m: DependencyMap, deps: seq<Dependency>): set<string> {
    Ids(deps) + set id, e | id in m && e in m[id] :: e.id
  }

  lemma ContextSize(c: set<Context>)
    ensures |c| <= 4
  {
    forall x | x in c ensures x in ALL_CONTEXTS {
      match x
      case Application =>
      case Parsing =>
      case Serializing =>
      case SerializingUpdate =>
    }
    SubsetSize(c, ALL_CONTEXTS);
  }

  lemma {:induction false} SubsetSize<T>(a: set<T>, b: set<T>)
    requires a <= b
    ensures |a| <= |b| && (a != b ==> |a| < |b|)
  {
    assert b == a + (b - a);
  }

  /** How many contexts the entries could still gain. */
  ghost function Slack(deps: seq<Dependency>): nat {
    if deps == [] then 0 else (ContextSize(deps[0].context); 4 - |deps[0].context|) + Slack(deps[1..])
  }

  ghost function Measure(universe: set<string>, deps: seq<Dependency>): nat {
    5 * |universe - Ids(deps)| + Slack(deps)
  }

  lemma {:induction false} MergeIds(deps: seq<Dependency>, d: Dependency)
    ensures Ids(Merge(deps, d)) == Ids(deps) + {d.id}
    ensures d.id !in Ids(deps) ==> Merge(deps, d) == deps + [d]
  {
    if deps != [] {
      var h, rest := deps[0], deps[1..];
      assert deps == [h] + rest;
      IdsConcat([h], rest);
      assert Ids([h]) == {h.id};
      if h.id == d.id {
        IdsConcat([Dependency(d.id, h.context + d.context)], rest);
        assert h in deps;
      } else {
        MergeIds(rest, d);
        IdsConcat([h], Merge(rest, d));
      }
    }
  }

  lemma IdsConcat(a: seq<Dependency>, b: seq<Dependency>)
    ensures Ids(a + b) == Ids(a) + Ids(b)
  {
    forall d ensures d in a + b <==> d in a || d in b { }
  }

  lemma {:induction false} MergeSlack(deps: seq<Dependency>, d: Dependency)
    ensures d.id in Ids(deps) && Merge(deps, d) != deps ==> Slack(Merge(deps, d)) < Slack(deps)
    ensures d.id !in Ids(deps) ==> Slack(Merge(deps, d)) <= Slack(deps) + 4
  {
    if deps != [] {
      var h, rest := deps[0], deps[1..];
      assert deps == [h] + rest;
      IdsConcat([h], rest);
      if h.id == d.id {
        var joined := h.context + d.context;
        ContextSize(joined);
        SubsetSize(h.context, joined);
        assert h in deps;
      } else {
        assert Ids([h]) == {h.id};
        MergeSlack(rest, d);
      }
    }
  }

  lemma MergeMeasure(universe: set<string>, deps: seq<Dependency>, d: Dependency)
    requires Ids(deps) <= universe && d.id in universe
    ensures Ids(Merge(deps, d)) <= universe
    ensures Merge(deps, d) != deps ==> Measure(universe, Merge(deps, d)) < Measure(universe, deps)
  {
    MergeIds(deps, d);
    MergeSlack(deps, d);
    if d.id in Ids(deps) {
      assert Ids(Merge(deps, d)) == Ids(deps);
    } else {
      var more, less := universe - Ids(deps), universe - Ids(Merge(deps, d));
      assert less <= more && d.id in more && d.id !in less;
      SubsetSize(less, more);
    }
  }

  lemma {:induction false} PassedIds(dep: Dependency, edges: seq<Dependency>)
    ensures Ids(PassedEach(dep, edges)) <= Ids(edges)
  {
    if edges != [] {
      PassedIds(dep, edges[1..]);
      IdsConcat(Passed(dep, edges[0]), PassedEach(dep, edges[1..]));
      assert edges == [edges[0]] + edges[1..];
      IdsConcat([edges[0]], edges[1..]);
      assert Ids([edges[0]]) == {edges[0].id};
    }
  }

  lemma {:induction false} AdditionsIds(m: DependencyMap, roots: seq<Dependency>, deps: seq<Dependency>)
    ensures Ids(Additions(m, deps)) <= Universe(m, roots)
  {
    if deps != [] {
      var edges := Lookup(m, deps[0].id);
      PassedIds(deps[0], edges);
      AdditionsIds(m, roots, deps[1..]);
      IdsConcat(PassedEach(deps[0], edges), Additions(m, deps[1..]));
      assert Ids(edges) <= Universe(m, roots) by {
        forall e | e in edges ensures e.id in Universe(m, roots) { assert deps[0].id in m && e in m[deps[0].id]; }
      }
    }
  }

  // ---------------------------------------------------------------- the code

  /** Collects what the current dependencies pass on. */
  method Collect(m: DependencyMap, deps: seq<Dependency>) returns (toAdd: seq<Dependency>)
    ensures toAdd == Additions(m, deps)
  {
    toAdd := [];
    var i := 0;
    while i < |deps|
      invariant 0 <= i <= |deps|
      invariant toAdd + Additions(m, deps[i..]) == Additions(m, deps)
    {
      Advance(deps, i);
      var passed := CollectFrom(deps[i], Lookup(m, deps[i].id));
      Associative(toAdd, passed, Additions(m, deps[i + 1..]));
      toAdd := toAdd + passed;
      i := i + 1;
    }
  }

  method CollectFrom(dep: Dependency, edges: seq<Dependency>) returns (toAdd: seq<Dependency>)
    ensures toAdd == PassedEach(dep, edges)
  {
    toAdd := [];
    var k := 0;
    while k < |edges|
      invariant 0 <= k <= |edges|
      invariant toAdd + PassedEach(dep, edges[k..]) == PassedEach(dep, edges)
    {
      Advance(edges, k);
      Associative(toAdd, Passed(dep, edges[k]), PassedEach(dep, edges[k + 1..]));
      toAdd := CollectOne(dep, edges[k], toAdd);
      k := k + 1;
    }
  }

  method CollectOne(dep: Dependency, depdep: Dependency, added: seq<Dependency>) returns (toAdd: seq<Dependency>)
    ensures toAdd == added + Passed(dep, depdep)
  {
    toAdd := added;
    if Application in dep.context {
      toAdd := toAdd + [depdep];
    } else if dep.context * depdep.context != {} {
      toAdd := toAdd + [Dependency(depdep.id, dep.context * depdep.context)];
    }
  }

  /** Finds the first entry with the id and widens it, or appends the dependency. */
  method MergeInto(deps: seq<Dependency>, d: Dependency) returns (deps': seq<Dependency>, changed: bool)
    ensures deps' == Merge(deps, d)
    ensures changed <==> deps' != deps
  {
    var i := 0;
    while i < |deps|
      invariant 0 <= i <= |deps|
      invariant Merge(deps, d) == deps[..i] + Merge(deps[i..], d)
    {
      Advance(deps, i);
      if deps[i].id == d.id {
        var joined := Dependency(d.id, deps[i].context + d.context);
        Associative(deps[..i], [joined], deps[i + 1..]);
        Associative(deps[..i], [deps[i]], deps[i + 1..]);
        deps' := deps[..i] + [joined] + deps[i + 1..];
        changed := joined.context != deps[i].context;
        assert deps'[i] == joined;
        return;
      }
      Associative(deps[..i], [deps[i]], Merge(deps[i + 1..], d));
      i := i + 1;
    }
    deps' := deps + [d];
    changed := true;
  }

  function MergeAll(deps: seq<Dependency>, toAdd: seq<Dependency>): seq<Dependency> {
    if toAdd == [] then deps else Merge(MergeAll(deps, toAdd[..|toAdd| - 1]), toAdd[|toAdd| - 1])
  }

  lemma {:induction false} MergeAllFacts(deps: seq<Dependency>, toAdd: seq<Dependency>)
    ensures Facts(MergeAll(deps, toAdd)) == Facts(deps) + Facts(toAdd)
  {
    if toAdd != [] {
      var h, d := toAdd[..|toAdd| - 1], toAdd[|toAdd| - 1];
      MergeAllFacts(deps, h);
      MergeFacts(MergeAll(deps, h), d);
      Snoc(toAdd);
      FactsConcat(h, [d]);
    }
  }

  /** The entries keep their ids; new entries have new ids. */
  ghost predicate Extends(deps: seq<Dependency>, deps': seq<Dependency>) {
    && |deps| <= |deps'|
    && (forall i :: 0 <= i < |deps| ==> deps'[i].id == deps[i].id)
    && (forall i :: |deps| <= i < |deps'| ==> deps'[i].id !in Ids(deps))
  }

  lemma {:induction false} MergeAllExtends(deps: seq<Dependency>, toAdd: seq<Dependency>)
    ensures Extends(deps, MergeAll(deps, toAdd))
  {
    if toAdd != [] {
      var h, d := toAdd[..|toAdd| - 1], toAdd[|toAdd| - 1];
      MergeAllExtends(deps, h);
      MergeShape(MergeAll(deps, h), d);
      ExtendsIds(deps, MergeAll(deps, h));
    }
  }

  lemma ExtendsIds(deps: seq<Dependency>, deps': seq<Dependency>)
    requires Extends(deps, deps')
    ensures Ids(deps) <= Ids(deps')
  {
    forall d | d in deps ensures d.id in Ids(deps') {
      var i :| 0 <= i < |deps| && deps[i] == d;
      assert deps'[i] in deps';
    }
  }

  /** One iteration over the collected dependencies. */
  method MergeEach(ghost universe: set<string>, deps: seq<Dependency>, toAdd: seq<Dependency>)
    returns (deps': seq<Dependency>, changed: bool)
    requires Ids(deps) <= universe && Ids(toAdd) <= universe
    ensures deps' == MergeAll(deps, toAdd) && Ids(deps') <= universe
    ensures if changed then Measure(universe, deps') < Measure(universe, deps) else deps' == deps
  {
    deps', changed := deps, false;
    var i := 0;
    while i < |toAdd|
      invariant 0 <= i <= |toAdd|
      invariant deps' == MergeAll(deps, toAdd[..i]) && Ids(deps') <= universe
      invariant if changed then Measure(universe, deps') < Measure(universe, deps) else deps' == deps
    {
      var d := toAdd[i];
      assert d.id in Ids(toAdd);
      MergeMeasure(universe, deps', d);
      Advance(toAdd, i);
      assert toAdd[..i + 1][..i] == toAdd[..i];
      var grown;
      deps', grown := MergeInto(deps', d);
      changed := changed || grown;
      i := i + 1;
    }
    assert toAdd[..|toAdd|] == toAdd;
  }

  /** Merging keeps the ids in place and appends new ones only. */
  lemma {:induction false} MergeShape(deps: seq<Dependency>, d: Dependency)
    ensures var r := Merge(deps, d);
            && |deps| <= |r| <= |deps| + 1
            && (forall i :: 0 <= i < |deps| ==> r[i].id == deps[i].id)
            && (|r| > |deps| ==> r[|deps|] == d && d.id !in Ids(deps))
  {
    if deps != [] {
      MergeShape(deps[1..], d);
      assert deps == [deps[0]] + deps[1..];
    }
  }

  function Roots(lengthId: string, items: seq<string>): seq<Dependency> {
    [Dependency(lengthId, {Parsing})]
    + seq(|items|, i requires 0 <= i < |items| => Dependency(items[i], {Application}))
  }

  /** The dependencies contain the roots and nothing that a closed set with the roots could lack. */
  ghost predicate Derived(m: DependencyMap, roots: seq<Dependency>, deps: seq<Dependency>) {
    && Facts(roots) <= Facts(deps)
    && forall gs :: ClosedUnder(m, gs) && Facts(roots) <= gs ==> Facts(deps) <= gs
  }

  lemma DerivedStep(m: DependencyMap, roots: seq<Dependency>, deps: seq<Dependency>, deps': seq<Dependency>)
    requires Derived(m, roots, deps) && Facts(deps') == Facts(deps) + Facts(Additions(m, deps))
    ensures Derived(m, roots, deps')
    ensures deps' == deps ==> ClosedUnder(m, Facts(deps))
  {
    forall gs, f | ClosedUnder(m, gs) && Facts(roots) <= gs && f in Facts(Additions(m, deps)) ensures f in gs {
      AdditionsFacts(m, deps, f);
    }
    if deps' == deps {
      forall f, edge, g | f in Facts(deps) && edge in Lookup(m, f.id) && Implies(f.context, edge, g)
        ensures g in Facts(deps)
      {
        AdditionsFacts(m, deps, g);
      }
    }
  }

  /** The fixpoint iteration of the pass. roots are the length tracking id, needed for parsing, and the
      items of the instantiation, needed by the application; the length entry is dropped at the end. */
  method Resolve(m: DependencyMap, lengthId: string, items: seq<string>)
    returns (result: seq<Dependency>, ghost length: Dependency)
    ensures length.id == lengthId && IsClosure(m, Facts(Roots(lengthId, items)), Facts([length] + result))
    ensures forall f :: f in Facts([length] + result) <==> Needed(m, lengthId, items, f)
    ensures lengthId in items <==> HasId(result, lengthId)
    ensures AsRequested(lengthId, result)
  {
    var dependencies := [Dependency(lengthId, {Parsing})];
    for i := 0 to |items|
      invariant dependencies == Roots(lengthId, items[..i])
    {
      dependencies := dependencies + [Dependency(items[i], {Application})];
    }
    assert items[..|items|] == items;
    ghost var roots := dependencies;
    ghost var universe := Universe(m, roots);
    var changed := true;
    while changed
      invariant Ids(dependencies) <= universe
      invariant Derived(m, roots, dependencies) && Extends(roots, dependencies)
      invariant AsRequested(lengthId, dependencies[1..])
      invariant !changed ==> ClosedUnder(m, Facts(dependencies))
      decreases changed, Measure(universe, dependencies)
    {
      ghost var before := dependencies;
      var toAdd := Collect(m, dependencies);
      AdditionsIds(m, roots, dependencies);
      dependencies, changed := MergeEach(universe, dependencies, toAdd);
      MergeAllFacts(before, toAdd);
      MergeAllExtends(before, toAdd);
      MergeAllRequested(before, toAdd, lengthId);
      ExtendsTransitive(roots, before, dependencies);
      DerivedStep(m, roots, before, dependencies);
    }
    LengthDropped(lengthId, items, dependencies);
    ClosureIsNeeded(m, lengthId, items, Facts(dependencies));
    length, result := dependencies[0], dependencies[1..];
    Cons(dependencies);
  }

  lemma ExtendsTransitive(a: seq<Dependency>, b: seq<Dependency>, c: seq<Dependency>)
    requires Extends(a, b) && Extends(b, c)
    ensures Extends(a, c)
  {
    ExtendsIds(a, b);
  }

  ghost predicate HasId(deps: seq<Dependency>, id: string) { exists d :: d in deps && d.id == id }

  /** Entries with the id are as the application asked for them: what is merged later goes to the first. */
  ghost predicate AsRequested(id: string, deps: seq<Dependency>) {
    forall d :: d in deps && d.id == id ==> d.context == {Application}
  }

  lemma {:induction false} MergeOther(deps: seq<Dependency>, d: Dependency, id: string)
    requires d.id != id && AsRequested(id, deps)
    ensures AsRequested(id, Merge(deps, d))
  {
    if deps != [] {
      Cons(deps);
      MergeOther(deps[1..], d, id);
    }
  }

  lemma MergeRequested(deps: seq<Dependency>, d: Dependency)
    requires deps != [] && AsRequested(deps[0].id, deps[1..])
    ensures var r := Merge(deps, d);
            r != [] && r[0].id == deps[0].id && AsRequested(deps[0].id, r[1..])
  {
    if d.id != deps[0].id {
      MergeOther(deps[1..], d, deps[0].id);
      assert Merge(deps, d)[1..] == Merge(deps[1..], d);
    } else {
      assert Merge(deps, d)[1..] == deps[1..];
    }
  }

  lemma {:induction false} MergeAllRequested(deps: seq<Dependency>, toAdd: seq<Dependency>, id: string)
    requires deps != [] && deps[0].id == id && AsRequested(id, deps[1..])
    ensures var r := MergeAll(deps, toAdd);
            r != [] && r[0].id == id && AsRequested(id, r[1..])
  {
    if toAdd != [] {
      var h := toAdd[..|toAdd| - 1];
      MergeAllRequested(deps, h, id);
      MergeRequested(MergeAll(deps, h), toAdd[|toAdd| - 1]);
    }
  }

  /** Dropping the first entry drops the length tracking id, exactly if the application did not ask for it. */
  lemma LengthDropped(lengthId: string, items: seq<string>, deps: seq<Dependency>)
    requires Extends(Roots(lengthId, items), deps)
    ensures deps != [] && deps[0].id == lengthId
    ensures lengthId in items <==> HasId(deps[1..], lengthId)
  {
    var roots := Roots(lengthId, items);
    assert roots[0] in roots;
    forall i | 1 <= i < |deps|
      ensures deps[i].id == lengthId <==> i < |roots| && items[i - 1] == lengthId
    {
      if i < |roots| { assert deps[i].id == roots[i].id == items[i - 1]; }
    }
    if lengthId in items {
      var k :| 0 <= k < |items| && items[k] == lengthId;
      assert deps[k + 1].id == lengthId && deps[1..][k] == deps[k + 1];
    }
  }

  /** So what the pass reports is the closure without the contexts of the length tracking id; if the
      application asked for that id, its request alone is reported, and the other contexts are lost. */
  lemma ReportedFacts(m: DependencyMap, roots: set<Fact>, length: Dependency, result: seq<Dependency>, fs: set<Fact>)
    requires IsClosure(m, roots, Facts([length] + result)) && IsClosure(m, roots, fs)
    requires AsRequested(length.id, result)
    ensures Facts(result) == (set f | f in fs && f.id != length.id)
                             + (if HasId(result, length.id) then {Fact(length.id, Application)} else {})
  {
    ClosureUnique(m, roots, Facts([length] + result), fs);
    FactsConcat([length], result);
    if HasId(result, length.id) {
      var d :| d in result && d.id == length.id;
      assert Fact(d.id, Application) in Facts(result);
    }
  }

  // ---------------------------------------------------------------- chains of needs

  /** g is needed because f is: an edge of f's field names it, in a context of the edge that is f's own, or in
      any context of the edge if the application asks for f. */
  ghost predicate Leads(m: DependencyMap, f: Fact, g: Fact) {
    f.id in m && exists edge :: edge in m[f.id] && edge.id == g.id && g.context in edge.context
                                && (f.context == Application || f.context == g.context)
  }

  ghost predicate Chain(m: DependencyMap, path: seq<Fact>) {
    forall i :: 0 <= i < |path| - 1 ==> LeadsAt(m, path, i)
  }

  ghost predicate LeadsAt(m: DependencyMap, path: seq<Fact>, i: nat)
    requires i + 1 < |path|
  {
    Leads(m, path[i], path[i + 1])
  }

  /** A chain of edges leads to the fact from the length tracking id in parsing, or from an item in the
      application. */
  ghost predicate Needed(m: DependencyMap, lengthId: string, items: seq<string>, f: Fact) {
    exists path :: NeedsBy(m, lengthId, items, path, f)
  }

  ghost predicate NeedsBy(m: DependencyMap, lengthId: string, items: seq<string>, path: seq<Fact>, f: Fact) {
    && path != [] && path[|path| - 1] == f && Chain(m, path)
    && (path[0] == Fact(lengthId, Parsing) || (path[0].context == Application && path[0].id in items))
  }

  /** The pass starts from the length tracking id in parsing and the items in the application. */
  lemma RootFacts(lengthId: string, items: seq<string>, f: Fact)
    ensures f in Facts(Roots(lengthId, items))
       <==> f == Fact(lengthId, Parsing) || (f.context == Application && f.id in items)
  {
    var roots := Roots(lengthId, items);
    assert roots[0] == Dependency(lengthId, {Parsing});
    if f.context == Application && f.id in items {
      var k :| 0 <= k < |items| && items[k] == f.id;
      assert roots[k + 1] == Dependency(items[k], {Application}) && roots[k + 1] in roots;
    }
    if f in Facts(roots) {
      var d :| d in roots && f.context in d.context && d.id == f.id;
      var k :| 0 <= k < |roots| && roots[k] == d;
      assert k > 0 ==> d == Dependency(items[k - 1], {Application});
    }
  }

  lemma LeadsImplies(m: DependencyMap, f: Fact, g: Fact)
    ensures Leads(m, f, g) <==> exists edge :: edge in Lookup(m, f.id) && Implies(f.context, edge, g)
  {
    if Leads(m, f, g) {
      var edge :| edge in m[f.id] && edge.id == g.id && g.context in edge.context
                  && (f.context == Application || f.context == g.context);
      assert edge in Lookup(m, f.id) && Implies(f.context, edge, g);
    }
    if edge :| edge in Lookup(m, f.id) && Implies(f.context, edge, g) {
      assert edge in m[f.id];
    }
  }

  lemma {:induction false} ChainStays(m: DependencyMap, fs: set<Fact>, path: seq<Fact>)
    requires ClosedUnder(m, fs) && Chain(m, path) && path != [] && path[0] in fs
    ensures path[|path| - 1] in fs
  {
    if |path| > 1 {
      var h := path[..|path| - 1];
      forall i | 0 <= i < |h| - 1
        ensures LeadsAt(m, h, i)
      {
        assert LeadsAt(m, path, i);
      }
      ChainStays(m, fs, h);
      assert LeadsAt(m, path, |path| - 2);
      LeadsImplies(m, path[|path| - 2], path[|path| - 1]);
    }
  }

  lemma ChainOn(m: DependencyMap, lengthId: string, items: seq<string>, f: Fact, g: Fact)
    requires Needed(m, lengthId, items, f) && Leads(m, f, g)
    ensures Needed(m, lengthId, items, g)
  {
    var path :| NeedsBy(m, lengthId, items, path, f);
    var longer := path + [g];
    forall i | 0 <= i < |longer| - 1
      ensures LeadsAt(m, longer, i)
    {
      assert i < |path| - 1 ==> LeadsAt(m, path, i);
    }
    assert NeedsBy(m, lengthId, items, longer, g);
  }

  /** The least closed set is what chains lead to. */
  lemma ClosureIsNeeded(m: DependencyMap, lengthId: string, items: seq<string>, fs: set<Fact>)
    requires IsClosure(m, Facts(Roots(lengthId, items)), fs)
    ensures forall f :: f in fs <==> Needed(m, lengthId, items, f)
  {
    var roots := Facts(Roots(lengthId, items));
    forall f | Needed(m, lengthId, items, f)
      ensures f in fs
    {
      var path :| NeedsBy(m, lengthId, items, path, f);
      RootFacts(lengthId, items, path[0]);
      ChainStays(m, fs, path);
    }
    var gs := set f | f in fs && Needed(m, lengthId, items, f);
    forall f | f in roots
      ensures f in gs
    {
      RootFacts(lengthId, items, f);
      assert NeedsBy(m, lengthId, items, [f], f);
    }
    forall f, edge, g | f in gs && edge in Lookup(m, f.id) && Implies(f.context, edge, g)
      ensures g in gs
    {
      LeadsImplies(m, f, g);
      ChainOn(m, lengthId, items, f, g);
    }
    assert fs <= gs;
  }
}
