/** The dependency sort of generated classes (libkode): rounds over a shrinking list, with an exit
    when a round makes no progress. */
module ClassSort {
  import opened Sequences

  /** What the sort reads of a class: names of its bases, types of its members. */
  datatype Class = Class(name: string, baseClasses: seq<string>, memberTypes: seq<string>, useDPointer: bool)

  // ---------------------------------------------------------------- dependencies

  /** The by-value members whose type is one of the classes. */
  function Known(types: seq<string>, allClasses: seq<string>): seq<string> {
    if types == [] then []
    else (if types[0] in allClasses then [types[0]] else []) + Known(types[1..], allClasses)
  }

  function Dependencies(c: Class, allClasses: seq<string>): seq<string> {
    if c.useDPointer then [] else Known(c.memberTypes, allClasses)
  }

  lemma {:induction false} KnownMembers(types: seq<string>, allClasses: seq<string>, d: string)
    ensures d in Known(types, allClasses) <==> d in types && d in allClasses
  {
    if types != [] {
      KnownMembers(types[1..], allClasses, d);
    }
  }

  /** A class depends on exactly the listed classes it has members of, unless it keeps them behind a pointer. */
  lemma DependenciesExactly(c: Class, allClasses: seq<string>, d: string)
    ensures d in Dependencies(c, allClasses) <==> !c.useDPointer && d in c.memberTypes && d in allClasses
  {
    KnownMembers(c.memberTypes, allClasses, d);
  }

  lemma {:induction false} KnownConcat(a: seq<string>, b: seq<string>, allClasses: seq<string>)
    ensures Known(a + b, allClasses) == Known(a, allClasses) + Known(b, allClasses)
  {
    if a == [] {
      assert a + b == b;
    } else {
      KnownConcat(a[1..], b, allClasses);
      var c := a + b;
      assert c[0] == a[0] && c[1..] == a[1..] + b;
      var head := if a[0] in allClasses then [a[0]] else [];
      Associative(head, Known(a[1..], allClasses), Known(b, allClasses));
    }
  }

  /** The first character, or the terminator of an empty string. */
  function Front(s: string): char { if s == "" then '\0' else s[0] }

  /** The value of `!c` as an integer. */
  function LogicalNot(c: char): int { if c == '\0' then 1 else 0 }

  /** dependenciesForClass. The test on base classes compares the negated first letter with 'Q' and is
      never met, so only members count. */
  method DependenciesForClass(c: Class, allClasses: seq<string>, excluded: seq<string>) returns (lst: seq<string>)
    ensures lst == Dependencies(c, allClasses)
  {
    lst := [];
    for i := 0 to |c.baseClasses|
      invariant lst == []
    {
      var baseName := c.baseClasses[i];
      if LogicalNot(Front(baseName)) == 'Q' as int && baseName !in excluded {
        lst := lst + [baseName];
      }
    }
    if !c.useDPointer {
      for i := 0 to |c.memberTypes|
        invariant lst == Known(c.memberTypes[..i], allClasses)
      {
        var t := c.memberTypes[i];
        KnownConcat(c.memberTypes[..i], [t], allClasses);
        assert c.memberTypes[..i + 1] == c.memberTypes[..i] + [t];
        if t in allClasses {
          lst := lst + [t];
        }
      }
      assert c.memberTypes[..|c.memberTypes|] == c.memberTypes;
    }
  }

  predicate AllIn(deps: seq<string>, names: seq<string>) {
    forall i :: 0 <= i < |deps| ==> deps[i] in names
  }

  method AllKnown(deps: seq<string>, classNames: seq<string>) returns (known: bool)
    ensures known == AllIn(deps, classNames)
  {
    for i := 0 to |deps|
      invariant AllIn(deps[..i], classNames)
    {
      if deps[i] !in classNames { return false; }
    }
    return true;
  }

  // ---------------------------------------------------------------- the sort as a function

  function Names(cs: seq<Class>): (r: seq<string>)
    ensures |r| == |cs| && forall i :: 0 <= i < |cs| ==> r[i] == cs[i].name
  {
    if cs == [] then [] else [cs[0].name] + Names(cs[1..])
  }

  /** Classes moved out by a round, and those left behind. */
  datatype Round = Round(out: seq<Class>, left: seq<Class>)

  /** The first round takes the classes without dependencies. */
  function Independent(cs: seq<Class>, universe: seq<string>): Round {
    if cs == [] then Round([], [])
    else
      var r := Independent(cs[1..], universe);
      if Dependencies(cs[0], universe) == [] then r.(out := [cs[0]] + r.out) else r.(left := [cs[0]] + r.left)
  }

  /** A later round takes, in one go, every class whose dependencies are written out by then. */
  function Sweep(cs: seq<Class>, names: seq<string>, universe: seq<string>): Round {
    if cs == [] then Round([], [])
    else if AllIn(Dependencies(cs[0], universe), names) then
      var r := Sweep(cs[1..], names + [cs[0].name], universe);
      r.(out := [cs[0]] + r.out)
    else
      var r := Sweep(cs[1..], names, universe);
      r.(left := [cs[0]] + r.left)
  }

  lemma {:induction false} SweepSize(cs: seq<Class>, names: seq<string>, universe: seq<string>)
    ensures var r := Sweep(cs, names, universe); |r.out| + |r.left| == |cs|
  {
    if cs != [] {
      SweepSize(cs[1..], names + [cs[0].name], universe);
      SweepSize(cs[1..], names, universe);
    }
  }

  /** Rounds until nothing is left or nothing moves. */
  function Rounds(done: seq<Class>, cs: seq<Class>, universe: seq<string>): Round
    decreases |cs|
  {
    if cs == [] then Round(done, [])
    else
      SweepSize(cs, Names(done), universe);
      var r := Sweep(cs, Names(done), universe);
      if |r.left| == |cs| then Round(done, cs) else Rounds(done + r.out, r.left, universe)
  }

  /** The sorted classes and the ones given up. */
  function Sorted(cs: seq<Class>): Round {
    var r := Independent(cs, Names(cs));
    Rounds(r.out, r.left, Names(cs))
  }

  // ---------------------------------------------------------------- conservation and order

  ghost predicate Partition(r: Round, cs: seq<Class>) {
    multiset(r.out) + multiset(r.left) == multiset(cs)
  }

  lemma {:induction false} IndependentPartition(cs: seq<Class>, universe: seq<string>)
    ensures Partition(Independent(cs, universe), cs)
  {
    if cs != [] {
      IndependentPartition(cs[1..], universe);
      assert cs == [cs[0]] + cs[1..];
    }
  }

  lemma {:induction false} SweepPartition(cs: seq<Class>, names: seq<string>, universe: seq<string>)
    ensures Partition(Sweep(cs, names, universe), cs)
  {
    if cs != [] {
      SweepPartition(cs[1..], names + [cs[0].name], universe);
      SweepPartition(cs[1..], names, universe);
      assert cs == [cs[0]] + cs[1..];
    }
  }

  lemma {:induction false} RoundsPartition(done: seq<Class>, cs: seq<Class>, universe: seq<string>)
    ensures Partition(Rounds(done, cs, universe), done + cs)
    decreases |cs|
  {
    if cs != [] {
      SweepSize(cs, Names(done), universe);
      SweepPartition(cs, Names(done), universe);
      var r := Sweep(cs, Names(done), universe);
      if |r.left| != |cs| {
        RoundsPartition(done + r.out, r.left, universe);
      }
    }
  }

  /** Every dependency of a class is the name of a class strictly before it. */
  ghost predicate Ordered(cs: seq<Class>, universe: seq<string>) {
    forall i :: 0 <= i < |cs| ==> AllIn(Dependencies(cs[i], universe), Names(cs[..i]))
  }

  lemma NamesConcat(a: seq<Class>, b: seq<Class>)
    ensures Names(a + b) == Names(a) + Names(b)
  {
  }

  lemma NamesAppend(names: seq<string>, cs: seq<Class>, c: Class)
    ensures Names(cs + [c]) == Names(cs) + [c.name]
    ensures names + Names(cs) + [c.name] == names + Names(cs + [c])
  {
    NamesConcat(cs, [c]);
  }

  lemma OrderedAppend(cs: seq<Class>, c: Class, universe: seq<string>)
    requires Ordered(cs, universe) && AllIn(Dependencies(c, universe), Names(cs))
    ensures Ordered(cs + [c], universe)
  {
    forall i | 0 <= i < |cs + [c]| ensures AllIn(Dependencies((cs + [c])[i], universe), Names((cs + [c])[..i])) {
      if i < |cs| {
        assert (cs + [c])[..i] == cs[..i];
      } else {
        assert (cs + [c])[..i] == cs;
      }
    }
  }

  lemma {:induction false} IndependentOrdered(done: seq<Class>, cs: seq<Class>, universe: seq<string>)
    requires Ordered(done, universe)
    ensures Ordered(done + Independent(cs, universe).out, universe)
    decreases |cs|
  {
    if cs == [] {
      assert done + [] == done;
    } else if Dependencies(cs[0], universe) == [] {
      OrderedAppend(done, cs[0], universe);
      IndependentOrdered(done + [cs[0]], cs[1..], universe);
      Associative(done, [cs[0]], Independent(cs[1..], universe).out);
    } else {
      IndependentOrdered(done, cs[1..], universe);
    }
  }

  lemma SweepTaken(done: seq<Class>, cs: seq<Class>, universe: seq<string>)
    requires cs != [] && AllIn(Dependencies(cs[0], universe), Names(done))
    ensures var next := done + [cs[0]];
            done + Sweep(cs, Names(done), universe).out == next + Sweep(cs[1..], Names(next), universe).out
  {
    NamesAppend([], done, cs[0]);
    Associative(done, [cs[0]], Sweep(cs[1..], Names(done) + [cs[0].name], universe).out);
  }

  lemma {:induction false} SweepOrdered(done: seq<Class>, cs: seq<Class>, universe: seq<string>)
    requires Ordered(done, universe)
    ensures Ordered(done + Sweep(cs, Names(done), universe).out, universe)
    decreases |cs|
  {
    if cs == [] {
      assert done + [] == done;
    } else if AllIn(Dependencies(cs[0], universe), Names(done)) {
      OrderedAppend(done, cs[0], universe);
      SweepOrdered(done + [cs[0]], cs[1..], universe);
      SweepTaken(done, cs, universe);
    } else {
      SweepOrdered(done, cs[1..], universe);
    }
  }

  lemma {:induction false} RoundsOrdered(done: seq<Class>, cs: seq<Class>, universe: seq<string>)
    requires Ordered(done, universe)
    ensures Ordered(Rounds(done, cs, universe).out, universe)
    decreases |cs|
  {
    if cs != [] {
      SweepSize(cs, Names(done), universe);
      SweepOrdered(done, cs, universe);
      var r := Sweep(cs, Names(done), universe);
      if |r.left| != |cs| {
        RoundsOrdered(done + r.out, r.left, universe);
      }
    }
  }

  /** Nothing is lost or invented, and dependencies come strictly first. */
  lemma SortedSound(cs: seq<Class>)
    ensures Partition(Sorted(cs), cs)
    ensures Ordered(Sorted(cs).out, Names(cs))
  {
    var r := Independent(cs, Names(cs));
    IndependentPartition(cs, Names(cs));
    RoundsPartition(r.out, r.left, Names(cs));
    IndependentOrdered([], cs, Names(cs));
    assert [] + r.out == r.out;
    RoundsOrdered(r.out, r.left, Names(cs));
  }

  // ---------------------------------------------------------------- completeness

  /** Each class has a dependency that no class in done provides. */
  ghost predicate Stuck(cs: seq<Class>, done: seq<Class>, universe: seq<string>) {
    forall i :: 0 <= i < |cs| ==> !AllIn(Dependencies(cs[i], universe), Names(done))
  }

  lemma {:induction false} SweepStuck(cs: seq<Class>, done: seq<Class>, universe: seq<string>)
    requires |Sweep(cs, Names(done), universe).left| == |cs|
    ensures Stuck(cs, done, universe) && Sweep(cs, Names(done), universe) == Round([], cs)
  {
    if cs != [] {
      if AllIn(Dependencies(cs[0], universe), Names(done)) {
        SweepSize(cs[1..], Names(done) + [cs[0].name], universe);
      } else {
        SweepStuck(cs[1..], done, universe);
        Cons(cs);
      }
    }
  }

  lemma {:induction false} RoundsStuck(done: seq<Class>, cs: seq<Class>, universe: seq<string>)
    ensures var r := Rounds(done, cs, universe); Stuck(r.left, r.out, universe)
    decreases |cs|
  {
    if cs != [] {
      SweepSize(cs, Names(done), universe);
      var r := Sweep(cs, Names(done), universe);
      if |r.left| == |cs| {
        SweepStuck(cs, done, universe);
      } else {
        RoundsStuck(done + r.out, r.left, universe);
      }
    }
  }

  /** A class is given up only for a dependency that no class of the result provides. */
  lemma SortedStuck(cs: seq<Class>)
    ensures Stuck(Sorted(cs).left, Sorted(cs).out, Names(cs))
  {
    var r := Independent(cs, Names(cs));
    RoundsStuck(r.out, r.left, Names(cs));
  }

  lemma PartitionMember(r: Round, cs: seq<Class>, c: Class)
    requires Partition(r, cs)
    ensures c in cs <==> c in r.out || c in r.left
  {
    assert c in cs <==> c in multiset(cs);
  }

  lemma NameSubset(d: string, a: seq<Class>, b: seq<Class>)
    requires d in Names(a) && forall c :: c in a ==> c in b
    ensures d in Names(b)
  {
    var j :| 0 <= j < |a| && a[j].name == d;
    assert a[j] in b;
    var k :| 0 <= k < |b| && b[k] == a[j];
    assert Names(b)[k] == d;
  }

  lemma NamesSubset(deps: seq<string>, a: seq<Class>, b: seq<Class>)
    requires AllIn(deps, Names(a)) && forall c :: c in a ==> c in b
    ensures AllIn(deps, Names(b))
  {
    forall i | 0 <= i < |deps| ensures deps[i] in Names(b) {
      NameSubset(deps[i], a, b);
    }
  }

  lemma {:induction false} StuckMaximal(r: Round, cs: seq<Class>, universe: seq<string>, w: seq<Class>)
    requires Partition(r, cs) && Stuck(r.left, r.out, universe)
    requires Ordered(w, universe) && forall c :: c in w ==> c in cs
    ensures forall c :: c in w ==> c in r.out && c !in r.left
    decreases |w|
  {
    if w != [] {
      var n := |w| - 1;
      var h, c := w[..n], w[n];
      OrderedPrefix(w, universe);
      assert w == h + [c];
      StuckMaximal(r, cs, universe, h);
      NamesSubset(Dependencies(c, universe), h, r.out);
      StuckMember(r.left, r.out, universe, c);
      PartitionMember(r, cs, c);
    }
  }

  lemma StuckMember(left: seq<Class>, done: seq<Class>, universe: seq<string>, c: Class)
    requires Stuck(left, done, universe) && AllIn(Dependencies(c, universe), Names(done))
    ensures c !in left
  {
  }

  lemma OrderedPrefix(w: seq<Class>, universe: seq<string>)
    requires Ordered(w, universe) && w != []
    ensures Ordered(w[..|w| - 1], universe)
    ensures AllIn(Dependencies(w[|w| - 1], universe), Names(w[..|w| - 1]))
  {
    var h := w[..|w| - 1];
    forall i | 0 <= i < |h| ensures AllIn(Dependencies(h[i], universe), Names(h[..i])) {
      assert h[..i] == w[..i];
    }
  }

  /** The result is maximal: whatever classes can be put in order at all are in it. */
  lemma SortedMaximal(cs: seq<Class>, w: seq<Class>)
    requires Ordered(w, Names(cs)) && forall c :: c in w ==> c in cs
    ensures forall c :: c in w ==> c in Sorted(cs).out && c !in Sorted(cs).left
  {
    SortedSound(cs);
    SortedStuck(cs);
    StuckMaximal(Sorted(cs), cs, Names(cs), w);
  }

  /** The whole input comes out exactly if the classes can be put in order. */
  lemma SortedComplete(cs: seq<Class>)
    ensures Sorted(cs).left == [] <==> exists w :: IsOrdering(w, cs)
  {
    SortedSound(cs);
    var r := Sorted(cs);
    if w :| IsOrdering(w, cs) {
      CompleteFrom(cs, w, r.left);
    }
    if r.left == [] {
      assert IsOrdering(r.out, cs);
    }
  }

  ghost predicate IsOrdering(w: seq<Class>, cs: seq<Class>) {
    multiset(w) == multiset(cs) && Ordered(w, Names(cs))
  }

  lemma CompleteFrom(cs: seq<Class>, w: seq<Class>, left: seq<Class>)
    requires IsOrdering(w, cs) && left == Sorted(cs).left
    ensures left == []
  {
    assert forall c :: c in w <==> c in multiset(w);
    assert forall c :: c in cs <==> c in multiset(cs);
    SortedMaximal(cs, w);
    SortedSound(cs);
    if left != [] {
      PartitionMember(Sorted(cs), cs, left[0]);
      assert false;
    }
  }

  // ---------------------------------------------------------------- base classes

  /** The documentation promises that the base class of a class appears before it. */
  ghost predicate BasesFirst(cs: seq<Class>, universe: seq<string>) {
    forall i :: 0 <= i < |cs| ==> BasesIn(cs[i], Names(cs[..i]), universe)
  }

  ghost predicate BasesIn(c: Class, names: seq<string>, universe: seq<string>) {
    forall b :: b in c.baseClasses && b in universe ==> b in names
  }

  /** Two lists that differ in their base classes only. */
  ghost predicate SameButBases(a: seq<Class>, b: seq<Class>) {
    |a| == |b| && forall i :: 0 <= i < |a| ==> SameButBase(a[i], b[i])
  }

  ghost predicate SameButBase(a: Class, b: Class) { b == a.(baseClasses := b.baseClasses) }

  lemma {:induction false} SameNames(a: seq<Class>, b: seq<Class>)
    requires SameButBases(a, b)
    ensures Names(a) == Names(b)
  {
  }

  lemma {:induction false} SameIndependent(a: seq<Class>, b: seq<Class>, universe: seq<string>)
    requires SameButBases(a, b)
    ensures var r, s := Independent(a, universe), Independent(b, universe);
            SameButBases(r.out, s.out) && SameButBases(r.left, s.left)
  {
    if a != [] {
      SameHead(a[0], b[0], universe);
      SameIndependent(a[1..], b[1..], universe);
    }
  }

  lemma SameHead(a: Class, b: Class, universe: seq<string>)
    requires SameButBase(a, b)
    ensures a.name == b.name && Dependencies(a, universe) == Dependencies(b, universe)
  {
  }

  lemma SameCons(x: Class, y: Class, a: seq<Class>, b: seq<Class>)
    requires SameButBase(x, y) && SameButBases(a, b)
    ensures SameButBases([x] + a, [y] + b)
  {
  }

  lemma {:induction false} SameSweep(a: seq<Class>, b: seq<Class>, names: seq<string>, universe: seq<string>)
    requires SameButBases(a, b)
    ensures var r, s := Sweep(a, names, universe), Sweep(b, names, universe);
            SameButBases(r.out, s.out) && SameButBases(r.left, s.left)
  {
    if a != [] {
      SameHead(a[0], b[0], universe);
      if AllIn(Dependencies(a[0], universe), names) {
        var more := names + [a[0].name];
        SameSweep(a[1..], b[1..], more, universe);
        SameCons(a[0], b[0], Sweep(a[1..], more, universe).out, Sweep(b[1..], more, universe).out);
      } else {
        SameSweep(a[1..], b[1..], names, universe);
        SameCons(a[0], b[0], Sweep(a[1..], names, universe).left, Sweep(b[1..], names, universe).left);
      }
    }
  }

  lemma SameConcat(a: seq<Class>, b: seq<Class>, c: seq<Class>, d: seq<Class>)
    requires SameButBases(a, b) && SameButBases(c, d)
    ensures SameButBases(a + c, b + d)
  {
  }

  lemma {:induction false} SameRounds(d: seq<Class>, e: seq<Class>, a: seq<Class>, b: seq<Class>, universe: seq<string>)
    requires SameButBases(d, e) && SameButBases(a, b)
    ensures var r, s := Rounds(d, a, universe), Rounds(e, b, universe);
            SameButBases(r.out, s.out) && SameButBases(r.left, s.left)
    decreases |a|
  {
    if a != [] {
      SameNames(d, e);
      SameSweep(a, b, Names(d), universe);
      SweepSize(a, Names(d), universe);
      var r, s := Sweep(a, Names(d), universe), Sweep(b, Names(d), universe);
      if |r.left| != |a| {
        SameConcat(d, e, r.out, s.out);
        SameRounds(d + r.out, e + s.out, r.left, s.left, universe);
      }
    }
  }

  /** Base classes have no influence on the order. */
  lemma BasesIgnored(a: seq<Class>, b: seq<Class>)
    requires SameButBases(a, b)
    ensures SameButBases(Sorted(a).out, Sorted(b).out) && SameButBases(Sorted(a).left, Sorted(b).left)
  {
    SameNames(a, b);
    SameIndependent(a, b, Names(a));
    var r, s := Independent(a, Names(a)), Independent(b, Names(b));
    SameRounds(r.out, s.out, r.left, s.left, Names(a));
  }

  /** Without by-value members the list is left as it is, so the promise about base classes holds
      exactly if the caller had put them first. */
  lemma NoMembersUnchanged(cs: seq<Class>)
    requires forall i :: 0 <= i < |cs| ==> Dependencies(cs[i], Names(cs)) == []
    ensures Sorted(cs) == Round(cs, [])
    ensures BasesFirst(Sorted(cs).out, Names(cs)) <==> BasesFirst(cs, Names(cs))
  {
    AllIndependent(cs, Names(cs));
  }

  lemma {:induction false} AllIndependent(cs: seq<Class>, universe: seq<string>)
    requires forall i :: 0 <= i < |cs| ==> Dependencies(cs[i], universe) == []
    ensures Independent(cs, universe) == Round(cs, [])
  {
    if cs != [] {
      AllIndependent(cs[1..], universe);
      assert cs == [cs[0]] + cs[1..];
    }
  }

  /** A derived class listed before its base stays there. */
  lemma BaseLast(derived: Class, base: Class)
    requires derived.memberTypes == [] && base.memberTypes == [] && base.name in derived.baseClasses
    ensures Sorted([derived, base]).out == [derived, base]
    ensures !BasesFirst([derived, base], Names([derived, base]))
  {
    var cs := [derived, base];
    NoMembersUnchanged(cs);
    assert Names(cs)[1] == base.name;
    assert base.name in Names(cs) && base.name !in Names(cs[..0]);
    assert !BasesIn(cs[0], Names(cs[..0]), Names(cs));
  }

  lemma BaseLastExample()
    ensures var cs := [Class("Derived", ["Base"], [], false), Class("Base", [], [], false)];
            !BasesFirst(Sorted(cs).out, Names(cs))
  {
    var derived, base := Class("Derived", ["Base"], [], false), Class("Base", [], [], false);
    assert derived.baseClasses[0] == base.name;
    BaseLast(derived, base);
  }

  /** A list that keeps the promise comes out without it: the base has a member and waits for a later round,
      the derived class has none. */
  lemma OrderBroken(a: Class, base: Class, derived: Class)
    requires a.baseClasses == [] && a.memberTypes == [] && base.baseClasses == [] && base.memberTypes == [a.name]
    requires derived.baseClasses == [base.name] && derived.memberTypes == []
    requires !base.useDPointer && a.name != base.name && derived.name != base.name
    ensures var cs := [a, base, derived];
            && BasesFirst(cs, Names(cs)) && Sorted(cs) == Round([a, derived, base], [])
            && !BasesFirst(Sorted(cs).out, Names(cs))
  {
    var cs := [a, base, derived];
    var u := Names(cs);
    assert u[0] == a.name && u[1] == base.name;
    assert Dependencies(base, u) == [a.name] by {
      assert Known([a.name], u) == [a.name] + Known([], u);
    }
    FirstOfThree(a, base, derived, u);
    var done := [a, derived];
    assert Names(done)[0] == a.name;
    assert Sweep([base], Names(done), u) == Round([base], []);
    assert Rounds(done, [base], u) == Rounds(done + [base], [], u);
    assert done + [base] == [a, derived, base];
    BrokenOrder(a, base, derived, u);
  }

  lemma FirstOfThree(a: Class, b: Class, c: Class, u: seq<string>)
    requires Dependencies(a, u) == [] && Dependencies(b, u) != [] && Dependencies(c, u) == []
    ensures Independent([a, b, c], u) == Round([a, c], [b])
  {
    assert [a, b, c][1..] == [b, c] && [b, c][1..] == [c];
    assert Independent([c], u) == Round([c], []);
    assert Independent([b, c], u) == Round([c], [b]);
  }

  lemma BrokenOrder(a: Class, base: Class, derived: Class, u: seq<string>)
    requires a.baseClasses == [] && base.baseClasses == [] && derived.baseClasses == [base.name]
    requires base.name in u && a.name != base.name && derived.name != base.name
    ensures BasesFirst([a, base, derived], u) && !BasesFirst([a, derived, base], u)
  {
    var before, behind := [a, base, derived], [a, derived, base];
    assert before[..2] == [a, base] && Names([a, base])[1] == base.name;
    assert behind[..1] == [a] && Names([a]) == [a.name];
    assert !BasesIn(behind[1], Names(behind[..1]), u);
  }

  lemma OrderBrokenExample()
    ensures var cs := [Class("A", [], [], false), Class("Base", [], ["A"], false), Class("Derived", ["Base"], [], false)];
            BasesFirst(cs, Names(cs)) && !BasesFirst(Sorted(cs).out, Names(cs))
  {
    var a, base := Class("A", [], [], false), Class("Base", [], ["A"], false);
    var derived := Class("Derived", ["Base"], [], false);
    assert a.name[0] != base.name[0] && derived.name[0] != base.name[0];
    OrderBroken(a, base, derived);
  }

  // ---------------------------------------------------------------- the code

  /** What a round has done so far, and the rest of it. */
  function Then(done: Round, rest: Round): Round {
    Round(done.out + rest.out, done.left + rest.left)
  }

  lemma IndependentStep(done: Round, rest: seq<Class>, universe: seq<string>)
    requires rest != []
    ensures Then(done, Independent(rest, universe)) == Then(
              if Dependencies(rest[0], universe) == [] then done.(out := done.out + [rest[0]])
              else done.(left := done.left + [rest[0]]), Independent(rest[1..], universe))
  {
    var r := Independent(rest[1..], universe);
    assert done.out + ([rest[0]] + r.out) == done.out + [rest[0]] + r.out;
    assert done.left + ([rest[0]] + r.left) == done.left + [rest[0]] + r.left;
  }

  lemma SweepStep(done: Round, rest: seq<Class>, names: seq<string>, universe: seq<string>)
    requires rest != []
    ensures Then(done, Sweep(rest, names, universe)) ==
            if AllIn(Dependencies(rest[0], universe), names)
            then Then(done.(out := done.out + [rest[0]]), Sweep(rest[1..], names + [rest[0].name], universe))
            else Then(done.(left := done.left + [rest[0]]), Sweep(rest[1..], names, universe))
  {
    var r, r' := Sweep(rest[1..], names, universe), Sweep(rest[1..], names + [rest[0].name], universe);
    assert done.out + ([rest[0]] + r'.out) == done.out + [rest[0]] + r'.out;
    assert done.left + ([rest[0]] + r.left) == done.left + [rest[0]] + r.left;
  }

  /** The loop that copies all classes without dependencies. Erasing an element and stepping the
      iterator back is an index that goes down, to -1 at the front, before the loop increments it. */
  method TakeIndependent(classes: seq<Class>, universe: seq<string>, excluded: seq<string>)
    returns (moved: seq<Class>, names: seq<string>, all: seq<Class>)
    ensures Round(moved, all) == Independent(classes, universe)
    ensures names == Names(moved)
  {
    moved, names, all := [], [], classes;
    var it := 0;
    while it != |all|
      invariant 0 <= it <= |all|
      invariant names == Names(moved)
      invariant Independent(classes, universe) == Then(Round(moved, all[..it]), Independent(all[it..], universe))
      decreases |all| - it
    {
      var c := all[it];
      ghost var front, rest := all[..it], all[it..];
      Advance(all, it);
      Erase(all, it);
      IndependentStep(Round(moved, front), rest, universe);
      var deps := DependenciesForClass(c, universe, excluded);
      if deps == [] {
        NamesAppend([], moved, c);
        moved, names := moved + [c], names + [c.name];
        all := all[..it] + all[it + 1..];
        it := it - 1;
      }
      it := it + 1;
    }
  }

  /** One round over the remaining classes. */
  method TakeKnown(classes: seq<Class>, classNames: seq<string>, universe: seq<string>, excluded: seq<string>)
    returns (moved: seq<Class>, names: seq<string>, all: seq<Class>)
    ensures Round(moved, all) == Sweep(classes, classNames, universe)
    ensures names == classNames + Names(moved)
  {
    moved, names, all := [], classNames, classes;
    var it := 0;
    while it != |all|
      invariant 0 <= it <= |all|
      invariant names == classNames + Names(moved)
      invariant Sweep(classes, classNames, universe) == Then(Round(moved, all[..it]), Sweep(all[it..], names, universe))
      decreases |all| - it
    {
      var c := all[it];
      ghost var front, rest := all[..it], all[it..];
      Advance(all, it);
      Erase(all, it);
      SweepStep(Round(moved, front), rest, names, universe);
      var deps := DependenciesForClass(c, universe, excluded);
      var known := AllKnown(deps, names);
      if known {
        NamesAppend(classNames, moved, c);
        moved, names := moved + [c], names + [c.name];
        all := all[..it] + all[it + 1..];
        it := it - 1;
      }
      it := it + 1;
    }
  }

  /** sortByDependenciesHelper. */
  method SortByDependenciesHelper(classes: seq<Class>, excluded: seq<string>)
    returns (retval: seq<Class>, ghost left: seq<Class>)
    ensures retval == Sorted(classes).out && left == Sorted(classes).left
  {
    var allClassNames := Names(classes);
    var classNames, allClasses;
    retval, classNames, allClasses := TakeIndependent(classes, allClassNames, excluded);
    while |allClasses| > 0
      invariant classNames == Names(retval)
      invariant Rounds(retval, allClasses, allClassNames) == Sorted(classes)
      decreases |allClasses|
    {
      var currentCount := |allClasses|;
      SweepSize(allClasses, classNames, allClassNames);
      ghost var before, remaining := retval, allClasses;
      var moved;
      moved, classNames, allClasses := TakeKnown(allClasses, classNames, allClassNames, excluded);
      NamesConcat(retval, moved);
      retval := retval + moved;
      if |allClasses| == currentCount {
        SweepStuck(remaining, before, allClassNames);
        assert retval == before;
        left := allClasses;
        return;
      }
    }
    left := [];
  }
}
