/** Where the dependency sort puts a class, told from the list alone: its round follows from the by-value
    members and the positions in the list, and the classes come out by round and then by position. From this
    follows exactly when base classes come out first. */
module ClassRounds {
  import opened Sequences
  import opened ClassSort

  // ---------------------------------------------------------------- rounds

  function Deps(cs: seq<Class>, i: nat): seq<string>
    requires i < |cs|
  {
    Dependencies(cs[i], Names(cs))
  }

  /** The class listed at i is out after k rounds behind the first: at once without dependencies, else when
      each dependency is available in a round up to k. */
  ghost predicate OutBy(cs: seq<Class>, k: nat, i: nat)
    decreases k, i, 2
  {
    && i < |cs|
    && (Deps(cs, i) == []
        || (k > 0 && forall x :: 0 <= x < |Deps(cs, i)| ==> Available(cs, k - 1, i, Deps(cs, i)[x])))
  }

  /** In the round behind k, when it reaches position p, a class of that name is out. */
  ghost predicate Available(cs: seq<Class>, k: nat, p: nat, name: string)
    decreases k + 1, p, 1
  {
    exists j: nat :: j < |cs| && cs[j].name == name && Before(cs, k, p, j)
  }

  /** Out by round k, or listed before p and out by the round behind it. */
  ghost predicate Before(cs: seq<Class>, k: nat, p: nat, j: nat)
    decreases k + 1, p, 0
  {
    OutBy(cs, k, j) || (j < p && OutBy(cs, k + 1, j))
  }

  lemma OutNext(cs: seq<Class>, k: nat, i: nat)
    requires OutBy(cs, k, i)
    ensures OutBy(cs, k + 1, i)
    decreases k
  {
    if Deps(cs, i) != [] {
      forall x | 0 <= x < |Deps(cs, i)|
        ensures Available(cs, k, i, Deps(cs, i)[x])
      {
        AvailableNext(cs, k - 1, i, Deps(cs, i)[x]);
      }
    }
  }

  lemma AvailableNext(cs: seq<Class>, k: nat, p: nat, name: string)
    requires Available(cs, k, p, name)
    ensures Available(cs, k + 1, p, name)
    decreases k + 1, 0
  {
    var j: nat :| j < |cs| && cs[j].name == name && Before(cs, k, p, j);
    if OutBy(cs, k, j) { OutNext(cs, k, j); }
    assert Before(cs, k + 1, p, j);
  }

  lemma {:induction false} OutLater(cs: seq<Class>, k: nat, m: nat, i: nat)
    requires OutBy(cs, k, i) && k <= m
    ensures OutBy(cs, m, i)
    decreases m - k
  {
    if k < m {
      OutNext(cs, k, i);
      OutLater(cs, k + 1, m, i);
    }
  }

  // ---------------------------------------------------------------- lists of positions

  predicate Positions(cs: seq<Class>, ix: seq<nat>) { forall q :: 0 <= q < |ix| ==> ix[q] < |cs| }

  function Pick(cs: seq<Class>, ix: seq<nat>): (r: seq<Class>)
    requires Positions(cs, ix)
    ensures |r| == |ix| && forall q :: 0 <= q < |ix| ==> r[q] == cs[ix[q]]
  {
    if ix == [] then [] else [cs[ix[0]]] + Pick(cs, ix[1..])
  }

  /** The positions from p on that are not out by round k. */
  ghost function Left(cs: seq<Class>, k: nat, p: nat): (r: seq<nat>)
    ensures Positions(cs, r)
    decreases |cs| - p
  {
    if p >= |cs| then []
    else if OutBy(cs, k, p) then Left(cs, k, p + 1)
    else [p] + Left(cs, k, p + 1)
  }

  ghost predicate NewAt(cs: seq<Class>, k: nat, i: nat) { OutBy(cs, k, i) && (k > 0 ==> !OutBy(cs, k - 1, i)) }

  /** The positions from p on that come out in round k. */
  ghost function Stage(cs: seq<Class>, k: nat, p: nat): (r: seq<nat>)
    ensures Positions(cs, r)
    decreases |cs| - p
  {
    if p >= |cs| then []
    else if NewAt(cs, k, p) then [p] + Stage(cs, k, p + 1)
    else Stage(cs, k, p + 1)
  }

  /** The positions that are out by round k, round by round. */
  ghost function Order(cs: seq<Class>, k: nat): (r: seq<nat>)
    ensures Positions(cs, r)
  {
    if k == 0 then Stage(cs, 0, 0) else Order(cs, k - 1) + Stage(cs, k, 0)
  }

  lemma {:induction false} StageMember(cs: seq<Class>, k: nat, p: nat, i: nat)
    ensures i in Stage(cs, k, p) <==> p <= i && NewAt(cs, k, i)
    decreases |cs| - p
  {
    if p < |cs| {
      StageMember(cs, k, p + 1, i);
    }
  }

  lemma {:induction false} OrderMember(cs: seq<Class>, k: nat, i: nat)
    ensures i in Order(cs, k) <==> OutBy(cs, k, i)
  {
    StageMember(cs, k, 0, i);
    if k > 0 {
      OrderMember(cs, k - 1, i);
      if OutBy(cs, k - 1, i) { OutNext(cs, k - 1, i); }
    }
  }

  // ---------------------------------------------------------------- the rounds of the sort

  lemma {:induction false} FirstRound(cs: seq<Class>, p: nat)
    requires p <= |cs|
    ensures Independent(cs[p..], Names(cs)) == Round(Pick(cs, Stage(cs, 0, p)), Pick(cs, Left(cs, 0, p)))
    decreases |cs| - p
  {
    if p < |cs| {
      Advance(cs, p);
      FirstRound(cs, p + 1);
    }
  }

  /** names holds exactly the names that are available. */
  ghost predicate Covers(cs: seq<Class>, k: nat, p: nat, names: seq<string>) {
    forall n :: n in names <==> Available(cs, k, p, n)
  }

  lemma KnownAtPosition(cs: seq<Class>, k: nat, p: nat, names: seq<string>)
    requires Covers(cs, k, p, names) && p < |cs| && !OutBy(cs, k, p)
    ensures AllIn(Deps(cs, p), names) <==> OutBy(cs, k + 1, p)
  {
  }

  lemma AvailableStep(cs: seq<Class>, k: nat, p: nat, n: string)
    requires p < |cs|
    ensures Available(cs, k, p + 1, n) <==> Available(cs, k, p, n) || (n == cs[p].name && OutBy(cs, k + 1, p))
  {
    if Available(cs, k, p + 1, n) {
      var j: nat :| j < |cs| && cs[j].name == n && Before(cs, k, p + 1, j);
      assert j != p ==> Before(cs, k, p, j);
      if j == p && OutBy(cs, k, p) { OutNext(cs, k, p); }
    }
    if Available(cs, k, p, n) {
      var j: nat :| j < |cs| && cs[j].name == n && Before(cs, k, p, j);
      assert Before(cs, k, p + 1, j);
    }
    if n == cs[p].name && OutBy(cs, k + 1, p) {
      assert Before(cs, k, p + 1, p);
    }
  }

  lemma CoversStep(cs: seq<Class>, k: nat, p: nat, names: seq<string>)
    requires Covers(cs, k, p, names) && p < |cs|
    ensures Covers(cs, k, p + 1, if OutBy(cs, k + 1, p) then names + [cs[p].name] else names)
    ensures OutBy(cs, k, p) ==> Covers(cs, k, p + 1, names)
  {
    forall n
      ensures Available(cs, k, p + 1, n) <==> Available(cs, k, p, n) || (n == cs[p].name && OutBy(cs, k + 1, p))
      ensures OutBy(cs, k, p) && n == cs[p].name ==> Available(cs, k, p, n)
    {
      AvailableStep(cs, k, p, n);
      if OutBy(cs, k, p) && n == cs[p].name { assert Before(cs, k, p, p); }
    }
  }

  lemma {:induction false} LaterRound(cs: seq<Class>, k: nat, p: nat, names: seq<string>)
    requires p <= |cs| && Covers(cs, k, p, names)
    ensures Sweep(Pick(cs, Left(cs, k, p)), names, Names(cs))
         == Round(Pick(cs, Stage(cs, k + 1, p)), Pick(cs, Left(cs, k + 1, p)))
    decreases |cs| - p
  {
    if p < |cs| {
      CoversStep(cs, k, p, names);
      if OutBy(cs, k, p) {
        OutNext(cs, k, p);
        LaterRound(cs, k, p + 1, names);
      } else {
        KnownAtPosition(cs, k, p, names);
        LaterRound(cs, k, p + 1, if OutBy(cs, k + 1, p) then names + [cs[p].name] else names);
        PickLeft(cs, k, p);
      }
    }
  }

  lemma PickLeft(cs: seq<Class>, k: nat, p: nat)
    requires p < |cs| && !OutBy(cs, k, p)
    ensures var r := Pick(cs, Left(cs, k, p));
            r != [] && r[0] == cs[p] && r[1..] == Pick(cs, Left(cs, k, p + 1))
  {
    assert Left(cs, k, p)[1..] == Left(cs, k, p + 1);
  }

  lemma OrderCovers(cs: seq<Class>, k: nat)
    ensures Covers(cs, k, 0, Names(Pick(cs, Order(cs, k))))
  {
    var ix := Order(cs, k);
    var names := Names(Pick(cs, ix));
    forall n
      ensures n in names <==> Available(cs, k, 0, n)
    {
      if n in names {
        var q :| 0 <= q < |names| && names[q] == n;
        OrderMember(cs, k, ix[q]);
        assert Before(cs, k, 0, ix[q]);
      }
      if Available(cs, k, 0, n) {
        var j: nat :| j < |cs| && cs[j].name == n && Before(cs, k, 0, j);
        OrderMember(cs, k, j);
        var q :| 0 <= q < |ix| && ix[q] == j;
        assert names[q] == n;
      }
    }
  }

  /** The round behind k brings nothing out. */
  ghost predicate Quiet(cs: seq<Class>, k: nat) { forall i :: OutBy(cs, k + 1, i) ==> OutBy(cs, k, i) }

  /** What the rounds make of the state behind round k, and that state itself. */
  ghost function From(cs: seq<Class>, k: nat): Round {
    Rounds(Pick(cs, Order(cs, k)), Pick(cs, Left(cs, k, 0)), Names(cs))
  }

  ghost function Behind(cs: seq<Class>, k: nat): Round { Round(Pick(cs, Order(cs, k)), Pick(cs, Left(cs, k, 0))) }

  /** The rounds of the sort go through the stages, and stop at one that is empty or leaves nothing. */
  lemma {:induction false} RoundsFrom(cs: seq<Class>, k: nat) returns (last: nat)
    requires k + |Left(cs, k, 0)| <= |cs|
    ensures From(cs, k) == Behind(cs, last)
    ensures last <= |cs| && Quiet(cs, last)
    decreases |Left(cs, k, 0)|
  {
    RoundStep(cs, k);
    if Stage(cs, k + 1, 0) == [] {
      last := k;
      StageEmpty(cs, k);
    } else {
      last := RoundsFrom(cs, k + 1);
    }
  }

  /** One round of the sort is one stage. */
  lemma RoundStep(cs: seq<Class>, k: nat)
    ensures |Stage(cs, k + 1, 0)| + |Left(cs, k + 1, 0)| == |Left(cs, k, 0)|
    ensures From(cs, k) == if Stage(cs, k + 1, 0) == [] then Behind(cs, k) else From(cs, k + 1)
  {
    var done, left := Pick(cs, Order(cs, k)), Pick(cs, Left(cs, k, 0));
    OrderCovers(cs, k);
    LaterRound(cs, k, 0, Names(done));
    PickConcat(cs, Order(cs, k), Stage(cs, k + 1, 0));
    SweepSize(left, Names(done), Names(cs));
    SweepMoved(done, left, Names(cs));
  }

  lemma SweepMoved(done: seq<Class>, left: seq<Class>, universe: seq<string>)
    ensures var r := Sweep(left, Names(done), universe);
            Rounds(done, left, universe) ==
            if r.out == [] then Round(done, left) else Rounds(done + r.out, r.left, universe)
  {
    SweepSize(left, Names(done), universe);
  }

  lemma PickConcat(cs: seq<Class>, a: seq<nat>, b: seq<nat>)
    requires Positions(cs, a) && Positions(cs, b)
    ensures Pick(cs, a + b) == Pick(cs, a) + Pick(cs, b)
  {
  }

  lemma StageEmpty(cs: seq<Class>, k: nat)
    requires Stage(cs, k + 1, 0) == []
    ensures Quiet(cs, k)
  {
    forall i | OutBy(cs, k + 1, i)
      ensures OutBy(cs, k, i)
    {
      StageMember(cs, k + 1, 0, i);
    }
  }

  /** Once a round brings nothing, no later one does. */
  lemma {:induction false} Settled(cs: seq<Class>, k: nat, m: nat, i: nat)
    requires k <= m && OutBy(cs, m, i) && Quiet(cs, k)
    ensures OutBy(cs, k, i)
    decreases m, i
  {
    if k < m && Deps(cs, i) != [] {
      forall x | 0 <= x < |Deps(cs, i)|
        ensures Available(cs, k, i, Deps(cs, i)[x])
      {
        var j: nat :| j < |cs| && cs[j].name == Deps(cs, i)[x] && Before(cs, m - 1, i, j);
        Settled(cs, k, if OutBy(cs, m - 1, j) then m - 1 else m, j);
        assert Before(cs, k, i, j);
      }
      assert OutBy(cs, k + 1, i);
    }
  }

  lemma {:induction false} SettledLeft(cs: seq<Class>, k: nat, m: nat, p: nat)
    requires k <= m && Quiet(cs, k)
    ensures Left(cs, m, p) == Left(cs, k, p)
    decreases |cs| - p
  {
    if p < |cs| {
      if OutBy(cs, m, p) { Settled(cs, k, m, p); } else if OutBy(cs, k, p) { OutLater(cs, k, m, p); }
      SettledLeft(cs, k, m, p + 1);
    }
  }

  lemma {:induction false} SettledOrder(cs: seq<Class>, k: nat, m: nat)
    requires k <= m && Quiet(cs, k)
    ensures Order(cs, m) == Order(cs, k)
    decreases m
  {
    if k < m {
      SettledOrder(cs, k, m - 1);
      if Stage(cs, m, 0) != [] {
        var i := Stage(cs, m, 0)[0];
        StageMember(cs, m, 0, i);
        Settled(cs, k, m, i);
        OutLater(cs, k, m - 1, i);
      }
    }
  }

  // ---------------------------------------------------------------- the number of a round

  /** The first round from k on by which the class is out, no later than the length of the list, or -1. */
  ghost function FirstFrom(cs: seq<Class>, i: nat, k: nat): (r: int)
    ensures if r < 0 then r == -1 && forall m :: k <= m <= |cs| ==> !OutBy(cs, m, i)
            else k <= r <= |cs| && OutBy(cs, r, i) && forall m :: k <= m < r ==> !OutBy(cs, m, i)
    decreases |cs| + 1 - k
  {
    if k > |cs| then -1 else if OutBy(cs, k, i) then k else FirstFrom(cs, i, k + 1)
  }

  /** The round of the class listed at i; -1 if it is given up. */
  ghost function RoundOf(cs: seq<Class>, i: nat): int { FirstFrom(cs, i, 0) }

  lemma SortedStages(cs: seq<Class>) returns (last: nat)
    ensures last <= |cs| && Quiet(cs, last)
    ensures Sorted(cs) == Behind(cs, last)
  {
    FirstRound(cs, 0);
    assert cs[0..] == cs;
    LeftShort(cs, 0, 0);
    last := RoundsFrom(cs, 0);
  }

  lemma {:induction false} LeftShort(cs: seq<Class>, k: nat, p: nat)
    requires p <= |cs|
    ensures |Left(cs, k, p)| <= |cs| - p
    decreases |cs| - p
  {
    if p < |cs| { LeftShort(cs, k, p + 1); }
  }

  lemma OutByRound(cs: seq<Class>, k: nat, i: nat)
    ensures OutBy(cs, k, i) <==> 0 <= RoundOf(cs, i) <= k
  {
    if OutBy(cs, k, i) {
      var last := SortedStages(cs);
      if k > last {
        Settled(cs, last, k, i);
      }
    } else if 0 <= RoundOf(cs, i) <= k {
      OutLater(cs, RoundOf(cs, i), k, i);
    }
  }

  /** The sorted classes are the list by round and then by position; the others are given up in order. */
  lemma SortedByRound(cs: seq<Class>)
    ensures Sorted(cs) == Behind(cs, |cs|)
  {
    var last := SortedStages(cs);
    SettledOrder(cs, last, |cs|);
    SettledLeft(cs, last, |cs|, 0);
  }

  /** The class at j comes out before the one at i. */
  ghost predicate Sooner(cs: seq<Class>, j: nat, i: nat) {
    0 <= RoundOf(cs, j) && (RoundOf(cs, j) < RoundOf(cs, i) || (RoundOf(cs, j) == RoundOf(cs, i) && j < i))
  }

  /** The round that a dependency asks for: 1 if it has round 0, its round if it is listed before, one more
      if it is listed behind. */
  function Weight(round: int, before: bool): int {
    if round == 0 then 1 else if before then round else round + 1
  }

  ghost predicate ProvidedBy(cs: seq<Class>, i: nat, k: nat, name: string) {
    exists j: nat :: j < |cs| && cs[j].name == name && WithinRound(cs, i, k, j)
  }

  ghost predicate WithinRound(cs: seq<Class>, i: nat, k: nat, j: nat) {
    RoundOf(cs, j) >= 0 && Weight(RoundOf(cs, j), j < i) <= k
  }

  /** A class without dependencies has round 0; else its round is the largest that a dependency asks for. */
  lemma RoundIsLargest(cs: seq<Class>, i: nat, k: nat)
    requires i < |cs|
    ensures RoundOf(cs, i) == 0 <==> Deps(cs, i) == []
    ensures k > 0 && Deps(cs, i) != [] ==>
              (0 <= RoundOf(cs, i) <= k <==> forall x :: 0 <= x < |Deps(cs, i)| ==> ProvidedBy(cs, i, k, Deps(cs, i)[x]))
  {
    OutByRound(cs, 0, i);
    OutByRound(cs, k, i);
    if k > 0 {
      forall name
        ensures Available(cs, k - 1, i, name) <==> ProvidedBy(cs, i, k, name)
      {
        ProvidedInTime(cs, i, k, name);
      }
    }
  }

  lemma ProvidedInTime(cs: seq<Class>, i: nat, k: nat, name: string)
    requires k > 0
    ensures Available(cs, k - 1, i, name) <==> ProvidedBy(cs, i, k, name)
  {
    forall j: nat
      ensures Before(cs, k - 1, i, j) <==> WithinRound(cs, i, k, j)
    {
      OutByRound(cs, k - 1, j);
      OutByRound(cs, k, j);
    }
  }

  // ---------------------------------------------------------------- the order of the output

  /** Ascending by round and position. */
  ghost predicate Ascending(cs: seq<Class>, ix: seq<nat>) {
    forall p, q :: 0 <= p < q < |ix| ==> Sooner(cs, ix[p], ix[q])
  }

  lemma {:induction false} StageAscending(cs: seq<Class>, k: nat, p: nat)
    ensures Ascending(cs, Stage(cs, k, p))
    ensures forall q :: 0 <= q < |Stage(cs, k, p)| ==> RoundOf(cs, Stage(cs, k, p)[q]) == k
    decreases |cs| - p
  {
    if p < |cs| {
      StageAscending(cs, k, p + 1);
      if NewAt(cs, k, p) {
        StageRound(cs, k, p);
        StageBehind(cs, k, p + 1);
      }
    }
  }

  lemma StageRound(cs: seq<Class>, k: nat, i: nat)
    requires NewAt(cs, k, i)
    ensures RoundOf(cs, i) == k
  {
    OutByRound(cs, k, i);
    if k > 0 { OutByRound(cs, k - 1, i); }
  }

  lemma StageBehind(cs: seq<Class>, k: nat, p: nat)
    ensures forall q :: 0 <= q < |Stage(cs, k, p)| ==> Stage(cs, k, p)[q] >= p
  {
    forall q | 0 <= q < |Stage(cs, k, p)|
      ensures Stage(cs, k, p)[q] >= p
    {
      StageMember(cs, k, p, Stage(cs, k, p)[q]);
    }
  }

  lemma {:induction false} OrderAscending(cs: seq<Class>, k: nat)
    ensures Ascending(cs, Order(cs, k))
  {
    StageAscending(cs, k, 0);
    if k > 0 {
      OrderAscending(cs, k - 1);
      var a, b := Order(cs, k - 1), Stage(cs, k, 0);
      forall p | 0 <= p < |a|
        ensures 0 <= RoundOf(cs, a[p]) < k
      {
        OrderMember(cs, k - 1, a[p]);
        OutByRound(cs, k - 1, a[p]);
      }
      AscendingConcat(cs, a, b, k);
    }
  }

  lemma AscendingConcat(cs: seq<Class>, a: seq<nat>, b: seq<nat>, k: nat)
    requires Ascending(cs, a) && forall p :: 0 <= p < |a| ==> 0 <= RoundOf(cs, a[p]) < k
    requires Ascending(cs, b) && forall p :: 0 <= p < |b| ==> RoundOf(cs, b[p]) == k
    ensures Ascending(cs, a + b)
  {
  }

  /** ix lists each position that has a round once, ascending, and no other. */
  ghost predicate Lists(cs: seq<Class>, ix: seq<nat>) {
    Ascending(cs, ix) && forall i: nat :: i in ix <==> RoundOf(cs, i) >= 0
  }

  lemma OrderOfOutput(cs: seq<Class>)
    ensures Lists(cs, Order(cs, |cs|))
  {
    OrderAscending(cs, |cs|);
    forall i: nat
      ensures i in Order(cs, |cs|) <==> RoundOf(cs, i) >= 0
    {
      OrderHas(cs, i);
    }
  }

  lemma OrderHas(cs: seq<Class>, i: nat)
    ensures i in Order(cs, |cs|) <==> RoundOf(cs, i) >= 0
  {
    OrderMember(cs, |cs|, i);
    OutByRound(cs, |cs|, i);
  }

  // ---------------------------------------------------------------- base classes

  /** Every listed base of the class at i comes out before it. */
  ghost predicate BasesSooner(cs: seq<Class>, i: nat)
    requires i < |cs|
  {
    forall b :: b in cs[i].baseClasses && b in Names(cs) ==> NamedSooner(cs, b, i)
  }

  ghost predicate NamedSooner(cs: seq<Class>, name: string, i: nat) {
    exists j: nat :: j < |cs| && cs[j].name == name && Sooner(cs, j, i)
  }

  lemma NamedBefore(cs: seq<Class>, ix: seq<nat>, p: nat, name: string)
    requires Positions(cs, ix) && p < |ix| && Lists(cs, ix) && name in Names(Pick(cs, ix)[..p])
    ensures NamedSooner(cs, name, ix[p])
  {
    var names := Names(Pick(cs, ix)[..p]);
    var q :| 0 <= q < |names| && names[q] == name;
    assert cs[ix[q]].name == name && Sooner(cs, ix[q], ix[p]);
  }

  lemma SoonerIsBefore(cs: seq<Class>, ix: seq<nat>, p: nat, j: nat)
    requires Positions(cs, ix) && p < |ix| && Lists(cs, ix) && j < |cs| && Sooner(cs, j, ix[p])
    ensures cs[j].name in Names(Pick(cs, ix)[..p])
  {
    assert j in ix;
    var q :| 0 <= q < |ix| && ix[q] == j;
    assert !Sooner(cs, ix[p], j);
    assert q < p;
    assert Names(Pick(cs, ix)[..p])[q] == cs[j].name;
  }

  /** The promise that base classes come first, for every list: it holds if and only if every listed base of
      every class that is not given up has a smaller round, or the same round and a smaller position. */
  lemma BasesFirstExactly(cs: seq<Class>)
    ensures BasesFirst(Sorted(cs).out, Names(cs))
       <==> forall i: nat :: i < |cs| && RoundOf(cs, i) >= 0 ==> BasesSooner(cs, i)
  {
    SortedByRound(cs);
    OrderOfOutput(cs);
    BasesByPosition(cs, Order(cs, |cs|));
  }

  lemma BasesByPosition(cs: seq<Class>, ix: seq<nat>)
    requires Positions(cs, ix) && Lists(cs, ix)
    ensures BasesFirst(Pick(cs, ix), Names(cs))
       <==> forall i: nat :: i < |cs| && RoundOf(cs, i) >= 0 ==> BasesSooner(cs, i)
  {
    var out := Pick(cs, ix);
    forall p | 0 <= p < |ix|
      ensures BasesIn(out[p], Names(out[..p]), Names(cs)) <==> BasesSooner(cs, ix[p])
    {
      forall b
        ensures b in Names(out[..p]) <==> NamedSooner(cs, b, ix[p])
      {
        if b in Names(out[..p]) { NamedBefore(cs, ix, p, b); }
        if NamedSooner(cs, b, ix[p]) {
          var j: nat :| j < |cs| && cs[j].name == b && Sooner(cs, j, ix[p]);
          SoonerIsBefore(cs, ix, p, j);
        }
      }
    }
  }
}
