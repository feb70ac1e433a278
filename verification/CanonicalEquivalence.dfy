/** Normalization form D as the result of rewriting: code points are replaced by their mappings one at a time
    and marks are exchanged one pair at a time, in any order. The form that utf8proc computes is the one text
    without a further step that can be reached. */
module CanonicalEquivalence {
  import opened Sequences
  import opened Utf8
  import opened UnicodeTable
  import opened CanonicalOrder
  import opened Decomposing
  import opened Normalization
  import opened Wrappers

  /** The table, or for syllables the arithmetic of the Unicode Standard, replaces uc by m. */
  ghost predicate MapsTo(t: Table, compat: bool, uc: int, m: seq<int>) {
    if IsHangulS(uc) then m == HangulJamo(uc)
    else t.property(uc).decompMapping == Some(m) && (compat || t.property(uc).decompType == 0)
  }

  ghost predicate Stays(t: Table, compat: bool, uc: int) {
    !IsHangulS(uc) && (t.property(uc).decompMapping.Some? ==> !compat && t.property(uc).decompType != 0)
  }

  ghost predicate Expands(t: Table, compat: bool, x: seq<int>, y: seq<int>, i: int, m: seq<int>) {
    0 <= i < |x| && MapsTo(t, compat, x[i], m) && y == x[..i] + m + x[i + 1..]
  }

  /** Two marks that do not decompose, the first of the higher class, change places. */
  ghost predicate Exchanges(t: Table, compat: bool, x: seq<int>, y: seq<int>, i: int) {
    && 0 <= i < |x| - 1 && Stays(t, compat, x[i]) && Stays(t, compat, x[i + 1])
    && t.property(x[i]).combiningClass > t.property(x[i + 1]).combiningClass > 0
    && y == x[..i] + [x[i + 1], x[i]] + x[i + 2..]
  }

  ghost predicate Rewrites(t: Table, compat: bool, x: seq<int>, y: seq<int>) {
    || (exists i, m :: Expands(t, compat, x, y, i, m))
    || (exists i :: Exchanges(t, compat, x, y, i))
  }

  // ---------------------------------------------------------------- runs of steps

  type Relation = (seq<int>, seq<int>) -> bool

  /** y is reached from x in n steps. */
  ghost predicate Linked(r: Relation, x: seq<int>, y: seq<int>, n: nat)
    decreases n
  {
    if n == 0 then x == y else exists z :: r(x, z) && Linked(r, z, y, n - 1)
  }

  lemma {:induction false} LinkedThen(r: Relation, x: seq<int>, y: seq<int>, z: seq<int>, n: nat, k: nat)
    requires Linked(r, x, y, n) && Linked(r, y, z, k)
    ensures Linked(r, x, z, n + k)
    decreases n
  {
    if n > 0 {
      var w :| r(x, w) && Linked(r, w, y, n - 1);
      LinkedThen(r, w, y, z, n - 1, k);
    }
  }

  /** What every step keeps, every run keeps. */
  lemma {:induction false} LinkedKeeps(r: Relation, p: seq<int> -> bool, x: seq<int>, y: seq<int>, n: nat)
    requires Linked(r, x, y, n) && p(x) && forall a, b :: r(a, b) && p(a) ==> p(b)
    ensures p(y)
    decreases n
  {
    if n > 0 {
      var z :| r(x, z) && Linked(r, z, y, n - 1);
      LinkedKeeps(r, p, z, y, n - 1);
    }
  }

  /** A run within a context is a run. */
  lemma {:induction false} LinkedInside(r: Relation, f: seq<int> -> seq<int>, x: seq<int>, y: seq<int>, n: nat)
    requires Linked(r, x, y, n) && forall a, b {:trigger f(a), f(b)} :: r(a, b) ==> r(f(a), f(b))
    ensures Linked(r, f(x), f(y), n)
    decreases n
  {
    if n > 0 {
      var z :| r(x, z) && Linked(r, z, y, n - 1);
      LinkedInside(r, f, z, y, n - 1);
      assert r(f(x), f(z));
    }
  }

  ghost function Rewriting(t: Table, compat: bool): Relation {
    (x, y) => Rewrites(t, compat, x, y)
  }

  ghost predicate Reaches(t: Table, compat: bool, x: seq<int>, y: seq<int>) {
    exists n: nat :: Linked(Rewriting(t, compat), x, y, n)
  }

  // ---------------------------------------------------------------- a step keeps the form

  lemma MapsToFull(t: Table, compat: bool, uc: int, m: seq<int>)
    requires t.Valid() && InRange(uc) && MapsTo(t, compat, uc, m)
    ensures AllValid(m) && AllInRange(m) && All(t, compat, m) == Full(t, compat, uc)
  {
    if IsHangulS(uc) {
      FullDecomposed(t, compat, uc);
      DecomposedIsAll(t, compat, m);
    } else {
      assert t.MapsDown(uc, m);
      FullEachIsAll(t, compat, m, t.depth(uc));
    }
  }

  lemma AllThree(t: Table, compat: bool, p: seq<int>, m: seq<int>, q: seq<int>)
    requires t.MappingsDescend() && AllInRange(p) && AllInRange(m) && AllInRange(q)
    ensures AllInRange(p + m + q)
    ensures All(t, compat, p + m + q) == All(t, compat, p) + All(t, compat, m) + All(t, compat, q)
  {
    AllConcat(t, compat, p, m);
    AllConcat(t, compat, p + m, q);
  }

  lemma ExpandKeeps(t: Table, compat: bool, x: seq<int>, y: seq<int>, i: int, m: seq<int>)
    requires t.Valid() && AllValid(x) && Expands(t, compat, x, y, i, m)
    ensures AllValid(y) && AllInRange(x) && AllInRange(y) && All(t, compat, x) == All(t, compat, y)
  {
    var p, uc, q := x[..i], x[i], x[i + 1..];
    assert x == p + [uc] + q;
    ReplaceKeeps(t, compat, p, uc, m, q);
  }

  lemma ReplaceKeeps(t: Table, compat: bool, p: seq<int>, uc: int, m: seq<int>, q: seq<int>)
    requires t.Valid() && AllValid(p) && CodepointValid(uc) && AllValid(q) && MapsTo(t, compat, uc, m)
    ensures AllValid(p + m + q) && AllInRange(p + [uc] + q) && AllInRange(p + m + q)
    ensures All(t, compat, p + [uc] + q) == All(t, compat, p + m + q)
  {
    MapsToFull(t, compat, uc, m);
    ValidThree(p, m, q);
    AllThree(t, compat, p, [uc], q);
    AllThree(t, compat, p, m, q);
    AllOfOne(t, compat, uc);
  }

  lemma AllOfOne(t: Table, compat: bool, uc: int)
    requires t.MappingsDescend() && InRange(uc)
    ensures AllInRange([uc]) && All(t, compat, [uc]) == Full(t, compat, uc)
  {
    assert All(t, compat, [uc]) == Full(t, compat, uc) + All(t, compat, []);
  }

  lemma ValidThree(p: seq<int>, m: seq<int>, q: seq<int>)
    requires AllValid(p) && AllValid(m) && AllValid(q)
    ensures AllValid(p + m + q)
  {
  }

  lemma ExchangeKeeps(t: Table, compat: bool, x: seq<int>, y: seq<int>, i: int)
    requires t.Valid() && AllValid(x) && Exchanges(t, compat, x, y, i)
    ensures AllValid(y) && AllInRange(x) && AllInRange(y) && Nfd(t, compat, x) == Nfd(t, compat, y)
  {
    var p, q, a, b := x[..i], x[i + 2..], x[i], x[i + 1];
    assert x == p + [a, b] + q;
    SwapKeeps(t, compat, p, a, b, q);
  }

  lemma PairIsAll(t: Table, compat: bool, a: int, b: int)
    requires t.MappingsDescend() && Terminal(t, compat, a) && Terminal(t, compat, b)
    ensures AllInRange([a, b]) && AllValid([a, b]) && All(t, compat, [a, b]) == [a, b]
  {
    assert Decomposed(t, compat, [a, b]);
    DecomposedIsAll(t, compat, [a, b]);
  }

  lemma SwapKeeps(t: Table, compat: bool, p: seq<int>, a: int, b: int, q: seq<int>)
    requires t.Valid() && AllValid(p) && Terminal(t, compat, a) && Terminal(t, compat, b) && AllValid(q)
    requires Reorderable(ClassesOf(t), a, b)
    ensures AllValid(p + [b, a] + q) && AllInRange(p + [a, b] + q) && AllInRange(p + [b, a] + q)
    ensures Nfd(t, compat, p + [a, b] + q) == Nfd(t, compat, p + [b, a] + q)
  {
    PairIsAll(t, compat, a, b);
    PairIsAll(t, compat, b, a);
    ValidThree(p, [b, a], q);
    AllThree(t, compat, p, [a, b], q);
    AllThree(t, compat, p, [b, a], q);
    CanonicalExchange(ClassesOf(t), All(t, compat, p), a, b, All(t, compat, q));
  }

  lemma RewriteKeeps(t: Table, compat: bool, x: seq<int>, y: seq<int>)
    requires t.Valid() && AllValid(x) && Rewrites(t, compat, x, y)
    ensures AllValid(y) && AllInRange(x) && AllInRange(y) && Nfd(t, compat, x) == Nfd(t, compat, y)
  {
    if i, m :| Expands(t, compat, x, y, i, m) {
      ExpandKeeps(t, compat, x, y, i, m);
    } else {
      var i :| Exchanges(t, compat, x, y, i);
      ExchangeKeeps(t, compat, x, y, i);
    }
  }

  ghost predicate Alike(t: Table, compat: bool, x: seq<int>, y: seq<int>)
    requires t.MappingsDescend() && AllInRange(x)
  {
    AllValid(y) && AllInRange(y) && Nfd(t, compat, x) == Nfd(t, compat, y)
  }

  lemma ReachesKeeps(t: Table, compat: bool, x: seq<int>, y: seq<int>)
    requires t.Valid() && AllValid(x) && Reaches(t, compat, x, y)
    ensures AllInRange(x) && Alike(t, compat, x, y)
  {
    var r := Rewriting(t, compat);
    var n: nat :| Linked(r, x, y, n);
    var p := (z: seq<int>) => AllInRange(x) && Alike(t, compat, x, z);
    forall a, b | r(a, b) && p(a)
      ensures p(b)
    {
      RewriteKeeps(t, compat, a, b);
    }
    LinkedKeeps(r, p, x, y, n);
  }

  // ---------------------------------------------------------------- where no step is left

  ghost predicate Irreducible(t: Table, compat: bool, x: seq<int>) {
    forall y :: !Rewrites(t, compat, x, y)
  }

  /** No step is left exactly in a decomposed text with ordered marks, which is its own form. */
  lemma IrreducibleIsFixed(t: Table, compat: bool, x: seq<int>)
    requires t.Valid() && AllValid(x)
    ensures AllInRange(x) && (Irreducible(t, compat, x) <==> Nfd(t, compat, x) == x)
  {
    if Irreducible(t, compat, x) {
      IrreducibleDecomposed(t, compat, x);
      IrreducibleOrdered(t, compat, x);
      NfdFixed(t, compat, x);
    }
    if Nfd(t, compat, x) == x {
      NfdDecomposed(t, compat, x);
      DecomposedIrreducible(t, compat, x);
    }
  }

  lemma ExpandStep(t: Table, compat: bool, x: seq<int>, i: nat, m: seq<int>)
    requires i < |x| && MapsTo(t, compat, x[i], m)
    ensures Rewrites(t, compat, x, x[..i] + m + x[i + 1..])
  {
    assert Expands(t, compat, x, x[..i] + m + x[i + 1..], i, m);
  }

  lemma ExchangeStep(t: Table, compat: bool, x: seq<int>, i: nat)
    requires i < |x| - 1 && Stays(t, compat, x[i]) && Stays(t, compat, x[i + 1])
    requires t.property(x[i]).combiningClass > t.property(x[i + 1]).combiningClass > 0
    ensures Rewrites(t, compat, x, x[..i] + [x[i + 1], x[i]] + x[i + 2..])
  {
    assert Exchanges(t, compat, x, x[..i] + [x[i + 1], x[i]] + x[i + 2..], i);
  }

  lemma IrreducibleDecomposed(t: Table, compat: bool, x: seq<int>)
    requires AllValid(x) && Irreducible(t, compat, x)
    ensures Decomposed(t, compat, x)
  {
    forall i | 0 <= i < |x|
      ensures Terminal(t, compat, x[i])
    {
      if !Terminal(t, compat, x[i]) {
        var m := if IsHangulS(x[i]) then HangulJamo(x[i]) else t.property(x[i]).decompMapping.value;
        ExpandStep(t, compat, x, i, m);
      }
    }
  }

  lemma IrreducibleOrdered(t: Table, compat: bool, x: seq<int>)
    requires Decomposed(t, compat, x) && Irreducible(t, compat, x)
    ensures Ordered(ClassesOf(t), x)
  {
    forall i | 0 <= i < |x| - 1
      ensures !Reorderable(ClassesOf(t), x[i], x[i + 1])
    {
      if Reorderable(ClassesOf(t), x[i], x[i + 1]) {
        assert Terminal(t, compat, x[i]) && Terminal(t, compat, x[i + 1]);
        ExchangeStep(t, compat, x, i);
      }
    }
  }

  lemma DecomposedIrreducible(t: Table, compat: bool, x: seq<int>)
    requires Decomposed(t, compat, x) && Ordered(ClassesOf(t), x)
    ensures Irreducible(t, compat, x)
  {
    forall y
      ensures !Rewrites(t, compat, x, y)
    {
      forall i, m ensures !Expands(t, compat, x, y, i, m) {
        assert 0 <= i < |x| ==> Terminal(t, compat, x[i]);
      }
      forall i ensures !Exchanges(t, compat, x, y, i) {
        assert 0 <= i < |x| - 1 ==> !Reorderable(ClassesOf(t), x[i], x[i + 1]);
      }
    }
  }

  // ---------------------------------------------------------------- the form is reached

  lemma ReachesThen(t: Table, compat: bool, x: seq<int>, y: seq<int>, z: seq<int>)
    requires Reaches(t, compat, x, y) && Reaches(t, compat, y, z)
    ensures Reaches(t, compat, x, z)
  {
    var r := Rewriting(t, compat);
    var n: nat :| Linked(r, x, y, n);
    var k: nat :| Linked(r, y, z, k);
    LinkedThen(r, x, y, z, n, k);
  }

  lemma ReachesSelf(t: Table, compat: bool, x: seq<int>)
    ensures Reaches(t, compat, x, x)
  {
    assert Linked(Rewriting(t, compat), x, x, 0);
  }

  lemma StepReaches(t: Table, compat: bool, x: seq<int>, y: seq<int>)
    requires Rewrites(t, compat, x, y)
    ensures Reaches(t, compat, x, y)
  {
    var r := Rewriting(t, compat);
    assert r(x, y) && Linked(r, y, y, 0);
    assert Linked(r, x, y, 1);
  }

  lemma RewriteInside(t: Table, compat: bool, p: seq<int>, x: seq<int>, y: seq<int>, q: seq<int>)
    requires Rewrites(t, compat, x, y)
    ensures Rewrites(t, compat, p + x + q, p + y + q)
  {
    if i, m :| Expands(t, compat, x, y, i, m) {
      ExpandInside(t, compat, p, x, y, q, i, m);
    } else {
      var i :| Exchanges(t, compat, x, y, i);
      ExchangeInside(t, compat, p, x, y, q, i);
    }
  }

  lemma Around(p: seq<int>, a: seq<int>, m: seq<int>, b: seq<int>, q: seq<int>)
    ensures p + (a + m + b) + q == (p + a) + m + (b + q)
  {
  }

  lemma ExpandInside(t: Table, compat: bool, p: seq<int>, x: seq<int>, y: seq<int>, q: seq<int>, i: int, m: seq<int>)
    requires Expands(t, compat, x, y, i, m)
    ensures Rewrites(t, compat, p + x + q, p + y + q)
  {
    var w, j := p + x + q, |p| + i;
    assert w[j] == x[i] && w[..j] == p + x[..i] && w[j + 1..] == x[i + 1..] + q;
    ExpandStep(t, compat, w, j, m);
    Around(p, x[..i], m, x[i + 1..], q);
  }

  lemma ExchangeInside(t: Table, compat: bool, p: seq<int>, x: seq<int>, y: seq<int>, q: seq<int>, i: int)
    requires Exchanges(t, compat, x, y, i)
    ensures Rewrites(t, compat, p + x + q, p + y + q)
  {
    var w, j := p + x + q, |p| + i;
    assert w[j] == x[i] && w[j + 1] == x[i + 1] && w[..j] == p + x[..i] && w[j + 2..] == x[i + 2..] + q;
    ExchangeStep(t, compat, w, j);
    Around(p, x[..i], [x[i + 1], x[i]], x[i + 2..], q);
  }

  lemma ReachesInside(t: Table, compat: bool, p: seq<int>, x: seq<int>, y: seq<int>, q: seq<int>)
    requires Reaches(t, compat, x, y)
    ensures Reaches(t, compat, p + x + q, p + y + q)
  {
    var r := Rewriting(t, compat);
    var f := (z: seq<int>) => p + z + q;
    var n: nat :| Linked(r, x, y, n);
    forall a, b | r(a, b)
      ensures r(f(a), f(b))
    {
      RewriteInside(t, compat, p, a, b, q);
    }
    LinkedInside(r, f, x, y, n);
    assert Linked(r, p + x + q, p + y + q, n);
  }

  lemma ReachesFront(t: Table, compat: bool, x: seq<int>, y: seq<int>, q: seq<int>)
    requires Reaches(t, compat, x, y)
    ensures Reaches(t, compat, x + q, y + q)
  {
    ReachesInside(t, compat, [], x, y, q);
    assert [] + x == x && [] + y == y;
  }

  lemma ReachesBack(t: Table, compat: bool, p: seq<int>, x: seq<int>, y: seq<int>)
    requires Reaches(t, compat, x, y)
    ensures Reaches(t, compat, p + x, p + y)
  {
    ReachesInside(t, compat, p, x, y, []);
    assert p + x + [] == p + x && p + y + [] == p + y;
  }

  /** A text is rewritten front to back. */
  lemma ReachesBoth(t: Table, compat: bool, x: seq<int>, y: seq<int>, v: seq<int>, w: seq<int>)
    requires Reaches(t, compat, x, y) && Reaches(t, compat, v, w)
    ensures Reaches(t, compat, x + v, y + w)
  {
    ReachesFront(t, compat, x, y, v);
    ReachesBack(t, compat, y, v, w);
    ReachesThen(t, compat, x + v, y + v, y + w);
  }

  lemma {:induction false} FullReached(t: Table, compat: bool, uc: int)
    requires t.MappingsDescend() && InRange(uc)
    ensures Reaches(t, compat, [uc], Full(t, compat, uc))
    decreases t.depth(uc), 1, 0
  {
    if IsHangulS(uc) {
      OneReaches(t, compat, uc, HangulJamo(uc));
    } else if CanonicalMapping(t, compat, uc).Some? {
      var m := CanonicalMapping(t, compat, uc).value;
      assert t.MapsDown(uc, m);
      OneReaches(t, compat, uc, m);
      FullEachReached(t, compat, m, t.depth(uc));
      ReachesThen(t, compat, [uc], m, Full(t, compat, uc));
    } else {
      ReachesSelf(t, compat, [uc]);
    }
  }

  lemma OneReaches(t: Table, compat: bool, uc: int, m: seq<int>)
    requires MapsTo(t, compat, uc, m)
    ensures Reaches(t, compat, [uc], m)
  {
    assert [uc][..0] + m + [uc][1..] == m;
    assert Expands(t, compat, [uc], m, 0, m);
    StepReaches(t, compat, [uc], m);
  }

  lemma {:induction false} FullEachReached(t: Table, compat: bool, us: seq<int>, d: nat)
    requires t.MappingsDescend() && forall i :: 0 <= i < |us| ==> InRange(us[i]) && t.depth(us[i]) < d
    ensures Reaches(t, compat, us, FullEach(t, compat, us, d))
    decreases d, 0, |us|
  {
    if us == [] {
      ReachesSelf(t, compat, us);
    } else {
      FullReached(t, compat, us[0]);
      FullEachReached(t, compat, us[1..], d);
      Cons(us);
      ReachesBoth(t, compat, [us[0]], Full(t, compat, us[0]), us[1..], FullEach(t, compat, us[1..], d));
    }
  }

  lemma {:induction false} AllReached(t: Table, compat: bool, us: seq<int>)
    requires t.MappingsDescend() && AllInRange(us)
    ensures Reaches(t, compat, us, All(t, compat, us))
  {
    if us == [] {
      ReachesSelf(t, compat, us);
    } else {
      FullReached(t, compat, us[0]);
      AllReached(t, compat, us[1..]);
      Cons(us);
      ReachesBoth(t, compat, [us[0]], Full(t, compat, us[0]), us[1..], All(t, compat, us[1..]));
    }
  }

  lemma PassFirst(t: Table, compat: bool, x: int, s: seq<int>)
    requires Stays(t, compat, x) && Decomposed(t, compat, s) && s != [] && Reorderable(ClassesOf(t), x, s[0])
    ensures Reaches(t, compat, [x] + s, [s[0]] + ([x] + s[1..]))
  {
    var w := [x] + s;
    assert Terminal(t, compat, s[0]);
    ExchangeStep(t, compat, w, 0);
    assert w[..0] + [w[1], w[0]] + w[2..] == [s[0]] + ([x] + s[1..]);
    StepReaches(t, compat, w, [s[0]] + ([x] + s[1..]));
  }

  lemma {:induction false} InsertReached(t: Table, compat: bool, x: int, s: seq<int>)
    requires Stays(t, compat, x) && Decomposed(t, compat, s)
    ensures Reaches(t, compat, [x] + s, Insert(ClassesOf(t), x, s))
    decreases |s|
  {
    if s != [] && Reorderable(ClassesOf(t), x, s[0]) {
      var w := [s[0]] + ([x] + s[1..]);
      PassFirst(t, compat, x, s);
      InsertReached(t, compat, x, s[1..]);
      var r := Insert(ClassesOf(t), x, s[1..]);
      ReachesBack(t, compat, [s[0]], [x] + s[1..], r);
      ReachesThen(t, compat, [x] + s, w, [s[0]] + r);
    } else {
      ReachesSelf(t, compat, [x] + s);
    }
  }

  lemma {:induction false} CanonicalReached(t: Table, compat: bool, s: seq<int>)
    requires Decomposed(t, compat, s)
    ensures Reaches(t, compat, s, Canonical(ClassesOf(t), s))
    decreases |s|
  {
    if s == [] {
      ReachesSelf(t, compat, s);
    } else {
      var r := Canonical(ClassesOf(t), s[1..]);
      CanonicalReached(t, compat, s[1..]);
      CanonicalKeeps(t, compat, s[1..]);
      ReachesBack(t, compat, [s[0]], s[1..], r);
      Cons(s);
      assert Terminal(t, compat, s[0]);
      InsertReached(t, compat, s[0], r);
      ReachesThen(t, compat, s, [s[0]] + r, Canonical(ClassesOf(t), s));
    }
  }

  // ---------------------------------------------------------------- the theorems

  /** The form is the one text without a further step that rewriting reaches, whichever steps are taken. */
  lemma NfdUnique(t: Table, compat: bool, x: seq<int>, y: seq<int>)
    requires t.Valid() && AllValid(x)
    ensures AllInRange(x)
    ensures Reaches(t, compat, x, y) && Irreducible(t, compat, y) <==> y == Nfd(t, compat, x)
  {
    if Reaches(t, compat, x, y) && Irreducible(t, compat, y) {
      ReachesKeeps(t, compat, x, y);
      IrreducibleIsFixed(t, compat, y);
    }
    AllReached(t, compat, x);
    AllDecomposed(t, compat, x);
    CanonicalReached(t, compat, All(t, compat, x));
    ReachesThen(t, compat, x, All(t, compat, x), Nfd(t, compat, x));
    NfdDecomposed(t, compat, x);
    DecomposedIrreducible(t, compat, Nfd(t, compat, x));
  }

  /** Two texts have the same form exactly if rewriting can bring them together. */
  lemma NfdDecides(t: Table, compat: bool, x: seq<int>, y: seq<int>)
    requires t.Valid() && AllValid(x) && AllValid(y)
    ensures AllInRange(x) && AllInRange(y)
    ensures Nfd(t, compat, x) == Nfd(t, compat, y) <==>
            exists z :: Reaches(t, compat, x, z) && Reaches(t, compat, y, z)
  {
    NfdUnique(t, compat, x, Nfd(t, compat, x));
    NfdUnique(t, compat, y, Nfd(t, compat, y));
    if z :| Reaches(t, compat, x, z) && Reaches(t, compat, y, z) {
      ReachesKeeps(t, compat, x, z);
      ReachesKeeps(t, compat, y, z);
    }
  }
}
