/** Canonical ordering of combining marks: the back-stepping exchange loop at the end of
    utf8proc_decompose, against the stable sort of section 3.11 of the Unicode Standard. */
module CanonicalOrder {
  import opened Utf8
  import opened CellMemory

  /** A function giving the combining class of a code point; a starter has class 0. */
  type Classes = int -> int

  /** Two neighbours that canonical ordering exchanges. */
  predicate Reorderable(cc: Classes, a: int, b: int) { cc(a) > cc(b) > 0 }

  ghost predicate Ordered(cc: Classes, s: seq<int>) {
    forall i :: 0 <= i < |s| - 1 ==> !Reorderable(cc, s[i], s[i + 1])
  }

  /** Puts x in front of t and moves it right, past the marks it must follow. */
  function Insert(cc: Classes, x: int, t: seq<int>): (r: seq<int>)
    ensures |r| == |t| + 1
  {
    if t != [] && Reorderable(cc, x, t[0]) then [t[0]] + Insert(cc, x, t[1..]) else [x] + t
  }

  /** The reference: insertion sort in which marks never pass a starter. */
  function Canonical(cc: Classes, s: seq<int>): (r: seq<int>)
    ensures |r| == |s|
  {
    if s == [] then [] else Insert(cc, s[0], Canonical(cc, s[1..]))
  }

  /** The marks of class c together with all starters, in order. */
  function Trace(cc: Classes, c: int, s: seq<int>): seq<int> {
    if s == [] then []
    else (if cc(s[0]) == c || cc(s[0]) <= 0 then [s[0]] else []) + Trace(cc, c, s[1..])
  }

  // ---------------------------------------------------------------- the reference

  lemma {:induction false} InsertOrdered(cc: Classes, x: int, t: seq<int>)
    requires Ordered(cc, t)
    ensures Ordered(cc, Insert(cc, x, t))
  {
    if t != [] && Reorderable(cc, x, t[0]) {
      var rest := t[1..];
      assert Ordered(cc, rest) by {
        forall i | 0 <= i < |rest| - 1 ensures !Reorderable(cc, rest[i], rest[i + 1]) {
          assert rest[i] == t[i + 1] && rest[i + 1] == t[i + 2];
        }
      }
      InsertOrdered(cc, x, rest);
      if rest != [] {
        assert !Reorderable(cc, t[0], t[1]);
      }
    }
  }

  lemma {:induction false} CanonicalOrdered(cc: Classes, s: seq<int>)
    ensures Ordered(cc, Canonical(cc, s))
  {
    if s != [] {
      CanonicalOrdered(cc, s[1..]);
      InsertOrdered(cc, s[0], Canonical(cc, s[1..]));
    }
  }

  lemma {:induction false} InsertTrace(cc: Classes, c: int, x: int, t: seq<int>)
    ensures Trace(cc, c, Insert(cc, x, t)) == Trace(cc, c, [x] + t)
  {
    assert ([x] + t)[1..] == t;
    if t != [] && Reorderable(cc, x, t[0]) {
      var rest := t[1..];
      InsertTrace(cc, c, x, rest);
      assert ([x] + rest)[1..] == rest;
      assert ([t[0]] + Insert(cc, x, rest))[1..] == Insert(cc, x, rest);
    }
  }

  /** Canonical ordering is stable: per class and between starters nothing changes its order. */
  lemma {:induction false} CanonicalTrace(cc: Classes, c: int, s: seq<int>)
    ensures Trace(cc, c, Canonical(cc, s)) == Trace(cc, c, s)
  {
    if s != [] {
      CanonicalTrace(cc, c, s[1..]);
      InsertTrace(cc, c, s[0], Canonical(cc, s[1..]));
      assert ([s[0]] + Canonical(cc, s[1..]))[1..] == Canonical(cc, s[1..]);
    }
  }

  /** In an ordered run of marks the classes never decrease. */
  lemma {:induction false} OrderedRun(cc: Classes, s: seq<int>, j: nat)
    requires Ordered(cc, s) && j < |s|
    requires forall i :: 0 <= i <= j ==> cc(s[i]) > 0
    ensures cc(s[0]) <= cc(s[j])
  {
    if j > 0 {
      OrderedRun(cc, s, j - 1);
      assert !Reorderable(cc, s[j - 1], s[j]);
    }
  }

  /** If class c's trace starts with a mark y, then y occurs behind marks of other classes only. */
  lemma {:induction false} TraceHead(cc: Classes, c: int, s: seq<int>) returns (j: nat)
    requires c > 0 && Trace(cc, c, s) != []
    ensures j < |s| && s[j] == Trace(cc, c, s)[0]
    ensures forall i :: 0 <= i < j ==> cc(s[i]) > 0 && cc(s[i]) != c
  {
    if cc(s[0]) == c || cc(s[0]) <= 0 {
      j := 0;
    } else {
      var k := TraceHead(cc, c, s[1..]);
      j := k + 1;
      assert forall i :: 1 <= i < j ==> s[i] == s[1..][i - 1];
    }
  }

  lemma OrderedHead(cc: Classes, a: seq<int>, b: seq<int>)
    requires Ordered(cc, a) && a != [] && b != []
    requires forall c :: Trace(cc, c, a) == Trace(cc, c, b)
    ensures cc(b[0]) > 0 && cc(a[0]) > 0 ==> cc(a[0]) <= cc(b[0])
    ensures cc(b[0]) <= 0 || cc(a[0]) == cc(b[0]) ==> a[0] == b[0]
  {
    var c := cc(b[0]);
    assert Trace(cc, c, b)[0] == b[0];
    if cc(b[0]) > 0 {
      var j := TraceHead(cc, c, a);
      if cc(a[0]) > 0 {
        OrderedRun(cc, a, j);
      }
    } else {
      assert Trace(cc, cc(a[0]), b)[0] == b[0];
      assert Trace(cc, cc(a[0]), a)[0] == a[0];
    }
  }

  /** Uniqueness: an ordered sequence is determined by its traces, so the stable sort of the runs
      between starters is the only ordered rearrangement that keeps them. */
  lemma {:induction false} OrderedUnique(cc: Classes, a: seq<int>, b: seq<int>)
    requires Ordered(cc, a) && Ordered(cc, b)
    requires forall c :: Trace(cc, c, a) == Trace(cc, c, b)
    ensures a == b
  {
    if a == [] || b == [] {
      if a != [] {
        assert Trace(cc, cc(a[0]), a) != Trace(cc, cc(a[0]), b);
      } else if b != [] {
        assert Trace(cc, cc(b[0]), a) != Trace(cc, cc(b[0]), b);
      }
    } else {
      OrderedHead(cc, a, b);
      OrderedHead(cc, b, a);
      assert a[0] == b[0];
      OrderedTail(cc, a);
      OrderedTail(cc, b);
      forall c ensures Trace(cc, c, a[1..]) == Trace(cc, c, b[1..]) {
        var h := if cc(a[0]) == c || cc(a[0]) <= 0 then [a[0]] else [];
        assert Trace(cc, c, a) == Trace(cc, c, b);
        assert Trace(cc, c, a)[|h|..] == Trace(cc, c, a[1..]);
        assert Trace(cc, c, b)[|h|..] == Trace(cc, c, b[1..]);
      }
      OrderedUnique(cc, a[1..], b[1..]);
      assert a == [a[0]] + a[1..] && b == [b[0]] + b[1..];
    }
  }

  lemma OrderedTail(cc: Classes, s: seq<int>)
    requires Ordered(cc, s) && s != []
    ensures Ordered(cc, s[1..])
  {
    forall i | 0 <= i < |s[1..]| - 1 ensures !Reorderable(cc, s[1..][i], s[1..][i + 1]) {
      assert !Reorderable(cc, s[i + 1], s[i + 2]);
    }
  }

  /** An ordered sequence is its own canonical ordering. */
  lemma {:induction false} OrderedIsCanonical(cc: Classes, s: seq<int>)
    requires Ordered(cc, s)
    ensures Canonical(cc, s) == s
  {
    if s != [] {
      OrderedTail(cc, s);
      OrderedIsCanonical(cc, s[1..]);
      assert s == [s[0]] + s[1..];
      if |s| > 1 {
        assert !Reorderable(cc, s[0], s[1]);
      }
    }
  }

  /** A starter keeps its index. */
  lemma {:induction false} CanonicalKeepsStarters(cc: Classes, s: seq<int>, i: nat)
    requires i < |s| && cc(s[i]) <= 0
    ensures Canonical(cc, s)[i] == s[i]
  {
    if i > 0 {
      CanonicalKeepsStarters(cc, s[1..], i - 1);
      InsertKeepsStarters(cc, s[0], Canonical(cc, s[1..]), i - 1);
    }
  }

  lemma {:induction false} InsertKeepsStarters(cc: Classes, x: int, t: seq<int>, i: nat)
    requires i < |t| && cc(t[i]) <= 0
    ensures Insert(cc, x, t)[i + 1] == t[i]
  {
    if Reorderable(cc, x, t[0]) {
      InsertKeepsStarters(cc, x, t[1..], i - 1);
    }
  }

  lemma {:induction false} CanonicalPermutes(cc: Classes, s: seq<int>)
    ensures multiset(Canonical(cc, s)) == multiset(s)
  {
    if s != [] {
      CanonicalPermutes(cc, s[1..]);
      InsertPermutes(cc, s[0], Canonical(cc, s[1..]));
      assert s == [s[0]] + s[1..];
    }
  }

  lemma {:induction false} InsertPermutes(cc: Classes, x: int, t: seq<int>)
    ensures multiset(Insert(cc, x, t)) == multiset{x} + multiset(t)
  {
    if t != [] && Reorderable(cc, x, t[0]) {
      InsertPermutes(cc, x, t[1..]);
      assert t == [t[0]] + t[1..];
    }
  }

  // ---------------------------------------------------------------- exchanges

  lemma {:induction false} InsertExchange(cc: Classes, a: int, b: int, t: seq<int>)
    requires Reorderable(cc, a, b)
    ensures Insert(cc, a, Insert(cc, b, t)) == Insert(cc, b, Insert(cc, a, t))
  {
    if t != [] && Reorderable(cc, b, t[0]) {
      var rest := t[1..];
      InsertExchange(cc, a, b, rest);
      assert ([t[0]] + Insert(cc, b, rest))[1..] == Insert(cc, b, rest);
      assert ([t[0]] + Insert(cc, a, rest))[1..] == Insert(cc, a, rest);
    } else {
      assert ([b] + t)[1..] == t;
    }
  }

  /** Exchanging a reorderable pair anywhere leaves the canonical ordering as it was. */
  lemma {:induction false} CanonicalExchange(cc: Classes, p: seq<int>, a: int, b: int, q: seq<int>)
    requires Reorderable(cc, a, b)
    ensures Canonical(cc, p + [a, b] + q) == Canonical(cc, p + [b, a] + q)
  {
    if p == [] {
      var s, s' := [a, b] + q, [b, a] + q;
      assert p + [a, b] + q == s && p + [b, a] + q == s';
      assert s[1..] == [b] + q && s[1..][1..] == q && s'[1..] == [a] + q && s'[1..][1..] == q;
      InsertExchange(cc, a, b, Canonical(cc, q));
    } else {
      CanonicalExchange(cc, p[1..], a, b, q);
      assert (p + [a, b] + q)[1..] == p[1..] + [a, b] + q;
      assert (p + [b, a] + q)[1..] == p[1..] + [b, a] + q;
    }
  }

  // ---------------------------------------------------------------- termination

  /** How many elements of t could be exchanged with an x standing before them. */
  function Above(cc: Classes, x: int, t: seq<int>): nat {
    if t == [] then 0 else (if Reorderable(cc, x, t[0]) then 1 else 0) + Above(cc, x, t[1..])
  }

  /** Pairs, adjacent or not, that stand the wrong way round. */
  function Inversions(cc: Classes, s: seq<int>): nat {
    if s == [] then 0 else Above(cc, s[0], s[1..]) + Inversions(cc, s[1..])
  }

  lemma {:induction false} AboveExchange(cc: Classes, x: int, p: seq<int>, a: int, b: int, q: seq<int>)
    ensures Above(cc, x, p + [a, b] + q) == Above(cc, x, p + [b, a] + q)
  {
    if p == [] {
      var s, s' := [a, b] + q, [b, a] + q;
      assert p + [a, b] + q == s && p + [b, a] + q == s';
      assert s[1..] == [b] + q && s[1..][1..] == q && s'[1..] == [a] + q && s'[1..][1..] == q;
    } else {
      AboveExchange(cc, x, p[1..], a, b, q);
      assert (p + [a, b] + q)[1..] == p[1..] + [a, b] + q;
      assert (p + [b, a] + q)[1..] == p[1..] + [b, a] + q;
    }
  }

  lemma {:induction false} InversionsExchange(cc: Classes, p: seq<int>, a: int, b: int, q: seq<int>)
    requires Reorderable(cc, a, b)
    ensures Inversions(cc, p + [b, a] + q) == Inversions(cc, p + [a, b] + q) - 1
  {
    if p == [] {
      var s, s' := [a, b] + q, [b, a] + q;
      assert p + [a, b] + q == s && p + [b, a] + q == s';
      assert s[1..] == [b] + q && s[1..][1..] == q && s'[1..] == [a] + q && s'[1..][1..] == q;
    } else {
      InversionsExchange(cc, p[1..], a, b, q);
      AboveExchange(cc, p[0], p[1..], a, b, q);
      assert (p + [a, b] + q)[1..] == p[1..] + [a, b] + q;
      assert (p + [b, a] + q)[1..] == p[1..] + [b, a] + q;
    }
  }

  lemma ExchangeAt(cc: Classes, s: seq<int>, pos: nat)
    requires pos + 1 < |s| && Reorderable(cc, s[pos], s[pos + 1])
    ensures var s' := s[pos := s[pos + 1]][pos + 1 := s[pos]];
            && Canonical(cc, s') == Canonical(cc, s)
            && Inversions(cc, s') == Inversions(cc, s) - 1
  {
    var p, a, b, q := s[..pos], s[pos], s[pos + 1], s[pos + 2..];
    var s' := s[pos := b][pos + 1 := a];
    assert s == p + [a, b] + q && s' == p + [b, a] + q;
    CanonicalExchange(cc, p, a, b, q);
    InversionsExchange(cc, p, a, b, q);
  }

  // ---------------------------------------------------------------- the loop

  lemma ExchangeFront(s: seq<int>, z: seq<int>, pos: nat, a: int, b: int)
    requires pos + 1 < |s|
    ensures (s + z)[pos := b][pos + 1 := a] == s[pos := b][pos + 1 := a] + z
  {
  }

  method ExchangeCells(mem: array<byte>, pos: nat, uc1: int, uc2: int)
    requires 4 * pos + 8 <= mem.Length && IsInt32(uc1) && IsInt32(uc2)
    modifies mem
    ensures Cells(mem[..]) == old(Cells(mem[..]))[pos := uc2][pos + 1 := uc1]
  {
    Store(mem, pos, uc2);
    Store(mem, pos + 1, uc1);
  }

  /** The ordering loop over the first wpos cells of the buffer. */
  method Reorder(cc: Classes, mem: array<byte>, wpos: nat)
    requires 4 * wpos <= mem.Length
    modifies mem
    ensures Cells(mem[..])[..wpos] == Canonical(cc, old(Cells(mem[..]))[..wpos])
    ensures forall i :: wpos <= i < mem.Length / 4 ==> Cells(mem[..])[i] == old(Cells(mem[..]))[i]
  {
    ghost var s0 := Cells(mem[..]);
    ghost var s := s0[..wpos];
    assert s0 == s + s0[wpos..];
    var pos := 0;
    while pos < wpos - 1
      invariant 0 <= pos && (pos < wpos || pos == 0)
      invariant Cells(mem[..]) == s + s0[wpos..]
      invariant |s| == wpos && Canonical(cc, s) == Canonical(cc, s0[..wpos])
      invariant forall i :: 0 <= i < pos ==> !Reorderable(cc, s[i], s[i + 1])
      decreases Inversions(cc, s), wpos - pos
    {
      var uc1 := Load(mem, pos);
      var uc2 := Load(mem, pos + 1);
      assert uc1 == s[pos] && uc2 == s[pos + 1];
      if cc(uc1) > cc(uc2) && cc(uc2) > 0 {
        ExchangeAt(cc, s, pos);
        ExchangeFront(s, s0[wpos..], pos, uc1, uc2);
        ExchangeCells(mem, pos, uc1, uc2);
        s := s[pos := uc2][pos + 1 := uc1];
        if pos > 0 { pos := pos - 1; } else { pos := pos + 1; }
      } else {
        pos := pos + 1;
      }
    }
    OrderedIsCanonical(cc, s);
  }
}
