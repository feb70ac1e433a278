/** The composition pass of utf8proc_reencode: what it computes, that it keeps canonical equivalence
    except for one code point, and that normalization forms C and KC are therefore stable. */
module Composition {
  import opened Sequences
  import opened Utf8
  import opened CellMemory
  import opened UnicodeTable
  import opened CanonicalOrder
  import opened Decomposing
  import opened Normalization
  import opened Wrappers

  /** The single code point that replaces a starter a and a later b, if there is one. */
  function Composite(t: Table, stable: bool, a: int, b: int): Option<int> {
    if IsHangulL(a) && IsHangulV(b) then
      Some(HANGUL_SBASE + ((a - HANGUL_LBASE) * HANGUL_VCOUNT + (b - HANGUL_VBASE)) * HANGUL_TCOUNT)
    else if IsHangulLV(a) && IsHangulT(b) then
      Some(a + (b - HANGUL_TBASE))
    else
      var c := t.Combination(a, b);
      if c >= 0 && !(stable && t.property(c).compExclusion) then Some(c) else None
  }

  /** Text composed so far, the index of the last starter in it (-1 before the first), and the highest
      class of the marks kept behind that starter (-1 if none). */
  datatype State = State(out: seq<int>, starter: int, maxcc: int)

  const START := State([], -1, -1)

  predicate Composes(t: Table, stable: bool, st: State, uc: int) {
    && 0 <= st.starter < |st.out| && t.property(uc).combiningClass > st.maxcc
    && Composite(t, stable, st.out[st.starter], uc).Some?
  }

  function Append(t: Table, st: State, uc: int): State {
    var cc := t.property(uc).combiningClass;
    if cc != 0 then State(st.out + [uc], st.starter, if cc > st.maxcc then cc else st.maxcc)
    else State(st.out + [uc], |st.out|, -1)
  }

  function Step(t: Table, stable: bool, st: State, uc: int): State {
    if Composes(t, stable, st, uc)
    then st.(out := st.out[st.starter := Composite(t, stable, st.out[st.starter], uc).value])
    else Append(t, st, uc)
  }

  function Fold(t: Table, stable: bool, us: seq<int>): (st: State)
    ensures -1 <= st.starter < |st.out| <= |us|
  {
    if us == [] then START else Step(t, stable, Fold(t, stable, us[..|us| - 1]), us[|us| - 1])
  }

  lemma FoldStep(t: Table, stable: bool, us: seq<int>, uc: int)
    ensures Fold(t, stable, us + [uc]) == Step(t, stable, Fold(t, stable, us), uc)
  {
    assert (us + [uc])[..|us|] == us;
  }

  function StepAll(t: Table, stable: bool, st: State, us: seq<int>): State
    decreases |us|
  {
    if us == [] then st else StepAll(t, stable, Step(t, stable, st, us[0]), us[1..])
  }

  lemma {:induction false} FoldConcat(t: Table, stable: bool, us: seq<int>, vs: seq<int>)
    ensures Fold(t, stable, us + vs) == StepAll(t, stable, Fold(t, stable, us), vs)
    decreases |vs|
  {
    if vs == [] {
      assert us + vs == us;
    } else {
      FoldStep(t, stable, us, vs[0]);
      FoldConcat(t, stable, us + [vs[0]], vs[1..]);
      Cons(vs);
      Associative(us, [vs[0]], vs[1..]);
    }
  }

  function ComposeAll(t: Table, stable: bool, us: seq<int>): seq<int> {
    Fold(t, stable, us).out
  }

  // ---------------------------------------------------------------- U+11A7

  /** U+11A7 is a vowel, but the test for trailing consonants lets it through with index 0: behind an
      LV syllable it disappears. Kept is the text without the code points lost in this way. */
  datatype Scan = Scan(kept: seq<int>, tail: Tail)
  datatype Tail = Other | AfterL | AfterLV

  function Kept(us: seq<int>): Scan {
    if us == [] then Scan([], Other)
    else
      var s, uc := Kept(us[..|us| - 1]), us[|us| - 1];
      if s.tail.AfterLV? && uc == HANGUL_TBASE then s
      else Scan(s.kept + [uc],
                if IsHangulL(uc) then AfterL
                else if s.tail.AfterL? && IsHangulV(uc) then AfterLV
                else Other)
  }

  /** A leading consonant, a vowel and U+11A7 in a row. */
  ghost predicate LosesAt(us: seq<int>, i: int) {
    0 <= i && i + 2 < |us| && IsHangulL(us[i]) && IsHangulV(us[i + 1]) && us[i + 2] == HANGUL_TBASE
  }

  ghost predicate Loses(us: seq<int>) {
    exists i :: LosesAt(us, i)
  }

  lemma {:induction false} KeptTail(us: seq<int>)
    ensures |Kept(us).kept| <= |us|
    ensures |Kept(us).kept| == |us| ==> Kept(us).kept == us
    ensures Kept(us).tail.AfterL? <==> |us| >= 1 && IsHangulL(us[|us| - 1])
    ensures |us| >= 2 && IsHangulL(us[|us| - 2]) && IsHangulV(us[|us| - 1]) ==> Kept(us).tail.AfterLV?
    ensures Kept(us).tail.AfterLV? && |Kept(us).kept| == |us| ==>
              |us| >= 2 && IsHangulL(us[|us| - 2]) && IsHangulV(us[|us| - 1])
  {
    if us != [] {
      var h := us[..|us| - 1];
      KeptTail(h);
      assert us == h + [us[|us| - 1]];
      if |us| >= 2 { assert h[|h| - 1] == us[|us| - 2]; }
    }
  }

  /** Something is lost exactly if the three code points occur in a row. */
  lemma {:induction false} KeptAll(us: seq<int>)
    ensures Kept(us).kept == us <==> !Loses(us)
  {
    if us != [] {
      var n := |us| - 1;
      var h := us[..n];
      KeptAll(h);
      KeptTail(h);
      KeptTail(us);
      if Loses(h) {
        var i :| LosesAt(h, i);
        assert LosesAt(us, i);
      } else {
        assert forall i :: LosesAt(us, i) ==> i + 2 == n by {
          forall i | LosesAt(us, i) ensures i + 2 == n {
            if i + 2 < n { assert LosesAt(h, i); }
          }
        }
        if n >= 2 {
          assert h[|h| - 2] == us[n - 2] && h[|h| - 1] == us[n - 1];
          assert LosesAt(us, n - 2) <==> Kept(h).tail.AfterLV? && us[n] == HANGUL_TBASE;
        }
      }
    }
  }

  /** Behind a lost code point stands a vowel; otherwise the last code point is kept. */
  lemma {:induction false} KeptLast(us: seq<int>)
    ensures us != [] ==> Kept(us).kept != []
    ensures var k := Kept(us); k.tail.AfterLV? ==> k.kept != [] && IsHangulV(k.kept[|k.kept| - 1])
    ensures var k := Kept(us); us != [] && !k.tail.AfterLV? ==> k.kept[|k.kept| - 1] == us[|us| - 1]
  {
    if us != [] {
      KeptLast(us[..|us| - 1]);
    }
  }

  lemma {:induction false} KeptDecomposed(t: Table, compat: bool, us: seq<int>)
    requires Decomposed(t, compat, us)
    ensures Decomposed(t, compat, Kept(us).kept)
  {
    if us != [] {
      KeptDecomposed(t, compat, us[..|us| - 1]);
    }
  }

  lemma {:induction false} KeptOrdered(t: Table, us: seq<int>)
    requires t.HangulIsAlgorithmic() && Ordered(ClassesOf(t), us)
    ensures Ordered(ClassesOf(t), Kept(us).kept)
  {
    if us != [] {
      var n := |us| - 1;
      var h, uc := us[..n], us[n];
      var cc := ClassesOf(t);
      assert Ordered(cc, h) by {
        forall i | 0 <= i < n - 1 ensures !Reorderable(cc, h[i], h[i + 1]) {
          assert !Reorderable(cc, us[i], us[i + 1]);
        }
      }
      KeptOrdered(t, h);
      KeptLast(h);
      var s := Kept(h);
      if n > 0 {
        assert !Reorderable(cc, s.kept[|s.kept| - 1], uc) by {
          if !s.tail.AfterLV? { assert !Reorderable(cc, us[n - 1], us[n]); }
        }
      }
      OrderedAppend(cc, s.kept, uc);
    }
  }

  lemma OrderedAppend(cc: Classes, s: seq<int>, uc: int)
    requires Ordered(cc, s) && (s != [] ==> !Reorderable(cc, s[|s| - 1], uc))
    ensures Ordered(cc, s + [uc])
  {
  }

  // ---------------------------------------------------------------- canonical equivalence

  /** Composing undoes decomposing: a composite has the decompositions of its parts. */
  lemma CompositeParts(t: Table, stable: bool, compat: bool, a: int, b: int)
    requires t.Valid() && CodepointValid(a) && Terminal(t, compat, b)
    requires Composite(t, stable, a, b).Some? && !(IsHangulLV(a) && b == HANGUL_TBASE)
    ensures var c := Composite(t, stable, a, b).value;
            && CodepointValid(c) && Full(t, compat, c) == Full(t, compat, a) + [b]
            && !IsHangulL(c) && (IsHangulLV(c) <==> IsHangulL(a) && IsHangulV(b))
  {
    if IsHangulL(a) && IsHangulV(b) {
      CompositeLV(t, compat, a, b);
    } else if IsHangulLV(a) && IsHangulT(b) {
      CompositeLVT(t, compat, a, b);
    } else {
      CombinationParts(t, compat, a, b);
    }
  }

  lemma CompositeLVT(t: Table, compat: bool, a: int, b: int)
    requires t.MappingsDescend() && t.HangulIsAlgorithmic() && IsHangulLV(a) && IsHangulT(b) && b != HANGUL_TBASE
    ensures var c := a + (b - HANGUL_TBASE);
            IsHangulS(c) && !IsHangulLV(c) && Full(t, compat, c) == Full(t, compat, a) + [b]
  {
    JamoOfLVT(a, b);
  }

  lemma CompositeLV(t: Table, compat: bool, a: int, b: int)
    requires t.MappingsDescend() && t.HangulIsAlgorithmic() && IsHangulL(a) && IsHangulV(b)
    ensures var c := HANGUL_SBASE + ((a - HANGUL_LBASE) * HANGUL_VCOUNT + (b - HANGUL_VBASE)) * HANGUL_TCOUNT;
            IsHangulLV(c) && Full(t, compat, c) == Full(t, compat, a) + [b]
  {
    JamoOfLV(a, b);
    assert t.property(a).decompMapping.None?;
    assert Full(t, compat, a) == [a];
  }

  lemma CombinationParts(t: Table, compat: bool, a: int, b: int)
    requires t.Valid() && InRange(a) && Terminal(t, compat, b) && t.Combination(a, b) >= 0
    ensures var c := t.Combination(a, b);
            && CodepointValid(c) && !IsHangulL(c) && !IsHangulS(c)
            && Full(t, compat, c) == Full(t, compat, a) + [b]
  {
    var c := t.Combination(a, b);
    assert t.property(c).decompMapping == Some([a, b]);
    assert t.MapsDown(c, [a, b]);
    assert [a, b][0] == a && [a, b][1] == b;
    FullOfPair(t, compat, a, b, t.depth(c));
  }

  lemma JamoOfLV(a: int, b: int)
    requires IsHangulL(a) && IsHangulV(b)
    ensures var c := HANGUL_SBASE + ((a - HANGUL_LBASE) * HANGUL_VCOUNT + (b - HANGUL_VBASE)) * HANGUL_TCOUNT;
            IsHangulLV(c) && HangulJamo(c) == [a, b]
  {
    var l, v := a - HANGUL_LBASE, b - HANGUL_VBASE;
    var sindex := (l * HANGUL_VCOUNT + v) * HANGUL_TCOUNT;
    assert sindex == l * HANGUL_NCOUNT + v * HANGUL_TCOUNT;
    assert sindex / HANGUL_NCOUNT == l && sindex % HANGUL_NCOUNT == v * HANGUL_TCOUNT;
    assert sindex % HANGUL_TCOUNT == 0;
  }

  lemma JamoOfLVT(a: int, b: int)
    requires IsHangulLV(a) && IsHangulT(b) && b != HANGUL_TBASE
    ensures var c := a + (b - HANGUL_TBASE);
            IsHangulS(c) && !IsHangulLV(c) && HangulJamo(c) == HangulJamo(a) + [b]
  {
    var sindex, ti := a - HANGUL_SBASE, b - HANGUL_TBASE;
    var q := sindex / HANGUL_TCOUNT;
    assert sindex == q * HANGUL_TCOUNT;
    assert (sindex + ti) % HANGUL_TCOUNT == ti && (sindex + ti) / HANGUL_TCOUNT == q;
    assert sindex / HANGUL_NCOUNT == q / HANGUL_VCOUNT;
    assert (sindex + ti) / HANGUL_NCOUNT == q / HANGUL_VCOUNT;
    var l := q / HANGUL_VCOUNT;
    assert sindex % HANGUL_NCOUNT == sindex - l * HANGUL_NCOUNT;
    assert (sindex + ti) % HANGUL_NCOUNT == sindex + ti - l * HANGUL_NCOUNT;
    assert sindex - l * HANGUL_NCOUNT == (q - l * HANGUL_VCOUNT) * HANGUL_TCOUNT;
  }

  lemma FullOfPair(t: Table, compat: bool, a: int, b: int, d: nat)
    requires t.MappingsDescend() && InRange(a) && t.depth(a) < d && t.depth(b) < d
    requires Terminal(t, compat, b)
    ensures InRange(b) && FullEach(t, compat, [a, b], d) == Full(t, compat, a) + [b]
  {
    assert [a, b][1..] == [b] && [b][1..] == [];
    assert FullEach(t, compat, [b], d) == [b];
  }

  /** Moving a mark left over marks of smaller classes does not change the canonical ordering. */
  lemma {:induction false} MoveMark(cc: Classes, p: seq<int>, b: int, mid: seq<int>, z: seq<int>)
    requires forall i :: 0 <= i < |mid| ==> Reorderable(cc, b, mid[i])
    ensures Canonical(cc, p + [b] + mid + z) == Canonical(cc, p + mid + [b] + z)
    decreases |mid|
  {
    if mid == [] {
      assert p + [b] + mid + z == p + mid + [b] + z;
    } else {
      var m, rest := mid[0], mid[1..];
      CanonicalExchange(cc, p, b, m, rest + z);
      assert p + [b] + mid + z == p + [b, m] + (rest + z);
      assert p + [m, b] + (rest + z) == (p + [m]) + [b] + rest + z;
      MoveMark(cc, p + [m], b, rest, z);
      assert (p + [m]) + rest + [b] + z == p + mid + [b] + z;
    }
  }

  /** What the composition state looks like after reading decomposed text: behind the starter only
      undecomposable marks, none above maxcc. */
  ghost predicate Invariant(t: Table, compat: bool, st: State) {
    && -1 <= st.starter < |st.out|
    && AllValid(st.out)
    && (forall i :: st.starter < i < |st.out| ==>
          Terminal(t, compat, st.out[i]) && 0 < t.property(st.out[i]).combiningClass <= st.maxcc)
    && (st.starter >= 0 ==> (st.starter == |st.out| - 1 <==> st.maxcc == -1))
  }

  predicate LastStarterIs(st: State, p: int -> bool) {
    0 <= st.starter == |st.out| - 1 && p(st.out[st.starter])
  }

  /** The last code point is a leading consonant, or a syllable without trailing consonant, exactly
      when the scan says so. */
  ghost predicate TailAgrees(st: State, tail: Tail) {
    && (tail.AfterL? <==> LastStarterIs(st, IsHangulL))
    && (tail.AfterLV? <==> LastStarterIs(st, IsHangulLV))
  }

  lemma AppendInvariant(t: Table, compat: bool, st: State, uc: int)
    requires t.ClassesNonnegative() && Invariant(t, compat, st) && Terminal(t, compat, uc)
    ensures Invariant(t, compat, Append(t, st, uc))
  {
  }

  lemma AppendTail(t: Table, compat: bool, st: State, uc: int, tail: Tail)
    requires t.HangulIsAlgorithmic() && TailAgrees(st, tail) && Terminal(t, compat, uc)
    requires !(tail.AfterL? && IsHangulV(uc))
    ensures TailAgrees(Append(t, st, uc), if IsHangulL(uc) then AfterL else Other)
  {
  }

  /** A U+11A7 that is lost changes nothing. */
  predicate Lost(st: State, uc: int) {
    LastStarterIs(st, IsHangulLV) && uc == HANGUL_TBASE
  }

  lemma LostStep(t: Table, stable: bool, compat: bool, st: State, uc: int)
    requires t.Valid() && Invariant(t, compat, st)
    ensures Lost(st, uc) ==> Composes(t, stable, st, uc) && Step(t, stable, st, uc) == st
    ensures Composes(t, stable, st, uc) && IsHangulLV(st.out[st.starter]) && uc == HANGUL_TBASE ==> Lost(st, uc)
  {
    assert uc == HANGUL_TBASE ==> t.property(uc).combiningClass == 0;
    if 0 <= st.starter < |st.out| - 1 {
      assert t.property(st.out[|st.out| - 1]).combiningClass <= st.maxcc;
    }
  }

  lemma ComposeInvariant(t: Table, stable: bool, compat: bool, st: State, uc: int)
    requires t.Valid() && Invariant(t, compat, st) && Terminal(t, compat, uc)
    requires Composes(t, stable, st, uc) && !Lost(st, uc)
    ensures Invariant(t, compat, Step(t, stable, st, uc))
    ensures TailAgrees(Step(t, stable, st, uc),
                       if LastStarterIs(st, IsHangulL) && IsHangulV(uc) then AfterLV else Other)
  {
    LostStep(t, stable, compat, st, uc);
    CompositeParts(t, stable, compat, st.out[st.starter], uc);
    assert IsHangulV(uc) ==> t.property(uc).combiningClass == 0;
  }

  lemma {:induction false} FoldInvariant(t: Table, stable: bool, compat: bool, us: seq<int>)
    requires t.Valid() && Decomposed(t, compat, us)
    ensures Invariant(t, compat, Fold(t, stable, us)) && TailAgrees(Fold(t, stable, us), Kept(us).tail)
  {
    if us != [] {
      var h, uc := us[..|us| - 1], us[|us| - 1];
      FoldInvariant(t, stable, compat, h);
      StepInvariant(t, stable, compat, Fold(t, stable, h), uc, Kept(h).tail);
    }
  }

  lemma StepInvariant(t: Table, stable: bool, compat: bool, st: State, uc: int, tail: Tail)
    requires t.Valid() && Invariant(t, compat, st) && TailAgrees(st, tail) && Terminal(t, compat, uc)
    ensures Invariant(t, compat, Step(t, stable, st, uc))
    ensures TailAgrees(Step(t, stable, st, uc),
                       if tail.AfterLV? && uc == HANGUL_TBASE then tail
                       else if IsHangulL(uc) then AfterL
                       else if tail.AfterL? && IsHangulV(uc) then AfterLV
                       else Other)
  {
    LostStep(t, stable, compat, st, uc);
    if !Lost(st, uc) {
      if Composes(t, stable, st, uc) {
        ComposeInvariant(t, stable, compat, st, uc);
        NoCompositeOfL(t, stable, st.out[st.starter], uc);
      } else {
        AppendInvariant(t, compat, st, uc);
        LeadingConsonantComposes(t, stable, compat, st, uc);
        AppendTail(t, compat, st, uc, tail);
      }
    }
  }

  lemma NoCompositeOfL(t: Table, stable: bool, a: int, b: int)
    requires t.HangulIsAlgorithmic() && Composite(t, stable, a, b).Some?
    ensures !IsHangulL(b)
  {
  }

  lemma LeadingConsonantComposes(t: Table, stable: bool, compat: bool, st: State, uc: int)
    requires t.HangulIsAlgorithmic() && Invariant(t, compat, st)
    ensures LastStarterIs(st, IsHangulL) && IsHangulV(uc) ==> Composes(t, stable, st, uc)
  {
  }

  /** The marks behind the starter, over which a composing code point is moved. */
  ghost function Marks(st: State): seq<int>
    requires 0 <= st.starter < |st.out|
  {
    st.out[st.starter + 1..]
  }

  lemma MarksPass(t: Table, stable: bool, compat: bool, st: State, uc: int)
    requires Invariant(t, compat, st) && Composes(t, stable, st, uc)
    ensures Decomposed(t, compat, Marks(st))
    ensures forall i :: 0 <= i < |Marks(st)| ==> Reorderable(ClassesOf(t), uc, Marks(st)[i])
  {
    var mid := Marks(st);
    forall i | 0 <= i < |mid| ensures Terminal(t, compat, mid[i]) && Reorderable(ClassesOf(t), uc, mid[i]) {
      assert mid[i] == st.out[st.starter + 1 + i];
    }
  }

  /** Decomposing again before and after a composing step: only the place of uc differs. */
  lemma StepDecomposition(t: Table, stable: bool, compat: bool, st: State, uc: int) returns (p: seq<int>)
    requires t.Valid() && Invariant(t, compat, st) && Terminal(t, compat, uc)
    requires Composes(t, stable, st, uc) && !Lost(st, uc)
    ensures AllInRange(st.out) && All(t, compat, st.out) == p + Marks(st)
    ensures var out' := Step(t, stable, st, uc).out;
            AllInRange(out') && All(t, compat, out') == p + [uc] + Marks(st)
  {
    var a := st.out[st.starter];
    LostStep(t, stable, compat, st, uc);
    MarksPass(t, stable, compat, st, uc);
    CompositeParts(t, stable, compat, a, uc);
    p := AllReplaced(t, compat, st.out, st.starter, Composite(t, stable, a, uc).value, uc);
  }

  lemma AllReplaced(t: Table, compat: bool, out: seq<int>, k: nat, c: int, uc: int) returns (p: seq<int>)
    requires t.MappingsDescend() && AllInRange(out) && k < |out| && InRange(c)
    requires Decomposed(t, compat, out[k + 1..]) && Full(t, compat, c) == Full(t, compat, out[k]) + [uc]
    ensures All(t, compat, out) == p + out[k + 1..]
    ensures AllInRange(out[k := c]) && All(t, compat, out[k := c]) == p + [uc] + out[k + 1..]
  {
    var pre, a, mid := out[..k], out[k], out[k + 1..];
    assert out == pre + [a] + mid && out[k := c] == pre + [c] + mid;
    AllAround(t, compat, pre, a, mid);
    AllAround(t, compat, pre, c, mid);
    p := All(t, compat, pre) + Full(t, compat, a);
    assert All(t, compat, pre) + (Full(t, compat, a) + [uc]) == p + [uc];
  }

  /** One step of composition, seen after decomposing again. */
  lemma ComposeEquivalent(t: Table, stable: bool, compat: bool, st: State, uc: int, z: seq<int>)
    requires t.Valid() && Invariant(t, compat, st) && Terminal(t, compat, uc)
    requires Composes(t, stable, st, uc) && !Lost(st, uc)
    ensures var out' := Step(t, stable, st, uc).out;
            && AllInRange(st.out) && AllInRange(out')
            && Canonical(ClassesOf(t), All(t, compat, out') + z)
               == Canonical(ClassesOf(t), All(t, compat, st.out) + ([uc] + z))
  {
    var p := StepDecomposition(t, stable, compat, st, uc);
    MarksPass(t, stable, compat, st, uc);
    MoveMark(ClassesOf(t), p, uc, Marks(st), z);
    Associative(p + Marks(st), [uc], z);
  }

  lemma AllAround(t: Table, compat: bool, pre: seq<int>, a: int, mid: seq<int>)
    requires t.MappingsDescend() && AllInRange(pre) && InRange(a) && Decomposed(t, compat, mid)
    ensures AllInRange(pre + [a] + mid)
    ensures All(t, compat, pre + [a] + mid) == All(t, compat, pre) + Full(t, compat, a) + mid
  {
    DecomposedIsAll(t, compat, mid);
    AllConcat(t, compat, pre, [a]);
    AllConcat(t, compat, pre + [a], mid);
    AllOne(t, compat, a);
  }

  lemma AllOne(t: Table, compat: bool, a: int)
    requires t.MappingsDescend() && InRange(a)
    ensures All(t, compat, [a]) == Full(t, compat, a)
  {
    assert All(t, compat, [a]) == Full(t, compat, a) + All(t, compat, []);
  }

  /** Composition keeps the text up to canonical equivalence, apart from the code points that are lost. */
  lemma {:induction false} FoldEquivalent(t: Table, stable: bool, compat: bool, us: seq<int>, z: seq<int>)
    requires t.Valid() && Decomposed(t, compat, us)
    ensures var out := ComposeAll(t, stable, us);
            && AllValid(out) && AllInRange(out)
            && Canonical(ClassesOf(t), All(t, compat, out) + z) == Canonical(ClassesOf(t), Kept(us).kept + z)
    decreases |us|
  {
    if us != [] {
      var h, uc := us[..|us| - 1], us[|us| - 1];
      var st := Fold(t, stable, h);
      KeptStep(t, stable, compat, us);
      if Lost(st, uc) {
        FoldEquivalent(t, stable, compat, h, z);
      } else {
        FoldEquivalent(t, stable, compat, h, [uc] + z);
        StepEquivalent(t, stable, compat, st, uc, z);
        Associative(Kept(h).kept, [uc], z);
      }
    }
  }

  /** The last code point is kept unless the step loses it. */
  lemma KeptStep(t: Table, stable: bool, compat: bool, us: seq<int>)
    requires t.Valid() && Decomposed(t, compat, us) && us != []
    ensures var h, uc := us[..|us| - 1], us[|us| - 1];
            var st := Fold(t, stable, h);
            && Invariant(t, compat, st) && Fold(t, stable, us) == Step(t, stable, st, uc)
            && Kept(us).kept == (if Lost(st, uc) then Kept(h).kept else Kept(h).kept + [uc])
            && (Lost(st, uc) ==> Step(t, stable, st, uc) == st)
            && AllValid(Step(t, stable, st, uc).out)
  {
    var h, uc := us[..|us| - 1], us[|us| - 1];
    FoldInvariant(t, stable, compat, h);
    FoldInvariant(t, stable, compat, us);
    LostStep(t, stable, compat, Fold(t, stable, h), uc);
  }

  lemma StepEquivalent(t: Table, stable: bool, compat: bool, st: State, uc: int, z: seq<int>)
    requires t.Valid() && Invariant(t, compat, st) && Terminal(t, compat, uc) && !Lost(st, uc)
    ensures var out' := Step(t, stable, st, uc).out;
            && AllInRange(st.out) && AllInRange(out')
            && Canonical(ClassesOf(t), All(t, compat, out') + z)
               == Canonical(ClassesOf(t), All(t, compat, st.out) + ([uc] + z))
  {
    if Composes(t, stable, st, uc) {
      ComposeEquivalent(t, stable, compat, st, uc, z);
    } else {
      AppendEquivalent(t, compat, st.out, uc, z);
    }
  }

  lemma AppendEquivalent(t: Table, compat: bool, out: seq<int>, uc: int, z: seq<int>)
    requires t.MappingsDescend() && AllInRange(out) && Terminal(t, compat, uc)
    ensures AllInRange(out + [uc]) && All(t, compat, out + [uc]) + z == All(t, compat, out) + ([uc] + z)
  {
    AllAround(t, compat, out, uc, []);
    assert out + [uc] + [] == out + [uc];
    assert Full(t, compat, uc) == [uc];
  }

  /** Composing the text with or without the lost code points is the same. */
  lemma {:induction false} FoldKept(t: Table, stable: bool, compat: bool, us: seq<int>)
    requires t.Valid() && Decomposed(t, compat, us)
    ensures Fold(t, stable, Kept(us).kept) == Fold(t, stable, us)
  {
    if us != [] {
      var h, uc := us[..|us| - 1], us[|us| - 1];
      FoldKept(t, stable, compat, h);
      FoldInvariant(t, stable, compat, h);
      LostStep(t, stable, compat, Fold(t, stable, h), uc);
      var k := Kept(h).kept;
      assert (k + [uc])[..|k + [uc]| - 1] == k;
    }
  }

  // ---------------------------------------------------------------- normalization form C

  function Nfc(t: Table, stable: bool, compat: bool, us: seq<int>): seq<int>
    requires t.MappingsDescend() && AllInRange(us)
  {
    ComposeAll(t, stable, Nfd(t, compat, us))
  }

  /** Decomposing a composed text gives the decomposed text without what was lost. */
  lemma NfdOfNfc(t: Table, stable: bool, compat: bool, us: seq<int>)
    requires t.Valid() && AllValid(us)
    ensures var c := Nfc(t, stable, compat, us);
            && AllValid(c) && AllInRange(c)
            && Nfd(t, compat, c) == Kept(Nfd(t, compat, us)).kept
  {
    var d := Nfd(t, compat, us);
    NfdDecomposed(t, compat, us);
    FoldEquivalent(t, stable, compat, d, []);
    var c := ComposeAll(t, stable, d);
    assert All(t, compat, c) + [] == All(t, compat, c) && Kept(d).kept + [] == Kept(d).kept;
    KeptOrdered(t, d);
    OrderedIsCanonical(ClassesOf(t), Kept(d).kept);
  }

  /** The law a composed form must meet: it is canonically equivalent to its input. It holds exactly
      for the texts in whose decomposition no U+11A7 follows a leading consonant and a vowel. */
  lemma NfcEquivalent(t: Table, stable: bool, compat: bool, us: seq<int>)
    requires t.Valid() && AllValid(us)
    ensures var c := Nfc(t, stable, compat, us);
            AllInRange(c) && (Nfd(t, compat, c) == Nfd(t, compat, us) <==> !Loses(Nfd(t, compat, us)))
  {
    NfdOfNfc(t, stable, compat, us);
    KeptAll(Nfd(t, compat, us));
  }

  /** Normalizing twice is normalizing once, lost code points or not. */
  lemma NfcIdempotent(t: Table, stable: bool, compat: bool, us: seq<int>)
    requires t.Valid() && AllValid(us)
    ensures var c := Nfc(t, stable, compat, us);
            AllInRange(c) && Nfc(t, stable, compat, c) == c
  {
    var d := Nfd(t, compat, us);
    NfdDecomposed(t, compat, us);
    NfdOfNfc(t, stable, compat, us);
    FoldKept(t, stable, compat, d);
  }

  /** Composing a decomposed form gives the composed form of the original. */
  lemma NfcOfNfd(t: Table, stable: bool, compat: bool, us: seq<int>)
    requires t.Valid() && AllValid(us)
    ensures var d := Nfd(t, compat, us);
            AllInRange(d) && Nfc(t, stable, compat, d) == Nfc(t, stable, compat, us)
  {
    NfdIdempotent(t, compat, us);
  }

  /** The shortest text whose composed form is not equivalent to it. */
  lemma LossExample(t: Table, stable: bool, compat: bool)
    requires t.Valid()
    ensures var us := [HANGUL_LBASE, HANGUL_VBASE, HANGUL_TBASE];
            && AllInRange(us) && Nfd(t, compat, us) == us
            && Nfc(t, stable, compat, us) == [HANGUL_SBASE]
            && Nfd(t, compat, [HANGUL_SBASE]) != us
  {
    var us := [HANGUL_LBASE, HANGUL_VBASE, HANGUL_TBASE];
    JamoNormal(t, compat, us);
    assert LosesAt(us, 0);
    NfcEquivalent(t, stable, compat, us);
    assert us == [] + [HANGUL_LBASE] + [HANGUL_VBASE] + [HANGUL_TBASE];
    FoldStep(t, stable, [], HANGUL_LBASE);
    FoldStep(t, stable, [] + [HANGUL_LBASE], HANGUL_VBASE);
    FoldStep(t, stable, [] + [HANGUL_LBASE] + [HANGUL_VBASE], HANGUL_TBASE);
    LossSteps(t, stable);
  }

  lemma JamoNormal(t: Table, compat: bool, us: seq<int>)
    requires t.Valid()
    requires forall i :: 0 <= i < |us| ==> IsHangulL(us[i]) || IsHangulV(us[i]) || IsHangulT(us[i])
    ensures Decomposed(t, compat, us) && AllInRange(us) && Nfd(t, compat, us) == us
  {
    forall i | 0 <= i < |us| ensures Terminal(t, compat, us[i]) && ClassesOf(t)(us[i]) == 0 {
      assert t.property(us[i]).decompMapping.None?;
    }
    NfdFixed(t, compat, us);
  }

  lemma LossSteps(t: Table, stable: bool)
    requires t.HangulIsAlgorithmic()
    ensures Step(t, stable, START, HANGUL_LBASE) == State([HANGUL_LBASE], 0, -1)
    ensures Step(t, stable, State([HANGUL_LBASE], 0, -1), HANGUL_VBASE) == State([HANGUL_SBASE], 0, -1)
    ensures Step(t, stable, State([HANGUL_SBASE], 0, -1), HANGUL_TBASE) == State([HANGUL_SBASE], 0, -1)
  {
    assert t.property(HANGUL_LBASE).combiningClass == 0 && t.property(HANGUL_VBASE).combiningClass == 0;
    assert t.property(HANGUL_TBASE).combiningClass == 0;
  }

  // ---------------------------------------------------------------- Hangul

  ghost predicate Syllables(us: seq<int>) {
    forall i :: 0 <= i < |us| ==> IsHangulS(us[i])
  }

  /** A syllable is rebuilt from its jamo behind anything. */
  lemma SyllableRebuilt(t: Table, stable: bool, st: State, uc: int)
    requires t.HangulIsAlgorithmic() && IsHangulS(uc) && st.starter < |st.out|
    ensures StepAll(t, stable, st, HangulJamo(uc)) == State(st.out + [uc], |st.out|, -1)
  {
    var j := HangulJamo(uc);
    var sindex := uc - HANGUL_SBASE;
    assert IsHangulL(j[0]) && t.property(j[0]).combiningClass == 0;
    assert IsHangulV(j[1]) && t.property(j[1]).combiningClass == 0;
    var s0 := Step(t, stable, st, j[0]);
    assert s0 == State(st.out + [j[0]], |st.out|, -1);
    JamoArithmetic(sindex);
    var lv := uc - sindex % HANGUL_TCOUNT;
    var s1 := Step(t, stable, s0, j[1]);
    assert s1.out == st.out + [lv];
    if |j| == 3 {
      assert IsHangulLV(lv) && IsHangulT(j[2]) && t.property(j[2]).combiningClass == 0;
      assert Composite(t, stable, lv, j[2]) == Some(uc);
      assert Step(t, stable, s1, j[2]).out == st.out + [uc];
      assert j[1..][1..] == [j[2]];
      assert StepAll(t, stable, s1, [j[2]]) == StepAll(t, stable, Step(t, stable, s1, j[2]), []);
    } else {
      assert j[1..][1..] == [];
    }
    assert StepAll(t, stable, st, j) == StepAll(t, stable, s0, j[1..]);
    assert StepAll(t, stable, s0, j[1..]) == StepAll(t, stable, s1, j[1..][1..]);
  }

  lemma JamoArithmetic(sindex: int)
    requires 0 <= sindex < HANGUL_SCOUNT
    ensures var l, v, ti := sindex / HANGUL_NCOUNT, sindex % HANGUL_NCOUNT / HANGUL_TCOUNT, sindex % HANGUL_TCOUNT;
            && 0 <= l < HANGUL_LCOUNT && 0 <= v < HANGUL_VCOUNT
            && (l * HANGUL_VCOUNT + v) * HANGUL_TCOUNT + ti == sindex
            && (sindex - ti) % HANGUL_TCOUNT == 0
  {
    var q := sindex / HANGUL_TCOUNT;
    assert sindex == q * HANGUL_TCOUNT + sindex % HANGUL_TCOUNT;
    assert sindex / HANGUL_NCOUNT == q / HANGUL_VCOUNT;
  }

  /** Precomposed syllables come back unchanged from decomposition and composition. */
  lemma {:induction false} HangulRoundTrip(t: Table, stable: bool, compat: bool, us: seq<int>)
    requires t.Valid() && Syllables(us)
    ensures AllInRange(us) && Nfc(t, stable, compat, us) == us
  {
    SyllablesFold(t, stable, compat, us);
    SyllablesOrdered(t, compat, us);
    OrderedIsCanonical(ClassesOf(t), All(t, compat, us));
  }

  lemma {:induction false} SyllablesFold(t: Table, stable: bool, compat: bool, us: seq<int>)
    requires t.MappingsDescend() && t.HangulIsAlgorithmic() && Syllables(us)
    ensures AllInRange(us) && Fold(t, stable, All(t, compat, us)).out == us
    decreases |us|
  {
    if us != [] {
      var h, uc := us[..|us| - 1], us[|us| - 1];
      SyllablesFold(t, stable, compat, h);
      Snoc(us);
      AllConcat(t, compat, h, [uc]);
      AllOne(t, compat, uc);
      FoldConcat(t, stable, All(t, compat, h), HangulJamo(uc));
      SyllableRebuilt(t, stable, Fold(t, stable, All(t, compat, h)), uc);
    }
  }

  lemma {:induction false} SyllablesOrdered(t: Table, compat: bool, us: seq<int>)
    requires t.Valid() && Syllables(us)
    ensures AllInRange(us) && Ordered(ClassesOf(t), All(t, compat, us))
    ensures forall i :: 0 <= i < |All(t, compat, us)| ==> t.property(All(t, compat, us)[i]).combiningClass == 0
  {
    if us != [] {
      SyllablesOrdered(t, compat, us[1..]);
      var j := HangulJamo(us[0]);
      JamoArithmetic(us[0] - HANGUL_SBASE);
      assert forall i :: 0 <= i < |j| ==> t.property(j[i]).combiningClass == 0;
    }
  }

  // ---------------------------------------------------------------- the pass, in place

  /** The loop of utf8proc_reencode that composes within the buffer: it writes at or below the cell
      it reads next, and every replaced starter lies below that. */
  method Compose(t: Table, mem: array<byte>, length: nat, o: Options) returns (length': nat)
    requires t.CombinationsInvert() && 4 * length <= mem.Length
    requires forall i :: 0 <= i < length ==> InRange(Cells(mem[..])[i])
    modifies mem
    ensures length' <= length
    ensures Cells(mem[..])[..length'] == ComposeAll(t, o.stable, old(Cells(mem[..]))[..length])
    ensures Cells(mem[..])[length..] == old(Cells(mem[..]))[length..]
    ensures forall i :: 0 <= i < length' ==> InRange(Cells(mem[..])[i])
  {
    ghost var c0 := Cells(mem[..]);
    ghost var c, st, done := c0, START, [];
    var starter, maxcc := -1, -1;
    var wpos := 0;
    var rpos := 0;
    while rpos < length
      invariant -1 <= starter < wpos <= rpos <= length
      invariant c == Cells(mem[..]) && |c| == |c0|
      invariant st == State(c[..wpos], starter, maxcc)
      invariant st == Fold(t, o.stable, done) && done == c0[..rpos]
      invariant forall i :: rpos <= i < |c0| ==> c[i] == c0[i]
      invariant forall i :: 0 <= i < length ==> InRange(c[i])
    {
      FoldStep(t, o.stable, done, c[rpos]);
      Advance(c0, rpos);
      done := done + [c[rpos]];
      wpos, starter, maxcc, c := ComposeCell(t, mem, rpos, wpos, starter, maxcc, o.stable, c);
      st := State(c[..wpos], starter, maxcc);
      rpos := rpos + 1;
    }
    assert c[length..] == c0[length..];
    length' := wpos;
  }

  /** One round: the cell at rpos is merged into the starter or moved down to wpos. */
  method ComposeCell(t: Table, mem: array<byte>, rpos: nat, wpos: nat, starter: int, maxcc: int, stable: bool,
                     ghost c: seq<int>)
    returns (wpos': nat, starter': int, maxcc': int, ghost c': seq<int>)
    requires t.CombinationsInvert() && 4 * rpos + 4 <= mem.Length && -1 <= starter < wpos <= rpos && c == Cells(mem[..])
    requires InRange(c[rpos]) && (starter >= 0 ==> InRange(c[starter]))
    modifies mem
    ensures wpos <= wpos' <= rpos + 1 && -1 <= starter' < wpos' && c' == Cells(mem[..]) && |c'| == |c|
    ensures Step(t, stable, State(c[..wpos], starter, maxcc), c[rpos]) == State(c'[..wpos'], starter', maxcc')
    ensures forall i :: wpos < i < |c| ==> c'[i] == c[i]
    ensures forall i :: 0 <= i < |c| ==> InRange(c'[i]) || c'[i] == c[i]
  {
    wpos', starter', maxcc' := wpos, starter, maxcc;
    var current := Load(mem, rpos);
    var cc := t.Get(current).combiningClass;
    if starter >= 0 && cc > maxcc {
      var s := Load(mem, starter);
      var composed := TryCompose(t, s, current, stable);
      if composed.Some? {
        Store(mem, starter, composed.value);
        c' := c[starter := composed.value];
        assert c'[..wpos] == c[..wpos][starter := composed.value];
        return;
      }
    }
    Store(mem, wpos, current);
    c' := c[wpos := current];
    assert c'[..wpos + 1] == c[..wpos] + [current];
    if cc != 0 {
      if cc > maxcc { maxcc' := cc; }
    } else {
      starter', maxcc' := wpos, -1;
    }
    wpos' := wpos + 1;
  }

  /** The Hangul and table lookups of one composition attempt. */
  method TryCompose(t: Table, starter: int, current: int, stable: bool) returns (c: Option<int>)
    requires t.CombinationsInvert() && InRange(starter) && InRange(current)
    ensures c == Composite(t, stable, starter, current)
    ensures c.Some? ==> InRange(c.value)
  {
    var lindex := starter - HANGUL_LBASE;
    if 0 <= lindex < HANGUL_LCOUNT {
      var vindex := current - HANGUL_VBASE;
      if 0 <= vindex < HANGUL_VCOUNT {
        return Some(HANGUL_SBASE + (lindex * HANGUL_VCOUNT + vindex) * HANGUL_TCOUNT);
      }
    }
    var sindex := starter - HANGUL_SBASE;
    if 0 <= sindex < HANGUL_SCOUNT && sindex % HANGUL_TCOUNT == 0 {
      var tindex := current - HANGUL_TBASE;
      if 0 <= tindex < HANGUL_TCOUNT {
        return Some(starter + tindex);
      }
    }
    var p, q := t.Get(starter), t.Get(current);
    if p.comb1st >= 0 && q.comb2nd >= 0 {
      var composition := t.combinations(p.comb1st + q.comb2nd);
      assert composition == t.Combination(starter, current);
      if composition >= 0 && (!stable || !t.Get(composition).compExclusion) {
        return Some(composition);
      }
    }
    c := None;
  }
}
