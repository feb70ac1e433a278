/** What the options of utf8proc_decompose_char do to a code point, stated of its output and of the table:
    what is left, what is replaced by what, and where boundary markers go. */
module OptionLaws {
  import opened Sequences
  import opened Utf8
  import opened UnicodeTable
  import opened Decomposing
  import opened Wrappers

  predicate Normalizing(o: Options) { o.compose || o.decompose }

  predicate IsMark(p: Property) { p.category == 6 || p.category == 7 || p.category == 8 }

  /** Options under which every code point is dropped, kept or replaced, and nothing else. */
  predicate Quiet(o: Options) { !o.rejectna && !o.charbound }

  /** What a code point becomes. */
  function Out(t: Table, o: Options, uc: int): seq<int>
    requires t.MappingsDescend() && InRange(uc)
  {
    Decomp(t, uc, o, BOUNDCLASS_START).out
  }

  function OutAll(t: Table, o: Options, us: seq<int>): seq<int>
    requires t.MappingsDescend() && forall i :: 0 <= i < |us| ==> InRange(us[i])
  {
    if us == [] then [] else Out(t, o, us[0]) + OutAll(t, o, us[1..])
  }

  // ---------------------------------------------------------------- the state plays no role

  lemma {:induction false} QuietDecomp(t: Table, uc: int, o: Options, lbc: int)
    requires t.MappingsDescend() && InRange(uc) && Quiet(o)
    ensures Decomp(t, uc, o, lbc) == Decomposition(|Out(t, o, uc)|, Out(t, o, uc), lbc)
    decreases o.lump, t.depth(uc), 2, 0
  {
    if Reached(t, uc, o) {
      if Lumps(t, uc, o) {
        LumpsFirst(t, uc, o, lbc);
        LumpsFirst(t, uc, o, BOUNDCLASS_START);
        QuietLump(t, Lumped(uc, t.Get(uc).category, o).value, o, lbc);
      } else {
        LumpsNot(t, uc, o, lbc);
        LumpsNot(t, uc, o, BOUNDCLASS_START);
        QuietUnlumped(t, uc, o, lbc);
        QuietUnlumped(t, uc, o, BOUNDCLASS_START);
      }
    }
  }

  /** Neither a syllable to decompose nor ignored. */
  predicate Reached(t: Table, uc: int, o: Options)
    requires InRange(uc)
  {
    !(Normalizing(o) && IsHangulS(uc)) && !(o.ignore && t.Get(uc).ignorable)
  }

  predicate Lumps(t: Table, uc: int, o: Options)
    requires InRange(uc)
  {
    o.lump && Lumped(uc, t.Get(uc).category, o).Some?
  }

  lemma LumpsFirst(t: Table, uc: int, o: Options, lbc: int)
    requires t.MappingsDescend() && InRange(uc) && !o.rejectna && Reached(t, uc, o) && Lumps(t, uc, o)
    ensures Decomp(t, uc, o, lbc) == Decomp(t, Lumped(uc, t.Get(uc).category, o).value, o.(lump := false), lbc)
  {
  }

  lemma LumpsNot(t: Table, uc: int, o: Options, lbc: int)
    requires t.MappingsDescend() && InRange(uc) && !o.rejectna && Reached(t, uc, o) && !Lumps(t, uc, o)
    ensures Decomp(t, uc, o, lbc) == Unlumped(t, uc, o, lbc)
  {
  }

  lemma QuietLump(t: Table, r: int, o: Options, lbc: int)
    requires t.MappingsDescend() && InRange(r) && Quiet(o) && o.lump
    ensures var o' := o.(lump := false);
            Decomp(t, r, o', lbc) == Decomposition(|Out(t, o', r)|, Out(t, o', r), lbc)
    decreases o.lump, 0, 0, 0
  {
    QuietDecomp(t, r, o.(lump := false), lbc);
  }

  lemma QuietUnlumped(t: Table, uc: int, o: Options, lbc: int)
    requires t.MappingsDescend() && InRange(uc) && Quiet(o)
    ensures var p := t.Get(uc);
            Unlumped(t, uc, o, lbc).lbc == lbc &&
            Unlumped(t, uc, o, lbc).out ==
            if o.stripmark && IsMark(p) then []
            else if Mapping(p, o).Some? then OutAll(t, o, Mapping(p, o).value)
            else [uc]
    ensures Unlumped(t, uc, o, lbc).ret == |Unlumped(t, uc, o, lbc).out|
    decreases o.lump, t.depth(uc), 1, 0
  {
    var p := t.Get(uc);
    if Mapping(p, o).Some? {
      QuietEach(t, Mapping(p, o).value, t.depth(uc), o, lbc, []);
      assert [] + OutAll(t, o, Mapping(p, o).value) == OutAll(t, o, Mapping(p, o).value);
    }
  }

  lemma {:induction false} QuietEach(t: Table, us: seq<int>, d: nat, o: Options, lbc: int, acc: seq<int>)
    requires t.MappingsDescend() && Quiet(o)
    requires forall i :: 0 <= i < |us| ==> InRange(us[i]) && t.depth(us[i]) < d
    requires forall i :: 0 <= i < |acc| ==> InRange(acc[i])
    ensures var r := acc + OutAll(t, o, us);
            DecompEach(t, us, d, o, lbc, acc) == Decomposition(|r|, r, lbc)
    decreases o.lump, d, 0, |us|
  {
    if us == [] {
      assert acc + [] == acc;
    } else {
      QuietDecomp(t, us[0], o, lbc);
      var x := Out(t, o, us[0]);
      QuietEach(t, us[1..], d, o, lbc, acc + x);
      Associative(acc, x, OutAll(t, o, us[1..]));
    }
  }

  // ---------------------------------------------------------------- one code point

  /** Ignorable code points go under IGNORE, and marks under STRIPMARK; LUMP replaces before marks are looked
      for; case folding comes before decomposition, which follows compatibility mappings only under COMPAT. */
  lemma OutOf(t: Table, o: Options, uc: int)
    requires t.MappingsDescend() && InRange(uc) && Quiet(o) && !(Normalizing(o) && IsHangulS(uc))
    ensures var p := t.property(uc);
            && (o.ignore && p.ignorable ==> Out(t, o, uc) == [])
            && (!(o.ignore && p.ignorable) && o.lump && Lumped(uc, p.category, o).Some? ==>
                  Out(t, o, uc) == Out(t, o.(lump := false), Lumped(uc, p.category, o).value))
            && (!(o.ignore && p.ignorable) && !(o.lump && Lumped(uc, p.category, o).Some?) ==>
                  && (o.stripmark && IsMark(p) ==> Out(t, o, uc) == [])
                  && (!(o.stripmark && IsMark(p)) ==>
                        && (o.casefold && p.casefoldMapping.Some? ==>
                              Out(t, o, uc) == OutAll(t, o, p.casefoldMapping.value))
                        && (!(o.casefold && p.casefoldMapping.Some?) ==>
                              Out(t, o, uc) ==
                              if Normalizing(o) && p.decompMapping.Some? && (p.decompType == 0 || o.compat)
                              then OutAll(t, o, p.decompMapping.value)
                              else [uc])))
  {
    QuietUnlumped(t, uc, o, BOUNDCLASS_START);
    if Reached(t, uc, o) && Lumps(t, uc, o) {
      LumpsFirst(t, uc, o, BOUNDCLASS_START);
    }
  }

  // ---------------------------------------------------------------- what is left

  /** None of the options applies to the code point any more. */
  predicate Settled(t: Table, o: Options, uc: int) {
    var p := t.property(uc);
    && !(o.ignore && p.ignorable) && !(o.stripmark && IsMark(p))
    && !(o.casefold && p.casefoldMapping.Some?)
    && (Normalizing(o) ==> !IsHangulS(uc) && (p.decompMapping.Some? ==> !o.compat && p.decompType != 0))
  }

  ghost predicate AllSettled(t: Table, o: Options, us: seq<int>) {
    forall i :: 0 <= i < |us| ==> InRange(us[i]) && Settled(t, o, us[i])
  }

  /** The options leave the jamo of syllables alone. */
  ghost predicate JamoSettled(t: Table, o: Options) {
    forall uc :: IsHangulL(uc) || IsHangulV(uc) || IsHangulT(uc) ==> Settled(t, o, uc)
  }

  lemma {:induction false} OutSettled(t: Table, o: Options, uc: int)
    requires t.MappingsDescend() && InRange(uc) && Quiet(o) && JamoSettled(t, o)
    ensures AllSettled(t, o, Out(t, o, uc))
    decreases o.lump, t.depth(uc), 2, 0
  {
    var p := t.Get(uc);
    if Normalizing(o) && IsHangulS(uc) {
      var j := HangulJamo(uc);
      assert forall i :: 0 <= i < |j| ==> IsHangulL(j[i]) || IsHangulV(j[i]) || IsHangulT(j[i]);
    } else if Reached(t, uc, o) {
      if Lumps(t, uc, o) {
        LumpsFirst(t, uc, o, BOUNDCLASS_START);
        LumpSettled(t, o, Lumped(uc, p.category, o).value);
      } else {
        UnlumpedSettled(t, o, uc);
      }
    }
  }

  lemma LumpSettled(t: Table, o: Options, r: int)
    requires t.MappingsDescend() && InRange(r) && Quiet(o) && o.lump && JamoSettled(t, o)
    ensures AllSettled(t, o, Out(t, o.(lump := false), r))
    decreases o.lump, 0, 0, 0
  {
    var o' := o.(lump := false);
    assert forall uc :: Settled(t, o, uc) <==> Settled(t, o', uc);
    assert JamoSettled(t, o');
    OutSettled(t, o', r);
  }

  lemma UnlumpedSettled(t: Table, o: Options, uc: int)
    requires t.MappingsDescend() && InRange(uc) && Quiet(o) && JamoSettled(t, o)
    requires !(Normalizing(o) && IsHangulS(uc)) && !(o.ignore && t.Get(uc).ignorable)
    ensures AllSettled(t, o, Unlumped(t, uc, o, BOUNDCLASS_START).out)
    decreases o.lump, t.depth(uc), 1, 0
  {
    var p := t.Get(uc);
    QuietUnlumped(t, uc, o, BOUNDCLASS_START);
    if Mapping(p, o).Some? {
      OutAllSettled(t, o, Mapping(p, o).value, t.depth(uc));
    }
  }

  lemma {:induction false} OutAllSettled(t: Table, o: Options, us: seq<int>, d: nat)
    requires t.MappingsDescend() && Quiet(o) && JamoSettled(t, o)
    requires forall i :: 0 <= i < |us| ==> InRange(us[i]) && t.depth(us[i]) < d
    ensures AllSettled(t, o, OutAll(t, o, us))
    decreases o.lump, d, 0, |us|
  {
    if us != [] {
      OutSettled(t, o, us[0]);
      OutAllSettled(t, o, us[1..], d);
    }
  }

  /** A settled code point stays, so that doing it again changes nothing. */
  lemma {:induction false} SettledStays(t: Table, o: Options, us: seq<int>)
    requires t.MappingsDescend() && Quiet(o) && !o.lump && AllSettled(t, o, us)
    ensures OutAll(t, o, us) == us
  {
    if us != [] {
      SettledStays(t, o, us[1..]);
      OutOf(t, o, us[0]);
      Cons(us);
    }
  }

  lemma OutIdempotent(t: Table, o: Options, uc: int)
    requires t.MappingsDescend() && InRange(uc) && Quiet(o) && !o.lump && JamoSettled(t, o)
    ensures var r := Out(t, o, uc);
            (forall i :: 0 <= i < |r| ==> InRange(r[i])) && OutAll(t, o, r) == r
  {
    OutSettled(t, o, uc);
    SettledStays(t, o, Out(t, o, uc));
  }

  // ---------------------------------------------------------------- the lump table

  /** Code points and what they look like in ASCII: apostrophes, minus, slashes, ratio, angle brackets, set minus,
      circumflexes, low line, grave accent, divides and tilde operator. */
  const LOOKALIKES: map<int, int> := map[
    0x2018 := 0x27, 0x2019 := 0x27, 0x02BC := 0x27, 0x02C8 := 0x27, 0x2212 := 0x2D, 0x2044 := 0x2F, 0x2215 := 0x2F,
    0x2236 := 0x3A, 0x2039 := 0x3C, 0x2329 := 0x3C, 0x3008 := 0x3C, 0x203A := 0x3E, 0x232A := 0x3E, 0x3009 := 0x3E,
    0x2216 := 0x5C, 0x02C4 := 0x5E, 0x02C6 := 0x5E, 0x2038 := 0x5E, 0x2303 := 0x5E, 0x02CD := 0x5F, 0x02CB := 0x60,
    0x2223 := 0x7C, 0x223C := 0x7E]

  /** What is replaced on account of its category: space separators, dashes, connectors, and under both line feed
      options line and paragraph separators. */
  function ByCategory(category: int, o: Options): Option<int> {
    if category == 23 then Some(0x20)
    else if category == 13 then Some(0x2D)
    else if category == 12 then Some(0x5F)
    else if category in {24, 25} && o.nlf2ls && o.nlf2ps then Some(0x0A)
    else None
  }

  /** LUMP follows the two lists. A listed code point of a listed category, of which Unicode has none, gets one
      of its two replacements. */
  lemma LumpTable(uc: int, category: int, o: Options)
    ensures var l, c := Lumped(uc, category, o), ByCategory(category, o);
            if uc !in LOOKALIKES then l == c
            else if c.None? then l == Some(LOOKALIKES[uc])
            else l == Some(LOOKALIKES[uc]) || l == c
  {
    if uc in LOOKALIKES {
      LumpListed(uc, category, o);
    } else {
      LumpUnlisted(uc, category, o);
    }
  }

  lemma LumpListed(uc: int, category: int, o: Options)
    requires uc in LOOKALIKES
    ensures Lumped(uc, category, o) in {Some(LOOKALIKES[uc])} + if ByCategory(category, o).None? then {} else {ByCategory(category, o)}
  {
  }

  lemma LumpUnlisted(uc: int, category: int, o: Options)
    requires uc !in LOOKALIKES
    ensures Lumped(uc, category, o) == ByCategory(category, o)
  {
  }

  // ---------------------------------------------------------------- boundary markers

  /** Pairs of classes that the rules GB3, GB6, GB7 and GB8 for grapheme clusters keep together. */
  const KEPT_TOGETHER: set<(int, int)> := {
    (BOUNDCLASS_CR, BOUNDCLASS_LF),
    (BOUNDCLASS_L, BOUNDCLASS_L), (BOUNDCLASS_L, BOUNDCLASS_V),
    (BOUNDCLASS_L, BOUNDCLASS_LV), (BOUNDCLASS_L, BOUNDCLASS_LVT),
    (BOUNDCLASS_LV, BOUNDCLASS_V), (BOUNDCLASS_LV, BOUNDCLASS_T),
    (BOUNDCLASS_V, BOUNDCLASS_V), (BOUNDCLASS_V, BOUNDCLASS_T),
    (BOUNDCLASS_LVT, BOUNDCLASS_T), (BOUNDCLASS_T, BOUNDCLASS_T)}

  lemma BoundaryRules(lbc: int, tbc: int)
    ensures Boundary(lbc, tbc) <==> (lbc, tbc) !in KEPT_TOGETHER && tbc != BOUNDCLASS_EXTEND
  {
  }

  function ClassOf(t: Table, uc: int): int { BoundClass(uc, t.property(uc)) }

  /** Jamo and syllables that the table does not declare extending or controlling are classed by their place in
      a syllable. */
  lemma HangulClasses(t: Table, uc: int)
    requires !t.property(uc).extend && t.property(uc).category !in {24, 25, 26, 27}
    ensures IsHangulL(uc) ==> ClassOf(t, uc) == BOUNDCLASS_L
    ensures IsHangulV(uc) ==> ClassOf(t, uc) == BOUNDCLASS_V
    ensures IsHangulT(uc) && uc != 0x11A7 ==> ClassOf(t, uc) == BOUNDCLASS_T
    ensures IsHangulS(uc) ==> ClassOf(t, uc) == if |HangulJamo(uc)| == 2 then BOUNDCLASS_LV else BOUNDCLASS_LVT
  {
  }

  /** A text with a marker before every code point that starts a cluster, behind one of class lbc. */
  function Marked(t: Table, lbc: int, us: seq<int>): seq<int>
    decreases |us|
  {
    if us == [] then []
    else (if Boundary(lbc, ClassOf(t, us[0])) then [0xFFFF, us[0]] else [us[0]]) + Marked(t, ClassOf(t, us[0]), us[1..])
  }

  function LastClass(t: Table, lbc: int, us: seq<int>): int {
    if us == [] then lbc else ClassOf(t, us[|us| - 1])
  }

  lemma {:induction false} MarkedConcat(t: Table, lbc: int, a: seq<int>, b: seq<int>)
    ensures Marked(t, lbc, a + b) == Marked(t, lbc, a) + Marked(t, LastClass(t, lbc, a), b)
    ensures LastClass(t, lbc, a + b) == LastClass(t, LastClass(t, lbc, a), b)
    decreases |a|
  {
    if a == [] {
      assert a + b == b;
    } else {
      MarkedConcat(t, ClassOf(t, a[0]), a[1..], b);
      assert (a + b)[0] == a[0] && (a + b)[1..] == a[1..] + b;
      var h := if Boundary(lbc, ClassOf(t, a[0])) then [0xFFFF, a[0]] else [a[0]];
      Associative(h, Marked(t, ClassOf(t, a[0]), a[1..]), Marked(t, LastClass(t, lbc, a), b));
    }
  }

  /** Options that mark boundaries and do not decompose syllables. */
  predicate Marks(o: Options) { o.charbound && !o.rejectna && !Normalizing(o) }

  /** CHARBOUND marks exactly the starts of clusters in what comes out otherwise. */
  lemma {:induction false} OutMarked(t: Table, uc: int, o: Options, lbc: int)
    requires t.MappingsDescend() && InRange(uc) && Marks(o)
    ensures var v, d := Out(t, o.(charbound := false), uc), Decomp(t, uc, o, lbc);
            d.ret >= 0 && d.out == Marked(t, lbc, v) && d.lbc == LastClass(t, lbc, v)
    decreases o.lump, t.depth(uc), 2, 0
  {
    var q := o.(charbound := false);
    LumpedAlike(uc, t.Get(uc).category, o);
    if Reached(t, uc, o) {
      if Lumps(t, uc, o) {
        LumpsFirst(t, uc, o, lbc);
        LumpsFirst(t, uc, q, BOUNDCLASS_START);
        LumpMarked(t, Lumped(uc, t.Get(uc).category, o).value, o, lbc);
      } else {
        LumpsNot(t, uc, o, lbc);
        LumpsNot(t, uc, q, BOUNDCLASS_START);
        UnlumpedMarked(t, uc, o, lbc);
      }
    }
  }

  lemma LumpedAlike(uc: int, category: int, o: Options)
    ensures Lumped(uc, category, o) == Lumped(uc, category, o.(charbound := false))
  {
  }

  lemma LumpMarked(t: Table, r: int, o: Options, lbc: int)
    requires t.MappingsDescend() && InRange(r) && Marks(o) && o.lump
    ensures var v, d := Out(t, o.(charbound := false, lump := false), r), Decomp(t, r, o.(lump := false), lbc);
            d.ret >= 0 && d.out == Marked(t, lbc, v) && d.lbc == LastClass(t, lbc, v)
    decreases o.lump, 0, 0, 0
  {
    OutMarked(t, r, o.(lump := false), lbc);
  }

  lemma UnlumpedMarked(t: Table, uc: int, o: Options, lbc: int)
    requires t.MappingsDescend() && InRange(uc) && Marks(o)
    ensures var v, d := Unlumped(t, uc, o.(charbound := false), BOUNDCLASS_START).out, Unlumped(t, uc, o, lbc);
            d.ret >= 0 && d.out == Marked(t, lbc, v) && d.lbc == LastClass(t, lbc, v)
    decreases o.lump, t.depth(uc), 1, 0
  {
    var p, q := t.Get(uc), o.(charbound := false);
    QuietUnlumped(t, uc, q, BOUNDCLASS_START);
    if !(o.stripmark && IsMark(p)) {
      if Mapping(p, o).Some? {
        var m := Mapping(p, o).value;
        EachMarked(t, m, t.depth(uc), o, lbc, []);
        assert [] + Marked(t, lbc, OutAll(t, q, m)) == Marked(t, lbc, OutAll(t, q, m));
      } else {
        assert [uc][1..] == [];
      }
    }
  }

  lemma {:induction false} EachMarked(t: Table, us: seq<int>, d: nat, o: Options, lbc: int, acc: seq<int>)
    requires t.MappingsDescend() && Marks(o)
    requires forall i :: 0 <= i < |us| ==> InRange(us[i]) && t.depth(us[i]) < d
    requires forall i :: 0 <= i < |acc| ==> InRange(acc[i])
    ensures var v, r := OutAll(t, o.(charbound := false), us), DecompEach(t, us, d, o, lbc, acc);
            r.ret >= 0 && r.out == acc + Marked(t, lbc, v) && r.lbc == LastClass(t, lbc, v)
    decreases o.lump, d, 0, |us|
  {
    if us == [] {
      assert acc + [] == acc;
    } else {
      var q := o.(charbound := false);
      OutMarked(t, us[0], o, lbc);
      var r := Decomp(t, us[0], o, lbc);
      EachMarked(t, us[1..], d, o, r.lbc, acc + r.out);
      MarkedConcat(t, lbc, Out(t, q, us[0]), OutAll(t, q, us[1..]));
      Associative(acc, r.out, Marked(t, r.lbc, OutAll(t, q, us[1..])));
    }
  }

  /** The jamo of a decomposed syllable are written without a marker and are not remembered either. */
  lemma SyllableUnmarked(t: Table, uc: int, o: Options, lbc: int)
    requires t.MappingsDescend() && IsHangulS(uc) && Normalizing(o)
    ensures Decomp(t, uc, o, lbc) == Decomposition(|HangulJamo(uc)|, HangulJamo(uc), lbc)
    ensures 0xFFFF !in HangulJamo(uc)
  {
  }

  // ---------------------------------------------------------------- texts

  /** Options whose effect on a text the laws above describe. */
  predicate Described(o: Options) { Quiet(o) || Marks(o) }

  /** What a text becomes behind a code point of class lbc: what its code points become one after the other, with
      markers under CHARBOUND. */
  function Shown(t: Table, o: Options, lbc: int, us: seq<int>): seq<int>
    requires t.MappingsDescend() && forall i :: 0 <= i < |us| ==> InRange(us[i])
  {
    if o.charbound then Marked(t, lbc, OutAll(t, o.(charbound := false), us)) else OutAll(t, o, us)
  }

  lemma ShownCons(t: Table, o: Options, lbc: int, uc: int, us: seq<int>)
    requires t.MappingsDescend() && Described(o) && InRange(uc) && forall i :: 0 <= i < |us| ==> InRange(us[i])
    ensures var d := Decomp(t, uc, o, lbc);
            d.ret == |d.out| && Shown(t, o, lbc, [uc] + us) == d.out + Shown(t, o, d.lbc, us)
  {
    assert ([uc] + us)[1..] == us;
    if o.charbound {
      var q := o.(charbound := false);
      OutMarked(t, uc, o, lbc);
      assert WellFormed(Decomp(t, uc, o, lbc));
      MarkedConcat(t, lbc, Out(t, q, uc), OutAll(t, q, us));
    } else {
      QuietDecomp(t, uc, o, lbc);
    }
  }

  /** The loop over a text fails on text that is not accepted or too long, and shows every other one. */
  lemma {:induction false} RunShown(t: Table, s: seq<byte>, o: Options, lbc: int, acc: seq<int>)
    requires t.MappingsDescend() && Described(o) && |acc| <= MAX_CELLS
    requires forall i :: 0 <= i < |acc| ==> InRange(acc[i])
    ensures var r := Run(t, s, o, lbc, acc);
            match DecodeAll(s)
            case Invalid => r.ret < 0
            case Text(us) =>
              && (forall i :: 0 <= i < |us| ==> InRange(us[i]))
              && var all := acc + Shown(t, o, lbc, us);
              && (r.ret >= 0 <==> |all| <= MAX_CELLS)
              && (r.ret >= 0 ==> r.out == all)
    decreases |s|
  {
    if s == [] {
      assert acc + [] == acc;
    } else if DecodeFirst(s).Char? {
      var Char(uc, n) := DecodeFirst(s);
      EncodeOfDecode(s);
      ShownCons(t, o, lbc, uc, []);
      var d := Decomp(t, uc, o, lbc);
      assert WellFormed(d);
      if |acc + d.out| <= MAX_CELLS {
        RunShown(t, s[n..], o, d.lbc, acc + d.out);
      }
      if DecodeAll(s[n..]).Text? {
        TextInRange(s[n..]);
        var us := DecodeAll(s[n..]).us;
        ShownCons(t, o, lbc, uc, us);
        Associative(acc, d.out, Shown(t, o, d.lbc, us));
      }
    }
  }

  lemma TextInRange(s: seq<byte>)
    requires DecodeAll(s).Text?
    ensures forall i :: 0 <= i < |DecodeAll(s).us| ==> InRange(DecodeAll(s).us[i])
  {
    EncodeAllOfDecodeAll(s);
  }

  // ---------------------------------------------------------------- options that do not go together

  /** A count, or the errors for unassigned code points and for overflow. */
  predicate CodePointStatus(ret: int) { ret >= 0 || ret == -4 || ret == -2 }

  lemma {:induction false} DecompStatus(t: Table, uc: int, o: Options, lbc: int)
    requires t.MappingsDescend() && InRange(uc)
    ensures CodePointStatus(Decomp(t, uc, o, lbc).ret)
    decreases o.lump, t.depth(uc), 2, 0
  {
    var l := Lumped(uc, t.Get(uc).category, o);
    if o.lump && l.Some? {
      LumpStatus(t, l.value, o, lbc);
    }
    UnlumpedStatus(t, uc, o, lbc);
  }

  lemma UnlumpedStatus(t: Table, uc: int, o: Options, lbc: int)
    requires t.MappingsDescend() && InRange(uc)
    ensures CodePointStatus(Unlumped(t, uc, o, lbc).ret)
    decreases o.lump, t.depth(uc), 1, 0
  {
    var m := Mapping(t.Get(uc), o);
    if m.Some? {
      EachStatus(t, m.value, t.depth(uc), o, lbc, []);
    }
  }

  lemma LumpStatus(t: Table, r: int, o: Options, lbc: int)
    requires t.MappingsDescend() && InRange(r) && o.lump
    ensures CodePointStatus(Decomp(t, r, o.(lump := false), lbc).ret)
    decreases o.lump, 0, 0, 0
  {
    DecompStatus(t, r, o.(lump := false), lbc);
  }

  lemma {:induction false} EachStatus(t: Table, us: seq<int>, d: nat, o: Options, lbc: int, acc: seq<int>)
    requires t.MappingsDescend()
    requires forall i :: 0 <= i < |us| ==> InRange(us[i]) && t.depth(us[i]) < d
    requires forall i :: 0 <= i < |acc| ==> InRange(acc[i])
    ensures CodePointStatus(DecompEach(t, us, d, o, lbc, acc).ret)
    decreases o.lump, d, 0, |us|
  {
    if us != [] {
      var r := Decomp(t, us[0], o, lbc);
      if |acc| + r.ret >= 0 {
        EachStatus(t, us[1..], d, o, r.lbc, Written(acc, r));
      }
    }
  }

  lemma {:induction false} RunStatus(t: Table, s: seq<byte>, o: Options, lbc: int, acc: seq<int>)
    requires t.MappingsDescend() && forall i :: 0 <= i < |acc| ==> InRange(acc[i])
    ensures var r := Run(t, s, o, lbc, acc); r.ret >= 0 || r.ret in {-4, -3, -2}
    decreases |s|
  {
    if s != [] && DecodeFirst(s).Char? {
      var Char(uc, n) := DecodeFirst(s);
      EncodeOfDecode(s);
      DecompStatus(t, uc, o, lbc);
      var d := Decomp(t, uc, o, lbc);
      if d.ret >= 0 && |acc| + d.ret <= MAX_CELLS {
        RunStatus(t, s[n..], o, d.lbc, acc + d.out);
      }
    }
  }

  /** The options are refused, with status -5, exactly if both directions are asked for, or marks are to be
      stripped without either. */
  lemma OptionsRefused(t: Table, s: seq<byte>, o: Options)
    requires t.MappingsDescend()
    ensures DecomposeText(t, s, o).ret == -5 <==> if o.compose then o.decompose else o.stripmark && !o.decompose
  {
    RunStatus(t, s, o, BOUNDCLASS_START, []);
  }
}
