/** Which pairs the composition pass of utf8proc_reencode merges, in terms of the table: the Hangul jamo by
    arithmetic, and otherwise exactly the pairs with a composite that is not excluded. */
module PrimaryComposites {
  import opened Sequences
  import opened Utf8
  import opened UnicodeTable
  import opened CanonicalOrder
  import opened Decomposing
  import opened Normalization
  import opened Composition
  import opened Wrappers

  /** A composite of the table that the pass may write. */
  predicate Allowed(t: Table, stable: bool, c: int) {
    c >= 0 && (stable ==> !t.property(c).compExclusion)
  }

  // ---------------------------------------------------------------- the pairs

  /** The syllable of leading consonant l, vowel v and trailing consonant x, x == 0 for none. */
  lemma SyllableParts(l: int, v: int, x: int)
    requires 0 <= l < 19 && 0 <= v < 21 && 0 <= x < 28
    ensures HangulJamo(0xAC00 + (l * 21 + v) * 28 + x)
            == [0x1100 + l, 0x1161 + v] + if x == 0 then [] else [0x11A7 + x]
  {
    var lv := 0xAC00 + (l * 21 + v) * 28;
    JamoOfLV(0x1100 + l, 0x1161 + v);
    if x != 0 {
      JamoOfLVT(lv, 0x11A7 + x);
    }
  }

  /** The three ways to compose: two jamo to the syllable with these jamo, a syllable and a trailing
      consonant to the syllable with one jamo more, U+11A7 behind a syllable to nothing new, and a pair of the
      table to its composite. */
  lemma CompositeExactly(t: Table, stable: bool, a: int, b: int, c: int)
    requires t.HangulIsAlgorithmic()
    ensures Composite(t, stable, a, b) == Some(c) <==>
            || (IsHangulL(a) && IsHangulV(b) && IsHangulS(c) && HangulJamo(c) == [a, b])
            || (IsHangulLV(a) && IsHangulT(b) && b != 0x11A7 && IsHangulS(c) && HangulJamo(c) == HangulJamo(a) + [b])
            || (IsHangulLV(a) && b == 0x11A7 && c == a)
            || (t.Combination(a, b) == c && Allowed(t, stable, c))
  {
    if IsHangulL(a) && IsHangulV(b) {
      JamoOfLV(a, b);
      if IsHangulS(c) && HangulJamo(c) == [a, b] { SameJamo(c, Composite(t, stable, a, b).value); }
    } else if IsHangulLV(a) && IsHangulT(b) {
      if b != 0x11A7 {
        JamoOfLVT(a, b);
        if IsHangulS(c) && HangulJamo(c) == HangulJamo(a) + [b] { SameJamo(c, Composite(t, stable, a, b).value); }
      }
    }
  }

  lemma SameJamo(c: int, d: int)
    requires IsHangulS(c) && IsHangulS(d) && HangulJamo(c) == HangulJamo(d)
    ensures c == d
  {
    JamoArithmetic(c - HANGUL_SBASE);
    JamoArithmetic(d - HANGUL_SBASE);
    assert HangulJamo(c)[0] == HangulJamo(d)[0] && HangulJamo(c)[1] == HangulJamo(d)[1];
    assert |HangulJamo(c)| == 3 ==> HangulJamo(c)[2] == HangulJamo(d)[2];
  }

  /** A starter and a code point behind it, neither of which decomposes. */
  lemma PairNfc(t: Table, stable: bool, compat: bool, a: int, b: int)
    requires t.Valid() && Terminal(t, compat, a) && Terminal(t, compat, b) && t.property(a).combiningClass == 0
    ensures AllInRange([a, b])
    ensures var c := t.Combination(a, b);
            if Allowed(t, stable, c) then Nfc(t, stable, compat, [a, b]) == [c]
            else if IsHangulL(a) && IsHangulV(b) then
              exists s :: IsHangulS(s) && HangulJamo(s) == [a, b] && Nfc(t, stable, compat, [a, b]) == [s]
            else Nfc(t, stable, compat, [a, b]) == [a, b]
  {
    var us := [a, b];
    assert Decomposed(t, compat, us);
    NfdFixed(t, compat, us);
    PairFold(t, stable, a, b);
    if IsHangulL(a) && IsHangulV(b) { JamoOfLV(a, b); }
  }

  lemma PairFold(t: Table, stable: bool, a: int, b: int)
    requires t.property(a).combiningClass == 0 <= t.property(b).combiningClass
    ensures ComposeAll(t, stable, [a, b]) == match Composite(t, stable, a, b) case Some(c) => [c] case None => [a, b]
  {
    OneFold(t, stable, a);
    FoldStep(t, stable, [a], b);
    assert [a] + [b] == [a, b];
    var st := Step(t, stable, State([a], 0, -1), b);
    match Composite(t, stable, a, b)
    case Some(c) => assert st.out == [a][0 := c] == [c];
    case None => assert st.out == [a] + [b];
  }

  lemma OneFold(t: Table, stable: bool, a: int)
    requires t.property(a).combiningClass == 0
    ensures Fold(t, stable, [a]) == State([a], 0, -1)
  {
    FoldStep(t, stable, [], a);
    assert [] + [a] == [a];
  }

  // ---------------------------------------------------------------- what a composed text consists of

  /** An undecomposable code point, a syllable, or an allowed composite of the two code points it maps to. */
  predicate Primary(t: Table, stable: bool, compat: bool, c: int) {
    || Terminal(t, compat, c)
    || IsHangulS(c)
    || (&& t.property(c).decompMapping.Some? && |t.property(c).decompMapping.value| == 2
        && t.Combination(t.property(c).decompMapping.value[0], t.property(c).decompMapping.value[1]) == c
        && Allowed(t, stable, c))
  }

  ghost predicate AllPrimary(t: Table, stable: bool, compat: bool, us: seq<int>) {
    forall i :: 0 <= i < |us| ==> Primary(t, stable, compat, us[i])
  }

  lemma CompositePrimary(t: Table, stable: bool, compat: bool, a: int, b: int)
    requires t.Valid() && InRange(a) && InRange(b) && Composite(t, stable, a, b).Some?
    ensures Primary(t, stable, compat, Composite(t, stable, a, b).value)
  {
    CompositeExactly(t, stable, a, b, Composite(t, stable, a, b).value);
  }

  lemma {:induction false} FoldPrimary(t: Table, stable: bool, compat: bool, us: seq<int>)
    requires t.Valid() && Decomposed(t, compat, us)
    ensures AllPrimary(t, stable, compat, Fold(t, stable, us).out)
  {
    if us != [] {
      var h, uc := us[..|us| - 1], us[|us| - 1];
      FoldPrimary(t, stable, compat, h);
      FoldInvariant(t, stable, compat, h);
      var st := Fold(t, stable, h);
      if Composes(t, stable, st, uc) {
        CompositePrimary(t, stable, compat, st.out[st.starter], uc);
      }
    }
  }

  /** No excluded composite is left in or brought into a composed text. */
  lemma NfcPrimary(t: Table, stable: bool, compat: bool, us: seq<int>)
    requires t.Valid() && AllValid(us)
    ensures AllInRange(us) && AllPrimary(t, stable, compat, Nfc(t, stable, compat, us))
  {
    NfdDecomposed(t, compat, us);
    FoldPrimary(t, stable, compat, Nfd(t, compat, us));
  }

  // ---------------------------------------------------------------- what comes back

  /** A starter that does not decompose, or an allowed composite of such a code point and one that does not
      decompose. */
  ghost predicate Rebuilt(t: Table, stable: bool, compat: bool, c: int)
    requires t.MappingsDescend()
    decreases if InRange(c) then t.depth(c) else 0
  {
    && CodepointValid(c) && !IsHangulS(c)
    && match CanonicalMapping(t, compat, c)
       case None => t.property(c).combiningClass == 0
       case Some(m) =>
         && |m| == 2 && t.MapsDown(c, m) && t.Combination(m[0], m[1]) == c && Allowed(t, stable, c)
         && Terminal(t, compat, m[1]) && Rebuilt(t, stable, compat, m[0])
  }

  /** The code point is never the second one of a pair. */
  predicate NeverSecond(t: Table, b: int) {
    t.property(b).comb2nd < 0 && !IsHangulV(b) && !IsHangulT(b)
  }

  lemma {:induction false} StepAllSnoc(t: Table, stable: bool, st: State, us: seq<int>, b: int)
    ensures StepAll(t, stable, st, us + [b]) == Step(t, stable, StepAll(t, stable, st, us), b)
    decreases |us|
  {
    if us == [] {
      assert us + [b] == [b] && [b][1..] == [];
    } else {
      StepAllSnoc(t, stable, Step(t, stable, st, us[0]), us[1..], b);
      assert (us + [b])[0] == us[0] && (us + [b])[1..] == us[1..] + [b];
    }
  }

  /** The decomposition of a composite is that of its first part and then its second. */
  lemma RebuiltParts(t: Table, stable: bool, compat: bool, c: int)
    requires t.Valid() && Rebuilt(t, stable, compat, c)
    ensures match CanonicalMapping(t, compat, c)
            case None => Full(t, compat, c) == [c]
            case Some(m) => InRange(m[0]) && Full(t, compat, c) == Full(t, compat, m[0]) + [m[1]]
  {
    var m := CanonicalMapping(t, compat, c);
    if m.Some? {
      CombinationParts(t, compat, m.value[0], m.value[1]);
    }
  }

  lemma {:induction false} RebuiltLead(t: Table, stable: bool, compat: bool, c: int)
    requires t.Valid() && Rebuilt(t, stable, compat, c)
    ensures Full(t, compat, c) != [] && t.property(Full(t, compat, c)[0]).combiningClass == 0
    decreases t.depth(c)
  {
    RebuiltParts(t, stable, compat, c);
    var m := CanonicalMapping(t, compat, c);
    if m.Some? {
      RebuiltLead(t, stable, compat, m.value[0]);
    }
  }

  /** The decomposition of such a code point is merged back, at the start or behind anything its first
      code point cannot be merged with. */
  lemma {:induction false} RebuiltSteps(t: Table, stable: bool, compat: bool, st: State, c: int)
    requires t.Valid() && Rebuilt(t, stable, compat, c) && -1 <= st.starter < |st.out|
    requires st.starter < 0 || (Full(t, compat, c) != [] && NeverSecond(t, Full(t, compat, c)[0]))
    ensures StepAll(t, stable, st, Full(t, compat, c)) == State(st.out + [c], |st.out|, -1)
    decreases t.depth(c)
  {
    RebuiltParts(t, stable, compat, c);
    var m := CanonicalMapping(t, compat, c);
    if m.None? {
      assert [c][1..] == [];
      assert !Composes(t, stable, st, c);
    } else {
      var a, b := m.value[0], m.value[1];
      RebuiltLead(t, stable, compat, a);
      RebuiltSteps(t, stable, compat, st, a);
      StepAllSnoc(t, stable, st, Full(t, compat, a), b);
      PairStep(t, stable, st.out, a, b);
    }
  }

  lemma PairStep(t: Table, stable: bool, out: seq<int>, a: int, b: int)
    requires t.HangulIsAlgorithmic() && t.ClassesNonnegative() && InRange(b)
    requires Allowed(t, stable, t.Combination(a, b))
    ensures Step(t, stable, State(out + [a], |out|, -1), b) == State(out + [t.Combination(a, b)], |out|, -1)
  {
    CompositeExactly(t, stable, a, b, t.Combination(a, b));
    assert t.property(b).combiningClass > -1;
    assert (out + [a])[|out| := t.Combination(a, b)] == out + [t.Combination(a, b)];
  }

  /** Such a code point on its own is its composed form. */
  lemma RebuiltNfc(t: Table, stable: bool, compat: bool, c: int)
    requires t.Valid() && Rebuilt(t, stable, compat, c) && Ordered(ClassesOf(t), Full(t, compat, c))
    ensures AllInRange([c]) && Nfc(t, stable, compat, [c]) == [c]
  {
    AllOne(t, compat, c);
    OrderedIsCanonical(ClassesOf(t), Full(t, compat, c));
    RebuiltSteps(t, stable, compat, START, c);
    FoldFromStart(t, stable, Full(t, compat, c));
  }

  lemma FoldFromStart(t: Table, stable: bool, us: seq<int>)
    ensures Fold(t, stable, us) == StepAll(t, stable, START, us)
  {
    FoldConcat(t, stable, [], us);
    assert [] + us == us;
  }

  /** A syllable, or a rebuilt code point whose decomposition starts with one that is never second. */
  ghost predicate Comes(t: Table, stable: bool, compat: bool, c: int)
    requires t.MappingsDescend()
  {
    || IsHangulS(c)
    || (Rebuilt(t, stable, compat, c) && Full(t, compat, c) != [] && NeverSecond(t, Full(t, compat, c)[0]))
  }

  ghost predicate Precomposed(t: Table, stable: bool, compat: bool, us: seq<int>)
    requires t.MappingsDescend()
  {
    forall i :: 0 <= i < |us| ==> Comes(t, stable, compat, us[i])
  }

  lemma {:induction false} PrecomposedFold(t: Table, stable: bool, compat: bool, us: seq<int>)
    requires t.Valid() && Precomposed(t, stable, compat, us)
    ensures AllInRange(us) && Fold(t, stable, All(t, compat, us)).out == us
    decreases |us|
  {
    if us != [] {
      var h, uc := us[..|us| - 1], us[|us| - 1];
      PrecomposedFold(t, stable, compat, h);
      Snoc(us);
      AllConcat(t, compat, h, [uc]);
      AllOne(t, compat, uc);
      var st := Fold(t, stable, All(t, compat, h));
      FoldConcat(t, stable, All(t, compat, h), Full(t, compat, uc));
      if IsHangulS(uc) {
        SyllableRebuilt(t, stable, st, uc);
      } else {
        RebuiltSteps(t, stable, compat, st, uc);
      }
    }
  }

  /** Precomposed text comes back unchanged from decomposition and composition. */
  lemma PrecomposedRoundTrip(t: Table, stable: bool, compat: bool, us: seq<int>)
    requires t.Valid() && Precomposed(t, stable, compat, us)
    requires AllInRange(us) && Ordered(ClassesOf(t), All(t, compat, us))
    ensures Nfc(t, stable, compat, us) == us
  {
    PrecomposedFold(t, stable, compat, us);
    OrderedIsCanonical(ClassesOf(t), All(t, compat, us));
  }

  // ---------------------------------------------------------------- the canonical composition algorithm

  ghost predicate IsLastStarter(t: Table, us: seq<int>, k: int) {
    && -1 <= k < |us| && (k >= 0 ==> t.property(us[k]).combiningClass == 0)
    && forall i :: k < i < |us| ==> t.property(us[i]).combiningClass != 0
  }

  /** The index of the last starter, -1 if there is none. */
  function LastStarter(t: Table, us: seq<int>): (k: int)
    ensures IsLastStarter(t, us, k)
  {
    if us == [] then -1
    else if t.property(us[|us| - 1]).combiningClass == 0 then |us| - 1
    else
      var k := LastStarter(t, us[..|us| - 1]);
      assert forall i :: k < i < |us| - 1 ==> us[i] == us[..|us| - 1][i];
      k
  }

  /** Definition D115 of the Unicode Standard: between the starter at k and a code point behind the text
      stands a starter, or a code point of the same or a higher class. */
  ghost predicate Blocked(t: Table, us: seq<int>, k: int, uc: int) {
    exists i :: k < i < |us| && i >= 0
      && (t.property(us[i]).combiningClass == 0 || t.property(us[i]).combiningClass >= t.property(uc).combiningClass)
  }

  /** Definition D117, the canonical composition algorithm: each code point in turn is merged into the last
      starter before it unless it is blocked from that starter. */
  ghost function Composed(t: Table, stable: bool, us: seq<int>): seq<int> {
    if us == [] then []
    else
      var out, uc := Composed(t, stable, us[..|us| - 1]), us[|us| - 1];
      var k := LastStarter(t, out);
      if k >= 0 && !Blocked(t, out, k, uc) && Composite(t, stable, out[k], uc).Some?
      then out[k := Composite(t, stable, out[k], uc).value]
      else out + [uc]
  }

  /** The composite of a starter is a starter. */
  ghost predicate StartersStay(t: Table) {
    forall a, b {:trigger t.Combination(a, b)} ::
      t.Combination(a, b) >= 0 && t.property(a).combiningClass == 0
      ==> t.property(t.Combination(a, b)).combiningClass == 0
  }

  /** The state of the pass knows the last starter and the highest class behind it. */
  ghost predicate Tracks(t: Table, st: State) {
    && IsLastStarter(t, st.out, st.starter)
    && (st.starter >= 0 ==>
          && (forall i :: st.starter < i < |st.out| ==> t.property(st.out[i]).combiningClass <= st.maxcc)
          && (if st.maxcc < 0 then st.starter == |st.out| - 1 && st.maxcc == -1
              else exists i :: st.starter < i < |st.out| && t.property(st.out[i]).combiningClass == st.maxcc))
  }

  lemma LastStarterUnique(t: Table, us: seq<int>, k: int)
    requires IsLastStarter(t, us, k)
    ensures k == LastStarter(t, us)
  {
  }

  lemma TracksBlocked(t: Table, st: State, uc: int)
    requires Tracks(t, st) && st.starter >= 0 && t.property(uc).combiningClass >= 0
    ensures t.property(uc).combiningClass > st.maxcc <==> !Blocked(t, st.out, st.starter, uc)
  {
  }

  lemma CompositeStarter(t: Table, stable: bool, a: int, b: int)
    requires t.HangulIsAlgorithmic() && StartersStay(t) && t.property(a).combiningClass == 0
    ensures Composite(t, stable, a, b).Some? ==> t.property(Composite(t, stable, a, b).value).combiningClass == 0
  {
    if IsHangulL(a) && IsHangulV(b) {
      JamoOfLV(a, b);
    } else if IsHangulLV(a) && IsHangulT(b) && b != HANGUL_TBASE {
      JamoOfLVT(a, b);
    }
  }

  lemma AppendTracks(t: Table, st: State, uc: int)
    requires Tracks(t, st) && t.property(uc).combiningClass >= 0
    ensures Tracks(t, Append(t, st, uc))
  {
    var st' := Append(t, st, uc);
    assert forall i :: 0 <= i < |st.out| ==> st'.out[i] == st.out[i];
    assert st'.out[|st.out|] == uc;
    if t.property(uc).combiningClass != 0 && st.starter >= 0 && t.property(uc).combiningClass <= st.maxcc {
      var i :| st.starter < i < |st.out| && t.property(st.out[i]).combiningClass == st.maxcc;
      assert t.property(st'.out[i]).combiningClass == st'.maxcc;
    }
  }

  lemma ReplaceTracks(t: Table, st: State, c: int)
    requires Tracks(t, st) && st.starter >= 0 && t.property(c).combiningClass == 0
    ensures Tracks(t, st.(out := st.out[st.starter := c]))
  {
    var out' := st.out[st.starter := c];
    assert forall i :: st.starter < i < |st.out| ==> out'[i] == st.out[i];
    if st.maxcc >= 0 {
      var i :| st.starter < i < |st.out| && t.property(st.out[i]).combiningClass == st.maxcc;
      assert t.property(out'[i]).combiningClass == st.maxcc;
    }
  }

  /** The pass is the canonical composition algorithm. */
  lemma {:induction false} ComposeAllIsComposed(t: Table, stable: bool, us: seq<int>)
    requires t.ClassesNonnegative() && t.HangulIsAlgorithmic() && StartersStay(t) && AllInRange(us)
    ensures Tracks(t, Fold(t, stable, us)) && ComposeAll(t, stable, us) == Composed(t, stable, us)
  {
    if us != [] {
      var h, uc := us[..|us| - 1], us[|us| - 1];
      ComposeAllIsComposed(t, stable, h);
      var st := Fold(t, stable, h);
      LastStarterUnique(t, st.out, st.starter);
      AppendTracks(t, st, uc);
      if st.starter >= 0 {
        TracksBlocked(t, st, uc);
        CompositeStarter(t, stable, st.out[st.starter], uc);
        if Composes(t, stable, st, uc) {
          ReplaceTracks(t, st, Composite(t, stable, st.out[st.starter], uc).value);
        }
      }
    }
  }
}
