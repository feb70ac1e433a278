/** The REJECTNA option of utf8proc: when it makes a difference. An unassigned code point that is reached
    within a mapping does not end the loop over the mapping: its negative status is added to the number of
    code points written, which takes some of them back. */
module Rejecting {
  import opened UnicodeTable
  import opened Decomposing

  function Lenient(o: Options): Options { o.(rejectna := false) }

  /** Decomposing the code point reaches an unassigned one. */
  ghost predicate Meets(t: Table, uc: int, o: Options)
    requires t.MappingsDescend() && InRange(uc)
    decreases o.lump, t.depth(uc), 2, 0
  {
    if !Passes(t, uc, o) then
      t.Get(uc).category == CATEGORY_UNASSIGNED && !((o.compose || o.decompose) && IsHangulS(uc))
    else if Lumps(t, uc, o) then Meets(t, Lumped(uc, t.Get(uc).category, o).value, o.(lump := false))
    else MeetsUnlumped(t, uc, o)
  }

  ghost predicate MeetsUnlumped(t: Table, uc: int, o: Options)
    requires t.MappingsDescend() && InRange(uc)
    decreases o.lump, t.depth(uc), 1, 0
  {
    Maps(t, uc, o) && MeetsMapping(t, uc, o)
  }

  /** The code point is neither stripped nor kept, but replaced by a mapping. */
  predicate Maps(t: Table, uc: int, o: Options)
    requires InRange(uc)
  {
    var p := t.Get(uc);
    && !(o.stripmark && (p.category == CATEGORY_MN || p.category == CATEGORY_MC || p.category == CATEGORY_ME))
    && Mapping(p, o).Some?
  }

  ghost predicate MeetsMapping(t: Table, uc: int, o: Options)
    requires t.MappingsDescend() && InRange(uc) && Maps(t, uc, o)
    decreases o.lump, t.depth(uc), 0
  {
    MeetsEach(t, Mapping(t.Get(uc), o).value, t.depth(uc), o)
  }

  ghost predicate MeetsEach(t: Table, us: seq<int>, d: nat, o: Options)
    requires t.MappingsDescend() && forall i :: 0 <= i < |us| ==> InRange(us[i]) && t.depth(us[i]) < d
    decreases o.lump, d, 0, |us|
  {
    us != [] && (Meets(t, us[0], o) || MeetsEach(t, us[1..], d, o))
  }

  // ---------------------------------------------------------------- no difference

  lemma {:induction false} Same(t: Table, uc: int, o: Options, lbc: int)
    requires t.MappingsDescend() && InRange(uc) && o.rejectna && !Meets(t, uc, o)
    ensures Decomp(t, uc, o, lbc) == Decomp(t, uc, Lenient(o), lbc)
    decreases o.lump, t.depth(uc), 2, 0
  {
    if !Passes(t, uc, o) {
      SameEarly(t, uc, o, lbc);
    } else if Lumps(t, uc, o) {
      SameLump(t, Lumped(uc, t.Get(uc).category, o).value, o, lbc);
      LumpsAlike(t, uc, o, lbc);
    } else {
      SameUnlumped(t, uc, o, lbc);
      UnlumpedAlike(t, uc, o, lbc);
    }
  }

  predicate Lumps(t: Table, uc: int, o: Options)
    requires InRange(uc)
  {
    o.lump && Lumped(uc, t.Get(uc).category, o).Some?
  }

  /** None of the tests before LUMP decides. */
  predicate Passes(t: Table, uc: int, o: Options)
    requires InRange(uc)
  {
    && t.Get(uc).category != CATEGORY_UNASSIGNED
    && !((o.compose || o.decompose) && IsHangulS(uc)) && !(o.ignore && t.Get(uc).ignorable)
  }

  lemma SameEarly(t: Table, uc: int, o: Options, lbc: int)
    requires t.MappingsDescend() && InRange(uc) && !Passes(t, uc, o)
    requires t.Get(uc).category == CATEGORY_UNASSIGNED ==> (o.compose || o.decompose) && IsHangulS(uc)
    ensures Decomp(t, uc, o, lbc) == Decomp(t, uc, Lenient(o), lbc)
  {
  }

  lemma LumpsAlike(t: Table, uc: int, o: Options, lbc: int)
    requires t.MappingsDescend() && InRange(uc) && Passes(t, uc, o) && Lumps(t, uc, o)
    ensures var r := Lumped(uc, t.Get(uc).category, o).value;
            && Decomp(t, uc, o, lbc) == Decomp(t, r, o.(lump := false), lbc)
            && Decomp(t, uc, Lenient(o), lbc) == Decomp(t, r, Lenient(o).(lump := false), lbc)
  {
  }

  lemma UnlumpedAlike(t: Table, uc: int, o: Options, lbc: int)
    requires t.MappingsDescend() && InRange(uc) && Passes(t, uc, o) && !Lumps(t, uc, o)
    ensures Decomp(t, uc, o, lbc) == Unlumped(t, uc, o, lbc)
    ensures Decomp(t, uc, Lenient(o), lbc) == Unlumped(t, uc, Lenient(o), lbc)
  {
  }

  lemma SameLump(t: Table, replacement: int, o: Options, lbc: int)
    requires t.MappingsDescend() && InRange(replacement) && o.rejectna && o.lump
    requires !Meets(t, replacement, o.(lump := false))
    ensures Decomp(t, replacement, o.(lump := false), lbc) == Decomp(t, replacement, Lenient(o).(lump := false), lbc)
    decreases o.lump, 0, 0, 0
  {
    assert Lenient(o.(lump := false)) == Lenient(o).(lump := false);
    Same(t, replacement, o.(lump := false), lbc);
  }

  lemma SameUnlumped(t: Table, uc: int, o: Options, lbc: int)
    requires t.MappingsDescend() && InRange(uc) && o.rejectna && !MeetsUnlumped(t, uc, o)
    ensures Unlumped(t, uc, o, lbc) == Unlumped(t, uc, Lenient(o), lbc)
    decreases o.lump, t.depth(uc), 1, 0
  {
    if Maps(t, uc, o) {
      UnlumpedMaps(t, uc, o, lbc);
      UnlumpedMaps(t, uc, Lenient(o), lbc);
      SameMapping(t, uc, o, lbc);
    } else {
      UnlumpedEnds(t, uc, o, lbc);
    }
  }

  lemma UnlumpedMaps(t: Table, uc: int, o: Options, lbc: int)
    requires t.MappingsDescend() && InRange(uc) && Maps(t, uc, o)
    ensures Unlumped(t, uc, o, lbc) == DecompEach(t, Mapping(t.Get(uc), o).value, t.depth(uc), o, lbc, [])
  {
  }

  lemma UnlumpedEnds(t: Table, uc: int, o: Options, lbc: int)
    requires t.MappingsDescend() && InRange(uc) && !Maps(t, uc, o)
    ensures Unlumped(t, uc, o, lbc) == Unlumped(t, uc, Lenient(o), lbc)
    ensures 0 <= Unlumped(t, uc, o, lbc).ret <= 2
  {
  }

  lemma SameMapping(t: Table, uc: int, o: Options, lbc: int)
    requires t.MappingsDescend() && InRange(uc) && o.rejectna && Maps(t, uc, o) && !MeetsMapping(t, uc, o)
    ensures DecompEach(t, Mapping(t.Get(uc), o).value, t.depth(uc), o, lbc, [])
         == DecompEach(t, Mapping(t.Get(uc), o).value, t.depth(uc), Lenient(o), lbc, [])
    decreases o.lump, t.depth(uc), 0
  {
    SameEach(t, Mapping(t.Get(uc), o).value, t.depth(uc), o, lbc, []);
  }

  lemma {:induction false} SameEach(t: Table, us: seq<int>, d: nat, o: Options, lbc: int, acc: seq<int>)
    requires t.MappingsDescend() && o.rejectna
    requires forall i :: 0 <= i < |us| ==> InRange(us[i]) && t.depth(us[i]) < d
    requires !MeetsEach(t, us, d, o) && forall i :: 0 <= i < |acc| ==> InRange(acc[i])
    ensures DecompEach(t, us, d, o, lbc, acc) == DecompEach(t, us, d, Lenient(o), lbc, acc)
    decreases o.lump, d, 0, |us|
  {
    if us != [] {
      Same(t, us[0], o, lbc);
      AcceptsAll(t, us[0], Lenient(o), lbc);
      var r := Decomp(t, us[0], o, lbc);
      SameEach(t, us[1..], d, o, r.lbc, Written(acc, r));
    }
  }

  // ---------------------------------------------------------------- a difference

  /** Two runs with different boundary classes behind them may differ by one marker. */
  function Slack(a: int, b: int): int { if a == b then 0 else 1 }

  /** An unassigned code point makes the strict run fall behind by more than that. */
  function Loss(meets: bool): int { if meets then 1 else 0 }

  ghost predicate FallsBehind(strict: Decomposition, lenient: Decomposition, bound: int) {
    lenient.ret >= 0 && strict.ret + Slack(strict.lbc, lenient.lbc) <= lenient.ret + bound
  }

  lemma {:induction false} Compare(t: Table, uc: int, o: Options, a: int, b: int)
    requires t.MappingsDescend() && InRange(uc) && o.rejectna
    ensures FallsBehind(Decomp(t, uc, o, a), Decomp(t, uc, Lenient(o), b), Slack(a, b) - Loss(Meets(t, uc, o)))
    decreases o.lump, t.depth(uc), 2, 0
  {
    if !Passes(t, uc, o) {
      CompareEarly(t, uc, o, a, b);
    } else if Lumps(t, uc, o) {
      LumpsAlike(t, uc, o, a);
      LumpsAlike(t, uc, o, b);
      CompareLump(t, Lumped(uc, t.Get(uc).category, o).value, o, a, b);
    } else {
      UnlumpedAlike(t, uc, o, a);
      UnlumpedAlike(t, uc, o, b);
      CompareUnlumped(t, uc, o, a, b);
    }
  }

  lemma CompareEarly(t: Table, uc: int, o: Options, a: int, b: int)
    requires t.MappingsDescend() && InRange(uc) && o.rejectna && !Passes(t, uc, o)
    ensures FallsBehind(Decomp(t, uc, o, a), Decomp(t, uc, Lenient(o), b), Slack(a, b) - Loss(Meets(t, uc, o)))
  {
    AcceptsAll(t, uc, Lenient(o), b);
  }

  lemma CompareLump(t: Table, replacement: int, o: Options, a: int, b: int)
    requires t.MappingsDescend() && InRange(replacement) && o.rejectna && o.lump
    ensures FallsBehind(Decomp(t, replacement, o.(lump := false), a), Decomp(t, replacement, Lenient(o).(lump := false), b),
                        Slack(a, b) - Loss(Meets(t, replacement, o.(lump := false))))
    decreases o.lump, 0, 0, 0
  {
    assert Lenient(o.(lump := false)) == Lenient(o).(lump := false);
    Compare(t, replacement, o.(lump := false), a, b);
  }

  lemma CompareUnlumped(t: Table, uc: int, o: Options, a: int, b: int)
    requires t.MappingsDescend() && InRange(uc) && o.rejectna
    ensures FallsBehind(Unlumped(t, uc, o, a), Unlumped(t, uc, Lenient(o), b),
                        Slack(a, b) - Loss(MeetsUnlumped(t, uc, o)))
    decreases o.lump, t.depth(uc), 1, 0
  {
    if Maps(t, uc, o) {
      UnlumpedMaps(t, uc, o, a);
      UnlumpedMaps(t, uc, Lenient(o), b);
      CompareMapping(t, uc, o, a, b);
    } else {
      UnlumpedEnds(t, uc, o, b);
      EndsAlike(t, uc, o, a, b);
    }
  }

  /** A code point that is not mapped is kept or not whatever came before; the markers differ by one at most. */
  lemma EndsAlike(t: Table, uc: int, o: Options, a: int, b: int)
    requires t.MappingsDescend() && InRange(uc) && !Maps(t, uc, o)
    ensures FallsBehind(Unlumped(t, uc, o, a), Unlumped(t, uc, o, b), Slack(a, b))
  {
  }

  lemma CompareMapping(t: Table, uc: int, o: Options, a: int, b: int)
    requires t.MappingsDescend() && InRange(uc) && o.rejectna && Maps(t, uc, o)
    ensures FallsBehind(DecompEach(t, Mapping(t.Get(uc), o).value, t.depth(uc), o, a, []),
                        DecompEach(t, Mapping(t.Get(uc), o).value, t.depth(uc), Lenient(o), b, []),
                        Slack(a, b) - Loss(MeetsMapping(t, uc, o)))
    decreases o.lump, t.depth(uc), 0
  {
    CompareEach(t, Mapping(t.Get(uc), o).value, t.depth(uc), o, a, b, [], [], Slack(a, b));
  }

  /** bound less the loss, but no lower than what an overflow can give. */
  function Lower(bound: int, meets: bool): int { if meets && bound > -1 then bound - 1 else bound }

  lemma {:induction false} CompareEach(t: Table, us: seq<int>, d: nat, o: Options, a: int, b: int,
                                       accA: seq<int>, accB: seq<int>, bound: int)
    requires t.MappingsDescend() && o.rejectna
    requires forall i :: 0 <= i < |us| ==> InRange(us[i]) && t.depth(us[i]) < d
    requires forall i :: 0 <= i < |accA| ==> InRange(accA[i])
    requires forall i :: 0 <= i < |accB| ==> InRange(accB[i])
    requires -1 <= bound && |accA| + Slack(a, b) <= |accB| + bound
    ensures FallsBehind(DecompEach(t, us, d, o, a, accA), DecompEach(t, us, d, Lenient(o), b, accB),
                        Lower(bound, MeetsEach(t, us, d, o)))
    decreases o.lump, d, 0, |us|
  {
    if us != [] {
      var r, q := Decomp(t, us[0], o, a), Decomp(t, us[0], Lenient(o), b);
      Compare(t, us[0], o, a, b);
      AcceptsEach(t, us, d, Lenient(o), b, accB);
      if |accA| + r.ret >= 0 {
        var next := Lower(bound, Meets(t, us[0], o));
        CompareEach(t, us[1..], d, o, r.lbc, q.lbc, Written(accA, r), Written(accB, q), next);
      }
    }
  }

  /** The option makes a difference exactly if an unassigned code point is reached, and then fewer code points
      or an error are reported, for every table. */
  lemma RejectsExactly(t: Table, uc: int, o: Options, lbc: int)
    requires t.MappingsDescend() && InRange(uc) && o.rejectna
    ensures Decomp(t, uc, o, lbc) == Decomp(t, uc, Lenient(o), lbc) <==> !Meets(t, uc, o)
    ensures Meets(t, uc, o) ==> Decomp(t, uc, o, lbc).ret < Decomp(t, uc, Lenient(o), lbc).ret
  {
    if Meets(t, uc, o) {
      Compare(t, uc, o, lbc, lbc);
    } else {
      Same(t, uc, o, lbc);
    }
  }

  // ---------------------------------------------------------------- tables with assigned mappings

  /** ASCII, which holds all replacements of the LUMP option, is assigned. */
  ghost predicate LumpsAssigned(t: Table) {
    forall uc :: 0 <= uc < 0x80 ==> t.property(uc).category != CATEGORY_UNASSIGNED
  }

  lemma {:induction false} MeetsItself(t: Table, uc: int, o: Options)
    requires t.MappingsDescend() && t.MappingsAssigned() && LumpsAssigned(t) && InRange(uc)
    ensures Meets(t, uc, o) <==>
            t.property(uc).category == CATEGORY_UNASSIGNED && !((o.compose || o.decompose) && IsHangulS(uc))
    decreases o.lump, t.depth(uc), 2, 0
  {
    if Lumps(t, uc, o) {
      MeetsItself(t, Lumped(uc, t.Get(uc).category, o).value, o.(lump := false));
    } else if Maps(t, uc, o) {
      MappingMeetsNone(t, uc, o);
    }
  }

  lemma MappingMeetsNone(t: Table, uc: int, o: Options)
    requires t.MappingsDescend() && t.MappingsAssigned() && LumpsAssigned(t) && InRange(uc) && Maps(t, uc, o)
    ensures !MeetsMapping(t, uc, o)
    decreases o.lump, t.depth(uc), 1, 0
  {
    MeetsNone(t, Mapping(t.Get(uc), o).value, t.depth(uc), o);
  }

  lemma {:induction false} MeetsNone(t: Table, us: seq<int>, d: nat, o: Options)
    requires t.MappingsDescend() && t.MappingsAssigned() && LumpsAssigned(t) && t.AllAssigned(us)
    requires forall i :: 0 <= i < |us| ==> InRange(us[i]) && t.depth(us[i]) < d
    ensures !MeetsEach(t, us, d, o)
    decreases o.lump, d, 0, |us|
  {
    if us != [] {
      MeetsItself(t, us[0], o);
      MeetsNone(t, us[1..], d, o);
    }
  }

  /** With assigned mappings the option rejects unassigned code points and changes nothing else. */
  lemma RejectsUnassigned(t: Table, uc: int, o: Options, lbc: int)
    requires t.MappingsDescend() && t.MappingsAssigned() && LumpsAssigned(t) && InRange(uc) && o.rejectna
    ensures Decomp(t, uc, o, lbc) ==
            if t.property(uc).category == CATEGORY_UNASSIGNED && !((o.compose || o.decompose) && IsHangulS(uc))
            then Decomposition(ERROR_NOTASSIGNED, [], lbc)
            else Decomp(t, uc, Lenient(o), lbc)
  {
    MeetsItself(t, uc, o);
    RejectsExactly(t, uc, o, lbc);
  }
}
