/** utf8proc_NFD, utf8proc_NFC, utf8proc_NFKD and utf8proc_NFKC on terminated strings: their results are
    terminated strings again, so the laws of utf8proc_map carry over to calling them in a row. */
module NormalForms {
  import opened Utf8
  import opened UnicodeTable
  import opened CanonicalOrder
  import opened Decomposing
  import opened Normalization
  import opened Composition
  import opened PrimaryComposites
  import opened Utf8Map

  /** NULLTERM and STABLE with COMPOSE or DECOMPOSE, and COMPAT for the compatibility forms. */
  function FormOptions(compose: bool, compat: bool): Options {
    Options(true, true, compat, compose, !compose, false, false, false, false, false, false, false, false, false)
  }

  ghost function Form(t: Table, str: seq<byte>, compose: bool, compat: bool): Mapped
    requires t.MappingsDescend() && 0 in str
  {
    MapText(t, Terminated(str), FormOptions(compose, compat))
  }

  /** The four functions. */
  method NormalForm(t: Table, str: seq<byte>, compose: bool, compat: bool, allocates: bool) returns (dst: array?<byte>)
    requires t.Valid() && 0 in str
    ensures var m := Form(t, str, compose, compat);
            if m.ret < 0 || !allocates then dst == null else dst != null && dst[..] == m.bytes + [0]
  {
    var result;
    result, dst := Map(t, str, 0, FormOptions(compose, compat), allocates);
  }

  // ---------------------------------------------------------------- no zero is made up

  /** Code points other than U+0000. */
  ghost predicate Proper(us: seq<int>) { forall i :: 0 <= i < |us| ==> InRange(us[i]) && us[i] != 0 }

  lemma {:induction false} FullProper(t: Table, compat: bool, uc: int)
    requires t.MappingsDescend() && InRange(uc) && uc != 0
    ensures Proper(Full(t, compat, uc))
    decreases t.depth(uc), 1, 0
  {
    if !IsHangulS(uc) && CanonicalMapping(t, compat, uc).Some? {
      var m := CanonicalMapping(t, compat, uc).value;
      assert t.MapsDown(uc, m);
      FullEachProper(t, compat, m, t.depth(uc));
    }
  }

  lemma {:induction false} FullEachProper(t: Table, compat: bool, us: seq<int>, d: nat)
    requires t.MappingsDescend() && Proper(us) && forall i :: 0 <= i < |us| ==> t.depth(us[i]) < d
    ensures Proper(FullEach(t, compat, us, d))
    decreases d, 0, |us|
  {
    if us != [] {
      FullProper(t, compat, us[0]);
      FullEachProper(t, compat, us[1..], d);
    }
  }

  lemma {:induction false} AllProper(t: Table, compat: bool, us: seq<int>)
    requires t.MappingsDescend() && Proper(us)
    ensures AllInRange(us) && Proper(All(t, compat, us))
  {
    if us != [] {
      FullProper(t, compat, us[0]);
      AllProper(t, compat, us[1..]);
    }
  }

  lemma CanonicalProper(cc: Classes, us: seq<int>)
    requires Proper(us)
    ensures Proper(Canonical(cc, us))
  {
    var c := Canonical(cc, us);
    CanonicalPermutes(cc, us);
    forall i | 0 <= i < |c|
      ensures InRange(c[i]) && c[i] != 0
    {
      assert c[i] in multiset(us);
    }
  }

  lemma {:induction false} FoldProper(t: Table, stable: bool, us: seq<int>)
    requires t.CombinationsInvert() && Proper(us)
    ensures Proper(Fold(t, stable, us).out)
  {
    if us != [] {
      var h, uc := us[..|us| - 1], us[|us| - 1];
      FoldProper(t, stable, h);
      StepProper(t, stable, Fold(t, stable, h), uc);
    }
  }

  lemma StepProper(t: Table, stable: bool, st: State, uc: int)
    requires t.CombinationsInvert() && Proper(st.out) && InRange(uc) && uc != 0
    ensures Proper(Step(t, stable, st, uc).out)
  {
    if Composes(t, stable, st, uc) {
      CompositeProper(t, stable, st.out[st.starter], uc);
    }
  }

  lemma CompositeProper(t: Table, stable: bool, a: int, b: int)
    requires t.CombinationsInvert() && InRange(a) && InRange(b) && Composite(t, stable, a, b).Some?
    ensures InRange(Composite(t, stable, a, b).value) && Composite(t, stable, a, b).value != 0
  {
  }

  lemma NormalProper(t: Table, us: seq<int>, o: Options)
    requires t.Valid() && Proper(us)
    ensures AllInRange(us) && Proper(Normal(t, us, o))
  {
    AllProper(t, o.compat, us);
    CanonicalProper(ClassesOf(t), All(t, o.compat, us));
    FoldProper(t, o.stable, Nfd(t, o.compat, us));
  }

  lemma {:induction false} ZeroBytes(us: seq<int>)
    requires forall i :: 0 <= i < |us| ==> InRange(us[i])
    ensures 0 in EncodeAll(us) <==> 0 in us
  {
    if us != [] {
      ZeroBytes(us[1..]);
      ZeroByte(us[0]);
    }
  }

  lemma ZeroByte(uc: int)
    requires InRange(uc)
    ensures 0 in EncodeChar(uc) <==> uc == 0
  {
    if uc == 0 { assert EncodeChar(uc)[0] == 0; }
  }

  // ---------------------------------------------------------------- the laws

  lemma IndexOfOnlyZero(s: seq<byte>)
    requires 0 !in s
    ensures 0 in s + [0] && Terminated(s + [0]) == s
  {
    var str := s + [0];
    assert str[|s|] == 0 && forall i :: 0 <= i < |s| ==> str[i] == s[i];
    var z := IndexOfZero(str);
    assert str[z] == 0 && 0 !in str[..z];
  }

  /** What a form writes is a terminated string without an earlier zero. */
  lemma FormTerminated(t: Table, str: seq<byte>, compose: bool, compat: bool)
    requires t.Valid() && 0 in str && Form(t, str, compose, compat).ret >= 0
    ensures var bytes := Form(t, str, compose, compat).bytes;
            0 in bytes + [0] && Terminated(bytes + [0]) == bytes
  {
    var s, o := Terminated(str), FormOptions(compose, compat);
    MapNormalizes(t, s, o);
    EncodeAllOfDecodeAll(s);
    var us := DecodeAll(s).us;
    ZeroBytes(us);
    NormalProper(t, us, o);
    ZeroBytes(Normal(t, us, o));
    IndexOfOnlyZero(EncodeAll(Normal(t, us, o)));
  }

  /** Calling a form on its own result gives the same string. */
  lemma FormIdempotent(t: Table, str: seq<byte>, compose: bool, compat: bool)
    requires t.Valid() && 0 in str && Form(t, str, compose, compat).ret >= 0
    ensures var m := Form(t, str, compose, compat);
            0 in m.bytes + [0] && Form(t, m.bytes + [0], compose, compat) == m
  {
    FormTerminated(t, str, compose, compat);
    MapIdempotent(t, Terminated(str), FormOptions(compose, compat));
  }

  /** Decomposing the composed form gives the decomposed form, exactly for strings in whose decomposition no
      U+11A7 follows a leading consonant and a vowel. */
  lemma FormsAgree(t: Table, str: seq<byte>, compat: bool)
    requires t.Valid() && 0 in str && Form(t, str, true, compat).ret >= 0
    ensures DecodeAll(Terminated(str)).Text? && AllInRange(DecodeAll(Terminated(str)).us)
    ensures var c := Form(t, str, true, compat);
            && 0 in c.bytes + [0]
            && (Form(t, c.bytes + [0], false, compat) == Form(t, str, false, compat)
                <==> !Loses(Nfd(t, compat, DecodeAll(Terminated(str)).us)))
  {
    FormTerminated(t, str, true, compat);
    MapEquivalent(t, Terminated(str), FormOptions(true, compat), FormOptions(false, compat));
  }

  /** A composed form holds no composite that is excluded from composition: its code points do not decompose,
      are syllables, or are composites that the pass may write. */
  lemma FormComposed(t: Table, str: seq<byte>, compat: bool)
    requires t.Valid() && 0 in str && Form(t, str, true, compat).ret >= 0
    ensures var d := DecodeAll(Form(t, str, true, compat).bytes);
            d.Text? && AllPrimary(t, true, compat, d.us)
  {
    var o := FormOptions(true, compat);
    MapNormalizes(t, Terminated(str), o);
    EncodeAllOfDecodeAll(Terminated(str));
    var us := DecodeAll(Terminated(str)).us;
    NormalValid(t, us, o);
    DecodeAllOfEncodeAll(Normal(t, us, o));
    NfcPrimary(t, true, compat, us);
  }

  /** A decomposed form holds nothing to decompose, and no mark behind one of a higher class. */
  lemma FormDecomposed(t: Table, str: seq<byte>, compat: bool)
    requires t.Valid() && 0 in str && Form(t, str, false, compat).ret >= 0
    ensures var d := DecodeAll(Form(t, str, false, compat).bytes);
            && d.Text?
            && (forall i :: 0 <= i < |d.us| ==>
                  !IsHangulS(d.us[i]) && (t.property(d.us[i]).decompMapping.Some? ==>
                                            !compat && t.property(d.us[i]).decompType != 0))
            && forall i, j :: 0 <= i && j == i + 1 < |d.us| && t.property(d.us[j]).combiningClass > 0 ==>
                 t.property(d.us[i]).combiningClass <= t.property(d.us[j]).combiningClass
  {
    var o := FormOptions(false, compat);
    MapNormalizes(t, Terminated(str), o);
    EncodeAllOfDecodeAll(Terminated(str));
    var us := DecodeAll(Terminated(str)).us;
    NormalValid(t, us, o);
    var d := Normal(t, us, o);
    DecodeAllOfEncodeAll(d);
    NfdDecomposed(t, compat, us);
    CanonicalOrdered(ClassesOf(t), All(t, compat, us));
    forall i, j | 0 <= i && j == i + 1 < |d| && t.property(d[j]).combiningClass > 0
      ensures t.property(d[i]).combiningClass <= t.property(d[j]).combiningClass
    {
      assert !Reorderable(ClassesOf(t), d[i], d[i + 1]);
    }
  }
}
