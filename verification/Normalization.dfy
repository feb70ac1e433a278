/** Normalization as utf8proc computes it: full decomposition, canonical ordering, composition. The
    code point level theory behind utf8proc_NFD, utf8proc_NFC, utf8proc_NFKD and utf8proc_NFKC. */
module Normalization {
  import opened Sequences
  import opened Utf8
  import opened UnicodeTable
  import opened CanonicalOrder
  import opened Decomposing
  import opened Wrappers

  // ---------------------------------------------------------------- full decomposition

  /** The mapping to follow; compat asks for compatibility mappings as well. */
  function CanonicalMapping(t: Table, compat: bool, uc: int): Option<seq<int>> {
    if t.property(uc).decompType == 0 || compat then t.property(uc).decompMapping else None
  }

  /** The full decomposition of a code point. */
  function Full(t: Table, compat: bool, uc: int): (r: seq<int>)
    requires t.MappingsDescend() && InRange(uc)
    decreases t.depth(uc), 1, 0
  {
    if IsHangulS(uc) then HangulJamo(uc)
    else
      match CanonicalMapping(t, compat, uc)
      case Some(m) => FullEach(t, compat, m, t.depth(uc))
      case None => [uc]
  }

  function FullEach(t: Table, compat: bool, us: seq<int>, d: nat): (r: seq<int>)
    requires t.MappingsDescend()
    requires forall i :: 0 <= i < |us| ==> InRange(us[i]) && t.depth(us[i]) < d
    decreases d, 0, |us|
  {
    if us == [] then [] else Full(t, compat, us[0]) + FullEach(t, compat, us[1..], d)
  }

  ghost predicate AllInRange(us: seq<int>) {
    forall i :: 0 <= i < |us| ==> InRange(us[i])
  }

  /** The full decomposition of a text. */
  function All(t: Table, compat: bool, us: seq<int>): (r: seq<int>)
    requires t.MappingsDescend() && AllInRange(us)
  {
    if us == [] then [] else Full(t, compat, us[0]) + All(t, compat, us[1..])
  }

  lemma {:induction false} FullEachIsAll(t: Table, compat: bool, us: seq<int>, d: nat)
    requires t.MappingsDescend()
    requires forall i :: 0 <= i < |us| ==> InRange(us[i]) && t.depth(us[i]) < d
    ensures FullEach(t, compat, us, d) == All(t, compat, us)
  {
    if us != [] {
      FullEachIsAll(t, compat, us[1..], d);
    }
  }

  lemma {:induction false} AllConcat(t: Table, compat: bool, a: seq<int>, b: seq<int>)
    requires t.MappingsDescend() && AllInRange(a) && AllInRange(b)
    ensures AllInRange(a + b) && All(t, compat, a + b) == All(t, compat, a) + All(t, compat, b)
  {
    if a == [] {
      assert a + b == b;
    } else {
      AllConcat(t, compat, a[1..], b);
      var c := a + b;
      assert c[0] == a[0] && c[1..] == a[1..] + b;
      Associative(Full(t, compat, a[0]), All(t, compat, a[1..]), All(t, compat, b));
    }
  }

  /** Options under which decomposition does nothing but decompose. */
  predicate Plain(o: Options) {
    && (o.compose || o.decompose)
    && !o.ignore && !o.rejectna && !o.casefold && !o.charbound && !o.lump && !o.stripmark
  }

  /** utf8proc_decompose_char computes the full decomposition. */
  lemma {:induction false} DecompIsFull(t: Table, uc: int, o: Options, lbc: int)
    requires t.MappingsDescend() && InRange(uc) && Plain(o)
    ensures Decomp(t, uc, o, lbc) == Decomposition(|Full(t, o.compat, uc)|, Full(t, o.compat, uc), lbc)
    decreases t.depth(uc), 1, 0
  {
    if !IsHangulS(uc) && Mapping(t.Get(uc), o).Some? {
      DecompEachIsFull(t, Mapping(t.Get(uc), o).value, t.depth(uc), o, lbc, []);
    }
  }

  lemma {:induction false} DecompEachIsFull(t: Table, us: seq<int>, d: nat, o: Options, lbc: int, acc: seq<int>)
    requires t.MappingsDescend() && Plain(o)
    requires forall i :: 0 <= i < |us| ==> InRange(us[i]) && t.depth(us[i]) < d
    requires forall i :: 0 <= i < |acc| ==> InRange(acc[i])
    ensures var f := acc + FullEach(t, o.compat, us, d);
            DecompEach(t, us, d, o, lbc, acc) == Decomposition(|f|, f, lbc)
    decreases d, 0, |us|
  {
    if us == [] {
      assert acc + [] == acc;
    } else {
      DecompIsFull(t, us[0], o, lbc);
      var f := Full(t, o.compat, us[0]);
      assert WellFormed(Decomp(t, us[0], o, lbc));
      DecompEachIsFull(t, us[1..], d, o, lbc, acc + f);
      assert acc + FullEach(t, o.compat, us, d) == (acc + f) + FullEach(t, o.compat, us[1..], d);
    }
  }

  /** Nothing is left to decompose. */
  predicate Terminal(t: Table, compat: bool, uc: int) {
    CodepointValid(uc) && !IsHangulS(uc) && CanonicalMapping(t, compat, uc).None?
  }

  ghost predicate Decomposed(t: Table, compat: bool, us: seq<int>) {
    forall i :: 0 <= i < |us| ==> Terminal(t, compat, us[i])
  }

  lemma {:induction false} FullDecomposed(t: Table, compat: bool, uc: int)
    requires t.Valid() && CodepointValid(uc)
    ensures Decomposed(t, compat, Full(t, compat, uc))
    decreases t.depth(uc), 1, 0
  {
    if IsHangulS(uc) {
      var j := HangulJamo(uc);
      assert forall i :: 0 <= i < |j| ==> IsHangulL(j[i]) || IsHangulV(j[i]) || IsHangulT(j[i]);
    } else {
      match CanonicalMapping(t, compat, uc)
      case Some(m) =>
        assert t.MapsDown(uc, m);
        FullEachDecomposed(t, compat, m, t.depth(uc));
      case None =>
    }
  }

  lemma {:induction false} FullEachDecomposed(t: Table, compat: bool, us: seq<int>, d: nat)
    requires t.Valid()
    requires forall i :: 0 <= i < |us| ==> InRange(us[i]) && t.depth(us[i]) < d
    requires AllValid(us)
    ensures Decomposed(t, compat, FullEach(t, compat, us, d))
    decreases d, 0, |us|
  {
    if us != [] {
      FullDecomposed(t, compat, us[0]);
      FullEachDecomposed(t, compat, us[1..], d);
    }
  }

  lemma {:induction false} AllDecomposed(t: Table, compat: bool, us: seq<int>)
    requires t.Valid() && AllValid(us)
    ensures Decomposed(t, compat, All(t, compat, us))
  {
    if us != [] {
      FullDecomposed(t, compat, us[0]);
      AllDecomposed(t, compat, us[1..]);
    }
  }

  lemma {:induction false} DecomposedIsAll(t: Table, compat: bool, us: seq<int>)
    requires t.MappingsDescend() && Decomposed(t, compat, us)
    ensures AllInRange(us) && All(t, compat, us) == us
  {
    if us != [] {
      DecomposedIsAll(t, compat, us[1..]);
      assert us == [us[0]] + us[1..];
    }
  }

  // ---------------------------------------------------------------- normalization form D

  function Nfd(t: Table, compat: bool, us: seq<int>): seq<int>
    requires t.MappingsDescend() && AllInRange(us)
  {
    Canonical(ClassesOf(t), All(t, compat, us))
  }

  lemma CanonicalKeeps(t: Table, compat: bool, us: seq<int>)
    requires Decomposed(t, compat, us)
    ensures Decomposed(t, compat, Canonical(ClassesOf(t), us))
  {
    var c := Canonical(ClassesOf(t), us);
    CanonicalPermutes(ClassesOf(t), us);
    forall i | 0 <= i < |c| ensures Terminal(t, compat, c[i]) {
      assert c[i] in multiset(us);
    }
  }

  lemma NfdDecomposed(t: Table, compat: bool, us: seq<int>)
    requires t.Valid() && AllValid(us)
    ensures Decomposed(t, compat, Nfd(t, compat, us)) && Ordered(ClassesOf(t), Nfd(t, compat, us))
  {
    AllDecomposed(t, compat, us);
    CanonicalKeeps(t, compat, All(t, compat, us));
    CanonicalOrdered(ClassesOf(t), All(t, compat, us));
  }

  /** Decomposed and ordered text is its own normal form. */
  lemma NfdFixed(t: Table, compat: bool, us: seq<int>)
    requires t.Valid() && Decomposed(t, compat, us) && Ordered(ClassesOf(t), us)
    ensures AllInRange(us) && Nfd(t, compat, us) == us
  {
    DecomposedIsAll(t, compat, us);
    OrderedIsCanonical(ClassesOf(t), us);
  }

  lemma NfdIdempotent(t: Table, compat: bool, us: seq<int>)
    requires t.Valid() && AllValid(us)
    ensures AllInRange(Nfd(t, compat, us)) && Nfd(t, compat, Nfd(t, compat, us)) == Nfd(t, compat, us)
  {
    NfdDecomposed(t, compat, us);
    NfdFixed(t, compat, Nfd(t, compat, us));
  }
}
