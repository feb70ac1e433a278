/** The character property table of utf8proc and the options of its entry points. The contents of the
    table are a parameter; Valid collects what the algorithms rely on. */
module UnicodeTable {
  import opened Utf8
  import opened Wrappers

  const CATEGORY_UNASSIGNED: int := 0
  const CATEGORY_MN: int := 6
  const CATEGORY_MC: int := 7
  const CATEGORY_ME: int := 8
  const CATEGORY_PC: int := 12
  const CATEGORY_PD: int := 13
  const CATEGORY_ZS: int := 23
  const CATEGORY_ZL: int := 24
  const CATEGORY_ZP: int := 25
  const CATEGORY_CC: int := 26
  const CATEGORY_CF: int := 27

  const HANGUL_SBASE: int := 0xAC00
  const HANGUL_LBASE: int := 0x1100
  const HANGUL_VBASE: int := 0x1161
  const HANGUL_TBASE: int := 0x11A7
  const HANGUL_LCOUNT: int := 19
  const HANGUL_VCOUNT: int := 21
  const HANGUL_TCOUNT: int := 28
  const HANGUL_NCOUNT: int := 588
  const HANGUL_SCOUNT: int := 11172

  predicate IsHangulL(uc: int) { 0 <= uc - HANGUL_LBASE < HANGUL_LCOUNT }
  predicate IsHangulV(uc: int) { 0 <= uc - HANGUL_VBASE < HANGUL_VCOUNT }
  /** As the composition pass tests it: U+11A7 itself, which is no trailing consonant, is included. */
  predicate IsHangulT(uc: int) { 0 <= uc - HANGUL_TBASE < HANGUL_TCOUNT }
  predicate IsHangulS(uc: int) { 0 <= uc - HANGUL_SBASE < HANGUL_SCOUNT }
  predicate IsHangulLV(uc: int) { IsHangulS(uc) && (uc - HANGUL_SBASE) % HANGUL_TCOUNT == 0 }

  predicate InRange(uc: int) { 0 <= uc < 0x110000 }

  datatype Options = Options(
    nullterm: bool, stable: bool, compat: bool, compose: bool, decompose: bool, ignore: bool,
    rejectna: bool, nlf2ls: bool, nlf2ps: bool, stripcc: bool, casefold: bool, charbound: bool,
    lump: bool, stripmark: bool)

  datatype Property = Property(
    category: int, combiningClass: int, decompType: int, decompMapping: Option<seq<int>>,
    comb1st: int, comb2nd: int, compExclusion: bool, ignorable: bool, extend: bool,
    casefoldMapping: Option<seq<int>>)

  /** depth bounds how often the mappings of a code point can be followed. */
  datatype Table = Table(property: int -> Property, combinations: int -> int, depth: int -> nat) {

    function Get(uc: int): Property
      requires InRange(uc)
    {
      property(uc)
    }

    /** The composite of two code points, negative if there is none. */
    function Combination(a: int, b: int): int {
      if property(a).comb1st >= 0 && property(b).comb2nd >= 0
      then combinations(property(a).comb1st + property(b).comb2nd)
      else -1
    }

    /** Everything a mapping names is a valid code point of smaller depth. */
    ghost predicate MapsDown(uc: int, m: seq<int>) {
      forall i :: 0 <= i < |m| ==> CodepointValid(m[i]) && m[i] != 0 && depth(m[i]) < depth(uc)
    }

    ghost predicate MappingsDescend() {
      forall uc {:trigger property(uc)} :: InRange(uc) ==>
        && (property(uc).decompMapping.Some? ==> MapsDown(uc, property(uc).decompMapping.value))
        && (property(uc).casefoldMapping.Some? ==> MapsDown(uc, property(uc).casefoldMapping.value))
    }

    /** Hangul jamo and syllables are starters that the table neither maps nor combines. */
    ghost predicate HangulIsAlgorithmic() {
      forall uc {:trigger property(uc)} :: IsHangulL(uc) || IsHangulV(uc) || IsHangulT(uc) || IsHangulS(uc) ==>
        && property(uc).combiningClass == 0 && property(uc).decompMapping.None?
        && property(uc).comb1st < 0 && property(uc).comb2nd < 0
    }

    /** A composite is valid and its canonical mapping is the pair it was made from. */
    ghost predicate CombinationsInvert() {
      forall a, b {:trigger Combination(a, b)} :: InRange(a) && InRange(b) && Combination(a, b) >= 0 ==>
        var c := Combination(a, b);
        CodepointValid(c) && c != 0 && property(c).decompType == 0 && property(c).decompMapping == Some([a, b])
    }

    ghost predicate ClassesNonnegative() {
      forall uc {:trigger property(uc)} :: InRange(uc) ==> property(uc).combiningClass >= 0
    }

    /** Everything a mapping names is assigned. */
    ghost predicate MappingsAssigned() {
      forall uc {:trigger property(uc)} :: InRange(uc) ==>
        && (property(uc).decompMapping.Some? ==> AllAssigned(property(uc).decompMapping.value))
        && (property(uc).casefoldMapping.Some? ==> AllAssigned(property(uc).casefoldMapping.value))
    }

    ghost predicate AllAssigned(m: seq<int>) {
      forall i :: 0 <= i < |m| ==> property(m[i]).category != CATEGORY_UNASSIGNED
    }

    ghost predicate Valid() {
      MappingsDescend() && HangulIsAlgorithmic() && CombinationsInvert() && ClassesNonnegative()
    }
  }

  // ---------------------------------------------------------------- a table that meets the assumptions

  /** Letter, ring and their composite; everything else is an assigned starter without mappings. */
  function SampleProperty(uc: int): Property {
    var other := Property(1, 0, 0, None, -1, -1, false, false, false, None);
    if uc == 0x41 then other.(comb1st := 0)
    else if uc == 0x30A then other.(category := CATEGORY_MN, combiningClass := 230, comb2nd := 0)
    else if uc == 0xC5 then other.(decompMapping := Some([0x41, 0x30A]))
    else other
  }

  const SAMPLE_TABLE: Table :=
    Table(uc => SampleProperty(uc), k => if k == 0 then 0xC5 else -1, uc => if uc == 0xC5 then 1 else 0)

  /** The assumptions can be met, by a table with a mark, a mapping and a composite. */
  lemma SampleTableValid()
    ensures SAMPLE_TABLE.Valid() && SAMPLE_TABLE.MappingsAssigned()
    ensures SAMPLE_TABLE.Combination(0x41, 0x30A) == 0xC5
  {
    SampleMappings();
    SampleCombinations();
  }

  lemma SampleMappings()
    ensures SAMPLE_TABLE.MappingsDescend() && SAMPLE_TABLE.MappingsAssigned()
  {
    assert SAMPLE_TABLE.MapsDown(0xC5, [0x41, 0x30A]);
  }

  lemma SampleCombinations()
    ensures SAMPLE_TABLE.CombinationsInvert()
  {
    forall a, b | SAMPLE_TABLE.Combination(a, b) >= 0
      ensures a == 0x41 && b == 0x30A && SAMPLE_TABLE.Combination(a, b) == 0xC5
    {
    }
  }
}
