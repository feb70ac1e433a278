/** utf8proc_map, the entry point behind utf8proc_NFD, utf8proc_NFC, utf8proc_NFKD and utf8proc_NFKC,
    and its laws on byte strings. */
module Utf8Map {
  import opened Sequences
  import opened Utf8
  import opened CellMemory
  import opened UnicodeTable
  import opened Decomposing
  import opened Normalization
  import opened Composition
  import opened Reencoding

  const ERROR_NOMEM: int := -1

  /** A status and, behind a non-negative one, the resulting bytes. */
  datatype Mapped = Mapped(ret: int, bytes: seq<byte>)

  function MapText(t: Table, s: seq<byte>, o: Options): Mapped
    requires t.MappingsDescend()
  {
    var r := DecomposeText(t, s, o);
    if r.ret < 0 then Mapped(r.ret, [])
    else var bytes := EncodeAll(Passes(t, r.out, o)); Mapped(|bytes|, bytes)
  }

  /** utf8proc_map. A sizing pass and a filling pass agree, so the allocation fits; the result is a
      terminated string of exactly the reported length. */
  method Map(t: Table, str: seq<byte>, strlen: int, o: Options, allocates: bool)
    returns (result: int, dst: array?<byte>)
    requires t.Valid()
    requires if o.nullterm then 0 in str else strlen <= |str|
    ensures var m := MapText(t, Input(str, strlen, o), o);
            if m.ret < 0 then result == m.ret && dst == null
            else if !allocates then result == ERROR_NOMEM && dst == null
            else result == m.ret && dst != null && dst.Length == m.ret + 1 && dst[..] == m.bytes + [0]
  {
    dst := null;
    var none := new byte[0];
    result := Decompose(t, str, strlen, none, 0, o);
    if result < 0 { return; }
    if !allocates { return ERROR_NOMEM, null; }
    var size := result;
    var mem := new byte[4 * size + 1];
    result := Decompose(t, str, strlen, mem, size, o);
    assert result == size;
    ghost var r := DecomposeText(t, Input(str, strlen, o), o);
    DecomposeTextWellFormed(t, Input(str, strlen, o), o);
    assert Cells(mem[..])[..size] == r.out;
    assert forall i :: 0 <= i < size ==> Cells(mem[..])[i] == r.out[i];
    var n := Reencode(t, mem, size, o);
    dst := Shrink(mem, n + 1);
    result := n;
  }

  /** Shrinking an allocation keeps the bytes that remain. */
  method Shrink(mem: array<byte>, size: nat) returns (dst: array<byte>)
    requires size <= mem.Length
    ensures fresh(dst) && dst[..] == mem[..size]
  {
    dst := new byte[size];
    forall i | 0 <= i < size { dst[i] := mem[i]; }
  }

  // ---------------------------------------------------------------- no options

  predicate NoOptions(o: Options) {
    && !o.stable && !o.compat && !o.compose && !o.decompose && !o.ignore && !o.rejectna && !o.nlf2ls
    && !o.nlf2ps && !o.stripcc && !o.casefold && !o.charbound && !o.lump && !o.stripmark
  }

  lemma DecompNoOptions(t: Table, uc: int, o: Options, lbc: int)
    requires t.MappingsDescend() && InRange(uc) && NoOptions(o)
    ensures Decomp(t, uc, o, lbc) == Decomposition(1, [uc], lbc)
  {
  }

  lemma {:induction false} RunNoOptions(t: Table, s: seq<byte>, o: Options, lbc: int, acc: seq<int>)
    requires t.MappingsDescend() && NoOptions(o) && |acc| + |s| <= MAX_CELLS
    requires forall i :: 0 <= i < |acc| ==> InRange(acc[i])
    ensures var r := Run(t, s, o, lbc, acc);
            match DecodeAll(s)
            case Invalid => r.ret == ERROR_INVALIDUTF8
            case Text(us) => r.ret == |r.out| && r.out == acc + us
    decreases |s|
  {
    if s == [] {
      assert acc + [] == acc;
    } else if DecodeFirst(s).Char? {
      var Char(uc, n) := DecodeFirst(s);
      EncodeOfDecode(s);
      DecompNoOptions(t, uc, o, lbc);
      RunNoOptions(t, s[n..], o, lbc, acc + [uc]);
      if DecodeAll(s[n..]).Text? {
        Associative(acc, [uc], DecodeAll(s[n..]).us);
      }
    }
  }

  /** Without options the function is the identity on accepted text and rejects everything else. */
  lemma MapNoOptions(t: Table, s: seq<byte>, o: Options)
    requires t.MappingsDescend() && NoOptions(o) && |s| <= MAX_CELLS
    ensures MapText(t, s, o) == if DecodeAll(s).Text? then Mapped(|s|, s) else Mapped(ERROR_INVALIDUTF8, [])
  {
    RunNoOptions(t, s, o, BOUNDCLASS_START, []);
    if DecodeAll(s).Text? {
      EncodeAllOfDecodeAll(s);
      assert [] + DecodeAll(s).us == DecodeAll(s).us;
    }
  }

  // ---------------------------------------------------------------- normalization forms

  /** Plain normalization: no control character handling either. */
  predicate Normalizes(o: Options) {
    Plain(o) && o.compose != o.decompose && !HandlesControls(o)
  }

  lemma {:induction false} RunPlain(t: Table, s: seq<byte>, o: Options, lbc: int, acc: seq<int>)
    requires t.MappingsDescend() && Plain(o) && |acc| <= MAX_CELLS
    requires forall i :: 0 <= i < |acc| ==> InRange(acc[i])
    ensures var r := Run(t, s, o, lbc, acc);
            match DecodeAll(s)
            case Invalid => r.ret < 0
            case Text(us) =>
              && AllInRange(us)
              && (r.ret >= 0 <==> |acc + All(t, o.compat, us)| <= MAX_CELLS)
              && (r.ret >= 0 ==> r.out == acc + All(t, o.compat, us))
    decreases |s|
  {
    if s == [] {
      assert acc + [] == acc;
    } else if DecodeFirst(s).Char? {
      var Char(uc, n) := DecodeFirst(s);
      EncodeOfDecode(s);
      var f, tail := Full(t, o.compat, uc), DecodeAll(s[n..]);
      RunPlainStep(t, s, o, lbc, acc);
      if tail.Text? {
        DecodeAllStep(t, s, o);
        Associative(acc, f, All(t, o.compat, tail.us));
      }
      if |acc + f| <= MAX_CELLS {
        RunPlain(t, s[n..], o, lbc, acc + f);
      }
    }
  }

  lemma RunPlainStep(t: Table, s: seq<byte>, o: Options, lbc: int, acc: seq<int>)
    requires t.MappingsDescend() && Plain(o) && DecodeFirst(s).Char?
    requires forall i :: 0 <= i < |acc| ==> InRange(acc[i])
    ensures var Char(uc, n) := DecodeFirst(s);
            && InRange(uc) && n <= |s|
            && var next := acc + Full(t, o.compat, uc);
            && (forall i :: 0 <= i < |next| ==> InRange(next[i]))
            && Run(t, s, o, lbc, acc) ==
                 if |next| > MAX_CELLS then Decomposition(ERROR_OVERFLOW, [], lbc)
                 else Run(t, s[n..], o, lbc, next)
  {
    EncodeOfDecode(s);
    DecompIsFull(t, DecodeFirst(s).uc, o, lbc);
    assert WellFormed(Decomp(t, DecodeFirst(s).uc, o, lbc));
  }

  lemma DecodeAllStep(t: Table, s: seq<byte>, o: Options)
    requires t.MappingsDescend() && DecodeAll(s).Text? && s != []
    ensures DecodeFirst(s).Char? && InRange(DecodeFirst(s).uc) && DecodeFirst(s).n <= |s|
    ensures var Char(uc, n) := DecodeFirst(s);
            && DecodeAll(s[n..]).Text? && AllInRange(DecodeAll(s[n..]).us) && AllInRange(DecodeAll(s).us)
            && All(t, o.compat, DecodeAll(s).us) == Full(t, o.compat, uc) + All(t, o.compat, DecodeAll(s[n..]).us)
  {
    EncodeOfDecode(s);
    EncodeAllOfDecodeAll(s);
    var Char(uc, n) := DecodeFirst(s);
    assert DecodeAll(s).us[1..] == DecodeAll(s[n..]).us;
  }

  /** The normal form that the options ask for. */
  function Normal(t: Table, us: seq<int>, o: Options): seq<int>
    requires t.MappingsDescend() && AllInRange(us)
  {
    if o.compose then Nfc(t, o.stable, o.compat, us) else Nfd(t, o.compat, us)
  }

  ghost predicate Fits(t: Table, us: seq<int>, o: Options)
    requires t.MappingsDescend() && AllInRange(us)
  {
    |All(t, o.compat, us)| <= MAX_CELLS
  }

  /** On byte strings: decode, normalize, encode. It fails exactly on rejected or oversized text. */
  lemma MapNormalizes(t: Table, s: seq<byte>, o: Options)
    requires t.MappingsDescend() && Normalizes(o)
    ensures MapText(t, s, o).ret >= 0 <==>
            DecodeAll(s).Text? && AllInRange(DecodeAll(s).us) && Fits(t, DecodeAll(s).us, o)
    ensures MapText(t, s, o).ret >= 0 ==>
            var bytes := EncodeAll(Normal(t, DecodeAll(s).us, o));
            MapText(t, s, o) == Mapped(|bytes|, bytes)
  {
    RunPlain(t, s, o, BOUNDCLASS_START, []);
    if DecodeAll(s).Text? {
      EncodeAllOfDecodeAll(s);
      assert [] + All(t, o.compat, DecodeAll(s).us) == All(t, o.compat, DecodeAll(s).us);
    }
  }

  lemma NormalValid(t: Table, us: seq<int>, o: Options)
    requires t.Valid() && AllValid(us) && Normalizes(o)
    ensures AllInRange(us) && AllValid(Normal(t, us, o)) && AllInRange(Normal(t, us, o))
    ensures Normal(t, Normal(t, us, o), o) == Normal(t, us, o)
    ensures |All(t, o.compat, Normal(t, us, o))| <= |All(t, o.compat, us)|
  {
    if o.compose {
      NfdOfNfc(t, o.stable, o.compat, us);
      NfcIdempotent(t, o.stable, o.compat, us);
      KeptTail(Nfd(t, o.compat, us));
    } else {
      NfdDecomposed(t, o.compat, us);
      NfdIdempotent(t, o.compat, us);
    }
  }

  /** Normalizing the result of a normalization changes no byte. */
  lemma MapIdempotent(t: Table, s: seq<byte>, o: Options)
    requires t.Valid() && Normalizes(o) && MapText(t, s, o).ret >= 0
    ensures MapText(t, MapText(t, s, o).bytes, o) == MapText(t, s, o)
  {
    MapNormalizes(t, s, o);
    EncodeAllOfDecodeAll(s);
    var us := DecodeAll(s).us;
    NormalValid(t, us, o);
    var v := Normal(t, us, o);
    DecodeAllOfEncodeAll(v);
    MapNormalizes(t, EncodeAll(v), o);
  }

  /** Composing and then decomposing gives the bytes that decomposing gives, exactly for texts in
      whose decomposition no U+11A7 follows a leading consonant and a vowel. */
  lemma MapEquivalent(t: Table, s: seq<byte>, c: Options, d: Options)
    requires t.Valid() && Normalizes(c) && c.compose && Normalizes(d) && d.decompose && c.compat == d.compat
    requires MapText(t, s, c).ret >= 0
    ensures MapText(t, s, d).ret >= 0
    ensures DecodeAll(s).Text? && AllInRange(DecodeAll(s).us)
    ensures MapText(t, MapText(t, s, c).bytes, d) == MapText(t, s, d)
            <==> !Loses(Nfd(t, d.compat, DecodeAll(s).us))
  {
    MapNormalizes(t, s, c);
    MapNormalizes(t, s, d);
    EncodeAllOfDecodeAll(s);
    var us := DecodeAll(s).us;
    NormalValid(t, us, c);
    NormalValid(t, us, d);
    var v := Normal(t, us, c);
    DecodeAllOfEncodeAll(v);
    MapNormalizes(t, EncodeAll(v), d);
    NfcEquivalent(t, c.stable, c.compat, us);
    NormalValid(t, v, d);
    DecodeAllOfEncodeAll(Normal(t, v, d));
    DecodeAllOfEncodeAll(Normal(t, us, d));
  }
}
