/** utf8proc_decompose_char and utf8proc_decompose: the same code sizes the result (no buffer) and
    fills it. Decomp and Run give the code points produced with an unlimited buffer. */
module Decomposing {
  import opened Utf8
  import opened CellMemory
  import opened UnicodeTable
  import opened Wrappers
  import CanonicalOrder

  const ERROR_OVERFLOW: int := -2
  const ERROR_NOTASSIGNED: int := -4
  const ERROR_INVALIDOPTS: int := -5
  /** SSIZE_MAX / sizeof(int32_t) / 2 for 64-bit sizes. */
  const MAX_CELLS: int := 0x1000_0000_0000_0000 - 1

  const BOUNDCLASS_START: int := 0
  const BOUNDCLASS_OTHER: int := 1
  const BOUNDCLASS_CR: int := 2
  const BOUNDCLASS_LF: int := 3
  const BOUNDCLASS_CONTROL: int := 4
  const BOUNDCLASS_EXTEND: int := 5
  const BOUNDCLASS_L: int := 6
  const BOUNDCLASS_V: int := 7
  const BOUNDCLASS_T: int := 8
  const BOUNDCLASS_LV: int := 9
  const BOUNDCLASS_LVT: int := 10

  /** A status, the code points behind a non-negative status, and the last boundary class seen. */
  datatype Decomposition = Decomposition(ret: int, out: seq<int>, lbc: int)

  ghost predicate WellFormed(d: Decomposition) {
    && |d.out| == (if d.ret < 0 then 0 else d.ret)
    && forall i :: 0 <= i < |d.out| ==> InRange(d.out[i])
  }

  function HangulJamo(uc: int): (r: seq<int>)
    requires IsHangulS(uc)
    ensures 2 <= |r| <= 3 && forall i :: 0 <= i < |r| ==> InRange(r[i])
  {
    var sindex := uc - HANGUL_SBASE;
    [HANGUL_LBASE + sindex / HANGUL_NCOUNT, HANGUL_VBASE + sindex % HANGUL_NCOUNT / HANGUL_TCOUNT]
    + if sindex % HANGUL_TCOUNT == 0 then [] else [HANGUL_TBASE + sindex % HANGUL_TCOUNT]
  }

  /** The plain replacement of a code point under the LUMP option. */
  function Lumped(uc: int, category: int, o: Options): (r: Option<int>)
    ensures r.Some? ==> 0 <= r.value < 0x80
  {
    if category == CATEGORY_ZS then Some(0x0020)
    else if uc == 0x2018 || uc == 0x2019 || uc == 0x02BC || uc == 0x02C8 then Some(0x0027)
    else if category == CATEGORY_PD || uc == 0x2212 then Some(0x002D)
    else if uc == 0x2044 || uc == 0x2215 then Some(0x002F)
    else if uc == 0x2236 then Some(0x003A)
    else if uc == 0x2039 || uc == 0x2329 || uc == 0x3008 then Some(0x003C)
    else if uc == 0x203A || uc == 0x232A || uc == 0x3009 then Some(0x003E)
    else if uc == 0x2216 then Some(0x005C)
    else if uc == 0x02C4 || uc == 0x02C6 || uc == 0x2038 || uc == 0x2303 then Some(0x005E)
    else if category == CATEGORY_PC || uc == 0x02CD then Some(0x005F)
    else if uc == 0x02CB then Some(0x0060)
    else if uc == 0x2223 then Some(0x007C)
    else if uc == 0x223C then Some(0x007E)
    else if o.nlf2ls && o.nlf2ps && (category == CATEGORY_ZL || category == CATEGORY_ZP) then Some(0x000A)
    else None
  }

  function BoundClass(uc: int, p: Property): int {
    if uc == 0x000D then BOUNDCLASS_CR
    else if uc == 0x000A then BOUNDCLASS_LF
    else if (|| p.category == CATEGORY_ZL || p.category == CATEGORY_ZP
             || p.category == CATEGORY_CC || p.category == CATEGORY_CF)
            && !(uc == 0x200C || uc == 0x200D) then BOUNDCLASS_CONTROL
    else if p.extend then BOUNDCLASS_EXTEND
    else if 0x1100 <= uc < 0x115A || uc == 0x115F then BOUNDCLASS_L
    else if 0x1160 <= uc < 0x11A3 then BOUNDCLASS_V
    else if 0x11A8 <= uc < 0x11FA then BOUNDCLASS_T
    else if 0xAC00 <= uc < 0xD7A4 then
      if (uc - HANGUL_SBASE) % HANGUL_TCOUNT == 0 then BOUNDCLASS_LV else BOUNDCLASS_LVT
    else BOUNDCLASS_OTHER
  }

  predicate Boundary(lbc: int, tbc: int) {
    if tbc == BOUNDCLASS_EXTEND then false
    else if lbc == BOUNDCLASS_START then true
    else if lbc == BOUNDCLASS_CR && tbc == BOUNDCLASS_LF then false
    else if lbc == BOUNDCLASS_CONTROL || tbc == BOUNDCLASS_CONTROL then true
    else if lbc == BOUNDCLASS_L then
      !(tbc == BOUNDCLASS_L || tbc == BOUNDCLASS_V || tbc == BOUNDCLASS_LV || tbc == BOUNDCLASS_LVT)
    else if lbc == BOUNDCLASS_LV || lbc == BOUNDCLASS_V then
      !(tbc == BOUNDCLASS_V || tbc == BOUNDCLASS_T)
    else if lbc == BOUNDCLASS_LVT || lbc == BOUNDCLASS_T then tbc != BOUNDCLASS_T
    else true
  }

  /** Which mapping, if any, replaces a code point. */
  function Mapping(p: Property, o: Options): Option<seq<int>> {
    if o.casefold && p.casefoldMapping.Some? then p.casefoldMapping
    else if (o.compose || o.decompose) && (p.decompType == 0 || o.compat) then p.decompMapping
    else None
  }

  // ---------------------------------------------------------------- what one code point becomes

  function Decomp(t: Table, uc: int, o: Options, lbc: int): (r: Decomposition)
    requires t.MappingsDescend() && InRange(uc)
    ensures WellFormed(r)
    decreases o.lump, t.depth(uc), 2, 0
  {
    var p := t.Get(uc);
    if (o.compose || o.decompose) && IsHangulS(uc) then
      Decomposition(|HangulJamo(uc)|, HangulJamo(uc), lbc)
    else if o.rejectna && p.category == CATEGORY_UNASSIGNED then
      Decomposition(ERROR_NOTASSIGNED, [], lbc)
    else if o.ignore && p.ignorable then
      Decomposition(0, [], lbc)
    else
      var l := if o.lump then Lumped(uc, p.category, o) else None;
      if l.Some? then Plainly(t, l.value, o, lbc) else Unlumped(t, uc, o, lbc)
  }

  /** A replacement is decomposed without looking for another one. */
  function Plainly(t: Table, replacement: int, o: Options, lbc: int): (r: Decomposition)
    requires t.MappingsDescend() && InRange(replacement) && o.lump
    ensures WellFormed(r)
    decreases o.lump, 0, 0, 0
  {
    Decomp(t, replacement, o.(lump := false), lbc)
  }

  function Unlumped(t: Table, uc: int, o: Options, lbc: int): (r: Decomposition)
    requires t.MappingsDescend() && InRange(uc)
    ensures WellFormed(r)
    decreases o.lump, t.depth(uc), 1, 0
  {
    var p := t.Get(uc);
    if o.stripmark && (p.category == CATEGORY_MN || p.category == CATEGORY_MC || p.category == CATEGORY_ME) then
      Decomposition(0, [], lbc)
    else if Mapping(p, o).Some? then
      DecompEach(t, Mapping(p, o).value, t.depth(uc), o, lbc, [])
    else if o.charbound then
      var tbc := BoundClass(uc, p);
      if Boundary(lbc, tbc) then Decomposition(2, [0xFFFF, uc], tbc) else Decomposition(1, [uc], tbc)
    else
      Decomposition(1, [uc], lbc)
  }

  /** The loop over a mapping: the status of an entry is added to what was written so far, so the
      error of one entry can also just take back code points. */
  function DecompEach(t: Table, us: seq<int>, d: nat, o: Options, lbc: int, acc: seq<int>): (r: Decomposition)
    requires t.MappingsDescend()
    requires forall i :: 0 <= i < |us| ==> InRange(us[i]) && t.depth(us[i]) < d
    requires forall i :: 0 <= i < |acc| ==> InRange(acc[i])
    ensures WellFormed(r)
    decreases o.lump, d, 0, |us|
  {
    if us == [] then Decomposition(|acc|, acc, lbc)
    else
      var r := Decomp(t, us[0], o, lbc);
      if |acc| + r.ret < 0 then Decomposition(ERROR_OVERFLOW, [], r.lbc)
      else DecompEach(t, us[1..], d, o, r.lbc, Written(acc, r))
  }

  function Written(acc: seq<int>, r: Decomposition): seq<int>
    requires |acc| + r.ret >= 0
  {
    if r.ret < 0 then acc[..|acc| + r.ret] else acc + r.out
  }

  // ---------------------------------------------------------------- success

  /** Without the REJECTNA option no code point fails. */
  lemma {:induction false} AcceptsAll(t: Table, uc: int, o: Options, lbc: int)
    requires t.MappingsDescend() && InRange(uc) && !o.rejectna
    ensures Decomp(t, uc, o, lbc).ret >= 0
    decreases o.lump, t.depth(uc), 2, 0
  {
    var p := t.Get(uc);
    if o.lump && Lumped(uc, p.category, o).Some? {
      AcceptsLump(t, Lumped(uc, p.category, o).value, o, lbc);
    }
    AcceptsUnlumped(t, uc, o, lbc);
  }

  lemma AcceptsLump(t: Table, replacement: int, o: Options, lbc: int)
    requires t.MappingsDescend() && InRange(replacement) && !o.rejectna && o.lump
    ensures Decomp(t, replacement, o.(lump := false), lbc).ret >= 0
    decreases o.lump, 0, 0, 0
  {
    AcceptsAll(t, replacement, o.(lump := false), lbc);
  }

  lemma AcceptsUnlumped(t: Table, uc: int, o: Options, lbc: int)
    requires t.MappingsDescend() && InRange(uc) && !o.rejectna
    ensures Unlumped(t, uc, o, lbc).ret >= 0
    decreases o.lump, t.depth(uc), 1, 0
  {
    var p := t.Get(uc);
    if Mapping(p, o).Some? {
      AcceptsEach(t, Mapping(p, o).value, t.depth(uc), o, lbc, []);
    }
  }

  lemma {:induction false} AcceptsEach(t: Table, us: seq<int>, d: nat, o: Options, lbc: int, acc: seq<int>)
    requires t.MappingsDescend() && !o.rejectna
    requires forall i :: 0 <= i < |us| ==> InRange(us[i]) && t.depth(us[i]) < d
    requires forall i :: 0 <= i < |acc| ==> InRange(acc[i])
    ensures DecompEach(t, us, d, o, lbc, acc).ret >= 0
    decreases o.lump, d, 0, |us|
  {
    if us != [] {
      AcceptsAll(t, us[0], o, lbc);
      var r := Decomp(t, us[0], o, lbc);
      AcceptsEach(t, us[1..], d, o, r.lbc, Written(acc, r));
    }
  }

  // ---------------------------------------------------------------- filling a buffer

  /** The cells [at, at + bufsize) hold as much of out as fits, and no other cell changed. */
  ghost predicate Filled(before: seq<int>, after: seq<int>, at: nat, bufsize: nat, out: seq<int>)
    requires |before| == |after|
    requires bufsize > 0 ==> at + bufsize <= |after|
  {
    && (forall i :: 0 <= i < |after| && !(at <= i < at + bufsize) ==> after[i] == before[i])
    && (forall i :: 0 <= i < |out| && i < bufsize ==> after[at + i] == out[i])
  }

  /** A Hangul syllable is taken apart arithmetically. */
  method StoreJamo(mem: array<byte>, at: nat, bufsize: nat, uc: int) returns (n: nat)
    requires IsHangulS(uc)
    requires bufsize > 0 ==> at + bufsize <= mem.Length / 4
    modifies mem
    ensures n == |HangulJamo(uc)|
    ensures Filled(old(Cells(mem[..])), Cells(mem[..]), at, bufsize, HangulJamo(uc))
  {
    var sindex := uc - HANGUL_SBASE;
    if bufsize >= 1 {
      Store(mem, at, HANGUL_LBASE + sindex / HANGUL_NCOUNT);
      if bufsize >= 2 {
        Store(mem, at + 1, HANGUL_VBASE + sindex % HANGUL_NCOUNT / HANGUL_TCOUNT);
      }
    }
    var tindex := sindex % HANGUL_TCOUNT;
    if tindex == 0 { return 2; }
    if bufsize >= 3 { Store(mem, at + 2, HANGUL_TBASE + tindex); }
    n := 3;
  }

  /** A code point that is kept, with the boundary marker before it if it starts a cluster. */
  method StoreTerminal(mem: array<byte>, at: nat, bufsize: nat, uc: int, boundary: bool) returns (n: nat)
    requires InRange(uc)
    requires bufsize > 0 ==> at + bufsize <= mem.Length / 4
    modifies mem
    ensures n == if boundary then 2 else 1
    ensures Filled(old(Cells(mem[..])), Cells(mem[..]), at, bufsize,
                   if boundary then [0xFFFF, uc] else [uc])
  {
    if boundary {
      if bufsize >= 1 { Store(mem, at, 0xFFFF); }
      if bufsize >= 2 { Store(mem, at + 1, uc); }
      return 2;
    }
    if bufsize >= 1 { Store(mem, at, uc); }
    n := 1;
  }

  /** utf8proc_decompose_char. The status and the boundary class do not depend on bufsize. */
  method DecomposeChar(t: Table, uc: int, mem: array<byte>, at: nat, bufsize: nat, o: Options, lbc: int)
    returns (n: int, lbc': int)
    requires t.MappingsDescend() && InRange(uc)
    requires bufsize > 0 ==> at + bufsize <= mem.Length / 4
    modifies mem
    ensures n == Decomp(t, uc, o, lbc).ret && lbc' == Decomp(t, uc, o, lbc).lbc
    ensures Filled(old(Cells(mem[..])), Cells(mem[..]), at, bufsize, Decomp(t, uc, o, lbc).out)
    decreases o.lump, t.depth(uc), 2, 0
  {
    var p := t.Get(uc);
    lbc' := lbc;
    if (o.compose || o.decompose) && IsHangulS(uc) {
      n := StoreJamo(mem, at, bufsize, uc);
    } else if o.rejectna && p.category == CATEGORY_UNASSIGNED {
      n := ERROR_NOTASSIGNED;
    } else if o.ignore && p.ignorable {
      n := 0;
    } else if o.lump && Lumped(uc, p.category, o).Some? {
      n, lbc' := DecomposeLump(t, Lumped(uc, p.category, o).value, mem, at, bufsize, o, lbc);
    } else {
      n, lbc' := DecomposeUnlumped(t, uc, mem, at, bufsize, o, lbc);
    }
  }

  /** The macro utf8proc_decompose_lump. */
  method DecomposeLump(t: Table, replacement: int, mem: array<byte>, at: nat, bufsize: nat, o: Options, lbc: int)
    returns (n: int, lbc': int)
    requires t.MappingsDescend() && InRange(replacement) && o.lump
    requires bufsize > 0 ==> at + bufsize <= mem.Length / 4
    modifies mem
    ensures n == Decomp(t, replacement, o.(lump := false), lbc).ret
    ensures lbc' == Decomp(t, replacement, o.(lump := false), lbc).lbc
    ensures Filled(old(Cells(mem[..])), Cells(mem[..]), at, bufsize,
                   Decomp(t, replacement, o.(lump := false), lbc).out)
    decreases o.lump, 0, 0, 0
  {
    n, lbc' := DecomposeChar(t, replacement, mem, at, bufsize, o.(lump := false), lbc);
  }

  /** What is left of utf8proc_decompose_char once the LUMP option has been dealt with. */
  method DecomposeUnlumped(t: Table, uc: int, mem: array<byte>, at: nat, bufsize: nat, o: Options, lbc: int)
    returns (n: int, lbc': int)
    requires t.MappingsDescend() && InRange(uc)
    requires bufsize > 0 ==> at + bufsize <= mem.Length / 4
    modifies mem
    ensures n == Unlumped(t, uc, o, lbc).ret && lbc' == Unlumped(t, uc, o, lbc).lbc
    ensures Filled(old(Cells(mem[..])), Cells(mem[..]), at, bufsize, Unlumped(t, uc, o, lbc).out)
    decreases o.lump, t.depth(uc), 1, 0
  {
    var p := t.Get(uc);
    lbc' := lbc;
    if o.stripmark {
      if p.category == CATEGORY_MN || p.category == CATEGORY_MC || p.category == CATEGORY_ME { return 0, lbc; }
    }
    if Mapping(p, o).Some? {
      n, lbc' := DecomposeMapping(t, Mapping(p, o).value, t.depth(uc), mem, at, bufsize, o, lbc);
      return;
    }
    var boundary := false;
    if o.charbound {
      var tbc := BoundClass(uc, p);
      boundary := Boundary(lbc, tbc);
      lbc' := tbc;
    }
    n := StoreTerminal(mem, at, bufsize, uc, boundary);
  }

  /** The loop that follows a casefold or decomposition mapping. */
  method DecomposeMapping(t: Table, us: seq<int>, ghost d: nat, mem: array<byte>, at: nat, bufsize: nat,
                          o: Options, lbc: int)
    returns (n: int, lbc': int)
    requires t.MappingsDescend()
    requires forall i :: 0 <= i < |us| ==> InRange(us[i]) && t.depth(us[i]) < d
    requires bufsize > 0 ==> at + bufsize <= mem.Length / 4
    modifies mem
    ensures n == DecompEach(t, us, d, o, lbc, []).ret && lbc' == DecompEach(t, us, d, o, lbc, []).lbc
    ensures Filled(old(Cells(mem[..])), Cells(mem[..]), at, bufsize, DecompEach(t, us, d, o, lbc, []).out)
    decreases o.lump, d, 0, 0
  {
    lbc' := lbc;
    var written := 0;
    ghost var acc: seq<int> := [];
    var i := 0;
    while i < |us|
      invariant 0 <= i <= |us| && written == |acc|
      invariant forall k :: 0 <= k < |acc| ==> InRange(acc[k])
      invariant DecompEach(t, us, d, o, lbc, []) == DecompEach(t, us[i..], d, o, lbc', acc)
      invariant Filled(old(Cells(mem[..])), Cells(mem[..]), at, bufsize, acc)
    {
      ghost var r := Decomp(t, us[i], o, lbc');
      ghost var c := Cells(mem[..]);
      var room := if bufsize > written then bufsize - written else 0;
      var step;
      step, lbc' := DecomposeChar(t, us[i], mem, at + written, room, o, lbc');
      written := written + step;
      assert us[i..][1..] == us[i + 1..];
      if written < 0 {
        return ERROR_OVERFLOW, lbc';
      }
      FilledThen(old(Cells(mem[..])), c, Cells(mem[..]), at, bufsize, room, acc, r);
      acc := Written(acc, r);
      i := i + 1;
    }
    n := written;
  }

  /** Filling the room behind acc extends it; an error status shortens it. */
  lemma FilledThen(c0: seq<int>, c1: seq<int>, c2: seq<int>, at: nat, bufsize: nat, room: nat,
                   acc: seq<int>, r: Decomposition)
    requires |c0| == |c1| == |c2| && (bufsize > 0 ==> at + bufsize <= |c0|)
    requires room == (if bufsize > |acc| then bufsize - |acc| else 0)
    requires Filled(c0, c1, at, bufsize, acc) && Filled(c1, c2, at + |acc|, room, r.out)
    requires WellFormed(r) && |acc| + r.ret >= 0
    ensures Filled(c0, c2, at, bufsize, Written(acc, r))
  {
    var w := Written(acc, r);
    forall i | 0 <= i < |w| && i < bufsize ensures c2[at + i] == w[i] {
      if i < |acc| {
        assert c1[at + i] == acc[i];
      } else {
        assert c2[at + |acc| + (i - |acc|)] == r.out[i - |acc|];
      }
    }
  }

  // ---------------------------------------------------------------- strings

  predicate InvalidOptions(o: Options) {
    || (o.compose && o.decompose)
    || (o.stripmark && !o.compose && !o.decompose)
  }

  /** The bytes the caller means: up to the terminator or strlen of them. */
  ghost function Input(str: seq<byte>, strlen: int, o: Options): seq<byte>
    requires if o.nullterm then 0 in str else strlen <= |str|
  {
    if o.nullterm then Terminated(str) else if strlen <= 0 then [] else str[..strlen]
  }

  /** Decoding and decomposing s, behind the code points acc. */
  function Run(t: Table, s: seq<byte>, o: Options, lbc: int, acc: seq<int>): (r: Decomposition)
    requires t.MappingsDescend()
    requires forall i :: 0 <= i < |acc| ==> InRange(acc[i])
    ensures WellFormed(r)
    decreases |s|
  {
    if s == [] then Decomposition(|acc|, acc, lbc)
    else
      match DecodeFirst(s)
      case Char(uc, n) =>
        EncodeOfDecode(s);
        var r := Decomp(t, uc, o, lbc);
        if r.ret < 0 then Decomposition(r.ret, [], r.lbc)
        else if |acc| + r.ret > MAX_CELLS then Decomposition(ERROR_OVERFLOW, [], r.lbc)
        else Run(t, s[n..], o, r.lbc, acc + r.out)
      case _ => Decomposition(ERROR_INVALIDUTF8, [], lbc)
  }

  function ClassesOf(t: Table): CanonicalOrder.Classes {
    (uc: int) => t.property(uc).combiningClass
  }

  /** The status of utf8proc_decompose and, behind a non-negative one, the decomposed text. */
  function DecomposeText(t: Table, s: seq<byte>, o: Options): (r: Decomposition)
    requires t.MappingsDescend()
  {
    if InvalidOptions(o) then Decomposition(ERROR_INVALIDOPTS, [], BOUNDCLASS_START)
    else
      var r := Run(t, s, o, BOUNDCLASS_START, []);
      if o.compose || o.decompose then r.(out := CanonicalOrder.Canonical(ClassesOf(t), r.out)) else r
  }

  lemma DecomposeTextWellFormed(t: Table, s: seq<byte>, o: Options)
    requires t.MappingsDescend()
    ensures WellFormed(DecomposeText(t, s, o))
  {
    if !InvalidOptions(o) && (o.compose || o.decompose) {
      var out := Run(t, s, o, BOUNDCLASS_START, []).out;
      var sorted := CanonicalOrder.Canonical(ClassesOf(t), out);
      CanonicalOrder.CanonicalPermutes(ClassesOf(t), out);
      forall i | 0 <= i < |sorted| ensures InRange(sorted[i]) {
        assert sorted[i] in multiset(out);
      }
    }
  }

  /** utf8proc_decompose. The status is that of DecomposeText whatever the buffer size, and a buffer
      that is large enough receives the text. */
  method Decompose(t: Table, str: seq<byte>, strlen: int, mem: array<byte>, bufsize: nat, o: Options)
    returns (result: int)
    requires t.MappingsDescend()
    requires if o.nullterm then 0 in str else strlen <= |str|
    requires bufsize <= mem.Length / 4
    modifies mem
    ensures var r := DecomposeText(t, Input(str, strlen, o), o);
            && result == r.ret
            && (0 <= r.ret <= bufsize ==> Cells(mem[..])[..r.ret] == r.out)
    ensures forall i :: bufsize <= i < mem.Length / 4 ==> Cells(mem[..])[i] == old(Cells(mem[..]))[i]
  {
    if o.compose && o.decompose { return ERROR_INVALIDOPTS; }
    if o.stripmark && !o.compose && !o.decompose { return ERROR_INVALIDOPTS; }
    ghost var r;
    result, r := DecomposeScan(t, str, strlen, mem, bufsize, o);
    if result < 0 { return; }
    ghost var c := Cells(mem[..]);
    if (o.compose || o.decompose) && bufsize >= result {
      assert c[..result] == r.out;
      CanonicalOrder.Reorder(ClassesOf(t), mem, result);
    }
  }

  /** The scanning loop of utf8proc_decompose. */
  method DecomposeScan(t: Table, str: seq<byte>, strlen: int, mem: array<byte>, bufsize: nat, o: Options)
    returns (wpos: int, ghost r: Decomposition)
    requires t.MappingsDescend()
    requires if o.nullterm then 0 in str else strlen <= |str|
    requires bufsize <= mem.Length / 4
    modifies mem
    ensures r == Run(t, Input(str, strlen, o), o, BOUNDCLASS_START, [])
    ensures wpos == r.ret
    ensures r.ret >= 0 ==> Filled(old(Cells(mem[..])), Cells(mem[..]), 0, bufsize, r.out)
    ensures forall i :: bufsize <= i < mem.Length / 4 ==> Cells(mem[..])[i] == old(Cells(mem[..]))[i]
  {
    ghost var s := Input(str, strlen, o);
    ghost var c0 := Cells(mem[..]);
    r := Run(t, s, o, BOUNDCLASS_START, []);
    wpos := 0;
    ghost var acc: seq<int>, rest := [], s;
    var rpos := 0;
    var boundclass := BOUNDCLASS_START;
    while true
      invariant 0 <= rpos <= |s| && wpos == |acc|
      invariant forall i :: 0 <= i < |acc| ==> InRange(acc[i])
      invariant rest == s[rpos..] && r == Run(t, rest, o, boundclass, acc)
      invariant Filled(c0, Cells(mem[..]), 0, bufsize, acc)
      decreases |s| - rpos
    {
      var next := Next(str, strlen, o, rpos);
      if next.Malformed? { wpos := ERROR_INVALIDUTF8; break; }
      if next.End? { break; }
      EncodeOfDecode(rest);
      ghost var d := Decomp(t, next.uc, o, boundclass);
      RunStep(t, rest, o, boundclass, acc);
      var decompResult;
      decompResult, boundclass := DecomposeBehind(t, next.uc, mem, bufsize, o, boundclass, wpos, c0, acc);
      if decompResult < 0 { wpos := decompResult; break; }
      rest := rest[next.n..];
      assert rest == s[rpos + next.n..];
      wpos := wpos + decompResult;
      if wpos > MAX_CELLS { wpos := ERROR_OVERFLOW; break; }
      rpos := rpos + next.n;
      acc := acc + d.out;
    }
  }

  lemma RunStep(t: Table, s: seq<byte>, o: Options, lbc: int, acc: seq<int>)
    requires t.MappingsDescend() && DecodeFirst(s).Char?
    requires forall i :: 0 <= i < |acc| ==> InRange(acc[i])
    ensures var Char(uc, n) := DecodeFirst(s);
            && InRange(uc) && n <= |s|
            && var d := Decomp(t, uc, o, lbc);
               0 <= d.ret <= MAX_CELLS - |acc| ==> Run(t, s, o, lbc, acc) == Run(t, s[n..], o, d.lbc, acc + d.out)
  {
    EncodeOfDecode(s);
  }

  /** Decomposes one code point behind the wpos cells already in use. */
  method DecomposeBehind(t: Table, uc: int, mem: array<byte>, bufsize: nat, o: Options, lbc: int, wpos: nat,
                         ghost c0: seq<int>, ghost acc: seq<int>)
    returns (n: int, lbc': int)
    requires t.MappingsDescend() && InRange(uc) && wpos == |acc|
    requires |c0| == mem.Length / 4 && bufsize <= |c0|
    requires Filled(c0, Cells(mem[..]), 0, bufsize, acc)
    modifies mem
    ensures n == Decomp(t, uc, o, lbc).ret && lbc' == Decomp(t, uc, o, lbc).lbc
    ensures n >= 0 ==> Filled(c0, Cells(mem[..]), 0, bufsize, acc + Decomp(t, uc, o, lbc).out)
    ensures forall i :: bufsize <= i < |c0| ==> Cells(mem[..])[i] == c0[i]
  {
    ghost var c := Cells(mem[..]);
    var room := if bufsize > wpos then bufsize - wpos else 0;
    n, lbc' := DecomposeChar(t, uc, mem, wpos, room, o, lbc);
    if n >= 0 {
      FilledThen(c0, c, Cells(mem[..]), 0, bufsize, room, acc, Decomp(t, uc, o, lbc));
    }
  }

  /** One round of reading: until a zero code point in a terminated string, else until strlen bytes are used. */
  method Next(str: seq<byte>, strlen: int, o: Options, rpos: nat) returns (d: Decoded)
    requires if o.nullterm then 0 in str else strlen <= |str|
    requires rpos <= |Input(str, strlen, o)|
    ensures d == DecodeFirst(Input(str, strlen, o)[rpos..])
  {
    var step, uc;
    if o.nullterm {
      TerminatedSuffix(str, rpos);
      step, uc := Iterate(str[rpos..], -1);
      if uc < 0 { return Malformed; }
      if uc == 0 { return End; }
    } else {
      if rpos >= strlen { return End; }
      assert str[rpos..][..strlen - rpos] == str[..strlen][rpos..];
      step, uc := Iterate(str[rpos..], strlen - rpos);
      if uc < 0 { return Malformed; }
    }
    d := Char(uc, step);
  }

  /** In a terminated string the scan sees the bytes before the terminator, then a zero. */
  lemma TerminatedSuffix(str: seq<byte>, rpos: nat)
    requires 0 in str && rpos <= IndexOfZero(str)
    ensures 0 in str[rpos..]
    ensures var s := str[..IndexOfZero(str)][rpos..];
            DecodeFirst(str[rpos..]) == if s == [] then Char(0, 1) else DecodeFirst(s)
    ensures rpos < IndexOfZero(str) && DecodeFirst(str[rpos..]).Char? ==> DecodeFirst(str[rpos..]).uc > 0
  {
    var z := IndexOfZero(str);
    var u := str[rpos..];
    assert u[z - rpos] == 0;
    forall k | 0 <= k < z - rpos ensures u[k] != 0 {
      assert str[..z][rpos + k] == u[k];
    }
    TerminatedDecode(u);
    var zu := IndexOfZero(u);
    assert zu <= z - rpos by {
      assert forall k :: 0 <= k < zu ==> u[..zu][k] != 0;
    }
    assert str[..z][rpos..] == u[..zu];
    if rpos < z && DecodeFirst(u).Char? {
      EncodeOfDecode(u);
      assert u[0] != 0;
    }
  }
}
