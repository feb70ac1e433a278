/** utf8proc_reencode: newline and control character handling, composition, and the conversion to
    UTF-8 that overwrites the buffer it is reading. */
module Reencoding {
  import opened Sequences
  import opened Utf8
  import opened CellMemory
  import opened UnicodeTable
  import Composition

  // ---------------------------------------------------------------- newlines and control characters

  predicate HandlesControls(o: Options) { o.nlf2ls || o.nlf2ps || o.stripcc }

  predicate IsNewline(uc: int, o: Options) {
    uc == 0x000A || uc == 0x000D || uc == 0x0085 || (o.stripcc && (uc == 0x000B || uc == 0x000C))
  }

  predicate IsControl(uc: int) { uc < 0x0020 || 0x007F <= uc < 0x00A0 }

  function NewlineFor(o: Options): int {
    if o.nlf2ls then if o.nlf2ps then 0x000A else 0x2028
    else if o.nlf2ps then 0x2029 else 0x0020
  }

  function Replacement(uc: int, o: Options): (r: seq<int>)
    ensures |r| <= 1 && (InRange(uc) ==> forall i :: 0 <= i < |r| ==> InRange(r[i]))
    ensures IsInt32(uc) ==> forall i :: 0 <= i < |r| ==> IsInt32(r[i])
  {
    if IsNewline(uc, o) then [NewlineFor(o)]
    else if o.stripcc && IsControl(uc) then if uc == 0x0009 then [0x0020] else []
    else [uc]
  }

  /** How many code points a newline sequence at the front takes. */
  function Taken(us: seq<int>): nat
    requires us != []
  {
    if us[0] == 0x000D && |us| > 1 && us[1] == 0x000A then 2 else 1
  }

  function Newlines(us: seq<int>, o: Options): (r: seq<int>)
    ensures |r| <= |us|
    decreases |us|
  {
    if us == [] then [] else Replacement(us[0], o) + Newlines(us[Taken(us)..], o)
  }

  /** What the options promise about every code point of the result. */
  predicate Cleaned(uc: int, o: Options) {
    && uc != 0x000D && uc != 0x0085
    && (uc == 0x000A ==> o.nlf2ls && o.nlf2ps)
    && (o.stripcc && IsControl(uc) ==> uc == 0x000A)
  }

  lemma {:induction false} NewlinesCleaned(us: seq<int>, o: Options)
    requires HandlesControls(o)
    ensures forall i :: 0 <= i < |Newlines(us, o)| ==> Cleaned(Newlines(us, o)[i], o)
    decreases |us|
  {
    if us != [] {
      NewlinesCleaned(us[Taken(us)..], o);
    }
  }

  lemma {:induction false} CleanedIsFixed(us: seq<int>, o: Options)
    requires forall i :: 0 <= i < |us| ==> Cleaned(us[i], o)
    ensures Newlines(us, o) == us
  {
    if us != [] {
      assert Cleaned(us[0], o);
      CleanedIsFixed(us[1..], o);
      assert us == [us[0]] + us[1..];
    }
  }

  lemma NewlinesIdempotent(us: seq<int>, o: Options)
    requires HandlesControls(o)
    ensures Newlines(Newlines(us, o), o) == Newlines(us, o)
  {
    NewlinesCleaned(us, o);
    CleanedIsFixed(Newlines(us, o), o);
  }

  /** A CR LF lies across the cut between two texts. */
  predicate Across(a: seq<int>, b: seq<int>) {
    a != [] && a[|a| - 1] == 0x0D && b != [] && b[0] == 0x0A
  }

  lemma NewlinesOne(uc: int, o: Options)
    ensures Newlines([uc], o) == Replacement(uc, o)
  {
    assert [uc][1..] == [];
    assert Newlines([uc], o) == Replacement(uc, o) + Newlines([], o);
  }

  lemma TakenConcat(a: seq<int>, b: seq<int>)
    requires a != []
    ensures if |a| == 1 && Across(a, b) then Taken(a + b) == 2 && (a + b)[2..] == b[1..]
            else Taken(a + b) == Taken(a) && (a + b)[Taken(a)..] == a[Taken(a)..] + b
    ensures |a| > Taken(a) ==> (Across(a[Taken(a)..], b) <==> Across(a, b))
    ensures |a| == Taken(a) == 2 ==> !Across(a, b)
  {
  }

  /** Texts are handled piece by piece, unless a CR LF lies across the cut: then the LF belongs to the CR. */
  lemma {:induction false} NewlinesConcat(a: seq<int>, b: seq<int>, o: Options)
    ensures Newlines(a + b, o) == Newlines(a, o) + Newlines(if Across(a, b) then b[1..] else b, o)
    decreases |a|
  {
    if a == [] {
      assert a + b == b;
    } else {
      TakenConcat(a, b);
      assert (a + b)[0] == a[0];
      if |a| == 1 && Across(a, b) {
        NewlinesOne(a[0], o);
        assert a == [a[0]];
      } else {
        NewlinesConcat(a[Taken(a)..], b, o);
        var b' := if Across(a, b) then b[1..] else b;
        Associative(Replacement(a[0], o), Newlines(a[Taken(a)..], o), Newlines(b', o));
      }
    }
  }

  /** LF, CR, CR LF and NEL. */
  predicate IsNlf(s: seq<int>) { s == [0x0A] || s == [0x0D] || s == [0x0D, 0x0A] || s == [0x85] }

  /** A newline sequence that is not part of a longer one. */
  predicate Apart(a: seq<int>, nlf: seq<int>, b: seq<int>) {
    && !(a != [] && a[|a| - 1] == 0x0D && nlf == [0x0A])
    && !(nlf == [0x0D] && b != [] && b[0] == 0x0A)
  }

  /** Every newline sequence becomes one line separator under NLF2LS, one paragraph separator under NLF2PS, one LF
      under both, and one space under neither. */
  lemma NewlineSequence(a: seq<int>, nlf: seq<int>, b: seq<int>, o: Options)
    requires IsNlf(nlf) && Apart(a, nlf, b)
    ensures Newlines(a + nlf + b, o) ==
            Newlines(a, o)
            + [if o.nlf2ls && o.nlf2ps then 0x0A else if o.nlf2ls then 0x2028 else if o.nlf2ps then 0x2029 else 0x20]
            + Newlines(b, o)
  {
    NewlinesConcat(a + nlf, b, o);
    NewlinesConcat(a, nlf, o);
    assert (a + nlf)[|a + nlf| - 1] == nlf[|nlf| - 1];
    NewlinesOfNlf(nlf, o);
  }

  lemma NewlinesOfNlf(nlf: seq<int>, o: Options)
    requires IsNlf(nlf)
    ensures Newlines(nlf, o) == [NewlineFor(o)]
  {
    if |nlf| == 2 {
      assert nlf[2..] == [];
      assert Newlines(nlf, o) == Replacement(nlf[0], o) + Newlines([], o);
    } else {
      NewlinesOne(nlf[0], o);
    }
  }

  /** Any other code point: VT and FF count as newlines under STRIPCC, which makes a tab a space and drops every
      other control character. */
  lemma OtherCodePoint(a: seq<int>, uc: int, b: seq<int>, o: Options)
    requires uc != 0x0A && uc != 0x0D && uc != 0x85
    ensures Newlines(a + [uc] + b, o) ==
            Newlines(a, o)
            + (if !o.stripcc || 0x20 <= uc < 0x7F || uc >= 0xA0 then [uc]
               else if uc == 0x0B || uc == 0x0C then [NewlineFor(o)]
               else if uc == 0x09 then [0x20]
               else [])
            + Newlines(b, o)
  {
    NewlinesConcat(a + [uc], b, o);
    NewlinesConcat(a, [uc], o);
    NewlinesOne(uc, o);
  }

  /** The header announces that under STRIPCC tabs and form feeds are treated as newline sequences and that all
      other control characters are removed. Of the tab this is so exactly if newlines become spaces, of the form
      feed always, and of the others unless it is the vertical tab. */
  lemma StripccAnnounced(uc: int, o: Options)
    requires o.stripcc
    ensures Newlines([0x09], o) == Newlines([0x0A], o) <==> !o.nlf2ls && !o.nlf2ps
    ensures Newlines([0x0C], o) == Newlines([0x0A], o)
    ensures IsControl(uc) && uc !in {0x09, 0x0A, 0x0C, 0x0D, 0x85} ==> (Newlines([uc], o) == [] <==> uc != 0x0B)
  {
    NewlinesOne(0x09, o);
    NewlinesOne(0x0A, o);
    NewlinesOne(uc, o);
    NewlinesOne(0x0C, o);
    assert [NewlineFor(o)][0] == NewlineFor(o) && [0x20][0] == 0x20;
  }

  /** The loop of utf8proc_reencode that handles newlines within the buffer. */
  method HandleNewlines(mem: array<byte>, length: nat, o: Options) returns (length': nat)
    requires 4 * length <= mem.Length
    modifies mem
    ensures length' <= length
    ensures Cells(mem[..])[..length'] == Newlines(old(Cells(mem[..]))[..length], o)
    ensures forall i :: length <= i < mem.Length / 4 ==> Cells(mem[..])[i] == old(Cells(mem[..]))[i]
  {
    ghost var c0 := Cells(mem[..]);
    ghost var rest := c0[..length];
    ghost var out: seq<int> := [];
    var wpos := 0;
    var rpos := 0;
    while rpos < length
      invariant 0 <= wpos <= rpos <= length
      invariant Cells(mem[..])[..wpos] == out && Cells(mem[..])[rpos..] == c0[rpos..]
      invariant rest == c0[rpos..length]
      invariant out + Newlines(rest, o) == Newlines(c0[..length], o)
    {
      ghost var c := Cells(mem[..]);
      SameUpTo(c, c0, rpos, length);
      NewlinesStep(out, rest, o);
      ghost var at := rpos;
      wpos, rpos := NewlineRound(mem, wpos, rpos, length, o);
      FromThere(c, c0, at, rpos);
      Further(c0, at, length, rpos - at);
      out, rest := out + Replacement(rest[0], o), rest[Taken(rest)..];
    }
    assert out + [] == out;
    length' := wpos;
    BehindSame(Cells(mem[..]), c0, rpos, length);
  }

  /** One round: reads a code point with the LF behind a CR, and writes what it becomes. */
  method NewlineRound(mem: array<byte>, wpos: nat, rpos: nat, length: nat, o: Options) returns (wpos': nat, rpos': nat)
    requires wpos <= rpos < length && 4 * length <= mem.Length
    modifies mem
    ensures var rest := old(Cells(mem[..]))[rpos..length];
            && rpos' == rpos + Taken(rest) <= length && wpos <= wpos' <= rpos'
            && Cells(mem[..])[..wpos'] == old(Cells(mem[..]))[..wpos] + Replacement(rest[0], o)
            && Cells(mem[..])[rpos'..] == old(Cells(mem[..]))[rpos'..]
  {
    var uc, taken := ReadNewline(mem, rpos, length);
    wpos' := PutReplacement(mem, wpos, uc, o);
    rpos' := rpos + taken;
  }

  lemma SameUpTo(c: seq<int>, c0: seq<int>, i: nat, j: nat)
    requires i <= j <= |c| == |c0| && c[i..] == c0[i..]
    ensures c[i..j] == c0[i..j]
  {
    assert c[i..j] == c[i..][..j - i] && c0[i..j] == c0[i..][..j - i];
  }

  lemma FromThere(c: seq<int>, c0: seq<int>, i: nat, j: nat)
    requires i <= j <= |c| == |c0| && c[i..] == c0[i..]
    ensures c[j..] == c0[j..]
  {
    assert c[j..] == c[i..][j - i..] && c0[j..] == c0[i..][j - i..];
  }

  lemma BehindSame(c: seq<int>, c0: seq<int>, i: nat, j: nat)
    requires i <= j <= |c| == |c0| && c[i..] == c0[i..]
    ensures forall k :: j <= k < |c0| ==> c[k] == c0[k]
  {
    forall k | j <= k < |c0|
      ensures c[k] == c0[k]
    {
      assert c[k] == c[i..][k - i] && c0[k] == c0[i..][k - i];
    }
  }

  lemma Further(s: seq<int>, i: nat, j: nat, n: nat)
    requires i + n <= j <= |s|
    ensures s[i..j][n..] == s[i + n..j]
  {
  }

  /** Reads a code point, and looks ahead for the LF behind a CR. */
  method ReadNewline(mem: array<byte>, rpos: nat, length: nat) returns (uc: int, taken: nat)
    requires rpos < length && 4 * length <= mem.Length
    ensures var rest := Cells(mem[..])[rpos..length];
            uc == rest[0] && IsInt32(uc) && taken == Taken(rest) && rpos + taken <= length
  {
    ghost var rest := Cells(mem[..])[rpos..length];
    uc := Load(mem, rpos);
    assert rest[0] == uc;
    taken := 1;
    if uc == 0x000D && rpos < length - 1 {
      var next := Load(mem, rpos + 1);
      assert rest[1] == next;
      if next == 0x000A { taken := 2; }
    }
  }

  lemma NewlinesStep(out: seq<int>, rest: seq<int>, o: Options)
    requires rest != []
    ensures out + Newlines(rest, o) == out + Replacement(rest[0], o) + Newlines(rest[Taken(rest)..], o)
  {
    Associative(out, Replacement(rest[0], o), Newlines(rest[Taken(rest)..], o));
  }

  /** Writes what a code point becomes at wpos. */
  method PutReplacement(mem: array<byte>, wpos: nat, uc: int, o: Options) returns (wpos': nat)
    requires 4 * wpos + 4 <= mem.Length && IsInt32(uc)
    modifies mem
    ensures wpos <= wpos' <= wpos + 1
    ensures Cells(mem[..])[..wpos'] == old(Cells(mem[..]))[..wpos] + Replacement(uc, o)
    ensures forall i :: wpos < i < mem.Length / 4 ==> Cells(mem[..])[i] == old(Cells(mem[..]))[i]
  {
    ghost var c := Cells(mem[..]);
    if uc == 0x000A || uc == 0x000D || uc == 0x0085 || (o.stripcc && (uc == 0x000B || uc == 0x000C)) {
      var newline;
      if o.nlf2ls {
        if o.nlf2ps { newline := 0x000A; } else { newline := 0x2028; }
      } else {
        if o.nlf2ps { newline := 0x2029; } else { newline := 0x0020; }
      }
      Store(mem, wpos, newline);
      wpos' := wpos + 1;
    } else if o.stripcc && (uc < 0x0020 || 0x007F <= uc < 0x00A0) {
      if uc == 0x0009 {
        Store(mem, wpos, 0x0020);
        wpos' := wpos + 1;
      } else {
        wpos' := wpos;
      }
    } else {
      Store(mem, wpos, uc);
      wpos' := wpos + 1;
    }
    assert wpos' == wpos + |Replacement(uc, o)|;
    assert Cells(mem[..])[..wpos] == c[..wpos];
  }

  // ---------------------------------------------------------------- UTF-8 over the cells

  /** utf8proc_encode_char, writing at byte offset wpos. */
  method EncodeAt(mem: array<byte>, wpos: nat, uc: int) returns (n: nat)
    requires wpos + |EncodeChar(uc)| <= mem.Length
    modifies mem
    ensures n == |EncodeChar(uc)|
    ensures mem[..wpos + n] == old(mem[..wpos]) + EncodeChar(uc)
    ensures forall i :: wpos + n <= i < mem.Length ==> mem[i] == old(mem[i])
  {
    if uc < 0x00 {
      n := 0;
    } else if uc < 0x80 {
      mem[wpos] := uc;
      n := 1;
    } else if uc < 0x800 {
      mem[wpos], mem[wpos + 1] := 0xC0 + uc / 64, 0x80 + uc % 64;
      n := 2;
    } else if uc == 0xFFFF {
      mem[wpos] := 0xFF;
      n := 1;
    } else if uc == 0xFFFE {
      mem[wpos] := 0xFE;
      n := 1;
    } else if uc < 0x10000 {
      mem[wpos], mem[wpos + 1], mem[wpos + 2] := 0xE0 + uc / 4096, 0x80 + uc / 64 % 64, 0x80 + uc % 64;
      n := 3;
    } else if uc < 0x110000 {
      mem[wpos], mem[wpos + 1] := 0xF0 + uc / 262144, 0x80 + uc / 4096 % 64;
      mem[wpos + 2], mem[wpos + 3] := 0x80 + uc / 64 % 64, 0x80 + uc % 64;
      n := 4;
    } else {
      n := 0;
    }
  }

  lemma EncodeNext(us: seq<int>, i: nat)
    requires i < |us|
    ensures EncodeAll(us[..i + 1]) == EncodeAll(us[..i]) + EncodeChar(us[i])
  {
    Advance(us, i);
    EncodeAllConcat(us[..i], [us[i]]);
    assert EncodeAll([us[i]]) == EncodeChar(us[i]) + EncodeAll([]);
  }

  /** The final loop: bytes are written from the front of the buffer whose cells are still being read,
      never past the cell just read; the terminator needs the one spare byte. */
  method EncodeInPlace(mem: array<byte>, length: nat) returns (wpos: nat)
    requires 4 * length + 1 <= mem.Length
    modifies mem
    ensures wpos == |EncodeAll(old(Cells(mem[..]))[..length])| <= 4 * length
    ensures mem[..wpos] == EncodeAll(old(Cells(mem[..]))[..length])
    ensures mem[wpos] == 0
  {
    ghost var c0 := Cells(mem[..]);
    ghost var c := c0;
    wpos := 0;
    var rpos := 0;
    while rpos < length
      invariant 0 <= rpos <= length && wpos <= 4 * rpos
      invariant mem[..wpos] == EncodeAll(c0[..rpos])
      invariant c == Cells(mem[..]) && forall i :: rpos <= i < |c0| ==> c[i] == c0[i]
    {
      wpos := EncodeCell(mem, rpos, wpos, c);
      EncodeNext(c0, rpos);
      c := Cells(mem[..]);
      rpos := rpos + 1;
    }
    mem[wpos] := 0;
  }

  /** One round of the final loop. */
  method EncodeCell(mem: array<byte>, rpos: nat, wpos: nat, ghost c: seq<int>) returns (wpos': nat)
    requires 4 * rpos + 4 <= mem.Length && wpos <= 4 * rpos && c == Cells(mem[..])
    modifies mem
    ensures wpos' <= 4 * rpos + 4 && mem[..wpos'] == old(mem[..wpos]) + EncodeChar(c[rpos])
    ensures forall i :: rpos < i < |c| ==> Cells(mem[..])[i] == c[i]
  {
    var uc := Load(mem, rpos);
    ghost var m := mem[..];
    var n := EncodeAt(mem, wpos, uc);
    wpos' := wpos + n;
    forall i | rpos < i < |c|
      ensures Cells(mem[..])[i] == c[i]
    {
      CellsAbove(m, mem[..], wpos', i);
    }
  }

  lemma CellsAbove(m: seq<byte>, m': seq<byte>, low: nat, i: nat)
    requires |m| == |m'| && low <= 4 * i && 4 * i + 4 <= |m|
    requires forall k :: low <= k < |m| ==> m'[k] == m[k]
    ensures Cells(m')[i] == Cells(m)[i]
  {
    CellOf(m, i);
    CellOf(m', i);
  }

  // ---------------------------------------------------------------- the passes together

  /** The code points that are encoded. */
  function Passes(t: Table, us: seq<int>, o: Options): seq<int> {
    var controlled := if HandlesControls(o) then Newlines(us, o) else us;
    if o.compose then Composition.ComposeAll(t, o.stable, controlled) else controlled
  }

  lemma {:induction false} NewlinesInRange(us: seq<int>, o: Options)
    requires forall i :: 0 <= i < |us| ==> InRange(us[i])
    ensures forall i :: 0 <= i < |Newlines(us, o)| ==> InRange(Newlines(us, o)[i])
    decreases |us|
  {
    if us != [] {
      NewlinesInRange(us[Taken(us)..], o);
    }
  }

  /** utf8proc_reencode. */
  method Reencode(t: Table, mem: array<byte>, length: nat, o: Options) returns (result: nat)
    requires t.Valid() && 4 * length + 1 <= mem.Length
    requires forall i :: 0 <= i < length ==> InRange(Cells(mem[..])[i])
    modifies mem
    ensures var bytes := EncodeAll(Passes(t, old(Cells(mem[..]))[..length], o));
            && result == |bytes| < mem.Length
            && mem[..result] == bytes && mem[result] == 0
  {
    ghost var us := Cells(mem[..])[..length];
    var n := length;
    if o.nlf2ls || o.nlf2ps || o.stripcc {
      n := HandleNewlines(mem, n, o);
      NewlinesInRange(us, o);
      assert forall i :: 0 <= i < n ==> Cells(mem[..])[i] == Newlines(us, o)[i];
    }
    if o.compose {
      n := Composition.Compose(t, mem, n, o);
    }
    result := EncodeInPlace(mem, n);
  }
}
