/** strreplace, endsWith and toIdentifier: turning a string into a C-level identifier by rewriting. */
module Identifier {
  import opened Sequences

  // ---------------------------------------------------------------- searching

  predicate At(s: string, o: string, i: nat) { i + |o| <= |s| && s[i..i + |o|] == o }

  const NPOS := -1

  /** std::string::find from position i. */
  function Find(s: string, o: string, i: nat): (r: int)
    requires i <= |s|
    ensures r == NPOS || (i <= r && At(s, o, r))
    ensures forall j: nat :: i <= j && (r == NPOS || j < r) ==> !At(s, o, j)
    decreases |s| - i
  {
    if At(s, o, i) then i else if i == |s| then NPOS else Find(s, o, i + 1)
  }

  /** std::string::rfind at or before position i. */
  function FindLast(s: string, o: string, i: nat): (r: int)
    ensures r == NPOS || (0 <= r <= i && At(s, o, r))
    ensures forall j: nat :: j <= i && (r == NPOS || r < j) ==> !At(s, o, j)
  {
    if At(s, o, i) then i else if i == 0 then NPOS else FindLast(s, o, i - 1)
  }

  predicate IsSuffix(s: string, suffix: string) { |suffix| <= |s| && s[|s| - |suffix|..] == suffix }

  /** endsWith asks whether the last occurrence of the suffix is at the end. */
  predicate EndsWith(s: string, suffix: string): (r: bool)
    ensures r <==> IsSuffix(s, suffix)
  {
    var i := FindLast(s, suffix, |s|);
    assert |suffix| <= |s| ==> s[|s| - |suffix|..] == s[|s| - |suffix|..|s| - |suffix| + |suffix|];
    assert IsSuffix(s, suffix) ==> At(s, suffix, |s| - |suffix|);
    if i == NPOS then false else i == |s| - |suffix|
  }

  // ---------------------------------------------------------------- strreplace

  /** Every use replaces by something shorter, or a character by text that does not hold it. */
  predicate Shrinks(o: string, n: string) { |n| < |o| || (|o| == 1 && o[0] !in n) }

  function Measure(s: string, o: string, n: string): nat
    requires Shrinks(o, n)
  {
    if |n| < |o| then |s| else multiset(s)[o[0]]
  }

  function ReplaceAt(s: string, o: string, n: string, i: nat): string
    requires At(s, o, i)
  {
    s[..i] + n + s[i + |o|..]
  }

  lemma MeasureDrops(s: string, o: string, n: string, i: nat)
    requires Shrinks(o, n) && At(s, o, i)
    ensures Measure(ReplaceAt(s, o, n, i), o, n) < Measure(s, o, n)
  {
    assert s == s[..i] + s[i..i + |o|] + s[i + |o|..];
  }

  /** Replacing the first occurrence until there is none. */
  function Rewrite(s: string, o: string, n: string): string
    requires Shrinks(o, n)
    decreases Measure(s, o, n)
  {
    var i := Find(s, o, 0);
    if i == NPOS then s
    else
      MeasureDrops(s, o, n, i);
      Rewrite(ReplaceAt(s, o, n, i), o, n)
  }

  method StrReplace(s: string, o: string, n: string) returns (r: string)
    requires Shrinks(o, n)
    ensures r == Rewrite(s, o, n)
    ensures forall j: nat :: !At(r, o, j)
  {
    r := s;
    while true
      invariant Rewrite(r, o, n) == Rewrite(s, o, n)
      decreases Measure(r, o, n)
    {
      var i := Find(r, o, 0);
      if i == NPOS { break; }
      MeasureDrops(r, o, n, i);
      r := ReplaceAt(r, o, n, i);
    }
  }

  /** Text that holds what it replaces is replaced for ever: an occurrence is left after every step. */
  lemma EndlessReplacement(s: string, o: string, n: string, i: nat, j: nat)
    requires At(s, o, i) && At(n, o, j)
    ensures At(ReplaceAt(s, o, n, i), o, i + j)
  {
    assert ReplaceAt(s, o, n, i)[i + j..i + j + |o|] == n[j..j + |o|];
  }

  // ---------------------------------------------------------------- what the rewriting computes

  /** One character for another, everywhere. */
  function Mapped(s: string, c: char, d: char): string {
    seq(|s|, i requires 0 <= i < |s| => if s[i] == c then d else s[i])
  }

  lemma MappedOnce(s: string, i: nat, c: char, d: char)
    requires At(s, [c], i)
    ensures Mapped(ReplaceAt(s, [c], [d], i), c, d) == Mapped(s, c, d)
  {
    assert s[i..i + 1][0] == s[i];
  }

  lemma MappedNone(s: string, c: char, d: char)
    requires forall j: nat :: !At(s, [c], j)
    ensures Mapped(s, c, d) == s
  {
    forall j | 0 <= j < |s|
      ensures s[j] != c
    {
      assert !At(s, [c], j);
    }
  }

  lemma {:induction false} RewriteChar(s: string, c: char, d: char)
    requires c != d
    ensures Rewrite(s, [c], [d]) == Mapped(s, c, d)
    decreases Measure(s, [c], [d])
  {
    var i := Find(s, [c], 0);
    if i == NPOS {
      MappedNone(s, c, d);
    } else {
      MeasureDrops(s, [c], [d], i);
      RewriteChar(ReplaceAt(s, [c], [d], i), c, d);
      MappedOnce(s, i, c, d);
    }
  }

  /** "::" read off from the left, each becoming one underscore. */
  function Pairs(s: string): string {
    if |s| < 2 then s
    else if s[0] == ':' && s[1] == ':' then "_" + Pairs(s[2..])
    else [s[0]] + Pairs(s[1..])
  }

  lemma {:induction false} PairsStep(s: string, i: nat)
    requires At(s, "::", i) && forall j: nat :: j < i ==> !At(s, "::", j)
    ensures Pairs(s) == Pairs(ReplaceAt(s, "::", "_", i))
  {
    var t := ReplaceAt(s, "::", "_", i);
    if i == 0 {
      assert s[0..2] == "::" && s[0..2][0] == s[0] && s[0..2][1] == s[1];
      assert t == "_" + s[2..];
      if |t| == 1 {
        assert Pairs(s[2..]) == [];
      } else {
        assert t[1..] == s[2..];
      }
    } else {
      assert s[i..i + 2] == "::" && s[i..i + 2][0] == s[i];
      assert !At(s, "::", 0);
      assert s[0..2] == [s[0], s[1]];
      assert At(s[1..], "::", i - 1) by { assert s[1..][i - 1..i + 1] == s[i..i + 2]; }
      forall j: nat | j < i - 1
        ensures !At(s[1..], "::", j)
      {
        assert !At(s, "::", j + 1);
        assert j + 3 <= |s| ==> s[1..][j..j + 2] == s[j + 1..j + 3];
      }
      PairsStep(s[1..], i - 1);
      assert t[0] == s[0] && t[1..] == ReplaceAt(s[1..], "::", "_", i - 1);
      assert i == 1 ==> t[1] == '_';
      assert i > 1 ==> t[1] == s[1];
    }
  }

  lemma {:induction false} PairsNone(s: string)
    requires forall j: nat :: !At(s, "::", j)
    ensures Pairs(s) == s
  {
    if |s| >= 2 {
      assert !At(s, "::", 0);
      forall j: nat
        ensures !At(s[1..], "::", j)
      {
        assert !At(s, "::", j + 1);
        assert j + 3 <= |s| ==> s[1..][j..j + 2] == s[j + 1..j + 3];
      }
      PairsNone(s[1..]);
      assert [s[0]] + s[1..] == s;
      assert s[0..2] == [s[0], s[1]];
    }
  }

  lemma {:induction false} RewritePairs(s: string)
    ensures Rewrite(s, "::", "_") == Pairs(s)
    decreases |s|
  {
    var i := Find(s, "::", 0);
    if i == NPOS {
      PairsNone(s);
    } else {
      PairsStep(s, i);
      RewritePairs(ReplaceAt(s, "::", "_", i));
    }
  }

  /** Every run of underscores as one. */
  function Squeezed(s: string): string {
    if |s| < 2 then s
    else if s[0] == '_' && s[1] == '_' then Squeezed(s[1..])
    else [s[0]] + Squeezed(s[1..])
  }

  predicate Single(s: string) { forall j :: 0 <= j < |s| - 1 ==> !(s[j] == '_' && s[j + 1] == '_') }

  lemma {:induction false} SqueezedStep(s: string, i: nat)
    requires At(s, "__", i)
    ensures Squeezed(s) == Squeezed(ReplaceAt(s, "__", "_", i))
  {
    var t := ReplaceAt(s, "__", "_", i);
    assert s[i..i + 2] == "__" && s[i] == '_' && s[i..i + 2][1] == s[i + 1];
    if i == 0 {
      assert t == s[1..];
    } else {
      assert At(s[1..], "__", i - 1) by { assert s[1..][i - 1..i + 1] == s[i..i + 2]; }
      SqueezedStep(s[1..], i - 1);
      assert t[0] == s[0] && t[1] == s[1] && t[1..] == ReplaceAt(s[1..], "__", "_", i - 1);
    }
  }

  lemma {:induction false} SqueezedNone(s: string)
    requires Single(s)
    ensures Squeezed(s) == s
  {
    if |s| >= 2 {
      assert forall j :: 0 <= j < |s| - 1 ==> s[1..][j] == s[j + 1];
      SqueezedNone(s[1..]);
      assert [s[0]] + s[1..] == s;
    }
  }

  lemma {:induction false} RewriteSqueezes(s: string)
    ensures Rewrite(s, "__", "_") == Squeezed(s)
    decreases |s|
  {
    var i := Find(s, "__", 0);
    if i == NPOS {
      forall j | 0 <= j < |s| - 1
        ensures !(s[j] == '_' && s[j + 1] == '_')
      {
        assert !At(s, "__", j);
        assert s[j..j + 2] == [s[j], s[j + 1]];
      }
      SqueezedNone(s);
    } else {
      SqueezedStep(s, i);
      RewriteSqueezes(ReplaceAt(s, "__", "_", i));
    }
  }

  // ---------------------------------------------------------------- toIdentifier

  predicate Digit(c: char) { '0' <= c <= '9' }

  predicate Alphanumeric(c: char) { Digit(c) || 'A' <= c <= 'Z' || 'a' <= c <= 'z' }

  predicate Clean(s: string) { forall i :: 0 <= i < |s| ==> Alphanumeric(s[i]) || s[i] == '_' }

  /** c >> 4 is an index of the digit table for these only. */
  predicate Ascii(s: string) { forall i :: 0 <= i < |s| ==> s[i] < 128 as char }

  predicate NoTail(s: string) { s == "" || s[|s| - 1] != '_' }

  const SEPARATORS := "<>,. -'\""

  /** The separators given, each as an underscore. */
  function Flattened(s: string, separators: string): string {
    seq(|s|, i requires 0 <= i < |s| => if s[i] in separators then '_' else s[i])
  }

  /** The underscores at the end taken off. */
  function Stripped(s: string): (r: string)
    ensures NoTail(r)
  {
    if s != "" && s[|s| - 1] == '_' then Stripped(s[..|s| - 1]) else s
  }

  function HexDigit(d: nat): char
    requires d < 16
  {
    "0123456789abcdef"[d]
  }

  /** A character that is not allowed is spelled out, the second digit being taken modulo 15. */
  function Spelled(c: char): (r: string)
    requires c < 128 as char
    ensures r != "" && (c == '_' ==> r == "_") && (c != '_' ==> r[|r| - 1] != '_')
  {
    if Alphanumeric(c) || c == '_' then [c] else ['x', HexDigit(c as int / 16), HexDigit(c as int % 15)]
  }

  function AllSpelled(s: string): string
    requires Ascii(s)
  {
    if s == "" then "" else Spelled(s[0]) + AllSpelled(s[1..])
  }

  /** The name before the marks that keep it from being a number or a keyword. */
  function Base(s: string): string
    requires Ascii(s)
  {
    AsciiKept(s);
    Squeezed(AllSpelled(Stripped(Squeezed(Flattened(Pairs(s), SEPARATORS)))))
  }

  function Prefixed(s: string): string { if s != "" && Digit(s[0]) then "_" + s else s }

  function IdentifierOf(s: string, ensureNonKeyword: bool): string
    requires Ascii(s)
  {
    if s == "" then s
    else if ensureNonKeyword then Prefixed(Base(s)) + "_"
    else Prefixed(Base(s))
  }

  lemma AsciiKept(s: string)
    requires Ascii(s)
    ensures Ascii(Stripped(Squeezed(Flattened(Pairs(s), SEPARATORS))))
  {
    AsciiPairs(s);
    AsciiSqueezed(Flattened(Pairs(s), SEPARATORS));
    AsciiStripped(Squeezed(Flattened(Pairs(s), SEPARATORS)));
  }

  lemma {:induction false} AsciiPairs(s: string)
    requires Ascii(s)
    ensures Ascii(Pairs(s))
  {
    if |s| >= 2 {
      AsciiPairs(s[1..]);
      AsciiPairs(s[2..]);
    }
  }

  lemma {:induction false} AsciiSqueezed(s: string)
    requires Ascii(s)
    ensures Ascii(Squeezed(s))
  {
    if |s| >= 2 {
      AsciiSqueezed(s[1..]);
    }
  }

  lemma {:induction false} AsciiStripped(s: string)
    requires Ascii(s)
    ensures Ascii(Stripped(s))
  {
    if s != "" && s[|s| - 1] == '_' {
      AsciiStripped(s[..|s| - 1]);
    }
  }

  method ToIdentifier(s: string, ensureNonKeyword: bool) returns (ns: string)
    requires Ascii(s)
    ensures ns == IdentifierOf(s, ensureNonKeyword)
  {
    if s == "" { return s; }
    var normalized := Normalize(s);
    AsciiKept(s);
    ghost var whole := normalized;
    while EndsWith(normalized, "_")
      invariant Stripped(normalized) == Stripped(whole)
      decreases |normalized|
    {
      normalized := normalized[..|normalized| - 1];
    }
    ns := Spell(normalized);
    ns := StrReplace(ns, "__", "_");
    RewriteSqueezes(AllSpelled(normalized));
    if ns != "" && Digit(ns[0]) { ns := "_" + ns; }
    if ensureNonKeyword { ns := ns + "_"; }
  }

  /** The replacements at the start of toIdentifier. */
  method Normalize(s: string) returns (normalized: string)
    ensures normalized == Squeezed(Flattened(Pairs(s), SEPARATORS))
  {
    normalized := StrReplace(s, "::", "_");
    RewritePairs(s);
    ghost var p := Pairs(s);
    assert normalized == Flattened(p, SEPARATORS[..0]);
    normalized := Flatten(p, 0, '<', normalized);
    normalized := Flatten(p, 1, '>', normalized);
    normalized := Flatten(p, 2, ',', normalized);
    normalized := Flatten(p, 3, '.', normalized);
    normalized := Flatten(p, 4, ' ', normalized);
    normalized := Flatten(p, 5, '-', normalized);
    normalized := Flatten(p, 6, '\'', normalized);
    normalized := Flatten(p, 7, '"', normalized);
    assert SEPARATORS[..8] == SEPARATORS;
    RewriteSqueezes(normalized);
    normalized := StrReplace(normalized, "__", "_");
  }

  /** One more separator made an underscore. */
  method Flatten(ghost s: string, ghost k: nat, c: char, t: string) returns (r: string)
    requires k < |SEPARATORS| && c == SEPARATORS[k] && c != '_' && t == Flattened(s, SEPARATORS[..k])
    ensures r == Flattened(s, SEPARATORS[..k + 1])
  {
    RewriteChar(t, c, '_');
    r := StrReplace(t, [c], "_");
    assert SEPARATORS[..k + 1] == SEPARATORS[..k] + [c];
  }

  /** The loop that spells out what is not allowed. */
  method Spell(normalized: string) returns (ns: string)
    requires Ascii(normalized)
    ensures ns == AllSpelled(normalized)
  {
    ns := "";
    var i := 0;
    while i < |normalized|
      invariant 0 <= i <= |normalized|
      invariant AllSpelled(normalized) == ns + AllSpelled(normalized[i..])
    {
      var c := normalized[i];
      var piece := if Alphanumeric(c) || c == '_' then [c]
                   else ['x', HexDigit(c as int / 16), HexDigit(c as int % 15)];
      SpelledStep(normalized, i, ns);
      ns := ns + piece;
      i := i + 1;
    }
  }

  lemma SpelledStep(s: string, i: nat, ns: string)
    requires Ascii(s) && i < |s|
    ensures ns + AllSpelled(s[i..]) == ns + Spelled(s[i]) + AllSpelled(s[i + 1..])
  {
    assert s[i..][1..] == s[i + 1..];
    assert ns + (Spelled(s[i]) + AllSpelled(s[i + 1..])) == ns + Spelled(s[i]) + AllSpelled(s[i + 1..]);
  }

  // ---------------------------------------------------------------- what the identifiers look like

  lemma {:induction false} SqueezedShape(s: string)
    ensures Single(Squeezed(s)) && (Clean(s) ==> Clean(Squeezed(s))) && (NoTail(s) ==> NoTail(Squeezed(s)))
    ensures (s == "" <==> Squeezed(s) == "") && (s != "" ==> Squeezed(s)[0] == s[0])
  {
    if |s| >= 2 {
      SqueezedShape(s[1..]);
    }
  }

  lemma {:induction false} SpelledShape(s: string)
    requires Ascii(s)
    ensures Clean(AllSpelled(s)) && (NoTail(s) ==> NoTail(AllSpelled(s)))
  {
    if s != "" {
      SpelledShape(s[1..]);
      var a, b := Spelled(s[0]), AllSpelled(s[1..]);
      assert b != "" ==> (a + b)[|a + b| - 1] == b[|b| - 1];
      assert Clean(a);
    }
  }

  lemma BaseShape(s: string)
    requires Ascii(s)
    ensures Clean(Base(s)) && Single(Base(s)) && NoTail(Base(s))
  {
    AsciiKept(s);
    var t := Stripped(Squeezed(Flattened(Pairs(s), SEPARATORS)));
    SpelledShape(t);
    SqueezedShape(AllSpelled(t));
  }

  /** The result is alphanumeric with underscores, never starts with a digit and never holds two
      underscores in a row; asked for, it ends with one, as no keyword does. */
  lemma IdentifierShape(s: string, ensureNonKeyword: bool)
    requires Ascii(s)
    ensures var r := IdentifierOf(s, ensureNonKeyword);
            && Clean(r) && Single(r) && (r != "" ==> !Digit(r[0]))
            && (s != "" ==> (ensureNonKeyword <==> !NoTail(r)))
  {
    BaseShape(s);
    var p := Prefixed(Base(s));
    assert Clean(p) && Single(p) && NoTail(p);
  }

  predicate OnlyUnderscores(s: string) { forall i :: 0 <= i < |s| ==> s[i] == '_' }

  predicate IsIdentifier(s: string) { s != "" && Clean(s) && !Digit(s[0]) }

  lemma {:induction false} StrippedAway(s: string)
    ensures Stripped(s) == "" <==> OnlyUnderscores(s)
  {
    if s != "" && s[|s| - 1] == '_' {
      StrippedAway(s[..|s| - 1]);
      Snoc(s);
    }
  }

  lemma {:induction false} SqueezedUnderscores(s: string)
    ensures OnlyUnderscores(Squeezed(s)) <==> OnlyUnderscores(s)
  {
    if |s| >= 2 {
      SqueezedUnderscores(s[1..]);
      Cons(s);
      UnderscoresCons(s[0], s[1..]);
      UnderscoresCons(s[0], Squeezed(s[1..]));
    }
  }

  lemma UnderscoresCons(c: char, s: string)
    ensures OnlyUnderscores([c] + s) <==> c == '_' && OnlyUnderscores(s)
  {
    var t := [c] + s;
    assert t[0] == c && t[1..] == s;
    assert forall i :: 0 <= i < |s| ==> t[1..][i] == t[i + 1];
  }

  lemma BaseEmpty(s: string)
    requires Ascii(s)
    ensures Base(s) == "" <==> OnlyUnderscores(Flattened(Pairs(s), SEPARATORS))
  {
    AsciiKept(s);
    var flat := Flattened(Pairs(s), SEPARATORS);
    SqueezedUnderscores(flat);
    StrippedAway(Squeezed(flat));
    SqueezedShape(AllSpelled(Stripped(Squeezed(flat))));
  }

  /** The result is an identifier exactly if the name is not empty and, unless an underscore is added for
      keywords, holds something besides underscores, separators and double colons. */
  lemma IdentifierExactly(s: string, ensureNonKeyword: bool)
    requires Ascii(s)
    ensures IsIdentifier(IdentifierOf(s, ensureNonKeyword))
       <==> s != "" && (ensureNonKeyword || !OnlyUnderscores(Flattened(Pairs(s), SEPARATORS)))
    ensures !IsIdentifier(IdentifierOf(s, ensureNonKeyword)) ==> IdentifierOf(s, ensureNonKeyword) == ""
  {
    IdentifierShape(s, ensureNonKeyword);
    BaseEmpty(s);
  }

  /** Names that become the empty string. */
  lemma EmptyExample()
    ensures IdentifierOf("_", false) == "" && IdentifierOf("::", false) == ""
  {
    assert Pairs("::") == "_" + Pairs("");
    IdentifierExactly("_", false);
    IdentifierExactly("::", false);
  }

  lemma PairsNoColon(s: string)
    requires forall i :: 0 <= i < |s| ==> s[i] != ':'
    ensures Pairs(s) == s
  {
    forall j: nat
      ensures !At(s, "::", j)
    {
      assert j + 2 <= |s| ==> s[j..j + 2][0] == s[j];
    }
    PairsNone(s);
  }

  lemma {:induction false} StrippedOnce(s: string)
    requires NoTail(s)
    ensures Stripped(s) == s && Stripped(s + "_") == s
  {
    assert (s + "_")[..|s|] == s;
  }

  lemma {:induction false} SpelledNone(s: string)
    requires Clean(s)
    ensures Ascii(s) && AllSpelled(s) == s
  {
    assert Ascii(s);
    if s != "" {
      SpelledNone(s[1..]);
      assert [s[0]] + s[1..] == s;
    }
  }

  lemma FlattenedNone(s: string)
    requires Clean(s)
    ensures Flattened(Pairs(s), SEPARATORS) == s
  {
    PairsNoColon(s);
    assert forall i :: 0 <= i < |s| ==> s[i] !in SEPARATORS;
  }

  /** Nothing is rewritten in a name that is already clean, up to an underscore at its end. */
  lemma BaseFixed(s: string, p: string)
    requires Clean(s) && Single(s) && Clean(p) && Single(p) && NoTail(p) && (s == p || s == p + "_")
    ensures Ascii(s) && Base(s) == p
  {
    SpelledNone(s);
    FlattenedNone(s);
    SqueezedNone(s);
    StrippedOnce(p);
    SpelledNone(p);
    SqueezedNone(p);
  }

  /** Converting an identifier again changes nothing, in either mode. */
  lemma IdentifierIdempotent(s: string, ensureNonKeyword: bool)
    requires Ascii(s)
    ensures var r := IdentifierOf(s, ensureNonKeyword);
            Ascii(r) && IdentifierOf(r, ensureNonKeyword) == r
  {
    BaseShape(s);
    IdentifierShape(s, ensureNonKeyword);
    if s != "" {
      var p := Prefixed(Base(s));
      assert Clean(p) && Single(p) && NoTail(p);
      BaseFixed(IdentifierOf(s, ensureNonKeyword), p);
    }
  }

  // ---------------------------------------------------------------- words

  /** Letters and digits, with single underscores only between them. */
  predicate Word(s: string) { s != "" && Clean(s) && Single(s) && NoTail(s) && s[0] != '_' }

  /** A clean name is kept: an underscore in front keeps it from being a number, one behind from being a keyword. */
  lemma IdentifierOfWord(s: string, ensureNonKeyword: bool)
    requires s != "" && Clean(s) && Single(s) && NoTail(s)
    ensures Ascii(s)
    ensures IdentifierOf(s, ensureNonKeyword) ==
            (if Digit(s[0]) then "_" else "") + s + (if ensureNonKeyword then "_" else "")
  {
    BaseFixed(s, s);
    assert "" + s == s && s + "" == s && "_" + s + "" == "_" + s;
  }

  lemma JoinedWord(a: string, m: string, b: string)
    requires Word(a) && Clean(m) && Word(b) && (m == "_" || (Single(m) && m != "" && m[0] != '_' && m[|m| - 1] != '_'))
    ensures Word(a + m + b)
  {
    var w := a + m + b;
    assert w[|w| - 1] == b[|b| - 1] && w[0] == a[0];
    forall i | 0 <= i < |w| - 1
      ensures !(w[i] == '_' && w[i + 1] == '_')
    {
      if i < |a| {
        assert w[i] == a[i];
      } else if i < |a| + |m| {
        assert w[i] == m[i - |a|];
      } else {
        assert w[i] == b[i - |a| - |m|];
      }
    }
  }

  /** "::" between words reads as one underscore. */
  lemma {:induction false} PairsBetween(a: string, b: string)
    requires Clean(a) && Clean(b)
    ensures Pairs(a + "::" + b) == a + "_" + b
  {
    if a == "" {
      PairsFront(b);
      assert a + "::" == "::" && a + "_" == "_";
    } else {
      PairsBetween(a[1..], b);
      OffFront(a, "::", b);
      OffFront(a, "_", b);
      PairsOther(a + "::" + b);
    }
  }

  lemma PairsFront(b: string)
    requires Clean(b)
    ensures Pairs("::" + b) == "_" + b
  {
    PairsNoColon(b);
    assert ("::" + b)[2..] == b;
  }

  lemma PairsOther(s: string)
    requires s != "" && s[0] != ':'
    ensures Pairs(s) == [s[0]] + Pairs(s[1..])
  {
    assert |s| == 1 ==> s == [s[0]] + s[1..];
  }

  lemma OffFront(a: string, m: string, b: string)
    requires a != ""
    ensures a + m + b == [a[0]] + (a[1..] + m + b) && (a + m + b)[0] == a[0] && (a + m + b)[1..] == a[1..] + m + b
  {
  }

  /** The rewriting up to the separators decides. */
  lemma BaseAfter(s: string, w: string)
    requires Ascii(s) && Flattened(Pairs(s), SEPARATORS) == w && Word(w)
    ensures Base(s) == w
  {
    SqueezedNone(w);
    StrippedOnce(w);
    SpelledNone(w);
  }

  lemma CleanAscii(a: string, m: string, b: string)
    requires Clean(a) && Ascii(m) && Clean(b)
    ensures Ascii(a + m + b)
  {
  }

  lemma FlattenedBetween(a: string, c: char, b: string)
    requires Clean(a) && Clean(b) && c in SEPARATORS && c != ':'
    ensures Flattened(Pairs(a + [c] + b), SEPARATORS) == a + "_" + b
  {
    var s := a + [c] + b;
    PairsNoColon(s);
    forall i | 0 <= i < |s|
      ensures (if s[i] in SEPARATORS then '_' else s[i]) == (a + "_" + b)[i]
    {
      if i < |a| {
        assert s[i] == a[i];
      } else if i > |a| {
        assert s[i] == b[i - |a| - 1];
      }
    }
  }

  /** Words with a separator between them, one of the listed characters or "::", are joined by an underscore. */
  lemma SeparatedWords(a: string, separator: string, b: string)
    requires Word(a) && Word(b)
    requires separator == "::" || (|separator| == 1 && separator[0] in "<>,. -'\"")
    ensures Ascii(a + separator + b) && Base(a + separator + b) == a + "_" + b
  {
    JoinedWord(a, "_", b);
    CleanAscii(a, separator, b);
    if separator == "::" {
      PairsBetween(a, b);
      FlattenedNone(a + "_" + b);
      PairsNoColon(a + "_" + b);
    } else {
      assert separator == [separator[0]];
      FlattenedBetween(a, separator[0], b);
    }
    BaseAfter(a + separator + b, a + "_" + b);
  }

  // ---------------------------------------------------------------- spelled characters

  /** The digit d of a hexadecimal number in lower case. */
  function Numeral(d: nat): char
    requires d < 16
  {
    if d < 10 then ('0' as int + d) as char else ('a' as int + (d - 10)) as char
  }

  /** A character that is not allowed is written as x, its upper digit, and its remainder modulo 15 where the
      lower digit would be: the sum of its two digits, taken modulo 15. */
  lemma SpelledExactly(c: char)
    requires c < 128 as char && !Alphanumeric(c) && c != '_'
    ensures Spelled(c) == ['x', Numeral(c as int / 16), Numeral((c as int / 16 + c as int % 16) % 15)]
  {
    DigitSum(c as int);
    HexDigitIsNumeral(c as int / 16);
    HexDigitIsNumeral(c as int % 15);
  }

  lemma DigitSum(n: nat)
    ensures n % 15 == (n / 16 + n % 16) % 15
  {
    assert n == 15 * (n / 16) + (n / 16 + n % 16);
  }

  lemma HexDigitIsNumeral(d: nat)
    requires d < 16
    ensures HexDigit(d) == Numeral(d)
  {
  }

  /** Two characters are spelled alike exactly if they are the same or the first and last of the rows 0, 1 and 2
      of the ASCII table. */
  lemma SpelledAlike(c: char, d: char)
    requires c < d < 128 as char
    ensures Spelled(c) == Spelled(d) <==> c as int in {0, 16, 32} && d as int == c as int + 15
  {
    if Spelled(c) == Spelled(d) {
      assert Spelled(c)[0] == Spelled(d)[0];
      if |Spelled(c)| == 3 {
        assert Spelled(c)[1] == Spelled(d)[1] && Spelled(c)[2] == Spelled(d)[2];
        HexDigitsDiffer(c as int / 16, d as int / 16);
        HexDigitsDiffer(c as int % 15, d as int % 15);
      }
    }
  }

  lemma HexDigitsDiffer(a: nat, b: nat)
    requires a < 16 && b < 16
    ensures HexDigit(a) == HexDigit(b) ==> a == b
  {
  }
}
