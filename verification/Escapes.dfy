/** escapeBytes, escapeUTF8 and expandEscapes, on the bytes of a std::string, with the number reader
    atoi_n that expandEscapes uses. */
module Escapes {
  import opened Sequences
  import opened Utf8
  import opened Wrappers

  const BACKSLASH: byte := 0x5C
  const QUOTE: byte := 0x22
  const MINUS: byte := 0x2D

  // ---------------------------------------------------------------- numbers

  /** The value of a hexadecimal digit. */
  function DigitOf(c: byte): (r: Option<nat>)
    ensures r.Some? ==> r.value < 16
  {
    if 0x30 <= c <= 0x39 then Some(c - 0x30)
    else if 0x61 <= c < 0x67 then Some(c - 0x61 + 10)
    else if 0x41 <= c < 0x47 then Some(c - 0x41 + 10)
    else None
  }

  predicate AllDigits(s: seq<byte>) { forall i :: 0 <= i < |s| ==> DigitOf(s[i]).Some? }

  function NumberOf(s: seq<byte>): nat
    requires AllDigits(s)
  {
    if s == [] then 0 else NumberOf(s[..|s| - 1]) * 16 + DigitOf(s[|s| - 1]).value
  }

  /** How many digits s starts with. */
  function DigitRun(s: seq<byte>): (n: nat)
    ensures n <= |s| && AllDigits(s[..n]) && (n < |s| ==> DigitOf(s[n]).None?)
  {
    if s != [] && DigitOf(s[0]).Some? then
      var n := DigitRun(s[1..]);
      assert s[..n + 1] == [s[0]] + s[1..][..n];
      n + 1
    else 0
  }

  /** The two result types in use are int32_t and char; a value is kept as its unsigned residue. */
  function Wrap(v: int, wide: bool): nat { if wide then v % 0x1_0000_0000 else v % 0x100 }

  function Negated(n: int, wide: bool): nat { Wrap(-n, wide) }

  /** A number read from the front of a string and how much of it that took, or an exception. */
  datatype Scanned = NoNumber | Number(value: nat, used: nat)

  function Atoi(s: seq<byte>, wide: bool): Scanned {
    if s != [] && s[0] == MINUS then
      var n := DigitRun(s[1..]);
      if n == 0 && |s| > 1 then NoNumber else Number(Negated(Wrap(NumberOf(s[1..][..n]), wide), wide), n + 1)
    else
      var n := DigitRun(s);
      if n == 0 && s != [] then NoNumber else Number(Wrap(NumberOf(s[..n]), wide), n)
  }

  /** atoi_n for base 16. */
  method AtoiN(s: seq<byte>, wide: bool) returns (r: Scanned)
    ensures r == Atoi(s, wide)
  {
    var neg := |s| > 0 && s[0] == MINUS;
    var body := if neg then s[1..] else s;
    var n, i := ReadRun(body, wide);
    if i == 0 && body != [] { return NoNumber; }
    if neg {
      r := Number(Negated(n, wide), i + 1);
    } else {
      r := Number(n, i);
    }
  }

  /** The loop of atoi_n, which multiplies in the result type. */
  method ReadRun(s: seq<byte>, wide: bool) returns (n: nat, i: nat)
    ensures i == DigitRun(s) && n == Wrap(NumberOf(s[..i]), wide)
  {
    n, i := 0, 0;
    while i < |s|
      invariant i <= |s| && AllDigits(s[..i])
      invariant n == Wrap(NumberOf(s[..i]), wide)
    {
      var d := DigitOf(s[i]);
      if d.None? { break; }
      NumberStep(s, i);
      WrapStep(NumberOf(s[..i]), d.value, wide);
      n := Wrap(n * 16 + d.value, wide);
      i := i + 1;
    }
    RunIs(s, i);
  }

  lemma NumberStep(s: seq<byte>, n: nat)
    requires n < |s| && AllDigits(s[..n]) && DigitOf(s[n]).Some?
    ensures AllDigits(s[..n + 1])
    ensures NumberOf(s[..n + 1]) == NumberOf(s[..n]) * 16 + DigitOf(s[n]).value
  {
    assert s[..n + 1] == s[..n] + [s[n]];
    assert s[..n + 1][..n] == s[..n];
  }

  lemma WrapStep(v: nat, d: nat, wide: bool)
    ensures Wrap(Wrap(v, wide) * 16 + d, wide) == Wrap(v * 16 + d, wide)
  {
    var x := Wrap(v, wide) * 16 + d;
    if wide {
      AddMultiple32(x, v / 0x1_0000_0000 * 16);
    } else {
      AddMultiple8(x, v / 0x100 * 16);
    }
  }

  lemma AddMultiple8(x: nat, k: nat)
    ensures (x + k * 0x100) % 0x100 == x % 0x100
  {
    assert x + k * 0x100 == (x / 0x100 + k) * 0x100 + x % 0x100;
  }

  lemma AddMultiple32(x: nat, k: nat)
    ensures (x + k * 0x1_0000_0000) % 0x1_0000_0000 == x % 0x1_0000_0000
  {
    assert x + k * 0x1_0000_0000 == (x / 0x1_0000_0000 + k) * 0x1_0000_0000 + x % 0x1_0000_0000;
  }

  lemma {:induction false} RunIs(s: seq<byte>, n: nat)
    requires n <= |s| && AllDigits(s[..n]) && (n < |s| ==> DigitOf(s[n]).None?)
    ensures DigitRun(s) == n
  {
    if n > 0 {
      assert s[..n][0] == s[0];
      assert s[1..][..n - 1] == s[..n][1..];
      RunIs(s[1..], n - 1);
    }
  }

  // ---------------------------------------------------------------- expanding

  /** One step of expandEscapes: the bytes put out and the characters used, or an exception. */
  datatype Token = Bad | Token(out: seq<byte>, n: nat)

  function Signed32(v: nat): int { if v < 0x8000_0000 then v else v - 0x1_0000_0000 }

  /** A backslash, a letter and width digits. */
  function NumberToken(s: seq<byte>, width: nat, encode: bool): Token {
    if |s| < 2 + width then Bad
    else
      match Atoi(s[2..2 + width], encode)
      case NoNumber => Bad
      case Number(v, used) =>
        if used != width then Bad
        else if !encode then Token([v % 0x100], 2 + width)
        else if EncodeChar(Signed32(v)) == [] then Bad
        else Token(EncodeChar(Signed32(v)), 2 + width)
  }

  function NextToken(s: seq<byte>): (t: Token)
    requires s != []
    ensures t.Token? ==> 1 <= t.n <= |s|
  {
    if s[0] != BACKSLASH then Token([s[0]], 1)
    else if |s| == 1 then Bad
    else if s[1] == BACKSLASH then Token([BACKSLASH], 2)
    else if s[1] == QUOTE then Token([QUOTE], 2)
    else if s[1] == 0x6E then Token([0x0A], 2)
    else if s[1] == 0x72 then Token([0x0D], 2)
    else if s[1] == 0x74 then Token([0x09], 2)
    else if s[1] == 0x75 then NumberToken(s, 4, true)
    else if s[1] == 0x55 then NumberToken(s, 8, true)
    else if s[1] == 0x78 then NumberToken(s, 2, false)
    else Bad
  }

  function Expand(s: seq<byte>): Option<seq<byte>>
    decreases |s|
  {
    if s == [] then Some([])
    else
      match NextToken(s)
      case Bad => None
      case Token(out, n) =>
        match Expand(s[n..])
        case None => None
        case Some(r) => Some(out + r)
  }

  /** What is left of an expansion, put behind what is done. */
  function Behind(d: seq<byte>, r: Option<seq<byte>>): Option<seq<byte>> {
    match r case None => None case Some(x) => Some(d + x)
  }

  /** expandEscapes; None stands for the exceptions. */
  method ExpandEscapes(s: seq<byte>) returns (r: Option<seq<byte>>)
    ensures r == Expand(s)
  {
    var d: seq<byte> := [];
    var c := 0;
    assert s[0..] == s;
    assert Expand(s).Some? ==> [] + Expand(s).value == Expand(s).value;
    while c < |s|
      invariant 0 <= c <= |s|
      invariant Expand(s) == Behind(d, Expand(s[c..]))
    {
      ghost var rest := s[c..];
      ghost var before, at := d, c;
      if s[c] != BACKSLASH {
        d := d + [s[c]];
        c := c + 1;
      } else {
        c := c + 1;
        if c == |s| { return None; }
        var e := s[c];
        c := c + 1;
        if e == BACKSLASH {
          d := d + [BACKSLASH];
        } else if e == QUOTE {
          d := d + [QUOTE];
        } else if e == 0x6E {
          d := d + [0x0A];
        } else if e == 0x72 {
          d := d + [0x0D];
        } else if e == 0x74 {
          d := d + [0x09];
        } else if e == 0x75 || e == 0x55 || e == 0x78 {
          var width := if e == 0x75 then 4 else if e == 0x55 then 8 else 2;
          var val := ReadDigits(s, c, width, e != 0x78);
          assert rest[2..] == s[c..];
          if val.None? { return None; }
          d := d + val.value;
          c := c + width;
        } else {
          return None;
        }
      }
      ExpandStep(before, rest);
      assert rest[c - at..] == s[c..];
    }
    assert s[c..] == [] && d + [] == d;
    return Some(d);
  }

  lemma ExpandStep(d: seq<byte>, s: seq<byte>)
    requires s != [] && NextToken(s).Token?
    ensures Behind(d, Expand(s)) == Behind(d + NextToken(s).out, Expand(s[NextToken(s).n..]))
  {
    var Token(out, n) := NextToken(s);
    match Expand(s[n..])
    case None =>
    case Some(r) => Associative(d, out, r);
  }

  /** The digits of a numeric escape, read at c. Reading past the end of the string meets its terminating
      zero, which is no digit. */
  method ReadDigits(s: seq<byte>, c: nat, width: nat, encode: bool) returns (r: Option<seq<byte>>)
    requires 2 <= c <= |s| && width > 0
    ensures var t := NumberToken(s[c - 2..], width, encode);
            r == if t.Bad? then None else Some(t.out)
  {
    if |s| - c < width { return None; }
    assert s[c - 2..][2..2 + width] == s[c..c + width];
    var v := AtoiN(s[c..c + width], encode);
    if v.NoNumber? || v.used != width { return None; }
    if !encode { return Some([v.value % 0x100]); }
    var e := EncodeChar(Signed32(v.value));
    if e == [] { return None; }
    return Some(e);
  }

  // ---------------------------------------------------------------- escaping

  predicate Printable(c: byte) { 0x20 <= c <= 0x7E }

  function HexDigit(d: nat): byte
    requires d < 16
  {
    if d < 10 then 0x30 + d else 0x61 + d - 10
  }

  /** The %0<width>x conversion of a number that fits. */
  function Hex(n: nat, width: nat): (s: seq<byte>)
    ensures |s| == width
  {
    if width == 0 then [] else Hex(n / 16, width - 1) + [HexDigit(n % 16)]
  }

  /** The escapes that both directions share. */
  function Short(c: int): (s: seq<byte>)
    ensures s != [] ==> |s| == 2 && s[0] == BACKSLASH
  {
    if c == BACKSLASH then [BACKSLASH, BACKSLASH]
    else if c == QUOTE then [BACKSLASH, QUOTE]
    else if c == 0x0A then [BACKSLASH, 0x6E]
    else if c == 0x0D then [BACKSLASH, 0x72]
    else if c == 0x09 then [BACKSLASH, 0x74]
    else []
  }

  function BytePiece(b: byte): seq<byte> {
    if Short(b) != [] then Short(b)
    else if Printable(b) then [b]
    else [BACKSLASH, 0x78] + Hex(b, 2)
  }

  function EscapedBytes(s: seq<byte>): seq<byte> {
    if s == [] then [] else BytePiece(s[0]) + EscapedBytes(s[1..])
  }

  /** escapeBytes. */
  method EscapeBytes(s: seq<byte>) returns (esc: seq<byte>)
    ensures esc == EscapedBytes(s)
  {
    esc := [];
    var p := 0;
    while p < |s|
      invariant 0 <= p <= |s|
      invariant EscapedBytes(s) == esc + EscapedBytes(s[p..])
    {
      var piece := EscapeByte(s[p]);
      Advance(s, p);
      Associative(esc, piece, EscapedBytes(s[p + 1..]));
      esc := esc + piece;
      p := p + 1;
    }
  }

  method EscapeByte(b: byte) returns (piece: seq<byte>)
    ensures piece == BytePiece(b)
  {
    if b == BACKSLASH {
      piece := [BACKSLASH, BACKSLASH];
    } else if b == QUOTE {
      piece := [BACKSLASH, QUOTE];
    } else if b == 0x0A {
      piece := [BACKSLASH, 0x6E];
    } else if b == 0x0D {
      piece := [BACKSLASH, 0x72];
    } else if b == 0x09 {
      piece := [BACKSLASH, 0x74];
    } else if Printable(b) {
      piece := [b];
    } else {
      piece := [BACKSLASH, 0x78] + Hex(b, 2);
    }
  }

  function Power(width: nat): nat { if width == 0 then 1 else 16 * Power(width - 1) }

  lemma {:induction false} HexNumber(n: nat, width: nat)
    requires n < Power(width)
    ensures AllDigits(Hex(n, width)) && NumberOf(Hex(n, width)) == n
  {
    if width > 0 {
      HexNumber(n / 16, width - 1);
      assert Hex(n, width)[..width - 1] == Hex(n / 16, width - 1);
    }
  }

  // ---------------------------------------------------------------- bytes come back

  lemma AtoiAll(s: seq<byte>, wide: bool)
    requires s != [] && AllDigits(s)
    ensures Atoi(s, wide) == Number(Wrap(NumberOf(s), wide), |s|)
  {
    assert s[..|s|] == s;
    RunIs(s, |s|);
    assert DigitOf(s[0]).Some?;
  }

  lemma DigitsToken(s: seq<byte>, n: nat, width: nat, encode: bool)
    requires 0 < width && 2 + width <= |s| && AllDigits(s[2..2 + width]) && NumberOf(s[2..2 + width]) == n
    requires if encode then CodepointValid(n) else n < 0x100
    ensures NumberToken(s, width, encode) == Token(if encode then EncodeChar(n) else [n], 2 + width)
  {
    AtoiAll(s[2..2 + width], encode);
    assert Wrap(n, encode) == n;
  }

  /** A numeric escape as it is written is read back. */
  lemma HexToken(s: seq<byte>, n: nat, width: nat, encode: bool)
    requires 0 < width && 2 + width <= |s| && s[2..2 + width] == Hex(n, width) && n < Power(width)
    requires if encode then CodepointValid(n) else n < 0x100
    ensures NumberToken(s, width, encode) == Token(if encode then EncodeChar(n) else [n], 2 + width)
  {
    HexNumber(n, width);
    DigitsToken(s, n, width, encode);
  }

  lemma Powers()
    ensures Power(2) == 0x100 && Power(4) == 0x1_0000 && Power(8) == 0x1_0000_0000
  {
    assert Power(2) == 16 * Power(1) && Power(4) == 16 * Power(3) && Power(6) == 16 * Power(5);
    assert Power(8) == 16 * Power(7);
  }

  lemma BytePieceToken(b: byte, rest: seq<byte>)
    ensures NextToken(BytePiece(b) + rest) == Token([b], |BytePiece(b)|)
  {
    if Short(b) == [] && !Printable(b) {
      Powers();
      HexToken(BytePiece(b) + rest, b, 2, false);
    }
  }

  /** Whatever escapeBytes wrote, expandEscapes restores, for every byte string. */
  lemma {:induction false} BytesRoundTrip(s: seq<byte>)
    ensures Expand(EscapedBytes(s)) == Some(s)
  {
    if s != [] {
      var piece, rest := BytePiece(s[0]), EscapedBytes(s[1..]);
      BytePieceToken(s[0], rest);
      assert (piece + rest)[|piece|..] == rest;
      BytesRoundTrip(s[1..]);
      assert [s[0]] + s[1..] == s;
    }
  }

  // ---------------------------------------------------------------- UTF-8 strings

  /** What escapeUTF8 writes for a code point. The printable test and the plain case look at the code
      point's low byte only. */
  function Piece(cp: nat): (s: seq<byte>)
    ensures |s| == 1 || (|s| > 1 && s[0] == BACKSLASH)
  {
    if Short(cp) != [] then Short(cp)
    else if cp >= 65536 then [BACKSLASH, 0x55] + Hex(cp, 8)
    else if !Printable(cp % 0x100) then [BACKSLASH, 0x75] + Hex(cp, 4)
    else [cp % 0x100]
  }

  /** The escapes of some code points with a text behind them. */
  function EscapedText(us: seq<nat>, tail: seq<byte>): seq<byte> {
    if us == [] then tail else Piece(us[0]) + EscapedText(us[1..], tail)
  }

  /** "<illegal UTF8 sequence>" */
  const ILLEGAL: seq<byte> :=
    [0x3C, 0x69, 0x6C, 0x6C, 0x65, 0x67, 0x61, 0x6C, 0x20, 0x55, 0x54, 0x46, 0x38, 0x20, 0x73, 0x65, 0x71,
     0x75, 0x65, 0x6E, 0x63, 0x65, 0x3E]

  function EscapedUtf8(s: seq<byte>): seq<byte> {
    if s == [] then []
    else
      match DecodeFirst(s)
      case Char(uc, n) => Piece(uc) + EscapedUtf8(s[n..])
      case _ => ILLEGAL
  }

  /** escapeUTF8. */
  method EscapeUTF8(s: seq<byte>) returns (esc: seq<byte>)
    ensures esc == EscapedUtf8(s)
  {
    esc := [];
    var p := 0;
    while p < |s|
      invariant 0 <= p <= |s|
      invariant EscapedUtf8(s) == esc + EscapedUtf8(s[p..])
    {
      assert s[p..][..|s| - p] == s[p..];
      var n, cp := Iterate(s[p..], |s| - p);
      if n < 0 {
        return esc + ILLEGAL;
      }
      var piece := EscapeCodepoint(cp);
      EscapedUtf8Step(s[p..], cp, n);
      assert s[p..][n..] == s[p + n..];
      Associative(esc, piece, EscapedUtf8(s[p + n..]));
      esc := esc + piece;
      p := p + n;
    }
  }

  lemma EscapedUtf8Step(s: seq<byte>, cp: nat, n: nat)
    requires DecodeFirst(s) == Char(cp, n)
    ensures n <= |s| && EscapedUtf8(s) == Piece(cp) + EscapedUtf8(s[n..])
  {
    EncodeOfDecode(s);
  }

  method EscapeCodepoint(cp: nat) returns (piece: seq<byte>)
    ensures piece == Piece(cp)
  {
    if cp == BACKSLASH {
      piece := [BACKSLASH, BACKSLASH];
    } else if cp == QUOTE {
      piece := [BACKSLASH, QUOTE];
    } else if cp == 0x0A {
      piece := [BACKSLASH, 0x6E];
    } else if cp == 0x0D {
      piece := [BACKSLASH, 0x72];
    } else if cp == 0x09 {
      piece := [BACKSLASH, 0x74];
    } else if cp >= 65536 {
      piece := [BACKSLASH, 0x55] + Hex(cp, 8);
    } else if !Printable(cp % 0x100) {
      piece := [BACKSLASH, 0x75] + Hex(cp, 4);
    } else {
      piece := [cp % 0x100];
    }
  }

  /** The code points written as the single byte of another character. */
  predicate Narrowed(cp: int) { 0x100 <= cp < 0x10000 && Printable(cp % 0x100) }

  predicate AnyNarrowed(us: seq<int>) { exists i :: 0 <= i < |us| && Narrowed(us[i]) }

  lemma PieceToken(cp: nat, rest: seq<byte>)
    requires CodepointValid(cp) && !Narrowed(cp)
    ensures NextToken(Piece(cp) + rest) == Token(EncodeChar(cp), |Piece(cp)|)
  {
    if Short(cp) == [] && cp >= 65536 {
      HexPieceToken(cp, 0x55, 8, rest);
    } else if Short(cp) == [] && !Printable(cp % 0x100) {
      HexPieceToken(cp, 0x75, 4, rest);
    }
  }

  lemma HexPieceToken(cp: nat, letter: byte, width: nat, rest: seq<byte>)
    requires CodepointValid(cp) && ((letter == 0x55 && width == 8) || (letter == 0x75 && width == 4 && cp < 0x10000))
    ensures NextToken([BACKSLASH, letter] + Hex(cp, width) + rest) == Token(EncodeChar(cp), 2 + width)
  {
    Powers();
    var s := [BACKSLASH, letter] + Hex(cp, width) + rest;
    assert s[2..2 + width] == Hex(cp, width);
    HexToken(s, cp, width, true);
  }

  /** As long as nothing is narrowed, each escape is read back where it was written. */
  lemma {:induction false} Aligned(us: seq<nat>, rest: seq<byte>)
    requires AllValid(us) && !AnyNarrowed(us)
    ensures Expand(EscapedText(us, rest)) == Behind(EncodeAll(us), Expand(rest))
  {
    if us == [] {
      assert Expand(rest).Some? ==> [] + Expand(rest).value == Expand(rest).value;
    } else {
      var piece, more := Piece(us[0]), EscapedText(us[1..], rest);
      assert !AnyNarrowed(us[1..]) by {
        assert forall i :: 0 <= i < |us[1..]| ==> us[1..][i] == us[i + 1];
      }
      PieceToken(us[0], more);
      Aligned(us[1..], rest);
      assert (piece + more)[|piece|..] == more;
      ExpandStep([], piece + more);
      BehindTwice(EncodeChar(us[0]), EncodeAll(us[1..]), Expand(rest));
    }
  }

  lemma BehindTwice(a: seq<byte>, b: seq<byte>, r: Option<seq<byte>>)
    ensures Behind(a, Behind(b, r)) == Behind(a + b, r)
  {
    match r
    case None =>
    case Some(x) => Associative(a, b, x);
  }

  // ---------------------------------------------------------------- when a UTF-8 string comes back

  /** What escapeUTF8 does with the rest of a string that it cannot read. */
  function Marker(bad: seq<byte>): seq<byte> { if bad == [] then [] else ILLEGAL }

  /** s is its accepted front and a rest that cannot be read; only the front is escaped. */
  predicate IsFront(s: seq<byte>, us: seq<nat>, bad: seq<byte>) {
    && s == EncodeAll(us) + bad
    && EscapedUtf8(s) == EscapedText(us, Marker(bad))
    && (if bad == [] then DecodeAll(s) == Text(us) else bad[0] >= 0x80 && DecodeAll(s).Invalid?)
  }

  lemma {:induction false} Front(s: seq<byte>) returns (us: seq<nat>, bad: seq<byte>)
    ensures AllValid(us) && IsFront(s, us, bad)
    decreases |s|
  {
    if s == [] {
      us, bad := [], [];
    } else if DecodeFirst(s).Char? {
      EncodeOfDecode(s);
      var vs;
      vs, bad := Front(s[DecodeFirst(s).n..]);
      us := [DecodeFirst(s).uc] + vs;
      FrontStep(s, us, bad);
    } else {
      us, bad := [], s;
      if s[0] < 0x80 { Ascii(s); }
    }
  }

  lemma Ascii(s: seq<byte>)
    requires s != [] && s[0] < 0x80
    ensures DecodeFirst(s) == Char(s[0], 1)
  {
    assert s[..1] == [s[0]];
  }

  lemma FrontStep(s: seq<byte>, us: seq<nat>, bad: seq<byte>)
    requires DecodeFirst(s).Char? && us != [] && us[0] == DecodeFirst(s).uc
    requires IsFront(s[DecodeFirst(s).n..], us[1..], bad)
    ensures IsFront(s, us, bad)
  {
    EncodeOfDecode(s);
    FrontBytes(s, DecodeFirst(s).n, us, bad);
    Cons(us);
  }

  lemma FrontBytes(s: seq<byte>, n: nat, us: seq<nat>, bad: seq<byte>)
    requires us != [] && n <= |s| && s[..n] == EncodeChar(us[0]) && s[n..] == EncodeAll(us[1..]) + bad
    ensures s == EncodeAll(us) + bad
  {
    assert s == s[..n] + s[n..];
  }

  lemma EncodedBytes(cp: nat)
    requires CodepointValid(cp)
    ensures 1 <= |EncodeChar(cp)| <= 4
    ensures cp != BACKSLASH ==> BACKSLASH !in EncodeChar(cp)
    ensures Narrowed(cp) ==> |EncodeChar(cp)| >= 2 && EncodeChar(cp)[0] >= 0x80
  {
  }

  /** Text without a backslash stands for code points one by one. */
  lemma {:induction false} PlainRun(us: seq<nat>, tail: seq<byte>, k: nat)
    requires AllValid(us) && |EscapedText(us, tail)| >= k && (tail == [] || tail[0] == 0x3C)
    requires forall i :: 0 <= i < k ==> EscapedText(us, tail)[i] != BACKSLASH && EscapedText(us, tail)[i] != 0x3C
    ensures k <= |us| && EscapedText(us, tail)[k..] == EscapedText(us[k..], tail)
    ensures k <= |EncodeAll(us[..k])| && BACKSLASH !in EncodeAll(us[..k])
  {
    if k == 0 {
      assert us[..0] == [] && us[0..] == us;
    } else {
      var t := EscapedText(us, tail);
      assert t[0] != BACKSLASH;
      assert us != [];
      var more := EscapedText(us[1..], tail);
      assert t == Piece(us[0]) + more;
      DropHead(t, Piece(us[0]), more, k);
      PlainRun(us[1..], tail, k - 1);
      assert us[k..] == us[1..][k - 1..];
      TakeHead(us, k);
    }
  }

  lemma DropHead(t: seq<byte>, piece: seq<byte>, more: seq<byte>, k: nat)
    requires t == piece + more && |piece| == 1 && 0 < k <= |t|
    ensures t[k..] == more[k - 1..] && forall i :: 0 <= i < k - 1 ==> more[i] == t[i + 1]
  {
  }

  lemma TakeHead(us: seq<nat>, k: nat)
    requires 0 < k <= |us| && CodepointValid(us[0])
    ensures EncodeAll(us[..k]) == EncodeChar(us[0]) + EncodeAll(us[1..][..k - 1])
    ensures |EncodeAll(us[..k])| == |EncodeChar(us[0])| + |EncodeAll(us[1..][..k - 1])|
    ensures |EncodeChar(us[0])| >= 1
    ensures us[0] != BACKSLASH && BACKSLASH !in EncodeAll(us[1..][..k - 1]) ==> BACKSLASH !in EncodeAll(us[..k])
  {
    EncodedBytes(us[0]);
    assert us[..k][1..] == us[1..][..k - 1];
  }

  /** An escape that starts with a backslash and is read uses neither a second backslash nor the start of
      the marker, unless it stands for a backslash. */
  lemma EscapeRange(t: seq<byte>)
    requires t != [] && t[0] == BACKSLASH && NextToken(t).Token? && NextToken(t).out != [BACKSLASH]
    ensures var n := NextToken(t).n;
            2 <= n && |NextToken(t).out| <= n && forall i :: 1 <= i < n ==> t[i] != BACKSLASH && t[i] != 0x3C
  {
    if t[1] == 0x75 {
      NumberRange(t, 4, true);
    } else if t[1] == 0x55 {
      NumberRange(t, 8, true);
    } else if t[1] == 0x78 {
      NumberRange(t, 2, false);
    }
  }

  lemma NumberRange(t: seq<byte>, width: nat, encode: bool)
    requires width >= 2 && NumberToken(t, width, encode).Token?
    ensures var k := NumberToken(t, width, encode);
            k.n == 2 + width && |k.out| <= 4 && forall i :: 2 <= i < k.n ==> t[i] != BACKSLASH && t[i] != 0x3C
  {
    var d := t[2..2 + width];
    forall i | 2 <= i < 2 + width
      ensures t[i] != BACKSLASH && t[i] != 0x3C
    {
      assert t[i] == d[i - 2];
      ScannedDigits(d, encode, i - 2);
    }
  }

  lemma ScannedDigits(d: seq<byte>, wide: bool, i: nat)
    requires i < |d| && Atoi(d, wide).Number? && Atoi(d, wide).used == |d|
    ensures d[i] == MINUS || DigitOf(d[i]).Some?
  {
    if d[0] == MINUS {
      if i > 0 {
        var b := d[1..];
        assert b[..DigitRun(b)] == b && b[i - 1] == d[i];
      }
    } else {
      assert d[..DigitRun(d)] == d;
    }
  }

  /** The code points that the first step of expandEscapes uses up: it takes at least as many of their
      bytes as it puts out, and strictly more when the first of them was narrowed. */
  lemma TokenUses(vs: seq<nat>, tail: seq<byte>) returns (m: nat)
    requires vs != [] && AllValid(vs) && (tail == [] || tail[0] == 0x3C)
    requires NextToken(EscapedText(vs, tail)).Token? && NextToken(EscapedText(vs, tail)).out != [BACKSLASH]
    ensures 1 <= m <= |vs| && BACKSLASH !in EncodeAll(vs[..m])
    ensures var k := NextToken(EscapedText(vs, tail));
            && EscapedText(vs, tail)[k.n..] == EscapedText(vs[m..], tail)
            && |k.out| <= |EncodeAll(vs[..m])| - (if Narrowed(vs[0]) then 1 else 0)
  {
    var more := EscapedText(vs[1..], tail);
    var t := Piece(vs[0]) + more;
    TakeHead(vs, 1);
    EncodedBytes(vs[0]);
    assert t[|Piece(vs[0])|..] == more;
    if !Narrowed(vs[0]) {
      PieceToken(vs[0], more);
      m := 1;
    } else if vs[0] % 0x100 != BACKSLASH {
      m := 1;
    } else {
      m := FalseEscape(vs, tail);
    }
  }

  /** A backslash that comes from a narrowed code point makes an escape of the code points behind it. */
  lemma FalseEscape(vs: seq<nat>, tail: seq<byte>) returns (m: nat)
    requires vs != [] && AllValid(vs) && (tail == [] || tail[0] == 0x3C)
    requires Narrowed(vs[0]) && Piece(vs[0]) == [BACKSLASH]
    requires NextToken(EscapedText(vs, tail)).Token? && NextToken(EscapedText(vs, tail)).out != [BACKSLASH]
    ensures 1 <= m <= |vs| && BACKSLASH !in EncodeAll(vs[..m])
    ensures var k := NextToken(EscapedText(vs, tail));
            EscapedText(vs, tail)[k.n..] == EscapedText(vs[m..], tail) && |k.out| < |EncodeAll(vs[..m])|
  {
    var t := EscapedText(vs, tail);
    EscapeRange(t);
    m := NextToken(t).n;
    DropHead(t, Piece(vs[0]), EscapedText(vs[1..], tail), m);
    PlainRun(vs[1..], tail, m - 1);
    assert vs[m..] == vs[1..][m - 1..];
    TakeHead(vs, m);
    EncodedBytes(vs[0]);
  }

  /** Bytes that expandEscapes owes stay owed: what it puts out from some escaped code points is never the
      bytes q, which hold no backslash, followed by those code points. */
  lemma {:induction false} Lag(vs: seq<nat>, q: seq<byte>, tail: seq<byte>, bad: seq<byte>)
    requires AllValid(vs) && IsTail(tail, bad) && BACKSLASH !in q
    requires q != [] || (vs != [] && Narrowed(vs[0]))
    ensures Expand(EscapedText(vs, tail)) != Some(q + (EncodeAll(vs) + bad))
    decreases |vs|
  {
    if vs == [] {
      PlainExpands(tail);
      TailDiffers(q, tail, bad);
    } else {
      var t := EscapedText(vs, tail);
      var k := NextToken(t);
      if k.Token? && Expand(t[k.n..]).Some? {
        var r := Expand(t[k.n..]).value;
        if k.out == [BACKSLASH] {
          FirstByte(vs, q, bad);
          assert (k.out + r)[0] == BACKSLASH;
        } else {
          var m := TokenUses(vs, tail);
          var owed := (q + EncodeAll(vs[..m]))[|k.out|..];
          Lag(vs[m..], owed, tail, bad);
          OwedBytes(vs, q, bad, m, k.out, r);
        }
      }
    }
  }

  lemma FirstByte(vs: seq<nat>, q: seq<byte>, bad: seq<byte>)
    requires AllValid(vs) && BACKSLASH !in q && vs != [] && (q != [] || Narrowed(vs[0]))
    ensures (q + (EncodeAll(vs) + bad))[0] != BACKSLASH
  {
    EncodedBytes(vs[0]);
    assert (EncodeAll(vs) + bad)[0] == EncodeChar(vs[0])[0];
  }

  lemma OwedBytes(vs: seq<nat>, q: seq<byte>, bad: seq<byte>, m: nat, out: seq<byte>, r: seq<byte>)
    requires m <= |vs| && |out| <= |q + EncodeAll(vs[..m])|
    ensures out + r == q + (EncodeAll(vs) + bad) ==>
              r == (q + EncodeAll(vs[..m]))[|out|..] + (EncodeAll(vs[m..]) + bad)
  {
    SplitBytes(vs, m, bad);
    Associative(q, EncodeAll(vs[..m]), EncodeAll(vs[m..]) + bad);
    Rest(q + EncodeAll(vs[..m]), EncodeAll(vs[m..]) + bad, out, r);
  }

  lemma Rest(e: seq<byte>, f: seq<byte>, out: seq<byte>, r: seq<byte>)
    requires |out| <= |e|
    ensures out + r == e + f ==> r == e[|out|..] + f
  {
    assert r == (out + r)[|out|..];
  }

  /** Text that expands to itself behind the escapes of the accepted front, in the place of bytes that
      could not be read. */
  predicate IsTail(tail: seq<byte>, bad: seq<byte>) {
    if bad == [] then tail == []
    else bad[0] >= 0x80 && tail != [] && tail[0] == 0x3C && BACKSLASH !in tail && forall b :: b in tail ==> b < 0x80
  }

  lemma TailDiffers(q: seq<byte>, tail: seq<byte>, bad: seq<byte>)
    requires IsTail(tail, bad) && (q != [] || bad != [])
    ensures tail != q + ([] + bad)
  {
    assert [] + bad == bad;
    assert |q + bad| > 0;
    if bad != [] {
      assert (q + bad)[|q|] == bad[0];
      assert bad[0] in q + bad && bad[0] !in tail;
    }
  }

  lemma {:induction false} PlainExpands(s: seq<byte>)
    requires BACKSLASH !in s
    ensures Expand(s) == Some(s)
  {
    if s != [] {
      PlainExpands(s[1..]);
      assert [s[0]] + s[1..] == s;
    }
  }

  lemma MarkerIsTail(bad: seq<byte>)
    requires bad == [] || bad[0] >= 0x80
    ensures IsTail(Marker(bad), bad)
  {
    assert forall i :: 0 <= i < |ILLEGAL| ==> 0x20 <= ILLEGAL[i] < 0x80 && ILLEGAL[i] != BACKSLASH;
  }

  /** expandEscapes reverts escapeUTF8 on exactly the accepted strings in which no code point above 0xFF
      has a printable low byte. */
  lemma Utf8RoundTrip(s: seq<byte>)
    ensures Expand(EscapedUtf8(s)) == Some(s) <==> DecodeAll(s).Text? && !AnyNarrowed(DecodeAll(s).us)
  {
    var us, bad := Front(s);
    MarkerIsTail(bad);
    if !AnyNarrowed(us) {
      RevertsFront(us, Marker(bad), bad);
    } else {
      LosesNarrowed(us, Marker(bad), bad);
    }
  }

  lemma RevertsFront(us: seq<nat>, tail: seq<byte>, bad: seq<byte>)
    requires AllValid(us) && !AnyNarrowed(us) && IsTail(tail, bad)
    ensures Expand(EscapedText(us, tail)) == Some(EncodeAll(us) + bad) <==> bad == []
  {
    Aligned(us, tail);
    PlainExpands(tail);
    if bad != [] {
      TailDiffers([], tail, bad);
      assert [] + ([] + bad) == bad;
      SameTail(EncodeAll(us), bad, tail);
    }
  }

  lemma SameTail(a: seq<byte>, b: seq<byte>, c: seq<byte>)
    ensures a + b == a + c <==> b == c
  {
    assert (a + b)[|a|..] == b && (a + c)[|a|..] == c;
  }

  lemma LosesNarrowed(us: seq<nat>, tail: seq<byte>, bad: seq<byte>)
    requires AllValid(us) && AnyNarrowed(us) && IsTail(tail, bad)
    ensures Expand(EscapedText(us, tail)) != Some(EncodeAll(us) + bad)
  {
    var i := FirstNarrowed(us);
    Split(us, i, tail);
    SplitBytes(us, i, bad);
    LosesBehind(us[..i], us[i..], tail, bad);
  }

  lemma SplitBytes(us: seq<nat>, i: nat, bad: seq<byte>)
    requires i <= |us|
    ensures EncodeAll(us) + bad == EncodeAll(us[..i]) + (EncodeAll(us[i..]) + bad)
  {
    SplitAt(us, i);
    ConcatBytes(us[..i], us[i..], bad);
  }

  lemma ConcatBytes(a: seq<int>, b: seq<int>, bad: seq<byte>)
    ensures EncodeAll(a + b) + bad == EncodeAll(a) + (EncodeAll(b) + bad)
  {
    EncodeAllConcat(a, b);
    Associative(EncodeAll(a), EncodeAll(b), bad);
  }

  lemma LosesBehind(us: seq<nat>, vs: seq<nat>, tail: seq<byte>, bad: seq<byte>)
    requires AllValid(us) && !AnyNarrowed(us) && AllValid(vs) && IsTail(tail, bad)
    requires vs != [] && Narrowed(vs[0])
    ensures Expand(EscapedText(us, EscapedText(vs, tail))) != Some(EncodeAll(us) + (EncodeAll(vs) + bad))
  {
    var t, b := EscapedText(vs, tail), EncodeAll(vs) + bad;
    Aligned(us, t);
    Lag(vs, [], tail, bad);
    assert [] + b == b;
    if Expand(t).Some? {
      SameTail(EncodeAll(us), Expand(t).value, b);
    }
  }

  lemma {:induction false} Split(us: seq<nat>, i: nat, tail: seq<byte>)
    requires i <= |us|
    ensures EscapedText(us, tail) == EscapedText(us[..i], EscapedText(us[i..], tail))
  {
    if i == 0 {
      assert us[0..] == us;
    } else {
      Split(us[1..], i - 1, tail);
      assert us[..i][1..] == us[1..][..i - 1] && us[1..][i - 1..] == us[i..];
    }
  }

  lemma {:induction false} FirstNarrowed(us: seq<nat>) returns (i: nat)
    requires AnyNarrowed(us)
    ensures i < |us| && Narrowed(us[i]) && !AnyNarrowed(us[..i])
  {
    if Narrowed(us[0]) {
      i := 0;
    } else {
      var k :| 0 <= k < |us| && Narrowed(us[k]);
      assert us[1..][k - 1] == us[k];
      var j := FirstNarrowed(us[1..]);
      i := j + 1;
      assert forall n :: 0 < n < i ==> us[n] == us[1..][..j][n - 1];
    }
  }

  /** U+0141 alone is written as the letter A, and comes back as that letter. */
  lemma NarrowedExample()
    ensures EncodeAll([0x141]) == [0xC5, 0x81] && DecodeAll([0xC5, 0x81]) == Text([0x141])
    ensures EscapedUtf8([0xC5, 0x81]) == [0x41] && Expand([0x41]) == Some([0x41])
  {
    assert EncodeAll([0x141]) == [0xC5, 0x81];
    DecodeAllOfEncodeAll([0x141]);
    var us, bad := Front([0xC5, 0x81]);
    assert Piece(0x141) == [0x41];
    PlainExpands([0x41]);
  }

  // ---------------------------------------------------------------- what each escape stands for

  /** "0123456789abcdef" and "0123456789ABCDEF" */
  const LOWER: seq<byte> :=
    [0x30, 0x31, 0x32, 0x33, 0x34, 0x35, 0x36, 0x37, 0x38, 0x39, 0x61, 0x62, 0x63, 0x64, 0x65, 0x66]
  const UPPER: seq<byte> :=
    [0x30, 0x31, 0x32, 0x33, 0x34, 0x35, 0x36, 0x37, 0x38, 0x39, 0x41, 0x42, 0x43, 0x44, 0x45, 0x46]

  /** A character is a digit of value d exactly if it stands at d in one of the two tables; the escapers write
      the lower-case one. */
  lemma DigitTables(c: byte, d: nat)
    requires d < 16
    ensures DigitOf(c) == Some(d) <==> c == LOWER[d] || c == UPPER[d]
    ensures HexDigit(d) == LOWER[d]
  {
  }

  lemma {:induction false} PlaceValue(s: seq<byte>, c: byte)
    requires AllDigits(s) && DigitOf(c).Some?
    ensures AllDigits(s + [c]) && NumberOf(s + [c]) == 16 * NumberOf(s) + DigitOf(c).value
  {
    assert (s + [c])[..|s|] == s;
  }

  /** An escape of two digits is the byte they spell. */
  lemma ByteEscape(a: byte, b: byte, rest: seq<byte>)
    requires DigitOf(a).Some? && DigitOf(b).Some?
    ensures NextToken([BACKSLASH, 0x78, a, b] + rest) == Token([16 * DigitOf(a).value + DigitOf(b).value], 4)
  {
    var s := [BACKSLASH, 0x78, a, b] + rest;
    PlaceValue([], a);
    PlaceValue([a], b);
    assert [] + [a] == [a] && [a] + [b] == [a, b] && s[2..4] == [a, b];
    DigitsToken(s, 16 * DigitOf(a).value + DigitOf(b).value, 2, false);
  }

  /** An escape of four or eight digits is the encoding of the number they spell; one that is no code point is
      an error. */
  lemma CodepointEscape(digits: seq<byte>, rest: seq<byte>)
    requires AllDigits(digits) && (|digits| == 4 || |digits| == 8)
    ensures var e := EncodeChar(Signed32(Wrap(NumberOf(digits), true)));
            NextToken([BACKSLASH, if |digits| == 4 then 0x75 else 0x55] + digits + rest)
            == if e == [] then Bad else Token(e, 2 + |digits|)
  {
    var s := [BACKSLASH, if |digits| == 4 then 0x75 else 0x55] + digits + rest;
    assert s[2..2 + |digits|] == digits;
    AtoiAll(digits, true);
  }

  /** A minus sign in the place of the first digit negates the byte. */
  lemma NegativeEscape(a: byte, rest: seq<byte>)
    requires DigitOf(a).Some?
    ensures NextToken([BACKSLASH, 0x78, MINUS, a] + rest) == Token([(0x100 - DigitOf(a).value) % 0x100], 4)
  {
    var s := [BACKSLASH, 0x78, MINUS, a] + rest;
    assert s[2..4] == [MINUS, a];
    AtoiNegative(a);
  }

  lemma AtoiNegative(a: byte)
    requires DigitOf(a).Some?
    ensures Atoi([MINUS, a], false) == Number((0x100 - DigitOf(a).value) % 0x100, 2)
  {
    var s, d := [MINUS, a], DigitOf(a).value;
    OneDigit(a);
    assert s[1..] == [a] && [a][..1] == [a];
    assert Wrap(d, false) == d;
    assert Negated(d, false) == (0x100 - d) % 0x100;
  }

  lemma OneDigit(a: byte)
    requires DigitOf(a).Some?
    ensures AllDigits([a]) && NumberOf([a]) == DigitOf(a).value < 0x10 && DigitRun([a]) == 1
  {
    var s: seq<byte> := [a];
    assert NumberOf(s) == NumberOf(s[..0]) * 16 + DigitOf(a).value && s[..0] == [];
    assert DigitRun(s[1..]) == 0;
  }

  /** The escapes of one letter, and the letters that are no escape. */
  lemma LetterEscapes(c: byte, rest: seq<byte>)
    ensures var t := NextToken([BACKSLASH, c] + rest);
            && (c == 0x5C ==> t == Token([0x5C], 2)) && (c == 0x22 ==> t == Token([0x22], 2))
            && (c == 0x6E ==> t == Token([0x0A], 2)) && (c == 0x72 ==> t == Token([0x0D], 2))
            && (c == 0x74 ==> t == Token([0x09], 2))
            && (c !in [0x5C, 0x22, 0x6E, 0x72, 0x74, 0x75, 0x55, 0x78] ==> t.Bad?)
  {
  }

  // ---------------------------------------------------------------- the case of digits

  function ToUpper(c: byte): byte { if 0x61 <= c <= 0x7A then c - 0x20 else c }

  function AllUpper(s: seq<byte>): (r: seq<byte>)
    ensures |r| == |s| && forall i :: 0 <= i < |s| ==> r[i] == ToUpper(s[i])
  {
    if s == [] then [] else AllUpper(s[..|s| - 1]) + [ToUpper(s[|s| - 1])]
  }

  lemma {:induction false} UpperDigits(s: seq<byte>)
    requires AllDigits(s)
    ensures AllDigits(AllUpper(s)) && NumberOf(AllUpper(s)) == NumberOf(s)
  {
    if s != [] {
      var h, c := s[..|s| - 1], s[|s| - 1];
      UpperDigits(h);
      PlaceValue(AllUpper(h), ToUpper(c));
    }
  }

  /** A numeric escape stands for the same with its digits in upper case, errors included. */
  lemma UpperToken(letter: byte, digits: seq<byte>, rest: seq<byte>)
    requires letter == 0x75 || letter == 0x55 || letter == 0x78
    requires |digits| == (if letter == 0x75 then 4 else if letter == 0x55 then 8 else 2) && AllDigits(digits)
    ensures NextToken([BACKSLASH, letter] + AllUpper(digits) + rest) == NextToken([BACKSLASH, letter] + digits + rest)
  {
    UpperDigits(digits);
    if letter == 0x78 {
      UpperByte(digits[0], digits[1], rest);
      assert digits == [digits[0], digits[1]];
      assert AllUpper(digits) == [ToUpper(digits[0]), ToUpper(digits[1])];
      PrefixOfTwo(letter, digits, rest);
      PrefixOfTwo(letter, AllUpper(digits), rest);
    } else {
      CodepointEscape(digits, rest);
      CodepointEscape(AllUpper(digits), rest);
    }
  }

  lemma PrefixOfTwo(letter: byte, ds: seq<byte>, rest: seq<byte>)
    requires |ds| == 2
    ensures [BACKSLASH, letter] + ds + rest == [BACKSLASH, letter, ds[0], ds[1]] + rest
  {
  }

  lemma UpperByte(a: byte, b: byte, rest: seq<byte>)
    requires DigitOf(a).Some? && DigitOf(b).Some?
    ensures NextToken([BACKSLASH, 0x78, ToUpper(a), ToUpper(b)] + rest) == NextToken([BACKSLASH, 0x78, a, b] + rest)
  {
    ByteEscape(a, b, rest);
    ByteEscape(ToUpper(a), ToUpper(b), rest);
  }

  /** So an expansion does not change with the case of the digits of an escape in it. */
  lemma UpperExpand(letter: byte, digits: seq<byte>, rest: seq<byte>)
    requires letter == 0x75 || letter == 0x55 || letter == 0x78
    requires |digits| == (if letter == 0x75 then 4 else if letter == 0x55 then 8 else 2) && AllDigits(digits)
    ensures Expand([BACKSLASH, letter] + AllUpper(digits) + rest) == Expand([BACKSLASH, letter] + digits + rest)
  {
    UpperToken(letter, digits, rest);
    var s, t := [BACKSLASH, letter] + digits + rest, [BACKSLASH, letter] + AllUpper(digits) + rest;
    var n := 2 + |digits|;
    assert s[n..] == rest && t[n..] == rest;
  }

  function UpperBytePiece(b: byte): seq<byte> {
    if Short(b) != [] || Printable(b) then BytePiece(b) else [BACKSLASH, 0x78] + AllUpper(Hex(b, 2))
  }

  function UpperEscapedBytes(s: seq<byte>): seq<byte> {
    if s == [] then [] else UpperBytePiece(s[0]) + UpperEscapedBytes(s[1..])
  }

  /** Bytes escaped with upper-case digits come back as well. */
  lemma {:induction false} UpperBytesRoundTrip(s: seq<byte>)
    ensures Expand(UpperEscapedBytes(s)) == Some(s)
  {
    if s != [] {
      var piece, rest := UpperBytePiece(s[0]), UpperEscapedBytes(s[1..]);
      UpperPieceToken(s[0], rest);
      assert (piece + rest)[|piece|..] == rest;
      UpperBytesRoundTrip(s[1..]);
      assert [s[0]] + s[1..] == s;
    }
  }

  lemma UpperPieceToken(b: byte, rest: seq<byte>)
    ensures NextToken(UpperBytePiece(b) + rest) == Token([b], |UpperBytePiece(b)|)
  {
    BytePieceToken(b, rest);
    if Short(b) == [] && !Printable(b) {
      Powers();
      HexNumber(b, 2);
      UpperToken(0x78, Hex(b, 2), rest);
    }
  }

  // ---------------------------------------------------------------- what is escaped

  /** Exactly the printable ASCII characters other than quote and backslash are written as they are, and
      nothing but printable ASCII is written. */
  lemma EscapedIsPrintable(b: byte)
    ensures BytePiece(b) == [b] <==> 0x20 <= b <= 0x7E && b != 0x22 && b != 0x5C
    ensures forall i :: 0 <= i < |BytePiece(b)| ==> 0x20 <= BytePiece(b)[i] <= 0x7E
  {
    if Short(b) == [] && !Printable(b) { HexPrintable(b, 2); }
  }

  lemma {:induction false} HexPrintable(n: nat, width: nat)
    ensures forall i :: 0 <= i < width ==> 0x30 <= Hex(n, width)[i] <= 0x66
  {
    if width > 0 { HexPrintable(n / 16, width - 1); }
  }

  /** The same for code points, of which all in ASCII are treated as bytes are. */
  lemma PieceIsPrintable(cp: nat)
    ensures Piece(cp) == [cp % 0x100] <==> cp < 0x10000 && 0x20 <= cp % 0x100 <= 0x7E && cp != 0x22 && cp != 0x5C
    ensures forall i :: 0 <= i < |Piece(cp)| ==> 0x20 <= Piece(cp)[i] <= 0x7E
    ensures |Piece(cp)| == if Short(cp) != [] then 2 else if cp >= 0x10000 then 10
                           else if 0x20 <= cp % 0x100 <= 0x7E then 1 else 6
  {
    if Short(cp) == [] && cp >= 65536 {
      HexPrintable(cp, 8);
    } else if Short(cp) == [] && !Printable(cp % 0x100) {
      HexPrintable(cp, 4);
    }
  }
}
