/** The UTF-8 decoder and encoder of utf8proc (utf8proc_iterate, utf8proc_codepoint_valid,
    utf8proc_encode_char). Masks and shifts of non-negative values are written as `%` and `/`. */
module Utf8 {
  import opened Sequences

  type byte = x: int | 0 <= x < 256

  /** What one call of the decoder reports: nothing to read, a malformed sequence,
      or a code point and the number of bytes it took. */
  datatype Decoded = End | Malformed | Char(uc: int, n: nat)

  const ERROR_INVALIDUTF8: int := -3

  predicate CodepointValid(uc: int) {
    && 0 <= uc < 0x110000
    && uc % 0x10000 < 0xFFFE
    && !(0xD800 <= uc < 0xE000)
    && !(0xFDD0 <= uc < 0xFDF0)
  }

  /** Length announced by a lead byte, 0 for a byte that cannot start a sequence. */
  function Utf8Class(b: byte): nat {
    if b < 0x80 then 1 else if b < 0xC0 then 0 else if b < 0xE0 then 2
    else if b < 0xF0 then 3 else if b < 0xF8 then 4 else 0
  }

  /** The two bits masked by 0xC0 are 10. */
  predicate Continuation(b: byte) { 0x80 <= b < 0xC0 }

  predicate Continued(s: seq<byte>, n: nat)
    requires n <= |s|
  {
    (n > 1 ==> Continuation(s[1])) && (n > 2 ==> Continuation(s[2])) && (n > 3 ==> Continuation(s[3]))
  }

  /** The low bits of a byte, below a power of two. */
  function Low(b: byte, bound: nat): (r: nat)
    requires bound > 0
  {
    b % bound
  }

  /** The bytes written for a code point; U+FFFF and U+FFFE give the bare marker bytes 0xFF and 0xFE,
      and a value outside the code space gives nothing. */
  function EncodeChar(uc: int): seq<byte> {
    if uc < 0 then []
    else if uc < 0x80 then [uc]
    else if uc < 0x800 then [0xC0 + uc / 64, 0x80 + uc % 64]
    else if uc == 0xFFFF then [0xFF]
    else if uc == 0xFFFE then [0xFE]
    else if uc < 0x10000 then [0xE0 + uc / 4096, 0x80 + uc / 64 % 64, 0x80 + uc % 64]
    else if uc < 0x110000 then
      [0xF0 + uc / 262144, 0x80 + uc / 4096 % 64, 0x80 + uc / 64 % 64, 0x80 + uc % 64]
    else []
  }

  /** What a byte says beyond its fixed high bits. */
  function Above(b: byte, fixed: int): int {
    var x: int := b;
    x - fixed
  }

  /** The number spelled by a lead byte and its continuation bytes. */
  function Payload(s: seq<byte>): int
    requires 1 <= |s| <= 4
  {
    if |s| == 1 then s[0]
    else if |s| == 2 then Above(s[0], 0xC0) * 64 + Above(s[1], 0x80)
    else if |s| == 3 then Above(s[0], 0xE0) * 4096 + Above(s[1], 0x80) * 64 + Above(s[2], 0x80)
    else Above(s[0], 0xF0) * 262144 + Above(s[1], 0x80) * 4096 + Above(s[2], 0x80) * 64 + Above(s[3], 0x80)
  }

  /** The smallest code point that needs n bytes. */
  function Shortest(n: nat): int {
    if n == 1 then 0 else if n == 2 then 0x80 else if n == 3 then 0x800 else 0x10000
  }

  /** The first code point of a byte string of known length. */
  function DecodeFirst(s: seq<byte>): Decoded {
    if s == [] then End
    else
      var n := Utf8Class(s[0]);
      if n == 0 || n > |s| || !Continued(s, n) then Malformed
      else
        var uc := Payload(s[..n]);
        if uc >= Shortest(n) && CodepointValid(uc) then Char(uc, n) else Malformed
  }

  /** Where a terminated string ends. */
  ghost function IndexOfZero(s: seq<byte>): (i: nat)
    requires 0 in s
    ensures i < |s| && s[i] == 0 && 0 !in s[..i]
  {
    if s[0] == 0 then 0 else 1 + IndexOfZero(s[1..])
  }

  /** The bytes before the terminator. */
  ghost function Terminated(str: seq<byte>): seq<byte>
    requires 0 in str
  {
    str[..IndexOfZero(str)]
  }

  /** utf8proc_iterate. A negative strlen means that str is terminated by a zero byte; no byte after
      the terminator is looked at. */
  method Iterate(str: seq<byte>, strlen: int) returns (result: int, dst: int)
    requires strlen <= |str|
    requires strlen < 0 ==> 0 in str
    ensures var d := DecodeFirst(if strlen < 0 then str else str[..strlen]);
            match d
            case End => result == 0 && dst == -1
            case Malformed => result == ERROR_INVALIDUTF8 && dst == -1
            case Char(uc, n) => result == n && dst == uc
  {
    dst := -1;
    if strlen == 0 { return 0, -1; }
    ghost var s := if strlen < 0 then str else str[..strlen];
    var length := Utf8Class(str[0]);
    if length == 0 { return ERROR_INVALIDUTF8, -1; }
    if strlen >= 0 && length > strlen { return ERROR_INVALIDUTF8, -1; }
    ghost var terminator := if strlen < 0 then IndexOfZero(str) else strlen;
    var i := 1;
    while i < length
      invariant 1 <= i <= length
      invariant length > 1 ==> i <= terminator
      invariant forall k :: 1 <= k < i ==> Continuation(str[k])
    {
      if !Continuation(str[i]) {
        assert i < |s| ==> !Continuation(s[i]);
        return ERROR_INVALIDUTF8, -1;
      }
      i := i + 1;
    }
    assert length <= |s| && s[..length] == str[..length];
    var uc := Value(str, length);
    if uc < 0 || uc % 0x10000 >= 0xFFFE { return ERROR_INVALIDUTF8, -1; }
    return length, uc;
  }

  /** What the switch over the length lets through. */
  function Screened(p: int, length: nat): int {
    if p < Shortest(length) || (length == 3 && (0xD800 <= p < 0xE000 || 0xFDD0 <= p < 0xFDF0))
       || (length == 4 && p >= 0x110000)
    then -1 else p
  }

  /** The switch of utf8proc_iterate over the length. */
  method Value(str: seq<byte>, length: nat) returns (uc: int)
    requires 1 <= length <= |str| && Utf8Class(str[0]) == length && Continued(str, length)
    ensures uc == Screened(Payload(str[..length]), length)
  {
    uc := -1;
    if length == 1 {
      uc := str[0];
    } else if length == 2 {
      LeadBits(str[0]);
      ContinuationBits(str[1]);
      uc := Low(str[0], 32) * 64 + Low(str[1], 64);
      if uc < 0x80 { uc := -1; }
    } else if length == 3 {
      LeadBits(str[0]);
      ContinuationBits(str[1]);
      ContinuationBits(str[2]);
      uc := Low(str[0], 16) * 4096 + Low(str[1], 64) * 64 + Low(str[2], 64);
      if uc < 0x800 || 0xD800 <= uc < 0xE000 || 0xFDD0 <= uc < 0xFDF0 { uc := -1; }
    } else {
      LeadBits(str[0]);
      ContinuationBits(str[1]);
      ContinuationBits(str[2]);
      ContinuationBits(str[3]);
      uc := Low(str[0], 8) * 262144 + Low(str[1], 64) * 4096 + Low(str[2], 64) * 64 + Low(str[3], 64);
      if uc < 0x10000 || uc >= 0x110000 { uc := -1; }
    }
  }

  lemma LeadBits(b: byte)
    ensures Utf8Class(b) == 2 ==> Low(b, 32) == Above(b, 0xC0)
    ensures Utf8Class(b) == 3 ==> Low(b, 16) == Above(b, 0xE0)
    ensures Utf8Class(b) == 4 ==> Low(b, 8) == Above(b, 0xF0)
  {
  }

  lemma ContinuationBits(b: byte)
    requires Continuation(b)
    ensures Low(b, 64) == Above(b, 0x80)
  {
  }

  // ---------------------------------------------------------------- one code point

  /** Decoding what the encoder wrote gives the code point back, whatever follows it. */
  lemma DecodeOfEncode(uc: int, rest: seq<byte>)
    requires CodepointValid(uc)
    ensures DecodeFirst(EncodeChar(uc) + rest) == Char(uc, |EncodeChar(uc)|)
  {
    var e := EncodeChar(uc);
    var s := e + rest;
    assert s[..|e|] == e;
    assert Utf8Class(s[0]) == |e|;
    assert forall i :: 1 <= i < |e| ==> Continuation(s[i]) by {
      forall i | 1 <= i < |e| ensures Continuation(s[i]) { assert s[i] == e[i]; }
    }
    PayloadOfEncode(uc);
  }

  /** Base-64 digits, most significant first, of a number below 64 * 64 * 64 * 8. */
  lemma Digits(uc: nat)
    ensures uc / 4096 == uc / 64 / 64 && uc / 262144 == uc / 64 / 64 / 64
    ensures uc / 4096 * 4096 + uc / 64 % 64 * 64 + uc % 64 == uc
    ensures uc / 262144 * 262144 + uc / 4096 % 64 * 4096 + uc / 64 % 64 * 64 + uc % 64 == uc
  {
    var q1 := uc / 64;
    var q2 := q1 / 64;
    var q3 := q2 / 64;
    assert uc == 64 * q1 + uc % 64 && q1 == 64 * q2 + q1 % 64 && q2 == 64 * q3 + q2 % 64;
  }

  lemma PayloadOfEncode(uc: int)
    requires CodepointValid(uc)
    ensures 1 <= |EncodeChar(uc)| <= 4 && Payload(EncodeChar(uc)) == uc
    ensures uc >= Shortest(|EncodeChar(uc)|)
  {
    Digits(uc);
  }

  /** Whatever the decoder accepts is a valid code point in its only encoding. */
  lemma EncodeOfDecode(s: seq<byte>)
    requires DecodeFirst(s).Char?
    ensures var Char(uc, n) := DecodeFirst(s);
            && CodepointValid(uc) && 1 <= n <= 4 && n <= |s| && EncodeChar(uc) == s[..n]
  {
    var Char(uc, n) := DecodeFirst(s);
    var h := s[..n];
    assert forall i :: 1 <= i < n ==> h[i] == s[i] && Continuation(s[i]);
    EncodeOfPayload(h);
  }

  lemma EncodeOfPayload(h: seq<byte>)
    requires 1 <= |h| <= 4 && Utf8Class(h[0]) == |h|
    requires forall i :: 1 <= i < |h| ==> Continuation(h[i])
    requires Payload(h) >= Shortest(|h|) && CodepointValid(Payload(h))
    ensures EncodeChar(Payload(h)) == h
  {
    if |h| == 2 {
      EncodeOf2(h[0], h[1]);
      assert h == [h[0], h[1]];
    } else if |h| == 3 {
      EncodeOf3(h[0], h[1], h[2]);
      assert h == [h[0], h[1], h[2]];
    } else if |h| == 4 {
      EncodeOf4(h[0], h[1], h[2], h[3]);
      assert h == [h[0], h[1], h[2], h[3]];
    }
  }

  lemma EncodeOf2(a: byte, b: byte)
    requires Utf8Class(a) == 2 && Continuation(b)
    requires Payload([a, b]) >= 0x80
    ensures EncodeChar(Payload([a, b])) == [a, b]
  {
    DigitsOf(0, 0, a - 0xC0, b - 0x80);
  }

  lemma EncodeOf3(a: byte, b: byte, c: byte)
    requires Utf8Class(a) == 3 && Continuation(b) && Continuation(c)
    requires Payload([a, b, c]) >= 0x800 && CodepointValid(Payload([a, b, c]))
    ensures EncodeChar(Payload([a, b, c])) == [a, b, c]
  {
    DigitsOf(0, a - 0xE0, b - 0x80, c - 0x80);
  }

  lemma EncodeOf4(a: byte, b: byte, c: byte, d: byte)
    requires Utf8Class(a) == 4 && Continuation(b) && Continuation(c) && Continuation(d)
    requires 0x10000 <= Payload([a, b, c, d]) < 0x110000
    ensures EncodeChar(Payload([a, b, c, d])) == [a, b, c, d]
  {
    DigitsOf(a - 0xF0, b - 0x80, c - 0x80, d - 0x80);
  }

  lemma DigitsOf(a: nat, b: nat, c: nat, d: nat)
    requires b < 64 && c < 64 && d < 64
    ensures var uc := a * 262144 + b * 4096 + c * 64 + d;
            uc / 64 == a * 4096 + b * 64 + c && uc % 64 == d && uc / 64 % 64 == c &&
            uc / 4096 == a * 64 + b && uc / 4096 % 64 == b && uc / 262144 == a
  {
  }

  /** UTF8-char of section 4 of RFC 3629, whose UTF8-tail is a continuation byte. */
  predicate Rfc3629Char(s: seq<byte>) {
    || (|s| == 1 && s[0] <= 0x7F)
    || (|s| == 2 && 0xC2 <= s[0] <= 0xDF && Continuation(s[1]))
    || (|s| == 3 && Continuation(s[2]) && (
          || (s[0] == 0xE0 && 0xA0 <= s[1] <= 0xBF)
          || (0xE1 <= s[0] <= 0xEC && Continuation(s[1]))
          || (s[0] == 0xED && 0x80 <= s[1] <= 0x9F)
          || (0xEE <= s[0] <= 0xEF && Continuation(s[1]))))
    || (|s| == 4 && Continuation(s[2]) && Continuation(s[3]) && (
          || (s[0] == 0xF0 && 0x90 <= s[1] <= 0xBF)
          || (0xF1 <= s[0] <= 0xF3 && Continuation(s[1]))
          || (s[0] == 0xF4 && 0x80 <= s[1] <= 0x8F)))
  }

  /** The encodings of U+FDD0 to U+FDEF and of the last two code points of every plane. */
  predicate NoncharacterBytes(s: seq<byte>) {
    || (|s| == 3 && s[0] == 0xEF && s[1] == 0xB7 && 0x90 <= s[2] <= 0xAF)
    || (|s| == 3 && s[0] == 0xEF && s[1] == 0xBF && s[2] >= 0xBE)
    || (|s| == 4 && s[1] in [0x8F, 0x9F, 0xAF, 0xBF] && s[2] == 0xBF && s[3] >= 0xBE)
  }

  /** The decoder takes the first n bytes exactly when they are a character of RFC 3629 and not a
      noncharacter. */
  lemma AcceptsRfc3629(s: seq<byte>, n: nat)
    requires 1 <= n <= |s|
    ensures DecodeFirst(s).Char? && DecodeFirst(s).n == n <==> Rfc3629Char(s[..n]) && !NoncharacterBytes(s[..n])
  {
    var h := s[..n];
    assert h[0] == s[0] && (n <= 4 ==> Continued(s, n) == Continued(h, n));
    if n <= 4 { AcceptedIsRfc3629(h); }
  }

  lemma AcceptedIsRfc3629(h: seq<byte>)
    requires 1 <= |h| <= 4
    ensures Rfc3629Char(h) && !NoncharacterBytes(h)
       <==> && Utf8Class(h[0]) == |h| && Continued(h, |h|)
            && Payload(h) >= Shortest(|h|) && CodepointValid(Payload(h))
  {
    if |h| == 3 && Utf8Class(h[0]) == 3 && Continued(h, 3) {
      Accepted3(h);
    } else if |h| == 4 && Utf8Class(h[0]) == 4 && Continued(h, 4) {
      Accepted4(h);
    }
  }

  lemma Accepted3(h: seq<byte>)
    requires |h| == 3 && Utf8Class(h[0]) == 3 && Continued(h, 3)
    ensures Rfc3629Char(h) && !NoncharacterBytes(h) <==> Payload(h) >= 0x800 && CodepointValid(Payload(h))
  {
    var p := Payload(h);
    assert p % 0x10000 == p;
  }

  lemma Accepted4(h: seq<byte>)
    requires |h| == 4 && Utf8Class(h[0]) == 4 && Continued(h, 4)
    ensures Rfc3629Char(h) && !NoncharacterBytes(h) <==> Payload(h) >= 0x10000 && CodepointValid(Payload(h))
  {
    var b, low := Above(h[1], 0x80), Above(h[2], 0x80) * 64 + Above(h[3], 0x80);
    var plane, rest := Above(h[0], 0xF0) * 4 + b / 16, b % 16 * 4096 + low;
    assert Payload(h) == plane * 0x10000 + rest && 0 <= rest < 0x10000;
    assert Payload(h) % 0x10000 == rest;
    assert rest >= 0xFFFE <==> b % 16 == 15 && low >= 0xFFE;
  }

  // ---------------------------------------------------------------- order

  /** The order of byte strings. */
  predicate ByteLess(a: seq<byte>, b: seq<byte>) {
    b != [] && (a == [] || a[0] < b[0] || (a[0] == b[0] && ByteLess(a[1..], b[1..])))
  }

  /** Byte order is code point order (section 1 of RFC 3629), for all but the two marker values. As the
      accepted sequences are known, there is no other encoding with this law. */
  lemma EncodeOrder(a: int, b: int)
    requires 0 <= a < 0x110000 && a != 0xFFFE && a != 0xFFFF
    requires 0 <= b < 0x110000 && b != 0xFFFE && b != 0xFFFF
    ensures a < b <==> ByteLess(EncodeChar(a), EncodeChar(b))
  {
    if a < b {
      EncodeAscends(a, b);
    } else if b < a {
      EncodeAscends(b, a);
      LessAsymmetric(EncodeChar(b), EncodeChar(a));
    } else {
      LessIrreflexive(EncodeChar(a));
    }
  }

  /** The two values that are no characters are written as bytes that occur in no encoding, and what is
      outside the code space as nothing. */
  lemma MarkerBytes(uc: int)
    ensures EncodeChar(0xFFFE) == [0xFE] && EncodeChar(0xFFFF) == [0xFF]
    ensures EncodeChar(uc) == [] <==> uc < 0 || uc >= 0x110000
    ensures uc != 0xFFFE && uc != 0xFFFF ==> 0xFE !in EncodeChar(uc) && 0xFF !in EncodeChar(uc)
  {
  }

  lemma {:induction false} LessAsymmetric(a: seq<byte>, b: seq<byte>)
    requires ByteLess(a, b)
    ensures !ByteLess(b, a)
  {
    if a != [] && a[0] == b[0] { LessAsymmetric(a[1..], b[1..]); }
  }

  lemma {:induction false} LessIrreflexive(a: seq<byte>)
    ensures !ByteLess(a, a)
  {
    if a != [] { LessIrreflexive(a[1..]); }
  }

  lemma {:induction false} LessAt(a: seq<byte>, b: seq<byte>, k: nat)
    requires k < |a| && k < |b| && a[..k] == b[..k] && a[k] < b[k]
    ensures ByteLess(a, b)
  {
    if k > 0 {
      assert a[..k][0] == a[0] && b[..k][0] == b[0];
      assert a[1..][..k - 1] == a[..k][1..] && b[1..][..k - 1] == b[..k][1..];
      LessAt(a[1..], b[1..], k - 1);
    }
  }

  lemma EncodeAscends(a: int, b: int)
    requires 0 <= a < b < 0x110000 && a != 0xFFFE && a != 0xFFFF && b != 0xFFFE && b != 0xFFFF
    ensures ByteLess(EncodeChar(a), EncodeChar(b))
  {
    if |EncodeChar(a)| < |EncodeChar(b)| {
      LessAt(EncodeChar(a), EncodeChar(b), 0);
    } else if b < 0x80 {
      LessAt(EncodeChar(a), EncodeChar(b), 0);
    } else if b < 0x800 {
      LessAt(EncodeChar(a), EncodeChar(b), if a / 64 < b / 64 then 0 else 1);
    } else if b < 0x10000 {
      Ascends3(a, b);
    } else {
      Ascends4(a, b);
    }
  }

  lemma Ascends3(a: int, b: int)
    requires 0x800 <= a < b < 0xFFFE
    ensures ByteLess(EncodeChar(a), EncodeChar(b))
  {
    Digits(a);
    Digits(b);
    var k := if a / 4096 < b / 4096 then 0 else if a / 64 % 64 < b / 64 % 64 then 1 else 2;
    LessAt(EncodeChar(a), EncodeChar(b), k);
  }

  lemma Ascends4(a: int, b: int)
    requires 0x10000 <= a < b < 0x110000
    ensures ByteLess(EncodeChar(a), EncodeChar(b))
  {
    Digits(a);
    Digits(b);
    var k := if a / 262144 < b / 262144 then 0 else if a / 4096 % 64 < b / 4096 % 64 then 1
             else if a / 64 % 64 < b / 64 % 64 then 2 else 3;
    LessAt(EncodeChar(a), EncodeChar(b), k);
  }

  /** For a terminated string, only the bytes before the terminator matter. */
  lemma TerminatedDecode(str: seq<byte>)
    requires 0 in str
    ensures DecodeFirst(str) ==
            if str[0] == 0 then Char(0, 1) else DecodeFirst(str[..IndexOfZero(str)])
  {
    var z := IndexOfZero(str);
    if str[0] != 0 {
      var s := str[..z];
      var n := Utf8Class(str[0]);
      assert s != [] && s[0] == str[0];
      if n > z {
        assert z < |str| && !Continuation(str[z]);
      } else {
        assert s[..n] == str[..n];
      }
    }
  }

  // ---------------------------------------------------------------- whole strings

  function EncodeAll(us: seq<int>): seq<byte> {
    if us == [] then [] else EncodeChar(us[0]) + EncodeAll(us[1..])
  }

  datatype Text = Invalid | Text(us: seq<int>)

  /** The code points of a byte string, if all of it is accepted. */
  function DecodeAll(s: seq<byte>): Text
    decreases |s|
  {
    if s == [] then Text([])
    else
      match DecodeFirst(s)
      case Char(uc, n) =>
        EncodeOfDecode(s);
        (match DecodeAll(s[n..])
         case Invalid => Invalid
         case Text(us) => Text([uc] + us))
      case _ => Invalid
  }

  ghost predicate AllValid(us: seq<int>) {
    forall i :: 0 <= i < |us| ==> CodepointValid(us[i])
  }

  lemma {:induction false} DecodeAllOfEncodeAll(us: seq<int>)
    requires AllValid(us)
    ensures DecodeAll(EncodeAll(us)) == Text(us)
  {
    if us != [] {
      var e, rest := EncodeChar(us[0]), EncodeAll(us[1..]);
      DecodeOfEncode(us[0], rest);
      DecodeAllOfEncodeAll(us[1..]);
      assert EncodeAll(us)[|e|..] == rest;
      assert [us[0]] + us[1..] == us;
    }
  }

  lemma {:induction false} EncodeAllOfDecodeAll(s: seq<byte>)
    requires DecodeAll(s).Text?
    ensures AllValid(DecodeAll(s).us) && EncodeAll(DecodeAll(s).us) == s
    ensures |DecodeAll(s).us| <= |s|
    decreases |s|
  {
    if s != [] {
      EncodeOfDecode(s);
      var Char(uc, n) := DecodeFirst(s);
      EncodeAllOfDecodeAll(s[n..]);
      assert s[..n] + s[n..] == s;
      assert DecodeAll(s).us[1..] == DecodeAll(s[n..]).us;
    }
  }

  /** The accepted strings are exactly the encodings of sequences of valid code points. */
  lemma AcceptedStrings(s: seq<byte>)
    ensures DecodeAll(s).Text? <==> exists us :: AllValid(us) && EncodeAll(us) == s
  {
    if DecodeAll(s).Text? {
      EncodeAllOfDecodeAll(s);
    }
    if us :| AllValid(us) && EncodeAll(us) == s {
      DecodeAllOfEncodeAll(us);
    }
  }

  lemma {:induction false} EncodeAllConcat(a: seq<int>, b: seq<int>)
    ensures EncodeAll(a + b) == EncodeAll(a) + EncodeAll(b)
  {
    if a == [] {
      assert a + b == b;
    } else {
      EncodeAllConcat(a[1..], b);
      var c := a + b;
      assert c[0] == a[0] && c[1..] == a[1..] + b;
      Associative(EncodeChar(a[0]), EncodeAll(a[1..]), EncodeAll(b));
    }
  }
}
