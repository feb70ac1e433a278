/** The memcached binary protocol codec: growable string, request serializer, response parser, and the
    retry loop of the evaluator that parses from ever longer prefixes. Hosts are little-endian, as the
    byte swapping of the source assumes; fields are therefore given by their wire bytes. */
module MemcachedCodec {
  import opened Sequences
  import opened Utf8
  import opened Wrappers

  const HEADER: nat := 24
  const MAX_KEY: nat := 251
  const BLOCK_SIZE: nat := 1024
  const REQ_MAGIC: byte := 0x80
  const RES_MAGIC: byte := 0x81
  const TWO32: nat := 0x1_0000_0000
  const TWO64: nat := 0x1_0000_0000_0000_0000
  /** No allocation is larger. */
  const PTRDIFF_MAX: nat := 0x7FFF_FFFF_FFFF_FFFF

  // ---------------------------------------------------------------- wire format

  /** n as k bytes, most significant first; higher bits are cut off. */
  function BigEndian(n: nat, k: nat): (r: seq<byte>)
    ensures |r| == k
  {
    if k == 0 then [] else BigEndian(n / 256, k - 1) + [n % 256]
  }

  function FromBigEndian(s: seq<byte>): nat {
    if s == [] then 0 else FromBigEndian(s[..|s| - 1]) * 256 + s[|s| - 1]
  }

  function Power256(k: nat): nat { if k == 0 then 1 else 256 * Power256(k - 1) }

  /** Writing a number and reading it back keeps the part that fits. */
  lemma {:induction false} BigEndianRoundTrip(n: nat, k: nat)
    ensures Power256(k) > 0 && FromBigEndian(BigEndian(n, k)) == n % Power256(k)
  {
    if k > 0 {
      BigEndianRoundTrip(n / 256, k - 1);
      var s, p := BigEndian(n, k), Power256(k - 1);
      assert s[..k - 1] == BigEndian(n / 256, k - 1);
      ModStep(n, p);
    }
  }

  /** The bytes of a field, counted from the most significant one. */
  lemma {:induction false} BigEndianByte(n: nat, k: nat, i: nat)
    requires i < k
    ensures BigEndian(n, k)[i] == Shifted(n, k - 1 - i) % 256
    decreases k
  {
    if i < k - 1 {
      BigEndianByte(n / 256, k - 1, i);
    }
  }

  function Shifted(n: nat, k: nat): nat { if k == 0 then n else Shifted(n / 256, k - 1) }

  lemma Bytes2(n: nat)
    ensures BigEndian(n, 2) == [n / 256 % 256, n % 256]
  {
    BigEndianByte(n, 2, 0);
    assert Shifted(n, 1) == Shifted(n / 256, 0);
  }

  lemma Bytes4(n: nat)
    ensures BigEndian(n, 4) == [n / 0x1000000 % 256, n / 0x10000 % 256, n / 0x100 % 256, n % 256]
  {
    assert BigEndian(n, 4) == BigEndian(n / 256 / 256, 2) + [n / 256 % 256, n % 256];
    Bytes2(n / 256 / 256);
    assert n / 256 / 256 == n / 0x10000 && n / 256 / 256 / 256 == n / 0x1000000;
  }

  lemma ModStep(n: nat, p: nat)
    requires p > 0
    ensures n / 256 % p * 256 + n % 256 == n % (256 * p)
  {
    var q, r := n / 256 / p, n / 256 % p;
    var d := r * 256 + n % 256;
    assert n / 256 == p * q + r;
    assert n == 256 * (p * q + r) + n % 256;
    assert 256 * (p * q) == 256 * p * q;
    assert n == 256 * p * q + d;
    assert 0 <= d < 256 * p;
    ModUnique(n, 256 * p, q, d);
  }

  lemma ModUnique(n: nat, m: nat, q: nat, d: nat)
    requires 0 <= d < m && n == m * q + d
    ensures n % m == d
  {
    QuotientUnique(m, q, d, n / m, n % m);
  }

  lemma QuotientUnique(m: nat, q: nat, d: nat, q': nat, d': nat)
    requires 0 <= d < m && 0 <= d' < m && m * q + d == m * q' + d'
    ensures d == d'
  {
    if q > q' {
      MulAtLeast(m, q - q');
    } else if q < q' {
      MulAtLeast(m, q' - q);
    }
  }

  lemma MulAtLeast(m: nat, k: nat)
    requires k >= 1
    ensures m * k >= m
  {
  }

  lemma {:induction false} FromBigEndianBound(s: seq<byte>)
    ensures FromBigEndian(s) < Power256(|s|)
  {
    if s != [] {
      FromBigEndianBound(s[..|s| - 1]);
    }
  }

  /** What a message carries for its reader. */
  datatype Message = Message(cas: nat, extras: seq<byte>, key: seq<byte>, value: seq<byte>)

  function KeyLen(s: seq<byte>): nat requires |s| >= HEADER { FromBigEndian(s[2..4]) }
  function ExtLen(s: seq<byte>): nat requires |s| >= HEADER { s[4] }
  function BodyLen(s: seq<byte>): nat requires |s| >= HEADER { FromBigEndian(s[8..12]) }
  function Cas(s: seq<byte>): nat requires |s| >= HEADER { FromBigEndian(s[16..24]) }

  /** The value length, computed by subtraction in 32 bits. */
  function ValueLen(s: seq<byte>): (n: nat)
    requires |s| >= HEADER
    ensures n < TWO32
  {
    (BodyLen(s) - ExtLen(s) - KeyLen(s)) % TWO32
  }

  function Total(s: seq<byte>): nat
    requires |s| >= HEADER
  {
    HEADER + ExtLen(s) + KeyLen(s) + ValueLen(s)
  }

  /** What the parser makes of a buffer: a message and the number of bytes it takes, if they are there. */
  function Parse(s: seq<byte>): Option<(Message, nat)> {
    if |s| < HEADER || |s| < Total(s) then None
    else
      var x, k := HEADER + ExtLen(s), HEADER + ExtLen(s) + KeyLen(s);
      Some((Message(Cas(s), s[HEADER..x], s[x..k], s[k..Total(s)]), Total(s)))
  }

  /** The header of a request. The opaque field holds a swapped 16-bit value in 32 bits. */
  function Header(opcode: byte, m: Message, opaqueField: nat): (r: seq<byte>)
    ensures |r| == HEADER
  {
    [REQ_MAGIC, opcode] + BigEndian(|m.key|, 2) + [|m.extras| % 256, 0, 0, 0]
    + BigEndian(|m.key| + |m.value| + |m.extras| % 256, 4)
    + BigEndian(opaqueField, 2) + [0, 0] + BigEndian(m.cas, 8)
  }

  function Serialized(opcode: byte, m: Message, opaqueField: nat): seq<byte> {
    Header(opcode, m, opaqueField) + m.extras + m.key + m.value
  }

  /** A request by offset: magic 0x80, opcode, key length, extras length, two fields that are zero, body
      length, opaque field, cas, and then extras, key and value. */
  lemma SerializedLayout(opcode: byte, m: Message, opaqueField: nat)
    ensures var s := Serialized(opcode, m, opaqueField);
            var e, k := 24 + |m.extras|, 24 + |m.extras| + |m.key|;
            var body := |m.key| + |m.value| + |m.extras| % 256;
            && |s| == k + |m.value| && s[0] == 0x80 && s[1] == opcode
            && s[2] == |m.key| / 256 % 256 && s[3] == |m.key| % 256 && s[4] == |m.extras| % 256
            && s[5..8] == [0, 0, 0]
            && s[8..12] == [body / 0x1000000 % 256, body / 0x10000 % 256, body / 0x100 % 256, body % 256]
            && s[12..16] == [opaqueField / 256 % 256, opaqueField % 256, 0, 0]
            && s[16..24] == BigEndian(m.cas, 8)
            && s[24..e] == m.extras && s[e..k] == m.key && s[k..] == m.value
  {
    var h, s := Header(opcode, m, opaqueField), Serialized(opcode, m, opaqueField);
    HeaderLayout(opcode, m, opaqueField);
    var e, k := 24 + |m.extras|, 24 + |m.extras| + |m.key|;
    assert s[..24] == h;
    assert forall i :: 0 <= i < 24 ==> s[i] == h[i];
    assert s[5..8] == h[5..8] && s[8..12] == h[8..12] && s[12..16] == h[12..16] && s[16..24] == h[16..24];
    assert s[24..e] == m.extras && s[e..k] == m.key && s[k..] == m.value;
  }

  lemma HeaderLayout(opcode: byte, m: Message, opaqueField: nat)
    ensures var h := Header(opcode, m, opaqueField);
            var body := |m.key| + |m.value| + |m.extras| % 256;
            && h[0] == 0x80 && h[1] == opcode
            && h[2] == |m.key| / 256 % 256 && h[3] == |m.key| % 256 && h[4] == |m.extras| % 256
            && h[5..8] == [0, 0, 0]
            && h[8..12] == [body / 0x1000000 % 256, body / 0x10000 % 256, body / 0x100 % 256, body % 256]
            && h[12..16] == [opaqueField / 256 % 256, opaqueField % 256, 0, 0]
            && h[16..24] == BigEndian(m.cas, 8)
  {
    Bytes2(|m.key|);
    Bytes4(|m.key| + |m.value| + |m.extras| % 256);
    Bytes2(opaqueField);
  }

  /** What the parser reads, by offset. */
  lemma FieldsByOffset(s: seq<byte>)
    requires |s| >= 24
    ensures KeyLen(s) == Wide(s[2]) * 256 + s[3] && ExtLen(s) == s[4]
    ensures BodyLen(s) == ((Wide(s[8]) * 256 + s[9]) * 256 + s[10]) * 256 + s[11]
    ensures Parse(s).Some? ==>
              var (m, n) := Parse(s).value;
              var e, k := 24 + ExtLen(s), 24 + ExtLen(s) + KeyLen(s);
              e <= k <= n <= |s| && m.extras == s[24..e] && m.key == s[e..k] && m.value == s[k..n]
              && n == k + (BodyLen(s) - ExtLen(s) - KeyLen(s)) % 0x1_0000_0000
  {
    FromTwo(s[2..4]);
    FromTwo(s[8..10]);
    var b := s[8..12];
    assert b[..3] == s[8..11] && s[8..11][..2] == s[8..10];
    assert FromBigEndian(b) == FromBigEndian(b[..3]) * 256 + b[3];
    assert FromBigEndian(s[8..11]) == FromBigEndian(s[8..10]) * 256 + s[10];
  }

  /** A byte as a number to calculate with. */
  function Wide(b: byte): int { b }

  lemma FromTwo(s: seq<byte>)
    requires |s| == 2
    ensures FromBigEndian(s) == Wide(s[0]) * 256 + s[1]
  {
    assert s[..1] == [s[0]] && [s[0]][..0] == [];
    assert FromBigEndian([s[0]]) == FromBigEndian([]) * 256 + s[0];
  }

  lemma HeaderFields(opcode: byte, m: Message, opaqueField: nat, rest: seq<byte>)
    ensures var s := Header(opcode, m, opaqueField) + rest;
            && KeyLen(s) == |m.key| % 65536 && ExtLen(s) == |m.extras| % 256
            && BodyLen(s) == (|m.key| + |m.value| + |m.extras| % 256) % TWO32
            && Cas(s) == m.cas % TWO64
  {
    var s := Header(opcode, m, opaqueField) + rest;
    assert s[2..4] == BigEndian(|m.key|, 2);
    assert s[8..12] == BigEndian(|m.key| + |m.value| + |m.extras| % 256, 4);
    assert s[16..24] == BigEndian(m.cas, 8);
    BigEndianRoundTrip(|m.key|, 2);
    BigEndianRoundTrip(|m.key| + |m.value| + |m.extras| % 256, 4);
    BigEndianRoundTrip(m.cas, 8);
    PowerValues();
  }

  ghost predicate Fits(m: Message) {
    m.cas < TWO64 && |m.extras| < 256 && |m.key| < 65536 && |m.value| < TWO32
  }

  /** Parsing what was serialized gives the message back and takes exactly the bytes written, whatever
      follows them; it does so exactly for messages whose parts fit their length fields. The total
      length need not fit: it wraps around twice. */
  lemma SerializedRoundTrip(opcode: byte, m: Message, opaqueField: nat, rest: seq<byte>)
    ensures var s := Serialized(opcode, m, opaqueField);
            Parse(s + rest) == Some((m, |s|)) <==> Fits(m)
  {
    var h, s := Header(opcode, m, opaqueField), Serialized(opcode, m, opaqueField) + rest;
    var tail := m.extras + m.key + m.value + rest;
    Behind(h, m.extras, m.key, m.value, rest);
    if Fits(m) {
      FittingRoundTrip(opcode, m, opaqueField, rest);
    } else if Parse(s).Some? {
      ParseFits(s);
    }
  }

  lemma FittingRoundTrip(opcode: byte, m: Message, opaqueField: nat, rest: seq<byte>)
    requires Fits(m)
    ensures Parse(Header(opcode, m, opaqueField) + (m.extras + m.key + m.value + rest))
            == Some((m, HEADER + |m.extras| + |m.key| + |m.value|))
  {
    var tail := m.extras + m.key + m.value + rest;
    HeaderFields(opcode, m, opaqueField, tail);
    FittingFields(Header(opcode, m, opaqueField) + tail, m);
    ParseParts(Header(opcode, m, opaqueField), m, rest);
  }

  lemma FittingFields(s: seq<byte>, m: Message)
    requires Fits(m) && |s| >= HEADER && Cas(s) == m.cas % TWO64
    requires KeyLen(s) == |m.key| % 65536 && ExtLen(s) == |m.extras| % 256
    requires BodyLen(s) == (|m.key| + |m.value| + |m.extras| % 256) % TWO32
    ensures Cas(s) == m.cas && ExtLen(s) == |m.extras| && KeyLen(s) == |m.key| && ValueLen(s) == |m.value|
  {
    WrappedLength(|m.key|, |m.value|, |m.extras|);
  }

  lemma Behind(h: seq<byte>, a: seq<byte>, b: seq<byte>, c: seq<byte>, d: seq<byte>)
    ensures h + a + b + c + d == h + (a + b + c + d)
  {
    Associative(h, a + b + c, d);
    Associative(h, a + b, c);
    Associative(h, a, b);
  }

  lemma ParseParts(h: seq<byte>, m: Message, rest: seq<byte>)
    requires |h| == HEADER
    requires var s := h + (m.extras + m.key + m.value + rest);
             Cas(s) == m.cas && ExtLen(s) == |m.extras| && KeyLen(s) == |m.key| && ValueLen(s) == |m.value|
    ensures Parse(h + (m.extras + m.key + m.value + rest))
            == Some((m, HEADER + |m.extras| + |m.key| + |m.value|))
  {
    var s := h + (m.extras + m.key + m.value + rest);
    var x, k := HEADER + |m.extras|, HEADER + |m.extras| + |m.key|;
    assert s[HEADER..x] == m.extras;
    assert s[x..k] == m.key;
    assert s[k..k + |m.value|] == m.value;
  }

  /** Whatever is parsed fits the fields it came from. */
  lemma ParseFits(s: seq<byte>)
    requires Parse(s).Some?
    ensures Fits(Parse(s).value.0)
  {
    FromBigEndianBound(s[2..4]);
    FromBigEndianBound(s[16..24]);
    PowerValues();
  }

  lemma PowerValues()
    ensures Power256(2) == 65536 && Power256(4) == TWO32 && Power256(8) == TWO64
  {
    assert Power256(2) == 65536 && Power256(4) == TWO32 && Power256(6) == 65536 * TWO32;
  }

  lemma WrappedLength(key: nat, value: nat, extras: nat)
    requires value < TWO32
    ensures ((key + value + extras) % TWO32 - extras - key) % TWO32 == value
  {
    var q := (key + value + extras) / TWO32;
    assert (key + value + extras) % TWO32 == key + value + extras - q * TWO32;
    assert (value - q * TWO32) % TWO32 == value;
  }

  /** A message is recognized as soon as it is complete and not before, and what follows it does not
      matter. */
  lemma ParsePrefix(s: seq<byte>, k: nat, rest: seq<byte>)
    requires Parse(s).Some? && k <= |s|
    ensures var (m, n) := Parse(s).value;
            && n <= |s| && Parse(s[..k]) == (if k < n then None else Parse(s))
            && Parse(s + rest) == Parse(s)
  {
    var n := Parse(s).value.1;
    if k >= HEADER {
      SameHeader(s, s[..k]);
      if k >= n { SameParse(s, s[..k]); }
    }
    SameHeader(s, s + rest);
    SameParse(s, s + rest);
  }

  lemma SameParse(s: seq<byte>, t: seq<byte>)
    requires Parse(s).Some? && Parse(s).value.1 <= |t| && s[..Parse(s).value.1] == t[..Parse(s).value.1]
    ensures Parse(t) == Parse(s)
  {
    var n := Parse(s).value.1;
    var x, y := HEADER + ExtLen(s), HEADER + ExtLen(s) + KeyLen(s);
    SliceOfPrefix(s, n, 0, HEADER);
    SliceOfPrefix(t, n, 0, HEADER);
    SameHeader(s, t);
    SliceOfPrefix(s, n, HEADER, x);
    SliceOfPrefix(t, n, HEADER, x);
    SliceOfPrefix(s, n, x, y);
    SliceOfPrefix(t, n, x, y);
    SliceOfPrefix(s, n, y, n);
    SliceOfPrefix(t, n, y, n);
  }

  lemma SliceOfPrefix(s: seq<byte>, n: nat, i: nat, j: nat)
    requires i <= j <= n <= |s|
    ensures s[..n][i..j] == s[i..j]
  {
  }

  lemma SliceOfSuffix(s: seq<byte>, n: nat, i: nat, j: nat)
    requires i <= j && n + j <= |s|
    ensures s[n..][i..j] == s[n + i..n + j]
  {
  }

  lemma SameHeader(s: seq<byte>, t: seq<byte>)
    requires |s| >= HEADER && |t| >= HEADER && s[..HEADER] == t[..HEADER]
    ensures KeyLen(s) == KeyLen(t) && ExtLen(s) == ExtLen(t) && BodyLen(s) == BodyLen(t) && Cas(s) == Cas(t)
  {
    assert s[2..4] == s[..HEADER][2..4] && t[2..4] == t[..HEADER][2..4];
    assert s[4] == s[..HEADER][4] && t[4] == t[..HEADER][4];
    assert s[8..12] == s[..HEADER][8..12] && t[8..12] == t[..HEADER][8..12];
    assert s[16..24] == s[..HEADER][16..24] && t[16..24] == t[..HEADER][16..24];
  }

  // ---------------------------------------------------------------- growable string

  /** memcached_string_st: data is the allocation of currentSize bytes, of which end are in use. */
  class GrowableString {
    var data: array<byte>
    var end: nat
    var currentSize: nat

    ghost predicate Valid()
      reads this
    {
      data.Length == currentSize <= PTRDIFF_MAX && end <= currentSize
    }

    ghost function Contents(): seq<byte>
      requires Valid()
      reads this, data
    {
      data[..end]
    }

    constructor ()
      ensures Valid() && fresh(data) && Contents() == [] && currentSize == 0
    {
      data := new byte[0];
      end, currentSize := 0, 0;
    }

    /** _string_check, in 64-bit arithmetic: room for need more bytes, or failure and no change. It
        fails only if the allocator does or if no allocation could be large enough. */
    method Check(need: nat, allocates: bool) returns (ok: bool)
      requires Valid() && need < TWO64
      modifies this
      ensures Valid() && end == old(end) && Contents() == old(Contents())
      ensures data == old(data) || fresh(data)
      ensures ok ==> need <= currentSize - end
      ensures !ok ==> data == old(data) && currentSize == old(currentSize)
      ensures allocates && end + need + BLOCK_SIZE <= PTRDIFF_MAX ==> ok
    {
      var free := currentSize - end;
      if need != 0 && need > free {
        var adjust := (need - free) / BLOCK_SIZE + 1;
        var newSize := (adjust * BLOCK_SIZE + currentSize) % TWO64;
        GrowthWraps(need, free, currentSize, adjust);
        if newSize < need { return false; }
        if !allocates || newSize > PTRDIFF_MAX { return false; }
        var newData := new byte[newSize];
        forall i | 0 <= i < currentSize { newData[i] := data[i]; }
        assert newData[..end] == data[..end];
        data := newData;
        currentSize := (currentSize + BLOCK_SIZE * adjust) % TWO64;
      }
      return true;
    }

    /** memcached_string_append. */
    method Append(value: seq<byte>, allocates: bool) returns (ok: bool)
      requires Valid() && |value| < TWO64
      modifies this, data
      ensures Valid() && (data == old(data) || fresh(data))
      ensures Contents() == old(Contents()) + if ok then value else []
      ensures allocates && |old(Contents())| + |value| + BLOCK_SIZE <= PTRDIFF_MAX ==> ok
    {
      ok := Check(|value|, allocates);
      if ok {
        ghost var before := Contents();
        forall i | 0 <= i < |value| { data[end + i] := value[i]; }
        assert data[..end] == before && data[end..end + |value|] == value;
        end := end + |value|;
      }
    }

    /** memcached_string_reset. */
    method Reset()
      requires Valid()
      modifies this`end
      ensures Valid() && Contents() == []
    {
      end := 0;
    }

    /** memcached_string_set_length, after bytes were stored behind the string's back. */
    method SetLength(length: nat)
      requires Valid() && length <= currentSize
      modifies this`end
      ensures Valid() && Contents() == data[..length]
    {
      end := length;
    }
  }

  /** The new size is large enough unless the computation wraps around, and then it is smaller than
      what is needed. */
  lemma GrowthWraps(need: nat, free: nat, size: nat, adjust: nat)
    requires free <= size <= PTRDIFF_MAX && free < need < TWO64 && adjust == (need - free) / BLOCK_SIZE + 1
    ensures var sum := adjust * BLOCK_SIZE + size;
            && need - free < adjust * BLOCK_SIZE <= need - free + BLOCK_SIZE
            && (sum >= TWO64 ==> sum % TWO64 < need)
            && (sum < TWO64 ==> sum % TWO64 == sum && sum - size + free >= need)
  {
    var sum := adjust * BLOCK_SIZE + size;
    var q := (need - free) / BLOCK_SIZE;
    assert BLOCK_SIZE * q <= need - free < BLOCK_SIZE * q + BLOCK_SIZE;
    assert sum < 2 * TWO64;
  }

  // ---------------------------------------------------------------- parser

  /** The part of memcached_instance_st that reading uses: length bytes from pos on are available. */
  class Instance {
    const buffer: array<byte>
    var pos: nat
    var length: nat

    constructor (buffer: array<byte>)
      ensures this.buffer == buffer && pos == 0 && length == 0
    {
      this.buffer := buffer;
      pos, length := 0, 0;
    }

    ghost predicate Valid()
      reads this
    {
      pos + length <= buffer.Length
    }

    ghost function Pending(): seq<byte>
      requires Valid()
      reads this, buffer
    {
      buffer[pos..pos + length]
    }

    /** memcached_safe_read. */
    method SafeRead(dst: array<byte>, size: nat) returns (ok: bool)
      requires Valid() && dst != buffer && (size <= length ==> size <= dst.Length)
      modifies this, dst
      ensures Valid() && ok == (size <= |old(Pending())|)
      ensures ok ==> dst[..size] == old(Pending())[..size] && dst[size..] == old(dst[size..])
      ensures ok ==> pos == old(pos) + size && Pending() == old(Pending())[size..]
      ensures !ok ==> pos == old(pos) && length == old(length) && dst[..] == old(dst[..])
    {
      if length < size { return false; }
      forall i | 0 <= i < size { dst[i] := buffer[pos + i]; }
      pos, length := pos + size, length - size;
      return true;
    }
  }

  /** memcached_result_st, as far as the parser fills it. */
  class Result {
    var keyLength: nat
    var extrasLength: nat
    var itemCas: nat
    const value: GrowableString
    const itemKey: array<byte>
    const itemExtras: array<byte>

    constructor ()
      ensures Valid() && fresh(value) && fresh(value.data) && fresh(itemKey) && fresh(itemExtras)
      ensures keyLength == extrasLength == 0
    {
      keyLength, extrasLength, itemCas := 0, 0, 0;
      value := new GrowableString();
      itemKey := new byte[MAX_KEY];
      itemExtras := new byte[MAX_KEY];
    }

    ghost predicate Valid()
      reads this, value
    {
      && value.Valid() && itemKey.Length == itemExtras.Length == MAX_KEY
      && itemKey != itemExtras && value.data != itemKey && value.data != itemExtras
    }

    /** The lengths are set before the bytes are there, so after a failure they can be too large. */
    ghost predicate Filled()
      reads this
    {
      keyLength <= MAX_KEY && extrasLength <= MAX_KEY
    }

    ghost function Read(): Message
      requires Valid() && Filled()
      reads this, value, value.data, itemKey, itemExtras
    {
      Message(itemCas, itemExtras[..extrasLength], itemKey[..keyLength], value.Contents())
    }
  }

  /** A copy into a field of fixed size. */
  datatype Transfer = Transfer(capacity: nat, size: nat)

  /** The copies into fields of fixed size when these bytes are pending: each is made if all its bytes are
      there, whatever the field holds. */
  function Transfers(s: seq<byte>): seq<Transfer> {
    if |s| < HEADER then []
    else if |s| < HEADER + ExtLen(s) then [Transfer(HEADER, HEADER)]
    else if |s| < HEADER + ExtLen(s) + KeyLen(s) then [Transfer(HEADER, HEADER), Transfer(MAX_KEY, ExtLen(s))]
    else [Transfer(HEADER, HEADER), Transfer(MAX_KEY, ExtLen(s)), Transfer(MAX_KEY, KeyLen(s))]
  }

  /** No copy leaves its field. */
  predicate StaysInside(s: seq<byte>) {
    forall i :: 0 <= i < |Transfers(s)| ==> Transfers(s)[i].size <= Transfers(s)[i].capacity
  }

  /** A copy leaves its field exactly if extras or key of more than 251 bytes are announced and pending. */
  lemma LeavesExactly(s: seq<byte>)
    ensures !StaysInside(s)
       <==> && |s| >= HEADER
            && ((ExtLen(s) > 251 && |s| >= 24 + ExtLen(s)) || (KeyLen(s) > 251 && |s| >= 24 + ExtLen(s) + KeyLen(s)))
  {
    var ts := Transfers(s);
    if |ts| >= 2 { assert ts[1] == Transfer(MAX_KEY, ExtLen(s)); }
    if |ts| == 3 { assert ts[2] == Transfer(MAX_KEY, KeyLen(s)); }
  }

  /** So a message as it is sent is read within the fields exactly if its extras and key are that short. */
  lemma SerializedInside(opcode: byte, m: Message, opaqueField: nat, rest: seq<byte>)
    requires Fits(m)
    ensures StaysInside(Serialized(opcode, m, opaqueField) + rest)
       <==> |m.extras| <= MAX_KEY && |m.key| <= MAX_KEY
  {
    var h, tail := Header(opcode, m, opaqueField), m.extras + m.key + m.value + rest;
    LeavesExactly(h + tail);
    HeaderFields(opcode, m, opaqueField, tail);
    FittingFields(h + tail, m);
    Behind(h, m.extras, m.key, m.value, rest);
  }

  /** A key of 252 bytes. */
  lemma LongKeyExample()
    ensures !StaysInside(Serialized(0, Message(0, [], seq(252, _ => 0), []), 0))
  {
    var m := Message(0, [], seq(252, _ => 0), []);
    SerializedInside(0, m, 0, []);
    assert Serialized(0, m, 0) + [] == Serialized(0, m, 0);
  }

  /** binary_read_one_response. A wrong magic byte is reported but not acted on. */
  method ReadOneResponse(instance: Instance, result: Result, allocates: bool) returns (ok: bool)
    requires instance.Valid() && result.Valid() && StaysInside(instance.Pending())
    requires instance.buffer != result.value.data && instance.buffer != result.itemKey
    requires instance.buffer != result.itemExtras
    modifies instance, result, result.value, result.value.data, result.itemKey, result.itemExtras
    ensures instance.Valid() && result.Valid()
    ensures result.value.data == old(result.value.data) || fresh(result.value.data)
    ensures instance.buffer[..] == old(instance.buffer[..])
    ensures ok ==> Parse(old(instance.Pending())).Some?
    ensures allocates && Parse(old(instance.Pending())).Some? ==> ok
    ensures ok ==> var (m, n) := Parse(old(instance.Pending())).value;
                   result.Filled() && result.Read() == m && instance.pos == old(instance.pos) + n
  {
    ghost var s := instance.Pending();
    var keylen, extlen, bodylen, cas;
    ok, keylen, extlen, bodylen, cas := ReadHeader(instance);
    if !ok { return; }
    result.keyLength := 0;
    result.value.Reset();
    result.itemCas := cas;
    ghost var b := instance.Pending();
    LeavesExactly(s);
    ok := ReadBody(instance, result, keylen, extlen, bodylen, allocates);
    ParseFields(s, b, keylen, extlen, bodylen);
  }

  lemma ParseFields(s: seq<byte>, b: seq<byte>, keylen: nat, extlen: nat, bodylen: nat)
    requires |s| >= HEADER && b == s[HEADER..]
    requires keylen == KeyLen(s) && extlen == ExtLen(s) && bodylen == BodyLen(s)
    ensures var n := extlen + keylen + (bodylen - extlen - keylen) % TWO32;
            if |b| < n then Parse(s) == None
            else Parse(s) == Some((Message(Cas(s), b[..extlen], b[extlen..extlen + keylen], b[extlen + keylen..n]),
                                   HEADER + n))
  {
    ParseBody(s);
  }

  /** Parsing, told from the bytes behind the header. */
  lemma ParseBody(s: seq<byte>)
    requires |s| >= HEADER
    ensures var b, x, k, n := s[HEADER..], ExtLen(s), ExtLen(s) + KeyLen(s), Total(s) - HEADER;
            Parse(s) == if |b| < n then None else Some((Message(Cas(s), b[..x], b[x..k], b[k..n]), Total(s)))
  {
    var b, x, k, n := s[HEADER..], ExtLen(s), ExtLen(s) + KeyLen(s), Total(s) - HEADER;
    if |b| >= n {
      SliceOfSuffix(s, HEADER, 0, x);
      SliceOfSuffix(s, HEADER, x, k);
      SliceOfSuffix(s, HEADER, k, n);
    }
  }

  /** Reads and decodes the header. */
  method ReadHeader(instance: Instance) returns (ok: bool, keylen: nat, extlen: nat, bodylen: nat, cas: nat)
    requires instance.Valid()
    modifies instance
    ensures instance.Valid() && ok == (|old(instance.Pending())| >= HEADER)
    ensures ok ==> var s := old(instance.Pending());
                   && keylen == KeyLen(s) && extlen == ExtLen(s) && bodylen == BodyLen(s) && cas == Cas(s)
                   && instance.pos == old(instance.pos) + HEADER && instance.Pending() == s[HEADER..]
  {
    keylen, extlen, bodylen, cas := 0, 0, 0, 0;
    ghost var s := instance.Pending();
    var header := new byte[HEADER];
    ok := instance.SafeRead(header, HEADER);
    if !ok { return; }
    assert header[..] == s[..HEADER];
    SameHeader(header[..], s);
    assert header[2..4] == header[..][2..4] && header[8..12] == header[..][8..12];
    assert header[16..24] == header[..][16..24];
    keylen, extlen := FromBigEndian(header[2..4]), header[4];
    bodylen, cas := FromBigEndian(header[8..12]), FromBigEndian(header[16..24]);
  }

  /** Reads extras, key and value; their lengths are subtracted from the body length in 32 bits. */
  method ReadBody(instance: Instance, result: Result, keylen: nat, extlen: nat, bodylen: nat, allocates: bool)
    returns (ok: bool)
    requires instance.Valid() && result.Valid()
    requires extlen <= |instance.Pending()| ==> extlen <= MAX_KEY
    requires extlen + keylen <= |instance.Pending()| ==> keylen <= MAX_KEY
    requires result.value.end == 0
    requires instance.buffer != result.value.data && instance.buffer != result.itemKey
    requires instance.buffer != result.itemExtras
    modifies instance, result, result.value, result.value.data, result.itemKey, result.itemExtras
    ensures instance.Valid() && result.Valid() && result.itemCas == old(result.itemCas)
    ensures result.value.data == old(result.value.data) || fresh(result.value.data)
    ensures instance.buffer[..] == old(instance.buffer[..])
    ensures var b, n := old(instance.Pending()), extlen + keylen + (bodylen - extlen - keylen) % TWO32;
            && (ok ==> n <= |b|) && (allocates && n <= |b| ==> ok)
            && (ok ==> instance.pos == old(instance.pos) + n
                       && result.Filled()
                       && result.Read() == Message(result.itemCas, b[..extlen], b[extlen..extlen + keylen], b[extlen + keylen..n]))
  {
    ghost var b := instance.Pending();
    ok := ReadParts(instance, result, keylen, extlen);
    if !ok { return; }
    var left := (bodylen - extlen) % TWO32;
    left := (left - keylen) % TWO32;
    SubtractTwice(bodylen, extlen, keylen);
    ok := ReadValue(instance, result.value, left, allocates);
    if ok {
      SliceOfSuffix(b, extlen + keylen, 0, left);
    }
  }

  /** Reads extras and key. */
  method ReadParts(instance: Instance, result: Result, keylen: nat, extlen: nat) returns (ok: bool)
    requires instance.Valid() && result.Valid()
    requires extlen <= |instance.Pending()| ==> extlen <= MAX_KEY
    requires extlen + keylen <= |instance.Pending()| ==> keylen <= MAX_KEY
    requires instance.buffer != result.itemKey && instance.buffer != result.itemExtras
    modifies instance, result, result.itemKey, result.itemExtras
    ensures instance.Valid() && result.Valid() && result.itemCas == old(result.itemCas)
    ensures instance.buffer[..] == old(instance.buffer[..])
    ensures ok == (extlen + keylen <= |old(instance.Pending())|)
    ensures ok ==> var b := old(instance.Pending());
                   && result.extrasLength == extlen && result.itemExtras[..extlen] == b[..extlen]
                   && result.keyLength == keylen && result.itemKey[..keylen] == b[extlen..extlen + keylen]
                   && instance.Pending() == b[extlen + keylen..] && instance.pos == old(instance.pos) + extlen + keylen
  {
    ghost var b := instance.Pending();
    result.extrasLength := extlen;
    ok := instance.SafeRead(result.itemExtras, extlen);
    if !ok { return; }
    result.keyLength := keylen;
    ok := instance.SafeRead(result.itemKey, keylen);
    if !ok { return; }
    SliceOfSuffix(b, extlen, 0, keylen);
    assert b[extlen..][keylen..] == b[extlen + keylen..];
  }

  lemma SubtractTwice(a: nat, b: nat, c: nat)
    ensures ((a - b) % TWO32 - c) % TWO32 == (a - b - c) % TWO32
  {
    var q := (a - b) / TWO32;
    assert (a - b) % TWO32 - c == a - b - c - q * TWO32;
  }

  /** Reads the value into the string, after making room for it. */
  method ReadValue(instance: Instance, value: GrowableString, length: nat, allocates: bool) returns (ok: bool)
    requires instance.Valid() && value.Valid() && value.end == 0 && length < TWO32
    requires instance.buffer != value.data
    modifies instance, value, value.data
    ensures instance.Valid() && value.Valid() && (value.data == old(value.data) || fresh(value.data))
    ensures instance.buffer[..] == old(instance.buffer[..])
    ensures (ok ==> length <= |old(instance.Pending())|)
    ensures allocates && length <= |old(instance.Pending())| ==> ok
    ensures ok ==> instance.pos == old(instance.pos) + length && value.Contents() == old(instance.Pending())[..length]
  {
    ok := value.Check(length, allocates);
    if !ok { return; }
    ok := instance.SafeRead(value.data, length);
    if !ok { return; }
    value.SetLength(length);
  }

  // ---------------------------------------------------------------- serializer

  /** memcached_serialize_binary: writes the message if it fits the output, else nothing. */
  method SerializeBinary(opcode: byte, m: Message, opaqueField: nat, out: array<byte>)
    returns (ok: bool, bytesWritten: nat)
    modifies out
    ensures ok == (|Serialized(opcode, m, opaqueField)| <= out.Length)
    ensures ok ==> bytesWritten == |Serialized(opcode, m, opaqueField)|
                   && out[..bytesWritten] == Serialized(opcode, m, opaqueField)
                   && out[bytesWritten..] == old(out[bytesWritten..])
    ensures !ok ==> out[..] == old(out[..])
  {
    bytesWritten := 0;
    var request := Header(opcode, m, opaqueField);
    var sendLength := |request|;
    if out.Length < sendLength + |m.key| + |m.value| + |m.extras| { return false, 0; }
    CopyParts(out, request, m.extras, m.key, m.value);
    bytesWritten := sendLength + |m.key| + |m.value| + |m.extras|;
    ok := true;
  }

  /** The four copies, one behind the other. */
  method CopyParts(out: array<byte>, header: seq<byte>, extras: seq<byte>, key: seq<byte>, value: seq<byte>)
    requires |header| + |extras| + |key| + |value| <= out.Length
    modifies out
    ensures var n := |header| + |extras| + |key| + |value|;
            out[..n] == header + extras + key + value && out[n..] == old(out[n..])
  {
    Copy(out, 0, header);
    Copy(out, |header|, extras);
    Copy(out, |header| + |extras|, key);
    Copy(out, |header| + |extras| + |key|, value);
  }

  /** memcpy to an offset. */
  method Copy(out: array<byte>, at: nat, bytes: seq<byte>)
    requires at + |bytes| <= out.Length
    modifies out
    ensures out[..at + |bytes|] == old(out[..at]) + bytes
    ensures forall i :: at + |bytes| <= i < out.Length ==> out[i] == old(out[i])
  {
    forall i | 0 <= i < |bytes| { out[at + i] := bytes[i]; }
  }

  // ---------------------------------------------------------------- evaluator

  function Ramp(n: nat): (r: seq<byte>)
    ensures |r| == n && forall i :: 0 <= i < n ==> r[i] == i % 256
  {
    seq(n, i requires 0 <= i < n => i % 256)
  }

  /** The message of the evaluator's input buffer. */
  function SampleHeader(keyLen: nat, extrasLen: nat, totalLen: nat): (r: seq<byte>)
    ensures |r| == HEADER
  {
    [RES_MAGIC, 0x01] + BigEndian(keyLen, 2) + [extrasLen % 256, 0, 0, 0] + BigEndian(totalLen, 4)
    + [0, 0, 0, 0] + seq(8, _ => 0)
  }

  function Sample(keyLen: nat, extrasLen: nat, valueLen: nat): (r: seq<byte>)
    ensures |r| == HEADER + extrasLen + keyLen + valueLen
  {
    SampleHeader(keyLen, extrasLen, valueLen + extrasLen + keyLen) + Ramp(extrasLen) + Ramp(keyLen) + Ramp(valueLen)
  }

  lemma SampleFields(keyLen: nat, extrasLen: nat, totalLen: nat, rest: seq<byte>)
    requires keyLen < 65536 && extrasLen < 256
    ensures var s := SampleHeader(keyLen, extrasLen, totalLen) + rest;
            KeyLen(s) == keyLen && ExtLen(s) == extrasLen && BodyLen(s) == totalLen % TWO32 && Cas(s) == 0
  {
    SampleSlices(keyLen, extrasLen, totalLen, rest);
    BigEndianRoundTrip(keyLen, 2);
    BigEndianRoundTrip(totalLen, 4);
    ZeroBytes(8);
    PowerValues();
  }

  /** The sample by offset: a response to opcode 1 whose other fields are zero. */
  lemma SampleLayout(keyLen: nat, extrasLen: nat, valueLen: nat)
    ensures var s := Sample(keyLen, extrasLen, valueLen);
            && s[0] == 0x81 && s[1] == 0x01 && s[2] == keyLen / 256 % 256 && s[3] == keyLen % 256
            && s[4] == extrasLen % 256 && s[5..8] == [0, 0, 0] && forall i :: 12 <= i < 24 ==> s[i] == 0
  {
    var h := SampleHeader(keyLen, extrasLen, valueLen + extrasLen + keyLen);
    var s := Sample(keyLen, extrasLen, valueLen);
    Bytes2(keyLen);
    assert forall i :: 0 <= i < 24 ==> s[i] == h[i];
    assert s[5..8] == h[5..8] && h[5..8] == [0, 0, 0];
  }

  lemma SampleSlices(keyLen: nat, extrasLen: nat, totalLen: nat, rest: seq<byte>)
    requires keyLen < 65536 && extrasLen < 256
    ensures var s := SampleHeader(keyLen, extrasLen, totalLen) + rest;
            && s[2..4] == BigEndian(keyLen, 2) && s[4] == extrasLen && s[8..12] == BigEndian(totalLen, 4)
            && s[16..24] == seq(8, _ => 0)
  {
  }

  /** The input buffer parses to the sample message, taking all of it. */
  lemma SampleParses(keyLen: nat, extrasLen: nat, valueLen: nat, rest: seq<byte>)
    requires keyLen < 65536 && extrasLen < 256 && valueLen < TWO32
    ensures var s := Sample(keyLen, extrasLen, valueLen);
            Parse(s + rest) == Some((Message(0, Ramp(extrasLen), Ramp(keyLen), Ramp(valueLen)), |s|))
  {
    var m := Message(0, Ramp(extrasLen), Ramp(keyLen), Ramp(valueLen));
    var h := SampleHeader(keyLen, extrasLen, valueLen + extrasLen + keyLen);
    var tail := m.extras + m.key + m.value + rest;
    SampleFields(keyLen, extrasLen, valueLen + extrasLen + keyLen, tail);
    WrappedLength(keyLen, valueLen, extrasLen);
    assert valueLen + extrasLen + keyLen == keyLen + valueLen + extrasLen;
    ParseParts(h, m, rest);
    Behind(h, m.extras, m.key, m.value, rest);
  }

  lemma {:induction false} ZeroBytes(k: nat)
    ensures FromBigEndian(seq(k, _ => 0)) == 0
  {
    if k > 0 {
      assert seq(k, _ => 0)[..k - 1] == seq(k - 1, _ => 0);
      ZeroBytes(k - 1);
    }
  }

  /** fillInputBuffer. */
  method FillInputBuffer(inBuf: array<byte>, keyLen: nat, extrasLen: nat, valueLen: nat) returns (inBufLen: nat)
    requires HEADER + extrasLen + keyLen + valueLen <= inBuf.Length
    modifies inBuf
    ensures inBufLen == |Sample(keyLen, extrasLen, valueLen)|
    ensures inBuf[..inBufLen] == Sample(keyLen, extrasLen, valueLen)
  {
    FillHeader(inBuf, keyLen, extrasLen, valueLen + extrasLen + keyLen);
    var pos := HEADER - 1;
    pos := FillRamp(inBuf, pos, extrasLen);
    pos := FillRamp(inBuf, pos, keyLen);
    pos := FillRamp(inBuf, pos, valueLen);
    inBufLen := pos + 1;
  }

  /** The fixed-size fields. */
  method FillHeader(inBuf: array<byte>, keyLen: nat, extrasLen: nat, totalLen: nat)
    requires HEADER <= inBuf.Length
    modifies inBuf
    ensures inBuf[..HEADER] == SampleHeader(keyLen, extrasLen, totalLen)
  {
    BigEndianDigits(keyLen, totalLen);
    inBuf[0], inBuf[1] := RES_MAGIC, 0x01;
    inBuf[2], inBuf[3] := keyLen / 256 % 256, keyLen % 256;
    inBuf[4], inBuf[5], inBuf[6], inBuf[7] := extrasLen % 256, 0x00, 0x00, 0x00;
    inBuf[8], inBuf[9] := totalLen / 256 / 256 / 256 % 256, totalLen / 256 / 256 % 256;
    inBuf[10], inBuf[11] := totalLen / 256 % 256, totalLen % 256;
    ghost var fixed := inBuf[..12];
    assert fixed == [RES_MAGIC, 0x01] + BigEndian(keyLen, 2) + [extrasLen % 256, 0, 0, 0] + BigEndian(totalLen, 4);
    for i := 12 to 24
      invariant inBuf[..12] == fixed
      invariant forall k :: 12 <= k < i ==> inBuf[k] == 0
    {
      inBuf[i] := 0x00;
    }
    assert inBuf[12..24] == [0, 0, 0, 0] + seq(8, _ => 0);
    assert inBuf[..24] == inBuf[..12] + inBuf[12..24];
  }

  lemma BigEndianDigits(k: nat, n: nat)
    ensures BigEndian(k, 2) == [k / 256 % 256, k % 256]
    ensures BigEndian(n, 4) == [n / 256 / 256 / 256 % 256, n / 256 / 256 % 256, n / 256 % 256, n % 256]
  {
    assert BigEndian(n / 256 / 256, 2) == [n / 256 / 256 / 256 % 256, n / 256 / 256 % 256];
  }

  /** A variable-size field: n bytes behind pos. */
  method FillRamp(inBuf: array<byte>, pos: nat, n: nat) returns (pos': nat)
    requires pos + 1 + n <= inBuf.Length
    modifies inBuf
    ensures pos' == pos + n
    ensures inBuf[..pos' + 1] == old(inBuf[..pos + 1]) + Ramp(n)
  {
    pos' := pos;
    for i := 0 to n
      invariant pos' == pos + i
      invariant inBuf[..pos + 1] == old(inBuf[..pos + 1])
      invariant forall k :: 0 <= k < i ==> inBuf[pos + 1 + k] == k % 256
    {
      pos' := pos' + 1;
      inBuf[pos'] := i % 256;
    }
    assert inBuf[pos + 1..pos + 1 + n] == Ramp(n);
    assert inBuf[..pos + 1 + n] == inBuf[..pos + 1] + inBuf[pos + 1..pos + 1 + n];
  }

  lemma PrefixInside(s: seq<byte>, k: nat)
    requires Parse(s).Some? && StaysInside(s) && k <= |s|
    ensures StaysInside(s[..k])
  {
    LeavesExactly(s);
    LeavesExactly(s[..k]);
    if k >= HEADER { SameHeader(s, s[..k]); }
  }

  /** The incremental loop of runLibmemcachedExperiments: 64 more bytes are offered until a response can
      be read. It takes exactly as many attempts as the message has started blocks of 64 bytes. */
  method ReadIncrementally(memc: Instance, result: Result, ghost n: nat) returns (attempts: nat)
    requires result.Valid() && memc.buffer != result.value.data && memc.buffer != result.itemKey
    requires memc.buffer != result.itemExtras
    requires Parse(memc.buffer[..]).Some? && n == Parse(memc.buffer[..]).value.1
    requires StaysInside(memc.buffer[..])
    requires (n + 63) / 64 * 64 <= memc.buffer.Length
    modifies memc, result, result.value, result.value.data, result.itemKey, result.itemExtras
    ensures attempts == (n + 63) / 64
    ensures memc.Valid() && memc.pos == n
    ensures result.Valid() && result.Filled() && result.Read() == old(Parse(memc.buffer[..]).value.0)
  {
    ghost var s := memc.buffer[..];
    var length := 0;
    var res := false;
    attempts := 0;
    while !res
      invariant length == 64 * attempts && (if res then attempts == (n + 63) / 64 else length < n)
      invariant memc.buffer[..] == s && result.Valid()
      invariant result.value.data == old(result.value.data) || fresh(result.value.data)
      invariant res ==> memc.Valid() && memc.pos == n && result.Filled() && result.Read() == Parse(s).value.0
      decreases !res, n - length
    {
      length := length + 64;
      attempts := attempts + 1;
      assert attempts <= (n + 63) / 64;
      memc.pos, memc.length := 0, length;
      ParsePrefix(s, length, []);
      assert memc.Pending() == s[..length];
      PrefixInside(s, length);
      res := ReadOneResponse(memc, result, true);
    }
  }
}
