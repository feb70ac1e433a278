/** A memcached server connection: reading request headers into a buffer that grows and is repacked,
    and queueing response bytes as scatter/gather fragments in messages of limited size. */
module MemcachedConn {
  import opened Utf8
  import opened MemcachedCodec
  import opened Sequences
  import opened Wrappers

  const UDP_MAX_PAYLOAD_SIZE: nat := 1400

  const CMD_GET: byte := 0x00
  const CMD_SET: byte := 0x01
  const CMD_ADD: byte := 0x02
  const CMD_REPLACE: byte := 0x03
  const CMD_DELETE: byte := 0x04
  const CMD_INCREMENT: byte := 0x05
  const CMD_DECREMENT: byte := 0x06
  const CMD_GETQ: byte := 0x09
  const CMD_GETK: byte := 0x0c
  const CMD_GETKQ: byte := 0x0d
  const CMD_APPEND: byte := 0x0e
  const CMD_PREPEND: byte := 0x0f

  /** A message: its slice of the fragment list. */
  datatype Msg = Msg(start: nat, iovlen: nat)

  function Flatten(fs: seq<seq<byte>>): seq<byte> {
    if fs == [] then [] else Flatten(fs[..|fs| - 1]) + fs[|fs| - 1]
  }

  lemma FlattenOne(a: seq<seq<byte>>, f: seq<byte>)
    ensures Flatten(a + [f]) == Flatten(a) + f
  {
    assert (a + [f])[..|a|] == a;
  }

  /** Which messages are limited to the payload of a datagram: all on UDP, else the first. */
  predicate Limited(udp: bool, i: nat) { udp || i == 0 }

  type Fragments = seq<seq<byte>>

  function Bytes(m: Fragments): nat { |Flatten(m)| }

  /** The fragments of a message. */
  function MessageOf(iov: Fragments, m: Msg): Fragments
    requires m.start + m.iovlen <= |iov|
  {
    iov[m.start..m.start + m.iovlen]
  }

  /** Neither too many fragments nor, if limited, too many bytes; one of the two bounds is met unless the
      message is still open. */
  ghost predicate Good(iov: Fragments, m: Msg, limited: bool, iovMax: nat, open: bool) {
    && m.start + m.iovlen <= |iov| && m.iovlen <= iovMax
    && (limited ==> Bytes(MessageOf(iov, m)) <= UDP_MAX_PAYLOAD_SIZE)
    && (open || m.iovlen == iovMax || (limited && Bytes(MessageOf(iov, m)) == UDP_MAX_PAYLOAD_SIZE))
  }

  /** The messages are consecutive slices of the fragment list, from its start to its end. */
  ghost predicate Sliced(iov: Fragments, msglist: seq<Msg>) {
    && (if msglist == [] then iov == [] else msglist[0].start == 0)
    && forall i :: 0 <= i < |msglist| ==> EndsAtNext(iov, msglist, i)
  }

  predicate EndsAtNext(iov: Fragments, msglist: seq<Msg>, i: nat)
    requires i < |msglist|
  {
    msglist[i].start + msglist[i].iovlen == if i + 1 < |msglist| then msglist[i + 1].start else |iov|
  }

  lemma GoodKept(iov: Fragments, m: Msg, limited: bool, iovMax: nat, open: bool, f: seq<byte>)
    requires Good(iov, m, limited, iovMax, open)
    ensures Good(iov + [f], m, limited, iovMax, open)
  {
    assert MessageOf(iov + [f], m) == MessageOf(iov, m);
  }

  lemma GoodGrown(iov: Fragments, m: Msg, limited: bool, iovMax: nat, f: seq<byte>)
    requires m.start + m.iovlen == |iov| && m.iovlen < iovMax
    requires limited ==> Bytes(MessageOf(iov, m)) + |f| <= UDP_MAX_PAYLOAD_SIZE
    ensures Good(iov + [f], Msg(m.start, m.iovlen + 1), limited, iovMax, true)
    ensures Bytes(MessageOf(iov + [f], Msg(m.start, m.iovlen + 1))) == Bytes(MessageOf(iov, m)) + |f|
  {
    assert MessageOf(iov + [f], Msg(m.start, m.iovlen + 1)) == MessageOf(iov, m) + [f];
    FlattenOne(MessageOf(iov, m), f);
  }

  ghost predicate AllGood(iov: Fragments, msglist: seq<Msg>, udp: bool, iovMax: nat) {
    forall i :: 0 <= i < |msglist| ==> Good(iov, msglist[i], Limited(udp, i), iovMax, i == |msglist| - 1)
  }

  lemma AllGoodGrown(iov: Fragments, msglist: seq<Msg>, udp: bool, iovMax: nat, f: seq<byte>)
    requires AllGood(iov, msglist, udp, iovMax) && msglist != []
    requires var m := msglist[|msglist| - 1];
             && m.start + m.iovlen == |iov| && m.iovlen < iovMax
             && (Limited(udp, |msglist| - 1) ==> Bytes(MessageOf(iov, m)) + |f| <= UDP_MAX_PAYLOAD_SIZE)
    ensures var n := |msglist| - 1;
            var grown := Msg(msglist[n].start, msglist[n].iovlen + 1);
            && AllGood(iov + [f], msglist[n := grown], udp, iovMax)
            && Bytes(MessageOf(iov + [f], grown)) == Bytes(MessageOf(iov, msglist[n])) + |f|
  {
    var n := |msglist| - 1;
    GoodGrown(iov, msglist[n], Limited(udp, n), iovMax, f);
    forall i | 0 <= i < n
      ensures Good(iov + [f], msglist[i], Limited(udp, i), iovMax, false)
    {
      GoodKept(iov, msglist[i], Limited(udp, i), iovMax, false, f);
    }
  }

  /** A message can be started when the one before is full. */
  lemma NewMessage(iov: Fragments, msglist: seq<Msg>, udp: bool, iovMax: nat)
    requires Sliced(iov, msglist) && AllGood(iov, msglist, udp, iovMax)
    requires var n := |msglist| - 1;
             n >= 0 ==> Good(iov, msglist[n], Limited(udp, n), iovMax, false)
    ensures var next := msglist + [Msg(|iov|, 0)];
            Sliced(iov, next) && AllGood(iov, next, udp, iovMax) && Bytes(MessageOf(iov, Msg(|iov|, 0))) == 0
  {
    assert MessageOf(iov, Msg(|iov|, 0)) == [];
    var next := msglist + [Msg(|iov|, 0)];
    forall i | 0 <= i < |next|
      ensures EndsAtNext(iov, next, i)
    {
      assert i < |msglist| ==> EndsAtNext(iov, msglist, i);
    }
  }

  /** A fragment belongs to the last message. */
  lemma SlicedGrown(iov: Fragments, msglist: seq<Msg>, f: seq<byte>)
    requires Sliced(iov, msglist) && msglist != []
    ensures var n := |msglist| - 1;
            && msglist[n].start + msglist[n].iovlen == |iov|
            && Sliced(iov + [f], msglist[n := Msg(msglist[n].start, msglist[n].iovlen + 1)])
  {
    var n := |msglist| - 1;
    assert EndsAtNext(iov, msglist, n);
    var grown := msglist[n := Msg(msglist[n].start, msglist[n].iovlen + 1)];
    forall i | 0 <= i < |grown|
      ensures EndsAtNext(iov + [f], grown, i)
    {
      assert EndsAtNext(iov, msglist, i);
    }
  }

  /** The messages put one behind the other. */
  function AllMessages(iov: Fragments, msglist: seq<Msg>): Fragments
    requires forall m :: m in msglist ==> m.start + m.iovlen <= |iov|
  {
    if msglist == [] then []
    else AllMessages(iov, msglist[..|msglist| - 1]) + MessageOf(iov, msglist[|msglist| - 1])
  }

  lemma {:induction false} MessagesUpTo(iov: Fragments, msglist: seq<Msg>, k: nat)
    requires Sliced(iov, msglist) && k <= |msglist|
    requires forall m :: m in msglist ==> m.start + m.iovlen <= |iov|
    ensures AllMessages(iov, msglist[..k]) == iov[..if k < |msglist| then msglist[k].start else |iov|]
  {
    if k > 0 {
      MessagesUpTo(iov, msglist, k - 1);
      assert EndsAtNext(iov, msglist, k - 1);
      var m := msglist[k - 1];
      assert msglist[..k][..k - 1] == msglist[..k - 1] && msglist[..k][k - 1] == m;
      assert iov[..m.start] + MessageOf(iov, m) == iov[..m.start + m.iovlen];
    }
  }

  /** Together the messages are the whole fragment list, each fragment once and in order. */
  lemma MessagesCover(iov: Fragments, msglist: seq<Msg>)
    requires Sliced(iov, msglist) && forall m :: m in msglist ==> m.start + m.iovlen <= |iov|
    ensures AllMessages(iov, msglist) == iov
  {
    MessagesUpTo(iov, msglist, |msglist|);
    assert msglist[..|msglist|] == msglist;
    assert iov[..|iov|] == iov;
  }

  /** The fragments queued for writing; stream is all their bytes in order. */
  class WriteQueue {
    const udp: bool
    const iovMax: nat
    /** ensure_iov_space succeeds as long as fewer fragments than this are in use. */
    const iovLimit: nat
    var iov: Fragments
    var msglist: seq<Msg>
    var msgsize: nat
    var msgbytes: nat
    ghost var stream: seq<byte>

    ghost predicate Valid()
      reads this
    {
      && iovMax > 0 && 0 < msgsize && |msglist| <= msgsize
      && stream == Flatten(iov) && Sliced(iov, msglist)
      && AllGood(iov, msglist, udp, iovMax)
      && (msglist != [] ==> msgbytes == Bytes(MessageOf(iov, msglist[|msglist| - 1])))
    }

    constructor (udp: bool, iovMax: nat, iovLimit: nat, msgsize: nat)
      requires iovMax > 0 && msgsize > 0
      ensures Valid() && stream == [] && msglist == []
      ensures this.udp == udp && this.iovMax == iovMax && this.iovLimit == iovLimit
    {
      this.udp, this.iovMax, this.iovLimit, this.msgsize := udp, iovMax, iovLimit, msgsize;
      iov, msglist, msgbytes, stream := [], [], 0, [];
    }

    /** msgused and iovused set to zero. */
    method Clear()
      requires Valid()
      modifies this
      ensures Valid() && stream == [] && msglist == []
    {
      iov, msglist, stream := [], [], [];
    }

    /** add_msghdr: starts a message; a previous one must be full. It fails only if the list must grow and
        the allocator refuses, and then changes nothing. */
    method AddMsghdr(allocates: bool) returns (result: int)
      requires Valid()
      requires var n := |msglist| - 1;
               n >= 0 ==> Good(iov, msglist[n], Limited(udp, n), iovMax, false)
      modifies this
      ensures Valid() && iov == old(iov) && stream == old(stream)
      ensures result == if old(msgsize) == |old(msglist)| && !allocates then -1 else 0
      ensures result == 0 ==> msgbytes == 0 && msglist == old(msglist) + [Msg(|iov|, 0)]
      ensures result != 0 ==> msgbytes == old(msgbytes) && msglist == old(msglist) && msgsize == old(msgsize)
    {
      if msgsize == |msglist| {
        if !allocates { return -1; }
        msgsize := msgsize * 2;
      }
      NewMessage(iov, msglist, udp, iovMax);
      msglist := msglist + [Msg(|iov|, 0)];
      msgbytes := 0;
      return 0;
    }

    /** The list starts over with one empty message, for which no allocation is needed. */
    method Restart(allocates: bool)
      requires Valid()
      modifies this
      ensures Valid() && stream == [] && msglist == [Msg(0, 0)]
    {
      Clear();
      var started := AddMsghdr(allocates);
      assert started == 0;
    }

    /** Stores a fragment in the slot behind the last one and counts it in the last message. */
    method AddFragment(f: seq<byte>)
      requires Valid() && msglist != [] && msglist[|msglist| - 1].iovlen < iovMax
      requires Limited(udp, |msglist| - 1) ==> msgbytes + |f| <= UDP_MAX_PAYLOAD_SIZE
      modifies this
      ensures Valid() && iov == old(iov) + [f] && |msglist| == |old(msglist)|
      ensures msgbytes == old(msgbytes) + |f| && stream == old(stream) + f
    {
      var n := |msglist| - 1;
      var m := msglist[n];
      SlicedGrown(iov, msglist, f);
      AllGoodGrown(iov, msglist, udp, iovMax, f);
      FlattenOne(iov, f);
      iov, stream := iov + [f], stream + f;
      msgbytes := msgbytes + |f|;
      msglist := msglist[n := Msg(m.start, m.iovlen + 1)];
    }

    /** Starts a message if the last one is full. */
    method StartIfFull(limitToMtu: bool)
      requires Valid() && msglist != [] && limitToMtu == Limited(udp, |msglist| - 1)
      modifies this
      ensures Valid() && iov == old(iov) && stream == old(stream) && msglist != []
      ensures msglist[|msglist| - 1].iovlen < iovMax
      ensures limitToMtu ==> msgbytes < UDP_MAX_PAYLOAD_SIZE
      ensures Limited(udp, |msglist| - 1) ==> limitToMtu
    {
      if msglist[|msglist| - 1].iovlen == iovMax || (limitToMtu && msgbytes >= UDP_MAX_PAYLOAD_SIZE) {
        var _ := AddMsghdr(true);
      }
    }

    /** add_iov: appends buf to the queue, cut where a message is full. Without space for another
        fragment it stops early and reports it. */
    method AddIov(buf: seq<byte>) returns (result: int, ghost queued: nat)
      requires Valid() && msglist != []
      modifies this
      ensures Valid() && msglist != [] && old(iov) <= iov
      ensures queued <= |buf| && stream == old(stream) + buf[..queued]
      ensures if result == 0 then queued == |buf| else result == -1 && |iov| >= iovLimit
    {
      ghost var before, sent := iov, stream;
      var at, len, leftover := 0, |buf|, 1;
      while leftover > 0
        invariant Valid() && before <= iov && msglist != []
        invariant 0 <= at && 0 <= len && at + len == |buf|
        invariant stream == sent + buf[..at]
        invariant leftover > 0 || len == 0
        decreases leftover > 0, len
      {
        var ok;
        ok, leftover := AddPiece(buf[at..]);
        if !ok { return -1, at; }
        TakeMore(sent, buf, at, |buf| - leftover);
        at := |buf| - leftover;
        len := leftover;
      }
      return 0, at;
    }

    /** One round: as much of buf as the message takes, and how much is left over. */
    method AddPiece(buf: seq<byte>) returns (ok: bool, leftover: nat)
      requires Valid() && msglist != []
      modifies this
      ensures Valid() && msglist != [] && old(iov) <= iov
      ensures if ok then leftover <= |buf| && stream == old(stream) + buf[..|buf| - leftover]
              else |iov| >= iovLimit && stream == old(stream)
      ensures ok && leftover > 0 ==> leftover < |buf|
    {
      var len := |buf|;
      var limitToMtu := udp || |msglist| == 1;
      StartIfFull(limitToMtu);
      if |iov| >= iovLimit { return false, 0; }
      if limitToMtu && len + msgbytes > UDP_MAX_PAYLOAD_SIZE {
        leftover := len + msgbytes - UDP_MAX_PAYLOAD_SIZE;
        len := len - leftover;
      } else {
        leftover := 0;
      }
      AddFragment(buf[..len]);
      ok := true;
    }
  }

  // ---------------------------------------------------------------- responses

  /** The 24 bytes that add_bin_header composes. The opaque field is sent back as it came. */
  function ResponseHeader(opcode: byte, err: nat, hdrLen: nat, keyLen: nat, bodyLen: nat, token: seq<byte>, cas: nat): (r: seq<byte>)
    requires |token| == 4
    ensures |r| == HEADER
  {
    [RES_MAGIC, opcode] + BigEndian(keyLen, 2) + [hdrLen % 256, 0] + BigEndian(err, 2) + BigEndian(bodyLen, 4)
    + token + BigEndian(cas, 8)
  }

  datatype ConnState = Mwrite | NewCmd

  /** write_bin_response: header and data are queued in fresh messages, unless the client wants no reply and
      the command is not one that always has one. The results of add_iov are not looked at; queued tells
      whether both calls found space. */
  method WriteBinResponse(q: WriteQueue, noreply: bool, cmd: byte, opcode: byte, token: seq<byte>, cas: nat,
                          d: seq<byte>, hlen: nat, keylen: nat, allocates: bool)
    returns (state: ConnState, ghost queued: bool)
    requires q.Valid() && |token| == 4
    modifies q
    ensures q.Valid() && (state.NewCmd? <==> noreply && cmd != CMD_GET && cmd != CMD_GETK)
    ensures state.NewCmd? ==> q.stream == old(q.stream) && q.iov == old(q.iov) && q.msglist == old(q.msglist)
    ensures state.Mwrite? && queued ==> q.stream == ResponseHeader(opcode, 0, hlen, keylen, |d|, token, cas) + d
    ensures state.Mwrite? && !queued ==> |q.iov| >= q.iovLimit
  {
    queued := false;
    if noreply && cmd != CMD_GET && cmd != CMD_GETK { return NewCmd, false; }
    queued := QueueResponse(q, ResponseHeader(opcode, 0, hlen, keylen, |d|, token, cas), d, allocates);
    state := Mwrite;
  }

  method QueueResponse(q: WriteQueue, header: seq<byte>, d: seq<byte>, allocates: bool) returns (ghost queued: bool)
    requires q.Valid()
    modifies q
    ensures q.Valid()
    ensures if queued then q.stream == header + d else |q.iov| >= q.iovLimit
  {
    q.Restart(allocates);
    var r, n := q.AddIov(header);
    queued := r == 0;
    assert header[..|header|] == header;
    if |d| > 0 {
      r, n := q.AddIov(d);
      queued := queued && r == 0;
      assert d[..|d|] == d;
    }
  }

  /** What the server queues, in however many messages, the client's parser reads back: the extras, the
      key and the value are the three parts of the data. */
  lemma ResponseParses(opcode: byte, err: nat, token: seq<byte>, cas: nat, d: seq<byte>, hlen: nat, keylen: nat, rest: seq<byte>)
    requires |token| == 4 && cas < TWO64 && hlen < 256 && keylen < 65536 && hlen + keylen <= |d| < TWO32
    ensures Parse(ResponseHeader(opcode, err, hlen, keylen, |d|, token, cas) + d + rest)
            == Some((Message(cas, d[..hlen], d[hlen..hlen + keylen], d[hlen + keylen..]), HEADER + |d|))
  {
    var h := ResponseHeader(opcode, err, hlen, keylen, |d|, token, cas);
    var m := Message(cas, d[..hlen], d[hlen..hlen + keylen], d[hlen + keylen..]);
    var s := h + (m.extras + m.key + m.value + rest);
    assert m.extras + m.key + m.value == d;
    assert h + d + rest == s;
    ResponseFields(opcode, err, token, cas, |d|, hlen, keylen, m.extras + m.key + m.value + rest);
    ParseParts(h, m, rest);
  }

  lemma ResponseFields(opcode: byte, err: nat, token: seq<byte>, cas: nat, bodyLen: nat, hlen: nat, keylen: nat, rest: seq<byte>)
    requires |token| == 4 && cas < TWO64 && hlen < 256 && keylen < 65536 && bodyLen < TWO32
    ensures var s := ResponseHeader(opcode, err, hlen, keylen, bodyLen, token, cas) + rest;
            KeyLen(s) == keylen && ExtLen(s) == hlen && BodyLen(s) == bodyLen && Cas(s) == cas
  {
    var s := ResponseHeader(opcode, err, hlen, keylen, bodyLen, token, cas) + rest;
    assert s[2..4] == BigEndian(keylen, 2);
    assert s[8..12] == BigEndian(bodyLen, 4);
    assert s[16..24] == BigEndian(cas, 8);
    BigEndianRoundTrip(keylen, 2);
    BigEndianRoundTrip(bodyLen, 4);
    BigEndianRoundTrip(cas, 8);
    PowerValues();
  }

  /** A response by offset: magic 0x81, the opcode, the lengths, the status and the request's opaque field. */
  lemma ResponseLayout(opcode: byte, err: nat, hdrLen: nat, keyLen: nat, bodyLen: nat, token: seq<byte>, cas: nat)
    requires |token| == 4
    ensures var h := ResponseHeader(opcode, err, hdrLen, keyLen, bodyLen, token, cas);
            && h[0] == 0x81 && h[1] == opcode && h[2] == keyLen / 256 % 256 && h[3] == keyLen % 256
            && h[4] == hdrLen % 256 && h[5] == 0 && h[6] == err / 256 % 256 && h[7] == err % 256
            && h[8..12] == [bodyLen / 0x1000000 % 256, bodyLen / 0x10000 % 256, bodyLen / 0x100 % 256, bodyLen % 256]
            && h[12..16] == token && h[16..24] == BigEndian(cas, 8)
  {
    Bytes2(keyLen);
    Bytes2(err);
    Bytes4(bodyLen);
  }

  lemma TakeMore(a: seq<byte>, s: seq<byte>, i: nat, j: nat)
    requires i <= j <= |s|
    ensures a + s[..i] + s[i..j] == a + s[..j]
  {
  }

  // ---------------------------------------------------------------- requests

  /** How many bytes of extras a well-formed request has before its key; None for a request that is
      dropped. */
  function ExtrasToRead(cmd: byte, extlen: nat, keylen: nat, bodylen: nat): Option<nat> {
    if cmd == CMD_SET || cmd == CMD_ADD || cmd == CMD_REPLACE then
      if extlen == 8 && keylen != 0 && bodylen >= keylen + 8 then Some(8) else None
    else if cmd == CMD_GETQ || cmd == CMD_GET || cmd == CMD_GETKQ || cmd == CMD_GETK then
      if extlen == 0 && bodylen == keylen && keylen > 0 then Some(0) else None
    else if cmd == CMD_DELETE then
      if keylen > 0 && extlen == 0 && bodylen == keylen then Some(0) else None
    else if cmd == CMD_INCREMENT || cmd == CMD_DECREMENT then
      if keylen > 0 && extlen == 20 && bodylen == keylen + extlen then Some(20) else None
    else if cmd == CMD_APPEND || cmd == CMD_PREPEND then
      if keylen > 0 && extlen == 0 then Some(0) else None
    else None
  }

  /** The requests of the protocol by what they carry: set, add and replace have eight bytes of extras,
      increment and decrement twenty, the others none; only the storage commands have a value; every
      request has a key. The total of a set must fit its length field. */
  predicate WellFormed(opcode: byte, m: Message) {
    && m.key != []
    && opcode in [0x00, 0x01, 0x02, 0x03, 0x04, 0x05, 0x06, 0x09, 0x0c, 0x0d, 0x0e, 0x0f]
    && |m.extras| == (if opcode in [0x01, 0x02, 0x03] then 8 else if opcode in [0x05, 0x06] then 20 else 0)
    && (opcode !in [0x01, 0x02, 0x03, 0x0e, 0x0f] ==> m.value == [])
    && (opcode in [0x01, 0x02, 0x03] ==> |m.key| + |m.value| + |m.extras| < 0x1_0000_0000)
  }

  /** The lengths of a fitting message lead to reading its extras if and only if it is well-formed. */
  lemma ExtrasOfLengths(opcode: byte, m: Message)
    requires Fits(m)
    ensures ExtrasToRead(opcode, |m.extras|, |m.key|, (|m.key| + |m.value| + |m.extras|) % 0x1_0000_0000)
            == if WellFormed(opcode, m) then Some(|m.extras|) else None
  {
    var total := |m.key| + |m.value| + |m.extras|;
    assert total % 0x1_0000_0000 == if total < 0x1_0000_0000 then total else total - 0x1_0000_0000;
    assert |m.key| > 0 <==> m.key != [];
    assert |m.value| == 0 <==> m.value == [];
  }

  /** What the server makes of its unparsed bytes: not yet a header, a wrong magic byte, a request that is
      dropped, or one whose extras and key, n bytes, are to be read. */
  datatype Command = Incomplete | Refused | Dropped(opcode: byte) | Reading(opcode: byte, n: nat)

  function CommandOf(s: seq<byte>): Command {
    if |s| < HEADER then Incomplete
    else if s[0] != REQ_MAGIC then Refused
    else
      match ExtrasToRead(s[1], ExtLen(s), KeyLen(s), BodyLen(s))
      case Some(extra) => Reading(s[1], KeyLen(s) + extra)
      case None => Dropped(s[1])
  }

  /** The server takes what the client serializes: it sees the opcode, and of a well-formed request it will
      read the extras and the key, which come next. */
  lemma RequestTaken(opcode: byte, m: Message, opaqueField: nat, rest: seq<byte>)
    requires Fits(m)
    ensures var s := Serialized(opcode, m, opaqueField) + rest;
            && CommandOf(s) == (if WellFormed(opcode, m) then Reading(opcode, |m.extras| + |m.key|) else Dropped(opcode))
            && |s| >= 24 + |m.extras| + |m.key| && s[24..24 + |m.extras| + |m.key|] == m.extras + m.key
  {
    var h, tail := Header(opcode, m, opaqueField), m.extras + m.key + m.value + rest;
    Behind(h, m.extras, m.key, m.value, rest);
    HeaderLayout(opcode, m, opaqueField);
    HeaderFields(opcode, m, opaqueField, tail);
    CommandOfFields(h + tail, opcode, m);
    Associative(m.extras + m.key, m.value, rest);
    Associative(h, m.extras + m.key, m.value + rest);
    Between(h, m.extras + m.key, m.value + rest);
  }

  lemma CommandOfFields(s: seq<byte>, opcode: byte, m: Message)
    requires |s| >= HEADER && s[0] == 0x80 && s[1] == opcode && Fits(m)
    requires KeyLen(s) == |m.key| % 65536 && ExtLen(s) == |m.extras| % 256
    requires BodyLen(s) == (|m.key| + |m.value| + |m.extras| % 256) % TWO32
    ensures CommandOf(s) == if WellFormed(opcode, m) then Reading(opcode, |m.extras| + |m.key|) else Dropped(opcode)
  {
    ExtrasOfLengths(opcode, m);
  }

  lemma Between(a: seq<byte>, b: seq<byte>, c: seq<byte>)
    ensures (a + b + c)[|a|..|a| + |b|] == b
  {
  }

  /** The reading side of a connection: rbytes unparsed bytes at rcurr, and where the next rlbytes
      bytes of the current request will be. */
  class ReadBuffer {
    var rbuf: array<byte>
    var rcurr: nat
    var rbytes: nat
    var ritem: nat
    var rlbytes: nat

    constructor (size: nat)
      requires size > 0
      ensures Valid() && fresh(rbuf) && rbuf.Length == size && Pending() == []
    {
      rbuf := new byte[size];
      rcurr, rbytes, ritem, rlbytes := 0, 0, 0, 0;
    }

    ghost predicate Valid()
      reads this
    {
      rbuf.Length > 0 && rcurr + rbytes <= rbuf.Length
    }

    ghost function Pending(): seq<byte>
      requires Valid()
      reads this, rbuf
    {
      rbuf[rcurr..rcurr + rbytes]
    }

    /** bin_read_key: makes room behind the header for the extras and the key, growing the buffer by
        doubling and moving the unparsed bytes to its front if need be. */
    method BinReadKey(keylen: nat, extra: nat)
      requires Valid() && rbytes >= HEADER
      modifies this, rbuf
      ensures Valid() && Pending() == old(Pending())
      ensures rbuf == old(rbuf) || fresh(rbuf)
      ensures rlbytes == keylen + extra && ritem == rcurr + HEADER
      ensures ritem + rlbytes <= rbuf.Length
      ensures old(rcurr) + HEADER + rlbytes <= old(rbuf.Length) ==> rbuf == old(rbuf) && rcurr == old(rcurr)
    {
      rlbytes := keylen + extra;
      var offset := rcurr + HEADER;
      if rlbytes > rbuf.Length - offset {
        var nsize := rbuf.Length;
        var size := rlbytes + HEADER;
        while size > nsize
          invariant 0 < nsize && rbuf.Length <= nsize
          decreases size - nsize
        {
          nsize := nsize * 2;
        }
        if nsize != rbuf.Length {
          Grow(nsize);
        }
        if rcurr != 0 {
          Repack();
        }
      }
      ritem := rcurr + HEADER;
    }

    /** The reallocation: unparsed bytes stay at the same offset. */
    method Grow(nsize: nat)
      requires Valid() && rbuf.Length <= nsize
      modifies this`rbuf
      ensures Valid() && fresh(rbuf) && rbuf.Length == nsize && Pending() == old(Pending())
    {
      var newm := new byte[nsize];
      forall i | 0 <= i < rbuf.Length { newm[i] := rbuf[i]; }
      rbuf := newm;
    }

    /** memmove of the unparsed bytes to the front of the buffer. */
    method Repack()
      requires Valid()
      modifies this`rcurr, rbuf
      ensures Valid() && rcurr == 0 && Pending() == old(Pending())
    {
      forall i | 0 <= i < rbytes { rbuf[i] := rbuf[rcurr + i]; }
      rcurr := 0;
    }

    /** dispatch_bin_command: an acceptable request has its extras and key read next, any other one
        leaves the connection as it is. */
    method DispatchBinCommand(cmd: byte, extlen: nat, keylen: nat, bodylen: nat)
      requires Valid() && rbytes >= HEADER
      modifies this, rbuf
      ensures Valid() && Pending() == old(Pending()) && (rbuf == old(rbuf) || fresh(rbuf))
      ensures match ExtrasToRead(cmd, extlen, keylen, bodylen)
              case Some(extra) =>
                ritem == rcurr + HEADER && rlbytes == keylen + extra && ritem + rlbytes <= rbuf.Length
              case None => ritem == old(ritem) && rlbytes == old(rlbytes)
    {
      var extra := ExtrasToRead(cmd, extlen, keylen, bodylen);
      if extra.Some? {
        BinReadKey(keylen, extra.value);
      }
    }

    /** try_read_command. 0 asks for more data, 1 means that a header was taken, -1 that the magic byte
        was wrong, where the server gives up. With the header, the queue starts over with one message. */
    method TryReadCommand(q: WriteQueue, allocates: bool) returns (result: int)
      requires Valid() && rbytes > 0 && q.Valid()
      modifies this, rbuf, q
      ensures q.Valid() && if result == 1 then q.stream == [] && q.msglist == [Msg(0, 0)]
                           else q.stream == old(q.stream) && q.msglist == old(q.msglist)
      ensures Valid() && (rbuf == old(rbuf) || fresh(rbuf))
      ensures var s, c := old(Pending()), CommandOf(old(Pending()));
              && result == (match c case Incomplete => 0 case Refused => -1 case _ => 1)
              && Pending() == (if result == 1 then s[HEADER..] else s)
              && (result == 1 ==> rcurr >= HEADER && rbuf[rcurr - HEADER..rcurr] == s[..HEADER])
              && if c.Reading? then ritem == rcurr && rlbytes == c.n && rcurr + rlbytes <= rbuf.Length
                 else ritem == old(ritem) && rlbytes == old(rlbytes)
    {
      if rbytes < HEADER { return 0; }
      ghost var s := Pending();
      var req := rbuf[rcurr..rcurr + HEADER];
      assert req == s[..HEADER];
      SameHeader(req, s);
      if req[0] != REQ_MAGIC { return -1; }
      q.Restart(allocates);
      var extlen, keylen, bodylen := ExtLen(req), KeyLen(req), BodyLen(req);
      DispatchBinCommand(req[1], extlen, keylen, bodylen);
      Consume(s);
      return 1;
    }

    /** The header is done with, but stays in the buffer. */
    method Consume(ghost s: seq<byte>)
      requires Valid() && rbytes >= HEADER && s == Pending()
      modifies this`rcurr, this`rbytes
      ensures Valid() && rcurr == old(rcurr) + HEADER && Pending() == s[HEADER..]
      ensures rbuf[rcurr - HEADER..rcurr] == s[..HEADER]
    {
      rbytes := rbytes - HEADER;
      rcurr := rcurr + HEADER;
    }
  }
}
