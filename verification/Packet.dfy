/** SSTP packets (sstp-packet.c, sstp-buff.h; section 2.2 of [MS-SSTP]): a header of version, flags and
    length, then either data or a control message with attributes, built in place in a buffer. */
module Packet {
  import opened Bytes
  import opened Common

  const SSTP_PROTO_VER: byte := 0x10
  const SSTP_MSG_FLAG_CTRL: byte := 0x01
  const HEADER_SIZE: nat := 4
  const CTRL_SIZE: nat := 4
  const ATTR_SIZE: nat := 4

  const SSTP_MSG_DATA: uint16 := 0x0000
  const SSTP_MSG_CONNECT_REQ: uint16 := 0x0001
  const SSTP_MSG_CONNECT_ACK: uint16 := 0x0002
  const SSTP_MSG_CONNECT_NAK: uint16 := 0x0003
  const SSTP_MSG_CONNECTED: uint16 := 0x0004
  const SSTP_MSG_ABORT: uint16 := 0x0005
  const SSTP_MSG_DISCONNECT: uint16 := 0x0006
  const SSTP_MSG_DISCONNECT_ACK: uint16 := 0x0007
  const SSTP_ECHO_REQUEST: uint16 := 0x0008
  const SSTP_ECHO_REPLY: uint16 := 0x0009

  /** The packet buffer: `len` octets filled, `off` of them read or written, room for `max`. */
  class Buff {
    const data: array<byte>
    var len: nat
    var off: nat

    ghost predicate Valid()
      reads this
    {
      off <= len <= data.Length
    }

    ghost function Contents(): seq<byte>
      reads this, data
      requires len <= data.Length
    {
      data[..len]
    }

    constructor (size: nat)
      ensures Valid() && fresh(data) && data.Length == size && len == off == 0
      ensures forall k :: 0 <= k < size ==> data[k] == 0
    {
      data := new byte[size](_ => 0);
      len, off := 0, 0;
    }

    method Reset()
      modifies this
      ensures len == 0 && off == 0
    {
      len, off := 0, 0;
    }
  }

  // ----- the format -----

  datatype Attr = Attr(id: byte, value: seq<byte>)

  function Header(flags: byte, length: nat): seq<byte> {
    [SSTP_PROTO_VER, flags] + PutBe16(length % 0x1_0000)
  }

  function DataPacket(payload: seq<byte>): seq<byte> {
    Header(0, HEADER_SIZE + |payload|) + payload
  }

  function DataPackets(payloads: seq<seq<byte>>): seq<seq<byte>> {
    seq(|payloads|, i requires 0 <= i < |payloads| => DataPacket(payloads[i]))
  }

  lemma DataPacketsSnoc(payloads: seq<seq<byte>>, p: seq<byte>)
    ensures DataPackets(payloads + [p]) == DataPackets(payloads) + [DataPacket(p)]
    ensures |DataPacket(p)| == HEADER_SIZE + |p| && DataPacket(p)[HEADER_SIZE..] == p
  {
  }

  lemma DataPacketsAppend(a: seq<seq<byte>>, b: seq<seq<byte>>)
    ensures DataPackets(a + b) == DataPackets(a) + DataPackets(b)
  {
  }

  function AttrBytes(a: Attr): seq<byte> {
    [0, a.id] + PutBe16((ATTR_SIZE + |a.value|) % 0x1_0000) + a.value
  }

  function AttrsBytes(attrs: seq<Attr>): seq<byte> {
    if attrs == [] then [] else AttrsBytes(attrs[..|attrs| - 1]) + AttrBytes(attrs[|attrs| - 1])
  }

  /** The serialisation of a control message that the builder has to produce. */
  function Control(msg: uint16, attrs: seq<Attr>): seq<byte> {
    Header(SSTP_MSG_FLAG_CTRL, HEADER_SIZE + CTRL_SIZE + |AttrsBytes(attrs)|)
      + PutBe16(msg) + PutBe16(|attrs| % 0x1_0000) + AttrsBytes(attrs)
  }

  // ----- reading a header -----

  // sstp_pkt_len
  function PktLen(packet: seq<byte>): uint16
    requires |packet| >= HEADER_SIZE
  {
    GetBe16(packet[2..])
  }

  predicate IsControl(packet: seq<byte>)
    requires |packet| >= HEADER_SIZE
  {
    packet[1] % 2 == 1
  }

  // A packet as it must be on the wire: its length field is its size.
  predicate WellFormed(packet: seq<byte>) {
    |packet| >= HEADER_SIZE && PktLen(packet) == |packet|
  }

  lemma HeaderLength(flags: byte, length: nat, rest: seq<byte>)
    requires length < 0x1_0000
    ensures PktLen(Header(flags, length) + rest) == length
  {
    var h := Header(flags, length);
    assert (h + rest)[2..][0] == h[2] && (h + rest)[2..][1] == h[3];
  }

  lemma DataPacketShape(payload: seq<byte>)
    requires |payload| + HEADER_SIZE < 0x1_0000
    ensures WellFormed(DataPacket(payload)) && !IsControl(DataPacket(payload))
    ensures DataPacket(payload)[HEADER_SIZE..] == payload
  {
    HeaderLength(0, HEADER_SIZE + |payload|, payload);
  }

  /** The octets of a data packet, and of a control message without attributes. */
  lemma PacketOctets(payload: seq<byte>, msg: uint16)
    ensures var n := |payload| + 4;
      n < 0x1_0000 ==> DataPacket(payload) == [0x10, 0x00, n / 0x100, n % 0x100] + payload
    ensures Control(msg, []) == [0x10, 0x01, 0, 8, msg / 0x100, msg % 0x100, 0, 0]
  {
    assert AttrsBytes([]) == [];
    assert PutBe16(8) == [0, 8] && PutBe16(0) == [0, 0];
  }

  // ----- building in place -----

  // The store `pkt->length = htons(n)`.
  method PutLength(buf: Buff, n: nat)
    requires buf.data.Length >= HEADER_SIZE
    modifies buf.data
    ensures buf.data[..] == old(buf.data[..])[2 := n % 0x1_0000 / 0x100][3 := n % 0x1_0000 % 0x100]
  {
    var field := PutBe16(n % 0x1_0000);
    buf.data[2] := field[0];
    buf.data[3] := field[1];
  }

  /** sstp_pkt_init: an empty data packet or a control message without attributes. */
  method PktInit(buf: Buff, msg: uint16) returns (status: Status)
    modifies buf, buf.data
    ensures buf.Valid() && buf.off == 0
    ensures status ==
      if buf.data.Length < HEADER_SIZE + (if msg == SSTP_MSG_DATA then 0 else CTRL_SIZE) then SstpFail else SstpOkay
    ensures status == SstpFail ==> buf.len == 0
    ensures status == SstpOkay ==>
      buf.Contents() == if msg == SSTP_MSG_DATA then DataPacket([]) else Control(msg, [])
    ensures buf.len <= |old(buf.data[..])| && (status == SstpOkay ==> buf.data[buf.len..] == old(buf.data[..])[buf.len..])
  {
    buf.Reset();
    var length := HEADER_SIZE;
    if buf.data.Length < buf.len + length {
      return SstpFail;
    }
    buf.data[0] := SSTP_PROTO_VER;
    buf.data[1] := if msg != SSTP_MSG_DATA then SSTP_MSG_FLAG_CTRL else 0;
    if msg != SSTP_MSG_DATA {
      length := length + CTRL_SIZE;
      if buf.data.Length < buf.len + length {
        return SstpFail;
      }
      var field := PutBe16(msg);
      buf.data[4], buf.data[5] := field[0], field[1];
      buf.data[6], buf.data[7] := 0, 0;
    }
    buf.len := length;
    PutLength(buf, length);
    assert AttrsBytes([]) == [];
    return SstpOkay;
  }

  // sstp_pkt_update
  method PktUpdate(buf: Buff)
    requires buf.Valid() && buf.data.Length >= HEADER_SIZE
    modifies buf.data
    ensures buf.data[..] == old(buf.data[..])[2 := buf.len % 0x1_0000 / 0x100][3 := buf.len % 0x1_0000 % 0x100]
  {
    PutLength(buf, buf.len);
  }

  // The parts of a control message that adding an attribute rewrites or appends.
  lemma ControlSnoc(msg: uint16, attrs: seq<Attr>, a: Attr)
    ensures AttrsBytes(attrs + [a]) == AttrsBytes(attrs) + AttrBytes(a)
    ensures |AttrBytes(a)| == ATTR_SIZE + |a.value|
    ensures |Control(msg, attrs)| == HEADER_SIZE + CTRL_SIZE + |AttrsBytes(attrs)|
    ensures Control(msg, attrs + [a]) ==
      Header(SSTP_MSG_FLAG_CTRL, |Control(msg, attrs)| + |AttrBytes(a)|) + PutBe16(msg)
        + PutBe16((|attrs| + 1) % 0x1_0000) + AttrsBytes(attrs) + AttrBytes(a)
  {
    assert (attrs + [a])[..|attrs|] == attrs;
    assert AttrsBytes(attrs + [a]) == AttrsBytes(attrs) + AttrBytes(a);
    assert |AttrBytes(a)| == ATTR_SIZE + |a.value|;
    hide AttrBytes, AttrsBytes, PutBe16;
    var before := Header(SSTP_MSG_FLAG_CTRL, |Control(msg, attrs)| + |AttrBytes(a)|) + PutBe16(msg)
      + PutBe16((|attrs| + 1) % 0x1_0000);
    assert before + (AttrsBytes(attrs) + AttrBytes(a)) == before + AttrsBytes(attrs) + AttrBytes(a);
  }

  lemma ControlFields(msg: uint16, attrs: seq<Attr>)
    ensures var c := Control(msg, attrs);
      |c| >= 8 && IsControl(c) && GetBe16(c[6..]) == |attrs| % 0x1_0000 &&
      c[4..6] == PutBe16(msg) && c[8..] == AttrsBytes(attrs)
  {
    var c := Control(msg, attrs);
    assert c[6..][0] == c[6] && c[6..][1] == c[7];
  }

  /** sstp_pkt_attr: append one attribute, count it, and bring the length field up to date; `msg` and
      `attrs` are what the buffer holds. */
  method PktAttr(buf: Buff, id: byte, value: seq<byte>, ghost msg: uint16, ghost attrs: seq<Attr>) returns (status: Status)
    requires buf.Valid() && buf.len >= HEADER_SIZE && |value| <= 0x7FFB
    requires IsControl(buf.Contents()) ==> buf.Contents() == Control(msg, attrs)
    modifies buf`len, buf.data
    ensures buf.Valid()
    ensures status ==
      if old(IsControl(buf.Contents())) && old(buf.len) + ATTR_SIZE + |value| <= buf.data.Length then SstpOkay else SstpFail
    ensures status == SstpOkay ==> buf.Contents() == Control(msg, attrs + [Attr(id, value)])
    ensures status == SstpFail ==> buf.len == old(buf.len) && buf.data[..] == old(buf.data[..])
  {
    hide AttrsBytes, Control, PutBe16, AttrBytes;
    ghost var d0, len0 := buf.data[..], buf.len;
    ghost var a := Attr(id, value);
    var length := |value| + ATTR_SIZE;
    if buf.data.Length < buf.len + length {
      return SstpFail;
    }
    if buf.data[1] % 2 == 0 {
      return SstpFail;
    }
    ControlFields(msg, attrs);
    ControlSnoc(msg, attrs, a);
    CountField(d0, len0, msg, attrs);
    Be16Size((|attrs| + 1) % 0x1_0000);
    var count := PutBe16((GetBe16([buf.data[6], buf.data[7]]) + 1) % 0x1_0000);
    buf.data[6], buf.data[7] := count[0], count[1];
    PutAttr(buf, id, value);
    buf.len := buf.len + length;
    PutLength(buf, buf.len);
    Assembled(d0, len0, msg, attrs, a, buf.data[..], count);
    return SstpOkay;
  }

  lemma CountField(d0: seq<byte>, len0: nat, msg: uint16, attrs: seq<Attr>)
    requires len0 <= |d0| && d0[..len0] == Control(msg, attrs)
    ensures len0 >= 8 && GetBe16([d0[6], d0[7]]) == |attrs| % 0x1_0000
  {
    ControlFields(msg, attrs);
    var c := Control(msg, attrs);
    assert d0[6] == c[6..][0] && d0[7] == c[6..][1];
  }

  // The stores of sstp_pkt_attr together make the longer message.
  lemma Assembled(d0: seq<byte>, len0: nat, msg: uint16, attrs: seq<Attr>, a: Attr, d3: seq<byte>, count: seq<byte>)
    requires len0 <= |d0| && d0[..len0] == Control(msg, attrs) && 8 <= len0
    requires len0 + |AttrBytes(a)| <= |d0| && count == PutBe16((|attrs| + 1) % 0x1_0000) && |count| == 2
    requires var next := len0 + |AttrBytes(a)|;
      var d1 := d0[6 := count[0]][7 := count[1]];
      var d2 := d1[..len0] + AttrBytes(a) + d1[next..];
      d3 == d2[2 := next % 0x1_0000 / 0x100][3 := next % 0x1_0000 % 0x100]
    ensures d3[..len0 + |AttrBytes(a)|] == Control(msg, attrs + [a])
  {
    hide AttrsBytes, AttrBytes;
    ControlSnoc(msg, attrs, a);
    var c := Control(msg, attrs);
    var next := len0 + |AttrBytes(a)|;
    assert d3[..next] == Header(SSTP_MSG_FLAG_CTRL, next) + c[4..6] + count + c[8..] + AttrBytes(a);
    ControlFields(msg, attrs);
  }

  // The attribute itself, behind what is filled.
  method PutAttr(buf: Buff, id: byte, value: seq<byte>)
    requires buf.len + ATTR_SIZE + |value| <= buf.data.Length
    modifies buf.data
    ensures buf.data[..] ==
      old(buf.data[..buf.len]) + AttrBytes(Attr(id, value)) + old(buf.data[..])[buf.len + ATTR_SIZE + |value|..]
  {
    var at := buf.len;
    var field := PutBe16((ATTR_SIZE + |value|) % 0x1_0000);
    buf.data[at], buf.data[at + 1] := 0, id;
    buf.data[at + 2], buf.data[at + 3] := field[0], field[1];
    forall i | 0 <= i < |value| {
      buf.data[at + ATTR_SIZE + i] := value[i];
    }
  }

  // ----- reading attributes -----

  const SSTP_ATTR_MAX: byte := 4
  const NONE: int := -1

  /** Where the attributes lie, as offsets into the message; or an unknown type, or no control message at
      all; or the walk leaves the memory, or reads a length that its signed index cannot hold. */
  datatype Parsed = Refused | Beyond | Parsed(slots: seq<int>, index: nat)

  /** The walk for `count` more attributes from `index` on. The source goes on at the length of the last
      attribute, not behind it. */
  function ParseFrom(s: seq<byte>, index: nat, count: nat, slots: seq<int>): (r: Parsed)
    requires |slots| == 5
    ensures r.Parsed? ==> |r.slots| == 5
    decreases count
  {
    if count == 0 then Parsed(slots, index)
    else if |s| < index + ATTR_SIZE then Beyond
    else if SSTP_ATTR_MAX < s[index + 1] then Refused
    else
      var length := GetBe16(s[index + 2..index + 4]);
      if length >= 0x8000 then Beyond else ParseFrom(s, length, count - 1, slots[s[index + 1] := index])
  }

  // The memset leaves out the last slot.
  function Cleared(last: int): seq<int> {
    [NONE, NONE, NONE, NONE, last]
  }

  /** The message of `len` octets in memory `s`. */
  function ParseOf(s: seq<byte>, len: nat, last: int): (r: Parsed)
    requires len <= |s|
    ensures r.Parsed? ==> |r.slots| == 5
  {
    if len < 14 || s[1] % 2 == 0 then Refused
    else ParseFrom(s, HEADER_SIZE + CTRL_SIZE, GetBe16(s[6..8]), Cleared(last))
  }

  /** sstp_pkt_parse. `slots` are the caller's pointers, as offsets into the buffer, of which the last one
      is not cleared. Where the walk stops is left in `off`. */
  method PktParse(buf: Buff, slots: seq<int>) returns (status: Status, attrs: seq<int>)
    requires buf.Valid() && |slots| == 5 && !ParseOf(buf.data[..], buf.len, slots[4]).Beyond?
    modifies buf`off
    ensures var r := ParseOf(buf.data[..], buf.len, slots[4]);
      if r.Parsed? then status == SstpOkay && attrs == r.slots && buf.off == r.index
      else status == SstpFail && buf.off == old(buf.off)
  {
    attrs := slots;
    if buf.len < 14 {
      return SstpFail, attrs;
    }
    var index := HEADER_SIZE;
    if buf.data[1] % 2 == 0 {
      return SstpFail, attrs;
    }
    index := index + CTRL_SIZE;
    assert buf.data[6..8] == buf.data[..][6..8];
    var count: nat := GetBe16(buf.data[6..8]);
    attrs := Cleared(slots[4]);
    while count > 0
      invariant |attrs| == 5 && 0 <= index
      invariant ParseFrom(buf.data[..], index, count, attrs) == ParseOf(buf.data[..], buf.len, slots[4])
      decreases count
    {
      var id := buf.data[index + 1];
      if SSTP_ATTR_MAX < id {
        return SstpFail, attrs;
      }
      attrs := attrs[id := index];
      assert buf.data[index + 2..index + 4] == buf.data[..][index + 2..index + 4];
      index := GetBe16(buf.data[index + 2..index + 4]);
      count := count - 1;
    }
    buf.off := index;
    return SstpOkay, attrs;
  }

  /** A walk that stays inside the message sees the same in the whole memory. */
  lemma {:induction false} ParseInside(s: seq<byte>, t: seq<byte>, index: nat, count: nat, slots: seq<int>)
    requires s <= t && |slots| == 5 && !ParseFrom(s, index, count, slots).Beyond?
    ensures ParseFrom(t, index, count, slots) == ParseFrom(s, index, count, slots)
    decreases count
  {
    if count > 0 {
      assert t[index + 2..index + 4] == s[index + 2..index + 4];
      var length := GetBe16(s[index + 2..index + 4]);
      if s[index + 1] <= SSTP_ATTR_MAX {
        ParseInside(s, t, length, count - 1, slots[s[index + 1] := index]);
      }
    }
  }

  // Slots of visited attributes lie inside, and stay set.
  lemma {:induction false} ParseSlots(s: seq<byte>, index: nat, count: nat, slots: seq<int>, id: nat)
    requires |slots| == 5 && id < 5 && ParseFrom(s, index, count, slots).Parsed?
    requires slots[id] == NONE || 0 <= slots[id] <= |s| - ATTR_SIZE
    ensures var slot := ParseFrom(s, index, count, slots).slots[id];
      (slot == NONE || 0 <= slot <= |s| - ATTR_SIZE) && (slots[id] != NONE ==> slot != NONE)
    decreases count
  {
    if count > 0 {
      ParseSlots(s, GetBe16(s[index + 2..index + 4]), count - 1, slots[s[index + 1] := index], id);
    }
  }

  /** What was in the slot that is not cleared does not change the walk, and shows only if no attribute of
      its type is visited. */
  lemma {:induction false} ParseLast(s: seq<byte>, index: nat, count: nat, slots: seq<int>, last: int)
    requires |slots| == 5 && slots[4] == NONE
    ensures var r, q := ParseFrom(s, index, count, slots), ParseFrom(s, index, count, slots[4 := last]);
      if r.Parsed? then q == r.(slots := if r.slots[4] == NONE then r.slots[4 := last] else r.slots) else q == r
    decreases count
  {
    if count > 0 && index + ATTR_SIZE <= |s| && s[index + 1] <= SSTP_ATTR_MAX {
      var length := GetBe16(s[index + 2..index + 4]);
      var id := s[index + 1];
      if length < 0x8000 {
        var next := slots[id := index];
        if id == 4 {
          assert slots[4 := last][id := index] == next;
          if ParseFrom(s, length, count - 1, next).Parsed? {
            ParseSlots(s, length, count - 1, next, 4);
          }
        } else {
          assert slots[4 := last][id := index] == next[4 := last];
          ParseLast(s, length, count - 1, next, last);
        }
      }
    }
  }

  /** Round trip: a message built with one attribute of at least two octets parses, and the slot of its
      id leads back to it: id, length and value. */
  lemma ParseOne(msg: uint16, a: Attr, last: int)
    requires 2 <= |a.value| <= 0x7FFB && a.id <= SSTP_ATTR_MAX
    ensures var c := Control(msg, [a]);
      && ParseOf(c, |c|, last) == Parsed(Cleared(last)[a.id := 8], ATTR_SIZE + |a.value|)
      && |c| >= 14 && c[9] == a.id && GetBe16(c[10..12]) - ATTR_SIZE == |a.value| && c[8 + ATTR_SIZE..] == a.value
  {
    var c := Control(msg, [a]);
    OneFields(msg, a);
    assert c[6..8] == c[6..][..2] && c[10..12] == c[10..][..2];
    var slots := Cleared(last);
    assert ParseFrom(c, ATTR_SIZE + |a.value|, 0, slots[a.id := 8]) == Parsed(slots[a.id := 8], ATTR_SIZE + |a.value|);
  }

  lemma OneFields(msg: uint16, a: Attr)
    requires 2 <= |a.value| <= 0x7FFB
    ensures var c := Control(msg, [a]);
      && |c| >= 14 && IsControl(c) && GetBe16(c[6..]) == 1
      && c[9] == a.id && GetBe16(c[10..]) - ATTR_SIZE == |a.value| && c[8 + ATTR_SIZE..] == a.value
  {
    hide Control, AttrsBytes, GetBe16, PutBe16;
    AttrFields(a);
    AttrsOfTwo(a, a);
    ControlFields(msg, [a]);
    assert AttrBytes(a) + [] == AttrBytes(a);
    SlicesBehind(Control(msg, [a]), AttrBytes(a), []);
    assert Control(msg, [a])[8..][ATTR_SIZE..] == Control(msg, [a])[8 + ATTR_SIZE..];
  }

  /** Of two attributes built into a message the second is looked for eight octets ahead of where it lies:
      at the length of the first. */
  lemma ParseTwo(msg: uint16, a: Attr, b: Attr, last: int)
    requires |a.value| <= 0x7FFB && a.id <= SSTP_ATTR_MAX && |a.value| + |b.value| >= 2
    ensures var c := Control(msg, [a, b]);
      && ParseOf(c, |c|, last) == ParseFrom(c, ATTR_SIZE + |a.value|, 1, Cleared(last)[a.id := 8])
      && |c| >= 16 + |a.value| && c[8 + ATTR_SIZE + |a.value|..] == AttrBytes(b)
  {
    var c := Control(msg, [a, b]);
    TwoFields(msg, a, b);
    assert c[6..8] == c[6..][..2] && c[10..12] == c[10..][..2];
  }

  lemma TwoFields(msg: uint16, a: Attr, b: Attr)
    requires |a.value| <= 0x7FFB
    ensures var c := Control(msg, [a, b]);
      && |c| == 16 + |a.value| + |b.value| && IsControl(c) && GetBe16(c[6..]) == 2
      && c[9] == a.id && GetBe16(c[10..]) == ATTR_SIZE + |a.value| && c[8 + ATTR_SIZE + |a.value|..] == AttrBytes(b)
  {
    hide Control, AttrsBytes, AttrBytes, GetBe16, PutBe16;
    AttrFields(a);
    AttrsOfTwo(a, b);
    ControlFields(msg, [a, b]);
    SlicesBehind(Control(msg, [a, b]), AttrBytes(a), AttrBytes(b));
    AttrFields(b);
  }

  lemma AttrsOfTwo(a: Attr, b: Attr)
    ensures AttrsBytes([a]) == AttrBytes(a) && AttrsBytes([a, b]) == AttrBytes(a) + AttrBytes(b)
  {
    hide AttrBytes;
    AttrsBytesNone();
    AttrsSnoc([], a);
    AttrsSnoc([a], b);
    assert [] + [a] == [a] && [a] + [b] == [a, b];
    hide AttrsBytes;
    assert [] + AttrBytes(a) == AttrBytes(a);
  }

  lemma AttrsSnoc(attrs: seq<Attr>, a: Attr)
    ensures AttrsBytes(attrs + [a]) == AttrsBytes(attrs) + AttrBytes(a)
  {
    assert (attrs + [a])[..|attrs|] == attrs;
  }

  lemma AttrFields(a: Attr)
    ensures var x := AttrBytes(a);
      |x| == ATTR_SIZE + |a.value| && x[1] == a.id && (|a.value| <= 0x7FFB ==> GetBe16(x[2..]) == |x|)
  {
    var x := AttrBytes(a);
    assert x[2..][0] == x[2] && x[2..][1] == x[3];
  }

  lemma SlicesBehind(c: seq<byte>, x: seq<byte>, y: seq<byte>)
    requires |c| >= 8 && c[8..] == x + y && |x| >= 4
    ensures c[9] == x[1] && GetBe16(c[10..]) == GetBe16(x[2..]) && c[8 + |x|..] == y && |c| == 8 + |x| + |y|
  {
    assert c[9] == c[8..][1] && c[10..] == c[8..][2..] == x[2..] + y && c[8 + |x|..] == c[8..][|x|..];
  }

  // ----- the CONNECTED message -----

  const SSTP_ATTR_CRYPTO_BIND: byte := 3
  const SSTP_PROTO_HASH_SHA1: byte := 1
  const SSTP_PROTO_HASH_SHA256: byte := 2

  function Zeros(n: nat): seq<byte> {
    seq(n, _ => 0)
  }

  function HashType(proto: byte): byte {
    if proto / 2 % 2 == 1 then SSTP_PROTO_HASH_SHA256 else SSTP_PROTO_HASH_SHA1
  }

  /** The attribute of the crypto binding: hash type, nonce, certificate hash, and room for the MAC. */
  function Binding(proto: byte, nonce: seq<byte>, certHash: seq<byte>, mac: seq<byte>): Attr {
    Attr(SSTP_ATTR_CRYPTO_BIND, [0, 0, 0, HashType(proto)] + nonce + certHash + mac)
  }

  // A message with one attribute, written out.
  lemma ControlOne(msg: uint16, a: Attr)
    ensures Control(msg, [a]) ==
      Header(SSTP_MSG_FLAG_CTRL, 12 + |a.value|) + PutBe16(msg) + PutBe16(1)
        + [0, a.id] + PutBe16((ATTR_SIZE + |a.value|) % 0x1_0000) + a.value
  {
    hide PutBe16;
    ControlSnoc(msg, [], a);
    assert [] + [a] == [a] && AttrsBytes([]) == [];
    var front := Header(SSTP_MSG_FLAG_CTRL, 12 + |a.value|) + PutBe16(msg) + PutBe16(1);
    var length := PutBe16((ATTR_SIZE + |a.value|) % 0x1_0000);
    assert front + [] + ([0, a.id] + length + a.value) == front + [0, a.id] + length + a.value;
  }

  /** The octets of a message with one attribute: the length of all of it, one attribute, and its own length. */
  lemma AttributeOctets(msg: uint16, a: Attr)
    requires |a.value| + 12 < 0x1_0000
    ensures var n, k := |a.value| + 12, |a.value| + 4;
      Control(msg, [a]) == [0x10, 0x01, n / 0x100, n % 0x100, msg / 0x100, msg % 0x100, 0, 1,
                            0, a.id, k / 0x100, k % 0x100] + a.value
  {
    ControlOne(msg, a);
    hide Control;
    var n, k := |a.value| + 12, |a.value| + 4;
    assert Header(SSTP_MSG_FLAG_CTRL, n) + PutBe16(msg) + PutBe16(1) ==
      [0x10, 0x01, n / 0x100, n % 0x100, msg / 0x100, msg % 0x100, 0, 1];
    assert [0, a.id] + PutBe16(k) == [0, a.id, k / 0x100, k % 0x100];
    hide PutBe16, Header;
  }

  lemma FieldsOf(front: seq<byte>, x: seq<byte>, y: seq<byte>, z: seq<byte>, other: seq<byte>)
    requires |front| == 16 && |x| == |y| == |z| == |other| == 32
    ensures var m := front + (x + y + z);
      |m| == 112 && m[..16] == front && m[16..48] == x && m[48..80] == y && m[80..112] == z &&
      m[..80] + other == front + (x + y + other)
  {
  }

  /** The message is 112 octets long; the fields in front of the nonce are these, with SHA-256 named if
      bit 1 of the protocols is set and SHA-1 if not; and its MAC field is exactly octets 80 to 111. */
  lemma ConnectedLayout(proto: byte, nonce: seq<byte>, certHash: seq<byte>, mac: seq<byte>, other: seq<byte>)
    requires |nonce| == |certHash| == |mac| == |other| == 32
    ensures var m := Control(SSTP_MSG_CONNECTED, [Binding(proto, nonce, certHash, mac)]);
      && |m| == 112 && WellFormed(m)
      && m[..16] == [0x10, 0x01, 0, 112, 0, 4, 0, 1, 0, 3, 0, 104, 0, 0, 0, if BitsOf(proto)[1] then 2 else 1]
      && m[16..48] == nonce && m[48..80] == certHash && m[80..112] == mac
      && m[..80] + other == Control(SSTP_MSG_CONNECTED, [Binding(proto, nonce, certHash, other)])
  {
    ConnectedShape(proto, nonce, certHash, mac);
    ConnectedShape(proto, nonce, certHash, other);
    hide Control, Binding, ConnectedFront;
    FieldsOf(ConnectedFront(proto), nonce, certHash, mac, other);
    FrontShape(proto, nonce + certHash + mac);
  }

  function ConnectedFront(proto: byte): (front: seq<byte>)
    ensures |front| == 16
  {
    Header(SSTP_MSG_FLAG_CTRL, 112) + PutBe16(SSTP_MSG_CONNECTED) + PutBe16(1) + [0, SSTP_ATTR_CRYPTO_BIND] + PutBe16(104)
      + [0, 0, 0, HashType(proto)]
  }

  lemma FrontShape(proto: byte, rest: seq<byte>)
    requires |rest| == 96
    ensures ConnectedFront(proto) ==
      [0x10, 0x01, 0, 112, 0, 4, 0, 1, 0, 3, 0, 104, 0, 0, 0, if BitsOf(proto)[1] then 2 else 1]
    ensures WellFormed(ConnectedFront(proto) + rest)
  {
    var front := ConnectedFront(proto);
    assert HashType(proto) == if BitsOf(proto)[1] then 2 else 1;
    hide HashType, BitsOf;
    assert PutBe16(112) == [0, 112] && PutBe16(SSTP_MSG_CONNECTED) == [0, 4] && PutBe16(1) == [0, 1] && PutBe16(104) == [0, 104];
    HeaderLength(SSTP_MSG_FLAG_CTRL, 112, (front + rest)[4..]);
    assert front + rest == Header(SSTP_MSG_FLAG_CTRL, 112) + (front + rest)[4..];
  }

  lemma ConnectedShape(proto: byte, nonce: seq<byte>, certHash: seq<byte>, mac: seq<byte>)
    requires |nonce| == |certHash| == |mac| == 32
    ensures Control(SSTP_MSG_CONNECTED, [Binding(proto, nonce, certHash, mac)]) ==
      ConnectedFront(proto) + (nonce + certHash + mac)
  {
    hide Control, PutBe16, Header;
    var a := Binding(proto, nonce, certHash, mac);
    ControlOne(SSTP_MSG_CONNECTED, a);
    assert |a.value| == 100;
    assert a.value == [0, 0, 0, HashType(proto)] + (nonce + certHash + mac);
  }

  lemma AttrsBytesNone()
    ensures AttrsBytes([]) == []
  {
  }

  /** The building part of sstp_state_send_connect: the MAC is computed over the message with a zero MAC
      field, and then put into that field. */
  method BuildConnected(tx: Buff, proto: byte, nonce: seq<byte>, certHash: seq<byte>, cmac: seq<byte> -> seq<byte>)
    returns (status: Status)
    requires |nonce| == |certHash| == 32 && forall m :: |cmac(m)| == 32
    modifies tx, tx.data
    ensures status == if 112 <= tx.data.Length then SstpOkay else SstpFail
    ensures status == SstpOkay ==> tx.len == 112
    ensures status == SstpOkay ==>
      (var zeroed := Control(SSTP_MSG_CONNECTED, [Binding(proto, nonce, certHash, Zeros(32))]);
       tx.Contents() == Control(SSTP_MSG_CONNECTED, [Binding(proto, nonce, certHash, cmac(zeroed))]))
  {
    hide Control, AttrsBytes, AttrBytes, HashType;
    var attr := Binding(proto, nonce, certHash, Zeros(32));
    AttrsBytesNone();
    status := PktInit(tx, SSTP_MSG_CONNECTED);
    if status != SstpOkay {
      return;
    }
    ControlFields(SSTP_MSG_CONNECTED, []);
    ControlSnoc(SSTP_MSG_CONNECTED, [], attr);
    assert [] + [attr] == [attr];
    status := PktAttr(tx, attr.id, attr.value, SSTP_MSG_CONNECTED, []);
    if status != SstpOkay {
      return;
    }
    ghost var message := tx.Contents();
    var mac := cmac(tx.data[..tx.len]);
    ConnectedLayout(proto, nonce, certHash, Zeros(32), mac);
    forall i | 0 <= i < 32 {
      tx.data[80 + i] := mac[i];
    }
    assert tx.Contents() == message[..80] + mac;
  }
}
