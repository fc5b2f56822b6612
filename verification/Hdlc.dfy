/** HDLC-like framing of PPP (sstp-fcs.c; section 4.2 of RFC 1662): the encoder and the decoder work
    in place on arrays; their results are functions of octet sequences, about which the round trip,
    the exact space needed and the exact language accepted are proved. */
module Hdlc {
  import opened Bytes
  import opened Common
  import opened Fcs

  const HDLC_FLAG: byte := 0x7E
  const HDLC_ESCAPE: byte := 0x7D
  const HDLC_TRANSPARENCY: byte := 0x20

  predicate MustEscape(c: byte) {
    c < HDLC_TRANSPARENCY || c == HDLC_FLAG || c == HDLC_ESCAPE
  }

  // ----- what the encoder writes -----

  function StuffByte(c: byte): seq<byte> {
    if MustEscape(c) then [HDLC_ESCAPE, Xor(c, HDLC_TRANSPARENCY)] else [c]
  }

  function Stuff(s: seq<byte>): seq<byte> {
    if s == [] then [] else Stuff(s[..|s| - 1]) + StuffByte(s[|s| - 1])
  }

  function Body(payload: seq<byte>): (body: seq<byte>)
    ensures |body| == |payload| + 2
  {
    payload + FcsField(payload)
  }

  function Encoded(payload: seq<byte>): seq<byte> {
    [HDLC_FLAG] + Stuff(Body(payload)) + [HDLC_FLAG]
  }

  function Escapes(s: seq<byte>): nat {
    if s == [] then 0 else Escapes(s[..|s| - 1]) + (if MustEscape(s[|s| - 1]) then 1 else 0)
  }

  // The room sstp_frame_encode insists on: three octets behind what precedes the last check octet.
  function RoomNeeded(payload: seq<byte>): nat {
    |Stuff(Body(payload)[..|payload| + 1])| + 4
  }

  /** A control character, a flag and an escape are written as an escape and the octet with bit 5 the other
      way round. */
  lemma StuffOctets(c: byte)
    ensures StuffByte(c) ==
      if c < 32 || c == 0x7d || c == 0x7e then [0x7d, if c / 32 % 2 == 1 then c - 32 else c + 32] else [c]
  {
    hide Xor;
    Xor32(c);
  }

  /** So between the flags there is neither a flag nor a control character. */
  lemma {:induction false} StuffClean(s: seq<byte>)
    ensures forall c :: c in Stuff(s) ==> c >= 0x20 && c != 0x7e
  {
    hide StuffByte;
    if s != [] {
      StuffClean(s[..|s| - 1]);
      StuffOctets(s[|s| - 1]);
    }
  }

  lemma {:induction false} StuffSize(s: seq<byte>)
    ensures |Stuff(s)| == |s| + Escapes(s) && Escapes(s) <= |s|
  {
    if s == [] {
    } else {
      StuffSize(s[..|s| - 1]);
    }
  }

  lemma StuffSnoc(s: seq<byte>, i: nat)
    requires i < |s|
    ensures Stuff(s[..i + 1]) == Stuff(s[..i]) + StuffByte(s[i])
  {
    assert s[..i + 1][..i] == s[..i];
  }

  /** The encoding is the payload, two flags, two check octets and one octet per escape. The room
      needed is that size, plus one if the last check octet is not escaped; so a buffer of twice the
      payload and six octets is always accepted. */
  lemma EncodedSize(payload: seq<byte>)
    ensures |Encoded(payload)| == |payload| + 4 + Escapes(Body(payload))
    ensures RoomNeeded(payload) == |Encoded(payload)| + if MustEscape(Body(payload)[|payload| + 1]) then 0 else 1
    ensures |payload| + 5 <= RoomNeeded(payload) <= 2 * |payload| + 6
  {
    var body := Body(payload);
    StuffSize(body);
    StuffSize(body[..|payload| + 1]);
    StuffSnoc(body, |payload| + 1);
    assert body[..|payload| + 2] == body;
  }

  lemma {:induction false} StuffPrefix(s: seq<byte>, i: nat, j: nat)
    requires i <= j <= |s|
    ensures |Stuff(s[..i])| <= |Stuff(s[..j])|
    decreases j
  {
    if i < j {
      StuffPrefix(s, i, j - 1);
      StuffSnoc(s, j - 1);
    }
  }

  // One turn of the encoding loop: the octet, escaped if it has to be.
  method PutStuffed(frame: array<byte>, at: nat, c: byte) returns (pos: nat)
    requires at + 2 <= frame.Length
    modifies frame
    ensures pos == at + |StuffByte(c)|
    ensures frame[..] == old(frame[..at]) + StuffByte(c) + old(frame[..])[pos..]
  {
    hide Xor;
    pos := at;
    if MustEscape(c) {
      frame[pos] := HDLC_ESCAPE;
      pos := pos + 1;
      frame[pos] := Xor(c, HDLC_TRANSPARENCY);
      pos := pos + 1;
      return;
    }
    frame[pos] := c;
    pos := pos + 1;
  }

  // The frame after `i` octets of the body, over what was there before.
  function Written(body: seq<byte>, i: nat, before: seq<byte>): seq<byte>
    requires i <= |body| && 1 + |Stuff(body[..i])| <= |before|
  {
    [HDLC_FLAG] + Stuff(body[..i]) + before[1 + |Stuff(body[..i])|..]
  }

  lemma WrittenSnoc(body: seq<byte>, i: nat, before: seq<byte>)
    requires i < |body| && 1 + |Stuff(body[..i])| + |StuffByte(body[i])| <= |before|
    ensures |Stuff(body[..i + 1])| == |Stuff(body[..i])| + |StuffByte(body[i])|
    ensures var pos, next := 1 + |Stuff(body[..i])|, 1 + |Stuff(body[..i + 1])|;
      var frame := Written(body, i, before);
      frame[..pos] + StuffByte(body[i]) + frame[next..] == Written(body, i + 1, before)
  {
    hide Stuff, StuffByte;
    StuffSnoc(body, i);
    var written := [HDLC_FLAG] + Stuff(body[..i]);
    Splice(written, StuffByte(body[i]), before);
    assert Written(body, i, before)[..|written|] == written;
    assert [HDLC_FLAG] + Stuff(body[..i + 1]) == written + StuffByte(body[i]);
  }

  lemma WrittenDone(payload: seq<byte>, before: seq<byte>, pos: nat)
    requires pos == 1 + |Stuff(Body(payload))| < |before|
    ensures var body := Body(payload);
      body[..|body|] == body &&
      Written(body, |body|, before)[pos := HDLC_FLAG] == Encoded(payload) + before[pos + 1..]
  {
    hide Stuff, Body;
    assert Body(payload)[..|Body(payload)|] == Body(payload);
  }

  /** sstp_frame_encode: succeeds exactly when the room offered is at least the room needed, and then
      writes the encoding and nothing behind it. On overflow only octets inside the room offered (and
      the opening flag) have changed. */
  method FrameEncode(source: array<byte>, ilen: nat, frame: array<byte>, room: int) returns (status: Status, flen: int)
    requires ilen <= source.Length && source != frame
    requires 1 <= frame.Length && room <= frame.Length
    modifies frame
    ensures status == (if RoomNeeded(source[..ilen]) <= room then SstpOkay else SstpOverflow)
    ensures status == SstpOkay ==>
      flen == |Encoded(source[..ilen])| <= room && frame[..] == Encoded(source[..ilen]) + old(frame[..])[flen..]
    ensures status == SstpOverflow ==> flen == room
    ensures status == SstpOverflow ==>
      var kept := if room < 1 then 1 else room; frame[kept..] == old(frame[kept..])
  {
    hide Crc, LowByte, HighByte, Complement, Xor, Stuff, StuffByte, Written, Encoded, Body;
    ghost var payload := source[..ilen];
    ghost var body := Body(payload);
    ghost var before := frame[..];
    WrittenNone(body, before);
    EncodedSize(payload);
    var fcs := FrameCheck(PPPINITFCS16, source, 0, ilen);
    fcs := Complement(fcs);
    assert source[0..0 + ilen] == payload;
    frame[0] := HDLC_FLAG;
    var pos := 1;
    var i := 0;
    while i < ilen + 2
      invariant 0 <= i <= ilen + 2
      invariant pos == 1 + |Stuff(body[..i])| <= |before| == frame.Length
      invariant i > 0 ==> |Stuff(body[..i - 1])| + 4 <= room && pos < room
      invariant frame[..] == Written(body, i, before)
    {
      var c: byte := if i < ilen then source[i] else if i == ilen then LowByte(fcs) else HighByte(fcs);
      BodyAt(payload, fcs, i);
      StuffPrefix(body, i, ilen + 1);
      StuffByteSize(c);
      if room < pos + 3 {
        WrittenTail(body, i, before, if room < 1 then 1 else room);
        return SstpOverflow, room;
      }
      WrittenSnoc(body, i, before);
      pos := PutStuffed(frame, pos, c);
      i := i + 1;
    }
    assert body[..i] == body;
    EncodedLength(payload);
    WrittenDone(payload, before, pos);
    frame[pos] := HDLC_FLAG;
    pos := pos + 1;
    return SstpOkay, pos;
  }

  lemma BodyAt(payload: seq<byte>, fcs: bv16, i: nat)
    requires i < |payload| + 2 && fcs == Complement(Crc(PPPINITFCS16, payload))
    ensures Body(payload)[i] ==
      if i < |payload| then payload[i] else if i == |payload| then LowByte(fcs) else HighByte(fcs)
  {
    hide Crc, LowByte, HighByte, Complement;
  }

  lemma WrittenNone(body: seq<byte>, before: seq<byte>)
    requires |before| >= 1
    ensures Stuff(body[..0]) == [] && Written(body, 0, before) == before[0 := HDLC_FLAG]
  {
  }

  lemma WrittenTail(body: seq<byte>, i: nat, before: seq<byte>, k: nat)
    requires i <= |body| && 1 + |Stuff(body[..i])| <= |before|
    ensures |Written(body, i, before)| == |before|
    ensures 1 + |Stuff(body[..i])| <= k <= |before| ==> Written(body, i, before)[k..] == before[k..]
  {
    hide Stuff;
  }

  lemma EncodedLength(payload: seq<byte>)
    ensures |Encoded(payload)| == |Stuff(Body(payload))| + 2
  {
  }

  lemma Splice(a: seq<byte>, b: seq<byte>, before: seq<byte>)
    requires |a| + |b| <= |before|
    ensures (a + before[|a|..])[|a| + |b|..] == before[|a| + |b|..]
  {
  }

  lemma StuffByteSize(c: byte)
    ensures 1 <= |StuffByte(c)| <= 2
  {
  }

  /** The room sstp_pppd_send offers, twice the packet plus four, is enough exactly when at least two
      octets ahead of the last check octet need no escape. */
  lemma CallerRoom(payload: seq<byte>)
    ensures RoomNeeded(payload) <= 2 * |payload| + 4 <==> Escapes(Body(payload)[..|payload| + 1]) + 2 <= |payload| + 1
  {
    hide Body;
    StuffSize(Body(payload)[..|payload| + 1]);
  }

  // The bound of EncodedSize is reached, and the caller's room is not always enough.
  lemma RoomTight()
    ensures RoomNeeded([0x0e]) == 8 == 2 * |[0x0e]| + 6
  {
    var p: seq<byte> := [0x0e];
    FieldOfShiftOut();
    var s := Body(p)[..2];
    assert s == [0x0e, 0x06] && s[..1] == [0x0e] && s[..2] == s && s[..0] == [];
    hide Body, FcsField;
    StuffSnoc(s, 0);
    StuffSnoc(s, 1);
  }

  lemma FieldOfShiftOut()
    ensures FcsField([0x0e]) == [0x06, 0x19]
  {
    hide CrcStep, LowByte, HighByte, Complement;
    CrcOfShiftOut();
    var p: seq<byte> := [0x0e];
    assert p[1..] == [];
    assert Crc(PPPINITFCS16, p) == Crc(CrcStep(PPPINITFCS16, 0x0e), []) == 0xe6f9;
  }

  lemma CrcOfShiftOut()
    ensures CrcStep(PPPINITFCS16, 0x0e) == 0xe6f9
    ensures LowByte(Complement(0xe6f9)) == 0x06 && HighByte(Complement(0xe6f9)) == 0x19
  {
    hide CrcBits;
    assert Xor16(PPPINITFCS16, Wide(0x0e)) == 0xfff1;
    CrcOfFff1();
  }

  lemma CrcOfFff1()
    ensures CrcBits(8, 0xfff1) == 0xe6f9
  {
  }

  // ----- what the decoder reads -----

  // The scan of one frame body: closed by the flag at `at`, or still open at the end of the octets.
  datatype Scan = Closed(at: nat, content: seq<byte>) | Open

  /** The body that starts at `i`. `flagBehind` says whether the octet behind `s` happens to be a flag:
      the source looks at it before it notices that the live octets have run out. */
  function ScanBody(s: seq<byte>, i: nat, flagBehind: bool): (r: Scan)
    requires i <= |s|
    ensures r.Closed? ==> i < r.at <= |s| && r.content != []
    ensures r.Closed? && !flagBehind ==> r.at < |s|
    ensures r.Closed? && r.at < |s| ==> s[r.at] == HDLC_FLAG
    decreases |s| - i
  {
    if i == |s| then Open
    else if s[i] == HDLC_ESCAPE && i + 1 == |s| then Open
    else
      var (c, j) := if s[i] == HDLC_ESCAPE then (Xor(s[i + 1], HDLC_TRANSPARENCY), i + 2) else (s[i], i + 1);
      if (if j < |s| then s[j] == HDLC_FLAG else flagBehind) then Closed(j, [c])
      else match ScanBody(s, j, flagBehind)
        case Open => Open
        case Closed(at, content) => Closed(at, [c] + content)
  }

  function SkipFlags(s: seq<byte>): (i: nat)
    ensures i <= |s| && forall k :: 0 <= k < i ==> s[k] == HDLC_FLAG
    ensures i < |s| ==> s[i] != HDLC_FLAG
  {
    if s != [] && s[0] == HDLC_FLAG then 1 + SkipFlags(s[1..]) else 0
  }

  datatype Decoded =
    | Overflow
    | Rejected(at: nat, size: int)
    | Accepted(at: nat, payload: seq<byte>)

  function Check(at: nat, content: seq<byte>): Decoded {
    if |content| < 4 || Crc(PPPINITFCS16, content) != PPPGOODFCS16 then Rejected(at, |content| - 2)
    else Accepted(at, content[..|content| - 2])
  }

  function Truncate(s: seq<byte>, max: nat): seq<byte> {
    if |s| <= max then s else s[..max]
  }

  /** The outcome of decoding the live octets `s` into a buffer of `max` octets. */
  function Decode(s: seq<byte>, flagBehind: bool, max: nat): (r: Decoded)
    ensures !r.Overflow? ==> 0 < r.at <= |s|
    ensures !r.Overflow? && !flagBehind ==> r.at < |s|
  {
    match ScanBody(s, SkipFlags(s), flagBehind)
    case Open => Overflow
    case Closed(at, content) => Check(at, Truncate(content, max))
  }

  function Prepend(content: seq<byte>, r: Scan): Scan {
    match r
    case Open => Open
    case Closed(at, rest) => Closed(at, content + rest)
  }

  // What the output holds after `content` has been offered to it octet by octet, over `before`.
  ghost predicate Holds(before: seq<byte>, frame: seq<byte>, from: nat, max: nat, pos: nat, content: seq<byte>) {
    from + max <= |frame| == |before| && pos == |Truncate(content, max)| &&
    frame[from..from + pos] == Truncate(content, max) &&
    frame[..from] == before[..from] && frame[from + max..] == before[from + max..]
  }

  lemma ScanStart(s: seq<byte>, i: nat, flagBehind: bool)
    requires i <= |s|
    ensures Prepend([], ScanBody(s, i, flagBehind)) == ScanBody(s, i, flagBehind)
    ensures i == |s| ==> ScanBody(s, i, flagBehind) == Open
    ensures forall acc :: Prepend(acc, Open) == Open
  {
    match ScanBody(s, i, flagBehind)
    case Open =>
    case Closed(at, content) => assert [] + content == content;
  }

  lemma ScanCut(s: seq<byte>, i: nat, flagBehind: bool, acc: seq<byte>)
    requires i + 1 == |s| && s[i] == HDLC_ESCAPE
    ensures Prepend(acc, ScanBody(s, i, flagBehind)) == Open
  {
  }

  lemma ScanOn(s: seq<byte>, i: nat, j: nat, c: byte, flagBehind: bool, acc: seq<byte>)
    requires i < j <= |s|
    requires if s[i] == HDLC_ESCAPE then j == i + 2 && c == Xor(s[i + 1], HDLC_TRANSPARENCY) else j == i + 1 && c == s[i]
    ensures var closes := if j < |s| then s[j] == HDLC_FLAG else flagBehind;
      Prepend(acc, ScanBody(s, i, flagBehind)) ==
        if closes then Closed(j, acc + [c]) else Prepend(acc + [c], ScanBody(s, j, flagBehind))
  {
    hide Xor;
    match ScanBody(s, j, flagBehind)
    case Open =>
    case Closed(at, content) => assert acc + [c] + content == acc + ([c] + content);
  }

  // The first half of sstp_frame_decode: skip flags, then copy octets until the closing flag.
  method Unstuff(buf: array<byte>, base: nat, length: nat, frame: array<byte>, from: nat, size: nat, ghost stop: nat)
    returns (closed: bool, index: nat, pos: nat)
    requires buf != frame && from + size <= frame.Length
    requires length <= stop && base + stop + 1 < buf.Length && buf[base + stop] != HDLC_FLAG
    modifies frame
    ensures var s, flagBehind := buf[base..base + length], buf[base + length] == HDLC_FLAG;
      var scan := ScanBody(s, SkipFlags(s), flagBehind);
      closed == scan.Closed? &&
      (closed ==> index == scan.at && Holds(old(frame[..]), frame[..], from, size, pos, scan.content))
    ensures frame[..from] == old(frame[..from]) && frame[from + size..] == old(frame[from + size..])
  {
    hide Xor, Holds, ScanBody, Prepend, SkipFlags;
    ghost var memory := buf[base..];
    ghost var s := buf[base..base + length];
    ghost var flagBehind := buf[base + length] == HDLC_FLAG;
    index := 0;
    while buf[base + index] == HDLC_FLAG
      invariant index <= stop
      invariant forall k :: 0 <= k < index ==> memory[k] == HDLC_FLAG
      decreases stop - index
    {
      index := index + 1;
    }
    SkipFlagsIs(s, memory, index);
    ghost var acc: seq<byte> := [];
    ghost var scan := ScanBody(s, SkipFlags(s), flagBehind);
    pos := 0;
    HoldsNone(frame[..], from, size);
    ScanStart(s, SkipFlags(s), flagBehind);
    while true
      invariant index <= stop
      invariant if index < length then scan == Prepend(acc, ScanBody(s, index, flagBehind)) else scan == Open
      invariant Holds(old(frame[..]), frame[..], from, size, pos, acc)
      decreases stop - index
    {
      ghost var start := index;
      var escape := false;
      if buf[base + index] == HDLC_ESCAPE {
        escape := true;
        index := index + 1;
      }
      var c: byte := if escape then Xor(buf[base + index], HDLC_TRANSPARENCY) else buf[base + index];
      HoldsNext(old(frame[..]), frame[..], from, size, pos, acc, c);
      if pos < size {
        frame[from + pos] := c;
        pos := pos + 1;
      }
      if index >= length {
        if start < length {
          ScanCut(s, start, flagBehind, acc);
        }
        return false, index, pos;
      }
      index := index + 1;
      ScanOn(s, start, index, c, flagBehind, acc);
      if index == length {
        ScanStart(s, index, flagBehind);
      }
      acc := acc + [c];
      if buf[base + index] == HDLC_FLAG {
        return true, index, pos;
      }
    }
  }

  /** sstp_frame_decode: computes Decode of the live octets. The octets behind them are read too, so
      somewhere behind there must be one that is no flag, with one more octet in memory. */
  method FrameDecode(buf: array<byte>, base: nat, length0: nat, frame: array<byte>, from: nat, size0: nat, ghost stop: nat)
    returns (status: Status, length: nat, size: int)
    requires buf != frame && from + size0 <= frame.Length
    requires length0 <= stop && base + stop + 1 < buf.Length && buf[base + stop] != HDLC_FLAG
    modifies frame
    ensures match Decode(buf[base..base + length0], buf[base + length0] == HDLC_FLAG, size0)
      case Overflow => status == SstpOverflow && length == length0 && size == size0
      case Rejected(at, n) => status == SstpFail && length == at && size == n
      case Accepted(at, payload) =>
        status == SstpOkay && length == at && size == |payload| && size <= size0 && frame[from..from + size] == payload
    ensures frame[..from] == old(frame[..from]) && frame[from + size0..] == old(frame[from + size0..])
  {
    hide ScanBody, SkipFlags, Crc;
    var closed, index, pos: int := Unstuff(buf, base, length0, frame, from, size0, stop);
    if !closed {
      return SstpOverflow, length0, size0;
    }
    size := pos - 2;
    length := index;
    if pos < 4 {
      return SstpFail, length, size;
    }
    var fcs := FrameCheck(PPPINITFCS16, frame, from, pos);
    if PPPGOODFCS16 != fcs {
      return SstpFail, length, size;
    }
    return SstpOkay, length, size;
  }

  lemma SkipFlagsIs(s: seq<byte>, memory: seq<byte>, index: nat)
    requires s <= memory && index < |memory| && memory[index] != HDLC_FLAG
    requires forall k :: 0 <= k < index ==> memory[k] == HDLC_FLAG
    ensures SkipFlags(s) == if index < |s| then index else |s|
  {
    assert index < |s| ==> s[index] != HDLC_FLAG;
    assert forall k :: 0 <= k < index && k < |s| ==> s[k] == HDLC_FLAG;
  }

  lemma HoldsNone(frame: seq<byte>, from: nat, max: nat)
    requires from + max <= |frame|
    ensures Holds(frame, frame, from, max, 0, [])
  {
  }

  lemma HoldsNext(before: seq<byte>, frame: seq<byte>, from: nat, max: nat, pos: nat, content: seq<byte>, c: byte)
    requires Holds(before, frame, from, max, pos, content)
    ensures |frame| == |before| && frame[..from] == before[..from] && frame[from + max..] == before[from + max..]
    ensures pos <= max
    ensures if pos < max then Holds(before, frame[from + pos := c], from, max, pos + 1, content + [c])
      else Holds(before, frame, from, max, pos, content + [c])
  {
  }

  // ----- encoder and decoder are inverse -----

  lemma {:induction false} StuffHead(s: seq<byte>)
    requires s != []
    ensures Stuff(s) == StuffByte(s[0]) + Stuff(s[1..])
  {
    hide StuffByte;
    var last := |s| - 1;
    if last == 0 {
    } else {
      StuffHead(s[..last]);
      var middle := s[1..last];
      assert s[..last][1..] == middle && s[1..][..last - 1] == middle && s[1..][last - 1] == s[last];
      assert Stuff(s) == (StuffByte(s[0]) + Stuff(middle)) + StuffByte(s[last]);
      assert Stuff(s[1..]) == Stuff(middle) + StuffByte(s[last]);
    }
  }

  lemma StuffFirst(s: seq<byte>)
    requires s != []
    ensures |Stuff(s)| > 0 && Stuff(s)[0] != HDLC_FLAG
  {
    StuffHead(s);
  }

  lemma ScanStuffedByte(s: seq<byte>, i: nat, c: byte, rest: seq<byte>, flagBehind: bool)
    requires i <= |s| && s[i..] == StuffByte(c) + rest && rest != []
    ensures var j := i + |StuffByte(c)|;
      j < |s| && s[j..] == rest &&
      ScanBody(s, i, flagBehind) ==
        if rest[0] == HDLC_FLAG then Closed(j, [c]) else Prepend([c], ScanBody(s, j, flagBehind))
  {
    hide Xor, ScanBody, Prepend;
    var j := i + |StuffByte(c)|;
    assert |s| - i == |s[i..]|;
    assert s[i] == s[i..][0] && (MustEscape(c) ==> s[i + 1] == s[i..][1]);
    assert s[j..] == s[i..][|StuffByte(c)|..] == rest;
    assert s[j] == rest[0];
    XorTwice(c, HDLC_TRANSPARENCY);
    ScanOn(s, i, j, c, flagBehind, []);
    ScanStart(s, i, flagBehind);
    assert [] + [c] == [c];
  }

  lemma StuffedRest(q: seq<byte>, t: seq<byte>)
    requires q != []
    ensures var rest := Stuff(q[1..]) + [HDLC_FLAG] + t;
      Stuff(q) + [HDLC_FLAG] + t == StuffByte(q[0]) + rest && |Stuff(q)| == |StuffByte(q[0])| + |Stuff(q[1..])| &&
      (rest[0] == HDLC_FLAG <==> q[1..] == [])
  {
    hide StuffByte;
    StuffHead(q);
    if q[1..] != [] {
      StuffFirst(q[1..]);
    }
  }

  lemma {:induction false} ScanStuffed(s: seq<byte>, i: nat, q: seq<byte>, t: seq<byte>, flagBehind: bool)
    requires q != [] && i <= |s| && s[i..] == Stuff(q) + [HDLC_FLAG] + t
    ensures ScanBody(s, i, flagBehind) == Closed(i + |Stuff(q)|, q)
    decreases q
  {
    hide ScanBody, StuffByte, Stuff;
    var rest := Stuff(q[1..]) + [HDLC_FLAG] + t;
    StuffedRest(q, t);
    ScanStuffedByte(s, i, q[0], rest, flagBehind);
    assert q == [q[0]] + q[1..];
    if q[1..] == [] {
      StuffNothing();
    } else {
      ScanStuffed(s, i + |StuffByte(q[0])|, q[1..], t, flagBehind);
    }
  }

  lemma {:induction false} StuffAppend(a: seq<byte>, b: seq<byte>)
    ensures Stuff(a + b) == Stuff(a) + Stuff(b)
    decreases b
  {
    hide StuffByte;
    if b == [] {
      assert a + b == a;
    } else {
      var n := |b| - 1;
      assert (a + b)[..|a| + n] == a + b[..n];
      StuffAppend(a, b[..n]);
      assert Stuff(a) + Stuff(b[..n]) + StuffByte(b[n]) == Stuff(a) + (Stuff(b[..n]) + StuffByte(b[n]));
    }
  }

  lemma StuffNothing()
    ensures Stuff([]) == []
  {
  }

  ghost predicate AllFlags(s: seq<byte>) {
    forall k :: 0 <= k < |s| ==> s[k] == HDLC_FLAG
  }

  lemma {:induction false} SkipAllFlags(flags: seq<byte>, t: seq<byte>)
    requires AllFlags(flags) && t != [] && t[0] != HDLC_FLAG
    ensures SkipFlags(flags + t) == |flags|
  {
    SkipFlagsIs(flags + t, flags + t, |flags|);
  }

  /** Round trip: after any flags, an encoded payload of at least two octets decodes to itself, and the
      decoder stops on the closing flag, whatever follows. */
  lemma RoundTrip(flags: seq<byte>, payload: seq<byte>, t: seq<byte>, flagBehind: bool, max: nat)
    requires AllFlags(flags) && 2 <= |payload| && |payload| + 2 <= max
    ensures Decode(flags + Encoded(payload) + t, flagBehind, max) ==
      Accepted(|flags| + |Encoded(payload)| - 1, payload)
  {
    hide Crc, Stuff, Complement, LowByte, HighByte;
    var body := Body(payload);
    var s := flags + Encoded(payload) + t;
    var opening := flags + [HDLC_FLAG];
    var tail := Stuff(body) + [HDLC_FLAG] + t;
    assert s == opening + tail;
    StuffFirst(body);
    SkipAllFlags(opening, tail);
    ScanStuffed(s, |opening|, body, t, flagBehind);
    GoodResidue(payload);
  }

  /** What the decoder accepts: exactly the frames whose unstuffed content, cut to the buffer, is a
      payload of at least two octets followed by its own frame check field. */
  lemma AcceptedIff(s: seq<byte>, flagBehind: bool, max: nat, at: nat, payload: seq<byte>)
    ensures Decode(s, flagBehind, max) == Accepted(at, payload) <==>
      var scan := ScanBody(s, SkipFlags(s), flagBehind);
      scan.Closed? && scan.at == at && |payload| >= 2 && Truncate(scan.content, max) == Body(payload)
  {
    hide Crc, Complement, LowByte, HighByte, ScanBody, SkipFlags;
    var scan := ScanBody(s, SkipFlags(s), flagBehind);
    if scan.Closed? {
      var cut := Truncate(scan.content, max);
      if |cut| >= 4 {
        var n := |cut| - 2;
        assert cut == cut[..n] + [cut[n], cut[n + 1]];
        GoodResidueIff(cut[..n], cut[n], cut[n + 1]);
        assert FcsField(cut[..n]) == [cut[n], cut[n + 1]] ==> cut == Body(cut[..n]);
        assert cut == Body(payload) ==>
          cut[..n] == payload && cut[n] == FcsField(payload)[0] && cut[n + 1] == FcsField(payload)[1];
      }
    }
  }

  /** A frame whose unstuffed content differs from an encoded one only within two adjacent octets is
      rejected, and the decoder stops on its closing flag. */
  lemma CorruptionRejected(s: seq<byte>, flagBehind: bool, max: nat, payload: seq<byte>, k: nat)
    requires var scan := ScanBody(s, SkipFlags(s), flagBehind);
      var body := Body(payload);
      scan.Closed? && |scan.content| == |body| <= max && k < |body| && scan.content[k] != body[k] &&
      forall i :: 0 <= i < |body| && i != k && i != k + 1 ==> scan.content[i] == body[i]
    ensures var scan := ScanBody(s, SkipFlags(s), flagBehind);
      Decode(s, flagBehind, max) == Rejected(scan.at, |payload|)
  {
    hide Crc, Complement, LowByte, HighByte;
    var scan := ScanBody(s, SkipFlags(s), flagBehind);
    GoodResidue(payload);
    AdjacentErrorDetected(PPPINITFCS16, scan.content, Body(payload), k);
  }

  // ----- more octets never change a frame that is complete -----

  lemma {:induction false} ScanExtend(s: seq<byte>, t: seq<byte>, i: nat, flagBehind: bool)
    requires i <= |s| && ScanBody(s, i, false).Closed?
    ensures ScanBody(s + t, i, flagBehind) == ScanBody(s, i, false)
    decreases |s| - i
  {
    hide Xor;
    var j := if s[i] == HDLC_ESCAPE then i + 2 else i + 1;
    if s[j] != HDLC_FLAG {
      ScanExtend(s, t, j, flagBehind);
    }
  }

  lemma DecodeExtend(s: seq<byte>, t: seq<byte>, flagBehind: bool, max: nat)
    requires !Decode(s, false, max).Overflow?
    ensures Decode(s + t, flagBehind, max) == Decode(s, false, max)
  {
    hide Crc, ScanBody;
    SkipFlagsIs(s, s + t, SkipFlags(s));
    SkipFlagsIs(s + t, s + t, SkipFlags(s));
    ScanExtend(s, t, SkipFlags(s), flagBehind);
  }

  /** A strict prefix of a frame is reported as incomplete. */
  lemma PrefixOverflows(flags: seq<byte>, payload: seq<byte>, prefix: seq<byte>, max: nat)
    requires AllFlags(flags) && 2 <= |payload| && |payload| + 2 <= max
    requires prefix < flags + Encoded(payload)
    ensures Decode(prefix, false, max) == Overflow
  {
    hide Decode, Encoded;
    var whole := flags + Encoded(payload);
    RoundTrip(flags, payload, [], false, max);
    assert whole + [] == whole == prefix + whole[|prefix|..];
    if Decode(prefix, false, max) != Overflow {
      DecodeExtend(prefix, whole[|prefix|..], false, max);
    }
  }

  // ----- the octet behind the live ones -----

  /** How many escapes the octets end with. */
  function TrailingEscapes(s: seq<byte>): nat {
    if s == [] || s[|s| - 1] != HDLC_ESCAPE then 0 else 1 + TrailingEscapes(s[..|s| - 1])
  }

  // The last octet is an escape that is not escaped itself.
  predicate Dangling(s: seq<byte>) {
    TrailingEscapes(s) % 2 == 1
  }

  lemma {:induction false} TrailingPrepend(x: byte, s: seq<byte>)
    ensures TrailingEscapes(s) <= |s|
    ensures TrailingEscapes([x] + s) ==
      if TrailingEscapes(s) == |s| && x == HDLC_ESCAPE then |s| + 1 else TrailingEscapes(s)
  {
    if s == [] {
      assert [x] + s == [x] && [x][..0] == [];
    } else {
      var n := |s| - 1;
      assert ([x] + s)[..n + 1] == [x] + s[..n];
      TrailingPrepend(x, s[..n]);
    }
  }

  // An octet that is no escape starts the count anew.
  lemma TrailingUnit(s: seq<byte>, i: nat, j: nat)
    requires i < j <= |s| && j == if s[i] == HDLC_ESCAPE then i + 2 else i + 1
    ensures Dangling(s[i..]) <==> Dangling(s[j..])
  {
    assert s[i..] == [s[i]] + s[i + 1..];
    TrailingPrepend(s[i], s[i + 1..]);
    if j == i + 2 {
      assert s[i + 1..] == [s[i + 1]] + s[j..];
      TrailingPrepend(s[i + 1], s[j..]);
    }
  }

  lemma {:induction false} TrailingBehindFlags(s: seq<byte>)
    ensures Dangling(s) <==> Dangling(s[SkipFlags(s)..])
  {
    if s != [] && s[0] == HDLC_FLAG {
      TrailingUnit(s, 0, 1);
      assert s[0..] == s;
      TrailingBehindFlags(s[1..]);
      assert s[1..][SkipFlags(s[1..])..] == s[SkipFlags(s)..];
    } else {
      assert s[0..] == s;
    }
  }

  lemma TrailingShort(c: byte)
    ensures !Dangling([]) && (Dangling([c]) <==> c == HDLC_ESCAPE)
  {
    assert [c][..0] == [];
  }

  /** A body that is still open is closed by a flag, whether that is the next octet or only lies behind;
      and it does not close exactly if there is nothing of it yet, or if its last octet is an escape. */
  lemma {:induction false} ScanFlagAppended(s: seq<byte>, i: nat)
    requires i <= |s| && ScanBody(s, i, false).Open?
    ensures ScanBody(s + [HDLC_FLAG], i, false) == ScanBody(s, i, true)
    ensures ScanBody(s, i, true).Closed? ==> ScanBody(s, i, true).at == |s|
    ensures ScanBody(s, i, true).Open? <==> i == |s| || Dangling(s[i..])
    decreases |s| - i
  {
    hide Xor, Dangling;
    if i < |s| {
      var j := if s[i] == HDLC_ESCAPE then i + 2 else i + 1;
      if j > |s| {
        assert s[i..] == [HDLC_ESCAPE];
        TrailingShort(s[i]);
      } else {
        TrailingUnit(s, i, j);
        if j < |s| {
          ScanFlagAppended(s, j);
        } else {
          assert s[j..] == [];
          TrailingShort(0);
        }
      }
    }
  }

  // Anything but a flag leaves an incomplete frame incomplete.
  lemma {:induction false} ScanNoFlag(s: seq<byte>, i: nat, x: byte)
    requires i <= |s| && ScanBody(s, i, false).Open? && x != HDLC_FLAG
    ensures ScanBody(s + [x], i, false).Open?
    decreases |s| - i
  {
    hide Xor;
    if i < |s| {
      var j := if s[i] == HDLC_ESCAPE then i + 2 else i + 1;
      if j < |s| {
        ScanNoFlag(s, j, x);
      }
    }
  }

  lemma DecodeNoFlag(s: seq<byte>, x: byte, max: nat)
    requires Decode(s, false, max).Overflow? && x != HDLC_FLAG
    ensures Decode(s + [x], false, max).Overflow?
  {
    hide ScanBody;
    var k := SkipFlags(s);
    SkipFlagsIs(s + [x], s + [x], k);
    ScanNoFlag(s, k, x);
  }

  lemma SkipFlagsAppended(s: seq<byte>)
    ensures SkipFlags(s) == |s| <==> AllFlags(s)
    ensures SkipFlags(s + [HDLC_FLAG]) == if AllFlags(s) then |s| + 1 else SkipFlags(s)
  {
    var t := s + [HDLC_FLAG];
    if AllFlags(s) {
      assert forall k :: 0 <= k < |t| ==> t[k] == HDLC_FLAG;
    } else {
      SkipFlagsIs(s, t, SkipFlags(s));
      SkipFlagsIs(t, t, SkipFlags(s));
    }
  }

  /** The octet behind the live ones matters only for an incomplete frame, and only if it is a flag; then
      the outcome is the one that a flag received next would have, and it is no longer SSTP_OVERFLOW
      unless there are only flags so far or the last octet is an escape. */
  lemma DecodeFlagBehind(s: seq<byte>, max: nat)
    ensures !Decode(s, false, max).Overflow? ==> Decode(s, true, max) == Decode(s, false, max)
    ensures Decode(s, false, max).Overflow? ==>
      var r := Decode(s, true, max);
      && r == Decode(s + [HDLC_FLAG], false, max)
      && (r.Overflow? <==> AllFlags(s) || Dangling(s))
      && (!r.Overflow? ==> r.at == |s|)
  {
    hide Crc, ScanBody, SkipFlags, Dangling;
    if !Decode(s, false, max).Overflow? {
      DecodeExtend(s, [], true, max);
      assert s + [] == s;
    } else {
      ScanFlagAppended(s, SkipFlags(s));
      SkipFlagsAppended(s);
      TrailingBehindFlags(s);
      if AllFlags(s) {
        ScanStart(s, |s|, true);
        ScanStart(s + [HDLC_FLAG], |s| + 1, false);
      }
    }
  }
}
