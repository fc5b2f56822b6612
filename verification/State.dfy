/** The SSTP state machine (sstp-state.c) over the stream: it reassembles packets, forwards data to the
    PPP engine, answers echo requests, and gives up on a silent peer. */
module State {
  import opened Bytes
  import opened Common
  import opened Packet
  import opened Stream
  import Mppe
  import opened Engine
  import opened Negotiation
  import opened Conversation
  import opened Pppd

  // ----- keepalive -----

  datatype Happening = Timeout | EchoReply | Other

  datatype Keepalive = Keepalive(echo: nat, aborts: nat)

  /** What the echo counter and the test on it make of a history of events. */
  function Watch(past: seq<Happening>): Keepalive {
    if past == [] then Keepalive(0, 0)
    else
      var k := Watch(past[..|past| - 1]);
      match past[|past| - 1]
      case Timeout => if k.echo > 4 then k.(aborts := k.aborts + 1) else k.(echo := k.echo + 1)
      case EchoReply => k.(echo := 0)
      case Other => k
  }

  /** The timeouts since the last echo reply, or since the start. */
  function SinceReply(past: seq<Happening>): nat {
    if past == [] then 0
    else
      match past[|past| - 1]
      case Timeout => SinceReply(past[..|past| - 1]) + 1
      case EchoReply => 0
      case Other => SinceReply(past[..|past| - 1])
  }

  /** Over every history the counter is the number of timeouts since the last echo reply, up to five; and
      the peer has been given up exactly if a sixth timeout came without an echo reply in between. */
  lemma {:induction false} KeepaliveExact(past: seq<Happening>)
    ensures Watch(past).echo == Min(SinceReply(past), 5)
    ensures Watch(past).aborts > 0 <==> exists k :: 0 <= k <= |past| && SinceReply(past[..k]) >= 6
  {
    if past == [] {
    } else {
      var n := |past| - 1;
      var before := past[..n];
      KeepaliveExact(before);
      assert forall k :: 0 <= k <= n ==> past[..k] == before[..k];
      assert past[..|past|] == past;
      if Watch(before).aborts > 0 {
        var k :| 0 <= k <= |before| && SinceReply(before[..k]) >= 6;
        assert SinceReply(past[..k]) >= 6;
      } else if Watch(past).aborts > 0 {
        assert SinceReply(past[..|past|]) >= 6;
      } else if exists k :: 0 <= k <= |past| && SinceReply(past[..k]) >= 6 {
        var k :| 0 <= k <= |past| && SinceReply(past[..k]) >= 6;
        assert k == |past|;
      }
    }
  }

  /** A timeout gives the peer up exactly if it is the sixth, or a later one, without an echo reply. */
  lemma TimeoutExact(past: seq<Happening>)
    ensures var next := past + [Timeout];
      && SinceReply(next) == SinceReply(past) + 1
      && Watch(next) == (if SinceReply(next) >= 6 then Watch(past).(aborts := Watch(past).aborts + 1)
                         else Watch(past).(echo := Watch(past).echo + 1))
  {
    assert (past + [Timeout])[..|past|] == past;
    KeepaliveExact(past);
  }

  // ----- the packets of a stream -----

  function Concat(packets: seq<seq<byte>>): seq<byte> {
    if packets == [] then [] else Concat(packets[..|packets| - 1]) + packets[|packets| - 1]
  }

  // The payloads of the data packets, as far as they are not empty.
  function Payloads(packets: seq<seq<byte>>): seq<seq<byte>> {
    if packets == [] then [] else Payloads(packets[..|packets| - 1]) + Payload(packets[|packets| - 1])
  }

  function Payload(p: seq<byte>): seq<seq<byte>> {
    if |p| <= HEADER_SIZE || IsControl(p) then [] else [p[HEADER_SIZE..]]
  }

  datatype Call = CallAbort | CallConnect | CallDisconnect | CallFailed

  // What the PPP engine has to do with a packet that is forwarded to it.
  ghost predicate Forwardable(p: seq<byte>)
    requires |p| >= HEADER_SIZE
  {
    IsControl(p) || FitsLocal(p[HEADER_SIZE..])
  }

  /** The PPP engine is where `inputs` takes it; it has delivered what they deliver, and queued the frames
      they lead to, as SSTP data packets. The frames among them are the payloads of `handled`. */
  ghost predicate Tracks(cfg: Config, start: Ctl, handled: seq<seq<byte>>, inputs: seq<Input>,
                         now: Ctl, delivered: seq<seq<byte>>, queued: seq<seq<byte>>) {
    Safe(start) && (forall p :: p in handled ==> WellFormed(p)) && FramesOf(inputs) == Payloads(handled) &&
    var r := Run(cfg, start, inputs);
    now == r.s && delivered == r.ips && queued == DataPackets(r.frames)
  }

  lemma TracksNone(cfg: Config, start: Ctl)
    requires Safe(start)
    ensures Tracks(cfg, start, [], [], start, [], [])
  {
  }

  lemma TracksData(cfg: Config, start: Ctl, handled: seq<seq<byte>>, inputs: seq<Input>, now: Ctl,
                   delivered: seq<seq<byte>>, queued: seq<seq<byte>>, p: seq<byte>, env: Env)
    requires Tracks(cfg, start, handled, inputs, now, delivered, queued)
    requires WellFormed(p) && |p| > HEADER_SIZE && !IsControl(p)
    ensures Safe(now)
    ensures var i := Peer(p[HEADER_SIZE..], env);
      var o := Dispatch(cfg, now, p[HEADER_SIZE..], env);
      Tracks(cfg, start, handled + [p], inputs + [i], o.s, delivered + o.ips, queued + DataPackets(o.frames))
  {
    hide Run, Step, Dispatch;
    var i := Peer(p[HEADER_SIZE..], env);
    PayloadsSnoc(handled, p);
    RunSnoc(cfg, start, inputs, i);
    RunKeeps(cfg, start, inputs);
    DispatchIsStep(cfg, now, i.frame, env);
    DataPacketsAppend(Run(cfg, start, inputs).frames, Dispatch(cfg, now, i.frame, env).frames);
    FramesOfAppend(inputs, [i]);
    assert [i][1..] == [];
  }

  lemma TracksLocal(cfg: Config, start: Ctl, handled: seq<seq<byte>>, inputs: seq<Input>, now: Ctl,
                    delivered: seq<seq<byte>>, queued: seq<seq<byte>>, ip: seq<byte>)
    requires Tracks(cfg, start, handled, inputs, now, delivered, queued)
    ensures Safe(now)
    ensures var o := SendIp(cfg.crypto, now, ip);
      Tracks(cfg, start, handled, inputs + [Local(ip)], o.s, delivered, queued + DataPackets(o.frames))
  {
    hide Run, SendIp;
    var i: Input := Local(ip);
    RunSnoc(cfg, start, inputs, i);
    RunKeeps(cfg, start, inputs);
    FramesOfAppend(inputs, [i]);
    assert [i][1..] == [];
    LocalStep(cfg, now, ip);
    DataPacketsAppend(Run(cfg, start, inputs).frames, SendIp(cfg.crypto, now, ip).frames);
    assert FramesOf([i]) == [] && Payloads(handled) + [] == Payloads(handled);
    assert delivered + [] == delivered;
  }

  lemma TracksOther(cfg: Config, start: Ctl, handled: seq<seq<byte>>, inputs: seq<Input>, now: Ctl,
                    delivered: seq<seq<byte>>, queued: seq<seq<byte>>, p: seq<byte>)
    requires Tracks(cfg, start, handled, inputs, now, delivered, queued)
    requires WellFormed(p) && (IsControl(p) || |p| == HEADER_SIZE)
    ensures Tracks(cfg, start, handled + [p], inputs, now, delivered, queued)
  {
    hide Run;
    PayloadsSnoc(handled, p);
    assert Payloads(handled) + [] == Payloads(handled);
  }

  // ----- the attributes of control messages -----

  const SSTP_ATTR_STATUS_INFO: byte := 2
  const SSTP_ATTR_CRYPTO_BIND_REQ: byte := 4

  // The attributes of the message `c`; the slot that the parser does not clear taken as empty.
  function Attributes(c: seq<byte>): (r: Parsed)
    ensures r.Parsed? ==> |r.slots| == 5
  {
    ParseOf(c, |c|, NONE)
  }

  predicate HasAttribute(c: seq<byte>, id: nat)
    requires id < 5
  {
    Attributes(c).Parsed? && 0 <= Attributes(c).slots[id] <= |c| - ATTR_SIZE
  }

  // The length of its value, as the attribute states it.
  function ValueLength(c: seq<byte>, id: nat): int
    requires id < 5 && HasAttribute(c, id)
  {
    var slot := Attributes(c).slots[id];
    GetBe16(c[slot + 2..slot + 4]) - ATTR_SIZE
  }

  predicate HasStatus(c: seq<byte>) {
    HasAttribute(c, SSTP_ATTR_STATUS_INFO) && ValueLength(c, SSTP_ATTR_STATUS_INFO) >= 4
  }

  predicate HasBinding(c: seq<byte>) {
    HasAttribute(c, SSTP_ATTR_CRYPTO_BIND_REQ) && ValueLength(c, SSTP_ATTR_CRYPTO_BIND_REQ) == 36
  }

  // `n` octets of the value lie inside the message.
  predicate ValueInside(c: seq<byte>, id: nat, n: nat)
    requires id < 5 && HasAttribute(c, id)
  {
    Attributes(c).slots[id] + ATTR_SIZE + n <= |c|
  }

  function Value(c: seq<byte>, id: nat, from: nat, to: nat): seq<byte>
    requires id < 5 && HasAttribute(c, id) && from <= to && ValueInside(c, id, to)
  {
    var slot := Attributes(c).slots[id];
    c[slot + ATTR_SIZE + from..slot + ATTR_SIZE + to]
  }

  /** What is made of the message does not depend on the memory behind it, nor on the slot that the parser
      does not clear. */
  predicate Understood(msg: uint16, c: seq<byte>) {
    if msg == SSTP_MSG_CONNECT_ACK then
      Attributes(c).Refused? ||
      (HasAttribute(c, SSTP_ATTR_CRYPTO_BIND_REQ) && (HasBinding(c) ==> ValueInside(c, SSTP_ATTR_CRYPTO_BIND_REQ, 36)))
    else if msg == SSTP_MSG_CONNECT_NAK || msg == SSTP_MSG_ABORT || msg == SSTP_MSG_DISCONNECT then
      !Attributes(c).Beyond? && (HasStatus(c) ==> ValueInside(c, SSTP_ATTR_STATUS_INFO, 8))
    else true
  }

  /** The control messages sent in answer to one. */
  function Answers(msg: uint16, c: seq<byte>): seq<seq<byte>> {
    if msg == SSTP_MSG_CONNECT_NAK && HasStatus(c) then [Control(SSTP_MSG_DISCONNECT, [])]
    else if msg == SSTP_MSG_DISCONNECT && HasStatus(c) then [Control(SSTP_MSG_DISCONNECT_ACK, [])]
    else if msg == SSTP_ECHO_REQUEST then [Control(SSTP_ECHO_REPLY, [])]
    else []
  }

  /** The calls of the owner that it leads to. */
  function Callbacks(msg: uint16, c: seq<byte>): seq<Call> {
    if msg == SSTP_MSG_CONNECT_ACK then [if HasBinding(c) then CallConnect else CallAbort]
    else if msg == SSTP_MSG_ABORT && HasStatus(c) then [CallAbort]
    else if msg == SSTP_MSG_DISCONNECT || msg == SSTP_MSG_DISCONNECT_ACK then [CallDisconnect]
    else []
  }

  /** What handling it returns; only SSTP_INPROG suspends the reception. */
  function Returned(msg: uint16, c: seq<byte>, answer: Status): Status {
    if msg != SSTP_MSG_CONNECT_ACK then SstpOkay else if HasBinding(c) then answer else SstpFail
  }

  /** What each control message leads to, octet by octet: a refusal of the connection with a status is
      answered by a disconnect, a disconnect with a status by its acknowledgement, an echo request always by
      a reply. The owner is told of the connection or, without a binding request of 36 octets, of its end;
      of an abort with a status; and of every disconnect. Nothing else leads to anything, and only the
      answer of the owner to the connection can be other than OKAY. */
  lemma Reactions(msg: uint16, c: seq<byte>, answer: Status)
    ensures Answers(msg, c) ==
      if msg == 3 && HasStatus(c) then [[0x10, 0x01, 0, 8, 0, 6, 0, 0]]
      else if msg == 6 && HasStatus(c) then [[0x10, 0x01, 0, 8, 0, 7, 0, 0]]
      else if msg == 8 then [[0x10, 0x01, 0, 8, 0, 9, 0, 0]]
      else []
    ensures Callbacks(msg, c) == (match msg
      case 2 => if HasBinding(c) then [CallConnect] else [CallAbort]
      case 5 => if HasStatus(c) then [CallAbort] else []
      case 6 => [CallDisconnect]
      case 7 => [CallDisconnect]
      case _ => [])
    ensures msg != 2 ==> Returned(msg, c, answer) == SstpOkay
    ensures Returned(2, c, answer) == if HasBinding(c) then answer else SstpFail
  {
    PacketOctets([], 6);
    PacketOctets([], 7);
    PacketOctets([], 9);
    hide Control, HasStatus, HasBinding;
  }

  /** A status counts as there from four octets on, a binding request only with 36. */
  lemma FoundIff(msg: uint16, a: Attr)
    requires |a.value| <= 0x7FFB
    ensures a.id == 2 ==> (HasStatus(Control(msg, [a])) <==> |a.value| >= 4)
    ensures a.id == 4 ==> (HasBinding(Control(msg, [a])) <==> |a.value| == 36)
  {
    if |a.value| >= 2 && a.id <= SSTP_ATTR_MAX {
      ParseOne(msg, a, NONE);
      hide Control;
      assert |Control(msg, [a])| == 12 + |a.value|;
    } else {
      AttributeOctets(msg, a);
    }
  }

  lemma SameSlice(memory: seq<byte>, len: nat, i: nat, j: nat)
    requires i <= j <= |memory| && len <= |memory|
    ensures j <= len ==> memory[..len][i..j] == memory[i..j]
  {
  }

  // The parser's walk over memory that starts with `c`, whatever the slot it does not clear holds.
  lemma ParseSame(c: seq<byte>, memory: seq<byte>, last: int)
    requires c <= memory && !Attributes(c).Beyond?
    ensures var r, q := Attributes(c), ParseOf(memory, |c|, last);
      && (if r.Parsed? then q == r.(slots := if r.slots[4] == NONE then r.slots[4 := last] else r.slots) else q == r)
      && (r.Parsed? ==> forall id :: 0 <= id < 5 ==> r.slots[id] == NONE || 0 <= r.slots[id] <= |c| - ATTR_SIZE)
  {
    if |c| >= 14 && c[1] % 2 == 1 {
      assert memory[6..8] == c[6..8] && |memory| >= 14 && memory[1] == c[1];
      var count, slots := GetBe16(c[6..8]), Cleared(NONE);
      ParseInside(c, memory, 8, count, slots);
      ParseLast(memory, 8, count, slots, last);
      assert slots[4 := last] == Cleared(last);
      if Attributes(c).Parsed? {
        forall id | 0 <= id < 5
          ensures Attributes(c).slots[id] == NONE || 0 <= Attributes(c).slots[id] <= |c| - ATTR_SIZE
        {
          ParseSlots(c, 8, count, slots, id);
        }
      }
    }
  }

  /** A binding request and a status that were built into a message are understood and found, with their
      values. */
  lemma BoundAndStatus(msg: uint16, a: Attr)
    requires 8 <= |a.value| <= 0x7FFB && a.id <= SSTP_ATTR_MAX
    ensures var c := Control(msg, [a]);
      && HasAttribute(c, a.id) && ValueLength(c, a.id) == |a.value| && ValueInside(c, a.id, |a.value|)
      && Value(c, a.id, 0, |a.value|) == a.value
      && (a.id == SSTP_ATTR_STATUS_INFO ==> HasStatus(c) && Understood(SSTP_MSG_ABORT, c))
      && (a.id == SSTP_ATTR_CRYPTO_BIND_REQ ==> Understood(SSTP_MSG_CONNECT_ACK, c) && (HasBinding(c) <==> |a.value| == 36))
  {
    var c := Control(msg, [a]);
    ParseOne(msg, a, NONE);
    hide Control;
    assert Attributes(c).slots[a.id] == 8;
    assert c[12..12 + |a.value|] == c[12..] by { assert |c| == 12 + |a.value|; }
  }

  /** What became of the octets received in one go: the packet is whole and has been handled, more of it
      has to come, the stream failed, or `k` octets of its header were mistaken for a packet and lost. */
  datatype Outcome = Whole | Partial | Failed | Lost(k: nat)

  class SstpState {
    const rx: Buff
    const tx: Buff
    const stream: Stream
    const pppd: Pppd

    var echo: nat
    var proto: byte
    var nounce: seq<byte>
    var status: uint32
    var calls: seq<Call>                 // every state_cb
    var messages: seq<seq<byte>>         // every control message given to the stream
    var listening: bool                  // the receive event is armed

    ghost var past: seq<Happening>
    ghost var handled: seq<seq<byte>>    // every packet taken off the stream
    ghost var inputs: seq<Input>         // everything the PPP engine has been given
    ghost const octets: seq<byte>        // everything the peer ever sends
    ghost const start: Ctl               // the PPP engine at the start

    // The objects do not share storage.
    ghost predicate Apart()
    {
      rx != tx && rx.data != tx.data && rx.data.Length >= 48 && tx.data.Length >= 8
    }

    ghost predicate PppInStep()
      reads this`handled, this`inputs, pppd, pppd.tx, pppd.tx.nodes
    {
      pppd.Valid() && Tracks(pppd.cfg, start, handled, inputs, pppd.State(), pppd.delivered, pppd.tx.books.enqueued)
    }

    // Everything but the account of the octets.
    ghost predicate Running()
      reads this, rx, pppd, pppd.tx, pppd.tx.nodes
    {
      Apart() && PppInStep() && rx.off <= rx.data.Length && echo == Watch(past).echo
    }

    ghost predicate Valid()
      reads this, rx, rx.data, stream, pppd, pppd.tx, pppd.tx.nodes
    {
      Running() && octets == Concat(handled) + stream.Pending(rx)
    }

    /** sstp_state_create, joined with the engine that the owner creates on SSTP_CALL_CONNECT. */
    constructor (stream: Stream, pppd: Pppd)
      requires pppd.Valid() && Safe(pppd.State()) && pppd.delivered == [] && pppd.tx.books.enqueued == []
      ensures Valid() && listening && this.stream == stream && this.pppd == pppd
      ensures octets == stream.wire && start == pppd.State() && handled == [] && inputs == [] && past == []
      ensures calls == [] && messages == []
      ensures fresh(rx) && fresh(rx.data) && fresh(tx) && fresh(tx.data)
      ensures rx.data.Length == 16384 && rx.off == 0 && forall k :: 0 <= k < rx.data.Length ==> rx.data[k] == 0
    {
      this.rx := new Buff(16384);
      this.tx := new Buff(16384);
      this.stream, this.pppd := stream, pppd;
      echo, proto, nounce, status := 0, 0, Zeros(32), 0;
      calls, messages, listening := [], [], true;
      past, handled, inputs, octets, start := [], [], [], stream.wire, pppd.State();
      new;
      TracksNone(pppd.cfg, start);
      hide Tracks;
    }

    // sstp_stream_send for a control message.
    method SendMessage(msg: uint16)
      requires Apart() && msg != SSTP_MSG_DATA
      modifies this`messages, tx, tx.data
      ensures messages == old(messages) + [Control(msg, [])]
    {
      var _ := PktInit(tx, msg);
      messages := messages + [tx.data[..tx.len]];
    }

    /** sstp_state_recv on SSTP_TIMEOUT: one more echo request, or the end. Going on, it also drops what
        has been read of a packet; so no octet is lost exactly if the timeout falls between packets. */
    method RecvTimeout()
      requires Valid()
      modifies this`echo, this`calls, this`messages, this`listening, this`past, rx, tx, tx.data
      ensures Running() && past == old(past) + [Timeout]
      ensures if SinceReply(past) >= 6
        then Valid() && !listening && calls == old(calls) + [CallAbort] && messages == old(messages)
        else listening && calls == old(calls) && messages == old(messages) + [Control(SSTP_ECHO_REQUEST, [])] &&
             rx.off == 0 && (Valid() <==> old(rx.off) == 0)
    {
      hide PppInStep, Concat, Control, Watch, SinceReply;
      KeepaliveExact(past);
      TimeoutExact(past);
      past := past + [Timeout];
      if echo > 4 {
        calls := calls + [CallAbort];
        listening := false;
        return;
      }
      SendMessage(SSTP_ECHO_REQUEST);
      echo := echo + 1;
      ghost var pending := stream.Pending(rx);
      rx.Reset();
      listening := true;
      assert |pending| == old(rx.off) + |stream.Pending(rx)|;
      assert old(rx.off) == 0 ==> pending == stream.Pending(rx);
    }

    /** The owner sends an IP packet (sstp_pppd_send_ip). */
    method SendPacket(ip: seq<byte>) returns (ret: Status)
      requires Valid()
      modifies this`inputs, pppd`send, pppd.tx, pppd.tx.nodes
      ensures Valid() && inputs == old(inputs) + [Local(ip)] && fresh(pppd.tx.nodes - old(pppd.tx.nodes))
      ensures pppd.tx.books.enqueued ==
        old(pppd.tx.books.enqueued) + DataPackets(SendIp(pppd.cfg.crypto, old(pppd.State()), ip).frames)
      ensures ret == if 0 < |ip| <= PPP_MRU - 4 then SstpOkay else SstpFail
    {
      hide Tracks, SendIp, Concat, Watch;
      TracksLocal(pppd.cfg, start, handled, inputs, pppd.State(), pppd.delivered, pppd.tx.books.enqueued, ip);
      SendIpDelivers(pppd.cfg, pppd.State(), ip);
      ret := pppd.SendIp(ip);
      inputs := inputs + [Local(ip)];
    }

    /** The stream has finished a packet of the PPP engine (ppp_send_complete). */
    method SendDone()
      requires Valid()
      modifies pppd.tx
      ensures Valid() && pppd.tx.nodes == old(pppd.tx.nodes)
      ensures pppd.tx.books.enqueued == old(pppd.tx.books.enqueued) && old(pppd.tx.books.handed) <= pppd.tx.books.handed
    {
      hide Tracks, Concat, Watch;
      pppd.tx.SendComplete();
    }

    // sstp_state_handle_data: hand the payload to the PPP engine, which ignores an empty one.
    method HandleData(ghost p: seq<byte>, env: Env)
      requires Apart() && PppInStep() && rx.len <= rx.data.Length && rx.Contents() == p
      requires |p| > HEADER_SIZE ==> WellFormed(p) && !IsControl(p) && Forwardable(p)
      modifies this`handled, this`inputs, pppd, pppd.tx, pppd.tx.nodes
      ensures PppInStep() && fresh(pppd.tx.nodes - old(pppd.tx.nodes)) && old(inputs) <= inputs
      ensures if |p| > HEADER_SIZE then handled == old(handled) + [p] else handled == old(handled) && inputs == old(inputs)
      ensures |p| <= HEADER_SIZE ==> pppd.State() == old(pppd.State()) && pppd.delivered == old(pppd.delivered)
    {
      hide Tracks, Dispatch;
      if rx.len - HEADER_SIZE <= 0 {
        return;
      }
      var data := rx.data[HEADER_SIZE..rx.len];
      assert data == p[HEADER_SIZE..];
      TracksData(pppd.cfg, start, handled, inputs, pppd.State(), pppd.delivered, pppd.tx.books.enqueued, p, env);
      pppd.Dispatch(data, env);
      handled, inputs := handled + [p], inputs + [Peer(data, env)];
    }

    // What an attribute slot that was not cleared, or a message of several attributes, leads to is left open.
    method HandleOther() returns (ret: Status)
      requires Apart()
      modifies this`calls, this`messages, this`proto, this`nounce, this`status, rx`off
      ensures old(calls) <= calls && old(messages) <= messages
    {
      var more: seq<Call>, sent: seq<seq<byte>> := *, *;
      calls, messages := calls + more, messages + sent;
      proto, nounce, status, rx.off := *, *, *, *;
      ret := *;
    }

    /** sstp_state_connect_ack: remember the binding request of the server and call back, whose answer is
        `answer`; or give up. What a slot that is not cleared, or a walk beyond the message, leads to is
        left open. */
    method ConnectAck(answer: Status) returns (ret: Status)
      requires Apart() && rx.Valid()
      modifies this`calls, this`messages, this`proto, this`nounce, this`status, rx`off
      ensures old(calls) <= calls && old(messages) <= messages
      ensures var c := old(rx.Contents());
        Understood(SSTP_MSG_CONNECT_ACK, c) ==>
          && messages == old(messages) && calls == old(calls) + Callbacks(SSTP_MSG_CONNECT_ACK, c)
          && ret == Returned(SSTP_MSG_CONNECT_ACK, c, answer)
          && (HasBinding(c) ==>
                [proto] == Value(c, SSTP_ATTR_CRYPTO_BIND_REQ, 3, 4) && nounce == Value(c, SSTP_ATTR_CRYPTO_BIND_REQ, 4, 36))
    {
      hide ParseOf;
      ghost var memory, c := rx.data[..], rx.Contents();
      var garbage: int := *;
      if ParseOf(rx.data[..], rx.len, garbage).Beyond? {
        ret := HandleOther();
        if !Attributes(c).Beyond? {
          ParseSame(c, memory, garbage);
        }
        return;
      }
      if !Attributes(c).Beyond? {
        ParseSame(c, memory, garbage);
      }
      var parsed, attrs := PktParse(rx, [garbage, garbage, garbage, garbage, garbage]);
      if parsed != SstpOkay {
        calls := calls + [CallAbort];
        return SstpFail;
      }
      var attr := attrs[SSTP_ATTR_CRYPTO_BIND_REQ];
      if attr == NONE {
        calls := calls + [CallAbort];
        return SstpFail;
      }
      if attr < 0 || rx.data.Length < attr + ATTR_SIZE {
        ret := HandleOther();
        return;
      }
      var len := GetBe16(rx.data[attr + 2..attr + 4]) - ATTR_SIZE;
      SameSlice(memory, |c|, attr + 2, attr + 4);
      if len != 36 {
        calls := calls + [CallAbort];
        return SstpFail;
      }
      if rx.data.Length < attr + ATTR_SIZE + 36 {
        ret := HandleOther();
        return;
      }
      SameSlice(memory, |c|, attr + ATTR_SIZE + 3, attr + ATTR_SIZE + 4);
      SameSlice(memory, |c|, attr + ATTR_SIZE + 4, attr + ATTR_SIZE + 36);
      proto := rx.data[attr + ATTR_SIZE + 3];
      nounce := rx.data[attr + ATTR_SIZE + 4..attr + ATTR_SIZE + 36];
      calls := calls + [CallConnect];
      return answer;
    }

    /** sstp_state_connect_nak: remember the status the server gives, if it gives one. */
    method ReadStatus() returns (ret: Status)
      requires Apart() && rx.Valid()
      modifies this`calls, this`messages, this`proto, this`nounce, this`status, rx`off
      ensures old(calls) <= calls && old(messages) <= messages
      ensures var c := old(rx.Contents());
        Understood(SSTP_MSG_ABORT, c) ==>
          && messages == old(messages) && calls == old(calls)
          && ret == (if HasStatus(c) then SstpOkay else SstpFail)
          && status == if HasStatus(c) then GetBe32(Value(c, SSTP_ATTR_STATUS_INFO, 4, 8)) else old(status)
    {
      hide ParseOf;
      ghost var memory, c := rx.data[..], rx.Contents();
      var garbage: int := *;
      if !Attributes(c).Beyond? {
        ParseSame(c, memory, garbage);
      }
      if ParseOf(rx.data[..], rx.len, garbage).Beyond? {
        ret := HandleOther();
        return;
      }
      var parsed, attrs := PktParse(rx, [garbage, garbage, garbage, garbage, garbage]);
      if parsed != SstpOkay {
        return SstpFail;
      }
      var attr := attrs[SSTP_ATTR_STATUS_INFO];
      if attr == NONE {
        return SstpFail;
      }
      if attr < 0 || rx.data.Length < attr + ATTR_SIZE {
        ret := HandleOther();
        return;
      }
      var len := GetBe16(rx.data[attr + 2..attr + 4]) - ATTR_SIZE;
      SameSlice(memory, |c|, attr + 2, attr + 4);
      if len < 4 {
        return SstpFail;
      }
      if rx.data.Length < attr + ATTR_SIZE + 8 {
        ret := HandleOther();
        return;
      }
      SameSlice(memory, |c|, attr + ATTR_SIZE + 4, attr + ATTR_SIZE + 8);
      status := GetBe32(rx.data[attr + ATTR_SIZE + 4..attr + ATTR_SIZE + 8]);
      return SstpOkay;
    }

    // The messages that bring a status.
    method HandleStatus(msg: uint16)
      requires Apart() && rx.Valid() && msg in {SSTP_MSG_CONNECT_NAK, SSTP_MSG_ABORT, SSTP_MSG_DISCONNECT}
      modifies this`calls, this`messages, this`proto, this`nounce, this`status, rx`off, tx, tx.data
      ensures old(calls) <= calls && old(messages) <= messages
      ensures var c := old(rx.Contents());
        Understood(msg, c) ==>
          && messages == old(messages) + Answers(msg, c) && calls == old(calls) + Callbacks(msg, c)
          && status == if HasStatus(c) then GetBe32(Value(c, SSTP_ATTR_STATUS_INFO, 4, 8)) else old(status)
    {
      hide Attributes, Control;
      var ret := ReadStatus();
      if ret == SstpOkay && msg == SSTP_MSG_CONNECT_NAK {
        SendMessage(SSTP_MSG_DISCONNECT);
      } else if ret == SstpOkay && msg == SSTP_MSG_ABORT {
        calls := calls + [CallAbort];
      } else if ret == SstpOkay {
        SendMessage(SSTP_MSG_DISCONNECT_ACK);
      }
      if msg == SSTP_MSG_DISCONNECT {
        calls := calls + [CallDisconnect];
      }
    }

    /** sstp_state_handle_ctrl: only an echo reply resets the counter, and only the callback of a
        CONNECT_ACK can suspend the reception. */
    method HandleCtrl(msg: uint16, answer: Status) returns (ret: Status)
      requires Apart() && rx.Valid()
      modifies this`echo, this`calls, this`messages, this`proto, this`nounce, this`status, rx`off, tx, tx.data
      ensures echo == if msg == SSTP_ECHO_REPLY then 0 else old(echo)
      ensures msg != SSTP_MSG_CONNECT_ACK ==> ret == SstpOkay
      ensures var c := old(rx.Contents());
        Understood(msg, c) ==>
          && messages == old(messages) + Answers(msg, c) && calls == old(calls) + Callbacks(msg, c)
          && ret == Returned(msg, c, answer)
          && (msg == SSTP_MSG_CONNECT_ACK && HasBinding(c) ==>
                [proto] == Value(c, SSTP_ATTR_CRYPTO_BIND_REQ, 3, 4) && nounce == Value(c, SSTP_ATTR_CRYPTO_BIND_REQ, 4, 36))
    {
      hide Control, Attributes, HasAttribute, HasStatus, HasBinding;
      ret := SstpOkay;
      if msg == SSTP_MSG_CONNECT_ACK {
        ret := ConnectAck(answer);
      } else if msg == SSTP_MSG_CONNECT_NAK || msg == SSTP_MSG_ABORT || msg == SSTP_MSG_DISCONNECT {
        HandleStatus(msg);
      } else if msg == SSTP_MSG_DISCONNECT_ACK {
        calls := calls + [CallDisconnect];
      } else if msg == SSTP_ECHO_REQUEST {
        SendMessage(SSTP_ECHO_REPLY);
      } else if msg == SSTP_ECHO_REPLY {
        echo := 0;
      }
    }

    // What the packet in the buffer means for the keepalive; the type of a control packet is read from
    // memory even if the packet is shorter.
    ghost function Meaning(): Happening
      reads rx, rx.data
      requires rx.data.Length >= 48
    {
      if IsControl(rx.data[..]) && GetBe16(rx.data[4..]) == SSTP_ECHO_REPLY then EchoReply else Other
    }

    /** sstp_state_handle_packet, for what is in the receive buffer: a whole packet, or four octets that
        only look like one. */
    method HandlePacket(ghost p: seq<byte>, ghost whole: bool, env: Env, answer: Status) returns (ret: Status)
      requires Apart() && PppInStep() && rx.Valid() && rx.Contents() == p
      requires if whole then WellFormed(p) && Forwardable(p) else |p| == HEADER_SIZE
      modifies this`handled, this`inputs, this`echo, this`calls, this`messages, this`proto, this`nounce, this`status
      modifies rx`off, tx, tx.data, pppd, pppd.tx, pppd.tx.nodes
      ensures PppInStep() && fresh(pppd.tx.nodes - old(pppd.tx.nodes)) && old(inputs) <= inputs
      ensures handled == if whole then old(handled) + [p] else old(handled)
      ensures !whole ==> inputs == old(inputs) && pppd.State() == old(pppd.State()) && pppd.delivered == old(pppd.delivered)
      ensures echo == if old(Meaning()) == EchoReply then 0 else old(echo)
      ensures |p| >= HEADER_SIZE
      ensures !IsControl(p) ==> ret == SstpOkay && calls == old(calls) && messages == old(messages)
      ensures |p| >= 6 && IsControl(p) ==>
        var msg := GetBe16(p[4..]);
        && (msg != SSTP_MSG_CONNECT_ACK ==> ret == SstpOkay)
        && (Understood(msg, p) ==>
              messages == old(messages) + Answers(msg, p) && calls == old(calls) + Callbacks(msg, p) &&
              ret == Returned(msg, p, answer))
    {
      hide Tracks, Control, Understood, Answers, Callbacks, Returned;
      assert IsControl(rx.data[..]) == IsControl(p);
      MeaningInMemory(rx.data[..], rx.len);
      if whole && (IsControl(p) || |p| == HEADER_SIZE) {
        TracksOther(pppd.cfg, start, handled, inputs, pppd.State(), pppd.delivered, pppd.tx.books.enqueued, p);
        handled := handled + [p];
      }
      if rx.data[1] % 2 == 1 {
        var msg := GetBe16(rx.data[4..]);
        ret := HandleCtrl(msg, answer);
      } else {
        HandleData(p, env);
        ret := SstpOkay;
      }
    }

    /** The receive event (sstp_recv_cont), when data has arrived: resume the reassembly of the packet `p`
        and, once it is whole, have it handled (sstp_state_recv). It is lost exactly if what has been read
        of its header is mistaken for a packet. */
    method RecvReady(ghost p: seq<byte>, env: Env, answer: Status) returns (ghost outcome: Outcome)
      requires Valid() && listening && stream.Receiving(rx, p) && rx.off < |p| && Forwardable(p)
      modifies this`handled, this`inputs, this`echo, this`calls, this`messages, this`proto, this`nounce, this`status
      modifies this`listening, this`past, stream, rx, rx.data, tx, tx.data, pppd, pppd.tx, pppd.tx.nodes
      ensures Running() && fresh(pppd.tx.nodes - old(pppd.tx.nodes)) && old(inputs) <= inputs
      ensures !outcome.Lost? ==> Valid()
      ensures outcome.Whole? ==>
        handled == old(handled) + [p] && rx.off == 0 && (!IsControl(p) ==> listening) &&
        |past| == |old(past)| + 1 && old(past) <= past && (|p| >= 6 ==> past[|old(past)|] == MeaningOf(p))
      ensures outcome.Whole? ==> rx.data[..|p|] == p
      ensures outcome.Whole? && |p| >= 6 && IsControl(p) ==>
        var msg := GetBe16(p[4..]);
        && (msg != SSTP_MSG_CONNECT_ACK ==> listening)
        && (Understood(msg, p) ==>
              messages == old(messages) + Answers(msg, p) && calls == old(calls) + Callbacks(msg, p) &&
              listening == (Returned(msg, p, answer) != SstpInprog))
      ensures !outcome.Whole? ==>
        handled == old(handled) && inputs == old(inputs) &&
        pppd.State() == old(pppd.State()) && pppd.delivered == old(pppd.delivered)
      ensures outcome.Partial? || outcome.Failed? ==>
        past == old(past) && stream.Receiving(rx, p) && old(rx.off) <= rx.off < |p| &&
        (old(rx.off) < rx.off ==> !Mistaken(old(rx.data[..]), p, rx.off)) &&
        listening == outcome.Partial? && calls == old(calls) + if outcome.Failed? then [CallFailed] else []
      ensures outcome.Lost? ==>
        old(rx.off) < outcome.k && Mistaken(old(rx.data[..]), p, outcome.k) && rx.off == 0 &&
        octets == Concat(handled) + p[..outcome.k] + stream.wire
      ensures (outcome.Partial? <==> stream.last.WouldBlock?) && (outcome.Failed? <==> stream.last.Broken?)
      ensures stream.mode != Arbitrary || HeaderSafe(old(rx.data[..]), old(rx.off), p) ==> !outcome.Lost?
      ensures stream.mode == Eager && p <= old(stream.Pending(rx)) ==> outcome.Whole?
    {
      hide PppInStep, Concat, Watch, WellFormed, StaleLength, Understood, Answers, Callbacks, Returned;
      WellFormedSize(p);
      var ret := stream.RecvSstp(rx, p);
      if ret == SstpInprog {
        assert calls == calls + [];
        return Partial;
      }
      if ret == SstpFail {
        calls := calls + [CallFailed];
        listening := false;
        return Failed;
      }
      ghost var whole, k, contents := rx.off == |p|, rx.off, rx.Contents();
      if !whole {
        assert stream.Pending(rx) == p[..k] + stream.wire;
        assert Concat(handled) + (p[..k] + stream.wire) == Concat(handled) + p[..k] + stream.wire;
      }
      Complete(contents, whole, env, answer);
      return if whole then Whole else Lost(k);
    }

    /** The receive event behind a packet that RecvReady found whole: however the reads cut it, no octet of
        the next one is lost, unless that is shorter than 256 octets and the length of the previous one is
        at most 3 modulo 256; then an unlucky read can lose it. */
    method RecvNext(ghost previous: seq<byte>, ghost p: seq<byte>, env: Env, answer: Status) returns (ghost outcome: Outcome)
      requires Valid() && listening && stream.Receiving(rx, p) && rx.off == 0 && Forwardable(p)
      requires WellFormed(previous) && previous <= rx.data[..]
      modifies this`handled, this`inputs, this`echo, this`calls, this`messages, this`proto, this`nounce, this`status
      modifies this`listening, this`past, stream, rx, rx.data, tx, tx.data, pppd, pppd.tx, pppd.tx.nodes
      ensures Running() && fresh(pppd.tx.nodes - old(pppd.tx.nodes)) && old(inputs) <= inputs
      ensures (outcome.Partial? <==> stream.last.WouldBlock?) && (outcome.Failed? <==> stream.last.Broken?)
      ensures |p| >= 0x100 || |previous| % 0x100 > 3 ==> !outcome.Lost?
      ensures !outcome.Lost? ==> Valid()
      ensures handled == if outcome.Whole? then old(handled) + [p] else old(handled)
      ensures outcome.Whole? ==> rx.off == 0 && p <= rx.data[..]
      ensures outcome.Lost? ==> Mistaken(previous, p, outcome.k)
    {
      hide PppInStep, Concat, Watch, PktLen, Mistaken;
      HeaderBehind(rx.data[..], previous, p);
      outcome := RecvReady(p, env, answer);
      assert rx.data[..|p|] == p ==> p <= rx.data[..];
    }

    // sstp_state_recv on SSTP_OKAY: handle the packet, reset the buffer, go on listening.
    method Complete(ghost p: seq<byte>, ghost whole: bool, env: Env, answer: Status)
      requires Running() && rx.Valid() && rx.Contents() == p
      requires if whole then Valid() && WellFormed(p) && Forwardable(p) && rx.off == |p| else |p| == HEADER_SIZE
      modifies this`handled, this`inputs, this`echo, this`calls, this`messages, this`proto, this`nounce, this`status
      modifies this`listening, this`past, rx, tx, tx.data, pppd, pppd.tx, pppd.tx.nodes
      ensures Running() && fresh(pppd.tx.nodes - old(pppd.tx.nodes)) && rx.off == 0 && old(inputs) <= inputs
      ensures handled == if whole then old(handled) + [p] else old(handled)
      ensures whole ==> Valid()
      ensures !whole ==> inputs == old(inputs) && pppd.State() == old(pppd.State()) && pppd.delivered == old(pppd.delivered)
      ensures past == old(past) + [old(Meaning())] && (|p| >= 6 ==> old(Meaning()) == MeaningOf(p))
      ensures |p| >= HEADER_SIZE && (!IsControl(p) ==> listening)
      ensures |p| >= 6 && IsControl(p) ==>
        var msg := GetBe16(p[4..]);
        && (msg != SSTP_MSG_CONNECT_ACK ==> listening)
        && (Understood(msg, p) ==>
              messages == old(messages) + Answers(msg, p) && calls == old(calls) + Callbacks(msg, p) &&
              listening == (Returned(msg, p, answer) != SstpInprog))
    {
      hide PppInStep, Concat, Watch, Understood, Answers, Callbacks, Returned;
      ghost var meaning := Meaning();
      MeaningInMemory(rx.data[..], rx.len);
      WatchStep(past, meaning);
      ConcatSnoc(handled, p);
      if whole {
        assert stream.Pending(rx) == p + stream.wire;
        assert Concat(handled) + (p + stream.wire) == Concat(handled) + p + ([] + stream.wire);
      }
      var ret := HandlePacket(p, whole, env, answer);
      past := past + [meaning];
      rx.Reset();
      listening := ret != SstpInprog;
    }

    // sstp_state_resume_recv: arm the receive event again.
    method ResumeRecv()
      requires Valid()
      modifies this`listening
      ensures Valid() && listening
    {
      listening := true;
    }
  }

  /** From creation on: where every read gets what it asks for, the first packet is handled, though its
      buffer is fresh. */
  method FirstPacket(cfg: Config, magic: uint32, p: seq<byte>, env: Env, answer: Status) returns (state: SstpState)
    requires WellFormed(p) && |p| <= 16384 && Forwardable(p)
    ensures fresh(state) && state.Valid() && state.octets == p && state.handled == [p]
  {
    hide Tracks, Watch, Mistaken, HeaderSafe, Understood, Answers, Callbacks, Returned, MeaningOf, SstpState.Running;
    state := Begin(cfg, magic, p);
    var outcome := state.RecvReady(p, env, answer);
  }

  // The tunnel before its first packet.
  method Begin(cfg: Config, magic: uint32, p: seq<byte>) returns (state: SstpState)
    requires WellFormed(p) && |p| <= 16384
    ensures fresh(state) && fresh(state.rx) && fresh(state.rx.data) && fresh(state.tx) && fresh(state.tx.data)
    ensures fresh(state.stream) && fresh(state.pppd) && fresh(state.pppd.tx) && fresh(state.pppd.tx.nodes)
    ensures state.Valid() && state.listening && state.octets == p && state.handled == []
    ensures state.stream.Receiving(state.rx, p) && state.rx.off < |p|
    ensures state.stream.mode == Eager && p <= state.stream.Pending(state.rx)
  {
    hide Safe, Created, Extend, SstpState.Valid;
    CreatedSafe(magic);
    var stream := new Stream(p, Eager);
    var pppd := new Pppd(cfg, magic);
    state := new SstpState(stream, pppd);
    assert stream.Pending(state.rx) == p;
  }

  lemma CreatedSafe(magic: uint32)
    ensures Safe(Created(magic))
  {
  }

  lemma HeaderBehind(data: seq<byte>, previous: seq<byte>, p: seq<byte>)
    requires WellFormed(previous) && WellFormed(p) && previous <= data
    ensures HeaderSafe(data, 0, p) <==> |p| >= 0x100 || |previous| % 0x100 > 3
    ensures forall k: nat :: Mistaken(data, p, k) <==> Mistaken(previous, p, k)
  {
    HeaderSafeBehind(data, previous, p);
    forall k: nat | k <= HEADER_SIZE
      ensures StaleLength(data, p, k) == StaleLength(previous, p, k)
    {
      assert data[k..HEADER_SIZE] == previous[k..HEADER_SIZE];
    }
  }

  // What a packet means for the keepalive.
  ghost function MeaningOf(p: seq<byte>): Happening
    requires |p| >= 6
  {
    if IsControl(p) && GetBe16(p[4..]) == SSTP_ECHO_REPLY then EchoReply else Other
  }

  lemma MeaningInMemory(memory: seq<byte>, len: nat)
    requires HEADER_SIZE <= len <= |memory|
    ensures len >= 6 ==> GetBe16(memory[4..]) == GetBe16(memory[..len][4..]) && IsControl(memory) == IsControl(memory[..len])
  {
    if len >= 6 {
      assert memory[..len][4..][..2] == memory[4..][..2];
    }
  }

  lemma SendIpDelivers(cfg: Config, s: Ctl, ip: seq<byte>)
    requires s.send.ccount < Mppe.COUNTS
    ensures SendIp(cfg.crypto, s, ip).ips == []
  {
  }

  lemma WatchStep(past: seq<Happening>, h: Happening)
    ensures h != Timeout ==> Watch(past + [h]).echo == if h == EchoReply then 0 else Watch(past).echo
  {
    assert (past + [h])[..|past|] == past;
  }

  lemma ConcatSnoc(packets: seq<seq<byte>>, p: seq<byte>)
    ensures Concat(packets + [p]) == Concat(packets) + p
  {
    assert (packets + [p])[..|packets|] == packets;
  }

  lemma DispatchIsStep(cfg: Config, s: Ctl, frame: seq<byte>, env: Env)
    requires s.send.ccount < Mppe.COUNTS && s.recv.ccount < Mppe.COUNTS
    ensures Dispatch(cfg, s, frame, env) == Step(cfg, s, Peer(frame, env))
  {
    hide Dispatch;
  }

  lemma PayloadsSnoc(packets: seq<seq<byte>>, p: seq<byte>)
    ensures Payloads(packets + [p]) == Payloads(packets) + Payload(p)
  {
    assert (packets + [p])[..|packets|] == packets;
  }

  // ----- end to end -----

  lemma {:induction false} ConcatHead(packets: seq<seq<byte>>)
    requires packets != []
    ensures Concat(packets) == packets[0] + Concat(packets[1..])
  {
    var n := |packets| - 1;
    if n == 0 {
      assert packets[..0] == [];
    } else {
      ConcatHead(packets[..n]);
      assert packets[..n][1..] == packets[1..][..n - 1];
    }
  }

  // A well-formed packet says itself where it ends.
  lemma SamePacket(p: seq<byte>, q: seq<byte>, octets: seq<byte>)
    requires WellFormed(p) && WellFormed(q) && p <= octets && q <= octets
    ensures p == q
  {
    assert p[2..][..2] == octets[2..4] == q[2..][..2];
  }

  /** A stream of well-formed packets can be cut into well-formed packets in one way only. */
  lemma {:induction false} CutIsUnique(handled: seq<seq<byte>>, pending: seq<byte>, packets: seq<seq<byte>>)
    requires (forall p :: p in handled ==> WellFormed(p)) && (forall p :: p in packets ==> WellFormed(p))
    requires Concat(handled) + pending == Concat(packets)
    ensures |handled| <= |packets| && handled == packets[..|handled|] && pending == Concat(packets[|handled|..])
    decreases handled
  {
    hide WellFormed;
    if handled == [] {
      assert [] + pending == pending && packets[0..] == packets;
    } else {
      ConcatHead(handled);
      assert handled[0] in handled;
      WellFormedSize(handled[0]);
      var octets := Concat(packets);
      assert octets == handled[0] + (Concat(handled[1..]) + pending);
      assert |octets| > 0 && Concat([]) == [];
      ConcatHead(packets);
      assert packets[0] in packets;
      SamePacket(handled[0], packets[0], octets);
      assert Concat(handled[1..]) + pending == octets[|handled[0]|..] == Concat(packets[1..]);
      CutIsUnique(handled[1..], pending, packets[1..]);
      assert packets[1..][|handled| - 1..] == packets[|handled|..];
    }
  }

  lemma {:induction false} PayloadsAppend(a: seq<seq<byte>>, b: seq<seq<byte>>)
    ensures Payloads(a + b) == Payloads(a) + Payloads(b)
    decreases b
  {
    hide Payload;
    if b == [] {
      assert a + b == a;
    } else {
      var n := |b| - 1;
      assert (a + b)[..|a| + n] == a + b[..n];
      PayloadsAppend(a, b[..n]);
    }
  }

  lemma {:induction false} ConcatAppend(a: seq<seq<byte>>, b: seq<seq<byte>>)
    ensures Concat(a + b) == Concat(a) + Concat(b)
    decreases b
  {
    if b == [] {
      assert a + b == a;
    } else {
      var n := |b| - 1;
      assert (a + b)[..|a| + n] == a + b[..n];
      ConcatAppend(a, b[..n]);
    }
  }

  // What has been handled behind `before` is the first part of `line`.
  lemma HandledPart(before: seq<seq<byte>>, line: seq<seq<byte>>, handled: seq<seq<byte>>, pending: seq<byte>)
    requires before <= handled && (forall p :: p in handled ==> WellFormed(p)) && (forall p :: p in line ==> WellFormed(p))
    requires Concat(handled) + pending == Concat(before) + Concat(line)
    ensures var rest := handled[|before|..];
      && handled == before + rest && |rest| <= |line| && rest == line[..|rest|] && pending == Concat(line[|rest|..])
      && (pending == [] ==> rest == line)
  {
    hide WellFormed, Concat;
    var rest := handled[|before|..];
    PrefixSplit(before, handled);
    ConcatAppend(before, rest);
    TailOfSum(Concat(before), Concat(rest), pending, Concat(line));
    CutIsUnique(rest, pending, line);
    NothingPending(line, |rest|);
  }

  lemma PrefixSplit<T>(a: seq<T>, b: seq<T>)
    requires a <= b
    ensures b == a + b[|a|..] && forall x :: x in b[|a|..] ==> x in b
  {
  }

  lemma TailOfSum<T>(a: seq<T>, b: seq<T>, c: seq<T>, d: seq<T>)
    requires a + b + c == a + d
    ensures b + c == d
  {
    assert a + b + c == a + (b + c);
    SameTail(a, b + c, d);
  }

  lemma NothingPending(line: seq<seq<byte>>, k: nat)
    requires k <= |line| && forall p :: p in line ==> WellFormed(p)
    ensures Concat(line[k..]) == [] ==> line == line[..k]
  {
    hide WellFormed;
    if k < |line| {
      ConcatHead(line[k..]);
      assert line[k] in line;
      WellFormedSize(line[k]);
    }
  }

  /** Delivery, at any moment of any run of the object. `Tracks` and the split of the octets into packets
      handled and octets pending are what SstpState.Valid says, whatever the sizes of the reads. Let the
      engine have come, by `before`, to expect packet number `n`, and let what follows on the stream be
      packets whose frames carry `ips`, with SSTP control packets and control frames anywhere in between;
      then of `ips` exactly those have been delivered whose frames have been handled, in order, and all of
      them once nothing is pending. */
  lemma DeliveredSince(cfg: Config, start: Ctl, before: seq<seq<byte>>, inputs: seq<Input>, mid: Ctl, got: seq<seq<byte>>,
                       first: seq<seq<byte>>, line: seq<seq<byte>>, n: nat, master: seq<byte>, ips: seq<seq<byte>>,
                       handled: seq<seq<byte>>, later: seq<Input>, pending: seq<byte>, now: Ctl,
                       delivered: seq<seq<byte>>, queued: seq<seq<byte>>)
    requires Tracks(cfg, start, before, inputs, mid, got, first)
    requires Tracks(cfg, start, handled, inputs + later, now, delivered, queued)
    requires before <= handled && Concat(handled) + pending == Concat(before) + Concat(line)
    requires mid.flags.ccpDone && At(cfg.crypto, mid.flags.mppeEnabled, mid.recv, master, n)
    requires forall p :: p in line ==> WellFormed(p)
    requires Carries(cfg.crypto, mid.flags.mppeEnabled, master, n, Payloads(line), ips)
    ensures var rest := handled[|before|..];
      var k := DataCount(Payloads(rest));
      k <= |ips| && delivered == got + ips[..k] && (pending == [] ==> delivered == got + ips)
  {
    hide Run, Concat, At, Carries, DataCount;
    var rest := handled[|before|..];
    HandledPart(before, line, handled, pending);
    var more := line[|rest|..];
    assert line == rest + more;
    PayloadsAppend(rest, more);
    PayloadsAppend(before, rest);
    FramesOfAppend(inputs, later);
    assert FramesOf(later) == Payloads(rest) by {
      SameTail(Payloads(before), FramesOf(later), Payloads(rest));
    }
    CarriesPrefix(cfg.crypto, mid.flags.mppeEnabled, master, n, Payloads(rest), Payloads(more), ips);
    var k := DataCount(Payloads(rest));
    RunKeeps(cfg, start, inputs);
    RunAppend(cfg, start, inputs, later);
    ReceiverRun(cfg, mid, later, n, master, ips[..k]);
    if pending == [] {
      assert more == [] && ips[..|ips|] == ips;
    }
  }

  lemma SameTail<T>(a: seq<T>, b: seq<T>, c: seq<T>)
    requires a + b == a + c
    ensures b == c
  {
    assert (a + b)[|a|..] == b && (a + c)[|a|..] == c;
  }

  // ----- from object to object -----

  /** The packets on the stream: SSTP control packets anywhere among the data packets that were handed to
      it. */
  ghost predicate Merged(line: seq<seq<byte>>, handed: seq<seq<byte>>)
    decreases line
  {
    if line == [] then handed == []
    else if WellFormed(line[0]) && IsControl(line[0]) then Merged(line[1..], handed)
    else handed != [] && line[0] == handed[0] && Merged(line[1..], handed[1..])
  }

  lemma PayloadOfData(f: seq<byte>)
    requires 4 <= |f| <= PPP_MRU + 4
    ensures WellFormed(DataPacket(f)) && !IsControl(DataPacket(f)) && Payload(DataPacket(f)) == [f]
  {
    DataPacketShape(f);
  }

  lemma PayloadsHead(packets: seq<seq<byte>>)
    requires packets != []
    ensures Payloads(packets) == Payload(packets[0]) + Payloads(packets[1..])
  {
    hide Payload;
    assert packets == [packets[0]] + packets[1..];
    PayloadsAppend([packets[0]], packets[1..]);
    var none: seq<seq<byte>> := [];
    assert [packets[0]][..0] == none && Payloads(none) == [];
    assert Payloads([packets[0]]) == [] + Payload(packets[0]) == Payload(packets[0]);
  }

  /** What is merged into the stream contains the frames that were wrapped, and each packet states its
      length. */
  lemma {:induction false} MergedPayloads(line: seq<seq<byte>>, frames: seq<seq<byte>>)
    requires Merged(line, DataPackets(frames)) && Sized(frames)
    ensures Payloads(line) == frames && forall p :: p in line ==> WellFormed(p)
    decreases line
  {
    hide PktLen, Payload, DataPacket;
    if line != [] {
      PayloadsHead(line);
      if WellFormed(line[0]) && IsControl(line[0]) {
        ControlHasNone(line[0]);
        MergedPayloads(line[1..], frames);
        assert [] + Payloads(line[1..]) == Payloads(line[1..]);
      } else {
        assert frames[0] in frames && DataPackets(frames)[1..] == DataPackets(frames[1..]);
        PayloadOfData(frames[0]);
        MergedPayloads(line[1..], frames[1..]);
        assert frames == [frames[0]] + frames[1..];
      }
      assert forall p :: p in line ==> p == line[0] || p in line[1..];
    }
  }

  lemma ControlHasNone(p: seq<byte>)
    requires |p| >= HEADER_SIZE && IsControl(p)
    ensures Payload(p) == []
  {
  }

  /** End to end, from object to object, at any moment of any run of both. `from` has come, by `sent`, to
      send packet number `n`, and `to`, by handling `before`, to expect it, under the same master key;
      since then neither CHAP nor CCP reached `from`. What follows on the stream of `to` are the data
      packets that `from` has handed to its stream since then, and SSTP control packets anywhere among
      them. Then of the IP packets given to `from` exactly those have been delivered by `to` whose frames
      it has handled, in order; and all of them, once nothing is pending and nothing waits in the queue. */
  lemma EndToEnd(from: SstpState, sent: seq<Input>, sender: Ctl,
                 to: SstpState, before: seq<seq<byte>>, inputs: seq<Input>, mid: Ctl, got: seq<seq<byte>>,
                 first: seq<seq<byte>>, line: seq<seq<byte>>, part: seq<seq<byte>>, n: nat, master: seq<byte>)
    requires from.Valid() && to.Valid() && from.pppd.cfg.crypto == to.pppd.cfg.crypto
    requires sent <= from.inputs && sender == Run(from.pppd.cfg, from.start, sent).s && sender.flags.ccpDone
    requires forall f :: f in FramesOf(from.inputs[|sent|..]) ==> Harmless(f)
    requires At(from.pppd.cfg.crypto, sender.flags.mppeEnabled, sender.send, master, n)
    requires from.pppd.tx.books.handed == DataPackets(Run(from.pppd.cfg, from.start, sent).frames) + part
    requires before <= to.handled && inputs <= to.inputs
    requires Tracks(to.pppd.cfg, to.start, before, inputs, mid, got, first)
    requires mid.flags.ccpDone && mid.flags.mppeEnabled == sender.flags.mppeEnabled
    requires At(to.pppd.cfg.crypto, mid.flags.mppeEnabled, mid.recv, master, n)
    requires to.octets == Concat(before) + Concat(line) && Merged(line, part)
    ensures var k := DataCount(Payloads(to.handled[|before|..]));
      var given := Given(from.inputs[|sent|..]);
      && k <= |given| && to.pppd.delivered == got + given[..k]
      && (to.stream.Pending(to.rx) == [] && from.pppd.tx.books.handed == from.pppd.tx.books.enqueued ==>
            to.pppd.delivered == got + given)
  {
    ValidTells(from);
    ValidTells(to);
    hide SstpState.Valid, SstpState.PppInStep, At, Carries, DataCount, Payloads,
      Harmless, Given, Merged, DataPackets, FramesOf, Run, Concat, Tracks;
    var sends, later := from.inputs[|sent|..], to.inputs[|inputs|..];
    PrefixSplit(sent, from.inputs);
    PrefixSplit(inputs, to.inputs);
    BetweenEnds(from.pppd.cfg, from.start, from.handled, sent, sends, sender, from.pppd.State(), from.pppd.delivered,
                from.pppd.tx.books.enqueued, from.pppd.tx.books.handed,
                to.pppd.cfg, to.start, before, inputs, mid, got, first, line, part, n, master, to.handled, later,
                to.stream.Pending(to.rx), to.pppd.State(), to.pppd.delivered, to.pppd.tx.books.enqueued);
  }

  // The same of the values that the objects hold.
  lemma BetweenEnds(far: Config, start: Ctl, taken: seq<seq<byte>>, sent: seq<Input>, sends: seq<Input>, sender: Ctl, last: Ctl,
                    others: seq<seq<byte>>, enqueued: seq<seq<byte>>, handed: seq<seq<byte>>,
                    cfg: Config, begin: Ctl, before: seq<seq<byte>>, inputs: seq<Input>, mid: Ctl, got: seq<seq<byte>>,
                    first: seq<seq<byte>>, line: seq<seq<byte>>, part: seq<seq<byte>>, n: nat, master: seq<byte>,
                    handled: seq<seq<byte>>, later: seq<Input>, pending: seq<byte>, now: Ctl,
                    delivered: seq<seq<byte>>, queued: seq<seq<byte>>)
    requires Tracks(far, start, taken, sent + sends, last, others, enqueued) && handed <= enqueued
    requires sender == Run(far, start, sent).s && sender.flags.ccpDone && far.crypto == cfg.crypto
    requires forall f :: f in FramesOf(sends) ==> Harmless(f)
    requires At(far.crypto, sender.flags.mppeEnabled, sender.send, master, n)
    requires handed == DataPackets(Run(far, start, sent).frames) + part
    requires Tracks(cfg, begin, before, inputs, mid, got, first)
    requires Tracks(cfg, begin, handled, inputs + later, now, delivered, queued)
    requires mid.flags.ccpDone && mid.flags.mppeEnabled == sender.flags.mppeEnabled
    requires At(cfg.crypto, mid.flags.mppeEnabled, mid.recv, master, n)
    requires before <= handled && Concat(handled) + pending == Concat(before) + Concat(line) && Merged(line, part)
    ensures var k := DataCount(Payloads(handled[|before|..]));
      && k <= |Given(sends)| && delivered == got + Given(sends)[..k]
      && (pending == [] && handed == enqueued ==> delivered == got + Given(sends))
  {
    hide At, Carries, DataCount, Payloads, Harmless, Given, Merged, DataPackets, FramesOf, Run, WellFormed, Concat;
    SentPart(far, start, sent, sends, sender, enqueued, handed, part);
    hide Tracks;
    var ips := LineCarries(far, sender, sends, n, master, part, line);
    DeliveredSince(cfg, begin, before, inputs, mid, got, first, line, n, master, ips, handled, later, pending, now,
                   delivered, queued);
  }

  // What the invariant says of values.
  lemma ValidTells(s: SstpState)
    requires s.Valid()
    ensures s.rx.off <= s.rx.data.Length && s.octets == Concat(s.handled) + s.stream.Pending(s.rx)
    ensures Tracks(s.pppd.cfg, s.start, s.handled, s.inputs, s.pppd.State(), s.pppd.delivered, s.pppd.tx.books.enqueued)
    ensures s.pppd.tx.books.handed <= s.pppd.tx.books.enqueued
  {
    hide Tracks, Concat, Watch;
  }

  // The packets on the stream carry the first of the packets given; all of them if all were handed over.
  lemma LineCarries(cfg: Config, sender: Ctl, sends: seq<Input>, n: nat, master: seq<byte>,
                    part: seq<seq<byte>>, line: seq<seq<byte>>) returns (ips: seq<seq<byte>>)
    requires Safe(sender) && sender.flags.ccpDone && At(cfg.crypto, sender.flags.mppeEnabled, sender.send, master, n)
    requires forall f :: f in FramesOf(sends) ==> Harmless(f)
    requires var frames := Run(cfg, sender, sends).frames;
      |part| <= |frames| && part == DataPackets(frames[..|part|])
    requires Merged(line, part)
    ensures Carries(cfg.crypto, sender.flags.mppeEnabled, master, n, Payloads(line), ips)
    ensures (forall p :: p in line ==> WellFormed(p)) && ips <= Given(sends)
    ensures |part| == |Run(cfg, sender, sends).frames| ==> ips == Given(sends)
  {
    hide At, Carries, DataCount, Payloads, Harmless, Given, Merged, DataPackets, FramesOf, Run, WellFormed;
    var frames, m := Run(cfg, sender, sends).frames, |part|;
    SenderRun(cfg, sender, sends, n, master);
    assert frames == frames[..m] + frames[m..];
    CarriesPrefix(cfg.crypto, sender.flags.mppeEnabled, master, n, frames[..m], frames[m..], Given(sends));
    SizedPart(cfg, sender, sends, m);
    MergedPayloads(line, frames[..m]);
    ips := Given(sends)[..DataCount(frames[..m])];
  }

  lemma SizedPart(cfg: Config, s: Ctl, inputs: seq<Input>, m: nat)
    requires Safe(s) && m <= |Run(cfg, s, inputs).frames|
    ensures Sized(Run(cfg, s, inputs).frames[..m])
  {
    SizedRun(cfg, s, inputs);
  }

  // The packets handed over behind the first ones are frames of the later part of the run, in order.
  lemma SentPart(cfg: Config, start: Ctl, sent: seq<Input>, sends: seq<Input>, sender: Ctl,
                 enqueued: seq<seq<byte>>, handed: seq<seq<byte>>, part: seq<seq<byte>>)
    requires Safe(start) && sender == Run(cfg, start, sent).s
    requires enqueued == DataPackets(Run(cfg, start, sent + sends).frames) && handed <= enqueued
    requires handed == DataPackets(Run(cfg, start, sent).frames) + part
    ensures Safe(sender)
    ensures var frames := Run(cfg, sender, sends).frames;
      |part| <= |frames| && part == DataPackets(frames[..|part|]) && (handed == enqueued ==> |part| == |frames|)
  {
    hide Run, DataPackets;
    RunKeeps(cfg, start, sent);
    RunAppend(cfg, start, sent, sends);
    var a, b := Run(cfg, start, sent).frames, Run(cfg, sender, sends).frames;
    DataPacketsPart(a, b, part);
  }

  lemma DataPacketsPart(a: seq<seq<byte>>, b: seq<seq<byte>>, part: seq<seq<byte>>)
    requires DataPackets(a) + part <= DataPackets(a + b)
    ensures |part| <= |b| && part == DataPackets(b[..|part|])
    ensures DataPackets(a) + part == DataPackets(a + b) ==> |part| == |b|
  {
    DataPacketsAppend(a, b);
    var all := DataPackets(a + b);
    assert |all| == |a| + |b| && |DataPackets(a)| == |a|;
    forall k | 0 <= k < |part|
      ensures part[k] == DataPacket(b[k])
    {
      assert part[k] == (DataPackets(a) + part)[|a| + k] == all[|a| + k];
    }
  }
}
