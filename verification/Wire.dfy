/** What the PPP engine does with each packet, octet by octet (sections 5 and 6 of RFC 1661, RFC 1332, RFC
    1877, RFC 1962, RFC 2759, RFC 3078): whole effects of a step, stated on the octets that come in and go
    out rather than on the functions that the engine is made of. */
module Wire {
  import opened Bytes
  import opened Mppe
  import opened PppOptions
  import opened Engine
  import opened Negotiation

  // ----- frames -----

  function LcpFrame(p: seq<byte>): seq<byte> {
    [0xff, 0x03, 0xc0, 0x21] + p
  }

  function ChapFrame(p: seq<byte>): seq<byte> {
    [0xff, 0x03, 0xc2, 0x23] + p
  }

  function IpcpFrame(p: seq<byte>): seq<byte> {
    [0xff, 0x03, 0x80, 0x21] + p
  }

  function CcpFrame(p: seq<byte>): seq<byte> {
    [0xff, 0x03, 0x80, 0xfd] + p
  }

  function Four(v: uint32): seq<byte> {
    [v / 0x100_0000, v / 0x1_0000 % 0x100, v / 0x100 % 0x100, v % 0x100]
  }

  function Inc(id: byte): byte {
    if id == 255 then 0 else id + 1
  }

  // The length a packet states, as far as there are so many octets.
  function Stated(p: seq<byte>): nat
    requires |p| >= 4
  {
    var hi: int, lo: int := p[2], p[3];
    if 256 * hi + lo > |p| then |p| else 256 * hi + lo
  }

  // The packet again, as far as it goes, under another code.
  function Again(code: byte, p: seq<byte>, n: nat): seq<byte>
    requires n <= |p|
  {
    if n == 0 then [] else [code] + p[1..n]
  }

  // Our three requests.

  function LcpAsks(s: Ctl): seq<byte> {
    LcpFrame([1, Inc(s.ids.lcp), 0, 14, 1, 4, 5, 0x78, 5, 6] + Four(s.ids.magic))
  }

  function CcpAsks(s: Ctl): seq<byte> {
    CcpFrame([1, Inc(s.ids.ccp), 0, 10, 18, 6, 0x01, 0x00, 0x00, 0x40])
  }

  function Addresses(code: byte, id: byte, a: Addrs): seq<byte> {
    IpcpFrame([code, id, 0, 22, 3, 6] + Four(a.local) + [129, 6] + Four(a.dns1) + [131, 6] + Four(a.dns2))
  }

  function IpcpAsks(s: Ctl): seq<byte> {
    Addresses(1, Inc(s.ids.ipcp), s.addrs)
  }

  lemma FourIs(v: uint32)
    ensures PutBe32(v) == Four(v)
  {
    HighTwo(v);
    LowTwo(v);
  }

  lemma HighTwo(v: uint32)
    ensures PutBe16(v / 0x1_0000) == [v / 0x100_0000, v / 0x1_0000 % 0x100]
  {
    assert v / 0x1_0000 / 0x100 == v / 0x100_0000;
  }

  lemma LowTwo(v: uint32)
    ensures PutBe16(v % 0x1_0000) == [v / 0x100 % 0x100, v % 0x100]
  {
    var hi, lo: int := v / 0x1_0000, v % 0x1_0000;
    assert v / 0x100 == 0x100 * hi + lo / 0x100;
  }

  lemma SentIs(s: Ctl, proto: uint16, payload: seq<byte>)
    requires |payload| <= 1400
    ensures Sent(s, proto, payload) == Out(s, [[0xff, 0x03, proto / 0x100, proto % 0x100] + payload], [], [])
  {
    FrameOf(proto, payload);
    hide Frame;
  }

  lemma FrameOf(proto: uint16, p: seq<byte>)
    ensures Frame(proto, p) == [0xff, 0x03, proto / 0x100, proto % 0x100] + p
  {
    assert Frame(proto, p) == [0xff, 0x03, proto / 0x100, proto % 0x100] + p;
  }

  lemma LcpRequestIs(s: Ctl)
    ensures LcpRequest(s) == Out(s.(ids := s.ids.(lcp := Inc(s.ids.lcp))), [LcpAsks(s)], [], [])
  {
    hide PutBe32, Sent;
    FourIs(s.ids.magic);
    var four, id := PutBe32(s.ids.magic), Inc(s.ids.lcp);
    assert OptBytes(Opt(CI_MRU, PutBe16(PPP_MRU))) == [1, 4, 5, 0x78];
    assert OptBytes(Opt(CI_MAGIC, four)) == [5, 6] + four;
    var opts := OptBytes(Opt(CI_MRU, PutBe16(PPP_MRU))) + OptBytes(Opt(CI_MAGIC, four));
    var payload := Configure(FSM_CONFREQ, id, opts);
    assert payload == [1, id, 0, 14, 1, 4, 5, 0x78, 5, 6] + four;
    SentIs(s.(ids := s.ids.(lcp := id)), PPP_PROTO_LCP, payload);
  }

  lemma CcpRequestIs(s: Ctl)
    ensures CcpRequest(s) == Out(s.(ids := s.ids.(ccp := Inc(s.ids.ccp))), [CcpAsks(s)], [], [])
  {
    hide Sent;
    var id := Inc(s.ids.ccp);
    var opts := OptBytes(Opt(CI_MPPC, [0x01, 0x00, 0x00, 0x40]));
    assert opts == [18, 6, 0x01, 0x00, 0x00, 0x40];
    var payload := Configure(FSM_CONFREQ, id, opts);
    assert payload == [1, id, 0, 10, 18, 6, 0x01, 0x00, 0x00, 0x40];
    SentIs(s.(ids := s.ids.(ccp := id)), PPP_PROTO_CCP, payload);
  }

  lemma AddressesIs(code: byte, id: byte, a: Addrs)
    ensures |IpcpPayload(code, id, a)| == 22
    ensures Frame(PPP_PROTO_IPCP, IpcpPayload(code, id, a)) == Addresses(code, id, a)
  {
    hide PutBe32;
    FourIs(a.local);
    FourIs(a.dns1);
    FourIs(a.dns2);
    assert OptBytes(Opt(CI_ADDR, PutBe32(a.local))) == [3, 6] + Four(a.local);
    assert OptBytes(Opt(CI_MS_DNS1, PutBe32(a.dns1))) == [129, 6] + Four(a.dns1);
    assert OptBytes(Opt(CI_MS_DNS2, PutBe32(a.dns2))) == [131, 6] + Four(a.dns2);
    hide OptBytes, Four;
    var payload := IpcpPayload(code, id, a);
    assert payload == [code, id, 0, 22, 3, 6] + Four(a.local) + [129, 6] + Four(a.dns1) + [131, 6] + Four(a.dns2);
    FrameOf(PPP_PROTO_IPCP, payload);
  }

  lemma IpcpRequestIs(s: Ctl)
    ensures IpcpRequest(s) == Out(s.(ids := s.ids.(ipcp := Inc(s.ids.ipcp))), [IpcpAsks(s)], [], [])
  {
    hide IpcpPayload, Frame, Addresses;
    AddressesIs(1, Inc(s.ids.ipcp), s.addrs);
  }

  /** The forms of a frame: address and control may be missing, and a protocol below 256 may be one octet
      long, if that is odd. */
  lemma Forms(hi: byte, lo: byte, p: seq<byte>)
    ensures hi % 2 == 0 ==> Unframe([0xff, 0x03, hi, lo] + p) == [(0x100 * hi as int + lo, p)]
    ensures hi % 2 == 0 && p != [] ==> Unframe([hi, lo] + p) == [(0x100 * hi as int + lo, p)]
    ensures lo % 2 == 1 && p != [] ==> Unframe([0xff, 0x03, lo] + p) == [(lo as int, p)]
    ensures lo % 2 == 1 && |p| >= 2 && !(lo == 0xff && p[0] == 0x03) ==> Unframe([lo] + p) == [(lo as int, p)]
  {
    var a, b, c, d := [0xff, 0x03, hi, lo] + p, [hi, lo] + p, [0xff, 0x03, lo] + p, [lo] + p;
    assert a[2..] == [hi, lo] + p && a[2..][2..] == p && b[2..] == p && c[2..] == [lo] + p && c[2..][1..] == p && d[1..] == p;
  }

  // ----- LCP -----

  /** A configuration request is acknowledged, and until LCP is open our own request goes with it; ours is
      repeated when it is refused; a termination is acknowledged and the owner told; an echo comes back
      under our magic number. Nothing else changes anything. */
  lemma LcpEffect(cfg: Config, s: Ctl, frame: seq<byte>, p: seq<byte>, env: Env)
    requires Safe(s) && Unframe(frame) == [(0xc021, p)] && |p| >= 4
    ensures var o, n := Step(cfg, s, Peer(frame, env)), Stated(p);
      var asked := s.(ids := s.ids.(lcp := Inc(s.ids.lcp)));
      o == (match p[0]
        case 1 =>
          if n > 256 then Out(s, [], [], [])
          else if s.flags.lcpOpened then Out(s, [LcpFrame(Again(2, p, n))], [], [])
          else Out(asked, [LcpFrame(Again(2, p, n)), LcpAsks(s)], [], [])
        case 2 => Out(s.(flags := s.flags.(lcpOpened := true)), [], [], [])
        case 3 => Out(asked, [LcpAsks(s)], [], [])
        case 4 => Out(asked, [LcpAsks(s)], [], [])
        case 5 => Out(s, [LcpFrame([6, p[1], 0, 4])], [PppDown], [])
        case 9 =>
          if n > 64 then Out(s, [], [], [])
          else if n < 8 then Out(s, [LcpFrame(Again(10, p, n))], [], [])
          else Out(s, [LcpFrame([10] + p[1..4] + Four(s.ids.magic) + p[8..n])], [], [])
        case _ => Out(s, [], [], []))
  {
    hide HandleLcp, Unframe, PutBe32, LcpRequest;
    LcpRequestIs(s);
    FourIs(s.ids.magic);
    LcpHandled(s, p);
  }

  lemma LcpHandled(s: Ctl, p: seq<byte>)
    requires |p| >= 4
    ensures var o, n := HandleLcp(s, p), Stated(p);
      var r := LcpRequest(s);
      o == (match p[0]
        case 1 =>
          if n > 256 then Out(s, [], [], [])
          else if s.flags.lcpOpened then Out(s, [LcpFrame(Again(2, p, n))], [], [])
          else Out(r.s, [LcpFrame(Again(2, p, n))] + r.frames, r.events, r.ips)
        case 2 => Out(s.(flags := s.flags.(lcpOpened := true)), [], [], [])
        case 3 => r
        case 4 => r
        case 5 => Out(s, [LcpFrame([6, p[1], 0, 4])], [PppDown], [])
        case 9 =>
          if n > 64 then Out(s, [], [], [])
          else if n < 8 then Out(s, [LcpFrame(Again(10, p, n))], [], [])
          else Out(s, [LcpFrame([10] + p[1..4] + PutBe32(s.ids.magic) + p[8..n])], [], [])
        case _ => Out(s, [], [], []))
  {
    hide LcpRequest, PutBe32, Sent, PacketLength;
    Be32RoundTrip(s.ids.magic);
    var n := Stated(p);
    StatedIs(p);
    if n <= 256 {
      SentIs(s, PPP_PROTO_LCP, Again(2, p, n));
    }
    if n <= 64 {
      SentIs(s, PPP_PROTO_LCP, EchoReply(s.ids.magic, p, n));
    }
    SentIs(s, PPP_PROTO_LCP, [6, p[1], 0, 4]);
  }

  lemma StatedIs(p: seq<byte>)
    requires |p| >= 4
    ensures PacketLength(p) == Stated(p)
    ensures forall code: byte :: Reply(code, p, Stated(p)) == Again(code, p, Stated(p))
  {
    assert p[2..][0] == p[2] && p[2..][1] == p[3];
  }

  // ----- CHAP -----

  // The response to a challenge: challenge of our own, eight zeros, NT response, a zero, and the name.
  function Response(id: byte, env: Env, username: seq<byte>): seq<byte> {
    var name := if |username| > 200 then username[..200] else username;
    ChapFrame([2, id, (54 + |name|) / 0x100, (54 + |name|) % 0x100, 49] + env.peerChallenge + [0, 0, 0, 0, 0, 0, 0, 0]
      + env.ntResponse + [0] + name)
  }

  /** Success is followed by our CCP request, failure is told to the owner, and a challenge is answered,
      upon which the owner sets the keys: his send key is ours for sending, his receive key for receiving. */
  lemma ChapEffect(cfg: Config, s: Ctl, frame: seq<byte>, p: seq<byte>, env: Env)
    requires Safe(s) && Unframe(frame) == [(0xc223, p)] && |p| >= 5
    ensures var o := Step(cfg, s, Peer(frame, env));
      o == (match p[0]
        case 1 =>
          if p[4] < 16 || |p| - 5 < p[4] then Out(s, [], [], [])
          else
            var t := s.(ids := s.ids.(chap := p[1]));
            Out(if env.derived.NoKeys? then t
                else t.(send := t.send.(master := env.derived.send), recv := t.recv.(master := env.derived.recv),
                        flags := t.flags.(mppeKeysSet := true)),
                [Response(p[1], env, cfg.username)], [PppAuth], [])
        case 3 =>
          Out(s.(ids := s.ids.(ccp := Inc(s.ids.ccp)), flags := s.flags.(authDone := true)), [CcpAsks(s)], [], [])
        case 4 => Out(s, [], [PppAuthFail], [])
        case _ => Out(s, [], [], []))
  {
    hide Unframe, CcpRequest, ChapResponse, Sent, Response;
    CcpRequestIs(s.(flags := s.flags.(authDone := true)));
    ResponseIs(p[1], env, cfg.username);
    SentIs(s.(ids := s.ids.(chap := p[1])), PPP_PROTO_CHAP, ChapResponse(p[1], env, cfg.username));
  }

  lemma ResponseIs(id: byte, env: Env, username: seq<byte>)
    ensures |ChapResponse(id, env, username)| <= 254
    ensures [0xff, 0x03, 0xc2, 0x23] + ChapResponse(id, env, username) == Response(id, env, username)
  {
    var name := if |username| > 200 then username[..200] else username;
    assert username[..Min(|username|, 200)] == name;
    var value := env.peerChallenge + [0, 0, 0, 0, 0, 0, 0, 0] + env.ntResponse + [0];
    assert |value| == 49;
    FrontIs(id, 54 + |name|);
    var front := [2, id] + PutBe16(54 + |name|) + [49];
    assert ChapResponse(id, env, username) == front + value + name by {
      hide PutBe16;
    }
    ResponseParts(front, env.peerChallenge, env.ntResponse, name);
  }

  lemma FrontIs(id: byte, n: uint16)
    ensures [2, id] + PutBe16(n) + [49] == [2, id, n / 0x100, n % 0x100, 49]
  {
  }

  lemma ResponseParts(front: seq<byte>, x: seq<byte>, y: seq<byte>, name: seq<byte>)
    ensures [0xff, 0x03, 0xc2, 0x23] + (front + (x + [0, 0, 0, 0, 0, 0, 0, 0] + y + [0]) + name) ==
      ChapFrame(front + x + [0, 0, 0, 0, 0, 0, 0, 0] + y + [0] + name)
  {
    assert front + (x + [0, 0, 0, 0, 0, 0, 0, 0] + y + [0]) + name == front + x + [0, 0, 0, 0, 0, 0, 0, 0] + y + [0] + name;
  }

  // ----- the end of CCP -----

  // SSTP_PPP_UP, if it has not been notified and all is there for it.
  function Up(s: Ctl): Out {
    var t := s.(flags := s.flags.(upNotified := true));
    if !s.flags.upNotified && s.flags.ccpDone && s.flags.ipConfigured && s.addrs.local != 0 then Out(t, [], [PppUp(t)], [])
    else Out(s, [], [], [])
  }

  // CCP is done: the first time, an authenticated engine asks for its addresses.
  function Done(s: Ctl): Out {
    var asks := !s.flags.ccpDone && s.flags.authDone;
    var t := s.(flags := s.flags.(ccpDone := true), ids := if asks then s.ids.(ipcp := Inc(s.ids.ipcp)) else s.ids);
    Out(Up(t).s, if asks then [IpcpAsks(s)] else [], Up(t).events, [])
  }

  lemma DoneIs(s: Ctl)
    ensures CcpFinished(s) == Done(s)
  {
    hide IpcpRequest, IpcpAsks;
    var t := s.(flags := s.flags.(ccpDone := true));
    IpcpRequestIs(t);
    SameAsk(s, t);
    assert forall x: seq<seq<byte>>, y: seq<Event> :: x + [] == x && [] + x == x && [] + y == y && y + [] == y;
  }

  lemma SameAsk(s: Ctl, t: Ctl)
    requires s.ids == t.ids && s.addrs == t.addrs
    ensures IpcpAsks(s) == IpcpAsks(t)
  {
  }

  /** MPPE starts with the master keys hashed with themselves, in both directions, before the first count. */
  function Started(c: Crypto, s: Ctl): Ctl {
    if !s.flags.mppeKeysSet then s
    else
      var x, y := c.newKey(s.send.master, s.send.master), c.newKey(s.recv.master, s.recv.master);
      s.(send := Half(s.send.master, x, Rc4(x, 0), 4095), recv := Half(s.recv.master, y, Rc4(y, 0), 4095),
         flags := s.flags.(mppeEnabled := true))
  }

  /** A request of the peer is acknowledged and starts MPPE, an acknowledgement starts it, a refusal turns
      it off; each of them ends CCP. */
  lemma CcpEffect(cfg: Config, s: Ctl, frame: seq<byte>, p: seq<byte>, env: Env)
    requires Safe(s) && Unframe(frame) == [(0x80fd, p)] && |p| >= 4
    ensures var o, n := Step(cfg, s, Peer(frame, env)), Stated(p);
      var started := Done(Started(cfg.crypto, s));
      var refused := Done(s.(flags := s.flags.(mppeEnabled := false)));
      o == (match p[0]
        case 1 => if n > 64 then Out(s, [], [], []) else started.(frames := [CcpFrame(Again(2, p, n))] + started.frames)
        case 2 => started
        case 3 => refused
        case 4 => refused
        case _ => Out(s, [], [], []))
  {
    hide Unframe, CcpFinished, Sent, PacketLength, Done;
    StatedIs(p);
    DoneIs(MppeInitKeys(cfg.crypto, s));
    DoneIs(s.(flags := s.flags.(mppeEnabled := false)));
    var n := Stated(p);
    if n <= 64 {
      SentIs(s, PPP_PROTO_CCP, Again(2, p, n));
    }
    DoneQuiet(Started(cfg.crypto, s));
    assert forall y: seq<Event> :: [] + y == y;
  }

  lemma DoneQuiet(s: Ctl)
    ensures Done(s).ips == []
  {
  }

  // ----- IPCP -----

  /** An IPCP packet after authentication ends the wait for CCP, without MPPE; then it is handled as any
      other. */
  lemma IpcpEnds(cfg: Config, s: Ctl, frame: seq<byte>, p: seq<byte>, env: Env)
    requires Safe(s) && Unframe(frame) == [(0x8021, p)] && |p| >= 4 && s.flags.authDone && !s.flags.ccpDone
    ensures var first := Done(s.(flags := s.flags.(mppeEnabled := false)));
      && Safe(first.s) && first.s.flags.ccpDone
      && var rest := Step(cfg, first.s, Peer(frame, env));
      Step(cfg, s, Peer(frame, env)) == Out(rest.s, first.frames + rest.frames, first.events + rest.events, rest.ips)
  {
    hide Unframe, CcpFinished, IpcpBody;
    var t := s.(flags := s.flags.(mppeEnabled := false));
    DoneIs(t);
    var first := Done(t);
    assert forall x: seq<seq<byte>>, y: seq<Event> :: [] + x == x && [] + y == y;
  }

  // The addresses of the options, the last of each kind.
  function Adopted(s: Ctl, opts: seq<Opt>): Ctl {
    s.(addrs := Addrs(Last(opts, 3, s.addrs.local), s.addrs.peer,
                      Last(opts, 129, s.addrs.dns1), Last(opts, 131, s.addrs.dns2)))
  }

  /** A request of the peer gives its address and is acknowledged; an acknowledgement gives ours, which may
      bring the link up; a refusal gives ours, for which we ask again. */
  lemma IpcpEffect(cfg: Config, s: Ctl, frame: seq<byte>, p: seq<byte>, env: Env)
    requires Safe(s) && Unframe(frame) == [(0x8021, p)] && |p| >= 4 && (s.flags.ccpDone || !s.flags.authDone)
    ensures var o, n := Step(cfg, s, Peer(frame, env)), Stated(p);
      var opts := Walk(p[..n], 4);
      var t := Adopted(s, opts);
      o == (match p[0]
        case 1 =>
          Out(s.(addrs := s.addrs.(peer := Last(opts, 3, s.addrs.peer))),
              if n > 128 then [] else [IpcpFrame(Again(2, p, n))], [], [])
        case 2 => if t.addrs.local == 0 then Out(t, [], [], []) else Up(t.(flags := t.flags.(ipConfigured := true)))
        case 3 => Out(t.(ids := t.ids.(ipcp := Inc(t.ids.ipcp))), [IpcpAsks(t)], [], [])
        case _ => Out(s, [], [], []))
  {
    hide Unframe, Sent, PacketLength, IpcpRequest, Walk, Last, IpcpAsks;
    StatedIs(p);
    var n := Stated(p);
    var opts := Walk(p[..n], 4);
    IpcpRequestIs(Adopted(s, opts));
    if n <= 128 {
      SentIs(s.(addrs := s.addrs.(peer := Last(opts, 3, s.addrs.peer))), PPP_PROTO_IPCP, Again(2, p, n));
    }
    assert forall x: seq<seq<byte>>, y: seq<Event> :: [] + x == x && [] + y == y;
  }

  /** While CCP is not done, a packet that ends it and any IPCP packet behave alike: an authenticated engine
      asks for its addresses once, behind the acknowledgement of a CCP request and ahead of whatever the
      IPCP packet leads to; one that is not authenticated does not ask, and IPCP does not end CCP for it. */
  lemma EndOfCcpAsks(cfg: Config, s: Ctl, i: Input)
    requires Safe(s) && !s.flags.ccpDone && (Finishing(i) || Ipcp(i))
    ensures var o, p := Step(cfg, s, i), Unframe(i.frame)[0].1;
      var ask := Addresses(1, Inc(s.ids.ipcp), s.addrs);
      var first := if Finishing(i) && p[0] == 1 then [CcpFrame(Again(2, p, Stated(p)))] else [];
      && ask == Frame(PPP_PROTO_IPCP, IpcpPayload(FSM_CONFREQ, Next(s.ids.ipcp), s.addrs))
      && (o.s.flags.ccpDone <==> Finishing(i) || s.flags.authDone)
      && (Finishing(i) ==> o.frames == first + (if s.flags.authDone then [ask] else []))
      && (Ipcp(i) && s.flags.authDone ==>
            exists t: Ctl :: t.flags.ccpDone && Safe(t) && t.addrs == s.addrs && t.ids == s.ids.(ipcp := Inc(s.ids.ipcp)) &&
                             o.frames == [ask] + Step(cfg, t, i).frames && o.s == Step(cfg, t, i).s)
      && (Ipcp(i) && !s.flags.authDone ==>
            forall f :: f in o.frames ==>
              f == IpcpFrame(Again(2, p, Stated(p))) || (p[0] == 3 && f == IpcpAsks(o.s.(ids := s.ids))))
  {
    hide Unframe, Step, Done, Walk, Last, Frame, IpcpPayload;
    var (proto, p) := Unframe(i.frame)[0];
    assert Unframe(i.frame) == [(proto, p)] by { UnframeOne(i.frame); }
    AddressesIs(1, Inc(s.ids.ipcp), s.addrs);
    StatedIs(p);
    StepFlags(cfg, s, i);
    if Ipcp(i) && s.flags.authDone {
      IpcpEnds(cfg, s, i.frame, p, i.env);
      DoneAsks(s.(flags := s.flags.(mppeEnabled := false)));
    } else if Ipcp(i) {
      IpcpEffect(cfg, s, i.frame, p, i.env);
    } else {
      CcpEffect(cfg, s, i.frame, p, i.env);
      DoneAsks(Started(cfg.crypto, s));
      DoneAsks(s.(flags := s.flags.(mppeEnabled := false)));
    }
  }

  lemma UnframeOne(frame: seq<byte>)
    ensures |Unframe(frame)| <= 1
  {
  }

  lemma DoneAsks(s: Ctl)
    requires !s.flags.ccpDone
    ensures var o := Done(s);
      && o.frames == (if s.flags.authDone then [Addresses(1, Inc(s.ids.ipcp), s.addrs)] else [])
      && o.s.ids == (if s.flags.authDone then s.ids.(ipcp := Inc(s.ids.ipcp)) else s.ids)
      && o.s.addrs == s.addrs
  {
  }

  // ----- data -----

  /** A packet from above goes out in the clear, or sealed. */
  lemma SendEffect(cfg: Config, s: Ctl, ip: seq<byte>)
    requires Safe(s)
    ensures var o := Step(cfg, s, Local(ip));
      if ip == [] || |ip| > 1396 then o == Out(s, [], [], [])
      else if !s.flags.mppeEnabled then o == Out(s, [[0xff, 0x03, 0x00, 0x21] + ip], [], [])
      else
        var (h, packet) := Seal(cfg.crypto, s.send, [0x00, 0x21] + ip);
        o == Out(s.(send := h), [[0xff, 0x03, 0x00, 0x3d] + packet], [], []) &&
        Sealed(cfg.crypto, s.send, h, [0x00, 0x21] + ip, packet)
  {
    hide Seal, Sent, Sealed;
    if 0 < |ip| <= 1396 {
      SentIs(s, PPP_PROTO_IP, ip);
      assert PutBe16(PPP_PROTO_IP) == [0x00, 0x21];
      var (h, packet) := Seal(cfg.crypto, s.send, [0x00, 0x21] + ip);
      CountInPacket(cfg.crypto, s.send, [0x00, 0x21] + ip);
      SealOctets(cfg.crypto, s.send, [0x00, 0x21] + ip);
      SentIs(s.(send := h), PPP_PROTO_MPPE, packet);
    }
  }

  /** SSTP_PPP_UP is notified as soon as all is there for it: after a packet that ends CCP, and after an
      acknowledgement of our addresses, the link is either not ready or has been announced. */
  lemma ReadyIsAnnounced(cfg: Config, s: Ctl, frame: seq<byte>, p: seq<byte>, env: Env)
    requires Safe(s) && |p| >= 4
    requires (Unframe(frame) == [(0x80fd, p)] && (p[0] in {2, 3, 4} || (p[0] == 1 && Stated(p) <= 64))) ||
             (Unframe(frame) == [(0x8021, p)] && p[0] == 2)
    ensures var o := Step(cfg, s, Peer(frame, env));
      LinkReady(o.s) && o.s.addrs == Adopted(s, if Unframe(frame)[0].0 == 0x8021 then Walk(p[..Stated(p)], 4) else []).addrs ==>
        o.s.flags.upNotified
  {
    hide Unframe, Walk, Last, Done, Started;
    if Unframe(frame)[0].0 == 0x80fd {
      CcpEffect(cfg, s, frame, p, env);
      DoneAnnounces(Started(cfg.crypto, s));
      DoneAnnounces(s.(flags := s.flags.(mppeEnabled := false)));
    } else if s.flags.authDone && !s.flags.ccpDone {
      IpcpEnds(cfg, s, frame, p, env);
      var t := Done(s.(flags := s.flags.(mppeEnabled := false))).s;
      IpcpEffect(cfg, t, frame, p, env);
    } else {
      IpcpEffect(cfg, s, frame, p, env);
    }
  }

  lemma DoneAnnounces(s: Ctl)
    ensures LinkReady(Done(s).s) ==> Done(s).s.flags.upNotified
  {
  }

  // ----- a session -----

  // A frame of ours, acknowledged: the same under code 2.
  function Acknowledged(frame: seq<byte>): Input
    requires |frame| > 4
  {
    Peer(frame[4 := 2], NoEnv())
  }

  /** A server that wants the addresses `target`, whatever else it does: it acknowledges a request for them,
      and refuses any other with one correction or more. */
  ghost predicate Serves(reply: seq<byte> -> Input, target: Addrs) {
    forall id: byte, a: Addrs :: Answers(reply(Addresses(1, id, a)), id, a, target)
  }

  ghost predicate Answers(i: Input, id: byte, a: Addrs, target: Addrs) {
    if Agree(a, target) then i == Peer(Addresses(2, id, a), NoEnv())
    else exists opts :: Refusal(opts, a, target) && SmallOptions(opts) && i == NakInput(id, opts)
  }

  ghost predicate SmallOptions(opts: seq<Opt>) {
    (forall o :: o in opts ==> |o.value| == 4) && |OptsBytes(opts)| <= 60
  }

  // A server that corrects every wrong address at once.
  function Server(target: Addrs): seq<byte> -> Input {
    request => ServerReply(target, request)
  }

  function ServerReply(target: Addrs, request: seq<byte>): Input {
    if |request| != 26 then Local([])
    else
      var a := Addrs(GetBe32(request[10..]), 0, GetBe32(request[16..]), GetBe32(request[22..]));
      if Wrong(a, target) == [] then Peer(request[4 := 2], NoEnv()) else NakInput(request[5], Wrong(a, target))
  }

  function Wrong(a: Addrs, target: Addrs): (opts: seq<Opt>)
    ensures SmallOptions(opts) && |opts| <= 3
  {
    Be32RoundTrip(target.local);
    Be32RoundTrip(target.dns1);
    Be32RoundTrip(target.dns2);
    var opts :=
      (if a.local == target.local then [] else [Opt(3, PutBe32(target.local))]) +
      (if a.dns1 == target.dns1 then [] else [Opt(129, PutBe32(target.dns1))]) +
      (if a.dns2 == target.dns2 then [] else [Opt(131, PutBe32(target.dns2))]);
    OptsBytesSize(opts);
    opts
  }

  lemma FourBack(v: uint32, rest: seq<byte>)
    ensures GetBe32(Four(v) + rest) == v
  {
    var p := Four(v) + rest;
    assert p[2..][0] == v / 0x100 % 0x100 && p[2..][1] == v % 0x100;
  }

  lemma RequestParts(id: byte, a: Addrs)
    ensures var r := Addresses(1, id, a);
      && |r| == 26 && r[5] == id && r[4 := 2] == Addresses(2, id, a)
      && GetBe32(r[10..]) == a.local && GetBe32(r[16..]) == a.dns1 && GetBe32(r[22..]) == a.dns2
  {
    hide Four, GetBe32;
    var r := Addresses(1, id, a);
    FourBack(a.local, [129, 6] + Four(a.dns1) + [131, 6] + Four(a.dns2));
    FourBack(a.dns1, [131, 6] + Four(a.dns2));
    FourBack(a.dns2, []);
    FourSize(a.local);
    FourSize(a.dns1);
    FourSize(a.dns2);
    assert r[10..] == Four(a.local) + ([129, 6] + Four(a.dns1) + [131, 6] + Four(a.dns2));
    assert r[16..] == Four(a.dns1) + ([131, 6] + Four(a.dns2));
    assert r[22..] == Four(a.dns2) + [];
    assert r[4 := 2] == Addresses(2, id, a);
  }

  lemma FourSize(v: uint32)
    ensures |Four(v)| == 4
  {
  }

  /** There is such a server for every target. */
  lemma ServerServes(target: Addrs)
    ensures Serves(Server(target), target)
  {
    hide Addresses, PutBe32, GetBe32, NakInput, SmallOptions;
    forall id: byte, a: Addrs
      ensures Answers(Server(target)(Addresses(1, id, a)), id, a, target)
    {
      RequestParts(id, a);
      var b := Addrs(a.local, 0, a.dns1, a.dns2);
      var opts := Wrong(b, target);
      assert Agree(a, target) <==> opts == [];
      assert opts != [] ==> Refusal(opts, a, target);
    }
  }

  /** Up to `n` packets of the server, each of which answers the request that the engine put out last. */
  function Exchange(cfg: Config, s: Ctl, request: seq<byte>, reply: seq<byte> -> Input, n: nat): Out
    decreases n
  {
    if n == 0 || !Safe(s) then Quiet(s)
    else
      var o := Step(cfg, s, reply(request));
      if o.frames == [] then o else Join(o, Exchange(cfg, o.s, o.frames[0], reply, n - 1))
  }

  lemma Refused(reply: seq<byte> -> Input, target: Addrs, id: byte, a: Addrs) returns (opts: seq<Opt>)
    requires Serves(reply, target) && !Agree(a, target)
    ensures Refusal(opts, a, target) && SmallOptions(opts) && reply(Addresses(1, id, a)) == NakInput(id, opts)
  {
    hide Addresses, Refusal;
    assert Answers(reply(Addresses(1, id, a)), id, a, target);
    opts :| Refusal(opts, a, target) && SmallOptions(opts) && reply(Addresses(1, id, a)) == NakInput(id, opts);
  }

  /** The exchange ends, after at most three refusals, with the addresses of the server. */
  lemma {:induction false} ExchangeSettles(cfg: Config, s: Ctl, target: Addrs, reply: seq<byte> -> Input, n: nat)
    requires Safe(s) && s.flags.ccpDone && target.local != 0 && Serves(reply, target) && n > Mismatches(s.addrs, target)
    ensures var o := Exchange(cfg, s, Addresses(1, s.ids.ipcp, s.addrs), reply, n);
      && Settled(o, s.flags.upNotified, target)
      && o.s.flags == s.flags.(ipConfigured := true, upNotified := true) && o.s.send == s.send && o.s.recv == s.recv
      && (forall e :: e in o.events ==> e.PppUp? && e.seen == o.s)
    decreases n
  {
    hide Addresses, Step, Serves, NakInput, IpcpPayload, Frame;
    var request := Addresses(1, s.ids.ipcp, s.addrs);
    AddressesIs(1, s.ids.ipcp, s.addrs);
    AddressesIs(2, s.ids.ipcp, s.addrs);
    if Agree(s.addrs, target) {
      Granted(reply, target, s.ids.ipcp, s.addrs);
      AckEchoes(cfg, s, s.ids.ipcp);
    } else {
      var opts := Refused(reply, target, s.ids.ipcp, s.addrs);
      NakRound(cfg, s, s.ids.ipcp, opts, target);
      var o := Step(cfg, s, NakInput(s.ids.ipcp, opts));
      NakKeeps(cfg, s, s.ids.ipcp, opts);
      AddressesIs(1, o.s.ids.ipcp, o.s.addrs);
      ExchangeSettles(cfg, o.s, target, reply, n - 1);
      var rest := Exchange(cfg, o.s, o.frames[0], reply, n - 1);
      assert [] + rest.events == rest.events;
    }
  }

  lemma Granted(reply: seq<byte> -> Input, target: Addrs, id: byte, a: Addrs)
    requires Serves(reply, target) && Agree(a, target)
    ensures reply(Addresses(1, id, a)) == Peer(Addresses(2, id, a), NoEnv())
  {
    hide Addresses;
  }

  // A refusal does not touch the keys.
  lemma NakKeeps(cfg: Config, s: Ctl, id: byte, opts: seq<Opt>)
    requires Safe(s) && s.flags.ccpDone && SmallOptions(opts)
    ensures var o := Step(cfg, s, NakInput(id, opts)); o.s.send == s.send && o.s.recv == s.recv
  {
    hide Frame, Last, Walk, Step, IpcpPayload, Configure;
    var p := Configure(FSM_CONFNAK, id, OptsBytes(opts));
    ConfigureLength(FSM_CONFNAK, id, OptsBytes(opts));
    DispatchIpcp(cfg, s, p, NoEnv());
  }

  /** A whole session, from creation on: the server asks for LCP and acknowledges our request, challenges us
      and is content with the response, acknowledges our CCP request, and then serves our requests for
      addresses. Every packet of ours that it answers was put out by an earlier step. The link comes up,
      authenticated, with the addresses of the server; the owner is told exactly that he has to derive the
      keys, and that it is up; and MPPE stands at the start of its schedule in both directions. */
  lemma SessionComesUp(cfg: Config, magic: uint32, hello: seq<byte>, challenge: seq<byte>, env: Env, success: seq<byte>,
                       target: Addrs, reply: seq<byte> -> Input)
    requires |hello| >= 4 && hello[0] == 1 && Stated(hello) <= 256
    requires |challenge| >= 5 && challenge[0] == 1 && challenge[4] >= 16 && |challenge| - 5 >= challenge[4]
    requires |success| >= 5 && success[0] == 3 && env.derived.Keys?
    requires Serves(reply, target) && target.local != 0
    ensures
      var none := NoEnv();
      var a := Step(cfg, Created(magic), Peer(LcpFrame(hello), none));
      && Safe(a.s) && a.frames == [LcpFrame(Again(2, hello, Stated(hello))),
                                   LcpFrame([1, 1, 0, 14, 1, 4, 5, 0x78, 5, 6] + Four(magic))]
      && var b := Step(cfg, a.s, Acknowledged(a.frames[1]));
      && Safe(b.s) && b.s.flags.lcpOpened
      && var c := Step(cfg, b.s, Peer(ChapFrame(challenge), env));
      && Safe(c.s) && c.frames == [Response(challenge[1], env, cfg.username)] && c.events == [PppAuth]
      && var d := Step(cfg, c.s, Peer(ChapFrame(success), none));
      && Safe(d.s) && d.frames == [CcpFrame([1, 1, 0, 10, 18, 6, 0x01, 0x00, 0x00, 0x40])]
      && var e := Step(cfg, d.s, Acknowledged(d.frames[0]));
      && Safe(e.s) && e.frames == [Addresses(1, 1, Addrs(0, 0, 0, 0))]
      && var o := Exchange(cfg, e.s, e.frames[0], reply, 4);
      && a.events == b.events == d.events == e.events == []
      && o.events == [PppUp(o.s)] && Agree(o.s.addrs, target)
      && o.s.flags.authDone && o.s.flags.mppeEnabled
      && o.s.send.master == env.derived.send && o.s.recv.master == env.derived.recv
      && InStep(cfg.crypto, o.s.send, 0) && InStep(cfg.crypto, o.s.recv, 0)
  {
    hide Unframe, Step, LcpFrame, ChapFrame, CcpFrame, Response, InStep, Addresses, Done, Exchange, Serves;
    var none := NoEnv();
    var s := Created(magic);
    Greeted(cfg, s, hello);
    var a := Step(cfg, s, Peer(LcpFrame(hello), none));
    assert LcpAsks(s) == LcpFrame([1, 1, 0, 14, 1, 4, 5, 0x78, 5, 6] + Four(magic));
    var b := Step(cfg, a.s, Acknowledged(a.frames[1]));
    FormsOf(0xc223, challenge);
    ChapEffect(cfg, b.s, ChapFrame(challenge), challenge, env);
    var c := Step(cfg, b.s, Peer(ChapFrame(challenge), env));
    FormsOf(0xc223, success);
    ChapEffect(cfg, c.s, ChapFrame(success), success, none);
    var d := Step(cfg, c.s, Peer(ChapFrame(success), none));
    assert CcpAsks(c.s) == CcpFrame([1, 1, 0, 10, 18, 6, 0x01, 0x00, 0x00, 0x40]);
    CcpGranted(cfg, d.s, c.s);
    var e := Step(cfg, d.s, Acknowledged(d.frames[0]));
    assert e.frames == [Addresses(1, 1, Addrs(0, 0, 0, 0))];
    InitInStep(cfg.crypto, d.s.send);
    InitInStep(cfg.crypto, d.s.recv);
    ExchangeSettles(cfg, e.s, target, reply, 4);
    var o := Exchange(cfg, e.s, e.frames[0], reply, 4);
    assert o.events[0] in o.events;
  }

  lemma FormsOf(proto: uint16, p: seq<byte>)
    requires proto in {0xc021, 0xc223, 0x8021, 0x80fd}
    ensures proto == 0xc021 ==> Unframe(LcpFrame(p)) == [(proto, p)]
    ensures proto == 0xc223 ==> Unframe(ChapFrame(p)) == [(proto, p)]
    ensures proto == 0x8021 ==> Unframe(IpcpFrame(p)) == [(proto, p)]
    ensures proto == 0x80fd ==> Unframe(CcpFrame(p)) == [(proto, p)]
  {
    hide Unframe;
    Forms(0xc0, 0x21, p);
    Forms(0xc2, 0x23, p);
    Forms(0x80, 0x21, p);
    Forms(0x80, 0xfd, p);
  }

  lemma Greeted(cfg: Config, s: Ctl, hello: seq<byte>)
    requires Safe(s) && !s.flags.lcpOpened && |hello| >= 4 && hello[0] == 1 && Stated(hello) <= 256
    ensures var a := Step(cfg, s, Peer(LcpFrame(hello), NoEnv()));
      && a.frames == [LcpFrame(Again(2, hello, Stated(hello))), LcpAsks(s)] && |a.frames[1]| > 4 && a.events == [] && Safe(a.s)
      && var b := Step(cfg, a.s, Acknowledged(a.frames[1]));
      b == Out(a.s.(flags := a.s.flags.(lcpOpened := true)), [], [], []) &&
      a.s == s.(ids := s.ids.(lcp := Inc(s.ids.lcp)))
  {
    hide Unframe, Step;
    FormsOf(0xc021, hello);
    LcpEffect(cfg, s, LcpFrame(hello), hello, NoEnv());
    var a := Step(cfg, s, Peer(LcpFrame(hello), NoEnv()));
    var ack := [2, Inc(s.ids.lcp), 0, 14, 1, 4, 5, 0x78, 5, 6] + Four(s.ids.magic);
    assert LcpAsks(s)[4 := 2] == LcpFrame(ack);
    FormsOf(0xc021, ack);
    LcpEffect(cfg, a.s, LcpFrame(ack), ack, NoEnv());
  }

  // The acknowledgement of our CCP request: MPPE starts, and the addresses are asked for.
  lemma CcpGranted(cfg: Config, s: Ctl, t: Ctl)
    requires Safe(s) && s.flags.authDone && !s.flags.ccpDone && !s.flags.ipConfigured && s.flags.mppeKeysSet
    ensures |CcpAsks(t)| > 4
    ensures var e := Step(cfg, s, Acknowledged(CcpAsks(t)));
      && Safe(e.s) && e.events == [] && e.s.flags.ccpDone && e.s.flags == s.flags.(ccpDone := true, mppeEnabled := true)
      && e.frames == [Addresses(1, e.s.ids.ipcp, e.s.addrs)] && e.s.ids.ipcp == Inc(s.ids.ipcp) && e.s.addrs == s.addrs
      && e.s.send == InitHalf(cfg.crypto, s.send) && e.s.recv == InitHalf(cfg.crypto, s.recv)
  {
    hide Unframe, Step;
    var ack := [2, Inc(t.ids.ccp), 0, 10, 18, 6, 0x01, 0x00, 0x00, 0x40];
    assert CcpAsks(t)[4 := 2] == CcpFrame(ack);
    FormsOf(0x80fd, ack);
    CcpEffect(cfg, s, CcpFrame(ack), ack, NoEnv());
    StepKeeps(cfg, s, Acknowledged(CcpAsks(t)));
  }
}
