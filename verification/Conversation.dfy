/** Two engines talking to each other over the tunnel, both ways at once: an invariant of every run in
    which they send IP packets, take frames off the line, and configuration packets come in between. */
module Conversation {
  import opened Bytes
  import opened Mppe
  import opened PppOptions
  import opened Engine
  import opened Negotiation
  import opened Delivery

  /** A frame that has nothing to do with the data nor with its keys: LCP, IPCP, anything unknown. CHAP and
      CCP are excluded, since both may change the keys at any time. */
  predicate ControlFrame(frame: seq<byte>) {
    Unframe(frame) == [] ||
    (var proto := Unframe(frame)[0].0;
     proto != PPP_PROTO_CHAP && proto != PPP_PROTO_CCP && proto != PPP_PROTO_MPPE && proto != PPP_PROTO_IP)
  }

  // ----- configuration packets leave the data path alone -----

  // `o` changes nothing on the data path of `s`, and puts out only control frames.
  ghost predicate Aside(s: Ctl, o: Out) {
    o.s.send == s.send && o.s.recv == s.recv &&
    o.s.flags.mppeEnabled == s.flags.mppeEnabled && o.s.flags.ccpDone == s.flags.ccpDone &&
    o.ips == [] && forall f :: f in o.frames ==> ControlFrame(f)
  }

  lemma AsideJoin(s: Ctl, o: Out, p: Out)
    requires Aside(s, o) && Aside(o.s, p)
    ensures Aside(s, Join(o, p))
  {
    hide ControlFrame;
  }

  lemma AsideSent(s: Ctl, proto: uint16, payload: seq<byte>)
    requires proto == PPP_PROTO_LCP || proto == PPP_PROTO_IPCP
    ensures Aside(s, Sent(s, proto, payload))
  {
    hide Unframe, Frame;
    UnframeFrame(proto, payload);
  }

  lemma AsideLcp(s: Ctl, buf: seq<byte>)
    ensures Aside(s, HandleLcp(s, buf))
  {
    hide ControlFrame, Sent, Reply, EchoReply, Configure, OptBytes, PutBe32, PacketLength;
    forall t: Ctl, payload: seq<byte>
      ensures Aside(t, Sent(t, PPP_PROTO_LCP, payload)) && Sent(t, PPP_PROTO_LCP, payload).s == t
    {
      AsideSent(t, PPP_PROTO_LCP, payload);
      SentStays(t, PPP_PROTO_LCP, payload);
    }
  }

  lemma SentStays(s: Ctl, proto: uint16, payload: seq<byte>)
    ensures Sent(s, proto, payload).s == s
  {
  }

  lemma AsideUp(s: Ctl)
    ensures Aside(s, MaybeNotifyUp(s))
  {
  }

  lemma AsideAddresses(s: Ctl, opts: seq<Opt>)
    ensures var t := WithAddresses(s, opts); t.send == s.send && t.recv == s.recv && t.flags == s.flags
  {
    hide Last;
  }

  lemma AsideIpcp(s: Ctl, buf: seq<byte>)
    requires s.flags.ccpDone && |buf| >= 4
    ensures Aside(s, IpcpBody(s, buf))
  {
    hide ControlFrame, Sent, Reply, IpcpPayload, PacketLength, WithAddresses, MaybeNotifyUp;
    AsideAddresses(s, Walk(buf[..PacketLength(buf)], 4));
    forall t: Ctl
      ensures Aside(t, MaybeNotifyUp(t))
    {
      AsideUp(t);
    }
    forall t: Ctl, payload: seq<byte>
      ensures Aside(t, Sent(t, PPP_PROTO_IPCP, payload)) && Sent(t, PPP_PROTO_IPCP, payload).s == t
    {
      AsideSent(t, PPP_PROTO_IPCP, payload);
      SentStays(t, PPP_PROTO_IPCP, payload);
    }
  }

  lemma AsideIpcpEntry(s: Ctl, buf: seq<byte>)
    requires s.flags.ccpDone
    ensures Aside(s, HandleIpcp(s, buf))
  {
    hide ControlFrame, IpcpBody;
    if |buf| >= 4 {
      AsideIpcp(s, buf);
      AsideJoin(s, Quiet(s), IpcpBody(s, buf));
    }
  }

  /** Once CCP is done, a control frame leaves both keys and counters alone, delivers no packet, and is
      answered by control frames only. */
  lemma ControlStep(cfg: Config, s: Ctl, frame: seq<byte>, env: Env)
    requires Safe(s) && s.flags.ccpDone && ControlFrame(frame)
    ensures var o := Step(cfg, s, Peer(frame, env)); Safe(o.s) && Aside(s, o)
  {
    hide Unframe, HandleLcp, HandleChap, HandleIpcp, HandleCcp, HandleMppe;
    StepKeeps(cfg, s, Peer(frame, env));
    if Unframe(frame) != [] {
      var (proto, p) := Unframe(frame)[0];
      AsideLcp(s, p);
      AsideIpcpEntry(s, p);
    }
  }

  // ----- data frames, by their number -----

  // A direction right behind packet number `n - 1`, before it has used the RC4 state.
  function Ideal(c: Crypto, master: seq<byte>, n: nat): Half {
    Half(master, SessionAfter(c, master, n), Rc4([], 0), (n + COUNTS - 1) % COUNTS)
  }

  /** The frame of packet number `n`. */
  function DataFrame(c: Crypto, encrypted: bool, master: seq<byte>, n: nat, ip: seq<byte>): seq<byte> {
    if encrypted then Frame(PPP_PROTO_MPPE, Seal(c, Ideal(c, master, n), PutBe16(PPP_PROTO_IP) + ip).1)
    else Frame(PPP_PROTO_IP, ip)
  }

  // What one direction of `s` has to be in order to send or to expect packet number `n`.
  ghost predicate At(c: Crypto, encrypted: bool, h: Half, master: seq<byte>, n: nat) {
    encrypted ==> h.master == master && InStep(c, h, n)
  }

  lemma SealIdeal(c: Crypto, h: Half, n: nat, plain: seq<byte>)
    requires InStep(c, h, n)
    ensures h.ccount < COUNTS && Seal(c, h, plain) == Seal(c, Ideal(c, h.master, n), plain)
  {
  }

  /** Sending: the next packet of the numbering, and nothing else. */
  lemma SendStep(cfg: Config, s: Ctl, n: nat, master: seq<byte>, ip: seq<byte>)
    requires Safe(s) && At(cfg.crypto, s.flags.mppeEnabled, s.send, master, n) && Sendable(ip)
    ensures var o := Step(cfg, s, Local(ip));
      && Safe(o.s) && o.s.recv == s.recv && o.s.flags == s.flags && o.s.send.master == s.send.master
      && o.frames == [DataFrame(cfg.crypto, s.flags.mppeEnabled, master, n, ip)]
      && At(cfg.crypto, s.flags.mppeEnabled, o.s.send, master, n + 1)
  {
    hide Frame, Seal, InStep, PutBe16;
    StepKeeps(cfg, s, Local(ip));
    Be16Size(PPP_PROTO_IP);
    if s.flags.mppeEnabled {
      var plain := PutBe16(PPP_PROTO_IP) + ip;
      SealIdeal(cfg.crypto, s.send, n, plain);
      SealInStep(cfg.crypto, s.send, plain, n);
      SealMaster(cfg.crypto, s.send, plain);
      CountInPacket(cfg.crypto, s.send, plain);
    }
  }

  // A packet the engine refuses leaves no trace.
  lemma RefuseStep(cfg: Config, s: Ctl, ip: seq<byte>)
    requires Safe(s) && !Sendable(ip)
    ensures Step(cfg, s, Local(ip)) == Quiet(s)
  {
  }

  /** Receiving: the packet expected is delivered, and the next one is expected. */
  lemma ReceiveStep(cfg: Config, s: Ctl, n: nat, master: seq<byte>, ip: seq<byte>, env: Env)
    requires Safe(s) && At(cfg.crypto, s.flags.mppeEnabled, s.recv, master, n) && Sendable(ip)
    ensures var o := Step(cfg, s, Peer(DataFrame(cfg.crypto, s.flags.mppeEnabled, master, n, ip), env));
      && Safe(o.s) && o.s.send == s.send && o.s.flags == s.flags && o.frames == [] && o.ips == [ip]
      && At(cfg.crypto, s.flags.mppeEnabled, o.s.recv, master, n + 1)
  {
    hide Frame, Seal, InStep, Step, PutBe16;
    var frame := DataFrame(cfg.crypto, s.flags.mppeEnabled, master, n, ip);
    StepKeeps(cfg, s, Peer(frame, env));
    if s.flags.mppeEnabled {
      var sender := s.(send := Ideal(cfg.crypto, master, n));
      IdealInStep(cfg.crypto, master, n);
      SealedPacket(cfg, sender, s, n, ip, env);
    } else {
      PlainPacket(cfg, s, ip, env);
    }
  }

  lemma IdealInStep(c: Crypto, master: seq<byte>, n: nat)
    ensures InStep(c, Ideal(c, master, n), n) && Ideal(c, master, n).ccount < COUNTS
  {
  }

  lemma DataIsNoControl(c: Crypto, encrypted: bool, master: seq<byte>, n: nat, ip: seq<byte>)
    ensures !ControlFrame(DataFrame(c, encrypted, master, n, ip))
  {
    hide Unframe, Frame, Seal;
    UnframeFrame(PPP_PROTO_IP, ip);
    if encrypted {
      UnframeFrame(PPP_PROTO_MPPE, Seal(c, Ideal(c, master, n), PutBe16(PPP_PROTO_IP) + ip).1);
    }
  }

  // ----- what is on the line -----

  /** The frames carry `ips`, numbered from `n`, with control frames in between. */
  ghost predicate Carries(c: Crypto, encrypted: bool, master: seq<byte>, n: nat, frames: seq<seq<byte>>, ips: seq<seq<byte>>)
    decreases frames
  {
    if frames == [] then ips == []
    else if ControlFrame(frames[0]) then Carries(c, encrypted, master, n, frames[1..], ips)
    else
      ips != [] && Sendable(ips[0]) && frames[0] == DataFrame(c, encrypted, master, n, ips[0]) &&
      Carries(c, encrypted, master, n + 1, frames[1..], ips[1..])
  }

  lemma {:induction false} CarriesControl(c: Crypto, encrypted: bool, master: seq<byte>, n: nat, frames: seq<seq<byte>>,
                                          ips: seq<seq<byte>>, more: seq<seq<byte>>)
    requires Carries(c, encrypted, master, n, frames, ips) && forall f :: f in more ==> ControlFrame(f)
    ensures Carries(c, encrypted, master, n, frames + more, ips)
    decreases |frames| + |more|
  {
    hide ControlFrame, DataFrame, Sendable;
    if frames == [] {
      assert frames + more == more;
      if more != [] {
        assert more[0] in more;
        CarriesControl(c, encrypted, master, n, [], ips, more[1..]);
        assert [] + more[1..] == more[1..];
      }
    } else {
      assert (frames + more)[1..] == frames[1..] + more;
      if ControlFrame(frames[0]) {
        CarriesControl(c, encrypted, master, n, frames[1..], ips, more);
      } else {
        CarriesControl(c, encrypted, master, n + 1, frames[1..], ips[1..], more);
      }
    }
  }

  lemma {:induction false} CarriesData(c: Crypto, encrypted: bool, master: seq<byte>, n: nat, frames: seq<seq<byte>>,
                                       ips: seq<seq<byte>>, ip: seq<byte>)
    requires Carries(c, encrypted, master, n, frames, ips) && Sendable(ip)
    ensures Carries(c, encrypted, master, n, frames + [DataFrame(c, encrypted, master, n + |ips|, ip)], ips + [ip])
    decreases frames
  {
    hide ControlFrame, DataFrame, Sendable;
    var f := DataFrame(c, encrypted, master, n + |ips|, ip);
    if frames == [] {
      DataIsNoControl(c, encrypted, master, n, ip);
      assert [f][1..] == frames && [ip][1..] == ips && frames + [f] == [f] && ips + [ip] == [ip];
    } else {
      assert (frames + [f])[1..] == frames[1..] + [f];
      if ControlFrame(frames[0]) {
        CarriesData(c, encrypted, master, n, frames[1..], ips, ip);
      } else {
        assert (ips + [ip])[1..] == ips[1..] + [ip];
        CarriesData(c, encrypted, master, n + 1, frames[1..], ips[1..], ip);
      }
    }
  }

  /** How many of the frames carry data. */
  function DataCount(frames: seq<seq<byte>>): nat {
    if frames == [] then 0 else (if ControlFrame(frames[0]) then 0 else 1) + DataCount(frames[1..])
  }

  // The first frames on the line carry the first packets.
  lemma {:induction false} CarriesPrefix(c: Crypto, encrypted: bool, master: seq<byte>, n: nat, frames: seq<seq<byte>>,
                                         more: seq<seq<byte>>, ips: seq<seq<byte>>)
    requires Carries(c, encrypted, master, n, frames + more, ips)
    ensures var k := DataCount(frames);
      k <= |ips| && Carries(c, encrypted, master, n, frames, ips[..k]) && (more == [] ==> k == |ips|)
    decreases frames
  {
    hide ControlFrame, DataFrame, Sendable;
    if frames == [] {
      assert frames + more == more;
    } else {
      assert (frames + more)[1..] == frames[1..] + more;
      if ControlFrame(frames[0]) {
        CarriesPrefix(c, encrypted, master, n, frames[1..], more, ips);
      } else {
        CarriesPrefix(c, encrypted, master, n + 1, frames[1..], more, ips[1..]);
        var k := DataCount(frames[1..]);
        assert ips[..k + 1][1..] == ips[1..][..k];
      }
    }
  }

  lemma {:induction false} ControlCarries(c: Crypto, encrypted: bool, master: seq<byte>, n: nat, front: seq<seq<byte>>,
                                          frames: seq<seq<byte>>, ips: seq<seq<byte>>)
    requires Carries(c, encrypted, master, n, frames, ips) && forall f :: f in front ==> ControlFrame(f)
    ensures Carries(c, encrypted, master, n, front + frames, ips)
    decreases front
  {
    hide ControlFrame, DataFrame, Sendable;
    if front == [] {
      assert front + frames == frames;
    } else {
      assert front[0] in front;
      assert (front + frames)[1..] == front[1..] + frames;
      ControlCarries(c, encrypted, master, n, front[1..], frames, ips);
    }
  }

  // ----- one end over a whole run -----

  /** The frames an engine takes in. */
  function FramesOf(inputs: seq<Input>): seq<seq<byte>> {
    if inputs == [] then []
    else (if inputs[0].Peer? then [inputs[0].frame] else []) + FramesOf(inputs[1..])
  }

  lemma {:induction false} FramesOfAppend(a: seq<Input>, b: seq<Input>)
    ensures FramesOf(a + b) == FramesOf(a) + FramesOf(b)
    decreases a
  {
    if a == [] {
      assert a + b == b;
    } else {
      assert (a + b)[1..] == a[1..] + b;
      FramesOfAppend(a[1..], b);
    }
  }

  /** The packets an engine is given, as far as it accepts them. */
  function Given(inputs: seq<Input>): seq<seq<byte>> {
    if inputs == [] then []
    else
      var i := inputs[0];
      (if i.Local? && 0 < |i.ip| <= PPP_MRU - 4 then [i.ip] else []) + Given(inputs[1..])
  }

  // Sending does not touch the receiving direction.
  lemma LocalStep(cfg: Config, s: Ctl, ip: seq<byte>)
    requires Safe(s)
    ensures var o := Step(cfg, s, Local(ip)); Safe(o.s) && o.s.recv == s.recv && o.s.flags == s.flags && o.ips == []
  {
    hide Seal, Frame;
    StepKeeps(cfg, s, Local(ip));
  }

  /** The receiving end: whatever it sends meanwhile, and whatever control frames come in between, it
      delivers exactly the packets that the frames carry. */
  lemma {:induction false} ReceiverRun(cfg: Config, s: Ctl, inputs: seq<Input>, n: nat, master: seq<byte>,
                                       ips: seq<seq<byte>>)
    requires Safe(s) && s.flags.ccpDone && At(cfg.crypto, s.flags.mppeEnabled, s.recv, master, n)
    requires Carries(cfg.crypto, s.flags.mppeEnabled, master, n, FramesOf(inputs), ips)
    ensures Run(cfg, s, inputs).ips == ips
    decreases inputs
  {
    hide Step, Run, At, ControlFrame, DataFrame, Sendable;
    RunStep(cfg, s, inputs);
    if inputs != [] {
      var o := Step(cfg, s, inputs[0]);
      var frames := FramesOf(inputs);
      match inputs[0]
      case Local(ip) =>
        LocalStep(cfg, s, ip);
        assert frames == FramesOf(inputs[1..]);
        ReceiverRun(cfg, o.s, inputs[1..], n, master, ips);
      case Peer(frame, env) =>
        assert frames[0] == frame && frames[1..] == FramesOf(inputs[1..]);
        if ControlFrame(frame) {
          ControlStep(cfg, s, frame, env);
          ReceiverRun(cfg, o.s, inputs[1..], n, master, ips);
        } else {
          ReceiveStep(cfg, s, n, master, ips[0], env);
          ReceiverRun(cfg, o.s, inputs[1..], n + 1, master, ips[1..]);
        }
    }
  }

  // A frame that cannot change the keys: anything but CHAP and CCP.
  predicate Harmless(frame: seq<byte>) {
    Unframe(frame) == [] || (Unframe(frame)[0].0 != PPP_PROTO_CHAP && Unframe(frame)[0].0 != PPP_PROTO_CCP)
  }

  /** Taking in any frame but CHAP and CCP leaves the sending direction alone. */
  lemma PeerStep(cfg: Config, s: Ctl, frame: seq<byte>, env: Env)
    requires Safe(s) && s.flags.ccpDone && Harmless(frame)
    ensures var o := Step(cfg, s, Peer(frame, env));
      && Safe(o.s) && o.s.send == s.send
      && o.s.flags.mppeEnabled == s.flags.mppeEnabled && o.s.flags.ccpDone
      && forall f :: f in o.frames ==> ControlFrame(f)
  {
    hide Unframe, HandleLcp, HandleChap, HandleIpcp, HandleCcp, HandleMppe;
    StepKeeps(cfg, s, Peer(frame, env));
    if Unframe(frame) != [] {
      var (proto, p) := Unframe(frame)[0];
      AsideLcp(s, p);
      AsideIpcpEntry(s, p);
      MppeQuiet(cfg.crypto, s, p);
    }
  }

  lemma MppeQuiet(c: Crypto, s: Ctl, buf: seq<byte>)
    requires Safe(s)
    ensures var o := HandleMppe(c, s, buf); o.s.send == s.send && o.s.flags == s.flags && o.frames == []
  {
    hide Open;
  }

  /** The sending end: whatever it takes in meanwhile, apart from CHAP and CCP, its frames carry exactly
      the packets it is given. */
  lemma {:induction false} SenderRun(cfg: Config, s: Ctl, inputs: seq<Input>, n: nat, master: seq<byte>)
    requires Safe(s) && s.flags.ccpDone && At(cfg.crypto, s.flags.mppeEnabled, s.send, master, n)
    requires forall f :: f in FramesOf(inputs) ==> Harmless(f)
    ensures Carries(cfg.crypto, s.flags.mppeEnabled, master, n, Run(cfg, s, inputs).frames, Given(inputs))
    decreases inputs
  {
    hide Step, Run, At, ControlFrame, Harmless, DataFrame;
    RunStep(cfg, s, inputs);
    if inputs != [] {
      var o := Step(cfg, s, inputs[0]);
      var frames := FramesOf(inputs);
      var encrypted := s.flags.mppeEnabled;
      match inputs[0]
      case Peer(frame, env) =>
        assert frames[0] == frame && frames[1..] == FramesOf(inputs[1..]);
        assert frame in frames;
        PeerStep(cfg, s, frame, env);
        SenderRun(cfg, o.s, inputs[1..], n, master);
        ControlCarries(cfg.crypto, encrypted, master, n, o.frames, Run(cfg, o.s, inputs[1..]).frames, Given(inputs[1..]));
        assert Given(inputs) == Given(inputs[1..]);
      case Local(ip) =>
        assert frames == FramesOf(inputs[1..]);
        if Sendable(ip) {
          SendStep(cfg, s, n, master, ip);
          SenderRun(cfg, o.s, inputs[1..], n + 1, master);
          DataIsNoControl(cfg.crypto, encrypted, master, n, ip);
          var rest := Run(cfg, o.s, inputs[1..]).frames;
          assert (o.frames + rest)[1..] == rest && Given(inputs) == [ip] + Given(inputs[1..]);
          assert Given(inputs)[1..] == Given(inputs[1..]);
        } else {
          RefuseStep(cfg, s, ip);
          SenderRun(cfg, o.s, inputs[1..], n, master);
          assert [] + Run(cfg, o.s, inputs[1..]).frames == Run(cfg, o.s, inputs[1..]).frames;
          assert Given(inputs) == Given(inputs[1..]);
        }
    }
  }

  // ----- the size of frames -----

  // Frames as the engine makes them: neither empty nor too long for the length field.
  ghost predicate Sized(frames: seq<seq<byte>>) {
    forall f :: f in frames ==> 4 <= |f| <= PPP_MRU + 4
  }

  lemma SizedSent(s: Ctl, proto: uint16, payload: seq<byte>)
    ensures Sized(Sent(s, proto, payload).frames)
  {
  }

  lemma SizedJoin(o: Out, p: Out)
    requires Sized(o.frames) && Sized(p.frames)
    ensures Sized(Join(o, p).frames)
  {
  }

  lemma SizedRequests(s: Ctl)
    ensures Sized(LcpRequest(s).frames) && Sized(IpcpRequest(s).frames) && Sized(CcpRequest(s).frames)
    ensures Sized(CcpFinished(s).frames)
  {
    hide Configure, OptBytes, IpcpPayload, Frame;
    forall t: Ctl, proto: uint16, payload: seq<byte>
      ensures Sized(Sent(t, proto, payload).frames)
    {
      SizedSent(t, proto, payload);
    }
  }

  lemma SizedLcp(s: Ctl, p: seq<byte>)
    ensures Sized(HandleLcp(s, p).frames)
  {
    hide Sent, Reply, EchoReply, PacketLength, LcpRequest, Sized;
    SizedAll();
    SizedNone();
    if |p| >= 4 {
      var ack := Sent(s, PPP_PROTO_LCP, Reply(FSM_CONFACK, p, PacketLength(p)));
      SizedTwo(ack, LcpRequest(s));
      SizedTwo(ack, Quiet(s));
      SizedTwo(Sent(s, PPP_PROTO_LCP, [FSM_TERMACK, p[1], 0, 4]), Quiet(s));
    }
  }

  lemma SizedChap(cfg: Config, s: Ctl, p: seq<byte>, env: Env)
    ensures Sized(HandleChap(cfg, s, p, env).frames)
  {
    hide Sent, ChapResponse, CcpRequest, Sized;
    SizedAll();
    SizedNone();
    if |p| >= 5 {
      SizedTwo(Sent(s.(ids := s.ids.(chap := p[1])), PPP_PROTO_CHAP, ChapResponse(p[1], env, cfg.username)), Quiet(s));
    }
  }

  lemma SizedIpcp(s: Ctl, p: seq<byte>)
    ensures Sized(HandleIpcp(s, p).frames)
  {
    hide Sent, Reply, PacketLength, Walk, Last, IpcpRequest, CcpFinished, MaybeNotifyUp, IpcpBody, Sized;
    SizedAll();
    SizedNone();
    if |p| >= 4 {
      var o := IpcpEntry(s);
      SizedIpcpBody(o.s, p);
      SizedTwo(o, IpcpBody(o.s, p));
    }
  }

  lemma SizedIpcpBody(s: Ctl, p: seq<byte>)
    requires |p| >= 4
    ensures Sized(IpcpBody(s, p).frames)
  {
    hide Sent, Reply, PacketLength, Walk, Last, IpcpRequest, MaybeNotifyUp, WithAddresses, Sized;
    SizedAll();
    SizedNone();
  }

  lemma SizedCcp(c: Crypto, s: Ctl, p: seq<byte>)
    ensures Sized(HandleCcp(c, s, p).frames)
  {
    hide Sent, Reply, PacketLength, CcpFinished, MppeInitKeys, Sized;
    SizedAll();
    SizedNone();
    if |p| >= 4 {
      var o := Sent(s, PPP_PROTO_CCP, Reply(FSM_CONFACK, p, PacketLength(p)));
      SizedTwo(o, CcpFinished(MppeInitKeys(c, o.s)));
    }
  }

  lemma SizedNone()
    ensures Sized([])
  {
  }

  lemma SizedTwo(o: Out, p: Out)
    requires Sized(o.frames) && Sized(p.frames)
    ensures Sized(o.frames + p.frames)
  {
  }

  // Whatever the handlers put together.
  lemma SizedAll()
    ensures forall t: Ctl, proto: uint16, payload: seq<byte> :: Sized(Sent(t, proto, payload).frames)
    ensures forall t: Ctl, proto: uint16, payload: seq<byte> :: Sent(t, proto, payload).s == t
    ensures forall t: Ctl :: Sized(LcpRequest(t).frames) && Sized(IpcpRequest(t).frames) && Sized(CcpRequest(t).frames)
    ensures forall t: Ctl :: Sized(CcpFinished(t).frames) && MaybeNotifyUp(t).frames == []
  {
    hide Sent, LcpRequest, IpcpRequest, CcpRequest, CcpFinished, MaybeNotifyUp, Sized;
    forall t: Ctl, proto: uint16, payload: seq<byte>
      ensures Sized(Sent(t, proto, payload).frames) && Sent(t, proto, payload).s == t
    {
      SizedSent(t, proto, payload);
      SentStays(t, proto, payload);
    }
    forall t: Ctl
      ensures Sized(LcpRequest(t).frames) && Sized(IpcpRequest(t).frames) && Sized(CcpRequest(t).frames)
      ensures Sized(CcpFinished(t).frames) && MaybeNotifyUp(t).frames == []
    {
      SizedRequests(t);
      QuietUp(t);
    }
  }

  lemma QuietUp(s: Ctl)
    ensures MaybeNotifyUp(s).frames == []
  {
  }

  lemma SizedStep(cfg: Config, s: Ctl, i: Input)
    requires Safe(s)
    ensures Sized(Step(cfg, s, i).frames)
  {
    hide Unframe, HandleLcp, HandleChap, HandleIpcp, HandleCcp, HandleMppe, SendIp;
    match i
    case Peer(frame, env) =>
      if Unframe(frame) != [] {
        var (proto, p) := Unframe(frame)[0];
        SizedLcp(s, p);
        SizedChap(cfg, s, p, env);
        SizedIpcp(s, p);
        SizedCcp(cfg.crypto, s, p);
        MppeQuiet(cfg.crypto, s, p);
      }
    case Local(ip) =>
      SizedSendIp(cfg.crypto, s, ip);
  }

  lemma SizedSendIp(c: Crypto, s: Ctl, ip: seq<byte>)
    requires Safe(s)
    ensures Sized(SendIp(c, s, ip).frames)
  {
    hide Seal, Sent;
    SizedSent(s, PPP_PROTO_IP, ip);
    var (send, enc) := Seal(c, s.send, PutBe16(PPP_PROTO_IP) + ip);
    SizedSent(s.(send := send), PPP_PROTO_MPPE, enc);
  }

  lemma {:induction false} SizedRun(cfg: Config, s: Ctl, inputs: seq<Input>)
    requires Safe(s)
    ensures Sized(Run(cfg, s, inputs).frames)
    decreases inputs
  {
    hide Step, Run;
    RunStep(cfg, s, inputs);
    if inputs != [] {
      SizedStep(cfg, s, inputs[0]);
      var o := Step(cfg, s, inputs[0]);
      SizedRun(cfg, o.s, inputs[1..]);
      SizedJoin(o, Run(cfg, o.s, inputs[1..]));
    }
  }

  // ----- the system of both -----

  /** Both engines, the frames on the line each way, and what each has sent and got so far. */
  datatype Talk = Talk(a: Ctl, b: Ctl, toB: seq<seq<byte>>, toA: seq<seq<byte>>,
                       sentA: seq<seq<byte>>, sentB: seq<seq<byte>>, gotA: seq<seq<byte>>, gotB: seq<seq<byte>>)

  /** What can happen at one end: it is given an IP packet to send, it takes the next frame off the line,
      or a configuration packet gets onto the line beside it. */
  datatype Move = Send(ip: seq<byte>) | Receive(env: Env) | Inject(frame: seq<byte>)

  ghost predicate Fair(m: Move) {
    m.Inject? ==> ControlFrame(m.frame)
  }

  function PlayA(cfg: Config, t: Talk, m: Move): Talk
    requires Safe(t.a)
  {
    match m
    case Send(ip) =>
      var o := Step(cfg, t.a, Local(ip));
      t.(a := o.s, toB := t.toB + o.frames, sentA := if 0 < |ip| <= PPP_MRU - 4 then t.sentA + [ip] else t.sentA)
    case Receive(env) =>
      if t.toA == [] then t
      else
        var o := Step(cfg, t.a, Peer(t.toA[0], env));
        t.(a := o.s, toB := t.toB + o.frames, toA := t.toA[1..], gotA := t.gotA + o.ips)
    case Inject(frame) =>
      t.(toB := t.toB + [frame])
  }

  function Flip(t: Talk): Talk {
    Talk(t.b, t.a, t.toA, t.toB, t.sentB, t.sentA, t.gotB, t.gotA)
  }

  /** One direction: what has been got is the first part of what was sent, the line carries the rest, and
      both ends stand where their numbers say (counted from `k`). */
  ghost predicate Flows(c: Crypto, from: Ctl, to: Ctl, line: seq<seq<byte>>,
                        sent: seq<seq<byte>>, got: seq<seq<byte>>, k: nat) {
    var encrypted, master := from.flags.mppeEnabled, from.send.master;
    to.flags.mppeEnabled == encrypted && got <= sent &&
    At(c, encrypted, from.send, master, k + |sent|) && At(c, encrypted, to.recv, master, k + |got|) &&
    Carries(c, encrypted, master, k + |got|, line, sent[|got|..])
  }

  ghost predicate Talking(c: Crypto, t: Talk, k: nat, l: nat) {
    Safe(t.a) && Safe(t.b) && t.a.flags.ccpDone && t.b.flags.ccpDone &&
    Flows(c, t.a, t.b, t.toB, t.sentA, t.gotB, k) && Flows(c, t.b, t.a, t.toA, t.sentB, t.gotA, l)
  }

  lemma SendTalks(cfg: Config, t: Talk, ip: seq<byte>, k: nat, l: nat)
    requires Talking(cfg.crypto, t, k, l)
    ensures Talking(cfg.crypto, PlayA(cfg, t, Send(ip)), k, l)
  {
    hide Step, Carries, DataFrame, InStep, Safe;
    if Sendable(ip) {
      var rest := t.sentA[|t.gotB|..];
      SendStep(cfg, t.a, k + |t.sentA|, t.a.send.master, ip);
      CarriesData(cfg.crypto, t.a.flags.mppeEnabled, t.a.send.master, k + |t.gotB|, t.toB, rest, ip);
      assert (t.sentA + [ip])[|t.gotB|..] == rest + [ip];
    } else {
      RefuseStep(cfg, t.a, ip);
      assert t.toB + [] == t.toB;
    }
  }

  lemma ReceiveTalks(cfg: Config, t: Talk, env: Env, k: nat, l: nat)
    requires Talking(cfg.crypto, t, k, l)
    ensures Talking(cfg.crypto, PlayA(cfg, t, Receive(env)), k, l)
  {
    hide Step, DataFrame, InStep, ControlFrame;
    if t.toA != [] {
      var n, master := l + |t.gotA|, t.b.send.master;
      var rest := t.sentB[|t.gotA|..];
      var o := Step(cfg, t.a, Peer(t.toA[0], env));
      if ControlFrame(t.toA[0]) {
        ControlStep(cfg, t.a, t.toA[0], env);
        CarriesControl(cfg.crypto, t.a.flags.mppeEnabled, t.a.send.master, k + |t.gotB|, t.toB, t.sentA[|t.gotB|..], o.frames);
        assert t.gotA + [] == t.gotA;
      } else {
        ReceiveStep(cfg, t.a, n, master, rest[0], env);
        assert t.toB + [] == t.toB;
        assert t.sentB[|t.gotA| + 1..] == rest[1..];
      }
    }
  }

  lemma InjectTalks(cfg: Config, t: Talk, frame: seq<byte>, k: nat, l: nat)
    requires Talking(cfg.crypto, t, k, l) && ControlFrame(frame)
    ensures Talking(cfg.crypto, PlayA(cfg, t, Inject(frame)), k, l)
  {
    hide Carries, InStep, Safe, ControlFrame;
    CarriesControl(cfg.crypto, t.a.flags.mppeEnabled, t.a.send.master, k + |t.gotB|, t.toB, t.sentA[|t.gotB|..], [frame]);
  }

  lemma PlayTalks(cfg: Config, t: Talk, m: Move, k: nat, l: nat)
    requires Talking(cfg.crypto, t, k, l) && Fair(m)
    ensures Talking(cfg.crypto, PlayA(cfg, t, m), k, l)
  {
    match m
    case Send(ip) => SendTalks(cfg, t, ip, k, l);
    case Receive(env) => ReceiveTalks(cfg, t, env, k, l);
    case Inject(frame) => InjectTalks(cfg, t, frame, k, l);
  }

  /** A turn of the conversation: at which end, and what happens there. */
  datatype Turn = Turn(atA: bool, move: Move)

  datatype Ends = Ends(a: Config, b: Config)

  /** The conversation `turns` leads to; it stops at a state that is not safe, which none is. */
  function Converse(ends: Ends, t: Talk, turns: seq<Turn>): Talk
    decreases turns
  {
    if turns == [] || !(Safe(t.a) && Safe(t.b)) then t
    else
      var m := turns[0].move;
      Converse(ends, if turns[0].atA then PlayA(ends.a, t, m) else Flip(PlayA(ends.b, Flip(t), m)), turns[1..])
  }

  /** Over every conversation, however sends, receptions and configuration packets interleave at the two
      ends: each end has got the first packets that the other sent, in order, and the line carries exactly
      the others; if nothing is on the line, each has got everything. */
  lemma {:induction false} ConversationKeeps(ends: Ends, t: Talk, turns: seq<Turn>, k: nat, l: nat)
    requires ends.a.crypto == ends.b.crypto && Talking(ends.a.crypto, t, k, l)
    requires forall turn :: turn in turns ==> Fair(turn.move)
    ensures var u := Converse(ends, t, turns);
      && Talking(ends.a.crypto, u, k, l)
      && u.gotA <= u.sentB && u.gotB <= u.sentA
      && (u.toB == [] ==> u.gotB == u.sentA) && (u.toA == [] ==> u.gotA == u.sentB)
    decreases turns
  {
    hide PlayA, Carries, Fair, At;
    if turns != [] {
      assert turns[0] in turns;
      var m := turns[0].move;
      if turns[0].atA {
        PlayTalks(ends.a, t, m, k, l);
        ConversationKeeps(ends, PlayA(ends.a, t, m), turns[1..], k, l);
      } else {
        FlipTalks(ends.a.crypto, t, k, l);
        PlayTalks(ends.b, Flip(t), m, l, k);
        var next := PlayA(ends.b, Flip(t), m);
        FlipTalks(ends.a.crypto, next, l, k);
        ConversationKeeps(ends, Flip(next), turns[1..], k, l);
      }
    } else {
      LineEmpty(ends.a.crypto, t, k, l);
    }
  }

  lemma FlipTalks(c: Crypto, t: Talk, k: nat, l: nat)
    requires Talking(c, t, k, l)
    ensures Talking(c, Flip(t), l, k)
  {
    hide Flows, Safe;
  }

  lemma LineEmpty(c: Crypto, t: Talk, k: nat, l: nat)
    requires Talking(c, t, k, l)
    ensures (t.toB == [] ==> t.gotB == t.sentA) && (t.toA == [] ==> t.gotA == t.sentB)
  {
    hide At;
  }

  /** A conversation may start between two engines whose masters mirror each other, once both have
      initialised MPPE, or when neither has it on. */
  lemma ConversationStarts(c: Crypto, a: Ctl, b: Ctl)
    requires Safe(a) && Safe(b) && a.flags.ccpDone && b.flags.ccpDone
    requires a.flags.mppeEnabled == b.flags.mppeEnabled
    requires a.flags.mppeEnabled ==>
      a.send.master == b.recv.master && b.send.master == a.recv.master &&
      InStep(c, a.send, 0) && InStep(c, a.recv, 0) && InStep(c, b.send, 0) && InStep(c, b.recv, 0)
    ensures Talking(c, Talk(a, b, [], [], [], [], [], []), 0, 0)
  {
  }
}
