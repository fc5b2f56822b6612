/** Whole runs of the PPP engine: what every sequence of peer packets and local IP packets keeps, when
    the link can come up without authentication, and why IPCP converges. */
module Negotiation {
  import opened Bytes
  import opened Mppe
  import opened PppOptions
  import opened Engine

  datatype Input = Peer(frame: seq<byte>, env: Env) | Local(ip: seq<byte>)

  predicate Safe(s: Ctl) {
    s.send.ccount < COUNTS && s.recv.ccount < COUNTS && (s.flags.mppeEnabled ==> s.flags.mppeKeysSet)
  }

  function Step(cfg: Config, s: Ctl, i: Input): Out
    requires s.send.ccount < COUNTS && s.recv.ccount < COUNTS
  {
    match i
    case Peer(frame, env) => Dispatch(cfg, s, frame, env)
    case Local(ip) => SendIp(cfg.crypto, s, ip)
  }

  // ----- what one step keeps -----

  // The flags that are only ever raised.
  ghost predicate Raised(s: Ctl, t: Ctl) {
    (s.flags.lcpOpened ==> t.flags.lcpOpened) && (s.flags.authDone ==> t.flags.authDone) &&
    (s.flags.ipConfigured ==> t.flags.ipConfigured) &&
    (s.flags.ccpDone ==> t.flags.ccpDone) && (s.flags.mppeKeysSet ==> t.flags.mppeKeysSet) &&
    (s.flags.upNotified ==> t.flags.upNotified)
  }

  function Ups(events: seq<Event>): nat {
    if events == [] then 0 else Ups(events[..|events| - 1]) + if events[|events| - 1].PppUp? then 1 else 0
  }

  // The state in which SSTP_PPP_UP may be notified.
  ghost predicate LinkReady(s: Ctl) {
    s.flags.ccpDone && s.flags.ipConfigured && s.addrs.local != 0
  }

  ghost predicate Keeps(s: Ctl, o: Out) {
    (Safe(s) ==> Safe(o.s)) && Raised(s, o.s) &&
    Ups(o.events) == (if o.s.flags.upNotified && !s.flags.upNotified then 1 else 0) &&
    (forall e :: e in o.events && e.PppUp? ==> LinkReady(e.seen) && Raised(s, e.seen) && Raised(e.seen, o.s))
  }

  lemma {:induction false} UpsAppend(a: seq<Event>, b: seq<Event>)
    ensures Ups(a + b) == Ups(a) + Ups(b)
    decreases b
  {
    if b == [] {
      assert a + b == a;
    } else {
      var n := |b| - 1;
      assert (a + b)[..|a| + n] == a + b[..n];
      UpsAppend(a, b[..n]);
    }
  }

  lemma KeepsThen(s: Ctl, o: Out, next: Ctl -> Out)
    requires Keeps(s, o) && Keeps(o.s, next(o.s))
    ensures Keeps(s, Then(o, next))
  {
    hide Keeps;
    KeepsJoin(s, o, next(o.s));
  }

  lemma KeepsJoin(s: Ctl, o: Out, p: Out)
    requires Keeps(s, o) && Keeps(o.s, p)
    ensures Keeps(s, Join(o, p))
  {
    hide Ups, Safe, LinkReady;
    UpsAppend(o.events, p.events);
    var both := o.events + p.events;
    forall e | e in both && e.PppUp?
      ensures LinkReady(e.seen) && Raised(s, e.seen) && Raised(e.seen, p.s)
    {
      if e in o.events {
      } else {
        assert e in p.events;
      }
    }
  }

  lemma KeepsFrom(s: Ctl, t: Ctl, o: Out)
    requires Keeps(t, o) && (Safe(s) ==> Safe(t)) && Raised(s, t) && s.flags.upNotified == t.flags.upNotified
    ensures Keeps(s, o)
  {
  }

  lemma MaybeNotifyUpKeeps(s: Ctl)
    ensures Keeps(s, MaybeNotifyUp(s))
  {
    if MaybeNotifyUp(s).events != [] {
      assert MaybeNotifyUp(s).events[..0] == [];
    }
  }

  lemma CcpFinishedKeeps(s: Ctl)
    ensures Keeps(s, CcpFinished(s))
  {
    hide MaybeNotifyUp;
    if s.flags.ccpDone {
      MaybeNotifyUpKeeps(s);
    } else {
      var t := s.(flags := s.flags.(ccpDone := true));
      var o := if t.flags.authDone then IpcpRequest(t) else Quiet(t);
      MaybeNotifyUpKeeps(o.s);
      assert Keeps(s, o);
      KeepsThen(s, o, MaybeNotifyUp);
    }
  }

  // Steps that cannot bring the link up.
  lemma PlainKeeps(s: Ctl, o: Out)
    requires (Safe(s) ==> Safe(o.s)) && Raised(s, o.s) && o.s.flags.upNotified == s.flags.upNotified
    requires o.events == [] || (|o.events| == 1 && !o.events[0].PppUp?)
    ensures Keeps(s, o)
  {
    if |o.events| == 1 {
      assert o.events[..0] == [];
    }
  }

  lemma LcpKeeps(s: Ctl, buf: seq<byte>)
    ensures Keeps(s, HandleLcp(s, buf))
  {
    hide Reply, EchoReply, Configure, Frame, OptBytes, PutBe16, PutBe32, PacketLength, Keeps;
    PlainKeeps(s, HandleLcp(s, buf));
  }

  lemma SetKeysKeeps(s: Ctl, keys: Keys)
    ensures var t := SetKeys(s, keys);
      (Safe(s) ==> Safe(t)) && Raised(s, t) && t.flags.upNotified == s.flags.upNotified
  {
  }

  lemma AnswerKeeps(cfg: Config, s: Ctl, env: Env)
    ensures var o := AnswerChallenge(cfg, s, env);
      && (Safe(s) ==> Safe(o.s)) && Raised(s, o.s) && o.s.flags == s.flags.(mppeKeysSet := o.s.flags.mppeKeysSet)
      && o.events == [PppAuth]
  {
    hide ChapResponse, SetKeys;
    SetKeysKeeps(s, env.derived);
    SetKeysFlags(s, env.derived);
  }

  lemma SetKeysFlags(s: Ctl, keys: Keys)
    ensures var t := SetKeys(s, keys).flags; t == s.flags.(mppeKeysSet := t.mppeKeysSet)
  {
  }

  lemma CcpRequestKeeps(s: Ctl)
    ensures var o := CcpRequest(s);
      (Safe(s) ==> Safe(o.s)) && o.s.flags == s.flags && o.events == []
  {
    hide OptBytes, Configure, Frame;
  }

  lemma ChapKeeps(cfg: Config, s: Ctl, buf: seq<byte>, env: Env)
    ensures Keeps(s, HandleChap(cfg, s, buf, env))
  {
    hide AnswerChallenge, CcpRequest, Keeps;
    if |buf| >= 5 {
      AnswerKeeps(cfg, s.(ids := s.ids.(chap := buf[1])), env);
      CcpRequestKeeps(s.(flags := s.flags.(authDone := true)));
    }
    PlainKeeps(s, HandleChap(cfg, s, buf, env));
  }

  lemma IpcpEntryKeeps(s: Ctl)
    ensures Keeps(s, IpcpEntry(s))
  {
    hide CcpFinished;
    var t := s.(flags := s.flags.(mppeEnabled := false));
    CcpFinishedKeeps(t);
  }

  lemma IpcpBodyKeeps(s: Ctl, buf: seq<byte>)
    requires |buf| >= 4
    ensures Keeps(s, IpcpBody(s, buf))
  {
    hide MaybeNotifyUp, Walk, Last, Reply, Configure, Frame, OptBytes, PutBe16, PutBe32, Keeps;
    var t := WithAddresses(s, Walk(buf[..PacketLength(buf)], 4));
    var o := IpcpBody(s, buf);
    if buf[0] == FSM_CONFACK && t.addrs.local != 0 {
      var u := t.(flags := t.flags.(ipConfigured := true));
      MaybeNotifyUpKeeps(u);
      KeepsFrom(s, u, MaybeNotifyUp(u));
    } else {
      PlainKeeps(s, o);
    }
  }

  lemma IpcpKeeps(s: Ctl, buf: seq<byte>)
    ensures Keeps(s, HandleIpcp(s, buf))
  {
    hide MaybeNotifyUp, CcpFinished, IpcpEntry, IpcpBody, Then;
    if |buf| >= 4 {
      var o := IpcpEntry(s);
      IpcpEntryKeeps(s);
      IpcpBodyKeeps(o.s, buf);
      KeepsThen(s, o, (t: Ctl) => IpcpBody(t, buf));
    }
  }

  lemma CcpAcceptedKeeps(c: Crypto, s: Ctl)
    ensures Keeps(s, CcpFinished(MppeInitKeys(c, s)))
  {
    hide CcpFinished, NextSession, Keeps;
    var t := MppeInitKeys(c, s);
    CcpFinishedKeeps(t);
    KeepsFrom(s, t, CcpFinished(t));
  }

  lemma CcpRefusedKeeps(s: Ctl)
    ensures Keeps(s, CcpFinished(s.(flags := s.flags.(mppeEnabled := false))))
  {
    hide CcpFinished, Keeps;
    var t := s.(flags := s.flags.(mppeEnabled := false));
    CcpFinishedKeeps(t);
    KeepsFrom(s, t, CcpFinished(t));
  }

  lemma CcpKeeps(c: Crypto, s: Ctl, buf: seq<byte>)
    ensures Keeps(s, HandleCcp(c, s, buf))
  {
    hide CcpFinished, MppeInitKeys, Reply, PacketLength, Frame, Keeps, Raised, Safe;
    RaisedSame(s);
    PlainKeeps(s, Quiet(s));
    CcpAcceptedKeeps(c, s);
    CcpRefusedKeeps(s);
    if |buf| >= 4 && buf[0] == FSM_CONFREQ && PacketLength(buf) <= 64 {
      var o := Sent(s, PPP_PROTO_CCP, Reply(FSM_CONFACK, buf, PacketLength(buf)));
      PlainKeeps(s, o);
      KeepsThen(s, o, (v: Ctl) => CcpFinished(MppeInitKeys(c, v)));
    }
  }

  lemma RaisedSame(s: Ctl)
    ensures Raised(s, s)
  {
  }

  lemma MppeKeeps(c: Crypto, s: Ctl, buf: seq<byte>)
    requires s.recv.ccount < COUNTS
    ensures Keeps(s, HandleMppe(c, s, buf))
  {
    hide Rc4Apply, CatchUp, SplitProtocol, Keeps;
    PlainKeeps(s, HandleMppe(c, s, buf));
  }

  /** One step, whatever the peer sends: the counters stay 12 bits wide, MPPE is on only with keys, the
      flags never fall back, and SSTP_PPP_UP is notified exactly when the flag for it is raised, in a
      state with CCP done, IP configured and an address. */
  lemma StepKeeps(cfg: Config, s: Ctl, i: Input)
    requires s.send.ccount < COUNTS && s.recv.ccount < COUNTS
    ensures Keeps(s, Step(cfg, s, i))
  {
    hide HandleLcp, HandleChap, HandleIpcp, HandleCcp, HandleMppe, Keeps;
    match i
    case Peer(frame, env) =>
      if Unframe(frame) == [] {
        assert Keeps(s, Quiet(s)) by { KeepsQuiet(s, s); }
      } else {
        var (proto, p) := Unframe(frame)[0];
        LcpKeeps(s, p);
        ChapKeeps(cfg, s, p, env);
        IpcpKeeps(s, p);
        CcpKeeps(cfg.crypto, s, p);
        MppeKeeps(cfg.crypto, s, p);
        KeepsQuiet(s, s);
        KeepsIps(s, s.recvBytes + |p|, [p]);
      }
    case Local(ip) =>
      LocalKeeps(cfg.crypto, s, ip);
  }

  lemma KeepsQuiet(s: Ctl, t: Ctl)
    requires s == t
    ensures Keeps(s, Quiet(t))
  {
  }

  lemma KeepsIps(s: Ctl, n: nat, ips: seq<seq<byte>>)
    ensures Keeps(s, Out(s.(recvBytes := n), [], [], ips))
  {
  }

  lemma LocalKeeps(c: Crypto, s: Ctl, ip: seq<byte>)
    requires s.send.ccount < COUNTS
    ensures Keeps(s, SendIp(c, s, ip))
  {
    hide Rc4Apply, NextSession, Frame, PutBe16, Keeps;
    PlainKeeps(s, SendIp(c, s, ip));
  }

  // ----- runs -----

  function Run(cfg: Config, s: Ctl, inputs: seq<Input>): Out
    requires Safe(s)
    decreases inputs
  {
    if inputs == [] then Quiet(s)
    else
      StepKeeps(cfg, s, inputs[0]);
      var o := Step(cfg, s, inputs[0]);
      Join(o, Run(cfg, o.s, inputs[1..]))
  }

  lemma {:induction false} RunKeeps(cfg: Config, s: Ctl, inputs: seq<Input>)
    requires Safe(s)
    ensures Keeps(s, Run(cfg, s, inputs)) && Safe(Run(cfg, s, inputs).s)
    decreases inputs
  {
    hide Step;
    if inputs == [] {
      KeepsQuiet(s, s);
    } else {
      StepKeeps(cfg, s, inputs[0]);
      var o := Step(cfg, s, inputs[0]);
      RunKeeps(cfg, o.s, inputs[1..]);
      KeepsJoin(s, o, Run(cfg, o.s, inputs[1..]));
    }
  }

  /** Safety over every run from the start: SSTP_PPP_UP is notified at most once, and whoever receives it
      finds CCP done, IP configured and an address; the counters stay below 4096 and MPPE is on only with
      keys. */
  lemma NegotiationSafety(cfg: Config, magic: uint32, inputs: seq<Input>)
    ensures Safe(Created(magic))
    ensures var r := Run(cfg, Created(magic), inputs);
      && Safe(r.s)
      && Ups(r.events) == (if r.s.flags.upNotified then 1 else 0)
      && (forall e :: e in r.events && e.PppUp? ==> LinkReady(e.seen))
  {
    hide Step, Run;
    RunKeeps(cfg, Created(magic), inputs);
  }

  lemma JoinAssociative(o: Out, p: Out, q: Out)
    ensures Join(Join(o, p), q) == Join(o, Join(p, q)) && Join(Quiet(q.s), q) == q && Join(o, Quiet(o.s)) == o
  {
  }

  lemma RunStep(cfg: Config, s: Ctl, inputs: seq<Input>)
    requires Safe(s)
    ensures inputs == [] ==> Run(cfg, s, inputs) == Quiet(s)
    ensures inputs != [] ==>
      (Safe(Step(cfg, s, inputs[0]).s) &&
       Run(cfg, s, inputs) == Join(Step(cfg, s, inputs[0]), Run(cfg, Step(cfg, s, inputs[0]).s, inputs[1..])))
  {
    hide Step;
    if inputs != [] {
      StepKeeps(cfg, s, inputs[0]);
    }
  }

  lemma {:induction false} RunAppend(cfg: Config, s: Ctl, a: seq<Input>, b: seq<Input>)
    requires Safe(s)
    ensures Safe(Run(cfg, s, a).s)
    ensures Run(cfg, s, a + b) == Join(Run(cfg, s, a), Run(cfg, Run(cfg, s, a).s, b))
    decreases a
  {
    hide Step, Run, Join;
    RunKeeps(cfg, s, a);
    RunStep(cfg, s, a);
    RunStep(cfg, s, a + b);
    if a == [] {
      assert a + b == b;
      JoinAssociative(Quiet(s), Quiet(s), Run(cfg, s, b));
      RunHead(cfg, s, b);
    } else {
      var o := Step(cfg, s, a[0]);
      assert (a + b)[1..] == a[1..] + b && (a + b)[0] == a[0];
      RunAppend(cfg, o.s, a[1..], b);
      var p := Run(cfg, o.s, a[1..]);
      JoinState(o, p);
      JoinAssociative(o, p, Run(cfg, p.s, b));
    }
  }

  lemma JoinState(o: Out, p: Out)
    ensures Join(o, p).s == p.s
  {
  }

  // The state a run starts in does not show in what it puts out.
  lemma RunHead(cfg: Config, s: Ctl, b: seq<Input>)
    requires Safe(s)
    ensures Join(Quiet(s), Run(cfg, s, b)) == Run(cfg, s, b)
  {
    hide Run;
  }

  lemma RunSnoc(cfg: Config, s: Ctl, inputs: seq<Input>, i: Input)
    requires Safe(s)
    ensures Safe(Run(cfg, s, inputs).s)
    ensures Run(cfg, s, inputs + [i]) == Join(Run(cfg, s, inputs), Step(cfg, Run(cfg, s, inputs).s, i))
  {
    hide Step, Run, Join;
    RunAppend(cfg, s, inputs, [i]);
    var t := Run(cfg, s, inputs).s;
    RunStep(cfg, t, [i]);
    var o := Step(cfg, t, i);
    assert [i][1..] == [];
    RunStep(cfg, o.s, []);
    JoinAssociative(o, o, o);
  }

  // ----- authentication -----

  // The peer reports CHAP success.
  predicate Success(i: Input) {
    i.Peer? && Unframe(i.frame) != [] &&
    var (proto, p) := Unframe(i.frame)[0];
    proto == PPP_PROTO_CHAP && |p| >= 5 && p[0] == CHAP_SUCCESS
  }

  // A CCP packet that ends CCP negotiation.
  predicate Finishing(i: Input) {
    i.Peer? && Unframe(i.frame) != [] &&
    var (proto, p) := Unframe(i.frame)[0];
    proto == PPP_PROTO_CCP && |p| >= 4 &&
    ((p[0] == FSM_CONFREQ && PacketLength(p) <= 64) || p[0] == FSM_CONFACK || p[0] == FSM_CONFNAK || p[0] == FSM_CONFREJ)
  }

  // Any IPCP packet.
  predicate Ipcp(i: Input) {
    i.Peer? && Unframe(i.frame) != [] &&
    var (proto, p) := Unframe(i.frame)[0];
    proto == PPP_PROTO_IPCP && |p| >= 4
  }

  lemma CcpFinishedFlags(s: Ctl)
    ensures var o := CcpFinished(s); o.s.flags.authDone == s.flags.authDone && o.s.flags.ccpDone
  {
    hide OptBytes, Frame, Configure;
  }

  lemma IpcpBodyFlags(s: Ctl, buf: seq<byte>)
    requires |buf| >= 4
    ensures var t := IpcpBody(s, buf).s.flags; t.authDone == s.flags.authDone && t.ccpDone == s.flags.ccpDone
  {
    hide Walk, Last, Frame, IpcpPayload, Reply, PacketLength;
  }

  lemma IpcpFlags(s: Ctl, buf: seq<byte>)
    ensures var t := HandleIpcp(s, buf).s.flags;
      t.authDone == s.flags.authDone && t.ccpDone == (s.flags.ccpDone || (s.flags.authDone && |buf| >= 4))
  {
    hide CcpFinished, IpcpBody;
    CcpFinishedFlags(s.(flags := s.flags.(mppeEnabled := false)));
    if |buf| >= 4 {
      IpcpBodyFlags(IpcpEntry(s).s, buf);
    }
  }

  lemma CcpFlags(c: Crypto, s: Ctl, buf: seq<byte>)
    ensures var t := HandleCcp(c, s, buf).s.flags;
      t.authDone == s.flags.authDone &&
      t.ccpDone == (s.flags.ccpDone || (|buf| >= 4 &&
        ((buf[0] == FSM_CONFREQ && PacketLength(buf) <= 64) || buf[0] == FSM_CONFACK ||
         buf[0] == FSM_CONFNAK || buf[0] == FSM_CONFREJ)))
  {
    hide CcpFinished, Frame, Reply, NextSession, PacketLength;
    CcpFinishedFlags(MppeInitKeys(c, s));
    CcpFinishedFlags(s.(flags := s.flags.(mppeEnabled := false)));
  }

  lemma LcpFlags(s: Ctl, buf: seq<byte>)
    ensures var t := HandleLcp(s, buf).s.flags;
      t.authDone == s.flags.authDone && t.ccpDone == s.flags.ccpDone
  {
    hide Frame, Reply, EchoReply, PacketLength, OptBytes;
  }

  lemma ChapFlags(cfg: Config, s: Ctl, buf: seq<byte>, env: Env)
    ensures var t := HandleChap(cfg, s, buf, env).s.flags;
      t.authDone == (s.flags.authDone || (|buf| >= 5 && buf[0] == CHAP_SUCCESS)) && t.ccpDone == s.flags.ccpDone
  {
    hide AnswerChallenge, CcpRequest;
    if |buf| >= 5 {
      AnswerKeeps(cfg, s.(ids := s.ids.(chap := buf[1])), env);
      CcpRequestKeeps(s.(flags := s.flags.(authDone := true)));
    }
  }

  lemma MppeFlags(c: Crypto, s: Ctl, buf: seq<byte>)
    requires s.recv.ccount < COUNTS
    ensures HandleMppe(c, s, buf).s.flags == s.flags
  {
    hide Rc4Apply, CatchUp;
  }

  lemma LocalFlags(c: Crypto, s: Ctl, ip: seq<byte>)
    requires s.send.ccount < COUNTS
    ensures SendIp(c, s, ip).s.flags == s.flags
  {
    hide Rc4Apply, NextSession, Frame, PutBe16;
  }

  /** Exactly which inputs raise the two flags: authentication is done by a CHAP success, CCP by a
      finishing CCP packet or, after authentication, by any IPCP packet. */
  lemma StepFlags(cfg: Config, s: Ctl, i: Input)
    requires Safe(s)
    ensures var t := Step(cfg, s, i).s.flags;
      && t.authDone == (s.flags.authDone || Success(i))
      && t.ccpDone == (s.flags.ccpDone || Finishing(i) || (s.flags.authDone && Ipcp(i)))
  {
    hide HandleLcp, HandleChap, HandleIpcp, HandleCcp, HandleMppe, SendIp, PacketLength;
    match i
    case Peer(frame, env) =>
      if Unframe(frame) != [] {
        var (proto, p) := Unframe(frame)[0];
        LcpFlags(s, p);
        ChapFlags(cfg, s, p, env);
        IpcpFlags(s, p);
        CcpFlags(cfg.crypto, s, p);
        MppeFlags(cfg.crypto, s, p);
      }
    case Local(ip) =>
      LocalFlags(cfg.crypto, s, ip);
  }

  // Up to the first CHAP success, no CCP packet ends CCP negotiation.
  ghost predicate NoEarlyCcp(inputs: seq<Input>) {
    inputs == [] || Success(inputs[0]) || (!Finishing(inputs[0]) && NoEarlyCcp(inputs[1..]))
  }

  ghost predicate OnlyAuthenticated(events: seq<Event>) {
    forall e :: e in events && e.PppUp? ==> e.seen.flags.authDone
  }

  lemma StepAuthenticated(cfg: Config, s: Ctl, i: Input)
    requires Safe(s) && (s.flags.ccpDone ==> s.flags.authDone) && (s.flags.authDone || Success(i) || !Finishing(i))
    ensures var o := Step(cfg, s, i);
      Safe(o.s) && OnlyAuthenticated(o.events) && (o.s.flags.ccpDone ==> o.s.flags.authDone)
  {
    hide Step, Unframe, Ups;
    StepKeeps(cfg, s, i);
    StepFlags(cfg, s, i);
  }

  lemma {:induction false} RunAuthenticated(cfg: Config, s: Ctl, inputs: seq<Input>)
    requires Safe(s) && (s.flags.ccpDone ==> s.flags.authDone) && (s.flags.authDone || NoEarlyCcp(inputs))
    ensures OnlyAuthenticated(Run(cfg, s, inputs).events)
    decreases inputs
  {
    hide Step, Run, Finishing, Success;
    RunStep(cfg, s, inputs);
    if inputs != [] {
      var o := Step(cfg, s, inputs[0]);
      StepAuthenticated(cfg, s, inputs[0]);
      StepFlags(cfg, s, inputs[0]);
      RunAuthenticated(cfg, o.s, inputs[1..]);
    }
  }

  /** In every run in which no CCP packet ends CCP negotiation before CHAP success, SSTP_PPP_UP is only
      ever notified to an authenticated link. */
  lemma AuthenticatedUp(cfg: Config, magic: uint32, inputs: seq<Input>)
    requires NoEarlyCcp(inputs)
    ensures Safe(Created(magic)) && OnlyAuthenticated(Run(cfg, Created(magic), inputs).events)
  {
    hide Run;
    RunAuthenticated(cfg, Created(magic), inputs);
  }

  lemma {:induction false} RunWithoutSuccess(cfg: Config, s: Ctl, inputs: seq<Input>)
    requires Safe(s) && !s.flags.authDone && forall i :: i in inputs ==> !Success(i)
    ensures var t := Run(cfg, s, inputs).s;
      Safe(t) && !t.flags.authDone && (t.flags.ccpDone <==> s.flags.ccpDone || exists i :: i in inputs && Finishing(i))
    decreases inputs
  {
    hide Step, Run, Finishing, Success;
    RunStep(cfg, s, inputs);
    RunKeeps(cfg, s, inputs);
    if inputs != [] {
      var o := Step(cfg, s, inputs[0]);
      StepFlags(cfg, s, inputs[0]);
      assert inputs[0] in inputs;
      RunWithoutSuccess(cfg, o.s, inputs[1..]);
      assert forall i :: i in inputs ==> i == inputs[0] || i in inputs[1..];
    }
  }

  // ----- reading IPCP packets -----

  lemma UnframeFrame(proto: uint16, payload: seq<byte>)
    requires proto / 0x100 % 2 == 0
    ensures Unframe(Frame(proto, payload)) == [(proto, payload)]
  {
    var f := Frame(proto, payload);
    assert f[2..] == PutBe16(proto) + payload;
    assert f[2..][2..] == payload;
  }

  lemma ConfigureLength(code: byte, id: byte, opts: seq<byte>)
    requires |opts| <= 64
    ensures var p := Configure(code, id, opts);
      |p| == 4 + |opts| == PacketLength(p) && p[..|p|] == p && p[4..] == opts && p[0] == code
  {
    var p := Configure(code, id, opts);
    assert p[2..][0] == p[2] && p[2..][1] == p[3];
  }

  lemma OptsBytesOfThree(o: Opt, p: Opt, q: Opt)
    requires |o.value| <= 253 && |p.value| <= 253 && |q.value| <= 253
    ensures OptsBytes([o, p, q]) == OptBytes(o) + OptBytes(p) + OptBytes(q)
  {
    assert [o, p, q][1..] == [p, q] && [p, q][1..] == [q] && [q][1..] == [];
    assert OptsBytes([q]) == OptBytes(q);
    assert OptsBytes([p, q]) == OptBytes(p) + OptBytes(q);
  }

  lemma IpcpPayloadOptions(code: byte, id: byte, a: Addrs)
    ensures var p := IpcpPayload(code, id, a);
      |p| == 22 == PacketLength(p) && p[0] == code && Walk(p[..PacketLength(p)], 4) == IpcpOptions(a)
  {
    hide PutBe32, OptBytes, OptsBytes, Walk, Configure;
    Be32RoundTrip(a.local);
    Be32RoundTrip(a.dns1);
    Be32RoundTrip(a.dns2);
    var opts := IpcpOptions(a);
    OptBytesSize(opts[0]);
    OptBytesSize(opts[1]);
    OptBytesSize(opts[2]);
    OptsBytesOfThree(opts[0], opts[1], opts[2]);
    assert opts == [opts[0], opts[1], opts[2]];
    ConfigureLength(code, id, OptsBytes(opts));
    WalkWritten(IpcpPayload(code, id, a), 4, opts);
  }

  lemma OptBytesSize(o: Opt)
    requires |o.value| <= 253
    ensures |OptBytes(o)| == 2 + |o.value|
  {
  }

  // ----- IPCP against a server -----

  function NoEnv(): Env {
    Env(seq(16, _ => 0), seq(24, _ => 0), NoKeys)
  }

  function IpcpInput(code: byte, id: byte, opts: seq<byte>): Input
    requires |opts| <= 64
  {
    Peer(Frame(PPP_PROTO_IPCP, Configure(code, id, opts)), NoEnv())
  }

  // The addresses the two sides have to agree on.
  ghost predicate Agree(a: Addrs, b: Addrs) {
    a.local == b.local && a.dns1 == b.dns1 && a.dns2 == b.dns2
  }

  lemma LastOfThree(a: Addrs, d: uint32)
    ensures Last(IpcpOptions(a), CI_ADDR, d) == a.local
    ensures Last(IpcpOptions(a), CI_MS_DNS1, d) == a.dns1
    ensures Last(IpcpOptions(a), CI_MS_DNS2, d) == a.dns2
  {
    hide PutBe32, GetBe32, Last;
    var opts := IpcpOptions(a);
    var x, y, z := opts[0], opts[1], opts[2];
    assert opts == [] + [x] + [y, z] && opts == [x] + [y] + [z] && opts == [x, y] + [z] + [];
    LastWins([], CI_ADDR, a.local, [y, z], d);
    LastWins([x], CI_MS_DNS1, a.dns1, [z], d);
    LastWins([x, y], CI_MS_DNS2, a.dns2, [], d);
  }

  lemma DispatchIpcp(cfg: Config, s: Ctl, payload: seq<byte>, env: Env)
    requires Safe(s) && |payload| >= 4 && s.flags.ccpDone
    ensures Step(cfg, s, Peer(Frame(PPP_PROTO_IPCP, payload), env)) == IpcpBody(s, payload)
  {
    hide Unframe, Frame, IpcpBody, HandleLcp, HandleChap, HandleCcp, HandleMppe;
    UnframeFrame(PPP_PROTO_IPCP, payload);
    var o := IpcpBody(s, payload);
    assert [] + o.frames == o.frames && [] + o.events == o.events && [] + o.ips == o.ips;
  }

  /** Processing an acknowledgement that echoes our own request changes no address; it configures IP, and
      brings the link up if that has not happened yet. */
  lemma AckEchoes(cfg: Config, s: Ctl, id: byte)
    requires Safe(s) && s.flags.ccpDone && s.addrs.local != 0
    ensures var t := s.(flags := s.flags.(ipConfigured := true, upNotified := true));
      Step(cfg, s, Peer(Frame(PPP_PROTO_IPCP, IpcpPayload(FSM_CONFACK, id, s.addrs)), NoEnv())) ==
        Out(t, [], if s.flags.upNotified then [] else [PppUp(t)], [])
  {
    hide Frame, IpcpPayload, IpcpOptions, Last, Walk, Step;
    var p := IpcpPayload(FSM_CONFACK, id, s.addrs);
    IpcpPayloadOptions(FSM_CONFACK, id, s.addrs);
    DispatchIpcp(cfg, s, p, NoEnv());
    LastOfThree(s.addrs, s.addrs.local);
    LastOfThree(s.addrs, s.addrs.dns1);
    LastOfThree(s.addrs, s.addrs.dns2);
    assert s.addrs == Addrs(s.addrs.local, s.addrs.peer, s.addrs.dns1, s.addrs.dns2);
  }

  // The options the server may correct: those we asked for wrongly, with the values it wants.
  ghost predicate Correction(o: Opt, ours: Addrs, target: Addrs) {
    (o == Opt(CI_ADDR, PutBe32(target.local)) && ours.local != target.local) ||
    (o == Opt(CI_MS_DNS1, PutBe32(target.dns1)) && ours.dns1 != target.dns1) ||
    (o == Opt(CI_MS_DNS2, PutBe32(target.dns2)) && ours.dns2 != target.dns2)
  }

  // A refusal: one correction or more, in any order, possibly repeated.
  ghost predicate Refusal(opts: seq<Opt>, ours: Addrs, target: Addrs) {
    opts != [] && |opts| <= 10 && forall o :: o in opts ==> Correction(o, ours, target)
  }

  function Mismatches(a: Addrs, t: Addrs): nat {
    (if a.local == t.local then 0 else 1) + (if a.dns1 == t.dns1 then 0 else 1) + (if a.dns2 == t.dns2 then 0 else 1)
  }

  lemma {:induction false} LastOfAll(opts: seq<Opt>, kind: byte, v: uint32, d: uint32)
    requires forall o :: o in opts && o.kind == kind ==> o.value == PutBe32(v)
    ensures Last(opts, kind, d) == if exists o :: o in opts && o.kind == kind then v else d
    decreases opts
  {
    hide PutBe32, GetBe32;
    if opts != [] {
      var o := opts[0];
      assert o in opts;
      Be32RoundTrip(v);
      var e := if o.kind == kind && |o.value| == 4 then GetBe32(o.value) else d;
      LastOfAll(opts[1..], kind, v, e);
      assert forall p :: p in opts ==> p == o || p in opts[1..];
    }
  }

  lemma {:induction false} OptsBytesSize(opts: seq<Opt>)
    requires forall o :: o in opts ==> |o.value| == 4
    ensures |OptsBytes(opts)| == 6 * |opts|
    decreases opts
  {
    if opts != [] {
      assert opts[0] in opts;
      OptsBytesSize(opts[1..]);
    }
  }

  lemma RefusalBytes(opts: seq<Opt>, ours: Addrs, target: Addrs)
    requires Refusal(opts, ours, target)
    ensures (forall o :: o in opts ==> |o.value| == 4) && |OptsBytes(opts)| <= 60
  {
    hide PutBe32;
    Be32RoundTrip(target.local);
    Be32RoundTrip(target.dns1);
    Be32RoundTrip(target.dns2);
    OptsBytesSize(opts);
  }

  lemma Corrected(opts: seq<Opt>, ours: Addrs, target: Addrs)
    requires Refusal(opts, ours, target)
    ensures var a := Addrs(Last(opts, CI_ADDR, ours.local), ours.peer,
                           Last(opts, CI_MS_DNS1, ours.dns1), Last(opts, CI_MS_DNS2, ours.dns2));
      Mismatches(a, target) < Mismatches(ours, target)
  {
    hide Last, PutBe32;
    LastOfAll(opts, CI_ADDR, target.local, ours.local);
    LastOfAll(opts, CI_MS_DNS1, target.dns1, ours.dns1);
    LastOfAll(opts, CI_MS_DNS2, target.dns2, ours.dns2);
    assert opts[0] in opts;
  }

  function NakInput(id: byte, opts: seq<Opt>): Input
    requires (forall o :: o in opts ==> |o.value| == 4) && |OptsBytes(opts)| <= 60
  {
    IpcpInput(FSM_CONFNAK, id, OptsBytes(opts))
  }

  /** One round: after a refusal fewer options are wrong, and the new request asks for exactly the
      corrected addresses. */
  lemma NakRound(cfg: Config, s: Ctl, id: byte, opts: seq<Opt>, target: Addrs)
    requires Safe(s) && s.flags.ccpDone && Refusal(opts, s.addrs, target)
    ensures (forall o :: o in opts ==> |o.value| == 4) && |OptsBytes(opts)| <= 60
    ensures var o := Step(cfg, s, NakInput(id, opts));
      && Safe(o.s) && o.s.flags == s.flags && o.events == []
      && Mismatches(o.s.addrs, target) < Mismatches(s.addrs, target)
      && o.frames == [Frame(PPP_PROTO_IPCP, IpcpPayload(FSM_CONFREQ, o.s.ids.ipcp, o.s.addrs))]
  {
    hide Frame, Last, Walk, Step, OptsBytes, Mismatches, Configure, IpcpPayload;
    RefusalBytes(opts, s.addrs, target);
    var p := Configure(FSM_CONFNAK, id, OptsBytes(opts));
    ConfigureLength(FSM_CONFNAK, id, OptsBytes(opts));
    WalkWritten(p, 4, opts);
    DispatchIpcp(cfg, s, p, NoEnv());
    Corrected(opts, s.addrs, target);
    var a := WithAddresses(s, opts).addrs;
    IpcpPayloadOptions(FSM_CONFREQ, Next(s.ids.ipcp), a);
  }

  // A server that refuses every request short of its target, however it picks the corrections.
  ghost predicate Refuses(choose: Ctl -> seq<Opt>, target: Addrs) {
    forall s: Ctl :: !Agree(s.addrs, target) ==> Refusal(choose(s), s.addrs, target)
  }

  /** The packets that server sends, one for each request outstanding, until it acknowledges. */
  ghost function Replies(cfg: Config, s: Ctl, target: Addrs, choose: Ctl -> seq<Opt>): seq<Input>
    requires Safe(s) && s.flags.ccpDone && Refuses(choose, target)
    decreases Mismatches(s.addrs, target)
  {
    if Agree(s.addrs, target) then
      [Peer(Frame(PPP_PROTO_IPCP, IpcpPayload(FSM_CONFACK, s.ids.ipcp, s.addrs)), NoEnv())]
    else
      NakRound(cfg, s, s.ids.ipcp, choose(s), target);
      var i := NakInput(s.ids.ipcp, choose(s));
      [i] + Replies(cfg, Step(cfg, s, i).s, target, choose)
  }

  ghost predicate Settled(o: Out, upBefore: bool, target: Addrs) {
    Agree(o.s.addrs, target) && o.s.flags.ipConfigured && o.s.flags.upNotified &&
    (if upBefore then o.events == []
     else |o.events| == 1 && o.events[0].PppUp? && Agree(o.events[0].seen.addrs, target))
  }

  /** IPCP converges: after at most three refusals the server acknowledges; then the link is up, and it
      was notified with exactly the addresses of the server. */
  lemma {:induction false} IpcpConverges(cfg: Config, s: Ctl, target: Addrs, choose: Ctl -> seq<Opt>)
    requires Safe(s) && s.flags.ccpDone && Refuses(choose, target) && target.local != 0
    ensures 1 <= |Replies(cfg, s, target, choose)| <= 1 + Mismatches(s.addrs, target) <= 4
    ensures Settled(Run(cfg, s, Replies(cfg, s, target, choose)), s.flags.upNotified, target)
    decreases Mismatches(s.addrs, target)
  {
    hide Step, Run, Frame, IpcpPayload, NakInput;
    var inputs := Replies(cfg, s, target, choose);
    RunStep(cfg, s, inputs);
    if Agree(s.addrs, target) {
      AckEchoes(cfg, s, s.ids.ipcp);
      var o := Step(cfg, s, inputs[0]);
      assert inputs[1..] == [];
      RunStep(cfg, o.s, []);
      JoinAssociative(o, o, o);
    } else {
      NakRound(cfg, s, s.ids.ipcp, choose(s), target);
      var o := Step(cfg, s, inputs[0]);
      assert inputs[1..] == Replies(cfg, o.s, target, choose);
      IpcpConverges(cfg, o.s, target, choose);
      assert [] + Run(cfg, o.s, inputs[1..]).events == Run(cfg, o.s, inputs[1..]).events;
    }
  }

  // ----- coming up without authentication -----

  ghost predicate UpUnauthenticated(o: Out) {
    exists e :: e in o.events && e.PppUp? && !e.seen.flags.authDone
  }

  // The link can be brought up, unauthenticated, by one more packet that is not about CCP.
  ghost predicate OneStepFromUp(cfg: Config, s: Ctl)
    requires Safe(s)
  {
    exists i :: !Finishing(i) && UpUnauthenticated(Step(cfg, s, i))
  }

  // An IPCP acknowledgement that assigns an address.
  lemma UpByAddress(cfg: Config, s: Ctl) returns (i: Input)
    requires Safe(s) && s.flags.ccpDone && !s.flags.authDone && !s.flags.upNotified
    ensures !Finishing(i) && UpUnauthenticated(Step(cfg, s, i))
  {
    hide Frame, IpcpPayload, IpcpOptions, Last, Walk, Step, Unframe;
    var a := Addrs(1, 0, 0, 0);
    var p := IpcpPayload(FSM_CONFACK, 0, a);
    i := Peer(Frame(PPP_PROTO_IPCP, p), NoEnv());
    IpcpPayloadOptions(FSM_CONFACK, 0, a);
    UnframeFrame(PPP_PROTO_IPCP, p);
    DispatchIpcp(cfg, s, p, NoEnv());
    LastOfThree(a, s.addrs.local);
    var o := Step(cfg, s, i);
    assert o == IpcpBody(s, p);
    assert |o.events| == 1 && o.events[0] in o.events;
  }

  /** Exactly when an unauthenticated peer can bring the link up: as long as there was no CHAP success,
      it can if and only if it has already sent a CCP packet that ends CCP negotiation. */
  lemma UnauthenticatedUpIff(cfg: Config, magic: uint32, inputs: seq<Input>)
    requires forall i :: i in inputs ==> !Success(i)
    requires Safe(Created(magic)) && !Run(cfg, Created(magic), inputs).s.flags.upNotified
    ensures Safe(Run(cfg, Created(magic), inputs).s)
    ensures OneStepFromUp(cfg, Run(cfg, Created(magic), inputs).s) <==> exists i :: i in inputs && Finishing(i)
  {
    hide Step, Run, Finishing, Success, Frame, IpcpPayload;
    RunWithoutSuccess(cfg, Created(magic), inputs);
    var s := Run(cfg, Created(magic), inputs).s;
    if s.flags.ccpDone {
      var i := UpByAddress(cfg, s);
    } else {
      forall i | !Finishing(i)
        ensures !UpUnauthenticated(Step(cfg, s, i))
      {
        StepKeeps(cfg, s, i);
        StepFlags(cfg, s, i);
      }
    }
  }

  // ----- answering the peer -----

  lemma ReplyOfConfigure(code: byte, id: byte, opts: seq<byte>)
    requires |opts| <= 64
    ensures var p := Configure(FSM_CONFREQ, id, opts); Reply(code, p, PacketLength(p)) == Configure(code, id, opts)
  {
    hide PacketLength;
    ConfigureLength(FSM_CONFREQ, id, opts);
  }

  /** Configure requests of the peer are acknowledged with their own id and options: by LCP (which adds
      its own request until it is open), by IPCP (which learns the peer's address from them), and by CCP. */
  lemma RequestsAcknowledged(c: Crypto, s: Ctl, id: byte, opts: seq<Opt>)
    requires (forall o :: o in opts ==> |o.value| <= 253) && |OptsBytes(opts)| <= 60
    ensures var req := Configure(FSM_CONFREQ, id, OptsBytes(opts));
      var ack := Configure(FSM_CONFACK, id, OptsBytes(opts));
      && HandleLcp(s, req).frames == [Frame(PPP_PROTO_LCP, ack)] + (if s.flags.lcpOpened then [] else LcpRequest(s).frames)
      && IpcpBody(s, req).frames == [Frame(PPP_PROTO_IPCP, ack)]
      && IpcpBody(s, req).s.addrs == s.addrs.(peer := Last(opts, CI_ADDR, s.addrs.peer))
      && HandleCcp(c, s, req).frames[..1] == [Frame(PPP_PROTO_CCP, ack)]
      && HandleCcp(c, s, req).s.flags.ccpDone
      && HandleCcp(c, s, req).s.flags.mppeEnabled == (s.flags.mppeKeysSet || s.flags.mppeEnabled)
  {
    hide Frame, Configure, OptsBytes, Walk, Last, LcpRequest, CcpFinished, PacketLength, Reply, InitHalf;
    var bytes := OptsBytes(opts);
    var req := Configure(FSM_CONFREQ, id, bytes);
    ConfigureLength(FSM_CONFREQ, id, bytes);
    ConfigureLength(FSM_CONFACK, id, bytes);
    ReplyOfConfigure(FSM_CONFACK, id, bytes);
    WalkWritten(req, 4, opts);
    CcpFinishedFlags(MppeInitKeys(c, s));
    CcpFinishedMppe(MppeInitKeys(c, s));
  }

  lemma CcpFinishedMppe(s: Ctl)
    ensures CcpFinished(s).s.flags.mppeEnabled == s.flags.mppeEnabled
  {
    hide OptBytes, Frame, Configure;
  }

  /** The CHAP response is a well-formed MS-CHAPv2 response packet: its length field is its size, and
      the 49-octet value holds the peer challenge, eight zeros, the NT response and a zero. */
  lemma ChapResponseShape(id: byte, env: Env, username: seq<byte>)
    ensures var r := ChapResponse(id, env, username);
      && |r| == 54 + Min(|username|, 200) && r[0] == CHAP_RESPONSE && r[1] == id
      && GetBe16(r[2..]) == |r| && r[4] == MSCHAP_VALUE_LEN
      && r[5..21] == env.peerChallenge && r[21..29] == [0, 0, 0, 0, 0, 0, 0, 0] && r[29..53] == env.ntResponse && r[53] == 0
      && r[54..] == username[..Min(|username|, 200)]
  {
    var r := ChapResponse(id, env, username);
    assert r[2..][0] == r[2] && r[2..][1] == r[3];
  }

  // ----- the keys stay on their schedule -----

  // The direction stands somewhere on the schedule of its master key.
  ghost predicate OnSchedule(c: Crypto, h: Half) {
    exists n: nat :: InStep(c, h, n)
  }

  ghost predicate Scheduled(c: Crypto, s: Ctl) {
    s.flags.mppeEnabled ==> OnSchedule(c, s.send) && OnSchedule(c, s.recv)
  }

  // A CHAP challenge; answering it may replace the master keys.
  predicate Challenge(i: Input) {
    i.Peer? && Unframe(i.frame) != [] &&
    var (proto, p) := Unframe(i.frame)[0];
    proto == PPP_PROTO_CHAP && |p| >= 5 && p[0] == CHAP_CHALLENGE
  }

  // Neither keys nor counters have changed, and MPPE has not been turned on.
  ghost predicate KeysStay(s: Ctl, t: Ctl) {
    t.send == s.send && t.recv == s.recv && (t.flags.mppeEnabled ==> s.flags.mppeEnabled)
  }

  lemma CcpFinishedKeys(s: Ctl)
    ensures KeysStay(s, CcpFinished(s).s)
  {
    hide OptBytes, Frame, Configure;
  }

  lemma LcpKeys(s: Ctl, buf: seq<byte>)
    ensures KeysStay(s, HandleLcp(s, buf).s)
  {
    hide Reply, EchoReply, Configure, OptBytes, PutBe32, PacketLength, Frame;
  }

  lemma IpcpBodyKeys(s: Ctl, buf: seq<byte>)
    requires |buf| >= 4
    ensures KeysStay(s, IpcpBody(s, buf).s)
  {
    hide Reply, IpcpPayload, PacketLength, Walk, Last, Frame;
  }

  lemma IpcpKeys(s: Ctl, buf: seq<byte>)
    ensures KeysStay(s, HandleIpcp(s, buf).s)
  {
    hide IpcpBody, CcpFinished;
    CcpFinishedKeys(s.(flags := s.flags.(mppeEnabled := false)));
    if |buf| >= 4 {
      IpcpBodyKeys(IpcpEntry(s).s, buf);
    }
  }

  lemma ChapKeys(cfg: Config, s: Ctl, buf: seq<byte>, env: Env)
    requires |buf| >= 5 && buf[0] == CHAP_CHALLENGE ==> !s.flags.mppeEnabled
    ensures var t := HandleChap(cfg, s, buf, env).s; KeysStay(s, t) || !t.flags.mppeEnabled
  {
    hide ChapResponse, Frame, Configure, OptBytes;
  }

  lemma CcpScheduled(c: Crypto, s: Ctl, buf: seq<byte>)
    requires Scheduled(c, s)
    ensures Scheduled(c, HandleCcp(c, s, buf).s)
  {
    hide CcpFinished, Reply, PacketLength, Frame, InStep, InitHalf;
    CcpFinishedKeys(MppeInitKeys(c, s));
    CcpFinishedKeys(s.(flags := s.flags.(mppeEnabled := false)));
    InitInStep(c, s.send);
    InitInStep(c, s.recv);
  }

  lemma MppeScheduled(c: Crypto, s: Ctl, buf: seq<byte>)
    requires Safe(s) && Scheduled(c, s)
    ensures Scheduled(c, HandleMppe(c, s, buf).s)
  {
    hide Rc4Apply, CatchUp, InStep;
    if |buf| >= 3 && s.flags.mppeEnabled {
      var n: nat :| InStep(c, s.recv, n);
      CatchUpSchedule(c, s.recv, n, CountOf(buf));
      var (recv, plain) := Open(c, s.recv, buf);
      SameSchedule(c, CatchUp(c, s.recv, CountOf(buf)), recv, n + Gap(s.recv.ccount, CountOf(buf)));
      assert HandleMppe(c, s, buf).s.recv == recv;
    }
  }

  lemma SameSchedule(c: Crypto, h: Half, g: Half, n: nat)
    requires InStep(c, h, n) && g == h.(rc4 := g.rc4)
    ensures InStep(c, g, n)
  {
  }

  lemma SendScheduled(c: Crypto, s: Ctl, ip: seq<byte>)
    requires Safe(s) && Scheduled(c, s)
    ensures Scheduled(c, SendIp(c, s, ip).s)
  {
    hide Rc4Apply, Seal, InStep, Frame;
    if s.flags.mppeEnabled && 0 < |ip| <= PPP_MRU - 4 {
      var n: nat :| InStep(c, s.send, n);
      SealInStep(c, s.send, PutBe16(PPP_PROTO_IP) + ip, n);
    }
  }

  /** One step keeps the keys on schedule, whatever arrives: CCP starts the schedule anew, a data packet
      with any count moves along it. A challenge answered while MPPE is on is excluded: it replaces the
      master keys under a running schedule. */
  lemma StepScheduled(cfg: Config, s: Ctl, i: Input)
    requires Safe(s) && Scheduled(cfg.crypto, s) && (Challenge(i) ==> !s.flags.mppeEnabled)
    ensures Scheduled(cfg.crypto, Step(cfg, s, i).s)
  {
    hide Unframe, HandleLcp, HandleChap, HandleIpcp, HandleCcp, HandleMppe, OnSchedule, SendIp;
    match i
    case Peer(frame, env) =>
      if Unframe(frame) != [] {
        var (proto, p) := Unframe(frame)[0];
        LcpKeys(s, p);
        IpcpKeys(s, p);
        if proto == PPP_PROTO_CHAP {
          ChapKeys(cfg, s, p, env);
        }
        CcpScheduled(cfg.crypto, s, p);
        MppeScheduled(cfg.crypto, s, p);
      }
    case Local(ip) =>
      SendScheduled(cfg.crypto, s, ip);
  }

  // No challenge arrives while MPPE is on.
  ghost predicate NoRechallenge(cfg: Config, s: Ctl, inputs: seq<Input>)
    requires Safe(s)
    decreases inputs
  {
    inputs == [] ||
    ((Challenge(inputs[0]) ==> !s.flags.mppeEnabled) &&
     (StepKeeps(cfg, s, inputs[0]); NoRechallenge(cfg, Step(cfg, s, inputs[0]).s, inputs[1..])))
  }

  /** Over every run without such a challenge: whenever MPPE is on, both directions stand on the schedule
      of their master keys. */
  lemma {:induction false} RunScheduled(cfg: Config, s: Ctl, inputs: seq<Input>)
    requires Safe(s) && Scheduled(cfg.crypto, s) && NoRechallenge(cfg, s, inputs)
    ensures Scheduled(cfg.crypto, Run(cfg, s, inputs).s)
    decreases inputs
  {
    hide Step, Run, Scheduled, Challenge;
    RunStep(cfg, s, inputs);
    if inputs != [] {
      StepScheduled(cfg, s, inputs[0]);
      var o := Step(cfg, s, inputs[0]);
      RunScheduled(cfg, o.s, inputs[1..]);
      JoinState(o, Run(cfg, o.s, inputs[1..]));
    }
  }

  /** An LCP echo request is answered with its own data under our magic number, and changes nothing. */
  lemma EchoAnswered(s: Ctl, id: byte, magic: uint32, data: seq<byte>)
    requires |data| <= 56
    ensures HandleLcp(s, Configure(FSM_ECHOREQ, id, PutBe32(magic) + data)) ==
      Out(s, [Frame(PPP_PROTO_LCP, Configure(FSM_ECHOREP, id, PutBe32(s.ids.magic) + data))], [], [])
  {
    hide Frame, PutBe32;
    Be32RoundTrip(magic);
    Be32RoundTrip(s.ids.magic);
    var opts := PutBe32(magic) + data;
    var p := Configure(FSM_ECHOREQ, id, opts);
    ConfigureLength(FSM_ECHOREQ, id, opts);
    assert p == [FSM_ECHOREQ, id] + PutBe16(4 + |opts|) + PutBe32(magic) + data;
    assert EchoReply(s.ids.magic, p, |p|) == Configure(FSM_ECHOREP, id, PutBe32(s.ids.magic) + data);
  }
}
