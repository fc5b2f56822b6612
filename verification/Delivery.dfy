/** End to end over the PPP and MPPE layers: IP packets given to one engine come out of the other, the
    same packets in the same order. */
module Delivery {
  import opened Bytes
  import opened Mppe
  import opened PppOptions
  import opened Engine
  import opened Negotiation

  ghost predicate Sendable(ip: seq<byte>) {
    0 < |ip| <= PPP_MRU - 4
  }

  /** The frames queued for a sequence of IP packets. */
  function SendAll(cfg: Config, s: Ctl, ips: seq<seq<byte>>): seq<seq<byte>>
    requires Safe(s)
    decreases ips
  {
    if ips == [] then []
    else
      StepKeeps(cfg, s, Local(ips[0]));
      var o := Step(cfg, s, Local(ips[0]));
      o.frames + SendAll(cfg, o.s, ips[1..])
  }

  /** The frames as the other engine gets them, with whatever its environment supplies meanwhile. */
  function Arriving(frames: seq<seq<byte>>, envs: seq<Env>): seq<Input>
    requires |frames| == |envs|
  {
    if frames == [] then [] else [Peer(frames[0], envs[0])] + Arriving(frames[1..], envs[1..])
  }

  lemma {:induction false} ArrivingSnoc(frames: seq<seq<byte>>, envs: seq<Env>, f: seq<byte>, e: Env)
    requires |frames| == |envs|
    ensures Arriving(frames + [f], envs + [e]) == Arriving(frames, envs) + [Peer(f, e)]
  {
    if frames == [] {
      assert [f][1..] == [] && [e][1..] == [];
    } else {
      assert (frames + [f])[1..] == frames[1..] + [f] && (envs + [e])[1..] == envs[1..] + [e];
      ArrivingSnoc(frames[1..], envs[1..], f, e);
    }
  }

  /** The two ends after negotiation: either both in the clear, or both encrypting with mirrored masters
      and the receiver in step with the sender. */
  ghost predicate Paired(c: Crypto, sender: Ctl, receiver: Ctl, n: nat) {
    sender.flags.mppeEnabled == receiver.flags.mppeEnabled &&
    (sender.flags.mppeEnabled ==>
      sender.send.master == receiver.recv.master && InStep(c, sender.send, n) && InStep(c, receiver.recv, n))
  }

  /** Two engines with mirrored masters that initialise MPPE are paired. */
  lemma InitialisedPair(c: Crypto, a: Ctl, b: Ctl)
    requires a.flags.mppeKeysSet && b.flags.mppeKeysSet && a.send.master == b.recv.master
    ensures Paired(c, MppeInitKeys(c, a), MppeInitKeys(c, b), 0)
  {
    InitInStep(c, a.send);
    InitInStep(c, b.recv);
  }

  lemma PlainPacket(cfg: Config, receiver: Ctl, ip: seq<byte>, env: Env)
    requires Safe(receiver)
    ensures Step(cfg, receiver, Peer(Frame(PPP_PROTO_IP, ip), env)) ==
      Out(receiver.(recvBytes := receiver.recvBytes + |ip|), [], [], [ip])
  {
    hide Unframe, Frame, HandleLcp, HandleChap, HandleIpcp, HandleCcp, HandleMppe;
    UnframeFrame(PPP_PROTO_IP, ip);
  }

  // A decrypted packet that holds IP.
  predicate HoldsIp(plain: seq<byte>) {
    plain != [] && (plain[0] % 2 == 0 ==> |plain| >= 2) &&
    var (proto, ip) := SplitProtocol(plain);
    proto == PPP_PROTO_IP && ip != []
  }

  /** Exactly what is delivered: every plain IP frame, in every state, whether or not the peer is
      authenticated and MPPE is on; and an MPPE frame while MPPE is on, if it decrypts to IP. Nothing else
      ever is. */
  lemma DeliversIff(cfg: Config, s: Ctl, i: Input)
    requires Safe(s)
    ensures Step(cfg, s, i).ips != [] <==>
      i.Peer? && Unframe(i.frame) != [] &&
      var (proto, p) := Unframe(i.frame)[0];
      proto == PPP_PROTO_IP ||
      (proto == PPP_PROTO_MPPE && s.flags.mppeEnabled && |p| >= 3 && HoldsIp(Open(cfg.crypto, s.recv, p).1))
  {
    hide Unframe, HandleLcp, HandleChap, HandleIpcp, HandleCcp, HandleMppe, SendIp;
    match i
    case Local(ip) => SendsOnly(cfg.crypto, s, ip);
    case Peer(frame, env) =>
      if Unframe(frame) != [] {
        var (proto, p) := Unframe(frame)[0];
        LcpDelivers(s, p);
        ChapDelivers(cfg, s, p, env);
        IpcpDelivers(s, p);
        CcpDelivers(cfg.crypto, s, p);
        MppeDelivers(cfg.crypto, s, p);
      }
  }

  lemma SendsOnly(c: Crypto, s: Ctl, ip: seq<byte>)
    requires Safe(s)
    ensures SendIp(c, s, ip).ips == []
  {
    hide Seal;
  }

  lemma LcpDelivers(s: Ctl, p: seq<byte>)
    ensures HandleLcp(s, p).ips == []
  {
    hide Reply, EchoReply, PacketLength, Configure, OptBytes;
  }

  lemma ChapDelivers(cfg: Config, s: Ctl, p: seq<byte>, env: Env)
    ensures HandleChap(cfg, s, p, env).ips == []
  {
    hide ChapResponse, Configure, OptBytes;
  }

  lemma FinishDelivers(s: Ctl)
    ensures CcpFinished(s).ips == []
  {
    hide IpcpPayload;
  }

  lemma IpcpDelivers(s: Ctl, p: seq<byte>)
    ensures HandleIpcp(s, p).ips == []
  {
    hide Reply, PacketLength, Walk, Last, IpcpPayload, CcpFinished;
    FinishDelivers(s.(flags := s.flags.(mppeEnabled := false)));
  }

  lemma CcpDelivers(c: Crypto, s: Ctl, p: seq<byte>)
    ensures HandleCcp(c, s, p).ips == []
  {
    hide Reply, PacketLength, CcpFinished, MppeInitKeys;
    FinishDelivers(MppeInitKeys(c, s));
    FinishDelivers(s.(flags := s.flags.(mppeEnabled := false)));
  }

  lemma MppeDelivers(c: Crypto, s: Ctl, p: seq<byte>)
    requires Safe(s)
    ensures HandleMppe(c, s, p).ips != [] <==> s.flags.mppeEnabled && |p| >= 3 && HoldsIp(Open(c, s.recv, p).1)
  {
    hide CatchUp;
  }

  lemma OpenedPacket(c: Crypto, s: Ctl, buf: seq<byte>, recv: Half, ip: seq<byte>)
    requires s.recv.ccount < COUNTS && s.flags.mppeEnabled && |buf| >= 3 && ip != []
    requires Open(c, s.recv, buf) == (recv, PutBe16(PPP_PROTO_IP) + ip)
    ensures HandleMppe(c, s, buf) == Out(s.(recv := recv, recvBytes := s.recvBytes + |ip|), [], [], [ip])
  {
    hide Open;
    var plain := PutBe16(PPP_PROTO_IP) + ip;
    assert plain[2..] == ip && GetBe16(plain) == PPP_PROTO_IP;
  }

  lemma SealedPacket(cfg: Config, sender: Ctl, receiver: Ctl, n: nat, ip: seq<byte>, env: Env)
    requires Safe(sender) && Safe(receiver) && Paired(cfg.crypto, sender, receiver, n)
    requires sender.flags.mppeEnabled && Sendable(ip)
    ensures var (h, enc) := Seal(cfg.crypto, sender.send, PutBe16(PPP_PROTO_IP) + ip);
      && Step(cfg, receiver, Peer(Frame(PPP_PROTO_MPPE, enc), env)) ==
         Out(receiver.(recv := h, recvBytes := receiver.recvBytes + |ip|), [], [], [ip])
      && InStep(cfg.crypto, h, n + 1) && h.master == sender.send.master && |enc| == |ip| + 4
  {
    hide Unframe, Frame, HandleLcp, HandleChap, HandleIpcp, HandleCcp, HandleMppe, InStep, Seal, Open;
    var plain := PutBe16(PPP_PROTO_IP) + ip;
    var (h, enc) := Seal(cfg.crypto, sender.send, plain);
    Resynchronise(cfg.crypto, sender.send, receiver.recv, n, n, plain);
    SealInStep(cfg.crypto, sender.send, plain, n);
    SealMaster(cfg.crypto, sender.send, plain);
    CountInPacket(cfg.crypto, sender.send, plain);
    UnframeFrame(PPP_PROTO_MPPE, enc);
    OpenedPacket(cfg.crypto, receiver, enc, h, ip);
  }

  /** One packet: a single frame, which the other end turns back into the packet; the ends stay paired. */
  lemma OnePacket(cfg: Config, sender: Ctl, receiver: Ctl, n: nat, ip: seq<byte>, env: Env)
    requires Safe(sender) && Safe(receiver) && Paired(cfg.crypto, sender, receiver, n) && Sendable(ip)
    ensures var o := Step(cfg, sender, Local(ip));
      && Safe(o.s) && |o.frames| == 1 && 4 < |o.frames[0]| <= PPP_MRU + 4
      && var p := Step(cfg, receiver, Peer(o.frames[0], env));
      Safe(p.s) && p.ips == [ip] && p.events == [] && Paired(cfg.crypto, o.s, p.s, n + 1)
  {
    hide Unframe, Rc4Apply, Seal, InStep, PutBe16;
    StepKeeps(cfg, sender, Local(ip));
    Be16Size(PPP_PROTO_IP);
    Be16Size(PPP_PROTO_MPPE);
    if sender.flags.mppeEnabled {
      SealedPacket(cfg, sender, receiver, n, ip, env);
    } else {
      PlainPacket(cfg, receiver, ip, env);
    }
    StepKeeps(cfg, receiver, Peer(Step(cfg, sender, Local(ip)).frames[0], env));
  }

  lemma SendAllStep(cfg: Config, s: Ctl, ips: seq<seq<byte>>)
    requires Safe(s) && ips != []
    ensures var o := Step(cfg, s, Local(ips[0]));
      Safe(o.s) && SendAll(cfg, s, ips) == o.frames + SendAll(cfg, o.s, ips[1..])
  {
    hide Step;
    StepKeeps(cfg, s, Local(ips[0]));
  }

  /** Delivery: any sequence of IP packets of 1 to 1396 octets becomes one frame each; dispatching any
      number of these frames, in order, delivers exactly as many of the packets, in order, and raises no
      other notification. */
  lemma {:induction false} Delivered(cfg: Config, sender: Ctl, receiver: Ctl, n: nat, ips: seq<seq<byte>>,
                                     envs: seq<Env>, k: nat)
    requires Safe(sender) && Safe(receiver) && Paired(cfg.crypto, sender, receiver, n)
    requires (forall ip :: ip in ips ==> Sendable(ip)) && k <= |ips| == |envs|
    ensures |SendAll(cfg, sender, ips)| == |ips|
    ensures forall f :: f in SendAll(cfg, sender, ips) ==> 4 < |f| <= PPP_MRU + 4
    ensures var r := Run(cfg, receiver, Arriving(SendAll(cfg, sender, ips)[..k], envs[..k]));
      r.ips == ips[..k] && r.events == []
    decreases ips
  {
    hide Step, Run, Paired, Sendable, SendAll;
    if ips == [] {
      assert SendAll(cfg, sender, ips) == [] by { SendAllNone(cfg, sender); }
      RunStep(cfg, receiver, []);
    } else {
      assert ips[0] in ips;
      SendAllStep(cfg, sender, ips);
      OnePacket(cfg, sender, receiver, n, ips[0], envs[0]);
      var o := Step(cfg, sender, Local(ips[0]));
      var f, rest := o.frames[0], SendAll(cfg, o.s, ips[1..]);
      var frames := SendAll(cfg, sender, ips);
      var p := Step(cfg, receiver, Peer(f, envs[0]));
      assert frames == [f] + rest;
      Delivered(cfg, o.s, p.s, n + 1, ips[1..], envs[1..], if k == 0 then 0 else k - 1);
      if k == 0 {
        RunStep(cfg, receiver, []);
      } else {
        var inputs := Arriving(frames[..k], envs[..k]);
        assert frames[..k][1..] == rest[..k - 1] && envs[..k][1..] == envs[1..][..k - 1];
        assert inputs == [Peer(f, envs[0])] + Arriving(rest[..k - 1], envs[1..][..k - 1]);
        RunStep(cfg, receiver, inputs);
        assert ips[..k] == [ips[0]] + ips[1..][..k - 1];
      }
    }
  }

  lemma SendAllNone(cfg: Config, s: Ctl)
    requires Safe(s)
    ensures SendAll(cfg, s, []) == []
  {
  }
}
