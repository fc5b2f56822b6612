/** The in-process PPP engine as an object (ios-pppd.c): the handlers update its fields in place and
    queue frames. Every method is proved to do exactly what Engine says. */
module Pppd {
  import opened Bytes
  import opened Common
  import opened Packet
  import opened Mppe
  import opened PppOptions
  import opened Engine
  import opened TxQueue

  /** What the engine has put out so far: packets queued, notifications given, IP packets delivered. */
  datatype Trail = Trail(enqueued: seq<seq<byte>>, events: seq<Event>, delivered: seq<seq<byte>>)

  function Extend(t: Trail, o: Out): Trail {
    Trail(t.enqueued + DataPackets(o.frames), t.events + o.events, t.delivered + o.ips)
  }

  lemma ExtendJoin(t: Trail, o: Out, p: Out)
    ensures Extend(Extend(t, o), p) == Extend(t, Join(o, p)) && Join(o, p).s == p.s
    ensures Extend(t, Quiet(o.s)) == t
  {
    DataPacketsAppend(o.frames, p.frames);
    assert t.enqueued + DataPackets(o.frames) + DataPackets(p.frames) ==
      t.enqueued + (DataPackets(o.frames) + DataPackets(p.frames));
    assert t.events + o.events + p.events == t.events + (o.events + p.events);
    assert t.delivered + o.ips + p.ips == t.delivered + (o.ips + p.ips);
    assert DataPackets([]) == [];
  }

  // An encrypted packet must fit the buffer it is decrypted into.
  ghost predicate FitsLocal(frame: seq<byte>) {
    Unframe(frame) != [] && Unframe(frame)[0].0 == PPP_PROTO_MPPE ==> |Unframe(frame)[0].1| - 2 <= PPP_MRU + 16
  }

  class Pppd {
    const cfg: Config
    const tx: Queue

    var lcpId: byte
    var chapId: byte
    var ipcpId: byte
    var ccpId: byte
    var magic: uint32

    var lcpOpened: bool
    var authDone: bool
    var ipConfigured: bool
    var ccpDone: bool
    var mppeEnabled: bool
    var mppeKeysSet: bool
    var upNotified: bool

    var localIp: uint32
    var peerIp: uint32
    var dns1: uint32
    var dns2: uint32

    var send: Half                       // mppe_master_send, mppe_session_send, rc4_send, mppe_send_ccount
    var recv: Half                       // the same for the other direction

    var recvBytes: nat
    var events: seq<Event>               // every notification given
    var delivered: seq<seq<byte>>        // every packet passed to ip_handler

    function Ids(): Ids
      reads this
    {
      Engine.Ids(lcpId, chapId, ipcpId, ccpId, magic)
    }

    function Flags(): Flags
      reads this
    {
      Engine.Flags(lcpOpened, authDone, ipConfigured, ccpDone, mppeEnabled, mppeKeysSet, upNotified)
    }

    function Addrs(): Addrs
      reads this
    {
      Engine.Addrs(localIp, peerIp, dns1, dns2)
    }

    function State(): Ctl
      reads this
    {
      Ctl(Ids(), Flags(), Addrs(), send, recv, recvBytes)
    }

    ghost predicate Valid()
      reads this, tx, tx.nodes
    {
      tx.Valid() && send.ccount < COUNTS && recv.ccount < COUNTS
    }

    ghost function History(): Trail
      reads this, tx
    {
      Trail(tx.books.enqueued, events, delivered)
    }

    // The state is that of `o`, whose frames, notifications and packets came on top of `before`.
    ghost predicate Did(o: Out, before: Trail)
      reads this, tx
    {
      State() == o.s && History() == Extend(before, o)
    }

    /** sstp_pppd_create. */
    constructor (cfg: Config, magic: uint32)
      ensures Valid() && fresh(tx) && tx.nodes == {} && this.cfg == cfg
      ensures State() == Created(magic) && History() == Trail([], [], [])
    {
      this.cfg := cfg;
      tx := new Queue();
      lcpId, chapId, ipcpId, ccpId := 0, 0, 0, 0;
      this.magic := magic;
      lcpOpened, authDone, ipConfigured, ccpDone := false, false, false, false;
      mppeEnabled, mppeKeysSet, upNotified := false, false, false;
      localIp, peerIp, dns1, dns2 := 0, 0, 0, 0;
      send := Half(seq(16, _ => 0), seq(16, _ => 0), Rc4([], 0), 0);
      recv := Half(seq(16, _ => 0), seq(16, _ => 0), Rc4([], 0), 0);
      recvBytes := 0;
      events, delivered := [], [];
    }

    /** ppp_send_frame. */
    method SendFrame(proto: uint16, payload: seq<byte>) returns (status: Status)
      requires Valid()
      modifies tx, tx.nodes
      ensures Valid() && fresh(tx.nodes - old(tx.nodes)) && old(tx.nodes) <= tx.nodes
      ensures Did(Sent(old(State()), proto, payload), old(History()))
      ensures status == if |payload| <= PPP_MRU then SstpOkay else SstpFail
    {
      if |payload| > PPP_MRU {
        return SstpFail;
      }
      var frame := FrameBody(proto, payload);
      status := tx.EnqueueRaw(frame);
    }

    /** send_lcp_confreq. */
    method SendLcpConfreq()
      requires Valid()
      modifies this`lcpId, tx, tx.nodes
      ensures Valid() && fresh(tx.nodes - old(tx.nodes)) && old(tx.nodes) <= tx.nodes
      ensures Did(LcpRequest(old(State())), old(History()))
    {
      hide Sent, Configure;
      lcpId := (lcpId + 1) % 0x100;
      var body := LcpConfreqBody(lcpId, magic);
      var _ := SendFrame(PPP_PROTO_LCP, body);
    }

    /** send_ipcp_confreq. */
    method SendIpcpConfreq()
      requires Valid()
      modifies this`ipcpId, tx, tx.nodes
      ensures Valid() && fresh(tx.nodes - old(tx.nodes)) && old(tx.nodes) <= tx.nodes
      ensures Did(IpcpRequest(old(State())), old(History()))
    {
      hide Sent, IpcpPayload;
      ipcpId := (ipcpId + 1) % 0x100;
      var body := IpcpConfreqBody(ipcpId, Addrs());
      var _ := SendFrame(PPP_PROTO_IPCP, body);
    }

    /** send_ccp_confreq. */
    method SendCcpConfreq()
      requires Valid()
      modifies this`ccpId, tx, tx.nodes
      ensures Valid() && fresh(tx.nodes - old(tx.nodes)) && old(tx.nodes) <= tx.nodes
      ensures Did(CcpRequest(old(State())), old(History()))
    {
      hide Sent, Configure;
      ccpId := (ccpId + 1) % 0x100;
      var body := CcpConfreqBody(ccpId);
      var _ := SendFrame(PPP_PROTO_CCP, body);
    }

    /** maybe_notify_up. */
    method MaybeNotifyUp()
      requires Valid()
      modifies this`upNotified, this`events
      ensures Valid()
      ensures Did(Engine.MaybeNotifyUp(old(State())), old(History()))
    {
      if upNotified { return; }
      if !ipConfigured || localIp == 0 { return; }
      if !ccpDone { return; }
      upNotified := true;
      events := events + [PppUp(State())];
    }

    /** ccp_finished. */
    method CcpFinished()
      requires Valid()
      modifies this`ccpDone, this`ipcpId, this`upNotified, this`events, tx, tx.nodes
      ensures Valid() && fresh(tx.nodes - old(tx.nodes)) && old(tx.nodes) <= tx.nodes
      ensures Did(Engine.CcpFinished(old(State())), old(History()))
    {
      hide Engine.MaybeNotifyUp, IpcpRequest, Extend, Join;
      if ccpDone {
        MaybeNotifyUp();
        return;
      }
      ccpDone := true;
      ghost var t := State();
      ghost var first := Quiet(t);
      ExtendJoin(History(), first, first);
      if authDone {
        SendIpcpConfreq();
        first := IpcpRequest(t);
      }
      ExtendJoin(old(History()), first, Engine.MaybeNotifyUp(first.s));
      MaybeNotifyUp();
    }

    /** mppe_init_keys. */
    method MppeInitKeys()
      requires Valid()
      modifies this`send, this`recv, this`mppeEnabled
      ensures Valid()
      ensures State() == Engine.MppeInitKeys(cfg.crypto, old(State()))
      ensures mppeKeysSet ==> mppeEnabled && Initialised(cfg.crypto, send) && Initialised(cfg.crypto, recv)
      ensures send.master == old(send).master && recv.master == old(recv).master
      ensures !mppeKeysSet ==> send == old(send) && recv == old(recv) && mppeEnabled == old(mppeEnabled)
    {
      hide Rekey;
      if !mppeKeysSet {
        return;
      }
      var tx0, rx0 := send.(session := send.master), recv.(session := recv.master);
      tx0 := Rekey(cfg.crypto, tx0, true);
      rx0 := Rekey(cfg.crypto, rx0, true);
      send, recv := tx0.(ccount := 0x0fff), rx0.(ccount := 0x0fff);
      mppeEnabled := true;
      InitialisedHalf(cfg.crypto, old(send));
      InitialisedHalf(cfg.crypto, old(recv));
      assert send == InitHalf(cfg.crypto, old(send)) && recv == InitHalf(cfg.crypto, old(recv));
    }

    /** sstp_pppd_set_mppe_keys. */
    method SetMppeKeys(skey: seq<byte>, rkey: seq<byte>)
      requires Valid()
      modifies this`send, this`recv, this`mppeKeysSet
      ensures Valid()
      ensures State() == SetKeys(old(State()), Keys(skey, rkey))
    {
      send := send.(master := skey);
      recv := recv.(master := rkey);
      mppeKeysSet := true;
    }

    /** handle_lcp. */
    method HandleLcp(buf: seq<byte>)
      requires Valid()
      modifies this`lcpId, this`lcpOpened, this`events, tx, tx.nodes
      ensures Valid() && fresh(tx.nodes - old(tx.nodes)) && old(tx.nodes) <= tx.nodes
      ensures Did(Engine.HandleLcp(old(State()), buf), old(History()))
    {
      hide LcpRequest, Sent, Extend, Join, Reply, EchoReply, PacketLength;
      ghost var before, s := History(), State();
      ExtendJoin(before, Quiet(s), Quiet(s));
      if |buf| < 4 {
        return;
      }
      var code, id, plen := buf[0], buf[1], PacketLength(buf);
      if code == FSM_CONFREQ {
        AcknowledgeLcp(buf, plen);
      } else if code == FSM_CONFACK {
        lcpOpened := true;
        ExtendJoin(before, Quiet(State()), Quiet(s));
      } else if code == FSM_CONFNAK || code == FSM_CONFREJ {
        SendLcpConfreq();
      } else if code == FSM_TERMREQ {
        var term := [FSM_TERMACK, id, 0, 4];
        ghost var first := Sent(s, PPP_PROTO_LCP, term);
        SentState(s, PPP_PROTO_LCP, term);
        var _ := SendFrame(PPP_PROTO_LCP, term);
        ExtendJoin(before, first, Out(s, [], [PppDown], []));
        ExtendEvent(History(), s, PppDown);
        events := events + [PppDown];
      } else if code == FSM_ECHOREQ {
        if plen > 64 {
          return;
        }
        var echo := EchoBody(magic, buf, plen);
        var _ := SendFrame(PPP_PROTO_LCP, echo);
      }
    }

    // The reply of handle_lcp to a configuration request.
    method AcknowledgeLcp(buf: seq<byte>, plen: nat)
      requires Valid() && |buf| >= 4 && buf[0] == FSM_CONFREQ && plen == PacketLength(buf)
      modifies this`lcpId, tx, tx.nodes
      ensures Valid() && fresh(tx.nodes - old(tx.nodes)) && old(tx.nodes) <= tx.nodes
      ensures Did(Engine.HandleLcp(old(State()), buf), old(History()))
    {
      hide LcpRequest, Sent, Extend, Join, Reply, EchoReply, PacketLength;
      ghost var before, s := History(), State();
      ExtendJoin(before, Quiet(s), Quiet(s));
      if plen > 256 {
        return;
      }
      var ack := ReplyBody(FSM_CONFACK, buf, plen, 256);
      ghost var first := Sent(s, PPP_PROTO_LCP, ack);
      SentState(s, PPP_PROTO_LCP, ack);
      var _ := SendFrame(PPP_PROTO_LCP, ack);
      if !lcpOpened {
        ExtendJoin(before, first, LcpRequest(s));
        SendLcpConfreq();
      } else {
        ExtendJoin(before, first, Quiet(s));
        ExtendJoin(History(), Quiet(s), Quiet(s));
      }
    }

    /** handle_chap; `env` is what the random generator and the owner supply. */
    method HandleChap(buf: seq<byte>, env: Env)
      requires Valid()
      modifies this`chapId, this`ccpId, this`authDone, this`send, this`recv, this`mppeKeysSet, this`events, tx, tx.nodes
      ensures Valid() && fresh(tx.nodes - old(tx.nodes)) && old(tx.nodes) <= tx.nodes
      ensures Did(Engine.HandleChap(cfg, old(State()), buf, env), old(History()))
    {
      hide CcpRequest, Extend, Join, Engine.AnswerChallenge;
      ghost var before, s := History(), State();
      ExtendJoin(before, Quiet(s), Quiet(s));
      if |buf| < 5 {
        return;
      }
      var code, id, vsize := buf[0], buf[1], buf[4];
      if code != CHAP_CHALLENGE {
        if code == CHAP_SUCCESS {
          authDone := true;
          SendCcpConfreq();
        } else if code == CHAP_FAILURE {
          ExtendEvent(before, s, PppAuthFail);
          events := events + [PppAuthFail];
        }
        return;
      }
      if vsize < 16 || |buf| - 5 < vsize {
        return;
      }
      chapId := id;
      AnswerChallenge(env);
    }

    // The last part of handle_chap: the response, and the callback that may set the keys.
    method AnswerChallenge(env: Env)
      requires Valid()
      modifies this`send, this`recv, this`mppeKeysSet, this`events, tx, tx.nodes
      ensures Valid() && fresh(tx.nodes - old(tx.nodes)) && old(tx.nodes) <= tx.nodes
      ensures Did(Engine.AnswerChallenge(cfg, old(State()), env), old(History()))
    {
      hide Sent, Extend, Join, ChapResponse;
      ghost var before, t := History(), State();
      var resp := ResponseBody(chapId, env, cfg.username);
      SentState(t, PPP_PROTO_CHAP, resp);
      var _ := SendFrame(PPP_PROTO_CHAP, resp);
      ghost var u := SetKeys(t, env.derived);
      ExtendJoin(before, Sent(t, PPP_PROTO_CHAP, resp), Out(u, [], [PppAuth], []));
      ExtendEvent(History(), u, PppAuth);
      events := events + [PppAuth];
      if env.derived.Keys? {
        SetMppeKeys(env.derived.send, env.derived.recv);
      }
    }

    // The option walk shared by the acknowledge and the refuse branch of handle_ipcp.
    method ReadAddresses(buf: seq<byte>)
      requires Valid()
      modifies this`localIp, this`dns1, this`dns2
      ensures Valid()
      ensures State() == WithAddresses(old(State()), Walk(buf, 4))
    {
      hide GetBe32;
      var pos := 4;
      while pos + 2 <= |buf|
        invariant 4 <= pos
        invariant Last(Walk(buf, pos), CI_ADDR, localIp) == Last(Walk(buf, 4), CI_ADDR, old(localIp))
        invariant Last(Walk(buf, pos), CI_MS_DNS1, dns1) == Last(Walk(buf, 4), CI_MS_DNS1, old(dns1))
        invariant Last(Walk(buf, pos), CI_MS_DNS2, dns2) == Last(Walk(buf, 4), CI_MS_DNS2, old(dns2))
        decreases |buf| - pos
      {
        var kind, olen := buf[pos], buf[pos + 1];
        if olen < 2 || pos + olen > |buf| {
          break;
        }
        var value := buf[pos + 2..pos + olen];
        WalkStep(buf, pos, CI_ADDR, localIp);
        WalkStep(buf, pos, CI_MS_DNS1, dns1);
        WalkStep(buf, pos, CI_MS_DNS2, dns2);
        if kind == CI_ADDR && olen == 6 {
          localIp := GetBe32(value);
        } else if kind == CI_MS_DNS1 && olen == 6 {
          dns1 := GetBe32(value);
        } else if kind == CI_MS_DNS2 && olen == 6 {
          dns2 := GetBe32(value);
        }
        pos := pos + olen;
      }
    }

    // The option walk of the request branch.
    method ReadPeerAddress(buf: seq<byte>)
      requires Valid()
      modifies this`peerIp
      ensures Valid()
      ensures State() == old(State()).(addrs := old(Addrs()).(peer := Last(Walk(buf, 4), CI_ADDR, old(peerIp))))
    {
      hide GetBe32;
      var pos := 4;
      while pos + 2 <= |buf|
        invariant 4 <= pos
        invariant Last(Walk(buf, pos), CI_ADDR, peerIp) == Last(Walk(buf, 4), CI_ADDR, old(peerIp))
        decreases |buf| - pos
      {
        var kind, olen := buf[pos], buf[pos + 1];
        if olen < 2 || pos + olen > |buf| {
          break;
        }
        WalkStep(buf, pos, CI_ADDR, peerIp);
        if kind == CI_ADDR && olen == 6 {
          peerIp := GetBe32(buf[pos + 2..pos + olen]);
        }
        pos := pos + olen;
      }
    }

    /** handle_ipcp. */
    method HandleIpcp(buf: seq<byte>)
      requires Valid()
      modifies this`mppeEnabled, this`ccpDone, this`ipcpId, this`ipConfigured, this`upNotified
      modifies this`localIp, this`peerIp, this`dns1, this`dns2, this`events, tx, tx.nodes
      ensures Valid() && fresh(tx.nodes - old(tx.nodes)) && old(tx.nodes) <= tx.nodes
      ensures Did(Engine.HandleIpcp(old(State()), buf), old(History()))
    {
      hide Extend, Join, IpcpEntry, IpcpBody;
      ghost var before, s := History(), State();
      ExtendJoin(before, Quiet(s), Quiet(s));
      if |buf| < 4 {
        return;
      }
      EnterIpcp();
      ExtendJoin(before, IpcpEntry(s), IpcpBody(State(), buf));
      HandleIpcpCode(buf);
    }

    // Some servers skip CCP: IPCP after authentication ends the wait for it.
    method EnterIpcp()
      requires Valid()
      modifies this`mppeEnabled, this`ccpDone, this`ipcpId, this`upNotified, this`events, tx, tx.nodes
      ensures Valid() && fresh(tx.nodes - old(tx.nodes)) && old(tx.nodes) <= tx.nodes
      ensures Did(IpcpEntry(old(State())), old(History()))
    {
      hide Extend, Join, Engine.CcpFinished;
      ghost var before, s := History(), State();
      ExtendJoin(before, Quiet(s), Quiet(s));
      if !ccpDone && authDone {
        mppeEnabled := false;
        CcpFinished();
      }
    }

    // The switch of handle_ipcp.
    method HandleIpcpCode(buf: seq<byte>)
      requires Valid() && |buf| >= 4
      modifies this`ipcpId, this`ipConfigured, this`upNotified
      modifies this`localIp, this`peerIp, this`dns1, this`dns2, this`events, tx, tx.nodes
      ensures Valid() && fresh(tx.nodes - old(tx.nodes)) && old(tx.nodes) <= tx.nodes
      ensures Did(IpcpBody(old(State()), buf), old(History()))
    {
      hide Extend, Join, Sent, Reply, PacketLength, Walk, Last, Engine.MaybeNotifyUp, IpcpRequest;
      ghost var before := History();
      var code, plen := buf[0], PacketLength(buf);
      if code == FSM_CONFREQ {
        ReadPeerAddress(buf[..plen]);
        ExtendJoin(before, Quiet(State()), Quiet(State()));
        if plen > 128 {
          return;
        }
        var ack := ReplyBody(FSM_CONFACK, buf, plen, 128);
        var _ := SendFrame(PPP_PROTO_IPCP, ack);
      } else if code == FSM_CONFACK {
        ReadAddresses(buf[..plen]);
        ExtendJoin(before, Quiet(State()), Quiet(State()));
        if localIp != 0 {
          ipConfigured := true;
          MaybeNotifyUp();
        }
      } else if code == FSM_CONFNAK {
        ReadAddresses(buf[..plen]);
        SendIpcpConfreq();
      } else {
        ExtendJoin(before, Quiet(State()), Quiet(State()));
      }
    }

    // What an acceptable CCP packet leads to.
    method CcpAccepted()
      requires Valid()
      modifies this`send, this`recv, this`mppeEnabled, this`ccpDone, this`ipcpId, this`upNotified, this`events, tx, tx.nodes
      ensures Valid() && fresh(tx.nodes - old(tx.nodes)) && old(tx.nodes) <= tx.nodes
      ensures Did(Engine.CcpFinished(Engine.MppeInitKeys(cfg.crypto, old(State()))), old(History()))
    {
      hide Extend, Engine.MppeInitKeys, Engine.CcpFinished;
      MppeInitKeys();
      CcpFinished();
    }

    /** handle_ccp. */
    method HandleCcp(buf: seq<byte>)
      requires Valid()
      modifies this`send, this`recv, this`mppeEnabled, this`ccpDone, this`ipcpId, this`upNotified, this`events, tx, tx.nodes
      ensures Valid() && fresh(tx.nodes - old(tx.nodes)) && old(tx.nodes) <= tx.nodes
      ensures Did(Engine.HandleCcp(cfg.crypto, old(State()), buf), old(History()))
    {
      hide Extend, Join, CcpRequested, PacketLength, Engine.MppeInitKeys, Engine.CcpFinished;
      ghost var before, s := History(), State();
      ExtendJoin(before, Quiet(s), Quiet(s));
      if |buf| < 4 {
        return;
      }
      var code, plen := buf[0], PacketLength(buf);
      if code == FSM_CONFREQ {
        if plen > 64 {
          return;
        }
        AcknowledgeCcp(buf, plen);
      } else if code == FSM_CONFACK {
        CcpAccepted();
      } else if code == FSM_CONFREJ || code == FSM_CONFNAK {
        mppeEnabled := false;
        CcpFinished();
      }
    }

    // The request branch of handle_ccp.
    method AcknowledgeCcp(buf: seq<byte>, plen: nat)
      requires Valid() && plen <= |buf| && plen <= 64
      modifies this`send, this`recv, this`mppeEnabled, this`ccpDone, this`ipcpId, this`upNotified, this`events, tx, tx.nodes
      ensures Valid() && fresh(tx.nodes - old(tx.nodes)) && old(tx.nodes) <= tx.nodes
      ensures Did(CcpRequested(cfg.crypto, old(State()), buf, plen), old(History()))
    {
      hide Extend, Join, Sent, Reply, Engine.MppeInitKeys, Engine.CcpFinished;
      ghost var before, s := History(), State();
      var ack := ReplyBody(FSM_CONFACK, buf, plen, 64);
      SentState(s, PPP_PROTO_CCP, ack);
      var _ := SendFrame(PPP_PROTO_CCP, ack);
      ExtendJoin(before, Sent(s, PPP_PROTO_CCP, ack), Engine.CcpFinished(Engine.MppeInitKeys(cfg.crypto, s)));
      CcpAccepted();
    }

    // The catch-up loop of handle_mppe.
    method CatchUpTo(ccount: nat)
      requires Valid() && ccount < COUNTS
      modifies this`recv
      ensures Valid()
      ensures State() == old(State()).(recv := CatchUp(cfg.crypto, old(recv), ccount))
      ensures forall n: nat :: InStep(cfg.crypto, old(recv), n) ==> InStep(cfg.crypto, recv, n + Gap(old(recv).ccount, ccount))
      ensures recv.ccount == ccount
      ensures if old(recv).ccount == ccount then recv == old(recv) else recv.rc4 == Rc4(recv.session, 0)
    {
      hide Rekey;
      while recv.ccount != ccount
        invariant recv.ccount < COUNTS
        invariant CatchUp(cfg.crypto, recv, ccount) == CatchUp(cfg.crypto, old(recv), ccount)
        decreases Gap(recv.ccount, ccount)
      {
        GapStep(recv.ccount, ccount);
        var next := Rekey(cfg.crypto, recv, false);
        recv := next.(ccount := (recv.ccount + 1) % COUNTS);
      }
      CaughtUp(cfg.crypto, old(recv), ccount);
    }

    /** handle_mppe; the packet must fit the local buffer it is decrypted into. */
    method HandleMppe(buf: seq<byte>)
      requires Valid() && |buf| - 2 <= PPP_MRU + 16
      modifies this`recv, this`recvBytes, this`delivered
      ensures Valid()
      ensures Did(Engine.HandleMppe(cfg.crypto, old(State()), buf), old(History()))
    {
      hide Rc4Apply, CatchUp, Extend, Join, OpenedOut;
      ghost var before, s := History(), State();
      ExtendJoin(before, Quiet(s), Quiet(s));
      if |buf| < 3 || !mppeEnabled {
        return;
      }
      CatchUpTo(CountOf(buf));
      var p := Rc4Apply(cfg.crypto, recv.rc4, buf[2..]);
      recv := recv.(rc4 := Rc4(recv.rc4.key, recv.rc4.offset + |buf| - 2));
      DeliverOpened(p);
    }

    // The last part of handle_mppe: the protocol field, and the IP packet behind it.
    method DeliverOpened(p: seq<byte>)
      requires Valid() && p != []
      modifies this`recvBytes, this`delivered
      ensures Valid()
      ensures Did(OpenedOut(old(State()), p), old(History()))
    {
      hide SplitProtocol, Extend, Join;
      ghost var before, s := History(), State();
      ExtendJoin(before, Quiet(s), Quiet(s));
      if p[0] % 2 == 0 && |p| < 2 {
        return;
      }
      var (proto, ip) := SplitProtocol(p);
      if proto == PPP_PROTO_IP && |ip| > 0 {
        recvBytes := recvBytes + |ip|;
        ExtendIps(before, State(), ip);
        delivered := delivered + [ip];
      }
    }

    /** ppp_dispatch, behind sstp_pppd_send. */
    method Dispatch(frame: seq<byte>, env: Env)
      requires Valid() && FitsLocal(frame)
      modifies this, tx, tx.nodes
      ensures Valid() && fresh(tx.nodes - old(tx.nodes)) && old(tx.nodes) <= tx.nodes
      ensures Did(Engine.Dispatch(cfg, old(State()), frame, env), old(History()))
    {
      hide Extend, Join, Engine.HandleLcp, Engine.HandleChap, Engine.HandleIpcp, Engine.HandleCcp, Engine.HandleMppe;
      ghost var before, s := History(), State();
      ExtendJoin(before, Quiet(s), Quiet(s));
      if |frame| < 3 {
        return;
      }
      var p := if frame[0] == 0xFF && frame[1] == 0x03 then frame[2..] else frame;
      if |p| < 2 {
        return;
      }
      var (proto, rest) := SplitProtocol(p);
      if proto == PPP_PROTO_LCP {
        HandleLcp(rest);
      } else if proto == PPP_PROTO_CHAP {
        HandleChap(rest, env);
      } else if proto == PPP_PROTO_IPCP {
        HandleIpcp(rest);
      } else if proto == PPP_PROTO_CCP {
        HandleCcp(rest);
      } else if proto == PPP_PROTO_MPPE {
        HandleMppe(rest);
      } else if proto == PPP_PROTO_IP {
        delivered := delivered + [rest];
        recvBytes := recvBytes + |rest|;
        ExtendIps(before, State(), rest);
      }
    }

    // The encrypting part of ppp_send_ip_plain_or_mppe.
    method SealIp(ip: seq<byte>) returns (packet: seq<byte>)
      requires Valid() && |ip| <= PPP_MRU - 4
      modifies this`send
      ensures Valid()
      ensures (send, packet) == Seal(cfg.crypto, old(send), PutBe16(PPP_PROTO_IP) + ip)
      ensures State() == old(State()).(send := send) && |packet| == |ip| + 4
      ensures Sealed(cfg.crypto, old(send), send, [0x00, 0x21] + ip, packet)
    {
      hide Rc4Apply, NextSession, PutBe16, Sealed;
      Be16Size(PPP_PROTO_IP);
      var plain := PlainBody(ip);
      send := send.(ccount := (send.ccount + 1) % COUNTS);
      send := Rekey(cfg.crypto, send, false);
      var data := Rc4Apply(cfg.crypto, send.rc4, plain);
      send := send.(rc4 := Rc4(send.rc4.key, send.rc4.offset + |plain|));
      packet := MppeBody(send.ccount, data);
      SealedPlain(cfg.crypto, old(send), ip);
    }

    /** sstp_pppd_send_ip, in the clear or encrypted. */
    method SendIp(ip: seq<byte>) returns (status: Status)
      requires Valid()
      modifies this`send, tx, tx.nodes
      ensures Valid() && fresh(tx.nodes - old(tx.nodes)) && old(tx.nodes) <= tx.nodes
      ensures Did(Engine.SendIp(cfg.crypto, old(State()), ip), old(History()))
      ensures status == if 0 < |ip| <= PPP_MRU - 4 then SstpOkay else SstpFail
    {
      hide Extend, Join, Sent, Rc4Apply, NextSession, PutBe16;
      ghost var before, s := History(), State();
      ExtendJoin(before, Quiet(s), Quiet(s));
      if |ip| <= 0 || |ip| > PPP_MRU - 4 {
        return SstpFail;
      }
      if !mppeEnabled {
        status := SendFrame(PPP_PROTO_IP, ip);
        return;
      }
      var enc := SealIp(ip);
      status := SendFrame(PPP_PROTO_MPPE, enc);
    }
  }

  lemma SealedPlain(c: Crypto, h: Half, ip: seq<byte>)
    requires h.ccount < COUNTS
    ensures var (after, packet) := Seal(c, h, PutBe16(PPP_PROTO_IP) + ip); Sealed(c, h, after, [0x00, 0x21] + ip, packet)
  {
    hide Seal, Sealed;
    assert PutBe16(PPP_PROTO_IP) == [0x00, 0x21];
    SealOctets(c, h, [0x00, 0x21] + ip);
  }

  lemma ExtendIps(t: Trail, s: Ctl, ip: seq<byte>)
    ensures Extend(t, Out(s, [], [], [ip])) == t.(delivered := t.delivered + [ip])
  {
  }

  lemma WalkStep(s: seq<byte>, pos: nat, kind: byte, d: uint32)
    requires AtOption(s, pos)
    ensures var value := s[pos + 2..pos + s[pos + 1]];
      Last(Walk(s, pos), kind, d) ==
        Last(Walk(s, pos + s[pos + 1]), kind, if s[pos] == kind && s[pos + 1] == 6 then GetBe32(value) else d)
  {
  }

  lemma SentState(s: Ctl, proto: uint16, payload: seq<byte>)
    ensures Sent(s, proto, payload).s == s
  {
  }

  lemma ExtendEvent(t: Trail, s: Ctl, e: Event)
    ensures Extend(t, Out(s, [], [e], [])) == t.(events := t.events + [e])
  {
  }

  // The bodies the handlers write into their local arrays.

  method FrameBody(proto: uint16, payload: seq<byte>) returns (frame: seq<byte>)
    requires |payload| <= PPP_MRU
    ensures frame == Frame(proto, payload) && |frame| == 4 + |payload|
  {
    var a := new byte[PPP_MRU + 16];
    var field := PutBe16(proto);
    a[0], a[1], a[2], a[3] := 0xFF, 0x03, field[0], field[1];
    forall i | 0 <= i < |payload| {
      a[4 + i] := payload[i];
    }
    frame := a[..4 + |payload|];
    assert frame == [0xFF, 0x03] + field + payload;
  }

  method ReplyBody(code: byte, buf: seq<byte>, plen: nat, size: nat) returns (reply: seq<byte>)
    requires plen <= |buf| && plen <= size && 1 <= size
    ensures reply == Reply(code, buf, plen)
  {
    var ack := new byte[size];
    forall i | 0 <= i < plen {
      ack[i] := buf[i];
    }
    ack[0] := code;
    reply := ack[..plen];
  }

  method EchoBody(magic: uint32, buf: seq<byte>, plen: nat) returns (reply: seq<byte>)
    requires plen <= |buf| && plen <= 64
    ensures reply == EchoReply(magic, buf, plen)
  {
    hide PutBe32;
    var echo := new byte[64];
    forall i | 0 <= i < plen {
      echo[i] := buf[i];
    }
    echo[0] := FSM_ECHOREP;
    if plen >= 8 {
      Be32RoundTrip(magic);
      var field := PutBe32(magic);
      forall i | 0 <= i < 4 {
        echo[4 + i] := field[i];
      }
    }
    reply := echo[..plen];
  }

  method ValueBody(env: Env) returns (value: seq<byte>)
    ensures value == env.peerChallenge + [0, 0, 0, 0, 0, 0, 0, 0] + env.ntResponse + [0]
  {
    var a := new byte[49](_ => 0);
    forall i | 0 <= i < 16 {
      a[i] := env.peerChallenge[i];
    }
    forall i | 0 <= i < 24 {
      a[24 + i] := env.ntResponse[i];
    }
    a[48] := 0;
    value := a[..];
  }

  method ResponseBody(id: byte, env: Env, username: seq<byte>) returns (response: seq<byte>)
    ensures response == ChapResponse(id, env, username)
  {
    hide PutBe16;
    var value := ValueBody(env);
    var name := username[..Min(|username|, 200)];
    var resp := new byte[256];
    resp[0], resp[1], resp[4] := CHAP_RESPONSE, id, MSCHAP_VALUE_LEN;
    forall i | 0 <= i < 49 {
      resp[5 + i] := value[i];
    }
    forall i | 0 <= i < |name| {
      resp[54 + i] := name[i];
    }
    var off := 54 + |name|;
    var field := PutBe16(off);
    Be16Size(off);
    resp[2], resp[3] := field[0], field[1];
    response := resp[..off];
    assert response == [CHAP_RESPONSE, id] + field + [MSCHAP_VALUE_LEN] + value + name;
  }

  // The plaintext of an IP packet: the protocol field, and the packet.
  method PlainBody(ip: seq<byte>) returns (plain: seq<byte>)
    requires |ip| <= PPP_MRU - 4
    ensures plain == PutBe16(PPP_PROTO_IP) + ip
  {
    var a := new byte[PPP_MRU + 8];
    var proto := PutBe16(PPP_PROTO_IP);
    a[0], a[1] := proto[0], proto[1];
    forall i | 0 <= i < |ip| {
      a[2 + i] := ip[i];
    }
    plain := a[..2 + |ip|];
    assert plain == proto + ip;
  }

  // An MPPE packet: flushed and encrypted bits, the count, and the encrypted data.
  method MppeBody(ccount: nat, data: seq<byte>) returns (packet: seq<byte>)
    requires ccount < COUNTS && |data| <= PPP_MRU
    ensures packet == [0x90 + ccount / 0x100, ccount % 0x100] + data
  {
    var enc := new byte[PPP_MRU + 16];
    enc[0], enc[1] := 0x90 + ccount / 0x100, ccount % 0x100;
    forall i | 0 <= i < |data| {
      enc[2 + i] := data[i];
    }
    packet := enc[..2 + |data|];
  }

  method LcpConfreqBody(id: byte, magic: uint32) returns (payload: seq<byte>)
    ensures payload == Configure(FSM_CONFREQ, id,
      OptBytes(Opt(CI_MRU, PutBe16(PPP_MRU))) + OptBytes(Opt(CI_MAGIC, PutBe32(magic))))
  {
    hide PutBe32;
    Be32RoundTrip(magic);
    var body := new byte[64];
    body[0], body[1] := FSM_CONFREQ, id;
    var off := 4;
    off := PutOpt(body, off, CI_MRU, PutBe16(PPP_MRU));
    off := PutOpt(body, off, CI_MAGIC, PutBe32(magic));
    var length := PutBe16(off);
    body[2], body[3] := length[0], length[1];
    payload := body[..off];
  }

  method IpcpConfreqBody(id: byte, a: Addrs) returns (payload: seq<byte>)
    ensures payload == IpcpPayload(FSM_CONFREQ, id, a)
  {
    hide OptBytes, PutBe32, PutBe16;
    var body := new byte[64];
    body[0], body[1] := FSM_CONFREQ, id;
    var off := 4;
    OptionSizes(a);
    off := PutOpt(body, off, CI_ADDR, PutBe32(a.local));
    off := PutOpt(body, off, CI_MS_DNS1, PutBe32(a.dns1));
    off := PutOpt(body, off, CI_MS_DNS2, PutBe32(a.dns2));
    ghost var opts := body[4..off];
    assert opts == OptBytes(Opt(CI_ADDR, PutBe32(a.local))) + OptBytes(Opt(CI_MS_DNS1, PutBe32(a.dns1)))
      + OptBytes(Opt(CI_MS_DNS2, PutBe32(a.dns2)));
    var length := PutBe16(off);
    Be16Size(off);
    body[2], body[3] := length[0], length[1];
    payload := body[..off];
    assert payload == [FSM_CONFREQ, id] + length + opts;
  }

  method CcpConfreqBody(id: byte) returns (payload: seq<byte>)
    ensures payload == Configure(FSM_CONFREQ, id, OptBytes(Opt(CI_MPPC, [0x01, 0x00, 0x00, 0x40])))
  {
    var body := new byte[32];
    body[0], body[1] := FSM_CONFREQ, id;
    var off := 4;
    off := PutOpt(body, off, CI_MPPC, [0x01, 0x00, 0x00, 0x40]);
    var length := PutBe16(off);
    body[2], body[3] := length[0], length[1];
    payload := body[..off];
  }

  lemma OptionSizes(a: Addrs)
    ensures |PutBe32(a.local)| == |PutBe32(a.dns1)| == |PutBe32(a.dns2)| == 4
    ensures |OptBytes(Opt(CI_ADDR, PutBe32(a.local)))| == 6
    ensures |OptBytes(Opt(CI_MS_DNS1, PutBe32(a.dns1)))| == 6
    ensures |OptBytes(Opt(CI_MS_DNS2, PutBe32(a.dns2)))| == 6
  {
  }
}
