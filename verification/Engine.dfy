/** What the in-process PPP engine does with one packet (ios-pppd.c), as functions of its state: the
    new state, the frames it queues, the notifications it gives and the IP packets it delivers. The
    class in Pppd.dfy carries these out in place. */
module Engine {
  import opened Bytes
  import opened Mppe
  import opened PppOptions

  const PPP_PROTO_LCP: uint16 := 0xc021
  const PPP_PROTO_CHAP: uint16 := 0xc223
  const PPP_PROTO_IPCP: uint16 := 0x8021
  const PPP_PROTO_CCP: uint16 := 0x80fd
  const PPP_PROTO_MPPE: uint16 := 0x003d
  const PPP_PROTO_IP: uint16 := 0x0021
  const PPP_MRU: nat := 1400

  const FSM_CONFREQ: byte := 1
  const FSM_CONFACK: byte := 2
  const FSM_CONFNAK: byte := 3
  const FSM_CONFREJ: byte := 4
  const FSM_TERMREQ: byte := 5
  const FSM_TERMACK: byte := 6
  const FSM_ECHOREQ: byte := 9
  const FSM_ECHOREP: byte := 10

  const CHAP_CHALLENGE: byte := 1
  const CHAP_RESPONSE: byte := 2
  const CHAP_SUCCESS: byte := 3
  const CHAP_FAILURE: byte := 4
  const MSCHAP_VALUE_LEN: byte := 49

  const CI_MRU: byte := 1
  const CI_MAGIC: byte := 5
  const CI_ADDR: byte := 3
  const CI_MS_DNS1: byte := 129
  const CI_MS_DNS2: byte := 131
  const CI_MPPC: byte := 18

  /** The notifications; SSTP_PPP_UP carries the state its receiver gets to see. */
  datatype Event = PppUp(seen: Ctl) | PppDown | PppAuth | PppAuthFail

  datatype Keys = NoKeys | Keys(send: seq<byte>, recv: seq<byte>)

  /** What lies outside the engine: the account name and the cryptographic primitives. */
  datatype Config = Config(username: seq<byte>, crypto: Crypto)

  type Challenge = s: seq<byte> | |s| == 16 witness seq(16, _ => 0)
  type Response = s: seq<byte> | |s| == 24 witness seq(24, _ => 0)

  /** What the outside world supplies while one packet is handled: the random peer challenge, the NT
      response computed from it, and the MPPE keys that the owner derives when told of SSTP_PPP_AUTH. */
  datatype Env = Env(peerChallenge: Challenge, ntResponse: Response, derived: Keys)

  datatype Ids = Ids(lcp: byte, chap: byte, ipcp: byte, ccp: byte, magic: uint32)

  datatype Flags = Flags(
    lcpOpened: bool, authDone: bool, ipConfigured: bool, ccpDone: bool,
    mppeEnabled: bool, mppeKeysSet: bool, upNotified: bool)

  datatype Addrs = Addrs(local: uint32, peer: uint32, dns1: uint32, dns2: uint32)

  datatype Ctl = Ctl(ids: Ids, flags: Flags, addrs: Addrs, send: Half, recv: Half, recvBytes: nat)

  datatype Out = Out(s: Ctl, frames: seq<seq<byte>>, events: seq<Event>, ips: seq<seq<byte>>)

  function Quiet(s: Ctl): Out {
    Out(s, [], [], [])
  }

  function Join(o: Out, p: Out): Out {
    Out(p.s, o.frames + p.frames, o.events + p.events, o.ips + p.ips)
  }

  // First `o`, then what its state leads to.
  function Then(o: Out, next: Ctl -> Out): Out {
    Join(o, next(o.s))
  }

  function Min(a: nat, b: nat): nat {
    if a < b then a else b
  }

  // ----- frames -----

  // ppp_send_frame: address, control, protocol, payload; nothing is sent beyond the MRU.
  function Frame(proto: uint16, payload: seq<byte>): seq<byte> {
    [0xFF, 0x03] + PutBe16(proto) + payload
  }

  function Sent(s: Ctl, proto: uint16, payload: seq<byte>): Out {
    Out(s, if |payload| <= PPP_MRU then [Frame(proto, payload)] else [], [], [])
  }

  function Next(id: byte): byte {
    (id + 1) % 0x100
  }

  function Configure(code: byte, id: byte, opts: seq<byte>): seq<byte>
    requires |opts| <= 64
  {
    [code, id] + PutBe16(4 + |opts|) + opts
  }

  // send_lcp_confreq
  function LcpRequest(s: Ctl): Out {
    var t := s.(ids := s.ids.(lcp := Next(s.ids.lcp)));
    Sent(t, PPP_PROTO_LCP, Configure(FSM_CONFREQ, t.ids.lcp,
      OptBytes(Opt(CI_MRU, PutBe16(PPP_MRU))) + OptBytes(Opt(CI_MAGIC, PutBe32(s.ids.magic)))))
  }

  function IpcpOptions(a: Addrs): seq<Opt> {
    [Opt(CI_ADDR, PutBe32(a.local)), Opt(CI_MS_DNS1, PutBe32(a.dns1)), Opt(CI_MS_DNS2, PutBe32(a.dns2))]
  }

  function IpcpPayload(code: byte, id: byte, a: Addrs): seq<byte> {
    Configure(code, id,
      OptBytes(Opt(CI_ADDR, PutBe32(a.local))) + OptBytes(Opt(CI_MS_DNS1, PutBe32(a.dns1)))
        + OptBytes(Opt(CI_MS_DNS2, PutBe32(a.dns2))))
  }

  // send_ipcp_confreq
  function IpcpRequest(s: Ctl): Out {
    var t := s.(ids := s.ids.(ipcp := Next(s.ids.ipcp)));
    Sent(t, PPP_PROTO_IPCP, IpcpPayload(FSM_CONFREQ, t.ids.ipcp, s.addrs))
  }

  // send_ccp_confreq: stateless, 128 bit
  function CcpRequest(s: Ctl): Out {
    var t := s.(ids := s.ids.(ccp := Next(s.ids.ccp)));
    Sent(t, PPP_PROTO_CCP, Configure(FSM_CONFREQ, t.ids.ccp, OptBytes(Opt(CI_MPPC, [0x01, 0x00, 0x00, 0x40]))))
  }

  // ----- finishing -----

  // maybe_notify_up
  function MaybeNotifyUp(s: Ctl): Out {
    if s.flags.upNotified || !s.flags.ipConfigured || s.addrs.local == 0 || !s.flags.ccpDone then Quiet(s)
    else var t := s.(flags := s.flags.(upNotified := true)); Out(t, [], [PppUp(t)], [])
  }

  // ccp_finished
  function CcpFinished(s: Ctl): Out {
    if s.flags.ccpDone then MaybeNotifyUp(s)
    else
      var t := s.(flags := s.flags.(ccpDone := true));
      Then(if t.flags.authDone then IpcpRequest(t) else Quiet(t), MaybeNotifyUp)
  }

  // mppe_init_keys
  function MppeInitKeys(c: Crypto, s: Ctl): Ctl {
    if !s.flags.mppeKeysSet then s
    else s.(send := InitHalf(c, s.send), recv := InitHalf(c, s.recv), flags := s.flags.(mppeEnabled := true))
  }

  // ----- the handlers -----

  // The length the packet claims, cut to what is there.
  function PacketLength(buf: seq<byte>): (n: nat)
    requires |buf| >= 4
    ensures n <= |buf|
  {
    Min(GetBe16(buf[2..]), |buf|)
  }

  // A copy of the packet under another code.
  function Reply(code: byte, buf: seq<byte>, plen: nat): seq<byte>
    requires plen <= |buf|
  {
    if plen == 0 then [] else [code] + buf[1..plen]
  }

  function HandleLcp(s: Ctl, buf: seq<byte>): Out {
    if |buf| < 4 then Quiet(s)
    else
      var code, plen := buf[0], PacketLength(buf);
      if code == FSM_CONFREQ then
        if plen > 256 then Quiet(s)
        else Then(Sent(s, PPP_PROTO_LCP, Reply(FSM_CONFACK, buf, plen)),
                  (t: Ctl) => if t.flags.lcpOpened then Quiet(t) else LcpRequest(t))
      else if code == FSM_CONFACK then Quiet(s.(flags := s.flags.(lcpOpened := true)))
      else if code == FSM_CONFNAK || code == FSM_CONFREJ then LcpRequest(s)
      else if code == FSM_TERMREQ then
        Then(Sent(s, PPP_PROTO_LCP, [FSM_TERMACK, buf[1], 0, 4]), (t: Ctl) => Out(t, [], [PppDown], []))
      else if code == FSM_ECHOREQ then
        if plen > 64 then Quiet(s) else Sent(s, PPP_PROTO_LCP, EchoReply(s.ids.magic, buf, plen))
      else Quiet(s)
  }

  function EchoReply(magic: uint32, buf: seq<byte>, plen: nat): seq<byte>
    requires plen <= |buf|
  {
    if plen < 8 then Reply(FSM_ECHOREP, buf, plen)
    else [FSM_ECHOREP] + buf[1..4] + PutBe32(magic) + buf[8..plen]
  }

  function ChapResponse(id: byte, env: Env, username: seq<byte>): seq<byte> {
    var name := username[..Min(|username|, 200)];
    var value := env.peerChallenge + [0, 0, 0, 0, 0, 0, 0, 0] + env.ntResponse + [0];
    [CHAP_RESPONSE, id] + PutBe16((5 + |value| + |name|) % 0x1_0000) + [MSCHAP_VALUE_LEN] + value + name
  }

  // sstp_pppd_set_mppe_keys, called back while SSTP_PPP_AUTH is notified.
  function SetKeys(s: Ctl, keys: Keys): Ctl {
    match keys
    case NoKeys => s
    case Keys(send, recv) =>
      s.(send := s.send.(master := send), recv := s.recv.(master := recv), flags := s.flags.(mppeKeysSet := true))
  }

  // The response to a challenge, and the notification that makes the owner derive the keys.
  function AnswerChallenge(cfg: Config, s: Ctl, env: Env): Out {
    Then(Sent(s, PPP_PROTO_CHAP, ChapResponse(s.ids.chap, env, cfg.username)),
         (t: Ctl) => Out(SetKeys(t, env.derived), [], [PppAuth], []))
  }

  function HandleChap(cfg: Config, s: Ctl, buf: seq<byte>, env: Env): Out {
    if |buf| < 5 then Quiet(s)
    else
      var code, id, vsize := buf[0], buf[1], buf[4];
      if code == CHAP_SUCCESS then CcpRequest(s.(flags := s.flags.(authDone := true)))
      else if code == CHAP_FAILURE then Out(s, [], [PppAuthFail], [])
      else if code != CHAP_CHALLENGE || vsize < 16 || |buf| - 5 < vsize then Quiet(s)
      else AnswerChallenge(cfg, s.(ids := s.ids.(chap := id)), env)
  }

  function WithAddresses(s: Ctl, opts: seq<Opt>): Ctl {
    s.(addrs := Addrs(Last(opts, CI_ADDR, s.addrs.local), s.addrs.peer,
                      Last(opts, CI_MS_DNS1, s.addrs.dns1), Last(opts, CI_MS_DNS2, s.addrs.dns2)))
  }

  // Some servers skip CCP: IPCP after authentication ends the wait for it.
  function IpcpEntry(s: Ctl): Out {
    if !s.flags.ccpDone && s.flags.authDone then CcpFinished(s.(flags := s.flags.(mppeEnabled := false))) else Quiet(s)
  }

  function IpcpBody(s: Ctl, buf: seq<byte>): Out
    requires |buf| >= 4
  {
    var code, plen := buf[0], PacketLength(buf);
    var opts := Walk(buf[..plen], 4);
    if code == FSM_CONFREQ then
      var t := s.(addrs := s.addrs.(peer := Last(opts, CI_ADDR, s.addrs.peer)));
      if plen > 128 then Quiet(t) else Sent(t, PPP_PROTO_IPCP, Reply(FSM_CONFACK, buf, plen))
    else if code == FSM_CONFACK then
      var t := WithAddresses(s, opts);
      if t.addrs.local == 0 then Quiet(t) else MaybeNotifyUp(t.(flags := t.flags.(ipConfigured := true)))
    else if code == FSM_CONFNAK then IpcpRequest(WithAddresses(s, opts))
    else Quiet(s)
  }

  function HandleIpcp(s: Ctl, buf: seq<byte>): Out {
    if |buf| < 4 then Quiet(s) else Then(IpcpEntry(s), (t: Ctl) => IpcpBody(t, buf))
  }

  function CcpRequested(c: Crypto, s: Ctl, buf: seq<byte>, plen: nat): Out
    requires plen <= |buf|
  {
    Then(Sent(s, PPP_PROTO_CCP, Reply(FSM_CONFACK, buf, plen)), (t: Ctl) => CcpFinished(MppeInitKeys(c, t)))
  }

  function HandleCcp(c: Crypto, s: Ctl, buf: seq<byte>): Out {
    if |buf| < 4 then Quiet(s)
    else
      var code, plen := buf[0], PacketLength(buf);
      if code == FSM_CONFREQ then
        if plen > 64 then Quiet(s) else CcpRequested(c, s, buf, plen)
      else if code == FSM_CONFACK then CcpFinished(MppeInitKeys(c, s))
      else if code == FSM_CONFREJ || code == FSM_CONFNAK then CcpFinished(s.(flags := s.flags.(mppeEnabled := false)))
      else Quiet(s)
  }

  // A protocol field, compressed to one octet if that octet is odd.
  function SplitProtocol(p: seq<byte>): (uint16, seq<byte>)
    requires |p| >= 1 && (p[0] % 2 == 0 ==> |p| >= 2)
  {
    if p[0] % 2 == 1 then (p[0] as uint16, p[1..]) else (GetBe16(p), p[2..])
  }

  // What comes of a decrypted packet.
  function OpenedOut(s: Ctl, plain: seq<byte>): Out
    requires plain != []
  {
    if plain[0] % 2 == 0 && |plain| < 2 then Quiet(s)
    else
      var (proto, ip) := SplitProtocol(plain);
      if proto == PPP_PROTO_IP && |ip| > 0 then Out(s.(recvBytes := s.recvBytes + |ip|), [], [], [ip]) else Quiet(s)
  }

  function HandleMppe(c: Crypto, s: Ctl, buf: seq<byte>): Out
    requires s.recv.ccount < COUNTS
  {
    if |buf| < 3 || !s.flags.mppeEnabled then Quiet(s)
    else
      var (recv, plain) := Open(c, s.recv, buf);
      OpenedOut(s.(recv := recv), plain)
  }

  // ppp_dispatch up to the switch: the protocol and what follows it, or nothing.
  function Unframe(frame: seq<byte>): seq<(uint16, seq<byte>)> {
    if |frame| < 3 then []
    else
      var p := if frame[0] == 0xFF && frame[1] == 0x03 then frame[2..] else frame;
      if |p| < 2 then [] else [SplitProtocol(p)]
  }

  // ppp_dispatch
  function Dispatch(cfg: Config, s: Ctl, frame: seq<byte>, env: Env): Out
    requires s.recv.ccount < COUNTS
  {
    if Unframe(frame) == [] then Quiet(s)
    else
      var (proto, p) := Unframe(frame)[0];
      if proto == PPP_PROTO_LCP then HandleLcp(s, p)
      else if proto == PPP_PROTO_CHAP then HandleChap(cfg, s, p, env)
      else if proto == PPP_PROTO_IPCP then HandleIpcp(s, p)
      else if proto == PPP_PROTO_CCP then HandleCcp(cfg.crypto, s, p)
      else if proto == PPP_PROTO_MPPE then HandleMppe(cfg.crypto, s, p)
      else if proto == PPP_PROTO_IP then Out(s.(recvBytes := s.recvBytes + |p|), [], [], [p])
      else Quiet(s)
  }

  // ppp_send_ip_plain_or_mppe
  function SendIp(c: Crypto, s: Ctl, ip: seq<byte>): Out
    requires s.send.ccount < COUNTS
  {
    if ip == [] || |ip| > PPP_MRU - 4 then Quiet(s)
    else if !s.flags.mppeEnabled then Sent(s, PPP_PROTO_IP, ip)
    else
      var (send, enc) := Seal(c, s.send, PutBe16(PPP_PROTO_IP) + ip);
      Sent(s.(send := send), PPP_PROTO_MPPE, enc)
  }

  // sstp_pppd_create
  function Created(magic: uint32): Ctl {
    var zero := seq(16, _ => 0);
    var none := Half(zero, zero, Rc4([], 0), 0);
    Ctl(Ids(0, 0, 0, 0, magic), Flags(false, false, false, false, false, false, false), Addrs(0, 0, 0, 0), none, none, 0)
  }
}
