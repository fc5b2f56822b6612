/** The streaming user of the HDLC codec (sstp-pppd.c): octets read from pppd in arbitrary chunks are
    cut into frames, and every frame goes to the server as one SSTP data packet. */
module HdlcStream {
  import opened Bytes
  import opened Common
  import opened Fcs
  import opened Hdlc
  import opened Packet

  // ----- the meaning of a stream of octets -----

  datatype Drained = Drained(payloads: seq<seq<byte>>, residue: seq<byte>)

  /** The frames found in `s`, in order, and the incomplete rest. A frame that fails its check is
      skipped up to its closing flag, which also opens the next frame. */
  function Drain(s: seq<byte>, max: nat): (r: Drained)
    decreases |s|
  {
    if s == [] then Drained([], [])
    else match Decode(s, false, max)
      case Overflow => Drained([], s)
      case Rejected(at, _) => Drain(s[at..], max)
      case Accepted(at, payload) =>
        var rest := Drain(s[at..], max);
        Drained([payload] + rest.payloads, rest.residue)
  }

  function After(payloads: seq<seq<byte>>, r: Drained): Drained {
    Drained(payloads + r.payloads, r.residue)
  }

  /** Chunking independence: draining a stream in two pieces, carrying the residue over, finds the same
      frames and the same residue as draining it at once. */
  lemma {:induction false} DrainAppend(s: seq<byte>, t: seq<byte>, max: nat)
    ensures var d := Drain(s, max);
      Drain(s + t, max) == After(d.payloads, Drain(d.residue + t, max))
    decreases |s|
  {
    hide Decode;
    if s == [] {
      assert s + t == t;
    } else {
      match Decode(s, false, max)
      case Overflow =>
      case Rejected(at, _) =>
        DecodeExtend(s, t, false, max);
        assert (s + t)[at..] == s[at..] + t;
        DrainAppend(s[at..], t, max);
      case Accepted(at, payload) =>
        DecodeExtend(s, t, false, max);
        assert (s + t)[at..] == s[at..] + t;
        DrainAppend(s[at..], t, max);
    }
  }

  lemma {:induction false} DrainResidue(s: seq<byte>, max: nat)
    ensures var d := Drain(s, max); Drain(d.residue, max) == Drained([], d.residue)
    decreases |s|
  {
    hide Decode;
    if s != [] {
      match Decode(s, false, max)
      case Overflow =>
      case Rejected(at, _) => DrainResidue(s[at..], max);
      case Accepted(at, _) => DrainResidue(s[at..], max);
    }
  }

  // ----- streams of encoded frames -----

  function EncodedAll(payloads: seq<seq<byte>>): seq<byte> {
    if payloads == [] then [] else Encoded(payloads[0]) + EncodedAll(payloads[1..])
  }

  ghost predicate Fits(payload: seq<byte>, max: nat) {
    2 <= |payload| && |payload| + 2 <= max
  }

  /** A stream of encoded frames drains to exactly the payloads encoded; only a closing flag is left. */
  lemma {:induction false} DrainEncoded(flags: seq<byte>, payloads: seq<seq<byte>>, max: nat)
    requires AllFlags(flags) && forall p :: p in payloads ==> Fits(p, max)
    ensures var d := Drain(flags + EncodedAll(payloads), max);
      d.payloads == payloads && d.residue == if payloads == [] then flags else [HDLC_FLAG]
    decreases payloads
  {
    hide Decode, Encoded, Drain;
    if payloads == [] {
      assert flags + EncodedAll(payloads) == flags;
      DrainFlags(flags, max);
    } else {
      var p, rest := payloads[0], EncodedAll(payloads[1..]);
      assert p in payloads;
      var s := flags + EncodedAll(payloads);
      assert s == flags + Encoded(p) + rest;
      RoundTrip(flags, p, rest, false, max);
      EncodedEnd(p);
      var at := |flags| + |Encoded(p)| - 1;
      assert s[at..] == [HDLC_FLAG] + rest;
      DrainAccepted(s, at, p, max);
      DrainEncoded([HDLC_FLAG], payloads[1..], max);
    }
  }

  lemma DrainAccepted(s: seq<byte>, at: nat, payload: seq<byte>, max: nat)
    requires at <= |s| && Decode(s, false, max) == Accepted(at, payload)
    ensures Drain(s, max) == After([payload], Drain(s[at..], max))
  {
    hide Decode;
  }

  lemma EncodedEnd(p: seq<byte>)
    ensures |Encoded(p)| >= 2 && Encoded(p)[|Encoded(p)| - 1] == HDLC_FLAG
  {
  }

  lemma DrainFlags(flags: seq<byte>, max: nat)
    requires AllFlags(flags)
    ensures Drain(flags, max) == Drained([], flags)
  {
    if flags != [] {
      assert SkipFlags(flags) == |flags|;
    }
  }

  /** A strict prefix of a frame yields nothing and is kept whole. */
  lemma DrainPrefix(flags: seq<byte>, payload: seq<byte>, prefix: seq<byte>, max: nat)
    requires AllFlags(flags) && Fits(payload, max) && prefix < flags + Encoded(payload)
    ensures Drain(prefix, max) == Drained([], prefix)
  {
    PrefixOverflows(flags, payload, prefix, max);
  }

  /** A frame corrupted within two adjacent octets of its content is dropped, and what follows its
      closing flag is drained as if the frame had not been there. */
  lemma DrainCorrupt(s: seq<byte>, t: seq<byte>, payload: seq<byte>, k: nat, max: nat)
    requires var scan := ScanBody(s, SkipFlags(s), false);
      var body := Body(payload);
      scan.Closed? && scan.at == |s| - 1 && |scan.content| == |body| <= max && k < |body| && scan.content[k] != body[k] &&
      forall i :: 0 <= i < |body| && i != k && i != k + 1 ==> scan.content[i] == body[i]
    ensures Drain(s + t, max) == Drain([HDLC_FLAG] + t, max)
  {
    hide Decode, Body;
    CorruptionRejected(s, false, max, payload, k);
    DecodeExtend(s, t, false, max);
    assert (s + t)[|s| - 1..] == [HDLC_FLAG] + t;
  }

  // ----- the loop of the source -----

  /** The octet behind the live ones is a left-over flag, and the incomplete frame passes its check. */
  ghost predicate Premature(residue: seq<byte>, flagBehind: bool, max: nat) {
    flagBehind && Decode(residue, true, max).Accepted?
  }

  /** One turn of the loop, including the look at the octet behind the live ones. */
  lemma DrainStep(live: seq<byte>, flagBehind: bool, max: nat)
    requires live != []
    ensures var r := Decode(live, flagBehind, max);
      var d := Drain(live, max);
      && (r.Overflow? || (r.Rejected? && r.at == |live|) ==> d == Drained([], live))
      && (r.Rejected? && r.at < |live| ==> d == Drain(live[r.at..], max))
      && (r.Accepted? && r.at < |live| ==> d == After([r.payload], Drain(live[r.at..], max)))
      && (r.Accepted? && r.at == |live| ==>
            flagBehind && d == Drained([], live) && Drain(live + [HDLC_FLAG], max) == Drained([r.payload], [HDLC_FLAG]))
  {
    hide Decode;
    DecodeFlagBehind(live, max);
    DrainFlags([HDLC_FLAG], max);
    var s := live + [HDLC_FLAG];
    assert s[|live|..] == [HDLC_FLAG];
  }

  // `emitted`, and whatever is still to be found in `live`, is what the octets received so far contain.
  ghost predicate Covers(received: seq<byte>, emitted: seq<seq<byte>>, live: seq<byte>, max: nat) {
    Drain(received, max) == After(emitted, Drain(live, max))
  }

  /** One payload more has been emitted than the octets received contain: that of the frame which a flag
      would close, were it received next. */
  ghost predicate Ahead(received: seq<byte>, emitted: seq<seq<byte>>, max: nat) {
    emitted != [] && Drain(received, max).payloads == emitted[..|emitted| - 1] &&
    Drain(received + [HDLC_FLAG], max) == Drained(emitted, [HDLC_FLAG])
  }

  lemma CoversStep(received: seq<byte>, emitted: seq<seq<byte>>, live: seq<byte>, flagBehind: bool, max: nat)
    requires Covers(received, emitted, live, max) && live != []
    ensures var r := Decode(live, flagBehind, max);
      var residue := Drain(received, max).residue;
      && (r.Overflow? || (r.Rejected? && r.at == |live|) ==> residue == live)
      && (r.Rejected? && r.at < |live| ==> Covers(received, emitted, live[r.at..], max))
      && (r.Accepted? && r.at < |live| ==> Covers(received, emitted + [r.payload], live[r.at..], max))
      && (r.Accepted? && r.at == |live| ==> flagBehind && residue == live && Ahead(received, emitted + [r.payload], max))
  {
    hide Decode, Drain;
    DrainStep(live, flagBehind, max);
    var r := Decode(live, flagBehind, max);
    if r.Accepted? {
      if r.at < |live| {
        var d := Drain(live[r.at..], max);
        assert emitted + ([r.payload] + d.payloads) == emitted + [r.payload] + d.payloads;
      } else {
        DrainAppend(received, [HDLC_FLAG], max);
        assert emitted + [] == emitted && (emitted + [r.payload])[..|emitted|] == emitted;
      }
    }
  }

  lemma DrainNone(max: nat)
    ensures Drain([], max) == Drained([], []) && Covers([], [], [], max)
    ensures !Premature([], true, max) && !Premature([], false, max)
  {
  }

  // An incomplete frame stays incomplete until a flag arrives.
  lemma DrainOpen(s: seq<byte>, x: byte, max: nat)
    requires Drain(s, max) == Drained([], s) && x != HDLC_FLAG
    ensures Drain(s + [x], max).payloads == []
  {
    hide Decode;
    if s == [] {
      assert s + [x] == [x];
    } else {
      DrainOverflows(s, max);
    }
    DecodeNoFlag(s, x, max);
  }

  lemma DrainOverflows(s: seq<byte>, max: nat)
    requires Drain(s, max) == Drained([], s) && s != []
    ensures Decode(s, false, max).Overflow?
  {
    hide Decode;
    match Decode(s, false, max)
    case Overflow =>
    case Rejected(at, _) => DrainShorter(s[at..], max);
    case Accepted(at, _) =>
  }

  lemma {:induction false} DrainShorter(s: seq<byte>, max: nat)
    ensures |Drain(s, max).residue| <= |s|
    decreases |s|
  {
    hide Decode;
    if s != [] {
      match Decode(s, false, max)
      case Overflow =>
      case Rejected(at, _) => DrainShorter(s[at..], max);
      case Accepted(at, _) => DrainShorter(s[at..], max);
    }
  }

  /** Having run ahead does no harm if and only if the octet received next is a flag; if it is not, a
      payload has been emitted that the octets received do not contain. */
  lemma AheadIff(received: seq<byte>, emitted: seq<seq<byte>>, x: byte, max: nat)
    requires Ahead(received, emitted, max)
    ensures Covers(received + [x], emitted, [x], max) <==> x == HDLC_FLAG
    ensures x != HDLC_FLAG ==> Drain(received + [x], max).payloads == emitted[..|emitted| - 1]
  {
    hide Drain;
    if x == HDLC_FLAG {
      AheadNext(received, emitted, [x], max);
    } else {
      var s := Drain(received, max).residue;
      DrainAppend(received, [x], max);
      DrainResidue(received, max);
      DrainOpen(s, x, max);
      assert emitted[..|emitted| - 1] + [] == emitted[..|emitted| - 1];
    }
  }

  lemma AheadNext(received: seq<byte>, emitted: seq<seq<byte>>, chunk: seq<byte>, max: nat)
    requires Ahead(received, emitted, max) && chunk != [] && chunk[0] == HDLC_FLAG
    ensures Covers(received + chunk, emitted, chunk, max)
  {
    hide Drain;
    DrainAppend(received + [HDLC_FLAG], chunk[1..], max);
    assert received + [HDLC_FLAG] + chunk[1..] == received + chunk && [HDLC_FLAG] + chunk[1..] == chunk;
  }

  // ----- a frame that is emitted too early -----

  // An encoding, behind flags, without its closing flag.
  lemma OpenEncoding(flags: seq<byte>, payload: seq<byte>, max: nat)
    requires AllFlags(flags) && Fits(payload, max)
    ensures var live := flags + [HDLC_FLAG] + Stuff(Body(payload));
      live + [HDLC_FLAG] == flags + Encoded(payload) && Decode(live, false, max) == Overflow &&
      Decode(live, true, max) == Decode(live + [HDLC_FLAG], false, max) == Accepted(|live|, payload)
  {
    hide Stuff, Body, Decode;
    var live := flags + [HDLC_FLAG] + Stuff(Body(payload));
    assert flags + Encoded(payload) + [] == flags + Encoded(payload) == live + [HDLC_FLAG];
    RoundTrip(flags, payload, [], false, max);
    PrefixOverflows(flags, payload, live, max);
    DecodeFlagBehind(live, max);
  }

  lemma LongerEncoding(payload: seq<byte>, more: seq<byte>)
    ensures var live := [HDLC_FLAG] + Stuff(Body(payload));
      var whole := Encoded(Body(payload) + more);
      |live| < |whole| && whole[..|live|] == live && whole[|live|] != HDLC_FLAG
  {
    hide Stuff, Body;
    var a, b := Body(payload), more + FcsField(Body(payload) + more);
    BodySplit(payload, more);
    StuffAppend(a, b);
    StuffFirst(b);
    assert Encoded(a + more) == [HDLC_FLAG] + Stuff(a) + Stuff(b) + [HDLC_FLAG];
  }

  lemma BodySplit(payload: seq<byte>, more: seq<byte>)
    ensures Body(Body(payload) + more) == Body(payload) + (more + FcsField(Body(payload) + more))
    ensures more + FcsField(Body(payload) + more) != []
  {
    hide Crc, LowByte, HighByte, Complement;
  }

  /** For every payload there are real frames to which this happens: those of the longer payloads that
      start with it and its check field. If a read ends right there over a left-over flag, the decoder
      accepts the shorter payload, though the octet to come is no flag and the frame contains only the
      longer one. */
  lemma PrematureFrame(payload: seq<byte>, more: seq<byte>, max: nat)
    requires Fits(payload, max) && Fits(Body(payload) + more, max)
    ensures var live := [HDLC_FLAG] + Stuff(Body(payload));
      var whole := Encoded(Body(payload) + more);
      && |live| < |whole| && whole[..|live|] == live && whole[|live|] != HDLC_FLAG
      && Decode(live, false, max) == Overflow && Decode(live, true, max) == Accepted(|live|, payload)
      && Drain(whole, max) == Drained([Body(payload) + more], [HDLC_FLAG])
  {
    hide Stuff, Body, Decode, Drain, Encoded;
    var live := [HDLC_FLAG] + Stuff(Body(payload));
    LongerEncoding(payload, more);
    OpenEncoding([], payload, max);
    assert [] + [HDLC_FLAG] + Stuff(Body(payload)) == live;
    var all := [Body(payload) + more];
    DrainEncoded([], all, max);
    EncodedOne(all[0]);
  }

  lemma EncodedOne(p: seq<byte>)
    ensures [] + EncodedAll([p]) == Encoded(p)
  {
    hide Encoded;
    assert [p][1..] == [];
    assert Encoded(p) + [] == Encoded(p);
  }

  // What memory holds after `chunk` has been stored at `at`.
  function Overlaid(before: seq<byte>, at: nat, chunk: seq<byte>): (after: seq<byte>)
    requires at + |chunk| <= |before|
    ensures |after| == |before|
  {
    before[..at] + chunk + before[at + |chunk|..]
  }

  class Pppd {
    const rx: Buff
    const tx: Buff
    var handed: seq<seq<byte>>           // the packets given to sstp_stream_send
    ghost var answers: seq<Status>       // what it answered to each
    ghost var emitted: seq<seq<byte>>    // their payloads
    ghost var received: seq<byte>        // every octet read so far
    ghost var early: bool                // the last payload was emitted before its closing flag arrived
    var down: bool                       // SSTP_PPP_DOWN has been notified

    ghost function Live(): seq<byte>
      reads this, rx, rx.data
      requires rx.Valid()
    {
      rx.data[rx.off..rx.len]
    }

    ghost function Room(): nat
      reads this
    {
      if tx.data.Length < HEADER_SIZE then 0 else tx.data.Length - HEADER_SIZE
    }

    ghost predicate Valid()
      reads this, rx, rx.data, tx
    {
      rx != tx && rx.data != tx.data && rx.Valid() && tx.Valid() &&
      handed == DataPackets(emitted) && |answers| == |handed| &&
      if early then Live() == [] && Ahead(received, emitted, Room()) else Covers(received, emitted, Live(), Room())
    }

    // Memory behind the live octets as the decoder needs it.
    ghost predicate Readable(stop: nat)
      reads rx, rx.data
    {
      rx.Valid() && rx.len <= stop && stop + 1 < rx.data.Length && rx.data[stop] != HDLC_FLAG
    }

    // The octets received end in an incomplete frame that passes its check, over a left-over flag.
    ghost predicate Tempted()
      reads this, rx, rx.data
    {
      rx.len < rx.data.Length && Premature(Drain(received, Room()).residue, rx.data[rx.len] == HDLC_FLAG, Room())
    }

    constructor (rxSize: nat, txSize: nat)
      ensures Valid() && fresh(rx) && fresh(tx) && received == [] && emitted == [] && !early && !down
      ensures rx.data.Length == rxSize && tx.data.Length == txSize && fresh(rx.data) && fresh(tx.data)
      ensures rx.len == rx.off == 0 && forall k :: 0 <= k < rxSize ==> rx.data[k] == 0
    {
      rx := new Buff(rxSize);
      tx := new Buff(txSize);
      handed, answers, emitted, received, early, down := [], [], [], [], false, false;
      new;
      DrainNone(Room());
    }

    // sstp_stream_send: takes the packet and may finish at once, later, or never. Only here packets and
    // answers are recorded.
    method StreamSend(packet: seq<byte>) returns (ret: Status)
      modifies this`handed, this`answers
      ensures handed == old(handed) + [packet] && answers == old(answers) + [ret]
    {
      ret := *;
      handed, answers := handed + [packet], answers + [ret];
    }

    /** Of the answers since `before` only the last one may be other than SSTP_OKAY; `blocked` says that it
        is. */
    ghost predicate StoppedAt(before: seq<Status>, blocked: bool)
      reads this
    {
      before <= answers &&
      (forall k :: |before| <= k < |answers| - 1 ==> answers[k] == SstpOkay) &&
      (blocked <==> |before| < |answers| && answers[|answers| - 1] != SstpOkay)
    }

    // memmove(rx->data, rx->data + rx->off, rx->len - rx->off), and the new bounds.
    method KeepRest()
      requires rx.Valid()
      modifies rx, rx.data
      ensures rx.Valid() && rx.off == 0 && Live() == old(Live())
      ensures forall k :: rx.len <= k < rx.data.Length ==> rx.data[k] == old(rx.data[k])
    {
      var n := rx.len - rx.off;
      ghost var live := Live();
      forall i | 0 <= i < n {
        rx.data[i] := rx.data[rx.off + i];
      }
      assert rx.data[..n] == live;
      rx.len := n;
      rx.off := 0;
    }

    // The part of the loop that copies a single frame into the send buffer, as a data packet.
    method CopyFrame(ghost stop: nat) returns (ret: Status, off: nat, ghost payload: seq<byte>)
      requires Valid() && Readable(stop) && rx.off < rx.len && tx.data.Length >= HEADER_SIZE
      requires tx.Contents() == DataPacket([])
      modifies tx, tx.data
      ensures Valid() && rx.data[..] == old(rx.data[..])
      ensures var r := Decode(Live(), rx.data[rx.len] == HDLC_FLAG, Room());
        && (r.Overflow? ==> ret == SstpOverflow && off == |Live()|)
        && (r.Rejected? ==> ret == SstpFail && off == r.at)
        && (r.Accepted? ==> ret == SstpOkay && off == r.at && payload == r.payload && tx.Contents() == DataPacket(payload))
    {
      hide Decode, Drain, Covers, Premature, DataPackets;
      var size;
      payload := [];
      ret, off, size := FrameDecode(rx.data, rx.off, rx.len - rx.off, tx.data, tx.len, tx.data.Length - tx.len, stop - rx.off);
      if ret != SstpOkay {
        return;
      }
      tx.len := tx.len + size;
      PktUpdate(tx);
      payload := tx.data[HEADER_SIZE..tx.len];
    }

    // One turn of the loop; `done` says that the loop ends here with `status`.
    method Turn(ghost stop: nat) returns (done: bool, status: Status)
      requires Valid() && Readable(stop) && rx.off < rx.len
      modifies this`handed, this`answers, this`emitted, this`early, rx, rx.data, tx, tx.data
      ensures Valid() && old(emitted) <= emitted
      ensures done && status == SstpOkay ==>
        !early && !old(Tempted()) && rx.off == 0 && Live() == Drain(received, Room()).residue
      ensures Readable(stop) && rx.len <= old(rx.len)
      ensures forall k :: rx.len <= k < rx.data.Length ==> rx.data[k] == old(rx.data[k])
      ensures !done || status == SstpInprog ==>
        Tempted() == old(Tempted()) && (early ==> Tempted()) && rx.len == old(rx.len) && old(rx.off) < rx.off &&
        rx.data[..] == old(rx.data[..])
      ensures done && status == SstpInprog ==> old(emitted) < emitted
      ensures done ==> status in {SstpOkay, SstpInprog, SstpFail}
      ensures StoppedAt(old(answers), done && status == SstpInprog)
      ensures done && status == SstpFail ==> tx.data.Length < HEADER_SIZE
    {
      hide Decode, Drain, Covers, Ahead, DataPackets, DataPacket;
      status := PktInit(tx, SSTP_MSG_DATA);
      if status != SstpOkay {
        return true, SstpFail;
      }
      ghost var live := Live();
      CoversStep(received, emitted, live, rx.data[rx.len] == HDLC_FLAG, Room());
      var ret, off, payload := CopyFrame(stop);
      assert live[off..] == rx.data[rx.off + off..rx.len];
      if ret != SstpOkay {
        if ret == SstpOverflow || rx.len == rx.off + off {
          KeepRest();
          return true, SstpOkay;
        }
        rx.off := rx.off + off;
        return false, SstpOkay;
      }
      rx.off := rx.off + off;
      early := rx.off == rx.len;
      done := HandOver(payload);
      status := if done then SstpInprog else SstpOkay;
    }

    // The packet goes to the stream; whatever the answer is but SSTP_OKAY, it has to be waited for.
    method HandOver(ghost payload: seq<byte>) returns (blocked: bool)
      requires tx.Valid() && tx.Contents() == DataPacket(payload)
      requires handed == DataPackets(emitted) && |answers| == |handed|
      modifies this`handed, this`answers, this`emitted
      ensures emitted == old(emitted) + [payload] && handed == DataPackets(emitted) && |answers| == |handed|
      ensures StoppedAt(old(answers), blocked) && |answers| == |old(answers)| + 1
    {
      hide DataPackets, DataPacket;
      DataPacketsSnoc(emitted, payload);
      emitted := emitted + [payload];
      var ret := StreamSend(tx.data[..tx.len]);
      blocked := ret != SstpOkay;
    }

    /** ppp_process_data: hands over frames until the stream blocks, and exactly then waits for it, or no
        complete frame is left. If the
        octets end in an incomplete frame that passes its check over a left-over flag, and only then, that
        frame is handed over early. */
    method ProcessData(ghost stop: nat) returns (status: Status)
      requires Valid() && Readable(stop)
      modifies this`handed, this`answers, this`emitted, this`early, rx, rx.data, tx, tx.data
      ensures Valid() && old(emitted) <= emitted
      ensures status == SstpOkay ==> early == (old(early) || old(Tempted())) && rx.off == 0
      ensures status == SstpOkay && !early ==> Live() == Drain(received, Room()).residue
      ensures Readable(stop) && rx.len <= old(rx.len)
      ensures forall k :: rx.len <= k < rx.data.Length ==> rx.data[k] == old(rx.data[k])
      ensures status == SstpInprog ==>
        old(emitted) < emitted && rx.len == old(rx.len) && old(rx.off) < rx.off && rx.data[..] == old(rx.data[..]) &&
        Tempted() == old(Tempted()) && (early ==> old(early) || Tempted())
      ensures status in {SstpOkay, SstpInprog, SstpFail} && StoppedAt(old(answers), status == SstpInprog)
      ensures status == SstpFail ==> tx.data.Length < HEADER_SIZE
    {
      hide Decode, Drain, Covers, Ahead, DataPackets, DataPacket, Premature;
      tx.Reset();
      while rx.off < rx.len
        invariant Valid() && Readable(stop) && old(emitted) <= emitted && Tempted() == old(Tempted())
        invariant if old(early) then early else early ==> Tempted()
        invariant rx.len == old(rx.len) && old(rx.off) <= rx.off && StoppedAt(old(answers), false)
        invariant rx.data[..] == old(rx.data[..])
        decreases rx.len - rx.off
      {
        var done;
        done, status := Turn(stop);
        if done {
          return status;
        }
      }
      assert Live() == [];
      if !early {
        DrainNone(Room());
        CoversResidue(received, emitted, [], Room());
      }
      if rx.off == rx.len {
        rx.Reset();
      }
      return SstpOkay;
    }

    // The octets that read puts behind the live ones.
    method Store(chunk: seq<byte>)
      requires rx.Valid() && rx.len + |chunk| <= rx.data.Length
      modifies rx`len, rx.data
      ensures rx.Valid() && rx.len == old(rx.len) + |chunk|
      ensures rx.data[..] == Overlaid(old(rx.data[..]), old(rx.len), chunk)
      ensures Live() == old(Live()) + chunk
    {
      forall i | 0 <= i < |chunk| {
        rx.data[rx.len + i] := chunk[i];
      }
      rx.len := rx.len + |chunk|;
    }

    // read(fd, rx->data + rx->len, ...), which gave `chunk`.
    method Append(chunk: seq<byte>)
      requires Valid() && rx.len + |chunk| <= rx.data.Length
      requires early && chunk != [] ==> chunk[0] == HDLC_FLAG
      modifies this`received, this`early, rx`len, rx.data
      ensures Valid() && received == old(received) + chunk && early == (old(early) && chunk == [])
      ensures rx.len == old(rx.len) + |chunk| && rx.off == old(rx.off)
      ensures rx.data[..] == Overlaid(old(rx.data[..]), old(rx.len), chunk)
    {
      hide Drain, Covers, Ahead, DataPackets, Overlaid;
      ghost var live := Live();
      Store(chunk);
      if chunk == [] {
        assert received + chunk == received && live + chunk == live;
      } else if early {
        AheadNext(received, emitted, chunk, Room());
        early := false;
        assert live + chunk == chunk;
      } else {
        CoversAppend(received, emitted, live, chunk, Room());
      }
      received := received + chunk;
    }

    /** sstp_pppd_recv, after a read of `chunk`: append it, then process. Nothing is asked of the octets,
        except that after a frame handed over early a flag comes next, without which (AheadIff) the
        payloads handed over are not those received. */
    method Recv(chunk: seq<byte>, ghost stop: nat) returns (status: Status)
      requires Valid() && Readable(stop) && rx.len + |chunk| <= stop
      requires early && chunk != [] ==> chunk[0] == HDLC_FLAG
      modifies this`handed, this`answers, this`emitted, this`received, this`early, this`down, rx, rx.data, tx, tx.data
      ensures Valid() && Readable(stop) && old(emitted) <= emitted && received == old(received) + chunk
      ensures down == (old(down) || (old(rx.len) == 0 && chunk == []))
      ensures rx.len <= old(rx.len) + |chunk|
      ensures forall k :: rx.len <= k < rx.data.Length ==> rx.data[k] == Overlaid(old(rx.data[..]), old(rx.len), chunk)[k]
      ensures status == SstpOkay ==>
        rx.off == 0 && early == ((old(early) && chunk == []) || Tempts(old(rx.data[..]), old(rx.len) + |chunk|))
      ensures status == SstpOkay && !early ==>
        emitted == Drain(received, Room()).payloads && Live() == Drain(received, Room()).residue
      ensures status == SstpInprog ==>
        old(emitted) < emitted && rx.len == old(rx.len) + |chunk| &&
        rx.data[..] == Overlaid(old(rx.data[..]), old(rx.len), chunk) && Tempted() == Tempts(old(rx.data[..]), rx.len) &&
        (early ==> (old(early) && chunk == []) || Tempted())
      ensures status in {SstpOkay, SstpInprog, SstpFail} && StoppedAt(old(answers), status == SstpInprog)
      ensures status == SstpFail ==> tx.data.Length < HEADER_SIZE || (old(rx.len) == 0 && chunk == [])
    {
      hide Decode, Drain, Covers, Ahead, Premature, DataPackets, DataPacket;
      Append(chunk);
      if rx.len <= 0 {
        down := true;
        return SstpFail;
      }
      status := ProcessData(stop);
      if status == SstpOkay && !early {
        CoversAll(received, emitted, Live(), Room());
      }
    }

    // Tempted, with the octet at `end` of what was there before.
    ghost predicate Tempts(before: seq<byte>, end: nat)
      reads this
    {
      end < |before| && Premature(Drain(received, Room()).residue, before[end] == HDLC_FLAG, Room())
    }

    /** sstp_pppd_send: a data packet for pppd, framed in a buffer of twice its size plus four. `out` is
        offered to pppd, which takes `taken` octets of it. */
    method SendToPppd(buf: array<byte>, len: nat, taken: int) returns (status: Status, out: seq<byte>)
      requires len <= buf.Length
      ensures out == if Escapes(Body(buf[..len])[..len + 1]) + 2 <= len + 1 then Encoded(buf[..len]) else []
      ensures status == if out != [] && taken == |out| then SstpOkay else SstpFail
    {
      hide Body, Encoded, RoomNeeded, Escapes;
      EncodedEnd(buf[..len]);
      var flen := 2 * len + 4;
      var frame := new byte[flen];
      CallerRoom(buf[..len]);
      var ret;
      ret, flen := FrameEncode(buf, len, frame, flen);
      if ret != SstpOkay {
        return SstpFail, [];
      }
      out := frame[..flen];
      if taken != flen {
        return SstpFail, out;
      }
      return SstpOkay, out;
    }

    /** ppp_send_complete: when the blocked packet is out, go on with the octets already read. */
    method SendComplete(ghost stop: nat) returns (status: Status)
      requires Valid() && Readable(stop)
      modifies this`handed, this`answers, this`emitted, this`early, rx, rx.data, tx, tx.data
      ensures Valid() && Readable(stop) && old(emitted) <= emitted && rx.len <= old(rx.len)
      ensures forall k :: rx.len <= k < rx.data.Length ==> rx.data[k] == old(rx.data[k])
      ensures status == SstpOkay ==> rx.off == 0 && early == (old(early) || old(Tempted()))
      ensures status == SstpOkay && !early ==>
        emitted == Drain(received, Room()).payloads && Live() == Drain(received, Room()).residue
      ensures status == SstpInprog ==>
        old(emitted) < emitted && rx.len == old(rx.len) && old(rx.off) < rx.off && rx.data[..] == old(rx.data[..]) &&
        Tempted() == old(Tempted()) && (early ==> old(early) || Tempted())
      ensures status in {SstpOkay, SstpInprog, SstpFail} && StoppedAt(old(answers), status == SstpInprog)
      ensures status == SstpFail ==> tx.data.Length < HEADER_SIZE
    {
      hide Decode, Drain, Covers, Ahead, Premature, DataPackets, DataPacket;
      status := ProcessData(stop);
      if status == SstpOkay && !early {
        CoversAll(received, emitted, Live(), Room());
      }
    }

    /** One read, and as many completions of the stream as it takes until the next read is asked for. */
    method ReadOne(chunk: seq<byte>, ghost stop: nat)
      requires Valid() && Readable(stop) && rx.len + |chunk| <= stop && tx.data.Length >= HEADER_SIZE
      requires chunk != [] && (early ==> chunk[0] == HDLC_FLAG)
      modifies this`handed, this`answers, this`emitted, this`received, this`early, this`down, rx, rx.data, tx, tx.data
      ensures Valid() && Readable(stop) && rx.off == 0 && received == old(received) + chunk && old(emitted) <= emitted
      ensures early == Tempts(old(rx.data[..]), old(rx.len) + |chunk|)
      ensures !early ==> emitted == Drain(received, Room()).payloads && Live() == Drain(received, Room()).residue
      ensures rx.len <= old(rx.len) + |chunk|
      ensures forall k :: rx.len <= k < rx.data.Length ==> rx.data[k] == Overlaid(old(rx.data[..]), old(rx.len), chunk)[k]
    {
      hide Decode, Drain, Covers, Ahead, Premature, DataPackets, DataPacket, Overlaid;
      ghost var memory, end := Overlaid(rx.data[..], rx.len, chunk), rx.len + |chunk|;
      var status := Recv(chunk, stop);
      while status == SstpInprog
        invariant Valid() && Readable(stop) && received == old(received) + chunk && old(emitted) <= emitted
        invariant status in {SstpOkay, SstpInprog} && rx.len <= end
        invariant forall k :: rx.len <= k < rx.data.Length ==> rx.data[k] == memory[k]
        invariant status == SstpInprog ==>
          rx.len == end && rx.data[..] == memory && Tempted() == Tempts(old(rx.data[..]), end) && (early ==> Tempted())
        invariant status == SstpOkay ==> rx.off == 0 && early == Tempts(old(rx.data[..]), end)
        invariant status == SstpOkay && !early ==>
          emitted == Drain(received, Room()).payloads && Live() == Drain(received, Room()).residue
        decreases status == SstpInprog, rx.len - rx.off
      {
        status := SendComplete(stop);
      }
    }

    // A read that ends here, over a left-over flag, would end in a frame that passes its check.
    ghost predicate Tempting(octets: seq<byte>)
      reads this
    {
      Decode(Drain(octets, Room()).residue, true, Room()).Accepted?
    }

    /** Any sequence of reads: as long as a flag comes next after every read but the last that ends in a
        frame which passes its check, the payloads handed over are those of all the octets; after the last
        read too, unless it is one of these itself and ended over a left-over flag. */
    method ReadAll(chunks: seq<seq<byte>>, ghost stop: nat)
      requires Valid() && Readable(stop) && received == [] && !early && rx.off == rx.len == 0 && tx.data.Length >= HEADER_SIZE
      requires forall i :: 0 <= i < |chunks| ==>
        chunks[i] != [] && |Drain(Joined(chunks[..i]), Room()).residue| + |chunks[i]| <= stop &&
        (i > 0 && Tempting(Joined(chunks[..i])) ==> chunks[i][0] == HDLC_FLAG)
      modifies this`handed, this`answers, this`emitted, this`received, this`early, this`down, rx, rx.data, tx, tx.data
      ensures Valid() && Readable(stop) && received == Joined(chunks)
      ensures early ==> Tempting(received)
      ensures !early ==> emitted == Drain(received, Room()).payloads && Live() == Drain(received, Room()).residue
    {
      hide Decode, Drain, Covers, Ahead, DataPackets, DataPacket, Overlaid;
      var i := 0;
      DrainNone(Room());
      CoversNone(emitted, Room());
      while i < |chunks|
        invariant 0 <= i <= |chunks| && Valid() && Readable(stop) && rx.off == 0 && received == Joined(chunks[..i])
        invariant early ==> i > 0 && Tempting(received)
        invariant !early ==> emitted == Drain(received, Room()).payloads && Live() == Drain(received, Room()).residue
      {
        assert chunks[..i + 1][..i] == chunks[..i];
        ReadOne(chunks[i], stop);
        i := i + 1;
      }
      assert chunks[..i] == chunks;
    }
  }

  function Joined(chunks: seq<seq<byte>>): seq<byte> {
    if chunks == [] then [] else Joined(chunks[..|chunks| - 1]) + chunks[|chunks| - 1]
  }

  lemma CoversNone(emitted: seq<seq<byte>>, max: nat)
    requires Covers([], emitted, [], max)
    ensures emitted == [] && Drain([], max) == Drained([], [])
  {
    assert emitted + [] == emitted;
  }

  /** From creation on: a stream of encoded frames, read in any pieces, reaches the server as exactly the
      payloads encoded, one data packet each, if a flag comes next after every read that ends in a frame
      which passes its check. */
  method Relay(chunks: seq<seq<byte>>, payloads: seq<seq<byte>>, rxSize: nat, txSize: nat) returns (pppd: Pppd)
    requires HEADER_SIZE <= txSize && 2 <= rxSize
    requires Joined(chunks) == EncodedAll(payloads) && forall p :: p in payloads ==> Fits(p, txSize - HEADER_SIZE)
    requires forall i :: 0 <= i < |chunks| ==>
      var residue := Drain(Joined(chunks[..i]), txSize - HEADER_SIZE).residue;
      chunks[i] != [] && |residue| + |chunks[i]| <= rxSize - 2 &&
      (i > 0 && Decode(residue, true, txSize - HEADER_SIZE).Accepted? ==> chunks[i][0] == HDLC_FLAG)
    ensures fresh(pppd) && pppd.Valid() && pppd.received == EncodedAll(payloads)
    ensures !pppd.early && pppd.emitted == payloads && pppd.handed == DataPackets(payloads)
  {
    hide Decode, Drain, Covers, Ahead, DataPackets, Encoded;
    pppd := new Pppd(rxSize, txSize);
    DrainEncoded([], payloads, pppd.Room());
    assert [] + EncodedAll(payloads) == EncodedAll(payloads);
    NoTemptation(pppd.Room());
    pppd.ReadAll(chunks, rxSize - 2);
  }

  /** A run that hands over a payload too early: behind a frame whose stuffed body is one octet longer,
      the read of a longer frame ends where its first octets are the encoding of `p` without the closing
      flag. Then `p` is handed over, though the octets contain only `q`, and go on to contain a longer
      payload instead. */
  method EarlyRun(q: seq<byte>, p: seq<byte>, more: seq<byte>, txSize: nat) returns (pppd: Pppd)
    requires HEADER_SIZE <= txSize && Fits(q, txSize - HEADER_SIZE)
    requires Fits(p, txSize - HEADER_SIZE) && Fits(Body(p) + more, txSize - HEADER_SIZE)
    requires |Stuff(Body(q))| == |Stuff(Body(p))| + 1
    ensures fresh(pppd) && pppd.Valid() && pppd.Room() == txSize - HEADER_SIZE
    ensures pppd.received < Encoded(q) + Encoded(Body(p) + more)
    ensures pppd.early && pppd.emitted == [q, p] && Drain(pppd.received, pppd.Room()).payloads == [q]
    ensures Drain(Encoded(q) + Encoded(Body(p) + more), pppd.Room()).payloads == [q, Body(p) + more]
  {
    hide Decode, Drain, Covers, DataPackets, Body, Stuff, Encoded;
    var max := txSize - HEADER_SIZE;
    var first, second := Encoded(q), [HDLC_FLAG] + Stuff(Body(p));
    var rxSize := |first| + |second| + 2;
    EarlyStream(q, p, more, max);
    EncodedFlags(q);
    pppd := new Pppd(rxSize, txSize);
    assert [] + first == first;
    pppd.ReadOne(first, rxSize - 2);
    ghost var memory := pppd.rx.data[..];
    assert pppd.Live() == [HDLC_FLAG] && pppd.rx.len == 1;
    assert memory[1 + |second|] == first[1 + |second|];
    pppd.ReadOne(second, rxSize - 2);
    assert pppd.received == first + second;
  }

  lemma EncodedFlags(q: seq<byte>)
    ensures |Encoded(q)| == |Stuff(Body(q))| + 2 && Encoded(q)[|Stuff(Body(q))| + 1] == HDLC_FLAG
  {
    hide Stuff, Body;
  }

  // The stream of that run, read by read.
  lemma EarlyStream(q: seq<byte>, p: seq<byte>, more: seq<byte>, max: nat)
    requires Fits(q, max) && Fits(p, max) && Fits(Body(p) + more, max)
    ensures var first, second := Encoded(q), [HDLC_FLAG] + Stuff(Body(p));
      && Drain(first, max) == Drained([q], [HDLC_FLAG])
      && Drain(first + second, max) == Drained([q], [HDLC_FLAG] + second)
      && Premature([HDLC_FLAG] + second, true, max)
      && Drain(first + second + [HDLC_FLAG], max).payloads == [q, p]
      && first + second < first + Encoded(Body(p) + more)
      && Drain(first + Encoded(Body(p) + more), max).payloads == [q, Body(p) + more]
  {
    hide Decode, Drain, Body, Stuff, Encoded;
    var first, second := Encoded(q), [HDLC_FLAG] + Stuff(Body(p));
    DrainPair(q, Body(p) + more, max);
    DrainPair(q, p, max);
    LongerEncoding(p, more);
    EncodedParts(p);
    assert first + second + [HDLC_FLAG] == first + Encoded(p);
    OpenEncoding([HDLC_FLAG], p, max);
    assert [HDLC_FLAG] + [HDLC_FLAG] + Stuff(Body(p)) == [HDLC_FLAG] + second;
    DrainAppend(first, second, max);
    DrainOverflow([HDLC_FLAG] + second, max);
  }

  lemma EncodedParts(p: seq<byte>)
    ensures [HDLC_FLAG] + Stuff(Body(p)) + [HDLC_FLAG] == Encoded(p)
  {
    hide Stuff, Body;
  }

  lemma DrainOverflow(s: seq<byte>, max: nat)
    requires Decode(s, false, max).Overflow?
    ensures Drain(s, max) == Drained([], s)
  {
    hide Decode;
  }

  lemma DrainPair(p: seq<byte>, q: seq<byte>, max: nat)
    requires Fits(p, max) && Fits(q, max)
    ensures Drain(Encoded(p), max) == Drained([p], [HDLC_FLAG])
    ensures Drain(Encoded(p) + Encoded(q), max) == Drained([p, q], [HDLC_FLAG])
  {
    hide Drain, Encoded;
    DrainEncoded([], [p], max);
    DrainEncoded([], [p, q], max);
    EncodedOne(p);
    EncodedOne(q);
    assert [p, q][1..] == [q];
    assert [] + EncodedAll([p, q]) == Encoded(p) + EncodedAll([q]);
    assert [] + EncodedAll([q]) == EncodedAll([q]);
  }

  /** Two payloads for such a run. */
  lemma EarlySizes()
    ensures |Stuff(Body([0xff, 0x20, 0x23]))| == |Stuff(Body([0xff, 0x20]))| + 1
  {
    FieldsOfEarly();
    hide FcsField;
    NothingStuffed([0xff, 0x20, 0x85, 0xd1]);
    NothingStuffed([0xff, 0x20, 0x23, 0x95, 0x30]);
    assert Body([0xff, 0x20]) == [0xff, 0x20, 0x85, 0xd1];
    assert Body([0xff, 0x20, 0x23]) == [0xff, 0x20, 0x23, 0x95, 0x30];
  }

  lemma {:induction false} NothingStuffed(s: seq<byte>)
    requires forall c :: c in s ==> !MustEscape(c)
    ensures Stuff(s) == s
  {
    if s != [] {
      NothingStuffed(s[..|s| - 1]);
    }
  }

  lemma FieldsOfEarly()
    ensures FcsField([0xff, 0x20]) == [0x85, 0xd1] && FcsField([0xff, 0x20, 0x23]) == [0x95, 0x30]
  {
    hide CrcStep, LowByte, HighByte, Complement;
    StepsOfEarly();
    assert [0xff] + [0x20] == [0xff, 0x20] && [0xff, 0x20] + [0x23] == [0xff, 0x20, 0x23] && [] + [0xff] == [0xff];
    CrcSnoc(PPPINITFCS16, [], 0xff);
    CrcSnoc(PPPINITFCS16, [0xff], 0x20);
    CrcSnoc(PPPINITFCS16, [0xff, 0x20], 0x23);
    EndsOfEarly();
  }

  lemma StepsOfEarly()
    ensures CrcStep(PPPINITFCS16, 0xff) == 0x00ff && CrcStep(0x00ff, 0x20) == 0x2e7a && CrcStep(0x2e7a, 0x23) == 0xcf6a
  {
    hide CrcBits;
    assert Xor16(PPPINITFCS16, Wide(0xff)) == 0xff00;
    assert Xor16(0x00ff, Wide(0x20)) == 0xdf;
    assert Xor16(0x2e7a, Wide(0x23)) == 0x2e59;
    BitsOfEarly();
  }

  lemma BitsOfEarly()
    ensures CrcBits(8, 0xff00) == 0x00ff && CrcBits(8, 0xdf) == 0x2e7a && CrcBits(8, 0x2e59) == 0xcf6a
  {
  }

  lemma EndsOfEarly()
    ensures LowByte(Complement(0x2e7a)) == 0x85 && HighByte(Complement(0x2e7a)) == 0xd1
    ensures LowByte(Complement(0xcf6a)) == 0x95 && HighByte(Complement(0xcf6a)) == 0x30
  {
  }

  lemma NoTemptation(max: nat)
    ensures !Decode([], true, max).Accepted? && !Decode([HDLC_FLAG], true, max).Accepted?
  {
    assert [HDLC_FLAG][1..] == [];
    assert SkipFlags([HDLC_FLAG]) == 1;
  }

  lemma CoversAppend(received: seq<byte>, emitted: seq<seq<byte>>, live: seq<byte>, chunk: seq<byte>, max: nat)
    requires Covers(received, emitted, live, max)
    ensures Covers(received + chunk, emitted, live + chunk, max)
    ensures Drain(received + chunk, max).residue == Drain(live + chunk, max).residue
  {
    hide Drain;
    DrainAppend(received, chunk, max);
    DrainAppend(live, chunk, max);
    var d := Drain(live, max);
    var rest := Drain(d.residue + chunk, max);
    assert emitted + (d.payloads + rest.payloads) == emitted + d.payloads + rest.payloads;
  }

  lemma CoversResidue(received: seq<byte>, emitted: seq<seq<byte>>, live: seq<byte>, max: nat)
    requires Covers(received, emitted, live, max)
    ensures Drain(received, max).residue == Drain(live, max).residue
  {
  }

  lemma CoversAll(received: seq<byte>, emitted: seq<seq<byte>>, live: seq<byte>, max: nat)
    requires Covers(received, emitted, live, max) && live == Drain(received, max).residue
    ensures Drain(received, max) == Drained(emitted, live)
  {
    hide Drain;
    DrainResidue(received, max);
    assert emitted + [] == emitted;
  }
}
