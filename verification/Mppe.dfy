/** Stateless 128-bit MPPE as the in-process PPP engine runs it (ios-pppd.c; sections 3 and 7.3 of
    RFC 3078): one rekey per packet, a 12-bit coherency count, and a receiver that rekeys until its
    count meets the one in the packet. SHA-1 key derivation and the RC4 key stream are parameters. */
module Mppe {
  import opened Bytes

  const COUNTS: nat := 0x1000

  /** `newKey` is sstp_mppe_get_new_key_from_sha; `keystream(key, i)` is octet i of the RC4 key stream. */
  datatype Crypto = Crypto(newKey: (seq<byte>, seq<byte>) -> seq<byte>, keystream: (seq<byte>, nat) -> byte)

  // An RC4_KEY: the key it was set up with, and how many octets it has produced.
  datatype Rc4 = Rc4(key: seq<byte>, offset: nat)

  // One direction of the session.
  datatype Half = Half(master: seq<byte>, session: seq<byte>, rc4: Rc4, ccount: nat)

  function Rc4Apply(c: Crypto, k: Rc4, data: seq<byte>): (r: seq<byte>)
    ensures |r| == |data|
  {
    seq(|data|, i requires 0 <= i < |data| => Xor(data[i], c.keystream(k.key, k.offset + i)))
  }

  /** Decrypting with the state the encryption started from gives the plaintext back. */
  lemma Rc4Twice(c: Crypto, k: Rc4, data: seq<byte>)
    ensures Rc4Apply(c, k, Rc4Apply(c, k, data)) == data
  {
    hide Xor;
    forall i | 0 <= i < |data|
      ensures Rc4Apply(c, k, Rc4Apply(c, k, data))[i] == data[i]
    {
      XorTwice(data[i], c.keystream(k.key, k.offset + i));
    }
  }

  // mppe_rekey
  function NextSession(c: Crypto, master: seq<byte>, session: seq<byte>, initial: bool): seq<byte> {
    var digest := c.newKey(master, session);
    if initial then digest else Rc4Apply(c, Rc4(digest, 0), digest)
  }

  function Rekey(c: Crypto, h: Half, initial: bool): Half {
    var session := NextSession(c, h.master, h.session, initial);
    h.(session := session, rc4 := Rc4(session, 0))
  }

  // One direction of mppe_init_keys.
  function InitHalf(c: Crypto, h: Half): Half {
    Rekey(c, h.(session := h.master), true).(ccount := COUNTS - 1)
  }

  // ----- the ideal schedule -----

  /** The session key after `n` packets: every packet advances it once. */
  function SessionAfter(c: Crypto, master: seq<byte>, n: nat): seq<byte> {
    if n == 0 then NextSession(c, master, master, true)
    else NextSession(c, master, SessionAfter(c, master, n - 1), false)
  }

  /** The schedule, octet by octet: it begins with the master key hashed with itself, and every packet
      replaces the session key by its digest, put through RC4 keyed with the digest itself. */
  lemma Schedule(c: Crypto, master: seq<byte>, n: nat)
    ensures SessionAfter(c, master, 0) == c.newKey(master, master)
    ensures Renewed(c, master, SessionAfter(c, master, n), SessionAfter(c, master, n + 1))
  {
  }

  // `next` is the session key that follows `session`: RC4(digest)(digest).
  ghost predicate Renewed(c: Crypto, master: seq<byte>, session: seq<byte>, next: seq<byte>) {
    var d := c.newKey(master, session);
    |next| == |d| && forall i :: 0 <= i < |d| ==> next[i] == Xor(d[i], c.keystream(d, i))
  }

  /** Hence RC4 keyed with the digest leads from the next key back to the digest. */
  lemma DigestBack(c: Crypto, master: seq<byte>, n: nat)
    ensures var d := c.newKey(master, SessionAfter(c, master, n));
      Rc4Apply(c, Rc4(d, 0), SessionAfter(c, master, n + 1)) == d
  {
    hide Xor;
    Schedule(c, master, n);
    Rc4Twice(c, Rc4(c.newKey(master, SessionAfter(c, master, n)), 0), c.newKey(master, SessionAfter(c, master, n)));
  }

  /** The key stream goes on from one piece of data to the next. */
  lemma Rc4Concat(c: Crypto, k: Rc4, a: seq<byte>, b: seq<byte>)
    ensures Rc4Apply(c, k, a + b) == Rc4Apply(c, k, a) + Rc4Apply(c, Rc4(k.key, k.offset + |a|), b)
  {
    hide Xor;
  }

  // A direction that has just been started: the master key hashed with itself, and no count yet.
  ghost predicate Initialised(c: Crypto, h: Half) {
    h.session == c.newKey(h.master, h.master) && h.rc4 == Rc4(h.session, 0) && h.ccount == 4095
  }

  lemma InitialisedHalf(c: Crypto, h: Half)
    ensures Initialised(c, InitHalf(c, h)) && InitHalf(c, h).master == h.master
  {
  }

  // The direction stands right behind packet number `n - 1` (packets are numbered from 0).
  ghost predicate InStep(c: Crypto, h: Half, n: nat) {
    h.session == SessionAfter(c, h.master, n) && h.ccount == (n + COUNTS - 1) % COUNTS
  }

  lemma InitInStep(c: Crypto, h: Half)
    ensures InStep(c, InitHalf(c, h), 0) && InitHalf(c, h).master == h.master
  {
  }

  // ----- sending -----

  function Advance(c: Crypto, h: Half): Half {
    Rekey(c, h.(ccount := (h.ccount + 1) % COUNTS), false)
  }

  /** The packet for one plaintext: flushed and encrypted bits, the 12-bit count, the ciphertext. */
  function Seal(c: Crypto, h: Half, plain: seq<byte>): (Half, seq<byte>)
    requires h.ccount < COUNTS
  {
    var h1 := Advance(c, h);
    (h1.(rc4 := Rc4(h1.rc4.key, h1.rc4.offset + |plain|)),
     [0x90 + h1.ccount / 0x100, h1.ccount % 0x100] + Rc4Apply(c, h1.rc4, plain))
  }

  // What becomes of a direction and a plaintext, octet by octet: the next count and session key, and RC4
  // keyed with the session key, as far as the packet has used it up.
  ghost predicate Sealed(c: Crypto, before: Half, after: Half, plain: seq<byte>, packet: seq<byte>) {
    && after.master == before.master && after.ccount == (before.ccount + 1) % 4096
    && Renewed(c, before.master, before.session, after.session)
    && after.rc4 == Rc4(after.session, |plain|)
    && |packet| == 2 + |plain| && packet[0] == 0x90 + after.ccount / 256 && packet[1] == after.ccount % 256
    && forall i :: 0 <= i < |plain| ==> packet[2 + i] == Xor(plain[i], c.keystream(after.session, i))
  }

  lemma SealOctets(c: Crypto, h: Half, plain: seq<byte>)
    requires h.ccount < COUNTS
    ensures var (after, packet) := Seal(c, h, plain); Sealed(c, h, after, plain, packet)
  {
    hide Xor;
    var (after, packet) := Seal(c, h, plain);
    assert packet[2..] == Rc4Apply(c, Rc4(after.session, 0), plain);
  }

  // ----- receiving -----

  function CountOf(buf: seq<byte>): (n: nat)
    requires |buf| >= 2
    ensures n < COUNTS
  {
    var hi: int, lo: int := buf[0], buf[1];
    hi % 16 * 0x100 + lo
  }

  // How many times the catch-up loop runs.
  function Gap(from: nat, to: nat): (n: nat)
    requires from < COUNTS && to < COUNTS
    ensures n < COUNTS && (n == 0 <==> from == to)
  {
    (to - from) % COUNTS
  }

  function CatchUp(c: Crypto, h: Half, ccount: nat): (r: Half)
    requires h.ccount < COUNTS && ccount < COUNTS
    ensures r.ccount == ccount && r.master == h.master
    decreases Gap(h.ccount, ccount)
  {
    if h.ccount == ccount then h
    else CatchUp(c, Rekey(c, h, false).(ccount := (h.ccount + 1) % COUNTS), ccount)
  }

  function Open(c: Crypto, h: Half, buf: seq<byte>): (Half, seq<byte>)
    requires h.ccount < COUNTS && |buf| >= 2
  {
    var h1 := CatchUp(c, h, CountOf(buf));
    (h1.(rc4 := Rc4(h1.rc4.key, h1.rc4.offset + |buf| - 2)), Rc4Apply(c, h1.rc4, buf[2..]))
  }

  // ----- synchronisation -----

  lemma GapOfPackets(n: nat, i: nat)
    requires n <= i
    ensures Gap((n + COUNTS - 1) % COUNTS, i % COUNTS) == (i + 1 - n) % COUNTS
  {
    var a, b := n + COUNTS - 1, i;
    assert b - a == (i + 1 - n) - COUNTS;
    ModOfDifference(b, a);
    ModShift(i + 1 - n);
  }

  lemma ModOfDifference(b: nat, a: nat)
    ensures (b % COUNTS - a % COUNTS) % COUNTS == (b - a) % COUNTS
  {
    var k := b / COUNTS - a / COUNTS;
    assert b - a == (b % COUNTS - a % COUNTS) + COUNTS * k;
  }

  lemma ModShift(d: int)
    ensures (d - COUNTS) % COUNTS == d % COUNTS
  {
  }

  lemma GapStep(from: nat, to: nat)
    requires from < COUNTS && to < COUNTS && from != to
    ensures Gap((from + 1) % COUNTS, to) == Gap(from, to) - 1
  {
  }

  lemma CatchUpUnfold(c: Crypto, h: Half, ccount: nat)
    requires h.ccount < COUNTS && ccount < COUNTS
    ensures CatchUp(c, h, ccount) ==
      if h.ccount == ccount then h
      else CatchUp(c, Rekey(c, h, false).(ccount := (h.ccount + 1) % COUNTS), ccount)
  {
  }

  lemma RekeyInStep(c: Crypto, h: Half, n: nat)
    requires InStep(c, h, n)
    ensures h.ccount < COUNTS
    ensures var next := Rekey(c, h, false).(ccount := (h.ccount + 1) % COUNTS);
      InStep(c, next, n + 1) && next.rc4 == Rc4(next.session, 0)
  {
  }

  /** The catch-up loop runs Gap times and moves the session that far along the schedule; if it runs at
      all it ends with a fresh RC4 state. */
  lemma {:induction false} CatchUpSchedule(c: Crypto, h: Half, n: nat, ccount: nat)
    requires InStep(c, h, n) && h.ccount < COUNTS && ccount < COUNTS
    ensures var r := CatchUp(c, h, ccount);
      var gap := Gap(h.ccount, ccount);
      && InStep(c, r, n + gap)
      && (gap > 0 ==> r.rc4 == Rc4(r.session, 0))
      && (gap == 0 ==> r == h)
    decreases Gap(h.ccount, ccount)
  {
    hide CatchUp, InStep, Rekey, Gap;
    CatchUpUnfold(c, h, ccount);
    if h.ccount != ccount {
      var next := Rekey(c, h, false).(ccount := (h.ccount + 1) % COUNTS);
      RekeyInStep(c, h, n);
      GapStep(h.ccount, ccount);
      CatchUpSchedule(c, next, n + 1, ccount);
    }
  }

  // CatchUpSchedule for every place in the schedule at once.
  lemma CaughtUp(c: Crypto, h: Half, ccount: nat)
    requires h.ccount < COUNTS && ccount < COUNTS
    ensures var r := CatchUp(c, h, ccount);
      && (forall n: nat :: InStep(c, h, n) ==> InStep(c, r, n + Gap(h.ccount, ccount)))
      && (if h.ccount == ccount then r == h else r.rc4 == Rc4(r.session, 0))
    decreases Gap(h.ccount, ccount)
  {
    hide CatchUp, InStep, Rekey, Gap;
    forall n: nat | InStep(c, h, n)
      ensures InStep(c, CatchUp(c, h, ccount), n + Gap(h.ccount, ccount))
    {
      CatchUpSchedule(c, h, n, ccount);
    }
    CatchUpUnfold(c, h, ccount);
    if h.ccount != ccount {
      var next := Rekey(c, h, false).(ccount := (h.ccount + 1) % COUNTS);
      RekeyFresh(c, h);
      GapStep(h.ccount, ccount);
      CaughtUp(c, next, ccount);
    }
  }

  lemma RekeyFresh(c: Crypto, h: Half)
    ensures var r := Rekey(c, h, false); r.rc4 == Rc4(r.session, 0)
  {
  }

  /** A receiver that has seen packets below `n` and gets packet `i` ends up exactly (i + 1 - n) mod 4096
      rekeys further on: at the sender's session when less than 4096 packets are missing, and only then
      by counting. */
  lemma ReceiverPosition(c: Crypto, h: Half, n: nat, i: nat)
    requires InStep(c, h, n) && n <= i
    ensures var r := CatchUp(c, h, i % COUNTS);
      InStep(c, r, n + (i + 1 - n) % COUNTS) && (n + (i + 1 - n) % COUNTS == i + 1 <==> i - n < COUNTS - 1)
  {
    GapOfPackets(n, i);
    CatchUpSchedule(c, h, n, i % COUNTS);
  }

  lemma CountInPacket(c: Crypto, h: Half, plain: seq<byte>)
    requires h.ccount < COUNTS
    ensures var (h1, packet) := Seal(c, h, plain); |packet| == |plain| + 2 && CountOf(packet) == h1.ccount
  {
  }

  lemma SealInStep(c: Crypto, h: Half, plain: seq<byte>, i: nat)
    requires InStep(c, h, i)
    ensures InStep(c, Seal(c, h, plain).0, i + 1)
  {
  }

  /** Resynchronisation: whatever was lost in between (fewer than 4095 packets), the receiver recovers
      the plaintext of packet `i` and is left in the very state of the sender: session key, RC4 state
      and count. */
  lemma Resynchronise(c: Crypto, sender: Half, receiver: Half, n: nat, i: nat, plain: seq<byte>)
    requires sender.master == receiver.master
    requires InStep(c, sender, i) && InStep(c, receiver, n) && n <= i && i - n < COUNTS - 1
    ensures var (s, packet) := Seal(c, sender, plain); Open(c, receiver, packet) == (s, plain)
  {
    var (s, packet) := Seal(c, sender, plain);
    var h1 := Advance(c, sender);
    CountInPacket(c, sender, plain);
    SealInStep(c, sender, plain, i);
    ReceiverPosition(c, receiver, n, i);
    GapOfPackets(n, i);
    CatchUpSchedule(c, receiver, n, i % COUNTS);
    assert h1.ccount == i % COUNTS;
    assert packet[2..] == Rc4Apply(c, h1.rc4, plain);
    Rc4Twice(c, h1.rc4, plain);
  }

  /** Beyond that the count wraps round unnoticed: a receiver that misses exactly 4095 packets does not
      rekey at all. */
  lemma WrapsUnnoticed(c: Crypto, sender: Half, receiver: Half, n: nat, plain: seq<byte>)
    requires InStep(c, sender, n + COUNTS - 1) && InStep(c, receiver, n)
    ensures CatchUp(c, receiver, CountOf(Seal(c, sender, plain).1)) == receiver
  {
    CountInPacket(c, sender, plain);
    SealInStep(c, sender, plain, n + COUNTS - 1);
    ModShift(n + COUNTS - 1 + COUNTS);
  }

  /** A packet with the count of the one before it is decrypted with what follows in the key stream. */
  lemma OpenAgain(c: Crypto, h: Half, buf: seq<byte>)
    requires h.ccount < COUNTS && |buf| >= 2 && CountOf(buf) == h.ccount
    ensures var (after, plain) := Open(c, h, buf);
      && after == h.(rc4 := Rc4(h.rc4.key, h.rc4.offset + |plain|)) && |plain| == |buf| - 2
      && forall i :: 0 <= i < |plain| ==> plain[i] == Xor(buf[2 + i], c.keystream(h.rc4.key, h.rc4.offset + i))
  {
    hide Xor;
  }

  // ----- whole runs -----

  function SealAll(c: Crypto, h: Half, plains: seq<seq<byte>>): seq<seq<byte>>
    requires h.ccount < COUNTS
    decreases plains
  {
    if plains == [] then []
    else var (h1, packet) := Seal(c, h, plains[0]); [packet] + SealAll(c, h1, plains[1..])
  }

  function OpenAll(c: Crypto, h: Half, packets: seq<seq<byte>>): seq<seq<byte>>
    requires h.ccount < COUNTS && forall p :: p in packets ==> |p| >= 2
    decreases packets
  {
    if packets == [] then []
    else var (h1, plain) := Open(c, h, packets[0]); [plain] + OpenAll(c, h1, packets[1..])
  }

  // What arrives of `all`: the packets marked in `kept`.
  function Kept<T>(all: seq<T>, kept: seq<bool>): seq<T>
    requires |all| == |kept|
  {
    if all == [] then [] else (if kept[0] then [all[0]] else []) + Kept(all[1..], kept[1..])
  }

  // No more than `most` packets in a row are lost, counting from `already` lost ones.
  ghost predicate LossBounded(kept: seq<bool>, already: nat, most: nat) {
    kept == [] ||
    (if kept[0] then LossBounded(kept[1..], 0, most) else already < most && LossBounded(kept[1..], already + 1, most))
  }

  lemma {:induction false} KeptSealed(c: Crypto, h: Half, plains: seq<seq<byte>>, kept: seq<bool>)
    requires h.ccount < COUNTS && |plains| == |kept|
    ensures |SealAll(c, h, plains)| == |kept|
    ensures forall p :: p in Kept(SealAll(c, h, plains), kept) ==> |p| >= 2
    decreases plains
  {
    if plains != [] {
      KeptSealed(c, Seal(c, h, plains[0]).0, plains[1..], kept[1..]);
      assert SealAll(c, h, plains)[1..] == SealAll(c, Seal(c, h, plains[0]).0, plains[1..]);
    }
  }

  // Seal all plaintexts, lose the packets that are not kept, open the others.
  function Through(c: Crypto, sender: Half, receiver: Half, plains: seq<seq<byte>>, kept: seq<bool>): seq<seq<byte>>
    requires sender.ccount < COUNTS && receiver.ccount < COUNTS && |plains| == |kept|
  {
    KeptSealed(c, sender, plains, kept);
    OpenAll(c, receiver, Kept(SealAll(c, sender, plains), kept))
  }

  lemma ThroughStep(c: Crypto, sender: Half, receiver: Half, plains: seq<seq<byte>>, kept: seq<bool>)
    requires sender.ccount < COUNTS && receiver.ccount < COUNTS && |plains| == |kept| && plains != []
    ensures var (s, packet) := Seal(c, sender, plains[0]);
      |packet| >= 2 && Through(c, sender, receiver, plains, kept) ==
        if !kept[0] then Through(c, s, receiver, plains[1..], kept[1..])
        else
          var (r, plain) := Open(c, receiver, packet);
          [plain] + Through(c, s, r, plains[1..], kept[1..])
  {
    hide Rc4Apply;
    KeptSealed(c, sender, plains, kept);
    var (s, packet) := Seal(c, sender, plains[0]);
    assert SealAll(c, sender, plains) == [packet] + SealAll(c, s, plains[1..]);
    var rest := Kept(SealAll(c, s, plains[1..]), kept[1..]);
    if kept[0] {
      assert Kept(SealAll(c, sender, plains), kept) == [packet] + rest;
      assert ([packet] + rest)[1..] == rest;
    } else {
      assert Kept(SealAll(c, sender, plains), kept) == rest;
    }
  }

  /** Over any run in which at most 4094 packets in a row are lost, exactly the plaintexts of the
      packets that arrive are recovered, in order. */
  lemma {:induction false} LossyRun(c: Crypto, sender: Half, receiver: Half, n: nat, i: nat,
                                    plains: seq<seq<byte>>, kept: seq<bool>)
    requires sender.master == receiver.master && |plains| == |kept|
    requires sender.ccount < COUNTS && receiver.ccount < COUNTS
    requires InStep(c, sender, i) && InStep(c, receiver, n) && n <= i && i - n < COUNTS - 1
    requires LossBounded(kept, i - n, COUNTS - 2)
    ensures Through(c, sender, receiver, plains, kept) == Kept(plains, kept)
    decreases plains
  {
    hide Seal, Open, InStep, Through;
    if plains == [] {
      assert Through(c, sender, receiver, plains, kept) == [] by { ThroughNothing(c, sender, receiver); }
    } else {
      ThroughStep(c, sender, receiver, plains, kept);
      SealInStep(c, sender, plains[0], i);
      SealMaster(c, sender, plains[0]);
      var s := Seal(c, sender, plains[0]).0;
      if kept[0] {
        Resynchronise(c, sender, receiver, n, i, plains[0]);
        LossyRun(c, s, s, i + 1, i + 1, plains[1..], kept[1..]);
      } else {
        LossyRun(c, s, receiver, n, i + 1, plains[1..], kept[1..]);
      }
    }
  }

  lemma ThroughNothing(c: Crypto, sender: Half, receiver: Half)
    requires sender.ccount < COUNTS && receiver.ccount < COUNTS
    ensures Through(c, sender, receiver, [], []) == []
  {
  }

  lemma SealMaster(c: Crypto, h: Half, plain: seq<byte>)
    requires h.ccount < COUNTS
    ensures var (s, packet) := Seal(c, h, plain); s.master == h.master && s.ccount < COUNTS && |packet| >= 2
  {
  }
}
