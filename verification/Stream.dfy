/** Reassembly of SSTP packets from partial reads (sstp_stream_recv_sstp in sstp-stream.c). */
module Stream {
  import opened Bytes
  import opened Common
  import opened Packet

  // What SSL_read reports: octets read, or why there are none.
  datatype ReadResult = Got(n: nat) | WouldBlock | Broken

  /** What is known about the reads: nothing; or that a read of a header gets all the octets still
      missing of it, or none; or that every read gets all it asks for, if that has arrived. */
  datatype Reads = Arbitrary | WholeHeaders | Eager

  /** The value `sstp_pkt_len` sees when only `k` octets of a new header `p` have overwritten what the
      buffer held before. */
  function StaleLength(data: seq<byte>, p: seq<byte>, k: nat): uint16
    requires |data| >= HEADER_SIZE && |p| >= HEADER_SIZE && k <= HEADER_SIZE
  {
    GetBe16((p[..k] + data[k..HEADER_SIZE])[2..])
  }

  // The first `k` octets of the header of `p` look like a whole packet.
  ghost predicate Mistaken(data: seq<byte>, p: seq<byte>, k: nat)
    requires |data| >= HEADER_SIZE && |p| >= HEADER_SIZE
  {
    0 < k < HEADER_SIZE && StaleLength(data, p, k) <= k
  }

  /** No partial header of `p`, beyond the `off` octets already there, is mistaken for a whole packet. */
  ghost predicate HeaderSafe(data: seq<byte>, off: nat, p: seq<byte>)
    requires |data| >= HEADER_SIZE && |p| >= HEADER_SIZE
  {
    forall k: nat :: off < k < HEADER_SIZE ==> !Mistaken(data, p, k)
  }

  /** In a fresh buffer, which is all zeros, one or two octets of the first header are always mistaken for
      a packet, and three of them exactly if the packet is shorter than 256 octets. */
  lemma MistakenWhenFresh(data: seq<byte>, p: seq<byte>)
    requires |data| >= HEADER_SIZE && data[..HEADER_SIZE] == [0, 0, 0, 0] && WellFormed(p)
    ensures Mistaken(data, p, 1) && Mistaken(data, p, 2) && (Mistaken(data, p, 3) <==> |p| < 0x100)
  {
    assert data[2] == data[..HEADER_SIZE][2] && data[3] == data[..HEADER_SIZE][3];
    assert (p[..1] + data[1..HEADER_SIZE])[2..] == [0, 0] == (p[..2] + data[2..HEADER_SIZE])[2..];
    assert (p[..3] + data[3..HEADER_SIZE])[2..] == [p[2], 0];
  }

  /** Behind a packet that is still in the buffer every header is safe, unless the new length is below
      256 and the old one is at most 3 modulo 256. */
  lemma HeaderSafeBehind(data: seq<byte>, previous: seq<byte>, p: seq<byte>)
    requires |data| >= HEADER_SIZE && WellFormed(previous) && WellFormed(p) && data[..HEADER_SIZE] == previous[..HEADER_SIZE]
    ensures HeaderSafe(data, 0, p) <==> |p| >= 0x100 || |previous| % 0x100 > 3
  {
    assert data[2] == previous[2] && data[3] == previous[3];
    assert StaleLength(data, p, 1) == |previous| by { assert (p[..1] + data[1..HEADER_SIZE])[2..] == data[2..4]; }
    assert StaleLength(data, p, 2) == |previous| by { assert (p[..2] + data[2..HEADER_SIZE])[2..] == data[2..4]; }
    var hi, lo: int := p[2], data[3];
    assert StaleLength(data, p, 3) == hi * 0x100 + lo by {
      assert (p[..3] + data[3..HEADER_SIZE])[2..] == [p[2], data[3]];
    }
    assert !Mistaken(data, p, 1) <==> |previous| > 1;
    assert !Mistaken(data, p, 2) <==> |previous| > 2;
    assert !Mistaken(data, p, 3) <==> hi * 0x100 + lo > 3;
  }

  class Stream {
    const mode: Reads
    ghost var last: ReadResult           // what the last SSL_read reported
    var wire: seq<byte>                  // every octet the peer sends that has not been read yet

    constructor (octets: seq<byte>, mode: Reads)
      ensures wire == octets && this.mode == mode
    {
      wire := octets;
      this.mode := mode;
      last := WouldBlock;
    }

    /** SSL_read: any number of the next octets up to `want`, or none. */
    method SslRead(data: array<byte>, at: nat, want: nat) returns (r: ReadResult)
      requires at + want <= data.Length
      modifies this, data
      ensures r.Got? ==> 1 <= r.n <= want && r.n <= |old(wire)| && wire == old(wire)[r.n..]
      ensures r.Got? ==> data[..] == old(data[..at]) + old(wire)[..r.n] + old(data[at + r.n..])
      ensures !r.Got? ==> wire == old(wire) && data[..] == old(data[..])
      ensures mode != Arbitrary && at < HEADER_SIZE && r.Got? ==> r.n == want
      ensures mode == Eager && 1 <= want <= |old(wire)| ==> r == Got(want)
      ensures last == r
    {
      r := *;
      if mode == Eager || (mode == WholeHeaders && at < HEADER_SIZE && r.Got?) {
        r := Got(want);
      }
      if r.Got? {
        if 1 <= r.n <= want && r.n <= |wire| {
          forall i | 0 <= i < r.n {
            data[at + i] := wire[i];
          }
          wire := wire[r.n..];
        } else {
          r := WouldBlock;
        }
      }
      last := r;
    }

    // What has been read of the current packet, followed by what is still to come.
    ghost function Pending(buf: Buff): seq<byte>
      reads this, buf, buf.data
      requires buf.off <= buf.data.Length
    {
      buf.data[..buf.off] + wire
    }

    // The packet `p` is being received: what is there of it agrees with it.
    ghost predicate Receiving(buf: Buff, p: seq<byte>)
      reads this, buf, buf.data
    {
      WellFormed(p) && |p| <= buf.data.Length && buf.off <= |p| &&
      buf.data[..buf.off] == p[..buf.off] && (Pending(buf) <= p || p <= Pending(buf))
    }

    // One read into the buffer, behind what is there already.
    method Fill(buf: Buff, want: nat, ghost p: seq<byte>) returns (ret: ReadResult)
      requires Receiving(buf, p) && buf.off + want <= |p|
      modifies this, buf`off, buf.data
      ensures Receiving(buf, p) && Pending(buf) == old(Pending(buf))
      ensures if ret.Got? then old(buf.off) < buf.off <= old(buf.off) + want else buf.off == old(buf.off)
      ensures buf.data[buf.off..] == old(buf.data[..])[buf.off..]
      ensures mode != Arbitrary && old(buf.off) < HEADER_SIZE && ret.Got? ==> buf.off == old(buf.off) + want
      ensures mode == Eager && 1 <= want <= |old(wire)| ==> ret.Got? && buf.off == old(buf.off) + want
      ensures last == ret
    {
      ghost var before, octets := buf.data[..], wire;
      ret := SslRead(buf.data, buf.off, want);
      if ret.Got? {
        ReadShift(before, buf.off, octets, ret.n);
        PrefixAgrees(before[..buf.off] + octets, p, buf.off + ret.n);
        buf.off := buf.off + ret.n;
      }
    }

    /** sstp_stream_recv_sstp, also as resumed after it blocked. No octet is lost, invented or taken from
        the packet that follows. It reports success exactly once the packet is whole, with `off`, `len`
        and the length field all equal to its size, or once a partial header is mistaken for a packet;
        and it does not stop at a header that is not, nor go on behind one that is. It waits exactly when
        the last read would block, and fails exactly when that is broken. */
    method RecvSstp(buf: Buff, ghost p: seq<byte>) returns (status: Status)
      requires Receiving(buf, p) && buf.off < |p|
      modifies this, buf, buf.data
      ensures Receiving(buf, p) && Pending(buf) == old(Pending(buf)) && old(buf.off) <= buf.off <= buf.len <= |p|
      ensures buf.data[buf.off..] == old(buf.data[..])[buf.off..]
      ensures status == if last.Got? then SstpOkay else if last.WouldBlock? then SstpInprog else SstpFail
      ensures status == SstpOkay ==>
        old(buf.off) < buf.off &&
        if buf.off == |p| then buf.len == |p| && buf.Contents() == p
        else buf.len == HEADER_SIZE && Mistaken(old(buf.data[..]), p, buf.off)
      ensures status != SstpOkay ==> buf.off < |p|
      ensures status != SstpOkay && old(buf.off) < buf.off ==> !Mistaken(old(buf.data[..]), p, buf.off)
      ensures mode != Arbitrary && status == SstpOkay ==> buf.off == |p|
      ensures mode == Eager && p <= old(Pending(buf)) ==> status == SstpOkay
    {
      hide WellFormed, StaleLength, PktLen;
      WellFormedSize(p);
      while true
        invariant Receiving(buf, p) && Pending(buf) == old(Pending(buf)) && old(buf.off) <= buf.off < |p|
        invariant buf.data[buf.off..] == old(buf.data[..])[buf.off..]
        invariant old(buf.off) < buf.off ==> !Mistaken(old(buf.data[..]), p, buf.off)
        decreases |p| - buf.off
      {
        LengthField(buf.data[..], buf.off, p);
        buf.len := if buf.off >= HEADER_SIZE then PktLen(buf.data[..]) else HEADER_SIZE;
        var ret := Fill(buf, buf.len - buf.off, p);
        match ret {
          case Got(n) =>
          case WouldBlock => return SstpInprog;
          case Broken => return SstpFail;
        }
        LengthField(buf.data[..], buf.off, p);
        if buf.off < HEADER_SIZE {
          StaleSame(buf.data[..], old(buf.data[..]), buf.off, p);
        }
        if buf.off >= PktLen(buf.data[..]) {
          return SstpOkay;
        }
      }
    }
  }

  /** Where HeaderSafe holds, it still does after more of the packet has been read, and the other outcome
      of RecvSstp is impossible. */
  lemma HeaderSafeKept(before: seq<byte>, after: seq<byte>, off: nat, next: nat, p: seq<byte>)
    requires HEADER_SIZE <= |before| == |after| && HEADER_SIZE <= |p| && off <= next <= |before|
    requires after[next..] == before[next..] && HeaderSafe(before, off, p)
    ensures HeaderSafe(after, next, p)
    ensures off < next < HEADER_SIZE ==> !Mistaken(before, p, next)
  {
    forall k: nat | next < k < HEADER_SIZE
      ensures !Mistaken(after, p, k)
    {
      assert after[k..] == after[next..][k - next..] == before[next..][k - next..] == before[k..];
      StaleSame(after, before, k, p);
      assert !Mistaken(before, p, k);
    }
  }

  lemma WellFormedSize(p: seq<byte>)
    requires WellFormed(p)
    ensures |p| >= HEADER_SIZE
  {
  }

  lemma StaleSame(after: seq<byte>, before: seq<byte>, off: nat, p: seq<byte>)
    requires HEADER_SIZE <= |before| == |after| && HEADER_SIZE <= |p| && off <= HEADER_SIZE
    requires after[off..] == before[off..]
    ensures StaleLength(after, p, off) == StaleLength(before, p, off)
  {
    assert after[off..HEADER_SIZE] == after[off..][..HEADER_SIZE - off] == before[off..HEADER_SIZE];
  }

  lemma ReadShift(before: seq<byte>, off: nat, octets: seq<byte>, n: nat)
    requires off + n <= |before| && n <= |octets|
    ensures var after := before[..off] + octets[..n] + before[off + n..];
      |after| == |before| && after[..off + n] + octets[n..] == before[..off] + octets &&
      after[..off + n] == (before[..off] + octets)[..off + n] && after[off + n..] == before[off + n..]
  {
  }

  lemma PrefixAgrees(pending: seq<byte>, p: seq<byte>, n: nat)
    requires pending <= p || p <= pending
    requires n <= |pending| && n <= |p|
    ensures pending[..n] == p[..n]
  {
  }

  lemma LengthField(data: seq<byte>, off: nat, p: seq<byte>)
    requires WellFormed(p) && off <= |p| <= |data| && data[..off] == p[..off]
    ensures PktLen(data) == if off >= HEADER_SIZE then |p| else StaleLength(data, p, off)
  {
    assert forall k :: 0 <= k < off ==> data[k] == data[..off][k] == p[k];
    if off < HEADER_SIZE {
      assert p[..off] + data[off..HEADER_SIZE] == data[..HEADER_SIZE];
      assert data[2..][..2] == data[..HEADER_SIZE][2..];
    } else {
      assert data[2..][0] == p[2..][0] && data[2..][1] == p[2..][1];
    }
  }
}
