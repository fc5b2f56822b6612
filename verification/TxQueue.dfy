/** The transmit queue of the in-process PPP engine (ios-pppd.c): a linked list of packets of which at
    most one is with the TLS stream at any time. */
module TxQueue {
  import opened Bytes
  import opened Common
  import opened Packet

  class TxItem {
    var next: TxItem?
    const packet: seq<byte>

    constructor (packet: seq<byte>)
      ensures next == null && this.packet == packet
    {
      next := null;
      this.packet := packet;
    }
  }

  /** What the stream has seen: `handed` lists the packets given to it, in that order, `answers` what it
      answered to each, and `completed` the numbers of those that it has called back about. */
  datatype Books = Books(enqueued: seq<seq<byte>>, handed: seq<seq<byte>>, answers: seq<Status>, completed: set<nat>)

  // Packet `k` is with the stream, which has not called back yet.
  predicate Outstanding(b: Books, k: nat) {
    k < |b.answers| && b.answers[k] == SstpInprog && k !in b.completed
  }

  // The last send failed.
  predicate Stalled(b: Books) {
    b.answers != [] && b.answers[|b.answers| - 1] != SstpOkay && b.answers[|b.answers| - 1] != SstpInprog
  }

  /** How many packets were answered like this. */
  function Answered(answers: seq<Status>, okay: bool): nat {
    if answers == [] then 0
    else
      var last := answers[|answers| - 1];
      Answered(answers[..|answers| - 1], okay) +
      if (if okay then last == SstpOkay else last != SstpOkay && last != SstpInprog) then 1 else 0
  }

  /** The books agree with a queue that holds `queued` and has `flying` outstanding. A packet that the
      stream is still working on is the last one that was handed over, so none is handed over behind it
      before the stream calls back. */
  ghost predicate Balanced(b: Books, queued: seq<seq<byte>>, flying: seq<seq<byte>>) {
    b.enqueued == b.handed + queued && |b.answers| == |b.handed| &&
    (forall k :: k in b.completed ==> k < |b.answers| && b.answers[k] == SstpInprog) &&
    (forall k: nat :: Outstanding(b, k) ==> k == |b.handed| - 1) &&
    flying == (if b.handed != [] && Outstanding(b, |b.handed| - 1) then [b.handed[|b.handed| - 1]] else [])
  }

  function PacketsOf(items: seq<TxItem>): seq<seq<byte>> {
    seq(|items|, i requires 0 <= i < |items| => items[i].packet)
  }

  class Queue {
    var head: TxItem?
    var tail: TxItem?
    var inflight: TxItem?
    var busy: bool
    var sentBytes: nat

    ghost var items: seq<TxItem>         // the list from head to tail
    ghost var nodes: set<TxItem>         // every node ever linked
    ghost var books: Books

    ghost predicate Linked()
      reads this, nodes
    {
      (forall i :: 0 <= i < |items| ==> items[i] in nodes) &&
      (items == [] ==> head == null && tail == null) &&
      (items != [] ==> head == items[0] && tail == items[|items| - 1] && tail.next == null) &&
      (forall i :: 0 <= i < |items| - 1 ==> items[i].next == items[i + 1])
    }

    ghost function Queued(): seq<seq<byte>>
      reads this
    {
      PacketsOf(items)
    }

    ghost function Flying(): seq<seq<byte>>
      reads this
    {
      if inflight == null then [] else [inflight.packet]
    }

    // Everything but the promise that an idle queue is empty.
    ghost predicate Consistent()
      reads this, nodes
    {
      Linked() && (busy <==> inflight != null) && Balanced(books, Queued(), Flying())
    }

    /** Over every run: packets reach the stream in the order they were enqueued and at most once; none is
        handed over while the stream still works on another one; none is lost from the books; and packets
        wait behind an idle stream only after a failed send. */
    ghost predicate Valid()
      reads this, nodes
    {
      Consistent() && (!busy && items != [] ==> Stalled(books))
    }

    constructor ()
      ensures Valid() && nodes == {} && books.enqueued == [] && sentBytes == 0
    {
      head, tail, inflight, busy, sentBytes := null, null, null, false, 0;
      items, nodes, books := [], {}, Books([], [], [], {});
    }

    // sstp_stream_send: any answer is possible. Only here packets and answers are recorded; the stream
    // must not be working on a packet.
    method StreamSend(packet: seq<byte>) returns (ret: Status)
      requires forall k: nat :: !Outstanding(books, k)
      modifies this`books
      ensures books == old(books).(handed := old(books).handed + [packet], answers := old(books).answers + [ret])
    {
      ret := *;
      books := books.(handed := books.handed + [packet], answers := books.answers + [ret]);
    }

    // The stream calls back about the packet that it was working on. Only here that is recorded.
    ghost method CalledBack()
      modifies this`books
      ensures books == AfterCallback(old(books))
    {
      books := AfterCallback(books);
    }

    // Unlink the first item.
    method Pop() returns (item: TxItem)
      requires Linked() && head != null
      modifies this`head, this`tail, this`items
      ensures Linked() && old(items) == [item] + items && old(Queued()) == [item.packet] + Queued()
    {
      item := head;
      assert if |items| == 1 then item.next == null else item.next == items[1];
      head := item.next;
      if head == null {
        tail := null;
      }
      items := items[1..];
    }

    /** ppp_flush_start: give the stream the next packet, if any, unless one is outstanding; and the one
        behind it, as long as the answer is SSTP_OKAY. */
    method FlushStart()
      requires Consistent()
      modifies this
      ensures Valid() && nodes == old(nodes) && sentBytes == old(sentBytes)
      ensures books.enqueued == old(books.enqueued) && books.completed == old(books.completed)
      ensures old(books.handed) <= books.handed && old(books.answers) <= books.answers
      ensures forall k :: |old(books.answers)| <= k < |books.answers| - 1 ==> books.answers[k] == SstpOkay
      ensures old(busy) ==> books == old(books)
      ensures !old(busy) && old(items) != [] ==> |books.handed| > |old(books.handed)|
      decreases |items|
    {
      hide Balanced;
      BalancedShape(books, Queued(), Flying());
      if busy || head == null {
        return;
      }
      ghost var before, b := Queued(), books;
      var item := Pop();
      inflight := item;
      busy := true;
      var ret := StreamSend(item.packet);
      BalancedStep(b, before, item.packet, Queued(), ret);
      if ret == SstpOkay {
        inflight := null;
        busy := false;
        FlushStart();
      } else if ret != SstpInprog {
        inflight := null;
        busy := false;
      }
    }

    /** ppp_send_complete: the outstanding packet is done, whatever its status; go on. */
    method SendComplete()
      requires Valid()
      modifies this
      ensures Valid() && nodes == old(nodes) && sentBytes == old(sentBytes)
      ensures books.enqueued == old(books.enqueued) && books.completed == AfterCallback(old(books)).completed
      ensures old(books.handed) <= books.handed && old(books.answers) <= books.answers
      ensures forall k :: |old(books.answers)| <= k < |books.answers| - 1 ==> books.answers[k] == SstpOkay
      ensures old(items) != [] ==> |books.handed| > |old(books.handed)|
    {
      hide Balanced;
      BalancedCallback(books, Queued(), Flying());
      CalledBack();
      if inflight != null {
        inflight := null;
      }
      busy := false;
      FlushStart();
    }

    // The buffer sstp_pkt_init, memcpy and sstp_pkt_update leave behind.
    method WrapFrame(frame: seq<byte>) returns (packet: seq<byte>)
      ensures packet == DataPacket(frame)
    {
      var buf := new Buff(|frame| + 64);
      var ret := PktInit(buf, SSTP_MSG_DATA);
      forall i | 0 <= i < |frame| {
        buf.data[buf.len + i] := frame[i];
      }
      buf.len := buf.len + |frame|;
      assert buf.data[..buf.len] == DataPacket([]) + frame;
      PktUpdate(buf);
      packet := buf.data[..buf.len];
      assert packet == Header(0, HEADER_SIZE + |frame|) + frame;
    }

    // Link a new item behind the last one.
    method Append(item: TxItem)
      requires Linked() && item !in nodes && item.next == null
      modifies this`head, this`tail, this`items, this`nodes, nodes
      ensures Linked() && items == old(items) + [item] && nodes == old(nodes) + {item}
    {
      if head == null {
        head, tail := item, item;
      } else {
        tail.next := item;
        tail := item;
      }
      items := items + [item];
      nodes := nodes + {item};
    }

    /** ppp_enqueue_raw: wrap the frame as an SSTP data packet, append it and try to send. */
    method EnqueueRaw(frame: seq<byte>) returns (status: Status)
      requires Valid()
      modifies this, nodes
      ensures Valid() && fresh(nodes - old(nodes)) && old(nodes) <= nodes
      ensures frame == [] ==> status == SstpFail && books == old(books)
      ensures frame != [] ==> status == SstpOkay && books.enqueued == old(books.enqueued) + [DataPacket(frame)]
      ensures sentBytes == old(sentBytes) + |frame| && old(books.handed) <= books.handed
      ensures frame != [] && !old(busy) ==> |books.handed| > |old(books.handed)|
      ensures old(busy) ==> books.handed == old(books.handed)
      ensures old(books.answers) <= books.answers && books.completed == old(books.completed)
      ensures forall k :: |old(books.answers)| <= k < |books.answers| - 1 ==> books.answers[k] == SstpOkay
    {
      hide DataPacket, Balanced;
      if |frame| <= 0 {
        return SstpFail;
      }
      var packet := WrapFrame(frame);
      var item := new TxItem(packet);
      Append(item);
      assert Queued() == old(Queued()) + [packet];
      BalancedEnqueue(books, old(Queued()), Flying(), packet);
      books := books.(enqueued := books.enqueued + [packet]);
      sentBytes := sentBytes + |frame|;
      FlushStart();
      return SstpOkay;
    }
  }

  // The books once the stream has called back.
  function AfterCallback(b: Books): Books {
    if b.handed != [] && Outstanding(b, |b.handed| - 1) then b.(completed := b.completed + {|b.handed| - 1}) else b
  }

  lemma BalancedShape(b: Books, queued: seq<seq<byte>>, flying: seq<seq<byte>>)
    requires Balanced(b, queued, flying)
    ensures |b.answers| == |b.handed| && (flying == [] ==> forall k: nat :: !Outstanding(b, k))
  {
  }

  // Handing over the first queued packet: the books stay balanced, and it is in flight exactly if the
  // answer was SSTP_INPROG.
  lemma BalancedStep(b: Books, before: seq<seq<byte>>, packet: seq<byte>, rest: seq<seq<byte>>, ret: Status)
    requires Balanced(b, before, []) && before == [packet] + rest
    ensures var c := b.(handed := b.handed + [packet], answers := b.answers + [ret]);
      && Balanced(c, rest, if ret == SstpInprog then [packet] else [])
      && (Stalled(c) <==> ret != SstpOkay && ret != SstpInprog)
  {
    assert b.handed + ([packet] + rest) == b.handed + [packet] + rest;
    var c := b.(handed := b.handed + [packet], answers := b.answers + [ret]);
    forall k: nat | Outstanding(c, k)
      ensures k == |b.handed|
    {
      assert k < |b.handed| ==> Outstanding(b, k);
    }
  }

  lemma BalancedCallback(b: Books, queued: seq<seq<byte>>, flying: seq<seq<byte>>)
    requires Balanced(b, queued, flying)
    ensures Balanced(AfterCallback(b), queued, [])
    ensures flying == [] ==> AfterCallback(b) == b
  {
    var c := AfterCallback(b);
    forall k: nat | Outstanding(c, k)
      ensures false
    {
      assert Outstanding(b, k);
    }
  }

  lemma BalancedEnqueue(b: Books, queued: seq<seq<byte>>, flying: seq<seq<byte>>, packet: seq<byte>)
    requires Balanced(b, queued, flying)
    ensures Balanced(b.(enqueued := b.enqueued + [packet]), queued + [packet], flying)
  {
    var c := b.(enqueued := b.enqueued + [packet]);
    forall k: nat | Outstanding(c, k)
      ensures Outstanding(b, k)
    {
    }
  }

  // ----- laws of every run -----

  /** If the stream answered that a packet is in progress, the next one is handed over only after it has
      called back about it. */
  lemma InTurn(b: Books, queued: seq<seq<byte>>, flying: seq<seq<byte>>, k: nat)
    requires Balanced(b, queued, flying) && k + 1 < |b.handed| && b.answers[k] == SstpInprog
    ensures k in b.completed
  {
    assert Outstanding(b, k) ==> k == |b.handed| - 1;
  }

  function InProgress(answers: seq<Status>): set<nat> {
    set k: nat | k < |answers| && answers[k] == SstpInprog
  }

  lemma {:induction false} CountAnswers(answers: seq<Status>)
    ensures Answered(answers, true) + Answered(answers, false) + |InProgress(answers)| == |answers|
  {
    if answers != [] {
      var n := |answers| - 1;
      var front := answers[..n];
      CountAnswers(front);
      assert InProgress(answers) == InProgress(front) + if answers[n] == SstpInprog then {n} else {};
    }
  }

  /** Conservation: every packet enqueued was sent at once, or was completed later, or was dropped because
      its send failed, or is in flight, or waits. */
  lemma Conserved(b: Books, queued: seq<seq<byte>>, flying: seq<seq<byte>>)
    requires Balanced(b, queued, flying)
    ensures |b.enqueued| ==
      Answered(b.answers, true) + |b.completed| + Answered(b.answers, false) + |flying| + |queued|
  {
    CountAnswers(b.answers);
    var last := |b.handed| - 1;
    var flies := if b.handed != [] && Outstanding(b, last) then {last} else {};
    forall k: nat
      ensures k in InProgress(b.answers) <==> k in b.completed || k in flies
    {
      assert Outstanding(b, k) ==> k == last;
      assert k in InProgress(b.answers) <==> k in b.completed || Outstanding(b, k);
    }
    assert InProgress(b.answers) == b.completed + flies;
  }
}
