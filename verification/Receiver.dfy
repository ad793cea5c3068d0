/** The client's state and transitions, as values. Class `Client` is proved against these. */
module Receiver {
  import opened Bytes
  import opened SequenceNumbers
  import opened Wire

  datatype ClientState = ClientState(
    seqNum: uint32,
    totalPackets: nat,
    packetCounter: nat,
    totalBytes: nat,
    bytesWritten: nat,
    windowQueue: seq<uint32>,
    outOfOrder: map<uint32, Packet>,
    written: seq<byte>,
    running: bool)

  /** What the transitions need: a full window, and no more written than announced. */
  predicate Ready(cfg: Config, c: ClientState) {
    |c.windowQueue| == cfg.window && c.bytesWritten <= c.totalBytes
  }

  /** `fillWindow`. */
  function FillWindow(cfg: Config, c: ClientState): (r: ClientState)
    ensures |c.windowQueue| <= cfg.window ==> |r.windowQueue| == cfg.window
    ensures r == c.(seqNum := r.seqNum, windowQueue := r.windowQueue)
    decreases cfg.window - |c.windowQueue|
  {
    if |c.windowQueue| < cfg.window then
      var number := NextSeq(cfg, c.seqNum);
      FillWindow(cfg, c.(seqNum := number, windowQueue := c.windowQueue + [number]))
    else
      c
  }

  /** The client once it knows the file size. */
  function Startup(cfg: Config, src: Source): (r: ClientState)
    ensures Ready(cfg, r)
  {
    FillWindow(cfg, ClientState(0, src.Packets(), 0, |src.file|, 0, [], map[], [], true))
  }

  /** `n` copies of an acknowledgement. */
  function Copies(word: uint32, n: nat): seq<uint32> {
    seq(n, _ => word)
  }

  /** `sendAck`: one acknowledgement, or eleven with the last packet, after which the client exits. */
  function SendAck(cfg: Config, c: ClientState, number: uint32): (ClientState, seq<uint32>) {
    var c1 := c.(packetCounter := c.packetCounter + 1);
    if c1.packetCounter == c1.totalPackets then
      (c1.(running := false), Copies(NetworkOrder(cfg, number), 11))
    else
      (c1, Copies(NetworkOrder(cfg, number), 1))
  }

  /** Writing the useful part of a packet and acknowledging it. */
  function Write(cfg: Config, c: ClientState, pkt: Packet): (r: (ClientState, seq<uint32>))
    requires c.bytesWritten <= c.totalBytes
  {
    var write := Min(PAYLOAD_SIZE, c.totalBytes - c.bytesWritten);
    SendAck(cfg, c.(written := c.written + pkt.data[..write], bytesWritten := c.bytesWritten + write), pkt.seqNum)
  }

  /** Sliding the window by one. */
  function Slide(cfg: Config, c: ClientState): (r: ClientState)
    requires |c.windowQueue| == cfg.window
    ensures |r.windowQueue| == cfg.window
  {
    FillWindow(cfg, c.(windowQueue := c.windowQueue[1..]))
  }

  /** `checkOutOfOrder`: drain buffered packets while the front of the window is buffered. */
  function CheckOutOfOrder(cfg: Config, c: ClientState): (r: (ClientState, seq<uint32>))
    requires Ready(cfg, c)
    ensures Ready(cfg, r.0)
    decreases |c.outOfOrder|
  {
    var front := c.windowQueue[0];
    if front in c.outOfOrder then
      var (c1, acks) := Write(cfg, c, c.outOfOrder[front].(seqNum := front));
      if !c1.running then (c1, acks) else
      var c2 := Slide(cfg, c1.(outOfOrder := c1.outOfOrder - {front}));
      assert c2.outOfOrder.Keys == c.outOfOrder.Keys - {front};
      var (c3, more) := CheckOutOfOrder(cfg, c2);
      (c3, acks + more)
    else
      (c, [])
  }

  /** One datagram in `recvFile`. After `exit` there is no client to receive it. */
  function Receive(cfg: Config, c: ClientState, pkt: Packet): (r: (ClientState, seq<uint32>))
    requires Ready(cfg, c)
    ensures Ready(cfg, r.0)
  {
    if !c.running then (c, []) else
    if pkt.seqNum == c.windowQueue[0] then
      var (c1, acks) := Write(cfg, c, pkt);
      if !c1.running then (c1, acks) else
      var (c2, more) := CheckOutOfOrder(cfg, Slide(cfg, c1));
      (c2, acks + more)
    else
      (if pkt.seqNum in c.windowQueue then c.(outOfOrder := c.outOfOrder[pkt.seqNum := pkt]) else c,
       Copies(NetworkOrder(cfg, pkt.seqNum), 1))
  }

  /** `recvFile` over a list of datagrams, and every acknowledgement sent on the way. */
  function ReceiveAll(cfg: Config, c: ClientState, pkts: seq<Packet>): (r: (ClientState, seq<uint32>))
    requires Ready(cfg, c)
    ensures Ready(cfg, r.0)
  {
    if pkts == [] then (c, []) else
    var (c1, acks) := ReceiveAll(cfg, c, pkts[..|pkts| - 1]);
    var (c2, more) := Receive(cfg, c1, pkts[|pkts| - 1]);
    (c2, acks + more)
  }

  lemma ReceiveNext(cfg: Config, c: ClientState, pkts: seq<Packet>, i: nat)
    requires Ready(cfg, c) && i < |pkts|
    ensures var (c1, acks) := ReceiveAll(cfg, c, pkts[..i]);
      var (c2, more) := Receive(cfg, c1, pkts[i]);
      ReceiveAll(cfg, c, pkts[..i + 1]) == (c2, acks + more)
  {
    hide Receive;
    assert pkts[..i + 1][..i] == pkts[..i];
  }

  lemma ReceiveOneMore(cfg: Config, c: ClientState, pkts: seq<Packet>, pkt: Packet)
    requires Ready(cfg, c)
    ensures ReceiveAll(cfg, c, pkts + [pkt]).0 == Receive(cfg, ReceiveAll(cfg, c, pkts).0, pkt).0
  {
    hide Receive;
    assert (pkts + [pkt])[..|pkts|] == pkts;
  }

  /** A client that has exited answers nothing more. */
  lemma {:induction false} ReceiveStopped(cfg: Config, c: ClientState, pkts: seq<Packet>, n: nat)
    requires Ready(cfg, c) && n <= |pkts| && !ReceiveAll(cfg, c, pkts[..n]).0.running
    ensures ReceiveAll(cfg, c, pkts) == ReceiveAll(cfg, c, pkts[..n])
    decreases |pkts|
  {
    if n == |pkts| {
      assert pkts[..n] == pkts;
    } else {
      var before := pkts[..|pkts| - 1];
      assert before[..n] == pkts[..n];
      ReceiveStopped(cfg, c, before, n);
      var (c1, acks) := ReceiveAll(cfg, c, before);
      ExitedReceive(cfg, c1, pkts[|pkts| - 1]);
      assert acks + [] == acks;
    }
  }

  // ---------------------------------------------------------------------------------------------
  // The state in terms of unbounded packet indices
  // ---------------------------------------------------------------------------------------------

  /** The window holds the numbers of the next packets expected. */
  ghost predicate WindowFrom(cfg: Config, queue: seq<uint32>, next: nat) {
    forall k | 0 <= k < |queue| :: queue[k] == SeqOf(cfg, next + k)
  }

  /**
   * The reorder buffer holds exactly the packets with indices in `buffered`, all of them in the
   * window, each under its own sequence number.
   */
  ghost predicate Buffers(cfg: Config, src: Source, c: ClientState, next: nat, buffered: set<nat>) {
    && (forall i <- buffered :: next <= i < next + cfg.window)
    && (forall i: nat | next <= i < next + cfg.window :: SeqOf(cfg, i) in c.outOfOrder <==> i in buffered)
    && (forall i <- buffered :: SeqOf(cfg, i) in c.outOfOrder
                             && c.outOfOrder[SeqOf(cfg, i)] == src.PacketAt(cfg, i))
    && (forall number <- c.outOfOrder :: number in c.windowQueue)
  }

  /** The client has written the packets before `next` and buffered those in `buffered`. */
  ghost predicate Tracks(cfg: Config, src: Source, c: ClientState, next: nat, buffered: set<nat>) {
    && c.totalPackets == src.Packets()
    && c.totalBytes == |src.file|
    && c.packetCounter == next <= src.Packets()
    && c.written == src.Prefix(next)
    && c.bytesWritten == |c.written|
    && |c.windowQueue| == cfg.window
    && (c.running <==> next < src.Packets())
    && (c.running ==>
          && WindowFrom(cfg, c.windowQueue, next)
          && c.seqNum == Counter(cfg, next + cfg.window)
          && Buffers(cfg, src, c, next, buffered))
  }

  /** Moving the run of buffered indices that starts at `next` out of the buffer. */
  function Drained(next: nat, buffered: set<nat>): (nat, set<nat>)
    decreases |buffered|
  {
    if next in buffered then Drained(next + 1, buffered - {next}) else (next, buffered)
  }

  /** The run moved out is the maximal one: consecutive from `next`, and its end is not buffered. */
  lemma {:induction false} DrainedIsMaximalRun(next: nat, buffered: set<nat>)
    ensures var (end, rest) := Drained(next, buffered);
      && next <= end && end !in buffered
      && (forall i: nat | next <= i < end :: i in buffered)
      && rest == set i | i in buffered && !(next <= i < end)
    decreases |buffered|
  {
    if next in buffered {
      var (end, rest) := Drained(next + 1, buffered - {next});
      DrainedIsMaximalRun(next + 1, buffered - {next});
      forall i: nat | next <= i < end
        ensures i in buffered
      {
        assert i == next || i in buffered - {next};
      }
    }
  }

  /** The packets acknowledged while `next` goes from `from` to `to`, the last one eleven times. */
  function RunAcks(total: nat, from: nat, upto: nat): seq<nat>
    decreases upto - from
  {
    if from >= upto then [] else seq(if from + 1 == total then 11 else 1, _ => from) + RunAcks(total, from + 1, upto)
  }

  /** Words that acknowledge the packets `ids`, in order. */
  ghost predicate Acknowledge(cfg: Config, words: seq<uint32>, ids: seq<nat>) {
    && |words| == |ids|
    && forall k | 0 <= k < |ids| :: words[k] == AckWord(cfg, ids[k])
  }

  lemma {:induction false} FillWindowFrom(cfg: Config, c: ClientState, next: nat)
    requires |c.windowQueue| <= cfg.window && WindowFrom(cfg, c.windowQueue, next)
    requires c.seqNum == Counter(cfg, next + |c.windowQueue|)
    ensures var r := FillWindow(cfg, c);
      && WindowFrom(cfg, r.windowQueue, next)
      && r.seqNum == Counter(cfg, next + cfg.window)
      && c.windowQueue <= r.windowQueue
    decreases cfg.window - |c.windowQueue|
  {
    hide SeqOf;
    if |c.windowQueue| < cfg.window {
      CounterStep(cfg, next + |c.windowQueue|);
      var number := NextSeq(cfg, c.seqNum);
      FillWindowFrom(cfg, c.(seqNum := number, windowQueue := c.windowQueue + [number]), next);
    }
  }

  /** The client starts with nothing written and nothing buffered. */
  lemma StartupTracks(cfg: Config, src: Source)
    requires src.file != []
    ensures Tracks(cfg, src, Startup(cfg, src), 0, {})
  {
    hide SeqOf;
    FillWindowFrom(cfg, ClientState(0, src.Packets(), 0, |src.file|, 0, [], map[], [], true), 0);
  }

  /** Writing packet `next` while staying at the same window. */
  lemma WriteNext(cfg: Config, src: Source, c: ClientState, next: nat, buffered: set<nat>)
    requires Tracks(cfg, src, c, next, buffered) && c.running
    ensures var (c1, acks) := Write(cfg, c, src.PacketAt(cfg, next));
      && c1 == c.(written := src.Prefix(next + 1), bytesWritten := |src.Prefix(next + 1)|,
                  packetCounter := next + 1, running := next + 1 < src.Packets())
      && Acknowledge(cfg, acks, RunAcks(src.Packets(), next, next + 1))
  {
    hide SeqOf;
    src.PrefixStep(next);
    assert RunAcks(src.Packets(), next + 1, next + 1) == [];
  }

  /** Sliding the window. */
  lemma SlideWindow(cfg: Config, c: ClientState, next: nat)
    requires |c.windowQueue| == cfg.window && WindowFrom(cfg, c.windowQueue, next)
    requires c.seqNum == Counter(cfg, next + cfg.window)
    ensures var r := Slide(cfg, c);
      && r == c.(seqNum := r.seqNum, windowQueue := r.windowQueue)
      && WindowFrom(cfg, r.windowQueue, next + 1)
      && r.seqNum == Counter(cfg, next + 1 + cfg.window)
      && c.windowQueue[1..] <= r.windowQueue
  {
    hide SeqOf;
    FillWindowFrom(cfg, c.(windowQueue := c.windowQueue[1..]), next + 1);
  }

  /** The number that enters a window is no number of the old window but, perhaps, its front. */
  lemma EnteringNumberIsFresh(cfg: Config, queue: seq<uint32>, next: nat)
    requires cfg.window <= cfg.modulus
    requires |queue| == cfg.window && WindowFrom(cfg, queue, next)
    ensures SeqOf(cfg, next + cfg.window) !in queue[1..]
  {
    hide SeqOf;
    forall k | 1 <= k < cfg.window
      ensures queue[k] != SeqOf(cfg, next + cfg.window)
    {
      SeqOfInjective(cfg, next + k, next + cfg.window);
    }
  }

  /** Sliding the window past a packet that is not buffered keeps the buffer. */
  lemma SlideBuffers(cfg: Config, src: Source, c: ClientState, next: nat, buffered: set<nat>)
    requires cfg.window <= cfg.modulus
    requires |c.windowQueue| == cfg.window && WindowFrom(cfg, c.windowQueue, next)
    requires c.seqNum == Counter(cfg, next + cfg.window)
    requires Buffers(cfg, src, c, next, buffered) && next !in buffered
    ensures Buffers(cfg, src, Slide(cfg, c), next + 1, buffered)
  {
    hide SeqOf, Source.PacketAt, Slide, WindowFrom;
    SlideWindow(cfg, c, next);
    EnteringNumberIsFresh(cfg, c.windowQueue, next);
    FrontBuffered(cfg, src, c, next, buffered);
    KeysBehindFront(c);
    var r := Slide(cfg, c);
    forall i: nat | next + 1 <= i < next + 1 + cfg.window
      ensures SeqOf(cfg, i) in r.outOfOrder <==> i in buffered
    {
      if i == next + cfg.window {
        assert i !in buffered;
      }
    }
  }

  lemma KeysBehindFront(c: ClientState)
    requires c.windowQueue != [] && c.windowQueue[0] !in c.outOfOrder
    requires forall number <- c.outOfOrder :: number in c.windowQueue
    ensures forall number <- c.outOfOrder :: number in c.windowQueue[1..]
  {
    assert c.windowQueue == [c.windowQueue[0]] + c.windowQueue[1..];
  }

  /** Taking the front packet out of the buffer. */
  lemma EraseFront(cfg: Config, src: Source, c: ClientState, next: nat, buffered: set<nat>)
    requires cfg.window <= cfg.modulus
    requires |c.windowQueue| == cfg.window && WindowFrom(cfg, c.windowQueue, next)
    requires Buffers(cfg, src, c, next, buffered)
    ensures var r := c.(outOfOrder := c.outOfOrder - {c.windowQueue[0]});
      Buffers(cfg, src, r, next, buffered - {next})
  {
    hide SeqOf, Source.PacketAt, WindowFrom;
    FrontIsNext(cfg, c.windowQueue, next);
    forall i: nat | next <= i < next + cfg.window
      ensures SeqOf(cfg, i) == SeqOf(cfg, next) <==> i == next
    {
      SeqOfDistinguishes(cfg, i, next);
    }
  }

  lemma FrontIsNext(cfg: Config, queue: seq<uint32>, next: nat)
    requires queue != [] && WindowFrom(cfg, queue, next)
    ensures queue[0] == SeqOf(cfg, next)
  {
    assert queue[0] == SeqOf(cfg, next + 0);
  }

  lemma BuffersSameBuffer(cfg: Config, src: Source, c: ClientState, d: ClientState, next: nat, buffered: set<nat>)
    requires Buffers(cfg, src, c, next, buffered)
    requires d.outOfOrder == c.outOfOrder && d.windowQueue == c.windowQueue
    ensures Buffers(cfg, src, d, next, buffered)
  {
    hide SeqOf, Source.PacketAt;
  }

  /** The front of the window is buffered exactly if packet `next` is. */
  lemma FrontBuffered(cfg: Config, src: Source, c: ClientState, next: nat, buffered: set<nat>)
    requires |c.windowQueue| == cfg.window && WindowFrom(cfg, c.windowQueue, next)
    requires Buffers(cfg, src, c, next, buffered)
    ensures c.windowQueue[0] in c.outOfOrder <==> next in buffered
    ensures next in buffered ==>
              c.outOfOrder[c.windowQueue[0]].(seqNum := c.windowQueue[0]) == src.PacketAt(cfg, next)
    ensures next !in buffered ==> c.outOfOrder - {c.windowQueue[0]} == c.outOfOrder
  {
    hide SeqOf, Source.ReadAt, WindowFrom;
    FrontIsNext(cfg, c.windowQueue, next);
  }

  lemma NothingBuffered(cfg: Config, src: Source, c: ClientState, next: nat)
    requires |c.windowQueue| == cfg.window && WindowFrom(cfg, c.windowQueue, next)
    requires Buffers(cfg, src, c, next, {})
    ensures c.outOfOrder == map[]
  {
    hide SeqOf, Source.PacketAt;
    forall number | number in c.windowQueue
      ensures number !in c.outOfOrder
    {
      var k :| 0 <= k < |c.windowQueue| && c.windowQueue[k] == number;
      assert SeqOf(cfg, next + k) !in c.outOfOrder;
    }
  }

  /** After writing packet `next` the client, unless done, tracks `next + 1`. */
  lemma AdvanceTracks(cfg: Config, src: Source, c: ClientState, next: nat, buffered: set<nat>)
    requires cfg.window <= cfg.modulus
    requires Tracks(cfg, src, c, next, buffered) && c.running
    ensures var c1 := Write(cfg, c, src.PacketAt(cfg, next)).0;
      var c2 := c1.(outOfOrder := c1.outOfOrder - {c1.windowQueue[0]});
      && (next + 1 < src.Packets() ==> Tracks(cfg, src, Slide(cfg, c2), next + 1, buffered - {next}))
      && (next !in buffered ==> c2 == c1)
      && c1.windowQueue == c.windowQueue && c1.outOfOrder == c.outOfOrder
  {
    hide SeqOf, Source.ReadAt, Source.Packets, Slide, WindowFrom, Buffers, Write, RunAcks, Acknowledge, Source.PacketAt;
    WriteNext(cfg, src, c, next, buffered);
    var c1 := Write(cfg, c, src.PacketAt(cfg, next)).0;
    BuffersSameBuffer(cfg, src, c, c1, next, buffered);
    EraseFront(cfg, src, c1, next, buffered);
    FrontBuffered(cfg, src, c1, next, buffered);
    var c2 := c1.(outOfOrder := c1.outOfOrder - {c1.windowQueue[0]});
    SlideWindow(cfg, c2, next);
    SlideBuffers(cfg, src, c2, next, buffered - {next});
  }

  /**
   * `checkOutOfOrder` writes and acknowledges exactly the maximal run of buffered packets that
   * starts at the front, in order, and leaves the rest buffered; it exits only with the last packet.
   */
  lemma {:induction false} DrainTracks(cfg: Config, src: Source, c: ClientState, next: nat, buffered: set<nat>)
    requires cfg.window <= cfg.modulus
    requires Tracks(cfg, src, c, next, buffered) && c.running
    requires forall i <- buffered :: i < src.Packets()
    ensures var (c', acks) := CheckOutOfOrder(cfg, c);
      var (end, rest) := Drained(next, buffered);
      && Tracks(cfg, src, c', end, rest)
      && Acknowledge(cfg, acks, RunAcks(src.Packets(), next, end))
    decreases |buffered|
  {
    hide SeqOf, Source.ReadAt, Source.Packets, Slide, RunAcks, WindowFrom, Buffers, Source.PacketAt, Write;
    var front := c.windowQueue[0];
    FrontBuffered(cfg, src, c, next, buffered);
    if next in buffered {
      WriteNext(cfg, src, c, next, buffered);
      AdvanceTracks(cfg, src, c, next, buffered);
      var c1 := Write(cfg, c, src.PacketAt(cfg, next)).0;
      var end := Drained(next, buffered).0;
      DrainedIsMaximalRun(next + 1, buffered - {next});
      if c1.running {
        DrainTracks(cfg, src, Slide(cfg, c1.(outOfOrder := c1.outOfOrder - {front})), next + 1, buffered - {next});
        RunAcksSplit(src.Packets(), next, end);
      } else {
        assert next + 1 !in buffered - {next};
      }
    } else {
      NoAcks(src.Packets(), next);
    }
  }

  lemma NoAcks(total: nat, at: nat)
    ensures RunAcks(total, at, at) == []
  {
  }

  lemma RunAcksSplit(total: nat, from: nat, upto: nat)
    requires from < upto
    ensures RunAcks(total, from, upto) == RunAcks(total, from, from + 1) + RunAcks(total, from + 1, upto)
  {
    assert RunAcks(total, from + 1, from + 1) == [];
  }

  /** What the receipt of packet `j` does, in terms of unbounded indices. */
  function Received(cfg: Config, total: nat, next: nat, buffered: set<nat>, j: nat): (nat, set<nat>, seq<nat>) {
    if j == next then
      if next + 1 == total then (next + 1, buffered, RunAcks(total, next, next + 1)) else
      var (end, rest) := Drained(next + 1, buffered);
      (end, rest, RunAcks(total, next, end))
    else
      (next, if next < j < next + cfg.window then buffered + {j} else buffered, [j])
  }

  /**
   * The client recognises every packet that is no further ahead than its window and no further
   * behind than the sequence numbers allow: it does what a client reading unbounded indices would.
   */
  lemma ReceiveTracks(cfg: Config, src: Source, c: ClientState, next: nat, buffered: set<nat>, j: nat)
    requires cfg.window <= cfg.modulus
    requires Tracks(cfg, src, c, next, buffered) && c.running && next !in buffered
    requires forall i <- buffered :: i < src.Packets()
    requires next + cfg.window <= j + cfg.modulus && j < next + cfg.window
    ensures var (c', acks) := Receive(cfg, c, src.PacketAt(cfg, j));
      var (next', buffered', ids) := Received(cfg, src.Packets(), next, buffered, j);
      && Tracks(cfg, src, c', next', buffered')
      && Acknowledge(cfg, acks, ids)
  {
    hide SeqOf, Source.ReadAt, Source.Packets, Slide, CheckOutOfOrder, RunAcks, WindowFrom, Buffers, Write;
    WindowMembership(cfg, c.windowQueue, next, j);
    if j == next {
      WriteNext(cfg, src, c, next, buffered);
      AdvanceTracks(cfg, src, c, next, buffered);
      var c1 := Write(cfg, c, src.PacketAt(cfg, next)).0;
      if c1.running {
        assert buffered - {next} == buffered;
        DrainTracks(cfg, src, Slide(cfg, c1), next + 1, buffered);
        DrainedIsMaximalRun(next + 1, buffered);
        RunAcksSplit(src.Packets(), next, Drained(next + 1, buffered).0);
      }
    } else if next <= j {
      BufferPacket(cfg, src, c, next, buffered, j);
    }
  }

  lemma ExitedReceive(cfg: Config, c: ClientState, pkt: Packet)
    requires Ready(cfg, c) && !c.running
    ensures Receive(cfg, c, pkt) == (c, [])
  {
  }

  /** No aliasing: the two tests of `recvFile` decide exactly the two questions about the index. */
  lemma WindowMembership(cfg: Config, queue: seq<uint32>, next: nat, j: nat)
    requires |queue| == cfg.window && WindowFrom(cfg, queue, next)
    requires next + cfg.window <= j + cfg.modulus && j < next + cfg.modulus
    ensures SeqOf(cfg, j) == queue[0] <==> j == next
    ensures SeqOf(cfg, j) in queue <==> next <= j < next + cfg.window
  {
    hide SeqOf;
    assert queue[0] == SeqOf(cfg, next + 0);
    SeqOfDistinguishes(cfg, j, next);
    if next <= j < next + cfg.window {
      NumberInWindow(cfg, queue, next, j);
    }
    if SeqOf(cfg, j) in queue {
      var k :| 0 <= k < |queue| && queue[k] == SeqOf(cfg, j);
      SeqOfDistinguishes(cfg, next + k, j);
    }
  }

  lemma BufferPacket(cfg: Config, src: Source, c: ClientState, next: nat, buffered: set<nat>, j: nat)
    requires cfg.window <= cfg.modulus
    requires |c.windowQueue| == cfg.window && WindowFrom(cfg, c.windowQueue, next)
    requires Buffers(cfg, src, c, next, buffered)
    requires next <= j < next + cfg.window
    ensures var r := c.(outOfOrder := c.outOfOrder[SeqOf(cfg, j) := src.PacketAt(cfg, j)]);
      Buffers(cfg, src, r, next, buffered + {j})
  {
    hide SeqOf, Source.PacketAt, WindowFrom;
    NumberInWindow(cfg, c.windowQueue, next, j);
    forall i: nat | next <= i < next + cfg.window
      ensures SeqOf(cfg, i) == SeqOf(cfg, j) <==> i == j
    {
      SeqOfDistinguishes(cfg, i, j);
    }
  }

  lemma NumberInWindow(cfg: Config, queue: seq<uint32>, next: nat, j: nat)
    requires WindowFrom(cfg, queue, next) && next <= j < next + |queue|
    ensures SeqOf(cfg, j) in queue
  {
    assert queue[j - next] == SeqOf(cfg, next + (j - next));
  }

  lemma ReceivedNext(cfg: Config, total: nat, next: nat, buffered: set<nat>)
    requires next + 1 < total && next + 1 !in buffered
    ensures Received(cfg, total, next, buffered, next) == (next + 1, buffered, [next])
  {
    NoAcks(total, next + 1);
    assert Drained(next + 1, buffered) == (next + 1, buffered);
    assert RunAcks(total, next, next + 1) == seq(1, _ => next) + [] == [next];
  }

  lemma ReceivedAhead(cfg: Config, total: nat, next: nat, j: nat)
    requires next <= j < next + cfg.window && next + 1 <= total
    ensures var (next', buffered', acks) := Received(cfg, total, next, {}, j);
      && (j == next ==> next' == next + 1)
      && (j > next ==> next' == next && buffered' == {j} && acks == [j])
  {
    assert {} + {j} == {j};
  }

  lemma ReceivedEarly(cfg: Config, total: nat, next: nat, buffered: set<nat>, j: nat)
    requires next < j < next + cfg.window
    ensures Received(cfg, total, next, buffered, j) == (next, buffered + {j}, [j])
  {
  }

  lemma DrainOne(cfg: Config, total: nat, m: nat)
    requires 1 <= m < total
    ensures Received(cfg, total, m - 1, {m}, m - 1).0 == m + 1
  {
    assert {m} - {m} == {};
    assert Drained(m + 1, {}).0 == m + 1;
    assert Drained(m, {m}).0 == Drained(m + 1, {m} - {m}).0;
  }

  /** A client with nothing buffered writes what carries the number it expects, whatever the window. */
  lemma InOrderReceive(cfg: Config, src: Source, c: ClientState, next: nat)
    requires Tracks(cfg, src, c, next, {}) && Ready(cfg, c) && next + 1 < src.Packets()
    ensures var (c', acks) := Receive(cfg, c, src.PacketAt(cfg, next));
      && Tracks(cfg, src, c', next + 1, {})
      && acks == [AckWord(cfg, next)]
  {
    hide SeqOf, Source.PacketAt, Source.Packets, Slide, Write, Buffers, WindowFrom, NetworkOrder, Source.Prefix;
    WriteNext(cfg, src, c, next, {});
    NoAcks(src.Packets(), next + 1);
    assert RunAcks(src.Packets(), next, next + 1) == seq(1, _ => next) + [] == [next];
    FrontIsNext(cfg, c.windowQueue, next);
    NothingBuffered(cfg, src, c, next);
    var (c1, acks) := Write(cfg, c, src.PacketAt(cfg, next));
    assert acks == [AckWord(cfg, next)];
    SlideWindow(cfg, c1, next);
    var c2 := Slide(cfg, c1);
    assert c2.outOfOrder == map[];
    EmptyBuffers(cfg, src, c2, next + 1);
    assert CheckOutOfOrder(cfg, c2) == (c2, []);
    NumberOf(cfg, src, next);
    assert acks + [] == acks;
  }

  lemma EmptyBuffers(cfg: Config, src: Source, c: ClientState, next: nat)
    requires c.outOfOrder == map[]
    ensures Buffers(cfg, src, c, next, {})
  {
  }

  lemma NumberOf(cfg: Config, src: Source, i: nat)
    ensures src.PacketAt(cfg, i).seqNum == SeqOf(cfg, i)
  {
  }

  /** Receiving the next packet always moves the client on. */
  lemma ReceivedAdvances(cfg: Config, total: nat, next: nat, buffered: set<nat>)
    ensures Received(cfg, total, next, buffered, next).0 > next
  {
    DrainedIsMaximalRun(next + 1, buffered);
  }

  /** Whatever carries a number from further back in the window is stored under it, over what was there. */
  lemma EarlyReceive(cfg: Config, c: ClientState, pkt: Packet)
    requires Ready(cfg, c) && c.running && pkt.seqNum in c.windowQueue && pkt.seqNum != c.windowQueue[0]
    ensures var (c', acks) := Receive(cfg, c, pkt);
      && c' == c.(outOfOrder := c'.outOfOrder) && acks == [NetworkOrder(cfg, pkt.seqNum)]
      && c'.outOfOrder.Keys == c.outOfOrder.Keys + {pkt.seqNum} && c'.outOfOrder[pkt.seqNum] == pkt
      && forall number <- c.outOfOrder :: number != pkt.seqNum ==> c'.outOfOrder[number] == c.outOfOrder[number]
  {
    assert Copies(NetworkOrder(cfg, pkt.seqNum), 1) == [NetworkOrder(cfg, pkt.seqNum)];
  }

  /** Whatever carries a number outside the window is acknowledged and dropped. */
  lemma OutsideReceive(cfg: Config, c: ClientState, pkt: Packet)
    requires Ready(cfg, c) && c.running && pkt.seqNum !in c.windowQueue
    ensures Receive(cfg, c, pkt) == (c, [NetworkOrder(cfg, pkt.seqNum)])
  {
    assert Copies(NetworkOrder(cfg, pkt.seqNum), 1) == [NetworkOrder(cfg, pkt.seqNum)];
    assert c.windowQueue[0] in c.windowQueue;
  }
}
