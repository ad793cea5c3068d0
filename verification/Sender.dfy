/** The server's state and transitions, as values. Class `Server` is proved against these. */
module Sender {
  import opened Bytes
  import opened SequenceNumbers
  import opened Wire

  /** Sending; every packet acknowledged; or stopped after too many resends. */
  datatype Status = Running | Complete | GaveUp

  datatype ServerState = ServerState(
    seqNum: uint32,
    totalPackets: nat,
    packetsInMem: nat,
    ackCounter: nat,
    resendCnt: nat,
    lastResend: uint32,
    filePos: nat,
    windowQueue: seq<Packet>,
    outOfOrder: set<uint32>,
    status: Status)

  /** What a blocked server can wake up to: a word from the socket, or the receive timeout. */
  datatype Event = Ack(word: uint32) | Timeout

  function Startup(src: Source): ServerState {
    ServerState(0, src.Packets(), 0, 0, 0, 0, 0, [], {}, Running)
  }

  /** `buildPacket`, and the push and count that follow it in `fillWindow`. */
  function PushNext(cfg: Config, src: Source, s: ServerState): ServerState {
    var number := NextSeq(cfg, s.seqNum);
    s.(seqNum := number,
       filePos := s.filePos + src.ReadSize(s.filePos),
       windowQueue := s.windowQueue + [Packet(number, src.ReadAt(s.filePos))],
       packetsInMem := s.packetsInMem + 1)
  }

  /** `fillWindow`: the new state and the packets sent. */
  function FillWindow(cfg: Config, src: Source, s: ServerState): (ServerState, seq<Packet>)
    decreases s.totalPackets - s.packetsInMem
  {
    if |s.windowQueue| < cfg.window && s.packetsInMem < s.totalPackets then
      var s1 := PushNext(cfg, src, s);
      var (s2, sent) := FillWindow(cfg, src, s1);
      (s2, [s1.windowQueue[|s.windowQueue|]] + sent)
    else
      (s, [])
  }

  /** `reSend`; the packet sent is the front of the window. */
  function ReSend(s: ServerState): ServerState
    requires s.windowQueue != []
  {
    var number := s.windowQueue[0].seqNum;
    if s.lastResend == number then
      if s.resendCnt + 1 == 15 then s.(resendCnt := 15, status := GaveUp) else s.(resendCnt := s.resendCnt + 1)
    else
      s.(resendCnt := 0, lastResend := number)
  }

  /** The retirement of the front packet, in `recvAck` and in `checkOutOfOrder`. */
  function PopFront(s: ServerState): ServerState
    requires s.windowQueue != []
  {
    s.(windowQueue := s.windowQueue[1..], ackCounter := s.ackCounter + 1)
  }

  /** `checkOutOfOrder`, with the test of an emptied window made explicit. */
  function CheckOutOfOrder(s: ServerState): ServerState
    decreases |s.windowQueue|
  {
    if s.windowQueue != [] && s.windowQueue[0].seqNum in s.outOfOrder then
      CheckOutOfOrder(PopFront(s.(outOfOrder := s.outOfOrder - {s.windowQueue[0].seqNum})))
    else
      s
  }

  /**
   * `recvAck` on a received word. The comparison uses the word in host order; the set stores it
   * as it came.
   */
  function RecvAck(cfg: Config, s: ServerState, word: uint32): ServerState
    requires s.windowQueue != []
  {
    if NetworkOrder(cfg, word) == s.windowQueue[0].seqNum then
      var s1 := CheckOutOfOrder(PopFront(s));
      if s1.ackCounter == s1.totalPackets then s1.(status := Complete) else s1
    else
      s.(outOfOrder := s.outOfOrder + {word})
  }

  /** The server sits in `recvfrom` with its window filled. */
  predicate Blocked(s: ServerState) {
    s.status.Running? && s.windowQueue != []
  }

  /** From one `recvfrom` to the next: handle the event, then refill the window. */
  function Turn(cfg: Config, src: Source, s: ServerState, e: Event): (ServerState, seq<Packet>) {
    if !Blocked(s) then (s, []) else
    match e
    case Ack(word) =>
      var s1 := RecvAck(cfg, s, word);
      if s1.status.Running? then FillWindow(cfg, src, s1) else (s1, [])
    case Timeout =>
      var s1 := ReSend(s);
      if s1.status.Running? then
        var (s2, sent) := FillWindow(cfg, src, s1);
        (s2, [s.windowQueue[0]] + sent)
      else
        (s1, [s.windowQueue[0]])
  }

  /** `main`'s send loop from its start through a list of events, and everything sent on the way. */
  function Serve(cfg: Config, src: Source, events: seq<Event>): (ServerState, seq<Packet>) {
    if events == [] then FillWindow(cfg, src, Startup(src)) else
    var (s, sent) := Serve(cfg, src, events[..|events| - 1]);
    var (s', more) := Turn(cfg, src, s, events[|events| - 1]);
    (s', sent + more)
  }

  // ---------------------------------------------------------------------------------------------
  // Conservation: what holds whatever arrives on the socket
  // ---------------------------------------------------------------------------------------------

  /** The packets of `src` with indices from `first` on. */
  ghost predicate AreConsecutive(cfg: Config, src: Source, packets: seq<Packet>, first: nat) {
    forall k | 0 <= k < |packets| :: packets[k] == src.PacketAt(cfg, first + k)
  }

  /** At the head of the send loop. */
  ghost predicate Conserved(cfg: Config, src: Source, s: ServerState) {
    && s.totalPackets == src.Packets()
    && s.ackCounter + |s.windowQueue| == s.packetsInMem <= s.totalPackets
    && |s.windowQueue| <= cfg.window
    && AreConsecutive(cfg, src, s.windowQueue, s.ackCounter)
    && s.seqNum == Counter(cfg, s.packetsInMem)
    && s.filePos == Min(PAYLOAD_SIZE * s.packetsInMem, |src.file|)
  }

  /** The window is as full as it can be, and the server knows whether it is done. */
  ghost predicate Settled(cfg: Config, s: ServerState) {
    && |s.windowQueue| == Min(cfg.window, s.totalPackets - s.ackCounter)
    && (s.status.Complete? <==> s.ackCounter == s.totalPackets)
  }

  lemma PushNextConserved(cfg: Config, src: Source, s: ServerState)
    requires Conserved(cfg, src, s) && |s.windowQueue| < cfg.window && s.packetsInMem < s.totalPackets
    ensures var s1 := PushNext(cfg, src, s);
      && Conserved(cfg, src, s1)
      && s1.windowQueue == s.windowQueue + [src.PacketAt(cfg, s.packetsInMem)]
  {
    hide SeqOf;
    CounterStep(cfg, s.packetsInMem);
    src.ReadPosition(s.packetsInMem);
  }

  lemma {:induction false} FillKeepsConserved(cfg: Config, src: Source, s: ServerState)
    requires Conserved(cfg, src, s)
    ensures Conserved(cfg, src, FillWindow(cfg, src, s).0)
    decreases s.totalPackets - s.packetsInMem
  {
    hide Conserved, PushNext;
    if |s.windowQueue| < cfg.window && s.packetsInMem < s.totalPackets {
      PushNextShape(cfg, src, s);
      PushNextConserved(cfg, src, s);
      FillKeepsConserved(cfg, src, PushNext(cfg, src, s));
    }
  }

  lemma PushNextShape(cfg: Config, src: Source, s: ServerState)
    ensures var s1 := PushNext(cfg, src, s);
      && |s1.windowQueue| == |s.windowQueue| + 1
      && s1.windowQueue == s.windowQueue + [s1.windowQueue[|s.windowQueue|]]
      && s1 == s.(seqNum := s1.seqNum, filePos := s1.filePos,
                  windowQueue := s1.windowQueue, packetsInMem := s.packetsInMem + 1)
  {
  }

  /** `fillWindow` only appends to the window, as much as fits and the file provides, and sends that. */
  lemma {:induction false} FillShape(cfg: Config, src: Source, s: ServerState)
    requires |s.windowQueue| <= cfg.window && s.packetsInMem <= s.totalPackets
    ensures var (s', sent) := FillWindow(cfg, src, s);
      && |sent| == Min(cfg.window - |s.windowQueue|, s.totalPackets - s.packetsInMem)
      && s'.windowQueue == s.windowQueue + sent
      && s' == s.(seqNum := s'.seqNum, filePos := s'.filePos,
                  windowQueue := s'.windowQueue, packetsInMem := s.packetsInMem + |sent|)
    decreases s.totalPackets - s.packetsInMem
  {
    hide PushNext;
    if |s.windowQueue| < cfg.window && s.packetsInMem < s.totalPackets {
      PushNextShape(cfg, src, s);
      FillShape(cfg, src, PushNext(cfg, src, s));
    }
  }

  /** `fillWindow` fills the window with the next packets of the file, in order, and sends exactly those. */
  lemma FillConserved(cfg: Config, src: Source, s: ServerState)
    requires Conserved(cfg, src, s)
    ensures var (s', sent) := FillWindow(cfg, src, s);
      && Conserved(cfg, src, s')
      && |s'.windowQueue| == Min(cfg.window, s.totalPackets - s.ackCounter)
      && s'.windowQueue == s.windowQueue + sent
      && s' == s.(seqNum := s'.seqNum, filePos := s'.filePos,
                  windowQueue := s'.windowQueue, packetsInMem := s'.packetsInMem)
      && AreConsecutive(cfg, src, sent, s.packetsInMem)
      && s'.packetsInMem == s.packetsInMem + |sent|
  {
    hide SeqOf, Source.Packets, Source.PacketAt, Counter, FillWindow;
    FillKeepsConserved(cfg, src, s);
    FillShape(cfg, src, s);
    var (s', sent) := FillWindow(cfg, src, s);
    forall k | 0 <= k < |sent|
      ensures sent[k] == src.PacketAt(cfg, s.packetsInMem + k)
    {
      assert sent[k] == s'.windowQueue[|s.windowQueue| + k];
    }
  }

  lemma PopFrontConserved(cfg: Config, src: Source, s: ServerState)
    requires Conserved(cfg, src, s) && s.windowQueue != []
    ensures Conserved(cfg, src, PopFront(s))
  {
    hide SeqOf, Source.ReadAt, Source.Packets;
    var q := s.windowQueue[1..];
    forall k | 0 <= k < |q|
      ensures q[k] == src.PacketAt(cfg, s.ackCounter + 1 + k)
    {
      assert q[k] == s.windowQueue[k + 1];
    }
  }

  lemma {:induction false} CheckOutOfOrderConserved(cfg: Config, src: Source, s: ServerState)
    requires Conserved(cfg, src, s)
    ensures var s' := CheckOutOfOrder(s);
      && Conserved(cfg, src, s')
      && s.ackCounter <= s'.ackCounter
      && s' == s.(outOfOrder := s'.outOfOrder, windowQueue := s'.windowQueue, ackCounter := s'.ackCounter)
    decreases |s.windowQueue|
  {
    hide SeqOf, Source.ReadAt, Source.Packets;
    if s.windowQueue != [] && s.windowQueue[0].seqNum in s.outOfOrder {
      var s0 := s.(outOfOrder := s.outOfOrder - {s.windowQueue[0].seqNum});
      PopFrontConserved(cfg, src, s0);
      CheckOutOfOrderConserved(cfg, src, PopFront(s0));
    }
  }

  /** The numbers of the packets from `from` up to `upto`. */
  function Numbers(cfg: Config, from: nat, upto: nat): set<uint32> {
    set j: nat | from <= j < upto :: SeqOf(cfg, j)
  }

  /**
   * `checkOutOfOrder` retires the maximal run of packets whose numbers are in the set, and takes
   * exactly these numbers out of it.
   */
  lemma {:induction false} CheckOutOfOrderExact(cfg: Config, src: Source, s: ServerState)
    requires Conserved(cfg, src, s) && cfg.window <= cfg.modulus
    ensures var s' := CheckOutOfOrder(s);
      var popped := Numbers(cfg, s.ackCounter, s'.ackCounter);
      && s.ackCounter <= s'.ackCounter <= s.packetsInMem
      && popped <= s.outOfOrder && s'.outOfOrder == s.outOfOrder - popped
      && (s'.ackCounter < s.packetsInMem ==> SeqOf(cfg, s'.ackCounter) !in s.outOfOrder)
    decreases |s.windowQueue|
  {
    hide SeqOf, Source.ReadAt, Source.Packets;
    if s.windowQueue != [] {
      var front := s.windowQueue[0].seqNum;
      assert s.windowQueue[0] == src.PacketAt(cfg, s.ackCounter + 0);
      if front in s.outOfOrder {
        var s1 := PopFront(s.(outOfOrder := s.outOfOrder - {front}));
        PopFrontConserved(cfg, src, s.(outOfOrder := s.outOfOrder - {front}));
        CheckOutOfOrderExact(cfg, src, s1);
        var end := CheckOutOfOrder(s).ackCounter;
        if end < s.packetsInMem {
          SeqOfInjective(cfg, s.ackCounter, end);
        }
        assert Numbers(cfg, s.ackCounter, end) == {front} + Numbers(cfg, s.ackCounter + 1, end);
      }
    }
  }

  /**
   * All that `recvAck` does with a word. The front packet's acknowledgement retires the front packet and
   * the packets behind it whose numbers are in the set, and takes these numbers out; any other word joins
   * the set.
   */
  lemma RecvAckExact(cfg: Config, src: Source, s: ServerState, word: uint32)
    requires Conserved(cfg, src, s) && Blocked(s) && cfg.window <= cfg.modulus
    ensures var s' := RecvAck(cfg, s, word);
      if NetworkOrder(cfg, word) == SeqOf(cfg, s.ackCounter) then
        var popped := Numbers(cfg, s.ackCounter + 1, s'.ackCounter);
        && s.ackCounter < s'.ackCounter <= s.packetsInMem
        && popped <= s.outOfOrder && s'.outOfOrder == s.outOfOrder - popped
        && (s'.ackCounter < s.packetsInMem ==> SeqOf(cfg, s'.ackCounter) !in s.outOfOrder)
        && s'.windowQueue == s.windowQueue[s'.ackCounter - s.ackCounter..]
        && s' == s.(outOfOrder := s'.outOfOrder, windowQueue := s'.windowQueue, ackCounter := s'.ackCounter,
                    status := if s'.ackCounter == s.totalPackets then Complete else Running)
      else
        s' == s.(outOfOrder := s.outOfOrder + {word})
  {
    hide SeqOf, Source.ReadAt, Source.Packets, NetworkOrder, Numbers, CheckOutOfOrder;
    assert s.windowQueue[0] == src.PacketAt(cfg, s.ackCounter + 0);
    if NetworkOrder(cfg, word) == s.windowQueue[0].seqNum {
      PopFrontConserved(cfg, src, s);
      CheckOutOfOrderExact(cfg, src, PopFront(s));
      CheckOutOfOrderConserved(cfg, src, PopFront(s));
      WindowLeft(cfg, src, s, CheckOutOfOrder(PopFront(s)));
    }
  }

  lemma WindowLeft(cfg: Config, src: Source, s: ServerState, s': ServerState)
    requires Conserved(cfg, src, s) && Conserved(cfg, src, s')
    requires s.ackCounter <= s'.ackCounter && s'.packetsInMem == s.packetsInMem
    ensures s'.ackCounter - s.ackCounter <= |s.windowQueue|
    ensures s'.windowQueue == s.windowQueue[s'.ackCounter - s.ackCounter..]
  {
    hide SeqOf, Source.PacketAt, Source.Packets;
    var gone := s'.ackCounter - s.ackCounter;
    forall k | 0 <= k < |s'.windowQueue|
      ensures s'.windowQueue[k] == s.windowQueue[gone + k]
    {
      assert s.windowQueue[gone + k] == src.PacketAt(cfg, s.ackCounter + (gone + k));
    }
  }

  lemma RecvAckConserved(cfg: Config, src: Source, s: ServerState, word: uint32)
    requires Conserved(cfg, src, s) && Settled(cfg, s) && Blocked(s)
    ensures var s' := RecvAck(cfg, s, word);
      && Conserved(cfg, src, s')
      && s'.packetsInMem == s.packetsInMem
      && !s'.status.GaveUp?
      && (s'.status.Complete? <==> s'.ackCounter == s'.totalPackets)
  {
    hide SeqOf, Source.ReadAt, Source.Packets;
    if NetworkOrder(cfg, word) == s.windowQueue[0].seqNum {
      PopFrontConserved(cfg, src, s);
      CheckOutOfOrderConserved(cfg, src, PopFront(s));
    }
  }

  /** Whatever word arrives, and on a timeout too, the next `recvfrom` finds the same invariant. */
  lemma TurnConserved(cfg: Config, src: Source, s: ServerState, e: Event)
    requires Conserved(cfg, src, s) && Settled(cfg, s)
    ensures var (s', sent) := Turn(cfg, src, s, e);
      && Conserved(cfg, src, s') && Settled(cfg, s')
  {
    hide SeqOf, Source.ReadAt, Source.Packets, FillWindow, CheckOutOfOrder, PopFront;
    if Blocked(s) {
      match e
      case Ack(word) =>
        RecvAckConserved(cfg, src, s, word);
        FillConserved(cfg, src, RecvAck(cfg, s, word));
      case Timeout =>
        FillConserved(cfg, src, ReSend(s));
    }
  }

  lemma StoppedTurn(cfg: Config, src: Source, s: ServerState, e: Event)
    requires !Blocked(s)
    ensures Turn(cfg, src, s, e) == (s, [])
  {
  }

  /** A timeout sends the oldest unacknowledged packet again, and nothing else. */
  lemma TimeoutTurn(cfg: Config, src: Source, s: ServerState)
    requires Conserved(cfg, src, s) && Settled(cfg, s) && Blocked(s)
    ensures var (s', sent) := Turn(cfg, src, s, Timeout);
      && sent == [src.PacketAt(cfg, s.ackCounter)]
      && s' == s.(resendCnt := s'.resendCnt, lastResend := s'.lastResend, status := s'.status)
  {
    hide SeqOf, Source.ReadAt, Source.Packets;
    assert s.windowQueue[0] == src.PacketAt(cfg, s.ackCounter + 0);
  }

  /** One more resend of the front packet would be the last. */
  predicate OnTheBrink(cfg: Config, s: ServerState) {
    s.lastResend == SeqOf(cfg, s.ackCounter) && s.resendCnt == 14
  }

  /** A resend makes the server give up only from the brink, and is remembered. */
  lemma ResendGoesOn(cfg: Config, src: Source, s: ServerState)
    requires Blocked(s) && Conserved(cfg, src, s) && Settled(cfg, s)
    requires !OnTheBrink(cfg, s)
    ensures var s' := Turn(cfg, src, s, Timeout).0;
      s'.status.Running? && s'.lastResend == SeqOf(cfg, s.ackCounter)
  {
    hide SeqOf, Source.ReadAt, Source.Packets;
    assert s.windowQueue[0] == src.PacketAt(cfg, s.ackCounter + 0);
    FillConserved(cfg, src, ReSend(s));
  }

  /** ... and from the brink it always does, with one last packet. */
  lemma BrinkGivesUp(cfg: Config, src: Source, s: ServerState)
    requires Blocked(s) && Conserved(cfg, src, s) && Settled(cfg, s)
    requires OnTheBrink(cfg, s)
    ensures var (s', sent) := Turn(cfg, src, s, Timeout);
      s'.status.GaveUp? && sent == [src.PacketAt(cfg, s.ackCounter)]
  {
    hide SeqOf, Source.ReadAt, Source.Packets;
    assert s.windowQueue[0] == src.PacketAt(cfg, s.ackCounter + 0);
  }

  /**
   * At every `recvfrom`, after any list of words and timeouts: the packets retired and the packets
   * in the window add up to the packets read, the window holds those packets in order, it is as
   * full as the file allows, and it is empty only if the transfer is complete.
   */
  lemma {:induction false} ServeConserved(cfg: Config, src: Source, events: seq<Event>)
    requires src.file != []
    ensures var (s, sent) := Serve(cfg, src, events);
      && Conserved(cfg, src, s) && Settled(cfg, s)
      && (s.windowQueue == [] <==> s.status.Complete?)
    decreases |events|
  {
    hide SeqOf, Source.ReadAt;
    if events == [] {
      FillConserved(cfg, src, Startup(src));
    } else {
      hide Turn;
      ServeConserved(cfg, src, events[..|events| - 1]);
      TurnConserved(cfg, src, Serve(cfg, src, events[..|events| - 1]).0, events[|events| - 1]);
    }
  }

  /** Once stopped, the server ignores everything that follows. */
  lemma {:induction false} ServeStopped(cfg: Config, src: Source, events: seq<Event>, n: nat)
    requires n <= |events| && !Blocked(Serve(cfg, src, events[..n]).0)
    ensures Serve(cfg, src, events) == Serve(cfg, src, events[..n])
    decreases |events|
  {
    hide FillWindow;
    if n == |events| {
      assert events[..n] == events;
    } else {
      var before := events[..|events| - 1];
      assert before[..n] == events[..n];
      ServeStopped(cfg, src, before, n);
      assert Serve(cfg, src, before).1 + [] == Serve(cfg, src, before).1;
    }
  }

  lemma ServeOneMore(cfg: Config, src: Source, events: seq<Event>, e: Event)
    ensures Serve(cfg, src, events + [e]).0 == Turn(cfg, src, Serve(cfg, src, events).0, e).0
  {
    hide Turn, FillWindow;
    assert (events + [e])[..|events|] == events;
  }

  // ---------------------------------------------------------------------------------------------
  // The set of early acknowledgements is inert
  // ---------------------------------------------------------------------------------------------

  /** No stored word is a sequence number. */
  ghost predicate NoNumberStored(cfg: Config, s: ServerState) {
    forall w <- s.outOfOrder :: w > cfg.modulus
  }

  /** Retiring the front packet leaves nothing in the window that the set could match. */
  ghost predicate Inert(cfg: Config, s: ServerState) {
    cfg.window == 1 || NoNumberStored(cfg, s)
  }

  /** `checkOutOfOrder` does nothing when the set holds no number, or the window no packet. */
  lemma InertNeverPops(cfg: Config, src: Source, s: ServerState)
    requires Conserved(cfg, src, s)
    requires NoNumberStored(cfg, s) || s.windowQueue == []
    ensures CheckOutOfOrder(s) == s
  {
    hide SeqOf, Source.ReadAt, Source.Packets;
    if s.windowQueue != [] {
      assert s.windowQueue[0] == src.PacketAt(cfg, s.ackCounter + 0);
    }
  }

  /** The front packet's acknowledgement retires that packet alone, unless the set matches the next. */
  lemma FrontAckTurn(cfg: Config, src: Source, s: ServerState)
    requires Conserved(cfg, src, s) && Settled(cfg, s) && Blocked(s)
    requires CheckOutOfOrder(PopFront(s)) == PopFront(s)
    ensures var (s', sent) := Turn(cfg, src, s, Ack(AckWord(cfg, s.ackCounter)));
      && s'.outOfOrder == s.outOfOrder
      && s'.resendCnt == s.resendCnt && s'.lastResend == s.lastResend && !s'.status.GaveUp?
      && s'.ackCounter == s.ackCounter + 1
      && AreConsecutive(cfg, src, sent, s.packetsInMem)
      && |sent| == s'.packetsInMem - s.packetsInMem
  {
    hide SeqOf, Source.ReadAt, Source.Packets, NetworkOrder, CheckOutOfOrder;
    var word := AckWord(cfg, s.ackCounter);
    assert s.windowQueue[0] == src.PacketAt(cfg, s.ackCounter + 0);
    NetworkOrderInvolutive(cfg, SeqOf(cfg, s.ackCounter));
    RecvAckConserved(cfg, src, s, word);
    FillConserved(cfg, src, RecvAck(cfg, s, word));
  }

  /** Any other recent acknowledgement is stored and changes nothing else. */
  lemma EarlyAckTurn(cfg: Config, src: Source, s: ServerState, a: nat)
    requires Conserved(cfg, src, s) && Settled(cfg, s) && Blocked(s)
    requires a < s.ackCounter + cfg.modulus && s.ackCounter < a + cfg.modulus && a != s.ackCounter
    ensures Turn(cfg, src, s, Ack(AckWord(cfg, a))) == (s.(outOfOrder := s.outOfOrder + {AckWord(cfg, a)}), [])
  {
    hide SeqOf, Source.ReadAt, Source.Packets, NetworkOrder, CheckOutOfOrder;
    assert s.windowQueue[0] == src.PacketAt(cfg, s.ackCounter + 0);
    NetworkOrderInvolutive(cfg, SeqOf(cfg, a));
    SeqOfDistinguishes(cfg, a, s.ackCounter);
  }

  /** If the set does not hold the next number, one packet is retired; if it holds that alone, two. */
  lemma NextNotStored(cfg: Config, src: Source, s: ServerState)
    requires Conserved(cfg, src, s) && Blocked(s) && SeqOf(cfg, s.ackCounter + 1) !in s.outOfOrder
    ensures CheckOutOfOrder(PopFront(s)) == PopFront(s)
  {
    hide SeqOf, Source.ReadAt, Source.Packets;
    if |s.windowQueue| > 1 {
      assert s.windowQueue[1] == src.PacketAt(cfg, s.ackCounter + 1);
    }
  }

  lemma SecondPops(cfg: Config, src: Source, s: ServerState)
    requires Conserved(cfg, src, s) && Settled(cfg, s) && Blocked(s)
    requires s.ackCounter + 1 < s.packetsInMem && s.outOfOrder == {SeqOf(cfg, s.ackCounter + 1)}
    ensures var (s', sent) := Turn(cfg, src, s, Ack(AckWord(cfg, s.ackCounter)));
      && s'.ackCounter == s.ackCounter + 2 && s'.outOfOrder == {} && !s'.status.GaveUp?
      && AreConsecutive(cfg, src, sent, s.packetsInMem)
      && |sent| == s'.packetsInMem - s.packetsInMem
  {
    hide SeqOf, Source.ReadAt, Source.Packets, NetworkOrder, CheckOutOfOrder;
    var word := AckWord(cfg, s.ackCounter);
    assert s.windowQueue[0] == src.PacketAt(cfg, s.ackCounter + 0);
    NetworkOrderInvolutive(cfg, SeqOf(cfg, s.ackCounter));
    PopsOne(cfg, src, s);
    RecvAckConserved(cfg, src, s, word);
    FillConserved(cfg, src, RecvAck(cfg, s, word));
  }

  lemma PopsOne(cfg: Config, src: Source, s: ServerState)
    requires Conserved(cfg, src, s) && |s.windowQueue| > 1
    requires s.outOfOrder == {SeqOf(cfg, s.ackCounter + 1)}
    ensures CheckOutOfOrder(PopFront(s)) == PopFront(PopFront(s)).(outOfOrder := {})
  {
    hide SeqOf, Source.ReadAt, Source.Packets;
    assert s.windowQueue[1] == src.PacketAt(cfg, s.ackCounter + 1);
    var s1 := PopFront(s);
    assert s1.windowQueue[0] == s.windowQueue[1];
    assert s1.outOfOrder - {s1.windowQueue[0].seqNum} == {};
    var s2 := PopFront(s1.(outOfOrder := {}));
    assert CheckOutOfOrder(s2) == s2;
  }

  /** With an inert set, an acknowledgement retires the front packet or nothing. */
  lemma AckTurn(cfg: Config, src: Source, s: ServerState, a: nat)
    requires Conserved(cfg, src, s) && Settled(cfg, s) && Blocked(s) && Inert(cfg, s)
    requires a < s.ackCounter + cfg.modulus && s.ackCounter < a + cfg.modulus
    requires HarmlessSet(cfg) || a == s.ackCounter
    ensures var (s', sent) := Turn(cfg, src, s, Ack(AckWord(cfg, a)));
      && Inert(cfg, s')
      && s'.resendCnt == s.resendCnt && s'.lastResend == s.lastResend && !s'.status.GaveUp?
      && s'.ackCounter == (if a == s.ackCounter then s.ackCounter + 1 else s.ackCounter)
      && AreConsecutive(cfg, src, sent, s.packetsInMem)
      && |sent| == s'.packetsInMem - s.packetsInMem
  {
    hide SeqOf, Source.ReadAt, Source.Packets, NetworkOrder, CheckOutOfOrder, Turn;
    if a == s.ackCounter {
      PopFrontConserved(cfg, src, s);
      InertNeverPops(cfg, src, PopFront(s));
      FrontAckTurn(cfg, src, s);
    } else {
      EarlyAckTurn(cfg, src, s, a);
      if cfg.window > 1 {
        AckWordIsNoNumber(cfg, a);
      }
    }
  }

  /** Every word is an acknowledgement of some packet, as a client that only acknowledges sends. */
  ghost predicate AckWordsOnly(cfg: Config, events: seq<Event>) {
    forall e <- events :: e.Ack? ==> exists a: nat :: e.word == AckWord(cfg, a)
  }

  /** How many times in a run the front packet's own acknowledgement arrived. */
  function FrontAcks(cfg: Config, src: Source, events: seq<Event>): nat {
    if events == [] then 0 else
    var before := events[..|events| - 1];
    var s := Serve(cfg, src, before).0;
    var e := events[|events| - 1];
    FrontAcks(cfg, src, before)
      + if e.Ack? && Blocked(s) && NetworkOrder(cfg, e.word) == s.windowQueue[0].seqNum then 1 else 0
  }

  /** The words that arrived in a run while they were not the front packet's acknowledgement. */
  function EarlyWords(cfg: Config, src: Source, events: seq<Event>): set<uint32> {
    if events == [] then {} else
    var before := events[..|events| - 1];
    var s := Serve(cfg, src, before).0;
    var e := events[|events| - 1];
    EarlyWords(cfg, src, before)
      + if e.Ack? && Blocked(s) && NetworkOrder(cfg, e.word) != s.windowQueue[0].seqNum then {e.word} else {}
  }

  /**
   * On a little-endian host, over every run fed with acknowledgements of packets, the set keeps every
   * early word, never matches the window, and each packet is retired by exactly one acknowledgement
   * that carried its number while it was in front.
   */
  lemma {:induction false} SetStaysInert(cfg: Config, src: Source, events: seq<Event>)
    requires cfg.littleEndian && src.file != [] && AckWordsOnly(cfg, events)
    ensures var s := Serve(cfg, src, events).0;
      && NoNumberStored(cfg, s)
      && CheckOutOfOrder(s) == s
      && s.outOfOrder == EarlyWords(cfg, src, events)
      && s.ackCounter == FrontAcks(cfg, src, events)
    decreases |events|
  {
    hide SeqOf, Source.ReadAt, Source.Packets, NetworkOrder;
    ServeConserved(cfg, src, events);
    if events == [] {
      FillConserved(cfg, src, Startup(src));
    } else {
      var before, e := events[..|events| - 1], events[|events| - 1];
      assert e in events;
      assert forall b <- before :: b in events;
      SetStaysInert(cfg, src, before);
      ServeConserved(cfg, src, before);
      TurnKeepsInert(cfg, src, Serve(cfg, src, before).0, e);
    }
    InertNeverPops(cfg, src, Serve(cfg, src, events).0);
  }

  lemma TurnKeepsInert(cfg: Config, src: Source, s: ServerState, e: Event)
    requires Conserved(cfg, src, s) && Settled(cfg, s) && NoNumberStored(cfg, s)
    requires cfg.littleEndian
    requires e.Ack? ==> exists a: nat :: e.word == AckWord(cfg, a)
    ensures var s' := Turn(cfg, src, s, e).0;
      && NoNumberStored(cfg, s')
      && s'.outOfOrder == s.outOfOrder
           + (if e.Ack? && Blocked(s) && NetworkOrder(cfg, e.word) != s.windowQueue[0].seqNum then {e.word} else {})
      && s'.ackCounter == s.ackCounter
           + if e.Ack? && Blocked(s) && NetworkOrder(cfg, e.word) == s.windowQueue[0].seqNum then 1 else 0
  {
    hide SeqOf, Source.ReadAt, Source.Packets, NetworkOrder;
    if Blocked(s) {
      match e
      case Timeout =>
        TimeoutTurn(cfg, src, s);
      case Ack(word) =>
        var a: nat :| word == AckWord(cfg, a);
        AckWordIsNoNumber(cfg, a);
        PopFrontConserved(cfg, src, s);
        InertNeverPops(cfg, src, PopFront(s));
        RecvAckConserved(cfg, src, s, word);
        FillConserved(cfg, src, RecvAck(cfg, s, word));
    }
  }

  lemma RecvAckKeepsResends(cfg: Config, src: Source, s: ServerState, word: uint32)
    requires Conserved(cfg, src, s) && s.windowQueue != []
    ensures var s' := RecvAck(cfg, s, word); s'.resendCnt == s.resendCnt && s'.lastResend == s.lastResend
  {
    hide SeqOf, Source.ReadAt, Source.Packets, NetworkOrder;
    PopFrontConserved(cfg, src, s);
    CheckOutOfOrderConserved(cfg, src, PopFront(s));
  }
}
