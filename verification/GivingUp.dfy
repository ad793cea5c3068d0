/**
 * When the server gives up. The counter goes by sequence number, so it means that one packet went
 * unanswered exactly for files short enough that no two packets share a number.
 */
module GivingUp {
  import opened Bytes
  import opened SequenceNumbers
  import opened Wire
  import opened Sender
  import R = Receiver
  import I = Ideal
  import F = Fifo

  /** The number a turn's `reSend`, if it is called, sends. */
  function Resent(s: ServerState, e: Event): seq<uint32> {
    if e.Timeout? && Blocked(s) then [s.windowQueue[0].seqNum] else []
  }

  /** The sequence numbers `reSend` has sent, oldest first. */
  function ResendHistory(cfg: Config, src: Source, events: seq<Event>): seq<uint32> {
    if events == [] then [] else
    var before := events[..|events| - 1];
    ResendHistory(cfg, src, before) + Resent(Serve(cfg, src, before).0, events[|events| - 1])
  }

  /** The length of the run of equal numbers that ends a history. */
  function TrailingRun(h: seq<uint32>): nat {
    if |h| <= 1 || h[|h| - 1] != h[|h| - 2] then Min(|h|, 1) else TrailingRun(h[..|h| - 1]) + 1
  }

  lemma EmptyRun()
    ensures TrailingRun([]) == 0
  {
  }

  lemma {:induction false} TrailingRunStep(h: seq<uint32>, x: uint32)
    ensures TrailingRun(h + [x]) == if h != [] && h[|h| - 1] == x then TrailingRun(h) + 1 else 1
  {
    var g := h + [x];
    assert g[..|h|] == h;
    assert g[|g| - 1] == x;
    if h != [] {
      assert g[|g| - 2] == h[|h| - 1];
    }
  }

  /** The counter and the give-up decision reflect a resend history. */
  ghost predicate CountsResends(s: ServerState, h: seq<uint32>) {
    && (s.status.GaveUp? <==> TrailingRun(h) >= 16)
    && TrailingRun(h) <= 16
    && (h == [] ==> s.resendCnt == 0 && s.lastResend == 0)
    && (h != [] ==> s.resendCnt == TrailingRun(h) - 1 && s.lastResend == h[|h| - 1])
  }

  lemma ReSendCounts(s: ServerState, h: seq<uint32>)
    requires CountsResends(s, h) && Blocked(s) && s.windowQueue[0].seqNum >= 1
    ensures CountsResends(ReSend(s), h + [s.windowQueue[0].seqNum])
  {
    hide TrailingRun;
    if h == [] {
      EmptyRun();
    }
    TrailingRunStep(h, s.windowQueue[0].seqNum);
  }

  lemma TurnCountsResends(cfg: Config, src: Source, s: ServerState, e: Event, h: seq<uint32>)
    requires Conserved(cfg, src, s) && Settled(cfg, s) && CountsResends(s, h)
    ensures CountsResends(Turn(cfg, src, s, e).0, h + Resent(s, e))
  {
    hide SeqOf, Source.ReadAt, Source.Packets, NetworkOrder, TrailingRun, FillWindow, CheckOutOfOrder;
    if e.Timeout? && Blocked(s) {
      assert s.windowQueue[0] == src.PacketAt(cfg, s.ackCounter + 0);
      ReSendCounts(s, h);
      FillConserved(cfg, src, ReSend(s));
    } else {
      assert h + [] == h;
      if Blocked(s) {
        RecvAckConserved(cfg, src, s, e.word);
        RecvAckKeepsResends(cfg, src, s, e.word);
        FillConserved(cfg, src, RecvAck(cfg, s, e.word));
      }
    }
  }

  /**
   * After any list of words and timeouts the resend counter is one less than the trailing run of
   * the resend history, and the server has given up if and only if that run has reached 16.
   */
  lemma {:induction false} GiveUpCounter(cfg: Config, src: Source, events: seq<Event>)
    requires src.file != []
    ensures CountsResends(Serve(cfg, src, events).0, ResendHistory(cfg, src, events))
    decreases |events|
  {
    hide SeqOf, Source.ReadAt, Source.Packets, TrailingRun, FillWindow, Turn;
    if events == [] {
      EmptyRun();
      FillConserved(cfg, src, Startup(src));
    } else {
      var before, e := events[..|events| - 1], events[|events| - 1];
      GiveUpCounter(cfg, src, before);
      ServeConserved(cfg, src, before);
      TurnCountsResends(cfg, src, Serve(cfg, src, before).0, e, ResendHistory(cfg, src, before));
    }
  }

  /**
   * The counter goes by sequence number, so two packets `modulus` apart share it. Here packet 0 is
   * resent fifteen times and then acknowledged, so are the next packets up to the one with the same
   * number, and that packet times out once.
   */
  function SharedCounterRun(cfg: Config, timeouts: nat, acks: nat): seq<Event> {
    seq(timeouts, _ => Timeout) + seq(acks, k requires 0 <= k => Ack(AckWord(cfg, k)))
  }

  lemma SharedCounterRunStep(cfg: Config, timeouts: nat, acks: nat)
    ensures SharedCounterRun(cfg, timeouts + 1, 0) == SharedCounterRun(cfg, timeouts, 0) + [Timeout]
    ensures SharedCounterRun(cfg, timeouts, acks + 1)
         == SharedCounterRun(cfg, timeouts, acks) + [Ack(AckWord(cfg, acks))]
  {
  }

  lemma {:induction false} SharedCounterTimeouts(cfg: Config, src: Source, timeouts: nat)
    requires src.file != [] && timeouts <= 15
    ensures var s := Serve(cfg, src, SharedCounterRun(cfg, timeouts, 0)).0;
      && s.status.Running? && s.ackCounter == 0 && s.outOfOrder == {}
      && (timeouts == 0 ==> s.lastResend == 0 && s.resendCnt == 0)
      && (timeouts > 0 ==> s.lastResend == SeqOf(cfg, 0) && s.resendCnt == timeouts - 1)
    decreases timeouts
  {
    hide SeqOf, Source.ReadAt, Source.Packets, SharedCounterRun, Turn;
    if timeouts == 0 {
      assert SharedCounterRun(cfg, 0, 0) == [] by { NoEvents(cfg); }
      FillConserved(cfg, src, Startup(src));
    } else {
      var before := SharedCounterRun(cfg, timeouts - 1, 0);
      SharedCounterTimeouts(cfg, src, timeouts - 1);
      ServeConserved(cfg, src, before);
      SharedCounterRunStep(cfg, timeouts - 1, 0);
      ServeOneMore(cfg, src, before, Timeout);
      ResendCounted(cfg, src, Serve(cfg, src, before).0);
    }
  }

  lemma ResendCounted(cfg: Config, src: Source, s: ServerState)
    requires Conserved(cfg, src, s) && Settled(cfg, s) && Blocked(s) && s.resendCnt < 14
    ensures var s' := Turn(cfg, src, s, Timeout).0;
      && s'.status.Running? && s'.ackCounter == s.ackCounter && s'.outOfOrder == s.outOfOrder
      && s'.lastResend == SeqOf(cfg, s.ackCounter)
      && s'.resendCnt == if s.lastResend == SeqOf(cfg, s.ackCounter) then s.resendCnt + 1 else 0
  {
    hide SeqOf, Source.ReadAt, Source.Packets;
    assert s.windowQueue[0] == src.PacketAt(cfg, s.ackCounter + 0);
    FillConserved(cfg, src, ReSend(s));
  }

  lemma NoEvents(cfg: Config)
    ensures SharedCounterRun(cfg, 0, 0) == []
  {
  }

  lemma {:induction false} SharedCounterAcks(cfg: Config, src: Source, acks: nat)
    requires src.file != [] && acks <= cfg.modulus < src.Packets()
    ensures var s := Serve(cfg, src, SharedCounterRun(cfg, 15, acks)).0;
      && s.status.Running? && s.ackCounter == acks && s.outOfOrder == {}
      && s.lastResend == SeqOf(cfg, 0) && s.resendCnt == 14
    decreases acks
  {
    hide SeqOf, Source.ReadAt, Source.Packets, SharedCounterRun, Turn;
    if acks == 0 {
      SharedCounterTimeouts(cfg, src, 15);
    } else {
      var before := SharedCounterRun(cfg, 15, acks - 1);
      SharedCounterAcks(cfg, src, acks - 1);
      ServeConserved(cfg, src, before);
      SharedCounterRunStep(cfg, 15, acks - 1);
      ServeOneMore(cfg, src, before, Ack(AckWord(cfg, acks - 1)));
      var s := Serve(cfg, src, before).0;
      PopFrontConserved(cfg, src, s);
      InertNeverPops(cfg, src, PopFront(s));
      FrontAckTurn(cfg, src, s);
      ServeConserved(cfg, src, before + [Ack(AckWord(cfg, acks - 1))]);
    }
  }

  lemma SharedCounterPrefix(cfg: Config, k: nat)
    requires k < 15 + cfg.modulus && SharedCounterRun(cfg, 15, cfg.modulus)[k].Timeout?
    ensures k < 15 && SharedCounterRun(cfg, 15, cfg.modulus)[..k] == SharedCounterRun(cfg, k, 0)
  {
  }

  /** The server can give up on a packet it has resent only once, with every packet before it acknowledged. */
  lemma GivesUpAfterOneResend(cfg: Config, src: Source)
    requires src.file != [] && cfg.modulus < src.Packets()
    ensures var events := SharedCounterRun(cfg, 15, cfg.modulus);
      && Serve(cfg, src, events).0.status.Running?
      && Serve(cfg, src, events).0.ackCounter == cfg.modulus
      && (forall k | 0 <= k < |events| && events[k].Timeout? ::
            k < 15 && Serve(cfg, src, events[..k]).0.ackCounter == 0)
      && Serve(cfg, src, events + [Timeout]).0.status.GaveUp?
  {
    hide SeqOf, Source.ReadAt, Source.Packets, FillWindow;
    var events := SharedCounterRun(cfg, 15, cfg.modulus);
    assert |events| == 15 + cfg.modulus;
    SharedCounterAcks(cfg, src, cfg.modulus);
    ServeConserved(cfg, src, events);
    ServeOneMore(cfg, src, events, Timeout);
    SeqOfPeriodic(cfg, 0);
    var s := Serve(cfg, src, events).0;
    assert s.windowQueue[0] == src.PacketAt(cfg, s.ackCounter + 0);
    forall k | 0 <= k < |events| && events[k].Timeout?
      ensures k < 15 && Serve(cfg, src, events[..k]).0.ackCounter == 0
    {
      SharedCounterPrefix(cfg, k);
      SharedCounterTimeouts(cfg, src, k);
    }
  }

  // ---------------------------------------------------------------------------------------------
  // One packet, or two that share a number
  // ---------------------------------------------------------------------------------------------

  /** The packets `reSend` has sent, oldest first. */
  function ResendIds(cfg: Config, src: Source, events: seq<Event>): seq<nat> {
    if events == [] then [] else
    var before := events[..|events| - 1];
    var s := Serve(cfg, src, before).0;
    ResendIds(cfg, src, before) + if events[|events| - 1].Timeout? && Blocked(s) then [s.ackCounter] else []
  }

  /** The history is what these packets carry. */
  lemma {:induction false} ResendsByIndex(cfg: Config, src: Source, events: seq<Event>)
    requires src.file != []
    ensures var h, ids := ResendHistory(cfg, src, events), ResendIds(cfg, src, events);
      |h| == |ids| && forall k | 0 <= k < |ids| :: ids[k] < src.Packets() && h[k] == SeqOf(cfg, ids[k])
    decreases |events|
  {
    hide SeqOf, Source.ReadAt, Source.Packets, Serve;
    if events != [] {
      var before := events[..|events| - 1];
      var s := Serve(cfg, src, before).0;
      ResendsByIndex(cfg, src, before);
      ServeConserved(cfg, src, before);
      if Blocked(s) {
        assert s.windowQueue[0] == src.PacketAt(cfg, s.ackCounter + 0);
      }
    }
  }

  lemma {:induction false} TrailingRunReaches(h: seq<uint32>, n: nat)
    requires 1 <= n <= |h|
    ensures TrailingRun(h) >= n <==> forall k | |h| - n <= k < |h| :: h[k] == h[|h| - 1]
    decreases n
  {
    if n > 1 {
      var g := h[..|h| - 1];
      TrailingRunReaches(g, n - 1);
      TrailingRunStep(g, h[|h| - 1]);
      assert g + [h[|h| - 1]] == h;
      assert forall k | |g| - (n - 1) <= k < |g| :: g[k] == h[k];
    }
  }

  /** The last sixteen resends were of one packet. */
  predicate OnePacket(ids: seq<nat>) {
    |ids| >= 16 && forall k | |ids| - 16 <= k < |ids| :: ids[k] == ids[|ids| - 1]
  }

  /** Sixteen resends of one packet in a row always make the server give up. */
  lemma OnePacketGivesUp(cfg: Config, src: Source, events: seq<Event>)
    requires src.file != [] && OnePacket(ResendIds(cfg, src, events))
    ensures Serve(cfg, src, events).0.status.GaveUp?
  {
    hide SeqOf, Serve, ResendHistory, ResendIds, TrailingRun;
    ResendsByIndex(cfg, src, events);
    GiveUpCounter(cfg, src, events);
    TrailingRunReaches(ResendHistory(cfg, src, events), 16);
  }

  lemma GiveUpMeansOnePacket(cfg: Config, src: Source, events: seq<Event>)
    requires src.file != [] && src.Packets() <= cfg.modulus
    requires Serve(cfg, src, events).0.status.GaveUp?
    ensures OnePacket(ResendIds(cfg, src, events))
  {
    hide SeqOf, Serve, ResendHistory, ResendIds, Source.Packets;
    var h, ids := ResendHistory(cfg, src, events), ResendIds(cfg, src, events);
    ResendsByIndex(cfg, src, events);
    GiveUpCounter(cfg, src, events);
    ShortHistory(h);
    TrailingRunReaches(h, 16);
    forall k | |ids| - 16 <= k < |ids|
      ensures ids[k] == ids[|ids| - 1]
    {
      SeqOfDistinguishes(cfg, ids[k], ids[|ids| - 1]);
    }
  }

  lemma {:induction false} ShortHistory(h: seq<uint32>)
    ensures TrailingRun(h) <= |h|
    decreases |h|
  {
    if |h| > 1 {
      ShortHistory(h[..|h| - 1]);
    }
  }

  /** In the run above the last resend is of packet `modulus`, all others are of packet 0. */
  lemma SharedCounterIds(cfg: Config, src: Source)
    requires src.file != [] && cfg.modulus < src.Packets()
    ensures !OnePacket(ResendIds(cfg, src, SharedCounterRun(cfg, 15, cfg.modulus) + [Timeout]))
  {
    hide SeqOf, Serve, Source.Packets, ResendIds, SharedCounterRun;
    var events := SharedCounterRun(cfg, 15, cfg.modulus);
    var ids := ResendIds(cfg, src, events);
    GivesUpAfterOneResend(cfg, src);
    ServeConserved(cfg, src, events);
    FirstResends(cfg, src, events);
    LastResend(cfg, src, events);
    var longer := ids + [cfg.modulus as nat];
    if |ids| > 0 {
      assert longer[|ids| - 1] in ids && longer[|ids|] == cfg.modulus;
    }
  }

  lemma LastResend(cfg: Config, src: Source, events: seq<Event>)
    ensures ResendIds(cfg, src, events + [Timeout]) == ResendIds(cfg, src, events)
      + if Blocked(Serve(cfg, src, events).0) then [Serve(cfg, src, events).0.ackCounter] else []
  {
    hide Serve;
    assert (events + [Timeout])[..|events|] == events;
  }

  lemma {:induction false} FirstResends(cfg: Config, src: Source, events: seq<Event>)
    requires forall k | 0 <= k < |events| && events[k].Timeout? :: Serve(cfg, src, events[..k]).0.ackCounter == 0
    ensures forall i <- ResendIds(cfg, src, events) :: i == 0
    decreases |events|
  {
    hide Serve;
    if events != [] {
      var before := events[..|events| - 1];
      assert forall k | 0 <= k < |before| :: before[..k] == events[..k];
      FirstResends(cfg, src, before);
    }
  }

  /**
   * Over every list of words and timeouts, giving up means that the last sixteen resends were of one
   * packet if and only if the file has no more packets than there are sequence numbers.
   */
  lemma GiveUpMeansOnePacketIff(cfg: Config, src: Source)
    requires src.file != []
    ensures (forall events :: Serve(cfg, src, events).0.status.GaveUp? ==> OnePacket(ResendIds(cfg, src, events)))
       <==> src.Packets() <= cfg.modulus
  {
    hide Serve, ResendIds, OnePacket, Source.Packets, SharedCounterRun;
    if src.Packets() <= cfg.modulus {
      forall events | Serve(cfg, src, events).0.status.GaveUp?
        ensures OnePacket(ResendIds(cfg, src, events))
      {
        GiveUpMeansOnePacket(cfg, src, events);
      }
    } else {
      SharedCounterIds(cfg, src);
      GivesUpAfterOneResend(cfg, src);
    }
  }

  // ---------------------------------------------------------------------------------------------
  // The same against the real client
  // ---------------------------------------------------------------------------------------------

  /** Both programs have dealt with the first `k` packets, in order; on its way is only the window. */
  ghost predicate InOrder(cfg: Config, src: Source, sys: F.System, k: nat) {
    && Conserved(cfg, src, sys.server) && Settled(cfg, sys.server)
    && sys.server.ackCounter == k && sys.server.outOfOrder == {}
    && R.Ready(cfg, sys.client)
    && R.Tracks(cfg, src, sys.client, k, {})
    && sys.data == sys.server.windowQueue && sys.acks == []
  }

  lemma StartInOrder(cfg: Config, src: Source)
    requires src.file != []
    ensures InOrder(cfg, src, F.Run(cfg, src, []), 0)
  {
    hide SeqOf, Source.PacketAt, FillWindow, R.Tracks;
    FillConserved(cfg, src, Startup(src));
    R.StartupTracks(cfg, src);
  }

  /** A timeout whose resend is lost. */
  lemma ResendLost(cfg: Config, src: Source, sys: F.System, k: nat)
    requires InOrder(cfg, src, sys, k) && Blocked(sys.server)
    ensures InOrder(cfg, src, F.Apply(cfg, src, F.Apply(cfg, src, sys, I.TimeOut), I.LoseData(|sys.data|)), k)
  {
    hide SeqOf, Source.PacketAt, Source.Packets, R.Tracks, Turn, Conserved, Settled;
    TimeoutTurn(cfg, src, sys.server);
    TurnConserved(cfg, src, sys.server, Timeout);
    var sys1 := F.Apply(cfg, src, sys, I.TimeOut);
    assert I.Lose(sys1.data, |sys.data|) == sys.data;
  }

  /** The next packet and then its acknowledgement arrive. */
  lemma NextDelivered(cfg: Config, src: Source, sys: F.System, k: nat)
    requires InOrder(cfg, src, sys, k) && Blocked(sys.server) && k + 1 < src.Packets()
    ensures var sys1 := F.Apply(cfg, src, sys, I.DeliverData);
      && sys1.acks == [AckWord(cfg, k)] && sys1.server == sys.server
      && InOrder(cfg, src, F.Apply(cfg, src, sys1, I.DeliverAck), k + 1)
  {
    hide SeqOf, Source.PacketAt, Source.Packets, R.Tracks, R.Receive, Turn, Settled;
    var s := sys.server;
    assert s.windowQueue[0] == src.PacketAt(cfg, k + 0);
    F.TracksRunning(cfg, src, sys.client, k, {});
    R.InOrderReceive(cfg, src, sys.client, k);
    FrontAckSends(cfg, src, s);
    TurnConserved(cfg, src, s, Ack(AckWord(cfg, k)));
  }

  lemma FrontAckSends(cfg: Config, src: Source, s: ServerState)
    requires Conserved(cfg, src, s) && Settled(cfg, s) && Blocked(s) && s.outOfOrder == {}
    ensures var (s', sent) := Turn(cfg, src, s, Ack(AckWord(cfg, s.ackCounter)));
      && s'.outOfOrder == {} && s'.ackCounter == s.ackCounter + 1
      && s'.windowQueue == s.windowQueue[1..] + sent
  {
    hide SeqOf, Source.ReadAt, Source.Packets, NetworkOrder, CheckOutOfOrder;
    var word := AckWord(cfg, s.ackCounter);
    assert s.windowQueue[0] == src.PacketAt(cfg, s.ackCounter + 0);
    NetworkOrderInvolutive(cfg, SeqOf(cfg, s.ackCounter));
    PopFrontConserved(cfg, src, s);
    InertNeverPops(cfg, src, PopFront(s));
    RecvAckConserved(cfg, src, s, word);
    FillConserved(cfg, src, RecvAck(cfg, s, word));
  }

  lemma EventsMore(cfg: Config, src: Source, steps: seq<F.Step>, step: F.Step)
    ensures F.Run(cfg, src, steps + [step]) == F.Apply(cfg, src, F.Run(cfg, src, steps), step)
    ensures F.ServerEvents(cfg, src, steps + [step]) == F.ServerEvents(cfg, src, steps)
      + if step.TimeOut? then [Timeout]
        else if step.DeliverAck? && F.Run(cfg, src, steps).acks != [] then [Ack(F.Run(cfg, src, steps).acks[0])]
        else []
  {
    assert (steps + [step])[..|steps|] == steps;
  }

  /** After up to fifteen timeouts the server still waits. */
  lemma StillBlocked(cfg: Config, src: Source, steps: seq<F.Step>, n: nat, k: nat)
    requires src.file != [] && n <= 15 && (k == 0 || (n == 15 && k <= cfg.modulus < src.Packets()))
    requires F.ServerEvents(cfg, src, steps) == SharedCounterRun(cfg, n, k)
    ensures Blocked(F.Run(cfg, src, steps).server)
  {
    hide F.Run, SharedCounterRun, Serve, F.ServerEvents, SeqOf, Source.Packets;
    F.RunIsTheTwoPrograms(cfg, src, steps);
    ServeConserved(cfg, src, SharedCounterRun(cfg, n, k));
    if k == 0 {
      SharedCounterTimeouts(cfg, src, n);
    } else {
      SharedCounterAcks(cfg, src, k);
    }
  }

  /** Fifteen timeouts, each resend lost. */
  lemma {:induction false} TimeoutsInOrder(cfg: Config, src: Source, n: nat) returns (steps: seq<F.Step>)
    requires src.file != [] && n <= 15
    ensures F.ServerEvents(cfg, src, steps) == SharedCounterRun(cfg, n, 0)
    ensures InOrder(cfg, src, F.Run(cfg, src, steps), 0)
    decreases n
  {
    hide F.Run, F.Apply, InOrder, SharedCounterRun, F.ServerEvents, Blocked, SeqOf, Source.Packets;
    if n == 0 {
      steps := [];
      StartInOrder(cfg, src);
      NoEvents(cfg);
      NoSteps(cfg, src);
    } else {
      steps := TimeoutsInOrder(cfg, src, n - 1);
      StillBlocked(cfg, src, steps, n - 1, 0);
      ResendLost(cfg, src, F.Run(cfg, src, steps), 0);
      var last := I.LoseData(|F.Run(cfg, src, steps).data|);
      EventsMore(cfg, src, steps, I.TimeOut);
      EventsMore(cfg, src, steps + [I.TimeOut], last);
      SharedCounterRunStep(cfg, n - 1, 0);
      steps := steps + [I.TimeOut] + [last];
      assert SharedCounterRun(cfg, n, 0) + [] == SharedCounterRun(cfg, n, 0);
    }
  }

  lemma NoSteps(cfg: Config, src: Source)
    ensures F.ServerEvents(cfg, src, []) == []
  {
  }

  /** Then the packets before the one that shares packet 0's number arrive and are acknowledged. */
  lemma {:induction false} AcksInOrder(cfg: Config, src: Source, k: nat) returns (steps: seq<F.Step>)
    requires src.file != [] && k <= cfg.modulus < src.Packets()
    ensures F.ServerEvents(cfg, src, steps) == SharedCounterRun(cfg, 15, k)
    ensures InOrder(cfg, src, F.Run(cfg, src, steps), k)
    decreases k
  {
    hide F.Run, F.Apply, InOrder, SharedCounterRun, F.ServerEvents, SeqOf, Source.Packets, Blocked;
    if k == 0 {
      steps := TimeoutsInOrder(cfg, src, 15);
    } else {
      steps := AcksInOrder(cfg, src, k - 1);
      StillBlocked(cfg, src, steps, 15, k - 1);
      NextDelivered(cfg, src, F.Run(cfg, src, steps), k - 1);
      EventsMore(cfg, src, steps, I.DeliverData);
      EventsMore(cfg, src, steps + [I.DeliverData], I.DeliverAck);
      SharedCounterRunStep(cfg, 15, k - 1);
      assert SharedCounterRun(cfg, 15, k - 1) + [] == SharedCounterRun(cfg, 15, k - 1);
      steps := steps + [I.DeliverData] + [I.DeliverAck];
    }
  }

  /** The client and first-in first-out channels can make the server go through that run. */
  lemma SharedCounterReached(cfg: Config, src: Source) returns (steps: seq<F.Step>)
    requires src.file != [] && cfg.modulus < src.Packets()
    ensures F.ServerEvents(cfg, src, steps) == SharedCounterRun(cfg, 15, cfg.modulus) + [Timeout]
    ensures F.Run(cfg, src, steps).server.status.GaveUp?
  {
    hide F.Run, InOrder, SharedCounterRun, Serve, F.ServerEvents, Source.Packets;
    steps := AcksInOrder(cfg, src, cfg.modulus);
    EventsMore(cfg, src, steps, I.TimeOut);
    steps := steps + [I.TimeOut];
    F.RunIsTheTwoPrograms(cfg, src, steps);
    GivesUpAfterOneResend(cfg, src);
  }

  /**
   * For the two programs over first-in first-out channels that lose and duplicate: in every run giving
   * up means sixteen unanswered resends of one packet, if and only if the file has no more packets than
   * there are sequence numbers.
   */
  lemma RunsGiveUpOnOnePacketIff(cfg: Config, src: Source)
    requires src.file != []
    ensures (forall steps: seq<F.Step> :: F.Run(cfg, src, steps).server.status.GaveUp? ==>
               OnePacket(ResendIds(cfg, src, F.ServerEvents(cfg, src, steps))))
       <==> src.Packets() <= cfg.modulus
  {
    hide F.Run, Serve, ResendIds, OnePacket, Source.Packets, SharedCounterRun, F.ServerEvents;
    if src.Packets() <= cfg.modulus {
      forall steps: seq<F.Step> | F.Run(cfg, src, steps).server.status.GaveUp?
        ensures OnePacket(ResendIds(cfg, src, F.ServerEvents(cfg, src, steps)))
      {
        F.RunIsTheTwoPrograms(cfg, src, steps);
        GiveUpMeansOnePacket(cfg, src, F.ServerEvents(cfg, src, steps));
      }
    } else {
      var steps := SharedCounterReached(cfg, src);
      SharedCounterIds(cfg, src);
    }
  }
}
