/**
 * Server and client joined by two first-in first-out channels that may lose and duplicate messages:
 * the programs keep in step with the ideal protocol, so the file arrives intact.
 */
module Fifo {
  import opened Bytes
  import opened SequenceNumbers
  import opened Wire
  import S = Sender
  import R = Receiver
  import I = Ideal

  type Step = I.Step

  datatype System = System(server: S.ServerState, client: R.ClientState, data: seq<Packet>, acks: seq<uint32>)

  /** Both programs started; the server has sent its first window. */
  function Initial(cfg: Config, src: Source): (sys: System)
    ensures R.Ready(cfg, sys.client)
  {
    var (server, sent) := S.Serve(cfg, src, []);
    System(server, R.Startup(cfg, src), sent, [])
  }

  /** One step; a step that is not possible changes nothing. */
  function Apply(cfg: Config, src: Source, sys: System, step: Step): (sys': System)
    requires R.Ready(cfg, sys.client)
    ensures R.Ready(cfg, sys'.client)
  {
    match step
    case TimeOut =>
      var (server, sent) := S.Turn(cfg, src, sys.server, S.Timeout);
      sys.(server := server, data := sys.data + sent)
    case DeliverData =>
      if sys.data == [] then sys else
      var (client, acks) := R.Receive(cfg, sys.client, sys.data[0]);
      sys.(client := client, data := sys.data[1..], acks := sys.acks + acks)
    case DeliverAck =>
      if sys.acks == [] then sys else
      var (server, sent) := S.Turn(cfg, src, sys.server, S.Ack(sys.acks[0]));
      sys.(server := server, data := sys.data + sent, acks := sys.acks[1..])
    case LoseData(k) => sys.(data := I.Lose(sys.data, k))
    case LoseAck(k) => sys.(acks := I.Lose(sys.acks, k))
    case DuplicateData(k) => sys.(data := I.Duplicate(sys.data, k))
    case DuplicateAck(k) => sys.(acks := I.Duplicate(sys.acks, k))
  }

  /** What the network may do to a message: lose it, wherever it is in its channel, or deliver it twice. */
  lemma ChannelSteps(cfg: Config, src: Source, sys: System, k: nat)
    requires R.Ready(cfg, sys.client)
    ensures k < |sys.data| ==>
              var lost, twice := Apply(cfg, src, sys, I.LoseData(k)), Apply(cfg, src, sys, I.DuplicateData(k));
              && |lost.data| == |sys.data| - 1 && sys == lost.(data := lost.data[..k] + [sys.data[k]] + lost.data[k..])
              && |twice.data| == |sys.data| + 1 && twice.data[k] == twice.data[k + 1]
              && Apply(cfg, src, twice, I.LoseData(k)) == sys
    ensures k < |sys.acks| ==>
              var lost, twice := Apply(cfg, src, sys, I.LoseAck(k)), Apply(cfg, src, sys, I.DuplicateAck(k));
              && |lost.acks| == |sys.acks| - 1 && sys == lost.(acks := lost.acks[..k] + [sys.acks[k]] + lost.acks[k..])
              && |twice.acks| == |sys.acks| + 1 && twice.acks[k] == twice.acks[k + 1]
              && Apply(cfg, src, twice, I.LoseAck(k)) == sys
  {
    hide S.Turn, R.Receive, R.Ready, I.Lose, I.Duplicate, Source.Packets;
    I.LoseAndDuplicate(sys.data, k);
    I.LoseAndDuplicate(sys.acks, k);
  }

  /** A run of the system, from any state. */
  function Exec(cfg: Config, src: Source, sys: System, steps: seq<Step>): (sys': System)
    requires R.Ready(cfg, sys.client)
    ensures R.Ready(cfg, sys'.client)
  {
    if steps == [] then sys else
    Apply(cfg, src, Exec(cfg, src, sys, steps[..|steps| - 1]), steps[|steps| - 1])
  }

  /** The state after a run from the start. The reachable states are exactly these. */
  function Run(cfg: Config, src: Source, steps: seq<Step>): (sys: System)
    ensures R.Ready(cfg, sys.client)
  {
    Exec(cfg, src, Initial(cfg, src), steps)
  }

  /** What the server's `recvfrom` returns in the course of a run ... */
  function ServerEvents(cfg: Config, src: Source, steps: seq<Step>): seq<S.Event> {
    if steps == [] then [] else
    var before, step := steps[..|steps| - 1], steps[|steps| - 1];
    var sys := Run(cfg, src, before);
    ServerEvents(cfg, src, before)
      + if step.TimeOut? then [S.Timeout]
        else if step.DeliverAck? && sys.acks != [] then [S.Ack(sys.acks[0])]
        else []
  }

  /** ... and the packets that the client's returns. */
  function ClientPackets(cfg: Config, src: Source, steps: seq<Step>): seq<Packet> {
    if steps == [] then [] else
    var before, step := steps[..|steps| - 1], steps[|steps| - 1];
    var sys := Run(cfg, src, before);
    ClientPackets(cfg, src, before) + if step.DeliverData? && sys.data != [] then [sys.data[0]] else []
  }

  /** The system is nothing but the two programs: each is where its own loop takes it on what it received. */
  lemma {:induction false} RunIsTheTwoPrograms(cfg: Config, src: Source, steps: seq<Step>)
    ensures var sys := Run(cfg, src, steps);
      && sys.server == S.Serve(cfg, src, ServerEvents(cfg, src, steps)).0
      && sys.client == R.ReceiveAll(cfg, R.Startup(cfg, src), ClientPackets(cfg, src, steps)).0
    decreases |steps|
  {
    hide S.Turn, R.Receive, S.FillWindow, R.Startup, S.Serve, R.ReceiveAll, Initial;
    if steps == [] {
      BothStart(cfg, src);
    } else {
      var before, step := steps[..|steps| - 1], steps[|steps| - 1];
      RunIsTheTwoPrograms(cfg, src, before);
      var sys := Run(cfg, src, before);
      var events, packets := ServerEvents(cfg, src, before), ClientPackets(cfg, src, before);
      assert events + [] == events && packets + [] == packets;
      match step
      case TimeOut => S.ServeOneMore(cfg, src, events, S.Timeout);
      case DeliverAck =>
        if sys.acks != [] {
          S.ServeOneMore(cfg, src, events, S.Ack(sys.acks[0]));
        }
      case DeliverData =>
        if sys.data != [] {
          R.ReceiveOneMore(cfg, R.Startup(cfg, src), packets, sys.data[0]);
        }
      case _ =>
    }
  }

  lemma BothStart(cfg: Config, src: Source)
    ensures Initial(cfg, src).server == S.Serve(cfg, src, []).0
    ensures Initial(cfg, src).client == R.ReceiveAll(cfg, R.Startup(cfg, src), []).0
  {
  }

  // ---------------------------------------------------------------------------------------------
  // The programs keep in step with the ideal protocol
  // ---------------------------------------------------------------------------------------------

  ghost predicate ServerMatches(cfg: Config, src: Source, server: S.ServerState, u: I.IdealState) {
    && S.Conserved(cfg, src, server) && S.Settled(cfg, server) && S.Inert(cfg, server)
    && server.ackCounter == u.retired
    && server.packetsInMem == u.read
    && (server.status.GaveUp? <==> !u.up)
  }

  /** The packets in a channel are those with the given indices. */
  ghost predicate ArePackets(cfg: Config, src: Source, packets: seq<Packet>, ids: seq<nat>) {
    && |packets| == |ids|
    && forall k | 0 <= k < |ids| :: packets[k] == src.PacketAt(cfg, ids[k])
  }

  ghost predicate Matches(cfg: Config, src: Source, sys: System, u: I.IdealState) {
    && ServerMatches(cfg, src, sys.server, u)
    && R.Ready(cfg, sys.client)
    && R.Tracks(cfg, src, sys.client, u.next, u.buffered)
    && ArePackets(cfg, src, sys.data, u.data)
    && R.Acknowledge(cfg, sys.acks, u.acks)
  }

  /** The ideal run that answers a run of the programs: the same steps, quitting when the server does. */
  function Companion(cfg: Config, src: Source, steps: seq<Step>): I.IdealState {
    if steps == [] then I.Initial(cfg, src.Packets()) else
    I.Apply(cfg, src.Packets(), Companion(cfg, src, steps[..|steps| - 1]), steps[|steps| - 1],
            Run(cfg, src, steps).server.status.GaveUp?)
  }

  lemma InitialMatches(cfg: Config, src: Source)
    requires src.file != []
    ensures Matches(cfg, src, Initial(cfg, src), I.Initial(cfg, src.Packets()))
  {
    hide SeqOf, Source.ReadAt, Source.PacketAt, S.FillWindow, R.Tracks;
    S.FillConserved(cfg, src, S.Startup(src));
    R.StartupTracks(cfg, src);
  }

  lemma TimeOutMatches(cfg: Config, src: Source, sys: System, u: I.IdealState)
    requires Matches(cfg, src, sys, u) && I.Ordered(cfg, src.Packets(), u)
    ensures var sys' := Apply(cfg, src, sys, I.TimeOut);
      Matches(cfg, src, sys', I.Apply(cfg, src.Packets(), u, I.TimeOut, sys'.server.status.GaveUp?))
  {
    hide SeqOf, Source.ReadAt, Source.PacketAt, Source.Packets, S.Turn, R.Tracks, S.AreConsecutive;
    hide I.DataOrdered, I.AcksOrdered;
    if S.Blocked(sys.server) {
      S.TimeoutTurn(cfg, src, sys.server);
      S.TurnConserved(cfg, src, sys.server, S.Timeout);
    } else {
      S.StoppedTurn(cfg, src, sys.server, S.Timeout);
      assert sys.data + [] == sys.data;
    }
  }

  lemma DeliverDataMatches(cfg: Config, src: Source, sys: System, u: I.IdealState, quit: bool)
    requires Sound(cfg)
    requires Matches(cfg, src, sys, u) && I.Ordered(cfg, src.Packets(), u)
    ensures Matches(cfg, src, Apply(cfg, src, sys, I.DeliverData), I.Apply(cfg, src.Packets(), u, I.DeliverData, quit))
  {
    hide SeqOf, Source.ReadAt, Source.PacketAt, Source.Packets, R.Tracks, R.Receive, R.Received, S.Conserved, S.Settled;
    hide I.DataOrdered, I.AcksOrdered;
    I.DeliveryBounds(cfg, src.Packets(), u);
    I.MarkBounds(cfg, src.Packets(), u);
    if sys.data != [] {
      TracksRunning(cfg, src, sys.client, u.next, u.buffered);
      if u.next < src.Packets() {
        assert u.next !in u.buffered;
        R.ReceiveTracks(cfg, src, sys.client, u.next, u.buffered, u.data[0]);
      } else {
        R.ExitedReceive(cfg, sys.client, sys.data[0]);
        assert sys.acks + [] == sys.acks;
      }
    }
  }

  lemma TracksRunning(cfg: Config, src: Source, c: R.ClientState, next: nat, buffered: set<nat>)
    requires R.Tracks(cfg, src, c, next, buffered)
    ensures c.running <==> next < src.Packets()
  {
  }

  /** The server is waiting exactly if the ideal server is, and has read just as far. */
  lemma ServerReading(cfg: Config, src: Source, s: S.ServerState)
    requires S.Conserved(cfg, src, s) && S.Settled(cfg, s)
    ensures s.packetsInMem == I.ReadMark(cfg, src.Packets(), s.ackCounter)
    ensures S.Blocked(s) <==> !s.status.GaveUp? && s.ackCounter < src.Packets()
    ensures s.ackCounter <= src.Packets()
  {
  }

  lemma ArePacketsAppend(cfg: Config, src: Source, packets: seq<Packet>, ids: seq<nat>,
                         sent: seq<Packet>, from: nat, upto: nat)
    requires ArePackets(cfg, src, packets, ids)
    requires S.AreConsecutive(cfg, src, sent, from) && from <= upto && |sent| == upto - from
    ensures ArePackets(cfg, src, packets + sent, ids + I.Range(from, upto))
  {
    hide Source.PacketAt;
  }

  lemma DeliverAckMatches(cfg: Config, src: Source, sys: System, u: I.IdealState, quit: bool)
    requires Sound(cfg)
    requires Matches(cfg, src, sys, u) && I.Ordered(cfg, src.Packets(), u)
    ensures Matches(cfg, src, Apply(cfg, src, sys, I.DeliverAck), I.Apply(cfg, src.Packets(), u, I.DeliverAck, quit))
  {
    hide SeqOf, Source.PacketAt, Source.Packets, R.Tracks, S.Turn, S.Conserved, S.Settled, S.AreConsecutive, I.Range;
    hide I.DataOrdered, I.AcksOrdered, ArePackets, S.Inert;
    I.DeliveryBounds(cfg, src.Packets(), u);
    I.MarkBounds(cfg, src.Packets(), u);
    ServerReading(cfg, src, sys.server);
    if sys.acks != [] {
      var (server, sent) := S.Turn(cfg, src, sys.server, S.Ack(sys.acks[0]));
      if S.Blocked(sys.server) {
        S.AckTurn(cfg, src, sys.server, u.acks[0]);
        S.TurnConserved(cfg, src, sys.server, S.Ack(sys.acks[0]));
        ServerReading(cfg, src, server);
        ArePacketsAppend(cfg, src, sys.data, u.data, sent, u.read, server.packetsInMem);
      } else {
        S.StoppedTurn(cfg, src, sys.server, S.Ack(sys.acks[0]));
        assert sys.data + [] == sys.data;
      }
    }
  }

  /** One step of the programs is one step of the ideal protocol. */
  lemma ApplyMatches(cfg: Config, src: Source, sys: System, u: I.IdealState, step: Step)
    requires Sound(cfg)
    requires Matches(cfg, src, sys, u) && I.Ordered(cfg, src.Packets(), u)
    ensures var sys' := Apply(cfg, src, sys, step);
      Matches(cfg, src, sys', I.Apply(cfg, src.Packets(), u, step, sys'.server.status.GaveUp?))
  {
    hide SeqOf, Source.ReadAt, Source.PacketAt, Source.Packets, R.Tracks, ServerMatches, I.Ordered;
    var sys' := Apply(cfg, src, sys, step);
    match step
    case TimeOut => TimeOutMatches(cfg, src, sys, u);
    case DeliverData => DeliverDataMatches(cfg, src, sys, u, sys'.server.status.GaveUp?);
    case DeliverAck => DeliverAckMatches(cfg, src, sys, u, sys'.server.status.GaveUp?);
    case _ => ChannelMatches(cfg, src, sys, u, step, sys'.server.status.GaveUp?);
  }

  lemma ChannelMatches(cfg: Config, src: Source, sys: System, u: I.IdealState, step: Step, quit: bool)
    requires Matches(cfg, src, sys, u)
    requires step.LoseData? || step.LoseAck? || step.DuplicateData? || step.DuplicateAck?
    ensures Matches(cfg, src, Apply(cfg, src, sys, step), I.Apply(cfg, src.Packets(), u, step, quit))
  {
    hide SeqOf, Source.PacketAt, Source.Packets, R.Tracks, R.Ready, S.Conserved, S.Settled;
  }

  /**
   * Refinement: with at least twice as many sequence numbers as window places, the programs and the
   * protocol with unbounded indices stay in step through every run.
   */
  lemma {:induction false} RunMatches(cfg: Config, src: Source, steps: seq<Step>)
    requires src.file != [] && Sound(cfg)
    ensures var sys, u := Run(cfg, src, steps), Companion(cfg, src, steps);
      Matches(cfg, src, sys, u) && I.Ordered(cfg, src.Packets(), u)
    decreases |steps|
  {
    hide SeqOf, Source.ReadAt, Source.PacketAt, Source.Packets, Matches, I.Ordered, Apply, I.Apply, I.Initial;
    if steps == [] {
      InitialMatches(cfg, src);
      I.InitialOrdered(cfg, src.Packets());
    } else {
      var before, step := steps[..|steps| - 1], steps[|steps| - 1];
      RunMatches(cfg, src, before);
      ApplyMatches(cfg, src, Run(cfg, src, before), Companion(cfg, src, before), step);
      I.ApplyOrdered(cfg, src.Packets(), Companion(cfg, src, before), step, Run(cfg, src, steps).server.status.GaveUp?);
    }
  }

  // ---------------------------------------------------------------------------------------------
  // What follows for the programs themselves
  // ---------------------------------------------------------------------------------------------

  /** What the client has written is the front of the file, one packet's worth per packet counted. */
  ghost predicate WritesPrefix(src: Source, client: R.ClientState) {
    client.written == src.file[..Min(1000 * client.packetCounter, |src.file|)]
  }

  /** End-to-end safety. */
  lemma Safety(cfg: Config, src: Source, steps: seq<Step>)
    requires src.file != [] && Sound(cfg)
    ensures var client := Run(cfg, src, steps).client;
      client.written == src.file[..Min(1000 * client.packetCounter, |src.file|)]
    ensures !Run(cfg, src, steps).client.running ==> Run(cfg, src, steps).client.written == src.file
  {
    hide Run, Source.Packets;
    RunMatches(cfg, src, steps);
    src.PrefixComplete();
  }

  /** When the server reports completion, the client has the file, byte for byte, and has exited. */
  lemma CompletionIsTruthful(cfg: Config, src: Source, steps: seq<Step>)
    requires src.file != [] && Sound(cfg)
    requires Run(cfg, src, steps).server.status.Complete?
    ensures Run(cfg, src, steps).client.written == src.file
    ensures !Run(cfg, src, steps).client.running
  {
    hide Run, Source.Packets;
    RunMatches(cfg, src, steps);
    src.PrefixComplete();
  }

  /** The server is never ahead of the client, nor the client more than a window ahead of the server. */
  lemma WindowsSynchronised(cfg: Config, src: Source, steps: seq<Step>)
    requires src.file != [] && Sound(cfg)
    ensures var sys := Run(cfg, src, steps);
      && sys.server.ackCounter <= sys.client.packetCounter <= sys.server.packetsInMem
      && sys.server.packetsInMem == Min(src.Packets(), sys.server.ackCounter + cfg.window)
  {
    hide Run, Source.Packets;
    RunMatches(cfg, src, steps);
  }

  /**
   * Every acknowledgement in flight is for a packet that the client has written or, while it runs,
   * still holds in its reorder buffer.
   */
  lemma AcksAreForPacketsHeld(cfg: Config, src: Source, steps: seq<Step>, k: nat)
    requires src.file != [] && Sound(cfg)
    requires k < |Run(cfg, src, steps).acks|
    ensures var sys, ids := Run(cfg, src, steps), Companion(cfg, src, steps).acks;
      && |ids| == |sys.acks| && sys.acks[k] == AckWord(cfg, ids[k])
      && (ids[k] < sys.client.packetCounter
          || (sys.client.running && SeqOf(cfg, ids[k]) in sys.client.outOfOrder
              && sys.client.outOfOrder[SeqOf(cfg, ids[k])] == src.PacketAt(cfg, ids[k])))
  {
    hide Run, Companion, Source.Packets, SeqOf, Source.PacketAt, R.WindowFrom, I.DataOrdered, I.AcksOrdered;
    hide S.Conserved;
    RunMatches(cfg, src, steps);
    var sys, u := Run(cfg, src, steps), Companion(cfg, src, steps);
    var a := u.acks[k];
    assert sys.acks[k] == AckWord(cfg, a);
    if a >= u.next {
      assert a in u.buffered;
      assert u.next < u.read <= src.Packets();
    }
  }

  /**
   * Every message a channel delivers is recent: a packet lies within a window of what the client
   * expects, an acknowledgement within a window of what the server has retired.
   */
  lemma DeliveriesAreRecent(cfg: Config, src: Source, steps: seq<Step>)
    requires src.file != [] && Sound(cfg)
    ensures var sys, u := Run(cfg, src, steps), Companion(cfg, src, steps);
      && (sys.data != [] ==>
            && |u.data| == |sys.data| && sys.data[0] == src.PacketAt(cfg, u.data[0])
            && sys.client.packetCounter - cfg.window <= u.data[0] < sys.client.packetCounter + cfg.window)
      && (sys.acks != [] ==>
            && |u.acks| == |sys.acks| && sys.acks[0] == AckWord(cfg, u.acks[0])
            && sys.server.ackCounter - cfg.window <= u.acks[0] < sys.server.ackCounter + cfg.window)
  {
    hide Run, Source.Packets, SeqOf, Source.PacketAt;
    RunMatches(cfg, src, steps);
    I.DeliveryBounds(cfg, src.Packets(), Companion(cfg, src, steps));
  }

  /**
   * No aliasing, in any run: on the next packet the client's two tests, and on the next
   * acknowledgement the server's test, answer the question about the index that they stand for.
   */
  lemma NumbersNeverMislead(cfg: Config, src: Source, steps: seq<Step>)
    requires src.file != [] && Sound(cfg)
    ensures var sys, u := Run(cfg, src, steps), Companion(cfg, src, steps);
      && |u.data| == |sys.data| && |u.acks| == |sys.acks|
      && (sys.data != [] && sys.client.running ==>
            var c, packet, j := sys.client, sys.data[0], u.data[0];
            && packet == src.PacketAt(cfg, j)
            && (packet.seqNum == c.windowQueue[0] <==> j == c.packetCounter)
            && (packet.seqNum in c.windowQueue <==> c.packetCounter <= j < c.packetCounter + cfg.window))
      && (sys.acks != [] && S.Blocked(sys.server) ==>
            && sys.acks[0] == AckWord(cfg, u.acks[0])
            && (NetworkOrder(cfg, sys.acks[0]) == sys.server.windowQueue[0].seqNum
                <==> u.acks[0] == sys.server.ackCounter))
  {
    hide Run, Companion, Source.Packets, SeqOf, R.Buffers, I.DataOrdered, I.AcksOrdered, NetworkOrder, I.Synchronised;
    RunMatches(cfg, src, steps);
    var sys, u := Run(cfg, src, steps), Companion(cfg, src, steps);
    I.DeliveryBounds(cfg, src.Packets(), u);
    if sys.data != [] && sys.client.running {
      R.WindowMembership(cfg, sys.client.windowQueue, u.next, u.data[0]);
    }
    if sys.acks != [] && S.Blocked(sys.server) {
      assert sys.server.windowQueue[0] == src.PacketAt(cfg, u.retired + 0);
      NetworkOrderInvolutive(cfg, SeqOf(cfg, u.acks[0]));
      SeqOfDistinguishes(cfg, u.acks[0], u.retired);
    }
  }

  /**
   * The reorder buffer and the window of a running client: the window holds the numbers of the next
   * packets in order, its front is not buffered, every key is a number further back in the window,
   * and under each such number the packet it stands for is stored, if any.
   */
  lemma ReorderBuffer(cfg: Config, src: Source, steps: seq<Step>)
    requires src.file != [] && Sound(cfg)
    requires Run(cfg, src, steps).client.running
    ensures var c := Run(cfg, src, steps).client;
      && |c.windowQueue| == cfg.window
      && R.WindowFrom(cfg, c.windowQueue, c.packetCounter)
      && (forall number <- c.outOfOrder :: number in c.windowQueue[1..])
      && (forall i: nat | c.packetCounter <= i < c.packetCounter + cfg.window && SeqOf(cfg, i) in c.outOfOrder ::
            c.outOfOrder[SeqOf(cfg, i)] == src.PacketAt(cfg, i) && i < Run(cfg, src, steps).server.packetsInMem)
  {
    hide Run, Source.Packets, SeqOf, Source.PacketAt, R.WindowFrom, I.DataOrdered, I.AcksOrdered;
    RunMatches(cfg, src, steps);
    var c, u := Run(cfg, src, steps).client, Companion(cfg, src, steps);
    R.FrontBuffered(cfg, src, c, u.next, u.buffered);
    R.KeysBehindFront(c);
  }
}
