/**
 * First-in first-out channels are a special case of the unordered network: whatever the programs do
 * over such channels they can also do over the unordered network, which drops what is too old.
 */
module FifoRefinesUnordered {
  import opened Bytes
  import opened SequenceNumbers
  import opened Wire
  import S = Sender
  import R = Receiver
  import I = Ideal
  import F = Fifo
  import U = Unordered

  /** Over such channels nothing delivered is more than a window old. */
  function Limits(cfg: Config): U.Limits {
    U.Limits(cfg.window, cfg.window)
  }

  /** The same programs; everything in the channels has been sent over the unordered network. */
  ghost predicate Covers(net: U.System, sys: F.System, u: I.IdealState) {
    && net.server == sys.server && net.client == sys.client
    && |u.data| == |sys.data| && |u.acks| == |sys.acks|
    && (forall k | 0 <= k < |sys.data| :: U.Frame(u.data[k], sys.data[k]) in net.data)
    && (forall k | 0 <= k < |sys.acks| :: U.Frame(u.acks[k], sys.acks[k]) in net.acks)
  }

  lemma FramedMembers(packets: seq<Packet>, first: nat)
    ensures forall k | 0 <= k < |packets| :: U.Frame(first + k, packets[k]) in U.Framed(packets, first)
  {
  }

  lemma InitialCovers(cfg: Config, src: Source)
    requires src.file != []
    ensures Covers(U.Initial(cfg, src), F.Initial(cfg, src), I.Initial(cfg, src.Packets()))
  {
    hide SeqOf, Source.PacketAt, Source.Packets, R.Tracks, S.FillWindow, U.Framed;
    F.InitialMatches(cfg, src);
    FramedMembers(F.Initial(cfg, src).data, 0);
    forall k | 0 <= k < |F.Initial(cfg, src).data|
      ensures I.Initial(cfg, src.Packets()).data[k] == 0 + k
    {
    }
  }

  lemma TimeOutCovers(cfg: Config, src: Source, net: U.System, sys: F.System, u: I.IdealState)
    requires F.Matches(cfg, src, sys, u) && I.Ordered(cfg, src.Packets(), u) && Covers(net, sys, u)
    ensures var sys' := F.Apply(cfg, src, sys, I.TimeOut);
      Covers(U.Apply(cfg, src, Limits(cfg), net, U.TimeOut), sys',
             I.Apply(cfg, src.Packets(), u, I.TimeOut, sys'.server.status.GaveUp?))
  {
    hide SeqOf, Source.PacketAt, Source.Packets, R.Tracks, S.Turn, U.Framed, I.DataOrdered, I.AcksOrdered;
    if S.Blocked(sys.server) {
      S.TimeoutTurn(cfg, src, sys.server);
      var sent := S.Turn(cfg, src, sys.server, S.Timeout).1;
      FramedMembers(sent, sys.server.ackCounter);
      assert U.Frame(sys.server.ackCounter + 0, sent[0]) in U.Framed(sent, sys.server.ackCounter);
    } else {
      S.StoppedTurn(cfg, src, sys.server, S.Timeout);
      assert sys.data + [] == sys.data;
    }
  }

  /** The client's reply to the packet that arrives, which is not too old, as both networks see it. */
  lemma ReplyReading(cfg: Config, src: Source, sys: F.System, u: I.IdealState)
    requires Sound(cfg)
    requires F.Matches(cfg, src, sys, u) && I.Ordered(cfg, src.Packets(), u)
    requires sys.data != [] && sys.client.running
    ensures U.FreshData(Limits(cfg), sys.client, u.data[0])
    ensures sys.client.packetCounter == u.next < src.Packets()
    ensures var (c', acks) := R.Receive(cfg, sys.client, sys.data[0]);
      var (next', _, ids) := R.Received(cfg, src.Packets(), u.next, u.buffered, u.data[0]);
      && |acks| == |ids| && c'.packetCounter == next'
      && (forall k | 0 <= k < |ids| :: ids[k] == U.AckedId(u.next, next', u.data[0], k))
  {
    hide SeqOf, Source.PacketAt, Source.Packets, R.Receive, R.Received, R.Buffers, R.WindowFrom, S.Conserved, S.Settled;
    hide I.DataOrdered, I.AcksOrdered, U.AckedId, S.Inert;
    I.DeliveryBounds(cfg, src.Packets(), u);
    I.MarkBounds(cfg, src.Packets(), u);
    F.TracksRunning(cfg, src, sys.client, u.next, u.buffered);
    U.ReplyIds(cfg, src, sys.client, u.buffered, u.data[0]);
  }

  lemma DeliverDataCovers(cfg: Config, src: Source, net: U.System, sys: F.System, u: I.IdealState, quit: bool)
    requires Sound(cfg)
    requires F.Matches(cfg, src, sys, u) && I.Ordered(cfg, src.Packets(), u) && Covers(net, sys, u)
    requires sys.data != [] && sys.client.running
    ensures Covers(U.Apply(cfg, src, Limits(cfg), net, U.DeliverData(U.Frame(u.data[0], sys.data[0]))),
                   F.Apply(cfg, src, sys, I.DeliverData),
                   I.Apply(cfg, src.Packets(), u, I.DeliverData, quit))
  {
    hide Source.Packets, R.Receive, R.Received, R.Tracks, F.Matches, I.Ordered, U.FreshData, U.AckedId, R.Ready;
    ReplyReading(cfg, src, sys, u);
  }

  lemma DeliverAckCovers(cfg: Config, src: Source, net: U.System, sys: F.System, u: I.IdealState, quit: bool)
    requires Sound(cfg)
    requires F.Matches(cfg, src, sys, u) && I.Ordered(cfg, src.Packets(), u) && Covers(net, sys, u)
    requires sys.acks != [] && S.Blocked(sys.server)
    ensures Covers(U.Apply(cfg, src, Limits(cfg), net, U.DeliverAck(U.Frame(u.acks[0], sys.acks[0]))),
                   F.Apply(cfg, src, sys, I.DeliverAck),
                   I.Apply(cfg, src.Packets(), u, I.DeliverAck, quit))
  {
    hide SeqOf, Source.PacketAt, Source.Packets, R.Tracks, S.Turn, U.Framed, I.DataOrdered, I.AcksOrdered;
    hide S.Conserved, S.Settled, S.Inert, S.AreConsecutive, F.ArePackets;
    I.DeliveryBounds(cfg, src.Packets(), u);
    I.MarkBounds(cfg, src.Packets(), u);
    F.ServerReading(cfg, src, sys.server);
    S.AckTurn(cfg, src, sys.server, u.acks[0]);
    S.TurnConserved(cfg, src, sys.server, S.Ack(sys.acks[0]));
    var (server, sent) := S.Turn(cfg, src, sys.server, S.Ack(sys.acks[0]));
    F.ServerReading(cfg, src, server);
    FramedMembers(sent, sys.server.packetsInMem);
  }

  /** Steps in which the unordered network takes no part: losing, duplicating, and ... */
  lemma ChannelCovers(cfg: Config, src: Source, net: U.System, sys: F.System, u: I.IdealState, step: F.Step, quit: bool)
    requires Covers(net, sys, u) && R.Ready(cfg, sys.client)
    requires step.LoseData? || step.LoseAck? || step.DuplicateData? || step.DuplicateAck?
    ensures Covers(net, F.Apply(cfg, src, sys, step), I.Apply(cfg, src.Packets(), u, step, quit))
  {
    hide R.Receive, S.Turn, R.Received, Source.Packets;
  }

  /** ... delivering to a program that no longer takes part. */
  lemma IdleDataCovers(cfg: Config, src: Source, net: U.System, sys: F.System, u: I.IdealState, quit: bool)
    requires F.Matches(cfg, src, sys, u) && Covers(net, sys, u)
    requires sys.data == [] || !sys.client.running
    ensures Covers(net, F.Apply(cfg, src, sys, I.DeliverData), I.Apply(cfg, src.Packets(), u, I.DeliverData, quit))
  {
    hide R.Receive, R.Received, R.Tracks, F.ServerMatches, F.ArePackets, R.Acknowledge, Source.Packets;
    F.TracksRunning(cfg, src, sys.client, u.next, u.buffered);
    WrittenAtMost(cfg, src, sys.client, u.next, u.buffered);
    if sys.data != [] {
      R.ExitedReceive(cfg, sys.client, sys.data[0]);
    }
  }

  lemma WrittenAtMost(cfg: Config, src: Source, c: R.ClientState, next: nat, buffered: set<nat>)
    requires R.Tracks(cfg, src, c, next, buffered)
    ensures next <= src.Packets()
  {
  }

  lemma IdleAckCovers(cfg: Config, src: Source, net: U.System, sys: F.System, u: I.IdealState, quit: bool)
    requires F.Matches(cfg, src, sys, u) && Covers(net, sys, u)
    requires sys.acks == [] || !S.Blocked(sys.server)
    ensures Covers(net, F.Apply(cfg, src, sys, I.DeliverAck), I.Apply(cfg, src.Packets(), u, I.DeliverAck, quit))
  {
    hide R.Receive, R.Received, R.Tracks, F.ArePackets, R.Acknowledge, S.Turn, Source.Packets, S.AreConsecutive;
    if sys.acks != [] {
      S.StoppedTurn(cfg, src, sys.server, S.Ack(sys.acks[0]));
    }
  }

  lemma OneMore(cfg: Config, src: Source, steps: seq<U.Step>, step: U.Step)
    ensures U.Run(cfg, src, Limits(cfg), steps + [step])
         == U.Apply(cfg, src, Limits(cfg), U.Run(cfg, src, Limits(cfg), steps), step)
  {
    assert (steps + [step])[..|steps|] == steps;
  }

  /** Every run over the channels is a run over the unordered network: same server, same client. */
  lemma {:induction false} FifoRunIsUnorderedRun(cfg: Config, src: Source, steps: seq<F.Step>)
      returns (other: seq<U.Step>)
    requires src.file != [] && Sound(cfg)
    ensures Covers(U.Run(cfg, src, Limits(cfg), other), F.Run(cfg, src, steps), F.Companion(cfg, src, steps))
    ensures U.Run(cfg, src, Limits(cfg), other).server == F.Run(cfg, src, steps).server
    ensures U.Run(cfg, src, Limits(cfg), other).client == F.Run(cfg, src, steps).client
    decreases |steps|
  {
    hide F.Apply, U.Apply, I.Apply, F.Matches, I.Ordered, F.Initial, U.Initial, I.Initial;
    if steps == [] {
      InitialCovers(cfg, src);
      other := [];
    } else {
      var before, step := steps[..|steps| - 1], steps[|steps| - 1];
      other := FifoRunIsUnorderedRun(cfg, src, before);
      F.RunMatches(cfg, src, before);
      var net, sys, u := U.Run(cfg, src, Limits(cfg), other), F.Run(cfg, src, before), F.Companion(cfg, src, before);
      var quit := F.Run(cfg, src, steps).server.status.GaveUp?;
      if step.TimeOut? {
        TimeOutCovers(cfg, src, net, sys, u);
        OneMore(cfg, src, other, U.TimeOut);
        other := other + [U.TimeOut];
      } else if step.DeliverData? && sys.data != [] && sys.client.running {
        DeliverDataCovers(cfg, src, net, sys, u, quit);
        OneMore(cfg, src, other, U.DeliverData(U.Frame(u.data[0], sys.data[0])));
        other := other + [U.DeliverData(U.Frame(u.data[0], sys.data[0]))];
      } else if step.DeliverAck? && sys.acks != [] && S.Blocked(sys.server) {
        DeliverAckCovers(cfg, src, net, sys, u, quit);
        OneMore(cfg, src, other, U.DeliverAck(U.Frame(u.acks[0], sys.acks[0])));
        other := other + [U.DeliverAck(U.Frame(u.acks[0], sys.acks[0]))];
      } else {
        match step
        case DeliverData => IdleDataCovers(cfg, src, net, sys, u, quit);
        case DeliverAck => IdleAckCovers(cfg, src, net, sys, u, quit);
        case _ => ChannelCovers(cfg, src, net, sys, u, step, quit);
      }
    }
  }
}
