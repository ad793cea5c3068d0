/**
 * Server and client joined by a network that keeps every message it was ever given and may deliver
 * any of them, any number of times, in any order or not at all, provided it is not too old. The
 * limits of age are parameters; module `AgeLimits` shows exactly which limits the transfer needs.
 */
module Unordered {
  import opened Bytes
  import opened SequenceNumbers
  import opened Wire
  import S = Sender
  import R = Receiver
  import I = Ideal
  import E = EarlySet

  /** A message with the packet it concerns. The programs never see `id`. */
  datatype Frame<+T> = Frame(id: nat, message: T)

  datatype System = System(
    server: S.ServerState,
    client: R.ClientState,
    data: set<Frame<Packet>>,
    acks: set<Frame<uint32>>)

  datatype Step = TimeOut | DeliverData(packet: Frame<Packet>) | DeliverAck(ack: Frame<uint32>)

  /** How many packets the receiving program may have moved on since the one a message concerns. */
  datatype Limits = Limits(data: nat, acks: nat)

  predicate FreshData(limits: Limits, client: R.ClientState, id: nat) {
    client.packetCounter <= id + limits.data
  }

  predicate FreshAck(limits: Limits, server: S.ServerState, id: nat) {
    server.ackCounter <= id + limits.acks
  }

  /**
   * A packet is dropped before its number comes up again at the far end of the client's window, an
   * acknowledgement before its number comes up again at the front of the server's or, where the
   * server's set can do harm, as soon as its packet is retired.
   */
  predicate InRange(cfg: Config, limits: Limits) {
    && limits.data + cfg.window <= cfg.modulus
    && limits.acks < if HarmlessSet(cfg) then cfg.modulus else 1
  }

  /** Packets read from the file one after the other. */
  function Framed(packets: seq<Packet>, first: nat): set<Frame<Packet>> {
    set k | 0 <= k < |packets| :: Frame(first + k, packets[k])
  }

  /**
   * The packet that word `k` of the client's reply to packet `id` acknowledges: packet `id` itself,
   * or, if the reply went with packets `before` to `after - 1` being written, the next one of these.
   */
  function AckedId(before: nat, after: nat, id: nat, k: nat): nat {
    if before >= after then id else if before + k < after then before + k else after - 1
  }

  function Initial(cfg: Config, src: Source): (sys: System)
    ensures R.Ready(cfg, sys.client)
  {
    var (server, sent) := S.Serve(cfg, src, []);
    System(server, R.Startup(cfg, src), Framed(sent, 0), {})
  }

  function Apply(cfg: Config, src: Source, limits: Limits, sys: System, step: Step): (sys': System)
    requires R.Ready(cfg, sys.client)
    ensures R.Ready(cfg, sys'.client)
  {
    match step
    case TimeOut =>
      var (server, sent) := S.Turn(cfg, src, sys.server, S.Timeout);
      sys.(server := server, data := sys.data + Framed(sent, sys.server.ackCounter))
    case DeliverData(packet) =>
      if packet !in sys.data || !FreshData(limits, sys.client, packet.id) then sys else
      var (client, acks) := R.Receive(cfg, sys.client, packet.message);
      var before, after := sys.client.packetCounter, client.packetCounter;
      sys.(client := client,
           acks := sys.acks + set k | 0 <= k < |acks| ::
             Frame(AckedId(before, after, packet.id, k), acks[k]))
    case DeliverAck(ack) =>
      if ack !in sys.acks || !FreshAck(limits, sys.server, ack.id) then sys else
      var (server, sent) := S.Turn(cfg, src, sys.server, S.Ack(ack.message));
      sys.(server := server, data := sys.data + Framed(sent, sys.server.packetsInMem))
  }

  /** The state after a run from the start. */
  function Run(cfg: Config, src: Source, limits: Limits, steps: seq<Step>): (sys: System)
    ensures R.Ready(cfg, sys.client)
  {
    if steps == [] then Initial(cfg, src) else
    Apply(cfg, src, limits, Run(cfg, src, limits, steps[..|steps| - 1]), steps[|steps| - 1])
  }

  /** The server's set does nothing, or nothing but what it is there for. */
  ghost predicate GoodSet(cfg: Config, server: S.ServerState, next: nat, buffered: set<nat>) {
    if HarmlessSet(cfg) then S.Inert(cfg, server) else E.SetHeld(cfg, server, next, buffered)
  }

  ghost predicate Invariant(cfg: Config, src: Source, sys: System, buffered: set<nat>) {
    && S.Conserved(cfg, src, sys.server) && S.Settled(cfg, sys.server)
    && GoodSet(cfg, sys.server, sys.client.packetCounter, buffered)
    && R.Tracks(cfg, src, sys.client, sys.client.packetCounter, buffered)
    && I.Synchronised(cfg, src.Packets(), sys.server.ackCounter, sys.server.packetsInMem,
                      sys.client.packetCounter, buffered)
    && (forall f <- sys.data :: I.DataInFlight(sys.server.packetsInMem, f.id) && f.message == src.PacketAt(cfg, f.id))
    && (forall f <- sys.acks :: I.AckInFlight(sys.client.packetCounter, buffered, f.id)
                             && f.message == AckWord(cfg, f.id))
  }

  lemma InitialInvariant(cfg: Config, src: Source)
    requires src.file != []
    ensures Invariant(cfg, src, Initial(cfg, src), {})
  {
    hide SeqOf, Source.ReadAt, Source.PacketAt, S.FillWindow, R.Buffers, GoodSet;
    S.FillConserved(cfg, src, S.Startup(src));
    R.StartupTracks(cfg, src);
    EmptyGoodSet(cfg, Initial(cfg, src).server, 0, {});
  }

  lemma EmptyGoodSet(cfg: Config, server: S.ServerState, next: nat, buffered: set<nat>)
    requires server.outOfOrder == {}
    ensures GoodSet(cfg, server, next, buffered)
  {
    E.EmptyHeld(cfg, server, next, buffered);
  }

  lemma GoodSetStays(cfg: Config, s: S.ServerState, s': S.ServerState,
                     next: nat, buffered: set<nat>, next': nat, buffered': set<nat>)
    requires GoodSet(cfg, s, next, buffered)
    requires s'.outOfOrder == s.outOfOrder && s'.ackCounter == s.ackCounter && s'.packetsInMem == s.packetsInMem
    requires forall a: nat | I.AckInFlight(next, buffered, a) :: I.AckInFlight(next', buffered', a)
    ensures GoodSet(cfg, s', next', buffered')
  {
    hide E.SetHeld, SeqOf;
    if !HarmlessSet(cfg) {
      E.StillHeld(cfg, s, s', next, buffered, next', buffered');
    }
  }

  lemma TimeOutInvariant(cfg: Config, src: Source, limits: Limits, sys: System, buffered: set<nat>)
    requires Invariant(cfg, src, sys, buffered)
    ensures Invariant(cfg, src, Apply(cfg, src, limits, sys, TimeOut), buffered)
  {
    hide SeqOf, Source.PacketAt, Source.Packets, S.Turn, R.Buffers, S.AreConsecutive, GoodSet;
    var server := S.Turn(cfg, src, sys.server, S.Timeout).0;
    var next := sys.client.packetCounter;
    if S.Blocked(sys.server) {
      S.TimeoutTurn(cfg, src, sys.server);
      S.TurnConserved(cfg, src, sys.server, S.Timeout);
    } else {
      S.StoppedTurn(cfg, src, sys.server, S.Timeout);
    }
    GoodSetStays(cfg, sys.server, server, next, buffered, next, buffered);
  }

  /** An acknowledgement in flight that is not too old retires only packets the client has. */
  lemma AckTurn(cfg: Config, src: Source, limits: Limits, server: S.ServerState, next: nat, buffered: set<nat>, a: nat)
    requires InRange(cfg, limits) && FreshAck(limits, server, a)
    requires S.Conserved(cfg, src, server) && S.Settled(cfg, server) && S.Blocked(server)
    requires GoodSet(cfg, server, next, buffered)
    requires I.Synchronised(cfg, src.Packets(), server.ackCounter, server.packetsInMem, next, buffered)
    requires I.AckInFlight(next, buffered, a)
    ensures var (server', sent) := S.Turn(cfg, src, server, S.Ack(AckWord(cfg, a)));
      && GoodSet(cfg, server', next, buffered)
      && S.AreConsecutive(cfg, src, sent, server.packetsInMem)
      && |sent| == server'.packetsInMem - server.packetsInMem
      && I.Synchronised(cfg, src.Packets(), server'.ackCounter, server'.packetsInMem, next, buffered)
  {
    hide SeqOf, Source.PacketAt, Source.Packets, S.Turn, E.SetHeld;
    var server' := S.Turn(cfg, src, server, S.Ack(AckWord(cfg, a))).0;
    var total := src.Packets();
    S.TurnConserved(cfg, src, server, S.Ack(AckWord(cfg, a)));
    if HarmlessSet(cfg) {
      S.AckTurn(cfg, src, server, a);
    } else if a == server.ackCounter {
      E.FrontAckHeld(cfg, src, server, next, buffered);
      E.RetireHeld(cfg, total, server.ackCounter, server'.ackCounter, server.packetsInMem, next, buffered);
    } else {
      E.EarlyAckHeld(cfg, src, server, next, buffered, a);
    }
  }

  lemma DeliverAckInvariant(cfg: Config, src: Source, limits: Limits, sys: System, buffered: set<nat>,
                            ack: Frame<uint32>)
    requires InRange(cfg, limits)
    requires Invariant(cfg, src, sys, buffered)
    ensures Invariant(cfg, src, Apply(cfg, src, limits, sys, DeliverAck(ack)), buffered)
  {
    hide SeqOf, Source.PacketAt, Source.Packets, S.Turn, R.Tracks, GoodSet, I.Synchronised, InRange;
    if ack in sys.acks && FreshAck(limits, sys.server, ack.id) {
      if S.Blocked(sys.server) {
        AckTurn(cfg, src, limits, sys.server, sys.client.packetCounter, buffered, ack.id);
        S.TurnConserved(cfg, src, sys.server, S.Ack(ack.message));
      } else {
        S.StoppedTurn(cfg, src, sys.server, S.Ack(ack.message));
      }
    }
  }

  lemma {:induction false} RunAcksAt(total: nat, from: nat, upto: nat, k: nat)
    requires from < upto <= total && k < |R.RunAcks(total, from, upto)|
    ensures R.RunAcks(total, from, upto)[k] == Min(from + k, upto - 1)
    decreases upto - from
  {
    if from + 1 < upto {
      if k > 0 {
        RunAcksAt(total, from + 1, upto, k - 1);
      }
    } else {
      R.NoAcks(total, upto);
    }
  }

  /** The acknowledgements of a reply, and the packets the network attributes them to. */
  lemma ReplyIds(cfg: Config, src: Source, c: R.ClientState, buffered: set<nat>, id: nat)
    requires cfg.window <= cfg.modulus
    requires R.Ready(cfg, c) && R.Tracks(cfg, src, c, c.packetCounter, buffered) && c.running
    requires c.packetCounter !in buffered && forall i <- buffered :: i < src.Packets()
    requires c.packetCounter + cfg.window <= id + cfg.modulus && id < c.packetCounter + cfg.window
    ensures var (c', acks) := R.Receive(cfg, c, src.PacketAt(cfg, id));
      var (next', _, ids) := R.Received(cfg, src.Packets(), c.packetCounter, buffered, id);
      && R.Acknowledge(cfg, acks, ids) && c'.packetCounter == next'
      && (forall k | 0 <= k < |ids| :: ids[k] == AckedId(c.packetCounter, next', id, k))
  {
    hide SeqOf, Source.PacketAt, Source.Packets, R.Receive, R.RunAcks, R.Drained, R.Buffers, R.WindowFrom;
    var next, total := c.packetCounter, src.Packets();
    R.ReceiveTracks(cfg, src, c, next, buffered, id);
    R.DrainedIsMaximalRun(next + 1, buffered);
    var (next', _, ids) := R.Received(cfg, total, next, buffered, id);
    forall k | 0 <= k < |ids|
      ensures ids[k] == AckedId(next, next', id, k)
    {
      if id == next {
        RunAcksAt(total, next, next', k);
      }
    }
  }

  lemma DeliverDataInvariant(cfg: Config, src: Source, limits: Limits, sys: System, buffered: set<nat>,
                             packet: Frame<Packet>)
      returns (buffered': set<nat>)
    requires InRange(cfg, limits)
    requires Invariant(cfg, src, sys, buffered)
    ensures Invariant(cfg, src, Apply(cfg, src, limits, sys, DeliverData(packet)), buffered')
  {
    hide SeqOf, Source.PacketAt, Source.Packets, R.Receive, R.RunAcks, R.Drained, R.Buffers, S.Conserved, S.Settled;
    hide GoodSet;
    buffered' := buffered;
    var c, total := sys.client, src.Packets();
    if packet in sys.data && FreshData(limits, c, packet.id) {
      if c.running {
        var next := c.packetCounter;
        R.ReceiveTracks(cfg, src, c, next, buffered, packet.id);
        I.ReceivedSynchronised(cfg, total, sys.server.ackCounter, sys.server.packetsInMem, next, buffered, packet.id);
        ReplyIds(cfg, src, c, buffered, packet.id);
        var (next', b, ids) := R.Received(cfg, total, next, buffered, packet.id);
        buffered' := b;
        assert forall k | 0 <= k < |ids| :: ids[k] in ids;
        GoodSetStays(cfg, sys.server, sys.server, next, buffered, next', b);
      } else {
        R.ExitedReceive(cfg, c, packet.message);
      }
    }
  }

  /** Every run keeps the programs synchronised and the messages in flight meaningful. */
  lemma {:induction false} RunInvariant(cfg: Config, src: Source, limits: Limits, steps: seq<Step>)
      returns (buffered: set<nat>)
    requires src.file != [] && InRange(cfg, limits)
    ensures Invariant(cfg, src, Run(cfg, src, limits, steps), buffered)
    decreases |steps|
  {
    hide Invariant, Apply, Initial;
    if steps == [] {
      InitialInvariant(cfg, src);
      buffered := {};
    } else {
      var sys, step := Run(cfg, src, limits, steps[..|steps| - 1]), steps[|steps| - 1];
      buffered := RunInvariant(cfg, src, limits, steps[..|steps| - 1]);
      match step
      case TimeOut => TimeOutInvariant(cfg, src, limits, sys, buffered);
      case DeliverAck(ack) => DeliverAckInvariant(cfg, src, limits, sys, buffered, ack);
      case DeliverData(packet) => buffered := DeliverDataInvariant(cfg, src, limits, sys, buffered, packet);
    }
  }

  /** End-to-end safety, and truthful completion, over any network that drops what is too old. */
  lemma Safety(cfg: Config, src: Source, limits: Limits, steps: seq<Step>)
    requires src.file != [] && InRange(cfg, limits)
    ensures var sys := Run(cfg, src, limits, steps);
      && sys.client.written == src.file[..Min(1000 * sys.client.packetCounter, |src.file|)]
      && (sys.server.status.Complete? || !sys.client.running ==> sys.client.written == src.file)
      && sys.server.ackCounter <= sys.client.packetCounter <= sys.server.packetsInMem
  {
    hide Run, Source.Packets;
    var buffered := RunInvariant(cfg, src, limits, steps);
    src.PrefixComplete();
  }
}
