/** Exactly how old messages may get on a network that delivers them in any order. */
module AgeLimits {
  import opened Bytes
  import opened SequenceNumbers
  import opened Wire
  import opened MarkedFiles
  import S = Sender
  import R = Receiver
  import I = Ideal
  import U = Unordered

  /** The output is the front of the file, and all of it when the server reports completion. */
  ghost predicate Correct(src: Source, sys: U.System) {
    && sys.client.written == src.file[..Min(1000 * sys.client.packetCounter, |src.file|)]
    && (sys.server.status.Complete? ==> sys.client.written == src.file)
  }

  /**
   * The server has retired `retired` packets of `src` and can still have any of its messages
   * delivered; the client is where the first `next` packets of `fake` would have taken it.
   * `stored` is the server's set of early acknowledgements.
   */
  ghost predicate Deceived(cfg: Config, src: Source, fake: Source, sys: U.System,
                           retired: nat, next: nat, buffered: set<nat>, stored: set<uint32>) {
    && src.Packets() == fake.Packets()
    && S.Conserved(cfg, src, sys.server) && S.Settled(cfg, sys.server) && sys.server.outOfOrder == stored
    && sys.server.ackCounter == retired && !sys.server.status.GaveUp?
    && R.Ready(cfg, sys.client)
    && R.Tracks(cfg, fake, sys.client, next, buffered)
    && sys.client.packetCounter == next
    && (forall i: nat | i < sys.server.packetsInMem :: U.Frame(i, src.PacketAt(cfg, i)) in sys.data)
    && (forall i: nat | i < next :: U.Frame(i, AckWord(cfg, i)) in sys.acks)
  }

  lemma RunStep(cfg: Config, src: Source, limits: U.Limits, steps: seq<U.Step>, step: U.Step)
    ensures U.Run(cfg, src, limits, steps + [step])
         == U.Apply(cfg, src, limits, U.Run(cfg, src, limits, steps), step)
  {
    assert (steps + [step])[..|steps|] == steps;
  }

  lemma FramedMembers(packets: seq<Packet>, first: nat)
    ensures forall k | 0 <= k < |packets| :: U.Frame(first + k, packets[k]) in U.Framed(packets, first)
  {
  }

  lemma StartDeceived(cfg: Config, src: Source, fake: Source, limits: U.Limits)
    requires src.file != [] && |src.file| == |fake.file|
    ensures Deceived(cfg, src, fake, U.Run(cfg, src, limits, []), 0, 0, {}, {})
  {
    hide SeqOf, Source.PacketAt, S.FillWindow, R.Tracks, U.Framed;
    S.FillConserved(cfg, src, S.Startup(src));
    R.StartupTracks(cfg, fake);
    var sys := U.Initial(cfg, src);
    FramedMembers(S.Serve(cfg, src, []).1, 0);
    forall i: nat | i < sys.server.packetsInMem
      ensures U.Frame(i, src.PacketAt(cfg, i)) in sys.data
    {
      assert U.Frame(0 + i, S.Serve(cfg, src, []).1[i]) in sys.data;
    }
  }

  /** Delivery of packet `id`, which reads like packet `j` of the other file. */
  lemma DeliverAs(cfg: Config, src: Source, fake: Source, limits: U.Limits, sys: U.System,
                  retired: nat, next: nat, buffered: set<nat>, stored: set<uint32>, id: nat, j: nat)
    requires cfg.window <= cfg.modulus
    requires Deceived(cfg, src, fake, sys, retired, next, buffered, stored)
    requires id < sys.server.packetsInMem && src.PacketAt(cfg, id) == fake.PacketAt(cfg, j)
    requires next <= id + limits.data && next <= j < next + cfg.window
    requires next < fake.Packets() && next !in buffered && forall i <- buffered :: i < fake.Packets()
    ensures var sys' := U.Apply(cfg, src, limits, sys, U.DeliverData(U.Frame(id, src.PacketAt(cfg, id))));
      var (next', buffered', ids) := R.Received(cfg, fake.Packets(), next, buffered, j);
      && sys'.server == sys.server && sys'.data == sys.data && sys.acks <= sys'.acks
      && R.Ready(cfg, sys'.client) && R.Tracks(cfg, fake, sys'.client, next', buffered')
      && sys'.client.packetCounter == next'
      && (j == next && id == j ==>
            forall k | 0 <= k < |ids| :: U.Frame(U.AckedId(next, next', id, k), AckWord(cfg, ids[k])) in sys'.acks)
  {
    hide SeqOf, Source.PacketAt, Source.Packets, R.Receive, R.Received, S.Conserved, S.Settled, S.Inert;
    hide R.Buffers, R.WindowFrom;
    R.ReceiveTracks(cfg, fake, sys.client, next, buffered, j);
  }

  /** Delivery of the packet the client expects. */
  lemma DeliverNext(cfg: Config, src: Source, fake: Source, limits: U.Limits, sys: U.System,
                    retired: nat, next: nat, buffered: set<nat>, stored: set<uint32>)
    requires cfg.window <= cfg.modulus
    requires Deceived(cfg, src, fake, sys, retired, next, buffered, stored)
    requires next < sys.server.packetsInMem && src.PacketAt(cfg, next) == fake.PacketAt(cfg, next)
    requires next + 1 < fake.Packets() && next !in buffered && next + 1 !in buffered
    requires forall i <- buffered :: i < fake.Packets()
    ensures Deceived(cfg, src, fake,
                     U.Apply(cfg, src, limits, sys, U.DeliverData(U.Frame(next, src.PacketAt(cfg, next)))),
                     retired, next + 1, buffered, stored)
  {
    hide SeqOf, Source.PacketAt, Source.Packets, R.Received, S.Conserved, S.Settled, S.Inert, R.Tracks;
    hide R.Ready, U.Apply;
    DeliverAs(cfg, src, fake, limits, sys, retired, next, buffered, stored, next, next);
    R.ReceivedNext(cfg, fake.Packets(), next, buffered);
    var sys' := U.Apply(cfg, src, limits, sys, U.DeliverData(U.Frame(next, src.PacketAt(cfg, next))));
    assert U.Frame(U.AckedId(next, next + 1, next, 0), AckWord(cfg, [next][0])) in sys'.acks;
  }

  /** Delivery of the acknowledgement the server waits for. */
  lemma AckNext(cfg: Config, src: Source, fake: Source, limits: U.Limits, sys: U.System,
                retired: nat, next: nat, buffered: set<nat>, stored: set<uint32>)
    requires Deceived(cfg, src, fake, sys, retired, next, buffered, stored)
    requires retired < next && retired < src.Packets() && SeqOf(cfg, retired + 1) !in stored
    ensures Deceived(cfg, src, fake,
                     U.Apply(cfg, src, limits, sys, U.DeliverAck(U.Frame(retired, AckWord(cfg, retired)))),
                     retired + 1, next, buffered, stored)
  {
    hide SeqOf, Source.PacketAt, Source.Packets, R.Tracks, R.Ready, S.Turn, U.Framed;
    var (server, sent) := S.Turn(cfg, src, sys.server, S.Ack(AckWord(cfg, retired)));
    S.NextNotStored(cfg, src, sys.server);
    S.FrontAckTurn(cfg, src, sys.server);
    S.TurnConserved(cfg, src, sys.server, S.Ack(AckWord(cfg, retired)));
    FramedMembers(sent, sys.server.packetsInMem);
    var sys' := U.Apply(cfg, src, limits, sys, U.DeliverAck(U.Frame(retired, AckWord(cfg, retired))));
    forall i: nat | i < server.packetsInMem
      ensures U.Frame(i, src.PacketAt(cfg, i)) in sys'.data
    {
      if i >= sys.server.packetsInMem {
        var k := i - sys.server.packetsInMem;
        assert U.Frame(sys.server.packetsInMem + k, sent[k]) in sys'.data;
      }
    }
  }

  /** While the client is expected to write packet `next`, the server has sent it. */
  lemma NextIsSent(cfg: Config, src: Source, fake: Source, sys: U.System, next: nat, buffered: set<nat>,
                   stored: set<uint32>)
    requires Deceived(cfg, src, fake, sys, next, next, buffered, stored) && next < src.Packets()
    ensures next < sys.server.packetsInMem
  {
  }

  /** Both programs move on together, packet by packet. */
  lemma {:induction false} Advance(cfg: Config, src: Source, fake: Source, limits: U.Limits, steps: seq<U.Step>,
                                   from: nat, upto: nat, buffered: set<nat>, stored: set<uint32>)
      returns (more: seq<U.Step>)
    requires cfg.window <= cfg.modulus && from <= upto < src.Packets()
    requires Deceived(cfg, src, fake, U.Run(cfg, src, limits, steps), from, from, buffered, stored)
    requires forall i: nat | from <= i < upto :: src.PacketAt(cfg, i) == fake.PacketAt(cfg, i)
    requires forall i <- buffered :: upto < i < fake.Packets()
    requires forall i: nat | from < i <= upto :: SeqOf(cfg, i) !in stored
    ensures Deceived(cfg, src, fake, U.Run(cfg, src, limits, more), upto, upto, buffered, stored)
    decreases upto - from
  {
    hide U.Run, U.Apply, Deceived, Source.Packets, Source.PacketAt, SeqOf;
    if from == upto {
      more := steps;
    } else {
      var sys := U.Run(cfg, src, limits, steps);
      SamePackets(cfg, src, fake, sys, from, from, buffered, stored);
      NextIsSent(cfg, src, fake, sys, from, buffered, stored);
      DeliverNext(cfg, src, fake, limits, sys, from, from, buffered, stored);
      var data := U.DeliverData(U.Frame(from, src.PacketAt(cfg, from)));
      RunStep(cfg, src, limits, steps, data);
      AckNext(cfg, src, fake, limits, U.Run(cfg, src, limits, steps + [data]), from, from + 1, buffered, stored);
      var ack := U.DeliverAck(U.Frame(from, AckWord(cfg, from)));
      RunStep(cfg, src, limits, steps + [data], ack);
      more := Advance(cfg, src, fake, limits, steps + [data] + [ack], from + 1, upto, buffered, stored);
    }
  }

  lemma SamePackets(cfg: Config, src: Source, fake: Source, sys: U.System, retired: nat, next: nat,
                    buffered: set<nat>, stored: set<uint32>)
    requires Deceived(cfg, src, fake, sys, retired, next, buffered, stored)
    ensures src.Packets() == fake.Packets()
  {
  }

  /** The client stores packet 0 as packet `modulus`, moves on to it and writes it. */
  lemma DrainStale(cfg: Config, src: Source, fake: Source, limits: U.Limits, steps: seq<U.Step>, far: nat)
      returns (more: seq<U.Step>, left: set<nat>)
    requires cfg.window <= cfg.modulus && far < cfg.modulus < src.Packets()
    requires Deceived(cfg, src, fake, U.Run(cfg, src, limits, steps), far, far, {cfg.modulus as nat}, {})
    requires forall i: nat | i < cfg.modulus :: src.PacketAt(cfg, i) == fake.PacketAt(cfg, i)
    ensures R.Tracks(cfg, fake, U.Run(cfg, src, limits, more).client, cfg.modulus + 1, left)
  {
    hide U.Run, U.Apply, Deceived, SeqOf, Source.Packets, Source.PacketAt, R.Received, R.Tracks, R.Ready;
    var m: nat := cfg.modulus;
    var sys := U.Run(cfg, src, limits, steps);
    SamePackets(cfg, src, fake, sys, far, far, {m}, {});
    more := Advance(cfg, src, fake, limits, steps, far, m - 1, {m}, {});
    sys := U.Run(cfg, src, limits, more);
    NextIsSent(cfg, src, fake, sys, m - 1, {m}, {});
    DeliverAs(cfg, src, fake, limits, sys, m - 1, m - 1, {m}, {}, m - 1, m - 1);
    R.DrainOne(cfg, fake.Packets(), m);
    left := R.Received(cfg, fake.Packets(), m - 1, {m}, m - 1).1;
    var last := U.DeliverData(U.Frame(m - 1, src.PacketAt(cfg, m - 1)));
    RunStep(cfg, src, limits, more, last);
    more := more + [last];
  }

  /**
   * Packets that may be late by one window's complement or more: packet 0, redelivered when its
   * number stands for packet `modulus`, ends up in that packet's place.
   */
  lemma LatePacketBreaks(cfg: Config, limits: U.Limits) returns (steps: seq<U.Step>)
    requires cfg.window <= cfg.modulus < limits.data + cfg.window
    ensures var src := MarkedSource(cfg.modulus + 1, {0});
      !Correct(src, U.Run(cfg, src, limits, steps))
  {
    hide U.Run, U.Apply, Deceived, Correct, SeqOf, Source.Packets, Source.PacketAt, MarkedSource, R.Received;
    var m, count := cfg.modulus, cfg.modulus + 1;
    var src, fake := MarkedSource(count, {0}), MarkedSource(count, {0, m});
    AliasedPackets(cfg, count);
    StartDeceived(cfg, src, fake, limits);
    var far := m - cfg.window + 1;
    steps := Advance(cfg, src, fake, limits, [], 0, far, {}, {});
    var sys := U.Run(cfg, src, limits, steps);
    FirstStillThere(cfg, src, fake, sys, far);
    DeliverAs(cfg, src, fake, limits, sys, far, far, {}, {}, 0, m);
    var stale := U.DeliverData(U.Frame(0, src.PacketAt(cfg, 0)));
    RunStep(cfg, src, limits, steps, stale);
    R.ReceivedAhead(cfg, count, far, m);
    var left := R.Received(cfg, count, far, {}, m).1;
    steps := steps + [stale];
    if far < m {
      StillDeceived(cfg, src, fake, sys, U.Run(cfg, src, limits, steps), far, {m});
      steps, left := DrainStale(cfg, src, fake, limits, steps, far);
    }
    MarkedPrefixesDiffer(count, {0}, {0, m}, m, m + 1);
    WrongBytes(cfg, src, fake, U.Run(cfg, src, limits, steps), m + 1, left);
  }

  lemma FirstStillThere(cfg: Config, src: Source, fake: Source, sys: U.System, at: nat)
    requires Deceived(cfg, src, fake, sys, at, at, {}, {}) && src.file != []
    ensures 0 < sys.server.packetsInMem
  {
  }

  lemma StillDeceived(cfg: Config, src: Source, fake: Source, sys: U.System, sys': U.System, at: nat,
                      buffered: set<nat>)
    requires Deceived(cfg, src, fake, sys, at, at, {}, {})
    requires sys'.server == sys.server && sys'.data == sys.data && sys.acks <= sys'.acks
    requires R.Ready(cfg, sys'.client) && R.Tracks(cfg, fake, sys'.client, at, buffered)
    ensures Deceived(cfg, src, fake, sys', at, at, buffered, {})
  {
    hide SeqOf, Source.PacketAt, Source.Packets, S.Conserved, S.Settled, S.Inert;
  }

  lemma WrongBytes(cfg: Config, src: Source, fake: Source, sys: U.System, n: nat, buffered: set<nat>)
    requires |src.file| == |fake.file|
    requires R.Tracks(cfg, fake, sys.client, n, buffered)
    requires src.Prefix(n) != fake.Prefix(n)
    ensures !Correct(src, sys)
  {
  }

  /**
   * Acknowledgements that may be late by as many packets as there are numbers: acknowledgement 0,
   * redelivered when its number stands for packet `modulus`, retires that packet, which the client lacks.
   */
  lemma LateAckBreaks(cfg: Config, limits: U.Limits) returns (steps: seq<U.Step>)
    requires cfg.window <= cfg.modulus <= limits.acks
    ensures var src := MarkedSource(cfg.modulus + 1, {0});
      !Correct(src, U.Run(cfg, src, limits, steps))
  {
    hide U.Run, U.Apply, Deceived, Correct, SeqOf, Source.Packets, Source.PacketAt, MarkedSource;
    var m, count := cfg.modulus, cfg.modulus + 1;
    var src := MarkedSource(count, {0});
    MarkedSize(count, {0});
    StartDeceived(cfg, src, src, limits);
    steps := Advance(cfg, src, src, limits, [], 0, m, {}, {});
    var stale := U.DeliverAck(U.Frame(0, AckWord(cfg, 0)));
    RunStep(cfg, src, limits, steps, stale);
    StaleAckCompletes(cfg, src, limits, U.Run(cfg, src, limits, steps));
    steps := steps + [stale];
  }

  lemma StaleAckCompletes(cfg: Config, src: Source, limits: U.Limits, sys: U.System)
    requires cfg.modulus <= limits.acks && src.Packets() == cfg.modulus + 1
    requires Deceived(cfg, src, src, sys, cfg.modulus, cfg.modulus, {}, {})
    ensures !Correct(src, U.Apply(cfg, src, limits, sys, U.DeliverAck(U.Frame(0, AckWord(cfg, 0)))))
  {
    hide SeqOf, Source.PacketAt, Source.Packets, S.Turn, R.Buffers, R.WindowFrom;
    var m := cfg.modulus;
    SeqOfPeriodic(cfg, 0);
    assert AckWord(cfg, 0) == AckWord(cfg, m);
    S.AckTurn(cfg, src, sys.server, m);
    S.TurnConserved(cfg, src, sys.server, S.Ack(AckWord(cfg, m)));
    PrefixIncomplete(src, m);
  }

  /** An acknowledgement that arrives again, after its packet was retired, stays in the set. */
  lemma StoreAgain(cfg: Config, src: Source, limits: U.Limits, sys: U.System)
    requires 1 <= limits.acks && 2 <= cfg.modulus && !cfg.littleEndian && 1 < src.Packets()
    requires Deceived(cfg, src, src, sys, 1, 1, {}, {})
    ensures Deceived(cfg, src, src, U.Apply(cfg, src, limits, sys, U.DeliverAck(U.Frame(0, AckWord(cfg, 0)))),
                     1, 1, {}, {SeqOf(cfg, 0)})
  {
    hide SeqOf, Source.PacketAt, Source.Packets, S.Turn, R.Tracks, R.Ready;
    S.EarlyAckTurn(cfg, src, sys.server, 0);
    assert {} + {AckWord(cfg, 0)} == {SeqOf(cfg, 0)};
    assert sys.data + U.Framed([], sys.server.packetsInMem) == sys.data;
  }

  /** ... and retires the packet that shares its number, unread, with the one before it. */
  lemma PopTwoCompletes(cfg: Config, src: Source, limits: U.Limits, sys: U.System)
    requires 2 <= cfg.window && src.Packets() == cfg.modulus + 1
    requires Deceived(cfg, src, src, sys, cfg.modulus - 1, cfg.modulus, {}, {SeqOf(cfg, 0)})
    ensures var a := cfg.modulus - 1;
      !Correct(src, U.Apply(cfg, src, limits, sys, U.DeliverAck(U.Frame(a, AckWord(cfg, a)))))
  {
    hide SeqOf, Source.PacketAt, Source.Packets, S.Turn, R.Buffers, R.WindowFrom;
    SeqOfPeriodic(cfg, 0);
    S.SecondPops(cfg, src, sys.server);
    S.TurnConserved(cfg, src, sys.server, S.Ack(AckWord(cfg, cfg.modulus - 1)));
    PrefixIncomplete(src, cfg.modulus);
  }

  /**
   * Where the set can do harm, acknowledgements that may be one packet late: acknowledgement 0,
   * redelivered at once, later retires packet `modulus`, and the server reports completion.
   */
  lemma LateAckStored(cfg: Config, limits: U.Limits) returns (steps: seq<U.Step>)
    requires !HarmlessSet(cfg) && cfg.window <= cfg.modulus && 1 <= limits.acks
    ensures var src := MarkedSource(cfg.modulus + 1, {0});
      !Correct(src, U.Run(cfg, src, limits, steps))
  {
    hide U.Run, U.Apply, Deceived, Correct, SeqOf, Source.Packets, Source.PacketAt, MarkedSource;
    var m, count := cfg.modulus, cfg.modulus + 1;
    var src := MarkedSource(count, {0});
    MarkedSize(count, {0});
    StartDeceived(cfg, src, src, limits);
    steps := Advance(cfg, src, src, limits, [], 0, 1, {}, {});
    StoreAgain(cfg, src, limits, U.Run(cfg, src, limits, steps));
    var again := U.DeliverAck(U.Frame(0, AckWord(cfg, 0)));
    RunStep(cfg, src, limits, steps, again);
    forall i: nat | 1 < i <= m - 1
      ensures SeqOf(cfg, i) !in {SeqOf(cfg, 0)}
    {
      SeqOfInjective(cfg, 0, i);
    }
    steps := Advance(cfg, src, src, limits, steps + [again], 1, m - 1, {}, {SeqOf(cfg, 0)});
    var sys := U.Run(cfg, src, limits, steps);
    NextIsSent(cfg, src, src, sys, m - 1, {}, {SeqOf(cfg, 0)});
    DeliverNext(cfg, src, src, limits, sys, m - 1, m - 1, {}, {SeqOf(cfg, 0)});
    var data := U.DeliverData(U.Frame(m - 1, src.PacketAt(cfg, m - 1)));
    RunStep(cfg, src, limits, steps, data);
    PopTwoCompletes(cfg, src, limits, U.Run(cfg, src, limits, steps + [data]));
    var ack := U.DeliverAck(U.Frame(m - 1, AckWord(cfg, m - 1)));
    RunStep(cfg, src, limits, steps + [data], ack);
    steps := steps + [data] + [ack];
  }

  lemma PrefixIncomplete(src: Source, n: nat)
    requires n < src.Packets()
    ensures src.Prefix(n) != src.file
  {
  }

  /** A window wider than the range of numbers: packet `modulus`, arriving first, is written as packet 0. */
  lemma WideWindowBreaks(cfg: Config, limits: U.Limits) returns (steps: seq<U.Step>)
    requires cfg.modulus < cfg.window
    ensures var src := MarkedSource(cfg.modulus + 1, {0});
      !Correct(src, U.Run(cfg, src, limits, steps))
  {
    hide U.Run, U.Apply, Deceived, Correct, SeqOf, Source.Packets, Source.PacketAt, MarkedSource, R.Receive;
    var m, count := cfg.modulus, cfg.modulus + 1;
    var src, fake := MarkedSource(count, {0}), MarkedSource(count, {});
    AliasedFirstPacket(cfg, count);
    StartDeceived(cfg, src, fake, limits);
    var sys := U.Run(cfg, src, limits, []);
    FirstWrite(cfg, src, fake, limits, sys);
    steps := [U.DeliverData(U.Frame(m, src.PacketAt(cfg, m)))];
    RunStep(cfg, src, limits, [], steps[0]);
    assert [] + [steps[0]] == steps;
    MarkedPrefixesDiffer(count, {0}, {}, 0, 1);
    WrongFirst(src, fake, U.Run(cfg, src, limits, steps));
  }

  lemma FirstWrite(cfg: Config, src: Source, fake: Source, limits: U.Limits, sys: U.System)
    requires cfg.modulus < cfg.window && src.Packets() == cfg.modulus + 1
    requires Deceived(cfg, src, fake, sys, 0, 0, {}, {})
    requires src.PacketAt(cfg, cfg.modulus) == fake.PacketAt(cfg, 0)
    ensures var client := U.Apply(cfg, src, limits, sys,
                                  U.DeliverData(U.Frame(cfg.modulus, src.PacketAt(cfg, cfg.modulus)))).client;
      client.written == fake.Prefix(1) && client.packetCounter == 1
  {
    hide SeqOf, Source.PacketAt, Source.Packets, R.Receive, R.Buffers, R.WindowFrom;
    R.InOrderReceive(cfg, fake, sys.client, 0);
    assert cfg.modulus < sys.server.packetsInMem;
  }

  lemma WrongFirst(src: Source, fake: Source, sys: U.System)
    requires |src.file| == |fake.file|
    requires sys.client.written == fake.Prefix(1) && sys.client.packetCounter == 1
    requires src.Prefix(1) != fake.Prefix(1)
    ensures !Correct(src, sys)
  {
  }

  /**
   * Over a network that reorders and delays, every run over every file writes the right bytes and
   * completes truthfully if and only if packets are dropped before their numbers come up again at the
   * far end of the window, and acknowledgements before theirs come up again at the front or, where the
   * set can do harm, as soon as their packet is retired.
   */
  lemma CorrectIffInRange(cfg: Config, limits: U.Limits)
    ensures (forall src: Source, steps: seq<U.Step> | src.file != [] :: Correct(src, U.Run(cfg, src, limits, steps)))
       <==> && limits.data + cfg.window <= cfg.modulus
            && limits.acks < if cfg.littleEndian || cfg.window == 1 then cfg.modulus else 1
  {
    hide U.Run, Correct, MarkedSource;
    if U.InRange(cfg, limits) {
      forall src: Source, steps: seq<U.Step> | src.file != []
        ensures Correct(src, U.Run(cfg, src, limits, steps))
      {
        SafetyIsCorrect(cfg, src, limits, steps);
      }
    } else {
      var steps;
      if cfg.modulus < cfg.window {
        steps := WideWindowBreaks(cfg, limits);
      } else if cfg.modulus < limits.data + cfg.window {
        steps := LatePacketBreaks(cfg, limits);
      } else if HarmlessSet(cfg) {
        steps := LateAckBreaks(cfg, limits);
      } else {
        steps := LateAckStored(cfg, limits);
      }
      MarkedSize(cfg.modulus + 1, {0});
    }
  }

  lemma SafetyIsCorrect(cfg: Config, src: Source, limits: U.Limits, steps: seq<U.Step>)
    requires src.file != [] && U.InRange(cfg, limits)
    ensures Correct(src, U.Run(cfg, src, limits, steps))
  {
    hide U.Run;
    U.Safety(cfg, src, limits, steps);
  }
}
