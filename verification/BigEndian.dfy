/**
 * On a big-endian host the server's set of early acknowledgements is not inert. One acknowledgement,
 * duplicated by the network, then makes it retire a packet that never arrived, and in the end the
 * client writes a later packet in that packet's place.
 */
module BigEndian {
  import opened Bytes
  import opened SequenceNumbers
  import opened Wire
  import opened MarkedFiles
  import S = Sender
  import R = Receiver
  import I = Ideal
  import F = Fifo

  /**
   * The server sends `src` and has `stored` in its set; the client is where `fake` would have taken
   * it. Counters and channels are given as indices.
   */
  ghost predicate Stage(cfg: Config, src: Source, fake: Source, sys: F.System, u: I.IdealState, stored: set<uint32>) {
    && src.Packets() == fake.Packets()
    && S.Conserved(cfg, src, sys.server) && S.Settled(cfg, sys.server)
    && sys.server.ackCounter == u.retired && sys.server.packetsInMem == u.read
    && !sys.server.status.GaveUp? && sys.server.outOfOrder == stored
    && R.Ready(cfg, sys.client)
    && R.Tracks(cfg, fake, sys.client, u.next, u.buffered)
    && F.ArePackets(cfg, src, sys.data, u.data)
    && R.Acknowledge(cfg, sys.acks, u.acks)
  }

  lemma RunStep(cfg: Config, src: Source, steps: seq<F.Step>, step: F.Step)
    ensures F.Run(cfg, src, steps + [step]) == F.Apply(cfg, src, F.Run(cfg, src, steps), step)
  {
    assert (steps + [step])[..|steps|] == steps;
  }

  lemma Start(cfg: Config, src: Source, fake: Source)
    requires src.file != [] && |src.file| == |fake.file|
    ensures var read := I.ReadMark(cfg, src.Packets(), 0);
      Stage(cfg, src, fake, F.Run(cfg, src, []), I.IdealState(0, read, true, 0, {}, I.Range(0, read), []), {})
  {
    hide SeqOf, Source.PacketAt, S.FillWindow, R.Tracks;
    S.FillConserved(cfg, src, S.Startup(src));
    R.StartupTracks(cfg, fake);
  }

  /** A packet arrives that reads like packet `j` of the other file, which lies in the window. */
  lemma Arrive(cfg: Config, src: Source, fake: Source, sys: F.System, u: I.IdealState, stored: set<uint32>, j: nat)
    requires cfg.window <= cfg.modulus
    requires Stage(cfg, src, fake, sys, u, stored) && u.data != []
    requires src.PacketAt(cfg, u.data[0]) == fake.PacketAt(cfg, j)
    requires u.next < fake.Packets() && u.next <= j < u.next + cfg.window && u.next !in u.buffered
    requires forall i <- u.buffered :: i < fake.Packets()
    ensures var (next, buffered, acks) := R.Received(cfg, fake.Packets(), u.next, u.buffered, j);
      Stage(cfg, src, fake, F.Apply(cfg, src, sys, I.DeliverData),
            u.(next := next, buffered := buffered, data := u.data[1..], acks := u.acks + acks), stored)
  {
    hide SeqOf, Source.PacketAt, Source.Packets, R.Receive, R.Received, S.Conserved, S.Settled;
    F.TracksRunning(cfg, fake, sys.client, u.next, u.buffered);
    R.ReceiveTracks(cfg, fake, sys.client, u.next, u.buffered, j);
  }

  /** A packet arrives that lies beyond the window: the client acknowledges it and drops it. */
  lemma ArriveBeyond(cfg: Config, src: Source, fake: Source, sys: F.System, u: I.IdealState, stored: set<uint32>)
    requires Stage(cfg, src, fake, sys, u, stored) && u.data != []
    requires src.PacketAt(cfg, u.data[0]) == fake.PacketAt(cfg, u.data[0])
    requires u.next < fake.Packets() && u.next + cfg.window <= u.data[0] < u.next + cfg.modulus
    ensures Stage(cfg, src, fake, F.Apply(cfg, src, sys, I.DeliverData),
                  u.(data := u.data[1..], acks := u.acks + [u.data[0]]), stored)
  {
    hide SeqOf, Source.PacketAt, Source.Packets, R.Receive, S.Conserved, S.Settled, R.Buffers;
    R.WindowMembership(cfg, sys.client.windowQueue, u.next, u.data[0]);
    R.NumberOf(cfg, fake, u.data[0]);
    R.OutsideReceive(cfg, sys.client, sys.data[0]);
  }

  /** The front packet's acknowledgement arrives, and the set does not hold the next packet's number. */
  lemma RetireFront(cfg: Config, src: Source, fake: Source, sys: F.System, u: I.IdealState, stored: set<uint32>)
    requires Stage(cfg, src, fake, sys, u, stored)
    requires u.acks != [] && u.acks[0] == u.retired < src.Packets()
    requires SeqOf(cfg, u.retired + 1) !in stored
    ensures var read := I.ReadMark(cfg, src.Packets(), u.retired + 1);
      && u.read <= read
      && Stage(cfg, src, fake, F.Apply(cfg, src, sys, I.DeliverAck),
               u.(retired := u.retired + 1, read := read, data := u.data + I.Range(u.read, read), acks := u.acks[1..]),
               stored)
  {
    hide SeqOf, Source.PacketAt, Source.Packets, R.Tracks, R.Ready, S.Turn, F.ArePackets, S.AreConsecutive, I.Range;
    hide S.Conserved, S.Settled;
    F.ServerReading(cfg, src, sys.server);
    S.NextNotStored(cfg, src, sys.server);
    var (server, sent) := S.Turn(cfg, src, sys.server, S.Ack(sys.acks[0]));
    S.FrontAckTurn(cfg, src, sys.server);
    S.TurnConserved(cfg, src, sys.server, S.Ack(sys.acks[0]));
    F.ServerReading(cfg, src, server);
    F.ArePacketsAppend(cfg, src, sys.data, u.data, sent, u.read, server.packetsInMem);
  }

  /** An acknowledgement arrives that is not the front packet's: its word joins the set. */
  lemma StoreEarly(cfg: Config, src: Source, fake: Source, sys: F.System, u: I.IdealState, stored: set<uint32>)
    requires Stage(cfg, src, fake, sys, u, stored)
    requires u.acks != [] && u.acks[0] != u.retired < src.Packets()
    requires u.acks[0] < u.retired + cfg.modulus && u.retired < u.acks[0] + cfg.modulus
    ensures Stage(cfg, src, fake, F.Apply(cfg, src, sys, I.DeliverAck),
                  u.(acks := u.acks[1..]), stored + {AckWord(cfg, u.acks[0])})
  {
    hide SeqOf, Source.PacketAt, Source.Packets, R.Tracks, R.Ready, S.Turn, F.ArePackets;
    F.ServerReading(cfg, src, sys.server);
    S.EarlyAckTurn(cfg, src, sys.server, u.acks[0]);
    assert sys.data + [] == sys.data;
  }

  /** The front packet's acknowledgement arrives and the set holds the next packet's number: both go. */
  lemma RetireTwo(cfg: Config, src: Source, fake: Source, sys: F.System, u: I.IdealState)
    requires Stage(cfg, src, fake, sys, u, {SeqOf(cfg, u.retired + 1)})
    requires u.acks != [] && u.acks[0] == u.retired && u.retired + 1 < u.read
    ensures var read := I.ReadMark(cfg, src.Packets(), u.retired + 2);
      && u.read <= read
      && Stage(cfg, src, fake, F.Apply(cfg, src, sys, I.DeliverAck),
               u.(retired := u.retired + 2, read := read, data := u.data + I.Range(u.read, read), acks := u.acks[1..]),
               {})
  {
    hide SeqOf, Source.PacketAt, Source.Packets, R.Tracks, R.Ready, S.Turn, F.ArePackets, S.AreConsecutive, I.Range;
    hide S.Settled, S.Conserved;
    F.ServerReading(cfg, src, sys.server);
    S.SecondPops(cfg, src, sys.server);
    var (server, sent) := S.Turn(cfg, src, sys.server, S.Ack(sys.acks[0]));
    S.TurnConserved(cfg, src, sys.server, S.Ack(sys.acks[0]));
    F.ServerReading(cfg, src, server);
    F.ArePacketsAppend(cfg, src, sys.data, u.data, sent, u.read, server.packetsInMem);
  }

  lemma LoseHead(cfg: Config, src: Source, fake: Source, sys: F.System, u: I.IdealState, stored: set<uint32>)
    requires Stage(cfg, src, fake, sys, u, stored) && u.data != []
    ensures Stage(cfg, src, fake, F.Apply(cfg, src, sys, I.LoseData(0)), u.(data := u.data[1..]), stored)
  {
    hide SeqOf, Source.PacketAt, Source.Packets, R.Tracks, R.Ready, S.Conserved, S.Settled;
    assert I.Lose(sys.data, 0) == sys.data[1..];
  }

  lemma RepeatAck(cfg: Config, src: Source, fake: Source, sys: F.System, u: I.IdealState, stored: set<uint32>)
    requires Stage(cfg, src, fake, sys, u, stored) && |u.acks| == 1
    ensures Stage(cfg, src, fake, F.Apply(cfg, src, sys, I.DuplicateAck(0)), u.(acks := u.acks + u.acks), stored)
  {
    hide SeqOf, Source.PacketAt, Source.Packets, R.Tracks, R.Ready, S.Conserved, S.Settled;
    assert I.Duplicate(sys.acks, 0) == sys.acks + sys.acks;
  }

  /** Two files that differ in packet `modulus`, which in `fake` reads like packet `2 * modulus` of `src`. */
  ghost predicate Confusable(cfg: Config, src: Source, fake: Source) {
    && src.file != [] && |src.file| == |fake.file|
    && src.Packets() == fake.Packets() == 2 * cfg.modulus + 1
    && (forall i: nat | i <= 2 * cfg.modulus && i != cfg.modulus :: src.PacketAt(cfg, i) == fake.PacketAt(cfg, i))
    && src.PacketAt(cfg, 2 * cfg.modulus) == fake.PacketAt(cfg, cfg.modulus)
  }

  lemma ConfusableFiles(cfg: Config)
    ensures var count := 2 * cfg.modulus + 1;
      Confusable(cfg, MarkedSource(count, {cfg.modulus as nat}), MarkedSource(count, {}))
  {
    hide SeqOf, MarkedSource, MarkedPayload, Source.PacketAt, Source.Packets;
    var m: nat, count := cfg.modulus, 2 * cfg.modulus + 1;
    MarkedSize(count, {m});
    MarkedSize(count, {});
    forall i: nat | i <= 2 * m
      ensures MarkedSource(count, {m}).PacketAt(cfg, i) == Packet(SeqOf(cfg, i), MarkedPayload(i == m))
           && MarkedSource(count, {}).PacketAt(cfg, i) == Packet(SeqOf(cfg, i), MarkedPayload(false))
    {
      MarkedPacketAt(cfg, count, {m}, i);
      MarkedPacketAt(cfg, count, {}, i);
    }
    SeqOfPeriodic(cfg, m);
  }

  /** Both programs have dealt with the first `k` packets; nothing is on its way but the window. */
  function Lockstep(cfg: Config, k: nat): I.IdealState {
    I.IdealState(k, k + cfg.window, true, k, {}, I.Range(k, k + cfg.window), [])
  }

  /** Acknowledgement 0 arrives twice, and the second copy stays in the set. */
  lemma KeepAckZero(cfg: Config, src: Source, fake: Source) returns (steps: seq<F.Step>)
    requires Confusable(cfg, src, fake) && !cfg.littleEndian && 2 <= cfg.window && 2 * cfg.window <= cfg.modulus
    ensures Stage(cfg, src, fake, F.Run(cfg, src, steps), Lockstep(cfg, 1), {SeqOf(cfg, 0)})
  {
    hide F.Run, F.Apply, Stage, SeqOf, Source.PacketAt, Source.Packets, R.Received;
    var w, total := cfg.window, src.Packets();
    Start(cfg, src, fake);
    var u := Lockstep(cfg, 0);
    assert I.ReadMark(cfg, total, 0) == w;
    Arrive(cfg, src, fake, F.Run(cfg, src, []), u, {}, 0);
    R.ReceivedNext(cfg, total, 0, {});
    RunStep(cfg, src, [], I.DeliverData);
    steps := [] + [I.DeliverData];
    assert u.data[1..] == I.Range(1, w) && [] + [0] == [0];
    u := u.(next := 1, data := I.Range(1, w), acks := [0]);
    RepeatAck(cfg, src, fake, F.Run(cfg, src, steps), u, {});
    RunStep(cfg, src, steps, I.DuplicateAck(0));
    steps := steps + [I.DuplicateAck(0)];
    u := u.(acks := [0] + [0]);
    RetireFront(cfg, src, fake, F.Run(cfg, src, steps), u, {});
    RunStep(cfg, src, steps, I.DeliverAck);
    steps := steps + [I.DeliverAck];
    assert I.Range(1, w) + I.Range(w, w + 1) == I.Range(1, w + 1) && ([0] + [0])[1..] == [0];
    u := I.IdealState(1, w + 1, true, 1, {}, I.Range(1, w + 1), [0]);
    StoreEarly(cfg, src, fake, F.Run(cfg, src, steps), u, {});
    RunStep(cfg, src, steps, I.DeliverAck);
    steps := steps + [I.DeliverAck];
    assert {} + {AckWord(cfg, 0)} == {SeqOf(cfg, 0)} && [0][1..] == [];
  }

  /** The programs go on to the last packet before the one that shares number 1. */
  lemma {:induction false} GoOn(cfg: Config, src: Source, fake: Source, steps: seq<F.Step>, k: nat)
      returns (more: seq<F.Step>)
    requires Confusable(cfg, src, fake) && 2 * cfg.window <= cfg.modulus && k < cfg.modulus
    requires Stage(cfg, src, fake, F.Run(cfg, src, steps), Lockstep(cfg, k), {SeqOf(cfg, 0)})
    ensures Stage(cfg, src, fake, F.Run(cfg, src, more), Lockstep(cfg, cfg.modulus - 1), {SeqOf(cfg, 0)})
    decreases cfg.modulus - k
  {
    hide F.Run, F.Apply, Stage, SeqOf, Source.PacketAt, Source.Packets, R.Received;
    var w, u, total := cfg.window, Lockstep(cfg, k), src.Packets();
    if k + 1 == cfg.modulus {
      more := steps;
    } else {
      Arrive(cfg, src, fake, F.Run(cfg, src, steps), u, {SeqOf(cfg, 0)}, k);
      R.ReceivedNext(cfg, total, k, {});
      RunStep(cfg, src, steps, I.DeliverData);
      more := steps + [I.DeliverData];
      assert u.data[1..] == I.Range(k + 1, k + w) && [] + [k] == [k];
      u := u.(next := k + 1, data := I.Range(k + 1, k + w), acks := [k]);
      SeqOfInjective(cfg, 0, k + 1);
      RetireFront(cfg, src, fake, F.Run(cfg, src, more), u, {SeqOf(cfg, 0)});
      RunStep(cfg, src, more, I.DeliverAck);
      more := more + [I.DeliverAck];
      assert I.Range(k + 1, k + w) + I.Range(k + w, k + 1 + w) == I.Range(k + 1, k + 1 + w) && [k][1..] == [];
      more := GoOn(cfg, src, fake, more, k + 1);
    }
  }

  function Between(from: nat, upto: nat): (r: set<nat>)
    ensures forall i <- r :: from <= i < upto
  {
    if from < upto then Between(from, upto - 1) + {upto - 1} else {}
  }

  /** The client waits for packet `modulus` while the server moves on to `j`. */
  function Gap(cfg: Config, j: nat): I.IdealState
    requires cfg.modulus < j <= 2 * cfg.modulus
  {
    var m, read := cfg.modulus, I.ReadMark(cfg, 2 * cfg.modulus + 1, j);
    I.IdealState(j, read, true, m, Between(m + 1, Min(j, m + cfg.window)), I.Range(j, read), [])
  }

  /** Packet `modulus` is lost, and retired all the same. */
  lemma SkipOne(cfg: Config, src: Source, fake: Source, steps: seq<F.Step>) returns (more: seq<F.Step>)
    requires Confusable(cfg, src, fake) && 2 <= cfg.window && 2 * cfg.window <= cfg.modulus
    requires Stage(cfg, src, fake, F.Run(cfg, src, steps), Lockstep(cfg, cfg.modulus - 1), {SeqOf(cfg, 0)})
    ensures Stage(cfg, src, fake, F.Run(cfg, src, more), Gap(cfg, cfg.modulus + 1), {})
  {
    hide F.Run, F.Apply, Stage, SeqOf, Source.PacketAt, Source.Packets, R.Received;
    var w, m: nat, total := cfg.window, cfg.modulus, src.Packets();
    var u := Lockstep(cfg, m - 1);
    Arrive(cfg, src, fake, F.Run(cfg, src, steps), u, {SeqOf(cfg, 0)}, m - 1);
    R.ReceivedNext(cfg, total, m - 1, {});
    RunStep(cfg, src, steps, I.DeliverData);
    more := steps + [I.DeliverData];
    assert u.data[1..] == I.Range(m, m - 1 + w) && [] + [m - 1] == [m - 1];
    u := u.(next := m, data := I.Range(m, m - 1 + w), acks := [m - 1]);
    LoseHead(cfg, src, fake, F.Run(cfg, src, more), u, {SeqOf(cfg, 0)});
    RunStep(cfg, src, more, I.LoseData(0));
    more := more + [I.LoseData(0)];
    assert u.data[1..] == I.Range(m + 1, m - 1 + w);
    u := u.(data := I.Range(m + 1, m - 1 + w));
    SeqOfPeriodic(cfg, 0);
    RetireTwo(cfg, src, fake, F.Run(cfg, src, more), u);
    RunStep(cfg, src, more, I.DeliverAck);
    more := more + [I.DeliverAck];
    assert I.Range(m + 1, m - 1 + w) + I.Range(m - 1 + w, m + 1 + w) == I.Range(m + 1, m + 1 + w) && [m - 1][1..] == [];
    assert Gap(cfg, m + 1).buffered == {};
  }

  /** A packet behind the gap arrives, ... */
  lemma PassArrives(cfg: Config, src: Source, fake: Source, sys: F.System, j: nat)
    requires Confusable(cfg, src, fake) && 2 * cfg.window <= cfg.modulus < j < 2 * cfg.modulus
    requires Stage(cfg, src, fake, sys, Gap(cfg, j), {})
    ensures var u := Gap(cfg, j);
      Stage(cfg, src, fake, F.Apply(cfg, src, sys, I.DeliverData),
            u.(buffered := Gap(cfg, j + 1).buffered, data := I.Range(j + 1, u.read), acks := [j]), {})
  {
    hide F.Apply, Stage, SeqOf, Source.PacketAt, Source.Packets, R.Received;
    var u, m: nat := Gap(cfg, j), cfg.modulus;
    assert u.data[0] == j && u.data[1..] == I.Range(j + 1, u.read) && [] + [j] == [j];
    if j < m + cfg.window {
      Arrive(cfg, src, fake, sys, u, {}, j);
      R.ReceivedEarly(cfg, src.Packets(), m, u.buffered, j);
    } else {
      ArriveBeyond(cfg, src, fake, sys, u, {});
    }
  }

  /** ... and is retired. */
  lemma PassOne(cfg: Config, src: Source, fake: Source, steps: seq<F.Step>, j: nat) returns (more: seq<F.Step>)
    requires Confusable(cfg, src, fake) && 2 * cfg.window <= cfg.modulus < j < 2 * cfg.modulus
    requires Stage(cfg, src, fake, F.Run(cfg, src, steps), Gap(cfg, j), {})
    ensures Stage(cfg, src, fake, F.Run(cfg, src, more), Gap(cfg, j + 1), {})
  {
    hide F.Run, F.Apply, Stage, SeqOf, Source.PacketAt, Source.Packets, Between;
    var u, next := Gap(cfg, j), Gap(cfg, j + 1);
    PassArrives(cfg, src, fake, F.Run(cfg, src, steps), j);
    RunStep(cfg, src, steps, I.DeliverData);
    more := steps + [I.DeliverData];
    u := u.(buffered := next.buffered, data := I.Range(j + 1, u.read), acks := [j]);
    RetireFront(cfg, src, fake, F.Run(cfg, src, more), u, {});
    RunStep(cfg, src, more, I.DeliverAck);
    more := more + [I.DeliverAck];
    assert I.Range(j + 1, u.read) + I.Range(u.read, next.read) == I.Range(j + 1, next.read) && [j][1..] == [];
  }

  lemma {:induction false} PassAll(cfg: Config, src: Source, fake: Source, steps: seq<F.Step>, j: nat)
      returns (more: seq<F.Step>)
    requires Confusable(cfg, src, fake) && 2 * cfg.window <= cfg.modulus < j <= 2 * cfg.modulus
    requires Stage(cfg, src, fake, F.Run(cfg, src, steps), Gap(cfg, j), {})
    ensures Stage(cfg, src, fake, F.Run(cfg, src, more), Gap(cfg, 2 * cfg.modulus), {})
    decreases 2 * cfg.modulus - j
  {
    hide F.Run, Stage;
    if j == 2 * cfg.modulus {
      more := steps;
    } else {
      more := PassOne(cfg, src, fake, steps, j);
      more := PassAll(cfg, src, fake, more, j + 1);
    }
  }

  /** The run: packet `2 * modulus` ends up in the place of packet `modulus`. */
  lemma EarlySetBreaks(cfg: Config) returns (steps: seq<F.Step>)
    requires !cfg.littleEndian && 2 <= cfg.window && 2 * cfg.window <= cfg.modulus
    ensures var src := MarkedSource(2 * cfg.modulus + 1, {cfg.modulus as nat});
      src.file != [] && !F.WritesPrefix(src, F.Run(cfg, src, steps).client)
  {
    hide F.Run, F.Apply, Stage, SeqOf, Source.PacketAt, Source.Packets, MarkedSource, R.Received, F.WritesPrefix;
    var m: nat, count := cfg.modulus, 2 * cfg.modulus + 1;
    var src, fake := MarkedSource(count, {m}), MarkedSource(count, {});
    ConfusableFiles(cfg);
    steps := KeepAckZero(cfg, src, fake);
    steps := GoOn(cfg, src, fake, steps, 1);
    steps := SkipOne(cfg, src, fake, steps);
    steps := PassAll(cfg, src, fake, steps, m + 1);
    var u := Gap(cfg, 2 * m);
    assert u.data == [2 * m];
    Arrive(cfg, src, fake, F.Run(cfg, src, steps), u, {}, m);
    RunStep(cfg, src, steps, I.DeliverData);
    steps := steps + [I.DeliverData];
    var (next, buffered, acks) := R.Received(cfg, count, m, u.buffered, m);
    R.ReceivedAdvances(cfg, count, m, u.buffered);
    WrongBytes(cfg, src, fake, F.Run(cfg, src, steps),
               u.(next := next, buffered := buffered, data := u.data[1..], acks := u.acks + acks));
  }

  lemma WrongBytes(cfg: Config, src: Source, fake: Source, sys: F.System, u: I.IdealState)
    requires var m: nat, count := cfg.modulus, 2 * cfg.modulus + 1;
      src == MarkedSource(count, {m}) && fake == MarkedSource(count, {})
    requires Stage(cfg, src, fake, sys, u, {}) && cfg.modulus < u.next
    ensures !F.WritesPrefix(src, sys.client)
  {
    hide SeqOf, Source.PacketAt, MarkedFile, S.Conserved, S.Settled;
    var m: nat, count := cfg.modulus, 2 * cfg.modulus + 1;
    MarkedSize(count, {m});
    MarkedSize(count, {});
    MarkedPrefixesDiffer(count, {m}, {}, m, u.next);
  }
}
