/**
 * Exactly which configurations are safe over first-in first-out channels. Twice as many sequence
 * numbers as window places are necessary: with one fewer there is a run in which the client writes
 * the wrong bytes. So is a harmless set of early acknowledgements, as module `BigEndian` shows.
 */
module Tightness {
  import opened Bytes
  import opened SequenceNumbers
  import opened Wire
  import opened MarkedFiles
  import S = Sender
  import R = Receiver
  import I = Ideal
  import F = Fifo
  import BigEndian

  /**
   * The system sends the file of `src`, and the client is in the state it would be in had it been
   * sent the file of `fake`.
   */
  ghost predicate Deceived(cfg: Config, src: Source, fake: Source, sys: F.System, u: I.IdealState) {
    && src.Packets() == fake.Packets()
    && F.ServerMatches(cfg, src, sys.server, u)
    && R.Ready(cfg, sys.client)
    && R.Tracks(cfg, fake, sys.client, u.next, u.buffered)
    && F.ArePackets(cfg, src, sys.data, u.data)
    && R.Acknowledge(cfg, sys.acks, u.acks)
  }

  ghost predicate Wrote(fake: Source, client: R.ClientState, n: nat) {
    client.written == fake.Prefix(n) && client.packetCounter == n
  }

  lemma RunStep(cfg: Config, src: Source, steps: seq<F.Step>, step: F.Step)
    ensures F.Run(cfg, src, steps + [step]) == F.Apply(cfg, src, F.Run(cfg, src, steps), step)
  {
    assert (steps + [step])[..|steps|] == steps;
  }

  /** Delivery of a packet that reads the same as packet `j` of the other file. */
  lemma DeliverAs(cfg: Config, src: Source, fake: Source, sys: F.System, u: I.IdealState, j: nat)
    requires cfg.window <= cfg.modulus
    requires Deceived(cfg, src, fake, sys, u) && u.data != []
    requires src.PacketAt(cfg, u.data[0]) == fake.PacketAt(cfg, j)
    requires u.next < fake.Packets() && u.next <= j < u.next + cfg.window && u.next !in u.buffered
    requires forall i <- u.buffered :: i < fake.Packets()
    ensures var (next, buffered, acks) := R.Received(cfg, fake.Packets(), u.next, u.buffered, j);
      var sys' := F.Apply(cfg, src, sys, I.DeliverData);
      && sys'.server == sys.server
      && Deceived(cfg, src, fake, sys',
                  u.(next := next, buffered := buffered, data := u.data[1..], acks := u.acks + acks))
  {
    hide SeqOf, Source.PacketAt, Source.Packets, R.Receive, R.Received, S.Conserved, S.Settled;
    F.TracksRunning(cfg, fake, sys.client, u.next, u.buffered);
    R.ReceiveTracks(cfg, fake, sys.client, u.next, u.buffered, j);
  }

  /** Delivery of the acknowledgement the server waits for. */
  lemma DeliverFrontAck(cfg: Config, src: Source, fake: Source, sys: F.System, u: I.IdealState)
    requires Deceived(cfg, src, fake, sys, u)
    requires u.acks != [] && u.acks[0] == u.retired && u.up && u.retired + 1 + cfg.window <= src.Packets()
    ensures Deceived(cfg, src, fake, F.Apply(cfg, src, sys, I.DeliverAck),
                     u.(retired := u.retired + 1, read := u.retired + 1 + cfg.window,
                        data := u.data + [u.retired + cfg.window], acks := u.acks[1..]))
  {
    hide SeqOf, Source.PacketAt, Source.Packets, R.Tracks, S.Turn;
    S.AckTurn(cfg, src, sys.server, u.retired);
    S.TurnConserved(cfg, src, sys.server, S.Ack(sys.acks[0]));
  }

  lemma TimeOutResends(cfg: Config, src: Source, fake: Source, sys: F.System, u: I.IdealState)
    requires Deceived(cfg, src, fake, sys, u) && u.up && u.retired < src.Packets()
    requires sys.server.lastResend == 0
    ensures Deceived(cfg, src, fake, F.Apply(cfg, src, sys, I.TimeOut), u.(data := u.data + [u.retired]))
  {
    hide SeqOf, Source.PacketAt, Source.Packets, R.Tracks, S.Turn;
    S.TimeoutTurn(cfg, src, sys.server);
    S.TurnConserved(cfg, src, sys.server, S.Timeout);
    S.ResendGoesOn(cfg, src, sys.server);
  }

  /** The ideal state in which the whole first window has arrived and `k` packets of it are written. */
  function FirstWindow(cfg: Config, k: nat): I.IdealState
    requires k <= cfg.window
  {
    I.IdealState(0, cfg.window, true, k, {}, I.Range(k, cfg.window), I.Range(0, k))
  }

  /** The client writes the first window; no acknowledgement has been delivered yet. */
  lemma WriteFirstWindow(cfg: Config, src: Source, fake: Source) returns (steps: seq<F.Step>)
    requires cfg.window <= cfg.modulus
    requires src.file != [] && |src.file| == |fake.file| && src.Packets() == 2 * cfg.window
    requires forall i: nat | i < cfg.window :: src.PacketAt(cfg, i) == fake.PacketAt(cfg, i)
    ensures Deceived(cfg, src, fake, F.Run(cfg, src, steps), FirstWindow(cfg, cfg.window))
    ensures F.Run(cfg, src, steps).server.lastResend == 0
  {
    hide F.Run, F.Apply, Deceived, R.Received, Source.PacketAt;
    steps := [];
    StartDeceived(cfg, src, fake);
    var k := 0;
    while k < cfg.window
      invariant k <= cfg.window
      invariant Deceived(cfg, src, fake, F.Run(cfg, src, steps), FirstWindow(cfg, k))
      invariant F.Run(cfg, src, steps).server.lastResend == 0
    {
      var u := FirstWindow(cfg, k);
      DeliverAs(cfg, src, fake, F.Run(cfg, src, steps), u, k);
      R.ReceivedNext(cfg, src.Packets(), k, {});
      RunStep(cfg, src, steps, I.DeliverData);
      assert u.data[1..] == I.Range(k + 1, cfg.window);
      assert u.acks + [k] == I.Range(0, k + 1);
      steps, k := steps + [I.DeliverData], k + 1;
    }
  }

  lemma StartDeceived(cfg: Config, src: Source, fake: Source)
    requires src.file != [] && |src.file| == |fake.file| && src.Packets() == 2 * cfg.window
    ensures Deceived(cfg, src, fake, F.Run(cfg, src, []), FirstWindow(cfg, 0))
    ensures F.Run(cfg, src, []).server.lastResend == 0
  {
    hide SeqOf, Source.PacketAt, S.FillWindow, R.Tracks;
    F.InitialMatches(cfg, src);
    R.StartupTracks(cfg, fake);
    S.FillConserved(cfg, src, S.Startup(src));
  }

  /** Too few numbers for even one window: the client takes the last packet of a window for its first. */
  lemma ConfusionInFirstWindow(cfg: Config) returns (steps: seq<F.Step>)
    requires cfg.modulus < cfg.window
    ensures var src := MarkedSource(2 * cfg.window, {0}); !F.WritesPrefix(src, F.Run(cfg, src, steps).client)
  {
    hide F.Run, F.Apply, Deceived, R.Receive, MarkedSource, F.WritesPrefix, SeqOf;
    var src, fake, m := MarkedSource(2 * cfg.window, {0}), MarkedSource(2 * cfg.window, {}), cfg.modulus;
    AliasedFirstPacket(cfg, 2 * cfg.window);
    steps := [];
    StartDeceived(cfg, src, fake);
    var k := 0;
    while k < m
      invariant k <= m
      invariant Deceived(cfg, src, fake, F.Run(cfg, src, steps), FirstWindow(cfg, 0).(data := I.Range(k, cfg.window)))
    {
      LoseHead(cfg, src, fake, F.Run(cfg, src, steps), FirstWindow(cfg, 0).(data := I.Range(k, cfg.window)));
      RunStep(cfg, src, steps, I.LoseData(0));
      assert I.Range(k, cfg.window)[1..] == I.Range(k + 1, cfg.window);
      steps, k := steps + [I.LoseData(0)], k + 1;
    }
    var sys := F.Run(cfg, src, steps);
    FirstDelivery(cfg, src, fake, sys, FirstWindow(cfg, 0).(data := I.Range(m, cfg.window)));
    RunStep(cfg, src, steps, I.DeliverData);
    steps := steps + [I.DeliverData];
    MarkedPrefixesDiffer(2 * cfg.window, {0}, {}, 0, 1);
    WrongBytes(src, fake, F.Run(cfg, src, steps).client, 1);
  }

  /** Bytes that are a prefix of the one file are no prefix of the other. */
  lemma WrongBytes(src: Source, fake: Source, client: R.ClientState, n: nat)
    requires |src.file| == |fake.file|
    requires Wrote(fake, client, n)
    requires src.Prefix(n) != fake.Prefix(n)
    ensures !F.WritesPrefix(src, client)
  {
  }

  lemma LoseHead(cfg: Config, src: Source, fake: Source, sys: F.System, u: I.IdealState)
    requires Deceived(cfg, src, fake, sys, u) && u.data != []
    ensures Deceived(cfg, src, fake, F.Apply(cfg, src, sys, I.LoseData(0)), u.(data := u.data[1..]))
  {
    hide SeqOf, Source.PacketAt, Source.Packets, R.Tracks, S.Conserved, S.Settled, S.Inert;
    assert I.Lose(sys.data, 0) == sys.data[1..];
  }

  lemma FirstDelivery(cfg: Config, src: Source, fake: Source, sys: F.System, u: I.IdealState)
    requires Deceived(cfg, src, fake, sys, u) && u.data != [] && u.next == 0 && u.buffered == {}
    requires fake.Packets() >= 2 && src.PacketAt(cfg, u.data[0]) == fake.PacketAt(cfg, 0)
    ensures Wrote(fake, F.Apply(cfg, src, sys, I.DeliverData).client, 1)
  {
    hide SeqOf, Source.PacketAt, Source.Packets, R.Receive, R.Buffers, R.WindowFrom;
    R.InOrderReceive(cfg, fake, sys.client, 0);
  }

  /**
   * Numbers for one window but not for two: the resent packet 0 is taken for packet `modulus`, which
   * is inside the client's second window.
   */
  lemma ConfusionInSecondWindow(cfg: Config) returns (steps: seq<F.Step>)
    requires cfg.window <= cfg.modulus < 2 * cfg.window
    ensures var src := MarkedSource(2 * cfg.window, {0}); !F.WritesPrefix(src, F.Run(cfg, src, steps).client)
  {
    hide F.Run, F.Apply, Deceived, R.Received, MarkedSource, F.WritesPrefix, SeqOf;
    hide Wrote, Source.Packets, Source.PacketAt, Source.Prefix;
    var m := cfg.modulus;
    var src, fake := MarkedSource(2 * cfg.window, {0}), MarkedSource(2 * cfg.window, {0, m});
    AliasedPackets(cfg, 2 * cfg.window);
    steps := StaleDelivery(cfg, src, fake);
    if m > cfg.window {
      steps := SecondWindowSent(cfg, src, fake, steps);
      steps := SecondWindowDrained(cfg, src, fake, steps);
    }
    MarkedPrefixesDiffer(2 * cfg.window, {0}, {0, m}, m, m + 1);
    WrongBytes(src, fake, F.Run(cfg, src, steps).client, m + 1);
  }

  /** The files differ only in packet `modulus`, which in the second reads like packet 0 of the first. */
  ghost predicate Confusable(cfg: Config, src: Source, fake: Source) {
    && cfg.window <= cfg.modulus < 2 * cfg.window
    && src.file != [] && |src.file| == |fake.file|
    && src.Packets() == fake.Packets() == 2 * cfg.window
    && (forall i: nat | i < 2 * cfg.window && i != cfg.modulus :: src.PacketAt(cfg, i) == fake.PacketAt(cfg, i))
    && src.PacketAt(cfg, 0) == fake.PacketAt(cfg, cfg.modulus)
  }

  /** The first window is written, packet 0 is resent, and is now stored as packet `modulus`. */
  function Stored(cfg: Config): I.IdealState {
    I.IdealState(0, cfg.window, true, cfg.window, {cfg.modulus as nat}, [], I.Range(0, cfg.window) + [cfg.modulus])
  }

  lemma StaleDelivery(cfg: Config, src: Source, fake: Source) returns (steps: seq<F.Step>)
    requires Confusable(cfg, src, fake)
    ensures var sys := F.Run(cfg, src, steps);
      && (cfg.modulus == cfg.window ==> Wrote(fake, sys.client, cfg.modulus + 1))
      && (cfg.modulus > cfg.window ==> Deceived(cfg, src, fake, sys, Stored(cfg)))
  {
    hide F.Run, F.Apply, SeqOf, Source.PacketAt, Source.Packets, R.Received, Deceived;
    var m, w := cfg.modulus, cfg.window;
    steps := WriteFirstWindow(cfg, src, fake);
    TimeOutResends(cfg, src, fake, F.Run(cfg, src, steps), FirstWindow(cfg, w));
    RunStep(cfg, src, steps, I.TimeOut);
    steps := steps + [I.TimeOut];
    var u := FirstWindow(cfg, w).(data := FirstWindow(cfg, w).data + [0]);
    assert u.data == [0];
    DeliverAs(cfg, src, fake, F.Run(cfg, src, steps), u, m);
    RunStep(cfg, src, steps, I.DeliverData);
    steps := steps + [I.DeliverData];
    R.ReceivedAhead(cfg, fake.Packets(), w, m);
    assert u.data[1..] == [];
    if m == w {
      var (next, buffered, acks) := R.Received(cfg, fake.Packets(), w, {}, m);
      DeceivedWrote(cfg, src, fake, F.Run(cfg, src, steps),
                    u.(next := next, buffered := buffered, data := u.data[1..], acks := u.acks + acks));
    }
  }

  lemma DeceivedWrote(cfg: Config, src: Source, fake: Source, sys: F.System, u: I.IdealState)
    requires Deceived(cfg, src, fake, sys, u)
    ensures Wrote(fake, sys.client, u.next)
  {
  }

  /** The acknowledgements of the first window arrive one after the other. */
  function Sent(cfg: Config, k: nat): I.IdealState
    requires k <= cfg.window
  {
    I.IdealState(k, cfg.window + k, true, cfg.window, {cfg.modulus as nat},
                 I.Range(cfg.window, cfg.window + k), I.Range(k, cfg.window) + [cfg.modulus])
  }

  lemma SecondWindowSent(cfg: Config, src: Source, fake: Source, before: seq<F.Step>) returns (steps: seq<F.Step>)
    requires Confusable(cfg, src, fake)
    requires Deceived(cfg, src, fake, F.Run(cfg, src, before), Stored(cfg))
    ensures Deceived(cfg, src, fake, F.Run(cfg, src, steps), Sent(cfg, cfg.window))
  {
    hide F.Run, F.Apply, SeqOf, Source.PacketAt, Source.Packets, Deceived;
    var k := 0;
    steps := before;
    assert Stored(cfg) == Sent(cfg, 0);
    while k < cfg.window
      invariant k <= cfg.window
      invariant Deceived(cfg, src, fake, F.Run(cfg, src, steps), Sent(cfg, k))
    {
      var u := Sent(cfg, k);
      DeliverFrontAck(cfg, src, fake, F.Run(cfg, src, steps), u);
      RunStep(cfg, src, steps, I.DeliverAck);
      assert u.acks[1..] == I.Range(k + 1, cfg.window) + [cfg.modulus];
      assert u.data + [cfg.window + k] == I.Range(cfg.window, cfg.window + k + 1);
      steps, k := steps + [I.DeliverAck], k + 1;
    }
  }

  /** The second window arrives in order, up to the confused packet. */
  function Drained(cfg: Config, k: nat): I.IdealState
    requires k <= cfg.window
  {
    I.IdealState(cfg.window, 2 * cfg.window, true, cfg.window + k, {cfg.modulus as nat},
                 I.Range(cfg.window + k, 2 * cfg.window), [cfg.modulus] + I.Range(cfg.window, cfg.window + k))
  }

  lemma SecondWindowDrained(cfg: Config, src: Source, fake: Source, before: seq<F.Step>) returns (steps: seq<F.Step>)
    requires Confusable(cfg, src, fake) && cfg.window < cfg.modulus
    requires Deceived(cfg, src, fake, F.Run(cfg, src, before), Sent(cfg, cfg.window))
    ensures Wrote(fake, F.Run(cfg, src, steps).client, cfg.modulus + 1)
  {
    hide F.Run, F.Apply, SeqOf, Source.PacketAt, Source.Packets, R.Received, Deceived;
    var w, m := cfg.window, cfg.modulus;
    var k := 0;
    steps := before;
    assert Sent(cfg, w) == Drained(cfg, 0);
    while w + k + 1 < m
      invariant w + k < m
      invariant Deceived(cfg, src, fake, F.Run(cfg, src, steps), Drained(cfg, k))
    {
      var u := Drained(cfg, k);
      DeliverAs(cfg, src, fake, F.Run(cfg, src, steps), u, w + k);
      R.ReceivedNext(cfg, fake.Packets(), w + k, {m});
      RunStep(cfg, src, steps, I.DeliverData);
      assert u.data[1..] == I.Range(w + k + 1, 2 * w);
      assert u.acks + [w + k] == [m] + I.Range(w, w + k + 1);
      steps, k := steps + [I.DeliverData], k + 1;
    }
    var u := Drained(cfg, k);
    DeliverAs(cfg, src, fake, F.Run(cfg, src, steps), u, m - 1);
    RunStep(cfg, src, steps, I.DeliverData);
    steps := steps + [I.DeliverData];
    var (next, buffered, acks) := R.Received(cfg, fake.Packets(), m - 1, {m}, m - 1);
    R.DrainOne(cfg, fake.Packets(), m);
    DeceivedWrote(cfg, src, fake, F.Run(cfg, src, steps),
                  u.(next := next, buffered := buffered, data := u.data[1..], acks := u.acks + acks));
  }

  /** Whatever file is sent and whatever happens, the client writes its front. */
  ghost predicate Safe(cfg: Config) {
    forall src: Source, steps: seq<F.Step> | src.file != [] :: F.WritesPrefix(src, F.Run(cfg, src, steps).client)
  }

  /** An unsound configuration has a run that ends with the wrong bytes. */
  lemma UnsoundBreaks(cfg: Config) returns (src: Source, steps: seq<F.Step>)
    requires !Sound(cfg)
    ensures src.file != [] && !F.WritesPrefix(src, F.Run(cfg, src, steps).client)
  {
    hide F.Run, F.WritesPrefix, MarkedSource;
    if 2 * cfg.window <= cfg.modulus {
      src := MarkedSource(2 * cfg.modulus + 1, {cfg.modulus as nat});
      steps := BigEndian.EarlySetBreaks(cfg);
    } else {
      src := MarkedSource(2 * cfg.window, {0});
      MarkedSize(2 * cfg.window, {0});
      if cfg.modulus < cfg.window {
        steps := ConfusionInFirstWindow(cfg);
      } else {
        steps := ConfusionInSecondWindow(cfg);
      }
    }
  }

  /**
   * For every window size, every count of sequence numbers and either byte order: the client's output
   * is right in every run over every file if and only if there are at least twice as many numbers as
   * window places and the hosts are little-endian or send one packet at a time.
   */
  lemma SafeIffSound(cfg: Config)
    ensures Safe(cfg) <==> 2 * cfg.window <= cfg.modulus && (cfg.littleEndian || cfg.window == 1)
  {
    hide F.Run;
    if Sound(cfg) {
      forall src: Source, steps: seq<F.Step> | src.file != []
        ensures F.WritesPrefix(src, F.Run(cfg, src, steps).client)
      {
        F.Safety(cfg, src, steps);
      }
    } else {
      var src, steps := UnsoundBreaks(cfg);
    }
  }
}
