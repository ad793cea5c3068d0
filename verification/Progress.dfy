/** Timeouts make progress: resending the front packet is enough to finish the transfer. */
module Progress {
  import opened Bytes
  import opened SequenceNumbers
  import opened Wire
  import S = Sender
  import R = Receiver
  import I = Ideal
  import F = Fifo

  /** Nothing is in flight. */
  predicate Quiet(sys: F.System) {
    sys.data == [] && sys.acks == []
  }

  /** Steps that only deliver. */
  predicate Lossless(steps: seq<F.Step>) {
    forall s <- steps :: s.DeliverData? || s.DeliverAck?
  }

  /** The transfer is over for the client, or the server has stopped trying. */
  predicate Ended(sys: F.System) {
    !sys.client.running || sys.server.status.GaveUp?
  }

  lemma RunMore(cfg: Config, src: Source, steps: seq<F.Step>, step: F.Step)
    ensures F.Run(cfg, src, steps + [step]) == F.Apply(cfg, src, F.Run(cfg, src, steps), step)
    ensures F.Companion(cfg, src, steps + [step])
         == I.Apply(cfg, src.Packets(), F.Companion(cfg, src, steps), step,
                    F.Run(cfg, src, steps + [step]).server.status.GaveUp?)
  {
    assert (steps + [step])[..|steps|] == steps;
  }

  /** The two states in terms of indices. */
  lemma Reading(cfg: Config, src: Source, steps: seq<F.Step>)
    requires src.file != [] && Sound(cfg)
    ensures var sys, u := F.Run(cfg, src, steps), F.Companion(cfg, src, steps);
      && I.Ordered(cfg, src.Packets(), u)
      && sys.server.ackCounter == u.retired && sys.client.packetCounter == u.next
      && (sys.client.running <==> u.next < src.Packets()) && (sys.server.status.GaveUp? <==> !u.up)
      && (Quiet(sys) <==> u.data == [] && u.acks == [])
      && |sys.data| == |u.data| && |sys.acks| == |u.acks|
      && (Ended(sys) <==> u.next == src.Packets() || !u.up)
      && (S.Blocked(sys.server) <==> u.up && u.retired < src.Packets())
      && u.retired <= u.next <= src.Packets()
  {
    hide F.Run, F.Companion, I.DataOrdered, I.AcksOrdered, SeqOf, Source.PacketAt, Source.Packets;
    F.RunMatches(cfg, src, steps);
  }

  /** Packet `s0` is on its way to being retired, if the client still answers. */
  predicate Pending(total: nat, u: I.IdealState, s0: nat) {
    u.retired > s0 || u.next == total || s0 in u.data || s0 in u.acks
  }

  lemma DeliveryKeepsPending(cfg: Config, total: nat, u: I.IdealState, step: F.Step, s0: nat, quit: bool)
    requires I.Ordered(cfg, total, u) && u.up && s0 < total
    requires step.DeliverData? || step.DeliverAck?
    requires Pending(total, u, s0) && s0 <= u.retired
    ensures var u' := I.Apply(cfg, total, u, step, quit);
      && Pending(total, u', s0) && u.retired <= u'.retired && u'.up
  {
    hide R.RunAcks, R.Drained, R.Received, I.DataOrdered, I.AcksOrdered;
    I.MarkBounds(cfg, total, u);
    match step
    case DeliverData =>
      if u.data != [] && u.next < total {
        I.ReceivedSynchronised(cfg, total, u.retired, u.read, u.next, u.buffered, u.data[0]);
        assert s0 in u.data ==> s0 == u.data[0] || s0 in u.data[1..];
      }
    case DeliverAck =>
      assert s0 in u.acks ==> s0 == u.acks[0] || s0 in u.acks[1..];
  }

  lemma {:induction false} RoundPending(cfg: Config, src: Source, steps: seq<F.Step>, round: seq<F.Step>, s0: nat)
    requires src.file != [] && Sound(cfg) && s0 < src.Packets()
    requires Lossless(round)
    requires var u := F.Companion(cfg, src, steps); Pending(src.Packets(), u, s0) && u.up && s0 <= u.retired
    ensures var u := F.Companion(cfg, src, steps + round); Pending(src.Packets(), u, s0) && u.up && s0 <= u.retired
    decreases |round|
  {
    hide F.Run, F.Companion, I.Apply, Source.Packets, Pending;
    if round == [] {
      assert steps + round == steps;
    } else {
      var step := round[0];
      Reading(cfg, src, steps);
      RunMore(cfg, src, steps, step);
      DeliveryKeepsPending(cfg, src.Packets(), F.Companion(cfg, src, steps), step, s0,
                           F.Run(cfg, src, steps + [step]).server.status.GaveUp?);
      RoundPending(cfg, src, steps + [step], round[1..], s0);
      assert steps + [step] + round[1..] == steps + round;
    }
  }

  /**
   * A timeout with nothing in flight, followed by deliveries alone, in any order, until nothing is in
   * flight again: the server has retired at least one more packet, or has given up, or the client is
   * done.
   */
  lemma RoundAdvances(cfg: Config, src: Source, steps: seq<F.Step>, round: seq<F.Step>)
    requires src.file != [] && Sound(cfg)
    requires Quiet(F.Run(cfg, src, steps)) && Lossless(round)
    requires Quiet(F.Run(cfg, src, steps + [I.TimeOut] + round))
    ensures var before, after := F.Run(cfg, src, steps), F.Run(cfg, src, steps + [I.TimeOut] + round);
      Ended(after) || after.server.ackCounter > before.server.ackCounter
  {
    hide F.Run, F.Companion, Source.Packets, I.Ordered;
    var total, u := src.Packets(), F.Companion(cfg, src, steps);
    Reading(cfg, src, steps);
    Reading(cfg, src, steps + [I.TimeOut]);
    Reading(cfg, src, steps + [I.TimeOut] + round);
    RunMore(cfg, src, steps, I.TimeOut);
    if Ended(F.Run(cfg, src, steps + [I.TimeOut])) || Ended(F.Run(cfg, src, steps)) {
      EndedIsFinal(cfg, src, steps, [I.TimeOut] + round);
      EndedIsFinal(cfg, src, steps + [I.TimeOut], round);
      assert steps + ([I.TimeOut] + round) == steps + [I.TimeOut] + round;
    } else {
      assert u.retired in F.Companion(cfg, src, steps + [I.TimeOut]).data;
      RoundPending(cfg, src, steps + [I.TimeOut], round, u.retired);
    }
  }

  /** Neither exit is ever undone. */
  lemma {:induction false} EndedIsFinal(cfg: Config, src: Source, steps: seq<F.Step>, more: seq<F.Step>)
    requires src.file != [] && Sound(cfg)
    ensures !F.Run(cfg, src, steps).client.running ==> !F.Run(cfg, src, steps + more).client.running
    ensures F.Run(cfg, src, steps).server.status.GaveUp? ==> F.Run(cfg, src, steps + more).server.status.GaveUp?
    ensures F.Run(cfg, src, steps).server.ackCounter <= F.Run(cfg, src, steps + more).server.ackCounter
    decreases |more|
  {
    hide F.Run, F.Companion, Source.Packets;
    if more == [] {
      assert steps + more == steps;
    } else {
      Reading(cfg, src, steps);
      Reading(cfg, src, steps + [more[0]]);
      RunMore(cfg, src, steps, more[0]);
      EndStep(cfg, src.Packets(), F.Companion(cfg, src, steps), more[0],
              F.Run(cfg, src, steps + [more[0]]).server.status.GaveUp?);
      EndedIsFinal(cfg, src, steps + [more[0]], more[1..]);
      assert steps + [more[0]] + more[1..] == steps + more;
    }
  }

  lemma EndStep(cfg: Config, total: nat, u: I.IdealState, step: F.Step, quit: bool)
    requires I.Ordered(cfg, total, u)
    ensures var u' := I.Apply(cfg, total, u, step, quit);
      (u.next == total ==> u'.next == total) && (!u.up ==> !u'.up) && u.retired <= u'.retired
  {
    hide R.Received;
    I.MarkBounds(cfg, total, u);
  }

  /** A run followed by timeout rounds. */
  function Play(steps: seq<F.Step>, rounds: seq<seq<F.Step>>): seq<F.Step> {
    if rounds == [] then steps else
    Play(steps, rounds[..|rounds| - 1]) + [I.TimeOut] + rounds[|rounds| - 1]
  }

  /** Each round loses nothing and lasts until nothing is in flight. */
  ghost predicate QuietRounds(cfg: Config, src: Source, steps: seq<F.Step>, rounds: seq<seq<F.Step>>) {
    && Quiet(F.Run(cfg, src, Play(steps, rounds)))
    && (rounds != [] ==>
          && Lossless(rounds[|rounds| - 1])
          && QuietRounds(cfg, src, steps, rounds[..|rounds| - 1]))
  }

  lemma {:induction false} RoundsAdvance(cfg: Config, src: Source, steps: seq<F.Step>, rounds: seq<seq<F.Step>>)
    requires src.file != [] && Sound(cfg)
    requires QuietRounds(cfg, src, steps, rounds)
    ensures var before, after := F.Run(cfg, src, steps), F.Run(cfg, src, Play(steps, rounds));
      Ended(after) || after.server.ackCounter >= before.server.ackCounter + |rounds|
    decreases |rounds|
  {
    hide F.Run;
    if rounds != [] {
      var earlier, round := rounds[..|rounds| - 1], rounds[|rounds| - 1];
      RoundsAdvance(cfg, src, steps, earlier);
      var sofar := Play(steps, earlier);
      RoundAdvances(cfg, src, sofar, round);
      EndedIsFinal(cfg, src, sofar, [I.TimeOut] + round);
      assert sofar + ([I.TimeOut] + round) == Play(steps, rounds);
    }
  }

  // ---------------------------------------------------------------------------------------------
  // A round leaves the server short of the next packet it has not yet read, or completes the file
  // ---------------------------------------------------------------------------------------------

  /** Where the server will be when the acknowledgements in flight have arrived. */
  function Settle(retired: nat, acks: seq<nat>): nat
    decreases |acks|
  {
    if acks == [] then retired else Settle(I.Retire(retired, acks[0]), acks[1..])
  }

  lemma {:induction false} SettleAppend(retired: nat, acks: seq<nat>, more: seq<nat>)
    ensures Settle(retired, acks + more) == Settle(Settle(retired, acks), more)
    decreases |acks|
  {
    if acks == [] {
      assert acks + more == more;
    } else {
      SettleAppend(I.Retire(retired, acks[0]), acks[1..], more);
      assert (acks + more)[1..] == acks[1..] + more;
    }
  }

  lemma {:induction false} SettlePast(retired: nat, acks: seq<nat>)
    requires forall a <- acks :: a != retired
    ensures Settle(retired, acks) == retired
    decreases |acks|
  {
    if acks != [] {
      assert acks[0] in acks && forall a <- acks[1..] :: a in acks;
      SettlePast(retired, acks[1..]);
    }
  }

  lemma SettleRepeat(retired: nat, n: nat)
    requires n >= 1
    ensures Settle(retired, seq(n, _ => retired)) == retired + 1
  {
    var acks := seq(n, _ => retired);
    assert acks[0] == retired;
    SettlePast(retired + 1, acks[1..]);
  }

  lemma {:induction false} SettleRun(total: nat, from: nat, upto: nat)
    requires from <= upto
    ensures Settle(from, R.RunAcks(total, from, upto)) == upto
    decreases upto - from
  {
    if from < upto {
      var n := if from + 1 == total then 11 else 1;
      SettleRepeat(from, n);
      SettleAppend(from, seq(n, _ => from), R.RunAcks(total, from + 1, upto));
      SettleRun(total, from + 1, upto);
    }
  }

  /**
   * In a round: what was read after its start, from `mark` on, is on its way to the client or has
   * arrived, and the acknowledgements take the server past `mark` only together with the client.
   */
  ghost predicate Catching(u: I.IdealState, mark: nat) {
    && mark <= u.read
    && (forall j <- u.data :: mark <= j)
    && (forall i: nat | mark <= i < u.read :: i in u.data || I.AckInFlight(u.next, u.buffered, i))
    && (Settle(u.retired, u.acks) < mark || Settle(u.retired, u.acks) == u.next)
  }

  /** The round has begun: only the resent packet is in flight. */
  predicate Resending(u: I.IdealState, mark: nat) {
    u.data == [u.retired] && u.acks == [] && u.retired < mark == u.read
  }

  /** The reply to a packet takes the server along with the client, or leaves it where it is. */
  lemma ReplySettles(cfg: Config, total: nat, next: nat, buffered: set<nat>, at: nat, j: nat)
    requires at == next || at < j
    ensures var (next', _, acks) := R.Received(cfg, total, next, buffered, j);
      Settle(at, acks) == if at == next then next' else at
  {
    hide R.RunAcks, R.Drained;
    R.DrainedIsMaximalRun(next + 1, buffered);
    var (next', _, acks) := R.Received(cfg, total, next, buffered, j);
    if j == next {
      I.RunAcksMembers(total, next, next');
      if at == next {
        SettleRun(total, next, next');
      } else {
        SettlePast(at, acks);
      }
    } else {
      SettlePast(at, acks);
    }
  }

  lemma CatchingData(cfg: Config, total: nat, u: I.IdealState, mark: nat, quit: bool)
    requires I.Ordered(cfg, total, u) && u.data != [] && Catching(u, mark)
    ensures Catching(I.Apply(cfg, total, u, I.DeliverData, quit), mark)
  {
    hide R.RunAcks, R.Drained, R.Received, I.DataOrdered, I.AcksOrdered;
    I.MarkBounds(cfg, total, u);
    var j := u.data[0];
    assert j in u.data && forall i <- u.data :: i == j || i in u.data[1..];
    assert forall i <- u.data[1..] :: i in u.data;
    if u.next < total {
      I.ReceivedSynchronised(cfg, total, u.retired, u.read, u.next, u.buffered, j);
      var acks := R.Received(cfg, total, u.next, u.buffered, j).2;
      ReplySettles(cfg, total, u.next, u.buffered, Settle(u.retired, u.acks), j);
      SettleAppend(u.retired, u.acks, acks);
    }
  }

  lemma CatchingAck(cfg: Config, total: nat, u: I.IdealState, mark: nat, quit: bool)
    requires I.Ordered(cfg, total, u) && u.acks != [] && u.up && Catching(u, mark)
    ensures Catching(I.Apply(cfg, total, u, I.DeliverAck, quit), mark)
  {
    hide I.DataOrdered, I.AcksOrdered;
    I.MarkBounds(cfg, total, u);
    if u.retired < total {
      I.RetireSynchronised(cfg, total, u.retired, u.read, u.next, u.buffered, u.acks[0]);
      RangeMembers(u.read, I.ReadMark(cfg, total, I.Retire(u.retired, u.acks[0])));
    }
  }

  lemma RangeMembers(from: nat, upto: nat)
    requires from <= upto
    ensures forall i: nat :: i in I.Range(from, upto) <==> from <= i < upto
  {
    forall i: nat | from <= i < upto
      ensures i in I.Range(from, upto)
    {
      assert I.Range(from, upto)[i - from] == i;
    }
  }

  lemma ResendArrives(cfg: Config, total: nat, u: I.IdealState, mark: nat, quit: bool)
    requires I.Ordered(cfg, total, u) && Resending(u, mark)
    ensures Catching(I.Apply(cfg, total, u, I.DeliverData, quit), mark)
  {
    hide R.RunAcks, R.Drained, R.Received, I.DataOrdered, I.AcksOrdered;
    I.MarkBounds(cfg, total, u);
    assert Settle(u.retired, []) == u.retired;
    if u.next < total {
      var acks := R.Received(cfg, total, u.next, u.buffered, u.retired).2;
      assert [] + acks == acks;
      if u.retired == u.next {
        ReplySettles(cfg, total, u.next, u.buffered, u.retired, u.retired);
      } else {
        StaleReply(cfg, total, u.next, u.buffered, u.retired);
        SettleRepeat(u.retired, 1);
        assert seq(1, _ => u.retired) == [u.retired];
      }
    }
  }

  lemma StaleReply(cfg: Config, total: nat, next: nat, buffered: set<nat>, j: nat)
    requires j < next
    ensures R.Received(cfg, total, next, buffered, j) == (next, buffered, [j])
  {
  }

  /** Deliveries leave the server's record of its last resend alone. */
  lemma DeliveryKeepsResend(cfg: Config, src: Source, steps: seq<F.Step>, step: F.Step)
    requires src.file != [] && Sound(cfg) && (step.DeliverData? || step.DeliverAck?)
    ensures F.Run(cfg, src, steps + [step]).server.lastResend == F.Run(cfg, src, steps).server.lastResend
  {
    hide F.Run, F.Companion, SeqOf, Source.PacketAt, Source.Packets, S.Turn, R.Tracks, R.Receive;
    RunMore(cfg, src, steps, step);
    F.RunMatches(cfg, src, steps);
    var sys, u := F.Run(cfg, src, steps), F.Companion(cfg, src, steps);
    if step.DeliverAck? && sys.acks != [] {
      I.DeliveryBounds(cfg, src.Packets(), u);
      if S.Blocked(sys.server) {
        S.AckTurn(cfg, src, sys.server, u.acks[0]);
      } else {
        S.StoppedTurn(cfg, src, sys.server, S.Ack(sys.acks[0]));
      }
    }
  }

  /** The state within a round that began with the resend of packet `s0`. */
  ghost predicate InRound(cfg: Config, sys: F.System, u: I.IdealState, s0: nat, mark: nat) {
    && u.up && sys.server.lastResend == SeqOf(cfg, s0)
    && (Catching(u, mark) || (Resending(u, mark) && u.retired == s0))
  }

  lemma DeliveryInRound(cfg: Config, src: Source, steps: seq<F.Step>, step: F.Step, s0: nat, mark: nat)
    requires src.file != [] && Sound(cfg) && (step.DeliverData? || step.DeliverAck?)
    requires InRound(cfg, F.Run(cfg, src, steps), F.Companion(cfg, src, steps), s0, mark)
    ensures InRound(cfg, F.Run(cfg, src, steps + [step]), F.Companion(cfg, src, steps + [step]), s0, mark)
  {
    hide F.Run, F.Companion, SeqOf, Source.Packets, R.Received, Catching, I.Ordered;
    var total, u := src.Packets(), F.Companion(cfg, src, steps);
    var quit := F.Run(cfg, src, steps + [step]).server.status.GaveUp?;
    Reading(cfg, src, steps);
    RunMore(cfg, src, steps, step);
    DeliveryKeepsResend(cfg, src, steps, step);
    match step
    case DeliverData =>
      if Catching(u, mark) {
        if u.data != [] {
          CatchingData(cfg, total, u, mark, quit);
        }
      } else {
        ResendArrives(cfg, total, u, mark, quit);
      }
    case DeliverAck =>
      if Catching(u, mark) && u.acks != [] {
        CatchingAck(cfg, total, u, mark, quit);
      }
  }

  lemma {:induction false} RoundStays(cfg: Config, src: Source, steps: seq<F.Step>, round: seq<F.Step>,
                                      s0: nat, mark: nat)
    requires src.file != [] && Sound(cfg) && Lossless(round)
    requires InRound(cfg, F.Run(cfg, src, steps), F.Companion(cfg, src, steps), s0, mark)
    ensures InRound(cfg, F.Run(cfg, src, steps + round), F.Companion(cfg, src, steps + round), s0, mark)
    decreases |round|
  {
    hide F.Run, F.Companion, InRound;
    if round == [] {
      assert steps + round == steps;
    } else {
      DeliveryInRound(cfg, src, steps, round[0], s0, mark);
      RoundStays(cfg, src, steps + [round[0]], round[1..], s0, mark);
      assert steps + [round[0]] + round[1..] == steps + round;
    }
  }

  /** The client is done, or the server goes on and its next resend will not be its last. */
  predicate Hopeful(cfg: Config, sys: F.System) {
    !sys.client.running || (!sys.server.status.GaveUp? && !S.OnTheBrink(cfg, sys.server))
  }

  /** A round that completes nothing retires fewer packets than the window holds, so the resends start afresh. */
  lemma RoundEndsHopeful(cfg: Config, src: Source, steps: seq<F.Step>, round: seq<F.Step>)
    requires src.file != [] && Sound(cfg)
    requires Quiet(F.Run(cfg, src, steps)) && Lossless(round) && Hopeful(cfg, F.Run(cfg, src, steps))
    requires Quiet(F.Run(cfg, src, steps + [I.TimeOut] + round))
    ensures var before, after := F.Run(cfg, src, steps), F.Run(cfg, src, steps + [I.TimeOut] + round);
      && Hopeful(cfg, after)
      && (after.client.running ==>
            before.server.ackCounter < after.server.ackCounter < before.server.ackCounter + cfg.window)
  {
    hide F.Run, F.Companion, Source.Packets, I.Ordered, SeqOf, S.Turn;
    var all := steps + [I.TimeOut] + round;
    EndedIsFinal(cfg, src, steps, [I.TimeOut] + round);
    assert steps + ([I.TimeOut] + round) == all;
    if F.Run(cfg, src, steps).client.running {
      var u := F.Companion(cfg, src, steps);
      Reading(cfg, src, steps);
      Reading(cfg, src, all);
      RoundAdvances(cfg, src, steps, round);
      RoundStarts(cfg, src, steps);
      RoundStays(cfg, src, steps + [I.TimeOut], round, u.retired, u.read);
      if F.Run(cfg, src, all).client.running {
        QuietRound(cfg, src, all, u.retired, u.read);
      }
    }
  }

  lemma RoundStarts(cfg: Config, src: Source, steps: seq<F.Step>)
    requires src.file != [] && Sound(cfg)
    requires var sys := F.Run(cfg, src, steps); Quiet(sys) && !Ended(sys) && !S.OnTheBrink(cfg, sys.server)
    ensures var u, more := F.Companion(cfg, src, steps), steps + [I.TimeOut];
      && InRound(cfg, F.Run(cfg, src, more), F.Companion(cfg, src, more), u.retired, u.read)
      && u.read <= u.retired + cfg.window
  {
    hide F.Run, F.Companion, Source.Packets, SeqOf, S.Turn, Catching, I.DataOrdered, I.AcksOrdered;
    var u := F.Companion(cfg, src, steps);
    Reading(cfg, src, steps);
    Reading(cfg, src, steps + [I.TimeOut]);
    ServerReading(cfg, src, steps);
    RunMore(cfg, src, steps, I.TimeOut);
    S.ResendGoesOn(cfg, src, F.Run(cfg, src, steps).server);
    I.MarkBounds(cfg, src.Packets(), u);
  }

  lemma QuietRound(cfg: Config, src: Source, steps: seq<F.Step>, s0: nat, mark: nat)
    requires src.file != [] && Sound(cfg) && mark <= s0 + cfg.window
    requires var sys := F.Run(cfg, src, steps); Quiet(sys) && sys.client.running && sys.server.ackCounter > s0
    requires InRound(cfg, F.Run(cfg, src, steps), F.Companion(cfg, src, steps), s0, mark)
    ensures var sys := F.Run(cfg, src, steps); sys.server.ackCounter < s0 + cfg.window && Hopeful(cfg, sys)
  {
    hide F.Run, F.Companion, Source.Packets, SeqOf, I.DataOrdered, I.AcksOrdered;
    var u := F.Companion(cfg, src, steps);
    Reading(cfg, src, steps);
    I.MarkBounds(cfg, src.Packets(), u);
    assert mark <= u.next < u.read ==> u.next in u.data || I.AckInFlight(u.next, u.buffered, u.next);
    SeqOfDistinguishes(cfg, s0, u.retired);
  }

  lemma {:induction false} RoundsEndHopeful(cfg: Config, src: Source, steps: seq<F.Step>, rounds: seq<seq<F.Step>>)
    requires src.file != [] && Sound(cfg)
    requires QuietRounds(cfg, src, steps, rounds) && Hopeful(cfg, F.Run(cfg, src, steps))
    ensures Hopeful(cfg, F.Run(cfg, src, Play(steps, rounds)))
    decreases |rounds|
  {
    hide F.Run, Hopeful;
    if rounds != [] {
      var earlier, round := rounds[..|rounds| - 1], rounds[|rounds| - 1];
      RoundsEndHopeful(cfg, src, steps, earlier);
      RoundEndsHopeful(cfg, src, Play(steps, earlier), round);
    }
  }

  /**
   * The number of packets not yet retired bounds the number of loss-free rounds: after that many, the
   * client has the whole file, if the server did not stand one resend before giving up at their start.
   */
  lemma RoundsComplete(cfg: Config, src: Source, steps: seq<F.Step>, rounds: seq<seq<F.Step>>)
    requires src.file != [] && Sound(cfg)
    requires QuietRounds(cfg, src, steps, rounds) && Hopeful(cfg, F.Run(cfg, src, steps))
    requires |rounds| >= src.Packets() - F.Run(cfg, src, steps).server.ackCounter
    ensures var after := F.Run(cfg, src, Play(steps, rounds));
      !after.client.running && after.client.written == src.file
  {
    hide F.Run, F.Companion, Source.Packets, S.OnTheBrink;
    RoundsAdvance(cfg, src, steps, rounds);
    RoundsEndHopeful(cfg, src, steps, rounds);
    Reading(cfg, src, Play(steps, rounds));
    F.Safety(cfg, src, Play(steps, rounds));
  }

  // ---------------------------------------------------------------------------------------------
  // Every schedule of deliveries empties the channels
  // ---------------------------------------------------------------------------------------------

  /** A bound on the deliveries that can still happen without another timeout. */
  function Potential(total: nat, u: I.IdealState): int {
    2 * (total - u.read) + 2 * |u.data| + |u.acks| + (total - u.next) + if u.next < total then 10 else 0
  }

  /** The same, read off the two programs and the channels. */
  function Work(sys: F.System): int {
    2 * (sys.server.totalPackets - sys.server.packetsInMem) + 2 * |sys.data| + |sys.acks|
      + (sys.client.totalPackets - sys.client.packetCounter) + if sys.client.running then 10 else 0
  }

  lemma WorkReading(cfg: Config, src: Source, steps: seq<F.Step>)
    requires src.file != [] && Sound(cfg)
    ensures Work(F.Run(cfg, src, steps)) == Potential(src.Packets(), F.Companion(cfg, src, steps))
    ensures Work(F.Run(cfg, src, steps)) >= 0
    ensures Work(F.Run(cfg, src, steps)) == 0 ==> Quiet(F.Run(cfg, src, steps))
    ensures Quiet(F.Run(cfg, src, steps)) ==> Work(F.Run(cfg, src, steps)) <= 3 * src.Packets() + 10
  {
    hide F.Run, F.Companion, I.DataOrdered, I.AcksOrdered, SeqOf, Source.PacketAt, Source.Packets;
    F.RunMatches(cfg, src, steps);
  }

  lemma {:induction false} RunAcksLength(total: nat, from: nat, upto: nat)
    requires from <= upto <= total
    ensures |R.RunAcks(total, from, upto)| == upto - from + if from < upto == total then 10 else 0
    decreases upto - from
  {
    if from < upto {
      RunAcksLength(total, from + 1, upto);
    }
  }

  /** A step that delivers something. */
  predicate Delivers(sys: F.System, step: F.Step) {
    (step.DeliverData? && sys.data != []) || (step.DeliverAck? && sys.acks != [])
  }

  lemma DeliveryDrops(cfg: Config, total: nat, u: I.IdealState, step: F.Step, quit: bool)
    requires I.Ordered(cfg, total, u)
    requires (step.DeliverData? && u.data != []) || (step.DeliverAck? && u.acks != [])
    ensures Potential(total, I.Apply(cfg, total, u, step, quit)) < Potential(total, u)
  {
    hide R.RunAcks, R.Drained, I.DataOrdered, I.AcksOrdered;
    I.MarkBounds(cfg, total, u);
    match step
    case DeliverData =>
      if u.next < total {
        var j := u.data[0];
        I.ReceivedSynchronised(cfg, total, u.retired, u.read, u.next, u.buffered, j);
        var next := R.Received(cfg, total, u.next, u.buffered, j).0;
        R.DrainedIsMaximalRun(u.next + 1, u.buffered);
        if j == u.next {
          RunAcksLength(total, u.next, next);
        }
      }
    case DeliverAck =>
      if u.up && u.retired < total {
        I.RetireSynchronised(cfg, total, u.retired, u.read, u.next, u.buffered, u.acks[0]);
      }
  }

  /** Deliveries in any order, none from an empty channel while the other holds something. */
  ghost predicate Eager(cfg: Config, src: Source, steps: seq<F.Step>, round: seq<F.Step>) {
    round != [] ==>
      var before := round[..|round| - 1];
      var sys := F.Run(cfg, src, steps + before);
      (Quiet(sys) || Delivers(sys, round[|round| - 1])) && Eager(cfg, src, steps, before)
  }

  lemma NothingEager(cfg: Config, src: Source, steps: seq<F.Step>)
    ensures Eager(cfg, src, steps, [])
  {
  }

  lemma EagerMore(cfg: Config, src: Source, steps: seq<F.Step>, round: seq<F.Step>, step: F.Step)
    requires Eager(cfg, src, steps, round) && Delivers(F.Run(cfg, src, steps + round), step)
    ensures Eager(cfg, src, steps, round + [step])
  {
    hide F.Run, Delivers;
    assert (round + [step])[..|round|] == round;
  }

  /** Each delivery uses up some of the work, until nothing is in flight. */
  lemma {:induction false} WorkDone(cfg: Config, src: Source, steps: seq<F.Step>, round: seq<F.Step>)
    requires src.file != [] && Sound(cfg)
    requires Lossless(round) && Eager(cfg, src, steps, round)
    ensures var sys := F.Run(cfg, src, steps + round);
      Quiet(sys) || Work(sys) + |round| <= Work(F.Run(cfg, src, steps))
    decreases |round|
  {
    hide F.Run, F.Companion, I.Ordered, Potential, Work, Source.Packets;
    if round == [] {
      assert steps + round == steps;
    } else {
      var before, step := round[..|round| - 1], round[|round| - 1];
      assert step in round && forall s <- before :: s in round;
      WorkDone(cfg, src, steps, before);
      assert steps + before + [step] == steps + round;
      RunMore(cfg, src, steps + before, step);
      if !Quiet(F.Run(cfg, src, steps + before)) {
        Reading(cfg, src, steps + before);
        WorkReading(cfg, src, steps + before);
        WorkReading(cfg, src, steps + round);
        DeliveryDrops(cfg, src.Packets(), F.Companion(cfg, src, steps + before), step,
                      F.Run(cfg, src, steps + round).server.status.GaveUp?);
      }
    }
  }

  /** Whatever the order of deliveries, after as many as there is work nothing is in flight. */
  lemma DeliveriesSettle(cfg: Config, src: Source, steps: seq<F.Step>, round: seq<F.Step>)
    requires src.file != [] && Sound(cfg)
    requires Lossless(round) && Eager(cfg, src, steps, round)
    requires |round| >= Work(F.Run(cfg, src, steps))
    ensures Quiet(F.Run(cfg, src, steps + round))
  {
    hide F.Run, Work;
    WorkDone(cfg, src, steps, round);
    WorkReading(cfg, src, steps + round);
  }

  /** Rounds of at least `3 * packets + 12` deliveries each. */
  ghost predicate EagerRounds(cfg: Config, src: Source, steps: seq<F.Step>, rounds: seq<seq<F.Step>>) {
    rounds != [] ==>
      var earlier, round := rounds[..|rounds| - 1], rounds[|rounds| - 1];
      && EagerRounds(cfg, src, steps, earlier)
      && Lossless(round) && |round| >= 3 * src.Packets() + 12
      && Eager(cfg, src, Play(steps, earlier) + [I.TimeOut], round)
  }

  lemma {:induction false} EagerRoundsAreQuiet(cfg: Config, src: Source, steps: seq<F.Step>, rounds: seq<seq<F.Step>>)
    requires src.file != [] && Sound(cfg)
    requires Quiet(F.Run(cfg, src, steps)) && EagerRounds(cfg, src, steps, rounds)
    ensures QuietRounds(cfg, src, steps, rounds)
    decreases |rounds|
  {
    hide F.Run, Eager, Work;
    if rounds != [] {
      var earlier, round := rounds[..|rounds| - 1], rounds[|rounds| - 1];
      EagerRoundsAreQuiet(cfg, src, steps, earlier);
      TimeOutWork(cfg, src, Play(steps, earlier));
      DeliveriesSettle(cfg, src, Play(steps, earlier) + [I.TimeOut], round);
    }
  }

  lemma TimeOutWork(cfg: Config, src: Source, steps: seq<F.Step>)
    requires src.file != [] && Sound(cfg) && Quiet(F.Run(cfg, src, steps))
    ensures Work(F.Run(cfg, src, steps + [I.TimeOut])) <= 3 * src.Packets() + 12
  {
    hide F.Run, F.Companion, Source.Packets, Work, I.Ordered;
    WorkReading(cfg, src, steps);
    WorkReading(cfg, src, steps + [I.TimeOut]);
    Reading(cfg, src, steps);
    RunMore(cfg, src, steps, I.TimeOut);
  }

  /**
   * A bound on the whole transfer, whatever the order of deliveries: from a quiet state, as many
   * timeouts as there are packets to retire, each followed by `3 * packets + 12` deliveries.
   */
  lemma EagerRoundsComplete(cfg: Config, src: Source, steps: seq<F.Step>, rounds: seq<seq<F.Step>>)
    requires src.file != [] && Sound(cfg)
    requires Quiet(F.Run(cfg, src, steps)) && Hopeful(cfg, F.Run(cfg, src, steps))
    requires EagerRounds(cfg, src, steps, rounds)
    requires |rounds| >= src.Packets() - F.Run(cfg, src, steps).server.ackCounter
    ensures F.Run(cfg, src, Play(steps, rounds)).client.written == src.file
  {
    hide F.Run, Hopeful;
    EagerRoundsAreQuiet(cfg, src, steps, rounds);
    RoundsComplete(cfg, src, steps, rounds);
  }

  /** From any state, some number of deliveries empties both channels. */
  lemma SomeDeliveriesSettle(cfg: Config, src: Source, steps: seq<F.Step>) returns (round: seq<F.Step>)
    requires src.file != [] && Sound(cfg)
    ensures Lossless(round) && Eager(cfg, src, steps, round) && Quiet(F.Run(cfg, src, steps + round))
  {
    hide F.Run, Work, Eager;
    round := [];
    assert Eager(cfg, src, steps, []) by { NothingEager(cfg, src, steps); }
    WorkReading(cfg, src, steps);
    while !Quiet(F.Run(cfg, src, steps + round))
      invariant Lossless(round) && Eager(cfg, src, steps, round)
      invariant |round| <= Work(F.Run(cfg, src, steps))
      decreases Work(F.Run(cfg, src, steps)) - |round|
    {
      var longer := round + [if F.Run(cfg, src, steps + round).data != [] then I.DeliverData else I.DeliverAck];
      EagerMore(cfg, src, steps, round, longer[|round|]);
      WorkDone(cfg, src, steps, round);
      WorkReading(cfg, src, steps + round);
      round := longer;
    }
  }

  // ---------------------------------------------------------------------------------------------
  // The transfer can be finished
  // ---------------------------------------------------------------------------------------------

  /** The network may lose everything in flight, and the programs do not notice. */
  lemma LoseEverything(cfg: Config, src: Source, steps: seq<F.Step>) returns (more: seq<F.Step>)
    ensures var before, after := F.Run(cfg, src, steps), F.Run(cfg, src, steps + more);
      Quiet(after) && after.server == before.server && after.client == before.client
  {
    hide F.Run;
    more := [];
    assert steps + [] == steps;
    var sys := F.Run(cfg, src, steps);
    while !Quiet(sys)
      invariant sys == F.Run(cfg, src, steps + more)
      invariant sys.server == F.Run(cfg, src, steps).server && sys.client == F.Run(cfg, src, steps).client
      decreases |sys.data| + |sys.acks|
    {
      var step := if sys.data != [] then I.LoseData(0) else I.LoseAck(0);
      RunMore(cfg, src, steps + more, step);
      assert steps + more + [step] == steps + (more + [step]);
      more := more + [step];
      sys := F.Run(cfg, src, steps + more);
    }
  }

  /** The client answers every packet with that packet's acknowledgement first. */
  lemma FirstReply(cfg: Config, total: nat, next: nat, buffered: set<nat>, j: nat)
    requires next < total
    ensures var acks := R.Received(cfg, total, next, buffered, j).2; acks != [] && acks[0] == j
  {
    hide R.Drained;
    R.DrainedIsMaximalRun(next + 1, buffered);
    if j == next {
      var end := R.Received(cfg, total, next, buffered, j).0;
      R.RunAcksSplit(total, next, end);
      R.NoAcks(total, next + 1);
    }
  }

  /** With nothing in flight: resend the front packet and deliver it; its acknowledgement comes first. */
  lemma ResendDelivered(cfg: Config, src: Source, steps: seq<F.Step>)
    requires src.file != [] && Sound(cfg)
    requires var sys := F.Run(cfg, src, steps);
      Quiet(sys) && !Ended(sys) && !S.OnTheBrink(cfg, sys.server)
    ensures var before := F.Run(cfg, src, steps).server;
      var after := F.Run(cfg, src, steps + [I.TimeOut, I.DeliverData]).server;
      var u := F.Companion(cfg, src, steps + [I.TimeOut, I.DeliverData]);
      && S.Blocked(after)
      && after.ackCounter == before.ackCounter == u.retired
      && after.lastResend == SeqOf(cfg, u.retired)
      && u.acks != [] && u.acks[0] == u.retired
  {
    hide F.Run, F.Companion, F.Matches, I.Ordered, Source.Packets, SeqOf, S.Turn, R.Received, Source.PacketAt;
    var s1, s2 := steps + [I.TimeOut], steps + [I.TimeOut, I.DeliverData];
    assert s2 == s1 + [I.DeliverData];
    RunMore(cfg, src, steps, I.TimeOut);
    RunMore(cfg, src, s1, I.DeliverData);
    Reading(cfg, src, steps);
    Reading(cfg, src, s1);
    Reading(cfg, src, s2);
    ServerReading(cfg, src, steps);
    var u := F.Companion(cfg, src, steps);
    S.ResendGoesOn(cfg, src, F.Run(cfg, src, steps).server);
    assert F.Companion(cfg, src, s1).data == [u.retired];
    FirstReply(cfg, src.Packets(), u.next, u.buffered, u.retired);
  }

  /** Delivering that acknowledgement too makes the server move on to the next packet. */
  lemma ResendOnce(cfg: Config, src: Source, steps: seq<F.Step>)
    requires src.file != [] && Sound(cfg)
    requires var sys := F.Run(cfg, src, steps);
      Quiet(sys) && !Ended(sys) && !S.OnTheBrink(cfg, sys.server)
    ensures var before := F.Run(cfg, src, steps);
      var after := F.Run(cfg, src, steps + [I.TimeOut, I.DeliverData, I.DeliverAck]);
      && !after.server.status.GaveUp?
      && after.server.ackCounter == before.server.ackCounter + 1
      && !S.OnTheBrink(cfg, after.server)
  {
    hide F.Run, F.Companion, F.Apply, I.Apply, Source.Packets, SeqOf, Ended, Quiet, S.Blocked;
    var s2, s3 := steps + [I.TimeOut, I.DeliverData], steps + [I.TimeOut, I.DeliverData, I.DeliverAck];
    assert s3 == s2 + [I.DeliverAck];
    ResendDelivered(cfg, src, steps);
    RunMore(cfg, src, s2, I.DeliverAck);
    FrontAckReading(cfg, src, s2);
    var retired := F.Companion(cfg, src, s2).retired;
    SeqOfInjective(cfg, retired, retired + 1);
  }

  lemma ServerReading(cfg: Config, src: Source, steps: seq<F.Step>)
    requires src.file != [] && Sound(cfg)
    ensures var server := F.Run(cfg, src, steps).server;
      S.Conserved(cfg, src, server) && S.Settled(cfg, server) && S.Inert(cfg, server)
  {
    hide F.Run, F.Companion, SeqOf;
    F.RunMatches(cfg, src, steps);
  }

  /** Delivering the acknowledgement the server waits for changes nothing about its resends. */
  lemma FrontAckReading(cfg: Config, src: Source, steps: seq<F.Step>)
    requires src.file != [] && Sound(cfg)
    requires S.Blocked(F.Run(cfg, src, steps).server)
    requires var u := F.Companion(cfg, src, steps); u.acks != [] && u.acks[0] == u.retired
    ensures var s, s' := F.Run(cfg, src, steps).server, F.Apply(cfg, src, F.Run(cfg, src, steps), I.DeliverAck).server;
      s'.ackCounter == s.ackCounter + 1 && s'.lastResend == s.lastResend && !s'.status.GaveUp?
  {
    hide F.Run, F.Companion, I.Ordered, SeqOf, Source.PacketAt, Source.Packets, S.Turn, R.Tracks;
    F.RunMatches(cfg, src, steps);
    var sys, u := F.Run(cfg, src, steps), F.Companion(cfg, src, steps);
    S.AckTurn(cfg, src, sys.server, u.acks[0]);
  }

  /** However messy the state, the next packet can be retired. */
  lemma CanRetireNext(cfg: Config, src: Source, steps: seq<F.Step>) returns (more: seq<F.Step>)
    requires src.file != [] && Sound(cfg)
    requires var sys := F.Run(cfg, src, steps); !Ended(sys) && !S.OnTheBrink(cfg, sys.server)
    ensures var before, after := F.Run(cfg, src, steps).server, F.Run(cfg, src, steps + more).server;
      !after.status.GaveUp? && after.ackCounter == before.ackCounter + 1 && !S.OnTheBrink(cfg, after)
  {
    hide F.Run, Source.Packets, SeqOf, S.OnTheBrink;
    var lost := LoseEverything(cfg, src, steps);
    ResendOnce(cfg, src, steps + lost);
    more := lost + [I.TimeOut, I.DeliverData, I.DeliverAck];
    assert steps + lost + [I.TimeOut, I.DeliverData, I.DeliverAck] == steps + more;
  }

  /**
   * From every reachable state in which the server is still trying, and is not one resend away from
   * giving up, the transfer can still be finished.
   */
  lemma {:induction false} CanAlwaysFinish(cfg: Config, src: Source, steps: seq<F.Step>) returns (more: seq<F.Step>)
    requires src.file != [] && Sound(cfg)
    requires var s := F.Run(cfg, src, steps).server; !s.status.GaveUp? && !S.OnTheBrink(cfg, s)
    ensures var after := F.Run(cfg, src, steps + more);
      !after.client.running && after.client.written == src.file && !after.server.status.GaveUp?
    decreases src.Packets() - F.Run(cfg, src, steps).server.ackCounter
  {
    hide F.Run, Source.Packets, SeqOf, S.OnTheBrink, F.WritesPrefix;
    Reading(cfg, src, steps);
    if F.Run(cfg, src, steps).client.running {
      var now := CanRetireNext(cfg, src, steps);
      var later := CanAlwaysFinish(cfg, src, steps + now);
      more := now + later;
      assert steps + now + later == steps + more;
    } else {
      more := [];
      assert steps + [] == steps;
      F.Safety(cfg, src, steps);
    }
  }
}
