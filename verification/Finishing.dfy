/**
 * Exactly when a transfer can still be finished, by whatever the network does, from any reachable
 * state; for states with nothing in flight this is a condition on the two programs' variables, and
 * loss-free timeout rounds then do finish it.
 */
module Finishing {
  import opened Bytes
  import opened SequenceNumbers
  import opened Wire
  import opened Progress
  import S = Sender
  import R = Receiver
  import I = Ideal
  import F = Fifo

  /** Every packet the client has not written is buffered or on its way. */
  ghost predicate Covered(total: nat, u: I.IdealState) {
    forall i: nat | u.next <= i < total :: i in u.buffered || i in u.data
  }

  /**
   * The client is done; or the server still tries, and its next resend is not its last or the front
   * packet can still be acknowledged; or the missing packets are all there, but for the one it can
   * resend.
   */
  ghost predicate Finishable(cfg: Config, sys: F.System, total: nat, u: I.IdealState) {
    || u.next == total
    || (u.up && (!S.OnTheBrink(cfg, sys.server) || u.retired in u.acks || u.retired in u.data))
    || Covered(total, if u.up then u.(data := u.data + [u.retired]) else u)
  }

  // ---------------------------------------------------------------------------------------------
  // When a packet is out of reach
  // ---------------------------------------------------------------------------------------------

  /** Packet `m` is lost, and the server is done for or has one resend left, of another packet. */
  ghost predicate Hopeless(cfg: Config, sys: F.System, total: nat, u: I.IdealState, m: nat) {
    && u.next <= m < total && m !in u.buffered && m !in u.data
    && (u.up ==> m != u.retired && S.OnTheBrink(cfg, sys.server) && u.retired !in u.acks && u.retired !in u.data)
  }

  lemma LostStaysLost(cfg: Config, total: nat, next: nat, buffered: set<nat>, j: nat, m: nat, retired: nat)
    requires next <= m < total && m !in buffered && j != m && retired <= next
    ensures var (next', buffered', acks) := R.Received(cfg, total, next, buffered, j);
      next' <= m && m !in buffered' && (j != retired ==> retired !in acks)
  {
    hide R.RunAcks, R.Drained;
    R.DrainedIsMaximalRun(next + 1, buffered);
    if j == next {
      I.RunAcksMembers(total, next, R.Received(cfg, total, next, buffered, j).0);
    }
  }

  lemma HopelessData(cfg: Config, sys: F.System, total: nat, u: I.IdealState, m: nat, sys': F.System, quit: bool)
    requires I.Ordered(cfg, total, u) && Hopeless(cfg, sys, total, u, m) && sys'.server == sys.server
    ensures Hopeless(cfg, sys', total, I.Apply(cfg, total, u, I.DeliverData, quit), m)
  {
    hide R.Received, I.DataOrdered, I.AcksOrdered, S.OnTheBrink;
    I.MarkBounds(cfg, total, u);
    if u.data != [] {
      var j := u.data[0];
      assert j in u.data && forall i <- u.data[1..] :: i in u.data;
      LostStaysLost(cfg, total, u.next, u.buffered, j, m, u.retired);
    }
  }

  lemma HopelessAck(cfg: Config, src: Source, sys: F.System, u: I.IdealState, m: nat, quit: bool)
    requires Sound(cfg) && F.Matches(cfg, src, sys, u) && I.Ordered(cfg, src.Packets(), u)
    requires Hopeless(cfg, sys, src.Packets(), u, m)
    ensures Hopeless(cfg, F.Apply(cfg, src, sys, I.DeliverAck), src.Packets(),
                     I.Apply(cfg, src.Packets(), u, I.DeliverAck, quit), m)
  {
    hide SeqOf, Source.PacketAt, Source.Packets, R.Tracks, S.Turn, I.DataOrdered, I.AcksOrdered, I.Range;
    I.MarkBounds(cfg, src.Packets(), u);
    I.DeliveryBounds(cfg, src.Packets(), u);
    if u.acks != [] && u.up {
      assert u.acks[0] in u.acks && forall a <- u.acks[1..] :: a in u.acks;
      S.AckTurn(cfg, src, sys.server, u.acks[0]);
      assert I.Range(u.read, u.read) == [];
      assert u.data + [] == u.data;
    } else if u.acks != [] {
      S.StoppedTurn(cfg, src, sys.server, S.Ack(sys.acks[0]));
    }
  }

  lemma HopelessTimeOut(cfg: Config, src: Source, sys: F.System, u: I.IdealState, m: nat)
    requires F.Matches(cfg, src, sys, u) && I.Ordered(cfg, src.Packets(), u)
    requires Hopeless(cfg, sys, src.Packets(), u, m)
    ensures var sys' := F.Apply(cfg, src, sys, I.TimeOut);
      Hopeless(cfg, sys', src.Packets(),
               I.Apply(cfg, src.Packets(), u, I.TimeOut, sys'.server.status.GaveUp?), m)
  {
    hide SeqOf, Source.PacketAt, Source.Packets, R.Tracks, S.Turn, I.DataOrdered, I.AcksOrdered, S.AreConsecutive;
    I.MarkBounds(cfg, src.Packets(), u);
    if u.up {
      S.BrinkGivesUp(cfg, src, sys.server);
    }
  }

  lemma HopelessStep(cfg: Config, src: Source, sys: F.System, u: I.IdealState, step: F.Step, m: nat)
    requires Sound(cfg) && F.Matches(cfg, src, sys, u) && I.Ordered(cfg, src.Packets(), u)
    requires Hopeless(cfg, sys, src.Packets(), u, m)
    ensures var sys' := F.Apply(cfg, src, sys, step);
      Hopeless(cfg, sys', src.Packets(), I.Apply(cfg, src.Packets(), u, step, sys'.server.status.GaveUp?), m)
  {
    hide F.ServerMatches, F.ArePackets, R.Tracks, R.Acknowledge, I.Ordered, Source.Packets, I.Lose, I.Duplicate;
    hide S.OnTheBrink, S.Turn, R.Receive, R.Received;
    var sys' := F.Apply(cfg, src, sys, step);
    var quit := sys'.server.status.GaveUp?;
    match step
    case TimeOut => HopelessTimeOut(cfg, src, sys, u, m);
    case DeliverData => HopelessData(cfg, sys, src.Packets(), u, m, sys', quit);
    case DeliverAck => HopelessAck(cfg, src, sys, u, m, quit);
    case LoseData(k) => I.ChannelMembers(u.data, k);
    case DuplicateData(k) => I.ChannelMembers(u.data, k);
    case LoseAck(k) => I.ChannelMembers(u.acks, k);
    case DuplicateAck(k) => I.ChannelMembers(u.acks, k);
  }

  /** A hopeless state stays hopeless. */
  lemma {:induction false} NeverFinishes(cfg: Config, src: Source, steps: seq<F.Step>, more: seq<F.Step>, m: nat)
    requires src.file != [] && Sound(cfg)
    requires Hopeless(cfg, F.Run(cfg, src, steps), src.Packets(), F.Companion(cfg, src, steps), m)
    ensures F.Run(cfg, src, steps + more).client.running
    decreases |more|
  {
    hide F.Run, F.Companion, Source.Packets, I.Apply, F.Apply, I.Ordered, F.Matches, S.OnTheBrink;
    Reading(cfg, src, steps);
    if more == [] {
      assert steps + more == steps;
    } else {
      F.RunMatches(cfg, src, steps);
      RunMore(cfg, src, steps, more[0]);
      HopelessStep(cfg, src, F.Run(cfg, src, steps), F.Companion(cfg, src, steps), more[0], m);
      NeverFinishes(cfg, src, steps + [more[0]], more[1..], m);
      assert steps + [more[0]] + more[1..] == steps + more;
    }
  }

  // ---------------------------------------------------------------------------------------------
  // When none is
  // ---------------------------------------------------------------------------------------------

  lemma CoveredDelivery(cfg: Config, total: nat, u: I.IdealState, step: F.Step, quit: bool)
    requires I.Ordered(cfg, total, u) && Covered(total, u) && (step.DeliverData? || step.DeliverAck?)
    ensures Covered(total, I.Apply(cfg, total, u, step, quit))
  {
    hide R.Received, I.DataOrdered, I.AcksOrdered;
    I.MarkBounds(cfg, total, u);
    if step.DeliverData? && u.data != [] && u.next < total {
      var j := u.data[0];
      I.ReceivedSynchronised(cfg, total, u.retired, u.read, u.next, u.buffered, j);
      assert u.data == [j] + u.data[1..];
      var (next, buffered, _) := R.Received(cfg, total, u.next, u.buffered, j);
      assert next < u.next ==> I.AckInFlight(u.next, u.buffered, next);
      assert u.next <= next;
      forall i: nat | next <= i < total
        ensures i in buffered || i in u.data[1..]
      {
        assert I.AckInFlight(next, buffered, j);
        assert i in u.buffered ==> I.AckInFlight(u.next, u.buffered, i);
      }
    }
  }

  /** A loss-free round from a covered state ends with the client done. */
  lemma {:induction false} CoveredFinishes(cfg: Config, src: Source, steps: seq<F.Step>, round: seq<F.Step>)
    requires src.file != [] && Sound(cfg) && Lossless(round)
    requires Covered(src.Packets(), F.Companion(cfg, src, steps))
    requires Quiet(F.Run(cfg, src, steps + round))
    ensures !F.Run(cfg, src, steps + round).client.running
    decreases |round|
  {
    hide F.Run, F.Companion, Source.Packets, I.Apply, I.Ordered;
    Reading(cfg, src, steps);
    if round == [] {
      assert steps + round == steps;
      NothingAhead(cfg, src.Packets(), F.Companion(cfg, src, steps));
    } else {
      RunMore(cfg, src, steps, round[0]);
      CoveredDelivery(cfg, src.Packets(), F.Companion(cfg, src, steps), round[0],
                      F.Run(cfg, src, steps + [round[0]]).server.status.GaveUp?);
      assert steps + [round[0]] + round[1..] == steps + round;
      CoveredFinishes(cfg, src, steps + [round[0]], round[1..]);
    }
  }

  lemma NothingAhead(cfg: Config, total: nat, u: I.IdealState)
    requires I.Ordered(cfg, total, u)
    ensures u.next !in u.buffered && u.next <= total
  {
  }

  lemma CoverResent(cfg: Config, src: Source, steps: seq<F.Step>)
    requires src.file != [] && Sound(cfg)
    requires var u := F.Companion(cfg, src, steps);
      u.up && u.next < src.Packets() && Covered(src.Packets(), u.(data := u.data + [u.retired]))
    ensures Covered(src.Packets(), F.Companion(cfg, src, steps + [I.TimeOut]))
  {
    hide F.Run, F.Companion, Source.Packets;
    Reading(cfg, src, steps);
    RunMore(cfg, src, steps, I.TimeOut);
  }

  /** Everything ahead of the front packet's acknowledgement is lost, and that arrives. */
  lemma LeaveBrink(cfg: Config, src: Source, steps: seq<F.Step>) returns (more: seq<F.Step>)
    requires src.file != [] && Sound(cfg)
    requires var u := F.Companion(cfg, src, steps); u.up && u.retired in u.acks
    requires S.OnTheBrink(cfg, F.Run(cfg, src, steps).server)
    ensures var s := F.Run(cfg, src, steps + more).server; !s.status.GaveUp? && !S.OnTheBrink(cfg, s)
    decreases |F.Companion(cfg, src, steps).acks|
  {
    hide F.Run, F.Companion, Source.Packets, SeqOf, I.Ordered;
    var u := F.Companion(cfg, src, steps);
    var step := if u.acks[0] == u.retired then I.DeliverAck else I.LoseAck(0);
    Reading(cfg, src, steps);
    AckInFlightBounds(cfg, src.Packets(), u);
    RunMore(cfg, src, steps, step);
    if u.acks[0] == u.retired {
      FrontAckReading(cfg, src, steps);
      SeqOfInjective(cfg, u.retired, u.retired + 1);
      more := [step];
    } else {
      assert I.Lose(u.acks, 0) == u.acks[1..];
      more := LeaveBrink(cfg, src, steps + [step]);
      assert steps + [step] + more == steps + ([step] + more);
      more := [step] + more;
    }
  }

  lemma AckInFlightBounds(cfg: Config, total: nat, u: I.IdealState)
    requires I.Ordered(cfg, total, u)
    ensures u.retired in u.acks ==> u.retired < total
  {
  }

  /** Everything ahead of the front packet is lost, it arrives, and is acknowledged. */
  lemma FrontPacketArrives(cfg: Config, src: Source, steps: seq<F.Step>) returns (more: seq<F.Step>)
    requires src.file != [] && Sound(cfg)
    requires var u := F.Companion(cfg, src, steps); u.up && u.next < src.Packets() && u.retired in u.data
    ensures var u := F.Companion(cfg, src, steps + more); u.up && u.retired in u.acks
    ensures F.Run(cfg, src, steps + more).server == F.Run(cfg, src, steps).server
    decreases |F.Companion(cfg, src, steps).data|
  {
    hide F.Run, F.Companion, Source.Packets, SeqOf, I.Ordered, R.Received, R.Receive;
    var total, u := src.Packets(), F.Companion(cfg, src, steps);
    var step := if u.data[0] == u.retired then I.DeliverData else I.LoseData(0);
    Reading(cfg, src, steps);
    RunMore(cfg, src, steps, step);
    if u.data[0] == u.retired {
      FirstReply(cfg, total, u.next, u.buffered, u.retired);
      more := [step];
    } else {
      assert I.Lose(u.data, 0) == u.data[1..];
      more := FrontPacketArrives(cfg, src, steps + [step]);
      assert steps + [step] + more == steps + ([step] + more);
      more := [step] + more;
    }
  }

  lemma FinishOffBrink(cfg: Config, src: Source, steps: seq<F.Step>) returns (more: seq<F.Step>)
    requires src.file != [] && Sound(cfg)
    requires var u := F.Companion(cfg, src, steps); u.up && u.retired in u.acks
    ensures !F.Run(cfg, src, steps + more).client.running
  {
    hide F.Run, F.Companion, S.OnTheBrink, Source.Packets;
    Reading(cfg, src, steps);
    if S.OnTheBrink(cfg, F.Run(cfg, src, steps).server) {
      var now := LeaveBrink(cfg, src, steps);
      var later := CanAlwaysFinish(cfg, src, steps + now);
      more := now + later;
      assert steps + now + later == steps + more;
    } else {
      more := CanAlwaysFinish(cfg, src, steps);
    }
  }

  lemma Finish(cfg: Config, src: Source, steps: seq<F.Step>) returns (more: seq<F.Step>)
    requires src.file != [] && Sound(cfg)
    requires Finishable(cfg, F.Run(cfg, src, steps), src.Packets(), F.Companion(cfg, src, steps))
    ensures !F.Run(cfg, src, steps + more).client.running
  {
    hide F.Run, F.Companion, S.OnTheBrink, Source.Packets, Covered;
    var u := F.Companion(cfg, src, steps);
    Reading(cfg, src, steps);
    if u.next == src.Packets() {
      more := [];
      assert steps + [] == steps;
    } else if u.up && !S.OnTheBrink(cfg, F.Run(cfg, src, steps).server) {
      more := CanAlwaysFinish(cfg, src, steps);
    } else if u.up && u.retired in u.acks {
      more := FinishOffBrink(cfg, src, steps);
    } else if u.up && u.retired in u.data {
      var now := FrontPacketArrives(cfg, src, steps);
      var later := FinishOffBrink(cfg, src, steps + now);
      more := now + later;
      assert steps + now + later == steps + more;
    } else {
      more := if u.up then [I.TimeOut] else [];
      assert steps + [] == steps;
      if u.up {
        CoverResent(cfg, src, steps);
      }
      var round := SomeDeliveriesSettle(cfg, src, steps + more);
      CoveredFinishes(cfg, src, steps + more, round);
      assert steps + more + round == steps + (more + round);
      more := more + round;
    }
  }

  /**
   * From a reachable state, whatever is in flight, something can still happen that finishes the
   * transfer if and only if the state is finishable.
   */
  lemma CanFinishIff(cfg: Config, src: Source, steps: seq<F.Step>)
    requires src.file != [] && Sound(cfg)
    ensures (exists more: seq<F.Step> :: !F.Run(cfg, src, steps + more).client.running)
       <==> Finishable(cfg, F.Run(cfg, src, steps), src.Packets(), F.Companion(cfg, src, steps))
  {
    hide F.Run, F.Companion, S.OnTheBrink, Source.Packets;
    var total, sys, u := src.Packets(), F.Run(cfg, src, steps), F.Companion(cfg, src, steps);
    if Finishable(cfg, sys, total, u) {
      var more := Finish(cfg, src, steps);
    } else {
      Reading(cfg, src, steps);
      var data := if u.up then u.data + [u.retired] else u.data;
      var m: nat :| u.next <= m < total && m !in u.buffered && m !in data;
      forall more: seq<F.Step>
        ensures F.Run(cfg, src, steps + more).client.running
      {
        NeverFinishes(cfg, src, steps, more, m);
      }
    }
  }

  // ---------------------------------------------------------------------------------------------
  // With nothing in flight, in terms of the programs' variables
  // ---------------------------------------------------------------------------------------------

  /** The server's next packet and what the client has buffered are everything that is missing. */
  predicate LastResendSuffices(cfg: Config, sys: F.System) {
    && sys.server.ackCounter == sys.client.packetCounter
    && sys.client.totalPackets <= sys.client.packetCounter + cfg.window
    && forall i: nat | sys.client.packetCounter < i < sys.client.totalPackets :: SeqOf(cfg, i) in sys.client.outOfOrder
  }

  /** The client is done, or the server still resends, and not for the last time or not in vain. */
  predicate CanFinish(cfg: Config, sys: F.System) {
    || !sys.client.running
    || (!sys.server.status.GaveUp? && (!S.OnTheBrink(cfg, sys.server) || LastResendSuffices(cfg, sys)))
  }

  /** The client misses nothing but what it has buffered and the packet the server would resend. */
  ghost predicate Completes(total: nat, u: I.IdealState) {
    u.retired == u.next && forall i: nat | u.next < i < total :: i in u.buffered
  }

  lemma SufficesReading(cfg: Config, src: Source, steps: seq<F.Step>)
    requires src.file != [] && Sound(cfg) && F.Run(cfg, src, steps).client.running
    ensures LastResendSuffices(cfg, F.Run(cfg, src, steps)) <==> Completes(src.Packets(), F.Companion(cfg, src, steps))
  {
    hide F.Run, F.Companion, SeqOf, Source.PacketAt, Source.Packets, I.DataOrdered, I.AcksOrdered, R.WindowFrom;
    hide S.Conserved;
    var total, sys, u := src.Packets(), F.Run(cfg, src, steps), F.Companion(cfg, src, steps);
    F.RunMatches(cfg, src, steps);
    I.MarkBounds(cfg, total, u);
    if Completes(total, u) && u.next + 1 < total {
      assert total - 1 in u.buffered;
    }
  }

  lemma QuietReading(cfg: Config, src: Source, steps: seq<F.Step>)
    requires src.file != [] && Sound(cfg) && Quiet(F.Run(cfg, src, steps))
    ensures var sys := F.Run(cfg, src, steps);
      CanFinish(cfg, sys) <==> Finishable(cfg, sys, src.Packets(), F.Companion(cfg, src, steps))
  {
    hide F.Run, F.Companion, SeqOf, Source.Packets, I.Ordered, LastResendSuffices, S.OnTheBrink;
    var total, u := src.Packets(), F.Companion(cfg, src, steps);
    Reading(cfg, src, steps);
    NothingAhead(cfg, total, u);
    if u.next < total {
      SufficesReading(cfg, src, steps);
      var resent := u.(data := [] + [u.retired]);
      assert Covered(total, resent) ==> u.next in u.buffered || u.next in resent.data;
      assert Covered(total, u) ==> u.next in u.buffered || u.next in u.data;
    }
  }

  /**
   * From a quiet reachable state something can still happen that finishes the transfer, if and only if
   * the client is done, or the server is still trying and its next resend is not its last or
   * completes the file.
   */
  lemma QuietCanFinishIff(cfg: Config, src: Source, steps: seq<F.Step>)
    requires src.file != [] && Sound(cfg) && Quiet(F.Run(cfg, src, steps))
    ensures (exists more: seq<F.Step> :: !F.Run(cfg, src, steps + more).client.running)
       <==> CanFinish(cfg, F.Run(cfg, src, steps))
  {
    hide F.Run, CanFinish, Finishable;
    CanFinishIff(cfg, src, steps);
    QuietReading(cfg, src, steps);
  }

  /** If the next packet is all that is missing, one loss-free round is enough, even on the brink. */
  lemma LastRound(cfg: Config, src: Source, steps: seq<F.Step>, round: seq<F.Step>)
    requires src.file != [] && Sound(cfg) && Lossless(round)
    requires Quiet(F.Run(cfg, src, steps)) && !Ended(F.Run(cfg, src, steps))
    requires LastResendSuffices(cfg, F.Run(cfg, src, steps))
    requires Quiet(F.Run(cfg, src, steps + [I.TimeOut] + round))
    ensures !F.Run(cfg, src, steps + [I.TimeOut] + round).client.running
  {
    hide F.Run, F.Companion, Source.Packets, SeqOf, I.Ordered, LastResendSuffices;
    Reading(cfg, src, steps);
    SufficesReading(cfg, src, steps);
    CoverResent(cfg, src, steps);
    CoveredFinishes(cfg, src, steps + [I.TimeOut], round);
  }

  lemma {:induction false} RoundsAfterLast(cfg: Config, src: Source, steps: seq<F.Step>, rounds: seq<seq<F.Step>>)
    requires src.file != [] && Sound(cfg) && QuietRounds(cfg, src, steps, rounds) && rounds != []
    requires Quiet(F.Run(cfg, src, steps)) && !Ended(F.Run(cfg, src, steps))
    requires LastResendSuffices(cfg, F.Run(cfg, src, steps))
    ensures !F.Run(cfg, src, Play(steps, rounds)).client.running
    decreases |rounds|
  {
    hide F.Run, LastResendSuffices, Ended;
    var earlier, round := rounds[..|rounds| - 1], rounds[|rounds| - 1];
    if earlier == [] {
      assert Play(steps, earlier) == steps;
      LastRound(cfg, src, steps, round);
    } else {
      RoundsAfterLast(cfg, src, steps, earlier);
      var sofar := Play(steps, earlier);
      EndedIsFinal(cfg, src, sofar, [I.TimeOut] + round);
      assert sofar + ([I.TimeOut] + round) == Play(steps, rounds);
    }
  }

  lemma {:induction false} PlayExtends(steps: seq<F.Step>, rounds: seq<seq<F.Step>>) returns (more: seq<F.Step>)
    ensures Play(steps, rounds) == steps + more
    decreases |rounds|
  {
    more := [];
    if rounds != [] {
      more := PlayExtends(steps, rounds[..|rounds| - 1]);
      more := more + [I.TimeOut] + rounds[|rounds| - 1];
    }
  }

  /**
   * As many loss-free rounds as there are packets to retire complete the file exactly if it can be
   * completed at all.
   */
  lemma RoundsCompleteIff(cfg: Config, src: Source, steps: seq<F.Step>, rounds: seq<seq<F.Step>>)
    requires src.file != [] && Sound(cfg)
    requires Quiet(F.Run(cfg, src, steps)) && QuietRounds(cfg, src, steps, rounds)
    requires |rounds| >= src.Packets() - F.Run(cfg, src, steps).server.ackCounter
    ensures !F.Run(cfg, src, Play(steps, rounds)).client.running <==> CanFinish(cfg, F.Run(cfg, src, steps))
  {
    hide F.Run, Source.Packets, LastResendSuffices, S.OnTheBrink;
    var sys := F.Run(cfg, src, steps);
    if !CanFinish(cfg, sys) {
      var more := PlayExtends(steps, rounds);
      QuietCanFinishIff(cfg, src, steps);
    } else if Hopeful(cfg, sys) {
      RoundsComplete(cfg, src, steps, rounds);
    } else {
      Reading(cfg, src, steps);
      RoundsAfterLast(cfg, src, steps, rounds);
    }
  }
}
