/** The server program: global state updated in place, proved against module `Sender`. */
module ServerProgram {
  import opened Bytes
  import opened SequenceNumbers
  import opened Wire
  import Spec = Sender

  class Server {
    const src: Source
    var seqNum: uint32
    var totalPackets: nat
    var packetsInMem: nat
    var ackCounter: nat
    var resendCnt: nat
    var lastResend: uint32
    var filePos: nat                // where the next `fread` starts
    var windowQueue: seq<Packet>
    var outOfOrder: set<uint32>
    var receiving: bool
    var exited: bool                // `exit` was called
    var sent: seq<Packet>           // everything given to the socket

    ghost function State(): Spec.ServerState
      reads this
    {
      Spec.ServerState(seqNum, totalPackets, packetsInMem, ackCounter, resendCnt, lastResend, filePos,
                       windowQueue, outOfOrder,
                       if exited then Spec.GaveUp else if receiving then Spec.Running else Spec.Complete)
    }

    constructor (src: Source)
      ensures this.src == src && State() == Spec.Startup(src) && sent == []
      ensures totalPackets == (|src.file| + 999) / 1000
    {
      this.src := src;
      seqNum, packetsInMem, ackCounter, resendCnt, lastResend := 0, 0, 0, 0, 0;
      totalPackets := |src.file| / PAYLOAD_SIZE + if |src.file| % PAYLOAD_SIZE != 0 then 1 else 0;
      filePos, windowQueue, outOfOrder := 0, [], {};
      receiving, exited, sent := true, false, [];
    }

    method NextSeq() returns (number: uint32)
      requires seqNum <= 10
      modifies this`seqNum
      ensures number == seqNum == SequenceNumbers.NextSeq(DEPLOYED, old(seqNum)) == old(seqNum) % 10 + 1
    {
      NextSeqIsRemainder(DEPLOYED, seqNum);
      seqNum := seqNum % 10 + 1;
      number := seqNum;
    }

    method BuildPacket() returns (pkt: Packet)
      requires seqNum <= 10
      modifies this`seqNum, this`filePos
      ensures var pushed := Spec.PushNext(DEPLOYED, src, old(State()));
        && seqNum == pushed.seqNum && filePos == pushed.filePos
        && old(windowQueue) + [pkt] == pushed.windowQueue
      ensures |pkt.data| == 1000
      ensures forall k | 0 <= k < 1000 ::
                pkt.data[k] == if old(filePos) + k < |src.file| then src.file[old(filePos) + k] else src.junk[k]
      ensures old(filePos) <= |src.file| ==> filePos == Min(old(filePos) + 1000, |src.file|)
      ensures Spec.Conserved(DEPLOYED, src, old(State())) && old(packetsInMem < totalPackets) ==>
                IsPacket(src, pkt, old(packetsInMem))
    {
      src.ReadBytes(filePos);
      if Spec.Conserved(DEPLOYED, src, State()) && packetsInMem < totalPackets {
        NextPacket(src, State());
      }
      var number := NextSeq();
      pkt := Packet(number, src.ReadAt(filePos));
      filePos := filePos + src.ReadSize(filePos);
    }

    method SendPacket(pkt: Packet)
      modifies this`sent
      ensures sent == old(sent) + [pkt]
    {
      sent := sent + [pkt];
    }

    method FillWindow()
      requires seqNum <= 10
      modifies this`seqNum, this`filePos, this`windowQueue, this`packetsInMem, this`sent
      ensures seqNum <= 10
      ensures var (filled, out) := Spec.FillWindow(DEPLOYED, src, old(State()));
        State() == filled && sent == old(sent) + out
      ensures Spec.Conserved(DEPLOYED, src, old(State())) ==> FullWindow(src, State())
    {
      FilledWindow(src, State());
      ghost var goal := Spec.FillWindow(DEPLOYED, src, State());
      ghost var before := sent;
      assert before + goal.1 == sent + Spec.FillWindow(DEPLOYED, src, State()).1;
      while |windowQueue| < 5
        invariant seqNum <= 10
        invariant Spec.FillWindow(DEPLOYED, src, State()).0 == goal.0
        invariant sent + Spec.FillWindow(DEPLOYED, src, State()).1 == before + goal.1
        decreases totalPackets - packetsInMem
      {
        if packetsInMem < totalPackets {
          ghost var s := State();
          var temp := BuildPacket();
          windowQueue := windowQueue + [temp];
          SendPacket(temp);
          packetsInMem := packetsInMem + 1;
          assert State() == Spec.PushNext(DEPLOYED, src, s);
          FillStep(src, s, temp, Spec.FillWindow(DEPLOYED, src, State()).1);
        } else {
          return;
        }
      }
    }

    method ReSend()
      requires windowQueue != [] && receiving && !exited
      modifies this`sent, this`resendCnt, this`lastResend, this`exited
      ensures State() == Spec.ReSend(old(State()))
      ensures sent == old(sent) + [windowQueue[0]]
    {
      var sendPack := windowQueue[0];
      SendPacket(sendPack);
      if lastResend == sendPack.seqNum {
        resendCnt := resendCnt + 1;
        if resendCnt == 15 {
          exited := true;
          return;
        }
      } else {
        resendCnt := 0;
      }
      lastResend := sendPack.seqNum;
    }

    method CheckOutOfOrder()
      modifies this`outOfOrder, this`windowQueue, this`ackCounter
      ensures State() == Spec.CheckOutOfOrder(old(State()))
      decreases |windowQueue|
    {
      if windowQueue != [] && windowQueue[0].seqNum in outOfOrder {
        outOfOrder := outOfOrder - {windowQueue[0].seqNum};
        windowQueue := windowQueue[1..];
        ackCounter := ackCounter + 1;
        CheckOutOfOrder();
      }
    }

    /** Returns -1 on a timeout, -2 when the last packet is acknowledged, and 0 otherwise. */
    method RecvAck(e: Spec.Event) returns (code: int)
      requires windowQueue != [] && receiving && !exited
      modifies this`outOfOrder, this`windowQueue, this`ackCounter
      ensures e.Timeout? ==> code == -1 && State() == old(State())
      ensures e.Ack? ==>
                var after := Spec.RecvAck(DEPLOYED, old(State()), e.word);
                if after.status.Complete? then
                  code == -2 && State() == after.(status := Spec.Running)
                else
                  code == 0 && State() == after
      ensures e.Ack? && old(windowQueue[0].seqNum) <= 10 ==>
                (ackCounter > old(ackCounter) <==> e.word == 0x100_0000 * old(windowQueue[0].seqNum))
    {
      hide Swap32, Spec.CheckOutOfOrder;
      if e.Ack? && windowQueue[0].seqNum <= 10 {
        Swap32Involutive(e.word);
        Swap32Involutive(windowQueue[0].seqNum);
        Swap32OfByte(windowQueue[0].seqNum);
      }
      if e.Timeout? {
        return -1;
      }
      var seqNum := Swap32(e.word);
      if seqNum == windowQueue[0].seqNum {
        windowQueue := windowQueue[1..];
        ackCounter := ackCounter + 1;
        CheckOutOfOrderKeepsStatus(State());
        CheckOutOfOrder();
        if ackCounter == totalPackets {
          return -2;
        }
        return 0;
      } else {
        outOfOrder := outOfOrder + {e.word};
        return 0;
      }
    }

    /** The send loop, fed with what each `recvfrom` returns, until it blocks for want of more. */
    method SendFile(events: seq<Spec.Event>)
      requires src.file != [] && State() == Spec.Startup(src) && sent == []
      modifies this
      ensures (State(), sent) == Spec.Serve(DEPLOYED, src, events)
      ensures FullWindow(src, State())
    {
      hide Spec.Serve, Spec.FillWindow, Spec.Turn, Spec.ReSend, Spec.RecvAck, Spec.Conserved, Spec.Settled;
      hide FullWindow;
      ServeNothing(src);
      LoopEnds(src, events);
      var i := 0;
      assert events[..0] == [];
      assert sent + Spec.FillWindow(DEPLOYED, src, State()).1 == Spec.FillWindow(DEPLOYED, src, State()).1;
      while receiving && !exited
        invariant i <= |events| && seqNum <= 10
        invariant receiving && !exited ==>
                    Spec.Serve(DEPLOYED, src, events[..i])
                    == (Spec.FillWindow(DEPLOYED, src, State()).0, sent + Spec.FillWindow(DEPLOYED, src, State()).1)
        invariant !(receiving && !exited) ==> (State(), sent) == Spec.Serve(DEPLOYED, src, events[..i])
        decreases |events| - i, receiving && !exited
      {
        FillWindow();
        Spec.ServeConserved(DEPLOYED, src, events[..i]);
        if i == |events| {
          assert events[..i] == events;
          return;
        }
        assert Spec.Serve(DEPLOYED, src, events[..i]) == (State(), sent);
        ServeNext(src, events, i);
        ghost var s, out := State(), sent;
        var code := RecvAck(events[i]);
        if code == -2 {
          receiving := false;
        }
        if code == -1 {
          ReSend();
        }
        TurnFromHere(src, s, events[i], State(), sent, out);
        i := i + 1;
      }
      Spec.ServeStopped(DEPLOYED, src, events, i);
    }
  }

  /** The packet with index `i`, byte by byte. */
  ghost predicate IsPacket(src: Source, pkt: Packet, i: nat) {
    && pkt.seqNum == i % 10 + 1
    && |pkt.data| == 1000
    && forall k | 0 <= k < 1000 ::
         pkt.data[k] == if 1000 * i + k < |src.file| then src.file[1000 * i + k] else src.junk[k]
  }

  /** The window holds packets in order, from the oldest one not acknowledged. */
  ghost predicate WindowHolds(src: Source, window: seq<Packet>, acknowledged: nat) {
    forall k | 0 <= k < |window| :: IsPacket(src, window[k], acknowledged + k)
  }

  /** The packets outstanding are the next five of the file, or what is left of it. */
  ghost predicate FullWindow(src: Source, s: Spec.ServerState) {
    && s.packetsInMem == Min((|src.file| + 999) / 1000, s.ackCounter + 5)
    && |s.windowQueue| == s.packetsInMem - s.ackCounter
    && WindowHolds(src, s.windowQueue, s.ackCounter)
  }

  lemma PacketIs(src: Source, i: nat)
    ensures IsPacket(src, src.PacketAt(DEPLOYED, i), i)
  {
    hide SeqOf;
    DeployedNumbers(i);
    src.PacketBytes(DEPLOYED, i);
  }

  lemma NextPacket(src: Source, s: Spec.ServerState)
    requires Spec.Conserved(DEPLOYED, src, s) && s.packetsInMem < s.totalPackets
    ensures var pushed := Spec.PushNext(DEPLOYED, src, s);
      IsPacket(src, pushed.windowQueue[|s.windowQueue|], s.packetsInMem)
  {
    hide SeqOf;
    CounterStep(DEPLOYED, s.packetsInMem);
    src.ReadPosition(s.packetsInMem);
    PacketIs(src, s.packetsInMem);
  }

  lemma WindowIs(src: Source, s: Spec.ServerState)
    requires Spec.Conserved(DEPLOYED, src, s)
    ensures WindowHolds(src, s.windowQueue, s.ackCounter)
  {
    hide SeqOf, Source.PacketAt, IsPacket;
    forall k | 0 <= k < |s.windowQueue|
      ensures IsPacket(src, s.windowQueue[k], s.ackCounter + k)
    {
      PacketIs(src, s.ackCounter + k);
    }
  }

  lemma FilledWindow(src: Source, s: Spec.ServerState)
    ensures Spec.Conserved(DEPLOYED, src, s) ==> FullWindow(src, Spec.FillWindow(DEPLOYED, src, s).0)
  {
    hide Spec.FillWindow, WindowHolds;
    if Spec.Conserved(DEPLOYED, src, s) {
      Spec.FillConserved(DEPLOYED, src, s);
      src.PacketCount();
      WindowIs(src, Spec.FillWindow(DEPLOYED, src, s).0);
    }
  }

  lemma LoopEnds(src: Source, events: seq<Spec.Event>)
    requires src.file != []
    ensures FullWindow(src, Spec.Serve(DEPLOYED, src, events).0)
  {
    hide Spec.Serve, WindowHolds;
    Spec.ServeConserved(DEPLOYED, src, events);
    src.PacketCount();
    WindowIs(src, Spec.Serve(DEPLOYED, src, events).0);
  }

  lemma FillStep(src: Source, s: Spec.ServerState, pkt: Packet, rest: seq<Packet>)
    requires |s.windowQueue| < 5 && s.packetsInMem < s.totalPackets
    requires pkt == Spec.PushNext(DEPLOYED, src, s).windowQueue[|s.windowQueue|]
    requires rest == Spec.FillWindow(DEPLOYED, src, Spec.PushNext(DEPLOYED, src, s)).1
    ensures Spec.FillWindow(DEPLOYED, src, s)
         == (Spec.FillWindow(DEPLOYED, src, Spec.PushNext(DEPLOYED, src, s)).0, [pkt] + rest)
  {
  }

  lemma CheckOutOfOrderKeepsStatus(s: Spec.ServerState)
    ensures Spec.CheckOutOfOrder(s).status == s.status
    ensures Spec.CheckOutOfOrder(s).totalPackets == s.totalPackets
    ensures Spec.CheckOutOfOrder(s).ackCounter >= s.ackCounter
    decreases |s.windowQueue|
  {
  }

  lemma ServeNothing(src: Source)
    ensures Spec.Serve(DEPLOYED, src, []) == Spec.FillWindow(DEPLOYED, src, Spec.Startup(src))
  {
  }

  lemma ServeNext(src: Source, events: seq<Spec.Event>, i: nat)
    requires i < |events|
    ensures var (s, sent) := Spec.Serve(DEPLOYED, src, events[..i]);
      var (s', more) := Spec.Turn(DEPLOYED, src, s, events[i]);
      Spec.Serve(DEPLOYED, src, events[..i + 1]) == (s', sent + more)
  {
    assert events[..i + 1][..i] == events[..i];
  }

  /** What one pass through the loop body after `fillWindow` contributes to a turn. */
  lemma TurnFromHere(src: Source, s: Spec.ServerState, e: Spec.Event, s': Spec.ServerState,
                     sent: seq<Packet>, out: seq<Packet>)
    requires Spec.Blocked(s)
    requires s' == (if e.Timeout? then Spec.ReSend(s) else Spec.RecvAck(DEPLOYED, s, e.word))
    requires sent == out + if e.Timeout? then [s.windowQueue[0]] else []
    ensures var (after, more) := Spec.Turn(DEPLOYED, src, s, e);
      if s'.status.Running? then
        && after == Spec.FillWindow(DEPLOYED, src, s').0
        && out + more == sent + Spec.FillWindow(DEPLOYED, src, s').1
      else
        after == s' && out + more == sent
  {
    hide Spec.ReSend, Spec.RecvAck, Spec.FillWindow;
  }
}
