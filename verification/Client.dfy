/** The client program: global state updated in place, proved against module `Receiver`. */
module ClientProgram {
  import opened Bytes
  import opened SequenceNumbers
  import opened Wire
  import Spec = Receiver

  class Client {
    var seqNum: uint32
    var totalPackets: nat
    var packetCounter: nat
    var totalBytes: nat
    var bytesWritten: nat
    var windowQueue: seq<uint32>
    var outOfOrder: map<uint32, Packet>
    var written: seq<byte>          // the output file
    var receiving: bool             // false once `exit` was called
    var acks: seq<uint32>           // everything given to the socket

    ghost function State(): Spec.ClientState
      reads this
    {
      Spec.ClientState(seqNum, totalPackets, packetCounter, totalBytes, bytesWritten,
                       windowQueue, outOfOrder, written, receiving)
    }

    /** The start of `main`, once the file size has arrived. */
    constructor (totalBytes: nat)
      ensures forall src: Source | |src.file| == totalBytes :: State() == Spec.Startup(DEPLOYED, src)
      ensures acks == [] && seqNum <= 10
      ensures totalPackets == (totalBytes + 999) / 1000 && windowQueue == [1, 2, 3, 4, 5]
    {
      seqNum, packetCounter, bytesWritten := 0, 0, 0;
      this.totalBytes := totalBytes;
      totalPackets := totalBytes / PAYLOAD_SIZE;
      windowQueue, outOfOrder, written, acks := [], map[], [], [];
      receiving := true;
      new;
      if totalBytes % PAYLOAD_SIZE != 0 {
        totalPackets := totalPackets + 1;
      }
      FillWindow();
    }

    method NextSeq() returns (number: uint32)
      requires seqNum <= 10
      modifies this`seqNum
      ensures number == seqNum == SequenceNumbers.NextSeq(DEPLOYED, old(seqNum)) == old(seqNum) % 10 + 1
    {
      NextSeqIsRemainder(DEPLOYED, seqNum);
      seqNum := seqNum % 10 + 1;
      number := seqNum;
    }

    method FillWindow()
      requires seqNum <= 10
      modifies this`seqNum, this`windowQueue
      ensures seqNum <= 10
      ensures State() == Spec.FillWindow(DEPLOYED, old(State()))
      ensures old(windowQueue) <= windowQueue && (old(|windowQueue|) <= 5 ==> |windowQueue| == 5)
      ensures CountsOn(old(seqNum), windowQueue[old(|windowQueue|)..])
    {
      hide CountsOn, Latest, Spec.FillWindow, SequenceNumbers.NextSeq;
      ghost var last, was, added := seqNum, windowQueue, [];
      CountNothing(last);
      while |windowQueue| < 5
        invariant windowQueue == was + added && (|was| <= 5 ==> |windowQueue| <= 5)
        invariant seqNum <= 10 && CountsOn(last, added) && seqNum == Latest(last, added)
        invariant Spec.FillWindow(DEPLOYED, State()) == Spec.FillWindow(DEPLOYED, old(State()))
        decreases 5 - |windowQueue|
      {
        FillStep(State());
        var number := NextSeq();
        CountStep(last, added, number);
        windowQueue := windowQueue + [number];
        added := added + [number];
      }
      FillStep(State());
      assert windowQueue[|was|..] == added;
    }

    method SendAck(number: uint32)
      modifies this`acks, this`packetCounter, this`receiving
      ensures var (after, out) := Spec.SendAck(DEPLOYED, old(State()), number);
        State() == after && acks == old(acks) + out
      ensures packetCounter == old(packetCounter) + 1
      ensures receiving <==> old(receiving) && packetCounter != totalPackets
      ensures number <= 10 ==>
                acks == old(acks) + seq(if packetCounter == totalPackets then 11 else 1, _ => 0x100_0000 * number)
    {
      hide Swap32;
      var sendSeq := Swap32(number);
      if number <= 10 {
        Swap32OfByte(number);
      }
      acks := acks + [sendSeq];
      assert [sendSeq] == Spec.Copies(sendSeq, 1);
      packetCounter := packetCounter + 1;
      if packetCounter == totalPackets {
        for i := 0 to 10
          modifies this`acks
          invariant acks == old(acks) + Spec.Copies(sendSeq, 1 + i)
        {
          acks := acks + [sendSeq];
          assert Spec.Copies(sendSeq, 1 + i) + [sendSeq] == Spec.Copies(sendSeq, 2 + i);
        }
        receiving := false;
      }
    }

    /** Rotates the whole queue once, looking for a number. */
    method InWindow(number: uint32) returns (found: bool)
      modifies this`windowQueue
      ensures windowQueue == old(windowQueue)
      ensures found <==> number in windowQueue
    {
      found := false;
      var size := |windowQueue|;
      ghost var queue := windowQueue;
      for i := 0 to size
        invariant windowQueue == queue[i..] + queue[..i]
        invariant found <==> number in queue[..i]
      {
        if number == windowQueue[0] {
          found := true;
        }
        windowQueue := windowQueue + [windowQueue[0]];
        windowQueue := windowQueue[1..];
        assert queue[..i + 1] == queue[..i] + [queue[i]];
      }
    }

    /** `fwrite` of the useful part of a packet, and its acknowledgement. */
    method Write(data: Payload, number: uint32)
      requires bytesWritten <= totalBytes
      modifies this`written, this`bytesWritten, this`acks, this`packetCounter, this`receiving
      ensures var (after, out) := Spec.Write(DEPLOYED, old(State()), Packet(number, data));
        State() == after && acks == old(acks) + out
      ensures bytesWritten <= totalBytes
      ensures written == old(written) + data[..Min(1000, totalBytes - old(bytesWritten))]
    {
      var write := if totalBytes - bytesWritten >= PAYLOAD_SIZE then PAYLOAD_SIZE else totalBytes - bytesWritten;
      written := written + data[..write];
      bytesWritten := bytesWritten + write;
      SendAck(number);
    }

    method CheckOutOfOrder()
      requires Spec.Ready(DEPLOYED, State()) && seqNum <= 10 && receiving
      modifies this
      ensures Spec.Ready(DEPLOYED, State()) && seqNum <= 10
      ensures var (after, out) := Spec.CheckOutOfOrder(DEPLOYED, old(State()));
        State() == after && acks == old(acks) + out
      decreases |outOfOrder|
    {
      hide Spec.FillWindow, Spec.SendAck;
      var front := windowQueue[0];
      if front in outOfOrder {
        Write(outOfOrder[front].data, front);
        if !receiving {
          return;
        }
        ghost var before := outOfOrder;
        outOfOrder := outOfOrder - {front};
        assert outOfOrder.Keys == before.Keys - {front};
        windowQueue := windowQueue[1..];
        FillWindow();
        CheckOutOfOrder();
      }
    }

    /** The body of the receive loop for one datagram. */
    method ReceiveOne(pkt: Packet)
      requires Spec.Ready(DEPLOYED, State()) && seqNum <= 10 && receiving
      modifies this
      ensures Spec.Ready(DEPLOYED, State()) && seqNum <= 10
      ensures var (after, out) := Spec.Receive(DEPLOYED, old(State()), pkt);
        State() == after && acks == old(acks) + out
      ensures pkt.seqNum <= 10 && pkt.seqNum != old(windowQueue[0]) ==> acks == old(acks) + [0x100_0000 * pkt.seqNum]
    {
      hide Spec.FillWindow, Spec.SendAck, Spec.CheckOutOfOrder, Swap32;
      if pkt.seqNum == windowQueue[0] {
        Write(pkt.data, pkt.seqNum);
        if !receiving {
          return;
        }
        windowQueue := windowQueue[1..];
        FillWindow();
        CheckOutOfOrder();
      } else {
        acks := acks + [Swap32(pkt.seqNum)];
        if pkt.seqNum <= 10 {
          Swap32OfByte(pkt.seqNum);
        }
        var inside := InWindow(pkt.seqNum);
        if inside {
          if pkt.seqNum in outOfOrder {
            outOfOrder := outOfOrder - {pkt.seqNum};
          }
          outOfOrder := outOfOrder[pkt.seqNum := pkt];
        }
      }
    }

    /** `recvFile`, fed with the datagrams that arrive, until it exits or blocks for want of more. */
    method RecvFile(incoming: seq<Packet>)
      requires Spec.Ready(DEPLOYED, State()) && seqNum <= 10 && receiving
      modifies this
      ensures Spec.Ready(DEPLOYED, State())
      ensures var (after, out) := Spec.ReceiveAll(DEPLOYED, old(State()), incoming);
        State() == after && acks == old(acks) + out
    {
      hide Spec.Receive;
      ghost var start, before := State(), acks;
      var i := 0;
      assert incoming[..0] == [];
      while receiving && i < |incoming|
        invariant i <= |incoming| && seqNum <= 10
        invariant Spec.Ready(DEPLOYED, State())
        invariant State() == Spec.ReceiveAll(DEPLOYED, start, incoming[..i]).0
        invariant acks == before + Spec.ReceiveAll(DEPLOYED, start, incoming[..i]).1
      {
        Spec.ReceiveNext(DEPLOYED, start, incoming, i);
        ReceiveOne(incoming[i]);
        i := i + 1;
      }
      if receiving {
        assert incoming[..i] == incoming;
      } else {
        Spec.ReceiveStopped(DEPLOYED, start, incoming, i);
      }
    }
  }

  /** Numbers that follow `last`, in the cycle from 1 to 10. */
  ghost predicate CountsOn(last: uint32, numbers: seq<uint32>) {
    forall k | 0 <= k < |numbers| :: numbers[k] == (last + k) % 10 + 1
  }

  function Latest(last: uint32, numbers: seq<uint32>): uint32 {
    if numbers == [] then last else numbers[|numbers| - 1]
  }

  lemma CountNothing(last: uint32)
    ensures CountsOn(last, []) && Latest(last, []) == last
  {
  }

  lemma CountStep(last: uint32, numbers: seq<uint32>, number: uint32)
    requires CountsOn(last, numbers) && last <= 10 && number == Latest(last, numbers) % 10 + 1
    ensures CountsOn(last, numbers + [number]) && Latest(last, numbers + [number]) == number
  {
    if numbers != [] {
      NextRemainder(last + (|numbers| - 1));
    }
  }

  lemma NextRemainder(n: nat)
    ensures (n % 10 + 1) % 10 == (n + 1) % 10
  {
    var q, r := n / 10, n % 10;
    if r < 9 {
      RemainderUnique(n + 1, 10, q, r + 1);
    } else {
      RemainderUnique(n + 1, 10, q + 1, 0);
    }
  }

  lemma FillStep(c: Spec.ClientState)
    ensures Spec.FillWindow(DEPLOYED, c)
         == if |c.windowQueue| >= 5 then c else
            var number := SequenceNumbers.NextSeq(DEPLOYED, c.seqNum);
            Spec.FillWindow(DEPLOYED, c.(seqNum := number, windowQueue := c.windowQueue + [number]))
  {
  }
}
