/** The main results for the constants the programs are built with, spelt out in numbers. */
module Deployed {
  import opened Bytes
  import opened SequenceNumbers
  import opened Wire
  import S = Sender
  import R = Receiver
  import F = Fifo
  import U = Unordered
  import A = AgeLimits
  import G = GivingUp
  import P = ServerProgram

  /**
   * Over first-in first-out channels, in every run: the output is the front of the file, 1000 bytes a
   * packet, complete when the client exits or the server reports completion; at most five packets are
   * outstanding, and as many as the file provides.
   */
  lemma Safety(src: Source, steps: seq<F.Step>)
    requires src.file != []
    ensures var server, client := F.Run(DEPLOYED, src, steps).server, F.Run(DEPLOYED, src, steps).client;
      && client.written == src.file[..Min(1000 * client.packetCounter, |src.file|)]
      && (!client.running || server.status.Complete? ==> client.written == src.file)
      && server.ackCounter <= client.packetCounter <= server.packetsInMem
      && server.packetsInMem == Min((|src.file| + 999) / 1000, server.ackCounter + 5)
  {
    hide F.Run, Source.Packets, F.WritesPrefix;
    F.Safety(DEPLOYED, src, steps);
    F.WindowsSynchronised(DEPLOYED, src, steps);
    if F.Run(DEPLOYED, src, steps).server.status.Complete? {
      F.CompletionIsTruthful(DEPLOYED, src, steps);
    }
    src.PacketCount();
  }

  /**
   * In every run: what the server's window holds, number by number and byte by byte, the five numbers
   * the client looks for, and the words on their way back.
   */
  lemma OnTheWire(src: Source, steps: seq<F.Step>)
    requires src.file != []
    ensures var sys, ids := F.Run(DEPLOYED, src, steps), F.Companion(DEPLOYED, src, steps).acks;
      && |sys.server.windowQueue| == sys.server.packetsInMem - sys.server.ackCounter <= 5
      && P.WindowHolds(src, sys.server.windowQueue, sys.server.ackCounter)
      && (sys.client.running ==>
            && |sys.client.windowQueue| == 5
            && forall k | 0 <= k < 5 :: sys.client.windowQueue[k] == (sys.client.packetCounter + k) % 10 + 1)
      && |ids| == |sys.acks|
      && (forall k | 0 <= k < |ids| ::
            sys.acks[k] == 0x100_0000 * (ids[k] % 10 + 1) && ids[k] < sys.server.packetsInMem)
  {
    hide F.Run, F.Companion, Source.Packets, Source.PacketAt, SeqOf, NetworkOrder, P.WindowHolds, R.Buffers;
    F.RunMatches(DEPLOYED, src, steps);
    var sys, u := F.Run(DEPLOYED, src, steps), F.Companion(DEPLOYED, src, steps);
    P.WindowIs(src, sys.server);
    if sys.client.running {
      forall k | 0 <= k < 5
        ensures sys.client.windowQueue[k] == (sys.client.packetCounter + k) % 10 + 1
      {
        DeployedNumbers(sys.client.packetCounter + k);
      }
    }
    forall k | 0 <= k < |u.acks|
      ensures sys.acks[k] == 0x100_0000 * (u.acks[k] % 10 + 1)
    {
      DeployedNumbers(u.acks[k]);
    }
  }

  /** The transfer starts with the first packets of the file, five at most. */
  lemma FirstPackets(src: Source)
    requires src.file != []
    ensures var data := F.Run(DEPLOYED, src, []).data;
      && |data| == Min((|src.file| + 999) / 1000, 5)
      && forall k | 0 <= k < |data| :: P.IsPacket(src, data[k], k)
  {
    hide SeqOf, Source.PacketAt, Source.Packets, S.FillWindow, P.IsPacket;
    src.PacketCount();
    S.FillConserved(DEPLOYED, src, S.Startup(src));
    var data := F.Run(DEPLOYED, src, []).data;
    forall k | 0 <= k < |data|
      ensures P.IsPacket(src, data[k], k)
    {
      assert data[k] == src.PacketAt(DEPLOYED, 0 + k);
      P.PacketIs(src, k);
    }
  }

  /** On a reordering network packets may be at most five places late, acknowledgements at most nine. */
  lemma HowLateIsTooLate(limits: U.Limits)
    ensures (forall src: Source, steps: seq<U.Step> | src.file != [] ::
               A.Correct(src, U.Run(DEPLOYED, src, limits, steps)))
       <==> limits.data <= 5 && limits.acks <= 9
  {
    hide U.Run, A.Correct;
    A.CorrectIffInRange(DEPLOYED, limits);
  }

  /** Giving up means sixteen resends of one packet for files of at most 10000 bytes. */
  lemma GiveUpMeansOnePacketIff(src: Source)
    requires src.file != []
    ensures (forall steps: seq<F.Step> :: F.Run(DEPLOYED, src, steps).server.status.GaveUp? ==>
               G.OnePacket(G.ResendIds(DEPLOYED, src, F.ServerEvents(DEPLOYED, src, steps))))
       <==> |src.file| <= 10000
  {
    hide F.Run, G.ResendIds, G.OnePacket, F.ServerEvents, Source.Packets;
    src.PacketCount();
    G.RunsGiveUpOnOnePacketIff(DEPLOYED, src);
  }
}
