/**
 * The server's set of early acknowledgements where it is not inert: it does what it is meant for as
 * long as no acknowledgement arrives after its packet has been retired.
 */
module EarlySet {
  import opened Bytes
  import opened SequenceNumbers
  import opened Wire
  import S = Sender
  import I = Ideal

  /** The number `w` stands for packet `i` of the window, which the client has written or buffered. */
  ghost predicate StandsFor(cfg: Config, s: S.ServerState, next: nat, buffered: set<nat>, w: uint32, i: nat) {
    s.ackCounter <= i < s.packetsInMem && w == SeqOf(cfg, i) && I.AckInFlight(next, buffered, i)
  }

  ghost predicate AllStand(cfg: Config, s: S.ServerState, next: nat, buffered: set<nat>) {
    forall w <- s.outOfOrder :: exists i: nat :: StandsFor(cfg, s, next, buffered, w, i)
  }

  /** Every number in the set stands for a packet behind the front that the client has. */
  ghost predicate SetHeld(cfg: Config, s: S.ServerState, next: nat, buffered: set<nat>) {
    AllStand(cfg, s, next, buffered) && SeqOf(cfg, s.ackCounter) !in s.outOfOrder
  }

  lemma EmptyHeld(cfg: Config, s: S.ServerState, next: nat, buffered: set<nat>)
    requires s.outOfOrder == {}
    ensures SetHeld(cfg, s, next, buffered)
  {
  }

  /** More packets read, more packets received: what stood for a packet still does. */
  lemma StillHeld(cfg: Config, s: S.ServerState, s': S.ServerState,
                  next: nat, buffered: set<nat>, next': nat, buffered': set<nat>)
    requires SetHeld(cfg, s, next, buffered)
    requires s'.outOfOrder == s.outOfOrder && s'.ackCounter == s.ackCounter && s.packetsInMem <= s'.packetsInMem
    requires forall a: nat | I.AckInFlight(next, buffered, a) :: I.AckInFlight(next', buffered', a)
    ensures SetHeld(cfg, s', next', buffered')
  {
    hide SeqOf, I.AckInFlight;
    forall w <- s'.outOfOrder
      ensures exists i: nat :: StandsFor(cfg, s', next', buffered', w, i)
    {
      var i: nat :| StandsFor(cfg, s, next, buffered, w, i);
      assert StandsFor(cfg, s', next', buffered', w, i);
    }
  }

  lemma FrontIs(cfg: Config, src: Source, s: S.ServerState)
    requires S.Conserved(cfg, src, s) && s.windowQueue != []
    ensures s.windowQueue[0].seqNum == SeqOf(cfg, s.ackCounter)
    ensures s.ackCounter < s.packetsInMem <= s.ackCounter + cfg.window
  {
    assert s.windowQueue[0] == src.PacketAt(cfg, s.ackCounter + 0);
  }

  /** Taking the front packet's number out of the set, if it is there, and the packet out of the window. */
  lemma PopKeepsStanding(cfg: Config, src: Source, s: S.ServerState, next: nat, buffered: set<nat>)
    requires cfg.window <= cfg.modulus
    requires S.Conserved(cfg, src, s) && s.windowQueue != [] && AllStand(cfg, s, next, buffered)
    ensures AllStand(cfg, S.PopFront(s.(outOfOrder := s.outOfOrder - {SeqOf(cfg, s.ackCounter)})), next, buffered)
    ensures SeqOf(cfg, s.ackCounter) in s.outOfOrder ==> I.AckInFlight(next, buffered, s.ackCounter)
  {
    hide SeqOf, I.AckInFlight, S.Conserved;
    FrontIs(cfg, src, s);
    var front := SeqOf(cfg, s.ackCounter);
    var s1 := S.PopFront(s.(outOfOrder := s.outOfOrder - {front}));
    forall w <- s.outOfOrder
      ensures w == front ==> I.AckInFlight(next, buffered, s.ackCounter)
      ensures w != front ==> exists i: nat :: StandsFor(cfg, s1, next, buffered, w, i)
    {
      var i: nat :| StandsFor(cfg, s, next, buffered, w, i);
      SeqOfDistinguishes(cfg, i, s.ackCounter);
      if w != front {
        assert StandsFor(cfg, s1, next, buffered, w, i);
      }
    }
  }

  /** `checkOutOfOrder` retires only packets the client has, and leaves the set in order. */
  lemma {:induction false} PopsHeld(cfg: Config, src: Source, s: S.ServerState, next: nat, buffered: set<nat>)
    requires cfg.window <= cfg.modulus
    requires S.Conserved(cfg, src, s) && AllStand(cfg, s, next, buffered)
    ensures var s' := S.CheckOutOfOrder(s);
      && AllStand(cfg, s', next, buffered)
      && (s'.windowQueue != [] ==> SeqOf(cfg, s'.ackCounter) !in s'.outOfOrder)
      && forall j: nat | s.ackCounter <= j < s'.ackCounter :: I.AckInFlight(next, buffered, j)
    decreases |s.windowQueue|
  {
    hide SeqOf, I.AckInFlight, S.Conserved, AllStand;
    if s.windowQueue != [] {
      FrontIs(cfg, src, s);
      if s.windowQueue[0].seqNum in s.outOfOrder {
        var s1 := s.(outOfOrder := s.outOfOrder - {s.windowQueue[0].seqNum});
        PopKeepsStanding(cfg, src, s, next, buffered);
        SetUnread(cfg, src, s, s1.outOfOrder);
        S.PopFrontConserved(cfg, src, s1);
        PopsHeld(cfg, src, S.PopFront(s1), next, buffered);
      }
    }
  }

  lemma SetUnread(cfg: Config, src: Source, s: S.ServerState, words: set<uint32>)
    requires S.Conserved(cfg, src, s)
    ensures S.Conserved(cfg, src, s.(outOfOrder := words))
  {
    hide SeqOf, Source.PacketAt, Source.Packets;
  }

  /** With an empty window nothing stands for anything. */
  lemma EmptyWindowEmptySet(cfg: Config, src: Source, s: S.ServerState, next: nat, buffered: set<nat>)
    requires S.Conserved(cfg, src, s) && AllStand(cfg, s, next, buffered) && s.windowQueue == []
    ensures s.outOfOrder == {}
  {
    hide SeqOf;
    assert forall w, i: nat :: !StandsFor(cfg, s, next, buffered, w, i);
  }

  /** The front packet's acknowledgement retires packets the client has, and keeps the set in order. */
  lemma FrontAckHeld(cfg: Config, src: Source, s: S.ServerState, next: nat, buffered: set<nat>)
    requires cfg.window <= cfg.modulus
    requires S.Conserved(cfg, src, s) && S.Settled(cfg, s) && S.Blocked(s) && SetHeld(cfg, s, next, buffered)
    requires I.AckInFlight(next, buffered, s.ackCounter)
    ensures var (s', sent) := S.Turn(cfg, src, s, S.Ack(AckWord(cfg, s.ackCounter)));
      && SetHeld(cfg, s', next, buffered)
      && s.ackCounter <= s'.ackCounter
      && (forall j: nat | s.ackCounter <= j < s'.ackCounter :: I.AckInFlight(next, buffered, j))
      && S.AreConsecutive(cfg, src, sent, s.packetsInMem) && |sent| == s'.packetsInMem - s.packetsInMem
  {
    hide SeqOf, I.AckInFlight, S.CheckOutOfOrder, NetworkOrder, AllStand, Source.ReadAt, Source.Packets;
    var word := AckWord(cfg, s.ackCounter);
    FrontIs(cfg, src, s);
    NetworkOrderInvolutive(cfg, SeqOf(cfg, s.ackCounter));
    assert s.outOfOrder - {SeqOf(cfg, s.ackCounter)} == s.outOfOrder;
    PopKeepsStanding(cfg, src, s, next, buffered);
    S.PopFrontConserved(cfg, src, s);
    PopsHeld(cfg, src, S.PopFront(s), next, buffered);
    S.CheckOutOfOrderConserved(cfg, src, S.PopFront(s));
    S.RecvAckConserved(cfg, src, s, word);
    var s1 := S.RecvAck(cfg, s, word);
    StandSame(cfg, S.CheckOutOfOrder(S.PopFront(s)), s1, next, buffered);
    RefillHeld(cfg, src, s1, next, buffered);
    S.FillConserved(cfg, src, s1);
  }

  lemma StandSame(cfg: Config, s: S.ServerState, s': S.ServerState, next: nat, buffered: set<nat>)
    requires AllStand(cfg, s, next, buffered) && s' == s.(status := s'.status)
    ensures AllStand(cfg, s', next, buffered)
  {
    hide SeqOf, I.AckInFlight;
    assert forall w, i: nat :: StandsFor(cfg, s, next, buffered, w, i) ==> StandsFor(cfg, s', next, buffered, w, i);
  }

  lemma RefillHeld(cfg: Config, src: Source, s: S.ServerState, next: nat, buffered: set<nat>)
    requires S.Conserved(cfg, src, s) && AllStand(cfg, s, next, buffered)
    requires s.windowQueue != [] ==> SeqOf(cfg, s.ackCounter) !in s.outOfOrder
    ensures SetHeld(cfg, s, next, buffered) && SetHeld(cfg, S.FillWindow(cfg, src, s).0, next, buffered)
  {
    hide SeqOf, I.AckInFlight, S.FillWindow, AllStand;
    if s.windowQueue == [] {
      EmptyWindowEmptySet(cfg, src, s, next, buffered);
    }
    S.FillConserved(cfg, src, s);
    StillHeld(cfg, s, S.FillWindow(cfg, src, s).0, next, buffered, next, buffered);
  }

  /** An early acknowledgement joins the set. */
  lemma EarlyAckHeld(cfg: Config, src: Source, s: S.ServerState, next: nat, buffered: set<nat>, a: nat)
    requires cfg.window <= cfg.modulus && !cfg.littleEndian
    requires S.Conserved(cfg, src, s) && S.Settled(cfg, s) && S.Blocked(s) && SetHeld(cfg, s, next, buffered)
    requires s.ackCounter < a < s.packetsInMem && I.AckInFlight(next, buffered, a)
    ensures var (s', sent) := S.Turn(cfg, src, s, S.Ack(AckWord(cfg, a)));
      s' == s.(outOfOrder := s'.outOfOrder) && sent == [] && SetHeld(cfg, s', next, buffered)
  {
    hide SeqOf, I.AckInFlight, Source.Packets, S.Turn, S.AreConsecutive;
    FrontIs(cfg, src, s);
    S.EarlyAckTurn(cfg, src, s, a);
    SeqOfDistinguishes(cfg, a, s.ackCounter);
    var s' := s.(outOfOrder := s.outOfOrder + {SeqOf(cfg, a)});
    forall w <- s'.outOfOrder
      ensures exists i: nat :: StandsFor(cfg, s', next, buffered, w, i)
    {
      if w == SeqOf(cfg, a) {
        assert StandsFor(cfg, s', next, buffered, w, a);
      } else {
        var i: nat :| StandsFor(cfg, s, next, buffered, w, i);
        assert StandsFor(cfg, s', next, buffered, w, i);
      }
    }
  }

  /** A server that retires only packets the client has does not overtake it. */
  lemma RetireHeld(cfg: Config, total: nat, retired: nat, retired': nat, read: nat, next: nat, buffered: set<nat>)
    requires I.Synchronised(cfg, total, retired, read, next, buffered)
    requires retired <= retired' <= total
    requires forall j: nat | retired <= j < retired' :: I.AckInFlight(next, buffered, j)
    ensures read <= I.ReadMark(cfg, total, retired')
    ensures I.Synchronised(cfg, total, retired', I.ReadMark(cfg, total, retired'), next, buffered)
  {
    assert !I.AckInFlight(next, buffered, next);
  }
}
