/** Simple files for counterexamples: every packet reads the same, but for the marked ones. */
module MarkedFiles {
  import opened Bytes
  import opened SequenceNumbers
  import opened Wire

  /** A file of `count` packets, all zero but for the first byte of the packets in `marked`. */
  function MarkedFile(count: nat, marked: set<nat>): seq<byte> {
    seq(PAYLOAD_SIZE * count, i requires 0 <= i => if i % PAYLOAD_SIZE == 0 && i / PAYLOAD_SIZE in marked then 1 else 0)
  }

  function MarkedSource(count: nat, marked: set<nat>): Source {
    Source(MarkedFile(count, marked), seq(PAYLOAD_SIZE, _ => 0))
  }

  function MarkedPayload(marked: bool): Payload {
    seq(PAYLOAD_SIZE, i => if i == 0 && marked then 1 else 0)
  }

  lemma MarkedSize(count: nat, marked: set<nat>)
    ensures var src := MarkedSource(count, marked);
      |src.file| == PAYLOAD_SIZE * count && src.Packets() == count
  {
    hide Source.Packets;
    PacketsOf(MarkedSource(count, marked), count);
  }

  lemma PacketsOf(src: Source, count: nat)
    requires |src.file| == PAYLOAD_SIZE * count
    ensures src.Packets() == count
  {
  }

  /** The packets of a marked file: one number, and one of two payloads. */
  lemma MarkedPacketAt(cfg: Config, count: nat, marked: set<nat>, i: nat)
    requires i < count
    ensures MarkedSource(count, marked).PacketAt(cfg, i) == Packet(SeqOf(cfg, i), MarkedPayload(i in marked))
  {
    hide SeqOf;
    var src := MarkedSource(count, marked);
    MarkedSize(count, marked);
    assert src.ReadSize(PAYLOAD_SIZE * i) == PAYLOAD_SIZE;
    var read := src.ReadAt(PAYLOAD_SIZE * i);
    assert read == src.file[PAYLOAD_SIZE * i..PAYLOAD_SIZE * i + PAYLOAD_SIZE];
    forall k | 0 <= k < PAYLOAD_SIZE
      ensures read[k] == MarkedPayload(i in marked)[k]
    {
      assert (PAYLOAD_SIZE * i + k) % PAYLOAD_SIZE == k && (PAYLOAD_SIZE * i + k) / PAYLOAD_SIZE == i;
    }
  }

  /** Files marked differently at packet `i` differ in every prefix that includes packet `i`. */
  lemma MarkedPrefixesDiffer(count: nat, marked: set<nat>, marked': set<nat>, i: nat, n: nat)
    requires i < n <= count && (i in marked <==> i !in marked')
    ensures MarkedSource(count, marked).Prefix(n) != MarkedSource(count, marked').Prefix(n)
  {
    MarkedSize(count, marked);
    MarkedSize(count, marked');
    assert (PAYLOAD_SIZE * i) % PAYLOAD_SIZE == 0 && (PAYLOAD_SIZE * i) / PAYLOAD_SIZE == i;
    assert MarkedSource(count, marked).Prefix(n)[PAYLOAD_SIZE * i]
        != MarkedSource(count, marked').Prefix(n)[PAYLOAD_SIZE * i];
  }

  /**
   * Files marked at 0, and at 0 and at `modulus`, differ in packet `modulus` alone, which in the
   * second reads like packet 0 of the first.
   */
  lemma AliasedPackets(cfg: Config, count: nat)
    requires cfg.modulus < count
    ensures var src, fake := MarkedSource(count, {0}), MarkedSource(count, {0, cfg.modulus});
      && src.Packets() == fake.Packets() == count
      && |src.file| == |fake.file| == PAYLOAD_SIZE * count
      && (forall i: nat | i < count && i != cfg.modulus :: src.PacketAt(cfg, i) == fake.PacketAt(cfg, i))
      && src.PacketAt(cfg, 0) == fake.PacketAt(cfg, cfg.modulus)
  {
    hide SeqOf, MarkedSource, MarkedPayload, Source.PacketAt, Source.Packets;
    MarkedSize(count, {0});
    MarkedSize(count, {0, cfg.modulus});
    var src, fake := MarkedSource(count, {0}), MarkedSource(count, {0, cfg.modulus});
    forall i: nat | i < count && i != cfg.modulus
      ensures src.PacketAt(cfg, i) == fake.PacketAt(cfg, i)
    {
      MarkedPacketAt(cfg, count, {0}, i);
      MarkedPacketAt(cfg, count, {0, cfg.modulus}, i);
    }
    MarkedPacketAt(cfg, count, {0}, 0);
    MarkedPacketAt(cfg, count, {0, cfg.modulus}, cfg.modulus);
    SeqOfPeriodic(cfg, 0);
  }

  /** Packet `modulus` of the file marked at 0 reads like packet 0 of the unmarked file. */
  lemma AliasedFirstPacket(cfg: Config, count: nat)
    requires cfg.modulus < count
    ensures var src, fake := MarkedSource(count, {0}), MarkedSource(count, {});
      && src.Packets() == fake.Packets() == count
      && |src.file| == |fake.file| == PAYLOAD_SIZE * count
      && src.PacketAt(cfg, cfg.modulus) == fake.PacketAt(cfg, 0)
  {
    hide SeqOf, MarkedSource, MarkedPayload, Source.PacketAt, Source.Packets;
    MarkedSize(count, {0});
    MarkedSize(count, {});
    MarkedPacketAt(cfg, count, {0}, cfg.modulus);
    MarkedPacketAt(cfg, count, {}, 0);
    SeqOfPeriodic(cfg, 0);
  }
}
