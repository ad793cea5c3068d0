/** Packets, and how the sender cuts its file into them. */
module Wire {
  import opened Bytes
  import opened SequenceNumbers

  const PAYLOAD_SIZE := 1000

  /** The data portion of a packet, a buffer of fixed size. */
  type Payload = d: seq<byte> | |d| == PAYLOAD_SIZE witness seq(PAYLOAD_SIZE, _ => 0)

  datatype Packet = Packet(seqNum: uint32, data: Payload)

  /**
   * The file being sent, and the bytes an uninitialised packet buffer happens to hold.
   * Reading into such a buffer overwrites only its front.
   */
  datatype Source = Source(file: seq<byte>, junk: Payload) {
    /** The packet count both programs compute from the file size. */
    function Packets(): (n: nat)
      ensures 1000 * n - 1000 < |file| <= 1000 * n
    {
      |file| / PAYLOAD_SIZE + if |file| % PAYLOAD_SIZE != 0 then 1 else 0
    }

    /** `fread(data, 1, PAYLOAD_SIZE, fd)` with the file positioned at `pos`: the number of bytes read ... */
    function ReadSize(pos: nat): (n: nat)
      ensures n <= PAYLOAD_SIZE
    {
      if pos <= |file| then Min(PAYLOAD_SIZE, |file| - pos) else 0
    }

    /** ... and the buffer afterwards. */
    function ReadAt(pos: nat): Payload {
      if pos <= |file| then file[pos..pos + ReadSize(pos)] + junk[ReadSize(pos)..] else junk
    }

    /** The packet with index `i`. */
    function PacketAt(cfg: Config, i: nat): Packet {
      Packet(SeqOf(cfg, i), ReadAt(PAYLOAD_SIZE * i))
    }

    /** What the first `n` packets carry of the file. */
    function Prefix(n: nat): (r: seq<byte>)
      ensures |r| == Min(PAYLOAD_SIZE * n, |file|)
    {
      file[..Min(PAYLOAD_SIZE * n, |file|)]
    }

    /** Every packet but the last is full. */
    lemma PacketCount()
      ensures Packets() == (|file| + 999) / 1000
      ensures file != [] ==> 1000 * (Packets() - 1) < |file| <= 1000 * Packets()
    {
    }

    /** A buffer read at `pos` holds the next bytes of the file, and behind its end what was there. */
    lemma ReadBytes(pos: nat)
      ensures |ReadAt(pos)| == 1000
      ensures forall k | 0 <= k < 1000 :: ReadAt(pos)[k] == if pos + k < |file| then file[pos + k] else junk[k]
    {
    }

    /** The bytes of packet `i`. */
    lemma PacketBytes(cfg: Config, i: nat)
      ensures |PacketAt(cfg, i).data| == 1000
      ensures forall k | 0 <= k < 1000 ::
                PacketAt(cfg, i).data[k] == if 1000 * i + k < |file| then file[1000 * i + k] else junk[k]
    {
      hide SeqOf;
      ReadBytes(1000 * i);
    }

    /** Reading packet after packet keeps the file position at the next packet's first byte. */
    lemma ReadPosition(n: nat)
      requires n < Packets()
      ensures PAYLOAD_SIZE * n < |file|
      ensures PAYLOAD_SIZE * n + ReadSize(PAYLOAD_SIZE * n) == Min(PAYLOAD_SIZE * (n + 1), |file|)
    {
    }

    /** All packets together carry the whole file. */
    lemma PrefixComplete()
      ensures Prefix(Packets()) == file
    {
    }

    /** Appending the useful part of packet `n` to the first `n` packets' bytes. */
    lemma PrefixStep(n: nat)
      requires n < Packets()
      ensures Prefix(n + 1)
           == Prefix(n) + ReadAt(PAYLOAD_SIZE * n)[..Min(PAYLOAD_SIZE, |file| - |Prefix(n)|)]
    {
    }
  }
}
