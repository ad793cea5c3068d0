/** The cyclic sequence numbers that stand for unbounded packet indices on the wire. */
module SequenceNumbers {
  import opened Bytes

  /**
   * The two constants of the protocol, how many packets may be outstanding and how many distinct
   * sequence numbers there are, and the byte order of the hosts. The programs use 5 and 10.
   */
  datatype RawConfig = Config(window: int, modulus: int, littleEndian: bool)
  type Config = c: RawConfig | 1 <= c.window && 1 <= c.modulus < 0x1_0000 witness Config(5, 10, true)

  const DEPLOYED: Config := Config(5, 10, true)

  /** `htonl` and `ntohl` on a host of either byte order. */
  function NetworkOrder(cfg: Config, w: uint32): uint32 {
    if cfg.littleEndian then Swap32(w) else w
  }

  lemma NetworkOrderInvolutive(cfg: Config, w: uint32)
    ensures NetworkOrder(cfg, NetworkOrder(cfg, w)) == w
  {
    Swap32Involutive(w);
  }

  /**
   * The server's set of early acknowledgements cannot do harm: words in network order are no
   * sequence numbers, or there is never a second packet in the window to which one could apply.
   */
  predicate HarmlessSet(cfg: Config) {
    cfg.littleEndian || cfg.window == 1
  }

  /** The configurations under which the transfer works over first-in first-out channels. */
  predicate Sound(cfg: Config) {
    2 * cfg.window <= cfg.modulus && HarmlessSet(cfg)
  }

  /** The sequence number of packet `i`, counting packets from 0. */
  function SeqOf(cfg: Config, i: nat): (r: uint32)
    ensures 1 <= r <= cfg.modulus
    decreases i
  {
    if i < cfg.modulus then i + 1 else SeqOf(cfg, i - cfg.modulus)
  }

  /** One application of `nextSeq`; the counter starts at 0 and wraps to 1. */
  function NextSeq(cfg: Config, last: uint32): (r: uint32)
    ensures 1 <= r <= cfg.modulus
  {
    if last < cfg.modulus then last + 1 else 1
  }

  lemma NextSeqIsRemainder(cfg: Config, last: uint32)
    requires last <= cfg.modulus
    ensures NextSeq(cfg, last) == last % cfg.modulus + 1
  {
    if last < cfg.modulus {
      RemainderSmall(last, cfg.modulus);
    } else {
      RemainderShift(0, cfg.modulus);
    }
  }

  /** The counter value after `i` applications of `nextSeq`. */
  function Counter(cfg: Config, i: nat): uint32 {
    if i == 0 then 0 else SeqOf(cfg, i - 1)
  }

  lemma {:induction false} SeqOfIsRemainder(cfg: Config, i: nat)
    ensures SeqOf(cfg, i) == i % cfg.modulus + 1
    decreases i
  {
    if i >= cfg.modulus {
      SeqOfIsRemainder(cfg, i - cfg.modulus);
      assert i == (i - cfg.modulus) + cfg.modulus;
      RemainderShift(i - cfg.modulus, cfg.modulus);
    } else {
      RemainderSmall(i, cfg.modulus);
    }
  }

  lemma RemainderSmall(i: nat, m: nat)
    requires i < m
    ensures i % m == i
  {
  }

  lemma RemainderShift(i: nat, m: nat)
    requires m > 0
    ensures (i + m) % m == i % m
  {
    var q, r := i / m, i % m;
    assert i + m == (q + 1) * m + r;
    RemainderUnique(i + m, m, q + 1, r);
  }

  lemma RemainderUnique(n: nat, m: nat, q: nat, r: nat)
    requires r < m && n == q * m + r
    ensures n % m == r
  {
    var q', r' := n / m, n % m;
    assert q' * m + r' == q * m + r;
    if q < q' {
      MultipleGap(q, q', m);
    } else if q' < q {
      MultipleGap(q', q, m);
    }
  }

  lemma MultipleGap(a: nat, b: nat, m: nat)
    requires a < b
    ensures a * m + m <= b * m
  {
    if a + 1 < b {
      MultipleGap(a, b - 1, m);
    }
    assert (b - 1) * m + m == b * m;
  }

  /** `nextSeq` enumerates the sequence numbers of packets 0, 1, 2, ... in order. */
  lemma {:induction false} CounterStep(cfg: Config, i: nat)
    ensures NextSeq(cfg, Counter(cfg, i)) == SeqOf(cfg, i)
    decreases i
  {
    if i > cfg.modulus {
      CounterStep(cfg, i - cfg.modulus);
      assert Counter(cfg, i) == Counter(cfg, i - cfg.modulus);
    }
  }

  /** Numbers repeat with period `modulus`, and ... */
  lemma SeqOfPeriodic(cfg: Config, i: nat)
    ensures SeqOf(cfg, i + cfg.modulus) == SeqOf(cfg, i)
  {
    assert i + cfg.modulus - cfg.modulus == i;
  }

  /** ... with no shorter period: two packets fewer than `modulus` apart have different numbers. */
  lemma {:induction false} SeqOfInjective(cfg: Config, i: nat, j: nat)
    requires i < j < i + cfg.modulus
    ensures SeqOf(cfg, i) != SeqOf(cfg, j)
    decreases j
  {
    if i >= cfg.modulus {
      SeqOfInjective(cfg, i - cfg.modulus, j - cfg.modulus);
    }
  }

  /** Packets fewer than `modulus` apart have the same number only if they are the same packet. */
  lemma SeqOfDistinguishes(cfg: Config, i: nat, j: nat)
    requires i < j + cfg.modulus && j < i + cfg.modulus
    ensures SeqOf(cfg, i) == SeqOf(cfg, j) <==> i == j
  {
    if i < j {
      SeqOfInjective(cfg, i, j);
    } else if j < i {
      SeqOfInjective(cfg, j, i);
    }
  }

  /** The acknowledgement word a client puts on the wire for packet `i`. */
  function AckWord(cfg: Config, i: nat): uint32 {
    NetworkOrder(cfg, SeqOf(cfg, i))
  }

  /** What the programs put on the wire: numbers 1 to 10, acknowledged most significant byte first. */
  lemma DeployedNumbers(i: nat)
    ensures SeqOf(DEPLOYED, i) == i % 10 + 1
    ensures AckWord(DEPLOYED, i) == 0x100_0000 * (i % 10 + 1)
  {
    hide Swap32;
    SeqOfIsRemainder(DEPLOYED, i);
    Swap32OfByte(SeqOf(DEPLOYED, i));
  }

  /** On a little-endian host an acknowledgement word is outside the range of sequence numbers. */
  lemma AckWordIsNoNumber(cfg: Config, i: nat)
    requires cfg.littleEndian
    ensures AckWord(cfg, i) > cfg.modulus
  {
    SmallWordSwapped(SeqOf(cfg, i));
  }
}
