/** The router's Internet checksum (section 1 of RFC 1071) over the bytes that follow the IP header. */
module InternetChecksum {
  import opened Bytes

  /** Where the summed part of a frame begins: after the Ethernet and IP headers. */
  const START := 34

  /** A 16-bit word read from two bytes in network order. */
  function Word16(high: byte, low: byte): uint16 {
    0x100 * high + low
  }

  /** A 16-bit word as a little-endian host reads it from memory. */
  function HostWord(first: byte, second: byte): uint16 {
    first + 0x100 * second
  }

  /** How many whole words the loop sums in a buffer of `n` bytes. */
  function WholeWords(n: nat): (r: nat)
    ensures START + 2 * r <= n || r == 0
    ensures n < START + 2 * r + 2
  {
    if n < START then 0 else (n - START) / 2
  }

  /** The words summed: the whole ones, then the last byte of an odd buffer as a high-order byte. */
  function Words(buf: seq<byte>): (r: seq<uint16>)
    ensures |r| == WholeWords(|buf|) + |buf| % 2
  {
    seq(WholeWords(|buf|), k requires 0 <= k < WholeWords(|buf|) => Word16(buf[START + 2 * k], buf[START + 2 * k + 1]))
      + if |buf| % 2 == 1 then [Word16(buf[|buf| - 1], 0)] else []
  }

  function Sum(words: seq<uint16>): nat {
    if words == [] then 0 else Sum(words[..|words| - 1]) + words[|words| - 1]
  }

  /** The residue of a sum modulo 0xffff, with 0xffff standing for 0. */
  function Residue(n: nat): (r: uint16)
    ensures 1 <= r
  {
    if n % 0xffff == 0 then 0xffff else n % 0xffff
  }

  /** The value `checksum` returns, as the host reads it. */
  function ChecksumOf(buf: seq<byte>): uint16 {
    Swap16(0xffff - Residue(Sum(Words(buf))))
  }

  /** Adding a word to an accumulator and folding the carry keeps it the residue of the sum. */
  lemma FoldStep(n: nat, word: uint16)
    ensures var acc := Residue(n) + word;
      Residue(n + word) == if acc > 0xffff then acc - 0xffff else acc
  {
    var base, r := ResidueQuotient(n), Residue(n);
    var acc := r + word;
    if acc > 0xffff {
      ResidueOf(n + word, base + 1, acc - 0xffff);
    } else {
      ResidueOf(n + word, base, acc);
    }
  }

  /** A residue is the only number between 1 and 0xffff that differs from `n` by a multiple of 0xffff. */
  lemma ResidueOf(n: nat, q: int, r: uint16)
    requires 1 <= r && n == 0xffff * q + r
    ensures Residue(n) == r
  {
    if r == 0xffff {
      assert n == 0xffff * (q + 1);
    }
  }

  /** What the loop reads for word `k`, and what it reads after an odd buffer's last whole word. */
  lemma WholeWordAt(buf: seq<byte>, k: nat)
    requires k < WholeWords(|buf|)
    ensures k < |Words(buf)| && Swap16(HostWord(buf[START + 2 * k], buf[START + 2 * k + 1])) == Words(buf)[k]
  {
    hide Swap16;
    SwappedWord(buf[START + 2 * k + 1], buf[START + 2 * k]);
  }

  lemma TailWord(buf: seq<byte>)
    requires |buf| % 2 == 1
    ensures |Words(buf)| == WholeWords(|buf|) + 1
    ensures Swap16(HostWord(buf[|buf| - 1], 0)) == Words(buf)[WholeWords(|buf|)]
  {
    hide Swap16;
    SwappedWord(0, buf[|buf| - 1]);
  }

  lemma EmptySum(words: seq<uint16>)
    ensures Residue(Sum(words[..0])) == 0xffff
  {
  }

  /** The loop of `checksum`, over the first `size` bytes of a buffer. */
  method Checksum(resp: array<byte>, size: nat) returns (result: uint16)
    requires size <= resp.Length
    ensures result == ChecksumOf(resp[..size])
    ensures Regular(resp[..size]) ==>
              (ByteSum(resp[..size]) + 0x100 * (result % 0x100) + result / 0x100) % 0xffff == 0 && result != 0xffff
  {
    hide Swap16, Words, Residue, Sum, ByteSum, Regular;
    ghost var buf := resp[..size];
    ghost var words := Words(buf);
    var acc: uint32 := 0xffff;
    var i := START;
    ghost var k := 0;
    EmptySum(words);
    while i + 1 < size
      invariant i == START + 2 * k && k <= WholeWords(size)
      invariant 1 <= acc <= 0xffff && acc == Residue(Sum(words[..k]))
    {
      var word := Swap16(HostWord(resp[i], resp[i + 1]));
      WholeWordAt(buf, k);
      FoldStep(Sum(words[..k]), word);
      SumStep(words, k);
      acc := acc + word;
      if acc > 0xffff {
        acc := acc - 0xffff;
      }
      i := i + 2;
      k := k + 1;
    }
    if size % 2 == 1 {
      var word := Swap16(HostWord(resp[size - 1], 0));
      TailWord(buf);
      FoldStep(Sum(words[..k]), word);
      SumStep(words, k);
      acc := acc + word;
      if acc > 0xffff {
        acc := acc - 0xffff;
      }
      k := k + 1;
    }
    assert words[..k] == words;
    assert (0xffff_ffff - acc) % 0x1_0000 == 0xffff - acc;
    result := Swap16((0xffff_ffff - acc) % 0x1_0000);
    Completes(buf);
  }

  lemma SumStep(words: seq<uint16>, k: nat)
    requires k < |words|
    ensures Sum(words[..k + 1]) == Sum(words[..k]) + words[k]
  {
    assert words[..k + 1][..k] == words[..k];
  }

  /** A buffer verifies exactly if its words sum to a multiple of 0xffff. */
  lemma VerifiesIff(buf: seq<byte>)
    ensures ChecksumOf(buf) == 0 <==> Sum(Words(buf)) % 0xffff == 0
  {
  }

  lemma {:induction false} SumUpdate(words: seq<uint16>, k: nat, value: uint16)
    requires k < |words|
    ensures Sum(words[k := value]) == Sum(words) - words[k] + value
    decreases |words|
  {
    var last := |words| - 1;
    var updated := words[k := value];
    if k == last {
      assert updated[..last] == words[..last];
    } else {
      assert updated[..last] == words[..last][k := value];
      SumUpdate(words[..last], k, value);
    }
  }

  /** A 16-bit value as a little-endian host stores it at `offset`. */
  function Stored(buf: seq<byte>, offset: nat, value: uint16): seq<byte>
    requires offset + 2 <= |buf|
  {
    buf[offset := value % 0x100][offset + 1 := value / 0x100]
  }

  lemma StoredWords(buf: seq<byte>, offset: nat, value: uint16)
    requires START <= offset && offset % 2 == 0 && offset + 2 <= |buf|
    ensures var k := (offset - START) / 2;
      && k < WholeWords(|buf|)
      && Words(buf)[k] == Word16(buf[offset], buf[offset + 1])
      && Words(Stored(buf, offset, value)) == Words(buf)[k := Swap16(value)]
  {
    hide Swap16, Word16, Words, Stored;
    var k := (offset - START) / 2;
    assert offset == START + 2 * k && k < WholeWords(|buf|);
    var after := Stored(buf, offset, value);
    StoredBytes(buf, offset, value);
    WordAt(buf, k);
    forall j | 0 <= j < |Words(buf)|
      ensures Words(after)[j] == Words(buf)[k := Swap16(value)][j]
    {
      WordAt(buf, j);
      WordAt(after, j);
    }
  }

  lemma WordAt(buf: seq<byte>, k: nat)
    requires k < |Words(buf)|
    ensures k < WholeWords(|buf|) ==> Words(buf)[k] == Word16(buf[START + 2 * k], buf[START + 2 * k + 1])
    ensures k >= WholeWords(|buf|) ==> |buf| % 2 == 1 && Words(buf)[k] == Word16(buf[|buf| - 1], 0)
  {
    hide Word16;
  }

  lemma StoredBytes(buf: seq<byte>, offset: nat, value: uint16)
    requires offset + 2 <= |buf|
    ensures var after := Stored(buf, offset, value);
      && |after| == |buf|
      && Word16(after[offset], after[offset + 1]) == Swap16(value)
      && forall i | 0 <= i < |buf| && i != offset && i != offset + 1 :: after[i] == buf[i]
  {
  }

  /**
   * Insert, then verify: with the checksum field zeroed, the value returned is the one value that,
   * stored there, makes the buffer verify. If it is 0 the other encoding of zero, 0xffff, does too.
   */
  lemma StoredValueVerifiesIff(buf: seq<byte>, offset: nat, value: uint16)
    requires START <= offset && offset % 2 == 0 && offset + 2 <= |buf|
    requires buf[offset] == 0 && buf[offset + 1] == 0
    ensures ChecksumOf(Stored(buf, offset, value)) == 0
       <==> value == ChecksumOf(buf) || (ChecksumOf(buf) == 0 && value == 0xffff)
  {
    hide Swap16, Words, Residue, Stored, Sum;
    var sum, sum' := Sum(Words(buf)), Sum(Words(Stored(buf, offset, value)));
    StoredSum(buf, offset, value);
    VerifiesIff(Stored(buf, offset, value));
    CompletesIff(sum, Swap16(value));
    assert (sum + Swap16(value)) % 0xffff == 0 <==> sum' % 0xffff == 0;
    var missing: uint16 := 0xffff - Residue(sum);
    SwapFacts(missing);
    SwapInjective(value, Swap16(missing));
    SwapInjective(Swap16(missing), 0);
    SwapInjective(value, 0xffff);
    SwapConstants();
  }

  lemma StoredSum(buf: seq<byte>, offset: nat, value: uint16)
    requires START <= offset && offset % 2 == 0 && offset + 2 <= |buf|
    requires buf[offset] == 0 && buf[offset + 1] == 0
    ensures Sum(Words(Stored(buf, offset, value))) == Sum(Words(buf)) + Swap16(value)
  {
    hide Swap16, Words, Stored, Sum;
    StoredWords(buf, offset, value);
    SumUpdate(Words(buf), (offset - START) / 2, Swap16(value));
  }

  lemma SwapConstants()
    ensures Swap16(0) == 0 && Swap16(0xffff) == 0xffff
  {
  }

  lemma CompletesIff(sum: nat, word: uint16)
    ensures (sum + word) % 0xffff == 0
       <==> word == 0xffff - Residue(sum) || (Residue(sum) == 0xffff && word == 0xffff)
  {
    FoldStep(sum, word);
  }

  /** Storing the returned value in the zeroed field makes the buffer verify. */
  lemma InsertThenVerify(buf: seq<byte>, offset: nat)
    requires START <= offset && offset % 2 == 0 && offset + 2 <= |buf|
    requires buf[offset] == 0 && buf[offset + 1] == 0
    ensures ChecksumOf(Stored(buf, offset, ChecksumOf(buf))) == 0
  {
    StoredValueVerifiesIff(buf, offset, ChecksumOf(buf));
  }

  /** Two buffers of one length whose summed words differ in word `k` and nowhere else. */
  predicate DifferInOneWord(buf: seq<byte>, buf': seq<byte>, k: nat) {
    && |buf| == |buf'|
    && k < |Words(buf)|
    && Words(buf)[k] != Words(buf')[k]
    && forall j | 0 <= j < |Words(buf)| && j != k :: Words(buf)[j] == Words(buf')[j]
  }

  /** A change to one word goes unnoticed exactly if it exchanges the two encodings of zero. */
  lemma ChangeUndetectedIff(buf: seq<byte>, buf': seq<byte>, k: nat)
    requires DifferInOneWord(buf, buf', k)
    ensures ChecksumOf(buf) == ChecksumOf(buf') <==> {Words(buf)[k], Words(buf')[k]} == {0, 0xffff}
  {
    hide Swap16, Words, Residue, Sum;
    var a, b := Words(buf)[k], Words(buf')[k];
    var rest := Sum(Words(buf)[k := 0]);
    assert Words(buf') == Words(buf)[k := b];
    SumUpdate(Words(buf), k, b);
    SumUpdate(Words(buf), k, 0);
    SwapInjective(0xffff - Residue(rest + a), 0xffff - Residue(rest + b));
    SameResidueIff(rest, a, b);
    if {a, b} == {0, 0xffff} {
      assert a in {0, 0xffff} && b in {0, 0xffff};
    }
  }

  lemma SameResidueIff(n: nat, a: uint16, b: uint16)
    ensures Residue(n + a) == Residue(n + b) <==> a == b || (a == 0 && b == 0xffff) || (a == 0xffff && b == 0)
  {
    FoldStep(n, a);
    FoldStep(n, b);
  }

  /** Swapping bytes undoes itself, multiplies by 0x100 modulo 0xffff, and commutes with complement. */
  lemma SwapFacts(w: uint16)
    ensures Swap16(Swap16(w)) == w
    ensures var i: int := w; Swap16(w) as int + 0xffff * (i / 0x100) == 0x100 * i
    ensures Swap16(0xffff - w) == 0xffff - Swap16(w)
  {
    var high, low := w / 0x100, w % 0x100;
    assert w == 0x100 * high + low;
    assert 0xffff - w == 0x100 * (0xff - high) + (0xff - low);
    assert (0xffff - w) % 0x100 == 0xff - low && (0xffff - w) / 0x100 == 0xff - high;
  }

  lemma SwapInjective(a: uint16, b: uint16)
    ensures Swap16(a) == Swap16(b) <==> a == b
  {
    SwapFacts(a);
    SwapFacts(b);
  }

  // ---------------------------------------------------------------------------------------------
  // The same without words: which bytes count, and with what weight
  // ---------------------------------------------------------------------------------------------

  /** The bytes from position 34 on, those at even positions as high-order bytes. */
  function ByteSum(buf: seq<byte>): nat {
    if |buf| <= 34 then 0 else
    var last: nat := buf[|buf| - 1];
    ByteSum(buf[..|buf| - 1]) + if |buf| % 2 == 1 then 0x100 * last else last
  }

  /** The loop reads what it is meant to read; a shorter buffer of odd length is the exception. */
  predicate Regular(buf: seq<byte>) {
    |buf| % 2 == 0 || |buf| > 34
  }

  lemma {:induction false} SumIsByteSum(buf: seq<byte>)
    requires Regular(buf)
    ensures Sum(Words(buf)) == ByteSum(buf)
    decreases |buf|
  {
    hide Word16;
    var n := |buf|;
    if n <= 34 {
      assert Words(buf) == [];
    } else {
      var shorter := if n % 2 == 1 then buf[..n - 1] else buf[..n - 2];
      var last := if n % 2 == 1 then Word16(buf[n - 1], 0) else Word16(buf[n - 2], buf[n - 1]);
      LastWord(buf, shorter, last);
      assert (Words(shorter) + [last])[..|Words(shorter)|] == Words(shorter);
      SumIsByteSum(shorter);
      LastBytes(buf, shorter, last);
    }
  }

  lemma LastWord(buf: seq<byte>, shorter: seq<byte>, last: uint16)
    requires |buf| > 34
    requires |buf| % 2 == 1 ==> shorter == buf[..|buf| - 1] && last == Word16(buf[|buf| - 1], 0)
    requires |buf| % 2 == 0 ==> shorter == buf[..|buf| - 2] && last == Word16(buf[|buf| - 2], buf[|buf| - 1])
    ensures Words(buf) == Words(shorter) + [last]
  {
    hide Word16, Words;
    var n := |buf|;
    assert WholeWords(n) == (n - 34) / 2;
    forall k | 0 <= k < |Words(buf)|
      ensures Words(buf)[k] == (Words(shorter) + [last])[k]
    {
      WordAt(buf, k);
      if k < |Words(shorter)| {
        WordAt(shorter, k);
      }
    }
  }

  lemma LastBytes(buf: seq<byte>, shorter: seq<byte>, last: uint16)
    requires |buf| > 34
    requires |buf| % 2 == 1 ==> shorter == buf[..|buf| - 1] && last == Word16(buf[|buf| - 1], 0)
    requires |buf| % 2 == 0 ==> shorter == buf[..|buf| - 2] && last == Word16(buf[|buf| - 2], buf[|buf| - 1])
    ensures ByteSum(buf) == ByteSum(shorter) + last
  {
    hide ByteSum;
    LastByte(buf);
    if |buf| % 2 == 0 {
      var most := buf[..|buf| - 1];
      assert most[..|buf| - 2] == shorter && most[|buf| - 2] == buf[|buf| - 2];
      LastByte(most);
    }
  }

  lemma LastByte(buf: seq<byte>)
    requires |buf| > 34
    ensures var last: nat := buf[|buf| - 1];
      ByteSum(buf) == ByteSum(buf[..|buf| - 1]) + if |buf| % 2 == 1 then 0x100 * last else last
  {
  }

  /**
   * The result, as the two bytes that are put into the frame: what completes the bytes from position 34
   * on to a multiple of 0xffff, and of the two encodings of zero always the first.
   */
  lemma ChecksumIff(buf: seq<byte>, value: uint16)
    requires Regular(buf)
    ensures value == ChecksumOf(buf)
       <==> (ByteSum(buf) + 0x100 * (value % 0x100) + value / 0x100) % 0xffff == 0 && value != 0xffff
  {
    hide Words, Residue, Sum, ByteSum;
    SumIsByteSum(buf);
    var sum := Sum(Words(buf));
    SwapDigits(value);
    assert sum + Swap16(value) == ByteSum(buf) + 0x100 * (value % 0x100) + value / 0x100;
    SwappedChecksum(sum, value);
  }

  lemma Completes(buf: seq<byte>)
    ensures var value := ChecksumOf(buf);
      Regular(buf) ==>
        (ByteSum(buf) + 0x100 * (value % 0x100) + value / 0x100) % 0xffff == 0 && value != 0xffff
  {
    hide ChecksumOf, ByteSum;
    if Regular(buf) {
      ChecksumIff(buf, ChecksumOf(buf));
    }
  }

  lemma SwappedChecksum(sum: nat, value: uint16)
    ensures value == Swap16(0xffff - Residue(sum)) <==> (sum + Swap16(value)) % 0xffff == 0 && value != 0xffff
  {
    hide Swap16, Residue;
    var missing: uint16 := 0xffff - Residue(sum);
    CompletesIff(sum, Swap16(value));
    SwapFacts(missing);
    SwapInjective(value, Swap16(missing));
    SwapInjective(value, 0xffff);
    SwapConstants();
  }

  /** A short buffer of odd length: its last byte counts, wherever it is. */
  lemma ShortOddIff(buf: seq<byte>, value: uint16)
    requires !Regular(buf)
    ensures value == ChecksumOf(buf)
       <==> (0x100 * buf[|buf| - 1] + 0x100 * (value % 0x100) + value / 0x100) % 0xffff == 0 && value != 0xffff
  {
    hide Residue;
    var words := Words(buf);
    var last: int := buf[|buf| - 1];
    assert words == [Word16(buf[|buf| - 1], 0)] && words[..0] == [];
    assert Sum(words[..0]) == 0 && Sum(words) == 0x100 * last;
    SwapDigits(value);
    SwappedChecksum(Sum(words), value);
  }

  lemma {:induction false} SameBytesSum(buf: seq<byte>, buf': seq<byte>)
    requires |buf| == |buf'| && forall i | 34 <= i < |buf| :: buf[i] == buf'[i]
    ensures ByteSum(buf) == ByteSum(buf')
    decreases |buf|
  {
    if |buf| > 34 {
      SameBytesSum(buf[..|buf| - 1], buf'[..|buf| - 1]);
    }
  }

  /** The headers ahead of position 34 do not matter. */
  lemma HeadersIgnored(buf: seq<byte>, buf': seq<byte>)
    requires |buf| == |buf'| && (|buf| % 2 == 0 || |buf| > 34)
    requires forall i | 34 <= i < |buf| :: buf[i] == buf'[i]
    ensures ChecksumOf(buf) == ChecksumOf(buf')
  {
    hide Words, Residue, Sum, ByteSum, Swap16;
    SumIsByteSum(buf);
    SumIsByteSum(buf');
    SameBytesSum(buf, buf');
  }

  /** Two bytes at an even position, put in the place of others. */
  function Replaced(buf: seq<byte>, offset: nat, high: byte, low: byte): seq<byte>
    requires offset + 2 <= |buf|
  {
    buf[offset := high][offset + 1 := low]
  }

  lemma {:induction false} ReplacedSum(buf: seq<byte>, offset: nat, high: byte, low: byte)
    requires offset + 2 <= |buf| && offset % 2 == 0 && 34 <= offset
    ensures ByteSum(Replaced(buf, offset, high, low))
         == ByteSum(buf) + 0x100 * (high - buf[offset]) + low - buf[offset + 1]
    decreases |buf|
  {
    var n, after := |buf|, Replaced(buf, offset, high, low);
    if offset + 2 == n {
      assert after[..n - 1][..n - 2] == buf[..n - 2] == buf[..n - 1][..n - 2];
    } else {
      assert after[..n - 1] == Replaced(buf[..n - 1], offset, high, low);
      ReplacedSum(buf[..n - 1], offset, high, low);
    }
  }

  /**
   * Which changes of two adjacent bytes go unnoticed: those ahead of position 34, and behind it only
   * the exchange of the two encodings of zero.
   */
  lemma ReplacementUnnoticedIff(buf: seq<byte>, offset: nat, high: byte, low: byte)
    requires offset + 2 <= |buf| && offset % 2 == 0 && (|buf| % 2 == 0 || |buf| > 34)
    ensures var before, after := Word16(buf[offset], buf[offset + 1]), Word16(high, low);
      (ChecksumOf(Replaced(buf, offset, high, low)) == ChecksumOf(buf))
        <==> offset < 34 || before == after || {before, after} == {0, 0xffff}
  {
    hide Words, Residue, Sum, ByteSum, Swap16, Word16, Replaced;
    var changed := Replaced(buf, offset, high, low);
    ReplacedBytes(buf, offset, high, low);
    if offset < 34 {
      HeadersIgnored(buf, changed);
    } else {
      SumIsByteSum(buf);
      SumIsByteSum(changed);
      ReplacedWord(buf, offset, high, low);
      SameResultIff(ByteSum(buf), ByteSum(changed), Word16(buf[offset], buf[offset + 1]), Word16(high, low));
    }
  }

  lemma ReplacedBytes(buf: seq<byte>, offset: nat, high: byte, low: byte)
    requires offset + 2 <= |buf|
    ensures var after := Replaced(buf, offset, high, low);
      |after| == |buf| && forall i | offset + 2 <= i < |buf| :: after[i] == buf[i]
  {
  }

  lemma ReplacedWord(buf: seq<byte>, offset: nat, high: byte, low: byte)
    requires offset + 2 <= |buf| && offset % 2 == 0 && 34 <= offset
    ensures Word16(buf[offset], buf[offset + 1]) <= ByteSum(buf)
    ensures ByteSum(Replaced(buf, offset, high, low))
         == ByteSum(buf) - Word16(buf[offset], buf[offset + 1]) + Word16(high, low)
  {
    hide ByteSum, Replaced;
    ReplacedSum(buf, offset, high, low);
    ReplacedSum(buf, offset, 0, 0);
  }

  lemma SameResultIff(sum: nat, sum': nat, before: uint16, after: uint16)
    requires before <= sum && sum' == sum - before + after
    ensures Swap16(0xffff - Residue(sum')) == Swap16(0xffff - Residue(sum))
       <==> before == after || {before, after} == {0, 0xffff}
  {
    hide Residue, Swap16;
    SwapInjective(0xffff - Residue(sum'), 0xffff - Residue(sum));
    SameResidueIff(sum - before, before, after);
    if {before, after} == {0, 0xffff} {
      assert before in {0, 0xffff} && after in {0, 0xffff};
    }
  }

  // ---------------------------------------------------------------------------------------------
  // The echo reply
  // ---------------------------------------------------------------------------------------------

  /**
   * The reply the router sends: the checksum is taken over the 98 bytes of its buffer, put into the
   * buffer at position 36, and only then are the 56 bytes of data copied behind the headers.
   */
  function Reply(buffer: seq<byte>, data: seq<byte>): (r: seq<byte>)
    requires |buffer| == 98 && |data| == 56
  {
    Stored(buffer, 36, ChecksumOf(buffer))[..42] + data
  }

  /**
   * The reply's checksum is right if and only if what was in the buffer behind the headers while the
   * checksum was computed adds up to the same as the data, modulo 0xffff.
   */
  lemma ReplyVerifiesIff(buffer: seq<byte>, data: seq<byte>)
    requires |buffer| == 98 && |data| == 56 && buffer[36] == 0 && buffer[37] == 0
    ensures ChecksumOf(Reply(buffer, data)) == 0
       <==> ByteSum(buffer) % 0xffff == ByteSum(buffer[..42] + data) % 0xffff
  {
    hide Words, Residue, Sum, ByteSum, Swap16, ChecksumOf;
    var value, framed := ChecksumOf(buffer), buffer[..42] + data;
    assert Reply(buffer, data) == Stored(framed, 36, value);
    VerifiesIff(Reply(buffer, data));
    StoredSum(framed, 36, value);
    SumIsByteSum(framed);
    ChecksumIff(buffer, value);
    SwapDigits(value);
    SameRemainder(ByteSum(buffer), ByteSum(framed), Swap16(value));
  }

  lemma SwapDigits(value: uint16)
    ensures Swap16(value) == 0x100 * (value % 0x100) + value / 0x100
  {
  }

  lemma SameRemainder(a: nat, b: nat, c: nat)
    requires (a + c) % 0xffff == 0
    ensures (b + c) % 0xffff == 0 <==> a % 0xffff == b % 0xffff
  {
  }

  /** A reply with the data 0, 1, 0, 0, ... out of a buffer that held zeros is wrong. */
  lemma ReplyNotVerified(buffer: seq<byte>, data: seq<byte>)
    requires buffer == seq(98, _ => 0) && data == seq(56, i => if i == 1 then 1 else 0)
    ensures ChecksumOf(Reply(buffer, data)) != 0
  {
    hide Words, Residue, Sum, ByteSum, Swap16, ChecksumOf;
    ReplyVerifiesIff(buffer, data);
    assert buffer[..42] + data == Replaced(buffer, 42, 0, 1);
    ReplacedSum(buffer, 42, 0, 1);
    ZeroSum(buffer);
  }

  lemma {:induction false} ZeroSum(buf: seq<byte>)
    requires forall i | 0 <= i < |buf| :: buf[i] == 0
    ensures ByteSum(buf) == 0
    decreases |buf|
  {
    if |buf| > 34 {
      ZeroSum(buf[..|buf| - 1]);
    }
  }

  // ---------------------------------------------------------------------------------------------
  // Byte-order independence (section 2 of RFC 1071)
  // ---------------------------------------------------------------------------------------------

  /** The words as a little-endian host reads them from memory, without `ntohs`. */
  function NativeWords(buf: seq<byte>): (r: seq<uint16>)
    ensures |r| == |Words(buf)|
  {
    seq(WholeWords(|buf|),
        k requires 0 <= k < WholeWords(|buf|) => HostWord(buf[START + 2 * k], buf[START + 2 * k + 1]))
      + if |buf| % 2 == 1 then [HostWord(buf[|buf| - 1], 0)] else []
  }

  /** The high-order bytes of some words, added up. */
  function HighBytes(words: seq<uint16>): nat {
    if words == [] then 0 else HighBytes(words[..|words| - 1]) + words[|words| - 1] / 0x100
  }

  /** Swapping the bytes of every word multiplies the sum by 0x100 modulo 0xffff. */
  lemma {:induction false} SwappedSum(words: seq<uint16>, swapped: seq<uint16>)
    requires |swapped| == |words| && forall k | 0 <= k < |words| :: swapped[k] == Swap16(words[k])
    ensures Sum(swapped) + 0xffff * HighBytes(words) == 0x100 * Sum(words)
    decreases |words|
  {
    if words != [] {
      var last := |words| - 1;
      SwappedSum(words[..last], swapped[..last]);
      SwapFacts(words[last]);
    }
  }

  /** Leaving out `ntohs` inside the loop and `htons` at its end gives the same stored value. */
  lemma ByteOrderIndependent(buf: seq<byte>)
    ensures 0xffff - Residue(Sum(NativeWords(buf))) == ChecksumOf(buf)
  {
    hide Swap16, Words, NativeWords, Residue, Sum, HighBytes;
    var sum, native, high := Sum(Words(buf)), Sum(NativeWords(buf)), HighBytes(Words(buf));
    NativeAreSwapped(buf);
    SwappedSum(Words(buf), NativeWords(buf));
    var r, q := Residue(sum), ResidueQuotient(sum);
    SwapFacts(r);
    var n: int := r;
    assert native == 0xffff * (0x100 * q + n / 0x100 - high) + Swap16(r);
    ResidueOf(native, 0x100 * q + n / 0x100 - high, Swap16(r));
  }

  function ResidueQuotient(n: nat): (q: int)
    ensures n == 0xffff * q + Residue(n)
  {
    if n % 0xffff == 0 then n / 0xffff - 1 else n / 0xffff
  }

  lemma NativeAreSwapped(buf: seq<byte>)
    ensures forall k | 0 <= k < |Words(buf)| :: NativeWords(buf)[k] == Swap16(Words(buf)[k])
  {
    hide Swap16, Word16, HostWord;
    forall k | 0 <= k < |Words(buf)|
      ensures NativeWords(buf)[k] == Swap16(Words(buf)[k])
    {
      if k < WholeWords(|buf|) {
        SwappedWord(buf[START + 2 * k], buf[START + 2 * k + 1]);
      } else {
        SwappedWord(buf[|buf| - 1], 0);
      }
    }
  }

  lemma SwappedWord(first: byte, second: byte)
    ensures Swap16(Word16(first, second)) == HostWord(first, second)
  {
    var w: int := Word16(first, second);
    DivMod(w, first, second);
  }

  lemma DivMod(n: int, q: int, r: int)
    requires 0 <= r < 0x100 && n == 0x100 * q + r
    ensures n / 0x100 == q && n % 0x100 == r
  {
  }

  /** What the loop without `ntohs` reads. */
  lemma NativeWordAt(buf: seq<byte>, k: nat)
    ensures k < WholeWords(|buf|) ==>
              k < |NativeWords(buf)| && HostWord(buf[START + 2 * k], buf[START + 2 * k + 1]) == NativeWords(buf)[k]
    ensures |buf| % 2 == 1 ==>
              |NativeWords(buf)| == WholeWords(|buf|) + 1
              && HostWord(buf[|buf| - 1], 0) == NativeWords(buf)[WholeWords(|buf|)]
  {
  }

  /** The loop of `checksum` without `ntohs` and `htons` returns the same value. */
  method ChecksumUnswapped(resp: array<byte>, size: nat) returns (result: uint16)
    requires size <= resp.Length
    ensures result == ChecksumOf(resp[..size])
    ensures Regular(resp[..size]) ==>
              (ByteSum(resp[..size]) + 0x100 * (result % 0x100) + result / 0x100) % 0xffff == 0 && result != 0xffff
  {
    hide Swap16, Words, NativeWords, Residue, Sum, ByteSum, Regular, ChecksumOf;
    ghost var buf := resp[..size];
    ghost var words := NativeWords(buf);
    var acc: uint32 := 0xffff;
    var i := START;
    ghost var k := 0;
    EmptySum(words);
    while i + 1 < size
      invariant i == START + 2 * k && k <= WholeWords(size)
      invariant 1 <= acc <= 0xffff && acc == Residue(Sum(words[..k]))
    {
      var word := HostWord(resp[i], resp[i + 1]);
      NativeWordAt(buf, k);
      FoldStep(Sum(words[..k]), word);
      SumStep(words, k);
      acc := acc + word;
      if acc > 0xffff {
        acc := acc - 0xffff;
      }
      i := i + 2;
      k := k + 1;
    }
    NativeWordAt(buf, k);
    if size % 2 == 1 {
      var word := HostWord(resp[size - 1], 0);
      FoldStep(Sum(words[..k]), word);
      SumStep(words, k);
      acc := acc + word;
      if acc > 0xffff {
        acc := acc - 0xffff;
      }
      k := k + 1;
    }
    assert words[..k] == words;
    assert (0xffff_ffff - acc) % 0x1_0000 == 0xffff - acc;
    ByteOrderIndependent(buf);
    result := (0xffff_ffff - acc) % 0x1_0000;
    Completes(buf);
  }
}
