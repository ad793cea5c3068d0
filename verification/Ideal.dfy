/**
 * The same protocol with unbounded packet indices in place of sequence numbers, and without data.
 * Here the window discipline is plain arithmetic; module `Fifo` shows that the programs, which see
 * only sequence numbers, keep in step with it.
 */
module Ideal {
  import opened Bytes
  import opened SequenceNumbers
  import opened Receiver

  datatype IdealState = IdealState(
    retired: nat,           // the server: packets retired ...
    read: nat,              // ... and packets read from the file and sent
    up: bool,               // whether the server is still trying
    next: nat,              // the client: the next packet to write ...
    buffered: set<nat>,     // ... and the packets received ahead of it
    data: seq<nat>,         // packets in flight, oldest first
    acks: seq<nat>)         // acknowledgements in flight, oldest first

  /** What can happen between the two programs. `k` is a position in a channel. */
  datatype Step =
    | TimeOut
    | DeliverData
    | DeliverAck
    | LoseData(k: nat)
    | LoseAck(k: nat)
    | DuplicateData(k: nat)
    | DuplicateAck(k: nat)

  /** Consecutive indices. */
  function Range(from: nat, upto: nat): (r: seq<nat>)
    requires from <= upto
    ensures |r| == upto - from && forall k | 0 <= k < |r| :: r[k] == from + k
  {
    seq(upto - from, k requires 0 <= k => from + k)
  }

  function Lose<T>(channel: seq<T>, k: nat): seq<T> {
    if k < |channel| then channel[..k] + channel[k + 1..] else channel
  }

  function Duplicate<T>(channel: seq<T>, k: nat): seq<T> {
    if k < |channel| then channel[..k + 1] + channel[k..] else channel
  }

  /** Losing and duplicating concern one message and leave the order of the others. */
  lemma LoseAndDuplicate<T>(channel: seq<T>, k: nat)
    ensures k < |channel| ==>
              var lost, twice := Lose(channel, k), Duplicate(channel, k);
              && |lost| == |channel| - 1 && channel == lost[..k] + [channel[k]] + lost[k..]
              && |twice| == |channel| + 1 && twice[k] == twice[k + 1] && Lose(twice, k) == channel
  {
    if k < |channel| {
      var lost, twice := Lose(channel, k), Duplicate(channel, k);
      assert lost[..k] == channel[..k] && lost[k..] == channel[k + 1..];
      assert channel[..k] + [channel[k]] == channel[..k + 1];
      assert twice[..k] == channel[..k] && twice[k + 1..] == channel[k..];
      assert channel[..k] + channel[k..] == channel;
    }
  }

  /** How far a server that has retired `retired` packets has read. */
  function ReadMark(cfg: Config, total: nat, retired: nat): nat {
    if retired + cfg.window <= total then retired + cfg.window else total
  }

  function Initial(cfg: Config, total: nat): IdealState {
    IdealState(0, ReadMark(cfg, total, 0), true, 0, {}, Range(0, ReadMark(cfg, total, 0)), [])
  }

  /** The server's reaction to an acknowledgement. */
  function Retire(retired: nat, a: nat): nat {
    if a == retired then retired + 1 else retired
  }

  /** One step. `quit` says whether the server stops at this timeout. */
  function Apply(cfg: Config, total: nat, u: IdealState, step: Step, quit: bool): IdealState {
    match step
    case TimeOut =>
      if u.up && u.retired < total then u.(data := u.data + [u.retired], up := !quit) else u
    case DeliverData =>
      if u.data == [] then u else
      var rest := u.(data := u.data[1..]);
      if u.next == total then rest else
      var (next, buffered, acks) := Received(cfg, total, u.next, u.buffered, u.data[0]);
      rest.(next := next, buffered := buffered, acks := u.acks + acks)
    case DeliverAck =>
      if u.acks == [] then u else
      var rest := u.(acks := u.acks[1..]);
      if !u.up || u.retired == total then rest else
      var retired := Retire(u.retired, u.acks[0]);
      var read := ReadMark(cfg, total, retired);
      if u.read <= read then
        rest.(retired := retired, read := read, data := u.data + Range(u.read, read))
      else
        rest.(retired := retired)
    case LoseData(k) => u.(data := Lose(u.data, k))
    case LoseAck(k) => u.(acks := Lose(u.acks, k))
    case DuplicateData(k) => u.(data := Duplicate(u.data, k))
    case DuplicateAck(k) => u.(acks := Duplicate(u.acks, k))
  }

  // ---------------------------------------------------------------------------------------------
  // The window discipline, whatever the network does
  // ---------------------------------------------------------------------------------------------

  /** Server and client are never out of step: nothing is retired that was not written. */
  ghost predicate Synchronised(cfg: Config, total: nat, retired: nat, read: nat, next: nat, buffered: set<nat>) {
    && retired <= next <= read == ReadMark(cfg, total, retired)
    && retired <= total
    && forall i <- buffered :: next < i < read
  }

  /** A packet in flight was read by the server. */
  predicate DataInFlight(read: nat, j: nat) {
    j < read
  }

  /** An acknowledgement in flight is for a packet that the client has written or buffered. */
  predicate AckInFlight(next: nat, buffered: set<nat>, a: nat) {
    a < next || a in buffered
  }

  /** Receiving a packet in flight keeps the programs synchronised, and acknowledges only what arrived. */
  lemma ReceivedSynchronised(cfg: Config, total: nat, retired: nat, read: nat, next: nat, buffered: set<nat>, j: nat)
    requires Synchronised(cfg, total, retired, read, next, buffered)
    requires DataInFlight(read, j) && next < total
    ensures var (next', buffered', acks) := Received(cfg, total, next, buffered, j);
      && Synchronised(cfg, total, retired, read, next', buffered')
      && (forall a <- acks :: AckInFlight(next', buffered', a))
      && (forall a: nat | AckInFlight(next, buffered, a) :: AckInFlight(next', buffered', a))
      && j in acks
  {
    hide RunAcks, Drained;
    if j == next {
      DrainedIsMaximalRun(next + 1, buffered);
      var next' := Received(cfg, total, next, buffered, j).0;
      RunAcksMembers(total, next, next');
      assert next' > next + 1 ==> next' - 1 in buffered;
    }
  }

  lemma {:induction false} RunAcksMembers(total: nat, from: nat, upto: nat)
    requires from <= upto
    ensures forall a: nat :: a in RunAcks(total, from, upto) <==> from <= a < upto
    decreases upto - from
  {
    if from < upto {
      var copies := seq(if from + 1 == total then 11 else 1, _ => from);
      assert copies[0] == from;
      RunAcksMembers(total, from + 1, upto);
      assert RunAcks(total, from, upto) == copies + RunAcks(total, from + 1, upto);
    }
  }

  /** An acknowledgement in flight never lets the server overtake the client. */
  lemma RetireSynchronised(cfg: Config, total: nat, retired: nat, read: nat, next: nat, buffered: set<nat>, a: nat)
    requires Synchronised(cfg, total, retired, read, next, buffered)
    requires AckInFlight(next, buffered, a) && retired < total
    ensures var retired' := Retire(retired, a);
      && read <= ReadMark(cfg, total, retired')
      && Synchronised(cfg, total, retired', ReadMark(cfg, total, retired'), next, buffered)
  {
  }

  // ---------------------------------------------------------------------------------------------
  // The order that first-in first-out channels preserve
  // ---------------------------------------------------------------------------------------------

  /** No packet in flight is more than a window behind anything sent before it. */
  ghost predicate DataOrdered(cfg: Config, next: nat, buffered: set<nat>, data: seq<nat>) {
    && (forall k | 0 <= k < |data| :: next <= data[k] + cfg.window)
    && (forall k, b | 0 <= k < |data| && b in buffered :: b < data[k] + cfg.window)
    && (forall k, l | 0 <= k < l < |data| :: data[k] < data[l] + cfg.window)
  }

  /**
   * The server's progress if the acknowledgements in flight were delivered one after the other: it
   * is never more than a window ahead of the acknowledgement it gets, and ends no further than `next`.
   */
  ghost predicate AcksOrdered(cfg: Config, retired: nat, acks: seq<nat>, next: nat)
    decreases |acks|
  {
    if acks == [] then
      retired <= next
    else
      retired <= acks[0] + cfg.window && AcksOrdered(cfg, Retire(retired, acks[0]), acks[1..], next)
  }

  ghost predicate Ordered(cfg: Config, total: nat, u: IdealState) {
    && Synchronised(cfg, total, u.retired, u.read, u.next, u.buffered)
    && (forall k | 0 <= k < |u.data| :: DataInFlight(u.read, u.data[k]))
    && (forall k | 0 <= k < |u.acks| :: AckInFlight(u.next, u.buffered, u.acks[k]))
    && DataOrdered(cfg, u.next, u.buffered, u.data)
    && AcksOrdered(cfg, u.retired, u.acks, u.next)
  }

  lemma {:induction false} AcksOrderedMonotone(cfg: Config, retired: nat, retired': nat, acks: seq<nat>,
                                               next: nat, next': nat)
    requires retired <= retired' && next' <= next
    requires AcksOrdered(cfg, retired', acks, next')
    ensures AcksOrdered(cfg, retired, acks, next)
    decreases |acks|
  {
    if acks != [] {
      AcksOrderedMonotone(cfg, Retire(retired, acks[0]), Retire(retired', acks[0]), acks[1..], next, next');
    }
  }

  lemma {:induction false} AcksOrderedLose(cfg: Config, retired: nat, acks: seq<nat>, next: nat, k: nat)
    requires AcksOrdered(cfg, retired, acks, next)
    ensures AcksOrdered(cfg, retired, Lose(acks, k), next)
    decreases |acks|
  {
    if k < |acks| {
      if k == 0 {
        assert Lose(acks, k) == acks[1..];
        AcksOrderedMonotone(cfg, retired, Retire(retired, acks[0]), acks[1..], next, next);
      } else {
        AcksOrderedLose(cfg, Retire(retired, acks[0]), acks[1..], next, k - 1);
        assert Lose(acks, k)[1..] == Lose(acks[1..], k - 1);
      }
    }
  }

  lemma {:induction false} AcksOrderedDuplicate(cfg: Config, retired: nat, acks: seq<nat>, next: nat, k: nat)
    requires AcksOrdered(cfg, retired, acks, next)
    ensures AcksOrdered(cfg, retired, Duplicate(acks, k), next)
    decreases |acks|
  {
    if k < |acks| {
      var dup := Duplicate(acks, k);
      if k == 0 {
        assert dup[1..] == acks;
        assert dup[0] == acks[0];
        var r := Retire(retired, acks[0]);
        assert AcksOrdered(cfg, r, acks[1..], next);
        assert Retire(r, acks[0]) == r <= acks[0] + cfg.window;
        assert AcksOrdered(cfg, r, acks, next);
      } else {
        AcksOrderedDuplicate(cfg, Retire(retired, acks[0]), acks[1..], next, k - 1);
        assert dup[1..] == Duplicate(acks[1..], k - 1);
      }
    }
  }

  /** A new acknowledgement may be for `next`, which it advances, or for another recent packet. */
  lemma {:induction false} AcksOrderedAppend(cfg: Config, retired: nat, acks: seq<nat>, next: nat, a: nat)
    requires AcksOrdered(cfg, retired, acks, next) && next <= a + cfg.window
    ensures AcksOrdered(cfg, retired, acks + [a], if a == next then next + 1 else next)
    decreases |acks|
  {
    var longer := acks + [a];
    if acks == [] {
      assert longer[1..] == [];
    } else {
      AcksOrderedAppend(cfg, Retire(retired, acks[0]), acks[1..], next, a);
      assert longer[1..] == acks[1..] + [a];
    }
  }

  /** Repeating the acknowledgement of the packet just written. */
  lemma {:induction false} AcksOrderedRepeat(cfg: Config, retired: nat, acks: seq<nat>, next: nat, n: nat)
    requires AcksOrdered(cfg, retired, acks, next + 1)
    ensures AcksOrdered(cfg, retired, acks + seq(n, _ => next), next + 1)
    decreases n
  {
    if n == 0 {
      assert acks + seq(n, _ => next) == acks;
    } else {
      AcksOrderedRepeat(cfg, retired, acks, next, n - 1);
      AcksOrderedAppend(cfg, retired, acks + seq(n - 1, _ => next), next + 1, next);
      assert acks + seq(n, _ => next) == acks + seq(n - 1, _ => next) + [next];
    }
  }

  lemma {:induction false} AcksOrderedRun(cfg: Config, total: nat, retired: nat, acks: seq<nat>, from: nat, upto: nat)
    requires AcksOrdered(cfg, retired, acks, from) && from <= upto
    ensures AcksOrdered(cfg, retired, acks + RunAcks(total, from, upto), upto)
    decreases upto - from
  {
    if from == upto {
      assert acks + RunAcks(total, from, upto) == acks;
    } else {
      var n := if from + 1 == total then 11 else 1;
      var copies := seq(n, _ => from);
      AcksOrderedAppend(cfg, retired, acks, from, from);
      AcksOrderedRepeat(cfg, retired, acks + [from], from, n - 1);
      assert acks + [from] + seq(n - 1, _ => from) == acks + copies;
      AcksOrderedRun(cfg, total, retired, acks + copies, from + 1, upto);
      assert acks + RunAcks(total, from, upto) == acks + copies + RunAcks(total, from + 1, upto);
    }
  }

  lemma InitialOrdered(cfg: Config, total: nat)
    ensures Ordered(cfg, total, Initial(cfg, total))
  {
  }

  /** The age bounds: how old, and how new, a message can be when a first-in first-out channel delivers it. */
  lemma DeliveryBounds(cfg: Config, total: nat, u: IdealState)
    requires Ordered(cfg, total, u)
    ensures u.data != [] ==> u.next <= u.data[0] + cfg.window && u.data[0] < u.next + cfg.window
    ensures u.acks != [] ==> u.retired <= u.acks[0] + cfg.window && u.acks[0] < u.retired + cfg.window
  {
  }

  lemma ReceiveOrdered(cfg: Config, total: nat, u: IdealState, quit: bool)
    requires Ordered(cfg, total, u) && u.data != [] && u.next < total
    ensures Ordered(cfg, total, Apply(cfg, total, u, DeliverData, quit))
  {
    hide RunAcks, Drained, Synchronised, AcksOrdered;
    var j := u.data[0];
    ReceivedSynchronised(cfg, total, u.retired, u.read, u.next, u.buffered, j);
    ReceiveDataOrdered(cfg, total, u.next, u.buffered, u.data);
    ReceiveAcksOrdered(cfg, total, u.retired, u.next, u.buffered, u.acks, j);
  }

  lemma ReceiveDataOrdered(cfg: Config, total: nat, next: nat, buffered: set<nat>, data: seq<nat>)
    requires DataOrdered(cfg, next, buffered, data) && data != []
    ensures var (next', buffered', _) := Received(cfg, total, next, buffered, data[0]);
      DataOrdered(cfg, next', buffered', data[1..])
  {
    hide RunAcks, Drained;
    var (next', buffered', _) := Received(cfg, total, next, buffered, data[0]);
    DrainedIsMaximalRun(next + 1, buffered);
    forall k | 0 <= k < |data| - 1
      ensures next' <= data[1..][k] + cfg.window
    {
      assert data[0] < data[k + 1] + cfg.window;
      if next' > next + 1 {
        assert next' - 1 in buffered;
      }
    }
  }

  lemma ReceiveAcksOrdered(cfg: Config, total: nat, retired: nat, next: nat, buffered: set<nat>, acks: seq<nat>, j: nat)
    requires AcksOrdered(cfg, retired, acks, next) && next <= j + cfg.window
    ensures var (next', _, more) := Received(cfg, total, next, buffered, j);
      AcksOrdered(cfg, retired, acks + more, next')
  {
    hide RunAcks, Drained;
    if j == next {
      DrainedIsMaximalRun(next + 1, buffered);
      AcksOrderedRun(cfg, total, retired, acks, next, Received(cfg, total, next, buffered, j).0);
    } else {
      AcksOrderedAppend(cfg, retired, acks, next, j);
    }
  }

  lemma SendOrdered(cfg: Config, total: nat, retired: nat, read: nat, read': nat,
                    next: nat, buffered: set<nat>, data: seq<nat>, j: nat)
    requires retired <= j <= read' && next <= read <= read' <= retired + cfg.window
    requires forall i <- buffered :: i < read
    requires DataOrdered(cfg, next, buffered, data)
    requires forall k | 0 <= k < |data| :: DataInFlight(read', data[k])
    ensures DataOrdered(cfg, next, buffered, data + [j])
  {
  }

  lemma {:induction false} SendRangeOrdered(cfg: Config, total: nat, retired: nat, read: nat, read': nat,
                                            next: nat, buffered: set<nat>, data: seq<nat>)
    requires retired <= next <= read <= read' <= retired + cfg.window
    requires forall i <- buffered :: i < read
    requires DataOrdered(cfg, next, buffered, data)
    requires forall k | 0 <= k < |data| :: DataInFlight(read, data[k])
    ensures DataOrdered(cfg, next, buffered, data + Range(read, read'))
    decreases read' - read
  {
    if read == read' {
      assert data + Range(read, read') == data;
    } else {
      SendOrdered(cfg, total, retired, read, read', next, buffered, data, read);
      SendRangeOrdered(cfg, total, retired, read + 1, read', next, buffered, data + [read]);
      assert data + Range(read, read') == data + [read] + Range(read + 1, read');
    }
  }

  lemma MarkBounds(cfg: Config, total: nat, u: IdealState)
    requires Synchronised(cfg, total, u.retired, u.read, u.next, u.buffered)
    ensures u.retired <= u.next <= u.read <= u.retired + cfg.window && u.read <= total
    ensures u.retired < total ==> u.retired < u.read
    ensures forall i <- u.buffered :: u.next < i < u.read
  {
  }

  lemma AckOrdered(cfg: Config, total: nat, u: IdealState, quit: bool)
    requires Ordered(cfg, total, u) && u.acks != [] && u.up && u.retired < total
    ensures var u' := Apply(cfg, total, u, DeliverAck, quit);
      && Ordered(cfg, total, u')
      && u.read <= ReadMark(cfg, total, Retire(u.retired, u.acks[0]))
  {
    RetireSynchronised(cfg, total, u.retired, u.read, u.next, u.buffered, u.acks[0]);
    var retired := Retire(u.retired, u.acks[0]);
    SendRangeOrdered(cfg, total, retired, u.read, ReadMark(cfg, total, retired), u.next, u.buffered, u.data);
  }

  lemma DataLossOrdered(cfg: Config, read: nat, next: nat, buffered: set<nat>, data: seq<nat>, k: nat)
    requires DataOrdered(cfg, next, buffered, data)
    requires forall k | 0 <= k < |data| :: DataInFlight(read, data[k])
    ensures DataOrdered(cfg, next, buffered, Lose(data, k))
    ensures forall l | 0 <= l < |Lose(data, k)| :: DataInFlight(read, Lose(data, k)[l])
  {
  }

  lemma DataDuplicateOrdered(cfg: Config, read: nat, next: nat, buffered: set<nat>, data: seq<nat>, k: nat)
    requires DataOrdered(cfg, next, buffered, data)
    requires forall k | 0 <= k < |data| :: DataInFlight(read, data[k])
    ensures DataOrdered(cfg, next, buffered, Duplicate(data, k))
    ensures forall l | 0 <= l < |Duplicate(data, k)| :: DataInFlight(read, Duplicate(data, k)[l])
  {
  }

  lemma TimeOutOrdered(cfg: Config, total: nat, u: IdealState, quit: bool)
    requires Ordered(cfg, total, u)
    ensures Ordered(cfg, total, Apply(cfg, total, u, TimeOut, quit))
  {
    hide Received, Synchronised, AcksOrdered;
    MarkBounds(cfg, total, u);
    if u.up && u.retired < total {
      SendOrdered(cfg, total, u.retired, u.read, u.read, u.next, u.buffered, u.data, u.retired);
    }
  }

  lemma DeliverDataOrdered(cfg: Config, total: nat, u: IdealState, quit: bool)
    requires Ordered(cfg, total, u)
    ensures Ordered(cfg, total, Apply(cfg, total, u, DeliverData, quit))
  {
    hide Received, Synchronised, AcksOrdered;
    MarkBounds(cfg, total, u);
    if u.data != [] {
      if u.next < total {
        ReceiveOrdered(cfg, total, u, quit);
      } else {
        DataLossOrdered(cfg, u.read, u.next, u.buffered, u.data, 0);
        assert Lose(u.data, 0) == u.data[1..];
      }
    }
  }

  lemma DeliverAckOrdered(cfg: Config, total: nat, u: IdealState, quit: bool)
    requires Ordered(cfg, total, u)
    ensures Ordered(cfg, total, Apply(cfg, total, u, DeliverAck, quit))
  {
    hide Received, Synchronised, DataOrdered;
    MarkBounds(cfg, total, u);
    if u.acks != [] {
      if u.up && u.retired < total {
        AckOrdered(cfg, total, u, quit);
      } else {
        AcksOrderedMonotone(cfg, u.retired, Retire(u.retired, u.acks[0]), u.acks[1..], u.next, u.next);
        assert forall l | 0 <= l < |u.acks| - 1 :: u.acks[1..][l] in u.acks;
      }
    }
  }

  lemma ChannelOrdered(cfg: Config, total: nat, u: IdealState, step: Step, quit: bool)
    requires Ordered(cfg, total, u)
    requires step.LoseData? || step.LoseAck? || step.DuplicateData? || step.DuplicateAck?
    ensures Ordered(cfg, total, Apply(cfg, total, u, step, quit))
  {
    hide Received, Synchronised, AcksOrdered, DataOrdered, Lose, Duplicate;
    match step
    case LoseData(k) => DataLossOrdered(cfg, u.read, u.next, u.buffered, u.data, k);
    case DuplicateData(k) => DataDuplicateOrdered(cfg, u.read, u.next, u.buffered, u.data, k);
    case LoseAck(k) =>
      AcksOrderedLose(cfg, u.retired, u.acks, u.next, k);
      ChannelMembers(u.acks, k);
    case DuplicateAck(k) =>
      AcksOrderedDuplicate(cfg, u.retired, u.acks, u.next, k);
      ChannelMembers(u.acks, k);
  }

  lemma ChannelMembers(channel: seq<nat>, k: nat)
    ensures forall l | 0 <= l < |Lose(channel, k)| :: Lose(channel, k)[l] in channel
    ensures forall l | 0 <= l < |Duplicate(channel, k)| :: Duplicate(channel, k)[l] in channel
  {
  }

  /** Every step keeps the window discipline and the channel order, whether or not the server quits. */
  lemma ApplyOrdered(cfg: Config, total: nat, u: IdealState, step: Step, quit: bool)
    requires Ordered(cfg, total, u)
    ensures Ordered(cfg, total, Apply(cfg, total, u, step, quit))
  {
    hide Ordered, Apply;
    match step
    case TimeOut => TimeOutOrdered(cfg, total, u, quit);
    case DeliverData => DeliverDataOrdered(cfg, total, u, quit);
    case DeliverAck => DeliverAckOrdered(cfg, total, u, quit);
    case _ => ChannelOrdered(cfg, total, u, step, quit);
  }
}
