/** The receive descriptor ring: host and chip share one index register and 512 buffers, and together
    make a first-in first-out queue of frames. */
module RxRing {
  import opened Bits

  const SLOTS := 512
  const BUF_SIZE := 11478
  const DESC_SIZE := 24
  const HW_FIELD := 0x1_0000  // the chip's write index sits above the low half word
  const IDX_LIMIT := 0x1000
  const LEN_LIMIT := 0x4000

  /** A frame that fits a receive buffer behind its descriptor. */
  type RxFrame = f: seq<byte> | |f| <= BUF_SIZE - DESC_SIZE

  /** A buffer descriptor the host posts for the chip. */
  datatype Posted = Posted(bufSize: nat, total: nat, dma: nat)

  /** Everything host and chip share, and the index each keeps for itself. */
  datatype Ring = Ring(reg: nat, chipWp: nat, rp: nat, bufs: seq<seq<byte>>, posted: seq<Posted>, phys: seq<nat>) {
    predicate Sized() {
      && |bufs| == |posted| == |phys| == SLOTS && chipWp < SLOTS && rp < SLOTS
      && forall i :: 0 <= i < SLOTS ==> |bufs[i]| == BUF_SIZE
    }

    function ChipField(): nat { reg / HW_FIELD % IDX_LIMIT }

    function HostField(): nat { reg % HW_FIELD }
  }

  datatype Polled = Nothing | TooBig | Got(frame: seq<byte>)

  // ----- receive descriptors -----

  function Zeroes(n: nat): (z: seq<byte>)
    ensures |z| == n
  {
    seq(n, _ => 0)
  }

  /** The descriptor the chip writes in front of a frame: its length in the low 14 bits of the first word. */
  function Descriptor(len: nat): (d: seq<byte>)
    ensures |d| == DESC_SIZE
  {
    var w0 := len % LEN_LIMIT;
    [w0 % 256, w0 / 256, 0, 0] + Zeroes(20)
  }

  function PacketLength(buf: seq<byte>): (n: nat)
    requires |buf| >= 4
    ensures n < LEN_LIMIT
  {
    var b0: nat, b1: nat, b2: nat, b3: nat := buf[0], buf[1], buf[2], buf[3];
    (b0 + 256 * b1 + 0x1_0000 * b2 + 0x100_0000 * b3) % LEN_LIMIT
  }

  /** The length is in the low 14 bits; the bytes above do not matter. */
  lemma LengthIs(buf: seq<byte>)
    requires |buf| >= 4
    ensures var b0: nat, b1: nat := buf[0], buf[1]; PacketLength(buf) == b0 + 256 * (b1 % 64)
  {
    var b0: nat, b1: nat, b2: nat, b3: nat := buf[0], buf[1], buf[2], buf[3];
    var q := b1 / 64 + 4 * b2 + 1024 * b3;
    ModUnique(b0 + 256 * b1 + 0x1_0000 * b2 + 0x100_0000 * b3, LEN_LIMIT, q, b0 + 256 * (b1 % 64));
  }

  /** The bytes a host copies out of a buffer; a length beyond the buffer is never written. */
  function Payload(buf: seq<byte>): seq<byte>
    requires |buf| == BUF_SIZE
  {
    var n := PacketLength(buf);
    if DESC_SIZE + n <= BUF_SIZE then buf[DESC_SIZE..DESC_SIZE + n] else buf[DESC_SIZE..]
  }

  function Filled(buf: seq<byte>, f: RxFrame): (b: seq<byte>)
    requires |buf| == BUF_SIZE
    ensures |b| == BUF_SIZE
  {
    Descriptor(|f|) + f + buf[DESC_SIZE + |f|..]
  }

  /** Parsing what the chip wrote gives the frame back. */
  lemma FilledPayload(buf: seq<byte>, f: RxFrame)
    requires |buf| == BUF_SIZE
    ensures PacketLength(Filled(buf, f)) == |f| && Payload(Filled(buf, f)) == f
  {
    var b := Filled(buf, f);
    assert b[0] == |f| % 256 && b[1] == |f| / 256 && b[2] == 0 && b[3] == 0;
    assert b[DESC_SIZE..DESC_SIZE + |f|] == f;
  }

  // ----- the two sides -----

  /** The chip stores a frame in the next buffer and advances its index field. */
  function Inject(s: Ring, f: RxFrame): (r: Ring)
    requires s.Sized()
    ensures r.Sized()
  {
    var wp := (s.chipWp + 1) % SLOTS;
    s.(bufs := s.bufs[s.chipWp := Filled(s.bufs[s.chipWp], f)],
       posted := s.posted[s.chipWp := Posted(BUF_SIZE, |f|, s.phys[s.chipWp])],
       chipWp := wp,
       reg := s.reg % HW_FIELD + wp % IDX_LIMIT * HW_FIELD)
  }

  /** The host takes the next frame unless the chip's index says there is none or the frame is too long. */
  function Poll(s: Ring, cap: nat): (r: (Polled, Ring))
    requires s.Sized()
    ensures r.1.Sized()
  {
    if s.ChipField() == s.rp then (Nothing, s)
    else
      var buf := s.bufs[s.rp];
      if PacketLength(buf) > cap then (TooBig, s)
      else
        var rp := (s.rp + 1) % SLOTS;
        (Got(Payload(buf)),
         s.(posted := s.posted[s.rp := Posted(BUF_SIZE, 0, s.phys[s.rp])],
            rp := rp,
            reg := s.reg - s.reg % HW_FIELD + rp % IDX_LIMIT))
  }

  // ----- the queue they make -----

  function Slot(taken: nat, k: nat): (i: nat)
    ensures i < SLOTS
  {
    (taken + k) % SLOTS
  }

  /** `queue` is what was injected and not taken yet, after `taken` frames. */
  ghost predicate Holds(s: Ring, queue: seq<RxFrame>, taken: nat) {
    && s.Sized() && |queue| < SLOTS
    && s.rp == Slot(taken, 0) && s.chipWp == Slot(taken, |queue|)
    && s.HostField() == s.rp && s.ChipField() == s.chipWp
    && Stored(s, queue, taken) && AllPosted(s, queue, taken)
  }

  /** The buffers from the host's index on hold the frames of the queue. */
  ghost predicate Stored(s: Ring, queue: seq<RxFrame>, taken: nat)
    requires s.Sized()
  {
    forall k :: 0 <= k < |queue| ==>
      PacketLength(s.bufs[Slot(taken, k)]) == |queue[k]| && Payload(s.bufs[Slot(taken, k)]) == queue[k]
  }

  /** Every descriptor names its buffer and the size of the frame in it, 0 when it is free. */
  ghost predicate AllPosted(s: Ring, queue: seq<RxFrame>, taken: nat)
    requires s.Sized()
  {
    forall k :: 0 <= k < SLOTS ==>
      s.posted[Slot(taken, k)] == Posted(BUF_SIZE, Size(queue, k), s.phys[Slot(taken, k)])
  }

  function Size(queue: seq<RxFrame>, k: nat): nat { if k < |queue| then |queue[k]| else 0 }

  lemma SlotsDiffer(taken: nat, j: nat, k: nat)
    requires j < k < j + SLOTS
    ensures Slot(taken, j) != Slot(taken, k)
  {
  }

  lemma SlotNext(taken: nat, k: nat)
    ensures (Slot(taken, k) + 1) % SLOTS == Slot(taken, k + 1) && Slot(taken + 1, k) == Slot(taken, k + 1)
  {
  }

  lemma SlotWraps(taken: nat)
    ensures Slot(taken, SLOTS) == Slot(taken, 0)
  {
  }

  /** Neither side's register write disturbs the other's field. */
  lemma InjectFields(s: Ring, f: RxFrame)
    requires s.Sized()
    ensures Inject(s, f).HostField() == s.HostField() && Inject(s, f).ChipField() == Inject(s, f).chipWp
  {
    hide Filled;
    var host, wp := s.reg % HW_FIELD, Inject(s, f).chipWp;
    assert wp % IDX_LIMIT == wp;
    Halves(host, wp);
  }

  lemma Halves(low: nat, high: nat)
    requires low < HW_FIELD
    ensures (low + high * HW_FIELD) % HW_FIELD == low && (low + high * HW_FIELD) / HW_FIELD == high
  {
    ModUnique(low + high * HW_FIELD, HW_FIELD, high, low);
  }

  lemma PollFields(s: Ring, cap: nat)
    requires s.Sized()
    ensures Poll(s, cap).1.ChipField() == s.ChipField()
    ensures Poll(s, cap).0.Got? ==> Poll(s, cap).1.HostField() == Poll(s, cap).1.rp
  {
    hide Payload, PacketLength;
    var r := Poll(s, cap);
    if r.0.Got? {
      LowHalf(s.reg, r.1.rp);
    }
  }

  lemma LowHalf(reg: nat, v: nat)
    requires v < HW_FIELD
    ensures (reg - reg % HW_FIELD + v) / HW_FIELD == reg / HW_FIELD && (reg - reg % HW_FIELD + v) % HW_FIELD == v
  {
    assert reg - reg % HW_FIELD == reg / HW_FIELD * HW_FIELD;
  }

  lemma InjectStored(s: Ring, queue: seq<RxFrame>, taken: nat, f: RxFrame)
    requires s.Sized() && |queue| < SLOTS && s.chipWp == Slot(taken, |queue|) && Stored(s, queue, taken)
    ensures Stored(Inject(s, f), queue + [f], taken)
  {
    hide Filled, Payload, PacketLength, Slot;
    FilledPayload(s.bufs[s.chipWp], f);
    var r, q := Inject(s, f), queue + [f];
    forall k | 0 <= k < |q|
      ensures PacketLength(r.bufs[Slot(taken, k)]) == |q[k]| && Payload(r.bufs[Slot(taken, k)]) == q[k]
    {
      if k < |queue| {
        SlotsDiffer(taken, k, |queue|);
      }
    }
  }

  lemma InjectPosted(s: Ring, queue: seq<RxFrame>, taken: nat, f: RxFrame)
    requires s.Sized() && |queue| < SLOTS && s.chipWp == Slot(taken, |queue|) && AllPosted(s, queue, taken)
    ensures AllPosted(Inject(s, f), queue + [f], taken)
  {
    hide Filled, Slot;
    var r, q := Inject(s, f), queue + [f];
    forall k | 0 <= k < SLOTS
      ensures r.posted[Slot(taken, k)] == Posted(BUF_SIZE, Size(q, k), r.phys[Slot(taken, k)])
    {
      if k < |queue| {
        SlotsDiffer(taken, k, |queue|);
      } else if k > |queue| {
        SlotsDiffer(taken, |queue|, k);
      }
    }
  }

  lemma InjectHolds(s: Ring, queue: seq<RxFrame>, taken: nat, f: RxFrame)
    requires Holds(s, queue, taken) && |queue| < SLOTS - 1
    ensures Holds(Inject(s, f), queue + [f], taken)
  {
    hide Filled, Stored, AllPosted;
    InjectFields(s, f);
    SlotNext(taken, |queue|);
    InjectStored(s, queue, taken, f);
    InjectPosted(s, queue, taken, f);
  }

  lemma PollStored(s: Ring, queue: seq<RxFrame>, taken: nat, r: Ring)
    requires s.Sized() && r.Sized() && queue != [] && r.bufs == s.bufs && Stored(s, queue, taken)
    ensures Stored(r, queue[1..], taken + 1)
  {
    hide Payload, PacketLength, Slot;
    var q := queue[1..];
    forall k | 0 <= k < |q|
      ensures PacketLength(r.bufs[Slot(taken + 1, k)]) == |q[k]| && Payload(r.bufs[Slot(taken + 1, k)]) == q[k]
    {
      SlotNext(taken, k);
      assert q[k] == queue[k + 1];
    }
  }

  lemma PollPosted(s: Ring, queue: seq<RxFrame>, taken: nat, r: Ring)
    requires s.Sized() && r.Sized() && 0 < |queue| < SLOTS && s.rp == Slot(taken, 0) && r.phys == s.phys
    requires r.posted == s.posted[s.rp := Posted(BUF_SIZE, 0, s.phys[s.rp])] && AllPosted(s, queue, taken)
    ensures AllPosted(r, queue[1..], taken + 1)
  {
    hide Slot;
    var q := queue[1..];
    forall k | 0 <= k < SLOTS
      ensures r.posted[Slot(taken + 1, k)] == Posted(BUF_SIZE, Size(q, k), r.phys[Slot(taken + 1, k)])
    {
      SlotNext(taken, k);
      if k < SLOTS - 1 {
        SlotsDiffer(taken, 0, k + 1);
        assert k < |q| ==> q[k] == queue[k + 1];
      } else {
        SlotWraps(taken);
      }
    }
  }

  /** A poll that returns a frame leaves the rest of the queue. */
  lemma PollTakes(s: Ring, queue: seq<RxFrame>, taken: nat, cap: nat)
    requires Holds(s, queue, taken) && queue != [] && |queue[0]| <= cap
    ensures Poll(s, cap).0 == Got(queue[0]) && Holds(Poll(s, cap).1, queue[1..], taken + 1)
  {
    var r := Poll(s, cap).1;
    PollFields(s, cap);
    SlotsDiffer(taken, 0, |queue|);
    SlotNext(taken, 0);
    SlotNext(taken, |queue| - 1);
    hide Payload, PacketLength, AllPosted, Slot;
    assert Poll(s, cap).0 == Got(queue[0]);
    hide Stored;
    PollStored(s, queue, taken, r);
    PollPosted(s, queue, taken, r);
  }

  /** A poll does what taking from the queue does. */
  lemma PollHolds(s: Ring, queue: seq<RxFrame>, taken: nat, cap: nat)
    requires Holds(s, queue, taken)
    ensures var r := Poll(s, cap);
            && r.0 == QueuePoll(queue, cap).0
            && Holds(r.1, QueuePoll(queue, cap).1, if r.0.Got? then taken + 1 else taken)
  {
    hide Payload, PacketLength, AllPosted;
    if queue != [] {
      if |queue[0]| <= cap {
        PollTakes(s, queue, taken, cap);
      } else {
        SlotsDiffer(taken, 0, |queue|);
      }
    }
  }

  /** The reference: a queue of frames. */
  function QueuePoll(queue: seq<RxFrame>, cap: nat): (Polled, seq<RxFrame>) {
    if queue == [] then (Nothing, queue)
    else if |queue[0]| > cap then (TooBig, queue)
    else (Got(queue[0]), queue[1..])
  }

  // ----- runs -----

  datatype RxEvent = Injected(f: RxFrame) | PolledFor(cap: nat)

  /** What the polls of a run return. */
  function RingRun(s: Ring, es: seq<RxEvent>): seq<Polled>
    requires s.Sized()
    decreases |es|
  {
    if es == [] then []
    else match es[0]
      case Injected(f) => RingRun(Inject(s, f), es[1..])
      case PolledFor(cap) => [Poll(s, cap).0] + RingRun(Poll(s, cap).1, es[1..])
  }

  function QueueRun(queue: seq<RxFrame>, es: seq<RxEvent>): seq<Polled>
    decreases |es|
  {
    if es == [] then []
    else match es[0]
      case Injected(f) => QueueRun(queue + [f], es[1..])
      case PolledFor(cap) => [QueuePoll(queue, cap).0] + QueueRun(QueuePoll(queue, cap).1, es[1..])
  }

  /** No injection makes more than 511 frames outstanding. */
  ghost predicate Paced(queue: seq<RxFrame>, es: seq<RxEvent>)
    decreases |es|
  {
    es == [] || (match es[0]
      case Injected(f) => |queue| < SLOTS - 1 && Paced(queue + [f], es[1..])
      case PolledFor(cap) => Paced(QueuePoll(queue, cap).1, es[1..]))
  }

  /** Over every interleaving with at most 511 frames outstanding, the polls return exactly the injected
      frames, in order and byte for byte. */
  lemma {:induction false} RingIsQueue(s: Ring, queue: seq<RxFrame>, taken: nat, es: seq<RxEvent>)
    requires Holds(s, queue, taken) && Paced(queue, es)
    ensures RingRun(s, es) == QueueRun(queue, es)
    decreases |es|
  {
    hide Inject, Poll, Payload, PacketLength;
    if es != [] {
      match es[0]
      case Injected(f) =>
        InjectHolds(s, queue, taken, f);
        RingIsQueue(Inject(s, f), queue + [f], taken, es[1..]);
      case PolledFor(cap) =>
        PollHolds(s, queue, taken, cap);
        var r := Poll(s, cap);
        RingIsQueue(r.1, QueuePoll(queue, cap).1, if r.0.Got? then taken + 1 else taken, es[1..]);
    }
  }

  /** With 511 frames outstanding one more makes the indices meet, and the next poll reports nothing. */
  lemma InjectOverflows(s: Ring, queue: seq<RxFrame>, taken: nat, f: RxFrame, cap: nat)
    requires Holds(s, queue, taken) && |queue| == SLOTS - 1
    ensures Poll(Inject(s, f), cap).0 == Nothing
  {
    hide Filled, Payload, PacketLength;
    InjectFields(s, f);
    SlotNext(taken, |queue|);
    SlotWraps(taken);
  }

  /** One more injection is safe exactly when fewer than 511 frames are outstanding. */
  lemma InjectSafeIff(s: Ring, queue: seq<RxFrame>, taken: nat, f: RxFrame)
    requires Holds(s, queue, taken)
    ensures Poll(Inject(s, f), LEN_LIMIT).0 == Got((queue + [f])[0]) <==> |queue| < SLOTS - 1
  {
    hide Inject, Poll, Payload, PacketLength;
    if |queue| < SLOTS - 1 {
      InjectHolds(s, queue, taken, f);
      PollHolds(Inject(s, f), queue + [f], taken, LEN_LIMIT);
    } else {
      InjectOverflows(s, queue, taken, f, LEN_LIMIT);
    }
  }

  // ----- bursts from the start -----

  /** The ring once all buffers are posted. */
  function Started(bufs: seq<seq<byte>>, phys: seq<nat>): (s: Ring)
    requires |bufs| == |phys| == SLOTS && forall i :: 0 <= i < SLOTS ==> |bufs[i]| == BUF_SIZE
    ensures s.Sized()
  {
    Ring(0, 0, 0, bufs, seq(SLOTS, i requires 0 <= i < SLOTS => Posted(BUF_SIZE, 0, phys[i])), phys)
  }

  lemma StartedHolds(bufs: seq<seq<byte>>, phys: seq<nat>)
    requires |bufs| == |phys| == SLOTS && forall i :: 0 <= i < SLOTS ==> |bufs[i]| == BUF_SIZE
    ensures Holds(Started(bufs, phys), [], 0)
  {
  }

  function InjectAll(s: Ring, fs: seq<RxFrame>): (r: Ring)
    requires s.Sized()
    ensures r.Sized()
    decreases |fs|
  {
    if fs == [] then s else InjectAll(Inject(s, fs[0]), fs[1..])
  }

  lemma {:induction false} BurstHolds(s: Ring, queue: seq<RxFrame>, taken: nat, fs: seq<RxFrame>)
    requires Holds(s, queue, taken) && |queue| + |fs| < SLOTS
    ensures Holds(InjectAll(s, fs), queue + fs, taken)
    decreases |fs|
  {
    hide Inject, Stored, AllPosted;
    if fs == [] {
      Unit(queue);
    } else {
      InjectHolds(s, queue, taken, fs[0]);
      BurstHolds(Inject(s, fs[0]), queue + [fs[0]], taken, fs[1..]);
      Assoc(queue, [fs[0]], fs[1..]);
      assert [fs[0]] + fs[1..] == fs;
    }
  }

  lemma {:induction false} InjectAllLast(s: Ring, fs: seq<RxFrame>, f: RxFrame)
    requires s.Sized()
    ensures InjectAll(s, fs + [f]) == Inject(InjectAll(s, fs), f)
    decreases |fs|
  {
    hide Inject;
    if fs == [] {
      assert ([f])[1..] == [] && fs + [f] == [f];
    } else {
      assert (fs + [f])[1..] == fs[1..] + [f];
      InjectAllLast(Inject(s, fs[0]), fs[1..], f);
    }
  }

  lemma BurstBut(s: Ring, fs: seq<RxFrame>)
    requires Holds(s, [], 0) && 1 <= |fs| <= SLOTS
    ensures var front := fs[..|fs| - 1];
            Holds(InjectAll(s, front), front, 0) && InjectAll(s, fs) == Inject(InjectAll(s, front), fs[|fs| - 1])
  {
    hide Inject, Stored, AllPosted;
    var front, f := fs[..|fs| - 1], fs[|fs| - 1];
    BurstHolds(s, [], 0, front);
    assert [] + front == front;
    InjectAllLast(s, front, f);
    assert front + [f] == fs;
  }

  /** A burst into the ring as it starts: the next poll gives the first frame while there are at most 511
      frames; a burst of 512 looks like none. */
  lemma BurstPoll(bufs: seq<seq<byte>>, phys: seq<nat>, fs: seq<RxFrame>)
    requires |bufs| == |phys| == SLOTS && forall i :: 0 <= i < SLOTS ==> |bufs[i]| == BUF_SIZE
    requires 1 <= |fs| <= SLOTS
    ensures Poll(InjectAll(Started(bufs, phys), fs), LEN_LIMIT).0 == if |fs| < SLOTS then Got(fs[0]) else Nothing
  {
    hide Inject, Poll, Started, Holds, InjectAll;
    StartedHolds(bufs, phys);
    if |fs| == SLOTS {
      BurstLost(Started(bufs, phys), fs);
    } else {
      BurstKept(Started(bufs, phys), fs);
    }
  }

  lemma BurstLost(s: Ring, fs: seq<RxFrame>)
    requires Holds(s, [], 0) && |fs| == SLOTS
    ensures Poll(InjectAll(s, fs), LEN_LIMIT).0 == Nothing
  {
    hide Inject, Poll, InjectAll, Stored, AllPosted;
    BurstBut(s, fs);
    var front := fs[..SLOTS - 1];
    InjectOverflows(InjectAll(s, front), front, 0, fs[SLOTS - 1], LEN_LIMIT);
  }

  lemma BurstKept(s: Ring, fs: seq<RxFrame>)
    requires Holds(s, [], 0) && 1 <= |fs| < SLOTS
    ensures Poll(InjectAll(s, fs), LEN_LIMIT).0 == Got(fs[0])
  {
    hide Inject, Poll, InjectAll, Stored, AllPosted;
    BurstHolds(s, [], 0, fs);
    assert [] + fs == fs;
    PollHolds(InjectAll(s, fs), fs, 0, LEN_LIMIT);
  }

  // ----- the driver -----

  class Driver {
    var reg: nat
    var chipWp: nat
    var rp: nat
    const bufs: array<seq<byte>>
    const posted: array<Posted>
    const phys: seq<nat>

    /** Posts all buffers; what they hold before the first frame is arbitrary. */
    constructor (fresh0: seq<seq<byte>>, phys: seq<nat>)
      requires |fresh0| == |phys| == SLOTS && forall i :: 0 <= i < SLOTS ==> |fresh0[i]| == BUF_SIZE
      ensures Valid() && State() == Started(fresh0, phys) && fresh(bufs) && fresh(posted)
    {
      this.phys := phys;
      bufs := new seq<byte>[SLOTS](i requires 0 <= i < SLOTS => fresh0[i]);
      posted := new Posted[SLOTS](_ => Posted(0, 0, 0));
      reg, chipWp, rp := 0, 0, 0;
      new;
      for i := 0 to SLOTS
        invariant reg == chipWp == rp == 0
        invariant forall j :: 0 <= j < i ==> posted[j] == Posted(BUF_SIZE, 0, phys[j])
        invariant bufs[..] == fresh0
      {
        posted[i] := Posted(BUF_SIZE, 0, phys[i]);
      }
      assert State().posted == Started(fresh0, phys).posted;
    }

    ghost predicate Valid()
      reads this, bufs
    {
      && bufs.Length == posted.Length == |phys| == SLOTS && chipWp < SLOTS && rp < SLOTS
      && forall i :: 0 <= i < SLOTS ==> |bufs[i]| == BUF_SIZE
    }

    ghost function State(): (s: Ring)
      requires Valid()
      reads this, bufs, posted
      ensures s.Sized()
    {
      Ring(reg, chipWp, rp, bufs[..], posted[..], phys)
    }

    method ChipInject(f: RxFrame)
      requires Valid()
      modifies this, bufs, posted
      ensures Valid() && State() == Inject(old(State()), f)
    {
      var idx := chipWp % SLOTS;
      bufs[idx] := Descriptor(|f|) + f + bufs[idx][DESC_SIZE + |f|..];
      posted[idx] := Posted(BUF_SIZE, |f|, phys[idx]);
      chipWp := (chipWp + 1) % SLOTS;
      reg := reg % HW_FIELD + chipWp % IDX_LIMIT * HW_FIELD;
      assert State().bufs == Inject(old(State()), f).bufs;
      assert State().posted == Inject(old(State()), f).posted;
    }

    method RxPoll(cap: nat) returns (r: Polled)
      requires Valid()
      modifies this, posted
      ensures Valid() && (r, State()) == Poll(old(State()), cap)
    {
      var wp := reg / HW_FIELD % IDX_LIMIT;
      if wp == rp {
        return Nothing;
      }
      var idx := rp % SLOTS;
      var len := PacketLength(bufs[idx]);
      if len > cap {
        return TooBig;
      }
      r := Got(Payload(bufs[idx]));
      posted[idx] := Posted(BUF_SIZE, 0, phys[idx]);
      rp := (rp + 1) % SLOTS;
      reg := reg - reg % HW_FIELD + rp % IDX_LIMIT;
      assert State().posted == Poll(old(State()), cap).1.posted;
    }
  }
}
