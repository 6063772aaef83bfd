/**
 One XGQ ring between a producer and a consumer that share only the slots and two published
 32-bit counters. Each side keeps its own wrapping counter and a stale copy of the peer's; entries
 become visible in batches. `Exec` runs any interleaving of the two sides.
 */
module XgqRing {
  import opened Machine
  import Bits

  // --- One side's ring structure ------------------------------------------------------------

  /** The two counters of a ring structure: one is this side's own, the other a cached copy. */
  datatype View = View(produced: u32, consumed: u32)

  predicate Full(v: View, n: u32) {
    Wrap32(v.produced - v.consumed) >= n
  }

  predicate Empty(v: View) {
    v.produced == v.consumed
  }

  /** The slot a counter points at; the slot count is a power of two. */
  function Slot(counter: u32, n: u32): (r: nat)
    requires n > 0
    ensures r < n
  {
    Bits.And(counter, n - 1)
  }

  /** Reserve a slot, reading the consumer's published counter only when the cached copy says full. */
  function TryProduce(v: View, published: u32, n: u32): (View, Option<nat>)
    requires n > 0
  {
    var w := if Full(v, n) then v.(consumed := published) else v;
    if Full(w, n) then (w, None) else (w.(produced := Wrap32(w.produced + 1)), Some(Slot(w.produced, n)))
  }

  /** Take a slot, reading the producer's published counter only when the cached copy says empty. */
  function TryConsume(v: View, published: u32, n: u32): (View, Option<nat>)
    requires n > 0
  {
    var w := if Empty(v) then v.(produced := published) else v;
    if Empty(w) then (w, None) else (w.(consumed := Wrap32(w.consumed + 1)), Some(Slot(w.consumed, n)))
  }

  /** The ring structure as the code updates it; register reads are passed in. */
  class Ring {
    const slotNum: u32
    var produced: u32
    var consumed: u32

    function State(): View
      reads this
    {
      View(produced, consumed)
    }

    constructor (n: u32)
      ensures slotNum == n && State() == View(0, 0)
    {
      slotNum := n;
      produced, consumed := 0, 0;
    }

    method CanProduce(published: u32) returns (yes: bool)
      modifies this`consumed
      ensures State() == (if Full(old(State()), slotNum) then old(State()).(consumed := published) else old(State()))
      ensures yes == !Full(State(), slotNum)
    {
      if Wrap32(produced - consumed) < slotNum {
        return true;
      }
      consumed := published;
      return Wrap32(produced - consumed) < slotNum;
    }

    method CanConsume(published: u32) returns (yes: bool)
      modifies this`produced
      ensures State() == (if Empty(old(State())) then old(State()).(produced := published) else old(State()))
      ensures yes == !Empty(State())
    {
      if produced != consumed {
        return true;
      }
      produced := published;
      return produced != consumed;
    }

    method Produce(published: u32) returns (slot: Option<nat>)
      requires slotNum > 0
      modifies this
      ensures (State(), slot) == TryProduce(old(State()), published, slotNum)
    {
      var yes := CanProduce(published);
      if !yes {
        return None;
      }
      slot := Some(Bits.And(produced, slotNum - 1));
      produced := Wrap32(produced + 1);
    }

    method Consume(published: u32) returns (slot: Option<nat>)
      requires slotNum > 0
      modifies this
      ensures (State(), slot) == TryConsume(old(State()), published, slotNum)
    {
      var yes := CanConsume(published);
      if !yes {
        return None;
      }
      slot := Some(Bits.And(consumed, slotNum - 1));
      consumed := Wrap32(consumed + 1);
    }

    /** Adopt both published counters, as attaching to an existing ring does. */
    method FastForward(publishedProduced: u32, publishedConsumed: u32)
      modifies this
      ensures State() == View(publishedProduced, publishedConsumed)
    {
      produced := publishedProduced;
      consumed := publishedConsumed;
    }

    /** Ignore whatever the ring holds: returns the consumed counter to publish. */
    method SoftReset(publishedProduced: u32) returns (publish: u32)
      modifies this
      ensures Empty(State()) && State().produced == publishedProduced && publish == publishedProduced
    {
      produced := publishedProduced;
      consumed := produced;
      publish := consumed;
    }
  }

  // --- Wrapping counters stand for unbounded ones ----------------------------------------------

  /** A wrapped difference is the true difference as long as that fits 32 bits. */
  lemma WrappedDifference(x: nat, y: nat)
    requires y <= x && x - y < 0x1_0000_0000
    ensures Wrap32(Wrap32(x) - Wrap32(y)) == x - y
    ensures Wrap32(x) == Wrap32(y) <==> x == y
  {
  }

  lemma WrappedNext(x: nat)
    ensures Wrap32(Wrap32(x) + 1) == Wrap32(x + 1)
  {
  }

  ghost predicate SlotCount(n: nat) {
    0 < n <= 0x8000_0000 && Bits.IsPow2(n)
  }

  /** The masked 32-bit counter is the unbounded counter modulo the slot count, across wrap-around. */
  lemma SlotOfCounter(x: nat, n: nat)
    requires SlotCount(n)
    ensures Slot(Wrap32(x), n) == x % n
  {
    var k: nat :| n == Bits.Pow2(k);
    Bits.Pow2Constants();
    if k > 32 {
      Bits.Pow2Monotone(32, k);
      assert false;
    }
    Bits.AndLowMask(Wrap32(x), k);
    Bits.ModMod(x, k, 32);
  }

  /** Counters less than a lap apart use different slots. */
  lemma SlotsDiffer(x: nat, y: nat, n: nat)
    requires n > 0 && x < y < x + n
    ensures x % n != y % n
  {
    if x % n == y % n {
      var q := y / n - x / n;
      assert y - x == q * n;
      Bits.MulFar(q, n);
      assert false;
    }
  }

  // --- Producer and consumer together ------------------------------------------------------------

  /**
   The shared memory, both sides' ring structures, and the history: the entries written and read so
   far, how many of them each side has published, and how many published ones the peer has seen.
   `base` is the value of all counters when the ring was set up.
   */
  datatype System<T> = System(
    n: nat, base: u32,
    slots: seq<T>, regProduced: u32, regConsumed: u32,
    producer: View, consumer: View,
    sent: seq<T>, published: nat, publishedSeen: nat,
    received: seq<T>, released: nat, releasedSeen: nat)

  datatype Step<T> =
    | Produce                    // the producer asks for a slot
    | Fill(k: nat, entry: T)     // the producer writes the k-th entry, reserved and not yet published
    | NotifyProduced             // the producer publishes everything reserved
    | Consume                    // the consumer takes the next entry
    | NotifyConsumed             // the consumer gives back everything it has taken

  function SlotOf<T>(s: System<T>, k: nat): (r: nat)
    requires s.n > 0
    ensures r < s.n
  {
    (s.base + k) % s.n
  }

  /** The producer may write only entries it has reserved and not published. */
  predicate Allowed<T>(s: System<T>, step: Step<T>) {
    step.Fill? ==> s.published <= step.k < |s.sent|
  }

  ghost predicate Shape<T>(s: System<T>) {
    SlotCount(s.n) && |s.slots| == s.n
  }

  function Next<T>(s: System<T>, step: Step<T>): (r: System<T>)
    requires Shape(s) && Allowed(s, step)
    ensures Shape(r)
  {
    match step
    case Produce =>
      var (v, slot) := TryProduce(s.producer, s.regConsumed, s.n);
      // The cached counter of the peer is refreshed exactly when the cached copy says full.
      var seen := if Full(s.producer, s.n) then s.released else s.releasedSeen;
      if slot.None? then s.(producer := v, releasedSeen := seen)
      else s.(producer := v, releasedSeen := seen, sent := s.sent + [s.slots[slot.value]])
    case Fill(k, entry) =>
      s.(slots := s.slots[SlotOf(s, k) := entry], sent := s.sent[k := entry])
    case NotifyProduced =>
      s.(regProduced := s.producer.produced, published := |s.sent|)
    case Consume =>
      var (v, slot) := TryConsume(s.consumer, s.regProduced, s.n);
      var seen := if Empty(s.consumer) then s.published else s.publishedSeen;
      if slot.None? then s.(consumer := v, publishedSeen := seen)
      else s.(consumer := v, publishedSeen := seen, received := s.received + [s.slots[slot.value]])
    case NotifyConsumed =>
      s.(regConsumed := s.consumer.consumed, released := |s.received|)
  }

  /** How the counters of both sides are ordered, whatever either has published or seen. */
  ghost predicate Ordered<T>(s: System<T>) {
    s.releasedSeen <= s.released <= |s.received| <= s.publishedSeen <= s.published <= |s.sent|
      <= s.releasedSeen + s.n
  }

  /** Every 32-bit counter is the wrapped image of the unbounded one it stands for. */
  ghost predicate Wrapped<T>(s: System<T>) {
    && s.producer == View(Wrap32(s.base + |s.sent|), Wrap32(s.base + s.releasedSeen))
    && s.consumer == View(Wrap32(s.base + s.publishedSeen), Wrap32(s.base + |s.received|))
    && s.regProduced == Wrap32(s.base + s.published)
    && s.regConsumed == Wrap32(s.base + s.released)
  }

  /** Entries not yet given back are intact in their slots. */
  ghost predicate Intact<T>(s: System<T>)
    requires Shape(s)
  {
    forall k :: s.released <= k < |s.sent| ==> s.slots[SlotOf(s, k)] == s.sent[k]
  }

  ghost predicate Invariant<T>(s: System<T>) {
    && Shape(s) && Ordered(s) && Wrapped(s) && Intact(s)
    && s.received <= s.sent
  }

  /** A ring just set up: empty, with every counter at an arbitrary common value. */
  function Fresh<T>(n: nat, base: u32, slots: seq<T>): System<T> {
    System(n, base, slots, base, base, View(base, base), View(base, base), [], 0, 0, [], 0, 0)
  }

  lemma FreshInvariant<T>(n: nat, base: u32, slots: seq<T>)
    requires SlotCount(n) && |slots| == n
    ensures Invariant(Fresh(n, base, slots))
  {
  }

  /** What the wrapped tests decide, in unbounded terms. */
  lemma TestsAreExact<T>(s: System<T>)
    requires Shape(s) && Ordered(s) && Wrapped(s)
    ensures Full(s.producer, s.n) <==> |s.sent| - s.releasedSeen == s.n
    ensures Empty(s.consumer) <==> |s.received| == s.publishedSeen
    ensures Full(s.producer.(consumed := s.regConsumed), s.n) <==> |s.sent| - s.released == s.n
    ensures Empty(s.consumer.(produced := s.regProduced)) <==> |s.received| == s.published
    ensures Slot(s.producer.produced, s.n) == SlotOf(s, |s.sent|)
    ensures Slot(s.consumer.consumed, s.n) == SlotOf(s, |s.received|)
  {
    hide Full, Empty, Wrap32, Slot, SlotOf, Bits.IsPow2;
    var x, y := s.base + |s.sent|, s.base + |s.received|;
    FullIs(s.producer, x, s.base + s.releasedSeen, s.n);
    FullIs(s.producer.(consumed := s.regConsumed), x, s.base + s.released, s.n);
    EmptyIs(s.consumer, s.base + s.publishedSeen, y);
    EmptyIs(s.consumer.(produced := s.regProduced), s.base + s.published, y);
    SlotOfIs(s, |s.sent|);
    SlotOfIs(s, |s.received|);
  }

  lemma FullIs(v: View, x: nat, y: nat, n: u32)
    requires v == View(Wrap32(x), Wrap32(y)) && y <= x <= y + n
    ensures Full(v, n) <==> x - y == n
  {
    WrappedDifference(x, y);
  }

  lemma EmptyIs(v: View, x: nat, y: nat)
    requires v == View(Wrap32(x), Wrap32(y)) && y <= x < y + 0x1_0000_0000
    ensures Empty(v) <==> x == y
  {
    WrappedDifference(x, y);
  }

  lemma SlotOfIs<T>(s: System<T>, k: nat)
    requires SlotCount(s.n)
    ensures Slot(Wrap32(s.base + k), s.n) == SlotOf(s, k)
  {
    SlotOfCounter(s.base + k, s.n);
  }

  lemma SlotOfDiffers<T>(s: System<T>, j: nat, k: nat)
    requires s.n > 0 && j < k < j + s.n
    ensures SlotOf(s, j) != SlotOf(s, k)
  {
    SlotsDiffer(s.base + j, s.base + k, s.n);
  }

  lemma {:induction false} ProduceStep<T>(s: System<T>)
    requires Invariant(s)
    ensures Invariant(Next(s, Produce))
  {
    hide Full, Empty, Wrap32, Slot, SlotOf, Bits.IsPow2;
    TestsAreExact(s);
    WrappedNext(s.base + |s.sent|);
    var r := Next(s, Produce);
    assert r.n == s.n && r.base == s.base && r.slots == s.slots;
    forall k | r.released <= k < |r.sent|
      ensures r.slots[SlotOf(r, k)] == r.sent[k]
    {
      SameSlots(s, r, k);
    }
  }

  lemma SameSlots<T>(s: System<T>, r: System<T>, k: nat)
    requires s.n == r.n > 0 && s.base == r.base
    ensures SlotOf(s, k) == SlotOf(r, k)
  {
  }

  lemma FillStep<T>(s: System<T>, k: nat, entry: T)
    requires Invariant(s) && Allowed(s, Fill(k, entry))
    ensures Invariant(Next(s, Fill(k, entry)))
    ensures forall j :: s.released <= j < s.published ==>
      Next(s, Fill(k, entry)).slots[SlotOf(s, j)] == s.slots[SlotOf(s, j)]
  {
    hide Full, Empty, Wrap32, Slot, SlotOf, Bits.IsPow2;
    var r := Next(s, Fill(k, entry));
    forall j | s.released <= j < |s.sent| && j != k
      ensures SlotOf(s, j) != SlotOf(s, k)
    {
      if j < k {
        SlotOfDiffers(s, j, k);
      } else {
        SlotOfDiffers(s, k, j);
      }
    }
    forall j | r.released <= j < |r.sent|
      ensures r.slots[SlotOf(r, j)] == r.sent[j]
    {
      SameSlots(s, r, j);
    }
  }

  lemma ConsumeStep<T>(s: System<T>)
    requires Invariant(s)
    ensures Invariant(Next(s, Consume))
  {
    hide Full, Empty, Wrap32, Slot, SlotOf, Bits.IsPow2;
    TestsAreExact(s);
    WrappedNext(s.base + |s.received|);
    var r := Next(s, Consume);
    assert r.n == s.n && r.base == s.base && r.slots == s.slots && r.sent == s.sent;
    forall k | r.released <= k < |r.sent|
      ensures r.slots[SlotOf(r, k)] == r.sent[k]
    {
      SameSlots(s, r, k);
    }
    if |r.received| > |s.received| {
      assert s.slots[SlotOf(s, |s.received|)] == s.sent[|s.received|];
    }
  }

  lemma NotifyStep<T>(s: System<T>, step: Step<T>)
    requires Invariant(s) && (step.NotifyProduced? || step.NotifyConsumed?)
    ensures Invariant(Next(s, step))
  {
    hide Full, Empty, Wrap32, Slot, SlotOf, Bits.IsPow2;
    var r := Next(s, step);
    assert r.n == s.n && r.base == s.base && r.slots == s.slots && r.sent == s.sent;
    forall k | r.released <= k < |r.sent|
      ensures r.slots[SlotOf(r, k)] == r.sent[k]
    {
      SameSlots(s, r, k);
    }
  }

  lemma NextInvariant<T>(s: System<T>, step: Step<T>)
    requires Invariant(s) && Allowed(s, step)
    ensures Invariant(Next(s, step))
  {
    hide Invariant, Next, Allowed;
    match step
    case Produce => ProduceStep(s);
    case Fill(k, entry) => FillStep(s, k, entry);
    case NotifyProduced => NotifyStep(s, step);
    case Consume => ConsumeStep(s);
    case NotifyConsumed => NotifyStep(s, step);
  }

  // --- Any interleaving ---------------------------------------------------------------------------

  /** A schedule whose every `Fill` respects the reservation made by the producer. */
  ghost predicate Runs<T>(s: System<T>, steps: seq<Step<T>>)
    requires Shape(s)
    decreases |steps|
  {
    steps == [] || (Allowed(s, steps[0]) && Runs(Next(s, steps[0]), steps[1..]))
  }

  ghost function Exec<T>(s: System<T>, steps: seq<Step<T>>): (r: System<T>)
    requires Shape(s) && Runs(s, steps)
    ensures Shape(r)
    decreases |steps|
  {
    if steps == [] then s else Exec(Next(s, steps[0]), steps[1..])
  }

  /**
   Ring correctness over every interleaving of the two sides: the entries read are, in order, the
   entries written first, and every entry not yet given back is still intact in its own slot.
   */
  lemma {:induction false} FifoOverAllRuns<T>(s: System<T>, steps: seq<Step<T>>)
    requires Invariant(s) && Runs(s, steps)
    ensures Invariant(Exec(s, steps))
    ensures Exec(s, steps).received <= Exec(s, steps).sent
    ensures s.received <= Exec(s, steps).received
    ensures s.sent[..s.published] <= Exec(s, steps).sent
    decreases |steps|
  {
    hide Shape, Wrapped, Intact, Next;
    if steps != [] {
      var t := Next(s, steps[0]);
      NextInvariant(s, steps[0]);
      HistoryKept(s, steps[0]);
      FifoOverAllRuns(t, steps[1..]);
      PrefixTrans(s.sent[..s.published], t.sent[..t.published], Exec(s, steps).sent);
    }
  }

  lemma PrefixTrans<T>(x: seq<T>, y: seq<T>, z: seq<T>)
    requires x <= y && y <= z
    ensures x <= z
  {
  }

  /** One step never takes back what was read or alters what was published. */
  lemma HistoryKept<T>(s: System<T>, step: Step<T>)
    requires Invariant(s) && Allowed(s, step)
    ensures var r := Next(s, step);
            && s.received <= r.received
            && s.published <= r.published <= |r.sent| && s.published <= |s.sent|
            && s.sent[..s.published] <= r.sent[..r.published]
  {
    hide Full, Empty, Wrap32, Slot, SlotOf, Bits.IsPow2, Intact;
  }

  /** From any freshly set up ring, whatever value the counters start from. */
  lemma FifoFromFresh<T>(n: nat, base: u32, slots: seq<T>, steps: seq<Step<T>>)
    requires SlotCount(n) && |slots| == n && Runs(Fresh(n, base, slots), steps)
    ensures var r := Exec(Fresh(n, base, slots), steps);
            r.received <= r.sent && |r.sent| - |r.received| <= n
  {
    FreshInvariant(n, base, slots);
    FifoOverAllRuns(Fresh(n, base, slots), steps);
    var r := Exec(Fresh(n, base, slots), steps);
    assert Ordered(r);
    CountKept(Fresh(n, base, slots), steps);
  }

  lemma {:induction false} CountKept<T>(s: System<T>, steps: seq<Step<T>>)
    requires Shape(s) && Runs(s, steps)
    ensures Exec(s, steps).n == s.n
    decreases |steps|
  {
    if steps != [] {
      CountKept(Next(s, steps[0]), steps[1..]);
    }
  }

  /** A slot handed to the producer holds no entry that the consumer may still read. */
  lemma ReservedSlotIsFree<T>(s: System<T>, k: nat)
    requires Invariant(s) && s.released <= k < |s.sent| < |Next(s, Produce).sent|
    ensures SlotOf(s, |s.sent|) != SlotOf(s, k)
  {
    hide Full, Empty, Wrap32, Slot, SlotOf, Bits.IsPow2, Intact;
    TestsAreExact(s);
    SlotOfDiffers(s, k, |s.sent|);
  }

  /**
   The stale copies cost nothing: a slot is granted exactly when the consumer has published enough
   room, and an entry is delivered exactly when the producer has published one not yet taken.
   */
  lemma GrantsAreExact<T>(s: System<T>)
    requires Invariant(s)
    ensures |Next(s, Produce).sent| == |s.sent| + 1 <==> |s.sent| - s.released < s.n
    ensures |Next(s, Consume).received| == |s.received| + 1 <==> |s.received| < s.published
  {
    hide Full, Empty, Wrap32, Slot, SlotOf, Bits.IsPow2, Intact;
    TestsAreExact(s);
  }
}
