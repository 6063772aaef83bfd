/**
 A ring in use: the slots and the published counters in shared memory, and the ring structures of both
 sides. The methods keep the state of `XgqRing` up to date and are specified by its history alone.
 */
module XgqChannel {
  import opened Machine
  import opened XgqRing

  class Channel<T> {
    const producer: Ring
    const consumer: Ring
    const slots: array<T>
    var regProduced: u32
    var regConsumed: u32
    ghost var sys: System<T>

    ghost function Repr(): set<object> {
      {this, producer, consumer, slots}
    }

    ghost predicate Valid()
      reads this, producer, consumer, slots
    {
      && Invariant(sys) && producer != consumer
      && sys.n == slots.Length == producer.slotNum == consumer.slotNum
      && slots[..] == sys.slots
      && producer.State() == sys.producer && consumer.State() == sys.consumer
      && regProduced == sys.regProduced && regConsumed == sys.regConsumed
    }

    /** A ring with all counters at `base`. */
    constructor (n: u32, base: u32, filler: T)
      requires SlotCount(n)
      ensures Valid() && sys.n == n && fresh(Repr())
      ensures sys.sent == sys.received == [] && sys.published == sys.released == 0
    {
      producer := new Ring(n);
      consumer := new Ring(n);
      slots := new T[n](i => filler);
      regProduced, regConsumed := base, base;
      new;
      producer.FastForward(base, base);
      consumer.FastForward(base, base);
      sys := Fresh(n, base, slots[..]);
      FreshInvariant(n, base, slots[..]);
    }

    /** Write one entry and publish it, unless the consumer has published no room for it. */
    method Put(entry: T) returns (ok: bool)
      requires Valid()
      modifies this`regProduced, this`sys, producer, slots
      ensures Valid() && sys.n == old(sys.n)
      ensures ok == (|old(sys.sent)| - old(sys.released) < sys.n)
      ensures ok ==> sys.sent == old(sys.sent) + [entry] && sys.published == |sys.sent|
      ensures !ok ==> sys.sent == old(sys.sent) && sys.published == old(sys.published)
      ensures sys.received == old(sys.received) && sys.released == old(sys.released) && sys.base == old(sys.base)
    {
      hide Invariant, TryProduce;
      ghost var s := sys;
      ReservedIs(s);
      NextInvariant(s, Produce);
      var slot := producer.Produce(regConsumed);
      sys := Next(s, Produce);
      ok := slot.Some?;
      if ok {
        ghost var k := |s.sent|;
        FilledIs(sys, k, entry);
        NextInvariant(sys, Fill(k, entry));
        slots[slot.value] := entry;
        sys := Next(sys, Fill(k, entry));
        NextInvariant(sys, NotifyProduced);
        regProduced := producer.produced;
        sys := Next(sys, NotifyProduced);
      }
    }

    /** Take the next published entry, if there is one: the slot that holds it. */
    method Take() returns (slot: Option<nat>)
      requires Valid()
      modifies this`sys, consumer
      ensures Valid() && sys.n == old(sys.n)
      ensures slot.Some? == (|old(sys.received)| < sys.published)
      ensures slot.None? ==> sys.received == old(sys.received)
      ensures slot.Some? ==>
        && |old(sys.received)| < |sys.sent| && sys.received == old(sys.received) + [sys.sent[|old(sys.received)|]]
        && slot.value == SlotOf(sys, |old(sys.received)|)
      ensures sys.sent == old(sys.sent) && sys.published == old(sys.published)
      ensures sys.released == old(sys.released) && sys.base == old(sys.base)
    {
      hide Invariant, TryConsume;
      TakenIs(sys);
      NextInvariant(sys, XgqRing.Consume);
      slot := consumer.Consume(regProduced);
      sys := Next(sys, XgqRing.Consume);
    }

    /** Give back everything taken. */
    method Release()
      requires Valid()
      modifies this`regConsumed, this`sys
      ensures Valid() && sys.n == old(sys.n) && sys.base == old(sys.base)
      ensures sys.released == |sys.received| && sys.received == old(sys.received)
      ensures sys.sent == old(sys.sent) && sys.published == old(sys.published)
    {
      hide Invariant;
      NextInvariant(sys, NotifyConsumed);
      regConsumed := consumer.consumed;
      sys := Next(sys, NotifyConsumed);
    }

    lemma Bounds()
      requires Valid()
      ensures sys.released <= |sys.received| <= sys.published <= |sys.sent| && sys.received <= sys.sent
      ensures slots.Length == sys.n > 0
    {
    }

    /** An entry not given back is still in its slot. */
    lemma Holds(k: nat)
      requires Valid() && sys.released <= k < |sys.sent|
      ensures slots[SlotOf(sys, k)] == sys.sent[k]
    {
      assert slots[SlotOf(sys, k)] == slots[..][SlotOf(sys, k)];
    }
  }

  /** A reservation succeeds exactly if there is room, and changes nothing but counters and the history. */
  lemma ReservedIs<T>(s: System<T>)
    requires Invariant(s)
    ensures var (v, slot) := TryProduce(s.producer, s.regConsumed, s.n);
            var r := Next(s, Produce);
            && r.producer == v && r.consumer == s.consumer && r.slots == s.slots && r.n == s.n && r.base == s.base
            && r.regProduced == s.regProduced && r.regConsumed == s.regConsumed
            && r.published == s.published && r.received == s.received && r.released == s.released
            && (slot.Some? <==> |s.sent| - s.released < s.n)
            && (slot.None? ==> r.sent == s.sent)
            && (slot.Some? ==> slot.value == SlotOf(s, |s.sent|) && s.sent <= r.sent && |r.sent| == |s.sent| + 1
                               && s.published <= |s.sent|)
  {
    hide Full, Empty, Wrap32, Slot, SlotOf, Intact;
    TestsAreExact(s);
  }

  lemma FilledIs<T>(s: System<T>, k: nat, entry: T)
    requires Shape(s) && |s.sent| == k + 1
    ensures s.sent[k := entry] == s.sent[..k] + [entry]
  {
  }

  /** An entry is delivered exactly if one is published, and it is the next one. */
  lemma TakenIs<T>(s: System<T>)
    requires Invariant(s)
    ensures var (v, slot) := TryConsume(s.consumer, s.regProduced, s.n);
            var r := Next(s, XgqRing.Consume);
            && r.consumer == v && r.producer == s.producer && r.slots == s.slots && r.n == s.n && r.base == s.base
            && r.regProduced == s.regProduced && r.regConsumed == s.regConsumed
            && r.sent == s.sent && r.published == s.published && r.released == s.released
            && (slot.Some? <==> |s.received| < s.published)
            && (slot.None? ==> r.received == s.received)
            && (slot.Some? ==> |s.received| < |s.sent| && slot.value == SlotOf(s, |s.received|)
                               && r.received == s.received + [s.sent[|s.received|]])
  {
    hide Full, Empty, Wrap32, Slot, SlotOf;
    TestsAreExact(s);
    if |s.received| < s.published {
      assert s.slots[SlotOf(s, |s.received|)] == s.sent[|s.received|];
    }
  }
}
