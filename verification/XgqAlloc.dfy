/**
 Laying out XGQ rings in a buffer: how many slots fit, where headers and slot areas go, and how the
 peer attaches to what was laid out.
 */
module XgqAlloc {
  import opened Machine
  import opened XgqRing
  import Bits

  const HEADER_SIZE: nat := 44
  const CQ_ENTRY_SIZE: nat := 16

  /** Bytes of one ring: header, submission slots and completion slots. */
  function RingLen(n: nat, slotSize: nat): (r: nat)
    ensures r == HEADER_SIZE + SlotBytes(n, slotSize) + SlotBytes(n, CQ_ENTRY_SIZE)
    ensures r >= HEADER_SIZE
  {
    assert n * (slotSize + CQ_ENTRY_SIZE) == n * slotSize + n * CQ_ENTRY_SIZE;
    HEADER_SIZE + SlotBytes(n, slotSize + CQ_ENTRY_SIZE)
  }

  function SlotBytes(n: nat, slotSize: nat): (r: nat)
    ensures n == 0 ==> r == 0
  {
    Bits.MulNonNegative(n, slotSize);
    n * slotSize
  }

  /** Bytes of one ring for each slot size. */
  function TotalLen(n: nat, slotSizes: seq<u32>): nat {
    if slotSizes == [] then 0
    else TotalLen(n, slotSizes[..|slotSizes| - 1]) + RingLen(n, slotSizes[|slotSizes| - 1])
  }

  lemma {:induction false} TotalMonotone(m: nat, n: nat, slotSizes: seq<u32>)
    requires m <= n
    ensures TotalLen(m, slotSizes) <= TotalLen(n, slotSizes)
  {
    if slotSizes != [] {
      var last := slotSizes[|slotSizes| - 1];
      TotalMonotone(m, n, slotSizes[..|slotSizes| - 1]);
      Bits.MulNonNegative(n - m, last + CQ_ENTRY_SIZE);
      assert (n - m) * (last + CQ_ENTRY_SIZE) == n * (last + CQ_ENTRY_SIZE) - m * (last + CQ_ENTRY_SIZE);
    }
  }

  /** Doubling the slots less than doubles the bytes, because headers do not grow. */
  lemma {:induction false} TotalDoubles(n: nat, slotSizes: seq<u32>)
    ensures TotalLen(2 * n, slotSizes) <= 2 * TotalLen(n, slotSizes)
    ensures slotSizes != [] ==> TotalLen(2 * n, slotSizes) < 2 * TotalLen(n, slotSizes)
  {
    if slotSizes != [] {
      var last := slotSizes[|slotSizes| - 1];
      TotalDoubles(n, slotSizes[..|slotSizes| - 1]);
      assert (2 * n) * (last + CQ_ENTRY_SIZE) == 2 * (n * (last + CQ_ENTRY_SIZE));
    }
  }

  /** The sizes for which the 32-bit running total cannot wrap. */
  predicate NoWrap(rlen: nat, slotSizes: seq<u32>) {
    rlen <= 0x8000_0000 && TotalLen(1, slotSizes) <= 0x8000_0000
  }

  /** Sum the ring lengths for `n` slots in 32 bits. */
  method SumRingLens(n: u32, slotSizes: seq<u32>) returns (total: u32)
    ensures total == Wrap32(TotalLen(n, slotSizes))
  {
    hide RingLen, Wrap32;
    total := 0;
    for i := 0 to |slotSizes|
      invariant total == Wrap32(TotalLen(n, slotSizes[..i]))
    {
      assert slotSizes[..i + 1][..i] == slotSizes[..i];
      WrapAdd(TotalLen(n, slotSizes[..i]), RingLen(n, slotSizes[i]));
      total := Wrap32(total + RingLen(n, slotSizes[i]));
    }
    assert slotSizes[..|slotSizes|] == slotSizes;
  }

  /**
   Double the slot count while the rings still fit. Without wrap-around the result is the largest
   power of two that fits, capped at 2^30; a result below 2 says that two slots do not fit.
   */
  method AllocNumSlots(rlen: nat, slotSizes: seq<u32>) returns (n: u32)
    ensures 1 <= n <= 0x4000_0000 && Bits.IsPow2(n)
    ensures NoWrap(rlen, slotSizes) && n >= 2 ==> TotalLen(n, slotSizes) <= rlen
    ensures NoWrap(rlen, slotSizes) && n < 0x4000_0000 ==> rlen < TotalLen(2 * n, slotSizes)
  {
    Bits.Pow2Constants();
    var total: u32 := 0;
    var slots: u32 := 1;
    ghost var k := 0;
    while total <= rlen && slots < 0x8000_0000
      invariant k <= 31 && slots == Bits.Pow2(k)
      invariant k == 0 ==> total == 0
      invariant k > 0 && NoWrap(rlen, slotSizes) ==> total == TotalLen(slots, slotSizes)
      invariant k > 1 && NoWrap(rlen, slotSizes) ==> TotalLen(Bits.Pow2(k - 1), slotSizes) <= rlen
      decreases 31 - k
    {
      TotalDoubles(slots, slotSizes);
      PowerBelow(k);
      slots := 2 * slots;
      k := k + 1;
      total := SumRingLens(slots, slotSizes);
      if NoWrap(rlen, slotSizes) && slotSizes == [] {
        assert TotalLen(slots, slotSizes) == 0;
      }
    }
    assert k > 0;
    n := slots / 2;
    if k < 31 {
      PowerBelow(k);
    }
    assert n == Bits.Pow2(k - 1);
  }

  lemma PowerBelow(k: nat)
    requires k < 31
    ensures Bits.Pow2(k + 1) == 2 * Bits.Pow2(k) && Bits.Pow2(k + 1) <= 0x8000_0000
  {
    Bits.Pow2Constants();
    Bits.Pow2Monotone(k + 1, 31);
  }

  /** The result is the largest power of two that fits: a power of two fits if and only if it is no larger. */
  lemma LargestThatFits(rlen: nat, slotSizes: seq<u32>, n: nat, m: nat)
    requires Bits.IsPow2(n) && Bits.IsPow2(m) && 2 <= n <= 0x4000_0000 && 2 <= m <= 0x4000_0000
    requires TotalLen(n, slotSizes) <= rlen
    requires n < 0x4000_0000 ==> rlen < TotalLen(2 * n, slotSizes)
    ensures TotalLen(m, slotSizes) <= rlen <==> m <= n
  {
    if m <= n {
      TotalMonotone(m, n, slotSizes);
    } else if n < 0x4000_0000 {
      NextPower(n, m);
      TotalMonotone(2 * n, m, slotSizes);
    }
  }

  lemma NextPower(n: nat, m: nat)
    requires Bits.IsPow2(n) && Bits.IsPow2(m) && n < m
    ensures 2 * n <= m
  {
    var j: nat :| n == Bits.Pow2(j);
    var k: nat :| m == Bits.Pow2(k);
    if k <= j {
      Bits.Pow2Monotone(k, j);
      assert false;
    }
    Bits.Pow2Monotone(j + 1, k);
    assert Bits.Pow2(j + 1) == 2 * Bits.Pow2(j);
  }

  // --- Layout -------------------------------------------------------------------------------------

  /** Where one ring's pieces lie: the header, then the submission slots, then the completion slots. */
  datatype Geometry = Geometry(ringAddr: nat, slotNum: nat, slotSize: nat) {
    function SqAddr(): nat {
      ringAddr + HEADER_SIZE
    }

    function CqAddr(): nat {
      SqAddr() + SlotBytes(slotNum, slotSize)
    }

    function End(): nat {
      ringAddr + RingLen(slotNum, slotSize)
    }
  }

  /** Address of one slot of an area. */
  function SlotAddr(area: nat, slotSize: nat, slot: nat): nat {
    area + SlotBytes(slot, slotSize)
  }

  lemma AreasInOrder(g: Geometry)
    ensures g.ringAddr + HEADER_SIZE == g.SqAddr() <= g.CqAddr() <= g.End()
    ensures g.CqAddr() + SlotBytes(g.slotNum, CQ_ENTRY_SIZE) == g.End()
  {
  }

  /** Slots of one area do not overlap and stay inside the area. */
  lemma SlotsDisjoint(area: nat, n: nat, slotSize: nat, i: nat, j: nat)
    requires i < j < n
    ensures area <= SlotAddr(area, slotSize, i)
    ensures SlotAddr(area, slotSize, i) + slotSize <= SlotAddr(area, slotSize, j)
    ensures SlotAddr(area, slotSize, j) + slotSize <= area + SlotBytes(n, slotSize)
  {
    Bits.MulNonNegative(j - i - 1, slotSize);
    Bits.MulNonNegative(n - j - 1, slotSize);
    assert j * slotSize == (j - i - 1) * slotSize + i * slotSize + slotSize;
    assert n * slotSize == (n - j - 1) * slotSize + j * slotSize + slotSize;
  }

  datatype Result<T> = Ok(value: T) | Invalid | TooBig

  /** The rings of a group, one behind the other. */
  ghost predicate LaidOut(rings: seq<Geometry>, ringAddr: nat, n: nat, slotSizes: seq<u32>) {
    && |rings| == |slotSizes|
    && forall i :: 0 <= i < |rings| ==>
         rings[i] == Geometry(ringAddr + TotalLen(n, slotSizes[..i]), n, slotSizes[i])
  }

  /**
   Lay out one ring per slot size; `maxSlots` of zero means no limit. Yields the bytes used, the
   common slot count and the rings.
   */
  method GroupAlloc(ringAddr: nat, rlen: nat, slotSizes: seq<u32>, maxSlots: u32)
      returns (r: Result<(nat, nat, seq<Geometry>)>)
    ensures r.Invalid? <==> exists i :: 0 <= i < |slotSizes| && slotSizes[i] % 4 != 0
    ensures NoWrap(rlen, slotSizes) && r.TooBig? ==> rlen < TotalLen(2, slotSizes)
    ensures NoWrap(rlen, slotSizes) && r.Ok? ==>
      var (used, n, rings) := r.value;
      && used == TotalLen(n, slotSizes) <= rlen
      && LaidOut(rings, ringAddr, n, slotSizes)
      && (maxSlots == 0 || Bits.IsPow2(maxSlots) ==> Bits.IsPow2(n))
      && (maxSlots != 0 ==> n <= maxSlots)
      && (n != maxSlots && n < 0x4000_0000 ==> rlen < TotalLen(2 * n, slotSizes))
  {
    hide RingLen, LaidOut, Bits.IsPow2;
    for i := 0 to |slotSizes|
      invariant forall j :: 0 <= j < i ==> slotSizes[j] % 4 == 0
    {
      if slotSizes[i] % 4 != 0 {
        return Invalid;
      }
    }
    var n := AllocNumSlots(rlen, slotSizes);
    if n < 2 {
      return TooBig;
    }
    if maxSlots != 0 && n > maxSlots {
      TotalMonotone(maxSlots, n, slotSizes);
      n := maxSlots;
    }
    var used, rings := PlaceRings(ringAddr, n, slotSizes);
    r := Ok((used, n, rings));
  }

  /** Place one ring per slot size, each where the one before it ends. */
  method PlaceRings(ringAddr: nat, n: nat, slotSizes: seq<u32>) returns (used: nat, rings: seq<Geometry>)
    ensures used == TotalLen(n, slotSizes)
    ensures LaidOut(rings, ringAddr, n, slotSizes) && |rings| == |slotSizes|
    ensures rings != [] ==> rings[0].slotNum == n
  {
    hide RingLen;
    rings := [];
    var at := ringAddr;
    for i := 0 to |slotSizes|
      invariant |rings| == i && at == ringAddr + TotalLen(n, slotSizes[..i])
      invariant LaidOut(rings, ringAddr, n, slotSizes[..i])
    {
      assert slotSizes[..i + 1][..i] == slotSizes[..i];
      rings := rings + [Geometry(at, n, slotSizes[i])];
      at := at + RingLen(n, slotSizes[i]);
      LaidOutNext(rings, ringAddr, n, slotSizes, i);
    }
    assert slotSizes[..|slotSizes|] == slotSizes;
    used := at - ringAddr;
  }

  lemma LaidOutNext(rings: seq<Geometry>, ringAddr: nat, n: nat, slotSizes: seq<u32>, i: nat)
    requires i < |slotSizes| && |rings| == i + 1
    requires LaidOut(rings[..i], ringAddr, n, slotSizes[..i])
    requires rings[i] == Geometry(ringAddr + TotalLen(n, slotSizes[..i]), n, slotSizes[i])
    ensures LaidOut(rings, ringAddr, n, slotSizes[..i + 1])
  {
    forall j | 0 <= j < i + 1
      ensures rings[j] == Geometry(ringAddr + TotalLen(n, slotSizes[..i + 1][..j]), n, slotSizes[..i + 1][j])
    {
      assert slotSizes[..i + 1][..j] == slotSizes[..j];
      if j < i {
        assert slotSizes[..i][..j] == slotSizes[..j] && rings[..i][j] == rings[j];
      }
    }
  }

  /** The rings of a group lie one behind the other inside the buffer and never overlap. */
  lemma {:induction false} GroupDisjoint(rings: seq<Geometry>, ringAddr: nat, n: nat, slotSizes: seq<u32>, i: nat, j: nat)
    requires LaidOut(rings, ringAddr, n, slotSizes) && i < j < |rings|
    ensures ringAddr <= rings[i].ringAddr && rings[i].End() <= rings[j].ringAddr
    ensures rings[j].End() <= ringAddr + TotalLen(n, slotSizes)
  {
    TotalOfPrefix(n, slotSizes, i, j);
    TotalOfPrefix(n, slotSizes, j, |slotSizes|);
    assert slotSizes[..|slotSizes|] == slotSizes;
  }

  lemma {:induction false} TotalOfPrefix(n: nat, slotSizes: seq<u32>, i: nat, j: nat)
    requires i < j <= |slotSizes|
    ensures TotalLen(n, slotSizes[..i]) + RingLen(n, slotSizes[i]) <= TotalLen(n, slotSizes[..j])
    decreases j
  {
    hide RingLen;
    assert slotSizes[..j][..j - 1] == slotSizes[..j - 1];
    if i < j - 1 {
      TotalOfPrefix(n, slotSizes, i, j - 1);
    }
  }

  // --- Header, initialisation and attachment --------------------------------------------------------

  const ALLOC_MAGIC: u32 := 0x5847513F
  const VERSION: u32 := 0x1_0000

  datatype Header = Header(
    magic: u32, version: u32, slotNum: u32, sqOffset: u32, sqSlotSize: u32, cqOffset: u32,
    sqConsumed: u32, cqConsumed: u32, inMemProduced: bool, sqProduced: u32, cqProduced: u32)

  /** A queue pair as one side sees it. */
  datatype Xgq = Xgq(inMemProduced: bool, slotNum: u32, sqAddr: nat, sqSlotSize: u32, cqAddr: nat, sq: View, cq: View)

  datatype AttachResult = Attached(q: Xgq) | Again | NotSupported | Protocol

  /** The buffer's header, and the two producer registers outside it. */
  class RingMemory {
    var header: Header
    var sqReg: u32
    var cqReg: u32

    constructor (header: Header, sqReg: u32, cqReg: u32)
      ensures this.header == header && this.sqReg == sqReg && this.cqReg == cqReg
    {
      this.header := header;
      this.sqReg := sqReg;
      this.cqReg := cqReg;
    }

    /** Write the header, discard whatever the producer counters announce, and set the magic last. */
    method Init(inMem: bool, ringAddr: nat, n: u32, slotSize: u32) returns (q: Xgq)
      modifies this`header
      ensures header == InitialHeader(inMem, n, slotSize, sqReg, cqReg)
      ensures var g := Geometry(ringAddr, n, slotSize);
              q == Xgq(inMem, n, g.SqAddr(), slotSize, g.CqAddr(),
                       View(header.sqConsumed, header.sqConsumed), View(header.cqConsumed, header.cqConsumed))
    {
      var sqAddr := ringAddr + HEADER_SIZE;
      var cqAddr := sqAddr + SlotBytes(n, slotSize);
      header := Header(0, VERSION, n, Wrap32(sqAddr - ringAddr), slotSize, Wrap32(cqAddr - ringAddr), 0, 0, inMem, 0, 0);
      var sq := if inMem then header.sqProduced else sqReg;
      header := header.(sqConsumed := sq);
      var cq := if inMem then header.cqProduced else cqReg;
      header := header.(cqConsumed := cq);
      q := Xgq(inMem, n, sqAddr, slotSize, cqAddr, View(sq, sq), View(cq, cq));
      header := header.(magic := ALLOC_MAGIC);
    }

    /** Find an initialised ring and adopt its geometry and counters. */
    method Attach(inMem: bool, ringAddr: nat) returns (r: AttachResult)
      ensures r == AttachTo(header, inMem, ringAddr, sqReg, cqReg)
      ensures r.Attached? ==> SlotCount(r.q.slotNum) && r.q.slotNum == header.slotNum
      ensures r.Protocol? ==> !SlotCount(header.slotNum) || header.slotNum == 1
      ensures r.Attached? || r.Protocol? <==> header.magic == ALLOC_MAGIC && header.version / 0x1_0000 == 1
      ensures r.Attached? ==>
        && r.q.sq.consumed == header.sqConsumed && r.q.cq.consumed == header.cqConsumed
        && (inMem || header.inMemProduced ==>
              r.q.sq.produced == header.sqProduced && r.q.cq.produced == header.cqProduced)
        && (!inMem && !header.inMemProduced ==> r.q.sq.produced == sqReg && r.q.cq.produced == cqReg)
        && r.q.sqAddr == ringAddr + header.sqOffset && r.q.cqAddr == ringAddr + header.cqOffset
        && r.q.sqSlotSize == header.sqSlotSize && r.q.inMemProduced == (inMem || header.inMemProduced)
    {
      AttachedIsARing(header, inMem, ringAddr, sqReg, cqReg);
      if header.magic != ALLOC_MAGIC {
        return Again;
      }
      if header.version / 0x1_0000 != 1 {
        return NotSupported;
      }
      if header.slotNum < 2 || Bits.And(header.slotNum, header.slotNum - 1) != 0 {
        return Protocol;
      }
      var inMemory := inMem || header.inMemProduced;
      var sq := View(if inMemory then header.sqProduced else sqReg, header.sqConsumed);
      var cq := View(if inMemory then header.cqProduced else cqReg, header.cqConsumed);
      r := Attached(Xgq(inMemory, header.slotNum, ringAddr + header.sqOffset, header.sqSlotSize,
                        ringAddr + header.cqOffset, sq, cq));
    }
  }

  function InitialHeader(inMem: bool, n: u32, slotSize: u32, sqReg: u32, cqReg: u32): Header {
    Header(ALLOC_MAGIC, VERSION, n, HEADER_SIZE, slotSize, Wrap32(HEADER_SIZE + SlotBytes(n, slotSize)),
           if inMem then 0 else sqReg, if inMem then 0 else cqReg, inMem, 0, 0)
  }

  function AttachTo(h: Header, inMem: bool, ringAddr: nat, sqReg: u32, cqReg: u32): AttachResult {
    if h.magic != ALLOC_MAGIC then Again
    else if h.version / 0x1_0000 != 1 then NotSupported
    else if h.slotNum < 2 || Bits.And(h.slotNum, h.slotNum - 1) != 0 then Protocol
    else
      var inMemory := inMem || h.inMemProduced;
      Attached(Xgq(inMemory, h.slotNum, ringAddr + h.sqOffset, h.sqSlotSize, ringAddr + h.cqOffset,
                   View(if inMemory then h.sqProduced else sqReg, h.sqConsumed),
                   View(if inMemory then h.cqProduced else cqReg, h.cqConsumed)))
  }

  /**
   Attaching to a ring just initialised succeeds exactly for a power-of-two slot count of at least
   two. It then yields the geometry that was laid out, provided the 32-bit offsets could hold it, and
   both rings are empty whatever the producer registers held, exactly when the two sides agree on
   where the producer counters live (or those in the registers happen to be zero).
   */
  lemma AttachAfterInit(inMem: bool, flag: bool, ringAddr: nat, n: u32, slotSize: u32, sqReg: u32, cqReg: u32)
    ensures var r := AttachTo(InitialHeader(inMem, n, slotSize, sqReg, cqReg), flag, ringAddr, sqReg, cqReg);
            && (r.Attached? <==> n >= 2 && Bits.IsPow2(n))
            && (r.Attached? && RingLen(n, slotSize) < 0x1_0000_0000 ==>
                  var g := Geometry(ringAddr, n, slotSize);
                  r.q.slotNum == n && r.q.sqSlotSize == slotSize && r.q.sqAddr == g.SqAddr() && r.q.cqAddr == g.CqAddr())
            && (r.Attached? ==> (Empty(r.q.sq) && Empty(r.q.cq)
                                 <==> (flag ==> inMem) || (sqReg == 0 && cqReg == 0)))
  {
    hide Bits.And, Bits.IsPow2;
    if n > 0 {
      Bits.PowerOfTwoTest(n);
    }
  }

  /**
   Whatever the header holds, attaching succeeds only on a slot count that `XgqRing` is proved for, and
   for a header of the right magic and version it succeeds on every one but 1.
   */
  lemma AttachedIsARing(h: Header, inMem: bool, ringAddr: nat, sqReg: u32, cqReg: u32)
    ensures var r := AttachTo(h, inMem, ringAddr, sqReg, cqReg);
            && (r.Attached? ==> SlotCount(r.q.slotNum) && r.q.slotNum == h.slotNum)
            && (r.Protocol? ==> !SlotCount(h.slotNum) || h.slotNum == 1)
            && (r.Attached? || r.Protocol? <==> h.magic == ALLOC_MAGIC && h.version / 0x1_0000 == 1)
  {
    hide Bits.And, Bits.IsPow2;
    if h.slotNum > 0 {
      Bits.PowerOfTwoTest(h.slotNum);
      if Bits.IsPow2(h.slotNum) {
        AtMostHalf(h.slotNum);
      }
    }
  }

  /** Attaching to a ring in use shows the entries pending on each queue, and on that queue only. */
  lemma AttachShowsPending(h: Header, inMem: bool, ringAddr: nat, sqReg: u32, cqReg: u32, sqPending: u32,
                           cqPending: u32)
    requires AttachTo(h, inMem, ringAddr, sqReg, cqReg).Attached?
    requires (if inMem || h.inMemProduced then h.sqProduced else sqReg) == Wrap32(h.sqConsumed + sqPending)
    requires (if inMem || h.inMemProduced then h.cqProduced else cqReg) == Wrap32(h.cqConsumed + cqPending)
    ensures var q := AttachTo(h, inMem, ringAddr, sqReg, cqReg).q;
            && Wrap32(q.sq.produced - q.sq.consumed) == sqPending
            && Wrap32(q.cq.produced - q.cq.consumed) == cqPending
  {
    hide Bits.And;
  }

  /** A power of two that fits 32 bits leaves one bit free. */
  lemma AtMostHalf(n: u32)
    requires Bits.IsPow2(n)
    ensures n <= 0x8000_0000
  {
    var k: nat :| n == Bits.Pow2(k);
    Bits.Pow2Constants();
    if k >= 32 {
      Bits.Pow2Monotone(32, k);
      assert false;
    }
    Bits.Pow2Monotone(k, 31);
  }
}
