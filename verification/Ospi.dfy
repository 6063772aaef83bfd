/**
 The polled OSPI flash driver: address translation over one or two stacked chips, sector
 erase, chunked write, read, page copy and the read-modify-write "safe write".
 Every operation is proved against a plan of device operations: the device history grows by
 a prefix of the plan, and by the whole plan when the call succeeds.
 */
module Ospi {
  import opened Machine
  import opened NorFlash
  import Bits

  /** The size of `n` pages; a page is 256 bytes on every supported part. */
  function PageBytes(n: nat): (r: nat)
    ensures r == 256 * n
  {
    256 * n
  }

  /** Sector size and size of one device, in bytes, and whether a second chip is stacked. */
  datatype Geometry = Geometry(sect: nat, dev: nat, stacked: bool) {
    ghost predicate Valid() {
      && 512 <= sect <= dev <= 0x1000_0000
      && sect % 256 == 0 && dev % 256 == 0 && Bits.MultipleOf(dev, sect)
      && Bits.IsPow2(sect) && Bits.IsPow2(dev)
    }

    function Capacity(): nat {
      if stacked then 2 * dev else dev
    }

    lemma CapacityInSectors()
      requires Valid()
      ensures Bits.MultipleOf(Capacity(), sect) && Capacity() % 256 == 0 && Capacity() <= 0x2000_0000
    {
      hide Bits.IsPow2, Bits.MultipleOf;
      Bits.MultiplesAdd(dev, dev, sect);
    }
  }

  // --- The supported parts ------------------------------------------------------------

  /** One row of the flash configuration table. */
  datatype FlashInfo = FlashInfo(jedecId: u32, sectSize: u32, numSect: u32, devSize: u32, sectMask: u32)

  const FLASH_CONFIG_TABLE: seq<FlashInfo> := [
    FlashInfo(0x2c5b1a, 0x20000, 0x200, 0x4000000, 0xFFFE0000),
    FlashInfo(0x2c5b1b, 0x20000, 0x400, 0x8000000, 0xFFFE0000),
    FlashInfo(0x2c5b1c, 0x20000, 0x800, 0x10000000, 0xFFFE0000),
    FlashInfo(0xc86819, 0x10000, 0x200, 0x2000000, 0xFFFF0000),
    FlashInfo(0x9d5b19, 0x20000, 0x100, 0x2000000, 0xFFFE0000)]

  /** The sector count in use: initialisation doubles the one of the table for two stacked chips. */
  function SectorsInUse(part: FlashInfo, stacked: bool): nat {
    if stacked then 2 * part.numSect else part.numSect
  }

  /**
   Every supported part is an instance of `Geometry`, with the mask the erase arithmetic uses; the sectors
   in use are those of the whole flash.
   */
  lemma TableIsGeometric(i: nat, stacked: bool)
    requires i < |FLASH_CONFIG_TABLE|
    ensures var part := FLASH_CONFIG_TABLE[i];
            && Geometry(part.sectSize, part.devSize, stacked).Valid()
            && part.sectMask == 0x1_0000_0000 - part.sectSize
            && part.numSect * part.sectSize == part.devSize
            && SectorsInUse(part, stacked) * part.sectSize == Geometry(part.sectSize, part.devSize, stacked).Capacity()
  {
    Bits.Pow2Constants();
    Bits.Pow2Sum(8, 17);
    Bits.Pow2Sum(1, 25);
    Bits.Pow2Sum(1, 26);
    Bits.Pow2Sum(1, 27);
    assert Bits.Pow2(1) == 2;
    assert Bits.Pow2(25) == 0x2000000 && Bits.Pow2(26) == 0x4000000;
    assert Bits.Pow2(27) == 0x8000000 && Bits.Pow2(28) == 0x10000000;
  }

  // --- Address translation --------------------------------------------------------------

  /** Chip select (true for the upper chip) and the address on that chip. */
  function ChipAddress(g: Geometry, address: u32): (bool, nat)
    requires g.dev < 0x1_0000_0000
  {
    if g.stacked && Bits.And(address, g.dev) != 0 then (true, Bits.And(address, 0xFFFF_FFFF - g.dev))
    else (false, address)
  }

  /** The flat address of a cell of one chip. */
  function FlatAddress(g: Geometry, cs: bool, cell: nat): nat {
    if cs then g.dev + cell else cell
  }

  /** A power of two of at most 29 bits, by its exponent. */
  lemma Exponent(n: nat) returns (k: nat)
    requires Bits.IsPow2(n) && n < 0x1_0000_0000
    ensures k < 32 && n == Bits.Pow2(k)
  {
    Bits.Pow2Constants();
    k :| n == Bits.Pow2(k);
    if k >= 32 {
      Bits.Pow2Monotone(32, k);
      assert false;
    }
  }

  /** What testing and clearing one address bit of weight `d` computes below `2 * d`. */
  lemma SplitAtBit(address: u32, d: nat)
    requires Bits.IsPow2(d) && 0 < d < 0x1_0000_0000 && address < 2 * d
    ensures Bits.And(address, d) == (if address < d then 0 else d)
    ensures Bits.And(address, 0xFFFF_FFFF - d) == (if address < d then address else address - d)
  {
    hide Bits.And, Bits.Pow2;
    var k := Exponent(d);
    Bits.Pow2Constants();
    Bits.AndOneBit(address, k);
    Bits.AndClearBit(address, k, 32);
    if address < d {
      Bits.ModSmall(address, d);
    } else {
      Bits.DivModUnique(address, d, 1, address - d);
    }
  }

  /** Chip select and chip address are exactly quotient and remainder by the device size. */
  lemma ChipAddressFlat(g: Geometry, address: u32)
    requires g.Valid() && address < g.Capacity()
    ensures var (cs, cell) := ChipAddress(g, address);
            cell < g.dev && (cs ==> g.stacked) && address == FlatAddress(g, cs, cell)
  {
    hide Bits.IsPow2, Bits.And;
    SplitAtBit(address, g.dev);
  }

  /** Two stacked chips are one flat flash: translation is a bijection onto the chip cells. */
  lemma ChipAddressBijection(g: Geometry, a: u32, b: u32, cs: bool, cell: nat)
    requires g.Valid() && a < g.Capacity() && b < g.Capacity()
    requires cell < g.dev && (cs ==> g.stacked)
    ensures ChipAddress(g, a) == ChipAddress(g, b) ==> a == b
    ensures FlatAddress(g, cs, cell) < g.Capacity()
    ensures ChipAddress(g, FlatAddress(g, cs, cell)) == (cs, cell)
  {
    ChipAddressFlat(g, a);
    ChipAddressFlat(g, b);
    ChipAddressFlat(g, FlatAddress(g, cs, cell));
  }

  // --- Erase arithmetic -------------------------------------------------------------------

  function WholeSectors(s: nat, len: nat): nat
    requires s > 0
  {
    len / s
  }

  /** How many sectors of `s` bytes the driver erases for `len` bytes at `address`, by its own arithmetic. */
  function NumSect(s: nat, address: nat, len: nat): nat
    requires 0 < s < 0x1_0000_0000
  {
    var n := WholeSectors(s, len) + 1;
    var mask := 0x1_0000_0000 - s;
    if Bits.And(Wrap32(address + len), mask) == Bits.And(Wrap32(address + Span(n, s)), mask) then n + 1 else n
  }

  /** The same count in closed form: sectors `address/s` through `(address+len)/s`. */
  function SectorsTouched(s: nat, address: nat, len: nat): (n: nat)
    requires s > 0
    ensures n >= 1
    ensures Bits.RoundDown(address, s) + Span(n, s) == EraseEnd(s, address, len)
  {
    var d := (address + len) / s - address / s;
    assert d * s == Bits.RoundDown(address + len, s) - Bits.RoundDown(address, s);
    Bits.MulFar(d, s);
    assert (d + 1) * s == d * s + s;
    d + 1
  }

  /** First byte after the last erased sector. */
  function EraseEnd(s: nat, address: nat, len: nat): nat
    requires s > 0
  {
    Bits.RoundDown(address + len, s) + s
  }

  lemma SumWithCarry(x: nat, y: nat, s: nat)
    requires s > 0
    ensures (x + y) / s == x / s + y / s + (if x % s + y % s >= s then 1 else 0)
  {
    var carry := if x % s + y % s >= s then 1 else 0;
    assert x == (x / s) * s + x % s && y == (y / s) * s + y % s;
    assert (x / s + y / s + carry) * s == (x / s) * s + (y / s) * s + carry * s;
    Bits.DivModUnique(x + y, s, x / s + y / s + carry, x % s + y % s - carry * s);
  }

  /** The sector after the last whole one counted is the last sector touched, or the one after it. */
  lemma CarryTest(address: nat, len: nat, s: nat)
    requires s > 0
    ensures var y := address + Span(WholeSectors(s, len) + 1, s);
            && y <= address + len + s
            && WholeSectors(s, len) + 1 + (if Bits.RoundDown(address + len, s) == Bits.RoundDown(y, s) then 1 else 0)
               == SectorsTouched(s, address, len)
  {
    var a, q := address / s, len / s;
    assert len == q * s + len % s;
    SpanNext(q, s);
    Bits.ModOfProduct(q + 1, s);
    Bits.ModAddMultiple(address, Span(q + 1, s), s);
    SumWithCarry(address, len, s);
    QuotientsDecide(a + q + 1, (address + len) / s, s);
  }

  lemma QuotientsDecide(j: nat, k: nat, s: nat)
    requires s > 0
    ensures j * s == k * s <==> j == k
  {
    Bits.MulFar(j - k, s);
    assert (j - k) * s == j * s - k * s;
  }

  /** The driver's mask comparison computes the closed form. */
  lemma NumSectClosedForm(g: Geometry, address: nat, len: nat)
    requires g.Valid() && address + len < g.Capacity()
    ensures 0 < g.sect < 0x1_0000_0000
    ensures NumSect(g.sect, address, len) == SectorsTouched(g.sect, address, len)
  {
    hide Bits.IsPow2, Bits.MultipleOf, Bits.RoundDown, Bits.And, SectorsTouched, Span, WholeSectors;
    CarryTest(address, len, g.sect);
    Masked(address + len, g);
    Masked(address + Span(WholeSectors(g.sect, len) + 1, g.sect), g);
  }

  lemma Masked(x: nat, g: Geometry)
    requires g.Valid() && x < 0x1_0000_0000
    ensures Bits.And(x, 0x1_0000_0000 - g.sect) == Bits.RoundDown(x, g.sect)
  {
    Bits.Pow2Constants();
    var k := Exponent(g.sect);
    Bits.AndHighMask(x, k, 32);
    Bits.RoundDownIs(x, g.sect);
  }

  /** The plan of a sector erase. */
  function ErasePlanFor(s: nat, address: nat, len: nat): seq<Op>
    requires s > 0
  {
    ErasePlan(Bits.RoundDown(address, s), s, SectorsTouched(s, address, len))
  }

  /**
   The bytes erased for `len` bytes at `address`: they cover `[address, address + len]`, including
   the byte just after the range, stay inside the flash, and overshoot the range by a whole sector
   exactly when it ends on a sector boundary.
   */
  lemma EraseCoverage(s: nat, c: seq<byte>, address: nat, len: nat)
    requires Bits.MultipleOf(|c|, s) && address + len < |c|
    ensures var from, to := Bits.RoundDown(address, s), EraseEnd(s, address, len);
            && from <= address <= address + len < to <= |c|
            && Run(c, ErasePlanFor(s, address, len)) == Blank(c, from, to - from)
            && AllWithin(ErasePlanFor(s, address, len), from, to)
            && (to == address + len + s <==> Bits.MultipleOf(address + len, s))
  {
    hide Bits.RoundDown, SectorsTouched, Span;
    var n := SectorsTouched(s, address, len);
    RunErase(c, Bits.RoundDown(address, s), s, n);
    ErasePlanWithin(Bits.RoundDown(address, s), s, n);
    Bits.MultiplesApart(Bits.RoundDown(address + len, s), |c|, s);
    Bits.RoundDownIs(address + len, s);
  }

  // --- Erasing the whole flash ------------------------------------------------------------------

  /** Which bulk erases took effect; the driver does not look at their results. */
  datatype Bulk = Bulk(lower: bool, upper: bool)

  /** The whole of the lower chip, then the whole of the upper one. */
  function BulkPlan(g: Geometry, b: Bulk): seq<Op> {
    (if b.lower then [Erase(0, g.dev)] else []) + (if g.stacked && b.upper then [Erase(g.dev, g.dev)] else [])
  }

  /** The plan of the driver's erase: every chip as a whole for the length of the flash, sectors otherwise. */
  function DriverErase(g: Geometry, address: nat, len: nat, b: Bulk): seq<Op>
    requires g.sect > 0
  {
    if len == g.Capacity() then BulkPlan(g, b) else ErasePlanFor(g.sect, address, len)
  }

  /** The erase stays in the flash, or does not look at the address. */
  predicate EraseInFlash(g: Geometry, address: nat, len: nat) {
    len == g.Capacity() || address + len < g.Capacity()
  }

  /** With every bulk erase effective, an erase of the flash's length leaves nothing on either chip. */
  lemma WholeFlashErase(g: Geometry, c: seq<byte>, address: nat)
    requires g.Valid() && |c| == g.Capacity()
    ensures Run(c, DriverErase(g, address, g.Capacity(), Bulk(true, true))) == Blank(c, 0, |c|)
  {
    var p, q := [Erase(0, g.dev)], [Erase(g.dev, g.dev)];
    RunOne(c, p[0]);
    if g.stacked {
      RunConcat(c, p, q);
      RunOne(Run(c, p), q[0]);
      assert Blank(Blank(c, 0, g.dev), g.dev, g.dev) == Blank(c, 0, |c|);
    } else {
      assert p + [] == p;
    }
  }

  /** An erase that ends inside the flash is a sector erase. */
  lemma InsideIsSectors(g: Geometry, address: nat, len: nat, b: Bulk)
    requires g.sect > 0 && address + len < g.Capacity()
    ensures DriverErase(g, address, len, b) == ErasePlanFor(g.sect, address, len)
  {
  }

  // --- The driver ---------------------------------------------------------------------------

  datatype Area = Boot | Apu | ScImage

  function BaseAddress(area: Area): u32 {
    match area
    case Boot => 0
    case Apu => 0x1000000
    case ScImage => 0xFFFF_FFFF
  }

  datatype Status = Success | Failure | Invalid | NoMemory

  /** The device history grew from `before` to `after` by a prefix of `plan`, by all of it if `complete`. */
  ghost predicate Grew(before: seq<Op>, after: seq<Op>, plan: seq<Op>, complete: bool) {
    && before <= after
    && after[|before|..] <= plan
    && (complete ==> after == before + plan)
  }

  lemma GrewNothing(before: seq<Op>, plan: seq<Op>)
    ensures Grew(before, before, plan, false)
    ensures Grew(before, before, [], true)
  {
    assert before[|before|..] == [] && before + [] == before;
  }

  lemma GrewAll(before: seq<Op>, plan: seq<Op>, complete: bool)
    ensures Grew(before, before + plan, plan, complete)
  {
    assert (before + plan)[|before|..] == plan;
  }

  lemma GrewThen(before: seq<Op>, middle: seq<Op>, after: seq<Op>, p: seq<Op>, q: seq<Op>, complete: bool)
    requires Grew(before, middle, p, true)
    requires Grew(middle, after, q, complete)
    ensures Grew(before, after, p + q, complete)
  {
    var rest := after[|middle|..];
    assert middle[|before|..] == p;
    assert after == middle + rest;
    assert after[|before|..] == p + rest;
    assert p + rest <= p + q;
    if complete {
      assert rest == q;
      assert after == before + (p + q);
    }
  }

  lemma GrewWiden(before: seq<Op>, after: seq<Op>, p: seq<Op>, q: seq<Op>)
    requires Grew(before, after, p, false) && p <= q
    ensures Grew(before, after, q, false)
  {
  }

  lemma WritePlanEmpty(addr: nat, data: seq<byte>)
    ensures WritePlan(addr, data[..0]) == []
  {
  }

  /** One chunk is a whole plan of its own. */
  lemma OneChunk(addr: nat, data: seq<byte>)
    requires 0 < |data| <= 8
    ensures WritePlan(addr, data) == [Program(addr, data)]
  {
    assert data[..|data|] == data && data[|data|..] == [];
    assert WritePlan(addr + |data|, []) == [];
  }

  /** Number of whole pages that hold `len` bytes. */
  function Pages(len: nat): (n: nat)
    ensures len <= PageBytes(n) < len + 256
  {
    len / 256 + (if len % 256 != 0 then 1 else 0)
  }

  lemma BlankOnChip(c0: seq<byte>, c1: seq<byte>, cs: bool, from: nat, n: nat)
    requires from + n <= (if cs then |c1| else |c0|)
    ensures Blank(c0 + c1, (if cs then |c0| else 0) + from, n)
         == (if cs then c0 + Blank(c1, from, n) else Blank(c0, from, n) + c1)
  {
  }

  lemma MergeOnChip(c0: seq<byte>, c1: seq<byte>, cs: bool, at: nat, data: seq<byte>)
    requires at + |data| <= (if cs then |c1| else |c0|)
    ensures Merge(c0 + c1, (if cs then |c0| else 0) + at, data)
         == (if cs then c0 + Merge(c1, at, data) else Merge(c0, at, data) + c1)
  {
  }

  lemma ErasePlanEmpty(start: nat, s: nat)
    ensures ErasePlan(start, s, 0) == []
  {
  }

  /** One more sector of an erase plan. */
  lemma GrewSector(before: seq<Op>, after: seq<Op>, start: nat, s: nat, sector: nat, n: nat, ok: bool)
    requires sector < n
    requires Grew(before + ErasePlan(start, s, sector), after, [Erase(start + Span(sector, s), s)], ok)
    ensures Grew(before, after, ErasePlan(start, s, n), false)
    ensures ok ==> after == before + ErasePlan(start, s, sector + 1)
  {
    var done := ErasePlan(start, s, sector);
    ErasePlanSnoc(start, s, sector);
    ErasePlanMonotone(start, s, sector + 1, n);
    assert (before + done)[|before|..] == done;
    assert Grew(before, before + done, done, true);
    GrewThen(before, before + done, after, done, [Erase(start + Span(sector, s), s)], ok);
    assert Grew(before, after, ErasePlan(start, s, sector + 1), ok);
    assert Grew(before, after, ErasePlan(start, s, sector + 1), false);
  }

  /** The operations that write the first `k` bytes of `buf`. */
  function Written(addr: nat, buf: seq<byte>, k: nat): seq<Op>
    requires k <= |buf|
  {
    WritePlan(addr, buf[..k])
  }

  lemma WrittenNothing(addr: nat, buf: seq<byte>)
    ensures Written(addr, buf, 0) == []
  {
  }

  lemma WrittenAll(before: seq<Op>, addr: nat, buf: seq<byte>, total: nat, ok: bool)
    requires total <= |buf|
    ensures Grew(before, before + Written(addr, buf, total), WritePlan(addr, buf[..total]), ok)
  {
    GrewAll(before, Written(addr, buf, total), ok);
  }

  /** `n` more bytes of a larger write, as one chunk or as one page. */
  lemma GrewWritten(before: seq<Op>, after: seq<Op>, addr: nat, buf: seq<byte>, done: nat, n: nat, total: nat, ok: bool)
    requires done % 8 == 0 && done + n <= total <= |buf| && ((done + n) % 8 == 0 || done + n == total)
    requires Grew(before + Written(addr, buf, done), after, WritePlan(addr + done, buf[done..done + n]), ok)
    ensures Grew(before, after, WritePlan(addr, buf[..total]), false)
    ensures ok ==> after == before + Written(addr, buf, done + n)
  {
    var p, q := Written(addr, buf, done), WritePlan(addr + done, buf[done..done + n]);
    WritePlanConcat(addr, buf[..done], buf[done..done + n]);
    assert buf[..done] + buf[done..done + n] == buf[..done + n] == buf[..total][..done + n];
    GrewAll(before, p, true);
    GrewThen(before, before + p, after, p, q, ok);
    WritePlanMonotone(addr, buf[..total], done + n);
    GrewWiden(before, after, p + q, WritePlan(addr, buf[..total]));
  }

  lemma JoinSlices(s: seq<byte>, a: nat, b: nat, c: nat)
    requires a <= b <= c <= |s|
    ensures s[a..b] + s[b..c] == s[a..c]
  {
  }

  /** No chunk of the write crosses a page: it starts on a chunk boundary, or stays in one page. */
  predicate InPage(address: nat, len: nat) {
    address % 8 == 0 || address % 256 + len <= 256
  }

  lemma InPageNext(address: nat, len: nat)
    requires InPage(address, len) && len > 8
    ensures InPage(address + 8, len - 8)
  {
    var q, r := address / 256, address % 256;
    assert address == 256 * q + r;
    if address % 8 == 0 {
      assert (address + 8) % 8 == 0;
    } else {
      Bits.DivModUnique(address + 8, 256, q, r + 8);
    }
  }

  /** A cell below the device size leaves room for a chunk that does not cross a page. */
  lemma ChunkBelow(cell: nat, base: nat, dev: nat, len: nat)
    requires base % 256 == 0 && dev % 256 == 0 && InPage(base + cell, len) && cell < dev
    ensures cell + Min(8, len) <= dev
  {
    if (base + cell) % 8 == 0 {
      PagesAreChunks(base);
      PagesAreChunks(dev);
      Bits.ModAddMultiple(cell, base, 8);
      Bits.MultiplesApart(cell, dev, 8);
    } else {
      Bits.ModAddMultiple(cell, base, 256);
      Bits.MultiplesApart(Bits.RoundDown(cell, 256), dev, 256);
      Bits.RoundDownIs(cell, 256);
    }
  }

  /** How many pages a copy of `len` bytes moves: one more than the whole pages in it. */
  function CopyPages(len: nat): (n: nat)
    ensures n >= 1 && PageBytes(n - 1) <= len < PageBytes(n)
  {
    len / 256 + 1
  }

  function PageAfter(c: seq<byte>, done: seq<Op>, at: nat): seq<byte>
    requires at + 256 <= |c|
  {
    Run(c, done)[at..at + 256]
  }

  /** The plan of a copy: each page is read from the flash as the pages before it left it. */
  function CopyPlan(c: seq<byte>, src: nat, tgt: nat, pages: nat): seq<Op>
    requires src + PageBytes(pages) <= |c|
  {
    if pages == 0 then []
    else
      var done := CopyPlan(c, src, tgt, pages - 1);
      done + WritePlan(tgt + PageBytes(pages - 1), PageAfter(c, done, src + PageBytes(pages - 1)))
  }

  lemma CopyPlanEmpty(c: seq<byte>, src: nat, tgt: nat)
    requires src <= |c|
    ensures CopyPlan(c, src, tgt, 0) == []
  {
  }

  lemma {:induction false} CopyPlanMonotone(c: seq<byte>, src: nat, tgt: nat, k: nat, n: nat)
    requires k <= n && src + PageBytes(n) <= |c|
    ensures CopyPlan(c, src, tgt, k) <= CopyPlan(c, src, tgt, n)
    decreases n
  {
    hide PageAfter, WritePlan;
    if k < n {
      CopyPlanMonotone(c, src, tgt, k, n - 1);
      assert CopyPlan(c, src, tgt, n - 1) <= CopyPlan(c, src, tgt, n);
    }
  }

  lemma GrewCopied(c: seq<byte>, src: nat, tgt: nat, done: nat, n: nat, before: seq<Op>, after: seq<Op>,
                   page: seq<byte>, ok: bool)
    requires done < n && src + PageBytes(n) <= |c|
    requires page == PageAfter(c, CopyPlan(c, src, tgt, done), src + PageBytes(done))
    requires Grew(before + CopyPlan(c, src, tgt, done), after, WritePlan(tgt + PageBytes(done), page), ok)
    ensures Grew(before, after, CopyPlan(c, src, tgt, n), false)
    ensures ok ==> after == before + CopyPlan(c, src, tgt, done + 1)
  {
    hide Grew, WritePlan, Run;
    CopyPlanMonotone(c, src, tgt, done + 1, n);
    GrewPart(before, after, CopyPlan(c, src, tgt, done), WritePlan(tgt + PageBytes(done), page),
             CopyPlan(c, src, tgt, n), ok);
  }

  /** Plan `q` follows the already completed plan `p`, inside the larger plan `w`. */
  lemma GrewPart(before: seq<Op>, after: seq<Op>, p: seq<Op>, q: seq<Op>, w: seq<Op>, ok: bool)
    requires Grew(before + p, after, q, ok)
    requires p + q <= w
    ensures Grew(before, after, w, false)
    ensures ok ==> after == before + (p + q)
  {
    GrewAll(before, p, true);
    GrewThen(before, before + p, after, p, q, ok);
    GrewWiden(before, after, p + q, w);
  }

  function At(area: Area, offset: u32): u32 {
    Wrap32(BaseAddress(area) + offset)
  }

  lemma AtPlus(area: Area, offset: u32, n: nat)
    requires At(area, offset) + n < 0x1_0000_0000
    ensures At(area, Wrap32(offset + n)) == At(area, offset) + n
  {
  }

  lemma PagesOfOne()
    ensures Pages(256) == 1 && PageBytes(1) == 256
  {
  }

  // --- Safe write -----------------------------------------------------------------------------

  /** The guard of the safe write: it looks at one bit of the offset. */
  predicate OddPage(offset: nat) {
    (offset / 256) % 2 == 1
  }

  lemma PageBitTest(offset: nat)
    ensures Bits.And(offset, 256) != 0 <==> OddPage(offset)
  {
    Bits.Pow2Constants();
    Bits.AndOneBit(offset, 8);
  }

  /** Where the last, partly covered sector of the range starts, counted from the offset. */
  function LastSector(s: nat, offset: nat, len: nat): nat
    requires s > 0
  {
    offset + Bits.RoundDown(len, s)
  }

  /** The cached sector: the tail of the buffer followed by what the flash held behind it. */
  function Cached(s: nat, c: seq<byte>, offset: nat, buf: seq<byte>, len: nat): seq<byte>
    requires s > 0 && LastSector(s, offset, len) + s <= |c| && len <= |buf|
  {
    buf[Bits.RoundDown(len, s)..len] + c[offset + len..LastSector(s, offset, len) + s]
  }

  /** Overwrite the start of the cached sector with the tail of the buffer. */
  function PatchSector(s: nat, sector: seq<byte>, offset: nat, buf: seq<byte>, len: nat): seq<byte>
    requires s > 0 && |sector| == s && len <= |buf|
  {
    buf[Bits.RoundDown(len, s)..len] + sector[len - Bits.RoundDown(len, s)..]
  }

  lemma CachedIsPatched(s: nat, c: seq<byte>, offset: nat, buf: seq<byte>, len: nat)
    requires s > 0 && LastSector(s, offset, len) + s <= |c| && len <= |buf|
    ensures var last := LastSector(s, offset, len);
            PatchSector(s, c[last..last + s], offset, buf, len) == Cached(s, c, offset, buf, len)
    ensures |Cached(s, c, offset, buf, len)| == s
  {
  }

  /** The rewrite of the cached sector is whole pages at a chunk-aligned address. */
  lemma RewriteIsWholePages(g: Geometry, offset: nat, len: nat, rest: seq<byte>)
    requires g.Valid() && offset % 8 == 0 && |rest| == g.sect
    ensures PageBytes(Pages(g.sect)) == g.sect && rest[..PageBytes(Pages(g.sect))] == rest
    ensures LastSector(g.sect, offset, len) % 8 == 0
  {
    hide Bits.IsPow2, Bits.MultipleOf, Bits.RoundDown;
    WholePages(g.sect);
    PagesAreChunks(g.sect);
    EightDivides(Bits.RoundDown(len, g.sect), g.sect);
  }

  lemma WholePages(n: nat)
    requires n % 256 == 0
    ensures PageBytes(Pages(n)) == n
  {
  }

  lemma PagesAreChunks(n: nat)
    requires n % 256 == 0
    ensures n % 8 == 0
  {
  }

  lemma EightDivides(x: nat, s: nat)
    requires Bits.MultipleOf(x, s) && s % 8 == 0
    ensures x % 8 == 0
  {
    var q, e := x / s, s / 8;
    assert x == q * s && s == e * 8;
    assert q * (e * 8) == (q * e) * 8;
    Bits.MulNonNegative(q, e);
    Bits.ModOfProduct(q * e, 8);
  }

  /** Erase, write, and rewrite of the last sector if the range covers it partly, after the erase `e`. */
  function SafeWriteOps(s: nat, e: seq<Op>, c: seq<byte>, offset: nat, buf: seq<byte>, len: nat): seq<Op>
    requires s > 0 && PageBytes(Pages(len)) <= |buf|
    requires Bits.MultipleOf(len, s) || LastSector(s, offset, len) + s <= |c|
  {
    e + WritePlan(offset, buf[..PageBytes(Pages(len))])
    + (if Bits.MultipleOf(len, s) then []
       else WritePlan(LastSector(s, offset, len), Cached(s, c, offset, buf, len)))
  }

  /** The same with the sector erase of the range. */
  function SafeWritePlan(s: nat, c: seq<byte>, offset: nat, buf: seq<byte>, len: nat): seq<Op>
    requires s > 0 && LastSector(s, offset, len) + s <= |c| && PageBytes(Pages(len)) <= |buf|
  {
    SafeWriteOps(s, ErasePlanFor(s, offset, len), c, offset, buf, len)
  }

  /** The three stages of a safe write, each a prefix of the whole when it ends the call. */
  lemma SafeWriteStages(s: nat, e: seq<Op>, c: seq<byte>, offset: nat, buf: seq<byte>, len: nat)
      returns (q: seq<Op>, r: seq<Op>)
    requires s > 0 && PageBytes(Pages(len)) <= |buf|
    requires Bits.MultipleOf(len, s) || LastSector(s, offset, len) + s <= |c|
    ensures q == WritePlan(offset, buf[..PageBytes(Pages(len))])
    ensures r == if Bits.MultipleOf(len, s) then []
                 else WritePlan(LastSector(s, offset, len), Cached(s, c, offset, buf, len))
    ensures SafeWriteOps(s, e, c, offset, buf, len) == e + q + r
    ensures e <= e + q + r && e + q <= e + q + r && (r == [] ==> e + q + r == e + q)
  {
    q := WritePlan(offset, buf[..PageBytes(Pages(len))]);
    r := if Bits.MultipleOf(len, s) then []
         else WritePlan(LastSector(s, offset, len), Cached(s, c, offset, buf, len));
  }

  class Flash {
    const g: Geometry
    var chip0: seq<byte>
    var chip1: seq<byte>
    ghost const factory: seq<byte>
    ghost var log: seq<Op>
    ghost var faults: nat    // failures with a cause outside the code, as far as the code looks at them

    function Flat(): seq<byte>
      reads this`chip0, this`chip1
    {
      chip0 + chip1
    }

    /** The cells hold exactly what the recorded device operations made of the initial contents. */
    ghost predicate Valid()
      reads this`chip0, this`chip1, this`log
      ensures Valid() ==> g.Valid() && |Flat()| == g.Capacity()
      ensures Valid() ==> 0 < g.sect <= g.dev <= 0x1000_0000
    {
      && g.Valid()
      && |chip0| == g.dev
      && |chip1| == (if g.stacked then g.dev else 0)
      && Flat() == Run(factory, log)
    }

    constructor (g: Geometry, cells: seq<byte>)
      requires g.Valid() && |cells| == g.Capacity()
      ensures Valid() && this.g == g && Flat() == cells && factory == cells && log == [] && faults == 0
    {
      this.g := g;
      chip0, chip1 := cells[..g.dev], cells[g.dev..];
      factory := cells;
      log, faults := [], 0;
    }

    /** The device's sector erase; a transfer is refused before any effect, or takes effect and is then polled. */
    method EraseCommand(cs: bool, cell: nat) returns (ok: bool)
      requires Valid() && cell < g.dev && (cs ==> g.stacked)
      modifies this`chip0, this`chip1, this`log, this`faults
      ensures Valid()
      ensures Grew(old(log), log, [Erase(FlatAddress(g, cs, Bits.RoundDown(cell, g.sect)), g.sect)], ok)
      ensures faults >= old(faults) && (ok <==> faults == old(faults))
    {
      hide Run, Blank, Merge, Bits.IsPow2, Bits.MultipleOf, Bits.RoundDown;
      var refused: bool := *;
      if refused {
        GrewNothing(log, [Erase(FlatAddress(g, cs, Bits.RoundDown(cell, g.sect)), g.sect)]);
        faults := faults + 1;
        return false;
      }
      var from := Bits.RoundDown(cell, g.sect);
      Bits.MultiplesApart(from, g.dev, g.sect);
      ghost var op := Erase(FlatAddress(g, cs, from), g.sect);
      ghost var before, c0, c1 := Flat(), chip0, chip1;
      if cs {
        chip1 := Blank(chip1, from, g.sect);
      } else {
        chip0 := Blank(chip0, from, g.sect);
      }
      BlankOnChip(c0, c1, cs, from, g.sect);
      Record(before, op);
      log := log + [op];
      ok := *;
      if !ok {
        faults := faults + 1;
      }
    }

    /** The device's bulk erase of one chip. Its result is ignored, so only its effect is told. */
    method BulkErase(cs: bool) returns (ghost done: bool)
      requires Valid() && (cs ==> g.stacked)
      modifies this`chip0, this`chip1, this`log
      ensures Valid()
      ensures log == old(log) + if done then [Erase(FlatAddress(g, cs, 0), g.dev)] else []
    {
      hide Run, Blank, Merge, Bits.IsPow2, Bits.MultipleOf;
      var refused: bool := *;
      done := !refused;
      if !refused {
        ghost var op := Erase(FlatAddress(g, cs, 0), g.dev);
        ghost var before, c0, c1 := Flat(), chip0, chip1;
        if cs {
          chip1 := Blank(chip1, 0, g.dev);
        } else {
          chip0 := Blank(chip0, 0, g.dev);
        }
        BlankOnChip(c0, c1, cs, 0, g.dev);
        Record(before, op);
        log := log + [op];
      }
    }

    lemma Record(before: seq<byte>, op: Op)
      requires before == Run(factory, log)
      ensures Apply(before, op) == Run(factory, log + [op])
      ensures Grew(log, log + [op], [op], true)
    {
      RunConcat(factory, log, [op]);
      RunOne(before, op);
    }

    /** The device's page program of one chunk. */
    method ProgramCommand(cs: bool, cell: nat, data: seq<byte>) returns (ok: bool)
      requires Valid() && cell + |data| <= g.dev && (cs ==> g.stacked)
      modifies this`chip0, this`chip1, this`log, this`faults
      ensures Valid()
      ensures Grew(old(log), log, [Program(FlatAddress(g, cs, cell), data)], ok)
      ensures faults >= old(faults) && (ok <==> faults == old(faults))
    {
      hide Run, Blank, Merge, Bits.IsPow2, Bits.MultipleOf, Bits.RoundDown;
      var refused: bool := *;
      if refused {
        GrewNothing(log, [Program(FlatAddress(g, cs, cell), data)]);
        faults := faults + 1;
        return false;
      }
      ghost var op := Program(FlatAddress(g, cs, cell), data);
      ghost var before, c0, c1 := Flat(), chip0, chip1;
      if cs {
        chip1 := Merge(chip1, cell, data);
      } else {
        chip0 := Merge(chip0, cell, data);
      }
      MergeOnChip(c0, c1, cs, cell, data);
      Record(before, op);
      log := log + [op];
      ok := *;
      if !ok {
        faults := faults + 1;
      }
    }

    /** The device's read of `n` bytes from one chip. */
    method ReadCommand(cs: bool, cell: nat, n: nat) returns (ok: bool, data: seq<byte>)
      requires Valid() && cell + n <= g.dev && (cs ==> g.stacked)
      modifies this`faults
      ensures Valid()
      ensures FlatAddress(g, cs, cell) + n <= |Flat()|
      ensures ok ==> data == Flat()[FlatAddress(g, cs, cell)..FlatAddress(g, cs, cell) + n]
      ensures faults >= old(faults) && (ok <==> faults == old(faults))
    {
      ok := *;
      data := if ok then (if cs then chip1 else chip0)[cell..cell + n] else [];
      if !ok {
        faults := faults + 1;
      }
    }

    /** Write `byteCount` bytes of `buf` in chunks of eight. */
    method FlashIoWrite(address: u32, byteCount: u32, buf: seq<byte>) returns (ok: bool)
      requires Valid() && address + byteCount <= g.Capacity() && byteCount <= |buf|
      requires InPage(address, byteCount)
      modifies this`chip0, this`chip1, this`log, this`faults
      ensures Valid()
      ensures Grew(old(log), log, WritePlan(address, buf[..byteCount]), ok)
      ensures faults >= old(faults) && (ok <==> faults == old(faults))
    {
      hide Valid, Geometry.Valid, Span, ErasePlan, WritePlan, Written, Grew, Bits.RoundDown, SectorsTouched, NumSect;
      hide ChipAddress;
      var at, left, from := address, byteCount, 0;
      GrewNothing(log, WritePlan(address, buf[..byteCount]));
      WrittenNothing(address, buf);
      while left != 0
        invariant Valid() && faults == old(faults)
        invariant left == 0 || left == byteCount - from
        invariant at == address + from && from % 8 == 0 && 0 <= left <= byteCount
        invariant left != 0 ==> InPage(at, left)
        invariant log == old(log) + Written(address, buf, byteCount - left)
      {
        ChunkOnOneChip(at, left);
        if left > 8 {
          InPageNext(at, left);
        }
        var (cs, cell) := ChipAddress(g, at);
        var n := if left <= 8 then left else 8;
        left := left - n;
        ok := ProgramCommand(cs, cell, buf[from..from + n]);
        OneChunk(at, buf[from..from + n]);
        GrewWritten(old(log), log, address, buf, from, n, byteCount, ok);
        if !ok {
          return;
        }
        from := from + 8;
        at := Wrap32(at + 8);
      }
      ok := true;
      WrittenAll(old(log), address, buf, byteCount, ok);
    }

    lemma ChunkOnOneChip(at: nat, left: nat)
      requires g.Valid() && InPage(at, left) && left > 0 && at + left <= g.Capacity()
      ensures at < g.Capacity() <= 0x2000_0000
      ensures var (cs, cell) := ChipAddress(g, at);
              cell + Min(8, left) <= g.dev && (cs ==> g.stacked) && FlatAddress(g, cs, cell) == at
    {
      ChipAddressFlat(g, at);
      var (cs, cell) := ChipAddress(g, at);
      ChunkBelow(cell, if cs then g.dev else 0, g.dev, left);
    }

    lemma ReadOnOneChip(address: nat, byteCount: nat, at: nat, left: int, n: int)
      requires g.Valid() && Reading(address, byteCount, at, left, n) && left != 0
      ensures 0 < n && at < g.Capacity() <= 0x2000_0000
      ensures var (cs, cell) := ChipAddress(g, at);
              cell + n <= g.dev && (cs ==> g.stacked) && FlatAddress(g, cs, cell) == at
    {
      ChipAddressFlat(g, at);
    }

    /** Where a read stands: `left` bytes to go from `at`, the next `n` of them on one chip. */
    ghost predicate Reading(address: nat, byteCount: nat, at: nat, left: int, n: int) {
      && at + left == address + byteCount <= g.Capacity()
      && (left == 0 || (0 < n <= left && at + n <= (if at < g.dev then g.dev else g.Capacity())))
      && (left == n || (left == byteCount && at + n == g.dev))
    }

    lemma ReadingStart(address: nat, byteCount: nat)
      requires address + byteCount <= g.Capacity() && byteCount != 0
      ensures Reading(address, byteCount, address, byteCount,
                      if address < g.dev && address + byteCount >= g.dev && g.stacked then g.dev - address else byteCount)
    {
    }

    lemma ReadingNext(address: nat, byteCount: nat, at: nat, left: int, n: int)
      requires g.Valid() && Reading(address, byteCount, at, left, n) && left != 0
      ensures 0 < n <= left && at + n <= g.Capacity() <= 0x2000_0000
      ensures left != n ==> Reading(address, byteCount, at + n, left - n, byteCount - n)
    {
    }

    /** Read a range, splitting it when it reaches the upper chip. */
    method FlashRead(address: u32, byteCount: u32) returns (ok: bool, buf: seq<byte>)
      requires Valid() && address + byteCount <= g.Capacity()
      modifies this`faults
      ensures Valid()
      ensures ok ==> buf == Flat()[address..address + byteCount]
      ensures faults >= old(faults) && (ok <==> faults == old(faults))
    {
      hide Valid, Flat, Geometry.Valid, ChipAddress, FlatAddress, Reading;
      if byteCount != 0 {
        ReadingStart(address, byteCount);
      }
      var at, left := address, byteCount;
      var n := if address < g.dev && address + byteCount >= g.dev && g.stacked
               then g.dev - address else byteCount;
      buf := [];
      while left != 0
        invariant Valid() && faults == old(faults)
        invariant at + left == address + byteCount <= |Flat()| && address <= at && 0 <= left
        invariant left != 0 ==> Reading(address, byteCount, at, left, n)
        invariant buf == Flat()[address..at]
        decreases left
      {
        ReadOnOneChip(address, byteCount, at, left, n);
        ReadingNext(address, byteCount, at, left, n);
        var (cs, cell) := ChipAddress(g, at);
        var data;
        ok, data := ReadCommand(cs, cell, n);
        if !ok {
          return;
        }
        left := left - n;
        JoinSlices(Flat(), address, at, at + n);
        at := Wrap32(at + n);
        buf := buf + data;
        n := Wrap32(byteCount - n);
      }
      ok := true;
    }

    method AreaRead(area: Area, offset: u32, len: u32) returns (ok: bool, buf: seq<byte>)
      requires Valid() && At(area, offset) + len <= g.Capacity()
      modifies this`faults
      ensures Valid()
      ensures ok ==> buf == Flat()[At(area, offset)..At(area, offset) + len]
      ensures faults >= old(faults) && (ok <==> faults == old(faults))
    {
      ok, buf := FlashRead(At(area, offset), len);
    }

    method AreaErase(area: Area, offset: u32, len: u32) returns (ok: bool, ghost b: Bulk)
      requires Valid() && EraseInFlash(g, At(area, offset), len)
      modifies this`chip0, this`chip1, this`log, this`faults
      ensures Valid()
      ensures Grew(old(log), log, DriverErase(g, At(area, offset), len, b), ok)
      ensures faults >= old(faults) && (ok <==> faults == old(faults))
    {
      ok, b := FlashErase(At(area, offset), len);
    }

    /** Write whole pages: the last page is written in full, whatever `len` is. */
    method AreaWrite(area: Area, buf: seq<byte>, offset: u32, len: u32) returns (ok: bool)
      requires Valid() && At(area, offset) % 8 == 0
      requires PageBytes(Pages(len)) <= |buf| && At(area, offset) + PageBytes(Pages(len)) <= g.Capacity()
      modifies this`chip0, this`chip1, this`log, this`faults
      ensures Valid()
      ensures Grew(old(log), log, WritePlan(At(area, offset), buf[..PageBytes(Pages(len))]), ok)
      ensures faults >= old(faults) && (ok <==> faults == old(faults))
    {
      hide Valid, Geometry.Valid, Bits.And, At, Pages, PageBytes, WritePlan, Written, Grew;
      var base, pages := At(area, offset), Pages(len);
      GrewNothing(log, WritePlan(base, buf[..PageBytes(pages)]));
      WrittenNothing(base, buf);
      for page := 0 to pages
        invariant Valid() && faults == old(faults)
        invariant log == old(log) + Written(base, buf, PageBytes(page))
      {
        PageOf(base, buf, page);
        var from := PageBytes(page);
        ok := FlashIoWrite(base + from, 256, buf[from..from + 256]);
        GrewWritten(old(log), log, base, buf, from, 256, PageBytes(pages), ok);
        if !ok {
          return;
        }
      }
      // The read-back pass changes nothing and may still report a mismatch.
      ok := *;
      if !ok {
        faults := faults + 1;
      }
      WrittenAll(old(log), base, buf, PageBytes(pages), ok);
    }

    lemma PageOf(base: nat, buf: seq<byte>, page: nat)
      requires PageBytes(page) + 256 <= |buf| && base % 8 == 0
      ensures (base + PageBytes(page)) % 8 == 0 && PageBytes(page) % 8 == 0 && (PageBytes(page) + 256) % 8 == 0
      ensures buf[PageBytes(page)..PageBytes(page) + 256][..256] == buf[PageBytes(page)..PageBytes(page) + 256]
    {
    }

    lemma Contents()
      requires Valid()
      ensures Flat() == Run(factory, log)
    {
    }

    lemma HistorySince(before: seq<Op>, plan: seq<Op>)
      requires Valid() && log == before + plan
      ensures Flat() == Run(Run(factory, before), plan)
    {
      RunConcat(factory, before, plan);
    }

    /** Copy `len / 256 + 1` whole pages; the caller has erased the target. */
    method AreaCopy(area: Area, src: u32, tgt: u32, len: u32) returns (ok: bool)
      requires Valid() && len > 0 && At(area, tgt) % 8 == 0
      requires At(area, src) + PageBytes(CopyPages(len)) <= g.Capacity()
      requires At(area, tgt) + PageBytes(CopyPages(len)) <= g.Capacity()
      modifies this`chip0, this`chip1, this`log, this`faults
      ensures Valid()
      ensures Grew(old(log), log, CopyPlan(old(Flat()), At(area, src), At(area, tgt), CopyPages(len)), ok)
      ensures faults >= old(faults) && (ok <==> faults == old(faults))
    {
      hide Valid, Geometry.Valid, WritePlan, CopyPlan, Grew, Run, At, Pages;
      ghost var c, s, t, n := Flat(), At(area, src), At(area, tgt), CopyPages(len);
      Contents();
      GrewNothing(log, CopyPlan(c, s, t, n));
      CopyPlanEmpty(c, s, t);
      ghost var done := 0;
      var idx := 0;
      while idx <= len
        invariant Valid() && faults == old(faults) && idx == PageBytes(done) && done <= n
        invariant log == old(log) + CopyPlan(c, s, t, done)
        decreases len - idx
      {
        AtPlus(area, src, idx);
        AtPlus(area, tgt, idx);
        PagesOfOne();
        var page;
        ok, page := AreaRead(area, Wrap32(src + idx), 256);
        if ok {
          CopiedPage(c, s, t, done, n, old(log), page);
          ok := AreaWrite(area, page, Wrap32(tgt + idx), 256);
          GrewCopied(c, s, t, done, n, old(log), log, page, ok);
        } else {
          GrewAll(old(log), CopyPlan(c, s, t, done), false);
          CopyPlanMonotone(c, s, t, done, n);
          GrewWiden(old(log), log, CopyPlan(c, s, t, done), CopyPlan(c, s, t, n));
        }
        if !ok {
          return;
        }
        idx := idx + 256;
        done := done + 1;
      }
      ok := true;
      GrewAll(old(log), CopyPlan(c, s, t, n), ok);
    }

    /**
     Write `len` bytes and keep the rest of the last sector: the last, partly written sector is
     cached, erased with the others and rewritten. The alignment guard tests one address bit.
     */
    method SafeWrite(area: Area, buf: seq<byte>, offset: u32, len: u32) returns (status: Status, ghost b: Bulk)
      requires Valid() && offset % 8 == 0 && EraseInFlash(g, offset, len)
      requires Bits.MultipleOf(len, g.sect) || LastSector(g.sect, offset, len) + g.sect <= g.Capacity()
      requires PageBytes(Pages(len)) <= |buf| && offset + PageBytes(Pages(len)) <= g.Capacity()
      modifies this`chip0, this`chip1, this`log, this`faults
      ensures Valid()
      ensures status == Invalid <==> area != Boot || OddPage(offset)
      ensures status == Invalid || status == NoMemory ==> log == old(log)
      ensures Grew(old(log), log,
                   SafeWriteOps(g.sect, DriverErase(g, offset, len, b), old(Flat()), offset, buf, len), status == Success)
      ensures faults >= old(faults)
      ensures status == Success <==> area == Boot && !OddPage(offset) && faults == old(faults)
    {
      hide Valid, Geometry.Valid, WritePlan, DriverErase, SafeWriteOps, Grew, Run, Pages, PageBytes, LastSector, Cached;
      hide PatchSector, OddPage, Bits.And, Bits.MultipleOf, Bits.RoundDown;
      ghost var c, s := Flat(), g.sect;
      b := Bulk(false, false);
      GrewNothing(log, SafeWriteOps(s, DriverErase(g, offset, len, b), c, offset, buf, len));
      PageBitTest(offset);
      status := Invalid;
      if area != Boot {
        return;
      }
      if Bits.And(offset, 256) != 0 {
        return;
      }
      var rest: seq<byte> := [];
      var last := LastSector(g.sect, offset, len);
      var partial := !Bits.MultipleOf(len, g.sect);
      if partial {
        var noMemory: bool := *;
        if noMemory {
          status := NoMemory;
          faults := faults + 1;
          return;
        }
        status := Failure;
        var read, sector := AreaRead(Boot, last, g.sect);
        if !read {
          return;
        }
        rest := PatchSector(g.sect, sector, offset, buf, len);
        CachedIsPatched(s, c, offset, buf, len);
      }
      status := Failure;
      var ok;
      ok, b := AreaErase(Boot, offset, len);
      ghost var p := DriverErase(g, offset, len, b);
      ghost var plan := SafeWriteOps(s, p, c, offset, buf, len);
      ghost var q, r := SafeWriteStages(s, p, c, offset, buf, len);
      ghost var erased := log;
      if !ok {
        GrewWiden(old(log), log, p, plan);
        return;
      }
      ok := AreaWrite(Boot, buf, offset, len);
      GrewThen(old(log), erased, log, p, q, ok);
      if !ok {
        GrewWiden(old(log), log, p + q, plan);
        return;
      }
      ghost var written := log;
      if partial {
        RewriteIsWholePages(g, offset, len, rest);
        ok := AreaWrite(Boot, rest, last, g.sect);
        GrewThen(old(log), written, log, p + q, r, ok);
      }
      status := if ok then Success else Failure;
    }

    lemma CopiedPage(c: seq<byte>, src: nat, tgt: nat, done: nat, n: nat, before: seq<Op>, page: seq<byte>)
      requires Valid() && done < n && src + PageBytes(n) <= |c|
      requires Run(factory, before) == c && log == before + CopyPlan(c, src, tgt, done)
      requires page == Flat()[src + PageBytes(done)..src + PageBytes(done) + 256]
      ensures |page| == 256 && page[..256] == page
      ensures page == PageAfter(c, CopyPlan(c, src, tgt, done), src + PageBytes(done))
    {
      HistorySince(before, CopyPlan(c, src, tgt, done));
    }

    /** Erase the sectors holding `[address, address + byteCount]`, or every chip for the flash's length. */
    method FlashErase(address: u32, byteCount: u32) returns (ok: bool, ghost b: Bulk)
      requires Valid() && EraseInFlash(g, address, byteCount)
      modifies this`chip0, this`chip1, this`log, this`faults
      ensures Valid()
      ensures Grew(old(log), log, DriverErase(g, address, byteCount, b), ok)
      ensures faults >= old(faults) && (ok <==> faults == old(faults))
    {
      hide Grew, Flash.Valid, Geometry.Valid, ErasePlanFor;
      if byteCount == g.Capacity() {
        ok, b := EraseChips();
      } else {
        b := Bulk(false, false);
        ok := EraseSectors(address, byteCount);
      }
    }

    /** Bulk-erases every chip; only selecting a chip can fail. */
    method EraseChips() returns (ok: bool, ghost b: Bulk)
      requires Valid()
      modifies this`chip0, this`chip1, this`log, this`faults
      ensures Valid()
      ensures Grew(old(log), log, BulkPlan(g, b), ok)
      ensures faults >= old(faults) && (ok <==> faults == old(faults))
    {
      hide Flash.Valid, Geometry.Valid;
      b := Bulk(false, false);
      ok := true;
      if g.stacked {
        ok := *;
        if !ok {
          faults := faults + 1;
          return;
        }
      }
      ghost var lower := BulkErase(false);
      b := Bulk(lower, false);
      if g.stacked {
        ok := *;
        if !ok {
          faults := faults + 1;
          return;
        }
        ghost var upper := BulkErase(true);
        b := Bulk(lower, upper);
      }
    }

    method EraseSectors(address: u32, byteCount: u32) returns (ok: bool)
      requires Valid() && address + byteCount < g.Capacity()
      modifies this`chip0, this`chip1, this`log, this`faults
      ensures Valid()
      ensures Grew(old(log), log, ErasePlanFor(g.sect, address, byteCount), ok)
      ensures faults >= old(faults) && (ok <==> faults == old(faults))
    {
      hide Valid, Geometry.Valid, Span, ErasePlan, WritePlan, Written, Grew, Bits.RoundDown, SectorsTouched, NumSect;
      hide ChipAddress;
      NumSectClosedForm(g, address, byteCount);
      var numSect := NumSect(g.sect, address, byteCount);
      var at := address;
      ghost var start := Bits.RoundDown(address, g.sect);
      GrewNothing(log, ErasePlan(start, g.sect, numSect));
      ErasePlanEmpty(start, g.sect);
      SpanNext(0, g.sect);
      for sector := 0 to numSect
        invariant Valid() && faults == old(faults)
        invariant at == address + Span(sector, g.sect)
        invariant log == old(log) + ErasePlan(start, g.sect, sector)
      {
        SectorInRange(address, byteCount, sector);
        var (cs, cell) := ChipAddress(g, at);
        ok := EraseCommand(cs, cell);
        GrewSector(old(log), log, start, g.sect, sector, numSect, ok);
        SpanNext(sector, g.sect);
        if !ok {
          return;
        }
        at := Wrap32(at + g.sect);
      }
      GrewAll(old(log), ErasePlan(start, g.sect, numSect), true);
      ok := true;
    }

    lemma SectorInRange(address: nat, len: nat, sector: nat)
      requires g.Valid() && address + len < g.Capacity() && sector < SectorsTouched(g.sect, address, len)
      ensures var at := address + Span(sector, g.sect);
              && 0 <= at < g.Capacity() <= 0x2000_0000
              && var (cs, cell) := ChipAddress(g, at);
                 && cell < g.dev && (cs ==> g.stacked)
                 && FlatAddress(g, cs, Bits.RoundDown(cell, g.sect))
                    == Bits.RoundDown(address, g.sect) + Span(sector, g.sect)
    {
      hide Bits.IsPow2, Bits.MultipleOf, Bits.RoundDown, Span, SectorsTouched, ChipAddress;
      g.CapacityInSectors();
      SectorBound(g.sect, g.Capacity(), address, len, sector);
      var at := address + Span(sector, g.sect);
      ChipAddressFlat(g, at);
      var (cs, cell) := ChipAddress(g, at);
      Bits.RoundDownAbove(cell, if cs then g.dev else 0, g.sect);
    }
  }

  lemma SectorBound(s: nat, capacity: nat, address: nat, len: nat, sector: nat)
    requires Bits.MultipleOf(capacity, s) && address + len < capacity && sector < SectorsTouched(s, address, len)
    ensures address + Span(sector, s) < capacity
    ensures Bits.RoundDown(address + Span(sector, s), s) == Bits.RoundDown(address, s) + Span(sector, s)
  {
    hide Bits.RoundDown, Bits.MultipleOf, SectorsTouched;
    var n := SectorsTouched(s, address, len);
    Bits.MultiplesApart(Bits.RoundDown(address + len, s), capacity, s);
    Bits.MulNonNegative(n - 1 - sector, s);
    assert Span(n - 1 - sector, s) + Span(sector, s) + s == Span(n, s);
    Bits.MultipleOfProduct(sector, s);
    Bits.RoundDownAbove(address, Span(sector, s), s);
  }
}
