/** What holds after every device operation of a boot-image update, wherever it is cut short. */
module UpdateSafety {
  import opened Machine
  import opened NorFlash
  import opened Ospi
  import opened PdiUpdate
  import opened FlashResults
  import Bits

  /** The bytes of `[lo, hi)` are those of `c`. */
  ghost predicate Same(c: seq<byte>, r: seq<byte>, lo: nat, hi: nat) {
    |r| == |c| && forall i :: lo <= i < hi && i < |c| ==> r[i] == c[i]
  }

  lemma SameTrans(c: seq<byte>, d: seq<byte>, r: seq<byte>, lo: nat, hi: nat)
    requires Same(c, d, lo, hi) && Same(d, r, lo, hi)
    ensures Same(c, r, lo, hi)
  {
  }

  /** No prefix of the plan disturbs `[lo, hi)`. */
  ghost predicate Untouched(c: seq<byte>, plan: seq<Op>, lo: nat, hi: nat) {
    forall p :: p <= plan ==> Same(c, Run(c, p), lo, hi)
  }

  /** Operations confined elsewhere never disturb `[lo, hi)`. */
  lemma UntouchedOutside(c: seq<byte>, plan: seq<Op>, from: nat, to: nat, lo: nat, hi: nat)
    requires AllWithin(plan, from, to) && (to <= lo || hi <= from)
    ensures Untouched(c, plan, lo, hi)
  {
    forall p | p <= plan
      ensures Same(c, Run(c, p), lo, hi)
    {
      assert AllWithin(p, from, to) by {
        forall i | 0 <= i < |p|
          ensures Within(p[i], from, to)
        {
          assert p[i] == plan[i];
        }
      }
      Frame(c, p, from, to);
    }
  }

  /** Two plans in a row that each keep a range keep it together. */
  lemma UntouchedThen(c: seq<byte>, p: seq<Op>, q: seq<Op>, lo: nat, hi: nat)
    requires Untouched(c, p, lo, hi) && Untouched(Run(c, p), q, lo, hi)
    ensures Untouched(c, p + q, lo, hi)
    ensures Same(c, Run(c, p + q), lo, hi)
  {
    hide Same;
    assert p <= p && p + q <= p + q;
    forall x | x <= p + q
      ensures Same(c, Run(c, x), lo, hi)
    {
      PrefixSplit(x, p, q);
      if !(x <= p) {
        RunConcat(c, p, x[|p|..]);
        SameTrans(c, Run(c, p), Run(c, x), lo, hi);
      }
    }
  }

  // --- One partition ----------------------------------------------------------------------------

  /** The boot tag of the image at `a` is all ones, so it cannot be booted. */
  ghost predicate TagBlank(r: seq<byte>, a: nat) {
    a + TAG_OFFSET + 4 <= |r| && forall i :: a + TAG_OFFSET <= i < a + TAG_OFFSET + 4 ==> r[i] == ERASED
  }

  /** The whole image is in place at `a`. */
  ghost predicate InPlace(r: seq<byte>, a: nat, pdi: seq<byte>, len: nat) {
    a + len <= |r| && len <= |pdi| && r[a..a + len] == pdi[..len]
  }

  /** Never a torn image that could boot: old contents, blank tag, or all of the new image. */
  ghost predicate NotTorn(c: seq<byte>, r: seq<byte>, a: nat, size: nat, pdi: seq<byte>, len: nat) {
    Same(c, r, a, a + size) || TagBlank(r, a) || InPlace(r, a, pdi, len)
  }

  /** Where the image goes: a page-aligned range of the flash, its pages included. */
  ghost predicate Fits(s: nat, c: seq<byte>, a: nat, pdi: seq<byte>, len: nat) {
    && s > 0 && s % 256 == 0 && Bits.MultipleOf(|c|, s) && a % 256 == 0
    && a + len < |c| && Readable(pdi, len)
    && a + PageBytes(Pages(len)) <= |c| && a + 256 <= |c|
  }

  /** Sector erase blanks the tag first: the tag lies in the first sector erased. */
  lemma EraseBlanksTagFirst(s: nat, c: seq<byte>, a: nat, len: nat, p: seq<Op>)
    requires s > 0 && s % 256 == 0 && Bits.MultipleOf(|c|, s) && a % 256 == 0 && a + len < |c| && a + 256 <= |c|
    requires p <= ErasePlanFor(s, a, len)
    ensures p == [] || TagBlank(Run(c, p), a)
  {
    hide Bits.MultipleOf, SectorsTouched, Span, Run, Blank;
    var start := Bits.RoundDown(a, s);
    ErasePlanPrefix(start, s, SectorsTouched(s, a, len), p);
    if p != [] {
      RunErase(c, start, s, |p|);
      FirstSectorHoldsPage(s, a);
      SpanAtLeast(|p|, s);
      BlankCells(c, start, Span(|p|, s), a + TAG_OFFSET, 4);
    }
  }

  lemma BlankCells(c: seq<byte>, from: nat, n: nat, at: nat, k: nat)
    requires from <= at && at + k <= from + n && at + k <= |c|
    ensures forall i :: at <= i < at + k ==> Blank(c, from, n)[i] == ERASED
  {
  }

  lemma SpanAtLeast(n: nat, s: nat)
    requires n >= 1
    ensures Span(n, s) >= s
  {
    SpanNext(n - 1, s);
  }

  /** A page lies in one sector. */
  lemma FirstSectorHoldsPage(s: nat, a: nat)
    requires s > 0 && s % 256 == 0 && a % 256 == 0
    ensures a + 256 <= Bits.RoundDown(a, s) + s
  {
    MultipleOfPages(Bits.RoundDown(a, s), s);
  }

  /** Contents while the masked image is being written over blank cells. */
  lemma MaskedWriteKeepsTagBlank(c: seq<byte>, a: nat, pdi: seq<byte>, n: nat, p: seq<Op>)
    requires |pdi| >= 256 && n <= |pdi| && TagBlank(c, a) && p <= WritePlan(a, TagMasked(pdi)[..n])
    ensures TagBlank(Run(c, p), a)
  {
    var data := TagMasked(pdi)[..n];
    WritePlanPrefix(a, data, p);
    var k := Min(8 * |p|, |data|);
    RunWrite(c, a, data[..k]);
    MergeKeepsBlank(c, a, data[..k]);
  }

  lemma MergeKeepsBlank(c: seq<byte>, a: nat, data: seq<byte>)
    requires TagBlank(c, a)
    requires forall i :: TAG_OFFSET <= i < TAG_OFFSET + 4 && i < |data| ==> data[i] == ERASED
    ensures TagBlank(Merge(c, a, data), a)
  {
    ProgramFacts(ERASED);
  }

  /** The erased target holds the masked image after the first write. */
  lemma MaskedWriteStores(c: seq<byte>, a: nat, pdi: seq<byte>, n: nat)
    requires |pdi| >= 256 && n <= |pdi| && a + n <= |c|
    requires forall i :: a <= i < a + n ==> c[i] == ERASED
    ensures var r := Merge(c, a, TagMasked(pdi)[..n]);
            && (forall i :: 0 <= i < n ==> r[a + i] == TagMasked(pdi)[i])
            && (forall i :: 0 <= i < |c| && !(a <= i < a + n) ==> r[i] == c[i])
  {
    hide Bits.And;
    forall i | 0 <= i < n
      ensures Bits.And(ERASED, TagMasked(pdi)[i]) == TagMasked(pdi)[i]
    {
      ProgramFacts(TagMasked(pdi)[i]);
    }
  }

  /** Writing `k` bytes of the first page over the masked image: rewritten bytes keep their value. */
  lemma PageRewrite(c: seq<byte>, a: nat, pdi: seq<byte>, n: nat, k: nat)
    requires |pdi| >= 256 && n <= |pdi| && k <= 256 && a + 256 <= |c| && a + n <= |c|
    requires forall i :: 0 <= i < n ==> c[a + i] == TagMasked(pdi)[i]
    requires TagBlank(c, a)
    ensures var r := Merge(c, a, pdi[..k]);
            && (k <= TAG_OFFSET ==> TagBlank(r, a))
            && (k >= TAG_OFFSET + 4 ==> forall i :: 0 <= i < n ==> r[a + i] == pdi[i])
  {
    hide Bits.And;
    forall i | 0 <= i < n
      ensures Bits.And(TagMasked(pdi)[i], pdi[i]) == pdi[i]
    {
      ProgramFacts(pdi[i]);
    }
  }

  /** The image plan as three stages, and the contents between them. */
  lemma ImageStages(s: nat, c: seq<byte>, a: nat, pdi: seq<byte>, len: nat)
    requires Fits(s, c, a, pdi, len)
    ensures var n := PageBytes(Pages(len));
            var c1 := Run(c, ErasePlanFor(s, a, len));
            var c2 := Run(c1, WritePlan(a, TagMasked(pdi)[..n]));
            && TagBlank(c1, a) && TagBlank(c2, a)
            && forall i :: 0 <= i < n ==> c2[a + i] == TagMasked(pdi)[i]
  {
    hide Run, ErasePlanFor, WritePlan, Bits.MultipleOf, TagMasked, Pages, PageBytes, EraseEnd, Bits.RoundDown;
    var n, e := PageBytes(Pages(len)), ErasePlanFor(s, a, len);
    var data := TagMasked(pdi)[..n];
    EraseCoverage(s, c, a, len);
    PagesErased(s, a, len);
    EraseNotEmpty(s, a, len);
    EraseBlanksTagFirst(s, c, a, len, e);
    var c1 := Run(c, e);
    BlankCells(c, Bits.RoundDown(a, s), EraseEnd(s, a, len) - Bits.RoundDown(a, s), a, n);
    RunWrite(c1, a, data);
    MaskedWriteStores(c1, a, pdi, n);
    MaskedWriteKeepsTagBlank(c1, a, pdi, n, WritePlan(a, data));
  }

  lemma EraseNotEmpty(s: nat, a: nat, len: nat)
    requires s > 0
    ensures ErasePlanFor(s, a, len) != []
  {
  }

  lemma PagesErased(s: nat, a: nat, len: nat)
    requires s > 0 && s % 256 == 0 && a % 256 == 0
    ensures a + PageBytes(Pages(len)) <= EraseEnd(s, a, len)
  {
    CopiedPagesErased(s, a, len);
    PagesVersusCopied(len);
  }

  lemma PagesVersusCopied(len: nat)
    ensures PageBytes(Pages(len)) <= PageBytes(CopyPages(len))
  {
  }

  /**
   Crash consistency of one partition: after every prefix of the device operations of an image
   write either nothing has changed, or the boot tag is all ones, or the whole new image is there.
   */
  lemma CrashConsistent(s: nat, c: seq<byte>, a: nat, pdi: seq<byte>, len: nat, p: seq<Op>)
    requires Fits(s, c, a, pdi, len) && p <= ImagePlan(s, a, pdi, len)
    ensures p == [] || TagBlank(Run(c, p), a) || InPlace(Run(c, p), a, pdi, len)
    ensures p == ImagePlan(s, a, pdi, len) ==> InPlace(Run(c, p), a, pdi, len)
  {
    hide Run, ErasePlanFor, WritePlan, Bits.MultipleOf, TagMasked, Pages, PageBytes, TagBlank, InPlace;
    var n, e := PageBytes(Pages(len)), ErasePlanFor(s, a, len);
    var w, x := WritePlan(a, TagMasked(pdi)[..n]), WritePlan(a, pdi[..256]);
    var c1 := Run(c, e);
    var c2 := Run(c1, w);
    ImageStages(s, c, a, pdi, len);
    RunConcat(c, e, w);
    PrefixSplit(p, e + w, x);
    if p <= e + w {
      PrefixSplit(p, e, w);
      if p <= e {
        EraseBlanksTagFirst(s, c, a, len, p);
      } else {
        MaskedWriteKeepsTagBlank(c1, a, pdi, n, p[|e|..]);
        RunConcat(c, e, p[|e|..]);
      }
      FirstPageNotEmpty(a, pdi);
      assert p != e + w + x;
    } else {
      var y := p[|e + w|..];
      RunConcat(c, e + w, y);
      FirstPagePrefix(c2, a, pdi, n, len, y);
    }
  }

  lemma FirstPageNotEmpty(a: nat, pdi: seq<byte>)
    requires |pdi| >= 256
    ensures WritePlan(a, pdi[..256]) != []
  {
  }

  lemma FirstPagePrefix(c: seq<byte>, a: nat, pdi: seq<byte>, n: nat, len: nat, y: seq<Op>)
    requires |pdi| >= 256 && len <= n <= |pdi| && a + 256 <= |c| && a + n <= |c|
    requires forall i :: 0 <= i < n ==> c[a + i] == TagMasked(pdi)[i]
    requires TagBlank(c, a) && y <= WritePlan(a, pdi[..256])
    ensures TagBlank(Run(c, y), a) || InPlace(Run(c, y), a, pdi, len)
    ensures y == WritePlan(a, pdi[..256]) ==> InPlace(Run(c, y), a, pdi, len)
  {
    hide WritePlan, Run, Bits.And, TagBlank, TagMasked;
    WritePlanPrefix(a, pdi[..256], y);
    var k := Min(8 * |y|, 256);
    assert pdi[..256][..k] == pdi[..k];
    RunWrite(c, a, pdi[..k]);
    PageRewrite(c, a, pdi, n, k);
    if y == WritePlan(a, pdi[..256]) {
      RunWrite(c, a, pdi[..256]);
      PageRewrite(c, a, pdi, n, 256);
    }
  }

  // --- Footprints -------------------------------------------------------------------------------

  lemma WithinBoth(p: seq<Op>, q: seq<Op>, lo: nat, hi: nat)
    requires AllWithin(p, lo, hi) && AllWithin(q, lo, hi)
    ensures AllWithin(p + q, lo, hi)
  {
  }

  /**
   An erase for `len` bytes at the start of a partition stays inside the partition if and only if
   `len` is strictly smaller than the partition: for `len == size` it takes the sector behind it.
   */
  lemma EraseStaysInPartition(s: nat, a: nat, size: nat, len: nat)
    requires Bits.MultipleOf(a, s) && Bits.MultipleOf(size, s) && len <= size
    ensures EraseEnd(s, a, len) <= a + size <==> len < size
    ensures len == size ==> EraseEnd(s, a, len) == a + size + s
  {
    hide Bits.MultipleOf;
    Bits.MultiplesAdd(a, size, s);
    Bits.RoundDownIs(a + size, s);
    if len < size {
      Bits.MultiplesApart(Bits.RoundDown(a + len, s), a + size, s);
    }
  }

  /** An erase at a sector boundary stays in front of its end. */
  lemma EraseWithin(s: nat, a: nat, len: nat)
    requires Bits.MultipleOf(a, s)
    ensures AllWithin(ErasePlanFor(s, a, len), a, EraseEnd(s, a, len))
    ensures a + s <= EraseEnd(s, a, len)
  {
    Bits.RoundDownIs(a, s);
    StartsBelow(s, a, len);
    hide Bits.MultipleOf, Span;
    ErasePlanWithin(a, s, SectorsTouched(s, a, len));
  }

  lemma StartsBelow(s: nat, a: nat, len: nat)
    requires Bits.MultipleOf(a, s)
    ensures a <= Bits.RoundDown(a + len, s)
  {
    Bits.RoundDownAbove(len, a, s);
  }

  lemma WriteWithin(a: nat, size: nat, data: seq<byte>)
    requires |data| <= size
    ensures AllWithin(WritePlan(a, data), a, a + size)
  {
    WritePlanWithin(a, data);
    WidenWithin(WritePlan(a, data), a, a + |data|, a, a + size);
  }

  /** An image write stays in front of the end of its erase. */
  lemma ImageWithin(s: nat, a: nat, pdi: seq<byte>, len: nat)
    requires s > 0 && s % 256 == 0 && Bits.MultipleOf(a, s) && Readable(pdi, len)
    ensures AllWithin(ImagePlan(s, a, pdi, len), a, EraseEnd(s, a, len))
  {
    hide AllWithin, ErasePlanFor, EraseEnd, WritePlan, TagMasked, Pages, PageBytes, Bits.MultipleOf;
    var n, size := PageBytes(Pages(len)), EraseEnd(s, a, len) - a;
    MultipleOfPages(a, s);
    EraseWithin(s, a, len);
    PagesErased(s, a, len);
    SectorHoldsPage(s);
    WriteWithin(a, size, TagMasked(pdi)[..n]);
    WriteWithin(a, size, pdi[..256]);
    WithinBoth(ErasePlanFor(s, a, len), WritePlan(a, TagMasked(pdi)[..n]), a, a + size);
    WithinBoth(ErasePlanFor(s, a, len) + WritePlan(a, TagMasked(pdi)[..n]), WritePlan(a, pdi[..256]), a, a + size);
  }

  lemma SectorHoldsPage(s: nat)
    requires s > 0 && s % 256 == 0
    ensures s >= 256
  {
  }

  lemma PartitionHoldsPages(s: nat, size: nat, len: nat)
    requires s % 256 == 0 && Bits.MultipleOf(size, s) && len < size
    ensures PageBytes(Pages(len)) <= size && PageBytes(CopyPages(len)) <= size && 256 <= size
  {
    hide Bits.MultipleOf;
    MultipleOfPages(size, s);
    PagesFit(size, len);
    CopyPagesFit(size, len);
  }

  lemma CopyPagesFit(m: nat, len: nat)
    requires m % 256 == 0 && len < m
    ensures PageBytes(CopyPages(len)) <= m && 256 <= m
  {
  }

  /** A metadata write stays inside the metadata sector. */
  lemma MetaSetWithin(s: nat, c: seq<byte>, base: nat, m: PdiMeta)
    requires s > 256 && s % 256 == 0 && Bits.MultipleOf(base, s) && base + s <= |c| && ProperMeta(m)
    ensures AllWithin(MetaSetPlan(s, c, base, m), base, base + s)
  {
    hide AllWithin, ErasePlanFor, WritePlan, MetaPage, Cached;
    MetaWritable(s, c, base);
    OneSector(s);
    var p := ErasePlanFor(s, base, 256);
    var q, r := SafeWriteStages(s, p, c, base, MetaPage(m), 256);
    EraseWithin(s, base, 256);
    EraseStaysInPartition(s, base, s, 256);
    WidenWithin(p, base, EraseEnd(s, base, 256), base, base + s);
    WriteWithin(base, s, MetaPage(m)[..256]);
    CachedIsPatched(s, c, base, MetaPage(m), 256);
    WriteWithin(base, s, Cached(s, c, base, MetaPage(m), 256));
    WithinBoth(p, q, base, base + s);
    WithinBoth(p + q, r, base, base + s);
  }

  lemma OneSector(s: nat)
    requires s > 256
    ensures Bits.RoundDown(256, s) == 0 && !Bits.MultipleOf(256, s) && Bits.MultipleOf(s, s)
  {
    Bits.RoundDownUnique(256, 0, s);
    Bits.RoundDownIs(256, s);
    Bits.DivModUnique(s, s, 1, 0);
  }

  /** The metadata read back after a completed metadata write is what was written. */
  lemma MetaSetStores(s: nat, c: seq<byte>, base: nat, m: PdiMeta)
    requires s > 256 && s % 256 == 0 && Bits.MultipleOf(|c|, s) && Bits.MultipleOf(base, s)
    requires base + s <= |c| && ProperMeta(m)
    ensures MetaAt(Run(c, MetaSetPlan(s, c, base, m)), base) == m
  {
    hide MetaPage, DecodeMeta, Run, SafeWritePlan, SafeWritten;
    MetaWritable(s, c, base);
    OneSector(s);
    BoundsFollow(s, c, base, MetaPage(m), 256);
    SafeWriteWholePages(s, c, base, MetaPage(m), 256);
    var r := SafeWritten(s, c, base, MetaPage(m), 256);
    assert r == Run(c, MetaSetPlan(s, c, base, m)) by {
      hide *;
      SafeWrittenIs(s, c, base, m);
    }
    assert r[base..base + 256] == MetaPage(m);
    MetaRoundTrip(m);
  }

  lemma SafeWrittenIs(s: nat, c: seq<byte>, base: nat, m: PdiMeta)
    requires s > 256 && base + s <= |c| && ProperMeta(m)
    ensures LastSector(s, base, 256) + s <= |c| && PageBytes(Pages(256)) <= 256
    ensures SafeWritten(s, c, base, MetaPage(m), 256) == Run(c, MetaSetPlan(s, c, base, m))
  {
    MetaWritable(s, c, base);
  }

  // --- The whole update ---------------------------------------------------------------------------

  ghost predicate Apart(x: nat, n: nat, y: nat, m: nat) {
    x + n <= y || y + m <= x
  }

  /** Partitions and metadata sectors are sector-aligned and pairwise disjoint. */
  ghost predicate Placed(s: nat, capacity: nat, mb: Multiboot) {
    && s > 256 && s % 256 == 0 && Bits.MultipleOf(capacity, s)
    && Bits.MultipleOf(mb.a, s) && Bits.MultipleOf(mb.aSize, s)
    && Bits.MultipleOf(mb.b, s) && Bits.MultipleOf(mb.bSize, s)
    && Bits.MultipleOf(mb.metaA, s) && Bits.MultipleOf(mb.metaB, s)
    && InFlash(s, capacity, mb)
    && Apart(mb.a, mb.aSize, mb.b, mb.bSize)
    && Apart(mb.a, mb.aSize, mb.metaA, s) && Apart(mb.a, mb.aSize, mb.metaB, s)
    && Apart(mb.b, mb.bSize, mb.metaA, s) && Apart(mb.b, mb.bSize, mb.metaB, s)
    && Apart(mb.metaA, s, mb.metaB, s)
  }

  /** A partition table that meets these conditions on the smallest part with 128 KB sectors. */
  lemma PlacementExists() returns (mb: Multiboot)
    ensures Placed(0x2_0000, 0x200_0000, mb) && !mb.bootOnBackup
  {
    mb := Multiboot(true, false, 0x10_0000, 0x80_0000, 0x100_0000, 0x80_0000, 0x4_0000, 0x8_0000);
    assert 0x10_0000 == 8 * 0x2_0000 && 0x80_0000 == 64 * 0x2_0000 && 0x100_0000 == 128 * 0x2_0000;
  }

  /** Partition B holds the image that partition A held in `c`. */
  ghost predicate BackupHolds(c: seq<byte>, r: seq<byte>, mb: Multiboot)
    requires mb.metaA + 256 <= |c|
  {
    var size := SizeA(c, mb);
    && |r| == |c| && mb.a + size <= |c| && mb.b + size <= |c|
    && r[mb.b..mb.b + size] == c[mb.a..mb.a + size]
  }

  /**
   What an erase for `len` bytes of a partition takes stays clear of another range on a sector boundary,
   unless it is for the whole partition and the range lies directly behind.
   */
  lemma EraseClear(s: nat, a: nat, size: nat, len: nat, lo: nat, n: nat)
    requires Bits.MultipleOf(a, s) && Bits.MultipleOf(size, s) && Bits.MultipleOf(lo, s) && len <= size
    requires Apart(a, size, lo, n) && !(len == size && lo == a + size)
    ensures EraseEnd(s, a, len) <= lo || lo + n <= a
  {
    hide Bits.MultipleOf;
    EraseStaysInPartition(s, a, size, len);
    if len == size && a + size < lo {
      Bits.MultiplesAdd(a, size, s);
      Bits.MultiplesApart(a + size, lo, s);
    }
  }

  /** The backup's erase and copy stay inside the flash, whatever they overlap. */
  ghost predicate BackupReach(c: seq<byte>, mb: Multiboot)
    requires mb.metaA + 256 <= |c|
  {
    SizeA(c, mb) <= mb.aSize && mb.b + SizeA(c, mb) < |c| && CopyInFlash(c, mb)
  }

  /** The backup's erase leaves A alone: it is not for all of B, or A is not directly behind B. */
  ghost predicate SparesA(c: seq<byte>, mb: Multiboot)
    requires mb.metaA + 256 <= |c|
  {
    !(SizeA(c, mb) == mb.bSize && mb.a == mb.b + mb.bSize)
  }

  /** Erase and copy of a backup stay in front of the end of the erase. */
  lemma BackupWithin(s: nat, c: seq<byte>, mb: Multiboot)
    requires Placed(s, |c|, mb) && BackupReach(c, mb)
    ensures AllWithin(BackupErase(s, c, mb) + BackupCopy(s, c, mb), mb.b, EraseEnd(s, mb.b, SizeA(c, mb)))
  {
    hide Run, AllWithin, ErasePlanFor, EraseEnd, CopyPlan, Bits.MultipleOf, MetaAt, PageBytes, CopyPages;
    var size, e := SizeA(c, mb), BackupErase(s, c, mb);
    var n, end := PageBytes(CopyPages(size)), EraseEnd(s, mb.b, size);
    MultipleOfPages(mb.b, s);
    EraseWithin(s, mb.b, size);
    CopiedPagesErased(s, mb.b, size);
    CopyPlanWithin(Run(c, e), mb.a, mb.b, CopyPages(size));
    WidenWithin(BackupCopy(s, c, mb), mb.b, mb.b + n, mb.b, end);
    WithinBoth(e, BackupCopy(s, c, mb), mb.b, end);
  }

  /** No moment of a backup touches what is clear of its erase and of B's metadata sector. */
  lemma BackupKeeps(s: nat, c: seq<byte>, mb: Multiboot, lo: nat, hi: nat)
    requires Placed(s, |c|, mb) && BackupAccepted(c, mb) && BackupReach(c, mb) && lo <= hi
    requires EraseEnd(s, mb.b, SizeA(c, mb)) <= lo || hi <= mb.b
    requires Apart(mb.metaB, s, lo, hi - lo)
    ensures Untouched(c, BackupPlan(s, c, mb), lo, hi)
    ensures Untouched(c, BackupErase(s, c, mb) + BackupCopy(s, c, mb), lo, hi)
  {
    hide Run, Untouched, AllWithin, ErasePlanFor, EraseEnd, CopyPlan, MetaSetPlan, Bits.MultipleOf, MetaAt;
    hide PageBytes, CopyPages;
    var e, y := BackupErase(s, c, mb), BackupCopy(s, c, mb);
    BackupWithin(s, c, mb);
    UntouchedOutside(c, e + y, mb.b, EraseEnd(s, mb.b, SizeA(c, mb)), lo, hi);
    var d := Run(c, e + y);
    var meta := Refreshed(MetaAt(c, mb.metaB), SizeA(c, mb));
    MetaSetWithin(s, d, mb.metaB, meta);
    UntouchedOutside(d, MetaSetPlan(s, d, mb.metaB, meta), mb.metaB, mb.metaB + s, lo, hi);
    UntouchedThen(c, e + y, MetaSetPlan(s, d, mb.metaB, meta), lo, hi);
  }

  /** Nothing the backup stage does, at any point, touches partition A. */
  lemma BackupKeepsA(s: nat, c: seq<byte>, mb: Multiboot)
    requires Placed(s, |c|, mb) && BackupAccepted(c, mb) && BackupReach(c, mb) && SparesA(c, mb)
    ensures Untouched(c, BackupPlan(s, c, mb), mb.a, mb.a + mb.aSize)
  {
    hide Untouched, EraseEnd, Bits.MultipleOf, MetaAt, CopyInFlash, BackupErase, BackupCopy, BackupPlan;
    EraseClear(s, mb.b, mb.bSize, SizeA(c, mb), mb.a, mb.aSize);
    BackupKeeps(s, c, mb, mb.a, mb.a + mb.aSize);
  }

  /** The copy leaves B equal to the image in A, also where its extra page comes from B itself. */
  lemma BackupStage(s: nat, c: seq<byte>, mb: Multiboot)
    requires Placed(s, |c|, mb) && BackupAccepted(c, mb) && BackupReach(c, mb) && SparesA(c, mb)
    ensures BackupHolds(c, Run(c, BackupErase(s, c, mb) + BackupCopy(s, c, mb)), mb)
  {
    hide Run, ErasePlanFor, EraseEnd, CopyPlan, Bits.MultipleOf, MetaAt, PageBytes, CopyPages;
    var size := SizeA(c, mb);
    RunConcat(c, BackupErase(s, c, mb), BackupCopy(s, c, mb));
    EraseClear(s, mb.b, mb.bSize, size, mb.a, mb.aSize);
    CopiedImage(s, c, mb.a, mb.aSize, mb.b, size);
  }

  lemma CopiedImage(s: nat, c: seq<byte>, a: nat, aSize: nat, b: nat, size: nat)
    requires s > 0 && s % 256 == 0 && Bits.MultipleOf(|c|, s) && Bits.MultipleOf(aSize, s) && Bits.MultipleOf(b, s)
    requires size <= aSize && b + size < |c| && a + PageBytes(CopyPages(size)) <= |c|
    requires EraseEnd(s, b, size) <= a || a + aSize <= b
    ensures var c1 := Run(c, ErasePlanFor(s, b, size));
            var r := Run(c1, CopyPlan(c1, a, b, CopyPages(size)));
            a + size <= |c| && r[b..b + size] == c[a..a + size]
  {
    hide *;
    CopyExceeds(size);
    MultipleOfPages(b, s);
    if size < aSize {
      SmallCopyApart(s, a, aSize, b, size);
      EraseThenCopy(s, c, a, b, size);
      var c1 := Run(c, ErasePlanFor(s, b, size));
      PrefixOfPages(c, Run(c1, CopyPlan(c1, a, b, CopyPages(size))), a, b, size, PageBytes(CopyPages(size)));
    } else {
      MultipleOfPages(aSize, s);
      EraseThenCopyWhole(s, c, a, b, size);
    }
  }

  /** The pages copied from a partition with room behind its image are clear of what the copy erases. */
  lemma SmallCopyApart(s: nat, a: nat, aSize: nat, b: nat, size: nat)
    requires s > 0 && s % 256 == 0 && Bits.MultipleOf(aSize, s) && Bits.MultipleOf(b, s) && size < aSize
    requires EraseEnd(s, b, size) <= a || a + aSize <= b
    ensures var n := PageBytes(CopyPages(size));
            n <= aSize && (a + n <= Bits.RoundDown(b, s) || EraseEnd(s, b, size) <= a)
  {
    hide *;
    PartitionHoldsPages(s, aSize, size);
    Bits.RoundDownIs(b, s);
  }

  lemma PrefixOfPages(c: seq<byte>, r: seq<byte>, a: nat, b: nat, size: nat, n: nat)
    requires size <= n && a + n <= |c| && b + n <= |r| && r[b..b + n] == c[a..a + n]
    ensures r[b..b + size] == c[a..a + size]
  {
    assert r[b..b + n][..size] == r[b..b + size] && c[a..a + n][..size] == c[a..a + size];
  }

  /**
   After the backup stage B holds the image of A, A is unchanged, and B's metadata has its size; A's metadata
   is unchanged too unless the image fills B.
   */
  lemma BackupResult(s: nat, c: seq<byte>, mb: Multiboot)
    requires Placed(s, |c|, mb) && BackupAccepted(c, mb) && BackupReach(c, mb) && SparesA(c, mb)
    ensures var r := Run(c, BackupPlan(s, c, mb));
            && BackupHolds(c, r, mb)
            && Same(c, r, mb.a, mb.a + mb.aSize)
            && (SizeA(c, mb) < mb.bSize ==> Same(c, r, mb.metaA, mb.metaA + s))
            && MetaAt(r, mb.metaB) == Refreshed(MetaAt(c, mb.metaB), SizeA(c, mb))
  {
    hide Run, AllWithin, ErasePlanFor, EraseEnd, WritePlan, CopyPlan, MetaSetPlan, Bits.MultipleOf, MetaAt;
    hide PageBytes, CopyPages;
    hide Untouched, Same;
    var size := SizeA(c, mb);
    var e, y := BackupErase(s, c, mb), BackupCopy(s, c, mb);
    BackupStage(s, c, mb);
    BackupKeepsA(s, c, mb);
    WholePrefix(c, BackupPlan(s, c, mb), mb.a, mb.a + mb.aSize);
    var d := Run(c, e + y);
    var meta := Refreshed(MetaAt(c, mb.metaB), size);
    var z := MetaSetPlan(s, d, mb.metaB, meta);
    MetaSetWithin(s, d, mb.metaB, meta);
    MetaSetStores(s, d, mb.metaB, meta);
    RunConcat(c, e + y, z);
    UntouchedOutside(d, z, mb.metaB, mb.metaB + s, mb.b, mb.b + mb.bSize);
    WholePrefix(d, z, mb.b, mb.b + mb.bSize);
    HoldsStill(c, d, Run(d, z), mb);
    if size < mb.bSize {
      EraseClear(s, mb.b, mb.bSize, size, mb.metaA, s);
      BackupKeeps(s, c, mb, mb.metaA, mb.metaA + s);
      WholePrefix(c, BackupPlan(s, c, mb), mb.metaA, mb.metaA + s);
    }
  }

  lemma WholePrefix(c: seq<byte>, plan: seq<Op>, lo: nat, hi: nat)
    requires Untouched(c, plan, lo, hi)
    ensures Same(c, Run(c, plan), lo, hi)
  {
    assert plan <= plan;
  }

  /** A backup survives anything that leaves B alone. */
  lemma HoldsStill(c: seq<byte>, d: seq<byte>, r: seq<byte>, mb: Multiboot)
    requires mb.metaA + 256 <= |c| && BackupHolds(c, d, mb) && SizeA(c, mb) <= mb.bSize
    requires Same(d, r, mb.b, mb.b + mb.bSize)
    ensures BackupHolds(c, r, mb)
  {
    hide MetaAt;
  }

  // Flashing A.

  /** The stages of flashing A. */
  lemma FlashPlanParts(s: nat, c: seq<byte>, mb: Multiboot, pdi: seq<byte>, len: nat)
    requires InFlash(s, |c|, mb) && Readable(pdi, len) && FlashAccepted(mb, len)
    ensures var p := ResetPlan(s, c, mb) + ImagePlan(s, mb.a, pdi, len);
            FlashPlan(s, c, mb, pdi, len)
            == p + MetaSetPlan(s, Run(c, p), mb.metaA, Refreshed(MetaAt(c, mb.metaA), len))
  {
  }

  lemma UpdatePlanParts(s: nat, c: seq<byte>, mb: Multiboot, noBackup: bool, pdi: seq<byte>, len: nat)
    requires InFlash(s, |c|, mb) && Readable(pdi, len)
    ensures !mb.hasFpt || (CopiesFirst(mb, noBackup) && !BackupAccepted(c, mb)) ==>
              UpdatePlan(s, c, mb, noBackup, pdi, len) == []
    ensures mb.hasFpt && !CopiesFirst(mb, noBackup) ==>
              UpdatePlan(s, c, mb, noBackup, pdi, len) == FlashPlan(s, c, mb, pdi, len)
    ensures mb.hasFpt && CopiesFirst(mb, noBackup) && BackupAccepted(c, mb) ==>
              UpdatePlan(s, c, mb, noBackup, pdi, len)
              == BackupPlan(s, c, mb) + FlashPlan(s, Run(c, BackupPlan(s, c, mb)), mb, pdi, len)
    ensures !FlashAccepted(mb, len) ==> FlashPlan(s, c, mb, pdi, len) == []
  {
  }

  /** The image and its erase are in the flash; only its erase may reach past the partition. */
  lemma FlashStages(s: nat, c: seq<byte>, mb: Multiboot, pdi: seq<byte>, len: nat)
    requires Placed(s, |c|, mb) && Readable(pdi, len) && FlashAccepted(mb, len) && mb.a + len < |c|
    ensures Fits(s, c, mb.a, pdi, len)
    ensures AllWithin(ResetPlan(s, c, mb), mb.metaA, mb.metaA + s)
    ensures AllWithin(ImagePlan(s, mb.a, pdi, len), mb.a, EraseEnd(s, mb.a, len))
  {
    hide AllWithin, ErasePlanFor, EraseEnd, ImagePlan, Bits.MultipleOf, MetaAt, Pages, PageBytes;
    MultipleOfPages(mb.a, s);
    EraseWithin(s, mb.a, len);
    EraseCoverage(s, c, mb.a, len);
    PagesErased(s, mb.a, len);
    ImageWithin(s, mb.a, pdi, len);
    OneSector(s);
    if MetaAt(c, mb.metaA).magic == PDIMETA_MAGIC {
      NothingWithin(mb.metaA, mb.metaA + s);
    } else {
      EraseWithin(s, mb.metaA, 256);
      EraseStaysInPartition(s, mb.metaA, s, 256);
      WidenWithin(ResetPlan(s, c, mb), mb.metaA, EraseEnd(s, mb.metaA, 256), mb.metaA, mb.metaA + s);
    }
  }

  /** Flashing A never touches what is clear of its erase and of A's metadata sector. */
  lemma FlashKeeps(s: nat, c: seq<byte>, mb: Multiboot, pdi: seq<byte>, len: nat, lo: nat, hi: nat)
    requires Placed(s, |c|, mb) && Readable(pdi, len) && lo <= hi
    requires FlashAccepted(mb, len) ==>
      && mb.a + len < |c| && (EraseEnd(s, mb.a, len) <= lo || hi <= mb.a) && Apart(mb.metaA, s, lo, hi - lo)
    ensures Untouched(c, FlashPlan(s, c, mb, pdi, len), lo, hi)
  {
    UpdatePlanParts(s, c, mb, false, pdi, len);
    hide Run, AllWithin, Untouched, ErasePlanFor, EraseEnd, ImagePlan, ResetPlan, MetaSetPlan, FlashPlan;
    hide UpdatePlan, MetaAt, Bits.MultipleOf;
    if FlashAccepted(mb, len) {
      FlashStages(s, c, mb, pdi, len);
      FlashPlanParts(s, c, mb, pdi, len);
      var p, q := ResetPlan(s, c, mb), ImagePlan(s, mb.a, pdi, len);
      var d := Run(c, p + q);
      var meta := Refreshed(MetaAt(c, mb.metaA), len);
      MetaSetWithin(s, d, mb.metaA, meta);
      UntouchedOutside(c, p, mb.metaA, mb.metaA + s, lo, hi);
      UntouchedOutside(Run(c, p), q, mb.a, EraseEnd(s, mb.a, len), lo, hi);
      UntouchedThen(c, p, q, lo, hi);
      UntouchedOutside(d, MetaSetPlan(s, d, mb.metaA, meta), mb.metaA, mb.metaA + s, lo, hi);
      UntouchedThen(c, p + q, MetaSetPlan(s, d, mb.metaA, meta), lo, hi);
    } else {
      NothingWithin(0, 0);
      UntouchedOutside(c, [], 0, 0, lo, hi);
    }
  }

  lemma NotTornSame(c: seq<byte>, d: seq<byte>, r: seq<byte>, a: nat, size: nat, pdi: seq<byte>, len: nat)
    requires NotTorn(d, r, a, size, pdi, len) && Same(c, d, a, a + size)
    ensures NotTorn(c, r, a, size, pdi, len)
  {
  }

  lemma InPlaceSame(d: seq<byte>, r: seq<byte>, a: nat, size: nat, pdi: seq<byte>, len: nat)
    requires InPlace(d, a, pdi, len) && Same(d, r, a, a + size) && len <= size
    ensures InPlace(r, a, pdi, len)
  {
    assert r[a..a + len] == d[a..a + len];
  }

  /** The image is in place from its last write on. */
  lemma ImageStays(s: nat, c: seq<byte>, mb: Multiboot, pdi: seq<byte>, len: nat, y: seq<Op>)
    requires Placed(s, |c|, mb) && Readable(pdi, len) && FlashAccepted(mb, len) && mb.a + len < |c|
    requires var p := ResetPlan(s, c, mb) + ImagePlan(s, mb.a, pdi, len);
             y <= MetaSetPlan(s, Run(c, p), mb.metaA, Refreshed(MetaAt(c, mb.metaA), len))
    ensures InPlace(Run(c, ResetPlan(s, c, mb) + ImagePlan(s, mb.a, pdi, len) + y), mb.a, pdi, len)
  {
    hide Run, AllWithin, Untouched, ErasePlanFor, ImagePlan, ResetPlan, MetaSetPlan, FlashPlan, MetaAt, Bits.MultipleOf;
    hide InPlace, TagBlank, Same;
    FlashStages(s, c, mb, pdi, len);
    var p, q := ResetPlan(s, c, mb), ImagePlan(s, mb.a, pdi, len);
    var d := Run(c, p + q);
    var m := Refreshed(MetaAt(c, mb.metaA), len);
    MetaSetWithin(s, d, mb.metaA, m);
    UntouchedOutside(c, p, mb.metaA, mb.metaA + s, mb.a, mb.a + mb.aSize);
    UntouchedOutside(d, MetaSetPlan(s, d, mb.metaA, m), mb.metaA, mb.metaA + s, mb.a, mb.a + mb.aSize);
    ImageNotTorn(s, c, mb, pdi, len, p, q);
    RunConcat(c, p + q, y);
    UntouchedAt(d, MetaSetPlan(s, d, mb.metaA, m), y, mb.a, mb.a + mb.aSize);
    InPlaceSame(d, Run(d, y), mb.a, mb.aSize, pdi, len);
  }

  /** Flashing A never leaves a torn bootable image in A, and completes with the new one. */
  lemma FlashNotTorn(s: nat, c: seq<byte>, mb: Multiboot, pdi: seq<byte>, len: nat, x: seq<Op>)
    requires Placed(s, |c|, mb) && Readable(pdi, len) && (FlashAccepted(mb, len) ==> mb.a + len < |c|)
    requires x <= FlashPlan(s, c, mb, pdi, len)
    ensures NotTorn(c, Run(c, x), mb.a, mb.aSize, pdi, len)
    ensures FlashAccepted(mb, len) && x == FlashPlan(s, c, mb, pdi, len) ==> InPlace(Run(c, x), mb.a, pdi, len)
  {
    UpdatePlanParts(s, c, mb, false, pdi, len);
    hide Run, AllWithin, Untouched, ErasePlanFor, ImagePlan, ResetPlan, MetaSetPlan, FlashPlan, UpdatePlan;
    hide MetaAt, Bits.MultipleOf;
    hide InPlace, TagBlank, Same;
    if !FlashAccepted(mb, len) {
      SameSelf(c, x, mb.a, mb.a + mb.aSize);
      return;
    }
    FlashPlanParts(s, c, mb, pdi, len);
    var p := ResetPlan(s, c, mb) + ImagePlan(s, mb.a, pdi, len);
    var z := MetaSetPlan(s, Run(c, p), mb.metaA, Refreshed(MetaAt(c, mb.metaA), len));
    PrefixSplit(x, p, z);
    if x <= p {
      ResetAndImageNotTorn(s, c, mb, pdi, len, x);
    }
    if p <= x {
      ImageStays(s, c, mb, pdi, len, x[|p|..]);
      assert x == p + x[|p|..];
    }
  }

  lemma ResetAndImageNotTorn(s: nat, c: seq<byte>, mb: Multiboot, pdi: seq<byte>, len: nat, x: seq<Op>)
    requires Placed(s, |c|, mb) && Readable(pdi, len) && FlashAccepted(mb, len) && mb.a + len < |c|
    requires x <= ResetPlan(s, c, mb) + ImagePlan(s, mb.a, pdi, len)
    ensures NotTorn(c, Run(c, x), mb.a, mb.aSize, pdi, len)
  {
    hide Run, AllWithin, Untouched, ErasePlanFor, ImagePlan, ResetPlan, MetaAt, Bits.MultipleOf, InPlace;
    hide TagBlank, Same;
    FlashStages(s, c, mb, pdi, len);
    var p, q := ResetPlan(s, c, mb), ImagePlan(s, mb.a, pdi, len);
    UntouchedOutside(c, p, mb.metaA, mb.metaA + s, mb.a, mb.a + mb.aSize);
    PrefixSplit(x, p, q);
    if x <= p {
      UntouchedAt(c, p, x, mb.a, mb.a + mb.aSize);
    } else {
      ImageNotTorn(s, c, mb, pdi, len, p, x[|p|..]);
    }
  }

  lemma SameSelf(c: seq<byte>, x: seq<Op>, lo: nat, hi: nat)
    requires x <= []
    ensures Same(c, Run(c, x), lo, hi)
  {
  }

  lemma UntouchedAt(c: seq<byte>, plan: seq<Op>, x: seq<Op>, lo: nat, hi: nat)
    requires Untouched(c, plan, lo, hi) && x <= plan
    ensures Same(c, Run(c, x), lo, hi)
  {
  }

  /** The image stage, after an arbitrary earlier stage that left A alone. */
  lemma ImageNotTorn(s: nat, c: seq<byte>, mb: Multiboot, pdi: seq<byte>, len: nat, p: seq<Op>, y: seq<Op>)
    requires Fits(s, c, mb.a, pdi, len) && Untouched(c, p, mb.a, mb.a + mb.aSize)
    requires y <= ImagePlan(s, mb.a, pdi, len)
    ensures NotTorn(c, Run(c, p + y), mb.a, mb.aSize, pdi, len)
    ensures y == ImagePlan(s, mb.a, pdi, len) ==> InPlace(Run(c, p + y), mb.a, pdi, len)
  {
    hide ImagePlan, InPlace, TagBlank, Same, Bits.MultipleOf, Pages, PageBytes;
    var d := Run(c, p);
    UntouchedAt(c, p, p, mb.a, mb.a + mb.aSize);
    CrashConsistent(s, d, mb.a, pdi, len, y);
    RunConcat(c, p, y);
    if y == [] {
      assert Run(d, y) == d;
    }
  }

  // The theorem.

  /** What the user may rely on at any moment of an update that started from `c`. */
  ghost predicate Recoverable(c: seq<byte>, r: seq<byte>, mb: Multiboot, pdi: seq<byte>, len: nat)
    requires mb.metaA + 256 <= |c|
  {
    // A is never a torn image that could boot ...
    && NotTorn(c, r, mb.a, mb.aSize, pdi, len)
    // ... and there is always a complete image: the old A, or its copy in B, or an untouched B.
    && (if mb.bootOnBackup then Same(c, r, mb.b, mb.b + mb.bSize)
        else Same(c, r, mb.a, mb.a + mb.aSize) || BackupHolds(c, r, mb))
  }

  /** Images strictly smaller than the partitions they are, or are going to be, in. */
  ghost predicate Sized(c: seq<byte>, mb: Multiboot, noBackup: bool)
    requires mb.metaA + 256 <= |c|
  {
    CopiesFirst(mb, noBackup) && BackupAccepted(c, mb) ==> SizeA(c, mb) < mb.aSize && SizeA(c, mb) < mb.bSize
  }

  /** Every erase and copy of the update stays inside the flash. */
  ghost predicate InReach(c: seq<byte>, mb: Multiboot, len: nat)
    requires mb.metaA + 256 <= |c|
  {
    && (FlashAccepted(mb, len) ==> mb.a + len < |c|)
    && (CopiesFirst(mb, false) && BackupAccepted(c, mb) ==> BackupReach(c, mb))
  }

  /** No erase reaches from one partition into the other. */
  ghost predicate Spares(c: seq<byte>, mb: Multiboot, len: nat)
    requires mb.metaA + 256 <= |c|
  {
    && (FlashAccepted(mb, len) ==> !(len == mb.aSize && mb.b == mb.a + mb.aSize))
    && (CopiesFirst(mb, false) && BackupAccepted(c, mb) ==> SparesA(c, mb))
  }

  /** Room to spare in both partitions is enough for both. */
  lemma SizedInReach(s: nat, c: seq<byte>, mb: Multiboot, len: nat)
    requires Placed(s, |c|, mb) && len < mb.aSize && Sized(c, mb, false)
    ensures InReach(c, mb, len) && Spares(c, mb, len)
  {
    hide MetaAt, BackupAccepted, BackupReach, SparesA;
    if CopiesFirst(mb, false) && BackupAccepted(c, mb) {
      SizedBackup(s, c, mb);
    }
  }

  lemma SizedBackup(s: nat, c: seq<byte>, mb: Multiboot)
    requires Placed(s, |c|, mb) && SizeA(c, mb) < mb.aSize && SizeA(c, mb) < mb.bSize
    ensures BackupReach(c, mb) && SparesA(c, mb)
  {
    hide Bits.MultipleOf, MetaAt, PageBytes, CopyPages;
    PartitionHoldsPages(s, mb.aSize, SizeA(c, mb));
    PartitionHoldsPages(s, mb.bSize, SizeA(c, mb));
  }

  /**
   A/B safety: cut short after any number of device operations, an update that keeps a backup
   leaves a complete image in one of the partitions and no bootable torn image in A.
   */
  lemma AlwaysRecoverable(s: nat, c: seq<byte>, mb: Multiboot, pdi: seq<byte>, len: nat, x: seq<Op>)
    requires Placed(s, |c|, mb) && Readable(pdi, len) && InReach(c, mb, len) && Spares(c, mb, len)
    requires x <= UpdatePlan(s, c, mb, false, pdi, len)
    ensures Recoverable(c, Run(c, x), mb, pdi, len)
  {
    UpdatePlanParts(s, c, mb, false, pdi, len);
    hide Run, Untouched, Same, NotTorn, BackupHolds, UpdatePlan, FlashPlan, BackupPlan, MetaAt;
    hide Bits.MultipleOf, BackupAccepted;
    hide EraseEnd, SparesA, BackupReach;
    if !mb.hasFpt || (CopiesFirst(mb, false) && !BackupAccepted(c, mb)) {
      SameSelf(c, x, mb.a, mb.a + mb.aSize);
      SameSelf(c, x, mb.b, mb.b + mb.bSize);
      SameIsNotTorn(c, Run(c, x), mb, pdi, len);
    } else if mb.bootOnBackup {
      FlashNotTorn(s, c, mb, pdi, len, x);
      FlashKeepsB(s, c, mb, pdi, len);
      UntouchedAt(c, FlashPlan(s, c, mb, pdi, len), x, mb.b, mb.b + mb.bSize);
    } else {
      var p := BackupPlan(s, c, mb);
      var d := Run(c, p);
      var q := FlashPlan(s, d, mb, pdi, len);
      PrefixSplit(x, p, q);
      BackupKeepsA(s, c, mb);
      if x <= p {
        UntouchedAt(c, p, x, mb.a, mb.a + mb.aSize);
        SameIsNotTorn(c, Run(c, x), mb, pdi, len);
      } else {
        AfterBackup(s, c, mb, pdi, len, x[|p|..]);
        RunConcat(c, p, x[|p|..]);
      }
    }
  }

  lemma FlashKeepsB(s: nat, c: seq<byte>, mb: Multiboot, pdi: seq<byte>, len: nat)
    requires Placed(s, |c|, mb) && Readable(pdi, len)
    requires FlashAccepted(mb, len) ==> mb.a + len < |c| && !(len == mb.aSize && mb.b == mb.a + mb.aSize)
    ensures Untouched(c, FlashPlan(s, c, mb, pdi, len), mb.b, mb.b + mb.bSize)
  {
    hide Untouched, FlashPlan, EraseEnd, Bits.MultipleOf;
    if FlashAccepted(mb, len) {
      EraseClear(s, mb.a, mb.aSize, len, mb.b, mb.bSize);
    }
    FlashKeeps(s, c, mb, pdi, len, mb.b, mb.b + mb.bSize);
  }

  /** The second stage of an update with backup. */
  lemma AfterBackup(s: nat, c: seq<byte>, mb: Multiboot, pdi: seq<byte>, len: nat, y: seq<Op>)
    requires Placed(s, |c|, mb) && Readable(pdi, len) && InReach(c, mb, len) && Spares(c, mb, len)
    requires CopiesFirst(mb, false) && BackupAccepted(c, mb)
    requires y <= FlashPlan(s, Run(c, BackupPlan(s, c, mb)), mb, pdi, len)
    ensures Recoverable(c, Run(Run(c, BackupPlan(s, c, mb)), y), mb, pdi, len)
  {
    hide Run, Untouched, Same, NotTorn, BackupHolds, FlashPlan, BackupPlan, MetaAt, Bits.MultipleOf;
    hide BackupReach, SparesA;
    var d := Run(c, BackupPlan(s, c, mb));
    BackupResult(s, c, mb);
    FlashNotTorn(s, d, mb, pdi, len, y);
    NotTornSame(c, d, Run(d, y), mb.a, mb.aSize, pdi, len);
    FlashKeepsB(s, d, mb, pdi, len);
    UntouchedAt(d, FlashPlan(s, d, mb, pdi, len), y, mb.b, mb.b + mb.bSize);
    HoldsStill(c, d, Run(d, y), mb);
  }

  lemma SameIsNotTorn(c: seq<byte>, r: seq<byte>, mb: Multiboot, pdi: seq<byte>, len: nat)
    requires Same(c, r, mb.a, mb.a + mb.aSize)
    ensures NotTorn(c, r, mb.a, mb.aSize, pdi, len)
  {
  }

  /**
   A completed update: the new image is in A, A's metadata names its size, and where a backup was
   taken B holds the image A had before, named in B's metadata.
   */
  lemma UpdateCompletes(s: nat, c: seq<byte>, mb: Multiboot, noBackup: bool, pdi: seq<byte>, len: nat)
    requires Placed(s, |c|, mb) && Readable(pdi, len) && len < mb.aSize
    requires UpdateAccepted(c, mb, noBackup, len)
    requires Sized(c, mb, noBackup)
    ensures var r := Run(c, UpdatePlan(s, c, mb, noBackup, pdi, len));
            && InPlace(r, mb.a, pdi, len)
            && MetaAt(r, mb.metaA) == Refreshed(MetaAt(c, mb.metaA), len)
            && (CopiesFirst(mb, noBackup) ==>
                  && BackupHolds(c, r, mb)
                  && MetaAt(r, mb.metaB) == Refreshed(MetaAt(c, mb.metaB), SizeA(c, mb)))
  {
    UpdatePlanParts(s, c, mb, noBackup, pdi, len);
    hide Run, InPlace, BackupHolds, UpdatePlan, FlashPlan, BackupPlan, MetaAt, Bits.MultipleOf, BackupAccepted, Sized;
    var p := if CopiesFirst(mb, noBackup) then BackupPlan(s, c, mb) else [];
    var d := Run(c, p);
    RunConcat(c, p, FlashPlan(s, d, mb, pdi, len));
    FlashCompletes(s, d, mb, pdi, len);
    if CopiesFirst(mb, noBackup) {
      BackupSurvives(s, c, mb, pdi, len);
    } else {
      RunNothing(c);
    }
  }

  /** What a completed update leaves in the metadata, word by word. */
  lemma UpdateRecords(s: nat, c: seq<byte>, mb: Multiboot, noBackup: bool, pdi: seq<byte>, len: nat)
    requires Placed(s, |c|, mb) && Readable(pdi, len) && len < mb.aSize
    requires UpdateAccepted(c, mb, noBackup, len)
    requires Sized(c, mb, noBackup)
    ensures mb.metaA + 256 <= |c| && mb.metaB + 256 <= |c|
    ensures var r := Run(c, UpdatePlan(s, c, mb, noBackup, pdi, len));
            && ReadWord(r, mb.metaA) == 0x4D494450 && ReadWord(r, mb.metaA + 8) == len
            && MetaAt(r, mb.metaA).version == MetaAt(c, mb.metaA).version
            && MetaAt(r, mb.metaA).checksum == MetaAt(c, mb.metaA).checksum && MetaAt(r, mb.metaA).debugType == 0
            && (!noBackup && !mb.bootOnBackup ==>
                  && ReadWord(r, mb.metaB) == 0x4D494450
                  && ReadWord(r, mb.metaB + 8) == ReadWord(c, mb.metaA + 8)
                  && MetaAt(r, mb.metaB).debugType == 0)
  {
    hide *;
    MetaFits(s, c, mb);
    UpdateCompletes(s, c, mb, noBackup, pdi, len);
    var r := Run(c, UpdatePlan(s, c, mb, noBackup, pdi, len));
    RecordIs(r, mb.metaA, MetaAt(c, mb.metaA), len);
    if CopiesFirst(mb, noBackup) {
      RecordIs(r, mb.metaB, MetaAt(c, mb.metaB), SizeA(c, mb));
      SizeIsWord(c, mb);
    }
    WhenCopied(mb, noBackup);
  }

  lemma MetaFits(s: nat, c: seq<byte>, mb: Multiboot)
    requires Placed(s, |c|, mb)
    ensures InFlash(s, |c|, mb) && mb.metaA + 256 <= |c| && mb.metaB + 256 <= |c|
  {
  }

  lemma RecordIs(r: seq<byte>, base: nat, m: PdiMeta, size: u32)
    requires base + 256 <= |r| && ProperMeta(m) && MetaAt(r, base) == Refreshed(m, size)
    ensures ReadWord(r, base) == 0x4D494450 && ReadWord(r, base + 8) == size
    ensures MetaAt(r, base).version == m.version && MetaAt(r, base).checksum == m.checksum
    ensures MetaAt(r, base).debugType == 0
  {
    MetaWords(r, base);
    hide MetaAt, ReadWord;
  }

  lemma SizeIsWord(c: seq<byte>, mb: Multiboot)
    requires mb.metaA + 256 <= |c|
    ensures SizeA(c, mb) == ReadWord(c, mb.metaA + 8)
  {
    MetaWords(c, mb.metaA);
    hide MetaAt, ReadWord;
  }

  lemma WhenCopied(mb: Multiboot, noBackup: bool)
    ensures CopiesFirst(mb, noBackup) <==> !noBackup && !mb.bootOnBackup
  {
  }

  /** Metadata of A that is not recognised is erased first, its page as a whole; recognised metadata is left. */
  lemma ResetBlanks(s: nat, c: seq<byte>, mb: Multiboot)
    requires s > 0 && Bits.MultipleOf(|c|, s) && mb.metaA + 256 < |c|
    ensures var r := Run(c, ResetPlan(s, c, mb));
            if ReadWord(c, mb.metaA) == 0x4D494450 then r == c
            else |r| == |c| && forall i | mb.metaA <= i < mb.metaA + 256 :: r[i] == 0xFF
  {
    MetaWords(c, mb.metaA);
    EraseCoverage(s, c, mb.metaA, 256);
    RunNothing(c);
    hide Run, MetaAt, ReadWord, ErasePlanFor;
  }

  lemma FlashCompletes(s: nat, c: seq<byte>, mb: Multiboot, pdi: seq<byte>, len: nat)
    requires Placed(s, |c|, mb) && Readable(pdi, len) && FlashAccepted(mb, len) && len < mb.aSize
    ensures var r := Run(c, FlashPlan(s, c, mb, pdi, len));
            InPlace(r, mb.a, pdi, len) && MetaAt(r, mb.metaA) == Refreshed(MetaAt(c, mb.metaA), len)
  {
    hide Run, InPlace, FlashPlan, MetaAt, Bits.MultipleOf, NotTorn;
    FlashNotTorn(s, c, mb, pdi, len, FlashPlan(s, c, mb, pdi, len));
    FlashMeta(s, c, mb, pdi, len);
  }

  /** Flashing A leaves the backup made before it, and its record, alone. */
  lemma BackupSurvives(s: nat, c: seq<byte>, mb: Multiboot, pdi: seq<byte>, len: nat)
    requires Placed(s, |c|, mb) && Readable(pdi, len) && FlashAccepted(mb, len) && len < mb.aSize
    requires CopiesFirst(mb, false) && BackupAccepted(c, mb) && Sized(c, mb, false)
    ensures var d := Run(c, BackupPlan(s, c, mb));
            var r := Run(d, FlashPlan(s, d, mb, pdi, len));
            && MetaAt(d, mb.metaA) == MetaAt(c, mb.metaA)
            && BackupHolds(c, r, mb)
            && MetaAt(r, mb.metaB) == Refreshed(MetaAt(c, mb.metaB), SizeA(c, mb))
  {
    SizedInReach(s, c, mb, len);
    EraseInside(s, mb, len);
    hide Run, Untouched, Same, BackupHolds, FlashPlan, BackupPlan, MetaAt, Bits.MultipleOf, BackupAccepted;
    hide EraseEnd, BackupReach, SparesA;
    var d := Run(c, BackupPlan(s, c, mb));
    var q := FlashPlan(s, d, mb, pdi, len);
    BackupResult(s, c, mb);
    SameMeta(c, d, mb.metaA, s);
    FlashKeeps(s, d, mb, pdi, len, mb.b, mb.b + mb.bSize);
    WholePrefix(d, q, mb.b, mb.b + mb.bSize);
    HoldsStill(c, d, Run(d, q), mb);
    FlashKeeps(s, d, mb, pdi, len, mb.metaB, mb.metaB + s);
    WholePrefix(d, q, mb.metaB, mb.metaB + s);
    SameMeta(d, Run(d, q), mb.metaB, s);
  }

  /** An image with room to spare in A erases nothing behind A. */
  lemma EraseInside(s: nat, mb: Multiboot, len: nat)
    requires Bits.MultipleOf(mb.a, s) && Bits.MultipleOf(mb.aSize, s) && len < mb.aSize
    ensures EraseEnd(s, mb.a, len) <= mb.a + mb.aSize
  {
    EraseStaysInPartition(s, mb.a, mb.aSize, len);
  }

  lemma SameMeta(c: seq<byte>, r: seq<byte>, base: nat, s: nat)
    requires s >= 256 && base + s <= |c| && Same(c, r, base, base + s)
    ensures MetaAt(c, base) == MetaAt(r, base)
  {
    assert c[base..base + 256] == r[base..base + 256];
  }

  lemma FlashMeta(s: nat, c: seq<byte>, mb: Multiboot, pdi: seq<byte>, len: nat)
    requires Placed(s, |c|, mb) && Readable(pdi, len) && FlashAccepted(mb, len) && len < mb.aSize
    ensures MetaAt(Run(c, FlashPlan(s, c, mb, pdi, len)), mb.metaA) == Refreshed(MetaAt(c, mb.metaA), len)
  {
    FlashPlanParts(s, c, mb, pdi, len);
    hide Run, ImagePlan, ResetPlan, MetaSetPlan, FlashPlan, MetaAt, Bits.MultipleOf;
    var p := ResetPlan(s, c, mb) + ImagePlan(s, mb.a, pdi, len);
    var d := Run(c, p);
    var meta := Refreshed(MetaAt(c, mb.metaA), len);
    RunConcat(c, p, MetaSetPlan(s, d, mb.metaA, meta));
    MetaSetStores(s, d, mb.metaA, meta);
  }

  // --- Exactly when ---------------------------------------------------------------------------------

  /** The erase of A comes first, but for a reset of its metadata. */
  lemma ErasePrefix(s: nat, c: seq<byte>, mb: Multiboot, pdi: seq<byte>, len: nat)
    requires InFlash(s, |c|, mb) && Readable(pdi, len) && FlashAccepted(mb, len)
    ensures ResetPlan(s, c, mb) + ErasePlanFor(s, mb.a, len) <= FlashPlan(s, c, mb, pdi, len)
  {
    var p, e := ResetPlan(s, c, mb), ErasePlanFor(s, mb.a, len);
    var w, w1 := MaskedWrite(mb.a, pdi, len), WritePlan(mb.a, pdi[..256]);
    hide ResetPlan, ErasePlanFor, MaskedWrite, WritePlan, MetaSetPlan, Run, MetaAt;
    assert p + ImagePlan(s, mb.a, pdi, len) == (p + e) + (w + w1);
  }

  ghost predicate AllBlank(r: seq<byte>, lo: nat, hi: nat) {
    hi <= |r| && forall i :: lo <= i < hi ==> r[i] == ERASED
  }

  /** The moment of an accepted update right after the erase of A. */
  lemma AfterErase(s: nat, c: seq<byte>, mb: Multiboot, pdi: seq<byte>, len: nat) returns (x: seq<Op>)
    requires Placed(s, |c|, mb) && Readable(pdi, len) && UpdateAccepted(c, mb, false, len) && mb.a + len < |c|
    ensures x <= UpdatePlan(s, c, mb, false, pdi, len)
    ensures AllBlank(Run(c, x), mb.a, EraseEnd(s, mb.a, len))
  {
    UpdatePlanParts(s, c, mb, false, pdi, len);
    hide Run, WritePlan, ErasePlanFor, EraseEnd, ResetPlan, BackupPlan, FlashPlan, UpdatePlan, MetaAt;
    hide Bits.MultipleOf, Pages, PageBytes;
    hide AllBlank;
    var b := if CopiesFirst(mb, false) then BackupPlan(s, c, mb) else [];
    var d := Run(c, b);
    RunNothing(c);
    var y := FlashErased(s, d, mb, pdi, len);
    x := b + y;
    RunConcat(c, b, y);
  }

  lemma FlashErased(s: nat, c: seq<byte>, mb: Multiboot, pdi: seq<byte>, len: nat) returns (y: seq<Op>)
    requires Placed(s, |c|, mb) && Readable(pdi, len) && FlashAccepted(mb, len) && mb.a + len < |c|
    ensures y <= FlashPlan(s, c, mb, pdi, len)
    ensures AllBlank(Run(c, y), mb.a, EraseEnd(s, mb.a, len))
  {
    hide Run, ErasePlanFor, EraseEnd, ResetPlan, FlashPlan, Bits.MultipleOf, Blank;
    var p, e := ResetPlan(s, c, mb), ErasePlanFor(s, mb.a, len);
    ErasePrefix(s, c, mb, pdi, len);
    y := p + e;
    RunConcat(c, p, e);
    EraseCoverage(s, Run(c, p), mb.a, len);
    Bits.RoundDownIs(mb.a, s);
    BlankCells(Run(c, p), mb.a, EraseEnd(s, mb.a, len) - mb.a, mb.a, EraseEnd(s, mb.a, len) - mb.a);
  }

  /**
   The size guard admits an image as large as partition A. With B directly behind A there is then
   a moment at which all of A and the first sector of B are blank.
   */
  lemma FullSizeImageErasesNeighbour(s: nat, c: seq<byte>, mb: Multiboot, pdi: seq<byte>, len: nat)
      returns (x: seq<Op>)
    requires Placed(s, |c|, mb) && Readable(pdi, len) && UpdateAccepted(c, mb, false, len) && mb.a + len < |c|
    requires len == mb.aSize && mb.b == mb.a + mb.aSize
    ensures x <= UpdatePlan(s, c, mb, false, pdi, len)
    ensures AllBlank(Run(c, x), mb.a, mb.b + s)
  {
    hide Run, UpdatePlan, EraseEnd, Bits.MultipleOf, UpdateAccepted;
    EraseStaysInPartition(s, mb.a, mb.aSize, len);
    x := AfterErase(s, c, mb, pdi, len);
  }

  /**
   The guards also admit a backup as large as partition B. With A directly behind B there is then a moment
   at which all of B and the first sector of A are blank, before the copy has begun.
   */
  lemma FullSizeBackupErasesNeighbour(s: nat, c: seq<byte>, mb: Multiboot, pdi: seq<byte>, len: nat)
      returns (x: seq<Op>)
    requires Placed(s, |c|, mb) && Readable(pdi, len) && mb.hasFpt && CopiesFirst(mb, false) && BackupAccepted(c, mb)
    requires SizeA(c, mb) == mb.bSize && mb.a == mb.b + mb.bSize && mb.b + mb.bSize < |c|
    ensures x <= UpdatePlan(s, c, mb, false, pdi, len)
    ensures AllBlank(Run(c, x), mb.b, mb.a + s)
  {
    UpdatePlanParts(s, c, mb, false, pdi, len);
    hide Run, CopyPlan, MetaSetPlan, ErasePlanFor, EraseEnd, FlashPlan, UpdatePlan, MetaAt, Bits.MultipleOf;
    x := BackupErase(s, c, mb);
    EraseStaysInPartition(s, mb.b, mb.bSize, SizeA(c, mb));
    EraseCoverage(s, c, mb.b, SizeA(c, mb));
    Bits.RoundDownIs(mb.b, s);
    BlankCells(c, mb.b, mb.bSize + s, mb.b, mb.bSize + s);
  }

  /** The image the update must not lose has a byte in its first sector that is not blank. */
  ghost predicate HasImage(s: nat, c: seq<byte>, mb: Multiboot)
    requires mb.metaA + 256 <= |c|
  {
    if mb.bootOnBackup then exists i :: mb.b <= i < Min(mb.b + s, mb.b + mb.bSize) && i < |c| && c[i] != ERASED
    else exists i :: mb.a <= i < Min(mb.a + s, mb.a + SizeA(c, mb)) && i < |c| && c[i] != ERASED
  }

  lemma ByteCopied(c: seq<byte>, r: seq<byte>, a: nat, b: nat, size: nat, i: nat)
    requires a <= i < a + size
    ensures b + size <= |r| && a + size <= |c| && r[b..b + size] == c[a..a + size] ==> r[b + i - a] == c[i]
  {
    if b + size <= |r| && a + size <= |c| {
      assert r[b..b + size][i - a] == r[b + i - a] && c[a..a + size][i - a] == c[i];
    }
  }

  /** With the first sector of both partitions blank there is no image left. */
  lemma BothBlank(s: nat, c: seq<byte>, r: seq<byte>, mb: Multiboot, pdi: seq<byte>, len: nat)
    requires mb.metaA + 256 <= |c| == |r| && HasImage(s, c, mb) && (mb.bootOnBackup || SizeA(c, mb) <= mb.aSize)
    requires AllBlank(r, mb.b, mb.b + s) && (!mb.bootOnBackup ==> AllBlank(r, mb.a, mb.a + s))
    ensures !Recoverable(c, r, mb, pdi, len)
  {
    hide MetaAt, NotTorn, Same, BackupHolds;
    if mb.bootOnBackup {
      var i :| mb.b <= i < Min(mb.b + s, mb.b + mb.bSize) && i < |c| && c[i] != ERASED;
      NotSame(c, r, mb.b, mb.b + mb.bSize, i);
    } else {
      var i :| mb.a <= i < Min(mb.a + s, mb.a + SizeA(c, mb)) && i < |c| && c[i] != ERASED;
      NotSame(c, r, mb.a, mb.a + mb.aSize, i);
      NotHeld(c, r, mb, i);
    }
  }

  lemma NotSame(c: seq<byte>, r: seq<byte>, lo: nat, hi: nat, i: nat)
    requires |c| == |r| && lo <= i < hi && i < |c| && c[i] != r[i]
    ensures !Same(c, r, lo, hi)
  {
  }

  lemma NotHeld(c: seq<byte>, r: seq<byte>, mb: Multiboot, i: nat)
    requires mb.metaA + 256 <= |c| && mb.a <= i < mb.a + SizeA(c, mb) && i < |c| && mb.b + i - mb.a < |r|
    requires r[mb.b + i - mb.a] != c[i]
    ensures !BackupHolds(c, r, mb)
  {
    hide MetaAt;
    ByteCopied(c, r, mb.a, mb.b, SizeA(c, mb), i);
  }

  /** A moment at which nothing is left, where an erase reaches from one partition into the other. */
  lemma NothingLeft(s: nat, c: seq<byte>, mb: Multiboot, pdi: seq<byte>, len: nat) returns (x: seq<Op>)
    requires Placed(s, |c|, mb) && Readable(pdi, len) && UpdateAccepted(c, mb, false, len)
    requires InReach(c, mb, len) && !Spares(c, mb, len) && HasImage(s, c, mb)
    ensures x <= UpdatePlan(s, c, mb, false, pdi, len)
    ensures !Recoverable(c, Run(c, x), mb, pdi, len)
  {
    hide Run, UpdatePlan, Recoverable, HasImage, Bits.MultipleOf, MetaAt, CopyInFlash;
    if len == mb.aSize && mb.b == mb.a + mb.aSize {
      x := FullSizeImageErasesNeighbour(s, c, mb, pdi, len);
    } else {
      x := FullSizeBackupErasesNeighbour(s, c, mb, pdi, len);
    }
    AtLeastOneSector(mb.aSize, s);
    AtLeastOneSector(mb.bSize, s);
    BothBlank(s, c, Run(c, x), mb, pdi, len);
  }

  lemma AtLeastOneSector(size: nat, s: nat)
    requires Bits.MultipleOf(size, s)
    ensures size == 0 || s <= size
  {
    if size > 0 {
      Bits.MultiplesApart(0, size, s);
    }
  }

  /**
   Exactly when A/B safety holds at every moment of an accepted update whose erases stay inside the flash:
   unless the image is as long as A with B directly behind it, or the backup as long as B with A directly
   behind it. Both can be read off the request, the partition table and A's metadata.
   */
  lemma RecoverableExactly(s: nat, c: seq<byte>, mb: Multiboot, pdi: seq<byte>, len: nat)
    requires Placed(s, |c|, mb) && Readable(pdi, len) && UpdateAccepted(c, mb, false, len)
    requires InReach(c, mb, len) && HasImage(s, c, mb)
    ensures (forall x :: x <= UpdatePlan(s, c, mb, false, pdi, len) ==> Recoverable(c, Run(c, x), mb, pdi, len))
       <==> && !(len == mb.aSize && mb.b == mb.a + mb.aSize)
            && !(CopiesFirst(mb, false) && SizeA(c, mb) == mb.bSize && mb.a == mb.b + mb.bSize)
  {
    hide Run, Recoverable, UpdatePlan, Placed, MetaAt, HasImage, CopyInFlash;
    PlacedInFlash(s, |c|, mb);
    if Spares(c, mb, len) {
      forall x | x <= UpdatePlan(s, c, mb, false, pdi, len)
        ensures Recoverable(c, Run(c, x), mb, pdi, len)
      {
        AlwaysRecoverable(s, c, mb, pdi, len, x);
      }
    } else {
      var x := NothingLeft(s, c, mb, pdi, len);
    }
  }

  lemma PlacedInFlash(s: nat, capacity: nat, mb: Multiboot)
    requires Placed(s, capacity, mb)
    ensures s > 256 && InFlash(s, capacity, mb) && mb.metaA + 256 <= capacity
  {
  }

  /** The same for the device itself: every moment of its history since the update began. */
  lemma HistoryRecoverable(factory: seq<byte>, before: seq<Op>, after: seq<Op>, s: nat, mb: Multiboot,
                           pdi: seq<byte>, len: nat, complete: bool, moment: nat)
    requires var c := Run(factory, before);
             && Placed(s, |c|, mb) && Readable(pdi, len) && InReach(c, mb, len) && Spares(c, mb, len)
             && Grew(before, after, UpdatePlan(s, c, mb, false, pdi, len), complete)
    requires |before| <= moment <= |after|
    ensures Recoverable(Run(factory, before), Run(factory, after[..moment]), mb, pdi, len)
  {
    hide Run, Recoverable, MetaAt, UpdatePlan, Placed, InReach, Spares;
    var c, x := Run(factory, before), after[..moment][|before|..];
    PlacedInFlash(s, |c|, mb);
    assert after[..moment] == before + x;
    assert x <= after[|before|..];
    RunConcat(factory, before, x);
    AlwaysRecoverable(s, c, mb, pdi, len, x);
  }
}
