/**
 What the next update finds when one was cut short between the new image in A and its metadata. The
 metadata says how much of A a backup copies, so it decides what B will hold.
 */
module NextUpdate {
  import opened Machine
  import opened NorFlash
  import opened Ospi
  import opened PdiUpdate
  import opened FlashResults
  import opened UpdateSafety
  import Bits

  const BLANK_WORD: u32 := 0xFFFF_FFFF

  // --- Metadata under construction ------------------------------------------------------------------

  /** The fields of a page that decides a backup, from its bytes. */
  lemma FieldsOfPage(p: seq<byte>, m: PdiMeta)
    requires |p| == 256 && ProperMeta(m)
    ensures p[0..4] == [ERASED, ERASED, ERASED, ERASED] ==> DecodeMeta(p).magic == BLANK_WORD
    ensures p[8..12] == [ERASED, ERASED, ERASED, ERASED] ==> DecodeMeta(p).size == BLANK_WORD
    ensures p[..12] == MetaPage(m)[..12] ==> DecodeMeta(p).magic == m.magic && DecodeMeta(p).size == m.size
  {
    BlankIsOnes();
    var q := MetaPage(m);
    if p[..12] == q[..12] {
      assert p[0..4] == p[..12][0..4] == q[..12][0..4] == q[0..4];
      assert p[8..12] == p[..12][8..12] == q[..12][8..12] == q[8..12];
      MetaRoundTrip(m);
    }
  }

  lemma BlankIsOnes()
    ensures FromLittleEndian([ERASED, ERASED, ERASED, ERASED]) == BLANK_WORD
  {
    OnesBefore([]);
    OnesBefore([ERASED]);
    OnesBefore([ERASED, ERASED]);
    OnesBefore([ERASED, ERASED, ERASED]);
  }

  lemma OnesBefore(b: seq<byte>)
    ensures FromLittleEndian([ERASED] + b) == 0xFF + 0x100 * FromLittleEndian(b)
  {
    assert ([ERASED] + b)[1..] == b;
  }

  /** The first twelve bytes of a metadata page while it is written over a blank sector, chunk by chunk. */
  lemma PageBeingWritten(c: seq<byte>, base: nat, page: seq<byte>, z: seq<Op>)
    requires |page| == 256 && base + 256 <= |c| && z <= WritePlan(base, page)
    requires forall i :: base <= i < base + 256 ==> c[i] == ERASED
    ensures var p := Run(c, z)[base..base + 256];
            || p[0..4] == [ERASED, ERASED, ERASED, ERASED]
            || p[8..12] == [ERASED, ERASED, ERASED, ERASED]
            || p[..12] == page[..12]
    ensures z == WritePlan(base, page) ==> Run(c, z)[base..base + 256] == page
  {
    hide Run, WritePlan, Merge;
    WritePlanPrefix(base, page, z);
    var k := Min(8 * |z|, 256);
    RunWrite(c, base, page[..k]);
    MergedOverBlank(c, base, page, k);
    PartialPage(page, k);
    assert page[..256] == page;
    RunWrite(c, base, page);
    MergedOverBlank(c, base, page, 256);
    PartialPage(page, 256);
  }

  lemma PartialPage(page: seq<byte>, k: nat)
    requires |page| == 256 && k <= 256 && (k % 8 == 0)
    ensures var p := page[..k] + seq<byte>(256 - k, i => ERASED);
            || p[0..4] == [ERASED, ERASED, ERASED, ERASED]
            || p[8..12] == [ERASED, ERASED, ERASED, ERASED]
            || p[..12] == page[..12]
    ensures k == 256 ==> page[..k] + seq<byte>(256 - k, i => ERASED) == page
  {
  }

  lemma MergedOverBlank(c: seq<byte>, base: nat, page: seq<byte>, k: nat)
    requires |page| == 256 && k <= 256 && base + 256 <= |c|
    requires forall i :: base <= i < base + 256 ==> c[i] == ERASED
    ensures Merge(c, base, page[..k])[base..base + 256] == page[..k] + seq<byte>(256 - k, i => ERASED)
  {
    var r, p := Merge(c, base, page[..k]), page[..k] + seq<byte>(256 - k, i => ERASED);
    forall j | base <= j < base + 256
      ensures r[j] == p[j - base]
    {
      ProgramFacts(p[j - base]);
    }
    SlicesEqual(r, base, p);
  }

  lemma SlicesEqual(r: seq<byte>, base: nat, p: seq<byte>)
    requires base + |p| <= |r| && forall j :: base <= j < base + |p| ==> r[j] == p[j - base]
    ensures r[base..base + |p|] == p
  {
  }

  /** Rewriting the cached sector leaves the page behind it as it is, at every moment. */
  lemma PageRewritten(c: seq<byte>, base: nat, sector: seq<byte>, z: seq<Op>)
    requires |sector| >= 256 && base + 256 <= |c| && z <= WritePlan(base, sector)
    requires c[base..base + 256] == sector[..256]
    ensures Run(c, z)[base..base + 256] == c[base..base + 256]
  {
    hide Run, WritePlan, Merge;
    WritePlanPrefix(base, sector, z);
    var k := Min(8 * |z|, |sector|);
    RunWrite(c, base, sector[..k]);
    MergedOverSame(c, base, sector, k);
  }

  lemma MergedOverSame(c: seq<byte>, base: nat, sector: seq<byte>, k: nat)
    requires 256 <= |sector| && k <= |sector| && base + 256 <= |c| && c[base..base + 256] == sector[..256]
    ensures Merge(c, base, sector[..k])[base..base + 256] == c[base..base + 256]
  {
    var r, p := Merge(c, base, sector[..k]), c[base..base + 256];
    forall j | base <= j < base + 256
      ensures r[j] == p[j - base]
    {
      assert p[j - base] == sector[..256][j - base] == sector[j - base];
      ProgramFacts(c[j]);
    }
    SlicesEqual(r, base, p);
  }

  /** A metadata record as a cut-short write leaves it: not begun, useless, or with the new size. */
  ghost predicate Readings(c: seq<byte>, r: seq<byte>, base: nat, m: PdiMeta, begun: bool)
    requires base + 256 <= |c| == |r|
  {
    var d := MetaAt(r, base);
    || (!begun && d == MetaAt(c, base))
    || (begun && (d.magic == BLANK_WORD || d.size == BLANK_WORD || (d.magic == m.magic && d.size == m.size)))
  }

  lemma MetaDuringSet(s: nat, c: seq<byte>, base: nat, m: PdiMeta, y: seq<Op>)
    requires s > 256 && s % 256 == 0 && Bits.MultipleOf(|c|, s) && Bits.MultipleOf(base, s)
    requires base + s <= |c| && ProperMeta(m) && y <= MetaSetPlan(s, c, base, m)
    ensures Readings(c, Run(c, y), base, m, y != [])
  {
    hide Run, WritePlan, ErasePlanFor, MetaPage, DecodeMeta, Cached, Bits.MultipleOf;
    MetaWritable(s, c, base);
    OneSector(s);
    var page, e := MetaPage(m), ErasePlanFor(s, base, 256);
    var q, x := SafeWriteStages(s, e, c, base, page, 256);
    assert page[..256] == page && q == WritePlan(base, page);
    var sector := Cached(s, c, base, page, 256);
    CachedIsPatched(s, c, base, page, 256);
    OneSectorErase(s, c, base);
    CachedFront(s, c, base, page);
    var c1, c2 := Run(c, e), Run(Run(c, e), q);
    PageBeingWritten(c1, base, page, q);
    PrefixSplit(y, e + q, x);
    if y <= e + q {
      PrefixSplit(y, e, q);
      if y == [] {
        RunNothing(c);
      } else if y <= e {
        assert y == e;
        FieldsOfPage(c1[base..base + 256], m);
        BlankPage(c1, base);
      } else {
        RunConcat(c, e, y[|e|..]);
        PageBeingWritten(c1, base, page, y[|e|..]);
        FieldsOfPage(Run(c, y)[base..base + 256], m);
      }
    } else {
      var z := y[|e + q|..];
      RunConcat(c, e, q);
      RunConcat(c, e + q, z);
      PageRewritten(c2, base, sector, z);
      FieldsOfPage(page, m);
    }
  }

  lemma BlankPage(c: seq<byte>, base: nat)
    requires base + 256 <= |c| && forall i :: base <= i < base + 256 ==> c[i] == ERASED
    ensures c[base..base + 256][0..4] == [ERASED, ERASED, ERASED, ERASED]
  {
  }

  /** The metadata sector is erased by one operation. */
  lemma OneSectorErase(s: nat, c: seq<byte>, base: nat)
    requires s > 256 && s % 256 == 0 && Bits.MultipleOf(|c|, s) && Bits.MultipleOf(base, s) && base + s <= |c|
    ensures |ErasePlanFor(s, base, 256)| == 1
    ensures forall i :: base <= i < base + s ==> Run(c, ErasePlanFor(s, base, 256))[i] == ERASED
  {
    hide Run, Bits.MultipleOf, Bits.RoundDown;
    OneSector(s);
    EraseStaysInPartition(s, base, s, 256);
    Bits.RoundDownIs(base, s);
    EraseCoverage(s, c, base, 256);
    SectorCount(s, base);
    BlankCells(c, base, EraseEnd(s, base, 256) - base, base, s);
  }

  lemma SectorCount(s: nat, base: nat)
    requires s > 256 && Bits.MultipleOf(base, s)
    ensures SectorsTouched(s, base, 256) == 1 && EraseEnd(s, base, 256) == base + s
  {
    Bits.RoundDownIs(base, s);
    Bits.RoundDownUnique(base + 256, base, s);
    SpanNext(0, s);
    OneSpan(SectorsTouched(s, base, 256), s);
  }

  lemma OneSpan(n: nat, s: nat)
    requires s > 0 && Span(n, s) == s
    ensures n == 1
  {
    Bits.MulFar(n - 1, s);
    assert (n - 1) * s == n * s - s;
  }

  lemma CachedFront(s: nat, c: seq<byte>, base: nat, page: seq<byte>)
    requires s > 256 && base + s <= |c| && |page| == 256
    ensures Bits.RoundDown(256, s) == 0 && LastSector(s, base, 256) == base
    ensures |Cached(s, c, base, page, 256)| == s && Cached(s, c, base, page, 256)[..256] == page
  {
    OneSector(s);
  }

  // --- The next update --------------------------------------------------------------------------------

  /** A moment of flashing A at which the image is in place and its metadata still to be written. */
  lemma BetweenImageAndMetadata(s: nat, c: seq<byte>, mb: Multiboot, pdi: seq<byte>, len: nat, y: seq<Op>)
    requires Placed(s, |c|, mb) && Readable(pdi, len) && FlashAccepted(mb, len) && len < mb.aSize
    requires var p := ResetPlan(s, c, mb) + ImagePlan(s, mb.a, pdi, len);
             y <= MetaSetPlan(s, Run(c, p), mb.metaA, Refreshed(MetaAt(c, mb.metaA), len))
    ensures var p := ResetPlan(s, c, mb) + ImagePlan(s, mb.a, pdi, len);
            var r := Run(c, p + y);
            && p + y <= FlashPlan(s, c, mb, pdi, len)
            && InPlace(r, mb.a, pdi, len)
            && (!BackupAccepted(r, mb)
                || SizeA(r, mb) == len
                || (SizeA(r, mb) == SizeA(c, mb) && y == [] && MetaAt(c, mb.metaA).magic == PDIMETA_MAGIC))
  {
    var p := ResetPlan(s, c, mb) + ImagePlan(s, mb.a, pdi, len);
    var d := Run(c, p);
    var m := Refreshed(MetaAt(c, mb.metaA), len);
    FlashPlanParts(s, c, mb, pdi, len);
    assert s % 256 == 0 && Bits.MultipleOf(|c|, s) && Bits.MultipleOf(mb.metaA, s);
    PlacedInFlash(s, |c|, mb);
    hide *;
    ImageStays(s, c, mb, pdi, len, y);
    MetaDuringSet(s, d, mb.metaA, m, y);
    RunConcat(c, p, y);
    ResetMeta(s, c, mb, pdi, len);
    WhatIsRead(s, c, d, Run(c, p + y), mb, len, y != []);
  }

  /** What the next update makes of the metadata it reads. */
  lemma WhatIsRead(s: nat, c: seq<byte>, d: seq<byte>, r: seq<byte>, mb: Multiboot, len: u32, begun: bool)
    requires Placed(s, |c|, mb) && |c| == |d| == |r|
    requires Readings(d, r, mb.metaA, Refreshed(MetaAt(c, mb.metaA), len), begun)
    requires var m := MetaAt(d, mb.metaA);
             if MetaAt(c, mb.metaA).magic == PDIMETA_MAGIC then m == MetaAt(c, mb.metaA) else m.magic == BLANK_WORD
    ensures || !BackupAccepted(r, mb)
            || SizeA(r, mb) == len
            || (SizeA(r, mb) == SizeA(c, mb) && !begun && MetaAt(c, mb.metaA).magic == PDIMETA_MAGIC)
  {
    hide DecodeMeta, Bits.MultipleOf;
    MultipleOfPages(mb.bSize, s);
  }

  /** The metadata of A once the image is in place: as before, or blank if it was reset. */
  lemma ResetMeta(s: nat, c: seq<byte>, mb: Multiboot, pdi: seq<byte>, len: nat)
    requires Placed(s, |c|, mb) && Readable(pdi, len) && FlashAccepted(mb, len) && len < mb.aSize
    ensures var m := MetaAt(Run(c, ResetPlan(s, c, mb) + ImagePlan(s, mb.a, pdi, len)), mb.metaA);
            if MetaAt(c, mb.metaA).magic == PDIMETA_MAGIC then m == MetaAt(c, mb.metaA) else m.magic == BLANK_WORD
  {
    hide Run, AllWithin, Untouched, ErasePlanFor, EraseEnd, ImagePlan, DecodeMeta, Bits.MultipleOf, Same;
    FlashStages(s, c, mb, pdi, len);
    var p, q := ResetPlan(s, c, mb), ImagePlan(s, mb.a, pdi, len);
    var d := Run(c, p);
    EraseInside(s, mb, len);
    UntouchedOutside(d, q, mb.a, EraseEnd(s, mb.a, len), mb.metaA, mb.metaA + s);
    RunConcat(c, p, q);
    WholePrefix(d, q, mb.metaA, mb.metaA + s);
    SameMeta(d, Run(d, q), mb.metaA, s);
    if MetaAt(c, mb.metaA).magic == PDIMETA_MAGIC {
      RunNothing(c);
    } else {
      OneSectorErase(s, c, mb.metaA);
      BlankPage(d, mb.metaA);
      FieldsOfPage(d[mb.metaA..mb.metaA + 256], PdiMeta(0, 0, 0, 0, 0, [0, 0, 0]));
    }
  }

  /**
   Cut exactly between image and metadata, with a new image longer than the old, the metadata is wrong about
   a whole image: the next backup holds only the beginning of the new image, and says so, before A is
   erased. `RepeatedUpdate` has the cut points at which A is not whole.
   */
  lemma NextBackupTruncated(s: nat, c: seq<byte>, mb: Multiboot, pdi: seq<byte>, len: nat)
    requires Placed(s, |c|, mb) && Readable(pdi, len) && FlashAccepted(mb, len) && len < mb.aSize
    requires BackupAccepted(c, mb) && SizeA(c, mb) < len && SizeA(c, mb) < mb.bSize
    ensures var r := Run(c, ResetPlan(s, c, mb) + ImagePlan(s, mb.a, pdi, len));
            var size := SizeA(c, mb);
            && BackupAccepted(r, mb) && SizeA(r, mb) == size
            && var next := Run(r, BackupPlan(s, r, mb));
               && mb.b + size <= |next| && next[mb.b..mb.b + size] == pdi[..size] && size < len
               && MetaAt(next, mb.metaB).size == size
  {
    hide Run, ResetPlan, ImagePlan, BackupPlan, DecodeMeta, BackupAccepted, Geometry.Valid, Placed, InPlace, Readable;
    PlacedInFlash(s, |c|, mb);
    var r := Run(c, ResetPlan(s, c, mb) + ImagePlan(s, mb.a, pdi, len));
    NoMore(c, mb, s, pdi, len);
    ResetMeta(s, c, mb, pdi, len);
    Recognised(c, mb);
    SameVerdict(c, r, mb);
    NextBackup(s, r, mb, pdi, len);
  }

  lemma Recognised(c: seq<byte>, mb: Multiboot)
    requires mb.metaA + 256 <= |c| && BackupAccepted(c, mb)
    ensures MetaAt(c, mb.metaA).magic == PDIMETA_MAGIC
  {
  }

  /** With the image in place a backup holds, and records, as much of it as A's metadata says. */
  lemma NextBackup(s: nat, r: seq<byte>, mb: Multiboot, pdi: seq<byte>, len: nat)
    requires Placed(s, |r|, mb) && InPlace(r, mb.a, pdi, len) && len < mb.aSize
    requires BackupAccepted(r, mb) && SizeA(r, mb) <= len && SizeA(r, mb) < mb.bSize
    ensures var next, size := Run(r, BackupPlan(s, r, mb)), SizeA(r, mb);
            && mb.b + size <= |next| && next[mb.b..mb.b + size] == pdi[..size]
            && MetaAt(next, mb.metaB).size == size
  {
    hide Run, BackupPlan, MetaAt, BackupAccepted, Placed;
    PlacedInFlash(s, |r|, mb);
    SizedBackup(s, r, mb);
    BackupResult(s, r, mb);
    BeginningOf(r, Run(r, BackupPlan(s, r, mb)), mb, pdi, len);
  }

  lemma SameVerdict(c: seq<byte>, r: seq<byte>, mb: Multiboot)
    requires mb.metaA + 256 <= |c| == |r| && MetaAt(c, mb.metaA) == MetaAt(r, mb.metaA)
    ensures BackupAccepted(r, mb) == BackupAccepted(c, mb) && SizeA(r, mb) == SizeA(c, mb)
  {
  }

  lemma BeginningOf(r: seq<byte>, next: seq<byte>, mb: Multiboot, pdi: seq<byte>, len: nat)
    requires mb.metaA + 256 <= |r| && InPlace(r, mb.a, pdi, len) && BackupHolds(r, next, mb) && SizeA(r, mb) <= len
    ensures var size := SizeA(r, mb);
            mb.b + size <= |next| && next[mb.b..mb.b + size] == pdi[..size]
  {
    hide MetaAt;
    var size := SizeA(r, mb);
    assert r[mb.a..mb.a + size] == r[mb.a..mb.a + len][..size] == pdi[..len][..size] == pdi[..size];
  }

  lemma NoMore(c: seq<byte>, mb: Multiboot, s: nat, pdi: seq<byte>, len: nat)
    requires Placed(s, |c|, mb) && Readable(pdi, len) && FlashAccepted(mb, len) && len < mb.aSize
    ensures InPlace(Run(c, ResetPlan(s, c, mb) + ImagePlan(s, mb.a, pdi, len)), mb.a, pdi, len)
  {
    var p := ResetPlan(s, c, mb) + ImagePlan(s, mb.a, pdi, len);
    ImageStays(s, c, mb, pdi, len, []);
    assert p + [] == p;
  }
}
