/** What completed driver calls make of the flash contents. */
module FlashResults {
  import opened Machine
  import opened NorFlash
  import opened Ospi
  import Bits

  // --- Safe write -------------------------------------------------------------------------

  /** `r` is `c` with exactly `[offset, offset + len)` replaced by the start of `buf`. */
  ghost predicate Replaced(c: seq<byte>, r: seq<byte>, offset: nat, buf: seq<byte>, len: nat)
    requires len <= |buf| && offset + len <= |c|
  {
    && |r| == |c|
    && forall i :: 0 <= i < |c| ==> r[i] == if offset <= i < offset + len then buf[i - offset] else c[i]
  }

  /** One cell after a safe write at a sector-aligned offset, in terms of its old value. */
  function SafeWriteCell(s: nat, was: byte, i: nat, offset: nat, buf: seq<byte>, len: nat): byte
    requires s > 0 && PageBytes(Pages(len)) <= |buf|
  {
    if offset <= i < offset + len then buf[i - offset]
    else if Bits.MultipleOf(len, s) then
      if offset + len <= i < offset + len + s then ERASED else was
    else
      if offset + len <= i < offset + PageBytes(Pages(len)) then Bits.And(buf[i - offset], was) else was
  }

  /** A sector-aligned range inside the flash (the last two bounds follow from the others). */
  ghost predicate SafeWritable(s: nat, c: seq<byte>, offset: nat, buf: seq<byte>, len: nat) {
    && s > 0 && s % 256 == 0 && Bits.MultipleOf(|c|, s) && Bits.MultipleOf(offset, s)
    && offset + len < |c| && PageBytes(Pages(len)) <= |buf|
    && LastSector(s, offset, len) + s <= |c| && offset + PageBytes(Pages(len)) <= |c|
  }

  /** The whole pages of a range end inside the sector that holds the end of the range. */
  lemma PagesInsideSector(s: nat, len: nat)
    requires s > 0 && s % 256 == 0
    ensures PageBytes(Pages(len)) <= Bits.RoundDown(len, s) + s
    ensures Bits.MultipleOf(len, s) ==> PageBytes(Pages(len)) == len == Bits.RoundDown(len, s)
  {
    Bits.RoundDownIs(len, s);
    PagesBelow(Bits.RoundDown(len, s) + s, s, len);
    if Bits.MultipleOf(len, s) {
      PagesBelow(len, s, len);
    }
  }

  lemma PagesBelow(m: nat, s: nat, len: nat)
    requires s % 256 == 0 && (Bits.MultipleOf(m, s) || Bits.MultipleOf(m - s, s)) && len <= m
    ensures PageBytes(Pages(len)) <= m
  {
    hide Bits.MultipleOf;
    if Bits.MultipleOf(m, s) {
      MultipleOfPages(m, s);
    } else {
      MultipleOfPages(m - s, s);
    }
    PagesFit(m, len);
  }

  lemma PagesFit(m: nat, len: nat)
    requires m % 256 == 0 && len <= m
    ensures PageBytes(Pages(len)) <= m
  {
  }

  lemma MultipleOfPages(m: int, s: nat)
    requires s % 256 == 0 && Bits.MultipleOf(m, s)
    ensures m % 256 == 0
  {
    var q, e := m / s, s / 256;
    assert m == q * s;
    assert q * (e * 256) == (q * e) * 256;
  }

  lemma BoundsFollow(s: nat, c: seq<byte>, offset: nat, buf: seq<byte>, len: nat)
    requires s > 0 && s % 256 == 0 && Bits.MultipleOf(|c|, s) && Bits.MultipleOf(offset, s)
    requires offset + len < |c| && PageBytes(Pages(len)) <= |buf|
    ensures SafeWritable(s, c, offset, buf, len)
  {
    SectorsOfRange(s, c, offset, len);
    PagesInsideSector(s, len);
  }

  lemma SectorsOfRange(s: nat, c: seq<byte>, offset: nat, len: nat)
    requires s > 0 && Bits.MultipleOf(|c|, s) && Bits.MultipleOf(offset, s) && offset + len < |c|
    ensures LastSector(s, offset, len) + s == EraseEnd(s, offset, len) <= |c|
    ensures Run(c, ErasePlanFor(s, offset, len)) == Blank(c, offset, EraseEnd(s, offset, len) - offset)
  {
    hide ErasePlanFor, Bits.RoundDown, Bits.MultipleOf, Run, Blank;
    Bits.RoundDownIs(offset, s);
    Bits.RoundDownAbove(len, offset, s);
    EraseCoverage(s, c, offset, len);
  }

  function SafeWritten(s: nat, c: seq<byte>, offset: nat, buf: seq<byte>, len: nat): (r: seq<byte>)
    requires s > 0 && LastSector(s, offset, len) + s <= |c| && PageBytes(Pages(len)) <= |buf|
    ensures |r| == |c|
  {
    Run(c, SafeWritePlan(s, c, offset, buf, len))
  }

  /** The contents left by the three stages, as effects on the whole flash. */
  lemma SafeWriteStagesRun(s: nat, c: seq<byte>, offset: nat, buf: seq<byte>, len: nat)
    requires SafeWritable(s, c, offset, buf, len)
    ensures var last := LastSector(s, offset, len);
            var c2 := Merge(Blank(c, offset, last + s - offset), offset, buf[..PageBytes(Pages(len))]);
            SafeWritten(s, c, offset, buf, len)
            == if Bits.MultipleOf(len, s) then c2 else Merge(c2, last, Cached(s, c, offset, buf, len))
  {
    hide Run, Blank, Merge, WritePlan, ErasePlanFor, Cached, Pages, PageBytes, Bits.MultipleOf, Bits.RoundDown;
    SectorsOfRange(s, c, offset, len);
    var p := ErasePlanFor(s, offset, len);
    var q, r := SafeWriteStages(s, p, c, offset, buf, len);
    var c1 := Run(c, p);
    var c2 := Run(c1, q);
    RunWrite(c1, offset, buf[..PageBytes(Pages(len))]);
    RunConcat(c, p, q);
    RunConcat(c, p + q, r);
    if Bits.MultipleOf(len, s) {
      RunNothing(c2);
    } else {
      RunWrite(c2, LastSector(s, offset, len), Cached(s, c, offset, buf, len));
    }
  }

  lemma RunNothing(c: seq<byte>)
    ensures Run(c, []) == c
  {
  }

  lemma RewrittenCell(s: nat, c: seq<byte>, offset: nat, buf: seq<byte>, len: nat, i: nat)
    requires s > 0 && len <= |buf| && LastSector(s, offset, len) + s <= |c| && i < |c|
    ensures var last, x := LastSector(s, offset, len), Cached(s, c, offset, buf, len);
            && |x| == s && offset <= last <= offset + len <= last + s
            && (last <= i < last + s ==> x[i - last] == if i < offset + len then buf[i - offset] else c[i])
  {
  }

  /** Cell by cell, what a completed safe write leaves. */
  lemma SafeWriteContents(s: nat, c: seq<byte>, offset: nat, buf: seq<byte>, len: nat, i: nat)
    requires SafeWritable(s, c, offset, buf, len) && i < |c|
    ensures SafeWritten(s, c, offset, buf, len)[i] == SafeWriteCell(s, c[i], i, offset, buf, len)
  {
    hide Run, SafeWritten, SafeWritePlan, Blank, Merge, Cached, Bits.And, Bits.RoundDown, Pages, PageBytes;
    hide Bits.MultipleOf;
    PagesInsideSector(s, len);
    SafeWriteStagesRun(s, c, offset, buf, len);
    var last, w := LastSector(s, offset, len), PageBytes(Pages(len));
    BlankAndFill(c, offset, last + s, buf[..w], i);
    if !Bits.MultipleOf(len, s) {
      var c2 := Merge(Blank(c, offset, last + s - offset), offset, buf[..w]);
      RewrittenCell(s, c, offset, buf, len, i);
      RewriteCell(c2, c, offset, offset + len, last, buf, Cached(s, c, offset, buf, len), i);
      ProgramFacts(c[i]);
    }
  }

  /** Erase, then program: programmed cells hold the data, the other erased cells are blank. */
  lemma BlankAndFill(c: seq<byte>, from: nat, to: nat, data: seq<byte>, i: nat)
    requires from + |data| <= to <= |c| && i < |c|
    ensures Merge(Blank(c, from, to - from), from, data)[i]
         == if from <= i < from + |data| then data[i - from] else if from <= i < to then ERASED else c[i]
  {
    hide Bits.And;
    if from <= i < from + |data| {
      ProgramFacts(data[i - from]);
    }
  }

  /** Rewriting the cached sector over what the first write left. */
  lemma RewriteCell(c2: seq<byte>, c: seq<byte>, offset: nat, end: nat, last: nat, buf: seq<byte>, x: seq<byte>, i: nat)
    requires |c2| == |c| && i < |c| && offset <= last <= end <= last + |x| <= |c| && end - offset <= |buf|
    requires last <= i < last + |x| ==> x[i - last] == if i < end then buf[i - offset] else c[i]
    requires offset <= i < end ==> c2[i] == buf[i - offset]
    ensures Merge(c2, last, x)[i]
         == if last <= i < end then buf[i - offset] else if end <= i < last + |x| then Bits.And(c2[i], c[i]) else c2[i]
  {
    hide Bits.And;
    if last <= i < end {
      ProgramFacts(buf[i - offset]);
    }
  }

  /** Condition for a safe write to change nothing but its range. */
  ghost predicate NothingBehindIsLost(s: nat, c: seq<byte>, offset: nat, buf: seq<byte>, len: nat)
    requires SafeWritable(s, c, offset, buf, len)
  {
    if Bits.MultipleOf(len, s) then
      forall i :: offset + len <= i < Min(offset + len + s, |c|) ==> c[i] == ERASED
    else
      forall i :: offset + len <= i < offset + PageBytes(Pages(len)) ==> Bits.And(buf[i - offset], c[i]) == c[i]
  }

  /**
   The safe write changes exactly the requested range if and only if the range does not end on a
   sector boundary and the padding of its last page would not clear a bit of what lies behind it,
   or it ends on a boundary and the sector behind it was already blank. (A range that ends on a
   sector boundary is neither cached nor rewritten, yet the sector behind it is erased.)
   */
  lemma SafeWriteExact(s: nat, c: seq<byte>, offset: nat, buf: seq<byte>, len: nat)
    requires SafeWritable(s, c, offset, buf, len)
    ensures Replaced(c, SafeWritten(s, c, offset, buf, len), offset, buf, len)
       <==> NothingBehindIsLost(s, c, offset, buf, len)
  {
    hide SafeWritten, Bits.And, Bits.RoundDown, Bits.MultipleOf, Pages, PageBytes;
    PagesInsideSector(s, len);
    var r := SafeWritten(s, c, offset, buf, len);
    forall i | 0 <= i < |c|
      ensures r[i] == SafeWriteCell(s, c[i], i, offset, buf, len)
    {
      SafeWriteContents(s, c, offset, buf, len, i);
    }
  }

  /** Whole pages that do not end on a sector boundary: nothing but the range changes. */
  lemma SafeWriteWholePages(s: nat, c: seq<byte>, offset: nat, buf: seq<byte>, len: nat)
    requires SafeWritable(s, c, offset, buf, len)
    requires len % 256 == 0 && !Bits.MultipleOf(len, s)
    ensures Replaced(c, SafeWritten(s, c, offset, buf, len), offset, buf, len)
  {
    hide SafeWritten, Bits.And;
    WholePages(len);
    SafeWriteExact(s, c, offset, buf, len);
  }

  /** The guard is no alignment check: it lets byte offset 8 pass and refuses page-aligned 256. */
  lemma GuardIsNotAlignment()
    ensures !OddPage(8) && 8 % 256 != 0
    ensures OddPage(256) && 256 % 256 == 0
    ensures forall sector: nat, s: nat :: s > 0 && s % 512 == 0 && Bits.MultipleOf(sector, s) ==> !OddPage(sector)
  {
    forall sector: nat, s: nat | s > 0 && s % 512 == 0 && Bits.MultipleOf(sector, s)
      ensures !OddPage(sector)
    {
      var q, e := sector / s, s / 512;
      assert sector == q * s && s == e * 512;
      assert q * (e * 512) == (q * e) * 512;
    }
  }

  /** A safe write of the whole flash, with the bulk erases effective: the flash is the buffer. */
  lemma SafeWriteWholeFlash(g: Geometry, c: seq<byte>, buf: seq<byte>)
    requires g.Valid() && |c| == g.Capacity() <= |buf|
    ensures Bits.MultipleOf(g.Capacity(), g.sect) && PageBytes(Pages(g.Capacity())) == g.Capacity()
    ensures var e := DriverErase(g, 0, g.Capacity(), Bulk(true, true));
            Run(c, SafeWriteOps(g.sect, e, c, 0, buf, g.Capacity())) == buf[..g.Capacity()]
  {
    g.CapacityInSectors();
    WholePages(g.Capacity());
    WholeFlashErase(g, c, 0);
    var e, n := DriverErase(g, 0, g.Capacity(), Bulk(true, true)), g.Capacity();
    var c1, w := Blank(c, 0, |c|), WritePlan(0, buf[..n]);
    hide Run, Merge, Blank, WritePlan, DriverErase, Geometry.Valid, Geometry.Capacity, Pages, PageBytes;
    hide Bits.MultipleOf;
    assert SafeWriteOps(g.sect, e, c, 0, buf, n) == e + w;
    RunConcat(c, e, w);
    RunWrite(c1, 0, buf[..n]);
    FillBlank(c, buf[..n]);
  }

  lemma FillBlank(c: seq<byte>, data: seq<byte>)
    requires |data| == |c|
    ensures Merge(Blank(c, 0, |c|), 0, data) == data
  {
    forall i | 0 <= i < |c|
      ensures Merge(Blank(c, 0, |c|), 0, data)[i] == data[i]
    {
      ProgramFacts(data[i]);
    }
  }

  // --- Erase, then copy -----------------------------------------------------------------------

  /** Pages read from an area the copy does not write are the original ones. */
  lemma {:induction false} CopyPlanDisjoint(c: seq<byte>, src: nat, tgt: nat, pages: nat)
    requires src + PageBytes(pages) <= |c|
    requires src + PageBytes(pages) <= tgt || tgt + PageBytes(pages) <= src
    ensures CopyPlan(c, src, tgt, pages) == WritePlan(tgt, c[src..src + PageBytes(pages)])
    decreases pages
  {
    hide WritePlan, Run, PageAfter;
    if pages > 0 {
      var n := PageBytes(pages - 1);
      CopyPlanDisjoint(c, src, tgt, pages - 1);
      NextPage(c, src, tgt, n);
      PagesAreChunks(n);
      WritePlanConcat(tgt, c[src..src + n], c[src + n..src + n + 256]);
    } else {
      WritePlanEmpty(tgt, c[src..src]);
      assert c[src..src][..0] == c[src..src];
    }
  }

  lemma NextPage(c: seq<byte>, src: nat, tgt: nat, n: nat)
    requires src + n + 256 <= |c|
    requires src + n + 256 <= tgt || tgt + n <= src
    ensures PageAfter(c, WritePlan(tgt, c[src..src + n]), src + n) == c[src + n..src + n + 256]
    ensures c[src..src + n] + c[src + n..src + n + 256] == c[src..src + n + 256]
  {
    hide WritePlan, Bits.And;
    RunWrite(c, tgt, c[src..src + n]);
  }

  /**
   Erasing `len` bytes at a page-aligned target and copying to it leaves the target equal to the
   source on every copied page, the extra page included, and every byte outside the erased
   sectors as it was: the extra page always falls into an erased sector.
   */
  lemma EraseThenCopy(s: nat, c: seq<byte>, src: nat, tgt: nat, len: nat)
    requires s % 256 == 0 && Bits.MultipleOf(|c|, s) && tgt % 256 == 0 && tgt + len < |c|
    requires var n := PageBytes(CopyPages(len));
             src + n <= |c| && (src + n <= Bits.RoundDown(tgt, s) || EraseEnd(s, tgt, len) <= src)
    ensures var n := PageBytes(CopyPages(len));
            var c1 := Run(c, ErasePlanFor(s, tgt, len));
            var p := CopyPlan(c1, src, tgt, CopyPages(len));
            && tgt + n <= EraseEnd(s, tgt, len) <= |c|
            && p == WritePlan(tgt, c[src..src + n])
            && Run(c1, p)[tgt..tgt + n] == c[src..src + n]
            && (forall i :: 0 <= i < |c| && !(Bits.RoundDown(tgt, s) <= i < EraseEnd(s, tgt, len)) ==> Run(c1, p)[i] == c[i])
            && (forall i :: tgt + n <= i < EraseEnd(s, tgt, len) ==> Run(c1, p)[i] == ERASED)
  {
    hide Bits.RoundDown, Bits.MultipleOf, CopyPlan, WritePlan, Run, ErasePlanFor, EraseEnd, CopyPages, PageBytes;
    hide Merge, Blank;
    var n := PageBytes(CopyPages(len));
    EraseCoverage(s, c, tgt, len);
    CopiedPagesErased(s, tgt, len);
    var from, to := Bits.RoundDown(tgt, s), EraseEnd(s, tgt, len);
    var c1 := Blank(c, from, to - from);
    CopyPlanDisjoint(c1, src, tgt, CopyPages(len));
    BlankThenMerge(c, from, to, src, tgt, n);
    RunWrite(c1, tgt, c[src..src + n]);
  }

  /**
   The same for whole pages whose extra page may come from anywhere, also from what the copy itself wrote:
   the pages asked for are equal all the same.
   */
  lemma EraseThenCopyWhole(s: nat, c: seq<byte>, src: nat, tgt: nat, len: nat)
    requires s % 256 == 0 && Bits.MultipleOf(|c|, s) && Bits.MultipleOf(tgt, s) && tgt + len < |c| && len % 256 == 0
    requires src + PageBytes(CopyPages(len)) <= |c| && (src + len <= tgt || EraseEnd(s, tgt, len) <= src)
    ensures var c1 := Run(c, ErasePlanFor(s, tgt, len));
            var r := Run(c1, CopyPlan(c1, src, tgt, CopyPages(len)));
            r[tgt..tgt + len] == c[src..src + len]
  {
    hide Bits.RoundDown, Bits.MultipleOf, CopyPlan, WritePlan, Run, ErasePlanFor, EraseEnd, CopyPages, PageBytes;
    hide Merge, Blank;
    WholePageCount(len);
    EraseCoverage(s, c, tgt, len);
    Bits.RoundDownIs(tgt, s);
    var to := EraseEnd(s, tgt, len);
    var c1 := Blank(c, tgt, to - tgt);
    BlankThenMerge(c, tgt, to, src, tgt, len);
    CopyWhole(c1, src, tgt, len / 256, len);
  }

  lemma WholePageCount(len: nat)
    requires len % 256 == 0
    ensures PageBytes(len / 256) == len && CopyPages(len) == len / 256 + 1
  {
  }

  /** Copying whole pages and one more, from any contents. */
  lemma CopyWhole(c: seq<byte>, src: nat, tgt: nat, m: nat, len: nat)
    requires src + PageBytes(m + 1) <= |c| && PageBytes(m) == len && src + len <= |c| && tgt + len <= |c|
    requires src + len <= tgt || tgt + len <= src
    ensures Run(c, CopyPlan(c, src, tgt, m + 1))[tgt..tgt + len] == Merge(c, tgt, c[src..src + len])[tgt..tgt + len]
  {
    hide Run, Merge, WritePlan, PageAfter, CopyPlan, PageBytes;
    CopyPlanDisjoint(c, src, tgt, m);
    RunWrite(c, tgt, c[src..src + len]);
    var first := CopyPlan(c, src, tgt, m);
    var page := CopyPlanStep(c, src, tgt, m);
    var w := WritePlan(tgt + len, page);
    RunConcat(c, first, w);
    WritePlanWithin(tgt + len, page);
    KeptSlice(Run(c, first), w, tgt + len, tgt + len + 256, tgt, tgt + len);
  }

  lemma KeptSlice(c: seq<byte>, w: seq<Op>, from: nat, to: nat, lo: nat, hi: nat)
    requires AllWithin(w, from, to) && lo <= hi <= |c| && (hi <= from || to <= lo)
    ensures Run(c, w)[lo..hi] == c[lo..hi]
  {
    hide Run;
    Frame(c, w, from, to);
  }

  lemma CopyPlanStep(c: seq<byte>, src: nat, tgt: nat, m: nat) returns (page: seq<byte>)
    requires src + PageBytes(m + 1) <= |c|
    ensures src + PageBytes(m) <= |c| && |page| == 256
    ensures CopyPlan(c, src, tgt, m + 1) == CopyPlan(c, src, tgt, m) + WritePlan(tgt + PageBytes(m), page)
    ensures PageBytes(m + 1) == PageBytes(m) + 256
  {
    hide WritePlan, Run;
    page := PageAfter(c, CopyPlan(c, src, tgt, m), src + PageBytes(m));
  }

  /** A copy stays inside the pages of its target. */
  lemma {:induction false} CopyPlanWithin(c: seq<byte>, src: nat, tgt: nat, pages: nat)
    requires src + PageBytes(pages) <= |c|
    ensures AllWithin(CopyPlan(c, src, tgt, pages), tgt, tgt + PageBytes(pages))
    decreases pages
  {
    hide *;
    if pages > 0 {
      CopyPlanFits(c, src, pages - 1);
      CopyPlanWithin(c, src, tgt, pages - 1);
      CopyPlanWithinNext(c, src, tgt, pages - 1);
    } else {
      CopyPlanEmpty(c, src, tgt);
      NothingWithin(tgt, tgt + PageBytes(0));
    }
  }

  lemma CopyPlanFits(c: seq<byte>, src: nat, m: nat)
    requires src + PageBytes(m + 1) <= |c|
    ensures src + PageBytes(m) <= |c|
  {
  }

  lemma CopyPlanWithinNext(c: seq<byte>, src: nat, tgt: nat, m: nat)
    requires src + PageBytes(m + 1) <= |c| && src + PageBytes(m) <= |c|
    requires AllWithin(CopyPlan(c, src, tgt, m), tgt, tgt + PageBytes(m))
    ensures AllWithin(CopyPlan(c, src, tgt, m + 1), tgt, tgt + PageBytes(m + 1))
  {
    hide Run, CopyPlan, PageBytes, WritePlan, AllWithin;
    var page := CopyPlanStep(c, src, tgt, m);
    var at := tgt + PageBytes(m);
    WritePlanWithin(at, page);
    WithinThen(CopyPlan(c, src, tgt, m), WritePlan(at, page), tgt, at, at + 256);
  }

  lemma WithinThen(p: seq<Op>, q: seq<Op>, lo: nat, at: nat, hi: nat)
    requires AllWithin(p, lo, at) && AllWithin(q, at, hi) && lo <= at <= hi
    ensures AllWithin(p + q, lo, hi)
  {
    WidenWithin(p, lo, at, lo, hi);
    WidenWithin(q, at, hi, lo, hi);
  }

  lemma BlankThenMerge(c: seq<byte>, from: nat, to: nat, src: nat, tgt: nat, n: nat)
    requires from <= tgt && tgt + n <= to <= |c| && src + n <= |c| && (src + n <= from || to <= src)
    ensures var c1 := Blank(c, from, to - from);
            var r := Merge(c1, tgt, c[src..src + n]);
            && c1[src..src + n] == c[src..src + n]
            && r[tgt..tgt + n] == c[src..src + n]
            && (forall i :: 0 <= i < |c| && !(from <= i < to) ==> r[i] == c[i])
            && (forall i :: tgt + n <= i < to ==> r[i] == ERASED)
  {
    hide Bits.And;
    var x := c[src..src + n];
    var r := Merge(Blank(c, from, to - from), tgt, x);
    forall i | 0 <= i < n
      ensures r[tgt + i] == x[i]
    {
      ProgramFacts(x[i]);
    }
  }

  lemma CopiedPagesErased(s: nat, tgt: nat, len: nat)
    requires s > 0 && s % 256 == 0 && tgt % 256 == 0
    ensures tgt + PageBytes(CopyPages(len)) <= EraseEnd(s, tgt, len)
  {
    var end := Bits.RoundDown(tgt + len, s);
    MultipleOfPages(end, s);
    hide Bits.RoundDown, Bits.MultipleOf;
    CopyFits(tgt, len, end, s);
  }

  lemma CopyFits(tgt: nat, len: nat, end: nat, s: nat)
    requires s % 256 == 0 && tgt % 256 == 0 && end % 256 == 0 && tgt + len < end + s
    ensures tgt + PageBytes(CopyPages(len)) <= end + s
  {
    var n := (end + s - tgt) / 256;
    assert end + s - tgt == 256 * n && len < 256 * n;
    assert len / 256 < n;
  }
}
