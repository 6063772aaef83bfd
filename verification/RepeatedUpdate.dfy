/**
 A second request before the next boot. A request that fails does not count as flashed, so another one is
 taken; it goes by the same partition table and the same boot partition, and copies A over B first.
 */
module RepeatedUpdate {
  import opened Machine
  import opened NorFlash
  import opened Ospi
  import opened PdiUpdate
  import opened FlashResults
  import opened UpdateSafety
  import opened NextUpdate
  import Bits

  // --- Whole images -----------------------------------------------------------------------------------

  /** The image A held in `c` is whole at `at`. */
  ghost predicate OldAt(c: seq<byte>, t: seq<byte>, mb: Multiboot, at: nat)
    requires mb.metaA + 256 <= |c|
  {
    var size := SizeA(c, mb);
    mb.a + size <= |c| && at + size <= |t| && t[at..at + size] == c[mb.a..mb.a + size]
  }

  /** The old image or the new one is whole in A or in B. */
  ghost predicate Entire(c: seq<byte>, t: seq<byte>, mb: Multiboot, pdi: seq<byte>, len: nat)
    requires mb.metaA + 256 <= |c|
  {
    || OldAt(c, t, mb, mb.a) || OldAt(c, t, mb, mb.b)
    || InPlace(t, mb.a, pdi, len) || (len <= mb.bSize && InPlace(t, mb.b, pdi, len))
  }

  /** An image of `size` bytes at `at` that can be booted: its tag is not all ones. */
  ghost predicate Tagged(r: seq<byte>, at: nat, size: nat) {
    && TAG_OFFSET + 4 <= size && at + size <= |r|
    && exists i :: at + TAG_OFFSET <= i < at + TAG_OFFSET + 4 && r[i] != ERASED
  }

  /** A tagged image is nowhere where the tag would be blank. */
  lemma NotWhereBlank(q: seq<byte>, from: nat, size: nat, r: seq<byte>, at: nat)
    requires Tagged(q, from, size) && TagBlank(r, at)
    ensures at + size <= |r| ==> r[at..at + size] != q[from..from + size]
  {
    if at + size <= |r| && r[at..at + size] == q[from..from + size] {
      var i :| from + TAG_OFFSET <= i < from + TAG_OFFSET + 4 && q[i] != ERASED;
      ByteCopied(q, r, from, at, size, i);
      assert false;
    }
  }

  /** With both tags blank neither image is anywhere. */
  lemma NoneWhole(c: seq<byte>, t: seq<byte>, mb: Multiboot, pdi: seq<byte>, len: nat)
    requires mb.metaA + 256 <= |c| && Tagged(c, mb.a, SizeA(c, mb)) && Tagged(pdi, 0, len)
    requires TagBlank(t, mb.a) && TagBlank(t, mb.b)
    ensures !Entire(c, t, mb, pdi, len)
  {
    hide Tagged, TagBlank, MetaAt;
    NotWhereBlank(c, mb.a, SizeA(c, mb), t, mb.a);
    NotWhereBlank(c, mb.a, SizeA(c, mb), t, mb.b);
    NotInPlace(t, mb.a, pdi, len);
    NotInPlace(t, mb.b, pdi, len);
  }

  lemma NotInPlace(t: seq<byte>, at: nat, pdi: seq<byte>, len: nat)
    requires Tagged(pdi, 0, len) && TagBlank(t, at)
    ensures !InPlace(t, at, pdi, len)
  {
    NotWhereBlank(pdi, 0, len, t, at);
  }

  // --- The first request, cut short --------------------------------------------------------------------

  /**
   An accepted request with backup, with room to spare on both sides; the new image does not fill B either,
   since a later backup of it would then be subject to `RecoverableExactly`.
   */
  ghost predicate Requested(s: nat, c: seq<byte>, mb: Multiboot, pdi: seq<byte>, len: nat) {
    && Placed(s, |c|, mb) && Readable(pdi, len) && UpdateAccepted(c, mb, false, len) && CopiesFirst(mb, false)
    && SizeA(c, mb) < mb.aSize && SizeA(c, mb) < mb.bSize && len < mb.aSize && len != mb.bSize
  }

  /** Up to the end of the backup A and its metadata are as they were. */
  lemma DuringBackup(s: nat, c: seq<byte>, mb: Multiboot, x: seq<Op>)
    requires Placed(s, |c|, mb) && BackupAccepted(c, mb) && SizeA(c, mb) < mb.aSize && SizeA(c, mb) < mb.bSize
    requires x <= BackupPlan(s, c, mb)
    ensures Same(c, Run(c, x), mb.a, mb.a + mb.aSize) && MetaAt(Run(c, x), mb.metaA) == MetaAt(c, mb.metaA)
  {
    hide Run, Untouched, BackupPlan, EraseEnd, MetaAt, Bits.MultipleOf, BackupAccepted, Same;
    SizedBackup(s, c, mb);
    BackupKeepsA(s, c, mb);
    UntouchedAt(c, BackupPlan(s, c, mb), x, mb.a, mb.a + mb.aSize);
    EraseClear(s, mb.b, mb.bSize, SizeA(c, mb), mb.metaA, s);
    BackupKeeps(s, c, mb, mb.metaA, mb.metaA + s);
    UntouchedAt(c, BackupPlan(s, c, mb), x, mb.metaA, mb.metaA + s);
    SameMeta(c, Run(c, x), mb.metaA, s);
  }

  /** Once flashing A has begun: A is not bootable or new, and what its metadata then says. */
  lemma DuringFlash(s: nat, d: seq<byte>, mb: Multiboot, pdi: seq<byte>, len: nat, y: seq<Op>)
    requires Placed(s, |d|, mb) && Readable(pdi, len) && FlashAccepted(mb, len) && len < mb.aSize
    requires BackupAccepted(d, mb) && y != [] && y <= FlashPlan(s, d, mb, pdi, len)
    ensures var r := Run(d, y);
            && (TagBlank(r, mb.a) || InPlace(r, mb.a, pdi, len))
            && (BackupAccepted(r, mb) ==>
                  SizeA(r, mb) == SizeA(d, mb) || (InPlace(r, mb.a, pdi, len) && SizeA(r, mb) == len))
  {
    FlashPlanParts(s, d, mb, pdi, len);
    NoReset(s, d, mb);
    PlacedInFlash(s, |d|, mb);
    var q := ImagePlan(s, mb.a, pdi, len);
    assert [] + q == q;
    var z := MetaSetPlan(s, Run(d, q), mb.metaA, Refreshed(MetaAt(d, mb.metaA), len));
    hide *;
    PrefixSplit(y, q, z);
    if y <= q {
      DuringImage(s, d, mb, pdi, len, y);
    } else {
      BetweenImageAndMetadata(s, d, mb, pdi, len, y[|q|..]);
    }
  }

  lemma NoReset(s: nat, c: seq<byte>, mb: Multiboot)
    requires InFlash(s, |c|, mb) && BackupAccepted(c, mb)
    ensures ResetPlan(s, c, mb) == []
  {
  }

  lemma DuringImage(s: nat, d: seq<byte>, mb: Multiboot, pdi: seq<byte>, len: nat, y: seq<Op>)
    requires Placed(s, |d|, mb) && Readable(pdi, len) && FlashAccepted(mb, len) && len < mb.aSize
    requires y != [] && y <= ImagePlan(s, mb.a, pdi, len)
    ensures var r := Run(d, y);
            && (TagBlank(r, mb.a) || InPlace(r, mb.a, pdi, len))
            && MetaAt(r, mb.metaA) == MetaAt(d, mb.metaA)
  {
    hide Run, AllWithin, Untouched, EraseEnd, ImagePlan, DecodeMeta, Bits.MultipleOf, Same, InPlace, TagBlank;
    FlashStages(s, d, mb, pdi, len);
    EraseInside(s, mb, len);
    CrashConsistent(s, d, mb.a, pdi, len, y);
    UntouchedOutside(d, ImagePlan(s, mb.a, pdi, len), mb.a, EraseEnd(s, mb.a, len), mb.metaA, mb.metaA + s);
    UntouchedAt(d, ImagePlan(s, mb.a, pdi, len), y, mb.metaA, mb.metaA + s);
    SameMeta(d, Run(d, y), mb.metaA, s);
  }

  /** Where a first request may have been cut: in its backup, or later. */
  lemma Cut(s: nat, c: seq<byte>, mb: Multiboot, pdi: seq<byte>, len: nat, x: seq<Op>)
    requires Requested(s, c, mb, pdi, len) && x <= UpdatePlan(s, c, mb, false, pdi, len)
    ensures var r := Run(c, x);
            && (x <= BackupPlan(s, c, mb) ==>
                  Same(c, r, mb.a, mb.a + mb.aSize) && MetaAt(r, mb.metaA) == MetaAt(c, mb.metaA))
            && (!(x <= BackupPlan(s, c, mb)) ==>
                  && (TagBlank(r, mb.a) || InPlace(r, mb.a, pdi, len))
                  && (BackupAccepted(r, mb) ==>
                        SizeA(r, mb) == SizeA(c, mb) || (InPlace(r, mb.a, pdi, len) && SizeA(r, mb) == len)))
  {
    UpdatePlanParts(s, c, mb, false, pdi, len);
    PlacedInFlash(s, |c|, mb);
    hide Run, BackupPlan, FlashPlan, UpdatePlan, Placed, MetaAt, InPlace, TagBlank, Same, Readable;
    var p := BackupPlan(s, c, mb);
    var d := Run(c, p);
    PrefixSplit(x, p, FlashPlan(s, d, mb, pdi, len));
    if x <= p {
      DuringBackup(s, c, mb, x);
    } else {
      DuringBackup(s, c, mb, p);
      SameVerdict(c, d, mb);
      RunConcat(c, p, x[|p|..]);
      DuringFlash(s, d, mb, pdi, len, x[|p|..]);
    }
  }

  /** Behind what a backup of the old size erases, B is never touched. */
  lemma RestOfB(s: nat, c: seq<byte>, mb: Multiboot, pdi: seq<byte>, len: nat, x: seq<Op>)
    requires Requested(s, c, mb, pdi, len) && x <= UpdatePlan(s, c, mb, false, pdi, len)
    ensures Same(c, Run(c, x), EraseEnd(s, mb.b, SizeA(c, mb)), mb.b + mb.bSize)
  {
    UpdatePlanParts(s, c, mb, false, pdi, len);
    hide Run, Untouched, BackupPlan, FlashPlan, UpdatePlan, EraseEnd, MetaAt, Bits.MultipleOf, BackupAccepted, Same;
    var p, lo, hi := BackupPlan(s, c, mb), EraseEnd(s, mb.b, SizeA(c, mb)), mb.b + mb.bSize;
    var d := Run(c, p);
    SizedBackup(s, c, mb);
    EraseStaysInPartition(s, mb.b, mb.bSize, SizeA(c, mb));
    EraseWithin(s, mb.b, SizeA(c, mb));
    EraseInside(s, mb, len);
    BackupKeeps(s, c, mb, lo, hi);
    FlashKeeps(s, d, mb, pdi, len, lo, hi);
    UntouchedThen(c, p, FlashPlan(s, d, mb, pdi, len), lo, hi);
    UntouchedAt(c, UpdatePlan(s, c, mb, false, pdi, len), x, lo, hi);
  }

  // --- What the second backup leaves in B ---------------------------------------------------------------

  /** After a backup B holds whole pages of A, then blank cells to the end of the erase, then what it held. */
  lemma BackupContents(s: nat, r: seq<byte>, mb: Multiboot)
    requires Placed(s, |r|, mb) && BackupAccepted(r, mb) && SizeA(r, mb) < mb.aSize && SizeA(r, mb) < mb.bSize
    ensures var t, n, end := Run(r, BackupPlan(s, r, mb)), PageBytes(CopyPages(SizeA(r, mb))), EraseEnd(s, mb.b, SizeA(r, mb));
            && n <= mb.aSize && n <= mb.bSize && mb.b + n <= end <= mb.b + mb.bSize
            && |t| == |r| && t[mb.b..mb.b + n] == r[mb.a..mb.a + n]
            && AllBlank(t, mb.b + n, end)
            && Same(r, t, end, mb.b + mb.bSize)
  {
    hide Run, Untouched, AllWithin, EraseEnd, BackupErase, BackupCopy, MetaSetPlan, Bits.MultipleOf, MetaAt;
    hide PageBytes, CopyPages;
    hide AllBlank;
    var size := SizeA(r, mb);
    var n, end := PageBytes(CopyPages(size)), EraseEnd(s, mb.b, size);
    var p := BackupErase(s, r, mb) + BackupCopy(s, r, mb);
    var d, meta := Run(r, p), Refreshed(MetaAt(r, mb.metaB), size);
    var z := MetaSetPlan(s, d, mb.metaB, meta);
    CopyContents(s, r, mb);
    MetaSetWithin(s, d, mb.metaB, meta);
    RunConcat(r, p, z);
    UntouchedOutside(d, z, mb.metaB, mb.metaB + s, mb.b, mb.b + mb.bSize);
    WholePrefix(d, z, mb.b, mb.b + mb.bSize);
    ContentsKept(r, d, Run(d, z), mb, n, end);
  }

  lemma ContentsKept(r: seq<byte>, d: seq<byte>, t: seq<byte>, mb: Multiboot, n: nat, end: nat)
    requires |r| == |d| && Same(d, t, mb.b, mb.b + mb.bSize) && mb.b + mb.bSize <= |d| && mb.a + n <= |r|
    requires mb.b + n <= end <= mb.b + mb.bSize && d[mb.b..mb.b + n] == r[mb.a..mb.a + n]
    requires AllBlank(d, mb.b + n, end) && Same(r, d, end, mb.b + mb.bSize)
    ensures |t| == |r| && t[mb.b..mb.b + n] == r[mb.a..mb.a + n]
    ensures AllBlank(t, mb.b + n, end) && Same(r, t, end, mb.b + mb.bSize)
  {
    SliceKept(d, t, mb.b, n, mb.b + mb.bSize);
  }

  /** The same before the record is written. */
  lemma CopyContents(s: nat, r: seq<byte>, mb: Multiboot)
    requires Placed(s, |r|, mb) && BackupAccepted(r, mb) && SizeA(r, mb) < mb.aSize && SizeA(r, mb) < mb.bSize
    ensures var d := Run(r, BackupErase(s, r, mb) + BackupCopy(s, r, mb));
            var n, end := PageBytes(CopyPages(SizeA(r, mb))), EraseEnd(s, mb.b, SizeA(r, mb));
            && n <= mb.aSize && n <= mb.bSize && mb.b + n <= end <= mb.b + mb.bSize
            && d[mb.b..mb.b + n] == r[mb.a..mb.a + n]
            && AllBlank(d, mb.b + n, end)
            && Same(r, d, end, mb.b + mb.bSize)
  {
    hide Run, ErasePlanFor, EraseEnd, CopyPlan, Bits.MultipleOf, MetaAt, PageBytes, CopyPages, AllBlank, Same;
    var size := SizeA(r, mb);
    SizedBackup(s, r, mb);
    EraseClear(s, mb.b, mb.bSize, size, mb.a, mb.aSize);
    RunConcat(r, BackupErase(s, r, mb), BackupCopy(s, r, mb));
    PagesCopied(s, r, mb.a, mb.aSize, mb.b, mb.bSize, size);
  }

  lemma PagesCopied(s: nat, r: seq<byte>, a: nat, aSize: nat, b: nat, bSize: nat, size: nat)
    requires s > 0 && s % 256 == 0 && Bits.MultipleOf(|r|, s) && Bits.MultipleOf(aSize, s)
    requires Bits.MultipleOf(b, s) && Bits.MultipleOf(bSize, s) && b + bSize <= |r| && a + aSize <= |r|
    requires size < aSize && size < bSize && (EraseEnd(s, b, size) <= a || a + aSize <= b)
    ensures var n, end := PageBytes(CopyPages(size)), EraseEnd(s, b, size);
            && n <= aSize && n <= bSize && b + n <= end <= b + bSize
            && var c1 := Run(r, ErasePlanFor(s, b, size));
               var d := Run(c1, CopyPlan(c1, a, b, CopyPages(size)));
               && d[b..b + n] == r[a..a + n] && AllBlank(d, b + n, end) && Same(r, d, end, b + bSize)
  {
    hide *;
    PartitionHoldsPages(s, aSize, size);
    PartitionHoldsPages(s, bSize, size);
    MultipleOfPages(b, s);
    SmallCopyApart(s, a, aSize, b, size);
    EraseThenCopy(s, r, a, b, size);
    Bits.RoundDownIs(b, s);
    EraseStaysInPartition(s, b, bSize, size);
    var c1 := Run(r, ErasePlanFor(s, b, size));
    BehindPages(r, Run(c1, CopyPlan(c1, a, b, CopyPages(size))), b, PageBytes(CopyPages(size)), EraseEnd(s, b, size), b + bSize);
  }

  lemma BehindPages(r: seq<byte>, d: seq<byte>, b: nat, n: nat, end: nat, hi: nat)
    requires |r| == |d| && b + n <= end <= |d| && forall i :: b + n <= i < end ==> d[i] == ERASED
    requires forall i :: 0 <= i < |r| && !(b <= i < end) ==> d[i] == r[i]
    ensures AllBlank(d, b + n, end) && Same(r, d, end, hi)
  {
  }

  lemma SliceKept(d: seq<byte>, r: seq<byte>, lo: nat, n: nat, hi: nat)
    requires Same(d, r, lo, hi) && lo + n <= hi <= |d|
    ensures r[lo..lo + n] == d[lo..lo + n]
  {
  }

  /**
   The new image neither begins with all of the old one nor ends with what a backup of the old size leaves
   behind its last page. It matters only if that backup copies less than the new image.
   */
  ghost predicate Different(s: nat, c: seq<byte>, mb: Multiboot, pdi: seq<byte>, len: nat)
    requires Requested(s, c, mb, pdi, len)
  {
    var size := SizeA(c, mb);
    var n := PageBytes(CopyPages(size));
    n < len ==>
      && pdi[..size] != c[mb.a..mb.a + size]
      && (len <= mb.bSize ==> exists k :: n <= k < len && pdi[k] != LeftInB(s, c, mb, k))
  }

  /** What a backup of the old size leaves at offset `k` of B, behind the pages it copies. */
  function LeftInB(s: nat, c: seq<byte>, mb: Multiboot, k: nat): byte
    requires s > 0 && mb.metaA + 256 <= |c| && mb.b + k < |c|
  {
    if mb.b + k < EraseEnd(s, mb.b, SizeA(c, mb)) then ERASED else c[mb.b + k]
  }

  // --- The second request --------------------------------------------------------------------------------

  /** The cut points after which another request keeps a whole image at every moment. */
  ghost predicate Repeatable(s: nat, c: seq<byte>, mb: Multiboot, pdi: seq<byte>, len: nat, x: seq<Op>)
    requires InFlash(s, |c|, mb)
  {
    var r := Run(c, x);
    || x <= BackupPlan(s, c, mb)
    || !BackupAccepted(r, mb)
    || (InPlace(r, mb.a, pdi, len) && len <= PageBytes(CopyPages(SizeA(r, mb))))
  }

  /** The old image is whole in A or in B, for a request that is not going to do anything or was cut early. */
  lemma OldKept(s: nat, c: seq<byte>, r: seq<byte>, mb: Multiboot, pdi: seq<byte>, len: nat, z: seq<Op>)
    requires Placed(s, |c|, mb) && Readable(pdi, len) && len < mb.aSize && CopiesFirst(mb, false) && |r| == |c|
    requires SizeA(c, mb) < mb.aSize && SizeA(c, mb) < mb.bSize
    requires Same(c, r, mb.a, mb.a + mb.aSize) && MetaAt(r, mb.metaA) == MetaAt(c, mb.metaA)
    requires z <= UpdatePlan(s, r, mb, false, pdi, len)
    ensures OldAt(c, Run(r, z), mb, mb.a) || OldAt(c, Run(r, z), mb, mb.b)
  {
    hide Run, UpdatePlan, MetaAt, Bits.MultipleOf, NotTorn, BackupAccepted;
    SizedInReach(s, r, mb, len);
    AlwaysRecoverable(s, r, mb, pdi, len, z);
    var t, size := Run(r, z), SizeA(c, mb);
    SliceKept(c, r, mb.a, size, mb.a + mb.aSize);
    if Same(r, t, mb.a, mb.a + mb.aSize) {
      SliceKept(r, t, mb.a, size, mb.a + mb.aSize);
    }
  }

  lemma RepeatKeeps(s: nat, c: seq<byte>, mb: Multiboot, pdi: seq<byte>, len: nat, x: seq<Op>,
                    pdi2: seq<byte>, len2: nat, z: seq<Op>)
    requires Requested(s, c, mb, pdi, len) && x <= UpdatePlan(s, c, mb, false, pdi, len)
    requires Readable(pdi2, len2) && len2 < mb.aSize && Repeatable(s, c, mb, pdi, len, x)
    requires z <= UpdatePlan(s, Run(c, x), mb, false, pdi2, len2)
    ensures Entire(c, Run(Run(c, x), z), mb, pdi, len)
  {
    var r := Run(c, x);
    UpdatePlanParts(s, r, mb, false, pdi2, len2);
    hide Run, UpdatePlan, FlashPlan, BackupPlan, Placed, MetaAt, InPlace, Same, BackupAccepted, Readable;
    hide PageBytes, CopyPages;
    Cut(s, c, mb, pdi, len, x);
    RunNothing(c);
    if x <= BackupPlan(s, c, mb) {
      OldKept(s, c, r, mb, pdi2, len2, z);
    } else if !BackupAccepted(r, mb) {
      SameHere(c, mb);
      OldKept(s, c, c, mb, pdi, len, x);
      RunNothing(r);
    } else {
      NewKept(s, r, mb, pdi, len, pdi2, len2, z);
    }
  }

  lemma SameHere(c: seq<byte>, mb: Multiboot)
    ensures Same(c, c, mb.a, mb.a + mb.aSize)
  {
  }

  /** A new image in place of which a backup takes all of it. */
  lemma NewKept(s: nat, r: seq<byte>, mb: Multiboot, pdi: seq<byte>, len: nat, pdi2: seq<byte>, len2: nat, z: seq<Op>)
    requires Placed(s, |r|, mb) && mb.hasFpt && CopiesFirst(mb, false) && BackupAccepted(r, mb)
    requires InPlace(r, mb.a, pdi, len) && len < mb.aSize && len <= PageBytes(CopyPages(SizeA(r, mb)))
    requires SizeA(r, mb) < mb.aSize && SizeA(r, mb) < mb.bSize
    requires Readable(pdi2, len2) && len2 < mb.aSize && z <= UpdatePlan(s, r, mb, false, pdi2, len2)
    ensures InPlace(Run(r, z), mb.a, pdi, len) || (len <= mb.bSize && InPlace(Run(r, z), mb.b, pdi, len))
  {
    UpdatePlanParts(s, r, mb, false, pdi2, len2);
    PlacedInFlash(s, |r|, mb);
    hide *;
    var p := BackupPlan(s, r, mb);
    PrefixSplit(z, p, FlashPlan(s, Run(r, p), mb, pdi2, len2));
    if z <= p {
      DuringBackup(s, r, mb, z);
      InPlaceSame(r, Run(r, z), mb.a, mb.aSize, pdi, len);
    } else {
      NewInB(s, r, mb, pdi, len, pdi2, len2, z[|p|..]);
      RunConcat(r, p, z[|p|..]);
    }
  }

  lemma NewInB(s: nat, r: seq<byte>, mb: Multiboot, pdi: seq<byte>, len: nat, pdi2: seq<byte>, len2: nat, y: seq<Op>)
    requires Placed(s, |r|, mb) && BackupAccepted(r, mb)
    requires InPlace(r, mb.a, pdi, len) && len <= PageBytes(CopyPages(SizeA(r, mb)))
    requires SizeA(r, mb) < mb.aSize && SizeA(r, mb) < mb.bSize
    requires Readable(pdi2, len2) && len2 < mb.aSize && y <= FlashPlan(s, Run(r, BackupPlan(s, r, mb)), mb, pdi2, len2)
    ensures len <= mb.bSize && InPlace(Run(Run(r, BackupPlan(s, r, mb)), y), mb.b, pdi, len)
  {
    hide Run, FlashPlan, BackupPlan, MetaAt, Same, BackupAccepted, Readable, PageBytes, CopyPages, EraseEnd, InPlace;
    hide Untouched, Bits.MultipleOf;
    var t := Run(r, BackupPlan(s, r, mb));
    BackupContents(s, r, mb);
    InPlaceCopied(r, t, mb.a, mb.b, PageBytes(CopyPages(SizeA(r, mb))), pdi, len);
    FlashKeepsB(s, t, mb, pdi2, len2);
    UntouchedAt(t, FlashPlan(s, t, mb, pdi2, len2), y, mb.b, mb.b + mb.bSize);
    InPlaceSame(t, Run(t, y), mb.b, mb.bSize, pdi, len);
  }

  lemma InPlaceCopied(r: seq<byte>, t: seq<byte>, a: nat, b: nat, n: nat, pdi: seq<byte>, len: nat)
    requires InPlace(r, a, pdi, len) && len <= n && a + n <= |r| && b + n <= |t| && t[b..b + n] == r[a..a + n]
    ensures InPlace(t, b, pdi, len)
  {
    assert t[b..b + len] == t[b..b + n][..len] == r[a..a + n][..len] == r[a..a + len];
  }

  // --- And what it loses otherwise -------------------------------------------------------------------------

  /** Cut before the new image is in place: right after its erase the second backup has lost both copies. */
  lemma RepeatLosesTorn(s: nat, r: seq<byte>, mb: Multiboot, pdi2: seq<byte>, len2: nat) returns (z: seq<Op>)
    requires Placed(s, |r|, mb) && mb.hasFpt && CopiesFirst(mb, false) && BackupAccepted(r, mb)
    requires SizeA(r, mb) < mb.aSize && SizeA(r, mb) < mb.bSize && TagBlank(r, mb.a) && Readable(pdi2, len2)
    ensures z <= UpdatePlan(s, r, mb, false, pdi2, len2)
    ensures TagBlank(Run(r, z), mb.a) && TagBlank(Run(r, z), mb.b)
  {
    UpdatePlanParts(s, r, mb, false, pdi2, len2);
    hide Run, UpdatePlan, FlashPlan, MetaSetPlan, BackupCopy, MetaAt, BackupAccepted, ErasePlanFor, EraseEnd;
    hide AllWithin, Blank, Bits.MultipleOf;
    z := BackupErase(s, r, mb);
    BackupStarts(s, r, mb);
    var size := SizeA(r, mb);
    EraseClear(s, mb.b, mb.bSize, size, mb.a, mb.aSize);
    EraseWithin(s, mb.b, size);
    EraseCoverage(s, r, mb.b, size);
    Bits.RoundDownIs(mb.b, s);
    AtLeastOneSector(mb.aSize, s);
    Frame(r, z, mb.b, EraseEnd(s, mb.b, size));
    BlankCells(r, mb.b, EraseEnd(s, mb.b, size) - mb.b, mb.b + TAG_OFFSET, 4);
  }

  lemma BackupStarts(s: nat, c: seq<byte>, mb: Multiboot)
    requires InFlash(s, |c|, mb) && BackupAccepted(c, mb)
    ensures BackupErase(s, c, mb) <= BackupPlan(s, c, mb)
  {
    hide MetaSetPlan, BackupCopy, BackupErase, Run, MetaAt;
  }

  /** Cut after the image, with less copied than it is long: right after the erase of A nothing is whole. */
  lemma RepeatLosesLonger(s: nat, r: seq<byte>, mb: Multiboot, pdi2: seq<byte>, len2: nat) returns (z: seq<Op>)
    requires Placed(s, |r|, mb) && mb.hasFpt && CopiesFirst(mb, false) && BackupAccepted(r, mb)
    requires SizeA(r, mb) < mb.aSize && SizeA(r, mb) < mb.bSize
    requires Readable(pdi2, len2) && FlashAccepted(mb, len2) && len2 < mb.aSize
    ensures z <= UpdatePlan(s, r, mb, false, pdi2, len2)
    ensures TagBlank(Run(r, z), mb.a)
    ensures Same(Run(r, BackupPlan(s, r, mb)), Run(r, z), mb.b, mb.b + mb.bSize)
  {
    UpdatePlanParts(s, r, mb, false, pdi2, len2);
    hide Run, UpdatePlan, FlashPlan, BackupPlan, MetaAt, BackupAccepted, EraseEnd, Same, Bits.MultipleOf, Readable;
    var p := BackupPlan(s, r, mb);
    var t := Run(r, p);
    var y := FlashErased(s, t, mb, pdi2, len2);
    z := p + y;
    RunConcat(r, p, y);
    EraseWithin(s, mb.a, len2);
    FlashKeepsB(s, t, mb, pdi2, len2);
    UntouchedAt(t, FlashPlan(s, t, mb, pdi2, len2), y, mb.b, mb.b + mb.bSize);
  }

  /** B as such a backup leaves it holds neither image. */
  lemma NeitherInB(s: nat, c: seq<byte>, r: seq<byte>, t: seq<byte>, mb: Multiboot, pdi: seq<byte>, len: nat)
    requires Requested(s, c, mb, pdi, len) && Different(s, c, mb, pdi, len) && |c| == |r| == |t|
    requires InPlace(r, mb.a, pdi, len)
    requires var n, end := PageBytes(CopyPages(SizeA(c, mb))), EraseEnd(s, mb.b, SizeA(c, mb));
             && n < len && n <= mb.aSize && mb.b + n <= end <= mb.b + mb.bSize
             && t[mb.b..mb.b + n] == r[mb.a..mb.a + n]
             && AllBlank(t, mb.b + n, end) && Same(c, t, end, mb.b + mb.bSize)
    ensures !OldAt(c, t, mb, mb.b) && !(len <= mb.bSize && InPlace(t, mb.b, pdi, len))
  {
    hide MetaAt, Bits.MultipleOf, EraseEnd, PageBytes, CopyPages, BackupAccepted, Readable;
    var size := SizeA(c, mb);
    var n := PageBytes(CopyPages(size));
    CopyExceeds(size);
    assert t[mb.b..mb.b + size] == pdi[..size] by {
      InPlaceStart(r, mb.a, pdi, len, n);
      assert t[mb.b..mb.b + n][..size] == t[mb.b..mb.b + size] && pdi[..n][..size] == pdi[..size];
    }
    if len <= mb.bSize {
      var k :| n <= k < len && pdi[k] != LeftInB(s, c, mb, k);
      assert t[mb.b + k] == LeftInB(s, c, mb, k);
      InPlaceByte(t, mb.b, pdi, len, k);
    }
  }

  lemma InPlaceByte(r: seq<byte>, a: nat, pdi: seq<byte>, len: nat, k: nat)
    requires k < len && a + k < |r| && k < |pdi| && r[a + k] != pdi[k]
    ensures !InPlace(r, a, pdi, len)
  {
    if a + len <= |r| && len <= |pdi| {
      assert r[a..a + len][k] == r[a + k] && pdi[..len][k] == pdi[k];
    }
  }

  lemma InPlaceStart(r: seq<byte>, a: nat, pdi: seq<byte>, len: nat, n: nat)
    requires InPlace(r, a, pdi, len) && n <= len
    ensures r[a..a + n] == pdi[..n]
  {
    assert r[a..a + len][..n] == r[a..a + n] && pdi[..len][..n] == pdi[..n];
  }

  lemma RepeatLoses(s: nat, c: seq<byte>, mb: Multiboot, pdi: seq<byte>, len: nat, x: seq<Op>,
                    pdi2: seq<byte>, len2: nat) returns (z: seq<Op>)
    requires Requested(s, c, mb, pdi, len) && x <= UpdatePlan(s, c, mb, false, pdi, len)
    requires Tagged(c, mb.a, SizeA(c, mb)) && Tagged(pdi, 0, len) && Different(s, c, mb, pdi, len)
    requires Readable(pdi2, len2) && FlashAccepted(mb, len2) && len2 < mb.aSize
    requires !Repeatable(s, c, mb, pdi, len, x)
    ensures z <= UpdatePlan(s, Run(c, x), mb, false, pdi2, len2)
    ensures !Entire(c, Run(Run(c, x), z), mb, pdi, len)
  {
    var r := Run(c, x);
    hide Run, UpdatePlan, FlashPlan, BackupPlan, Placed, MetaAt, InPlace, TagBlank, Same, BackupAccepted;
    hide Readable, Tagged, Different;
    hide PageBytes, CopyPages, EraseEnd, Entire, AllBlank;
    PlacedInFlash(s, |c|, mb);
    Cut(s, c, mb, pdi, len, x);
    CopyExceeds(SizeA(r, mb));
    assert SizeA(r, mb) == SizeA(c, mb);
    if !InPlace(r, mb.a, pdi, len) {
      z := RepeatLosesTorn(s, r, mb, pdi2, len2);
      NoneWhole(c, Run(r, z), mb, pdi, len);
    } else {
      z := RepeatLosesLonger(s, r, mb, pdi2, len2);
      var t := Run(r, z);
      BackupContents(s, r, mb);
      RestOfB(s, c, mb, pdi, len, x);
      BSame(s, c, r, Run(r, BackupPlan(s, r, mb)), t, mb);
      NeitherInB(s, c, r, t, mb, pdi, len);
      OnlyInA(c, t, mb, pdi, len);
    }
  }

  /** What holds of B after the backup holds of it after the erase of A. */
  lemma BSame(s: nat, c: seq<byte>, r: seq<byte>, d: seq<byte>, t: seq<byte>, mb: Multiboot)
    requires Placed(s, |c|, mb) && |c| == |r| && Same(d, t, mb.b, mb.b + mb.bSize) && |d| == |r|
    requires var n, end := PageBytes(CopyPages(SizeA(c, mb))), EraseEnd(s, mb.b, SizeA(c, mb));
             && n <= mb.aSize && n <= mb.bSize && mb.b + n <= end <= mb.b + mb.bSize
             && d[mb.b..mb.b + n] == r[mb.a..mb.a + n]
             && AllBlank(d, mb.b + n, end) && Same(r, d, end, mb.b + mb.bSize)
             && Same(c, r, end, mb.b + mb.bSize)
    ensures var n, end := PageBytes(CopyPages(SizeA(c, mb))), EraseEnd(s, mb.b, SizeA(c, mb));
            && |t| == |c| && t[mb.b..mb.b + n] == r[mb.a..mb.a + n]
            && AllBlank(t, mb.b + n, end) && Same(c, t, end, mb.b + mb.bSize)
  {
    hide MetaAt, Bits.MultipleOf, EraseEnd, PageBytes, CopyPages;
    SliceKept(d, t, mb.b, PageBytes(CopyPages(SizeA(c, mb))), mb.b + mb.bSize);
  }

  lemma OnlyInA(c: seq<byte>, t: seq<byte>, mb: Multiboot, pdi: seq<byte>, len: nat)
    requires mb.metaA + 256 <= |c| && Tagged(c, mb.a, SizeA(c, mb)) && Tagged(pdi, 0, len) && TagBlank(t, mb.a)
    requires !OldAt(c, t, mb, mb.b) && !(len <= mb.bSize && InPlace(t, mb.b, pdi, len))
    ensures !Entire(c, t, mb, pdi, len)
  {
    hide Tagged, TagBlank, MetaAt;
    NotWhereBlank(c, mb.a, SizeA(c, mb), t, mb.a);
    NotInPlace(t, mb.a, pdi, len);
  }

  /**
   Exactly when a second request, whatever its image, keeps the old image or the first request's new one
   whole at every moment: when the first was cut before flashing A began, or the backup is now refused, or
   the new image is in place and its metadata has the backup copy all of it. A request cut in between, or
   failed there, must not be followed by another one before the next boot.
   */
  lemma RepeatExactly(s: nat, c: seq<byte>, mb: Multiboot, pdi: seq<byte>, len: nat, x: seq<Op>,
                      pdi2: seq<byte>, len2: nat)
    requires Requested(s, c, mb, pdi, len) && x <= UpdatePlan(s, c, mb, false, pdi, len)
    requires Tagged(c, mb.a, SizeA(c, mb)) && Tagged(pdi, 0, len) && Different(s, c, mb, pdi, len)
    requires Readable(pdi2, len2) && FlashAccepted(mb, len2) && len2 < mb.aSize
    ensures (forall z :: z <= UpdatePlan(s, Run(c, x), mb, false, pdi2, len2) ==>
               Entire(c, Run(Run(c, x), z), mb, pdi, len))
       <==> Repeatable(s, c, mb, pdi, len, x)
  {
    var r := Run(c, x);
    PlacedInFlash(s, |c|, mb);
    hide *;
    if Repeatable(s, c, mb, pdi, len, x) {
      forall z | z <= UpdatePlan(s, r, mb, false, pdi2, len2)
        ensures Entire(c, Run(r, z), mb, pdi, len)
      {
        RepeatKeeps(s, c, mb, pdi, len, x, pdi2, len2, z);
      }
    } else {
      var z := RepeatLoses(s, c, mb, pdi, len, x, pdi2, len2);
    }
  }

  /** There is such a cut point in every request: right after the erase of A, whose metadata is still the old one. */
  lemma EraseIsNotRepeatable(s: nat, c: seq<byte>, mb: Multiboot, pdi: seq<byte>, len: nat) returns (x: seq<Op>)
    requires Requested(s, c, mb, pdi, len) && Tagged(pdi, 0, len)
    ensures x <= UpdatePlan(s, c, mb, false, pdi, len)
    ensures !Repeatable(s, c, mb, pdi, len, x)
  {
    UpdatePlanParts(s, c, mb, false, pdi, len);
    hide Run, BackupPlan, UpdatePlan, FlashPlan, MetaAt, InPlace, TagBlank, Tagged, Same, Readable, Bits.MultipleOf;
    var p, e := BackupPlan(s, c, mb), ErasePlanFor(s, mb.a, len);
    var d := Run(c, p);
    DuringBackup(s, c, mb, p);
    SameVerdict(c, d, mb);
    NoReset(s, d, mb);
    ErasePrefix(s, d, mb, pdi, len);
    EraseNotEmpty(s, mb.a, len);
    hide ErasePlanFor;
    assert [] + e == e;
    x := p + e;
    RunConcat(c, p, e);
    EraseFirst(s, mb, pdi, len);
    FlashStages(s, d, mb, pdi, len);
    EraseBlanksTagFirst(s, d, mb.a, len, e);
    DuringImage(s, d, mb, pdi, len, e);
    SameVerdict(d, Run(d, e), mb);
    NotInPlace(Run(d, e), mb.a, pdi, len);
  }

  lemma EraseFirst(s: nat, mb: Multiboot, pdi: seq<byte>, len: nat)
    requires s > 0 && Readable(pdi, len)
    ensures ErasePlanFor(s, mb.a, len) <= ImagePlan(s, mb.a, pdi, len)
  {
  }

  /** Running from B there is no backup, and no number of failed requests touches B. */
  lemma RepeatFromBackup(s: nat, c: seq<byte>, mb: Multiboot, pdi: seq<byte>, len: nat, x: seq<Op>,
                         pdi2: seq<byte>, len2: nat, z: seq<Op>)
    requires Placed(s, |c|, mb) && mb.bootOnBackup && Readable(pdi, len) && Readable(pdi2, len2)
    requires InReach(c, mb, len) && Spares(c, mb, len) && InReach(c, mb, len2) && Spares(c, mb, len2)
    requires x <= UpdatePlan(s, c, mb, false, pdi, len) && z <= UpdatePlan(s, Run(c, x), mb, false, pdi2, len2)
    ensures Same(c, Run(Run(c, x), z), mb.b, mb.b + mb.bSize)
  {
    hide Run, UpdatePlan, NotTorn, MetaAt, Bits.MultipleOf, Same;
    var r := Run(c, x);
    AlwaysRecoverable(s, c, mb, pdi, len, x);
    AlwaysRecoverable(s, r, mb, pdi2, len2, z);
    SameTrans(c, r, Run(r, z), mb.b, mb.b + mb.bSize);
  }
}
