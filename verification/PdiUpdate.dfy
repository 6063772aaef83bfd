/**
 Updating the boot image: partition A is copied to partition B, then A is erased and rewritten
 with its boot tag masked until everything else is in place, and the partition metadata is
 rewritten last. The update is proved against a plan of device operations; `UpdateSafety`
 proves what holds after every prefix of that plan.
 */
module PdiUpdate {
  import opened Machine
  import opened NorFlash
  import opened Ospi
  import Bits

  const PDIMETA_MAGIC: u32 := 0x4D494450
  const TAG_OFFSET: nat := 0x14

  /** What the partition table query left in the message. */
  datatype Multiboot = Multiboot(
    hasFpt: bool, bootOnBackup: bool,
    a: u32, aSize: u32, b: u32, bSize: u32,
    metaA: u32, metaB: u32)

  // --- Partition metadata -------------------------------------------------------------------

  datatype PdiMeta = PdiMeta(magic: u32, version: u32, size: u32, checksum: u32, debugType: byte, rsvd: seq<byte>)

  ghost predicate ProperMeta(m: PdiMeta) {
    |m.rsvd| == 3
  }

  function Word(x: u32): seq<byte> {
    LittleEndian(x, 4)
  }

  function ReadWord(b: seq<byte>, at: nat): (r: u32)
    requires at + 4 <= |b|
  {
    FromLittleEndianBound(b[at..at + 4]);
    FromLittleEndian(b[at..at + 4])
  }

  lemma FromLittleEndianBound(b: seq<byte>)
    requires |b| == 4
    ensures FromLittleEndian(b) < 0x1_0000_0000
  {
    FromLittleEndianRoundTrip(b);
    assert Pow256(4) == 0x1_0000_0000;
  }

  /** The metadata record, zero padded to a page. */
  function MetaPage(m: PdiMeta): (p: seq<byte>)
    requires ProperMeta(m)
    ensures |p| == 256
  {
    Word(m.magic) + Word(m.version) + Word(m.size) + Word(m.checksum) + [m.debugType] + m.rsvd + Zeros(236)
  }

  function DecodeMeta(p: seq<byte>): (m: PdiMeta)
    requires |p| == 256
    ensures ProperMeta(m)
  {
    PdiMeta(ReadWord(p, 0), ReadWord(p, 4), ReadWord(p, 8), ReadWord(p, 12), p[16], p[17..20])
  }

  lemma WordRoundTrip(x: u32)
    ensures FromLittleEndian(Word(x)) == x
  {
    assert Pow256(4) == 0x1_0000_0000;
    LittleEndianRoundTrip(x, 4);
  }

  /** Metadata read back from a page is the metadata that was written. */
  lemma MetaRoundTrip(m: PdiMeta)
    requires ProperMeta(m)
    ensures DecodeMeta(MetaPage(m)) == m
  {
    var p := MetaPage(m);
    assert p[0..4] == Word(m.magic) && p[4..8] == Word(m.version);
    assert p[8..12] == Word(m.size) && p[12..16] == Word(m.checksum);
    assert p[16] == m.debugType && p[17..20] == m.rsvd;
    WordRoundTrip(m.magic);
    WordRoundTrip(m.version);
    WordRoundTrip(m.size);
    WordRoundTrip(m.checksum);
  }

  function MetaAt(c: seq<byte>, base: nat): (m: PdiMeta)
    requires base + 256 <= |c|
    ensures ProperMeta(m)
  {
    DecodeMeta(c[base..base + 256])
  }

  /** Where the fields that decide stand in the flash. */
  lemma MetaWords(c: seq<byte>, base: nat)
    requires base + 256 <= |c|
    ensures MetaAt(c, base).magic == ReadWord(c, base) && MetaAt(c, base).size == ReadWord(c, base + 8)
  {
    SliceOfSlice(c, base, 0);
    SliceOfSlice(c, base, 8);
  }

  lemma SliceOfSlice(c: seq<byte>, base: nat, at: nat)
    requires base + 256 <= |c| && at + 4 <= 256
    ensures c[base..base + 256][at..at + 4] == c[base + at..base + at + 4]
  {
    var x, y := c[base..base + 256][at..at + 4], c[base + at..base + at + 4];
    assert |x| == |y| == 4;
    forall j | 0 <= j < 4
      ensures x[j] == y[j]
    {
      assert x[j] == c[base..base + 256][at + j] == c[base + (at + j)];
    }
  }

  // --- Plans ---------------------------------------------------------------------------------

  /** The image with its boot tag set to all ones. */
  function TagMasked(pdi: seq<byte>): (m: seq<byte>)
    requires |pdi| >= 256
    ensures |m| == |pdi|
  {
    seq(|pdi|, i requires 0 <= i < |pdi| => if TAG_OFFSET <= i < TAG_OFFSET + 4 then ERASED else pdi[i])
  }

  /** The boot tag is the word at 0x14; nothing else is masked. */
  lemma TagIsWord5(pdi: seq<byte>)
    requires |pdi| >= 256
    ensures var m := TagMasked(pdi);
            m[..0x14] == pdi[..0x14] && m[0x14..0x18] == [0xFF, 0xFF, 0xFF, 0xFF] && m[0x18..] == pdi[0x18..]
  {
    assert TagMasked(pdi)[0x14..0x18] == [0xFF, 0xFF, 0xFF, 0xFF];
  }

  /** The request is backed by enough source buffer: whole pages, and at least the first page. */
  ghost predicate Readable(pdi: seq<byte>, len: nat) {
    |pdi| >= 256 && |pdi| >= PageBytes(Pages(len))
  }

  /** The two writes of an image: everything with the tag masked, then the first page with the tag. */
  function MaskedWrite(a: nat, pdi: seq<byte>, len: nat): seq<Op>
    requires Readable(pdi, len)
  {
    WritePlan(a, TagMasked(pdi)[..PageBytes(Pages(len))])
  }

  /** Erase, then both writes. */
  function ImagePlan(s: nat, a: nat, pdi: seq<byte>, len: nat): seq<Op>
    requires s > 0 && Readable(pdi, len)
  {
    ErasePlanFor(s, a, len) + MaskedWrite(a, pdi, len) + WritePlan(a, pdi[..256])
  }

  /** Partitions and metadata sectors are aligned to chunks and inside the flash. */
  ghost predicate InFlash(s: nat, capacity: nat, mb: Multiboot) {
    && s > 256
    && mb.a % 8 == 0 && mb.b % 8 == 0 && mb.metaA % 8 == 0 && mb.metaB % 8 == 0
    && mb.a + mb.aSize <= capacity && mb.b + mb.bSize <= capacity
    && mb.metaA + s <= capacity && mb.metaB + s <= capacity
  }

  function Refreshed(m: PdiMeta, size: u32): (r: PdiMeta)
    requires ProperMeta(m)
    ensures ProperMeta(r)
  {
    m.(magic := PDIMETA_MAGIC, size := size, debugType := 0)
  }

  function MetaSetPlan(s: nat, c: seq<byte>, base: nat, m: PdiMeta): seq<Op>
    requires s > 256 && base + s <= |c| && ProperMeta(m)
  {
    MetaWritable(s, c, base);
    SafeWritePlan(s, c, base, MetaPage(m), 256)
  }

  lemma MetaWritable(s: nat, c: seq<byte>, base: nat)
    requires s > 256 && base + s <= |c|
    ensures Pages(256) == 1 && PageBytes(1) == 256
    ensures Bits.RoundDown(256, s) == 0 && LastSector(s, base, 256) + s <= |c|
  {
    Bits.RoundDownIs(256, s);
  }

  /** All checks of the backup copy pass. */
  predicate BackupAccepted(c: seq<byte>, mb: Multiboot)
    requires mb.metaA + 256 <= |c|
  {
    && !mb.bootOnBackup && mb.a != 0 && mb.b != 0 && mb.metaA != 0 && mb.metaB != 0
    && var m := MetaAt(c, mb.metaA);
       m.magic == PDIMETA_MAGIC && 0 < m.size <= mb.bSize
  }

  /** The size of the image in A, by its metadata. */
  function SizeA(c: seq<byte>, mb: Multiboot): u32
    requires mb.metaA + 256 <= |c|
  {
    MetaAt(c, mb.metaA).size
  }

  /** The pages a backup copies are inside the flash, on both sides. */
  predicate CopyInFlash(c: seq<byte>, mb: Multiboot)
    requires mb.metaA + 256 <= |c|
  {
    var n := PageBytes(CopyPages(SizeA(c, mb)));
    mb.a + n <= |c| && mb.b + n <= |c|
  }

  function BackupErase(s: nat, c: seq<byte>, mb: Multiboot): seq<Op>
    requires s > 0 && mb.metaA + 256 <= |c|
  {
    ErasePlanFor(s, mb.b, SizeA(c, mb))
  }

  function BackupCopy(s: nat, c: seq<byte>, mb: Multiboot): seq<Op>
    requires s > 0 && mb.metaA + 256 <= |c|
  {
    if CopyInFlash(c, mb) then CopyPlan(Run(c, BackupErase(s, c, mb)), mb.a, mb.b, CopyPages(SizeA(c, mb))) else []
  }

  /** Copy A to B and record the size of the copy. */
  function BackupPlan(s: nat, c: seq<byte>, mb: Multiboot): seq<Op>
    requires InFlash(s, |c|, mb)
  {
    if !BackupAccepted(c, mb) then []
    else
      var p := BackupErase(s, c, mb) + BackupCopy(s, c, mb);
      p + MetaSetPlan(s, Run(c, p), mb.metaB, Refreshed(MetaAt(c, mb.metaB), SizeA(c, mb)))
  }

  predicate FlashAccepted(mb: Multiboot, len: nat) {
    len <= mb.aSize && mb.a != 0 && mb.metaA != 0
  }

  /** Erase the metadata of A first if it is not recognised. */
  function ResetPlan(s: nat, c: seq<byte>, mb: Multiboot): seq<Op>
    requires s > 0 && mb.metaA + 256 <= |c|
  {
    if MetaAt(c, mb.metaA).magic == PDIMETA_MAGIC then [] else ErasePlanFor(s, mb.metaA, 256)
  }

  /** Flash the image onto A and record its size. */
  function FlashPlan(s: nat, c: seq<byte>, mb: Multiboot, pdi: seq<byte>, len: nat): seq<Op>
    requires InFlash(s, |c|, mb) && Readable(pdi, len)
  {
    if !FlashAccepted(mb, len) then []
    else
      var p := ResetPlan(s, c, mb) + ImagePlan(s, mb.a, pdi, len);
      p + MetaSetPlan(s, Run(c, p), mb.metaA, Refreshed(MetaAt(c, mb.metaA), len))
  }

  predicate CopiesFirst(mb: Multiboot, noBackup: bool) {
    !noBackup && !mb.bootOnBackup
  }

  predicate UpdateAccepted(c: seq<byte>, mb: Multiboot, noBackup: bool, len: nat)
    requires mb.metaA + 256 <= |c|
  {
    mb.hasFpt && (CopiesFirst(mb, noBackup) ==> BackupAccepted(c, mb)) && FlashAccepted(mb, len)
  }

  /** A backup that is made stays in the flash. */
  ghost predicate BackupInFlash(c: seq<byte>, mb: Multiboot, noBackup: bool)
    requires mb.metaA + 256 <= |c|
  {
    CopiesFirst(mb, noBackup) && BackupAccepted(c, mb) ==> CopyInFlash(c, mb)
  }

  /** Everything an update without `flash_to_legacy` does to the flash. */
  function UpdatePlan(s: nat, c: seq<byte>, mb: Multiboot, noBackup: bool, pdi: seq<byte>, len: nat): seq<Op>
    requires InFlash(s, |c|, mb) && Readable(pdi, len)
  {
    if !mb.hasFpt then []
    else if !CopiesFirst(mb, noBackup) then FlashPlan(s, c, mb, pdi, len)
    else if !BackupAccepted(c, mb) then []
    else
      var p := BackupPlan(s, c, mb);
      p + FlashPlan(s, Run(c, p), mb, pdi, len)
  }

  /** The image at the start of the flash; its length may be that of the flash. */
  function LegacyPlan(g: Geometry, b: Bulk, pdi: seq<byte>, len: nat): seq<Op>
    requires g.sect > 0 && Readable(pdi, len)
  {
    DriverErase(g, 0, len, b) + WritePlan(0, pdi[..PageBytes(Pages(len))])
  }

  /** No erase of an accepted update is as long as the flash, so all of them are sector erases. */
  lemma NoUpdateErasesChips(s: nat, c: seq<byte>, mb: Multiboot, noBackup: bool, len: nat)
    requires InFlash(s, |c|, mb) && UpdateAccepted(c, mb, noBackup, len)
    ensures len < |c| && (CopiesFirst(mb, noBackup) ==> SizeA(c, mb) < |c|)
  {
  }

  // --- The updater -----------------------------------------------------------------------------

  /** How far the write of an image came: where the first error was, if any. */
  datatype Stage = NotErased | NotWritten | NotTagged | Written

  /** Room for the image, erase and pages included. */
  ghost predicate ImageInFlash(g: Geometry, a: nat, len: nat) {
    a + len < g.Capacity() && a + PageBytes(Pages(len)) <= g.Capacity() && a + 256 <= g.Capacity()
  }

  class Updater {
    const flash: Flash
    var alreadyFlashed: bool

    ghost predicate Valid()
      reads this, flash
    {
      flash.Valid()
    }

    constructor (flash: Flash)
      requires flash.Valid()
      ensures Valid() && this.flash == flash && !alreadyFlashed
    {
      this.flash := flash;
      alreadyFlashed := false;
    }

    method MetaGet(base: u32) returns (ok: bool, m: PdiMeta)
      requires Valid() && base + 256 <= flash.g.Capacity()
      modifies flash`faults
      ensures Valid() && ProperMeta(m)
      ensures flash.faults >= old(flash.faults) && (ok <==> base != 0 && flash.faults == old(flash.faults))
      ensures ok ==> base != 0 && base + 256 <= |flash.Flat()| && m == MetaAt(flash.Flat(), base)
    {
      m := PdiMeta(0, 0, 0, 0, 0, [0, 0, 0]);
      if base == 0 {
        return false, m;
      }
      var page;
      ok, page := flash.AreaRead(Boot, base, 256);
      if ok {
        m := DecodeMeta(page);
      }
    }

    method MetaSet(base: u32, m: PdiMeta) returns (ok: bool)
      requires Valid() && base % 8 == 0 && base + flash.g.sect <= flash.g.Capacity() && ProperMeta(m)
      modifies flash`chip0, flash`chip1, flash`log, flash`faults
      ensures Valid() && |old(flash.Flat())| == flash.g.Capacity() && flash.g.sect > 256
      ensures flash.faults >= old(flash.faults)
      ensures ok <==> base != 0 && (base / 256) % 2 == 0 && flash.faults == old(flash.faults)
      ensures Grew(old(flash.log), flash.log, MetaSetPlan(flash.g.sect, old(flash.Flat()), base, m), ok)
    {
      assert 256 < flash.g.sect <= flash.g.dev && |flash.Flat()| == flash.g.Capacity();
      hide Flash.Valid, Geometry.Valid, Grew, SafeWriteOps, MetaPage, OddPage, ErasePlanFor;
      GrewNothing(flash.log, MetaSetPlan(flash.g.sect, flash.Flat(), base, m));
      if base == 0 {
        return false;
      }
      MetaWritable(flash.g.sect, flash.Flat(), base);
      var status, _ := flash.SafeWrite(Boot, MetaPage(m), base, 256);
      ok := status == Success;
    }

    method MetaErase(base: u32) returns (ok: bool)
      requires Valid() && base + 256 < flash.g.Capacity()
      modifies flash`chip0, flash`chip1, flash`log, flash`faults
      ensures Valid() && flash.g.sect > 0
      ensures flash.faults >= old(flash.faults) && (ok <==> base != 0 && flash.faults == old(flash.faults))
      ensures Grew(old(flash.log), flash.log, ErasePlanFor(flash.g.sect, base, 256), ok)
    {
      assert 256 < flash.g.sect <= flash.g.dev;
      if base == 0 {
        GrewNothing(flash.log, ErasePlanFor(flash.g.sect, base, 256));
        return false;
      }
      ghost var b;
      ok, b := flash.AreaErase(Boot, base, 256);
    }

    /** Copy partition A over partition B and record the size in the metadata of B. */
    method CopyDefaultToBackup(mb: Multiboot) returns (ok: bool)
      requires Valid() && InFlash(flash.g.sect, flash.g.Capacity(), mb)
      requires BackupAccepted(flash.Flat(), mb) ==> CopyInFlash(flash.Flat(), mb)
      modifies flash`chip0, flash`chip1, flash`log, flash`faults
      ensures Valid() && |old(flash.Flat())| == flash.g.Capacity()
      ensures flash.faults >= old(flash.faults)
      ensures ok <==>
        && flash.faults == old(flash.faults)
        && !mb.bootOnBackup && mb.a != 0 && mb.b != 0 && mb.metaA != 0 && mb.metaB != 0 && (mb.metaB / 256) % 2 == 0
        && ReadWord(old(flash.Flat()), mb.metaA) == 0x4D494450
        && 0 < ReadWord(old(flash.Flat()), mb.metaA + 8) <= mb.bSize
      ensures ok ==> BackupAccepted(old(flash.Flat()), mb)
      ensures Grew(old(flash.log), flash.log, BackupPlan(flash.g.sect, old(flash.Flat()), mb), ok)
    {
      hide Flash.Valid, Geometry.Valid, Grew, DriverErase, ErasePlanFor, CopyPlan, MetaSetPlan, CopyPages;
      hide PageBytes, Run, DecodeMeta;
      ghost var s, c, before := flash.g.sect, flash.Flat(), flash.log;
      flash.Contents();
      ok := false;
      GrewNothing(before, BackupPlan(s, c, mb));
      MetaWords(c, mb.metaA);
      if mb.bootOnBackup {
        return;
      }
      if mb.a == 0 || mb.b == 0 {
        return;
      }
      var meta;
      ok, meta := MetaGet(mb.metaA);
      if !ok || meta.magic != PDIMETA_MAGIC {
        ok := false;
        return;
      }
      var srcSize := meta.size;
      if srcSize == 0 || srcSize > mb.bSize {
        ok := false;
        return;
      }
      ok, meta := MetaGet(mb.metaB);
      if !ok {
        return;
      }
      if meta.magic != PDIMETA_MAGIC {
        meta := meta.(magic := PDIMETA_MAGIC);
      }
      CopyExceeds(srcSize);
      ghost var b;
      ok, b := flash.AreaErase(Boot, mb.b, srcSize);
      InsideIsSectors(flash.g, mb.b, srcSize, b);
      ghost var p, q, plan := BackupErase(s, c, mb), BackupCopy(s, c, mb), BackupPlan(s, c, mb);
      if !ok {
        GrewWiden(before, flash.log, p, plan);
        return;
      }
      GrewDone(before, flash.log, p);
      flash.HistorySince(before, p);
      ghost var erased := flash.log;
      ok := flash.AreaCopy(Boot, mb.a, mb.b, srcSize);
      GrewThen(before, erased, flash.log, p, q, ok);
      if !ok {
        GrewWiden(before, flash.log, p + q, plan);
        return;
      }
      GrewDone(before, flash.log, p + q);
      flash.HistorySince(before, p + q);
      ghost var copied := flash.log;
      meta := meta.(size := srcSize, debugType := 0);
      ok := MetaSet(mb.metaB, meta);
      GrewThen(before, copied, flash.log, p + q, MetaSetPlan(s, Run(c, p + q), mb.metaB, meta), ok);
    }

    /**
     Erase A and write the image: all of it with the tag masked, then the first page with the tag. The
     caller's buffer is left masked exactly when the erase succeeded and the masked write did not.
     */
    method FlashImage(a: u32, pdi: array<byte>, len: u32) returns (ok: bool, ghost stage: Stage)
      requires Valid() && Readable(pdi[..], len) && a % 8 == 0 && ImageInFlash(flash.g, a, len)
      modifies flash`chip0, flash`chip1, flash`log, flash`faults, pdi
      ensures Valid() && (ok <==> stage == Written)
      ensures flash.faults >= old(flash.faults) && (ok <==> flash.faults == old(flash.faults))
      ensures pdi[..] == if stage == NotWritten then TagMasked(old(pdi[..])) else old(pdi[..])
      ensures flash.g.sect > 0
      ensures var e, log := ErasePlanFor(flash.g.sect, a, len), old(flash.log);
              var w := MaskedWrite(a, old(pdi[..]), len);
              && Grew(log, flash.log, ImagePlan(flash.g.sect, a, old(pdi[..]), len), ok)
              && (stage == NotErased ==> Grew(log, flash.log, e, false))
              && (stage == NotWritten ==> Grew(log + e, flash.log, w, false))
              && (stage == NotTagged ==> Grew(log + e + w, flash.log, WritePlan(a, old(pdi[..256])), false))
    {
      hide Flash.Valid, Geometry.Valid, DriverErase, ErasePlanFor, WritePlan, Pages, PageBytes;
      ghost var data, before := pdi[..], flash.log;
      assert data[..256] == pdi[..256];
      stage := NotErased;
      ghost var b;
      ok, b := flash.AreaErase(Boot, a, len);
      InsideIsSectors(flash.g, a, len, b);
      ghost var e, w := ErasePlanFor(flash.g.sect, a, len), MaskedWrite(a, data, len);
      if !ok {
        GrewWiden(before, flash.log, e, ImagePlan(flash.g.sect, a, data, len));
        return;
      }
      GrewDone(before, flash.log, e);
      stage := NotWritten;
      ghost var erased := flash.log;
      var tag := [pdi[0x14], pdi[0x15], pdi[0x16], pdi[0x17]];
      pdi[0x14], pdi[0x15], pdi[0x16], pdi[0x17] := ERASED, ERASED, ERASED, ERASED;
      assert pdi[..] == TagMasked(data);
      ok := flash.AreaWrite(Boot, pdi[..], a, len);
      GrewThen(before, erased, flash.log, e, w, ok);
      if !ok {
        GrewWiden(before, flash.log, e + w, ImagePlan(flash.g.sect, a, data, len));
        return;
      }
      GrewDone(before, flash.log, e + w);
      stage := NotTagged;
      ghost var written := flash.log;
      assert written == before + e + w;
      pdi[0x14], pdi[0x15], pdi[0x16], pdi[0x17] := tag[0], tag[1], tag[2], tag[3];
      assert pdi[..] == data;
      OnePage();
      ok := flash.AreaWrite(Boot, pdi[..], a, 256);
      GrewThen(before, written, flash.log, e + w, WritePlan(a, data[..256]), ok);
      if ok {
        stage := Written;
      }
    }

    lemma OnePage()
      ensures Pages(256) == 1 && PageBytes(1) == 256
    {
    }

    /** Record the new image in the metadata of A, resetting it first if it is not recognised. */
    method FlashDefault(mb: Multiboot, pdi: array<byte>, len: u32) returns (ok: bool, ghost stage: Stage)
      requires Valid() && InFlash(flash.g.sect, flash.g.Capacity(), mb) && Readable(pdi[..], len)
      requires len <= mb.aSize ==> ImageInFlash(flash.g, mb.a, len)
      modifies flash`chip0, flash`chip1, flash`log, flash`faults, pdi
      ensures Valid() && |old(flash.Flat())| == flash.g.Capacity()
      ensures flash.faults >= old(flash.faults)
      ensures ok <==>
        && flash.faults == old(flash.faults)
        && len <= mb.aSize && mb.a != 0 && mb.metaA != 0 && (mb.metaA / 256) % 2 == 0
      ensures pdi[..] == if stage == NotWritten then TagMasked(old(pdi[..])) else old(pdi[..])
      ensures ok ==> stage == Written
      ensures var s, c := flash.g.sect, old(flash.Flat());
              && Grew(old(flash.log), flash.log, FlashPlan(s, c, mb, old(pdi[..]), len), ok)
              && (stage == NotWritten ==>
                    Grew(old(flash.log) + ResetPlan(s, c, mb) + ErasePlanFor(s, mb.a, len), flash.log,
                         MaskedWrite(mb.a, old(pdi[..]), len), false))
    {
      hide Flash.Valid, Geometry.Valid, Grew, ErasePlanFor, ImagePlan, MaskedWrite, MetaSetPlan, Run;
      hide DecodeMeta, TagMasked, Pages, PageBytes;
      ghost var s, c, data, before := flash.g.sect, flash.Flat(), pdi[..], flash.log;
      flash.Contents();
      ok, stage := false, NotErased;
      GrewNothing(before, FlashPlan(s, c, mb, data, len));
      if len > mb.aSize {
        return;
      }
      if mb.a == 0 {
        return;
      }
      var meta;
      ok, meta := MetaGet(mb.metaA);
      if !ok {
        return;
      }
      ghost var p := ResetPlan(s, c, mb);
      if meta.magic != PDIMETA_MAGIC {
        ok := MetaErase(mb.metaA);
        if !ok {
          GrewWiden(before, flash.log, p, FlashPlan(s, c, mb, data, len));
          return;
        }
        meta := meta.(magic := PDIMETA_MAGIC);
      }
      ghost var reset := flash.log;
      assert Grew(before, reset, p, true) by {
        GrewNothing(before, p);
      }
      GrewDone(before, reset, p);
      ok, stage := FlashImage(mb.a, pdi, len);
      ghost var q, plan := ImagePlan(s, mb.a, data, len), FlashPlan(s, c, mb, data, len);
      GrewThen(before, reset, flash.log, p, q, ok);
      if !ok {
        GrewWiden(before, flash.log, p + q, plan);
        return;
      }
      GrewDone(before, flash.log, p + q);
      flash.HistorySince(before, p + q);
      ghost var flashed := flash.log;
      meta := meta.(size := len, debugType := 0);
      ok := MetaSet(mb.metaA, meta);
      GrewThen(before, flashed, flash.log, p + q, MetaSetPlan(s, Run(c, p + q), mb.metaA, meta), ok);
    }

    /**
     Flash a new boot image. `located` says whether the image section was found in the container;
     the flags are those of the request.
     */
    method FlashRpuPdi(mb: Multiboot, noBackup: bool, toLegacy: bool, located: bool, pdi: array<byte>, len: u32)
        returns (ok: bool, ghost stage: Stage, ghost b: Bulk)
      requires Valid() && InFlash(flash.g.sect, flash.g.Capacity(), mb) && Readable(pdi[..], len)
      requires BackupInFlash(flash.Flat(), mb, noBackup)
      requires len <= mb.aSize ==> ImageInFlash(flash.g, mb.a, len)
      requires toLegacy ==> EraseInFlash(flash.g, 0, len) && PageBytes(Pages(len)) <= flash.g.Capacity()
      modifies this, flash`chip0, flash`chip1, flash`log, flash`faults, pdi
      ensures Valid() && |old(flash.Flat())| == flash.g.Capacity()
      ensures alreadyFlashed == (old(alreadyFlashed) || ok)
      ensures old(alreadyFlashed) || !located ==> !ok && flash.log == old(flash.log)
      ensures Grew(old(flash.log), flash.log,
                   if toLegacy then LegacyPlan(flash.g, b, old(pdi[..]), len)
                   else UpdatePlan(flash.g.sect, old(flash.Flat()), mb, noBackup, old(pdi[..]), len), ok)
      ensures flash.faults >= old(flash.faults)
      ensures ok <==>
        && flash.faults == old(flash.faults) && !old(alreadyFlashed) && located
        && (!toLegacy ==>
              && mb.hasFpt
              && (!noBackup && !mb.bootOnBackup ==>
                    && mb.b != 0 && mb.metaB != 0 && (mb.metaB / 256) % 2 == 0
                    && ReadWord(old(flash.Flat()), mb.metaA) == 0x4D494450
                    && 0 < ReadWord(old(flash.Flat()), mb.metaA + 8) <= mb.bSize)
              && len <= mb.aSize && mb.a != 0 && mb.metaA != 0 && (mb.metaA / 256) % 2 == 0)
      ensures ok && !toLegacy ==> UpdateAccepted(old(flash.Flat()), mb, noBackup, len)
      ensures pdi[..] == if stage == NotWritten then TagMasked(old(pdi[..])) else old(pdi[..])
      ensures ok ==> stage == Written
      ensures stage == NotWritten ==> !toLegacy
      ensures stage == NotWritten ==>
        var s, c := flash.g.sect, old(flash.Flat());
        var p := if CopiesFirst(mb, noBackup) then BackupPlan(s, c, mb) else [];
        Grew(old(flash.log) + p + ResetPlan(s, Run(c, p), mb) + ErasePlanFor(s, mb.a, len), flash.log,
             MaskedWrite(mb.a, old(pdi[..]), len), false)
    {
      hide Flash.Valid, Geometry.Valid, Grew, DriverErase, ErasePlanFor, WritePlan, FlashPlan, BackupPlan;
      hide Run, TagMasked, Pages, PageBytes;
      hide BackupAccepted, CopyInFlash, MaskedWrite, ResetPlan, ImageInFlash, EraseInFlash;
      ghost var s, c, data, before := flash.g.sect, flash.Flat(), pdi[..], flash.log;
      flash.Contents();
      ok, stage, b := false, NotErased, Bulk(false, false);
      GrewNothing(before, LegacyPlan(flash.g, b, data, len));
      GrewNothing(before, UpdatePlan(s, c, mb, noBackup, data, len));
      if alreadyFlashed || !located {
        return;
      }
      if toLegacy {
        ok, b := flash.AreaErase(Boot, 0, len);
        ghost var e, w := DriverErase(flash.g, 0, len, b), WritePlan(0, data[..PageBytes(Pages(len))]);
        if !ok {
          GrewWiden(before, flash.log, e, e + w);
          return;
        }
        ghost var erased := flash.log;
        ok := flash.AreaWrite(Boot, pdi[..], 0, len);
        GrewThen(before, erased, flash.log, e, w, ok);
        if ok {
          stage := Written;
        }
      } else {
        if !mb.hasFpt {
          return;
        }
        ghost var p: seq<Op> := [];
        if !noBackup && !mb.bootOnBackup {
          ok := CopyDefaultToBackup(mb);
          p := BackupPlan(s, c, mb);
          if !ok {
            BackupRefused(s, c, mb);
            GrewWiden(before, flash.log, p, UpdatePlan(s, c, mb, noBackup, data, len));
            return;
          }
          GrewDone(before, flash.log, p);
        }
        flash.HistorySince(before, p);
        ghost var backedUp := flash.log;
        ok, stage := FlashDefault(mb, pdi, len);
        if CopiesFirst(mb, noBackup) {
          GrewThen(before, backedUp, flash.log, p, FlashPlan(s, Run(c, p), mb, data, len), ok);
        }
      }
      if ok {
        alreadyFlashed := true;
      }
    }
  }

  lemma BackupRefused(s: nat, c: seq<byte>, mb: Multiboot)
    requires InFlash(s, |c|, mb)
    ensures !BackupAccepted(c, mb) ==> BackupPlan(s, c, mb) == []
  {
  }

  lemma GrewDone(before: seq<Op>, after: seq<Op>, plan: seq<Op>)
    requires Grew(before, after, plan, true)
    ensures after == before + plan
  {
  }

  lemma CopyExceeds(size: nat)
    ensures size < PageBytes(CopyPages(size))
  {
  }
}
