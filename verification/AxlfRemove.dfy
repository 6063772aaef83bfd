/** Reading and removing sections of an axlf container where it lies, in a byte buffer. */
module AxlfRemove {
  import opened Machine
  import opened Axlf

  // --- Bytes of a container under construction ---------------------------------------------------

  /**
   While a section is being removed, the length and count fields, the table and the data do not fit
   each other; `rest` is everything behind the table, to the end of the buffer.
   */
  datatype Raw = Raw(head: Head, length: u64, count: u32, headers: seq<Header>, rest: seq<byte>)

  function RawBytes(r: Raw): (b: seq<byte>)
    ensures |b| == Base(|r.headers|) + |r.rest|
  {
    Cat(HeadBytes(r.head, r.length, r.count), Cat(Table(r.headers), r.rest))
  }

  function Splice(s: seq<byte>, at: nat, x: seq<byte>): (r: seq<byte>)
    requires at + |x| <= |s|
    ensures |r| == |s|
  {
    s[..at] + x + s[at + |x|..]
  }

  lemma SpliceLeft(a: seq<byte>, b: seq<byte>, at: nat, x: seq<byte>)
    requires at + |x| <= |a|
    ensures Splice(Cat(a, b), at, x) == Cat(Splice(a, at, x), b)
  {
  }

  lemma SpliceRight(a: seq<byte>, b: seq<byte>, at: nat, x: seq<byte>)
    requires at + |x| <= |b|
    ensures Splice(Cat(a, b), |a| + at, x) == Cat(a, Splice(b, at, x))
  {
  }

  lemma PartLeft(a: seq<byte>, b: seq<byte>, at: nat, n: nat)
    requires at + n <= |a|
    ensures Part(Cat(a, b), at, n) == Part(a, at, n)
  {
  }

  lemma PartRight(a: seq<byte>, b: seq<byte>, at: nat, n: nat)
    requires at + n <= |b|
    ensures Part(Cat(a, b), |a| + at, n) == Part(b, at, n)
  {
  }

  lemma PartThrough(a: seq<byte>, b: seq<byte>, k: nat)
    requires k <= |b|
    ensures Part(Cat(a, b), 0, |a| + k) == Cat(a, Part(b, 0, k))
  {
  }

  lemma PartMiddle(a: seq<byte>, e: seq<byte>, t: seq<byte>, at: nat, n: nat)
    requires at + n <= |e|
    ensures Part(Cat(a, Cat(e, t)), |a| + at, n) == Part(e, at, n)
  {
    hide Cat, Part;
    PartLeft(e, t, at, n);
    PartRight(a, Cat(e, t), at, n);
  }

  lemma SpliceBehind(a: seq<byte>, b: seq<byte>, x: seq<byte>)
    requires |x| <= |b|
    ensures Splice(Cat(a, b), |a|, x) == Cat(a, Cat(x, Part(Cat(a, b), |a| + |x|, |b| - |x|)))
  {
  }

  /** The part `e` overwritten by what follows it, up to `k` bytes into `rest`. */
  lemma ShiftOut(b: seq<byte>, a: seq<byte>, e: seq<byte>, t: seq<byte>, rest: seq<byte>,
                 k: nat, at: nat, from: nat, n: nat, kept: nat)
    requires k <= |rest| && b == Cat(a, Cat(e, Cat(t, rest)))
    requires at == |a| && from == |a| + |e| && n == |t| + k && kept == |a| + |t| + k
    ensures Splice(b, at, Part(b, from, n))
         == Cat(a, Cat(t, Cat(Part(rest, 0, k), Part(b, kept, |b| - kept))))
  {
    hide Cat, Part, Splice;
    PartThrough(t, rest, k);
    PartRight(e, Cat(t, rest), 0, |t| + k);
    PartRight(a, Cat(e, Cat(t, rest)), |e|, |t| + k);
    var moved := Cat(t, Part(rest, 0, k));
    SpliceBehind(a, Cat(e, Cat(t, rest)), moved);
    CatAssociative(t, Part(rest, 0, k), Part(b, kept, |b| - kept));
  }

  // --- The fields ---------------------------------------------------------------------------------

  lemma HeadFields(h: Head, length: u64, count: u32)
    ensures Part(HeadBytes(h, length, count), 304, 8) == LittleEndian(length, 8)
    ensures Part(HeadBytes(h, length, count), 448, 4) == LittleEndian(count, 4)
    ensures forall x: u64 :: Splice(HeadBytes(h, length, count), 304, LittleEndian(x, 8)) == HeadBytes(h, x, count)
    ensures forall x: u32 :: Splice(HeadBytes(h, length, count), 448, LittleEndian(x, 4)) == HeadBytes(h, length, x)
  {
    hide LittleEndian;
  }

  lemma EntryFields(h: Header)
    ensures Part(Entry(h), 0, 4) == LittleEndian(h.kind, 4)
    ensures Part(Entry(h), 24, 8) == LittleEndian(h.offset, 8)
    ensures Part(Entry(h), 32, 8) == LittleEndian(h.size, 8)
    ensures forall x: u32 :: Splice(Entry(h), 0, LittleEndian(x, 4)) == Entry(h.(kind := x))
    ensures forall x: u64 :: Splice(Entry(h), 24, LittleEndian(x, 8)) == Entry(h.(offset := x))
    ensures forall x: u64 :: Splice(Entry(h), 32, LittleEndian(x, 8)) == Entry(h.(size := x))
  {
    hide LittleEndian;
  }

  lemma TableFirst(hs: seq<Header>)
    requires hs != []
    ensures Table(hs) == Cat(Entry(hs[0]), Table(hs[1..]))
  {
  }

  lemma {:induction false} TableConcat(a: seq<Header>, b: seq<Header>)
    ensures Table(a + b) == Cat(Table(a), Table(b))
  {
    if a == [] {
      assert a + b == b;
    } else {
      TableConcat(a[1..], b);
      TableFirst(a);
      TableFirst(a + b);
      hide Entry, Table, Cat;
      assert (a + b)[1..] == a[1..] + b;
      CatAssociative(Entry(a[0]), Table(a[1..]), Table(b));
    }
  }

  lemma TableSplit(hs: seq<Header>, i: nat)
    requires i < |hs|
    ensures Table(hs) == Cat(Table(hs[..i]), Cat(Entry(hs[i]), Table(hs[i + 1..])))
  {
    hide Entry, Cat;
    assert hs == hs[..i] + hs[i..];
    TableConcat(hs[..i], hs[i..]);
    assert hs[i..][1..] == hs[i + 1..];
  }

  /** A field of header `i`: where it lies, and that writing it changes that header only. */
  lemma TableField(hs: seq<Header>, i: nat, at: nat, n: nat)
    requires i < |hs| && at + n <= 40
    ensures Part(Table(hs), 40 * i + at, n) == Part(Entry(hs[i]), at, n)
  {
    TableSplit(hs, i);
    hide Table, Entry, Part, Cat;
    PartMiddle(Table(hs[..i]), Entry(hs[i]), Table(hs[i + 1..]), at, n);
  }

  lemma TableWrite(hs: seq<Header>, i: nat, at: nat, x: seq<byte>, h: Header)
    requires i < |hs| && at + |x| <= 40 && Splice(Entry(hs[i]), at, x) == Entry(h)
    ensures Splice(Table(hs), 40 * i + at, x) == Table(hs[i := h])
  {
    TableSplit(hs, i);
    TableSplit(hs[i := h], i);
    assert hs[i := h][..i] == hs[..i] && hs[i := h][i + 1..] == hs[i + 1..];
    hide Table, Entry, Cat, Splice;
    SpliceLeft(Entry(hs[i]), Table(hs[i + 1..]), at, x);
    SpliceRight(Table(hs[..i]), Cat(Entry(hs[i]), Table(hs[i + 1..])), at, x);
  }

  lemma RawHead(r: Raw)
    ensures Part(RawBytes(r), 304, 8) == LittleEndian(r.length, 8)
    ensures Part(RawBytes(r), 448, 4) == LittleEndian(r.count, 4)
    ensures forall x: u64 :: Splice(RawBytes(r), 304, LittleEndian(x, 8)) == RawBytes(r.(length := x))
    ensures forall x: u32 :: Splice(RawBytes(r), 448, LittleEndian(x, 4)) == RawBytes(r.(count := x))
  {
    HeadFields(r.head, r.length, r.count);
    hide LittleEndian, Table, HeadBytes, Splice, Cat, Part;
    var a, b := HeadBytes(r.head, r.length, r.count), Cat(Table(r.headers), r.rest);
    PartLeft(a, b, 304, 8);
    PartLeft(a, b, 448, 4);
    forall x: u64
      ensures Splice(RawBytes(r), 304, LittleEndian(x, 8)) == RawBytes(r.(length := x))
    {
      SpliceLeft(a, b, 304, LittleEndian(x, 8));
    }
    forall x: u32
      ensures Splice(RawBytes(r), 448, LittleEndian(x, 4)) == RawBytes(r.(count := x))
    {
      SpliceLeft(a, b, 448, LittleEndian(x, 4));
    }
  }

  lemma RawField(r: Raw, i: nat, at: nat, n: nat, p: nat)
    requires i < |r.headers| && at + n <= 40 && p == 456 + 40 * i + at
    ensures Part(RawBytes(r), p, n) == Part(Entry(r.headers[i]), at, n)
  {
    TableField(r.headers, i, at, n);
    hide Table, HeadBytes, Entry, Part, Cat;
    var a := HeadBytes(r.head, r.length, r.count);
    PartLeft(Table(r.headers), r.rest, 40 * i + at, n);
    PartRight(a, Cat(Table(r.headers), r.rest), 40 * i + at, n);
  }

  lemma RawWrite(r: Raw, i: nat, at: nat, x: seq<byte>, h: Header, p: nat)
    requires i < |r.headers| && at + |x| <= 40 && p == 456 + 40 * i + at && Splice(Entry(r.headers[i]), at, x) == Entry(h)
    ensures Splice(RawBytes(r), p, x) == RawBytes(r.(headers := r.headers[i := h]))
  {
    TableWrite(r.headers, i, at, x, h);
    hide Table, HeadBytes, Entry, Splice, Cat;
    var a := HeadBytes(r.head, r.length, r.count);
    SpliceLeft(Table(r.headers), r.rest, 40 * i + at, x);
    SpliceRight(a, Cat(Table(r.headers), r.rest), 40 * i + at, x);
  }

  function Moved(r: Raw, to: nat, from: nat, n: nat): Raw
    requires to <= from && from + n <= |r.rest|
  {
    r.(rest := Splice(r.rest, to, Part(r.rest, from, n)))
  }

  /** Data moved within `rest`. */
  lemma RawMove(r: Raw, to: nat, from: nat, n: nat, p: nat, q: nat)
    requires to <= from && from + n <= |r.rest|
    requires p == Base(|r.headers|) + to && q == Base(|r.headers|) + from
    ensures Splice(RawBytes(r), p, Part(RawBytes(r), q, n))
            == RawBytes(Moved(r, to, from, n))
  {
    hide Table, HeadBytes, Splice, Part, Cat;
    var a, b := HeadBytes(r.head, r.length, r.count), Table(r.headers);
    var moved := Part(r.rest, from, n);
    PartRight(b, r.rest, from, n);
    PartRight(a, Cat(b, r.rest), |b| + from, n);
    SpliceRight(b, r.rest, to, moved);
    SpliceRight(a, Cat(b, r.rest), |b| + to, moved);
  }

  function WithoutHeader(r: Raw, i: nat, rest: seq<byte>): Raw
    requires i < |r.headers|
  {
    r.(headers := r.headers[..i] + r.headers[i + 1..], rest := rest)
  }

  function Before(r: Raw, i: nat): (b: seq<byte>)
    requires i <= |r.headers|
    ensures |b| == 456 + 40 * i
  {
    Cat(HeadBytes(r.head, r.length, r.count), Table(r.headers[..i]))
  }

  function After(r: Raw, i: nat): (b: seq<byte>)
    requires i < |r.headers|
    ensures |b| == 40 * (|r.headers| - 1 - i)
  {
    Table(r.headers[i + 1..])
  }

  /** The bytes cut around header `i`, and without it. */
  lemma RawPieces(r: Raw, i: nat, rest: seq<byte>)
    requires i < |r.headers|
    ensures RawBytes(r) == Cat(Before(r, i), Cat(Entry(r.headers[i]), Cat(After(r, i), r.rest)))
    ensures RawBytes(WithoutHeader(r, i, rest)) == Cat(Before(r, i), Cat(After(r, i), rest))
  {
    TableSplit(r.headers, i);
    TableConcat(r.headers[..i], r.headers[i + 1..]);
    hide Table, HeadBytes, Entry, Cat;
    var h, t0 := HeadBytes(r.head, r.length, r.count), Table(r.headers[..i]);
    var e, t1 := Entry(r.headers[i]), Table(r.headers[i + 1..]);
    CatAssociative(h, t0, Cat(e, Cat(t1, r.rest)));
    CatAssociative(t0, Cat(e, t1), r.rest);
    CatAssociative(e, t1, r.rest);
    CatAssociative(h, t0, Cat(t1, rest));
    CatAssociative(t0, t1, rest);
  }

  /** What is behind the table once header `i` has been overwritten; the last 40 bytes stay. */
  function ShiftedRest(r: Raw, k: nat): seq<byte>
    requires r.headers != [] && k <= |r.rest|
  {
    var kept := 416 + 40 * |r.headers| + k;
    Cat(Part(r.rest, 0, k), Part(RawBytes(r), kept, |RawBytes(r)| - kept))
  }

  /** Header `i` overwritten by everything behind it, up to `k` bytes into `rest`. */
  lemma RawShift(r: Raw, i: nat, k: nat, at: nat, from: nat, n: nat)
    requires i < |r.headers| && k <= |r.rest|
    requires at == 456 + 40 * i && from == 456 + 40 * (i + 1) && n == Base(|r.headers|) + k - from
    ensures Splice(RawBytes(r), at, Part(RawBytes(r), from, n))
            == RawBytes(WithoutHeader(r, i, ShiftedRest(r, k)))
  {
    RawPieces(r, i, ShiftedRest(r, k));
    var a, e, t := Before(r, i), Entry(r.headers[i]), After(r, i);
    var kept := 416 + 40 * |r.headers| + k;
    assert ShiftedRest(r, k) == Cat(Part(r.rest, 0, k), Part(RawBytes(r), kept, |RawBytes(r)| - kept));
    hide Before, After, WithoutHeader, ShiftedRest, Entry, Splice, Part, RawBytes, Cat;
    ShiftOut(RawBytes(r), a, e, t, r.rest, k, at, from, n, kept);
  }

  // --- Little-endian words in the buffer ------------------------------------------------------------

  function U32(b: seq<byte>): u32
    requires |b| == 4
  {
    FromLittleEndianRoundTrip(b);
    assert Pow256(4) == 0x1_0000_0000;
    FromLittleEndian(b)
  }

  function U64(b: seq<byte>): u64
    requires |b| == 8
  {
    FromLittleEndianRoundTrip(b);
    Pow256Of8();
    FromLittleEndian(b)
  }

  lemma Pow256Of8()
    ensures Pow256(8) == 0x1_0000_0000_0000_0000
  {
    assert Pow256(4) == 0x1_0000_0000;
    assert Pow256(5) == 0x100 * Pow256(4);
    assert Pow256(6) == 0x100 * Pow256(5);
    assert Pow256(7) == 0x100 * Pow256(6);
  }

  lemma WordsRoundTrip(x: u32, y: u64)
    ensures U32(LittleEndian(x, 4)) == x && U64(LittleEndian(y, 8)) == y
  {
    assert Pow256(4) == 0x1_0000_0000;
    Pow256Of8();
    LittleEndianRoundTrip(x, 4);
    LittleEndianRoundTrip(y, 8);
  }

  // --- Access to the buffer -------------------------------------------------------------------------

  method Get32(buf: array<byte>, at: nat) returns (x: u32)
    requires at + 4 <= buf.Length
    ensures x == U32(Part(buf[..], at, 4))
  {
    assert buf[at..at + 4] == buf[..][at..at + 4];
    x := U32(buf[at..at + 4]);
  }

  method Get64(buf: array<byte>, at: nat) returns (x: u64)
    requires at + 8 <= buf.Length
    ensures x == U64(Part(buf[..], at, 8))
  {
    assert buf[at..at + 8] == buf[..][at..at + 8];
    x := U64(buf[at..at + 8]);
  }

  method Put(buf: array<byte>, at: nat, x: seq<byte>)
    requires at + |x| <= buf.Length
    modifies buf
    ensures buf[..] == Splice(old(buf[..]), at, x)
  {
    for i := 0 to |x|
      invariant buf[..at] == old(buf[..at]) && buf[at..at + i] == x[..i]
      invariant buf[at + i..] == old(buf[at + i..])
    {
      buf[at + i] := x[i];
      assert buf[at..at + i + 1] == buf[at..at + i] + [x[i]];
    }
    assert buf[..] == buf[..at] + buf[at..at + |x|] + buf[at + |x|..];
  }

  lemma Copied(was: seq<byte>, now: seq<byte>, to: nat, from: nat, n: nat)
    requires to <= from && from + n <= |was| == |now|
    requires forall k | to <= k < to + n :: now[k] == was[k - to + from]
    requires forall k | 0 <= k < |was| && !(to <= k < to + n) :: now[k] == was[k]
    ensures now == Splice(was, to, Part(was, from, n))
  {
    var moved := Part(was, from, n);
    assert forall k | 0 <= k < n :: moved[k] == was[k + from];
    forall k | 0 <= k < n
      ensures now[to..to + n][k] == moved[k]
    {
      assert now[to..to + n][k] == now[to + k];
    }
    assert now[to..to + n] == moved;
    assert now[..to] == was[..to] && now[to + n..] == was[to + n..];
    assert now == now[..to] + now[to..to + n] + now[to + n..];
  }

  /** memcpy to a lower address, byte by byte upwards. */
  method CopyDown(buf: array<byte>, to: nat, from: nat, n: nat)
    requires to <= from && from + n <= buf.Length
    modifies buf
    ensures buf[..] == Splice(old(buf[..]), to, Part(old(buf[..]), from, n))
  {
    ghost var was := buf[..];
    for i := 0 to n
      invariant forall k | to <= k < to + i :: buf[k] == was[k - to + from]
      invariant forall k | 0 <= k < buf.Length && !(to <= k < to + i) :: buf[k] == was[k]
    {
      assert buf[from + i] == was[from + i];
      buf[to + i] := buf[from + i];
    }
    Copied(was, buf[..], to, from, n);
  }

  method GetLength(buf: array<byte>, ghost r: Raw) returns (x: u64)
    requires buf[..] == RawBytes(r)
    ensures x == r.length
  {
    RawHead(r);
    WordsRoundTrip(0, r.length);
    hide RawBytes, Part, U64, LittleEndian;
    x := Get64(buf, LENGTH_AT);
  }

  method GetCount(buf: array<byte>, ghost r: Raw) returns (x: u32)
    requires buf[..] == RawBytes(r)
    ensures x == r.count
  {
    RawHead(r);
    WordsRoundTrip(r.count, 0);
    hide RawBytes, Part, U32, LittleEndian;
    x := Get32(buf, SECTIONS_AT);
  }

  method GetKind(buf: array<byte>, i: nat, ghost r: Raw) returns (x: u32)
    requires i < |r.headers| && buf[..] == RawBytes(r)
    ensures x == r.headers[i].kind
  {
    EntryFields(r.headers[i]);
    var p := 456 + 40 * i;
    RawField(r, i, 0, 4, p);
    WordsRoundTrip(r.headers[i].kind, 0);
    hide RawBytes, Part, U32, LittleEndian, Entry;
    x := Get32(buf, p);
  }

  method GetOffset(buf: array<byte>, i: nat, ghost r: Raw) returns (x: u64)
    requires i < |r.headers| && buf[..] == RawBytes(r)
    ensures x == r.headers[i].offset
  {
    EntryFields(r.headers[i]);
    var p := 456 + 40 * i + 24;
    RawField(r, i, 24, 8, p);
    WordsRoundTrip(0, r.headers[i].offset);
    hide RawBytes, Part, U64, LittleEndian, Entry;
    x := Get64(buf, p);
  }

  method GetSize(buf: array<byte>, i: nat, ghost r: Raw) returns (x: u64)
    requires i < |r.headers| && buf[..] == RawBytes(r)
    ensures x == r.headers[i].size
  {
    EntryFields(r.headers[i]);
    var p := 456 + 40 * i + 32;
    RawField(r, i, 32, 8, p);
    WordsRoundTrip(0, r.headers[i].size);
    hide RawBytes, Part, U64, LittleEndian, Entry;
    x := Get64(buf, p);
  }

  method SetLength(buf: array<byte>, x: u64, ghost r: Raw)
    requires buf[..] == RawBytes(r)
    modifies buf
    ensures buf[..] == RawBytes(r.(length := x))
  {
    RawHead(r);
    hide RawBytes, Splice, LittleEndian, Part;
    Put(buf, LENGTH_AT, LittleEndian(x, 8));
  }

  method SetCount(buf: array<byte>, x: u32, ghost r: Raw)
    requires buf[..] == RawBytes(r)
    modifies buf
    ensures buf[..] == RawBytes(r.(count := x))
  {
    RawHead(r);
    hide RawBytes, Splice, LittleEndian, Part;
    Put(buf, SECTIONS_AT, LittleEndian(x, 4));
  }

  method SetOffset(buf: array<byte>, i: nat, x: u64, ghost r: Raw)
    requires i < |r.headers| && buf[..] == RawBytes(r)
    modifies buf
    ensures buf[..] == RawBytes(r.(headers := r.headers[i := r.headers[i].(offset := x)]))
  {
    EntryFields(r.headers[i]);
    hide RawBytes, Splice, LittleEndian, Part, Entry;
    var p := 456 + 40 * i + 24;
    RawWrite(r, i, 24, LittleEndian(x, 8), r.headers[i].(offset := x), p);
    Put(buf, p, LittleEndian(x, 8));
  }

  method SetKind(buf: array<byte>, i: nat, x: u32, ghost r: Raw)
    requires i < |r.headers| && buf[..] == RawBytes(r)
    modifies buf
    ensures buf[..] == RawBytes(r.(headers := r.headers[i := r.headers[i].(kind := x)]))
  {
    EntryFields(r.headers[i]);
    hide RawBytes, Splice, LittleEndian, Part, Entry;
    var p := 456 + 40 * i;
    RawWrite(r, i, 0, LittleEndian(x, 4), r.headers[i].(kind := x), p);
    Put(buf, p, LittleEndian(x, 4));
  }

  method SetSize(buf: array<byte>, i: nat, x: u64, ghost r: Raw)
    requires i < |r.headers| && buf[..] == RawBytes(r)
    modifies buf
    ensures buf[..] == RawBytes(r.(headers := r.headers[i := r.headers[i].(size := x)]))
  {
    EntryFields(r.headers[i]);
    hide RawBytes, Splice, LittleEndian, Part, Entry;
    var p := 456 + 40 * i + 32;
    RawWrite(r, i, 32, LittleEndian(x, 8), r.headers[i].(size := x), p);
    Put(buf, p, LittleEndian(x, 8));
  }

  // --- Lookup ---------------------------------------------------------------------------------------

  /** A container in a buffer, with whatever lies behind it. */
  function RawOf(c: Container, tail: seq<byte>): Raw
    requires WellFormed(c)
  {
    Raw(c.head, Length(c), |c.headers|, c.headers, Cat(c.body, tail))
  }

  lemma RawOfContainer(c: Container, tail: seq<byte>)
    requires WellFormed(c)
    ensures RawBytes(RawOf(c, tail)) == Cat(Encode(c), tail)
  {
    assert |c.headers| <= MAX_SECTIONS && Length(c) < 0x1_0000_0000_0000_0000;
    hide WellFormed, HeadBytes, Table, Cat;
    var a, t := HeadBytes(c.head, Length(c), |c.headers|), Table(c.headers);
    CatAssociative(a, Cat(t, c.body), tail);
    CatAssociative(t, c.body, tail);
  }

  /** Index of the first section of a kind, or the number of sections. */
  function FirstOf(hs: seq<Header>, kind: u32, i: nat): (k: nat)
    requires i <= |hs|
    ensures i <= k <= |hs| && (k < |hs| ==> hs[k].kind == kind)
    ensures forall j | i <= j < k :: hs[j].kind != kind
    decreases |hs| - i
  {
    if i == |hs| || hs[i].kind == kind then i else FirstOf(hs, kind, i + 1)
  }

  /** The fields of a container, well formed or not, lead to a section of the kind. */
  predicate Located(r: Raw, kind: u32) {
    && r.count <= MAX_SECTIONS && r.count == |r.headers|
    && var k := FirstOf(r.headers, kind, 0);
       k < |r.headers| && Wrap64(r.headers[k].offset + r.headers[k].size) <= r.length
  }

  /** Offset and size of the first section of the kind, by the fields of the container. */
  method SectionInfo(buf: array<byte>, kind: u32, ghost r: Raw) returns (err: int, offset: u64, size: u64)
    requires buf[..] == RawBytes(r) && (r.count <= MAX_SECTIONS ==> r.count == |r.headers|)
    ensures err == 0 || err == -1
    ensures err == 0 <==> Located(r, kind)
    ensures err == 0 ==>
      var k := FirstOf(r.headers, kind, 0);
      k < |r.headers| && offset == r.headers[k].offset && size == r.headers[k].size
  {
    hide RawBytes;
    err, offset, size := -1, 0, 0;
    var count := GetCount(buf, r);
    if count > MAX_SECTIONS {
      return;
    }
    var i := 0;
    while i < count
      invariant i <= count == |r.headers|
      invariant FirstOf(r.headers, kind, i) == FirstOf(r.headers, kind, 0)
    {
      var k := GetKind(buf, i, r);
      if k == kind {
        break;
      }
      i := i + 1;
    }
    if i == count {
      return;
    }
    var length := GetLength(buf, r);
    offset := GetOffset(buf, i, r);
    size := GetSize(buf, i, r);
    if Wrap64(offset + size) > length {
      return;
    }
    err := 0;
  }

  /**
   In a well-formed container a section is located exactly when the kind is present, and its fields
   delimit that section's data.
   */
  lemma LocatedWellFormed(c: Container, tail: seq<byte>, kind: u32)
    requires WellFormed(c)
    ensures Located(RawOf(c, tail), kind) <==> !Absent(Sections(c), kind)
    ensures Located(RawOf(c, tail), kind) ==>
      var k := FirstOf(c.headers, kind, 0);
      && k < |c.headers| && Sections(c)[k].kind == kind
      && End(c.headers[k]) <= |Encode(c)|
      && Part(Cat(Encode(c), tail), c.headers[k].offset, c.headers[k].size) == Sections(c)[k].data
  {
    AbsentByHeaders(c, kind);
    var k := FirstOf(c.headers, kind, 0);
    if k < |c.headers| {
      assert End(c.headers[k]) <= Length(c);
      hide Encode, RawBytes, Cat, Part, DataOf;
      DataInBuffer(c, tail, k);
    }
  }

  lemma AbsentByHeaders(c: Container, kind: u32)
    requires WellFormed(c)
    ensures Absent(Sections(c), kind) <==> FirstOf(c.headers, kind, 0) == |c.headers|
  {
    var k := FirstOf(c.headers, kind, 0);
    assert forall j | 0 <= j < |c.headers| :: Sections(c)[j].kind == c.headers[j].kind;
  }

  lemma DataInBuffer(c: Container, tail: seq<byte>, i: nat)
    requires WellFormed(c) && i < |c.headers|
    ensures var h := c.headers[i];
            && End(h) <= Length(c)
            && Part(Cat(Encode(c), tail), h.offset, h.size) == Sections(c)[i].data
  {
    var h := c.headers[i];
    assert Base(|c.headers|) <= h.offset && End(h) <= Length(c);
    hide WellFormed, HeadBytes, Table, Part, Cat;
    var a, t := HeadBytes(c.head, Length(c), |c.headers|), Table(c.headers);
    var at := h.offset - Base(|c.headers|);
    PartLeft(Encode(c), tail, h.offset, h.size);
    CatAssociative(a, t, c.body);
    PartRight(Cat(a, t), c.body, at, h.size);
  }

  // --- Removal --------------------------------------------------------------------------------------

  /** Headers from index `from` on, moved down. */
  function LoweredFrom(hs: seq<Header>, from: nat, down: nat): (r: seq<Header>)
    requires from <= |hs| && forall i | from <= i < |hs| :: down <= hs[i].offset
    ensures |r| == |hs|
  {
    hs[..from] + LoweredAll(hs[from..], down)
  }

  method LowerOffsets(buf: array<byte>, from: nat, down: nat, ghost r: Raw)
    requires buf[..] == RawBytes(r) && r.count == |r.headers| && from <= |r.headers|
    requires forall i | from <= i < |r.headers| :: down <= r.headers[i].offset
    modifies buf
    ensures buf[..] == RawBytes(r.(headers := LoweredFrom(r.headers, from, down)))
  {
    hide RawBytes;
    ghost var now := r;
    var count := GetCount(buf, r);
    var i := from;
    while i < count
      invariant from <= i <= count && buf[..] == RawBytes(now)
      invariant now == r.(headers := now.headers) && |now.headers| == |r.headers|
      invariant forall j | 0 <= j < |r.headers| ::
        now.headers[j] == if from <= j < i then Lowered(r.headers[j], down) else r.headers[j]
    {
      var offset := GetOffset(buf, i, now);
      SetOffset(buf, i, offset - down, now);
      now := now.(headers := now.headers[i := now.headers[i].(offset := offset - down)]);
      i := i + 1;
    }
    assert now.headers == LoweredFrom(r.headers, from, down);
  }

  lemma SpliceNothing(s: seq<byte>, at: nat)
    requires at <= |s|
    ensures Splice(s, at, []) == s
  {
  }

  function CutRest(body: seq<byte>, tail: seq<byte>, a: nat, b: nat): (r: seq<byte>)
    requires a <= b <= |body|
    ensures |r| == |body| + |tail|
  {
    Splice(Cat(body, tail), a, Part(Cat(body, tail), b, |body| - b))
  }

  lemma CutBody(body: seq<byte>, tail: seq<byte>, a: nat, b: nat)
    requires a <= b <= |body|
    ensures Part(CutRest(body, tail, a, b), 0, |Without(body, a, b)|) == Without(body, a, b)
  {
    assert Part(Cat(body, tail), b, |body| - b) == body[b..];
  }

  /** Where the bytes to remove start and end. */
  method Span(buf: array<byte>, i: nat, ghost c: Container, ghost tail: seq<byte>)
      returns (startTo: u64, startFrom: u64)
    requires WellFormed(c) && i < |c.headers| && buf[..] == RawBytes(RawOf(c, tail))
    ensures startTo == c.headers[i].offset && startFrom == SpanEnd(c, i)
  {
    ghost var r := RawOf(c, tail);
    RemovedSpan(c, i);
    hide RawBytes, Cat;
    var count := GetCount(buf, r);
    startTo := GetOffset(buf, i, r);
    if i + 1 == count {
      var size := GetSize(buf, i, r);
      startFrom := startTo + size;
    } else {
      startFrom := GetOffset(buf, i + 1, r);
    }
  }

  /** The container in the buffer once the data of section `i` and the gap behind it are overwritten. */
  function CutRaw(c: Container, tail: seq<byte>, i: nat): Raw
    requires WellFormed(c) && i < |c.headers|
  {
    RemovedSpan(c, i);
    var base := Base(|c.headers|);
    RawOf(c, tail).(rest := CutRest(c.body, tail, c.headers[i].offset - base, SpanEnd(c, i) - base))
  }

  lemma CutRawIs(c: Container, tail: seq<byte>, i: nat, a: int, b: int, n: nat)
    requires WellFormed(c) && i < |c.headers|
    requires a == c.headers[i].offset - Base(|c.headers|) && b == SpanEnd(c, i) - Base(|c.headers|) && n == |c.body| - b
    ensures var r := RawOf(c, tail);
            && 0 <= a <= b && b + n <= |r.rest|
            && CutRaw(c, tail, i) == Moved(r, a, b, n)
            && (n == 0 ==> CutRaw(c, tail, i) == r)
  {
    RemovedSpan(c, i);
    if n == 0 {
      SpliceNothing(RawOf(c, tail).rest, a);
    }
  }

  lemma CutMoves(c: Container, tail: seq<byte>, i: nat, to: nat, from: nat, n: nat)
    requires WellFormed(c) && i < |c.headers|
    requires to == c.headers[i].offset && from == SpanEnd(c, i) && n == Length(c) - from
    ensures var b := RawBytes(RawOf(c, tail));
            && to <= from && from + n <= |b|
            && Splice(b, to, Part(b, from, n)) == RawBytes(CutRaw(c, tail, i))
            && (n == 0 ==> b == RawBytes(CutRaw(c, tail, i)))
  {
    RemovedSpan(c, i);
    var r, base := RawOf(c, tail), Base(|c.headers|);
    CutRawIs(c, tail, i, to - base, from - base, n);
    assert r.headers == c.headers && |RawBytes(r)| == base + |r.rest|;
    hide *;
    RawMove(r, to - base, from - base, n, to, from);
  }

  method MoveData(buf: array<byte>, i: nat, ghost c: Container, ghost tail: seq<byte>)
    requires WellFormed(c) && i < |c.headers| && buf[..] == RawBytes(RawOf(c, tail))
    modifies buf
    ensures buf[..] == RawBytes(CutRaw(c, tail, i))
  {
    RemovedSpan(c, i);
    var bufferSize := GetLength(buf, RawOf(c, tail));
    var startTo, startFrom := Span(buf, i, c, tail);
    hide RawBytes, Part, Splice, CutRaw, SpanEnd, WellFormed;
    var bytesToCopy: u64 := bufferSize - startFrom;
    CutMoves(c, tail, i, startTo, startFrom, bytesToCopy);
    if bytesToCopy != 0 {
      CopyDown(buf, startTo, startFrom, bytesToCopy);
    }
  }

  /** The container in the buffer once length and offsets fit the data again. */
  function CutWhole(c: Container, tail: seq<byte>, i: nat): Raw
    requires WellFormed(c) && i < |c.headers|
  {
    LaterOffsets(c, i);
    CutRaw(c, tail, i).(length := Length(c) - Removed(c, i), headers := LoweredFrom(c.headers, i + 1, Removed(c, i)))
  }

  /** The data overwritten, then the length and the later offsets corrected. */
  method CutData(buf: array<byte>, i: nat, ghost c: Container, ghost tail: seq<byte>)
    requires WellFormed(c) && i < |c.headers| && buf[..] == RawBytes(RawOf(c, tail))
    modifies buf
    ensures 0 <= Removed(c, i) <= Length(c)
    ensures forall j | i < j < |c.headers| :: Removed(c, i) <= c.headers[j].offset
    ensures buf[..] == RawBytes(CutWhole(c, tail, i))
  {
    LaterOffsets(c, i);
    ghost var r := CutRaw(c, tail, i);
    var bufferSize := GetLength(buf, RawOf(c, tail));
    var startTo, startFrom := Span(buf, i, c, tail);
    hide RawBytes, CutRest, LoweredFrom, Cat, WellFormed, BodyWithout;
    var bytesRemoved: u64 := startFrom - startTo;
    MoveData(buf, i, c, tail);
    SetLength(buf, bufferSize - bytesRemoved, r);
    r := r.(length := bufferSize - bytesRemoved);
    LowerOffsets(buf, i + 1, bytesRemoved, r);
  }

  lemma LaterOffsets(c: Container, i: nat)
    requires WellFormed(c) && i < |c.headers|
    ensures 0 <= Removed(c, i) <= Length(c)
    ensures forall j | i < j < |c.headers| :: 40 + Removed(c, i) <= c.headers[j].offset
    ensures forall j | 0 <= j < |c.headers| :: 40 <= c.headers[j].offset
  {
    RemovedSpan(c, i);
    forall j | i < j < |c.headers|
      ensures 40 + Removed(c, i) <= c.headers[j].offset
    {
      HeaderMoved(c, i, j - 1);
    }
  }

  lemma BodyAfterCut(c: Container, tail: seq<byte>, i: nat)
    requires WellFormed(c) && i < |c.headers|
    ensures var r, k := CutRaw(c, tail, i), |BodyWithout(c, i)|;
            && k <= |r.rest| && Part(r.rest, 0, k) == BodyWithout(c, i)
            && Base(|c.headers|) + k == Length(c) - Removed(c, i)
  {
    RemovedSpan(c, i);
    var base := Base(|c.headers|);
    CutBody(c.body, tail, c.headers[i].offset - base, SpanEnd(c, i) - base);
    hide Part, Without, CutRest, Cat;
  }

  function WithoutIndex(hs: seq<Header>, i: nat): seq<Header>
    requires i < |hs|
  {
    hs[..i] + hs[i + 1..]
  }

  /** The headers once header `i` is dropped and all offsets are lowered by its size. */
  lemma HeadersAfter(c: Container, i: nat)
    requires WellFormed(c) && i < |c.headers| && |c.headers| > 1
    ensures 0 <= Removed(c, i)
    ensures forall j | i < j < |c.headers| :: Removed(c, i) <= c.headers[j].offset
    ensures var low := LoweredFrom(c.headers, i + 1, Removed(c, i));
            var hs := WithoutIndex(low, i);
            && (forall j | 0 <= j < |low| && j != i :: 40 <= low[j].offset)
            && |hs| == |low| - 1 && (forall j | 0 <= j < |hs| :: 40 <= hs[j].offset)
            && LoweredFrom(hs, 0, 40) == RemoveAt(c, i).headers
  {
    LaterOffsets(c, i);
    HeaderCount(c, i);
    LowOffsets(c, i);
    hide RemoveAt, WellFormed, Removed;
    var low := LoweredFrom(c.headers, i + 1, Removed(c, i));
    StayingOffsets(low, i);
    forall j | 0 <= j < |low| - 1
      ensures LoweredFrom(WithoutIndex(low, i), 0, 40)[j] == RemoveAt(c, i).headers[j]
    {
      HeaderAfter(c, i, j);
      hide LoweredFrom;
      LoweredAt(WithoutIndex(low, i), 0, 40, j);
    }
  }

  lemma LowOffsets(c: Container, i: nat)
    requires WellFormed(c) && i < |c.headers|
    ensures 0 <= Removed(c, i) && forall j | i < j < |c.headers| :: Removed(c, i) <= c.headers[j].offset
    ensures var low := LoweredFrom(c.headers, i + 1, Removed(c, i));
            forall j | 0 <= j < |low| && j != i :: 40 <= low[j].offset
  {
    LaterOffsets(c, i);
  }

  lemma LoweredAt(hs: seq<Header>, from: nat, down: nat, j: nat)
    requires from <= |hs| && j < |hs| && forall i | from <= i < |hs| :: down <= hs[i].offset
    ensures LoweredFrom(hs, from, down)[j] == if j < from then hs[j] else Lowered(hs[j], down)
  {
  }

  lemma HeaderAfter(c: Container, i: nat, j: nat)
    requires WellFormed(c) && i < |c.headers| && j < |c.headers| - 1
    ensures 0 <= Removed(c, i)
    ensures forall j | i < j < |c.headers| :: Removed(c, i) <= c.headers[j].offset
    ensures var low := LoweredFrom(c.headers, i + 1, Removed(c, i));
            && 40 <= WithoutIndex(low, i)[j].offset
            && Lowered(WithoutIndex(low, i)[j], 40) == RemoveAt(c, i).headers[j]
  {
    LaterOffsets(c, i);
    HeaderMoved(c, i, j);
    assert 40 <= c.headers[Source(i, j)].offset && (j >= i ==> 40 + Removed(c, i) <= c.headers[Source(i, j)].offset);
    hide RemoveAt, WellFormed, Removed, LoweredFrom, WithoutIndex;
    LowerThenDrop(c.headers, i, Removed(c, i), j);
  }

  lemma LowerThenDrop(hs: seq<Header>, i: nat, down: nat, j: nat)
    requires i < |hs| && j < |hs| - 1 && forall k | i < k < |hs| :: down <= hs[k].offset
    ensures var low := WithoutIndex(LoweredFrom(hs, i + 1, down), i);
            |low| == |hs| - 1 && low[j] == if j < i then hs[j] else Lowered(hs[j + 1], down)
  {
  }

  /** The length fits `k` bytes of data, and the offsets of the headers that stay can be lowered. */
  ghost predicate Droppable(r: Raw, i: nat, k: nat) {
    && i < |r.headers| == r.count && k <= |r.rest| && r.length == Base(|r.headers|) + k
    && forall j | 0 <= j < |r.headers| && j != i :: 40 <= r.headers[j].offset
  }

  lemma StayingOffsets(hs: seq<Header>, i: nat)
    requires i < |hs| && forall j | 0 <= j < |hs| && j != i :: 40 <= hs[j].offset
    ensures forall j | 0 <= j < |hs| - 1 :: 40 <= WithoutIndex(hs, i)[j].offset
  {
  }

  predicate Updatable(r: Raw) {
    r.count == |r.headers| + 1 && r.length >= 40 && forall j | 0 <= j < |r.headers| :: 40 <= r.headers[j].offset
  }

  function Updated(r: Raw): Raw
    requires Updatable(r)
  {
    r.(count := r.count - 1, length := r.length - 40, headers := LoweredFrom(r.headers, 0, 40))
  }

  /** One header less in the count, the length and all offsets. */
  method UpdateFields(buf: array<byte>, ghost r: Raw)
    requires buf[..] == RawBytes(r) && Updatable(r)
    modifies buf
    ensures buf[..] == RawBytes(Updated(r))
  {
    hide RawBytes, LoweredFrom;
    ghost var now := r;
    var count := GetCount(buf, now);
    SetCount(buf, count - 1, now);
    now := now.(count := count - 1);
    var length := GetLength(buf, now);
    SetLength(buf, length - 40, now);
    now := now.(length := length - 40);
    LowerOffsets(buf, 0, 40, now);
  }

  lemma DropUpdatable(r: Raw, i: nat, k: nat)
    requires Droppable(r, i, k)
    ensures Updatable(WithoutHeader(r, i, ShiftedRest(r, k)))
  {
    StayingOffsets(r.headers, i);
    hide ShiftedRest;
    assert r.headers[..i] + r.headers[i + 1..] == WithoutIndex(r.headers, i);
  }

  function Dropped(r: Raw, i: nat, k: nat): Raw
    requires Droppable(r, i, k)
  {
    DropUpdatable(r, i, k);
    Updated(WithoutHeader(r, i, ShiftedRest(r, k)))
  }

  /** Header `i` taken out of the table, everything behind it moved up, the fields corrected. */
  method DropHeader(buf: array<byte>, i: nat, ghost k: nat, ghost r: Raw)
    requires Droppable(r, i, k) && buf[..] == RawBytes(r)
    modifies buf
    ensures buf[..] == RawBytes(Dropped(r, i, k))
  {
    DropUpdatable(r, i, k);
    hide RawBytes, Splice, Part, ShiftedRest, LoweredFrom, LoweredAll, WithoutHeader, Updated, Updatable;
    var length := GetLength(buf, r);
    var ptrStartTo, ptrStartFrom := 456 + 40 * i, 456 + 40 * (i + 1);
    var bytesToShift := length - ptrStartFrom;
    RawShift(r, i, k, ptrStartTo, ptrStartFrom, bytesToShift);
    CopyDown(buf, ptrStartTo, ptrStartFrom, bytesToShift);
    UpdateFields(buf, WithoutHeader(r, i, ShiftedRest(r, k)));
  }

  function OnlyCleared(r: Raw): Raw
    requires |r.headers| == 1
  {
    r.(count := 0, headers := [Cleared(r.headers[0])])
  }

  /** An only section: its header is cleared and stays behind the head as data. */
  method ClearOnly(buf: array<byte>, ghost r: Raw)
    requires |r.headers| == 1 && buf[..] == RawBytes(r)
    modifies buf
    ensures buf[..] == RawBytes(OnlyCleared(r))
  {
    hide RawBytes;
    ghost var now := r.(count := 0);
    SetCount(buf, 0, r);
    SetKind(buf, 0, 0, now);
    now := now.(headers := now.headers[0 := now.headers[0].(kind := 0)]);
    SetOffset(buf, 0, 0, now);
    now := now.(headers := now.headers[0 := now.headers[0].(offset := 0)]);
    SetSize(buf, 0, 0, now);
    now := now.(headers := now.headers[0 := now.headers[0].(size := 0)]);
    assert now.headers == [Cleared(r.headers[0])];
  }

  /** A cleared header, read as the first bytes of the body. */
  lemma HeaderAsBody(r: Raw)
    requires |r.headers| == 1
    ensures RawBytes(r) == RawBytes(r.(headers := [], rest := Cat(Entry(r.headers[0]), r.rest)))
  {
    TableFirst(r.headers);
    assert Table([]) == [] && Cat(Entry(r.headers[0]), []) == Entry(r.headers[0]);
    assert r.headers[1..] == [];
    hide HeadBytes, Entry, Table;
    assert Cat([], Cat(Entry(r.headers[0]), r.rest)) == Cat(Entry(r.headers[0]), r.rest);
  }

  /** The bytes of a container are its encoding, once its fields agree and its body comes first. */
  lemma EncodedRaw(c: Container, r: Raw) returns (tail: seq<byte>)
    requires WellFormed(c)
    requires r.head == c.head && r.headers == c.headers && r.length == Length(c) && r.count == |c.headers|
    requires |c.body| <= |r.rest| && Part(r.rest, 0, |c.body|) == c.body
    ensures RawBytes(r) == Cat(Encode(c), tail) && r == RawOf(c, tail)
  {
    tail := r.rest[|c.body|..];
    assert r.rest == Cat(c.body, tail);
    RawOfContainer(c, tail);
  }

  /** The bytes after an only section is removed. */
  lemma OnlyRemoved(c: Container, tail: seq<byte>) returns (behind: seq<byte>)
    requires WellFormed(c) && |c.headers| == 1
    ensures var r, after := CutWhole(c, tail, 0), RemoveAt(c, 0);
            && WellFormed(after)
            && |r.headers| == 1 && RawBytes(OnlyCleared(r)) == Cat(Encode(after), behind)
  {
    var r, after := CutWhole(c, tail, 0), RemoveAt(c, 0);
    RemoveWellFormed(c, 0);
    BodyAfterCut(c, tail, 0);
    var entry := Entry(Cleared(c.headers[0]));
    assert r.headers[0] == c.headers[0] && after.body == Cat(entry, BodyWithout(c, 0));
    hide RawBytes, Encode, Cat, Part, CutRaw, BodyWithout, LoweredFrom, Entry, RemoveAt;
    var done := OnlyCleared(r);
    HeaderAsBody(done);
    PartThrough(entry, r.rest, |BodyWithout(c, 0)|);
    behind := EncodedRaw(after, done.(headers := [], rest := Cat(entry, r.rest)));
  }

  /** The bytes after one of several sections is removed. */
  lemma OneRemoved(c: Container, tail: seq<byte>, i: nat) returns (behind: seq<byte>)
    requires WellFormed(c) && i < |c.headers| && |c.headers| > 1
    ensures var r, k := CutWhole(c, tail, i), |BodyWithout(c, i)|;
            && WellFormed(RemoveAt(c, i)) && Droppable(r, i, k)
            && RawBytes(Dropped(r, i, k)) == Cat(Encode(RemoveAt(c, i)), behind)
  {
    var r, after, k := CutWhole(c, tail, i), RemoveAt(c, i), |BodyWithout(c, i)|;
    RemoveWellFormed(c, i);
    BodyAfterCut(c, tail, i);
    HeadersAfter(c, i);
    assert after.body == BodyWithout(c, i) && |after.headers| == |c.headers| - 1;
    hide RawBytes, Encode, Cat, CutRaw, BodyWithout, LoweredFrom, Entry, RemoveAt, Part, WellFormed, WithoutIndex;
    ShiftedFront(r, k);
    behind := EncodedRaw(after, Dropped(r, i, k));
  }

  lemma ShiftedFront(r: Raw, k: nat)
    requires r.headers != [] && k <= |r.rest|
    ensures |ShiftedRest(r, k)| >= k && Part(ShiftedRest(r, k), 0, k) == Part(r.rest, 0, k)
  {
    var front, kept := Part(r.rest, 0, k), 416 + 40 * |r.headers| + k;
    hide Part, RawBytes, Cat;
    PartLeft(front, Part(RawBytes(r), kept, |RawBytes(r)| - kept), 0, k);
    PartAll(front);
  }

  lemma PartAll(s: seq<byte>)
    ensures Part(s, 0, |s|) == s
  {
  }

  /** Section `i` removed where it lies. */
  method RemoveSection(buf: array<byte>, i: nat, ghost c: Container, ghost tail: seq<byte>)
      returns (ghost behind: seq<byte>)
    requires WellFormed(c) && i < |c.headers| && buf[..] == Cat(Encode(c), tail)
    modifies buf
    ensures WellFormed(RemoveAt(c, i)) && buf[..] == Cat(Encode(RemoveAt(c, i)), behind)
  {
    RawOfContainer(c, tail);
    ghost var r := CutWhole(c, tail, i);
    assert |r.headers| == r.count == |c.headers| <= MAX_SECTIONS;
    hide RawBytes, Encode, Cat, CutWhole, BodyWithout, RemoveAt, WellFormed, Dropped, Droppable, OnlyCleared;
    CutData(buf, i, c, tail);
    var count := GetCount(buf, r);
    if count == 1 {
      ClearOnly(buf, r);
      behind := OnlyRemoved(c, tail);
    } else {
      behind := OneRemoved(c, tail, i);
      DropHeader(buf, i, |BodyWithout(c, i)|, r);
    }
  }

  /** All sections of a kind, but for the second of two neighbours. */
  method SectionRemove(buf: array<byte>, kind: u32, ghost c0: Container, ghost tail0: seq<byte>)
      returns (ghost tail: seq<byte>)
    requires WellFormed(c0) && buf[..] == Cat(Encode(c0), tail0)
    modifies buf
    ensures buf[..] == Cat(Encode(Pass(c0, kind, 0)), tail)
  {
    hide RawBytes, Encode, Cat, RemoveAt, WellFormed;
    ghost var c := c0;
    tail := tail0;
    RawOfContainer(c, tail);
    var count := GetCount(buf, RawOf(c, tail));
    var index := 0;
    while index < count
      invariant WellFormed(c) && buf[..] == Cat(Encode(c), tail) && count == |c.headers|
      invariant Pass(c, kind, index) == Pass(c0, kind, 0)
      decreases |c.headers| - index
    {
      RawOfContainer(c, tail);
      var k := GetKind(buf, index, RawOf(c, tail));
      if k == kind {
        tail := RemoveSection(buf, index, c, tail);
        HeaderCount(c, index);
        c := RemoveAt(c, index);
      }
      index := index + 1;
      RawOfContainer(c, tail);
      count := GetCount(buf, RawOf(c, tail));
    }
  }
}
