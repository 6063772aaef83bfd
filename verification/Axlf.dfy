/**
 The axlf container: a fixed head, a table of 40-byte section headers, and the section data, to
 which the headers point by their offset from the start of the file. What removing sections
 means is defined here on values; the in-place procedure is in AxlfRemove.
 */
module Axlf {
  import opened Machine

  const LENGTH_AT: nat := 304
  const SECTIONS_AT: nat := 448
  const MAX_SECTIONS: nat := 0x1_0000

  type Front = s: seq<byte> | |s| == 304 witness seq<byte>(304, i => 0)
  type Middle = s: seq<byte> | |s| == 136 witness seq<byte>(136, i => 0)
  type Pad = s: seq<byte> | |s| == 4 witness [0, 0, 0, 0]
  type Name = s: seq<byte> | |s| == 20 witness seq<byte>(20, i => 0)

  function Part(s: seq<byte>, at: nat, n: nat): (r: seq<byte>)
    requires at + n <= |s|
    ensures |r| == n
  {
    s[at..at + n]
  }

  /** A section header; the name has four bytes of padding behind it. */
  datatype Header = Header(kind: u32, name: Name, offset: u64, size: u64)

  function Entry(h: Header): (r: seq<byte>)
    ensures |r| == 40
  {
    LittleEndian(h.kind, 4) + h.name + LittleEndian(h.offset, 8) + LittleEndian(h.size, 8)
  }

  /** Concatenation; by this name its bytes stay out of proofs that only need its shape. */
  function Cat(a: seq<byte>, b: seq<byte>): (r: seq<byte>)
    ensures |r| == |a| + |b|
  {
    a + b
  }

  lemma CatAssociative(a: seq<byte>, b: seq<byte>, c: seq<byte>)
    ensures Cat(Cat(a, b), c) == Cat(a, Cat(b, c))
  {
  }

  function Table(hs: seq<Header>): (r: seq<byte>)
    ensures |r| == 40 * |hs|
  {
    if hs == [] then [] else Cat(Entry(hs[0]), Table(hs[1..]))
  }

  /** Everything in the head that does not concern the sections. */
  datatype Head = Head(front: Front, middle: Middle, pad: Pad)

  function HeadBytes(h: Head, length: u64, count: u32): (r: seq<byte>)
    ensures |r| == 456
  {
    h.front + LittleEndian(length, 8) + h.middle + LittleEndian(count, 4) + h.pad
  }

  datatype Container = Container(head: Head, headers: seq<Header>, body: seq<byte>)

  function Base(n: nat): nat {
    456 + 40 * n
  }

  function Length(c: Container): nat {
    Base(|c.headers|) + |c.body|
  }

  /** Header order is data order, the data lies behind the table, and sections do not overlap. */
  ghost predicate WellFormed(c: Container) {
    && |c.headers| <= MAX_SECTIONS && Length(c) < 0x1_0000_0000_0000_0000
    && (forall i | 0 <= i < |c.headers| :: Base(|c.headers|) <= c.headers[i].offset && End(c.headers[i]) <= Length(c))
    && (forall i, j | 0 <= i < j < |c.headers| :: End(c.headers[i]) <= c.headers[j].offset)
  }

  function End(h: Header): nat {
    h.offset + h.size
  }

  function Encode(c: Container): (r: seq<byte>)
    requires WellFormed(c)
    ensures |r| == Length(c)
  {
    Cat(HeadBytes(c.head, Length(c), |c.headers|), Cat(Table(c.headers), c.body))
  }

  // --- Meaning ----------------------------------------------------------------------------------

  /** A section as its users see it. */
  datatype Section = Section(kind: u32, name: Name, data: seq<byte>)

  function DataOf(c: Container, h: Header): seq<byte>
    requires Base(|c.headers|) <= h.offset && End(h) <= Length(c)
  {
    Part(c.body, h.offset - Base(|c.headers|), h.size)
  }

  function SectionAt(c: Container, i: nat): Section
    requires WellFormed(c) && i < |c.headers|
  {
    var h := c.headers[i];
    Section(h.kind, h.name, DataOf(c, h))
  }

  function Sections(c: Container): (r: seq<Section>)
    requires WellFormed(c)
    ensures |r| == |c.headers|
  {
    seq(|c.headers|, i requires 0 <= i < |c.headers| => SectionAt(c, i))
  }

  // --- Removing one section -----------------------------------------------------------------------

  /** Where the data of the section behind `i` starts; past the last section, where its data ends. */
  function SpanEnd(c: Container, i: nat): nat
    requires i < |c.headers|
  {
    if i + 1 == |c.headers| then End(c.headers[i]) else c.headers[i + 1].offset
  }

  function Removed(c: Container, i: nat): nat
    requires WellFormed(c) && i < |c.headers|
  {
    SpanEnd(c, i) - c.headers[i].offset
  }

  function Lowered(h: Header, down: nat): Header
    requires down <= h.offset
  {
    h.(offset := h.offset - down)
  }

  function LoweredAll(hs: seq<Header>, down: nat): (r: seq<Header>)
    requires forall i | 0 <= i < |hs| :: down <= hs[i].offset
    ensures |r| == |hs|
  {
    seq(|hs|, i requires 0 <= i < |hs| => Lowered(hs[i], down))
  }

  function Cleared(h: Header): Header {
    Header(0, h.name, 0, 0)
  }

  function BodyWithout(c: Container, i: nat): seq<byte>
    requires WellFormed(c) && i < |c.headers|
  {
    var base := Base(|c.headers|);
    c.body[..c.headers[i].offset - base] + c.body[SpanEnd(c, i) - base..]
  }

  /**
   Without section `i`: its data is cut out together with the gap behind it, and its header too,
   except that the header of an only section stays behind, cleared, as the first 40 bytes of the body.
   */
  function RemoveAt(c: Container, i: nat): Container
    requires WellFormed(c) && i < |c.headers|
  {
    if |c.headers| == 1 then
      Container(c.head, [], Entry(Cleared(c.headers[0])) + BodyWithout(c, i))
    else
      var n := Removed(c, i);
      Container(c.head, LoweredAll(c.headers[..i], 40) + LoweredAll(c.headers[i + 1..], 40 + n), BodyWithout(c, i))
  }

  function Without(body: seq<byte>, a: nat, b: nat): (r: seq<byte>)
    requires a <= b <= |body|
    ensures |r| == |body| - (b - a)
  {
    body[..a] + body[b..]
  }

  lemma WithoutBefore(body: seq<byte>, a: nat, b: nat, x: nat, n: nat)
    requires x + n <= a <= b <= |body|
    ensures Part(Without(body, a, b), x, n) == Part(body, x, n)
  {
  }

  lemma WithoutBehind(body: seq<byte>, a: nat, b: nat, x: nat, n: nat)
    requires a <= b <= x && x + n <= |body|
    ensures Part(Without(body, a, b), x - (b - a), n) == Part(body, x, n)
  {
  }

  /** A header moved down with its data still points at it; `base` is where the body started. */
  lemma MovedData(body: seq<byte>, base: nat, a: nat, b: nat, h: Header, before: bool)
    requires a <= b <= |body| && 40 <= base <= h.offset && End(h) <= base + |body|
    requires if before then End(h) <= base + a else base + b <= h.offset
    ensures var m, start := Lowered(h, if before then 40 else 40 + (b - a)), base - 40;
            && start <= m.offset && End(m) <= start + |Without(body, a, b)|
            && Part(Without(body, a, b), m.offset - start, m.size) == Part(body, h.offset - base, h.size)
  {
    hide Part, Without;
    if before {
      WithoutBefore(body, a, b, h.offset - base, h.size);
    } else {
      WithoutBehind(body, a, b, h.offset - base, h.size);
    }
  }

  /** Which header the `j`th of the remaining ones was. */
  function Source(i: nat, j: nat): nat {
    if j < i then j else j + 1
  }

  lemma RemovedSpan(c: Container, i: nat)
    requires WellFormed(c) && i < |c.headers|
    ensures Base(|c.headers|) <= c.headers[i].offset <= SpanEnd(c, i) <= Length(c)
    ensures var base := Base(|c.headers|);
            BodyWithout(c, i) == Without(c.body, c.headers[i].offset - base, SpanEnd(c, i) - base)
  {
    if i + 1 < |c.headers| {
      assert End(c.headers[i]) <= c.headers[i + 1].offset;
    }
  }

  lemma HeaderMoved(c: Container, i: nat, j: nat)
    requires WellFormed(c) && i < |c.headers| && j < |c.headers| - 1
    ensures var h := c.headers[Source(i, j)];
            && RemoveAt(c, i).headers[j] == Lowered(h, if j < i then 40 else 40 + Removed(c, i))
            && (j < i ==> End(h) <= c.headers[i].offset) && (j >= i ==> h.offset >= SpanEnd(c, i))
  {
    if j < i {
      assert c.headers[..i][j] == c.headers[j];
    } else {
      assert c.headers[i + 1..][j - i] == c.headers[j + 1];
      if j > i {
        assert End(c.headers[i + 1]) <= c.headers[j + 1].offset;
      }
    }
  }

  lemma LoweredEnds(c: Container, i: nat, j: nat)
    requires WellFormed(c) && i < |c.headers| && j < |c.headers| - 1
    ensures var h, r := c.headers[Source(i, j)], RemoveAt(c, i);
            && r.headers[j] == Lowered(h, if j < i then 40 else 40 + Removed(c, i))
            && Base(|r.headers|) <= r.headers[j].offset && End(r.headers[j]) <= Length(r)
            && DataOf(r, r.headers[j]) == DataOf(c, h)
  {
    hide WellFormed, RemoveAt, Entry, BodyWithout, Without, SpanEnd, Lowered, Base, Removed, Source, Part;
    SourceFits(c, i, j);
    HeaderMoved(c, i, j);
    RemovedSpan(c, i);
    BodyRemoved(c, i);
    var h, base := c.headers[Source(i, j)], Base(|c.headers|);
    MovedData(c.body, base, c.headers[i].offset - base, SpanEnd(c, i) - base, h, j < i);
  }

  lemma SourceFits(c: Container, i: nat, j: nat)
    requires WellFormed(c) && i < |c.headers| && j < |c.headers| - 1
    ensures Source(i, j) < |c.headers|
    ensures var h, base := c.headers[Source(i, j)], Base(|c.headers|);
            40 <= base <= h.offset && End(h) <= Length(c) == base + |c.body|
  {
  }

  lemma BodyRemoved(c: Container, i: nat)
    requires WellFormed(c) && i < |c.headers| && |c.headers| > 1
    ensures RemoveAt(c, i).body == BodyWithout(c, i)
    ensures Base(|RemoveAt(c, i).headers|) == Base(|c.headers|) - 40 >= 456
    ensures Removed(c, i) == SpanEnd(c, i) - c.headers[i].offset
  {
  }

  /** Removing a section keeps the container well formed, and shortens it by the span and a header. */
  lemma RemoveWellFormed(c: Container, i: nat)
    requires WellFormed(c) && i < |c.headers|
    ensures WellFormed(RemoveAt(c, i))
    ensures Length(RemoveAt(c, i)) == Length(c) - Removed(c, i) - if |c.headers| == 1 then 0 else 40
  {
    var r := RemoveAt(c, i);
    RemovedSpan(c, i);
    if |c.headers| > 1 {
      forall j | 0 <= j < |r.headers|
        ensures Base(|r.headers|) <= r.headers[j].offset && End(r.headers[j]) <= Length(r)
      {
        LoweredEnds(c, i, j);
      }
      forall j, k | 0 <= j < k < |r.headers|
        ensures End(r.headers[j]) <= r.headers[k].offset
      {
        HeaderMoved(c, i, j);
        HeaderMoved(c, i, k);
        assert End(c.headers[Source(i, j)]) <= c.headers[Source(i, k)].offset;
      }
    }
  }

  /** Every other section keeps its place in the order, its name, its kind and its bytes. */
  lemma RemoveKeepsOthers(c: Container, i: nat)
    requires WellFormed(c) && i < |c.headers|
    ensures WellFormed(RemoveAt(c, i))
    ensures Sections(RemoveAt(c, i)) == Sections(c)[..i] + Sections(c)[i + 1..]
  {
    RemoveWellFormed(c, i);
    var r := RemoveAt(c, i);
    var rest := Sections(c)[..i] + Sections(c)[i + 1..];
    assert |Sections(r)| == |rest|;
    forall j | 0 <= j < |rest|
      ensures Sections(r)[j] == rest[j]
    {
      LoweredEnds(c, i, j);
    }
  }

  // --- Removing a kind ----------------------------------------------------------------------------

  /**
   One pass over the headers from index `i`: a section of the kind is removed and the index moves on,
   so that the section which took its place is not looked at.
   */
  function Pass(c: Container, kind: u32, i: nat): (r: Container)
    requires WellFormed(c)
    ensures WellFormed(r)
    decreases |c.headers| - i
  {
    if i >= |c.headers| then c
    else if c.headers[i].kind != kind then Pass(c, kind, i + 1)
    else
      RemoveWellFormed(c, i);
      Pass(RemoveAt(c, i), kind, i + 1)
  }

  /** The same pass over the sections themselves. */
  function PassList(l: seq<Section>, kind: u32, i: nat): seq<Section>
    decreases |l| - i
  {
    if i >= |l| then l
    else if l[i].kind != kind then PassList(l, kind, i + 1)
    else PassList(l[..i] + l[i + 1..], kind, i + 1)
  }

  lemma {:induction false} PassSections(c: Container, kind: u32, i: nat)
    requires WellFormed(c)
    ensures Sections(Pass(c, kind, i)) == PassList(Sections(c), kind, i)
    decreases |c.headers| - i
  {
    hide RemoveAt, WellFormed;
    if i < |c.headers| {
      if c.headers[i].kind != kind {
        PassSections(c, kind, i + 1);
      } else {
        RemoveKeepsOthers(c, i);
        HeaderCount(c, i);
        PassSections(RemoveAt(c, i), kind, i + 1);
      }
    }
  }

  lemma HeaderCount(c: Container, i: nat)
    requires WellFormed(c) && i < |c.headers|
    ensures |RemoveAt(c, i).headers| == |c.headers| - 1
  {
  }

  /** The sections of other kinds. */
  function Others(l: seq<Section>, kind: u32): seq<Section> {
    if l == [] then []
    else if l[0].kind != kind then [l[0]] + Others(l[1..], kind)
    else Others(l[1..], kind)
  }

  function RemoveIndex(l: seq<Section>, i: nat): seq<Section>
    requires i < |l|
  {
    l[..i] + l[i + 1..]
  }

  lemma RemoveFromTail(l: seq<Section>, i: nat)
    requires 0 < i < |l|
    ensures RemoveIndex(l, i)[0] == l[0] && RemoveIndex(l, i)[1..] == RemoveIndex(l[1..], i - 1)
  {
  }

  lemma {:induction false} OthersWithout(l: seq<Section>, kind: u32, i: nat)
    requires i < |l| && l[i].kind == kind
    ensures Others(RemoveIndex(l, i), kind) == Others(l, kind)
  {
    if i == 0 {
      assert RemoveIndex(l, 0) == l[1..];
    } else {
      RemoveFromTail(l, i);
      hide RemoveIndex;
      OthersWithout(l[1..], kind, i - 1);
    }
  }

  /** No section of another kind is lost, added, changed or moved. */
  lemma {:induction false} PassKeepsOthers(l: seq<Section>, kind: u32, i: nat)
    ensures Others(PassList(l, kind, i), kind) == Others(l, kind)
    decreases |l| - i
  {
    if i < |l| {
      if l[i].kind != kind {
        PassKeepsOthers(l, kind, i + 1);
      } else {
        OthersWithout(l, kind, i);
        PassKeepsOthers(l[..i] + l[i + 1..], kind, i + 1);
      }
    }
  }

  predicate Absent(l: seq<Section>, kind: u32) {
    forall j | 0 <= j < |l| :: l[j].kind != kind
  }

  /** Two neighbours of the kind, at index `i` or behind. */
  predicate Neighbours(l: seq<Section>, kind: u32, i: nat) {
    exists j | i <= j < |l| - 1 :: l[j].kind == kind && l[j + 1].kind == kind
  }

  lemma {:induction false} PassKeepsFront(l: seq<Section>, kind: u32, i: nat)
    requires i <= |l|
    ensures |PassList(l, kind, i)| >= i && PassList(l, kind, i)[..i] == l[..i]
    decreases |l| - i
  {
    if i < |l| {
      if l[i].kind != kind {
        PassKeepsFront(l, kind, i + 1);
        assert l[..i + 1][..i] == l[..i];
      } else {
        var m := l[..i] + l[i + 1..];
        if i + 1 <= |m| {
          PassKeepsFront(m, kind, i + 1);
          assert m[..i + 1][..i] == m[..i] == l[..i];
        } else {
          assert PassList(m, kind, i + 1) == m;
        }
      }
    }
  }

  lemma NeighboursWithout(l: seq<Section>, kind: u32, i: nat)
    requires i + 1 < |l| && l[i].kind == kind && l[i + 1].kind != kind
    ensures Neighbours(l, kind, i) <==> Neighbours(l[..i] + l[i + 1..], kind, i + 1)
  {
    var m := l[..i] + l[i + 1..];
    if Neighbours(l, kind, i) {
      var j :| i <= j < |l| - 1 && l[j].kind == kind && l[j + 1].kind == kind;
      assert m[j - 1] == l[j] && m[j] == l[j + 1];
    }
    if Neighbours(m, kind, i + 1) {
      var j :| i + 1 <= j < |m| - 1 && m[j].kind == kind && m[j + 1].kind == kind;
      assert l[j + 1] == m[j] && l[j + 2] == m[j + 1];
    }
  }

  /**
   The kind is gone exactly when no two neighbouring sections had it: of a pair, the second takes
   the place of the first and is skipped.
   */
  lemma {:induction false} PassRemovesKind(l: seq<Section>, kind: u32, i: nat)
    requires i <= |l| && Absent(l[..i], kind)
    ensures Absent(PassList(l, kind, i), kind) <==> !Neighbours(l, kind, i)
    decreases |l| - i
  {
    if i < |l| {
      if l[i].kind != kind {
        PassRemovesKind(l, kind, i + 1);
        assert Neighbours(l, kind, i) <==> Neighbours(l, kind, i + 1);
      } else {
        var m := l[..i] + l[i + 1..];
        if i + 1 == |l| {
          assert m == l[..i] && PassList(m, kind, i + 1) == m;
        } else if l[i + 1].kind == kind {
          PassKeepsFront(m, kind, i + 1);
          assert PassList(m, kind, i + 1)[i] == PassList(m, kind, i + 1)[..i + 1][i] == m[..i + 1][i] == l[i + 1];
        } else {
          assert forall j | 0 <= j < i :: m[..i + 1][j] == l[..i][j];
          PassRemovesKind(m, kind, i + 1);
          NeighboursWithout(l, kind, i);
        }
      }
    }
  }

  /** What users see of a container after the pass, in one statement. */
  lemma PassMeaning(c: Container, kind: u32)
    requires WellFormed(c)
    ensures var before, after := Sections(c), Sections(Pass(c, kind, 0));
            && Others(after, kind) == Others(before, kind)
            && (Absent(after, kind) <==> !Neighbours(before, kind, 0))
  {
    PassSections(c, kind, 0);
    PassKeepsOthers(Sections(c), kind, 0);
    PassRemovesKind(Sections(c), kind, 0);
  }

  /** A kind that occurs once: its section is gone, all others are as they were, the file is shorter. */
  lemma PassOnce(c: Container, kind: u32, at: nat)
    requires WellFormed(c) && at < |c.headers| && |c.headers| > 1
    requires forall j | 0 <= j < |c.headers| :: c.headers[j].kind == kind <==> j == at
    ensures Pass(c, kind, 0) == RemoveAt(c, at)
    ensures Sections(RemoveAt(c, at)) == Sections(c)[..at] + Sections(c)[at + 1..]
    ensures Length(RemoveAt(c, at)) == Length(c) - Removed(c, at) - 40
  {
    RemoveWellFormed(c, at);
    RemoveKeepsOthers(c, at);
    HeaderCount(c, at);
    PassUpTo(c, kind, at, 0);
    var r := RemoveAt(c, at);
    forall j | at <= j < |r.headers|
      ensures r.headers[j].kind != kind
    {
      HeaderMoved(c, at, j);
    }
    PassNothing(r, kind, at + 1);
  }

  lemma {:induction false} PassUpTo(c: Container, kind: u32, at: nat, i: nat)
    requires WellFormed(c) && i <= at < |c.headers|
    requires forall j | i <= j < at :: c.headers[j].kind != kind
    ensures Pass(c, kind, i) == Pass(c, kind, at)
    decreases at - i
  {
    if i < at {
      PassUpTo(c, kind, at, i + 1);
    }
  }

  lemma {:induction false} PassNothing(c: Container, kind: u32, i: nat)
    requires WellFormed(c)
    requires forall j | i <= j < |c.headers| :: c.headers[j].kind != kind
    ensures Pass(c, kind, i) == c
    decreases |c.headers| - i
  {
    if i < |c.headers| {
      PassNothing(c, kind, i + 1);
    }
  }
}
