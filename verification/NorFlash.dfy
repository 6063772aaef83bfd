/**
 The NOR flash as the driver sees it: a flat array of bytes on which a sector erase sets
 0xFF and a write can only clear bits. Each sector erase and each chunk write is one
 atomic device operation, so that a power cut leaves the effect of a prefix of the
 operations requested.
 */
module NorFlash {
  import opened Machine
  import Bits

  const ERASED: byte := 0xFF

  datatype Op =
    | Erase(start: nat, size: nat)
    | Program(addr: nat, data: seq<byte>)

  // --- Effects on the flat contents -------------------------------------------------

  /** The contents with `[from, from + n)` erased. */
  function Blank(c: seq<byte>, from: nat, n: nat): (r: seq<byte>)
    ensures |r| == |c|
  {
    seq(|c|, i requires 0 <= i < |c| => if from <= i < from + n then ERASED else c[i])
  }

  /** The contents after programming `data` at `addr`: bits are only ever cleared. */
  function Merge(c: seq<byte>, addr: nat, data: seq<byte>): (r: seq<byte>)
    ensures |r| == |c|
  {
    seq(|c|, i requires 0 <= i < |c| =>
      if addr <= i < addr + |data| then Bits.And(c[i], data[i - addr]) else c[i])
  }

  function Apply(c: seq<byte>, op: Op): (r: seq<byte>)
    ensures |r| == |c|
  {
    match op
    case Erase(start, size) => Blank(c, start, size)
    case Program(addr, data) => Merge(c, addr, data)
  }

  function Run(c: seq<byte>, ops: seq<Op>): (r: seq<byte>)
    ensures |r| == |c|
    decreases |ops|
  {
    if ops == [] then c else Run(Apply(c, ops[0]), ops[1..])
  }

  lemma {:induction false} RunConcat(c: seq<byte>, p: seq<Op>, q: seq<Op>)
    ensures Run(c, p + q) == Run(Run(c, p), q)
    decreases |p|
  {
    if p == [] {
      assert p + q == q;
    } else {
      assert (p + q)[0] == p[0] && (p + q)[1..] == p[1..] + q;
      RunConcat(Apply(c, p[0]), p[1..], q);
    }
  }

  lemma RunOne(c: seq<byte>, op: Op)
    ensures Run(c, [op]) == Apply(c, op)
  {
    assert [op][1..] == [];
  }

  /** Programming erased cells stores the data; programming stored data again changes nothing. */
  lemma ProgramFacts(x: byte)
    ensures Bits.And(ERASED, x) == x
    ensures Bits.And(x, ERASED) == x
    ensures Bits.And(x, x) == x
  {
    Bits.Pow2Constants();
    Bits.AndLowMask(x, 8);
    Bits.ModSmall(x, 256);
    Bits.AndCommutes(x, ERASED);
    Bits.AndSame(x);
  }

  // --- Plans: the operations a driver call intends to issue ---------------------------

  /** Erase `n` consecutive sectors of `size` bytes, lowest first. */
  function ErasePlan(start: nat, size: nat, n: nat): (p: seq<Op>)
    ensures |p| == n
    decreases n
  {
    if n == 0 then [] else [Erase(start, size)] + ErasePlan(start + size, size, n - 1)
  }

  /** Program `data` in chunks of at most eight bytes, lowest first. */
  function WritePlan(addr: nat, data: seq<byte>): seq<Op>
    decreases |data|
  {
    if data == [] then []
    else
      var n := Min(8, |data|);
      [Program(addr, data[..n])] + WritePlan(addr + n, data[n..])
  }

  /** The size of `n` sectors of `size` bytes. */
  function Span(n: nat, size: nat): nat {
    Bits.MulNonNegative(n, size);
    n * size
  }

  lemma SpanNext(n: nat, size: nat)
    ensures Span(0, size) == 0
    ensures Span(n + 1, size) == Span(n, size) + size
  {
  }

  lemma {:induction false} RunErase(c: seq<byte>, start: nat, size: nat, n: nat)
    ensures Run(c, ErasePlan(start, size, n)) == Blank(c, start, Span(n, size))
    decreases n
  {
    if n > 0 {
      var c1 := Blank(c, start, size);
      assert ErasePlan(start, size, n)[1..] == ErasePlan(start + size, size, n - 1);
      RunErase(c1, start + size, size, n - 1);
      SpanNext(n - 1, size);
      assert Blank(c1, start + size, Span(n - 1, size)) == Blank(c, start, Span(n, size));
    } else {
      assert Blank(c, start, 0) == c;
    }
  }

  lemma {:induction false} RunWrite(c: seq<byte>, addr: nat, data: seq<byte>)
    ensures Run(c, WritePlan(addr, data)) == Merge(c, addr, data)
    decreases |data|
  {
    if data == [] {
      assert Merge(c, addr, data) == c;
    } else {
      var n := Min(8, |data|);
      var c1 := Merge(c, addr, data[..n]);
      assert WritePlan(addr, data)[1..] == WritePlan(addr + n, data[n..]);
      RunWrite(c1, addr + n, data[n..]);
      MergeSplit(c, addr, data, n);
    }
  }

  lemma MergeSplit(c: seq<byte>, addr: nat, data: seq<byte>, n: nat)
    requires n <= |data|
    ensures Merge(Merge(c, addr, data[..n]), addr + n, data[n..]) == Merge(c, addr, data)
  {
    var m := Merge(Merge(c, addr, data[..n]), addr + n, data[n..]);
    forall i | 0 <= i < |c|
      ensures m[i] == Merge(c, addr, data)[i]
    {
      if addr <= i < addr + n {
        assert data[..n][i - addr] == data[i - addr];
      } else if addr + n <= i < addr + |data| {
        assert data[n..][i - addr - n] == data[i - addr];
      }
    }
  }

  lemma {:induction false} ErasePlanMonotone(start: nat, size: nat, k: nat, n: nat)
    requires k <= n
    ensures ErasePlan(start, size, k) <= ErasePlan(start, size, n)
    decreases k
  {
    if k > 0 {
      ErasePlanMonotone(start + size, size, k - 1, n - 1);
    }
  }

  /** A prefix of an erase plan erases a prefix of the sectors. */
  lemma {:induction false} ErasePlanPrefix(start: nat, size: nat, n: nat, p: seq<Op>)
    requires p <= ErasePlan(start, size, n)
    ensures p == ErasePlan(start, size, |p|) && |p| <= n
    decreases n
  {
    if p != [] {
      assert p[1..] <= ErasePlan(start, size, n)[1..] == ErasePlan(start + size, size, n - 1);
      ErasePlanPrefix(start + size, size, n - 1, p[1..]);
      assert p == [p[0]] + p[1..];
    }
  }

  /** A prefix of a write plan writes a prefix of the data, cut at a chunk boundary. */
  lemma {:induction false} WritePlanPrefix(addr: nat, data: seq<byte>, p: seq<Op>)
    requires p <= WritePlan(addr, data)
    ensures p == WritePlan(addr, data[..Min(8 * |p|, |data|)])
    decreases |data|
  {
    if p == [] {
      assert data[..0] == [];
    } else {
      var n := Min(8, |data|);
      assert p[1..] <= WritePlan(addr, data)[1..] == WritePlan(addr + n, data[n..]);
      WritePlanPrefix(addr + n, data[n..], p[1..]);
      var k := Min(8 * |p|, |data|);
      assert data[..k][..n] == data[..n];
      assert data[n..][..Min(8 * |p[1..]|, |data[n..]|)] == data[..k][n..];
      assert p == [p[0]] + p[1..];
    }
  }

  /** Writing two pieces one after the other is writing them joined, at chunk boundaries. */
  lemma {:induction false} WritePlanConcat(addr: nat, x: seq<byte>, y: seq<byte>)
    requires |x| % 8 == 0
    ensures WritePlan(addr, x + y) == WritePlan(addr, x) + WritePlan(addr + |x|, y)
    decreases |x|
  {
    if x == [] {
      assert x + y == y;
    } else {
      assert (x + y)[..8] == x[..8] && (x + y)[8..] == x[8..] + y;
      WritePlanConcat(addr + 8, x[8..], y);
      assert addr + 8 + |x[8..]| == addr + |x|;
    }
  }

  lemma WritePlanMonotone(addr: nat, data: seq<byte>, n: nat)
    requires n <= |data| && (n % 8 == 0 || n == |data|)
    ensures WritePlan(addr, data[..n]) <= WritePlan(addr, data)
  {
    if n % 8 == 0 {
      assert data[..n] + data[n..] == data;
      WritePlanConcat(addr, data[..n], data[n..]);
    } else {
      assert data[..n] == data;
    }
  }

  lemma {:induction false} ErasePlanSnoc(start: nat, size: nat, n: nat)
    ensures ErasePlan(start, size, n + 1) == ErasePlan(start, size, n) + [Erase(start + Span(n, size), size)]
    decreases n
  {
    if n > 0 {
      ErasePlanSnoc(start + size, size, n - 1);
      SpanNext(n - 1, size);
    }
  }

  /** What a prefix of two plans in a row is. */
  lemma PrefixSplit(p: seq<Op>, x: seq<Op>, y: seq<Op>)
    requires p <= x + y
    ensures p <= x || (x <= p && p[|x|..] <= y && p == x + p[|x|..])
  {
    if |p| <= |x| {
      assert p == (x + y)[..|p|] == x[..|p|];
    } else {
      assert p[..|x|] == (x + y)[..|x|] == x;
      assert p[|x|..] == (x + y)[..|p|][|x|..] == y[..|p| - |x|];
    }
  }

  // --- Frames ------------------------------------------------------------------------

  /** The operation can only change bytes of `[lo, hi)`. */
  predicate Within(op: Op, lo: nat, hi: nat) {
    match op
    case Erase(start, size) => lo <= start && start + size <= hi
    case Program(addr, data) => lo <= addr && addr + |data| <= hi
  }

  predicate AllWithin(ops: seq<Op>, lo: nat, hi: nat) {
    forall i :: 0 <= i < |ops| ==> Within(ops[i], lo, hi)
  }

  lemma NothingWithin(lo: nat, hi: nat)
    ensures AllWithin([], lo, hi)
  {
  }

  lemma WidenWithin(p: seq<Op>, from: nat, to: nat, lo: nat, hi: nat)
    requires AllWithin(p, from, to) && lo <= from && to <= hi
    ensures AllWithin(p, lo, hi)
  {
    forall i | 0 <= i < |p|
      ensures Within(p[i], lo, hi)
    {
      assert Within(p[i], from, to);
    }
  }

  lemma {:induction false} ErasePlanWithin(start: nat, size: nat, n: nat)
    ensures AllWithin(ErasePlan(start, size, n), start, start + Span(n, size))
    decreases n
  {
    if n > 0 {
      ErasePlanWithin(start + size, size, n - 1);
      var p := ErasePlan(start + size, size, n - 1);
      SpanNext(n - 1, size);
      assert ErasePlan(start, size, n) == [Erase(start, size)] + p;
    }
  }

  lemma {:induction false} WritePlanWithin(addr: nat, data: seq<byte>)
    ensures AllWithin(WritePlan(addr, data), addr, addr + |data|)
    decreases |data|
  {
    if data != [] {
      WritePlanWithin(addr + Min(8, |data|), data[Min(8, |data|)..]);
    }
  }

  /** Operations confined to `[lo, hi)` leave every byte outside it alone. */
  lemma {:induction false} Frame(c: seq<byte>, ops: seq<Op>, lo: nat, hi: nat)
    requires AllWithin(ops, lo, hi)
    ensures forall i :: 0 <= i < |c| && !(lo <= i < hi) ==> Run(c, ops)[i] == c[i]
    decreases |ops|
  {
    if ops != [] {
      assert Within(ops[0], lo, hi);
      assert AllWithin(ops[1..], lo, hi);
      Frame(Apply(c, ops[0]), ops[1..], lo, hi);
    }
  }
}
