/**
 The walk over a flattened devicetree that finds the interface UUID. The structure block is a
 sequence of tokens (section 5.4 of the Devicetree Specification), each of them aligned to four
 bytes; property names live in a separate strings block.
 */
module Fdt {
  import opened Machine

  const BEGIN_NODE: u32 := 1
  const END_NODE: u32 := 2
  const PROP: u32 := 3
  const NOP: u32 := 4
  const END: u32 := 9
  const RETRY: nat := 1000
  const ENOENT: int := 2
  const OFF_STRUCT_AT: nat := 8
  const OFF_STRINGS_AT: nat := 12
  const VERSION_AT: nat := 20

  /** "interface_uuid" */
  const WANTED: seq<byte> :=
    [0x69, 0x6E, 0x74, 0x65, 0x72, 0x66, 0x61, 0x63, 0x65, 0x5F, 0x75, 0x75, 0x69, 0x64]

  function Cell(m: seq<byte>, p: nat): u32
    requires p + 4 <= |m|
  {
    (((m[p] as int) * 0x100 + m[p + 1]) * 0x100 + m[p + 2]) * 0x100 + m[p + 3]
  }

  function Align4(p: nat): (r: nat)
    ensures p <= r < p + 4 && r % 4 == 0 && (p % 4 == 0 ==> r == p)
  {
    (p + 3) / 4 * 4
  }

  function Align8(p: nat): (r: nat)
    ensures p <= r < p + 8 && r % 8 == 0
  {
    (p + 7) / 8 * 8
  }

  // --- Trees and tokens -----------------------------------------------------------------------

  datatype Property = Property(nameOff: u32, name: seq<byte>, value: seq<byte>)
  datatype Node = Node(name: seq<byte>, items: Items)
  datatype Items = Last | Own(property: Property, more: Items) | Child(node: Node, more: Items) | Filler(more: Items)

  datatype Token = Begin(name: seq<byte>) | Prop(property: Property) | Other(tag: u32)

  /** A node as the structure block lists it: its properties and children in order, NOPs between them. */
  function Flatten(n: Node): seq<Token> {
    [Begin(n.name)] + FlattenItems(n.items) + [Other(END_NODE)]
  }

  function FlattenItems(items: Items): seq<Token> {
    match items
    case Last => []
    case Own(p, more) => [Prop(p)] + FlattenItems(more)
    case Child(n, more) => Flatten(n) + FlattenItems(more)
    case Filler(more) => [Other(NOP)] + FlattenItems(more)
  }

  /** All properties of a tree in document order. */
  function Properties(n: Node): seq<Property> {
    PropertiesOf(n.items)
  }

  function PropertiesOf(items: Items): seq<Property> {
    match items
    case Last => []
    case Own(p, more) => [p] + PropertiesOf(more)
    case Child(n, more) => Properties(n) + PropertiesOf(more)
    case Filler(more) => PropertiesOf(more)
  }

  function TokenProperties(ts: seq<Token>): seq<Property> {
    if ts == [] then []
    else if ts[0].Prop? then [ts[0].property] + TokenProperties(ts[1..])
    else TokenProperties(ts[1..])
  }

  lemma {:induction false} TokenPropertiesConcat(a: seq<Token>, b: seq<Token>)
    ensures TokenProperties(a + b) == TokenProperties(a) + TokenProperties(b)
  {
    if a == [] {
      assert a + b == b;
    } else {
      TokenPropertiesConcat(a[1..], b);
      assert (a + b)[0] == a[0] && (a + b)[1..] == a[1..] + b;
    }
  }

  /** Flattening keeps the properties and their order. */
  lemma {:induction false} FlattenKeepsOrder(n: Node)
    ensures TokenProperties(Flatten(n)) == Properties(n)
  {
    FlattenItemsKeepOrder(n.items);
    TokenPropertiesConcat([Begin(n.name)], FlattenItems(n.items));
    TokenPropertiesConcat([Begin(n.name)] + FlattenItems(n.items), [Other(END_NODE)]);
    assert TokenProperties([Begin(n.name)]) == [] && TokenProperties([Other(END_NODE)]) == [];
  }

  lemma {:induction false} FlattenItemsKeepOrder(items: Items)
    ensures TokenProperties(FlattenItems(items)) == PropertiesOf(items)
  {
    match items
    case Last =>
    case Own(p, more) =>
      FlattenItemsKeepOrder(more);
      TokenPropertiesConcat([Prop(p)], FlattenItems(more));
      assert TokenProperties([Prop(p)]) == [p];
    case Child(n, more) =>
      FlattenKeepsOrder(n);
      FlattenItemsKeepOrder(more);
      TokenPropertiesConcat(Flatten(n), FlattenItems(more));
    case Filler(more) =>
      FlattenItemsKeepOrder(more);
      TokenPropertiesConcat([Other(NOP)], FlattenItems(more));
      assert TokenProperties([Other(NOP)]) == [];
  }

  predicate Wanted(p: Property) {
    WANTED <= p.name
  }

  /** The name begins with the text searched for. */
  ghost predicate IsInterfaceUuid(name: seq<byte>) {
    |name| >= 14 && forall i | 0 <= i < 14 :: name[i] == "interface_uuid"[i] as int
  }

  lemma WantedIs(p: Property)
    ensures Wanted(p) <==> IsInterfaceUuid(p.name)
  {
    var w := "interface_uuid";
    assert |w| == |WANTED| == 14 && forall i | 0 <= i < 14 :: WANTED[i] == w[i] as int;
  }

  /** Index of the first token that is a wanted property, or the number of tokens. */
  function FirstToken(ts: seq<Token>): (k: nat)
    ensures k <= |ts| && (k < |ts| ==> ts[k].Prop? && Wanted(ts[k].property))
    ensures forall j | 0 <= j < k :: !(ts[j].Prop? && Wanted(ts[j].property))
  {
    if ts == [] || (ts[0].Prop? && Wanted(ts[0].property)) then 0 else 1 + FirstToken(ts[1..])
  }

  function FirstProperty(ps: seq<Property>): (k: nat)
    ensures k <= |ps| && (k < |ps| ==> Wanted(ps[k]))
    ensures forall j | 0 <= j < k :: !Wanted(ps[j])
  {
    if ps == [] || Wanted(ps[0]) then 0 else 1 + FirstProperty(ps[1..])
  }

  /** The first wanted token is the first wanted property. */
  lemma {:induction false} FirstAgree(ts: seq<Token>)
    ensures var k, j := FirstToken(ts), FirstProperty(TokenProperties(ts));
            && (k < |ts| <==> j < |TokenProperties(ts)|)
            && (k < |ts| ==> ts[k].property == TokenProperties(ts)[j])
  {
    hide Wanted;
    if ts != [] {
      FirstAgree(ts[1..]);
    }
  }

  // --- The bytes of a block -----------------------------------------------------------------------

  /** `s` and a terminating zero stand at `p`. */
  ghost predicate StringAt(m: seq<byte>, p: nat, s: seq<byte>) {
    p + |s| < |m| && m[p + |s|] == 0 && forall i | 0 <= i < |s| :: m[p + i] == s[i] != 0
  }

  lemma CharAt(m: seq<byte>, p: nat, s: seq<byte>, i: nat)
    requires StringAt(m, p, s) && i <= |s|
    ensures if i < |s| then m[p + i] == s[i] != 0 else m[p + i] == 0
  {
  }

  /** Where the value of a property token at `p` starts: old versions align long values to eight. */
  function ValueAt(p: nat, size: nat, version: u32): nat {
    if version < 16 && size >= 8 then Align8(p + 12) else p + 12
  }

  function Next(p: nat, t: Token, version: u32): nat {
    match t
    case Begin(name) => Align4(p + 4 + |name| + 1)
    case Prop(q) => Align4(ValueAt(p, |q.value|, version) + |q.value|)
    case Other(_) => p + 4
  }

  /** Token `t` stands at `p`. */
  ghost predicate TokenAt(m: seq<byte>, p: nat, t: Token, version: u32, strings: nat) {
    && p % 4 == 0 && p + 4 <= |m|
    && match t
       case Begin(name) => Cell(m, p) == BEGIN_NODE && StringAt(m, p + 4, name)
       case Prop(q) =>
         var v := ValueAt(p, |q.value|, version);
         && Cell(m, p) == PROP && p + 12 <= |m| && Cell(m, p + 4) == |q.value| < 0x8000_0000
         && Cell(m, p + 8) == q.nameOff && StringAt(m, strings + q.nameOff, q.name)
         && v + |q.value| <= |m| && m[v..v + |q.value|] == q.value
       case Other(tag) => tag !in {BEGIN_NODE, PROP, END} && Cell(m, p) == tag
  }

  /** The tokens and the end marker stand at `p`. */
  ghost predicate Block(m: seq<byte>, p: nat, ts: seq<Token>, version: u32, strings: nat)
    decreases |ts|
  {
    if ts == [] then p % 4 == 0 && p + 4 <= |m| && Cell(m, p) == END
    else TokenAt(m, p, ts[0], version, strings) && Block(m, Next(p, ts[0], version), ts[1..], version, strings)
  }

  /** Address of token `k`. */
  function AddressOf(p: nat, ts: seq<Token>, k: nat, version: u32): nat
    requires k <= |ts|
    decreases k
  {
    if k == 0 then p else AddressOf(Next(p, ts[0], version), ts[1..], k - 1, version)
  }

  lemma {:induction false} AddressStep(p: nat, ts: seq<Token>, k: nat, version: u32)
    requires k < |ts|
    ensures AddressOf(p, ts, k + 1, version) == Next(AddressOf(p, ts, k, version), ts[k], version)
    decreases k
  {
    hide Next;
    if k > 0 {
      AddressStep(Next(p, ts[0], version), ts[1..], k - 1, version);
    }
  }

  lemma {:induction false} BlockFrom(m: seq<byte>, p: nat, ts: seq<Token>, k: nat, version: u32, strings: nat)
    requires k <= |ts| && Block(m, p, ts, version, strings)
    ensures Block(m, AddressOf(p, ts, k, version), ts[k..], version, strings)
    decreases k
  {
    hide Next, TokenAt;
    if k > 0 {
      BlockFrom(m, Next(p, ts[0], version), ts[1..], k - 1, version, strings);
      assert ts[1..][k - 1..] == ts[k..];
    } else {
      assert ts[0..] == ts;
    }
  }

  // --- Writing a block ---------------------------------------------------------------------------------

  function BigEndian(x: u32): (r: seq<byte>)
    ensures |r| == 4
  {
    [x / 0x100_0000, (x / 0x1_0000) % 0x100, (x / 0x100) % 0x100, x % 0x100]
  }

  lemma CellRoundTrip(m: seq<byte>, p: nat, x: u32)
    requires p + 4 <= |m| && m[p..p + 4] == BigEndian(x)
    ensures Cell(m, p) == x
  {
    var c := m[p..p + 4];
    assert c[0] == m[p] && c[1] == m[p + 1] && c[2] == m[p + 2] && c[3] == m[p + 3];
    var a, b := x / 0x100, x / 0x1_0000;
    assert a / 0x100 == b && b / 0x100 == x / 0x100_0000;
    assert x == a * 0x100 + x % 0x100 && a == b * 0x100 + a % 0x100;
  }

  predicate Legal(t: Token) {
    match t
    case Begin(name) => 0 !in name
    case Prop(q) => 0 !in q.name && |q.value| < 0x8000_0000
    case Other(tag) => tag !in {BEGIN_NODE, PROP, END}
  }

  /** A token written at the aligned address `p`. */
  function TokenBytes(t: Token, p: nat, version: u32): (r: seq<byte>)
    requires Legal(t) && p % 4 == 0
    ensures |r| == Next(p, t, version) - p
  {
    match t
    case Begin(name) =>
      BigEndian(BEGIN_NODE) + name + [0] + Zeros(Next(p, t, version) - (p + 4 + |name| + 1))
    case Prop(q) =>
      var v := ValueAt(p, |q.value|, version);
      BigEndian(PROP) + BigEndian(|q.value|) + BigEndian(q.nameOff) + Zeros(v - (p + 12)) + q.value
      + Zeros(Next(p, t, version) - (v + |q.value|))
    case Other(tag) => BigEndian(tag)
  }

  function BlockBytes(ts: seq<Token>, p: nat, version: u32): seq<byte>
    requires p % 4 == 0 && forall i | 0 <= i < |ts| :: Legal(ts[i])
    decreases |ts|
  {
    if ts == [] then BigEndian(END)
    else TokenBytes(ts[0], p, version) + BlockBytes(ts[1..], Next(p, ts[0], version), version)
  }

  /** Bytes `b` stand at `p`. */
  ghost predicate Stands(m: seq<byte>, p: nat, b: seq<byte>) {
    p + |b| <= |m| && m[p..p + |b|] == b
  }

  lemma StandsSplit(m: seq<byte>, p: nat, a: seq<byte>, b: seq<byte>)
    requires Stands(m, p, a + b)
    ensures Stands(m, p, a) && Stands(m, p + |a|, b)
  {
    assert m[p..p + |a|] == m[p..p + |a + b|][..|a|];
    assert m[p + |a|..p + |a| + |b|] == m[p..p + |a + b|][|a|..];
  }

  lemma StringStands(m: seq<byte>, p: nat, s: seq<byte>)
    requires Stands(m, p, s + [0]) && 0 !in s
    ensures StringAt(m, p, s)
  {
    StandsSplit(m, p, s, [0]);
    assert m[p + |s|..p + |s| + 1][0] == 0;
    forall i | 0 <= i < |s|
      ensures m[p + i] == s[i] != 0
    {
      assert m[p..p + |s|][i] == m[p + i] && s[i] in s;
    }
  }

  lemma TokenStands(m: seq<byte>, p: nat, t: Token, version: u32, strings: nat)
    requires Legal(t) && p % 4 == 0 && Stands(m, p, TokenBytes(t, p, version))
    requires t.Prop? ==> StringAt(m, strings + t.property.nameOff, t.property.name)
    ensures TokenAt(m, p, t, version, strings)
  {
    hide BigEndian, Zeros, Next, Stands, Cell, StringAt;
    match t
    case Begin(name) =>
      var pad := Zeros(Next(p, t, version) - (p + 4 + |name| + 1));
      StandsSplit(m, p, BigEndian(BEGIN_NODE) + name + [0], pad);
      assert BigEndian(BEGIN_NODE) + name + [0] == BigEndian(BEGIN_NODE) + (name + [0]);
      StandsSplit(m, p, BigEndian(BEGIN_NODE), name + [0]);
      CellStands(m, p, BEGIN_NODE);
      StringStands(m, p + 4, name);
    case Prop(q) =>
      var v := ValueAt(p, |q.value|, version);
      var size, off, gap := BigEndian(|q.value|), BigEndian(q.nameOff), Zeros(v - (p + 12));
      var head := BigEndian(PROP) + size + off + gap;
      StandsSplit(m, p, head + q.value, Zeros(Next(p, t, version) - (v + |q.value|)));
      StandsSplit(m, p, head, q.value);
      StandsSplit(m, p, BigEndian(PROP) + size + off, gap);
      StandsSplit(m, p, BigEndian(PROP) + size, off);
      StandsSplit(m, p, BigEndian(PROP), size);
      CellStands(m, p, PROP);
      CellStands(m, p + 4, |q.value|);
      CellStands(m, p + 8, q.nameOff);
      ValueStands(m, v, q.value);
    case Other(tag) =>
      CellStands(m, p, tag);
  }

  lemma CellStands(m: seq<byte>, p: nat, x: u32)
    requires Stands(m, p, BigEndian(x))
    ensures p + 4 <= |m| && Cell(m, p) == x
  {
    CellRoundTrip(m, p, x);
  }

  lemma ValueStands(m: seq<byte>, p: nat, b: seq<byte>)
    requires Stands(m, p, b)
    ensures p + |b| <= |m| && m[p..p + |b|] == b
  {
  }

  /** A block written out is one the walk accepts. */
  lemma {:induction false} WrittenBlock(m: seq<byte>, p: nat, ts: seq<Token>, version: u32, strings: nat)
    requires p % 4 == 0 && forall i | 0 <= i < |ts| :: Legal(ts[i])
    requires Stands(m, p, BlockBytes(ts, p, version))
    requires forall i | 0 <= i < |ts| && ts[i].Prop? ::
               StringAt(m, strings + ts[i].property.nameOff, ts[i].property.name)
    ensures Block(m, p, ts, version, strings)
    decreases |ts|
  {
    hide TokenBytes, TokenAt, Stands, Legal, Cell, BigEndian, StringAt;
    if ts == [] {
      CellStands(m, p, END);
    } else {
      NextAligned(p, ts[0], version);
      StandsSplit(m, p, TokenBytes(ts[0], p, version), BlockBytes(ts[1..], Next(p, ts[0], version), version));
      TokenStands(m, p, ts[0], version, strings);
      hide Next;
      WrittenBlock(m, Next(p, ts[0], version), ts[1..], version, strings);
    }
  }

  lemma NextAligned(p: nat, t: Token, version: u32)
    requires p % 4 == 0
    ensures Next(p, t, version) % 4 == 0 && Next(p, t, version) >= p
  {
  }

  // --- Strings ----------------------------------------------------------------------------------------

  /** The bytes up to the first zero. */
  function UpToZero(s: seq<byte>): (n: nat)
    ensures n <= |s| && (n < |s| ==> s[n] == 0) && forall j | 0 <= j < n :: s[j] != 0
  {
    if s == [] || s[0] == 0 then 0 else 1 + UpToZero(s[1..])
  }

  method StrLen(m: seq<byte>, p: nat, ghost s: seq<byte>) returns (n: nat)
    requires StringAt(m, p, s)
    ensures n == |s|
  {
    n := 0;
    CharAt(m, p, s, 0);
    while m[p + n] != 0
      invariant n <= |s| && (m[p + n] == 0 <==> n == |s|)
      decreases |s| - n
    {
      n := n + 1;
      CharAt(m, p, s, n);
    }
  }

  lemma NotPrefix(w: seq<byte>, s: seq<byte>, i: nat)
    requires i < |w| && i <= |s| && (i < |s| ==> s[i] != w[i])
    ensures !(w <= s)
  {
  }

  /** strncmp against all of a string without zeros: equal, or not. */
  method StartsWith(m: seq<byte>, p: nat, w: seq<byte>, ghost s: seq<byte>) returns (equal: bool)
    requires StringAt(m, p, s) && 0 !in w
    ensures equal <==> w <= s
  {
    var i := 0;
    while i < |w|
      invariant i <= |w| && i <= |s| && w[..i] == s[..i]
    {
      CharAt(m, p, s, i);
      if m[p + i] != w[i] {
        NotPrefix(w, s, i);
        return false;
      }
      assert w[i] in w;
      i := i + 1;
    }
    assert w[..i] == w;
    return true;
  }

  /** What strncpy of `n` bytes leaves: the bytes before the first zero, then zeros. */
  function CString(s: seq<byte>, n: nat): (r: seq<byte>)
    ensures |r| == n
  {
    var k := Min(n, UpToZero(s));
    s[..k] + seq<byte>(n - k, i => 0)
  }

  /**
   What `value` holds as text, in an output that may be longer or shorter: the string before the zero, then
   zeros; or the first bytes, if the zero is not among them.
   */
  ghost predicate HoldsText(out: seq<byte>, value: seq<byte>) {
    && (forall s: seq<byte> | 0 !in s && s + [0] <= value && |s| < |out| ::
          out[..|s|] == s && forall j | |s| <= j < |out| :: out[j] == 0)
    && (|out| <= |value| && 0 !in value[..|out|] ==> out == value[..|out|])
  }

  lemma CStringHoldsText(value: seq<byte>, n: nat)
    ensures HoldsText(CString(value, n), value)
  {
    var out := CString(value, n);
    forall s: seq<byte> | 0 !in s && s + [0] <= value && |s| < n
      ensures out[..|s|] == s && forall j | |s| <= j < n :: out[j] == 0
    {
      TextEnds(s, value);
    }
    if n <= |value| && 0 !in value[..n] {
      NoZeroYet(value, n);
    }
  }

  lemma TextEnds(s: seq<byte>, value: seq<byte>)
    requires 0 !in s && s + [0] <= value
    ensures UpToZero(value) == |s| && value[..|s|] == s
  {
    assert (s + [0])[|s|] == value[|s|];
    forall j | 0 <= j < |s|
      ensures value[j] != 0
    {
      assert value[j] == (s + [0])[j] == s[j] && s[j] in s;
    }
    ZeroAt(value, |s|);
  }

  lemma NoZeroYet(value: seq<byte>, n: nat)
    requires n <= |value| && 0 !in value[..n]
    ensures n <= UpToZero(value)
  {
    forall j | 0 <= j < n
      ensures value[j] != 0
    {
      assert value[..n][j] in value[..n];
    }
  }

  /** The same, from memory that goes on behind the string. */
  function Copied(m: seq<byte>, p: nat, n: nat): seq<byte>
    requires p + n <= |m|
  {
    CString(m[p..][..n], n)
  }

  lemma CopiedHoldsText(m: seq<byte>, p: nat, n: nat)
    requires p + n <= |m|
    ensures HoldsText(Copied(m, p, n), m[p..][..n])
  {
    CStringHoldsText(m[p..][..n], n);
  }

  /** Copied up to the first zero, or to the end, and cleared behind it. */
  lemma CopyDone(out: seq<byte>, m: seq<byte>, p: nat, k: nat)
    requires p + |out| <= |m| && k <= |out|
    requires forall j | 0 <= j < k :: out[j] == m[p + j] && out[j] != 0
    requires (k < |out| ==> m[p + k] == 0) && forall j | k <= j < |out| :: out[j] == 0
    ensures out == Copied(m, p, |out|)
  {
    var src := m[p..][..|out|];
    assert forall j | 0 <= j < |out| :: src[j] == m[p + j];
    assert forall j | 0 <= j < k :: src[j] == out[j];
    ZeroAt(src, k);
  }

  method StrNCpy(out: array<byte>, m: seq<byte>, p: nat)
    requires p + out.Length <= |m|
    modifies out
    ensures out[..] == Copied(m, p, out.Length) && HoldsText(out[..], m[p..][..out.Length])
  {
    hide *;
    var n := out.Length;
    var i := 0;
    while i < n && m[p + i] != 0
      invariant i <= n && forall j | 0 <= j < i :: out[j] == m[p + j] && out[j] != 0
    {
      out[i] := m[p + i];
      i := i + 1;
    }
    ghost var k := i;
    while i < n
      invariant k <= i <= n && forall j | k <= j < i :: out[j] == 0
      invariant forall j | 0 <= j < k :: out[j] == m[p + j] && out[j] != 0
    {
      out[i] := 0;
      i := i + 1;
    }
    CopyDone(out[..], m, p, k);
    CopiedHoldsText(m, p, n);
  }

  /** A value that holds its terminating zero, or fills the copy, is copied without looking behind it. */
  lemma CopiedValue(m: seq<byte>, v: nat, value: seq<byte>, n: nat)
    requires v + |value| <= |m| && v + n <= |m| && m[v..v + |value|] == value
    requires n <= |value| || 0 in value
    ensures Copied(m, v, n) == CString(value, n)
  {
    var src, k := m[v..][..n], Min(n, UpToZero(value));
    SameBytes(m, v, value, n);
    ZeroInside(value);
    ZeroAt(src, k);
    hide UpToZero;
    assert src[..k] == value[..k];
  }

  lemma ZeroInside(s: seq<byte>)
    ensures 0 in s ==> UpToZero(s) < |s|
  {
  }

  lemma SameBytes(m: seq<byte>, v: nat, value: seq<byte>, n: nat)
    requires v + |value| <= |m| && v + n <= |m| && m[v..v + |value|] == value
    ensures forall j | 0 <= j < |value| && j < n :: m[v..][..n][j] == value[j]
  {
    forall j | 0 <= j < |value| && j < n
      ensures m[v..][..n][j] == value[j]
    {
      assert m[v..v + |value|][j] == m[v + j];
    }
  }

  lemma ZeroAt(s: seq<byte>, k: nat)
    requires k <= |s| && (forall j | 0 <= j < k :: s[j] != 0) && (k < |s| ==> s[k] == 0)
    ensures UpToZero(s) == k
  {
    var z := UpToZero(s);
    assert z < k ==> z < |s|;
  }

  // --- The walk ---------------------------------------------------------------------------------------

  /** Room behind a block for the copy to read. */
  ghost predicate Room(m: seq<byte>, p: nat, ts: seq<Token>, version: u32, n: nat) {
    forall k | 0 <= k < |ts| && ts[k].Prop? ::
      ValueAt(AddressOf(p, ts, k, version), |ts[k].property.value|, version) + n <= |m|
  }

  /** Address of the value of token `k`. */
  function ValueOf(p: nat, ts: seq<Token>, k: nat, version: u32): nat
    requires k < |ts| && ts[k].Prop?
  {
    ValueAt(AddressOf(p, ts, k, version), |ts[k].property.value|, version)
  }

  /** A property token whose tag has been read: its value is copied if its name is wanted. */
  method TakeProperty(m: seq<byte>, at: nat, strings: nat, version: u32, uuid: array<byte>, ghost q: Property)
      returns (found: bool, next: nat)
    requires at >= 4 && TokenAt(m, at - 4, Prop(q), version, strings)
    requires ValueAt(at - 4, |q.value|, version) + uuid.Length <= |m|
    modifies uuid
    ensures found <==> Wanted(q)
    ensures found ==> uuid[..] == Copied(m, ValueAt(at - 4, |q.value|, version), uuid.Length)
    ensures found ==> HoldsText(uuid[..], m[ValueAt(at - 4, |q.value|, version)..][..uuid.Length])
    ensures !found ==> next == Next(at - 4, Prop(q), version) && uuid[..] == old(uuid[..])
  {
    hide Cell, StringAt, Copied, HoldsText;
    var sz := Cell(m, at);
    var s := strings + Cell(m, at + 4);
    next := at + 8;
    if version < 16 && sz >= 8 {
      next := Align8(next);
    }
    found := StartsWith(m, s, WANTED, q.name);
    if found {
      StrNCpy(uuid, m, next);
      return;
    }
    next := Align4(next + sz);
  }

  /**
   The value of the first wanted property is copied if it is among the first 1001 tokens; else
   the call fails and the output is untouched.
   */
  method GetUuids(m: seq<byte>, start: nat, strings: nat, version: u32, uuid: array<byte>, ghost ts: seq<Token>)
      returns (ret: int)
    requires Block(m, start, ts, version, strings) && Room(m, start, ts, version, uuid.Length)
    modifies uuid
    ensures var k := FirstToken(ts);
            && (ret == 0 <==> k < |ts| && k <= RETRY)
            && (ret == 0 ==> ValueOf(start, ts, k, version) + uuid.Length <= |m|
                             && uuid[..] == Copied(m, ValueOf(start, ts, k, version), uuid.Length)
                             && HoldsText(uuid[..], m[ValueOf(start, ts, k, version)..][..uuid.Length]))
            && (ret != 0 ==> ret == -ENOENT && uuid[..] == old(uuid[..]))
  {
    hide Block, Room, Cell, Next, AddressOf, TokenAt, ValueAt, Wanted, Copied, HoldsText;
    var p, count := start, 0;
    AddressOfFirst(start, ts, version);
    Arrived(m, start, ts, 0, version, strings);
    var tag := Cell(m, p);
    p := p + 4;
    while tag != END
      invariant count <= |ts| && count <= RETRY + 1 && count <= FirstToken(ts)
      invariant p == AddressOf(start, ts, count, version) + 4 <= |m| && tag == Cell(m, p - 4)
      invariant tag == END <==> count == |ts|
      invariant uuid[..] == old(uuid[..])
      decreases |ts| - count
    {
      if count > RETRY {
        return -ENOENT;
      }
      ghost var k := count;
      Arrived(m, start, ts, k, version, strings);
      AddressStep(start, ts, k, version);
      Arrived(m, start, ts, k + 1, version, strings);
      TagOf(m, p - 4, ts[k], version, strings);
      count := count + 1;
      if tag == BEGIN_NODE {
        var n := StrLen(m, p, ts[k].name);
        p := Align4(p + n + 1);
      } else if tag == PROP {
        RoomAt(m, start, ts, k, version, uuid.Length);
        var found, next := TakeProperty(m, p, strings, version, uuid, ts[k].property);
        if found {
          FoundAt(ts, k);
          return 0;
        }
        p := next;
      }
      NotFoundYet(ts, k);
      tag := Cell(m, p);
      p := p + 4;
    }
    return -ENOENT;
  }

  /** The tag tells the tokens apart. */
  lemma TagOf(m: seq<byte>, p: nat, t: Token, version: u32, strings: nat)
    requires TokenAt(m, p, t, version, strings)
    ensures Cell(m, p) == BEGIN_NODE <==> t.Begin?
    ensures Cell(m, p) == PROP <==> t.Prop?
    ensures t.Begin? ==> StringAt(m, p + 4, t.name) && Next(p, t, version) == Align4(p + 4 + |t.name| + 1)
    ensures t.Other? ==> Next(p, t, version) == p + 4
  {
    hide Cell, StringAt;
  }

  lemma AddressOfFirst(p: nat, ts: seq<Token>, version: u32)
    ensures AddressOf(p, ts, 0, version) == p
  {
  }

  /** What stands at token `k`. */
  lemma Arrived(m: seq<byte>, start: nat, ts: seq<Token>, k: nat, version: u32, strings: nat)
    requires k <= |ts| && Block(m, start, ts, version, strings)
    ensures var p := AddressOf(start, ts, k, version);
            && p + 4 <= |m| && (Cell(m, p) == END <==> k == |ts|)
            && (k < |ts| ==> TokenAt(m, p, ts[k], version, strings))
  {
    BlockFrom(m, start, ts, k, version, strings);
  }

  lemma FoundAt(ts: seq<Token>, k: nat)
    requires k < |ts| && k <= FirstToken(ts) && ts[k].Prop? && Wanted(ts[k].property)
    ensures FirstToken(ts) == k
  {
  }

  lemma NotFoundYet(ts: seq<Token>, k: nat)
    requires k < |ts| && k <= FirstToken(ts) && !(ts[k].Prop? && Wanted(ts[k].property))
    ensures k + 1 <= FirstToken(ts)
  {
  }

  lemma RoomAt(m: seq<byte>, p: nat, ts: seq<Token>, k: nat, version: u32, n: nat)
    requires Room(m, p, ts, version, n) && k < |ts| && ts[k].Prop?
    ensures ValueOf(p, ts, k, version) + n <= |m|
  {
  }

  /** The header of the blob names the two blocks and the version. */
  method GetUuidsOfBlob(m: seq<byte>, blob: nat, uuid: array<byte>, ghost tree: Node) returns (ret: int)
    requires blob + 24 <= |m|
    requires var start, strings := blob + Cell(m, blob + OFF_STRUCT_AT), blob + Cell(m, blob + OFF_STRINGS_AT);
             var version := Cell(m, blob + VERSION_AT);
             Block(m, start, Flatten(tree), version, strings) && Room(m, start, Flatten(tree), version, uuid.Length)
    modifies uuid
    ensures ret == 0 || ret == -ENOENT
    ensures ret == 0 <==> FirstProperty(Properties(tree)) < |Properties(tree)| && FirstToken(Flatten(tree)) <= RETRY
    ensures ret == 0 ==>
      var q := Properties(tree)[FirstProperty(Properties(tree))];
      IsInterfaceUuid(q.name) && (uuid.Length <= |q.value| || 0 in q.value ==> HoldsText(uuid[..], q.value))
    ensures ret != 0 ==> uuid[..] == old(uuid[..])
  {
    var version := Cell(m, blob + VERSION_AT);
    var start := blob + Cell(m, blob + OFF_STRUCT_AT);
    var strings := blob + Cell(m, blob + OFF_STRINGS_AT);
    ghost var ts := Flatten(tree);
    FlattenKeepsOrder(tree);
    FirstAgree(ts);
    hide Cell, Flatten, Properties, Block, Room, Copied, CString, Wanted, AddressOf, ValueAt, StringAt, HoldsText;
    hide IsInterfaceUuid;
    ret := GetUuids(m, start, strings, version, uuid, ts);
    if ret == 0 {
      FoundValue(m, start, strings, version, uuid.Length, ts);
    }
  }

  /** What the walk copied, about the property alone. */
  lemma FoundValue(m: seq<byte>, start: nat, strings: nat, version: u32, n: nat, ts: seq<Token>)
    requires Block(m, start, ts, version, strings) && FirstToken(ts) < |ts|
    requires ValueOf(start, ts, FirstToken(ts), version) + n <= |m|
    ensures var q, v := ts[FirstToken(ts)].property, ValueOf(start, ts, FirstToken(ts), version);
            && IsInterfaceUuid(q.name)
            && (n <= |q.value| || 0 in q.value ==> HoldsText(Copied(m, v, n), q.value))
  {
    hide Cell, Block, Copied, CString, HoldsText, IsInterfaceUuid, StringAt, AddressOf, ValueAt;
    var k := FirstToken(ts);
    Arrived(m, start, ts, k, version, strings);
    var q := ts[k].property;
    WantedIs(q);
    CStringHoldsText(q.value, n);
    if n <= |q.value| || 0 in q.value {
      CopiedValue(m, ValueOf(start, ts, k, version), q.value, n);
    }
  }
}
