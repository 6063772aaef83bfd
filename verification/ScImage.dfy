/**
 The SC firmware image: TI-TXT text, what it denotes, and the packets it is cut into. A packet
 carries at most 256 data bytes; a section that is longer goes on in the next packet.
 */
module ScImage {
  import opened Machine
  import opened Crc16

  const SECTION_START: byte := 0x40
  const TERMINATION: byte := 0x71
  const SPACE: byte := 0x20
  const NEW_LINE: byte := 0x0A
  const MAX_DATA: nat := 256

  // --- Text -----------------------------------------------------------------------------------

  type digit = d: int | 0 <= d < 16

  function UpperHex(d: digit): byte {
    if d < 10 then 0x30 + d else 0x41 + d - 10
  }

  function LowerHex(d: digit): byte {
    if d < 10 then 0x30 + d else 0x61 + d - 10
  }

  /** The conversions of the parser: data is upper case, addresses are lower case. */
  function CharToHex(c: byte): digit {
    (if 0x30 <= c <= 0x39 then c - 0x30 else if 0x41 <= c <= 0x46 then c - 0x41 + 10 else c) % 16
  }

  function CharToHexAddr(c: byte): digit {
    (if 0x30 <= c <= 0x39 then c - 0x30 else if 0x61 <= c <= 0x66 then c - 0x61 + 10 else c) % 16
  }

  datatype Section = Section(address: seq<digit>, data: seq<byte>)

  function AddressText(a: seq<digit>): (t: seq<byte>)
    ensures |t| == |a|
  {
    seq(|a|, i requires 0 <= i < |a| => LowerHex(a[i]))
  }

  /** The separators after a byte in column `col`: a space, and a new line when the line is over. */
  function Separators(col: nat, last: bool): seq<byte> {
    if col == 15 || last then [SPACE, NEW_LINE] else [SPACE]
  }

  /** The text of data bytes, the first of them in column `col` of its line of sixteen. */
  function Lines(data: seq<byte>, col: nat): seq<byte>
    decreases |data|
  {
    if data == [] then []
    else
      [UpperHex(data[0] / 16), UpperHex(data[0] % 16)] + Separators(col, |data| == 1)
      + Lines(data[1..], (col + 1) % 16)
  }

  function SectionText(s: Section): seq<byte> {
    [SECTION_START] + AddressText(s.address) + [NEW_LINE] + Lines(s.data, 0)
  }

  function Text(sections: seq<Section>): (t: seq<byte>)
    ensures t != [] && (t[0] == SECTION_START || t[0] == TERMINATION)
    ensures t[0] == TERMINATION <==> sections == []
    decreases |sections|
  {
    if sections == [] then [TERMINATION] else SectionText(sections[0]) + Text(sections[1..])
  }

  function AddressValue(a: seq<digit>): u32 {
    if a == [] then 0 else Wrap32(16 * AddressValue(a[..|a| - 1]) + a[|a| - 1])
  }

  // --- Meaning --------------------------------------------------------------------------------

  /** Bytes at consecutive 32-bit addresses. */
  function Placed(at: u32, data: seq<byte>): seq<(u32, byte)> {
    seq(|data|, i requires 0 <= i < |data| => (Wrap32(at + i), data[i]))
  }

  /** The memory contents a text denotes, in the order it gives them. */
  function Denotes(sections: seq<Section>): seq<(u32, byte)> {
    if sections == [] then []
    else Placed(AddressValue(sections[0].address), sections[0].data) + Denotes(sections[1..])
  }

  lemma PlacedConcat(at: u32, x: seq<byte>, y: seq<byte>)
    ensures Placed(at, x + y) == Placed(at, x) + Placed(Wrap32(at + |x|), y)
  {
    hide Wrap32;
    forall i | |x| <= i < |x| + |y|
      ensures Placed(at, x + y)[i] == Placed(Wrap32(at + |x|), y)[i - |x|]
    {
      WrapAdd(at + |x|, i - |x|);
    }
  }

  /** The last `n` hexadecimal digits of a number, the most significant first. */
  function Digits(x: nat, n: nat): (a: seq<digit>)
    ensures |a| == n
  {
    if n == 0 then [] else Digits(x / 16, n - 1) + [x % 16]
  }

  function Pow16(n: nat): (r: nat)
    ensures r >= 1
  {
    if n == 0 then 1 else 16 * Pow16(n - 1)
  }

  /** An address is read as the hexadecimal number it is written as. */
  lemma {:induction false} AddressIsHex(x: u32, n: nat)
    requires x < Pow16(n)
    ensures AddressValue(Digits(x, n)) == x
  {
    if n > 0 {
      AddressIsHex(x / 16, n - 1);
      assert Digits(x, n)[..n - 1] == Digits(x / 16, n - 1);
    }
  }

  /** "@7f00", "0C 48 " and "q" on lines of their own, and the two bytes of memory they denote. */
  lemma ShortExample()
    ensures var s := Section([7, 15, 0, 0], [0x0C, 0x48]);
            && Text([s]) == [0x40, 0x37, 0x66, 0x30, 0x30, 0x0A, 0x30, 0x43, 0x20, 0x34, 0x38, 0x20, 0x0A, 0x71]
            && Denotes([s]) == [(0x7F00, 0x0C), (0x7F01, 0x48)]
  {
    var s := Section([7, 15, 0, 0], [0x0C, 0x48]);
    ExampleAddress();
    ExampleLine();
    hide Lines, AddressValue, Wrap32;
    assert [s][1..] == [] && Text([]) == [0x71];
  }

  lemma ExampleAddress()
    ensures AddressValue([7, 15, 0, 0]) == 0x7F00 && Wrap32(0x7F01) == 0x7F01 && Wrap32(0x7F00) == 0x7F00
  {
    assert Digits(0x7F0, 3) == [7, 15, 0];
    assert Digits(0x7F00, 4) == [7, 15, 0, 0];
    assert Pow16(4) == 0x1_0000 by {
      assert Pow16(2) == 0x100;
    }
    AddressIsHex(0x7F00, 4);
  }

  lemma ExampleLine()
    ensures Lines([0x0C, 0x48], 0) == [0x30, 0x43, 0x20, 0x34, 0x38, 0x20, 0x0A]
  {
    var d: seq<byte> := [0x0C, 0x48];
    assert d[1..] == [0x48] && d[1..][1..] == [];
    assert Lines(d[1..], 1) == [0x34, 0x38, 0x20, 0x0A];
  }

  // --- Packets --------------------------------------------------------------------------------

  datatype Packet = Packet(address: u32, data: seq<byte>)

  /** Where the parser stands between two calls. */
  datatype Cursor =
    | AtSection(section: Section, rest: seq<Section>)     // before the @ of a section
    | AfterAt(section: Section, rest: seq<Section>)       // behind it
    | Continued(address: u32, data: seq<byte>, rest: seq<Section>)  // a full packet was cut off the section
    | Finished

  function Start(sections: seq<Section>): Cursor
    requires sections != []
  {
    AtSection(sections[0], sections[1..])
  }

  /** Address of the next packet and the data left in its section. */
  function Address(c: Cursor): u32
    requires !c.Finished?
  {
    if c.Continued? then c.address else AddressValue(c.section.address)
  }

  function Data(c: Cursor): seq<byte>
    requires !c.Finished?
  {
    if c.Continued? then c.data else c.section.data
  }

  function NextPacket(c: Cursor): Packet
    requires !c.Finished?
  {
    Packet(Address(c), Data(c)[..Min(MAX_DATA, |Data(c)|)])
  }

  function AfterPacket(c: Cursor): Cursor
    requires !c.Finished?
  {
    if |Data(c)| >= MAX_DATA then Continued(Wrap32(Address(c) + MAX_DATA), Data(c)[MAX_DATA..], c.rest)
    else if c.rest == [] then Finished
    else AfterAt(c.rest[0], c.rest[1..])
  }

  /** What is still to be sent decreases with every packet, empty ones included. */
  function Remaining(c: Cursor): (nat, nat) {
    if c.Finished? then (0, 0) else (1 + |c.rest|, |Data(c)|)
  }

  function Packets(c: Cursor): seq<Packet>
    decreases Remaining(c).0, Remaining(c).1
  {
    if c.Finished? then [] else [NextPacket(c)] + Packets(AfterPacket(c))
  }

  function Laid(packets: seq<Packet>): seq<(u32, byte)> {
    if packets == [] then [] else Placed(packets[0].address, packets[0].data) + Laid(packets[1..])
  }

  function Left(c: Cursor): seq<(u32, byte)> {
    if c.Finished? then [] else Placed(Address(c), Data(c)) + Denotes(c.rest)
  }

  /** A packet takes the first bytes of what is left and leaves the others. */
  lemma CutCovers(c: Cursor)
    requires !c.Finished?
    ensures Left(c) == Placed(NextPacket(c).address, NextPacket(c).data) + Left(AfterPacket(c))
  {
    hide Wrap32, Placed;
    var d := Data(c);
    if |d| >= MAX_DATA {
      PlacedConcat(Address(c), d[..MAX_DATA], d[MAX_DATA..]);
      assert d[..MAX_DATA] + d[MAX_DATA..] == d;
    } else {
      assert d[..|d|] == d;
    }
  }

  /** Cutting into packets loses nothing: the packets laid out are what was left to send. */
  lemma {:induction false} PacketsCoverWhatIsLeft(c: Cursor)
    ensures Laid(Packets(c)) == Left(c)
    decreases Remaining(c).0, Remaining(c).1
  {
    if !c.Finished? {
      CutCovers(c);
      PacketsCoverWhatIsLeft(AfterPacket(c));
      assert Packets(c)[1..] == Packets(AfterPacket(c));
    }
  }

  /** The chunked parse refines the one-pass reading of the text, for every text. */
  lemma PacketsAreTheImage(sections: seq<Section>)
    requires sections != []
    ensures Laid(Packets(Start(sections))) == Denotes(sections)
  {
    PacketsCoverWhatIsLeft(Start(sections));
  }

  /** No packet exceeds the protocol's limit, and only a section's last packet is short. */
  lemma {:induction false} PacketSizes(c: Cursor, i: nat)
    requires i < |Packets(c)|
    ensures |Packets(c)[i].data| <= MAX_DATA
    decreases Remaining(c).0, Remaining(c).1
  {
    if i > 0 {
      PacketSizes(AfterPacket(c), i - 1);
    }
  }

  // --- Packet format --------------------------------------------------------------------------

  const HEADER: byte := 0x80
  const RX_DATA_BLOCK_32: byte := 0x20

  function LengthLow(n: nat): byte {
    n % 0x100
  }

  function LengthHigh(n: nat): byte {
    (n / 0x100) % 0x100
  }

  function CrcLow(c: bv16): byte {
    (c as int) % 0x100
  }

  function CrcHigh(c: bv16): byte {
    (c as int) / 0x100
  }

  /** The part of a packet its checksum covers: command, address and data. */
  function Core(p: Packet): seq<byte> {
    [RX_DATA_BLOCK_32] + LittleEndian(p.address, 4) + p.data
  }

  function Framed(p: Packet): (f: seq<byte>)
    ensures |f| == 10 + |p.data|
  {
    var n := 5 + |p.data|;
    [HEADER, LengthLow(n), LengthHigh(n)] + Core(p) + [CrcLow(Crc(Core(p))), CrcHigh(Crc(Core(p)))]
  }

  /** A receiver that recomputes the checksum. */
  function Unframed(f: seq<byte>): Option<Packet> {
    if |f| < 10 || f[0] != HEADER then None
    else
      var n: int := f[1] as int + 0x100 * (f[2] as int);
      if n < 5 || |f| != n + 5 || f[3] != RX_DATA_BLOCK_32 then None
      else
        var crc := Crc(f[3..3 + n]);
        if f[3 + n] != CrcLow(crc) || f[4 + n] != CrcHigh(crc) then None
        else
          FromLittleEndianRoundTrip(f[4..8]);
          assert Pow256(4) == 0x1_0000_0000;
          Some(Packet(FromLittleEndian(f[4..8]), f[8..3 + n]))
  }

  /** A framed packet is accepted and yields its address and data; frames are at most 266 bytes. */
  lemma FrameRoundTrip(p: Packet)
    requires |p.data| <= MAX_DATA
    ensures |Framed(p)| <= 266 && Unframed(Framed(p)) == Some(p)
  {
    var f := Framed(p);
    var n := 5 + |p.data|;
    assert f[1] as int + 0x100 * (f[2] as int) == n;
    assert f[3..3 + n] == Core(p);
    assert f[4..8] == LittleEndian(p.address, 4);
    assert f[8..3 + n] == p.data;
    assert Pow256(4) == 0x1_0000_0000;
    LittleEndianRoundTrip(p.address, 4);
  }
}
