/** The updater's packet parser: it resumes where the previous packet was cut. */
module ScParser {
  import opened Machine
  import opened Crc16
  import opened ScImage

  // --- Reading a suffix of the text -----------------------------------------------------------

  /** The text from position `p` on is `rest`. */
  ghost predicate From(text: seq<byte>, p: nat, rest: seq<byte>) {
    p <= |text| && text[p..] == rest
  }

  lemma Advance(text: seq<byte>, p: nat, m: byte, rest: seq<byte>)
    requires From(text, p, [m] + rest)
    ensures p < |text| && text[p] == m && From(text, p + 1, rest)
  {
    assert text[p..][0] == m;
    assert text[p + 1..] == text[p..][1..];
  }

  /** The conversions undo the rendering, and no rendered digit is a control character. */
  lemma HexRoundTrip(d: digit)
    ensures CharToHex(UpperHex(d)) == d && CharToHexAddr(LowerHex(d)) == d
    ensures UpperHex(d) !in [SECTION_START, TERMINATION, SPACE, NEW_LINE]
    ensures LowerHex(d) !in [SECTION_START, TERMINATION, SPACE, NEW_LINE]
  {
  }

  lemma LinesStep(d: seq<byte>, k: nat, tail: seq<byte>)
    requires k < |d|
    ensures Lines(d[k..], k % 16) + tail
         == [UpperHex(d[k] / 16)] + ([UpperHex(d[k] % 16)]
              + (Separators(k % 16, k + 1 == |d|) + (Lines(d[k + 1..], (k + 1) % 16) + tail)))
  {
    assert d[k..][1..] == d[k + 1..];
    assert (k % 16 + 1) % 16 == (k + 1) % 16;
  }

  /** What lies behind the parser's position between two calls. */
  function Suffix(c: Cursor): seq<byte> {
    match c
    case AtSection(s, rest) => SectionText(s) + Text(rest)
    case AfterAt(s, rest) => AddressText(s.address) + ([NEW_LINE] + (Lines(s.data, 0) + Text(rest)))
    case Continued(_, data, rest) => [NEW_LINE] + (Lines(data, 0) + Text(rest))
    case Finished => []
  }

  datatype Phase = ParseAddress | ParseData

  class Parser {
    var dataPtr: nat
    var addrFlag: bool
    var parsedAddr: u32
    var prevLength: nat
    var dataCrc: bv16
    var allSent: bool

    /** As the update starts sending. */
    constructor ()
      ensures dataPtr == 0 && addrFlag && !allSent
    {
      dataPtr, addrFlag, parsedAddr, prevLength, dataCrc, allSent := 0, true, 0, 0, 0, false;
    }

    ghost predicate At(text: seq<byte>, c: Cursor)
      reads this
    {
      && From(text, dataPtr, Suffix(c))
      && (c.AtSection? || c.AfterAt? ==> addrFlag)
      && (c.Continued? ==> !addrFlag && Wrap32(parsedAddr + prevLength) == c.address)
      && (c.Finished? <==> allSent)
    }

    /** Digits up to the new line; `first` is the first character, already consumed. */
    method ReadAddress(text: seq<byte>, first: byte, ghost a: seq<digit>, ghost rest: seq<byte>)
      requires dataPtr > 0 && From(text, dataPtr - 1, AddressText(a) + ([NEW_LINE] + rest))
      requires first == text[dataPtr - 1]
      modifies this`dataPtr, this`parsedAddr
      ensures dataPtr >= old(dataPtr)
      ensures From(text, dataPtr, rest) && parsedAddr == AddressValue(a)
    {
      assert a[..0] == [] && AddressText(a)[0..] == AddressText(a);
      assert AddressFrom(text, dataPtr - 1, a, 0, rest);
      NoDigits(a);
      hide Wrap32, AddressFrom, From, CharToHexAddr, AddressText, AddressValue;
      var msg := first;
      parsedAddr := 0;
      ghost var j := 0;
      AddressDigit(text, dataPtr - 1, a, 0, rest);
      while msg != NEW_LINE
        invariant dataPtr > 0 && dataPtr >= old(dataPtr) && j <= |a|
        invariant AddressFrom(text, dataPtr - 1, a, j, rest) && dataPtr <= |text|
        invariant msg == text[dataPtr - 1] && (msg == NEW_LINE <==> j == |a|)
        invariant parsedAddr == AddressValue(a[..j])
        decreases |a| - j
      {
        AddressDigit(text, dataPtr - 1, a, j, rest);
        NextDigit(a, j);
        parsedAddr := Wrap32(16 * parsedAddr + CharToHexAddr(msg));
        j := j + 1;
        AddressDigit(text, dataPtr, a, j, rest);
        msg := text[dataPtr];
        dataPtr := dataPtr + 1;
      }
      assert a[..|a|] == a;
      AddressDigit(text, dataPtr - 1, a, j, rest);
    }

    /** The characters of one data phase; see `ReadData`. */
    ghost predicate Reading(text: seq<byte>, p: nat, d: seq<byte>, k: nat, sep: seq<byte>, tail: seq<byte>) {
      && k <= |d| && k <= MAX_DATA
      && From(text, p, sep + (Lines(d[k..], k % 16) + tail))
      && (sep == [] || sep == [SPACE] || sep == [NEW_LINE] || sep == [SPACE, NEW_LINE])
      && (k == MAX_DATA ==> sep == [SPACE, NEW_LINE])
    }

    /**
     Data bytes up to the next section, the end of the text, or a full packet. The character that
     ends the loop has been consumed; after a full packet it is the space behind the last byte.
     */
    method ReadData(text: seq<byte>, pkt: array<byte>, ghost d: seq<byte>, ghost rest: seq<Section>)
        returns (msg: byte, length: nat)
      requires pkt.Length == 266 && From(text, dataPtr, Lines(d, 0) + Text(rest))
      modifies this`dataPtr, pkt
      ensures dataPtr > old(dataPtr)
      ensures length == 8 + Min(MAX_DATA, |d|)
      ensures pkt[..8] == old(pkt[..8]) && pkt[8..length] == d[..length - 8]
      ensures |d| >= MAX_DATA ==>
        msg == SPACE && From(text, dataPtr, [NEW_LINE] + (Lines(d[MAX_DATA..], 0) + Text(rest)))
      ensures |d| < MAX_DATA ==> msg == Text(rest)[0] && From(text, dataPtr, Text(rest)[1..])
    {
      hide Lines, Text, From, CharToHex, UpperHex, Separators;
      length := 8;
      ghost var tail, k, sep: seq<byte> := Text(rest), 0, [];
      StartReading(text, dataPtr, d, tail);
      NextChar(text, dataPtr, d, k, sep, rest);
      msg := text[dataPtr];
      dataPtr := dataPtr + 1;
      while msg != SECTION_START && length < 264 && msg != TERMINATION
        invariant dataPtr > old(dataPtr) && length == 8 + k <= 264
        invariant Reading(text, dataPtr - 1, d, k, sep, tail)
        invariant dataPtr <= |text| && msg == text[dataPtr - 1]
        invariant pkt[..8] == old(pkt[..8]) && pkt[8..length] == d[..k]
        decreases |text| - dataPtr
      {
        NextChar(text, dataPtr - 1, d, k, sep, rest);
        if msg != NEW_LINE && msg != SPACE {
          pkt[length] := CharToHex(msg);
          msg := text[dataPtr];
          dataPtr := dataPtr + 1;
          pkt[length] := 16 * pkt[length] + CharToHex(msg);
          length := length + 1;
          sep := Separators(k % 16, k + 1 == |d|);
          k := k + 1;
          assert pkt[8..length] == d[..k];
        } else {
          sep := sep[1..];
        }
        NextChar(text, dataPtr, d, k, sep, rest);
        msg := text[dataPtr];
        dataPtr := dataPtr + 1;
      }
      NextChar(text, dataPtr - 1, d, k, sep, rest);
      EndOfData(text, dataPtr - 1, d, k, sep, rest, msg);
    }

    /** Header, length, command and both checksums around `length - 8` bytes of data. */
    method SealPacket(pkt: array<byte>, length: nat, ghost p: Packet) returns (pktLength: nat)
      requires pkt.Length == 266 && 8 <= length <= 264
      requires pkt[4..8] == LittleEndian(p.address, 4) && pkt[8..length] == p.data
      modifies pkt, this`prevLength, this`dataCrc
      ensures pktLength <= 266 && pkt[..pktLength] == Framed(p)
      ensures prevLength == |p.data| && dataCrc == Crc(p.data)
    {
      hide Crc, CrcLow, CrcHigh, LengthLow, LengthHigh, LittleEndian, Core, Framed;
      pktLength := length + 2;
      var n := length - 3;
      CoreParts(p, pkt[4..length]);
      pkt[0], pkt[1], pkt[2], pkt[3] := HEADER, LengthLow(n), LengthHigh(n), RX_DATA_BLOCK_32;
      prevLength := n - 5;
      assert pkt[3..length] == [RX_DATA_BLOCK_32] + pkt[4..length];
      assert pkt[3..][..n] == pkt[3..length];
      assert pkt[8..][..prevLength] == pkt[3..length][5..];
      var crc := ComputeCrc(pkt[3..], n);
      var low, high := CrcLow(crc), CrcHigh(crc);
      ghost var sealed := pkt[..length] + [low, high];
      pkt[n + 3], pkt[n + 4] := low, high;
      assert pkt[..pktLength] == sealed;
      dataCrc := ComputeCrc(pkt[8..], prevLength);
      FramedIs(p, sealed);
    }

    /** The data state: read, note what ended the packet, seal it. */
    method CutData(text: seq<byte>, pkt: array<byte>, ghost c: Cursor) returns (pktLength: nat)
      requires pkt.Length == 266 && !c.Finished? && !addrFlag && !allSent
      requires parsedAddr == Address(c) && pkt[4..8] == LittleEndian(parsedAddr, 4)
      requires From(text, dataPtr, Lines(Data(c), 0) + Text(c.rest))
      modifies this`dataPtr, this`addrFlag, this`allSent, this`prevLength, this`dataCrc, pkt
      ensures At(text, AfterPacket(c)) && dataPtr > old(dataPtr)
      ensures pktLength <= 266 && pkt[..pktLength] == Framed(NextPacket(c))
      ensures prevLength == |NextPacket(c).data| && dataCrc == Crc(NextPacket(c).data)
    {
      PacketOf(c);
      hide Lines, Text, From, Framed, Crc, LittleEndian, Wrap32, AddressValue, Suffix, AfterPacket, NextPacket, Address;
      var msg, length := ReadData(text, pkt, Data(c), c.rest);
      if msg == SECTION_START {
        addrFlag := true;
      } else if msg == TERMINATION {
        allSent := true;
      }
      Resumes(text, dataPtr, c, msg);
      assert pkt[4..8] == pkt[..8][4..];
      pktLength := SealPacket(pkt, length, NextPacket(c));
    }

    /** The address state: past an @ stay in it, otherwise fix the packet's address. */
    method CutAddress(text: seq<byte>, pkt: array<byte>, ghost c: Cursor) returns (state: Phase)
      requires pkt.Length == 266 && !c.Finished? && At(text, c)
      modifies this`dataPtr, this`addrFlag, this`allSent, this`parsedAddr, pkt
      ensures dataPtr > old(dataPtr) && !allSent
      ensures state == ParseAddress <==> c.AtSection?
      ensures c.AtSection? ==> At(text, AfterAt(c.section, c.rest))
      ensures !c.AtSection? ==>
        && !addrFlag && parsedAddr == Address(c) && pkt[4..8] == LittleEndian(parsedAddr, 4)
        && From(text, dataPtr, Lines(Data(c), 0) + Text(c.rest))
    {
      hide Lines, Text, From, LittleEndian, Wrap32, AddressValue, Suffix;
      FirstChar(text, dataPtr, c);
      state := ParseAddress;
      var msg := text[dataPtr];
      dataPtr := dataPtr + 1;
      if addrFlag && msg != SECTION_START && msg != TERMINATION {
        addrFlag := false;
        ReadAddress(text, msg, c.section.address, Lines(c.section.data, 0) + Text(c.rest));
        PutAddress(pkt);
        state := ParseData;
      } else if msg == SECTION_START {
        addrFlag := true;
      } else if msg == TERMINATION {
        assert false; // no text in the documented format has its q here
      } else {
        parsedAddr := Wrap32(parsedAddr + prevLength);
        PutAddress(pkt);
        state := ParseData;
      }
    }

    /** One call cuts the next packet and stops where the following one starts. */
    method ParseFptSc(text: seq<byte>, pkt: array<byte>, ghost c: Cursor) returns (pktLength: nat)
      requires pkt.Length == 266 && !c.Finished? && At(text, c)
      modifies this, pkt
      ensures At(text, AfterPacket(c)) && dataPtr > old(dataPtr)
      ensures pktLength <= 266 && pkt[..pktLength] == Framed(NextPacket(c))
      ensures parsedAddr == NextPacket(c).address
      ensures prevLength == |NextPacket(c).data| && dataCrc == Crc(NextPacket(c).data)
    {
      PacketOf(c);
      hide Lines, Text, From, Framed, Crc, LittleEndian, Wrap32, AddressValue, Suffix, AfterPacket, NextPacket;
      hide Address, Data, At;
      var state, complete := ParseAddress, false;
      ghost var cur := c;
      pktLength := 0;
      while !complete
        invariant dataPtr >= old(dataPtr)
        invariant !cur.Finished? && NextPacket(cur) == NextPacket(c) && AfterPacket(cur) == AfterPacket(c)
        invariant !complete && state == ParseAddress ==> At(text, cur)
        invariant !complete && state == ParseData ==>
          && !addrFlag && !allSent && parsedAddr == Address(cur) && pkt[4..8] == LittleEndian(parsedAddr, 4)
          && From(text, dataPtr, Lines(Data(cur), 0) + Text(cur.rest))
        invariant complete ==>
          && At(text, AfterPacket(c)) && dataPtr > old(dataPtr)
          && pktLength <= 266 && pkt[..pktLength] == Framed(NextPacket(c))
          && parsedAddr == Address(cur)
          && prevLength == |NextPacket(c).data| && dataCrc == Crc(NextPacket(c).data)
        decreases if complete then 0 else if state == ParseData then 1 else if cur.AtSection? then 3 else 2
      {
        PacketOf(cur);
        match state
        case ParseAddress =>
          state := CutAddress(text, pkt, cur);
          if cur.AtSection? {
            AtIsConsumed(cur);
            cur := AfterAt(cur.section, cur.rest);
          }
        case ParseData =>
          pktLength := CutData(text, pkt, cur);
          complete := true;
      }
      PacketOf(cur);
    }

    method PutAddress(pkt: array<byte>)
      requires pkt.Length == 266
      modifies pkt
      ensures pkt[4..8] == LittleEndian(parsedAddr, 4)
    {
      pkt[4], pkt[5] := parsedAddr % 0x100, (parsedAddr / 0x100) % 0x100;
      pkt[6], pkt[7] := (parsedAddr / 0x1_0000) % 0x100, (parsedAddr / 0x100_0000) % 0x100;
      AddressBytes(parsedAddr);
    }

    lemma StartReading(text: seq<byte>, p: nat, d: seq<byte>, tail: seq<byte>)
      requires From(text, p, Lines(d, 0) + tail)
      ensures Reading(text, p, d, 0, [], tail)
    {
      assert d[0..] == d;
      assert [] + (Lines(d, 0) + tail) == Lines(d, 0) + tail;
    }

    lemma NextSeparator(text: seq<byte>, p: nat, d: seq<byte>, k: nat, sep: seq<byte>, tail: seq<byte>)
      requires Reading(text, p, d, k, sep, tail) && sep != []
      ensures p < |text| && (text[p] == SPACE || text[p] == NEW_LINE)
      ensures k < MAX_DATA ==> Reading(text, p + 1, d, k, sep[1..], tail)
    {
      hide Lines, From;
      var body := Lines(d[k..], k % 16) + tail;
      assert sep + body == [sep[0]] + (sep[1..] + body);
      Advance(text, p, sep[0], sep[1..] + body);
    }

    lemma NextDigits(text: seq<byte>, p: nat, d: seq<byte>, k: nat, tail: seq<byte>)
      requires Reading(text, p, d, k, [], tail) && k < |d|
      ensures p + 1 < |text| && text[p] == UpperHex(d[k] / 16) && text[p + 1] == UpperHex(d[k] % 16)
      ensures k < MAX_DATA ==> Reading(text, p + 2, d, k + 1, Separators(k % 16, k + 1 == |d|), tail)
    {
      hide Lines, From, UpperHex;
      var body := Lines(d[k..], k % 16) + tail;
      assert [] + body == body;
      LinesStep(d, k, tail);
      var after := Separators(k % 16, k + 1 == |d|) + (Lines(d[k + 1..], (k + 1) % 16) + tail);
      Advance(text, p, UpperHex(d[k] / 16), [UpperHex(d[k] % 16)] + after);
      Advance(text, p + 1, UpperHex(d[k] % 16), after);
    }

    lemma NextEnd(text: seq<byte>, p: nat, d: seq<byte>, k: nat, tail: seq<byte>)
      requires Reading(text, p, d, k, [], tail) && k == |d| && tail != []
      ensures p < |text| && text[p] == tail[0] && From(text, p + 1, tail[1..])
    {
      hide From;
      LinesNone(d, k);
      assert [] + (Lines(d[k..], k % 16) + tail) == [tail[0]] + tail[1..];
      Advance(text, p, tail[0], tail[1..]);
    }

    /** The next character, and what reading it leaves. */
    lemma NextChar(text: seq<byte>, p: nat, d: seq<byte>, k: nat, sep: seq<byte>, rest: seq<Section>)
      requires Reading(text, p, d, k, sep, Text(rest))
      ensures p < |text|
      ensures (sep != [] <==> text[p] == SPACE || text[p] == NEW_LINE)
      ensures sep != [] && k < MAX_DATA ==> Reading(text, p + 1, d, k, sep[1..], Text(rest))
      ensures sep == [] ==> (k == |d| <==> text[p] == SECTION_START || text[p] == TERMINATION)
      ensures sep == [] && k < |d| ==>
        && p + 1 < |text| && CharToHex(text[p]) == d[k] / 16 && CharToHex(text[p + 1]) == d[k] % 16
        && Reading(text, p + 2, d, k + 1, Separators(k % 16, k + 1 == |d|), Text(rest))
    {
      assert k <= |d| && k <= MAX_DATA && (k == MAX_DATA ==> sep != []);
      hide Text, Lines, From, CharToHex, UpperHex, LowerHex, Separators, Reading;
      if sep != [] {
        NextSeparator(text, p, d, k, sep, Text(rest));
      } else if k < |d| {
        HexRoundTrip(d[k] / 16);
        HexRoundTrip(d[k] % 16);
        NextDigits(text, p, d, k, Text(rest));
      } else {
        NextEnd(text, p, d, k, Text(rest));
      }
    }

    lemma EndOfData(text: seq<byte>, p: nat, d: seq<byte>, k: nat, sep: seq<byte>, rest: seq<Section>, msg: byte)
      requires Reading(text, p, d, k, sep, Text(rest)) && p < |text| && msg == text[p]
      requires msg == SECTION_START || msg == TERMINATION || k == MAX_DATA
      ensures |d| >= MAX_DATA <==> k == MAX_DATA
      ensures k == Min(MAX_DATA, |d|)
      ensures |d| >= MAX_DATA ==>
        msg == SPACE && From(text, p + 1, [NEW_LINE] + (Lines(d[MAX_DATA..], 0) + Text(rest)))
      ensures |d| < MAX_DATA ==> msg == Text(rest)[0] && From(text, p + 1, Text(rest)[1..])
    {
      hide Lines, Text;
      NextChar(text, p, d, k, sep, rest);
      var tail := Text(rest);
      var body := Lines(d[k..], k % 16) + tail;
      if k == MAX_DATA {
        assert sep + body == [SPACE] + ([NEW_LINE] + body);
        Advance(text, p, SPACE, [NEW_LINE] + body);
      } else {
        LinesNone(d, k);
        assert sep + body == [tail[0]] + tail[1..];
        Advance(text, p, tail[0], tail[1..]);
      }
    }

    lemma LinesNone(d: seq<byte>, k: nat)
      requires k == |d|
      ensures Lines(d[k..], k % 16) == []
    {
    }
  }

  lemma NoDigits(a: seq<digit>)
    ensures AddressValue(a[..0]) == 0
  {
  }

  lemma NextDigit(a: seq<digit>, j: nat)
    requires j < |a|
    ensures AddressValue(a[..j + 1]) == Wrap32(16 * AddressValue(a[..j]) + a[j])
  {
    hide Wrap32;
    assert a[..j + 1][..j] == a[..j];
  }

  /** An address from digit `j` on, its new line, and `rest`. */
  ghost predicate AddressFrom(text: seq<byte>, p: nat, a: seq<digit>, j: nat, rest: seq<byte>) {
    j <= |a| && From(text, p, AddressText(a)[j..] + ([NEW_LINE] + rest))
  }

  /** The character of an address at digit `j`, or the new line behind the last digit. */
  lemma AddressDigit(text: seq<byte>, p: nat, a: seq<digit>, j: nat, rest: seq<byte>)
    requires AddressFrom(text, p, a, j, rest)
    ensures p < |text| && (text[p] == NEW_LINE <==> j == |a|)
    ensures j < |a| ==> CharToHexAddr(text[p]) == a[j] && AddressFrom(text, p + 1, a, j + 1, rest)
    ensures j == |a| ==> From(text, p + 1, rest)
  {
    var behind := [NEW_LINE] + rest;
    if j < |a| {
      HexRoundTrip(a[j]);
      assert AddressText(a)[j..] + behind == [LowerHex(a[j])] + (AddressText(a)[j + 1..] + behind);
      Advance(text, p, LowerHex(a[j]), AddressText(a)[j + 1..] + behind);
    } else {
      assert AddressText(a)[j..] + behind == behind;
      Advance(text, p, NEW_LINE, rest);
    }
  }

  lemma CoreParts(p: Packet, behind: seq<byte>)
    requires |behind| == 4 + |p.data| && behind[..4] == LittleEndian(p.address, 4) && behind[4..] == p.data
    ensures [RX_DATA_BLOCK_32] + behind == Core(p) && |Core(p)| == 5 + |p.data| && Core(p)[5..] == p.data
  {
    hide LittleEndian;
    assert behind == behind[..4] + behind[4..];
  }

  lemma FramedIs(p: Packet, f: seq<byte>)
    requires |f| == 10 + |p.data| && f[0] == HEADER
    requires var n := 5 + |p.data|;
             && f[1] == LengthLow(n) && f[2] == LengthHigh(n) && f[3..3 + n] == Core(p)
             && f[3 + n] == CrcLow(Crc(Core(p))) && f[4 + n] == CrcHigh(Crc(Core(p)))
    ensures f == Framed(p)
  {
    hide CrcLow, CrcHigh, LengthLow, LengthHigh, Crc, Core;
    assert f == f[..3] + f[3..8 + |p.data|] + f[8 + |p.data|..];
  }

  lemma AddressBytes(a: u32)
    ensures LittleEndian(a, 4) == [a % 0x100, (a / 0x100) % 0x100, (a / 0x1_0000) % 0x100, (a / 0x100_0000) % 0x100]
  {
    var a1: nat, a2: nat, a3: nat := a / 0x100, a / 0x1_0000, a / 0x100_0000;
    assert a1 / 0x100 == a2 && a2 / 0x100 == a3;
    assert LittleEndian(a3, 1) == [a3 % 0x100];
    assert LittleEndian(a2, 2) == [a2 % 0x100] + LittleEndian(a3, 1);
    assert LittleEndian(a1, 3) == [a1 % 0x100] + LittleEndian(a2, 2);
  }

  /** The first character of a call tells the three kinds of cursor apart. */
  lemma FirstChar(text: seq<byte>, p: nat, c: Cursor)
    requires !c.Finished? && From(text, p, Suffix(c))
    ensures p < |text| && text[p] != TERMINATION
    ensures text[p] == SECTION_START <==> c.AtSection?
    ensures c.AtSection? ==> From(text, p + 1, Suffix(AfterAt(c.section, c.rest)))
    ensures c.AfterAt? ==>
      From(text, p, AddressText(c.section.address) + ([NEW_LINE] + (Lines(c.section.data, 0) + Text(c.rest))))
    ensures c.Continued? ==> From(text, p + 1, Lines(c.data, 0) + Text(c.rest))
  {
    hide From, Lines, Text, AddressText;
    match c
    case AtSection(s, rest) =>
      var after := Suffix(AfterAt(s, rest));
      assert SectionText(s) + Text(rest) == [SECTION_START] + after;
      Advance(text, p, SECTION_START, after);
    case AfterAt(s, rest) =>
      FirstOfAddress(text, p, s.address, Lines(s.data, 0) + Text(rest));
    case Continued(_, data, rest) =>
      Advance(text, p, NEW_LINE, Lines(data, 0) + Text(rest));
  }

  lemma FirstOfAddress(text: seq<byte>, p: nat, a: seq<digit>, rest: seq<byte>)
    requires From(text, p, AddressText(a) + ([NEW_LINE] + rest))
    ensures p < |text| && text[p] != SECTION_START && text[p] != TERMINATION
  {
    var t := AddressText(a) + ([NEW_LINE] + rest);
    assert text[p..][0] == t[0];
    if a != [] {
      HexRoundTrip(a[0]);
    }
  }

  lemma AtIsConsumed(c: Cursor)
    requires c.AtSection?
    ensures var next := AfterAt(c.section, c.rest);
            && Data(next) == Data(c) && Address(next) == Address(c)
            && NextPacket(next) == NextPacket(c) && AfterPacket(next) == AfterPacket(c)
  {
  }

  lemma PacketOf(c: Cursor)
    requires !c.Finished?
    ensures NextPacket(c).address == Address(c) && NextPacket(c).data == Data(c)[..Min(MAX_DATA, |Data(c)|)]
    ensures !AfterPacket(c).AtSection?
    ensures AfterPacket(c).Continued? ==> AfterPacket(c).address == Wrap32(Address(c) + |NextPacket(c).data|)
  {
  }

  /** What `ReadData` leaves is where the next packet starts. */
  lemma Resumes(text: seq<byte>, p: nat, c: Cursor, msg: byte)
    requires !c.Finished?
    requires |Data(c)| >= MAX_DATA ==>
      msg == SPACE && From(text, p, [NEW_LINE] + (Lines(Data(c)[MAX_DATA..], 0) + Text(c.rest)))
    requires |Data(c)| < MAX_DATA ==> msg == Text(c.rest)[0] && From(text, p, Text(c.rest)[1..])
    ensures From(text, p, Suffix(AfterPacket(c)))
    ensures msg == SECTION_START <==> AfterPacket(c).AfterAt?
    ensures msg == TERMINATION <==> AfterPacket(c).Finished?
  {
    hide From, Lines, AddressText;
    if |Data(c)| < MAX_DATA && c.rest != [] {
      var s, rest := c.rest[0], c.rest[1..];
      assert Text(c.rest)[1..] == Suffix(AfterAt(s, rest));
    }
  }
}
