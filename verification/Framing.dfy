/**
 Messages to the satellite controller: start and end are marked by an escape character with a second
 byte, and an escape character in between is doubled. The receiver is defined here; the repository's
 own check of incoming packets does not undo the doubling.
 */
module Framing {
  import opened Machine

  const ESC: byte := 0x5C
  const STX: byte := 0x02
  const ETX: byte := 0x03
  const FLAGS: byte := 3

  datatype Message = Message(id: byte, flags: byte, payload: seq<byte>)

  function Sum(s: seq<byte>): nat {
    if s == [] then 0 else Sum(s[..|s| - 1]) + s[|s| - 1]
  }

  function Checksum(id: byte, flags: byte, length: byte, payload: seq<byte>): u16 {
    ((id as int) + flags + length + Sum(payload)) % 0x1_0000
  }

  function Low(x: u16): byte {
    x % 0x100
  }

  function High(x: u16): byte {
    x / 0x100
  }

  /** What stands between the marks before doubling. */
  function Content(id: byte, flags: byte, payload: seq<byte>): (r: seq<byte>)
    requires |payload| < 0x100
    ensures |r| == |payload| + 5
  {
    var c := Checksum(id, flags, |payload|, payload);
    [id, flags, |payload|] + payload + [Low(c), High(c)]
  }

  function Doubled(b: byte): seq<byte> {
    if b == ESC then [ESC, ESC] else [b]
  }

  function Stuffed(s: seq<byte>): seq<byte> {
    if s == [] then [] else Doubled(s[0]) + Stuffed(s[1..])
  }

  function Frame(id: byte, payload: seq<byte>): seq<byte>
    requires |payload| < 0x100
  {
    [ESC, STX] + Stuffed(Content(id, FLAGS, payload)) + [ESC, ETX]
  }

  lemma Associative(a: seq<byte>, b: seq<byte>, c: seq<byte>)
    ensures (a + b) + c == a + (b + c)
  {
  }

  lemma StuffedFirst(s: seq<byte>)
    requires s != []
    ensures Stuffed(s) == Doubled(s[0]) + Stuffed(s[1..])
  {
  }

  lemma {:induction false} StuffedConcat(a: seq<byte>, b: seq<byte>)
    ensures Stuffed(a + b) == Stuffed(a) + Stuffed(b)
  {
    if a == [] {
      assert a + b == b;
    } else {
      StuffedConcat(a[1..], b);
      StuffedFirst(a);
      StuffedFirst(a + b);
      hide Stuffed, Doubled;
      assert (a + b)[1..] == a[1..] + b;
      Associative(Doubled(a[0]), Stuffed(a[1..]), Stuffed(b));
    }
  }

  lemma StuffedSnoc(s: seq<byte>, b: byte)
    ensures Stuffed(s + [b]) == Stuffed(s) + Doubled(b)
  {
    StuffedConcat(s, [b]);
    assert Stuffed([b]) == Doubled(b) + Stuffed([]);
  }

  lemma StuffedPrefix(s: seq<byte>, i: nat)
    requires i <= |s|
    ensures |Stuffed(s[..i])| <= |Stuffed(s)|
  {
    StuffedConcat(s[..i], s[i..]);
    assert s == s[..i] + s[i..];
  }

  /** How many bytes will be doubled. */
  function Escapes(s: seq<byte>): nat {
    if s == [] then 0 else (if s[0] == ESC then 1 else 0) + Escapes(s[1..])
  }

  lemma {:induction false} StuffedLength(s: seq<byte>)
    ensures |Stuffed(s)| == |s| + Escapes(s) && Escapes(s) <= |s|
  {
    if s != [] {
      StuffedLength(s[1..]);
    }
  }

  /** Which frames fit the one-byte length; up to 120 payload bytes always do. */
  lemma FrameFits(id: byte, payload: seq<byte>)
    requires |payload| < 0x100
    ensures |Frame(id, payload)| <= 255 <==> |payload| + Escapes(Content(id, FLAGS, payload)) <= 246
    ensures |payload| <= 120 ==> |Frame(id, payload)| <= 255
  {
    StuffedLength(Content(id, FLAGS, payload));
  }

  // --- The checksum as bytes -------------------------------------------------------------------------

  lemma {:induction false} SumConcat(a: seq<byte>, b: seq<byte>)
    ensures Sum(a + b) == Sum(a) + Sum(b)
    decreases |b|
  {
    if b == [] {
      assert a + b == a;
    } else {
      assert (a + b)[..|a + b| - 1] == a + b[..|b| - 1];
      SumConcat(a, b[..|b| - 1]);
    }
  }

  lemma SumOfOne(b: byte)
    ensures Sum([b]) == b && Sum([]) == 0
  {
    assert [b][..0] == [];
  }

  lemma ChecksumIsSum(id: byte, flags: byte, length: byte, payload: seq<byte>)
    ensures Checksum(id, flags, length, payload) == Sum([id, flags, length] + payload) % 0x1_0000
  {
    SumOfOne(id);
    SumOfOne(flags);
    SumOfOne(length);
    SumConcat([id], [flags]);
    SumConcat([id] + [flags], [length]);
    assert [id] + [flags] + [length] == [id, flags, length];
    SumConcat([id, flags, length], payload);
  }

  /** The last two bytes, low byte first, are the sum of all bytes before them. */
  predicate SumValid(c: seq<byte>) {
    |c| >= 2 && FromLittleEndian(c[|c| - 2..]) == Sum(c[..|c| - 2]) % 0x1_0000
  }

  lemma TwoBytes(a: byte, b: byte)
    ensures FromLittleEndian([a, b]) == a + 0x100 * b
  {
    assert [a, b][1..] == [b] && [b][1..] == [];
    assert FromLittleEndian([b]) == b;
  }

  lemma ContentSums(id: byte, flags: byte, payload: seq<byte>)
    requires |payload| < 0x100
    ensures SumValid(Content(id, flags, payload))
  {
    hide Checksum, Sum, FromLittleEndian;
    var c, x := Content(id, flags, payload), Checksum(id, flags, |payload|, payload);
    ChecksumIsSum(id, flags, |payload|, payload);
    TwoBytes(Low(x), High(x));
    assert c[|c| - 2..] == [Low(x), High(x)] && c[..|c| - 2] == [id, flags, |payload|] + payload;
  }

  /** Where byte `i` went: it stands behind the bytes before it, followed by its double if it is the escape. */
  lemma StuffedAt(s: seq<byte>, i: nat)
    requires i < |s|
    ensures var k := |Stuffed(s[..i])|;
            && k < |Stuffed(s)| && Stuffed(s)[k] == s[i]
            && (s[i] == 0x5C ==> k + 1 < |Stuffed(s)| && Stuffed(s)[k + 1] == 0x5C)
            && |Stuffed(s[..i + 1])| == k + (if s[i] == 0x5C then 2 else 1)
  {
    assert s[..i + 1] == s[..i] + [s[i]] && s == s[..i + 1] + s[i + 1..];
    StuffedSnoc(s[..i], s[i]);
    StuffedConcat(s[..i + 1], s[i + 1..]);
  }

  /** The bytes on the line for a message: marks, and between them, undoubled, fields and their sum. */
  ghost predicate Carries(f: seq<byte>, id: byte, payload: seq<byte>) {
    && |f| >= 4 && f[0] == 0x5C && f[1] == 2 && f[|f| - 2] == 0x5C && f[|f| - 1] == 3
    && var r := Scan(f[2..]);
       && r.Whole? && r.rest == [] && SumValid(r.content)
       && r.content[..|r.content| - 2] == [id, 3, |payload|] + payload
  }

  lemma FrameCarries(id: byte, payload: seq<byte>)
    requires |payload| < 0x100
    ensures Carries(Frame(id, payload), id, payload)
  {
    var c, f := Content(id, FLAGS, payload), Frame(id, payload);
    ScanStuffed(c, []);
    ContentSums(id, FLAGS, payload);
    ContentStarts(id, payload);
    hide Stuffed, Content, Scan, SumValid;
    assert f[2..] == Stuffed(c) + [ESC, ETX] + [];
  }

  lemma ContentStarts(id: byte, payload: seq<byte>)
    requires |payload| < 0x100
    ensures var c := Content(id, FLAGS, payload); c[..|c| - 2] == [id, 3, |payload|] + payload
  {
    hide Checksum, Low, High;
    var c := Content(id, FLAGS, payload);
    assert c[..|c| - 2] == [id, 3, |payload|] + payload;
  }

  // --- Sending --------------------------------------------------------------------------------------

  method CalculateChecksum(id: byte, flags: byte, length: byte, payload: seq<byte>) returns (checksum: u16)
    requires |payload| >= length
    ensures checksum == Checksum(id, flags, length, payload[..length])
    ensures checksum == Sum([id, flags, length] + payload[..length]) % 0x1_0000
  {
    ChecksumIsSum(id, flags, length, payload[..length]);
    checksum := (id as int) + flags + length;
    for i := 0 to length
      invariant checksum == Checksum(id, flags, length, payload[..i])
    {
      assert payload[..i + 1][..i] == payload[..i];
      checksum := (checksum + payload[i]) % 0x1_0000;
    }
  }

  /** One byte of a frame, doubled if it is the escape character. */
  method Append(tx: array<byte>, len: byte, b: byte) returns (next: byte)
    requires len + |Doubled(b)| <= Min(tx.Length, 255)
    modifies tx
    ensures next == len + |Doubled(b)| && tx[..next] == old(tx[..len]) + Doubled(b)
  {
    next := len;
    if b == ESC {
      tx[next] := ESC;
      next := next + 1;
    }
    tx[next] := b;
    next := next + 1;
  }

  /** The start mark and what has been sent behind it. */
  function Started(c: seq<byte>): seq<byte> {
    [ESC, STX] + Stuffed(c)
  }

  lemma StartedSnoc(c: seq<byte>, b: byte)
    ensures Started(c + [b]) == Started(c) + Doubled(b)
  {
    StuffedSnoc(c, b);
    hide Stuffed, Doubled;
    Associative([ESC, STX], Stuffed(c), Doubled(b));
  }

  lemma StartedPrefix(c: seq<byte>, i: nat)
    requires i <= |c|
    ensures |Started(c[..i])| <= |Started(c)|
  {
    StuffedPrefix(c, i);
  }

  lemma OneMore(c: seq<byte>, s: seq<byte>, i: nat, n: nat)
    requires i < n <= |s|
    ensures Started(c + s[..i + 1]) == Started(c + s[..i]) + Doubled(s[i])
    ensures |Started(c + s[..i + 1])| <= |Started(c + s[..n])|
  {
    StartedPrefix(c + s[..n], |c| + i + 1);
    StartedSnoc(c + s[..i], s[i]);
    hide Started, Doubled;
    assert (c + s[..n])[..|c| + i + 1] == c + s[..i + 1];
    assert c + s[..i + 1] == (c + s[..i]) + [s[i]];
  }

  /** `n` bytes of `s` appended to a frame whose content so far is `c`. */
  method AppendAll(tx: array<byte>, len: byte, s: seq<byte>, n: nat, ghost c: seq<byte>) returns (next: byte)
    requires n <= |s| && len == |Started(c)| <= tx.Length && tx[..len] == Started(c)
    requires |Started(c + s[..n])| <= Min(tx.Length, 255)
    modifies tx
    ensures next == |Started(c + s[..n])| && tx[..next] == Started(c + s[..n])
  {
    next := len;
    assert c + s[..0] == c;
    for i := 0 to n
      invariant next == |Started(c + s[..i])| <= tx.Length && tx[..next] == Started(c + s[..i])
    {
      OneMore(c, s, i, n);
      hide Started, Doubled;
      next := Append(tx, next, s[i]);
    }
  }

  /** The frame is assembled in the send buffer; its length must fit one byte. */
  method FrameTxPacket(msgId: byte, payloadLen: byte, tx: array<byte>, payload: seq<byte>) returns (length: byte)
    requires payloadLen <= |payload|
    requires |Frame(msgId, payload[..payloadLen])| <= Min(tx.Length, 255)
    modifies tx
    ensures length == |Frame(msgId, payload[..payloadLen])|
    ensures tx[..length] == Frame(msgId, payload[..payloadLen])
    ensures Carries(tx[..length], msgId, payload[..payloadLen])
  {
    FrameCarries(msgId, payload[..payloadLen]);
    hide Carries, SumValid;
    ghost var body := payload[..payloadLen];
    var checksum := CalculateChecksum(msgId, FLAGS, payloadLen, payload);
    var head, foot := [msgId, FLAGS, payloadLen], [Low(checksum), High(checksum)];
    ghost var content := Content(msgId, FLAGS, body);
    assert content == (head + body) + foot && Frame(msgId, body) == Started(content) + [ESC, ETX];
    assert head[..3] == [] + head[..3] == head && foot[..2] == foot;
    assert content[..3] == head && content[..3 + payloadLen as int] == head + body;
    StartedPrefix(content, 3);
    StartedPrefix(content, 3 + payloadLen as int);
    assert Started([]) == [ESC, STX];
    hide Started, Checksum, Content, Frame;
    tx[0], tx[1] := ESC, STX;
    var len: byte := 2;
    len := AppendAll(tx, len, head, 3, []);
    len := AppendAll(tx, len, payload, payloadLen, head);
    len := AppendAll(tx, len, foot, 2, head + body);
    tx[len], tx[len + 1] := ESC, ETX;
    length := len + 2;
    assert tx[..length] == tx[..len] + [ESC, ETX];
  }

  // --- Receiving ------------------------------------------------------------------------------------

  datatype Scanned = Bad | Whole(content: seq<byte>, rest: seq<byte>)

  /** Undoes the doubling up to the end mark. */
  function Scan(s: seq<byte>): Scanned
    decreases |s|
  {
    if s == [] then Bad
    else if s[0] != ESC then Longer(s[0], Scan(s[1..]))
    else if |s| < 2 then Bad
    else if s[1] == ESC then Longer(ESC, Scan(s[2..]))
    else if s[1] == ETX then Whole([], s[2..])
    else Bad
  }

  function Longer(b: byte, r: Scanned): Scanned {
    match r
    case Bad => Bad
    case Whole(content, rest) => Whole([b] + content, rest)
  }

  /** The first message of a stream and what follows it. */
  function Receive(s: seq<byte>): Option<(Message, seq<byte>)> {
    if |s| < 2 || s[0] != ESC || s[1] != STX then None
    else
      match Scan(s[2..])
      case Bad => None
      case Whole(c, rest) =>
        if |c| < 5 || |c| != 5 + c[2] as int then None
        else
          var n := c[2];
          var sum := Checksum(c[0], c[1], n, c[3..3 + n as int]);
          if c[3 + n as int] != Low(sum) || c[4 + n as int] != High(sum) then None
          else Some((Message(c[0], c[1], c[3..3 + n as int]), rest))
  }

  /** Scanning meets the end mark only where it was put, whatever the content and whatever follows. */
  lemma {:induction false} ScanStuffed(s: seq<byte>, rest: seq<byte>)
    ensures Scan(Stuffed(s) + [ESC, ETX] + rest) == Whole(s, rest)
  {
    var t := Stuffed(s) + [ESC, ETX] + rest;
    if s == [] {
      assert t[2..] == rest;
    } else {
      ScanStuffed(s[1..], rest);
      var more := Stuffed(s[1..]) + [ESC, ETX] + rest;
      assert t == Doubled(s[0]) + more;
      ScanDoubled(s[0], more);
      assert [s[0]] + s[1..] == s;
    }
  }

  lemma ScanDoubled(b: byte, more: seq<byte>)
    ensures Scan(Doubled(b) + more) == Longer(b, Scan(more))
  {
    var t := Doubled(b) + more;
    if b == ESC {
      assert t[2..] == more;
    } else {
      assert t[1..] == more;
    }
  }

  /** A frame is received as sent and ends where it ends, whatever follows on the line. */
  lemma FrameReceived(id: byte, payload: seq<byte>, rest: seq<byte>)
    requires |payload| < 0x100
    ensures Receive(Frame(id, payload) + rest) == Some((Message(id, FLAGS, payload), rest))
  {
    var c := Content(id, FLAGS, payload);
    var s := Frame(id, payload) + rest;
    assert s[2..] == Stuffed(c) + [ESC, ETX] + rest;
    ScanStuffed(c, rest);
    hide Stuffed, Checksum;
    assert c[2] == |payload| && c[3..3 + |payload|] == payload;
  }

  /** No two different messages share a frame, and no frame is the beginning of another. */
  lemma FramesPrefixFree(id: byte, payload: seq<byte>, id': byte, payload': seq<byte>)
    requires |payload| < 0x100 && |payload'| < 0x100
    requires Frame(id, payload) <= Frame(id', payload')
    ensures id == id' && payload == payload'
  {
    var f, f' := Frame(id, payload), Frame(id', payload');
    FrameReceived(id, payload, f'[|f|..]);
    FrameReceived(id', payload', []);
    assert f' == f + f'[|f|..] && f' + [] == f';
  }

  function FrameAll(ms: seq<(byte, seq<byte>)>): seq<byte>
    requires forall i | 0 <= i < |ms| :: |ms[i].1| < 0x100
  {
    if ms == [] then [] else Frame(ms[0].0, ms[0].1) + FrameAll(ms[1..])
  }

  function ReceiveAll(s: seq<byte>, n: nat): Option<seq<Message>>
    decreases n
  {
    if n == 0 then (if s == [] then Some([]) else None)
    else
      var r := Receive(s);
      if r.None? then None
      else
        var more := ReceiveAll(r.value.1, n - 1);
        if more.None? then None else Some([r.value.0] + more.value)
  }

  function Messages(ms: seq<(byte, seq<byte>)>): seq<Message> {
    seq(|ms|, i requires 0 <= i < |ms| => Message(ms[i].0, FLAGS, ms[i].1))
  }

  /** A run of frames on the line comes apart into exactly the messages that were sent. */
  lemma {:induction false} StreamReceived(ms: seq<(byte, seq<byte>)>)
    requires forall i | 0 <= i < |ms| :: |ms[i].1| < 0x100
    ensures ReceiveAll(FrameAll(ms), |ms|) == Some(Messages(ms))
  {
    hide Frame, Receive;
    if ms != [] {
      FrameReceived(ms[0].0, ms[0].1, FrameAll(ms[1..]));
      StreamReceived(ms[1..]);
      assert Messages(ms) == [Message(ms[0].0, FLAGS, ms[0].1)] + Messages(ms[1..]);
    }
  }

  // --- What the checksum detects -----------------------------------------------------------------------

  lemma {:induction false} SumOfChange(s: seq<byte>, i: nat, b: byte)
    requires i < |s|
    ensures Sum(s[i := b]) == Sum(s) - s[i] + b
  {
    var t := s[i := b];
    if i == |s| - 1 {
      assert t[..i] == s[..i];
    } else {
      SumOfChange(s[..|s| - 1], i, b);
      assert t[..|s| - 1] == s[..|s| - 1][i := b];
    }
  }

  /** Any one byte of a content changed, in the fields, the payload or the sum, and the sum is wrong. */
  lemma ByteErrorDetected(c: seq<byte>, i: nat, b: byte)
    requires SumValid(c) && i < |c| && b != c[i]
    ensures !SumValid(c[i := b])
  {
    var n, d := |c| - 2, c[i := b];
    TwoBytes(c[n], c[n + 1]);
    TwoBytes(d[n], d[n + 1]);
    assert c[n..] == [c[n], c[n + 1]] && d[n..] == [d[n], d[n + 1]];
    if i < n {
      SumOfChange(c[..n], i, b);
      assert d[..n] == c[..n][i := b];
    } else {
      assert d[..n] == c[..n];
    }
  }
}
