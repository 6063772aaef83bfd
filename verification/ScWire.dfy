/**
 What the replies of the boot loader mean, byte for byte, and what they do to an update: stated over the
 serial line alone.
 */
module ScWire {
  import opened Machine
  import opened Crc16
  import opened ScImage
  import opened ScUpdate

  // --- Replies ------------------------------------------------------------------------------------

  /** A reply of the boot loader with the given checksum bytes. */
  function ReplyBytes(content: seq<byte>, low: byte, high: byte): seq<byte>
    requires |content| < 0x100
  {
    [0, 0x80, |content|, 0] + content + [low, high]
  }

  /** The two checksum bytes, low byte first, are those of the content. */
  predicate ChecksumMatches(content: seq<byte>, low: byte, high: byte) {
    (low as int) + 0x100 * high == Crc(content) as int
  }

  lemma CrcBytes(c: bv16, low: byte, high: byte)
    ensures low == CrcLow(c) && high == CrcHigh(c) <==> (low as int) + 0x100 * high == c as int
  {
  }

  /** A reply is valid if and only if its checksum is that of its content. */
  lemma ReplyIsValid(content: seq<byte>, low: byte, high: byte)
    requires |content| < 0x100
    ensures var b := ReplyBytes(content, low, high);
            ValidResponse(b, |b|) <==> ChecksumMatches(content, low, high)
  {
    hide Crc, ValidResponse;
    var b := ReplyBytes(content, low, high);
    assert ContentOf(b) == content;
    ValidExactly(b);
  }

  /** The bytes the length field asks for, from where the content starts; the buffer was filled with 0xFF. */
  function ContentOf(b: seq<byte>): seq<byte>
    requires |b| >= 6
  {
    var n := (b[3] as int) * 0x100 + b[2];
    (b + seq<byte>(n, i => 0xFF))[4..4 + n]
  }

  /** Which answers are valid, whatever their length field says. */
  lemma ValidExactly(b: seq<byte>)
    requires |b| >= 6
    ensures ValidResponse(b, |b|)
       <==> b[0] == 0 && b[1] == 0x80 && ChecksumMatches(ContentOf(b), b[|b| - 2], b[|b| - 1])
  {
    hide Crc, CrcLow, CrcHigh;
    var n := (b[3] as int) * 0x100 + b[2];
    assert Bytes(b, 4, n) == ContentOf(b);
    CrcBytes(Crc(ContentOf(b)), b[|b| - 2], b[|b| - 1]);
  }

  /** A message is an acknowledgement if and only if its code is 0 and its checksum right. */
  lemma AcknowledgedExactly(command: byte, code: byte, low: byte, high: byte)
    ensures Acknowledged(ReplyBytes([command, code], low, high))
       <==> command == 0x3B && code == 0 && ChecksumMatches([command, code], low, high)
  {
    ReplyIsValid([command, code], low, high);
    hide ValidResponse, Crc;
    var b := ReplyBytes([command, code], low, high);
    assert |b| == 8 && Byte(b, 4) == command && Byte(b, 5) == code;
  }

  /** Of the messages of two bytes, one is an acknowledgement. */
  lemma TheAcknowledgement(b: seq<byte>)
    requires |b| == 8 && b[2] == 2 && b[3] == 0
    ensures Acknowledged(b) <==> b == [0, 0x80, 2, 0, 0x3B, 0, 0x60, 0xC4]
  {
    KnownChecksums();
    hide Crc, ValidResponse;
    if b[0] == 0 && b[1] == 0x80 {
      assert b == ReplyBytes([b[4], b[5]], b[6], b[7]);
      AcknowledgedExactly(b[4], b[5], b[6], b[7]);
      assert b[4] == 0x3B && b[5] == 0 ==> [b[4], b[5]] == [0x3B, 0];
      BytesOf(b[6], b[7]);
    } else {
      ValidExactly(b);
    }
  }

  lemma BytesOf(low: byte, high: byte)
    ensures (low as int) + 0x100 * high == 0xC460 as bv16 as int <==> low == 0x60 && high == 0xC4
  {
  }

  // --- Preparation on the line --------------------------------------------------------------------

  /** The answer arrived in time and has the size asked for. */
  predicate Answers(w: Wire, size: nat) {
    w.armed && w.sent && w.inTime && |w.received| == size
  }

  predicate Acknowledges(w: Wire) {
    Answers(w, 8) && Acknowledged(w.received)
  }

  /** The running firmware answers with the start of a message. */
  predicate FromFirmware(w: Wire, size: nat) {
    Answers(w, size) && size >= 2 && w.received[0] == 0x5C && w.received[1] == 2
  }

  /** The boot loader answers what it takes for an unknown request, or synchronises. */
  predicate FromBootLoader(w: Wire, size: nat) {
    Answers(w, size) && ((size == 8 && ValidResponse(w.received, 8)) || (size == 1 && w.received[0] == 0))
  }

  /**
   The first state: one answer of the firmware leads to the request for the boot loader; three of the boot
   loader, with nothing wrong in between, skip it; the update fails after five bad turns at the last size.
   */
  lemma SyncOnTheLine(m: Fsm, w: Wire, vck5000: bool)
    requires m.state == SyncScBsl && Consistent(m)
    ensures var next := PrepareStep(m, AnswerFor(m, w, vck5000));
            && (next.state == EnableBsl <==> FromFirmware(w, m.stage))
            && (next.state == UnlockBsl <==> FromBootLoader(w, m.stage) && m.mode == 2)
            && (next.state == Idle <==> !FromFirmware(w, m.stage) && !FromBootLoader(w, m.stage)
                                        && m.stage == 1 && m.syncRetries == 4)
            && (next.state == Idle ==> next.status == Failure && ErrorCode(next.error) == 0xE1)
            && (next.state == SyncScBsl && FromBootLoader(w, m.stage) ==> next == m.(mode := m.mode + 1))
            && (next.state == SyncScBsl && !Answers(w, m.stage) && m.syncRetries < 4 ==>
                  next == m.(syncRetries := m.syncRetries + 1))
            && (next.state == SyncScBsl && m.syncRetries == 4 && !FromBootLoader(w, m.stage) ==>
                  next.mode == 0 && next.syncRetries == 0 && next.stage == if m.stage == 11 then 8 else 1)
  {
    hide Crc, Counters;
    WithinCounters(m);
    assert FromFirmware(w, m.stage) ==> !FromBootLoader(w, m.stage);
  }

  lemma WithinCounters(m: Fsm)
    requires Consistent(m)
    ensures m.stage in {11, 8, 1} && m.mode < 3 && m.syncRetries < 5
  {
  }

  /** What each of the other states waits for, and where the updater goes when it comes. */
  lemma RetriesOnTheLine(m: Fsm, w: Wire, vck5000: bool)
    requires Consistent(m)
    ensures m.state == EnableBsl ==>
      (PrepareStep(m, AnswerFor(m, w, vck5000)).state == SyncVmcBsl
       <==> Answers(w, 11) && w.received[0] == 0x5C && w.received[2] == 0xFE)
    ensures m.state == SyncVmcBsl ==>
      (PrepareStep(m, AnswerFor(m, w, vck5000)).state == UnlockBsl
       <==> Answers(w, if vck5000 then 1 else 9) && w.received[0] == 0)
    ensures m.state == UnlockBsl ==>
      (PrepareStep(m, AnswerFor(m, w, vck5000)).state == MassErase <==> Acknowledges(w))
    ensures m.state == MassErase ==>
      (PrepareStep(m, AnswerFor(m, w, vck5000)).state == SendData <==> Acknowledges(w))
    ensures LoadPcAccepted(w) <==> Answers(w, 1) && w.received[0] == 0
    ensures Retrying(m.state) ==>
      var next := PrepareStep(m, AnswerFor(m, w, vck5000));
      && (next.state == Idle ==> Retries(m) == 4 && next.status == Failure)
      && (next.state == m.state ==> Retries(m) < 4 && Retries(next) == Retries(m) + 1)
      && (next.state == Idle ==> ErrorCode(next.error) == match m.state
            case EnableBsl => 0xE2 case SyncVmcBsl => 0xE3 case UnlockBsl => 0xE4 case _ => 0xE5)
  {
    hide Acknowledged;
  }

  // --- Data packets on the line -------------------------------------------------------------------

  /** The device answered, and not with an acknowledgement. */
  predicate Refuses(w: Wire) {
    Answers(w, 8) && !Acknowledged(w.received)
  }

  /** The device read something else back: a valid answer that is not the checksum of `data`. */
  predicate Contradicts(w: Wire, data: seq<byte>) {
    && Answers(w, 9) && ValidResponse(w.received, 9)
    && !(w.received[4] == 0x3A && ChecksumMatches(data, w.received[5], w.received[6]))
  }

  /** A read-back with a right checksum of its own fails if and only if it does not carry that of the data. */
  lemma ContradictsExactly(command: byte, low: byte, high: byte, own: byte, own': byte, data: seq<byte>)
    ensures Contradicts(Wire(true, true, true, ReplyBytes([command, low, high], own, own')), data)
       <==> ChecksumMatches([command, low, high], own, own') && !(command == 0x3A && ChecksumMatches(data, low, high))
  {
    ReplyIsValid([command, low, high], own, own');
    hide ValidResponse, Crc;
    var b := ReplyBytes([command, low, high], own, own');
    assert |b| == 9 && b[4] == command && b[5] == low && b[6] == high;
  }

  /** The bytes of a data packet: header, length, command, address, data and their checksum. */
  lemma PacketBytes(p: Packet)
    requires |p.data| <= MAX_DATA
    ensures var f, n := Framed(p), |p.data|;
            && |f| == n + 10 && f[0] == 0x80 && f[1] as int + 0x100 * (f[2] as int) == n + 5 && f[3] == 0x20
            && FromLittleEndian(f[4..8]) == p.address && f[8..8 + n] == p.data
            && ChecksumMatches(f[3..8 + n], f[8 + n], f[9 + n])
  {
    hide Crc, CrcLow, CrcHigh, FromLittleEndian, LittleEndian;
    var f, n := Framed(p), |p.data|;
    LittleEndianRoundTrip(p.address, 4);
    assert Pow256(4) == 0x1_0000_0000;
    assert f[4..8] == LittleEndian(p.address, 4) && f[8..8 + n] == p.data && f[3..8 + n] == Core(p);
    CrcBytes(Crc(Core(p)), f[8 + n], f[9 + n]);
  }

  /** When packet `k` is sent: an acknowledged packet is read back before the next. */
  function SendTime(line: nat -> Wire, t: nat, k: nat): nat {
    if k == 0 then t
    else
      var u := SendTime(line, t, k - 1);
      u + if Acknowledges(line(u)) then 2 else 1
  }

  /** What became of a packet sent with answer `w` and read-back `w'`. */
  ghost predicate Became(v: Verdict, w: Wire, w': Wire, data: seq<byte>) {
    && (v == Unsent <==> !(w.armed && w.sent))
    && (v == Unheard <==> w.armed && w.sent && !(w.inTime && |w.received| == 8))
    && (v == Rejected <==> Refuses(w))
    && (v == CrcMismatch <==> Acknowledges(w) && Contradicts(w', data))
    && (v == Passed <==> Acknowledges(w) && !Contradicts(w', data))
  }

  lemma FailsIsContradicts(w: Wire, data: seq<byte>)
    ensures ReadBackFails(Heard(w, 9), Crc(data)) <==> Contradicts(w, data)
  {
    hide ValidResponse, Crc, CrcLow, CrcHigh;
    if Answers(w, 9) {
      CrcBytes(Crc(data), w.received[5], w.received[6]);
    }
  }

  lemma JudgeIs(line: nat -> Wire, t: nat, data: seq<byte>)
    ensures var (v, n) := Judge(line, t, Crc(data));
            Became(v, line(t), line(t + 1), data) && n == if Acknowledges(line(t)) then 2 else 1
  {
    hide Acknowledged, Crc, Contradicts, ReadBackFails;
    FailsIsContradicts(line(t + 1), data);
  }

  lemma {:induction false} SendTimeShift(line: nat -> Wire, t: nat, k: nat)
    requires k > 0
    ensures SendTime(line, t, k) == SendTime(line, t + (if Acknowledges(line(t)) then 2 else 1), k - 1)
  {
    hide Acknowledges;
    if k > 1 {
      SendTimeShift(line, t, k - 1);
    }
  }

  /** What becomes of each packet is read off the line at the time it is sent. */
  lemma {:induction false} VerdictIs(line: nat -> Wire, t: nat, packets: seq<Packet>, k: nat)
    requires k < |Verdicts(line, t, packets)|
    ensures k < |packets|
    ensures var u := SendTime(line, t, k);
            Became(Verdicts(line, t, packets)[k], line(u), line(u + 1), packets[k].data)
    decreases k
  {
    hide Judge, Crc, Became, Acknowledges, Tolerated;
    JudgeIs(line, t, packets[0].data);
    if k > 0 {
      SendTimeShift(line, t, k);
      var (v, n) := Judge(line, t, Crc(packets[0].data));
      VerdictIs(line, t + n, packets[1..], k - 1);
    }
  }

  /** The next packet is sent after this one was not heard of, or was acknowledged and not contradicted. */
  predicate GoesOn(w: Wire, w': Wire, data: seq<byte>) {
    !Answers(w, 8) || (Acknowledges(w) && !Contradicts(w', data))
  }

  lemma BecameTolerated(v: Verdict, w: Wire, w': Wire, data: seq<byte>)
    requires Became(v, w, w', data)
    ensures Tolerated(v) <==> GoesOn(w, w', data)
    ensures Refuses(w) ==> !Tolerated(v) && ErrorCode(ErrorOf(v)) == 0xE8
    ensures Acknowledges(w) && Contradicts(w', data) ==> !Tolerated(v) && ErrorCode(ErrorOf(v)) == 0xE7
  {
    hide Acknowledged, Contradicts;
  }

  /**
   Over the line: the delivery goes on, and succeeds after its last packet, exactly while packets are
   acknowledged or not heard of. A packet the device refused, or read back otherwise, is the last one sent,
   and settles the code.
   */
  ghost predicate OnTheLine(line: nat -> Wire, t: nat, packets: seq<Packet>, vs: seq<Verdict>, code: byte) {
    && |vs| <= |packets| && (packets != [] ==> vs != [])
    && forall k {:trigger vs[k]} | 0 <= k < |vs| ::
         var u := SendTime(line, t, k);
         && Became(vs[k], line(u), line(u + 1), packets[k].data)
         && (GoesOn(line(u), line(u + 1), packets[k].data) <==> if k + 1 < |packets| then k + 1 < |vs| else code == 0)
         && (Refuses(line(u)) ==> |vs| == k + 1 && code == 0xE8)
         && (Acknowledges(line(u)) && Contradicts(line(u + 1), packets[k].data) ==> |vs| == k + 1 && code == 0xE7)
  }

  lemma DeliveryOnTheLine(line: nat -> Wire, t: nat, packets: seq<Packet>, m: Fsm, vck5000: bool)
    requires packets != [] && m.error == NoError
    ensures var vs := Verdicts(line, t, packets);
            OnTheLine(line, t, packets, vs, ErrorCode(SendStep(m, vs, vck5000).error))
  {
    hide Became, GoesOn, Refuses, Acknowledges, Contradicts, Verdicts, Tolerated, SendStep;
    var vs := Verdicts(line, t, packets);
    VerdictsStop(line, t, packets);
    CodeIs(m, vs, vck5000);
    forall k | 0 <= k < |vs|
      ensures var u := SendTime(line, t, k);
              Became(vs[k], line(u), line(u + 1), packets[k].data)
              && (Tolerated(vs[k]) <==> GoesOn(line(u), line(u + 1), packets[k].data))
              && (Refuses(line(u)) ==> !Tolerated(vs[k]) && ErrorCode(ErrorOf(vs[k])) == 0xE8)
              && (Acknowledges(line(u)) && Contradicts(line(u + 1), packets[k].data) ==>
                    !Tolerated(vs[k]) && ErrorCode(ErrorOf(vs[k])) == 0xE7)
    {
      var u := SendTime(line, t, k);
      VerdictIs(line, t, packets, k);
      BecameTolerated(vs[k], line(u), line(u + 1), packets[k].data);
    }
  }

  /** The code is that of the packet that failed, which is the last. */
  lemma CodeIs(m: Fsm, vs: seq<Verdict>, vck5000: bool)
    requires m.error == NoError && vs != [] && forall i | 0 <= i < |vs| - 1 :: Tolerated(vs[i])
    ensures var code, v := ErrorCode(SendStep(m, vs, vck5000).error), vs[|vs| - 1];
            code == (if Tolerated(v) then 0 else ErrorCode(ErrorOf(v))) && (code == 0 <==> Tolerated(v))
  {
    assert AllTolerated(vs) <==> Tolerated(vs[|vs| - 1]);
  }

  /**
   The code of an update whose preparation ended in `d` at time `u`: without preparation there is no data
   and a code of its own; with it the data decides.
   */
  ghost predicate CodeDecided(line: nat -> Wire, d: Fsm, u: nat, sections: seq<Section>, vs: seq<Verdict>, code: byte) {
    && (d.state != SendData ==> vs == [] && code in {0xE1, 0xE2, 0xE3, 0xE4, 0xE5})
    && (d.state == SendData && sections == [] ==> vs == [] && code == 0xE6)
    && (d.state == SendData && sections != [] ==> OnTheLine(line, u, Packets(Start(sections)), vs, code))
  }

  lemma UpdateOnTheLine(line: nat -> Wire, t: nat, m: Fsm, sections: seq<Section>, vck5000: bool)
    requires Consistent(m) && Preparing(m.state)
    ensures var (d, u) := Prepared(line, t, m, vck5000);
            var f := Decided(line, t, m, sections, vck5000);
            CodeDecided(line, d, u, sections, f.verdicts, ErrorCode(f.after.error))
  {
    hide OnTheLine, Verdicts, SendStep, SentBy, Prepared, PrepareStep, Packets, Budget;
    PreparationEnds(line, t, m, vck5000);
    var (d, u) := Prepared(line, t, m, vck5000);
    if d.state != SendData {
      PreparationCode(line, t, m, vck5000);
    } else if sections != [] {
      SomePackets(sections);
      DeliveryOnTheLine(line, u, Packets(Start(sections)), d, vck5000);
    }
  }

  lemma SomePackets(sections: seq<Section>)
    requires sections != []
    ensures Packets(Start(sections)) != []
  {
  }

  /** A preparation that fails, fails with the code of one of its states. */
  lemma {:induction false} PreparationCode(line: nat -> Wire, t: nat, m: Fsm, vck5000: bool)
    requires Consistent(m) && Preparing(m.state) && Prepared(line, t, m, vck5000).0.state != SendData
    ensures ErrorCode(Prepared(line, t, m, vck5000).0.error) in {0xE1, 0xE2, 0xE3, 0xE4, 0xE5}
    decreases Budget(m)
  {
    hide PrepareStep, Budget, Consistent, AnswerFor, Counters;
    var r := AnswerFor(m, line(t), vck5000);
    PrepareStepCorrect(m, r);
    var next := PrepareStep(m, r);
    if Preparing(next.state) {
      PreparationCode(line, t + 1, next, vck5000);
    } else if m.state == SyncScBsl {
      SyncLeaves(m, r);
    } else {
      RetryAnswer(m, r);
    }
  }
}
