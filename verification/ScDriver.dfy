/** The updater itself: its handlers, the data loop over the parser, and the loop around them. */
module ScDriver {
  import opened Machine
  import opened Crc16
  import opened ScImage
  import opened ScParser
  import opened ScUpdate
  import opened ScWire

  class Updater {
    const line: nat -> Wire      // what the serial line does, transaction by transaction
    const vck5000: bool
    const text: seq<byte>        // the image behind its header
    const parser: Parser
    const pkt: array<byte>
    var clock: nat               // transactions so far
    var state: State
    var status: Status
    var error: Error
    var stage: nat
    var mode: nat
    var syncRetries: nat
    var enableRetries: nat
    var syncedRetries: nat
    var unlockRetries: nat
    var eraseRetries: nat
    ghost var blocks: seq<seq<byte>>   // data packets of this update, as sent
    ghost var verdicts: seq<Verdict>   // what became of them
    ghost var trace: seq<State>        // states of this update

    constructor (line: nat -> Wire, vck5000: bool, text: seq<byte>)
      ensures Ready() && this.line == line && this.vck5000 == vck5000 && this.text == text
      ensures fresh(parser) && fresh(pkt) && clock == 0 && BegunFrom(View()) == Begun()
    {
      this.line, this.vck5000, this.text := line, vck5000, text;
      parser := new Parser();
      pkt := new byte[266];
      clock, state, status, error, stage, mode := 0, Idle, Success, NoError, SC_MODE_SIZE, 0;
      syncRetries, enableRetries, syncedRetries, unlockRetries, eraseRetries := 0, 0, 0, 0, 0;
      blocks, verdicts, trace := [], [], [];
    }

    ghost function View(): Fsm
      reads this
    {
      Fsm(state, status, error, stage, mode, syncRetries, enableRetries, syncedRetries, unlockRetries, eraseRetries)
    }

    /** Between two updates. */
    ghost predicate Ready()
      reads this
    {
      Counters(View()) && state == Idle && status != InProgress && error == NoError && pkt.Length == 266
    }

    /** One request on the line, and the wait for `size` bytes of answer if one is expected. */
    method Transaction(receive: bool, size: nat) returns (r: Reply)
      modifies this`clock
      ensures clock == old(clock) + 1
      ensures receive ==> r == Heard(line(old(clock)), size)
      ensures !receive ==> (r.Received? <==> line(old(clock)).sent)
    {
      var wire := line(clock);
      clock := clock + 1;
      r := NotSent;
      if receive && !wire.armed {
        return;
      }
      if wire.sent {
        r := Received([]);
      }
      if receive && r.Received? {
        r := Unanswered;
        if wire.inTime {
          if size == |wire.received| {
            r := Received(wire.received);
          }
        }
      }
    }

    method SyncScBsl()
      requires state == State.SyncScBsl
      modifies this`clock, this`state, this`status, this`error, this`stage, this`mode, this`syncRetries
      ensures clock == old(clock) + 1
      ensures View() == SyncStep(old(View()), old(AnswerFor(View(), line(clock), vck5000)))
    {
      hide ValidResponse, Heard;
      var r := Transaction(true, stage);
      if r.Received? {
        if InScMode(r.buffer) {
          mode, syncRetries, state := 0, 0, State.EnableBsl;
        } else if stage == UNKNOWN_MSG_SIZE && ValidResponse(r.buffer, stage) && mode <= MODE_CONFIRMATIONS {
          mode := mode + 1;
          if mode >= MODE_CONFIRMATIONS {
            mode, syncRetries, state, stage := 0, 0, State.UnlockBsl, SC_MODE_SIZE;
          }
        } else if stage == SYNCED_SIZE && Byte(r.buffer, 0) == 0 && mode <= MODE_CONFIRMATIONS {
          mode := mode + 1;
          if mode >= MODE_CONFIRMATIONS {
            mode, syncRetries, state, stage := 0, 0, State.UnlockBsl, SC_MODE_SIZE;
          }
        } else {
          syncRetries, mode, state := syncRetries + 1, 0, State.SyncScBsl;
        }
      } else {
        syncRetries := syncRetries + 1;
      }
      if syncRetries >= MAX_RETRY {
        if stage == SYNCED_SIZE {
          syncRetries, mode := 0, 0;
          status, state, error, stage := Failure, Idle, ScBslSyncFailed, SC_MODE_SIZE;
          return;
        }
        if stage == SC_MODE_SIZE {
          stage := UNKNOWN_MSG_SIZE;
        } else if stage == UNKNOWN_MSG_SIZE {
          stage := SYNCED_SIZE;
        }
        syncRetries, mode := 0, 0;
      }
    }

    method EnableScBsl()
      requires state == EnableBsl
      modifies this`clock, this`state, this`status, this`error, this`enableRetries
      ensures clock == old(clock) + 1
      ensures View() == EnableStep(old(View()), old(AnswerFor(View(), line(clock), vck5000)))
    {
      hide Heard;
      var r := Transaction(true, SC_MODE_SIZE);
      if r.Received? {
        if BslEnabled(r.buffer) {
          enableRetries, state := 0, State.SyncVmcBsl;
        } else {
          enableRetries, state := enableRetries + 1, EnableBsl;
        }
      } else {
        enableRetries := enableRetries + 1;
      }
      if enableRetries >= MAX_RETRY {
        enableRetries, error, status, state := 0, EnableBslFailed, Failure, Idle;
      }
    }

    method SyncVmcBsl()
      requires state == State.SyncVmcBsl
      modifies this`clock, this`state, this`status, this`error, this`syncedRetries
      ensures clock == old(clock) + 1
      ensures View() == SyncedStep(old(View()), old(AnswerFor(View(), line(clock), vck5000)))
    {
      hide Heard;
      var bytesToReceive := SYNCED_SIZE;
      if !vck5000 {
        bytesToReceive := SYNCED_SIZE + UNKNOWN_MSG_SIZE;
      }
      var r := Transaction(true, bytesToReceive);
      if r.Received? {
        if Byte(r.buffer, 0) == 0 {
          syncedRetries, state := 0, State.UnlockBsl;
        } else {
          syncedRetries, state := syncedRetries + 1, State.SyncVmcBsl;
        }
      } else {
        syncedRetries := syncedRetries + 1;
      }
      if syncedRetries >= MAX_RETRY {
        syncedRetries, error, status, state := 0, VmcBslSyncFailed, Failure, Idle;
      }
    }

    method UnlockBsl()
      requires state == State.UnlockBsl
      modifies this`clock, this`state, this`status, this`error, this`unlockRetries
      ensures clock == old(clock) + 1
      ensures View() == UnlockStep(old(View()), old(AnswerFor(View(), line(clock), vck5000)))
    {
      hide ValidResponse, Heard;
      var r := Transaction(true, BSL_RESPONSE_SIZE);
      if r.Received? {
        if ValidResponse(r.buffer, 8) {
          if Byte(r.buffer, 4) == 0x3B && Byte(r.buffer, 5) == 0 {
            unlockRetries, state := 0, State.MassErase;
          } else {
            unlockRetries, state := unlockRetries + 1, State.UnlockBsl;
          }
        } else {
          unlockRetries, state := unlockRetries + 1, State.UnlockBsl;
        }
      } else {
        unlockRetries := unlockRetries + 1;
      }
      if unlockRetries >= MAX_RETRY {
        unlockRetries, error, status, state := 0, UnlockFailed, Failure, Idle;
      }
    }

    method MassEraseBsl()
      requires state == MassErase
      modifies this`clock, this`state, this`status, this`error, this`eraseRetries
      ensures clock == old(clock) + 1
      ensures View() == EraseStep(old(View()), old(AnswerFor(View(), line(clock), vck5000)))
    {
      hide ValidResponse, Heard;
      var r := Transaction(true, BSL_RESPONSE_SIZE);
      if r.Received? {
        if ValidResponse(r.buffer, 8) {
          if Byte(r.buffer, 4) == 0x3B && Byte(r.buffer, 5) == 0 {
            eraseRetries, state := 0, SendData;
          } else {
            eraseRetries, state := eraseRetries + 1, MassErase;
          }
        } else {
          eraseRetries, state := eraseRetries + 1, MassErase;
        }
      } else {
        eraseRetries := eraseRetries + 1;
      }
      if eraseRetries >= MAX_RETRY {
        eraseRetries, error, status, state := 0, EraseFailed, Failure, Idle;
      }
    }

    /** One call of whichever handler the state before the data asks for. */
    method PrepareCall()
      requires Preparing(state)
      modifies this`clock, this`state, this`status, this`error, this`stage, this`mode, this`syncRetries,
               this`enableRetries, this`syncedRetries, this`unlockRetries, this`eraseRetries
      ensures clock == old(clock) + 1
      ensures View() == PrepareStep(old(View()), old(AnswerFor(View(), line(clock), vck5000)))
    {
      hide SyncStep, EnableStep, SyncedStep, UnlockStep, EraseStep;
      match state
      case SyncScBsl => SyncScBsl();
      case EnableBsl => EnableScBsl();
      case SyncVmcBsl => SyncVmcBsl();
      case UnlockBsl => UnlockBsl();
      case MassErase => MassEraseBsl();
    }

    /** The read-back of a packet: asks the device for its checksum over the bytes written. */
    method MatchCrcPostWrite(crc: bv16) returns (ok: bool)
      modifies this`clock
      ensures clock == old(clock) + 1
      ensures ok == !ReadBackFails(Heard(line(old(clock)), CRC_RESPONSE_SIZE), crc)
    {
      hide ValidResponse, CrcLow, CrcHigh;
      ok := true;
      var r := Transaction(true, CRC_RESPONSE_SIZE);
      if r.Received? {
        if ValidResponse(r.buffer, 9) {
          if Byte(r.buffer, 4) == 0x3A {
            if CrcLow(crc) != Byte(r.buffer, 5) || CrcHigh(crc) != Byte(r.buffer, 6) {
              ok := false;
            }
          } else {
            ok := false;
          }
        }
      }
    }

    /** Cuts the next packet, sends it and judges the answer. */
    method SendPacket(ghost c: Cursor) returns (v: Verdict)
      requires pkt.Length == 266 && !c.Finished? && parser.At(text, c)
      modifies this`clock, this`blocks, this`verdicts, parser, pkt
      ensures parser.At(text, AfterPacket(c)) && parser.dataPtr > old(parser.dataPtr)
      ensures v == Judge(line, old(clock), Crc(NextPacket(c).data)).0
      ensures clock == old(clock) + Judge(line, old(clock), Crc(NextPacket(c).data)).1
      ensures Became(v, line(old(clock)), line(old(clock) + 1), NextPacket(c).data)
      ensures blocks == old(blocks) + [Framed(NextPacket(c))] && verdicts == old(verdicts) + [v]
    {
      hide ValidResponse, ReadBackFails, Framed, Crc, NextPacket, AfterPacket, Parser.At, Became;
      var totalLength := parser.ParseFptSc(text, pkt, c);
      blocks := blocks + [pkt[..totalLength]];
      var r := Transaction(true, BSL_RESPONSE_SIZE);
      v := if r.NotSent? then Unsent else Unheard;
      if r.Received? {
        if ValidResponse(r.buffer, 8) {
          if Byte(r.buffer, 4) == 0x3B && Byte(r.buffer, 5) == 0 {
            var ok := MatchCrcPostWrite(parser.dataCrc);
            v := if ok then Passed else CrcMismatch;
          } else {
            v := Rejected;
          }
        } else {
          v := Rejected;
        }
      }
      verdicts := verdicts + [v];
      JudgeIs(line, old(clock), NextPacket(c).data);
    }

    /** All packets up to the first that fails. */
    method SendPackets(ghost sections: seq<Section>)
      requires pkt.Length == 266 && sections != []
      requires parser.At(text, Start(sections)) && blocks == [] && verdicts == []
      requires status == InProgress
      modifies this`clock, this`status, this`error, this`blocks, this`verdicts, parser, pkt
      ensures verdicts == Verdicts(line, old(clock), Packets(Start(sections)))
      ensures clock == SentBy(line, old(clock), Packets(Start(sections)))
      ensures |verdicts| <= |Packets(Start(sections))| == |Frames(Packets(Start(sections)))|
      ensures blocks == Frames(Packets(Start(sections)))[..|verdicts|]
      ensures status == (if AllTolerated(verdicts) then InProgress else Failure)
      ensures error == if AllTolerated(verdicts) then old(error) else ErrorOf(verdicts[|verdicts| - 1])
    {
      hide Judge, Framed, Crc, NextPacket, AfterPacket, From, Suffix, Tolerated, Packets, Verdicts, SentBy, Frames;
      ghost var c := Start(sections);
      ghost var packets := Packets(c);
      FramesLength(packets);
      while !parser.allSent
        invariant parser.At(text, c)
        invariant status == InProgress && error == old(error) && AllTolerated(verdicts)
        invariant verdicts + Verdicts(line, clock, Packets(c)) == Verdicts(line, old(clock), packets)
        invariant SentBy(line, clock, Packets(c)) == SentBy(line, old(clock), packets)
        invariant blocks + Frames(Packets(c)) == Frames(packets) && |blocks| == |verdicts|
        decreases |Packets(c)|
      {
        SendOne(line, clock, c);
        var v := SendPacket(c);
        c := AfterPacket(c);
        if !Tolerated(v) {
          status, error := Failure, ErrorOf(v);
          assert !Tolerated(verdicts[|verdicts| - 1]);
          assert verdicts == Verdicts(line, old(clock), packets);
          return;
        }
      }
      NothingToSend(line, clock);
    }

    lemma AtStart(sections: seq<Section>)
      requires text == Text(sections) && sections != []
      requires parser.dataPtr == 0 && !parser.allSent && parser.addrFlag
      ensures parser.At(text, Start(sections))
    {
      hide SectionText;
      assert text[0..] == text;
    }

    method SendDataToBsl(ghost sections: seq<Section>)
      requires pkt.Length == 266 && state == SendData && Consistent(View()) && text == Text(sections)
      requires blocks == [] && verdicts == []
      modifies this`clock, this`state, this`status, this`error, this`blocks, this`verdicts, parser, pkt
      ensures sections == [] ==> View() == Failed(old(View()), InvalidSymbol) && unchanged(`clock, `verdicts, `blocks)
      ensures sections != [] ==>
        && verdicts == Verdicts(line, old(clock), Packets(Start(sections)))
        && clock == SentBy(line, old(clock), Packets(Start(sections)))
        && View() == SendStep(old(View()), verdicts, vck5000)
        && |verdicts| <= |Packets(Start(sections))| == |Frames(Packets(Start(sections)))|
        && blocks == Frames(Packets(Start(sections)))[..|verdicts|]
    {
      hide Verdicts, SentBy, Packets, Frames, Text, Parser.At, AllTolerated, ErrorOf, Counters;
      parser.dataPtr, parser.allSent := 0, false;
      var startSymbol := text[0];
      if startSymbol != SECTION_START {
        status, state, error := Failure, Idle, InvalidSymbol;
        return;
      }
      parser.addrFlag := true;
      AtStart(sections);
      SendPackets(sections);
      parser.addrFlag, parser.dataPtr := false, 0;
      if status != Failure {
        state := LoadPc;
      } else if vck5000 {
        state, status := Reboot, InProgress;
      } else {
        state, status := Idle, Failure;
      }
    }

    method LoadPcBsl()
      requires state == LoadPc
      modifies this`clock, this`state, this`status
      ensures clock == old(clock) + 1
      ensures Ends(line(old(clock)), LoadPc) ==> state == Idle && status == Success
      ensures !Ends(line(old(clock)), LoadPc) ==> state == old(state) && status == old(status)
    {
      var r := Transaction(true, LOAD_PC_SIZE);
      if r.Received? {
        if Byte(r.buffer, 0) == 0 {
          status, state := Success, Idle;
        }
      }
    }

    method RebootBsl()
      requires state == Reboot
      modifies this`clock, this`state, this`status
      ensures clock == old(clock) + 1
      ensures Ends(line(old(clock)), Reboot) ==> state == Idle && status == Success
      ensures !Ends(line(old(clock)), Reboot) ==> state == old(state) && status == old(status)
    {
      var r := Transaction(false, 0);
      if r.Received? {
        status, state := Success, Idle;
      }
    }

    /** Every packet of the image went out, framed, in order, and none failed. */
    ghost predicate Delivered(sections: seq<Section>)
      reads this`verdicts, this`blocks
    {
      && sections != [] && AllTolerated(verdicts)
      && |verdicts| == |Packets(Start(sections))|
      && blocks == Frames(Packets(Start(sections)))
    }

    /**
     The device holds the image if and only if every packet with data arrived, whatever may have become of
     the packets that drew no answer.
     */
    ghost predicate ImageExactly(sections: seq<Section>)
      reads this`verdicts, this`blocks
    {
      && Delivered(sections)
      && forall got :: Arrival(verdicts, got) ==>
           && |got| == |blocks| == |Packets(Start(sections))|
           && (Stored(blocks, got) == Denotes(sections) <==> DataArrived(Packets(Start(sections)), got))
    }

    /** What went out is the start of the image's packets, in order, as many as there are verdicts. */
    ghost predicate SentInOrder(sections: seq<Section>)
      reads this`verdicts, this`blocks
    {
      var frames := if sections == [] then [] else Frames(Packets(Start(sections)));
      |verdicts| <= |frames| && blocks == frames[..|verdicts|]
    }

    /**
     What the loop keeps, for an update with fate `f`; `calls` counts the handler calls before the data
     state.
     */
    ghost predicate Going(sections: seq<Section>, f: Fate, calls: nat)
      reads this
    {
      && Consistent(View()) && pkt.Length == 266
      && PathTo(trace, state)
      && calls + Budget(View()) <= 65
      && (LoadPc in trace <==> state == LoadPc || (state == Idle && error == NoError))
      && (LoadPc in trace <==> Delivered(sections))
      && SentInOrder(sections)
      && if state in {LoadPc, Reboot, Idle} then Standing(line, f, View(), clock) && verdicts == f.verdicts
         else blocks == [] && verdicts == [] && f == Decided(line, clock, View(), sections, vck5000)
    }

    /** One turn of the loop before the data state. */
    method PrepareTurn(ghost sections: seq<Section>, ghost f: Fate, ghost calls: nat)
      requires Going(sections, f, calls) && Preparing(state)
      modifies this`clock, this`state, this`status, this`error, this`stage, this`mode, this`syncRetries,
               this`enableRetries, this`syncedRetries, this`unlockRetries, this`eraseRetries, this`trace
      ensures Going(sections, f, calls + 1) && (Preparing(state) || state in {SendData, Idle})
      ensures Budget(View()) < Budget(old(View()))
    {
      hide Counters, Follows, PrepareStep, Packets, Frames, AllTolerated, Start, PathTo, Budget, Decided, AnswerFor;
      PrepareStepCorrect(View(), AnswerFor(View(), line(clock), vck5000));
      DecidedNext(line, clock, View(), sections, vck5000);
      ghost var before := state;
      PrepareCall();
      if state == Idle {
        FailedIsDecided(line, clock, View(), sections, vck5000);
      }
      ExtendPath(trace, before, state);
      trace := trace + [state];
    }

    method SendTurn(ghost sections: seq<Section>, ghost f: Fate, ghost calls: nat)
      requires Going(sections, f, calls) && state == SendData && text == Text(sections)
      modifies this`clock, this`state, this`status, this`error, this`blocks, this`verdicts, this`trace, parser, pkt
      ensures Going(sections, f, calls) && state in {LoadPc, Reboot, Idle}
    {
      hide Counters, PrepareStep, SendStep, Verdicts, SentBy, Packets, Frames, AllTolerated, Start, PathTo, Text;
      hide Decided;
      ghost var m, t := View(), clock;
      DataIsDecided(line, t, m, sections, vck5000);
      SendDataToBsl(sections);
      if sections != [] {
        SomePacket(sections);
        SendStepCorrect(m, line, t, Packets(Start(sections)), vck5000);
      } else {
        FailStep(m, InvalidSymbol);
      }
      NoBudget(m, View());
      ExtendPath(trace, SendData, state);
      trace := trace + [state];
    }

    /** One attempt to start the program, or to reboot. */
    method FinishTurn(ghost sections: seq<Section>, ghost f: Fate, ghost calls: nat)
      requires Going(sections, f, calls) && state in {LoadPc, Reboot}
      modifies this`clock, this`state, this`status, this`trace
      ensures Going(sections, f, calls)
      ensures state == if Ends(line(old(clock)), f.after.state) then Idle else old(state)
      ensures old(clock) < clock
    {
      hide Counters, Follows, PrepareStep, PathTo, Delivered, Budget, Ends, SentInOrder, Decided, Standing;
      ghost var m, t := View(), clock;
      if state == LoadPc {
        LoadPcBsl();
      } else {
        RebootBsl();
      }
      FinishStep(m, View());
      StandingNext(line, f, m, t, View());
      ExtendPath(trace, m.state, state);
      trace := trace + [state];
    }

    /** One turn of the loop, whatever the state. */
    method Turn(ghost sections: seq<Section>, ghost f: Fate, ghost calls: nat) returns (ghost more: nat)
      requires Going(sections, f, calls) && status == InProgress && text == Text(sections)
      modifies this, parser, pkt
      ensures Going(sections, f, more)
      ensures old(state) in {LoadPc, Reboot} ==>
        && state == (if Ends(line(old(clock)), f.after.state) then Idle else old(state))
        && old(clock) < clock
      ensures old(state) !in {LoadPc, Reboot} ==> TurnsLeft(View()) < TurnsLeft(old(View()))
    {
      hide Going, Consistent, Counters, Budget, Delivered, PathTo, Text, Ends, Standing;
      WhileGoing(sections, f, calls);
      more := calls;
      if Preparing(state) {
        PrepareTurn(sections, f, calls);
        more := calls + 1;
        WhileGoing(sections, f, more);
      } else if state == SendData {
        SendTurn(sections, f, calls);
      } else {
        FinishTurn(sections, f, calls);
      }
    }

    lemma WhileGoing(sections: seq<Section>, f: Fate, calls: nat)
      requires Going(sections, f, calls)
      ensures status == InProgress <==> state != Idle
      ensures Preparing(state) || state in {Idle, SendData, LoadPc, Reboot}
      ensures calls <= 65 && 0 <= Budget(View()) <= 65
      ensures state == Idle ==> PathTo(trace, Idle) && (ErrorCode(error) == 0 <==> LoadPc in trace)
      ensures LoadPc in trace <==> Delivered(sections)
      ensures SentInOrder(sections)
      ensures Consistent(View()) && pkt.Length == 266
      ensures state in {LoadPc, Reboot, Idle} ==> Standing(line, f, View(), clock) && verdicts == f.verdicts
    {
      hide Follows, PathTo, Delivered, Standing, Decided;
    }

    /**
     The first `limit` turns of the loop, on any line: after 66 the data state is behind it, and the update
     has ended unless its last request, Load-PC or reboot, is still not granted.
     */
    method Turns(ghost sections: seq<Section>, ghost f: Fate, limit: nat) returns (ghost calls: nat)
      requires Going(sections, f, 0) && text == Text(sections)
      modifies this, parser, pkt
      ensures Going(sections, f, calls)
      ensures status == InProgress <==> state != Idle
      ensures limit >= 66 ==> Standing(line, f, View(), clock) && state in {f.after.state, Idle}
    {
      hide Going, Consistent, Counters, Budget, Delivered, PathTo, Text, Ends, Standing;
      calls := 0;
      WhileGoing(sections, f, calls);
      var turns := 0;
      while status == InProgress && turns < limit
        invariant Going(sections, f, calls)
        invariant TurnsLeft(View()) == 0 || turns + TurnsLeft(View()) <= 66
      {
        calls := Turn(sections, f, calls);
        turns := turns + 1;
        WhileGoing(sections, f, calls);
      }
      WhileGoing(sections, f, calls);
      if limit >= 66 {
        StandsWhere(line, f, View(), clock);
      }
    }

    /** What the line makes of an update that starts now. */
    ghost function Fated(sections: seq<Section>): (f: Fate)
      reads this
      requires Ready()
      ensures f.after.error == NoError <==> f.after.state == LoadPc
    {
      Started(View());
      ErrorSettled(line, clock, BegunFrom(View()), sections, vck5000);
      Decided(line, clock, BegunFrom(View()), sections, vck5000)
    }

    /** How the preparation of an update that starts now ends, and when. */
    ghost function Preparation(): (Fsm, nat)
      reads this
      requires Ready()
    {
      Started(View());
      Prepared(line, clock, BegunFrom(View()), vck5000)
    }

    /** The code of an update that starts now, as the line decides it. */
    lemma CodeOnTheLine(sections: seq<Section>)
      requires Ready()
      ensures var f, (d, u) := Fated(sections), Preparation();
              CodeDecided(line, d, u, sections, f.verdicts, ErrorCode(f.after.error))
    {
      hide Prepared, Decided, CodeDecided, Packets, Consistent, Budget;
      Started(View());
      UpdateOnTheLine(line, clock, BegunFrom(View()), sections, vck5000);
    }

    method Begin(ghost sections: seq<Section>)
      requires Ready()
      modifies this`state, this`status, this`error, this`blocks, this`verdicts, this`trace
      ensures Going(sections, old(Fated(sections)), 0) && Preparing(state)
    {
      hide PathTo, Consistent, Counters, Budget, Packets, Frames, Decided;
      ghost var before := View();
      Started(before);
      blocks, verdicts := [], [];
      if sections != [] {
        SomePacket(sections);
      }
      assert !Delivered(sections);
      hide Delivered;
      state, status, error := State.SyncScBsl, InProgress, NoError;
      trace := [state];
      assert View() == BegunFrom(before);
    }

    /**
     The whole update. Load-PC and reboot are retried without end, so where the update comes to one of
     them the line must grant it sooner or later; the code is settled before that.
     */
    method UpdateScfw(ghost sections: seq<Section>) returns (code: byte, ghost calls: nat)
      requires Ready() && text == Text(sections) && Finishes(line, Fated(sections))
      modifies this, parser, pkt
      ensures Ready() && calls <= 65 && PathTo(trace, Idle)
      ensures code == ErrorCode(old(Fated(sections)).after.error) && verdicts == old(Fated(sections)).verdicts
      ensures SentInOrder(sections)
      ensures
        var (d, u) := old(Preparation());
        CodeDecided(line, d, u, sections, verdicts, code)
      ensures code == 0 <==> LoadPc in trace
      ensures code == 0 <==> Delivered(sections)
      ensures code == 0 ==> clock > 0 && LoadPcAccepted(line(clock - 1))
      ensures code == 0 ==> ImageExactly(sections)
    {
      hide Going, Consistent, Counters, Budget, Delivered, PathTo, Text, Ends, Standing, Fated, Ready;
      hide Preparation, CodeDecided, SentInOrder, ImageExactly, LoadPcAccepted;
      CodeOnTheLine(sections);
      ghost var f := Fated(sections);
      ghost var last := Last(line, f);
      Begin(sections);
      calls := 0;
      WhileGoing(sections, f, calls);
      while status == InProgress
        invariant Going(sections, f, calls)
        decreases TurnsLeft(View()), last - clock
      {
        WhileGoing(sections, f, calls);
        StandsBefore(line, f, View(), clock, last);
        calls := Turn(sections, f, calls);
        WhileGoing(sections, f, calls);
      }
      WhileGoing(sections, f, calls);
      Outcome(line, f, View(), clock);
      if error == NoError {
        Exactly(sections);
      }
      code := ErrorCode(error);
      ghost var after := View();
      error := NoError;
      Ended(after, View());
      IsReady();
    }

    lemma IsReady()
      requires Counters(View()) && state == Idle && status != InProgress && error == NoError && pkt.Length == 266
      ensures Ready()
    {
    }

    lemma Exactly(sections: seq<Section>)
      requires Delivered(sections)
      ensures ImageExactly(sections)
    {
      hide Packets, Frames, Stored, DataArrived;
      FramesLength(Packets(Start(sections)));
      forall got | Arrival(verdicts, got)
        ensures Stored(blocks, got) == Denotes(sections) <==> DataArrived(Packets(Start(sections)), got)
      {
        DeliveredImage(sections, got);
      }
    }

  }

  /** Turns that can still be made before the last request. */
  function TurnsLeft(m: Fsm): int {
    if Preparing(m.state) then Budget(m) + 1 else if m.state == SendData then 1 else 0
  }

  /** The decision on a state that needs no more decisions. */
  lemma FailedIsDecided(line: nat -> Wire, t: nat, m: Fsm, sections: seq<Section>, vck5000: bool)
    requires Consistent(m) && m.state == Idle
    ensures Decided(line, t, m, sections, vck5000) == Fate(m, t, [])
    ensures Standing(line, Fate(m, t, []), m, t)
  {
  }

  lemma DataIsDecided(line: nat -> Wire, t: nat, m: Fsm, sections: seq<Section>, vck5000: bool)
    requires Consistent(m) && m.state == SendData
    ensures var f := Decided(line, t, m, sections, vck5000);
            if sections == [] then f == Fate(Failed(m, InvalidSymbol), t, [])
            else
              var packets := Packets(Start(sections));
              && f.verdicts == Verdicts(line, t, packets) && f.time == SentBy(line, t, packets)
              && f.after == SendStep(m, f.verdicts, vck5000)
  {
  }

  lemma StandingNext(line: nat -> Wire, f: Fate, m: Fsm, t: nat, next: Fsm)
    requires Standing(line, f, m, t) && m.state in {LoadPc, Reboot}
    requires next == if Ends(line(t), m.state) then m.(state := Idle, status := Success) else m
    ensures Standing(line, f, next, t + 1) && f.after.state == m.state
  {
  }

  lemma StandsWhere(line: nat -> Wire, f: Fate, now: Fsm, clock: nat)
    requires Standing(line, f, now, clock)
    ensures now.state in {f.after.state, Idle}
  {
  }

  /** A transaction that grants the last request, if there is one. */
  ghost function Last(line: nat -> Wire, f: Fate): (i: nat)
    requires Finishes(line, f)
    ensures f.after.state in {LoadPc, Reboot} ==> f.time <= i && Ends(line(i), f.after.state)
  {
    if f.after.state in {LoadPc, Reboot} then
      var i :| f.time <= i && Ends(line(i), f.after.state);
      i
    else 0
  }

  lemma StandsBefore(line: nat -> Wire, f: Fate, now: Fsm, clock: nat, last: nat)
    requires now.state in {LoadPc, Reboot} ==> Standing(line, f, now, clock)
    requires f.after.state in {LoadPc, Reboot} ==> f.time <= last && Ends(line(last), f.after.state)
    ensures now.state in {LoadPc, Reboot} ==> clock <= last
  {
  }

  lemma Outcome(line: nat -> Wire, f: Fate, now: Fsm, clock: nat)
    requires Standing(line, f, now, clock) && now.state == Idle
    ensures now.error == f.after.error
    ensures f.after.state == LoadPc ==> clock > 0 && LoadPcAccepted(line(clock - 1))
  {
  }

  /** The error is settled by the fate: there is none exactly when Load-PC is reached. */
  lemma ErrorSettled(line: nat -> Wire, t: nat, m: Fsm, sections: seq<Section>, vck5000: bool)
    requires Consistent(m) && Preparing(m.state)
    ensures var f := Decided(line, t, m, sections, vck5000);
            && f.after.state in {LoadPc, Reboot, Idle}
            && (f.after.error == NoError <==> f.after.state == LoadPc)
  {
    hide PrepareStep, Counters, Verdicts, SendStep, SentBy, Packets, Prepared, Budget;
    PreparationEnds(line, t, m, vck5000);
    var (d, u) := Prepared(line, t, m, vck5000);
    if d.state == SendData && sections != [] {
      SomePacket(sections);
      SendStepCorrect(d, line, u, Packets(Start(sections)), vck5000);
    }
  }

  lemma SomePacket(sections: seq<Section>)
    requires sections != []
    ensures Packets(Start(sections)) != []
  {
  }

  lemma FailStep(m: Fsm, e: Error)
    requires Consistent(m) && m.state == SendData && e != NoError
    ensures Consistent(Failed(m, e)) && Follows(m.state, Idle)
  {
  }

  lemma NoBudget(m: Fsm, next: Fsm)
    requires m.state == SendData && next.state in {LoadPc, Reboot, Idle}
    ensures Budget(m) == 0 && Budget(next) == 0
  {
  }

  lemma FinishStep(m: Fsm, next: Fsm)
    requires Consistent(m) && m.state in {LoadPc, Reboot}
    requires next == m || next == m.(state := Idle, status := Success)
    ensures Consistent(next) && Follows(m.state, next.state) && Budget(next) == Budget(m) == 0
  {
  }

  function BegunFrom(ready: Fsm): Fsm {
    ready.(state := State.SyncScBsl, status := InProgress, error := NoError)
  }

  /** The first state of an update, with the budget for all of it. */
  lemma Started(ready: Fsm)
    requires Counters(ready) && ready.state == Idle
    ensures var m := BegunFrom(ready);
            Consistent(m) && Budget(m) <= 65 && PathTo([State.SyncScBsl], State.SyncScBsl)
  {
  }

  lemma Ended(done: Fsm, m: Fsm)
    requires Consistent(done) && done.state == Idle && m == done.(error := NoError)
    ensures Counters(m)
  {
  }
}
