/**
 The tasks of the command path as they update the rings and queues they share. Each method is what one
 task, or the client, does between two points where the scheduler may switch to another.
 */
module Tasks {
  import opened Machine
  import opened Completion
  import opened CommandPaths
  import XgqRing
  import opened XgqChannel

  /** One turn of a schedule: a step, or the receive task giving back the slots it is done with. */
  datatype Turn = Do(step: Step) | NotifyTaken

  class Shared {
    const sq: Channel<Command>       // submission ring: the client produces, the receive task consumes
    const cq: Channel<nat>           // completion ring: the workers produce, the client consumes
    var receiving: Option<nat>       // the submission slot being dispatched
    var programQ: seq<Command>
    var opcodeQ: seq<Command>
    var scReqQ: seq<Command>
    var scRespQ: seq<Command>
    var program: Worker
    var opcode: Worker
    var sc: Option<Command>
    var lost: bool
    var outstanding: nat             // the client's own count of commands without an answer

    /** The two rings share nothing. */
    ghost predicate Apart() {
      && (sq as object) != cq && (sq.slots as object) != cq.slots
      && sq.producer != cq.producer && sq.producer != cq.consumer
      && sq.consumer != cq.producer && sq.consumer != cq.consumer
    }

    ghost predicate Valid()
      reads this, sq.Repr(), cq.Repr()
    {
      && sq.Valid() && cq.Valid() && Apart() && sq.sys.n == cq.sys.n
      && sq.sys.published == |sq.sys.sent| && cq.sys.published == |cq.sys.sent|
      && cq.sys.released == |cq.sys.received|
      && outstanding == |sq.sys.sent| - cq.sys.released
      && (receiving.Some? ==>
            && sq.sys.released < |sq.sys.received|
            && receiving.value == XgqRing.SlotOf(sq.sys, |sq.sys.received| - 1))
    }

    constructor (slotNum: u32, sqBase: u32, cqBase: u32, filler: Command)
      requires XgqRing.SlotCount(slotNum)
      ensures Valid() && State() == Start(slotNum)
    {
      sq := new Channel<Command>(slotNum, sqBase, filler);
      cq := new Channel<nat>(slotNum, cqBase, 0);
      receiving := None;
      programQ, opcodeQ, scReqQ, scRespQ := [], [], [], [];
      program, opcode, sc := Idle, Idle, None;
      lost, outstanding := false, 0;
    }

    /** The commands and ids that went over the rings, with the tasks' queues. */
    ghost function State(): Server
      reads this, sq, cq
    {
      var r := sq.sys.received;
      Server(cq.sys.n, sq.sys.sent, |r|, if receiving.Some? && r != [] then Some(r[|r| - 1]) else None,
             programQ, opcodeQ, scReqQ, scRespQ, program, opcode, sc, cq.sys.sent, cq.sys.released, lost)
    }

    // The client.

    /**
     Submit a command. A client that keeps to its limit is refused only while the receive task has not
     given back the slot of a command already completed.
     */
    method SubmitCommand(c: Command) returns (ok: bool)
      requires Valid()
      modifies this`outstanding, sq, sq.producer, sq.slots
      ensures Valid() && sq.sys.released == old(sq.sys.released)
      ensures State() == if ok then Next(old(State()), Submit(c)) else old(State())
      ensures ok == (|old(State()).submitted| - sq.sys.released < cq.sys.n)
      ensures
        var s := old(State());
        Invariant(s) && ClientRule(s, Submit(c)) && sq.sys.released == |sq.sys.received| ==> ok
    {
      hide Channel.Valid, Conserved, Detour, Routed;
      ok := sq.Put(c);
      if ok {
        outstanding := outstanding + 1;
      }
    }

    /** Take the next completion and give its slot back. */
    method TakeCompletion() returns (id: Option<nat>)
      requires Valid() && |State().completed| <= |State().submitted|
      modifies this`outstanding, cq, cq.consumer
      ensures Valid()
      ensures id.Some? == (old(State()).released < |old(State()).completed|)
      ensures id.Some? ==>
        && State() == Next(old(State()), Step.Release)
        && old(State()).released < |State().completed| && id.value == State().completed[old(State()).released]
      ensures id.None? ==> State() == old(State())
    {
      hide Channel.Valid;
      id := None;
      ghost var k := |cq.sys.received|;
      var slot := cq.Take();
      cq.Bounds();
      if slot.Some? {
        cq.Holds(k);
        id := Some(cq.slots[slot.value]);
        cq.Release();
        outstanding := outstanding - 1;
      }
    }

    /** Post a completion for a message. Whether a slot could be reserved is not checked. */
    method HandleComplete(cid: nat)
      requires Valid()
      modifies this`lost, cq, cq.producer, cq.slots
      ensures Valid() && State() == Complete(old(State()), cid)
    {
      hide Channel.Valid;
      var ok := cq.Put(cid);
      if !ok {
        lost := true;
      }
    }

    // The receive task.

    method Consume()
      requires Valid()
      modifies this`receiving, sq, sq.consumer
      ensures Valid() && State() == Received(old(State())) && sq.sys.released == old(sq.sys.released)
    {
      hide Channel.Valid;
      sq.Bounds();
      if receiving.None? {
        receiving := sq.Take();
      }
    }

    /** Give back the slots of commands dispatched, never that of the one in hand. */
    method NotifyPeerConsumed()
      requires Valid()
      modifies sq
      ensures Valid() && State() == old(State())
      ensures receiving.None? ==> sq.sys.released == |sq.sys.received|
    {
      hide Channel.Valid;
      if receiving.None? {
        sq.Release();
      }
    }

    /** The slot in hand still holds the command the client submitted. */
    lemma InHand()
      requires Valid() && receiving.Some?
      ensures receiving.value < sq.slots.Length && State().receiving == Some(sq.slots[receiving.value])
    {
      sq.Holds(|sq.sys.received| - 1);
    }

    method SubmitToQueue(c: Command) returns (ok: bool)
      requires Valid()
      modifies this`programQ, this`opcodeQ
      ensures Valid()
      ensures ok == !Refused(old(State()), c)
      ensures !ok ==> State() == old(State()) && DispatchTo(State(), c) == Complete(State(), c.cid)
      ensures ok ==> State() == Queued(old(State()), c) == DispatchTo(old(State()), c)
    {
      hide Channel.Valid, Complete;
      ok := false;
      if c.kind.Some? {
        if !Converts(c) {
          return;
        }
        if ForProgramTask(c.kind.value) {
          if |programQ| < QUEUE_LENGTH {
            programQ := programQ + [c];
            ok := true;
          }
        } else if |opcodeQ| < QUEUE_LENGTH {
          opcodeQ := opcodeQ + [c];
          ok := true;
        }
      }
    }

    /** Queue the command in hand, read from its slot, or complete it with an error. */
    method ProcessMessage()
      requires Valid()
      modifies this`receiving, this`programQ, this`opcodeQ, this`lost, cq, cq.producer, cq.slots
      ensures Valid() && State() == Dispatched(old(State()))
      ensures old(receiving).Some? ==>
        var s := old(State());
        var c := s.receiving.value;
        && (!Refused(s, c) ==> State() == Queued(s, c).(receiving := None))
        && (Refused(s, c) ==> QueuesKept(s, State()) && (!State().lost ==> State().completed == s.completed + [c.cid]))
    {
      hide Channel.Valid, DispatchTo, Refused, Queued, QueuesKept;
      DispatchQueues(State());
      if receiving.Some? {
        InHand();
        var c := sq.slots[receiving.value];
        var ok := SubmitToQueue(c);
        if !ok {
          HandleComplete(c.cid);
        }
        receiving := None;
      }
    }

    // The program task.

    method ProgramReceive()
      requires Valid()
      modifies this`program, this`programQ
      ensures Valid() && State() == ProgramTaken(old(State()))
    {
      if program.Idle? && programQ != [] {
        program, programQ := Holding(programQ[0]), programQ[1..];
      }
    }

    /** A firmware update goes to the SC task and comes back later; everything else is answered here. */
    method ProcessProgram()
      requires Valid()
      modifies this`program, this`scReqQ, this`lost, cq, cq.producer, cq.slots
      ensures Valid() && State() == ProgramRan(old(State()))
    {
      hide Channel.Valid;
      if program.Holding? && program.cmd.kind.Some? {
        var c := program.cmd;
        if AnsweredFirst(c) {
          HandleComplete(c.cid);
          program := Answered(c);
          return;
        }
        if c.kind.value.ProgramScfw? && |scReqQ| < QUEUE_LENGTH {
          scReqQ, program := scReqQ + [c], Waiting(c);
          return;
        }
        HandleComplete(c.cid);
        program := Idle;
      }
    }

    /** The response overwrites the message; the completion carries the response's id. */
    method ScfwDone()
      requires Valid()
      modifies this`program, this`scRespQ, this`lost, cq, cq.producer, cq.slots
      ensures Valid() && State() == ProgramResumed(old(State()))
    {
      hide Channel.Valid;
      if program.Waiting? && scRespQ != [] {
        var msg := scRespQ[0];
        scRespQ := scRespQ[1..];
        HandleComplete(msg.cid);
        program := Idle;
      }
    }

    method ProgramCallbackDone()
      requires Valid()
      modifies this`program
      ensures Valid() && State() == ProgramReturned(old(State()))
    {
      if program.Answered? {
        program := Idle;
      }
    }

    // The opcode task.

    method OpcodeReceive()
      requires Valid()
      modifies this`opcode, this`opcodeQ
      ensures Valid() && State() == OpcodeTaken(old(State()))
    {
      if opcode.Idle? && opcodeQ != [] {
        opcode, opcodeQ := Holding(opcodeQ[0]), opcodeQ[1..];
      }
    }

    method ProcessOpcode()
      requires Valid()
      modifies this`opcode, this`lost, cq, cq.producer, cq.slots
      ensures Valid() && State() == OpcodeRan(old(State()))
    {
      hide Channel.Valid;
      if opcode.Holding? && opcode.cmd.kind.Some? {
        var c := opcode.cmd;
        HandleComplete(c.cid);
        opcode := if AnsweredFirst(c) then Answered(c) else Idle;
      }
    }

    method OpcodeCallbackDone()
      requires Valid()
      modifies this`opcode
      ensures Valid() && State() == OpcodeReturned(old(State()))
    {
      if opcode.Answered? {
        opcode := Idle;
      }
    }

    // The SC task.

    method ScReceive()
      requires Valid()
      modifies this`sc, this`scReqQ
      ensures Valid() && State() == ScTaken(old(State()))
    {
      if sc.None? && scReqQ != [] {
        sc, scReqQ := Some(scReqQ[0]), scReqQ[1..];
      }
    }

    /** The result of sending the response is not checked. */
    method ScRespond()
      requires Valid()
      modifies this`sc, this`scRespQ, this`lost
      ensures Valid() && State() == ScReplied(old(State()))
    {
      hide Channel.Valid;
      if sc.Some? {
        if |scRespQ| < QUEUE_LENGTH {
          scRespQ := scRespQ + [sc.value];
        } else {
          lost := true;
        }
        sc := None;
      }
    }

    // Schedules.

    /** One step of a task. */
    method TaskStep(step: Step)
      requires Valid() && !step.Submit? && !step.Release?
      modifies this, sq, sq.consumer, cq, cq.producer, cq.slots
      ensures Valid() && State() == Next(old(State()), step) && sq.sys.released == old(sq.sys.released)
    {
      hide Channel.Valid, Received, Dispatched, ProgramTaken, ProgramRan, ProgramResumed, ProgramReturned;
      hide OpcodeTaken, OpcodeRan, OpcodeReturned, ScTaken, ScReplied, State, Valid;
      match step
      case Receive => Consume();
      case Dispatch => ProcessMessage();
      case ProgramTake => ProgramReceive();
      case ProgramRun => ProcessProgram();
      case ProgramResume => ScfwDone();
      case ProgramReturn => ProgramCallbackDone();
      case OpcodeTake => OpcodeReceive();
      case OpcodeRun => ProcessOpcode();
      case OpcodeReturn => OpcodeCallbackDone();
      case ScTake => ScReceive();
      case ScReply => ScRespond();
    }

    /** One turn; `done` is whether a step was made, since the client is not always ready for its own. */
    method OneTurn(turn: Turn) returns (done: bool)
      requires Valid() && Invariant(State())
      modifies this, sq, sq.producer, sq.consumer, sq.slots, cq, cq.producer, cq.consumer, cq.slots
      ensures Valid() && (done ==> turn.Do?)
      ensures State() == if done then Next(old(State()), turn.step) else old(State())
      ensures turn.Do? ==>
        var s, step := old(State()), turn.step;
        && (done ==> ClientRule(s, step))
        && (!step.Submit? ==> done == ClientRule(s, step))
        && (step.Submit? ==> done == (ClientRule(s, step) && |s.submitted| - old(sq.sys.released) < s.slotNum))
    {
      hide Next, Conserved, Detour, Routed;
      done := false;
      if turn.NotifyTaken? {
        NotifyPeerConsumed();
      } else if turn.step.Submit? {
        if outstanding < sq.slots.Length {
          done := SubmitCommand(turn.step.cmd);
        }
      } else if turn.step.Release? {
        var id := TakeCompletion();
        done := id.Some?;
      } else {
        TaskStep(turn.step);
        done := true;
      }
    }

    /** Any schedule at all of the tasks and of a client that keeps to its limit. */
    method Run(schedule: seq<Turn>) returns (ghost done: seq<bool>)
      requires Valid() && Invariant(State())
      modifies this, sq, sq.producer, sq.consumer, sq.slots, cq, cq.producer, cq.consumer, cq.slots
      ensures Valid() && Invariant(State()) && !lost
      ensures |done| == |schedule| && Runs(old(State()), Chosen(schedule, done))
      ensures State() == Exec(old(State()), Chosen(schedule, done))
      ensures forall i | 0 <= i < |schedule| ::
        schedule[i].Do? && !schedule[i].step.Submit? && !schedule[i].step.Release? ==> done[i]
    {
      hide Next, Invariant, ClientRule, Runs, Exec, Chosen, Valid;
      ghost var s := State();
      done := [];
      NothingChosen(s);
      var i := 0;
      while i < |schedule|
        invariant i == |done| <= |schedule| && Valid() && Invariant(State())
        invariant Runs(s, Chosen(schedule[..i], done)) && State() == Exec(s, Chosen(schedule[..i], done))
        invariant forall j | 0 <= j < i ::
          schedule[j].Do? && !schedule[j].step.Submit? && !schedule[j].step.Release? ==> done[j]
      {
        ghost var before := State();
        var d := OneTurn(schedule[i]);
        TaskIsDone(before, schedule[i]);
        assert schedule[..i + 1] == schedule[..i] + [schedule[i]];
        if d {
          NextInvariant(before, schedule[i].step);
        }
        ChosenNext(s, schedule[..i], done, schedule[i], d);
        done := done + [d];
        i := i + 1;
      }
      assert schedule[..i] == schedule;
      NotLost(State());
    }
  }

  /** The steps of a schedule that were made. */
  ghost function Chosen(schedule: seq<Turn>, done: seq<bool>): seq<Step>
    requires |done| == |schedule|
    decreases |schedule|
  {
    if schedule == [] then []
    else
      var n := |schedule| - 1;
      Chosen(schedule[..n], done[..n]) + (if done[n] && schedule[n].Do? then [schedule[n].step] else [])
  }

  lemma NothingChosen(s: Server)
    ensures Chosen([], []) == [] && Runs(s, []) && Exec(s, []) == s
  {
  }

  lemma TaskIsDone(s: Server, turn: Turn)
    ensures turn.Do? && !turn.step.Submit? && !turn.step.Release? ==> ClientRule(s, turn.step)
  {
  }

  lemma NotLost(s: Server)
    requires Invariant(s)
    ensures !s.lost
  {
  }

  lemma ChosenNext(s: Server, schedule: seq<Turn>, done: seq<bool>, turn: Turn, d: bool)
    requires |done| == |schedule| && Runs(s, Chosen(schedule, done)) && (d ==> turn.Do?)
    requires d ==> ClientRule(Exec(s, Chosen(schedule, done)), turn.step)
    ensures var steps := Chosen(schedule + [turn], done + [d]);
            && Runs(s, steps)
            && Exec(s, steps) == (var t := Exec(s, Chosen(schedule, done)); if d then Next(t, turn.step) else t)
  {
    hide Next, ClientRule, Runs, Exec;
    assert (schedule + [turn])[..|schedule|] == schedule && (done + [d])[..|schedule|] == done;
    var steps := Chosen(schedule, done);
    assert steps + [] == steps;
    if d {
      RunsSnoc(s, steps, turn.step);
    }
  }
}
