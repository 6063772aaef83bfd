/**
 The command path through the server's tasks: the receive task takes commands from the submission
 ring and queues them for a worker, the workers complete them on the completion ring, and firmware
 updates take a detour through the SC task. Tasks are interleaved arbitrarily, one step at a time.
 */
module Completion {
  import opened Machine

  const QUEUE_LENGTH: nat := 8

  /** The commands of the handler table. */
  datatype Kind =
    | LoadXclbin | DownloadPdi | LoadApubin | ProgramVmr | ProgramScfw
    | LogPage | Clock | VmrControl | Sensor | ClkThrottling | Identify

  /**
   A command: its id, its kind if the opcode is known, whether its payload converts, and whether it
   asks for a system reset (which is answered before it is carried out).
   */
  datatype Command = Command(cid: nat, kind: Option<Kind>, payloadOk: bool, resets: bool)

  predicate ForProgramTask(k: Kind) {
    k.LoadXclbin? || k.DownloadPdi? || k.LoadApubin? || k.ProgramVmr? || k.ProgramScfw?
  }

  /** Whether the handler's conversion succeeds; two commands have none to fail. */
  predicate Converts(c: Command) {
    c.kind.Some? && (c.payloadOk || c.kind.value.ProgramScfw? || c.kind.value.Identify?)
  }

  /** Commands answered before their callback, which may not return. */
  predicate AnsweredFirst(c: Command)
    requires c.kind.Some?
  {
    if ForProgramTask(c.kind.value) then c.kind.value.ProgramVmr? else c.resets
  }

  datatype Worker =
    | Idle
    | Holding(cmd: Command)     // taken from the queue, not answered
    | Waiting(cmd: Command)     // handed to the SC task, waiting for its response
    | Answered(cmd: Command)    // answered, callback still running

  datatype Server = Server(
    slotNum: nat,
    submitted: seq<Command>, taken: nat, receiving: Option<Command>,
    programQ: seq<Command>, opcodeQ: seq<Command>, scReqQ: seq<Command>, scRespQ: seq<Command>,
    program: Worker, opcode: Worker, sc: Option<Command>,
    completed: seq<nat>, released: nat,
    lost: bool)                 // an unchecked failure to get a completion slot, or a dropped response

  datatype Step =
    | Submit(cmd: Command)      // the client publishes a command
    | Release                   // the client gives back one completion slot
    | Receive | Dispatch
    | ProgramTake | ProgramRun | ProgramResume | ProgramReturn
    | OpcodeTake | OpcodeRun | OpcodeReturn
    | ScTake | ScReply

  /** The client keeps at most `slotNum` commands outstanding, and gives back only what it was given. */
  predicate ClientRule(s: Server, step: Step) {
    && (step.Submit? ==> |s.submitted| - s.released < s.slotNum)
    && (step.Release? ==> s.released < |s.completed|)
  }

  /** Post a completion. The return value of the slot reservation is not checked. */
  function Complete(s: Server, cid: nat): Server {
    if |s.completed| - s.released < s.slotNum then s.(completed := s.completed + [cid]) else s.(lost := true)
  }

  /** Queue for a worker, or answer with an error when the queue stays full. */
  function DispatchTo(s: Server, c: Command): Server {
    if !Converts(c) then Complete(s, c.cid)
    else if ForProgramTask(c.kind.value) then
      if |s.programQ| < QUEUE_LENGTH then s.(programQ := s.programQ + [c]) else Complete(s, c.cid)
    else
      if |s.opcodeQ| < QUEUE_LENGTH then s.(opcodeQ := s.opcodeQ + [c]) else Complete(s, c.cid)
  }

  /** The program task works on the command it holds. */
  function RunProgram(s: Server, c: Command): Server
    requires c.kind.Some?
  {
    if AnsweredFirst(c) then Complete(s, c.cid).(program := Answered(c))
    else if c.kind.value.ProgramScfw? then
      if |s.scReqQ| < QUEUE_LENGTH then s.(scReqQ := s.scReqQ + [c], program := Waiting(c))
      else Complete(s, c.cid).(program := Idle)
    else Complete(s, c.cid).(program := Idle)
  }

  // One function for each step; a step whose task is not ready for it changes nothing.

  function Received(s: Server): Server {
    if s.receiving.None? && s.taken < |s.submitted| then
      s.(receiving := Some(s.submitted[s.taken]), taken := s.taken + 1)
    else s
  }

  function Dispatched(s: Server): Server {
    if s.receiving.Some? then DispatchTo(s, s.receiving.value).(receiving := None) else s
  }

  function ProgramTaken(s: Server): Server {
    if s.program.Idle? && s.programQ != [] then s.(program := Holding(s.programQ[0]), programQ := s.programQ[1..])
    else s
  }

  function ProgramRan(s: Server): Server {
    if s.program.Holding? && s.program.cmd.kind.Some? then RunProgram(s, s.program.cmd) else s
  }

  /** The response overwrites the message, so the completion uses the id found in the response. */
  function ProgramResumed(s: Server): Server {
    if s.program.Waiting? && s.scRespQ != [] then
      Complete(s, s.scRespQ[0].cid).(program := Idle, scRespQ := s.scRespQ[1..])
    else s
  }

  function ProgramReturned(s: Server): Server {
    if s.program.Answered? then s.(program := Idle) else s
  }

  function OpcodeTaken(s: Server): Server {
    if s.opcode.Idle? && s.opcodeQ != [] then s.(opcode := Holding(s.opcodeQ[0]), opcodeQ := s.opcodeQ[1..]) else s
  }

  function OpcodeRan(s: Server): Server {
    if s.opcode.Holding? && s.opcode.cmd.kind.Some? then
      Complete(s, s.opcode.cmd.cid).(opcode := if AnsweredFirst(s.opcode.cmd) then Answered(s.opcode.cmd) else Idle)
    else s
  }

  function OpcodeReturned(s: Server): Server {
    if s.opcode.Answered? then s.(opcode := Idle) else s
  }

  function ScTaken(s: Server): Server {
    if s.sc.None? && s.scReqQ != [] then s.(sc := Some(s.scReqQ[0]), scReqQ := s.scReqQ[1..]) else s
  }

  function ScReplied(s: Server): Server {
    if s.sc.None? then s
    else if |s.scRespQ| < QUEUE_LENGTH then s.(scRespQ := s.scRespQ + [s.sc.value], sc := None)
    else s.(sc := None, lost := true)
  }

  function Next(s: Server, step: Step): Server {
    match step
    case Submit(c) => s.(submitted := s.submitted + [c])
    case Release => s.(released := s.released + 1)
    case Receive => Received(s)
    case Dispatch => Dispatched(s)
    case ProgramTake => ProgramTaken(s)
    case ProgramRun => ProgramRan(s)
    case ProgramResume => ProgramResumed(s)
    case ProgramReturn => ProgramReturned(s)
    case OpcodeTake => OpcodeTaken(s)
    case OpcodeRun => OpcodeRan(s)
    case OpcodeReturn => OpcodeReturned(s)
    case ScTake => ScTaken(s)
    case ScReply => ScReplied(s)
  }

  // --- What is owed ----------------------------------------------------------------------------------

  /** How often an id occurs among commands, and among completions. */
  function Count(q: seq<Command>, id: nat): nat {
    if q == [] then 0 else (if q[0].cid == id then 1 else 0) + Count(q[1..], id)
  }

  function CountIds(q: seq<nat>, id: nat): nat {
    if q == [] then 0 else (if q[0] == id then 1 else 0) + CountIds(q[1..], id)
  }

  function One(c: Command, id: nat): nat {
    if c.cid == id then 1 else 0
  }

  lemma {:induction false} CountAppend(q: seq<Command>, c: Command, id: nat)
    ensures Count(q + [c], id) == Count(q, id) + One(c, id)
    decreases |q|
  {
    if q == [] {
      assert q + [c] == [c] && [c][1..] == [];
    } else {
      assert (q + [c])[1..] == q[1..] + [c];
      CountAppend(q[1..], c, id);
    }
  }

  lemma {:induction false} CountIdsAppend(q: seq<nat>, x: nat, id: nat)
    ensures CountIds(q + [x], id) == CountIds(q, id) + (if x == id then 1 else 0)
    decreases |q|
  {
    if q == [] {
      assert q + [x] == [x] && [x][1..] == [];
    } else {
      assert (q + [x])[1..] == q[1..] + [x];
      CountIdsAppend(q[1..], x, id);
    }
  }

  function Held(c: Option<Command>, id: nat): nat {
    if c.Some? then One(c.value, id) else 0
  }

  predicate Owes(w: Worker) {
    w.Holding? || w.Waiting?
  }

  /** The command a worker still has to answer. */
  function Owed(w: Worker, id: nat): nat {
    if Owes(w) then One(w.cmd, id) else 0
  }

  /** How often an id is completed, or held in one place that will complete it. */
  function Accounted(s: Server, id: nat): nat {
    CountIds(s.completed, id) + Held(s.receiving, id) + Count(s.programQ, id) + Count(s.opcodeQ, id)
    + Owed(s.program, id) + Owed(s.opcode, id)
  }

  function Pending(s: Server): nat {
    (if s.receiving.Some? then 1 else 0) + |s.programQ| + |s.opcodeQ|
    + (if Owes(s.program) then 1 else 0) + (if Owes(s.opcode) then 1 else 0)
  }

  /** Every command taken is accounted for exactly as often as it was taken. */
  ghost predicate Conserved(s: Server) {
    && s.taken <= |s.submitted|
    && forall id :: Count(s.submitted[..s.taken], id) == Accounted(s, id)
  }

  /** The SC detour holds exactly the command the program task waits for. */
  ghost predicate Detour(s: Server) {
    if s.program.Waiting? then
      || (s.scReqQ == [s.program.cmd] && s.sc.None? && s.scRespQ == [])
      || (s.scReqQ == [] && s.sc == Some(s.program.cmd) && s.scRespQ == [])
      || (s.scReqQ == [] && s.sc.None? && s.scRespQ == [s.program.cmd])
    else s.scReqQ == [] && s.sc.None? && s.scRespQ == []
  }

  /** Only dispatched commands reach the workers, so their kinds are known. */
  ghost predicate Routed(s: Server) {
    && (forall i :: 0 <= i < |s.programQ| ==> s.programQ[i].kind.Some?)
    && (forall i :: 0 <= i < |s.opcodeQ| ==> s.opcodeQ[i].kind.Some?)
    && (!s.program.Idle? ==> s.program.cmd.kind.Some?)
    && (!s.opcode.Idle? ==> s.opcode.cmd.kind.Some?) && !s.opcode.Waiting?
    && |s.programQ| <= QUEUE_LENGTH && |s.opcodeQ| <= QUEUE_LENGTH
  }

  /** Counting: commands taken, answered and pending, and what the client has outstanding. */
  ghost predicate Balanced(s: Server) {
    && s.taken == |s.completed| + Pending(s)
    && s.taken <= |s.submitted| <= s.released + s.slotNum
    && s.released <= |s.completed|
    && !s.lost
  }

  ghost predicate Invariant(s: Server) {
    Conserved(s) && Detour(s) && Routed(s) && Balanced(s)
  }

  function Start(slotNum: nat): Server {
    Server(slotNum, [], 0, None, [], [], [], [], Idle, Idle, None, [], 0, false)
  }

  lemma StartInvariant(slotNum: nat)
    ensures Invariant(Start(slotNum))
  {
  }

  /** The steps that may post a completion. */
  predicate MayComplete(step: Step) {
    step.Dispatch? || step.ProgramRun? || step.ProgramResume? || step.OpcodeRun?
  }

  /** One step moves an id from one place to the next, or completes it, and never loses or repeats it. */
  lemma StepConserves(s: Server, step: Step, id: nat)
    requires Detour(s) && Balanced(s) && ClientRule(s, step)
    requires Count(s.submitted[..s.taken], id) == Accounted(s, id)
    ensures var r := Next(s, step);
            r.taken <= |r.submitted| && Count(r.submitted[..r.taken], id) == Accounted(r, id)
  {
    hide Next, Detour, Balanced, Accounted, Count;
    if MayComplete(step) {
      CompletingConserves(s, step, id);
    } else {
      MovingConserves(s, step, id);
    }
  }

  lemma MovingConserves(s: Server, step: Step, id: nat)
    requires Balanced(s) && !MayComplete(step)
    requires Count(s.submitted[..s.taken], id) == Accounted(s, id)
    ensures var r := Next(s, step);
            r.taken <= |r.submitted| && Count(r.submitted[..r.taken], id) == Accounted(r, id)
  {
    hide Count, CountIds, One, DispatchTo, RunProgram, Complete;
    match step
    case Submit(c) =>
      assert (s.submitted + [c])[..s.taken] == s.submitted[..s.taken];
    case Receive =>
      if s.taken < |s.submitted| {
        assert s.submitted[..s.taken + 1] == s.submitted[..s.taken] + [s.submitted[s.taken]];
        CountAppend(s.submitted[..s.taken], s.submitted[s.taken], id);
      }
    case ProgramTake => HeadCounts(s.programQ, id);
    case OpcodeTake => HeadCounts(s.opcodeQ, id);
    case _ =>
  }

  lemma DispatchConserves(s: Server, id: nat)
    requires Detour(s) && Balanced(s) && s.receiving.Some?
    requires Count(s.submitted[..s.taken], id) == Accounted(s, id)
    ensures var r := Next(s, Dispatch);
            r.taken <= |r.submitted| && Count(r.submitted[..r.taken], id) == Accounted(r, id)
  {
    hide Count, CountIds, One;
    CompleteCounts(s, s.receiving.value, id);
    CountAppend(s.programQ, s.receiving.value, id);
    CountAppend(s.opcodeQ, s.receiving.value, id);
  }

  lemma CompletingConserves(s: Server, step: Step, id: nat)
    requires Detour(s) && Balanced(s) && MayComplete(step)
    requires Count(s.submitted[..s.taken], id) == Accounted(s, id)
    ensures var r := Next(s, step);
            r.taken <= |r.submitted| && Count(r.submitted[..r.taken], id) == Accounted(r, id)
  {
    hide Count, CountIds, One;
    match step
    case Dispatch =>
      if s.receiving.Some? {
        DispatchConserves(s, id);
      }
    case ProgramRun =>
      if s.program.Holding? {
        CompleteCounts(s, s.program.cmd, id);
      }
    case ProgramResume =>
      if s.program.Waiting? {
        CompleteCounts(s, s.program.cmd, id);
      }
    case OpcodeRun =>
      if s.opcode.Holding? {
        CompleteCounts(s, s.opcode.cmd, id);
      }
  }

  lemma CompleteCounts(s: Server, c: Command, id: nat)
    requires |s.completed| - s.released < s.slotNum
    ensures CountIds(Complete(s, c.cid).completed, id) == CountIds(s.completed, id) + One(c, id)
  {
    CountIdsAppend(s.completed, c.cid, id);
  }

  lemma HeadCounts(q: seq<Command>, id: nat)
    ensures q != [] ==> Count(q, id) == One(q[0], id) + Count(q[1..], id)
  {
  }

  lemma StepDetour(s: Server, step: Step)
    requires Detour(s) && Routed(s) && Balanced(s)
    ensures Detour(Next(s, step))
  {
  }

  lemma StepRouted(s: Server, step: Step)
    requires Routed(s)
    ensures Routed(Next(s, step))
  {
  }

  /** There is always room for the completion of a pending command. */
  lemma StepBalanced(s: Server, step: Step)
    requires Detour(s) && Routed(s) && Balanced(s) && ClientRule(s, step)
    ensures Balanced(Next(s, step))
  {
    hide Next, Detour, Routed, Balanced, ClientRule;
    if MayComplete(step) {
      CompletingBalanced(s, step);
    } else {
      MovingBalanced(s, step);
    }
  }

  lemma MovingBalanced(s: Server, step: Step)
    requires Detour(s) && Balanced(s) && ClientRule(s, step) && !MayComplete(step)
    ensures Balanced(Next(s, step))
  {
    hide DispatchTo, RunProgram, Complete;
  }

  lemma CompletingBalanced(s: Server, step: Step)
    requires Balanced(s) && MayComplete(step)
    ensures Balanced(Next(s, step))
  {
  }

  lemma NextInvariant(s: Server, step: Step)
    requires Invariant(s) && ClientRule(s, step)
    ensures Invariant(Next(s, step))
  {
    StepDetour(s, step);
    StepRouted(s, step);
    StepBalanced(s, step);
    hide Next, ClientRule, Accounted, Count, Detour, Routed, Balanced;
    var r := Next(s, step);
    StepConserves(s, step, 0);
    forall id
      ensures Count(r.submitted[..r.taken], id) == Accounted(r, id)
    {
      StepConserves(s, step, id);
    }
  }

  // --- Whole runs --------------------------------------------------------------------------------------

  ghost predicate Runs(s: Server, steps: seq<Step>)
    decreases |steps|
  {
    steps == [] || (ClientRule(s, steps[0]) && Runs(Next(s, steps[0]), steps[1..]))
  }

  function Exec(s: Server, steps: seq<Step>): Server
    decreases |steps|
  {
    if steps == [] then s else Exec(Next(s, steps[0]), steps[1..])
  }

  lemma {:induction false} RunsSnoc(s: Server, steps: seq<Step>, x: Step)
    requires Runs(s, steps) && ClientRule(Exec(s, steps), x)
    ensures Runs(s, steps + [x]) && Exec(s, steps + [x]) == Next(Exec(s, steps), x)
    decreases |steps|
  {
    hide Next, ClientRule;
    if steps == [] {
      assert [x][1..] == [] && steps + [x] == [x];
      assert Exec(s, [x]) == Exec(Next(s, x), []);
    } else {
      assert (steps + [x])[1..] == steps[1..] + [x];
      RunsSnoc(Next(s, steps[0]), steps[1..], x);
    }
  }

  /**
   Conservation over every interleaving of the client and the tasks: the ids taken from the
   submission ring are exactly those completed plus those waiting in one queue or held by one task.
   The unchecked slot reservation never fails, and no response is dropped, as long as the client
   keeps at most `slotNum` commands outstanding.
   */
  lemma {:induction false} ConservationOverAllRuns(s: Server, steps: seq<Step>)
    requires Invariant(s) && Runs(s, steps)
    ensures Invariant(Exec(s, steps))
    decreases |steps|
  {
    hide Invariant, Next, ClientRule;
    if steps != [] {
      NextInvariant(s, steps[0]);
      ConservationOverAllRuns(Next(s, steps[0]), steps[1..]);
    }
  }

  /** No id is completed more often than it was taken; when nothing is pending, just as often. */
  lemma CompletedOnce(slotNum: nat, steps: seq<Step>, id: nat)
    requires Runs(Start(slotNum), steps)
    ensures var r := Exec(Start(slotNum), steps);
            && !r.lost && r.taken <= |r.submitted|
            && CountIds(r.completed, id) <= Count(r.submitted[..r.taken], id)
            && (Pending(r) == 0 ==> CountIds(r.completed, id) == Count(r.submitted[..r.taken], id))
  {
    hide Next, ClientRule, Runs, Exec, Detour, Routed;
    StartInvariant(slotNum);
    ConservationOverAllRuns(Start(slotNum), steps);
    var r := Exec(Start(slotNum), steps);
    assert Count(r.submitted[..r.taken], id) == Accounted(r, id);
  }

  lemma {:induction false} TwiceIsTwo(q: seq<nat>, i: nat, j: nat)
    requires i < j < |q| && q[i] == q[j]
    ensures CountIds(q, q[i]) >= 2
    decreases |q|
  {
    if i == 0 {
      OnceIsOne(q[1..], j - 1);
    } else {
      TwiceIsTwo(q[1..], i - 1, j - 1);
    }
  }

  lemma {:induction false} OnceIsOne(q: seq<nat>, i: nat)
    requires i < |q|
    ensures CountIds(q, q[i]) >= 1
    decreases |q|
  {
    if i > 0 {
      OnceIsOne(q[1..], i - 1);
    }
  }

  // --- Ids that come back ---------------------------------------------------------------------------

  /** How often the client has an id outstanding: submitted, and its completion not given back. */
  function Outstanding(s: Server, id: nat): int
    requires s.released <= |s.completed|
  {
    Count(s.submitted, id) - CountIds(s.completed[..s.released], id)
  }

  /** The client uses an id again only once it is no longer outstanding. */
  ghost predicate FreshId(s: Server, step: Step) {
    step.Submit? ==> s.released <= |s.completed| && Outstanding(s, step.cmd.cid) == 0
  }

  ghost predicate ReusesIds(s: Server, steps: seq<Step>)
    decreases |steps|
  {
    steps == [] || (FreshId(s, steps[0]) && ReusesIds(Next(s, steps[0]), steps[1..]))
  }

  /** No id is outstanding twice. */
  ghost predicate AtMostOnce(s: Server) {
    s.released <= |s.completed| && forall id :: Outstanding(s, id) <= 1
  }

  /** What a step does to the client's side of the books. */
  lemma ClientSide(s: Server, step: Step)
    requires Balanced(s) && ClientRule(s, step)
    ensures var r := Next(s, step);
            && r.submitted == (if step.Submit? then s.submitted + [step.cmd] else s.submitted)
            && r.released == (if step.Release? then s.released + 1 else s.released)
            && s.completed <= r.completed
  {
  }

  lemma StepAtMostOnce(s: Server, step: Step)
    requires Invariant(s) && ClientRule(s, step) && AtMostOnce(s) && FreshId(s, step)
    ensures AtMostOnce(Next(s, step))
  {
    var r := Next(s, step);
    ClientSide(s, step);
    NextInvariant(s, step);
    assert Balanced(r);
    hide Next, Invariant, Balanced, Count, CountIds, FreshId, AtMostOnce;
    forall id
      ensures Outstanding(r, id) <= 1
    {
      OutstandingAfter(s, step, r, id);
    }
    AtMostOnceIs(r);
  }

  lemma AtMostOnceIs(s: Server)
    requires Balanced(s) && forall id :: s.released <= |s.completed| && Outstanding(s, id) <= 1
    ensures AtMostOnce(s)
  {
  }

  lemma OutstandingAfter(s: Server, step: Step, r: Server, id: nat)
    requires AtMostOnce(s) && FreshId(s, step) && r.released <= |r.completed| && s.completed <= r.completed
    requires r.submitted == if step.Submit? then s.submitted + [step.cmd] else s.submitted
    requires r.released == if step.Release? then s.released + 1 else s.released
    ensures Outstanding(r, id) <= 1
  {
    hide Count, CountIds;
    assert Outstanding(s, id) <= 1;
    assert r.completed[..s.released] == s.completed[..s.released];
    if step.Submit? {
      CountAppend(s.submitted, step.cmd, id);
    }
    if step.Release? {
      CountIdsAppend(s.completed[..s.released], r.completed[s.released], id);
      assert r.completed[..s.released + 1] == s.completed[..s.released] + [r.completed[s.released]];
    }
  }

  lemma {:induction false} RunAtMostOnce(s: Server, steps: seq<Step>)
    requires Invariant(s) && Runs(s, steps) && ReusesIds(s, steps) && AtMostOnce(s)
    ensures AtMostOnce(Exec(s, steps))
    decreases |steps|
  {
    hide Invariant, Next, ClientRule, AtMostOnce, FreshId;
    if steps != [] {
      NextInvariant(s, steps[0]);
      StepAtMostOnce(s, steps[0]);
      RunAtMostOnce(Next(s, steps[0]), steps[1..]);
    }
  }

  lemma {:induction false} CountIdsConcat(p: seq<nat>, q: seq<nat>, id: nat)
    ensures CountIds(p + q, id) == CountIds(p, id) + CountIds(q, id)
    decreases |p|
  {
    if p == [] {
      assert p + q == q;
    } else {
      assert (p + q)[1..] == p[1..] + q;
      CountIdsConcat(p[1..], q, id);
    }
  }

  lemma {:induction false} CountConcat(p: seq<Command>, q: seq<Command>, id: nat)
    ensures Count(p + q, id) == Count(p, id) + Count(q, id)
    decreases |p|
  {
    if p == [] {
      assert p + q == q;
    } else {
      assert (p + q)[1..] == p[1..] + q;
      CountConcat(p[1..], q, id);
    }
  }

  /** Completions not yet given back are for ids still outstanding, no more often than that. */
  lemma UnreleasedAreOutstanding(s: Server, id: nat)
    requires Invariant(s)
    ensures s.released <= |s.completed|
    ensures CountIds(s.completed[s.released..], id) <= Outstanding(s, id)
  {
    assert Count(s.submitted[..s.taken], id) == Accounted(s, id);
    CountConcat(s.submitted[..s.taken], s.submitted[s.taken..], id);
    assert s.submitted[..s.taken] + s.submitted[s.taken..] == s.submitted;
    CountIdsConcat(s.completed[..s.released], s.completed[s.released..], id);
    assert s.completed[..s.released] + s.completed[s.released..] == s.completed;
    hide Count, CountIds;
  }

  /**
   Ids may come back: if the client uses an id again only after giving back its completion, the
   completions it has not given back are always for different commands, each of them outstanding.
   */
  lemma DistinctCompletions(slotNum: nat, steps: seq<Step>, i: nat, j: nat)
    requires Runs(Start(slotNum), steps) && ReusesIds(Start(slotNum), steps)
    requires var r := Exec(Start(slotNum), steps); r.released <= i < j < |r.completed|
    ensures var r := Exec(Start(slotNum), steps);
            r.completed[i] != r.completed[j] && Outstanding(r, r.completed[i]) == 1
  {
    hide Runs, ReusesIds, Exec, CountIds, Count, Next, Invariant;
    var s := Start(slotNum);
    StartInvariant(slotNum);
    NothingOutstanding(slotNum);
    ConservationOverAllRuns(s, steps);
    RunAtMostOnce(s, steps);
    var r := Exec(s, steps);
    var q := r.completed[r.released..];
    UnreleasedAreOutstanding(r, r.completed[i]);
    OnceIsOne(q, i - r.released);
    assert q[i - r.released] == r.completed[i];
    if r.completed[i] == r.completed[j] {
      TwiceIsTwo(q, i - r.released, j - r.released);
    }
  }

  lemma NothingOutstanding(slotNum: nat)
    ensures AtMostOnce(Start(slotNum))
  {
  }

  /** The SC task's response, whose id the completion uses, is the command the program task waits for. */
  lemma ResponseIsForTheWaiting(s: Server)
    requires Invariant(s) && s.program.Waiting? && s.scRespQ != []
    ensures var r := Next(s, ProgramResume);
            r.completed == s.completed + [s.program.cmd.cid] && r.program.Idle? && r.scRespQ == [] && !r.lost
  {
  }

  /**
   The client's rule is what makes the unchecked reservation safe: with every completion slot still
   in use, one more command, answered at once, loses its completion.
   */
  lemma TooManyOutstandingLosesACompletion(s: Server, bad: Command)
    requires Invariant(s) && Pending(s) == 0 && s.taken == |s.submitted| && bad.kind.None?
    ensures ClientRule(s, Submit(bad)) <==> !Exec(s, [Submit(bad), Receive, Dispatch]).lost
  {
    hide Conserved, Detour, Routed;
    var a := Next(s, Submit(bad));
    var b := Next(a, Receive);
    ThreeSteps(s, Submit(bad), Receive, Dispatch);
  }

  lemma ThreeSteps(s: Server, x: Step, y: Step, z: Step)
    ensures Exec(s, [x, y, z]) == Next(Next(Next(s, x), y), z)
  {
    hide Next;
    assert [x, y, z][1..] == [y, z] && [y, z][1..] == [z] && [z][1..] == [];
    assert Exec(Next(s, x), [y, z]) == Exec(Next(Next(s, x), y), [z]);
  }
}
