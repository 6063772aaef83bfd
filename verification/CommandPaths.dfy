/**
 Which task carries out which command, over whole runs: commands keep their order in every queue they
 pass, each is answered by the task of its kind, a firmware update only after the SC task had it, and
 the tasks never get stuck.
 */
module CommandPaths {
  import opened Machine
  import opened Completion

  datatype Task = ProgramTask | OpcodeTask

  /** The handler table. */
  function TaskOf(k: Kind): Task {
    match k
    case LoadXclbin => ProgramTask
    case DownloadPdi => ProgramTask
    case LoadApubin => ProgramTask
    case ProgramVmr => ProgramTask
    case ProgramScfw => ProgramTask
    case LogPage => OpcodeTask
    case Clock => OpcodeTask
    case VmrControl => OpcodeTask
    case Sensor => OpcodeTask
    case ClkThrottling => OpcodeTask
    case Identify => OpcodeTask
  }

  predicate For(c: Command, t: Task) {
    c.kind.Some? && TaskOf(c.kind.value) == t
  }

  predicate IsScfw(c: Command) {
    c.kind == Some(ProgramScfw)
  }

  function QueueOf(s: Server, t: Task): seq<Command> {
    match t
    case ProgramTask => s.programQ
    case OpcodeTask => s.opcodeQ
  }

  /** No such command, a payload that does not convert, or no place in the queue of its task. */
  predicate Refused(s: Server, c: Command) {
    || c.kind.None?
    || (!c.payloadOk && c.kind.value !in {ProgramScfw, Identify})
    || |QueueOf(s, TaskOf(c.kind.value))| >= 8
  }

  /** The command at the end of the queue of its task, and nothing else changed. */
  function Queued(s: Server, c: Command): Server
    requires c.kind.Some?
  {
    match TaskOf(c.kind.value)
    case ProgramTask => s.(programQ := s.programQ + [c])
    case OpcodeTask => s.(opcodeQ := s.opcodeQ + [c])
  }

  predicate QueuesKept(s: Server, r: Server) {
    r.programQ == s.programQ && r.opcodeQ == s.opcodeQ && r.scReqQ == s.scReqQ && r.scRespQ == s.scRespQ
  }

  /** A command is queued for its task and not answered, unless it is refused; then it is answered at once. */
  lemma DispatchQueues(s: Server)
    ensures s.receiving.Some? ==>
      var c, r := s.receiving.value, Next(s, Dispatch);
      && r == Dispatched(s)
      && (!Refused(s, c) ==> r == Queued(s, c).(receiving := None))
      && (Refused(s, c) ==> QueuesKept(s, r) && (!r.lost ==> r.completed == s.completed + [c.cid]))
  {
  }

  /** A free task takes the oldest command. */
  lemma TasksTake(s: Server)
    ensures s.program.Idle? && s.programQ != [] ==> Next(s, ProgramTake).program == Holding(s.programQ[0])
    ensures s.opcode.Idle? && s.opcodeQ != [] ==> Next(s, OpcodeTake).opcode == Holding(s.opcodeQ[0])
    ensures s.sc.None? && s.scReqQ != [] ==> Next(s, ScTake).sc == Some(s.scReqQ[0])
    ensures s.receiving.None? && s.taken < |s.submitted| ==> Next(s, Receive).receiving == Some(s.submitted[s.taken])
  {
  }

  /** What may reset the card is answered before it is carried out; the worker takes nothing until it returns. */
  lemma ResetsAnswerFirst(s: Server)
    ensures s.program.Holding? && For(s.program.cmd, ProgramTask) ==>
      var r := Next(s, ProgramRun);
      (s.program.cmd.kind == Some(ProgramVmr) <==> r.program == Answered(s.program.cmd))
    ensures s.opcode.Holding? && For(s.opcode.cmd, OpcodeTask) ==>
      var r := Next(s, OpcodeRun);
      (s.opcode.cmd.resets <==> r.opcode == Answered(s.opcode.cmd)) && (!s.opcode.cmd.resets <==> r.opcode.Idle?)
    ensures s.program.Answered? ==> Next(s, ProgramTake) == s && Next(s, ProgramRun) == s
    ensures s.opcode.Answered? ==> Next(s, OpcodeTake) == s && Next(s, OpcodeRun) == s
  {
  }

  // --- States of a run ---------------------------------------------------------------------------

  /** The state before step `i`. */
  function At(s: Server, steps: seq<Step>, i: nat): Server
    requires i <= |steps|
  {
    Exec(s, steps[..i])
  }

  lemma {:induction false} RunsPrefix(s: Server, steps: seq<Step>, i: nat)
    requires Runs(s, steps) && i <= |steps|
    ensures Runs(s, steps[..i]) && (i < |steps| ==> ClientRule(At(s, steps, i), steps[i]))
    decreases |steps|
  {
    hide Next, ClientRule;
    if i > 0 {
      RunsPrefix(Next(s, steps[0]), steps[1..], i - 1);
      assert steps[..i][1..] == steps[1..][..i - 1];
    }
  }

  lemma AtNext(s: Server, steps: seq<Step>, i: nat)
    requires Invariant(s) && Runs(s, steps) && i <= |steps|
    ensures Invariant(At(s, steps, i)) && At(s, steps, 0) == s && At(s, steps, |steps|) == Exec(s, steps)
    ensures i < |steps| ==> At(s, steps, i + 1) == Next(At(s, steps, i), steps[i])
  {
    hide Next, ClientRule, Invariant;
    RunsPrefix(s, steps, i);
    ConservationOverAllRuns(s, steps[..i]);
    assert steps[..|steps|] == steps;
    if i < |steps| {
      RunsSnoc(s, steps[..i], steps[i]);
      assert steps[..i + 1] == steps[..i] + [steps[i]];
    }
  }

  // --- Order -------------------------------------------------------------------------------------

  datatype Place = Ring | Hand | ProgramPlace | OpcodePlace | ScRequests | ScResponses

  /** The commands in a place, oldest first. */
  function In(s: Server, p: Place): seq<Command>
    requires s.taken <= |s.submitted|
  {
    match p
    case Ring => s.submitted[s.taken..]
    case Hand => if s.receiving.Some? then [s.receiving.value] else []
    case ProgramPlace => s.programQ
    case OpcodePlace => s.opcodeQ
    case ScRequests => s.scReqQ
    case ScResponses => s.scRespQ
  }

  function HeldBy(w: Worker): seq<Command> {
    if w.Idle? then [] else [w.cmd]
  }

  /** What a step puts into a place: the command the task before it gives away. */
  function Enters(s: Server, step: Step, p: Place): seq<Command> {
    match p
    case Ring => if step.Submit? then [step.cmd] else []
    case Hand =>
      if step.Receive? && s.receiving.None? && s.taken < |s.submitted| then [s.submitted[s.taken]] else []
    case ProgramPlace => if step.Dispatch? then Accepted(s, ProgramTask) else []
    case OpcodePlace => if step.Dispatch? then Accepted(s, OpcodeTask) else []
    case ScRequests => if step.ProgramRun? && s.program.Holding? && IsScfw(s.program.cmd) then [s.program.cmd] else []
    case ScResponses => if step.ScReply? && s.sc.Some? then [s.sc.value] else []
  }

  function Accepted(s: Server, t: Task): seq<Command> {
    if s.receiving.Some? && !Refused(s, s.receiving.value) && For(s.receiving.value, t) then [s.receiving.value] else []
  }

  /** What a step takes out of a place: the command the task behind it works on. */
  function Leaves(s: Server, step: Step, p: Place): seq<Command> {
    var r := Next(s, step);
    match p
    case Ring =>
      if step.Receive? && s.receiving.None? && r.receiving.Some? then [r.receiving.value] else []
    case Hand => if step.Dispatch? && s.receiving.Some? then [s.receiving.value] else []
    case ProgramPlace => if step.ProgramTake? && s.program.Idle? then HeldBy(r.program) else []
    case OpcodePlace => if step.OpcodeTake? && s.opcode.Idle? then HeldBy(r.opcode) else []
    case ScRequests => if step.ScTake? && s.sc.None? && r.sc.Some? then [r.sc.value] else []
    case ScResponses => if step.ProgramResume? && s.program.Waiting? && r.program.Idle? then [s.program.cmd] else []
  }

  function AllEntered(s: Server, steps: seq<Step>, p: Place): seq<Command>
    decreases |steps|
  {
    if steps == [] then [] else Enters(s, steps[0], p) + AllEntered(Next(s, steps[0]), steps[1..], p)
  }

  function AllLeft(s: Server, steps: seq<Step>, p: Place): seq<Command>
    decreases |steps|
  {
    if steps == [] then [] else Leaves(s, steps[0], p) + AllLeft(Next(s, steps[0]), steps[1..], p)
  }

  lemma StepInOrder(s: Server, step: Step, p: Place)
    requires Invariant(s)
    ensures Next(s, step).taken <= |Next(s, step).submitted|
    ensures In(s, p) + Enters(s, step, p) == Leaves(s, step, p) + In(Next(s, step), p)
  {
    RingInOrder(s, step);
    match p
    case Ring =>
    case Hand => HandInOrder(s, step);
    case ProgramPlace => QueueInOrder(s, step);
    case OpcodePlace => QueueInOrder(s, step);
    case ScRequests => RequestsInOrder(s, step);
    case ScResponses => ResponsesInOrder(s, step);
  }

  lemma HandInOrder(s: Server, step: Step)
    requires s.taken <= |s.submitted| && Next(s, step).taken <= |Next(s, step).submitted|
    ensures In(s, Hand) + Enters(s, step, Hand) == Leaves(s, step, Hand) + In(Next(s, step), Hand)
  {
  }

  lemma QueueInOrder(s: Server, step: Step)
    requires s.taken <= |s.submitted| && Next(s, step).taken <= |Next(s, step).submitted|
    ensures In(s, ProgramPlace) + Enters(s, step, ProgramPlace)
            == Leaves(s, step, ProgramPlace) + In(Next(s, step), ProgramPlace)
    ensures In(s, OpcodePlace) + Enters(s, step, OpcodePlace)
            == Leaves(s, step, OpcodePlace) + In(Next(s, step), OpcodePlace)
  {
    StepTouches(s, step);
    if step.Dispatch? {
      DispatchQueues(s);
      hide Next, Refused, Dispatched;
    } else if step.ProgramTake? || step.OpcodeTake? {
      hide Refused;
    } else {
      hide Next, Refused;
    }
  }

  lemma RequestsInOrder(s: Server, step: Step)
    requires Detour(s) && Routed(s)
    requires s.taken <= |s.submitted| && Next(s, step).taken <= |Next(s, step).submitted|
    ensures In(s, ScRequests) + Enters(s, step, ScRequests)
            == Leaves(s, step, ScRequests) + In(Next(s, step), ScRequests)
  {
    StepTouches(s, step);
    if step.ProgramRun? {
      RunRequests(s);
      hide Next, Detour;
    } else if !step.ScTake? {
      hide Next, Detour;
    }
  }

  lemma RunRequests(s: Server)
    requires Detour(s) && Routed(s)
    ensures s.scReqQ + (if s.program.Holding? && IsScfw(s.program.cmd) then [s.program.cmd] else [])
            == Next(s, ProgramRun).scReqQ
  {
  }

  lemma ResponsesInOrder(s: Server, step: Step)
    requires Detour(s) && s.taken <= |s.submitted| && Next(s, step).taken <= |Next(s, step).submitted|
    ensures In(s, ScResponses) + Enters(s, step, ScResponses)
            == Leaves(s, step, ScResponses) + In(Next(s, step), ScResponses)
  {
    StepTouches(s, step);
    if !(step.ProgramResume? || step.ScReply?) {
      hide Next, Detour;
    }
  }

  lemma RingInOrder(s: Server, step: Step)
    requires s.taken <= |s.submitted|
    ensures Next(s, step).taken <= |Next(s, step).submitted|
    ensures In(s, Ring) + Enters(s, step, Ring) == Leaves(s, step, Ring) + In(Next(s, step), Ring)
  {
    StepTouches(s, step);
    match step
    case Submit(c) => assert (s.submitted + [c])[s.taken..] == s.submitted[s.taken..] + [c];
    case Receive =>
    case _ =>
      hide Next;
  }

  lemma WorkersKept(s: Server, step: Step)
    ensures var r := Next(s, step);
            && (!(step.ProgramTake? || step.ProgramRun?) ==> r.program.Idle? || r.program == s.program)
            && (!step.OpcodeTake? ==> r.opcode.Idle? || HeldBy(r.opcode) == HeldBy(s.opcode))
  {
  }

  /** What the steps leave alone. */
  lemma StepTouches(s: Server, step: Step)
    ensures var r := Next(s, step);
            && (!step.Submit? ==> r.submitted == s.submitted) && (!step.Receive? ==> r.taken == s.taken)
            && (!MayComplete(step) ==> r.completed == s.completed)
            && (!(step.Dispatch? || step.ProgramTake?) ==> r.programQ == s.programQ)
            && (!(step.Dispatch? || step.OpcodeTake?) ==> r.opcodeQ == s.opcodeQ)
            && (!(step.ProgramRun? || step.ScTake?) ==> r.scReqQ == s.scReqQ)
            && (!(step.ScReply? || step.ProgramResume?) ==> r.scRespQ == s.scRespQ)
  {
  }

  /** What went into a place, in that order, is what came out and what is still there. */
  lemma {:induction false} ServedInOrder(s: Server, steps: seq<Step>, p: Place)
    requires Invariant(s) && Runs(s, steps)
    ensures s.taken <= |s.submitted| && Exec(s, steps).taken <= |Exec(s, steps).submitted|
    ensures In(s, p) + AllEntered(s, steps, p) == AllLeft(s, steps, p) + In(Exec(s, steps), p)
    decreases |steps|
  {
    hide Invariant, Next, ClientRule, Enters, Leaves, In;
    InvariantTaken(s);
    if steps != [] {
      var r := Next(s, steps[0]);
      NextInvariant(s, steps[0]);
      StepInOrder(s, steps[0], p);
      ServedInOrder(r, steps[1..], p);
      var e, l := Enters(s, steps[0], p), Leaves(s, steps[0], p);
      var es, ls := AllEntered(r, steps[1..], p), AllLeft(r, steps[1..], p);
      Chain(In(s, p), e, es, l, In(r, p), ls, In(Exec(s, steps), p));
    }
  }

  lemma InvariantTaken(s: Server)
    requires Invariant(s)
    ensures s.taken <= |s.submitted|
  {
  }

  lemma Chain(a: seq<Command>, e: seq<Command>, es: seq<Command>, l: seq<Command>, b: seq<Command>,
              ls: seq<Command>, z: seq<Command>)
    requires a + e == l + b && b + es == ls + z
    ensures a + (e + es) == (l + ls) + z
  {
    calc {
      a + (e + es);
      (a + e) + es;
      (l + b) + es;
      l + (b + es);
      l + (ls + z);
      (l + ls) + z;
    }
  }

  // --- Who answers --------------------------------------------------------------------------------

  /** Workers and their queues hold commands of their own kinds only. */
  ghost predicate Own(s: Server) {
    && (forall i | 0 <= i < |s.programQ| :: For(s.programQ[i], ProgramTask))
    && (forall i | 0 <= i < |s.opcodeQ| :: For(s.opcodeQ[i], OpcodeTask))
    && (!s.program.Idle? ==> For(s.program.cmd, ProgramTask))
    && (!s.opcode.Idle? ==> For(s.opcode.cmd, OpcodeTask))
    && (s.program.Waiting? ==> IsScfw(s.program.cmd))
  }

  lemma StepOwn(s: Server, step: Step)
    requires Own(s)
    ensures Own(Next(s, step))
  {
    StepTouches(s, step);
    WorkersKept(s, step);
    if step.Dispatch? {
      DispatchQueues(s);
      hide Next, Dispatched;
    } else if step.ProgramRun? || step.ProgramTake? || step.OpcodeTake? {
      hide For;
    } else {
      hide Next, For, IsScfw;
    }
  }

  /** Why an id may be answered by this step. */
  ghost predicate Justified(s: Server, step: Step, id: nat) {
    match step
    case Dispatch => s.receiving.Some? && s.receiving.value.cid == id && Refused(s, s.receiving.value)
    case ProgramRun =>
      s.program.Holding? && s.program.cmd.cid == id && For(s.program.cmd, ProgramTask) && !IsScfw(s.program.cmd)
    case ProgramResume => s.program.Waiting? && s.scRespQ != [] && s.program.cmd.cid == id && IsScfw(s.program.cmd)
    case OpcodeRun => s.opcode.Holding? && s.opcode.cmd.cid == id && For(s.opcode.cmd, OpcodeTask)
    case _ => false
  }

  lemma StepJustified(s: Server, step: Step)
    requires Invariant(s) && Own(s)
    ensures var r := Next(s, step);
            || r.completed == s.completed
            || (exists id :: r.completed == s.completed + [id] && Justified(s, step, id))
  {
    StepTouches(s, step);
    hide Conserved, Count;
    var r := Next(s, step);
    if MayComplete(step) && r.completed != s.completed {
      var id := r.completed[|s.completed|];
      assert r.completed == s.completed + [id] && Justified(s, step, id);
    }
  }

  lemma {:induction false} OwnAt(s: Server, steps: seq<Step>, i: nat)
    requires Invariant(s) && Runs(s, steps) && i <= |steps| && Own(s)
    ensures Own(At(s, steps, i))
  {
    hide Invariant, Next, Runs, Exec, Own;
    AtNext(s, steps, 0);
    if i > 0 {
      OwnAt(s, steps, i - 1);
      AtNext(s, steps, i - 1);
      StepOwn(At(s, steps, i - 1), steps[i - 1]);
    }
  }

  /**
   Every completion of a run was posted by a step that may answer its command: the task of its kind, holding
   it, or the receive task when it was refused.
   */
  lemma {:induction false} EveryAnswerJustified(s: Server, steps: seq<Step>, n: nat, k: nat)
    requires Invariant(s) && Runs(s, steps) && n <= |steps| && Own(s)
    requires |s.completed| <= k < |At(s, steps, n).completed|
    ensures exists i | 0 <= i < n ::
      |At(s, steps, i).completed| == k && Justified(At(s, steps, i), steps[i], At(s, steps, n).completed[k])
    decreases n
  {
    hide Invariant, Next, Runs, Exec, Own, Justified;
    AtNext(s, steps, 0);
    var t := At(s, steps, n - 1);
    AtNext(s, steps, n - 1);
    OwnAt(s, steps, n - 1);
    StepJustified(t, steps[n - 1]);
    if k < |t.completed| {
      EveryAnswerJustified(s, steps, n - 1, k);
    }
  }

  // --- Firmware updates ---------------------------------------------------------------------------

  /** The SC task had the command at step `j`, and the program task waited for it from then to step `n`. */
  ghost predicate HadBySc(s: Server, steps: seq<Step>, c: Command, j: nat, n: nat)
    requires n <= |steps|
  {
    j <= n && At(s, steps, j).sc == Some(c) && forall i | j <= i <= n :: At(s, steps, i).program == Waiting(c)
  }

  /** The response was put there by the SC task. */
  lemma {:induction false} ScTaskHadIt(s: Server, steps: seq<Step>, n: nat)
    requires Invariant(s) && Runs(s, steps) && n <= |steps| && s.scRespQ == []
    requires At(s, steps, n).program.Waiting? && At(s, steps, n).scRespQ != []
    ensures exists j :: HadBySc(s, steps, At(s, steps, n).program.cmd, j, n)
    decreases n
  {
    hide Invariant, Next, Runs, Exec;
    AtNext(s, steps, 0);
    var t, r := At(s, steps, n - 1), At(s, steps, n);
    AtNext(s, steps, n - 1);
    ResponseFrom(t, steps[n - 1]);
    var c := r.program.cmd;
    if t.scRespQ != [] {
      ScTaskHadIt(s, steps, n - 1);
      var j :| HadBySc(s, steps, c, j, n - 1);
      assert HadBySc(s, steps, c, j, n);
    } else {
      assert HadBySc(s, steps, c, n - 1, n);
    }
  }

  lemma ResponseFrom(s: Server, step: Step)
    requires Invariant(s) && Next(s, step).program.Waiting? && Next(s, step).scRespQ != []
    ensures s.program == Next(s, step).program && (s.scRespQ != [] || s.sc == Some(s.program.cmd))
  {
    hide Conserved, Count;
  }

  /**
   From the start, every answer of a run has its cause: the task of the command's kind held it, or it was
   refused at dispatch; and a firmware update is answered only after the SC task had it, while the program
   task waited for it.
   */
  lemma EveryAnswer(slotNum: nat, steps: seq<Step>, k: nat)
    requires Runs(Start(slotNum), steps) && k < |Exec(Start(slotNum), steps).completed|
    ensures var s := Start(slotNum);
            exists i | 0 <= i < |steps| ::
              && |At(s, steps, i).completed| == k
              && Justified(At(s, steps, i), steps[i], Exec(s, steps).completed[k])
              && (steps[i].ProgramResume? ==>
                    At(s, steps, i).program.Waiting?
                    && exists j :: HadBySc(s, steps, At(s, steps, i).program.cmd, j, i))
  {
    var s, n := Start(slotNum), |steps|;
    StartInvariant(slotNum);
    hide Invariant, Next, Runs, Exec, At, HadBySc;
    AtNext(s, steps, 0);
    EveryAnswerJustified(s, steps, n, k);
    var i :| 0 <= i < n
      && |At(s, steps, i).completed| == k && Justified(At(s, steps, i), steps[i], At(s, steps, n).completed[k]);
    if steps[i].ProgramResume? {
      ScTaskHadIt(s, steps, i);
    }
  }

  // --- Progress -------------------------------------------------------------------------------------

  predicate TaskStep(step: Step) {
    !step.Submit? && !step.Release?
  }

  function WorkOf(w: Worker): nat {
    match w
    case Idle => 0
    case Holding(_) => 5
    case Waiting(_) => 1
    case Answered(_) => 1
  }

  /** Steps the tasks still have to make, at most. */
  function Work(s: Server): nat
    requires s.taken <= |s.submitted|
  {
    8 * (|s.submitted| - s.taken) + (if s.receiving.Some? then 7 else 0) + 6 * |s.programQ| + 6 * |s.opcodeQ|
    + WorkOf(s.program) + WorkOf(s.opcode) + 3 * |s.scReqQ| + (if s.sc.Some? then 2 else 0) + |s.scRespQ|
  }

  /** A step of a task either changes nothing or leaves less to do. */
  lemma StepWorks(s: Server, step: Step)
    requires Invariant(s) && TaskStep(step)
    ensures var r := Next(s, step); r.taken <= |r.submitted| && (r == s || Work(r) < Work(s))
  {
    if step.Dispatch? || step.Receive? {
      ReceiveWorks(s, step);
    } else if step.OpcodeTake? || step.OpcodeRun? || step.OpcodeReturn? {
      OpcodeWorks(s, step);
    } else if step.ScTake? || step.ScReply? {
      ScWorks(s, step);
    } else if step.ProgramRun? {
      RunWorks(s);
    } else {
      ProgramWorks(s, step);
    }
  }

  lemma ReceiveWorks(s: Server, step: Step)
    requires s.taken <= |s.submitted| && (step.Dispatch? || step.Receive?)
    ensures var r := Next(s, step); r.taken <= |r.submitted| && (r == s || Work(r) < Work(s))
  {
    if step.Dispatch? && s.receiving.Some? {
      DispatchKeeps(s);
      DispatchQueues(s);
      hide Next, Dispatched, Refused;
    }
  }

  /** Dispatching touches nothing but the queues and the completions. */
  lemma DispatchKeeps(s: Server)
    ensures var r := Next(s, Dispatch);
            && r.submitted == s.submitted && r.taken == s.taken && r.receiving.None?
            && r.program == s.program && r.opcode == s.opcode && r.sc == s.sc
  {
  }

  lemma OpcodeWorks(s: Server, step: Step)
    requires s.taken <= |s.submitted| && (step.OpcodeTake? || step.OpcodeRun? || step.OpcodeReturn?)
    ensures var r := Next(s, step); r.taken <= |r.submitted| && (r == s || Work(r) < Work(s))
  {
  }

  lemma ProgramWorks(s: Server, step: Step)
    requires s.taken <= |s.submitted|
    requires step.ProgramTake? || step.ProgramResume? || step.ProgramReturn?
    ensures var r := Next(s, step); r.taken <= |r.submitted| && (r == s || Work(r) < Work(s))
  {
  }

  lemma RunWorks(s: Server)
    requires s.taken <= |s.submitted|
    ensures var r := Next(s, ProgramRun); r.taken <= |r.submitted| && (r == s || Work(r) < Work(s))
  {
    RunTouches(s);
    hide Next;
  }

  /** The program task working on its command changes its own state, or hands the command to the SC task. */
  lemma RunTouches(s: Server)
    ensures var r := Next(s, ProgramRun);
            && r.submitted == s.submitted && r.taken == s.taken && r.receiving == s.receiving && r.opcode == s.opcode
            && r.programQ == s.programQ && r.opcodeQ == s.opcodeQ && r.scRespQ == s.scRespQ && r.sc == s.sc
            && (r == s || (s.program.Holding? && (r.program.Idle? || r.program.Answered?) && r.scReqQ == s.scReqQ)
                || (s.program.Holding? && r.program.Waiting? && r.scReqQ == s.scReqQ + [s.program.cmd]))
  {
  }

  lemma ScWorks(s: Server, step: Step)
    requires s.taken <= |s.submitted| && (step.ScTake? || step.ScReply?)
    ensures var r := Next(s, step); r.taken <= |r.submitted| && (r == s || Work(r) < Work(s))
  {
  }

  /** While there is anything to do, some task can do it. */
  lemma NeverStuck(s: Server)
    requires Invariant(s) && Work(s) > 0
    ensures exists step | TaskStep(step) :: Next(s, step) != s
  {
    var step := Ready(s);
    ReadyMoves(s);
    assert TaskStep(step) && Next(s, step) != s;
  }

  /** A step that some task can make. */
  function Ready(s: Server): Step {
    if s.receiving.Some? then Dispatch
    else if s.taken < |s.submitted| then Receive
    else if s.program.Holding? then ProgramRun
    else if s.program.Answered? then ProgramReturn
    else if s.program.Waiting? then
      if s.scReqQ != [] then ScTake else if s.sc.Some? then ScReply else ProgramResume
    else if s.programQ != [] then ProgramTake
    else if s.opcode.Holding? then OpcodeRun
    else if s.opcode.Answered? then OpcodeReturn
    else OpcodeTake
  }

  lemma ReadyMoves(s: Server)
    requires Invariant(s) && Work(s) > 0
    ensures TaskStep(Ready(s)) && Next(s, Ready(s)) != s
  {
    hide Conserved, Count;
    var r := Next(s, Ready(s));
    assert r.receiving != s.receiving || r.taken != s.taken || r.program != s.program || r.opcode != s.opcode
           || r.sc != s.sc;
  }

  /** How many of the steps changed something. */
  ghost function Moves(s: Server, steps: seq<Step>): nat
    decreases |steps|
  {
    if steps == [] then 0
    else (if Next(s, steps[0]) != s then 1 else 0) + Moves(Next(s, steps[0]), steps[1..])
  }

  /** However the tasks are scheduled, they come to rest: only so many of their steps do anything. */
  lemma {:induction false} WorkBoundsMoves(s: Server, steps: seq<Step>)
    requires Invariant(s) && forall i | 0 <= i < |steps| :: TaskStep(steps[i])
    ensures Exec(s, steps).taken <= |Exec(s, steps).submitted|
    ensures Moves(s, steps) + Work(Exec(s, steps)) <= Work(s)
    decreases |steps|
  {
    hide Invariant, Next, Work;
    InvariantTaken(s);
    if steps != [] {
      TaskAllowed(s, steps[0]);
      NextInvariant(s, steps[0]);
      StepWorks(s, steps[0]);
      WorkBoundsMoves(Next(s, steps[0]), steps[1..]);
    }
  }

  lemma TaskAllowed(s: Server, step: Step)
    requires TaskStep(step)
    ensures ClientRule(s, step)
  {
  }

  /** At rest every command submitted has been answered, as often as it was submitted. */
  lemma AtRest(s: Server, id: nat)
    requires Invariant(s) && forall step | TaskStep(step) :: Next(s, step) == s
    ensures CountIds(s.completed, id) == Count(s.submitted, id)
  {
    if Work(s) > 0 {
      NeverStuck(s);
    }
    hide Count, CountIds;
    assert s.submitted[..s.taken] == s.submitted;
    assert Count(s.submitted[..s.taken], id) == Accounted(s, id);
    assert s.programQ == [] && s.opcodeQ == [];
    NoneCounted(id);
  }

  lemma NoneCounted(id: nat)
    ensures Count([], id) == 0
  {
  }
}
