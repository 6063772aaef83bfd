/**
 The SC firmware updater as a state machine: one step per handler call, driven by what the serial
 line brings back. Retry counters and the response size tried by the first state are statics of
 the handlers, so they live on between updates.
 */
module ScUpdate {
  import opened Machine
  import opened Crc16
  import opened ScImage

  datatype State = Idle | SyncScBsl | EnableBsl | SyncVmcBsl | UnlockBsl | MassErase | SendData | LoadPc | Reboot
  datatype Status = Success | Failure | InProgress
  datatype Error =
    | NoError | ScBslSyncFailed | EnableBslFailed | VmcBslSyncFailed | UnlockFailed
    | EraseFailed | InvalidSymbol | PostCrcFailed | InvalidResponse

  /** The value handed to the host. */
  function ErrorCode(e: Error): byte {
    match e
    case NoError => 0
    case ScBslSyncFailed => 0xE1
    case EnableBslFailed => 0xE2
    case VmcBslSyncFailed => 0xE3
    case UnlockFailed => 0xE4
    case EraseFailed => 0xE5
    case InvalidSymbol => 0xE6
    case PostCrcFailed => 0xE7
    case InvalidResponse => 0xE8
  }

  const MAX_RETRY: nat := 5
  const MODE_CONFIRMATIONS: nat := 3
  const SC_MODE_SIZE: nat := 11
  const UNKNOWN_MSG_SIZE: nat := 8
  const SYNCED_SIZE: nat := 1
  const BSL_RESPONSE_SIZE: nat := 8
  const CRC_RESPONSE_SIZE: nat := 9
  const LOAD_PC_SIZE: nat := 1

  // --- Replies --------------------------------------------------------------------------------

  /**
   What the serial line makes of one transaction: whether the receiver could be set up, whether the
   request went out, and the bytes that came back before the wait ended, in time or not.
   */
  datatype Wire = Wire(armed: bool, sent: bool, inTime: bool, received: seq<byte>)

  /** A request that never left, one without an answer of the right size, or the answer. */
  datatype Reply = NotSent | Unanswered | Received(buffer: seq<byte>)

  /** A transaction that waits for `size` bytes. */
  function Heard(w: Wire, size: nat): Reply {
    if !(w.armed && w.sent) then NotSent
    else if w.inTime && |w.received| == size then Received(w.received)
    else Unanswered
  }

  /** The buffer is filled with 0xFF before every transaction. */
  function Byte(b: seq<byte>, i: nat): byte {
    if i < |b| then b[i] else 0xFF
  }

  function Bytes(b: seq<byte>, at: nat, n: nat): seq<byte> {
    seq<byte>(n, i requires 0 <= i < n => Byte(b, at + i))
  }

  /** Header and checksum of a BSL response of `length` bytes. */
  predicate ValidResponse(b: seq<byte>, length: nat)
    requires length >= 2
  {
    && Byte(b, 0) == 0 && Byte(b, 1) == HEADER
    && var crc := Crc(Bytes(b, 4, (Byte(b, 3) as int) * 0x100 + Byte(b, 2)));
       Byte(b, length - 2) == CrcLow(crc) && Byte(b, length - 1) == CrcHigh(crc)
  }

  predicate Acknowledged(b: seq<byte>) {
    ValidResponse(b, 8) && Byte(b, 4) == 0x3B && Byte(b, 5) == 0
  }

  predicate InScMode(b: seq<byte>) {
    Byte(b, 0) == 0x5C && Byte(b, 1) == 2
  }

  /** A sign of life of the BSL, for the response size asked for. */
  predicate InBslMode(b: seq<byte>, stage: nat) {
    || (stage == UNKNOWN_MSG_SIZE && ValidResponse(b, 8))
    || (stage == SYNCED_SIZE && Byte(b, 0) == 0)
  }

  predicate BslEnabled(b: seq<byte>) {
    Byte(b, 0) == 0x5C && Byte(b, 2) == 0xFE
  }

  predicate LoadPcAccepted(w: Wire) {
    var r := Heard(w, LOAD_PC_SIZE);
    r.Received? && Byte(r.buffer, 0) == 0
  }

  // --- States before the data -------------------------------------------------------------------

  datatype Fsm = Fsm(state: State, status: Status, error: Error,
                     stage: nat, mode: nat, syncRetries: nat,
                     enableRetries: nat, syncedRetries: nat, unlockRetries: nat, eraseRetries: nat)

  function Failed(m: Fsm, e: Error): Fsm {
    m.(state := Idle, status := Failure, error := e)
  }

  function SyncAnswer(m: Fsm, r: Reply): Fsm {
    if !r.Received? then m.(syncRetries := m.syncRetries + 1)
    else if InScMode(r.buffer) then m.(mode := 0, syncRetries := 0, state := EnableBsl)
    else if InBslMode(r.buffer, m.stage) && m.mode <= MODE_CONFIRMATIONS then
      if m.mode + 1 >= MODE_CONFIRMATIONS then
        m.(mode := 0, syncRetries := 0, state := UnlockBsl, stage := SC_MODE_SIZE)
      else m.(mode := m.mode + 1)
    else m.(syncRetries := m.syncRetries + 1, mode := 0)
  }

  /** Out of retries: the next response size, or failure after the last. */
  function SyncExhausted(m: Fsm): Fsm {
    if m.stage == SYNCED_SIZE then
      Failed(m, ScBslSyncFailed).(syncRetries := 0, mode := 0, stage := SC_MODE_SIZE)
    else
      m.(syncRetries := 0, mode := 0,
         stage := if m.stage == SC_MODE_SIZE then UNKNOWN_MSG_SIZE
                  else if m.stage == UNKNOWN_MSG_SIZE then SYNCED_SIZE else m.stage)
  }

  function SyncStep(m: Fsm, r: Reply): Fsm {
    var next := SyncAnswer(m, r);
    if next.syncRetries >= MAX_RETRY then SyncExhausted(next) else next
  }

  function EnableStep(m: Fsm, r: Reply): Fsm {
    if r.Received? && BslEnabled(r.buffer) then m.(enableRetries := 0, state := SyncVmcBsl)
    else if m.enableRetries + 1 >= MAX_RETRY then Failed(m, EnableBslFailed).(enableRetries := 0)
    else m.(enableRetries := m.enableRetries + 1)
  }

  function SyncedStep(m: Fsm, r: Reply): Fsm {
    if r.Received? && Byte(r.buffer, 0) == 0 then m.(syncedRetries := 0, state := UnlockBsl)
    else if m.syncedRetries + 1 >= MAX_RETRY then Failed(m, VmcBslSyncFailed).(syncedRetries := 0)
    else m.(syncedRetries := m.syncedRetries + 1)
  }

  function UnlockStep(m: Fsm, r: Reply): Fsm {
    if r.Received? && Acknowledged(r.buffer) then m.(unlockRetries := 0, state := MassErase)
    else if m.unlockRetries + 1 >= MAX_RETRY then Failed(m, UnlockFailed).(unlockRetries := 0)
    else m.(unlockRetries := m.unlockRetries + 1)
  }

  function EraseStep(m: Fsm, r: Reply): Fsm {
    if r.Received? && Acknowledged(r.buffer) then m.(eraseRetries := 0, state := SendData)
    else if m.eraseRetries + 1 >= MAX_RETRY then Failed(m, EraseFailed).(eraseRetries := 0)
    else m.(eraseRetries := m.eraseRetries + 1)
  }

  predicate Preparing(s: State) {
    s in {SyncScBsl, EnableBsl, SyncVmcBsl, UnlockBsl, MassErase}
  }

  function PrepareStep(m: Fsm, r: Reply): Fsm
    requires Preparing(m.state)
  {
    match m.state
    case SyncScBsl => SyncStep(m, r)
    case EnableBsl => EnableStep(m, r)
    case SyncVmcBsl => SyncedStep(m, r)
    case UnlockBsl => UnlockStep(m, r)
    case MassErase => EraseStep(m, r)
  }

  /** How many bytes of answer the current state asks for. */
  function Asked(m: Fsm, vck5000: bool): nat {
    match m.state
    case SyncScBsl => m.stage
    case EnableBsl => SC_MODE_SIZE
    case SyncVmcBsl => if vck5000 then SYNCED_SIZE else SYNCED_SIZE + UNKNOWN_MSG_SIZE
    case _ => BSL_RESPONSE_SIZE
  }

  function AnswerFor(m: Fsm, w: Wire, vck5000: bool): Reply {
    Heard(w, Asked(m, vck5000))
  }

  /** Retry counters never reach their limits, and only the current state's is in use. */
  predicate Counters(m: Fsm) {
    && m.stage in {SC_MODE_SIZE, UNKNOWN_MSG_SIZE, SYNCED_SIZE}
    && m.mode < MODE_CONFIRMATIONS && m.syncRetries < MAX_RETRY && m.enableRetries < MAX_RETRY
    && m.syncedRetries < MAX_RETRY && m.unlockRetries < MAX_RETRY && m.eraseRetries < MAX_RETRY
    && (m.state != SyncScBsl ==> m.mode == 0 && m.syncRetries == 0)
    && (m.state != EnableBsl ==> m.enableRetries == 0)
    && (m.state != SyncVmcBsl ==> m.syncedRetries == 0)
    && (m.state != UnlockBsl ==> m.unlockRetries == 0)
    && (m.state != MassErase ==> m.eraseRetries == 0)
  }

  /** Status and error at every turn of the updater's loop. */
  predicate Consistent(m: Fsm) {
    && Counters(m)
    && (m.status == InProgress <==> m.state != Idle)
    && (m.status == Failure ==> m.error != NoError)
    && (m.state != Idle ==> (m.error != NoError <==> m.state == Reboot))
  }

  /** The order of the states; every way out of it leads to Idle. */
  predicate Follows(before: State, after: State) {
    match before
    case Idle => after == SyncScBsl
    case SyncScBsl => after in {SyncScBsl, EnableBsl, UnlockBsl, Idle}
    case EnableBsl => after in {EnableBsl, SyncVmcBsl, Idle}
    case SyncVmcBsl => after in {SyncVmcBsl, UnlockBsl, Idle}
    case UnlockBsl => after in {UnlockBsl, MassErase, Idle}
    case MassErase => after in {MassErase, SendData, Idle}
    case SendData => after in {LoadPc, Reboot, Idle}
    case LoadPc => after in {LoadPc, Idle}
    case Reboot => after in {Reboot, Idle}
  }

  /** A run from the first state to `last`, in the order of the states. */
  ghost predicate PathTo(trace: seq<State>, last: State) {
    && trace != [] && trace[0] == SyncScBsl && trace[|trace| - 1] == last
    && forall i | 0 <= i < |trace| - 1 :: Follows(trace[i], trace[i + 1])
  }

  lemma ExtendPath(trace: seq<State>, last: State, next: State)
    requires PathTo(trace, last) && Follows(last, next)
    ensures PathTo(trace + [next], next)
    ensures LoadPc in trace + [next] <==> LoadPc in trace || next == LoadPc
  {
    hide Follows;
  }

  /** Calls that can still be made before the data state or the end. */
  function Budget(m: Fsm): int {
    match m.state
    case SyncScBsl =>
      20 + (if m.stage == SC_MODE_SIZE then 30 else if m.stage == UNKNOWN_MSG_SIZE then 15 else 0)
      + 3 * (5 - m.syncRetries) - m.mode
    case EnableBsl => 15 + (5 - m.enableRetries)
    case SyncVmcBsl => 10 + (5 - m.syncedRetries)
    case UnlockBsl => 5 + (5 - m.unlockRetries)
    case MassErase => 5 - m.eraseRetries
    case _ => 0
  }

  /** One call before the data state: the invariant is kept, the order respected, the budget spent. */
  ghost predicate Progress(m: Fsm, next: Fsm) {
    && Consistent(next)
    && Follows(m.state, next.state)
    && 0 <= Budget(next) < Budget(m)
    && (next.state == Idle <==> next.status == Failure)
    && (Preparing(next.state) || next.state in {SendData, Idle})
  }

  lemma SyncProgress(m: Fsm, r: Reply)
    requires m.state == SyncScBsl && Consistent(m)
    ensures Progress(m, SyncStep(m, r))
  {
    hide ValidResponse, InScMode, InBslMode;
  }

  lemma RetryProgress(m: Fsm, r: Reply)
    requires m.state in {EnableBsl, SyncVmcBsl, UnlockBsl, MassErase} && Consistent(m)
    ensures Progress(m, PrepareStep(m, r))
  {
    hide ValidResponse, SyncStep, Acknowledged, BslEnabled;
  }

  lemma PrepareStepCorrect(m: Fsm, r: Reply)
    requires Preparing(m.state) && Consistent(m)
    ensures Progress(m, PrepareStep(m, r))
    ensures 0 < Budget(m) <= 65
  {
    hide Progress, SyncStep, EnableStep, SyncedStep, UnlockStep, EraseStep;
    if m.state == SyncScBsl {
      SyncProgress(m, r);
    } else {
      RetryProgress(m, r);
    }
  }

  /** The state that ends the preparation that starts at transaction `t`, and the time it is reached. */
  function Prepared(line: nat -> Wire, t: nat, m: Fsm, vck5000: bool): (Fsm, nat)
    requires Consistent(m)
    decreases if Preparing(m.state) then Budget(m) else 0
  {
    if !Preparing(m.state) then (m, t)
    else
      PrepareStepCorrect(m, AnswerFor(m, line(t), vck5000));
      Prepared(line, t + 1, PrepareStep(m, AnswerFor(m, line(t), vck5000)), vck5000)
  }

  /** Whatever the line brings back, 65 calls are enough to fail or to reach the data state. */
  lemma {:induction false} PreparationEnds(line: nat -> Wire, t: nat, m: Fsm, vck5000: bool)
    requires Consistent(m) && Preparing(m.state)
    ensures var (after, end) := Prepared(line, t, m, vck5000);
            && t < end <= t + Budget(m) <= t + 65
            && Consistent(after)
            && ((after.state == SendData && after.error == NoError) || (after.state == Idle && after.status == Failure))
    decreases Budget(m)
  {
    hide PrepareStep, Budget, Consistent, AnswerFor;
    var r := AnswerFor(m, line(t), vck5000);
    PrepareStepCorrect(m, r);
    var next := PrepareStep(m, r);
    if Preparing(next.state) {
      PreparationEnds(line, t + 1, next, vck5000);
    } else if next.state == SendData {
      ErrorFree(next);
    }
  }

  lemma ErrorFree(m: Fsm)
    requires Consistent(m) && m.state == SendData
    ensures m.error == NoError
  {
  }

  /** The state after `s` in the order of the retry states. */
  function After(s: State): State {
    match s
    case EnableBsl => SyncVmcBsl
    case SyncVmcBsl => UnlockBsl
    case UnlockBsl => MassErase
    case _ => SendData
  }

  function Position(s: State): nat {
    match s
    case SyncScBsl => 0
    case EnableBsl => 1
    case SyncVmcBsl => 2
    case UnlockBsl => 3
    case MassErase => 4
    case _ => 5
  }

  predicate Retrying(s: State) {
    s in {EnableBsl, SyncVmcBsl, UnlockBsl, MassErase}
  }

  /** The answer a retry state waits for. */
  predicate Granted(s: State, r: Reply) {
    && r.Received?
    && match s
       case EnableBsl => BslEnabled(r.buffer)
       case SyncVmcBsl => Byte(r.buffer, 0) == 0
       case _ => Acknowledged(r.buffer)
  }

  function ErrorIn(s: State): Error {
    match s
    case EnableBsl => EnableBslFailed
    case SyncVmcBsl => VmcBslSyncFailed
    case UnlockBsl => UnlockFailed
    case _ => EraseFailed
  }

  function Retries(m: Fsm): nat {
    match m.state
    case EnableBsl => m.enableRetries
    case SyncVmcBsl => m.syncedRetries
    case UnlockBsl => m.unlockRetries
    case MassErase => m.eraseRetries
    case _ => 0
  }

  /** The effect of one answer on a retry state. */
  lemma RetryAnswer(m: Fsm, r: Reply)
    requires Retrying(m.state) && Consistent(m)
    ensures var next := PrepareStep(m, r);
            if Granted(m.state, r) then next.state == After(m.state) && Retries(next) == 0
            else if Retries(m) + 1 == MAX_RETRY then next.state == Idle && next.error == ErrorIn(m.state)
            else next.state == m.state && Retries(next) == Retries(m) + 1
  {
    hide ValidResponse, SyncStep, Acknowledged, BslEnabled;
  }

  /** Leaving the first state: its own failure, or a retry state with no retries used. */
  lemma SyncLeaves(m: Fsm, r: Reply)
    requires m.state == State.SyncScBsl && Consistent(m)
    ensures var next := PrepareStep(m, r);
            && (next.state == Idle ==> next.error == ScBslSyncFailed)
            && next.state in {State.SyncScBsl, EnableBsl, State.UnlockBsl, Idle}
            && (next.state != State.SyncScBsl ==> Retries(next) == 0)
  {
    hide ValidResponse, InScMode, InBslMode;
  }

  /** `n` answers from `k` on that are not what state `s` waits for. */
  ghost predicate Refused(line: nat -> Wire, k: nat, n: nat, s: State, vck5000: bool)
    requires Retrying(s)
  {
    forall i | k <= i < k + n :: !Granted(s, Heard(line(i), SizeIn(s, vck5000)))
  }

  /** The size of the answer a retry state asks for. */
  function SizeIn(s: State, vck5000: bool): nat
    requires Retrying(s)
  {
    match s
    case EnableBsl => 11
    case SyncVmcBsl => if vck5000 then 1 else 9
    case _ => 8
  }

  lemma SizeAsked(m: Fsm, vck5000: bool)
    requires Retrying(m.state)
    ensures Asked(m, vck5000) == SizeIn(m.state, vck5000)
  {
  }

  /**
   Giving up takes five refusals in a row: if the preparation ends with the error of a retry state, the
   last answers, five of them if the state was entered on the way, were not what it waits for.
   */
  lemma {:induction false} GivesUpAfterRefusals(line: nat -> Wire, t: nat, m: Fsm, vck5000: bool, s: State)
    requires Consistent(m) && Preparing(m.state) && Retrying(s)
    requires Prepared(line, t, m, vck5000).0.state == Idle && Prepared(line, t, m, vck5000).0.error == ErrorIn(s)
    ensures Position(m.state) <= Position(s)
    ensures var n, end := if m.state == s then MAX_RETRY - Retries(m) else MAX_RETRY, Prepared(line, t, m, vck5000).1;
            t + n <= end && Refused(line, end - n, n, s, vck5000)
    ensures m.state == s ==> Prepared(line, t, m, vck5000).1 == t + MAX_RETRY - Retries(m)
    decreases Budget(m)
  {
    hide PrepareStep, Granted, Budget, Consistent, Counters, AnswerFor, Asked, SizeIn;
    var r := AnswerFor(m, line(t), vck5000);
    PrepareStepCorrect(m, r);
    var next := PrepareStep(m, r);
    WithinLimit(m);
    if m.state == State.SyncScBsl {
      SyncLeaves(m, r);
    } else {
      RetryAnswer(m, r);
      SizeAsked(m, vck5000);
      assert r == Heard(line(t), SizeIn(m.state, vck5000)) by {
        AnswerIs(m, line(t), vck5000);
      }
    }
    if Preparing(next.state) {
      GivesUpAfterRefusals(line, t + 1, next, vck5000, s);
    }
  }

  lemma AnswerIs(m: Fsm, w: Wire, vck5000: bool)
    ensures AnswerFor(m, w, vck5000) == Heard(w, Asked(m, vck5000))
  {
  }

  lemma WithinLimit(m: Fsm)
    requires Consistent(m)
    ensures Retries(m) < MAX_RETRY
  {
  }

  /** Five refusals in a row make a retry state give up with its own error. */
  lemma {:induction false} RefusalsEndIt(line: nat -> Wire, t: nat, m: Fsm, vck5000: bool)
    requires Consistent(m) && Retrying(m.state)
    requires Refused(line, t, MAX_RETRY - Retries(m), m.state, vck5000)
    ensures var (after, end) := Prepared(line, t, m, vck5000);
            after.state == Idle && after.error == ErrorIn(m.state) && end == t + MAX_RETRY - Retries(m)
    decreases Budget(m)
  {
    hide PrepareStep, Granted, Budget, Consistent, Counters, AnswerFor, Asked, SizeIn;
    var r := AnswerFor(m, line(t), vck5000);
    PrepareStepCorrect(m, r);
    WithinLimit(m);
    RetryAnswer(m, r);
    SizeAsked(m, vck5000);
    AnswerIs(m, line(t), vck5000);
    var next := PrepareStep(m, r);
    if Preparing(next.state) {
      RefusalsEndIt(line, t + 1, next, vck5000);
    }
  }

  /** The transactions `i` and `j` bring acknowledgements, in this order, before time `end`. */
  predicate TwoAcknowledged(line: nat -> Wire, t: nat, i: nat, j: nat, end: nat) {
    t <= i < j < end && Granted(UnlockBsl, Heard(line(i), 8)) && Granted(MassErase, Heard(line(j), 8))
  }

  /** No data is sent before an unlock and, after it, an erase have been acknowledged. */
  lemma {:induction false} DataNeedsAcknowledgements(line: nat -> Wire, t: nat, m: Fsm, vck5000: bool)
      returns (i: nat, j: nat)
    requires Consistent(m) && Preparing(m.state) && Prepared(line, t, m, vck5000).0.state == SendData
    ensures m.state != MassErase ==> TwoAcknowledged(line, t, i, j, Prepared(line, t, m, vck5000).1)
    ensures m.state == MassErase ==>
      t <= j < Prepared(line, t, m, vck5000).1 && Granted(MassErase, Heard(line(j), 8))
    decreases Budget(m)
  {
    hide PrepareStep, Granted, Budget, Consistent, Counters, AnswerFor, Asked;
    var r := AnswerFor(m, line(t), vck5000);
    PrepareStepCorrect(m, r);
    var next := PrepareStep(m, r);
    i, j := t, t;
    if m.state == State.SyncScBsl {
      SyncLeaves(m, r);
    } else {
      RetryAnswer(m, r);
      SizeAsked(m, vck5000);
      AnswerIs(m, line(t), vck5000);
    }
    if Preparing(next.state) {
      i, j := DataNeedsAcknowledgements(line, t + 1, next, vck5000);
      if m.state == State.UnlockBsl && next.state == MassErase {
        i := t;
      }
    }
  }

  // --- The data state ---------------------------------------------------------------------------

  /**
   The fate of one packet, its read-back included. A packet that could not be sent and one that drew no
   answer look the same to the updater; the second may have arrived.
   */
  datatype Verdict = Unsent | Unheard | Passed | CrcMismatch | Rejected

  predicate Tolerated(v: Verdict) {
    v in {Unsent, Unheard, Passed}
  }

  /** The read-back disagrees only in a valid response; a lost or invalid one passes. */
  predicate ReadBackFails(r: Reply, crc: bv16) {
    && r.Received? && ValidResponse(r.buffer, 9)
    && (Byte(r.buffer, 4) == 0x3A ==> Byte(r.buffer, 5) != CrcLow(crc) || Byte(r.buffer, 6) != CrcHigh(crc))
  }

  /** The verdict on a packet sent at time `t`, and the number of transactions it took. */
  function Judge(line: nat -> Wire, t: nat, crc: bv16): (r: (Verdict, nat))
    ensures r.1 > 0
  {
    match Heard(line(t), BSL_RESPONSE_SIZE)
    case NotSent => (Unsent, 1)
    case Unanswered => (Unheard, 1)
    case Received(b) =>
      if !Acknowledged(b) then (Rejected, 1)
      else (if ReadBackFails(Heard(line(t + 1), CRC_RESPONSE_SIZE), crc) then CrcMismatch else Passed, 2)
  }

  /** The verdicts on packets sent one after the other; the first failure ends it. */
  function Verdicts(line: nat -> Wire, t: nat, packets: seq<Packet>): seq<Verdict>
    decreases |packets|
  {
    if packets == [] then []
    else
      var (v, n) := Judge(line, t, Crc(packets[0].data));
      [v] + if Tolerated(v) then Verdicts(line, t + n, packets[1..]) else []
  }

  /** The time after those transactions. */
  function SentBy(line: nat -> Wire, t: nat, packets: seq<Packet>): (end: nat)
    ensures end >= t
    decreases |packets|
  {
    if packets == [] then t
    else
      var (v, n) := Judge(line, t, Crc(packets[0].data));
      if Tolerated(v) then SentBy(line, t + n, packets[1..]) else t + n
  }

  function ErrorOf(v: Verdict): Error {
    if v == CrcMismatch then PostCrcFailed else if v == Rejected then InvalidResponse else NoError
  }

  predicate AllTolerated(vs: seq<Verdict>) {
    forall i | 0 <= i < |vs| :: Tolerated(vs[i])
  }

  /** After the data: on to the application, or out; one platform is rebooted on the way out. */
  function SendStep(m: Fsm, vs: seq<Verdict>, vck5000: bool): Fsm {
    if AllTolerated(vs) then m.(state := LoadPc)
    else
      var e := ErrorOf(vs[|vs| - 1]);
      if vck5000 then m.(state := Reboot, error := e) else Failed(m, e)
  }

  /** Delivery stops at the first failure and only there. */
  lemma {:induction false} VerdictsStop(line: nat -> Wire, t: nat, packets: seq<Packet>)
    ensures var vs := Verdicts(line, t, packets);
            && |vs| <= |packets| && (packets != [] ==> vs != [])
            && (forall i | 0 <= i < |vs| - 1 :: Tolerated(vs[i]))
            && (|vs| < |packets| ==> !Tolerated(vs[|vs| - 1]))
    decreases |packets|
  {
    hide Judge, Crc, Tolerated;
    if packets != [] {
      var (v, n) := Judge(line, t, Crc(packets[0].data));
      if Tolerated(v) {
        VerdictsStop(line, t + n, packets[1..]);
        var more := Verdicts(line, t + n, packets[1..]);
        assert Verdicts(line, t, packets) == [v] + more;
      }
    }
  }

  /** The data state hands over to Load-PC exactly when no packet failed; otherwise the error is set. */
  lemma SendStepCorrect(m: Fsm, line: nat -> Wire, t: nat, packets: seq<Packet>, vck5000: bool)
    requires m.state == SendData && Consistent(m) && packets != []
    ensures var vs := Verdicts(line, t, packets);
            var after := SendStep(m, vs, vck5000);
            && Consistent(after) && Follows(SendData, after.state)
            && (after.state == LoadPc <==> |vs| == |packets| && AllTolerated(vs))
            && (after.state == Idle ==> after.status == Failure)
  {
    hide Judge, Crc;
    VerdictsStop(line, t, packets);
  }

  // --- The whole update -------------------------------------------------------------------------

  /** What an update comes to before its last, endlessly retried request, and when. */
  datatype Fate = Fate(after: Fsm, time: nat, verdicts: seq<Verdict>)

  function Decided(line: nat -> Wire, t: nat, m: Fsm, sections: seq<Section>, vck5000: bool): Fate
    requires Consistent(m)
  {
    var (d, u) := Prepared(line, t, m, vck5000);
    if d.state != SendData then Fate(d, u, [])
    else if sections == [] then Fate(Failed(d, InvalidSymbol), u, [])
    else
      var packets := Packets(Start(sections));
      Fate(SendStep(d, Verdicts(line, u, packets), vck5000), SentBy(line, u, packets), Verdicts(line, u, packets))
  }

  /** One call decides nothing: it is part of the way. */
  lemma DecidedNext(line: nat -> Wire, t: nat, m: Fsm, sections: seq<Section>, vck5000: bool)
    requires Consistent(m) && Preparing(m.state)
    ensures var next := PrepareStep(m, AnswerFor(m, line(t), vck5000));
            && Consistent(next)
            && Decided(line, t, m, sections, vck5000) == Decided(line, t + 1, next, sections, vck5000)
  {
    hide PrepareStep, Consistent, Budget, AnswerFor, Verdicts, SendStep, SentBy, Packets;
    PrepareStepCorrect(m, AnswerFor(m, line(t), vck5000));
  }

  /** The line lets the updater out of its last state: an accepted Load-PC, or a reboot request sent. */
  predicate Ends(w: Wire, s: State) {
    if s == LoadPc then LoadPcAccepted(w) else w.sent
  }

  /** Where the updater stands once the data state is behind it. */
  ghost predicate Standing(line: nat -> Wire, f: Fate, now: Fsm, clock: nat) {
    if f.after.state == Idle then now == f.after
    else if now.state == Idle then
      && now == f.after.(state := Idle, status := Success)
      && f.time < clock && Ends(line(clock - 1), f.after.state)
      && forall i | f.time <= i < clock - 1 :: !Ends(line(i), f.after.state)
    else
      && now == f.after && f.time <= clock
      && forall i | f.time <= i < clock :: !Ends(line(i), f.after.state)
  }

  /** The last request of the update, if it makes one, succeeds in the end. */
  ghost predicate Finishes(line: nat -> Wire, f: Fate) {
    f.after.state in {LoadPc, Reboot} ==> exists i :: f.time <= i && Ends(line(i), f.after.state)
  }

  // --- What the device ends up with -------------------------------------------------------------

  function Frames(packets: seq<Packet>): seq<seq<byte>> {
    if packets == [] then [] else [Framed(packets[0])] + Frames(packets[1..])
  }

  /** Which packets arrived, as far as the updater can know. */
  ghost predicate Arrival(vs: seq<Verdict>, got: seq<bool>) {
    && |got| == |vs|
    && forall i | 0 <= i < |vs| :: (vs[i] == Unsent ==> !got[i]) && (vs[i] == Passed ==> got[i])
  }

  /** A boot loader that checks each block that arrives and stores its data. */
  function Stored(blocks: seq<seq<byte>>, got: seq<bool>): seq<(u32, byte)>
    requires |blocks| == |got|
    decreases |blocks|
  {
    if blocks == [] then []
    else
      var p := if got[0] then Unframed(blocks[0]) else None;
      (if p.Some? then Placed(p.value.address, p.value.data) else []) + Stored(blocks[1..], got[1..])
  }

  /** Nothing that matters got lost. */
  ghost predicate DataArrived(packets: seq<Packet>, got: seq<bool>)
    requires |packets| == |got|
  {
    forall i | 0 <= i < |packets| :: packets[i].data == [] || got[i]
  }

  lemma {:induction false} FramesLength(packets: seq<Packet>)
    ensures |Frames(packets)| == |packets|
  {
    if packets != [] {
      FramesLength(packets[1..]);
    }
  }

  /** Sending from a cursor on: the next packet first, the others only if it did not fail. */
  lemma SendOne(line: nat -> Wire, t: nat, c: Cursor)
    requires !c.Finished?
    ensures var (v, n) := Judge(line, t, Crc(NextPacket(c).data));
            var more := Packets(AfterPacket(c));
            && Verdicts(line, t, Packets(c)) == [v] + (if Tolerated(v) then Verdicts(line, t + n, more) else [])
            && SentBy(line, t, Packets(c)) == (if Tolerated(v) then SentBy(line, t + n, more) else t + n)
            && Frames(Packets(c)) == [Framed(NextPacket(c))] + Frames(more)
            && |Packets(c)| == 1 + |more|
  {
    hide Judge, Crc, Framed, NextPacket, AfterPacket, Tolerated;
    assert Packets(c)[1..] == Packets(AfterPacket(c));
  }

  lemma NothingToSend(line: nat -> Wire, t: nat)
    ensures Packets(Finished) == [] && Verdicts(line, t, []) == [] && SentBy(line, t, []) == t && Frames([]) == []
  {
  }

  lemma PlacedLength(address: u32, data: seq<byte>)
    ensures |Placed(address, data)| == |data|
  {
  }

  /** The device holds the packets' data if every packet with data arrived, and less of it otherwise. */
  lemma {:induction false} StoredExactly(packets: seq<Packet>, got: seq<bool>)
    requires |Frames(packets)| == |got| == |packets|
    requires forall i | 0 <= i < |packets| :: |packets[i].data| <= MAX_DATA
    ensures DataArrived(packets, got) ==> Stored(Frames(packets), got) == Laid(packets)
    ensures !DataArrived(packets, got) ==> |Stored(Frames(packets), got)| < |Laid(packets)|
    decreases |packets|
  {
    hide Placed, Framed, Unframed;
    if packets != [] {
      var p, more := packets[0], packets[1..];
      FrameRoundTrip(p);
      FramesLength(more);
      PlacedLength(p.address, p.data);
      assert Frames(packets)[1..] == Frames(more);
      StoredExactly(more, got[1..]);
      assert DataArrived(packets, got) <==> (p.data == [] || got[0]) && DataArrived(more, got[1..]);
    }
  }

  /** The device holds the image the text denotes if and only if every packet with data arrived. */
  lemma DeliveredImage(sections: seq<Section>, got: seq<bool>)
    requires sections != []
    requires var packets := Packets(Start(sections));
             |Frames(packets)| == |got| == |packets|
    ensures Stored(Frames(Packets(Start(sections))), got) == Denotes(sections)
       <==> DataArrived(Packets(Start(sections)), got)
  {
    var packets := Packets(Start(sections));
    PacketsAreTheImage(sections);
    forall i | 0 <= i < |packets|
      ensures |packets[i].data| <= MAX_DATA
    {
      PacketSizes(Start(sections), i);
    }
    StoredExactly(packets, got);
  }

  // --- Success without an image -----------------------------------------------------------------

  /** A packet that cannot be sent is not sent again, and the update goes on to Load-PC. */
  lemma {:induction false} LostPacketsAreSkipped(line: nat -> Wire, t: nat, packets: seq<Packet>)
    requires forall i | t <= i < t + |packets| :: Heard(line(i), BSL_RESPONSE_SIZE) == NotSent
    ensures Verdicts(line, t, packets) == seq(|packets|, i => Unsent)
    ensures SentBy(line, t, packets) == t + |packets|
    decreases |packets|
  {
    if packets != [] {
      LostPacketsAreSkipped(line, t + 1, packets[1..]);
      assert Judge(line, t, Crc(packets[0].data)) == (Unsent, 1);
    }
  }

  lemma {:induction false} NothingStored(blocks: seq<seq<byte>>, got: seq<bool>)
    requires |blocks| == |got| && forall i | 0 <= i < |got| :: !got[i]
    ensures Stored(blocks, got) == []
    decreases |blocks|
  {
    if blocks != [] {
      NothingStored(blocks[1..], got[1..]);
    }
  }

  function Answered(b: seq<byte>): Wire {
    Wire(true, true, true, b)
  }

  /** The acknowledgement of the boot loader. */
  function Acknowledgement(): seq<byte> {
    var crc := Crc([0x3B, 0]);
    [0, HEADER, 2, 0, 0x3B, 0, CrcLow(crc), CrcHigh(crc)]
  }

  lemma AcknowledgementIsOne()
    ensures |Acknowledgement()| == 8 && Acknowledged(Acknowledgement())
  {
    hide Crc, CrcLow, CrcHigh;
    var b := Acknowledgement();
    assert Bytes(b, 4, 2) == [0x3B, 0];
    assert (Byte(b, 3) as int) * 0x100 + Byte(b, 2) == 2;
    assert ValidResponse(b, 8);
  }

  /** An answer of the running firmware that both of the first two requests take for a yes. */
  function FirmwareAnswer(): seq<byte> {
    [0x5C, 2, 0xFE, 0, 0, 0, 0, 0, 0, 0, 0]
  }

  function SyncedAnswer(vck5000: bool): seq<byte> {
    if vck5000 then [0] else [0, 0, 0, 0, 0, 0, 0, 0, 0]
  }

  /** A line that answers every request but lets no data out, `n` transactions of it. */
  function DeafLine(n: nat, vck5000: bool): nat -> Wire {
    i =>
      if i <= 1 then Answered(FirmwareAnswer())
      else if i == 2 then Answered(SyncedAnswer(vck5000))
      else if i <= 4 then Answered(Acknowledgement())
      else if i < 5 + n then Wire(false, false, false, [])
      else Answered([0])
  }

  /** An updater at the start of its first update. */
  function Begun(): Fsm {
    Fsm(State.SyncScBsl, InProgress, NoError, SC_MODE_SIZE, 0, 0, 0, 0, 0, 0)
  }

  lemma DeafLinePrepares(n: nat, vck5000: bool)
    ensures Consistent(Begun()) && Begun().error == NoError
    ensures Prepared(DeafLine(n, vck5000), 0, Begun(), vck5000) == (Begun().(state := SendData), 5)
  {
    hide ValidResponse, Acknowledged, Acknowledgement, Crc;
    AcknowledgementIsOne();
    var line, m0 := DeafLine(n, vck5000), Begun();
    var m1, m2 := m0.(state := EnableBsl), m0.(state := State.SyncVmcBsl);
    var m3, m4, m5 := m0.(state := State.UnlockBsl), m0.(state := MassErase), m0.(state := SendData);
    FirstAnswers(m0, m1, m2);
    LastAnswers(m2, m3, m4, m5, vck5000);
    hide PrepareStep, AnswerFor;
    assert Prepared(line, 4, m4, vck5000) == (m5, 5);
    assert Prepared(line, 3, m3, vck5000) == (m5, 5);
    assert Prepared(line, 2, m2, vck5000) == (m5, 5);
    assert Prepared(line, 1, m1, vck5000) == (m5, 5);
  }

  lemma FirstAnswers(m0: Fsm, m1: Fsm, m2: Fsm)
    requires m0 == Begun() && m1 == m0.(state := EnableBsl) && m2 == m0.(state := State.SyncVmcBsl)
    ensures forall vck5000 ::
      && PrepareStep(m0, AnswerFor(m0, Answered(FirmwareAnswer()), vck5000)) == m1
      && PrepareStep(m1, AnswerFor(m1, Answered(FirmwareAnswer()), vck5000)) == m2
  {
    hide ValidResponse;
    assert Byte(FirmwareAnswer(), 0) == 0x5C && Byte(FirmwareAnswer(), 1) == 2 && Byte(FirmwareAnswer(), 2) == 0xFE;
  }

  lemma LastAnswers(m2: Fsm, m3: Fsm, m4: Fsm, m5: Fsm, vck5000: bool)
    requires m2 == Begun().(state := State.SyncVmcBsl) && m3 == m2.(state := State.UnlockBsl)
    requires m4 == m2.(state := MassErase) && m5 == m2.(state := SendData)
    ensures PrepareStep(m2, AnswerFor(m2, Answered(SyncedAnswer(vck5000)), vck5000)) == m3
    ensures PrepareStep(m3, AnswerFor(m3, Answered(Acknowledgement()), vck5000)) == m4
    ensures PrepareStep(m4, AnswerFor(m4, Answered(Acknowledgement()), vck5000)) == m5
  {
    hide ValidResponse, Acknowledged, Acknowledgement;
    AcknowledgementIsOne();
    assert Byte(SyncedAnswer(vck5000), 0) == 0;
  }

  /**
   Success does not say that anything was programmed: for every image there is a line on which the
   update ends with an accepted Load-PC and no error, and the device, whatever it may be thought to have
   received, holds nothing.
   */
  lemma SuccessWithoutImage(sections: seq<Section>, vck5000: bool) returns (line: nat -> Wire)
    requires sections != []
    ensures Consistent(Begun())
    ensures var f, packets := Decided(line, 0, Begun(), sections, vck5000), Packets(Start(sections));
            && f.after.state == LoadPc && f.after.error == NoError && Ends(line(f.time), LoadPc)
            && |f.verdicts| == |packets| == |Frames(packets)|
            && forall got :: Arrival(f.verdicts, got) ==> Stored(Frames(packets), got) == []
  {
    hide Prepared, Packets, Frames, Acknowledged, Acknowledgement, Begun, Verdicts, SentBy, Stored;
    var packets := Packets(Start(sections));
    line := DeafLine(|packets|, vck5000);
    DeafLinePrepares(|packets|, vck5000);
    LostPacketsAreSkipped(line, 5, packets);
    FramesLength(packets);
    var f := Decided(line, 0, Begun(), sections, vck5000);
    assert line(f.time) == Answered([0]);
    AllUnsent(packets, f.verdicts);
  }

  lemma AllUnsent(packets: seq<Packet>, vs: seq<Verdict>)
    requires |vs| == |packets| == |Frames(packets)| && forall i | 0 <= i < |vs| :: vs[i] == Unsent
    ensures forall got :: Arrival(vs, got) ==> Stored(Frames(packets), got) == []
  {
    forall got | Arrival(vs, got)
      ensures Stored(Frames(packets), got) == []
    {
      NothingStored(Frames(packets), got);
    }
  }
}
