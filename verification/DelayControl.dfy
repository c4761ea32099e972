/**
 * The delay state machine (src/controller.rs): arm, activate, cut, and the
 * auto-activation and scheduled cut that act later on someone's behalf. Each
 * operation is one step.
 */
module DelayControl {
  import opened Wrappers
  import opened RingView

  const MAX_DELAY_MS: nat := 3_600_000

  /** `pending` is `auto_activate_pending`, `once` is `activate_once_ready`, and
      `mark` is `safe_cut_input_ts`, 0 for no scheduled cut. */
  datatype Delay = Delay(armed: nat, target: nat, pending: bool, once: bool, mark: nat)

  datatype ActivateError = NotArmed | NoIngest | BufferShort(remainingMs: nat)

  function BufferFill(r: Ring): nat {
    if r.tags == [] then 0 else Min(Minus(LatestTs(r).value, OldestTs(r).value), U32 - 1)
  }

  predicate BufferHolds(r: Ring, delay: nat) {
    BufferFill(r) + 500 >= delay || IsSaturated(r)
  }

  function Arm(d: Delay, ms: nat): Delay {
    var ms := Min(ms, MAX_DELAY_MS);
    if ms == 0 then Delay(0, 0, false, false, 0)
    else if d.target > 0 then d.(armed := ms, target := ms)
    else d.(armed := ms, pending := true, once := false)
  }

  function ActivateResult(d: Delay, ingestAlive: bool, r: Ring): Result<nat, ActivateError> {
    if d.armed == 0 then Err(NotArmed)
    else if !ingestAlive then Err(NoIngest)
    else if !BufferHolds(r, d.armed) then Err(BufferShort(Minus(d.armed, BufferFill(r))))
    else Ok(d.armed)
  }

  function Activate(d: Delay, ingestAlive: bool, r: Ring): Delay {
    if ActivateResult(d, ingestAlive, r).Ok? then d.(target := d.armed, pending := false) else d
  }

  function Stop(d: Delay): Delay {
    d.(target := 0, pending := false, mark := 0)
  }

  function Schedule(d: Delay, r: Ring): Delay {
    if d.target == 0 || LatestTs(r).None? then d else d.(mark := Max(LatestTs(r).value, 1))
  }

  function NewPublisher(d: Delay): Delay {
    d.(pending := false, mark := 0)
  }

  // The supervisor's tick: switch the armed delay on once the buffer is ready.
  predicate AutoFires(d: Delay, settingOn: bool, ingestAlive: bool, r: Ring) {
    && d.pending && (settingOn || d.once)
    && d.target == 0 && d.armed != 0 && BufferHolds(r, d.armed)
    && ActivateResult(d, ingestAlive, r).Ok?
  }

  // A pump found the scheduled mark aired everywhere.
  predicate CutFires(d: Delay, slowest: Option<nat>) {
    d.mark != 0 && slowest.Some? && slowest.value > d.mark
  }

  datatype Op =
    | ArmOp(ms: nat)
    | ActivateOnceReadyOp
    | ActivateOp(ingestAlive: bool, r: Ring)
    | StopOp
    | ScheduleOp(r: Ring)
    | CancelOp
    | MaybeFireOp(slowest: Option<nat>)
    | NewPublisherOp
    | AutoTickOp(settingOn: bool, ingestAlive: bool, r: Ring)

  function Step(d: Delay, op: Op): Delay {
    match op
    case ArmOp(ms) => Arm(d, ms)
    case ActivateOnceReadyOp => d.(once := true)
    case ActivateOp(alive, r) => Activate(d, alive, r)
    case StopOp => Stop(d)
    case ScheduleOp(r) => Schedule(d, r)
    case CancelOp => d.(mark := 0)
    case MaybeFireOp(slowest) => if CutFires(d, slowest) then Stop(d) else d
    case NewPublisherOp => NewPublisher(d)
    case AutoTickOp(on, alive, r) => if AutoFires(d, on, alive, r) then Activate(d, alive, r) else d
  }

  function Run(d: Delay, ops: seq<Op>): Delay
    decreases |ops|
  {
    if ops == [] then d else Step(Run(d, ops[..|ops| - 1]), ops[|ops| - 1])
  }

  ghost predicate Inv(d: Delay) {
    && d.armed <= MAX_DELAY_MS
    && (d.target == 0 || d.target == d.armed)
    && (d.pending ==> d.armed > 0 && d.target == 0)
    && (d.mark != 0 ==> d.target > 0)
  }

  /** After any operations in any order: what is delivered is nothing or the armed
      delay, never over an hour; an arm waiting to go on by itself is a delay
      that is armed and off; a scheduled cut has a delay to cut. */
  lemma {:induction false} DelayInvariant(d: Delay, ops: seq<Op>)
    requires Inv(d)
    ensures Inv(Run(d, ops))
    decreases |ops|
  {
    if ops != [] {
      DelayInvariant(d, ops[..|ops| - 1]);
    }
  }

  // The state before operation `i`.
  function At(d: Delay, ops: seq<Op>, i: nat): Delay
    requires i <= |ops|
  {
    Run(d, ops[..i])
  }

  lemma AtNext(d: Delay, ops: seq<Op>, j: nat)
    requires 0 < j <= |ops|
    ensures At(d, ops, j) == Step(At(d, ops, j - 1), ops[j - 1])
  {
    assert ops[..j][..j - 1] == ops[..j - 1];
  }

  // ------------------------------------------------- what each part stands for

  /** What is up or not: a delay is on; an arm is waiting to go on by itself; it was
      promised to; a cut is scheduled. */
  datatype Flag = Delivering | Waiting | Promised | CutPending

  predicate Up(d: Delay, f: Flag) {
    match f
    case Delivering => d.target > 0
    case Waiting => d.pending
    case Promised => d.once
    case CutPending => d.mark != 0
  }

  // The delay goes on, by hand or by itself.
  predicate Activates(d: Delay, op: Op) {
    match op
    case ActivateOp(alive, r) => ActivateResult(d, alive, r).Ok?
    case AutoTickOp(on, alive, r) => AutoFires(d, on, alive, r)
    case _ => false
  }

  // A cut, by hand or scheduled, or a disarm.
  predicate Cuts(d: Delay, op: Op) {
    match op
    case ArmOp(ms) => ms == 0
    case StopOp => true
    case MaybeFireOp(slowest) => CutFires(d, slowest)
    case _ => false
  }

  predicate Raises(d: Delay, op: Op, f: Flag) {
    match f
    case Delivering => Activates(d, op)
    case Waiting => op.ArmOp? && op.ms > 0 && d.target == 0
    case Promised => op.ActivateOnceReadyOp?
    case CutPending => op.ScheduleOp? && d.target > 0 && op.r.tags != []
  }

  predicate Lowers(d: Delay, op: Op, f: Flag) {
    match f
    case Delivering => Cuts(d, op)
    case Waiting => Cuts(d, op) || Activates(d, op) || op.NewPublisherOp?
    case Promised => op.ArmOp? && (op.ms == 0 || d.target == 0)
    case CutPending => Cuts(d, op) || op.CancelOp? || op.NewPublisherOp?
  }

  lemma StepFlag(d: Delay, op: Op, f: Flag)
    ensures Up(Step(d, op), f) <==> Raises(d, op, f) || (Up(d, f) && !Lowers(d, op, f))
  {
  }

  // Operation `i` raised the flag, and nothing between it and `j` has lowered it.
  ghost predicate Stands(d: Delay, ops: seq<Op>, f: Flag, i: nat, j: nat)
    requires i < |ops| && j <= |ops|
  {
    && i < j && Raises(At(d, ops, i), ops[i], f)
    && forall k | i < k < j :: !Lowers(At(d, ops, k), ops[k], f)
  }

  lemma RaisedStands(d: Delay, ops: seq<Op>, f: Flag, i: nat, j: nat)
    requires i < |ops| && j <= |ops| && Stands(d, ops, f, i, j)
    ensures Up(At(d, ops, j), f)
    decreases j
  {
    AtNext(d, ops, j);
    StepFlag(At(d, ops, j - 1), ops[j - 1], f);
    if i < j - 1 { RaisedStands(d, ops, f, i, j - 1); }
  }

  lemma {:induction false} WasRaised(d: Delay, ops: seq<Op>, f: Flag, j: nat) returns (i: nat)
    requires !Up(d, f) && j <= |ops| && Up(At(d, ops, j), f)
    ensures i < j && Stands(d, ops, f, i, j)
    decreases j
  {
    assert j > 0;
    AtNext(d, ops, j);
    StepFlag(At(d, ops, j - 1), ops[j - 1], f);
    if Raises(At(d, ops, j - 1), ops[j - 1], f) {
      i := j - 1;
    } else {
      i := WasRaised(d, ops, f, j - 1);
    }
  }

  /** After any operations in any order, exactly these are up: a delay is on when an
      activation has succeeded since the last cut or disarm; an arm is waiting when it was
      made from off and no cut, disarm, activation or new publisher has used it up; a cut
      is scheduled when one was, with a delay on and tags in the ring, and neither it nor
      its delay has been called off. */
  lemma UpExactly(d: Delay, ops: seq<Op>, f: Flag, j: nat)
    requires !Up(d, f) && j <= |ops|
    ensures Up(At(d, ops, j), f) <==> exists i :: 0 <= i < j && Stands(d, ops, f, i, j)
  {
    if Up(At(d, ops, j), f) {
      var _ := WasRaised(d, ops, f, j);
    }
    if i :| 0 <= i < j && Stands(d, ops, f, i, j) {
      RaisedStands(d, ops, f, i, j);
    }
  }

  /** A cut is a cut: right after it nothing is delivered, nothing waits to go on by itself,
      no cut is left scheduled, and the delay stays armed, unless it was disarmed. */
  lemma CutTurnsOff(d: Delay, ops: seq<Op>, j: nat)
    requires 0 < j <= |ops| && Cuts(At(d, ops, j - 1), ops[j - 1])
    ensures At(d, ops, j).target == 0 && !At(d, ops, j).pending && At(d, ops, j).mark == 0
    ensures At(d, ops, j).armed == if ops[j - 1].ArmOp? then 0 else At(d, ops, j - 1).armed
  {
    AtNext(d, ops, j);
  }

  /** What is armed is what was asked for last, an hour at most; so what is delivered,
      when anything is, is that. */
  lemma {:induction false} ArmedIsLastAsked(d: Delay, ops: seq<Op>, i: nat, j: nat)
    requires Inv(d) && i <= j <= |ops|
    requires forall k | i <= k < j :: !ops[k].ArmOp?
    requires i > 0 ==> ops[i - 1].ArmOp?
    ensures var asked := if i > 0 then Min(ops[i - 1].ms, 3_600_000) else d.armed;
      At(d, ops, j).armed == asked && (At(d, ops, j).target > 0 ==> At(d, ops, j).target == asked)
    decreases j
  {
    DelayInvariant(d, ops[..j]);
    if j > 0 {
      AtNext(d, ops, j);
      if i < j { ArmedIsLastAsked(d, ops, i, j - 1); }
    }
  }

  /** A scheduled cut is marked where the live edge was when it was last scheduled. */
  lemma {:induction false} MarkIsLiveEdge(d: Delay, ops: seq<Op>, i: nat, j: nat)
    requires i < |ops| && j <= |ops| && Stands(d, ops, CutPending, i, j)
    requires forall k | i < k < j :: !Raises(At(d, ops, k), ops[k], CutPending)
    ensures At(d, ops, j).mark == Max(LatestTs(ops[i].r).value, 1)
    decreases j
  {
    AtNext(d, ops, j);
    if i < j - 1 {
      assert Stands(d, ops, CutPending, i, j - 1);
      MarkIsLiveEdge(d, ops, i, j - 1);
    }
  }

  /** When the delay goes on by hand: it is armed, OBS is sending, and the ring spans it to
      within half a second, or is full. When not, the error is the first of these missing,
      and names what the buffer still lacks. */
  lemma ActivatesWhenReady(d: Delay, alive: bool, r: Ring)
    requires Sorted(r.tags)
    ensures var result := ActivateResult(d, alive, r);
      var span := if r.tags == [] then 0 else Min(LatestTs(r).value - r.tags[0].ts, 0xFFFF_FFFF);
      var ready := span + 500 >= d.armed || IsSaturated(r);
      && (result.Ok? <==> d.armed > 0 && alive && ready)
      && (result.Ok? ==> Activate(d, alive, r).target == d.armed && !Activate(d, alive, r).pending)
      && (result == Err(NotArmed) <==> d.armed == 0)
      && (result == Err(NoIngest) <==> d.armed > 0 && !alive)
      && (result.Err? && result.error.BufferShort? ==> result.error.remainingMs == d.armed - span > 500)
  {
  }

  /** And when by itself: an arm is waiting, it is to go on without being asked, and going on
      by hand would work. */
  lemma GoesOnByItself(d: Delay, on: bool, alive: bool, r: Ring)
    requires Inv(d)
    ensures AutoFires(d, on, alive, r) <==> d.pending && (on || d.once) && ActivateResult(d, alive, r).Ok?
    ensures AutoFires(d, on, alive, r) ==> Step(d, AutoTickOp(on, alive, r)).target == d.armed > 0
  {
  }

  /** An auto-activation never comes out of nowhere: whenever one fires, there is
      a fresh arm before it with no cut, disarm, activation or new publisher in
      between. So no arm serves two of them, and a cut sticks. */
  lemma AutoActivationHasItsOwnArm(d: Delay, ops: seq<Op>, j: nat)
    requires !d.pending && j < |ops| && ops[j].AutoTickOp? && Activates(At(d, ops, j), ops[j])
    ensures exists i :: 0 <= i < j && Stands(d, ops, Waiting, i, j)
  {
    UpExactly(d, ops, Waiting, j);
  }

  lemma NoArmServesTwo(d: Delay, ops: seq<Op>, i: nat, j: nat, k: nat)
    requires i < |ops| && j < k < |ops| && Stands(d, ops, Waiting, i, j)
    requires ops[j].AutoTickOp? && Activates(At(d, ops, j), ops[j])
    ensures !Stands(d, ops, Waiting, i, k)
  {
  }
}
