/**
 * The failed-attempt limiter (src/auth.rs, `RateLimiter`). Times and durations
 * are plain numbers on one clock that does not go back.
 */
module RateLimiter {
  import opened Wrappers

  const MAX_TRACKED: nat := 8192
  const MAX_SHIFT: nat := 6

  datatype Attempt = Attempt(fails: u32, last: nat, lockedUntil: Option<nat>)

  datatype Params = Params(maxFails: u32, baseLockout: nat, maxLockout: nat, window: nat)

  type Table = map<string, Attempt>

  function Since(now: nat, last: nat): nat {
    Minus(now, last)
  }

  // `1u32 << over`.
  function Shifted(over: nat): (m: u32)
    requires over <= MAX_SHIFT
    ensures 1 <= m <= 64
  {
    [1, 2, 4, 8, 16, 32, 64][over]
  }

  function LockFor(p: Params, fails: u32): nat
    requires fails >= p.maxFails
  {
    Min(Min(p.baseLockout * Shifted(Min(fails - p.maxFails, MAX_SHIFT)), p.maxLockout), p.window)
  }

  // Records within the forgiveness window.
  function Recent(a: Table, now: nat, p: Params): (kept: Table)
    ensures kept.Keys <= a.Keys && forall k | k in kept :: kept[k] == a[k]
    ensures forall k | k in a :: k in kept <==> Since(now, a[k].last) <= p.window
  {
    map k | k in a && Since(now, a[k].last) <= p.window :: a[k]
  }

  // `victim` is one of the records touched longest ago.
  ghost predicate Oldest(a: Table, victim: string) {
    victim in a && forall k | k in a :: a[victim].last <= a[k].last
  }

  // Make room in a full table; `victim` goes when forgetting the past is not enough.
  function Room(a: Table, now: nat, p: Params, victim: string): Table {
    if |a| < MAX_TRACKED then a
    else
      var kept := Recent(a, now, p);
      if |kept| < MAX_TRACKED then kept else kept - {victim}
  }

  ghost predicate Evicts(a: Table, now: nat, p: Params) {
    |a| >= MAX_TRACKED && |Recent(a, now, p)| >= MAX_TRACKED
  }

  ghost predicate Legit(a: Table, now: nat, p: Params, victim: string) {
    Evicts(a, now, p) ==> Oldest(Recent(a, now, p), victim)
  }

  function Bumped(e: Attempt, now: nat, p: Params): Attempt {
    var fails: u32 := Min(e.fails + 1, U32 - 1);
    Attempt(fails, now, if fails >= p.maxFails then Some(now + LockFor(p, fails)) else e.lockedUntil)
  }

  function Bump(a: Table, client: string, now: nat, p: Params, victim: string): Table {
    var r := Room(a, now, p, victim);
    r[client := Bumped(if client in r then r[client] else Attempt(0, now, None), now, p)]
  }

  function Forgive(a: Table, client: string, now: nat, p: Params): Table {
    if client in a && Since(now, a[client].last) > p.window then a - {client} else a
  }

  function Verdict(a: Table, client: string, now: nat, p: Params): Result<(), nat> {
    if client in a && Since(now, a[client].last) <= p.window && a[client].lockedUntil.Some?
       && a[client].lockedUntil.value > now
    then Err(a[client].lockedUntil.value - now)
    else Ok(())
  }

  datatype Op =
    | Check(client: string)
    | CheckAndCount(client: string, victim: string)
    | RecordFailure(client: string, victim: string)
    | RecordSuccess(client: string)

  function Next(a: Table, now: nat, p: Params, op: Op): Table {
    match op
    case Check(c) => Forgive(a, c, now, p)
    case CheckAndCount(c, v) => if Verdict(a, c, now, p).Err? then a else Bump(Forgive(a, c, now, p), c, now, p, v)
    case RecordFailure(c, v) => Bump(a, c, now, p, v)
    case RecordSuccess(c) => a - {c}
  }

  // The table the op may have to make room in, if it counts a failure.
  function Counted(a: Table, now: nat, p: Params, op: Op): Option<Table> {
    match op
    case CheckAndCount(c, _) => if Verdict(a, c, now, p).Err? then None else Some(Forgive(a, c, now, p))
    case RecordFailure(_, _) => Some(a)
    case _ => None
  }

  ghost predicate Possible(a: Table, now: nat, p: Params, op: Op) {
    Counted(a, now, p, op).Some? ==> Legit(Counted(a, now, p, op).value, now, p, op.victim)
  }

  // ------------------------------------------------------------------ theorems

  ghost predicate Inv(a: Table, now: nat, p: Params) {
    && |a| <= MAX_TRACKED
    && forall k | k in a ::
      a[k].last <= now && (a[k].lockedUntil.Some? ==> Earned(a[k], p))
  }

  // A lock was armed at a counted attempt, for no longer than the failures then
  // called for, so never past the forgiveness window.
  ghost predicate Earned(e: Attempt, p: Params)
    requires e.lockedUntil.Some?
  {
    && e.fails >= p.maxFails
    && e.lockedUntil.value <= e.last + LockFor(p, e.fails) <= e.last + p.window
  }

  lemma FewerKeys(a: Table, b: Table)
    requires a.Keys <= b.Keys
    ensures |a| <= |b|
  {
    KeysSize(a.Keys, b.Keys);
  }

  lemma KeysSize(s: set<string>, t: set<string>)
    requires s <= t
    ensures |s| <= |t|
  {
    assert t == s + (t - s);
  }

  lemma RoomLeft(a: Table, now: nat, p: Params, victim: string)
    requires |a| <= MAX_TRACKED && Legit(a, now, p, victim)
    ensures var r := Room(a, now, p, victim);
      |r| < MAX_TRACKED && r.Keys <= a.Keys && forall k | k in r :: r[k] == a[k]
  {
    var kept := Recent(a, now, p);
    FewerKeys(kept, a);
    if Evicts(a, now, p) {
      assert (kept - {victim}).Keys == kept.Keys - {victim};
    }
  }

  lemma BumpKeepsInv(a: Table, latest: nat, now: nat, p: Params, client: string, victim: string)
    requires Inv(a, latest, p) && Legit(a, now, p, victim)
    ensures Inv(Bump(a, client, now, p, victim), Max(latest, now), p)
  {
    var r := Room(a, now, p, victim);
    RoomLeft(a, now, p, victim);
    var b := Bump(a, client, now, p, victim);
    assert b.Keys == r.Keys + {client};
  }

  /** Whatever time an operation read, the table stays bounded, and no lock outlives
      the window in which its record is kept. `latest` is the latest time read. */
  lemma NextKeepsInv(a: Table, latest: nat, now: nat, p: Params, op: Op)
    requires Inv(a, latest, p) && Possible(a, now, p, op)
    ensures Inv(Next(a, now, p, op), Max(latest, now), p)
  {
    match op
    case Check(c) =>
      FewerKeys(Forgive(a, c, now, p), a);
    case CheckAndCount(c, v) =>
      var f := Forgive(a, c, now, p);
      FewerKeys(f, a);
      if !Verdict(a, c, now, p).Err? { BumpKeepsInv(f, latest, now, p, c, v); }
    case RecordFailure(c, v) =>
      BumpKeepsInv(a, latest, now, p, c, v);
    case RecordSuccess(c) =>
      FewerKeys(a - {c}, a);
  }

  ghost predicate LockedTill(a: Table, client: string, until: nat) {
    client in a && a[client].lockedUntil.Some? && a[client].lockedUntil.value >= until
  }

  /** The forgiveness check never gets in the way of a lock: a client is refused
      exactly while its record's lock runs, with exactly the time left, and a check
      that refuses changes nothing. */
  lemma RefusedExactlyWhileLocked(a: Table, now: nat, p: Params, client: string, left: nat)
    requires Inv(a, now, p) && left > 0
    ensures Verdict(a, client, now, p) == Err(left)
       <==> client in a && a[client].lockedUntil == Some(now + left)
    ensures Verdict(a, client, now, p).Err? ==> Forgive(a, client, now, p) == a
  {
  }

  // The op is this client's own success, or evicts its record from a full table.
  ghost predicate Frees(a: Table, now: nat, p: Params, op: Op, client: string) {
    || op == RecordSuccess(client)
    || (Counted(a, now, p, op).Some? && Evicts(Counted(a, now, p, op).value, now, p) && op.victim == client)
  }

  /** A running lock is only ever made longer. Other clients, a flood of them, and
      the client's own further failures leave it in place or push it back, unless a
      success clears the record or a full table evicts it. */
  lemma LockOnlyLengthens(a: Table, now: nat, p: Params, op: Op, client: string, until: nat)
    requires Inv(a, now, p) && Possible(a, now, p, op)
    requires LockedTill(a, client, until) && until > now
    requires !Frees(a, now, p, op, client)
    ensures LockedTill(Next(a, now, p, op), client, until)
  {
    var counted := Counted(a, now, p, op);
    assert Since(now, a[client].last) <= p.window;
    if counted.Some? {
      var t := counted.value;
      RoomLeft(t, now, p, op.victim);
      assert client in t && t[client] == a[client];
      var r := Room(t, now, p, op.victim);
      assert client in r && r[client] == a[client];
      LocksGrow(p, a[client].fails, Min(a[client].fails + 1, U32 - 1));
    }
  }

  lemma LocksGrow(p: Params, m: u32, n: u32)
    requires p.maxFails <= m <= n
    ensures LockFor(p, m) <= LockFor(p, n)
  {
    var i, j := Min(m - p.maxFails, MAX_SHIFT), Min(n - p.maxFails, MAX_SHIFT);
    ShiftsGrow(i, j);
    assert p.baseLockout * Shifted(i) <= p.baseLockout * Shifted(j);
  }

  lemma ShiftsGrow(i: nat, j: nat)
    requires i <= j <= MAX_SHIFT
    ensures Shifted(i) <= Shifted(j)
  {
  }

  // Ops at their times, in order, with their evictions.
  function Run(a: Table, p: Params, ops: seq<(nat, Op)>): Table
    decreases |ops|
  {
    if ops == [] then a else Run(Next(a, ops[0].0, p, ops[0].1), p, ops[1..])
  }

  // Each operation reads the clock before it has the table to itself, so it may act
  // on a time up to `skew` behind the latest one acted on.
  ghost predicate PossibleRun(a: Table, latest: nat, skew: nat, p: Params, ops: seq<(nat, Op)>)
    decreases |ops|
  {
    ops == [] || (
      && latest <= ops[0].0 + skew && Possible(a, ops[0].0, p, ops[0].1)
      && PossibleRun(Next(a, ops[0].0, p, ops[0].1), Max(latest, ops[0].0), skew, p, ops[1..]))
  }

  function Latest(latest: nat, ops: seq<(nat, Op)>): (t: nat)
    ensures t >= latest
    decreases |ops|
  {
    if ops == [] then latest else Latest(Max(latest, ops[0].0), ops[1..])
  }

  /** Over every run, at any skew: the table stays bounded, and no lock outlives its
      record. */
  lemma {:induction false} RunKeepsInv(a: Table, latest: nat, skew: nat, p: Params, ops: seq<(nat, Op)>)
    requires Inv(a, latest, p) && PossibleRun(a, latest, skew, p, ops)
    ensures Inv(Run(a, p, ops), Latest(latest, ops), p)
    decreases |ops|
  {
    if ops != [] {
      NextKeepsInv(a, latest, ops[0].0, p, ops[0].1);
      RunKeepsInv(Next(a, ops[0].0, p, ops[0].1), Max(latest, ops[0].0), skew, p, ops[1..]);
    }
  }

  ghost predicate NeverFrees(a: Table, p: Params, ops: seq<(nat, Op)>, client: string)
    decreases |ops|
  {
    ops == [] || (
      && !Frees(a, ops[0].0, p, ops[0].1, client)
      && NeverFrees(Next(a, ops[0].0, p, ops[0].1), p, ops[1..], client))
  }

  // A lock to `until`, short by the skew at most, on a record with failures enough
  // for any later one to lock as long.
  ghost predicate Near(e: Attempt, latest: nat, skew: nat, p: Params, until: nat) {
    && e.lockedUntil.Some? && e.lockedUntil.value + skew >= until
    && e.fails >= p.maxFails && until <= latest + LockFor(p, e.fails)
  }

  ghost predicate LockedNear(a: Table, latest: nat, skew: nat, p: Params, client: string, until: nat) {
    client in a && Near(a[client], latest, skew, p, until)
  }

  lemma BumpedNear(e: Attempt, latest: nat, skew: nat, now: nat, p: Params, until: nat)
    requires Near(e, latest, skew, p, until) && latest <= now + skew
    ensures Near(Bumped(e, now, p), Max(latest, now), skew, p, until)
  {
    LocksGrow(p, e.fails, Min(e.fails + 1, U32 - 1));
  }

  // Making room for a failure leaves a record within the window that is not its victim.
  lemma RecordStays(a: Table, now: nat, p: Params, client: string, counting: string, victim: string)
    requires |a| <= MAX_TRACKED && Legit(a, now, p, victim)
    requires client in a && Since(now, a[client].last) <= p.window && !(Evicts(a, now, p) && victim == client)
    ensures client in Bump(a, counting, now, p, victim)
    ensures Bump(a, counting, now, p, victim)[client] ==
      if counting == client then Bumped(a[client], now, p) else a[client]
  {
    RoomLeft(a, now, p, victim);
  }

  /** One operation, acting on a time up to the skew behind, moves a running lock
      back by no more than the skew. */
  lemma SkewMovesLockLittle(
      a: Table, latest: nat, skew: nat, now: nat, p: Params, op: Op, client: string, until: nat)
    requires Inv(a, latest, p) && Possible(a, now, p, op) && latest <= now + skew
    requires LockedNear(a, latest, skew, p, client, until) && now + skew < until
    requires !Frees(a, now, p, op, client)
    ensures LockedNear(Next(a, now, p, op), Max(latest, now), skew, p, client, until)
  {
    assert Since(now, a[client].last) <= p.window;
    BumpedNear(a[client], latest, skew, now, p, until);
    match op
    case Check(_) =>
    case RecordSuccess(_) =>
    case RecordFailure(c, v) => RecordStays(a, now, p, client, c, v);
    case CheckAndCount(c, v) =>
      if Verdict(a, c, now, p).Ok? {
        var f := Forgive(a, c, now, p);
        FewerKeys(f, a);
        RecordStays(f, now, p, client, c, v);
      }
  }

  /** And that happens: of two racing failures at the longest lock, the one that read
      the clock first but counts last moves the lock back, by five seconds here. */
  lemma SkewMovesLock()
    ensures var p := Params(5, 30_000, 900_000, 900_000);
      var a: Table := map["client" := Attempt(20, 20_000, Some(920_000))];
      && Inv(a, 20_000, p) && Possible(a, 15_000, p, Op.RecordFailure("client", ""))
      && Next(a, 15_000, p, Op.RecordFailure("client", ""))["client"].lockedUntil == Some(915_000)
  {
    var p := Params(5, 30_000, 900_000, 900_000);
    var a: Table := map["client" := Attempt(20, 20_000, Some(920_000))];
    assert a.Keys == {"client"} && |a| == |a.Keys| == 1;
    assert LockFor(p, 20) == 900_000 && LockFor(p, 21) == 900_000;
  }

  lemma {:induction false} StaysLockedNear(
      a: Table, latest: nat, skew: nat, p: Params, ops: seq<(nat, Op)>, client: string, until: nat)
    requires Inv(a, latest, p) && PossibleRun(a, latest, skew, p, ops) && NeverFrees(a, p, ops, client)
    requires LockedNear(a, latest, skew, p, client, until) && Latest(latest, ops) + skew < until
    ensures LockedNear(Run(a, p, ops), Latest(latest, ops), skew, p, client, until)
    decreases |ops|
  {
    if ops != [] {
      var next, later := Next(a, ops[0].0, p, ops[0].1), Max(latest, ops[0].0);
      NextKeepsInv(a, latest, ops[0].0, p, ops[0].1);
      assert Latest(latest, ops) == Latest(later, ops[1..]) >= later;
      SkewMovesLockLittle(a, latest, skew, ops[0].0, p, ops[0].1, client, until);
      StaysLockedNear(next, later, skew, p, ops[1..], client, until);
    }
  }

  /** So through any run that neither clears nor evicts it, a locked-out client is
      refused at every moment until its lock was to end, short by the skew at most
      however many operations race: with times in order, until it was to end. */
  lemma LockHolds(
      a: Table, latest: nat, skew: nat, p: Params, ops: seq<(nat, Op)>, client: string, until: nat, now: nat)
    requires Inv(a, latest, p) && PossibleRun(a, latest, skew, p, ops) && NeverFrees(a, p, ops, client)
    requires LockedTill(a, client, until)
    requires Latest(latest, ops) + skew < until && now + skew < until
    ensures Verdict(Run(a, p, ops), client, now, p).Err?
    ensures Verdict(Run(a, p, ops), client, now, p).error + skew >= until - now
  {
    StaysLockedNear(a, latest, skew, p, ops, client, until);
    RunKeepsInv(a, latest, skew, p, ops);
  }

  // --------------------------------------------------------------- the tally

  // The operation counts a failure of this client's.
  predicate Counts(a: Table, now: nat, p: Params, op: Op, client: string) {
    op.client == client && Counted(a, now, p, op).Some?
  }

  // A quiet window has passed, and the operation notices: the client's own check, or room
  // to be made in a full table.
  predicate Forgets(a: Table, now: nat, p: Params, op: Op, client: string) {
    && client in a && now > a[client].last + p.window
    && ((op.client == client && (op.Check? || op.CheckAndCount?))
        || (Counted(a, now, p, op).Some? && |Counted(a, now, p, op).value| >= MAX_TRACKED))
  }

  /** A client's failures counted since it was last let off, and when the last of them was. */
  datatype Tally = Tally(count: nat, last: nat)

  ghost function Tallied(t: Tally, a: Table, now: nat, p: Params, op: Op, client: string): Tally {
    var left := if Frees(a, now, p, op, client) || Forgets(a, now, p, op, client) then 0 else t.count;
    if Counts(a, now, p, op, client) then Tally(left + 1, now) else Tally(left, t.last)
  }

  ghost function TallyRun(t: Tally, a: Table, p: Params, ops: seq<(nat, Op)>, client: string): Tally
    decreases |ops|
  {
    if ops == [] then t
    else TallyRun(Tallied(t, a, ops[0].0, p, ops[0].1, client), Next(a, ops[0].0, p, ops[0].1), p, ops[1..], client)
  }

  function Pow2(n: nat): nat {
    if n == 0 then 1 else 2 * Pow2(n - 1)
  }

  // The lock `count` failures call for, doubled up to six times over.
  function LockOf(p: Params, count: nat): nat
    requires count >= p.maxFails
  {
    Min(p.baseLockout * Pow2(Min(count - p.maxFails, 6)), Min(p.maxLockout, p.window))
  }

  // The record is the tally: nothing for none, and a lock from the last failure on once there are enough.
  ghost predicate Records(a: Table, client: string, t: Tally, p: Params) {
    && (client in a <==> t.count > 0)
    && (client in a ==>
          var fails := Min(t.count, U32 - 1);
          a[client] == Attempt(fails, t.last, if fails >= p.maxFails then Some(t.last + LockOf(p, fails)) else None))
  }

  lemma LockIsOf(p: Params, fails: u32)
    requires fails >= p.maxFails
    ensures LockFor(p, fails) == LockOf(p, fails)
  {
    var over := Min(fails - p.maxFails, 6);
    assert Pow2(1) == 2 && Pow2(2) == 4 && Pow2(3) == 8 && Pow2(4) == 16 && Pow2(5) == 32 && Pow2(6) == 64;
    assert Shifted(over) == Pow2(over);
  }

  // The tally once a failure is counted in a table, which may have had to make room.
  ghost function Recounted(
      t: Tally, a: Table, now: nat, p: Params, failing: string, victim: string, client: string): Tally
  {
    var gone := (Evicts(a, now, p) && victim == client)
                || (|a| >= MAX_TRACKED && client in a && now > a[client].last + p.window);
    var left := if gone then 0 else t.count;
    if failing == client then Tally(left + 1, now) else Tally(left, t.last)
  }

  lemma BumpRecords(a: Table, now: nat, p: Params, failing: string, victim: string, client: string, t: Tally)
    requires |a| <= MAX_TRACKED && Legit(a, now, p, victim) && Records(a, client, t, p)
    ensures Records(Bump(a, failing, now, p, victim), client, Recounted(t, a, now, p, failing, victim, client), p)
  {
    RoomLeft(a, now, p, victim);
    var fails := Bump(a, failing, now, p, victim)[failing].fails;
    if failing == client && fails >= p.maxFails { LockIsOf(p, fails); }
  }

  lemma CheckedTally(a: Table, now: nat, p: Params, c: string, v: string, client: string, t: Tally)
    requires Verdict(a, c, now, p).Ok? && Records(a, client, t, p)
    ensures var f := Forgive(a, c, now, p);
      var left := Tally(if client in f then t.count else 0, t.last);
      && Records(f, client, left, p)
      && Tallied(t, a, now, p, CheckAndCount(c, v), client) == Recounted(left, f, now, p, c, v, client)
  {
  }

  lemma NextRecords(a: Table, now: nat, p: Params, op: Op, client: string, t: Tally)
    requires |a| <= MAX_TRACKED && Possible(a, now, p, op) && Records(a, client, t, p)
    ensures Records(Next(a, now, p, op), client, Tallied(t, a, now, p, op, client), p)
  {
    if op.RecordFailure? {
      BumpRecords(a, now, p, op.client, op.victim, client, t);
    } else if op.CheckAndCount? && Verdict(a, op.client, now, p).Ok? {
      var f := Forgive(a, op.client, now, p);
      FewerKeys(f, a);
      CheckedTally(a, now, p, op.client, op.victim, client, t);
      BumpRecords(f, now, p, op.client, op.victim, client, Tally(if client in f then t.count else 0, t.last));
    } else {
      QuietRecords(a, now, p, op, client, t);
    }
  }

  lemma QuietRecords(a: Table, now: nat, p: Params, op: Op, client: string, t: Tally)
    requires Counted(a, now, p, op).None? && Records(a, client, t, p)
    ensures Records(Next(a, now, p, op), client, Tallied(t, a, now, p, op, client), p)
  {
  }

  /** Over any run, at any skew, each client's record is its tally: every failure is counted
      once, from nothing after a success, an eviction or a quiet window, and from the last
      one allowed on each of them arms the lock it calls for. */
  lemma {:induction false} RecordIsTally(
      a: Table, latest: nat, skew: nat, p: Params, ops: seq<(nat, Op)>, client: string, t: Tally)
    requires Inv(a, latest, p) && PossibleRun(a, latest, skew, p, ops) && Records(a, client, t, p)
    ensures Records(Run(a, p, ops), client, TallyRun(t, a, p, ops, client), p)
    decreases |ops|
  {
    if ops != [] {
      NextKeepsInv(a, latest, ops[0].0, p, ops[0].1);
      NextRecords(a, ops[0].0, p, ops[0].1, client, t);
      RecordIsTally(Next(a, ops[0].0, p, ops[0].1), Max(latest, ops[0].0), skew, p, ops[1..], client,
                    Tallied(t, a, ops[0].0, p, ops[0].1, client));
    }
  }

  /** So from an empty table a client is refused exactly when its tally has reached the
      limit and the lock that calls for is still running, and for exactly what is left. */
  lemma LockedForItsTally(latest: nat, skew: nat, p: Params, ops: seq<(nat, Op)>, client: string, now: nat)
    requires PossibleRun(map[], latest, skew, p, ops) && Latest(latest, ops) <= now
    ensures var a, t := Run(map[], p, ops), TallyRun(Tally(0, 0), map[], p, ops, client);
      var fails := Min(t.count, U32 - 1);
      Verdict(a, client, now, p) ==
        if t.count > 0 && fails >= p.maxFails && now < t.last + LockOf(p, fails)
        then Err(t.last + LockOf(p, fails) - now) else Ok(())
  {
    RunKeepsInv(map[], latest, skew, p, ops);
    RecordIsTally(map[], latest, skew, p, ops, client, Tally(0, 0));
  }

  // -------------------------------------------------------------- the limiter

  lemma OldestExists(a: Table)
    requires a != map[]
    ensures exists k :: Oldest(a, k)
    decreases |a|
  {
    var k :| k in a;
    var rest := a - {k};
    assert rest.Keys == a.Keys - {k};
    if rest == map[] {
      assert forall j | j in a :: j == k by {
        forall j | j in a ensures j == k {
          assert j !in rest.Keys;
        }
      }
      assert Oldest(a, k);
    } else {
      OldestExists(rest);
      var m :| Oldest(rest, m);
      assert forall j | j in a :: j == k || j in rest.Keys;
      assert Oldest(a, if a[k].last < rest[m].last then k else m);
    }
  }

  class RateLimiter {
    var attempts: Table
    const params: Params

    constructor (maxFails: u32, baseLockout: nat, maxLockout: nat, window: nat)
      ensures attempts == map[] && params == Params(maxFails, baseLockout, maxLockout, window)
    {
      attempts := map[];
      params := Params(maxFails, baseLockout, maxLockout, window);
    }

    method Check(client: string, now: nat) returns (r: Result<(), nat>)
      modifies this
      ensures r == Verdict(old(attempts), client, now, params)
      ensures attempts == Next(old(attempts), now, params, Op.Check(client))
    {
      if client in attempts {
        var e := attempts[client];
        if Since(now, e.last) > params.window {
          attempts := attempts - {client};
          return Ok(());
        }
        if e.lockedUntil.Some? && e.lockedUntil.value > now {
          return Err(e.lockedUntil.value - now);
        }
      }
      return Ok(());
    }

    method CheckAndCount(client: string, now: nat) returns (r: Result<(), nat>, ghost victim: string)
      modifies this
      ensures r == Verdict(old(attempts), client, now, params)
      ensures Possible(old(attempts), now, params, Op.CheckAndCount(client, victim))
      ensures attempts == Next(old(attempts), now, params, Op.CheckAndCount(client, victim))
    {
      victim := "";
      if client in attempts {
        var e := attempts[client];
        if Since(now, e.last) > params.window {
          attempts := attempts - {client};
        } else if e.lockedUntil.Some? && e.lockedUntil.value > now {
          return Err(e.lockedUntil.value - now), victim;
        }
      }
      victim := BumpFailure(client, now);
      return Ok(()), victim;
    }

    method RecordFailure(client: string, now: nat) returns (ghost victim: string)
      modifies this
      ensures Possible(old(attempts), now, params, Op.RecordFailure(client, victim))
      ensures attempts == Next(old(attempts), now, params, Op.RecordFailure(client, victim))
    {
      victim := BumpFailure(client, now);
    }

    // Drop what the window forgives, then the oldest if that is not enough.
    method MakeRoom(now: nat) returns (ghost victim: string)
      modifies this
      ensures Legit(old(attempts), now, params, victim)
      ensures attempts == Room(old(attempts), now, params, victim)
    {
      victim := "";
      if |attempts| >= MAX_TRACKED {
        attempts := Recent(attempts, now, params);
        if |attempts| >= MAX_TRACKED {
          OldestExists(attempts);
          var oldest :| oldest in attempts && forall k | k in attempts :: attempts[oldest].last <= attempts[k].last;
          victim := oldest;
          attempts := attempts - {oldest};
        }
      }
    }

    method BumpFailure(client: string, now: nat) returns (ghost victim: string)
      modifies this
      ensures Legit(old(attempts), now, params, victim)
      ensures attempts == Bump(old(attempts), client, now, params, victim)
    {
      victim := MakeRoom(now);
      var e := if client in attempts then attempts[client] else Attempt(0, now, None);
      var fails: u32 := Min(e.fails + 1, U32 - 1);
      var locked := e.lockedUntil;
      if fails >= params.maxFails {
        var over := Min(fails - params.maxFails, MAX_SHIFT);
        var lock := Min(Min(params.baseLockout * Shifted(over), params.maxLockout), params.window);
        locked := Some(now + lock);
      }
      attempts := attempts[client := Attempt(fails, now, locked)];
    }

    method RecordSuccess(client: string)
      modifies this
      ensures forall now: nat :: attempts == Next(old(attempts), now, params, Op.RecordSuccess(client))
    {
      attempts := attempts - {client};
    }
  }
}
