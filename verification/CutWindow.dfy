/**
 * The scheduled cut with everyone at work (src/controller.rs, `maybe_fire_safe_cut`):
 * pumps interleave their accesses while ingest goes on, destinations send, connect,
 * leave and are cut about. What does a cut still promise when the others have moved
 * between the measurement it rests on and the compare-exchange that fires it?
 */
module CutWindow {
  import opened Wrappers
  import opened RingView
  import opened Reach
  import opened SafeCut

  /** `dests` holds each destination's position: none while it is not live, `NO_SEQ`
      while it is live and has announced none. `edge` is the newest stamp so far. */
  datatype World = World(s: State, r: Ring, edge: nat, dests: seq<Option<nat>>)

  datatype Event =
    | Accesses(a: Action)
    | Ingests(tag: Arrival, armed: nat, slowest: nat)
    | MovesTo(d: nat, cursor: nat)
    | Connects(d: nat)
    | Leaves(d: nat)

  function Live(dests: seq<Option<nat>>): (cursors: seq<nat>)
    ensures forall d | 0 <= d < |dests| && dests[d].Some? :: dests[d].value in cursors
    ensures forall c | c in cursors :: Some(c) in dests
  {
    if dests == [] then []
    else
      assert dests == [dests[0]] + dests[1..];
      (if dests[0].Some? then [dests[0].value] else []) + Live(dests[1..])
  }

  // An access is the next of its pump, and measures the world as it is; tags come
  // with stamps in order.
  ghost predicate Can(w: World, e: Event) {
    match e
    case Accesses(a) => Enabled(w.s, a) && (a.Measure? ==> a.slowest == SlowestLiveTs(w.r, Live(w.dests)))
    case Ingests(a, _, _) => (a.primary ==> a.isIdr) && a.ts >= w.edge
    case MovesTo(d, _) => d < |w.dests| && w.dests[d].Some?
    case Connects(d) => d < |w.dests| && w.dests[d].None?
    case Leaves(d) => d < |w.dests| && w.dests[d].Some?
  }

  function After(w: World, e: Event): World
    requires w.r.capacity > 0 && Can(w, e)
    ensures |After(w, e).dests| == |w.dests|
  {
    match e
    case Accesses(a) => w.(s := SafeCut.Next(w.s, a))
    case Ingests(a, armed, slowest) => w.(r := OnTag(w.r, armed, slowest, a), edge := a.ts)
    case MovesTo(d, cursor) => w.(dests := w.dests[d := Some(cursor)])
    case Connects(d) => w.(dests := w.dests[d := Some(NO_SEQ)])
    case Leaves(d) => w.(dests := w.dests[d := None])
  }

  ghost predicate Inv(w: World) {
    && WellFormed(w.r) && Sorted(w.r.tags) && PumpsInv(w.s)
    && forall m | m in w.r.tags :: m.ts <= w.edge
  }

  lemma AppendGrows(r: Ring, a: Arrival)
    requires WellFormed(r) && (a.primary ==> a.isIdr)
    ensures forall m | m in Appended(r, a).tags :: m in r.tags || m.ts == a.ts
  {
    if !Bypasses(r, a) {
      EvictWellFormed(r, a.len);
      SuffixOrder(Evict(r, a.len).tags, r.tags);
    }
  }

  lemma TrimShrinks(p: Ring, armed: nat, ts: nat, slowest: nat)
    requires WellFormed(p)
    ensures forall m | m in TrimFor(p, armed, ts, slowest).tags :: m in p.tags
  {
    TrimWellFormed(p, Cutoff(armed, ts), KeepFrom(p, armed, ts, slowest));
    SuffixOrder(TrimFor(p, armed, ts, slowest).tags, p.tags);
  }

  lemma IngestGrows(r: Ring, armed: nat, slowest: nat, a: Arrival, edge: nat)
    requires WellFormed(r) && Sorted(r.tags) && (a.primary ==> a.isIdr)
    requires a.ts >= edge && forall m | m in r.tags :: m.ts <= edge
    ensures var t := OnTag(r, armed, slowest, a);
      && WellFormed(t) && Sorted(t.tags)
      && forall m | m in t.tags :: m in r.tags || m.ts == a.ts
  {
    assert InOrder(r, a) by { assert r.tags != [] ==> r.tags[|r.tags| - 1] in r.tags; }
    OnTagWellFormed(r, armed, slowest, a);
    AppendedWellFormed(r, a);
    AppendGrows(r, a);
    TrimShrinks(Appended(r, a), armed, a.ts, slowest);
  }

  lemma AfterKeepsInv(w: World, e: Event)
    requires Inv(w) && Can(w, e)
    ensures Inv(After(w, e)) && After(w, e).edge >= w.edge
  {
    match e
    case Accesses(a) => StepCounts(w.s, a);
    case Ingests(a, armed, slowest) => IngestGrows(w.r, armed, slowest, a, w.edge);
    case _ =>
  }

  // ---------------------------------------------------------------- whole runs

  /** A run as the worlds it goes through, one event between each and the next. */
  ghost predicate IsRun(worlds: seq<World>, events: seq<Event>) {
    && |worlds| == |events| + 1 && Inv(worlds[0])
    && forall i | 0 <= i < |events| :: Steps(worlds, events, i)
  }

  ghost predicate Steps(worlds: seq<World>, events: seq<Event>, i: nat)
    requires |worlds| == |events| + 1 && i < |events|
  {
    worlds[i].r.capacity > 0 && Can(worlds[i], events[i]) && worlds[i + 1] == After(worlds[i], events[i])
  }

  lemma {:induction false} RunKeepsInv(worlds: seq<World>, events: seq<Event>, i: nat)
    requires IsRun(worlds, events) && i <= |events|
    ensures Inv(worlds[i]) && |worlds[i].dests| == |worlds[0].dests|
  {
    if i > 0 {
      RunKeepsInv(worlds, events, i - 1);
      assert Steps(worlds, events, i - 1);
      AfterKeepsInv(worlds[i - 1], events[i - 1]);
    }
  }

  // Event `j` is the measurement by which pump `p` found `mark` aired.
  ghost predicate MeasuresAired(worlds: seq<World>, events: seq<Event>, j: nat, p: nat, mark: nat)
    requires |worlds| == |events| + 1
  {
    && j < |events| && events[j].Accesses? && events[j].a.Measure? && events[j].a.p == p
    && SlowestLiveTs(worlds[j].r, Live(worlds[j].dests)).Some?
    && SlowestLiveTs(worlds[j].r, Live(worlds[j].dests)).value > mark
  }

  // A pump about to compare and exchange got there by a measurement of its own.
  lemma {:induction false} AiredWasMeasured(worlds: seq<World>, events: seq<Event>, i: nat, p: nat)
    requires IsRun(worlds, events) && i <= |events|
    requires PcOf(worlds[0].s, p).Outside? && PcOf(worlds[i].s, p).Aired?
    ensures exists j :: 0 <= j < i && MeasuresAired(worlds, events, j, p, PcOf(worlds[i].s, p).mark)
  {
    assert i > 0;
    assert Steps(worlds, events, i - 1);
    var before, e := worlds[i - 1], events[i - 1];
    if PcOf(before.s, p) == PcOf(worlds[i].s, p) {
      AiredWasMeasured(worlds, events, i - 1, p);
    } else {
      assert e.Accesses? && e.a.Measure? && e.a.p == p;
      assert MeasuresAired(worlds, events, i - 1, p, PcOf(worlds[i].s, p).mark);
    }
  }

  // From `j` to `i` destination `d` stays live, with a position that never goes back.
  ghost predicate KeepsOn(worlds: seq<World>, d: nat, j: nat, i: nat)
    requires j <= i < |worlds|
  {
    && (forall k | j <= k <= i :: HasPosition(worlds[k], d))
    && forall k | j < k <= i :: worlds[k].dests[d].value >= worlds[k - 1].dests[d].value
  }

  predicate HasPosition(w: World, d: nat) {
    d < |w.dests| && w.dests[d].Some? && w.dests[d].value != NO_SEQ
  }

  lemma StepStaysAired(w: World, e: Event, from: nat, to: nat, mark: nat)
    requires Inv(w) && Can(w, e) && to >= from && w.edge > mark
    requires HasAired(w.r, Some(from), mark)
    ensures HasAired(After(w, e).r, Some(to), mark)
  {
    if e.Ingests? {
      IngestGrows(w.r, e.armed, e.slowest, e.tag, w.edge);
    }
  }

  lemma {:induction false} StaysAired(worlds: seq<World>, events: seq<Event>, d: nat, j: nat, i: nat, mark: nat)
    requires IsRun(worlds, events) && j <= i <= |events| && KeepsOn(worlds, d, j, i)
    requires worlds[j].edge > mark && HasAired(worlds[j].r, worlds[j].dests[d], mark)
    ensures worlds[i].edge > mark && HasAired(worlds[i].r, worlds[i].dests[d], mark)
    decreases i - j
  {
    if j < i {
      assert KeepsOn(worlds, d, j, i - 1);
      StaysAired(worlds, events, d, j, i - 1, mark);
      RunKeepsInv(worlds, events, i - 1);
      assert Steps(worlds, events, i - 1);
      AfterKeepsInv(worlds[i - 1], events[i - 1]);
      StepStaysAired(worlds[i - 1], events[i - 1],
                     worlds[i - 1].dests[d].value, worlds[i].dests[d].value, mark);
    }
  }

  // Every live destination with a position had sent all it had at or before `mark`.
  ghost predicate AiredByThen(w: World, mark: nat) {
    && w.edge > mark
    && forall d: nat | HasPosition(w, d) :: HasAired(w.r, w.dests[d], mark)
  }

  lemma MeasuredIsAired(w: World, mark: nat)
    requires Inv(w) && SlowestLiveTs(w.r, Live(w.dests)).Some?
    requires SlowestLiveTs(w.r, Live(w.dests)).value > mark
    ensures AiredByThen(w, mark)
  {
    SlowestDecides(w.r, Live(w.dests), mark);
    assert w.r.tags[|w.r.tags| - 1] in w.r.tags;
  }

  /** What a cut still promises, however everyone moved in the meantime: when it was
      measured, not before, every destination then live with a position had aired the
      mark that fires; and one that has kept on since, never cut back, still has
      nothing of it to send. One that has connected since, or been cut back, is
      promised nothing. */
  lemma FiringPromises(worlds: seq<World>, events: seq<Event>, i: nat)
    requires IsRun(worlds, events) && i < |events|
    requires forall p | p in worlds[0].s.pumps :: worlds[0].s.pumps[p].Outside?
    requires events[i].Accesses? && Fires(worlds[i].s, events[i].a)
    ensures var mark := worlds[i].s.mark;
      mark != 0 && exists j ::
        && 0 <= j < i && MeasuresAired(worlds, events, j, events[i].a.p, mark)
        && AiredByThen(worlds[j], mark)
        && forall d: nat | KeepsOn(worlds, d, j, i) :: HasAired(worlds[i].r, worlds[i].dests[d], mark)
  {
    var p, mark := events[i].a.p, worlds[i].s.mark;
    RunKeepsInv(worlds, events, i);
    AiredWasMeasured(worlds, events, i, p);
    var j :| 0 <= j < i && MeasuresAired(worlds, events, j, p, mark);
    RunKeepsInv(worlds, events, j);
    MeasuredIsAired(worlds[j], mark);
    forall d: nat | KeepsOn(worlds, d, j, i) ensures HasAired(worlds[i].r, worlds[i].dests[d], mark) {
      StaysAired(worlds, events, d, j, i, mark);
    }
  }
}
