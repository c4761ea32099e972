/**
 * The reconnect screen (src/crash_hold.rs, `stream_loop`): a video loop and any
 * number of silent audio tracks, each due on its own period, merged by time into
 * one output. Times are exact milliseconds, where the code has f64.
 */
module HoldLoop {
  import opened Wrappers

  const SLATE_FPS: real := 30.0
  const FRAME_MS: real := 1000.0 / SLATE_FPS

  /** Frame `index` of a track, due `at`. Track 0 is the video tick, track k + 1
      the `k`th audio track. */
  datatype Due = Due(track: nat, index: nat, at: real)

  // Why playback stopped.
  datatype HoldExit = Resumed(rejoinFromSeq: nat) | Ended

  // `index` periods, counted out.
  function Periods(period: real, index: nat): real {
    if index == 0 then 0.0 else Periods(period, index - 1) + period
  }

  lemma {:induction false} PeriodsAre(period: real, index: nat)
    ensures Periods(period, index) == index as real * period
  {
    if index > 0 {
      PeriodsAre(period, index - 1);
    }
  }

  function DueOf(periods: seq<real>, track: nat, index: nat): Due
    requires track < |periods|
  {
    Due(track, index, Periods(periods[track], index))
  }

  predicate Before(a: Due, b: Due) {
    a.at < b.at || (a.at == b.at && a.track < b.track)
  }

  ghost predicate Frame(periods: seq<real>, f: Due) {
    f.track < |periods| && f == DueOf(periods, f.track, f.index)
  }

  predicate Positive(periods: seq<real>) {
    forall k | 0 <= k < |periods| :: periods[k] > 0.0
  }

  ghost predicate IsSent(periods: seq<real>, log: seq<Due>, k: nat, n: nat)
    requires k < |periods|
  {
    DueOf(periods, k, n) in log
  }

  // Everything sent comes before track `k`'s next frame.
  ghost predicate StillAhead(periods: seq<real>, log: seq<Due>, k: nat, n: nat)
    requires k < |periods|
  {
    forall j | 0 <= j < |log| :: Before(log[j], DueOf(periods, k, n))
  }

  function Sum(s: seq<nat>): nat {
    if s == [] then 0 else s[0] + Sum(s[1..])
  }

  // The frames sent so far, in the one order by time, and how many of each track.
  ghost predicate Merged(periods: seq<real>, log: seq<Due>, sent: seq<nat>) {
    && |sent| == |periods|
    && |log| == Sum(sent)
    && (forall j | 0 <= j < |log| :: Frame(periods, log[j]) && log[j].index < sent[log[j].track])
    && (forall i, j | 0 <= i < j < |log| :: Before(log[i], log[j]))
    && (forall k, n: nat | 0 <= k < |periods| && n < sent[k] :: IsSent(periods, log, k, n))
    && (forall k | 0 <= k < |periods| :: StillAhead(periods, log, k, sent[k]))
  }

  // The audio track due soonest of the first `n`, the first of them on a tie.
  function Soonest(audio: seq<real>, sent: seq<nat>, n: nat): (s: Option<nat>)
    requires n <= |audio| == |sent|
    ensures s.None? <==> n == 0
    ensures s.Some? ==> s.value < n && forall k | 0 <= k < n && k != s.value ::
      Before(DueOf(audio, s.value, sent[s.value]), DueOf(audio, k, sent[k]))
  {
    if n == 0 then None
    else
      var s := Soonest(audio, sent, n - 1);
      if s.Some? && Periods(audio[s.value], sent[s.value]) <= Periods(audio[n - 1], sent[n - 1]) then s
      else Some(n - 1)
  }

  // The audio track due before the next video frame, the soonest if several are.
  function AudioDue(audio: seq<real>, video: nat, sent: seq<nat>): (due: Option<nat>)
    requires |audio| == |sent|
    ensures due.Some? ==> due.value < |audio|
  {
    var s := Soonest(audio, sent, |audio|);
    if s.Some? && Periods(audio[s.value], sent[s.value]) < Periods(FRAME_MS, video) then s else None
  }

  // That choice is the first of all the tracks' next frames, video winning ties.
  lemma NextIsFirst(audio: seq<real>, video: nat, sent: seq<nat>, k: nat)
    requires |audio| == |sent| && k <= |audio|
    ensures var due := AudioDue(audio, video, sent);
      var track := if due.Some? then due.value + 1 else 0;
      var periods, all := [FRAME_MS] + audio, [video] + sent;
      k != track ==> Before(DueOf(periods, track, all[track]), DueOf(periods, k, all[k]))
  {
    var s := Soonest(audio, sent, |audio|);
    if k > 0 && s.value != k - 1 {
      assert Before(DueOf(audio, s.value, sent[s.value]), DueOf(audio, k - 1, sent[k - 1]));
    }
  }

  // `at.round() as u32`: half up, saturating.
  function Stamp(at: real): (s: u32)
    requires at >= 0.0
  {
    Min((at + 0.5).Floor, U32 - 1)
  }

  /** The nearest whole millisecond, up to the last one 32 bits hold. */
  lemma StampIsNearest(at: real)
    requires at >= 0.0
    ensures at + 0.5 < U32 as real ==> Stamp(at) as real - 0.5 <= at < Stamp(at) as real + 0.5
    ensures at + 0.5 >= U32 as real ==> Stamp(at) == U32 - 1
  {
    assert (at + 0.5).Floor as real <= at + 0.5 < (at + 0.5).Floor as real + 1.0;
  }

  lemma {:induction false} LaterIndexLaterDue(period: real, m: nat, n: nat)
    requires period > 0.0
    ensures m < n ==> Periods(period, m) < Periods(period, n)
    ensures Periods(period, n) >= 0.0
    decreases n
  {
    if n > 0 {
      LaterIndexLaterDue(period, m, n - 1);
    }
  }

  // The wire stamp of a frame due `at`: `base` goes with time 0.
  function WireStamp(base: u32, at: real): u32
    requires at >= 0.0
  {
    (base + Stamp(at)) % U32
  }

  // Every frame went out on its own time, counted from `base`.
  ghost predicate StampedFrom(base: u32, log: seq<Due>, wire: seq<u32>) {
    |wire| == |log| && forall i | 0 <= i < |log| :: log[i].at >= 0.0 && wire[i] == WireStamp(base, log[i].at)
  }

  lemma StampsRise(a: real, b: real)
    requires 0.0 <= a <= b
    ensures Stamp(a) <= Stamp(b)
  {
  }

  lemma {:induction false} SumGrows(s: seq<nat>, k: nat)
    requires k < |s|
    ensures Sum(s[k := s[k] + 1]) == Sum(s) + 1
  {
    var t := s[k := s[k] + 1];
    if k == 0 {
      assert t[1..] == s[1..];
    } else {
      SumGrows(s[1..], k - 1);
      assert t[1..] == s[1..][k - 1 := s[k] + 1];
    }
  }

  // Of all the tracks' next frames, track `track`'s comes first.
  ghost predicate IsNext(periods: seq<real>, sent: seq<nat>, track: nat)
    requires |sent| == |periods| && track < |periods|
  {
    forall k | 0 <= k < |periods| && k != track ::
      Before(DueOf(periods, track, sent[track]), DueOf(periods, k, sent[k]))
  }

  // Sending the first of the tracks' next frames keeps the merge a merge.
  lemma MergeStep(periods: seq<real>, log: seq<Due>, sent: seq<nat>, track: nat, grown: seq<Due>, after: seq<nat>)
    requires Merged(periods, log, sent) && Positive(periods) && track < |periods|
    requires IsNext(periods, sent, track)
    requires grown == log + [DueOf(periods, track, sent[track])] && after == sent[track := sent[track] + 1]
    ensures Merged(periods, grown, after)
  {
    var next := DueOf(periods, track, sent[track]);
    LaterIndexLaterDue(periods[track], sent[track], sent[track] + 1);
    SumGrows(sent, track);
    forall k, n: nat | 0 <= k < |periods| && n < after[k] ensures IsSent(periods, grown, k, n) {
      if k == track && n == sent[track] {
        assert grown[|log|] == next;
      } else {
        assert IsSent(periods, log, k, n);
      }
    }
    forall k | 0 <= k < |periods| ensures StillAhead(periods, grown, k, after[k]) {
      assert StillAhead(periods, log, k, sent[k]);
    }
    assert StillAhead(periods, log, track, sent[track]);
  }

  /** Nothing is skipped and nothing is early: a frame that is not out yet comes
      after everything that is. */
  lemma MergeIsPrefix(periods: seq<real>, log: seq<Due>, sent: seq<nat>, f: Due)
    requires Merged(periods, log, sent) && Positive(periods) && Frame(periods, f)
    ensures f in log || forall g | g in log :: Before(g, f)
  {
    if f.index < sent[f.track] {
      assert IsSent(periods, log, f.track, f.index);
    } else {
      LaterIndexLaterDue(periods[f.track], sent[f.track], f.index);
      forall g | g in log ensures Before(g, f) {
        assert StillAhead(periods, log, f.track, sent[f.track]);
      }
    }
  }

  // How many frames of each track are due by `at`, at most.
  function Counts(periods: seq<real>, at: real): (counts: seq<nat>)
    requires Positive(periods) && at >= 0.0
    ensures |counts| == |periods|
    ensures forall k | 0 <= k < |periods| :: counts[k] == (at / periods[k]).Floor + 1
  {
    seq(|periods|, k requires 0 <= k < |periods| => DueBy(periods[k], at))
  }

  function DueBy(period: real, at: real): nat
    requires period > 0.0 && at >= 0.0
  {
    assert at / period >= 0.0;
    (at / period).Floor + 1
  }

  // The rounds after which frame `n` of track `k` has gone out.
  function RoundsFor(periods: seq<real>, k: nat, n: nat): nat
    requires Positive(periods) && k < |periods|
  {
    LaterIndexLaterDue(periods[k], n, n);
    Sum(Counts(periods, Periods(periods[k], n)))
  }

  lemma {:induction false} SumBelow(a: seq<nat>, b: seq<nat>)
    requires |a| == |b| && forall i | 0 <= i < |a| :: a[i] <= b[i]
    ensures Sum(a) <= Sum(b)
  {
    if a != [] {
      SumBelow(a[1..], b[1..]);
    }
  }

  lemma PeriodsWithin(period: real, index: nat, at: real)
    requires period > 0.0 && at >= 0.0 && Periods(period, index) <= at
    ensures index < DueBy(period, at)
  {
    PeriodsAre(period, index);
    Scaled(index as real, at / period, period);
  }

  lemma Scaled(a: real, b: real, p: real)
    requires p > 0.0
    ensures a > b ==> a * p > b * p
  {
  }

  // While a frame is not out, no track is past the frames due by then.
  lemma SentBounded(periods: seq<real>, log: seq<Due>, sent: seq<nat>, f: Due, k: nat)
    requires Merged(periods, log, sent) && Positive(periods) && Frame(periods, f)
    requires f !in log && f.at >= 0.0 && k < |periods|
    ensures sent[k] <= DueBy(periods[k], f.at)
  {
    if sent[k] > 0 {
      assert IsSent(periods, log, k, sent[k] - 1);
      MergeIsPrefix(periods, log, sent, f);
      PeriodsWithin(periods[k], sent[k] - 1, f.at);
    }
  }

  /** And no track starves: every frame of every track is out after a number of
      rounds told from the periods alone, one frame to each round. */
  lemma NoTrackStarves(periods: seq<real>, log: seq<Due>, sent: seq<nat>, k: nat, n: nat)
    requires Merged(periods, log, sent) && Positive(periods) && k < |periods|
    requires |log| > RoundsFor(periods, k, n)
    ensures DueOf(periods, k, n) in log
  {
    var f := DueOf(periods, k, n);
    LaterIndexLaterDue(periods[k], n, n);
    if f !in log {
      forall j | 0 <= j < |periods| ensures sent[j] <= Counts(periods, f.at)[j] {
        SentBounded(periods, log, sent, f, j);
      }
      SumBelow(sent, Counts(periods, f.at));
    }
  }

  ghost predicate NoneStarved(periods: seq<real>, log: seq<Due>)
    requires Positive(periods)
  {
    forall k: nat, n: nat | k < |periods| && |log| > RoundsFor(periods, k, n) :: DueOf(periods, k, n) in log
  }

  // `log` is the initial part of the one order that sends every track's `i`th
  // frame at `i` periods, by time, video first on a tie.
  ghost predicate InitialOrder(periods: seq<real>, log: seq<Due>) {
    && (forall f | f in log :: Frame(periods, f) && f.at >= 0.0)
    && (forall i, j | 0 <= i < j < |log| :: Before(log[i], log[j]))
    && (forall f: Due | Frame(periods, f) :: f in log || forall g | g in log :: Before(g, f))
  }

  lemma MergeIsInitial(periods: seq<real>, log: seq<Due>, sent: seq<nat>)
    requires Merged(periods, log, sent) && Positive(periods)
    ensures InitialOrder(periods, log) && NoneStarved(periods, log)
  {
    forall k: nat, n: nat | k < |periods| && |log| > RoundsFor(periods, k, n) ensures DueOf(periods, k, n) in log {
      NoTrackStarves(periods, log, sent, k, n);
    }
    forall f: Due | Frame(periods, f) ensures f in log || forall g | g in log :: Before(g, f) {
      MergeIsPrefix(periods, log, sent, f);
    }
    forall f | f in log ensures f.at >= 0.0 {
      LaterIndexLaterDue(periods[f.track], 0, f.index);
    }
  }

  // `log` came about by sending, each time, the first of all the tracks' next frames.
  ghost predicate Merging(periods: seq<real>, log: seq<Due>, sent: seq<nat>)
    decreases |log|
  {
    && |sent| == |periods|
    && if log == [] then forall k | 0 <= k < |sent| :: sent[k] == 0
       else
         var last := log[|log| - 1];
         && last.track < |sent| && sent[last.track] > 0
         && var before := sent[last.track := sent[last.track] - 1];
            && last == DueOf(periods, last.track, before[last.track])
            && IsNext(periods, before, last.track)
            && Merging(periods, log[..|log| - 1], before)
  }

  lemma {:induction false} MergingIsMerged(periods: seq<real>, log: seq<Due>, sent: seq<nat>)
    requires Merging(periods, log, sent) && Positive(periods)
    ensures Merged(periods, log, sent)
    decreases |log|
  {
    if log == [] {
      NothingSent(sent);
    } else {
      var last := log[|log| - 1];
      var before := sent[last.track := sent[last.track] - 1];
      MergingIsMerged(periods, log[..|log| - 1], before);
      MergeStep(periods, log[..|log| - 1], before, last.track, log, sent);
    }
  }

  lemma {:induction false} NothingSent(sent: seq<nat>)
    requires forall k | 0 <= k < |sent| :: sent[k] == 0
    ensures Sum(sent) == 0
  {
    if sent != [] {
      NothingSent(sent[1..]);
    }
  }

  lemma MergingGrows(periods: seq<real>, log: seq<Due>, sent: seq<nat>, track: nat, after: seq<nat>)
    requires Merging(periods, log, sent) && track < |periods| && IsNext(periods, sent, track)
    requires after == sent[track := sent[track] + 1]
    ensures Merging(periods, log + [DueOf(periods, track, sent[track])], after)
  {
    var grown := log + [DueOf(periods, track, sent[track])];
    assert grown[..|log|] == log;
    assert after[track := after[track] - 1] == sent;
  }

  // One frame: the choice of track, and its counter.
  method SendNext(audio: seq<real>, video: nat, sent: seq<nat>, ghost log: seq<Due>)
    returns (next: Due, video': nat, sent': seq<nat>)
    requires Positive(audio) && |sent| == |audio|
    requires Merging([FRAME_MS] + audio, log, [video] + sent)
    ensures |sent'| == |audio| && next.at >= 0.0
    ensures Merging([FRAME_MS] + audio, log + [next], [video'] + sent')
  {
    video', sent' := video, sent;
    var due := AudioDue(audio, video, sent);
    if due.Some? {
      var k := due.value;
      next := Due(k + 1, sent[k], Periods(audio[k], sent[k]));
      sent' := sent[k := sent[k] + 1];
      LaterIndexLaterDue(audio[k], 0, sent[k]);
    } else {
      next := Due(0, video, Periods(FRAME_MS, video));
      video' := video + 1;
      LaterIndexLaterDue(FRAME_MS, 0, video);
    }
    ghost var track := if due.Some? then due.value + 1 else 0;
    NextIsNext(audio, video, sent);
    MergingGrows([FRAME_MS] + audio, log, [video] + sent, track, [video'] + sent');
  }

  lemma NextIsNext(audio: seq<real>, video: nat, sent: seq<nat>)
    requires |audio| == |sent|
    ensures var due := AudioDue(audio, video, sent);
      IsNext([FRAME_MS] + audio, [video] + sent, if due.Some? then due.value + 1 else 0)
  {
    forall k | 0 <= k <= |audio| {
      NextIsFirst(audio, video, sent, k);
    }
  }

  lemma StampedNext(base: u32, log: seq<Due>, wire: seq<u32>, next: Due)
    requires StampedFrom(base, log, wire) && next.at >= 0.0
    ensures StampedFrom(base, log + [next], wire + [WireStamp(base, next.at)])
  {
  }

  // One round: the frame, and its stamp.
  method Tick(audio: seq<real>, base: u32, video: nat, sent: seq<nat>, log: seq<Due>, wire: seq<u32>)
    returns (video': nat, sent': seq<nat>, log': seq<Due>, wire': seq<u32>)
    requires Positive(audio) && |sent| == |audio|
    requires Merging([FRAME_MS] + audio, log, [video] + sent) && StampedFrom(base, log, wire)
    ensures |sent'| == |audio| && |log'| == |log| + 1
    ensures Merging([FRAME_MS] + audio, log', [video'] + sent') && StampedFrom(base, log', wire')
  {
    var next;
    next, video', sent' := SendNext(audio, video, sent, log);
    StampedNext(base, log, wire, next);
    log', wire' := log + [next], wire + [WireStamp(base, next.at)];
  }

  // One iteration per entry of `polls`, what the hold's state says each time
  // round, until one of them is an exit.
  method StreamLoop(audio: seq<real>, base: u32, polls: seq<Option<HoldExit>>)
    returns (exit: Option<HoldExit>, lastTs: u32, log: seq<Due>, wire: seq<u32>, ghost all: seq<nat>)
    requires Positive(audio)
    ensures |log| <= |polls| && (forall i | 0 <= i < |log| :: polls[i].None?)
    ensures exit == if |log| < |polls| then polls[|log|] else None
    ensures |log| < |polls| ==> polls[|log|].Some?
    ensures Merging([FRAME_MS] + audio, log, all)
    ensures StampedFrom(base, log, wire)
    ensures lastTs == if wire == [] then base else wire[|wire| - 1]
  {
    var video, sent: seq<nat> := 0, seq(|audio|, _ => 0);
    log, wire := [], [];
    while |log| < |polls| && polls[|log|].None?
      invariant |log| <= |polls| && |sent| == |audio|
      invariant forall j | 0 <= j < |log| :: polls[j].None?
      invariant Merging([FRAME_MS] + audio, log, [video] + sent) && StampedFrom(base, log, wire)
      decreases |polls| - |log|
    {
      video, sent, log, wire := Tick(audio, base, video, sent, log, wire);
    }
    all := [video] + sent;
    lastTs := if wire == [] then base else wire[|wire| - 1];
    exit := if |log| < |polls| then polls[|log|] else None;
  }

  /** The screen from the stamp after `afterTs` on, until the first exit. `log` is
      what went out, tick by tick, and `wire` the stamps it went out with; `lastTs`
      is the last stamp used. */
  method Play(audio: seq<real>, afterTs: u32, polls: seq<Option<HoldExit>>)
    returns (exit: Option<HoldExit>, lastTs: u32, log: seq<Due>, wire: seq<u32>)
    requires Positive(audio)
    ensures |log| <= |polls| && (forall i | 0 <= i < |log| :: polls[i].None?)
    ensures exit == if |log| < |polls| then polls[|log|] else None
    ensures |log| < |polls| ==> polls[|log|].Some?
    ensures InitialOrder([FRAME_MS] + audio, log) && NoneStarved([FRAME_MS] + audio, log)
    ensures StampedFrom((afterTs + 1) % U32, log, wire)
    ensures lastTs == if wire == [] then (afterTs + 1) % U32 else wire[|wire| - 1]
  {
    ghost var all;
    exit, lastTs, log, wire, all := StreamLoop(audio, (afterTs + 1) % U32, polls);
    MergingIsMerged([FRAME_MS] + audio, log, all);
    MergeIsInitial([FRAME_MS] + audio, log, all);
  }
}
