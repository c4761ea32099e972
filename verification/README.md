# InstantClone, verified in Dafny

InstantClone is an RTMP delay proxy. One publisher writes media tags into a
fixed-size ring on disk; any number of pumps, one per destination, read it at
their own cursors; a delay state machine makes the pumps jump between keyframes,
so viewers see the stream late, or live, without a break.

This project models the parts of it that are hard to get right and proves what
they promise. `dafny verify dfyconfig.toml` checks all of it.

## How it is laid out

| file | what it models |
|---|---|
| `RingView.dfy` | the ring's two indexes as values: geometry, eviction, trim, every lookup |
| `Buffer.dfy`, `TagFormat.dfy` | the disk ring in place, over a byte array whose writes may fail, and what it reads out of a tag |
| `Timestamps.dfy` | 32-bit ingest stamps promoted to one 64-bit timeline |
| `Cuts.dfy` | which keyframe a pump is sent to, and when |
| `Reach.dfy` | append then trim: whether a delay stays reachable |
| `FullRing.dfy` | a delay longer than a full ring reaches, and what one tag does to it |
| `Pump.dfy` | a pump's loop: the delay's tail, the replay floor, rejoining after a hold |
| `HoldLoop.dfy` | the reconnect screen: several periodic tracks merged by time |
| `Egress.dfy` | the output timeline, unwrapped, with its history, and the wrapped fields that refine it |
| `DelayControl.dfy` | arm, activate, cut, auto-activation, as steps of a state machine |
| `SafeCut.dfy` | the scheduled cut: what firing means, and its compare-exchange |
| `CutWindow.dfy` | the scheduled cut while everyone else moves on |
| `Controller.dfy` | the controller's fields, changed in place, refining the models above |
| `VodLatch.dfy` | the VOD-session latch, every atomic access and locked section interleaved |
| `BufferSize.dfy` | the buffer size a refused delay names |
| `RateLimiter.dfy` | the lockout limiter |
| `Hotkey.dfy`, `Midi.dfy`, `Text.dfy` | hotkey combos and MIDI signatures: parser, printer, round trip |
| `Bindings.dfy` | what each action is bound to, over any run of changes |
| `JsonGrammar.dfy`, `JsonDecode.dfy` | RFC 8259: what a JSON text is, and what a JSON string stands for |
| `Json.dfy`, `JsonString.dfy` | the recogniser and the string printer |

Code that computes is modelled by functions. Code that changes state in place is
modelled by classes whose methods are tied, field by field, to a function on
values; the theorems are about that function. Several threads of control are
modelled as steps of a state machine that may interleave in any order.

One ring value, `RingView.Ring`, runs through all of it: the disk ring refines it,
the lookups and the trim are functions of it, the cut checks and the pumps read it.
Its tags carry one field the code does not store, `primary`: whether the payload is
a primary-track keyframe, decided once, when the tag is appended, by the function
in `TagFormat.dfy`. `Buffer.DiskRing.Valid` ties it to the payload.

## What turned out false, and when it holds

- **The trim and a tag that was not stored.** `on_tag` ignores a failed append and
  trims all the same, by the stamp of a tag the ring does not have. A delay the
  ring reached can then lose its keyframe: `Reach.UnstoredTagCanLoseDelay` shows
  one. `Reach.UnstoredTagExact` gives the exact condition: the keyframe is kept if
  and only if it is newer than the trim's cutoff or at or past the seq the trim
  must keep. A stored tag never costs a delay its keyframe by the trim
  (`Reach.DelayStaysReachable`); only its own bytes can overwrite it.
- **A delay served by a full ring.** A delay longer than a full ring reaches is
  served from the ring's old end while the ring reads as full. One tag can end that
  without touching any keyframe, in three ways, each shown on a 50 MB ring of frames
  RTMP can carry: it overwrites one frame too large (`FullRing.EvictionCanLoseDelay`),
  its stamp trims one (`FullRing.TrimCanLoseDelay`), or its write fails after the
  eviction has made room for it (`FullRing.FailedWriteCanLoseDelay`).
  `FullRing.FullRingExact` says, of the ring and the tag before it arrives, stored or
  not and for any replay floor, exactly when the delay still has somewhere to land.
  The first way needs a frame of over a sixteenth of the ring
  (`FullRing.EvictionKeepsFull`), so it cannot happen from 256 MB up
  (`FullRing.LargeRingStaysFull`).
- **A payload of no bytes.** Eviction takes exactly the tags the write covers
  (`RingView.EvictExact`), except that an empty payload on a ring full to the last
  byte costs the oldest tag for nothing (`RingView.EmptyWriteEvicts`).
- **Ten seconds back.** The limit on how far a stamp may step back applies inside
  one cycle of the 32-bit counter; over a wrap boundary any step of less than half
  the counter is read as it is. `Timestamps.TwentySecondsBack` shows both;
  `Timestamps.StepExact` is the exact condition.
- **A live destination without a position.** A destination counts as live from the
  moment it connects, and announces no position until it is seeded. The scheduled
  cut does not wait for it: `SafeCut.UnannouncedIsNotWaitedFor` shows a mark firing
  over a destination that then starts nine seconds before it. By
  `SafeCut.FiresWhenAiredEverywhere` the mark has aired everywhere if and only if
  the slowest position is past it and no such destination would start at or before it.
- **A lock is never moved back.** The limiter reads the clock before it takes its
  table, so of two racing failures the one that read it first may count last, and
  at the longest lock it moves the lock back: `RateLimiter.SkewMovesLock`. By no more
  than the race, though, over any run of them (`RateLimiter.LockHolds`); with the
  times in order a lock is only made longer (`RateLimiter.LockOnlyLengthens`).
- **One pad, one action.** Two actions never hold the same signature, but a pad of
  one device and the same pad of any device are different signatures for one pad.
  `Bindings.LearnedPadCanBeDeaf` shows how such a binding never fires;
  `Bindings.BoundPadIsHeard` says exactly when one does.

## Model

| member | source | states |
|---|---|---|
| `RingView.WriteOverlapsExact` | src/buffer.rs:612-627 | testing the two start points decides whether two ranges of the file, wrapped or not, share a byte |
| `RingView.EvictWellFormed` | src/buffer.rs:227-247 | evicting from the front keeps both indexes consistent and leaves room for the write |
| `RingView.EvictExact` | src/buffer.rs:227-247 | a tag with bytes is evicted if and only if the write covers one of them: front-only eviction misses nothing and takes nothing else |
| `RingView.EmptyWriteEvicts` | src/buffer.rs:231-232 | the one exception: what an empty payload evicts, exactly |
| `RingView.PushWellFormed` | src/buffer.rs:266-286 | a new tag keeps seqs consecutive, the bytes contiguous behind the cursor, and the keyframe index the primary-keyframe subsequence |
| `RingView.TrimWellFormed` | src/buffer.rs:483-505 | trim keeps both indexes consistent and only shortens the front |
| `RingView.TrimOnlyOldAndRead` | src/buffer.rs:486-503 | trim never drops a tag at or past the slowest consumer, nor one newer than the cutoff, whatever the stamps |
| `RingView.TrimExact` | src/buffer.rs:483-505 | with stamps in order trim drops exactly the tags that are both old and read |
| `RingView.FindBySeqExact` | src/buffer.rs:337-345 | seq arithmetic finds what a scan would, and nothing else |
| `RingView.NewestIdrAtOrBeforeExact` | src/buffer.rs:430-435 | with keyframe stamps in order: the newest live keyframe stamped at or before the moment |
| `RingView.OldestIdrAtOrAfterExact` | src/buffer.rs:463-467 | whatever the stamps: the first live keyframe at or past a seq |
| `RingView.FindIdrNearExact` | src/buffer.rs:374-425 | the closest live keyframe, the earlier stamp on a tie, none exactly when all are out of tolerance |
| `RingView.NewestIdrExact` | src/buffer.rs:445-455 | the newest live keyframe of all, and the newest past a seq, none exactly when there is none |
| `Buffer.DiskRing.constructor` | src/buffer.rs:149-166 | an empty ring, valid, at seq 0 |
| `Buffer.DiskRing.EvictOverlapped` | src/buffer.rs:227-247 | the eviction loop, in place, with the byte count kept in step |
| `Buffer.DiskRing.WriteAt` | src/buffer.rs:249-264 | one write or two around the end of the file, and no live tag's bytes change |
| `Buffer.DiskRing.IndexTag` | src/buffer.rs:266-286 | the tag just written becomes the newest, in both indexes when it is a cut point |
| `Buffer.DiskRing.Append` | src/buffer.rs:174-291 | every outcome: headers and metadata bypass, oversized refused, a failed write leaves the survivors intact, a stored tag is the newest; every live tag is indexed with the kind, stamp and flags it was appended with, and its bytes still read back |
| `Buffer.DiskRing.TryReadSeq` | src/buffer.rs:303-333 | a live seq reads back exactly the payload appended under it; any other seq reads as none |
| `Buffer.DiskRing.TrimOlderThan` | src/buffer.rs:483-505 | refines the trim on values, keeping every live tag readable |
| `Buffer.DiskRing.Clear` | src/buffer.rs:523-528 | forgets every tag, keeps the seq counter and the cursor |
| `TagFormat.VideoReadsBack` | src/h264.rs:393-480 | laid out as legacy FLV or Enhanced RTMP, a video tag is a cut point exactly when it is a keyframe of the primary track, and its headers are kept under its own track id; one cut short of its track id is neither |
| `TagFormat.AudioReadsBack` | src/h264.rs:1303-1336 | the same for the track id of an audio header |
| `Timestamps.StepExact` | src/controller.rs:1306-1346 | one stamp survives the 32-bit wire if and only if it is followable from the last |
| `Timestamps.TwentySecondsBack` | src/controller.rs:1326-1341 | twenty seconds back is pinned inside a cycle and followed over a wrap boundary |
| `Timestamps.StepBounded` | src/controller.rs:1306-1346 | on any input the timeline moves at most half the counter and keeps the wire's bits, or pins and changes nothing |
| `Timestamps.SessionExact` | src/controller.rs:1306-1346 | over a whole session and any number of wraps the true stamps come back if and only if the first is below 2^32 and each is followable from the one before |
| `Timestamps.IngestClock.ExpandTs` | src/controller.rs:1306-1346 | the clock's fields in place refine the reading on values |
| `Timestamps.IngestClock.Reset` | src/controller.rs:1266-1268 | a new session's timeline starts fresh |
| `Cuts.DelayLandsRight` | src/controller.rs:4211-4239 | a delay lands on the newest allowed keyframe at least that old; off a full ring, nowhere else |
| `Cuts.FullRingLandsRight` | src/controller.rs:4218-4238 | on a full ring that reaches no allowed keyframe old enough: the newest keyframe within three seconds of the oldest tag, none when that one is behind the floor; with no floor and none there, the oldest keyframe there is |
| `Cuts.CheckGoesWhereDelayLands` | src/controller.rs:4301-4347 | on any ring with stamps in order: a pump with a delay is cut to exactly where the delay lands, when it delivers too much and that is ahead, or too little with OBS there and that is over 500 ms further back; otherwise it holds position |
| `Cuts.AtDelayExact` | src/controller.rs:4212-4217 | none exactly when no allowed keyframe is old enough |
| `Cuts.LiveCutExact` | src/controller.rs:4279-4293 | exactly when a pump is cut back to live, and that it lands on the newest keyframe |
| `Cuts.CutsGainSomething` | src/controller.rs:4270-4347 | every cut is strictly forward, or strictly back for more than 500 ms of delay, with OBS there |
| `Cuts.CutsSettle` | src/controller.rs:4270-4347 | a check right after landing proposes nothing, whatever the ring |
| `Cuts.CutsRespectFloor` | src/controller.rs:4211-4239 | a delayed cut lands past the replay floor, full ring included, and no cut takes a pump back over it |
| `Cuts.LandingDelay` | src/controller.rs:4296-4300 | landing delivers the target or up to one keyframe interval more |
| `Cuts.LandedNeverRecuts` | src/controller.rs:4177-4190 | a landed pump drifting by at most 500 ms is never cut again |
| `Cuts.DelayIsCorrected` | src/controller.rs:4301-4347 | on a ring that reaches the delay, a pump is cut if and only if it has left the band, and then lands in it |
| `Reach.OnTagWellFormed` | src/controller.rs:2235-2261 | append and trim keep the ring consistent and its stamps in order |
| `Reach.TrimSparesConsumers` | src/controller.rs:2247-2259 | the trim keeps every tag at or past the slowest consumer |
| `Reach.TrimDropsTheRest` | src/controller.rs:2243-2260 | with stamps in order the trim drops exactly the tags over two seconds older than the armed delay, read by every consumer, and not needed for the delay |
| `Reach.TailStaysLive` | src/controller.rs:2235-2261 | what a pump has left of a tail stays readable while ingest goes on, unless overwritten |
| `Reach.TrimKeepsLanding` | src/controller.rs:2249-2259 | of a delay's landings the trim leaves the landing itself or none, and exactly when |
| `Reach.DelayStaysReachable` | src/controller.rs:2235-2261 | a delay the ring reaches back to stays reached through a stored tag clear of its keyframe, which the trim never takes |
| `Reach.DelayStaysReachableForGood` | src/controller.rs:2235-2261 | the same over any stream of tags that leave the keyframe alone, headers and failed writes among them, with consumers anywhere |
| `Reach.UnstoredTagExact` | src/controller.rs:2235-2259 | after a tag that was not stored, exactly when the keyframe a delay lands on by age is kept |
| `Reach.UnstoredTagCanLoseDelay` | src/controller.rs:2235-2259 | a concrete 50 MB ring and failed write that lose a running delay |
| `FullRing.EvictIsUnwritten` | src/buffer.rs:227-247 | eviction, which works on wrapped offsets, is decided by the tags' lengths alone |
| `FullRing.LeftAfter` | src/controller.rs:2235-2261 | what a tag, stored or not, leaves of the ring, told before it arrives: the tags neither reached by its write nor trimmed, and itself if stored |
| `FullRing.FullRingExact` | src/controller.rs:4212-4238 | whether a delay still lands after any tag, stored or not, from the ring and the tag alone and for any floor: a keyframe old enough is left, or what is left fills the ring and has a keyframe to join at |
| `FullRing.EvictionKeepsFull` | src/buffer.rs:530-543 | with no tag over a sixteenth of it, a full ring stays full through any eviction |
| `FullRing.LargeRingStaysFull` | src/buffer.rs:530-543 | so from 256 MB up no RTMP message is large enough to change that |
| `FullRing.FullRingKeepsDelay` | src/controller.rs:4218-4238 | with none of the causes, a full ring goes on serving the delay |
| `FullRing.EvictionCanLoseDelay` | src/controller.rs:4218-4238 | a 50 MB ring and a one-megabyte tag that lose the delay by eviction |
| `FullRing.TrimCanLoseDelay` | src/controller.rs:4218-4238 | the same ring and a tag that loses it by the trim |
| `FullRing.FailedWriteCanLoseDelay` | src/controller.rs:4218-4238 | the same ring and a frame that keeps the delay if it is written and loses it if the write fails |
| `Pump.NextTagIsThere` | src/controller.rs:4702-4730 | the tag an iteration gets: the one at its cursor while the ring holds it, the oldest keyframe left for a pump the ring has left behind, and none exactly when there is neither |
| `Pump.DecideExact` | src/controller.rs:3769-3813 | what an iteration does, exactly: the tag at its cursor is the one it cuts from when a due check finds a cut, and the one it sends when not |
| `Pump.EveryTagAirs` | src/controller.rs:3769-3813 | over any run between cuts, a pump the ring keeps up with sends every tag from its cursor on, in order, none left out |
| `Pump.DriftIsCorrected` | src/controller.rs:3789-3811 | a delay out of its band is put right by the first due check, and one inside it is left alone |
| `Pump.LandingAirsFirst` | src/controller.rs:4411-4422 | a pump that was cut or skipped goes on with the very keyframe it was sent to, which the same check then leaves alone |
| `Pump.GoneMovesForward` | src/controller.rs:3769-3813 | while OBS is gone or held, every iteration that uses a tag moves the cursor forward, and any other leaves it |
| `Pump.TailAirsOnce` | src/controller.rs:3652-3697 | over any run while OBS is gone, no tag airs twice or out of order |
| `Pump.EveryTagMovesForward` | src/controller.rs:3769-3813 | over any run while OBS is gone, the cursor rises at least once for every iteration that uses a tag, whatever happens to the ring |
| `Pump.TailEnds` | src/controller.rs:3881-3886 | so the tail is sent once as many iterations as it has tags left used one |
| `Pump.TailEndsUnderIngest` | src/controller.rs:2243-2260 | while ingest goes on appending and trimming, and nothing is written over what is left of the tail, every fresh iteration finds its tag, so the tail ends |
| `Pump.FreezeMarksTail` | src/controller.rs:2717-2720 | the tail's end marked at a freeze: from then on the tail is sent exactly when every tag there was is |
| `Pump.RejoinIsDelayed` | src/controller.rs:3857-3879 | off the reconnect screen a pump lands on OBS's new video, at least the delay back, at the newest such keyframe |
| `Pump.RejoinExact` | src/controller.rs:3857-3879 | off the screen, on any ring: the newest keyframe a delay back when OBS's new video has one, else its first, none exactly when it has none |
| `Pump.RebuiltExact` | src/crash_hold.rs:614-633 | the delay has rebuilt exactly when OBS's new video has a keyframe at least that far back |
| `Pump.NewVideoIsWhatCame` | src/controller.rs:2210-2229 | OBS's new video is all the tags that came since it was back, and none from before; the tail that was airing is over |
| `Pump.RejoinsAfterHold` | src/controller.rs:2210-2229 | over any run, a pump may come off the screen exactly when the last of OBS's comings and goings was that it came back with the hold on |
| `Pump.TailAiredExact` | src/controller.rs:2218-2221 | the whole tail has aired exactly when every tag the ring holds is older than the delay |
| `Pump.LiveSeedIsNewest` | src/controller.rs:4636-4640 | with no delay a fresh pump starts at the newest keyframe, none exactly when that is behind the floor |
| `Pump.SeedStartsThere` | src/controller.rs:3586-3601 | a pump that seeds or rejoins goes on with the keyframe it was given |
| `Pump.RecoverySetsFloor` | src/controller.rs:2606-2639 | the floor is set when a freeze is over late or protection is switched off in it, and nowhere else: just past everything the ring then holds |
| `Pump.NoRejoinAfterOff` | src/controller.rs:2633-2639 | after protection is switched off mid-freeze no pump comes off a screen until OBS has frozen and come back again |
| `Pump.FloorStepHolds` | src/controller.rs:2594-2604 | one seed, rejoin, cut, skip or recovery respects the floor |
| `Pump.NoReplayPastFloor` | src/controller.rs:2594-2611 | for the rest of the session every seed, rejoin and delayed cut lands past the floor, and a pump past it stays past it |
| `HoldLoop.PeriodsAre` | src/crash_hold.rs:565-575 | a track's `i`th frame is due at `i` times its period |
| `HoldLoop.StampIsNearest` | src/crash_hold.rs:577 | a frame is stamped with the nearest whole millisecond, up to the last one 32 bits hold |
| `HoldLoop.MergeIsPrefix` | src/crash_hold.rs:565-595 | a frame not sent yet comes after everything sent: nothing is skipped or early |
| `HoldLoop.NoTrackStarves` | src/crash_hold.rs:565-595 | every frame of every track is out after a number of rounds told from the periods alone |
| `HoldLoop.StreamLoop` | src/crash_hold.rs:527-597 | the loop sends a merge of its tracks, one frame per round, and ends at the first exit |
| `HoldLoop.Play` | src/crash_hold.rs:457-509 | what went out is the initial part of the one order by time, video first on a tie, with no track starved, each frame on its own stamp |
| `Egress.StepKeepsInv` | src/controller.rs:3940-4161 | each thing a pump does keeps every older segment strictly behind and its own tags where their input stamps put them |
| `Egress.StepLogs` | src/controller.rs:3940-4161 | what each thing a pump does puts on the output, and in which segment: a tag once, unless it is from before the segment; headers on the last stamp; a cut or a screen in a segment of its own |
| `Egress.OutputNeverRepeats` | src/controller.rs:4356-4369 | over any run of tags, cuts, re-anchors and screens: every frame after a discontinuity is strictly above every frame before it, the first by exactly one millisecond; any two tags of one segment are as far apart on the output as on the input; the last stamp is the highest used |
| `Egress.EgressState.constructor` | src/controller.rs:3919-3935 | a fresh pump's timeline |
| `Egress.EgressState.Seed` | src/controller.rs:3586-3620 | a pump that starts with no hold on puts its first keyframe, headers before it, at 0 |
| `Egress.EgressState.LastOutputTs` | src/controller.rs:3820-3826 | the wrapped stamp of the last tag is the unwrapped one modulo 2^32 |
| `Egress.EgressState.PaceAndSend` | src/controller.rs:3940-4161 | a tag goes out as far past the base as its stamp is past the anchor, modulo 2^32, which is its unwrapped stamp however long the segment; a tag before the anchor, lost or unselected only moves the cursor |
| `Egress.EgressState.ApplyCut` | src/controller.rs:4349-4456 | a cut, like a re-seed, opens its segment exactly one millisecond after the last stamp, at the stamp of its keyframe |
| `Egress.EgressState.ResendHeaders` | src/controller.rs:3756-3767 | headers resent mid-stream go out on the last stamp |
| `Egress.EgressState.CoverWithScreen` | src/controller.rs:3673-3695 | every frame of the screen goes out on its unwrapped stamp modulo 2^32, strictly after the last frame, and the rejoin after it starts strictly after the screen |
| `DelayControl.DelayInvariant` | src/controller.rs:1449-1604 | over all operations: the target is 0 or the armed delay, at most an hour; a waiting arm is armed and off; a scheduled cut has a delay |
| `DelayControl.UpExactly` | src/controller.rs:1461-1683 | over all operations: a delay is on exactly when an activation has succeeded since the last cut or disarm; an arm waits exactly when made from off and not used up; a cut is scheduled exactly when one was and neither it nor the delay has been called off |
| `DelayControl.CutTurnsOff` | src/controller.rs:1552-1575 | right after a cut, by hand or scheduled, or a disarm: nothing is delivered, waiting or scheduled; a cut keeps the armed delay |
| `DelayControl.ArmedIsLastAsked` | src/controller.rs:1461-1492 | what is armed is what was asked for last, an hour at most, and what is delivered, when anything is, is that |
| `DelayControl.MarkIsLiveEdge` | src/controller.rs:1586-1599 | a scheduled cut is marked where the live edge was when it was last scheduled |
| `DelayControl.ActivatesWhenReady` | src/controller.rs:1522-1547 | a delay goes on by hand exactly when it is armed, OBS is sending and the ring spans it to within half a second or is full; each refusal says which is missing first, and by how much |
| `DelayControl.GoesOnByItself` | src/controller.rs:1508-1514 | and by itself exactly when an arm is waiting, it was to go on unasked, and going on by hand would work |
| `DelayControl.AutoActivationHasItsOwnArm` | src/controller.rs:640-656 | every auto-activation follows a fresh arm with no cut, disarm, activation or new publisher in between |
| `DelayControl.NoArmServesTwo` | src/controller.rs:647-655 | an arm that one auto-activation used serves no later one |
| `SafeCut.FiresWhenAiredEverywhere` | src/controller.rs:1662-1705 | with stamps in order the mark has aired everywhere if and only if the slowest position is past it and no live destination without one would start at or before it |
| `SafeCut.NothingMeasured` | src/controller.rs:1689-1705 | there is nothing to compare exactly with nobody live, an empty ring, or a position behind the front |
| `SafeCut.UnannouncedIsNotWaitedFor` | src/controller.rs:1689-1697 | a pump at the newest tag fires the mark of the one before over a destination with no position, which then starts nine seconds before it |
| `SafeCut.CheckIsAtomic` | src/controller.rs:1662-1683 | a pump's load, measurement and compare-exchange with nobody in between are one step that fires, once, exactly when it measures past a set mark |
| `SafeCut.FiringsNeverOutnumberSchedulings` | src/controller.rs:1659-1683 | over every interleaving of loads, measurements, compare-exchanges, schedules and cancels, each firing used up a mark of its own |
| `SafeCut.CancelSticks` | src/controller.rs:1601-1604 | once called off, no check fires, however far it had got, until a cut is scheduled again |
| `SafeCut.MarkIsLastScheduled` | src/controller.rs:1593-1598 | over every interleaving, a mark that is pending is the live edge of the last scheduling |
| `SafeCut.StepCounts` | src/controller.rs:1675-1682 | one atomic access: a firing clears a mark it measured past |
| `CutWindow.AiredWasMeasured` | src/controller.rs:1667-1679 | over every interleaving, a pump about to compare and exchange measured past that mark itself |
| `CutWindow.StaysAired` | src/controller.rs:1662-1683 | what a destination has aired stays aired while ingest goes on and it is not cut back |
| `CutWindow.FiringPromises` | src/controller.rs:1662-1683 | a cut fired amid sends, connects, leaves and ingest: at its measurement everyone with a position had aired the mark, and whoever kept on since still has |
| `Controller.SlowestOfAll` | src/controller.rs:2306-2315 | the trim goes by the slowest of all destinations, and the scheduled cut by every live one and no other |
| `Controller.TrimSparesEveryPump` | src/controller.rs:2306-2315 | the trim leaves every destination all it has still to read |
| `Controller.Controller.constructor` | src/controller.rs:932-965 | starts with the delay armed at most at the ceiling, and off |
| `Controller.Controller.ArmDelay` | src/controller.rs:1461-1498 | arm, live-update or disarm, in place |
| `Controller.Controller.ActivateDelay` | src/controller.rs:1522-1547 | the three refusals, or the armed delay switched on and the waiting arm used up |
| `Controller.Controller.StopDelay` | src/controller.rs:1552-1562 | back to live: nothing is delivered, waiting or scheduled, and the armed delay is kept |
| `Controller.Controller.ScheduleSafeCut` | src/controller.rs:1586-1599 | marks the live edge, only with a delay on and data in the ring, and estimates the wait by the slowest destination |
| `Controller.Controller.MaybeFireSafeCut` | src/controller.rs:1662-1683 | fires as the three accesses in a row do; with stamps in order, what that says of every destination, those without a position included |
| `Controller.Controller.BeginPublish` | src/controller.rs:2085-2167 | a second publisher is refused unless the first is frozen; a new one clears the ring but not its counters, and leaves nothing waiting |
| `Controller.Controller.Freeze` | src/controller.rs:2717-2724 | refines the freeze step of the pump model: the tail ends at the live edge |
| `Controller.Controller.Thaw` | src/controller.rs:2210-2229 | refines the recovery step: the floor is set when the hold was over or the tail had aired |
| `Controller.Controller.SwitchProtectionOff` | src/controller.rs:2626-2644 | mid-freeze it refines the switching-off step: the floor is set and the hold ends |
| `Controller.Controller.TrimForDelay` | src/controller.rs:2249-2259 | refines the trim on values |
| `Controller.Controller.OnTag` | src/controller.rs:2185-2262 | one tag, end to end: stamp, ring and freeze bookkeeping refine the models |
| `VodLatch.SingleFlight` | src/controller.rs:369-392 | over every interleaving at most one fetch is in flight, the latch set exactly while its task works, and a fetched override is the current session's |
| `VodLatch.TaskCanGoOn` | src/controller.rs:584-608 | a task holding the latch always has a next step, and giving the latch back is what ends it |
| `VodLatch.LatchComesBack` | src/controller.rs:584-608 | on every outcome the latch is back within four of its holder's own steps, whatever the others do |
| `VodLatch.LateFetchIsDiscarded` | src/controller.rs:557-582 | a fetch whose session ended in flight writes nothing |
| `VodLatch.FetchCountsForItsSession` | src/controller.rs:551-582 | a fetched url is written if and only if nobody has disconnected since the fetch began |
| `VodLatch.LastWordWins` | src/controller.rs:557-582 | over every interleaving the override is what the last to have a say made it: none after a disconnect, the proxy's url, or that of a fetch that counted |
| `VodLatch.NoOverrideOutlivesASession` | src/controller.rs:578-582 | an override there after a disconnect was written since, by the proxy or by a fetch that counted |
| `VodLatch.DestinationState.TryClaimVodFetch` | src/controller.rs:540-549 | runs the claim's accesses of the interleaved model; claims exactly when nothing is in flight and there is no session |
| `VodLatch.DestinationState.SessionEpoch` | src/controller.rs:551-555 | captures the epoch the fetch is for |
| `VodLatch.DestinationState.ApplyVodSessionIfCurrent` | src/controller.rs:565-572 | runs the finishing step: an override it writes is for the current session |
| `VodLatch.DestinationState.InvalidateSessionOverride` | src/controller.rs:578-582 | the override is gone, and every fetch in flight is for a session that is over |
| `VodLatch.DestinationState.CompleteVodFetch` | src/controller.rs:591-608 | runs the finish and release steps: three outcomes, the latch given back in each |
| `BufferSize.CapacityExact` | src/controller.rs:241-248 | a delay fits by the estimate exactly when what comes in over it and the slack is no more than the ring has room for |
| `BufferSize.NamedSizeIsLeast` | src/controller.rs:239-255 | a buffer holds a delay if and only if it is at least the size the refusal names |
| `BufferSize.NoOverflow` | src/controller.rs:249-255 | no 64-bit step overflows |
| `RateLimiter.NextKeepsInv` | src/auth.rs:102-136 | whatever time an operation read, the table never exceeds 8192 records, and no lock ends after its record's last attempt plus the window |
| `RateLimiter.RunKeepsInv` | src/auth.rs:78-136 | the same over every run, at any skew of the times read |
| `RateLimiter.RefusedExactlyWhileLocked` | src/auth.rs:53-69 | refused exactly while the lock runs, with exactly the time left |
| `RateLimiter.RecordIsTally` | src/auth.rs:78-136 | over any run, at any skew, a record is its client's tally: every failure counted once since the last success, eviction or quiet window, and from the last one allowed on each arms the lock it calls for, doubled each time up to six times |
| `RateLimiter.LockedForItsTally` | src/auth.rs:53-136 | from an empty table a client is refused exactly when its tally has reached the limit and that lock is running, for exactly what is left of it |
| `RateLimiter.LockOnlyLengthens` | src/auth.rs:104-136 | with times in order, others, a flood and further failures never shorten a lock, short of a success or an eviction |
| `RateLimiter.SkewMovesLockLittle` | src/auth.rs:96-136 | an operation acting on a time that is behind moves a lock back by no more than that |
| `RateLimiter.SkewMovesLock` | src/auth.rs:96-100 | a concrete record and racing failure that move a lock back |
| `RateLimiter.LockHolds` | src/auth.rs:53-140 | through any run of racing operations the client is refused until the lock was to end, short by the skew at most |
| `RateLimiter.RateLimiter.Check` | src/auth.rs:53-69 | the check, in place |
| `RateLimiter.RateLimiter.CheckAndCount` | src/auth.rs:78-92 | refuse, or count the attempt, in one step |
| `RateLimiter.RateLimiter.RecordFailure` | src/auth.rs:96-100 | a failure counted without a check |
| `RateLimiter.RateLimiter.BumpFailure` | src/auth.rs:104-136 | room made by the window, then by the oldest; the failure counted and the lock armed |
| `RateLimiter.RateLimiter.RecordSuccess` | src/auth.rs:139-141 | refines the success step, at any time |
| `Hotkey.ParseExact` | src/config.rs:474-501 | a combo parses if and only if exactly one word is a main key and every other a modifier, at least one, in whatever order and case |
| `Hotkey.ParseHotkey` | src/config.rs:474-501 | the parsing loop refines the reading |
| `Text.TrimTakesSpaceOnly` | src/config.rs:477-480 | trimming a word takes the space on either side of it, all of it, and nothing else |
| `Hotkey.CaseDoesNotMatter` | src/config.rs:474-501 | two combos that differ in case alone parse alike |
| `Hotkey.KeyReadsBack` | src/config.rs:530-603 | every key that can be printed is printed as a word that reads back as it and as nothing else |
| `Hotkey.KeyIsPrintable` | src/config.rs:567-603 | every key that can be read can be printed |
| `Hotkey.PrintReadsBack` | src/config.rs:506-523 | a printed combo parses to the same modifiers and key |
| `Hotkey.CanonicalRoundTrip` | src/config.rs:503-523 | a combo is rewritten exactly when it parses, to one that means the same and is a fixed point |
| `Hotkey.SameKeysSameText` | src/config.rs:503-505 | two combos are the same keys if and only if they are rewritten alike |
| `Midi.SanitizeDeviceName` | src/config.rs:454-461 | any name becomes a legal one, and a legal one is left alone |
| `Midi.SanitizeLosesOnly` | src/config.rs:454-461 | a name loses each illegal character and no other, then what is past the limit, then the space around the rest |
| `Midi.PrintReadsBack` | src/config.rs:409-443 | a printed signature reads back as the same control and device |
| `Midi.CanonicalRoundTrip` | src/config.rs:407-443 | a signature is rewritten exactly when it parses, to one that names the same and is a fixed point |
| `Bindings.Table.constructor` | src/config.rs:236-250 | nothing is bound to begin with |
| `Bindings.Table.Set` | src/config.rs:289-297 | setting a binding, in place: a combo held elsewhere moves, a malformed one clears |
| `Bindings.Table.UnbindElsewhere` | src/config.rs:300-311 | the loop takes the value from every other action and touches nothing else |
| `Bindings.RunKeepsInv` | src/config.rs:279-297 | after any run of changes every binding is in the form it is rewritten to and no two are the same |
| `Bindings.LastSetWins` | src/config.rs:289-297 | after any run an action has the binding its own last change asked for: none if that was empty or malformed, or if another action was given the same since |
| `Bindings.OneComboOneAction` | src/config.rs:284-288 | however the hotkeys were set, no two actions answer to the same keys |
| `Bindings.UnknownActionUnbinds` | src/config.rs:289-297 | a name that is no action's still takes the combo from whoever held it |
| `Bindings.BoundPadIsHeard` | src/config.rs:394-404 | an action bound to one device's pad hears it if and only if no earlier action has that pad of any device |
| `Bindings.LearnedPadCanBeDeaf` | src/config.rs:359-376 | binding a pad an earlier action has for any device leaves both bindings, and the new one never fires |
| `Json.AcceptsExactlyJson` | src/config.rs:2341-2497 | the recogniser accepts exactly the JSON texts whose values nest at most 64 levels below the top |
| `Json.ValueSound` | src/config.rs:2387-2400 | what is read as a value is one |
| `Json.ValueFound` | src/config.rs:2387-2400 | a value is read, to exactly its end |
| `Json.NumberFound` | src/config.rs:2478-2495 | a number is read to exactly its end: no leading zeros, no bare point or exponent |
| `Json.CharsFound` | src/config.rs:2434-2460 | a string is read to exactly its closing quote |
| `Json.Parser.ReadValue` | src/config.rs:2387-2400 | the parser in place refines the reading |
| `Json.Parser.ReadContainer` | src/config.rs:2403-2432 | objects and arrays, likewise |
| `Json.Parser.ReadString` | src/config.rs:2434-2460 | strings, likewise |
| `Json.Parser.ReadNumber` | src/config.rs:2478-2495 | numbers, likewise |
| `Json.CheckJson` | src/config.rs:2347-2356 | the whole check, as it runs: it ends on every input and answers whether it is a JSON text |
| `JsonString.PrintedIsJson` | src/config.rs:2271-2287 | every printed string is a JSON text the recogniser accepts |
| `JsonString.PrintedReadsBack` | src/config.rs:2271-2287 | read by the rules of RFC 8259 and RFC 3629, every printed string gives the string back |
| `JsonString.JsonStr` | src/config.rs:2271-2287 | the printing loop: what it prints is a JSON text that stands for the string |

## Left out

- Sockets, TLS, RTMP chunking, tasks and wake-ups: a pump is a sequence of steps, and waiting is a step that does nothing.
- Wall-clock pacing in `pace_and_send`: logical time only; the order of what is sent does not depend on it.
- Floating point: the reconnect screen's times and periods are reals, where the code has f64.
- Payload selection (`select_video_bytes`, `select_audio_bytes`, a vertical canvas holding for its own keyframe): whether a tag is selected is an input of `Egress.EgressState.PaceAndSend`.
- Telling keyframes and sequence headers from other tags (`classify_video_tag`, `classify_audio_tag`): inputs wherever they are read.
- Opening, locking and resizing the buffer file; a failed write is any bytes left in the range it was writing.
- 64-bit seqs, epochs and byte counts do not wrap, and a payload is shorter than 4 GiB.
- `partition_point` on keyframes out of order, where its result is unspecified: a plain binary search stands in.
- The hold's own clock: whether a hold is open, or past its deadline, is an input wherever it is read.
- Publisher keys, the ingest-key limiter call and the one-publisher mutex in `begin_publish`.
- A destination that computes its start before a cut and announces it after: seeding is one step.
- Controller.Controller.StopDelay: does not end a delay's tail that is already airing, because hold expiry is an input here.
- Controller.Controller.BeginPublish: leaves out the publisher token, and takes whether a hold is on as an input.
- The hold a disconnect opens: only a freeze's is modelled.
- The notices about a delay the buffer cannot hold.
- The full Enhanced Broadcasting session matrix: the multitrack proxy appears in `VodLatch.dfy` as writes to the override.
- Races inside single delay operations: each is one step, except in the scheduled cut and the VOD latch.
- `delay_rebuilt`'s time limit, after which a pump rejoins without the delay.
- MIDI and hotkey drivers, settings files, dashboards, trays, integrations: I/O, tables and plumbing.
