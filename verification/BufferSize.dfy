/**
 * How much delay a buffer holds, and the size a refusal names (src/controller.rs,
 * `delay_capacity_ms`, `buffer_mb_for`).
 */
module BufferSize {
  import opened Wrappers
  import opened RingView
  import opened Reach
  import D = DelayControl

  const MB: nat := 1024 * 1024

  function DivCeil(a: nat, b: nat): nat
    requires b > 0
  {
    (a + b - 1) / b
  }

  function DelayCapacityMs(usableBytes: nat, kbps: u32): u32 {
    Min(Minus(usableBytes * 8 / Max(kbps, 1), BUFFER_SLACK_MS), U32 - 1)
  }

  function BufferMbFor(ms: u32, kbps: u32): nat {
    var bytes := DivCeil(Min(ms + BUFFER_SLACK_MS, U32 - 1) * kbps, 8);
    DivCeil(DivCeil(bytes * 16, 15), MB)
  }

  lemma CeilIsLeast(a: nat, b: nat, q: nat)
    requires b > 0
    ensures DivCeil(a, b) <= q <==> a <= q * b
  {
    var n := a + b - 1;
    assert n == (n / b) * b + n % b;
    if DivCeil(a, b) <= q {
      Times(DivCeil(a, b), q, b);
    } else {
      Times(q + 1, DivCeil(a, b), b);
      assert (q + 1) * b == q * b + b;
    }
  }

  lemma FloorIsGreatest(a: nat, b: nat, q: nat)
    requires b > 0
    ensures q <= a / b <==> q * b <= a
  {
    assert a == (a / b) * b + a % b;
    if q <= a / b {
      Times(q, a / b, b);
    } else {
      Times(a / b + 1, q, b);
      assert (a / b + 1) * b == (a / b) * b + b;
    }
  }

  /** The capacity estimate is right: a delay fits exactly when what comes in over it, and over
      the slack the trim keeps past it, is no more bytes than the ring has room for. */
  lemma CapacityExact(usableBytes: nat, kbps: u32, ms: nat)
    requires 1 <= ms < U32 && kbps >= 1
    ensures DelayCapacityMs(usableBytes, kbps) >= ms <==> (ms + 2_000) * kbps <= usableBytes * 8
  {
    FloorIsGreatest(usableBytes * 8, kbps, ms + 2_000);
  }

  /** A buffer of `mb` megabytes holds a delay, by the capacity estimate and after
      the ring's unusable sixteenth, exactly when `mb` is at least the size named. */
  lemma NamedSizeIsLeast(ms: u32, kbps: u32, mb: nat)
    requires 1 <= ms <= D.MAX_DELAY_MS && kbps >= 1
    ensures DelayCapacityMs(UsableBytes(mb * MB), kbps) >= ms <==> mb >= BufferMbFor(ms, kbps)
  {
    var usable := UsableBytes(mb * MB);
    var fill := (ms + BUFFER_SLACK_MS) * kbps;
    var bytes := DivCeil(fill, 8);
    assert usable == mb * 15 * 65_536;
    FloorIsGreatest(usable * 8, kbps, ms + BUFFER_SLACK_MS);
    CeilIsLeast(fill, 8, usable);
    CeilIsLeast(bytes * 16, 15, mb * MB);
    CeilIsLeast(DivCeil(bytes * 16, 15), MB, mb);
  }

  /** No 64-bit step on the way overflows, at any bitrate a u32 holds. */
  lemma NoOverflow(ms: u32, kbps: u32)
    requires ms <= D.MAX_DELAY_MS
    ensures var product := (ms + BUFFER_SLACK_MS) * kbps;
      product < U64 && (DivCeil(product, 8)) * 16 < U64
    ensures BufferMbFor(ms, kbps) * MB * 8 < U64
  {
    Times(ms + BUFFER_SLACK_MS, 3_602_000, kbps);
    Times(kbps, U32, 3_602_000);
  }
}
