/**
  The entry projector: turns one session record into the view userspace
  receives, computing how long the session has left to live, and writes it
  into the response buffer (the callback handed to the table walker).
  Time is in jiffies; the kernel's jiffies-to-milliseconds conversion is the
  parameter `toMsecs`.
 */
module Projector {
  import opened SessionTypes
  import opened NlBuffer

  /** The conversion is monotone: more jiffies never make fewer milliseconds. */
  ghost predicate Monotone(toMsecs: nat -> nat) {
    forall a, b :: a <= b ==> toMsecs(a) <= toMsecs(b)
  }

  /** The moment the session's timeout elapses. */
  function Deadline(e: SessionEntry): nat
    requires HasExpirer(e)
  {
    e.updateTime + e.expirer.value.timeout
  }

  /** Jiffies left until `deadline`, read against a single clock sample `now`. */
  function RemainingJiffies(deadline: nat, now: nat): (r: nat)
    ensures deadline <= now ==> r == 0
    ensures now < deadline ==> now + r == deadline
  {
    if deadline > now then deadline - now else 0
  }

  /** The projection of a record known to have an expirer. */
  function Project(e: SessionEntry, now: nat, toMsecs: nat -> nat): (v: SessionView)
    requires HasExpirer(e)
    ensures v.src6 == e.src6 && v.dst6 == e.dst6
    ensures v.src4 == e.src4 && v.dst4 == e.dst4
    ensures v.state == e.state
    ensures Deadline(e) <= now ==> v.dyingTime == 0
    ensures now < Deadline(e) ==> v.dyingTime == toMsecs(Deadline(e) - now)
  {
    var remaining := RemainingJiffies(Deadline(e), now);
    SessionView(e.src6, e.dst6, e.src4, e.dst4, e.state,
                if remaining > 0 then toMsecs(remaining) else 0)
  }

  /** Projection with its error path: a record without an expirer is refused. */
  function ToUserspace(e: SessionEntry, now: nat, toMsecs: nat -> nat): (r: Result<SessionView, int>)
    ensures r.Failure? <==> !HasExpirer(e)
    ensures r.Failure? ==> r.error == -EINVAL
    ensures r.Success? ==> r.value == Project(e, now, toMsecs)
  {
    if e.expirer.None? then Failure(-EINVAL) else Success(Project(e, now, toMsecs))
  }

  /**
    The walker callback: refuse a record without expirer before touching the
    buffer, otherwise write its projection.
   */
  function EntryToUserspace(e: SessionEntry, now: nat, toMsecs: nat -> nat, b: Buffer): (w: WriteOutcome)
    requires b.Valid()
    ensures w.buffer.Valid() && w.buffer.capacity == b.capacity && w.buffer.pending == b.pending
    ensures !HasExpirer(e) ==> w.code == -EINVAL && w.buffer == b
    ensures HasExpirer(e) && |b.records| < b.capacity ==>
              w.code == 0 && w.buffer.records == b.records + [Project(e, now, toMsecs)]
    ensures HasExpirer(e) && |b.records| >= b.capacity ==>
              w.code == WRITE_FULL && w.buffer == b
  {
    match ToUserspace(e, now, toMsecs)
    case Failure(code) => WriteOutcome(code, b)
    case Success(v) => Write(b, v)
  }

  /** Repeated projections at later times never report a longer remaining lifetime. */
  lemma DyingTimeNonIncreasing(e: SessionEntry, now1: nat, now2: nat, toMsecs: nat -> nat)
    requires HasExpirer(e) && Monotone(toMsecs)
    requires now1 <= now2
    ensures Project(e, now2, toMsecs).dyingTime <= Project(e, now1, toMsecs).dyingTime
  {
    var d := Deadline(e);
    if now2 < d {
      assert toMsecs(d - now2) <= toMsecs(d - now1);
    }
  }

  /**
    A session observed no earlier than its last update never reports more
    than its full timeout.
   */
  lemma DyingTimeAtMostTimeout(e: SessionEntry, now: nat, toMsecs: nat -> nat)
    requires HasExpirer(e) && Monotone(toMsecs)
    requires e.updateTime <= now
    ensures Project(e, now, toMsecs).dyingTime <= toMsecs(e.expirer.value.timeout)
  {
    var d := Deadline(e);
    if now < d {
      assert toMsecs(d - now) <= toMsecs(e.expirer.value.timeout);
    } else {
      assert toMsecs(0) <= toMsecs(e.expirer.value.timeout);
    }
  }

  // ---------------------------------------------------------------------
  // As written, the kernel reads the clock twice: once for the comparison
  // and once for the subtraction, in 64-bit unsigned arithmetic.

  const ULONG_MODULUS: nat := 0x1_0000_0000_0000_0000

  /** Subtraction of two unsigned longs, wrapping modulo 2^64. */
  function ULongSub(a: nat, b: nat): (r: nat)
    requires a < ULONG_MODULUS && b < ULONG_MODULUS
    ensures r < ULONG_MODULUS
    ensures b <= a ==> r == a - b
    ensures a < b ==> r == ULONG_MODULUS - (b - a)
  {
    (a - b) % ULONG_MODULUS
  }

  /**
    Remaining jiffies as the source computes them when the clock reads
    `nowAtCompare` for the comparison and `nowAtSubtract` for the subtraction.
   */
  function AsWrittenRemainingJiffies(deadline: nat, nowAtCompare: nat, nowAtSubtract: nat): (r: nat)
    requires deadline < ULONG_MODULUS && nowAtSubtract < ULONG_MODULUS
    requires nowAtCompare <= nowAtSubtract
    ensures r < ULONG_MODULUS
    ensures nowAtCompare == nowAtSubtract ==> r == RemainingJiffies(deadline, nowAtSubtract)
  {
    if deadline > nowAtCompare then ULongSub(deadline, nowAtSubtract) else 0
  }

  /**
    Two ticks between the two clock reads: the deadline was still ahead at
    the comparison, has passed by the subtraction, and the remaining time
    wraps to 2^64 - 1 jiffies instead of 0.
   */
  lemma AsWrittenDoubleReadWraps()
    ensures AsWrittenRemainingJiffies(10, 9, 11) == ULONG_MODULUS - 1
    ensures RemainingJiffies(10, 11) == 0
  {
  }
}
