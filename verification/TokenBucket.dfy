/**
 Forwarding of one relay direction: frame limit, token-bucket rate limit and the ways
 a direction ends. The rate limit is specified by windows of frames, without a bucket.
 */
module TokenBucket {

  /** What the source yields next; a frame carries the clock reading taken when it is handled
      and whether the destination accepts it. */
  datatype Message =
    | SourceFailed
    | Disconnected
    | NonBinary
    | Frame(size: nat, at: real, delivered: bool)

  datatype End =
    | StillOpen
    | SourceError
    | SourceDisconnected
    | NonBinaryFrame
    | FrameLimit
    | RateLimit
    | DestinationError

  const BURST_SECONDS := 2

  ghost predicate Frames(script: seq<Message>, n: nat) {
    n <= |script| && forall k | 0 <= k < n :: script[k].Frame?
  }

  /** Clock readings never go backwards, the first being taken at the start. */
  ghost predicate Monotone(script: seq<Message>, start: real) {
    && (forall i | 0 <= i < |script| && script[i].Frame? :: start <= script[i].at)
    && (forall i, j | 0 <= i <= j < |script| && script[i].Frame? && script[j].Frame? :: script[i].at <= script[j].at)
  }

  /** What a window may carry that starts with frame i and ends at the given instant. */
  ghost function Allowance(script: seq<Message>, rate: nat, i: nat, at: real): (limit: real)
    requires Frames(script, i + 1)
    ensures at == script[i].at ==> limit == (rate * BURST_SECONDS) as real
  {
    (rate * BURST_SECONDS) as real + rate as real * (at - script[i].at)
  }

  /** Bytes of the frames i up to, not including, j. */
  ghost function Bytes(script: seq<Message>, i: nat, j: nat): (sum: nat)
    requires i <= j && Frames(script, j)
  {
    if i == j then 0 else Bytes(script, i, j - 1) + script[j - 1].size
  }

  /** Frames i..j together carry more than the burst plus the rate over their time span. */
  ghost predicate Exceeds(script: seq<Message>, rate: nat, i: nat, j: nat)
    requires i <= j && Frames(script, j + 1)
  {
    Bytes(script, i, j + 1) as real > Allowance(script, rate, i, script[j].at)
  }

  ghost predicate WithinRate(script: seq<Message>, rate: nat, n: nat)
    requires Frames(script, n)
  {
    forall i, j | 0 <= i <= j < n :: !Exceeds(script, rate, i, j)
  }

  /** The bytes still available after the first n frames, the last of them (or the start) at
      the given instant: the smallest slack of any window that ends there. */
  ghost predicate IsLevel(script: seq<Message>, rate: nat, n: nat, last: real, available: real)
    requires Frames(script, n)
  {
    var burst := (rate * BURST_SECONDS) as real;
    && available <= burst
    && (forall i | 0 <= i < n :: available + Bytes(script, i, n) as real <= Allowance(script, rate, i, last))
    && (available == burst ||
        exists i | 0 <= i < n ::
          available + Bytes(script, i, n) as real == Allowance(script, rate, i, last))
  }

  function TopUp(available: real, elapsed: real, rate: nat): real {
    var burst := (rate * BURST_SECONDS) as real;
    var refilled := available + elapsed * rate as real;
    if refilled < burst then refilled else burst
  }

  lemma Refill(script: seq<Message>, rate: nat, n: nat, last: real, available: real, now: real)
    requires Frames(script, n) && last <= now
    requires IsLevel(script, rate, n, last, available)
    ensures IsLevel(script, rate, n, now, TopUp(available, now - last, rate))
  {
    var r := rate as real;
    forall i | 0 <= i < n ensures r * (now - script[i].at) == r * (last - script[i].at) + (now - last) * r {
    }
  }

  /** A frame does not fit the refilled bucket exactly when some window ending in it exceeds. */
  lemma FitsExactly(script: seq<Message>, rate: nat, n: nat, available: real)
    requires Frames(script, n + 1)
    requires IsLevel(script, rate, n, script[n].at, available)
    ensures script[n].size as real > available <==> exists i | 0 <= i <= n :: Exceeds(script, rate, i, n)
  {
    var burst := (rate * BURST_SECONDS) as real;
    forall i | 0 <= i <= n
      ensures Exceeds(script, rate, i, n) <==>
        Bytes(script, i, n) as real + script[n].size as real > Allowance(script, rate, i, script[n].at)
    {
    }
    if script[n].size as real > available {
      if available == burst {
        assert Bytes(script, n, n) == 0;
        assert Exceeds(script, rate, n, n);
      } else {
        var i :| 0 <= i < n && available + Bytes(script, i, n) as real == Allowance(script, rate, i, script[n].at);
        assert Exceeds(script, rate, i, n);
      }
    }
  }

  /** Charging frame n moves its bytes from the level into every window. */
  lemma ChargeWindow(script: seq<Message>, n: nat, i: nat, available: real)
    requires i <= n && Frames(script, n + 1)
    ensures available - script[n].size as real + Bytes(script, i, n + 1) as real ==
      available + Bytes(script, i, n) as real
  {
  }

  lemma Charge(script: seq<Message>, rate: nat, n: nat, available: real)
    requires Frames(script, n + 1)
    requires IsLevel(script, rate, n, script[n].at, available)
    ensures IsLevel(script, rate, n + 1, script[n].at, available - script[n].size as real)
  {
    var now, left := script[n].at, available - script[n].size as real;
    assert Bytes(script, n, n) == 0;
    forall i | 0 <= i < n + 1
      ensures left + Bytes(script, i, n + 1) as real <= Allowance(script, rate, i, now)
    {
      ChargeWindow(script, n, i, available);
    }
    if available == (rate * BURST_SECONDS) as real {
      ChargeWindow(script, n, n, available);
      assert left + Bytes(script, n, n + 1) as real == Allowance(script, rate, n, now);
    } else {
      var i :| 0 <= i < n && available + Bytes(script, i, n) as real == Allowance(script, rate, i, now);
      ChargeWindow(script, n, i, available);
      assert left + Bytes(script, i, n + 1) as real == Allowance(script, rate, i, now);
    }
  }

  /** The clock reading of the last of the first n frames, or the start. */
  ghost function Last(script: seq<Message>, start: real, n: nat): real
    requires Frames(script, n)
  {
    if n == 0 then start else script[n - 1].at
  }

  /** The bucket after n frames, each one refilled for the elapsed time and then charged. */
  ghost function Level(script: seq<Message>, rate: nat, start: real, n: nat): real
    requires Frames(script, n)
    decreases n, 0
  {
    if n == 0 then (rate * BURST_SECONDS) as real
    else Offered(script, rate, start, n - 1) - script[n - 1].size as real
  }

  /** The bucket that frame n meets. */
  ghost function Offered(script: seq<Message>, rate: nat, start: real, n: nat): real
    requires Frames(script, n + 1)
    decreases n, 1
  {
    TopUp(Level(script, rate, start, n), script[n].at - Last(script, start, n), rate)
  }

  lemma {:induction false} LevelExact(script: seq<Message>, rate: nat, start: real, n: nat)
    requires Frames(script, n) && Monotone(script, start)
    ensures IsLevel(script, rate, n, Last(script, start, n), Level(script, rate, start, n))
    decreases n, 0
  {
    if n > 0 {
      OfferedExact(script, rate, start, n - 1);
      Charge(script, rate, n - 1, Offered(script, rate, start, n - 1));
    }
  }

  lemma {:induction false} OfferedExact(script: seq<Message>, rate: nat, start: real, n: nat)
    requires Frames(script, n + 1) && Monotone(script, start)
    ensures IsLevel(script, rate, n, script[n].at, Offered(script, rate, start, n))
    decreases n, 1
  {
    LevelExact(script, rate, start, n);
    Refill(script, rate, n, Last(script, start, n), Level(script, rate, start, n), script[n].at);
  }

  /** The bucket refuses a frame exactly when some window ending in it exceeds its allowance,
      and as long as it refuses none no window at all exceeds. */
  lemma Step(script: seq<Message>, rate: nat, start: real, n: nat)
    requires Frames(script, n + 1) && Monotone(script, start) && WithinRate(script, rate, n)
    ensures script[n].size as real > Offered(script, rate, start, n) <==>
      exists i | 0 <= i <= n :: Exceeds(script, rate, i, n)
    ensures script[n].size as real <= Offered(script, rate, start, n) ==> WithinRate(script, rate, n + 1)
  {
    OfferedExact(script, rate, start, n);
    FitsExactly(script, rate, n, Offered(script, rate, start, n));
  }

  /** Forwards frames until the direction ends or the script runs out. A frame is cut for
      rate exactly when some window of frames ending in it exceeds the bound; nothing
      admitted ever does. */
  method Forward(script: seq<Message>, start: real, maxFrame: nat, rate: nat)
    returns (end: End, frames: nat, bytes: nat)
    requires Monotone(script, start)
    ensures Frames(script, frames) && bytes == Bytes(script, 0, frames)
    ensures forall k | 0 <= k < frames :: script[k].size <= maxFrame
    ensures WithinRate(script, rate, frames)
    ensures forall k | 0 <= k < frames :: script[k].delivered || (end == DestinationError && k == frames - 1)
    ensures match end
      case StillOpen => frames == |script|
      case SourceError => frames < |script| && script[frames].SourceFailed?
      case SourceDisconnected => frames < |script| && script[frames].Disconnected?
      case NonBinaryFrame => frames < |script| && script[frames].NonBinary?
      case FrameLimit => Frames(script, frames + 1) && script[frames].size > maxFrame
      case RateLimit =>
        && Frames(script, frames + 1) && script[frames].size <= maxFrame
        && exists i | 0 <= i <= frames :: Exceeds(script, rate, i, frames)
      case DestinationError => frames > 0 && !script[frames - 1].delivered
  {
    var available := (rate * BURST_SECONDS) as real;
    var lastRefill := start;
    frames, bytes := 0, 0;
    while frames < |script|
      invariant Frames(script, frames) && bytes == Bytes(script, 0, frames)
      invariant forall k | 0 <= k < frames :: script[k].size <= maxFrame && script[k].delivered
      invariant WithinRate(script, rate, frames)
      invariant lastRefill == Last(script, start, frames) && available == Level(script, rate, start, frames)
    {
      match script[frames] {
        case SourceFailed => return SourceError, frames, bytes;
        case Disconnected => return SourceDisconnected, frames, bytes;
        case NonBinary => return NonBinaryFrame, frames, bytes;
        case Frame(size, now, delivered) =>
          if size > maxFrame {
            return FrameLimit, frames, bytes;
          }
          var elapsed := if now - lastRefill > 0.0 then now - lastRefill else 0.0;
          assert elapsed == now - lastRefill;
          Step(script, rate, start, frames);
          available := TopUp(available, elapsed, rate);
          lastRefill := now;
          if size as real > available {
            return RateLimit, frames, bytes;
          }
          available := available - size as real;
          frames := frames + 1;
          bytes := bytes + size;
          if !delivered {
            return DestinationError, frames, bytes;
          }
      }
    }
    end := StillOpen;
  }

  lemma ProductNotNegative(a: real, b: real)
    requires a >= 0.0 && b >= 0.0
    ensures a * b >= 0.0
  {
  }

  /** A first frame passes exactly up to two seconds' worth of bytes, whenever it comes. */
  lemma FirstFrameExactly(size: nat, start: real, at: real, delivered: bool, rate: nat)
    requires start <= at
    ensures var script := [Frame(size, at, delivered)];
      && Offered(script, rate, start, 0) == 2.0 * rate as real
      && (WithinRate(script, rate, 1) <==> size <= 2 * rate)
  {
    var script := [Frame(size, at, delivered)];
    assert Bytes(script, 0, 0) == 0;
    assert Exceeds(script, rate, 0, 0) <==> size > 2 * rate;
    ProductNotNegative(at - start, rate as real);
  }

  /** The deployment policy check on the relay's frame size and byte rate. */
  predicate CoherentPolicy(maxFrame: nat, rate: nat) {
    maxFrame <= rate
  }

  /** The policy is coherent exactly when one idle second refills an empty bucket for every permitted
      frame. */
  lemma CoherentExactly(maxFrame: nat, rate: nat)
    ensures CoherentPolicy(maxFrame, rate) <==>
      forall size: nat | size <= maxFrame :: FitsAfterASecond(size, rate)
  {
    assert TopUp(0.0, 1.0, rate) == rate as real;
    if forall size: nat | size <= maxFrame :: FitsAfterASecond(size, rate) {
      assert FitsAfterASecond(maxFrame, rate);
    }
  }

  predicate FitsAfterASecond(size: nat, rate: nat) {
    size as real <= TopUp(0.0, 1.0, rate)
  }

  lemma {:induction false} PacedBytes(script: seq<Message>, rate: nat, i: nat, j: nat)
    requires i <= j && Frames(script, j + 1)
    requires forall k | i < k <= j :: script[k].size as real <= rate as real * (script[k].at - script[k - 1].at)
    ensures Bytes(script, i, j + 1) as real <= script[i].size as real + rate as real * (script[j].at - script[i].at)
  {
    if i == j {
      assert Bytes(script, i, i) == 0;
    } else {
      PacedBytes(script, rate, i, j - 1);
      var r := rate as real;
      assert r * (script[j].at - script[i].at) ==
        r * (script[j - 1].at - script[i].at) + r * (script[j].at - script[j - 1].at);
    }
  }

  /** Under a coherent policy, a sender that waits out each frame at the nominal rate and
      respects the frame limit is never cut for rate. */
  lemma PacedSenderNeverCut(script: seq<Message>, maxFrame: nat, rate: nat, n: nat)
    requires CoherentPolicy(maxFrame, rate) && Frames(script, n)
    requires forall k | 0 <= k < n :: script[k].size <= maxFrame
    requires forall k | 0 < k < n :: script[k].size as real <= rate as real * (script[k].at - script[k - 1].at)
    ensures WithinRate(script, rate, n)
  {
    forall i, j | 0 <= i <= j < n ensures !Exceeds(script, rate, i, j) {
      PacedBytes(script, rate, i, j);
    }
  }
}
