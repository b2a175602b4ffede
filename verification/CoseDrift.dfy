/** The drift check: what it measures, and exactly when it tells the truth. */
module CoseDrift {
  import opened Base
  import opened Cose

  function Distance(a: int, b: int): nat {
    if a >= b then a - b else b - a
  }

  lemma WrapsOnce(x: int)
    requires -TWO_64 < x < TWO_64
    ensures ToInt64(x) == if x >= TWO_63 then x - TWO_64 else if x < -TWO_63 then x + TWO_64 else x
  {
    if x < 0 {
      assert x % TWO_64 == (x + TWO_64) % TWO_64;
    }
  }

  /** The wrapped difference is the distance the short way around a circle of 2^64 seconds. */
  lemma DriftIsCircular(now: int, timestamp: int)
    requires IsInt64(now) && IsInt64(timestamp)
    ensures Drift(now, timestamp) == Min(Distance(now, timestamp), TWO_64 - Distance(now, timestamp))
  {
    var drift := ToInt64(now - timestamp);
    WrapsOnce(now - timestamp);
    WrapsOnce(-drift);
    hide ToInt64;
  }

  /** The largest distance that there can be from now to a timestamp. */
  function Farthest(now: int): nat
    requires IsInt64(now)
  {
    if now >= 0 then now + TWO_63 else TWO_63 - 1 - now
  }

  lemma FarthestIs(now: int)
    requires IsInt64(now)
    ensures forall t :: IsInt64(t) ==> Distance(now, t) <= Farthest(now)
    ensures exists t :: IsInt64(t) && Distance(now, t) == Farthest(now)
  {
    var t := if now >= 0 then -TWO_63 else MAX_INT;
    assert IsInt64(t) && Distance(now, t) == Farthest(now);
  }

  /** The check on one timestamp is truthful just when the difference does not wrap around into the allowed range. */
  lemma FreshExactly(now: int, timestamp: int, maxDrift: int)
    requires IsInt64(now) && IsInt64(timestamp) && IsUint64(maxDrift)
    ensures (Fresh(now, timestamp, Some(maxDrift)) <==> Distance(now, timestamp) <= maxDrift)
       <==> Distance(now, timestamp) <= maxDrift || TWO_64 - Distance(now, timestamp) > maxDrift
  {
    DriftIsCircular(now, timestamp);
  }

  /** The check is truthful for every timestamp just when the allowed drift is too small for the farthest one to wrap
      around into it, or so large that the farthest is allowed. */
  lemma CheckIsTruthfulExactly(now: int, maxDrift: int)
    requires IsInt64(now) && IsUint64(maxDrift)
    ensures (forall t :: IsInt64(t) ==> (Fresh(now, t, Some(maxDrift)) <==> Distance(now, t) <= maxDrift))
       <==> maxDrift < TWO_64 - Farthest(now) || maxDrift >= Farthest(now)
  {
    hide Fresh;
    FarthestIs(now);
    forall t | IsInt64(t)
      ensures (Fresh(now, t, Some(maxDrift)) <==> Distance(now, t) <= maxDrift)
         <==> Distance(now, t) <= maxDrift || TWO_64 - Distance(now, t) > maxDrift
    {
      FreshExactly(now, t, maxDrift);
    }
    var t :| IsInt64(t) && Distance(now, t) == Farthest(now);
  }

  /** For a clock past 1970 and an allowed drift that does not reach the end of int64, every timestamp is judged truly. */
  lemma UsualCheckIsTruthful(now: int, maxDrift: int, timestamp: int)
    requires 0 <= now < TWO_63 && 0 <= maxDrift < TWO_63 - now && IsInt64(timestamp)
    ensures Fresh(now, timestamp, Some(maxDrift)) <==> Distance(now, timestamp) <= maxDrift
  {
    DriftIsCircular(now, timestamp);
  }

  /** Where the check is not truthful, there is a timestamp too far away that wraps around and passes. */
  lemma StaleCanPass(now: int, maxDrift: int) returns (timestamp: int)
    requires IsInt64(now) && TWO_64 - Farthest(now) <= maxDrift < Farthest(now)
    ensures IsInt64(timestamp) && Fresh(now, timestamp, Some(maxDrift)) && Distance(now, timestamp) > maxDrift
  {
    FarthestIs(now);
    timestamp :| IsInt64(timestamp) && Distance(now, timestamp) == Farthest(now);
    FreshExactly(now, timestamp, maxDrift);
  }
}
