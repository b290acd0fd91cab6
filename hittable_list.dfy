/** The nearest-hit scan over a list of objects (src/hittable_list.rs). */
module HittableList {
  import opened Vectors
  import opened Rays
  import opened Hittables

  /** What the scan carries from one object to the next: the current upper
      bound `closest_so_far` and the record of the last successful hit
      (`hit_anything` and `temp_rec` together). */
  datatype ScanState = ScanState(closest: Bound, found: Option<HitRecord>)

  /** The scan state after the first `n` objects: each object is queried with
      the bound left by the objects before it, and a hit replaces both the
      record and the bound. Until something is hit the bound is `t_max`;
      afterwards it is the parameter of the record kept. */
  function ScanPrefix<T>(objects: seq<T>, hit: HitFunction<T>, r: Ray, tMin: real, tMax: Bound, n: nat)
    : (s: ScanState)
    requires n <= |objects|
    ensures s.found.None? ==> s.closest == tMax
    ensures s.found.Some? ==> s.closest == Finite(s.found.value.t)
  {
    if n == 0 then ScanState(tMax, None)
    else
      var prev := ScanPrefix(objects, hit, r, tMin, tMax, n - 1);
      match hit(objects[n - 1], r, tMin, prev.closest)
      case Some(rec) => ScanState(Finite(rec.t), Some(rec))
      case None => prev
  }

  /** The `k`-th call of the scan (made with the bound left by the objects
      before it) reported a hit. */
  predicate Succeeded<T>(objects: seq<T>, hit: HitFunction<T>, r: Ray, tMin: real, tMax: Bound, k: nat)
    requires k < |objects|
  {
    hit(objects[k], r, tMin, ScanPrefix(objects, hit, r, tMin, tMax, k).closest).Some?
  }

  /** `hittable_list_hit`: queries every object in order, shrinking
      `closest_so_far` to each hit's parameter, and returns the last record
      found, or `None` when no query succeeded. */
  method HittableListHit<T>(objects: seq<T>, hit: HitFunction<T>, r: Ray, tMin: real, tMax: Bound)
    returns (res: Option<HitRecord>)
    ensures res == ScanPrefix(objects, hit, r, tMin, tMax, |objects|).found
  {
    // The initial `temp_rec` (`HitRecord::new()`) is never returned unless
    // it has been overwritten by a hit, so any value serves.
    var tempRec := HitRecord(Zero, Zero, 0.0, false);
    var hitAnything := false;
    var closestSoFar := tMax;
    for i := 0 to |objects|
      invariant hitAnything <==> ScanPrefix(objects, hit, r, tMin, tMax, i).found.Some?
      invariant hitAnything ==> ScanPrefix(objects, hit, r, tMin, tMax, i).found == Some(tempRec)
      invariant closestSoFar == ScanPrefix(objects, hit, r, tMin, tMax, i).closest
    {
      match hit(objects[i], r, tMin, closestSoFar)
      case Some(rec) =>
        hitAnything := true;
        closestSoFar := Finite(rec.t);
        tempRec := rec;
      case None =>
    }
    res := if hitAnything then Some(tempRec) else None;
  }

  /** An empty list is never hit. */
  lemma EmptyListMisses<T>(objects: seq<T>, hit: HitFunction<T>, r: Ray, tMin: real, tMax: Bound)
    requires |objects| == 0
    ensures ScanPrefix(objects, hit, r, tMin, tMax, |objects|).found == None
  {
  }

  /** The scan finds nothing exactly when none of its calls succeeded. */
  lemma {:induction false} NoneIffNoCallSucceeded<T>(objects: seq<T>, hit: HitFunction<T>, r: Ray, tMin: real, tMax: Bound, n: nat)
    requires n <= |objects|
    ensures ScanPrefix(objects, hit, r, tMin, tMax, n).found.None?
        <==> forall k :: 0 <= k < n ==> !Succeeded(objects, hit, r, tMin, tMax, k)
  {
    if n > 0 {
      NoneIffNoCallSucceeded(objects, hit, r, tMin, tMax, n - 1);
      if !Succeeded(objects, hit, r, tMin, tMax, n - 1) {
        assert ScanPrefix(objects, hit, r, tMin, tMax, n) == ScanPrefix(objects, hit, r, tMin, tMax, n - 1);
      }
    }
  }

  /** The index of the last successful call among the first `n`, or -1 when
      none succeeded. */
  function LastSuccess<T>(objects: seq<T>, hit: HitFunction<T>, r: Ray, tMin: real, tMax: Bound, n: nat)
    : (k: int)
    requires n <= |objects|
    ensures -1 <= k < n
    ensures 0 <= k ==> Succeeded(objects, hit, r, tMin, tMax, k)
    ensures forall j :: k < j < n ==> !Succeeded(objects, hit, r, tMin, tMax, j)
  {
    if n == 0 then -1
    else if Succeeded(objects, hit, r, tMin, tMax, n - 1) then n - 1
    else LastSuccess(objects, hit, r, tMin, tMax, n - 1)
  }

  /** The record kept is the one returned by the last successful call. */
  lemma {:induction false} LastSuccessfulHit<T>(objects: seq<T>, hit: HitFunction<T>, r: Ray, tMin: real, tMax: Bound, n: nat)
    requires n <= |objects|
    ensures var k := LastSuccess(objects, hit, r, tMin, tMax, n);
      ScanPrefix(objects, hit, r, tMin, tMax, n).found
      == if k < 0 then None
         else hit(objects[k], r, tMin, ScanPrefix(objects, hit, r, tMin, tMax, k).closest)
  {
    if n > 0 && !Succeeded(objects, hit, r, tMin, tMax, n - 1) {
      LastSuccessfulHit(objects, hit, r, tMin, tMax, n - 1);
    }
  }

  /** Under bound-respecting objects, `closest_so_far` never grows: the bound
      after `k` objects is at most the bound after `j <= k` objects, and so at
      most `t_max`. */
  lemma {:induction false} ClosestNeverGrows<T(!new)>(objects: seq<T>, hit: HitFunction<T>, r: Ray, tMin: real, tMax: Bound, j: nat, k: nat)
    requires RespectsBounds(hit)
    requires j <= k <= |objects|
    ensures ScanPrefix(objects, hit, r, tMin, tMax, k).closest
            .AtMost(ScanPrefix(objects, hit, r, tMin, tMax, j).closest)
    ensures ScanPrefix(objects, hit, r, tMin, tMax, k).closest.AtMost(tMax)
  {
    if k > j {
      ClosestNeverGrows(objects, hit, r, tMin, tMax, j, k - 1);
      ClosestNeverGrows(objects, hit, r, tMin, tMax, 0, k - 1);
    } else if k > 0 {
      ClosestNeverGrows(objects, hit, r, tMin, tMax, 0, k - 1);
    }
  }

  /** Under bound-respecting objects the record returned lies in
      `[t_min, t_max]`. */
  lemma {:induction false} ResultInBounds<T(!new)>(objects: seq<T>, hit: HitFunction<T>, r: Ray, tMin: real, tMax: Bound, n: nat)
    requires RespectsBounds(hit)
    requires n <= |objects|
    requires ScanPrefix(objects, hit, r, tMin, tMax, n).found.Some?
    ensures InRange(ScanPrefix(objects, hit, r, tMin, tMax, n).found.value.t, tMin, tMax)
  {
    var prev := ScanPrefix(objects, hit, r, tMin, tMax, n - 1);
    if hit(objects[n - 1], r, tMin, prev.closest).None? {
      ResultInBounds(objects, hit, r, tMin, tMax, n - 1);
    } else {
      ClosestNeverGrows(objects, hit, r, tMin, tMax, 0, n - 1);
    }
  }

  /** The scan returns the nearest hit: when objects respect their bounds and
      never lose a hit that a tighter bound still admits, the returned
      parameter is at most the parameter any single object reports on the
      whole interval `[t_min, t_max]`. */
  lemma {:induction false} NearestHit<T(!new)>(objects: seq<T>, hit: HitFunction<T>, r: Ray, tMin: real, tMax: Bound, n: nat, k: nat)
    requires RespectsBounds(hit) && MonotoneInBound(hit)
    requires k < n <= |objects|
    requires hit(objects[k], r, tMin, tMax).Some?
    ensures ScanPrefix(objects, hit, r, tMin, tMax, n).found.Some?
    ensures ScanPrefix(objects, hit, r, tMin, tMax, n).found.value.t
            <= hit(objects[k], r, tMin, tMax).value.t
  {
    var rk := hit(objects[k], r, tMin, tMax).value;
    var prev := ScanPrefix(objects, hit, r, tMin, tMax, n - 1);
    if k < n - 1 {
      NearestHit(objects, hit, r, tMin, tMax, n - 1, k);
    } else if prev.found.Some? && prev.found.value.t < rk.t {
      // Already closer than this object's hit; a new hit can only be closer.
    } else {
      // The current bound admits this object's hit, so the call succeeds
      // with a parameter no larger.
      assert prev.closest.Admits(rk.t);
    }
  }
}
