/** Running a device's collectors one after the other, until too many of them fail in a row. */
module CircuitBreaker {
  const STOP_AFTER_ERRORS: nat := 5

  // What one collector does, and whether the scrape turns out to be cancelled when it returns.
  datatype Result = Good | Bad | Panic
  datatype Visit = Visit(result: Result, cancelled: bool)

  // How many failures in a row end with the k-th collector.
  function Streak(visits: seq<Visit>, k: nat): (n: nat)
    requires k <= |visits|
    ensures n <= k
    ensures forall i :: k - n <= i < k ==> visits[i].result == Bad
    ensures n < k ==> visits[k - n - 1].result != Bad
  {
    if k == 0 || visits[k - 1].result != Bad then 0 else 1 + Streak(visits, k - 1)
  }

  predicate FiveFailures(visits: seq<Visit>, k: nat) {
    STOP_AFTER_ERRORS <= k <= |visits| && forall i :: k - STOP_AFTER_ERRORS <= i < k ==> visits[i].result == Bad
  }

  // The run ends after k collectors, although there may be more.
  predicate StopsAt(visits: seq<Visit>, k: nat) {
    0 < k <= |visits| && (visits[k - 1].result == Panic || visits[k - 1].cancelled || FiveFailures(visits, k))
  }

  // How many collectors run: up to the first stop, or all of them.
  function Ran(visits: seq<Visit>, from: nat): (n: nat)
    requires from <= |visits|
    ensures from <= n <= |visits|
    ensures forall k :: from <= k < n ==> !StopsAt(visits, k)
    ensures n < |visits| ==> StopsAt(visits, n)
    decreases |visits| - from
  {
    if from == |visits| || StopsAt(visits, from) then from else Ran(visits, from + 1)
  }

  // The collectors among the first n that failed.
  function Failed(visits: seq<Visit>, n: nat): seq<nat>
    requires n <= |visits|
  {
    if n == 0 then [] else Failed(visits, n - 1) + if visits[n - 1].result == Bad then [n - 1] else []
  }

  lemma {:induction false} FailedAre(visits: seq<Visit>, n: nat)
    requires n <= |visits|
    ensures forall i :: i in Failed(visits, n) <==> 0 <= i < n && visits[i].result == Bad
    ensures |Failed(visits, n)| <= n
  {
    if n > 0 {
      FailedAre(visits, n - 1);
    }
  }

  lemma {:induction false} FailedInOrder(visits: seq<Visit>, n: nat)
    requires n <= |visits|
    ensures forall i, j :: 0 <= i < j < |Failed(visits, n)| ==> Failed(visits, n)[i] < Failed(visits, n)[j]
  {
    if n > 0 {
      FailedInOrder(visits, n - 1);
      FailedAre(visits, n - 1);
      var before := Failed(visits, n - 1);
      assert forall i :: 0 <= i < |before| ==> before[i] in before;
    }
  }

  lemma StreakOfFive(visits: seq<Visit>, k: nat)
    requires k <= |visits|
    ensures FiveFailures(visits, k) <==> Streak(visits, k) >= STOP_AFTER_ERRORS
  {
    var n := Streak(visits, k);
    if n < k {
      assert visits[k - n - 1].result != Bad;
    }
  }

  // The joined errors of a run: which collectors failed, and whether the limit was hit.
  datatype Gathered = Returned(failures: seq<nat>, tooMany: bool) | Panicked

  predicate IsNil(g: Gathered) {
    g.Returned? && g.failures == [] && !g.tooMany
  }

  function Gather(visits: seq<Visit>): Gathered {
    var n := Ran(visits, 0);
    if n > 0 && visits[n - 1].result == Panic then Panicked
    else Returned(Failed(visits, n), FiveFailures(visits, n))
  }

  function FailuresRun(visits: seq<Visit>): nat {
    |Failed(visits, Ran(visits, 0))|
  }

  /**
   The error is nil exactly if none of the collectors that ran failed, and names exactly those that did. The limit
   is reported exactly if the run ended on five failures in a row; without it, a panic and a cancellation every
   collector runs.
   */
  lemma GatherMeaning(visits: seq<Visit>)
    ensures var n := Ran(visits, 0); var g := Gather(visits);
            && (g.Panicked? <==> !forall i :: 0 <= i < n ==> visits[i].result != Panic)
            && (g.Returned? ==>
                  && (IsNil(g) <==> forall i :: 0 <= i < n ==> visits[i].result == Good)
                  && (forall i :: i in g.failures <==> 0 <= i < n && visits[i].result == Bad)
                  && (g.tooMany <==> FiveFailures(visits, n))
                  && (!g.tooMany ==> n == |visits| || visits[n - 1].cancelled))
            && FailuresRun(visits) <= n
  {
    hide Failed, FiveFailures;
    var n := Ran(visits, 0);
    FailedAre(visits, n);
    OnlyTheLastPanics(visits);
    if FiveFailures(visits, n) {
      FiveFailedLast(visits, n);
    }
    if n > 0 && Failed(visits, n) != [] {
      var i := Failed(visits, n)[0];
      assert i in Failed(visits, n);
    }
  }

  // The i-th collector and the four before it failed.
  predicate FifthFailure(visits: seq<Visit>, i: int) {
    && 4 <= i < |visits| && visits[i].result == Bad && visits[i - 1].result == Bad && visits[i - 2].result == Bad
    && visits[i - 3].result == Bad && visits[i - 4].result == Bad
  }

  // A collector after which no other one runs.
  predicate Stopper(visits: seq<Visit>, i: int) {
    0 <= i < |visits| && (visits[i].result == Panic || visits[i].cancelled || FifthFailure(visits, i))
  }

  lemma StopperStops(visits: seq<Visit>, k: nat)
    ensures FiveFailures(visits, k) <==> FifthFailure(visits, k - 1)
    ensures StopsAt(visits, k) <==> Stopper(visits, k - 1)
  {}

  /**
   In numbers: all collectors run up to the first that panics, after which the scrape is cancelled, or that is the fifth
   failure in a row; and the limit is reported exactly if the last one is such a fifth failure.
   */
  lemma StopsAfterFive(visits: seq<Visit>)
    ensures var n := Ran(visits, 0);
            && (forall i :: 0 <= i && i + 1 < n ==> !Stopper(visits, i))
            && (n < |visits| ==> Stopper(visits, n - 1))
            && (Gather(visits).Returned? ==> (Gather(visits).tooMany <==> FifthFailure(visits, n - 1)))
  {
    hide StopsAt, FiveFailures, Stopper, FifthFailure;
    var n := Ran(visits, 0);
    StopperStops(visits, n);
    forall i: int | 0 <= i && i + 1 < n ensures !Stopper(visits, i) {
      StopperStops(visits, i + 1);
      assert !StopsAt(visits, i + 1);
    }
  }

  lemma OnlyTheLastPanics(visits: seq<Visit>)
    ensures var n := Ran(visits, 0); forall i: int :: 0 <= i && i + 1 < n ==> visits[i].result != Panic
  {
    var n := Ran(visits, 0);
    forall i: int | 0 <= i && i + 1 < n ensures visits[i].result != Panic {
      assert !StopsAt(visits, i + 1);
    }
  }

  lemma FiveFailedLast(visits: seq<Visit>, n: nat)
    requires n <= |visits| && FiveFailures(visits, n)
    ensures n > 0 && visits[n - 1].result == Bad
  {}
}
