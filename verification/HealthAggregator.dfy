/** From the statuses of all targets to one verdict. */
module HealthAggregators {
  import opened HealthHistory
  import opened HealthCheckers
  import opened Wrappers

  datatype SystemStatus = SystemHealthy | SystemDegraded | SystemUnhealthy | SystemUnknown

  datatype AggregatedHealth = AggregatedHealth(
    status: SystemStatus, healthy: int, unhealthy: int, total: int, details: map<string, HealthStatus>)

  datatype CheckResult = CheckResult(passed: bool, duration: int, error: string)

  datatype ReadinessReport = ReadinessReport(ready: bool, checks: map<string, CheckResult>, message: string)

  ghost function HealthyNames(statuses: map<string, HealthStatus>): set<string> {
    set n | n in statuses && statuses[n].check.healthy
  }

  /** More than half of the targets are healthy. */
  ghost predicate Majority(statuses: map<string, HealthStatus>) {
    2 * |HealthyNames(statuses)| > |statuses|
  }

  function ErrorString(error: Option<string>): string {
    match error
    case None => ""
    case Some(e) => e
  }

  /** Targets turning healthy never turn the verdict to false. */
  lemma MajorityMonotone(before: map<string, HealthStatus>, after: map<string, HealthStatus>)
    requires before.Keys == after.Keys
    requires forall n | n in before && before[n].check.healthy :: after[n].check.healthy
    ensures Majority(before) ==> Majority(after)
  {
    assert HealthyNames(before) <= HealthyNames(after);
    SubsetIsSmaller(HealthyNames(before), HealthyNames(after));
    assert |before| == |before.Keys| == |after.Keys| == |after|;
  }

  lemma {:induction false} SubsetIsSmaller<T>(a: set<T>, b: set<T>)
    requires a <= b
    ensures |a| <= |b|
  {
    if a != {} {
      var x :| x in a;
      SubsetIsSmaller(a - {x}, b - {x});
    }
  }

  /** The counting loop of OverallHealth; the map gives its entries in any order. */
  method CountStatuses(allStatus: map<string, HealthStatus>) returns (healthy: int, unhealthy: int)
    ensures healthy == |HealthyNames(allStatus)| && healthy + unhealthy == |allStatus|
  {
    healthy, unhealthy := 0, 0;
    var left := allStatus.Keys;
    assert HealthyNames(allStatus) - left == {};
    while left != {}
      invariant left <= allStatus.Keys
      invariant healthy == |HealthyNames(allStatus) - left|
      invariant healthy + unhealthy == |allStatus| - |left|
      decreases |left|
    {
      var name :| name in left;
      CountOneMore(allStatus, left, name);
      if allStatus[name].check.healthy {
        healthy := healthy + 1;
      } else {
        unhealthy := unhealthy + 1;
      }
      left := left - {name};
    }
    assert HealthyNames(allStatus) - left == HealthyNames(allStatus);
  }

  class SimpleHealthAggregator {
    /** null stands for a checker of another type, whose targets the aggregator cannot see. */
    const checker: HealthChecker?

    constructor (checker: HealthChecker?)
      ensures this.checker == checker
    {
      this.checker := checker;
    }

    ghost function Statuses(): map<string, HealthStatus>
      reads checker
    {
      if checker == null then map[] else checker.status
    }

    method AllStatus() returns (allStatus: map<string, HealthStatus>)
      requires checker != null ==> checker.Valid()
      ensures allStatus == Statuses()
    {
      allStatus := map[];
      if checker != null {
        allStatus := checker.GetAllTargetStatus();
      }
    }

    method OverallHealth() returns (h: AggregatedHealth)
      requires checker != null ==> checker.Valid()
      ensures h.details == Statuses() && h.total == |Statuses()|
      ensures h.healthy == |HealthyNames(Statuses())| && h.healthy + h.unhealthy == h.total
      ensures h.status == SystemUnknown <==> h.total == 0
      ensures h.status == SystemHealthy <==> h.total > 0 && forall n | n in Statuses() :: Statuses()[n].check.healthy
      ensures h.status == SystemHealthy || h.status == SystemDegraded <==> Majority(Statuses())
    {
      var allStatus := AllStatus();
      var healthy, unhealthy := CountStatuses(allStatus);
      var total := |allStatus|;
      AllHealthy(allStatus, healthy);
      var status;
      if total == 0 {
        status := SystemUnknown;
      } else if unhealthy == 0 {
        status := SystemHealthy;
      } else if healthy > unhealthy {
        status := SystemDegraded;
      } else {
        status := SystemUnhealthy;
      }
      h := AggregatedHealth(status, healthy, unhealthy, total, allStatus);
    }
  }

  lemma CountOneMore(statuses: map<string, HealthStatus>, left: set<string>, name: string)
    requires name in statuses && name in left
    ensures |HealthyNames(statuses) - (left - {name})| ==
            |HealthyNames(statuses) - left| + if statuses[name].check.healthy then 1 else 0
  {
    var healthy := HealthyNames(statuses);
    if statuses[name].check.healthy {
      assert healthy - (left - {name}) == (healthy - left) + {name};
    } else {
      assert healthy - (left - {name}) == healthy - left;
    }
  }

  lemma AllHealthy(statuses: map<string, HealthStatus>, healthy: int)
    requires healthy == |HealthyNames(statuses)|
    ensures healthy == |statuses| <==> forall n | n in statuses :: statuses[n].check.healthy
  {
    assert HealthyNames(statuses) <= statuses.Keys;
    if forall n | n in statuses :: statuses[n].check.healthy {
      assert HealthyNames(statuses) == statuses.Keys;
    } else {
      var n :| n in statuses && !statuses[n].check.healthy;
      assert HealthyNames(statuses) <= statuses.Keys - {n};
      SubsetIsSmaller(HealthyNames(statuses), statuses.Keys - {n});
    }
  }

  /** The targets with at least one result, and those whose latest result is a pass. */
  ghost predicate LatestPassed(hc: HealthChecker, name: string)
    reads hc
  {
    hc.History(name) != [] && hc.History(name)[|hc.History(name)| - 1].healthy
  }

  /** A checker's statuses say of each target checked whether its latest check passed. */
  ghost predicate SaysLatest(hc: HealthChecker, name: string)
    reads hc
  {
    && (name in hc.status <==> hc.History(name) != [])
    && (name in hc.status ==> (hc.status[name].check.healthy <==> LatestPassed(hc, name)))
  }

  lemma LatestStatus(hc: HealthChecker, name: string)
    requires hc.Valid()
    ensures SaysLatest(hc, name)
  {
    assert hc.Book().ConsistentAt(name, hc.unhealthyThreshold);
    if hc.History(name) != [] { ExactlyOneCounter(hc.History(name)); }
  }

  function ResultOf(check: Outcome): CheckResult {
    CheckResult(check.healthy, check.responseTime, ErrorString(check.error))
  }

  class SimpleHealthReporter {
    const aggregator: SimpleHealthAggregator

    constructor (aggregator: SimpleHealthAggregator)
      ensures this.aggregator == aggregator
    {
      this.aggregator := aggregator;
    }

    method Checks(details: map<string, HealthStatus>) returns (checks: map<string, CheckResult>)
      ensures checks.Keys == details.Keys
      ensures forall n | n in checks :: checks[n] == ResultOf(details[n].check)
    {
      checks := map[];
      var left := details.Keys;
      while left != {}
        invariant left <= details.Keys && checks.Keys == details.Keys - left
        invariant forall n | n in checks :: checks[n] == ResultOf(details[n].check)
        decreases |left|
      {
        var name :| name in left;
        checks := checks[name := ResultOf(details[name].check)];
        left := left - {name};
      }
    }

    /** End to end: ready exactly when of the targets checked so far more than half passed their latest check,
        with a line for each of them. */
    method GetReadinessReport() returns (r: ReadinessReport)
      requires aggregator.checker != null ==> aggregator.checker.Valid()
      ensures r.ready <==> Majority(aggregator.Statuses())
      ensures r.checks.Keys == aggregator.Statuses().Keys
      ensures forall n | n in r.checks ::
                && r.checks[n].passed == aggregator.Statuses()[n].check.healthy
                && r.checks[n].duration == aggregator.Statuses()[n].check.responseTime
                && (aggregator.Statuses()[n].check.error.None? ==> r.checks[n].error == "")
                && (aggregator.Statuses()[n].check.error.Some? ==>
                      r.checks[n].error == aggregator.Statuses()[n].check.error.value)
      ensures r.message == if r.ready then "Service is ready" else "Service is not ready - unhealthy backends detected"
    {
      var aggregated := aggregator.OverallHealth();
      var ready := aggregated.status == SystemHealthy || aggregated.status == SystemDegraded;
      var message := "Service is ready";
      if !ready {
        message := "Service is not ready - unhealthy backends detected";
      }
      var checks := Checks(aggregated.details);
      r := ReadinessReport(ready, checks, message);
    }
  }

  /** What the majority is a majority of: of the targets checked since registration, those that passed last. */
  lemma ReadinessFromHistory(hc: HealthChecker, checked: set<string>)
    requires hc.Valid() && forall n :: n in checked <==> hc.History(n) != []
    ensures Majority(hc.status) <==> 2 * |set n | n in checked && LatestPassed(hc, n)| > |checked|
  {
    forall n
      ensures n in hc.status <==> n in checked
      ensures n in HealthyNames(hc.status) <==> n in checked && LatestPassed(hc, n)
    {
      LatestStatus(hc, n);
    }
    assert hc.status.Keys == checked;
    assert HealthyNames(hc.status) == set n | n in checked && LatestPassed(hc, n);
    assert |hc.status| == |hc.status.Keys|;
  }
}
