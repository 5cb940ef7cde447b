/**
  Leaders and replicas together: the logs that the group leaders write are the
  logs that the replicas read.
 */
module OrderEndToEnd {
  import opened VoteLogs
  import opened OrderRuns
  import LeaderSpec

  // The leader of every group runs, and votes on other groups' blocks in block order.
  ghost predicate LeadersRun(steps: seq<seq<LeaderSpec.Step>>) {
    && 2 <= |steps|
    && forall v: nat :: v < |steps| ==> LeaderRuns(v, |steps|, steps[v])
  }

  ghost predicate LeaderRuns(v: nat, n: nat, steps: seq<LeaderSpec.Step>) {
    && LeaderSpec.ValidSteps(LeaderSpec.Start(v, n), steps)
    && LeaderSpec.InOrder(LogOf(v, n, steps), v)
  }

  function LogOf(v: nat, n: nat, steps: seq<LeaderSpec.Step>): Log {
    LeaderSpec.RunLeader(LeaderSpec.Start(v, n), steps).log
  }

  function LogsOf(steps: seq<seq<LeaderSpec.Step>>): (logs: Logs) {
    seq(|steps|, v requires 0 <= v < |steps| => LogOf(v, |steps|, steps[v]))
  }

  lemma LeadersWriteWellFormedLogs(steps: seq<seq<LeaderSpec.Step>>)
    requires LeadersRun(steps)
    ensures WellFormedLogs(LogsOf(steps))
  {
    hide WellFormedLog, LeaderSpec.RunLeader, LeaderSpec.ValidSteps, LeaderSpec.InOrder;
    forall v: nat | v < |steps| ensures WellFormedLog(LogOf(v, |steps|, steps[v]), |steps|, v) {
      assert LeaderRuns(v, |steps|, steps[v]);
      LeaderSpec.LeaderRuns(v, |steps|, steps[v]);
    }
  }

  // Whatever the leaders receive and in whatever order, and whatever parts of
  // their logs two replicas have read, the replicas deliver the same blocks in
  // the same order as far as both have got, and neither leaves a block out.
  lemma ReplicasAgree(steps: seq<seq<LeaderSpec.Step>>, events: seq<Event>, events': seq<Event>)
    requires LeadersRun(steps) && ValidRun(LogsOf(steps), events) && ValidRun(LogsOf(steps), events')
    ensures WellFormedLogs(LogsOf(steps))
    ensures var d, e := Run(LogsOf(steps), events).delivered, Run(LogsOf(steps), events').delivered;
      && (d <= e || e <= d)
      && InitialSegment(LogsOf(steps), d) && InitialSegment(LogsOf(steps), e)
  {
    hide LeadersRun, LogsOf, Run, ValidRun, InitialSegment;
    LeadersWriteWellFormedLogs(steps);
    Agreement(LogsOf(steps), events, events');
  }
}
