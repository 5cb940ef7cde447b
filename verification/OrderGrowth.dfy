/**
  The logs grow while the replicas run. What a replica has delivered does not
  depend on votes that are still to be cast.
 */
module OrderGrowth {
  import opened VoteLogs
  import opened OrderSpec
  import opened OrderDelivery
  import opened OrderRuns

  ghost predicate Extends(logs: Logs, logs': Logs) {
    |logs| == |logs'| && forall v :: 0 <= v < |logs| ==> logs[v] <= logs'[v]
  }

  lemma {:induction false} PopAllSame(logs: Logs, logs': Logs, seen: seq<nat>, s: Replica)
    requires |logs| == |logs'| && Inv(logs, seen, s) && Inv(logs', seen, s)
    ensures PopAll(logs, seen, s) == PopAll(logs', seen, s)
    decreases SumBudget(logs, seen, |logs|) - |s.delivered|
  {
    hide Inv, PopAll, Replica.Pop, Replica.Exchangeable, Replica.IsMinimum, Budget, SumBudget;
    WithinBudget(logs, seen, s, Block(0, 0));
    Heads(logs, seen, s);
    if g: nat :| g < |logs| && s.IsMinimum(g) {
      PopAllStep(logs, seen, s, g);
      PopAllStep(logs', seen, s, g);
      PopAllSame(logs, logs', seen, s.Pop(g));
    } else {
      NothingToPop(logs, seen, s);
      NothingToPop(logs', seen, s);
    }
  }

  lemma Heads(logs: Logs, seen: seq<nat>, s: Replica)
    requires Inv(logs, seen, s)
    ensures |s.heads| == |logs| && s.Shaped(|logs|)
  {
  }

  lemma ReceiveSame(logs: Logs, logs': Logs, seen: seq<nat>, s: Replica, ev: Event)
    requires |logs| == |logs'| && Inv(logs, seen, s) && Inv(logs', seen, s) && s.Shaped(|s.heads|) && s.Quiescent()
    requires EventOk(logs, seen, ev) && EventOk(logs', seen, ev)
    requires logs[ev.voter][ev.index] == logs'[ev.voter][ev.index]
    ensures Receive(logs, seen, s, ev) == Receive(logs', seen, s, ev)
  {
    hide Inv, PopAll, Receive, Replica.Quiescent, Replica.Raise, Advance, SeenOk;
    Heads(logs, seen, s);
    if logs[ev.voter][ev.index].groupId == ev.voter {
      SelfVoteReceived(logs, seen, s, ev);
      SelfVoteReceived(logs', seen, s, ev);
    } else {
      ReceiveInSteps(logs, seen, s, ev);
      ReceiveInSteps(logs', seen, s, ev);
      var e, v := logs[ev.voter][ev.index], ev.voter;
      var t := s.Touch(e.groupId, e.blockId);
      var c := t.chains[e.groupId][e.blockId];
      if !c.isReal[v] {
        PopAllSame(logs, logs', Advance(seen, ev),
          t.WithCell(e.groupId, e.blockId, c.WithMark(v, e.watermark)).Raise(v, e.watermark));
      }
    }
  }

  // A run over the shorter logs is the same run over the longer ones.
  lemma {:induction false} RunSame(logs: Logs, logs': Logs, events: seq<Event>)
    requires WellFormedLogs(logs) && WellFormedLogs(logs') && Extends(logs, logs') && ValidRun(logs, events)
    ensures ValidRun(logs', events) && Run(logs', events) == Run(logs, events)
    decreases |events|
  {
    hide Inv, Receive, Replica.Quiescent, Replica.Shaped, WellFormedLogs, Run;
    if events == [] {
      RunNothing(logs);
      RunNothing(logs');
    } else {
      var front, ev, n := events[..|events| - 1], events[|events| - 1], |logs|;
      RunSame(logs, logs', front);
      StillOk(logs, logs', Seen(n, front), ev);
      ReceiveSame(logs, logs', Seen(n, front), Run(logs, front), ev);
      RunLast(logs, events);
      RunLast(logs', events);
    }
  }

  lemma RunNothing(logs: Logs)
    requires WellFormedLogs(logs)
    ensures Run(logs, []) == Initial(|logs|)
  {
  }

  lemma RunLast(logs: Logs, events: seq<Event>)
    requires WellFormedLogs(logs) && ValidRun(logs, events) && events != []
    ensures var front := events[..|events| - 1];
      Run(logs, events) == Receive(logs, Seen(|logs|, front), Run(logs, front), events[|events| - 1])
  {
    hide Inv, Receive, Replica.Quiescent, Replica.Shaped, WellFormedLogs;
  }

  lemma StillOk(logs: Logs, logs': Logs, seen: seq<nat>, ev: Event)
    requires Extends(logs, logs') && EventOk(logs, seen, ev)
    ensures EventOk(logs', seen, ev) && logs[ev.voter][ev.index] == logs'[ev.voter][ev.index]
  {
  }

  // Votes to come change nothing: what was delivered is an initial segment of
  // the order that the longer logs determine, and comparable with whatever a
  // replica delivers later.
  lemma DeliveredForGood(logs: Logs, logs': Logs, events: seq<Event>, events': seq<Event>)
    requires WellFormedLogs(logs) && WellFormedLogs(logs') && Extends(logs, logs') && ValidRun(logs, events)
    requires ValidRun(logs', events')
    ensures var d, e := Run(logs, events).delivered, Run(logs', events').delivered;
      InitialSegment(logs', d) && (d <= e || e <= d)
  {
    hide Inv, Receive, Replica.Quiescent, Replica.Shaped, WellFormedLogs, Run, ValidRun, InitialSegment;
    RunSame(logs, logs', events);
    Agreement(logs', events, events');
  }
}
