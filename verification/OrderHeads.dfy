/**
  What the heads of a replica know. Whatever a head is compared with has been
  brought up to date by the last vote, and is never lost when a head is exchanged.
 */
module OrderHeads {
  import opened VoteLogs
  import opened OrderSpec
  import opened OrderInvariant
  import opened OrderDelivery
  import opened OrderRuns
  import opened OrderGrowth

  ghost predicate AtMost(c: CellState, d: CellState) {
    |c.watermarks| == |d.watermarks| && forall u :: 0 <= u < |c.watermarks| ==> c.watermarks[u] <= d.watermarks[u]
  }

  // No entry of a head falls, whether the head stays or is exchanged.
  ghost predicate Rises(s: Replica, t: Replica) {
    && s.Shaped(|s.heads|) && t.Shaped(|s.heads|)
    && forall g :: 0 <= g < |s.heads| ==> s.heads[g] <= t.heads[g] && AtMost(s.Head(g), t.Head(g))
  }

  // Moreover, heads that stay do not change.
  ghost predicate Exchanges(s: Replica, t: Replica) {
    && Rises(s, t)
    && forall g :: 0 <= g < |s.heads| && t.heads[g] == s.heads[g] ==> t.Head(g) == s.Head(g)
  }

  lemma PopExchanges(s: Replica, g: nat)
    requires s.Shaped(|s.heads|) && g < |s.heads| && s.Exchangeable(g) && s.Pop(g).Shaped(|s.heads|)
    ensures Exchanges(s, s.Pop(g))
  {
    hide CellState.Inherit, NewCell, CellState.Id;
    var b, t := s.heads[g], s.Pop(g);
    var next := s.Touch(g, b + 1).chains[g][b + 1];
    assert t.Head(g) == next.Inherit(s.Head(g));
    InheritRises(next, s.Head(g));
    forall h | 0 <= h < |s.heads| && h != g ensures t.heads[h] == s.heads[h] && t.Head(h) == s.Head(h) {}
  }

  lemma InheritRises(next: CellState, prev: CellState)
    requires |next.watermarks| == |next.isReal| == |prev.watermarks|
    requires forall i :: 0 <= i < |next.isReal| && next.isReal[i] ==> prev.watermarks[i] <= next.watermarks[i]
    ensures AtMost(prev, next.Inherit(prev))
  {
  }

  lemma {:induction false} PopAllExchanges(logs: Logs, seen: seq<nat>, s: Replica)
    requires Inv(logs, seen, s)
    ensures Exchanges(s, PopAll(logs, seen, s))
    decreases SumBudget(logs, seen, |logs|) - |s.delivered|
  {
    hide Inv, PopAll, Replica.Pop, Replica.Exchangeable, Replica.IsMinimum, CellState.Shaped, AtMost, Budget, SumBudget;
    WithinBudget(logs, seen, s, Block(0, 0));
    Heads(logs, seen, s);
    if g: nat :| g < |logs| && s.IsMinimum(g) {
      PopAllStep(logs, seen, s, g);
      PopExchanges(s, g);
      PopAllExchanges(logs, seen, s.Pop(g));
      ExchangesTransitive(s, s.Pop(g), PopAll(logs, seen, s));
    } else {
      NothingToPop(logs, seen, s);
      RisesReflexive(s);
    }
  }

  lemma RisesReflexive(s: Replica)
    requires s.Shaped(|s.heads|)
    ensures Rises(s, s)
  {
  }

  lemma RisesTransitive(s: Replica, t: Replica, u: Replica)
    requires Rises(s, t) && Rises(t, u)
    ensures Rises(s, u)
  {
    hide AtMost, CellState.Shaped;
    forall g | 0 <= g < |s.heads| ensures AtMost(s.Head(g), u.Head(g)) {
      AtMostTransitive(s.Head(g), t.Head(g), u.Head(g));
    }
  }

  lemma AtMostTransitive(c: CellState, d: CellState, e: CellState)
    requires AtMost(c, d) && AtMost(d, e)
    ensures AtMost(c, e)
  {
  }

  lemma ExchangesTransitive(s: Replica, t: Replica, u: Replica)
    requires Exchanges(s, t) && Exchanges(t, u)
    ensures Exchanges(s, u)
  {
    hide AtMost, CellState.Shaped;
    RisesTransitive(s, t, u);
  }

  // Recording a vote: heads stay, and evolve.
  lemma ProgressRises(s: Replica, t: Replica)
    requires Progresses(s, t) && t.heads == s.heads
    ensures Rises(s, t)
  {
    forall g | 0 <= g < |s.heads| ensures AtMost(s.Head(g), t.Head(g)) {
      assert Evolves(s.chains[g][s.heads[g]], t.chains[g][s.heads[g]]);
    }
  }

  // The entry of voter v in every head, right after a fresh vote with watermark w.
  ghost predicate UpToDate(s: Replica, t: Replica, v: nat, w: int)
    requires s.Shaped(|s.heads|) && t.Shaped(|s.heads|) && v < |s.heads|
  {
    forall g :: 0 <= g < |s.heads| && t.heads[g] == s.heads[g] ==>
      t.Head(g).isReal[v] || t.Head(g).watermarks[v] == w
  }

  lemma RaiseReaches(u: Replica, v: nat, w: int)
    requires u.Shaped(|u.heads|) && v < |u.heads| && u.Raise(v, w).Shaped(|u.heads|)
    ensures u.Raise(v, w).heads == u.heads && UpToDate(u, u.Raise(v, w), v, w)
  {
  }

  lemma RecordReaches(logs: Logs, seen: seq<nat>, s: Replica, v: nat)
    requires Inv(logs, seen, s) && v < |logs| && seen[v] < |logs[v]| && logs[v][seen[v]].groupId != v
    ensures var t := Record(logs, seen, s, v);
      t.heads == s.heads && Rises(s, t) && UpToDate(t, t, v, logs[v][seen[v]].watermark)
  {
    hide Record, CellsOk, DeliveriesOk, WellFormedLogs, Progresses, Replica.Raise, CellState.WithMark;
    var e, t := logs[v][seen[v]], Record(logs, seen, s, v);
    Heads(logs, seen, s);
    RecordInSteps(logs, seen, s, v);
    var u := s.Touch(e.groupId, e.blockId);
    var c := u.WithCell(e.groupId, e.blockId, u.chains[e.groupId][e.blockId].WithMark(v, e.watermark));
    RaiseReaches(c, v, e.watermark);
    ProgressRises(s, t);
  }

  // A decision, new or repeated: no head loses anything, and a new vote is known
  // to every head that stays.
  lemma VoteReaches(logs: Logs, seen: seq<nat>, s: Replica, ev: Event)
    requires Inv(logs, seen, s) && s.Quiescent() && EventOk(logs, seen, ev)
    ensures var t, e := Receive(logs, seen, s, ev), logs[ev.voter][ev.index];
      && Rises(s, t)
      && (ev.index == seen[ev.voter] && e.groupId != ev.voter ==> UpToDate(s, t, ev.voter, e.watermark))
  {
    hide Inv, Replica.Quiescent, PopAll, Record, Progresses, AtMost, CellState.Shaped;
    Heads(logs, seen, s);
    var v := ev.voter;
    if ev.index < seen[v] || logs[v][ev.index].groupId == v {
      RisesReflexive(s);
    } else {
      var t := Record(logs, seen, s, v);
      RecordReaches(logs, seen, s, v);
      PopAllExchanges(logs, seen[v := seen[v] + 1], t);
      RisesTransitive(s, t, Receive(logs, seen, s, ev));
    }
  }

  // Along every run.
  lemma {:induction false} HeadsRise(logs: Logs, events: seq<Event>, k: nat)
    requires WellFormedLogs(logs) && ValidRun(logs, events) && k <= |events|
    ensures ValidRun(logs, events[..k]) && Rises(Run(logs, events[..k]), Run(logs, events))
    decreases |events|
  {
    hide Inv, Run, Replica.Quiescent, Receive, Replica.Shaped, Rises;
    if k == |events| {
      assert events[..k] == events;
      RisesReflexive(Run(logs, events));
    } else {
      var front := events[..|events| - 1];
      HeadsRise(logs, front, k);
      assert front[..k] == events[..k];
      RunLast(logs, events);
      VoteReaches(logs, Seen(|logs|, front), Run(logs, front), events[|events| - 1]);
      RisesTransitive(Run(logs, events[..k]), Run(logs, front), Run(logs, events));
    }
  }
}
