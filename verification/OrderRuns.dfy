/**
  Runs of a replica over the vote logs, and the theorems about all of them.
 */
module OrderRuns {
  import opened VoteLogs
  import opened OrderSpec
  import opened OrderInvariant
  import opened OrderDelivery

  // Entry `index` of the log of `voter` reaches the replica.
  datatype Event = Event(voter: nat, index: nat)

  // Entries first arrive in log order; any seen entry may arrive again.
  ghost predicate EventOk(logs: Logs, seen: seq<nat>, ev: Event) {
    && SeenOk(logs, seen)
    && ev.voter < |logs|
    && ev.index < |logs[ev.voter]|
    && ev.index <= seen[ev.voter]
  }

  function Advance(seen: seq<nat>, ev: Event): (seen': seq<nat>) {
    if ev.voter < |seen| && ev.index == seen[ev.voter] then seen[ev.voter := ev.index + 1] else seen
  }

  // Everything below a position of a log has been voted on.
  lemma {:induction false} SeenEntry(log: Log, n: nat, v: nat, k: nat)
    requires WellFormedLog(log, n, v) && k < |log| && log[k].groupId != v
    ensures log[k].groupId < n && log[k].blockId < VotesOn(log, log[k].groupId)
  {
    if k < |log| - 1 {
      SeenEntry(log[..|log| - 1], n, v, k);
    }
  }

  // The vote of a fresh event: not marked yet, at most one past the chain's end.
  lemma FreshVote(logs: Logs, seen: seq<nat>, s: Replica, v: nat)
    requires Inv(logs, seen, s) && v < |logs| && seen[v] < |logs[v]| && logs[v][seen[v]].groupId != v
    ensures
      var e := logs[v][seen[v]];
      && e.groupId < |logs|
      && e.blockId <= |s.chains[e.groupId]|
      && CellsOk(logs, seen, s.Touch(e.groupId, e.blockId))
      && var c := s.Touch(e.groupId, e.blockId).chains[e.groupId][e.blockId];
         v < |c.isReal| == |c.watermarks| && !c.isReal[v] && c.watermarks[v] <= e.watermark
  {
    var e := logs[v][seen[v]];
    PrefixStep(logs, seen, v, e.groupId);
    TouchOk(logs, seen, s, e.groupId, e.blockId);
    MarkOk(logs, seen, s.Touch(e.groupId, e.blockId), v);
  }

  // The vote of a repeated event is already marked.
  lemma RepeatedVote(logs: Logs, seen: seq<nat>, s: Replica, v: nat, k: nat)
    requires Inv(logs, seen, s) && v < |logs| && k < seen[v] && logs[v][k].groupId != v
    ensures
      var e := logs[v][k];
      && e.groupId < |logs|
      && e.blockId < |s.chains[e.groupId]|
      && s.chains[e.groupId][e.blockId].isReal[v]
  {
    var e, p := logs[v][k], Prefix(logs, seen, v);
    PrefixFacts(logs[v], |logs|, v, seen[v], e.groupId, e.blockId);
    assert p[k] == e;
    SeenEntry(p, |logs|, v, k);
    assert CellOk(logs, seen, s.chains[e.groupId][e.blockId]);
    assert EntryOk(logs, seen, s.chains[e.groupId][e.blockId], v);
  }

  // Marking a fresh vote and raising the estimates, before any delivery.
  ghost function Record(logs: Logs, seen: seq<nat>, s: Replica, v: nat): (r: Replica)
    requires Inv(logs, seen, s) && v < |logs| && seen[v] < |logs[v]| && logs[v][seen[v]].groupId != v
    ensures Inv(logs, seen[v := seen[v] + 1], r)
    ensures Progresses(s, r)
  {
    var e := logs[v][seen[v]];
    FreshVote(logs, seen, s, v);
    var t := s.Touch(e.groupId, e.blockId);
    MarkOk(logs, seen, t, v);
    PrefixStep(logs, seen, v, e.groupId);
    var u := t.WithCell(e.groupId, e.blockId, t.chains[e.groupId][e.blockId].WithMark(v, e.watermark));
    RaiseOk(logs, seen[v := seen[v] + 1], u, v, e.watermark);
    var r := u.Raise(v, e.watermark);
    DeliveriesKeep(logs, seen, v, s, r);
    RecordProgresses(s, e.groupId, e.blockId, v, e.watermark);
    r
  }

  lemma MarkEvolves(c: CellState, d: CellState, v: nat, w: int)
    requires v < |c.isReal| == |c.watermarks|
    requires d == c || (!c.isReal[v] && c.watermarks[v] <= w && d == c.WithMark(v, w))
    ensures Evolves(c, d)
    ensures d.isReal[v] || d.watermarks[v] <= w ==> Evolves(c, d.WithEstimate(v, w))
  {
  }

  lemma RecordProgresses(s: Replica, g: nat, b: nat, v: nat, w: int)
    requires s.Shaped(|s.heads|) && g < |s.heads| && b <= |s.chains[g]| && v < |s.heads|
    requires var c := s.Touch(g, b).chains[g][b]; c.Shaped(|s.heads|) && !c.isReal[v] && c.watermarks[v] <= w
    requires
      var t := s.Touch(g, b);
      var u := t.WithCell(g, b, t.chains[g][b].WithMark(v, w));
      && u.Shaped(|s.heads|) && u.Raise(v, w).Shaped(|s.heads|)
      && forall h :: 0 <= h < |s.heads| && !u.Head(h).isReal[v] ==> u.Head(h).watermarks[v] <= w
    ensures
      var t := s.Touch(g, b);
      Progresses(s, t.WithCell(g, b, t.chains[g][b].WithMark(v, w)).Raise(v, w))
  {
    hide Evolves, NewCell, CellState.WithMark, CellState.WithEstimate, CellState.Id;
    var t := s.Touch(g, b);
    var u := t.WithCell(g, b, t.chains[g][b].WithMark(v, w));
    var r := u.Raise(v, w);
    forall h, a | 0 <= h < |s.heads| && 0 <= a <= s.heads[h] ensures Evolves(s.chains[h][a], r.chains[h][a]) {
      var c, d := s.chains[h][a], u.chains[h][a];
      assert c.Shaped(|s.heads|) && d.Shaped(|s.heads|);
      assert d == c || (h == g && a == b && d == c.WithMark(v, w));
      assert r.chains[h][a] == d || (a == u.heads[h] && r.chains[h][a] == d.WithEstimate(v, w));
      MarkEvolves(c, d, v, w);
    }
  }

  // r is a later state than s in which the invariant holds for seen and no head
  // is deliverable.
  ghost predicate Settles(logs: Logs, seen: seq<nat>, s: Replica, r: Replica) {
    Inv(logs, seen, r) && r.Quiescent() && Progresses(s, r)
  }

  lemma SettlesItself(logs: Logs, seen: seq<nat>, s: Replica)
    requires Inv(logs, seen, s) && s.Quiescent()
    ensures Settles(logs, seen, s, s)
  {
    ProgressesReflexive(s);
  }

  // Recording a fresh vote, and then delivering what can be delivered.
  ghost function RecordAndPop(logs: Logs, seen: seq<nat>, s: Replica, v: nat): (r: Replica)
    requires Inv(logs, seen, s) && v < |logs| && seen[v] < |logs[v]| && logs[v][seen[v]].groupId != v
    ensures Settles(logs, seen[v := seen[v] + 1], s, r)
  {
    var t := Record(logs, seen, s, v);
    var r := PopAll(logs, seen[v := seen[v] + 1], t);
    ProgressesTransitive(s, t, r);
    r
  }

  // The next entry of v's log arrives.
  ghost function ReceiveNext(logs: Logs, seen: seq<nat>, s: Replica, v: nat): (r: Replica)
    requires Inv(logs, seen, s) && s.Quiescent() && v < |logs| && seen[v] < |logs[v]|
    ensures Settles(logs, seen[v := seen[v] + 1], s, r)
  {
    if logs[v][seen[v]].groupId == v then
      SelfVoteKeeps(logs, seen, s, v);
      SettlesItself(logs, seen[v := seen[v] + 1], s);
      s
    else RecordAndPop(logs, seen, s, v)
  }

  // pushDecision on the vote carried by ev.
  ghost function Receive(logs: Logs, seen: seq<nat>, s: Replica, ev: Event): (r: Replica)
    requires Inv(logs, seen, s) && s.Quiescent() && EventOk(logs, seen, ev)
    ensures Settles(logs, Advance(seen, ev), s, r)
  {
    if ev.index < seen[ev.voter] then
      SettlesItself(logs, seen, s);
      s
    else
      assert Advance(seen, ev) == seen[ev.voter := seen[ev.voter] + 1];
      ReceiveNext(logs, seen, s, ev.voter)
  }

  lemma RecordInSteps(logs: Logs, seen: seq<nat>, s: Replica, v: nat)
    requires Inv(logs, seen, s) && v < |logs| && seen[v] < |logs[v]| && logs[v][seen[v]].groupId != v
    ensures
      var e, n, seen' := logs[v][seen[v]], |logs|, seen[v := seen[v] + 1];
      && e.groupId < n && e.blockId <= |s.chains[e.groupId]|
      && var t := s.Touch(e.groupId, e.blockId);
      && t.Shaped(n)
      && var c := t.chains[e.groupId][e.blockId];
      && !c.isReal[v] && c.watermarks[v] <= e.watermark
      && var u := t.WithCell(e.groupId, e.blockId, c.WithMark(v, e.watermark));
      && u.Shaped(n)
      && (forall g :: 0 <= g < n && !u.Head(g).isReal[v] ==> g != v && u.Head(g).watermarks[v] <= e.watermark)
      && u.Raise(v, e.watermark).Shaped(n)
      && SeenOk(logs, seen')
      && Record(logs, seen, s, v) == u.Raise(v, e.watermark)
  {
    hide CellOk, DeliveriesOk, WellFormedLogs, CellState.WithEstimate, NewCell, Budget;
    var e := logs[v][seen[v]];
    FreshVote(logs, seen, s, v);
    var t := s.Touch(e.groupId, e.blockId);
    MarkOk(logs, seen, t, v);
    PrefixStep(logs, seen, v, e.groupId);
    var u := t.WithCell(e.groupId, e.blockId, t.chains[e.groupId][e.blockId].WithMark(v, e.watermark));
    RaiseOk(logs, seen[v := seen[v] + 1], u, v, e.watermark);
  }

  // Receive in the order of pushDecision, for a vote on another group's block.
  lemma ReceiveInSteps(logs: Logs, seen: seq<nat>, s: Replica, ev: Event)
    requires Inv(logs, seen, s) && s.Quiescent() && EventOk(logs, seen, ev)
    requires logs[ev.voter][ev.index].groupId != ev.voter
    ensures
      var e, v, n := logs[ev.voter][ev.index], ev.voter, |logs|;
      && e.groupId < n && e.blockId <= |s.chains[e.groupId]|
      && var t := s.Touch(e.groupId, e.blockId);
      && t.Shaped(n)
      && var c := t.chains[e.groupId][e.blockId];
      && c.isReal[v] == (ev.index < seen[v])
      && if c.isReal[v] then t == Receive(logs, seen, s, ev) == s && Advance(seen, ev) == seen
         else
           && c.watermarks[v] <= e.watermark
           && var u := t.WithCell(e.groupId, e.blockId, c.WithMark(v, e.watermark));
           && u.Shaped(n)
           && (forall g :: 0 <= g < n && !u.Head(g).isReal[v] ==> g != v && u.Head(g).watermarks[v] <= e.watermark)
           && u.Raise(v, e.watermark).Shaped(n)
           && Inv(logs, Advance(seen, ev), u.Raise(v, e.watermark))
           && SeenOk(logs, Advance(seen, ev))
           && Receive(logs, seen, s, ev) == PopAll(logs, Advance(seen, ev), u.Raise(v, e.watermark))
  {
    hide PopAll, CellOk, DeliveriesOk, WellFormedLogs, Record, Replica.IsMinimum, Replica.Quiescent, Replica.Raise,
         CellState.WithMark, NewCell, Budget;
    var v := ev.voter;
    var e := logs[v][ev.index];
    if ev.index < seen[v] {
      RepeatedVote(logs, seen, s, v, ev.index);
    } else {
      RecordInSteps(logs, seen, s, v);
      assert Advance(seen, ev) == seen[v := seen[v] + 1];
    }
  }

  lemma SelfVoteKeeps(logs: Logs, seen: seq<nat>, s: Replica, v: nat)
    requires Inv(logs, seen, s) && v < |logs| && seen[v] < |logs[v]| && logs[v][seen[v]].groupId == v
    ensures Inv(logs, seen[v := seen[v] + 1], s)
  {
    SelfVoteOk(logs, seen, s, v);
    DeliveriesKeep(logs, seen, v, s, s);
  }

  // A vote on the voter's own chain changes nothing in the replica.
  lemma SelfVoteReceived(logs: Logs, seen: seq<nat>, s: Replica, ev: Event)
    requires Inv(logs, seen, s) && s.Quiescent() && EventOk(logs, seen, ev)
    requires logs[ev.voter][ev.index].groupId == ev.voter
    ensures Receive(logs, seen, s, ev) == s
  {
  }

  ghost function Seen(n: nat, events: seq<Event>): (seen: seq<nat>) {
    if events == [] then seq(n, v => 0)
    else Advance(Seen(n, events[..|events| - 1]), events[|events| - 1])
  }

  ghost predicate ValidRun(logs: Logs, events: seq<Event>) {
    events == [] ||
    var front := events[..|events| - 1];
    ValidRun(logs, front) && EventOk(logs, Seen(|logs|, front), events[|events| - 1])
  }

  // Between two first blocks nothing is settled before a vote arrives.
  lemma NewCellsOpen(n: nat, g: nat, h: nat)
    requires 2 <= n && g < n && h == if g == 0 then 1 else 0
    ensures !NewCell(n, g, 0).MustLessThan(NewCell(n, h, 0))
  {
    var a, c := NewCell(n, g, 0), NewCell(n, h, 0);
    assert !(a.isReal[0] && c.isReal[0]);
    forall k: nat | k <= n ensures !a.SettledAt(c, k) {
      assert a.isReal[0] ==> a.watermarks[0] > c.watermarks[0];
    }
  }

  lemma InitialQuiescent(n: nat)
    requires 2 <= n
    ensures Initial(n).Shaped(n) && Initial(n).Quiescent()
  {
    var s := Initial(n);
    forall g | 0 <= g < n ensures !s.IsMinimum(g) {
      var h := if g == 0 then 1 else 0;
      NewCellsOpen(n, g, h);
      assert s.Head(g) == NewCell(n, g, 0) && s.Head(h) == NewCell(n, h, 0);
    }
  }

  // The state of a replica after the events.
  ghost function Run(logs: Logs, events: seq<Event>): (s: Replica)
    requires WellFormedLogs(logs) && ValidRun(logs, events)
    ensures Inv(logs, Seen(|logs|, events), s)
    ensures |s.heads| == |logs| && s.Shaped(|logs|) && s.Quiescent()
  {
    if events == [] then
      InitialOk(logs);
      InitialQuiescent(|logs|);
      Initial(|logs|)
    else
      var front := events[..|events| - 1];
      Receive(logs, Seen(|logs|, front), Run(logs, front), events[|events| - 1])
  }

  /* ---- theorems over all runs ---- */

  lemma RunSegment(logs: Logs, events: seq<Event>)
    requires WellFormedLogs(logs) && ValidRun(logs, events)
    ensures InitialSegment(logs, Run(logs, events).delivered)
  {
    hide Run, InitialSegment, CellsOk, Budget;
  }

  // Agreement: whatever interleavings of log prefixes two replicas have
  // received, one has delivered a prefix of what the other has, and both have
  // delivered an initial segment of the one global order.
  lemma Agreement(logs: Logs, events: seq<Event>, events': seq<Event>)
    requires WellFormedLogs(logs) && ValidRun(logs, events) && ValidRun(logs, events')
    ensures var d, e := Run(logs, events).delivered, Run(logs, events').delivered;
      && (d <= e || e <= d)
      && InitialSegment(logs, d) && InitialSegment(logs, e)
  {
    hide Run, Inv, InitialSegment, ValidRun, Replica.Shaped, Replica.Quiescent, WellFormedLogs;
    RunSegment(logs, events);
    RunSegment(logs, events');
    var d, e := Run(logs, events).delivered, Run(logs, events').delivered;
    if |d| <= |e| {
      SegmentsAgreeUpTo(logs, d, e, |d|);
      assert d[..|d|] == d;
    } else {
      SegmentsAgreeUpTo(logs, d, e, |e|);
      assert e[..|e|] == e;
    }
  }

  // A replica never takes back a delivery.
  lemma {:induction false} RunProgresses(logs: Logs, events: seq<Event>, k: nat)
    requires WellFormedLogs(logs) && ValidRun(logs, events) && k <= |events|
    ensures ValidRun(logs, events[..k])
    ensures Progresses(Run(logs, events[..k]), Run(logs, events))
    decreases |events|
  {
    hide Inv, Progresses, Replica.Quiescent, Receive, Replica.Shaped;
    if k == |events| {
      assert events[..k] == events;
      ProgressesReflexive(Run(logs, events));
    } else {
      var front := events[..|events| - 1];
      RunProgresses(logs, front, k);
      assert front[..k] == events[..k];
      ProgressesTransitive(Run(logs, events[..k]), Run(logs, front), Run(logs, events));
    }
  }

  // Each chain is delivered as 0, 1, 2, ... without gap or repeat.
  lemma DeliveredInChainOrder(logs: Logs, events: seq<Event>, g: nat)
    requires WellFormedLogs(logs) && ValidRun(logs, events) && g < |logs|
    ensures var s := Run(logs, events);
      && (forall b :: Block(g, b) in s.delivered <==> b < s.heads[g])
      && (forall i, j :: 0 <= i < j < |s.delivered| && s.delivered[i].groupId == s.delivered[j].groupId == g ==>
            s.delivered[i].blockId < s.delivered[j].blockId)
  {
    var s := Run(logs, events);
    var d := s.delivered;
    forall i, j | 0 <= i < j < |d| && d[i].groupId == d[j].groupId == g ensures d[i].blockId < d[j].blockId {
      BeforeAsymmetric(logs, d[i], d[j]);
      if d[j].blockId < d[i].blockId {
        ChainIncreasing(logs, g, d[j].blockId, d[i].blockId);
      }
    }
  }

  // A delivered block was voted on by group 0, or is group 0's own and a
  // received watermark of group 0 has reached it; so deliveries are bounded.
  lemma NoPhantom(logs: Logs, events: seq<Event>, x: Block)
    requires WellFormedLogs(logs) && ValidRun(logs, events)
    ensures x in Run(logs, events).delivered ==>
      var p := Prefix(logs, Seen(|logs|, events), 0);
      if x.groupId == 0 then x.blockId <= LastMark(p, 0) else x.blockId < VotesOn(p, x.groupId)
    ensures |Run(logs, events).delivered| <= SumBudget(logs, Seen(|logs|, events), |logs|)
  {
    hide Run, Inv;
    WithinBudget(logs, Seen(|logs|, events), Run(logs, events), x);
  }

  lemma WithinBudget(logs: Logs, seen: seq<nat>, s: Replica, x: Block)
    requires Inv(logs, seen, s)
    ensures 0 < |logs| == |seen| && seen[0] <= |logs[0]|
    ensures x in s.delivered ==> x.blockId < Budget(logs, seen, x.groupId)
    ensures |s.delivered| <= SumBudget(logs, seen, |logs|)
  {
    hide CellsOk, InitialSegment, WellFormedLog, Budget;
    CellAt(logs, seen, s, 0, 0);
    SumHeadsBound(logs, seen, s.heads, |logs|);
  }

  ghost predicate SoundAndStable(logs: Logs, s: Replica, t: Replica, g: nat, h: nat)
    requires s.Shaped(|logs|) && t.Shaped(|logs|) && g < |logs| && h < |logs|
  {
    && (forall v :: 0 <= v < |logs| ==> s.Head(g).watermarks[v] <= Final(logs[v], v, g, s.heads[g]))
    && (s.Head(g).MustLessThan(s.Head(h)) ==>
          && Before(logs, Block(g, s.heads[g]), Block(h, s.heads[h]))
          && (t.heads[g] == s.heads[g] && t.heads[h] == s.heads[h] ==> t.Head(g).MustLessThan(t.Head(h))))
  }

  lemma StatesCompare(logs: Logs, seen: seq<nat>, s: Replica, t: Replica, g: nat, h: nat)
    requires Inv(logs, seen, s) && Progresses(s, t) && g < |logs| && h < |logs| && g != h
    ensures s.Shaped(|logs|) && t.Shaped(|logs|) && SoundAndStable(logs, s, t, g, h)
  {
    hide Evolves, Before, Final, EntryOk, DeliveriesOk, WellFormedLogs, CellState.MustLessThan;
    var a, c := s.Head(g), s.Head(h);
    assert a.Id() == Block(g, s.heads[g]) && c.Id() == Block(h, s.heads[h]);
    assert CellOk(logs, seen, a) && CellOk(logs, seen, c);
    forall v | 0 <= v < |logs| ensures a.watermarks[v] <= Final(logs[v], v, g, s.heads[g]) {
      EstimateSound(logs, seen, a, v);
    }
    if a.MustLessThan(c) {
      MustLessThanSound(logs, seen, a, c);
      if t.heads[g] == s.heads[g] && t.heads[h] == s.heads[h] {
        MustLessThanStable(a, c, t.Head(g), t.Head(h));
      }
    }
  }

  // In every reachable state the watermarks of heads bound the final ones from
  // below, so a comparison that answers true is right, and stays true as long
  // as both cells are heads.
  lemma ComparisonSoundAndStable(logs: Logs, events: seq<Event>, k: nat, g: nat, h: nat)
    requires WellFormedLogs(logs) && ValidRun(logs, events) && k <= |events| && g < |logs| && h < |logs| && g != h
    ensures ValidRun(logs, events[..k])
    ensures SoundAndStable(logs, Run(logs, events[..k]), Run(logs, events), g, h)
  {
    hide Run, Seen, Inv, ValidRun, Progresses, SoundAndStable, Replica.Quiescent;
    RunProgresses(logs, events, k);
    StatesCompare(logs, Seen(|logs|, events[..k]), Run(logs, events[..k]), Run(logs, events), g, h);
  }

  // Liveness: after every event some head still lacks a vote.
  lemma NeverStalls(logs: Logs, events: seq<Event>)
    requires WellFormedLogs(logs) && ValidRun(logs, events)
    ensures exists g, v :: 0 <= g < |logs| && 0 <= v < |logs| && !Run(logs, events).Head(g).isReal[v]
  {
    QuiescentMissesVote(logs, Seen(|logs|, events), Run(logs, events));
  }
}
