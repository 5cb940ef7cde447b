/**
  How a group leader assigns orders: a vote tally and a finished mark per block,
  a local clock, and the log of orders it emits. This is the specification with
  an unbounded tally; the order assigner keeps only a ring of slots.
 */
module LeaderSpec {
  import opened VoteLogs

  datatype Tally = Tally(votes: set<nat>, finished: bool)

  const NO_VOTES := Tally({}, false)

  function Lookup(m: map<Block, Tally>, x: Block): Tally {
    if x in m then m[x] else NO_VOTES
  }

  datatype Leader = Leader(chainId: nat, groups: nat, clock: int, tallies: map<Block, Tally>, log: Log) {
    function Threshold(): nat {
      groups / 2 + 1
    }

    // getBlockOrder and the vote that is sent for it: once per block.
    function VoteNewBlock(x: Block): (s: Leader) {
      var t := Lookup(tallies, x);
      if t.finished then this
      else
        var mark := if x.groupId == chainId then x.blockId else clock;
        this.(tallies := tallies[x := t.(finished := true)], log := log + [Vote(x.groupId, x.blockId, mark)])
    }

    function AddVote(x: Block, voter: nat): (s: Leader) {
      var t := Lookup(tallies, x);
      if x.groupId == chainId || t.finished then this
      else this.(tallies := tallies[x := t.(votes := t.votes + {voter})])
    }

    // -1 when the block is local or already voted on.
    function VoteCount(x: Block): int {
      var t := Lookup(tallies, x);
      if x.groupId == chainId || t.finished then -1 else |t.votes|
    }

    // A remote vote is counted; reaching the threshold forces the local vote.
    function OnRemoteVote(x: Block, voter: nat): (s: Leader) {
      var t := AddVote(x, voter);
      if t.VoteCount(x) == Threshold() then t.VoteNewBlock(x) else t
    }

    // A block of some chain is committed; only the local chain moves the clock.
    function OnCommit(x: Block): (s: Leader) {
      if x.groupId == chainId && clock <= x.blockId - 1 then this.(clock := x.blockId) else this
    }
  }

  datatype Step = Receive(block: Block) | RemoteVote(block: Block, voter: nat) | Commit(block: Block)

  predicate StepOk(s: Leader, step: Step) {
    && step.block.groupId < s.groups
    && (step.RemoteVote? ==> step.voter < s.groups)
    // no local block is skipped
    && (step.Commit? && step.block.groupId == s.chainId ==> step.block.blockId - 1 <= s.clock)
  }

  function Take(s: Leader, step: Step): (s': Leader) {
    match step
    case Receive(x) => s.VoteNewBlock(x)
    case RemoteVote(x, voter) => s.OnRemoteVote(x, voter)
    case Commit(x) => s.OnCommit(x)
  }

  function Start(chainId: nat, groups: nat): Leader {
    Leader(chainId, groups, INVALID_WATERMARK, map[], [])
  }

  predicate ValidSteps(s: Leader, steps: seq<Step>)
    decreases |steps|
  {
    steps == [] || (StepOk(s, steps[0]) && ValidSteps(Take(s, steps[0]), steps[1..]))
  }

  function RunLeader(s: Leader, steps: seq<Step>): (s': Leader)
    decreases |steps|
  {
    if steps == [] then s else RunLeader(Take(s, steps[0]), steps[1..])
  }

  /* ---- what a leader should have emitted, from its steps alone ---- */

  // m is the largest own block id that has been committed, -1 if there is none.
  predicate LargestCommit(chainId: nat, steps: seq<Step>, m: int) {
    && (m == INVALID_WATERMARK || (0 <= m && Commit(Block(chainId, m)) in steps))
    && (forall t :: 0 <= t < |steps| && steps[t].Commit? && steps[t].block.groupId == chainId ==>
          steps[t].block.blockId <= m)
  }

  function ClockAfter(chainId: nat, steps: seq<Step>): (m: int)
    ensures LargestCommit(chainId, steps, m)
  {
    if steps == [] then INVALID_WATERMARK
    else
      var front, last := steps[..|steps| - 1], steps[|steps| - 1];
      var m := ClockAfter(chainId, front);
      if last.Commit? && last.block.groupId == chainId && m < last.block.blockId then last.block.blockId else m
  }

  // The groups whose votes on x have arrived.
  ghost function Voters(steps: seq<Step>, x: Block): set<nat> {
    set t | 0 <= t < |steps| && steps[t].RemoteVote? && steps[t].block == x :: steps[t].voter
  }

  // Block x has arrived, or more than half of the groups have voted on it.
  ghost predicate Due(chainId: nat, groups: nat, steps: seq<Step>, x: Block) {
    Receive(x) in steps || (x.groupId != chainId && 2 * |Voters(steps, x)| > groups)
  }

  // One order per block, at the step where it falls due: own blocks get their
  // number, blocks of other groups what has been committed of the own chain.
  ghost function Orders(chainId: nat, groups: nat, steps: seq<Step>): (log: Log) {
    if steps == [] then []
    else
      var front, x := steps[..|steps| - 1], steps[|steps| - 1].block;
      Orders(chainId, groups, front) +
      if Due(chainId, groups, steps, x) && !Due(chainId, groups, front, x)
      then [Vote(x.groupId, x.blockId, if x.groupId == chainId then x.blockId else ClockAfter(chainId, front))]
      else []
  }

  predicate IsVoteOn(e: Vote, x: Block) {
    e.groupId == x.groupId && e.blockId == x.blockId
  }

  // Other groups' blocks are first voted on in block order.
  predicate InOrder(log: Log, v: nat) {
    log == [] ||
    var front, last := log[..|log| - 1], log[|log| - 1];
    InOrder(front, v) && (last.groupId != v ==> last.blockId == VotesOn(front, last.groupId))
  }

  predicate MarksAscend(log: Log, v: nat) {
    log == [] ||
    var front, last := log[..|log| - 1], log[|log| - 1];
    MarksAscend(front, v) && (last.groupId != v ==> LastMark(front, v) <= last.watermark)
  }

  // Blocks with a vote in the log.
  ghost predicate Emitted(log: Log, x: Block) {
    exists i :: 0 <= i < |log| && IsVoteOn(log[i], x)
  }

  // At most one order per block.
  ghost predicate Distinct(log: Log) {
    forall i, j :: 0 <= i < j < |log| ==> !IsVoteOn(log[j], Block(log[i].groupId, log[i].blockId))
  }

  ghost predicate LogOk(s: Leader) {
    && s.chainId < s.groups
    && INVALID_WATERMARK <= LastMark(s.log, s.chainId) <= s.clock
    && MarksAscend(s.log, s.chainId)
    && Distinct(s.log)
    && (forall i :: 0 <= i < |s.log| ==> s.log[i].groupId < s.groups)
    && (forall i :: 0 <= i < |s.log| && s.log[i].groupId == s.chainId ==> s.log[i].watermark == s.log[i].blockId)
    && (forall x :: Lookup(s.tallies, x).finished <==> Emitted(s.log, x))
  }

  predicate VotersOk(s: Leader) {
    forall x: Block :: x in s.tallies ==> forall u :: u in s.tallies[x].votes ==> u < s.groups
  }

  // A block of another group that has not been voted on is below the threshold.
  ghost predicate BelowThreshold(s: Leader, x: Block) {
    x.groupId != s.chainId && !Lookup(s.tallies, x).finished ==> |Lookup(s.tallies, x).votes| < s.Threshold()
  }

  ghost predicate LeaderOk(s: Leader) {
    && LogOk(s)
    && VotersOk(s)
    && forall x :: BelowThreshold(s, x)
  }

  // The log part of a vote.
  lemma VoteKeepsLog(s: Leader, x: Block)
    requires LogOk(s) && x.groupId < s.groups
    ensures LogOk(s.VoteNewBlock(x))
  {
    hide VotersOk, BelowThreshold, Emitted, Distinct, MarksAscend, LastMark;
    if !Lookup(s.tallies, x).finished {
      var e := Vote(x.groupId, x.blockId, if x.groupId == s.chainId then x.blockId else s.clock);
      EmittedMore(s.log, e, x);
      DistinctMore(s.log, e, x);
      MarksMore(s.log, e, s.chainId);
    }
  }

  lemma DistinctMore(log: Log, e: Vote, x: Block)
    requires IsVoteOn(e, x) && Distinct(log) && !Emitted(log, x)
    ensures Distinct(log + [e])
  {
    forall i | 0 <= i < |log| ensures !IsVoteOn(log[i], x) {}
  }

  lemma MarksMore(log: Log, e: Vote, v: nat)
    requires MarksAscend(log, v) && (e.groupId != v ==> LastMark(log, v) <= e.watermark)
    ensures MarksAscend(log + [e], v)
    ensures LastMark(log + [e], v) == if e.groupId == v then LastMark(log, v) else e.watermark
  {
    assert (log + [e])[..|log|] == log;
  }

  lemma EmittedMore(log: Log, e: Vote, x: Block)
    requires IsVoteOn(e, x)
    ensures forall y :: Emitted(log + [e], y) <==> y == x || Emitted(log, y)
  {
    assert IsVoteOn((log + [e])[|log|], x);
    forall y | Emitted(log, y) ensures Emitted(log + [e], y) {
      var i :| 0 <= i < |log| && IsVoteOn(log[i], y);
      assert IsVoteOn((log + [e])[i], y);
    }
  }

  lemma VoteNewBlockOk(s: Leader, x: Block)
    requires LogOk(s) && VotersOk(s) && x.groupId < s.groups && forall y :: y != x ==> BelowThreshold(s, y)
    ensures LeaderOk(s.VoteNewBlock(x))
  {
    hide LogOk, Emitted, Distinct, MarksAscend;
    VoteKeepsLog(s, x);
    var t := s.VoteNewBlock(x);
    forall y ensures BelowThreshold(t, y) {
      assert y != x ==> BelowThreshold(s, y);
    }
  }

  lemma OnRemoteVoteOk(s: Leader, x: Block, voter: nat)
    requires LeaderOk(s) && x.groupId < s.groups && voter < s.groups
    ensures LeaderOk(s.OnRemoteVote(x, voter))
  {
    var t := s.AddVote(x, voter);
    assert forall y :: Lookup(t.tallies, y).finished == Lookup(s.tallies, y).finished;
    assert LogOk(t) && VotersOk(t);
    assert BelowThreshold(s, x);
    forall y | y != x ensures BelowThreshold(t, y) {
      assert BelowThreshold(s, y);
    }
    if t.VoteCount(x) == s.Threshold() {
      VoteNewBlockOk(t, x);
    } else {
      assert BelowThreshold(t, x);
    }
  }

  // The clock only ever moves on by one.
  lemma TakeOk(s: Leader, step: Step)
    requires LeaderOk(s) && StepOk(s, step)
    ensures LeaderOk(Take(s, step))
    ensures s.log <= Take(s, step).log
    ensures s.clock <= Take(s, step).clock <= s.clock + 1
  {
    match step
    case Receive(x) => VoteNewBlockOk(s, x);
    case RemoteVote(x, voter) => OnRemoteVoteOk(s, x, voter);
    case Commit(x) =>
      forall y ensures BelowThreshold(Take(s, step), y) { assert BelowThreshold(s, y); }
  }

  lemma {:induction false} RunOk(s: Leader, steps: seq<Step>)
    requires LeaderOk(s) && ValidSteps(s, steps)
    ensures LeaderOk(RunLeader(s, steps)) && s.log <= RunLeader(s, steps).log
    ensures RunLeader(s, steps).chainId == s.chainId && RunLeader(s, steps).groups == s.groups
    ensures s.clock <= RunLeader(s, steps).clock
    decreases |steps|
  {
    if steps != [] {
      TakeOk(s, steps[0]);
      RunOk(Take(s, steps[0]), steps[1..]);
    }
  }

  lemma {:induction false} BoundedSetSize(s: set<nat>, n: nat)
    requires forall u :: u in s ==> u < n
    ensures |s| <= n
  {
    if n > 0 {
      BoundedSetSize(s - {n - 1}, n - 1);
      assert s == (s - {n - 1}) + (if n - 1 in s then {n - 1} else {});
    } else {
      assert s == {};
    }
  }

  // The CHECK that no more votes than groups are counted.
  lemma CountBounded(s: Leader, x: Block)
    requires VotersOk(s)
    ensures s.VoteCount(x) <= s.groups
  {
    BoundedSetSize(Lookup(s.tallies, x).votes, s.groups);
  }

  lemma {:induction false} AscendingInOrder(log: Log, n: nat, v: nat)
    requires MarksAscend(log, v) && InOrder(log, v) && forall i :: 0 <= i < |log| ==> log[i].groupId < n
    ensures WellFormedLog(log, n, v)
  {
    if log != [] {
      AscendingInOrder(log[..|log| - 1], n, v);
    }
  }

  /* ---- the leader emits exactly that ---- */

  // The state of a leader after some steps.
  ghost predicate Tracks(s: Leader, steps: seq<Step>) {
    && s.clock == ClockAfter(s.chainId, steps)
    && s.log == Orders(s.chainId, s.groups, steps)
    && (forall x :: Lookup(s.tallies, x).finished <==> Due(s.chainId, s.groups, steps, x))
    && (forall x: Block :: x.groupId != s.chainId && !Lookup(s.tallies, x).finished ==>
          Lookup(s.tallies, x).votes == Voters(steps, x))
  }

  lemma VotersStep(steps: seq<Step>, x: Block)
    requires steps != []
    ensures var front, last := steps[..|steps| - 1], steps[|steps| - 1];
      Voters(steps, x) == Voters(front, x) + if last.RemoteVote? && last.block == x then {last.voter} else {}
  {
    var front, last := steps[..|steps| - 1], steps[|steps| - 1];
    forall u | u in Voters(steps, x)
      ensures u in Voters(front, x) || (last.RemoteVote? && last.block == x && last.voter == u)
    {
      var t :| 0 <= t < |steps| && steps[t].RemoteVote? && steps[t].block == x && steps[t].voter == u;
      assert t < |front| ==> front[t] == steps[t];
    }
    forall u | u in Voters(front, x) ensures u in Voters(steps, x) {
      var t :| 0 <= t < |front| && front[t].RemoteVote? && front[t].block == x && front[t].voter == u;
      assert steps[t] == front[t];
    }
  }

  // The vote that makes more than half is the one that reaches the threshold.
  lemma Reaches(votes: set<nat>, voter: nat, groups: nat)
    ensures |votes| <= |votes + {voter}|
    ensures 2 * |votes| <= groups ==> (|votes + {voter}| == groups / 2 + 1 <==> 2 * |votes + {voter}| > groups)
  {
    assert votes + {voter} == votes || |votes + {voter}| == |votes| + 1;
  }

  lemma DueStep(chainId: nat, groups: nat, steps: seq<Step>, x: Block)
    requires steps != []
    ensures var front, last := steps[..|steps| - 1], steps[|steps| - 1];
      && (last == Receive(x) || Due(chainId, groups, front, x) ==> Due(chainId, groups, steps, x))
      && (last.block != x || last.Commit? || (last.RemoteVote? && x.groupId == chainId) ==>
            (Due(chainId, groups, steps, x) <==> Due(chainId, groups, front, x)))
      && (last.RemoteVote? && last.block == x && x.groupId != chainId ==>
            (Due(chainId, groups, steps, x) <==>
               Receive(x) in front || 2 * |Voters(front, x) + {last.voter}| > groups))
  {
    var front, last := steps[..|steps| - 1], steps[|steps| - 1];
    assert steps == front + [last];
    VotersStep(steps, x);
    if last.RemoteVote? { Reaches(Voters(front, x), last.voter, groups); }
  }

  // Everything but the block of the step.
  ghost predicate OthersKept(s: Leader, s': Leader, x: Block) {
    && s'.chainId == s.chainId && s'.groups == s.groups
    && forall y :: y != x ==> Lookup(s'.tallies, y) == Lookup(s.tallies, y)
  }

  lemma TracksIf(s: Leader, s': Leader, steps: seq<Step>, x: Block)
    requires steps != [] && steps[|steps| - 1].block == x && Tracks(s, steps[..|steps| - 1]) && OthersKept(s, s', x)
    requires s'.clock == ClockAfter(s.chainId, steps)
    requires Lookup(s'.tallies, x).finished <==> Due(s.chainId, s.groups, steps, x)
    requires x.groupId != s.chainId && !Lookup(s'.tallies, x).finished ==>
      Lookup(s'.tallies, x).votes == Voters(steps, x)
    requires var front := steps[..|steps| - 1];
      s'.log == if Due(s.chainId, s.groups, steps, x) && !Due(s.chainId, s.groups, front, x)
                then s.log + [Vote(x.groupId, x.blockId, if x.groupId == s.chainId then x.blockId else s.clock)]
                else s.log
    ensures Tracks(s', steps)
  {
    hide Due, Voters, LargestCommit, ClockAfter;
    forall y | y != x
      ensures Lookup(s'.tallies, y).finished <==> Due(s.chainId, s.groups, steps, y)
      ensures Voters(steps, y) == Voters(steps[..|steps| - 1], y)
    {
      DueStep(s.chainId, s.groups, steps, y);
      VotersStep(steps, y);
    }
  }

  lemma CommitTracks(s: Leader, steps: seq<Step>)
    requires steps != [] && Tracks(s, steps[..|steps| - 1]) && steps[|steps| - 1].Commit?
    ensures Tracks(Take(s, steps[|steps| - 1]), steps)
  {
    hide Voters, LargestCommit, Orders, Tracks, Due;
    var x := steps[|steps| - 1].block;
    TracksAt(s, steps[..|steps| - 1], x);
    DueStep(s.chainId, s.groups, steps, x);
    VotersStep(steps, x);
    TracksIf(s, s.OnCommit(x), steps, x);
  }

  lemma ReceiveTracks(s: Leader, steps: seq<Step>)
    requires steps != [] && Tracks(s, steps[..|steps| - 1]) && steps[|steps| - 1].Receive?
    ensures Tracks(Take(s, steps[|steps| - 1]), steps)
  {
    hide Voters, LargestCommit, Orders, Tracks, Due;
    var x := steps[|steps| - 1].block;
    TracksAt(s, steps[..|steps| - 1], x);
    DueStep(s.chainId, s.groups, steps, x);
    TracksIf(s, s.VoteNewBlock(x), steps, x);
  }

  lemma RemoteTracks(s: Leader, steps: seq<Step>)
    requires steps != [] && Tracks(s, steps[..|steps| - 1]) && steps[|steps| - 1].RemoteVote?
    ensures Tracks(Take(s, steps[|steps| - 1]), steps)
  {
    hide Voters, LargestCommit, Orders, Tracks;
    var front, x, voter := steps[..|steps| - 1], steps[|steps| - 1].block, steps[|steps| - 1].voter;
    TracksAt(s, front, x);
    DueStep(s.chainId, s.groups, steps, x);
    VotersStep(steps, x);
    var t := Lookup(s.tallies, x);
    if x.groupId != s.chainId && !t.finished {
      Reaches(t.votes, voter, s.groups);
    }
    TracksIf(s, s.OnRemoteVote(x, voter), steps, x);
  }

  lemma TracksStep(s: Leader, steps: seq<Step>)
    requires steps != [] && Tracks(s, steps[..|steps| - 1])
    ensures Tracks(Take(s, steps[|steps| - 1]), steps)
  {
    hide Tracks, Take;
    match steps[|steps| - 1]
    case Receive(_) => ReceiveTracks(s, steps);
    case RemoteVote(_, _) => RemoteTracks(s, steps);
    case Commit(_) => CommitTracks(s, steps);
  }

  lemma TracksAt(s: Leader, steps: seq<Step>, x: Block)
    requires Tracks(s, steps)
    ensures s.clock == ClockAfter(s.chainId, steps)
    ensures Lookup(s.tallies, x).finished <==> Due(s.chainId, s.groups, steps, x)
    ensures x.groupId != s.chainId && !Lookup(s.tallies, x).finished ==> Lookup(s.tallies, x).votes == Voters(steps, x)
  {
  }

  lemma {:induction false} RunSplit(s: Leader, steps: seq<Step>)
    requires steps != []
    ensures var front := steps[..|steps| - 1];
      && RunLeader(s, steps) == Take(RunLeader(s, front), steps[|steps| - 1])
      && (ValidSteps(s, steps) ==> ValidSteps(s, front))
    decreases |steps|
  {
    var front := steps[..|steps| - 1];
    if front != [] {
      RunSplit(Take(s, steps[0]), steps[1..]);
      assert front[1..] == steps[1..][..|steps| - 2];
    }
  }

  lemma {:induction false} RunTracks(chainId: nat, groups: nat, steps: seq<Step>)
    ensures var s := RunLeader(Start(chainId, groups), steps);
      s.chainId == chainId && s.groups == groups && Tracks(s, steps)
  {
    hide Tracks, ValidSteps;
    if steps == [] {
      TracksNothing(chainId, groups);
    } else {
      var z, front := Start(chainId, groups), steps[..|steps| - 1];
      RunTracks(chainId, groups, front);
      RunSplit(z, steps);
      TracksStep(RunLeader(z, front), steps);
    }
  }

  lemma TracksNothing(chainId: nat, groups: nat)
    ensures Tracks(Start(chainId, groups), [])
  {
    forall x ensures Voters([], x) == {} {}
  }

  // Every order was emitted at the step where its block fell due, with the watermark of that moment.
  ghost predicate StampedAt(chainId: nat, groups: nat, steps: seq<Step>, e: Vote, t: nat) {
    && t < |steps| && steps[t].block == Block(e.groupId, e.blockId)
    && Due(chainId, groups, steps[..t + 1], steps[t].block) && !Due(chainId, groups, steps[..t], steps[t].block)
    && (e.groupId == chainId ==> e.watermark == e.blockId)
    && (e.groupId != chainId ==> LargestCommit(chainId, steps[..t], e.watermark))
  }

  lemma {:induction false} EveryStamp(chainId: nat, groups: nat, steps: seq<Step>)
    ensures forall e :: e in Orders(chainId, groups, steps) ==> exists t: nat :: StampedAt(chainId, groups, steps, e, t)
  {
    hide Due, LargestCommit;
    if steps != [] {
      var front, n := steps[..|steps| - 1], |steps| - 1;
      EveryStamp(chainId, groups, front);
      assert steps[..n + 1] == steps && steps[..n] == front;
      forall e | e in Orders(chainId, groups, steps) ensures exists t: nat :: StampedAt(chainId, groups, steps, e, t) {
        if e in Orders(chainId, groups, front) {
          var t: nat :| StampedAt(chainId, groups, front, e, t);
          assert front[..t + 1] == steps[..t + 1] && front[..t] == steps[..t];
          assert StampedAt(chainId, groups, steps, e, t);
        } else {
          assert StampedAt(chainId, groups, steps, e, n);
        }
      }
    }
  }

  // Leader 0 of two groups commits its first block and then receives one of group 1.
  lemma FirstStamp()
    ensures var steps := [Commit(Block(0, 0)), Receive(Block(1, 0))];
      ValidSteps(Start(0, 2), steps) && RunLeader(Start(0, 2), steps).log == [Vote(1, 0, 0)]
  {
    var steps := [Commit(Block(0, 0)), Receive(Block(1, 0))];
    assert steps[1..] == [Receive(Block(1, 0))] && steps[1..][1..] == [];
  }

  // Over every run of a leader: its log is exactly the orders that have fallen due,
  // each with its watermark, so at most one order per block across both triggers; its
  // clock and tallies are what its steps say. As soon as blocks of other groups reach
  // the leader in block order, its log is well formed, which is what the global order
  // assumes of it.
  lemma LeaderRuns(chainId: nat, groups: nat, steps: seq<Step>)
    requires chainId < groups && ValidSteps(Start(chainId, groups), steps)
    ensures var s := RunLeader(Start(chainId, groups), steps);
      && Distinct(s.log)
      && (forall x :: Emitted(s.log, x) <==> Lookup(s.tallies, x).finished)
      && MarksAscend(s.log, chainId)
      && (forall x :: BelowThreshold(s, x))
      && s.log == Orders(chainId, groups, steps) && LargestCommit(chainId, steps, s.clock)
      && (forall x :: Emitted(s.log, x) <==> Due(chainId, groups, steps, x))
      && (forall x: Block :: x.groupId != chainId && !Due(chainId, groups, steps, x) ==>
            Lookup(s.tallies, x).votes == Voters(steps, x))
      && (InOrder(s.log, chainId) ==> WellFormedLog(s.log, groups, chainId))
  {
    var z := Start(chainId, groups);
    assert LeaderOk(z);
    RunOk(z, steps);
    RunTracks(chainId, groups, steps);
    var s := RunLeader(z, steps);
    if InOrder(s.log, chainId) {
      AscendingInOrder(s.log, groups, chainId);
    }
  }
}
