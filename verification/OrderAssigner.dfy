/**
  The order assigner of a group leader. Tallies live in a ring of slots that is
  reused for later blocks; it computes what the unbounded tally would as long as
  no slot is accessed for a block older than the one it holds.
 */
module OrderAssigner {
  import opened VoteLogs
  import opened LeaderSpec

  const MAX_GROUP_SIZE: nat := 100
  const MAX_BLOCK_QUEUE_SIZE: nat := 256

  datatype Slot = Slot(blockId: nat, votes: set<nat>, finished: bool)

  class Assigner {
    const chainId: nat
    const groups: nat
    const slots: array2<Slot>
    var myClock: int
    var log: Log                 // orders handed to the leader's replicated log
    ghost var model: Leader
    ghost var accessed: set<Block>   // blocks whose slot has been accessed

    // Slot k of a chain holds the newest block that was accessed with that residue.
    ghost predicate SlotOk(c: nat, k: nat)
      requires slots.Length0 == MAX_GROUP_SIZE && slots.Length1 == MAX_BLOCK_QUEUE_SIZE
      requires c < MAX_GROUP_SIZE && k < MAX_BLOCK_QUEUE_SIZE
      reads `model, slots
    {
      var s := slots[c, k];
      && (if s.blockId % MAX_BLOCK_QUEUE_SIZE == k then
            Tally(s.votes, s.finished) == Lookup(model.tallies, Block(c, s.blockId))
          else s == Slot(0, {}, false))
      && forall x :: x in model.tallies && x.groupId == c && x.blockId % MAX_BLOCK_QUEUE_SIZE == k ==>
           s.blockId % MAX_BLOCK_QUEUE_SIZE == k && x.blockId <= s.blockId
    }

    ghost predicate RingOk()
      reads `model, slots
    {
      && slots.Length0 == MAX_GROUP_SIZE && slots.Length1 == MAX_BLOCK_QUEUE_SIZE
      && forall c, k :: 0 <= c < MAX_GROUP_SIZE && 0 <= k < MAX_BLOCK_QUEUE_SIZE ==> SlotOk(c, k)
    }

    ghost predicate Valid()
      reads this, slots
    {
      && RingOk() && HistoryOk()
      && VotersOk(model)
      && groups <= MAX_GROUP_SIZE
      && model.chainId == chainId && model.groups == groups && model.clock == myClock && model.log == log
    }

    // A slot is as it was made, or holds a block that has been accessed.
    ghost predicate HistoryOk()
      requires slots.Length0 == MAX_GROUP_SIZE && slots.Length1 == MAX_BLOCK_QUEUE_SIZE
      reads `accessed, slots
    {
      forall c, k :: 0 <= c < MAX_GROUP_SIZE && 0 <= k < MAX_BLOCK_QUEUE_SIZE ==>
        slots[c, k].blockId == 0 ||
          (slots[c, k].blockId % MAX_BLOCK_QUEUE_SIZE == k && Block(c, slots[c, k].blockId) in accessed)
    }

    // The slot of block x does not already hold a later block.
    ghost predicate NotStale(x: Block)
      requires slots.Length0 == MAX_GROUP_SIZE && slots.Length1 == MAX_BLOCK_QUEUE_SIZE
      reads slots
    {
      x.groupId < MAX_GROUP_SIZE && slots[x.groupId, x.blockId % MAX_BLOCK_QUEUE_SIZE].blockId <= x.blockId
    }

    constructor (chainId_: nat, groups_: nat)
      requires chainId_ < groups_ <= MAX_GROUP_SIZE
      ensures Valid() && fresh(slots) && model == Start(chainId_, groups_) && accessed == {}
      ensures chainId == chainId_ && groups == groups_
    {
      chainId, groups := chainId_, groups_;
      myClock := INVALID_WATERMARK;
      log := [];
      slots := new Slot[MAX_GROUP_SIZE, MAX_BLOCK_QUEUE_SIZE]((i, j) => Slot(0, {}, false));
      model, accessed := Start(chainId_, groups_), {};
    }

    // A slot that holds an older block is cleared for x.
    method GetRef(x: Block) returns (slot: Slot)
      requires RingOk() && HistoryOk() && NotStale(x)
      modifies slots, `accessed
      ensures RingOk() && HistoryOk() && accessed == old(accessed) + {x}
      ensures slots[x.groupId, x.blockId % MAX_BLOCK_QUEUE_SIZE] == slot
      ensures slot.blockId == x.blockId && Tally(slot.votes, slot.finished) == Lookup(model.tallies, x)
    {
      var k := x.blockId % MAX_BLOCK_QUEUE_SIZE;
      assert SlotOk(x.groupId, k);
      accessed := accessed + {x};
      if slots[x.groupId, k].blockId < x.blockId {
        slots[x.groupId, k] := Slot(x.blockId, {}, false);
        forall c, j | 0 <= c < MAX_GROUP_SIZE && 0 <= j < MAX_BLOCK_QUEUE_SIZE ensures SlotOk(c, j) {
          assert old(SlotOk(c, j));
        }
      }
      slot := slots[x.groupId, k];
    }

    // Write back the slot that GetRef returned.
    method SetRef(x: Block, votes: set<nat>, finished: bool, ghost next: Leader)
      requires RingOk() && HistoryOk() && NotStale(x)
      requires slots[x.groupId, x.blockId % MAX_BLOCK_QUEUE_SIZE].blockId == x.blockId
      requires next.tallies == model.tallies[x := Tally(votes, finished)]
      modifies slots, `model
      ensures RingOk() && HistoryOk() && NotStale(x) && model == next
    {
      var k := x.blockId % MAX_BLOCK_QUEUE_SIZE;
      slots[x.groupId, k] := Slot(x.blockId, votes, finished);
      model := next;
      forall c, j | 0 <= c < MAX_GROUP_SIZE && 0 <= j < MAX_BLOCK_QUEUE_SIZE ensures SlotOk(c, j) {
        assert old(SlotOk(c, j));
      }
    }

    // Emit the order of a block unless that has been done before.
    method VoteNewBlock(x: Block) returns (voted: bool)
      requires Valid() && NotStale(x)
      modifies this, slots
      ensures Valid() && NotStale(x) && model == old(model).VoteNewBlock(x) && accessed == old(accessed) + {x}
      ensures voted == !Lookup(old(model).tallies, x).finished
    {
      var slot := GetRef(x);
      if slot.finished {
        return false;
      }
      var mark := if chainId == x.groupId then x.blockId else myClock;
      SetRef(x, slot.votes, true, model.VoteNewBlock(x));
      log := log + [Vote(x.groupId, x.blockId, mark)];
      return true;
    }

    // -1 when the block is local or already voted on.
    method AddVoteForBlock(x: Block, voter: nat) returns (count: int)
      requires Valid() && NotStale(x) && voter < groups
      modifies slots, `model, `accessed
      ensures Valid() && NotStale(x) && model == old(model).AddVote(x, voter)
      ensures old(accessed) <= accessed <= old(accessed) + {x}
      ensures count == model.VoteCount(x) <= groups
    {
      if chainId == x.groupId {
        return -1;
      }
      var slot := GetRef(x);
      if slot.finished {
        return -1;
      }
      SetRef(x, slot.votes + {voter}, false, model.AddVote(x, voter));
      CountBounded(model, x);
      return |slot.votes + {voter}|;
    }

    method GetVoteForBlock(x: Block) returns (count: int)
      requires Valid() && NotStale(x)
      modifies slots, `accessed
      ensures Valid() && NotStale(x) && old(accessed) <= accessed <= old(accessed) + {x}
      ensures count == model.VoteCount(x)
    {
      if chainId == x.groupId {
        return -1;
      }
      var slot := GetRef(x);
      return if slot.finished then -1 else |slot.votes|;
    }

    // A remote vote arrives; the vote that reaches the threshold forces the local one.
    method OnRemoteVote(x: Block, voter: nat)
      requires Valid() && NotStale(x) && voter < groups
      modifies this, slots
      ensures Valid() && NotStale(x) && model == old(model).OnRemoteVote(x, voter)
      ensures old(accessed) <= accessed <= old(accessed) + {x}
    {
      var count := AddVoteForBlock(x, voter);
      var minThreshold := groups / 2 + 1; // more than half
      if count != minThreshold {
        return;
      }
      var _ := VoteNewBlock(x);
    }

    method IncreaseLocalClock(x: Block) returns (moved: bool)
      requires Valid()
      requires chainId == x.groupId ==> x.blockId - 1 <= myClock
      modifies this
      ensures Valid() && model == old(model).OnCommit(x) && accessed == old(accessed)
      ensures moved ==> myClock == old(myClock) + 1
      ensures !moved ==> myClock == old(myClock)
    {
      if chainId == x.groupId {
        if x.blockId - 1 < myClock {
          return false; // a stale call
        }
        myClock := x.blockId;
        model := model.OnCommit(x);
        forall c, k | 0 <= c < MAX_GROUP_SIZE && 0 <= k < MAX_BLOCK_QUEUE_SIZE ensures SlotOk(c, k) {
          assert old(SlotOk(c, k));
        }
        return true;
      }
      return false; // a block of another region
    }
  }

  // No access so far to a block of x's chain that is 256 or more blocks later.
  ghost predicate InWindow(accessed: set<Block>, x: Block) {
    forall y :: y in accessed && y.groupId == x.groupId ==> y.blockId < x.blockId + 256
  }

  lemma WindowNotStale(a: Assigner, x: Block)
    requires a.Valid() && x.groupId < MAX_GROUP_SIZE && InWindow(a.accessed, x)
    ensures a.NotStale(x)
  {
    hide Assigner.RingOk, VotersOk;
    assert a.slots.Length0 == MAX_GROUP_SIZE && a.slots.Length1 == MAX_BLOCK_QUEUE_SIZE by { RingShape(a); }
    var held := a.slots[x.groupId, x.blockId % MAX_BLOCK_QUEUE_SIZE].blockId;
    if held != 0 {
      assert Block(x.groupId, held) in a.accessed;
      SameResidue(held, x.blockId);
    }
  }

  lemma RingShape(a: Assigner)
    requires a.RingOk()
    ensures a.slots.Length0 == MAX_GROUP_SIZE && a.slots.Length1 == MAX_BLOCK_QUEUE_SIZE
  {
  }

  lemma SameResidue(held: nat, b: nat)
    requires held % MAX_BLOCK_QUEUE_SIZE == b % MAX_BLOCK_QUEUE_SIZE && held < b + MAX_BLOCK_QUEUE_SIZE
    ensures held <= b
  {
  }

  // No step goes back 256 or more blocks behind the newest one of its chain.
  ghost predicate Windowed(steps: seq<Step>) {
    forall t, u ::
      && 0 <= t < u < |steps| && !steps[t].Commit? && !steps[u].Commit?
      && steps[t].block.groupId == steps[u].block.groupId ==>
      steps[t].block.blockId < steps[u].block.blockId + 256
  }

  ghost predicate AccessedIn(accessed: set<Block>, steps: seq<Step>, t: nat)
    requires t <= |steps|
  {
    forall y :: y in accessed ==> exists u :: 0 <= u < t && !steps[u].Commit? && steps[u].block == y
  }

  // Over every such run the ring computes what the unbounded tally does, and
  // hands out exactly the orders that have fallen due.
  method RunAssigner(chainId: nat, groups: nat, steps: seq<Step>) returns (a: Assigner)
    requires chainId < groups <= MAX_GROUP_SIZE && ValidSteps(Start(chainId, groups), steps) && Windowed(steps)
    ensures a.Valid() && a.model == RunLeader(Start(chainId, groups), steps)
    ensures a.log == Orders(chainId, groups, steps) && a.myClock == ClockAfter(chainId, steps)
  {
    hide VotersOk, Orders, ClockAfter, Assigner.RingOk, Assigner.HistoryOk;
    RunTracks(chainId, groups, steps);
    a := new Assigner(chainId, groups);
    ghost var whole := RunLeader(a.model, steps);
    assert steps[0..] == steps;
    for t := 0 to |steps|
      invariant a.Valid() && fresh(a) && fresh(a.slots) && a.groups == groups
      invariant ValidSteps(a.model, steps[t..]) && RunLeader(a.model, steps[t..]) == whole
      invariant AccessedIn(a.accessed, steps, t)
    {
      var step := steps[t];
      assert steps[t..][0] == step && steps[t..][1..] == steps[t + 1..];
      RingShape(a);
      if !step.Commit? {
        WindowKept(a.accessed, steps, t);
        WindowNotStale(a, step.block);
      }
      match step {
        case Receive(x) => var _ := a.VoteNewBlock(x);
        case RemoteVote(x, voter) => a.OnRemoteVote(x, voter);
        case Commit(x) => var _ := a.IncreaseLocalClock(x);
      }
    }
  }

  lemma WindowKept(accessed: set<Block>, steps: seq<Step>, t: nat)
    requires t < |steps| && Windowed(steps) && AccessedIn(accessed, steps, t) && !steps[t].Commit?
    ensures InWindow(accessed, steps[t].block) && AccessedIn(accessed + {steps[t].block}, steps, t + 1)
  {
  }
}
