/**
  The inter-chain order manager as the objects it is made of: cells updated in
  place, chains that own them, and a buffer of heads that points into the chains.
  Every method is proved to compute its counterpart on values.
 */
module OrderManager {
  import opened VoteLogs
  import opened OrderSpec
  import opened OrderInvariant
  import opened OrderDelivery
  import opened OrderRuns

  class Cell {
    const groupId: nat
    const blockId: nat
    var watermarks: seq<int>
    var isReal: seq<bool>

    ghost function View(): (c: CellState)
      reads this
    {
      CellState(groupId, blockId, watermarks, isReal)
    }

    constructor (groupCount: nat, groupId_: nat, blockId_: nat)
      requires groupId_ < groupCount
      ensures View() == NewCell(groupCount, groupId_, blockId_)
    {
      groupId, blockId := groupId_, blockId_;
      watermarks := seq(groupCount, i => INVALID_WATERMARK);
      isReal := seq(groupCount, i => false);
      new;
      var _ := SetIthWaterMark(groupId_, blockId_); // the own mark
    }

    method MustLessThan(rhs: Cell) returns (less: bool)
      requires |watermarks| == |isReal| == |rhs.watermarks| == |rhs.isReal|
      requires groupId == rhs.groupId && blockId == rhs.blockId ==> this == rhs
      ensures less <==> View().MustLessThan(rhs.View())
    {
      if groupId == rhs.groupId && blockId == rhs.blockId {
        return true;
      }
      for i := 0 to |watermarks|
        invariant forall j :: 0 <= j < i ==> isReal[j] && rhs.isReal[j] && watermarks[j] == rhs.watermarks[j]
      {
        if isReal[i] {
          if watermarks[i] < rhs.watermarks[i] {
            assert View().SettledAt(rhs.View(), i);
            return true;
          }
          if rhs.isReal[i] && watermarks[i] == rhs.watermarks[i] {
            continue;
          }
        }
        forall k | 0 <= k <= |watermarks| ensures !View().SettledAt(rhs.View(), k) {
          assert k > i ==> !(isReal[i] && rhs.isReal[i] && watermarks[i] == rhs.watermarks[i]);
        }
        return false;
      }
      less := if blockId != rhs.blockId then blockId < rhs.blockId else groupId < rhs.groupId;
      assert less <==> View().SettledAt(rhs.View(), |watermarks|);
    }

    method SetIthWaterMark(i: nat, value: int) returns (changed: bool)
      requires i < |watermarks| == |isReal|
      requires !isReal[i] ==> watermarks[i] <= value
      modifies this
      ensures changed == !old(isReal[i])
      ensures View() == if changed then old(View()).WithMark(i, value) else old(View())
    {
      if isReal[i] {
        return false;
      }
      isReal := isReal[i := true];
      watermarks := watermarks[i := value];
      return true;
    }

    // Raise an entry that is not real.
    method RaiseEstimate(i: nat, value: int)
      requires i < |watermarks| == |isReal|
      requires !isReal[i] ==> groupId != i && watermarks[i] <= value
      modifies this
      ensures View() == old(View()).WithEstimate(i, value)
    {
      if isReal[i] {
        return;
      }
      assert groupId != i && watermarks[i] <= value;
      watermarks := watermarks[i := value];
    }

    // The estimates of a new head start from the watermarks of the previous one.
    method InheritFrom(prev: Cell)
      requires prev != this && |watermarks| == |isReal| == |prev.watermarks|
      requires forall i :: 0 <= i < |watermarks| && isReal[i] ==> prev.watermarks[i] <= watermarks[i]
      modifies this
      ensures View() == old(View()).Inherit(prev.View())
    {
      for i := 0 to |prev.watermarks|
        invariant isReal == old(isReal) && |watermarks| == old(|watermarks|)
        invariant forall j :: 0 <= j < |watermarks| ==>
          watermarks[j] == if isReal[j] || i <= j then old(watermarks[j]) else prev.watermarks[j]
      {
        if isReal[i] {
          assert prev.watermarks[i] <= watermarks[i];
          continue;
        }
        watermarks := watermarks[i := prev.watermarks[i]];
      }
    }
  }

  class InterChainOrderManager {
    var chains: seq<seq<Cell>>
    var heads: seq<Cell>          // heads[g] is the next unordered block of group g
    var delivered: seq<Block>     // what the deliver callback has been called with
    ghost const logs: Logs        // the environment: all votes ever cast
    ghost var seen: seq<nat>      // how far each log has been received
    ghost var model: Replica
    ghost var cells: set<Cell>    // all the cells owned by the chains

    // chains[g][b] is the cell of block (g, b), and heads[g] points into chains[g].
    ghost predicate OwnedChain(g: nat)
      requires g < |chains| == |heads|
      reads `chains, `heads, `cells
    {
      && (forall b :: 0 <= b < |chains[g]| ==>
            chains[g][b] in cells && chains[g][b].groupId == g && chains[g][b].blockId == b)
      && heads[g].groupId == g && heads[g].blockId < |chains[g]| && heads[g] == chains[g][heads[g].blockId]
    }

    // The objects of chain g hold exactly what the model says.
    ghost predicate RepresentsChain(g: nat)
      requires g < |chains| == |heads| == |model.chains| == |model.heads|
      requires OwnedChain(g)
      reads `chains, `heads, `model, `cells, cells
    {
      && |chains[g]| == |model.chains[g]|
      && heads[g].blockId == model.heads[g]
      && forall b :: 0 <= b < |chains[g]| ==> chains[g][b].View() == model.chains[g][b]
    }

    ghost predicate Represents()
      reads `chains, `heads, `delivered, `model, `cells, cells
      ensures Represents() ==> |model.chains| == |model.heads| == |heads| == |chains|
    {
      && |model.chains| == |model.heads| == |heads| == |chains|
      && delivered == model.delivered
      && (forall g {:trigger chains[g]} {:trigger heads[g]} {:trigger model.chains[g]} {:trigger OwnedChain(g)} ::
            0 <= g < |chains| ==> OwnedChain(g) && RepresentsChain(g))
    }

    ghost predicate Valid()
      reads this, cells
    {
      && Represents()
      && model.Shaped(|chains|)
      && Inv(logs, seen, model)
      && model.Quiescent()
    }

    // setGroupCount, for at least two groups.
    constructor (groupCount: nat, ghost logs_: Logs)
      requires 2 <= groupCount == |logs_| && WellFormedLogs(logs_)
      ensures Valid() && fresh(cells)
      ensures logs == logs_ && seen == Seen(groupCount, []) && model == Initial(groupCount)
    {
      hide Inv, Replica.Quiescent;
      logs := logs_;
      seen := seq(groupCount, v => 0);
      model := Initial(groupCount);
      delivered := [];
      chains := [];
      heads := [];
      cells := {};
      new;
      for i := 0 to groupCount
        invariant |chains| == |heads| == i
        invariant fresh(cells)
        invariant forall g :: 0 <= g < i ==> |chains[g]| == 1 && chains[g][0] in cells
        invariant forall g :: 0 <= g < i ==>
          heads[g] == chains[g][0] && chains[g][0].View() == NewCell(groupCount, g, 0)
        invariant model == Initial(groupCount) && delivered == [] && seen == seq(groupCount, v => 0)
      {
        var cell := new Cell(groupCount, i, 0);
        chains := chains + [[cell]];
        heads := heads + [cell];
        cells := cells + {cell};
      }
      InitialOk(logs_);
      InitialQuiescent(groupCount);
      forall g | 0 <= g < groupCount ensures OwnedChain(g) && RepresentsChain(g) {}
      assert Represents();
    }

    // Insert a new cell with the given id at the end of a chain.
    method Append(groupId: nat, blockId: nat)
      requires Represents() && model.Shaped(|chains|) && groupId < |chains| && blockId == |chains[groupId]|
      modifies this`chains, this`cells, this`model
      ensures Represents() && model == old(model).Touch(groupId, blockId)
      ensures |chains| == old(|chains|) && |chains[groupId]| == blockId + 1
      ensures fresh(cells - old(cells)) && old(cells) <= cells
    {
      var c := new Cell(|chains|, groupId, blockId);
      chains := chains[groupId := chains[groupId] + [c]];
      cells := cells + {c};
      model := model.Touch(groupId, blockId);
      assert c.View() == model.chains[groupId][blockId];
      forall g | 0 <= g < |chains| ensures OwnedChain(g) && RepresentsChain(g) {
        assert old(OwnedChain(g) && RepresentsChain(g));
        assert g != groupId ==> chains[g] == old(chains[g]) && model.chains[g] == old(model.chains[g]);
      }
    }

    method CreateBlockIfNotExist(groupId: nat, blockId: nat) returns (cell: Cell)
      requires Represents() && model.Shaped(|chains|) && groupId < |chains| && blockId <= |model.chains[groupId]|
      modifies this`chains, this`cells, this`model
      ensures Represents() && blockId <= |old(model).chains[groupId]| && model == old(model).Touch(groupId, blockId)
      ensures |chains| == old(|chains|) && blockId < |chains[groupId]| && cell == chains[groupId][blockId]
      ensures cell.groupId == groupId && cell.blockId == blockId < |model.chains[groupId]|
      ensures fresh(cells - old(cells)) && old(cells) <= cells
    {
      while |chains[groupId]| <= blockId
        invariant |chains| == old(|chains|) && Represents()
        invariant if |chains[groupId]| <= blockId then model == old(model) && chains == old(chains)
                  else model == old(model).Touch(groupId, blockId)
        invariant fresh(cells - old(cells)) && old(cells) <= cells
        decreases blockId + 1 - |chains[groupId]|
      {
        Append(groupId, blockId);
      }
      cell := chains[groupId][blockId];
    }

    method GlobalMinimum() returns (left: Cell?)
      requires Represents() && model.Shaped(|chains|)
      ensures left != null ==>
        && left.groupId < |heads| && left == heads[left.groupId] && left.blockId == model.heads[left.groupId]
        && model.IsMinimum(left.groupId)
      ensures left == null ==> model.Quiescent()
    {
      hide CellState.MustLessThan;
      for g := 0 to |heads|
        invariant forall h :: 0 <= h < g ==> !model.IsMinimum(h)
      {
        var canPop := true;
        var h := 0;
        while h < |heads|
          invariant 0 <= h <= |heads|
          invariant canPop
          invariant forall k :: 0 <= k < h ==> model.Head(g).MustLessThan(model.Head(k))
        {
          assert heads[g].View() == model.Head(g) && heads[h].View() == model.Head(h);
          assert model.Head(g).Id() == Block(g, model.heads[g]) && model.Head(h).Id() == Block(h, model.heads[h]);
          var less := heads[g].MustLessThan(heads[h]);
          if !less {
            canPop := false;
            break;
          }
          h := h + 1;
        }
        if canPop {
          assert heads[g].View().Id() == Block(g, model.heads[g]);
          return heads[g];
        }
      }
      return null;
    }

    // Replace the head prev by its successor next.
    method Exchange(prev: Cell, next: Cell)
      requires Represents() && model.Shaped(|chains|) && prev.groupId < |chains| && heads[prev.groupId] == prev
      requires prev.blockId + 1 < |chains[prev.groupId]| && next == chains[prev.groupId][prev.blockId + 1]
      requires model.Exchangeable(prev.groupId)
      modifies this`heads, this`model, cells
      ensures Represents() && prev.blockId + 1 < |old(model).chains[prev.groupId]|
      ensures var g, b, s := prev.groupId, prev.blockId, old(model);
        model == s.WithCell(g, b + 1, s.chains[g][b + 1].Inherit(s.chains[g][b])).(heads := s.heads[g := b + 1])
    {
      ghost var g, b := prev.groupId, prev.blockId;
      assert prev.View() == model.chains[g][b] && next.View() == model.chains[g][b + 1];
      heads := heads[next.groupId := next];
      next.InheritFrom(prev);
      model := model.WithCell(g, b + 1, next.View()).(heads := model.heads[g := b + 1]);
      forall h | 0 <= h < |chains| ensures OwnedChain(h) && RepresentsChain(h) {
        assert old(OwnedChain(h) && RepresentsChain(h));
        forall a | 0 <= a < |chains[h]| ensures chains[h][a].View() == model.chains[h][a] {
          assert chains[h][a] == next <==> h == g && a == b + 1;
        }
      }
    }

    // A new watermark of a group bounds all its later ones from below.
    method UpdateEstimate(groupId: nat, watermark: int)
      requires Represents() && model.Shaped(|chains|) && groupId < |chains|
      requires forall g :: 0 <= g < |heads| && !model.Head(g).isReal[groupId] ==>
                 g != groupId && model.Head(g).watermarks[groupId] <= watermark
      modifies this`model, cells
      ensures Represents() && model == old(model).Raise(groupId, watermark)
    {
      for g := 0 to |heads|
        invariant model == old(model)
        invariant forall h, b :: 0 <= h < |chains| && 0 <= b < |chains[h]| ==>
          chains[h][b].View() == if h < g && b == model.heads[h] then model.Head(h).WithEstimate(groupId, watermark)
                                 else model.chains[h][b]
      {
        var it := heads[g];
        assert it == chains[g][model.heads[g]] && it.View() == model.Head(g);
        it.RaiseEstimate(groupId, watermark);
      }
      model := model.Raise(groupId, watermark);
      forall g | 0 <= g < |chains| ensures OwnedChain(g) && RepresentsChain(g) {
        assert old(OwnedChain(g) && RepresentsChain(g));
        forall b | 0 <= b < |chains[g]| ensures chains[g][b].View() == model.chains[g][b] {
          assert chains[g][b].View() == if b == model.heads[g] then old(model).Head(g).WithEstimate(groupId, watermark)
                                        else old(model).chains[g][b];
        }
      }
    }

    method Deliver(cell: Cell)
      requires Represents()
      modifies this`delivered, this`model
      ensures Represents()
      ensures model == old(model).(delivered := old(model).delivered + [Block(cell.groupId, cell.blockId)])
    {
      delivered := delivered + [Block(cell.groupId, cell.blockId)];
      model := model.(delivered := model.delivered + [Block(cell.groupId, cell.blockId)]);
    }

    // Deliver the minimum prev and put its successor in its place.
    method DeliverHead(prev: Cell)
      requires Represents() && model.Shaped(|chains|)
      requires prev.groupId < |heads| && heads[prev.groupId] == prev && prev.blockId == model.heads[prev.groupId]
      requires model.Exchangeable(prev.groupId)
      modifies this`chains, this`heads, this`delivered, this`cells, this`model, cells
      ensures Represents() && model == old(model).Pop(prev.groupId) && |chains| == old(|chains|)
      ensures fresh(cells - old(cells)) && old(cells) <= cells
    {
      hide Represents, Replica.Exchangeable;
      PopInSteps(model, prev.groupId);
      Deliver(prev);
      var next := CreateBlockIfNotExist(prev.groupId, prev.blockId + 1);
      Exchange(prev, next);
    }

    method PopBlocks()
      requires Represents() && Inv(logs, seen, model) && model.Shaped(|logs|) && |chains| == |logs|
      requires SeenOk(logs, seen) && 2 <= |logs|
      modifies this`chains, this`heads, this`delivered, this`cells, this`model, cells
      ensures Represents() && model == PopAll(logs, seen, old(model)) && |chains| == |logs|
      ensures fresh(cells - old(cells)) && old(cells) <= cells
    {
      hide Inv, Represents, PopAll, SumBudget, Replica.Pop, Replica.Exchangeable, Replica.IsMinimum, Replica.Quiescent,
           CellState.Shaped;
      var prev := GlobalMinimum();
      while prev != null
        invariant Represents() && Inv(logs, seen, model) && model.Shaped(|logs|) && |chains| == |logs|
        invariant PopAll(logs, seen, model) == PopAll(logs, seen, old(model))
        invariant fresh(cells - old(cells)) && old(cells) <= cells
        invariant prev != null ==>
          && prev.groupId < |heads| && prev == heads[prev.groupId] && prev.blockId == model.heads[prev.groupId]
          && model.IsMinimum(prev.groupId)
        invariant prev == null ==> model.Quiescent()
        decreases SumBudget(logs, seen, |logs|) - |model.delivered|, prev != null
      {
        PopAllStep(logs, seen, model, prev.groupId);
        DeliverHead(prev);
        prev := GlobalMinimum();
      }
      NothingToPop(logs, seen, model);
    }

    // Mark a vote that has not been marked before.
    method Mark(cell: Cell, voteGroupId: nat, voteGroupWatermark: int) returns (changed: bool)
      requires Represents() && model.Shaped(|chains|) && voteGroupId < |chains|
      requires cell.groupId < |chains| && cell.blockId < |chains[cell.groupId]|
      requires cell == chains[cell.groupId][cell.blockId] && cell.blockId < |model.chains[cell.groupId]|
      requires var c := model.chains[cell.groupId][cell.blockId];
        !c.isReal[voteGroupId] ==> c.watermarks[voteGroupId] <= voteGroupWatermark
      modifies this`model, cells
      ensures Represents()
      ensures cell.groupId < |old(model).chains| && cell.blockId < |old(model).chains[cell.groupId]|
      ensures var s, g, b := old(model), cell.groupId, cell.blockId;
        && voteGroupId < |s.chains[g][b].watermarks| == |s.chains[g][b].isReal|
        && changed == !s.chains[g][b].isReal[voteGroupId]
        && model == if changed then s.WithCell(g, b, s.chains[g][b].WithMark(voteGroupId, voteGroupWatermark)) else s
    {
      assert cell.View() == model.chains[cell.groupId][cell.blockId] && cell.View().Shaped(|chains|);
      changed := cell.SetIthWaterMark(voteGroupId, voteGroupWatermark);
      if changed {
        model := model.WithCell(cell.groupId, cell.blockId, cell.View());
      }
      forall g | 0 <= g < |chains| ensures OwnedChain(g) && RepresentsChain(g) {
        assert old(OwnedChain(g) && RepresentsChain(g));
        forall b | 0 <= b < |chains[g]| ensures chains[g][b].View() == model.chains[g][b] {
          assert chains[g][b] == cell <==> g == cell.groupId && b == cell.blockId;
        }
      }
    }

    // The rest of pushDecision, once a new vote is marked.
    method RaiseAndPop(voteGroupId: nat, voteGroupWatermark: int, ghost seen': seq<nat>)
      requires Represents() && model.Shaped(|chains|) && voteGroupId < |chains| == |logs| && 2 <= |logs|
      requires forall g :: 0 <= g < |logs| && !model.Head(g).isReal[voteGroupId] ==>
                 g != voteGroupId && model.Head(g).watermarks[voteGroupId] <= voteGroupWatermark
      requires var s := model.Raise(voteGroupId, voteGroupWatermark);
        s.Shaped(|logs|) && SeenOk(logs, seen') && Inv(logs, seen', s)
      modifies this, cells
      ensures Valid() && fresh(cells - old(cells)) && old(cells) <= cells
      ensures seen == seen' && model == PopAll(logs, seen', old(model).Raise(voteGroupId, voteGroupWatermark))
    {
      hide Inv, Represents, PopAll, Replica.IsMinimum, Replica.Raise, Replica.Quiescent;
      seen := seen';
      UpdateEstimate(voteGroupId, voteGroupWatermark);
      PopBlocks();
    }

    // One vote arrives: entry `index` of the log of voteGroupId.
    method PushDecision(groupId: nat, blockId: nat, voteGroupId: nat, voteGroupWatermark: int, ghost index: nat)
      requires Valid() && EventOk(logs, seen, Event(voteGroupId, index))
      requires logs[voteGroupId][index] == Vote(groupId, blockId, voteGroupWatermark)
      modifies this, cells
      ensures Valid() && fresh(cells - old(cells)) && old(cells) <= cells
      ensures seen == Advance(old(seen), Event(voteGroupId, index))
      ensures model == Receive(logs, old(seen), old(model), Event(voteGroupId, index))
    {
      hide Inv, Represents, Receive, PopAll, SeenOk, WellFormedLogs, CellState.Shaped, CellState.WithMark,
           Replica.IsMinimum, Replica.Raise, Replica.Quiescent, Replica.Touch, Replica.WithCell;
      ghost var ev := Event(voteGroupId, index);
      if voteGroupId == groupId {
        SelfVoteReceived(logs, seen, model, ev);
        seen := Advance(seen, ev);
        return; // a group does not order its own blocks
      }
      ReceiveInSteps(logs, seen, model, ev);
      var cell := CreateBlockIfNotExist(groupId, blockId);
      var changed := Mark(cell, voteGroupId, voteGroupWatermark);
      if !changed {
        return; // a duplicate
      }
      RaiseAndPop(voteGroupId, voteGroupWatermark, Advance(seen, ev));
    }
  }
}
