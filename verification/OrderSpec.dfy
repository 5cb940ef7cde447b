/**
  What the inter-chain order manager computes, on values: cells with watermarks
  that are real or estimated, the heads of all chains, and the deliveries.
 */
module OrderSpec {
  import opened VoteLogs

  datatype CellState = CellState(groupId: nat, blockId: nat, watermarks: seq<int>, isReal: seq<bool>) {
    predicate Shaped(n: nat) {
      && |watermarks| == |isReal| == n
      && groupId < n
      && isReal[groupId]
    }

    function Id(): Block {
      Block(groupId, blockId)
    }

    // The scan over both vectors is settled at index k (k == n: by the ids).
    predicate SettledAt(rhs: CellState, k: nat)
      requires |watermarks| == |isReal| == |rhs.watermarks| == |rhs.isReal|
      requires k <= |watermarks|
    {
      && (forall i :: 0 <= i < k ==> isReal[i] && rhs.isReal[i] && watermarks[i] == rhs.watermarks[i])
      && if k < |watermarks| then
           isReal[k] && watermarks[k] < rhs.watermarks[k]
         else
           blockId < rhs.blockId || (blockId == rhs.blockId && groupId < rhs.groupId)
    }

    ghost predicate MustLessThan(rhs: CellState)
      requires |watermarks| == |isReal| == |rhs.watermarks| == |rhs.isReal|
    {
      Id() == rhs.Id() || exists k :: 0 <= k <= |watermarks| && SettledAt(rhs, k)
    }

    function WithMark(v: nat, w: int): (c: CellState)
      requires v < |watermarks| && v < |isReal|
    {
      this.(watermarks := watermarks[v := w], isReal := isReal[v := true])
    }

    function WithEstimate(v: nat, w: int): (c: CellState)
      requires v < |watermarks| && v < |isReal|
    {
      if isReal[v] then this else this.(watermarks := watermarks[v := w])
    }

    // Estimates of a new head start from the previous head's watermarks.
    function Inherit(prev: CellState): (c: CellState)
      requires |watermarks| == |isReal| == |prev.watermarks|
    {
      this.(watermarks := seq(|watermarks|, i requires 0 <= i < |watermarks| =>
        if isReal[i] then watermarks[i] else prev.watermarks[i]))
    }
  }

  function NewCell(n: nat, g: nat, b: nat): (c: CellState)
    requires g < n
  {
    CellState(g, b,
      seq(n, i => if i == g then b else INVALID_WATERMARK),
      seq(n, i => i == g))
  }

  datatype Replica = Replica(chains: seq<seq<CellState>>, heads: seq<nat>, delivered: seq<Block>) {
    // chains[g][b] holds the cell with group id g and block id b.
    predicate Shaped(n: nat) {
      && |chains| == |heads| == n
      && (forall g :: 0 <= g < n ==> heads[g] < |chains[g]|)
      && (forall g, b :: 0 <= g < n && 0 <= b < |chains[g]| ==>
            chains[g][b].Shaped(n) && chains[g][b].Id() == Block(g, b))
    }

    function Head(g: nat): CellState
      requires g < |heads| && g < |chains| && heads[g] < |chains[g]|
    {
      chains[g][heads[g]]
    }

    ghost predicate IsMinimum(g: nat)
      requires Shaped(|heads|) && g < |heads|
    {
      forall h :: 0 <= h < |heads| ==> Head(g).MustLessThan(Head(h))
    }

    ghost predicate Quiescent()
      requires Shaped(|heads|)
    {
      forall g :: 0 <= g < |heads| ==> !IsMinimum(g)
    }

    // createBlockIfNotExist, for a block at most one past the end.
    function Touch(g: nat, b: nat): (s: Replica)
      requires g < |chains| && b <= |chains[g]|
    {
      if b < |chains[g]| then this
      else this.(chains := chains[g := chains[g] + [NewCell(|chains|, g, b)]])
    }

    function WithCell(g: nat, b: nat, c: CellState): (s: Replica)
      requires g < |chains| && b < |chains[g]|
    {
      this.(chains := chains[g := chains[g][b := c]])
    }

    // updateEstimate on every head.
    function Raise(v: nat, w: int): (s: Replica)
      requires Shaped(|heads|) && v < |heads|
    {
      this.(chains := seq(|chains|, g requires 0 <= g < |chains| =>
        chains[g][heads[g] := Head(g).WithEstimate(v, w)]))
    }

    // The CHECKs of exchange, for the head of chain g and its successor.
    predicate Exchangeable(g: nat)
      requires Shaped(|heads|) && g < |heads|
    {
      var prev, next := Head(g), Touch(g, heads[g] + 1).chains[g][heads[g] + 1];
      && next.Shaped(|heads|)
      && next.Id() == Block(g, prev.blockId + 1)
      && forall i :: 0 <= i < |heads| && next.isReal[i] ==> prev.watermarks[i] <= next.watermarks[i]
    }

    // Deliver the head of chain g and exchange it for its successor.
    function Pop(g: nat): (s: Replica)
      requires Shaped(|heads|) && g < |heads|
    {
      var b := heads[g];
      var t := Touch(g, b + 1);
      t.WithCell(g, b + 1, t.chains[g][b + 1].Inherit(chains[g][b]))
       .(heads := heads[g := b + 1], delivered := delivered + [Block(g, b)])
    }
  }

  function Initial(n: nat): (s: Replica) {
    Replica(seq(n, g requires 0 <= g < n => [NewCell(n, g, 0)]), seq(n, g => 0), [])
  }

  /* ---- the invariant that ties a replica to what it has seen of the logs ---- */

  ghost predicate SeenOk(logs: Logs, seen: seq<nat>) {
    && |seen| == |logs|
    && forall v :: 0 <= v < |logs| ==> seen[v] <= |logs[v]|
  }

  function Prefix(logs: Logs, seen: seq<nat>, v: nat): Log
    requires v < |logs| == |seen| && seen[v] <= |logs[v]|
  {
    logs[v][..seen[v]]
  }

  // Entry v of a cell: real exactly when v's vote has been seen, then final;
  // otherwise never above v's last seen watermark.
  predicate EntryOk(logs: Logs, seen: seq<nat>, c: CellState, v: nat)
    requires v < |logs| == |seen| && seen[v] <= |logs[v]| && c.Shaped(|logs|)
  {
    var p := Prefix(logs, seen, v);
    && (c.isReal[v] <==> v == c.groupId || c.blockId < VotesOn(p, c.groupId))
    && (c.isReal[v] ==> c.watermarks[v] == Final(logs[v], v, c.groupId, c.blockId))
    && (v != c.groupId ==> c.watermarks[v] <= LastMark(p, v))
  }

  ghost predicate CellOk(logs: Logs, seen: seq<nat>, c: CellState)
    requires SeenOk(logs, seen)
  {
    && c.Shaped(|logs|)
    && forall v :: 0 <= v < |logs| ==> EntryOk(logs, seen, c, v)
  }

  ghost predicate CellsOk(logs: Logs, seen: seq<nat>, s: Replica)
    requires SeenOk(logs, seen)
  {
    && s.Shaped(|logs|)
    && (forall g, b :: 0 <= g < |logs| && 0 <= b < |s.chains[g]| ==> CellOk(logs, seen, s.chains[g][b]))
    && (forall g, v :: 0 <= g < |logs| && 0 <= v < |logs| && v != g ==>
          VotesOn(Prefix(logs, seen, v), g) <= |s.chains[g]|)
  }

  // How many blocks of chain g the votes received from group 0 can release.
  function Budget(logs: Logs, seen: seq<nat>, g: nat): int
    requires 0 < |logs| == |seen| && seen[0] <= |logs[0]|
  {
    if g == 0 then LastMark(Prefix(logs, seen, 0), 0) + 1
    else VotesOn(Prefix(logs, seen, 0), g)
  }

  function SumBudget(logs: Logs, seen: seq<nat>, n: nat): int
    requires 0 < |logs| == |seen| && seen[0] <= |logs[0]|
  {
    if n == 0 then 0 else SumBudget(logs, seen, n - 1) + Budget(logs, seen, n - 1)
  }

  function SumHeads(heads: seq<nat>, n: nat): nat
    requires n <= |heads|
  {
    if n == 0 then 0 else SumHeads(heads, n - 1) + heads[n - 1]
  }

  ghost predicate DeliveriesOk(logs: Logs, seen: seq<nat>, s: Replica)
    requires SeenOk(logs, seen) && 0 < |logs| == |s.heads|
  {
    && InitialSegment(logs, s.delivered)
    && (forall x :: x in s.delivered <==> x.groupId < |logs| && x.blockId < s.heads[x.groupId])
    && (forall g :: 0 <= g < |logs| ==> s.heads[g] <= Budget(logs, seen, g))
    && |s.delivered| == SumHeads(s.heads, |logs|)
  }

  ghost predicate Inv(logs: Logs, seen: seq<nat>, s: Replica) {
    && WellFormedLogs(logs)
    && SeenOk(logs, seen)
    && CellsOk(logs, seen, s)
    && DeliveriesOk(logs, seen, s)
  }
}
