/**
  Delivering a head: the delivered sequence stays an initial segment of the
  global order, and the votes received from group 0 bound its length.
 */
module OrderDelivery {
  import opened VoteLogs
  import opened OrderSpec
  import opened OrderInvariant

  // A head's estimates are sound for its successor, next.
  lemma InheritOk(logs: Logs, seen: seq<nat>, prev: CellState, next: CellState)
    requires WellFormedLogs(logs) && SeenOk(logs, seen) && CellOk(logs, seen, prev) && CellOk(logs, seen, next)
    requires next.Id() == Block(prev.groupId, prev.blockId + 1)
    ensures forall i :: 0 <= i < |logs| && next.isReal[i] ==> prev.watermarks[i] <= next.watermarks[i]
    ensures CellOk(logs, seen, next.Inherit(prev))
  {
    forall v | 0 <= v < |logs|
      ensures next.isReal[v] ==> prev.watermarks[v] <= next.watermarks[v]
      ensures EntryOk(logs, seen, next.Inherit(prev), v)
    {
      assert EntryOk(logs, seen, prev, v) && EntryOk(logs, seen, next, v);
      EstimateSound(logs, seen, prev, v);
      FinalMonotone(logs[v], |logs|, v, prev.groupId, prev.blockId, next.blockId);
    }
  }

  // The CHECKs of exchange pass, and all cells stay tied to the logs.
  lemma ExchangeOk(logs: Logs, seen: seq<nat>, s: Replica, g: nat)
    requires WellFormedLogs(logs) && SeenOk(logs, seen) && CellsOk(logs, seen, s) && g < |logs|
    ensures s.Exchangeable(g)
    ensures CellsOk(logs, seen, s.Pop(g))
  {
    hide WellFormedLogs, CellOk, CellsOk, CellState.Inherit, Replica.Pop;
    CellAt(logs, seen, s, g, 0);
    var b := s.heads[g];
    CellAt(logs, seen, s, g, b);
    TouchOk(logs, seen, s, g, b + 1);
    var t := s.Touch(g, b + 1);
    CellAt(logs, seen, t, g, b + 1);
    var prev, next := s.chains[g][b], t.chains[g][b + 1];
    InheritOk(logs, seen, prev, next);
    InheritId(next, prev);
    PopCells(logs, seen, s, g, next.Inherit(prev));
  }

  lemma CellAt(logs: Logs, seen: seq<nat>, s: Replica, g: nat, b: nat)
    requires SeenOk(logs, seen) && CellsOk(logs, seen, s) && g < |logs|
    ensures s.Shaped(|logs|)
    ensures b < |s.chains[g]| ==>
      CellOk(logs, seen, s.chains[g][b]) && s.chains[g][b].Shaped(|logs|) && s.chains[g][b].Id() == Block(g, b)
  {
    hide EntryOk;
  }

  lemma PopCells(logs: Logs, seen: seq<nat>, s: Replica, g: nat, c: CellState)
    requires SeenOk(logs, seen) && s.Shaped(|logs|) && g < |logs|
    requires var t := s.Touch(g, s.heads[g] + 1);
      && CellsOk(logs, seen, t) && t.Shaped(|logs|) && s.heads[g] + 1 < |t.chains[g]|
      && c == t.chains[g][s.heads[g] + 1].Inherit(s.chains[g][s.heads[g]]) && c.Id() == Block(g, s.heads[g] + 1)
    requires CellOk(logs, seen, c)
    ensures CellsOk(logs, seen, s.Pop(g))
  {
    hide CellOk, CellsOk, CellState.Inherit, CellState.Shaped;
    var b := s.heads[g];
    var t := s.Touch(g, b + 1);
    WithCellOk(logs, seen, t, g, b + 1, c);
    HeadsOk(logs, seen, t.WithCell(g, b + 1, c), g, b + 1, s.delivered + [Block(g, b)]);
  }

  lemma InheritId(next: CellState, prev: CellState)
    requires |next.watermarks| == |next.isReal| == |prev.watermarks|
    ensures next.Inherit(prev).Id() == next.Id()
  {
  }

  // The cells do not depend on the heads and the deliveries.
  lemma HeadsOk(logs: Logs, seen: seq<nat>, s: Replica, g: nat, b: nat, delivered: seq<Block>)
    requires SeenOk(logs, seen) && CellsOk(logs, seen, s) && g < |logs| && b < |s.chains[g]|
    ensures CellsOk(logs, seen, s.(heads := s.heads[g := b], delivered := delivered))
  {
    hide EntryOk, CellOk;
  }

  lemma WithCellOk(logs: Logs, seen: seq<nat>, s: Replica, g: nat, b: nat, c: CellState)
    requires SeenOk(logs, seen) && CellsOk(logs, seen, s)
    requires g < |logs| && b < |s.chains[g]| && c.Id() == Block(g, b) && CellOk(logs, seen, c)
    ensures CellsOk(logs, seen, s.WithCell(g, b, c))
  {
  }

  // No phantom: a block is only released by votes received from group 0.
  lemma MinimumReleased(logs: Logs, seen: seq<nat>, s: Replica, g: nat)
    requires WellFormedLogs(logs) && SeenOk(logs, seen) && CellsOk(logs, seen, s) && g < |logs|
    requires s.IsMinimum(g)
    ensures s.heads[g] < Budget(logs, seen, g)
  {
    var h := if g == 0 then 1 else 0;
    var a, c := s.Head(g), s.Head(h);
    assert a.Id() == Block(g, s.heads[g]) && c.Id() == Block(h, s.heads[h]);
    assert a.MustLessThan(c);
    var k :| 0 <= k <= |logs| && a.SettledAt(c, k);
    assert CellOk(logs, seen, a) && CellOk(logs, seen, c);
    assert EntryOk(logs, seen, a, 0) && EntryOk(logs, seen, c, 0);
  }

  // The delivered head precedes everything that is not delivered yet.
  lemma MinimumPrecedes(logs: Logs, seen: seq<nat>, s: Replica, g: nat, y: Block)
    requires WellFormedLogs(logs) && SeenOk(logs, seen) && CellsOk(logs, seen, s) && g < |logs|
    requires s.IsMinimum(g)
    requires y.groupId < |logs| && s.heads[y.groupId] <= y.blockId && y != Block(g, s.heads[g])
    ensures Before(logs, Block(g, s.heads[g]), y)
  {
    var h := y.groupId;
    var a, c := s.Head(g), s.Head(h);
    assert a.Id() == Block(g, s.heads[g]) && c.Id() == Block(h, s.heads[h]);
    if s.heads[h] < y.blockId {
      ChainIncreasing(logs, h, s.heads[h], y.blockId);
    }
    if h != g {
      assert a.MustLessThan(c) && CellOk(logs, seen, a) && CellOk(logs, seen, c);
      MustLessThanSound(logs, seen, a, c);
      if c.Id() != y {
        BeforeTransitive(logs, a.Id(), c.Id(), y);
      }
    }
  }

  lemma {:induction false} SumHeadsStep(heads: seq<nat>, g: nat, n: nat)
    requires g < |heads| && n <= |heads|
    ensures SumHeads(heads[g := heads[g] + 1], n) == SumHeads(heads, n) + if g < n then 1 else 0
  {
    if n > 0 { SumHeadsStep(heads, g, n - 1); }
  }

  lemma {:induction false} SumHeadsBound(logs: Logs, seen: seq<nat>, heads: seq<nat>, n: nat)
    requires 0 < |logs| == |seen| && seen[0] <= |logs[0]| && n <= |heads|
    requires forall g :: 0 <= g < n ==> heads[g] <= Budget(logs, seen, g)
    ensures SumHeads(heads, n) <= SumBudget(logs, seen, n)
  {
    if n > 0 { SumHeadsBound(logs, seen, heads, n - 1); }
  }

  // Appending the minimum x extends the initial segment by its next element.
  lemma PopKeepsOrder(logs: Logs, seen: seq<nat>, s: Replica, g: nat)
    requires WellFormedLogs(logs) && SeenOk(logs, seen) && CellsOk(logs, seen, s) && DeliveriesOk(logs, seen, s)
    requires g < |logs| && s.IsMinimum(g)
    ensures InitialSegment(logs, s.delivered + [Block(g, s.heads[g])])
  {
    var x := Block(g, s.heads[g]);
    var d := s.delivered + [x];
    assert x !in s.delivered;
    forall z, y | z in d && y !in d && y.groupId < |logs| ensures Before(logs, z, y) {
      if z == x {
        MinimumPrecedes(logs, seen, s, g, y);
      }
    }
    forall i, j | 0 <= i < j < |d| ensures Before(logs, d[i], d[j]) {
      if j == |d| - 1 {
        assert d[i] in s.delivered && d[j] == x;
      } else {
        assert d[i] == s.delivered[i] && d[j] == s.delivered[j];
      }
    }
  }

  lemma PopOk(logs: Logs, seen: seq<nat>, s: Replica, g: nat)
    requires Inv(logs, seen, s) && g < |logs| && s.IsMinimum(g)
    ensures Inv(logs, seen, s.Pop(g))
    ensures |s.delivered| < |s.Pop(g).delivered| <= SumBudget(logs, seen, |logs|)
  {
    hide InitialSegment, CellsOk, WellFormedLogs, Replica.Pop, CellState.Shaped, Replica.IsMinimum, Budget;
    CellAt(logs, seen, s, g, 0);
    ExchangeOk(logs, seen, s, g);
    PopFields(s, g);
    MinimumReleased(logs, seen, s, g);
    PopKeepsOrder(logs, seen, s, g);
    SumHeadsStep(s.heads, g, |logs|);
    SumHeadsBound(logs, seen, s.Pop(g).heads, |logs|);
  }

  lemma PopFields(s: Replica, g: nat)
    requires s.Shaped(|s.heads|) && g < |s.heads|
    ensures s.Pop(g).heads == s.heads[g := s.heads[g] + 1] && s.Pop(g).delivered == s.delivered + [Block(g, s.heads[g])]
  {
  }

  lemma NothingToPop(logs: Logs, seen: seq<nat>, s: Replica)
    requires Inv(logs, seen, s) && s.Quiescent()
    ensures PopAll(logs, seen, s) == s
  {
    hide Replica.IsMinimum;
  }

  // Pop in the order of popBlocks: deliver, create the successor, exchange.
  lemma PopInSteps(s: Replica, g: nat)
    requires s.Shaped(|s.heads|) && g < |s.heads| && s.Exchangeable(g)
    ensures
      var b := s.heads[g];
      var d := s.(delivered := s.delivered + [Block(g, b)]);
      && d.Shaped(|s.heads|)
      && var t := d.Touch(g, b + 1);
      && t.Shaped(|s.heads|) && b + 1 < |t.chains[g]| && t.Exchangeable(g)
      && s.Pop(g) == t.WithCell(g, b + 1, t.chains[g][b + 1].Inherit(t.chains[g][b])).(heads := t.heads[g := b + 1])
  {
    hide CellState.Shaped, CellState.Inherit, NewCell;
    var d := s.(delivered := s.delivered + [Block(g, s.heads[g])]);
    TouchShaped(s, g, s.heads[g] + 1);
    assert d.Touch(g, s.heads[g] + 1) == s.Touch(g, s.heads[g] + 1).(delivered := d.delivered);
  }

  lemma TouchShaped(s: Replica, g: nat, b: nat)
    requires s.Shaped(|s.heads|) && g < |s.heads| && b <= |s.chains[g]|
    ensures s.Touch(g, b).Shaped(|s.heads|) && b < |s.Touch(g, b).chains[g]|
  {
  }

  lemma PopProgresses(s: Replica, g: nat)
    requires s.Shaped(|s.heads|) && g < |s.heads| && s.Pop(g).Shaped(|s.heads|)
    ensures Progresses(s, s.Pop(g))
  {
  }

  // Seeing more of the logs only enlarges the budget.
  lemma DeliveriesKeep(logs: Logs, seen: seq<nat>, v: nat, s: Replica, s': Replica)
    requires WellFormedLogs(logs) && SeenOk(logs, seen) && v < |logs| && seen[v] < |logs[v]|
    requires |s.heads| == |logs| && DeliveriesOk(logs, seen, s)
    requires s'.heads == s.heads && s'.delivered == s.delivered
    ensures SeenOk(logs, seen[v := seen[v] + 1]) && DeliveriesOk(logs, seen[v := seen[v] + 1], s')
  {
    forall g | 0 <= g < |logs| ensures s.heads[g] <= Budget(logs, seen[v := seen[v] + 1], g) {
      PrefixStep(logs, seen, v, if v == 0 then (if g == 0 then 1 else g) else 0);
    }
  }

  // popBlocks: deliver minima until there is none.
  ghost function PopAll(logs: Logs, seen: seq<nat>, s: Replica): (r: Replica)
    requires Inv(logs, seen, s)
    ensures Inv(logs, seen, r)
    ensures r.Quiescent()
    ensures Progresses(s, r)
    decreases SumBudget(logs, seen, |logs|) - |s.delivered|
  {
    assert s.Shaped(|s.heads|) && |s.heads| == |logs|;
    if g :| 0 <= g < |logs| && s.IsMinimum(g) then
      PopOk(logs, seen, s, g);
      PopProgresses(s, g);
      var r := PopAll(logs, seen, s.Pop(g));
      ProgressesTransitive(s, s.Pop(g), r);
      r
    else s
  }

  // The minimum is unique, so popBlocks has no choice of what to deliver next.
  lemma PopAllStep(logs: Logs, seen: seq<nat>, s: Replica, g: nat)
    requires Inv(logs, seen, s) && g < |logs| && s.IsMinimum(g)
    ensures s.Exchangeable(g)
    ensures Inv(logs, seen, s.Pop(g)) && s.Pop(g).Shaped(|logs|)
    ensures PopAll(logs, seen, s) == PopAll(logs, seen, s.Pop(g))
    ensures |s.delivered| < |s.Pop(g).delivered| <= SumBudget(logs, seen, |logs|)
  {
    ExchangeOk(logs, seen, s, g);
    PopOk(logs, seen, s, g);
    forall h | 0 <= h < |logs| && s.IsMinimum(h) ensures h == g {
      MinimumUnique(s, g, h);
    }
  }

  /* ---- progress ---- */

  // On fully voted cells the comparison decides the global order exactly.
  lemma MustLessThanComplete(logs: Logs, seen: seq<nat>, a: CellState, c: CellState)
    requires WellFormedLogs(logs) && SeenOk(logs, seen) && CellOk(logs, seen, a) && CellOk(logs, seen, c)
    requires forall v :: 0 <= v < |logs| ==> a.isReal[v] && c.isReal[v]
    requires Before(logs, a.Id(), c.Id())
    ensures a.MustLessThan(c)
  {
    var n := |logs|;
    var s, t := Key(logs, a.Id()), Key(logs, c.Id());
    var k :| 0 <= k < n + 2 && AgreeBelow(s, t, k) && s[k] < t[k];
    forall i | 0 <= i < n ensures a.watermarks[i] == s[i] && c.watermarks[i] == t[i] {
      assert EntryOk(logs, seen, a, i) && EntryOk(logs, seen, c, i);
    }
    assert s[n] == a.blockId && s[n + 1] == a.groupId && t[n] == c.blockId && t[n + 1] == c.groupId;
    assert a.SettledAt(c, if k < n then k else n);
  }

  lemma {:induction false} SmallestOf(logs: Logs, xs: seq<Block>, k: nat) returns (m: nat)
    requires 0 < k <= |xs| && forall i, j :: 0 <= i < j < |xs| ==> xs[i] != xs[j]
    ensures m < k
    ensures forall h :: 0 <= h < k && h != m ==> Before(logs, xs[m], xs[h])
  {
    hide Before;
    if k == 1 {
      m := 0;
    } else {
      m := SmallestOf(logs, xs, k - 1);
      BeforeTotal(logs, xs[m], xs[k - 1]);
      if Before(logs, xs[k - 1], xs[m]) {
        forall h | 0 <= h < k - 1 && h != m ensures Before(logs, xs[k - 1], xs[h]) {
          BeforeTransitive(logs, xs[k - 1], xs[m], xs[h]);
        }
        m := k - 1;
      }
    }
  }

  // A replica never stalls while every head carries all n votes.
  lemma QuiescentMissesVote(logs: Logs, seen: seq<nat>, s: Replica)
    requires Inv(logs, seen, s) && s.Quiescent()
    ensures exists g, v :: 0 <= g < |logs| && 0 <= v < |logs| && !s.Head(g).isReal[v]
  {
    if forall g, v :: 0 <= g < |logs| && 0 <= v < |logs| ==> s.Head(g).isReal[v] {
      var xs := seq(|logs|, g requires 0 <= g < |logs| => Block(g, s.heads[g]));
      var m := SmallestOf(logs, xs, |logs|);
      forall h | 0 <= h < |logs| ensures s.Head(m).MustLessThan(s.Head(h)) {
        assert s.Head(m).Id() == xs[m] && s.Head(h).Id() == xs[h];
        assert CellOk(logs, seen, s.Head(m)) && CellOk(logs, seen, s.Head(h));
        if h != m {
          MustLessThanComplete(logs, seen, s.Head(m), s.Head(h));
        }
      }
      assert s.IsMinimum(m);
    }
  }
}
