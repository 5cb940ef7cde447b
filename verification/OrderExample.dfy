/**
  A run of two groups, with its exact deliveries. Group 0 has stamped block (1, 0)
  with 1, group 1 has stamped block (0, 0) with 2. In whatever order the two votes
  arrive, both blocks are delivered; the second one only because an estimate, raised
  by the last vote or inherited from the previous head, is larger than a real mark.
 */
module OrderExample {
  import opened VoteLogs
  import opened OrderSpec
  import opened OrderDelivery
  import opened OrderRuns
  import opened OrderGrowth

  const LOGS: Logs := [[Vote(1, 0, 1)], [Vote(0, 0, 2)]]

  const EVENT0 := Event(0, 0)
  const EVENT1 := Event(1, 0)

  function Cell(g: nat, b: nat, w0: int, w1: int, real0: bool, real1: bool): CellState {
    CellState(g, b, [w0, w1], [real0, real1])
  }

  lemma LogsOk()
    ensures WellFormedLogs(LOGS)
    ensures ValidRun(LOGS, [EVENT0]) && ValidRun(LOGS, [EVENT0, EVENT1])
    ensures ValidRun(LOGS, [EVENT1]) && ValidRun(LOGS, [EVENT1, EVENT0])
    ensures Seen(2, []) == [0, 0] && Seen(2, [EVENT0]) == [1, 0] && Seen(2, [EVENT1]) == [0, 1]
  {
    hide WellFormedLog;
    forall v | 0 <= v < 2 ensures WellFormedLog(LOGS[v], 2, v) { LogOk(v); }
    OneEvent(0);
    OneEvent(1);
    TwoEvents(0);
    TwoEvents(1);
  }

  lemma LogOk(v: nat)
    requires v < 2
    ensures WellFormedLog(LOGS[v], 2, v)
  {
    assert LOGS[v][..0] == [] && WellFormedLog([], 2, v);
  }

  lemma OneEvent(v: nat)
    requires v < 2
    ensures ValidRun(LOGS, []) && ValidRun(LOGS, [Event(v, 0)])
    ensures Seen(2, []) == [0, 0] && Seen(2, [Event(v, 0)]) == [0, 0][v := 1]
  {
    var ev := Event(v, 0);
    assert Seen(2, []) == [0, 0] && [ev][..0] == [];
    assert ValidRun(LOGS, []) && EventOk(LOGS, Seen(2, []), ev);
  }

  lemma TwoEvents(v: nat)
    requires v < 2
    ensures ValidRun(LOGS, [Event(v, 0), Event(1 - v, 0)])
  {
    hide Seen;
    var e, f := Event(v, 0), Event(1 - v, 0);
    OneEvent(v);
    assert [e, f][..1] == [e];
    assert EventOk(LOGS, Seen(2, [e]), f);
  }

  lemma UpdateOne<T>(x: T, y: T)
    ensures [x][0 := y] == [y]
  {
  }

  lemma UpdateTwo<T>(x: T, y: T, z: T)
    ensures [x, y][0 := z] == [z, y] && [x, y][1 := z] == [x, z]
  {
  }

  /* ---- comparisons of two heads ---- */

  lemma Settled(a: CellState, c: CellState, k: nat)
    requires |a.watermarks| == |a.isReal| == |c.watermarks| == |c.isReal| && k <= |a.watermarks| && a.SettledAt(c, k)
    ensures a.MustLessThan(c)
  {
  }

  lemma MinimumOfTwo(s: Replica, g: nat, k: nat)
    requires s.Shaped(2) && g < 2 && k <= 2 && s.Head(g).SettledAt(s.Head(1 - g), k)
    ensures s.IsMinimum(g)
  {
    Settled(s.Head(g), s.Head(1 - g), k);
  }

  lemma NoMinimumOfTwo(s: Replica)
    requires s.Shaped(2)
    requires var a, c := s.Head(0), s.Head(1);
      && (forall i :: 0 <= i <= 2 ==> !a.SettledAt(c, i)) && (forall i :: 0 <= i <= 2 ==> !c.SettledAt(a, i))
    ensures s.Quiescent()
  {
    hide CellState.SettledAt;
    forall g | 0 <= g < 2 ensures !s.IsMinimum(g) {
      assert !s.Head(g).MustLessThan(s.Head(1 - g));
    }
  }

  /* ---- the states of the runs ---- */

  // A state of two chains, of which the second has not grown yet.
  function Short(zero: seq<CellState>, one: CellState, head: nat, delivered: seq<Block>): Replica {
    Replica([zero, [one]], [head, 0], delivered)
  }

  // Vote 0 is in, the other is not.
  function Vote0In(): Replica {
    Short([Cell(0, 0, 0, -1, true, false)], Cell(1, 0, 1, 0, true, true), 0, [])
  }

  // Then block (0, 0) is delivered at once.
  function AfterVote0(): Replica {
    Short([Cell(0, 0, 0, -1, true, false), Cell(0, 1, 1, -1, true, false)], Cell(1, 0, 1, 0, true, true),
          1, [Block(0, 0)])
  }

  // If vote 1 is the first, nothing is delivered.
  function AfterVote1(): Replica {
    Short([Cell(0, 0, 0, 2, true, true)], Cell(1, 0, -1, 0, false, true), 0, [])
  }

  // Both votes are in and no block is delivered.
  function BothIn(): Replica {
    Short([Cell(0, 0, 0, 2, true, true)], Cell(1, 0, 1, 0, true, true), 0, [])
  }

  // Both votes are in and block (0, 0) is delivered; the estimate 2 is inherited or raised.
  function OneLeft(): Replica {
    Short([Cell(0, 0, 0, 2, true, true), Cell(0, 1, 1, 2, true, false)], Cell(1, 0, 1, 0, true, true),
          1, [Block(0, 0)])
  }

  function AfterBoth(): Replica {
    Replica([[Cell(0, 0, 0, 2, true, true), Cell(0, 1, 1, 2, true, false)],
             [Cell(1, 0, 1, 0, true, true), Cell(1, 1, 1, 1, false, true)]],
            [1, 1], [Block(0, 0), Block(1, 0)])
  }

  lemma InitialIs()
    ensures Initial(2) == Short([Cell(0, 0, 0, -1, true, false)], Cell(1, 0, -1, 0, false, true), 0, [])
  {
    assert NewCell(2, 0, 0) == Cell(0, 0, 0, -1, true, false);
    assert NewCell(2, 1, 0) == Cell(1, 0, -1, 0, false, true);
  }

  // Delivering the head of a chain that has no later block yet.
  lemma PopEnd(s: Replica, g: nat)
    requires s.Shaped(|s.heads|) && g < |s.heads| && s.heads[g] + 1 == |s.chains[g]|
    ensures s.Pop(g) ==
      Replica(s.chains[g := s.chains[g] + [NewCell(|s.heads|, g, s.heads[g] + 1).Inherit(s.Head(g))]],
              s.heads[g := s.heads[g] + 1], s.delivered + [Block(g, s.heads[g])])
  {
    hide CellState.Inherit;
    var b, c := s.heads[g] + 1, NewCell(|s.heads|, g, s.heads[g] + 1);
    var t, d := s.Touch(g, b), c.Inherit(s.Head(g));
    assert t.chains[g] == s.chains[g] + [c] && t.chains[g][b] == c;
    assert t.chains[g][b := d] == s.chains[g] + [d];
  }

  // Delivering block (0, 0): its successor inherits the entry of group 1.
  lemma PopFirst(w: int, isReal: bool)
    ensures var c, o := Cell(0, 0, 0, w, true, isReal), Cell(1, 0, 1, 0, true, true);
      var s := Short([c], o, 0, []);
      && s.Shaped(2) && s.IsMinimum(0)
      && s.Pop(0) == Short([c, Cell(0, 1, 1, w, true, false)], o, 1, [Block(0, 0)])
  {
    hide Replica.Pop, Replica.IsMinimum;
    var c, o, d := Cell(0, 0, 0, w, true, isReal), Cell(1, 0, 1, 0, true, true), Cell(0, 1, 1, w, true, false);
    var s := Short([c], o, 0, []);
    MinimumOfTwo(s, 0, 0);
    PopEnd(s, 0);
    assert NewCell(2, 0, 1).Inherit(c) == d by {
      assert NewCell(2, 0, 1) == Cell(0, 1, 1, -1, true, false);
    }
    assert [c] + [d] == [c, d] && [[c], [o]][0 := [c, d]] == [[c, d], [o]];
  }

  lemma PopSecond()
    ensures OneLeft().Shaped(2) && OneLeft().IsMinimum(1) && OneLeft().Pop(1) == AfterBoth()
  {
    hide Replica.Pop, Replica.IsMinimum;
    var s, o, d := OneLeft(), Cell(1, 0, 1, 0, true, true), Cell(1, 1, 1, 1, false, true);
    MinimumOfTwo(s, 1, 1);
    PopEnd(s, 1);
    assert NewCell(2, 1, 1).Inherit(o) == d by {
      assert NewCell(2, 1, 1) == Cell(1, 1, -1, 1, false, true);
    }
    assert [o] + [d] == [o, d] && s.chains[1 := [o, d]] == [s.chains[0], [o, d]];
  }

  lemma NothingLeft0()
    ensures AfterVote0().Shaped(2) && AfterVote0().Quiescent()
  {
    hide CellState.MustLessThan, Replica.Quiescent;
    NoMinimumOfTwo(AfterVote0());
  }

  lemma NothingLeft1()
    ensures AfterVote1().Shaped(2) && AfterVote1().Quiescent()
  {
    hide CellState.MustLessThan, Replica.Quiescent;
    NoMinimumOfTwo(AfterVote1());
  }

  lemma NothingLeft()
    ensures AfterBoth().Shaped(2) && AfterBoth().Quiescent()
  {
    hide CellState.MustLessThan, Replica.Quiescent;
    NoMinimumOfTwo(AfterBoth());
  }

  lemma PopsOneLeft(seen: seq<nat>)
    requires Inv(LOGS, seen, OneLeft())
    ensures PopAll(LOGS, seen, OneLeft()) == AfterBoth()
  {
    hide Inv, PopAll, Replica.Pop, Replica.IsMinimum, Replica.Quiescent, Replica.Exchangeable, OneLeft, AfterBoth;
    PopSecond();
    PopAllStep(LOGS, seen, OneLeft(), 1);
    NothingLeft();
    NothingToPop(LOGS, seen, AfterBoth());
  }

  lemma PopsBothIn(seen: seq<nat>)
    requires Inv(LOGS, seen, BothIn())
    ensures PopAll(LOGS, seen, BothIn()) == AfterBoth()
  {
    hide Inv, PopAll, Replica.Pop, Replica.IsMinimum, Replica.Quiescent, Replica.Exchangeable, AfterBoth;
    PopFirst(2, true);
    PopAllStep(LOGS, seen, BothIn(), 0);
    PopsOneLeft(seen);
  }

  lemma PopsVote0In(seen: seq<nat>)
    requires Inv(LOGS, seen, Vote0In())
    ensures PopAll(LOGS, seen, Vote0In()) == AfterVote0()
  {
    hide Inv, PopAll, Replica.Pop, Replica.IsMinimum, Replica.Quiescent, Replica.Exchangeable;
    PopFirst(-1, false);
    PopAllStep(LOGS, seen, Vote0In(), 0);
    NothingLeft0();
    NothingToPop(LOGS, seen, AfterVote0());
  }

  /* ---- a vote, before anything is popped ---- */

  // What the vote of v on the existing block (g, 0) does to cells and estimates.
  function Marked(s: Replica, g: nat, v: nat, w: int): (r: Replica)
    requires s.Shaped(2) && g < 2 && v < 2
  {
    var u := s.WithCell(g, 0, s.chains[g][0].WithMark(v, w));
    if u.Shaped(|u.heads|) then u.Raise(v, w) else u
  }

  lemma MarkedIs(s: Replica, g: nat, v: nat, w: int)
    requires s.Shaped(2) && g < 2 && v < 2
    ensures var u := s.chains[g := s.chains[g][0 := s.chains[g][0].WithMark(v, w)]];
      && |u| == 2 && s.heads[0] < |u[0]| && s.heads[1] < |u[1]|
      && |u[0][s.heads[0]].isReal| == |u[0][s.heads[0]].watermarks| == 2
      && |u[1][s.heads[1]].isReal| == |u[1][s.heads[1]].watermarks| == 2
      && Marked(s, g, v, w) ==
           Replica([u[0][s.heads[0] := u[0][s.heads[0]].WithEstimate(v, w)],
                    u[1][s.heads[1] := u[1][s.heads[1]].WithEstimate(v, w)]], s.heads, s.delivered)
  {
    hide CellState.WithEstimate;
  }

  lemma MarkFirst()
    ensures Initial(2).Shaped(2)
    ensures Marked(Initial(2), 1, 0, 1) == Vote0In() && Marked(Initial(2), 0, 1, 2) == AfterVote1()
  {
    hide Marked, Initial;
    InitialIs();
    MarkedIs(Initial(2), 1, 0, 1);
    MarkedIs(Initial(2), 0, 1, 2);
    var z, z', o, o' := Cell(0, 0, 0, -1, true, false), Cell(0, 0, 0, 2, true, true),
                        Cell(1, 0, -1, 0, false, true), Cell(1, 0, 1, 0, true, true);
    assert o.WithMark(0, 1) == o' && z.WithMark(1, 2) == z';
    UpdateOne(z, z');
    UpdateOne(o, o');
    UpdateOne(z, z);
    UpdateOne(z', z');
    UpdateOne(o, o);
    UpdateOne(o', o');
    UpdateTwo([z], [o], [o']);
    UpdateTwo([z], [o], [z']);
  }

  lemma MarkSecond()
    ensures AfterVote1().Shaped(2) && Marked(AfterVote1(), 1, 0, 1) == BothIn()
    ensures AfterVote0().Shaped(2) && Marked(AfterVote0(), 0, 1, 2) == OneLeft()
  {
    hide Marked;
    MarkedIs(AfterVote1(), 1, 0, 1);
    MarkedIs(AfterVote0(), 0, 1, 2);
    var z, z', o, o' := Cell(0, 0, 0, -1, true, false), Cell(0, 0, 0, 2, true, true),
                        Cell(1, 0, -1, 0, false, true), Cell(1, 0, 1, 0, true, true);
    var y, y' := Cell(0, 1, 1, -1, true, false), Cell(0, 1, 1, 2, true, false);
    assert o.WithMark(0, 1) == o' && z.WithMark(1, 2) == z' && y.WithEstimate(1, 2) == y';
    UpdateOne(o, o');
    UpdateOne(o', o');
    UpdateOne(z', z');
    UpdateTwo([z'], [o], [o']);
    UpdateTwo(z, y, z');
    UpdateTwo(z', y, y');
    UpdateTwo([z, y], [o'], [z', y]);
  }

  lemma VoteArrives(seen: seq<nat>, s: Replica, v: nat)
    requires v < 2 && Inv(LOGS, seen, s) && s.Quiescent() && EventOk(LOGS, seen, Event(v, 0)) && seen[v] == 0
    ensures var seen', r := seen[v := 1], Marked(s, 1 - v, v, v + 1);
      Inv(LOGS, seen', r) && Receive(LOGS, seen, s, Event(v, 0)) == PopAll(LOGS, seen', r)
  {
    hide PopAll, Receive, Replica.IsMinimum, Replica.Quiescent, CellOk, DeliveriesOk, Replica.Raise, CellState.WithMark;
    var ev := Event(v, 0);
    assert LOGS[v][0] == Vote(1 - v, 0, v + 1);
    ReceiveInSteps(LOGS, seen, s, ev);
    assert Advance(seen, ev) == seen[v := 1];
  }

  lemma FirstVotes()
    ensures WellFormedLogs(LOGS) && ValidRun(LOGS, [EVENT0]) && ValidRun(LOGS, [EVENT1])
    ensures Run(LOGS, [EVENT0]) == AfterVote0() && Run(LOGS, [EVENT1]) == AfterVote1()
  {
    hide Run, Inv, PopAll, Marked, Initial, Receive, Replica.Quiescent, Replica.Shaped, AfterVote0, AfterVote1, Vote0In,
         WellFormedLogs;
    LogsOk();
    assert [EVENT0][..0] == [] && [EVENT1][..0] == [];
    RunNothing(LOGS);
    RunLast(LOGS, [EVENT0]);
    RunLast(LOGS, [EVENT1]);
    UpdateTwo(0, 0, 1);
    VoteArrives([0, 0], Initial(2), 0);
    VoteArrives([0, 0], Initial(2), 1);
    MarkFirst();
    PopsVote0In([1, 0]);
    NothingLeft1();
    NothingToPop(LOGS, [0, 1], AfterVote1());
  }

  // In both orders of arrival.
  lemma DeliversBoth()
    ensures WellFormedLogs(LOGS) && ValidRun(LOGS, [EVENT0]) && ValidRun(LOGS, [EVENT1])
    ensures ValidRun(LOGS, [EVENT0, EVENT1]) && ValidRun(LOGS, [EVENT1, EVENT0])
    ensures Run(LOGS, [EVENT0]).delivered == [Block(0, 0)] && Run(LOGS, [EVENT1]).delivered == []
    ensures Run(LOGS, [EVENT0, EVENT1]).delivered == [Block(0, 0), Block(1, 0)]
    ensures Run(LOGS, [EVENT1, EVENT0]).delivered == [Block(0, 0), Block(1, 0)]
  {
    hide Run, Inv, PopAll, Marked, Receive, Replica.Quiescent, Replica.Shaped, OneLeft, BothIn, EventOk, WellFormedLogs;
    LogsOk();
    FirstVotes();
    assert [EVENT0, EVENT1][..1] == [EVENT0] && [EVENT1, EVENT0][..1] == [EVENT1];
    RunLast(LOGS, [EVENT0, EVENT1]);
    RunLast(LOGS, [EVENT1, EVENT0]);
    UpdateTwo(1, 0, 1);
    UpdateTwo(0, 1, 1);
    VoteArrives([1, 0], AfterVote0(), 1);
    VoteArrives([0, 1], AfterVote1(), 0);
    MarkSecond();
    PopsOneLeft([1, 1]);
    PopsBothIn([1, 1]);
  }
}
