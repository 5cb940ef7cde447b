/**
  Every step of a replica keeps its cells and deliveries tied to the logs.
 */
module OrderInvariant {
  import opened VoteLogs
  import opened OrderSpec

  // A head's entry, estimated or real, is a lower bound of its final value.
  lemma EstimateSound(logs: Logs, seen: seq<nat>, c: CellState, v: nat)
    requires WellFormedLogs(logs) && SeenOk(logs, seen) && CellOk(logs, seen, c) && v < |logs|
    ensures c.watermarks[v] <= Final(logs[v], v, c.groupId, c.blockId)
  {
    assert EntryOk(logs, seen, c, v);
    if !c.isReal[v] {
      PrefixFacts(logs[v], |logs|, v, seen[v], c.groupId, c.blockId);
    }
  }

  // A comparison that answers true is right about the final order.
  lemma MustLessThanSound(logs: Logs, seen: seq<nat>, a: CellState, c: CellState)
    requires WellFormedLogs(logs) && SeenOk(logs, seen) && CellOk(logs, seen, a) && CellOk(logs, seen, c)
    requires a.MustLessThan(c) && a.Id() != c.Id()
    ensures Before(logs, a.Id(), c.Id())
  {
    var n := |logs|;
    var k :| 0 <= k <= n && a.SettledAt(c, k);
    var s, t := Key(logs, a.Id()), Key(logs, c.Id());
    forall i | 0 <= i < k && i < n ensures s[i] == t[i] {
      assert EntryOk(logs, seen, a, i) && EntryOk(logs, seen, c, i);
    }
    assert AgreeBelow(s, t, k);
    if k < n {
      assert EntryOk(logs, seen, a, k);
      EstimateSound(logs, seen, c, k);
    } else if a.blockId == c.blockId {
      assert AgreeBelow(s, t, n + 1);
      assert s[n + 1] < t[n + 1];
    } else {
      assert s[n] < t[n];
    }
  }

  // Two different cells can never both be less than each other, so at most one
  // head is the global minimum, in whatever order the heads are scanned.
  lemma MinimumUnique(s: Replica, g: nat, h: nat)
    requires s.Shaped(|s.heads|) && g < |s.heads| && h < |s.heads|
    requires s.IsMinimum(g) && s.IsMinimum(h)
    ensures g == h
  {
    var a, c := s.Head(g), s.Head(h);
    assert a.MustLessThan(c) && c.MustLessThan(a);
  }

  // A cell evolves when real entries stay and estimates only rise.
  predicate Evolves(c: CellState, c': CellState) {
    && c.Id() == c'.Id()
    && |c.watermarks| == |c.isReal| == |c'.watermarks| == |c'.isReal|
    && forall i :: 0 <= i < |c.isReal| ==>
         c.watermarks[i] <= c'.watermarks[i] && (c.isReal[i] ==> c'.isReal[i] && c'.watermarks[i] == c.watermarks[i])
  }

  // A comparison that answers true keeps answering true.
  lemma MustLessThanStable(a: CellState, c: CellState, a': CellState, c': CellState)
    requires |a.watermarks| == |c.watermarks| && Evolves(a, a') && Evolves(c, c') && a.MustLessThan(c)
    ensures a'.MustLessThan(c')
  {
    if a.Id() != c.Id() {
      var k :| 0 <= k <= |a.watermarks| && a.SettledAt(c, k);
      assert a'.SettledAt(c', k);
    }
  }

  // s' is a later state: cells that are or were heads have only evolved.
  ghost predicate Progresses(s: Replica, s': Replica) {
    && s.Shaped(|s.heads|) && s'.Shaped(|s.heads|)
    && s.delivered <= s'.delivered
    && forall g :: 0 <= g < |s.heads| ==>
         && s.heads[g] <= s'.heads[g] && |s.chains[g]| <= |s'.chains[g]|
         && forall b :: 0 <= b <= s.heads[g] ==> Evolves(s.chains[g][b], s'.chains[g][b])
  }

  lemma ProgressesReflexive(s: Replica)
    requires s.Shaped(|s.heads|)
    ensures Progresses(s, s)
  {
    forall g, b | 0 <= g < |s.heads| && 0 <= b <= s.heads[g] ensures Evolves(s.chains[g][b], s.chains[g][b]) {}
  }

  lemma ProgressesTransitive(s: Replica, t: Replica, u: Replica)
    requires Progresses(s, t) && Progresses(t, u)
    ensures Progresses(s, u)
  {
    forall g, b | 0 <= g < |s.heads| && 0 <= b <= s.heads[g] ensures Evolves(s.chains[g][b], u.chains[g][b]) {
      assert Evolves(s.chains[g][b], t.chains[g][b]) && Evolves(t.chains[g][b], u.chains[g][b]);
    }
  }

  lemma InitialOk(logs: Logs)
    requires WellFormedLogs(logs)
    ensures Inv(logs, seq(|logs|, v => 0), Initial(|logs|))
  {
    var n := |logs|;
    var seen := seq(n, v => 0);
    var s := Initial(n);
    forall v | 0 <= v < n ensures Prefix(logs, seen, v) == [] {}
    forall g, b | 0 <= g < n && 0 <= b < |s.chains[g]| ensures CellOk(logs, seen, s.chains[g][b]) {}
    ZeroHeads(s.heads, n);
  }

  lemma {:induction false} ZeroHeads(heads: seq<nat>, n: nat)
    requires n <= |heads| && forall g :: 0 <= g < n ==> heads[g] == 0
    ensures SumHeads(heads, n) == 0
  {
    if n > 0 { ZeroHeads(heads, n - 1); }
  }

  lemma TouchOk(logs: Logs, seen: seq<nat>, s: Replica, g: nat, b: nat)
    requires WellFormedLogs(logs) && SeenOk(logs, seen) && CellsOk(logs, seen, s)
    requires g < |logs| && b <= |s.chains[g]|
    ensures CellsOk(logs, seen, s.Touch(g, b))
  {
    hide WellFormedLog, VotesOn, LastMark, Stamp;
    if b == |s.chains[g]| {
      var c := NewCell(|logs|, g, b);
      forall v | 0 <= v < |logs| ensures EntryOk(logs, seen, c, v) {
        if v != g { PrefixFacts(logs[v], |logs|, v, seen[v], g, b); }
      }
    }
  }

  // The entry after a prefix fits to it.
  lemma NextEntry(log: Log, n: nat, v: nat, k: nat)
    requires WellFormedLog(log, n, v) && k < |log| && n >= 2
    ensures log[k].groupId < n
    ensures log[k].groupId != v ==>
      log[k].blockId == VotesOn(log[..k], log[k].groupId) && LastMark(log[..k], v) <= log[k].watermark
  {
    hide VotesOn, LastMark, Stamp;
    PrefixFacts(log, n, v, k + 1, if v == 0 then 1 else 0, 0);
    assert log[..k + 1][..k] == log[..k] && log[..k + 1][k] == log[k];
  }

  // What one more entry of v's log changes.
  lemma PrefixStep(logs: Logs, seen: seq<nat>, v: nat, g: nat)
    requires WellFormedLogs(logs) && SeenOk(logs, seen) && v < |logs| && seen[v] < |logs[v]| && g != v
    ensures SeenOk(logs, seen[v := seen[v] + 1])
    ensures
      var e, p, p' := logs[v][seen[v]], Prefix(logs, seen, v), Prefix(logs, seen[v := seen[v] + 1], v);
      && e.groupId < |logs|
      && VotesOn(p', g) == VotesOn(p, g) + (if e.groupId == g then 1 else 0)
      && LastMark(p', v) == (if e.groupId == v then LastMark(p, v) else e.watermark)
      && LastMark(p, v) <= LastMark(p', v)
      && (e.groupId != v ==>
        e.blockId == VotesOn(p, e.groupId) && Final(logs[v], v, e.groupId, e.blockId) == e.watermark)
  {
    hide WellFormedLog;
    var k := seen[v];
    var e := logs[v][k];
    var p' := logs[v][..k + 1];
    assert p'[..k] == logs[v][..k] && p'[k] == e;
    NextEntry(logs[v], |logs|, v, k);
    if e.groupId != v {
      PrefixFacts(logs[v], |logs|, v, k + 1, e.groupId, e.blockId);
    }
  }

  // A vote on the voter's own chain only moves the position in its log.
  lemma SelfVoteOk(logs: Logs, seen: seq<nat>, s: Replica, v: nat)
    requires WellFormedLogs(logs) && SeenOk(logs, seen) && CellsOk(logs, seen, s)
    requires v < |logs| && seen[v] < |logs[v]| && logs[v][seen[v]].groupId == v
    ensures SeenOk(logs, seen[v := seen[v] + 1]) && CellsOk(logs, seen[v := seen[v] + 1], s)
  {
    var seen' := seen[v := seen[v] + 1];
    forall g | 0 <= g < |logs| && g != v
      ensures VotesOn(Prefix(logs, seen', v), g) == VotesOn(Prefix(logs, seen, v), g)
      ensures LastMark(Prefix(logs, seen', v), v) == LastMark(Prefix(logs, seen, v), v)
    {
      PrefixStep(logs, seen, v, g);
    }
    forall g, b, u | 0 <= g < |logs| && 0 <= b < |s.chains[g]| && 0 <= u < |logs|
      ensures EntryOk(logs, seen', s.chains[g][b], u)
    {
      assert CellOk(logs, seen, s.chains[g][b]);
      assert EntryOk(logs, seen, s.chains[g][b], u);
    }
    assert forall g, b :: 0 <= g < |logs| && 0 <= b < |s.chains[g]| ==> CellOk(logs, seen', s.chains[g][b]);
    assert forall g, u :: 0 <= g < |logs| && 0 <= u < |logs| && u != g ==>
      VotesOn(Prefix(logs, seen', u), g) == VotesOn(Prefix(logs, seen, u), g);
  }

  // The CHECK of setIthWaterMark passes, and the new mark keeps all cells tied to the logs.
  lemma MarkOk(logs: Logs, seen: seq<nat>, s: Replica, v: nat)
    requires WellFormedLogs(logs) && SeenOk(logs, seen) && CellsOk(logs, seen, s)
    requires v < |logs| && seen[v] < |logs[v]|
    requires var e := logs[v][seen[v]]; e.groupId != v && e.groupId < |logs| && e.blockId < |s.chains[e.groupId]|
    ensures
      var e := logs[v][seen[v]];
      var c := s.chains[e.groupId][e.blockId];
      var seen' := seen[v := seen[v] + 1];
      && !c.isReal[v] && c.watermarks[v] <= e.watermark
      && SeenOk(logs, seen')
      && CellsOk(logs, seen', s.WithCell(e.groupId, e.blockId, c.WithMark(v, e.watermark)))
  {
    var e := logs[v][seen[v]];
    var c := s.chains[e.groupId][e.blockId];
    var seen' := seen[v := seen[v] + 1];
    var s' := s.WithCell(e.groupId, e.blockId, c.WithMark(v, e.watermark));
    PrefixStep(logs, seen, v, e.groupId);
    assert CellOk(logs, seen, c) && EntryOk(logs, seen, c, v);
    forall g, b, u | 0 <= g < |logs| && 0 <= b < |s.chains[g]| && 0 <= u < |logs|
      ensures s'.chains[g][b].Shaped(|logs|) && s'.chains[g][b].Id() == Block(g, b)
      ensures EntryOk(logs, seen', s'.chains[g][b], u)
    {
      MarkEntryOk(logs, seen, s, v, g, b, u);
    }
    forall g, b | 0 <= g < |logs| && 0 <= b < |s'.chains[g]| ensures CellOk(logs, seen', s'.chains[g][b]) {
      assert EntryOk(logs, seen', s'.chains[g][b], v);
    }
    forall g, u | 0 <= g < |logs| && 0 <= u < |logs| && u != g
      ensures VotesOn(Prefix(logs, seen', u), g) <= |s'.chains[g]|
    {
      assert VotesOn(Prefix(logs, seen, u), g) <= |s.chains[g]|;
      if u == v { PrefixStep(logs, seen, v, g); }
    }
  }

  lemma MarkEntryOk(logs: Logs, seen: seq<nat>, s: Replica, v: nat, g: nat, b: nat, u: nat)
    requires WellFormedLogs(logs) && SeenOk(logs, seen) && CellsOk(logs, seen, s)
    requires v < |logs| && seen[v] < |logs[v]|
    requires var e := logs[v][seen[v]]; e.groupId != v && e.groupId < |logs| && e.blockId < |s.chains[e.groupId]|
    requires g < |logs| && b < |s.chains[g]| && u < |logs|
    ensures
      var e := logs[v][seen[v]];
      var s' := s.WithCell(e.groupId, e.blockId, s.chains[e.groupId][e.blockId].WithMark(v, e.watermark));
      && s'.chains[g][b].Shaped(|logs|) && s'.chains[g][b].Id() == Block(g, b)
      && SeenOk(logs, seen[v := seen[v] + 1])
      && EntryOk(logs, seen[v := seen[v] + 1], s'.chains[g][b], u)
  {
    var e := logs[v][seen[v]];
    assert s.chains[g][b].Id() == Block(g, b);
    assert CellOk(logs, seen, s.chains[g][b]) && EntryOk(logs, seen, s.chains[g][b], u);
    PrefixStep(logs, seen, v, e.groupId);
    if g != v { PrefixStep(logs, seen, v, g); }
  }

  // The CHECKs of updateEstimate pass right after v's vote with watermark w.
  lemma RaiseOk(logs: Logs, seen: seq<nat>, s: Replica, v: nat, w: int)
    requires WellFormedLogs(logs) && SeenOk(logs, seen) && CellsOk(logs, seen, s)
    requires v < |logs| && w == LastMark(Prefix(logs, seen, v), v)
    ensures forall g :: 0 <= g < |logs| && !s.Head(g).isReal[v] ==> g != v && s.Head(g).watermarks[v] <= w
    ensures CellsOk(logs, seen, s.Raise(v, w))
  {
    var s' := s.Raise(v, w);
    forall g | 0 <= g < |logs| && !s.Head(g).isReal[v] ensures g != v && s.Head(g).watermarks[v] <= w {
      assert s.Head(g).Id() == Block(g, s.heads[g]);
      assert CellOk(logs, seen, s.Head(g)) && EntryOk(logs, seen, s.Head(g), v);
    }
    forall g, b | 0 <= g < |logs| && 0 <= b < |s'.chains[g]|
      ensures s'.chains[g][b].Id() == Block(g, b) && CellOk(logs, seen, s'.chains[g][b])
    {
      var c := s.chains[g][b];
      assert c.Id() == Block(g, b) && CellOk(logs, seen, c);
      forall u | 0 <= u < |logs| ensures s'.chains[g][b].Shaped(|logs|) && EntryOk(logs, seen, s'.chains[g][b], u) {
        assert EntryOk(logs, seen, c, u);
      }
      assert EntryOk(logs, seen, s'.chains[g][b], v);
    }
  }
}
