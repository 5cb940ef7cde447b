/**
  What the comparison of two heads means. An entry that is not real may still turn
  out larger, so a cell stands for all its completions. The comparison answers true
  exactly when one index settles all pairs of completions.
 */
module OrderCompletions {
  import opened VoteLogs
  import opened OrderSpec

  // x is a watermark vector that c can still end up with.
  ghost predicate Completion(c: CellState, x: seq<int>)
    requires |c.watermarks| == |c.isReal|
  {
    && |x| == |c.watermarks|
    && forall i :: 0 <= i < |x| ==> if c.isReal[i] then x[i] == c.watermarks[i] else c.watermarks[i] <= x[i]
  }

  function KeyWith(c: CellState, x: seq<int>): seq<int> {
    x + [c.blockId, c.groupId]
  }

  // Whatever the completions, the keys first differ at index k, and there a is smaller.
  ghost predicate AlwaysLessAt(a: CellState, c: CellState, k: nat)
    requires |a.watermarks| == |a.isReal| == |c.watermarks| == |c.isReal| && k < |a.watermarks| + 2
  {
    forall x, y :: Completion(a, x) && Completion(c, y) ==>
      AgreeBelow(KeyWith(a, x), KeyWith(c, y), k) && KeyWith(a, x)[k] < KeyWith(c, y)[k]
  }

  lemma SettledIsAlways(a: CellState, c: CellState, k: nat)
    requires |a.watermarks| == |a.isReal| == |c.watermarks| == |c.isReal| && k <= |a.watermarks|
    requires a.SettledAt(c, k)
    ensures AlwaysLessAt(a, c, if k < |a.watermarks| || a.blockId < c.blockId then k else k + 1)
  {
  }

  // An entry that is not real can grow as far as one likes.
  lemma Grown(c: CellState, i: nat, w: int)
    requires |c.watermarks| == |c.isReal| && i < |c.watermarks| && !c.isReal[i] && c.watermarks[i] <= w
    ensures Completion(c, c.watermarks[i := w]) && KeyWith(c, c.watermarks[i := w])[i] == w
  {
  }

  lemma AgreeingIsReal(a: CellState, c: CellState, k: nat, i: nat)
    requires |a.watermarks| == |a.isReal| == |c.watermarks| == |c.isReal| && i < k < |a.watermarks| + 2
    requires AlwaysLessAt(a, c, k) && i < |a.watermarks|
    ensures a.isReal[i] && c.isReal[i] && a.watermarks[i] == c.watermarks[i]
  {
    var x, y := a.watermarks, c.watermarks;
    assert Completion(a, x) && Completion(c, y);
    assert KeyWith(a, x)[i] == x[i] && KeyWith(c, y)[i] == y[i];
    if !a.isReal[i] {
      Grown(a, i, x[i] + 1);
    }
    if !c.isReal[i] {
      Grown(c, i, y[i] + 1);
    }
  }

  lemma AlwaysIsSettled(a: CellState, c: CellState, k: nat)
    requires |a.watermarks| == |a.isReal| == |c.watermarks| == |c.isReal| && k < |a.watermarks| + 2
    requires AlwaysLessAt(a, c, k)
    ensures a.SettledAt(c, if k <= |a.watermarks| then k else |a.watermarks|)
  {
    var n, x, y := |a.watermarks|, a.watermarks, c.watermarks;
    forall i | 0 <= i < k && i < n ensures a.isReal[i] && c.isReal[i] && x[i] == y[i] {
      AgreeingIsReal(a, c, k, i);
    }
    assert Completion(a, x) && Completion(c, y);
    var s, t := KeyWith(a, x), KeyWith(c, y);
    assert AgreeBelow(s, t, k) && s[k] < t[k];
    assert k == n + 1 ==> s[n] == t[n];
    if k < n && !a.isReal[k] {
      Grown(a, k, y[k]);
    }
  }

  // The comparison of two cells of different blocks, exactly.
  lemma MustLessThanIff(a: CellState, c: CellState)
    requires |a.watermarks| == |a.isReal| == |c.watermarks| == |c.isReal| && a.Id() != c.Id()
    ensures a.MustLessThan(c) <==> exists k :: 0 <= k < |a.watermarks| + 2 && AlwaysLessAt(a, c, k)
  {
    hide AlwaysLessAt;
    if k :| 0 <= k <= |a.watermarks| && a.SettledAt(c, k) {
      SettledIsAlways(a, c, k);
    }
    if k :| 0 <= k < |a.watermarks| + 2 && AlwaysLessAt(a, c, k) {
      AlwaysIsSettled(a, c, k);
    }
  }

  // The index must be the same for all completions: here every pair of
  // completions has the first cell smaller, at index 0 or 1, and the answer is no.
  lemma Cautious()
    ensures var a, c := CellState(0, 1, [1, 0], [true, true]), CellState(1, 5, [1, 5], [false, true]);
      && !a.MustLessThan(c)
      && forall x, y :: Completion(a, x) && Completion(c, y) ==> LexLess(KeyWith(a, x), KeyWith(c, y))
  {
    var a, c := CellState(0, 1, [1, 0], [true, true]), CellState(1, 5, [1, 5], [false, true]);
    forall x, y | Completion(a, x) && Completion(c, y) ensures LexLess(KeyWith(a, x), KeyWith(c, y)) {
      var k := if y[0] == 1 then 1 else 0;
      assert AgreeBelow(KeyWith(a, x), KeyWith(c, y), k);
    }
  }
}
