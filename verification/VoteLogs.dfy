/**
  The environment of the global block ordering: what every group leader has
  stamped, and the total order that those stamps induce on all blocks.

  A leader appends one vote per block to its own replicated log. Replicas see
  prefixes of these logs; the logs themselves are the same everywhere.
 */
module VoteLogs {

  const INVALID_WATERMARK: int := -1

  datatype Block = Block(groupId: nat, blockId: nat)

  datatype Vote = Vote(groupId: nat, blockId: nat, watermark: int)

  type Log = seq<Vote>

  // How many votes on chain g the log holds.
  function VotesOn(log: Log, g: nat): nat {
    if log == [] then 0
    else VotesOn(log[..|log| - 1], g) + if log[|log| - 1].groupId == g then 1 else 0
  }

  // The watermark of the last vote on a block of another group than v.
  function LastMark(log: Log, v: nat): int {
    if log == [] then INVALID_WATERMARK
    else if log[|log| - 1].groupId == v then LastMark(log[..|log| - 1], v)
    else log[|log| - 1].watermark
  }

  // The watermark that the log assigns to block (g, b).
  function Stamp(log: Log, g: nat, b: nat): int {
    if log == [] then INVALID_WATERMARK
    else if log[|log| - 1].groupId == g && log[|log| - 1].blockId == b then log[|log| - 1].watermark
    else Stamp(log[..|log| - 1], g, b)
  }

  // Voter v of n groups votes on every other chain in block order 0, 1, 2, ...
  // and its watermarks on other groups' blocks never decrease.
  predicate WellFormedLog(log: Log, n: nat, v: nat) {
    log == [] ||
    var front, last := log[..|log| - 1], log[|log| - 1];
    && WellFormedLog(front, n, v)
    && last.groupId < n
    && (last.groupId != v ==> last.blockId == VotesOn(front, last.groupId) && LastMark(front, v) <= last.watermark)
  }

  // The watermark of voter v on (g, b) that no later vote can undercut: the
  // real one when it is in the log, otherwise the last watermark issued.
  function Final(log: Log, v: nat, g: nat, b: nat): int {
    if v == g then b
    else if b < VotesOn(log, g) then Stamp(log, g, b)
    else LastMark(log, v)
  }

  type Logs = seq<Log>

  ghost predicate WellFormedLogs(logs: Logs) {
    && 2 <= |logs|
    && forall v :: 0 <= v < |logs| ==> WellFormedLog(logs[v], |logs|, v)
  }

  // (final watermark vector, block id, group id)
  function Key(logs: Logs, x: Block): (key: seq<int>) {
    seq(|logs|, v requires 0 <= v < |logs| => Final(logs[v], v, x.groupId, x.blockId)) + [x.blockId, x.groupId]
  }

  predicate AgreeBelow(s: seq<int>, t: seq<int>, k: nat)
    requires k <= |s| && k <= |t|
  {
    forall i :: 0 <= i < k ==> s[i] == t[i]
  }

  ghost predicate LexLess(s: seq<int>, t: seq<int>)
    requires |s| == |t|
  {
    exists k :: 0 <= k < |s| && AgreeBelow(s, t, k) && s[k] < t[k]
  }

  // The global order of blocks.
  ghost predicate Before(logs: Logs, x: Block, y: Block) {
    LexLess(Key(logs, x), Key(logs, y))
  }

  ghost predicate StrictlySorted(logs: Logs, d: seq<Block>) {
    forall i, j :: 0 <= i < j < |d| ==> Before(logs, d[i], d[j])
  }

  // d enumerates the blocks from the smallest on, leaving none out.
  ghost predicate InitialSegment(logs: Logs, d: seq<Block>) {
    && StrictlySorted(logs, d)
    && (forall x :: x in d ==> x.groupId < |logs|)
    && (forall x, y :: x in d && y !in d && y.groupId < |logs| ==> Before(logs, x, y))
  }

  lemma {:induction false} PrefixFacts(log: Log, n: nat, v: nat, k: nat, g: nat, b: nat)
    requires WellFormedLog(log, n, v) && k <= |log| && g != v
    ensures WellFormedLog(log[..k], n, v)
    ensures INVALID_WATERMARK <= LastMark(log[..k], v) <= LastMark(log, v)
    ensures VotesOn(log[..k], g) <= VotesOn(log, g)
    ensures b < VotesOn(log[..k], g) ==>
      INVALID_WATERMARK <= Stamp(log[..k], g, b) == Stamp(log, g, b) <= LastMark(log[..k], v)
    ensures VotesOn(log[..k], g) <= b < VotesOn(log, g) ==> LastMark(log[..k], v) <= Stamp(log, g, b)
    decreases |log|
  {
    if log == [] {
    } else if k == |log| {
      assert log[..k] == log;
      PrefixFacts(log[..|log| - 1], n, v, |log| - 1, g, b);
      assert log[..|log| - 1][..|log| - 1] == log[..|log| - 1];
    } else {
      var front := log[..|log| - 1];
      assert front[..k] == log[..k];
      PrefixFacts(front, n, v, k, g, b);
    }
  }

  lemma {:induction false} StampMonotone(log: Log, n: nat, v: nat, g: nat, b: nat)
    requires WellFormedLog(log, n, v) && g != v && b + 1 < VotesOn(log, g)
    ensures Stamp(log, g, b) <= Stamp(log, g, b + 1)
  {
    var front, last := log[..|log| - 1], log[|log| - 1];
    PrefixFacts(log, n, v, |front|, g, b);
    if b + 1 < VotesOn(front, g) {
      StampMonotone(front, n, v, g, b);
    }
  }

  // Along one chain the final watermarks of every voter never decrease.
  lemma {:induction false} FinalMonotone(log: Log, n: nat, v: nat, g: nat, b: nat, b': nat)
    requires WellFormedLog(log, n, v) && b <= b'
    ensures INVALID_WATERMARK <= Final(log, v, g, b) <= Final(log, v, g, b')
    decreases b' - b
  {
    if v != g {
      assert log[..|log|] == log;
      PrefixFacts(log, n, v, |log|, g, b);
      if b < b' {
        FinalMonotone(log, n, v, g, b + 1, b');
        if b + 1 < VotesOn(log, g) {
          StampMonotone(log, n, v, g, b);
        }
      }
    }
  }

  lemma LexLessAsymmetric(s: seq<int>, t: seq<int>)
    requires |s| == |t| && LexLess(s, t)
    ensures !LexLess(t, s)
  {
  }

  lemma LexLessTransitive(s: seq<int>, t: seq<int>, u: seq<int>)
    requires |s| == |t| == |u| && LexLess(s, t) && LexLess(t, u)
    ensures LexLess(s, u)
  {
    var k :| 0 <= k < |s| && AgreeBelow(s, t, k) && s[k] < t[k];
    var j :| 0 <= j < |s| && AgreeBelow(t, u, j) && t[j] < u[j];
    assert AgreeBelow(s, u, if k < j then k else j);
  }

  lemma {:induction false} LexLessTotal(s: seq<int>, t: seq<int>, k: nat)
    requires |s| == |t| && k <= |s| && AgreeBelow(s, t, k) && s != t
    ensures LexLess(s, t) || LexLess(t, s)
    decreases |s| - k
  {
    if k < |s| && s[k] == t[k] {
      LexLessTotal(s, t, k + 1);
    } else {
      assert AgreeBelow(t, s, k);
    }
  }

  // A pointwise larger sequence with some strictly larger entry is larger.
  lemma {:induction false} LexLessPointwise(s: seq<int>, t: seq<int>, k: nat, m: nat)
    requires |s| == |t| && k <= m < |s| && AgreeBelow(s, t, k) && s[m] < t[m]
    requires forall i :: 0 <= i <= m ==> s[i] <= t[i]
    ensures LexLess(s, t)
    decreases m - k
  {
    if s[k] == t[k] {
      LexLessPointwise(s, t, k + 1, m);
    }
  }

  // The order is total on all blocks of the n groups.
  lemma BeforeTotal(logs: Logs, x: Block, y: Block)
    requires x != y
    ensures Before(logs, x, y) || Before(logs, y, x)
  {
    var s, t := Key(logs, x), Key(logs, y);
    assert s[|logs|] == x.blockId && t[|logs|] == y.blockId;
    assert s[|logs| + 1] == x.groupId && t[|logs| + 1] == y.groupId;
    LexLessTotal(s, t, 0);
  }

  lemma BeforeAsymmetric(logs: Logs, x: Block, y: Block)
    requires Before(logs, x, y)
    ensures !Before(logs, y, x) && x != y
  {
    LexLessAsymmetric(Key(logs, x), Key(logs, y));
  }

  lemma BeforeTransitive(logs: Logs, x: Block, y: Block, z: Block)
    requires Before(logs, x, y) && Before(logs, y, z)
    ensures Before(logs, x, z)
  {
    LexLessTransitive(Key(logs, x), Key(logs, y), Key(logs, z));
  }

  // Blocks of one chain are ordered by their block ids.
  lemma ChainIncreasing(logs: Logs, g: nat, b: nat, b': nat)
    requires WellFormedLogs(logs) && b < b'
    ensures Before(logs, Block(g, b), Block(g, b'))
  {
    var s, t := Key(logs, Block(g, b)), Key(logs, Block(g, b'));
    forall i | 0 <= i <= |logs| ensures s[i] <= t[i] {
      if i < |logs| {
        FinalMonotone(logs[i], |logs|, i, g, b, b');
      }
    }
    LexLessPointwise(s, t, 0, |logs|);
  }

  // Two initial segments of the same order cannot diverge.
  lemma {:induction false} SegmentsAgreeUpTo(logs: Logs, d: seq<Block>, e: seq<Block>, k: nat)
    requires InitialSegment(logs, d) && InitialSegment(logs, e)
    requires k <= |d| && k <= |e|
    ensures d[..k] == e[..k]
  {
    if k > 0 {
      SegmentsAgreeUpTo(logs, d, e, k - 1);
      var x, y := d[k - 1], e[k - 1];
      SegmentNext(logs, d, e, k - 1);
      SegmentNext(logs, e, d, k - 1);
      if x != y {
        BeforeAsymmetric(logs, x, y);
      }
      assert d[..k] == d[..k - 1] + [x] && e[..k] == e[..k - 1] + [y];
    }
  }

  lemma SegmentNext(logs: Logs, d: seq<Block>, e: seq<Block>, k: nat)
    requires InitialSegment(logs, d) && InitialSegment(logs, e)
    requires k < |d| && k < |e| && d[..k] == e[..k]
    ensures d[k] != e[k] ==> Before(logs, e[k], d[k])
  {
    hide Before;
    assert forall j :: 0 <= j < k ==> e[j] in e[..k];
    NoRepeat(logs, d, k);
    if d[k] != e[k] && d[k] in e {
      var j :| 0 <= j < |e| && e[j] == d[k];
      assert k < j;
    }
  }

  lemma NoRepeat(logs: Logs, d: seq<Block>, k: nat)
    requires InitialSegment(logs, d) && k < |d|
    ensures d[k] !in d[..k]
  {
    forall j | 0 <= j < k ensures d[j] != d[k] {
      BeforeAsymmetric(logs, d[j], d[k]);
    }
  }
}
