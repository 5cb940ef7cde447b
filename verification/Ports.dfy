/**
  Port numbers of a local deployment. All nodes of all groups run on one machine,
  and every node works out its ports on its own, from the sizes of the groups.
 */
module Ports {
  import opened Basics

  const LAST_PORT: int := 65535
  const LOCAL_SERVICES: nat := 7
  const REMOTE_SERVICES: nat := 2

  /* ---- the closed form ---- */

  // The nodes of the groups before g.
  function Before(counts: seq<nat>, g: nat): (n: nat)
    requires g <= |counts|
  {
    if g == 0 then 0 else Before(counts, g - 1) + counts[g - 1]
  }

  function Nodes(counts: seq<nat>): nat {
    Before(counts, |counts|)
  }

  datatype Endpoint =
    | Local(service: nat, group: nat, node: nat)
    | Remote(rservice: nat, rgroup: nat, rnode: nat, region: nat)

  predicate Exists(counts: seq<nat>, e: Endpoint) {
    match e
    case Local(s, g, n) => s < LOCAL_SERVICES && g < |counts| && n < counts[g]
    case Remote(s, g, n, r) => s < REMOTE_SERVICES && g < |counts| && n < counts[g] && r < |counts|
  }

  // The place of an endpoint, counted from the lowest port.
  function Place(counts: seq<nat>, e: Endpoint): (p: nat)
    requires Exists(counts, e)
  {
    match e
    case Local(s, g, n) => Mul(s, Nodes(counts)) + (Before(counts, g) + n)
    case Remote(s, g, n, r) =>
      Mul(LOCAL_SERVICES, Nodes(counts)) +
        (Mul(s, Mul(Nodes(counts), |counts|)) + (Mul(Before(counts, g) + n, |counts|) + r))
  }

  function Total(counts: seq<nat>): nat {
    Mul(LOCAL_SERVICES, Nodes(counts)) + Mul(REMOTE_SERVICES, Mul(Nodes(counts), |counts|))
  }

  /* ---- no two endpoints share a port ---- */

  // A number has at most one place in blocks of n.
  lemma BlockUnique(n: nat, a: nat, x: nat, b: nat, y: nat)
    requires x < n && y < n && Mul(a, n) + x == Mul(b, n) + y
    ensures a == b && x == y
  {
    hide Mul;
    MulStep(a, n);
    MulStep(b, n);
    if a < b { MulMonotone(a + 1, b, n); }
    if b < a { MulMonotone(b + 1, a, n); }
  }

  lemma BlockBound(n: nat, a: nat, x: nat, b: nat)
    requires x < n && a < b
    ensures Mul(a, n) + x < Mul(b, n)
  {
    hide Mul;
    MulStep(a, n);
    MulMonotone(a + 1, b, n);
  }

  lemma {:induction false} BeforeMonotone(counts: seq<nat>, g: nat, g': nat)
    requires g <= g' <= |counts|
    ensures Before(counts, g) <= Before(counts, g')
    decreases g'
  {
    if g < g' { BeforeMonotone(counts, g, g' - 1); }
  }

  lemma NodeBound(counts: seq<nat>, g: nat, n: nat)
    requires g < |counts| && n < counts[g]
    ensures Before(counts, g) + n < Nodes(counts)
  {
    BeforeMonotone(counts, g + 1, |counts|);
  }

  lemma NodeUnique(counts: seq<nat>, g: nat, n: nat, g': nat, n': nat)
    requires g < |counts| && n < counts[g] && g' < |counts| && n' < counts[g']
    requires Before(counts, g) + n == Before(counts, g') + n'
    ensures g == g' && n == n'
  {
    assert Before(counts, g + 1) == Before(counts, g) + counts[g];
    assert Before(counts, g' + 1) == Before(counts, g') + counts[g'];
    if g < g' { BeforeMonotone(counts, g + 1, g'); }
    if g' < g { BeforeMonotone(counts, g' + 1, g); }
  }

  // Local endpoints come first, and everything is below the total.
  lemma PlaceBound(counts: seq<nat>, e: Endpoint)
    requires Exists(counts, e)
    ensures Place(counts, e) < Total(counts)
    ensures e.Local? <==> Place(counts, e) < Mul(LOCAL_SERVICES, Nodes(counts))
  {
    hide Mul, Before, Nodes;
    match e
    case Local(s, g, n) =>
      NodeBound(counts, g, n);
      BlockBound(Nodes(counts), s, Before(counts, g) + n, LOCAL_SERVICES);
    case Remote(s, g, n, r) =>
      NodeBound(counts, g, n);
      BlockBound(|counts|, Before(counts, g) + n, r, Nodes(counts));
      BlockBound(Mul(Nodes(counts), |counts|), s, Mul(Before(counts, g) + n, |counts|) + r, REMOTE_SERVICES);
  }

  lemma PlacesDistinct(counts: seq<nat>, e: Endpoint, e': Endpoint)
    requires Exists(counts, e) && Exists(counts, e') && Place(counts, e) == Place(counts, e')
    ensures e == e'
  {
    hide Mul, Before, Nodes;
    PlaceBound(counts, e);
    PlaceBound(counts, e');
    match e
    case Local(s, g, n) =>
      NodeBound(counts, g, n);
      NodeBound(counts, e'.group, e'.node);
      BlockUnique(Nodes(counts), s, Before(counts, g) + n, e'.service, Before(counts, e'.group) + e'.node);
      NodeUnique(counts, g, n, e'.group, e'.node);
    case Remote(s, g, n, r) =>
      RemoteDistinct(counts, e, e');
  }

  lemma RemoteDistinct(counts: seq<nat>, e: Endpoint, e': Endpoint)
    requires Exists(counts, e) && Exists(counts, e') && e.Remote? && e'.Remote? && Place(counts, e) == Place(counts, e')
    ensures e == e'
  {
    hide Mul, Before, Nodes;
    var x, x' := Before(counts, e.rgroup) + e.rnode, Before(counts, e'.rgroup) + e'.rnode;
    NodeBound(counts, e.rgroup, e.rnode);
    NodeBound(counts, e'.rgroup, e'.rnode);
    BlockBound(|counts|, x, e.region, Nodes(counts));
    BlockBound(|counts|, x', e'.region, Nodes(counts));
    BlockUnique(Mul(Nodes(counts), |counts|), e.rservice, Mul(x, |counts|) + e.region, e'.rservice,
      Mul(x', |counts|) + e'.region);
    BlockUnique(|counts|, x, e.region, x', e'.region);
    NodeUnique(counts, e.rgroup, e.rnode, e'.rgroup, e'.rnode);
  }

  /* ---- and every port below the total is used ---- */

  lemma {:induction false} NodeAt(counts: seq<nat>, g: nat, x: nat) returns (h: nat, n: nat)
    requires g <= |counts| && x < Before(counts, g)
    ensures h < g && n < counts[h] && Before(counts, h) + n == x
    decreases g
  {
    if x >= Before(counts, g - 1) {
      h, n := g - 1, x - Before(counts, g - 1);
    } else {
      h, n := NodeAt(counts, g - 1, x);
    }
  }

  lemma {:induction false} BlockAt(n: nat, b: nat, p: nat) returns (a: nat, x: nat)
    requires p < Mul(b, n)
    ensures a < b && x < n && p == Mul(a, n) + x
    decreases b
  {
    hide Mul;
    MulStep(0, n);
    MulStep(b - 1, n);
    if p >= Mul(b - 1, n) {
      a, x := b - 1, p - Mul(b - 1, n);
    } else {
      a, x := BlockAt(n, b - 1, p);
    }
  }

  lemma PlaceAt(counts: seq<nat>, p: nat) returns (e: Endpoint)
    requires p < Total(counts)
    ensures Exists(counts, e) && Place(counts, e) == p
  {
    hide Mul, Before;
    var locals := Mul(LOCAL_SERVICES, Nodes(counts));
    if p < locals {
      var s, x := BlockAt(Nodes(counts), LOCAL_SERVICES, p);
      var g, n := NodeAt(counts, |counts|, x);
      e := Local(s, g, n);
    } else {
      var s, y := BlockAt(Mul(Nodes(counts), |counts|), REMOTE_SERVICES, p - locals);
      var x, r := BlockAt(|counts|, Nodes(counts), y);
      var g, n := NodeAt(counts, |counts|, x);
      e := Remote(s, g, n, r);
    }
  }

  /* ---- how a node works its ports out ---- */

  predicate IsPortValid(offset: int) {
    0 < offset <= LAST_PORT
  }

  class PortCalculator {
    const counts: seq<nat>
    const groupId: nat
    const nodeId: nat
    var portOffset: int
    var results: seq<seq<int>>

    constructor (counts_: seq<nat>, groupId_: nat, nodeId_: nat, offset: int)
      requires groupId_ < |counts_| && nodeId_ < counts_[groupId_]
      ensures counts == counts_ && groupId == groupId_ && nodeId == nodeId_ && portOffset == offset && results == []
    {
      counts, groupId, nodeId, portOffset, results := counts_, groupId_, nodeId_, offset, [];
    }

    // Ports for the nodes of the own group; the other groups are skipped.
    method NewLocalServicePorts() returns (ret: int)
      requires groupId < |counts|
      modifies this
      ensures var own := old(portOffset) + Before(counts, groupId);
        if IsPortValid(own + counts[groupId]) then
          && portOffset == old(portOffset) + Nodes(counts)
          && ret == |old(results)|
          && results == old(results) + [seq(counts[groupId], j => own + j)]
        else
          ret == -1 && results == old(results) && portOffset == own + counts[groupId]
    {
      hide Before;
      ret := -1;
      assert Before(counts, 0) == 0 by { NoNodes(counts); }
      for i := 0 to |counts|
        invariant portOffset == old(portOffset) + Before(counts, i)
        invariant if i <= groupId then ret == -1 && results == old(results)
                  else
                    && IsPortValid(old(portOffset) + Before(counts, groupId) + counts[groupId])
                    && ret == |old(results)|
                    && results ==
                      old(results) + [seq(counts[groupId], j => old(portOffset) + Before(counts, groupId) + j)]
      {
        BeforeStep(counts, i);
        var totalNodes := counts[i];
        if i != groupId {
          portOffset := portOffset + totalNodes;
          continue;
        }
        var start, result := portOffset, [];
        for j := 0 to totalNodes
          invariant portOffset == start + j && |result| == j && forall k :: 0 <= k < j ==> result[k] == start + k
          invariant results == old(results)
        {
          result := result + [portOffset];
          portOffset := portOffset + 1;
        }
        if !IsPortValid(portOffset) {
          return -1;
        }
        ret := |results|;
        assert result == seq(totalNodes, j => start + j);
        results := results + [result];
      }
    }

    // Ports for messages from every group, for the own node; the whole block of
    // all nodes is reserved.
    method NewRemoteServicePorts() returns (ret: int)
      requires groupId < |counts| && nodeId < counts[groupId]
      modifies this
      ensures portOffset == old(portOffset) + Mul(Nodes(counts), |counts|)
      ensures var own := old(portOffset) + Mul(Before(counts, groupId) + nodeId, |counts|);
        if IsPortValid(portOffset) then
          ret == |old(results)| && results == old(results) + [seq(|counts|, r => own + r)]
        else
          ret == -1 && results == old(results)
    {
      hide Before, Mul;
      var tmpOffset, groupCount := portOffset, |counts|;
      NoNodes(counts);
      MulStep(0, groupCount);
      for i := 0 to groupCount
        invariant portOffset == old(portOffset) + Mul(Before(counts, i), groupCount) && results == old(results)
      {
        BeforeStep(counts, i);
        MulSum(Before(counts, i), counts[i], groupCount);
        portOffset := portOffset + Mul(counts[i], groupCount);
      }
      for i := 0 to groupId
        invariant tmpOffset == old(portOffset) + Mul(Before(counts, i), groupCount)
        invariant portOffset == old(portOffset) + Mul(Nodes(counts), groupCount) && results == old(results)
      {
        BeforeStep(counts, i);
        MulSum(Before(counts, i), counts[i], groupCount);
        tmpOffset := tmpOffset + Mul(counts[i], groupCount);
      }
      MulSum(Before(counts, groupId), nodeId, groupCount);
      tmpOffset := tmpOffset + Mul(nodeId, groupCount);
      var start, result := tmpOffset, [];
      for i := 0 to groupCount
        invariant tmpOffset == start + i && |result| == i && forall k :: 0 <= k < i ==> result[k] == start + k
        invariant portOffset == old(portOffset) + Mul(Nodes(counts), groupCount) && results == old(results)
      {
        result := result + [tmpOffset];
        tmpOffset := tmpOffset + 1;
      }
      if !IsPortValid(portOffset) {
        return -1;
      }
      ret := |results|;
      assert result == seq(groupCount, r => start + r);
      results := results + [result];
    }
  }

  lemma NoNodes(counts: seq<nat>)
    ensures Before(counts, 0) == 0
  {
  }

  lemma BeforeStep(counts: seq<nat>, i: nat)
    requires i < |counts|
    ensures Before(counts, i + 1) == Before(counts, i) + counts[i]
  {
  }

  /* ---- all services of a node ---- */

  const FIRST_REMOTE: nat := 100

  function LocalRow(counts: seq<nat>, offset: int, g: nat, s: nat): seq<int>
    requires g < |counts| && s < LOCAL_SERVICES
  {
    seq(counts[g], j requires 0 <= j < counts[g] => offset + Place(counts, Local(s, g, j)))
  }

  function RemoteRow(counts: seq<nat>, offset: int, g: nat, n: nat, s: nat): seq<int>
    requires g < |counts| && n < counts[g] && s < REMOTE_SERVICES
  {
    seq(|counts|, r requires 0 <= r < |counts| => offset + Place(counts, Remote(s, g, n, r)))
  }

  // The lowest ports of the own group are positive, and the last port is legal.
  predicate Fits(counts: seq<nat>, offset: int, g: nat)
    requires g < |counts|
  {
    0 < offset + Before(counts, g) + counts[g] && offset + Total(counts) <= LAST_PORT
  }

  ghost predicate Refused(locals: map<nat, seq<int>>, remotes: map<nat, int>) {
    (exists s: nat :: s in locals && locals[s] == [-1]) || (exists s: nat :: s in remotes && remotes[s] == -1)
  }

  lemma RefusedStays(locals: map<nat, seq<int>>, remotes: map<nat, int>, s: nat, locals': map<nat, seq<int>>,
                     remotes': map<nat, int>)
    requires s !in locals && s !in remotes && Refused(locals, remotes)
    requires (forall t: nat :: t != s && t in locals ==> t in locals' && locals'[t] == locals[t])
    requires (forall t: nat :: t != s && t in remotes ==> t in remotes' && remotes'[t] == remotes[t])
    ensures Refused(locals', remotes')
  {
    if t: nat :| t in locals && locals[t] == [-1] {
      assert t in locals' && locals'[t] == [-1];
    } else {
      var t: nat :| t in remotes && remotes[t] == -1;
      assert t in remotes' && remotes'[t] == -1;
    }
  }

  class ZMQPortUtil {
    const calculator: PortCalculator
    var localMapper: map<nat, seq<int>>
    var remoteMapper: map<nat, int>

    constructor (counts: seq<nat>, groupId: nat, nodeId: nat, offset: int)
      requires groupId < |counts| && nodeId < counts[groupId]
      ensures fresh(calculator) && calculator.counts == counts && calculator.groupId == groupId
      ensures calculator.nodeId == nodeId
      ensures localMapper == map[] && remoteMapper == map[] && calculator.results == []
      ensures calculator.portOffset == offset
    {
      calculator := new PortCalculator(counts, groupId, nodeId, offset);
      localMapper, remoteMapper := map[], map[];
    }

    predicate InRange() {
      calculator.groupId < |calculator.counts| && calculator.nodeId < calculator.counts[calculator.groupId]
    }

    // The first k local and m remote services have their ports.
    ghost predicate Assigned(offset: int, k: nat, m: nat)
      requires InRange() && k <= LOCAL_SERVICES && m <= REMOTE_SERVICES
      reads this, calculator
    {
      var c := calculator;
      && c.portOffset == offset + Mul(k, Nodes(c.counts)) + Mul(m, Mul(Nodes(c.counts), |c.counts|))
      && (k > 0 ==> 0 < offset + Before(c.counts, c.groupId) + c.counts[c.groupId])
      && (m > 0 ==> c.portOffset <= LAST_PORT)
      && |c.results| == k + m
      && (forall s: nat :: s < k ==> c.results[s] == LocalRow(c.counts, offset, c.groupId, s))
      && (forall s: nat :: s < m ==> c.results[k + s] == RemoteRow(c.counts, offset, c.groupId, c.nodeId, s))
      && (forall s: nat :: s in localMapper ==> localMapper[s] == [s])
      && (forall s: nat :: s in remoteMapper ==> remoteMapper[s] == k + s - FIRST_REMOTE)
    }

    // Some service was refused.
    ghost predicate Failed()
      reads this
    {
      Refused(localMapper, remoteMapper)
    }

    ghost predicate Progress(offset: int, k: nat, m: nat)
      requires InRange() && k <= LOCAL_SERVICES && m <= REMOTE_SERVICES
      reads this, calculator
    {
      && (Assigned(offset, k, m) || (Failed() && !Fits(calculator.counts, offset, calculator.groupId)))
      && (forall s: nat :: s in localMapper <==> s < k)
      && (forall s: nat :: s in remoteMapper <==> FIRST_REMOTE <= s < FIRST_REMOTE + m)
    }

    method PushLocal(portType: nat, ghost offset: int)
      requires InRange() && portType < LOCAL_SERVICES && Progress(offset, portType, 0)
      modifies this, calculator
      ensures Progress(offset, portType + 1, 0)
    {
      hide Mul, Before, Nodes, Place, LocalRow, Fits;
      ghost var c, fine := calculator, Assigned(offset, portType, 0);
      LocalStep(c.counts, offset, c.groupId, portType);
      MulStep(0, Mul(Nodes(c.counts), |c.counts|));
      MulStep(0, Nodes(c.counts));
      var index := calculator.NewLocalServicePorts();
      localMapper := localMapper[portType := [index]];
      if fine && index != -1 {
        assert Assigned(offset, portType + 1, 0);
      } else if fine {
        assert portType in localMapper && localMapper[portType] == [-1];
      } else {
        RefusedStays(old(localMapper), remoteMapper, portType, localMapper, remoteMapper);
      }
    }

    method SetRemote(portType: nat, ghost offset: int)
      requires InRange() && portType < REMOTE_SERVICES && Progress(offset, LOCAL_SERVICES, portType)
      modifies this, calculator
      ensures Progress(offset, LOCAL_SERVICES, portType + 1)
    {
      hide Mul, Before, Nodes, Place, RemoteRow, Fits;
      ghost var c, fine := calculator, Assigned(offset, LOCAL_SERVICES, portType);
      RemoteStep(c.counts, offset, c.groupId, c.nodeId, portType);
      var index := calculator.NewRemoteServicePorts();
      remoteMapper := remoteMapper[FIRST_REMOTE + portType := index];
      if fine && index != -1 {
        assert Assigned(offset, LOCAL_SERVICES, portType + 1);
      } else if fine {
        assert FIRST_REMOTE + portType in remoteMapper && remoteMapper[FIRST_REMOTE + portType] == -1;
      } else {
        RefusedStays(localMapper, old(remoteMapper), FIRST_REMOTE + portType, localMapper, remoteMapper);
      }
    }

    // Either every service has the ports of the closed form, or the ports do
    // not fit and some service was refused.
    method InitWithLocalDeployment()
      requires InRange() && localMapper == map[] && remoteMapper == map[] && calculator.results == []
      modifies this, calculator
      ensures !Failed() <==> Fits(calculator.counts, old(calculator.portOffset), calculator.groupId)
      ensures !Failed() ==> Assigned(old(calculator.portOffset), LOCAL_SERVICES, REMOTE_SERVICES)
      ensures Progress(old(calculator.portOffset), LOCAL_SERVICES, REMOTE_SERVICES)
    {
      hide Progress, Fits, Assigned, Failed;
      ghost var offset := calculator.portOffset;
      NothingYet(this);
      PushLocal(0, offset);
      PushLocal(1, offset);
      PushLocal(2, offset);
      PushLocal(3, offset);
      PushLocal(4, offset);
      PushLocal(5, offset);
      PushLocal(6, offset);
      SetRemote(0, offset);
      SetRemote(1, offset);
      AssignedIff(this, offset);
    }

    method GetLocalServicePorts(portType: nat, ghost offset: int) returns (ports: seq<int>)
      requires InRange() && portType in localMapper
      requires Progress(offset, LOCAL_SERVICES, REMOTE_SERVICES) && Assigned(offset, LOCAL_SERVICES, REMOTE_SERVICES)
      ensures |ports| == calculator.counts[calculator.groupId]
      ensures forall j :: 0 <= j < |ports| ==>
        ports[j] == offset + Place(calculator.counts, Local(portType, calculator.groupId, j))
    {
      hide Mul, Before, Nodes, Place;
      ports := calculator.results[localMapper[portType][0]];
    }

    method GetRemoteServicePort(portType: nat, regionId: nat, ghost offset: int) returns (port: int)
      requires InRange() && portType in remoteMapper && regionId < |calculator.counts|
      requires Progress(offset, LOCAL_SERVICES, REMOTE_SERVICES) && Assigned(offset, LOCAL_SERVICES, REMOTE_SERVICES)
      ensures portType >= FIRST_REMOTE && portType - FIRST_REMOTE < REMOTE_SERVICES
      ensures var remote := Remote(portType - FIRST_REMOTE, calculator.groupId, calculator.nodeId, regionId);
        port == offset + Place(calculator.counts, remote)
    {
      hide Mul, Before, Nodes, Place;
      ghost var s := portType - FIRST_REMOTE;
      assert calculator.results[LOCAL_SERVICES + s] ==
        RemoteRow(calculator.counts, offset, calculator.groupId, calculator.nodeId, s);
      port := calculator.results[remoteMapper[portType]][regionId];
    }
  }

  // Two nodes of the same group work out the same ports for the group's nodes.
  lemma PeersAgree(p: ZMQPortUtil, q: ZMQPortUtil, offset: int, s: nat)
    requires p.InRange() && q.InRange() && s < LOCAL_SERVICES
    requires p.calculator.counts == q.calculator.counts && p.calculator.groupId == q.calculator.groupId
    requires p.Assigned(offset, LOCAL_SERVICES, REMOTE_SERVICES) && q.Assigned(offset, LOCAL_SERVICES, REMOTE_SERVICES)
    ensures p.calculator.results[s] == q.calculator.results[s]
  {
  }

  // In a deployment that fits, every endpoint has a legal port of its own.
  lemma PortsDistinctAndLegal(counts: seq<nat>, offset: int, g: nat, e: Endpoint, e': Endpoint)
    requires g < |counts| && Fits(counts, offset, g) && 0 < offset && Exists(counts, e) && Exists(counts, e')
    ensures 0 < offset + Place(counts, e) < 65535
    ensures offset + Place(counts, e) == offset + Place(counts, e') <==> e == e'
  {
    hide Mul, Before, Nodes, Place;
    PlaceBound(counts, e);
    if offset + Place(counts, e) == offset + Place(counts, e') {
      PlacesDistinct(counts, e, e');
    }
  }

  lemma NothingYet(p: ZMQPortUtil)
    requires p.InRange() && p.localMapper == map[] && p.remoteMapper == map[] && p.calculator.results == []
    ensures p.Progress(p.calculator.portOffset, 0, 0)
  {
    hide Mul, Nodes;
    MulStep(0, Nodes(p.calculator.counts));
    MulStep(0, Mul(Nodes(p.calculator.counts), |p.calculator.counts|));
    assert p.Assigned(p.calculator.portOffset, 0, 0);
  }

  lemma AssignedIff(p: ZMQPortUtil, offset: int)
    requires p.InRange() && p.Progress(offset, LOCAL_SERVICES, REMOTE_SERVICES)
    ensures !p.Failed() <==> Fits(p.calculator.counts, offset, p.calculator.groupId)
    ensures !p.Failed() ==> p.Assigned(offset, LOCAL_SERVICES, REMOTE_SERVICES)
  {
    hide Mul, Nodes, Before, LocalRow, RemoteRow;
  }

  lemma RemoteStep(counts: seq<nat>, offset: int, g: nat, n: nat, s: nat)
    requires g < |counts| && n < counts[g] && s < REMOTE_SERVICES
    ensures var base := offset + Mul(LOCAL_SERVICES, Nodes(counts)) + Mul(s, Mul(Nodes(counts), |counts|));
      var own := base + Mul(Before(counts, g) + n, |counts|);
      && RemoteRow(counts, offset, g, n, s) == seq(|counts|, r => own + r)
      && (!IsPortValid(base + Mul(Nodes(counts), |counts|)) ==> !Fits(counts, offset, g))
    ensures Mul(s + 1, Mul(Nodes(counts), |counts|)) ==
      Mul(s, Mul(Nodes(counts), |counts|)) + Mul(Nodes(counts), |counts|)
  {
    hide Mul, Before, Nodes;
    var block := Mul(Nodes(counts), |counts|);
    var own := offset + Mul(LOCAL_SERVICES, Nodes(counts)) + Mul(s, block) + Mul(Before(counts, g) + n, |counts|);
    assert RemoteRow(counts, offset, g, n, s) == seq(|counts|, r => own + r);
    MulStep(s, block);
    MulMonotone(s + 1, REMOTE_SERVICES, block);
    MulStep(0, Nodes(counts));
    MulStep(0 + 1, Nodes(counts));
    MulMonotone(1, LOCAL_SERVICES, Nodes(counts));
    BeforeStep(counts, g);
    BeforeIn(counts, g + 1);
  }

  lemma LocalStep(counts: seq<nat>, offset: int, g: nat, s: nat)
    requires g < |counts| && s < LOCAL_SERVICES
    ensures var own := offset + Mul(s, Nodes(counts)) + Before(counts, g);
      && LocalRow(counts, offset, g, s) == seq(counts[g], j => own + j)
      && (!IsPortValid(own + counts[g]) ==> !Fits(counts, offset, g))
    ensures Mul(s + 1, Nodes(counts)) == Mul(s, Nodes(counts)) + Nodes(counts)
  {
    hide Mul, Before, Nodes;
    var own := offset + Mul(s, Nodes(counts)) + Before(counts, g);
    assert LocalRow(counts, offset, g, s) == seq(counts[g], j => own + j);
    MulStep(s, Nodes(counts));
    MulMonotone(s + 1, LOCAL_SERVICES, Nodes(counts));
    BeforeStep(counts, g);
    BeforeIn(counts, g + 1);
  }

  lemma BeforeIn(counts: seq<nat>, g: nat)
    requires g <= |counts|
    ensures Before(counts, g) <= Nodes(counts)
  {
    BeforeMonotone(counts, g, |counts|);
  }

  // Groups of four, five and six nodes: the ports of node 2 of group 1, and the
  // number of ports in all.
  lemma PortsOfFifteen(s: nat, r: nat)
    requires s < LOCAL_SERVICES && r < 3
    ensures Exists([4, 5, 6], Local(s, 1, 2)) && Place([4, 5, 6], Local(s, 1, 2)) == 15 * s + 6
    ensures Exists([4, 5, 6], Remote(0, 1, 2, r)) && Place([4, 5, 6], Remote(0, 1, 2, r)) == 123 + r
    ensures Exists([4, 5, 6], Remote(1, 1, 2, r)) && Place([4, 5, 6], Remote(1, 1, 2, r)) == 168 + r
    ensures Total([4, 5, 6]) == 195
  {
    assert Before([4, 5, 6], 1) == 4 && Before([4, 5, 6], 2) == 9 && Nodes([4, 5, 6]) == 15;
  }
}
