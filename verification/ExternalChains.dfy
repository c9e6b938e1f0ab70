/** External proxies that are dialled through one another: what a subscriber receives, and
  * the setting that refuses to let a chain loop back on itself. */
module ExternalChains {
  import opened Collections
  import opened Wrappers
  import opened Graphs

  // The columns of external_proxies that decide what goes out. chainNode and chainProxy are
  // "" when the column is NULL.
  datatype Proxy = Proxy(
    id: string, subId: string, name: string, typ: string, server: string, port: int,
    config: string, displayName: string, chainNode: string, chainProxy: string,
    enabled: bool, ord: nat, sortOrder: nat, relayExposed: bool)
  {
    predicate Relayed() { chainNode != "" }

    function Label(): string { if displayName != "" then displayName else name }

    function ChainTarget(): ChainRef {
      if chainProxy != "" then ViaProxy(chainProxy)
      else if chainNode != "" then ViaNode(chainNode)
      else Direct
    }
  }

  // What a proxy is dialled through.
  datatype ChainRef = Direct | ViaNode(nodeId: string) | ViaProxy(proxyId: string)

  // ---------- which proxies survive their chains ----------

  predicate Allowed(p: Proxy, denied: set<string>) {
    p.id !in denied && !(p.Relayed() && !p.relayExposed)
  }

  // The proxies this subscriber would get if no chain were missing, by id.
  function Permitted(all: seq<Proxy>, denied: set<string>): (m: map<string, Proxy>)
    ensures forall id :: id in m ==> m[id] in all && m[id].id == id && Allowed(m[id], denied)
    ensures forall p :: p in all && Allowed(p, denied) ==> p.id in m
  {
    if all == [] then map[]
    else
      var init, last := all[..|all| - 1], all[|all| - 1];
      var m := Permitted(init, denied);
      assert all == init + [last];
      if Allowed(last, denied) then m[last.id := last] else m
  }

  // chainName gives the name a fleet node has in this subscriber's document, "" for none.
  predicate Resolves(p: Proxy, kept: set<string>, chainName: string -> string) {
    match p.ChainTarget()
    case Direct => true
    case ViaNode(n) => chainName(n) != ""
    case ViaProxy(q) => q in kept
  }

  // A set of permitted proxies none of which is missing its chain target.
  ghost predicate SelfContained(s: set<string>, m: map<string, Proxy>, chainName: string -> string) {
    s <= m.Keys && forall id :: id in s ==> Resolves(m[id], s, chainName)
  }

  ghost predicate RightlyBlocked(blocked: map<string, ChainRef>, keys: set<string>, m: map<string, Proxy>,
                                 chainName: string -> string)
    requires blocked.Keys <= m.Keys
  {
    forall id :: id in blocked ==> blocked[id] == m[id].ChainTarget() && !Resolves(m[id], keys, chainName)
  }

  ghost predicate HoldsAllContained(keys: set<string>, m: map<string, Proxy>, chainName: string -> string) {
    forall s :: SelfContained(s, m, chainName) ==> s <= keys
  }

  // What holds between removals: nothing self-contained was lost, and whoever was removed is
  // recorded with a target that is missing.
  ghost predicate Settling(carried: map<string, Proxy>, blocked: map<string, ChainRef>,
                           m: map<string, Proxy>, chainName: string -> string)
  {
    && carried.Keys <= m.Keys
    && (forall id :: id in carried ==> carried[id] == m[id])
    && HoldsAllContained(carried.Keys, m, chainName)
    && blocked.Keys == m.Keys - carried.Keys
    && RightlyBlocked(blocked, carried.Keys, m, chainName)
  }

  lemma ResolvesInMore(p: Proxy, fewer: set<string>, more: set<string>, chainName: string -> string)
    requires fewer <= more && Resolves(p, fewer, chainName)
    ensures Resolves(p, more, chainName)
  {
  }

  lemma NothingContainedNeeds(carried: set<string>, m: map<string, Proxy>, chainName: string -> string,
                              id: string, s: set<string>)
    requires id in m && !Resolves(m[id], carried, chainName)
    requires SelfContained(s, m, chainName) && s <= carried
    ensures s <= carried - {id}
  {
    if id in s { ResolvesInMore(m[id], s, carried, chainName); }
  }

  lemma StillHoldsContained(keys: set<string>, m: map<string, Proxy>, chainName: string -> string, id: string)
    requires keys <= m.Keys && HoldsAllContained(keys, m, chainName)
    requires id in keys && !Resolves(m[id], keys, chainName)
    ensures HoldsAllContained(keys - {id}, m, chainName)
  {
    forall s | SelfContained(s, m, chainName) ensures s <= keys - {id} {
      NothingContainedNeeds(keys, m, chainName, id, s);
    }
  }

  lemma StillRightlyBlocked(blocked: map<string, ChainRef>, keys: set<string>, m: map<string, Proxy>,
                            chainName: string -> string, id: string)
    requires blocked.Keys <= m.Keys && RightlyBlocked(blocked, keys, m, chainName)
    requires id in m && !Resolves(m[id], keys, chainName)
    ensures RightlyBlocked(blocked[id := m[id].ChainTarget()], keys - {id}, m, chainName)
  {
    var blocked' := blocked[id := m[id].ChainTarget()];
    forall b | b in blocked'
      ensures blocked'[b] == m[b].ChainTarget() && !Resolves(m[b], keys - {id}, chainName)
    {
      if Resolves(m[b], keys - {id}, chainName) { ResolvesInMore(m[b], keys - {id}, keys, chainName); }
    }
  }

  lemma RemovalSettles(carried: map<string, Proxy>, blocked: map<string, ChainRef>,
                       m: map<string, Proxy>, chainName: string -> string, id: string)
    requires Settling(carried, blocked, m, chainName)
    requires id in carried && !Resolves(m[id], carried.Keys, chainName)
    ensures Settling(carried - {id}, blocked[id := m[id].ChainTarget()], m, chainName)
    ensures |carried - {id}| < |carried|
  {
    var fewer, blocked' := carried - {id}, blocked[id := m[id].ChainTarget()];
    var keys := fewer.Keys;
    assert keys == carried.Keys - {id};
    assert |carried.Keys| == |keys| + 1;
    StillHoldsContained(carried.Keys, m, chainName, id);
    StillRightlyBlocked(blocked, carried.Keys, m, chainName, id);
  }

  // Nobody is handed a proxy they are denied, nor one relayed by a fleet node unless it is exposed
  // as well; said of the row's own columns.
  predicate MayGoOut(p: Proxy, denied: set<string>) {
    p.id !in denied && (p.chainNode == "" || p.relayExposed)
  }

  lemma PermittedMayGoOut(all: seq<Proxy>, denied: set<string>)
    ensures forall id :: id in Permitted(all, denied) <==> exists p :: p in all && p.id == id && MayGoOut(p, denied)
    ensures forall id :: id in Permitted(all, denied) ==>
              Permitted(all, denied)[id].id == id && MayGoOut(Permitted(all, denied)[id], denied)
  {
    forall p | p in all ensures Allowed(p, denied) <==> MayGoOut(p, denied) {}
  }

  method CollectPermitted(all: seq<Proxy>, denied: set<string>) returns (carried: map<string, Proxy>)
    ensures carried == Permitted(all, denied)
  {
    carried := map[];
    for i := 0 to |all|
      invariant carried == Permitted(all[..i], denied)
    {
      assert all[..i + 1][..i] == all[..i];
      var p := all[i];
      if p.id in denied { continue; }
      if p.Relayed() && !p.relayExposed { continue; }
      carried := carried[p.id := p];
    }
    assert all[..|all|] == all;
  }

  method Carried(all: seq<Proxy>, denied: set<string>, chainName: string -> string)
    returns (carried: map<string, Proxy>, blocked: map<string, ChainRef>)
    // the largest self-contained set of permitted proxies
    ensures var m := Permitted(all, denied);
            && carried.Keys <= m.Keys
            && (forall id :: id in carried ==> carried[id] == m[id])
            && SelfContained(carried.Keys, m, chainName)
            && forall s :: SelfContained(s, m, chainName) ==> s <= carried.Keys
    // everything else is blocked, by a target that is still missing at the end
    ensures var m := Permitted(all, denied);
            && blocked.Keys == m.Keys - carried.Keys
            && forall id :: id in blocked ==>
                 blocked[id] == m[id].ChainTarget() && !Resolves(m[id], carried.Keys, chainName)
    ensures forall id :: id in carried ==> carried[id].id == id && MayGoOut(carried[id], denied)
  {
    carried := CollectPermitted(all, denied);
    ghost var m := carried;
    blocked := map[];
    var changed := true;
    while changed
      invariant Settling(carried, blocked, m, chainName)
      invariant !changed ==> SelfContained(carried.Keys, m, chainName)
      decreases |carried|, changed
    {
      changed := false;
      ghost var before := carried;
      var todo := carried.Keys;
      // the range loop: every key once, in whatever order the map yields them
      while todo != {}
        invariant todo <= carried.Keys
        invariant Settling(carried, blocked, m, chainName)
        invariant if changed then |carried| < |before| else carried == before
        invariant !changed ==>
                    forall id :: id in carried && id !in todo ==> Resolves(m[id], carried.Keys, chainName)
        decreases todo
      {
        var id :| id in todo;
        todo := todo - {id};
        var target := carried[id].ChainTarget();
        var ok := match target
          case Direct => true
          case ViaProxy(q) => q in carried
          case ViaNode(n) => chainName(n) != "";
        if !ok {
          RemovalSettles(carried, blocked, m, chainName, id);
          carried := carried - {id};
          blocked := blocked[id := target];
          changed := true;
        }
      }
    }
    PermittedMayGoOut(all, denied);
  }

  // ---------- the setting that must not loop ----------

  // The chain_proxy_id column, for the rows that have one.
  function NextOf(rows: map<string, Proxy>): map<string, string> {
    map id | id in rows && rows[id].chainProxy != "" :: rows[id].chainProxy
  }

  ghost function EdgesOf(next: map<string, string>): Edges {
    set a | a in next :: (a, next[a])
  }

  ghost function ChainEdges(rows: map<string, Proxy>): Edges { EdgesOf(NextOf(rows)) }

  lemma Pigeonhole(xs: seq<string>, holes: set<string>) returns (i: nat, j: nat)
    requires forall x :: x in xs ==> x in holes
    requires |xs| > |holes|
    ensures i < j < |xs| && xs[i] == xs[j]
    decreases |xs|
  {
    var init, last := xs[..|xs| - 1], xs[|xs| - 1];
    if last in init {
      i := var k :| 0 <= k < |init| && init[k] == last; k;
      j := |xs| - 1;
    } else {
      assert |holes - {last}| == |holes| - 1;
      i, j := Pigeonhole(init, holes - {last});
    }
  }

  // A trail that follows next and meets one of its own nodes again goes round for ever.
  lemma {:induction false} TrailRepeats(next: map<string, string>, trail: seq<string>, i: nat, j: nat, d: nat)
    requires forall k :: 0 <= k < |trail| - 1 ==> trail[k] in next && next[trail[k]] == trail[k + 1]
    requires i < j && j + d < |trail| && trail[i] == trail[j]
    ensures trail[i + d] == trail[j + d]
  {
    if d > 0 {
      TrailRepeats(next, trail, i, j, d - 1);
      assert trail[i + (d - 1)] in next && trail[j + (d - 1)] in next;
    }
  }

  lemma LongTrailIsClosed(next: map<string, string>, trail: seq<string>)
    requires forall k :: 0 <= k < |trail| - 1 ==> trail[k] in next && next[trail[k]] == trail[k + 1]
    requires |trail| == |next| + 2
    ensures trail[|trail| - 1] in trail[..|trail| - 1]
  {
    var body := trail[..|trail| - 1];
    assert |next.Keys| == |next|;
    var i, j := Pigeonhole(body, next.Keys);
    var d := |body| - j;
    TrailRepeats(next, trail, i, j, d);
    assert body[i + d] == trail[|trail| - 1];
  }

  // The walk checkExternalChain takes, with its bound of one step per row that has a chain.
  method WalkReaches(next: map<string, string>, id: string, target: string) returns (hit: bool)
    requires target != "" && forall a :: a in next ==> next[a] != ""
    ensures hit <==> Reaches(EdgesOf(next), target, id)
  {
    var at, steps := target, 0;
    ghost var edges := EdgesOf(next);
    ghost var trail := [target];
    ReachesSelf(edges, target);
    while at != "" && steps <= |next|
      invariant steps <= |next| + 1
      invariant |trail| > 0 && trail[0] == target
      invariant forall k :: 0 <= k < |trail| - 1 ==> trail[k] in next && next[trail[k]] == trail[k + 1]
      invariant at != "" ==> |trail| == steps + 1 && trail[steps] == at && id !in trail[..steps]
      invariant at == "" ==> id !in trail && trail[|trail| - 1] !in next
      decreases |next| + 1 - steps
    {
      if at == id {
        assert forall k :: 0 <= k < |trail| - 1 ==> (trail[k], trail[k + 1]) in edges;
        assert WalkFromTo(edges, trail, target, id);
        return true;
      }
      if at in next {
        assert trail == trail[..steps] + [at];
        at := next[at];
        trail := trail + [at];
        assert trail[..steps + 1] == trail[..|trail| - 1];
      } else {
        at := "";
        assert trail == trail[..steps] + [trail[steps]];
      }
      steps := steps + 1;
    }
    ghost var seen := set x | x in trail;
    if at != "" {
      LongTrailIsClosed(next, trail);
      assert trail == trail[..steps] + [at];
    }
    assert id !in seen && trail[0] in seen;
    forall x, y | (x, y) in edges && x in seen ensures y in seen {
      var k :| 0 <= k < |trail| && trail[k] == x;
      if k == |trail| - 1 {
        assert at != "";
        var k' :| 0 <= k' < |trail| - 1 && trail[k'] == x;
        assert trail[k' + 1] == y;
      } else {
        assert trail[k + 1] == y;
      }
    }
    if Reaches(edges, target, id) { ClosedHoldsReachable(edges, seen, target, id); }
    hit := false;
  }

  datatype SetError = BothTargets | ChainCycle | NoSuchRow | BrokenReference

  // Why a setting is refused: the first of these that applies, None when it is saved.
  ghost function SetRefusal(rows: map<string, Proxy>, nodes: set<string>,
                            id: string, chainNode: string, chainProxy: string): Option<SetError>
  {
    if chainNode != "" && chainProxy != "" then Some(BothTargets)
    else if chainProxy != "" && Reaches(ChainEdges(rows), chainProxy, id) then Some(ChainCycle)
    else if id !in rows then Some(NoSuchRow)
    else if (chainProxy != "" && chainProxy !in rows) || (chainNode != "" && chainNode !in nodes)
    then Some(BrokenReference)
    else None
  }

  // A setting is saved exactly when it names one thing at most, everything it names exists, and the
  // proxy it chains through does not lead back.
  lemma SavedExactly(rows: map<string, Proxy>, nodes: set<string>, id: string, chainNode: string, chainProxy: string)
    ensures SetRefusal(rows, nodes, id, chainNode, chainProxy).None? <==>
            && id in rows && (chainNode == "" || chainProxy == "")
            && (chainNode != "" ==> chainNode in nodes)
            && (chainProxy != "" ==> chainProxy in rows && !Reaches(ChainEdges(rows), chainProxy, id))
  {
  }

  lemma EdgesAfterReset(rows: map<string, Proxy>, id: string, row: Proxy)
    requires id in rows
    ensures ChainEdges(rows[id := row]) ==
            NotLeaving(ChainEdges(rows), id) + (if row.chainProxy != "" then {(id, row.chainProxy)} else {})
  {
    var next, next' := NextOf(rows), NextOf(rows[id := row]);
    forall a, b ensures (a, b) in EdgesOf(next') <==>
                        (a != id && (a, b) in EdgesOf(next)) || (a == id && b == row.chainProxy && b != "")
    {
      assert a != id ==> (a in next' <==> a in next) && (a in next ==> next'[a] == next[a]);
      assert (a, b) in EdgesOf(next') <==> a in next' && next'[a] == b;
      assert (a, b) in EdgesOf(next) <==> a in next && next[a] == b;
    }
  }

  lemma ResetKeepsAcyclic(rows: map<string, Proxy>, id: string, row: Proxy)
    requires Acyclic(ChainEdges(rows)) && id in rows
    requires row.chainProxy != "" ==> !Reaches(ChainEdges(rows), row.chainProxy, id)
    ensures Acyclic(ChainEdges(rows[id := row]))
  {
    EdgesAfterReset(rows, id, row);
    if row.chainProxy != "" {
      AcyclicRedirected(ChainEdges(rows), id, row.chainProxy);
    } else {
      AcyclicFewer(ChainEdges(rows[id := row]), ChainEdges(rows));
    }
  }

  // The refusal is not over-cautious: on an acyclic table the cycle error is given exactly for
  // the targets that would have made the table cyclic.
  lemma CycleRefusalExact(rows: map<string, Proxy>, nodes: set<string>, id: string, target: string)
    requires Acyclic(ChainEdges(rows)) && id in rows && target != ""
    ensures SetRefusal(rows, nodes, id, "", target) == Some(ChainCycle) <==>
            !Acyclic(ChainEdges(rows[id := rows[id].(chainNode := "", chainProxy := target)]))
  {
    EdgesAfterReset(rows, id, rows[id].(chainNode := "", chainProxy := target));
    AcyclicRedirected(ChainEdges(rows), id, target);
  }

  class ExternalStore {
    // external_proxies by id, and the fleet nodes a chain may name
    var rows: map<string, Proxy>
    var nodes: set<string>

    method CheckExternalChain(id: string, target: string) returns (cycle: bool)
      requires target != ""
      ensures cycle <==> Reaches(ChainEdges(rows), target, id)
    {
      if id == target {
        ReachesSelf(ChainEdges(rows), id);
        return true;
      }
      cycle := WalkReaches(NextOf(rows), id, target);
    }

    method SetExternalProxy(id: string, chainNode: string, chainProxy: string, enabled: bool)
      returns (err: Option<SetError>)
      modifies this
      ensures nodes == old(nodes)
      ensures err == SetRefusal(old(rows), nodes, id, chainNode, chainProxy)
      ensures err.Some? ==> rows == old(rows)
      ensures err.None? ==>
                id in old(rows) &&
                rows == old(rows)[id := old(rows)[id].(chainNode := chainNode, chainProxy := chainProxy, enabled := enabled)]
      ensures Acyclic(ChainEdges(old(rows))) ==> Acyclic(ChainEdges(rows))
    {
      if chainNode != "" && chainProxy != "" {
        return Some(BothTargets);
      }
      if chainProxy != "" {
        var cycle := CheckExternalChain(id, chainProxy);
        if cycle { return Some(ChainCycle); }
      }
      if id !in rows {
        return Some(NoSuchRow);
      }
      if (chainProxy != "" && chainProxy !in rows) || (chainNode != "" && chainNode !in nodes) {
        return Some(BrokenReference);
      }
      rows := rows[id := rows[id].(chainNode := chainNode, chainProxy := chainProxy, enabled := enabled)];
      if Acyclic(ChainEdges(old(rows))) { ResetKeepsAcyclic(old(rows), id, rows[id]); }
      return None;
    }
  }

  // ---------- check and write are two statements ----------

  // The table after the writes of requests whose checks all came earlier, in the order they land.
  function Saved(rows: map<string, Proxy>, writes: seq<(string, Proxy)>): (m: map<string, Proxy>)
    requires forall w :: w in writes ==> w.0 in rows
    ensures m.Keys == rows.Keys
  {
    if writes == [] then rows
    else
      var last := writes[|writes| - 1];
      Saved(rows, writes[..|writes| - 1])[last.0 := last.1]
  }

  // A write closes no loop exactly when its check would still pass at the moment it lands.
  ghost predicate StillPasses(rows: map<string, Proxy>, id: string, row: Proxy) {
    row.chainProxy != "" ==> !Reaches(ChainEdges(rows), row.chainProxy, id)
  }

  lemma LateWriteExact(rows: map<string, Proxy>, id: string, row: Proxy)
    requires Acyclic(ChainEdges(rows)) && id in rows
    ensures Acyclic(ChainEdges(rows[id := row])) <==> StillPasses(rows, id, row)
  {
    if StillPasses(rows, id, row) {
      ResetKeepsAcyclic(rows, id, row);
    } else {
      EdgesAfterReset(rows, id, row);
      AcyclicRedirected(ChainEdges(rows), id, row.chainProxy);
    }
  }

  // Acyclic at the start and after every write.
  ghost predicate AcyclicThroughout(rows: map<string, Proxy>, writes: seq<(string, Proxy)>)
    requires forall w :: w in writes ==> w.0 in rows
  {
    Acyclic(ChainEdges(Saved(rows, writes))) && (writes != [] ==> AcyclicThroughout(rows, writes[..|writes| - 1]))
  }

  // Every write lands on a table its check would still accept.
  ghost predicate AllStillPass(rows: map<string, Proxy>, writes: seq<(string, Proxy)>)
    requires forall w :: w in writes ==> w.0 in rows
  {
    writes == [] ||
    var n := |writes| - 1;
    StillPasses(Saved(rows, writes[..n]), writes[n].0, writes[n].1) && AllStillPass(rows, writes[..n])
  }

  // However many requests are under way, the table stays acyclic throughout exactly when every one
  // of their writes comes while its check still holds.
  lemma {:induction false} InterleavedWritesExact(rows: map<string, Proxy>, writes: seq<(string, Proxy)>)
    requires Acyclic(ChainEdges(rows)) && forall w :: w in writes ==> w.0 in rows
    ensures AcyclicThroughout(rows, writes) <==> AllStillPass(rows, writes)
  {
    if writes != [] {
      var n := |writes| - 1;
      InterleavedWritesExact(rows, writes[..n]);
      if AcyclicThroughout(rows, writes[..n]) {
        LateWriteExact(Saved(rows, writes[..n]), writes[n].0, writes[n].1);
      }
    }
  }

  // Two requests checked against one table, each allowed by itself, leave it cyclic exactly when
  // each one's target leads to the other one's proxy without the links the two replace.
  lemma RacingRequestsExact(rows: map<string, Proxy>, a: string, rowA: Proxy, b: string, rowB: Proxy)
    requires Acyclic(ChainEdges(rows)) && a in rows && b in rows && a != b
    requires rowA.chainProxy != "" && rowB.chainProxy != "" && StillPasses(rows, a, rowA) && StillPasses(rows, b, rowB)
    ensures var rest := NotLeaving(NotLeaving(ChainEdges(rows), a), b);
            Acyclic(ChainEdges(rows[a := rowA][b := rowB])) <==>
            !(Reaches(rest, rowA.chainProxy, b) && Reaches(rest, rowB.chainProxy, a))
  {
    var edges := ChainEdges(rows);
    var rest := NotLeaving(NotLeaving(edges, a), b);
    EdgesAfterReset(rows, a, rowA);
    EdgesAfterReset(rows[a := rowA], b, rowB);
    assert ChainEdges(rows[a := rowA][b := rowB]) == rest + {(a, rowA.chainProxy)} + {(b, rowB.chainProxy)};
    AcyclicFewer(rest, edges);
    if Reaches(rest, rowA.chainProxy, a) { ReachesMore(rest, edges, rowA.chainProxy, a); }
    if Reaches(rest, rowB.chainProxy, b) { ReachesMore(rest, edges, rowB.chainProxy, b); }
    AcyclicWithTwoEdges(rest, a, rowA.chainProxy, b, rowB.chainProxy);
  }

  // Two proxies dialled directly, and two operators who each chain one through the other at once.
  lemma RacingRequestsLoop(a: Proxy, b: Proxy)
    requires a.id != "" && b.id != "" && a.id != b.id && a.ChainTarget() == Direct && b.ChainTarget() == Direct
    ensures var rows := map[a.id := a, b.id := b];
            && Acyclic(ChainEdges(rows))
            && SetRefusal(rows, {}, a.id, "", b.id).None? && SetRefusal(rows, {}, b.id, "", a.id).None?
            && !Acyclic(ChainEdges(rows[a.id := a.(chainProxy := b.id)][b.id := b.(chainProxy := a.id)]))
  {
    var rows := map[a.id := a, b.id := b];
    assert ChainEdges(rows) == {};
    if Reaches({}, b.id, a.id) { ClosedHoldsReachable({}, {b.id}, b.id, a.id); }
    if Reaches({}, a.id, b.id) { ClosedHoldsReachable({}, {a.id}, a.id, b.id); }
    var rest := NotLeaving(NotLeaving(ChainEdges(rows), a.id), b.id);
    ReachesSelf(rest, a.id);
    ReachesSelf(rest, b.id);
    RacingRequestsExact(rows, a.id, a.(chainProxy := b.id), b.id, b.(chainProxy := a.id));
  }

  // ---------- what a subscriber receives ----------

  // Walking the chain from id stays among the permitted proxies and ends, within n hops, at a
  // direct dial or at a fleet node with a name.
  predicate ChainEnds(m: map<string, Proxy>, chainName: string -> string, id: string, n: nat)
    decreases n
  {
    id in m &&
    match m[id].ChainTarget()
    case Direct => true
    case ViaNode(node) => chainName(node) != ""
    case ViaProxy(q) => n > 0 && ChainEnds(m, chainName, q, n - 1)
  }

  ghost predicate Ends(m: map<string, Proxy>, chainName: string -> string, id: string) {
    exists n: nat :: ChainEnds(m, chainName, id, n)
  }

  // The proxies a document is built from are rows of the table.
  ghost predicate FromTable(m: map<string, Proxy>, rows: map<string, Proxy>) {
    forall id :: id in m ==> id in rows && rows[id] == m[id]
  }

  // The sets Carried may return, by its postcondition.
  ghost predicate LargestSelfContained(s: set<string>, m: map<string, Proxy>, chainName: string -> string) {
    && SelfContained(s, m, chainName)
    && forall t :: SelfContained(t, m, chainName) ==> t <= s
  }

  // The chain of v continues and comes past id.
  ghost predicate LeadsTo(rows: map<string, Proxy>, v: string, id: string) {
    v in rows && rows[v].chainProxy != "" && Reaches(ChainEdges(rows), rows[v].chainProxy, id)
  }

  lemma LeadsOn(rows: map<string, Proxy>, v: string, id: string)
    requires id in rows && rows[id].chainProxy != ""
    requires v == id || LeadsTo(rows, v, id)
    ensures LeadsTo(rows, v, rows[id].chainProxy)
  {
    var q := rows[id].chainProxy;
    assert NextOf(rows)[id] == q;
    ReachesSelf(ChainEdges(rows), q);
    if v != id {
      ReachesStep(ChainEdges(rows), id, q, q);
      ReachesJoin(ChainEdges(rows), rows[v].chainProxy, id, q);
    }
  }

  lemma NeverLeadsToItself(rows: map<string, Proxy>, id: string)
    requires Acyclic(ChainEdges(rows))
    ensures !LeadsTo(rows, id, id)
  {
    if id in rows && rows[id].chainProxy != "" {
      assert NextOf(rows)[id] == rows[id].chainProxy;
      assert (id, rows[id].chainProxy) in ChainEdges(rows);
    }
  }

  // visited holds the proxies already walked through; an acyclic table never leads back to them.
  lemma {:induction false} CarriedChainEnds(rows: map<string, Proxy>, m: map<string, Proxy>,
                                            chainName: string -> string, carried: set<string>,
                                            id: string, visited: set<string>)
    requires Acyclic(ChainEdges(rows)) && FromTable(m, rows)
    requires SelfContained(carried, m, chainName) && id in carried
    requires visited <= m.Keys && forall v :: v in visited ==> LeadsTo(rows, v, id)
    ensures Ends(m, chainName, id)
    decreases |m.Keys - visited|
  {
    assert Resolves(m[id], carried, chainName);
    if m[id].ChainTarget().ViaProxy? {
      var q := m[id].chainProxy;
      NeverLeadsToItself(rows, id);
      var visited' := visited + {id};
      forall v | v in visited' ensures LeadsTo(rows, v, q) { LeadsOn(rows, v, id); }
      assert m.Keys - visited' == (m.Keys - visited) - {id};
      CarriedChainEnds(rows, m, chainName, carried, q, visited');
      var n: nat :| ChainEnds(m, chainName, q, n);
      assert ChainEnds(m, chainName, id, n + 1);
    } else {
      assert ChainEnds(m, chainName, id, 0);
    }
  }

  // While the table is acyclic a proxy is carried exactly when its chain ends.
  lemma CarriedIffChainEnds(rows: map<string, Proxy>, m: map<string, Proxy>, chainName: string -> string,
                            carried: set<string>, id: string)
    requires Acyclic(ChainEdges(rows)) && FromTable(m, rows)
    requires LargestSelfContained(carried, m, chainName)
    ensures id in carried <==> Ends(m, chainName, id)
  {
    var ending := set x | x in m && Ends(m, chainName, x);
    forall x | x in ending ensures Resolves(m[x], ending, chainName) {
      var n: nat :| ChainEnds(m, chainName, x, n);
      if m[x].ChainTarget().ViaProxy? { assert ChainEnds(m, chainName, m[x].chainProxy, n - 1); }
    }
    assert SelfContained(ending, m, chainName);
    if id in carried { CarriedChainEnds(rows, m, chainName, carried, id, {}); }
    if Ends(m, chainName, id) {
      var n: nat :| ChainEnds(m, chainName, id, n);
      assert id in ending;
    }
  }

  lemma {:induction false} LoopNeverEnds(a: Proxy, b: Proxy, chainName: string -> string, id: string, n: nat)
    requires a.id != b.id && a.id != "" && b.id != "" && a.chainProxy == b.id && b.chainProxy == a.id
    ensures !ChainEnds(map[a.id := a, b.id := b], chainName, id, n)
    decreases n
  {
    if n > 0 {
      LoopNeverEnds(a, b, chainName, a.id, n - 1);
      LoopNeverEnds(a, b, chainName, b.id, n - 1);
    }
  }

  // Without acyclicity the fixpoint keeps a loop no client could dial: two proxies through one
  // another are both carried although neither chain ends.
  lemma LoopWouldBeCarried(a: Proxy, b: Proxy, chainName: string -> string, carried: set<string>)
    requires a.id != b.id && a.id != "" && b.id != "" && a.chainProxy == b.id && b.chainProxy == a.id
    requires LargestSelfContained(carried, map[a.id := a, b.id := b], chainName)
    ensures carried == {a.id, b.id}
    ensures forall id :: !Ends(map[a.id := a, b.id := b], chainName, id)
  {
    var m := map[a.id := a, b.id := b];
    assert SelfContained({a.id, b.id}, m, chainName);
    forall id, n: nat ensures !ChainEnds(m, chainName, id, n) { LoopNeverEnds(a, b, chainName, id, n); }
  }

  // One rendered proxies-list item: the name it goes out under, the name its dialer-proxy
  // key gives (None when it is dialled directly), and its place.
  datatype Fragment = Fragment(id: string, name: string, dialer: Option<string>, order: nat, rank: nat)

  function Ids(all: seq<Proxy>): seq<string> { seq(|all|, i requires 0 <= i < |all| => all[i].id) }

  lemma SameIdSamePlace(all: seq<Proxy>, j: nat, k: nat)
    requires Unique(Ids(all)) && j < |all| && k < |all| && all[j].id == all[k].id
    ensures j == k
  {
    var ids := Ids(all);
    assert ids[j] == ids[k];
  }

  // f renders the proxy at its rank.
  ghost predicate Renders(f: Fragment, all: seq<Proxy>) {
    f.rank < |all| && f.id == all[f.rank].id && f.name == all[f.rank].Label() && f.order == all[f.rank].sortOrder
  }

  ghost predicate Dials(f: Fragment, p: Proxy, carried: map<string, Proxy>, chainName: string -> string) {
    match p.ChainTarget()
    case Direct => f.dialer.None?
    case ViaNode(n) => f.dialer == Some(chainName(n)) && chainName(n) != ""
    case ViaProxy(q) => q in carried && f.dialer == Some(carried[q].Label())
  }

  // A dialer-proxy names a fleet node this subscriber has or a proxy of the same document.
  ghost predicate DialerDefined(f: Fragment, p: Proxy, out: seq<Fragment>, chainName: string -> string) {
    match p.ChainTarget()
    case Direct => f.dialer.None?
    case ViaNode(n) => f.dialer == Some(chainName(n)) && chainName(n) != ""
    case ViaProxy(q) => exists g :: g in out && g.id == q && f.dialer == Some(g.name)
  }

  // What the loop over the list has emitted after its first n proxies.
  ghost predicate Emitted(out: seq<Fragment>, n: nat, all: seq<Proxy>,
                          carried: map<string, Proxy>, chainName: string -> string)
    requires n <= |all|
  {
    && (forall f :: f in out ==>
          f.rank < n && Renders(f, all) && f.id in carried && Dials(f, all[f.rank], carried, chainName))
    && (forall j, k :: 0 <= j < k < |out| ==> out[j].rank < out[k].rank)
    && (forall k :: 0 <= k < n && all[k].id in carried ==> exists f :: f in out && f.id == all[k].id)
  }

  lemma EmitOne(out: seq<Fragment>, n: nat, all: seq<Proxy>,
                carried: map<string, Proxy>, chainName: string -> string, f: Fragment)
    requires n < |all| && Emitted(out, n, all, carried, chainName)
    requires f.rank == n && Renders(f, all) && f.id in carried && Dials(f, all[n], carried, chainName)
    ensures Emitted(out + [f], n + 1, all, carried, chainName)
  {
    var out' := out + [f];
    assert forall g :: g in out' <==> g in out || g == f;
    forall j, k | 0 <= j < k < |out'| ensures out'[j].rank < out'[k].rank {
      if k == |out| { assert out[j] in out; }
    }
    forall k | 0 <= k <= n && all[k].id in carried ensures exists g :: g in out' && g.id == all[k].id {
      if k < n {
        var g :| g in out && g.id == all[k].id;
        assert g in out';
      } else {
        assert f in out';
      }
    }
  }

  lemma {:induction false} PermittedIsTheRow(all: seq<Proxy>, denied: set<string>, i: nat)
    requires Unique(Ids(all)) && i < |all| && all[i].id in Permitted(all, denied)
    ensures Permitted(all, denied)[all[i].id] == all[i]
  {
    var p := Permitted(all, denied)[all[i].id];
    var k :| 0 <= k < |all| && all[k] == p;
    SameIdSamePlace(all, k, i);
  }

  ghost predicate GoesOut(out: seq<Fragment>, p: Proxy) { exists g :: g in out && g.id == p.id && g.name == p.Label() }

  // A carried proxy goes out, under its own label.
  lemma CarriedGoesOut(out: seq<Fragment>, all: seq<Proxy>, denied: set<string>,
                       carried: map<string, Proxy>, chainName: string -> string, q: string)
    requires Unique(Ids(all)) && Emitted(out, |all|, all, carried, chainName) && q in carried
    requires q in Permitted(all, denied) && carried[q] == Permitted(all, denied)[q]
    ensures GoesOut(out, carried[q])
  {
    var k: nat :| k < |all| && all[k] == carried[q];
    var g :| g in out && g.id == all[k].id;
    assert Renders(g, all);
    SameIdSamePlace(all, g.rank, k);
  }

  lemma AllEmitted(out: seq<Fragment>, all: seq<Proxy>, carried: map<string, Proxy>, chainName: string -> string, f: Fragment)
    requires Emitted(out, |all|, all, carried, chainName) && f in out
    requires forall id :: id in carried ==> carried[id].id == id && GoesOut(out, carried[id])
    ensures DialerDefined(f, all[f.rank], out, chainName)
  {
    assert Dials(f, all[f.rank], carried, chainName);
  }

  // The item for a proxy whose chain target, if it is a proxy, is carried too.
  function FragmentFor(p: Proxy, rank: nat, carried: map<string, Proxy>, chainName: string -> string): Fragment
    requires p.chainProxy != "" ==> p.chainProxy in carried
  {
    var dialer := match p.ChainTarget()
      case Direct => None
      case ViaNode(n) => Some(chainName(n))
      case ViaProxy(q) => Some(carried[q].Label());
    Fragment(p.id, p.Label(), dialer, p.sortOrder, rank)
  }

  lemma AllCarriedEmitted(out: seq<Fragment>, all: seq<Proxy>,
                          carried: map<string, Proxy>, chainName: string -> string)
    requires Emitted(out, |all|, all, carried, chainName)
    requires forall id :: id in carried ==> carried[id] in all && carried[id].id == id
    ensures carried.Keys == set f | f in out :: f.id
  {
    forall id | id in carried ensures exists f :: f in out && f.id == id {
      var k :| 0 <= k < |all| && all[k] == carried[id];
    }
  }

  method EmitAll(all: seq<Proxy>, carried: map<string, Proxy>, chainName: string -> string)
    returns (out: seq<Fragment>)
    requires forall p :: p in all && p.id in carried ==> Resolves(p, carried.Keys, chainName)
    ensures Emitted(out, |all|, all, carried, chainName)
  {
    out := [];
    for i := 0 to |all|
      invariant Emitted(out, i, all, carried, chainName)
    {
      var p := all[i];
      if p.id in carried {
        assert Resolves(p, carried.Keys, chainName);
        var f := FragmentFor(p, i, carried, chainName);
        EmitOne(out, i, all, carried, chainName, f);
        out := out + [f];
      }
    }
  }

  // An item said of its row's columns: the operator's label or else the provider's name, and the
  // chain it is dialled through, another proxy before a fleet node.
  ghost predicate ReadsAs(f: Fragment, p: Proxy, out: seq<Fragment>, chainName: string -> string) {
    && f.id == p.id && f.order == p.sortOrder
    && (p.displayName != "" ==> f.name == p.displayName) && (p.displayName == "" ==> f.name == p.name)
    && (p.chainProxy != "" ==> exists g :: g in out && g.id == p.chainProxy && f.dialer == Some(g.name))
    && (p.chainProxy == "" && p.chainNode != "" ==> chainName(p.chainNode) != "" && f.dialer == Some(chainName(p.chainNode)))
    && (p.chainProxy == "" && p.chainNode == "" ==> f.dialer.None?)
  }

  // One fragment per carried proxy, in list order, none referring to something undefined.
  method Fragments(all: seq<Proxy>, denied: set<string>, chainName: string -> string) returns (out: seq<Fragment>)
    requires Unique(Ids(all))
    ensures LargestSelfContained(set f | f in out :: f.id, Permitted(all, denied), chainName)
    ensures forall i, j :: 0 <= i < j < |out| ==> out[i].rank < out[j].rank
    ensures forall f :: f in out ==> Renders(f, all) && DialerDefined(f, all[f.rank], out, chainName)
    ensures forall f :: f in out ==>
              f.rank < |all| && MayGoOut(all[f.rank], denied) && ReadsAs(f, all[f.rank], out, chainName)
  {
    var carried, _ := Carried(all, denied, chainName);
    forall p | p in all && p.id in carried ensures Resolves(p, carried.Keys, chainName) {
      var i :| 0 <= i < |all| && all[i] == p;
      PermittedIsTheRow(all, denied, i);
      assert carried[p.id] == p;
    }
    out := EmitAll(all, carried, chainName);
    AllCarriedEmitted(out, all, carried, chainName);
    forall q | q in carried ensures GoesOut(out, carried[q]) {
      CarriedGoesOut(out, all, denied, carried, chainName, q);
    }
    forall f | f in out
      ensures DialerDefined(f, all[f.rank], out, chainName)
      ensures MayGoOut(all[f.rank], denied) && ReadsAs(f, all[f.rank], out, chainName)
    {
      AllEmitted(out, all, carried, chainName, f);
      PermittedIsTheRow(all, denied, f.rank);
    }
  }
}
