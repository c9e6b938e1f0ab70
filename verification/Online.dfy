/** Who is online right now: each node's latest report, merged so that an address seen from two
  * nodes counts once, and forgotten when it goes stale. */
module Online {
  import opened Collections
  import opened Wrappers

  type Address = (string, string)

  datatype Sighting = Sighting(node: string, at: int)
  datatype NodeState = NodeState(at: int, complete: bool)
  // at is None for the zero time.
  datatype Observation = Observation(user: string, ip: string, at: Option<int>)
  datatype Shown = Shown(count: nat, incomplete: bool, reporting: nat)

  type Sightings = map<Address, Sighting>
  type Nodes = map<string, NodeState>

  datatype Fleet = Fleet(seen: Sightings, nodes: Nodes)

  // ---------- what one call does ----------

  predicate Fresh(at: int, now: int, ttl: int) { now - at <= ttl }

  function Without(seen: Sightings, node: string): Sightings {
    map k | k in seen && seen[k].node != node :: seen[k]
  }

  function Stamp(o: Observation, now: int): int { if o.at.Some? then o.at.value else now }

  function Noted(seen: Sightings, node: string, o: Observation, now: int): Sightings {
    var k := (o.user, o.ip);
    if o.user == "" || o.ip == "" then seen
    else if k !in seen || Stamp(o, now) > seen[k].at then seen[k := Sighting(node, Stamp(o, now))]
    else seen
  }

  function Merged(seen: Sightings, node: string, obs: seq<Observation>, now: int): Sightings {
    if obs == [] then seen
    else Noted(Merged(seen, node, obs[..|obs| - 1], now), node, obs[|obs| - 1], now)
  }

  function Replaced(v: Fleet, node: string, obs: seq<Observation>, complete: bool, now: int): Fleet {
    Fleet(Merged(Without(v.seen, node), node, obs, now), v.nodes[node := NodeState(now, complete)])
  }

  function Forgotten(v: Fleet, node: string): Fleet { Fleet(Without(v.seen, node), v.nodes - {node}) }

  function Pruned(v: Fleet, ttl: int, now: int): Fleet {
    Fleet(map k | k in v.seen && Fresh(v.seen[k].at, now, ttl) :: v.seen[k],
         map n | n in v.nodes && Fresh(v.nodes[n].at, now, ttl) :: v.nodes[n])
  }

  function FreshIps(seen: Sightings, user: string, ttl: int, now: int): set<string> {
    set k | k in seen && k.0 == user && Fresh(seen[k].at, now, ttl) :: k.1
  }

  function FreshNodes(nodes: Nodes, ttl: int, now: int): set<string> {
    set n | n in nodes && Fresh(nodes[n].at, now, ttl)
  }

  function StatusIn(v: Fleet, user: string, ttl: int, now: int): Shown {
    var reporting := FreshNodes(v.nodes, ttl, now);
    Shown(|FreshIps(v.seen, user, ttl, now)|, exists n :: n in reporting && !v.nodes[n].complete, |reporting|)
  }

  // ---------- the registry ----------

  type Ips = map<string, Sighting>

  // Nested by user, no user kept without an address.
  ghost predicate Nests(users: map<string, Ips>, seen: Sightings) {
    && (forall u :: u in users ==> users[u] != map[])
    && (forall u, ip :: (u, ip) in seen <==> u in users && ip in users[u])
    && (forall u, ip :: (u, ip) in seen ==> users[u][ip] == seen[(u, ip)])
  }

  function FilteredIps(ips: Ips, keep: Sighting -> bool): Ips { map ip | ip in ips && keep(ips[ip]) :: ips[ip] }

  function Filtered(seen: Sightings, keep: Sighting -> bool): Sightings { map k | k in seen && keep(seen[k]) :: seen[k] }

  // The users not in todo are filtered, and gone if nothing was left of them.
  ghost predicate PartKept(before: map<string, Ips>, users: map<string, Ips>, todo: set<string>, keep: Sighting -> bool) {
    && todo <= users.Keys <= before.Keys
    && (forall u :: u in todo ==> users[u] == before[u])
    && (forall u :: u in before && u !in todo ==> (u in users <==> FilteredIps(before[u], keep) != map[]))
    && (forall u :: u in users && u !in todo ==> users[u] == FilteredIps(before[u], keep))
  }

  lemma KeptOneMore(before: map<string, Ips>, users: map<string, Ips>, todo: set<string>, keep: Sighting -> bool, u: string)
    requires PartKept(before, users, todo, keep) && u in todo
    ensures var rest := FilteredIps(users[u], keep);
            PartKept(before, if rest == map[] then users - {u} else users[u := rest], todo - {u}, keep)
  {
  }

  lemma KeepNests(users: map<string, Ips>, seen: Sightings, users': map<string, Ips>, keep: Sighting -> bool)
    requires Nests(users, seen) && PartKept(users, users', {}, keep)
    ensures Nests(users', Filtered(seen, keep))
  {
    forall u, ip ensures (u, ip) in Filtered(seen, keep) <==> u in users' && ip in users'[u] {
      if (u, ip) in Filtered(seen, keep) {
        assert (u, ip) in seen && ip in FilteredIps(users[u], keep);
      }
    }
  }

  lemma NestsWith(users: map<string, Ips>, seen: Sightings, user: string, ip: string, s: Sighting)
    requires Nests(users, seen)
    ensures var ips := if user in users then users[user] else map[];
            Nests(users[user := ips[ip := s]], seen[(user, ip) := s])
  {
    var ips := if user in users then users[user] else map[];
    var users', seen' := users[user := ips[ip := s]], seen[(user, ip) := s];
    assert ip in users'[user];
    forall u, x ensures (u, x) in seen' <==> u in users' && x in users'[u] {
      assert (u, x) in seen <==> u in users && x in users[u];
    }
  }

  lemma CountsOneUser(users: map<string, Ips>, seen: Sightings, user: string, ttl: int, now: int)
    requires Nests(users, seen)
    ensures FreshIps(seen, user, ttl, now) ==
            if user in users then set ip | ip in users[user] && Fresh(users[user][ip].at, now, ttl) else {}
  {
    forall ip ensures ip in FreshIps(seen, user, ttl, now) <==>
                      user in users && ip in users[user] && Fresh(users[user][ip].at, now, ttl)
    {
      if user in users && ip in users[user] { assert (user, ip) in seen && (user, ip).1 == ip; }
    }
  }

  class Registry {
    var users: map<string, Ips>
    var nodes: Nodes
    const ttl: int
    // the same sightings, keyed by user and address
    ghost var seen: Sightings

    ghost predicate Valid()
      reads this
    {
      Nests(users, seen)
    }

    ghost function View(): Fleet
      reads this
    {
      Fleet(seen, nodes)
    }

    constructor (ttl: int)
      ensures Valid() && View() == Fleet(map[], map[])
      ensures this.ttl == if ttl <= 0 then 180_000_000_000 else ttl
    {
      users, nodes, seen := map[], map[], map[];
      this.ttl := if ttl <= 0 then 180_000_000_000 else ttl;
    }

    method KeepIps(ips: Ips, keep: Sighting -> bool) returns (rest: Ips)
      ensures rest == FilteredIps(ips, keep)
    {
      rest := ips;
      var todo := ips.Keys;
      while todo != {}
        invariant todo <= rest.Keys <= ips.Keys
        invariant forall ip :: ip in ips ==> (ip in rest <==> ip in todo || keep(ips[ip]))
        invariant forall ip :: ip in rest ==> rest[ip] == ips[ip]
        decreases todo
      {
        var ip :| ip in todo;
        todo := todo - {ip};
        if !keep(ips[ip]) { rest := rest - {ip}; }
      }
    }

    // Drops every sighting keep refuses, and every user left with none.
    method Keep(keep: Sighting -> bool)
      requires Valid()
      modifies this`users, this`seen
      ensures Valid() && seen == Filtered(old(seen), keep)
    {
      var before := users;
      var todo := users.Keys;
      while todo != {}
        invariant seen == old(seen) && PartKept(before, users, todo, keep)
        decreases todo
      {
        var u :| u in todo;
        var rest := KeepIps(users[u], keep);
        KeptOneMore(before, users, todo, keep, u);
        todo := todo - {u};
        users := if rest == map[] then users - {u} else users[u := rest];
      }
      seen := Filtered(seen, keep);
      KeepNests(before, old(seen), users, keep);
    }

    method Replace(node: string, obs: seq<Observation>, complete: bool, now: int)
      requires Valid()
      modifies this
      ensures Valid() && View() == Replaced(old(View()), node, obs, complete, now)
    {
      nodes := nodes[node := NodeState(now, complete)];
      Keep((s: Sighting) => s.node != node);
      ghost var kept := seen;
      assert kept == Without(old(seen), node);
      for i := 0 to |obs|
        invariant Valid() && nodes == old(nodes)[node := NodeState(now, complete)]
        invariant seen == Merged(kept, node, obs[..i], now)
      {
        assert obs[..i + 1][..i] == obs[..i];
        Note(node, obs[i], now);
      }
      assert obs[..|obs|] == obs;
    }

    method Note(node: string, o: Observation, now: int)
      requires Valid()
      modifies this`users, this`seen
      ensures Valid() && seen == Noted(old(seen), node, o, now)
    {
      if o.user == "" || o.ip == "" { return; }
      assert (o.user, o.ip) in seen <==> o.user in users && o.ip in users[o.user];
      var ips := if o.user in users then users[o.user] else map[];
      var at := if o.at.Some? then o.at.value else now;
      if o.ip !in ips || at > ips[o.ip].at {
        NestsWith(users, seen, o.user, o.ip, Sighting(node, at));
        users := users[o.user := ips[o.ip := Sighting(node, at)]];
        seen := seen[(o.user, o.ip) := Sighting(node, at)];
      }
    }

    method Forget(node: string)
      requires Valid()
      modifies this
      ensures Valid() && View() == Forgotten(old(View()), node)
    {
      nodes := nodes - {node};
      Keep((s: Sighting) => s.node != node);
      assert seen == Without(old(seen), node);
    }

    method Prune(now: int)
      requires Valid()
      modifies this
      ensures Valid() && View() == Pruned(old(View()), ttl, now)
    {
      var todo := nodes.Keys;
      while todo != {}
        invariant unchanged(`users) && unchanged(`seen)
        invariant todo <= nodes.Keys <= old(nodes).Keys
        invariant forall n :: n in old(nodes) ==> (n in nodes <==> n in todo || Fresh(old(nodes)[n].at, now, ttl))
        invariant forall n :: n in nodes ==> nodes[n] == old(nodes)[n]
        decreases todo
      {
        var n :| n in todo;
        todo := todo - {n};
        if now - nodes[n].at > ttl { nodes := nodes - {n}; }
      }
      var ttl := ttl;
      Keep((s: Sighting) => Fresh(s.at, now, ttl));
      assert seen == Pruned(old(View()), this.ttl, now).seen;
    }

    method CountFresh(ips: Ips, now: int) returns (n: nat)
      ensures n == |set ip | ip in ips && Fresh(ips[ip].at, now, ttl)|
    {
      n := 0;
      var todo := ips.Keys;
      ghost var found: set<string> := {};
      while todo != {}
        invariant todo <= ips.Keys && n == |found|
        invariant found == set ip | ip in ips.Keys - todo && Fresh(ips[ip].at, now, ttl)
        decreases todo
      {
        var ip :| ip in todo;
        todo := todo - {ip};
        if now - ips[ip].at <= ttl { n := n + 1; found := found + {ip}; }
      }
      assert found == set ip | ip in ips && Fresh(ips[ip].at, now, ttl);
    }

    method Status(user: string, now: int) returns (st: Shown)
      requires Valid()
      ensures st == StatusIn(View(), user, ttl, now)
    {
      var reporting, incomplete := 0, false;
      var todo := nodes.Keys;
      ghost var found: set<string> := {};
      while todo != {}
        invariant todo <= nodes.Keys && reporting == |found|
        invariant found == set n | n in nodes.Keys - todo && Fresh(nodes[n].at, now, ttl)
        invariant incomplete <==> exists n :: n in found && !nodes[n].complete
        decreases todo
      {
        var n :| n in todo;
        todo := todo - {n};
        if now - nodes[n].at <= ttl {
          reporting := reporting + 1;
          found := found + {n};
          if !nodes[n].complete { incomplete := true; }
        }
      }
      assert found == FreshNodes(nodes, ttl, now);
      var count := 0;
      if user in users { count := CountFresh(users[user], now); }
      CountsOneUser(users, seen, user, ttl, now);
      return Shown(count, incomplete, reporting);
    }

    // The list view and the single view agree, user by user.
    method Counts(now: int) returns (out: map<string, nat>)
      requires Valid()
      ensures forall u :: u in out ==> out[u] > 0
      ensures forall u :: StatusIn(View(), u, ttl, now).count == if u in out then out[u] else 0
    {
      out := map[];
      var todo := users.Keys;
      while todo != {}
        invariant todo <= users.Keys && out.Keys <= users.Keys - todo
        invariant forall u :: u in out ==> out[u] > 0
        invariant forall u :: u in users && u !in todo ==>
                    |FreshIps(seen, u, ttl, now)| == if u in out then out[u] else 0
        decreases todo
      {
        var u :| u in todo;
        todo := todo - {u};
        var n := CountFresh(users[u], now);
        CountsOneUser(users, seen, u, ttl, now);
        if n > 0 { out := out[u := n]; }
      }
      forall u | u !in users ensures FreshIps(seen, u, ttl, now) == {} {
        CountsOneUser(users, seen, u, ttl, now);
      }
    }
  }

  // ---------- merging keeps the newest ----------

  predicate Names(o: Observation, k: Address) { o.user == k.0 && o.ip == k.1 && o.user != "" && o.ip != "" }

  lemma {:induction false} MergedNewest(seen: Sightings, node: string, obs: seq<Observation>, now: int, k: Address)
    ensures k in Merged(seen, node, obs, now) <==> k in seen || exists i :: 0 <= i < |obs| && Names(obs[i], k)
    ensures k in seen ==> Merged(seen, node, obs, now)[k].at >= seen[k].at
    ensures forall i :: 0 <= i < |obs| && Names(obs[i], k) ==> Merged(seen, node, obs, now)[k].at >= Stamp(obs[i], now)
    ensures k in Merged(seen, node, obs, now) ==>
              var s := Merged(seen, node, obs, now)[k];
              (k in seen && s == seen[k]) ||
              (s.node == node && exists i :: 0 <= i < |obs| && Names(obs[i], k) && s.at == Stamp(obs[i], now))
  {
    if obs != [] {
      var n := |obs| - 1;
      MergedNewest(seen, node, obs[..n], now, k);
      assert forall i :: 0 <= i < n ==> obs[..n][i] == obs[i];
    }
  }

  lemma {:induction false} MergedKeepsUnlessNewer(seen: Sightings, node: string, obs: seq<Observation>, now: int, k: Address)
    requires k in seen
    ensures var out := Merged(seen, node, obs, now);
            k in out && (out[k] == seen[k] || out[k].at > seen[k].at)
  {
    if obs != [] { MergedKeepsUnlessNewer(seen, node, obs[..|obs| - 1], now, k); }
  }

  // A report leaves another node's sighting as it was exactly when it holds nothing newer for
  // that address.
  lemma OthersKeptExactly(v: Fleet, node: string, obs: seq<Observation>, complete: bool, now: int, k: Address)
    requires k in v.seen && v.seen[k].node != node
    ensures var seen := Replaced(v, node, obs, complete, now).seen;
            k in seen && (seen[k] == v.seen[k] <==>
              forall i :: 0 <= i < |obs| && Names(obs[i], k) ==> Stamp(obs[i], now) <= v.seen[k].at)
    ensures var s := Replaced(v, node, obs, complete, now).seen[k];
            s != v.seen[k] ==> s.node == node && s.at > v.seen[k].at
  {
    MergedNewest(Without(v.seen, node), node, obs, now, k);
    MergedKeepsUnlessNewer(Without(v.seen, node), node, obs, now, k);
  }

  // What an observation is worth: as of its own time if it carries one, as of the report otherwise.
  predicate StillWorth(o: Observation, ttl: int, now: int) {
    match o.at
    case None => 0 <= ttl
    case Some(t) => now - t <= ttl
  }

  // Right after a report an address counts exactly when another node's sighting of it is fresh, or
  // the report names it in an observation that is.
  lemma CountedAfterReport(v: Fleet, node: string, obs: seq<Observation>, complete: bool, ttl: int, now: int, user: string, ip: string)
    ensures ip in FreshIps(Replaced(v, node, obs, complete, now).seen, user, ttl, now) <==>
            ((user, ip) in v.seen && v.seen[(user, ip)].node != node && now - v.seen[(user, ip)].at <= ttl) ||
            (exists i :: 0 <= i < |obs| && Names(obs[i], (user, ip)) && StillWorth(obs[i], ttl, now))
  {
    var k := (user, ip);
    var seen := Replaced(v, node, obs, complete, now).seen;
    MergedNewest(Without(v.seen, node), node, obs, now, k);
    assert k.1 == ip;
    assert ip in FreshIps(seen, user, ttl, now) <==> k in seen && Fresh(seen[k].at, now, ttl);
  }

  // A node counts as reporting from its report until it leaves or goes stale, and an incomplete
  // round makes every count a floor; leaving takes exactly the node's own sightings.
  lemma ReportingShows(v: Fleet, node: string, obs: seq<Observation>, complete: bool, ttl: int, now: int, user: string)
    requires 0 <= ttl
    ensures var w := Replaced(v, node, obs, complete, now);
            && node in FreshNodes(w.nodes, ttl, now)
            && (!complete ==> StatusIn(w, user, ttl, now).incomplete)
            && (StatusIn(w, user, ttl, now).incomplete <==>
                  !complete || exists n :: n != node && n in FreshNodes(v.nodes, ttl, now) && !v.nodes[n].complete)
  {
    var w := Replaced(v, node, obs, complete, now);
    assert node in FreshNodes(w.nodes, ttl, now);
    forall n | n != node ensures n in FreshNodes(w.nodes, ttl, now) <==> n in FreshNodes(v.nodes, ttl, now) {}
  }

  lemma LeavingShows(v: Fleet, node: string, ttl: int, now: int, k: Address)
    ensures var w := Forgotten(v, node);
            && FreshNodes(w.nodes, ttl, now) == FreshNodes(v.nodes, ttl, now) - {node}
            && (k in w.seen <==> k in v.seen && v.seen[k].node != node) && (k in w.seen ==> w.seen[k] == v.seen[k])
  {
  }

  // ---------- the union of the nodes' latest reports ----------

  datatype Op =
    | Report(node: string, obs: seq<Observation>, complete: bool, now: int)
    | Leave(node: string)
    | Expire(now: int)

  function Apply(v: Fleet, op: Op, ttl: int): Fleet {
    match op
    case Report(node, obs, complete, now) => Replaced(v, node, obs, complete, now)
    case Leave(node) => Forgotten(v, node)
    case Expire(now) => Pruned(v, ttl, now)
  }

  function After(ops: seq<Op>, ttl: int): Fleet {
    if ops == [] then Fleet(map[], map[]) else Apply(After(ops[..|ops| - 1], ttl), ops[|ops| - 1], ttl)
  }

  type Reports = map<string, set<(Address, int)>>

  function Listed(obs: seq<Observation>, now: int): set<(Address, int)> {
    set i | 0 <= i < |obs| && obs[i].user != "" && obs[i].ip != "" :: ((obs[i].user, obs[i].ip), Stamp(obs[i], now))
  }

  // Each node's latest report; pruning is not a report.
  function Latest(ops: seq<Op>): Reports {
    if ops == [] then map[] else
      var before := Latest(ops[..|ops| - 1]);
      match ops[|ops| - 1]
      case Report(node, obs, complete, now) => before[node := Listed(obs, now)]
      case Leave(node) => before - {node}
      case Expire(_) => before
  }

  predicate ReportedBy(reports: Reports, node: string, k: Address, at: int) { node in reports && (k, at) in reports[node] }

  // A user's addresses in any node's latest report, as long as they are fresh.
  function Union(reports: Reports, user: string, ttl: int, now: int): set<string> {
    set n, r | n in reports && r in reports[n] && r.0.0 == user && Fresh(r.1, now, ttl) :: r.0.1
  }

  lemma InUnion(reports: Reports, user: string, ttl: int, now: int, ip: string)
    ensures ip in Union(reports, user, ttl, now) <==>
            exists node, at :: ReportedBy(reports, node, (user, ip), at) && Fresh(at, now, ttl)
  {
    if ip in Union(reports, user, ttl, now) {
      var n, r :| n in reports && r in reports[n] && r.0.0 == user && Fresh(r.1, now, ttl) && r.0.1 == ip;
      assert r == ((user, ip), r.1) && ReportedBy(reports, n, (user, ip), r.1);
    }
    if node, at :| ReportedBy(reports, node, (user, ip), at) && Fresh(at, now, ttl) {
      assert ((user, ip), at).0.1 == ip && ((user, ip), at).0.0 == user && ((user, ip), at).1 == at;
    }
  }

  // Every sighting is in its node's latest report.
  lemma {:induction false} SeenWasReported(ops: seq<Op>, ttl: int, k: Address)
    ensures k in After(ops, ttl).seen ==> ReportedBy(Latest(ops), After(ops, ttl).seen[k].node, k, After(ops, ttl).seen[k].at)
  {
    if ops != [] {
      var n := |ops| - 1;
      SeenWasReported(ops[..n], ttl, k);
      if ops[n].Report? {
        var op := ops[n];
        MergedNewest(Without(After(ops[..n], ttl).seen, op.node), op.node, op.obs, op.now, k);
      }
    }
  }

  // So the count never exceeds the union.
  lemma CountWithinUnion(ops: seq<Op>, ttl: int, user: string, now: int)
    ensures FreshIps(After(ops, ttl).seen, user, ttl, now) <= Union(Latest(ops), user, ttl, now)
    ensures StatusIn(After(ops, ttl), user, ttl, now).count <= |Union(Latest(ops), user, ttl, now)|
  {
    var counted, union := FreshIps(After(ops, ttl).seen, user, ttl, now), Union(Latest(ops), user, ttl, now);
    forall ip | ip in counted ensures ip in union {
      SeenWasReported(ops, ttl, (user, ip));
      var s := After(ops, ttl).seen[(user, ip)];
      assert ReportedBy(Latest(ops), s.node, (user, ip), s.at);
      InUnion(Latest(ops), user, ttl, now, ip);
    }
    SubsetFewer(counted, union);
  }

  // No address in two nodes' latest reports at once, at any point of the run.
  ghost predicate Apart(reports: Reports) {
    forall m, n, k, a, b :: ReportedBy(reports, m, k, a) && ReportedBy(reports, n, k, b) ==> m == n
  }

  ghost predicate AlwaysApart(ops: seq<Op>) { forall i :: 0 <= i <= |ops| ==> Apart(Latest(ops[..i])) }

  // The clock has not passed now.
  predicate UpTo(ops: seq<Op>, now: int) { forall i :: 0 <= i < |ops| && !ops[i].Leave? ==> ops[i].now <= now }

  lemma PrefixApart(ops: seq<Op>, i: nat)
    requires AlwaysApart(ops) && i <= |ops|
    ensures AlwaysApart(ops[..i]) && Apart(Latest(ops[..i]))
  {
    forall j | 0 <= j <= i ensures Apart(Latest(ops[..i][..j])) {
      assert ops[..i][..j] == ops[..j];
    }
  }

  // With no overlap, what a node last reported and is still fresh is what is stored.
  lemma {:induction false} ReportedIsSeen(ops: seq<Op>, ttl: int, now: int, node: string, k: Address, at: int)
    requires AlwaysApart(ops) && UpTo(ops, now)
    requires ReportedBy(Latest(ops), node, k, at) && Fresh(at, now, ttl)
    ensures k in After(ops, ttl).seen && After(ops, ttl).seen[k].at >= at
  {
    var n := |ops| - 1;
    var op := ops[n];
    var before := After(ops[..n], ttl);
    PrefixApart(ops, n);
    PrefixApart(ops, n + 1);
    assert ops[..n + 1] == ops;
    if op.Report? && op.node == node {
      MergedNewest(Without(before.seen, node), node, op.obs, op.now, k);
    } else {
      assert ReportedBy(Latest(ops[..n]), node, k, at);
      ReportedIsSeen(ops[..n], ttl, now, node, k, at);
      SeenWasReported(ops[..n], ttl, k);
      assert before.seen[k].node == node;
      if op.Report? { MergedNewest(Without(before.seen, op.node), op.node, op.obs, op.now, k); }
    }
  }

  lemma CountIsTheUnion(ops: seq<Op>, ttl: int, user: string, now: int)
    requires AlwaysApart(ops) && UpTo(ops, now)
    ensures FreshIps(After(ops, ttl).seen, user, ttl, now) == Union(Latest(ops), user, ttl, now)
    ensures StatusIn(After(ops, ttl), user, ttl, now).count == |Union(Latest(ops), user, ttl, now)|
  {
    CountWithinUnion(ops, ttl, user, now);
    forall ip | ip in Union(Latest(ops), user, ttl, now) ensures ip in FreshIps(After(ops, ttl).seen, user, ttl, now) {
      InUnion(Latest(ops), user, ttl, now, ip);
      var node, at :| ReportedBy(Latest(ops), node, (user, ip), at) && Fresh(at, now, ttl);
      ReportedIsSeen(ops, ttl, now, node, (user, ip), at);
      assert (user, ip).1 == ip;
    }
  }

  // ---------- exactly when an address is still counted ----------

  predicate Mentions(op: Op, k: Address) { op.Report? && exists i :: 0 <= i < |op.obs| && Names(op.obs[i], k) }

  // The operation at j is the last report to name k.
  predicate LastNamed(ops: seq<Op>, k: Address, j: nat) {
    j < |ops| && Mentions(ops[j], k) && forall i :: j < i < |ops| ==> !Mentions(ops[i], k)
  }

  // The node has neither reported nor left since j.
  predicate QuietSince(ops: seq<Op>, j: nat, node: string) {
    forall i :: j < i < |ops| && !ops[i].Expire? ==> ops[i].node != node
  }

  lemma NamedIsHeld(ops: seq<Op>, ttl: int, k: Address, j: nat)
    requires LastNamed(ops, k, j)
    ensures k in After(ops[..j + 1], ttl).seen
  {
    var before, op := After(ops[..j + 1][..j], ttl), ops[j];
    MergedNewest(Without(before.seen, op.node), op.node, op.obs, op.now, k);
  }

  // Who held k once the last report to name it was in.
  ghost function HolderAt(ops: seq<Op>, ttl: int, k: Address, j: nat): Sighting
    requires LastNamed(ops, k, j)
  {
    NamedIsHeld(ops, ttl, k, j);
    After(ops[..j + 1], ttl).seen[k]
  }

  // One more operation that does not name k keeps its sighting, unless it is of the node that
  // holds it or the sighting has expired.
  lemma UnnamedKeeps(v: Fleet, op: Op, ttl: int, k: Address, now: int)
    requires !Mentions(op, k) && (op.Expire? ==> op.now <= now)
    ensures var seen := Apply(v, op, ttl).seen;
            && (k in seen ==> k in v.seen && seen[k] == v.seen[k])
            && (k in v.seen && Fresh(v.seen[k].at, now, ttl) ==>
                  (k in seen <==> op.Expire? || op.node != v.seen[k].node))
  {
    if op.Report? { MergedNewest(Without(v.seen, op.node), op.node, op.obs, op.now, k); }
  }

  lemma QuietOneMore(ops: seq<Op>, j: nat, node: string)
    requires j < |ops| - 1
    ensures var n := |ops| - 1;
            QuietSince(ops, j, node) <==> QuietSince(ops[..n], j, node) && (ops[n].Expire? || ops[n].node != node)
  {
    var n := |ops| - 1;
    if QuietSince(ops, j, node) {
      forall i | j < i < n && !ops[..n][i].Expire? ensures ops[..n][i].node != node { assert ops[..n][i] == ops[i]; }
    }
    if QuietSince(ops[..n], j, node) && (ops[n].Expire? || ops[n].node != node) {
      forall i | j < i < |ops| && !ops[i].Expire? ensures ops[i].node != node { if i < n { assert ops[..n][i] == ops[i]; } }
    }
  }

  // An address is counted exactly when the sighting the last report to name it left is fresh and
  // the node of that sighting has neither reported nor left since.
  lemma {:induction false} CountedExactly(ops: seq<Op>, ttl: int, now: int, k: Address, j: nat)
    requires UpTo(ops, now) && LastNamed(ops, k, j)
    ensures k in After(ops, ttl).seen && Fresh(After(ops, ttl).seen[k].at, now, ttl) <==>
            Fresh(HolderAt(ops, ttl, k, j).at, now, ttl) && QuietSince(ops, j, HolderAt(ops, ttl, k, j).node)
    ensures k in After(ops, ttl).seen ==> After(ops, ttl).seen[k] == HolderAt(ops, ttl, k, j)
    decreases |ops|
  {
    NamedIsHeld(ops, ttl, k, j);
    var n := |ops| - 1;
    if j == n {
      assert ops[..n + 1] == ops;
    } else {
      assert ops[..n][..j + 1] == ops[..j + 1];
      CountedExactly(ops[..n], ttl, now, k, j);
      QuietOneMore(ops, j, HolderAt(ops, ttl, k, j).node);
      UnnamedKeeps(After(ops[..n], ttl), ops[n], ttl, k, now);
    }
  }

  lemma {:induction false} NeverNamed(ops: seq<Op>, ttl: int, k: Address)
    requires forall i :: 0 <= i < |ops| ==> !Mentions(ops[i], k)
    ensures k !in After(ops, ttl).seen
  {
    if ops != [] {
      var n := |ops| - 1;
      NeverNamed(ops[..n], ttl, k);
      if ops[n].Report? { MergedNewest(Without(After(ops[..n], ttl).seen, ops[n].node), ops[n].node, ops[n].obs, ops[n].now, k); }
    }
  }

  lemma {:induction false} LastNaming(ops: seq<Op>, k: Address, i: nat) returns (j: nat)
    requires i < |ops| && Mentions(ops[i], k)
    ensures LastNamed(ops, k, j)
    decreases |ops| - i
  {
    if later :| i < later < |ops| && Mentions(ops[later], k) {
      j := LastNaming(ops, k, later);
    } else {
      j := i;
    }
  }

  // The address's last report left it with a node that is still standing by it.
  ghost predicate StoodBy(ops: seq<Op>, ttl: int, now: int, k: Address) {
    exists j: nat :: LastNamed(ops, k, j) &&
      Fresh(HolderAt(ops, ttl, k, j).at, now, ttl) && QuietSince(ops, j, HolderAt(ops, ttl, k, j).node)
  }

  lemma CountedIffStoodBy(ops: seq<Op>, ttl: int, now: int, user: string, ip: string)
    requires UpTo(ops, now)
    ensures ip in FreshIps(After(ops, ttl).seen, user, ttl, now) <==> StoodBy(ops, ttl, now, (user, ip))
  {
    var k := (user, ip);
    if i :| 0 <= i < |ops| && Mentions(ops[i], k) {
      var j := LastNaming(ops, k, i);
      CountedExactly(ops, ttl, now, k, j);
      if StoodBy(ops, ttl, now, k) {
        var j' : nat :| LastNamed(ops, k, j') &&
          Fresh(HolderAt(ops, ttl, k, j').at, now, ttl) && QuietSince(ops, j', HolderAt(ops, ttl, k, j').node);
        assert j' == j;
        assert k.1 == ip;
      }
    } else {
      NeverNamed(ops, ttl, k);
    }
  }

  // The count is the union exactly when every address in the union is stood by.
  lemma CountIsTheUnionExactly(ops: seq<Op>, ttl: int, user: string, now: int)
    requires UpTo(ops, now)
    ensures StatusIn(After(ops, ttl), user, ttl, now).count == |Union(Latest(ops), user, ttl, now)| <==>
            forall ip :: ip in Union(Latest(ops), user, ttl, now) ==> StoodBy(ops, ttl, now, (user, ip))
  {
    var counted, union := FreshIps(After(ops, ttl).seen, user, ttl, now), Union(Latest(ops), user, ttl, now);
    CountWithinUnion(ops, ttl, user, now);
    SubsetFewer(counted, union);
    if counted == union {
      forall ip | ip in union ensures StoodBy(ops, ttl, now, (user, ip)) { CountedIffStoodBy(ops, ttl, now, user, ip); }
    } else {
      var ip :| ip in union && ip !in counted;
      CountedIffStoodBy(ops, ttl, now, user, ip);
    }
  }

  // With overlap the count can fall short: the newer sighting replaces the older one, and goes
  // when its own node stops reporting the address, although the other node still does.
  lemma OverlapLosesAnAddress()
    ensures var ops := [Report("tokyo", [Observation("u", "1.1.1.1", Some(1))], true, 1),
                        Report("frankfurt", [Observation("u", "1.1.1.1", Some(2))], true, 2),
                        Report("frankfurt", [], true, 3)];
            StatusIn(After(ops, 60), "u", 60, 3).count == 0 && "1.1.1.1" in Union(Latest(ops), "u", 60, 3)
  {
    var k := ("u", "1.1.1.1");
    var o1, o2 := [Observation("u", "1.1.1.1", Some(1))], [Observation("u", "1.1.1.1", Some(2))];
    var ops := [Report("tokyo", o1, true, 1), Report("frankfurt", o2, true, 2), Report("frankfurt", [], true, 3)];
    assert ops[..2] == [ops[0], ops[1]] && ops[..2][..1] == [ops[0]] && ops[..1][..0] == [];
    assert o1[..0] == [] && o2[..0] == [];
    assert After([ops[0]], 60).seen == map[k := Sighting("tokyo", 1)];
    assert After(ops[..2], 60).seen == map[k := Sighting("frankfurt", 2)];
    assert After(ops, 60).seen == map[];
    assert o1[0].user == "u";
    assert (k, 1) in Listed(o1, 1);
    assert Latest([ops[0]]) == map["tokyo" := Listed(o1, 1)];
    assert Latest(ops[..2]) == Latest([ops[0]])["frankfurt" := Listed(o2, 2)];
    assert Latest(ops) == Latest(ops[..2])["frankfurt" := Listed([], 3)];
    assert ReportedBy(Latest(ops), "tokyo", k, 1);
    InUnion(Latest(ops), "u", 60, 3, "1.1.1.1");
  }

  // ---------- pruning is invisible ----------

  // The same fresh sightings and nodes, from now on.
  ghost predicate Agree(v: Fleet, w: Fleet, ttl: int, now: int) {
    && (forall k :: (k in v.seen && Fresh(v.seen[k].at, now, ttl)) <==> (k in w.seen && Fresh(w.seen[k].at, now, ttl)))
    && (forall k :: k in v.seen && Fresh(v.seen[k].at, now, ttl) ==> w.seen[k] == v.seen[k])
    && (forall n :: (n in v.nodes && Fresh(v.nodes[n].at, now, ttl)) <==> (n in w.nodes && Fresh(w.nodes[n].at, now, ttl)))
    && (forall n :: n in v.nodes && Fresh(v.nodes[n].at, now, ttl) ==> w.nodes[n] == v.nodes[n])
  }

  lemma AgreeLater(v: Fleet, w: Fleet, ttl: int, now: int, later: int)
    requires Agree(v, w, ttl, now) && now <= later
    ensures Agree(v, w, ttl, later)
  {
  }

  lemma AgreeLooksTheSame(v: Fleet, w: Fleet, ttl: int, now: int, user: string)
    requires Agree(v, w, ttl, now)
    ensures StatusIn(v, user, ttl, now) == StatusIn(w, user, ttl, now)
  {
    assert FreshIps(v.seen, user, ttl, now) == FreshIps(w.seen, user, ttl, now);
    assert FreshNodes(v.nodes, ttl, now) == FreshNodes(w.nodes, ttl, now);
  }

  ghost predicate AgreeSeen(a: Sightings, b: Sightings, ttl: int, now: int) {
    && (forall k :: (k in a && Fresh(a[k].at, now, ttl)) <==> (k in b && Fresh(b[k].at, now, ttl)))
    && (forall k :: k in a && Fresh(a[k].at, now, ttl) ==> b[k] == a[k])
  }

  lemma {:induction false} MergedAgree(a: Sightings, b: Sightings, node: string, obs: seq<Observation>, ttl: int, now: int)
    requires AgreeSeen(a, b, ttl, now)
    ensures AgreeSeen(Merged(a, node, obs, now), Merged(b, node, obs, now), ttl, now)
  {
    if obs != [] { MergedAgree(a, b, node, obs[..|obs| - 1], ttl, now); }
  }

  lemma StepAgree(v: Fleet, w: Fleet, op: Op, ttl: int, now: int)
    requires Agree(v, w, ttl, now) && (op.Report? ==> op.now == now) && !op.Expire?
    ensures Agree(Apply(v, op, ttl), Apply(w, op, ttl), ttl, now)
  {
    assert AgreeSeen(Without(v.seen, op.node), Without(w.seen, op.node), ttl, now);
    if op.Report? {
      MergedAgree(Without(v.seen, op.node), Without(w.seen, op.node), op.node, op.obs, ttl, now);
    }
  }

  lemma PruneAgrees(v: Fleet, w: Fleet, ttl: int, now: int)
    requires Agree(v, w, ttl, now)
    ensures Agree(Pruned(v, ttl, now), w, ttl, now)
  {
  }

  function Unpruned(ops: seq<Op>): seq<Op> {
    if ops == [] then []
    else Unpruned(ops[..|ops| - 1]) + if ops[|ops| - 1].Expire? then [] else [ops[|ops| - 1]]
  }

  // Clock readings never go back.
  predicate Ordered(ops: seq<Op>) {
    forall i, j :: 0 <= i <= j < |ops| && !ops[i].Leave? && !ops[j].Leave? ==> ops[i].now <= ops[j].now
  }

  lemma UnprunedStep(ops: seq<Op>, ttl: int)
    requires ops != []
    ensures var rest := ops[..|ops| - 1];
            After(Unpruned(ops), ttl) ==
              if ops[|ops| - 1].Expire? then After(Unpruned(rest), ttl)
              else Apply(After(Unpruned(rest), ttl), ops[|ops| - 1], ttl)
  {
    var rest, op := Unpruned(ops[..|ops| - 1]), ops[|ops| - 1];
    if op.Expire? {
      assert rest + [] == rest;
    } else {
      assert (rest + [op])[..|rest|] == rest;
    }
  }

  lemma {:induction false} PruningAgrees(ops: seq<Op>, ttl: int, now: int)
    requires Ordered(ops) && UpTo(ops, now)
    ensures Agree(After(ops, ttl), After(Unpruned(ops), ttl), ttl, now)
    decreases |ops|
  {
    if ops != [] {
      var n := |ops| - 1;
      var op := ops[n];
      var v, w := After(ops[..n], ttl), After(Unpruned(ops[..n]), ttl);
      UnprunedStep(ops, ttl);
      var at := if op.Leave? then now else op.now;
      PruningAgrees(ops[..n], ttl, at);
      if op.Expire? { PruneAgrees(v, w, ttl, at); } else { StepAgree(v, w, op, ttl, at); }
      AgreeLater(After(ops, ttl), After(Unpruned(ops), ttl), ttl, at, now);
    }
  }

  // Drop every prune from a run and nobody, asking from then on, can tell.
  lemma PruneInvisible(ops: seq<Op>, ttl: int, user: string, now: int)
    requires Ordered(ops) && UpTo(ops, now)
    ensures StatusIn(After(ops, ttl), user, ttl, now) == StatusIn(After(Unpruned(ops), ttl), user, ttl, now)
  {
    PruningAgrees(ops, ttl, now);
    AgreeLooksTheSame(After(ops, ttl), After(Unpruned(ops), ttl), ttl, now, user);
  }
}
