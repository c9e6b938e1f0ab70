/** Egress rules: traffic of one node leaving through another. A landing that would bring the
  * traffic back is refused by a depth-first search over the enabled landings. */
module Egress {
  import opened Collections
  import opened Wrappers
  import opened Graphs

  datatype Target = ToDirect | ToExternal(proxyId: string) | ToNode(node: string, profile: string)

  // The parts of a node_egress_rules row that decide where traffic goes.
  datatype EgressRule = EgressRule(id: string, nodeId: string, target: Target, enabled: bool)

  // What a request asks for; KindUnknown is any other target_kind.
  datatype TargetReq = KindDirect | KindExternal(proxyId: string) | KindNode(node: string, profile: string) | KindUnknown

  predicate FleetLanding(r: EgressRule) { r.enabled && r.target.ToNode? }

  // Where traffic entering a node may be sent on to, by rules that are switched on.
  ghost function Landings(rules: map<string, EgressRule>): Edges {
    set id | id in rules && FleetLanding(rules[id]) :: (rules[id].nodeId, rules[id].target.node)
  }

  // The landings of nodes whose rules can be read; a failed read counts as no rules.
  ghost function ReadableLandings(rules: map<string, EgressRule>, unreadable: set<string>): Edges {
    set e | e in Landings(rules) && e.0 !in unreadable
  }

  // ---------- the search ----------

  // The rules on one node, in whatever order.
  method RulesOn(rules: map<string, EgressRule>, nodeId: string) returns (out: seq<EgressRule>)
    ensures forall r :: r in out <==> exists id :: id in rules && rules[id] == r && r.nodeId == nodeId
  {
    out := [];
    var todo := rules.Keys;
    while todo != {}
      invariant todo <= rules.Keys
      invariant forall r :: r in out <==>
                  exists id :: id in rules && id !in todo && rules[id] == r && r.nodeId == nodeId
      decreases todo
    {
      var id :| id in todo;
      todo := todo - {id};
      if rules[id].nodeId == nodeId { out := out + [rules[id]]; }
    }
  }

  // Everything visited since before has all its successors visited too.
  ghost predicate Explored(edges: Edges, before: set<string>, after: set<string>) {
    forall a, b :: (a, b) in edges && a in after && a !in before ==> b in after
  }

  // Which nodes a search can come across.
  ghost function Mentioned(edges: Edges, from: string): set<string> {
    {from} + (set e | e in edges :: e.1)
  }

  method EgressReaches(rules: map<string, EgressRule>, unreadable: set<string>, from: string, to: string,
                       seen: set<string>, ghost universe: set<string>)
    returns (found: bool, marked: set<string>)
    requires to !in seen && from in universe
    requires forall e :: e in Landings(rules) ==> e.1 in universe
    ensures found ==> Reaches(ReadableLandings(rules, unreadable), from, to)
    ensures !found ==>
              && from in marked && to !in marked && seen <= marked
              && Explored(ReadableLandings(rules, unreadable), seen, marked)
    decreases |universe - seen|
  {
    ghost var edges := ReadableLandings(rules, unreadable);
    if from == to {
      ReachesSelf(edges, from);
      return true, seen;
    }
    if from in seen {
      return false, seen;
    }
    marked := seen + {from};
    assert universe - marked == (universe - seen) - {from};
    if from in unreadable {
      return false, marked;
    }
    var on := RulesOn(rules, from);
    for i := 0 to |on|
      invariant seen + {from} <= marked && to !in marked
      invariant Explored(edges, seen + {from}, marked)
      invariant forall k :: 0 <= k < i && FleetLanding(on[k]) ==> on[k].target.node in marked
    {
      assert on[i] in on;
      if FleetLanding(on[i]) {
        var id :| id in rules && rules[id] == on[i] && on[i].nodeId == from;
        assert (from, on[i].target.node) in edges;
        ghost var before := marked;
        assert universe - marked <= universe - (seen + {from});
        SubsetFewer(universe - marked, universe - (seen + {from}));
        found, marked := EgressReaches(rules, unreadable, on[i].target.node, to, marked, universe);
        if found {
          ReachesStep(edges, from, on[i].target.node, to);
          return;
        }
      }
    }
    found := false;
    forall b | (from, b) in edges ensures b in marked {
      var id :| id in rules && FleetLanding(rules[id]) && (from, b) == (rules[id].nodeId, rules[id].target.node);
      assert rules[id] in on;
    }
  }

  // The search as the handlers start it: an exact answer over the readable landings.
  method Reachable(rules: map<string, EgressRule>, unreadable: set<string>, from: string, to: string)
    returns (found: bool)
    ensures found <==> Reaches(ReadableLandings(rules, unreadable), from, to)
  {
    var marked;
    ghost var edges := ReadableLandings(rules, unreadable);
    found, marked := EgressReaches(rules, unreadable, from, to, {}, Mentioned(Landings(rules), from));
    if !found && Reaches(edges, from, to) { ClosedHoldsReachable(edges, marked, from, to); }
  }

  // ---------- the handlers ----------

  datatype Outcome = Done | Invalid | NotFound | TargetRefused

  // The landing a request resolves to, None when it is refused.
  ghost function Resolution(rules: map<string, EgressRule>, nodes: set<string>, externals: set<string>,
                            bound: set<(string, string)>, unreadable: set<string>,
                            onNode: string, req: TargetReq): Option<Target>
  {
    match req
    case KindDirect => Some(ToDirect)
    case KindExternal(p) => if p in externals then Some(ToExternal(p)) else None
    case KindNode(n, p) =>
      if n != onNode && n in nodes && (p, n) in bound && !Reaches(ReadableLandings(rules, unreadable), n, onNode)
      then Some(ToNode(n, p)) else None
    case KindUnknown => None
  }

  ghost function Switched(rules: map<string, EgressRule>, id: string, enabled: Option<bool>): map<string, EgressRule>
    requires id in rules
  {
    rules[id := rules[id].(enabled := if enabled.Some? then enabled.value else rules[id].enabled)]
  }

  ghost function UpdateOutcome(rules: map<string, EgressRule>, nodes: set<string>, externals: set<string>,
                               bound: set<(string, string)>, unreadable: set<string>, id: string, valid: bool,
                               enabled: Option<bool>, target: Option<TargetReq>): Outcome
  {
    if id !in rules then NotFound
    else if !valid then Invalid
    else if target.Some? &&
            Resolution(Switched(rules, id, enabled), nodes, externals, bound, unreadable, rules[id].nodeId, target.value).None?
    then TargetRefused
    else Done
  }

  ghost function Updated(rules: map<string, EgressRule>, nodes: set<string>, externals: set<string>,
                         bound: set<(string, string)>, unreadable: set<string>, id: string, valid: bool,
                         enabled: Option<bool>, target: Option<TargetReq>): map<string, EgressRule>
  {
    if id !in rules || !valid then rules
    else
      var mid := Switched(rules, id, enabled);
      if target.None? then mid
      else
        var t := Resolution(mid, nodes, externals, bound, unreadable, rules[id].nodeId, target.value);
        if t.None? then mid else mid[id := mid[id].(target := t.value)]
  }

  // What the handlers promise of a landing, said without the resolution itself.

  // The landing stored is the one asked for.
  predicate AskedFor(req: TargetReq, t: Target) {
    (req.KindDirect? && t.ToDirect?) ||
    (req.KindExternal? && t.ToExternal? && t.proxyId == req.proxyId) ||
    (req.KindNode? && t.ToNode? && t.node == req.node && t.profile == req.profile)
  }

  // It may be granted: it exists, and a node is another one, serves the profile and does not lead back.
  ghost predicate Grantable(rules: map<string, EgressRule>, nodes: set<string>, externals: set<string>,
                            bound: set<(string, string)>, unreadable: set<string>, onNode: string, req: TargetReq)
  {
    && !req.KindUnknown?
    && (req.KindExternal? ==> req.proxyId in externals)
    && (req.KindNode? ==>
          req.node != onNode && req.node in nodes && (req.profile, req.node) in bound &&
          !Reaches(ReadableLandings(rules, unreadable), req.node, onNode))
  }

  lemma ResolvedAsAsked(rules: map<string, EgressRule>, nodes: set<string>, externals: set<string>,
                        bound: set<(string, string)>, unreadable: set<string>, onNode: string, req: TargetReq)
    ensures var t := Resolution(rules, nodes, externals, bound, unreadable, onNode, req);
            && (t.Some? <==> Grantable(rules, nodes, externals, bound, unreadable, onNode, req))
            && (t.Some? ==> AskedFor(req, t.value))
  {
  }

  method ResolveTarget(rules: map<string, EgressRule>, nodes: set<string>, externals: set<string>,
                       bound: set<(string, string)>, unreadable: set<string>, onNode: string, req: TargetReq)
    returns (t: Option<Target>)
    ensures t == Resolution(rules, nodes, externals, bound, unreadable, onNode, req)
  {
    match req {
      case KindDirect => return Some(ToDirect);
      case KindExternal(p) => return if p in externals then Some(ToExternal(p)) else None;
      case KindNode(n, p) =>
        if n == onNode { return None; }
        if n !in nodes { return None; }
        if (p, n) !in bound { return None; }
        var loops := Reachable(rules, unreadable, n, onNode);
        if loops { return None; }
        return Some(ToNode(n, p));
      case KindUnknown => return None;
    }
  }

  // enabled and target are None where the request leaves the field out. The switch is written
  // before the target is looked at, and stays written when the target is refused.
  method UpdateRules(rules: map<string, EgressRule>, nodes: set<string>, externals: set<string>,
                     bound: set<(string, string)>, unreadable: set<string>, id: string, valid: bool,
                     enabled: Option<bool>, target: Option<TargetReq>)
    returns (out: Outcome, rules': map<string, EgressRule>)
    ensures out == UpdateOutcome(rules, nodes, externals, bound, unreadable, id, valid, enabled, target)
    ensures rules' == Updated(rules, nodes, externals, bound, unreadable, id, valid, enabled, target)
  {
    rules' := rules;
    if id !in rules { return NotFound, rules; }
    if !valid { return Invalid, rules; }
    var on := if enabled.Some? then enabled.value else rules[id].enabled;
    rules' := rules[id := rules[id].(enabled := on)];
    if target.Some? {
      var t := ResolveTarget(rules', nodes, externals, bound, unreadable, rules'[id].nodeId, target.value);
      if t.None? { return TargetRefused, rules'; }
      rules' := rules'[id := rules'[id].(target := t.value)];
    }
    return Done, rules';
  }

  // ---------- what keeps the landings free of loops ----------

  lemma LandingsWithRule(rules: map<string, EgressRule>, id: string, r: EgressRule)
    ensures Landings(rules[id := r]) ==
            Landings(rules - {id}) + (if FleetLanding(r) then {(r.nodeId, r.target.node)} else {})
  {
    var rules', others := rules[id := r], rules - {id};
    forall e | e in Landings(rules') ensures e in Landings(others) || (FleetLanding(r) && e == (r.nodeId, r.target.node)) {
      var k :| k in rules' && FleetLanding(rules'[k]) && e == (rules'[k].nodeId, rules'[k].target.node);
      if k != id { assert k in others && others[k] == rules'[k]; }
    }
    forall e | e in Landings(others) ensures e in Landings(rules') {
      var k :| k in others && FleetLanding(others[k]) && e == (others[k].nodeId, others[k].target.node);
      assert rules'[k] == others[k];
    }
    if FleetLanding(r) { assert rules'[id] == r; }
  }

  lemma LandingsWithout(rules: map<string, EgressRule>, id: string)
    ensures Landings(rules - {id}) <= Landings(rules)
  {
  }

  // A new rule keeps the landings acyclic, and a landing refused for looping would not have.
  lemma CreateKeepsAcyclic(rules: map<string, EgressRule>, newId: string, nodeId: string, node: string, profile: string)
    requires newId !in rules && Acyclic(Landings(rules))
    ensures Acyclic(Landings(rules[newId := EgressRule(newId, nodeId, ToNode(node, profile), true)])) <==>
            !Reaches(ReadableLandings(rules, {}), node, nodeId)
  {
    LandingsWithRule(rules, newId, EgressRule(newId, nodeId, ToNode(node, profile), true));
    assert rules - {newId} == rules;
    assert ReadableLandings(rules, {}) == Landings(rules);
    AcyclicWithEdge(Landings(rules), nodeId, node);
  }

  lemma CreatedKeepsAcyclic(rules: map<string, EgressRule>, newId: string, nodeId: string, t: Target)
    requires newId !in rules && Acyclic(Landings(rules))
    requires t.ToNode? ==> !Reaches(ReadableLandings(rules, {}), t.node, nodeId)
    ensures Acyclic(Landings(rules[newId := EgressRule(newId, nodeId, t, true)]))
  {
    if t.ToNode? {
      CreateKeepsAcyclic(rules, newId, nodeId, t.node, t.profile);
    } else {
      LandingsWithRule(rules, newId, EgressRule(newId, nodeId, t, true));
      assert rules - {newId} == rules;
      AcyclicFewer(Landings(rules[newId := EgressRule(newId, nodeId, t, true)]), Landings(rules));
    }
  }

  // The one way an update can close a loop: it switches a disabled fleet landing back on, leaves
  // the landing where it was (no new target, or one that is refused), and that landing has come
  // to lead back. A new target is always checked.
  ghost predicate ReEnablesLoop(rules: map<string, EgressRule>, nodes: set<string>, externals: set<string>,
                                bound: set<(string, string)>, id: string, valid: bool,
                                enabled: Option<bool>, target: Option<TargetReq>)
  {
    && id in rules && valid && !rules[id].enabled && enabled == Some(true)
    && (target.None? || UpdateOutcome(rules, nodes, externals, bound, {}, id, valid, enabled, target).TargetRefused?)
    && rules[id].target.ToNode?
    && Reaches(Landings(rules), rules[id].target.node, rules[id].nodeId)
  }

  lemma SwitchKeepsAcyclic(rules: map<string, EgressRule>, id: string, on: bool)
    requires Acyclic(Landings(rules)) && id in rules
    ensures Acyclic(Landings(rules[id := rules[id].(enabled := on)])) <==>
            !(on && !rules[id].enabled && rules[id].target.ToNode? &&
              Reaches(Landings(rules), rules[id].target.node, rules[id].nodeId))
  {
    var r := rules[id].(enabled := on);
    LandingsWithRule(rules, id, r);
    LandingsWithRule(rules, id, rules[id]);
    assert rules[id := rules[id]] == rules;
    if on && !rules[id].enabled && rules[id].target.ToNode? {
      assert Landings(rules) == Landings(rules - {id});
      AcyclicWithEdge(Landings(rules), r.nodeId, r.target.node);
    } else {
      AcyclicFewer(Landings(rules[id := r]), Landings(rules));
    }
  }

  lemma RetargetKeepsAcyclic(rules: map<string, EgressRule>, nodes: set<string>, externals: set<string>,
                             bound: set<(string, string)>, id: string, enabled: Option<bool>, req: TargetReq)
    requires Acyclic(Landings(rules)) && id in rules
    requires Resolution(Switched(rules, id, enabled), nodes, externals, bound, {}, rules[id].nodeId, req).Some?
    ensures var mid := Switched(rules, id, enabled);
            var t := Resolution(mid, nodes, externals, bound, {}, rules[id].nodeId, req).value;
            Acyclic(Landings(mid[id := mid[id].(target := t)]))
  {
    var mid := Switched(rules, id, enabled);
    var t := Resolution(mid, nodes, externals, bound, {}, rules[id].nodeId, req).value;
    var r := mid[id].(target := t);
    var others := Landings(mid - {id});
    assert mid - {id} == rules - {id};
    LandingsWithout(rules, id);
    LandingsWithout(mid, id);
    AcyclicFewer(others, Landings(rules));
    LandingsWithRule(mid, id, r);
    if FleetLanding(r) {
      assert ReadableLandings(mid, {}) == Landings(mid);
      if Reaches(others, r.target.node, r.nodeId) { ReachesMore(others, Landings(mid), r.target.node, r.nodeId); }
      AcyclicWithEdge(others, r.nodeId, r.target.node);
    } else {
      AcyclicFewer(Landings(mid[id := r]), others);
    }
  }

  lemma UpdateKeepsAcyclicExactly(rules: map<string, EgressRule>, nodes: set<string>, externals: set<string>,
                                  bound: set<(string, string)>, id: string, valid: bool,
                                  enabled: Option<bool>, target: Option<TargetReq>)
    requires Acyclic(Landings(rules))
    ensures Acyclic(Landings(Updated(rules, nodes, externals, bound, {}, id, valid, enabled, target))) <==>
            !ReEnablesLoop(rules, nodes, externals, bound, id, valid, enabled, target)
  {
    var after := Updated(rules, nodes, externals, bound, {}, id, valid, enabled, target);
    if id in rules && valid {
      LandingsWithout(rules, id);
      AcyclicFewer(Landings(rules - {id}), Landings(rules));
      var r := after[id];
      if r.target == rules[id].target && !(target.Some? && UpdateOutcome(rules, nodes, externals, bound, {}, id, valid, enabled, target).Done?) {
        SwitchKeepsAcyclic(rules, id, r.enabled);
        assert after == rules[id := rules[id].(enabled := r.enabled)];
      } else {
        RetargetKeepsAcyclic(rules, nodes, externals, bound, id, enabled, target.value);
      }
    }
  }

  // An update, said without the resolution: the switch as asked, the landing as asked or as it was,
  // nothing else touched; refused for its target exactly when that may not be granted.
  ghost predicate UpdatedAsAsked(rules: map<string, EgressRule>, rules': map<string, EgressRule>, nodes: set<string>,
                                 externals: set<string>, bound: set<(string, string)>, unreadable: set<string>, id: string,
                                 valid: bool, enabled: Option<bool>, target: Option<TargetReq>, out: Outcome)
  {
    && (out.NotFound? <==> id !in rules)
    && (out.Invalid? <==> id in rules && !valid)
    && (out.NotFound? || out.Invalid? ==> rules' == rules)
    && (id in rules && valid ==>
          var on := if enabled.Some? then enabled.value else rules[id].enabled;
          && id in rules' && rules' - {id} == rules - {id}
          && rules'[id].id == rules[id].id && rules'[id].nodeId == rules[id].nodeId && rules'[id].enabled == on
          && (out.TargetRefused? <==>
                target.Some? &&
                !Grantable(rules[id := rules[id].(enabled := on)], nodes, externals, bound, unreadable, rules[id].nodeId, target.value))
          && (out.Done? && target.Some? ==> AskedFor(target.value, rules'[id].target))
          && (out.TargetRefused? || target.None? ==> rules'[id].target == rules[id].target))
  }

  lemma UpdateIsAsAsked(rules: map<string, EgressRule>, nodes: set<string>, externals: set<string>,
                        bound: set<(string, string)>, unreadable: set<string>, id: string, valid: bool,
                        enabled: Option<bool>, target: Option<TargetReq>)
    ensures UpdatedAsAsked(rules, Updated(rules, nodes, externals, bound, unreadable, id, valid, enabled, target), nodes,
                           externals, bound, unreadable, id, valid, enabled, target,
                           UpdateOutcome(rules, nodes, externals, bound, unreadable, id, valid, enabled, target))
  {
    if id in rules && valid && target.Some? {
      ResolvedAsAsked(Switched(rules, id, enabled), nodes, externals, bound, unreadable, rules[id].nodeId, target.value);
    }
  }

  class EgressStore {
    var rules: map<string, EgressRule>
    var nodes: set<string>
    var externals: set<string>
    // (profile, node) pairs: which nodes serve which profile
    var bound: set<(string, string)>

    // valid stands for the checks on label and match lists that come before anything is written.
    method CreateEgress(unreadable: set<string>, newId: string, nodeId: string, valid: bool, req: TargetReq)
      returns (out: Outcome)
      requires newId !in rules
      modifies this`rules
      ensures out == if nodeId !in nodes then NotFound
                     else if !valid then Invalid
                     else if Resolution(old(rules), nodes, externals, bound, unreadable, nodeId, req).None? then TargetRefused
                     else Done
      ensures out.Done? ==>
                rules == old(rules)[newId := EgressRule(newId, nodeId,
                  Resolution(old(rules), nodes, externals, bound, unreadable, nodeId, req).value, true)]
      ensures !out.Done? ==> rules == old(rules)
      // granted exactly when it may be, and stored as asked
      ensures out.Done? <==> nodeId in nodes && valid &&
                             Grantable(old(rules), nodes, externals, bound, unreadable, nodeId, req)
      ensures out.Done? ==> newId in rules && rules[newId].nodeId == nodeId && rules[newId].enabled &&
                            AskedFor(req, rules[newId].target) && rules - {newId} == old(rules)
      ensures unreadable == {} && Acyclic(Landings(old(rules))) ==> Acyclic(Landings(rules))
    {
      if nodeId !in nodes { return NotFound; }
      if !valid { return Invalid; }
      ResolvedAsAsked(rules, nodes, externals, bound, unreadable, nodeId, req);
      var t := ResolveTarget(rules, nodes, externals, bound, unreadable, nodeId, req);
      if t.None? { return TargetRefused; }
      rules := rules[newId := EgressRule(newId, nodeId, t.value, true)];
      if unreadable == {} && Acyclic(Landings(old(rules))) { CreatedKeepsAcyclic(old(rules), newId, nodeId, t.value); }
      return Done;
    }

    method UpdateEgress(unreadable: set<string>, id: string, valid: bool, enabled: Option<bool>, target: Option<TargetReq>)
      returns (out: Outcome)
      modifies this`rules
      ensures out == UpdateOutcome(old(rules), nodes, externals, bound, unreadable, id, valid, enabled, target)
      ensures rules == Updated(old(rules), nodes, externals, bound, unreadable, id, valid, enabled, target)
      ensures UpdatedAsAsked(old(rules), rules, nodes, externals, bound, unreadable, id, valid, enabled, target, out)
    {
      UpdateIsAsAsked(rules, nodes, externals, bound, unreadable, id, valid, enabled, target);
      out, rules := UpdateRules(rules, nodes, externals, bound, unreadable, id, valid, enabled, target);
    }

    method DeleteEgress(id: string) returns (out: Outcome)
      modifies this`rules
      ensures out == if id in old(rules) then Done else NotFound
      ensures rules == old(rules) - {id}
      ensures Acyclic(Landings(old(rules))) ==> Acyclic(Landings(rules))
    {
      if id !in rules { return NotFound; }
      rules := rules - {id};
      assert Landings(rules) <= Landings(old(rules));
      if Acyclic(Landings(old(rules))) { AcyclicFewer(Landings(rules), Landings(old(rules))); }
      return Done;
    }
  }

  // A loop two ordinary requests can build: rule x of node a lands on b and is switched off, rule
  // y of node b is then allowed to land on a, and x is switched back on.
  lemma ReEnabledLoop(a: string, b: string, x: string, y: string, profile: string,
                      nodes: set<string>, externals: set<string>, bound: set<(string, string)>)
    requires a != b && x != y
    ensures var rules := map[x := EgressRule(x, a, ToNode(b, profile), false), y := EgressRule(y, b, ToNode(a, profile), true)];
            && Acyclic(Landings(rules))
            && !Acyclic(Landings(Updated(rules, nodes, externals, bound, {}, x, true, Some(true), None)))
  {
    var off := EgressRule(x, a, ToNode(b, profile), false);
    var rules := map[x := off, y := EgressRule(y, b, ToNode(a, profile), true)];
    assert rules[y].target.node == a;
    assert Landings(rules) == {(b, a)};
    if Reaches({(b, a)}, a, b) { ClosedHoldsReachable({(b, a)}, {a}, a, b); }
    assert (b, a) in Landings(rules);
    ReachesSelf(Landings(rules), a);
    ReachesStep(Landings(rules), b, a, a);
    UpdateKeepsAcyclicExactly(rules, nodes, externals, bound, x, true, Some(true), None);
  }

  // ---------- check and write are two statements ----------

  // Any write of a rule, created, retargeted or switched, keeps the landings acyclic exactly when
  // the landing does not lead back at the moment it is written.
  ghost predicate LeadsAway(rules: map<string, EgressRule>, id: string, r: EgressRule) {
    FleetLanding(r) ==> !Reaches(Landings(rules - {id}), r.target.node, r.nodeId)
  }

  lemma LateRuleExact(rules: map<string, EgressRule>, id: string, r: EgressRule)
    requires Acyclic(Landings(rules))
    ensures Acyclic(Landings(rules[id := r])) <==> LeadsAway(rules, id, r)
  {
    var others := Landings(rules - {id});
    LandingsWithRule(rules, id, r);
    LandingsWithout(rules, id);
    AcyclicFewer(others, Landings(rules));
    if FleetLanding(r) { AcyclicWithEdge(others, r.nodeId, r.target.node); } else { assert others + {} == others; }
  }

  function WrittenInTurn(rules: map<string, EgressRule>, writes: seq<EgressRule>): map<string, EgressRule> {
    if writes == [] then rules
    else
      var last := writes[|writes| - 1];
      WrittenInTurn(rules, writes[..|writes| - 1])[last.id := last]
  }

  ghost predicate AcyclicThroughout(rules: map<string, EgressRule>, writes: seq<EgressRule>) {
    Acyclic(Landings(WrittenInTurn(rules, writes))) && (writes != [] ==> AcyclicThroughout(rules, writes[..|writes| - 1]))
  }

  ghost predicate AllLeadAway(rules: map<string, EgressRule>, writes: seq<EgressRule>) {
    writes == [] ||
    var n := |writes| - 1;
    LeadsAway(WrittenInTurn(rules, writes[..n]), writes[n].id, writes[n]) && AllLeadAway(rules, writes[..n])
  }

  // However many requests are under way, whatever each of them checked and when.
  lemma {:induction false} InterleavedRulesExact(rules: map<string, EgressRule>, writes: seq<EgressRule>)
    requires Acyclic(Landings(rules))
    ensures AcyclicThroughout(rules, writes) <==> AllLeadAway(rules, writes)
  {
    if writes != [] {
      var n := |writes| - 1;
      InterleavedRulesExact(rules, writes[..n]);
      if AcyclicThroughout(rules, writes[..n]) {
        LateRuleExact(WrittenInTurn(rules, writes[..n]), writes[n].id, writes[n]);
      }
    }
  }

  // Two rules created at once, each allowed by the landings both requests saw, close a loop exactly
  // when each one's landing leads to the node of the other.
  lemma RacingRulesExact(rules: map<string, EgressRule>, x: EgressRule, y: EgressRule)
    requires Acyclic(Landings(rules)) && x.id != y.id && x.id !in rules && y.id !in rules
    requires FleetLanding(x) && FleetLanding(y)
    requires !Reaches(Landings(rules), x.target.node, x.nodeId) && !Reaches(Landings(rules), y.target.node, y.nodeId)
    ensures Acyclic(Landings(rules[x.id := x][y.id := y])) <==>
            !(Reaches(Landings(rules), x.target.node, y.nodeId) && Reaches(Landings(rules), y.target.node, x.nodeId))
  {
    LandingsWithRule(rules, x.id, x);
    LandingsWithRule(rules[x.id := x], y.id, y);
    assert rules - {x.id} == rules && rules[x.id := x] - {y.id} == rules[x.id := x];
    AcyclicWithTwoEdges(Landings(rules), x.nodeId, x.target.node, y.nodeId, y.target.node);
  }

  // Two nodes and no rules yet: a landing each way, asked for at the same time, is granted both times.
  lemma RacingRulesLoop(a: string, b: string, x: string, y: string, profile: string, nodes: set<string>, bound: set<(string, string)>)
    requires a != b && x != y && a in nodes && b in nodes && (profile, a) in bound && (profile, b) in bound
    ensures Resolution(map[], nodes, {}, bound, {}, a, KindNode(b, profile)).Some?
    ensures Resolution(map[], nodes, {}, bound, {}, b, KindNode(a, profile)).Some?
    ensures !Acyclic(Landings(map[][x := EgressRule(x, a, ToNode(b, profile), true)][y := EgressRule(y, b, ToNode(a, profile), true)]))
  {
    var none: map<string, EgressRule> := map[];
    assert Landings(none) == {} && ReadableLandings(none, {}) == {};
    if Reaches({}, b, a) { ClosedHoldsReachable({}, {b}, b, a); }
    if Reaches({}, a, b) { ClosedHoldsReachable({}, {a}, a, b); }
    ReachesSelf(Landings(none), a);
    ReachesSelf(Landings(none), b);
    RacingRulesExact(none, EgressRule(x, a, ToNode(b, profile), true), EgressRule(y, b, ToNode(a, profile), true));
  }
}
