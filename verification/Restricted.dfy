/** Restricted destinations: which block rules every node carries, and why re-applying only the
  * affected nodes leaves all of them as a full recomputation would. */
module Restricted {
  import opened Wrappers
  import opened Egress

  // A destination with its scope and allow lists; body is what its CIDRs and domains say.
  datatype Dest = Dest(id: string, body: string, nodeIds: set<string>, users: set<string>, groups: set<string>)

  datatype Relay = Relay(id: string, entry: string, exit: string, enabled: bool)
  datatype Cred = Cred(userId: string, email: string)
  datatype Block = Block(body: string, emails: seq<string>)

  // The rows block assembly reads.
  datatype Db = Db(
    dests: seq<Dest>, relays: map<string, Relay>, rules: map<string, EgressRule>,
    nodes: set<string>, externals: set<string>, bound: set<(string, string)>,
    users: seq<string>, creds: map<string, seq<Cred>>, members: map<string, set<string>>)

  // ---------- what a node's blocks are ----------

  predicate Landing(r: EgressRule) { FleetLanding(r) && r.target.node != "" }

  // Where a node can push traffic to: exits of its relay lines and landings of its rules.
  ghost function Exits(db: Db, n: string): set<string> {
    (set id | id in db.relays && db.relays[id].enabled && db.relays[id].entry == n :: db.relays[id].exit) +
    (set id | id in db.rules && Landing(db.rules[id]) && db.rules[id].nodeId == n :: db.rules[id].target.node)
  }

  // A destination applies where it is scoped, and one hop before.
  predicate AppliesWith(d: Dest, n: string, exits: set<string>) {
    n in d.nodeIds || d.nodeIds * exits != {}
  }

  ghost predicate Applies(db: Db, d: Dest, n: string) { AppliesWith(d, n, Exits(db, n)) }

  function GroupMembers(members: map<string, set<string>>, g: string): set<string> {
    if g in members then members[g] else {}
  }

  ghost predicate Admitted(db: Db, d: Dest, u: string) {
    u in d.users || exists g :: g in d.groups && u in GroupMembers(db.members, g)
  }

  function CredsOn(db: Db, n: string): seq<Cred> { if n in db.creds then db.creds[n] else [] }

  function EmailsOf(u: string, creds: seq<Cred>): seq<string> {
    if creds == [] then []
    else
      var last := creds[|creds| - 1];
      EmailsOf(u, creds[..|creds| - 1]) + (if last.userId == u then [last.email] else [])
  }

  // Every credential of every barred subscriber, in subscriber order.
  ghost function Barred(db: Db, d: Dest, users: seq<string>, creds: seq<Cred>): seq<string> {
    if users == [] then []
    else
      var u := users[|users| - 1];
      Barred(db, d, users[..|users| - 1], creds) + (if Admitted(db, d, u) then [] else EmailsOf(u, creds))
  }

  // The block of one destination, if it puts one on the node.
  ghost function BlockOf(db: Db, d: Dest, n: string, exits: set<string>): seq<Block> {
    var emails := Barred(db, d, db.users, CredsOn(db, n));
    if AppliesWith(d, n, exits) && emails != [] then [Block(d.body, emails)] else []
  }

  ghost function BlocksOver(db: Db, dests: seq<Dest>, n: string, exits: set<string>): seq<Block> {
    if dests == [] then []
    else BlocksOver(db, dests[..|dests| - 1], n, exits) + BlockOf(db, dests[|dests| - 1], n, exits)
  }

  ghost function Blocks(db: Db, n: string): seq<Block> { BlocksOver(db, db.dests, n, Exits(db, n)) }

  // ---------- block assembly ----------

  method CollectExits(db: Db, n: string) returns (exits: set<string>)
    ensures exits == Exits(db, n)
  {
    var relayed := set id | id in db.relays && db.relays[id].enabled && db.relays[id].entry == n :: db.relays[id].exit;
    exits := relayed;
    var todo := db.rules.Keys;
    while todo != {}
      invariant todo <= db.rules.Keys
      invariant exits == relayed +
                  set id | id in db.rules && id !in todo && Landing(db.rules[id]) && db.rules[id].nodeId == n :: db.rules[id].target.node
      decreases todo
    {
      var id :| id in todo;
      todo := todo - {id};
      var r := db.rules[id];
      if r.nodeId == n && r.enabled && r.target.ToNode? && r.target.node != "" {
        exits := exits + {r.target.node};
      }
    }
  }

  method CollectAllowed(db: Db, d: Dest) returns (allowed: set<string>)
    ensures forall u :: u in allowed <==> Admitted(db, d, u)
  {
    allowed := d.users;
    var todo := d.groups;
    while todo != {}
      invariant todo <= d.groups
      invariant forall u :: u in allowed <==>
                  u in d.users || exists g :: g in d.groups && g !in todo && u in GroupMembers(db.members, g)
      decreases todo
    {
      var g :| g in todo;
      todo := todo - {g};
      allowed := allowed + GroupMembers(db.members, g);
    }
  }

  method CollectOwn(u: string, creds: seq<Cred>) returns (emails: seq<string>)
    ensures emails == EmailsOf(u, creds)
  {
    emails := [];
    for j := 0 to |creds|
      invariant emails == EmailsOf(u, creds[..j])
    {
      assert creds[..j + 1][..j] == creds[..j];
      if creds[j].userId == u { emails := emails + [creds[j].email]; }
    }
    assert creds[..|creds|] == creds;
  }

  method CollectEmails(db: Db, d: Dest, creds: seq<Cred>) returns (emails: seq<string>)
    ensures emails == Barred(db, d, db.users, creds)
  {
    var allowed := CollectAllowed(db, d);
    emails := [];
    for i := 0 to |db.users|
      invariant emails == Barred(db, d, db.users[..i], creds)
    {
      assert db.users[..i + 1][..i] == db.users[..i];
      var u := db.users[i];
      if u in allowed {
        assert emails + [] == emails;
        continue;
      }
      var own := CollectOwn(u, creds);
      emails := emails + own;
    }
    assert db.users[..|db.users|] == db.users;
  }

  // The block of one destination, when it applies and bars anybody.
  method BlockFor(db: Db, d: Dest, n: string, exits: set<string>, creds: seq<Cred>) returns (out: seq<Block>)
    requires creds == CredsOn(db, n)
    ensures out == BlockOf(db, d, n, exits)
  {
    if !(n in d.nodeIds || d.nodeIds * exits != {}) { return []; }
    var emails := CollectEmails(db, d, creds);
    if |emails| == 0 { return []; }
    return [Block(d.body, emails)];
  }

  method BlocksFor(db: Db, n: string) returns (out: seq<Block>)
    ensures out == Blocks(db, n)
  {
    if |db.dests| == 0 { return []; }
    var exits := CollectExits(db, n);
    var creds := CredsOn(db, n);
    out := [];
    for i := 0 to |db.dests|
      invariant out == BlocksOver(db, db.dests[..i], n, exits)
    {
      assert db.dests[..i + 1][..i] == db.dests[..i];
      var block := BlockFor(db, db.dests[i], n, exits, creds);
      out := out + block;
    }
    assert db.dests[..|db.dests|] == db.dests;
  }

  lemma {:induction false} EmailsExactly(u: string, creds: seq<Cred>, email: string)
    ensures email in EmailsOf(u, creds) <==> exists c :: c in creds && c.email == email && c.userId == u
  {
    if creds != [] {
      assert creds == creds[..|creds| - 1] + [creds[|creds| - 1]];
      EmailsExactly(u, creds[..|creds| - 1], email);
    }
  }

  // What a block on a node means: its emails are exactly those of subscribers nobody admitted,
  // and it never lists nobody, which would block everyone.
  lemma {:induction false} BarredExactly(db: Db, d: Dest, users: seq<string>, creds: seq<Cred>, email: string)
    ensures email in Barred(db, d, users, creds) <==>
            exists c :: c in creds && c.email == email && c.userId in users && !Admitted(db, d, c.userId)
  {
    if users != [] {
      assert users == users[..|users| - 1] + [users[|users| - 1]];
      BarredExactly(db, d, users[..|users| - 1], creds, email);
      EmailsExactly(users[|users| - 1], creds, email);
    }
  }

  // A block lists subscriber by subscriber, in their order: splitting the subscribers splits it.
  lemma {:induction false} BarredInOrder(db: Db, d: Dest, users: seq<string>, more: seq<string>, creds: seq<Cred>)
    ensures Barred(db, d, users + more, creds) == Barred(db, d, users, creds) + Barred(db, d, more, creds)
  {
    if more == [] {
      assert users + more == users;
    } else {
      var n := |more| - 1;
      assert (users + more)[..|users + more| - 1] == users + more[..n];
      BarredInOrder(db, d, users, more[..n], creds);
    }
  }

  lemma {:induction false} BlocksExactly(db: Db, dests: seq<Dest>, n: string, exits: set<string>, b: Block)
    ensures b in BlocksOver(db, dests, n, exits) <==>
            b.emails != [] &&
            exists d :: d in dests && AppliesWith(d, n, exits) && b == Block(d.body, Barred(db, d, db.users, CredsOn(db, n)))
  {
    if dests != [] {
      assert dests == dests[..|dests| - 1] + [dests[|dests| - 1]];
      BlocksExactly(db, dests[..|dests| - 1], n, exits, b);
    }
  }

  // Nobody on the allow list is ever blocked: no block a destination puts on any node names a
  // credential of a listed subscriber or of a member of a listed group, as long as no two
  // subscribers share one.
  lemma AllowedAreNeverBlocked(db: Db, d: Dest, n: string, exits: set<string>, b: Block, c: Cred)
    requires b in BlockOf(db, d, n, exits) && c in CredsOn(db, n)
    requires c.userId in d.users || exists g :: g in d.groups && g in db.members && c.userId in db.members[g]
    requires forall x :: x in CredsOn(db, n) && x.email == c.email ==> x.userId == c.userId
    ensures c.email !in b.emails
  {
    BarredExactly(db, d, db.users, CredsOn(db, n), c.email);
    if g :| g in d.groups && g in db.members && c.userId in db.members[g] { assert c.userId in GroupMembers(db.members, g); }
  }

  // And everybody else is, wherever the destination applies.
  lemma OthersAreBlocked(db: Db, d: Dest, n: string, c: Cred)
    requires d in db.dests && Applies(db, d, n) && c in CredsOn(db, n) && c.userId in db.users
    requires c.userId !in d.users && forall g :: g in d.groups && g in db.members ==> c.userId !in db.members[g]
    ensures exists b :: b in Blocks(db, n) && b.body == d.body && c.email in b.emails
  {
    BarredExactly(db, d, db.users, CredsOn(db, n), c.email);
    var b := Block(d.body, Barred(db, d, db.users, CredsOn(db, n)));
    BlocksExactly(db, db.dests, n, Exits(db, n), b);
    assert b in Blocks(db, n);
  }

  // ---------- which nodes carry a destination ----------

  function DestIndex(dests: seq<Dest>, id: string): (k: nat)
    ensures k <= |dests|
    ensures k < |dests| ==> dests[k].id == id
    ensures forall j :: 0 <= j < k ==> dests[j].id != id
  {
    if dests == [] then 0
    else
      var k := DestIndex(dests[..|dests| - 1], id);
      if k < |dests| - 1 || dests[|dests| - 1].id == id then k else |dests|
  }

  // The nodes a change to a destination has to be pushed to.
  ghost predicate Carries(db: Db, d: Dest, n: string) {
    || n in d.nodeIds
    || (exists id :: id in db.relays && db.relays[id].enabled && db.relays[id].exit in d.nodeIds && db.relays[id].entry == n)
    || (exists id :: id in db.rules && Landing(db.rules[id]) && db.rules[id].target.node in d.nodeIds && db.rules[id].nodeId == n)
  }

  // The list the handlers re-apply is exactly the nodes whose assembly uses the destination.
  lemma CarriesIffApplies(db: Db, d: Dest, n: string)
    ensures Carries(db, d, n) <==> Applies(db, d, n)
  {
    if Applies(db, d, n) && n !in d.nodeIds {
      var x :| x in d.nodeIds * Exits(db, n);
    }
    if id :| id in db.relays && db.relays[id].enabled && db.relays[id].exit in d.nodeIds && db.relays[id].entry == n {
      assert db.relays[id].exit in d.nodeIds * Exits(db, n);
    }
    if id :| id in db.rules && Landing(db.rules[id]) && db.rules[id].target.node in d.nodeIds && db.rules[id].nodeId == n {
      assert db.rules[id].target.node in d.nodeIds * Exits(db, n);
    }
  }

  method EntriesOf(db: Db, scope: set<string>) returns (out: set<string>)
    ensures out == set id | id in db.relays && db.relays[id].enabled && db.relays[id].exit in scope :: db.relays[id].entry
  {
    out := {};
    var todo := db.relays.Keys;
    while todo != {}
      invariant todo <= db.relays.Keys
      invariant out == set id | id in db.relays && id !in todo && db.relays[id].enabled && db.relays[id].exit in scope :: db.relays[id].entry
      decreases todo
    {
      var id :| id in todo;
      todo := todo - {id};
      if db.relays[id].enabled && db.relays[id].exit in scope { out := out + {db.relays[id].entry}; }
    }
  }

  // EgressSourceNodesFor: nodes with an enabled fleet landing on the scope.
  method SourcesOf(db: Db, scope: set<string>) returns (out: set<string>)
    ensures out == set id | id in db.rules && Landing(db.rules[id]) && db.rules[id].target.node in scope :: db.rules[id].nodeId
  {
    out := {};
    var todo := db.rules.Keys;
    while todo != {}
      invariant todo <= db.rules.Keys
      invariant out == set id | id in db.rules && id !in todo && Landing(db.rules[id]) && db.rules[id].target.node in scope :: db.rules[id].nodeId
      decreases todo
    {
      var id :| id in todo;
      todo := todo - {id};
      if Landing(db.rules[id]) && db.rules[id].target.node in scope { out := out + {db.rules[id].nodeId}; }
    }
  }

  method RestrictedNodeIDs(db: Db, destId: string) returns (found: bool, out: set<string>)
    ensures found <==> DestIndex(db.dests, destId) < |db.dests|
    ensures found ==> forall n :: n in out <==> Applies(db, db.dests[DestIndex(db.dests, destId)], n)
    ensures !found ==> out == {}
  {
    var k := DestIndex(db.dests, destId);
    if k == |db.dests| { return false, {}; }
    var d := db.dests[k];
    var entries := EntriesOf(db, d.nodeIds);
    var sources := SourcesOf(db, d.nodeIds);
    found, out := true, d.nodeIds + entries + sources;
    forall n ensures n in out <==> Applies(db, d, n) { CarriesIffApplies(db, d, n); }
  }

  // ---------- a change nobody re-applied must not have mattered ----------

  // Two states agree for n when everything but the destinations does, as far as n can see.
  ghost predicate SameFor(db: Db, db': Db, n: string) {
    && db'.users == db.users && db'.members == db.members
    && CredsOn(db', n) == CredsOn(db, n) && Exits(db', n) == Exits(db, n)
  }

  lemma {:induction false} SameBarred(db: Db, db': Db, d: Dest, users: seq<string>, creds: seq<Cred>)
    requires db'.members == db.members
    ensures Barred(db', d, users, creds) == Barred(db, d, users, creds)
  {
    if users != [] { SameBarred(db, db', d, users[..|users| - 1], creds); }
  }

  // Block lists over two lists of destinations agree when, place by place, the destinations are
  // the same or neither applies.
  lemma {:induction false} SameBlocks(db: Db, db': Db, a: seq<Dest>, b: seq<Dest>, n: string)
    requires SameFor(db, db', n) && |a| == |b|
    requires forall i :: 0 <= i < |a| ==> a[i] == b[i] || (!Applies(db, a[i], n) && !Applies(db', b[i], n))
    ensures BlocksOver(db, a, n, Exits(db, n)) == BlocksOver(db', b, n, Exits(db', n))
  {
    if a != [] {
      SameBlocks(db, db', a[..|a| - 1], b[..|b| - 1], n);
      SameBarred(db, db', b[|b| - 1], db.users, CredsOn(db, n));
    }
  }

  lemma {:induction false} BlocksOverParts(db: Db, a: seq<Dest>, b: seq<Dest>, n: string, exits: set<string>)
    ensures BlocksOver(db, a + b, n, exits) == BlocksOver(db, a, n, exits) + BlocksOver(db, b, n, exits)
  {
    if b == [] {
      assert a + b == a;
    } else {
      var m := |b| - 1;
      assert (a + b)[..|a + b| - 1] == a + b[..m];
      BlocksOverParts(db, a, b[..m], n, exits);
    }
  }

  lemma NoBlock(db: Db, a: seq<Dest>, d: Dest, n: string, exits: set<string>)
    requires !AppliesWith(d, n, exits)
    ensures BlocksOver(db, a + [d], n, exits) == BlocksOver(db, a, n, exits)
  {
    assert (a + [d])[..|a|] == a;
    assert BlocksOver(db, a, n, exits) + [] == BlocksOver(db, a, n, exits);
  }

  // Dropping a destination that does not apply changes nothing.
  lemma DroppedUnseen(db: Db, before: seq<Dest>, d: Dest, after: seq<Dest>, n: string, exits: set<string>)
    requires !AppliesWith(d, n, exits)
    ensures BlocksOver(db, before + after, n, exits) == BlocksOver(db, before + [d] + after, n, exits)
  {
    BlocksOverParts(db, before, after, n, exits);
    NoBlock(db, before, d, n, exits);
    BlocksOverParts(db, before + [d], after, n, exits);
  }

  lemma DestinationDropped(db: Db, k: nat)
    requires k < |db.dests|
    ensures forall n :: !Applies(db, db.dests[k], n) ==>
              Blocks(db.(dests := db.dests[..k] + db.dests[k + 1..]), n) == Blocks(db, n)
  {
    var front, back := db.dests[..k], db.dests[k + 1..];
    var db' := db.(dests := front + back);
    assert db.dests == front + [db.dests[k]] + back;
    forall n | !Applies(db, db.dests[k], n) ensures Blocks(db', n) == Blocks(db, n) {
      DroppedUnseen(db, front, db.dests[k], back, n, Exits(db, n));
      SameBlocks(db, db', db'.dests, db'.dests, n);
    }
  }

  // ---------- the handlers ----------

  lemma ExitsIgnoreOthers(db: Db, db': Db, n: string)
    requires forall id :: id in db.relays && db.relays[id].entry == n ==> id in db'.relays && db'.relays[id] == db.relays[id]
    requires forall id :: id in db'.relays && db'.relays[id].entry == n ==> id in db.relays && db'.relays[id] == db.relays[id]
    requires forall id :: id in db.rules && db.rules[id].nodeId == n ==> id in db'.rules && db'.rules[id] == db.rules[id]
    requires forall id :: id in db'.rules && db'.rules[id].nodeId == n ==> id in db.rules && db'.rules[id] == db.rules[id]
    ensures Exits(db', n) == Exits(db, n)
  {
  }

  // A change of relays or rules reaches only the nodes they start from.
  lemma OnlySourcesChange(db: Db, db': Db, n: string)
    requires db' == db.(relays := db'.relays, rules := db'.rules)
    requires Exits(db', n) == Exits(db, n)
    ensures Blocks(db', n) == Blocks(db, n)
  {
    SameBlocks(db, db', db.dests, db.dests, n);
  }

  // Changing one egress rule reaches only the node that carries it.
  lemma OneRuleChanged(db: Db, db': Db, id: string, n: string)
    requires db' == db.(rules := db'.rules)
    requires forall k :: k != id ==> (k in db.rules <==> k in db'.rules) && (k in db.rules ==> db'.rules[k] == db.rules[k])
    requires (id in db.rules ==> db.rules[id].nodeId == n) && (id in db'.rules ==> db'.rules[id].nodeId == n)
    ensures forall m :: m != n ==> Blocks(db', m) == Blocks(db, m)
  {
    forall m | m != n ensures Blocks(db', m) == Blocks(db, m) {
      ExitsIgnoreOthers(db, db', m);
      OnlySourcesChange(db, db', m);
    }
  }

  // Every node's config carries exactly the blocks a full recomputation would give it.
  ghost predicate FreshIn(db: Db, stored: map<string, seq<Block>>) {
    stored.Keys == db.nodes && forall n :: n in db.nodes ==> stored[n] == Blocks(db, n)
  }

  lemma DestIndexReplaced(dests: seq<Dest>, k: nat, d: Dest)
    requires k < |dests| && k == DestIndex(dests, d.id)
    ensures DestIndex(dests[k := d], d.id) == k
  {
    var j := DestIndex(dests[k := d], d.id);
    assert dests[k := d][k].id == d.id;
  }

  class Server {
    var db: Db
    // the blocks in the config each node was last given
    var stored: map<string, seq<Block>>

    ghost predicate Fresh()
      reads this
    {
      FreshIn(db, stored)
    }

    // Applying a node re-assembles it from the current rows; an unknown node is only logged.
    method ApplyNodes(ids: set<string>)
      requires stored.Keys == db.nodes
      modifies this`stored
      ensures stored.Keys == db.nodes
      ensures forall n :: n in db.nodes ==> stored[n] == if n in ids then Blocks(db, n) else old(stored)[n]
    {
      var todo := ids;
      while todo != {}
        invariant todo <= ids && stored.Keys == db.nodes
        invariant forall n :: n in db.nodes ==>
                    stored[n] == if n in ids && n !in todo then Blocks(db, n) else old(stored)[n]
        decreases todo
      {
        var n :| n in todo;
        todo := todo - {n};
        if n in db.nodes {
          var blocks := BlocksFor(db, n);
          stored := stored[n := blocks];
        }
      }
    }

    // valid stands for the checks on name, CIDRs and domains that come before anything is written.
    method CreateRestricted(newId: string, valid: bool, body: string)
      requires Fresh() && DestIndex(db.dests, newId) == |db.dests|
      modifies this
      ensures Fresh()
      ensures db == if valid then old(db).(dests := old(db).dests + [Dest(newId, body, {}, {}, {})]) else old(db)
    {
      if !valid { return; }
      ghost var before := db;
      var d := Dest(newId, body, {}, {}, {});
      db := db.(dests := db.dests + [d]);
      assert db.dests[..|before.dests|] == before.dests;
      forall n | n in db.nodes ensures Blocks(db, n) == Blocks(before, n) {
        SameBlocks(before, db, before.dests, before.dests, n);
      }
    }

    // updateRestricted and setRestrictedUsers: a new body or a new allow list, same scope.
    method ReplaceDest(k: nat, d: Dest)
      requires Fresh() && k < |db.dests|
      requires k == DestIndex(db.dests, d.id) && d.nodeIds == db.dests[k].nodeIds
      modifies this
      ensures Fresh() && db == old(db).(dests := old(db).dests[k := d])
    {
      ghost var before := db;
      db := db.(dests := db.dests[k := d]);
      DestIndexReplaced(before.dests, k, d);
      var _, nodes := RestrictedNodeIDs(db, d.id);
      forall n | n in db.nodes && n !in nodes ensures Blocks(db, n) == Blocks(before, n) {
        SameBlocks(before, db, before.dests, db.dests, n);
      }
      ApplyNodes(nodes);
    }

    method UpdateRestricted(id: string, valid: bool, body: string) returns (ok: bool)
      requires Fresh()
      modifies this
      ensures Fresh() && var k := DestIndex(old(db).dests, id);
              && (ok <==> k < |old(db).dests| && valid)
              && db == if ok then old(db).(dests := old(db).dests[k := old(db).dests[k].(body := body)]) else old(db)
    {
      var k := DestIndex(db.dests, id);
      if k == |db.dests| || !valid { return false; }
      ReplaceDest(k, db.dests[k].(body := body));
      return true;
    }

    // An allow list naming a subscriber who does not exist is refused by the foreign key.
    method SetRestrictedUsers(id: string, users: set<string>) returns (ok: bool)
      requires Fresh()
      modifies this
      ensures Fresh() && var k := DestIndex(old(db).dests, id);
              && (ok <==> k < |old(db).dests| && forall u :: u in users ==> u in old(db).users)
              && db == if ok then old(db).(dests := old(db).dests[k := old(db).dests[k].(users := users)]) else old(db)
    {
      var k := DestIndex(db.dests, id);
      if k == |db.dests| || exists u :: u in users && u !in db.users { return false; }
      ReplaceDest(k, db.dests[k].(users := users));
      return true;
    }

    // A scope naming a node that does not exist is refused by the foreign key.
    method SetRestrictedNodes(id: string, nodeIds: set<string>) returns (ok: bool)
      requires Fresh()
      modifies this
      ensures Fresh() && var k := DestIndex(old(db).dests, id);
              && (ok <==> k < |old(db).dests| && nodeIds <= old(db).nodes)
              && db == if ok then old(db).(dests := old(db).dests[k := old(db).dests[k].(nodeIds := nodeIds)]) else old(db)
    {
      var k := DestIndex(db.dests, id);
      if k == |db.dests| { return false; }
      var _, was := RestrictedNodeIDs(db, id);
      if !(nodeIds <= db.nodes) { return false; }
      ghost var before := db;
      var d := db.dests[k].(nodeIds := nodeIds);
      db := db.(dests := db.dests[k := d]);
      DestIndexReplaced(before.dests, k, d);
      var _, now := RestrictedNodeIDs(db, id);
      forall n | n in db.nodes && n !in was + now ensures Blocks(db, n) == Blocks(before, n) {
        SameBlocks(before, db, before.dests, db.dests, n);
      }
      ApplyNodes(was + now);
      return true;
    }

    method DeleteRestricted(id: string) returns (found: bool)
      requires Fresh()
      modifies this
      ensures Fresh() && var k := DestIndex(old(db).dests, id);
              && (found <==> k < |old(db).dests|)
              && db == if found then old(db).(dests := old(db).dests[..k] + old(db).dests[k + 1..]) else old(db)
    {
      var k := DestIndex(db.dests, id);
      if k == |db.dests| { return false; }
      var _, nodes := RestrictedNodeIDs(db, id);
      DestinationDropped(db, k);
      db := db.(dests := db.dests[..k] + db.dests[k + 1..]);
      ApplyNodes(nodes);
      return true;
    }

    // Relay lines: both ends are re-applied whatever changed.
    method WriteRelays(relays: map<string, Relay>, rl: Relay)
      requires Fresh()
      requires forall id :: id in db.relays && id != rl.id ==> id in relays && relays[id] == db.relays[id]
      requires forall id :: id in relays && id != rl.id ==> id in db.relays
      requires rl.id in relays ==> relays[rl.id].entry == rl.entry
      requires rl.id in db.relays ==> db.relays[rl.id].entry == rl.entry
      modifies this
      ensures Fresh() && db == old(db).(relays := relays)
    {
      ghost var before := db;
      db := db.(relays := relays);
      forall n | n in db.nodes && n !in {rl.exit, rl.entry} ensures Blocks(db, n) == Blocks(before, n) {
        ExitsIgnoreOthers(before, db, n);
        OnlySourcesChange(before, db, n);
      }
      ApplyNodes({rl.exit, rl.entry});
    }

    // valid: a label and a profile are given; profileBound: the exit serves the profile the entry is to dial.
    method CreateRelay(newId: string, entry: string, exit: string, valid: bool, profileBound: bool, taken: bool)
      returns (ok: bool)
      requires Fresh() && newId !in db.relays
      modifies this
      ensures Fresh()
      ensures ok <==> entry != "" && exit != "" && entry != exit && valid && profileBound && !taken &&
                      entry in old(db).nodes && exit in old(db).nodes
      ensures db == if ok then old(db).(relays := old(db).relays[newId := Relay(newId, entry, exit, true)]) else old(db)
    {
      if entry == "" || exit == "" || entry == exit || !valid || !profileBound || taken || entry !in db.nodes || exit !in db.nodes {
        return false;
      }
      var rl := Relay(newId, entry, exit, true);
      WriteRelays(db.relays[newId := rl], rl);
      return true;
    }

    // valid: a label, if given, is not empty and a traffic rate, if given, is above zero.
    method UpdateRelay(id: string, valid: bool, enabled: Option<bool>) returns (ok: bool)
      requires Fresh() && forall r :: r in db.relays ==> db.relays[r].id == r
      modifies this
      ensures Fresh() && (ok <==> id in old(db).relays && valid)
      ensures ok && enabled.Some? ==>
                db == old(db).(relays := old(db).relays[id := old(db).relays[id].(enabled := enabled.value)])
      ensures !ok || enabled.None? ==> db == old(db)
    {
      if id !in db.relays || !valid { return false; }
      var rl := db.relays[id].(enabled := if enabled.Some? then enabled.value else db.relays[id].enabled);
      WriteRelays(db.relays[id := rl], rl);
      assert enabled.None? ==> db.relays == old(db).relays;
      return true;
    }

    method DeleteRelay(id: string) returns (found: bool)
      requires Fresh() && forall r :: r in db.relays ==> db.relays[r].id == r
      modifies this
      ensures Fresh() && (found <==> id in old(db).relays)
      ensures db == old(db).(relays := old(db).relays - {id})
    {
      if id !in db.relays {
        assert db.relays - {id} == db.relays;
        return false;
      }
      WriteRelays(db.relays - {id}, db.relays[id]);
      return true;
    }
  
    // Egress rules: the node carrying the rule and the node it lands on are re-applied.
    method CreateEgress(unreadable: set<string>, newId: string, nodeId: string, valid: bool, req: TargetReq)
      returns (out: Outcome)
      requires Fresh() && newId !in db.rules
      modifies this
      ensures Fresh()
      ensures out.Done? ==>
                var t := Resolution(old(db).rules, old(db).nodes, old(db).externals, old(db).bound, unreadable, nodeId, req);
                t.Some? && db == old(db).(rules := old(db).rules[newId := EgressRule(newId, nodeId, t.value, true)])
      ensures !out.Done? ==> db == old(db)
    {
      if nodeId !in db.nodes { return NotFound; }
      if !valid { return Invalid; }
      var t := ResolveTarget(db.rules, db.nodes, db.externals, db.bound, unreadable, nodeId, req);
      if t.None? { return TargetRefused; }
      ghost var before := db;
      var r := EgressRule(newId, nodeId, t.value, true);
      db := db.(rules := db.rules[newId := r]);
      OneRuleChanged(before, db, newId, nodeId);
      ApplyNodes({nodeId} + (if t.value.ToNode? && t.value.node != "" then {t.value.node} else {}));
      return Done;
    }

    // A refused target ends the request after the switch was written and before anything is applied.
    method UpdateEgress(unreadable: set<string>, id: string, valid: bool, enabled: Option<bool>, target: Option<TargetReq>)
      returns (out: Outcome)
      requires Fresh()
      modifies this
      ensures out == UpdateOutcome(old(db).rules, old(db).nodes, old(db).externals, old(db).bound, unreadable, id, valid, enabled, target)
      ensures db == old(db).(rules := Updated(old(db).rules, old(db).nodes, old(db).externals, old(db).bound,
                                              unreadable, id, valid, enabled, target))
      ensures !out.TargetRefused? ==> Fresh()
      ensures out.TargetRefused? ==> stored == old(stored)
    {
      ghost var before := db;
      var rules;
      out, rules := UpdateRules(db.rules, db.nodes, db.externals, db.bound, unreadable, id, valid, enabled, target);
      if !out.Done? {
        db := db.(rules := rules);
        assert !out.TargetRefused? ==> db == before;
        return;
      }
      var previous := db.rules[id].target;
      db := db.(rules := rules);
      var updated := db.rules[id];
      OneRuleChanged(before, db, id, updated.nodeId);
      ApplyNodes({updated.nodeId} + (if updated.target.ToNode? && updated.target.node != "" then {updated.target.node} else {}));
      if previous.ToNode? && previous.node != "" && !(updated.target.ToNode? && updated.target.node == previous.node) {
        ApplyNodes({previous.node});
      }
    }

    method DeleteEgress(id: string) returns (found: bool)
      requires Fresh()
      modifies this
      ensures Fresh() && (found <==> id in old(db).rules) && db == old(db).(rules := old(db).rules - {id})
    {
      if id !in db.rules {
        assert db.rules - {id} == db.rules;
        return false;
      }
      ghost var before := db;
      var r := db.rules[id];
      db := db.(rules := db.rules - {id});
      OneRuleChanged(before, db, id, r.nodeId);
      ApplyNodes({r.nodeId} + (if r.target.ToNode? && r.target.node != "" then {r.target.node} else {}));
      return true;
    }
  }

  // ---------- the refused update ----------

  ghost predicate OnlyVia(db: Db, d: Dest, id: string)
    requires id in db.rules && db.rules[id].target.ToNode?
  {
    var n := db.rules[id].nodeId;
    && db.rules[id].target.node in d.nodeIds
    && !AppliesWith(d, n, Exits(db.(rules := db.rules - {id}), n))
    && Barred(db, d, db.users, CredsOn(db, n)) != []
  }

  // A refused update leaves stale blocks behind exactly when its switch turned a fleet landing
  // that some destination needs: scoped to the landing, applying on the rule's node by no other
  // way, and barring somebody there.
  ghost predicate RefusalMatters(db: Db, id: string, enabled: Option<bool>) {
    && id in db.rules && enabled.Some? && enabled.value != db.rules[id].enabled
    && db.rules[id].target.ToNode? && db.rules[id].target.node != "" && db.rules[id].nodeId in db.nodes
    && exists d :: d in db.dests && OnlyVia(db, d, id)
  }

  lemma {:induction false} BlocksIgnoreRules(db: Db, db': Db, dests: seq<Dest>, n: string, exits: set<string>)
    requires db' == db.(rules := db'.rules)
    ensures BlocksOver(db', dests, n, exits) == BlocksOver(db, dests, n, exits)
  {
    if dests != [] {
      BlocksIgnoreRules(db, db', dests[..|dests| - 1], n, exits);
      SameBarred(db, db', dests[|dests| - 1], db.users, CredsOn(db, n));
    }
  }

  // One more exit adds blocks exactly for the destinations that need it.
  lemma {:induction false} OneMoreExit(db: Db, dests: seq<Dest>, n: string, exits: set<string>, t: string)
    ensures var fewer, more := BlocksOver(db, dests, n, exits), BlocksOver(db, dests, n, exits + {t});
            && |fewer| <= |more|
            && (fewer == more || |fewer| < |more|)
            && (fewer == more <==> !exists d :: d in dests && t in d.nodeIds && !AppliesWith(d, n, exits) &&
                                                Barred(db, d, db.users, CredsOn(db, n)) != [])
  {
    if dests != [] {
      var init, last := dests[..|dests| - 1], dests[|dests| - 1];
      assert dests == init + [last];
      OneMoreExit(db, init, n, exits, t);
      assert AppliesWith(last, n, exits + {t}) <==> AppliesWith(last, n, exits) || t in last.nodeIds by {
        if t in last.nodeIds { assert t in last.nodeIds * (exits + {t}); }
        if x :| x in last.nodeIds * exits { assert x in last.nodeIds * (exits + {t}); }
      }
      var fewer, more := BlocksOver(db, dests, n, exits), BlocksOver(db, dests, n, exits + {t});
      assert |fewer| == |BlocksOver(db, init, n, exits)| + |BlockOf(db, last, n, exits)|;
      assert |more| == |BlocksOver(db, init, n, exits + {t})| + |BlockOf(db, last, n, exits + {t})|;
    }
  }

  lemma ExitsByRule(db: Db, id: string, on: bool)
    requires id in db.rules && db.rules[id].target.ToNode? && db.rules[id].target.node != ""
    ensures var n := db.rules[id].nodeId;
            Exits(db.(rules := db.rules[id := db.rules[id].(enabled := on)]), n) ==
            Exits(db.(rules := db.rules - {id}), n) + (if on then {db.rules[id].target.node} else {})
  {
    var n := db.rules[id].nodeId;
    var db', others := db.(rules := db.rules[id := db.rules[id].(enabled := on)]), db.(rules := db.rules - {id});
    forall x | x in Exits(db', n) ensures x in Exits(others, n) || (on && x == db.rules[id].target.node) {
      if k :| k in db'.rules && Landing(db'.rules[k]) && db'.rules[k].nodeId == n && db'.rules[k].target.node == x {
        if k != id { assert others.rules[k] == db'.rules[k]; }
      }
    }
    forall x | x in Exits(others, n) ensures x in Exits(db', n) {
      if k :| k in others.rules && Landing(others.rules[k]) && others.rules[k].nodeId == n && others.rules[k].target.node == x {
        assert db'.rules[k] == others.rules[k];
      }
    }
    if on { assert Landing(db'.rules[id]); }
  }

  lemma LandinglessToggle(db: Db, id: string, enabled: Option<bool>)
    requires id in db.rules && !(db.rules[id].target.ToNode? && db.rules[id].target.node != "")
    ensures Exits(db.(rules := Switched(db.rules, id, enabled)), db.rules[id].nodeId) == Exits(db, db.rules[id].nodeId)
  {
    var n := db.rules[id].nodeId;
    var db' := db.(rules := Switched(db.rules, id, enabled));
    forall x ensures x in Exits(db', n) <==> x in Exits(db, n) {
      if k :| k in db'.rules && Landing(db'.rules[k]) && db'.rules[k].nodeId == n && db'.rules[k].target.node == x {
        assert k != id && db.rules[k] == db'.rules[k];
      }
      if k :| k in db.rules && Landing(db.rules[k]) && db.rules[k].nodeId == n && db.rules[k].target.node == x {
        assert k != id && db'.rules[k] == db.rules[k];
      }
    }
  }

  lemma ToggleChangesBlocks(db: Db, db': Db, id: string, enabled: Option<bool>)
    requires id in db.rules && db.rules[id].target.ToNode? && db.rules[id].target.node != ""
    requires db' == db.(rules := Switched(db.rules, id, enabled))
    ensures var n := db.rules[id].nodeId;
            Blocks(db', n) == Blocks(db, n) <==>
            !(enabled.Some? && enabled.value != db.rules[id].enabled && exists d :: d in db.dests && OnlyVia(db, d, id))
  {
    var r := db.rules[id];
    var n := r.nodeId;
    var others := Exits(db.(rules := db.rules - {id}), n);
    ExitsByRule(db, id, r.enabled);
    assert db.rules[id := r.(enabled := r.enabled)] == db.rules;
    ExitsByRule(db, id, db'.rules[id].enabled);
    BlocksIgnoreRules(db, db', db.dests, n, Exits(db', n));
    assert others + {} == others;
    OneMoreExit(db, db.dests, n, others, r.target.node);
  }

  lemma RefusedUpdateExact(db: Db, stored: map<string, seq<Block>>, id: string, enabled: Option<bool>)
    requires id in db.rules && FreshIn(db, stored)
    ensures FreshIn(db.(rules := Switched(db.rules, id, enabled)), stored) <==> !RefusalMatters(db, id, enabled)
  {
    var r := db.rules[id];
    var n := r.nodeId;
    var db' := db.(rules := Switched(db.rules, id, enabled));
    OneRuleChanged(db, db', id, n);
    if r.target.ToNode? && r.target.node != "" {
      ToggleChangesBlocks(db, db', id, enabled);
    } else {
      LandinglessToggle(db, id, enabled);
      OnlySourcesChange(db, db', n);
    }
  }

  lemma UnknownKindIsRefused(rules: map<string, EgressRule>, nodes: set<string>, externals: set<string>,
                             bound: set<(string, string)>, id: string)
    requires id in rules
    ensures UpdateOutcome(rules, nodes, externals, bound, {}, id, true, Some(true), Some(KindUnknown)).TargetRefused?
    ensures Updated(rules, nodes, externals, bound, {}, id, true, Some(true), Some(KindUnknown)) == rules[id := rules[id].(enabled := true)]
  {
  }

  lemma OnlyExit(db: Db, db': Db, n: string, id: string, rule: EgressRule)
    requires db.relays == db'.relays == map[] && db.rules == map[id := rule] && db'.rules == map[id := rule.(enabled := true)]
    requires rule.nodeId == n && !rule.enabled && rule.target.ToNode? && rule.target.node != ""
    ensures Exits(db, n) == {} && Exits(db', n) == {rule.target.node}
  {
    assert Landing(db'.rules[id]);
  }

  lemma OneDestination(db: Db, d: Dest, n: string, user: string, email: string)
    requires db.dests == [d] && db.users == [user] && n in db.creds && db.creds[n] == [Cred(user, email)]
    requires !Admitted(db, d, user)
    ensures Blocks(db, n) == if Applies(db, d, n) then [Block(d.body, [email])] else []
  {
    var creds := [Cred(user, email)];
    assert EmailsOf(user, creds) == [email] by { assert creds[..0] == []; }
    assert Barred(db, d, [user], creds) == [email] by { assert [user][..0] == []; }
    assert [d][..0] == [];
    assert BlocksOver(db, [], n, Exits(db, n)) == [];
  }

  // It happens: a landing that is switched off, a destination scoped to where it leads, and a request
  // that switches it on and names no target kind the panel knows. The request is refused, the rule
  // is on, and the node goes on without the block it now needs.
  lemma RefusedButSwitchedOn(n: string, far: string, id: string, dest: string, body: string, user: string, email: string)
    requires n != far && far != ""
    ensures var rule := EgressRule(id, n, ToNode(far, "p"), false);
            var db := Db([Dest(dest, body, {far}, {}, {})], map[], map[id := rule], {n, far}, {}, {}, [user],
                         map[n := [Cred(user, email)]], map[]);
            var db' := db.(rules := Updated(db.rules, db.nodes, db.externals, db.bound, {}, id, true, Some(true), Some(KindUnknown)));
            && UpdateOutcome(db.rules, db.nodes, db.externals, db.bound, {}, id, true, Some(true), Some(KindUnknown)).TargetRefused?
            && Blocks(db, n) == [] && Blocks(db', n) == [Block(body, [email])]
  {
    var rule := EgressRule(id, n, ToNode(far, "p"), false);
    var d, creds := Dest(dest, body, {far}, {}, {}), [Cred(user, email)];
    var db := Db([d], map[], map[id := rule], {n, far}, {}, {}, [user], map[n := creds], map[]);
    var db' := db.(rules := map[id := rule.(enabled := true)]);
    UnknownKindIsRefused(db.rules, db.nodes, db.externals, db.bound, id);
    assert db.rules[id := rule.(enabled := true)] == db'.rules;
    OneDestination(db, d, n, user, email);
    OneDestination(db', d, n, user, email);
    OnlyExit(db, db', n, id, rule);
    assert {far} * {far} == {far} && {far} * {} == {};
  }
}
