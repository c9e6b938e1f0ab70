/** Re-reading somebody else's subscription without losing row identity. */
module ExternalRefresh {
  import opened Collections
  import opened Wrappers
  import opened Graphs
  import opened Decimals
  import opened ExternalChains

  // One proxy of a freshly parsed subscription.
  datatype Parsed = Parsed(name: string, typ: string, server: string, port: int, config: string)

  function EndpointKey(server: string, port: int, typ: string): string {
    server + "|" + SignedDecimal(port) + "|" + typ
  }

  lemma BarSplits(a: string, x: string, b: string, y: string)
    requires '|' !in a && '|' !in b && a + "|" + x == b + "|" + y
    ensures a == b && x == y
  {
    var s := a + "|" + x;
    assert s[|a|] == '|' && s[|b|] == '|' && s[..|a|] == a && s[..|b|] == b;
    assert s[|a| + 1..] == x && s[|b| + 1..] == y;
  }

  // The key stands for the endpoint, as long as no server name holds the bar that joins its parts.
  lemma KeysAreEndpoints(s: string, p: int, typ: string, s': string, p': int, typ': string)
    requires '|' !in s && '|' !in s'
    ensures EndpointKey(s, p, typ) == EndpointKey(s', p', typ') <==> s == s' && p == p' && typ == typ'
  {
    if EndpointKey(s, p, typ) == EndpointKey(s', p', typ') {
      var d, d' := SignedDecimal(p), SignedDecimal(p');
      assert EndpointKey(s, p, typ) == s + "|" + (d + "|" + typ) && EndpointKey(s', p', typ') == s' + "|" + (d' + "|" + typ');
      BarSplits(s, d + "|" + typ, s', d' + "|" + typ');
      OnlyDigits(if p < 0 then -p else p);
      OnlyDigits(if p' < 0 then -p' else p');
      BarSplits(d, typ, d', typ');
      SignedDecimalInjective(p, p');
    }
  }

  // With one, two endpoints can share a key.
  lemma KeysCanClash()
    ensures EndpointKey("a|1", 2, "x") == EndpointKey("a", 1, "2|x")
  {
    assert Decimal(1) == "1" && Decimal(2) == "2";
  }

  // ---------- which row each parsed proxy claims ----------

  function NameOf(p: Proxy): string { p.name }

  function KeyOf(p: Proxy): string { EndpointKey(p.server, p.port, p.typ) }

  ghost predicate HeldBy(prior: seq<Proxy>, key: Proxy -> string, s: string, id: string) {
    exists p :: p in prior && key(p) == s && p.id == id
  }

  // Later rows overwrite earlier ones under the same key.
  function Index(prior: seq<Proxy>, key: Proxy -> string): map<string, string> {
    if prior == [] then map[]
    else
      var last := prior[|prior| - 1];
      Index(prior[..|prior| - 1], key)[key(last) := last.id]
  }

  // Everything indexed is somebody's, under their own key.
  lemma {:induction false} IndexHolds(prior: seq<Proxy>, key: Proxy -> string)
    ensures forall s :: s in Index(prior, key) ==> HeldBy(prior, key, s, Index(prior, key)[s])
    ensures forall p :: p in prior ==> key(p) in Index(prior, key)
  {
    if prior != [] {
      var init, last := prior[..|prior| - 1], prior[|prior| - 1];
      assert prior == init + [last];
      IndexHolds(init, key);
      forall s | s in Index(prior, key) ensures HeldBy(prior, key, s, Index(prior, key)[s]) {
        if s != key(last) { assert HeldBy(init, key, s, Index(init, key)[s]); }
      }
    }
  }

  function ByName(prior: seq<Proxy>): map<string, string> { Index(prior, NameOf) }

  function ByEndpoint(prior: seq<Proxy>): map<string, string> { Index(prior, KeyOf) }

  // k is under s, and nobody after it is.
  predicate LastUnder(prior: seq<Proxy>, key: Proxy -> string, s: string, k: nat)
    requires k < |prior|
  {
    key(prior[k]) == s && forall j :: k < j < |prior| ==> key(prior[j]) != s
  }

  lemma {:induction false} IndexLast(prior: seq<Proxy>, key: Proxy -> string, s: string, k: nat)
    requires k < |prior| && LastUnder(prior, key, s, k)
    ensures s in Index(prior, key) && Index(prior, key)[s] == prior[k].id
  {
    if k < |prior| - 1 { IndexLast(prior[..|prior| - 1], key, s, k); }
  }

  // The previous row a fresh proxy looks like: by name, failing that by endpoint.
  function Candidate(p: Parsed, byName: map<string, string>, byEndpoint: map<string, string>): Option<string> {
    var key := EndpointKey(p.server, p.port, p.typ);
    if p.name in byName then Some(byName[p.name])
    else if key in byEndpoint then Some(byEndpoint[key])
    else None
  }

  // The id each parsed proxy ends up with: its candidate unless an earlier one took it, else the
  // id NewID would give at that turn.
  function Claims(parsed: seq<Parsed>, byName: map<string, string>, byEndpoint: map<string, string>,
                  newIds: seq<string>): (ids: seq<string>)
    requires |newIds| >= |parsed|
    ensures |ids| == |parsed|
  {
    if parsed == [] then []
    else
      var n := |parsed| - 1;
      var ids := Claims(parsed[..n], byName, byEndpoint, newIds);
      var c := Candidate(parsed[n], byName, byEndpoint);
      ids + [if c.Some? && c.value !in ids then c.value else newIds[n]]
  }

  // NewID is assumed to give ids nobody has.
  ghost predicate Unused(newIds: seq<string>, rows: map<string, Proxy>) {
    Unique(newIds) && forall i :: 0 <= i < |newIds| ==> newIds[i] !in rows
  }

  // Everything a name or an endpoint can point at is a row.
  ghost predicate PointsAtRows(m: map<string, string>, rows: map<string, Proxy>) {
    forall key :: key in m ==> m[key] in rows
  }

  // The id is a row's, the one its proxy looks like.
  predicate Claimed(rows: map<string, Proxy>, c: Option<string>, id: string) { id in rows && c == Some(id) }

  lemma NextClaimIsNew(ids: seq<string>, newIds: seq<string>, rows: map<string, Proxy>, c: Option<string>)
    requires |ids| < |newIds| && Unused(newIds, rows) && Unique(ids) && (c.Some? ==> c.value in rows)
    requires forall i :: 0 <= i < |ids| ==> ids[i] == newIds[i] || ids[i] in rows
    ensures Unique(ids + [if c.Some? && c.value !in ids then c.value else newIds[|ids|]])
  {
    var id := if c.Some? && c.value !in ids then c.value else newIds[|ids|];
    assert id !in ids;
    UniqueWith(ids, id);
  }

  // A claimed id is either the one NewID gave at that turn or the candidate's.
  lemma {:induction false} ClaimsFit(parsed: seq<Parsed>, byName: map<string, string>, byEndpoint: map<string, string>,
                                     newIds: seq<string>, rows: map<string, Proxy>, i: nat)
    requires i < |parsed| <= |newIds| && PointsAtRows(byName, rows) && PointsAtRows(byEndpoint, rows)
    ensures var id := Claims(parsed, byName, byEndpoint, newIds)[i];
            id == newIds[i] || Claimed(rows, Candidate(parsed[i], byName, byEndpoint), id)
  {
    if i < |parsed| - 1 { ClaimsFit(parsed[..|parsed| - 1], byName, byEndpoint, newIds, rows, i); }
  }

  // And no row is claimed twice.
  lemma {:induction false} ClaimsUnique(parsed: seq<Parsed>, byName: map<string, string>, byEndpoint: map<string, string>,
                                        newIds: seq<string>, rows: map<string, Proxy>)
    requires |newIds| >= |parsed| && Unused(newIds, rows)
    requires PointsAtRows(byName, rows) && PointsAtRows(byEndpoint, rows)
    ensures Unique(Claims(parsed, byName, byEndpoint, newIds))
  {
    if parsed != [] {
      var n := |parsed| - 1;
      ClaimsUnique(parsed[..n], byName, byEndpoint, newIds, rows);
      var init := Claims(parsed[..n], byName, byEndpoint, newIds);
      forall i | 0 <= i < n ensures init[i] == newIds[i] || init[i] in rows {
        ClaimsFit(parsed[..n], byName, byEndpoint, newIds, rows, i);
      }
      NextClaimIsNew(init, newIds, rows, Candidate(parsed[n], byName, byEndpoint));
    }
  }

  lemma ClaimsInjective(parsed: seq<Parsed>, byName: map<string, string>, byEndpoint: map<string, string>,
                        newIds: seq<string>, rows: map<string, Proxy>)
    requires |newIds| >= |parsed| && Unused(newIds, rows)
    requires PointsAtRows(byName, rows) && PointsAtRows(byEndpoint, rows)
    ensures var ids := Claims(parsed, byName, byEndpoint, newIds);
            Unique(ids) && forall i :: 0 <= i < |ids| ==>
              ids[i] == newIds[i] || Claimed(rows, Candidate(parsed[i], byName, byEndpoint), ids[i])
  {
    ClaimsUnique(parsed, byName, byEndpoint, newIds, rows);
    var ids := Claims(parsed, byName, byEndpoint, newIds);
    forall i | 0 <= i < |ids| ensures ids[i] == newIds[i] || Claimed(rows, Candidate(parsed[i], byName, byEndpoint), ids[i]) {
      ClaimsFit(parsed, byName, byEndpoint, newIds, rows, i);
    }
  }

  // The row that bears a name still in the subscription always survives.
  lemma {:induction false} NameBearerSurvives(parsed: seq<Parsed>, byName: map<string, string>,
                                              byEndpoint: map<string, string>, newIds: seq<string>, i: nat)
    requires |newIds| >= |parsed| && i < |parsed| && parsed[i].name in byName
    ensures byName[parsed[i].name] in Claims(parsed, byName, byEndpoint, newIds)
  {
    var n := |parsed| - 1;
    if i < n { NameBearerSurvives(parsed[..n], byName, byEndpoint, newIds, i); }
  }

  // ---------- what is written ----------

  function Updated(row: Proxy, p: Parsed, ord: nat): Proxy {
    row.(name := p.name, typ := p.typ, server := p.server, port := p.port, config := p.config, ord := ord)
  }

  function Inserted(id: string, subId: string, p: Parsed, ord: nat): Proxy {
    Proxy(id, subId, p.name, p.typ, p.server, p.port, p.config, "", "", "", true, ord, 0, false)
  }

  function Written(rows: map<string, Proxy>, subId: string, p: Parsed, ord: nat, id: string): Proxy {
    if id in rows then Updated(rows[id], p, ord) else Inserted(id, subId, p, ord)
  }

  // A deleted row takes itself out of every chain that named it: ON DELETE SET NULL.
  function Cleared(row: Proxy, gone: set<string>): Proxy {
    if row.chainProxy in gone then row.(chainProxy := "") else row
  }

  function Without(rows: map<string, Proxy>, gone: set<string>): map<string, Proxy> {
    map id | id in rows && id !in gone :: Cleared(rows[id], gone)
  }

  lemma WithoutOneMore(rows: map<string, Proxy>, gone: set<string>, id: string)
    requires "" !in rows && gone <= rows.Keys && id in rows
    ensures Without(Without(rows, gone), {id}) == Without(rows, gone + {id})
  {
  }

  ghost predicate Listing(rows: map<string, Proxy>, subId: string, prior: seq<Proxy>) {
    && (forall p :: p in prior <==> p.id in rows && rows[p.id] == p && p.subId == subId)
    && Unique(prior)
    && (forall i, j :: 0 <= i < j < |prior| ==> prior[i].ord <= prior[j].ord)
  }

  // Part of the way through a listing: what is out comes no later than anything to do.
  ghost predicate PartListed(rows: map<string, Proxy>, subId: string, out: seq<Proxy>, todo: set<string>) {
    && (forall id :: id in rows ==> rows[id].id == id)
    && todo <= rows.Keys && (forall id :: id in todo ==> rows[id].subId == subId)
    && (forall p :: p in out ==> p.id in rows && rows[p.id] == p && p.subId == subId && p.id !in todo)
    && (forall id :: id in rows && rows[id].subId == subId && id !in todo ==> rows[id] in out)
    && Unique(out)
    && (forall p, id :: p in out && id in todo ==> p.ord <= rows[id].ord)
    && (forall i, j :: 0 <= i < j < |out| ==> out[i].ord <= out[j].ord)
  }

  predicate Least(rows: map<string, Proxy>, ids: set<string>, id: string)
    requires ids <= rows.Keys
  {
    id in ids && forall other :: other in ids ==> rows[id].ord <= rows[other].ord
  }

  lemma ListOneMore(rows: map<string, Proxy>, subId: string, out: seq<Proxy>, todo: set<string>, id: string)
    requires PartListed(rows, subId, out, todo) && Least(rows, todo, id)
    ensures PartListed(rows, subId, out + [rows[id]], todo - {id})
  {
    var more := out + [rows[id]];
    forall p | p in out ensures p != rows[id] {}
    forall i, j | 0 <= i < j < |more| ensures more[i].ord <= more[j].ord && more[i] != more[j] {
      assert more[i] in out;
      if j < |out| { assert more[j] in out && out[i].ord <= out[j].ord; }
    }
  }

  // The table once the first |ids| parsed proxies are written, before anything is deleted.
  function AfterWrites(rows: map<string, Proxy>, subId: string, parsed: seq<Parsed>, ids: seq<string>): map<string, Proxy>
    requires |ids| <= |parsed|
  {
    if ids == [] then rows
    else
      var n := |ids| - 1;
      var earlier := AfterWrites(rows, subId, parsed, ids[..n]);
      earlier[ids[n] := Written(earlier, subId, parsed[n], n, ids[n])]
  }

  lemma {:induction false} WritesKeep(rows: map<string, Proxy>, subId: string, parsed: seq<Parsed>,
                                      ids: seq<string>, id: string)
    requires |ids| <= |parsed| && id !in ids
    ensures var m := AfterWrites(rows, subId, parsed, ids);
            (id in m <==> id in rows) && (id in rows ==> m[id] == rows[id])
  {
    if ids != [] { WritesKeep(rows, subId, parsed, ids[..|ids| - 1], id); }
  }

  lemma {:induction false} WritesKeepKeys(rows: map<string, Proxy>, subId: string, parsed: seq<Parsed>,
                                          ids: seq<string>, id: string)
    requires |ids| <= |parsed|
    ensures id in AfterWrites(rows, subId, parsed, ids) <==> id in rows || id in ids
  {
    if ids != [] {
      assert ids == ids[..|ids| - 1] + [ids[|ids| - 1]];
      WritesKeepKeys(rows, subId, parsed, ids[..|ids| - 1], id);
    }
  }

  // With every id written once, each row is the previous one updated or a new one inserted.
  lemma {:induction false} WritesAt(rows: map<string, Proxy>, subId: string, parsed: seq<Parsed>,
                                    ids: seq<string>, i: nat)
    requires i < |ids| <= |parsed| && Unique(ids)
    ensures var m := AfterWrites(rows, subId, parsed, ids);
            ids[i] in m && m[ids[i]] == Written(rows, subId, parsed[i], i, ids[i])
  {
    var n := |ids| - 1;
    var init := ids[..n];
    if i < n {
      WritesAt(rows, subId, parsed, init, i);
      assert ids[i] != ids[n];
    } else {
      WritesKeep(rows, subId, parsed, init, ids[n]);
    }
  }

  // The source's rows that no parsed proxy claimed.
  function Unclaimed(before: map<string, Proxy>, subId: string, ids: seq<string>): set<string> {
    set id | id in before && before[id].subId == subId && id !in ids
  }

  function Refreshed(rows: map<string, Proxy>, subId: string, parsed: seq<Parsed>, ids: seq<string>): map<string, Proxy>
    requires |ids| <= |parsed|
  {
    Without(AfterWrites(rows, subId, parsed, ids), Unclaimed(rows, subId, ids))
  }

  // At its turn an id is in the table exactly when it was there before the refresh.
  lemma ClaimedOrNew(rows: map<string, Proxy>, subId: string, parsed: seq<Parsed>, byName: map<string, string>,
                     byEndpoint: map<string, string>, newIds: seq<string>, ids: seq<string>, id: string)
    requires |ids| < |parsed| <= |newIds| && Unused(newIds, rows)
    requires PointsAtRows(byName, rows) && PointsAtRows(byEndpoint, rows)
    requires ids == Claims(parsed[..|ids|], byName, byEndpoint, newIds)
    requires var c := Candidate(parsed[|ids|], byName, byEndpoint);
             id == if c.Some? && c.value !in ids then c.value else newIds[|ids|]
    ensures id in AfterWrites(rows, subId, parsed, ids) <==> id in rows
  {
    ClaimsInjective(parsed[..|ids|], byName, byEndpoint, newIds, rows);
    assert id !in ids;
    WritesKeep(rows, subId, parsed, ids, id);
  }

  // The denials the ids nobody had before arrive with.
  function NewDenies(holders: set<string>, ids: seq<string>, before: map<string, Proxy>): set<(string, string)> {
    if ids == [] then {}
    else
      var last := ids[|ids| - 1];
      NewDenies(holders, ids[..|ids| - 1], before) +
      (if last in before then {} else set h | h in holders :: (h, last))
  }

  lemma WritesOneMore(rows: map<string, Proxy>, subId: string, parsed: seq<Parsed>, byName: map<string, string>,
                      byEndpoint: map<string, string>, newIds: seq<string>, ids: seq<string>, id: string, holders: set<string>)
    requires |ids| < |parsed| <= |newIds| && Unused(newIds, rows)
    requires PointsAtRows(byName, rows) && PointsAtRows(byEndpoint, rows)
    requires ids == Claims(parsed[..|ids|], byName, byEndpoint, newIds)
    requires var c := Candidate(parsed[|ids|], byName, byEndpoint);
             id == if c.Some? && c.value !in ids then c.value else newIds[|ids|]
    ensures var m := AfterWrites(rows, subId, parsed, ids);
            && AfterWrites(rows, subId, parsed, ids + [id]) == m[id := Written(m, subId, parsed[|ids|], |ids|, id)]
            && NewDenies(holders, ids + [id], rows) ==
               NewDenies(holders, ids, rows) + (if id in m then {} else set h | h in holders :: (h, id))
  {
    ClaimedOrNew(rows, subId, parsed, byName, byEndpoint, newIds, ids, id);
    assert (ids + [id])[..|ids|] == ids;
  }

  ghost function DropDenies(denies: set<(string, string)>, gone: set<string>): set<(string, string)> {
    set d | d in denies && d.1 !in gone
  }

  // The listed rows that were not kept.
  function Gone(listed: seq<Proxy>, kept: set<string>): set<string> {
    set p | p in listed && p.id !in kept :: p.id
  }

  lemma GoneOneMore(listed: seq<Proxy>, i: nat, kept: set<string>)
    requires i < |listed| && Unique(listed)
    requires forall p, q :: p in listed && q in listed && p.id == q.id ==> p == q
    ensures Gone(listed[..i + 1], kept) == Gone(listed[..i], kept) + if listed[i].id in kept then {} else {listed[i].id}
    ensures listed[i].id !in Gone(listed[..i], kept)
  {
    assert listed[..i + 1] == listed[..i] + [listed[i]];
    forall p | p in listed[..i] ensures p.id != listed[i].id { assert p in listed && listed[i] in listed; }
  }

  lemma DropOneMore(denies: set<(string, string)>, gone: set<string>, id: string)
    ensures DropDenies(DropDenies(denies, gone), {id}) == DropDenies(denies, gone + {id})
  {
  }

  // What is deleted is what the refresh left unclaimed, and it is all still there to delete.
  lemma UnclaimedAreListed(rows: map<string, Proxy>, subId: string, parsed: seq<Parsed>, prior: seq<Proxy>,
                           ids: seq<string>, kept: set<string>)
    requires Listing(rows, subId, prior) && "" !in rows && forall id :: id in rows ==> rows[id].id == id
    requires kept == (set id | id in ids) && "" !in ids && |ids| <= |parsed|
    ensures Gone(prior, kept) == Unclaimed(rows, subId, ids)
    ensures var m := AfterWrites(rows, subId, parsed, ids); "" !in m && forall p :: p in prior ==> p.id in m
  {
    forall id | id in Unclaimed(rows, subId, ids) ensures exists p :: p in prior && p.id !in kept && p.id == id {
      assert rows[id] in prior;
    }
    WritesKeepKeys(rows, subId, parsed, ids, "");
    forall p | p in prior ensures p.id in AfterWrites(rows, subId, parsed, ids) {
      WritesKeepKeys(rows, subId, parsed, ids, p.id);
    }
  }

  lemma {:induction false} NewDeniesExact(holders: set<string>, ids: seq<string>, before: map<string, Proxy>,
                                          h: string, id: string)
    ensures (h, id) in NewDenies(holders, ids, before) <==> h in holders && id in ids && id !in before
  {
    if ids != [] {
      assert ids == ids[..|ids| - 1] + [ids[|ids| - 1]];
      NewDeniesExact(holders, ids[..|ids| - 1], before, h, id);
    }
  }

  method IndexRows(prior: seq<Proxy>) returns (byName: map<string, string>, byEndpoint: map<string, string>)
    ensures byName == ByName(prior) && byEndpoint == ByEndpoint(prior)
  {
    byName, byEndpoint := map[], map[];
    for i := 0 to |prior|
      invariant byName == ByName(prior[..i]) && byEndpoint == ByEndpoint(prior[..i])
    {
      assert prior[..i + 1][..i] == prior[..i];
      byName := byName[prior[i].name := prior[i].id];
      byEndpoint := byEndpoint[EndpointKey(prior[i].server, prior[i].port, prior[i].typ) := prior[i].id];
    }
    assert prior[..|prior|] == prior;
  }

  lemma {:induction false} LeastOrd(rows: map<string, Proxy>, ids: set<string>)
    requires ids != {} && ids <= rows.Keys
    ensures exists id :: Least(rows, ids, id)
    decreases ids
  {
    var id :| id in ids;
    var rest := ids - {id};
    if rest == {} {
      assert ids == {id} && Least(rows, ids, id);
    } else {
      LeastOrd(rows, rest);
      var least :| Least(rows, rest, least);
      assert Least(rows, ids, if rows[id].ord <= rows[least].ord then id else least);
    }
  }

  class RefreshStore {
    var rows: map<string, Proxy>
    var users: set<string>
    var groups: set<string>
    var userDenies: set<(string, string)>
    var groupDenies: set<(string, string)>

    ghost predicate Valid()
      reads this
    {
      "" !in rows && forall id :: id in rows ==> rows[id].id == id
    }

    // The rows of one source in the provider's order.
    method ExternalProxies(subId: string) returns (out: seq<Proxy>)
      requires Valid()
      ensures Listing(rows, subId, out)
    {
      out := [];
      var todo := set id | id in rows && rows[id].subId == subId;
      while todo != {}
        invariant PartListed(rows, subId, out, todo)
        decreases todo
      {
        LeastOrd(rows, todo);
        var id :| id in todo && Least(rows, todo, id);
        ListOneMore(rows, subId, out, todo, id);
        todo := todo - {id};
        out := out + [rows[id]];
      }
    }

    // ON DELETE: chains through the row are cleared and its denials go with it.
    method DeleteProxy(id: string)
      requires id in rows
      modifies this
      ensures rows == Without(old(rows), {id}) && users == old(users) && groups == old(groups)
      ensures userDenies == DropDenies(old(userDenies), {id})
      ensures groupDenies == DropDenies(old(groupDenies), {id})
    {
      rows := map r | r in rows && r != id ::
        if rows[r].chainProxy == id then rows[r].(chainProxy := "") else rows[r];
      userDenies := set d | d in userDenies && d.1 != id;
      groupDenies := set d | d in groupDenies && d.1 != id;
    }

    // UPDATE for a row that exists; else INSERT, denied to every subscriber and group there is.
    method WriteProxy(id: string, subId: string, p: Parsed, ord: nat)
      modifies this
      ensures rows == old(rows)[id := Written(old(rows), subId, p, ord, id)] && users == old(users) && groups == old(groups)
      ensures userDenies == old(userDenies) + (if id in old(rows) then {} else set u | u in users :: (u, id))
      ensures groupDenies == old(groupDenies) + (if id in old(rows) then {} else set g | g in groups :: (g, id))
    {
      if id in rows {
        rows := rows[id := Updated(rows[id], p, ord)];
        return;
      }
      rows := rows[id := Inserted(id, subId, p, ord)];
      userDenies := userDenies + set u | u in users :: (u, id);
      groupDenies := groupDenies + set g | g in groups :: (g, id);
    }

    method WriteAll(subId: string, parsed: seq<Parsed>, byName: map<string, string>,
                    byEndpoint: map<string, string>, newIds: seq<string>)
      returns (ids: seq<string>, kept: set<string>)
      requires |newIds| >= |parsed| && Unused(newIds, rows)
      requires PointsAtRows(byName, rows) && PointsAtRows(byEndpoint, rows)
      modifies this
      ensures users == old(users) && groups == old(groups)
      ensures ids == Claims(parsed, byName, byEndpoint, newIds) && kept == set id | id in ids
      ensures rows == AfterWrites(old(rows), subId, parsed, ids)
      ensures userDenies == old(userDenies) + NewDenies(users, ids, old(rows))
      ensures groupDenies == old(groupDenies) + NewDenies(groups, ids, old(rows))
    {
      kept, ids := {}, [];
      ghost var before, uds, gds := rows, userDenies, groupDenies;
      for i := 0 to |parsed|
        invariant users == old(users) && groups == old(groups) && |ids| == i
        invariant kept == set id | id in ids
        invariant WrittenTo(subId, parsed, byName, byEndpoint, newIds, ids, before, uds, gds)
      {
        var id := WriteNext(subId, parsed, i, byName, byEndpoint, newIds, kept, ids, before, uds, gds);
        kept := kept + {id};
        ids := ids + [id];
      }
      assert parsed[..|parsed|] == parsed;
    }

    // The first |ids| parsed proxies are written, over the tables as they were.
    ghost predicate WrittenTo(subId: string, parsed: seq<Parsed>, byName: map<string, string>,
                              byEndpoint: map<string, string>, newIds: seq<string>, ids: seq<string>,
                              before: map<string, Proxy>, uds: set<(string, string)>, gds: set<(string, string)>)
      requires |ids| <= |parsed| <= |newIds|
      reads this
    {
      && ids == Claims(parsed[..|ids|], byName, byEndpoint, newIds)
      && rows == AfterWrites(before, subId, parsed, ids)
      && userDenies == uds + NewDenies(users, ids, before)
      && groupDenies == gds + NewDenies(groups, ids, before)
    }

    method WriteNext(subId: string, parsed: seq<Parsed>, i: nat, byName: map<string, string>,
                     byEndpoint: map<string, string>, newIds: seq<string>, kept: set<string>, ghost ids: seq<string>,
                     ghost before: map<string, Proxy>, ghost uds: set<(string, string)>, ghost gds: set<(string, string)>)
      returns (id: string)
      requires |ids| == i < |parsed| <= |newIds| && Unused(newIds, before)
      requires PointsAtRows(byName, before) && PointsAtRows(byEndpoint, before)
      requires kept == set x | x in ids
      requires WrittenTo(subId, parsed, byName, byEndpoint, newIds, ids, before, uds, gds)
      modifies this
      ensures users == old(users) && groups == old(groups)
      ensures WrittenTo(subId, parsed, byName, byEndpoint, newIds, ids + [id], before, uds, gds)
    {
      id := NextId(parsed, i, byName, byEndpoint, newIds, kept, ids);
      WritesOneMore(before, subId, parsed, byName, byEndpoint, newIds, ids, id, users);
      WritesOneMore(before, subId, parsed, byName, byEndpoint, newIds, ids, id, groups);
      WriteProxy(id, subId, parsed[i], i);
    }

    method NextId(parsed: seq<Parsed>, i: nat, byName: map<string, string>, byEndpoint: map<string, string>,
                  newIds: seq<string>, kept: set<string>, ghost ids: seq<string>)
      returns (id: string)
      requires |ids| == i < |parsed| <= |newIds| && kept == set x | x in ids
      requires ids == Claims(parsed[..i], byName, byEndpoint, newIds)
      ensures var c := Candidate(parsed[i], byName, byEndpoint);
              id == if c.Some? && c.value !in ids then c.value else newIds[i]
      ensures ids + [id] == Claims(parsed[..i + 1], byName, byEndpoint, newIds)
    {
      var c := Candidate(parsed[i], byName, byEndpoint);
      assert parsed[..i + 1][..i] == parsed[..i];
      id := if c.Some? && c.value !in kept then c.value else newIds[i];
    }

    // ids[i] is the row the i-th parsed proxy ends up as; prior is the source's previous list.
    method ReplaceExternalProxies(subId: string, parsed: seq<Parsed>, newIds: seq<string>)
      returns (ids: seq<string>, ghost prior: seq<Proxy>)
      requires Valid() && |newIds| >= |parsed| && Unused(newIds, rows) && "" !in newIds
      modifies this
      ensures users == old(users) && groups == old(groups)
      ensures Listing(old(rows), subId, prior)
      ensures ids == Claims(parsed, ByName(prior), ByEndpoint(prior), newIds)
      ensures rows == Refreshed(old(rows), subId, parsed, ids)
      ensures userDenies == DropDenies(old(userDenies) + NewDenies(users, ids, old(rows)), Unclaimed(old(rows), subId, ids))
      ensures groupDenies == DropDenies(old(groupDenies) + NewDenies(groups, ids, old(rows)), Unclaimed(old(rows), subId, ids))
    {
      var listed := ExternalProxies(subId);
      prior := listed;
      ghost var before := rows;
      var byName, byEndpoint := IndexRows(listed);
      IndexHolds(listed, NameOf);
      IndexHolds(listed, KeyOf);
      ClaimsInjective(parsed, byName, byEndpoint, newIds, rows);
      var kept;
      ids, kept := WriteAll(subId, parsed, byName, byEndpoint, newIds);
      assert "" !in ids;
      UnclaimedAreListed(before, subId, parsed, prior, ids, kept);
      DeleteUnclaimed(listed, kept);
    }

    method DeleteUnclaimed(listed: seq<Proxy>, kept: set<string>)
      requires "" !in rows && Unique(listed) && forall p :: p in listed ==> p.id in rows
      requires forall p, q :: p in listed && q in listed && p.id == q.id ==> p == q
      modifies this
      ensures users == old(users) && groups == old(groups)
      ensures var gone := Gone(listed, kept);
              && rows == Without(old(rows), gone)
              && userDenies == DropDenies(old(userDenies), gone)
              && groupDenies == DropDenies(old(groupDenies), gone)
    {
      ghost var gone: set<string> := {};
      ghost var before, uds, gds := rows, userDenies, groupDenies;
      for i := 0 to |listed|
        invariant users == old(users) && groups == old(groups)
        invariant gone == Gone(listed[..i], kept) && gone <= before.Keys
        invariant rows == Without(before, gone) && userDenies == DropDenies(uds, gone) && groupDenies == DropDenies(gds, gone)
      {
        var id := listed[i].id;
        GoneOneMore(listed, i, kept);
        if id !in kept {
          WithoutOneMore(before, gone, id);
          DropOneMore(uds, gone, id);
          DropOneMore(gds, gone, id);
          DeleteProxy(id);
          gone := gone + {id};
        }
      }
      assert listed[..|listed|] == listed;
    }
  }

  // ---------- what a refresh does to the table ----------

  // The outcome of ReplaceExternalProxies, as its postcondition fixes it.
  ghost predicate RefreshOf(rows: map<string, Proxy>, subId: string, parsed: seq<Parsed>, newIds: seq<string>,
                            prior: seq<Proxy>, ids: seq<string>)
  {
    && "" !in rows && "" !in newIds && (forall id :: id in rows ==> rows[id].id == id)
    && |newIds| >= |parsed| && Unused(newIds, rows)
    && Listing(rows, subId, prior)
    && ids == Claims(parsed, ByName(prior), ByEndpoint(prior), newIds)
  }

  lemma ClaimsBelong(rows: map<string, Proxy>, subId: string, parsed: seq<Parsed>, newIds: seq<string>,
                     prior: seq<Proxy>, ids: seq<string>, i: nat)
    requires RefreshOf(rows, subId, parsed, newIds, prior, ids) && i < |parsed|
    ensures Unique(ids) && ids[i] in (if ids[i] in rows then rows.Keys else set x | x in newIds)
    ensures ids[i] in rows ==> rows[ids[i]].subId == subId
    ensures ids[i] in rows ==>
              rows[ids[i]].name == parsed[i].name ||
              EndpointKey(rows[ids[i]].server, rows[ids[i]].port, rows[ids[i]].typ) ==
              EndpointKey(parsed[i].server, parsed[i].port, parsed[i].typ)
  {
    var byName, byEndpoint := ByName(prior), ByEndpoint(prior);
    IndexHolds(prior, NameOf);
    IndexHolds(prior, KeyOf);
    ClaimsInjective(parsed, byName, byEndpoint, newIds, rows);
    if ids[i] in rows {
      assert Candidate(parsed[i], byName, byEndpoint) == Some(ids[i]);
      if parsed[i].name in byName {
        assert HeldBy(prior, NameOf, parsed[i].name, ids[i]);
      } else {
        assert HeldBy(prior, KeyOf, EndpointKey(parsed[i].server, parsed[i].port, parsed[i].typ), ids[i]);
      }
    }
  }

  // ---------- which rows survive ----------

  lemma {:induction false} LastWhere(prior: seq<Proxy>, f: Proxy -> bool) returns (k: nat)
    requires exists p :: p in prior && f(p)
    ensures k < |prior| && f(prior[k]) && forall j :: k < j < |prior| ==> !f(prior[j])
  {
    var n := |prior| - 1;
    if f(prior[n]) {
      k := n;
    } else {
      assert prior == prior[..n] + [prior[n]];
      k := LastWhere(prior[..n], f);
    }
  }

  // k sits at key, and nobody after it does.
  predicate LastAt(prior: seq<Proxy>, key: string, k: nat)
    requires k < |prior|
  {
    KeyOf(prior[k]) == key && forall j :: k < j < |prior| ==> KeyOf(prior[j]) != key
  }

  // The previous row a listed proxy is taken for, said on the list itself: the last to bear its
  // name, or, when none does, the last at its endpoint.
  predicate LooksLike(prior: seq<Proxy>, q: Parsed, k: nat)
    requires k < |prior|
  {
    if exists j :: 0 <= j < |prior| && prior[j].name == q.name
    then prior[k].name == q.name && forall j :: k < j < |prior| ==> prior[j].name != q.name
    else LastAt(prior, EndpointKey(q.server, q.port, q.typ), k)
  }

  lemma NotHeld(prior: seq<Proxy>, key: Proxy -> string, s: string)
    requires forall p :: p in prior ==> key(p) != s
    ensures s !in Index(prior, key)
  {
    IndexHolds(prior, key);
  }

  lemma ByNameLookalike(prior: seq<Proxy>, q: Parsed, k: nat, b: nat)
    requires k < |prior| && b < |prior| && prior[b].name == q.name && forall j :: b < j < |prior| ==> prior[j].name != q.name
    ensures LooksLike(prior, q, k) <==> k == b
    ensures Candidate(q, ByName(prior), ByEndpoint(prior)) == Some(prior[b].id)
  {
    IndexLast(prior, NameOf, q.name, b);
  }

  lemma LastAtOne(prior: seq<Proxy>, key: string, k: nat, e: nat)
    requires k < |prior| && e < |prior| && LastAt(prior, key, k) && LastAt(prior, key, e)
    ensures k == e
  {
  }

  lemma ByEndpointCandidate(prior: seq<Proxy>, q: Parsed, e: nat)
    requires e < |prior| && LastAt(prior, EndpointKey(q.server, q.port, q.typ), e)
    requires forall p :: p in prior ==> p.name != q.name
    ensures Candidate(q, ByName(prior), ByEndpoint(prior)) == Some(prior[e].id)
  {
    NotHeld(prior, NameOf, q.name);
    IndexLast(prior, KeyOf, EndpointKey(q.server, q.port, q.typ), e);
  }

  lemma NoLookalike(prior: seq<Proxy>, q: Parsed, k: nat)
    requires k < |prior| && forall p :: p in prior ==> p.name != q.name && KeyOf(p) != EndpointKey(q.server, q.port, q.typ)
    ensures !LooksLike(prior, q, k) && Candidate(q, ByName(prior), ByEndpoint(prior)).None?
  {
    assert prior[k] in prior;
    NotHeld(prior, NameOf, q.name);
    assert forall j :: 0 <= j < |prior| ==> prior[j] in prior;
    NotHeld(prior, KeyOf, EndpointKey(q.server, q.port, q.typ));
  }

  ghost predicate DistinctIds(prior: seq<Proxy>) { forall i, j :: 0 <= i < j < |prior| ==> prior[i].id != prior[j].id }

  lemma EndpointCase(prior: seq<Proxy>, q: Parsed, k: nat, e: nat)
    requires k < |prior| && e < |prior| && DistinctIds(prior)
    requires LastAt(prior, EndpointKey(q.server, q.port, q.typ), e)
    requires forall p :: p in prior ==> p.name != q.name
    ensures Candidate(q, ByName(prior), ByEndpoint(prior)) == Some(prior[k].id) <==> LooksLike(prior, q, k)
  {
    ByEndpointCandidate(prior, q, e);
    forall j | 0 <= j < |prior| ensures prior[j].name != q.name { assert prior[j] in prior; }
    if LooksLike(prior, q, k) { LastAtOne(prior, EndpointKey(q.server, q.port, q.typ), k, e); }
  }

  lemma CandidateIsTheLookalike(prior: seq<Proxy>, q: Parsed, k: nat)
    requires k < |prior| && DistinctIds(prior)
    ensures Candidate(q, ByName(prior), ByEndpoint(prior)) == Some(prior[k].id) <==> LooksLike(prior, q, k)
  {
    var byName := (p: Proxy) => p.name == q.name;
    var byKey := (p: Proxy) => KeyOf(p) == EndpointKey(q.server, q.port, q.typ);
    if exists p :: p in prior && byName(p) {
      var b := LastWhere(prior, byName);
      ByNameLookalike(prior, q, k, b);
    } else if exists p :: p in prior && byKey(p) {
      var e := LastWhere(prior, byKey);
      forall p | p in prior ensures p.name != q.name { assert !byName(p); }
      EndpointCase(prior, q, k, e);
    } else {
      forall p | p in prior ensures p.name != q.name && KeyOf(p) != EndpointKey(q.server, q.port, q.typ) {
        assert !byName(p) && !byKey(p);
      }
      NoLookalike(prior, q, k);
    }
  }

  // Somebody's candidate.
  ghost predicate Wanted(parsed: seq<Parsed>, byName: map<string, string>, byEndpoint: map<string, string>, id: string) {
    exists j :: 0 <= j < |parsed| && Candidate(parsed[j], byName, byEndpoint) == Some(id)
  }

  lemma WantedOneMore(parsed: seq<Parsed>, byName: map<string, string>, byEndpoint: map<string, string>, id: string)
    requires parsed != []
    ensures var n := |parsed| - 1;
            Wanted(parsed, byName, byEndpoint, id) <==>
            Wanted(parsed[..n], byName, byEndpoint, id) || Candidate(parsed[n], byName, byEndpoint) == Some(id)
  {
    var n := |parsed| - 1;
    if j :| 0 <= j < |parsed| && Candidate(parsed[j], byName, byEndpoint) == Some(id) {
      if j < n { assert parsed[..n][j] == parsed[j]; }
    }
    if j :| 0 <= j < n && Candidate(parsed[..n][j], byName, byEndpoint) == Some(id) { assert parsed[..n][j] == parsed[j]; }
  }

  // A row is taken exactly when it is.
  lemma {:induction false} TakenExactly(parsed: seq<Parsed>, byName: map<string, string>, byEndpoint: map<string, string>,
                                        newIds: seq<string>, rows: map<string, Proxy>, id: string)
    requires |newIds| >= |parsed| && Unused(newIds, rows) && id in rows
    ensures id in Claims(parsed, byName, byEndpoint, newIds) <==> Wanted(parsed, byName, byEndpoint, id)
  {
    if parsed != [] {
      var n := |parsed| - 1;
      TakenExactly(parsed[..n], byName, byEndpoint, newIds, rows, id);
      WantedOneMore(parsed, byName, byEndpoint, id);
      assert newIds[n] != id;
    }
  }

  // What is claimed up to a turn does not depend on the turns after it.
  lemma {:induction false} ClaimsGrow(parsed: seq<Parsed>, byName: map<string, string>, byEndpoint: map<string, string>,
                                      newIds: seq<string>, m: nat)
    requires m <= |parsed| <= |newIds|
    ensures Claims(parsed[..m], byName, byEndpoint, newIds) == Claims(parsed, byName, byEndpoint, newIds)[..m]
  {
    var n := |parsed| - 1;
    if m <= n {
      ClaimsGrow(parsed[..n], byName, byEndpoint, newIds, m);
      assert parsed[..n][..m] == parsed[..m];
      assert Claims(parsed, byName, byEndpoint, newIds)[..n] == Claims(parsed[..n], byName, byEndpoint, newIds);
    } else {
      assert parsed[..m] == parsed;
    }
  }

  lemma ClaimsPrefix(parsed: seq<Parsed>, byName: map<string, string>, byEndpoint: map<string, string>,
                     newIds: seq<string>, i: nat)
    requires i < |parsed| <= |newIds|
    ensures var c := Candidate(parsed[i], byName, byEndpoint);
            Claims(parsed, byName, byEndpoint, newIds)[i] ==
              if c.Some? && c.value !in Claims(parsed[..i], byName, byEndpoint, newIds) then c.value else newIds[i]
  {
    var head := parsed[..i + 1];
    ClaimsGrow(parsed, byName, byEndpoint, newIds, i + 1);
    assert Claims(parsed, byName, byEndpoint, newIds)[i] == Claims(head, byName, byEndpoint, newIds)[i];
    assert head[..i] == parsed[..i] && head[i] == parsed[i];
  }

  lemma PriorIds(rows: map<string, Proxy>, subId: string, prior: seq<Proxy>)
    requires Listing(rows, subId, prior)
    ensures DistinctIds(prior)
    ensures forall k :: 0 <= k < |prior| ==> prior[k].id in rows && rows[prior[k].id] == prior[k] && prior[k].subId == subId
  {
    forall k | 0 <= k < |prior| ensures prior[k].id in rows && rows[prior[k].id] == prior[k] { assert prior[k] in prior; }
  }

  // A row goes to the first that wants it.
  lemma FirstWantTakes(parsed: seq<Parsed>, byName: map<string, string>, byEndpoint: map<string, string>,
                       newIds: seq<string>, rows: map<string, Proxy>, i: nat, id: string)
    requires i < |parsed| <= |newIds| && Unused(newIds, rows) && id in rows
    ensures Claims(parsed, byName, byEndpoint, newIds)[i] == id <==>
            Candidate(parsed[i], byName, byEndpoint) == Some(id) && !Wanted(parsed[..i], byName, byEndpoint, id)
  {
    ClaimsPrefix(parsed, byName, byEndpoint, newIds, i);
    TakenExactly(parsed[..i], byName, byEndpoint, newIds, rows, id);
  }

  lemma WantedIsLookedLike(prior: seq<Proxy>, parsed: seq<Parsed>, k: nat)
    requires k < |prior| && DistinctIds(prior)
    ensures Wanted(parsed, ByName(prior), ByEndpoint(prior), prior[k].id) <==>
            exists j :: 0 <= j < |parsed| && LooksLike(prior, parsed[j], k)
  {
    forall j | 0 <= j < |parsed|
      ensures Candidate(parsed[j], ByName(prior), ByEndpoint(prior)) == Some(prior[k].id) <==> LooksLike(prior, parsed[j], k)
    {
      CandidateIsTheLookalike(prior, parsed[j], k);
    }
  }

  // Which parsed proxy gets a previous row: the first one taken for it.
  lemma ClaimedByFirstLookalike(rows: map<string, Proxy>, subId: string, parsed: seq<Parsed>, newIds: seq<string>,
                                prior: seq<Proxy>, ids: seq<string>, i: nat, k: nat)
    requires RefreshOf(rows, subId, parsed, newIds, prior, ids) && i < |parsed| && k < |prior|
    ensures ids[i] == prior[k].id <==>
            LooksLike(prior, parsed[i], k) && forall j :: 0 <= j < i ==> !LooksLike(prior, parsed[j], k)
  {
    PriorIds(rows, subId, prior);
    FirstWantTakes(parsed, ByName(prior), ByEndpoint(prior), newIds, rows, i, prior[k].id);
    CandidateIsTheLookalike(prior, parsed[i], k);
    WantedIsLookedLike(prior, parsed[..i], k);
    assert forall j :: 0 <= j < i ==> parsed[..i][j] == parsed[j];
  }

  // A previous row survives exactly when some proxy the provider still lists is taken for it.
  lemma SurvivesExactly(rows: map<string, Proxy>, subId: string, parsed: seq<Parsed>, newIds: seq<string>,
                        prior: seq<Proxy>, ids: seq<string>, k: nat)
    requires RefreshOf(rows, subId, parsed, newIds, prior, ids) && k < |prior|
    ensures prior[k].id in Refreshed(rows, subId, parsed, ids) <==>
            exists i :: 0 <= i < |parsed| && LooksLike(prior, parsed[i], k)
  {
    var byName, byEndpoint, id := ByName(prior), ByEndpoint(prior), prior[k].id;
    PriorIds(rows, subId, prior);
    TakenExactly(parsed, byName, byEndpoint, newIds, rows, id);
    WantedIsLookedLike(prior, parsed, k);
    WritesKeepKeys(rows, subId, parsed, ids, id);
  }

  // The i-th parsed proxy is the i-th row. A matched row keeps every setting of the operator's;
  // only a chain through a row that is going away is cut.
  lemma RefreshedRow(rows: map<string, Proxy>, subId: string, parsed: seq<Parsed>, newIds: seq<string>,
                     prior: seq<Proxy>, ids: seq<string>, i: nat)
    requires RefreshOf(rows, subId, parsed, newIds, prior, ids) && i < |parsed|
    ensures ids[i] in Refreshed(rows, subId, parsed, ids)
    ensures var row := Refreshed(rows, subId, parsed, ids)[ids[i]];
            && row.id == ids[i] && row.subId == subId && row.ord == i
            && Parsed(row.name, row.typ, row.server, row.port, row.config) == parsed[i]
            && (ids[i] in rows ==>
                  var was := rows[ids[i]];
                  && row.displayName == was.displayName && row.enabled == was.enabled
                  && row.chainNode == was.chainNode && row.sortOrder == was.sortOrder
                  && row.relayExposed == was.relayExposed
                  && row.chainProxy == if was.chainProxy in Unclaimed(rows, subId, ids) then "" else was.chainProxy)
            && (ids[i] !in rows ==> row.enabled && row.ChainTarget() == Direct && row.displayName == "")
  {
    ClaimsBelong(rows, subId, parsed, newIds, prior, ids, i);
    WritesAt(rows, subId, parsed, ids, i);
    assert ids[i] in ids && ids[i] !in Unclaimed(rows, subId, ids);
  }

  // A renamed proxy keeps its row: listed under a name no previous row bears, at an endpoint where
  // exactly one previous row sits that no other listed proxy resembles.
  lemma RenamedKeepsItsRow(rows: map<string, Proxy>, subId: string, parsed: seq<Parsed>, newIds: seq<string>,
                           prior: seq<Proxy>, ids: seq<string>, i: nat, k: nat)
    requires RefreshOf(rows, subId, parsed, newIds, prior, ids) && i < |parsed| && k < |prior|
    requires (forall p :: p in prior ==> '|' !in p.server) && (forall q :: q in parsed ==> '|' !in q.server)
    requires forall p :: p in prior ==> p.name != parsed[i].name
    requires forall j :: 0 <= j < |prior| ==>
               (j == k <==> prior[j].server == parsed[i].server && prior[j].port == parsed[i].port && prior[j].typ == parsed[i].typ)
    requires forall j :: 0 <= j < |parsed| && j != i ==>
               parsed[j].name != prior[k].name &&
               !(parsed[j].server == prior[k].server && parsed[j].port == prior[k].port && parsed[j].typ == prior[k].typ)
    ensures ids[i] == prior[k].id && ids[i] in Refreshed(rows, subId, parsed, ids)
    ensures var row := Refreshed(rows, subId, parsed, ids)[ids[i]];
            row.displayName == prior[k].displayName && row.enabled == prior[k].enabled && row.chainNode == prior[k].chainNode &&
            row.sortOrder == prior[k].sortOrder && row.relayExposed == prior[k].relayExposed && row.name == parsed[i].name
  {
    forall j | 0 <= j < |prior| ensures KeyOf(prior[j]) == EndpointKey(parsed[i].server, parsed[i].port, parsed[i].typ) <==> j == k {
      assert prior[j] in prior && parsed[i] in parsed;
      KeysAreEndpoints(prior[j].server, prior[j].port, prior[j].typ, parsed[i].server, parsed[i].port, parsed[i].typ);
    }
    forall j | 0 <= j < |prior| ensures prior[j].name != parsed[i].name { assert prior[j] in prior; }
    assert LooksLike(prior, parsed[i], k);
    forall j | 0 <= j < i ensures !LooksLike(prior, parsed[j], k) {
      assert prior[k] in prior && parsed[j] in parsed;
      KeysAreEndpoints(prior[k].server, prior[k].port, prior[k].typ, parsed[j].server, parsed[j].port, parsed[j].typ);
    }
    ClaimedByFirstLookalike(rows, subId, parsed, newIds, prior, ids, i, k);
    PriorIds(rows, subId, prior);
    RefreshedRow(rows, subId, parsed, newIds, prior, ids, i);
  }

  // After a refresh the source holds exactly the parsed sequence; nobody else's row comes or goes.
  lemma RefreshedTable(rows: map<string, Proxy>, subId: string, parsed: seq<Parsed>, newIds: seq<string>,
                       prior: seq<Proxy>, ids: seq<string>, id: string)
    requires RefreshOf(rows, subId, parsed, newIds, prior, ids)
    ensures var after := Refreshed(rows, subId, parsed, ids);
            && (id in after && after[id].subId == subId <==> id in ids)
            && (id in rows && rows[id].subId != subId ==>
                  id in after && after[id] == Cleared(rows[id], Unclaimed(rows, subId, ids)))
            && (id in after ==> id in rows || id in ids)
  {
    if id in ids {
      var i :| 0 <= i < |ids| && ids[i] == id;
      RefreshedRow(rows, subId, parsed, newIds, prior, ids, i);
      ClaimsBelong(rows, subId, parsed, newIds, prior, ids, i);
    } else {
      WritesKeep(rows, subId, parsed, ids, id);
    }
  }

  // A refresh never makes chains loop: it only ever cuts them.
  lemma RefreshKeepsAcyclic(rows: map<string, Proxy>, subId: string, parsed: seq<Parsed>, newIds: seq<string>,
                            prior: seq<Proxy>, ids: seq<string>)
    requires RefreshOf(rows, subId, parsed, newIds, prior, ids) && Acyclic(ChainEdges(rows))
    ensures Acyclic(ChainEdges(Refreshed(rows, subId, parsed, ids)))
  {
    var after := Refreshed(rows, subId, parsed, ids);
    forall id | id in NextOf(after) ensures id in NextOf(rows) && NextOf(rows)[id] == NextOf(after)[id] {
      if id in ids {
        var i :| 0 <= i < |ids| && ids[i] == id;
        RefreshedRow(rows, subId, parsed, newIds, prior, ids, i);
      } else {
        WritesKeep(rows, subId, parsed, ids, id);
      }
    }
    assert ChainEdges(after) <= ChainEdges(rows);
    AcyclicFewer(ChainEdges(after), ChainEdges(rows));
  }

  // A row that survives keeps its chain, unless it was dialled through one that does not.
  lemma SurvivorsChain(rows: map<string, Proxy>, subId: string, parsed: seq<Parsed>, newIds: seq<string>,
                       prior: seq<Proxy>, ids: seq<string>, id: string)
    requires RefreshOf(rows, subId, parsed, newIds, prior, ids)
    requires id in rows && id in Refreshed(rows, subId, parsed, ids)
    ensures var row := Refreshed(rows, subId, parsed, ids)[id];
            && row.chainNode == rows[id].chainNode
            && row.chainProxy == if rows[id].chainProxy in Unclaimed(rows, subId, ids) then "" else rows[id].chainProxy
  {
    if i :| 0 <= i < |ids| && ids[i] == id {
      RefreshedRow(rows, subId, parsed, newIds, prior, ids, i);
    } else {
      WritesKeep(rows, subId, parsed, ids, id);
    }
  }

  // Cutting a chain is not dropping a proxy. When the provider stops listing the proxy another
  // one was dialled through, the survivor, of whatever source, turns into a direct dial and is
  // carried whatever else is, which is the outcome the renderer's own comment says the chain
  // setting exists to prevent.
  lemma LostTargetMeansDirectDial(rows: map<string, Proxy>, subId: string, parsed: seq<Parsed>,
                                  newIds: seq<string>, prior: seq<Proxy>, ids: seq<string>, id: string,
                                  chainName: string -> string)
    requires RefreshOf(rows, subId, parsed, newIds, prior, ids)
    requires id in rows && rows[id].chainNode == "" && rows[id].chainProxy != ""
    requires id in Refreshed(rows, subId, parsed, ids)
    ensures Resolves(Refreshed(rows, subId, parsed, ids)[id], {}, chainName) <==>
            rows[id].chainProxy in Unclaimed(rows, subId, ids)
  {
    SurvivorsChain(rows, subId, parsed, newIds, prior, ids, id);
  }

  lemma PairIsListed(a: Proxy, b: Proxy)
    requires a.id != b.id && a.subId == b.subId && a.ord <= b.ord
    ensures Listing(map[a.id := a, b.id := b], a.subId, [a, b])
  {
  }

  lemma FirstIsClaimed(a: Proxy, b: Proxy, p: Parsed, newId: string)
    requires a.name == p.name && b.name != p.name
    ensures Claims([p], ByName([a, b]), ByEndpoint([a, b]), [newId]) == [a.id]
  {
    assert [a, b][0] == a && [a, b][1] == b && [p][..0] == [];
    IndexLast([a, b], NameOf, p.name, 0);
    assert Claims([p][..0], ByName([a, b]), ByEndpoint([a, b]), [newId]) == [];
  }

  // It takes one refresh: a is dialled through b, and the provider now lists only a.
  lemma ChainedBecomesDirect(a: Proxy, b: Proxy, p: Parsed, newId: string)
    requires a.id != "" && b.id != "" && a.id != b.id && newId !in {"", a.id, b.id} && a.subId == b.subId
    requires a.name == p.name && b.name != p.name && a.ord <= b.ord
    requires a.chainProxy == b.id && a.chainNode == ""
    ensures var rows := map[a.id := a, b.id := b];
            && RefreshOf(rows, a.subId, [p], [newId], [a, b], [a.id])
            && a.ChainTarget() == ViaProxy(b.id)
            && a.id in Refreshed(rows, a.subId, [p], [a.id])
            && Refreshed(rows, a.subId, [p], [a.id])[a.id].ChainTarget() == Direct
  {
    var rows := map[a.id := a, b.id := b];
    PairIsListed(a, b);
    FirstIsClaimed(a, b, p, newId);
    assert RefreshOf(rows, a.subId, [p], [newId], [a, b], [a.id]);
    RefreshedRow(rows, a.subId, [p], [newId], [a, b], [a.id], 0);
    assert b.id in Unclaimed(rows, a.subId, [a.id]);
  }

  // Exactly the rows nobody had before gain a denial, one for every holder; removed rows lose theirs.
  lemma RefreshedDenies(rows: map<string, Proxy>, subId: string, ids: seq<string>, holders: set<string>,
                        denies: set<(string, string)>, h: string, id: string)
    ensures (h, id) in DropDenies(denies + NewDenies(holders, ids, rows), Unclaimed(rows, subId, ids)) <==>
            id !in Unclaimed(rows, subId, ids) && ((h, id) in denies || (h in holders && id in ids && id !in rows))
  {
    NewDeniesExact(holders, ids, rows, h, id);
  }
}
