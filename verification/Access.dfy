/** Who may use what: a subscriber's own rows, then their group's, then the default, with
  * whole-set editors working from both ends of the relation. */
module Access {
  import opened Wrappers

  type Pair = (string, string)

  datatype Kind = KNode | KRelay | KExternal

  // One dimension of access: the per-subscriber exceptions, the group denials and what exists.
  datatype Dim = Dim(denies: set<Pair>, allows: set<Pair>, byGroup: set<Pair>, universe: set<string>)

  // group and ruleset are "" for NULL.
  datatype Person = Person(group: string, ruleset: string, rulesetNone: bool)

  // groups maps each group to its rule set; own, withheld and granted are user_profiles,
  // user_profile_denies and group_profiles.
  datatype State = State(
    users: map<string, Person>, groups: map<string, string>, dims: map<Kind, Dim>,
    own: set<Pair>, withheld: set<Pair>, granted: set<Pair>)

  const KINDS: set<Kind> := {KNode, KRelay, KExternal}

  // ---------- resolved answers ----------

  predicate GroupDenies(d: Dim, group: string, o: string) { group != "" && (group, o) in d.byGroup }

  // A personal row outranks the group; what nobody has ruled on is allowed.
  predicate DeniedIn(d: Dim, group: string, u: string, o: string) {
    (u, o) in d.denies || (GroupDenies(d, group, o) && (u, o) !in d.allows)
  }

  predicate Denied(s: State, k: Kind, u: string, o: string)
    requires k in s.dims
  {
    DeniedIn(s.dims[k], if u in s.users then s.users[u].group else "", u, o)
  }

  function EffectiveDenies(s: State, k: Kind, u: string): set<string>
    requires k in s.dims
  {
    var d := s.dims[k];
    (set r | r in d.denies && r.0 == u :: r.1) +
    (set r | r in d.byGroup && u in s.users && s.users[u].group != "" && s.users[u].group == r.0 && (u, r.1) !in d.allows :: r.1)
  }

  function ObjectDenies(s: State, k: Kind, o: string): set<string>
    requires k in s.dims
  {
    var d := s.dims[k];
    (set r | r in d.denies && r.1 == o :: r.0) +
    (set u | u in s.users && s.users[u].group != "" && (s.users[u].group, o) in d.byGroup && (u, o) !in d.allows :: u)
  }

  // The two readers are the two ends of one relation.
  lemma Transposes(s: State, k: Kind, u: string, o: string)
    requires k in s.dims
    ensures o in EffectiveDenies(s, k, u) <==> Denied(s, k, u, o)
    ensures u in ObjectDenies(s, k, o) <==> Denied(s, k, u, o)
  {
    var d := s.dims[k];
    if (u, o) in d.denies { assert (u, o).0 == u && (u, o).1 == o; }
    if u in s.users && s.users[u].group != "" && (s.users[u].group, o) in d.byGroup {
      assert (s.users[u].group, o).0 == s.users[u].group;
    }
  }

  // userCols: their own rule set, none if they said so, else their group's.
  function EffectiveRuleset(s: State, u: string): string
    requires u in s.users
  {
    var p := s.users[u];
    if p.ruleset != "" then p.ruleset
    else if p.rulesetNone then ""
    else if p.group in s.groups then s.groups[p.group]
    else ""
  }

  // UserProfileIDs: own grants plus the group's, less anything withheld personally.
  predicate HoldsProfile(s: State, u: string, p: string) {
    ((u, p) in s.own || (u in s.users && s.users[u].group != "" && (s.users[u].group, p) in s.granted)) &&
    (u, p) !in s.withheld
  }

  // ---------- the invariant ----------

  ghost predicate DimOk(d: Dim, users: set<string>, groups: set<string>) {
    && d.denies !! d.allows
    && (forall r :: r in d.denies + d.allows ==> r.0 in users && r.1 in d.universe)
    && (forall r :: r in d.byGroup ==> r.0 in groups && r.1 in d.universe)
  }

  ghost predicate Consistent(s: State) {
    && s.dims.Keys == KINDS
    && "" !in s.groups && "" !in s.users
    && (forall u :: u in s.users ==> s.users[u].group == "" || s.users[u].group in s.groups)
    && (forall k :: k in s.dims ==> DimOk(s.dims[k], s.users.Keys, s.groups.Keys))
  }

  // A group whose access nobody has edited withholds everything there is.
  ghost predicate Withholding(s: State, edited: set<string>) {
    forall k, g, o :: k in s.dims && g in s.groups && g !in edited && o in s.dims[k].universe ==> (g, o) in s.dims[k].byGroup
  }

  // ---------- the whole-set editors ----------

  function RowsNotOf(rows: set<Pair>, u: string): set<Pair> { set r | r in rows && r.0 != u }
  function RowsNotOn(rows: set<Pair>, o: string): set<Pair> { set r | r in rows && r.1 != o }

  // One subscriber's rows rewritten so that they and the group add up to want.
  function UserReset(d: Dim, u: string, group: string, want: set<string>): Dim {
    d.(denies := RowsNotOf(d.denies, u) + (set o | o in d.universe && o in want && !GroupDenies(d, group, o) :: (u, o)),
       allows := RowsNotOf(d.allows, u) + (set o | o in d.universe && o !in want && GroupDenies(d, group, o) :: (u, o)))
  }

  // One object's rows rewritten, whoever's group says what about it.
  function ObjectReset(d: Dim, users: map<string, Person>, o: string, want: set<string>): Dim {
    d.(denies := RowsNotOn(d.denies, o) + (set u | u in users && u in want && !GroupDenies(d, users[u].group, o) :: (u, o)),
       allows := RowsNotOn(d.allows, o) + (set u | u in users && u !in want && GroupDenies(d, users[u].group, o) :: (u, o)))
  }

  // After the editor, the subscriber is refused exactly what was asked, and nobody else changes.
  lemma UserResetExact(d: Dim, u: string, group: string, want: set<string>, v: string, vGroup: string, o: string)
    requires forall r :: r in d.byGroup ==> r.1 in d.universe
    ensures DeniedIn(UserReset(d, u, group, want), group, u, o) <==> o in want && o in d.universe
    ensures v != u ==> (DeniedIn(UserReset(d, u, group, want), vGroup, v, o) <==> DeniedIn(d, vGroup, v, o))
  {
  }

  // No other rows for that subscriber achieve it with an exception fewer.
  lemma UserResetFewest(d: Dim, u: string, group: string, want: set<string>, alt: Dim, o: string)
    requires alt.byGroup == d.byGroup && o in d.universe
    requires DeniedIn(alt, group, u, o) <==> o in want
    ensures (u, o) in UserReset(d, u, group, want).denies ==> (u, o) in alt.denies
    ensures (u, o) in UserReset(d, u, group, want).allows ==> (u, o) in alt.allows && (u, o) !in alt.denies
  {
  }

  lemma ObjectResetExact(d: Dim, users: map<string, Person>, o: string, want: set<string>, u: string, x: string)
    requires u in users
    ensures DeniedIn(ObjectReset(d, users, o, want), users[u].group, u, o) <==> u in want
    ensures x != o ==> (DeniedIn(ObjectReset(d, users, o, want), users[u].group, u, x) <==> DeniedIn(d, users[u].group, u, x))
  {
  }

  lemma ObjectResetFewest(d: Dim, users: map<string, Person>, o: string, want: set<string>, alt: Dim, u: string)
    requires alt.byGroup == d.byGroup && u in users
    requires DeniedIn(alt, users[u].group, u, o) <==> u in want
    ensures (u, o) in ObjectReset(d, users, o, want).denies ==> (u, o) in alt.denies
    ensures (u, o) in ObjectReset(d, users, o, want).allows ==> (u, o) in alt.allows && (u, o) !in alt.denies
  {
  }

  // The two editors are one: resetting an object for the denials it already has, seen from any
  // subscriber, agrees with resetting that subscriber for theirs.
  lemma EditorsAgree(d: Dim, users: map<string, Person>, u: string, o: string, want: set<string>, wantUsers: set<string>)
    requires u in users && o in d.universe && (o in want <==> u in wantUsers)
    ensures (u, o) in UserReset(d, u, users[u].group, want).denies <==> (u, o) in ObjectReset(d, users, o, wantUsers).denies
    ensures (u, o) in UserReset(d, u, users[u].group, want).allows <==> (u, o) in ObjectReset(d, users, o, wantUsers).allows
  {
  }

  // ---------- leaving a group ----------

  // The group's decisions folded into one member's own rows.
  function DimDetached(d: Dim, u: string, g: string): Dim {
    d.(denies := d.denies + (set r | r in d.byGroup && r.0 == g && (u, r.1) !in d.allows :: (u, r.1)),
       allows := RowsNotOf(d.allows, u))
  }

  function Detached(s: State, u: string, g: string): State
    requires u in s.users
  {
    var p := s.users[u];
    var ruleset := if p.ruleset == "" && !p.rulesetNone && g in s.groups then s.groups[g] else p.ruleset;
    s.(own := s.own + (set r | r in s.granted && r.0 == g && (u, r.1) !in s.withheld :: (u, r.1)),
       withheld := RowsNotOf(s.withheld, u),
       dims := map k | k in s.dims :: DimDetached(s.dims[k], u, g),
       users := s.users[u := p.(ruleset := ruleset)])
  }

  function Left(s: State, u: string): State
    requires u in s.users
  {
    var d := Detached(s, u, s.users[u].group);
    d.(users := d.users[u := d.users[u].(group := "")])
  }

  // Leaving changes no denial and no rule set, for the member or anyone else.
  lemma LeavingChangesNoDenial(s: State, u: string, k: Kind, v: string, o: string)
    requires Consistent(s) && u in s.users && s.users[u].group != "" && k in s.dims
    ensures k in Left(s, u).dims
    ensures Denied(Left(s, u), k, v, o) <==> Denied(s, k, v, o)
  {
    var d := s.dims[k];
    var g := s.users[u].group;
    if (g, o) in d.byGroup { assert (g, o).0 == g && (g, o).1 == o; }
  }

  lemma LeavingChangesNoRuleset(s: State, u: string, v: string)
    requires Consistent(s) && u in s.users && s.users[u].group != "" && v in s.users
    ensures v in Left(s, u).users && EffectiveRuleset(Left(s, u), v) == EffectiveRuleset(s, v)
  {
  }

  // Profiles are another matter: a grant of the subscriber's own that was also withheld from
  // them comes back into force, because leaving forgets what was withheld.
  lemma LeavingChangesProfiles(s: State, u: string, p: string)
    requires Consistent(s) && u in s.users && s.users[u].group != ""
    ensures HoldsProfile(Left(s, u), u, p) <==> HoldsProfile(s, u, p) || (u, p) in s.own
  {
    var g := s.users[u].group;
    if (g, p) in s.granted { assert (g, p).0 == g && (g, p).1 == p; }
  }

  lemma LeavingKeepsProfilesExactly(s: State, u: string)
    requires Consistent(s) && u in s.users && s.users[u].group != ""
    ensures (forall p :: HoldsProfile(Left(s, u), u, p) <==> HoldsProfile(s, u, p)) <==>
            !exists p :: (u, p) in s.own && (u, p) in s.withheld
  {
    forall p ensures HoldsProfile(Left(s, u), u, p) <==> HoldsProfile(s, u, p) || (u, p) in s.own {
      LeavingChangesProfiles(s, u, p);
    }
  }

  lemma LeavingKeepsOthersProfiles(s: State, u: string, v: string, p: string)
    requires Consistent(s) && u in s.users && v != u
    ensures HoldsProfile(Left(s, u), v, p) <==> HoldsProfile(s, v, p)
  {
  }

  // ---------- joining a group ----------

  function DimCleared(d: Dim, u: string): Dim {
    d.(denies := RowsNotOf(d.denies, u), allows := RowsNotOf(d.allows, u))
  }

  function Joined(s: State, u: string, g: string): State
    requires u in s.users
  {
    s.(users := s.users[u := s.users[u].(group := g)],
       own := RowsNotOf(s.own, u), withheld := RowsNotOf(s.withheld, u),
       dims := map k | k in s.dims :: DimCleared(s.dims[k], u))
  }

  // A new member is refused exactly what the group refuses; nobody else is touched.
  lemma JoiningTakesTheGroups(s: State, u: string, g: string, k: Kind, v: string, o: string)
    requires Consistent(s) && u in s.users && g != "" && k in s.dims
    ensures k in Joined(s, u, g).dims
    ensures Denied(Joined(s, u, g), k, u, o) <==> (g, o) in s.dims[k].byGroup
    ensures v != u ==> (Denied(Joined(s, u, g), k, v, o) <==> Denied(s, k, v, o))
    ensures HoldsProfile(Joined(s, u, g), u, o) <==> (g, o) in s.granted
  {
  }

  // Nobody gains by a change that moves them: what was refused is refused, what is held was held.
  ghost predicate GainsNothing(s: State, s': State, u: string)
    requires s.dims.Keys == s'.dims.Keys
  {
    && (forall k, o :: k in s.dims && Denied(s, k, u, o) ==> Denied(s', k, u, o))
    && (forall p :: HoldsProfile(s', u, p) ==> HoldsProfile(s, u, p))
  }

  // Leaving gains a subscriber nothing exactly when no grant of their own was withheld from them.
  lemma LeavingGainsNothingExactly(s: State, u: string)
    requires Consistent(s) && u in s.users && s.users[u].group != ""
    ensures Left(s, u).dims.Keys == s.dims.Keys
    ensures GainsNothing(s, Left(s, u), u) <==> !exists p :: (u, p) in s.own && (u, p) in s.withheld
  {
    forall k, o | k in s.dims ensures Denied(Left(s, u), k, u, o) <==> Denied(s, k, u, o) {
      LeavingChangesNoDenial(s, u, k, u, o);
    }
    forall p ensures HoldsProfile(Left(s, u), u, p) <==> HoldsProfile(s, u, p) || (u, p) in s.own {
      LeavingChangesProfiles(s, u, p);
    }
    if p :| (u, p) in s.own && (u, p) in s.withheld {
      assert HoldsProfile(Left(s, u), u, p) && !HoldsProfile(s, u, p);
    }
  }

  // Joining gains them nothing exactly when the group refuses all they were refused, and grants
  // only what they held.
  lemma JoiningGainsNothingExactly(s: State, u: string, g: string)
    requires Consistent(s) && u in s.users && g != ""
    ensures Joined(s, u, g).dims.Keys == s.dims.Keys
    ensures GainsNothing(s, Joined(s, u, g), u) <==>
            (forall k, o :: k in s.dims && Denied(s, k, u, o) ==> (g, o) in s.dims[k].byGroup) &&
            (forall p :: (g, p) in s.granted ==> HoldsProfile(s, u, p))
  {
    var s' := Joined(s, u, g);
    forall k, o | k in s.dims ensures Denied(s', k, u, o) <==> (g, o) in s.dims[k].byGroup {
      JoiningTakesTheGroups(s, u, g, k, u, o);
    }
    forall p ensures HoldsProfile(s', u, p) <==> (g, p) in s.granted {
      JoiningTakesTheGroups(s, u, g, KNode, u, p);
    }
  }

  // A subscriber refused a node gains it by joining a group that withholds nothing.
  lemma GainByJoining(u: string, g: string, n: string)
    requires u != "" && g != ""
    ensures var open := Dim({}, {}, {}, {});
            var s := State(map[u := Person("", "", false)], map[g := ""],
                           map[KNode := Dim({(u, n)}, {}, {}, {n}), KRelay := open, KExternal := open], {}, {}, {});
            && Consistent(s) && Denied(s, KNode, u, n) && !Denied(Joined(s, u, g), KNode, u, n)
            && !exists p :: (u, p) in s.own && (u, p) in s.withheld
  {
    var open := Dim({}, {}, {}, {});
    var s := State(map[u := Person("", "", false)], map[g := ""],
                   map[KNode := Dim({(u, n)}, {}, {}, {n}), KRelay := open, KExternal := open], {}, {}, {});
    forall k | k in s.dims ensures DimOk(s.dims[k], s.users.Keys, s.groups.Keys) {}
    JoiningTakesTheGroups(s, u, g, KNode, u, n);
  }

  // ---------- what the other operations write ----------

  // A new object is denied to every subscriber and every group there is.
  function DimWith(d: Dim, users: set<string>, groups: set<string>, id: string): Dim {
    Dim(d.denies + (set u | u in users :: (u, id)), d.allows,
        d.byGroup + (set g | g in groups :: (g, id)), d.universe + {id})
  }

  function DimWithout(d: Dim, id: string): Dim {
    Dim(RowsNotOn(d.denies, id), RowsNotOn(d.allows, id), RowsNotOn(d.byGroup, id), d.universe - {id})
  }

  // A new subscriber, and a new group, start refused everything there is.
  function DimForUser(d: Dim, u: string): Dim { d.(denies := d.denies + (set o | o in d.universe :: (u, o))) }
  function DimForGroup(d: Dim, g: string): Dim { d.(byGroup := d.byGroup + (set o | o in d.universe :: (g, o))) }

  function DimGroupSet(d: Dim, g: string, denied: set<string>): Dim {
    d.(byGroup := RowsNotOf(d.byGroup, g) + (set o | o in denied :: (g, o)))
  }

  function DimException(d: Dim, u: string, o: string, allow: bool, clear: bool): Dim {
    d.(denies := d.denies - {(u, o)} + (if clear || allow then {} else {(u, o)}),
       allows := d.allows - {(u, o)} + (if !clear && allow then {(u, o)} else {}))
  }

  function ProfileSet(s: State, u: string, p: string, grant: bool, clear: bool): State {
    s.(own := s.own - {(u, p)} + (if !clear && grant then {(u, p)} else {}),
       withheld := s.withheld - {(u, p)} + (if clear || grant then {} else {(u, p)}))
  }

  function ProfileBound(s: State, u: string, p: string): State { s.(own := s.own + {(u, p)}) }

  // How a member gains a profile by leaving: it is withheld from them, later bound to them, which
  // changes nothing, and then they leave.
  lemma GainByLeaving(s: State, u: string, p: string)
    requires Consistent(s) && u in s.users && s.users[u].group != ""
    ensures var s' := ProfileBound(ProfileSet(s, u, p, false, false), u, p);
            Consistent(s') && !HoldsProfile(s', u, p) && HoldsProfile(Left(s', u), u, p)
  {
    var s' := ProfileBound(ProfileSet(s, u, p, false, false), u, p);
    LeavingChangesProfiles(s', u, p);
  }

  // ---------- deleting a group ----------

  // A group deleted after its members were detached: nothing else mentions it.
  function GroupGone(s: State, g: string): State {
    s.(groups := s.groups - {g}, granted := RowsNotOf(s.granted, g),
       users := map u | u in s.users :: if s.users[u].group == g then s.users[u].(group := "") else s.users[u],
       dims := map k | k in s.dims :: s.dims[k].(byGroup := RowsNotOf(s.dims[k].byGroup, g)))
  }

  // What everyone holds, as far as denials and rule sets go.
  ghost predicate SameAnswers(s: State, s': State) {
    && s'.users.Keys == s.users.Keys && s'.dims.Keys == s.dims.Keys
    && (forall k, v, o :: k in s.dims ==> (Denied(s', k, v, o) <==> Denied(s, k, v, o)))
    && (forall v :: v in s.users ==> EffectiveRuleset(s', v) == EffectiveRuleset(s, v))
  }

  // u's own rows alone now give the answers u had in s0, with the group out of the picture.
  ghost predicate Settled(s0: State, s: State, u: string) {
    && u in s0.users && u in s.users
    && s.users[u].ruleset == EffectiveRuleset(s0, u)
    && forall k, o :: k in s.dims && k in s0.dims ==>
         ((u, o) in s.dims[k].denies <==> Denied(s0, k, u, o)) && (u, o) !in s.dims[k].allows
  }

  ghost predicate Untouched(s0: State, s: State, u: string) {
    && (u in s0.users ==> u in s.users && s.users[u] == s0.users[u])
    && forall k, o :: k in s.dims && k in s0.dims ==>
         ((u, o) in s.dims[k].denies <==> (u, o) in s0.dims[k].denies) &&
         ((u, o) in s.dims[k].allows <==> (u, o) in s0.dims[k].allows)
  }

  // Part way through deleting g: the members in done are settled, everybody else as before.
  ghost predicate Detaching(s0: State, s: State, g: string, done: set<string>) {
    && s.users.Keys == s0.users.Keys && s.groups == s0.groups && s.dims.Keys == s0.dims.Keys
    && (forall k :: k in s.dims ==> s.dims[k].byGroup == s0.dims[k].byGroup && s.dims[k].universe == s0.dims[k].universe)
    && (forall u :: u in done ==> Settled(s0, s, u) && s.users[u].group == g)
    && (forall u :: u !in done ==> Untouched(s0, s, u))
  }

  lemma DetachSettles(s0: State, s: State, g: string, done: set<string>, u: string)
    requires Consistent(s0) && Detaching(s0, s, g, done) && g != ""
    requires u in s.users && u !in done && s0.users[u].group == g
    ensures Settled(s0, Detached(s, u, g), u) && Detached(s, u, g).users[u].group == g
  {
    assert Untouched(s0, s, u);
    forall k, o | k in s.dims
      ensures ((u, o) in Detached(s, u, g).dims[k].denies <==> Denied(s0, k, u, o))
    {
      if (g, o) in s.dims[k].byGroup { assert (g, o).0 == g && (g, o).1 == o; }
    }
  }

  lemma DetachOne(s0: State, s: State, g: string, done: set<string>, u: string)
    requires Consistent(s0) && Detaching(s0, s, g, done) && g != ""
    requires u in s.users && u !in done && s0.users[u].group == g
    ensures Detaching(s0, Detached(s, u, g), g, done + {u})
  {
    DetachSettles(s0, s, g, done, u);
    var s' := Detached(s, u, g);
    forall v | v != u
      ensures v in done ==> Settled(s0, s', v) && s'.users[v].group == g
      ensures v !in done ==> Untouched(s0, s', v)
    {
      assert v in done ==> Settled(s0, s, v);
      assert v !in done ==> Untouched(s0, s, v);
    }
  }

  lemma GroupGoneDenied(s0: State, s: State, g: string, done: set<string>, k: Kind, v: string, o: string)
    requires Consistent(s0) && Detaching(s0, s, g, done) && g in s.groups && k in s.dims
    requires forall u :: u in s0.users && s0.users[u].group == g ==> u in done
    ensures Denied(GroupGone(s, g), k, v, o) <==> Denied(s0, k, v, o)
  {
    if v in done {
      assert Settled(s0, s, v);
    } else {
      assert Untouched(s0, s, v);
    }
  }

  // Once every member is settled the group can go: no answer changes for anyone.
  lemma GroupGoneSame(s0: State, s: State, g: string, done: set<string>)
    requires Consistent(s0) && Detaching(s0, s, g, done) && g in s.groups
    requires forall u :: u in s0.users && s0.users[u].group == g ==> u in done
    ensures SameAnswers(s0, GroupGone(s, g))
  {
    var s' := GroupGone(s, g);
    forall k, v, o | k in s.dims ensures Denied(s', k, v, o) <==> Denied(s0, k, v, o) {
      GroupGoneDenied(s0, s, g, done, k, v, o);
    }
    forall v | v in s.users ensures EffectiveRuleset(s', v) == EffectiveRuleset(s0, v) {
      assert v in done ==> Settled(s0, s, v);
      assert v !in done ==> Untouched(s0, s, v);
    }
  }

  // The same for profiles: the members in done hold what they held and what is their own, by their
  // own rows alone; everybody else's rows are as before.
  ghost predicate ProfilesDetaching(s0: State, s: State, done: set<string>) {
    && s.granted == s0.granted
    && forall u, p ::
         if u in done then ((u, p) in s.own <==> HoldsProfile(s0, u, p) || (u, p) in s0.own) && (u, p) !in s.withheld
         else ((u, p) in s.own <==> (u, p) in s0.own) && ((u, p) in s.withheld <==> (u, p) in s0.withheld)
  }

  lemma DetachOneProfiles(s0: State, s: State, g: string, done: set<string>, u: string)
    requires ProfilesDetaching(s0, s, done) && g != ""
    requires u in s.users && u !in done && u in s0.users && s0.users[u].group == g
    ensures ProfilesDetaching(s0, Detached(s, u, g), done + {u})
  {
    var s' := Detached(s, u, g);
    forall v, p
      ensures if v in done + {u} then ((v, p) in s'.own <==> HoldsProfile(s0, v, p) || (v, p) in s0.own) && (v, p) !in s'.withheld
              else ((v, p) in s'.own <==> (v, p) in s0.own) && ((v, p) in s'.withheld <==> (v, p) in s0.withheld)
    {
      if v == u && (g, p) in s.granted { assert (g, p).0 == g && (g, p).1 == p; }
    }
  }

  // What deleting a group does to anybody's profiles: a member holds afterwards what they held or
  // were granted personally, and nobody else's change.
  ghost predicate ProfilesAfterGroup(s0: State, s': State, g: string) {
    forall u, p :: HoldsProfile(s', u, p) <==>
      HoldsProfile(s0, u, p) || (u in s0.users && s0.users[u].group == g && (u, p) in s0.own)
  }

  lemma GroupGoneProfiles(s0: State, s: State, g: string, done: set<string>)
    requires Consistent(s0) && Detaching(s0, s, g, done) && ProfilesDetaching(s0, s, done) && g in s.groups
    requires forall u :: u in s0.users && s0.users[u].group == g <==> u in done
    ensures ProfilesAfterGroup(s0, GroupGone(s, g), g)
  {
    var s' := GroupGone(s, g);
    forall u, p ensures HoldsProfile(s', u, p) <==>
                        HoldsProfile(s0, u, p) || (u in s0.users && s0.users[u].group == g && (u, p) in s0.own)
    {
      if u in done { assert Settled(s0, s, u); } else { assert Untouched(s0, s, u); }
    }
  }

  // So dissolving a group keeps everybody's profiles exactly when none of its members had a grant
  // of their own withheld.
  lemma DissolvingKeepsProfilesExactly(s0: State, s': State, g: string)
    requires ProfilesAfterGroup(s0, s', g)
    ensures (forall u, p :: HoldsProfile(s', u, p) <==> HoldsProfile(s0, u, p)) <==>
            !exists u, p :: u in s0.users && s0.users[u].group == g && (u, p) in s0.own && (u, p) in s0.withheld
  {
    if u, p :| u in s0.users && s0.users[u].group == g && (u, p) in s0.own && (u, p) in s0.withheld {
      assert HoldsProfile(s', u, p) && !HoldsProfile(s0, u, p);
    }
  }

  // ---------- what every operation keeps ----------

  function WithObject(s: State, k: Kind, id: string): State
    requires k in s.dims
  {
    s.(dims := s.dims[k := DimWith(s.dims[k], s.users.Keys, s.groups.Keys, id)])
  }

  function WithoutObject(s: State, k: Kind, id: string): State
    requires k in s.dims
  {
    s.(dims := s.dims[k := DimWithout(s.dims[k], id)])
  }

  function WithGroupSet(s: State, g: string, denied: map<Kind, set<string>>): State
    requires s.dims.Keys <= denied.Keys
  {
    s.(dims := map k | k in s.dims :: DimGroupSet(s.dims[k], g, denied[k]))
  }

  // The rows a group editor would insert name things that exist.
  ghost predicate InsertsFit(s: State, g: string, denied: map<Kind, set<string>>)
    requires s.dims.Keys == denied.Keys == KINDS
  {
    && (forall k :: k in KINDS ==> denied[k] <= s.dims[k].universe)
    && (g in s.groups || forall k :: k in KINDS ==> denied[k] == {})
  }

  lemma OtherDims(s: State, k: Kind, d: Dim)
    requires Consistent(s) && k in s.dims && DimOk(d, s.users.Keys, s.groups.Keys)
    ensures Consistent(s.(dims := s.dims[k := d]))
  {
  }

  lemma NewObjectDenied(s: State, k: Kind, id: string, j: Kind, u: string, o: string)
    requires Consistent(s) && k in s.dims && id !in s.dims[k].universe && j in s.dims
    ensures var s' := WithObject(s, k, id);
            if j == k && o == id then u in s.users ==> Denied(s', j, u, o)
            else Denied(s', j, u, o) <==> Denied(s, j, u, o)
  {
  }

  lemma ObjectAdded(s: State, edited: set<string>, k: Kind, id: string)
    requires Consistent(s) && Withholding(s, edited) && k in s.dims && id !in s.dims[k].universe
    ensures var s' := WithObject(s, k, id);
            && Consistent(s') && Withholding(s', edited)
            && (forall u :: u in s.users ==> Denied(s', k, u, id))
            && forall j, u, o :: j in s.dims && (j != k || o != id) ==> (Denied(s', j, u, o) <==> Denied(s, j, u, o))
  {
    var d := DimWith(s.dims[k], s.users.Keys, s.groups.Keys, id);
    assert DimOk(s.dims[k], s.users.Keys, s.groups.Keys);
    assert DimOk(d, s.users.Keys, s.groups.Keys);
    OtherDims(s, k, d);
    var s' := WithObject(s, k, id);
    forall j, g, o | j in s'.dims && g in s'.groups && g !in edited && o in s'.dims[j].universe
      ensures (g, o) in s'.dims[j].byGroup
    {
      assert o in s.dims[j].universe ==> (g, o) in s.dims[j].byGroup;
    }
    forall u | u in s.users ensures Denied(s', k, u, id) { NewObjectDenied(s, k, id, k, u, id); }
    forall j, u, o | j in s.dims && (j != k || o != id) ensures Denied(s', j, u, o) <==> Denied(s, j, u, o) {
      NewObjectDenied(s, k, id, j, u, o);
    }
  }

  function WithUser(s: State, u: string): State {
    s.(users := s.users[u := Person("", "", false)], dims := map k | k in s.dims :: DimForUser(s.dims[k], u))
  }

  lemma UserAdded(s: State, edited: set<string>, u: string)
    requires Consistent(s) && Withholding(s, edited) && u !in s.users && u != ""
    ensures Consistent(WithUser(s, u)) && Withholding(WithUser(s, u), edited)
    ensures forall k, o :: k in s.dims && o in s.dims[k].universe ==> Denied(WithUser(s, u), k, u, o)
  {
    var s' := WithUser(s, u);
    forall k | k in s'.dims ensures DimOk(s'.dims[k], s'.users.Keys, s'.groups.Keys) {
      assert DimOk(s.dims[k], s.users.Keys, s.groups.Keys);
    }
  }

  function WithGroup(s: State, g: string): State {
    s.(groups := s.groups[g := ""], dims := map k | k in s.dims :: DimForGroup(s.dims[k], g))
  }

  lemma GroupAdded(s: State, edited: set<string>, g: string)
    requires Consistent(s) && Withholding(s, edited) && g !in s.groups && g != ""
    ensures Consistent(WithGroup(s, g)) && Withholding(WithGroup(s, g), edited)
  {
    var s' := WithGroup(s, g);
    forall k | k in s'.dims ensures DimOk(s'.dims[k], s'.users.Keys, s'.groups.Keys) {
      assert DimOk(s.dims[k], s.users.Keys, s.groups.Keys);
    }
  }

  lemma ObjectRemoved(s: State, edited: set<string>, k: Kind, id: string)
    requires Consistent(s) && Withholding(s, edited) && k in s.dims
    ensures var s' := WithoutObject(s, k, id);
            && Consistent(s') && Withholding(s', edited)
            && forall j, u, o :: j in s.dims && (j != k || o != id) ==> (Denied(s', j, u, o) <==> Denied(s, j, u, o))
  {
    assert DimOk(s.dims[k], s.users.Keys, s.groups.Keys);
    OtherDims(s, k, DimWithout(s.dims[k], id));
  }

  lemma GroupEdited(s: State, edited: set<string>, g: string, denied: map<Kind, set<string>>)
    requires Consistent(s) && Withholding(s, edited) && denied.Keys == KINDS && InsertsFit(s, g, denied)
    ensures Consistent(WithGroupSet(s, g, denied)) && Withholding(WithGroupSet(s, g, denied), edited + {g})
  {
    var s' := WithGroupSet(s, g, denied);
    forall k | k in s'.dims ensures DimOk(s'.dims[k], s'.users.Keys, s'.groups.Keys) {
      assert DimOk(s.dims[k], s.users.Keys, s.groups.Keys);
    }
  }

  function WithDim(s: State, k: Kind, d: Dim): State { s.(dims := s.dims[k := d]) }

  predicate RefusedByGroup(s: State, k: Kind, u: string, o: string)
    requires k in s.dims
  {
    u in s.users && s.users[u].group != "" && (s.users[u].group, o) in s.dims[k].byGroup
  }

  // One exception decides the answer it is about; without one the group does. No other answer moves.
  lemma ExceptionDecides(s: State, k: Kind, u: string, o: string, allow: bool, clear: bool)
    requires k in s.dims
    ensures var s' := WithDim(s, k, DimException(s.dims[k], u, o, allow, clear));
            && (Denied(s', k, u, o) <==> if clear then RefusedByGroup(s', k, u, o) else !allow)
            && forall j, v, x :: j in s.dims && (j, v, x) != (k, u, o) ==> (Denied(s', j, v, x) <==> Denied(s, j, v, x))
  {
  }

  // A group's list decides for its members, save their exceptions.
  lemma GroupListDecides(s: State, g: string, denied: map<Kind, set<string>>, k: Kind, v: string, o: string)
    requires s.dims.Keys <= denied.Keys && k in s.dims
    ensures var s' := WithGroupSet(s, g, denied);
            var own := (v, o) in s.dims[k].denies + s.dims[k].allows;
            && s'.dims[k].denies == s.dims[k].denies && s'.dims[k].allows == s.dims[k].allows
            && (v in s.users && s.users[v].group == g && !own ==> (Denied(s', k, v, o) <==> o in denied[k] && g != ""))
            && (v !in s.users || s.users[v].group != g || own ==> (Denied(s', k, v, o) <==> Denied(s, k, v, o)))
  {
  }

  ghost predicate GroupListed(s: State, s': State, g: string, denied: map<Kind, set<string>>)
    requires s.dims.Keys == s'.dims.Keys <= denied.Keys
  {
    forall k, v, o :: k in s.dims ==>
      (Denied(s', k, v, o) <==>
        if v in s.users && s.users[v].group == g && (v, o) !in s.dims[k].denies && (v, o) !in s.dims[k].allows
        then o in denied[k] && g != ""
        else Denied(s, k, v, o))
  }

  lemma GroupListApplied(s: State, g: string, denied: map<Kind, set<string>>)
    requires s.dims.Keys <= denied.Keys
    ensures GroupListed(s, WithGroupSet(s, g, denied), g, denied)
  {
    var s' := WithGroupSet(s, g, denied);
    forall k, v, o | k in s.dims
      ensures Denied(s', k, v, o) <==>
        if v in s.users && s.users[v].group == g && (v, o) !in s.dims[k].denies && (v, o) !in s.dims[k].allows
        then o in denied[k] && g != ""
        else Denied(s, k, v, o)
    {
      GroupListDecides(s, g, denied, k, v, o);
    }
  }

  lemma UserResetConsistent(s: State, edited: set<string>, k: Kind, u: string, want: set<string>)
    requires Consistent(s) && Withholding(s, edited) && k in s.dims && u in s.users
    ensures var s' := WithDim(s, k, UserReset(s.dims[k], u, s.users[u].group, want));
            Consistent(s') && Withholding(s', edited)
  {
    var d := UserReset(s.dims[k], u, s.users[u].group, want);
    assert DimOk(s.dims[k], s.users.Keys, s.groups.Keys);
    assert DimOk(d, s.users.Keys, s.groups.Keys);
    OtherDims(s, k, d);
  }

  // One dimension after its rows were reset: the list, no more and no less, and nobody else's rows.
  lemma UserDimApplied(s: State, s': State, k: Kind, u: string, want: set<string>)
    requires Consistent(s) && u in s.users && k in s.dims && k in s'.dims && s'.users == s.users
    requires s'.dims[k] == UserReset(s.dims[k], u, s.users[u].group, want)
    ensures EffectiveDenies(s', k, u) == want * s'.dims[k].universe
    ensures forall v, o :: v != u ==> (Denied(s', k, v, o) <==> Denied(s, k, v, o))
  {
    var d := s.dims[k];
    assert DimOk(d, s.users.Keys, s.groups.Keys);
    forall o ensures o in EffectiveDenies(s', k, u) <==> o in want * s'.dims[k].universe {
      Transposes(s', k, u, o);
      UserResetExact(d, u, s.users[u].group, want, u, s.users[u].group, o);
    }
    forall v, o | v != u ensures Denied(s', k, v, o) <==> Denied(s, k, v, o) {
      UserResetExact(d, u, s.users[u].group, want, v, if v in s.users then s.users[v].group else "", o);
    }
  }

  function WithUserList(s: State, u: string, denied: map<Kind, set<string>>): State
    requires u in s.users && s.dims.Keys <= denied.Keys
  {
    s.(dims := map k | k in s.dims :: UserReset(s.dims[k], u, s.users[u].group, denied[k]))
  }

  // The editor's three passes, one per dimension, are the one list.
  lemma ThreePasses(s: State, u: string, denied: map<Kind, set<string>>, s1: State, s2: State, s3: State)
    requires s.dims.Keys == denied.Keys == KINDS && u in s.users
    requires s1 == WithDim(s, KNode, UserReset(s.dims[KNode], u, s.users[u].group, denied[KNode]))
    requires KExternal in s1.dims
    requires s2 == WithDim(s1, KExternal, UserReset(s1.dims[KExternal], u, s.users[u].group, denied[KExternal]))
    requires KRelay in s2.dims
    requires s3 == WithDim(s2, KRelay, UserReset(s2.dims[KRelay], u, s.users[u].group, denied[KRelay]))
    ensures s3 == WithUserList(s, u, denied)
  {
    forall k | k in s.dims ensures s3.dims[k] == WithUserList(s, u, denied).dims[k] {
      assert k in KINDS;
    }
  }

  lemma UserListApplied(s: State, u: string, denied: map<Kind, set<string>>)
    requires Consistent(s) && u in s.users && denied.Keys == KINDS
    ensures var s' := WithUserList(s, u, denied);
            forall k :: k in s'.dims ==> EffectiveDenies(s', k, u) == denied[k] * s'.dims[k].universe
    ensures var s' := WithUserList(s, u, denied);
            forall k, v, o :: k in s'.dims && v != u ==> (Denied(s', k, v, o) <==> Denied(s, k, v, o))
  {
    var s' := WithUserList(s, u, denied);
    forall k | k in s'.dims
      ensures EffectiveDenies(s', k, u) == denied[k] * s'.dims[k].universe
      ensures forall v, o :: v != u ==> (Denied(s', k, v, o) <==> Denied(s, k, v, o))
    {
      UserDimApplied(s, s', k, u, denied[k]);
    }
  }

  lemma ObjectResetOk(s: State, k: Kind, o: string, want: set<string>)
    requires Consistent(s) && k in s.dims
    requires o in s.dims[k].universe || want * s.users.Keys == {}
    ensures DimOk(ObjectReset(s.dims[k], s.users, o, want), s.users.Keys, s.groups.Keys)
  {
    var d := s.dims[k];
    assert DimOk(d, s.users.Keys, s.groups.Keys);
    var d' := ObjectReset(d, s.users, o, want);
    forall r | r in d'.denies + d'.allows ensures r.0 in s.users && r.1 in d'.universe {
      if r !in d.denies + d.allows {
        assert r.1 == o && r.0 in s.users;
        if r in d'.denies {
          assert r.0 in want * s.users.Keys;
        } else {
          assert (s.users[r.0].group, o) in d.byGroup;
          assert (s.users[r.0].group, o).1 == o;
        }
      }
    }
  }

  lemma ObjectListPoint(s: State, k: Kind, o: string, want: set<string>, j: Kind, u: string, x: string)
    requires Consistent(s) && k in s.dims && j in s.dims
    ensures var s' := WithDim(s, k, ObjectReset(s.dims[k], s.users, o, want));
            j in s'.dims && if j == k && x == o
            then (u in ObjectDenies(s', k, o) <==> u in want * s.users.Keys)
            else (Denied(s', j, u, x) <==> Denied(s, j, u, x))
  {
    var s' := WithDim(s, k, ObjectReset(s.dims[k], s.users, o, want));
    assert DimOk(s.dims[k], s.users.Keys, s.groups.Keys);
    if u in s.users { ObjectResetExact(s.dims[k], s.users, o, want, u, x); }
    Transposes(s', k, u, o);
  }

  lemma ObjectListApplied(s: State, edited: set<string>, k: Kind, o: string, want: set<string>)
    requires Consistent(s) && Withholding(s, edited) && k in s.dims
    requires o in s.dims[k].universe || want * s.users.Keys == {}
    ensures var s' := WithDim(s, k, ObjectReset(s.dims[k], s.users, o, want));
            && Consistent(s') && Withholding(s', edited)
            && ObjectDenies(s', k, o) == want * s.users.Keys
    ensures var s' := WithDim(s, k, ObjectReset(s.dims[k], s.users, o, want));
            forall j, u, x :: j in s.dims && (j != k || x != o) ==> (Denied(s', j, u, x) <==> Denied(s, j, u, x))
  {
    var d := ObjectReset(s.dims[k], s.users, o, want);
    ObjectResetOk(s, k, o, want);
    OtherDims(s, k, d);
    var s' := WithDim(s, k, d);
    assert Withholding(s', edited);
    forall u ensures u in ObjectDenies(s', k, o) <==> u in want * s.users.Keys {
      ObjectListPoint(s, k, o, want, k, u, o);
    }
    forall j, u, x | j in s.dims && (j != k || x != o) ensures Denied(s', j, u, x) <==> Denied(s, j, u, x) {
      ObjectListPoint(s, k, o, want, j, u, x);
    }
  }

  lemma JoinedConsistent(s: State, edited: set<string>, u: string, g: string)
    requires Consistent(s) && Withholding(s, edited) && u in s.users && g in s.groups
    ensures Consistent(Joined(s, u, g)) && Withholding(Joined(s, u, g), edited)
  {
    var s' := Joined(s, u, g);
    forall k | k in s'.dims ensures DimOk(s'.dims[k], s'.users.Keys, s'.groups.Keys) {
      assert DimOk(s.dims[k], s.users.Keys, s.groups.Keys);
    }
  }

  lemma DetachedDimOk(d: Dim, users: set<string>, groups: set<string>, u: string, g: string)
    requires DimOk(d, users, groups) && u in users
    ensures DimOk(DimDetached(d, u, g), users, groups)
  {
  }

  lemma LeftConsistent(s: State, edited: set<string>, u: string)
    requires Consistent(s) && Withholding(s, edited) && u in s.users && s.users[u].group != ""
    ensures Consistent(Left(s, u)) && Withholding(Left(s, u), edited) && SameAnswers(s, Left(s, u))
  {
    var s' := Left(s, u);
    forall k | k in s'.dims ensures DimOk(s'.dims[k], s'.users.Keys, s'.groups.Keys) {
      DetachedDimOk(s.dims[k], s.users.Keys, s.groups.Keys, u, s.users[u].group);
      assert s'.users.Keys == s.users.Keys;
    }
    forall k, v, o | k in s.dims ensures Denied(s', k, v, o) <==> Denied(s, k, v, o) {
      LeavingChangesNoDenial(s, u, k, v, o);
    }
    forall v | v in s.users ensures EffectiveRuleset(s', v) == EffectiveRuleset(s, v) {
      LeavingChangesNoRuleset(s, u, v);
    }
  }

  lemma RowsAfterDetaching(s0: State, s: State, g: string, done: set<string>, k: Kind, u: string, o: string)
    requires Consistent(s0) && Detaching(s0, s, g, done) && k in s.dims
    ensures (u, o) in s.dims[k].denies + s.dims[k].allows ==> u in s.users && o in s.dims[k].universe
    ensures !((u, o) in s.dims[k].denies && (u, o) in s.dims[k].allows)
  {
    var d := s0.dims[k];
    assert DimOk(d, s0.users.Keys, s0.groups.Keys);
    if u in done {
      assert Settled(s0, s, u);
      if (u, o) !in d.denies && Denied(s0, k, u, o) { assert (s0.users[u].group, o) in d.byGroup && (s0.users[u].group, o).1 == o; }
      if (u, o) in d.denies { assert (u, o).1 == o; }
    } else {
      assert Untouched(s0, s, u);
      if (u, o) in d.denies + d.allows { assert (u, o).0 == u && (u, o).1 == o; }
    }
  }

  lemma GroupGoneDimOk(s0: State, s: State, g: string, done: set<string>, k: Kind)
    requires Consistent(s0) && Detaching(s0, s, g, done) && k in s.dims
    ensures DimOk(GroupGone(s, g).dims[k], s.users.Keys, s.groups.Keys - {g})
  {
    var d := s.dims[k];
    assert DimOk(s0.dims[k], s0.users.Keys, s0.groups.Keys);
    forall r | r in d.denies + d.allows
      ensures r.0 in s.users && r.1 in d.universe && !(r in d.denies && r in d.allows)
    {
      assert r == (r.0, r.1);
      RowsAfterDetaching(s0, s, g, done, k, r.0, r.1);
    }
  }

  lemma GroupGoneConsistent(s0: State, s: State, edited: set<string>, g: string, done: set<string>)
    requires Consistent(s0) && Withholding(s0, edited) && Detaching(s0, s, g, done) && g in s.groups
    ensures Consistent(GroupGone(s, g)) && Withholding(GroupGone(s, g), edited)
  {
    var s' := GroupGone(s, g);
    assert s'.users.Keys == s.users.Keys && s'.groups.Keys == s.groups.Keys - {g};
    forall k | k in s'.dims ensures DimOk(s'.dims[k], s'.users.Keys, s'.groups.Keys) {
      GroupGoneDimOk(s0, s, g, done, k);
    }
    forall u | u in s'.users ensures s'.users[u].group == "" || s'.users[u].group in s'.groups {
      assert u in done ==> Settled(s0, s, u);
      assert u !in done ==> Untouched(s0, s, u);
    }
  }

  lemma GroupGoneOthers(s0: State, s: State, g: string, done: set<string>, u: string)
    requires Detaching(s0, s, g, done) && u in s0.users && s0.users[u].group != g
    requires forall v :: v in done ==> v in s0.users && s0.users[v].group == g
    ensures u in s.users && GroupGone(s, g).users[u] == s0.users[u]
  {
    assert Untouched(s0, s, u);
  }

  // ---------- the store ----------

  class Store {
    var users: map<string, Person>
    var groups: map<string, string>
    var dims: map<Kind, Dim>
    var own: set<Pair>
    var withheld: set<Pair>
    var granted: set<Pair>
    // history: the groups whose access somebody has edited
    ghost var edited: set<string>

    ghost function View(): State
      reads this
    {
      State(users, groups, dims, own, withheld, granted)
    }

    ghost predicate Valid()
      reads this
    {
      Consistent(View()) && Withholding(View(), edited)
    }

    constructor ()
      ensures Valid() && users == map[] && groups == map[] && edited == {}
      ensures own == {} && withheld == {} && granted == {}
      ensures forall k :: k in dims ==> dims[k] == Dim({}, {}, {}, {})
    {
      users, groups := map[], map[];
      dims := map[KNode := Dim({}, {}, {}, {}), KRelay := Dim({}, {}, {}, {}), KExternal := Dim({}, {}, {}, {})];
      own, withheld, granted, edited := {}, {}, {}, {};
    }

    // CreateNode, CreateNodeRelay and the insert of a new external proxy.
    method CreateObject(k: Kind, id: string)
      requires Valid() && id !in dims[k].universe
      modifies this`dims
      ensures Valid() && View() == WithObject(old(View()), k, id)
      // nobody who exists gets the new object, and nobody's other answers move
      ensures forall u :: u in users ==> Denied(View(), k, u, id)
      ensures forall j, u, o :: j in dims && (j != k || o != id) ==> (Denied(View(), j, u, o) <==> Denied(old(View()), j, u, o))
    {
      ghost var before := View();
      dims := dims[k := DimWith(dims[k], users.Keys, groups.Keys, id)];
      ObjectAdded(before, edited, k, id);
    }

    method DeleteObject(k: Kind, id: string)
      requires Valid()
      modifies this`dims
      ensures Valid() && View() == WithoutObject(old(View()), k, id)
      ensures id !in dims[k].universe && forall u :: !Denied(View(), k, u, id)
      ensures forall j, u, o :: j in dims && (j != k || o != id) ==> (Denied(View(), j, u, o) <==> Denied(old(View()), j, u, o))
    {
      ghost var before := View();
      dims := dims[k := DimWithout(dims[k], id)];
      ObjectRemoved(before, edited, k, id);
    }

    method CreateUser(u: string)
      requires Valid() && u !in users && u != ""
      modifies this`users, this`dims
      ensures Valid() && View() == WithUser(old(View()), u)
      ensures forall k, o :: k in dims && o in dims[k].universe ==> Denied(View(), k, u, o)
    {
      UserAdded(View(), edited, u);
      users := users[u := Person("", "", false)];
      dims := map k | k in dims :: DimForUser(dims[k], u);
    }

    method CreateSubscriberGroup(g: string)
      requires Valid() && g !in groups && g != ""
      modifies this`groups, this`dims
      ensures Valid() && View() == WithGroup(old(View()), g)
      ensures forall k, o :: k in dims && o in dims[k].universe ==> (g, o) in dims[k].byGroup
    {
      GroupAdded(View(), edited, g);
      groups := groups[g := ""];
      dims := map k | k in dims :: DimForGroup(dims[k], g);
    }

    // Whole-set replacement of a group's denials; an id that does not exist fails the insert.
    method SetGroupNodeAccess(g: string, denied: map<Kind, set<string>>) returns (ok: bool)
      requires Valid() && denied.Keys == KINDS
      modifies this`dims, this`edited
      ensures Valid()
      ensures ok <==> InsertsFit(old(View()), g, denied)
      ensures View() == if ok then WithGroupSet(old(View()), g, denied) else old(View())
      // members without an exception of their own are refused the list; nobody else's answer moves
      ensures ok ==> GroupListed(old(View()), View(), g, denied)
    {
      ghost var before, wasEdited := View(), edited;
      var fits := (forall k :: k in KINDS ==> denied[k] <= dims[k].universe) &&
                  (g in groups || forall k :: k in KINDS ==> denied[k] == {});
      if !fits { return false; }
      dims := map k | k in dims :: DimGroupSet(dims[k], g, denied[k]);
      edited := edited + {g};
      GroupEdited(before, wasEdited, g, denied);
      GroupListApplied(before, g, denied);
      return true;
    }
  
    // ---- whole-set editing ----

    method SetUserDimension(k: Kind, u: string, group: string, want: set<string>)
      requires Valid() && u in users && users[u].group == group
      modifies this`dims
      ensures Valid() && View() == WithDim(old(View()), k, UserReset(old(dims)[k], u, group, want))
    {
      ghost var before := View();
      var d := dims[k];
      var now := d.(denies := RowsNotOf(d.denies, u), allows := RowsNotOf(d.allows, u));
      var todo := d.universe;
      while todo != {}
        invariant todo <= d.universe
        invariant now == d.(
          denies := RowsNotOf(d.denies, u) + (set o | o in d.universe - todo && o in want && !GroupDenies(d, group, o) :: (u, o)),
          allows := RowsNotOf(d.allows, u) + (set o | o in d.universe - todo && o !in want && GroupDenies(d, group, o) :: (u, o)))
        decreases todo
      {
        var o :| o in todo;
        todo := todo - {o};
        if o in want && !GroupDenies(d, group, o) {
          now := now.(denies := now.denies + {(u, o)});
        } else if o !in want && GroupDenies(d, group, o) {
          now := now.(allows := now.allows + {(u, o)});
        }
      }
      assert d.universe - {} == d.universe;
      dims := dims[k := now];
      UserResetConsistent(before, edited, k, u, want);
    }

    // The console's list for one subscriber. Afterwards they are refused exactly what the list
    // says, of what exists, with the fewest exceptions to their group; nobody else is touched.
    method SetUserNodeAccess(u: string, denied: map<Kind, set<string>>) returns (ok: bool)
      requires Valid() && denied.Keys == KINDS
      modifies this`dims
      ensures Valid() && (ok <==> u in users)
      ensures !ok ==> dims == old(dims)
      ensures ok ==> View() == WithUserList(old(View()), u, denied)
      ensures ok ==> forall k :: k in dims ==> EffectiveDenies(View(), k, u) == denied[k] * dims[k].universe
      ensures ok ==> forall k, v, o :: k in dims && v != u ==> (Denied(View(), k, v, o) <==> Denied(old(View()), k, v, o))
    {
      if u !in users { return false; }
      ghost var before := View();
      var group := users[u].group;
      SetUserDimension(KNode, u, group, denied[KNode]);
      ghost var s1 := View();
      SetUserDimension(KExternal, u, group, denied[KExternal]);
      ghost var s2 := View();
      SetUserDimension(KRelay, u, group, denied[KRelay]);
      ThreePasses(before, u, denied, s1, s2, View());
      UserListApplied(before, u, denied);
      return true;
    }

    // The console's list for one object. An insert for an object that is not there fails.
    method SetObjectAccess(k: Kind, o: string, want: set<string>) returns (ok: bool)
      requires Valid()
      modifies this`dims
      ensures Valid() && (ok <==> o in dims[k].universe || want * users.Keys == {})
      ensures View() == if ok then WithDim(old(View()), k, ObjectReset(old(dims)[k], users, o, want)) else old(View())
      ensures ok ==> ObjectDenies(View(), k, o) == want * users.Keys
      ensures ok ==> forall j, u, x :: j in dims && (j != k || x != o) ==> (Denied(View(), j, u, x) <==> Denied(old(View()), j, u, x))
    {
      ghost var before := View();
      var d := dims[k];
      assert DimOk(d, users.Keys, groups.Keys);
      if o !in d.universe && want * users.Keys != {} { return false; }
      var now := ResetObject(d, o, want);
      dims := dims[k := now];
      ObjectListApplied(before, edited, k, o, want);
      return true;
    }

    method ResetObject(d: Dim, o: string, want: set<string>) returns (now: Dim)
      ensures now == ObjectReset(d, users, o, want)
    {
      now := d.(denies := RowsNotOn(d.denies, o), allows := RowsNotOn(d.allows, o));
      var todo := users.Keys;
      while todo != {}
        invariant todo <= users.Keys
        invariant now == d.(
          denies := RowsNotOn(d.denies, o) + (set u | u in users.Keys - todo && u in want && !GroupDenies(d, users[u].group, o) :: (u, o)),
          allows := RowsNotOn(d.allows, o) + (set u | u in users.Keys - todo && u !in want && GroupDenies(d, users[u].group, o) :: (u, o)))
        decreases todo
      {
        var u :| u in todo;
        todo := todo - {u};
        if u in want && !GroupDenies(d, users[u].group, o) {
          now := now.(denies := now.denies + {(u, o)});
        } else if u !in want && GroupDenies(d, users[u].group, o) {
          now := now.(allows := now.allows + {(u, o)});
        }
      }
      assert users.Keys - {} == users.Keys;
    }

    // One exception, or its removal; both rows are deleted before either is written.
    method SetUserObjectAccess(u: string, k: Kind, o: string, allow: bool, clear: bool) returns (ok: bool)
      requires Valid()
      modifies this`dims
      ensures Valid() && (ok <==> clear || (u in users && o in dims[k].universe))
      ensures View() == if ok then WithDim(old(View()), k, DimException(old(dims)[k], u, o, allow, clear)) else old(View())
      // an exception decides, its removal leaves the group to, and no other answer moves
      ensures ok && !clear ==> (Denied(View(), k, u, o) <==> !allow)
      ensures ok && clear ==> (Denied(View(), k, u, o) <==> RefusedByGroup(View(), k, u, o))
      ensures forall j, v, x :: j in dims && (j, v, x) != (k, u, o) ==> (Denied(View(), j, v, x) <==> Denied(old(View()), j, v, x))
    {
      ghost var before := View();
      ExceptionDecides(before, k, u, o, allow, clear);
      assert DimOk(dims[k], users.Keys, groups.Keys);
      if !clear && !(u in users && o in dims[k].universe) { return false; }
      dims := dims[k := DimException(dims[k], u, o, allow, clear)];
      OtherDims(before, k, dims[k]);
      return true;
    }

    // ---- membership ----

    method DetachUser(u: string, g: string)
      requires u in users
      modifies this`own, this`withheld, this`dims, this`users
      ensures View() == Detached(old(View()), u, g)
    {
      own := own + (set r | r in granted && r.0 == g && (u, r.1) !in withheld :: (u, r.1));
      var todo := dims.Keys;
      var now := dims;
      while todo != {}
        invariant todo <= dims.Keys && now.Keys == dims.Keys
        invariant forall k :: k in dims ==> now[k] == if k in todo then dims[k] else DimDetached(dims[k], u, g)
        decreases todo
      {
        var k :| k in todo;
        todo := todo - {k};
        now := now[k := DimDetached(dims[k], u, g)];
      }
      dims := now;
      withheld := RowsNotOf(withheld, u);
      var p := users[u];
      if !p.rulesetNone && p.ruleset == "" && g in groups {
        users := users[u := p.(ruleset := groups[g])];
      }
      assert users == old(users)[u := users[u]];
    }

    // "" leaves; a group that does not exist fails the foreign key.
    method SetUserGroup(u: string, g: string) returns (ok: bool)
      requires Valid()
      modifies this`own, this`withheld, this`dims, this`users
      ensures Valid() && (ok <==> u in old(users) && (g == "" || g in groups))
      ensures !ok ==> View() == old(View())
      ensures ok && g != "" ==> View() == Joined(old(View()), u, g)
      ensures ok && g == "" && old(users)[u].group != "" ==>
                View() == Left(old(View()), u) && SameAnswers(old(View()), View())
      ensures ok && g == "" && old(users)[u].group == "" ==> View() == old(View())
      ensures ok ==> u in users && users[u].group == g
    {
      ghost var before := View();
      if u !in users || (g != "" && g !in groups) { return false; }
      var previous := users[u].group;
      if previous != "" && g == "" { DetachUser(u, previous); }
      users := users[u := users[u].(group := g)];
      if g != "" {
        own, withheld := RowsNotOf(own, u), RowsNotOf(withheld, u);
        dims := map k | k in dims :: DimCleared(dims[k], u);
        JoinedConsistent(before, edited, u, g);
      } else if previous != "" {
        LeftConsistent(before, edited, u);
      } else {
        assert users == old(users);
      }
      return true;
    }

    // The members' rows are written one by one; nobody else's are.
    method DetachMembers(g: string) returns (ghost done: set<string>)
      requires Valid() && g in groups
      modifies this`own, this`withheld, this`dims, this`users
      ensures Detaching(old(View()), View(), g, done) && ProfilesDetaching(old(View()), View(), done)
      ensures forall u :: u in old(users) && old(users)[u].group == g <==> u in done
    {
      ghost var before := View();
      var todo := set u | u in users && users[u].group == g;
      done := {};
      while todo != {}
        invariant Detaching(before, View(), g, done) && ProfilesDetaching(before, View(), done)
        invariant done !! todo && forall u :: u in before.users && before.users[u].group == g <==> u in done + todo
        decreases todo
      {
        var u :| u in todo;
        todo := todo - {u};
        DetachOne(before, View(), g, done, u);
        DetachOneProfiles(before, View(), g, done, u);
        DetachUser(u, g);
        done := done + {u};
      }
    }

    method RemoveGroup(g: string)
      modifies this`dims, this`users, this`groups, this`granted
      ensures View() == GroupGone(old(View()), g)
    {
      groups := groups - {g};
      granted := RowsNotOf(granted, g);
      users := map u | u in users :: if users[u].group == g then users[u].(group := "") else users[u];
      dims := map k | k in dims :: dims[k].(byGroup := RowsNotOf(dims[k].byGroup, g));
    }

    // Every member is detached first, so dissolving the group moves nobody's answers.
    method DeleteSubscriberGroup(g: string) returns (ok: bool)
      requires Valid()
      modifies this`own, this`withheld, this`dims, this`users, this`groups, this`granted
      ensures Valid() && (ok <==> g in old(groups))
      ensures !ok ==> View() == old(View())
      ensures ok ==> groups == old(groups) - {g} && SameAnswers(old(View()), View())
      ensures ok ==> ProfilesAfterGroup(old(View()), View(), g)
      ensures ok ==> forall u :: u in old(users) && old(users)[u].group != g ==> u in users && users[u] == old(users)[u]
    {
      if g !in groups { return false; }
      ghost var before := View();
      ghost var done := DetachMembers(g);
      ghost var detached := View();
      GroupGoneSame(before, detached, g, done);
      GroupGoneProfiles(before, detached, g, done);
      GroupGoneConsistent(before, detached, edited, g, done);
      forall u | u in before.users && before.users[u].group != g
        ensures u in detached.users && GroupGone(detached, g).users[u] == before.users[u]
      {
        GroupGoneOthers(before, detached, g, done, u);
      }
      RemoveGroup(g);
      return true;
    }

    // ---- rule sets ----

    // known: the rule set, if one is named, exists.
    method SetGroupRuleset(g: string, ruleset: string, known: bool) returns (ok: bool)
      requires Valid()
      modifies this`groups
      ensures Valid() && (ok <==> g in old(groups) && (ruleset == "" || known)) && (!ok ==> groups == old(groups))
      // members who chose nothing themselves carry it; nobody else's rule set moves
      ensures ok ==> forall v :: v in users ==>
                EffectiveRuleset(View(), v) ==
                  if users[v].group == g && users[v].ruleset == "" && !users[v].rulesetNone then ruleset
                  else EffectiveRuleset(old(View()), v)
    {
      if g !in groups || (ruleset != "" && !known) { return false; }
      assert groups[g := ruleset].Keys == groups.Keys;
      groups := groups[g := ruleset];
      return true;
    }

    // None whatever the group says, or back to the group; a choice of their own is forgotten either way.
    method SetUserRulesetNone(u: string, none: bool) returns (ok: bool)
      requires Valid()
      modifies this`users
      ensures Valid() && (ok <==> u in old(users)) && users.Keys == old(users).Keys
      ensures ok ==> EffectiveRuleset(View(), u) ==
                       if none || users[u].group == "" then "" else groups[users[u].group]
      ensures forall v :: v in users && v != u ==> users[v] == old(users)[v] && EffectiveRuleset(View(), v) == EffectiveRuleset(old(View()), v)
    {
      if u !in users { return false; }
      assert users[u := users[u]].Keys == users.Keys;
      users := users[u := users[u].(rulesetNone := none, ruleset := "")];
      return true;
    }

    // A rule set of the subscriber's own outranks whatever the group says; "" goes back to the group.
    method SetUserRuleset(u: string, ruleset: string, known: bool) returns (ok: bool)
      requires Valid()
      modifies this`users
      ensures Valid() && (ok <==> u in old(users) && (ruleset == "" || known)) && (!ok ==> users == old(users))
      ensures ok ==> users.Keys == old(users).Keys
      ensures ok ==> EffectiveRuleset(View(), u) ==
                       if ruleset != "" then ruleset else if users[u].group == "" then "" else groups[users[u].group]
      ensures forall v :: v in users && v != u && v in old(users) ==>
                users[v] == old(users)[v] && EffectiveRuleset(View(), v) == EffectiveRuleset(old(View()), v)
    {
      if u !in users || (ruleset != "" && !known) { return false; }
      assert users[u := users[u]].Keys == users.Keys;
      users := users[u := users[u].(rulesetNone := false, ruleset := ruleset)];
      return true;
    }

    // ---- profiles ----

    method BindUserProfile(u: string, p: string)
      modifies this`own
      ensures View() == ProfileBound(old(View()), u, p)
      ensures HoldsProfile(View(), u, p) <==> (u, p) !in withheld
    {
      own := own + {(u, p)};
    }

    method SetUserProfileAccess(u: string, p: string, grant: bool, clear: bool)
      modifies this`own, this`withheld
      ensures View() == ProfileSet(old(View()), u, p, grant, clear)
      ensures !clear ==> (HoldsProfile(View(), u, p) <==> grant)
      ensures clear ==> (HoldsProfile(View(), u, p) <==>
                           u in users && users[u].group != "" && (users[u].group, p) in granted)
      ensures forall v, q :: (v, q) != (u, p) ==> (HoldsProfile(View(), v, q) <==> HoldsProfile(old(View()), v, q))
    {
      own, withheld := own - {(u, p)}, withheld - {(u, p)};
      if !clear {
        if grant { own := own + {(u, p)}; } else { withheld := withheld + {(u, p)}; }
      }
    }
  }
}
