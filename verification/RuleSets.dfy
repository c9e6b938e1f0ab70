/** Turning a parsed preset and a subscriber's proxy names into clash routing: proxy groups
  * without empty ones, rules without dangling policies, and named rule lists that a second
  * request must be able to resolve again. */
module RuleSets {
  import opened Collections
  import opened Wrappers
  import opened Namers

  // pattern is None for a group that takes no proxies of its own.
  datatype Group = Group(name: string, literals: seq<string>, pattern: Option<string -> bool>)

  // url is "" for a rule written inline.
  datatype Rule = Rule(group: string, url: string, inlined: string)

  // ---------- policies clash provides itself ----------

  // strings.ToUpper, as far as it can produce one of the names below: ASCII letters and the two
  // letters outside ASCII whose upper case is an ASCII letter.
  function Upper(c: char): char {
    if 'a' <= c <= 'z' then c - 'a' + 'A'
    else if c == '\U{0131}' then 'I'
    else if c == '\U{017F}' then 'S'
    else c
  }

  function ToUpper(s: string): string {
    seq(|s|, i requires 0 <= i < |s| => Upper(s[i]))
  }

  predicate IsBuiltinPolicy(name: string) {
    ToUpper(name) in {"DIRECT", "REJECT", "REJECT-DROP", "PASS", "COMPATIBLE"}
  }

  // The policies clash provides, in any case.
  lemma BuiltinsInAnyCase(name: string)
    ensures IsBuiltinPolicy("DIRECT") && IsBuiltinPolicy("REJECT") && IsBuiltinPolicy("REJECT-DROP") &&
            IsBuiltinPolicy("PASS") && IsBuiltinPolicy("COMPATIBLE") && IsBuiltinPolicy("Direct") && !IsBuiltinPolicy("Proxy")
    ensures IsBuiltinPolicy(ToUpper(name)) <==> IsBuiltinPolicy(name)
  {
    assert ToUpper("DIRECT") == "DIRECT" && ToUpper("REJECT") == "REJECT" && ToUpper("REJECT-DROP") == "REJECT-DROP";
    assert ToUpper("PASS") == "PASS" && ToUpper("COMPATIBLE") == "COMPATIBLE" && ToUpper("Direct") == "DIRECT";
    assert ToUpper("Proxy")[0] == 'P' && |ToUpper("Proxy")| == 5;
    assert ToUpper(ToUpper(name)) == ToUpper(name);
  }

  // ---------- groups that would be empty ----------

  function Select<T>(xs: seq<T>, keep: T -> bool): seq<T> {
    if xs == [] then []
    else Select(xs[..|xs| - 1], keep) + (if keep(xs[|xs| - 1]) then [xs[|xs| - 1]] else [])
  }

  lemma {:induction false} SelectHolds<T>(xs: seq<T>, keep: T -> bool, x: T)
    ensures x in Select(xs, keep) <==> x in xs && keep(x)
  {
    if xs != [] {
      assert xs == xs[..|xs| - 1] + [xs[|xs| - 1]];
      SelectHolds(xs[..|xs| - 1], keep, x);
    }
  }

  // out is what stands at the places of src, in that order.
  ghost predicate TakenFrom<T>(out: seq<T>, src: seq<T>, places: seq<nat>) {
    && |places| == |out|
    && (forall k :: 0 <= k < |places| ==> places[k] < |src| && out[k] == src[places[k]])
    && (forall j, k :: 0 <= j < k < |places| ==> places[j] < places[k])
  }

  lemma TakenFromMore<T>(out: seq<T>, src: seq<T>, places: seq<nat>, last: T)
    requires TakenFrom(out, src, places)
    ensures TakenFrom(out, src + [last], places) && TakenFrom(out + [last], src + [last], places + [|src|])
  {
  }

  lemma {:induction false} SelectPlaces<T>(xs: seq<T>, keep: T -> bool) returns (places: seq<nat>)
    ensures TakenFrom(Select(xs, keep), xs, places)
    ensures forall i: nat :: i in places <==> i < |xs| && keep(xs[i])
  {
    places := [];
    if xs != [] {
      var n := |xs| - 1;
      var init, last := xs[..n], xs[n];
      assert xs == init + [last];
      var before := SelectPlaces(init, keep);
      TakenFromMore(Select(init, keep), init, before, last);
      if keep(last) {
        places := before + [n];
      } else {
        places := before;
        assert Select(xs, keep) == Select(init, keep);
      }
    }
  }

  predicate LiteralStands(lit: string, alive: set<string>) { IsBuiltinPolicy(lit) || lit in alive }

  // A group's members: its literals that still exist, then the proxies its pattern selects.
  function Members(g: Group, proxies: seq<string>, alive: set<string>): seq<string> {
    Select(g.literals, lit => LiteralStands(lit, alive)) +
    (if g.pattern.Some? then Select(proxies, g.pattern.value) else [])
  }

  lemma MembersAre(g: Group, proxies: seq<string>, alive: set<string>, m: string)
    ensures m in Members(g, proxies, alive) <==>
            (m in g.literals && LiteralStands(m, alive)) ||
            (g.pattern.Some? && m in proxies && g.pattern.value(m))
  {
    SelectHolds(g.literals, lit => LiteralStands(lit, alive), m);
    if g.pattern.Some? { SelectHolds(proxies, g.pattern.value, m); }
  }

  // A group's members keep their order: what stands of its literals as listed, then the proxies it
  // matches as given. The first of them is the client's default.
  lemma MembersInOrder(g: Group, proxies: seq<string>, alive: set<string>) returns (literals: seq<nat>, matched: seq<nat>)
    ensures |literals| <= |Members(g, proxies, alive)|
    ensures TakenFrom(Members(g, proxies, alive)[..|literals|], g.literals, literals)
    ensures TakenFrom(Members(g, proxies, alive)[|literals|..], proxies, matched)
    ensures forall i: nat :: i in literals <==> i < |g.literals| && (IsBuiltinPolicy(g.literals[i]) || g.literals[i] in alive)
    ensures forall i: nat :: i in matched <==> i < |proxies| && g.pattern.Some? && g.pattern.value(proxies[i])
  {
    var stands := lit => LiteralStands(lit, alive);
    literals := SelectPlaces(g.literals, stands);
    matched := [];
    if g.pattern.Some? { matched := SelectPlaces(proxies, g.pattern.value); }
    var first, second := Select(g.literals, stands), if g.pattern.Some? then Select(proxies, g.pattern.value) else [];
    assert Members(g, proxies, alive) == first + second;
    assert (first + second)[..|first|] == first && (first + second)[|first|..] == second;
  }

  lemma MembersInMore(g: Group, proxies: seq<string>, fewer: set<string>, more: set<string>)
    requires fewer <= more && Members(g, proxies, fewer) != []
    ensures Members(g, proxies, more) != []
  {
    var m := Members(g, proxies, fewer)[0];
    MembersAre(g, proxies, fewer, m);
    MembersAre(g, proxies, more, m);
  }

  function Names(groups: seq<Group>): set<string> {
    set i | 0 <= i < |groups| :: groups[i].name
  }

  // Every group that carries a name of s has a member left when the names of s are what stands.
  ghost predicate Supported(s: set<string>, groups: seq<Group>, proxies: seq<string>) {
    s <= Names(groups) &&
    forall i :: 0 <= i < |groups| && groups[i].name in s ==> Members(groups[i], proxies, s) != []
  }

  // The largest such set of names.
  ghost predicate Survivors(s: set<string>, groups: seq<Group>, proxies: seq<string>) {
    Supported(s, groups, proxies) && forall t :: Supported(t, groups, proxies) ==> t <= s
  }

  method Expand(g: Group, proxies: seq<string>, alive: set<string>) returns (out: seq<string>)
    ensures out == Members(g, proxies, alive)
  {
    var stands := lit => LiteralStands(lit, alive);
    out := [];
    for i := 0 to |g.literals|
      invariant out == Select(g.literals[..i], stands)
    {
      assert g.literals[..i + 1][..i] == g.literals[..i];
      if IsBuiltinPolicy(g.literals[i]) || g.literals[i] in alive {
        out := out + [g.literals[i]];
      }
    }
    assert g.literals[..|g.literals|] == g.literals;
    if g.pattern.Some? {
      ghost var literals := out;
      for i := 0 to |proxies|
        invariant out == literals + Select(proxies[..i], g.pattern.value)
      {
        assert proxies[..i + 1][..i] == proxies[..i];
        if g.pattern.value(proxies[i]) { out := out + [proxies[i]]; }
      }
      assert proxies[..|proxies|] == proxies;
    }
  }

  datatype Resolved = Resolved(name: string, members: seq<string>)

  // The groups whose name stands, in preset order, with their members.
  function Standing(groups: seq<Group>, proxies: seq<string>, alive: set<string>): seq<Resolved> {
    if groups == [] then []
    else
      var last := groups[|groups| - 1];
      Standing(groups[..|groups| - 1], proxies, alive) +
      (if last.name in alive then [Resolved(last.name, Members(last, proxies, alive))] else [])
  }

  function ResolvedAs(g: Group, proxies: seq<string>, alive: set<string>): Resolved {
    Resolved(g.name, Members(g, proxies, alive))
  }

  lemma {:induction false} StandingIsSelected(groups: seq<Group>, proxies: seq<string>, alive: set<string>)
    ensures var kept := Select(groups, (g: Group) => g.name in alive);
            Standing(groups, proxies, alive) == seq(|kept|, k requires 0 <= k < |kept| => ResolvedAs(kept[k], proxies, alive))
  {
    if groups != [] { StandingIsSelected(groups[..|groups| - 1], proxies, alive); }
  }

  // The groups that stand come out in preset order, each with its members.
  lemma {:induction false} StandingInOrder(groups: seq<Group>, proxies: seq<string>, alive: set<string>)
    returns (kept: seq<Group>, places: seq<nat>)
    ensures TakenFrom(kept, groups, places)
    ensures Standing(groups, proxies, alive) == seq(|kept|, k requires 0 <= k < |kept| => ResolvedAs(kept[k], proxies, alive))
    ensures forall i: nat :: i in places <==> i < |groups| && groups[i].name in alive
  {
    var stands := (g: Group) => g.name in alive;
    kept := Select(groups, stands);
    places := SelectPlaces(groups, stands);
    StandingIsSelected(groups, proxies, alive);
  }

  lemma NothingSupportedLost(groups: seq<Group>, proxies: seq<string>, alive: set<string>, i: nat, s: set<string>)
    requires i < |groups| && Members(groups[i], proxies, alive) == []
    requires Supported(s, groups, proxies) && s <= alive
    ensures s <= alive - {groups[i].name}
  {
    if groups[i].name in s { MembersInMore(groups[i], proxies, s, alive); }
  }

  // Between removals: nothing supportable was lost, and each name that went is listed once.
  ghost predicate Dropping(live: set<string>, dropped: seq<string>, groups: seq<Group>, proxies: seq<string>) {
    && live <= Names(groups)
    && (set d | d in dropped) == Names(groups) - live
    && Unique(dropped)
    && (forall s :: Supported(s, groups, proxies) ==> s <= live)
  }

  lemma DropOne(live: set<string>, dropped: seq<string>, groups: seq<Group>, proxies: seq<string>, i: nat)
    requires Dropping(live, dropped, groups, proxies)
    requires i < |groups| && groups[i].name in live && Members(groups[i], proxies, live) == []
    ensures Dropping(live - {groups[i].name}, dropped + [groups[i].name], groups, proxies)
    ensures |live - {groups[i].name}| < |live|
  {
    var name := groups[i].name;
    var fewer, dropped' := live - {name}, dropped + [name];
    assert live == fewer + {name};
    assert (set d | d in dropped') == (set d | d in dropped) + {name};
    assert name !in (set d | d in dropped);
    forall s | Supported(s, groups, proxies) ensures s <= fewer {
      NothingSupportedLost(groups, proxies, live, i, s);
    }
  }

  // One pass over the groups, dropping as it goes.
  method DropPass(groups: seq<Group>, proxies: seq<string>, alive: set<string>, dropped: seq<string>)
    returns (live: set<string>, gone: seq<string>, changed: bool)
    requires Dropping(alive, dropped, groups, proxies)
    ensures Dropping(live, gone, groups, proxies)
    ensures if changed then |live| < |alive| else live == alive && Supported(live, groups, proxies)
  {
    live, gone, changed := alive, dropped, false;
    for i := 0 to |groups|
      invariant Dropping(live, gone, groups, proxies)
      invariant if changed then |live| < |alive| else live == alive
      invariant changed || forall k :: 0 <= k < i && groups[k].name in live ==> Members(groups[k], proxies, live) != []
    {
      var name := groups[i].name;
      if name !in live { continue; }
      var members := Expand(groups[i], proxies, live);
      if |members| == 0 {
        DropOne(live, gone, groups, proxies, i);
        live, gone, changed := live - {name}, gone + [name], true;
      }
    }
  }

  method ResolveGroups(groups: seq<Group>, proxies: seq<string>)
    returns (out: seq<Resolved>, dropped: seq<string>, ghost alive: set<string>)
    ensures Survivors(alive, groups, proxies)
    ensures out == Standing(groups, proxies, alive)
    ensures (set d | d in dropped) == Names(groups) - alive
    ensures Unique(dropped)
  {
    var live := Names(groups);
    dropped := [];
    var changed := true;
    while changed
      invariant Dropping(live, dropped, groups, proxies)
      invariant !changed ==> Supported(live, groups, proxies)
      decreases |live|, changed
    {
      live, dropped, changed := DropPass(groups, proxies, live, dropped);
    }
    alive := live;
    out := [];
    for i := 0 to |groups|
      invariant out == Standing(groups[..i], proxies, live)
    {
      assert groups[..i + 1][..i] == groups[..i];
      if groups[i].name !in live { continue; }
      var members := Expand(groups[i], proxies, live);
      out := out + [Resolved(groups[i].name, members)];
    }
    assert groups[..|groups|] == groups;
  }

  lemma SupportedIgnoresOrder(s: set<string>, groups: seq<Group>, groups': seq<Group>, proxies: seq<string>)
    requires forall i :: 0 <= i < |groups| ==> groups[i] in groups'
    requires forall i :: 0 <= i < |groups'| ==> groups'[i] in groups
    requires Supported(s, groups, proxies)
    ensures Supported(s, groups', proxies)
  {
    forall name | name in s ensures name in Names(groups') {
      var i :| 0 <= i < |groups| && groups[i].name == name;
      var j :| 0 <= j < |groups'| && groups'[j] == groups[i];
    }
    forall j | 0 <= j < |groups'| && groups'[j].name in s ensures Members(groups'[j], proxies, s) != [] {
      var i :| 0 <= i < |groups| && groups[i] == groups'[j];
    }
  }

  // The order groups are listed in never decides which survive.
  lemma SurvivorsIgnoreOrder(a: set<string>, groups: seq<Group>, b: set<string>, groups': seq<Group>, proxies: seq<string>)
    requires forall i :: 0 <= i < |groups| ==> groups[i] in groups'
    requires forall i :: 0 <= i < |groups'| ==> groups'[i] in groups
    requires Survivors(a, groups, proxies) && Survivors(b, groups', proxies)
    ensures a == b
  {
    SupportedIgnoresOrder(a, groups, groups', proxies);
    SupportedIgnoresOrder(b, groups', groups, proxies);
  }

  // ---------- rules ----------

  datatype Line =
    | PanelDirect(host: string)
    | InlineRule(text: string, policy: string)
    | ListRule(provider: string, policy: string)

  function Policy(line: Line): string {
    match line
    case PanelDirect(_) => "DIRECT"
    case InlineRule(_, p) => p
    case ListRule(_, p) => p
  }

  datatype Rendered = Rendered(
    groups: seq<Resolved>, providers: map<string, string>, lines: seq<Line>, dropped: seq<string>)

  predicate HasPolicy(r: Rule, defined: set<string>) { r.group in defined || IsBuiltinPolicy(r.group) }

  // The rules whose policy still exists.
  function Kept(rules: seq<Rule>, defined: set<string>): seq<Rule> {
    Select(rules, r => HasPolicy(r, defined))
  }

  // The list URLs rules ask a namer about, in order.
  // The rules rendered are those whose policy is a builtin or defined, in their order.
  lemma KeptInOrder(rules: seq<Rule>, defined: set<string>) returns (places: seq<nat>)
    ensures TakenFrom(Kept(rules, defined), rules, places)
    ensures forall i: nat :: i in places <==> i < |rules| && (rules[i].group in defined || IsBuiltinPolicy(rules[i].group))
  {
    places := SelectPlaces(rules, r => HasPolicy(r, defined));
  }

  function Urls(rules: seq<Rule>): seq<string> {
    if rules == [] then []
    else Urls(rules[..|rules| - 1]) + (if rules[|rules| - 1].url != "" then [rules[|rules| - 1].url] else [])
  }

  lemma {:induction false} UrlsHold(rules: seq<Rule>, r: Rule)
    requires r in rules && r.url != ""
    ensures r.url in Urls(rules)
  {
    assert rules == rules[..|rules| - 1] + [rules[|rules| - 1]];
    if r in rules[..|rules| - 1] { UrlsHold(rules[..|rules| - 1], r); }
  }

  ghost function LineFor(stem: string -> string, rules: seq<Rule>, r: Rule): Line
    requires r in rules
  {
    if r.url == "" then InlineRule(r.inlined, r.group)
    else
      UrlsHold(rules, r);
      NamedHolds(stem, Urls(rules));
      ListRule(Named(stem, Urls(rules))[r.url], r.group)
  }

  // providers sends every name given back to the URL it was given to.
  ghost predicate Inverts(providers: map<string, string>, named: map<string, string>) {
    && (forall u :: u in named ==> named[u] in providers && providers[named[u]] == u)
    && (forall n :: n in providers ==> providers[n] in named && named[providers[n]] == n)
  }

  // No reference in the document points at something the document does not define.
  ghost predicate Closed(r: Rendered, proxies: seq<string>) {
    && (forall g :: g in r.groups ==> g.members != [])
    && (forall g, m :: g in r.groups && m in g.members ==>
          IsBuiltinPolicy(m) || m in proxies || exists h :: h in r.groups && h.name == m)
    && (forall l :: l in r.lines ==> IsBuiltinPolicy(Policy(l)) || exists h :: h in r.groups && h.name == Policy(l))
    && (forall l :: l in r.lines && l.ListRule? ==> l.provider in r.providers)
  }

  ghost predicate RendersRules(lines: seq<Line>, stem: string -> string, rules: seq<Rule>) {
    |lines| == |rules| && forall i :: 0 <= i < |rules| ==> lines[i] == LineFor(stem, rules, rules[i])
  }

  lemma LinesKeep(lines: seq<Line>, stem: string -> string, rules: seq<Rule>, r: Rule)
    requires RendersRules(lines, stem, rules)
    ensures RendersRules(lines + [LineFor(stem, rules + [r], r)], stem, rules + [r])
  {
    var rules' := rules + [r];
    assert rules'[..|rules|] == rules;
    var urls, urls' := Urls(rules), Urls(rules');
    assert urls'[..|urls|] == urls;
    forall i | 0 <= i < |rules| ensures lines[i] == LineFor(stem, rules', rules'[i]) {
      assert rules'[i] == rules[i];
      if rules[i].url != "" {
        UrlsHold(rules, rules[i]);
        NamedHolds(stem, urls);
        NamesStable(stem, urls', |urls|, rules[i].url);
      }
    }
  }

  lemma ProviderAdded(stem: string -> string, providers: map<string, string>, urls: seq<string>, url: string)
    requires Inverts(providers, Named(stem, urls))
    ensures var m := Named(stem, urls + [url]);
            && url in m
            && Inverts(if url in Named(stem, urls) then providers else providers[m[url] := url], m)
  {
    assert (urls + [url])[..|urls|] == urls;
    var m := Named(stem, urls + [url]);
    forall u | u in m && u != url ensures m[u] != m[url] { NamesDistinct(stem, urls + [url], u, url); }
  }

  // A line said of its rule: the same text or the same list, for the same policy.
  ghost predicate ReadsRule(line: Line, r: Rule, providers: map<string, string>) {
    if r.url == "" then line == InlineRule(r.inlined, r.group)
    else line.ListRule? && line.policy == r.group && line.provider in providers && providers[line.provider] == r.url
  }

  ghost predicate ReadsRules(lines: seq<Line>, rules: seq<Rule>, providers: map<string, string>) {
    |lines| == |rules| && forall i :: 0 <= i < |rules| ==> ReadsRule(lines[i], rules[i], providers)
  }

  lemma LinesRead(lines: seq<Line>, stem: string -> string, rules: seq<Rule>, providers: map<string, string>)
    requires RendersRules(lines, stem, rules) && Inverts(providers, Named(stem, Urls(rules)))
    ensures ReadsRules(lines, rules, providers)
  {
    forall i | 0 <= i < |rules| ensures ReadsRule(lines[i], rules[i], providers) {
      assert lines[i] == LineFor(stem, rules, rules[i]);
      if rules[i].url != "" {
        UrlsHold(rules, rules[i]);
        NamedHolds(stem, Urls(rules));
      }
    }
  }

  method RenderRules(stem: string -> string, rules: seq<Rule>, defined: set<string>)
    returns (lines: seq<Line>, providers: map<string, string>)
    ensures RendersRules(lines, stem, Kept(rules, defined))
    ensures Inverts(providers, Named(stem, Urls(Kept(rules, defined))))
    ensures ReadsRules(lines, Kept(rules, defined), providers)
  {
    var names := new Namer(stem);
    lines, providers := [], map[];
    for i := 0 to |rules|
      invariant names.Valid() && fresh(names) && names.stem == stem
      invariant names.asked == Urls(Kept(rules[..i], defined))
      invariant RendersRules(lines, stem, Kept(rules[..i], defined))
      invariant Inverts(providers, Named(stem, names.asked))
    {
      assert rules[..i + 1][..i] == rules[..i];
      var r := rules[i];
      ghost var kept := Kept(rules[..i], defined);
      if r.group !in defined && !IsBuiltinPolicy(r.group) {
        assert Kept(rules[..i + 1], defined) == kept;
        continue;
      }
      assert Kept(rules[..i + 1], defined) == kept + [r];
      assert (kept + [r])[..|kept|] == kept;
      LinesKeep(lines, stem, kept, r);
      if r.url == "" {
        lines := lines + [InlineRule(r.inlined, r.group)];
        continue;
      }
      ghost var asked := names.asked;
      var name, first := names.Of(r.url);
      ProviderAdded(stem, providers, asked, r.url);
      if first { providers := providers[name := r.url]; }
      lines := lines + [ListRule(name, r.group)];
    }
    assert rules[..|rules|] == rules;
    LinesRead(lines, stem, Kept(rules, defined), providers);
  }

  // g is how the i-th group comes out.
  ghost predicate StandsAs(groups: seq<Group>, proxies: seq<string>, alive: set<string>, i: nat, g: Resolved) {
    i < |groups| && groups[i].name in alive && g == Resolved(groups[i].name, Members(groups[i], proxies, alive))
  }

  lemma {:induction false} StandingAre(groups: seq<Group>, proxies: seq<string>, alive: set<string>, g: Resolved)
    ensures g in Standing(groups, proxies, alive) <==> exists i: nat :: StandsAs(groups, proxies, alive, i, g)
  {
    if groups != [] {
      var init := groups[..|groups| - 1];
      StandingAre(init, proxies, alive, g);
      if i: nat :| StandsAs(init, proxies, alive, i, g) { assert StandsAs(groups, proxies, alive, i, g); }
      if i: nat :| StandsAs(groups, proxies, alive, i, g) {
        if i < |init| { assert StandsAs(init, proxies, alive, i, g); }
      }
      if g in Standing(groups, proxies, alive) && g !in Standing(init, proxies, alive) {
        assert StandsAs(groups, proxies, alive, |init|, g);
      }
    }
  }

  lemma StandingNamed(groups: seq<Group>, proxies: seq<string>, alive: set<string>, name: string)
    ensures (exists g :: g in Standing(groups, proxies, alive) && g.name == name) <==> name in alive && name in Names(groups)
  {
    var live := Standing(groups, proxies, alive);
    if g :| g in live && g.name == name {
      StandingAre(groups, proxies, alive, g);
      var i: nat :| StandsAs(groups, proxies, alive, i, g);
    }
    if name in alive && name in Names(groups) {
      var i :| 0 <= i < |groups| && groups[i].name == name;
      var g := Resolved(name, Members(groups[i], proxies, alive));
      assert StandsAs(groups, proxies, alive, i, g);
      StandingAre(groups, proxies, alive, g);
    }
  }

  lemma MemberCloses(groups: seq<Group>, proxies: seq<string>, alive: set<string>, g: Resolved, m: string)
    requires Supported(alive, groups, proxies) && g in Standing(groups, proxies, alive)
    ensures g.members != []
    ensures m in g.members ==>
              IsBuiltinPolicy(m) || m in proxies || exists h :: h in Standing(groups, proxies, alive) && h.name == m
  {
    StandingAre(groups, proxies, alive, g);
    var i: nat :| StandsAs(groups, proxies, alive, i, g);
    MembersAre(groups[i], proxies, alive, m);
    StandingNamed(groups, proxies, alive, m);
  }

  lemma LineCloses(r: Rendered, stem: string -> string, groups: seq<Group>, rules: seq<Rule>, proxies: seq<string>,
                   alive: set<string>, lines: seq<Line>, l: Line)
    requires alive <= Names(groups) && r.groups == Standing(groups, proxies, alive)
    requires RendersRules(lines, stem, Kept(rules, alive)) && l in lines
    requires Inverts(r.providers, Named(stem, Urls(Kept(rules, alive))))
    ensures IsBuiltinPolicy(Policy(l)) || exists h :: h in r.groups && h.name == Policy(l)
    ensures l.ListRule? ==> l.provider in r.providers
  {
    var kept := Kept(rules, alive);
    var i :| 0 <= i < |lines| && lines[i] == l;
    SelectHolds(rules, rule => HasPolicy(rule, alive), kept[i]);
    StandingNamed(groups, proxies, alive, Policy(l));
    if l.ListRule? {
      UrlsHold(kept, kept[i]);
      NamedHolds(stem, Urls(kept));
    }
  }

  lemma OutputCloses(r: Rendered, stem: string -> string, groups: seq<Group>, rules: seq<Rule>, proxies: seq<string>,
                     alive: set<string>, panel: seq<Line>, lines: seq<Line>)
    requires Supported(alive, groups, proxies) && r.groups == Standing(groups, proxies, alive)
    requires r.lines == panel + lines && forall l :: l in panel ==> l.PanelDirect?
    requires RendersRules(lines, stem, Kept(rules, alive))
    requires Inverts(r.providers, Named(stem, Urls(Kept(rules, alive))))
    ensures Closed(r, proxies)
  {
    forall g | g in r.groups ensures g.members != [] { MemberCloses(groups, proxies, alive, g, ""); }
    forall g, m | g in r.groups
      ensures m in g.members ==> IsBuiltinPolicy(m) || m in proxies || exists h :: h in r.groups && h.name == m
    {
      MemberCloses(groups, proxies, alive, g, m);
    }
    forall l | l in r.lines
      ensures IsBuiltinPolicy(Policy(l)) || exists h :: h in r.groups && h.name == Policy(l)
      ensures l.ListRule? ==> l.provider in r.providers
    {
      assert ToUpper("DIRECT") == "DIRECT";
      if l in lines { LineCloses(r, stem, groups, rules, proxies, alive, lines, l); }
    }
  }

  method Render(stem: string -> string, groups: seq<Group>, rules: seq<Rule>, proxies: seq<string>, host: string)
    returns (r: Rendered, ghost alive: set<string>)
    ensures Survivors(alive, groups, proxies) && r.groups == Standing(groups, proxies, alive)
    ensures (set d | d in r.dropped) == Names(groups) - alive
    ensures Inverts(r.providers, Named(stem, Urls(Kept(rules, alive))))
    ensures var panel := if host != "" then [PanelDirect(host)] else [];
            panel <= r.lines && RendersRules(r.lines[|panel|..], stem, Kept(rules, alive)) &&
            ReadsRules(r.lines[|panel|..], Kept(rules, alive), r.providers)
    ensures Closed(r, proxies)
  {
    var live, dropped;
    live, dropped, alive := ResolveGroups(groups, proxies);
    var defined := set i | 0 <= i < |live| :: live[i].name;
    forall name ensures name in defined <==> name in alive {
      StandingNamed(groups, proxies, alive, name);
      if g :| g in live && g.name == name { var i :| 0 <= i < |live| && live[i] == g; }
    }
    assert defined == alive;
    var lines, providers := RenderRules(stem, rules, defined);
    var panel := if host != "" then [PanelDirect(host)] else [];
    r := Rendered(live, providers, panel + lines, dropped);
    assert r.lines[|panel|..] == lines;
    OutputCloses(r, stem, groups, rules, proxies, alive, panel, lines);
  }

  // ---------- resolving a provider name again ----------

  lemma {:induction false} UrlsPrefix(rules: seq<Rule>, n: nat)
    requires n <= |rules|
    ensures |Urls(rules[..n])| <= |Urls(rules)| && Urls(rules)[..|Urls(rules[..n])|] == Urls(rules[..n])
  {
    if n < |rules| {
      var init := rules[..|rules| - 1];
      assert init[..n] == rules[..n];
      UrlsPrefix(init, n);
    } else {
      assert rules[..n] == rules;
    }
  }

  // The list a provider name stands for, found by replaying the namer over every list rule.
  method ListFor(stem: string -> string, rules: seq<Rule>, name: string) returns (url: Option<string>)
    ensures var named := Named(stem, Urls(rules));
            && (url.Some? ==> url.value in named && named[url.value] == name)
            && (url.None? ==> name !in named.Values)
  {
    var names := new Namer(stem);
    for i := 0 to |rules|
      invariant names.Valid() && fresh(names) && names.stem == stem
      invariant names.asked == Urls(rules[..i])
      invariant name !in Named(stem, names.asked).Values
    {
      assert rules[..i + 1][..i] == rules[..i];
      var rule := rules[i];
      if rule.url == "" { continue; }
      ghost var asked := names.asked;
      var got, _ := names.Of(rule.url);
      assert names.asked[..|asked|] == asked;
      if got == name {
        UrlsPrefix(rules, i + 1);
        NamesStable(stem, Urls(rules), |names.asked|, rule.url);
        return Some(rule.url);
      }
    }
    assert rules[..|rules|] == rules;
    url := None;
  }

  lemma {:induction false} UrlsAreOf(rules: seq<Rule>, u: string)
    ensures u in Urls(rules) <==> u != "" && exists r :: r in rules && r.url == u
  {
    if rules != [] {
      assert rules == rules[..|rules| - 1] + [rules[|rules| - 1]];
      UrlsAreOf(rules[..|rules| - 1], u);
    }
  }

  lemma KeptUrls(rules: seq<Rule>, defined: set<string>, u: string)
    ensures u in Urls(Kept(rules, defined)) ==> u in Urls(rules)
  {
    UrlsAreOf(rules, u);
    UrlsAreOf(Kept(rules, defined), u);
    if u in Urls(Kept(rules, defined)) {
      var r :| r in Kept(rules, defined) && r.url == u;
      SelectHolds(rules, rule => HasPolicy(rule, defined), r);
    }
  }

  // ListFor hands back the list Render meant exactly when both namers gave that list one name.
  lemma ListForAnswers(stem: string -> string, rules: seq<Rule>, defined: set<string>,
                       providers: map<string, string>, name: string, answer: Option<string>)
    requires Inverts(providers, Named(stem, Urls(Kept(rules, defined)))) && name in providers
    requires answer.Some? ==> answer.value in Named(stem, Urls(rules)) && Named(stem, Urls(rules))[answer.value] == name
    requires answer.None? ==> name !in Named(stem, Urls(rules)).Values
    ensures providers[name] in Named(stem, Urls(rules))
    ensures answer == Some(providers[name]) <==> Named(stem, Urls(rules))[providers[name]] == name
  {
    var u := providers[name];
    NamedHolds(stem, Urls(rules));
    NamedHolds(stem, Urls(Kept(rules, defined)));
    KeptUrls(rules, defined, u);
    if Named(stem, Urls(rules))[u] == name {
      assert name in Named(stem, Urls(rules)).Values;
      if answer.value != u { NamesDistinct(stem, Urls(rules), answer.value, u); }
    }
  }

  lemma UrlsOfOneMore(rules: seq<Rule>, r: Rule)
    ensures Urls(rules + [r]) == Urls(rules) + (if r.url != "" then [r.url] else [])
  {
    assert (rules + [r])[..|rules|] == rules;
  }

  lemma {:induction false} KeepsAllUrls(rules: seq<Rule>, defined: set<string>)
    requires forall r :: r in rules && r.url != "" ==> HasPolicy(r, defined)
    ensures Urls(Kept(rules, defined)) == Urls(rules)
  {
    if rules != [] {
      var init, last := rules[..|rules| - 1], rules[|rules| - 1];
      KeepsAllUrls(init, defined);
      var kept := Kept(init, defined);
      assert Kept(rules, defined) == kept + (if HasPolicy(last, defined) then [last] else []);
      assert kept + [] == kept && Urls(init) + [] == Urls(init);
      if HasPolicy(last, defined) { UrlsOfOneMore(kept, last); }
    }
  }

  // Where no list rule is skipped for its policy, every provider resolves to what Render meant.
  lemma NothingSkippedAgrees(stem: string -> string, rules: seq<Rule>, defined: set<string>,
                             providers: map<string, string>, name: string)
    requires Inverts(providers, Named(stem, Urls(Kept(rules, defined)))) && name in providers
    requires forall r :: r in rules && r.url != "" ==> HasPolicy(r, defined)
    ensures providers[name] in Named(stem, Urls(rules)) && Named(stem, Urls(rules))[providers[name]] == name
  {
    KeepsAllUrls(rules, defined);
  }

  lemma AgreesByRank(stem: string -> string, rules: seq<Rule>, defined: set<string>, u: string)
    requires BasesApart(stem, Urls(rules)) && u in Urls(Kept(rules, defined))
    ensures u in Urls(rules) && u in Named(stem, Urls(rules)) && u in Named(stem, Urls(Kept(rules, defined)))
    ensures Named(stem, Urls(rules))[u] == Named(stem, Urls(Kept(rules, defined)))[u] <==>
            Rank(stem, Urls(rules), u) == Rank(stem, Urls(Kept(rules, defined)), u)
  {
    var all, kept := Urls(rules), Urls(Kept(rules, defined));
    forall x | x in kept ensures x in all { KeptUrls(rules, defined, x); }
    NameByRank(stem, all, u, all);
    NameByRank(stem, kept, u, all);
    if Named(stem, all)[u] == Named(stem, kept)[u] {
      CandidateInjective(Base(stem, u), Rank(stem, all, u), Rank(stem, kept, u));
    }
  }

  // In general Render skips before it names and ListFor names everything. For lists whose bases
  // do not imitate one another's suffixes, a provider is answered with the list Render meant
  // exactly when as many namesakes of that list come before it among all the rules as among
  // the rendered ones.
  lemma ListForExact(stem: string -> string, rules: seq<Rule>, defined: set<string>,
                     providers: map<string, string>, name: string, answer: Option<string>)
    requires BasesApart(stem, Urls(rules))
    requires Inverts(providers, Named(stem, Urls(Kept(rules, defined)))) && name in providers
    requires answer.Some? ==> answer.value in Named(stem, Urls(rules)) && Named(stem, Urls(rules))[answer.value] == name
    requires answer.None? ==> name !in Named(stem, Urls(rules)).Values
    ensures providers[name] in Urls(rules) && providers[name] in Urls(Kept(rules, defined))
    ensures answer == Some(providers[name]) <==>
            Rank(stem, Urls(rules), providers[name]) == Rank(stem, Urls(Kept(rules, defined)), providers[name])
  {
    var u := providers[name];
    NamedHolds(stem, Urls(Kept(rules, defined)));
    AgreesByRank(stem, rules, defined, u);
    ListForAnswers(stem, rules, defined, providers, name, answer);
  }

  lemma SkippedFirst(skipped: Rule, kept: Rule, defined: set<string>)
    requires !HasPolicy(skipped, defined) && HasPolicy(kept, defined) && skipped.url != "" && kept.url != ""
    ensures Urls([skipped, kept]) == [skipped.url, kept.url] && Urls(Kept([skipped, kept], defined)) == [kept.url]
  {
    var rules := [skipped, kept];
    assert rules == [skipped] + [kept] && [skipped] == [] + [skipped] && [kept] == [] + [kept];
    UrlsOfOneMore([], skipped);
    UrlsOfOneMore([skipped], kept);
    UrlsOfOneMore([], kept);
    assert rules[..1] == [skipped] && [skipped][..0] == [];
    assert Kept([], defined) == [] && Kept([skipped], defined) == [] && Kept(rules, defined) == [kept];
  }

  // The first list named gets its bare base, whatever follows it.
  lemma {:induction false} FirstTakesTheBase(stem: string -> string, url: string, urls: seq<string>)
    requires urls != [] && urls[0] == url
    ensures url in Named(stem, urls) && Named(stem, urls)[url] == Base(stem, url)
    decreases |urls|
  {
    var n := |urls| - 1;
    if n == 0 {
      assert urls[..0] == [] && Candidate(Base(stem, url), 0) == Base(stem, url);
      FreeIndexIs(Base(stem, url), {}, 0);
    } else {
      FirstTakesTheBase(stem, url, urls[..n]);
    }
  }

  // The failing family: a list rule skipped ahead of its only namesake. The subscriber asks for
  // the provider the document names and is served the skipped list instead.
  lemma SkippedNamesakeIsServed(stem: string -> string, skipped: Rule, kept: Rule, defined: set<string>)
    requires !HasPolicy(skipped, defined) && HasPolicy(kept, defined)
    requires skipped.url != "" && kept.url != "" && skipped.url != kept.url
    requires Base(stem, skipped.url) == Base(stem, kept.url)
    ensures var rules := [skipped, kept];
            var rendered := Named(stem, Urls(Kept(rules, defined)));
            var replayed := Named(stem, Urls(rules));
            && kept.url in rendered && skipped.url in replayed
            && replayed[skipped.url] == rendered[kept.url]
  {
    var rules := [skipped, kept];
    SkippedFirst(skipped, kept, defined);
    FirstTakesTheBase(stem, skipped.url, [skipped.url, kept.url]);
    FirstTakesTheBase(stem, kept.url, [kept.url]);
  }

  lemma ImitatedUrls(a: Rule, b: Rule, c: Rule, defined: set<string>)
    requires !HasPolicy(a, defined) && HasPolicy(b, defined) && HasPolicy(c, defined)
    requires a.url != "" && b.url != "" && c.url != ""
    ensures Urls([a, b, c]) == [a.url, b.url, c.url] && Urls(Kept([a, b, c], defined)) == [b.url, c.url]
  {
    SkippedFirst(a, b, defined);
    assert [a, b, c] == [a, b] + [c] && [a, b, c][..2] == [a, b];
    UrlsOfOneMore([a, b], c);
    var kept := Kept([a, b], defined);
    assert Kept([a, b, c], defined) == kept + [c];
    UrlsOfOneMore(kept, c);
  }

  // ListForExact needs its hypothesis. A skipped list whose own base reads like a suffixed one takes
  // the name the second of two namesakes was rendered under, although the ranks agree.
  lemma ImitatingSkip(stem: string -> string, a: Rule, b: Rule, c: Rule, defined: set<string>)
    requires !HasPolicy(a, defined) && HasPolicy(b, defined) && HasPolicy(c, defined)
    requires a.url != "" && b.url != "" && c.url != "" && a.url != b.url && a.url != c.url && b.url != c.url
    requires Base(stem, b.url) == Base(stem, c.url) && Base(stem, a.url) == Candidate(Base(stem, c.url), 1)
    ensures var all, kept := Urls([a, b, c]), Urls(Kept([a, b, c], defined));
            && c.url in all && c.url in kept && Rank(stem, all, c.url) == Rank(stem, kept, c.url)
            && c.url in Named(stem, kept) && c.url in Named(stem, all) && a.url in Named(stem, all)
            && Named(stem, all)[a.url] == Named(stem, kept)[c.url]
            && Named(stem, all)[c.url] != Named(stem, kept)[c.url]
  {
    var base := Base(stem, c.url);
    ImitatedUrls(a, b, c, defined);
    var all, kept := [a.url, b.url, c.url], [b.url, c.url];
    FirstTakesTheBase(stem, b.url, [b.url]);
    FirstTakesTheBase(stem, a.url, all);
    assert kept[..1] == [b.url] && [b.url][..0] == [];
    assert Named(stem, [b.url]) == map[b.url := base];
    assert Candidate(base, 0) == base;
    assert |Candidate(base, 1)| > |base|;
    FreeIndexIs(base, {base}, 1);
    assert Named(stem, kept)[c.url] == Candidate(base, 1);
    NamedHolds(stem, all);
    NamesDistinct(stem, all, a.url, c.url);
    assert all[..2] == [a.url, b.url];
    assert Namesakes(stem, all[..2], base) == {b.url};
    assert Namesakes(stem, kept[..1], base) == {b.url};
  }

  lemma AmongOneMore(urls: seq<string>, url: string, near: set<string>)
    ensures Among(urls + [url], near) == Among(urls, near) + if url in near then [url] else []
  {
    assert (urls + [url])[..|urls|] == urls;
  }

  lemma {:induction false} KeepsNearUrls(rules: seq<Rule>, defined: set<string>, near: set<string>)
    requires forall r :: r in rules && r.url != "" && r.url in near ==> HasPolicy(r, defined)
    ensures Among(Urls(Kept(rules, defined)), near) == Among(Urls(rules), near)
  {
    if rules != [] {
      var init, last := rules[..|rules| - 1], rules[|rules| - 1];
      assert rules == init + [last];
      KeepsNearUrls(init, defined, near);
      var kept := Kept(init, defined);
      UrlsOfOneMore(init, last);
      UrlsOfOneMore(kept, last);
      assert Kept(rules, defined) == kept + (if HasPolicy(last, defined) then [last] else []);
      assert kept + [] == kept;
      if last.url != "" {
        AmongOneMore(Urls(init), last.url, near);
        AmongOneMore(Urls(kept), last.url, near);
      } else {
        assert Urls(init) + [] == Urls(init) && Urls(kept) + [] == Urls(kept);
      }
    }
  }

  // What holds for any names at all: a provider resolves to what Render meant as soon as no list
  // that could get in its way was skipped, whatever happened to the others.
  lemma AgreesWhereNoRivalIsSkipped(stem: string -> string, rules: seq<Rule>, defined: set<string>,
                                    providers: map<string, string>, name: string, near: set<string>)
    requires Inverts(providers, Named(stem, Urls(Kept(rules, defined)))) && name in providers
    requires providers[name] in near && Unrivalled(stem, near, Urls(rules))
    requires forall r :: r in rules && r.url != "" && r.url in near ==> HasPolicy(r, defined)
    ensures providers[name] in Named(stem, Urls(rules)) && Named(stem, Urls(rules))[providers[name]] == name
  {
    var all, kept := Urls(rules), Urls(Kept(rules, defined));
    NamedHolds(stem, kept);
    forall x | x in kept ensures x in all { KeptUrls(rules, defined, x); }
    OnlyNearMatters(stem, all, near, all);
    OnlyNearMatters(stem, kept, near, all);
    assert NamedAlone(stem, all, near, providers[name]) && NamedAlone(stem, kept, near, providers[name]);
    KeepsNearUrls(rules, defined, near);
  }
}
