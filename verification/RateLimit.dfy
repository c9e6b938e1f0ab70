/** A fixed-window rate limiter with a bounded number of windows. Times and durations are in
  * nanoseconds. */
module RateLimit {
  import opened Collections

  const SECOND := 1_000_000_000

  datatype Limit = Limit(n: int, window: int)
  datatype Bucket = Bucket(count: int, reset: int)
  type Buckets = map<string, Bucket>

  function Max(x: int, y: int): int { if x < y then y else x }

  // ---------- one call ----------

  predicate Opens(b: Buckets, key: string, now: int) { key !in b || now > b[key].reset }

  function Live(b: Buckets, now: int): Buckets { map k | k in b && now <= b[k].reset :: b[k] }

  ghost predicate Earliest(b: Buckets, key: string) {
    key in b && forall k :: k in b ==> b[key].reset <= b[k].reset
  }

  // Expired windows go; a live one only if that left no room, and then one that resets first.
  ghost predicate EvictedTo(b: Buckets, b': Buckets, max: int, now: int) {
    var live := Live(b, now);
    if |live| < max || live == map[] then b' == live
    else exists victim :: Earliest(live, victim) && b' == live - {victim}
  }

  datatype Event =
    | Allow(key: string, lim: Limit, now: int, ok: bool, wait: int)
    | Prune(now: int)

  ghost predicate RoomMade(b: Buckets, b': Buckets, max: int, now: int) {
    if |b| >= max then EvictedTo(b, b', max, now) else b' == b
  }

  ghost predicate Opened(b: Buckets, b': Buckets, max: int, key: string, lim: Limit, now: int) {
    exists room :: RoomMade(b, room, max, now) && b' == room[key := Bucket(1, now + lim.window)]
  }

  ghost predicate Next(b: Buckets, b': Buckets, max: int, e: Event) {
    match e
    case Prune(now) => b' == Live(b, now)
    case Allow(key, lim, now, ok, wait) =>
      if Opens(b, key, now) then ok && wait == 0 && Opened(b, b', max, key, lim, now)
      else if b[key].count >= lim.n then !ok && wait == b[key].reset - now && b' == b
      else ok && wait == 0 && b' == b[key := b[key].(count := b[key].count + 1)]
  }

  function RetryAfter(wait: int): int { wait / SECOND + 1 }

  lemma LiveFewer(b: Buckets, now: int)
    ensures Live(b, now).Keys <= b.Keys && |Live(b, now)| <= |b|
    ensures |Live(b, now)| == |b| ==> Live(b, now) == b
  {
    SubsetFewer(Live(b, now).Keys, b.Keys);
    if |Live(b, now)| == |b| { assert Live(b, now).Keys == b.Keys; }
  }

  lemma RoomFits(b: Buckets, room: Buckets, max: int, now: int)
    requires RoomMade(b, room, max, now) && |b| <= Max(1, max)
    ensures |room| < Max(1, max) && room.Keys <= b.Keys
  {
    LiveFewer(b, now);
  }

  class Limiter {
    var buckets: Buckets
    const max: int

    // The empty key doubles as "none yet" in Evict; a throttled key always holds a bar.
    ghost predicate Valid()
      reads this
    {
      "" !in buckets && |buckets| <= Max(1, max)
    }

    constructor (max: int)
      ensures Valid() && buckets == map[] && this.max == max
    {
      buckets, this.max := map[], max;
    }

    method DropExpired(now: int)
      modifies this`buckets
      ensures buckets == Live(old(buckets), now)
    {
      var todo := buckets.Keys;
      while todo != {}
        invariant todo <= buckets.Keys <= old(buckets).Keys
        invariant forall k :: k in old(buckets) ==> (k in buckets <==> k in todo || now <= old(buckets)[k].reset)
        invariant forall k :: k in buckets ==> buckets[k] == old(buckets)[k]
        decreases todo
      {
        var key :| key in todo;
        todo := todo - {key};
        if now > buckets[key].reset { buckets := buckets - {key}; }
      }
    }

    method Evict(now: int)
      requires "" !in buckets
      modifies this`buckets
      ensures EvictedTo(old(buckets), buckets, max, now)
    {
      DropExpired(now);
      if |buckets| < max { return; }
      var oldestKey, oldest := "", 0;
      var todo := buckets.Keys;
      while todo != {}
        invariant todo <= buckets.Keys
        invariant oldestKey == "" ==> todo == buckets.Keys
        invariant oldestKey != "" ==> oldestKey in buckets && oldest == buckets[oldestKey].reset
        invariant forall k :: k in buckets && k !in todo ==> oldest <= buckets[k].reset
        decreases todo
      {
        var key :| key in todo;
        todo := todo - {key};
        if oldestKey == "" || buckets[key].reset < oldest {
          oldestKey, oldest := key, buckets[key].reset;
        }
      }
      assert buckets != map[] ==> oldestKey != "" && Earliest(buckets, oldestKey);
      buckets := buckets - {oldestKey};
    }

    method Allow(key: string, lim: Limit, now: int) returns (ok: bool, wait: int)
      requires Valid() && key != ""
      modifies this`buckets
      ensures Valid() && Next(old(buckets), buckets, max, Event.Allow(key, lim, now, ok, wait))
    {
      if key !in buckets || now > buckets[key].reset {
        if |buckets| >= max { Evict(now); }
        ghost var room := buckets;
        assert RoomMade(old(buckets), room, max, now);
        RoomFits(old(buckets), room, max, now);
        buckets := buckets[key := Bucket(1, now + lim.window)];
        assert Opened(old(buckets), buckets, max, key, lim, now);
        return true, 0;
      }
      var b := buckets[key];
      if b.count >= lim.n { return false, b.reset - now; }
      assert buckets[key := b].Keys == buckets.Keys;
      buckets := buckets[key := b.(count := b.count + 1)];
      return true, 0;
    }

    method Prune(now: int)
      requires Valid()
      modifies this`buckets
      ensures Valid() && Next(old(buckets), buckets, max, Event.Prune(now))
    {
      LiveFewer(buckets, now);
      DropExpired(now);
    }

    // One request to a throttled route: 0 lets it through, otherwise the Retry-After sent back.
    method Throttle(name: string, ip: string, lim: Limit, now: int) returns (retryAfter: int)
      requires Valid()
      modifies this`buckets
      ensures Valid()
      ensures exists ok, wait :: Next(old(buckets), buckets, max, Event.Allow(name + "|" + ip, lim, now, ok, wait)) &&
                retryAfter == if ok then 0 else RetryAfter(wait)
      ensures 0 <= retryAfter
    {
      var ok, wait := Allow(name + "|" + ip, lim, now);
      retryAfter := if ok then 0 else RetryAfter(wait);
      assert Next(old(buckets), buckets, max, Event.Allow(name + "|" + ip, lim, now, ok, wait));
    }
  }

  // ---------- memory stays bounded ----------

  lemma SizeBounded(b: Buckets, b': Buckets, max: int, e: Event)
    requires Next(b, b', max, e) && |b| <= Max(1, max)
    ensures |b'| <= Max(1, max)
  {
    match e
    case Prune(now) => LiveFewer(b, now);
    case Allow(key, lim, now, ok, wait) =>
      if Opens(b, key, now) {
        var room :| RoomMade(b, room, max, now) && b' == room[key := Bucket(1, now + lim.window)];
        RoomFits(b, room, max, now);
        assert b'.Keys == room.Keys + {key};
      } else {
        assert b'.Keys == b.Keys;
      }
  }

  // A prune takes every expired window and nothing else.
  lemma PruneTakesTheExpired(b: Buckets, b': Buckets, max: int, now: int, k: string)
    requires Next(b, b', max, Prune(now))
    ensures k in b' <==> k in b && now <= b[k].reset
    ensures k in b' ==> b'[k] == b[k]
  {
  }

  // A live window is lost only to a newcomer that finds all max of them live, and then it is
  // one that resets first.
  lemma LiveLostOnlyWhenFull(b: Buckets, b': Buckets, max: int, e: Event, k: string)
    requires Next(b, b', max, e) && 1 <= max && |b| <= max
    requires k in b && e.now <= b[k].reset && k !in b'
    ensures e.Allow? && e.key !in b && |b| == max
    ensures forall j :: j in b ==> e.now <= b[j].reset && b[k].reset <= b[j].reset
  {
    LiveFewer(b, e.now);
    var room :| RoomMade(b, room, max, e.now) && b' == room[e.key := Bucket(1, e.now + e.lim.window)];
    assert k in Live(b, e.now);
  }

  // ---------- whole runs ----------

  // The last clock reading before event i.
  function Clock(es: seq<Event>, i: nat): int
    requires i <= |es|
  {
    if i > 0 then es[i - 1].now else if |es| > 0 then es[0].now else 0
  }

  // Event i leads from one state to the next, on a clock that does not go back.
  ghost predicate Follows(states: seq<Buckets>, es: seq<Event>, max: int, i: nat)
    requires |states| == |es| + 1 && i < |es|
  {
    Next(states[i], states[i + 1], max, es[i]) && Clock(es, i) <= es[i].now
  }

  ghost predicate Run(states: seq<Buckets>, es: seq<Event>, max: int) {
    && |states| == |es| + 1 && states[0] == map[]
    && forall i :: 0 <= i < |es| ==> Follows(states, es, max, i)
  }

  ghost predicate AlwaysUnder(es: seq<Event>, key: string, lim: Limit) {
    forall i :: 0 <= i < |es| && es[i].Allow? && es[i].key == key ==> es[i].lim == lim
  }

  ghost predicate KeptWhileLive(states: seq<Buckets>, es: seq<Event>, key: string)
    requires |states| == |es| + 1
  {
    forall i :: 0 <= i < |es| && key in states[i] && es[i].now <= states[i][key].reset ==> key in states[i + 1]
  }

  predicate Admits(e: Event, key: string, lo: int, hi: int) {
    e.Allow? && e.key == key && e.ok && lo <= e.now <= hi
  }

  // Requests of key let through among the first i events, at times lo to hi.
  function Admitted(es: seq<Event>, i: nat, key: string, lo: int, hi: int): nat
    requires i <= |es|
  {
    if i == 0 then 0 else Admitted(es, i - 1, key, lo, hi) + if Admits(es[i - 1], key, lo, hi) then 1 else 0
  }

  lemma {:induction false} RunBounded(states: seq<Buckets>, es: seq<Event>, max: int, i: nat)
    requires Run(states, es, max) && i <= |es|
    ensures |states[i]| <= Max(1, max)
  {
    if i > 0 {
      RunBounded(states, es, max, i - 1);
      assert Follows(states, es, max, i - 1);
      SizeBounded(states[i - 1], states[i], max, es[i - 1]);
    }
  }

  // What any event does to one key's window.
  lemma OneKey(b: Buckets, b': Buckets, max: int, e: Event, key: string)
    requires Next(b, b', max, e)
    ensures e.Allow? && e.key == key ==>
              if Opens(b, key, e.now) then e.ok && key in b' && b'[key] == Bucket(1, e.now + e.lim.window)
              else key in b' && b'[key] == b[key].(count := b[key].count + if e.ok then 1 else 0) && (e.ok <==> b[key].count < e.lim.n)
    ensures !(e.Allow? && e.key == key) && key in b' ==> key in b && b'[key] == b[key]
  {
    if e.Allow? && Opens(b, e.key, e.now) {
      var room :| RoomMade(b, room, max, e.now) && b' == room[e.key := Bucket(1, e.now + e.lim.window)];
      assert forall k :: k in room ==> k in b && room[k] == b[k];
    }
  }

  // The bound after i events, by where the current window opened relative to lo.
  ghost predicate Tally(b: Buckets, key: string, lim: Limit, lo: int, last: int, admitted: nat) {
    var quota := Max(1, lim.n);
    && admitted <= 2 * quota - 1
    && (key in b ==> 1 <= b[key].count <= quota)
    && (last < lo ==> admitted == 0)
    && (last <= lo + lim.window ==>
          && (key !in b ==> admitted < quota)
          && (key in b && b[key].reset < lo + lim.window ==> admitted < b[key].count)
          && (key in b && b[key].reset >= lo + lim.window ==> admitted < quota + b[key].count))
  }

  lemma TallyKept(b: Buckets, b': Buckets, max: int, e: Event, key: string, lim: Limit, lo: int, last: int, admitted: nat)
    requires Next(b, b', max, e) && Tally(b, key, lim, lo, last, admitted) && last <= e.now
    requires e.Allow? && e.key == key ==> e.lim == lim
    requires key in b && e.now <= b[key].reset ==> key in b'
    ensures Tally(b', key, lim, lo, e.now, admitted + if Admits(e, key, lo, lo + lim.window) then 1 else 0)
  {
    OneKey(b, b', max, e, key);
  }

  lemma {:induction false} TallyHolds(states: seq<Buckets>, es: seq<Event>, max: int, key: string, lim: Limit, lo: int, i: nat)
    requires Run(states, es, max) && AlwaysUnder(es, key, lim) && KeptWhileLive(states, es, key) && i <= |es|
    ensures Tally(states[i], key, lim, lo, Clock(es, i), Admitted(es, i, key, lo, lo + lim.window))
  {
    if i > 0 {
      var j := i - 1;
      TallyHolds(states, es, max, key, lim, lo, j);
      assert Follows(states, es, max, j);
      TallyKept(states[j], states[i], max, es[j], key, lim, lo, Clock(es, j), Admitted(es, j, key, lo, lo + lim.window));
    }
  }

  // Any stretch of one window's length, ends included, sees at most one request short of twice the
  // quota: the request that opened the earlier window lies outside it.
  lemma UnderTwiceTheQuota(states: seq<Buckets>, es: seq<Event>, max: int, key: string, lim: Limit, lo: int)
    requires Run(states, es, max) && AlwaysUnder(es, key, lim) && KeptWhileLive(states, es, key)
    ensures Admitted(es, |es|, key, lo, lo + lim.window) <= 2 * Max(1, lim.n) - 1
  {
    TallyHolds(states, es, max, key, lim, lo, |es|);
  }

  // And no less than that: two a window, spent at its very end and again as the next one opens.
  function BoundaryEvents(): seq<Event> {
    var lim := Limit(2, 10);
    [Event.Allow("login", lim, 0, true, 0), Event.Allow("login", lim, 10, true, 0),
     Event.Allow("login", lim, 11, true, 0), Event.Allow("login", lim, 12, true, 0)]
  }

  function BoundaryStates(): seq<Buckets> {
    [map[], map["login" := Bucket(1, 10)], map["login" := Bucket(2, 10)],
     map["login" := Bucket(1, 21)], map["login" := Bucket(2, 21)]]
  }

  lemma BoundaryOpens(b: Buckets, now: int)
    requires |b| < 2 && Opens(b, "login", now)
    ensures Next(b, b["login" := Bucket(1, now + 10)], 2, Event.Allow("login", Limit(2, 10), now, true, 0))
  {
    assert RoomMade(b, b, 2, now);
  }

  lemma BoundaryRuns()
    ensures Run(BoundaryStates(), BoundaryEvents(), 2)
  {
    var states, es := BoundaryStates(), BoundaryEvents();
    BoundaryOpens(states[0], 0);
    assert Follows(states, es, 2, 0);
    assert Follows(states, es, 2, 1);
    BoundaryOpens(states[2], 11);
    assert states[2]["login" := Bucket(1, 21)] == states[3];
    assert Follows(states, es, 2, 2);
    assert Follows(states, es, 2, 3);
  }

  lemma TwiceTheQuotaNearlyReached()
    ensures exists states, es ::
      Run(states, es, 2) && AlwaysUnder(es, "login", Limit(2, 10)) && KeptWhileLive(states, es, "login") &&
      Admitted(es, |es|, "login", 10, 20) == 3
  {
    var states, es := BoundaryStates(), BoundaryEvents();
    BoundaryRuns();
    assert Admitted(es, 1, "login", 10, 20) == 0;
    assert Admitted(es, 2, "login", 10, 20) == 1;
    assert Admitted(es, 3, "login", 10, 20) == 2;
    assert Admitted(es, 4, "login", 10, 20) == 3;
    assert AlwaysUnder(es, "login", Limit(2, 10)) && KeptWhileLive(states, es, "login");
  }

  lemma {:induction false} WiderAdmitsMore(es: seq<Event>, i: nat, key: string, lo: int, hi: int, lo': int, hi': int)
    requires i <= |es| && lo' <= lo && hi <= hi'
    ensures Admitted(es, i, key, lo, hi) <= Admitted(es, i, key, lo', hi')
  {
    if i > 0 { WiderAdmitsMore(es, i - 1, key, lo, hi, lo', hi'); }
  }

  lemma CountStep(b: Buckets, b': Buckets, max: int, es: seq<Event>, j: nat, key: string, lim: Limit)
    requires j < |es| && Next(b, b', max, es[j]) && Clock(es, j) <= es[j].now
    requires es[j].Allow? && es[j].key == key ==> es[j].lim == lim
    requires key in b ==> b[key].count <= Admitted(es, j, key, b[key].reset - lim.window, Clock(es, j)) &&
                          b[key].reset - lim.window <= Clock(es, j)
    requires key in b'
    ensures b'[key].count <= Admitted(es, j + 1, key, b'[key].reset - lim.window, es[j].now)
    ensures b'[key].reset - lim.window <= es[j].now
  {
    OneKey(b, b', max, es[j], key);
    if key in b {
      var lo := b[key].reset - lim.window;
      WiderAdmitsMore(es, j, key, lo, Clock(es, j), lo, es[j].now);
    }
  }

  // Every attempt a window has counted was let through since it opened.
  lemma {:induction false} CountedWereAdmitted(states: seq<Buckets>, es: seq<Event>, max: int, key: string, lim: Limit, i: nat)
    requires Run(states, es, max) && AlwaysUnder(es, key, lim) && i <= |es| && key in states[i]
    ensures states[i][key].count <= Admitted(es, i, key, states[i][key].reset - lim.window, Clock(es, i))
    ensures states[i][key].reset - lim.window <= Clock(es, i)
  {
    if i > 0 {
      var j := i - 1;
      assert Follows(states, es, max, j);
      if key in states[j] { CountedWereAdmitted(states, es, max, key, lim, j); }
      CountStep(states[j], states[i], max, es, j, key, lim);
    }
  }

  // Nobody is refused who has not had n requests let through within the window behind them.
  lemma RefusedOnlyWhenSpent(states: seq<Buckets>, es: seq<Event>, max: int, key: string, lim: Limit, i: nat)
    requires Run(states, es, max) && AlwaysUnder(es, key, lim) && i < |es|
    requires es[i].Allow? && es[i].key == key && !es[i].ok
    ensures Admitted(es, i, key, es[i].now - lim.window, es[i].now) >= lim.n
  {
    assert Follows(states, es, max, i);
    OneKey(states[i], states[i + 1], max, es[i], key);
    CountedWereAdmitted(states, es, max, key, lim, i);
    WiderAdmitsMore(es, i, key, states[i][key].reset - lim.window, Clock(es, i), es[i].now - lim.window, es[i].now);
  }

  // ---------- Retry-After ----------

  // Waiting that long lands past the reset, so the next request is let through, unless the same
  // client has spent a new window meanwhile; a second less would still be refused.
  lemma RetryAfterIsEnough(b: Buckets, b': Buckets, max: int, e: Event, later: Buckets, again: int)
    requires Next(b, b', max, e) && e.Allow? && !e.ok
    requires e.key in later ==> later[e.key] == b'[e.key]
    ensures again >= e.now + RetryAfter(e.wait) * SECOND ==> Opens(later, e.key, again)
    ensures !Opens(b', e.key, e.now + (RetryAfter(e.wait) - 1) * SECOND)
    ensures RetryAfter(e.wait) >= 1
  {
  }
}
